/** One frame of the game loop without drawing or pacing: read the keys,
    commit the direction, move, eat the apple if the head is on it, and
    start over if the head ran into the body. */
module GameLoop {
  import opened Optional
  import opened Grid
  import opened Snakes
  import opened Apples
  import opened Controls

  datatype Game = Game(snake: Snake, apple: Apple)

  /** What the outside world supplies for one frame: the polled events and
      the two random cells the apple may be moved to (on eating, on reset). */
  datatype TickInput = TickInput(events: seq<Event>, eatDraw: GridCell, resetDraw: GridCell)

  /** The game state between two frames. */
  predicate Valid(g: Game) {
    Snakes.Valid(g.snake) && OnBoard(g.apple.position)
  }

  /** The game as it starts: a new snake and a randomly placed apple. */
  function NewGame(c: GridCell): (g: Game)
    ensures Valid(g)
    ensures g.snake == NewSnake() && g.apple == RandomizePosition(c)  // definitional
  {
    NewSnakeValid();
    Game(NewSnake(), NewApple(c))
  }

  /** Steps 1-2 of a frame: the keys, the direction commit and the move. The
      snake heads the way the last accepted key asked, else the way that was
      already pending, else on as before; it then moves exactly as `Move`
      does with that direction. The target length is untouched, nothing
      stays pending, and a snake whose pending direction was sound does not
      turn back on itself. */
  function Advance(s: Snake, es: seq<Event>): (r: Snake)
    requires |s.positions| > 0
    ensures r.direction ==
              if LastAccepted(s.direction, es).Some? then LastAccepted(s.direction, es).value
              else if s.nextDirection.Some? then s.nextDirection.value
              else s.direction
    ensures r == Move(s.(direction := r.direction, nextDirection := None))
    ensures r.length == s.length && r.nextDirection == None
    ensures |r.positions| > 0 && r.positions[0] == r.position
    ensures r.position == NextCell(s.positions[0], r.direction)
    ensures PendingOk(s) ==> r.direction != Opposite(s.direction)
  {
    HandleEventsIsLastAccepted(s, es);
    var steered := UpdateDirection(HandleEvents(s, es));
    Move(steered)
  }

  /** Step 3: a head on the apple raises the target length by exactly one
      and re-places the apple; otherwise nothing changes. */
  function Eat(g: Game, c: GridCell): (r: Game)
    requires |g.snake.positions| > 0
    ensures r.snake.positions == g.snake.positions
    ensures r.snake == g.snake.(length := r.snake.length)
    ensures r.snake.length == g.snake.length + 1 <==> GetHead(g.snake) == g.apple.position
    ensures GetHead(g.snake) == g.apple.position ==> r.apple == RandomizePosition(c)
    ensures GetHead(g.snake) != g.apple.position ==> r == g
  {
    if GetHead(g.snake) == g.apple.position then
      Game(g.snake.(length := g.snake.length + 1), RandomizePosition(c))
    else
      g
  }

  /** The head runs into the body when it occupies a non-head segment. */
  predicate Collided(s: Snake): (b: bool)
    requires |s.positions| > 0
    ensures b <==> exists i :: 1 <= i < |s.positions| && s.positions[i] == s.positions[0]
  {
    GetHead(s) in s.positions[1..]
  }

  /** Step 4: on a collision the snake restarts and the apple is re-placed.
      Without one, a body free of repeats gives a snake free of repeats. */
  function Collide(g: Game, c: GridCell): (r: Game)
    requires |g.snake.positions| > 0
    ensures Collided(g.snake) ==> r.snake == NewSnake() && r.apple == RandomizePosition(c)
    ensures !Collided(g.snake) ==> r == g
    ensures Distinct(g.snake.positions[1..]) ==> Distinct(r.snake.positions)
  {
    if Collided(g.snake) then
      Game(Reset(g.snake), RandomizePosition(c))
    else
      assert Distinct(g.snake.positions[1..]) ==> Distinct(g.snake.positions) by {
        var ps := g.snake.positions;
        if Distinct(ps[1..]) {
          forall i, j | 0 <= i < j < |ps| ensures ps[i] != ps[j] {
            if i == 0 {
              assert ps[j] == ps[1..][j - 1];
            } else {
              assert ps[i] == ps[1..][i - 1] && ps[j] == ps[1..][j - 1];
            }
          }
        }
      }
      g
  }

  /** One whole frame: the snake either restarts or keeps its target length
      or raises it by one; nothing is left pending; the apple stays put or
      moves to one of the frame's draws. */
  function Tick(g: Game, t: TickInput): (r: Game)
    requires |g.snake.positions| > 0
    ensures |r.snake.positions| > 0 && r.snake.nextDirection == None
    ensures r.snake == NewSnake() || r.snake.length == g.snake.length || r.snake.length == g.snake.length + 1
    ensures r.apple == g.apple || r.apple == RandomizePosition(t.eatDraw) || r.apple == RandomizePosition(t.resetDraw)
  {
    var moved := Advance(g.snake, t.events);
    Collide(Eat(Game(moved, g.apple), t.eatDraw), t.resetDraw)
  }

  /** A sequence of frames, first to last. */
  function Run(g: Game, ts: seq<TickInput>): (r: Game)
    requires |g.snake.positions| > 0
    ensures |r.snake.positions| > 0
    decreases |ts|
  {
    if |ts| == 0 then g else Run(Tick(g, ts[0]), ts[1..])
  }

  /** Eating without crashing: the target length goes up by exactly one, the
      apple moves to the eating draw and the body is the moved body. */
  lemma TickEats(g: Game, t: TickInput)
    requires |g.snake.positions| > 0
    requires GetHead(Advance(g.snake, t.events)) == g.apple.position
    requires !Collided(Advance(g.snake, t.events))
    ensures Tick(g, t).snake.length == g.snake.length + 1
    ensures Tick(g, t).apple == RandomizePosition(t.eatDraw)
    ensures Tick(g, t).snake.positions == Advance(g.snake, t.events).positions
  {
  }

  /** Running into the body ends the frame in the start state, with the
      apple at the reset draw, whether or not the apple was eaten first. */
  lemma TickResets(g: Game, t: TickInput)
    requires |g.snake.positions| > 0
    requires Collided(Advance(g.snake, t.events))
    ensures Tick(g, t).snake == NewSnake()
    ensures Tick(g, t).apple == RandomizePosition(t.resetDraw)
  {
    var moved := Advance(g.snake, t.events);
    var fed := Eat(Game(moved, g.apple), t.eatDraw);
    assert fed.snake.positions == moved.positions;
  }

  /** A frame with neither apple nor collision only moves the snake. */
  lemma TickPlainMove(g: Game, t: TickInput)
    requires |g.snake.positions| > 0
    requires GetHead(Advance(g.snake, t.events)) != g.apple.position
    requires !Collided(Advance(g.snake, t.events))
    ensures Tick(g, t) == Game(Advance(g.snake, t.events), g.apple)
  {
  }

  /** The moved snake of a valid game is valid except possibly for a head
      that lands on its body. */
  lemma AdvanceShape(s: Snake, es: seq<Event>)
    requires Snakes.Valid(s)
    ensures var m := Advance(s, es);
      && 1 <= |m.positions| <= m.length
      && (forall i :: 0 <= i < |m.positions| ==> OnBoard(m.positions[i]))
      && Distinct(m.positions[1..])
      && (m.last.Some? ==> OnBoard(m.last.value))
      && |m.positions| == if |s.positions| < s.length then |s.positions| + 1 else s.length
  {
    var steered := UpdateDirection(HandleEvents(s, es));
    assert steered.positions == s.positions && steered.length == s.length;
    var m := Move(steered);
    MoveLength(steered);
    MoveBodyIsOldPrefix(steered);
    var body := m.positions[1..];
    assert forall i :: 0 <= i < |body| ==> body[i] == s.positions[i];
    forall i | 0 <= i < |m.positions| ensures OnBoard(m.positions[i]) {
      if i > 0 {
        assert m.positions[i] == body[i - 1];
      }
    }
  }

  /** A frame keeps the game valid: the body stays within its target length,
      on the board and free of repeats, nothing is left pending, the vacated
      cell and the apple are board cells. */
  lemma TickPreservesValid(g: Game, t: TickInput)
    requires Valid(g)
    ensures Valid(Tick(g, t))
  {
    var moved := Advance(g.snake, t.events);
    AdvanceShape(g.snake, t.events);
    var fed := Eat(Game(moved, g.apple), t.eatDraw);
    assert fed.snake.positions == moved.positions;
    if !Collided(fed.snake) {
      assert Tick(g, t) == fed;
    } else {
      NewSnakeValid();
    }
  }

  /** The body grows by at most one cell a frame; a frame that does not end
      in a reset gives exactly min(old size + 1, old target length). */
  lemma TickGrowth(g: Game, t: TickInput)
    requires Valid(g)
    ensures |Tick(g, t).snake.positions| <= |g.snake.positions| + 1
    ensures !Collided(Advance(g.snake, t.events)) ==>
              |Tick(g, t).snake.positions| ==
                if |g.snake.positions| < g.snake.length then |g.snake.positions| + 1 else g.snake.length
  {
    AdvanceShape(g.snake, t.events);
  }

  /** Every frame of a run keeps the game valid. */
  lemma {:induction false} RunPreservesValid(g: Game, ts: seq<TickInput>)
    requires Valid(g)
    ensures Valid(Run(g, ts))
    decreases |ts|
  {
    if |ts| > 0 {
      TickPreservesValid(g, ts[0]);
      RunPreservesValid(Tick(g, ts[0]), ts[1..]);
    }
  }

  /** Over n frames the body gains at most n cells. */
  lemma {:induction false} RunGrowth(g: Game, ts: seq<TickInput>)
    requires Valid(g)
    ensures |Run(g, ts).snake.positions| <= |g.snake.positions| + |ts|
    decreases |ts|
  {
    if |ts| > 0 {
      TickGrowth(g, ts[0]);
      TickPreservesValid(g, ts[0]);
      RunGrowth(Tick(g, ts[0]), ts[1..]);
    }
  }

  /** The opening frame with the apple right of the start cell and no keys:
      the head moves to (340, 240), the start cell is vacated, the apple is
      eaten and the target length becomes 2. */
  lemma FirstTickScenario(eat: GridCell, reset: GridCell)
    ensures var g := Game(NewSnake(), Apple(Pos(340, 240)));
      var r := Tick(g, TickInput([], eat, reset));
      && r.snake.positions == [Pos(340, 240)]
      && r.snake.last == Some(Pos(320, 240))
      && r.snake.length == 2
      && r.snake.direction == Right
      && r.apple == RandomizePosition(eat)
      && OnBoard(r.apple.position)
  {
    var g := Game(NewSnake(), Apple(Pos(340, 240)));
    var m := Advance(g.snake, []);
    assert HandleEvents(g.snake, []) == g.snake;
    assert m.positions == [Pos(340, 240)];
    assert !Collided(m);
  }
}
