# Snake game state, modelled in Dafny

A model of the game logic of `the_snake.py`, a small pygame snake game, with
everything pygame does (windows, drawing, events, the frame clock) taken out.
What is left is a deterministic state machine over integer pixel coordinates:

- `Grid` — the constants (640×480 screen, 20-pixel cells, 32×24 grid), the
  four directions as unit vectors, and the torus step `NextCell`, which wraps
  each axis with `%`. Python's `%` with a positive divisor and Dafny's
  Euclidean `%` agree, so the wrap is written directly.
- `Snakes` — the snake record (segments head first, target length, active
  direction, optional pending direction, last vacated cell, cached head
  position) and its operations: construction, `get_head_position`,
  `update_direction`, `move` and `reset`.
- `Apples` — the apple and `randomize_position`. The random draw is an
  argument: a `GridCell` whose column and row lie in the range `randint`
  draws from, both ends included.
- `Controls` — the arrow-key filter of `handle_keys`. A frame's events are a
  sequence that is handled in order.
- `GameLoop` — one frame of the main loop (keys, commit, move, eat, collide),
  runs of frames, and the game invariant `Valid`. `Valid` says the body is
  non-empty, no longer than its target length, on the board, grid-aligned and
  free of repeated cells. It also says the cached head is the first segment,
  nothing is pending between frames, and the vacated cell and the apple are
  board cells.
- `Optional` — the `Option` type used for the values the game keeps as
  `None` or a value.

The very first move already vacates the start cell: after the new head is
inserted the list has two entries against a target length of 1, so the old
head is popped into `last` (`GameLoop.FirstTickScenario` proves
`last == Some((320, 240))`).

## Model

| member | source | states |
|---|---|---|
| Grid.Delta | the_snake.py:11-14 | each direction is a unit vector along exactly one axis |
| Grid.DeltaInjective | the_snake.py:11-14 | two directions are equal exactly when their vectors are, so comparing enum values matches comparing the stored tuples |
| Grid.Opposite | the_snake.py:243-250 | the reverse direction has the negated vector and differs from the original |
| Grid.OppositeInvolution | the_snake.py:243-250 | reversing twice gives back the direction |
| Grid.WrapOneCell | the_snake.py:126-129 | a one-cell step taken modulo the screen extent stays on the screen, stays grid-aligned, and wraps exactly at the two edges |
| Grid.NextCell | the_snake.py:124-129 | the next head is always on the screen, is a board cell when the old head is, and keeps the coordinate the direction does not move |
| Grid.TorusWrap | the_snake.py:126-129 | leaving by any edge re-enters at the opposite edge (right from x=620 gives x=0, up from y=0 gives y=460), the other coordinate unchanged |
| Grid.NextCellInterior | the_snake.py:126-129 | away from the edges a step moves exactly one cell along the direction |
| Grid.NextCellInverse | the_snake.py:124-129 | stepping back the opposite way returns to the start cell, so a step is a bijection of board cells |
| Snakes.Center | the_snake.py:82-85 | the start cell is a board cell that contains the middle of the screen |
| Snakes.NewSnake | the_snake.py:76-92 | a new snake is the single centre segment, length 1, heading right, nothing pending or vacated |
| Snakes.NewSnakeValid | the_snake.py:82-92 | a new snake satisfies the between-frames invariant |
| Snakes.GetHead | the_snake.py:94-100 | the head is a segment of the snake and equals the cached position when that cache is consistent |
| Snakes.UpdateDirection | the_snake.py:102-113 | a pending direction becomes active and the pending slot is cleared; with nothing pending the snake is unchanged; no other field changes |
| Snakes.UpdateDirectionIdempotent | the_snake.py:111-113 | a second commit right after the first is a no-op |
| Snakes.Move | the_snake.py:115-140 | the new head is the torus step from the old head; when the list is at its target length the old tail is dropped and recorded in `last`, otherwise everything is kept and `last` is empty; direction, length and pending are untouched |
| Snakes.MoveLength | the_snake.py:133-138 | a move keeps the list within its target length, grows it by one below the target and keeps its size at the target, handing back the old tail |
| Snakes.MoveBodyIsOldPrefix | the_snake.py:133-136 | the segments behind the new head are a prefix of the old segments |
| Snakes.Reset | the_snake.py:142-159 | reset yields the same state as construction, whatever the snake was |
| Apples.RandomizePosition | the_snake.py:200-211 | the apple lands on a board cell whose column and row are the drawn indices |
| Apples.NewApple | the_snake.py:191-198 | a new apple is placed at once by a random draw, on a board cell |
| Apples.RandomizeCoversBoard | the_snake.py:208-211 | every board cell is reachable by exactly one in-range draw |
| Controls.Requested | the_snake.py:243-250 | exactly the four arrow-key presses ask for a direction, each the unit vector of its arrow (up is y minus one) |
| Controls.Accepted | the_snake.py:243-250 | an event makes a direction pending exactly when it is an arrow key whose direction is not the reverse of the current one |
| Controls.HandleEvent | the_snake.py:242-250 | the if/elif key chain sets the pending direction exactly as `Accepted` says and changes nothing else |
| Controls.HandleEvents | the_snake.py:238-250 | a frame's events change only the pending direction, and never make it the reverse of the active direction |
| Controls.LastAccepted | the_snake.py:238-250 | the reference reading (last accepted arrow key) is never a reversal |
| Controls.HandleEventsSnoc | the_snake.py:238-250 | handling one more event after a batch equals handling the longer batch |
| Controls.HandleEventsIsLastAccepted | the_snake.py:238-250 | after a frame the pending direction is the last accepted key's direction, or the earlier pending one when no key was accepted |
| Controls.ReverseKeyIgnored | the_snake.py:247-248 | heading right, a left-arrow press leaves nothing pending and the direction stays right |
| Controls.NoReversal | the_snake.py:243-280 | reading the keys and then committing never gives the reverse of the previous direction |
| GameLoop.NewGame | the_snake.py:267-268 | the starting game is a new snake with a randomly placed apple, and it is valid |
| GameLoop.Advance | the_snake.py:277-281 | the snake heads the way the last accepted key asked, else the already pending way, else on as before, and then moves exactly as `move` does in that direction (old cells behind the new head, tail dropped at the target length); the target length is kept, nothing stays pending, and it never reverses |
| GameLoop.Eat | the_snake.py:283-288 | the target length rises by exactly one if and only if the head is on the apple, and then the apple moves to the draw; segments are untouched |
| GameLoop.Collided | the_snake.py:291 | the snake has collided exactly when some non-head segment occupies the head's cell |
| GameLoop.Collide | the_snake.py:290-294 | a head on a non-head segment resets the snake and re-places the apple; otherwise nothing changes, and a repeat-free body gives a repeat-free snake |
| GameLoop.Tick | the_snake.py:276-294 | a frame leaves at least one segment and nothing pending; the snake either restarts or keeps its target length or raises it by one; the apple stays or moves to one of the frame's two draws |
| GameLoop.Run | the_snake.py:273-294 | any number of frames leaves the snake with at least one segment |
| GameLoop.TickEats | the_snake.py:283-288 | eating without crashing raises the target length by exactly one and moves the apple to the eating draw |
| GameLoop.TickResets | the_snake.py:283-294 | a head that lands on the body ends the frame in the start state with the apple at the reset draw, even if the apple was eaten first |
| GameLoop.TickPlainMove | the_snake.py:280-294 | with neither apple nor collision, a frame only moves the snake |
| GameLoop.AdvanceShape | the_snake.py:280-281 | the moved snake of a valid game is within its target length, on the board, repeat-free behind the head, and has min(old size + 1, target) segments |
| GameLoop.TickPreservesValid | the_snake.py:276-294 | a frame keeps the game invariant, including no repeated segments and the apple on a board cell |
| GameLoop.TickGrowth | the_snake.py:280-294 | the body gains at most one cell a frame, exactly min(old size + 1, old target) when no reset happens |
| GameLoop.RunPreservesValid | the_snake.py:273-294 | every run of frames from a valid game ends in a valid game |
| GameLoop.RunGrowth | the_snake.py:273-294 | over n frames the body gains at most n cells |
| GameLoop.FirstTickScenario | the_snake.py:280-288 | the opening frame with the apple at (340, 240) moves the head there, vacates (320, 240), eats the apple and makes the target length 2 |

## Left out

- Drawing (`GameObject.draw`, `Snake.draw`, `Apple.draw`, `screen.fill`, `pygame.display.update`): rendering side effects with no effect on the state.
- The abstract `GameObject.draw` that raises `NotImplementedError`: it is only a rendering contract.
- The window-close event, `pygame.quit()` and `SystemExit`: process termination; frames are modelled as a sequence of events without it.
- `clock.tick(SPEED)`: frame pacing only.
- `randint`: modelled as an arbitrary in-range cell passed in (`GridCell`), not as a distribution.
- Colours and the window caption: no behaviour.
- The endless `while True` loop: modelled as `Run` over a finite sequence of frames.
