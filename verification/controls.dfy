/** Keyboard handling: arrow keys set the snake's pending direction, except
    that a key asking for the exact reverse of the current direction is
    ignored. The events of one frame are handled in order. */
module Controls {
  import opened Optional
  import opened Grid
  import opened Snakes

  datatype Key = ArrowUp | ArrowDown | ArrowLeft | ArrowRight | OtherKey

  /** The events of a frame that matter to the game; window-close is not
      modelled. */
  datatype Event = KeyDown(key: Key) | OtherEvent

  /** The direction an event asks for, if it is an arrow-key press. */
  function Requested(e: Event): (r: Option<Direction>)
    ensures r.Some? <==> e.KeyDown? && e.key != OtherKey
    ensures e == KeyDown(ArrowUp) ==> r.Some? && Delta(r.value) == (0, -1)
    ensures e == KeyDown(ArrowDown) ==> r.Some? && Delta(r.value) == (0, 1)
    ensures e == KeyDown(ArrowLeft) ==> r.Some? && Delta(r.value) == (-1, 0)
    ensures e == KeyDown(ArrowRight) ==> r.Some? && Delta(r.value) == (1, 0)
  {
    match e
    case KeyDown(ArrowUp) => Some(Up)
    case KeyDown(ArrowDown) => Some(Down)
    case KeyDown(ArrowLeft) => Some(Left)
    case KeyDown(ArrowRight) => Some(Right)
    case _ => None
  }

  /** The direction an event makes pending for a snake heading `current`:
      the requested one unless it is the reverse of `current`. */
  function Accepted(current: Direction, e: Event): (a: Option<Direction>)
    ensures a.Some? <==> Requested(e).Some? && Requested(e).value != Opposite(current)
    ensures a.Some? ==> a == Requested(e)
  {
    var r := Requested(e);
    if r.Some? && r.value != Opposite(current) then r else None
  }

  /** One event, as the key branches of the game test it: each arrow key is
      honoured only when the snake is not heading the opposite way. */
  function HandleEvent(s: Snake, e: Event): (r: Snake)
    ensures r == s.(nextDirection := r.nextDirection)
    ensures r.nextDirection == if Accepted(s.direction, e).Some? then Accepted(s.direction, e) else s.nextDirection
  {
    match e
    case KeyDown(k) =>
      if k == ArrowUp && s.direction != Down then s.(nextDirection := Some(Up))
      else if k == ArrowDown && s.direction != Up then s.(nextDirection := Some(Down))
      else if k == ArrowLeft && s.direction != Right then s.(nextDirection := Some(Left))
      else if k == ArrowRight && s.direction != Left then s.(nextDirection := Some(Right))
      else s
    case OtherEvent => s
  }

  /** The pending direction, if any, does not reverse the active one. */
  predicate PendingOk(s: Snake) {
    s.nextDirection.Some? ==> s.nextDirection.value != Opposite(s.direction)
  }

  /** All events of a frame, first to last. Only the pending direction
      changes, and it never becomes the reverse of the active direction. */
  function HandleEvents(s: Snake, es: seq<Event>): (r: Snake)
    ensures r == s.(nextDirection := r.nextDirection)
    ensures PendingOk(s) ==> PendingOk(r)
    decreases |es|
  {
    if |es| == 0 then s else HandleEvents(HandleEvent(s, es[0]), es[1..])
  }

  /** Reference reading of a frame's events: the last accepted arrow key,
      searched from the end. */
  function LastAccepted(current: Direction, es: seq<Event>): (a: Option<Direction>)
    ensures a.Some? ==> a.value != Opposite(current)
    decreases |es|
  {
    if |es| == 0 then None
    else
      var a := Accepted(current, es[|es| - 1]);
      if a.Some? then a else LastAccepted(current, es[..|es| - 1])
  }

  /** Handling one more event after a batch is handling the longer batch. */
  lemma {:induction false} HandleEventsSnoc(s: Snake, es: seq<Event>, e: Event)
    ensures HandleEvents(s, es + [e]) == HandleEvent(HandleEvents(s, es), e)
    decreases |es|
  {
    if |es| == 0 {
      assert es + [e] == [e];
      assert [e][1..] == [];
    } else {
      assert (es + [e])[0] == es[0];
      assert (es + [e])[1..] == es[1..] + [e];
      HandleEventsSnoc(HandleEvent(s, es[0]), es[1..], e);
    }
  }

  /** After a frame the pending direction is the one asked for by the last
      accepted key, or the earlier pending one when no key was accepted. */
  lemma {:induction false} HandleEventsIsLastAccepted(s: Snake, es: seq<Event>)
    ensures HandleEvents(s, es).nextDirection ==
              if LastAccepted(s.direction, es).Some? then LastAccepted(s.direction, es)
              else s.nextDirection
    decreases |es|
  {
    if |es| > 0 {
      var init := es[..|es| - 1];
      var e := es[|es| - 1];
      assert es == init + [e];
      HandleEventsSnoc(s, init, e);
      HandleEventsIsLastAccepted(s, init);
    }
  }

  /** A reversal key is dropped: a snake heading right that sees only a
      left-arrow press keeps no pending direction. */
  lemma ReverseKeyIgnored(s: Snake)
    requires s.direction == Right && s.nextDirection == None
    ensures HandleEvents(s, [KeyDown(ArrowLeft)]) == s
    ensures UpdateDirection(HandleEvents(s, [KeyDown(ArrowLeft)])).direction == Right
  {
    assert [KeyDown(ArrowLeft)][1..] == [];
  }

  /** Reading a frame's keys and then committing never turns the snake
      straight back on itself. */
  lemma NoReversal(s: Snake, es: seq<Event>)
    requires PendingOk(s)
    ensures UpdateDirection(HandleEvents(s, es)).direction != Opposite(s.direction)
  {
  }
}
