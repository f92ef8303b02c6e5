/** Directions, keys, and the per-frame key switch that picks the pending
    direction while refusing a turn straight back onto the snake. */
module Direction {

  /** `Cardinal`: NONE only until the first accepted arrow key. */
  datatype Cardinal = None | Up | Down | Left | Right

  /** The keys the frame polls with `JustPressed`. */
  datatype Key = KeyEscape | KeyUp | KeyDown | KeyLeft | KeyRight

  function Opposite(d: Cardinal): Cardinal {
    match d
    case None => None
    case Up => Down
    case Down => Up
    case Left => Right
    case Right => Left
  }

  /** Turning from `current` to `next` would be a 180-degree reversal. */
  predicate Reverses(current: Cardinal, next: Cardinal) {
    current != None && next == Opposite(current)
  }

  function KeyOf(d: Cardinal): Key
    requires d != None
  {
    match d
    case Up => KeyUp
    case Down => KeyDown
    case Left => KeyLeft
    case Right => KeyRight
  }

  /** Position of a direction's case in the switch; earlier cases win. */
  function Rank(d: Cardinal): nat {
    match d
    case None => 0
    case Up => 1
    case Down => 2
    case Left => 3
    case Right => 4
  }

  /** The arrow for `d` was pressed and is not a reversal of `direction`. */
  predicate Accepted(direction: Cardinal, d: Cardinal, pressed: set<Key>) {
    d != None && KeyOf(d) in pressed && !Reverses(direction, d)
  }

  /** What one pass through the key switch does. */
  datatype KeyOutcome = Quit | Turn(to: Cardinal) | NoChange

  /** The key switch of one frame, given the keys pressed since the last
      frame and the direction last applied by a tick. Escape wins over every
      arrow; otherwise the first arrow, in the order Up, Down, Left, Right,
      that does not reverse `direction` is taken; an arrow that reverses it
      is skipped as if it had not been pressed. */
  function Resolve(direction: Cardinal, pressed: set<Key>): (r: KeyOutcome)
    ensures r.Quit? <==> KeyEscape in pressed
    ensures r.Turn? ==> Accepted(direction, r.to, pressed)
    ensures r.Turn? ==> forall d :: Rank(d) < Rank(r.to) ==> !Accepted(direction, d, pressed)
    ensures r.NoChange? <==>
              KeyEscape !in pressed && forall d :: !Accepted(direction, d, pressed)
  {
    if KeyEscape in pressed then Quit
    else if direction != Down && KeyUp in pressed then
      assert Accepted(direction, Up, pressed); Turn(Up)
    else if direction != Up && KeyDown in pressed then
      assert Accepted(direction, Down, pressed); Turn(Down)
    else if direction != Right && KeyLeft in pressed then
      assert Accepted(direction, Left, pressed); Turn(Left)
    else if direction != Left && KeyRight in pressed then
      assert Accepted(direction, Right, pressed); Turn(Right)
    else NoChange
  }

  /** The pending direction after the switch: a turn replaces it, anything
      else leaves it as it was. */
  function Latch(direction: Cardinal, pending: Cardinal, pressed: set<Key>): (next: Cardinal)
    ensures next == pending || Accepted(direction, next, pressed)
    ensures Reverses(direction, next) ==> next == pending
  {
    match Resolve(direction, pressed)
    case Turn(d) => d
    case _ => pending
  }

  /** Before the first move every arrow key is honoured. */
  lemma IdleAcceptsAnyArrow(pressed: set<Key>, d: Cardinal)
    requires KeyEscape !in pressed && d != None && KeyOf(d) in pressed
    ensures Resolve(None, pressed).Turn?
  {
    assert Accepted(None, d, pressed);
  }
}
