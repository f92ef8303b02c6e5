/** The game state as a value and the rules that move it on: one frame
    (accumulate time, read keys, maybe tick) and one tick (latch the
    direction, step the head, eat or move, detect collisions). The mutable
    game in module Game is proved to follow these functions step for step. */
module Rules {
  import opened Grid
  import opened Direction
  import opened Clock

  datatype EndReason = OutOfBounds | SelfCollision | UserQuit

  datatype Status = Running | Ended(reason: EndReason)

  /** Everything the main loop keeps between frames: the occupancy slice
      (indexed by `Index`), the body from tail (first) to head (last), the
      food, the applied and the pending direction, and the time
      accumulator in nanoseconds. */
  datatype State = State(
    occupied: seq<bool>,
    body: seq<Cell>,
    food: Cell,
    direction: Cardinal,
    newDirection: Cardinal,
    accumulator: int)

  datatype Outcome = Outcome(state: State, status: Status)

  /** The shape every state has, running or not. */
  predicate WellFormed(s: State) {
    |s.occupied| == Rows * Rows && |s.body| > 0 && AllInBounds(s.body) && InBounds(s.food)
  }

  function Head(s: State): Cell
    requires |s.body| > 0
  {
    s.body[|s.body| - 1]
  }

  /** One cell apart horizontally or vertically. */
  predicate Adjacent(a: Cell, b: Cell) {
    (a.x == b.x && (a.y - b.y == 1 || b.y - a.y == 1)) ||
    (a.y == b.y && (a.x - b.x == 1 || b.x - a.x == 1))
  }

  /** The cell one unit step from `c` in direction `d` (UP is y + 1). */
  function NextHead(c: Cell, d: Cardinal): (r: Cell)
    requires d != None
    ensures Adjacent(c, r)
  {
    match d
    case Up => Cell(c.x, c.y + 1)
    case Down => Cell(c.x, c.y - 1)
    case Left => Cell(c.x - 1, c.y)
    case Right => Cell(c.x + 1, c.y)
  }

  /** No cell appears twice in the body. */
  ghost predicate Distinct(body: seq<Cell>) {
    forall i, j :: 0 <= i < j < |body| ==> body[i] != body[j]
  }

  /** A cell is marked occupied exactly when it is a body cell. */
  ghost predicate OccupancyMatches(occupied: seq<bool>, body: seq<Cell>)
    requires |occupied| == Rows * Rows
  {
    forall c :: InBounds(c) ==> (occupied[Index(c)] <==> c in body)
  }

  /** The pending direction never reverses the applied one and never falls
      back to NONE; until the first move the body is a single cell, and
      after it the head lies one step from the cell before it in the
      applied direction. */
  ghost predicate Steering(direction: Cardinal, newDirection: Cardinal, body: seq<Cell>)
    requires |body| > 0
  {
    !Reverses(direction, newDirection) &&
    (direction != None ==> newDirection != None) &&
    (direction == None ==> |body| == 1) &&
    (|body| >= 2 ==>
       direction != None && body[|body| - 1] == NextHead(body[|body| - 2], direction))
  }

  /** What holds of every state of a running game: the body is non-empty,
      inside the field and never crosses itself; occupancy marks exactly the
      body cells; the steering rules hold; the accumulator is never
      negative. */
  ghost predicate Inv(s: State) {
    WellFormed(s) && Distinct(s.body) && OccupancyMatches(s.occupied, s.body) &&
    Steering(s.direction, s.newDirection, s.body) && s.accumulator >= 0
  }

  /** Some draw of the random source lands on a free cell. */
  predicate HasFree(occupied: seq<bool>, draws: seq<Cell>)
    requires |occupied| == Rows * Rows && AllInBounds(draws)
  {
    exists j :: 0 <= j < |draws| && !occupied[Index(draws[j])]
  }

  /** `get_random_block`: the position, among the random draws, of the
      first one that is not occupied; every earlier draw was occupied and
      was rejected. */
  function FirstFreeIndex(occupied: seq<bool>, draws: seq<Cell>): (i: nat)
    requires |occupied| == Rows * Rows && AllInBounds(draws)
    requires HasFree(occupied, draws)
    ensures i < |draws| && !occupied[Index(draws[i])]
    ensures forall j :: 0 <= j < i ==> occupied[Index(draws[j])]
    decreases |draws|
  {
    if !occupied[Index(draws[0])] then 0
    else
      var j :| 0 <= j < |draws| && !occupied[Index(draws[j])];
      assert 0 <= j - 1 < |draws[1..]| && draws[1..][j - 1] == draws[j];
      1 + FirstFreeIndex(occupied, draws[1..])
  }

  /** The next tick will move the head onto the food, and so spawn new food. */
  predicate Eats(s: State)
    requires WellFormed(s)
  {
    s.newDirection != None && NextHead(Head(s), s.newDirection) == s.food
  }

  /** The state after one tick (lines 128-176 of the main loop). `draws`
      stands for the random source, consulted only when food is eaten. */
  function TickSpec(s: State, draws: seq<Cell>): (r: Outcome)
    requires WellFormed(s) && AllInBounds(draws)
    requires Eats(s) ==> HasFree(s.occupied, draws)
    ensures r.state.direction == s.newDirection && r.state.accumulator == s.accumulator
    ensures r.status != Ended(UserQuit)
  {
    var latched := s.(direction := s.newDirection);
    if s.newDirection == None then Outcome(latched, Running)
    else
      var h := NextHead(Head(s), s.newDirection);
      if !InBounds(h) then Outcome(latched, Ended(OutOfBounds))
      else if h == s.food then
        // grow: the tail stays, and new food is drawn before the head is marked
        var grown := latched.(body := s.body + [h], food := draws[FirstFreeIndex(s.occupied, draws)]);
        if s.occupied[Index(h)] then Outcome(grown, Ended(SelfCollision))
        else Outcome(grown.(occupied := s.occupied[Index(h) := true]), Running)
      else
        // move: the tail's cell is freed before the collision test
        var freed := s.occupied[Index(s.body[0]) := false];
        var moved := latched.(body := s.body[1..] + [h], occupied := freed);
        if freed[Index(h)] then Outcome(moved, Ended(SelfCollision))
        else Outcome(moved.(occupied := freed[Index(h) := true]), Running)
  }

  /** A tick that leaves the game running is paid for with one tick length
      from the accumulator; one that ends it is returned as it is. */
  function PayBack(t: Outcome): (r: Outcome)
    ensures r.status == t.status
    ensures r.state.(accumulator := t.state.accumulator) == t.state
  {
    if t.status.Running? then Outcome(t.state.(accumulator := t.state.accumulator - Dt), Running)
    else t
  }

  /** The frame's tick, if it runs, eats the food. */
  predicate FrameEats(s: State, frameTime: nat, pressed: set<Key>)
    requires WellFormed(s)
  {
    KeyEscape !in pressed && TickDue(s.accumulator + frameTime) &&
    Eats(s.(newDirection := Latch(s.direction, s.newDirection, pressed)))
  }

  /** One pass of the main loop (lines 108-185): add the frame time, run the
      key switch, and run one tick if a tick length has built up, paying it
      back unless the tick ended the game. */
  function FrameSpec(s: State, frameTime: nat, pressed: set<Key>, draws: seq<Cell>): (r: Outcome)
    requires WellFormed(s) && AllInBounds(draws)
    requires FrameEats(s, frameTime, pressed) ==> HasFree(s.occupied, draws)
    ensures r.status == Ended(UserQuit) <==> KeyEscape in pressed
  {
    var timed := s.(accumulator := s.accumulator + frameTime);
    if Resolve(s.direction, pressed).Quit? then Outcome(timed, Ended(UserQuit))
    else
      var keyed := timed.(newDirection := Latch(s.direction, s.newDirection, pressed));
      if !TickDue(keyed.accumulator) then Outcome(keyed, Running)
      else
        PayBack(TickSpec(keyed, draws))
  }

  /** The state once the head and the food are placed: only the head's cell
      is occupied and nobody has pressed a key yet. */
  function Initial(head: Cell, food: Cell): (s: State)
    requires InBounds(head) && InBounds(food)
    ensures Inv(s) && s.body == [head] && s.direction == s.newDirection == None
    ensures forall c :: InBounds(c) ==> (s.occupied[Index(c)] <==> c == head)
  {
    State(seq(Rows * Rows, _ => false)[Index(head) := true], [head], food, None, None, 0)
  }
}
