/** What the rules guarantee: the state invariant survives every tick and
    every frame, each tick either grows the body by one or moves it, and a
    tick ends the game exactly on leaving the field or on entering a cell
    the body still holds once the old tail has been freed. */
module Properties {
  import opened Grid
  import opened Direction
  import opened Clock
  import opened Rules

  /** The only step that leads straight back is the opposite one. */
  lemma OnlyOppositeReturns(c: Cell, a: Cardinal, b: Cardinal)
    requires a != None && b != None
    ensures NextHead(NextHead(c, a), b) == c <==> b == Opposite(a)
  {
  }

  /** In a body without repeats, the cells after the tail are the body's
      cells other than the tail. */
  lemma InRest(b: seq<Cell>, c: Cell)
    requires |b| > 0 && forall i, j :: 0 <= i < j < |b| ==> b[i] != b[j]
    ensures c in b[1..] <==> c in b && c != b[0]
  {
    if c in b[1..] {
      var k :| 0 <= k < |b[1..]| && b[1..][k] == c;
      assert b[k + 1] == c;
    }
    if c in b && c != b[0] {
      var k :| 0 <= k < |b| && b[k] == c;
      assert b[1..][k - 1] == c;
    }
  }

  /** A direction accepted by the key switch never sends the head back onto
      the cell right behind it. */
  lemma NeverIntoNeck(s: State)
    requires Inv(s) && |s.body| >= 2 && s.newDirection != None
    ensures NextHead(Head(s), s.newDirection) != s.body[|s.body| - 2]
  {
    OnlyOppositeReturns(s.body[|s.body| - 2], s.direction, s.newDirection);
  }

  /** Growing onto a free cell keeps the body distinct and the occupancy
      in step with it. */
  lemma GrowKeepsBody(occupied: seq<bool>, body: seq<Cell>, h: Cell)
    requires |occupied| == Rows * Rows && AllInBounds(body)
    requires Distinct(body) && OccupancyMatches(occupied, body)
    requires InBounds(h) && !occupied[Index(h)]
    ensures AllInBounds(body + [h]) && Distinct(body + [h])
    ensures OccupancyMatches(occupied[Index(h) := true], body + [h])
  {
    assert h !in body;
    forall c | InBounds(c)
      ensures occupied[Index(h) := true][Index(c)] <==> c in body + [h]
    {
      IndexInjective(c, h);
    }
  }

  /** Freeing the tail and then moving onto a cell that is free afterwards
      keeps the body distinct and the occupancy in step with it. */
  lemma MoveKeepsBody(occupied: seq<bool>, body: seq<Cell>, h: Cell)
    requires |occupied| == Rows * Rows && |body| > 0 && AllInBounds(body)
    requires Distinct(body) && OccupancyMatches(occupied, body)
    requires InBounds(h) && !occupied[Index(body[0]) := false][Index(h)]
    ensures AllInBounds(body[1..] + [h]) && Distinct(body[1..] + [h])
    ensures OccupancyMatches(occupied[Index(body[0]) := false][Index(h) := true], body[1..] + [h])
  {
    var tail, rest := body[0], body[1..];
    var moved := rest + [h];
    var occ := occupied[Index(tail) := false][Index(h) := true];
    IndexInjective(h, tail);
    InRest(body, h);
    forall c | InBounds(c) ensures occ[Index(c)] <==> c in moved {
      IndexInjective(c, h);
      IndexInjective(c, tail);
      InRest(body, c);
    }
    forall i, j | 0 <= i < j < |moved| ensures moved[i] != moved[j] {
      if j < |moved| - 1 {
        assert moved[i] == body[i + 1] && moved[j] == body[j + 1];
      } else {
        assert moved[i] == rest[i];
      }
    }
  }

  /** Growing onto a free cell in the applied direction keeps the
      invariant, wherever the new food lands. */
  lemma GrowStepKeepsInv(s: State, food: Cell)
    requires Inv(s) && s.newDirection != None && InBounds(food)
    requires var h := NextHead(Head(s), s.newDirection); InBounds(h) && !s.occupied[Index(h)]
    ensures var h := NextHead(Head(s), s.newDirection);
      Inv(s.(direction := s.newDirection, body := s.body + [h], food := food,
             occupied := s.occupied[Index(h) := true]))
  {
    var h := NextHead(Head(s), s.newDirection);
    GrowKeepsBody(s.occupied, s.body, h);
    assert (s.body + [h])[|s.body| - 1] == Head(s);
  }

  /** Moving onto a cell that is free once the tail is freed keeps the
      invariant. */
  lemma MoveStepKeepsInv(s: State)
    requires Inv(s) && s.newDirection != None
    requires var h := NextHead(Head(s), s.newDirection);
      InBounds(h) && !s.occupied[Index(s.body[0]) := false][Index(h)]
    ensures var h := NextHead(Head(s), s.newDirection);
      Inv(s.(direction := s.newDirection, body := s.body[1..] + [h],
             occupied := s.occupied[Index(s.body[0]) := false][Index(h) := true]))
  {
    var h := NextHead(Head(s), s.newDirection);
    MoveKeepsBody(s.occupied, s.body, h);
    var moved := s.body[1..] + [h];
    if |moved| >= 2 {
      assert moved[|moved| - 2] == Head(s);
    }
  }

  /** Each running tick keeps the invariant: occupancy still marks exactly
      the body cells, the body stays distinct and in the field, and the
      head lies one step along the applied direction. */
  lemma TickPreservesInv(s: State, draws: seq<Cell>)
    requires Inv(s) && AllInBounds(draws) && (Eats(s) ==> HasFree(s.occupied, draws))
    ensures TickSpec(s, draws).status.Running? ==> Inv(TickSpec(s, draws).state)
  {
    if s.newDirection != None {
      var h := NextHead(Head(s), s.newDirection);
      if InBounds(h) && h == s.food && !s.occupied[Index(h)] {
        GrowStepKeepsInv(s, draws[FirstFreeIndex(s.occupied, draws)]);
      } else if InBounds(h) && h != s.food && !s.occupied[Index(s.body[0]) := false][Index(h)] {
        MoveStepKeepsInv(s);
      }
    }
  }

  /** A tick ends the game exactly when the new head leaves the field, or
      lands on a cell the body still holds: the whole body when it eats, the
      body without its old tail when it moves. Leaving the field changes
      nothing but the applied direction. */
  lemma TickEndsExactly(s: State, draws: seq<Cell>)
    requires Inv(s) && AllInBounds(draws) && (Eats(s) ==> HasFree(s.occupied, draws))
    ensures var o := TickSpec(s, draws);
      (o.status == Ended(OutOfBounds) <==>
         s.newDirection != None && !InBounds(NextHead(Head(s), s.newDirection))) &&
      (o.status == Ended(SelfCollision) <==>
         s.newDirection != None && InBounds(NextHead(Head(s), s.newDirection)) &&
         NextHead(Head(s), s.newDirection) in (if Eats(s) then s.body else s.body[1..])) &&
      (o.status == Ended(OutOfBounds) ==> o.state == s.(direction := s.newDirection))
  {
    if s.newDirection != None {
      var h := NextHead(Head(s), s.newDirection);
      if InBounds(h) && !Eats(s) {
        var tail := s.body[0];
        IndexInjective(h, tail);
        InRest(s.body, h);
      }
    }
  }

  /** Moving onto the cell the tail is leaving in the same tick is not a
      collision: the tail is freed before the test, and the body simply
      rotates. */
  lemma VacatedTailIsFree(s: State, draws: seq<Cell>)
    requires Inv(s) && AllInBounds(draws) && s.newDirection != None
    requires NextHead(Head(s), s.newDirection) == s.body[0] != s.food
    ensures TickSpec(s, draws) ==
            Outcome(s.(direction := s.newDirection, body := s.body[1..] + [s.body[0]]), Running)
  {
    var tail := s.body[0];
    assert s.occupied[Index(tail)];
    assert s.occupied[Index(tail) := false][Index(tail) := true] == s.occupied;
  }

  /** A running tick changes the body by appending the new head, one unit
      step from the old head, and then either keeps the tail (on food, with
      new food drawn from a free cell) or drops it. A tick with no
      direction yet changes nothing at all. */
  lemma TickGrowsOrMoves(s: State, draws: seq<Cell>)
    requires Inv(s) && AllInBounds(draws) && (Eats(s) ==> HasFree(s.occupied, draws))
    ensures var o := TickSpec(s, draws);
      o.state.direction == s.newDirection &&
      (s.newDirection == None ==> o == Outcome(s, Running)) &&
      (s.newDirection != None && o.status.Running? ==>
         var h := NextHead(Head(s), s.newDirection);
         Adjacent(Head(s), h) && Head(o.state) == h &&
         (Eats(s) ==>
            o.state.body == s.body + [h] && |o.state.body| == |s.body| + 1 &&
            o.state.food in draws && !s.occupied[Index(o.state.food)]) &&
         (!Eats(s) ==>
            o.state.body == s.body[1..] + [h] && |o.state.body| == |s.body| &&
            o.state.food == s.food &&
            (s.body[0] != h ==> !o.state.occupied[Index(s.body[0])])))
  {
    if s.newDirection != None && TickSpec(s, draws).status.Running? && !Eats(s) {
      IndexInjective(s.body[0], NextHead(Head(s), s.newDirection));
    }
  }

  /** New food is drawn before the new head is marked, so the draw may put
      it on the head itself: food is not guaranteed to lie off the snake. */
  lemma FoodMayLandOnHead(s: State, draws: seq<Cell>)
    requires Inv(s) && AllInBounds(draws) && Eats(s) && HasFree(s.occupied, draws)
    requires |draws| > 0 && draws[0] == s.food
    ensures var o := TickSpec(s, draws);
      o.status.Running? ==> o.state.food == Head(o.state) && o.state.food in o.state.body
  {
  }

  /** The snake chasing its own tail round a 2 x 2 square survives. */
  lemma ChasingTheTail(s: State, draws: seq<Cell>)
    requires Inv(s) && AllInBounds(draws)
    requires s.body == [Cell(0, 0), Cell(1, 0), Cell(1, 1), Cell(0, 1)]
    requires s.newDirection == Down && s.food != Cell(0, 0)
    ensures TickSpec(s, draws).status == Running
    ensures TickSpec(s, draws).state.body == [Cell(1, 0), Cell(1, 1), Cell(0, 1), Cell(0, 0)]
  {
    VacatedTailIsFree(s, draws);
  }

  /** Turning into a body cell that is not the tail ends the game. */
  lemma BitingTheBody(s: State, draws: seq<Cell>)
    requires Inv(s) && AllInBounds(draws)
    requires s.body == [Cell(0, 2), Cell(0, 1), Cell(0, 0), Cell(1, 0), Cell(1, 1)]
    requires s.newDirection == Left && s.food != Cell(0, 1)
    ensures TickSpec(s, draws).status == Ended(SelfCollision)
  {
    TickEndsExactly(s, draws);
    assert s.body[1..][0] == Cell(0, 1);
  }

  /** The key switch keeps the direction part of the invariant. */
  lemma LatchKeepsInv(s: State, pressed: set<Key>)
    requires Inv(s)
    ensures Inv(s.(newDirection := Latch(s.direction, s.newDirection, pressed)))
  {
  }

  /** The accumulator is not part of the body, occupancy or steering. */
  lemma InvWithAccumulator(s: State, a: int)
    requires Inv(s) && a >= 0
    ensures Inv(s.(accumulator := a))
  {
  }

  /** What a frame needs to know of its tick: the pending direction is
      applied, the accumulator is left alone, and a running tick grows the
      body by at most one cell. */
  lemma TickShape(s: State, draws: seq<Cell>)
    requires Inv(s) && AllInBounds(draws) && (Eats(s) ==> HasFree(s.occupied, draws))
    ensures var o := TickSpec(s, draws);
      o.state.direction == s.newDirection && o.state.accumulator == s.accumulator &&
      (o.status.Running? ==> |s.body| <= |o.state.body| <= |s.body| + 1)
  {
    TickGrowsOrMoves(s, draws);
  }

  /** A due tick followed by paying back one tick length keeps the
      invariant; `r` is what the frame returns. */
  lemma PaidTick(s: State, draws: seq<Cell>) returns (r: Outcome)
    requires Inv(s) && AllInBounds(draws) && (Eats(s) ==> HasFree(s.occupied, draws))
    requires TickDue(s.accumulator)
    ensures r == PayBack(TickSpec(s, draws))
    ensures r.status.Running? ==> Inv(r.state)
    ensures r.state.direction == s.newDirection
    ensures r.status.Running? ==>
              r.state.accumulator == s.accumulator - Dt &&
              |s.body| <= |r.state.body| <= |s.body| + 1
  {
    var t := TickSpec(s, draws);
    TickPreservesInv(s, draws);
    TickShape(s, draws);
    if t.status.Running? {
      InvWithAccumulator(t.state, t.state.accumulator - Dt);
      r := Outcome(t.state.(accumulator := t.state.accumulator - Dt), Running);
    } else {
      r := t;
    }
  }

  /** Adding frame time and running the key switch keep the invariant. */
  lemma KeyedKeepsInv(s: State, frameTime: nat, pressed: set<Key>)
    requires Inv(s)
    ensures Inv(s.(accumulator := s.accumulator + frameTime,
                   newDirection := Latch(s.direction, s.newDirection, pressed)))
  {
    var timed := s.(accumulator := s.accumulator + frameTime);
    InvWithAccumulator(s, timed.accumulator);
    LatchKeepsInv(timed, pressed);
  }

  /** A frame without Escape and with a tick due is the paid-for tick of
      the state with the frame time added and the key switch applied; that
      state still satisfies the invariant. */
  lemma DueFrame(s: State, frameTime: nat, pressed: set<Key>, draws: seq<Cell>) returns (keyed: State)
    requires WellFormed(s) && AllInBounds(draws)
    requires FrameEats(s, frameTime, pressed) ==> HasFree(s.occupied, draws)
    requires KeyEscape !in pressed && TickDue(s.accumulator + frameTime)
    ensures keyed == s.(accumulator := s.accumulator + frameTime,
                        newDirection := Latch(s.direction, s.newDirection, pressed))
    ensures WellFormed(keyed) && TickDue(keyed.accumulator)
    ensures Eats(keyed) ==> HasFree(keyed.occupied, draws)
    ensures FrameSpec(s, frameTime, pressed, draws) == PayBack(TickSpec(keyed, draws))
  {
    keyed := s.(accumulator := s.accumulator + frameTime,
                newDirection := Latch(s.direction, s.newDirection, pressed));
    assert Eats(keyed) == Eats(s.(newDirection := keyed.newDirection));
    assert !Resolve(s.direction, pressed).Quit?;
  }

  /** Every frame that leaves the game running keeps the invariant, so (with
      `Initial`) every state the running game reaches satisfies it. */
  lemma FramePreservesInv(s: State, frameTime: nat, pressed: set<Key>, draws: seq<Cell>)
    requires Inv(s) && AllInBounds(draws)
    requires FrameEats(s, frameTime, pressed) ==> HasFree(s.occupied, draws)
    ensures FrameSpec(s, frameTime, pressed, draws).status.Running? ==>
            Inv(FrameSpec(s, frameTime, pressed, draws).state)
  {
    if KeyEscape !in pressed {
      if TickDue(s.accumulator + frameTime) {
        var keyed := DueFrame(s, frameTime, pressed, draws);
        KeyedKeepsInv(s, frameTime, pressed);
        var r := PaidTick(keyed, draws);
      } else {
        KeyedKeepsInv(s, frameTime, pressed);
      }
    }
  }

  /** Escape ends the game at once, whatever else was pressed and however
      much time has built up; only the accumulator has moved. */
  lemma FrameQuit(s: State, frameTime: nat, pressed: set<Key>, draws: seq<Cell>)
    requires Inv(s) && AllInBounds(draws)
    requires FrameEats(s, frameTime, pressed) ==> HasFree(s.occupied, draws)
    ensures var o := FrameSpec(s, frameTime, pressed, draws);
      (o.status == Ended(UserQuit) <==> KeyEscape in pressed) &&
      (KeyEscape in pressed ==> o.state == s.(accumulator := s.accumulator + frameTime))
  {
    if KeyEscape !in pressed && TickDue(s.accumulator + frameTime) {
      var keyed := DueFrame(s, frameTime, pressed, draws);
      KeyedKeepsInv(s, frameTime, pressed);
      TickEndsExactly(keyed, draws);
    }
  }

  /** A frame with less than a tick built up touches nothing but the
      accumulator, which keeps the frame time, and the pending direction. */
  lemma FrameWithoutTick(s: State, frameTime: nat, pressed: set<Key>, draws: seq<Cell>)
    requires Inv(s) && AllInBounds(draws)
    requires FrameEats(s, frameTime, pressed) ==> HasFree(s.occupied, draws)
    requires KeyEscape !in pressed && !TickDue(s.accumulator + frameTime)
    ensures Run(s.accumulator, [frameTime]) == Clocked(0, s.accumulator + frameTime)
    ensures FrameSpec(s, frameTime, pressed, draws) ==
            Outcome(s.(accumulator := s.accumulator + frameTime,
                       newDirection := Latch(s.direction, s.newDirection, pressed)), Running)
  {
    RunOne(s.accumulator, frameTime);
  }

  /** A frame with a tick built up runs exactly one tick: it applies the
      pending direction, grows the body by at most one cell, and, if the
      game goes on, pays exactly one tick length out of the accumulator, as
      the clock says. */
  lemma FrameTicksOnce(s: State, frameTime: nat, pressed: set<Key>, draws: seq<Cell>)
    requires Inv(s) && AllInBounds(draws)
    requires FrameEats(s, frameTime, pressed) ==> HasFree(s.occupied, draws)
    requires KeyEscape !in pressed && TickDue(s.accumulator + frameTime)
    ensures var o := FrameSpec(s, frameTime, pressed, draws);
      o.state.direction == Latch(s.direction, s.newDirection, pressed) &&
      (o.status.Running? ==>
         Run(s.accumulator, [frameTime]) == Clocked(1, o.state.accumulator) &&
         |s.body| <= |o.state.body| <= |s.body| + 1)
  {
    RunOne(s.accumulator, frameTime);
    var keyed := DueFrame(s, frameTime, pressed, draws);
    KeyedKeepsInv(s, frameTime, pressed);
    var r := PaidTick(keyed, draws);
  }
}
