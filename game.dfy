/** The running game as the main loop keeps it: an occupancy array updated
    in place, the body from tail to head, the food, the applied and pending
    directions and the time accumulator. Each method does what the
    corresponding part of the loop does, step by step, and is proved to
    agree with the rules in module Rules, whose properties module
    Properties proves. */
module Game {
  import opened Grid
  import opened Direction
  import opened Clock
  import opened Rules
  import opened Properties

  class SnakeGame {
    /** One flag per cell, at `Index(c)`; allocated once at start-up. */
    const occupied: array<bool>
    /** Tail first, head last. */
    var body: seq<Cell>
    var food: Cell
    /** The direction the last tick applied. */
    var direction: Cardinal
    /** The direction the next tick will apply. */
    var newDirection: Cardinal
    /** Nanoseconds of frame time not yet paid out in ticks. */
    var accumulator: int

    ghost function View(): State
      reads this, occupied
    {
      State(occupied[..], body, food, direction, newDirection, accumulator)
    }

    ghost predicate Valid()
      reads this, occupied
    {
      occupied.Length == Rows * Rows && Inv(View())
    }

    /** Start-up: an all-free field, the head on a random cell, and food on
        a random cell the head does not hold. `headDraws` and `foodDraws`
        are what the random source yields for the two calls. */
    constructor (headDraws: seq<Cell>, foodDraws: seq<Cell>)
      requires |headDraws| > 0 && AllInBounds(headDraws) && AllInBounds(foodDraws)
      requires exists j :: 0 <= j < |foodDraws| && foodDraws[j] != headDraws[0]
      ensures Valid() && fresh(occupied)
      ensures View() == Initial(headDraws[0], food)
      ensures food != headDraws[0]
      ensures exists j :: 0 <= j < |foodDraws| && food == foodDraws[j] &&
                          forall k :: 0 <= k < j ==> foodDraws[k] == headDraws[0]
    {
      occupied := new bool[Rows * Rows](_ => false);
      body := [];
      food := Cell(0, 0);
      direction, newDirection := None, None;
      accumulator := 0;
      new;
      assert !occupied[Index(headDraws[0])];
      var head := Spawn(headDraws);
      occupied[Index(head)] := true;
      body := [head];
      assert occupied[..] == Initial(head, head).occupied;
      ghost var j :| 0 <= j < |foodDraws| && foodDraws[j] != head;
      IndexInjective(foodDraws[j], head);
      food := Spawn(foodDraws);
      ghost var i := FirstFreeIndex(occupied[..], foodDraws);
      forall k | 0 <= k < i ensures foodDraws[k] == head {
        IndexInjective(foodDraws[k], head);
      }
    }

    /** `get_random_block`: draw cells until one is free. `draws` is what
        the random source yields; some draw must be free, or the source
        loops for ever. The field is only read. */
    method Spawn(draws: seq<Cell>) returns (c: Cell)
      requires occupied.Length == Rows * Rows && AllInBounds(draws)
      requires HasFree(occupied[..], draws)
      ensures InBounds(c) && !occupied[Index(c)]
      ensures c == draws[FirstFreeIndex(occupied[..], draws)]
    {
      ghost var first := FirstFreeIndex(occupied[..], draws);
      c := draws[0];
      var i := 1;
      while occupied[Index(c)]
        invariant 1 <= i <= first + 1 && c == draws[i - 1]
        decreases first + 1 - i
      {
        c := draws[i];
        i := i + 1;
      }
    }

    /** The key switch of one frame: Escape asks to quit; otherwise the
        first arrow that does not reverse the applied direction becomes the
        pending direction. */
    method PressKey(pressed: set<Key>) returns (quit: bool)
      requires Valid()
      modifies this`newDirection
      ensures Valid()
      ensures quit <==> KeyEscape in pressed
      ensures View() == old(View()).(newDirection := Latch(direction, old(newDirection), pressed))
    {
      LatchKeepsInv(View(), pressed);
      quit := false;
      if KeyEscape in pressed {
        quit := true;
      } else if direction != Down && KeyUp in pressed {
        newDirection := Up;
      } else if direction != Up && KeyDown in pressed {
        newDirection := Down;
      } else if direction != Right && KeyLeft in pressed {
        newDirection := Left;
      } else if direction != Left && KeyRight in pressed {
        newDirection := Right;
      }
    }

    /** One simulation tick: apply the pending direction, step the head,
        stop at the edge, grow onto food (respawning it) or free and drop
        the tail, stop on a collision, and mark the new head. */
    method Tick(draws: seq<Cell>) returns (status: Status)
      requires occupied.Length == Rows * Rows && WellFormed(View()) && AllInBounds(draws)
      requires Eats(View()) ==> HasFree(occupied[..], draws)
      modifies this, occupied
      ensures Outcome(View(), status) == TickSpec(old(View()), draws)
    {
      direction := newDirection;
      if direction != None {
        var next := NextHead(body[|body| - 1], direction);
        if !InBounds(next) {
          return Ended(OutOfBounds);
        }
        body := body + [next];
        if PositionEquals(next, food) {
          food := Spawn(draws);
        } else {
          occupied[Index(body[0])] := false;
          body := body[1..];
        }
        if occupied[Index(next)] {
          return Ended(SelfCollision);
        }
        occupied[Index(next)] := true;
      }
      status := Running;
    }

    /** One pass of the main loop: add the frame time, run the key switch
        (Escape ends the game), and run one tick if a tick length has built
        up, paying it back unless the tick ended the game. */
    method Frame(frameTime: nat, pressed: set<Key>, draws: seq<Cell>) returns (status: Status)
      requires Valid() && AllInBounds(draws)
      requires FrameEats(View(), frameTime, pressed) ==> HasFree(occupied[..], draws)
      modifies this, occupied
      ensures Outcome(View(), status) == FrameSpec(old(View()), frameTime, pressed, draws)
      ensures status.Running? ==> Valid()
    {
      ghost var s := View();
      FramePreservesInv(s, frameTime, pressed, draws);
      accumulator := accumulator + frameTime;
      var quit := PressKey(pressed);
      if quit {
        return Ended(UserQuit);
      }
      status := Running;
      if accumulator >= Dt {
        ghost var keyed := DueFrame(s, frameTime, pressed, draws);
        assert View() == keyed;
        status := Tick(draws);
        if status.Running? {
          accumulator := accumulator - Dt;
        }
      }
    }
  }
}
