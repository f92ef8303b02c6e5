/** The fixed-timestep gate: frame times (in nanoseconds) are added to an
    accumulator, and a frame runs one simulation tick when at least `Dt` has
    built up, paying `Dt` back. The gate is an `if`, so a frame runs at most
    one tick however much time has built up. */
module Clock {

  const Second: int := 1_000_000_000

  /** Tick length: one second over 30, truncated to whole nanoseconds. */
  const Dt: int := Second / 30

  /** Ticks run and the accumulator left over after some frames. */
  datatype Clocked = Clocked(ticks: nat, accumulator: int)

  /** A frame may tick once the accumulator, with this frame's time added,
      holds at least one tick length. */
  predicate TickDue(accumulator: int) {
    accumulator >= Dt
  }

  /** The gate over a sequence of frames, no frame ending the game. */
  function Run(accumulator: int, frames: seq<nat>): (c: Clocked)
    ensures c.ticks <= |frames|
    decreases |frames|
  {
    if frames == [] then Clocked(0, accumulator)
    else
      var a := accumulator + frames[0];
      if TickDue(a) then
        var rest := Run(a - Dt, frames[1..]);
        Clocked(rest.ticks + 1, rest.accumulator)
      else Run(a, frames[1..])
  }

  /** The gate over a single frame. */
  lemma RunOne(accumulator: int, frameTime: nat)
    ensures Run(accumulator, [frameTime]) ==
            if TickDue(accumulator + frameTime) then Clocked(1, accumulator + frameTime - Dt)
            else Clocked(0, accumulator + frameTime)
  {
    assert [frameTime][1..] == [];
  }

  function Sum(frames: seq<nat>): nat
    decreases |frames|
  {
    if frames == [] then 0 else frames[0] + Sum(frames[1..])
  }

  /** Time is neither lost nor invented: every nanosecond of frame time is
      either paid out in a tick or still in the accumulator; no frame runs
      more than one tick; and the accumulator never goes negative. */
  lemma {:induction false} RunConserves(accumulator: int, frames: seq<nat>)
    requires accumulator >= 0
    ensures var c := Run(accumulator, frames);
            c.accumulator + Dt * c.ticks == accumulator + Sum(frames) &&
            c.ticks <= |frames| && c.accumulator >= 0
    decreases |frames|
  {
    if frames != [] {
      var a := accumulator + frames[0];
      if TickDue(a) {
        RunConserves(a - Dt, frames[1..]);
      } else {
        RunConserves(a, frames[1..]);
      }
    }
  }

  /** Frames of exactly one tick length each run one tick apiece. */
  lemma {:induction false} SteadyFramesTickEach(k: nat)
    ensures Run(0, seq(k, _ => Dt)) == Clocked(k, 0)
    decreases k
  {
    if k > 0 {
      assert seq(k, _ => Dt)[1..] == seq(k - 1, _ => Dt);
      SteadyFramesTickEach(k - 1);
    }
  }

  /** One frame as long as `k` ticks still runs a single tick; the rest is
      left in the accumulator rather than caught up. */
  lemma OneLongFrameTicksOnce(k: nat)
    requires k >= 1
    ensures Run(0, [k * Dt]) == Clocked(1, (k - 1) * Dt)
  {
    assert [k * Dt][1..] == [];
  }

  /** A backlog is worked off one tick per frame: after `n` frames that take
      no time, a backlog of `m` whole tick lengths (plus a remainder below
      one tick) has run `m` ticks if `m <= n`, and otherwise one tick per
      frame. */
  lemma {:induction false} BacklogDrains(m: nat, rem: int, n: nat)
    requires 0 <= rem < Dt
    ensures Run(m * Dt + rem, Idle(n)).ticks == if n < m then n else m
    decreases n
  {
    assert Dt == 33_333_333;
    if n > 0 {
      assert Idle(n)[0] == 0 && Idle(n)[1..] == Idle(n - 1);
      if m > 0 {
        assert m * Dt + rem - Dt == (m - 1) * Dt + rem && TickDue(m * Dt + rem);
        BacklogDrains(m - 1, rem, n - 1);
      } else {
        assert m * Dt + rem == rem && !TickDue(rem);
        BacklogDrains(0, rem, n - 1);
      }
    }
  }

  /** `n` frames in which no time passes. */
  function Idle(n: nat): (frames: seq<nat>)
    ensures |frames| == n && forall i :: 0 <= i < n ==> frames[i] == 0
  {
    seq(n, _ => 0)
  }
}
