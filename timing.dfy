/**
 * The fixed-timestep accumulator: elapsed time is added to the grid's clock,
 * and one frame runs for every whole frame duration the clock exceeds. The
 * clock is an exact rational here, where the engine uses a 64-bit float.
 * The accumulator is stated for any frame function; the grid supplies the
 * aggregation frame.
 */
module Timing {
  import opened Occupancy

  /** Simulated time per frame, in seconds. */
  const FrameDuration: real := 0.1

  /** What one frame does to the cells and to the random source's read position. */
  type FrameFn = (seq<bool>, nat) -> (seq<bool>, nat)

  /** The parts of a grid the accumulator changes: the cells, the random
      source's read position and the clock. */
  datatype Sim = Sim(cells: seq<bool>, pos: nat, t: real)

  /** A bound on the frames still due at clock t; it shrinks by one per frame. */
  function PendingFrames(t: real): nat {
    if t > FrameDuration then (t * 10.0).Floor else 0
  }

  /** Taking one FrameDuration off a clock that exceeds it lowers the bound. */
  lemma PendingFramesDrop(t: real)
    requires t > FrameDuration
    ensures PendingFrames(t - FrameDuration) < PendingFrames(t)
  {
  }

  /** The number of frames that run at clock t: one for each time the clock
      exceeds FrameDuration, taking FrameDuration off after each. */
  function FramesDue(t: real): nat
    decreases PendingFrames(t)
  {
    if t > FrameDuration then 1 + FramesDue(t - FrameDuration) else 0
  }

  /** One frame, then FrameDuration off the clock. */
  function Tick(s: Sim, frame: FrameFn): Sim {
    var next := frame(s.cells, s.pos);
    Sim(next.0, next.1, s.t - FrameDuration)
  }

  /** Run frames while the clock exceeds FrameDuration. */
  function Drain(s: Sim, frame: FrameFn): Sim
    decreases PendingFrames(s.t)
  {
    if s.t > FrameDuration then
      PendingFramesDrop(s.t);
      Drain(Tick(s, frame), frame)
    else
      s
  }

  /** After draining, the clock is at most FrameDuration, and still positive
      when a frame ran; it has lost FrameDuration once for each of the
      FramesDue(s.t) frames that DrainIsFramesDueTicks shows are run. */
  lemma {:induction false} DrainClock(s: Sim, frame: FrameFn)
    ensures Drain(s, frame).t <= FrameDuration
    ensures FrameDuration < s.t ==> 0.0 < Drain(s, frame).t
    ensures Drain(s, frame).t == s.t - FramesDue(s.t) as real * FrameDuration
    decreases PendingFrames(s.t)
  {
    if s.t > FrameDuration {
      PendingFramesDrop(s.t);
      DrainClock(Tick(s, frame), frame);
    }
  }

  /** n ticks in a row. */
  function Ticks(s: Sim, frame: FrameFn, n: nat): Sim
    decreases n
  {
    if n == 0 then s else Ticks(Tick(s, frame), frame, n - 1)
  }

  /** Draining runs exactly FramesDue(s.t) frames, one after the other, each
      from the cells and read position the one before it left. */
  lemma {:induction false} DrainIsFramesDueTicks(s: Sim, frame: FrameFn)
    ensures Drain(s, frame) == Ticks(s, frame, FramesDue(s.t))
    decreases PendingFrames(s.t)
  {
    if s.t > FrameDuration {
      PendingFramesDrop(s.t);
      DrainIsFramesDueTicks(Tick(s, frame), frame);
    }
  }

  /** Draining is one tick and then draining the rest while the clock exceeds
      FrameDuration, and nothing otherwise. */
  lemma DrainUnfold(s: Sim, frame: FrameFn)
    ensures Drain(s, frame) == if s.t > FrameDuration then Drain(Tick(s, frame), frame) else s
  {
  }

  /** One update: add dt to the clock, then run the frames that are due. */
  function Advance(s: Sim, dt: real, frame: FrameFn): Sim {
    Drain(Sim(s.cells, s.pos, s.t + dt), frame)
  }

  lemma AdvanceDef(s: Sim, dt: real, frame: FrameFn)
    ensures Advance(s, dt, frame) == Drain(Sim(s.cells, s.pos, s.t + dt), frame)
  {
  }

  /** An update that leaves the clock at most FrameDuration runs no frame. */
  lemma AdvanceIdleBelowFrame(s: Sim, dt: real, frame: FrameFn)
    requires s.t + dt <= FrameDuration
    ensures Advance(s, dt, frame) == Sim(s.cells, s.pos, s.t + dt)
  {
  }

  /** Adding b more seconds after draining gives what adding them before
      draining gives. */
  lemma {:induction false} DrainThenAdd(s: Sim, b: real, frame: FrameFn)
    requires 0.0 <= b
    ensures var d := Drain(s, frame);
      Drain(Sim(d.cells, d.pos, d.t + b), frame) == Drain(Sim(s.cells, s.pos, s.t + b), frame)
    decreases PendingFrames(s.t)
  {
    if s.t > FrameDuration {
      var next := Tick(s, frame);
      PendingFramesDrop(s.t);
      DrainThenAdd(next, b, frame);
      assert Tick(Sim(s.cells, s.pos, s.t + b), frame) == Sim(next.cells, next.pos, next.t + b);
    }
  }

  /** Splitting the elapsed time over two updates changes nothing: the same
      frames run from the same cells and read position, and the clock ends
      at the same value. */
  lemma AdvanceSplit(s: Sim, a: real, b: real, frame: FrameFn)
    requires 0.0 <= b
    ensures Advance(Advance(s, a, frame), b, frame) == Advance(s, a + b, frame)
  {
    DrainThenAdd(Sim(s.cells, s.pos, s.t + a), b, frame);
    assert s.t + a + b == s.t + (a + b);
  }

  /** Starting from a zero clock, an update of half a frame runs no frame,
      and two of them end where one update of a whole frame ends, which
      runs no frame either. */
  lemma HalfFramesMatchWholeFrame(s: Sim, frame: FrameFn)
    requires s.t == 0.0
    ensures Advance(s, 0.05, frame).cells == s.cells
    ensures Advance(Advance(s, 0.05, frame), 0.05, frame) == Advance(s, 0.1, frame)
    ensures Advance(s, 0.1, frame).cells == s.cells
  {
    AdvanceSplit(s, 0.05, 0.05, frame);
  }

  /** A large update runs several frames: 0.35 seconds on a zero clock run
      three frames in a row and leave 0.05 seconds on the clock. */
  lemma LargeUpdateRunsSeveralFrames(s: Sim, frame: FrameFn)
    requires s.t == 0.0
    ensures FramesDue(s.t + 0.35) == 3
    ensures Advance(s, 0.35, frame) == Tick(Tick(Tick(Sim(s.cells, s.pos, 0.35), frame), frame), frame)
    ensures Advance(s, 0.35, frame).t == 0.05
  {
    assert FramesDue(0.35) == 1 + FramesDue(0.25) == 2 + FramesDue(0.15) == 3 + FramesDue(0.05);
    var s0 := Sim(s.cells, s.pos, 0.35);
    var s1 := Tick(s0, frame);
    var s2 := Tick(s1, frame);
    var s3 := Tick(s2, frame);
    assert Drain(s0, frame) == Drain(s1, frame);
    assert Drain(s1, frame) == Drain(s2, frame);
    assert Drain(s2, frame) == Drain(s3, frame);
    assert Drain(s3, frame) == s3;
    DrainClock(s0, frame);
  }

  /** If no frame clears a cell, draining never clears one. */
  lemma {:induction false} DrainCovers(s: Sim, frame: FrameFn)
    requires forall c, p :: Covers(c, frame(c, p).0)
    ensures Covers(s.cells, Drain(s, frame).cells)
    decreases PendingFrames(s.t)
  {
    if s.t > FrameDuration {
      PendingFramesDrop(s.t);
      DrainCovers(Tick(s, frame), frame);
      assert Covers(s.cells, Tick(s, frame).cells);
    }
  }

  /** If every frame leaves the cells as they are, so does draining. */
  lemma {:induction false} DrainKeepsCells(s: Sim, frame: FrameFn)
    requires forall c, p :: frame(c, p).0 == c
    ensures Drain(s, frame).cells == s.cells
    decreases PendingFrames(s.t)
  {
    if s.t > FrameDuration {
      PendingFramesDrop(s.t);
      DrainKeepsCells(Tick(s, frame), frame);
    }
  }
}
