/**
 * The grid object of the engine: a fixed-size row-major vector of cells that
 * the aggregation step updates in place, the clock of the fixed-timestep
 * accumulator, the random source, the stickiness and the pause flag. Each
 * method is proved against the functions of Occupancy, Aggregation and Timing.
 */
module Dla {
  import opened Geometry
  import opened Occupancy
  import opened Random
  import opened Aggregation
  import opened Timing

  /** The aggregation frame as a total function of cells and read position
      (vectors of another length are left as they are). */
  function FrameStep(e: Env): FrameFn {
    (c: seq<bool>, p: nat) =>
      if |c| == CellCount then
        var f := Frame(c, e, p);
        (f.cells, f.pos)
      else
        (c, p)
  }

  /** On a vector of CellCount cells, FrameStep is the aggregation frame. */
  lemma FrameStepIsFrame(e: Env, c: seq<bool>, p: nat)
    requires |c| == CellCount
    ensures FrameStep(e)(c, p) == (Frame(c, e, p).cells, Frame(c, e, p).pos)
  {
  }

  /** No frame clears a cell, so no update does. */
  lemma AdvanceCovers(s: Sim, dt: real, e: Env)
    ensures Covers(s.cells, Advance(s, dt, FrameStep(e)).cells)
  {
    forall c, p ensures Covers(c, FrameStep(e)(c, p).0) {
      if |c| == CellCount {
        FrameCovers(c, e, p);
      }
    }
    DrainCovers(Sim(s.cells, s.pos, s.t + dt), FrameStep(e));
  }

  /** With stickiness of at most 0 no update changes a cell, however many
      frames it runs. */
  lemma AdvanceIdleWhenNeverSticky(s: Sim, dt: real, e: Env)
    requires e.stickiness <= 0.0
    ensures Advance(s, dt, FrameStep(e)).cells == s.cells
  {
    forall c, p ensures FrameStep(e)(c, p).0 == c {
      if |c| == CellCount {
        WalksIdleWhenNeverSticky(c, e, p, ParticlesPerFrame);
      }
    }
    DrainKeepsCells(Sim(s.cells, s.pos, s.t + dt), FrameStep(e));
  }

  class Grid {
    const cells: array<bool>
    var t: real
    const rng: Rng
    const stickiness: real
    var running: bool

    ghost predicate Valid() {
      cells.Length == CellCount
    }

    /** The aggregation inputs this grid supplies, for a given walk step budget. */
    function Inputs(budget: nat): Env
    {
      Env(rng.src, stickiness, budget)
    }

    /** A grid with every cell unoccupied, a zero clock, and running. */
    constructor NewEmpty(rng: Rng, stickiness: real)
      ensures Valid() && fresh(cells)
      ensures cells[..] == Empty()
      ensures t == 0.0 && running
      ensures this.rng == rng && this.stickiness == stickiness
    {
      cells := new bool[CellCount](_ => false);
      t := 0.0;
      this.rng := rng;
      this.stickiness := stickiness;
      running := true;
    }

    /** A grid seeded with the single centre cell. The random source is taken
        over as it is, so its stream continues where it was. */
    static method New(rng: Rng, stickiness: real) returns (g: Grid)
      ensures fresh(g) && fresh(g.cells) && g.Valid()
      ensures g.cells[..] == Seeded()
      ensures g.t == 0.0 && g.running
      ensures g.rng == rng && g.stickiness == stickiness
    {
      g := new Grid.NewEmpty(rng, stickiness);
      g.Set(GridWidth / 2, GridHeight / 2);
    }

    /** Mark cell (x, y) occupied, writing its row-major index. */
    method Set(x: int, y: int)
      requires Valid() && Addressable(x, y)
      modifies cells
      ensures cells[..] == Occupancy.Set(old(cells[..]), x, y)
    {
      cells[Index(x, y)] := true;
    }

    /** Whether (x, y) is an occupied cell, read from the array. */
    function Occupied(x: int, y: int): (b: bool)
      reads cells
      requires Valid()
      ensures b == Test(cells[..], x, y)
    {
      InBounds(x, y) && cells[Index(x, y)]
    }

    /** Whether (x, y) is adjacent to an occupied cell, reading only the
        eight neighbouring entries of the array. */
    function Adjacent(x: int, y: int): (b: bool)
      reads cells
      requires Valid()
      ensures b == IsAdjacent(cells[..], x, y)
    {
         Occupied(x - 1, y - 1)
      || Occupied(x    , y - 1)
      || Occupied(x + 1, y - 1)
      || Occupied(x - 1, y    )
      || Occupied(x + 1, y    )
      || Occupied(x - 1, y + 1)
      || Occupied(x    , y + 1)
      || Occupied(x + 1, y + 1)
    }

    /** One iteration of a particle's walk at (x, y): the adjacency test, a
        unit draw against the stickiness only when adjacent, and otherwise a
        step in a direction drawn from the table. */
    method TakeTurn(x: int, y: int, budget: nat) returns (m: Move)
      requires Valid()
      modifies rng
      ensures m == Turn(cells[..], Inputs(budget), old(rng.pos), x, y) && rng.pos == m.pos
    {
      var adjacent := Adjacent(x, y);
      var stick := false;
      if adjacent {
        var u := rng.GenUnit();
        stick := u < stickiness;
      }
      if stick {
        m := Stick(rng.pos);
      } else {
        var d := rng.Choose(|Dirs|);
        var next := (x + Dirs[d].0, y + Dirs[d].1);
        if InBounds(next.0, next.1) {
          m := Continue(next, rng.pos);
        } else {
          m := Escape(next, rng.pos);
        }
      }
    }

    /** The walk of one particle from (x0, y0), for at most `budget`
        iterations: it sticks where it is, escapes, or runs out of budget. */
    method RunParticle(x0: int, y0: int, budget: nat) returns (o: Outcome)
      requires Valid() && OnGrid(x0, y0)
      modifies cells, rng
      ensures var w := Walk(TurnOf(old(cells[..]), Inputs(budget)), old(rng.pos), x0, y0, budget);
        o == w.outcome && rng.pos == w.pos
      ensures o.Stuck? ==> OnGrid(o.x, o.y)
      ensures cells[..] == Settle(old(cells[..]), o)
    {
      ghost var c0 := cells[..];
      ghost var e := Inputs(budget);
      ghost var turn := TurnAgreeing(c0, e);
      ghost var p0 := rng.pos;
      ghost var whole := Walk(turn, rng.pos, x0, y0, budget);
      var x, y := x0, y0;
      var fuel := budget;
      while fuel > 0
        invariant cells[..] == c0 && OnGrid(x, y)
        invariant Walk(turn, rng.pos, x, y, fuel).outcome == whole.outcome
        invariant Walk(turn, rng.pos, x, y, fuel).pos == whole.pos
        decreases fuel
      {
        ghost var p := rng.pos;
        var m := TakeTurn(x, y, budget);
        assert turn(p, x, y) == m;
        WalkTurn(turn, p, x, y, fuel);
        match m
        case Stick(_) =>
          Set(x, y);
          WalkCongruent(turn, TurnOf(c0, e), p0, x0, y0, budget);
          return Stuck(x, y);
        case Escape(next, _) =>
          WalkCongruent(turn, TurnOf(c0, e), p0, x0, y0, budget);
          return Escaped(next.0, next.1);
        case Continue(next, _) =>
          x, y := next.0, next.1;
          fuel := fuel - 1;
      }
      WalkCongruent(turn, TurnOf(c0, e), p0, x0, y0, budget);
      o := Exhausted;
    }

    /** A start point drawn from [0, GridWidth) × [0, GridHeight), x first. */
    method DrawStart() returns (x: int, y: int)
      modifies rng
      ensures x == Range(rng.src, old(rng.pos), 0, GridWidth)
      ensures y == Range(rng.src, old(rng.pos) + 1, 0, GridHeight)
      ensures rng.pos == old(rng.pos) + 2
    {
      x := rng.GenRange(0, GridWidth);
      y := rng.GenRange(0, GridHeight);
    }

    /** One particle: a start point drawn from [0, GridWidth) ×
        [0, GridHeight), x first, then its walk. */
    method DropParticle(budget: nat) returns (o: Outcome)
      requires Valid()
      modifies cells, rng
      ensures var w := Particle(old(cells[..]), Inputs(budget), old(rng.pos));
        o == w.outcome && rng.pos == w.pos
      ensures cells[..] == Settle(old(cells[..]), o)
    {
      var x, y := DrawStart();
      o := RunParticle(x, y, budget);
    }

    /** k particles in sequence. */
    method RunParticles(k: nat, budget: nat)
      requires Valid()
      modifies cells, rng
      ensures var f := Walks(old(cells[..]), Inputs(budget), old(rng.pos), k);
        cells[..] == f.cells && rng.pos == f.pos
    {
      ghost var e := Inputs(budget);
      ghost var whole := Walks(cells[..], e, rng.pos, k);
      var n := k;
      while n > 0
        invariant Walks(cells[..], e, rng.pos, n).cells == whole.cells
        invariant Walks(cells[..], e, rng.pos, n).pos == whole.pos
        decreases n
      {
        var _ := DropParticle(budget);
        n := n - 1;
      }
    }

    /** One frame: ParticlesPerFrame particle walks. No cell is cleared, and
        at most ParticlesPerFrame cells are set. */
    method UpdateOneFrame(budget: nat)
      requires Valid()
      modifies cells, rng
      ensures var f := Frame(old(cells[..]), Inputs(budget), old(rng.pos));
        cells[..] == f.cells && rng.pos == f.pos
      ensures Covers(old(cells[..]), cells[..])
      ensures |Changed(old(cells[..]), cells[..])| <= ParticlesPerFrame
    {
      ghost var c0, p0 := cells[..], rng.pos;
      RunParticles(ParticlesPerFrame, budget);
      FrameCovers(c0, Inputs(budget), p0);
      FrameChangesAtMost(c0, Inputs(budget), p0);
    }

    /** Add dt to the clock, then run one frame for each FrameDuration the
        clock exceeds, taking FrameDuration off after each. */
    method Update(dt: real, budget: nat)
      requires Valid()
      modifies this, cells, rng
      ensures var r := Advance(Sim(old(cells[..]), old(rng.pos), old(t)), dt, FrameStep(Inputs(budget)));
        cells[..] == r.cells && rng.pos == r.pos && t == r.t
      ensures t <= FrameDuration
      ensures running == old(running)
      ensures Covers(old(cells[..]), cells[..])
    {
      ghost var step := FrameStep(Inputs(budget));
      ghost var start := Sim(cells[..], rng.pos, t + dt);
      ghost var s0 := Sim(cells[..], rng.pos, t);
      assert s0.cells == cells[..];
      AdvanceDef(s0, dt, step);
      assert start == Sim(s0.cells, s0.pos, s0.t + dt);
      t := t + dt;
      assert Sim(cells[..], rng.pos, t) == start;
      while t > FrameDuration
        invariant running == old(running)
        invariant Drain(Sim(cells[..], rng.pos, t), step) == Drain(start, step)
        decreases PendingFrames(t)
      {
        ghost var s := Sim(cells[..], rng.pos, t);
        PendingFramesDrop(t);
        DrainUnfold(s, step);
        UpdateOneFrame(budget);
        t := t - FrameDuration;
        FrameStepIsFrame(Inputs(budget), s.cells, s.pos);
        assert Sim(cells[..], rng.pos, t) == Tick(s, step);
      }
      DrainUnfold(Sim(cells[..], rng.pos, t), step);
      DrainClock(start, step);
      AdvanceCovers(Sim(old(cells[..]), old(rng.pos), old(t)), dt, Inputs(budget));
    }
  }
}
