/**
 * The aggregation step as a function of its inputs: the walk of one particle
 * until it sticks or escapes, and one frame of ParticlesPerFrame such walks.
 * A walk has no step limit in the engine; here it carries a step budget so that
 * every walk ends, and a walk whose budget runs out drops its particle.
 *
 * A walk is stated for any turn function (what one iteration does at a
 * position); the engine's turn is Turn over the frame's cells.
 */
module Aggregation {
  import opened Geometry
  import opened Occupancy
  import opened Random

  /** Particle walks attempted per frame. */
  const ParticlesPerFrame: nat := 60

  /** What a frame depends on besides the cells and the read position: the
      random stream, the stickiness threshold and the per-walk step budget. */
  datatype Env = Env(src: Stream, stickiness: real, budget: nat)

  /** How a walk ended: stuck at a position, escaped to an out-of-bounds
      position, or ran out of its step budget. */
  datatype Outcome = Stuck(x: int, y: int) | Escaped(x: int, y: int) | Exhausted

  /** A walk's outcome, the read position after it, and the positions it
      visited, from the start point to the last one. */
  datatype WalkResult = WalkResult(outcome: Outcome, pos: nat, path: seq<(int, int)>)

  /** The position one step from p in table direction d. */
  function Step(p: (int, int), d: nat): (int, int)
    requires d < |Dirs|
  {
    (p.0 + Dirs[d].0, p.1 + Dirs[d].1)
  }

  /** One step of a walk: the offset from p to q is a Moore offset, which is
      to say an entry of the direction table (DirsAreMooreOffsets). */
  predicate IsDirStep(p: (int, int), q: (int, int)) {
    IsMooreOffset(q.0 - p.0, q.1 - p.1)
  }

  /** Consecutive positions of the path are one direction-table step apart. */
  predicate DirSteps(path: seq<(int, int)>) {
    forall i :: 0 < i < |path| ==> IsDirStep(path[i - 1], path[i])
  }

  /** Every position of the path after the first is in bounds, except that
      the last one may not be when the walk escaped. */
  predicate InBoundsAfterStart(path: seq<(int, int)>, escaped: bool) {
    forall i :: 0 < i < |path| ==>
      InBounds(path[i].0, path[i].1) || (escaped && i == |path| - 1)
  }

  /** The result of one iteration of a walk: stick where it is, or step to a
      neighbour that is out of bounds (escape) or in bounds (continue); `pos`
      is the read position after the iteration's draws. */
  datatype Move = Stick(pos: nat) | Escape(to: (int, int), pos: nat) | Continue(to: (int, int), pos: nat)

  /** One iteration of a walk at (x, y). A unit draw is taken only when the
      position is adjacent to the cluster, and the particle sticks when that
      draw is below the stickiness; otherwise a direction is drawn and taken. */
  function Turn(cells: seq<bool>, e: Env, pos: nat, x: int, y: int): Move
    requires |cells| == CellCount
  {
    var adjacent := IsAdjacent(cells, x, y);
    if adjacent && Unit(e.src, pos) < e.stickiness then
      Stick(pos + 1)
    else
      var p1 := if adjacent then pos + 1 else pos;
      var d := Choice(e.src, p1, |Dirs|);
      var next := Step((x, y), d);
      if InBounds(next.0, next.1) then Continue(next, p1 + 1) else Escape(next, p1 + 1)
  }

  /** A turn sticks exactly when the position is adjacent and the unit draw
      is below the stickiness, and then consumes that one draw. Otherwise it
      takes one direction-table step, consumes the direction draw (after the
      unit draw when there was one), and continues exactly when the new
      position is in bounds. */
  lemma TurnCases(cells: seq<bool>, e: Env, pos: nat, x: int, y: int)
    requires |cells| == CellCount
    ensures var m := Turn(cells, e, pos, x, y);
      && (m.Stick? <==> IsAdjacent(cells, x, y) && Unit(e.src, pos) < e.stickiness)
      && (m.Stick? ==> m.pos == pos + 1)
      && (!m.Stick? ==> IsDirStep((x, y), m.to) && m.pos == pos + (if IsAdjacent(cells, x, y) then 2 else 1))
      && (m.Continue? <==> !m.Stick? && InBounds(m.to.0, m.to.1))
  {
    DirsAreMooreOffsets();
  }

  /** What one iteration of a walk does at a position, given the read position. */
  type TurnFn = (nat, int, int) -> Move

  /** The engine's turn over fixed cells and inputs. */
  function TurnOf(cells: seq<bool>, e: Env): TurnFn
    requires |cells| == CellCount
  {
    (pos: nat, x: int, y: int) => Turn(cells, e, pos, x, y)
  }

  /** A turn function of the engine's shape: a stick consumes one draw; any
      other move is one direction-table step, consumes at least one draw, and
      continues exactly when it lands in bounds. */
  ghost predicate Lawful(turn: TurnFn) {
    forall pos: nat, x: int, y: int ::
      var m := turn(pos, x, y);
      (m.Stick? ==> m.pos == pos + 1)
      && (!m.Stick? ==> IsDirStep((x, y), m.to) && pos < m.pos && (m.Continue? <==> InBounds(m.to.0, m.to.1)))
  }

  /** The engine's turn is lawful. */
  lemma TurnOfLawful(cells: seq<bool>, e: Env)
    requires |cells| == CellCount
    ensures Lawful(TurnOf(cells, e))
  {
    forall pos: nat, x: int, y: int
      ensures var m := TurnOf(cells, e)(pos, x, y);
        (m.Stick? ==> m.pos == pos + 1)
        && (!m.Stick? ==> IsDirStep((x, y), m.to) && pos < m.pos && (m.Continue? <==> InBounds(m.to.0, m.to.1)))
    {
      TurnCases(cells, e, pos, x, y);
    }
  }

  /** A turn function that agrees with Turn over the given cells and inputs,
      known to the caller only through that agreement at the points where
      Turn is applied. */
  lemma TurnAgreeing(cells: seq<bool>, e: Env) returns (turn: TurnFn)
    requires |cells| == CellCount
    ensures forall p: nat, a: int, b: int {:trigger Turn(cells, e, p, a, b)} ::
      turn(p, a, b) == Turn(cells, e, p, a, b)
  {
    turn := TurnOf(cells, e);
  }

  /** The walk of one particle from (x, y), with `fuel` iterations left. */
  function Walk(turn: TurnFn, pos: nat, x: int, y: int, fuel: nat): (r: WalkResult)
    ensures |r.path| >= 1 && r.path[0] == (x, y)
    decreases fuel
  {
    if fuel == 0 then
      WalkResult(Exhausted, pos, [(x, y)])
    else
      match turn(pos, x, y)
      case Stick(p) => WalkResult(Stuck(x, y), p, [(x, y)])
      case Escape(next, p) => WalkResult(Escaped(next.0, next.1), p, [(x, y), next])
      case Continue(next, p) =>
        var rest := Walk(turn, p, next.0, next.1, fuel - 1);
        WalkResult(rest.outcome, rest.pos, [(x, y)] + rest.path)
  }

  /** A walk with fuel left ends as its first turn says: where it is when
      the turn sticks, at the new position when it escapes, and as the rest
      of the walk from the new position when it continues. */
  lemma WalkTurn(turn: TurnFn, pos: nat, x: int, y: int, fuel: nat)
    requires 0 < fuel
    ensures var r := Walk(turn, pos, x, y, fuel);
      match turn(pos, x, y)
      case Stick(p) => r.outcome == Stuck(x, y) && r.pos == p
      case Escape(next, p) => r.outcome == Escaped(next.0, next.1) && r.pos == p
      case Continue(next, p) =>
        var rest := Walk(turn, p, next.0, next.1, fuel - 1);
        r.outcome == rest.outcome && r.pos == rest.pos
  {
  }

  /** The budget only cuts a walk short: a walk that sticks or escapes within
      budget f1 has the same result under every larger budget, so it is the
      walk the engine's unbounded loop performs. */
  lemma {:induction false} WalkFuelMonotone(turn: TurnFn, pos: nat, x: int, y: int, f1: nat, f2: nat)
    requires f1 <= f2 && !Walk(turn, pos, x, y, f1).outcome.Exhausted?
    ensures Walk(turn, pos, x, y, f2) == Walk(turn, pos, x, y, f1)
    decreases f1
  {
    var m := turn(pos, x, y);
    if m.Continue? {
      WalkFuelMonotone(turn, m.pos, m.to.0, m.to.1, f1 - 1, f2 - 1);
    }
  }

  /** Walks with pointwise equal turn functions are equal. */
  lemma {:induction false} WalkCongruent(t1: TurnFn, t2: TurnFn, pos: nat, x: int, y: int, fuel: nat)
    requires forall p: nat, a: int, b: int :: t1(p, a, b) == t2(p, a, b)
    ensures Walk(t1, pos, x, y, fuel) == Walk(t2, pos, x, y, fuel)
    decreases fuel
  {
    if fuel > 0 {
      var m := t1(pos, x, y);
      if m.Continue? {
        WalkCongruent(t1, t2, m.pos, m.to.0, m.to.1, fuel - 1);
      }
    }
  }

  /** Every step of a lawful walk is a direction-table offset, and every
      position after the start is in bounds except the last position of an
      escape. */
  lemma {:induction false} WalkPath(turn: TurnFn, pos: nat, x: int, y: int, fuel: nat)
    requires Lawful(turn)
    ensures DirSteps(Walk(turn, pos, x, y, fuel).path)
    ensures InBoundsAfterStart(Walk(turn, pos, x, y, fuel).path, Walk(turn, pos, x, y, fuel).outcome.Escaped?)
    decreases fuel
  {
    if fuel > 0 {
      var m := turn(pos, x, y);
      if m.Continue? {
        var r := Walk(turn, pos, x, y, fuel);
        var rest := Walk(turn, m.pos, m.to.0, m.to.1, fuel - 1);
        WalkPath(turn, m.pos, m.to.0, m.to.1, fuel - 1);
        assert r.path == [(x, y)] + rest.path && r.outcome == rest.outcome;
        assert r.path[1] == rest.path[0] == m.to;
        forall i | 1 < i < |r.path|
          ensures IsDirStep(r.path[i - 1], r.path[i])
          ensures InBounds(r.path[i].0, r.path[i].1) || (r.outcome.Escaped? && i == |r.path| - 1)
        {
          assert r.path[i] == rest.path[i - 1] && r.path[i - 1] == rest.path[(i - 1) - 1];
        }
      }
    }
  }

  /** How a lawful walk ends: a stuck walk stops where it is, which is on the
      grid when the start is; an escaped walk stops at the out-of-bounds
      position its last step reached; a walk whose budget ran out took all
      `fuel` steps. The read position never moves backwards. */
  lemma {:induction false} WalkEnds(turn: TurnFn, pos: nat, x: int, y: int, fuel: nat)
    requires Lawful(turn)
    ensures var r := Walk(turn, pos, x, y, fuel);
      && (r.outcome.Stuck? ==>
            r.path[|r.path| - 1] == (r.outcome.x, r.outcome.y)
            && (OnGrid(x, y) ==> OnGrid(r.outcome.x, r.outcome.y)))
      && (r.outcome.Escaped? ==>
            |r.path| >= 2 && r.path[|r.path| - 1] == (r.outcome.x, r.outcome.y)
            && !InBounds(r.outcome.x, r.outcome.y))
      && (r.outcome.Exhausted? ==> |r.path| == fuel + 1)
      && pos <= r.pos
    decreases fuel
  {
    if fuel > 0 {
      var m := turn(pos, x, y);
      if m.Continue? {
        WalkEnds(turn, m.pos, m.to.0, m.to.1, fuel - 1);
      }
    }
  }

  /** Every position a lawful walk from the grid visits lies within one cell
      of the grid's rectangle, so the coordinates stay far inside the 32-bit
      range. */
  lemma WalkStaysNearGrid(turn: TurnFn, pos: nat, x: int, y: int, fuel: nat)
    requires Lawful(turn) && OnGrid(x, y)
    ensures var r := Walk(turn, pos, x, y, fuel);
      forall i :: 0 <= i < |r.path| ==>
        -1 <= r.path[i].0 <= GridWidth && -1 <= r.path[i].1 <= GridHeight
  {
    var r := Walk(turn, pos, x, y, fuel);
    WalkPath(turn, pos, x, y, fuel);
    forall i | 0 < i < |r.path| && !InBounds(r.path[i].0, r.path[i].1)
      ensures -1 <= r.path[i].0 <= GridWidth && -1 <= r.path[i].1 <= GridHeight
    {
      assert IsDirStep(r.path[i - 1], r.path[i]);
    }
  }

  /** The engine's turn sticks only at a position adjacent to the cluster. */
  lemma TurnSticksOnlyWhenAdjacent(cells: seq<bool>, e: Env)
    requires |cells| == CellCount
    ensures forall pos: nat, x: int, y: int ::
      TurnOf(cells, e)(pos, x, y).Stick? ==> IsAdjacent(cells, x, y)
  {
    forall pos: nat, x: int, y: int
      ensures TurnOf(cells, e)(pos, x, y).Stick? ==> IsAdjacent(cells, x, y)
    {
      TurnCases(cells, e, pos, x, y);
    }
  }

  /** With stickiness of at least 1 the engine's turn sticks at every
      position adjacent to the cluster. */
  lemma TurnSticksOnContact(cells: seq<bool>, e: Env)
    requires |cells| == CellCount && 1.0 <= e.stickiness
    ensures forall pos: nat, x: int, y: int ::
      IsAdjacent(cells, x, y) ==> TurnOf(cells, e)(pos, x, y).Stick?
  {
    forall pos: nat, x: int, y: int
      ensures IsAdjacent(cells, x, y) ==> TurnOf(cells, e)(pos, x, y).Stick?
    {
      UnitAgainstExtremes(e.src, pos, e.stickiness);
      TurnCases(cells, e, pos, x, y);
    }
  }

  /** With stickiness of at most 0 the engine's turn never sticks. */
  lemma TurnNeverSticks(cells: seq<bool>, e: Env)
    requires |cells| == CellCount && e.stickiness <= 0.0
    ensures forall pos: nat, x: int, y: int :: !TurnOf(cells, e)(pos, x, y).Stick?
  {
    forall pos: nat, x: int, y: int ensures !TurnOf(cells, e)(pos, x, y).Stick? {
      UnitAgainstExtremes(e.src, pos, e.stickiness);
      TurnCases(cells, e, pos, x, y);
    }
  }

  /** A walk whose turn sticks only at positions adjacent to the cluster
      sticks, if at all, at such a position. */
  lemma {:induction false} WalkSticksOnlyWhenAdjacent(cells: seq<bool>, turn: TurnFn, pos: nat, x: int, y: int, fuel: nat)
    requires |cells| == CellCount
    requires forall p: nat, a: int, b: int :: turn(p, a, b).Stick? ==> IsAdjacent(cells, a, b)
    ensures var o := Walk(turn, pos, x, y, fuel).outcome;
      o.Stuck? ==> IsAdjacent(cells, o.x, o.y)
    decreases fuel
  {
    if fuel > 0 {
      var m := turn(pos, x, y);
      if m.Continue? {
        WalkSticksOnlyWhenAdjacent(cells, turn, m.pos, m.to.0, m.to.1, fuel - 1);
      }
    }
  }

  /** A walk whose turn sticks at every position adjacent to the cluster
      never passes such a position: it sticks at the first one it tests. */
  lemma {:induction false} WalkCertainSticksOnContact(cells: seq<bool>, turn: TurnFn, pos: nat, x: int, y: int, fuel: nat)
    requires |cells| == CellCount
    requires forall p: nat, a: int, b: int :: IsAdjacent(cells, a, b) ==> turn(p, a, b).Stick?
    ensures var r := Walk(turn, pos, x, y, fuel);
      forall i :: 0 <= i < |r.path| - 1 ==> !IsAdjacent(cells, r.path[i].0, r.path[i].1)
    ensures 0 < fuel && IsAdjacent(cells, x, y) ==> Walk(turn, pos, x, y, fuel).outcome == Stuck(x, y)
    decreases fuel
  {
    if fuel > 0 {
      var m := turn(pos, x, y);
      if m.Continue? {
        var r := Walk(turn, pos, x, y, fuel);
        var rest := Walk(turn, m.pos, m.to.0, m.to.1, fuel - 1);
        WalkCertainSticksOnContact(cells, turn, m.pos, m.to.0, m.to.1, fuel - 1);
        assert r.path == [(x, y)] + rest.path;
        forall i | 0 < i < |r.path| ensures r.path[i] == rest.path[i - 1] {
        }
      }
    }
  }

  /** A walk whose turn never sticks never sticks. */
  lemma {:induction false} WalkNeverSticks(turn: TurnFn, pos: nat, x: int, y: int, fuel: nat)
    requires forall p: nat, a: int, b: int :: !turn(p, a, b).Stick?
    ensures !Walk(turn, pos, x, y, fuel).outcome.Stuck?
    decreases fuel
  {
    if fuel > 0 {
      var m := turn(pos, x, y);
      if m.Continue? {
        WalkNeverSticks(turn, m.pos, m.to.0, m.to.1, fuel - 1);
      }
    }
  }

  /** The engine's walk from a cell of the grid sticks, if at all, at a cell
      of the grid adjacent to the cluster. */
  lemma EngineWalkSticksNextToCluster(cells: seq<bool>, e: Env, pos: nat, x: int, y: int)
    requires |cells| == CellCount && OnGrid(x, y)
    ensures var o := Walk(TurnOf(cells, e), pos, x, y, e.budget).outcome;
      o.Stuck? ==> OnGrid(o.x, o.y) && IsAdjacent(cells, o.x, o.y)
  {
    TurnOfLawful(cells, e);
    WalkEnds(TurnOf(cells, e), pos, x, y, e.budget);
    TurnSticksOnlyWhenAdjacent(cells, e);
    WalkSticksOnlyWhenAdjacent(cells, TurnOf(cells, e), pos, x, y, e.budget);
  }

  /** With stickiness of at least 1 the engine's walk sticks at the first
      adjacent position it tests (the start or an in-bounds position): every
      earlier position is not adjacent, and a walk that starts adjacent
      sticks where it starts. A step out of bounds escapes untested
      (BorderStepEscapesBesideCluster). */
  lemma EngineWalkSticksOnContact(cells: seq<bool>, e: Env, pos: nat, x: int, y: int)
    requires |cells| == CellCount && 1.0 <= e.stickiness
    ensures var r := Walk(TurnOf(cells, e), pos, x, y, e.budget);
      forall i :: 0 <= i < |r.path| - 1 ==> !IsAdjacent(cells, r.path[i].0, r.path[i].1)
    ensures 0 < e.budget && IsAdjacent(cells, x, y) ==>
      Walk(TurnOf(cells, e), pos, x, y, e.budget).outcome == Stuck(x, y)
  {
    TurnSticksOnContact(cells, e);
    WalkCertainSticksOnContact(cells, TurnOf(cells, e), pos, x, y, e.budget);
  }

  /** A step onto column 0 escapes even beside the cluster: with stickiness 1,
      the single cell (1, 3) occupied and every word 5 (direction (-1, 1)),
      the walk from (1, 1) steps to (0, 2), which is next to (1, 3), and
      escapes there instead of sticking. */
  lemma BorderStepEscapesBesideCluster(budget: nat)
    requires 0 < budget
    ensures var cells := Set(Empty(), 1, 3);
      var r := Walk(TurnOf(cells, Env((n: nat) => 5, 1.0, budget)), 0, 1, 1, budget);
      r.outcome == Escaped(0, 2) && IsAdjacent(cells, 0, 2)
  {
    var cells := Set(Empty(), 1, 3);
    forall qx, qy ensures Test(cells, qx, qy) == (qx == 1 && qy == 3) {
      TestAfterSet(Empty(), 1, 3, qx, qy);
      EmptyHasNoOccupied(qx, qy);
    }
    assert !IsAdjacent(cells, 1, 1);
    assert IsAdjacent(cells, 0, 2);
  }

  /** A start point in column 0 can stick there: with stickiness 1 and the
      single cell (1, 1) occupied, the walk from (0, 1) sticks at once. The
      cell it writes is never reported by Test, so the write is lost. */
  lemma NearBorderStickIsLost(src: Stream, pos: nat, budget: nat)
    requires 0 < budget
    ensures var cells := Set(Empty(), 1, 1);
      var o := Walk(TurnOf(cells, Env(src, 1.0, budget)), pos, 0, 1, budget).outcome;
      o == Stuck(0, 1) && Settle(cells, o) != cells
      && forall qx, qy :: Test(Settle(cells, o), qx, qy) == Test(cells, qx, qy)
  {
    var cells := Set(Empty(), 1, 1);
    assert Test(cells, 1, 1);
    EngineWalkSticksOnContact(cells, Env(src, 1.0, budget), pos, 0, 1);
    assert !cells[Index(0, 1)];
    forall qx, qy ensures Test(Set(cells, 0, 1), qx, qy) == Test(cells, qx, qy) {
      NearBorderWriteInvisible(cells, 0, 1, qx, qy);
    }
  }

  /** The cells after a walk: the stuck position is set, otherwise nothing changes. */
  function Settle(cells: seq<bool>, o: Outcome): (r: seq<bool>)
    requires |cells| == CellCount && (o.Stuck? ==> OnGrid(o.x, o.y))
    ensures |r| == CellCount
  {
    if o.Stuck? then Set(cells, o.x, o.y) else cells
  }

  /** The outcome is a stick into the cell with index i. */
  predicate SticksAt(o: Outcome, i: int) {
    o.Stuck? && Index(o.x, o.y) == i
  }

  /** A frame's cells, read position and the outcomes of its walks in order. */
  datatype FrameResult = FrameResult(cells: seq<bool>, pos: nat, outcomes: seq<Outcome>)

  /** The walk of one particle from a start point drawn from
      [0, GridWidth) × [0, GridHeight), x first, then y. It sticks, if at
      all, on the grid and next to the cluster. */
  function Particle(cells: seq<bool>, e: Env, pos: nat): (w: WalkResult)
    requires |cells| == CellCount
    ensures w.outcome.Stuck? ==> OnGrid(w.outcome.x, w.outcome.y) && IsAdjacent(cells, w.outcome.x, w.outcome.y)
  {
    var x := Range(e.src, pos, 0, GridWidth);
    var y := Range(e.src, pos + 1, 0, GridHeight);
    EngineWalkSticksNextToCluster(cells, e, pos + 2, x, y);
    Walk(TurnOf(cells, e), pos + 2, x, y, e.budget)
  }

  /** k particles in sequence, each seeing the cells left by those before it. */
  function Walks(cells: seq<bool>, e: Env, pos: nat, k: nat): (r: FrameResult)
    requires |cells| == CellCount
    ensures |r.cells| == CellCount && |r.outcomes| == k
    ensures forall j :: 0 <= j < k && r.outcomes[j].Stuck? ==>
      OnGrid(r.outcomes[j].x, r.outcomes[j].y)
    decreases k
  {
    if k == 0 then
      FrameResult(cells, pos, [])
    else
      var w := Particle(cells, e, pos);
      var rest := Walks(Settle(cells, w.outcome), e, w.pos, k - 1);
      FrameResult(rest.cells, rest.pos, [w.outcome] + rest.outcomes)
  }

  /** One simulation frame. */
  function Frame(cells: seq<bool>, e: Env, pos: nat): (r: FrameResult)
    requires |cells| == CellCount
    ensures |r.cells| == CellCount
  {
    Walks(cells, e, pos, ParticlesPerFrame)
  }

  /** The budget only cuts a particle's walk short. */
  lemma ParticleFuelMonotone(cells: seq<bool>, e1: Env, e2: Env, pos: nat)
    requires |cells| == CellCount
    requires e1.src == e2.src && e1.stickiness == e2.stickiness && e1.budget <= e2.budget
    requires !Particle(cells, e1, pos).outcome.Exhausted?
    ensures Particle(cells, e2, pos) == Particle(cells, e1, pos)
  {
    var x := Range(e1.src, pos, 0, GridWidth);
    var y := Range(e1.src, pos + 1, 0, GridHeight);
    forall p: nat, a: int, b: int
      ensures TurnOf(cells, e2)(p, a, b) == TurnOf(cells, e1)(p, a, b)
    {
      assert Turn(cells, e2, p, a, b) == Turn(cells, e1, p, a, b);
    }
    WalkCongruent(TurnOf(cells, e2), TurnOf(cells, e1), pos + 2, x, y, e2.budget);
    WalkFuelMonotone(TurnOf(cells, e1), pos + 2, x, y, e1.budget, e2.budget);
  }

  /** The budget only cuts a run of walks short: when no walk of the run
      under budget e1.budget runs out, the run is the same under every larger
      budget. */
  lemma {:induction false} WalksFuelMonotone(cells: seq<bool>, e1: Env, e2: Env, pos: nat, k: nat)
    requires |cells| == CellCount
    requires e1.src == e2.src && e1.stickiness == e2.stickiness && e1.budget <= e2.budget
    requires forall j :: 0 <= j < k ==> !Walks(cells, e1, pos, k).outcomes[j].Exhausted?
    ensures Walks(cells, e2, pos, k) == Walks(cells, e1, pos, k)
    decreases k
  {
    if k > 0 {
      var w := Particle(cells, e1, pos);
      assert !w.outcome.Exhausted? by {
        assert Walks(cells, e1, pos, k).outcomes[0] == w.outcome;
      }
      ParticleFuelMonotone(cells, e1, e2, pos);
      var settled := Settle(cells, w.outcome);
      var rest := Walks(settled, e1, w.pos, k - 1);
      forall j | 0 <= j < k - 1
        ensures !rest.outcomes[j].Exhausted?
      {
        assert Walks(cells, e1, pos, k).outcomes[j + 1] == rest.outcomes[j];
      }
      WalksFuelMonotone(settled, e1, e2, w.pos, k - 1);
    }
  }

  /** A cell is occupied after k walks exactly when it was occupied before or
      one of the walks stuck there: at most k cells change, each from
      unoccupied to occupied. */
  lemma {:induction false} WalksWrites(cells: seq<bool>, e: Env, pos: nat, k: nat, i: int)
    requires |cells| == CellCount && 0 <= i < CellCount
    ensures var r := Walks(cells, e, pos, k);
      r.cells[i] <==> cells[i] || exists j :: 0 <= j < k && SticksAt(r.outcomes[j], i)
    decreases k
  {
    if k > 0 {
      var r := Walks(cells, e, pos, k);
      var w := Particle(cells, e, pos);
      var settled := Settle(cells, w.outcome);
      var rest := Walks(settled, e, w.pos, k - 1);
      WalksWrites(settled, e, w.pos, k - 1, i);
      assert r.cells == rest.cells;
      assert r.outcomes == [w.outcome] + rest.outcomes;
      assert settled[i] <==> cells[i] || SticksAt(w.outcome, i);
      if exists j :: 0 <= j < k - 1 && SticksAt(rest.outcomes[j], i) {
        var j :| 0 <= j < k - 1 && SticksAt(rest.outcomes[j], i);
        assert SticksAt(r.outcomes[j + 1], i);
      }
      if exists j :: 0 <= j < k && SticksAt(r.outcomes[j], i) {
        var j :| 0 <= j < k && SticksAt(r.outcomes[j], i);
        if j == 0 {
          assert SticksAt(w.outcome, i);
        } else {
          assert SticksAt(rest.outcomes[j - 1], i);
        }
      }
    }
  }

  /** The cells the stuck outcomes among os stick into; there are at most
      as many as there are outcomes. */
  function StuckCells(os: seq<Outcome>): (r: set<int>)
    ensures |r| <= |os|
  {
    if |os| == 0 then
      {}
    else
      (if os[0].Stuck? then {Index(os[0].x, os[0].y)} else {}) + StuckCells(os[1..])
  }

  /** StuckCells holds exactly the cells some outcome sticks into. */
  lemma {:induction false} StuckCellsIff(os: seq<Outcome>, i: int)
    ensures i in StuckCells(os) <==> exists j :: 0 <= j < |os| && SticksAt(os[j], i)
    decreases |os|
  {
    if |os| > 0 {
      StuckCellsIff(os[1..], i);
      if exists j :: 0 <= j < |os| - 1 && SticksAt(os[1..][j], i) {
        var j :| 0 <= j < |os| - 1 && SticksAt(os[1..][j], i);
        assert SticksAt(os[j + 1], i);
      }
      if exists j :: 0 <= j < |os| && SticksAt(os[j], i) {
        var j :| 0 <= j < |os| && SticksAt(os[j], i);
        if j > 0 {
          assert SticksAt(os[1..][j - 1], i);
        }
      }
    }
  }

  /** The indices that are unoccupied in `before` and occupied in `after`. */
  function Changed(before: seq<bool>, after: seq<bool>): set<int>
    requires |before| == |after|
  {
    set i | 0 <= i < |before| && !before[i] && after[i]
  }

  /** A frame changes at most ParticlesPerFrame cells: only those its walks
      stuck into. */
  lemma FrameChangesAtMost(cells: seq<bool>, e: Env, pos: nat)
    requires |cells| == CellCount
    ensures var r := Frame(cells, e, pos);
      Changed(cells, r.cells) <= StuckCells(r.outcomes)
      && |Changed(cells, r.cells)| <= ParticlesPerFrame
  {
    var r := Frame(cells, e, pos);
    var changed := Changed(cells, r.cells);
    var stuck := StuckCells(r.outcomes);
    forall i | i in changed ensures i in stuck {
      WalksWrites(cells, e, pos, ParticlesPerFrame, i);
      StuckCellsIff(r.outcomes, i);
    }
    assert stuck == changed + (stuck - changed);
  }

  /** A frame never clears a cell. */
  lemma FrameCovers(cells: seq<bool>, e: Env, pos: nat)
    requires |cells| == CellCount
    ensures Covers(cells, Frame(cells, e, pos).cells)
  {
    forall i | 0 <= i < CellCount && cells[i] ensures Frame(cells, e, pos).cells[i] {
      WalksWrites(cells, e, pos, ParticlesPerFrame, i);
    }
  }

  /** With stickiness of at most 0 a frame leaves the cells as they were. */
  lemma {:induction false} WalksIdleWhenNeverSticky(cells: seq<bool>, e: Env, pos: nat, k: nat)
    requires |cells| == CellCount && e.stickiness <= 0.0
    ensures Walks(cells, e, pos, k).cells == cells
    decreases k
  {
    if k > 0 {
      TurnNeverSticks(cells, e);
      WalkNeverSticks(TurnOf(cells, e), pos + 2, Range(e.src, pos, 0, GridWidth),
                      Range(e.src, pos + 1, 0, GridHeight), e.budget);
      var w := Particle(cells, e, pos);
      WalksIdleWhenNeverSticky(cells, e, w.pos, k - 1);
    }
  }
}
