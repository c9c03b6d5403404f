/** Spread probability 1 from a reset: the red cells of tick k are exactly
    the ring at Manhattan distance k from the centre, so the spread covers
    the whole grid and stops one tick after reaching the farthest corner. */
module Saturation {
  import opened Cells
  import opened Board
  import opened Percolation

  function Dist(a: Pos, b: Pos): nat
  {
    Abs(a.row - b.row) + Abs(a.col - b.col)
  }

  /** The oracle of spread probability 1. */
  function Always(): (o: Oracle)
    ensures AllSucceed(o)
  {
    (k: nat) => true
  }

  /** The simulation `k` ticks after a reset, every trial succeeding. */
  function Flood(n: nat, k: nat): (s: Sim)
    requires n > 0
    ensures IsGrid(n, s.grid)
  {
    if k == 0 then Reset(n) else Step(n, Flood(n, k - 1), Always())
  }

  /** Cells nearer than `k` to the centre are filled, those at distance
      `k` are red, the rest are empty. */
  ghost predicate Layered(n: nat, g: Grid, k: nat)
    requires IsGrid(n, g)
  {
    forall p :: InBounds(n, p) ==> At(g, p) == Ring(Dist(Center(n), p), k)
  }

  /** The largest distance from the centre of any cell. */
  function Reach(n: nat): nat
  {
    2 * (n / 2)
  }

  lemma ReachIsMax(n: nat, p: Pos)
    requires n > 0 && InBounds(n, p)
    ensures Dist(Center(n), p) <= Reach(n)
    ensures Dist(Center(n), Pos(0, 0)) == Reach(n)
  {
  }

  /** An off-centre cell has a neighbour one step closer to the centre. */
  lemma StepTowardCenter(n: nat, p: Pos)
    requires n > 0 && InBounds(n, p) && Dist(Center(n), p) > 0
    ensures exists f :: InBounds(n, f) && Adjacent(f, p) && Dist(Center(n), f) + 1 == Dist(Center(n), p)
  {
    var c := Center(n);
    var f := if p.row < c.row then Pos(p.row + 1, p.col)
             else if p.row > c.row then Pos(p.row - 1, p.col)
             else if p.col < c.col then Pos(p.row, p.col + 1)
             else Pos(p.row, p.col - 1);
    assert InBounds(n, f) && Adjacent(f, p) && Dist(c, f) + 1 == Dist(c, p);
  }

  /** Every distance up to that of an on-grid cell is taken by some cell. */
  lemma {:induction false} RingAt(n: nat, p: Pos, j: nat)
    requires n > 0 && InBounds(n, p) && j <= Dist(Center(n), p)
    ensures exists q :: InBounds(n, q) && Dist(Center(n), q) == j
    decreases Dist(Center(n), p)
  {
    if j < Dist(Center(n), p) {
      StepTowardCenter(n, p);
      var f :| InBounds(n, f) && Adjacent(f, p) && Dist(Center(n), f) + 1 == Dist(Center(n), p);
      RingAt(n, f, j);
    }
  }

  /** The layer a cell at distance `d` belongs to after `k` ticks. */
  function Ring(d: nat, k: nat): Cell
  {
    if d < k then Filled else if d == k then Active else Empty
  }

  /** A percolating tick with every trial succeeding moves the red ring one
      step outwards. */
  lemma SpreadingTickLayers(n: nat, s: Sim, j: nat)
    requires n > 0 && Valid(n, s) && s.percolating && Layered(n, s.grid, j)
    ensures Layered(n, Step(n, s, Always()).grid, j + 1)
  {
    var g := Step(n, s, Always()).grid;
    StepAllSucceed(n, s, Always());
    StepConsumesFrontier(n, s, Always());
    StepOnlyEmptyActivates(n, s, Always());
    forall p | InBounds(n, p)
      ensures At(g, p) == Ring(Dist(Center(n), p), j + 1)
    {
      RingMovesOut(n, s.grid, g, j, p);
    }
  }

  /** One cell of the ring argument, stated for any tick result `g1` that
      has the properties of a percolating tick with every trial succeeding. */
  lemma RingMovesOut(n: nat, g0: Grid, g1: Grid, j: nat, p: Pos)
    requires n > 0 && IsGrid(n, g0) && IsGrid(n, g1) && Layered(n, g0, j) && InBounds(n, p)
    requires forall q :: InBounds(n, q) ==>
               (At(g1, q) == Active <==> At(g0, q) == Empty && Touches(n, g0, q))
    requires forall q :: InBounds(n, q) && At(g0, q) == Active ==> At(g1, q) == Filled
    requires forall q :: InBounds(n, q) ==>
               && (At(g0, q) == Filled ==> At(g1, q) == Filled)
               && (At(g1, q) == Filled ==> At(g0, q) != Empty)
    ensures At(g1, p) == Ring(Dist(Center(n), p), j + 1)
  {
    var c := Center(n);
    if Dist(c, p) < j {
      assert At(g0, p) == Filled;
    } else if Dist(c, p) == j {
      assert At(g0, p) == Active;
    } else if Dist(c, p) == j + 1 {
      StepTowardCenter(n, p);
      var f :| InBounds(n, f) && Adjacent(f, p) && Dist(c, f) + 1 == Dist(c, p);
      assert At(g0, f) == Active;
      assert Touches(n, g0, p);
    } else {
      assert At(g0, p) == Empty;
      assert !Touches(n, g0, p);
    }
  }

  /** A tick with no red cell left changes nothing, and the layers for the
      next tick already hold: no cell lies at the current distance or beyond. */
  lemma DormantTickLayers(n: nat, s: Sim, j: nat)
    requires n > 0 && Valid(n, s) && !s.percolating && Layered(n, s.grid, j)
    ensures Layered(n, Step(n, s, Always()).grid, j + 1)
  {
    var c := Center(n);
    forall p | InBounds(n, p)
      ensures Dist(c, p) < j
    {
      if Dist(c, p) >= j {
        RingAt(n, p, j);
        assert false;
      }
    }
  }

  /** One tick with every trial succeeding keeps the flag honest and moves
      the layers on by one. */
  lemma TickLayers(n: nat, s: Sim, j: nat)
    requires n > 0 && Valid(n, s) && Layered(n, s.grid, j)
    ensures Valid(n, Step(n, s, Always())) && Layered(n, Step(n, s, Always()).grid, j + 1)
  {
    StepValid(n, s, Always());
    if s.percolating {
      SpreadingTickLayers(n, s, j);
    } else {
      DormantTickLayers(n, s, j);
    }
  }

  /** Right after a reset only the centre, at distance 0, is red. */
  lemma ResetLayered(n: nat)
    requires n > 0
    ensures Layered(n, Reset(n).grid, 0)
  {
    forall p | InBounds(n, p)
      ensures At(Reset(n).grid, p) == Ring(Dist(Center(n), p), 0)
    {
      if Dist(Center(n), p) == 0 {
        assert p == Pos(p.row, p.col) == Center(n);
      }
    }
  }

  /** After `k` ticks the flag says whether some cell is red, and the cells
      lie in the layers of distance `k`. */
  ghost predicate FloodShape(n: nat, k: nat)
    requires n > 0
  {
    Valid(n, Flood(n, k)) && Layered(n, Flood(n, k).grid, k)
  }

  lemma {:induction false} FloodLayers(n: nat, k: nat)
    requires n > 0
    ensures FloodShape(n, k)
  {
    if k == 0 {
      FloodStart(n);
    } else {
      FloodLayers(n, k - 1);
      FloodTick(n, k);
    }
  }

  lemma FloodStart(n: nat)
    requires n > 0
    ensures FloodShape(n, 0)
  {
    ResetValid(n);
    ResetLayered(n);
  }

  lemma FloodTick(n: nat, k: nat)
    requires n > 0 && k > 0 && FloodShape(n, k - 1)
    ensures FloodShape(n, k)
  {
    TickLayers(n, Flood(n, k - 1), k - 1);
  }

  /** With every trial succeeding, the simulation is percolating after `k`
      ticks exactly when `k` is at most the distance from the centre to the
      farthest corner, and from then on every cell is filled. */
  lemma FloodDuration(n: nat, k: nat)
    requires n > 0
    ensures Flood(n, k).percolating <==> k <= Reach(n)
    ensures k > Reach(n) ==> forall p :: InBounds(n, p) ==> At(Flood(n, k).grid, p) == Filled
  {
    FloodLayers(n, k);
    var c := Center(n);
    if k <= Reach(n) {
      ReachIsMax(n, Pos(0, 0));
      RingAt(n, Pos(0, 0), k);
      var q :| InBounds(n, q) && Dist(c, q) == k;
      assert At(Flood(n, k).grid, q) == Active;
    } else {
      forall p | InBounds(n, p)
        ensures Dist(c, p) < k
      {
        ReachIsMax(n, p);
      }
    }
  }

  /** On a 5 by 5 grid the first tick reddens the four cells around the
      centre (2, 2). */
  lemma FiveByFiveFirstTick(n: nat)
    requires n == 5
    ensures forall p :: InBounds(n, p) ==>
              (At(Flood(n, 1).grid, p) == Active <==>
                 p == Pos(2, 3) || p == Pos(2, 1) || p == Pos(3, 2) || p == Pos(1, 2))
  {
    FloodLayers(n, 1);
    var g := Flood(n, 1).grid;
    assert Layered(n, g, 1);
    AdjacentSteps(Pos(2, 2));
    forall p | InBounds(n, p)
      ensures At(g, p) == Active <==> Adjacent(Pos(2, 2), p)
    {
      assert At(g, p) == Ring(Dist(Pos(2, 2), p), 1);
    }
  }

  /** On a 5 by 5 grid the spread is still running after tick 4, which
      reaches the corners, and has stopped from tick 5 on. */
  lemma FiveByFiveDuration(n: nat, k: nat)
    requires n == 5
    ensures Flood(n, k).percolating <==> k <= 4
  {
    assert Reach(n) == 4;
    FloodDuration(n, k);
  }
}
