/** The percolation state machine: reset, the row-major frontier snapshot,
    the spreading sweep driven by an oracle of trial outcomes, demotion of
    the frontier, and the tick that combines them. */
module Percolation {
  import opened Cells
  import opened Board

  /** Outcome of the k-th trial drawn during one tick: whether the random
      draw fell below the spread probability. */
  type Oracle = nat -> bool

  /** Spread probability 1: every trial succeeds. */
  ghost predicate AllSucceed(oracle: Oracle)
  {
    forall k :: oracle(k)
  }

  /** Spread probability 0: every trial fails. */
  ghost predicate AllFail(oracle: Oracle)
  {
    forall k :: !oracle(k)
  }

  /** The grid together with the flag that says whether ticks still spread. */
  datatype Sim = Sim(grid: Grid, percolating: bool)

  /** The seed cell (n/2, n/2) with floor division; it lies on every
      non-empty grid. */
  function Center(n: nat): (c: Pos)
    ensures c.row == c.col && 2 * c.row <= n < 2 * c.row + 2
    ensures n > 0 ==> InBounds(n, c)
  {
    Pos(n / 2, n / 2)
  }

  /** A fresh grid: all cells empty except the centre, which is active. */
  function Reset(n: nat): (s: Sim)
    requires n > 0
    ensures IsGrid(n, s.grid)
    ensures s.percolating
    ensures InBounds(n, Center(n)) && At(s.grid, Center(n)) == Active
    ensures forall p :: InBounds(n, p) && p != Center(n) ==> At(s.grid, p) == Empty
  {
    var blank := seq(n, i => seq(n, j => Empty));
    Sim(Put(n, blank, Center(n), Active), true)
  }

  // ---------------------------------------------------------------------
  // The frontier: active cells in row-major order

  predicate Before(p: Pos, q: Pos)
  {
    p.row < q.row || (p.row == q.row && p.col < q.col)
  }

  /** Strictly increasing in row-major order (so also free of repeats). */
  predicate RowMajor(s: seq<Pos>)
  {
    forall i, j :: 0 <= i < j < |s| ==> Before(s[i], s[j])
  }

  predicate NoDup(s: seq<Pos>)
  {
    forall i, j :: 0 <= i < j < |s| ==> s[i] != s[j]
  }

  lemma RowMajorConcat(a: seq<Pos>, b: seq<Pos>)
    requires RowMajor(a) && RowMajor(b)
    requires forall x, y :: x in a && y in b ==> Before(x, y)
    ensures RowMajor(a + b)
  {
    forall i, j | 0 <= i < j < |a + b|
      ensures Before((a + b)[i], (a + b)[j])
    {
      if j < |a| {
        assert (a + b)[i] == a[i] && (a + b)[j] == a[j];
      } else if i < |a| {
        assert (a + b)[i] == a[i] && (a + b)[j] == b[j - |a|];
        assert a[i] in a && b[j - |a|] in b;
      } else {
        assert (a + b)[i] == b[i - |a|] && (a + b)[j] == b[j - |a|];
      }
    }
  }

  /** Active cells of row `row` from column `col` on, left to right. */
  function ScanRow(n: nat, g: Grid, row: nat, col: nat): (r: seq<Pos>)
    requires IsGrid(n, g) && row < n && col <= n
    ensures RowMajor(r)
    ensures forall q :: q in r <==> InBounds(n, q) && q.row == row && col <= q.col && At(g, q) == Active
    decreases n - col
  {
    if col == n then []
    else
      var here := if g[row][col] == Active then [Pos(row, col)] else [];
      var rest := ScanRow(n, g, row, col + 1);
      RowMajorConcat(here, rest);
      here + rest
  }

  /** Active cells of rows `row` onwards, in row-major order. */
  function ScanRows(n: nat, g: Grid, row: nat): (r: seq<Pos>)
    requires IsGrid(n, g) && row <= n
    ensures RowMajor(r)
    ensures forall q :: q in r <==> InBounds(n, q) && row <= q.row && At(g, q) == Active
    decreases n - row
  {
    if row == n then []
    else
      var first := ScanRow(n, g, row, 0);
      var rest := ScanRows(n, g, row + 1);
      RowMajorConcat(first, rest);
      first + rest
  }

  /** The snapshot of red cells taken at the start of a tick: every active
      cell exactly once, in row-major order. */
  function Frontier(n: nat, g: Grid): (r: seq<Pos>)
    requires IsGrid(n, g)
    ensures RowMajor(r)
    ensures forall q :: q in r <==> InBounds(n, q) && At(g, q) == Active
  {
    ScanRows(n, g, 0)
  }

  // ---------------------------------------------------------------------
  // The spreading sweep

  /** State carried through one tick's spreading pass: the grid updated in
      place, the number of trials drawn so far, and the cells activated so
      far, in activation order. */
  datatype Sweep = Sweep(grid: Grid, draws: nat, activated: seq<Pos>)

  /** `g2` differs from `g1` only in empty cells that became active. */
  ghost predicate OnlyActivates(n: nat, g1: Grid, g2: Grid)
  {
    && IsGrid(n, g1) && IsGrid(n, g2)
    && forall p :: InBounds(n, p) ==>
         At(g2, p) == At(g1, p) || (At(g1, p) == Empty && At(g2, p) == Active)
  }

  lemma OnlyActivatesTrans(n: nat, g1: Grid, g2: Grid, g3: Grid)
    requires OnlyActivates(n, g1, g2) && OnlyActivates(n, g2, g3)
    ensures OnlyActivates(n, g1, g3)
  {
  }

  /** The sweep's record of activations is exact with respect to the grid
      `base` of the start of the tick: it lists, once each, precisely the
      cells that were empty in `base` and are active now. */
  ghost predicate Tracks(n: nat, base: Grid, st: Sweep)
  {
    && OnlyActivates(n, base, st.grid)
    && NoDup(st.activated)
    && (forall p :: p in st.activated ==>
          InBounds(n, p) && At(base, p) == Empty && At(st.grid, p) == Active)
    && (forall p :: InBounds(n, p) && At(base, p) == Empty && At(st.grid, p) == Active ==>
          p in st.activated)
  }

  /** One neighbour `q` met during a turn: skipped without a draw unless it
      is empty; otherwise the next trial decides whether it turns active. */
  function Visit(n: nat, q: Pos, oracle: Oracle, st: Sweep): (r: Sweep)
    requires IsGrid(n, st.grid) && InBounds(n, q)
    ensures IsGrid(n, r.grid)
    ensures r.draws == st.draws + (if At(st.grid, q) == Empty then 1 else 0)
    ensures At(r.grid, q) == (if At(st.grid, q) == Empty && oracle(st.draws) then Active else At(st.grid, q))
    ensures forall p :: InBounds(n, p) && p != q ==> At(r.grid, p) == At(st.grid, p)
    ensures r.activated == st.activated + (if At(r.grid, q) != At(st.grid, q) then [q] else [])
  {
    if At(st.grid, q) != Empty then st
    else if oracle(st.draws) then Sweep(Put(n, st.grid, q, Active), st.draws + 1, st.activated + [q])
    else Sweep(st.grid, st.draws + 1, st.activated)
  }

  /** One frontier cell's turn: each neighbour in `nbrs` that is still empty
      costs one trial and turns active when the trial succeeds. */
  function TryNeighbors(n: nat, ghost base: Grid, nbrs: seq<Pos>, oracle: Oracle, st: Sweep): (r: Sweep)
    requires Tracks(n, base, st)
    requires forall q :: q in nbrs ==> InBounds(n, q)
    ensures Tracks(n, base, r)
    ensures OnlyActivates(n, st.grid, r.grid)
    ensures forall p :: p in r.activated ==> p in st.activated || p in nbrs
    ensures st.draws + (|r.activated| - |st.activated|) <= r.draws <= st.draws + |nbrs|
    ensures AllSucceed(oracle) ==> forall q :: q in nbrs ==> At(r.grid, q) != Empty
    ensures AllFail(oracle) ==> r.grid == st.grid && r.activated == st.activated
    decreases |nbrs|
  {
    if |nbrs| == 0 then st
    else
      var q := nbrs[0];
      assert q in nbrs;
      var next := Visit(n, q, oracle, st);
      var r := TryNeighbors(n, base, nbrs[1..], oracle, next);
      OnlyActivatesTrans(n, st.grid, next.grid, r.grid);
      r
  }

  /** `p` is an orthogonal neighbour of some cell of `cells`. */
  predicate Near(cells: seq<Pos>, p: Pos)
  {
    exists f :: f in cells && Adjacent(f, p)
  }

  /** The frontier cells take their turns in order, each seeing the
      activations of the ones before it. */
  function SpreadFrom(n: nat, ghost base: Grid, frontier: seq<Pos>, oracle: Oracle, st: Sweep): (r: Sweep)
    requires Tracks(n, base, st)
    requires forall f :: f in frontier ==> InBounds(n, f)
    ensures Tracks(n, base, r)
    ensures OnlyActivates(n, st.grid, r.grid)
    ensures forall p :: p in r.activated ==> p in st.activated || Near(frontier, p)
    ensures AllSucceed(oracle) ==>
              forall f, q :: f in frontier && q in Neighbors(n, f) ==> At(r.grid, q) != Empty
    ensures AllFail(oracle) ==> r.grid == st.grid && r.activated == st.activated
    decreases |frontier|
  {
    if |frontier| == 0 then st
    else
      var mid := TryNeighbors(n, base, Neighbors(n, frontier[0]), oracle, st);
      var r := SpreadFrom(n, base, frontier[1..], oracle, mid);
      OnlyActivatesTrans(n, st.grid, mid.grid, r.grid);
      r
  }

  /** `p` is an orthogonal neighbour of an active cell of `g`. */
  ghost predicate Touches(n: nat, g: Grid, p: Pos)
    requires IsGrid(n, g)
  {
    exists f :: InBounds(n, f) && At(g, f) == Active && Adjacent(f, p)
  }

  /** The spreading pass of a tick over the snapshot of `g`'s active cells. */
  function Spread(n: nat, g: Grid, oracle: Oracle): (r: Sweep)
    requires IsGrid(n, g)
    ensures Tracks(n, g, r)
    ensures forall p :: p in r.activated ==> Touches(n, g, p)
    ensures AllSucceed(oracle) ==>
              forall p :: InBounds(n, p) ==>
                (p in r.activated <==> At(g, p) == Empty && Touches(n, g, p))
    ensures AllFail(oracle) ==> r.grid == g && r.activated == []
  {
    var frontier := Frontier(n, g);
    var r := SpreadFrom(n, g, frontier, oracle, Sweep(g, 0, []));
    NearFrontierTouches(n, g, frontier);
    r
  }

  /** Being next to a frontier cell is being next to an active cell. */
  lemma NearFrontierTouches(n: nat, g: Grid, frontier: seq<Pos>)
    requires IsGrid(n, g)
    requires forall q :: q in frontier <==> InBounds(n, q) && At(g, q) == Active
    ensures forall p :: Near(frontier, p) <==> Touches(n, g, p)
    ensures forall p :: InBounds(n, p) && Touches(n, g, p) ==>
              exists f :: f in frontier && p in Neighbors(n, f)
  {
    forall p | InBounds(n, p) && Touches(n, g, p)
      ensures exists f :: f in frontier && p in Neighbors(n, f)
    {
      var f :| InBounds(n, f) && At(g, f) == Active && Adjacent(f, p);
      assert f in frontier && p in Neighbors(n, f);
    }
  }

  // ---------------------------------------------------------------------
  // Which trial decides which cell

  /** How many of `cells` are empty in `g`: the trials a turn over them draws. */
  function EmptyCount(n: nat, g: Grid, cells: seq<Pos>): nat
    requires IsGrid(n, g)
    requires forall q :: q in cells ==> InBounds(n, q)
    decreases |cells|
  {
    if |cells| == 0 then 0
    else
      var c := cells[0];
      assert c in cells && InBounds(n, c);
      Indicator(At(g, c) == Empty) + EmptyCount(n, g, cells[1..])
  }

  /** Cells that read the same in two grids are counted the same. */
  lemma {:induction false} EmptyCountFrame(n: nat, g1: Grid, g2: Grid, cells: seq<Pos>)
    requires IsGrid(n, g1) && IsGrid(n, g2)
    requires forall q :: q in cells ==> InBounds(n, q) && At(g1, q) == At(g2, q)
    ensures EmptyCount(n, g1, cells) == EmptyCount(n, g2, cells)
    decreases |cells|
  {
    if |cells| > 0 {
      assert cells[0] in cells;
      EmptyCountFrame(n, g1, g2, cells[1..]);
    }
  }

  /** `r` is what a turn over `nbrs` starting at grid `g` with `draws`
      trials already drawn makes of each listed neighbour: the i-th one, if
      empty in `g`, is active exactly when the trial numbered `draws` plus
      the count of empty neighbours before it succeeds; a neighbour that is
      not empty keeps its state. */
  ghost predicate DecidedInOrder(n: nat, g: Grid, draws: nat, nbrs: seq<Pos>, oracle: Oracle, r: Grid)
    requires IsGrid(n, g) && IsGrid(n, r)
    requires forall q :: q in nbrs ==> InBounds(n, q)
  {
    forall i :: 0 <= i < |nbrs| ==>
      InBounds(n, nbrs[i]) &&
      At(r, nbrs[i])
      == (if At(g, nbrs[i]) == Empty && oracle(draws + EmptyCount(n, g, nbrs[..i]))
          then Active else At(g, nbrs[i]))
  }

  /** A non-empty turn is its first visit followed by the rest of the turn. */
  lemma TryNeighborsUnfold(n: nat, base: Grid, nbrs: seq<Pos>, oracle: Oracle, st: Sweep)
    requires Tracks(n, base, st)
    requires forall q :: q in nbrs ==> InBounds(n, q)
    requires |nbrs| > 0
    ensures InBounds(n, nbrs[0]) && Tracks(n, base, Visit(n, nbrs[0], oracle, st))
    ensures TryNeighbors(n, base, nbrs, oracle, st)
            == TryNeighbors(n, base, nbrs[1..], oracle, Visit(n, nbrs[0], oracle, st))
  {
    assert nbrs[0] in nbrs;
  }

  /** A turn leaves every cell outside its neighbour list as it was. */
  lemma {:induction false} TryNeighborsFrame(n: nat, base: Grid, nbrs: seq<Pos>, oracle: Oracle, st: Sweep)
    requires Tracks(n, base, st)
    requires forall q :: q in nbrs ==> InBounds(n, q)
    ensures forall p :: InBounds(n, p) && p !in nbrs ==>
              At(TryNeighbors(n, base, nbrs, oracle, st).grid, p) == At(st.grid, p)
    decreases |nbrs|
  {
    if |nbrs| > 0 {
      var next := Visit(n, nbrs[0], oracle, st);
      assert nbrs[0] in nbrs;
      TryNeighborsUnfold(n, base, nbrs, oracle, st);
      TryNeighborsFrame(n, base, nbrs[1..], oracle, next);
    }
  }

  /** A turn over duplicate-free neighbours draws exactly one trial per
      neighbour that is empty when the turn starts. */
  lemma {:induction false} TryNeighborsDraws(n: nat, base: Grid, nbrs: seq<Pos>, oracle: Oracle, st: Sweep)
    requires Tracks(n, base, st)
    requires forall q :: q in nbrs ==> InBounds(n, q)
    requires NoDup(nbrs)
    ensures TryNeighbors(n, base, nbrs, oracle, st).draws == st.draws + EmptyCount(n, st.grid, nbrs)
    decreases |nbrs|
  {
    if |nbrs| > 0 {
      var q, rest := nbrs[0], nbrs[1..];
      assert q in nbrs && q !in rest && NoDup(rest);
      var next := Visit(n, q, oracle, st);
      TryNeighborsUnfold(n, base, nbrs, oracle, st);
      TryNeighborsDraws(n, base, rest, oracle, next);
      EmptyCountFrame(n, st.grid, next.grid, rest);
    }
  }

  /** Which trial decides which neighbour: a turn over duplicate-free
      neighbours settles them in list order, one trial per empty one. */
  lemma {:induction false} TryNeighborsExact(n: nat, base: Grid, nbrs: seq<Pos>, oracle: Oracle, st: Sweep)
    requires Tracks(n, base, st)
    requires forall q :: q in nbrs ==> InBounds(n, q)
    requires NoDup(nbrs)
    ensures DecidedInOrder(n, st.grid, st.draws, nbrs, oracle, TryNeighbors(n, base, nbrs, oracle, st).grid)
    decreases |nbrs|
  {
    if |nbrs| > 0 {
      var q := nbrs[0];
      assert q in nbrs;
      var rest := nbrs[1..];
      var next := Visit(n, q, oracle, st);
      var r := TryNeighbors(n, base, rest, oracle, next);
      TryNeighborsUnfold(n, base, nbrs, oracle, st);
      assert NoDup(rest);
      TryNeighborsExact(n, base, rest, oracle, next);
      TryNeighborsFrame(n, base, rest, oracle, next);
      VisitThenRest(n, nbrs, oracle, st, next, r.grid);
    }
  }

  /** The step of `TryNeighborsExact`: the first neighbour is settled by
      its visit, the later ones by the rest of the turn. */
  lemma VisitThenRest(n: nat, nbrs: seq<Pos>, oracle: Oracle, st: Sweep, next: Sweep, rg: Grid)
    requires IsGrid(n, st.grid) && IsGrid(n, rg)
    requires forall q :: q in nbrs ==> InBounds(n, q)
    requires NoDup(nbrs) && |nbrs| > 0
    requires next == Visit(n, nbrs[0], oracle, st)
    requires IsGrid(n, next.grid) && DecidedInOrder(n, next.grid, next.draws, nbrs[1..], oracle, rg)
    requires forall p :: InBounds(n, p) && p !in nbrs[1..] ==> At(rg, p) == At(next.grid, p)
    ensures DecidedInOrder(n, st.grid, st.draws, nbrs, oracle, rg)
  {
    forall i | 0 <= i < |nbrs|
      ensures InBounds(n, nbrs[i]) &&
              At(rg, nbrs[i])
              == (if At(st.grid, nbrs[i]) == Empty && oracle(st.draws + EmptyCount(n, st.grid, nbrs[..i]))
                  then Active else At(st.grid, nbrs[i]))
    {
      VisitThenRestAt(n, nbrs, oracle, st, next, rg, i);
    }
  }

  /** One index of `VisitThenRest`: a later neighbour starts one draw later
      exactly when the first neighbour was empty. */
  lemma VisitThenRestAt(n: nat, nbrs: seq<Pos>, oracle: Oracle, st: Sweep, next: Sweep, rg: Grid, i: nat)
    requires IsGrid(n, st.grid) && IsGrid(n, rg)
    requires forall q :: q in nbrs ==> InBounds(n, q)
    requires NoDup(nbrs) && i < |nbrs|
    requires next == Visit(n, nbrs[0], oracle, st)
    requires IsGrid(n, next.grid) && DecidedInOrder(n, next.grid, next.draws, nbrs[1..], oracle, rg)
    requires forall p :: InBounds(n, p) && p !in nbrs[1..] ==> At(rg, p) == At(next.grid, p)
    ensures InBounds(n, nbrs[i]) &&
            At(rg, nbrs[i])
            == (if At(st.grid, nbrs[i]) == Empty && oracle(st.draws + EmptyCount(n, st.grid, nbrs[..i]))
                then Active else At(st.grid, nbrs[i]))
  {
    var q, rest := nbrs[0], nbrs[1..];
    assert q in nbrs && nbrs[i] in nbrs;
    if i == 0 {
      assert nbrs[..0] == [];
      assert q !in rest;
    } else {
      assert rest[i - 1] == nbrs[i] && nbrs[i] != q;
      assert nbrs[..i][0] == q && nbrs[..i][1..] == rest[..i - 1];
      EmptyCountFrame(n, st.grid, next.grid, rest[..i - 1]);
    }
  }

  /** The frontier cells take their turns in list order: the pass over
      `frontier + [f]` is the pass over `frontier` followed by `f`'s turn. */
  lemma {:induction false} SpreadFromSnoc(n: nat, base: Grid, frontier: seq<Pos>, f: Pos, oracle: Oracle, st: Sweep)
    requires Tracks(n, base, st)
    requires forall x :: x in frontier ==> InBounds(n, x)
    requires InBounds(n, f)
    ensures SpreadFrom(n, base, frontier + [f], oracle, st)
            == TryNeighbors(n, base, Neighbors(n, f), oracle, SpreadFrom(n, base, frontier, oracle, st))
    decreases |frontier|
  {
    var all := frontier + [f];
    assert all[0] == if |frontier| == 0 then f else frontier[0];
    if |frontier| == 0 {
      assert all[1..] == [];
    } else {
      assert frontier[0] in frontier;
      assert all[1..] == frontier[1..] + [f];
      var mid := TryNeighbors(n, base, Neighbors(n, frontier[0]), oracle, st);
      SpreadFromSnoc(n, base, frontier[1..], f, oracle, mid);
    }
  }

  /** `get_neighbors` lists no cell twice: the direction ranks strictly increase. */
  lemma NeighborsNoDup(n: nat, p: Pos)
    ensures NoDup(Neighbors(n, p))
  {
    var r := Neighbors(n, p);
    forall i, j | 0 <= i < j < |r|
      ensures r[i] != r[j]
    {
      assert DirectionRank(p, r[i]) < DirectionRank(p, r[j]);
    }
  }

  /** The sweep over the frontier list `fr` of a tick starting from grid
      `g`, when the `k`-th cell of `fr` (counting from 0) begins its turn,
      built turn by turn: before any turn it is the start-of-tick grid with
      no trial drawn, and each turn is the next cell of `fr` trying its
      neighbours on the grid the earlier turns left. */
  function TurnStart(n: nat, g: Grid, fr: seq<Pos>, oracle: Oracle, k: nat): (r: Sweep)
    requires IsGrid(n, g) && (forall f :: f in fr ==> InBounds(n, f)) && k <= |fr|
    ensures Tracks(n, g, r)
    decreases k
  {
    if k == 0 then Sweep(g, 0, [])
    else
      assert fr[k - 1] in fr;
      TryNeighbors(n, g, Neighbors(n, fr[k - 1]), oracle, TurnStart(n, g, fr, oracle, k - 1))
  }

  /** Turn `k`, as one step. */
  lemma TurnStep(n: nat, g: Grid, fr: seq<Pos>, oracle: Oracle, k: nat)
    requires IsGrid(n, g) && (forall f :: f in fr ==> InBounds(n, f)) && k < |fr|
    ensures InBounds(n, fr[k])
    ensures TurnStart(n, g, fr, oracle, k + 1)
            == TryNeighbors(n, g, Neighbors(n, fr[k]), oracle, TurnStart(n, g, fr, oracle, k))
  {
    assert fr[k] in fr;
  }

  /** A turn only turns empty cells active. */
  lemma TurnOnlyActivates(n: nat, g: Grid, fr: seq<Pos>, oracle: Oracle, k: nat)
    requires IsGrid(n, g) && (forall f :: f in fr ==> InBounds(n, f)) && k < |fr|
    ensures OnlyActivates(n, TurnStart(n, g, fr, oracle, k).grid, TurnStart(n, g, fr, oracle, k + 1).grid)
  {
    TurnStep(n, g, fr, oracle, k);
  }

  lemma TakeOneMore(s: seq<Pos>, i: nat)
    requires i < |s|
    ensures s[..i + 1] == s[..i] + [s[i]]
  {
  }

  /** The pass over the first `k` cells of `fr` is the first `k` turns. */
  lemma SpreadFromPrefix(n: nat, g: Grid, fr: seq<Pos>, oracle: Oracle, k: nat)
    requires IsGrid(n, g) && (forall f :: f in fr ==> InBounds(n, f)) && k <= |fr|
    ensures SpreadFrom(n, g, fr[..k], oracle, Sweep(g, 0, [])) == TurnStart(n, g, fr, oracle, k)
  {
    var i := 0;
    assert fr[..0] == [];
    while i < k
      invariant i <= k
      invariant SpreadFrom(n, g, fr[..i], oracle, Sweep(g, 0, [])) == TurnStart(n, g, fr, oracle, i)
    {
      TurnStep(n, g, fr, oracle, i);
      TakeOneMore(fr, i);
      SpreadFromSnoc(n, g, fr[..i], fr[i], oracle, Sweep(g, 0, []));
      i := i + 1;
    }
    assert i == k;
  }

  /** The spreading pass of a tick is the turns of its frontier cells taken
      one after the other in row-major order. */
  lemma SpreadTurns(n: nat, g: Grid, oracle: Oracle)
    requires IsGrid(n, g)
    ensures Spread(n, g, oracle) == TurnStart(n, g, Frontier(n, g), oracle, |Frontier(n, g)|)
  {
    var fr := Frontier(n, g);
    SpreadFromPrefix(n, g, fr, oracle, |fr|);
    assert fr[..|fr|] == fr;
  }

  /** An active cell stays active for the rest of the pass. */
  lemma StaysActive(n: nat, g: Grid, fr: seq<Pos>, oracle: Oracle, a: nat, b: nat, q: Pos)
    requires IsGrid(n, g) && (forall f :: f in fr ==> InBounds(n, f)) && a <= b <= |fr|
    requires InBounds(n, q) && At(TurnStart(n, g, fr, oracle, a).grid, q) == Active
    ensures At(TurnStart(n, g, fr, oracle, b).grid, q) == Active
  {
    var k := a;
    while k < b
      invariant a <= k <= b
      invariant At(TurnStart(n, g, fr, oracle, k).grid, q) == Active
    {
      TurnOnlyActivates(n, g, fr, oracle, k);
      k := k + 1;
    }
    assert k == b;
  }

  /** Turn `k` draws one trial per neighbour of the `k`-th frontier cell
      that is empty when the turn starts. */
  lemma TurnDraws(n: nat, g: Grid, fr: seq<Pos>, oracle: Oracle, k: nat)
    requires IsGrid(n, g) && (forall f :: f in fr ==> InBounds(n, f)) && k < |fr|
    ensures TurnStart(n, g, fr, oracle, k + 1).draws
            == TurnStart(n, g, fr, oracle, k).draws
               + EmptyCount(n, TurnStart(n, g, fr, oracle, k).grid, Neighbors(n, fr[k]))
  {
    TurnStep(n, g, fr, oracle, k);
    NeighborsNoDup(n, fr[k]);
    TryNeighborsDraws(n, g, Neighbors(n, fr[k]), oracle, TurnStart(n, g, fr, oracle, k));
  }

  /** Which trial of the tick decides which cell: in turn `k` the
      neighbours of the `k`-th frontier cell are settled in the order right,
      left, down, up, numbering their trials on from the draws of the turns
      before. Cells outside those neighbours are untouched by the turn. */
  lemma TurnDecides(n: nat, g: Grid, fr: seq<Pos>, oracle: Oracle, k: nat)
    requires IsGrid(n, g) && (forall f :: f in fr ==> InBounds(n, f)) && k < |fr|
    ensures DecidedInOrder(n, TurnStart(n, g, fr, oracle, k).grid, TurnStart(n, g, fr, oracle, k).draws,
                           Neighbors(n, fr[k]), oracle, TurnStart(n, g, fr, oracle, k + 1).grid)
    ensures forall p :: InBounds(n, p) && p !in Neighbors(n, fr[k]) ==>
              At(TurnStart(n, g, fr, oracle, k + 1).grid, p) == At(TurnStart(n, g, fr, oracle, k).grid, p)
  {
    TurnStep(n, g, fr, oracle, k);
    NeighborsNoDup(n, fr[k]);
    TryNeighborsExact(n, g, Neighbors(n, fr[k]), oracle, TurnStart(n, g, fr, oracle, k));
    TryNeighborsFrame(n, g, Neighbors(n, fr[k]), oracle, TurnStart(n, g, fr, oracle, k));
  }

  /** `cells` with every occurrence of `q` removed. */
  function Without(cells: seq<Pos>, q: Pos): (r: seq<Pos>)
    ensures forall p :: p in r <==> p in cells && p != q
    decreases |cells|
  {
    if |cells| == 0 then []
    else (if cells[0] == q then [] else [cells[0]]) + Without(cells[1..], q)
  }

  /** A cell that is not empty adds nothing to the count of empty cells. */
  lemma {:induction false} EmptyCountWithout(n: nat, g: Grid, cells: seq<Pos>, q: Pos)
    requires IsGrid(n, g) && InBounds(n, q) && At(g, q) != Empty
    requires forall p :: p in cells ==> InBounds(n, p)
    ensures EmptyCount(n, g, cells) == EmptyCount(n, g, Without(cells, q))
    decreases |cells|
  {
    if |cells| > 0 {
      assert cells[0] in cells;
      var w := Without(cells[1..], q);
      EmptyCountWithout(n, g, cells[1..], q);
      if cells[0] == q {
        assert Without(cells, q) == w;
      } else {
        assert Without(cells, q) == [cells[0]] + w;
        assert ([cells[0]] + w)[0] == cells[0] && ([cells[0]] + w)[1..] == w;
      }
    }
  }

  /** A turn draws nothing for a neighbour it finds already claimed: its
      trials are those of its other neighbours that are empty. */
  lemma TurnSkipsClaimed(n: nat, g: Grid, fr: seq<Pos>, oracle: Oracle, k: nat, q: Pos)
    requires IsGrid(n, g) && (forall f :: f in fr ==> InBounds(n, f)) && k < |fr|
    requires q in Neighbors(n, fr[k])
    requires At(TurnStart(n, g, fr, oracle, k).grid, q) != Empty
    ensures TurnStart(n, g, fr, oracle, k + 1).draws
            == TurnStart(n, g, fr, oracle, k).draws
               + EmptyCount(n, TurnStart(n, g, fr, oracle, k).grid, Without(Neighbors(n, fr[k]), q))
  {
    TurnDraws(n, g, fr, oracle, k);
    EmptyCountWithout(n, TurnStart(n, g, fr, oracle, k).grid, Neighbors(n, fr[k]), q);
  }

  /** The row-major race for a shared neighbour: once the turns before
      turn `a` have turned `q` red, a later turn `j` whose frontier cell
      also has `q` as a neighbour finds it red, draws no trial for it, and
      leaves it red. */
  lemma SpreadRace(n: nat, g: Grid, fr: seq<Pos>, oracle: Oracle, a: nat, j: nat, q: Pos)
    requires IsGrid(n, g) && (forall f :: f in fr ==> InBounds(n, f)) && 0 < a <= j < |fr|
    requires q in Neighbors(n, fr[j])
    requires At(TurnStart(n, g, fr, oracle, a).grid, q) == Active
    ensures At(TurnStart(n, g, fr, oracle, j).grid, q) == Active
    ensures TurnStart(n, g, fr, oracle, j + 1).draws
            == TurnStart(n, g, fr, oracle, j).draws
               + EmptyCount(n, TurnStart(n, g, fr, oracle, j).grid, Without(Neighbors(n, fr[j]), q))
    ensures At(TurnStart(n, g, fr, oracle, j + 1).grid, q) == Active
  {
    StaysActive(n, g, fr, oracle, a, j, q);
    TurnSkipsClaimed(n, g, fr, oracle, j, q);
    TurnOnlyActivates(n, g, fr, oracle, j);
  }

  /** Every listed cell becomes filled; the others keep their state. */
  function Demote(n: nat, g: Grid, cells: seq<Pos>): (r: Grid)
    requires IsGrid(n, g)
    requires forall p :: p in cells ==> InBounds(n, p)
    ensures IsGrid(n, r)
    ensures forall p :: InBounds(n, p) ==> At(r, p) == (if p in cells then Filled else At(g, p))
    decreases |cells|
  {
    if |cells| == 0 then g
    else Demote(n, Put(n, g, cells[0], Filled), cells[1..])
  }

  // ---------------------------------------------------------------------
  // One tick

  /** One tick: snapshot the frontier, spread from it, demote it, and stop
      percolating when nothing new was activated. A tick while not
      percolating changes nothing. */
  function Step(n: nat, s: Sim, oracle: Oracle): (r: Sim)
    requires IsGrid(n, s.grid)
    ensures IsGrid(n, r.grid)
    ensures !s.percolating ==> r == s
    ensures r.percolating ==> s.percolating
  {
    if !s.percolating then s
    else
      var frontier := Frontier(n, s.grid);
      if |frontier| == 0 then Sim(s.grid, false)
      else
        var sweep := Spread(n, s.grid, oracle);
        Sim(Demote(n, sweep.grid, frontier), |sweep.activated| > 0)
  }

  /** With probability 0 the tick after a reset turns the seed blue, leaves
      every other cell empty and ends the spread. */
  lemma ResetThenAllFail(n: nat, s: Sim, oracle: Oracle)
    requires n > 0 && s == Reset(n) && AllFail(oracle)
    ensures !Step(n, s, oracle).percolating
    ensures At(Step(n, s, oracle).grid, Center(n)) == Filled
    ensures forall p :: InBounds(n, p) && p != Center(n) ==> At(Step(n, s, oracle).grid, p) == Empty
  {
    var g := Step(n, s, oracle).grid;
    StepAllFail(n, s, oracle);
    StepConsumesFrontier(n, s, oracle);
    StepOnlyEmptyActivates(n, s, oracle);
    forall p | InBounds(n, p) && p != Center(n)
      ensures At(g, p) == Empty
    {
      assert At(s.grid, p) == Empty;
      assert At(g, p) != Active && At(g, p) != Filled;
    }
  }

  /** Every cell red at the start of a percolating tick is blue after it. */
  lemma StepConsumesFrontier(n: nat, s: Sim, oracle: Oracle)
    requires IsGrid(n, s.grid) && s.percolating
    ensures forall p :: InBounds(n, p) && At(s.grid, p) == Active ==>
              At(Step(n, s, oracle).grid, p) == Filled
  {
  }

  /** Only empty cells turn red; blue cells stay blue; no cell goes back to
      empty; only cells that were blue or red end up blue. */
  lemma StepOnlyEmptyActivates(n: nat, s: Sim, oracle: Oracle)
    requires IsGrid(n, s.grid)
    ensures var g := Step(n, s, oracle).grid;
            forall p :: InBounds(n, p) ==>
              && (At(s.grid, p) == Filled ==> At(g, p) == Filled)
              && (At(s.grid, p) != Empty ==> At(g, p) != Empty)
              && (At(g, p) == Filled ==> At(s.grid, p) != Empty)
              && (s.percolating && At(g, p) == Active ==> At(s.grid, p) == Empty)
  {
  }

  /** Spreading is single-generation: every cell red after a percolating
      tick was empty before it and next to a cell of the start-of-tick
      frontier. Each cell is activated at most once per tick. */
  lemma StepSingleGeneration(n: nat, s: Sim, oracle: Oracle)
    requires IsGrid(n, s.grid) && s.percolating
    ensures forall p :: InBounds(n, p) && At(Step(n, s, oracle).grid, p) == Active ==>
              At(s.grid, p) == Empty && Touches(n, s.grid, p)
    ensures NoDup(Spread(n, s.grid, oracle).activated)
  {
  }

  /** With probability 0 a tick ends the spread: the flag drops and, when
      the tick ran, no red cell is left. */
  lemma StepAllFail(n: nat, s: Sim, oracle: Oracle)
    requires IsGrid(n, s.grid) && AllFail(oracle)
    ensures !Step(n, s, oracle).percolating
    ensures s.percolating ==>
              forall p :: InBounds(n, p) ==> At(Step(n, s, oracle).grid, p) != Active
  {
  }

  /** With probability 1 the new red cells are exactly the empty cells next
      to the start-of-tick frontier. */
  lemma StepAllSucceed(n: nat, s: Sim, oracle: Oracle)
    requires IsGrid(n, s.grid) && s.percolating && AllSucceed(oracle)
    ensures forall p :: InBounds(n, p) ==>
              (At(Step(n, s, oracle).grid, p) == Active <==> At(s.grid, p) == Empty && Touches(n, s.grid, p))
  {
  }

  // ---------------------------------------------------------------------
  // The invariant and whole sessions

  /** The flag says whether some cell is red. */
  ghost predicate Valid(n: nat, s: Sim)
  {
    IsGrid(n, s.grid) && (s.percolating <==> exists p :: InBounds(n, p) && At(s.grid, p) == Active)
  }

  lemma ResetValid(n: nat)
    requires n > 0
    ensures Valid(n, Reset(n))
  {
  }

  /** A tick keeps the flag equal to "some cell is red". */
  lemma StepValid(n: nat, s: Sim, oracle: Oracle)
    requires Valid(n, s)
    ensures Valid(n, Step(n, s, oracle))
  {
    if s.percolating {
      var frontier := Frontier(n, s.grid);
      if |frontier| > 0 {
        var sweep := Spread(n, s.grid, oracle);
        var g := Demote(n, sweep.grid, frontier);
        if |sweep.activated| > 0 {
          var p := sweep.activated[0];
          assert p in sweep.activated && p !in frontier;
          assert InBounds(n, p) && At(g, p) == Active;
        } else {
          assert forall p :: InBounds(n, p) ==> At(g, p) != Active;
        }
      }
    }
  }

  /** What the driver loop does to the simulation: a space-bar reset, or a
      tick whose trials are answered by `oracle`. */
  datatype Event = ResetKey | Tick(oracle: Oracle)

  /** One event of the driver loop. A space-bar press resets whatever the
      state; a tick only acts while the simulation is percolating. */
  function Apply(n: nat, s: Sim, e: Event): (r: Sim)
    requires n > 0 && IsGrid(n, s.grid)
    ensures IsGrid(n, r.grid)
    ensures e.ResetKey? ==>
              && r.percolating && At(r.grid, Center(n)) == Active
              && forall p :: InBounds(n, p) && p != Center(n) ==> At(r.grid, p) == Empty
    ensures e.Tick? && !s.percolating ==> r == s
    ensures e.Tick? && r.percolating ==> s.percolating
  {
    match e
    case ResetKey => Reset(n)
    case Tick(oracle) => Step(n, s, oracle)
  }

  /** The driver loop over a sequence of events, oldest first. With no
      event nothing changes; a session whose last event is a space-bar press
      ends in the fresh state, whatever came before. */
  function Run(n: nat, s: Sim, events: seq<Event>): (r: Sim)
    requires n > 0 && IsGrid(n, s.grid)
    ensures IsGrid(n, r.grid)
    ensures |events| == 0 ==> r == s
    ensures |events| > 0 && events[|events| - 1].ResetKey? ==> r == Reset(n)
    decreases |events|
  {
    if |events| == 0 then s else Run(n, Apply(n, s, events[0]), events[1..])
  }

  /** Events are handled one after another: running `a` and then `b` is
      running `a + b`. */
  lemma {:induction false} RunConcat(n: nat, s: Sim, a: seq<Event>, b: seq<Event>)
    requires n > 0 && IsGrid(n, s.grid)
    ensures Run(n, s, a + b) == Run(n, Run(n, s, a), b)
    decreases |a|
  {
    if |a| == 0 {
      assert a + b == b;
    } else {
      assert (a + b)[0] == a[0] && (a + b)[1..] == a[1..] + b;
      RunConcat(n, Apply(n, s, a[0]), a[1..], b);
    }
  }

  lemma {:induction false} RunValid(n: nat, s: Sim, events: seq<Event>)
    requires n > 0 && Valid(n, s)
    ensures Valid(n, Run(n, s, events))
    decreases |events|
  {
    if |events| > 0 {
      match events[0] {
        case ResetKey => ResetValid(n);
        case Tick(oracle) => StepValid(n, s, oracle);
      }
      RunValid(n, Apply(n, s, events[0]), events[1..]);
    }
  }

  /** From start-up (which ends with a reset) through any sequence of resets
      and ticks, the flag holds exactly when some cell is red. The stored
      values being 0, 1 or 2 is stated alongside; it holds for the integer
      view of any grid of cells (see `Code`), not because of the session. */
  lemma SessionValid(n: nat, events: seq<Event>)
    requires n > 0
    ensures var s := Run(n, Reset(n), events);
            && Valid(n, s)
            && forall i, j :: 0 <= i < n && 0 <= j < n ==> 0 <= EncodeGrid(s.grid)[i][j] <= 2
  {
    ResetValid(n);
    RunValid(n, Reset(n), events);
  }
}
