/** The square grid of cells: coordinates, reads and writes of single cells,
    orthogonal neighbours, and the integer view the program keeps. */
module Board {
  import opened Cells

  /** A (row, column) coordinate; it may lie outside the grid. */
  datatype Pos = Pos(row: int, col: int)

  /** Rows of cells, addressed grid[row][col]. */
  type Grid = seq<seq<Cell>>

  /** `g` has `n` rows of `n` cells each. */
  predicate IsGrid(n: nat, g: Grid)
  {
    |g| == n && forall i :: 0 <= i < n ==> |g[i]| == n
  }

  predicate InBounds(n: int, p: Pos)
  {
    0 <= p.row < n && 0 <= p.col < n
  }

  function At(g: Grid, p: Pos): Cell
    requires 0 <= p.row < |g| && 0 <= p.col < |g[p.row]|
  {
    g[p.row][p.col]
  }

  /** Overwrites one cell and leaves every other cell as it was. */
  function Put(n: nat, g: Grid, p: Pos, v: Cell): (r: Grid)
    requires IsGrid(n, g) && InBounds(n, p)
    ensures IsGrid(n, r)
    ensures At(r, p) == v
    ensures forall q :: InBounds(n, q) && q != p ==> At(r, q) == At(g, q)
  {
    g[p.row := g[p.row][p.col := v]]
  }

  function Abs(x: int): nat
  {
    if x < 0 then -x else x
  }

  /** `p` and `q` are orthogonal neighbours: Manhattan distance one. */
  predicate Adjacent(p: Pos, q: Pos)
  {
    Abs(p.row - q.row) + Abs(p.col - q.col) == 1
  }

  /** `[q]` when `q` lies on the grid, nothing otherwise. */
  function Keep(n: nat, q: Pos): seq<Pos>
  {
    if InBounds(n, q) then [q] else []
  }

  /** Position of the step from `p` to `q` in the program's direction list
      right, left, down, up; 4 when `q` is not one step away. */
  function DirectionRank(p: Pos, q: Pos): nat
  {
    if q == Pos(p.row, p.col + 1) then 0
    else if q == Pos(p.row, p.col - 1) then 1
    else if q == Pos(p.row + 1, p.col) then 2
    else if q == Pos(p.row - 1, p.col) then 3
    else 4
  }

  /** The on-grid orthogonal neighbours of `p`, tried in the order
      right, left, down, up. */
  function Neighbors(n: nat, p: Pos): (r: seq<Pos>)
    ensures |r| <= 4
    ensures forall q :: q in r <==> InBounds(n, q) && Adjacent(p, q)
    ensures RankSorted(p, r)
  {
    AdjacentSteps(p);
    var right, left := Keep(n, Pos(p.row, p.col + 1)), Keep(n, Pos(p.row, p.col - 1));
    var down, up := Keep(n, Pos(p.row + 1, p.col)), Keep(n, Pos(p.row - 1, p.col));
    SortedConcat(p, right, left, 1);
    SortedConcat(p, right + left, down, 2);
    SortedConcat(p, right + left + down, up, 3);
    right + left + down + up
  }

  /** The steps of `s` away from `p` appear in strictly increasing direction rank. */
  predicate RankSorted(p: Pos, s: seq<Pos>)
  {
    forall i, j :: 0 <= i < j < |s| ==> DirectionRank(p, s[i]) < DirectionRank(p, s[j])
  }

  lemma SortedConcat(p: Pos, a: seq<Pos>, b: seq<Pos>, k: nat)
    requires RankSorted(p, a) && |b| <= 1
    requires forall q :: q in a ==> DirectionRank(p, q) < k
    requires forall q :: q in b ==> DirectionRank(p, q) == k
    ensures RankSorted(p, a + b)
    ensures forall q :: q in a + b ==> DirectionRank(p, q) <= k
  {
    forall i, j | 0 <= i < j < |a + b|
      ensures DirectionRank(p, (a + b)[i]) < DirectionRank(p, (a + b)[j])
    {
      if j < |a| {
        assert (a + b)[i] == a[i] && (a + b)[j] == a[j];
      } else {
        assert i < |a|;
        assert (a + b)[i] == a[i] && (a + b)[j] == b[j - |a|];
        assert a[i] in a && b[j - |a|] in b;
      }
    }
  }

  /** The four orthogonal steps are exactly the cells at distance one. */
  lemma AdjacentSteps(p: Pos)
    ensures forall q :: Adjacent(p, q) <==>
              q == Pos(p.row, p.col + 1) || q == Pos(p.row, p.col - 1)
              || q == Pos(p.row + 1, p.col) || q == Pos(p.row - 1, p.col)
  {
    forall q | Adjacent(p, q)
      ensures q == Pos(p.row, p.col + 1) || q == Pos(p.row, p.col - 1)
              || q == Pos(p.row + 1, p.col) || q == Pos(p.row - 1, p.col)
    {
      assert q == Pos(q.row, q.col);
    }
  }

  function Indicator(b: bool): nat
  {
    if b then 1 else 0
  }

  /** One neighbour for each side of `p` that is not on the border. */
  lemma NeighborCount(n: nat, p: Pos)
    requires InBounds(n, p)
    ensures |Neighbors(n, p)|
            == Indicator(p.col + 1 < n) + Indicator(0 < p.col)
               + Indicator(p.row + 1 < n) + Indicator(0 < p.row)
  {
  }

  predicate OnBorderRow(n: nat, p: Pos)
  {
    p.row == 0 || p.row == n - 1
  }

  predicate OnBorderCol(n: nat, p: Pos)
  {
    p.col == 0 || p.col == n - 1
  }

  /** Corners have two neighbours, other border cells three, interior cells
      four; on a one-cell grid the only cell has none. */
  lemma NeighborCountByPlace(n: nat, p: Pos)
    requires InBounds(n, p)
    ensures n == 1 ==> |Neighbors(n, p)| == 0
    ensures n >= 2 && OnBorderRow(n, p) && OnBorderCol(n, p) ==> |Neighbors(n, p)| == 2
    ensures n >= 2 && OnBorderRow(n, p) != OnBorderCol(n, p) ==> |Neighbors(n, p)| == 3
    ensures !OnBorderRow(n, p) && !OnBorderCol(n, p) ==> |Neighbors(n, p)| == 4
  {
    NeighborCount(n, p);
  }

  /** The integer grid the program stores: every entry is 0, 1 or 2 and
      decodes to the cell it stands for. */
  function EncodeGrid(g: Grid): (m: seq<seq<int>>)
    ensures |m| == |g|
    ensures forall i :: 0 <= i < |g| ==> |m[i]| == |g[i]|
    ensures forall i, j :: 0 <= i < |g| && 0 <= j < |g[i]| ==>
              0 <= m[i][j] <= 2 && Decode(m[i][j]) == Some(g[i][j])
  {
    seq(|g|, i requires 0 <= i < |g| =>
      seq(|g[i]|, j requires 0 <= j < |g[i]| => Code(g[i][j])))
  }
}
