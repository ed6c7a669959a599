/**
 * The pure helpers of the Spark engine (images/sparkengine/spark_distributed_server.py):
 * the nested-list board, the list of neighbour links the distributed step joins against,
 * the result check, the request validation and the per-cell rule. Python integers are
 * unbounded, so nothing here overflows. The boards are related to the C engine's flat
 * boards through `Flatten`.
 */
module SparkEngine {
  import opened Wrappers
  import LifeKernel
  import Protocol

  /** A Python list of rows. */
  type Grid = seq<seq<int>>

  /** A square `(tam+2) x (tam+2)` grid. */
  predicate Square(g: Grid, tam: nat) {
    |g| == tam + 2 && forall i :: 0 <= i < |g| ==> |g[i]| == tam + 2
  }

  /** The rows laid end to end: the C engine's array. */
  function Flatten(g: Grid): seq<int> {
    if |g| == 0 then [] else g[0] + Flatten(g[1..])
  }

  lemma {:induction false} FlattenLength(g: Grid, tam: nat, n: nat)
    requires n <= |g| && forall i :: 0 <= i < |g| ==> |g[i]| == tam + 2
    ensures |Flatten(g[|g| - n..])| == n * (tam + 2)
    decreases n
  {
    if n > 0 {
      var s := g[|g| - n..];
      assert s[1..] == g[|g| - (n - 1)..];
      FlattenLength(g, tam, n - 1);
    }
  }

  /** Cell `(i, j)` of the grid is cell `ind2d(i, j)` of the flat board. */
  lemma {:induction false} FlattenAt(g: Grid, w: nat, i: nat, j: nat)
    requires forall r :: 0 <= r < |g| ==> |g[r]| == w
    requires i < |g| && j < w
    ensures i * w + j < |Flatten(g)| && Flatten(g)[i * w + j] == g[i][j]
    decreases i
  {
    if i == 0 {
      assert |Flatten(g)| >= |g[0]|;
    } else {
      FlattenAt(g[1..], w, i - 1, j);
      assert i * w + j == |g[0]| + ((i - 1) * w + j);
    }
  }

  lemma SquareFlatten(g: Grid, tam: nat)
    requires Square(g, tam)
    ensures |Flatten(g)| == LifeKernel.Cells(tam)
    ensures forall i, j :: 0 <= i < tam + 2 && 0 <= j < tam + 2 ==>
      LifeKernel.Idx(i, j, tam) < |Flatten(g)| && Flatten(g)[LifeKernel.Idx(i, j, tam)] == g[i][j]
  {
    FlattenLength(g, tam, |g|);
    assert g[|g| - |g|..] == g;
    forall i, j | 0 <= i < tam + 2 && 0 <= j < tam + 2
      ensures LifeKernel.Idx(i, j, tam) < |Flatten(g)| && Flatten(g)[LifeKernel.Idx(i, j, tam)] == g[i][j]
    {
      FlattenAt(g, tam + 2, i, j);
    }
  }

  /** Every cell `(i, j)` of the grid is cell `ind2d(i, j)` of the flat board `b`. */
  predicate Matches(g: Grid, b: LifeKernel.Board, tam: nat)
    requires Square(g, tam)
  {
    forall i, j :: 0 <= i < tam + 2 && 0 <= j < tam + 2 ==>
      0 <= LifeKernel.Idx(i, j, tam) < |b| && g[i][j] == b[LifeKernel.Idx(i, j, tam)]
  }

  /** A square grid that matches a board of the right size cell by cell flattens to it. */
  lemma FlattenSameCells(g: Grid, b: LifeKernel.Board, tam: nat)
    requires Square(g, tam) && |b| == LifeKernel.Cells(tam) && Matches(g, b, tam)
    ensures Flatten(g) == b
  {
    SquareFlatten(g, tam);
    forall k | 0 <= k < |b| ensures Flatten(g)[k] == b[k] {
      LifeKernel.RowColIdx(k, tam);
    }
  }

  // ---------------------------------------------------------------------------
  // init_board
  // ---------------------------------------------------------------------------

  function ZeroGrid(tam: nat): (g: Grid)
    ensures Square(g, tam)
    ensures forall i, j :: 0 <= i < tam + 2 && 0 <= j < tam + 2 ==> g[i][j] == 0
  {
    seq(tam + 2, _ => seq(tam + 2, _ => 0))
  }

  /** `board[i][j] = v` on a list of lists. */
  function SetCell(g: Grid, i: nat, j: nat, v: int): (r: Grid)
    requires i < |g| && j < |g[i]|
    ensures |r| == |g| && forall a :: 0 <= a < |g| ==> |r[a]| == |g[a]|
    ensures forall a, b :: 0 <= a < |g| && 0 <= b < |g[a]| ==> r[a][b] == if a == i && b == j then v else g[a][b]
  {
    g[i := g[i][j := v]]
  }

  /** `init_board(tam)`: a zero grid with the five glider cells set. With `tam < 2` the
      assignment `board[3][3]` raises `IndexError`; that case is excluded. */
  function InitGrid(tam: nat): (g: Grid)
    requires tam >= 2
    ensures Square(g, tam)
    ensures forall i, j :: 0 <= i < tam + 2 && 0 <= j < tam + 2 ==>
      g[i][j] == if LifeKernel.InGlider(i, j, 0) then 1 else 0
  {
    var z := ZeroGrid(tam);
    SetCell(SetCell(SetCell(SetCell(SetCell(z, 1, 2, 1), 2, 3, 1), 3, 1, 1), 3, 2, 1), 3, 3, 1)
  }

  /** The Spark board and the C board start alike. */
  lemma InitGridIsInitBoard(tam: nat)
    requires tam >= 2
    ensures Flatten(InitGrid(tam)) == LifeKernel.InitBoard(tam)
  {
    StartingGrid(InitGrid(tam), tam);
  }

  /** Any grid holding exactly the starting glider flattens to the C engine's first board. */
  lemma StartingGrid(g: Grid, tam: nat)
    requires Square(g, tam)
    requires forall i, j :: 0 <= i < tam + 2 && 0 <= j < tam + 2 ==>
      g[i][j] == if LifeKernel.InGlider(i, j, 0) then 1 else 0
    ensures Flatten(g) == LifeKernel.InitBoard(tam)
  {
    var b := LifeKernel.InitBoard(tam);
    forall i, j | 0 <= i < tam + 2 && 0 <= j < tam + 2
      ensures 0 <= LifeKernel.Idx(i, j, tam) < |b| && g[i][j] == b[LifeKernel.Idx(i, j, tam)]
    {
      LifeKernel.GliderBoardAt(tam, 0, i, j);
    }
    FlattenSameCells(g, b, tam);
  }

  // ---------------------------------------------------------------------------
  // create_neighbors_mapping_distributed
  // ---------------------------------------------------------------------------

  /** A row `(cell_row, cell_col, neighbor_row, neighbor_col)`. */
  datatype Link = Link(i: int, j: int, ni: int, nj: int)

  predicate InBoard(i: int, tam: nat) {
    1 <= i <= tam
  }

  /** A pair of distinct, touching interior cells. */
  predicate Adjacent(l: Link, tam: nat) {
    InBoard(l.i, tam) && InBoard(l.j, tam) && InBoard(l.ni, tam) && InBoard(l.nj, tam)
    && -1 <= l.ni - l.i <= 1 && -1 <= l.nj - l.j <= 1 && (l.ni != l.i || l.nj != l.j)
  }

  /** The candidate `(ni, nj)` when it passes the bounds test. */
  function Keep(i: int, j: int, ni: int, nj: int, tam: nat): seq<Link> {
    if InBoard(ni, tam) && InBoard(nj, tam) then [Link(i, j, ni, nj)] else []
  }

  /** The eight candidate positions around `(i, j)`, in the order of the Python list. */
  function Candidates(i: int, j: int): seq<(int, int)> {
    [(i - 1, j - 1), (i - 1, j), (i - 1, j + 1), (i, j - 1), (i, j + 1), (i + 1, j - 1), (i + 1, j), (i + 1, j + 1)]
  }

  /** The candidates that pass the bounds test, as links from `(i, j)`. */
  function Filter(i: int, j: int, cs: seq<(int, int)>, tam: nat): seq<Link> {
    if |cs| == 0 then [] else Keep(i, j, cs[0].0, cs[0].1, tam) + Filter(i, j, cs[1..], tam)
  }

  /** The links of one cell, in the order of the candidate list. */
  function CellLinks(i: int, j: int, tam: nat): seq<Link> {
    Filter(i, j, Candidates(i, j), tam)
  }

  /** The links of the cells from `(i, j)` on, row by row as the two loops visit them. */
  function LinksFrom(i: nat, j: nat, tam: nat): seq<Link>
    requires 1 <= i <= tam + 1 && 1 <= j <= tam + 1
    decreases tam + 1 - i, tam + 1 - j
  {
    if i > tam then []
    else if j > tam then LinksFrom(i + 1, 1, tam)
    else CellLinks(i, j, tam) + LinksFrom(i, j + 1, tam)
  }

  /** `neighbors_data` for board size `tam`. */
  function NeighbourLinks(tam: nat): seq<Link> {
    LinksFrom(1, 1, tam)
  }

  /** How many times `l` occurs in `s`. */
  function Occurrences(s: seq<Link>, l: Link): nat {
    if |s| == 0 then 0 else (if s[0] == l then 1 else 0) + Occurrences(s[1..], l)
  }

  lemma {:induction false} OccurrencesAppend(a: seq<Link>, b: seq<Link>, l: Link)
    ensures Occurrences(a + b, l) == Occurrences(a, l) + Occurrences(b, l)
    decreases |a|
  {
    if |a| > 0 {
      assert (a + b)[0] == a[0] && (a + b)[1..] == a[1..] + b;
      OccurrencesAppend(a[1..], b, l);
    } else {
      assert a + b == b;
    }
  }

  lemma {:induction false} OccurrencesMultiplicity(s: seq<Link>, l: Link)
    ensures Occurrences(s, l) == multiset(s)[l]
    decreases |s|
  {
    if |s| > 0 {
      assert s == [s[0]] + s[1..];
      assert multiset(s) == multiset{s[0]} + multiset(s[1..]);
      OccurrencesMultiplicity(s[1..], l);
    }
  }

  lemma KeepCount(i: int, j: int, ni: int, nj: int, tam: nat, l: Link)
    ensures Occurrences(Keep(i, j, ni, nj, tam), l)
         == if l == Link(i, j, ni, nj) && InBoard(ni, tam) && InBoard(nj, tam) then 1 else 0
  {
    var k := Keep(i, j, ni, nj, tam);
    if |k| > 0 {
      assert k[1..] == [];
    }
  }

  predicate DistinctPairs(cs: seq<(int, int)>) {
    forall m, m' :: 0 <= m < m' < |cs| ==> cs[m] != cs[m']
  }

  lemma {:induction false} FilterCount(i: int, j: int, cs: seq<(int, int)>, tam: nat, l: Link)
    requires DistinctPairs(cs)
    ensures Occurrences(Filter(i, j, cs, tam), l)
         == if l.i == i && l.j == j && (l.ni, l.nj) in cs && InBoard(l.ni, tam) && InBoard(l.nj, tam) then 1 else 0
    decreases |cs|
  {
    if |cs| > 0 {
      var k, rest := Keep(i, j, cs[0].0, cs[0].1, tam), Filter(i, j, cs[1..], tam);
      OccurrencesAppend(k, rest, l);
      KeepCount(i, j, cs[0].0, cs[0].1, tam, l);
      FilterCount(i, j, cs[1..], tam, l);
      assert (l.ni, l.nj) in cs <==> (l.ni, l.nj) == cs[0] || (l.ni, l.nj) in cs[1..];
      assert cs[0] !in cs[1..];
    }
  }

  lemma CandidatesAre(i: int, j: int, p: (int, int))
    ensures DistinctPairs(Candidates(i, j))
    ensures p in Candidates(i, j) <==> -1 <= p.0 - i <= 1 && -1 <= p.1 - j <= 1 && p != (i, j)
  {
  }

  /** One cell contributes each of its in-board neighbours once. */
  lemma CellLinksCount(i: int, j: int, tam: nat, l: Link)
    requires InBoard(i, tam) && InBoard(j, tam)
    ensures Occurrences(CellLinks(i, j, tam), l) == if Adjacent(l, tam) && l.i == i && l.j == j then 1 else 0
  {
    CandidatesAre(i, j, (l.ni, l.nj));
    FilterCount(i, j, Candidates(i, j), tam, l);
  }

  /** The cell of `l` comes at or after `(i, j)` in the loops' order. */
  predicate FromCell(l: Link, i: int, j: int) {
    l.i > i || (l.i == i && l.j >= j)
  }

  lemma LinksFromSplit(i: nat, j: nat, tam: nat, l: Link)
    requires 1 <= i <= tam && 1 <= j <= tam
    ensures Occurrences(LinksFrom(i, j, tam), l) == Occurrences(CellLinks(i, j, tam), l) + Occurrences(LinksFrom(i, j + 1, tam), l)
  {
    OccurrencesAppend(CellLinks(i, j, tam), LinksFrom(i, j + 1, tam), l);
  }

  lemma {:induction false} LinksFromCount(i: nat, j: nat, tam: nat, l: Link)
    requires 1 <= i <= tam + 1 && 1 <= j <= tam + 1
    ensures Occurrences(LinksFrom(i, j, tam), l) == if Adjacent(l, tam) && FromCell(l, i, j) then 1 else 0
    decreases tam + 1 - i, tam + 1 - j, 1
  {
    if i > tam {
      assert LinksFrom(i, j, tam) == [];
      PastLastRow(l, i, j, tam);
    } else if j > tam {
      NextRowCount(i, j, tam, l);
    } else {
      NextCellCount(i, j, tam, l);
    }
  }

  lemma {:induction false} NextRowCount(i: nat, j: nat, tam: nat, l: Link)
    requires 1 <= i <= tam && j == tam + 1
    ensures Occurrences(LinksFrom(i, j, tam), l) == if Adjacent(l, tam) && FromCell(l, i, j) then 1 else 0
    decreases tam + 1 - i, tam + 1 - j, 0
  {
    LinksFromCount(i + 1, 1, tam, l);
    RowEnd(l, i, j, tam);
    CountStep(Occurrences(LinksFrom(i, j, tam), l), 0, Occurrences(LinksFrom(i + 1, 1, tam), l),
              Adjacent(l, tam), false, FromCell(l, i + 1, 1), FromCell(l, i, j));
  }

  lemma {:induction false} NextCellCount(i: nat, j: nat, tam: nat, l: Link)
    requires 1 <= i <= tam && 1 <= j <= tam
    ensures Occurrences(LinksFrom(i, j, tam), l) == if Adjacent(l, tam) && FromCell(l, i, j) then 1 else 0
    decreases tam + 1 - i, tam + 1 - j, 0
  {
    LinksFromCount(i, j + 1, tam, l);
    LinksFromSplit(i, j, tam, l);
    CellLinksCount(i, j, tam, l);
    CountStep(Occurrences(LinksFrom(i, j, tam), l), Occurrences(CellLinks(i, j, tam), l), Occurrences(LinksFrom(i, j + 1, tam), l),
              Adjacent(l, tam), l.i == i && l.j == j, FromCell(l, i, j + 1), FromCell(l, i, j));
  }

  /** Past the last row no cell is left. */
  lemma PastLastRow(l: Link, i: int, j: int, tam: nat)
    requires i > tam
    ensures !(Adjacent(l, tam) && FromCell(l, i, j))
  {
  }

  /** Past the end of row `i`, the cells still to come are those of the next rows. */
  lemma RowEnd(l: Link, i: int, j: int, tam: nat)
    requires j > tam
    ensures Adjacent(l, tam) ==> (FromCell(l, i, j) <==> FromCell(l, i + 1, 1))
  {
  }

  /** The counting step of `LinksFromCount`, on plain values. */
  lemma CountStep(all: int, here: int, later: int, adjacent: bool, atCell: bool, after: bool, from: bool)
    requires all == here + later
    requires here == if adjacent && atCell then 1 else 0
    requires later == if adjacent && after then 1 else 0
    requires adjacent ==> (from <==> atCell || after)
    requires !(atCell && after)
    ensures all == if adjacent && from then 1 else 0
  {
  }

  /** Every neighbour link is present exactly once, and nothing else is present: the list
      holds each ordered pair of distinct touching interior cells once. */
  lemma NeighbourLinksExact(tam: nat, l: Link)
    ensures multiset(NeighbourLinks(tam))[l] == if Adjacent(l, tam) then 1 else 0
  {
    LinksFromCount(1, 1, tam, l);
    OccurrencesMultiplicity(NeighbourLinks(tam), l);
  }

  /** Hence every tuple of the list satisfies the bounds and adjacency conditions. */
  lemma NeighbourLinksSound(tam: nat)
    ensures forall l :: l in NeighbourLinks(tam) ==> Adjacent(l, tam)
  {
    forall l | l in NeighbourLinks(tam) ensures Adjacent(l, tam) {
      NeighbourLinksExact(tam, l);
    }
  }

  // ---------------------------------------------------------------------------
  // The next-state rule
  // ---------------------------------------------------------------------------

  /** The chained `when` of the generation step, on `alive` and `live_neighbors`. */
  function SparkNext(alive: int, n: int): int {
    if alive == 1 && n < 2 then 0
    else if alive == 1 && n > 3 then 0
    else if alive == 0 && n == 3 then 1
    else alive
  }

  /** On 0/1 cells the rule is the C engine's: B3/S23. */
  lemma SparkNextIsNextCell(alive: int, n: int)
    requires alive == 0 || alive == 1
    ensures SparkNext(alive, n) == LifeKernel.NextCell(alive, n)
    ensures SparkNext(alive, n) == if LifeKernel.Conway(alive == 1, n) then 1 else 0
  {
    LifeKernel.NextCellIsConway(alive, n);
  }

  /** Off 0/1 the two rules differ: the Python tests `alive == 1`, the C code tests
      `alive != 0`. */
  lemma RulesDifferOffBinary()
    ensures SparkNext(2, 0) == 2 && LifeKernel.NextCell(2, 0) == 0
  {
  }

  // ---------------------------------------------------------------------------
  // verify_distributed_result
  // ---------------------------------------------------------------------------

  /** A collected row `(row, col, alive)`. */
  datatype CellRow = CellRow(row: int, col: int, alive: int)

  predicate RowsOnBoard(rows: seq<CellRow>, tam: nat) {
    forall k :: 0 <= k < |rows| ==> 0 <= rows[k].row < tam + 2 && 0 <= rows[k].col < tam + 2
  }

  /** The rows written onto a zero grid in order; a later row overwrites an earlier one. */
  function Place(rows: seq<CellRow>, tam: nat): (g: Grid)
    requires RowsOnBoard(rows, tam)
    ensures Square(g, tam) && |Flatten(g)| == LifeKernel.Cells(tam)
  {
    var g := if |rows| == 0 then ZeroGrid(tam)
      else
        var r := rows[|rows| - 1];
        SetCell(Place(rows[..|rows| - 1], tam), r.row, r.col, r.alive);
    SquareFlatten(g, tam);
    g
  }

  /** The `alive` value of the last row addressed to cell `(i, j)`, if any row is. */
  function LastAlive(rows: seq<CellRow>, i: int, j: int): Option<int> {
    if |rows| == 0 then None
    else if rows[|rows| - 1].row == i && rows[|rows| - 1].col == j then Some(rows[|rows| - 1].alive)
    else LastAlive(rows[..|rows| - 1], i, j)
  }

  /** Cell by cell, the placed board holds what the last row for that cell wrote, and 0
      where no row was collected. */
  lemma {:induction false} PlaceCells(rows: seq<CellRow>, tam: nat)
    requires RowsOnBoard(rows, tam)
    ensures forall i, j :: 0 <= i < tam + 2 && 0 <= j < tam + 2 ==>
      Place(rows, tam)[i][j] == LastAlive(rows, i, j).GetOr(0)
    decreases |rows|
  {
    if |rows| > 0 {
      PlaceCells(rows[..|rows| - 1], tam);
    }
  }

  /** `sum(sum(row) for row in board)`. */
  function GridSum(g: Grid): int {
    if |g| == 0 then 0 else LifeKernel.Sum(g[0]) + GridSum(g[1..])
  }

  lemma {:induction false} SumConcat(a: seq<int>, b: seq<int>)
    ensures LifeKernel.Sum(a + b) == LifeKernel.Sum(a) + LifeKernel.Sum(b)
    decreases |b|
  {
    if |b| > 0 {
      assert (a + b)[..|a + b| - 1] == a + b[..|b| - 1];
      SumConcat(a, b[..|b| - 1]);
    } else {
      assert a + b == a;
    }
  }

  lemma {:induction false} GridSumFlatten(g: Grid)
    ensures GridSum(g) == LifeKernel.Sum(Flatten(g))
  {
    if |g| > 0 {
      GridSumFlatten(g[1..]);
      SumConcat(g[0], Flatten(g[1..]));
    }
  }

  /** `verify_distributed_result(final_data, tam)`: place the rows, count the live cells,
      then test the five corner cells for truthiness. */
  function VerifyDistributedResult(rows: seq<CellRow>, tam: nat): (r: bool)
    requires tam >= 2 && RowsOnBoard(rows, tam)
    ensures r == LifeKernel.IsCorrect(Flatten(Place(rows, tam)), tam)
  {
    var g := Place(rows, tam);
    SquareFlatten(g, tam);
    GridSumFlatten(g);
    LifeKernel.IdxRowCol(tam - 2, tam - 1, tam); LifeKernel.IdxRowCol(tam - 1, tam, tam);
    LifeKernel.IdxRowCol(tam, tam - 2, tam); LifeKernel.IdxRowCol(tam, tam - 1, tam);
    LifeKernel.IdxRowCol(tam, tam, tam);
    GridSum(g) == 5 && g[tam - 2][tam - 1] != 0 && g[tam - 1][tam] != 0
    && g[tam][tam - 2] != 0 && g[tam][tam - 1] != 0 && g[tam][tam] != 0
  }

  /** On 0/1 rows the Spark check accepts exactly the board the C check accepts: the
      starting glider moved into the lower right corner. */
  lemma VerifyIffShiftedGlider(rows: seq<CellRow>, tam: nat)
    requires tam >= 2 && RowsOnBoard(rows, tam)
    requires forall k :: 0 <= k < |rows| ==> rows[k].alive == 0 || rows[k].alive == 1
    ensures VerifyDistributedResult(rows, tam) <==> Flatten(Place(rows, tam)) == LifeKernel.FinalBoard(tam)
  {
    PlaceBinary(rows, tam);
    SquareFlatten(Place(rows, tam), tam);
    LifeKernel.CorrectIffShiftedGlider(Flatten(Place(rows, tam)), tam);
  }

  lemma {:induction false} PlaceBinary(rows: seq<CellRow>, tam: nat)
    requires RowsOnBoard(rows, tam)
    requires forall k :: 0 <= k < |rows| ==> rows[k].alive == 0 || rows[k].alive == 1
    ensures forall i, j :: 0 <= i < tam + 2 && 0 <= j < tam + 2 ==>
      Place(rows, tam)[i][j] == 0 || Place(rows, tam)[i][j] == 1
    ensures LifeKernel.Binary(Flatten(Place(rows, tam)))
    decreases |rows|
  {
    if |rows| > 0 {
      PlaceBinary(rows[..|rows| - 1], tam);
    }
    var g := Place(rows, tam);
    SquareFlatten(g, tam);
    forall k | 0 <= k < |Flatten(g)| ensures Flatten(g)[k] == 0 || Flatten(g)[k] == 1 {
      LifeKernel.RowColIdx(k, tam);
    }
  }

  // ---------------------------------------------------------------------------
  // process_game
  // ---------------------------------------------------------------------------

  const BadRequest: int := 400
  const MissingParameters: string := "Missing parameters"
  const InvalidParameters: string := "Invalid parameters"

  /** What `process_game` does before any computation: a 400 reply with an error text, or
      the run of the range. */
  datatype Decision = Reject(status: int, error: string) | Compute(powmin: int, powmax: int)

  /** `process_game` on the two query arguments as `request.args.get(…, type=int)` returns
      them: `None` when the argument is absent or not an integer. */
  function ProcessGame(powmin: Option<int>, powmax: Option<int>): (d: Decision)
    ensures d.Compute? <==> powmin.Some? && powmax.Some? && Protocol.ValidRange(powmin.value, powmax.value)
    ensures d.Compute? ==> d == Compute(powmin.value, powmax.value)
    ensures d.Reject? ==> d.status == BadRequest
    ensures d.Reject? ==> (d.error == MissingParameters <==> powmin.None? || powmax.None?)
    ensures d.Reject? ==> (d.error == InvalidParameters <==> powmin.Some? && powmax.Some?)
  {
    if powmin.None? || powmax.None? then Reject(BadRequest, MissingParameters)
    else if powmin.value < 3 || powmax.value > 15 || powmin.value > powmax.value then Reject(BadRequest, InvalidParameters)
    else Compute(powmin.value, powmax.value)
  }
}
