/**
 * The Game of Life kernel of the OpenMP engine (images/openmpmpiengine/http_server.c):
 * `tam x tam` boards stored row-major in flat arrays of `(tam+2)^2` ints, with a frame of
 * border cells that stay 0, indexed by the macro `ind2d(i,j) = i*(tam+2)+j`. A board is a
 * `seq<int>`; a C function that writes an array returns the new contents instead.
 */
module LifeKernel {
  import opened CText

  type Board = seq<int>

  /** `ind2d(i,j)`. */
  function Idx(i: int, j: int, tam: nat): int {
    i * (tam + 2) + j
  }

  /** `(tam+2)*(tam+2)`, the number of cells allocated per board. */
  function Cells(tam: nat): nat {
    (tam + 2) * (tam + 2)
  }

  function Row(k: nat, tam: nat): nat {
    k / (tam + 2)
  }

  function Col(k: nat, tam: nat): nat {
    k % (tam + 2)
  }

  /** The cells `UmaVida` computes: rows and columns 1..tam. */
  predicate Interior(k: nat, tam: nat) {
    1 <= Row(k, tam) <= tam && 1 <= Col(k, tam) <= tam
  }

  // ---------------------------------------------------------------------------
  // Index arithmetic
  // ---------------------------------------------------------------------------

  lemma MulMono(a: int, b: int, w: int)
    requires b <= a && w >= 0
    ensures b * w <= a * w
  {
    assert (a - b) * w >= 0;
    assert a * w - b * w == (a - b) * w;
  }

  lemma DivModUnique(k: int, w: int, q: int, r: int)
    requires w > 0 && 0 <= r < w && k == q * w + r
    ensures k / w == q && k % w == r
  {
    var q' := k / w;
    if q' > q {
      MulMono(q', q + 1, w);
      assert false;
    } else if q' < q {
      MulMono(q, q' + 1, w);
      assert false;
    }
  }

  /** `ind2d` is a bijection between frame coordinates and array indices. */
  lemma IdxRowCol(i: nat, j: nat, tam: nat)
    requires i < tam + 2 && j < tam + 2
    ensures 0 <= Idx(i, j, tam) < Cells(tam)
    ensures Row(Idx(i, j, tam), tam) == i && Col(Idx(i, j, tam), tam) == j
  {
    var w := tam + 2;
    var k := i * w + j;
    DivModUnique(k, w, i, j);
    MulMono(w - 1, i, w);
    assert (w - 1) * w + w == w * w;
  }

  lemma RowColIdx(k: nat, tam: nat)
    requires k < Cells(tam)
    ensures Idx(Row(k, tam), Col(k, tam), tam) == k
    ensures Row(k, tam) < tam + 2 && Col(k, tam) < tam + 2
  {
    var w := tam + 2;
    var q := k / w;
    assert k == q * w + k % w;
    if q >= w {
      MulMono(q, w, w);
      assert false;
    }
  }

  /** Frame coordinates within the board, as an index pair. */
  lemma IdxInjective(i: nat, j: nat, i': nat, j': nat, tam: nat)
    requires i < tam + 2 && j < tam + 2 && i' < tam + 2 && j' < tam + 2
    ensures Idx(i, j, tam) == Idx(i', j', tam) <==> i == i' && j == j'
  {
    IdxRowCol(i, j, tam);
    IdxRowCol(i', j', tam);
  }

  /** The eight neighbours of an interior cell lie inside the array, at fixed offsets. */
  lemma InteriorBounds(k: nat, tam: nat)
    requires k < Cells(tam) && Interior(k, tam)
    ensures tam + 3 <= k && k + tam + 3 < Cells(tam)
  {
    var w := tam + 2;
    var r := Row(k, tam);
    RowColIdx(k, tam);
    MulMono(r, 1, w);
    MulMono(w - 2, r, w);
    assert (w - 2) * w + 2 * w == w * w;
  }

  // ---------------------------------------------------------------------------
  // One generation
  // ---------------------------------------------------------------------------

  /** The `if` chain of `UmaVida` for one cell, given its value and the sum of its eight
      neighbours; as in C, any non-zero value counts as alive. */
  function NextCell(alive: int, n: int): int {
    if alive != 0 && n < 2 then 0
    else if alive != 0 && n > 3 then 0
    else if alive == 0 && n == 3 then 1
    else alive
  }

  /** Conway's rule B3/S23: a cell is alive next if it has three live neighbours, or is
      alive and has two. */
  predicate Conway(alive: bool, n: int) {
    n == 3 || (alive && n == 2)
  }

  /** On 0/1 cells the C rule is exactly B3/S23. */
  lemma NextCellIsConway(alive: int, n: int)
    requires alive == 0 || alive == 1
    ensures NextCell(alive, n) == if Conway(alive == 1, n) then 1 else 0
  {
  }

  /** Left-to-right sum, the order in which C adds. */
  function Sum(s: seq<int>): int {
    if |s| == 0 then 0 else Sum(s[..|s| - 1]) + s[|s| - 1]
  }

  /** The eight neighbour values of interior cell `(i, j)` in the order `UmaVida` adds them. */
  function Neighbours(b: Board, i: nat, j: nat, tam: nat): (ns: seq<int>)
    requires |b| == Cells(tam) && 1 <= i <= tam && 1 <= j <= tam
    ensures |ns| == 8
    ensures forall m :: 0 <= m < |ns| ==> ns[m] in b
  {
    IdxRowCol(i - 1, j - 1, tam); IdxRowCol(i - 1, j, tam); IdxRowCol(i - 1, j + 1, tam);
    IdxRowCol(i, j - 1, tam); IdxRowCol(i, j + 1, tam);
    IdxRowCol(i + 1, j - 1, tam); IdxRowCol(i + 1, j, tam); IdxRowCol(i + 1, j + 1, tam);
    [b[Idx(i - 1, j - 1, tam)], b[Idx(i - 1, j, tam)], b[Idx(i - 1, j + 1, tam)],
     b[Idx(i, j - 1, tam)], b[Idx(i, j + 1, tam)],
     b[Idx(i + 1, j - 1, tam)], b[Idx(i + 1, j, tam)], b[Idx(i + 1, j + 1, tam)]]
  }

  /** `vizviv` for interior cell `(i, j)`. */
  function NeighbourSum(b: Board, i: nat, j: nat, tam: nat): int
    requires |b| == Cells(tam) && 1 <= i <= tam && 1 <= j <= tam
  {
    Sum(Neighbours(b, i, j, tam))
  }

  /** Every partial sum C forms while adding the sequence fits an `int`. */
  predicate SumFits(s: seq<int>) {
    forall n :: 0 <= n <= |s| ==> IsInt32(Sum(s[..n]))
  }

  /** No neighbour sum of the board overflows. */
  predicate NeighbourSumsFit(b: Board, tam: nat)
    requires |b| == Cells(tam)
  {
    forall i, j :: 1 <= i <= tam && 1 <= j <= tam ==> SumFits(Neighbours(b, i, j, tam))
  }

  /** The value cell `k` of an interior position gets in the next generation. */
  function NextAt(b: Board, k: nat, tam: nat): int
    requires |b| == Cells(tam) && k < Cells(tam) && Interior(k, tam)
  {
    RowColIdx(k, tam);
    NextCell(b[k], NeighbourSum(b, Row(k, tam), Col(k, tam), tam))
  }

  /** What `UmaVida(tabulIn, tabulOut, tam)` leaves in `tabulOut`: every interior cell gets
      the rule applied to `tabulIn`, every border cell keeps the value `tabulOut` had. */
  function NextBoard(tabulIn: Board, tabulOut: Board, tam: nat): (r: Board)
    requires |tabulIn| == Cells(tam) && |tabulOut| == Cells(tam)
    ensures |r| == Cells(tam)
  {
    seq(Cells(tam), k requires 0 <= k < Cells(tam) =>
      if Interior(k, tam) then NextAt(tabulIn, k, tam) else tabulOut[k])
  }

  /** The cells of `NextBoard` read as frame coordinates. */
  lemma NextBoardAt(tabulIn: Board, tabulOut: Board, tam: nat, i: nat, j: nat)
    requires |tabulIn| == Cells(tam) && |tabulOut| == Cells(tam)
    requires i < tam + 2 && j < tam + 2
    ensures 0 <= Idx(i, j, tam) < Cells(tam)
    ensures var k := Idx(i, j, tam);
      NextBoard(tabulIn, tabulOut, tam)[k]
        == if 1 <= i <= tam && 1 <= j <= tam
           then NextCell(tabulIn[k], NeighbourSum(tabulIn, i, j, tam))
           else tabulOut[k]
  {
    IdxRowCol(i, j, tam);
  }

  /** `UmaVida`: the two nested loops over the interior in row-major order. */
  method UmaVida(tabulIn: Board, tabulOut: Board, tam: nat) returns (out: Board)
    requires |tabulIn| == Cells(tam) && |tabulOut| == Cells(tam)
    requires NeighbourSumsFit(tabulIn, tam)
    ensures out == NextBoard(tabulIn, tabulOut, tam)
    ensures forall i, j :: 1 <= i <= tam && 1 <= j <= tam ==>
      Idx(i, j, tam) < |out| && out[Idx(i, j, tam)] == NextCell(tabulIn[Idx(i, j, tam)], NeighbourSum(tabulIn, i, j, tam))
    ensures forall k :: 0 <= k < |out| && !Interior(k, tam) ==> out[k] == tabulOut[k]
  {
    out := tabulOut;
    var i := 1;
    while i <= tam
      invariant 1 <= i <= tam + 1
      invariant |out| == Cells(tam)
      invariant forall k :: 0 <= k < |out| ==>
        out[k] == if Interior(k, tam) && Row(k, tam) < i then NextAt(tabulIn, k, tam) else tabulOut[k]
    {
      var j := 1;
      while j <= tam
        invariant 1 <= j <= tam + 1
        invariant |out| == Cells(tam)
        invariant forall k :: 0 <= k < |out| ==>
          out[k] == if Interior(k, tam) && (Row(k, tam) < i || (Row(k, tam) == i && Col(k, tam) < j))
                    then NextAt(tabulIn, k, tam) else tabulOut[k]
      {
        IdxRowCol(i, j, tam);
        var here := Idx(i, j, tam);
        var vizviv := NeighbourSum(tabulIn, i, j, tam);
        var v: int;
        if tabulIn[here] != 0 && vizviv < 2 {
          v := 0;
        } else if tabulIn[here] != 0 && vizviv > 3 {
          v := 0;
        } else if tabulIn[here] == 0 && vizviv == 3 {
          v := 1;
        } else {
          v := tabulIn[here];
        }
        assert v == NextAt(tabulIn, here, tam);
        forall k | 0 <= k < |out| ensures Row(k, tam) == i && Col(k, tam) == j ==> k == here {
          RowColIdx(k, tam);
        }
        out := out[here := v];
        j := j + 1;
      }
      i := i + 1;
    }
    forall i, j | 1 <= i <= tam && 1 <= j <= tam
      ensures Idx(i, j, tam) < |out| && out[Idx(i, j, tam)] == NextCell(tabulIn[Idx(i, j, tam)], NeighbourSum(tabulIn, i, j, tam))
    {
      NextBoardAt(tabulIn, tabulOut, tam, i, j);
    }
  }

  /** Every cell is 0 or 1. */
  predicate Binary(b: Board) {
    forall k :: 0 <= k < |b| ==> b[k] == 0 || b[k] == 1
  }

  /** One generation of 0/1 boards yields a 0/1 board. */
  lemma NextBoardBinary(tabulIn: Board, tabulOut: Board, tam: nat)
    requires |tabulIn| == Cells(tam) && |tabulOut| == Cells(tam)
    requires Binary(tabulIn) && Binary(tabulOut)
    ensures Binary(NextBoard(tabulIn, tabulOut, tam))
  {
  }

  lemma {:induction false} SumBounds(s: seq<int>)
    requires forall k :: 0 <= k < |s| ==> 0 <= s[k] <= 1
    ensures 0 <= Sum(s) <= |s|
    decreases |s|
  {
    if |s| > 0 {
      SumBounds(s[..|s| - 1]);
    }
  }

  lemma BinarySumFits(s: seq<int>)
    requires forall k :: 0 <= k < |s| ==> 0 <= s[k] <= 1
    requires |s| <= INT_MAX
    ensures SumFits(s)
  {
    forall n | 0 <= n <= |s| ensures IsInt32(Sum(s[..n])) {
      SumBounds(s[..n]);
    }
  }

  /** On a 0/1 board no neighbour sum can overflow. */
  lemma BinaryNeighbourSumsFit(b: Board, tam: nat)
    requires |b| == Cells(tam) && Binary(b)
    ensures NeighbourSumsFit(b, tam)
  {
    forall i, j | 1 <= i <= tam && 1 <= j <= tam ensures SumFits(Neighbours(b, i, j, tam)) {
      var ns := Neighbours(b, i, j, tam);
      assert forall m :: 0 <= m < |ns| ==> ns[m] in b;
      BinarySumFits(ns);
    }
  }

  // ---------------------------------------------------------------------------
  // The glider: initial board and expected final board
  // ---------------------------------------------------------------------------

  /** The five cells of the glider `InitTabul` places, moved `d` cells down and right. */
  predicate InGlider(i: int, j: int, d: int) {
    (i == 1 + d && j == 2 + d) || (i == 2 + d && j == 3 + d)
    || (i == 3 + d && (j == 1 + d || j == 2 + d || j == 3 + d))
  }

  /** The board holding only that glider. */
  function GliderBoard(tam: nat, d: int): (b: Board)
    ensures |b| == Cells(tam) && Binary(b)
  {
    seq(Cells(tam), k requires 0 <= k => if InGlider(Row(k, tam), Col(k, tam), d) then 1 else 0)
  }

  /** Cell `(i, j)` of the glider board. */
  lemma GliderBoardAt(tam: nat, d: int, i: nat, j: nat)
    requires i < tam + 2 && j < tam + 2
    ensures 0 <= Idx(i, j, tam) < |GliderBoard(tam, d)|
    ensures GliderBoard(tam, d)[Idx(i, j, tam)] == if InGlider(i, j, d) then 1 else 0
  {
    IdxRowCol(i, j, tam);
  }

  function Zeros(tam: nat): (b: Board)
    ensures |b| == Cells(tam) && Binary(b)
  {
    seq(Cells(tam), _ => 0)
  }

  /** `InitTabul` on `tabulIn`. */
  function InitBoard(tam: nat): Board {
    GliderBoard(tam, 0)
  }

  /** The five writes of `InitTabul` on a zero board produce the glider board. */
  lemma GliderWrites(tam: nat)
    requires tam >= 2
    ensures 0 <= Idx(1, 2, tam) < Cells(tam) && 0 <= Idx(2, 3, tam) < Cells(tam)
    ensures 0 <= Idx(3, 1, tam) < Cells(tam) && 0 <= Idx(3, 2, tam) < Cells(tam)
    ensures 0 <= Idx(3, 3, tam) < Cells(tam)
    ensures Zeros(tam)[Idx(1, 2, tam) := 1][Idx(2, 3, tam) := 1][Idx(3, 1, tam) := 1]
                      [Idx(3, 2, tam) := 1][Idx(3, 3, tam) := 1] == InitBoard(tam)
  {
    IdxRowCol(1, 2, tam); IdxRowCol(2, 3, tam);
    IdxRowCol(3, 1, tam); IdxRowCol(3, 2, tam); IdxRowCol(3, 3, tam);
    var z := Zeros(tam)[Idx(1, 2, tam) := 1][Idx(2, 3, tam) := 1][Idx(3, 1, tam) := 1]
                       [Idx(3, 2, tam) := 1][Idx(3, 3, tam) := 1];
    forall k | 0 <= k < Cells(tam) ensures z[k] == InitBoard(tam)[k] {
      RowColIdx(k, tam);
      var i, j := Row(k, tam), Col(k, tam);
      assert k == Idx(i, j, tam);
      if InGlider(i, j, 0) {
        assert z[k] == 1;
      } else {
        IdxInjective(i, j, 1, 2, tam); IdxInjective(i, j, 2, 3, tam);
        IdxInjective(i, j, 3, 1, tam); IdxInjective(i, j, 3, 2, tam); IdxInjective(i, j, 3, 3, tam);
        assert z[k] == 0;
      }
    }
  }

  /** `InitTabul`: zero both boards, then set the glider cells of `tabulIn`. The fifth write,
      `ind2d(3,3)`, is inside the array only when `tam >= 2`, and `(tam+2)*(tam+2)` must not
      overflow. */
  method InitTabul(tam: nat) returns (tabulIn: Board, tabulOut: Board)
    requires tam >= 2 && Cells(tam) <= INT_MAX
    ensures tabulIn == InitBoard(tam) && tabulOut == Zeros(tam)
    ensures forall i, j :: 0 <= i < tam + 2 && 0 <= j < tam + 2 ==>
      Idx(i, j, tam) < |tabulIn| && tabulIn[Idx(i, j, tam)] == if InGlider(i, j, 0) then 1 else 0
  {
    tabulIn := ZeroBoard(tam);
    tabulOut := ZeroBoard(tam);
    GliderWrites(tam);
    tabulIn := tabulIn[Idx(1, 2, tam) := 1][Idx(2, 3, tam) := 1];
    tabulIn := tabulIn[Idx(3, 1, tam) := 1][Idx(3, 2, tam) := 1];
    tabulIn := tabulIn[Idx(3, 3, tam) := 1];
    InitBoardCells(tam);
  }

  /** The starting board cell by cell: live exactly on the glider. */
  lemma InitBoardCells(tam: nat)
    ensures forall i, j :: 0 <= i < tam + 2 && 0 <= j < tam + 2 ==>
      Idx(i, j, tam) < |InitBoard(tam)| && InitBoard(tam)[Idx(i, j, tam)] == if InGlider(i, j, 0) then 1 else 0
  {
    forall i, j | 0 <= i < tam + 2 && 0 <= j < tam + 2
      ensures Idx(i, j, tam) < |InitBoard(tam)| && InitBoard(tam)[Idx(i, j, tam)] == if InGlider(i, j, 0) then 1 else 0
    {
      GliderBoardAt(tam, 0, i, j);
    }
  }

  /** The zeroing loop of `InitTabul`, one board at a time. */
  method ZeroBoard(tam: nat) returns (b: Board)
    ensures b == Zeros(tam)
  {
    b := [];
    var ij := 0;
    while ij < Cells(tam)
      invariant 0 <= ij <= Cells(tam)
      invariant |b| == ij && forall k :: 0 <= k < ij ==> b[k] == 0
    {
      b := b + [0];
      ij := ij + 1;
    }
  }

  // ---------------------------------------------------------------------------
  // The check
  // ---------------------------------------------------------------------------

  /** The condition `Correto` returns: five live cells in all, and the five cells of the
      glider that has travelled to the lower right corner are alive. */
  predicate IsCorrect(b: Board, tam: nat)
    requires |b| == Cells(tam) && tam >= 2
  {
    IdxRowCol(tam - 2, tam - 1, tam); IdxRowCol(tam - 1, tam, tam);
    IdxRowCol(tam, tam - 2, tam); IdxRowCol(tam, tam - 1, tam); IdxRowCol(tam, tam, tam);
    Sum(b) == 5
    && b[Idx(tam - 2, tam - 1, tam)] != 0 && b[Idx(tam - 1, tam, tam)] != 0
    && b[Idx(tam, tam - 2, tam)] != 0 && b[Idx(tam, tam - 1, tam)] != 0
    && b[Idx(tam, tam, tam)] != 0
  }

  /** `Correto`: the counting loop, then the five cell tests. The running count is a C
      `int`, so every partial sum must fit one. */
  method Correto(tabul: Board, tam: nat) returns (r: bool)
    requires tam >= 2 && |tabul| == Cells(tam) && SumFits(tabul)
    ensures r == IsCorrect(tabul, tam)
  {
    var cnt := 0;
    var ij := 0;
    while ij < Cells(tam)
      invariant 0 <= ij <= Cells(tam)
      invariant cnt == Sum(tabul[..ij])
    {
      assert tabul[..ij + 1][..ij] == tabul[..ij];
      cnt := cnt + tabul[ij];
      ij := ij + 1;
    }
    assert tabul[..ij] == tabul;
    IdxRowCol(tam - 2, tam - 1, tam); IdxRowCol(tam - 1, tam, tam);
    IdxRowCol(tam, tam - 2, tam); IdxRowCol(tam, tam - 1, tam); IdxRowCol(tam, tam, tam);
    r := cnt == 5 && tabul[Idx(tam - 2, tam - 1, tam)] != 0 && tabul[Idx(tam - 1, tam, tam)] != 0
      && tabul[Idx(tam, tam - 2, tam)] != 0 && tabul[Idx(tam, tam - 1, tam)] != 0
      && tabul[Idx(tam, tam, tam)] != 0;
  }

  lemma {:induction false} SumUpdate(s: seq<int>, k: nat, v: int)
    requires k < |s|
    ensures Sum(s[k := v]) == Sum(s) - s[k] + v
    decreases |s|
  {
    var t := s[k := v];
    if k < |s| - 1 {
      assert t[..|t| - 1] == s[..|s| - 1][k := v];
      SumUpdate(s[..|s| - 1], k, v);
    } else {
      assert t[..|t| - 1] == s[..|s| - 1];
    }
  }

  lemma {:induction false} SumZero(s: seq<int>)
    requires forall k :: 0 <= k < |s| ==> s[k] >= 0
    requires Sum(s) == 0
    ensures forall k :: 0 <= k < |s| ==> s[k] == 0
    decreases |s|
  {
    if |s| > 0 {
      var p := s[..|s| - 1];
      SumNonNegative(p);
      SumZero(p);
      forall k | 0 <= k < |s| ensures s[k] == 0 {
        if k < |s| - 1 { assert s[k] == p[k]; }
      }
    }
  }

  lemma {:induction false} SumNonNegative(s: seq<int>)
    requires forall k :: 0 <= k < |s| ==> s[k] >= 0
    ensures Sum(s) >= 0
    decreases |s|
  {
    if |s| > 0 {
      SumNonNegative(s[..|s| - 1]);
    }
  }

  lemma {:induction false} SumZeros(n: nat)
    ensures Sum(seq(n, _ => 0)) == 0
  {
    if n > 0 {
      assert seq(n, _ => 0)[..n - 1] == seq(n - 1, _ => 0);
      SumZeros(n - 1);
    }
  }

  /** The cells of a glider moved `d` cells, as array indices. */
  function GliderIndices(tam: nat, d: int): (ks: seq<nat>)
    requires -1 <= d <= tam - 3
    ensures |ks| == 5
    ensures forall m :: 0 <= m < 5 ==> ks[m] < Cells(tam)
  {
    IdxRowCol(1 + d, 2 + d, tam); IdxRowCol(2 + d, 3 + d, tam);
    IdxRowCol(3 + d, 1 + d, tam); IdxRowCol(3 + d, 2 + d, tam); IdxRowCol(3 + d, 3 + d, tam);
    [Idx(1 + d, 2 + d, tam), Idx(2 + d, 3 + d, tam), Idx(3 + d, 1 + d, tam),
     Idx(3 + d, 2 + d, tam), Idx(3 + d, 3 + d, tam)]
  }

  /** A cell belongs to the moved glider exactly when its index is one of those five. */
  lemma GliderIndicesAre(tam: nat, d: int, k: nat)
    requires -1 <= d <= tam - 3 && k < Cells(tam)
    ensures InGlider(Row(k, tam), Col(k, tam), d) <==> k in GliderIndices(tam, d)
  {
    RowColIdx(k, tam);
    var i, j := Row(k, tam), Col(k, tam);
    IdxInjective(i, j, 1 + d, 2 + d, tam); IdxInjective(i, j, 2 + d, 3 + d, tam);
    IdxInjective(i, j, 3 + d, 1 + d, tam); IdxInjective(i, j, 3 + d, 2 + d, tam);
    IdxInjective(i, j, 3 + d, 3 + d, tam);
  }

  predicate Distinct(ks: seq<nat>) {
    forall m, m' :: 0 <= m < m' < |ks| ==> ks[m] != ks[m']
  }

  lemma GliderIndicesDistinct(tam: nat, d: int)
    requires -1 <= d <= tam - 3
    ensures Distinct(GliderIndices(tam, d))
  {
    IdxInjective(1 + d, 2 + d, 2 + d, 3 + d, tam); IdxInjective(1 + d, 2 + d, 3 + d, 1 + d, tam);
    IdxInjective(1 + d, 2 + d, 3 + d, 2 + d, tam); IdxInjective(1 + d, 2 + d, 3 + d, 3 + d, tam);
    IdxInjective(2 + d, 3 + d, 3 + d, 1 + d, tam); IdxInjective(2 + d, 3 + d, 3 + d, 2 + d, tam);
    IdxInjective(2 + d, 3 + d, 3 + d, 3 + d, tam); IdxInjective(3 + d, 1 + d, 3 + d, 2 + d, tam);
    IdxInjective(3 + d, 1 + d, 3 + d, 3 + d, tam); IdxInjective(3 + d, 2 + d, 3 + d, 3 + d, tam);
  }

  /** The board with the cells at `ks` set to 0. */
  function Cleared(b: Board, ks: seq<nat>): (r: Board)
    requires forall m :: 0 <= m < |ks| ==> ks[m] < |b|
    ensures |r| == |b|
    ensures forall k :: 0 <= k < |b| ==> r[k] == if k in ks then 0 else b[k]
  {
    if |ks| == 0 then b else Cleared(b, ks[1..])[ks[0] := 0]
  }

  /** The values at `ks`, added up. */
  function SumAt(b: Board, ks: seq<nat>): int
    requires forall m :: 0 <= m < |ks| ==> ks[m] < |b|
  {
    if |ks| == 0 then 0 else b[ks[0]] + SumAt(b, ks[1..])
  }

  lemma {:induction false} ClearedSum(b: Board, ks: seq<nat>)
    requires forall m :: 0 <= m < |ks| ==> ks[m] < |b|
    requires Distinct(ks)
    ensures Sum(Cleared(b, ks)) == Sum(b) - SumAt(b, ks)
    decreases |ks|
  {
    if |ks| > 0 {
      var r := Cleared(b, ks[1..]);
      assert ks[0] !in ks[1..];
      assert r[ks[0]] == b[ks[0]];
      SumUpdate(r, ks[0], 0);
      ClearedSum(b, ks[1..]);
    }
  }

  lemma {:induction false} SumAtOnes(b: Board, ks: seq<nat>)
    requires forall m :: 0 <= m < |ks| ==> ks[m] < |b| && b[ks[m]] == 1
    ensures SumAt(b, ks) == |ks|
    decreases |ks|
  {
    if |ks| > 0 {
      SumAtOnes(b, ks[1..]);
    }
  }

  /** The board `Correto` expects: the glider moved `tam - 3` cells, into the lower right
      corner of the interior. */
  function FinalBoard(tam: nat): (b: Board)
    requires tam >= 2
    ensures |b| == Cells(tam) && Binary(b)
  {
    GliderBoard(tam, tam - 3)
  }

  /** The indices of its live cells, in the order `Correto` tests them. */
  function FinalIndices(tam: nat): (ks: seq<nat>)
    requires tam >= 2
    ensures |ks| == 5
    ensures forall m :: 0 <= m < 5 ==> ks[m] < Cells(tam)
  {
    GliderIndices(tam, tam - 3)
  }

  /** The final board has ones exactly at the final indices. */
  lemma FinalBoardCells(tam: nat)
    requires tam >= 2
    ensures Distinct(FinalIndices(tam))
    ensures forall k :: 0 <= k < Cells(tam) ==> FinalBoard(tam)[k] == if k in FinalIndices(tam) then 1 else 0
  {
    GliderIndicesDistinct(tam, tam - 3);
    forall k | 0 <= k < Cells(tam)
      ensures FinalBoard(tam)[k] == if k in FinalIndices(tam) then 1 else 0
    {
      GliderIndicesAre(tam, tam - 3, k);
    }
  }

  /** `IsCorrect` tests the final indices. */
  lemma IsCorrectAt(b: Board, tam: nat)
    requires |b| == Cells(tam) && tam >= 2
    ensures IsCorrect(b, tam) <==> Sum(b) == 5 && forall m :: 0 <= m < 5 ==> b[FinalIndices(tam)[m]] != 0
  {
    var ks := FinalIndices(tam);
    assert ks[0] == Idx(tam - 2, tam - 1, tam) && ks[1] == Idx(tam - 1, tam, tam);
    assert ks[2] == Idx(tam, tam - 2, tam) && ks[3] == Idx(tam, tam - 1, tam) && ks[4] == Idx(tam, tam, tam);
  }

  /** A board with non-negative cells, ones at `ks` and total `|ks|` is zero elsewhere. */
  lemma OnesOnly(b: Board, ks: seq<nat>)
    requires forall m :: 0 <= m < |ks| ==> ks[m] < |b| && b[ks[m]] == 1
    requires Distinct(ks) && Sum(b) == |ks|
    requires forall k :: 0 <= k < |b| ==> b[k] >= 0
    ensures forall k :: 0 <= k < |b| && k !in ks ==> b[k] == 0
  {
    SumAtOnes(b, ks);
    ClearedSum(b, ks);
    var r := Cleared(b, ks);
    SumZero(r);
    forall k | 0 <= k < |b| && k !in ks ensures b[k] == 0 {
      assert r[k] == b[k];
    }
  }

  /** A board that is one at `ks` and zero elsewhere adds up to `|ks|`. */
  lemma OnesSum(b: Board, ks: seq<nat>)
    requires forall k :: 0 <= k < |b| ==> b[k] == if k in ks then 1 else 0
    requires forall m :: 0 <= m < |ks| ==> ks[m] < |b|
    requires Distinct(ks)
    ensures Sum(b) == |ks|
  {
    SumAtOnes(b, ks);
    ClearedSum(b, ks);
    assert Cleared(b, ks) == seq(|b|, _ => 0);
    SumZeros(|b|);
  }

  /** A 0/1 board that passes the check is the moved glider. */
  lemma CorrectIsGlider(b: Board, tam: nat)
    requires |b| == Cells(tam) && tam >= 2 && Binary(b)
    requires IsCorrect(b, tam)
    ensures b == FinalBoard(tam)
  {
    var ks := FinalIndices(tam);
    FinalBoardCells(tam);
    IsCorrectAt(b, tam);
    OnesOnly(b, ks);
    assert forall k :: 0 <= k < |b| && k in ks ==> b[k] == 1;
  }

  /** The moved glider passes the check. */
  lemma GliderIsCorrect(tam: nat)
    requires tam >= 2
    ensures IsCorrect(FinalBoard(tam), tam)
  {
    FinalBoardCells(tam);
    OnesSum(FinalBoard(tam), FinalIndices(tam));
    IsCorrectAt(FinalBoard(tam), tam);
  }

  /** The reference for `Correto`: on a 0/1 board it answers yes exactly when the board
      holds nothing but the starting glider, moved `tam - 3` cells down and right into the
      lower right corner. */
  lemma CorrectIffShiftedGlider(b: Board, tam: nat)
    requires |b| == Cells(tam) && tam >= 2 && Binary(b)
    ensures IsCorrect(b, tam) <==> b == FinalBoard(tam)
  {
    if IsCorrect(b, tam) {
      CorrectIsGlider(b, tam);
    }
    if b == FinalBoard(tam) {
      GliderIsCorrect(tam);
    }
  }

  /** The starting board of the smallest size the engine accepts is not yet correct: with
      `tam = 2` no generation runs and the glider has not reached the corner. */
  lemma SmallestBoardIncorrect()
    ensures !IsCorrect(InitBoard(2), 2)
  {
    IdxRowCol(0, 1, 2);
    assert !InGlider(Row(Idx(0, 1, 2), 2), Col(Idx(0, 1, 2), 2), 0);
  }

  /** With `tam = 3` the glider needs no move: the starting board already passes. */
  lemma StartingBoardCorrectAtThree()
    ensures IsCorrect(InitBoard(3), 3)
  {
    assert InitBoard(3) == FinalBoard(3);
    GliderIsCorrect(3);
  }

  // ---------------------------------------------------------------------------
  // execute_game_of_life
  // ---------------------------------------------------------------------------

  /** One pass of the generation loop: `UmaVida(tabulIn, tabulOut)` then
      `UmaVida(tabulOut, tabulIn)`. The pair is `(tabulIn, tabulOut)`. */
  function Round(bin: Board, bout: Board, tam: nat): (r: (Board, Board))
    requires |bin| == Cells(tam) && |bout| == Cells(tam)
    ensures |r.0| == Cells(tam) && |r.1| == Cells(tam)
  {
    var o := NextBoard(bin, bout, tam);
    (NextBoard(o, bin, tam), o)
  }

  /** The boards after `n` passes. */
  function Evolve(bin: Board, bout: Board, tam: nat, n: nat): (r: (Board, Board))
    requires |bin| == Cells(tam) && |bout| == Cells(tam)
    ensures |r.0| == Cells(tam) && |r.1| == Cells(tam)
  {
    if n == 0 then (bin, bout)
    else
      var p := Evolve(bin, bout, tam, n - 1);
      Round(p.0, p.1, tam)
  }

  /** 0/1 boards stay 0/1 however many passes run. */
  lemma {:induction false} EvolveBinary(bin: Board, bout: Board, tam: nat, n: nat)
    requires |bin| == Cells(tam) && |bout| == Cells(tam) && Binary(bin) && Binary(bout)
    ensures Binary(Evolve(bin, bout, tam, n).0) && Binary(Evolve(bin, bout, tam, n).1)
  {
    if n > 0 {
      EvolveBinary(bin, bout, tam, n - 1);
      var p := Evolve(bin, bout, tam, n - 1);
      NextBoardBinary(p.0, p.1, tam);
      NextBoardBinary(NextBoard(p.0, p.1, tam), p.0, tam);
    }
  }

  /** The number of passes `for (i = 0; i < 2*(tam-3); i++)` makes: four generations per
      cell of glider travel, none when `tam <= 3`. */
  function Passes(tam: nat): nat {
    if tam > 3 then 2 * (tam - 3) else 0
  }

  /** `1 << pow`. */
  function Pow2(pow: nat): (r: nat)
    ensures r >= 1 && (pow >= 1 ==> r >= 2)
  {
    if pow == 0 then 1 else 2 * Pow2(pow - 1)
  }

  lemma {:induction false} Pow2Mono(a: nat, b: nat)
    requires a <= b
    ensures Pow2(a) <= Pow2(b)
    decreases b
  {
    if a < b {
      Pow2Mono(a, b - 1);
    }
  }

  lemma Pow2Bounds(pow: nat)
    requires 1 <= pow <= 15
    ensures 2 <= Pow2(pow) <= 32768
  {
    Pow2Mono(1, pow);
    Pow2Mono(pow, 15);
    assert Pow2(15) == 32768;
  }

  /** The board sizes the engine runs fit in a C `int`: `(32768 + 2)^2 < 2^31`. */
  lemma CellsFit(pow: nat)
    requires 1 <= pow <= 15
    ensures Pow2(pow) >= 2 && Cells(Pow2(pow)) <= INT_MAX
  {
    Pow2Bounds(pow);
    var w := Pow2(pow) + 2;
    MulMono(32770, w, w);
    MulMono(32770, w, 32770);
    assert w * w <= 32770 * 32770;
  }

  /** The verdict `execute_game_of_life` prints for size `tam = 1 << pow`: CORRETO exactly
      when `Correto` accepts the board left after the passes. */
  predicate SizeCorrect(pow: nat)
    requires 1 <= pow <= 15
  {
    BoardCorrect(Pow2(pow))
  }

  /** The verdict for board size `tam`. */
  predicate BoardCorrect(tam: nat)
    requires 2 <= tam
  {
    IsCorrect(Evolve(InitBoard(tam), Zeros(tam), tam, Passes(tam)).0, tam)
  }

  /** The same verdict in terms of the glider alone. */
  lemma SizeCorrectIsGlider(pow: nat)
    requires 1 <= pow <= 15
    ensures var tam := Pow2(pow);
      SizeCorrect(pow) <==> Evolve(InitBoard(tam), Zeros(tam), tam, Passes(tam)).0 == FinalBoard(tam)
  {
    var tam := Pow2(pow);
    CellsFit(pow);
    EvolveBinary(InitBoard(tam), Zeros(tam), tam, Passes(tam));
    CorrectIffShiftedGlider(Evolve(InitBoard(tam), Zeros(tam), tam, Passes(tam)).0, tam);
  }

  /** The sizes `2^1` and below never pass: `tam = 2` runs no generation. */
  lemma SizeTwoIncorrect()
    ensures !SizeCorrect(1)
  {
    assert Pow2(1) == 2 by { assert Pow2(0) == 1; }
    assert Passes(2) == 0;
    SmallestBoardIncorrect();
  }

  /** The simulation of one size: `InitTabul`, the passes, then `Correto` on `tabulIn`. */
  method RunSize(pow: nat) returns (correct: bool)
    requires 1 <= pow <= 15
    ensures correct == SizeCorrect(pow)
  {
    CellsFit(pow);
    var tam := Pow2(pow);
    var tabulIn, tabulOut := InitTabul(tam);
    var i := 0;
    while i < Passes(tam)
      invariant 0 <= i <= Passes(tam)
      invariant (tabulIn, tabulOut) == Evolve(InitBoard(tam), Zeros(tam), tam, i)
      invariant Binary(tabulIn) && Binary(tabulOut)
    {
      tabulIn, tabulOut := Pass(tabulIn, tabulOut, tam);
      i := i + 1;
    }
    BinarySumFits(tabulIn);
    correct := Correto(tabulIn, tam);
  }

  /** One pass of the loop in `execute_game_of_life`: `UmaVida(tabulIn, tabulOut)`, then
      `UmaVida(tabulOut, tabulIn)`. On 0/1 boards every neighbour sum fits an `int`. */
  method Pass(tabulIn: Board, tabulOut: Board, tam: nat) returns (nextIn: Board, nextOut: Board)
    requires |tabulIn| == Cells(tam) && |tabulOut| == Cells(tam)
    requires Binary(tabulIn) && Binary(tabulOut)
    ensures (nextIn, nextOut) == Round(tabulIn, tabulOut, tam)
    ensures Binary(nextIn) && Binary(nextOut)
  {
    BinaryNeighbourSumsFit(tabulIn, tam);
    nextOut := UmaVida(tabulIn, tabulOut, tam);
    NextBoardBinary(tabulIn, tabulOut, tam);
    BinaryNeighbourSumsFit(nextOut, tam);
    nextIn := UmaVida(nextOut, tabulIn, tam);
    NextBoardBinary(nextOut, tabulIn, tam);
  }

  /** `execute_game_of_life(powmin, powmax, …)`: the sizes `1 << pow` for every `pow` from
      `powmin` to `powmax` in turn; the result is 1 exactly when every size ends CORRETO, and
      also 1 for an empty range. `verdicts` lists the verdict of each size in order. A size
      below 2 writes outside the board and one above `2^15` overflows `(tam+2)*(tam+2)`, so
      a non-empty range must lie within 1..15. */
  method ExecuteGameOfLife(powmin: int, powmax: int) returns (success: bool, verdicts: seq<bool>)
    requires powmin > powmax || (1 <= powmin && powmax <= 15)
    ensures |verdicts| == if powmin <= powmax then powmax - powmin + 1 else 0
    ensures forall pow :: powmin <= pow <= powmax ==> verdicts[pow - powmin] == SizeCorrect(pow)
    ensures success <==> forall pow :: powmin <= pow <= powmax ==> SizeCorrect(pow)
  {
    success := true;
    verdicts := [];
    if powmin > powmax {
      return;
    }
    var pow := powmin;
    while pow <= powmax
      invariant powmin <= pow <= powmax + 1
      invariant |verdicts| == pow - powmin
      invariant forall p :: powmin <= p < pow ==> verdicts[p - powmin] == SizeCorrect(p)
      invariant success <==> forall p :: powmin <= p < pow ==> SizeCorrect(p)
    {
      var correct := RunSize(pow);
      verdicts := verdicts + [correct];
      if !correct {
        success := false;
      }
      pow := pow + 1;
    }
  }
}
