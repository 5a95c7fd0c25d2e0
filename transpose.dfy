/**
 The transpose of a fixed 3x3 grid of `i32` values. The grid is passed and
 returned by value; inside, a zero-initialised 3x3 buffer is filled cell by
 cell by two nested loops over the rows and the cells of each row.
 */
module Transpose {
  import opened Int32

  /** The fixed side length of every grid. */
  const N: nat := 3

  /** A grid as a value: a sequence of rows. */
  type Grid = seq<seq<I32>>

  /** Exactly N rows of exactly N cells. */
  predicate IsGrid(m: Grid) {
    |m| == N && forall i :: 0 <= i < N ==> |m[i]| == N
  }

  predicate InRange(i: int, j: int) {
    0 <= i < N && 0 <= j < N
  }

  /** The reference definition: row j, column i of the result is row i, column j of m. */
  function Transposed(m: Grid): (r: Grid)
    requires IsGrid(m)
    ensures IsGrid(r)
  {
    seq(N, j requires 0 <= j < N => seq(N, i requires 0 <= i < N => m[i][j]))
  }

  /** The cells of a grid in row-major order. */
  function Cells(m: Grid): (s: seq<I32>)
    requires IsGrid(m)
    ensures |s| == N * N
  {
    m[0] + m[1] + m[2]
  }

  /**
   The loop of the source. The input row `row` and its cell `x` are read as the
   enumerating iterators hand them out; every cell of the zero-initialised
   buffer is then written once. The ghost `writes` records the cells written,
   in order: it holds each of the N*N cells exactly once.
   */
  method Transpose(m: Grid) returns (t: Grid, ghost writes: seq<(int, int)>)
    requires IsGrid(m)
    ensures IsGrid(t)
    ensures t == Transposed(m)
    ensures |writes| == N * N
    ensures forall k, l :: 0 <= k < l < |writes| ==> writes[k] != writes[l]
    ensures forall r, c :: InRange(r, c) ==> (r, c) in writes
  {
    var buf := new I32[N, N]((_, _) => 0);
    writes := [];
    var i := 0;
    while i < N
      invariant 0 <= i <= N
      invariant forall r, c :: InRange(r, c) ==> buf[r, c] == if c < i then m[c][r] else 0
      invariant |writes| == N * i
      invariant forall k, l :: 0 <= k < l < |writes| ==> writes[k] != writes[l]
      invariant forall w :: w in writes ==> InRange(w.0, w.1)
      invariant forall r, c :: InRange(r, c) ==> ((r, c) in writes <==> c < i)
    {
      var row := m[i];
      var j := 0;
      while j < N
        invariant 0 <= j <= N
        invariant forall r, c :: InRange(r, c) ==>
          buf[r, c] == if c < i || (c == i && r < j) then m[c][r] else 0
        invariant |writes| == N * i + j
        invariant forall k, l :: 0 <= k < l < |writes| ==> writes[k] != writes[l]
        invariant forall w :: w in writes ==> InRange(w.0, w.1)
        invariant forall r, c :: InRange(r, c) ==> ((r, c) in writes <==> c < i || (c == i && r < j))
      {
        var x := row[j];
        buf[j, i] := x;
        writes := writes + [(j, i)];
        j := j + 1;
      }
      i := i + 1;
    }
    t := seq(N, r requires 0 <= r < N reads buf =>
                 seq(N, c requires 0 <= c < N reads buf => buf[r, c]));
    assert forall j :: 0 <= j < N ==> t[j] == Transposed(m)[j];
  }


  /** Row j, column i of the transpose is row i, column j of the input. */
  lemma TransposedCell(m: Grid, i: int, j: int)
    requires IsGrid(m) && InRange(i, j)
    ensures Transposed(m)[j][i] == m[i][j]
  {
  }

  /** The main diagonal is left in place. */
  lemma DiagonalFixed(m: Grid, i: int)
    requires IsGrid(m) && 0 <= i < N
    ensures Transposed(m)[i][i] == m[i][i]
  {
  }

  /** Transposing twice gives back the input. */
  lemma TransposeInvolution(m: Grid)
    requires IsGrid(m)
    ensures Transposed(Transposed(m)) == m
  {
    var tt := Transposed(Transposed(m));
    forall i | 0 <= i < N
      ensures tt[i] == m[i]
    {
      assert forall j :: 0 <= j < N ==> tt[i][j] == m[i][j];
    }
  }

  /** Exchanging two positions of a sequence keeps its multiset of values. */
  lemma SwapPreservesMultiset(s: seq<I32>, p: int, q: int)
    requires 0 <= p < q < |s|
    ensures multiset(s[p := s[q]][q := s[p]]) == multiset(s)
  {
  }

  /** The row-major cells of a grid, written out. */
  lemma CellsListed(m: Grid)
    requires IsGrid(m)
    ensures Cells(m) == [m[0][0], m[0][1], m[0][2], m[1][0], m[1][1], m[1][2], m[2][0], m[2][1], m[2][2]]
  {
  }

  /** The row-major cells of a transpose are the column-major cells of the input. */
  lemma TransposedCellsListed(m: Grid)
    requires IsGrid(m)
    ensures Cells(Transposed(m)) == [m[0][0], m[1][0], m[2][0], m[0][1], m[1][1], m[2][1], m[0][2], m[1][2], m[2][2]]
  {
  }

  /**
   No cell value is created, dropped or duplicated: in row-major order the
   transpose is the input with the three off-diagonal pairs exchanged.
   */
  lemma TransposePreservesCells(m: Grid)
    requires IsGrid(m)
    ensures multiset(Cells(Transposed(m))) == multiset(Cells(m))
  {
    CellsListed(m);
    TransposedCellsListed(m);
    var s0 := Cells(m);
    var s1 := s0[1 := s0[3]][3 := s0[1]];
    var s2 := s1[2 := s1[6]][6 := s1[2]];
    var s3 := s2[5 := s2[7]][7 := s2[5]];
    assert s3 == Cells(Transposed(m));
    SwapPreservesMultiset(s0, 1, 3);
    SwapPreservesMultiset(s1, 2, 6);
    SwapPreservesMultiset(s2, 5, 7);
  }

  /** A zero in the result comes from a zero at the mirrored input cell, never from the buffer's initial value. */
  lemma ZeroOnlyFromInput(m: Grid, i: int, j: int)
    requires IsGrid(m) && InRange(i, j)
    ensures Transposed(m)[j][i] == 0 <==> m[i][j] == 0
  {
  }

  /** The grid of the source's entry point and its transpose. */
  lemma ExampleGrid()
    ensures Transposed([[101, 102, 103], [201, 202, 203], [301, 302, 303]])
         == [[101, 201, 301], [102, 202, 302], [103, 203, 303]]
  {
    var t := Transposed([[101, 102, 103], [201, 202, 203], [301, 302, 303]]);
    assert t[0] == [101, 201, 301];
    assert t[1] == [102, 202, 302];
    assert t[2] == [103, 203, 303];
  }
}
