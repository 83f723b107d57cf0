// Model of the generator in src/matrix.c: a random nonsingular matrix built one outer product at a time.

/** `matrix_gen_nonsing`: whatever the random draws are, the matrix it builds is nonsingular. */
module MatrixGen {
  import opened BitUtil
  import opened Errors
  import opened Gf2
  import opened Matrix

  // ---------- the rows not yet selected ----------

  /** How many of the first `r` bits of the selection bitmap are clear. */
  function Rank(bmp: seq<byte>, r: nat): nat {
    if r == 0 then 0 else Rank(bmp, r - 1) + (if BitAt(bmp, r - 1) then 0 else 1)
  }

  lemma {:induction false} RankMonotone(bmp: seq<byte>, r: nat, s: nat)
    requires r <= s
    ensures Rank(bmp, r) <= Rank(bmp, s)
    ensures Rank(bmp, r) == Rank(bmp, s) ==> forall k :: r <= k < s ==> BitAt(bmp, k)
  {
    if r < s {
      RankMonotone(bmp, r, s - 1);
    }
  }

  /** Every rank below the total belongs to an unselected row. */
  lemma {:induction false} RankOnto(bmp: seq<byte>, n: nat, t: nat) returns (r: nat)
    requires t < Rank(bmp, n)
    ensures r < n && !BitAt(bmp, r) && Rank(bmp, r) == t
  {
    if t == Rank(bmp, n - 1) {
      r := n - 1;
    } else {
      r := RankOnto(bmp, n - 1, t);
    }
  }

  lemma {:induction false} RankAfterSelect(bmp: seq<byte>, bmp': seq<byte>, p: nat, n: nat)
    requires !BitAt(bmp, p)
    requires forall k :: 0 <= k < n ==> BitAt(bmp', k) == (k == p || BitAt(bmp, k))
    ensures Rank(bmp', n) == Rank(bmp, n) - (if p < n then 1 else 0)
  {
    if n > 0 {
      RankAfterSelect(bmp, bmp', p, n - 1);
    }
  }

  lemma {:induction false} RankOfClear(bmp: seq<byte>, n: nat)
    requires forall k :: 0 <= k < n ==> !BitAt(bmp, k)
    ensures Rank(bmp, n) == n
  {
    if n > 0 {
      RankOfClear(bmp, n - 1);
    }
  }

  // ---------- one step of the generator ----------

  /** The column a step adds: the bits of `c` handed out to the unselected rows in order. */
  function Scatter(bmp: seq<byte>, c: seq<byte>, n: nat): (col: Vec)
    ensures |col| == n
  {
    seq(n, r requires 0 <= r => !BitAt(bmp, r) && BitAt(c, Rank(bmp, r)))
  }

  /** The row a step adds: zeros, a one in column `j`, then the bits of `b`. */
  function Tail(b: seq<byte>, j: nat, n: nat): (row: Vec)
    ensures |row| == n
  {
    seq(n, k => if k <= j then k == j else BitAt(b, k - j - 1))
  }

  lemma TailAt(b: seq<byte>, j: nat, n: nat)
    requires j < n
    ensures forall k :: 0 <= k < n && k <= j ==> Tail(b, j, n)[k] == (k == j)
    ensures forall k :: j < k < n ==> Tail(b, j, n)[k] == BitAt(b, k - j - 1)
  {}

  /** `m` plus the outer product of `col` and `row`, in the cells the loops have reached at (i, k). */
  function OuterUpTo(m: Mat, col: Vec, row: Vec, i: int, k: int, n: nat): (t: Mat)
    ensures IsMat(t, n)
  {
    seq(n, r => OuterRow(m, col, row, i, k, r, n))
  }

  function OuterRow(m: Mat, col: Vec, row: Vec, i: int, k: int, r: int, n: nat): (t: Vec)
    ensures |t| == n
  {
    seq(n, c => E(m, r, c) != ((r < i || (r == i && c < k)) && At(col, r) && At(row, c)))
  }

  /** Adds `x` to one entry. */
  function Bump(m: Mat, row: nat, col: nat, x: bool): Mat
    requires row < |m| && col < |m[row]|
  {
    SetEntry(m, row, col, m[row][col] != x)
  }

  lemma OuterEntry(m: Mat, col: Vec, row: Vec, i: int, k: int, r: nat, c: nat, n: nat)
    requires IsMat(m, n) && |col| == |row| == n && r < n && c < n
    ensures OuterUpTo(m, col, row, i, k, n)[r][c] == (m[r][c] != ((r < i || (r == i && c < k)) && col[r] && row[c]))
  {
    assert E(m, r, c) == m[r][c];
  }

  lemma OuterEntries(m: Mat, col: Vec, row: Vec, i: int, k: int, n: nat)
    requires IsMat(m, n) && |col| == |row| == n
    ensures forall r, c :: 0 <= r < n && 0 <= c < n ==>
      OuterUpTo(m, col, row, i, k, n)[r][c] == (m[r][c] != ((r < i || (r == i && c < k)) && col[r] && row[c]))
  {
    forall r, c | 0 <= r < n && 0 <= c < n
      ensures OuterUpTo(m, col, row, i, k, n)[r][c] == (m[r][c] != ((r < i || (r == i && c < k)) && col[r] && row[c]))
    {
      OuterEntry(m, col, row, i, k, r, c, n);
    }
  }

  lemma OuterZero(m: Mat, col: Vec, row: Vec, n: nat)
    requires IsMat(m, n) && |col| == |row| == n
    ensures OuterUpTo(m, col, row, 0, 0, n) == m
  {
    OuterEntries(m, col, row, 0, 0, n);
    MatExt(OuterUpTo(m, col, row, 0, 0, n), m, n);
  }

  lemma OuterLead(m: Mat, col: Vec, row: Vec, i: nat, j: nat, n: nat)
    requires IsMat(m, n) && |col| == |row| == n && i < n && j < n && col[i]
    requires forall k :: 0 <= k < n && k <= j ==> row[k] == (k == j)
    ensures Bump(OuterUpTo(m, col, row, i, 0, n), i, j, true) == OuterUpTo(m, col, row, i, j + 1, n)
  {
    var t, t' := Bump(OuterUpTo(m, col, row, i, 0, n), i, j, true), OuterUpTo(m, col, row, i, j + 1, n);
    forall r, c | 0 <= r < n && 0 <= c < n ensures t[r][c] == t'[r][c] {
      OuterEntry(m, col, row, i, 0, r, c, n);
      OuterEntry(m, col, row, i, j + 1, r, c, n);
    }
    MatExt(t, t', n);
  }

  lemma OuterCell(m: Mat, col: Vec, row: Vec, i: nat, k: nat, n: nat)
    requires IsMat(m, n) && |col| == |row| == n && i < n && k < n && col[i]
    ensures Bump(OuterUpTo(m, col, row, i, k, n), i, k, row[k]) == OuterUpTo(m, col, row, i, k + 1, n)
  {
    var t, t' := Bump(OuterUpTo(m, col, row, i, k, n), i, k, row[k]), OuterUpTo(m, col, row, i, k + 1, n);
    forall r, c | 0 <= r < n && 0 <= c < n ensures t[r][c] == t'[r][c] {
      OuterEntry(m, col, row, i, k, r, c, n);
      OuterEntry(m, col, row, i, k + 1, r, c, n);
    }
    MatExt(t, t', n);
  }

  /** A finished row is the start of the next one, and so is a run of rows the column leaves alone. */
  lemma OuterSkip(m: Mat, col: Vec, row: Vec, i: nat, i': nat, n: nat)
    requires IsMat(m, n) && |col| == |row| == n && i <= i' <= n
    requires forall r :: i <= r < i' ==> !col[r]
    ensures OuterUpTo(m, col, row, i, 0, n) == OuterUpTo(m, col, row, i', 0, n)
    ensures OuterUpTo(m, col, row, i, n, n) == OuterUpTo(m, col, row, i + 1, 0, n)
  {
    OuterEntries(m, col, row, i, 0, n);
    OuterEntries(m, col, row, i', 0, n);
    OuterEntries(m, col, row, i, n, n);
    OuterEntries(m, col, row, i + 1, 0, n);
    MatExt(OuterUpTo(m, col, row, i, 0, n), OuterUpTo(m, col, row, i', 0, n), n);
    MatExt(OuterUpTo(m, col, row, i, n, n), OuterUpTo(m, col, row, i + 1, 0, n), n);
  }

  /** `p` is the first one of `col`, or -1 when there is none among the first `i`. */
  ghost predicate FirstOne(col: Vec, p: int, i: nat) {
    && i <= |col|
    && (p == -1 ==> forall r :: 0 <= r < i ==> !col[r])
    && (p != -1 ==> 0 <= p < i && col[p] && forall r :: 0 <= r < p ==> !col[r])
  }

  /** `bmp` is `bmp0` with row `pivot` selected as well (no row when `pivot` is -1). */
  ghost predicate Selected(bmp0: seq<byte>, bmp: seq<byte>, pivot: int, n: nat) {
    |bmp| == |bmp0| && forall r :: 0 <= r < n ==> BitAt(bmp, r) == (r == pivot || BitAt(bmp0, r))
  }

  /** The inner search: moves past the selected rows. It stops because an unselected row is left. */
  method SkipSelected(bmp: array<byte>, from: nat, dim: nat, ghost bmp0: seq<byte>, ghost pivot: int) returns (idx: nat)
    requires dim <= 8 * bmp.Length && from <= dim && pivot < from
    requires Selected(bmp0, bmp[..], pivot, dim)
    requires Rank(bmp0, from) < Rank(bmp0, dim)
    ensures from <= idx < dim && !BitAt(bmp0, idx) && Rank(bmp0, idx) == Rank(bmp0, from)
    ensures forall r :: from <= r < idx ==> BitAt(bmp0, r)
  {
    idx := from;
    while GetBit(bmp[..], idx)
      invariant from <= idx < dim && Rank(bmp0, idx) == Rank(bmp0, from)
      invariant forall r :: from <= r < idx ==> BitAt(bmp0, r)
      decreases dim - idx
    {
      idx := idx + 1;
    }
  }

  /** Sets the selection bit of the first row that receives a one. */
  method Select(bmp: array<byte>, row: nat, dim: nat, ghost bmp0: seq<byte>)
    requires row < dim <= 8 * bmp.Length && Selected(bmp0, bmp[..], -1, dim)
    modifies bmp
    ensures Selected(bmp0, bmp[..], row, dim)
  {
    SetBit(bmp, row, true);
    forall r | 0 <= r < dim ensures BitAt(bmp[..], r) == (r == row || BitAt(bmp0, r)) {
      assert BitAt(old(bmp[..]), r) == BitAt(bmp0, r);
    }
  }

  lemma ScatterAt(bmp: seq<byte>, c: seq<byte>, i: nat, i': nat, dim: nat)
    requires i <= i' < dim && !BitAt(bmp, i') && (forall r :: i <= r < i' ==> BitAt(bmp, r)) && Rank(bmp, i') < 8 * |c|
    ensures forall r :: i <= r < i' ==> !Scatter(bmp, c, dim)[r]
    ensures Scatter(bmp, c, dim)[i'] == GetBit(c, Rank(bmp, i'))
  {}

  lemma ScatterEnd(bmp: seq<byte>, c: seq<byte>, i: nat, dim: nat)
    requires i <= dim && Rank(bmp, i) == Rank(bmp, dim)
    ensures forall r :: i <= r < dim ==> !Scatter(bmp, c, dim)[r]
  {
    RankMonotone(bmp, i, dim);
  }

  /**
   * One step: the matrix gains the outer product of the scattered `c` and the row (1, b), and the first row
   * that got a one is marked as selected. Exactly `dim - currDim` rows are unselected on entry, which is why
   * the inner search always stops before row `dim`.
   */
  method GenNonsingDim(matrix: array<byte>, b: seq<byte>, c: seq<byte>, dim: nat, currDim: nat, bmp: array<byte>)
    returns (ghost pivot: int)
    requires Fits(matrix.Length, dim) && currDim < dim <= 8 * bmp.Length && matrix != bmp
    requires dim - currDim <= 8 * |c| && dim - currDim - 1 <= 8 * |b|
    requires Rank(bmp[..], dim) == dim - currDim
    modifies matrix, bmp
    ensures View(matrix[..], dim) ==
            OuterUpTo(old(View(matrix[..], dim)), Scatter(old(bmp[..]), c, dim), Tail(b, currDim, dim), dim, 0, dim)
    ensures FirstOne(Scatter(old(bmp[..]), c, dim), pivot, dim)
    ensures Selected(old(bmp[..]), bmp[..], pivot, dim)
  {
    hide View, OuterUpTo, Tail, Scatter, Rank, BitAt, Selected;
    var n := dim - currDim;
    var idxInMinor, idxInMat := 0, 0;
    var foundNonzeroBit := false;

    ghost var m0, bmp0 := View(matrix[..], dim), bmp[..];
    ghost var col, row := Scatter(bmp0, c, dim), Tail(b, currDim, dim);
    pivot := -1;
    StepStarts(m0, bmp0, c, b, currDim, dim);

    while idxInMinor < n
      invariant idxInMinor <= n && idxInMat <= dim && idxInMinor == Rank(bmp0, idxInMat)
      invariant foundNonzeroBit == (pivot != -1) && FirstOne(col, pivot, idxInMat)
      invariant Selected(bmp0, bmp[..], pivot, dim)
      invariant View(matrix[..], dim) == OuterUpTo(m0, col, row, idxInMat, 0, dim)
      decreases n - idxInMinor
    {
      ghost var start := idxInMat;
      idxInMat := SkipSelected(bmp, idxInMat, dim, bmp0, pivot);
      ScatterAt(bmp0, c, start, idxInMat, dim);
      OuterSkip(m0, col, row, start, idxInMat, dim);

      var cValue := GetBit(c, idxInMinor);
      if cValue {
        if !foundNonzeroBit {
          foundNonzeroBit := true;
          pivot := idxInMat;
          Select(bmp, idxInMat, dim, bmp0);
        }
        AddRowTimes(matrix, b, dim, currDim, idxInMat, m0, col);
      } else {
        OuterSkip(m0, col, row, idxInMat, idxInMat + 1, dim);
      }
      RankNext(bmp0, idxInMat);
      idxInMinor, idxInMat := idxInMinor + 1, idxInMat + 1;
    }
    ScatterEnd(bmp0, c, idxInMat, dim);
    OuterSkip(m0, col, row, idxInMat, dim, dim);
  }

  lemma RankNext(bmp: seq<byte>, r: nat)
    requires !BitAt(bmp, r)
    ensures Rank(bmp, r + 1) == Rank(bmp, r) + 1
  {}

  lemma StepStarts(m: Mat, bmp: seq<byte>, c: seq<byte>, b: seq<byte>, j: nat, dim: nat)
    requires IsMat(m, dim) && j < dim
    ensures OuterUpTo(m, Scatter(bmp, c, dim), Tail(b, j, dim), 0, 0, dim) == m
    ensures Rank(bmp, 0) == 0 && Selected(bmp, bmp, -1, dim)
  {
    OuterZero(m, Scatter(bmp, c, dim), Tail(b, j, dim), dim);
  }

  /** The two additions made to one row: a one in column `currDim`, then the bits of `b`. */
  method AddRowTimes(matrix: array<byte>, b: seq<byte>, dim: nat, currDim: nat, r: nat, ghost m0: Mat, ghost col: Vec)
    requires Fits(matrix.Length, dim) && currDim < dim && r < dim && dim - currDim - 1 <= 8 * |b|
    requires IsMat(m0, dim) && |col| == dim && col[r]
    requires View(matrix[..], dim) == OuterUpTo(m0, col, Tail(b, currDim, dim), r, 0, dim)
    modifies matrix
    ensures View(matrix[..], dim) == OuterUpTo(m0, col, Tail(b, currDim, dim), r + 1, 0, dim)
  {
    hide View, OuterUpTo, Tail;
    TailAt(b, currDim, dim);
    ghost var row := Tail(b, currDim, dim);
    OuterLead(m0, col, row, r, currDim, dim);
    MatrixElemAdd(matrix, r, currDim, true, dim);
    for i := 0 to dim - currDim - 1
      invariant View(matrix[..], dim) == OuterUpTo(m0, col, row, r, currDim + 1 + i, dim)
    {
      OuterCell(m0, col, row, r, currDim + 1 + i, dim);
      MatrixElemAdd(matrix, r, currDim + i + 1, GetBit(b, i), dim);
    }
    OuterSkip(m0, col, row, r, r, dim);
  }

  // ---------- why the result is nonsingular ----------

  /**
   * The invariant of the generator: after `t` steps the matrix is the sum of `t` outer products whose rows are
   * unit upper triangular and whose columns, read at the selected rows, are unit lower triangular.
   */
  ghost predicate Factored(m: Mat, cols: seq<Vec>, rows: seq<Vec>, pivots: seq<nat>, t: nat, n: nat) {
    && IsMat(m, n) && |cols| == |rows| == |pivots| == t
    && (forall i, k :: 0 <= i < n && 0 <= k < n ==> m[i][k] == Sum(s => E(cols, s, i) && E(rows, s, k), t))
    && (forall s, k :: 0 <= s < t && 0 <= k <= s ==> E(rows, s, k) == (k == s))
    && (forall s :: 0 <= s < t ==> pivots[s] < n && E(cols, s, pivots[s]))
    && (forall s, s' :: 0 <= s < s' < t ==> !E(cols, s', pivots[s]))
  }

  function ColDot(cols: seq<Vec>, w: int -> bool, i: int, n: nat): bool {
    Sum(s => E(cols, s, i) && w(s), n)
  }

  function RowDot(rows: seq<Vec>, v: Vec, s: int, n: nat): bool {
    Sum(k => E(rows, s, k) && At(v, k), n)
  }

  /** C w = 0 forces w = 0, from the first selected row on. */
  lemma {:induction false} ColumnsIndependent(cols: seq<Vec>, pivots: seq<nat>, w: int -> bool, t: nat, n: nat)
    requires |cols| == |pivots| == n && t <= n
    requires forall s :: 0 <= s < n ==> E(cols, s, pivots[s])
    requires forall s, s' :: 0 <= s < s' < n ==> !E(cols, s', pivots[s])
    requires forall s :: 0 <= s < n ==> !ColDot(cols, w, pivots[s], n)
    ensures forall s :: 0 <= s < t ==> !w(s)
  {
    if t > 0 {
      ColumnsIndependent(cols, pivots, w, t - 1, n);
      SumSingle(s => E(cols, s, pivots[t - 1]) && w(s), n, t - 1);
      assert !ColDot(cols, w, pivots[t - 1], n);
    }
  }

  /** U v = 0 forces v = 0, from the last row back. */
  lemma {:induction false} RowsIndependent(rows: seq<Vec>, v: Vec, t: nat, n: nat)
    requires |rows| == |v| == n && t <= n
    requires forall s, k :: 0 <= s < n && 0 <= k <= s ==> E(rows, s, k) == (k == s)
    requires forall s :: 0 <= s < n ==> !RowDot(rows, v, s, n)
    ensures forall k :: t <= k < n ==> !v[k]
    decreases n - t
  {
    if t < n {
      RowsIndependent(rows, v, t + 1, n);
      SumSingle(k => E(rows, t, k) && At(v, k), n, t);
      assert !RowDot(rows, v, t, n);
    }
  }

  /** M v = C (U v), row by row. */
  lemma FactoredApply(m: Mat, cols: seq<Vec>, rows: seq<Vec>, pivots: seq<nat>, v: Vec, w: int -> bool, i: nat, n: nat)
    requires Factored(m, cols, rows, pivots, n, n) && i < n
    requires forall s :: 0 <= s < n ==> w(s) == RowDot(rows, v, s, n)
    ensures Dot(Row(m, i), v, n) == ColDot(cols, w, i, n)
  {
    var a, b, c := s => E(cols, s, i), (s: int, k: int) => E(rows, s, k), k => At(v, k);
    var ab, bc := k => E(m, i, k), w;
    forall k | 0 <= k < n ensures ab(k) == Sum(s => a(s) && b(s, k), n) {
      SumExt(s => E(cols, s, i) && E(rows, s, k), s => a(s) && b(s, k), n);
    }
    forall s | 0 <= s < n ensures bc(s) == Sum(k => b(s, k) && c(k), n) {
      SumExt(k => E(rows, s, k) && At(v, k), k => b(s, k) && c(k), n);
    }
    TripleProduct(a, b, c, ab, bc, n, n);
    SumExt(k => ab(k) && c(k), k => At(Row(m, i), k) && At(v, k), n);
    SumExt(s => a(s) && bc(s), s => E(cols, s, i) && w(s), n);
  }

  lemma FactoredIsNonsingular(m: Mat, cols: seq<Vec>, rows: seq<Vec>, pivots: seq<nat>, n: nat)
    requires Factored(m, cols, rows, pivots, n, n)
    ensures Nonsingular(m, n)
  {
    forall v: Vec | |v| == n && Apply(m, v, n) == Zero(n) ensures v == Zero(n) {
      var w := s => RowDot(rows, v, s, n);
      forall s | 0 <= s < n ensures !ColDot(cols, w, pivots[s], n) {
        FactoredApply(m, cols, rows, pivots, v, w, pivots[s], n);
        assert !Apply(m, v, n)[pivots[s]];
      }
      ColumnsIndependent(cols, pivots, w, n, n);
      forall s | 0 <= s < n ensures !RowDot(rows, v, s, n) {
        assert !w(s);
      }
      RowsIndependent(rows, v, 0, n);
    }
  }

  lemma FactoredStep(m: Mat, cols: seq<Vec>, rows: seq<Vec>, pivots: seq<nat>, col: Vec, row: Vec, pivot: nat, t: nat,
                     n: nat)
    requires Factored(m, cols, rows, pivots, t, n) && t < n && |col| == |row| == n
    requires forall k :: 0 <= k <= t ==> row[k] == (k == t)
    requires pivot < n && col[pivot]
    requires forall s :: 0 <= s < t ==> !col[pivots[s]]
    ensures Factored(OuterUpTo(m, col, row, n, 0, n), cols + [col], rows + [row], pivots + [pivot], t + 1, n)
  {
    var m', cols', rows' := OuterUpTo(m, col, row, n, 0, n), cols + [col], rows + [row];
    forall i, k | 0 <= i < n && 0 <= k < n
      ensures m'[i][k] == Sum(s => E(cols', s, i) && E(rows', s, k), t + 1)
    {
      SumExt(s => E(cols, s, i) && E(rows, s, k), s => E(cols', s, i) && E(rows', s, k), t);
    }
    forall s, k | 0 <= s < t + 1 && 0 <= k <= s ensures E(rows', s, k) == (k == s) {
      if s < t {
        assert E(rows, s, k) == (k == s);
      }
    }
    forall s, s' | 0 <= s < s' < t + 1 ensures !E(cols', s', (pivots + [pivot])[s]) {
      if s' < t {
        assert !E(cols, s', pivots[s]);
      }
    }
  }

  /**
   * One successful draw of the random source: the bytes of `b`, and those of `c`, not all of whose first bits
   * are zero.
   */
  datatype Draw = Draw(b: seq<byte>, c: seq<byte>)

  predicate HasNonzero(c: seq<byte>, n: nat) {
    exists t :: 0 <= t < n && BitAt(c, t)
  }

  /** What the random source delivers for step `j` of dimension `dim`, when it delivers. */
  predicate GoodDraw(d: Result<Draw>, j: nat, dim: nat) {
    d.Ok? && j < dim ==>
      8 * |d.value.b| >= dim - j - 1 && 8 * |d.value.c| >= dim - j && HasNonzero(d.value.c, dim - j)
  }

  // ---------- what the matrix has to do with the draws ----------

  /** How many of the first `r` rows are not among those selected. */
  function FreeBelow(pivots: seq<nat>, r: nat): nat {
    if r == 0 then 0 else FreeBelow(pivots, r - 1) + (if r - 1 in pivots then 0 else 1)
  }

  /** The bits of `c`, in order, for the rows that are not selected yet; zeros for the others. */
  function HandOut(pivots: seq<nat>, c: seq<byte>, n: nat): (col: Vec)
    ensures |col| == n
  {
    seq(n, r requires 0 <= r => r !in pivots && BitAt(c, FreeBelow(pivots, r)))
  }

  /**
   * The factors of step `s` are those of the draw: the row is a one in column `s` followed by the bits of `b`, and
   * the column has the bits of `c` in the rows not selected before and selects the first row with a one.
   */
  ghost predicate FromDraw(d: Result<Draw>, col: Vec, row: Vec, before: seq<nat>, pivot: int, s: nat, n: nat) {
    d.Ok? && row == Tail(d.value.b, s, n) && col == HandOut(before, d.value.c, n) && FirstOne(col, pivot, n)
  }

  /** The factors of the first `t` steps are those of the draws. */
  ghost predicate Follows(draws: seq<Result<Draw>>, cols: seq<Vec>, rows: seq<Vec>, pivots: seq<nat>, t: nat, n: nat) {
    && t <= |draws| && |cols| == |rows| == |pivots| == t
    && forall s :: 0 <= s < t ==> FromDraw(draws[s], cols[s], rows[s], pivots[..s], pivots[s], s, n)
  }

  /** The matrix is the sum of the outer products that the draws stand for. */
  ghost predicate Generates(draws: seq<Result<Draw>>, m: Mat, n: nat) {
    exists cols: seq<Vec>, rows: seq<Vec>, pivots: seq<nat> ::
      Factored(m, cols, rows, pivots, n, n) && Follows(draws, cols, rows, pivots, n, n)
  }

  ghost predicate SelectedAre(bmp: seq<byte>, pivots: seq<nat>, n: nat) {
    forall r :: 0 <= r < n ==> (BitAt(bmp, r) <==> r in pivots)
  }

  lemma {:induction false} RankIsFree(bmp: seq<byte>, pivots: seq<nat>, r: nat, n: nat)
    requires SelectedAre(bmp, pivots, n) && r <= n
    ensures Rank(bmp, r) == FreeBelow(pivots, r)
  {
    if r > 0 {
      RankIsFree(bmp, pivots, r - 1, n);
    }
  }

  lemma ScatterIsHandOut(bmp: seq<byte>, pivots: seq<nat>, c: seq<byte>, n: nat)
    requires SelectedAre(bmp, pivots, n)
    ensures Scatter(bmp, c, n) == HandOut(pivots, c, n)
  {
    forall r | 0 <= r < n ensures Scatter(bmp, c, n)[r] == HandOut(pivots, c, n)[r] {
      RankIsFree(bmp, pivots, r, n);
    }
  }

  lemma FollowsNext(draws: seq<Result<Draw>>, bmp: seq<byte>, bmp': seq<byte>, cols: seq<Vec>, rows: seq<Vec>,
                    pivots: seq<nat>, pivot: nat, t: nat, n: nat)
    requires Follows(draws, cols, rows, pivots, t, n) && t < |draws| && draws[t].Ok? && SelectedAre(bmp, pivots, n)
    requires FirstOne(Scatter(bmp, draws[t].value.c, n), pivot, n) && Selected(bmp, bmp', pivot, n)
    ensures Follows(draws, cols + [Scatter(bmp, draws[t].value.c, n)], rows + [Tail(draws[t].value.b, t, n)],
                    pivots + [pivot], t + 1, n)
    ensures SelectedAre(bmp', pivots + [pivot], n)
  {
    hide FirstOne, Tail, HandOut, Scatter, Follows, BitAt;
    ScatterIsHandOut(bmp, pivots, draws[t].value.c, n);
    FollowsMore(draws, cols, rows, pivots, HandOut(pivots, draws[t].value.c, n), Tail(draws[t].value.b, t, n), pivot,
                t, n);
  }

  lemma FollowsMore(draws: seq<Result<Draw>>, cols: seq<Vec>, rows: seq<Vec>, pivots: seq<nat>, col: Vec, row: Vec,
                    pivot: nat, t: nat, n: nat)
    requires Follows(draws, cols, rows, pivots, t, n) && t < |draws|
    requires FromDraw(draws[t], col, row, pivots, pivot, t, n)
    ensures Follows(draws, cols + [col], rows + [row], pivots + [pivot], t + 1, n)
  {
    hide FromDraw;
    var cols', rows', pivots' := cols + [col], rows + [row], pivots + [pivot];
    forall s | 0 <= s < t + 1 ensures FromDraw(draws[s], cols'[s], rows'[s], pivots'[..s], pivots'[s], s, n) {
      assert pivots'[..s] == if s < t then pivots[..s] else pivots;
    }
  }

  /**
   * Every outcome of the random source gives the matrix that its draws stand for, which is nonsingular, or the
   * source's own failure.
   */
  method MatrixGenNonsing(matrix: array<byte>, dim: nat, draws: seq<Result<Draw>>) returns (ret: Status)
    requires Fits(matrix.Length, dim) && |draws| == dim
    requires forall j :: 0 <= j < dim ==> GoodDraw(draws[j], j, dim)
    modifies matrix
    ensures ret == if exists j :: 0 <= j < dim && draws[j].Err? then Failed(EIO) else Done
    ensures ret == Done ==> Generates(draws, View(matrix[..], dim), dim) && Nonsingular(View(matrix[..], dim), dim)
  {
    hide View, OuterUpTo, Tail, Scatter, Rank, BitAt, Factored, Nonsingular, Follows, SelectedAre;
    ClearMatrix(matrix, dim);
    var bmp := new byte[RoundToBytes(dim)](_ => ZERO_BYTE);
    EmptyFactors(View(matrix[..], dim), bmp[..], dim);

    ghost var cols: seq<Vec>, rows: seq<Vec>, pivots: seq<nat> := [], [], [];
    FollowsNothing(draws, bmp[..], dim);
    for j := 0 to dim
      invariant forall k :: 0 <= k < j ==> draws[k].Ok?
      invariant Factored(View(matrix[..], dim), cols, rows, pivots, j, dim)
      invariant Rank(bmp[..], dim) == dim - j
      invariant AllSelected(bmp[..], pivots) && SelectedAre(bmp[..], pivots, dim)
      invariant Follows(draws, cols, rows, pivots, j, dim)
    {
      if draws[j].Err? {
        return Failed(EIO);
      }
      assert GoodDraw(draws[j], j, dim);
      var d := draws[j].value;
      ghost var m0, bmp0 := View(matrix[..], dim), bmp[..];
      ghost var pivot := GenNonsingDim(matrix, d.b, d.c, dim, j, bmp);
      pivot := StepKeepsFactors(m0, bmp0, bmp[..], d, cols, rows, pivots, pivot, j, dim);
      FollowsNext(draws, bmp0, bmp[..], cols, rows, pivots, pivot, j, dim);
      cols, rows, pivots := cols + [Scatter(bmp0, d.c, dim)], rows + [Tail(d.b, j, dim)], pivots + [pivot];
    }
    FactoredIsNonsingular(View(matrix[..], dim), cols, rows, pivots, dim);
    return Done;
  }

  lemma FollowsNothing(draws: seq<Result<Draw>>, bmp: seq<byte>, n: nat)
    requires forall k :: 0 <= k < |bmp| ==> bmp[k] == ZERO_BYTE
    ensures Follows(draws, [], [], [], 0, n) && SelectedAre(bmp, [], n)
  {}

  ghost predicate AllSelected(bmp: seq<byte>, pivots: seq<nat>) {
    forall s :: 0 <= s < |pivots| ==> BitAt(bmp, pivots[s])
  }

  lemma EmptyFactors(m: Mat, bmp: seq<byte>, n: nat)
    requires IsMat(m, n) && (forall r, c :: 0 <= r < n && 0 <= c < n ==> !m[r][c])
    requires forall k :: 0 <= k < |bmp| ==> bmp[k] == ZERO_BYTE
    ensures Factored(m, [], [], [], 0, n) && Rank(bmp, n) == n
  {
    RankOfClear(bmp, n);
  }

  /** One step of the generator keeps the factorisation and leaves one row less to select. */
  lemma StepKeepsFactors(m: Mat, bmp: seq<byte>, bmp': seq<byte>, d: Draw, cols: seq<Vec>, rows: seq<Vec>,
                         pivots: seq<nat>, pivot: int, t: nat, n: nat) returns (p: nat)
    requires Factored(m, cols, rows, pivots, t, n) && t < n && Rank(bmp, n) == n - t && AllSelected(bmp, pivots)
    requires HasNonzero(d.c, n - t) && FirstOne(Scatter(bmp, d.c, n), pivot, n) && Selected(bmp, bmp', pivot, n)
    ensures p == pivot
    ensures Factored(OuterUpTo(m, Scatter(bmp, d.c, n), Tail(d.b, t, n), n, 0, n),
                     cols + [Scatter(bmp, d.c, n)], rows + [Tail(d.b, t, n)], pivots + [p], t + 1, n)
    ensures Rank(bmp', n) == n - t - 1 && AllSelected(bmp', pivots + [p])
  {
    PivotExists(bmp, d.c, pivot, n, n - t);
    p := pivot;
    RankAfterSelect(bmp, bmp', p, n);
    forall s | 0 <= s < t ensures !Scatter(bmp, d.c, n)[pivots[s]] {
      assert BitAt(bmp, pivots[s]);
    }
    FactoredStep(m, cols, rows, pivots, Scatter(bmp, d.c, n), Tail(d.b, t, n), p, t, n);
    forall s | 0 <= s < t + 1 ensures BitAt(bmp', (pivots + [p])[s]) {
      if s < t {
        assert BitAt(bmp, pivots[s]) && pivots[s] < n;
      }
    }
  }

  lemma PivotExists(bmp: seq<byte>, c: seq<byte>, pivot: int, dim: nat, n: nat)
    requires Rank(bmp, dim) == n && HasNonzero(c, n) && FirstOne(Scatter(bmp, c, dim), pivot, dim)
    ensures 0 <= pivot < dim && Scatter(bmp, c, dim)[pivot] && !BitAt(bmp, pivot)
  {
    var t :| 0 <= t < n && BitAt(c, t);
    var r := RankOnto(bmp, dim, t);
    assert Scatter(bmp, c, dim)[r];
  }
}
