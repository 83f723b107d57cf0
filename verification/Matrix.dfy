// Model of src/matrix.c: square bit matrices packed row by row into byte buffers, changed in place.

/** Packed GF(2) matrices: accessors, products, transposition and Gauss-Jordan inversion. */
module Matrix {
  import opened BitUtil
  import opened Errors
  import opened Gf2

  /** The buffer is large enough for `dim * dim` bits. */
  predicate Fits(length: nat, dim: nat) {
    dim * dim <= 8 * length
  }

  function BitAt(buf: seq<byte>, bit: int): bool {
    0 <= bit < 8 * |buf| && GetBit(buf, bit)
  }

  /** The matrix stored in a buffer: entry (i, j) is bit `i * dim + j`. */
  function View(buf: seq<byte>, dim: nat): (m: Mat)
    ensures IsMat(m, dim)
  {
    seq(dim, i requires 0 <= i => RowOf(buf, i, dim))
  }

  function RowOf(buf: seq<byte>, i: nat, dim: nat): (row: Vec)
    ensures |row| == dim
  {
    seq(dim, j => BitAt(buf, i * dim + j))
  }

  function SetEntry(m: Mat, row: nat, col: nat, val: bool): Mat
    requires row < |m| && col < |m[row]|
  {
    m[row := m[row][col := val]]
  }

  lemma CellInjective(r1: nat, c1: nat, r2: nat, c2: nat, dim: nat)
    requires c1 < dim && c2 < dim && r1 * dim + c1 == r2 * dim + c2
    ensures r1 == r2 && c1 == c2
  {
    DivModUnique(r1 * dim + c1, dim, r1, c1);
    DivModUnique(r1 * dim + c1, dim, r2, c2);
  }

  // ---------- accessors ----------

  lemma ViewCell(buf: seq<byte>, i: nat, j: nat, dim: nat)
    requires i < dim && j < dim
    ensures i * dim + j < dim * dim
    ensures View(buf, dim)[i][j] == BitAt(buf, i * dim + j)
  {
    CellBelow(i, dim, dim, j);
  }

  function MatrixGet(m: array<byte>, row: nat, col: nat, dim: nat): (v: bool)
    requires Fits(m.Length, dim) && row < dim && col < dim
    reads m
    ensures v == View(m[..], dim)[row][col]
  {
    ViewCell(m[..], row, col, dim);
    m[(row * dim + col) / CHAR_BIT][(row * dim + col) % CHAR_BIT]
  }

  method MatrixSet(m: array<byte>, row: nat, col: nat, val: bool, dim: nat)
    requires Fits(m.Length, dim) && row < dim && col < dim
    modifies m
    ensures View(m[..], dim) == SetEntry(old(View(m[..], dim)), row, col, val)
  {
    CellBelow(row, dim, dim, col);
    SetBit(m, row * dim + col, val);
    forall i, j | 0 <= i < dim && 0 <= j < dim
      ensures View(m[..], dim)[i][j] == SetEntry(old(View(m[..], dim)), row, col, val)[i][j]
    {
      ViewCell(m[..], i, j, dim);
      ViewCell(old(m[..]), i, j, dim);
      if i * dim + j == row * dim + col {
        CellInjective(i, j, row, col, dim);
      }
    }
    MatExt(View(m[..], dim), SetEntry(old(View(m[..], dim)), row, col, val), dim);
  }

  method MatrixElemAdd(m: array<byte>, row: nat, col: nat, addedVal: bool, dim: nat)
    requires Fits(m.Length, dim) && row < dim && col < dim
    modifies m
    ensures View(m[..], dim) ==
            SetEntry(old(View(m[..], dim)), row, col, old(View(m[..], dim))[row][col] != addedVal)
  {
    ghost var v0 := View(m[..], dim);
    if addedVal {
      MatrixSet(m, row, col, !MatrixGet(m, row, col, dim), dim);
    } else {
      MatExt(v0, SetEntry(v0, row, col, v0[row][col]), dim);
    }
  }

  // ---------- row operations ----------

  /** `m` with the first `i` entries of row `from` added to row `to`. */
  function AddedUpTo(m: Mat, to: int, from: int, i: int, n: nat): (t: Mat)
    ensures IsMat(t, n)
  {
    seq(n, r => seq(n, c => if r == to && c < i then E(m, to, c) != E(m, from, c) else E(m, r, c)))
  }

  lemma AddedUpToSteps(m: Mat, to: nat, from: nat, i: nat, n: nat)
    requires IsMat(m, n) && to < n && from < n && i <= n
    ensures AddedUpTo(m, to, from, 0, n) == m
    ensures AddedUpTo(m, to, from, n, n) == AddRow(m, to, from)
    ensures i < n ==> var t := AddedUpTo(m, to, from, i, n);
      SetEntry(t, to, i, t[to][i] != t[from][i]) == AddedUpTo(m, to, from, i + 1, n)
  {
    MatExt(AddedUpTo(m, to, from, 0, n), m, n);
    MatExt(AddedUpTo(m, to, from, n, n), AddRow(m, to, from), n);
    if i < n {
      var t := AddedUpTo(m, to, from, i, n);
      MatExt(SetEntry(t, to, i, t[to][i] != t[from][i]), AddedUpTo(m, to, from, i + 1, n), n);
    }
  }

  method MatrixAddRow(m: array<byte>, to: nat, from: nat, dim: nat)
    requires Fits(m.Length, dim) && to < dim && from < dim
    modifies m
    ensures View(m[..], dim) == AddRow(old(View(m[..], dim)), to, from)
  {
    hide View, AddedUpTo, AddRow, SetEntry;
    ghost var v0 := View(m[..], dim);
    AddedUpToSteps(v0, to, from, 0, dim);
    for i := 0 to dim
      invariant View(m[..], dim) == AddedUpTo(v0, to, from, i, dim)
    {
      var toVal := MatrixGet(m, to, i, dim);
      var fromVal := MatrixGet(m, from, i, dim);
      MatrixSet(m, to, i, toVal != fromVal, dim);
      AddedUpToSteps(v0, to, from, i, dim);
    }
  }

  /** `m` with the first `i` entries of rows `r1` and `r2` exchanged. */
  function SwappedUpTo(m: Mat, r1: int, r2: int, i: int, n: nat): (t: Mat)
    ensures IsMat(t, n)
  {
    seq(n, r => seq(n, c => if c < i && r == r1 then E(m, r2, c) else if c < i && r == r2 then E(m, r1, c)
        else E(m, r, c)))
  }

  lemma SwappedUpToEnds(m: Mat, r1: nat, r2: nat, n: nat)
    requires IsMat(m, n) && r1 < n && r2 < n
    ensures SwappedUpTo(m, r1, r2, 0, n) == m
    ensures SwappedUpTo(m, r1, r2, n, n) == SwapRows(m, r1, r2)
  {
    MatExt(SwappedUpTo(m, r1, r2, 0, n), m, n);
    MatExt(SwappedUpTo(m, r1, r2, n, n), SwapRows(m, r1, r2), n);
  }

  lemma SwappedUpToStep(m: Mat, r1: nat, r2: nat, i: nat, n: nat)
    requires IsMat(m, n) && r1 < n && r2 < n && i < n
    ensures var t := SwappedUpTo(m, r1, r2, i, n);
      SetEntry(SetEntry(t, r1, i, t[r2][i]), r2, i, t[r1][i]) == SwappedUpTo(m, r1, r2, i + 1, n)
  {
    var t := SwappedUpTo(m, r1, r2, i, n);
    MatExt(SetEntry(SetEntry(t, r1, i, t[r2][i]), r2, i, t[r1][i]), SwappedUpTo(m, r1, r2, i + 1, n), n);
  }

  method MatrixSwapRows(m: array<byte>, r1: nat, r2: nat, dim: nat)
    requires Fits(m.Length, dim) && r1 < dim && r2 < dim
    modifies m
    ensures View(m[..], dim) == SwapRows(old(View(m[..], dim)), r1, r2)
  {
    hide View, SwappedUpTo, SwapRows;
    ghost var v0 := View(m[..], dim);
    SwappedUpToEnds(v0, r1, r2, dim);
    for i := 0 to dim
      invariant View(m[..], dim) == SwappedUpTo(v0, r1, r2, i, dim)
    {
      var tmp := MatrixGet(m, r1, i, dim);
      MatrixSet(m, r1, i, MatrixGet(m, r2, i, dim), dim);
      MatrixSet(m, r2, i, tmp, dim);
      SwappedUpToStep(v0, r1, r2, i, dim);
    }
  }

  /** `d` with the transpose of `m` written into the cells the loops have reached at (i, j). */
  function TransposedUpTo(d: Mat, m: Mat, i: int, j: int, n: nat): (t: Mat)
    ensures IsMat(t, n)
  {
    seq(n, r => seq(n, c => if (r < i && c < i) || (r == i && c < j) || (c == i && r < j) then E(m, c, r)
        else E(d, r, c)))
  }

  lemma TransposeStep(d: Mat, m: Mat, i: nat, j: nat, n: nat)
    requires IsMat(d, n) && IsMat(m, n) && j < i < n
    ensures SetEntry(SetEntry(TransposedUpTo(d, m, i, j, n), i, j, m[j][i]), j, i, m[i][j]) ==
        TransposedUpTo(d, m, i, j + 1, n)
    ensures TransposedUpTo(d, m, i, j, n)[i][j] == d[i][j] && TransposedUpTo(d, m, i, j, n)[j][i] == d[j][i]
  {
    MatExt(SetEntry(SetEntry(TransposedUpTo(d, m, i, j, n), i, j, m[j][i]), j, i, m[i][j]),
           TransposedUpTo(d, m, i, j + 1, n), n);
  }

  lemma TransposeRow(d: Mat, m: Mat, i: nat, n: nat)
    requires IsMat(d, n) && IsMat(m, n) && i < n
    ensures SetEntry(TransposedUpTo(d, m, i, i, n), i, i, m[i][i]) == TransposedUpTo(d, m, i + 1, 0, n)
    ensures TransposedUpTo(d, m, i, i, n)[i][i] == d[i][i]
  {
    MatExt(SetEntry(TransposedUpTo(d, m, i, i, n), i, i, m[i][i]), TransposedUpTo(d, m, i + 1, 0, n), n);
  }

  lemma TransposeEnds(d: Mat, m: Mat, n: nat)
    requires IsMat(d, n) && IsMat(m, n)
    ensures TransposedUpTo(d, m, 0, 0, n) == d
    ensures TransposedUpTo(d, m, n, 0, n) == Transpose(m, n)
  {
    var t0, tn := TransposedUpTo(d, m, 0, 0, n), TransposedUpTo(d, m, n, 0, n);
    forall r, c | 0 <= r < n && 0 <= c < n ensures t0[r][c] == d[r][c] {
      assert t0[r][c] == E(d, r, c);
    }
    MatExt(t0, d, n);
    forall r, c | 0 <= r < n && 0 <= c < n ensures tn[r][c] == Transpose(m, n)[r][c] {
      assert tn[r][c] == E(m, c, r);
    }
    MatExt(tn, Transpose(m, n), n);
  }

  /** Transposes `matrix` into `dest`; the two may be the same buffer. */
  method MatrixTranspose(dest: array<byte>, matrix: array<byte>, dim: nat)
    requires Fits(dest.Length, dim) && Fits(matrix.Length, dim)
    modifies dest
    ensures View(dest[..], dim) == Transpose(old(View(matrix[..], dim)), dim)
  {
    hide View, TransposedUpTo, Transpose, SetEntry;
    ghost var m0, d0 := View(matrix[..], dim), View(dest[..], dim);
    TransposeEnds(d0, m0, dim);
    for i := 0 to dim
      invariant View(dest[..], dim) == TransposedUpTo(d0, m0, i, 0, dim)
      invariant dest != matrix ==> View(matrix[..], dim) == m0
    {
      for j := 0 to i
        invariant View(dest[..], dim) == TransposedUpTo(d0, m0, i, j, dim)
        invariant dest != matrix ==> View(matrix[..], dim) == m0
      {
        TransposeStep(d0, m0, i, j, dim);
        var ij := MatrixGet(matrix, i, j, dim);
        var ji := MatrixGet(matrix, j, i, dim);
        MatrixSet(dest, i, j, ji, dim);
        MatrixSet(dest, j, i, ij, dim);
      }
      TransposeRow(d0, m0, i, dim);
      MatrixSet(dest, i, i, MatrixGet(matrix, i, i, dim), dim);
    }
  }

  method MatrixMultiply(dest: array<byte>, a: array<byte>, b: array<byte>, dim: nat)
    requires Fits(dest.Length, dim) && Fits(a.Length, dim) && Fits(b.Length, dim)
    requires dest != a && dest != b
    modifies dest
    ensures View(dest[..], dim) == Mul(View(a[..], dim), View(b[..], dim), dim)
  {
    ghost var va, vb := View(a[..], dim), View(b[..], dim);
    for row := 0 to dim
      invariant forall r, c :: 0 <= r < row && 0 <= c < dim ==> View(dest[..], dim)[r][c] == Entry(va, vb, r, c, dim)
    {
      for col := 0 to dim
        invariant forall r, c :: 0 <= r < dim && 0 <= c < dim && (r < row || (r == row && c < col)) ==>
          View(dest[..], dim)[r][c] == Entry(va, vb, r, c, dim)
      {
        var value := false;
        for k := 0 to dim
          invariant value == Sum(k => E(va, row, k) && E(vb, k, col), k)
        {
          value := value != (MatrixGet(a, row, k, dim) && MatrixGet(b, k, col, dim));
        }
        MatrixSet(dest, row, col, value, dim);
      }
    }
    MatExt(View(dest[..], dim), Mul(va, vb, dim), dim);
  }

  // ---------- inversion ----------

  method Clear(m: array<byte>, n: nat)
    requires n <= m.Length
    modifies m
    ensures forall k :: 0 <= k < n ==> m[k] == ZERO_BYTE
    ensures forall k :: n <= k < m.Length ==> m[k] == old(m[k])
  {
    for i := 0 to n
      invariant forall k :: 0 <= k < i ==> m[k] == ZERO_BYTE
      invariant forall k :: i <= k < m.Length ==> m[k] == old(m[k])
    {
      m[i] := ZERO_BYTE;
    }
  }

  /** `memset(m, 0, round_to_bytes(dim * dim))` leaves the zero matrix. */
  method ClearMatrix(m: array<byte>, dim: nat)
    requires Fits(m.Length, dim)
    modifies m
    ensures forall r, c :: 0 <= r < dim && 0 <= c < dim ==> !View(m[..], dim)[r][c]
  {
    Clear(m, RoundToBytes(dim * dim));
    forall r, c | 0 <= r < dim && 0 <= c < dim ensures !View(m[..], dim)[r][c] {
      ViewCell(m[..], r, c, dim);
    }
  }

  method MatrixSetIdentity(m: array<byte>, dim: nat)
    requires Fits(m.Length, dim)
    modifies m
    ensures View(m[..], dim) == Identity(dim)
  {
    ClearMatrix(m, dim);
    for i := 0 to dim
      invariant forall r, c :: 0 <= r < dim && 0 <= c < dim ==> View(m[..], dim)[r][c] == (r == c && r < i)
    {
      MatrixSet(m, i, i, true, dim);
    }
    MatExt(View(m[..], dim), Identity(dim), dim);
  }

  /** The first row at or below the diagonal with a one in column `col`, or -1. */
  method FindPivot(m: array<byte>, col: nat, dim: nat) returns (pivot: int)
    requires Fits(m.Length, dim) && col < dim
    ensures pivot == -1 || col <= pivot < dim
    ensures pivot == -1 ==> forall r :: col <= r < dim ==> !View(m[..], dim)[r][col]
    ensures pivot != -1 ==> View(m[..], dim)[pivot][col] && forall r :: col <= r < pivot ==> !View(m[..], dim)[r][col]
  {
    for row := col to dim
      invariant forall r :: col <= r < row ==> !View(m[..], dim)[r][col]
    {
      if MatrixGet(m, row, col, dim) {
        return row;
      }
    }
    return -1;
  }

  /**
   * What elimination keeps: the accumulated inverse `inv` turns `m` into the work matrix `tmp`, and the
   * ghost matrix `p` undoes `inv` on both sides.
   */
  ghost predicate Eliminating(m: Mat, inv: Mat, tmp: Mat, p: Mat, n: nat) {
    && IsMat(m, n) && IsMat(inv, n) && IsMat(tmp, n) && IsMat(p, n)
    && Mul(inv, m, n) == tmp
    && Mul(p, inv, n) == Identity(n)
    && Mul(inv, p, n) == Identity(n)
  }

  lemma EliminationStep(m: Mat, inv: Mat, tmp: Mat, p: Mat, e: Mat, n: nat)
    requires Eliminating(m, inv, tmp, p, n) && IsMat(e, n) && Mul(e, e, n) == Identity(n)
    ensures Eliminating(m, Mul(e, inv, n), Mul(e, tmp, n), Mul(p, e, n), n)
  {
    MulAssoc(e, inv, m, n);
    InverseTrans(p, e, e, inv, n);
    InverseTrans(e, inv, p, e, n);
  }

  /** (a b)(c d) = I when b c = I and a d = I. */
  lemma InverseTrans(a: Mat, b: Mat, c: Mat, d: Mat, n: nat)
    requires IsMat(a, n) && IsMat(d, n) && Mul(b, c, n) == Identity(n) && Mul(a, d, n) == Identity(n)
    ensures Mul(Mul(a, b, n), Mul(c, d, n), n) == Identity(n)
  {
    MulAssoc(a, b, Mul(c, d, n), n);
    MulAssoc(b, c, d, n);
    MulIdentity(d, n);
  }

  /** Columns below `j` of `tmp` are those of the identity. */
  ghost predicate UnitColumns(tmp: Mat, j: nat, n: nat) {
    IsMat(tmp, n) && forall r, c :: 0 <= r < n && 0 <= c < n && c < j ==> tmp[r][c] == (r == c)
  }

  /** Without a pivot in column `j` this vector is in the kernel: column `j` above the diagonal, then a one. */
  function KernelVector(tmp: Mat, j: nat, n: nat): Vec {
    seq(n, k => if k < j then E(tmp, k, j) else k == j)
  }

  lemma KernelVectorWorks(tmp: Mat, j: nat, n: nat)
    requires UnitColumns(tmp, j, n) && j < n
    requires forall r :: j <= r < n ==> !tmp[r][j]
    ensures Apply(tmp, KernelVector(tmp, j, n), n) == Zero(n)
  {
    var v := KernelVector(tmp, j, n);
    forall r | 0 <= r < n ensures !Dot(Row(tmp, r), v, n) {
      var f := k => k == j && E(tmp, r, j);
      var g := k => k == r && k < j && E(tmp, r, j);
      SumSingle(f, n, j);
      SumSingle(g, n, r);
      SumXor(f, g, k => At(Row(tmp, r), k) && At(v, k), n);
    }
  }

  lemma NoPivotMeansSingular(m: Mat, inv: Mat, tmp: Mat, p: Mat, j: nat, n: nat)
    requires Eliminating(m, inv, tmp, p, n) && UnitColumns(tmp, j, n) && j < n
    requires forall r :: j <= r < n ==> !tmp[r][j]
    ensures !Nonsingular(m, n)
  {
    var v := KernelVector(tmp, j, n);
    KernelVectorWorks(tmp, j, n);
    MulAssoc(p, inv, m, n);
    MulIdentity(m, n);
    ApplyMul(p, tmp, v, n);
    ApplyZero(p, n);
    assert v[j] && !Zero(n)[j];
  }

  /** All columns unit: the accumulated matrix is a two-sided inverse. */
  lemma EliminationDone(m: Mat, inv: Mat, tmp: Mat, p: Mat, n: nat)
    requires Eliminating(m, inv, tmp, p, n) && UnitColumns(tmp, n, n)
    ensures Inverses(inv, m, n) && Nonsingular(m, n)
  {
    MatExt(tmp, Identity(n), n);
    MulAssoc(p, inv, m, n);
    MulIdentity(m, n);
    MulIdentity(p, n);
    InvertibleIsNonsingular(inv, m, n);
  }

  /** Swapping two rows, or adding one row to another, in both matrices is one elimination step. */
  lemma RowOperation(m: Mat, inv: Mat, tmp: Mat, p: Mat, r1: nat, r2: nat, n: nat) returns (ps: Mat, pa: Mat)
    requires Eliminating(m, inv, tmp, p, n) && r1 < n && r2 < n
    ensures Eliminating(m, SwapRows(inv, r1, r2), SwapRows(tmp, r1, r2), ps, n)
    ensures r1 != r2 ==> Eliminating(m, AddRow(inv, r1, r2), AddRow(tmp, r1, r2), pa, n)
  {
    ElementaryInvolution(r1, r2, n);
    var s := SwapRows(Identity(n), r1, r2);
    SwapIsMul(inv, r1, r2, n);
    SwapIsMul(tmp, r1, r2, n);
    EliminationStep(m, inv, tmp, p, s, n);
    ps := Mul(p, s, n);
    pa := p;
    if r1 != r2 {
      var a := AddRow(Identity(n), r1, r2);
      AddIsMul(inv, r1, r2, n);
      AddIsMul(tmp, r1, r2, n);
      EliminationStep(m, inv, tmp, p, a, n);
      pa := Mul(p, a, n);
    }
  }

  /** Column `j` has a one on the diagonal and zeros in the rows below `i` other than `j`. */
  ghost predicate Clearing(t: Mat, i: nat, j: nat, n: nat) {
    UnitColumns(t, j, n) && j < n && t[j][j] && forall r :: 0 <= r < n && r < i && r != j ==> !t[r][j]
  }

  lemma PivotOnDiagonal(t: Mat, pivot: nat, j: nat, n: nat)
    requires UnitColumns(t, j, n) && j <= pivot < n && t[pivot][j]
    ensures Clearing(SwapRows(t, j, pivot), 0, j, n)
  {}

  lemma ClearingStep(t: Mat, i: nat, j: nat, n: nat)
    requires Clearing(t, i, j, n) && i < n
    ensures i != j && t[i][j] ==> Clearing(AddRow(t, i, j), i + 1, j, n)
    ensures i == j || !t[i][j] ==> Clearing(t, i + 1, j, n)
  {}

  lemma ClearingDone(t: Mat, j: nat, n: nat)
    requires Clearing(t, n, j, n)
    ensures UnitColumns(t, j + 1, n)
  {}

  /** The inner loop of elimination: zeroes column `j` outside the diagonal. */
  method ClearColumn(inverse: array<byte>, tmp: array<byte>, j: nat, dim: nat, ghost m: Mat, ghost p: Mat)
    returns (ghost q: Mat)
    requires Fits(inverse.Length, dim) && Fits(tmp.Length, dim) && inverse != tmp
    requires Eliminating(m, View(inverse[..], dim), View(tmp[..], dim), p, dim)
    requires Clearing(View(tmp[..], dim), 0, j, dim)
    modifies inverse, tmp
    ensures Eliminating(m, View(inverse[..], dim), View(tmp[..], dim), q, dim)
    ensures UnitColumns(View(tmp[..], dim), j + 1, dim)
  {
    q := p;
    for i := 0 to dim
      invariant Eliminating(m, View(inverse[..], dim), View(tmp[..], dim), q, dim)
      invariant Clearing(View(tmp[..], dim), i, j, dim)
    {
      ghost var t := View(tmp[..], dim);
      ClearingStep(t, i, j, dim);
      if i != j && MatrixGet(tmp, i, j, dim) {
        ghost var _, pa := RowOperation(m, View(inverse[..], dim), t, q, i, j, dim);
        MatrixAddRow(tmp, i, j, dim);
        MatrixAddRow(inverse, i, j, dim);
        q := pa;
      }
    }
    ClearingDone(View(tmp[..], dim), j, dim);
  }

  /**
   * Gauss-Jordan elimination: succeeds exactly on nonsingular matrices, and then leaves the two-sided inverse.
   */
  method MatrixInvert(inverse: array<byte>, matrix: array<byte>, dim: nat) returns (ret: Status)
    requires Fits(inverse.Length, dim) && Fits(matrix.Length, dim) && inverse != matrix
    modifies inverse
    ensures ret == if Nonsingular(View(matrix[..], dim), dim) then Done else Failed(EINVAL)
    ensures ret == Done ==> Inverses(View(inverse[..], dim), View(matrix[..], dim), dim)
  {
    var tmp := new byte[matrix.Length](i requires 0 <= i < matrix.Length reads matrix => matrix[i]);
    assert tmp[..] == matrix[..];
    MatrixSetIdentity(inverse, dim);

    ghost var m := View(matrix[..], dim);
    ghost var p := Identity(dim);
    MulIdentity(m, dim);
    MulIdentity(p, dim);
    for j := 0 to dim
      invariant m == View(matrix[..], dim)
      invariant Eliminating(m, View(inverse[..], dim), View(tmp[..], dim), p, dim)
      invariant UnitColumns(View(tmp[..], dim), j, dim)
    {
      var pivot := FindPivot(tmp, j, dim);
      if pivot < 0 {
        NoPivotMeansSingular(m, View(inverse[..], dim), View(tmp[..], dim), p, j, dim);
        return Failed(EINVAL);
      }

      ghost var ps, _ := RowOperation(m, View(inverse[..], dim), View(tmp[..], dim), p, j, pivot, dim);
      PivotOnDiagonal(View(tmp[..], dim), pivot, j, dim);
      MatrixSwapRows(tmp, j, pivot, dim);
      MatrixSwapRows(inverse, j, pivot, dim);
      p := ClearColumn(inverse, tmp, j, dim, m, ps);
    }
    EliminationDone(m, View(inverse[..], dim), View(tmp[..], dim), p, dim);
    return Done;
  }
}
