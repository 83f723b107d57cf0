// Linear algebra over the two-element field: the mathematics that src/matrix.c and src/stego.c rely on.

/** Vectors and square matrices over GF(2), where addition is `!=` and multiplication is `&&`. */
module Gf2 {

  type Vec = seq<bool>
  type Mat = seq<Vec>

  predicate IsMat(m: Mat, n: nat) {
    |m| == n && forall i :: 0 <= i < n ==> |m[i]| == n
  }

  function At(v: Vec, k: int): bool {
    0 <= k < |v| && v[k]
  }

  function E(m: Mat, i: int, j: int): bool {
    0 <= i < |m| && At(m[i], j)
  }

  function Zero(n: nat): Vec {
    seq(n, _ => false)
  }

  function Unit(n: nat, i: nat): Vec {
    seq(n, k => k == i)
  }

  function Identity(n: nat): (m: Mat)
    ensures IsMat(m, n)
  {
    seq(n, i requires 0 <= i => Unit(n, i))
  }

  // ---------- sums ----------

  /** f(0) + ... + f(n - 1). */
  function Sum(f: int -> bool, n: nat): bool {
    if n == 0 then false else Sum(f, n - 1) != f(n - 1)
  }

  lemma {:induction false} SumExt(f: int -> bool, g: int -> bool, n: nat)
    requires forall k :: 0 <= k < n ==> f(k) == g(k)
    ensures Sum(f, n) == Sum(g, n)
  {
    if n > 0 {
      SumExt(f, g, n - 1);
    }
  }

  lemma {:induction false} SumXor(f: int -> bool, g: int -> bool, h: int -> bool, n: nat)
    requires forall k :: 0 <= k < n ==> h(k) == (f(k) != g(k))
    ensures Sum(h, n) == (Sum(f, n) != Sum(g, n))
  {
    if n > 0 {
      SumXor(f, g, h, n - 1);
    }
  }

  lemma {:induction false} SumScale(c: bool, f: int -> bool, g: int -> bool, n: nat)
    requires forall k :: 0 <= k < n ==> g(k) == (c && f(k))
    ensures Sum(g, n) == (c && Sum(f, n))
  {
    if n > 0 {
      SumScale(c, f, g, n - 1);
    }
  }

  /** A sum with at most one nonzero term. */
  lemma {:induction false} SumSingle(f: int -> bool, n: nat, i: int)
    requires forall k :: 0 <= k < n && k != i ==> !f(k)
    ensures Sum(f, n) == (0 <= i < n && f(i))
  {
    if n > 0 {
      SumSingle(f, n - 1, i);
    }
  }

  lemma {:induction false} SumSwap(f: (int, int) -> bool, g: int -> bool, h: int -> bool, n: nat, m: nat)
    requires forall i :: 0 <= i < n ==> g(i) == Sum(j => f(i, j), m)
    requires forall j :: 0 <= j < m ==> h(j) == Sum(i => f(i, j), n)
    ensures Sum(g, n) == Sum(h, m)
  {
    if n == 0 {
      SumSingle(h, m, -1);
    } else {
      var h' := j => Sum(i => f(i, j), n - 1);
      SumSwap(f, g, h', n - 1, m);
      SumXor(h', j => f(n - 1, j), h, m);
    }
  }

  /** (a B) c = a (B c) for a row a, a matrix B and a column c. */
  lemma TripleProduct(a: int -> bool, b: (int, int) -> bool, c: int -> bool, ab: int -> bool, bc: int -> bool, n: nat,
                      m: nat)
    requires forall k :: 0 <= k < m ==> ab(k) == Sum(l => a(l) && b(l, k), n)
    requires forall l :: 0 <= l < n ==> bc(l) == Sum(k => b(l, k) && c(k), m)
    ensures Sum(k => ab(k) && c(k), m) == Sum(l => a(l) && bc(l), n)
  {
    var f := (l: int, k: int) => a(l) && b(l, k) && c(k);
    var g := l => a(l) && bc(l);
    var h := k => ab(k) && c(k);
    forall l | 0 <= l < n ensures g(l) == Sum(k => f(l, k), m) {
      SumScale(a(l), k => b(l, k) && c(k), k => f(l, k), m);
    }
    forall k | 0 <= k < m ensures h(k) == Sum(l => f(l, k), n) {
      SumScale(c(k), l => a(l) && b(l, k), l => f(l, k), n);
    }
    SumSwap(f, g, h, n, m);
  }

  // ---------- products ----------

  function Dot(u: Vec, v: Vec, n: nat): bool {
    Sum(k => At(u, k) && At(v, k), n)
  }

  /** Entry (i, j) of the product A B. */
  function Entry(a: Mat, b: Mat, i: int, j: int, n: nat): bool {
    Sum(k => E(a, i, k) && E(b, k, j), n)
  }

  function Mul(a: Mat, b: Mat, n: nat): (m: Mat)
    ensures IsMat(m, n)
    ensures forall i, j :: 0 <= i < n && 0 <= j < n ==> m[i][j] == Entry(a, b, i, j, n)
  {
    seq(n, i => seq(n, j => Entry(a, b, i, j, n)))
  }

  function Row(m: Mat, i: int): Vec {
    if 0 <= i < |m| then m[i] else []
  }

  /** The column vector M v. */
  function Apply(m: Mat, v: Vec, n: nat): (r: Vec)
    ensures |r| == n
    ensures forall i :: 0 <= i < n ==> r[i] == Dot(Row(m, i), v, n)
  {
    seq(n, i => Dot(Row(m, i), v, n))
  }

  lemma MatExt(a: Mat, b: Mat, n: nat)
    requires IsMat(a, n) && IsMat(b, n)
    requires forall i, j :: 0 <= i < n && 0 <= j < n ==> a[i][j] == b[i][j]
    ensures a == b
  {
    forall i | 0 <= i < n ensures a[i] == b[i] {
      assert |a[i]| == |b[i]| == n;
    }
  }

  lemma MulAssoc(a: Mat, b: Mat, c: Mat, n: nat)
    ensures Mul(Mul(a, b, n), c, n) == Mul(a, Mul(b, c, n), n)
  {
    var ab, bc := Mul(a, b, n), Mul(b, c, n);
    forall i, j | 0 <= i < n && 0 <= j < n
      ensures Entry(ab, c, i, j, n) == Entry(a, bc, i, j, n)
    {
      var ra, mb, cc := k => E(a, i, k), (l: int, k: int) => E(b, l, k), k => E(c, k, j);
      var rab, cbc := k => E(ab, i, k), l => E(bc, l, j);
      forall k | 0 <= k < n ensures rab(k) == Sum(l => ra(l) && mb(l, k), n) {
        SumExt(l => E(a, i, l) && E(b, l, k), l => ra(l) && mb(l, k), n);
      }
      forall l | 0 <= l < n ensures cbc(l) == Sum(k => mb(l, k) && cc(k), n) {
        SumExt(k => E(b, l, k) && E(c, k, j), k => mb(l, k) && cc(k), n);
      }
      TripleProduct(ra, mb, cc, rab, cbc, n, n);
      SumExt(k => rab(k) && cc(k), k => E(ab, i, k) && E(c, k, j), n);
      SumExt(l => ra(l) && cbc(l), l => E(a, i, l) && E(bc, l, j), n);
    }
    MatExt(Mul(ab, c, n), Mul(a, bc, n), n);
  }

  lemma ApplyMul(a: Mat, b: Mat, v: Vec, n: nat)
    ensures Apply(Mul(a, b, n), v, n) == Apply(a, Apply(b, v, n), n)
  {
    var ab, bv := Mul(a, b, n), Apply(b, v, n);
    forall i | 0 <= i < n
      ensures Dot(Row(ab, i), v, n) == Dot(Row(a, i), bv, n)
    {
      var ra, mb, cv := k => E(a, i, k), (l: int, k: int) => E(b, l, k), k => At(v, k);
      var rab, cbv := k => E(ab, i, k), l => At(bv, l);
      forall k | 0 <= k < n ensures rab(k) == Sum(l => ra(l) && mb(l, k), n) {
        SumExt(l => E(a, i, l) && E(b, l, k), l => ra(l) && mb(l, k), n);
      }
      forall l | 0 <= l < n ensures cbv(l) == Sum(k => mb(l, k) && cv(k), n) {
        SumExt(k => At(Row(b, l), k) && At(v, k), k => mb(l, k) && cv(k), n);
      }
      TripleProduct(ra, mb, cv, rab, cbv, n, n);
      SumExt(k => rab(k) && cv(k), k => At(Row(ab, i), k) && At(v, k), n);
      SumExt(l => ra(l) && cbv(l), l => At(Row(a, i), l) && At(bv, l), n);
    }
  }

  lemma MulIdentity(a: Mat, n: nat)
    requires IsMat(a, n)
    ensures Mul(a, Identity(n), n) == a
    ensures Mul(Identity(n), a, n) == a
  {
    forall i, j | 0 <= i < n && 0 <= j < n
      ensures Entry(a, Identity(n), i, j, n) == a[i][j]
      ensures Entry(Identity(n), a, i, j, n) == a[i][j]
    {
      SumSingle(k => E(a, i, k) && E(Identity(n), k, j), n, j);
      SumSingle(k => E(Identity(n), i, k) && E(a, k, j), n, i);
    }
    MatExt(Mul(a, Identity(n), n), a, n);
    MatExt(Mul(Identity(n), a, n), a, n);
  }

  lemma ApplyIdentity(v: Vec, n: nat)
    requires |v| == n
    ensures Apply(Identity(n), v, n) == v
  {
    forall i | 0 <= i < n ensures Dot(Row(Identity(n), i), v, n) == v[i] {
      SumSingle(k => At(Row(Identity(n), i), k) && At(v, k), n, i);
    }
  }

  lemma ApplyZero(m: Mat, n: nat)
    ensures Apply(m, Zero(n), n) == Zero(n)
  {
    forall i | 0 <= i < n ensures !Dot(Row(m, i), Zero(n), n) {
      SumSingle(k => At(Row(m, i), k) && At(Zero(n), k), n, -1);
    }
  }

  function Transpose(m: Mat, n: nat): (t: Mat)
    ensures IsMat(t, n)
    ensures forall i, j :: 0 <= i < n && 0 <= j < n ==> t[i][j] == E(m, j, i)
  {
    seq(n, i => seq(n, j => E(m, j, i)))
  }

  // ---------- singularity ----------

  /** The zero vector is the only one that `m` sends to zero. */
  ghost predicate Nonsingular(m: Mat, n: nat) {
    forall v: Vec :: |v| == n && Apply(m, v, n) == Zero(n) ==> v == Zero(n)
  }

  ghost predicate Inverses(a: Mat, b: Mat, n: nat) {
    IsMat(a, n) && IsMat(b, n) && Mul(a, b, n) == Identity(n) && Mul(b, a, n) == Identity(n)
  }

  lemma InvertibleIsNonsingular(a: Mat, b: Mat, n: nat)
    requires IsMat(b, n) && Mul(a, b, n) == Identity(n)
    ensures Nonsingular(b, n)
  {
    forall v: Vec | |v| == n && Apply(b, v, n) == Zero(n) ensures v == Zero(n) {
      ApplyMul(a, b, v, n);
      ApplyZero(a, n);
      ApplyIdentity(v, n);
    }
  }

  // ---------- elementary row operations ----------

  function VecXor(u: Vec, v: Vec): (w: Vec)
    requires |u| == |v|
    ensures |w| == |u| && forall k :: 0 <= k < |w| ==> w[k] == (u[k] != v[k])
  {
    seq(|u|, k requires 0 <= k < |u| => u[k] != v[k])
  }

  function SwapRows(m: Mat, r1: nat, r2: nat): Mat
    requires r1 < |m| && r2 < |m|
  {
    m[r1 := m[r2]][r2 := m[r1]]
  }

  function AddRow(m: Mat, to: nat, from: nat): Mat
    requires to < |m| && from < |m| && |m[to]| == |m[from]|
  {
    m[to := VecXor(m[to], m[from])]
  }

  lemma SwapIsMul(m: Mat, r1: nat, r2: nat, n: nat)
    requires IsMat(m, n) && r1 < n && r2 < n
    ensures SwapRows(m, r1, r2) == Mul(SwapRows(Identity(n), r1, r2), m, n)
  {
    var e := SwapRows(Identity(n), r1, r2);
    forall i, j | 0 <= i < n && 0 <= j < n ensures Entry(e, m, i, j, n) == SwapRows(m, r1, r2)[i][j] {
      var s := if i == r1 then r2 else if i == r2 then r1 else i;
      SumSingle(k => E(e, i, k) && E(m, k, j), n, s);
    }
    MatExt(SwapRows(m, r1, r2), Mul(e, m, n), n);
  }

  lemma AddIsMul(m: Mat, to: nat, from: nat, n: nat)
    requires IsMat(m, n) && to < n && from < n && to != from
    ensures AddRow(m, to, from) == Mul(AddRow(Identity(n), to, from), m, n)
  {
    var e := AddRow(Identity(n), to, from);
    forall i, j | 0 <= i < n && 0 <= j < n ensures Entry(e, m, i, j, n) == AddRow(m, to, from)[i][j] {
      if i != to {
        SumSingle(k => E(e, i, k) && E(m, k, j), n, i);
      } else {
        var f := k => k == to && E(m, k, j);
        var g := k => k == from && E(m, k, j);
        SumSingle(f, n, to);
        SumSingle(g, n, from);
        SumXor(f, g, k => E(e, i, k) && E(m, k, j), n);
      }
    }
    MatExt(AddRow(m, to, from), Mul(e, m, n), n);
  }

  /** Swapping twice, and adding the same row twice, undo themselves. */
  lemma ElementaryInvolution(r1: nat, r2: nat, n: nat)
    requires r1 < n && r2 < n
    ensures Mul(SwapRows(Identity(n), r1, r2), SwapRows(Identity(n), r1, r2), n) == Identity(n)
    ensures r1 != r2 ==> Mul(AddRow(Identity(n), r1, r2), AddRow(Identity(n), r1, r2), n) == Identity(n)
  {
    var s := SwapRows(Identity(n), r1, r2);
    SwapIsMul(s, r1, r2, n);
    MatExt(SwapRows(s, r1, r2), Identity(n), n);
    if r1 != r2 {
      var a := AddRow(Identity(n), r1, r2);
      AddIsMul(a, r1, r2, n);
      MatExt(AddRow(a, r1, r2), Identity(n), n);
    }
  }
}
