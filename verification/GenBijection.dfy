// What matrix_gen_nonsing in src/matrix.c is for: the matrices it can build, and the draws behind each of them.

/** The generator is one to one: every nonsingular matrix comes from exactly one choice of the random bits it uses. */
module GenBijection {
  import opened BitUtil
  import opened Errors
  import opened Gf2
  import opened Matrix
  import opened MatrixGen

  // ---------- one factorisation for each matrix ----------

  /** Terms from `t + 1` on vanish. */
  lemma {:induction false} SumCutOff(f: int -> bool, t: nat, n: nat)
    requires t < n && forall s :: t < s < n ==> !f(s)
    ensures Sum(f, n) == (Sum(f, t) != f(t))
  {
    if n > t + 1 {
      SumCutOff(f, t, n - 1);
    }
  }

  /** What the first `t` outer products contribute to an entry. */
  function Part(cols: seq<Vec>, rows: seq<Vec>, i: int, k: int, t: nat): bool {
    Sum(s => E(cols, s, i) && E(rows, s, k), t)
  }

  /** Column `t` of what is left after `t` steps is the next column factor. */
  lemma ColumnIs(m: Mat, cols: seq<Vec>, rows: seq<Vec>, pivots: seq<nat>, t: nat, i: nat, n: nat)
    requires Factored(m, cols, rows, pivots, n, n) && t < n && i < n
    ensures E(cols, t, i) == (m[i][t] != Part(cols, rows, i, t, t))
  {
    assert E(rows, t, t);
    SumCutOff(s => E(cols, s, i) && E(rows, s, t), t, n);
  }

  /** And the row of its first one is the next row factor. */
  lemma RowIs(m: Mat, cols: seq<Vec>, rows: seq<Vec>, pivots: seq<nat>, t: nat, k: nat, n: nat)
    requires Factored(m, cols, rows, pivots, n, n) && t < n && k < n
    ensures E(rows, t, k) == (m[pivots[t]][k] != Part(cols, rows, pivots[t], k, t))
  {
    assert E(cols, t, pivots[t]);
    SumCutOff(s => E(cols, s, pivots[t]) && E(rows, s, k), t, n);
  }

  lemma PartSame(cols: seq<Vec>, rows: seq<Vec>, cols': seq<Vec>, rows': seq<Vec>, i: int, k: int, t: nat)
    requires t <= |cols| && t <= |rows| && t <= |cols'| && t <= |rows'|
    requires cols[..t] == cols'[..t] && rows[..t] == rows'[..t]
    ensures Part(cols, rows, i, k, t) == Part(cols', rows', i, k, t)
  {
    forall s | 0 <= s < t ensures E(cols, s, i) == E(cols', s, i) && E(rows, s, k) == E(rows', s, k) {
      assert cols[s] == cols[..t][s] && rows[s] == rows[..t][s];
    }
    SumExt(s => E(cols, s, i) && E(rows, s, k), s => E(cols', s, i) && E(rows', s, k), t);
  }

  /** The pivot of every column is its first one. */
  ghost predicate Leading(cols: seq<Vec>, pivots: seq<nat>, t: nat, n: nat) {
    |cols| == |pivots| == t && forall s :: 0 <= s < t ==> |cols[s]| == n && FirstOne(cols[s], pivots[s], n)
  }

  ghost predicate Sized(rows: seq<Vec>, n: nat) {
    forall s :: 0 <= s < |rows| ==> |rows[s]| == n
  }

  lemma VecExt(u: Vec, v: Vec, n: nat)
    requires |u| == |v| == n && forall k :: 0 <= k < n ==> At(u, k) == At(v, k)
    ensures u == v
  {
    forall k | 0 <= k < n ensures u[k] == v[k] {
      assert At(u, k) == At(v, k);
    }
  }

  lemma NextFactorsAgree(m: Mat, cols: seq<Vec>, rows: seq<Vec>, pivots: seq<nat>, cols': seq<Vec>, rows': seq<Vec>,
                         pivots': seq<nat>, t: nat, n: nat)
    requires Factored(m, cols, rows, pivots, n, n) && Leading(cols, pivots, n, n) && Sized(rows, n)
    requires Factored(m, cols', rows', pivots', n, n) && Leading(cols', pivots', n, n) && Sized(rows', n)
    requires t < n && cols[..t] == cols'[..t] && rows[..t] == rows'[..t]
    ensures cols[t] == cols'[t] && rows[t] == rows'[t] && pivots[t] == pivots'[t]
  {
    forall i | 0 <= i < n ensures At(cols[t], i) == At(cols'[t], i) {
      ColumnIs(m, cols, rows, pivots, t, i, n);
      ColumnIs(m, cols', rows', pivots', t, i, n);
      PartSame(cols, rows, cols', rows', i, t, t);
    }
    VecExt(cols[t], cols'[t], n);
    var p := pivots[t];
    assert p == pivots'[t];
    forall k | 0 <= k < n ensures At(rows[t], k) == At(rows'[t], k) {
      RowIs(m, cols, rows, pivots, t, k, n);
      RowIs(m, cols', rows', pivots', t, k, n);
      PartSame(cols, rows, cols', rows', p, k, t);
    }
    VecExt(rows[t], rows'[t], n);
  }

  lemma {:induction false} FactorsAgree(m: Mat, cols: seq<Vec>, rows: seq<Vec>, pivots: seq<nat>, cols': seq<Vec>,
                                        rows': seq<Vec>, pivots': seq<nat>, t: nat, n: nat)
    requires Factored(m, cols, rows, pivots, n, n) && Leading(cols, pivots, n, n) && Sized(rows, n)
    requires Factored(m, cols', rows', pivots', n, n) && Leading(cols', pivots', n, n) && Sized(rows', n)
    requires t <= n
    ensures cols[..t] == cols'[..t] && rows[..t] == rows'[..t] && pivots[..t] == pivots'[..t]
    decreases t
  {
    if t > 0 {
      FactorsAgree(m, cols, rows, pivots, cols', rows', pivots', t - 1, n);
      NextFactorsAgree(m, cols, rows, pivots, cols', rows', pivots', t - 1, n);
      hide Factored, Leading;
      assert cols[..t] == cols[..t - 1] + [cols[t - 1]] && cols'[..t] == cols'[..t - 1] + [cols'[t - 1]];
      assert rows[..t] == rows[..t - 1] + [rows[t - 1]] && rows'[..t] == rows'[..t - 1] + [rows'[t - 1]];
      assert pivots[..t] == pivots[..t - 1] + [pivots[t - 1]] && pivots'[..t] == pivots'[..t - 1] + [pivots'[t - 1]];
    }
  }

  // ---------- the bits used ----------

  /** The draws agree in every bit that a run in dimension `n` uses. */
  ghost predicate SameBits(draws: seq<Result<Draw>>, draws': seq<Result<Draw>>, n: nat) {
    |draws| >= n && |draws'| >= n && forall j :: 0 <= j < n ==> SameDraw(draws[j], draws'[j], j, n)
  }

  ghost predicate SameDraw(d: Result<Draw>, d': Result<Draw>, j: nat, n: nat) {
    && d.Ok? && d'.Ok?
    && (forall k :: 0 <= k < n - j - 1 ==> BitAt(d.value.b, k) == BitAt(d'.value.b, k))
    && (forall k :: 0 <= k < n - j ==> BitAt(d.value.c, k) == BitAt(d'.value.c, k))
  }

  lemma TailBits(b: seq<byte>, b': seq<byte>, j: nat, n: nat)
    requires j < n
    ensures Tail(b, j, n) == Tail(b', j, n) <==> forall k :: 0 <= k < n - j - 1 ==> BitAt(b, k) == BitAt(b', k)
  {
    hide BitAt;
    if Tail(b, j, n) == Tail(b', j, n) {
      forall k | 0 <= k < n - j - 1 ensures BitAt(b, k) == BitAt(b', k) {
        assert Tail(b, j, n)[j + 1 + k] == Tail(b', j, n)[j + 1 + k];
      }
    }
  }

  lemma {:induction false} FreeBounds(pivots: seq<nat>, r: nat)
    ensures FreeBelow(pivots, r) <= r
  {
    if r > 0 {
      FreeBounds(pivots, r - 1);
    }
  }

  lemma {:induction false} FreeMonotone(pivots: seq<nat>, r: nat, s: nat)
    requires r < s
    ensures FreeBelow(pivots, r) <= FreeBelow(pivots, s)
    ensures r !in pivots ==> FreeBelow(pivots, r) < FreeBelow(pivots, s)
  {
    if r < s - 1 {
      FreeMonotone(pivots, r, s - 1);
    }
  }

  /** Every number below the count of free rows belongs to one of them. */
  lemma {:induction false} FreeOnto(pivots: seq<nat>, n: nat, t: nat) returns (r: nat)
    requires t < FreeBelow(pivots, n)
    ensures r < n && r !in pivots && FreeBelow(pivots, r) == t
  {
    if n - 1 !in pivots && t == FreeBelow(pivots, n - 1) {
      r := n - 1;
    } else {
      r := FreeOnto(pivots, n - 1, t);
    }
  }

  /** Each selection takes one free row. */
  lemma {:induction false} FreeAfterSelect(pivots: seq<nat>, p: nat, r: nat)
    requires p !in pivots
    ensures FreeBelow(pivots + [p], r) == FreeBelow(pivots, r) - (if p < r then 1 else 0)
  {
    if r > 0 {
      FreeAfterSelect(pivots, p, r - 1);
    }
  }

  ghost predicate Distinct(pivots: seq<nat>, n: nat) {
    && (forall s :: 0 <= s < |pivots| ==> pivots[s] < n)
    && (forall s, s' :: 0 <= s < s' < |pivots| ==> pivots[s] != pivots[s'])
  }

  lemma {:induction false} NothingSelected(n: nat)
    ensures FreeBelow([], n) == n
  {
    if n > 0 {
      NothingSelected(n - 1);
    }
  }

  lemma {:induction false} FreeCount(pivots: seq<nat>, n: nat)
    requires Distinct(pivots, n)
    ensures FreeBelow(pivots, n) == n - |pivots|
    decreases |pivots|
  {
    if pivots == [] {
      NothingSelected(n);
    } else {
      var last := |pivots| - 1;
      FreeCount(pivots[..last], n);
      FreeAfterSelect(pivots[..last], pivots[last], n);
      assert pivots == pivots[..last] + [pivots[last]];
    }
  }

  lemma HandOutBits(pivots: seq<nat>, c: seq<byte>, c': seq<byte>, n: nat)
    requires Distinct(pivots, n)
    ensures HandOut(pivots, c, n) == HandOut(pivots, c', n) <==>
      forall k :: 0 <= k < n - |pivots| ==> BitAt(c, k) == BitAt(c', k)
  {
    hide BitAt;
    FreeCount(pivots, n);
    if HandOut(pivots, c, n) == HandOut(pivots, c', n) {
      forall k | 0 <= k < n - |pivots| ensures BitAt(c, k) == BitAt(c', k) {
        var r := FreeOnto(pivots, n, k);
        assert HandOut(pivots, c, n)[r] == HandOut(pivots, c', n)[r];
      }
    }
    if forall k :: 0 <= k < n - |pivots| ==> BitAt(c, k) == BitAt(c', k) {
      forall r | 0 <= r < n ensures HandOut(pivots, c, n)[r] == HandOut(pivots, c', n)[r] {
        if r !in pivots {
          FreeMonotone(pivots, r, n);
        }
      }
    }
  }

  lemma FactoredPivots(m: Mat, cols: seq<Vec>, rows: seq<Vec>, pivots: seq<nat>, t: nat, n: nat)
    requires Factored(m, cols, rows, pivots, t, n)
    ensures Distinct(pivots, n)
  {
    forall s, s' | 0 <= s < s' < t ensures pivots[s] != pivots[s'] {
      assert E(cols, s', pivots[s']) && !E(cols, s', pivots[s]);
    }
  }

  lemma FollowsIsLeading(draws: seq<Result<Draw>>, cols: seq<Vec>, rows: seq<Vec>, pivots: seq<nat>, n: nat)
    requires Follows(draws, cols, rows, pivots, n, n)
    ensures Leading(cols, pivots, n, n) && Sized(rows, n)
  {
    hide FirstOne, Tail, HandOut;
    forall s | 0 <= s < n
      ensures |cols[s]| == n && FirstOne(cols[s], pivots[s], n) && |rows[s]| == n
    {
      assert FromDraw(draws[s], cols[s], rows[s], pivots[..s], pivots[s], s, n);
    }
  }

  /** Different matrices come from different bits. */
  lemma SameMatrixSameBits(draws: seq<Result<Draw>>, draws': seq<Result<Draw>>, m: Mat, n: nat)
    requires Generates(draws, m, n) && Generates(draws', m, n)
    ensures SameBits(draws, draws', n)
  {
    hide Factored, Leading, Sized, Follows, Distinct, FromDraw, SameDraw;
    var cols: seq<Vec>, rows: seq<Vec>, pivots: seq<nat> :|
      Factored(m, cols, rows, pivots, n, n) && Follows(draws, cols, rows, pivots, n, n);
    var cols': seq<Vec>, rows': seq<Vec>, pivots': seq<nat> :|
      Factored(m, cols', rows', pivots', n, n) && Follows(draws', cols', rows', pivots', n, n);
    FollowsIsLeading(draws, cols, rows, pivots, n);
    FollowsIsLeading(draws', cols', rows', pivots', n);
    FactorsAgree(m, cols, rows, pivots, cols', rows', pivots', n, n);
    FactoredPivots(m, cols, rows, pivots, n, n);
    FollowSizes(draws, cols, rows, pivots, n);
    FollowSizes(draws', cols', rows', pivots', n);
    assert cols == cols[..n] == cols'[..n] == cols' && rows == rows[..n] == rows'[..n] == rows';
    assert pivots == pivots[..n] == pivots'[..n] == pivots';
    forall j | 0 <= j < n ensures SameDraw(draws[j], draws'[j], j, n) {
      SameFactorsSameDraw(draws, draws', cols, rows, pivots, j, n);
    }
  }

  lemma FollowSizes(draws: seq<Result<Draw>>, cols: seq<Vec>, rows: seq<Vec>, pivots: seq<nat>, n: nat)
    requires Follows(draws, cols, rows, pivots, n, n)
    ensures |draws| >= n && |cols| == |rows| == |pivots| == n
  {}

  lemma SameFactorsSameDraw(draws: seq<Result<Draw>>, draws': seq<Result<Draw>>, cols: seq<Vec>, rows: seq<Vec>,
                            pivots: seq<nat>, j: nat, n: nat)
    requires Follows(draws, cols, rows, pivots, n, n) && Follows(draws', cols, rows, pivots, n, n)
    requires Distinct(pivots, n) && j < n
    ensures SameDraw(draws[j], draws'[j], j, n)
  {
    hide Tail, HandOut, FirstOne, BitAt;
    assert FromDraw(draws[j], cols[j], rows[j], pivots[..j], pivots[j], j, n);
    assert FromDraw(draws'[j], cols[j], rows[j], pivots[..j], pivots[j], j, n);
    TailBits(draws[j].value.b, draws'[j].value.b, j, n);
    HandOutBits(pivots[..j], draws[j].value.c, draws'[j].value.c, n);
  }

  lemma SameDrawSameFactors(d: Result<Draw>, d': Result<Draw>, col: Vec, row: Vec, col': Vec, row': Vec,
                            before: seq<nat>, pivot: nat, pivot': nat, j: nat, n: nat)
    requires FromDraw(d, col, row, before, pivot, j, n) && FromDraw(d', col', row', before, pivot', j, n)
    requires SameDraw(d, d', j, n) && Distinct(before, n) && |before| == j < n
    ensures col == col' && row == row' && pivot == pivot'
  {
    hide BitAt, Tail, HandOut;
    TailBits(d.value.b, d'.value.b, j, n);
    HandOutBits(before, d.value.c, d'.value.c, n);
  }

  lemma {:induction false} FactorsFollow(draws: seq<Result<Draw>>, draws': seq<Result<Draw>>, cols: seq<Vec>,
                                         rows: seq<Vec>, pivots: seq<nat>, cols': seq<Vec>, rows': seq<Vec>,
                                         pivots': seq<nat>, t: nat, n: nat)
    requires Follows(draws, cols, rows, pivots, n, n) && Follows(draws', cols', rows', pivots', n, n)
    requires SameBits(draws, draws', n) && Distinct(pivots, n) && t <= n
    ensures cols[..t] == cols'[..t] && rows[..t] == rows'[..t] && pivots[..t] == pivots'[..t]
    decreases t
  {
    hide FromDraw, SameDraw;
    if t > 0 {
      var j := t - 1;
      FactorsFollow(draws, draws', cols, rows, pivots, cols', rows', pivots', j, n);
      SameDrawSameFactors(draws[j], draws'[j], cols[j], rows[j], cols'[j], rows'[j], pivots[..j], pivots[j],
                          pivots'[j], j, n);
      assert cols[..t] == cols[..j] + [cols[j]] && cols'[..t] == cols'[..j] + [cols'[j]];
      assert rows[..t] == rows[..j] + [rows[j]] && rows'[..t] == rows'[..j] + [rows'[j]];
      assert pivots[..t] == pivots[..j] + [pivots[j]] && pivots'[..t] == pivots'[..j] + [pivots'[j]];
    }
  }

  lemma ProductIsOne(m: Mat, m': Mat, cols: seq<Vec>, rows: seq<Vec>, pivots: seq<nat>, n: nat)
    requires Factored(m, cols, rows, pivots, n, n) && Factored(m', cols, rows, pivots, n, n)
    ensures m == m'
  {
    MatExt(m, m', n);
  }

  /** The bits used determine the matrix. */
  lemma SameBitsSameMatrix(draws: seq<Result<Draw>>, draws': seq<Result<Draw>>, m: Mat, m': Mat, n: nat)
    requires Generates(draws, m, n) && Generates(draws', m', n) && SameBits(draws, draws', n)
    ensures m == m'
  {
    hide Factored, Follows, Distinct, SameBits;
    var cols: seq<Vec>, rows: seq<Vec>, pivots: seq<nat> :|
      Factored(m, cols, rows, pivots, n, n) && Follows(draws, cols, rows, pivots, n, n);
    var cols': seq<Vec>, rows': seq<Vec>, pivots': seq<nat> :|
      Factored(m', cols', rows', pivots', n, n) && Follows(draws', cols', rows', pivots', n, n);
    FactoredPivots(m, cols, rows, pivots, n, n);
    FactorsFollow(draws, draws', cols, rows, pivots, cols', rows', pivots', n, n);
    FollowSizes(draws, cols, rows, pivots, n);
    FollowSizes(draws', cols', rows', pivots', n);
    assert cols == cols[..n] == cols'[..n] == cols' && rows == rows[..n] == rows'[..n] == rows';
    assert pivots == pivots[..n] == pivots'[..n] == pivots';
    ProductIsOne(m, m', cols, rows, pivots, n);
  }

  /** One matrix for each choice of the bits used, and one choice for each matrix. */
  lemma OneToOne(draws: seq<Result<Draw>>, draws': seq<Result<Draw>>, m: Mat, m': Mat, n: nat)
    requires Generates(draws, m, n) && Generates(draws', m', n)
    ensures m == m' <==> SameBits(draws, draws', n)
  {
    if m == m' {
      SameMatrixSameBits(draws, draws', m, n);
    }
    if SameBits(draws, draws', n) {
      SameBitsSameMatrix(draws, draws', m, m', n);
    }
  }

  // ---------- every nonsingular matrix ----------

  /**
   * `t` steps of taking a matrix apart: what is left has zeros in the columns and the selected rows dealt with.
   */
  ghost predicate Peeled(m: Mat, cols: seq<Vec>, rows: seq<Vec>, pivots: seq<nat>, t: nat, n: nat) {
    && IsMat(m, n) && |cols| == |rows| == |pivots| == t <= n && Leading(cols, pivots, t, n) && Sized(rows, n)
    && (forall s, k :: 0 <= s < t && 0 <= k <= s ==> E(rows, s, k) == (k == s))
    && (forall s, s' :: 0 <= s < s' < t ==> !E(cols, s', pivots[s]))
    && (forall i, k :: 0 <= i < n && 0 <= k < t ==> m[i][k] == Part(cols, rows, i, k, t))
    && (forall s, k :: 0 <= s < t && 0 <= k < n ==> m[pivots[s]][k] == Part(cols, rows, pivots[s], k, t))
  }

  /** What is left of an entry. */
  function Left(m: Mat, cols: seq<Vec>, rows: seq<Vec>, i: int, k: int, t: nat): bool {
    E(m, i, k) != Part(cols, rows, i, k, t)
  }

  function LeftColumn(m: Mat, cols: seq<Vec>, rows: seq<Vec>, t: nat, n: nat): (col: Vec)
    ensures |col| == n
  {
    seq(n, i => Left(m, cols, rows, i, t, t))
  }

  function LeftRow(m: Mat, cols: seq<Vec>, rows: seq<Vec>, p: nat, t: nat, n: nat): (row: Vec)
    ensures |row| == n
  {
    seq(n, k => Left(m, cols, rows, p, k, t))
  }

  lemma PartNext(cols: seq<Vec>, rows: seq<Vec>, col: Vec, row: Vec, i: int, k: int, t: nat)
    requires |cols| == |rows| == t
    ensures Part(cols + [col], rows + [row], i, k, t + 1) == (Part(cols, rows, i, k, t) != (At(col, i) && At(row, k)))
  {
    PartSame(cols, rows, cols + [col], rows + [row], i, k, t);
  }

  /** Peeling off the next column, as long as it is not zero. */
  lemma PeelNext(m: Mat, cols: seq<Vec>, rows: seq<Vec>, pivots: seq<nat>, t: nat, p: nat, n: nat)
    requires Peeled(m, cols, rows, pivots, t, n) && t < n && FirstOne(LeftColumn(m, cols, rows, t, n), p, n)
    ensures Peeled(m, cols + [LeftColumn(m, cols, rows, t, n)], rows + [LeftRow(m, cols, rows, p, t, n)],
                   pivots + [p], t + 1, n)
  {
    var col, row := LeftColumn(m, cols, rows, t, n), LeftRow(m, cols, rows, p, t, n);
    var cols', rows', pivots' := cols + [col], rows + [row], pivots + [p];
    forall i, k | 0 <= i < n && 0 <= k < n
      ensures Part(cols', rows', i, k, t + 1) == (Part(cols, rows, i, k, t) != (col[i] && row[k]))
    {
      PartNext(cols, rows, col, row, i, k, t);
    }
    hide Part;
    assert forall s :: 0 <= s < t ==> !col[pivots[s]];
    assert forall k :: 0 <= k <= t ==> row[k] == (k == t);
    forall s, s' | 0 <= s < s' < t + 1 ensures !E(cols', s', pivots'[s]) {
      if s' < t {
        assert !E(cols, s', pivots[s]);
      }
    }
    forall s, k | 0 <= s < t + 1 && 0 <= k <= s ensures E(rows', s, k) == (k == s) {
      if s < t {
        assert E(rows, s, k) == (k == s);
      }
    }
  }

  lemma RowDotUpdate(rows: seq<Vec>, v: Vec, s: nat, b: bool, x: nat, n: nat)
    requires |v| == n && s < n
    ensures RowDot(rows, v[s := v[s] != b], x, n) == (RowDot(rows, v, x, n) != (E(rows, x, s) && b))
  {
    var v', g := v[s := v[s] != b], k => k == s && E(rows, x, s) && b;
    SumSingle(g, n, s);
    SumXor(k => E(rows, x, k) && At(v, k), g, k => E(rows, x, k) && At(v', k), n);
  }

  ghost predicate UnitUpper(rows: seq<Vec>) {
    forall s, k :: 0 <= s < |rows| && 0 <= k <= s ==> E(rows, s, k) == (k == s)
  }

  /** A vector with a one at `t`, none behind it, that every row from `s` on sends to zero. */
  lemma {:induction false} BackSubstitute(rows: seq<Vec>, t: nat, s: nat, n: nat) returns (v: Vec)
    requires |rows| == t < n && UnitUpper(rows) && s <= t
    ensures |v| == n && v[t] && (forall k :: t < k < n ==> !v[k])
    ensures forall x :: s <= x < t ==> !RowDot(rows, v, x, n)
    decreases t - s
  {
    if s == t {
      v := Unit(n, t);
    } else {
      var w := BackSubstitute(rows, t, s + 1, n);
      var b := RowDot(rows, w, s, n);
      v := w[s := w[s] != b];
      forall x | s <= x < t ensures !RowDot(rows, v, x, n) {
        RowDotUpdate(rows, w, s, b, x, n);
        assert E(rows, x, s) == (x == s);
      }
    }
  }

  /** What a sum of outer products makes of a vector that all its rows send to zero. */
  lemma NothingLeft(m: Mat, cols: seq<Vec>, rows: seq<Vec>, v: Vec, t: nat, i: nat, n: nat)
    requires IsMat(m, n) && |v| == n && i < n && forall k :: 0 <= k < n && v[k] ==> m[i][k] == Part(cols, rows, i, k, t)
    requires forall s :: 0 <= s < t ==> !RowDot(rows, v, s, n)
    ensures !Dot(Row(m, i), v, n)
  {
    var a, b, c := s => E(cols, s, i), (s: int, k: int) => E(rows, s, k), k => At(v, k);
    var ab, bc := k => Part(cols, rows, i, k, t), s => RowDot(rows, v, s, n);
    forall k | 0 <= k < n ensures ab(k) == Sum(s => a(s) && b(s, k), t) {
      SumExt(s => E(cols, s, i) && E(rows, s, k), s => a(s) && b(s, k), t);
    }
    forall s | 0 <= s < t ensures bc(s) == Sum(k => b(s, k) && c(k), n) {
      SumExt(k => E(rows, s, k) && At(v, k), k => b(s, k) && c(k), n);
    }
    TripleProduct(a, b, c, ab, bc, t, n);
    SumSingle(s => a(s) && bc(s), t, -1);
    SumExt(k => At(Row(m, i), k) && At(v, k), k => ab(k) && c(k), n);
  }

  /** With nothing left of the next column, the matrix sends a vector with a one there to zero. */
  lemma ZeroColumn(m: Mat, cols: seq<Vec>, rows: seq<Vec>, pivots: seq<nat>, t: nat, n: nat) returns (v: Vec)
    requires Peeled(m, cols, rows, pivots, t, n) && t < n
    requires forall i :: 0 <= i < n ==> !LeftColumn(m, cols, rows, t, n)[i]
    ensures |v| == n && v != Zero(n) && Apply(m, v, n) == Zero(n)
  {
    v := BackSubstitute(rows, t, 0, n);
    assert v[t] && !Zero(n)[t];
    forall i | 0 <= i < n ensures !Dot(Row(m, i), v, n) {
      forall k | 0 <= k < n && v[k] ensures m[i][k] == Part(cols, rows, i, k, t) {
        assert k == t ==> !LeftColumn(m, cols, rows, t, n)[i];
      }
      NothingLeft(m, cols, rows, v, t, i, n);
    }
  }

  /** As long as the matrix is nonsingular, the next column is not zero. */
  lemma ColumnNotZero(m: Mat, cols: seq<Vec>, rows: seq<Vec>, pivots: seq<nat>, t: nat, n: nat)
    requires Peeled(m, cols, rows, pivots, t, n) && t < n && Nonsingular(m, n)
    ensures exists i :: 0 <= i < n && LeftColumn(m, cols, rows, t, n)[i]
  {
    if forall i :: 0 <= i < n ==> !LeftColumn(m, cols, rows, t, n)[i] {
      var v := ZeroColumn(m, cols, rows, pivots, t, n);
    }
  }

  lemma {:induction false} FirstOf(col: Vec, i: nat) returns (p: nat)
    requires i < |col| && col[i]
    ensures p <= i && FirstOne(col, p, |col|)
  {
    if j :| 0 <= j < i && col[j] {
      p := FirstOf(col, j);
    } else {
      p := i;
    }
  }

  lemma {:induction false} PeelAll(m: Mat, t: nat, n: nat) returns (cols: seq<Vec>, rows: seq<Vec>, pivots: seq<nat>)
    requires IsMat(m, n) && Nonsingular(m, n) && t <= n
    ensures Peeled(m, cols, rows, pivots, t, n)
  {
    if t == 0 {
      return [], [], [];
    }
    cols, rows, pivots := PeelAll(m, t - 1, n);
    ColumnNotZero(m, cols, rows, pivots, t - 1, n);
    var col := LeftColumn(m, cols, rows, t - 1, n);
    var i: nat :| i < n && col[i];
    var p := FirstOf(col, i);
    PeelNext(m, cols, rows, pivots, t - 1, p, n);
    cols, rows, pivots := cols + [col], rows + [LeftRow(m, cols, rows, p, t - 1, n)], pivots + [p];
  }

  lemma PeeledIsFactored(m: Mat, cols: seq<Vec>, rows: seq<Vec>, pivots: seq<nat>, n: nat)
    requires Peeled(m, cols, rows, pivots, n, n)
    ensures Factored(m, cols, rows, pivots, n, n)
  {
    forall i, k | 0 <= i < n && 0 <= k < n ensures m[i][k] == Sum(s => E(cols, s, i) && E(rows, s, k), n) {
      assert m[i][k] == Part(cols, rows, i, k, n);
    }
    forall s | 0 <= s < n ensures pivots[s] < n && E(cols, s, pivots[s]) {
      assert FirstOne(cols[s], pivots[s], n);
    }
  }

  // ---------- the draws behind given factors ----------

  lemma {:induction false} BitOfPack(bits: seq<bool>, count: nat, k: nat)
    requires |bits| == 8 * count && k < |bits|
    ensures BitAt(Pack(bits, count), k) == bits[k]
  {
    if k < 8 * (count - 1) {
      BitOfPack(bits[..8 * (count - 1)], count - 1, k);
      assert Pack(bits, count)[k / 8] == Pack(bits[..8 * (count - 1)], count - 1)[k / 8];
    } else {
      assert Pack(bits, count)[count - 1] == bits[8 * (count - 1)..];
    }
  }

  /** Bytes that start with the given bits. */
  function Bytes(bits: seq<bool>): (b: seq<byte>)
    ensures 8 * |b| >= |bits|
  {
    Pack(bits + seq(8 * RoundToBytes(|bits|) - |bits|, _ => false), RoundToBytes(|bits|))
  }

  lemma BytesBits(bits: seq<bool>, k: nat)
    requires k < |bits|
    ensures BitAt(Bytes(bits), k) == bits[k]
  {
    BitOfPack(bits + seq(8 * RoundToBytes(|bits|) - |bits|, _ => false), RoundToBytes(|bits|), k);
  }

  /** The free row of the given rank. */
  function NthFree(pivots: seq<nat>, t: nat, n: nat): nat {
    if n == 0 then 0
    else if n - 1 !in pivots && FreeBelow(pivots, n - 1) == t then n - 1
    else NthFree(pivots, t, n - 1)
  }

  lemma {:induction false} NthFreeIs(pivots: seq<nat>, r: nat, n: nat)
    requires r < n && r !in pivots
    ensures NthFree(pivots, FreeBelow(pivots, r), n) == r
  {
    if r < n - 1 {
      FreeMonotone(pivots, r, n - 1);
      NthFreeIs(pivots, r, n - 1);
    }
  }

  /** The bits of a column at the free rows, in order. */
  function Gather(before: seq<nat>, col: Vec, count: nat, n: nat): (bits: seq<bool>)
    ensures |bits| == count
  {
    seq(count, x requires 0 <= x => At(col, NthFree(before, x, n)))
  }

  lemma GatherHandsOut(before: seq<nat>, col: Vec, n: nat)
    requires Distinct(before, n) && |col| == n && |before| <= n && forall s :: 0 <= s < |before| ==> !col[before[s]]
    ensures HandOut(before, Bytes(Gather(before, col, n - |before|, n)), n) == col
  {
    hide BitAt, Bytes;
    FreeCount(before, n);
    var bits := Gather(before, col, n - |before|, n);
    forall r | 0 <= r < n ensures HandOut(before, Bytes(bits), n)[r] == col[r] {
      if r !in before {
        FreeMonotone(before, r, n);
        BytesBits(bits, FreeBelow(before, r));
        NthFreeIs(before, r, n);
      }
    }
  }

  lemma RowBack(row: Vec, j: nat, n: nat)
    requires |row| == n && j < n && forall k :: 0 <= k <= j ==> row[k] == (k == j)
    ensures Tail(Bytes(row[j + 1..]), j, n) == row
  {
    hide BitAt, Bytes;
    forall k | 0 <= k < n ensures Tail(Bytes(row[j + 1..]), j, n)[k] == row[k] {
      if k > j {
        BytesBits(row[j + 1..], k - j - 1);
      }
    }
  }

  lemma ColumnHasBit(col: Vec, before: seq<nat>, c: seq<byte>, pivot: nat, n: nat)
    requires Distinct(before, n) && |before| < n && pivot < n && HandOut(before, c, n) == col && col[pivot]
    ensures HasNonzero(c, n - |before|)
  {
    hide BitAt;
    FreeCount(before, n);
    assert HandOut(before, c, n)[pivot];
    FreeMonotone(before, pivot, n);
  }

  lemma DrawFor(col: Vec, row: Vec, before: seq<nat>, pivot: nat, j: nat, n: nat) returns (d: Result<Draw>)
    requires |col| == |row| == n && j == |before| < n && Distinct(before, n) && FirstOne(col, pivot, n)
    requires (forall k :: 0 <= k <= j ==> row[k] == (k == j)) && forall s :: 0 <= s < j ==> !col[before[s]]
    ensures FromDraw(d, col, row, before, pivot, j, n) && GoodDraw(d, j, n)
  {
    hide BitAt, Bytes, HandOut, Tail, HasNonzero, Distinct, Gather;
    var bits, rest := Gather(before, col, n - j, n), row[j + 1..];
    d := Ok(Draw(Bytes(rest), Bytes(bits)));
    GatherHandsOut(before, col, n);
    RowBack(row, j, n);
    ColumnHasBit(col, before, Bytes(bits), pivot, n);
  }

  lemma {:induction false} DrawsFor(m: Mat, cols: seq<Vec>, rows: seq<Vec>, pivots: seq<nat>, t: nat, n: nat)
    returns (draws: seq<Result<Draw>>)
    requires Peeled(m, cols, rows, pivots, n, n) && Factored(m, cols, rows, pivots, n, n) && t <= n
    ensures |draws| == t && Follows(draws, cols[..t], rows[..t], pivots[..t], t, n)
    ensures forall j :: 0 <= j < t ==> GoodDraw(draws[j], j, n)
  {
    hide Peeled, Factored, FromDraw, GoodDraw;
    if t == 0 {
      return [];
    }
    var j := t - 1;
    var rest := DrawsFor(m, cols, rows, pivots, j, n);
    var d := DrawAt(m, cols, rows, pivots, j, n);
    draws := rest + [d];
    FollowsLonger(rest, d, cols[..j], rows[..j], pivots[..j], j, n);
    FollowsMore(draws, cols[..j], rows[..j], pivots[..j], cols[j], rows[j], pivots[j], j, n);
    assert cols[..t] == cols[..j] + [cols[j]] && rows[..t] == rows[..j] + [rows[j]];
    assert pivots[..t] == pivots[..j] + [pivots[j]];
  }

  lemma FollowsLonger(draws: seq<Result<Draw>>, d: Result<Draw>, cols: seq<Vec>, rows: seq<Vec>, pivots: seq<nat>,
                      t: nat, n: nat)
    requires Follows(draws, cols, rows, pivots, t, n)
    ensures Follows(draws + [d], cols, rows, pivots, t, n)
  {
    hide FromDraw;
  }

  lemma DrawAt(m: Mat, cols: seq<Vec>, rows: seq<Vec>, pivots: seq<nat>, j: nat, n: nat) returns (d: Result<Draw>)
    requires Peeled(m, cols, rows, pivots, n, n) && Factored(m, cols, rows, pivots, n, n) && j < n
    ensures |cols| == |rows| == |pivots| == n
    ensures FromDraw(d, cols[j], rows[j], pivots[..j], pivots[j], j, n) && GoodDraw(d, j, n)
  {
    FactoredPivots(m, cols, rows, pivots, n, n);
    forall k | 0 <= k <= j ensures rows[j][k] == (k == j) {
      assert E(rows, j, k) == (k == j);
    }
    forall s | 0 <= s < j ensures !cols[j][pivots[..j][s]] {
      assert !E(cols, j, pivots[s]);
    }
    d := DrawFor(cols[j], rows[j], pivots[..j], pivots[j], j, n);
  }

  /** Every nonsingular matrix is what the generator makes of some outcome of the random source. */
  lemma EveryNonsingular(m: Mat, n: nat) returns (draws: seq<Result<Draw>>)
    requires IsMat(m, n) && Nonsingular(m, n)
    ensures |draws| == n && (forall j :: 0 <= j < n ==> draws[j].Ok? && GoodDraw(draws[j], j, n))
    ensures Generates(draws, m, n)
  {
    var cols, rows, pivots := PeelAll(m, n, n);
    PeeledIsFactored(m, cols, rows, pivots, n);
    draws := DrawsFor(m, cols, rows, pivots, n, n);
    AllOk(draws, cols[..n], rows[..n], pivots[..n], n);
    assert cols[..n] == cols && rows[..n] == rows && pivots[..n] == pivots;
  }

  lemma AllOk(draws: seq<Result<Draw>>, cols: seq<Vec>, rows: seq<Vec>, pivots: seq<nat>, n: nat)
    requires Follows(draws, cols, rows, pivots, n, n)
    ensures forall j :: 0 <= j < n ==> draws[j].Ok?
  {
    forall j | 0 <= j < n ensures draws[j].Ok? {
      assert FromDraw(draws[j], cols[j], rows[j], pivots[..j], pivots[j], j, n);
    }
  }
}
