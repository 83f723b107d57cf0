// Model of stego_gen_user_keys in src/stego.c: read and write keys cut out of a matrix and its inverse.

/** Key generation: read key a and write key b have scalar product 1 when a = b and 0 otherwise. */
module StegoKeys {
  import opened BitUtil
  import opened Errors
  import opened Gf2
  import opened Matrix
  import opened MatrixGen
  import opened Vector
  import opened Stego
  import opened Levels

  const MATRIX_SIZE: nat := STEGO_COVER_FILE_COUNT * STEGO_KEY_SIZE
  const STEGO_USER_KEY_SIZE: nat := STEGO_KEY_SIZE * STEGO_LEVELS_PER_PASSWORD

  /** The bytes of one matrix row. */
  function RowBytes(buf: seq<byte>, row: nat): (key: seq<byte>)
    requires |buf| == MATRIX_SIZE && row < STEGO_COVER_FILE_COUNT
    ensures |key| == STEGO_KEY_SIZE
  {
    buf[row * STEGO_KEY_SIZE..(row + 1) * STEGO_KEY_SIZE]
  }

  /** The copy of one user's `STEGO_USER_KEY_SIZE` bytes, seen as one key per internal level. */
  function UserKeys(buf: seq<byte>, user: nat): (keys: seq<seq<byte>>)
    requires |buf| == MATRIX_SIZE && user < STEGO_USER_LEVEL_COUNT
    ensures |keys| == STEGO_LEVELS_PER_PASSWORD
    ensures forall l :: 0 <= l < |keys| ==> |keys[l]| == STEGO_KEY_SIZE
  {
    var block := buf[user * STEGO_USER_KEY_SIZE..(user + 1) * STEGO_USER_KEY_SIZE];
    seq(STEGO_LEVELS_PER_PASSWORD, l requires 0 <= l < STEGO_LEVELS_PER_PASSWORD =>
        block[l * STEGO_KEY_SIZE..(l + 1) * STEGO_KEY_SIZE])
  }

  lemma UserKeyIsRow(buf: seq<byte>, user: nat, l: nat)
    requires |buf| == MATRIX_SIZE && user < STEGO_USER_LEVEL_COUNT && l < STEGO_LEVELS_PER_PASSWORD
    ensures UserKeys(buf, user)[l] == RowBytes(buf, user * STEGO_LEVELS_PER_PASSWORD + l)
  {}

  /** Rows of 256 bits fall on byte boundaries, so the bytes of a row are the row. */
  lemma RowBits(buf: seq<byte>, row: nat, c: nat, n: nat)
    requires |buf| == MATRIX_SIZE && row < STEGO_COVER_FILE_COUNT && c < STEGO_COVER_FILE_COUNT == n
    ensures BitAt(RowBytes(buf, row), c) == E(View(buf, n), row, c)
  {
    ViewCell(buf, row, c, n);
    assert (row * n + c) / 8 == row * STEGO_KEY_SIZE + c / 8 && (row * n + c) % 8 == c % 8;
  }

  /** Rows of a matrix against rows of the transposed inverse. */
  lemma RowProduct(r: seq<byte>, w: seq<byte>, inv: Mat, a: nat, b: nat, n: nat)
    requires |r| == |w| == MATRIX_SIZE && n == STEGO_COVER_FILE_COUNT && a < n && b < n
    requires Mul(View(r, n), inv, n) == Identity(n) && View(w, n) == Transpose(inv, n) && IsMat(inv, n)
    ensures BitDot(RowBytes(r, a), RowBytes(w, b), n) == (a == b)
  {
    hide View, Mul, BitAt, RowBytes;
    forall k | 0 <= k < n
      ensures (BitAt(RowBytes(r, a), k) && BitAt(RowBytes(w, b), k)) == (E(View(r, n), a, k) && E(inv, k, b))
    {
      RowBits(r, a, k, n);
      RowBits(w, b, k, n);
    }
    SumExt(k => BitAt(RowBytes(r, a), k) && BitAt(RowBytes(w, b), k), k => E(View(r, n), a, k) && E(inv, k, b), n);
    assert Mul(View(r, n), inv, n)[a][b] == Entry(View(r, n), inv, a, b, n);
    assert Identity(n)[a][b] == (a == b);
  }

  /** The keys of two users, cut out of dual buffers. */
  lemma UserKeysRelated(r: seq<byte>, w: seq<byte>, inv: Mat, u: nat, v: nat, n: nat)
    requires |r| == |w| == MATRIX_SIZE && n == STEGO_COVER_FILE_COUNT
    requires u < STEGO_USER_LEVEL_COUNT && v < STEGO_USER_LEVEL_COUNT
    requires Mul(View(r, n), inv, n) == Identity(n) && View(w, n) == Transpose(inv, n) && IsMat(inv, n)
    ensures Related(UserKeys(r, u), UserKeys(w, v), u == v)
  {
    hide View, Mul, BitDot, RowBytes, UserKeys;
    forall l, l' | 0 <= l < STEGO_LEVELS_PER_PASSWORD && 0 <= l' < STEGO_LEVELS_PER_PASSWORD
      ensures BitDot(UserKeys(r, u)[l], UserKeys(w, v)[l'], STEGO_COVER_FILE_COUNT) == (u == v && l == l')
    {
      UserKeyIsRow(r, u, l);
      UserKeyIsRow(w, v, l');
      RowProduct(r, w, inv, u * STEGO_LEVELS_PER_PASSWORD + l, v * STEGO_LEVELS_PER_PASSWORD + l', n);
    }
  }

  ghost predicate KeysFrom(keys: seq<StegoKey>, r: seq<byte>, w: seq<byte>)
    requires |r| == |w| == MATRIX_SIZE && |keys| <= STEGO_USER_LEVEL_COUNT
  {
    forall u :: 0 <= u < |keys| ==> keys[u].readKeys == UserKeys(r, u) && keys[u].writeKeys == UserKeys(w, u)
  }

  /** The two buffers hold a matrix and the transpose of its inverse. */
  ghost predicate Dual(r: seq<byte>, w: seq<byte>, inv: Mat, n: nat) {
    && |r| == |w| == MATRIX_SIZE && n == STEGO_COVER_FILE_COUNT
    && Inverses(View(r, n), inv, n) && View(w, n) == Transpose(inv, n)
  }

  /**
   * The keys are cut out of a matrix and its inverse: read key `l` of user `u` is row 4u + l of the one, and write
   * key `l` is column 4u + l of the other.
   */
  ghost predicate CutFrom(keys: seq<StegoKey>, r: Mat, inv: Mat) {
    forall u :: 0 <= u < |keys| ==> UserCutFrom(keys[u], r, inv, u)
  }

  ghost predicate UserCutFrom(key: StegoKey, r: Mat, inv: Mat, u: nat) {
    && |key.readKeys| == |key.writeKeys| == STEGO_LEVELS_PER_PASSWORD
    && forall l, k :: 0 <= l < STEGO_LEVELS_PER_PASSWORD && 0 <= k < STEGO_COVER_FILE_COUNT ==>
         && BitAt(key.readKeys[l], k) == E(r, u * STEGO_LEVELS_PER_PASSWORD + l, k)
         && BitAt(key.writeKeys[l], k) == E(inv, k, u * STEGO_LEVELS_PER_PASSWORD + l)
  }

  lemma UserIsCut(key: StegoKey, r: seq<byte>, w: seq<byte>, inv: Mat, u: nat, n: nat)
    requires |r| == |w| == MATRIX_SIZE && n == STEGO_COVER_FILE_COUNT && u < STEGO_USER_LEVEL_COUNT && IsMat(inv, n)
    requires key.readKeys == UserKeys(r, u) && key.writeKeys == UserKeys(w, u) && View(w, n) == Transpose(inv, n)
    ensures UserCutFrom(key, View(r, n), inv, u)
  {
    hide View, BitAt, RowBytes, UserKeys;
    forall l, k | 0 <= l < STEGO_LEVELS_PER_PASSWORD && 0 <= k < STEGO_COVER_FILE_COUNT
      ensures BitAt(key.readKeys[l], k) == E(View(r, n), u * STEGO_LEVELS_PER_PASSWORD + l, k)
      ensures BitAt(key.writeKeys[l], k) == E(inv, k, u * STEGO_LEVELS_PER_PASSWORD + l)
    {
      UserKeyIsRow(r, u, l);
      UserKeyIsRow(w, u, l);
      RowBits(r, u * STEGO_LEVELS_PER_PASSWORD + l, k, n);
      RowBits(w, u * STEGO_LEVELS_PER_PASSWORD + l, k, n);
    }
  }

  lemma KeysAreCut(keys: seq<StegoKey>, r: seq<byte>, w: seq<byte>, inv: Mat, n: nat)
    requires |r| == |w| == MATRIX_SIZE && n == STEGO_COVER_FILE_COUNT
    requires IsMat(inv, n) && View(w, n) == Transpose(inv, n)
    requires |keys| <= STEGO_USER_LEVEL_COUNT && KeysFrom(keys, r, w)
    ensures CutFrom(keys, View(r, n), inv)
  {
    hide View, UserCutFrom, Transpose, UserKeys;
    forall u | 0 <= u < |keys| ensures UserCutFrom(keys[u], View(r, n), inv, u) {
      UserIsCut(keys[u], r, w, inv, u, n);
    }
  }

  /** The two matrices: generated, inverted, and the inverse transposed in its own buffer. */
  method GenKeyMatrices(readKeys: array<byte>, writeKeys: array<byte>, draws: seq<Result<Draw>>)
    returns (ret: Status, ghost inv: Mat)
    requires readKeys.Length == writeKeys.Length == MATRIX_SIZE && readKeys != writeKeys
    requires |draws| == STEGO_COVER_FILE_COUNT
    requires forall j :: 0 <= j < |draws| ==> GoodDraw(draws[j], j, STEGO_COVER_FILE_COUNT)
    modifies readKeys, writeKeys
    ensures ret == if SourceFails(draws) then Failed(EIO) else Done
    ensures ret == Done ==> Dual(readKeys[..], writeKeys[..], inv, STEGO_COVER_FILE_COUNT)
    ensures ret == Done ==> Generates(draws, View(readKeys[..], STEGO_COVER_FILE_COUNT), STEGO_COVER_FILE_COUNT)
  {
    hide View, Mul, Nonsingular, GoodDraw, Transpose, Generates;
    inv := [];
    var dim := STEGO_COVER_FILE_COUNT;
    ret := MatrixGenNonsing(readKeys, dim, draws);
    if ret != Done {
      return;
    }
    ret := MatrixInvert(writeKeys, readKeys, dim);
    if ret != Done {
      return;
    }
    inv := View(writeKeys[..], dim);
    MatrixTranspose(writeKeys, writeKeys, dim);
  }

  /**
   * `stego_gen_user_keys`: for every count up to the limit, and whatever the random source delivers, the keys
   * are independent; the call fails only for a larger count or when the random source does. Each user gets the AES
   * key drawn for that user and the rows, four for each, of the matrix that the draws stand for and of its
   * transposed inverse.
   */
  method StegoGenUserKeys(count: nat, draws: seq<Result<Draw>>, aesKeys: seq<Result<seq<byte>>>)
    returns (ret: Result<seq<StegoKey>>)
    requires |draws| == STEGO_COVER_FILE_COUNT && |aesKeys| == count
    requires forall j :: 0 <= j < |draws| ==> GoodDraw(draws[j], j, STEGO_COVER_FILE_COUNT)
    ensures ret.Err? ==> ret.errno == if count > STEGO_USER_LEVEL_COUNT then EINVAL else EIO
    ensures ret.Err? <==> count > STEGO_USER_LEVEL_COUNT || SourceFails(draws) || SourceFails(aesKeys)
    ensures ret.Ok? ==> |ret.value| == count && KeysIndependent(ret.value)
    ensures ret.Ok? ==> forall u :: 0 <= u < count ==> aesKeys[u].Ok? && ret.value[u].aesKey == aesKeys[u].value
    ensures ret.Ok? ==> exists r, inv ::
      && Generates(draws, r, STEGO_COVER_FILE_COUNT) && Inverses(r, inv, STEGO_COVER_FILE_COUNT)
      && CutFrom(ret.value, r, inv)
  {
    if count > STEGO_USER_LEVEL_COUNT {
      return Err(EINVAL);
    }
    hide Dual, GoodDraw, KeysIndependent, SourceFails, Generates, Inverses, CutFrom, View;
    var readKeys := new byte[MATRIX_SIZE](_ => ZERO_BYTE);
    var writeKeys := new byte[MATRIX_SIZE](_ => ZERO_BYTE);
    var status: Status;
    ghost var inv: Mat;
    status, inv := GenKeyMatrices(readKeys, writeKeys, draws);
    if status != Done {
      return Err(EIO);
    }

    ret := CutKeys(readKeys[..], writeKeys[..], count, aesKeys, inv);
  }

  /** The copying loop of `stego_gen_user_keys`. */
  method CutKeys(r: seq<byte>, w: seq<byte>, count: nat, aesKeys: seq<Result<seq<byte>>>, ghost inv: Mat)
    returns (ret: Result<seq<StegoKey>>)
    requires Dual(r, w, inv, STEGO_COVER_FILE_COUNT) && |aesKeys| == count <= STEGO_USER_LEVEL_COUNT
    ensures ret.Err? ==> ret.errno == EIO
    ensures ret.Err? <==> SourceFails(aesKeys)
    ensures ret.Ok? ==> |ret.value| == count && KeysIndependent(ret.value)
    ensures ret.Ok? ==> forall u :: 0 <= u < count ==> aesKeys[u].Ok? && ret.value[u].aesKey == aesKeys[u].value
    ensures Inverses(View(r, STEGO_COVER_FILE_COUNT), inv, STEGO_COVER_FILE_COUNT)
    ensures ret.Ok? ==> CutFrom(ret.value, View(r, STEGO_COVER_FILE_COUNT), inv)
  {
    hide MakeKey, KeysIndependent, KeysFrom, Dual, CutFrom, Inverses, View;
    DualMeans(r, w, inv);
    var keys: seq<StegoKey> := [];
    NoKeysYet(r, w);
    for i := 0 to count
      invariant |keys| == i && (forall k :: 0 <= k < i ==> aesKeys[k].Ok?)
      invariant KeysFrom(keys, r, w) && forall u :: 0 <= u < i ==> keys[u].aesKey == aesKeys[u].value
    {
      if aesKeys[i].Err? {
        return Err(EIO);
      }
      KeysFromNext(keys, aesKeys[i].value, r, w);
      keys := keys + [MakeKey(aesKeys[i].value, r, w, i)];
    }
    KeysFromIndependent(keys, r, w, inv, STEGO_COVER_FILE_COUNT);
    KeysAreCut(keys, r, w, inv, STEGO_COVER_FILE_COUNT);
    return Ok(keys);
  }

  /** The key of one user: a fresh AES key and the user's block of both buffers. */
  function MakeKey(aesKey: seq<byte>, r: seq<byte>, w: seq<byte>, user: nat): StegoKey
    requires |r| == |w| == MATRIX_SIZE && user < STEGO_USER_LEVEL_COUNT
  {
    StegoKey(aesKey, UserKeys(r, user), UserKeys(w, user))
  }

  lemma DualMeans(r: seq<byte>, w: seq<byte>, inv: Mat)
    requires Dual(r, w, inv, STEGO_COVER_FILE_COUNT)
    ensures |r| == |w| == MATRIX_SIZE && IsMat(inv, STEGO_COVER_FILE_COUNT)
    ensures Inverses(View(r, STEGO_COVER_FILE_COUNT), inv, STEGO_COVER_FILE_COUNT)
    ensures View(w, STEGO_COVER_FILE_COUNT) == Transpose(inv, STEGO_COVER_FILE_COUNT)
  {
    hide View, Mul;
  }

  lemma NoKeysYet(r: seq<byte>, w: seq<byte>)
    requires |r| == |w| == MATRIX_SIZE
    ensures KeysFrom([], r, w)
  {}

  lemma KeysFromNext(keys: seq<StegoKey>, aesKey: seq<byte>, r: seq<byte>, w: seq<byte>)
    requires |r| == |w| == MATRIX_SIZE && |keys| < STEGO_USER_LEVEL_COUNT && KeysFrom(keys, r, w)
    ensures KeysFrom(keys + [MakeKey(aesKey, r, w, |keys|)], r, w) && MakeKey(aesKey, r, w, |keys|).aesKey == aesKey
  {}

  /** Some call to the random source failed. */
  predicate SourceFails<T>(draws: seq<Result<T>>) {
    exists i :: 0 <= i < |draws| && draws[i].Err?
  }

  lemma KeysFromIndependent(keys: seq<StegoKey>, r: seq<byte>, w: seq<byte>, inv: Mat, n: nat)
    requires Dual(r, w, inv, n) && |keys| <= STEGO_USER_LEVEL_COUNT && KeysFrom(keys, r, w)
    ensures KeysIndependent(keys)
  {
    hide View, Mul, UserKeys, Related;
    forall u, v | 0 <= u < |keys| && 0 <= v < |keys| ensures Related(keys[u].readKeys, keys[v].writeKeys, u == v) {
      UserKeysRelated(r, w, inv, u, v, n);
    }
  }

  /** Byte-wise scalar products of whole keys see exactly the duality the independence theorems need. */
  method ValidateKeys(keys: seq<StegoKey>, u: nat, l: nat, v: nat, l': nat) returns (product: bool)
    requires KeysIndependent(keys) && u < |keys| && v < |keys|
    requires l < STEGO_LEVELS_PER_PASSWORD && l' < STEGO_LEVELS_PER_PASSWORD
    ensures product == (u == v && l == l')
  {
    assert Related(keys[u].readKeys, keys[v].writeKeys, u == v);
    product := VectorScalarProduct(keys[u].readKeys[l], keys[v].writeKeys[l'], STEGO_KEY_SIZE);
  }
}
