// Model of the loops in src/stego.c that run over the mapped disk, changing buffers in place.

/** The cover-file loops, range splitting, and the level read and write built from them. */
module StegoOps {
  import opened BitUtil
  import opened Errors
  import opened Matrix
  import opened Vector
  import opened Stego
  import opened Levels

  // ---------- one internal level ----------

  /** The disk after XORing `delta` into one internal level at `off`, for the first `n` covers. */
  function Spread(disk: seq<byte>, key: seq<byte>, levelSize: nat, off: nat, delta: seq<byte>, n: nat): (d: seq<byte>)
    requires levelSize > 0
    ensures |d| == |disk|
  {
    seq<byte>(|disk|, p requires 0 <= p < |disk| => SpreadByte(disk[p], key, levelSize, off, delta, n, p))
  }

  function SpreadByte(b: byte, key: seq<byte>, levelSize: nat, off: nat, delta: seq<byte>, n: nat, p: nat): byte
    requires levelSize > 0
  {
    if p >= KEYTAB_SIZE && (p - KEYTAB_SIZE) / levelSize < n && off <= (p - KEYTAB_SIZE) % levelSize < off + |delta|
    then Xor(b, Mask(BitAt(key, (p - KEYTAB_SIZE) / levelSize), delta[(p - KEYTAB_SIZE) % levelSize - off]))
    else b
  }

  /** Position `p` lies in the range of cover `i` exactly when its quotient and remainder say so. */
  lemma InCover(levelSize: nat, i: nat, off: nat, size: nat, p: nat)
    requires levelSize > 0 && off + size <= levelSize
    ensures (CoverOffset(levelSize, i, off) <= p < CoverOffset(levelSize, i, off) + size) <==>
            (p >= KEYTAB_SIZE && (p - KEYTAB_SIZE) / levelSize == i &&
                off <= (p - KEYTAB_SIZE) % levelSize < off + size)
    ensures p >= KEYTAB_SIZE && (p - KEYTAB_SIZE) / levelSize == i ==>
            p == CoverOffset(levelSize, i, (p - KEYTAB_SIZE) % levelSize)
  {
    if CoverOffset(levelSize, i, off) <= p < CoverOffset(levelSize, i, off) + size {
      DivModUnique(p - KEYTAB_SIZE, levelSize, i, p - KEYTAB_SIZE - i * levelSize);
    }
  }

  /** One more cover: what XORing `delta` into its range does. */
  lemma SpreadStep(disk: seq<byte>, disk': seq<byte>, key: seq<byte>, levelSize: nat, off: nat, delta: seq<byte>,
                   i: nat)
    requires levelSize > 0 && off + |delta| <= levelSize && |disk'| == |disk|
    requires forall p :: 0 <= p < |disk| ==>
      disk'[p] == if CoverOffset(levelSize, i, off) <= p < CoverOffset(levelSize, i, off) + |delta|
                  then Xor(Spread(disk, key, levelSize, off, delta, i)[p],
                      Mask(BitAt(key, i), delta[p - CoverOffset(levelSize, i, off)]))
                  else Spread(disk, key, levelSize, off, delta, i)[p]
    ensures disk' == Spread(disk, key, levelSize, off, delta, i + 1)
  {
    hide Xor, Mask;
    forall p | 0 <= p < |disk| ensures disk'[p] == Spread(disk, key, levelSize, off, delta, i + 1)[p] {
      InCover(levelSize, i, off, |delta|, p);
    }
  }

  lemma SpreadNone(disk: seq<byte>, key: seq<byte>, levelSize: nat, off: nat, delta: seq<byte>)
    requires levelSize > 0
    ensures Spread(disk, key, levelSize, off, delta, 0) == disk
  {}

  /** Cover by cover or byte by byte: the disk ends up the same. */
  lemma {:induction false} SpreadIsXorInto(disk: seq<byte>, keys: seq<seq<byte>>, levelSize: nat, off: nat,
                                           prefix: seq<byte>, l: nat, start: nat, delta: seq<byte>)
    requires levelSize > 0 && l < |keys| && off + |prefix| == l * levelSize + start && start + |delta| <= levelSize
    ensures Spread(XorIntoLevel(disk, keys, levelSize, off, prefix), keys[l], levelSize, start, delta,
        STEGO_COVER_FILE_COUNT)
         == XorIntoLevel(disk, keys, levelSize, off, prefix + delta)
    decreases |delta|
  {
    hide Xor, Mask, BitAt;
    var disk0 := XorIntoLevel(disk, keys, levelSize, off, prefix);
    if delta == [] {
      assert prefix + delta == prefix;
      assert Spread(disk0, keys[l], levelSize, start, delta, STEGO_COVER_FILE_COUNT) == disk0;
    } else {
      var last := |delta| - 1;
      SpreadIsXorInto(disk, keys, levelSize, off, prefix, l, start, delta[..last]);
      assert (prefix + delta)[..|prefix + delta| - 1] == prefix + delta[..last];
      DivModUnique(l * levelSize + start + last, levelSize, l, start + last);
      SpreadLast(disk0, keys[l], levelSize, start, delta);
    }
  }

  lemma SpreadLast(disk: seq<byte>, key: seq<byte>, levelSize: nat, start: nat, delta: seq<byte>)
    requires levelSize > 0 && delta != [] && start + |delta| <= levelSize
    ensures Spread(disk, key, levelSize, start, delta, STEGO_COVER_FILE_COUNT)
         == Poke(Spread(disk, key, levelSize, start, delta[..|delta| - 1], STEGO_COVER_FILE_COUNT), key, levelSize,
                 start + |delta| - 1, delta[|delta| - 1])
  {
    hide Xor, BitAt;
    var last := |delta| - 1;
    var s := Spread(disk, key, levelSize, start, delta[..last], STEGO_COVER_FILE_COUNT);
    forall p | 0 <= p < |disk|
      ensures Spread(disk, key, levelSize, start, delta, STEGO_COVER_FILE_COUNT)[p]
           == Poke(s, key, levelSize, start + last, delta[last])[p]
    {
      MaskLaws(false, s[p], delta[last]);
      MaskLaws(false, disk[p], delta[last]);
    }
  }

  /** `read_cover_file_delta`: XORs the keyed combination of the covers into the buffer. */
  method ReadCoverFileDelta(key: seq<byte>, disk: array<byte>, levelSize: nat, off: nat, buf: array<byte>, bufOff: nat,
                            size: nat)
    requires |key| == STEGO_KEY_SIZE && levelSize > 0 && DiskFits(disk.Length, levelSize) && off + size <= levelSize
    requires bufOff + size <= buf.Length && buf != disk
    modifies buf
    ensures forall k :: bufOff <= k < bufOff + size ==>
      buf[k] == Xor(old(buf[k]), Combine(key, disk[..], levelSize, off + k - bufOff, STEGO_COVER_FILE_COUNT))
    ensures forall k :: 0 <= k < buf.Length && !(bufOff <= k < bufOff + size) ==> buf[k] == old(buf[k])
  {
    hide Xor, Mask, GetBit;
    ghost var d := disk[..];
    forall k | bufOff <= k < bufOff + size
      ensures buf[k] == Xor(buf[k], Combine(key, d, levelSize, off + k - bufOff, 0))
    {
      XorLaws(buf[k], ZERO_BYTE, ZERO_BYTE);
    }
    for i := 0 to STEGO_COVER_FILE_COUNT
      invariant forall k :: bufOff <= k < bufOff + size ==>
        buf[k] == Xor(old(buf[k]), Combine(key, d, levelSize, off + k - bufOff, i))
      invariant forall k :: 0 <= k < buf.Length && !(bufOff <= k < bufOff + size) ==> buf[k] == old(buf[k])
    {
      var bit := GetBit(key, i);
      var curOff := CoverOffset(levelSize, i, off);
      CoverRange(disk.Length, levelSize, i, off, size);
      ghost var b0 := buf[..];
      VectorLinearCombination(buf, bufOff, buf, bufOff, disk, curOff, size, bit);
      forall k | bufOff <= k < bufOff + size
        ensures buf[k] == Xor(old(buf[k]), Combine(key, d, levelSize, off + k - bufOff, i + 1))
      {
        assert b0[k] == Xor(old(buf[k]), Combine(key, d, levelSize, off + k - bufOff, i));
        assert CoverOffset(levelSize, i, off + k - bufOff) == k - bufOff + curOff;
        XorLaws(old(buf[k]), Combine(key, d, levelSize, off + k - bufOff, i), Mask(bit, d[k - bufOff + curOff]));
      }
    }
  }

  lemma CoverRange(diskSize: nat, levelSize: nat, i: nat, off: nat, size: nat)
    requires i < STEGO_COVER_FILE_COUNT && DiskFits(diskSize, levelSize) && off + size <= levelSize
    ensures KEYTAB_SIZE <= CoverOffset(levelSize, i, off)
    ensures CoverOffset(levelSize, i, off) + size <= diskSize
  {
    if levelSize > 0 {
      CellBelow(i, STEGO_COVER_FILE_COUNT, levelSize, levelSize - 1);
    }
  }

  lemma MulDistributes(d: nat, i: nat)
    ensures d * (i + 1) == i * d + d
  {}

  /** `write_cover_file_delta`: XORs the buffer into every cover the key selects. */
  method WriteCoverFileDelta(key: seq<byte>, disk: array<byte>, levelSize: nat, off: nat, buf: array<byte>, bufOff: nat,
                             size: nat)
    requires |key| == STEGO_KEY_SIZE && levelSize > 0 && DiskFits(disk.Length, levelSize) && off + size <= levelSize
    requires bufOff + size <= buf.Length && buf != disk
    modifies disk
    ensures disk[..] == Spread(old(disk[..]), key, levelSize, off, buf[bufOff..bufOff + size], STEGO_COVER_FILE_COUNT)
  {
    hide Xor, Mask, GetBit, Spread;
    ghost var d0, delta := disk[..], buf[bufOff..bufOff + size];
    SpreadNone(d0, key, levelSize, off, delta);
    for i := 0 to STEGO_COVER_FILE_COUNT
      invariant disk[..] == Spread(d0, key, levelSize, off, delta, i)
    {
      var bit := GetBit(key, i);
      var curOff := CoverOffset(levelSize, i, off);
      CoverRange(disk.Length, levelSize, i, off, size);
      ghost var d := disk[..];
      VectorLinearCombination(disk, curOff, disk, curOff, buf, bufOff, size, bit);
      forall p | 0 <= p < |d0|
        ensures disk[..][p] == if curOff <= p < curOff + size then Xor(d[p], Mask(bit, delta[p - curOff])) else d[p]
      {}
      SpreadStep(d0, disk[..], key, levelSize, off, delta, i);
    }
  }

  // ---------- ranges over several internal levels ----------

  /** The two operations `merged_cover_file_op` is called with. */
  datatype CoverOp = ReadDelta | WriteDelta

  /** The piece of the range that starts at `processed` lies in internal level `levelIdx` from `curOff` on. */
  predicate PieceStarts(levelSize: nat, off: nat, processed: nat, levelIdx: nat, curOff: nat) {
    levelIdx < STEGO_LEVELS_PER_PASSWORD && curOff < levelSize && off + processed == levelIdx * levelSize + curOff
  }

  lemma NextPiece(levelSize: nat, off: nat, processed: nat, levelIdx: nat, curOff: nat, curSize: nat, size: nat)
    requires PieceStarts(levelSize, off, processed, levelIdx, curOff)
    requires off + size <= STEGO_LEVELS_PER_PASSWORD * levelSize
    requires curSize == if size - processed < levelSize - curOff then size - processed else levelSize - curOff
    requires processed < size
    ensures processed + curSize < size ==> PieceStarts(levelSize, off, processed + curSize, levelIdx + 1, 0)
  {
    if processed + curSize < size {
      var y := off + processed + curSize;
      MulDistributes(levelSize, levelIdx);
      DivModUnique(y, levelSize, levelIdx + 1, 0);
      QuotientBelow(y, levelSize, STEGO_LEVELS_PER_PASSWORD);
    }
  }

  lemma FirstPiece(levelSize: nat, off: nat, size: nat)
    requires levelSize > 0 && off + size <= STEGO_LEVELS_PER_PASSWORD * levelSize && size > 0
    ensures PieceStarts(levelSize, off, 0, off / levelSize, off % levelSize)
  {
    QuotientBelow(off, levelSize, STEGO_LEVELS_PER_PASSWORD);
  }

  /** A byte of the current piece is a byte of the one internal level. */
  lemma PieceByte(keys: seq<seq<byte>>, disk: seq<byte>, levelSize: nat, off: nat, processed: nat, levelIdx: nat,
                  curOff: nat, x: nat)
    requires PieceStarts(levelSize, off, processed, levelIdx, curOff) && processed <= x
    requires curOff + (x - processed) < levelSize
    requires |keys| == STEGO_LEVELS_PER_PASSWORD
    ensures LevelByte(keys, disk, levelSize, off + x)
         == Combine(keys[levelIdx], disk, levelSize, curOff + (x - processed), STEGO_COVER_FILE_COUNT)
  {
    hide Combine;
    DivModUnique(off + x, levelSize, levelIdx, curOff + (x - processed));
  }

  /** `buf` holds its old bytes XORed with those of the level, for the first `n` bytes of the range. */
  ghost predicate ReadSoFar(b0: seq<byte>, b: seq<byte>, keys: seq<seq<byte>>, disk: seq<byte>, levelSize: nat,
                            off: nat, n: nat)
    requires levelSize > 0
  {
    && |b| == |b0| && n <= |b|
    && (forall x :: 0 <= x < n ==> b[x] == Xor(b0[x], LevelByte(keys, disk, levelSize, off + x)))
    && (forall x :: n <= x < |b| ==> b[x] == b0[x])
  }

  lemma ReadPiece(b0: seq<byte>, b: seq<byte>, b': seq<byte>, keys: seq<seq<byte>>, disk: seq<byte>, levelSize: nat,
                  off: nat, processed: nat, levelIdx: nat, curOff: nat, curSize: nat)
    requires PieceStarts(levelSize, off, processed, levelIdx, curOff) && curOff + curSize <= levelSize
    requires |keys| == STEGO_LEVELS_PER_PASSWORD && |b'| == |b| && processed + curSize <= |b|
    requires ReadSoFar(b0, b, keys, disk, levelSize, off, processed)
    requires forall k :: processed <= k < processed + curSize ==>
      b'[k] == Xor(b[k], Combine(keys[levelIdx], disk, levelSize, curOff + k - processed, STEGO_COVER_FILE_COUNT))
    requires forall k :: 0 <= k < |b| && !(processed <= k < processed + curSize) ==> b'[k] == b[k]
    ensures ReadSoFar(b0, b', keys, disk, levelSize, off, processed + curSize)
  {
    hide Combine, LevelByte, Xor;
    forall x | 0 <= x < processed + curSize ensures b'[x] == Xor(b0[x], LevelByte(keys, disk, levelSize, off + x)) {
      if x >= processed {
        PieceByte(keys, disk, levelSize, off, processed, levelIdx, curOff, x);
      }
    }
  }

  /**
   * `merged_cover_file_op`: cuts the range at internal level boundaries. Whatever the cut, reading XORs each
   * byte of the level into the buffer once, and writing is the bytewise XOR into the level.
   */
  method MergedCoverFileOp(op: CoverOp, keys: seq<seq<byte>>, disk: array<byte>, levelSize: nat, off: nat,
                           buf: array<byte>, size: nat)
    requires |keys| == STEGO_LEVELS_PER_PASSWORD
    requires forall l :: 0 <= l < STEGO_LEVELS_PER_PASSWORD ==> |keys[l]| == STEGO_KEY_SIZE
    requires levelSize > 0 && DiskFits(disk.Length, levelSize) && off + size <= STEGO_LEVELS_PER_PASSWORD * levelSize
    requires size <= buf.Length && buf != disk
    modifies buf, disk
    ensures op == ReadDelta ==>
      disk[..] == old(disk[..]) && ReadSoFar(old(buf[..]), buf[..], keys, disk[..], levelSize, off, size)
    ensures op == WriteDelta ==>
      buf[..] == old(buf[..]) && disk[..] == XorIntoLevel(old(disk[..]), keys, levelSize, off, buf[..size])
  {
    hide Xor, Combine, LevelByte, Spread, PieceStarts, ReadSoFar, XorIntoLevel, DiskFits;
    var levelIdx: nat := off / levelSize;
    var curOff: nat := off % levelSize;
    var processed: nat := 0;
    ghost var d0, b0 := disk[..], buf[..];
    NothingYet(b0, keys, d0, levelSize, off);
    if size > 0 {
      FirstPiece(levelSize, off, size);
    }
    while processed < size
      invariant processed <= size
      invariant processed < size ==> PieceStarts(levelSize, off, processed, levelIdx, curOff)
      invariant op == ReadDelta ==> disk[..] == d0 && ReadSoFar(b0, buf[..], keys, d0, levelSize, off, processed)
      invariant op == WriteDelta ==>
        buf[..] == b0 && disk[..] == XorIntoLevel(d0, keys, levelSize, off, b0[..processed])
      decreases size - processed
    {
      var totalRemaining := size - processed;
      PieceIndex(levelSize, off, processed, levelIdx, curOff);
      var levelRemaining := levelSize - curOff;
      var curSize := if totalRemaining < levelRemaining then totalRemaining else levelRemaining;
      ghost var b := buf[..];
      match op {
        case ReadDelta =>
          ReadCoverFileDelta(keys[levelIdx], disk, levelSize, curOff, buf, processed, curSize);
          ReadPiece(b0, b, buf[..], keys, d0, levelSize, off, processed, levelIdx, curOff, curSize);
        case WriteDelta =>
          WriteCoverFileDelta(keys[levelIdx], disk, levelSize, curOff, buf, processed, curSize);
          SpreadIsXorInto(d0, keys, levelSize, off, b0[..processed], levelIdx, curOff,
                          b0[processed..processed + curSize]);
          assert b0[..processed] + b0[processed..processed + curSize] == b0[..processed + curSize];
      }
      NextPiece(levelSize, off, processed, levelIdx, curOff, curSize, size);
      curOff := 0;
      processed := processed + curSize;
      levelIdx := levelIdx + 1;
    }
  }

  lemma NothingYet(b0: seq<byte>, keys: seq<seq<byte>>, disk: seq<byte>, levelSize: nat, off: nat)
    requires levelSize > 0
    ensures ReadSoFar(b0, b0, keys, disk, levelSize, off, 0)
    ensures XorIntoLevel(disk, keys, levelSize, off, b0[..0]) == disk
  {}

  lemma PieceIndex(levelSize: nat, off: nat, processed: nat, levelIdx: nat, curOff: nat)
    requires PieceStarts(levelSize, off, processed, levelIdx, curOff)
    ensures levelIdx < STEGO_LEVELS_PER_PASSWORD && curOff < levelSize
    ensures off + processed == levelIdx * levelSize + curOff
  {}

  // ---------- whole levels ----------

  /** `stego_read_level` into a caller's buffer; the disk is left as it was. */
  method StegoReadLevel(c: Cipher, key: StegoKey, disk: array<byte>, buf: array<byte>, off: nat, size: nat)
    returns (ret: Status)
    requires c.Valid() && key.Valid() && size <= buf.Length && buf != disk
    modifies buf, disk
    ensures disk[..] == old(disk[..])
    ensures ret == if disk.Length >= KEYTAB_SIZE && off + size < 4 * ((disk.Length - KEYTAB_SIZE) / 256) &&
                      size % 16 == 0 && off % 16 == 0 then Done else Failed(EINVAL)
    ensures ret == Done ==> StegoRead(c, key, disk[..], off, size) == Ok(buf[..size]) && buf[size..] == old(buf[size..])
    ensures ret != Done ==> buf[..] == old(buf[..]) && StegoRead(c, key, disk[..], off, size) == Err(EINVAL)
  {
    hide ReadSoFar, ReadRange, LevelByte, ComputeLevelSize;
    var userLevelSize := StegoComputeUserLevelSize(disk.Length);
    var levelSize := ComputeLevelSize(disk.Length);
    AcceptedExactly(disk.Length, off, size);
    if !CheckParameters(userLevelSize, off, size) {
      return Failed(EINVAL);
    }
    LevelSizeFits(disk.Length);
    var data := new byte[size](_ => ZERO_BYTE);
    assert data[..] == seq<byte>(size, _ => ZERO_BYTE);
    MergedCoverFileOp(ReadDelta, key.readKeys, disk, levelSize, off, data, size);
    ZeroThenRead(key.readKeys, disk[..], levelSize, off, size, data[..]);
    var plain := c.dec(key.aesKey, off, data[..]);
    forall i | 0 <= i < size {
      buf[i] := plain[i];
    }
    assert buf[..size] == plain;
    return Done;
  }

  lemma ZeroThenRead(keys: seq<seq<byte>>, disk: seq<byte>, levelSize: nat, off: nat, size: nat, data: seq<byte>)
    requires levelSize > 0 && |data| == size
    requires ReadSoFar(seq<byte>(size, _ => ZERO_BYTE), data, keys, disk, levelSize, off, size)
    ensures data == ReadRange(keys, disk, levelSize, off, size)
  {
    hide LevelByte, Xor;
    forall x | 0 <= x < size ensures data[x] == LevelByte(keys, disk, levelSize, off + x) {
      XorLaws(ZERO_BYTE, LevelByte(keys, disk, levelSize, off + x), ZERO_BYTE);
      XorLaws(LevelByte(keys, disk, levelSize, off + x), ZERO_BYTE, ZERO_BYTE);
    }
  }

  /** `stego_write_level`: the in-place loops compute exactly the write that the independence theorems are about. */
  method StegoWriteLevel(c: Cipher, key: StegoKey, disk: array<byte>, buf: seq<byte>, off: nat) returns (ret: Status)
    requires c.Valid() && key.Valid()
    modifies disk
    ensures ret == if disk.Length >= KEYTAB_SIZE && off + |buf| < 4 * ((disk.Length - KEYTAB_SIZE) / 256) &&
                      |buf| % 16 == 0 && off % 16 == 0 then Done else Failed(EINVAL)
    ensures disk[..] == StegoWrite(c, key, old(disk[..]), off, buf)
  {
    hide ReadSoFar, ReadRange, LevelByte, XorIntoLevel, ComputeLevelSize;
    var userLevelSize := StegoComputeUserLevelSize(disk.Length);
    var levelSize := ComputeLevelSize(disk.Length);
    AcceptedExactly(disk.Length, off, |buf|);
    if !CheckParameters(userLevelSize, off, |buf|) {
      return Failed(EINVAL);
    }
    LevelSizeFits(disk.Length);
    var e := c.enc(key.aesKey, off, buf);
    var encrypted := new byte[|buf|](i requires 0 <= i < |buf| => e[i]);
    assert encrypted[..] == e;
    ghost var d0 := disk[..];
    MergedCoverFileOp(ReadDelta, key.readKeys, disk, levelSize, off, encrypted, |buf|);
    DeltaIsXorAll(e, key.readKeys, d0, levelSize, off, encrypted[..]);
    assert encrypted[..|buf|] == encrypted[..];
    MergedCoverFileOp(WriteDelta, key.writeKeys, disk, levelSize, off, encrypted, |buf|);
    return Done;
  }

  lemma DeltaIsXorAll(e: seq<byte>, keys: seq<seq<byte>>, disk: seq<byte>, levelSize: nat, off: nat, data: seq<byte>)
    requires levelSize > 0 && |data| == |e|
    requires ReadSoFar(e, data, keys, disk, levelSize, off, |e|)
    ensures data == XorAll(e, ReadRange(keys, disk, levelSize, off, |e|))
  {
    hide LevelByte, Xor;
  }
}
