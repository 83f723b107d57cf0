// Model of src/stego.c: what reading and writing a level mean, and why the levels are independent.

/** Levels hidden in XOR combinations of shared cover files, byte by byte. */
module Stego {
  import opened BitUtil
  import opened Matrix
  import opened Vector

  // src/stego.h, src/enc.h and src/keytab.h
  const STEGO_COVER_FILE_COUNT: nat := 256
  const STEGO_KEY_SIZE: nat := 32
  const STEGO_LEVELS_PER_PASSWORD: nat := 4
  const STEGO_USER_LEVEL_COUNT: nat := 16
  const ENC_KEY_SIZE: nat := 16
  const ENC_BLOCK_SIZE: nat := 16
  const KEYTAB_SIZE: nat :=
    16 + (ENC_KEY_SIZE + STEGO_LEVELS_PER_PASSWORD * STEGO_KEY_SIZE * 2 + 16) * STEGO_USER_LEVEL_COUNT

  datatype StegoKey = StegoKey(aesKey: seq<byte>, readKeys: seq<seq<byte>>, writeKeys: seq<seq<byte>>) {
    predicate Valid() {
      && |readKeys| == |writeKeys| == STEGO_LEVELS_PER_PASSWORD
      && (forall l :: 0 <= l < STEGO_LEVELS_PER_PASSWORD ==> |readKeys[l]| == STEGO_KEY_SIZE)
      && (forall l :: 0 <= l < STEGO_LEVELS_PER_PASSWORD ==> |writeKeys[l]| == STEGO_KEY_SIZE)
    }
  }

  /** Symmetric encryption with a key and an offset; only what the source relies on is known of it. */
  datatype Cipher = Cipher(enc: (seq<byte>, nat, seq<byte>) -> seq<byte>,
      dec: (seq<byte>, nat, seq<byte>) -> seq<byte>) {
    ghost predicate Valid() {
      && (forall k, off, x :: |enc(k, off, x)| == |x|)
      && (forall k, off, x :: |dec(k, off, x)| == |x|)
      && (forall k, off, x :: dec(k, off, enc(k, off, x)) == x)
    }
  }

  // ---------- sizes ----------

  function ComputeLevelSize(diskSize: nat): nat {
    if diskSize < KEYTAB_SIZE then 0 else (diskSize - KEYTAB_SIZE) / STEGO_COVER_FILE_COUNT
  }

  function StegoComputeUserLevelSize(diskSize: nat): nat {
    STEGO_LEVELS_PER_PASSWORD * ComputeLevelSize(diskSize)
  }

  function CheckParameters(userLevelSize: nat, off: nat, size: nat): bool {
    off < userLevelSize && size < userLevelSize - off && size % ENC_BLOCK_SIZE == 0 && off % ENC_BLOCK_SIZE == 0
  }

  function CoverOffset(levelSize: nat, i: nat, off: nat): nat {
    KEYTAB_SIZE + i * levelSize + off
  }

  /** The disk holds `STEGO_COVER_FILE_COUNT` covers of `levelSize` bytes after the key table. */
  predicate DiskFits(diskSize: nat, levelSize: nat) {
    KEYTAB_SIZE + STEGO_COVER_FILE_COUNT * levelSize <= diskSize
  }

  /** Each of the covers is the largest that the key table leaves room for. */
  lemma LevelSizeIs(diskSize: nat)
    ensures diskSize < KEYTAB_SIZE ==> ComputeLevelSize(diskSize) == 0
    ensures diskSize >= KEYTAB_SIZE ==>
      var l := ComputeLevelSize(diskSize);
      KEYTAB_SIZE + STEGO_COVER_FILE_COUNT * l <= diskSize < KEYTAB_SIZE + STEGO_COVER_FILE_COUNT * (l + 1)
  {}

  /** Exactly the ranges of whole cipher blocks that end before the end of the level. */
  lemma AcceptedExactly(diskSize: nat, off: nat, size: nat)
    ensures CheckParameters(StegoComputeUserLevelSize(diskSize), off, size) <==>
      && diskSize >= KEYTAB_SIZE && size % 16 == 0 && off % 16 == 0
      && off + size < 4 * ((diskSize - KEYTAB_SIZE) / 256)
  {}

  /** Every cover access lies past the key table and inside the disk. */
  lemma CoverAccess(diskSize: nat, levelSize: nat, i: nat, off: nat)
    requires i < STEGO_COVER_FILE_COUNT && off < levelSize && DiskFits(diskSize, levelSize)
    ensures KEYTAB_SIZE <= CoverOffset(levelSize, i, off) < diskSize
  {
    CellBelow(i, STEGO_COVER_FILE_COUNT, levelSize, off);
  }

  /** A disk position names its cover and the offset in it uniquely. */
  lemma CoverIndex(levelSize: nat, i: nat, off: nat)
    requires off < levelSize
    ensures (CoverOffset(levelSize, i, off) - KEYTAB_SIZE) / levelSize == i
    ensures (CoverOffset(levelSize, i, off) - KEYTAB_SIZE) % levelSize == off
  {
    var y := i * levelSize + off;
    DivModUnique(y, levelSize, i, off);
    assert CoverOffset(levelSize, i, off) - KEYTAB_SIZE == y;
  }

  lemma LevelSizeFits(diskSize: nat)
    ensures ComputeLevelSize(diskSize) > 0 ==> DiskFits(diskSize, ComputeLevelSize(diskSize))
  {}

  // ---------- one byte of a level ----------

  function ByteAt(disk: seq<byte>, p: int): byte {
    if 0 <= p < |disk| then disk[p] else ZERO_BYTE
  }

  /** The XOR of byte `off` of those among the first `n` covers that the key selects. */
  function Combine(key: seq<byte>, disk: seq<byte>, levelSize: nat, off: nat, n: nat): byte {
    if n == 0 then ZERO_BYTE
    else Xor(Combine(key, disk, levelSize, off, n - 1),
        Mask(BitAt(key, n - 1), ByteAt(disk, CoverOffset(levelSize, n - 1, off))))
  }

  /** The key of the internal level that byte `y` of a user level belongs to. */
  function KeyFor(keys: seq<seq<byte>>, levelSize: nat, y: nat): seq<byte>
    requires levelSize > 0
  {
    if y / levelSize < |keys| then keys[y / levelSize] else []
  }

  /** Byte `y` of the level that the read keys select: bytes run through the internal levels one after another. */
  function LevelByte(readKeys: seq<seq<byte>>, disk: seq<byte>, levelSize: nat, y: nat): byte
    requires levelSize > 0
  {
    Combine(KeyFor(readKeys, levelSize, y), disk, levelSize, y % levelSize, STEGO_COVER_FILE_COUNT)
  }

  function ReadRange(readKeys: seq<seq<byte>>, disk: seq<byte>, levelSize: nat, off: nat, size: nat): (r: seq<byte>)
    requires levelSize > 0
    ensures |r| == size
  {
    seq<byte>(size, x requires 0 <= x => LevelByte(readKeys, disk, levelSize, off + x))
  }

  /** Disk position `p` is byte `off` of a cover that the key selects, among the first `n` covers. */
  predicate Touches(key: seq<byte>, levelSize: nat, off: nat, n: nat, p: int)
    requires levelSize > 0
  {
    p >= KEYTAB_SIZE && (p - KEYTAB_SIZE) / levelSize < n && (p - KEYTAB_SIZE) % levelSize == off &&
        BitAt(key, (p - KEYTAB_SIZE) / levelSize)
  }

  /** The disk after XORing `delta` into byte `off` of every cover the key selects. */
  function Poke(disk: seq<byte>, key: seq<byte>, levelSize: nat, off: nat, delta: byte): (d: seq<byte>)
    requires levelSize > 0
    ensures |d| == |disk|
  {
    seq(|disk|, p requires 0 <= p < |disk| => Xor(disk[p],
        Mask(Touches(key, levelSize, off, STEGO_COVER_FILE_COUNT, p), delta)))
  }

  /** XORs `delta` into a user level, one byte after the other. */
  function XorIntoLevel(disk: seq<byte>, writeKeys: seq<seq<byte>>, levelSize: nat, off: nat,
                        delta: seq<byte>): (d: seq<byte>)
    requires levelSize > 0
    ensures |d| == |disk|
    decreases |delta|
  {
    if delta == [] then disk
    else
      var y := off + |delta| - 1;
      Poke(XorIntoLevel(disk, writeKeys, levelSize, off, delta[..|delta| - 1]),
           KeyFor(writeKeys, levelSize, y), levelSize, y % levelSize, delta[|delta| - 1])
  }

  /** What a poke does to byte `off'` of cover `i`. */
  lemma PokeAt(disk: seq<byte>, wkey: seq<byte>, levelSize: nat, off: nat, delta: byte, i: nat, off': nat)
    requires off < levelSize && off' < levelSize && i < STEGO_COVER_FILE_COUNT && DiskFits(|disk|, levelSize)
    ensures ByteAt(Poke(disk, wkey, levelSize, off, delta), CoverOffset(levelSize, i, off'))
         == Xor(ByteAt(disk, CoverOffset(levelSize, i, off')), Mask(off == off' && BitAt(wkey, i), delta))
  {
    hide Xor, Mask, BitAt, CoverOffset, DiskFits;
    CoverAccess(|disk|, levelSize, i, off');
    CoverIndex(levelSize, i, off');
  }

  /**
   * A poke shows in a combination as often as the two keys share covers: once if their product is 1, not at all
   * if it is 0.
   */
  lemma {:induction false} PokeSeen(rkey: seq<byte>, disk: seq<byte>, wkey: seq<byte>, levelSize: nat, off: nat,
                                    delta: byte, off': nat, n: nat)
    requires off < levelSize && off' < levelSize && n <= STEGO_COVER_FILE_COUNT && DiskFits(|disk|, levelSize)
    ensures Combine(rkey, Poke(disk, wkey, levelSize, off, delta), levelSize, off', n)
         == Xor(Combine(rkey, disk, levelSize, off', n), Mask(off == off' && BitDot(rkey, wkey, n), delta))
  {
    hide Xor, Mask, Poke, BitDot, BitAt, ByteAt, CoverOffset, DiskFits;
    if n > 0 {
      PokeSeen(rkey, disk, wkey, levelSize, off, delta, off', n - 1);
      PokeAt(disk, wkey, levelSize, off, delta, n - 1, off');
      BitDotStep(rkey, wkey, n - 1);
      PokeTerm(Combine(rkey, disk, levelSize, off', n - 1), ByteAt(disk, CoverOffset(levelSize, n - 1, off')), delta,
               off == off' && BitDot(rkey, wkey, n - 1), off == off' && BitAt(wkey, n - 1), BitAt(rkey, n - 1));
    } else {
      BitDotEmpty(rkey, wkey);
      MaskLaws(false, ZERO_BYTE, delta);
    }
  }

  lemma BitDotStep(a: seq<byte>, b: seq<byte>, n: nat)
    ensures BitDot(a, b, n + 1) == (BitDot(a, b, n) != (BitAt(a, n) && BitAt(b, n)))
  {}

  /** Regrouping of one term of the sum: pure XOR algebra. */
  lemma PokeTerm(sum: byte, x: byte, delta: byte, seen: bool, hit: bool, sel: bool)
    ensures Xor(Xor(sum, Mask(seen, delta)), Mask(sel, Xor(x, Mask(hit, delta))))
         == Xor(Xor(sum, Mask(sel, x)), Mask(seen != (sel && hit), delta))
  {
    var l := Xor(Xor(sum, Mask(seen, delta)), Mask(sel, Xor(x, Mask(hit, delta))));
    var r := Xor(Xor(sum, Mask(sel, x)), Mask(seen != (sel && hit), delta));
    forall k | 0 <= k < 8 ensures l[k] == r[k] {
      assert Xor(x, Mask(hit, delta))[k] == (x[k] != (hit && delta[k]));
    }
    assert l == r;
  }

  /** The products of all read keys of one user with all write keys of another (or the same) user. */
  ghost predicate Related(readKeys: seq<seq<byte>>, writeKeys: seq<seq<byte>>, same: bool) {
    && |readKeys| == |writeKeys| == STEGO_LEVELS_PER_PASSWORD
    && forall l, l' :: 0 <= l < STEGO_LEVELS_PER_PASSWORD && 0 <= l' < STEGO_LEVELS_PER_PASSWORD ==>
         BitDot(readKeys[l], writeKeys[l'], STEGO_COVER_FILE_COUNT) == (same && l == l')
  }

  lemma InternalLevel(levelSize: nat, y: nat)
    requires y < STEGO_LEVELS_PER_PASSWORD * levelSize
    ensures levelSize > 0 && y / levelSize < STEGO_LEVELS_PER_PASSWORD && y % levelSize < levelSize
  {
    QuotientBelow(y, levelSize, STEGO_LEVELS_PER_PASSWORD);
  }

  /** Two positions of a user level coincide when their internal level and offset do. */
  lemma SamePosition(levelSize: nat, y: nat, z: nat)
    requires levelSize > 0 && y / levelSize == z / levelSize && y % levelSize == z % levelSize
    ensures y == z
  {}

  /** A poke at position `z` of a user level shows at position `z` of that level only. */
  lemma PokeLevel(readKeys: seq<seq<byte>>, disk: seq<byte>, writeKeys: seq<seq<byte>>, same: bool,
                  levelSize: nat, z: nat, delta: byte, y: nat)
    requires Related(readKeys, writeKeys, same) && DiskFits(|disk|, levelSize)
    requires z < STEGO_LEVELS_PER_PASSWORD * levelSize && y < STEGO_LEVELS_PER_PASSWORD * levelSize
    ensures levelSize > 0
    ensures LevelByte(readKeys, Poke(disk, KeyFor(writeKeys, levelSize, z), levelSize, z % levelSize, delta), levelSize,
        y)
         == if same && y == z then Xor(LevelByte(readKeys, disk, levelSize, y), delta)
             else LevelByte(readKeys, disk, levelSize, y)
  {
    hide Poke, Combine, BitDot, Xor, Mask, DiskFits;
    InternalLevel(levelSize, y);
    InternalLevel(levelSize, z);
    var l, l' := y / levelSize, z / levelSize;
    assert BitDot(readKeys[l], writeKeys[l'], STEGO_COVER_FILE_COUNT) == (same && l == l');
    PokeSeen(readKeys[l], disk, writeKeys[l'], levelSize, z % levelSize, delta, y % levelSize, STEGO_COVER_FILE_COUNT);
    if l == l' && y % levelSize == z % levelSize {
      SamePosition(levelSize, y, z);
    }
    MaskLaws(same && y == z, LevelByte(readKeys, disk, levelSize, y), delta);
  }

  /** XORing into a range of a level changes exactly that range of that level, and nothing of any other level. */
  lemma {:induction false} XorSeen(readKeys: seq<seq<byte>>, disk: seq<byte>, writeKeys: seq<seq<byte>>, same: bool,
                                   levelSize: nat, off: nat, delta: seq<byte>, y: nat)
    requires Related(readKeys, writeKeys, same) && DiskFits(|disk|, levelSize) && levelSize > 0
    requires off + |delta| <= STEGO_LEVELS_PER_PASSWORD * levelSize && y < STEGO_LEVELS_PER_PASSWORD * levelSize
    ensures LevelByte(readKeys, XorIntoLevel(disk, writeKeys, levelSize, off, delta), levelSize, y)
         == if same && off <= y < off + |delta| then Xor(LevelByte(readKeys, disk, levelSize, y), delta[y - off])
            else LevelByte(readKeys, disk, levelSize, y)
    decreases |delta|
  {
    hide LevelByte, KeyFor, Poke, Xor, Related;
    if delta != [] {
      var last := |delta| - 1;
      XorSeen(readKeys, disk, writeKeys, same, levelSize, off, delta[..last], y);
      PokeLevel(readKeys, XorIntoLevel(disk, writeKeys, levelSize, off, delta[..last]), writeKeys, same,
                levelSize, off + last, delta[last], y);
    }
  }

  /** Nothing before the covers (the key table) or after them changes. */
  lemma {:induction false} XorOutside(disk: seq<byte>, writeKeys: seq<seq<byte>>, levelSize: nat, off: nat,
                                      delta: seq<byte>, p: nat)
    requires levelSize > 0 && p < |disk|
    requires p < KEYTAB_SIZE || p >= KEYTAB_SIZE + STEGO_COVER_FILE_COUNT * levelSize
    ensures XorIntoLevel(disk, writeKeys, levelSize, off, delta)[p] == disk[p]
    decreases |delta|
  {
    if delta != [] {
      XorOutside(disk, writeKeys, levelSize, off, delta[..|delta| - 1], p);
      if p >= KEYTAB_SIZE {
        PastCovers(levelSize, p);
      }
      MaskLaws(false, disk[p], delta[|delta| - 1]);
    }
  }

  lemma PastCovers(levelSize: nat, p: nat)
    requires levelSize > 0 && p >= KEYTAB_SIZE + STEGO_COVER_FILE_COUNT * levelSize
    ensures (p - KEYTAB_SIZE) / levelSize >= STEGO_COVER_FILE_COUNT
  {
    QuotientBelow(p - KEYTAB_SIZE, levelSize, STEGO_COVER_FILE_COUNT);
  }
}
