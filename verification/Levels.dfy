// The promise of src/stego.c: the shared disk behaves like one independent byte array per user.

/** Level contents, encrypted reads and writes, and their refinement to independent arrays over whole runs. */
module Levels {
  import opened BitUtil
  import opened Errors
  import opened Stego

  function LevelSizeOf(disk: seq<byte>): nat {
    ComputeLevelSize(|disk|)
  }

  predicate Accepts(disk: seq<byte>, off: nat, size: nat) {
    CheckParameters(StegoComputeUserLevelSize(|disk|), off, size)
  }

  /** The stored (encrypted) contents of a user level. */
  function Level(key: StegoKey, disk: seq<byte>): (r: seq<byte>)
    ensures |r| == StegoComputeUserLevelSize(|disk|)
  {
    if LevelSizeOf(disk) == 0 then []
    else ReadRange(key.readKeys, disk, LevelSizeOf(disk), 0, StegoComputeUserLevelSize(|disk|))
  }

  function XorAll(a: seq<byte>, b: seq<byte>): (r: seq<byte>)
    requires |a| == |b|
    ensures |r| == |a|
  {
    seq<byte>(|a|, k requires 0 <= k < |a| => Xor(a[k], b[k]))
  }

  /** `stego_read_level`: the combination of the covers over the range, decrypted as one unit. */
  function StegoRead(c: Cipher, key: StegoKey, disk: seq<byte>, off: nat, size: nat): Result<seq<byte>> {
    if !Accepts(disk, off, size) then Err(EINVAL)
    else Ok(c.dec(key.aesKey, off, ReadRange(key.readKeys, disk, LevelSizeOf(disk), off, size)))
  }

  /** `stego_write_level`: XORs the difference between the encrypted data and the current contents into the level. */
  function StegoWrite(c: Cipher, key: StegoKey, disk: seq<byte>, off: nat, plain: seq<byte>): (d: seq<byte>)
    ensures |d| == |disk|
  {
    if !Accepts(disk, off, |plain|) || |c.enc(key.aesKey, off, plain)| != |plain| then disk
    else
      var old' := ReadRange(key.readKeys, disk, LevelSizeOf(disk), off, |plain|);
      XorIntoLevel(disk, key.writeKeys, LevelSizeOf(disk), off, XorAll(c.enc(key.aesKey, off, plain), old'))
  }

  /** The keys of different users are unrelated, and each user's read and write keys are dual bases. */
  ghost predicate KeysIndependent(keys: seq<StegoKey>) {
    && (forall u :: 0 <= u < |keys| ==> keys[u].Valid())
    && (forall u, v :: 0 <= u < |keys| && 0 <= v < |keys| ==> Related(keys[u].readKeys, keys[v].writeKeys, u == v))
  }

  lemma RangeOfLevel(key: StegoKey, disk: seq<byte>, off: nat, size: nat)
    requires LevelSizeOf(disk) > 0 && off + size <= StegoComputeUserLevelSize(|disk|)
    ensures ReadRange(key.readKeys, disk, LevelSizeOf(disk), off, size) == Level(key, disk)[off..off + size]
  {
    hide LevelByte;
  }

  /** What one accepted write of user `w` does to byte `y` of the level of user `u`. */
  lemma WriteByte(c: Cipher, keys: seq<StegoKey>, w: nat, disk: seq<byte>, off: nat, plain: seq<byte>, u: nat, y: nat)
    requires KeysIndependent(keys) && c.Valid() && w < |keys| && u < |keys|
    requires Accepts(disk, off, |plain|) && y < StegoComputeUserLevelSize(|disk|)
    ensures LevelSizeOf(disk) > 0
    ensures LevelByte(keys[u].readKeys, StegoWrite(c, keys[w], disk, off, plain), LevelSizeOf(disk), y)
         == if u == w && off <= y < off + |plain| then c.enc(keys[w].aesKey, off, plain)[y - off]
            else LevelByte(keys[u].readKeys, disk, LevelSizeOf(disk), y)
  {
    hide LevelByte, Xor, KeyFor, XorIntoLevel;
    var size := LevelSizeOf(disk);
    LevelSizeFits(|disk|);
    var e := c.enc(keys[w].aesKey, off, plain);
    var delta := XorAll(e, ReadRange(keys[w].readKeys, disk, size, off, |plain|));
    assert Related(keys[u].readKeys, keys[w].writeKeys, u == w);
    XorSeen(keys[u].readKeys, disk, keys[w].writeKeys, u == w, size, off, delta, y);
    if u == w && off <= y < off + |plain| {
      XorCancels(e[y - off], LevelByte(keys[w].readKeys, disk, size, y));
    }
  }

  /** One write refines one update of the writer's array; every other array and the key table stay as they are. */
  lemma WriteRefines(c: Cipher, keys: seq<StegoKey>, w: nat, disk: seq<byte>, off: nat, plain: seq<byte>, u: nat)
    requires KeysIndependent(keys) && c.Valid() && w < |keys| && u < |keys|
    ensures var disk' := StegoWrite(c, keys[w], disk, off, plain);
      Level(keys[u], disk') ==
      if u == w && Accepts(disk, off, |plain|) then Splice(Level(keys[u], disk), off, c.enc(keys[w].aesKey, off, plain))
      else Level(keys[u], disk)
  {
    hide LevelByte, StegoWrite, KeysIndependent;
    var disk' := StegoWrite(c, keys[w], disk, off, plain);
    if Accepts(disk, off, |plain|) {
      forall y | 0 <= y < |Level(keys[u], disk)|
        ensures Level(keys[u], disk')[y] ==
          if u == w && off <= y < off + |plain| then c.enc(keys[w].aesKey, off, plain)[y - off]
              else Level(keys[u], disk)[y]
      {
        WriteByte(c, keys, w, disk, off, plain, u, y);
      }
    } else {
      RejectedWrite(c, keys[w], disk, off, plain);
    }
  }

  lemma RejectedWrite(c: Cipher, key: StegoKey, disk: seq<byte>, off: nat, plain: seq<byte>)
    requires !Accepts(disk, off, |plain|)
    ensures StegoWrite(c, key, disk, off, plain) == disk
  {}

  /** A disk position in the key table or after the last cover. */
  predicate OutsideCovers(disk: seq<byte>, p: int) {
    p < KEYTAB_SIZE || p >= KEYTAB_SIZE + STEGO_COVER_FILE_COUNT * LevelSizeOf(disk)
  }

  /** A write never reaches the key table or the bytes after the last cover. */
  lemma WriteKeepsKeyTable(c: Cipher, key: StegoKey, disk: seq<byte>, off: nat, plain: seq<byte>, p: nat)
    requires p < |disk| && OutsideCovers(disk, p)
    ensures StegoWrite(c, key, disk, off, plain)[p] == disk[p]
  {
    if Accepts(disk, off, |plain|) && |c.enc(key.aesKey, off, plain)| == |plain| {
      var old' := ReadRange(key.readKeys, disk, LevelSizeOf(disk), off, |plain|);
      XorOutside(disk, key.writeKeys, LevelSizeOf(disk), off, XorAll(c.enc(key.aesKey, off, plain), old'), p);
    }
  }

  // ---------- whole runs ----------

  /** One call of `stego_write_level` by some user. */
  datatype Write = Write(user: nat, off: nat, plain: seq<byte>)

  ghost predicate UsersExist(keys: seq<StegoKey>, run: seq<Write>) {
    forall i :: 0 <= i < |run| ==> run[i].user < |keys|
  }

  /** The shared disk after a run. */
  function RunDisk(c: Cipher, keys: seq<StegoKey>, disk: seq<byte>, run: seq<Write>): (d: seq<byte>)
    requires forall i :: 0 <= i < |run| ==> run[i].user < |keys|
    ensures |d| == |disk|
    decreases |run|
  {
    if run == [] then disk
    else
      var op := run[|run| - 1];
      StegoWrite(c, keys[op.user], RunDisk(c, keys, disk, run[..|run| - 1]), op.off, op.plain)
  }

  /** The specification: a private array that only its own user's accepted writes update. */
  function RunLevel(c: Cipher, key: StegoKey, user: nat, diskSize: nat, level: seq<byte>,
                    run: seq<Write>): (l: seq<byte>)
    requires |level| == StegoComputeUserLevelSize(diskSize)
    requires c.Valid()
    ensures |l| == |level|
    decreases |run|
  {
    if run == [] then level
    else
      var before := RunLevel(c, key, user, diskSize, level, run[..|run| - 1]);
      var op := run[|run| - 1];
      if op.user == user && CheckParameters(|level|, op.off, |op.plain|)
      then Splice(before, op.off, c.enc(key.aesKey, op.off, op.plain))
      else before
  }

  /** For every run of writes by every user, the shared disk refines the independent arrays. */
  lemma {:induction false} IndependentLevels(c: Cipher, keys: seq<StegoKey>, disk: seq<byte>, run: seq<Write>, u: nat)
    requires KeysIndependent(keys) && c.Valid() && UsersExist(keys, run) && u < |keys|
    ensures Level(keys[u], RunDisk(c, keys, disk, run)) == RunLevel(c, keys[u], u, |disk|, Level(keys[u], disk), run)
    ensures forall p :: 0 <= p < |disk| && OutsideCovers(disk, p) ==> RunDisk(c, keys, disk, run)[p] == disk[p]
    decreases |run|
  {
    hide Level, StegoWrite, KeysIndependent;
    if run != [] {
      var op, before := run[|run| - 1], RunDisk(c, keys, disk, run[..|run| - 1]);
      IndependentLevels(c, keys, disk, run[..|run| - 1], u);
      WriteRefines(c, keys, op.user, before, op.off, op.plain, u);
      forall p | 0 <= p < |disk| && OutsideCovers(disk, p)
        ensures RunDisk(c, keys, disk, run)[p] == disk[p]
      {
        WriteKeepsKeyTable(c, keys[op.user], before, op.off, op.plain, p);
      }
    }
  }

  // ---------- fixed units ----------

  /**
   * A call that concerns the level of `user` is to exactly the unit (off, size), to a range apart from it, or
   * refused.
   */
  predicate RespectsUnit(diskSize: nat, op: Write, user: nat, off: nat, size: nat) {
    || op.user != user
    || (op.off == off && |op.plain| == size)
    || op.off + |op.plain| <= off || off + size <= op.off
    || !CheckParameters(StegoComputeUserLevelSize(diskSize), op.off, |op.plain|)
  }

  /** The plaintext a user last wrote to a unit, or `initial`. */
  function LastPlain(run: seq<Write>, user: nat, off: nat, size: nat, initial: seq<byte>): seq<byte> {
    if run == [] then initial
    else
      var op := run[|run| - 1];
      if op.user == user && op.off == off && |op.plain| == size then op.plain
      else LastPlain(run[..|run| - 1], user, off, size, initial)
  }

  /**
   * When a level is used in fixed units, reading a unit returns what its user last wrote there, whatever the
   * other users did in between.
   */
  lemma {:induction false} ReadsLastWrite(c: Cipher, keys: seq<StegoKey>, disk: seq<byte>, run: seq<Write>,
                                          u: nat, off: nat, size: nat, initial: seq<byte>)
    requires KeysIndependent(keys) && c.Valid() && UsersExist(keys, run) && u < |keys|
    requires StegoRead(c, keys[u], disk, off, size) == Ok(initial)
    requires forall i :: 0 <= i < |run| ==> RespectsUnit(|disk|, run[i], u, off, size)
    requires size > 0
    ensures StegoRead(c, keys[u], RunDisk(c, keys, disk, run), off, size) == Ok(LastPlain(run, u, off, size, initial))
    decreases |run|
  {
    hide Level, StegoWrite, KeysIndependent, ReadRange;
    if run != [] {
      var op, before := run[|run| - 1], RunDisk(c, keys, disk, run[..|run| - 1]);
      var after := RunDisk(c, keys, disk, run);
      ReadsLastWrite(c, keys, disk, run[..|run| - 1], u, off, size, initial);
      WriteRefines(c, keys, op.user, before, op.off, op.plain, u);
      assert RespectsUnit(|disk|, op, u, off, size);
      RangeOfLevel(keys[u], before, off, size);
      RangeOfLevel(keys[u], after, off, size);
      if op.user == u && Accepts(before, op.off, |op.plain|) {
        var e := c.enc(keys[u].aesKey, op.off, op.plain);
        SpliceSlice(Level(keys[u], before), op.off, e, off, size);
      }
    }
  }
}
