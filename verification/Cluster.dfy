// Model of src/cluster.c: the layout of a level, the allocation bitmap and the cluster links.

/** How a level is divided into table, bitmap and clusters, and how clusters are allocated and linked. */
module Cluster {
  import opened BitUtil
  import opened Errors
  import opened Matrix
  import opened Stego
  import opened Levels

  // src/bft.h and src/cluster.h
  const BFT_ENTRY_SIZE: nat := 92
  const BFT_MAX_ENTRIES: nat := 8192
  const BFT_SIZE: nat := BFT_ENTRY_SIZE * BFT_MAX_ENTRIES
  const CLUSTER_SIZE: nat := 2048
  const CLUSTER_DATA_SIZE: nat := 2044
  const CLUSTER_OFFSET_EOF: nat := 0xFFFF_FFFF
  const BITS_PER_BLOCK: nat := 16 * CHAR_BIT

  // ---------- layout ----------

  function FsCountClusters(levelSize: nat): nat {
    if levelSize <= BFT_SIZE then 0
    else
      var bitsAfterBft := CHAR_BIT * (levelSize - BFT_SIZE);
      if bitsAfterBft < BITS_PER_BLOCK - 1 then 0
      else (bitsAfterBft - BITS_PER_BLOCK + 1) / (CHAR_BIT * CLUSTER_SIZE + 1)
  }

  function FsComputeBitmapSize(clusters: nat): nat {
    16 * ((RoundToBytes(clusters) + 15) / 16)
  }

  /** Where a cluster is accessed: the product of an `int` and a `uint32_t` wraps at 32 bits. */
  function ClusterOffset(clusters: nat, i: nat): nat {
    BFT_SIZE + FsComputeBitmapSize(clusters) + (CLUSTER_SIZE * i) % TWO32
  }

  /** Bytes that a table, a bitmap and that many clusters take. */
  function LayoutSize(clusters: nat): nat {
    BFT_SIZE + FsComputeBitmapSize(clusters) + CLUSTER_SIZE * clusters
  }

  /** The count, for every level size: for each cluster its bytes and one bit, and 127 bits for rounding the bitmap. */
  lemma CountExactly(levelSize: nat)
    ensures var n, bits := FsCountClusters(levelSize), CHAR_BIT * (levelSize - BFT_SIZE);
      if bits < 127 + 16385 then n == 0 else 16385 * n + 127 <= bits < 16385 * (n + 1) + 127
  {}

  lemma BitmapSize(n: nat)
    ensures n <= 8 * FsComputeBitmapSize(n) <= n + 127 && FsComputeBitmapSize(n) % 16 == 0
  {}

  /** The layout fits, and two more clusters never would. */
  lemma LayoutFits(levelSize: nat)
    requires FsCountClusters(levelSize) > 0
    ensures LayoutSize(FsCountClusters(levelSize)) <= levelSize < LayoutSize(FsCountClusters(levelSize) + 2)
  {
    var n := FsCountClusters(levelSize);
    BitmapSize(n);
    BitmapSize(n + 2);
  }

  /** Exactly when the count is not the largest possible and one more cluster would fit. */
  lemma OneMoreFits(levelSize: nat)
    requires FsCountClusters(levelSize) > 0
    ensures var n := FsCountClusters(levelSize); var bits := CHAR_BIT * (levelSize - BFT_SIZE);
      LayoutSize(n + 1) <= levelSize <==>
        (bits - 127) % (CHAR_BIT * CLUSTER_SIZE + 1) >= CHAR_BIT * CLUSTER_SIZE + 1 - n % 128
  {
    var n := FsCountClusters(levelSize);
    var bits, cost := CHAR_BIT * (levelSize - BFT_SIZE), CHAR_BIT * CLUSTER_SIZE + 1;
    assert bits - 127 == cost * n + (bits - 127) % cost;
    BitmapSize(n + 1);
    assert 8 * FsComputeBitmapSize(n + 1) == n + 128 - n % 128;
  }

  lemma CountIs(levelSize: nat, n: nat, rest: nat)
    requires rest <= CHAR_BIT * CLUSTER_SIZE
    requires CHAR_BIT * (levelSize - BFT_SIZE) == (CHAR_BIT * CLUSTER_SIZE + 1) * n + 127 + rest
    ensures FsCountClusters(levelSize) == n
  {}

  /** Levels that hold `n + 1` clusters to the byte are given only `n`, unless `n` fills its bitmap blocks. */
  lemma OneMoreWouldFit(n: nat)
    ensures FsCountClusters(LayoutSize(n + 1)) == if n % 128 == 0 then n + 1 else n
  {
    var bitmap := FsComputeBitmapSize(n + 1);
    assert 8 * bitmap == n + 128 - n % 128;
    assert LayoutSize(n + 1) - BFT_SIZE == bitmap + CLUSTER_SIZE * (n + 1);
    hide FsCountClusters, FsComputeBitmapSize, LayoutSize;
    if n % 128 == 0 {
      CountIs(LayoutSize(n + 1), n + 1, 0);
    } else {
      CountIs(LayoutSize(n + 1), n, CHAR_BIT * CLUSTER_SIZE + 1 - n % 128);
    }
  }

  // ---------- where clusters lie ----------

  /** So many clusters have places of their own. */
  const DISTINCT_CLUSTERS: nat := 2097152

  lemma WrappedOffset(clusters: nat, i: nat)
    ensures ClusterOffset(clusters, i) == ClusterOffset(clusters, 0) + CLUSTER_SIZE * (i % DISTINCT_CLUSTERS)
  {
    assert CLUSTER_SIZE * i == CLUSTER_SIZE * (i % DISTINCT_CLUSTERS) + TWO32 * (i / DISTINCT_CLUSTERS);
  }

  /** The bytes of two clusters have nothing in common. */
  predicate OwnBytes(clusters: nat, i: nat, j: nat) {
    || ClusterOffset(clusters, i) + CLUSTER_SIZE <= ClusterOffset(clusters, j)
    || ClusterOffset(clusters, j) + CLUSTER_SIZE <= ClusterOffset(clusters, i)
  }

  /** Clusters overlap only by being the very same bytes: those of 32-bit products that wrap to the same one. */
  lemma ClustersApart(clusters: nat, i: nat, j: nat)
    ensures OwnBytes(clusters, i, j) <==> i % DISTINCT_CLUSTERS != j % DISTINCT_CLUSTERS
    ensures ClusterOffset(clusters, i) == ClusterOffset(clusters, j) <==> !OwnBytes(clusters, i, j)
  {
    WrappedOffset(clusters, i);
    WrappedOffset(clusters, j);
    hide ClusterOffset;
  }

  /** Exactly up to that many clusters does every one have bytes of its own. */
  lemma AllApart(clusters: nat)
    ensures (forall i, j :: 0 <= i < j < clusters ==> OwnBytes(clusters, i, j)) <==> clusters <= DISTINCT_CLUSTERS
  {
    hide OwnBytes, ClusterOffset;
    if clusters <= DISTINCT_CLUSTERS {
      forall i, j | 0 <= i < j < clusters ensures OwnBytes(clusters, i, j) {
        ClustersApart(clusters, i, j);
      }
    } else {
      ClustersApart(clusters, 0, DISTINCT_CLUSTERS);
    }
  }

  /** On a disk of 256 GiB: the last cluster has the bytes of the first, and though nothing is left, is not refused. */
  lemma WrappedLevel()
    ensures StegoComputeUserLevelSize(274943055376) == 4295985168 == LayoutSize(2097153)
    ensures FsCountClusters(4295985168) == 2097153
    ensures ClusterOffset(2097153, 2097152) == ClusterOffset(2097153, 0)
    ensures CheckParameters(4295985168, ClusterOffset(2097153, 2097152), CLUSTER_SIZE)
  {}

  /** Every cluster lies in the layout, on cipher blocks, and only one can lie at its end. */
  lemma PlaceInLayout(n: nat, i: nat)
    requires i < n
    ensures ClusterOffset(n, i) % 16 == 0 && ClusterOffset(n, i) + CLUSTER_SIZE <= LayoutSize(n)
    ensures ClusterOffset(n, i) + CLUSTER_SIZE == LayoutSize(n) <==> i == n - 1 < DISTINCT_CLUSTERS
  {
    BitmapSize(n);
    WrappedOffset(n, i);
    var base, r := ClusterOffset(n, 0), i % DISTINCT_CLUSTERS;
    assert base == BFT_SIZE + FsComputeBitmapSize(n) && LayoutSize(n) == base + CLUSTER_SIZE * n;
    assert base % 16 == 0;
    hide ClusterOffset, LayoutSize, FsComputeBitmapSize;
    assert r <= i && (r == i <==> i < DISTINCT_CLUSTERS);
  }

  /**
   * Which cluster accesses the strict bound in `check_parameters` accepts: all, except the last cluster of a level
   * that the layout fills to the last byte; and even that one where its offset has wrapped around.
   */
  lemma ClusterAccess(levelSize: nat, i: nat)
    requires i < FsCountClusters(levelSize)
    ensures CheckParameters(levelSize, ClusterOffset(FsCountClusters(levelSize), i), CLUSTER_SIZE) <==>
      !(i == FsCountClusters(levelSize) - 1 < DISTINCT_CLUSTERS && LayoutSize(i + 1) == levelSize)
  {
    var n := FsCountClusters(levelSize);
    LayoutFits(levelSize);
    PlaceInLayout(n, i);
    hide FsCountClusters, ClusterOffset, LayoutSize;
  }

  /** Which levels the layout fills to the last byte. */
  lemma ExactlyFilled(levelSize: nat)
    requires FsCountClusters(levelSize) > 0
    ensures var n := FsCountClusters(levelSize);
      LayoutSize(n) == levelSize <==>
          CHAR_BIT * (levelSize - BFT_SIZE) == (CHAR_BIT * CLUSTER_SIZE + 1) * n + 127 &&
          n % 128 == 1
  {
    var n := FsCountClusters(levelSize);
    assert CHAR_BIT * (levelSize - BFT_SIZE) >= (CHAR_BIT * CLUSTER_SIZE + 1) * n + 127;
    BitmapSize(n);
    BitmapRounding(n);
  }

  lemma BitmapRounding(n: nat)
    ensures 8 * FsComputeBitmapSize(n) == n + 127 <==> n % 128 == 1
  {
    BitmapSize(n);
    hide FsComputeBitmapSize;
    var q, p := FsComputeBitmapSize(n) / 16, n / 128;
    assert 8 * FsComputeBitmapSize(n) == 128 * q && n == 128 * p + n % 128;
  }

  /** Such levels exist: here the only cluster is refused. */
  lemma LastClusterRefused()
    ensures FsCountClusters(BFT_SIZE + 2064) == 1
    ensures !CheckParameters(BFT_SIZE + 2064, ClusterOffset(1, 0), CLUSTER_SIZE)
  {}

  lemma MetadataAccess(levelSize: nat)
    requires FsCountClusters(levelSize) > 0
    ensures CheckParameters(levelSize, 0, BFT_SIZE)
    ensures CheckParameters(levelSize, BFT_SIZE, FsComputeBitmapSize(FsCountClusters(levelSize)))
  {
    BitmapSize(FsCountClusters(levelSize));
    LayoutFits(levelSize);
  }

  // ---------- the level as a store of units ----------

  datatype Unit = Table | Bitmap | Data(i: nat)

  function UnitOffset(clusters: nat, u: Unit): nat {
    match u
    case Table => 0
    case Bitmap => BFT_SIZE
    case Data(i) => ClusterOffset(clusters, i)
  }

  function UnitSize(clusters: nat, u: Unit): nat {
    match u
    case Table => BFT_SIZE
    case Bitmap => FsComputeBitmapSize(clusters)
    case Data(_) => CLUSTER_SIZE
  }

  /** Units start and end on cipher blocks, are never empty, and lie inside the level. */
  lemma UnitsAligned(levelSize: nat, u: Unit)
    requires FsCountClusters(levelSize) > 0 && InLevel(FsCountClusters(levelSize), u)
    ensures var n := FsCountClusters(levelSize);
      && UnitOffset(n, u) % 16 == 0 && UnitSize(n, u) % 16 == 0 && UnitSize(n, u) > 0
      && UnitOffset(n, u) + UnitSize(n, u) <= levelSize
  {
    var n := FsCountClusters(levelSize);
    BitmapSize(n);
    LayoutFits(levelSize);
    if u.Data? {
      PlaceInLayout(n, u.i);
      hide ClusterOffset, FsComputeBitmapSize, FsCountClusters, LayoutSize;
    } else {
      assert BFT_SIZE + FsComputeBitmapSize(n) <= LayoutSize(n);
      hide FsComputeBitmapSize, FsCountClusters, LayoutSize;
    }
  }

  /** Where the units lie: the table first, then the bitmap, then one cluster after the other. */
  lemma UnitPlaces(clusters: nat, i: nat)
    ensures UnitOffset(clusters, Table) == 0 && UnitOffset(clusters, Bitmap) == UnitSize(clusters, Table) == 753664
    ensures UnitOffset(clusters, Data(0)) == 753664 + UnitSize(clusters, Bitmap)
    ensures i < DISTINCT_CLUSTERS ==> UnitOffset(clusters, Data(i)) == UnitOffset(clusters, Data(0)) + 2048 * i
  {
    WrappedOffset(clusters, i);
  }

  /** One write of a whole unit by some user. */
  datatype UnitWrite = UnitWrite(user: nat, u: Unit, plain: seq<byte>)

  predicate GoodUnitWrite(w: UnitWrite, users: nat, clusters: nat) {
    w.user < users && |w.plain| == UnitSize(clusters, w.u)
  }

  function ToWrites(run: seq<UnitWrite>, clusters: nat): (r: seq<Write>)
    ensures |r| == |run|
    ensures forall k :: 0 <= k < |run| ==> r[k] == Write(run[k].user, UnitOffset(clusters, run[k].u), run[k].plain)
  {
    seq(|run|, k requires 0 <= k < |run| => Write(run[k].user, UnitOffset(clusters, run[k].u), run[k].plain))
  }

  /** Names of the same bytes: of the same unit, or of two clusters whose offsets wrap to the same one. */
  predicate SameUnit(u: Unit, v: Unit) {
    u == v || (u.Data? && v.Data? && u.i % DISTINCT_CLUSTERS == v.i % DISTINCT_CLUSTERS)
  }

  /** What a user last wrote to the bytes of a unit, or `initial`. */
  function LastUnit(run: seq<UnitWrite>, user: nat, u: Unit, initial: seq<byte>): seq<byte> {
    if run == [] then initial
    else if run[|run| - 1].user == user && SameUnit(run[|run| - 1].u, u) then run[|run| - 1].plain
    else LastUnit(run[..|run| - 1], user, u, initial)
  }

  lemma UnitsApart(clusters: nat, u: Unit, v: Unit)
    requires !SameUnit(u, v)
    ensures UnitOffset(clusters, u) + UnitSize(clusters, u) <= UnitOffset(clusters, v)
         || UnitOffset(clusters, v) + UnitSize(clusters, v) <= UnitOffset(clusters, u)
  {
    if u.Data? && v.Data? {
      ClustersApart(clusters, u.i, v.i);
    }
  }

  /** Where a unit starts tells which bytes it is. */
  lemma UnitsDiffer(clusters: nat, u: Unit, v: Unit)
    requires clusters > 0
    ensures UnitOffset(clusters, u) == UnitOffset(clusters, v) <==> SameUnit(u, v)
  {
    BitmapSize(clusters);
    if u.Data? && v.Data? {
      ClustersApart(clusters, u.i, v.i);
    }
  }

  predicate InLevel(clusters: nat, u: Unit) {
    u.Data? ==> u.i < clusters
  }

  /** Exactly up to that many clusters are the units of a level all different. */
  lemma UnitsDistinct(clusters: nat)
    ensures (forall u, v :: InLevel(clusters, u) && InLevel(clusters, v) && SameUnit(u, v) ==> u == v) <==>
            clusters <= DISTINCT_CLUSTERS
  {
    if clusters > DISTINCT_CLUSTERS {
      assert InLevel(clusters, Data(0)) && InLevel(clusters, Data(DISTINCT_CLUSTERS));
      assert SameUnit(Data(0), Data(DISTINCT_CLUSTERS));
    }
  }

  lemma {:induction false} LastUnitIsLastPlain(run: seq<UnitWrite>, clusters: nat, user: nat, u: Unit,
                                               initial: seq<byte>)
    requires clusters > 0 && forall k :: 0 <= k < |run| ==> |run[k].plain| == UnitSize(clusters, run[k].u)
    ensures LastPlain(ToWrites(run, clusters), user, UnitOffset(clusters, u), UnitSize(clusters, u), initial)
         == LastUnit(run, user, u, initial)
  {
    if run != [] {
      var last := run[|run| - 1];
      LastUnitIsLastPlain(run[..|run| - 1], clusters, user, u, initial);
      assert ToWrites(run, clusters)[..|run| - 1] == ToWrites(run[..|run| - 1], clusters);
      UnitsDiffer(clusters, last.u, u);
    }
  }

  /**
   * On a disk shared by all users, each user's level is a store of units of its own: after any run of unit
   * writes by all users, reading a unit gives what that user last wrote to its bytes.
   */
  lemma LevelIsUnitStore(c: Cipher, keys: seq<StegoKey>, disk: seq<byte>, run: seq<UnitWrite>, user: nat, u: Unit,
                         initial: seq<byte>)
    requires KeysIndependent(keys) && c.Valid() && user < |keys|
    requires FsCountClusters(StegoComputeUserLevelSize(|disk|)) > 0
    requires var n := FsCountClusters(StegoComputeUserLevelSize(|disk|));
      && (forall k :: 0 <= k < |run| ==> GoodUnitWrite(run[k], |keys|, n))
      && StegoRead(c, keys[user], disk, UnitOffset(n, u), UnitSize(n, u)) == Ok(initial)
    ensures var n := FsCountClusters(StegoComputeUserLevelSize(|disk|));
      UsersExist(keys, ToWrites(run, n)) &&
      StegoRead(c, keys[user], RunDisk(c, keys, disk, ToWrites(run, n)), UnitOffset(n, u), UnitSize(n, u))
      == Ok(LastUnit(run, user, u, initial))
  {
    hide KeysIndependent, StegoRead;
    var n := FsCountClusters(StegoComputeUserLevelSize(|disk|));
    var writes := ToWrites(run, n);
    forall k | 0 <= k < |writes| ensures RespectsUnit(|disk|, writes[k], user, UnitOffset(n, u), UnitSize(n, u)) {
      assert GoodUnitWrite(run[k], |keys|, n);
      UnitsDiffer(n, run[k].u, u);
      if !SameUnit(run[k].u, u) {
        UnitsApart(n, run[k].u, u);
      }
    }
    BitmapSize(n);
    ReadsLastWrite(c, keys, disk, writes, user, UnitOffset(n, u), UnitSize(n, u), initial);
    LastUnitIsLastPlain(run, n, user, u, initial);
  }

  // ---------- links ----------

  function FsNextCluster(cluster: seq<byte>): nat
    requires |cluster| == CLUSTER_SIZE
  {
    ReadBE(cluster[CLUSTER_DATA_SIZE..])
  }

  /** Stores a link; the data bytes stay and the link reads back (truncated to 32 bits). */
  method FsSetNextCluster(cluster: array<byte>, next: nat)
    requires cluster.Length == CLUSTER_SIZE
    modifies cluster
    ensures cluster[..CLUSTER_DATA_SIZE] == old(cluster[..CLUSTER_DATA_SIZE])
    ensures FsNextCluster(cluster[..]) == next % TWO32
  {
    var be := BE(next, 4);
    ReadAfterWrite(next, 4);
    PowersOfTwo();
    forall k | 0 <= k < 4 {
      cluster[CLUSTER_DATA_SIZE + k] := be[k];
    }
    assert cluster[..][CLUSTER_DATA_SIZE..] == be;
  }

  // ---------- the bitmap ----------

  /** Bitmap bit `c` is set to `v`; every other one is as before. */
  ghost predicate BitChanged(before: seq<byte>, after: seq<byte>, c: nat, v: bool) {
    |after| == |before| && forall k: nat :: k < 8 * |before| ==>
        BitAt(after, k) == if k == c then v else BitAt(before, k)
  }

  /** First fit: takes the lowest free cluster, and fails only when none is free. */
  method FsAllocCluster(bitmap: array<byte>, bitmapBits: nat) returns (ret: Result<nat>)
    requires bitmapBits <= 8 * bitmap.Length
    modifies bitmap
    ensures ret.Err? ==>
      ret == Err(ENOSPC) && bitmap[..] == old(bitmap[..]) && forall k :: 0 <= k < bitmapBits ==> BitAt(bitmap[..], k)
    ensures ret.Ok? ==> ret.value < bitmapBits && !BitAt(old(bitmap[..]), ret.value)
    ensures ret.Ok? ==> forall k :: 0 <= k < ret.value ==> BitAt(old(bitmap[..]), k)
    ensures ret.Ok? ==> BitChanged(old(bitmap[..]), bitmap[..], ret.value, true)
  {
    for cluster := 0 to bitmapBits
      invariant bitmap[..] == old(bitmap[..])
      invariant forall k :: 0 <= k < cluster ==> BitAt(bitmap[..], k)
    {
      if !GetBit(bitmap[..], cluster) {
        SetBit(bitmap, cluster, true);
        return Ok(cluster);
      }
    }
    return Err(ENOSPC);
  }

  method FsDeallocCluster(bitmap: array<byte>, bitmapBits: nat, cluster: nat) returns (ret: Status)
    requires bitmapBits <= 8 * bitmap.Length
    modifies bitmap
    ensures ret == if cluster >= bitmapBits then Failed(EINVAL) else Done
    ensures ret == Done ==> BitChanged(old(bitmap[..]), bitmap[..], cluster, false)
    ensures ret != Done ==> bitmap[..] == old(bitmap[..])
  {
    if cluster >= bitmapBits {
      return Failed(EINVAL);
    }
    SetBit(bitmap, cluster, false);
    return Done;
  }
}
