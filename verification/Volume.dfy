// Cluster accesses of src/cluster.c on the shared disk: the store that each level works on.

/** The clusters of all users on one disk. What `Bsfs.Level` calls its store is one of the stores here. */
module Volume {
  import opened BitUtil
  import opened Errors
  import opened Stego
  import opened Levels
  import opened StegoOps
  import opened Cluster
  import opened Files

  function ClusterCount(disk: seq<byte>): nat {
    FsCountClusters(StegoComputeUserLevelSize(|disk|))
  }

  /** Every cluster that can be read at all reads as in the store. */
  ghost predicate OnDisk(c: Cipher, key: StegoKey, disk: seq<byte>, store: Store) {
    var n := ClusterCount(disk);
    && |store| == n
    && forall i :: 0 <= i < n && Accepts(disk, UnitOffset(n, Data(i)), CLUSTER_SIZE) ==>
         StegoRead(c, key, disk, UnitOffset(n, Data(i)), CLUSTER_SIZE) == Ok(store[i])
  }

  /** The disk carries one store for every user. */
  ghost predicate AllOnDisk(c: Cipher, keys: seq<StegoKey>, disk: seq<byte>, stores: seq<Store>) {
    |stores| == |keys| && forall u :: 0 <= u < |keys| ==> OnDisk(c, keys[u], disk, stores[u])
  }

  /** What writing a cluster makes of a store: clusters whose offsets wrap to the same one change together. */
  function Put(store: Store, idx: nat, plain: seq<byte>): (s: Store)
    ensures |s| == |store|
  {
    seq(|store|, i requires 0 <= i < |store| =>
        if i % DISTINCT_CLUSTERS == idx % DISTINCT_CLUSTERS then plain else store[i])
  }

  lemma PutsOne(store: Store, idx: nat, plain: seq<byte>)
    requires idx < |store| <= DISTINCT_CLUSTERS
    ensures Put(store, idx, plain) == store[idx := plain]
  {}

  /** Exactly in levels of at most that many clusters does every write change one cluster. */
  lemma PutIsUpdate(clusters: nat)
    ensures (forall store: Store, idx: nat, plain :: idx < |store| == clusters ==>
              Put(store, idx, plain) == store[idx := plain]) <==> clusters <= DISTINCT_CLUSTERS
  {
    if clusters <= DISTINCT_CLUSTERS {
      forall store: Store, idx: nat, plain | idx < |store| == clusters
        ensures Put(store, idx, plain) == store[idx := plain]
      {
        PutsOne(store, idx, plain);
      }
    } else {
      var store: Store := seq(clusters, i requires 0 <= i < clusters => []);
      assert Put(store, 0, Zeros(1))[DISTINCT_CLUSTERS] == Zeros(1) != store[0 := Zeros(1)][DISTINCT_CLUSTERS];
    }
  }

  /** One unit write, by any user: the bytes of that unit of that user change, and no other unit of any user. */
  lemma OneUnitWrite(c: Cipher, keys: seq<StegoKey>, disk: seq<byte>, w: nat, wu: Unit, plain: seq<byte>, u: nat,
                     v: Unit, before: seq<byte>)
    requires KeysIndependent(keys) && c.Valid() && w < |keys| && u < |keys| && ClusterCount(disk) > 0
    requires |plain| == UnitSize(ClusterCount(disk), wu)
    requires StegoRead(c, keys[u], disk, UnitOffset(ClusterCount(disk), v), UnitSize(ClusterCount(disk), v)) ==
        Ok(before)
    ensures var n := ClusterCount(disk); var disk' := StegoWrite(c, keys[w], disk, UnitOffset(n, wu), plain);
      StegoRead(c, keys[u], disk', UnitOffset(n, v), UnitSize(n, v))
      == Ok(if u == w && SameUnit(wu, v) then plain else before)
  {
    hide KeysIndependent, StegoRead, StegoWrite;
    var n, run := ClusterCount(disk), [UnitWrite(w, wu, plain)];
    LevelIsUnitStore(c, keys, disk, run, u, v, before);
    var writes := ToWrites(run, n);
    assert writes[..0] == [] && RunDisk(c, keys, disk, writes[..0]) == disk;
    assert run[..0] == [] && LastUnit(run[..0], u, v, before) == before;
  }

  /** A cluster write, by any user, changes the bytes of that cluster in that user's store, and no other store. */
  lemma OneClusterWrite(c: Cipher, keys: seq<StegoKey>, disk: seq<byte>, w: nat, idx: nat, plain: seq<byte>,
                        stores: seq<Store>)
    requires KeysIndependent(keys) && c.Valid() && w < |keys| && AllOnDisk(c, keys, disk, stores)
    requires idx < ClusterCount(disk) == |stores[w]| && |plain| == CLUSTER_SIZE
    ensures AllOnDisk(c, keys, StegoWrite(c, keys[w], disk, UnitOffset(ClusterCount(disk), Data(idx)), plain),
                      stores[w := Put(stores[w], idx, plain)])
  {
    hide KeysIndependent, StegoRead, StegoWrite, CheckParameters;
    var n := ClusterCount(disk);
    var disk', stores' := StegoWrite(c, keys[w], disk, UnitOffset(n, Data(idx)), plain),
        stores[w := Put(stores[w], idx, plain)];
    forall u, i | 0 <= u < |keys| && 0 <= i < n && Accepts(disk', UnitOffset(n, Data(i)), CLUSTER_SIZE)
      ensures StegoRead(c, keys[u], disk', UnitOffset(n, Data(i)), CLUSTER_SIZE) == Ok(stores'[u][i])
    {
      assert OnDisk(c, keys[u], disk, stores[u]);
      OneUnitWrite(c, keys, disk, w, Data(idx), plain, u, Data(i), stores[u][i]);
    }
  }

  /** `fs_write_cluster`: without effect where refused, for the last cluster of an exactly filled level. */
  method FsWriteCluster(c: Cipher, key: StegoKey, disk: array<byte>, buf: seq<byte>, idx: nat,
                        ghost keys: seq<StegoKey>, ghost w: nat, ghost stores: seq<Store>) returns (ret: Status)
    requires KeysIndependent(keys) && c.Valid() && w < |keys| && key == keys[w] && |buf| == CLUSTER_SIZE
    requires AllOnDisk(c, keys, disk[..], stores) && idx < ClusterCount(disk[..])
    modifies disk
    ensures ret == Failed(EINVAL) <==>
      idx == ClusterCount(disk[..]) - 1 < DISTINCT_CLUSTERS &&
      LayoutSize(idx + 1) == StegoComputeUserLevelSize(disk.Length)
    ensures ret != Done ==> ret == Failed(EINVAL) && disk[..] == old(disk[..])
    ensures |stores[w]| == ClusterCount(disk[..])
    ensures ret == Done ==> AllOnDisk(c, keys, disk[..], stores[w := Put(stores[w], idx, buf)])
  {
    hide StegoRead, StegoWrite, CheckParameters, OnDisk, ComputeLevelSize, KeysIndependent;
    var n := ClusterCount(disk[..]);
    AcceptedExactly(disk.Length, UnitOffset(n, Data(idx)), CLUSTER_SIZE);
    StoreSize(c, keys, disk[..], stores, w);
    ClusterAccess(StegoComputeUserLevelSize(disk.Length), idx);
    OneClusterWrite(c, keys, disk[..], w, idx, buf, stores);
    if !Accepts(disk[..], UnitOffset(n, Data(idx)), CLUSTER_SIZE) {
      RejectedWrite(c, key, disk[..], UnitOffset(n, Data(idx)), buf);
    }
    ret := StegoWriteLevel(c, key, disk, buf, UnitOffset(n, Data(idx)));
  }

  lemma StoreSize(c: Cipher, keys: seq<StegoKey>, disk: seq<byte>, stores: seq<Store>, w: nat)
    requires AllOnDisk(c, keys, disk, stores) && w < |keys| && KeysIndependent(keys)
    ensures |stores[w]| == ClusterCount(disk) && keys[w].Valid()
  {
    hide StegoRead;
  }

  /** `fs_read_cluster`: a cluster of the reader's own store. */
  method FsReadCluster(c: Cipher, key: StegoKey, disk: array<byte>, buf: array<byte>, idx: nat,
                       ghost keys: seq<StegoKey>, ghost w: nat, ghost stores: seq<Store>) returns (ret: Status)
    requires KeysIndependent(keys) && c.Valid() && w < |keys| && key == keys[w] && buf.Length == CLUSTER_SIZE
    requires buf != disk
    requires AllOnDisk(c, keys, disk[..], stores) && idx < ClusterCount(disk[..])
    modifies buf, disk
    ensures disk[..] == old(disk[..])
    ensures ret == Failed(EINVAL) <==>
      idx == ClusterCount(disk[..]) - 1 < DISTINCT_CLUSTERS &&
      LayoutSize(idx + 1) == StegoComputeUserLevelSize(disk.Length)
    ensures ret != Done ==> ret == Failed(EINVAL) && buf[..] == old(buf[..])
    ensures |stores[w]| == ClusterCount(disk[..])
    ensures ret == Done ==> buf[..] == stores[w][idx]
  {
    hide StegoRead, CheckParameters, ComputeLevelSize;
    var n := ClusterCount(disk[..]);
    AcceptedExactly(disk.Length, UnitOffset(n, Data(idx)), CLUSTER_SIZE);
    StoreSize(c, keys, disk[..], stores, w);
    ClusterAccess(StegoComputeUserLevelSize(disk.Length), idx);
    assert OnDisk(c, keys[w], disk[..], stores[w]);
    ret := StegoReadLevel(c, key, disk, buf, UnitOffset(n, Data(idx)), CLUSTER_SIZE);
    assert buf[..CLUSTER_SIZE] == buf[..];
  }

  // ---------- whole runs ----------

  /** One cluster write by the level of some user. */
  datatype ClusterWrite = ClusterWrite(user: nat, idx: nat, cluster: seq<byte>)

  predicate GoodRun(run: seq<ClusterWrite>, users: nat, clusters: nat) {
    forall k :: 0 <= k < |run| ==> run[k].user < users && run[k].idx < clusters && |run[k].cluster| == CLUSTER_SIZE
  }

  /** The store that one user's own writes make of `store`. */
  function RunStore(store: Store, user: nat, run: seq<ClusterWrite>): (s: Store)
    ensures |s| == |store|
    decreases |run|
  {
    if run == [] then store
    else
      var before, op := RunStore(store, user, run[..|run| - 1]), run[|run| - 1];
      if op.user == user then Put(before, op.idx, op.cluster) else before
  }

  /** The disk after all writes of all users. */
  function RunClusters(c: Cipher, keys: seq<StegoKey>, disk: seq<byte>, run: seq<ClusterWrite>): (d: seq<byte>)
    requires GoodRun(run, |keys|, ClusterCount(disk))
    ensures |d| == |disk|
    decreases |run|
  {
    if run == [] then disk
    else
      var op := run[|run| - 1];
      StegoWrite(c, keys[op.user], RunClusters(c, keys, disk, run[..|run| - 1]),
          UnitOffset(ClusterCount(disk), Data(op.idx)), op.cluster)
  }

  /** For every interleaving of the cluster writes of all levels, each level has the store its own writes made. */
  lemma {:induction false} StoresIndependent(c: Cipher, keys: seq<StegoKey>, disk: seq<byte>, stores: seq<Store>,
                                             run: seq<ClusterWrite>, u: nat)
    requires KeysIndependent(keys) && c.Valid() && AllOnDisk(c, keys, disk, stores)
    requires GoodRun(run, |keys|, ClusterCount(disk)) && u < |keys|
    ensures OnDisk(c, keys[u], RunClusters(c, keys, disk, run), RunStore(stores[u], u, run))
  {
    RunOnDisk(c, keys, disk, stores, run);
  }

  ghost function RunStores(stores: seq<Store>, run: seq<ClusterWrite>): (s: seq<Store>)
    ensures |s| == |stores|
  {
    seq(|stores|, u requires 0 <= u < |stores| => RunStore(stores[u], u, run))
  }

  lemma {:induction false} RunOnDisk(c: Cipher, keys: seq<StegoKey>, disk: seq<byte>, stores: seq<Store>,
                                     run: seq<ClusterWrite>)
    requires KeysIndependent(keys) && c.Valid() && AllOnDisk(c, keys, disk, stores)
    requires GoodRun(run, |keys|, ClusterCount(disk))
    ensures AllOnDisk(c, keys, RunClusters(c, keys, disk, run), RunStores(stores, run))
    decreases |run|
  {
    hide KeysIndependent, StegoWrite, OnDisk;
    if run == [] {
      assert RunStores(stores, run) == stores;
    } else {
      var rest, op := run[..|run| - 1], run[|run| - 1];
      RunOnDisk(c, keys, disk, stores, rest);
      var d, before := RunClusters(c, keys, disk, rest), RunStores(stores, rest);
      StoreSize(c, keys, d, before, op.user);
      OneClusterWrite(c, keys, d, op.user, op.idx, op.cluster, before);
      assert RunStores(stores, run) == before[op.user := Put(before[op.user], op.idx, op.cluster)];
    }
  }
}
