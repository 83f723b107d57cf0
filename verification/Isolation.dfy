// The open levels of src/bsfs.c on the one disk of src/stego.c: what the operations of one user do to the others.

/** Every level finds on the shared disk what its own operations have put there. */
module Isolation {
  import opened BitUtil
  import opened Errors
  import opened Stego
  import opened Levels
  import opened Cluster
  import opened Files
  import opened Volume
  import Bsfs

  /** The writes of one user in a run, by the stores they made. */
  function StoresOf(s0: Store, user: nat, run: seq<ClusterWrite>): seq<Store>
    decreases |run|
  {
    if run == [] then []
    else
      var n := |run| - 1;
      StoresOf(s0, user, run[..n]) + if run[n].user == user then [RunStore(s0, user, run)] else []
  }

  /** The last of them, if any. */
  function Final(s0: Store, trace: seq<Store>): Store {
    if trace == [] then s0 else trace[|trace| - 1]
  }

  lemma {:induction false} FinalIsRunStore(s0: Store, user: nat, run: seq<ClusterWrite>)
    ensures Final(s0, StoresOf(s0, user, run)) == RunStore(s0, user, run)
    decreases |run|
  {
    if run != [] {
      FinalIsRunStore(s0, user, run[..|run| - 1]);
    }
  }

  /** The run is some interleaving of exactly the writes that the levels have recorded since they were opened. */
  ghost predicate Interleaves(levels: seq<Bsfs.Level>, run: seq<ClusterWrite>)
    reads levels
  {
    forall u :: 0 <= u < |levels| ==>
      levels[u].Shape() && StoresOf(levels[u].origin, u, run) == levels[u].trace
  }

  /** The disk as it was when the levels were opened. */
  ghost predicate OpenedOn(c: Cipher, keys: seq<StegoKey>, disk: seq<byte>, levels: seq<Bsfs.Level>) {
    |levels| == |keys| && forall u :: 0 <= u < |keys| ==> OnDisk(c, keys[u], disk, levels[u].origin)
  }

  /**
   * However the cluster writes of all users' operations interleave, the disk holds for every level exactly the
   * store that the contracts of its operations speak of.
   */
  lemma LevelsOnDisk(c: Cipher, keys: seq<StegoKey>, disk: seq<byte>, levels: seq<Bsfs.Level>, run: seq<ClusterWrite>,
                     u: nat)
    requires KeysIndependent(keys) && c.Valid() && u < |keys| && OpenedOn(c, keys, disk, levels)
    requires GoodRun(run, |keys|, ClusterCount(disk)) && Interleaves(levels, run)
    ensures OnDisk(c, keys[u], RunClusters(c, keys, disk, run), levels[u].store)
  {
    hide KeysIndependent, OnDisk, StoresOf, RunStore, RunClusters;
    var origins := seq(|levels|, i requires 0 <= i < |levels| => levels[i].origin);
    StoresIndependent(c, keys, disk, origins, run, u);
    FinalIsRunStore(origins[u], u, run);
  }

  lemma OneMoreWrite(s0: Store, user: nat, run: seq<ClusterWrite>, w: ClusterWrite)
    requires w.user == user
    ensures RunStore(s0, user, run + [w]) == Put(RunStore(s0, user, run), w.idx, w.cluster)
    ensures StoresOf(s0, user, run + [w]) == StoresOf(s0, user, run) + [RunStore(s0, user, run + [w])]
  {
    assert (run + [w])[..|run|] == run;
    hide Put;
  }

  lemma LastRecorded(s0: Store, trace: seq<Store>, s: Store) returns (idx: nat)
    requires Recorded(s0, trace, s) && trace != []
    ensures var n, before := |trace| - 1, Previous(s0, trace);
      && Recorded(s0, trace[..n], before) && before == Final(s0, trace[..n]) && trace == trace[..n] + [s]
      && |s| == |before| && idx < |s| && |s[idx]| == CLUSTER_SIZE && s == before[idx := s[idx]]
  {
    hide Recorded;
    RecordedLast(s0, trace, s);
    var before := Previous(s0, trace);
    idx :| idx < |before| && |s[idx]| == CLUSTER_SIZE && s == before[idx := s[idx]];
  }

  /** Behind every record of a level stand cluster writes of its user. */
  lemma {:induction false} WritesBehind(s0: Store, trace: seq<Store>, s: Store, user: nat)
    returns (run: seq<ClusterWrite>)
    requires Recorded(s0, trace, s) && |s0| <= DISTINCT_CLUSTERS
    ensures GoodRun(run, user + 1, |s0|) && StoresOf(s0, user, run) == trace && |s| == |s0|
    ensures forall k :: 0 <= k < |run| ==> run[k].user == user
    decreases |trace|
  {
    if trace == [] {
      return [];
    }
    hide StoresOf, RunStore, Recorded, Put, Previous, Final;
    var n, before := |trace| - 1, Previous(s0, trace);
    var idx := LastRecorded(s0, trace, s);
    var rest := WritesBehind(s0, trace[..n], before, user);
    var w := ClusterWrite(user, idx, s[idx]);
    run := rest + [w];
    FinalIsRunStore(s0, user, rest);
    OneMoreWrite(s0, user, rest, w);
    PutsOne(before, idx, s[idx]);
  }

  predicate WritesNothing(run: seq<ClusterWrite>, user: nat) {
    forall k :: 0 <= k < |run| ==> run[k].user != user
  }

  /** What others write does not count, whether later or earlier. */
  lemma {:induction false} NoWrites(s0: Store, user: nat, run: seq<ClusterWrite>, more: seq<ClusterWrite>)
    requires WritesNothing(more, user)
    ensures RunStore(s0, user, run + more) == RunStore(s0, user, run)
    ensures StoresOf(s0, user, run + more) == StoresOf(s0, user, run)
    decreases |more|
  {
    if more == [] {
      assert run + more == run;
    } else {
      var n := |more| - 1;
      NoWrites(s0, user, run, more[..n]);
      assert (run + more)[..|run| + n] == run + more[..n];
    }
  }

  lemma {:induction false} NoWritesYet(s0: Store, user: nat, run: seq<ClusterWrite>, more: seq<ClusterWrite>)
    requires WritesNothing(run, user)
    ensures RunStore(s0, user, run + more) == RunStore(s0, user, more)
    ensures StoresOf(s0, user, run + more) == StoresOf(s0, user, more)
    decreases |more|
  {
    if more == [] {
      NoWrites(s0, user, [], run);
      assert run + more == run == [] + run;
    } else {
      var n := |more| - 1;
      NoWritesYet(s0, user, run, more[..n]);
      assert (run + more)[..|run| + n] == run + more[..n];
    }
  }

  /** Levels always have such an interleaving, whatever their operations have done. */
  lemma {:induction false} SomeRun(levels: seq<Bsfs.Level>, n: nat, clusters: nat) returns (run: seq<ClusterWrite>)
    requires n <= |levels| && forall u :: 0 <= u < |levels| ==> levels[u].Shape() && |levels[u].store| == clusters
    ensures GoodRun(run, n, clusters) && forall u :: n <= u ==> WritesNothing(run, u)
    ensures forall u :: 0 <= u < n ==> StoresOf(levels[u].origin, u, run) == levels[u].trace
    ensures n == |levels| ==> Interleaves(levels, run)
    decreases n
  {
    hide StoresOf, RunStore;
    if n == 0 {
      return [];
    }
    var rest := SomeRun(levels, n - 1, clusters);
    var level := levels[n - 1];
    SameSize(level.origin, level.trace, level.store);
    var last := WritesBehind(level.origin, level.trace, level.store, n - 1);
    run := rest + last;
    forall u: nat | u < n ensures StoresOf(levels[u].origin, u, run) == levels[u].trace {
      if u == n - 1 {
        NoWritesYet(level.origin, u, rest, last);
      } else {
        NoWrites(levels[u].origin, u, rest, last);
      }
    }
  }

  lemma {:induction false} SameSize(s0: Store, trace: seq<Store>, s: Store)
    requires Recorded(s0, trace, s)
    ensures |s| == |s0|
    decreases |trace|
  {
    if trace != [] {
      SameSize(s0, trace[..|trace| - 1], Previous(s0, trace));
    }
  }

  // ---------- files ----------

  /** What the disk holds of a user's clusters; of a cluster that every access refuses, nothing. */
  function DiskStore(c: Cipher, key: StegoKey, disk: seq<byte>): (s: Store)
    ensures |s| == ClusterCount(disk)
  {
    var n := ClusterCount(disk);
    seq(n, i requires 0 <= i < n => Plain(StegoRead(c, key, disk, UnitOffset(n, Data(i)), CLUSTER_SIZE)))
  }

  function Plain(r: Result<seq<byte>>): seq<byte> {
    if r.Ok? then r.value else []
  }

  /** No cluster of the list is refused. */
  predicate Readable(disk: seq<byte>, chain: seq<nat>) {
    forall i :: 0 <= i < |chain| ==>
      chain[i] < ClusterCount(disk) && Accepts(disk, UnitOffset(ClusterCount(disk), Data(chain[i])), CLUSTER_SIZE)
  }

  lemma SameBytes(s: Store, s': Store, chain: seq<nat>, size: nat)
    requires |s| == |s'| && forall i :: 0 <= i < |chain| ==> chain[i] < |s| && s[chain[i]] == s'[chain[i]]
    ensures Contents(s, chain, size) == Contents(s', chain, size)
  {
    forall p | 0 <= p < size ensures ByteOf(s, chain, p) == ByteOf(s', chain, p) {}
  }

  lemma ContentsOnDisk(c: Cipher, key: StegoKey, disk: seq<byte>, store: Store, chain: seq<nat>, size: nat)
    requires OnDisk(c, key, disk, store) && Readable(disk, chain)
    ensures Contents(DiskStore(c, key, disk), chain, size) == Contents(store, chain, size)
  {
    hide StegoRead;
    var on := DiskStore(c, key, disk);
    forall i | 0 <= i < |chain| ensures on[chain[i]] == store[chain[i]] {
      assert Accepts(disk, UnitOffset(ClusterCount(disk), Data(chain[i])), CLUSTER_SIZE);
    }
    SameBytes(on, store, chain, size);
  }

  /** The bytes of a file, as its level's operations state them, are those its chain leads to on the shared disk. */
  lemma FilesOnDisk(c: Cipher, keys: seq<StegoKey>, disk: seq<byte>, levels: seq<Bsfs.Level>, run: seq<ClusterWrite>,
                    u: nat, f: nat)
    requires KeysIndependent(keys) && c.Valid() && u < |keys| && OpenedOn(c, keys, disk, levels)
    requires GoodRun(run, |keys|, ClusterCount(disk)) && Interleaves(levels, run)
    requires levels[u].Valid() && levels[u].IsFile(f)
    requires f < |levels[u].chains| && Readable(disk, levels[u].chains[f])
    ensures var level, after := levels[u], RunClusters(c, keys, disk, run);
      Contents(DiskStore(c, keys[u], after), level.chains[f], level.Table()[f].ent.size) == level.FileBytes(f)
  {
    var level, after := levels[u], RunClusters(c, keys, disk, run);
    hide KeysIndependent, OnDisk, Interleaves, OpenedOn, RunClusters, DiskStore, Contents;
    LevelsOnDisk(c, keys, disk, levels, run, u);
    ContentsOnDisk(c, keys[u], after, level.store, level.chains[f], level.Table()[f].ent.size);
  }

  /** Whatever the others write from some moment on, every byte of a user's files stays as it was on the disk. */
  lemma OthersLeaveFiles(c: Cipher, keys: seq<StegoKey>, disk: seq<byte>, stores: seq<Store>, run: seq<ClusterWrite>,
                         more: seq<ClusterWrite>, u: nat, chain: seq<nat>, size: nat)
    requires KeysIndependent(keys) && c.Valid() && u < |keys| && AllOnDisk(c, keys, disk, stores)
    requires GoodRun(run, |keys|, ClusterCount(disk)) && GoodRun(more, |keys|, ClusterCount(disk))
    requires WritesNothing(more, u) && Readable(disk, chain) && GoodRun(run + more, |keys|, ClusterCount(disk))
    ensures Contents(DiskStore(c, keys[u], RunClusters(c, keys, disk, run + more)), chain, size)
         == Contents(DiskStore(c, keys[u], RunClusters(c, keys, disk, run)), chain, size)
  {
    hide KeysIndependent, OnDisk, RunClusters, DiskStore, Contents, RunStore;
    StoresIndependent(c, keys, disk, stores, run, u);
    StoresIndependent(c, keys, disk, stores, run + more, u);
    NoWrites(stores[u], u, run, more);
    ContentsOnDisk(c, keys[u], RunClusters(c, keys, disk, run), RunStore(stores[u], u, run), chain, size);
    ContentsOnDisk(c, keys[u], RunClusters(c, keys, disk, run + more), RunStore(stores[u], u, run), chain, size);
  }
}
