// Model of src/bsfs.c: one open level, with its files, bitmap and table changed in place.

/** File and directory operations on an open level. */
module Bsfs {
  import opened BitUtil
  import opened Errors
  import opened Matrix
  import opened Cluster
  import opened Bft
  import opened Files
  import opened Directory

  function Min(a: nat, b: nat): nat {
    if a < b then a else b
  }

  function Max(a: nat, b: nat): nat {
    if a > b then a else b
  }

  /**
   * An open level. `store` is the level's cluster area: one of the stores of `Volume`, where the disk is shared.
   * Cluster reads and writes may fail: the one numbered `tick` does exactly when `faults(tick)`, with the error
   * `errors(tick)`. A refused access (EINVAL for the last cluster of an exactly filled level) is one such failure;
   * a failed write has no effect.
   */
  class Level {
    const clusterCount: nat
    const faults: nat -> bool
    const errors: nat -> AccessErrno
    const bitmap: array<byte>
    const bft: array<byte>
    var store: Store
    var tick: nat
    var openFiles: set<nat>  // the slots in the open file table
    var locked: bool         // a call returned without releasing the metadata lock

    ghost var chains: seq<seq<nat>>  // the chain of every slot
    ghost var leaked: set<nat>       // clusters marked as used that no file owns
    ghost const origin: Store        // the store when the level was opened
    ghost var trace: seq<Store>      // the store after every cluster write since then

    /** `level_init`: an open level starts with copies of the table and the bitmap on disk. */
    constructor (table: seq<byte>, bits: seq<byte>, store: Store, faults: nat -> bool, errors: nat -> AccessErrno,
                 ghost chains: seq<seq<nat>>, ghost leaked: set<nat>)
      requires |table| == BFT_SIZE && StoreOk(store) && |store| <= 8 * |bits| && IsDirectory(TableOf(table))
      requires FilesOk(store, TableOf(table), chains) && Disjoint(chains) && MarksOk(bits, chains, leaked, |store|)
      ensures Valid() && bft[..] == table && bitmap[..] == bits && this.store == store && this.chains == chains
      ensures this.leaked == leaked
      ensures fresh(bft) && fresh(bitmap) && openFiles == {} && !locked && tick == 0
      ensures this.faults == faults && this.errors == errors && origin == store && trace == []
    {
      hide FilesOk, Disjoint, MarksOk, IsDirectory, StoreOk, TableOf;
      bft := new byte[|table|](i requires 0 <= i < |table| => table[i]);
      bitmap := new byte[|bits|](i requires 0 <= i < |bits| => bits[i]);
      this.store, this.faults, this.errors, clusterCount, tick := store, faults, errors, |store|, 0;
      openFiles, locked := {}, false;
      this.chains, this.leaked, origin, trace := chains, leaked, store, [];
      new;
      assert bft[..] == table && bitmap[..] == bits;
    }

    /** The sizes fit, and nothing but recorded cluster writes has changed the store since the level was opened. */
    ghost predicate Shape()
      reads this`store, this`trace
    {
      && bft.Length == BFT_SIZE && bitmap != bft && |store| == clusterCount && clusterCount <= 8 * bitmap.Length
      && StoreOk(store) && Recorded(origin, trace, store)
    }

    ghost function Table(): seq<Slot>
      requires bft.Length == BFT_SIZE
      reads bft
    {
      TableOf(bft[..])
    }

    /** Chains, sizes, bitmap and names agree. */
    ghost predicate Valid()
      reads this, bitmap, bft
    {
      && Shape() && FilesOk(store, Table(), chains) && Disjoint(chains)
      && MarksOk(bitmap[..], chains, leaked, clusterCount) && IsDirectory(Table())
    }

    /** Chains and leaked clusters exist that explain table, bitmap and store. */
    ghost predicate InOrder()
      requires bft.Length == BFT_SIZE
      reads this`store, bitmap, bft
    {
      Explained(store, Table(), bitmap[..], clusterCount)
    }

    lemma ValidIsInOrder()
      requires Valid()
      ensures InOrder()
    {
      hide FilesOk, Disjoint, MarksOk, IsDirectory, TableOf, Recorded;
      ExplainedBy(store, Table(), bitmap[..], clusterCount, chains, leaked);
    }

    ghost predicate IsFile(f: nat)
      requires bft.Length == BFT_SIZE
      reads bft
    {
      f < BFT_MAX_ENTRIES && Table()[f].Used?
    }

    /** The contents of a file as a flat sequence. */
    ghost function FileBytes(f: nat): seq<byte>
      requires bft.Length == BFT_SIZE && IsFile(f) && |chains| == BFT_MAX_ENTRIES
      reads this`store, this`chains, bft
    {
      Contents(store, chains[f], Table()[f].ent.size)
    }

    /** No cluster access numbered from `a` up to `b` fails. */
    ghost predicate Quiet(a: nat, b: nat) {
      forall k :: a <= k < b ==> !faults(k)
    }

    /** How the last cluster access before number `t` ended. */
    function LastAccess(t: nat): Status {
      if t > 0 && faults(t - 1) then Failed(errors(t - 1)) else Done
    }

    // ---------- cluster access ----------

    method ReadCluster(cluster: array<byte>, idx: nat) returns (ret: Status)
      requires Shape() && cluster.Length == CLUSTER_SIZE && idx < |store|
      modifies this`tick, cluster
      ensures tick == old(tick) + 1 && ret == LastAccess(tick)
      ensures ret == if faults(old(tick)) then Failed(errors(old(tick))) else Done
      ensures cluster[..] == if ret == Done then store[idx] else old(cluster[..])
    {
      tick := tick + 1;
      if faults(tick - 1) {
        return Failed(errors(tick - 1));
      }
      CopyIn(cluster, 0, store[idx]);
      return Done;
    }

    method WriteCluster(cluster: array<byte>, idx: nat) returns (ret: Status)
      requires Shape() && cluster.Length == CLUSTER_SIZE && idx < |store|
      modifies this`tick, this`store, this`trace
      ensures tick == old(tick) + 1 && ret == LastAccess(tick)
      ensures ret == if faults(old(tick)) then Failed(errors(old(tick))) else Done
      ensures store == if ret == Done then old(store)[idx := cluster[..]] else old(store)
      ensures trace == if ret == Done then old(trace) + [store] else old(trace)
      ensures Shape()
    {
      tick := tick + 1;
      if faults(tick - 1) {
        return Failed(errors(tick - 1));
      }
      RecordedNext(origin, trace, store, idx, cluster[..]);
      store := store[idx := cluster[..]];
      trace := trace + [store];
      return Done;
    }

    // ---------- walking a chain ----------

    /** Follows the links to the cluster that holds byte `off`; too far means an input/output error. */
    method FindCluster(clusterIdx: nat, off: nat, ghost chain: seq<nat>)
      returns (ret: Status, found: nat, localOff: nat)
      requires Shape() && ChainOk(store, chain) && clusterIdx == chain[0]
      modifies this`tick
      ensures old(tick) <= tick
      ensures ret == Done ==>
          off / CLUSTER_DATA_SIZE < |chain| && found == chain[off / CLUSTER_DATA_SIZE] &&
          localOff == off % CLUSTER_DATA_SIZE
      ensures ret != Done ==> ret == if Quiet(old(tick), tick) then Failed(EIO) else LastAccess(tick)
      ensures ret == Done <==> Quiet(old(tick), tick) && off / CLUSTER_DATA_SIZE < |chain|
      ensures if ret == Done then tick == old(tick) + off / CLUSTER_DATA_SIZE
          else tick <= old(tick) + off / CLUSTER_DATA_SIZE
    {
      hide FsNextCluster, ChainOk, Recorded;
      NonEmpty(store, chain);
      var cluster := new byte[CLUSTER_SIZE];
      var idx: nat, rest: nat := clusterIdx, off;
      ghost var k := 0;
      found, localOff := 0, 0;
      while rest >= CLUSTER_DATA_SIZE
        invariant k < |chain| && idx == chain[k] && off == CLUSTER_DATA_SIZE * k + rest
        invariant old(tick) <= tick == old(tick) + k && Quiet(old(tick), tick)
        decreases rest
      {
        NextInChain(store, chain, k);
        ret := ReadCluster(cluster, idx);
        if ret != Done {
          return;
        }
        idx := FsNextCluster(cluster[..]);
        if idx == CLUSTER_OFFSET_EOF {
          return Failed(EIO), 0, 0;
        }
        rest := rest - CLUSTER_DATA_SIZE;
        k := k + 1;
      }
      return Done, idx, rest;
    }

    /** The transfer of one cluster: read it, and either copy out of it or patch it and write it back. */
    method RwCluster(idx: nat, local: nat, buf: array<byte>, bufOff: nat, size: nat, write: bool, ghost chain: seq<nat>,
                     ghost j: nat)
      returns (ret: Status, next: nat)
      requires Shape() && ChainOk(store, chain) && j < |chain| && idx == chain[j] && local + size <= CLUSTER_DATA_SIZE
      requires bufOff + size <= buf.Length && buf != bitmap && buf != bft
      modifies this`tick, this`store, this`trace, buf
      ensures Shape() && old(tick) <= tick
      ensures ret == Done ==> next == if j + 1 < |chain| then chain[j + 1] else CLUSTER_OFFSET_EOF
      ensures ret != Done ==>
        ret == LastAccess(tick) && store == old(store) && trace == old(trace) && buf[..] == old(buf[..])
      ensures Quiet(old(tick), tick) <==> ret == Done
      ensures ret == Done && write ==> buf[..] == old(buf[..])
      ensures ret == Done && write ==>
        ChainPatched(old(store), store, chain, CLUSTER_DATA_SIZE * j + local, buf[bufOff..bufOff + size])
      ensures ret == Done && !write ==> store == old(store) && trace == old(trace)
      ensures ret == Done && !write ==>
        buf[..] == Splice(old(buf[..]), bufOff, ChainBytes(store, chain, CLUSTER_DATA_SIZE * j + local, size))
    {
      hide FsNextCluster, ChainOk, ByteOf, ChainBytes, ChainPatched, Splice, StoreOk, Recorded;
      var cluster := new byte[CLUSTER_SIZE];
      InRange(store, chain, j);
      ghost var s0 := store;
      next := 0;
      ret := ReadCluster(cluster, idx);
      if ret != Done {
        return;
      }
      if write {
        WriteCase(s0, chain, j, local, buf[bufOff..bufOff + size]);
        CopyIn(cluster, local, buf[bufOff..bufOff + size]);
        ret := WriteCluster(cluster, idx);
        if ret != Done {
          return;
        }
      } else {
        ReadCase(s0, chain, j, local, size);
        CopyIn(buf, bufOff, cluster[local..local + size]);
      }
      next := FsNextCluster(cluster[..]);
    }

    /**
     * Iterates over the clusters of a file from cluster `k` of its chain on and either reads them into `buf` or
     * writes `buf` into them. It fails when a cluster access does, or when the chain ends before the range. After
     * a failure the first `done` bytes have been transferred.
     */
    method DoRwOp(clusterIdx: nat, localOff: nat, buf: array<byte>, bufOff: nat, size: nat, write: bool,
                  ghost chain: seq<nat>, ghost k: nat)
      returns (ret: Result<nat>, lastIndex: nat, ghost done: nat)
      requires Shape() && ChainOk(store, chain) && k <= |chain| && localOff < CLUSTER_DATA_SIZE
      requires clusterIdx == if k < |chain| then chain[k] else CLUSTER_OFFSET_EOF
      requires bufOff + size <= buf.Length && buf != bitmap && buf != bft
      modifies this`tick, this`store, this`trace, buf
      ensures Shape() && old(tick) <= tick && done <= size
      ensures ret.Ok? ==> ret.value == done == size
      ensures ret.Ok? && size > 0 ==> LastTouched(chain, CLUSTER_DATA_SIZE * k + localOff + size, lastIndex)
      ensures ret.Err? ==> StatusOf(ret) == if Quiet(old(tick), tick) then Failed(EIO) else LastAccess(tick)
      ensures ret.Ok? <==>
        Quiet(old(tick), tick) && (size == 0 || CLUSTER_DATA_SIZE * k + localOff + size <= CLUSTER_DATA_SIZE * |chain|)
      ensures write ==> buf[..] == old(buf[..])
      ensures write ==>
        ChainPatched(old(store), store, chain, CLUSTER_DATA_SIZE * k + localOff, buf[bufOff..bufOff + done])
      ensures !write ==> store == old(store) && trace == old(trace)
      ensures !write ==>
        buf[..] == Splice(old(buf[..]), bufOff, ChainBytes(store, chain, CLUSTER_DATA_SIZE * k + localOff, done))
    {
      hide ChainOk, ChainPatched, ByteOf, ChainBytes, Splice, StoreOk, LastTouched, Recorded;
      ghost var start, s0, b0 := CLUSTER_DATA_SIZE * k + localOff, store, buf[..];
      var idx: nat, local: nat := clusterIdx, localOff;
      ghost var j: nat := k;
      var processed: nat := 0;
      done, lastIndex := 0, 0;
      NothingDone(store, chain, start, b0, bufOff);
      while processed < size
        invariant Shape() && processed == done <= size && ChainOk(store, chain)
        invariant j <= |chain| && idx == if j < |chain| then chain[j] else CLUSTER_OFFSET_EOF
        invariant processed < size ==> local < CLUSTER_DATA_SIZE && start + processed == CLUSTER_DATA_SIZE * j + local
        invariant 0 < processed ==> start + processed <= CLUSTER_DATA_SIZE * |chain|
        invariant old(tick) <= tick && Quiet(old(tick), tick)
        invariant 0 < processed ==> LastTouched(chain, start + processed, lastIndex)
        invariant write ==> buf[..] == b0 && ChainPatched(s0, store, chain, start, b0[bufOff..bufOff + processed])
        invariant !write ==>
            store == s0 && trace == old(trace) &&
            buf[..] == Splice(b0, bufOff, ChainBytes(store, chain, start, processed))
        decreases size - processed
      {
        InRange(store, chain, j);
        if idx == CLUSTER_OFFSET_EOF {
          return Err(EIO), lastIndex, done;
        }
        lastIndex := idx;
        var totalRemaining := size - processed;
        var clusterRemaining := CLUSTER_DATA_SIZE - local;
        var curSize := Min(totalRemaining, clusterRemaining);
        ghost var s1 := store;
        var status, next := RwCluster(idx, local, buf, bufOff + processed, curSize, write, chain, j);
        if status != Done {
          return Err(status.errno), lastIndex, done;
        }
        if write {
          PatchNext(s0, s1, store, chain, start, b0, bufOff, processed, curSize);
        } else {
          ReadNext(store, chain, start, b0, bufOff, processed, curSize);
        }
        LastOfPiece(chain, j, local, curSize, start + processed);
        local := 0;
        processed := processed + curSize;
        done := processed;
        idx := next;
        j := j + 1;
      }
      return Ok(processed), lastIndex, done;
    }

    // ---------- allocation ----------

    /** Frees the listed clusters; the caller holds the metadata lock. */
    method DoDeallocClusters(indices: seq<nat>, count: nat)
      requires Shape() && count <= |indices| && forall i :: 0 <= i < count ==> indices[i] < clusterCount
      modifies bitmap
      ensures Marks(bitmap[..], clusterCount) == old(Marks(bitmap[..], clusterCount)) - Elems(indices[..count])
    {
      hide Marks, BitChanged, Recorded;
      for i := 0 to count
        invariant Marks(bitmap[..], clusterCount) == old(Marks(bitmap[..], clusterCount)) - Elems(indices[..i])
      {
        ghost var b := bitmap[..];
        var _ := FsDeallocCluster(bitmap, clusterCount, indices[i]);
        MarksAfter(b, bitmap[..], indices[i], false, clusterCount);
        ElemsNext(indices, i);
      }
    }

    /**
     * Allocates the `count` lowest free clusters, followed by the end mark. It fails exactly when fewer are free; the
     * rollback then frees all but one of those already taken, so one cluster leaks whenever at least one was free.
     */
    method AllocClusters(count: nat) returns (ret: Result<seq<nat>>)
      requires Shape() && MarksOk(bitmap[..], chains, leaked, clusterCount)
      modifies bitmap, this`leaked
      ensures ret.Err? <==> |old(Marks(bitmap[..], clusterCount))| + count > clusterCount
      ensures ret.Ok? ==> |ret.value| == count + 1 && ret.value[count] == CLUSTER_OFFSET_EOF && leaked == old(leaked)
      ensures ret.Ok? ==> var more := ret.value[..count];
        && NoDup(more) && (forall i :: 0 <= i < count ==> more[i] < clusterCount)
        && Elems(more) !! old(Marks(bitmap[..], clusterCount))
        && Marks(bitmap[..], clusterCount) == old(Marks(bitmap[..], clusterCount)) + Elems(more)
        && LowestFirst(old(Marks(bitmap[..], clusterCount)), more)
      ensures ret.Err? ==> ret == Err(ENOSPC) && MarksOk(bitmap[..], chains, leaked, clusterCount)
      ensures ret.Err? ==> old(leaked) <= leaked
      ensures ret.Err? ==>
        |leaked - old(leaked)| == if |old(Marks(bitmap[..], clusterCount))| == clusterCount then 0 else 1
    {
      hide Marks, BitChanged, TakenFrom, MarksOk, LowestFirst, AllTaken, Recorded;
      var indices: seq<nat> := [];
      ghost var b0 := bitmap[..];
      ghost var m0 := Marks(b0, clusterCount);
      TakenNone(m0, clusterCount);
      LowestNone(m0);
      for i := 0 to count
        invariant |indices| == i && TakenFrom(m0, indices, Marks(bitmap[..], clusterCount), clusterCount)
        invariant leaked == old(leaked) && LowestFirst(m0, indices)
      {
        ghost var b := bitmap[..];
        var c := FsAllocCluster(bitmap, clusterCount);
        if c.Err? {
          AllMarked(bitmap[..], clusterCount);
          TakenCount(m0, indices, Marks(bitmap[..], clusterCount), clusterCount);
          Rollback(indices, b0);
          assert leaked - old(leaked) == if i == 0 then {} else {indices[i - 1]};
          return Err(ENOSPC);
        }
        MarksAfter(b, bitmap[..], c.value, true, clusterCount);
        WasClear(b, c.value, clusterCount);
        FirstClear(b, clusterCount, c.value);
        LowestNext(m0, indices, Marks(b, clusterCount), c.value, clusterCount);
        TakenNext(m0, indices, Marks(b, clusterCount), c.value, clusterCount);
        indices := indices + [c.value];
      }
      MarksBelow(bitmap[..], clusterCount);
      TakenCount(m0, indices, Marks(bitmap[..], clusterCount), clusterCount);
      TakenMeans(m0, indices, Marks(bitmap[..], clusterCount), clusterCount);
      assert (indices + [CLUSTER_OFFSET_EOF])[..count] == indices;
      return Ok(indices + [CLUSTER_OFFSET_EOF]);
    }

    /** The failure path of `alloc_clusters`: the count passed on is one too small. */
    method Rollback(indices: seq<nat>, ghost b0: seq<byte>)
      requires Shape() && |b0| == bitmap.Length && MarksOk(b0, chains, leaked, clusterCount)
      requires TakenFrom(Marks(b0, clusterCount), indices, Marks(bitmap[..], clusterCount), clusterCount)
      modifies bitmap, this`leaked
      ensures MarksOk(bitmap[..], chains, leaked, clusterCount)
      ensures leaked == if indices == [] then old(leaked) else old(leaked) + {indices[|indices| - 1]}
      ensures indices != [] ==> indices[|indices| - 1] !in old(leaked)
    {
      hide Marks, Recorded;
      ghost var full := Marks(bitmap[..], clusterCount);
      TakenMeans(Marks(b0, clusterCount), indices, full, clusterCount);
      if |indices| > 0 {
        DoDeallocClusters(indices, |indices| - 1);
        LeftOver(Marks(b0, clusterCount), indices, full, clusterCount);
        leaked := leaked + {indices[|indices| - 1]};
      }
    }

    // ---------- extending a file ----------

    /** Fills the data of one new cluster: zeros before `off`, then bytes of the buffer. */
    method FillCluster(cluster: array<byte>, buf: array<byte>, bufOff: nat, bufSize: nat, off: nat, processed: nat,
                       writeSize: nat)
      requires cluster.Length == CLUSTER_SIZE && cluster != buf && bufOff + bufSize <= buf.Length
      requires processed + writeSize <= off + bufSize && writeSize <= CLUSTER_DATA_SIZE
      modifies cluster
      ensures cluster[..writeSize] == Stream(off, buf[bufOff..bufOff + bufSize])[processed..processed + writeSize]
    {
      hide Splice, Stream, Zeros, Recorded;
      ghost var c0, data := cluster[..], buf[bufOff..bufOff + bufSize];
      var padSize := if off > processed then Min(writeSize, off - processed) else 0;
      StreamPiece(c0, off, data, processed, writeSize, padSize);
      CopyIn(cluster, 0, Zeros(padSize));
      if padSize < writeSize {
        var from := bufOff + (processed + padSize - off);
        SliceOfSlice(buf[..], bufOff, bufOff + bufSize, from - bufOff, writeSize - padSize);
        CopyIn(cluster, padSize, buf[from..from + (writeSize - padSize)]);
      }
    }

    /** One turn of the loop that writes new clusters: a cluster nothing links to yet. */
    method WriteNewCluster(idx: nat, next: nat, buf: array<byte>, bufOff: nat, bufSize: nat, off: nat, processed: nat,
                           writeSize: nat)
      returns (ret: Status, c: seq<byte>)
      requires Shape() && idx < |store| && next <= CLUSTER_OFFSET_EOF
      requires bufOff + bufSize <= buf.Length && processed + writeSize <= off + bufSize
      requires writeSize <= CLUSTER_DATA_SIZE
      modifies this`tick, this`store, this`trace
      ensures Shape() && tick == old(tick) + 1 && (ret == Done <==> !faults(old(tick)))
      ensures ret == Done || ret == LastAccess(tick)
      ensures store == if ret == Done then old(store)[idx := c] else old(store)
      ensures trace == if ret == Done then old(trace) + [store] else old(trace)
      ensures |c| == CLUSTER_SIZE && FsNextCluster(c) == next
      ensures c[..writeSize] == Stream(off, buf[bufOff..bufOff + bufSize])[processed..processed + writeSize]
    {
      hide FsNextCluster, Stream, Recorded;
      var cluster := new byte[CLUSTER_SIZE];
      FillCluster(cluster, buf, bufOff, bufSize, off, processed, writeSize);
      ghost var filled := cluster[..CLUSTER_DATA_SIZE];
      FsSetNextCluster(cluster, next);
      assert cluster[..writeSize] == filled[..writeSize];
      c := cluster[..];
      ret := WriteCluster(cluster, idx);
    }

    /** The final write: the start of the stream goes into the last cluster, which now links to the first new one. */
    method HookUpCluster(idx: nat, localEofOff: nat, buf: array<byte>, bufOff: nat, bufSize: nat, off: nat, next: nat)
      returns (ret: Status, c: seq<byte>)
      requires Shape() && idx < |store| && next <= CLUSTER_OFFSET_EOF && localEofOff <= CLUSTER_DATA_SIZE
      requires bufOff + bufSize <= buf.Length
      modifies this`tick, this`store, this`trace
      ensures Shape() && old(tick) <= tick && (ret == Done <==> Quiet(old(tick), tick))
      ensures ret == Done || ret == LastAccess(tick)
      ensures store == if ret == Done then old(store)[idx := c] else old(store)
      ensures trace == if ret == Done then old(trace) + [store] else old(trace)
      ensures ret == Done ==> |c| == CLUSTER_SIZE
      ensures ret == Done ==>
        HookedUp(old(store)[idx], c, localEofOff, Stream(off, buf[bufOff..bufOff + bufSize]), next)
    {
      hide Splice, Stream, Zeros, FsNextCluster, HookedUp, StoreOk, Recorded;
      var cluster := new byte[CLUSTER_SIZE];
      c := [];
      ret := ReadCluster(cluster, idx);
      if ret != Done {
        return;
      }
      ghost var data := buf[bufOff..bufOff + bufSize];
      var partialClusterRemaining := CLUSTER_DATA_SIZE - localEofOff;
      if off > 0 {
        CopyIn(cluster, localEofOff, Zeros(Min(off, partialClusterRemaining)));
      }
      if off < partialClusterRemaining {
        var n := Min(partialClusterRemaining - off, bufSize);
        SliceOfSlice(buf[..], bufOff, bufOff + bufSize, 0, n);
        CopyIn(cluster, off + localEofOff, buf[bufOff..bufOff + n]);
      }
      ghost var patched := cluster[..];
      FsSetNextCluster(cluster, next);
      c := cluster[..];
      PatchedTail(store[idx], patched, c, localEofOff, off, data, next);
      ret := WriteCluster(cluster, idx);
    }

    /** The loop over the new clusters; nothing outside them is written. */
    method WriteNewClusters(indices: seq<nat>, buf: array<byte>, bufOff: nat, bufSize: nat, off: nat, skip: nat,
                            ghost more: seq<nat>)
      returns (ret: Status)
      requires Shape() && indices == more + [CLUSTER_OFFSET_EOF] && NoDup(more)
      requires (forall i :: 0 <= i < |more| ==> more[i] < |store|)
      requires bufOff + bufSize <= buf.Length
      requires more != [] ==> skip + CLUSTER_DATA_SIZE * (|more| - 1) < off + bufSize
      modifies this`tick, this`store, this`trace
      ensures Shape() && old(tick) <= tick && (ret == Done <==> Quiet(old(tick), tick))
      ensures ret == Done || ret == LastAccess(tick)
      ensures SameOutside(old(store), store, more) && TraceOutside(old(trace), trace, old(store), more)
      ensures ret == Done ==> NewWritten(store, more, Stream(off, buf[bufOff..bufOff + bufSize]), skip, |more|)
    {
      hide FsNextCluster, Stream, NewWritten, SameOutside, TraceOutside, StoreOk, NoDup, Recorded;
      ghost var s0, stream := store, Stream(off, buf[bufOff..bufOff + bufSize]);
      var actualSize := bufSize + off;
      var processed := skip;
      NothingWritten(s0, trace, more, stream, skip);
      for i := 0 to |indices| - 1
        invariant Shape() && old(tick) <= tick && Quiet(old(tick), tick)
        invariant i < |more| ==> processed == skip + CLUSTER_DATA_SIZE * i
        invariant SameOutside(s0, store, more) && TraceOutside(old(trace), trace, s0, more)
        invariant NewWritten(store, more, stream, skip, i)
      {
        assert processed < actualSize;
        var remaining := actualSize - processed;
        var writeSize := Min(remaining, CLUSTER_DATA_SIZE);
        ghost var s1, t1 := store, trace;
        LinkInRange(store, more, indices, i);
        var status, c := WriteNewCluster(indices[i], indices[i + 1], buf, bufOff, bufSize, off, processed, writeSize);
        if status != Done {
          return status;
        }
        NewClusterWritten(s0, s1, old(trace), t1, more, stream, skip, i, c, writeSize);
        processed := processed + writeSize;
      }
      return Done;
    }

    /** `dealloc_clusters`: what an extension that failed does with its new clusters. */
    method GiveBack(indices: seq<nat>, count: nat)
      requires Shape() && count <= |indices| && forall i :: 0 <= i < count ==> indices[i] < clusterCount
      requires Marks(bitmap[..], clusterCount) == OwnedSet(chains) + leaked + Elems(indices[..count])
      requires leaked !! OwnedSet(chains)
      requires Elems(indices[..count]) !! OwnedSet(chains) + leaked
      modifies bitmap
      ensures MarksOk(bitmap[..], chains, leaked, clusterCount)
    {
      hide Marks, OwnedSet, Elems, Recorded;
      DoDeallocClusters(indices, count);
    }

    /**
     * `bs_do_write_extend`: appends `off` zeros and then the buffer after byte `size` of file `f`. The new
     * clusters are written first and hooked up last: at every moment before the final write all files read as
     * before, so a failure leaves them alone. The new size is recorded by the caller.
     */
    method DoWriteExtend(clusterIdx: nat, localEofOff: nat, buf: array<byte>, bufOff: nat, bufSize: nat, off: nat,
                         ghost f: nat)
      returns (ret: Status, ghost more: seq<nat>)
      requires Valid() && IsFile(f) && bufOff + bufSize <= buf.Length
      requires var chain, size := chains[f], Table()[f].ent.size;
        && clusterIdx == chain[|chain| - 1] && localEofOff == GetLocalEofOff(size)
        && bufSize + off >= 1 && size + bufSize + off < TWO64 / 2
      modifies this`tick, this`store, this`trace, this`leaked, bitmap
      ensures Shape() && old(tick) <= tick
      ensures ret == Done ==> ExtendDone(old(store), store, chains, leaked, Marks(bitmap[..], clusterCount), more, f,
                                         Table()[f].ent.size, Stream(off, buf[bufOff..bufOff + bufSize]))
      ensures ret != Done ==> Valid() && FilesSame(old(store), store, chains)
      ensures TraceSame(old(store), old(trace), trace, chains, |trace| - (if ret == Done then 1 else 0))
      ensures ret == Done || ret == LastAccess(tick) || ret == Failed(ENOSPC)
      ensures ret == Failed(ENOSPC) <==>
        |old(Marks(bitmap[..], clusterCount))| + NewClusterCount(Table()[f].ent.size, off + bufSize) > clusterCount
      ensures ret == Failed(ENOSPC) ==> tick == old(tick)
      ensures ret != Failed(ENOSPC) ==> leaked == old(leaked)
      ensures ret == Failed(ENOSPC) ==> old(leaked) <= leaked && |leaked - old(leaked)| <= 1
      ensures Quiet(old(tick), tick) ==> ret == Done || ret == Failed(ENOSPC)
    {
      hide Marks, OwnedSet, Elems, FilesOk, Disjoint, Stream, NoDup, ExtendDone, FilesSame, TraceSame, IsDirectory,
        MarksOk, GetRequiredClusterCount, ToOff, GetLocalEofOff, ChainOk, TableOf, StoreOk, ChainLen, Recorded, Quiet,
        LastAccess;
      FileFacts(store, Table(), chains, f);
      ExtendFacts(Table()[f].ent.size, off + bufSize);
      var actualSize := bufSize + off;
      var partialClusterRemaining := CLUSTER_DATA_SIZE - localEofOff;
      var newClusterCount := GetRequiredClusterCount(ToOff(actualSize - partialClusterRemaining));

      more := [];
      ghost var b0 := bitmap[..];
      var taken := AllocClusters(newClusterCount);
      if taken.Err? {
        FilesSameRefl(store, trace, chains);
        return Failed(ENOSPC), more;
      }
      more := taken.value[..newClusterCount];
      TakenApart(b0, Marks(bitmap[..], clusterCount), chains, leaked, clusterCount, more);
      ret := BuildAndLink(taken.value, clusterIdx, localEofOff, buf, bufOff, bufSize, off, f, more);
    }

    /** Writes the new clusters and hooks them up, or frees them again. */
    method BuildAndLink(indices: seq<nat>, clusterIdx: nat, localEofOff: nat, buf: array<byte>, bufOff: nat,
                        bufSize: nat, off: nat, ghost f: nat, ghost more: seq<nat>) returns (ret: Status)
      requires Shape() && FilesOk(store, Table(), chains) && IsFile(f) && f < |chains| && bufOff + bufSize <= buf.Length
      requires indices == more + [CLUSTER_OFFSET_EOF] && NoDup(more)
      requires (forall i :: 0 <= i < |more| ==> more[i] < clusterCount)
      requires Marks(bitmap[..], clusterCount) == OwnedSet(chains) + leaked + Elems(more) && leaked !! OwnedSet(chains)
      requires Elems(more) !! OwnedSet(chains) + leaked
      requires chains[f] != [] && clusterIdx == chains[f][|chains[f]| - 1] < |store|
      requires 0 <= localEofOff <= CLUSTER_DATA_SIZE && localEofOff == GetLocalEofOff(Table()[f].ent.size)
      requires |chains[f]| + |more| == ChainLen(Table()[f].ent.size + off + bufSize)
      requires more != [] ==> (CLUSTER_DATA_SIZE - localEofOff) + CLUSTER_DATA_SIZE * (|more| - 1) < off + bufSize
      modifies this`tick, this`store, this`trace, bitmap
      ensures Shape() && old(tick) <= tick && (ret == Done || ret == LastAccess(tick))
      ensures ret == Done ==> ExtendDone(old(store), store, chains, leaked, Marks(bitmap[..], clusterCount), more, f,
                                         Table()[f].ent.size, Stream(off, buf[bufOff..bufOff + bufSize]))
      ensures ret != Done ==> MarksOk(bitmap[..], chains, leaked, clusterCount)
      ensures ret != Done ==> FilesOk(store, Table(), chains) && FilesSame(old(store), store, chains)
      ensures TraceSame(old(store), old(trace), trace, chains, |trace| - (if ret == Done then 1 else 0))
      ensures (Quiet(old(tick), tick) ==> ret == Done) && ret != Failed(ENOSPC)
    {
      hide Marks, OwnedSet, Elems, FilesOk, NewWritten, SameOutside, Stream, NoDup, StoreOk, HookedUp, FsNextCluster,
        ExtendDone, FilesSame, TraceOutside, TraceSame, MarksOk, GetLocalEofOff, ChainLen, TableOf, Recorded;
      ghost var s0, stream := store, Stream(off, buf[bufOff..bufOff + bufSize]);
      ret := WriteNewClusters(indices, buf, bufOff, bufSize, off, CLUSTER_DATA_SIZE - localEofOff, more);
      NewClustersKeep(s0, store, old(trace), trace, Table(), chains, more);
      ghost var s1 := store;
      var c: seq<byte>;
      if ret == Done {
        LinkInRange0(s0, more, indices);
        ret, c := HookUpCluster(clusterIdx, localEofOff, buf, bufOff, bufSize, off, indices[0]);
      }
      if ret != Done {
        assert indices[..|indices| - 1] == more;
        GiveBack(indices, |indices| - 1);
        return;
      }
      ExtendFinish(s0, s1, c, Table(), chains, leaked, Marks(bitmap[..], clusterCount), f, more, stream, clusterCount);
    }

    // ---------- sizes ----------

    method GetSizeAndInitialCluster(f: nat) returns (ret: Result<(nat, nat)>)
      requires bft.Length == BFT_SIZE
      ensures IsFile(f) ==> ret == Ok((Table()[f].ent.size, Table()[f].ent.initialCluster))
    {
      var ent := BftReadTableEntry(bft, f);
      if f < BFT_MAX_ENTRIES {
        SlotAt(bft[..], f);
      }
      if ent.Err? {
        return Err(ent.errno);
      }
      return Ok((ent.value.size, ent.value.initialCluster));
    }

    /** `commit_write_to_bft`: records the new size and, if asked to, drops the set-id bits. */
    method CommitWriteToBft(f: nat, newSize: nat, killPriv: bool) returns (ret: Status)
      requires bft.Length == BFT_SIZE && IsFile(f)
      modifies bft
      ensures ret == Done
      ensures Committing(old(Table()), Table(), f, newSize, killPriv)
      ensures Table() == old(Table())[f := Used(Committed(old(Table())[f].ent, newSize, killPriv))]
    {
      hide TableOf, SlotOf, Decode, Raw, Committed, Committing, KillPriv, Splice, Encode, Recorded;
      ghost var e0 := Table()[f].ent;
      var e := ReadUsed(f);
      if killPriv {
        e := e.(mode := KillPriv(e.mode));
      }
      e := e.(size := newSize);
      CommittedStored(e0, newSize, killPriv);
      CommittedMeans(Table(), f, newSize, killPriv);
      ret := BftWriteTableEntry(bft, e, f);
    }

    /** The cluster that holds the last byte of a file of that size; the first one when it is empty. */
    method FindEofCluster(initialCluster: nat, fileSize: nat, ghost chain: seq<nat>)
      returns (ret: Status, eofCluster: nat)
      requires Shape() && ChainOk(store, chain) && initialCluster == chain[0] && ChainLen(fileSize) <= |chain|
      modifies this`tick
      ensures old(tick) <= tick && (ret == Done || ret == LastAccess(tick)) && (Quiet(old(tick), tick) <==> ret == Done)
      ensures ret == Done ==> eofCluster == chain[ChainLen(fileSize) - 1] && tick == old(tick) + ChainLen(fileSize) - 1
      ensures tick <= old(tick) + ChainLen(fileSize) - 1
    {
      if fileSize == 0 {
        return Done, initialCluster;
      }
      var localOff: nat;
      ret, eofCluster, localOff := FindCluster(initialCluster, fileSize - 1, chain);
    }

    // ---------- reading ----------

    /** `bsfs_read`: exactly the slice of the flat contents that the range and the file have in common. */
    method Read(f: nat, buf: array<byte>, size: nat, off: nat) returns (ret: Result<nat>)
      requires Valid() && !locked && IsFile(f) && size <= buf.Length && buf != bitmap && buf != bft
      modifies this`tick, this`store, this`trace, buf
      ensures store == old(store) && trace == old(trace) && Valid() && old(tick) <= tick
      ensures ret.Ok? <==> Quiet(old(tick), tick)
      ensures ret.Err? ==> StatusOf(ret) == LastAccess(tick)
      ensures ret.Ok? ==> var c := FileBytes(f); var o := Min(off, |c|);
        ret.value == Min(size, |c| - o) && buf[..] == Splice(old(buf[..]), 0, c[o..o + ret.value])
    {
      hide FilesOk, Disjoint, MarksOk, IsDirectory, Splice, ChainOk, StoreOk, TableOf, ByteOf, Contents, ChainBytes,
        Recorded;
      FileFacts(store, Table(), chains, f);
      ghost var chain := chains[f];
      var meta := GetSizeAndInitialCluster(f);
      var (fileSize, initialCluster) := meta.value;
      var (rwOff, rwSize) := AdjustSizeAndOff(fileSize, size, off);
      ReadSlice(store, chain, fileSize, rwOff, rwSize, buf[..]);
      if rwSize == 0 {
        return Ok(0);
      }
      var status, clusterIdx, localOff := FindCluster(initialCluster, rwOff, chain);
      if status != Done {
        return Err(status.errno);
      }
      ghost var done;
      var last: nat;
      ret, last, done := DoRwOp(clusterIdx, localOff, buf, 0, rwSize, false, chain, rwOff / CLUSTER_DATA_SIZE);
    }

    // ---------- writing ----------

    /** The part of a write that overlaps the file: a prefix of it has been written when a cluster access fails. */
    method WriteOverlap(f: nat, buf: array<byte>, size: nat, off: nat)
      returns (ret: Status, eofCluster: nat, ghost done: nat)
      requires Valid() && IsFile(f) && 0 < size <= buf.Length && buf != bitmap && buf != bft
      requires off + size <= Table()[f].ent.size
      modifies this`tick, this`store, this`trace, buf
      ensures Valid() && old(tick) <= tick && buf[..] == old(buf[..]) && done <= size
      ensures ret == Done || ret == LastAccess(tick)
      ensures ret == Done <==> Quiet(old(tick), tick)
      ensures ret == Done ==> done == size && LastTouched(chains[f], off + size, eofCluster)
      ensures ChainPatched(old(store), store, chains[f], off, buf[..done])
      ensures OthersSame(old(store), store, chains, chains, f)
    {
      hide FilesOk, Disjoint, MarksOk, IsDirectory, ChainOk, StoreOk, TableOf, ChainPatched, LastTouched, OthersSame,
        Recorded;
      FileFacts(store, Table(), chains, f);
      ghost var s0, chain := store, chains[f];
      done, eofCluster := 0, 0;
      OverlapStart(store, Table(), chains, f, off, buf[..]);
      var meta := GetSizeAndInitialCluster(f);
      var status, clusterIdx, localOff := FindCluster(meta.value.1, off, chain);
      if status != Done {
        return status, eofCluster, done;
      }
      var rw: Result<nat>;
      rw, eofCluster, done := DoRwOp(clusterIdx, localOff, buf, 0, size, true, chain, off / CLUSTER_DATA_SIZE);
      OverlapKeeps(s0, store, Table(), chains, f, off, buf[..done]);
      return StatusOf(rw), eofCluster, done;
    }

    /**
     * `bs_do_write_extend` followed by `commit_write_to_bft`, as writing, truncating and allocating do it: the
     * file grows by `off` zeros and the buffer.
     */
    method ExtendFile(f: nat, eofCluster: nat, buf: array<byte>, bufOff: nat, bufSize: nat, off: nat, killPriv: bool)
      returns (ret: Status)
      requires Valid() && IsFile(f) && bufOff + bufSize <= buf.Length && buf != bitmap && buf != bft
      requires eofCluster == chains[f][|chains[f]| - 1]
      requires bufSize + off >= 1 && Table()[f].ent.size + bufSize + off < TWO64 / 2
      modifies this`tick, this`store, this`trace, this`leaked, this`chains, bitmap, bft
      ensures Shape() && old(tick) <= tick && (ret == Done || ret == LastAccess(tick) || ret == Failed(ENOSPC))
      ensures ret == Done ==> var newSize := old(Table())[f].ent.size + off + bufSize;
        && Updated(old(store), store, old(Table()), Table(), old(chains), chains, f, newSize,
                   old(FileBytes(f)) + Stream(off, buf[bufOff..bufOff + bufSize]), killPriv)
        && Committing(old(Table()), Table(), f, newSize, killPriv) && (Valid() <==> newSize < TWO32)
      ensures ret != Done ==>
        Valid() && bft[..] == old(bft[..]) && chains == old(chains) && FilesSame(old(store), store, chains)
      ensures TraceSame(old(store), old(trace), trace, old(chains), |trace| - (if ret == Done then 1 else 0))
      ensures ret == Failed(ENOSPC) <==>
        Short(old(Marks(bitmap[..], clusterCount)), clusterCount, |old(FileBytes(f))|,
            |old(FileBytes(f))| + off + bufSize)
      ensures ret == Failed(ENOSPC) ==> tick == old(tick)
      ensures ret != Failed(ENOSPC) ==> leaked == old(leaked)
      ensures ret == Failed(ENOSPC) ==> old(leaked) <= leaked && |leaked - old(leaked)| <= 1
      ensures Quiet(old(tick), tick) ==> ret == Done || ret == Failed(ENOSPC)
      ensures Valid() <==> InOrder()
    {
      hide FilesOk, Disjoint, MarksOk, IsDirectory, StoreOk, TableOf, Updated, FilesSame, TraceSame, ExtendDone, Marks,
        Contents, NewClusterCount, Stream, GetLocalEofOff, ChainOk, Explained, Short, Recorded, Committing;
      ghost var t0, s0, data := Table(), store, buf[bufOff..bufOff + bufSize];
      FileFacts(store, t0, chains, f);
      EofOff(t0[f].ent.size);
      ShortMeans(Marks(bitmap[..], clusterCount), clusterCount, t0[f].ent.size, off + bufSize);
      var meta := GetSizeAndInitialCluster(f);
      var fileSize := meta.value.0;
      ghost var more;
      ret, more := DoWriteExtend(eofCluster, GetLocalEofOff(fileSize), buf, bufOff, bufSize, off, f);
      if ret != Done {
        ValidIsInOrder();
        return;
      }
      ExtendCommits(s0, store, t0, chains, leaked, bitmap[..], clusterCount, f, more, off, data, killPriv);
      ret := CommitWriteToBft(f, fileSize + off + bufSize, killPriv);
      chains := chains[f := chains[f] + more];
    }

    /** The part of a write before the extension: it ends knowing the cluster with the last byte, if that is needed. */
    method StartWrite(f: nat, buf: array<byte>, size: nat, off: nat)
      returns (ret: Status, eofCluster: nat, overlapSize: nat, ghost done: nat)
      requires Valid() && IsFile(f) && 0 < size <= buf.Length && buf != bitmap && buf != bft
      modifies this`tick, this`store, this`trace, buf
      ensures Valid() && old(tick) <= tick && buf[..] == old(buf[..]) && done <= overlapSize <= size
      ensures overlapSize == Overlap(Table()[f].ent.size, size, off)
      ensures ret == Done || ret == LastAccess(tick)
      ensures ret == Done <==> Quiet(old(tick), tick)
      ensures ret == Done ==> done == overlapSize
      ensures ret == Done && overlapSize < size ==> eofCluster == chains[f][|chains[f]| - 1]
      ensures FileBytes(f) == PartlyWritten(old(FileBytes(f)), off, buf[..done])
      ensures OthersSame(old(store), store, chains, chains, f)
    {
      hide FilesOk, Disjoint, MarksOk, IsDirectory, StoreOk, TableOf, Contents, ChainOk, ChainPatched, LastTouched,
        OthersSame, Overwrite, ChainLen, PartlyWritten, Recorded;
      FileFacts(store, Table(), chains, f);
      ghost var s0 := store;
      done, eofCluster := 0, 0;
      WriteStart(store, Table(), chains, f, off, buf[..]);
      var meta := GetSizeAndInitialCluster(f);
      var (fileSize, initialCluster) := meta.value;
      var (overlapOff, n) := AdjustSizeAndOff(fileSize, size, off);
      overlapSize := n;
      if overlapSize > 0 {
        ret, eofCluster, done := WriteOverlap(f, buf, overlapSize, overlapOff);
        PartialWrite(s0, store, Table(), chains, f, off, buf[..done]);
        if ret == Done && overlapSize < size {
          LastIsEof(chains[f], off + overlapSize, eofCluster, fileSize);
        }
      } else {
        ret, eofCluster := FindEofCluster(initialCluster, fileSize, chains[f]);
      }
    }

    /**
     * `bsfs_write`: afterwards the file is the flat overwrite of its old contents, zeros filling a gap past the
     * old end, and every other file is as it was. The level stays in order exactly when the new size fits the
     * 32-bit field of the table. After an error the size is the old one and a prefix of the data, of length
     * `done`, may have reached the overlapping part.
     */
    method Write(f: nat, buf: array<byte>, size: nat, off: nat) returns (ret: Result<nat>, ghost done: nat)
      requires Valid() && !locked && IsFile(f) && size <= buf.Length && buf != bitmap && buf != bft
      requires off + size < TWO64 / 2
      modifies this`tick, this`store, this`trace, this`leaked, this`chains, bitmap, bft, buf
      ensures Shape() && old(tick) <= tick && buf[..] == old(buf[..]) && done <= size
      ensures size == 0 ==>
          ret == Ok(0) && Valid() && store == old(store) && bft[..] == old(bft[..]) &&
          bitmap[..] == old(bitmap[..]) && chains == old(chains)
      ensures ret.Ok? && size > 0 ==> ret.value == size
      ensures ret.Ok? && size > 0 ==> var newSize := Max(|old(FileBytes(f))|, off + size);
        && Updated(old(store), store, old(Table()), Table(), old(chains), chains, f, newSize,
                   Overwrite(old(FileBytes(f)), off, buf[..size]), true)
        && Committing(old(Table()), Table(), f, newSize, true) && (Valid() <==> newSize < TWO32)
      ensures ret.Ok? ==> leaked == old(leaked)
      ensures ret.Err? ==>
        Valid() && bft[..] == old(bft[..]) && chains == old(chains) && OthersSame(old(store), store, chains, chains, f)
      ensures ret.Err? ==> FileBytes(f) == PartlyWritten(old(FileBytes(f)), off, buf[..done])
      ensures ret.Err? ==> ret == Err(ENOSPC) || StatusOf(ret) == LastAccess(tick)
      ensures ret.Err? ==> old(leaked) <= leaked && |leaked - old(leaked)| <= 1
      ensures Quiet(old(tick), tick) ==> ret.Ok? || ret == Err(ENOSPC)
      ensures size > 0 ==> (ret == Err(ENOSPC) <==>
          Quiet(old(tick), tick) &&
          Short(old(Marks(bitmap[..], clusterCount)), clusterCount, |old(FileBytes(f))|,
                Max(|old(FileBytes(f))|, off + size)))
      ensures Valid() <==> InOrder()
    {
      hide FilesOk, Disjoint, MarksOk, IsDirectory, StoreOk, TableOf, Updated, FilesSame, TraceSame, Marks, Contents,
        Stream, ChainOk, OthersSame, Overwrite, ChainLen, NewClusterCount, PartlyWritten, KillPriv, SlotOf, Raw, Decode,
        Explained, Recorded, Committing;
      done := 0;
      if size == 0 {
        ValidIsInOrder();
        return Ok(0), done;
      }
      FileFacts(store, Table(), chains, f);
      ghost var s0, t, c, data := store, Table(), FileBytes(f), buf[..size];
      var meta := GetSizeAndInitialCluster(f);
      var fileSize := meta.value.0;
      var eofCluster: nat, overlapSize: nat;
      var status: Status;
      status, eofCluster, overlapSize, done := StartWrite(f, buf, size, off);
      if status != Done {
        ValidIsInOrder();
        return Err(status.errno), done;
      }
      ghost var s1 := store;
      if overlapSize == size {
        InPlace(c, off, buf[..], size);
        UsedSlot(bft[..], f);
        CommitInPlace(s0, store, t, chains, f, Overwrite(c, off, data), true);
        DirectoryKept(t, f, Committed(t[f].ent, fileSize, true));
        status := CommitWriteToBft(f, Max(fileSize, off + size), true);
        ValidIsInOrder();
        return Ok(size), done;
      }
      status := ExtendFile(f, eofCluster, buf, overlapSize, size - overlapSize,
                           if fileSize > off then 0 else off - fileSize, true);
      if status != Done {
        OthersSameTrans(s0, s1, store, chains, f);
        SameContents(s1, store, chains, f, fileSize);
        return Err(status.errno), done;
      }
      WholeWrite(c, off, data, overlapSize, buf[..]);
      UpdatedAfterPatch(s0, s1, store, t, Table(), old(chains), chains, f, off + size, Overwrite(c, off, data), true);
      return Ok(size), done;
    }

    // ---------- truncating and allocating ----------

    /** `get_cluster_chain`: the clusters from position `k` of a chain to its end. */
    method GetClusterChain(clusterIdx: nat, ghost chain: seq<nat>, ghost k: nat) returns (ret: Result<seq<nat>>)
      requires Shape() && ChainOk(store, chain) && k <= |chain|
      requires clusterIdx == if k < |chain| then chain[k] else CLUSTER_OFFSET_EOF
      modifies this`tick
      ensures old(tick) <= tick <= old(tick) + (|chain| - k)
      ensures StatusOf(ret) == if Quiet(old(tick), old(tick) + (|chain| - k)) then Done else LastAccess(tick)
      ensures ret.Ok? <==> Quiet(old(tick), old(tick) + (|chain| - k))
      ensures ret.Ok? ==> ret.value == chain[k..]
      ensures Quiet(old(tick), tick) ==> ret.Ok?
      ensures ret.Ok? ==> tick == old(tick) + (|chain| - k)
    {
      hide FsNextCluster, ChainOk, Recorded;
      var cluster := new byte[CLUSTER_SIZE];
      var idx: nat := clusterIdx;
      var indices: seq<nat> := [];
      ghost var j := k;
      InRange(store, chain, k);
      while idx != CLUSTER_OFFSET_EOF
        invariant k <= j <= |chain| && indices == chain[k..j]
        invariant idx == if j < |chain| then chain[j] else CLUSTER_OFFSET_EOF
        invariant j < |chain| ==> chain[j] < |store| <= CLUSTER_OFFSET_EOF
        invariant tick == old(tick) + (j - k) && Quiet(old(tick), tick)
        decreases |chain| - j
      {
        indices := indices + [idx];
        NextInChain(store, chain, j);
        var status := ReadCluster(cluster, idx);
        if status != Done {
          return Err(status.errno);
        }
        idx := FsNextCluster(cluster[..]);
        j := j + 1;
        InRange(store, chain, j);
      }
      assert chain[k..|chain|] == chain[k..];
      return Ok(indices);
    }

    /** `dealloc_cluster_chain`: frees the rest of a chain, or nothing of it when it cannot be read. */
    method DeallocClusterChain(initialCluster: nat, ghost chain: seq<nat>, ghost k: nat) returns (ret: Status)
      requires Shape() && ChainOk(store, chain) && k <= |chain|
      requires initialCluster == if k < |chain| then chain[k] else CLUSTER_OFFSET_EOF
      modifies this`tick, bitmap
      ensures old(tick) <= tick <= old(tick) + (|chain| - k)
      ensures ret == if Quiet(old(tick), old(tick) + (|chain| - k)) then Done else LastAccess(tick)
      ensures ret == Done <==> Quiet(old(tick), old(tick) + (|chain| - k))
      ensures Quiet(old(tick), tick) ==> ret == Done
      ensures ret == Done ==> tick == old(tick) + (|chain| - k)
      ensures ret == Done ==>
        Marks(bitmap[..], clusterCount) == old(Marks(bitmap[..], clusterCount)) - Elems(chain[k..])
      ensures ret != Done ==> bitmap[..] == old(bitmap[..])
    {
      hide Marks, Elems, FsNextCluster, Recorded;
      var indices := GetClusterChain(initialCluster, chain, k);
      if indices.Err? {
        return Failed(indices.errno);
      }
      assert indices.value[..|indices.value|] == chain[k..];
      DoDeallocClusters(indices.value, |indices.value|);
      return Done;
    }

    /**
     * The part of `bsfs_ftruncate` that gives up clusters. They are freed before the new last one gets the end
     * mark, so when exactly that final write fails (`freed`) the file keeps links to clusters that are free.
     */
    method CutChain(initialCluster: nat, newSize: nat, ghost chain: seq<nat>) returns (ret: Status, ghost freed: bool)
      requires Shape() && ChainOk(store, chain) && initialCluster == chain[0] && ChainLen(newSize) <= |chain|
      modifies this`tick, this`store, this`trace, bitmap
      ensures Shape() && old(tick) <= tick
      ensures ret == if Quiet(old(tick), old(tick) + |chain| + 1) then Done else LastAccess(tick)
      ensures ret == Done <==> Quiet(old(tick), old(tick) + |chain| + 1)
      ensures freed <==> Quiet(old(tick), old(tick) + |chain|)
      ensures Quiet(old(tick), tick) ==> ret == Done
      ensures ret == Done ==> Cut(old(store), store, chain, ChainLen(newSize))
      ensures ret != Done ==> store == old(store) && trace == old(trace)
      ensures freed ==>
        Marks(bitmap[..], clusterCount) == old(Marks(bitmap[..], clusterCount)) - Elems(chain[ChainLen(newSize)..])
      ensures !freed ==> bitmap[..] == old(bitmap[..])
    {
      hide StoreOk, ChainOk, ChainLen, FsNextCluster, Marks, Elems, Cut, Recorded;
      ghost var k := ChainLen(newSize);
      freed := false;
      var newEof: nat;
      ret, newEof := FindEofCluster(initialCluster, newSize, chain);
      if ret != Done {
        return;
      }
      NextInChain(store, chain, k - 1);
      var cluster := new byte[CLUSTER_SIZE];
      ret := ReadCluster(cluster, newEof);
      if ret != Done {
        return;
      }
      ret := DeallocClusterChain(FsNextCluster(cluster[..]), chain, k);
      if ret != Done {
        return;
      }
      freed := true;
      FsSetNextCluster(cluster, CLUSTER_OFFSET_EOF);
      CutAt(store, chain, k, cluster[..]);
      ret := WriteCluster(cluster, newEof);
    }

    /** `find_eof_cluster`, an extension by zeros and the new size, as truncating and allocating do it. */
    method GrowFile(f: nat, newSize: nat, killPriv: bool) returns (ret: Status)
      requires Valid() && IsFile(f) && Table()[f].ent.size < newSize < TWO64 / 2
      modifies this`tick, this`store, this`trace, this`leaked, this`chains, bitmap, bft
      ensures Shape() && old(tick) <= tick && (ret == Done || ret == LastAccess(tick) || ret == Failed(ENOSPC))
      ensures ret == Done ==>
        && Updated(old(store), store, old(Table()), Table(), old(chains), chains, f, newSize,
            Resize(old(FileBytes(f)), newSize), killPriv)
        && Committing(old(Table()), Table(), f, newSize, killPriv)
        && (Valid() <==> newSize < TWO32) && leaked == old(leaked)
      ensures ret != Done ==>
        Valid() && bft[..] == old(bft[..]) && chains == old(chains) && FilesSame(old(store), store, chains)
      ensures ret != Done ==> old(leaked) <= leaked && |leaked - old(leaked)| <= 1
      ensures Quiet(old(tick), tick) ==> ret == Done || ret == Failed(ENOSPC)
      ensures ret == Failed(ENOSPC) <==>
          Quiet(old(tick), tick) &&
          Short(old(Marks(bitmap[..], clusterCount)), clusterCount, |old(FileBytes(f))|, newSize)
      ensures Valid() <==> InOrder()
    {
      hide FilesOk, Disjoint, MarksOk, IsDirectory, StoreOk, TableOf, Updated, FilesSame, TraceSame, Marks, Contents,
        Stream, ChainOk, ChainLen, NewClusterCount, Resize, Explained, Short, Recorded, Committing;
      FileFacts(store, Table(), chains, f);
      GrownContents(FileBytes(f), newSize);
      FilesSameRefl(store, trace, chains);
      var meta := GetSizeAndInitialCluster(f);
      var fileSize := meta.value.0;
      var eofCluster: nat;
      ret, eofCluster := FindEofCluster(meta.value.1, fileSize, chains[f]);
      if ret != Done {
        ValidIsInOrder();
        return;
      }
      var empty := new byte[0];
      assert empty[0..0] == [];
      ret := ExtendFile(f, eofCluster, empty, 0, 0, newSize - fileSize, killPriv);
    }

    /**
     * `bsfs_ftruncate`: the file is cut or extended with zeros, and loses its set-id bits unless the size stays.
     * A failure leaves all files as they were, but if exactly the last of the `|chain| + 1` cluster accesses of
     * a cut fails, the clusters that were to be given up are already free.
     */
    method Ftruncate(f: nat, newSize: nat) returns (ret: Status)
      requires Valid() && !locked && IsFile(f) && newSize < TWO64 / 2
      modifies this`tick, this`store, this`trace, this`leaked, this`chains, bitmap, bft
      ensures Shape() && old(tick) <= tick && (ret == Done || ret == LastAccess(tick) || ret == Failed(ENOSPC))
      ensures newSize == |old(FileBytes(f))| ==>
        ret == Done && Valid() && store == old(store) && bft[..] == old(bft[..]) && chains == old(chains)
      ensures ret == Done && newSize != |old(FileBytes(f))| ==>
        && Updated(old(store), store, old(Table()), Table(), old(chains), chains, f, newSize,
            Resize(old(FileBytes(f)), newSize), true)
        && Committing(old(Table()), Table(), f, newSize, true) && (Valid() <==> newSize < TWO32)
      ensures ret == Done ==> leaked == old(leaked)
      ensures ret == Done && newSize < |old(FileBytes(f))| ==>
        && chains == old(chains)[f := old(chains)[f][..ChainLen(newSize)]]
        && Marks(bitmap[..], clusterCount) == old(Marks(bitmap[..], clusterCount)) -
          Elems(old(chains)[f][ChainLen(newSize)..])
      ensures ret != Done ==> bft[..] == old(bft[..]) && chains == old(chains) && FilesSame(old(store), store, chains)
      ensures ret != Done && newSize > |old(FileBytes(f))| ==> Valid()
      ensures ret != Done && newSize < |old(FileBytes(f))| ==> store == old(store) && leaked == old(leaked)
      ensures ret != Done && newSize < |old(FileBytes(f))| ==>
        Marks(bitmap[..], clusterCount) == old(Marks(bitmap[..], clusterCount)) -
          GivenUp(Quiet(old(tick), old(tick) + |chains[f]|), chains[f], ChainLen(newSize))
      ensures ret != Done && newSize < |old(FileBytes(f))| ==>
        (Valid() <==> GivenUp(Quiet(old(tick), old(tick) + |chains[f]|), chains[f], ChainLen(newSize)) == {})
      ensures Quiet(old(tick), tick) ==> ret == Done || ret == Failed(ENOSPC)
      ensures ret == Failed(ENOSPC) <==>
          Quiet(old(tick), tick) &&
          Short(old(Marks(bitmap[..], clusterCount)), clusterCount, |old(FileBytes(f))|, newSize)
      ensures Valid() <==> InOrder()
    {
      hide FilesOk, Disjoint, MarksOk, IsDirectory, StoreOk, TableOf, Updated, FilesSame, Marks, Contents, ChainOk,
        ChainLen, Cut, Elems, KillPriv, Resize, GetRequiredClusterCount, NoDup, Explained, Recorded, Committing;
      FileFacts(store, Table(), chains, f);
      ghost var s0, t, b0, chain, c := store, Table(), bitmap[..], chains[f], FileBytes(f);
      UsedSlot(bft[..], f);
      FilesSameRefl(store, trace, chains);
      var meta := GetSizeAndInitialCluster(f);
      var size := meta.value.0;
      if newSize == size {
        ValidIsInOrder();
        return Done;
      }
      if newSize > size {
        ret := GrowFile(f, newSize, true);
        return;
      }
      ghost var k := ChainLen(newSize);
      ShorterChain(newSize, size);
      if GetRequiredClusterCount(newSize) < GetRequiredClusterCount(size) {
        ghost var freed;
        ret, freed := CutChain(meta.value.1, newSize, chain);
        if ret != Done {
          CutFailed(store, t, b0, bitmap[..], chains, leaked, clusterCount, f, k, freed);
          return;
        }
      } else {
        CutNothing(store, chain);
        NothingAfter(chain);
      }
      CutContents(c, newSize);
      CommitShrink(s0, store, t, chains, f, newSize, true);
      MarksShrink(b0, bitmap[..], chains, leaked, clusterCount, f, k);
      DirectoryKept(t, f, Committed(t[f].ent, newSize, true));
      ret := CommitWriteToBft(f, newSize, true);
      chains := chains[f := chains[f][..k]];
      ValidIsInOrder();
    }

    /**
     * Truncating down and then up: the file reads as zeros from where it was cut, although neither call erases
     * what the kept clusters, or those it gets back, held there.
     */
    method CutAndRegrow(f: nat, low: nat, high: nat) returns (ret: Status)
      requires Valid() && !locked && IsFile(f) && low <= Table()[f].ent.size && low <= high < TWO32
      modifies this`tick, this`store, this`trace, this`leaked, this`chains, bitmap, bft
      ensures ret == Done ==> Valid() && IsFile(f) && Table()[f].ent.size == high
      ensures ret == Done ==> FileBytes(f) == old(FileBytes(f))[..low] + Zeros(high - low)
      ensures ret == Done ==> forall i :: 0 <= i < BFT_MAX_ENTRIES && i != f && old(IsFile(i)) ==>
          IsFile(i) && FileBytes(i) == old(FileBytes(i))
    {
      hide FilesOk, Disjoint, MarksOk, IsDirectory, StoreOk, TableOf, Updated, FilesSame, Marks, Contents, ChainOk,
        ChainLen, Resize, Explained, Short, GivenUp, Recorded;
      FileFacts(store, Table(), chains, f);
      ghost var s0, t0, c0 := store, Table(), chains;
      CutThenGrown(FileBytes(f), low, high);
      UsedSlot(bft[..], f);
      ret := Ftruncate(f, low);
      if ret != Done {
        return;
      }
      ResizedReads(s0, store, t0, Table(), c0, chains, f, low);
      ghost var s1, t1, c1 := store, Table(), chains;
      ret := Ftruncate(f, high);
      if ret == Done {
        ResizedReads(s1, store, t1, Table(), c1, chains, f, high);
      }
    }

    /** `bsfs_fallocate`: zeros up to the end of the range; it never cuts and keeps the set-id bits. */
    method Fallocate(f: nat, off: nat, len: nat) returns (ret: Status)
      requires Valid() && !locked && IsFile(f) && off + len < TWO64 / 2
      modifies this`tick, this`store, this`trace, this`leaked, this`chains, bitmap, bft
      ensures Shape() && old(tick) <= tick && (ret == Done || ret == LastAccess(tick) || ret == Failed(ENOSPC))
      ensures off + len <= |old(FileBytes(f))| ==>
        ret == Done && Valid() && store == old(store) && bft[..] == old(bft[..]) && chains == old(chains)
      ensures ret == Done && off + len > |old(FileBytes(f))| ==>
        && Updated(old(store), store, old(Table()), Table(), old(chains), chains, f, off + len,
            Resize(old(FileBytes(f)), off + len), false)
        && Committing(old(Table()), Table(), f, off + len, false) && (Valid() <==> off + len < TWO32)
      ensures ret == Done ==> leaked == old(leaked)
      ensures ret != Done ==>
        Valid() && bft[..] == old(bft[..]) && chains == old(chains) && FilesSame(old(store), store, chains)
      ensures Quiet(old(tick), tick) ==> ret == Done || ret == Failed(ENOSPC)
      ensures ret == Failed(ENOSPC) <==>
          Quiet(old(tick), tick) &&
          Short(old(Marks(bitmap[..], clusterCount)), clusterCount, |old(FileBytes(f))|, off + len)
      ensures Valid() <==> InOrder()
    {
      hide FilesOk, Disjoint, MarksOk, IsDirectory, StoreOk, TableOf, Updated, FilesSame, Marks, Contents, ChainOk,
        ChainLen, Resize, Explained, Recorded, Committing;
      FileFacts(store, Table(), chains, f);
      var requestedSize := off + len;
      var meta := GetSizeAndInitialCluster(f);
      if requestedSize > meta.value.0 {
        ret := GrowFile(f, requestedSize, false);
        return;
      }
      ValidIsInOrder();
      return Done;
    }

    // ---------- the directory ----------

    /** The cluster of a new file: allocated, written, and freed again if the write fails, which is not reported. */
    method NewFileCluster() returns (ret: Result<nat>, ghost block: seq<byte>)
      requires Shape()
      modifies this`tick, this`store, this`trace, bitmap
      ensures Shape() && old(tick) <= tick
      ensures ret.Err? <==> AllTaken(old(Marks(bitmap[..], clusterCount)), clusterCount)
      ensures ret.Err? ==> ret == Err(ENOSPC) && store == old(store) && bitmap[..] == old(bitmap[..])
      ensures ret.Err? ==> trace == old(trace)
      ensures ret.Ok? ==> ret.value < clusterCount && ret.value !in old(Marks(bitmap[..], clusterCount))
      ensures ret.Ok? ==> AllTaken(old(Marks(bitmap[..], clusterCount)), ret.value)
      ensures ret.Ok? ==>
          |block| == CLUSTER_SIZE && block[..CLUSTER_DATA_SIZE] == Zeros(CLUSTER_DATA_SIZE) &&
          FsNextCluster(block) == CLUSTER_OFFSET_EOF
      ensures ret.Ok? ==> store == if faults(old(tick)) then old(store) else old(store)[ret.value := block]
      ensures ret.Ok? ==>
          Marks(bitmap[..], clusterCount) ==
          old(Marks(bitmap[..], clusterCount)) + (if faults(old(tick)) then {} else {ret.value})
    {
      hide Marks, BitChanged, FsNextCluster, Zeros, StoreOk, Recorded;
      ghost var b0 := bitmap[..];
      block := [];
      var c := FsAllocCluster(bitmap, clusterCount);
      FirstClear(b0, clusterCount, if c.Ok? then c.value else clusterCount);
      if c.Err? {
        return Err(ENOSPC), block;
      }
      var clusterData := new byte[CLUSTER_SIZE](_ => ZERO_BYTE);
      AllZero(clusterData[..CLUSTER_DATA_SIZE]);
      FsSetNextCluster(clusterData, CLUSTER_OFFSET_EOF);
      block := clusterData[..];
      ghost var b1 := bitmap[..];
      MarksAfter(b0, b1, c.value, true, clusterCount);
      var status := WriteCluster(clusterData, c.value);
      if status != Done {
        var _ := FsDeallocCluster(bitmap, clusterCount, c.value);
        MarksAfter(b1, bitmap[..], c.value, false, clusterCount);
      }
      return Ok(c.value), block;
    }

    /** The entry of a new file; without it the cluster is given back. */
    method RecordFile(name: Name, mode: nat, initialCluster: nat, offset: nat) returns (ret: Status)
      requires Shape() && name != [] && mode < TWO32 && initialCluster < clusterCount && offset < BFT_MAX_ENTRIES
      modifies bitmap, bft
      ensures ret == if |name| >= BFT_MAX_FILENAME then Failed(ENAMETOOLONG) else Done
      ensures ret == Done ==>
          Table() == old(Table())[offset := Used(Entry(name, initialCluster, 0, mode, 0, 0))] &&
          bitmap[..] == old(bitmap[..])
      ensures ret != Done ==> bft[..] == old(bft[..])
      ensures ret != Done ==> Marks(bitmap[..], clusterCount) == old(Marks(bitmap[..], clusterCount)) - {initialCluster}
    {
      hide Marks, BitChanged, TableOf, Encode, Splice, Recorded;
      ret := BftWriteTableEntry(bft, Entry(name, initialCluster, 0, mode, 0, 0), offset);
      if ret != Done {
        ghost var b := bitmap[..];
        var _ := FsDeallocCluster(bitmap, clusterCount, initialCluster);
        MarksAfter(b, bitmap[..], initialCluster, false, clusterCount);
      }
    }

    /**
     * `bsfs_mknod` on any table, with slots that cannot be read or names that are not distinct. It takes every
     * failed lookup for an absent name, also one that failed at an unreadable slot: exactly when the name stands
     * in some slot then, it ends up in two. `made` tells whether the call came to the cluster of the new file.
     */
    method DoMknod(name: Name, mode: nat)
      returns (ret: Status, ghost slot: nat, ghost c: nat, ghost block: seq<byte>, ghost made: bool)
      requires Shape() && !locked && name != [] && mode < TWO32
      modifies this`tick, this`store, this`trace, bitmap, bft
      ensures Shape() && old(tick) <= tick
      ensures ret == Failed(ENOTSUP) <==> !IsRegular(mode)
      ensures IsRegular(mode) ==> (ret == Failed(EEXIST) <==> Lookup(old(Table()), name).Ok?)
      ensures IsRegular(mode) && Lookup(old(Table()), name).Err? ==>
        (ret == Failed(ENOSPC) <==>
          Free !in old(Table()) || AllTaken(old(Marks(bitmap[..], clusterCount)), clusterCount))
      ensures ret != Done ==> ret.errno in {ENOTSUP, EEXIST, ENOSPC, ENAMETOOLONG}
      ensures ret in {Done, Failed(ENAMETOOLONG)} <==> made
      ensures made ==> (ret == Done <==> |name| < BFT_MAX_FILENAME)
      ensures !made ==> store == old(store) && trace == old(trace)
      ensures ret != Done ==>
        bft[..] == old(bft[..]) && Marks(bitmap[..], clusterCount) == old(Marks(bitmap[..], clusterCount))
      ensures made ==>
        slot < BFT_MAX_ENTRIES && old(Table())[slot] == Free && forall i :: 0 <= i < slot ==> old(Table())[i] != Free
      ensures made ==>
        c < clusterCount && c !in old(Marks(bitmap[..], clusterCount)) &&
        AllTaken(old(Marks(bitmap[..], clusterCount)), c)
      ensures made ==>
        |block| == CLUSTER_SIZE && block[..CLUSTER_DATA_SIZE] == Zeros(CLUSTER_DATA_SIZE) &&
        FsNextCluster(block) == CLUSTER_OFFSET_EOF
      ensures made ==> store == if faults(old(tick)) then old(store) else old(store)[c := block]
      ensures ret == Done ==> Table() == old(Table())[slot := Used(Entry(name, c, 0, mode, 0, 0))]
      ensures ret == Done ==>
        Marks(bitmap[..], clusterCount) ==
        old(Marks(bitmap[..], clusterCount)) + (if faults(old(tick)) then {} else {c})
      ensures ret == Done ==>
        (NamesDistinct(Table()) <==> NamesDistinct(old(Table())) && forall j :: !Named(old(Table()), j, name))
    {
      hide FilesOk, Disjoint, MarksOk, TableOf, Marks, FsNextCluster, Zeros, Encode, Splice, Lookup, StoreOk, AllTaken,
        BitChanged, NamesDistinct, Named, Recorded;
      slot, c, block, made := 0, 0, [], false;
      if !IsRegular(mode) {
        return Failed(ENOTSUP), slot, c, block, made;
      }
      ghost var t, b0 := Table(), bitmap[..];
      var existing := BftFindTableEntry(bft, name);
      if existing.Ok? {
        return Failed(EEXIST), slot, c, block, made;
      }
      var offset := BftFindFreeTableEntry(bft);
      if offset.Err? {
        return Failed(ENOSPC), slot, c, block, made;
      }
      assert t[offset.value] in t;
      var initialCluster: Result<nat>;
      initialCluster, block := NewFileCluster();
      if initialCluster.Err? {
        return Failed(ENOSPC), slot, c, block, made;
      }
      slot, c, made := offset.value, initialCluster.value, true;
      EntryAdded(t, slot, Entry(name, c, 0, mode, 0, 0));
      ret := RecordFile(name, mode, initialCluster.value, offset.value);
    }

    /**
     * `bsfs_mknod`: a new empty file in the lowest free slot, with the lowest free cluster. A failed write of
     * that cluster goes unnoticed, and exactly then the level is no longer in order: the file owns a cluster that
     * is not marked.
     */
    method Mknod(name: Name, mode: nat) returns (ret: Status, ghost slot: nat, ghost c: nat)
      requires Valid() && !locked && name != [] && mode < TWO32
      modifies this`tick, this`store, this`trace, this`chains, bitmap, bft
      ensures Shape() && old(tick) <= tick
      ensures ret == Failed(ENOTSUP) <==> !IsRegular(mode)
      ensures IsRegular(mode) ==> (ret == Failed(EEXIST) <==> name in Dir(old(Table())))
      ensures IsRegular(mode) && name !in Dir(old(Table())) ==>
        (ret == Failed(ENOSPC) <==>
          Free !in old(Table()) || AllTaken(old(Marks(bitmap[..], clusterCount)), clusterCount))
      ensures ret == Failed(ENAMETOOLONG) ==> |name| >= BFT_MAX_FILENAME
      ensures ret == Done ==> |name| < BFT_MAX_FILENAME
      ensures ret != Done ==> ret.errno in {ENOTSUP, EEXIST, ENOSPC, ENAMETOOLONG}
      ensures ret != Done ==>
        Valid() && bft[..] == old(bft[..]) && chains == old(chains) && FilesSame(old(store), store, chains)
      ensures ret != Done ==> Marks(bitmap[..], clusterCount) == old(Marks(bitmap[..], clusterCount))
      ensures ret == Done ==>
        slot < BFT_MAX_ENTRIES && old(Table())[slot] == Free && forall i :: 0 <= i < slot ==> old(Table())[i] != Free
      ensures ret == Done ==>
        c < clusterCount && c !in old(Marks(bitmap[..], clusterCount)) &&
        AllTaken(old(Marks(bitmap[..], clusterCount)), c)
      ensures ret == Done ==>
        Table() == old(Table())[slot := Used(Entry(name, c, 0, mode, 0, 0))] && chains == old(chains)[slot := [c]]
      ensures ret == Done ==> IsDirectory(Table()) && Dir(Table()) == Dir(old(Table()))[name := slot]
      ensures ret == Done ==> FilesSame(old(store), store, old(chains)) && Disjoint(chains)
      ensures ret == Done ==> (Valid() <==> !faults(old(tick)))
      ensures Valid() <==> InOrder()
    {
      hide FilesOk, Disjoint, MarksOk, IsDirectory, TableOf, Marks, Dir, FsNextCluster, FilesSame, OwnedSet, Zeros,
        Lookup, StoreOk, AllTaken, Explained, NamesDistinct, Named, Recorded;
      ghost var s0, t, b0 := store, Table(), bitmap[..];
      FilesSameRefl(store, trace, chains);
      FewClusters(store);
      LookupIsDir(t, name);
      ghost var block, made;
      ret, slot, c, block, made := DoMknod(name, mode);
      ghost var ent, written := Entry(name, c, 0, mode, 0, 0), !faults(old(tick));
      if made {
        FileMade(s0, block, t, chains, b0, leaked, clusterCount, slot, ent, written);
      }
      if ret != Done {
        SameMarks(b0, bitmap[..], chains, leaked, clusterCount);
        ValidIsInOrder();
        return;
      }
      MadeMarks(b0, bitmap[..], chains, chains[slot := [c]], leaked, clusterCount, c, written);
      chains := chains[slot := [c]];
      if written {
        ValidIsInOrder();
      } else {
        FirstUnmarked(store, Table(), bitmap[..], clusterCount, slot);
      }
    }

    /** `do_unlink_metadata`: erases the slot of a file that is not open and remembers its first cluster. */
    method DoUnlinkMetadata(index: nat) returns (ret: Result<nat>)
      requires bft.Length == BFT_SIZE && IsFile(index)
      modifies bft
      ensures ret == if index in openFiles then Err(EBUSY) else Ok(old(Table())[index].ent.initialCluster)
      ensures ret.Err? ==> bft[..] == old(bft[..])
      ensures ret.Ok? ==>
        Table() == old(Table())[index := Free] && Decode(Raw(bft[..], index)) == Ok(Entry([], 0, 0, 0, 0, 0))
    {
      hide TableOf, Raw, Decode, SlotOf, Splice, Recorded;
      if index in openFiles {
        return Err(EBUSY);
      }
      var ent := ReadUsed(index);
      ghost var b := bft[..];
      var _ := BftRemoveTableEntry(bft, index);
      SlotReplaced(b, index, seq<byte>(BFT_ENTRY_SIZE, _ => ZERO_BYTE));
      DecodeOfErased();
      return Ok(ent.initialCluster);
    }

    /**
     * The file in slot `f`, already gone from the table, gives its clusters back, or leaks them when they
     * cannot be read.
     */
    method FreeRemoved(initialCluster: nat, ghost t: seq<Slot>, ghost f: nat) returns (ret: Status)
      requires Shape() && FilesOk(store, t, chains) && Disjoint(chains)
      requires MarksOk(bitmap[..], chains, leaked, clusterCount)
      requires f < |t| && t[f].Used? && initialCluster == t[f].ent.initialCluster
      modifies this`tick, this`chains, this`leaked, bitmap
      ensures old(tick) <= tick
      ensures ret == if Quiet(old(tick), old(tick) + ChainLenAt(old(chains), f)) then Done else LastAccess(tick)
      ensures ret == Done <==> Quiet(old(tick), old(tick) + ChainLenAt(old(chains), f))
      ensures ret == Done || ret.errno in {EINVAL, EIO, ENOMEM}
      ensures FilesOk(store, t[f := Free], chains) && Disjoint(chains)
      ensures MarksOk(bitmap[..], chains, leaked, clusterCount)
      ensures GivenBack(old(chains), chains, old(leaked), leaked, old(Marks(bitmap[..], clusterCount)),
          Marks(bitmap[..], clusterCount), f, ret == Done)
    {
      hide FilesOk, Disjoint, MarksOk, StoreOk, ChainOk, Marks, Elems, OwnedSet, Recorded;
      FileFacts(store, t, chains, f);
      FileRemoved(store, t, chains, f);
      ghost var b, chain := bitmap[..], chains[f];
      assert chain[0..] == chain;
      ret := DeallocClusterChain(initialCluster, chain, 0);
      MarksRemoved(b, bitmap[..], chains, leaked, clusterCount, f, ret == Done);
      if ret != Done {
        leaked := leaked + Elems(chain);
      }
      chains := chains[f := []];
    }

    /**
     * `bsfs_unlink`: the name loses its binding and the file its clusters. An open file is refused, and that
     * refusal leaves the metadata lock held. A chain that cannot be read leaks as a whole.
     */
    method Unlink(name: Name) returns (ret: Status)
      requires Valid() && !locked
      modifies this`tick, this`chains, this`leaked, this`locked, bitmap, bft
      ensures Valid() && old(tick) <= tick
      ensures locked <==> ret == Failed(EBUSY)
      ensures ret == Failed(ENOENT) <==> name !in Dir(old(Table()))
      ensures name in Dir(old(Table())) ==> (ret == Failed(EBUSY) <==> Dir(old(Table()))[name] in openFiles)
      ensures name in Dir(old(Table())) && Dir(old(Table()))[name] !in openFiles ==> var f := Dir(old(Table()))[name];
        && f < |old(chains)| && (ret == Done <==> Quiet(old(tick), old(tick) + |old(chains)[f]|))
        && (ret == Done || ret == LastAccess(tick))
        && (ret == Done ==> leaked == old(leaked))
        && (ret == Done ==>
              Marks(bitmap[..], clusterCount) == old(Marks(bitmap[..], clusterCount)) - Elems(old(chains)[f]))
        && Unbound(old(Table()), Table(), name) && Dir(Table()) == Dir(old(Table())) - {name}
        && GivenBack(old(chains), chains, old(leaked), leaked, old(Marks(bitmap[..], clusterCount)),
             Marks(bitmap[..], clusterCount), f, ret == Done)
      ensures name !in Dir(old(Table())) || Dir(old(Table()))[name] in openFiles ==>
        bft[..] == old(bft[..]) && bitmap[..] == old(bitmap[..]) && chains == old(chains) && leaked == old(leaked)
    {
      hide FilesOk, Disjoint, MarksOk, IsDirectory, TableOf, Marks, Dir, Elems, Lookup, StoreOk, Raw, Decode,
        Recorded;
      ghost var t := Table();
      LookupIsDir(t, name);
      var index := BftFindTableEntry(bft, name);
      if index.Err? {
        return Failed(index.errno);
      }
      locked := true;
      var initialCluster := DoUnlinkMetadata(index.value);
      if initialCluster.Err? {
        return Failed(initialCluster.errno);
      }
      locked := false;
      DirRemoved(t, index.value);
      ret := FreeRemoved(initialCluster.value, t, index.value);
    }

    /** `do_exchange`: the two entries trade names. */
    method DoExchange(src: nat, dest: nat) returns (ret: Status)
      requires bft.Length == BFT_SIZE && IsFile(src) && IsFile(dest)
      modifies bft
      ensures ret == Done
      ensures var a, b := old(Table())[src].ent, old(Table())[dest].ent;
        Table() == old(Table())[src := Used(a.(name := b.name))][dest := Used(b.(name := a.name))]
    {
      hide TableOf, Raw, Decode, SlotOf, Splice, Encode, Recorded;
      ghost var t := Table();
      var srcEntry := ReadUsed(src);
      var destEntry := ReadUsed(dest);
      var temp := srcEntry.name;
      srcEntry := srcEntry.(name := destEntry.name);
      destEntry := destEntry.(name := temp);
      ret := BftWriteTableEntry(bft, srcEntry, src);
      if ret == Done {
        ret := BftWriteTableEntry(bft, destEntry, dest);
      }
    }

    /** `bft_read_table_entry` on a slot in use. */
    method ReadUsed(index: nat) returns (ent: Entry)
      requires bft.Length == BFT_SIZE && IsFile(index)
      ensures ent == Table()[index].ent && ent.Storable() && ent.name != [] && ent.Truncated() == ent
    {
      hide TableOf, Raw, Decode, SlotOf, Recorded;
      UsedSlot(bft[..], index);
      var read := BftReadTableEntry(bft, index);
      if read.Err? {
        assert false;
      }
      ent := read.value;
    }

    /** `do_rename`: rewrites the entry, whatever it reads as, under the new name. */
    method DoRename(index: nat, newName: Name) returns (ret: Status)
      requires bft.Length == BFT_SIZE && index < BFT_MAX_ENTRIES && newName != [] && Decode(Raw(bft[..], index)).Ok?
      modifies bft
      ensures ret == if |newName| >= BFT_MAX_FILENAME then Failed(ENAMETOOLONG) else Done
      ensures ret != Done ==> bft[..] == old(bft[..])
      ensures ret == Done ==>
        Table() == old(Table())[index := Used(Decode(Raw(old(bft[..]), index)).value.(name := newName))]
    {
      hide TableOf, Raw, Decode, SlotOf, Splice, Encode, Recorded;
      DecodedFits(Raw(bft[..], index));
      var ent := BftReadTableEntry(bft, index);
      if ent.Err? {
        assert false;
      }
      ret := BftWriteTableEntry(bft, ent.value.(name := newName), index);
    }

    /** Renaming over an existing file: the victim's slot is erased, the entry moved, and the clusters given back. */
    method Replace(oldIndex: nat, newIndex: nat, oldName: Name, newName: Name) returns (ret: Status)
      requires Valid() && newName != [] && oldName in Dir(Table()) && newName in Dir(Table())
      requires oldIndex == Dir(Table())[oldName] && newIndex == Dir(Table())[newName]
      modifies this`tick, this`chains, this`leaked, bitmap, bft
      ensures old(tick) <= tick && Shape()
      ensures ret == if newIndex in openFiles then Failed(EBUSY)
          else if Quiet(old(tick), old(tick) + ChainLenAt(old(chains), newIndex)) then Done else LastAccess(tick)
      ensures ret == Done ==> Quiet(old(tick), old(tick) + ChainLenAt(old(chains), newIndex))
      ensures ret == Failed(EBUSY) <==> newIndex in openFiles
      ensures ret == Failed(EBUSY) ==>
          Valid() && bft[..] == old(bft[..]) && bitmap[..] == old(bitmap[..]) &&
          chains == old(chains) && leaked == old(leaked)
      ensures ret != Failed(EBUSY) ==>
        GivenBack(old(chains), chains, old(leaked), leaked, old(Marks(bitmap[..], clusterCount)),
            Marks(bitmap[..], clusterCount), newIndex, ret == Done)
      ensures ret != Failed(EBUSY) && oldName != newName ==>
        Valid() && Replaced(old(Table()), Table(), oldName, newName)
      ensures ret != Failed(EBUSY) && oldName == newName ==> SelfRenamed(old(Table()), Table(), newName)
      ensures InOrder() <==> ret == Failed(EBUSY) || oldName != newName || ZeroIsSpare(store, leaked)
    {
      hide FilesOk, Disjoint, MarksOk, IsDirectory, TableOf, Marks, Dir, Elems, StoreOk, Raw, Decode, SlotOf, Replaced,
        Explained, ZeroIsSpare, Recorded;
      ghost var t, b := Table(), bft[..];
      LookupIsDir(t, oldName);
      LookupIsDir(t, newName);
      UsedSlot(b, oldIndex);
      UsedSlot(b, newIndex);
      var newInitialCluster := DoUnlinkMetadata(newIndex);
      if newInitialCluster.Err? {
        ValidIsInOrder();
        return Failed(EBUSY);
      }
      if oldIndex != newIndex {
        UsedSlot(bft[..], oldIndex);
      }
      ret := DoRename(oldIndex, newName);
      ret := FreeRemoved(newInitialCluster.value, t, newIndex);
      if oldIndex != newIndex {
        ReplaceIsFine(store, t, chains, oldName, newName);
        ValidIsInOrder();
      } else {
        SelfRenameKeepsNames(t, newIndex);
        RecreatedExactly(store, t, bitmap[..], clusterCount, newIndex, newName, chains, leaked);
      }
    }

    /**
     * `bsfs_rename` with flags 0 (replace), 1 (do not replace) or 2 (exchange). One binding moves, or two trade
     * places; a file that is replaced loses its clusters as by unlinking. Replacing a file by itself is the
     * exception: its entry is erased and written again with nothing but the name, so it then claims cluster 0 with
     * size and mode 0, and its old clusters are freed or leak. No choice of chains explains the level then, unless
     * cluster 0 has leaked, before or in this very call, and links to nothing.
     */
    method Rename(oldName: Name, newName: Name, flags: nat) returns (ret: Status)
      requires Valid() && !locked && newName != []
      modifies this`tick, this`chains, this`leaked, bitmap, bft
      ensures old(tick) <= tick && Shape()
      ensures flags > 2 ==> ret == Failed(EINVAL)
      ensures ret == Failed(ENOENT) <==> var d := Dir(old(Table()));
        flags <= 2 && (oldName !in d || (flags == 2 && newName !in d))
      ensures ret == Failed(EEXIST) <==> var d := Dir(old(Table())); flags == 1 && oldName in d && newName in d
      ensures ret == Failed(ENAMETOOLONG) <==> var d := Dir(old(Table()));
        flags <= 1 && oldName in d && newName !in d && |newName| >= BFT_MAX_FILENAME
      ensures ret == Failed(EBUSY) <==> var d := Dir(old(Table()));
        flags == 0 && oldName in d && newName in d && d[newName] in openFiles
      ensures var d := Dir(old(Table()));
        flags <= 1 && oldName in d && newName !in d && |newName| < BFT_MAX_FILENAME ==>
          && ret == Done && Moved(old(Table()), Table(), oldName, newName)
          && Dir(Table()) == (d - {oldName})[newName := d[oldName]]
      ensures var d := Dir(old(Table()));
        flags == 2 && oldName in d && newName in d ==>
          && ret == Done && Exchanged(old(Table()), Table(), oldName, newName)
          && Dir(Table()) == d[oldName := d[newName]][newName := d[oldName]]
      ensures var d := Dir(old(Table()));
        flags == 0 && oldName in d && newName in d && d[newName] !in openFiles ==>
          && d[newName] < |old(chains)| && (ret == Done || ret == LastAccess(tick))
          && (ret == Done <==> Quiet(old(tick), old(tick) + |old(chains)[d[newName]]|))
          && GivenBack(old(chains), chains, old(leaked), leaked, old(Marks(bitmap[..], clusterCount)),
               Marks(bitmap[..], clusterCount), d[newName], ret == Done)
          && if oldName == newName then SelfRenamed(old(Table()), Table(), newName)
             else Replaced(old(Table()), Table(), oldName, newName)
                  && Dir(Table()) == (d - {oldName})[newName := d[oldName]]
      ensures var d := Dir(old(Table()));
        !(flags == 0 && oldName in d && newName in d && d[newName] !in openFiles) ==>
          Valid() && bitmap[..] == old(bitmap[..]) && chains == old(chains) && leaked == old(leaked)
      ensures ret != Done && !(flags == 0 && oldName in Dir(old(Table())) && newName in Dir(old(Table()))) ==>
        bft[..] == old(bft[..])
      ensures ret == Failed(EBUSY) ==> bft[..] == old(bft[..])
      ensures oldName != newName ==> Valid()
      ensures InOrder() <==> var d := Dir(old(Table()));
        (flags == 0 && oldName == newName && oldName in d && d[oldName] !in openFiles ==> ZeroIsSpare(store, leaked))
    {
      hide FilesOk, Disjoint, MarksOk, IsDirectory, TableOf, Marks, Dir, Lookup, StoreOk, Raw, Decode, SlotOf,
        SelfRenamed, Elems, Explained, ZeroIsSpare, Recorded;
      ValidIsInOrder();
      if flags != 0 && flags != 1 && flags != 2 {
        return Failed(EINVAL);
      }
      ghost var t := Table();
      LookupIsDir(t, oldName);
      LookupIsDir(t, newName);
      var oldIndex := BftFindTableEntry(bft, oldName);
      if oldIndex.Err? {
        return Failed(oldIndex.errno);
      }
      var newIndex := BftFindTableEntry(bft, newName);
      if newIndex.Err? && newIndex.errno != ENOENT {
        return StatusOf(newIndex);
      }
      var newExists := newIndex.Ok?;
      if flags == 2 {
        if !newExists {
          return Failed(ENOENT);
        }
        ExchangeIsFine(store, t, chains, oldName, newName);
        ret := DoExchange(oldIndex.value, newIndex.value);
        ValidIsInOrder();
        return;
      }
      if newExists {
        if flags == 1 {
          return Failed(EEXIST);
        }
        ret := Replace(oldIndex.value, newIndex.value, oldName, newName);
        return;
      }
      UsedSlot(bft[..], oldIndex.value);
      MoveIsFine(store, t, chains, oldName, newName);
      ret := DoRename(oldIndex.value, newName);
      ValidIsInOrder();
    }
  }

  /** Newly taken clusters are neither owned nor leaked. */
  lemma TakenApart(bm: seq<byte>, marks: set<nat>, chains: seq<seq<nat>>, leaked: set<nat>, n: nat, more: seq<nat>)
    requires MarksOk(bm, chains, leaked, n) && Elems(more) !! Marks(bm, n) && marks == Marks(bm, n) + Elems(more)
    ensures marks == OwnedSet(chains) + leaked + Elems(more) && leaked !! OwnedSet(chains)
    ensures Elems(more) !! OwnedSet(chains) + leaked
  {
    hide Marks, OwnedSet, Elems;
    MarksMean(bm, chains, leaked, n);
  }

  lemma SelfRenameKeepsNames(t: seq<Slot>, i: nat)
    requires IsDirectory(t) && i < |t| && t[i].Used?
    ensures IsDirectory(t[i := Used(Entry(t[i].ent.name, 0, 0, 0, 0, 0))])
  {}

  lemma FewClusters(s: Store)
    requires StoreOk(s)
    ensures |s| <= CLUSTER_OFFSET_EOF
  {}

  /** `S_ISREG`. */
  predicate IsRegular(mode: nat) {
    mode / 4096 % 16 == 8
  }

  lemma OneDigit(n: nat, m: nat, rest: nat)
    requires m > 0 && rest < m
    ensures n % (2 * m) == 2 * rest + 1 <==> Digit(n, 0) && n / 2 % m == rest
    ensures n % (2 * m) == 2 * rest <==> !Digit(n, 0) && n / 2 % m == rest
  {
    HalveMod(n, m);
  }

  lemma DigitAbove(n: nat, k: nat)
    ensures Digit(n, k + 1) == Digit(n / 2, k)
  {}

  lemma LowFourDigits(n: nat)
    ensures n % 16 == 8 <==> Digit(n, 3) && !Digit(n, 2) && !Digit(n, 1) && !Digit(n, 0)
  {
    hide Digit;
    var a := n / 2;
    var b := a / 2;
    OneDigit(n, 8, 4);
    OneDigit(a, 4, 2);
    OneDigit(b, 2, 1);
    OneDigit(b / 2, 1, 0);
    DigitAbove(n, 0);
    DigitAbove(n, 1);
    DigitAbove(n, 2);
    DigitAbove(a, 0);
    DigitAbove(a, 1);
    DigitAbove(b, 0);
  }

  /** The type in bits 12 to 15 of a mode is that of a regular file; the other bits do not matter. */
  lemma RegularBits(mode: nat)
    ensures IsRegular(mode) <==> Digit(mode, 15) && !Digit(mode, 14) && !Digit(mode, 13) && !Digit(mode, 12)
  {
    hide Digit, Pow2;
    var hi, lo := mode / 4096, mode % 4096;
    Pow2Of10();
    DigitOfParts(hi, lo, 12, 12);
    DigitOfParts(hi, lo, 12, 13);
    DigitOfParts(hi, lo, 12, 14);
    DigitOfParts(hi, lo, 12, 15);
    LowFourDigits(hi);
  }

  /** No cluster below `n` is free. */
  ghost predicate AllTaken(marks: set<nat>, n: nat) {
    forall k: nat :: k < n ==> k in marks
  }

  lemma FirstClear(bm: seq<byte>, n: nat, c: nat)
    requires c <= n && (c < n ==> !BitAt(bm, c)) && forall k :: 0 <= k < c ==> BitAt(bm, k)
    ensures AllTaken(Marks(bm, n), c) && (c < n ==> c !in Marks(bm, n))
  {}

  lemma AllZero(z: seq<byte>)
    requires forall k :: 0 <= k < |z| ==> z[k] == ZERO_BYTE
    ensures z == Zeros(|z|)
  {}

  lemma MadeMarks(bm: seq<byte>, bm': seq<byte>, chains: seq<seq<nat>>, chains': seq<seq<nat>>, leaked: set<nat>,
                  n: nat, c: nat, written: bool)
    requires MarksOk(bm, chains, leaked, n) && |bm'| == |bm| && c !in leaked && c !in Marks(bm, n)
    requires OwnedSet(chains') == OwnedSet(chains) + {c}
    requires Marks(bm', n) == Marks(bm, n) + (if written then {c} else {})
    ensures MarksOk(bm', chains', leaked, n) <==> written
  {
    hide Marks, OwnedSet;
    assert c in OwnedSet(chains');
    if !written {
      assert c !in Marks(bm', n);
    }
  }

  lemma SameMarks(bm: seq<byte>, bm': seq<byte>, chains: seq<seq<nat>>, leaked: set<nat>, n: nat)
    requires MarksOk(bm, chains, leaked, n) && |bm'| == |bm| && Marks(bm', n) == Marks(bm, n)
    ensures MarksOk(bm', chains, leaked, n)
  {}

  /** What a cut that fails has freed. */
  ghost function GivenUp(freed: bool, chain: seq<nat>, k: nat): (r: set<nat>)
    requires k <= |chain|
    ensures !freed ==> r == {}
  {
    if freed then Elems(chain[k..]) else {}
  }

  lemma CutFailed(s: Store, t: seq<Slot>, bm: seq<byte>, bm': seq<byte>, chains: seq<seq<nat>>, leaked: set<nat>,
                  n: nat, f: nat, k: nat, freed: bool)
    requires Explains(s, t, bm, n, chains, leaked) && |bm'| == |bm| && f < |chains| && k <= |chains[f]|
    requires Marks(bm', n) == Marks(bm, n) - GivenUp(freed, chains[f], k)
    ensures MarksOk(bm', chains, leaked, n) <==> GivenUp(freed, chains[f], k) == {}
    ensures Explained(s, t, bm', n) <==> GivenUp(freed, chains[f], k) == {}
  {
    hide Marks, MarksOk, FilesOk, Disjoint, IsDirectory, Explained;
    forall c | c in GivenUp(freed, chains[f], k) ensures c in OwnedSet(chains) {
      OwnedHas(chains, f, c);
    }
    FreedButLinked(s, t, bm, bm', n, chains, leaked, GivenUp(freed, chains[f], k));
  }

  lemma NothingAfter(chain: seq<nat>)
    ensures Elems(chain[|chain|..]) == {}
  {}

  lemma CutContents(c: seq<byte>, newSize: nat)
    requires newSize <= |c|
    ensures c[..newSize] == Resize(c, newSize)
  {}

  /** A new level, table and bitmap all zero, is in order and has no files. */
  lemma ZeroLevel(store: Store, m: nat)
    requires StoreOk(store) && |store| <= 8 * m
    ensures var table, bits := seq<byte>(BFT_SIZE, _ => ZERO_BYTE), seq<byte>(m, _ => ZERO_BYTE);
      var chains := seq<seq<nat>>(BFT_MAX_ENTRIES, _ => []);
      && IsDirectory(TableOf(table)) && Dir(TableOf(table)) == map[]
      && FilesOk(store, TableOf(table), chains) && Disjoint(chains) && MarksOk(bits, chains, {}, |store|)
  {
    var table, bits := seq<byte>(BFT_SIZE, _ => ZERO_BYTE), seq<byte>(m, _ => ZERO_BYTE);
    forall i | 0 <= i < BFT_MAX_ENTRIES ensures TableOf(table)[i] == Free {
      assert Raw(table, i)[0] == table[i * BFT_ENTRY_SIZE];
    }
    forall c: nat | c < |store| ensures !BitAt(bits, c) {}
    assert Marks(bits, |store|) == {};
  }

  lemma ShortMeans(marks: set<nat>, n: nat, size: nat, ext: nat)
    requires ext >= 1 && size + ext < TWO64 / 2
    ensures Short(marks, n, size, size + ext) <==> |marks| + NewClusterCount(size, ext) > n
  {
    hide NewClusterCount;
    ExtendCount(size, ext);
  }

  lemma GrownContents(c: seq<byte>, newSize: nat)
    requires |c| < newSize
    ensures c + Stream(newSize - |c|, []) == Resize(c, newSize)
  {}

  /** A smaller file needs no more clusters; the source's test for fewer also covers the empty file, which keeps one. */
  lemma ShorterChain(newSize: nat, size: nat)
    requires newSize < size < TWO64 / 2
    ensures ChainLen(newSize) <= ChainLen(size)
    ensures GetRequiredClusterCount(newSize) >= GetRequiredClusterCount(size) ==> ChainLen(newSize) == ChainLen(size)
  {}

  /** How much of a write falls inside a file of that size. */
  function Overlap(fileSize: nat, size: nat, off: nat): nat {
    Min(size, fileSize - Min(off, fileSize))
  }

  /** The contents after a write that stopped early; nothing at all has changed when not a single byte was written. */
  ghost function PartlyWritten(c: seq<byte>, off: nat, data: seq<byte>): seq<byte> {
    if data == [] then c else Overwrite(c, off, data)
  }

  lemma WriteStart(s: Store, t: seq<Slot>, chains: seq<seq<nat>>, f: nat, off: nat, b: seq<byte>)
    requires FilesOk(s, t, chains) && f < |t| && t[f].Used?
    ensures OthersSame(s, s, chains, chains, f)
    ensures forall c :: PartlyWritten(c, off, b[..0]) == c
  {}

  /** Writing the overlap and appending the rest, after the gap if there is one, is one write. */
  lemma WholeWrite(c: seq<byte>, off: nat, data: seq<byte>, n: nat, b: seq<byte>)
    requires n == Overlap(|c|, |data|, off) < |data| <= |b| && data == b[..|data|]
    ensures off + |data| > |c|
    ensures PartlyWritten(c, off, b[..n]) + Stream(if |c| > off then 0 else off - |c|, b[n..n + (|data| - n)]) ==
        Overwrite(c, off, data)
    ensures |c| + (if |c| > off then 0 else off - |c|) + (|data| - n) == off + |data| == Max(|c|, off + |data|)
  {
    hide Overwrite, Stream;
    OverwriteSplit(c, off, data);
    assert b[n..n + (|data| - n)] == data[n..] && b[..n] == data[..n];
  }

  /** A write that the file covers. */
  lemma InPlace(c: seq<byte>, off: nat, b: seq<byte>, size: nat)
    requires 0 < size <= |b| && size == Overlap(|c|, size, off)
    ensures PartlyWritten(c, off, b[..size]) == Overwrite(c, off, b[..size]) && Max(|c|, off + size) == |c|
  {}

  lemma PartialWrite(s: Store, s': Store, t: seq<Slot>, chains: seq<seq<nat>>, f: nat, at: nat, data: seq<byte>)
    requires FilesOk(s, t, chains) && f < |t| && t[f].Used? && at + |data| <= t[f].ent.size
    requires ChainPatched(s, s', chains[f], at, data)
    ensures var size := t[f].ent.size;
      Contents(s', chains[f], size) == PartlyWritten(Contents(s, chains[f], size), at, data)
  {
    hide ByteOf, ChainOk;
    FileFacts(s, t, chains, f);
    PatchIsOverwrite(s, s', chains[f], at, data, t[f].ent.size);
  }

  lemma LastIsEof(chain: seq<nat>, end: nat, c: nat, fileSize: nat)
    requires LastTouched(chain, end, c) && |chain| == ChainLen(fileSize) && end == fileSize
    ensures c == chain[|chain| - 1]
  {}

  lemma OverlapStart(s: Store, t: seq<Slot>, chains: seq<seq<nat>>, f: nat, off: nat, b: seq<byte>)
    requires FilesOk(s, t, chains) && f < |t| && t[f].Used? && off < t[f].ent.size
    ensures ChainPatched(s, s, chains[f], off, b[..0]) && OthersSame(s, s, chains, chains, f)
    ensures off / CLUSTER_DATA_SIZE < |chains[f]|
  {
    PatchNothing(s, chains[f], off);
  }

  lemma OverlapKeeps(s: Store, s': Store, t: seq<Slot>, chains: seq<seq<nat>>, f: nat, at: nat, data: seq<byte>)
    requires FilesOk(s, t, chains) && Disjoint(chains) && f < |t| && t[f].Used?
    requires ChainPatched(s, s', chains[f], at, data)
    ensures FilesOk(s', t, chains) && OthersSame(s, s', chains, chains, f)
  {
    PatchKeepsFiles(s, s', t, chains, f, at, data);
  }

  /** Everything that holds once the new size is in the table and the chain is the longer one. */
  lemma ExtendCommits(s: Store, s': Store, t: seq<Slot>, chains: seq<seq<nat>>, leaked: set<nat>, bm: seq<byte>, n: nat,
                      f: nat, more: seq<nat>, off: nat, data: seq<byte>, killPriv: bool)
    requires FilesOk(s, t, chains) && Disjoint(chains) && IsDirectory(t) && f < |t| && t[f].Used? && n <= 8 * |bm|
    requires ExtendDone(s, s', chains, leaked, Marks(bm, n), more, f, t[f].ent.size, Stream(off, data))
    ensures var newSize := t[f].ent.size + off + |data|;
      var t', chains' := t[f := Used(Committed(t[f].ent, newSize, killPriv))], chains[f := chains[f] + more];
      && Updated(s, s', t, t', chains, chains', f, newSize, Contents(s, chains[f], t[f].ent.size) + Stream(off, data),
          killPriv)
      && Disjoint(chains') && IsDirectory(t') && MarksOk(bm, chains', leaked, n)
      && (FilesOk(s', t', chains') <==> newSize < TWO32) && (Explained(s', t', bm, n) <==> newSize < TWO32)
  {
    hide FilesOk, Disjoint, IsDirectory, Updated, Extended, Marks, Stream, ChainLen, Contents, Explained, ChainOk;
    var newSize := t[f].ent.size + off + |data|;
    CommitExtension(s, s', t, chains, f, more, Stream(off, data), off, data, newSize, killPriv);
    DirectoryKept(t, f, Committed(t[f].ent, newSize, killPriv));
    OwnedGrows(chains, f, more);
    var t', chains' := t[f := Used(Committed(t[f].ent, newSize, killPriv))], chains[f := chains[f] + more];
    if newSize < TWO32 {
      ExplainedBy(s', t', bm, n, chains', leaked);
    } else {
      TruncatedSizeIsWrong(newSize);
      ExtendedSame(s, s', chains[f], more, t[f].ent.size, Stream(off, data));
      FileFacts(s, t, chains, f);
      WrongLength(s', t', bm, n, f, chains[f] + more);
    }
  }

  /** `adjust_size_and_off`: cuts a range to the file. */
  function AdjustSizeAndOff(fileSize: nat, size: nat, off: nat): (r: (nat, nat))
    ensures r.0 == Min(off, fileSize) && r.1 == Min(size, fileSize - r.0)
  {
    var o := if off > fileSize then fileSize else off;
    (o, if size > fileSize - o then fileSize - o else size)
  }

  lemma ReadSlice(s: Store, chain: seq<nat>, fileSize: nat, off: nat, size: nat, b: seq<byte>)
    requires off + size <= fileSize <= CLUSTER_DATA_SIZE * |chain|
    ensures ChainBytes(s, chain, off, size) == Contents(s, chain, fileSize)[off..off + size]
    ensures size == 0 ==> Splice(b, 0, Contents(s, chain, fileSize)[off..off + size]) == b
    ensures off == CLUSTER_DATA_SIZE * (off / CLUSTER_DATA_SIZE) + off % CLUSTER_DATA_SIZE
    ensures size > 0 ==> off / CLUSTER_DATA_SIZE < |chain|
  {
    hide ByteOf;
  }

  lemma UsedSlot(bft: seq<byte>, f: nat)
    requires |bft| == BFT_SIZE && f < BFT_MAX_ENTRIES && TableOf(bft)[f].Used?
    ensures Decode(Raw(bft, f)) == Ok(TableOf(bft)[f].ent)
    ensures TableOf(bft)[f].ent.Storable() && TableOf(bft)[f].ent.name != []
  {
    hide Decode, Raw;
    UsedIsStorable(Raw(bft, f));
  }

  lemma CommittedStored(e: Entry, newSize: nat, killPriv: bool)
    requires e.Storable()
    ensures (if killPriv then e.(mode := KillPriv(e.mode)) else e).(size := newSize).Truncated() ==
        Committed(e, newSize, killPriv)
  {}

  lemma LinkInRange0(s: Store, more: seq<nat>, indices: seq<nat>)
    requires StoreOk(s) && indices == more + [CLUSTER_OFFSET_EOF] && forall i :: 0 <= i < |more| ==> more[i] < |s|
    ensures indices[0] == (if more == [] then CLUSTER_OFFSET_EOF else more[0]) <= CLUSTER_OFFSET_EOF
  {}

  /** What a completed extension has established, before the new size is recorded. */
  ghost predicate ExtendDone(s: Store, s': Store, chains: seq<seq<nat>>, leaked: set<nat>, marks: set<nat>,
                             more: seq<nat>, f: nat, size: nat, stream: seq<byte>) {
    && f < |chains| && Extended(s, s', chains[f], more, size, stream)
    && |chains[f]| + |more| == ChainLen(size + |stream|)
    && Elems(more) !! OwnedSet(chains) + leaked && leaked !! OwnedSet(chains)
    && marks == OwnedSet(chains) + leaked + Elems(more)
  }

  lemma FileFacts(s: Store, t: seq<Slot>, chains: seq<seq<nat>>, f: nat)
    requires FilesOk(s, t, chains) && f < |t| && t[f].Used?
    ensures f < |chains| == |t| && ChainOk(s, chains[f]) && chains[f] != [] && chains[f][0] == t[f].ent.initialCluster
    ensures |chains[f]| == ChainLen(t[f].ent.size) && chains[f][|chains[f]| - 1] < |s|
    ensures t[f].ent.size <= CLUSTER_DATA_SIZE * |chains[f]| && NoDup(chains[f])
  {}

  /** The clusters an extension needs: each of them receives at least one byte, and all bytes have a place. */
  lemma ExtendFacts(size: nat, ext: nat)
    requires ext >= 1 && size + ext < TWO64 / 2
    ensures 0 <= GetLocalEofOff(size) <= CLUSTER_DATA_SIZE
    ensures NewClusterCount(size, ext) == ChainLen(size + ext) - ChainLen(size)
    ensures NewClusterCount(size, ext) > 0 ==>
      (CLUSTER_DATA_SIZE - GetLocalEofOff(size)) + CLUSTER_DATA_SIZE * (NewClusterCount(size, ext) - 1) < ext
  {
    hide NewClusterCount;
    ExtendCount(size, ext);
    EofOff(size);
    EofOff(size + ext);
  }

  lemma FilesSameRefl(s: Store, t: seq<Store>, chains: seq<seq<nat>>)
    ensures FilesSame(s, s, chains) && TraceSame(s, t, t, chains, |t|)
  {}

  lemma MarksMean(bm: seq<byte>, chains: seq<seq<nat>>, leaked: set<nat>, n: nat)
    requires MarksOk(bm, chains, leaked, n)
    ensures Marks(bm, n) == OwnedSet(chains) + leaked && leaked !! OwnedSet(chains)
  {}

  lemma HookedMeans(before: seq<byte>, c: seq<byte>, local: int, stream: seq<byte>, next: nat)
    requires 0 <= local && HookedUp(before, c, local, stream, next)
    ensures |c| == CLUSTER_SIZE && FsNextCluster(c) == next
  {}

  /** Every store recorded from `t0` on and before position `upto` shows the same files. */
  ghost predicate TraceSame(s: Store, t0: seq<Store>, t: seq<Store>, chains: seq<seq<nat>>, upto: int) {
    t0 <= t && upto <= |t| && forall k :: |t0| <= k < upto ==> FilesSame(s, t[k], chains)
  }

  lemma NewClustersKeep(s0: Store, s1: Store, t0: seq<Store>, t1: seq<Store>, t: seq<Slot>, chains: seq<seq<nat>>,
                        more: seq<nat>)
    requires FilesOk(s0, t, chains) && SameOutside(s0, s1, more) && TraceOutside(t0, t1, s0, more)
    requires Elems(more) !! OwnedSet(chains)
    ensures FilesOk(s1, t, chains) && FilesSame(s0, s1, chains)
    ensures TraceSame(s0, t0, t1, chains, |t1|)
    ensures forall x :: TraceSame(s0, t0, t1 + [x], chains, |t1|)
  {
    hide FilesOk, FilesSame, SameOutside, OwnedSet;
    UnownedWrites(s0, s1, t, chains, more);
    forall k | |t0| <= k < |t1| ensures FilesSame(s0, t1[k], chains) {
      UnownedWrites(s0, t1[k], t, chains, more);
    }
  }

  lemma ExtendFinish(s0: Store, s1: Store, c: seq<byte>, t: seq<Slot>, chains: seq<seq<nat>>, leaked: set<nat>,
                     marks: set<nat>, f: nat, more: seq<nat>, stream: seq<byte>, n: nat)
    requires FilesOk(s0, t, chains) && f < |t| && t[f].Used? && SameOutside(s0, s1, more) && NoDup(more)
    requires var chain, size := chains[f], t[f].ent.size;
      && chain != [] && chain[|chain| - 1] < |s1| && |s1| == |s0|
      && HookedUp(s1[chain[|chain| - 1]], c, GetLocalEofOff(size), stream,
                  if more == [] then CLUSTER_OFFSET_EOF else more[0])
      && StoreOk(s1) && |c| == CLUSTER_SIZE
      && NewWritten(s1, more, stream, CLUSTER_DATA_SIZE - GetLocalEofOff(size), |more|)
      && |chain| + |more| == ChainLen(size + |stream|)
    requires Elems(more) !! OwnedSet(chains) + leaked && leaked !! OwnedSet(chains)
    requires marks == OwnedSet(chains) + leaked + Elems(more)
    ensures ExtendDone(s0, s1[chains[f][|chains[f]| - 1] := c], chains, leaked, marks, more, f, t[f].ent.size, stream)
  {
    hide NewWritten, GetLocalEofOff, ChainLen, FsNextCluster, HookedUp;
    var chain := chains[f];
    FileFacts(s0, t, chains, f);
    EofOff(t[f].ent.size);
    HookedMeans(s1[chain[|chain| - 1]], c, GetLocalEofOff(t[f].ent.size), stream,
                if more == [] then CLUSTER_OFFSET_EOF else more[0]);
    assert chain[|chain| - 1] in chain;
    forall x | x in chain ensures x !in more {
      OwnedHas(chains, f, x);
      assert x in more ==> x in Elems(more);
    }
    Joined(chain, more);
    HookUp(s0, s1, c, chain, more, t[f].ent.size, stream);
  }

  /** Every store recorded since `t0` agrees with `s` outside the given clusters. */
  ghost predicate TraceOutside(t0: seq<Store>, t: seq<Store>, s: Store, touched: seq<nat>) {
    t0 <= t && forall k :: |t0| <= k < |t| ==> SameOutside(s, t[k], touched)
  }

  lemma NothingWritten(s: Store, t: seq<Store>, more: seq<nat>, stream: seq<byte>, skip: nat)
    requires StoreOk(s) && forall i :: 0 <= i < |more| ==> more[i] < |s|
    ensures SameOutside(s, s, more) && TraceOutside(t, t, s, more) && NewWritten(s, more, stream, skip, 0)
  {}

  lemma LinkInRange(s: Store, more: seq<nat>, indices: seq<nat>, i: nat)
    requires StoreOk(s) && indices == more + [CLUSTER_OFFSET_EOF] && i < |more| && forall i :: 0 <= i < |more| ==>
        more[i] < |s|
    ensures indices[i] == more[i] < |s|
    ensures indices[i + 1] == (if i + 1 < |more| then more[i + 1] else CLUSTER_OFFSET_EOF) <= CLUSTER_OFFSET_EOF
  {}

  lemma NewClusterWritten(s0: Store, s1: Store, t0: seq<Store>, t1: seq<Store>, more: seq<nat>, stream: seq<byte>,
                          skip: nat, i: nat, c: seq<byte>, n: nat)
    requires SameOutside(s0, s1, more) && TraceOutside(t0, t1, s0, more) && NewWritten(s1, more, stream, skip, i)
    requires i < |more| && NoDup(more) && |c| == CLUSTER_SIZE
    requires FsNextCluster(c) == if i + 1 < |more| then more[i + 1] else CLUSTER_OFFSET_EOF
    requires skip + CLUSTER_DATA_SIZE * i < |stream|
    requires n == Min(|stream| - (skip + CLUSTER_DATA_SIZE * i), CLUSTER_DATA_SIZE)
    requires c[..n] == stream[skip + CLUSTER_DATA_SIZE * i..skip + CLUSTER_DATA_SIZE * i + n]
    ensures SameOutside(s0, s1[more[i] := c], more) && TraceOutside(t0, t1 + [s1[more[i] := c]], s0, more)
    ensures NewWritten(s1[more[i] := c], more, stream, skip, i + 1)
  {
    hide FsNextCluster, NewWritten, NoDup;
    var at := skip + CLUSTER_DATA_SIZE * i;
    assert more[i] in more;
    RangeOfNew(s1, more, stream, skip, i);
    forall r | 0 <= r < CLUSTER_DATA_SIZE && at + r < |stream| ensures c[r] == stream[at + r] {
      assert c[..n][r] == stream[at..at + n][r];
    }
    NewWrittenNext(s1, more, stream, skip, i, c);
  }

  lemma RangeOfNew(s: Store, more: seq<nat>, stream: seq<byte>, skip: nat, n: nat)
    requires StoreOk(s) && NewWritten(s, more, stream, skip, n)
    ensures forall j :: 0 <= j < |more| ==> more[j] < |s|
  {}

  /** Zeros and buffer bytes, as the two copies lay them out, are a piece of the stream. */
  lemma StreamPiece(c: seq<byte>, off: nat, data: seq<byte>, processed: nat, writeSize: nat, padSize: nat)
    requires |c| == CLUSTER_SIZE && processed + writeSize <= off + |data| && writeSize <= CLUSTER_DATA_SIZE
    requires padSize == if off > processed then Min(writeSize, off - processed) else 0
    ensures var padded := Splice(c, 0, Zeros(padSize));
      var from := processed + padSize - off;
      if padSize < writeSize
      then Splice(padded, padSize, data[from..from + (writeSize - padSize)])[..writeSize] ==
          Stream(off, data)[processed..processed + writeSize]
      else padded[..writeSize] == Stream(off, data)[processed..processed + writeSize]
  {
    var padded, piece := Splice(c, 0, Zeros(padSize)), Stream(off, data)[processed..processed + writeSize];
    StreamAt(off, data, processed, writeSize);
    hide Stream;
    Padding(c, padSize);
    if padSize < writeSize {
      var from := processed + padSize - off;
      var part := data[from..from + (writeSize - padSize)];
      var r := Splice(padded, padSize, part);
      hide Zeros;
      forall k | 0 <= k < writeSize ensures r[k] == piece[k] {
        assert piece[k] == Stream(off, data)[processed + k];
        assert r[k] == if k < padSize then padded[k] else part[k - padSize];
      }
      assert r[..writeSize] == piece;
    } else {
      assert padded[..writeSize] == piece;
    }
  }

  lemma Padding(c: seq<byte>, n: nat)
    requires n <= |c|
    ensures forall k :: 0 <= k < n ==> Splice(c, 0, Zeros(n))[k] == ZERO_BYTE
  {}

  lemma StreamAt(off: nat, data: seq<byte>, from: nat, n: nat)
    requires from + n <= off + |data|
    ensures forall j :: from <= j < from + n ==> Stream(off, data)[j] == if j < off then ZERO_BYTE else data[j - off]
  {}

  /** The cluster that the two copying steps leave, of which only the link is still missing. */
  ghost predicate Prepared(before: seq<byte>, patched: seq<byte>, local: nat, off: nat, data: seq<byte>)
    requires |before| == CLUSTER_SIZE && local <= CLUSTER_DATA_SIZE
  {
    var partial := CLUSTER_DATA_SIZE - local;
    var padded := if off > 0 then Splice(before, local, Zeros(Min(off, partial))) else before;
    patched == if off < partial then Splice(padded, off + local, data[..Min(partial - off, |data|)]) else padded
  }

  lemma PreparedAt(before: seq<byte>, patched: seq<byte>, local: nat, off: nat, data: seq<byte>, r: nat)
    requires |before| == |patched| == CLUSTER_SIZE && local <= CLUSTER_DATA_SIZE && r < CLUSTER_DATA_SIZE
    requires Prepared(before, patched, local, off, data)
    ensures r < local ==> patched[r] == before[r]
    ensures local <= r && r - local < off + |data| ==> patched[r] == Stream(off, data)[r - local]
  {
    hide Splice, Stream, Zeros;
    var partial := CLUSTER_DATA_SIZE - local;
    var padded := if off > 0 then Splice(before, local, Zeros(Min(off, partial))) else before;
    if off > 0 {
      SpliceAt(before, local, Zeros(Min(off, partial)), r);
    }
    if off < partial {
      SpliceAt(padded, off + local, data[..Min(partial - off, |data|)], r);
    }
    if local <= r && r - local < off + |data| {
      StreamByte(off, data, r - local);
    }
    ZerosAt(Min(off, partial), if local <= r then r - local else 0);
  }

  lemma ZerosAt(n: nat, k: nat)
    ensures k < n ==> Zeros(n)[k] == ZERO_BYTE
  {}

  lemma StreamByte(off: nat, data: seq<byte>, k: nat)
    requires k < off + |data|
    ensures Stream(off, data)[k] == if k < off then ZERO_BYTE else data[k - off]
  {}

  /** The three steps that prepare the last cluster put the start of the stream into it. */
  lemma PatchedTail(before: seq<byte>, patched: seq<byte>, c: seq<byte>, local: nat, off: nat, data: seq<byte>,
                    next: nat)
    requires |before| == |patched| == |c| == CLUSTER_SIZE && local <= CLUSTER_DATA_SIZE
    requires FsNextCluster(c) == next && c[..CLUSTER_DATA_SIZE] == patched[..CLUSTER_DATA_SIZE]
    requires Prepared(before, patched, local, off, data)
    ensures HookedUp(before, c, local, Stream(off, data), next)
  {
    hide FsNextCluster, Prepared, Stream;
    forall r | 0 <= r < CLUSTER_DATA_SIZE
      ensures r < local ==> c[r] == before[r]
      ensures local <= r && r - local < off + |data| ==> c[r] == Stream(off, data)[r - local]
    {
      assert c[r] == c[..CLUSTER_DATA_SIZE][r] == patched[r];
      PreparedAt(before, patched, local, off, data, r);
    }
  }

  lemma TakenNone(m0: set<nat>, n: nat)
    ensures TakenFrom(m0, [], m0, n)
  {}

  lemma TakenMeans(m0: set<nat>, indices: seq<nat>, m: set<nat>, n: nat)
    requires TakenFrom(m0, indices, m, n)
    ensures m == m0 + Elems(indices) && Elems(indices) !! m0 && NoDup(indices)
    ensures forall i :: 0 <= i < |indices| ==> indices[i] < n
    ensures indices == [] ==> m == m0
  {}

  /** The clusters in `indices` were taken one after the other from those not in `m0`. */
  ghost predicate TakenFrom(m0: set<nat>, indices: seq<nat>, m: set<nat>, n: nat) {
    && m == m0 + Elems(indices) && Elems(indices) !! m0 && NoDup(indices)
    && forall i :: 0 <= i < |indices| ==> indices[i] < n
  }

  lemma TakenNext(m0: set<nat>, indices: seq<nat>, m: set<nat>, c: nat, n: nat)
    requires TakenFrom(m0, indices, m, n) && c !in m && c < n
    ensures TakenFrom(m0, indices + [c], m + {c}, n)
  {
    var more := indices + [c];
    ElemsNext(more, |indices|);
    assert more[..|indices|] == indices && more[..|more|] == more;
    forall i, j | 0 <= i < j < |more| ensures more[i] != more[j] {
      if j == |indices| {
        assert indices[i] in Elems(indices);
      }
    }
  }

  /** Each of the clusters is the lowest that was free when it was taken. */
  ghost predicate LowestFirst(m0: set<nat>, indices: seq<nat>) {
    forall i :: 0 <= i < |indices| ==> AllTaken(m0 + Elems(indices[..i]), indices[i])
  }

  lemma LowestNone(m0: set<nat>)
    ensures LowestFirst(m0, [])
  {}

  lemma LowestNext(m0: set<nat>, indices: seq<nat>, m: set<nat>, c: nat, n: nat)
    requires TakenFrom(m0, indices, m, n) && LowestFirst(m0, indices) && AllTaken(m, c)
    ensures LowestFirst(m0, indices + [c])
  {
    hide AllTaken, Elems, NoDup;
    var more := indices + [c];
    forall i | 0 <= i < |more| ensures AllTaken(m0 + Elems(more[..i]), more[i]) {
      assert more[..i] == if i < |indices| then indices[..i] else indices;
    }
  }

  lemma TakenCount(m0: set<nat>, indices: seq<nat>, m: set<nat>, n: nat)
    requires TakenFrom(m0, indices, m, n)
    ensures |m| == |m0| + |indices|
  {
    ElemsCount(indices);
  }

  lemma {:induction false} MarksBelow(bm: seq<byte>, n: nat)
    ensures |Marks(bm, n)| <= n
  {
    if n > 0 {
      MarksBelow(bm, n - 1);
      assert Marks(bm, n) == Marks(bm, n - 1) + (if BitAt(bm, n - 1) then {n - 1} else {});
    }
  }

  lemma {:induction false} AllMarked(bm: seq<byte>, n: nat)
    requires forall k :: 0 <= k < n ==> BitAt(bm, k)
    ensures |Marks(bm, n)| == n
  {
    if n > 0 {
      AllMarked(bm, n - 1);
      assert Marks(bm, n) == Marks(bm, n - 1) + {n - 1};
    }
  }

  lemma WasClear(bm: seq<byte>, c: nat, n: nat)
    requires !BitAt(bm, c)
    ensures c !in Marks(bm, n)
  {}

  /** After the rollback only the last cluster taken is still marked beyond those of before. */
  lemma LeftOver(m0: set<nat>, indices: seq<nat>, full: set<nat>, n: nat)
    requires TakenFrom(m0, indices, full, n) && indices != []
    ensures full - Elems(indices[..|indices| - 1]) == m0 + {indices[|indices| - 1]}
    ensures indices[|indices| - 1] !in m0
  {
    var last := |indices| - 1;
    ElemsNext(indices, last);
    assert indices[..last + 1] == indices;
    assert indices[last] in Elems(indices);
    assert indices[last] !in indices[..last];
  }

  /** Bytes of a chain from `at` on. */
  function ChainBytes(s: Store, chain: seq<nat>, at: nat, n: nat): (r: seq<byte>)
    ensures |r| == n
  {
    seq<byte>(n, x requires 0 <= x => ByteOf(s, chain, at + x))
  }

  lemma NothingDone(s: Store, chain: seq<nat>, at: nat, b: seq<byte>, bufOff: nat)
    requires ChainOk(s, chain) && bufOff <= |b|
    ensures ChainPatched(s, s, chain, at, b[bufOff..bufOff + 0])
    ensures Splice(b, bufOff, ChainBytes(s, chain, at, 0)) == b
  {
    assert b[bufOff..bufOff + 0] == [];
    PatchNothing(s, chain, at);
  }

  /** `c` is the cluster that holds the byte before position `end`. */
  predicate LastTouched(chain: seq<nat>, end: nat, c: nat) {
    end > 0 && (end - 1) / CLUSTER_DATA_SIZE < |chain| && c == chain[(end - 1) / CLUSTER_DATA_SIZE]
  }

  lemma LastOfPiece(chain: seq<nat>, j: nat, local: nat, n: nat, at: nat)
    requires j < |chain| && 0 < n && local + n <= CLUSTER_DATA_SIZE && at == CLUSTER_DATA_SIZE * j + local
    ensures LastTouched(chain, at + n, chain[j])
  {}

  /** The patched cluster, written back, patches the chain and keeps its link. */
  lemma WriteCase(s: Store, chain: seq<nat>, j: nat, local: nat, data: seq<byte>)
    requires ChainOk(s, chain) && j < |chain| && local + |data| <= CLUSTER_DATA_SIZE
    ensures chain[j] < |s| && |s[chain[j]]| == CLUSTER_SIZE
    ensures ChainPatched(s, s[chain[j] := Splice(s[chain[j]], local, data)], chain, CLUSTER_DATA_SIZE * j + local, data)
    ensures FsNextCluster(Splice(s[chain[j]], local, data)) == if j + 1 < |chain| then chain[j + 1]
        else CLUSTER_OFFSET_EOF
  {
    hide FsNextCluster, ByteOf;
    NextInChain(s, chain, j);
    PatchCluster(s, chain, j, local, data);
    NextInChain(s[chain[j] := Splice(s[chain[j]], local, data)], chain, j);
  }

  /** The data of one cluster is a piece of the chain's bytes. */
  lemma ReadCase(s: Store, chain: seq<nat>, j: nat, local: nat, n: nat)
    requires ChainOk(s, chain) && j < |chain| && local + n <= CLUSTER_DATA_SIZE
    ensures chain[j] < |s| && |s[chain[j]]| == CLUSTER_SIZE
    ensures s[chain[j]][local..local + n] == ChainBytes(s, chain, CLUSTER_DATA_SIZE * j + local, n)
    ensures FsNextCluster(s[chain[j]]) == if j + 1 < |chain| then chain[j + 1] else CLUSTER_OFFSET_EOF
  {
    hide FsNextCluster, ByteOf;
    NextInChain(s, chain, j);
    var l, r := s[chain[j]][local..local + n], ChainBytes(s, chain, CLUSTER_DATA_SIZE * j + local, n);
    forall x | 0 <= x < n ensures l[x] == r[x] {
      AtCluster(s, chain, j, local + x);
    }
  }

  lemma InRange(s: Store, chain: seq<nat>, j: nat)
    requires ChainOk(s, chain)
    ensures j < |chain| ==> chain[j] < |s| <= CLUSTER_OFFSET_EOF
  {
    if j < |chain| {
      NextInChain(s, chain, j);
    }
  }

  lemma PatchNext(s0: Store, s1: Store, s2: Store, chain: seq<nat>, start: nat, b: seq<byte>, bufOff: nat,
                  processed: nat, n: nat)
    requires bufOff + processed + n <= |b|
    requires ChainPatched(s0, s1, chain, start, b[bufOff..bufOff + processed])
    requires ChainPatched(s1, s2, chain, start + processed, b[bufOff + processed..bufOff + processed + n])
    ensures ChainPatched(s0, s2, chain, start, b[bufOff..bufOff + processed + n]) && ChainOk(s2, chain)
  {
    PatchMore(s0, s1, s2, chain, start, b[bufOff..bufOff + processed], b[bufOff + processed..bufOff + processed + n]);
    assert b[bufOff..bufOff + processed] + b[bufOff + processed..bufOff + processed + n] ==
        b[bufOff..bufOff + processed + n];
  }

  lemma ReadNext(s: Store, chain: seq<nat>, start: nat, b: seq<byte>, bufOff: nat, processed: nat, n: nat)
    requires bufOff + processed + n <= |b|
    ensures Splice(Splice(b, bufOff, ChainBytes(s, chain, start, processed)), bufOff + processed,
        ChainBytes(s, chain, start + processed, n))
         == Splice(b, bufOff, ChainBytes(s, chain, start, processed + n))
  {
    hide ByteOf;
    SpliceTwice(b, bufOff, ChainBytes(s, chain, start, processed), ChainBytes(s, chain, start + processed, n));
    assert ChainBytes(s, chain, start, processed) + ChainBytes(s, chain, start + processed, n) ==
        ChainBytes(s, chain, start, processed + n);
  }

  lemma NonEmpty(s: Store, chain: seq<nat>)
    requires ChainOk(s, chain)
    ensures chain != []
  {}
}
