// The meaning of cluster chains in src/bsfs.c: files as flat byte sequences, and the size arithmetic.

/** Chains of linked clusters, the file contents they stand for, and what changes of the store do to them. */
module Files {
  import opened BitUtil
  import opened Matrix
  import opened Cluster
  import opened Bft

  /** The clusters of a level, by index. */
  type Store = seq<seq<byte>>

  /** Clusters are whole, and each has bytes of its own (`Volume.PutIsUpdate`). */
  ghost predicate StoreOk(s: Store) {
    |s| <= DISTINCT_CLUSTERS && forall c :: 0 <= c < |s| ==> |s[c]| == CLUSTER_SIZE
  }

  // ---------- stores over time ----------

  /** Some cluster has been written. */
  ghost predicate OneWrite(s: Store, s': Store) {
    |s'| == |s| && exists idx: nat :: idx < |s| && |s'[idx]| == CLUSTER_SIZE && s' == s[idx := s'[idx]]
  }

  /** The store after all writes but the last. */
  ghost function Previous(s0: Store, trace: seq<Store>): Store {
    if |trace| < 2 then s0 else trace[|trace| - 2]
  }

  /** The trace leads from `s0` to `s` by writes of single clusters. */
  ghost predicate Recorded(s0: Store, trace: seq<Store>, s: Store)
    decreases |trace|
  {
    if trace == [] then s == s0
    else
      var n := |trace| - 1;
      trace[n] == s && OneWrite(Previous(s0, trace), s) && Recorded(s0, trace[..n], Previous(s0, trace))
  }

  lemma RecordedLast(s0: Store, trace: seq<Store>, s: Store)
    requires Recorded(s0, trace, s) && trace != []
    ensures var n, before := |trace| - 1, Previous(s0, trace);
      && Recorded(s0, trace[..n], before) && trace == trace[..n] + [s] && OneWrite(before, s)
      && before == if n == 0 then s0 else trace[..n][n - 1]
  {
    assert trace == trace[..|trace| - 1] + [trace[|trace| - 1]];
  }

  lemma RecordedNext(s0: Store, trace: seq<Store>, s: Store, idx: nat, cluster: seq<byte>)
    requires Recorded(s0, trace, s) && idx < |s| && |cluster| == CLUSTER_SIZE
    ensures Recorded(s0, trace + [s[idx := cluster]], s[idx := cluster])
  {
    var s', all := s[idx := cluster], trace + [s[idx := cluster]];
    assert s' == s[idx := s'[idx]];
    assert all[..|trace|] == trace && Previous(s0, all) == s;
  }

  // ---------- sizes ----------

  /** The C conversion of a `size_t` to `off_t`. */
  function ToOff(x: int): int {
    var m := x % TWO64;
    if m < TWO64 / 2 then m else m - TWO64
  }

  /** `get_required_cluster_count`: the division by the data size is unsigned and its dividend wraps. */
  function GetRequiredClusterCount(fileSize: int): nat {
    ((fileSize + CLUSTER_DATA_SIZE - 1) % TWO64) / CLUSTER_DATA_SIZE
  }

  /** The remainder of C, which takes the sign of the dividend. */
  function CRem(a: int, b: nat): int
    requires b > 0
  {
    if a >= 0 then a % b else -((-a) % b)
  }

  /** Where the last byte of the last cluster ends; zero for an empty file. */
  function GetLocalEofOff(size: int): int {
    CRem(size - 1, CLUSTER_DATA_SIZE) + 1
  }

  /** How many clusters a file of that size has: `mknod` gives even an empty file one. */
  function ChainLen(size: nat): (n: nat)
    ensures n > 0
  {
    if size == 0 then 1 else (size + CLUSTER_DATA_SIZE - 1) / CLUSTER_DATA_SIZE
  }

  /** The clusters that `bs_do_write_extend` allocates for `ext` more bytes. */
  function NewClusterCount(size: nat, ext: nat): nat {
    GetRequiredClusterCount(ToOff(ext - (CLUSTER_DATA_SIZE - GetLocalEofOff(size))))
  }

  lemma WrapsBack(d: int)
    requires 0 <= d + TWO64 / 2 < TWO64
    ensures ToOff(d) == d
  {}

  /** Wrapping subtraction and rounding give exactly the missing clusters, also at size 0 and on cluster boundaries. */
  lemma ExtendCount(size: nat, ext: nat)
    requires ext >= 1 && size + ext < TWO64 / 2
    ensures NewClusterCount(size, ext) == ChainLen(size + ext) - ChainLen(size)
  {
    EofOff(size);
    var d := ext - (CLUSTER_DATA_SIZE - GetLocalEofOff(size));
    WrapsBack(d);
    hide ToOff, GetLocalEofOff;
    assert 0 <= d + CLUSTER_DATA_SIZE - 1 < TWO64;
  }

  /** Exactly when the count is right: only for an extension of an empty file by nothing does it wrap around. */
  lemma ExtendCountExactly(size: nat, ext: nat)
    requires size + ext < TWO64 / 2
    ensures NewClusterCount(size, ext) == ChainLen(size + ext) - ChainLen(size) <==> !(size == 0 && ext == 0)
  {
    if ext >= 1 {
      ExtendCount(size, ext);
    }
  }

  lemma EofOff(size: nat)
    ensures size == CLUSTER_DATA_SIZE * (ChainLen(size) - 1) + GetLocalEofOff(size)
    ensures 0 <= GetLocalEofOff(size) <= CLUSTER_DATA_SIZE && (size > 0 ==> GetLocalEofOff(size) > 0)
  {}

  // ---------- chains ----------

  ghost predicate Linked(s: Store, chain: seq<nat>)
    requires StoreOk(s)
  {
    forall i :: 0 <= i < |chain| ==>
      chain[i] < |s| && FsNextCluster(s[chain[i]]) == if i + 1 < |chain| then chain[i + 1] else CLUSTER_OFFSET_EOF
  }

  ghost predicate NoDup(chain: seq<nat>) {
    forall i, j :: 0 <= i < j < |chain| ==> chain[i] != chain[j]
  }

  /** A nonempty acyclic chain in range that ends in the end mark. */
  ghost predicate ChainOk(s: Store, chain: seq<nat>) {
    StoreOk(s) && chain != [] && Linked(s, chain) && NoDup(chain)
  }

  /** The link of a cluster leads to the next one, or is the end mark. */
  lemma NextInChain(s: Store, chain: seq<nat>, k: nat)
    requires ChainOk(s, chain) && k < |chain|
    ensures chain[k] < |s| && |s[chain[k]]| == CLUSTER_SIZE
    ensures k + 1 < |chain| ==> FsNextCluster(s[chain[k]]) == chain[k + 1] != CLUSTER_OFFSET_EOF
    ensures k + 1 == |chain| ==> FsNextCluster(s[chain[k]]) == CLUSTER_OFFSET_EOF
  {
    hide FsNextCluster;
    assert FsNextCluster(s[chain[k]]) == if k + 1 < |chain| then chain[k + 1] else CLUSTER_OFFSET_EOF;
    assert k + 1 < |chain| ==> chain[k + 1] < |s|;
  }

  /** Byte `p` of the data that a chain carries. */
  function ByteOf(s: Store, chain: seq<nat>, p: int): byte {
    if 0 <= p / CLUSTER_DATA_SIZE < |chain| && chain[p / CLUSTER_DATA_SIZE] < |s| &&
        p % CLUSTER_DATA_SIZE < |s[chain[p / CLUSTER_DATA_SIZE]]|
    then s[chain[p / CLUSTER_DATA_SIZE]][p % CLUSTER_DATA_SIZE] else ZERO_BYTE
  }

  /** The first `size` bytes of a chain: the contents of a file. */
  function Contents(s: Store, chain: seq<nat>, size: nat): (c: seq<byte>)
    ensures |c| == size
  {
    seq<byte>(size, p requires 0 <= p => ByteOf(s, chain, p))
  }

  function Zeros(n: nat): (z: seq<byte>)
    ensures |z| == n
  {
    seq<byte>(n, _ => ZERO_BYTE)
  }

  /** A flat file after a write of `data` at `off`: a gap past the end fills with zeros. */
  function Overwrite(c: seq<byte>, off: nat, data: seq<byte>): seq<byte> {
    var base := if off > |c| then c + Zeros(off - |c|) else c;
    base[..off] + data + (if off + |data| < |base| then base[off + |data|..] else [])
  }

  /** A flat file after it is cut or extended with zeros. */
  function Resize(c: seq<byte>, size: nat): seq<byte> {
    if size <= |c| then c[..size] else c + Zeros(size - |c|)
  }

  /** What a write makes of a file, byte by byte: the data, zeros in a gap past the old end, and the old bytes. */
  lemma OverwriteBytes(c: seq<byte>, off: nat, data: seq<byte>, i: nat)
    ensures |Overwrite(c, off, data)| == if off + |data| > |c| then off + |data| else |c|
    ensures i < |Overwrite(c, off, data)| ==>
      Overwrite(c, off, data)[i] ==
      if off <= i < off + |data| then data[i - off] else if i < |c| then c[i] else ZERO_BYTE
  {}

  /** What truncating makes of one: its first bytes, and zeros behind them. */
  lemma ResizeBytes(c: seq<byte>, size: nat, i: nat)
    ensures |Resize(c, size)| == size
    ensures i < size ==> Resize(c, size)[i] == if i < |c| then c[i] else ZERO_BYTE
  {}

  lemma AtCluster(s: Store, chain: seq<nat>, i: nat, r: nat)
    requires ChainOk(s, chain) && i < |chain| && r < CLUSTER_DATA_SIZE
    ensures ByteOf(s, chain, CLUSTER_DATA_SIZE * i + r) == s[chain[i]][r]
  {
    var p := CLUSTER_DATA_SIZE * i + r;
    assert p / CLUSTER_DATA_SIZE == i && p % CLUSTER_DATA_SIZE == r;
  }

  // ---------- files of a level ----------

  ghost predicate FileOk(s: Store, chain: seq<nat>, e: Entry) {
    ChainOk(s, chain) && chain[0] == e.initialCluster && |chain| == ChainLen(e.size)
  }

  /** Every used slot has its chain, of the length its size asks for; unused slots have none. */
  ghost predicate FilesOk(s: Store, t: seq<Slot>, chains: seq<seq<nat>>) {
    && StoreOk(s) && |chains| == |t|
    && (forall i :: 0 <= i < |t| && t[i].Used? ==> FileOk(s, chains[i], t[i].ent))
    && (forall i :: 0 <= i < |t| && !t[i].Used? ==> chains[i] == [])
  }

  /** No cluster belongs to two files. */
  ghost predicate Disjoint(chains: seq<seq<nat>>) {
    forall i, j, c :: 0 <= i < |chains| && 0 <= j < |chains| && c in chains[i] && c in chains[j] ==> i == j
  }

  ghost function Elems(chain: seq<nat>): set<nat> {
    set c | c in chain
  }

  /** The clusters that belong to some file. */
  ghost function OwnedSet(chains: seq<seq<nat>>): set<nat> {
    set i: nat, c: nat | i < |chains| && c in chains[i] :: c
  }

  /** The clusters marked as used among the first `n`. */
  ghost function Marks(bitmap: seq<byte>, n: nat): set<nat> {
    set c: nat | c < n && BitAt(bitmap, c)
  }

  /** The bitmap agrees with the chains: exactly the owned and the leaked clusters are marked. */
  ghost predicate MarksOk(bitmap: seq<byte>, chains: seq<seq<nat>>, leaked: set<nat>, n: nat) {
    n <= 8 * |bitmap| && Marks(bitmap, n) == OwnedSet(chains) + leaked && leaked !! OwnedSet(chains)
  }

  lemma MarksAfter(before: seq<byte>, after: seq<byte>, c: nat, v: bool, n: nat)
    requires BitChanged(before, after, c, v) && c < n <= 8 * |before|
    ensures Marks(after, n) == if v then Marks(before, n) + {c} else Marks(before, n) - {c}
  {
    forall k: nat | k < n ensures k in Marks(after, n) <==> (if k == c then v else k in Marks(before, n)) {
      assert BitAt(after, k) == if k == c then v else BitAt(before, k);
    }
  }

  lemma OwnedGrows(chains: seq<seq<nat>>, f: nat, more: seq<nat>)
    requires f < |chains|
    ensures OwnedSet(chains[f := chains[f] + more]) == OwnedSet(chains) + Elems(more)
  {
    var after := chains[f := chains[f] + more];
    forall c: nat ensures c in OwnedSet(after) <==> c in OwnedSet(chains) + Elems(more) {
      if c in OwnedSet(after) {
        var i: nat :| i < |after| && c in after[i];
        assert c in chains[i] || c in more;
      }
      if c in OwnedSet(chains) {
        var i: nat :| i < |chains| && c in chains[i];
        assert c in after[i];
      }
      if c in more {
        assert c in after[f];
      }
    }
  }

  lemma OwnedHas(chains: seq<seq<nat>>, i: nat, c: nat)
    ensures i < |chains| && c in chains[i] ==> c in OwnedSet(chains)
  {}

  /** The parts of a chain without repetitions have nothing in common. */
  lemma Apart(a: seq<nat>, b: seq<nat>)
    requires NoDup(a + b)
    ensures NoDup(a) && NoDup(b) && forall c :: c in a ==> c !in b
  {
    forall i, j | 0 <= i < |a| && 0 <= j < |b| ensures a[i] != b[j] {
      assert (a + b)[i] != (a + b)[|a| + j];
    }
    forall i, j | 0 <= i < j < |a| ensures a[i] != a[j] {
      assert (a + b)[i] != (a + b)[j];
    }
    forall i, j | 0 <= i < j < |b| ensures b[i] != b[j] {
      assert (a + b)[|a| + i] != (a + b)[|a| + j];
    }
  }

  lemma Joined(a: seq<nat>, b: seq<nat>)
    requires NoDup(a) && NoDup(b) && forall c :: c in a ==> c !in b
    ensures NoDup(a + b)
  {
    forall i, j | 0 <= i < j < |a + b| ensures (a + b)[i] != (a + b)[j] {
      if j < |a| {
        assert a[i] != a[j];
      } else if i >= |a| {
        assert b[i - |a|] != b[j - |a|];
      } else {
        assert a[i] in a;
      }
    }
  }

  lemma ElemsNext(chain: seq<nat>, i: nat)
    requires i < |chain|
    ensures Elems(chain[..i + 1]) == Elems(chain[..i]) + {chain[i]}
  {
    assert chain[..i + 1] == chain[..i] + [chain[i]];
  }

  lemma {:induction false} ElemsCount(chain: seq<nat>)
    requires NoDup(chain)
    ensures |Elems(chain)| == |chain|
  {
    if chain == [] {
      assert Elems(chain) == {};
    } else {
      var i := |chain| - 1;
      ElemsCount(chain[..i]);
      ElemsNext(chain, i);
      assert chain[..i + 1] == chain;
    }
  }

  lemma OwnedShrinks(chains: seq<seq<nat>>, f: nat, k: nat)
    requires f < |chains| && Disjoint(chains) && NoDup(chains[f]) && k <= |chains[f]|
    ensures OwnedSet(chains[f := chains[f][..k]]) == OwnedSet(chains) - Elems(chains[f][k..])
    ensures Disjoint(chains[f := chains[f][..k]])
  {
    var after := chains[f := chains[f][..k]];
    assert chains[f] == chains[f][..k] + chains[f][k..];
    Apart(chains[f][..k], chains[f][k..]);
    assert forall c :: c in chains[f][k..] ==> c in chains[f];
    assert forall i, c :: 0 <= i < |after| && c in after[i] ==> c in chains[i];
    forall c: nat ensures c in OwnedSet(after) <==> c in OwnedSet(chains) - Elems(chains[f][k..]) {
      if c in OwnedSet(after) {
        var i: nat :| i < |after| && c in after[i];
        assert c in chains[i];
      }
      if c in OwnedSet(chains) && c !in chains[f][k..] {
        var i: nat :| i < |chains| && c in chains[i];
        assert c in after[i];
      }
    }
  }

  lemma DisjointGrows(chains: seq<seq<nat>>, f: nat, more: seq<nat>)
    requires f < |chains| && Disjoint(chains) && Elems(more) !! OwnedSet(chains)
    ensures Disjoint(chains[f := chains[f] + more])
  {
    var after := chains[f := chains[f] + more];
    forall i: nat, j: nat, c | i < |after| && j < |after| && c in after[i] && c in after[j] ensures i == j {
      OwnedHas(chains, i, c);
      OwnedHas(chains, j, c);
      assert c in more ==> c in Elems(more);
    }
  }

  /** The same contents for a file whose clusters are untouched. */
  lemma UntouchedFile(s: Store, s': Store, chain: seq<nat>)
    requires ChainOk(s, chain) && StoreOk(s') && |s'| == |s|
    requires forall c :: c in chain ==> s'[c] == s[c]
    ensures ChainOk(s', chain) && forall p :: ByteOf(s', chain, p) == ByteOf(s, chain, p)
  {}

  /** `s'` agrees with `s` outside the given clusters. */
  ghost predicate SameOutside(s: Store, s': Store, touched: seq<nat>) {
    StoreOk(s') && |s'| == |s| && forall c :: 0 <= c < |s| && c !in touched ==> s'[c] == s[c]
  }

  /** File `i` reads the same in both stores. */
  ghost predicate SameFile(s: Store, s': Store, chain: seq<nat>) {
    (ChainOk(s, chain) ==> ChainOk(s', chain)) && forall p :: ByteOf(s', chain, p) == ByteOf(s, chain, p)
  }

  /**
   * Files of a level other than `f` keep chains and contents when only clusters of `f`, or unowned ones, are
   * written.
   */
  lemma OthersUntouched(s: Store, s': Store, t: seq<Slot>, chains: seq<seq<nat>>, f: int, touched: seq<nat>)
    requires FilesOk(s, t, chains) && SameOutside(s, s', touched)
    requires forall i, c :: 0 <= i < |chains| && i != f && c in chains[i] ==> c !in touched
    ensures forall i :: 0 <= i < |t| && i != f ==> SameFile(s, s', chains[i])
    ensures forall i :: 0 <= i < |t| && i != f && t[i].Used? ==> FileOk(s', chains[i], t[i].ent)
  {
    forall i | 0 <= i < |t| && i != f
      ensures SameFile(s, s', chains[i]) && (t[i].Used? ==> FileOk(s', chains[i], t[i].ent))
    {
      if t[i].Used? {
        UntouchedFile(s, s', chains[i]);
      } else {
        assert chains[i] == [];
      }
    }
  }

  /** Every file reads the same in both stores. */
  ghost predicate FilesSame(s: Store, s': Store, chains: seq<seq<nat>>) {
    forall i :: 0 <= i < |chains| ==> SameFile(s, s', chains[i])
  }

  /** Writing clusters that no file owns changes no file. */
  lemma UnownedWrites(s: Store, s': Store, t: seq<Slot>, chains: seq<seq<nat>>, touched: seq<nat>)
    requires FilesOk(s, t, chains) && SameOutside(s, s', touched) && Elems(touched) !! OwnedSet(chains)
    ensures FilesOk(s', t, chains) && FilesSame(s, s', chains)
  {
    hide SameFile, FileOk;
    forall i, c | 0 <= i < |chains| && c in chains[i] ensures c !in touched {
      OwnedHas(chains, i, c);
      assert c in touched ==> c in Elems(touched);
    }
    OthersUntouched(s, s', t, chains, -1, touched);
  }

  // ---------- writing into a chain ----------

  /** `s'` is `s` with `data` written at byte `at` of the chain: links and everything else stay. */
  ghost predicate ChainPatched(s: Store, s': Store, chain: seq<nat>, at: nat, data: seq<byte>) {
    && SameOutside(s, s', chain) && ChainOk(s, chain) && ChainOk(s', chain)
    && (forall p :: 0 <= p < CLUSTER_DATA_SIZE * |chain| ==>
          ByteOf(s', chain, p) == if at <= p < at + |data| then data[p - at] else ByteOf(s, chain, p))
  }

  lemma PatchNothing(s: Store, chain: seq<nat>, at: nat)
    requires ChainOk(s, chain)
    ensures ChainPatched(s, s, chain, at, [])
  {}

  lemma PatchMore(s: Store, s1: Store, s2: Store, chain: seq<nat>, at: nat, d1: seq<byte>, d2: seq<byte>)
    requires ChainPatched(s, s1, chain, at, d1) && ChainPatched(s1, s2, chain, at + |d1|, d2)
    ensures ChainPatched(s, s2, chain, at, d1 + d2)
  {
    hide ByteOf, ChainOk;
  }

  /** Patching the data of one cluster patches the chain there. */
  lemma PatchCluster(s: Store, chain: seq<nat>, i: nat, local: nat, data: seq<byte>)
    requires ChainOk(s, chain) && i < |chain| && local + |data| <= CLUSTER_DATA_SIZE
    ensures ChainPatched(s, s[chain[i] := Splice(s[chain[i]], local, data)], chain, CLUSTER_DATA_SIZE * i + local, data)
  {
    var c := Splice(s[chain[i]], local, data);
    var s' := s[chain[i] := c];
    assert c[CLUSTER_DATA_SIZE..] == s[chain[i]][CLUSTER_DATA_SIZE..];
    assert Linked(s', chain) by {
      forall j | 0 <= j < |chain| ensures FsNextCluster(s'[chain[j]]) == FsNextCluster(s[chain[j]]) {}
    }
    forall p | 0 <= p < CLUSTER_DATA_SIZE * |chain|
      ensures ByteOf(s', chain, p) ==
        if CLUSTER_DATA_SIZE * i + local <= p < CLUSTER_DATA_SIZE * i + local + |data| then
            data[p - (CLUSTER_DATA_SIZE * i + local)] else ByteOf(s, chain, p)
    {
      var j, r := p / CLUSTER_DATA_SIZE, p % CLUSTER_DATA_SIZE;
      AtCluster(s, chain, j, r);
      AtCluster(s', chain, j, r);
    }
  }

  /** A patch inside the file is an overwrite of its contents. */
  lemma PatchIsOverwrite(s: Store, s': Store, chain: seq<nat>, at: nat, data: seq<byte>, size: nat)
    requires ChainPatched(s, s', chain, at, data) && at + |data| <= size <= CLUSTER_DATA_SIZE * |chain|
    ensures Contents(s', chain, size) == Overwrite(Contents(s, chain, size), at, data)
  {
    hide ByteOf, ChainOk;
  }

  /** A patch of one file keeps every file in order and the others unchanged. */
  lemma PatchKeepsFiles(s: Store, s': Store, t: seq<Slot>, chains: seq<seq<nat>>, f: nat, at: nat, data: seq<byte>)
    requires FilesOk(s, t, chains) && Disjoint(chains) && f < |t| && t[f].Used?
    requires ChainPatched(s, s', chains[f], at, data)
    ensures FilesOk(s', t, chains)
    ensures forall i :: 0 <= i < |t| && i != f ==> SameFile(s, s', chains[i])
  {
    OthersUntouched(s, s', t, chains, f, chains[f]);
  }

  // ---------- extending a chain ----------

  /** The first `n` new clusters hold the stream from byte `skip` on and are linked to their successors. */
  ghost predicate NewWritten(s: Store, more: seq<nat>, stream: seq<byte>, skip: nat, n: nat)
    requires StoreOk(s)
  {
    && n <= |more| && (forall j :: 0 <= j < |more| ==> more[j] < |s|)
    && (forall j :: 0 <= j < n ==>
          FsNextCluster(s[more[j]]) == if j + 1 < |more| then more[j + 1] else CLUSTER_OFFSET_EOF)
    && (forall j, r :: 0 <= j < n && 0 <= r < CLUSTER_DATA_SIZE && skip + CLUSTER_DATA_SIZE * j + r < |stream| ==>
          s[more[j]][r] == stream[skip + CLUSTER_DATA_SIZE * j + r])
  }

  lemma NewWrittenNext(s: Store, more: seq<nat>, stream: seq<byte>, skip: nat, n: nat, c: seq<byte>)
    requires StoreOk(s) && NewWritten(s, more, stream, skip, n) && n < |more| && NoDup(more) && |c| == CLUSTER_SIZE
    requires FsNextCluster(c) == if n + 1 < |more| then more[n + 1] else CLUSTER_OFFSET_EOF
    requires forall r :: 0 <= r < CLUSTER_DATA_SIZE && skip + CLUSTER_DATA_SIZE * n + r < |stream| ==>
        c[r] == stream[skip + CLUSTER_DATA_SIZE * n + r]
    ensures NewWritten(s[more[n] := c], more, stream, skip, n + 1)
  {}

  /** The last cluster once the start of the stream is in it and it points at the new ones. */
  ghost predicate HookedUp(old': seq<byte>, c: seq<byte>, local: nat, stream: seq<byte>, next: nat)
  {
    && |old'| == |c| == CLUSTER_SIZE && local <= CLUSTER_DATA_SIZE && FsNextCluster(c) == next
    && (forall r :: 0 <= r < local ==> c[r] == old'[r])
    && (forall r :: local <= r < CLUSTER_DATA_SIZE && r - local < |stream| ==> c[r] == stream[r - local])
  }

  /** `s'` carries the stream right after the first `size` bytes of the chain, in the chain and the new clusters. */
  ghost predicate Extended(s: Store, s': Store, chain: seq<nat>, more: seq<nat>, size: nat, stream: seq<byte>) {
    && ChainOk(s', chain + more) && SameOutside(s, s', chain + more)
    && (forall p :: 0 <= p < size ==> ByteOf(s', chain + more, p) == ByteOf(s, chain, p))
    && (forall p :: size <= p < size + |stream| ==> ByteOf(s', chain + more, p) == stream[p - size])
  }

  ghost predicate LinksTo(s: Store, c: nat, next: nat) {
    c < |s| && |s[c]| == CLUSTER_SIZE && FsNextCluster(s[c]) == next
  }

  /** The cluster after position `i` of a list. */
  function After(chain: seq<nat>, i: nat): nat {
    if i + 1 < |chain| then chain[i + 1] else CLUSTER_OFFSET_EOF
  }

  /** A list whose clusters link to one another is linked. */
  lemma LinkedBy(s: Store, chain: seq<nat>)
    requires StoreOk(s)
    requires forall i :: 0 <= i < |chain| ==> LinksTo(s, chain[i], After(chain, i))
    ensures Linked(s, chain)
  {
    hide FsNextCluster;
    forall i | 0 <= i < |chain|
      ensures chain[i] < |s|
      ensures FsNextCluster(s[chain[i]]) == if i + 1 < |chain| then chain[i + 1] else CLUSTER_OFFSET_EOF
    {
      assert LinksTo(s, chain[i], After(chain, i));
    }
  }

  /** The old links, those before the last cluster of the chain, stay. */
  lemma OldLink(s: Store, s1: Store, c: seq<byte>, chain: seq<nat>, more: seq<nat>, i: nat)
    requires ChainOk(s, chain) && SameOutside(s, s1, more) && (forall x :: x in chain ==> x !in more) && i + 1 < |chain|
    ensures chain[|chain| - 1] < |s1| && LinksTo(s1[chain[|chain| - 1] := c], chain[i], chain[i + 1])
  {
    hide FsNextCluster, ChainOk;
    NextInChain(s, chain, i);
    NextInChain(s, chain, |chain| - 1);
    NoDupOf(s, chain);
    LastDiffers(chain, i);
    assert chain[i] in chain;
  }

  lemma NoDupOf(s: Store, chain: seq<nat>)
    requires ChainOk(s, chain)
    ensures NoDup(chain) && chain != [] && StoreOk(s)
  {}

  /** The new links stay when the last cluster of the chain is written. */
  lemma NewLink(s1: Store, c: seq<byte>, last: nat, more: seq<nat>, stream: seq<byte>, skip: nat, j: nat)
    requires StoreOk(s1) && NewWritten(s1, more, stream, skip, |more|) && last < |s1| && last !in more && j < |more|
    ensures LinksTo(s1[last := c], more[j], After(more, j))
  {
    hide FsNextCluster;
    assert more[j] in more;
  }

  lemma HookUpLinks(s: Store, s1: Store, c: seq<byte>, chain: seq<nat>, more: seq<nat>, size: nat, stream: seq<byte>)
    requires ChainOk(s, chain) && NoDup(chain + more) && SameOutside(s, s1, more)
    requires NewWritten(s1, more, stream, CLUSTER_DATA_SIZE - GetLocalEofOff(size), |more|)
    requires |c| == CLUSTER_SIZE && FsNextCluster(c) == if more == [] then CLUSTER_OFFSET_EOF else more[0]
    ensures ChainOk(s1[chain[|chain| - 1] := c], chain + more)
    ensures SameOutside(s, s1[chain[|chain| - 1] := c], chain + more)
  {
    hide FsNextCluster, ChainOk, NewWritten, GetLocalEofOff, LinksTo, Linked;
    NoDupOf(s, chain);
    Apart(chain, more);
    EofOff(size);
    var last, m, skip := chain[|chain| - 1], |chain|, CLUSTER_DATA_SIZE - GetLocalEofOff(size);
    NextInChain(s, chain, m - 1);
    var s2, all := s1[last := c], chain + more;
    assert last in chain;
    assert LinksTo(s2, last, if more == [] then CLUSTER_OFFSET_EOF else more[0]) by {
      JointLink(s1, last, c, if more == [] then CLUSTER_OFFSET_EOF else more[0]);
    }
    forall i | 0 <= i < |all| ensures LinksTo(s2, all[i], After(all, i)) {
      if i < m - 1 {
        OldLink(s, s1, c, chain, more, i);
      } else if i >= m {
        NewLink(s1, c, last, more, stream, skip, i - m);
      }
    }
    JoinedChain(s2, all);
  }

  lemma JointLink(s1: Store, last: nat, c: seq<byte>, next: nat)
    requires last < |s1| && |c| == CLUSTER_SIZE && FsNextCluster(c) == next
    ensures LinksTo(s1[last := c], last, next)
  {}

  lemma JoinedChain(s: Store, all: seq<nat>)
    requires StoreOk(s) && all != [] && NoDup(all)
    requires forall i :: 0 <= i < |all| ==> LinksTo(s, all[i], After(all, i))
    ensures ChainOk(s, all)
  {
    hide LinksTo;
    LinkedBy(s, all);
  }

  /** Where byte `p` of the extended file lies, relative to the old end. */
  lemma Locate(size: nat, ext: nat, p: nat)
    requires p < size + ext
    ensures var i, r, m, local := p / CLUSTER_DATA_SIZE, p % CLUSTER_DATA_SIZE, ChainLen(size), GetLocalEofOff(size);
      && i < ChainLen(size + ext)
      && (p < size ==> i < m && (i == m - 1 ==> r < local))
      && (p >= size ==> i >= m - 1 && (i == m - 1 ==> r - local == p - size))
      && (i >= m ==> p - size == (CLUSTER_DATA_SIZE - local) + CLUSTER_DATA_SIZE * (i - m) + r)
  {
    EofOff(size);
    EofOff(size + ext);
  }

  /** One byte of the extended chain. */
  lemma HookUpByte(s: Store, s1: Store, c: seq<byte>, chain: seq<nat>, more: seq<nat>, size: nat, stream: seq<byte>,
                   p: nat)
    requires ChainOk(s, chain) && NoDup(chain + more) && SameOutside(s, s1, more) && |chain| == ChainLen(size)
    requires NewWritten(s1, more, stream, CLUSTER_DATA_SIZE - GetLocalEofOff(size), |more|)
    requires |c| == CLUSTER_SIZE && FsNextCluster(c) == if more == [] then CLUSTER_OFFSET_EOF else more[0]
    requires HookedUp(s[chain[|chain| - 1]], c, GetLocalEofOff(size), stream, FsNextCluster(c))
    requires |chain| + |more| == ChainLen(size + |stream|) && p < size + |stream|
    ensures ByteOf(s1[chain[|chain| - 1] := c], chain + more, p) == if p < size then ByteOf(s, chain, p)
        else stream[p - size]
  {
    hide HookedUp, FsNextCluster, ByteOf, NoDup, ChainLen, GetLocalEofOff;
    Apart(chain, more);
    var s2, all, m := s1[chain[|chain| - 1] := c], chain + more, |chain|;
    var i, r := p / CLUSTER_DATA_SIZE, p % CLUSTER_DATA_SIZE;
    EofOff(size);
    Locate(size, |stream|, p);
    HookUpLinks(s, s1, c, chain, more, size, stream);
    AtCluster(s2, all, i, r);
    assert chain[m - 1] in chain;
    if i < m - 1 {
      AtCluster(s, chain, i, r);
      assert chain[i] in chain;
      LastDiffers(chain, i);
    } else if i == m - 1 {
      AtCluster(s, chain, i, r);
      HookedByte(s[chain[m - 1]], c, GetLocalEofOff(size), stream, FsNextCluster(c), r);
    } else {
      assert all[i] == more[i - m] && more[i - m] in more;
    }
  }

  lemma LastDiffers(chain: seq<nat>, i: nat)
    requires NoDup(chain) && i < |chain| - 1
    ensures chain[i] != chain[|chain| - 1]
  {}

  lemma HookedByte(old': seq<byte>, c: seq<byte>, local: nat, stream: seq<byte>, next: nat, r: nat)
    requires HookedUp(old', c, local, stream, next) && r < CLUSTER_DATA_SIZE
    ensures r < local ==> c[r] == old'[r]
    ensures r >= local && r - local < |stream| ==> c[r] == stream[r - local]
  {}

  /** Writing the last cluster hooks the new ones up. */
  lemma HookUp(s: Store, s1: Store, c: seq<byte>, chain: seq<nat>, more: seq<nat>, size: nat, stream: seq<byte>)
    requires ChainOk(s, chain) && NoDup(chain + more) && SameOutside(s, s1, more) && |chain| == ChainLen(size)
    requires NewWritten(s1, more, stream, CLUSTER_DATA_SIZE - GetLocalEofOff(size), |more|)
    requires |c| == CLUSTER_SIZE && FsNextCluster(c) == if more == [] then CLUSTER_OFFSET_EOF else more[0]
    requires HookedUp(s[chain[|chain| - 1]], c, GetLocalEofOff(size), stream, FsNextCluster(c))
    requires |chain| + |more| == ChainLen(size + |stream|)
    ensures Extended(s, s1[chain[|chain| - 1] := c], chain, more, size, stream)
  {
    hide HookedUp, NewWritten, ByteOf, ChainLen;
    HookUpLinks(s, s1, c, chain, more, size, stream);
    var s2 := s1[chain[|chain| - 1] := c];
    forall p | 0 <= p < size ensures ByteOf(s2, chain + more, p) == ByteOf(s, chain, p) {
      HookUpByte(s, s1, c, chain, more, size, stream, p);
    }
    forall p | size <= p < size + |stream| ensures ByteOf(s2, chain + more, p) == stream[p - size] {
      HookUpByte(s, s1, c, chain, more, size, stream, p);
    }
  }

  /** Zeros up to `off` past the end, then `data`: what an extension appends. */
  function Stream(off: nat, data: seq<byte>): (r: seq<byte>)
    ensures |r| == off + |data|
  {
    Zeros(off) + data
  }

  /** An extension is an overwrite at or past the end of the file. */
  lemma ExtendedContents(s: Store, s': Store, chain: seq<nat>, more: seq<nat>, size: nat, off: nat, data: seq<byte>)
    requires Extended(s, s', chain, more, size, Stream(off, data))
    ensures Contents(s', chain + more, size + off + |data|) == Contents(s, chain, size) + Stream(off, data)
  {
    hide ByteOf;
  }

  /** The files of a level once file `f` is extended and its new size is recorded. */
  lemma ExtendKeepsFiles(s: Store, s': Store, t: seq<Slot>, chains: seq<seq<nat>>, f: nat, more: seq<nat>, size: nat,
                         stream: seq<byte>, e: Entry)
    requires FilesOk(s, t, chains) && Disjoint(chains) && f < |t| && t[f].Used? && size == t[f].ent.size
    requires Elems(more) !! OwnedSet(chains)
    requires Extended(s, s', chains[f], more, size, stream)
    requires e.initialCluster == t[f].ent.initialCluster && ChainLen(e.size) == |chains[f]| + |more|
    ensures FilesOk(s', t[f := Used(e)], chains[f := chains[f] + more])
    ensures Disjoint(chains[f := chains[f] + more])
    ensures forall i :: 0 <= i < |t| && i != f ==> SameFile(s, s', chains[i])
  {
    hide ByteOf, ChainLen, Extended;
    ExtendedSame(s, s', chains[f], more, size, stream);
    forall i, c | 0 <= i < |chains| && i != f && c in chains[i] ensures c !in chains[f] + more {
      OwnedHas(chains, i, c);
      assert c in more ==> c in Elems(more);
    }
    OthersUntouched(s, s', t, chains, f, chains[f] + more);
    DisjointGrows(chains, f, more);
    assert FileOk(s, chains[f], t[f].ent);
  }

  lemma ExtendedSame(s: Store, s': Store, chain: seq<nat>, more: seq<nat>, size: nat, stream: seq<byte>)
    requires Extended(s, s', chain, more, size, stream)
    ensures SameOutside(s, s', chain + more) && ChainOk(s', chain + more)
  {}

  // ---------- recording a new size ----------

  /** `mode & ~(S_ISUID | S_ISGID)`: bits 11 and 10. */
  function KillPriv(mode: nat): nat {
    mode - (mode / 1024 % 4) * 1024
  }

  lemma Pow2Of10()
    ensures Pow2(10) == 1024 && Pow2(12) == 4096
  {}

  lemma LowTwoDropped(hi: nat, mid: nat, k: nat)
    requires mid < 4
    ensures Digit(hi * 4, k) == (Digit(hi * 4 + mid, k) && k != 0 && k != 1)
  {
    assert (hi * 4 + mid) / 2 / 2 == hi && (hi * 4) / 2 / 2 == hi;
    if k >= 2 {
      assert Digit(hi * 4 + mid, k) == Digit((hi * 4 + mid) / 2, k - 1) == Digit(hi, k - 2);
      assert Digit(hi * 4, k) == Digit((hi * 4) / 2, k - 1) == Digit(hi, k - 2);
    } else if k == 1 {
      assert Digit(hi * 4, 1) == Digit((hi * 4) / 2, 0);
    }
  }

  lemma KillPrivParts(mode: nat)
    ensures var hi, mid, lo := mode / 4096, mode / 1024 % 4, mode % 1024;
      mode == (hi * 4 + mid) * 1024 + lo && KillPriv(mode) == (hi * 4) * 1024 + lo && mid < 4 && lo < 1024
  {}

  /** Of every mode exactly the two set-id bits go. */
  lemma KillPrivBits(mode: nat, k: nat)
    ensures Digit(KillPriv(mode), k) == (Digit(mode, k) && k != 10 && k != 11)
  {
    hide Pow2, KillPriv, Digit;
    var hi, mid, lo := mode / 4096, mode / 1024 % 4, mode % 1024;
    KillPrivParts(mode);
    Pow2Of10();
    DigitOfParts(hi * 4 + mid, lo, 10, k);
    DigitOfParts(hi * 4, lo, 10, k);
    if k >= 10 {
      LowTwoDropped(hi, mid, k - 10);
    }
  }

  /**
   * Slot `f` has the new size, cut to its 32-bit field; of its mode the bits 10 and 11 are dropped if asked for; name,
   * first cluster, both times, every other bit of the mode and every other slot are as before.
   */
  ghost predicate Committing(t: seq<Slot>, t': seq<Slot>, f: nat, newSize: nat, killPriv: bool) {
    && f < |t| == |t'| && t[f].Used? && t'[f].Used? && (forall i :: 0 <= i < |t| && i != f ==> t'[i] == t[i])
    && var e, e' := t[f].ent, t'[f].ent;
      && e'.name == e.name && e'.initialCluster == e.initialCluster && e'.atim == e.atim && e'.mtim == e.mtim
      && e'.size == newSize % TWO32
      && forall k: nat :: Digit(e'.mode, k) == (Digit(e.mode, k) && !(killPriv && (k == 10 || k == 11)))
  }

  /** The entry `commit_write_to_bft` leaves: the size is cut to its 32-bit field. */
  function Committed(e: Entry, newSize: nat, killPriv: bool): Entry {
    e.(size := newSize % TWO32, mode := if killPriv then KillPriv(e.mode) else e.mode)
  }

  /** Not enough clusters are free for a file to grow to the new size. */
  ghost predicate Short(marks: set<nat>, n: nat, size: nat, newSize: nat) {
    newSize > size && |marks| + ChainLen(newSize) - ChainLen(size) > n
  }

  /** Files other than `f` have the same chains and read the same. */
  ghost predicate OthersSame(s: Store, s': Store, chains: seq<seq<nat>>, chains': seq<seq<nat>>, f: nat) {
    |chains'| == |chains| && forall i :: 0 <= i < |chains| && i != f ==>
        chains'[i] == chains[i] && SameFile(s, s', chains[i])
  }

  /** File `f` now has `newSize` bytes with these contents, its entry says so, and every other file is as before. */
  ghost predicate Updated(s: Store, s': Store, t: seq<Slot>, t': seq<Slot>, chains: seq<seq<nat>>,
                          chains': seq<seq<nat>>, f: nat, newSize: nat, contents: seq<byte>, killPriv: bool) {
    && f < |t| == |chains| && t[f].Used? && t' == t[f := Used(Committed(t[f].ent, newSize, killPriv))]
    && OthersSame(s, s', chains, chains', f)
    && Contents(s', chains'[f], newSize) == contents
    && |chains'[f]| == ChainLen(newSize)
  }

  lemma CommittedMeans(t: seq<Slot>, f: nat, newSize: nat, killPriv: bool)
    requires f < |t| && t[f].Used?
    ensures Committing(t, t[f := Used(Committed(t[f].ent, newSize, killPriv))], f, newSize, killPriv)
  {
    hide KillPriv, Digit;
    var e := t[f].ent;
    forall k: nat
      ensures Digit(Committed(e, newSize, killPriv).mode, k) ==
              (Digit(e.mode, k) && !(killPriv && (k == 10 || k == 11)))
    {
      KillPrivBits(e.mode, k);
    }
  }

  /** A size that does not fit its field asks for a chain of a different length than the file has. */
  lemma TruncatedSizeIsWrong(newSize: nat)
    ensures ChainLen(newSize % TWO32) == ChainLen(newSize) <==> newSize < TWO32
  {}

  /** Once the new size is recorded the level is in order again, exactly when the size fits its field. */
  lemma CommitExtension(s: Store, s': Store, t: seq<Slot>, chains: seq<seq<nat>>, f: nat, more: seq<nat>,
                        stream: seq<byte>, off: nat, data: seq<byte>, newSize: nat, killPriv: bool)
    requires FilesOk(s, t, chains) && Disjoint(chains) && f < |t| && t[f].Used? && Elems(more) !! OwnedSet(chains)
    requires stream == Stream(off, data) && newSize == t[f].ent.size + |stream|
    requires Extended(s, s', chains[f], more, t[f].ent.size, stream) && |chains[f]| + |more| == ChainLen(newSize)
    ensures var t', chains' := t[f := Used(Committed(t[f].ent, newSize, killPriv))], chains[f := chains[f] + more];
      && Updated(s, s', t, t', chains, chains', f, newSize, Contents(s, chains[f], t[f].ent.size) + stream, killPriv)
      && Disjoint(chains')
      && (FilesOk(s', t', chains') <==> newSize < TWO32)
  {
    hide ByteOf, Extended, ChainLen, FsNextCluster;
    var e := Committed(t[f].ent, newSize, killPriv);
    var t', chains' := t[f := Used(e)], chains[f := chains[f] + more];
    TruncatedSizeIsWrong(newSize);
    ExtendedContents(s, s', chains[f], more, t[f].ent.size, off, data);
    ExtendKeepsOthers(s, s', t, chains, f, more, t[f].ent.size, stream);
    if newSize < TWO32 {
      ExtendKeepsFiles(s, s', t, chains, f, more, t[f].ent.size, stream, e);
    } else {
      assert t'[f].ent == e && |chains'[f]| != ChainLen(e.size);
    }
  }

  lemma ExtendKeepsOthers(s: Store, s': Store, t: seq<Slot>, chains: seq<seq<nat>>, f: nat, more: seq<nat>, size: nat,
                          stream: seq<byte>)
    requires FilesOk(s, t, chains) && Disjoint(chains) && f < |t| && Elems(more) !! OwnedSet(chains)
    requires Extended(s, s', chains[f], more, size, stream)
    ensures Disjoint(chains[f := chains[f] + more])
    ensures OthersSame(s, s', chains, chains[f := chains[f] + more], f)
  {
    hide ByteOf, Extended, FileOk;
    ExtendedSame(s, s', chains[f], more, size, stream);
    forall i, c | 0 <= i < |chains| && i != f && c in chains[i] ensures c !in chains[f] + more {
      OwnedHas(chains, i, c);
      assert c in more ==> c in Elems(more);
    }
    OthersUntouched(s, s', t, chains, f, chains[f] + more);
    DisjointGrows(chains, f, more);
  }

  lemma DirectoryKept(t: seq<Slot>, f: nat, e: Entry)
    requires IsDirectory(t) && f < |t| && t[f].Used? && e.name == t[f].ent.name
    ensures IsDirectory(t[f := Used(e)])
  {}

  /** Recording an unchanged size after the contents of file `f` changed in place. */
  lemma CommitInPlace(s: Store, s': Store, t: seq<Slot>, chains: seq<seq<nat>>, f: nat, contents: seq<byte>,
                      killPriv: bool)
    requires FilesOk(s', t, chains) && f < |t| && t[f].Used? && t[f].ent.size < TWO32
    requires OthersSame(s, s', chains, chains, f) && |chains| == |t|
    requires Contents(s', chains[f], t[f].ent.size) == contents
    ensures var e := t[f].ent; var t' := t[f := Used(Committed(e, e.size, killPriv))];
      FilesOk(s', t', chains) && Updated(s, s', t, t', chains, chains, f, e.size, contents, killPriv)
  {
    hide ByteOf, ChainOk, OthersSame, Contents;
  }

  /** One byte of a file after a write. */
  lemma OverwriteAt(c: seq<byte>, off: nat, data: seq<byte>)
    ensures |Overwrite(c, off, data)| == if off + |data| > |c| then off + |data| else if off > |c| then off else |c|
    ensures forall p :: 0 <= p < |Overwrite(c, off, data)| ==>
      Overwrite(c, off, data)[p] == if off <= p < off + |data| then data[p - off] else if p < |c| then c[p]
          else ZERO_BYTE
  {}

  /** Writing the overlap and then appending the rest is one write. */
  lemma OverwriteSplit(c: seq<byte>, off: nat, data: seq<byte>)
    requires off + |data| > |c|
    ensures var n := if off > |c| then 0 else |c| - off;
      n <= |data| &&
      (if n > 0 then Overwrite(c, off, data[..n]) else c) + Stream(if off > |c| then off - |c| else 0, data[n..]) ==
          Overwrite(c, off, data)
  {
    var n := if off > |c| then 0 else |c| - off;
    OverwriteAt(c, off, data);
    OverwriteAt(c, off, data[..n]);
    hide Overwrite;
    var l, r := (if n > 0 then Overwrite(c, off, data[..n]) else c) +
        Stream(if off > |c| then off - |c| else 0, data[n..]), Overwrite(c, off, data);
    assert |l| == |r|;
    forall p | 0 <= p < |l| ensures l[p] == r[p] {}
  }

  /** Two changes of the store, the first inside file `f`. */
  lemma UpdatedAfterPatch(s0: Store, s1: Store, s2: Store, t: seq<Slot>, t': seq<Slot>, chains: seq<seq<nat>>,
                          chains': seq<seq<nat>>, f: nat, newSize: nat, contents: seq<byte>, killPriv: bool)
    requires OthersSame(s0, s1, chains, chains, f)
    requires Updated(s1, s2, t, t', chains, chains', f, newSize, contents, killPriv)
    ensures Updated(s0, s2, t, t', chains, chains', f, newSize, contents, killPriv)
  {
    hide ByteOf, ChainOk, Contents;
  }

  lemma OthersSameTrans(s0: Store, s1: Store, s2: Store, chains: seq<seq<nat>>, f: nat)
    requires OthersSame(s0, s1, chains, chains, f) && FilesSame(s1, s2, chains)
    ensures OthersSame(s0, s2, chains, chains, f)
  {
    hide ByteOf, ChainOk;
  }

  lemma SameContents(s: Store, s': Store, chains: seq<seq<nat>>, f: nat, size: nat)
    requires FilesSame(s, s', chains) && f < |chains|
    ensures Contents(s', chains[f], size) == Contents(s, chains[f], size)
  {
    hide ByteOf;
    assert SameFile(s, s', chains[f]);
  }

  // ---------- cutting a chain ----------

  /** Giving cluster `k - 1` the end mark as its link cuts the chain there; the data of the kept part stays. */
  ghost predicate Cut(s: Store, s': Store, chain: seq<nat>, k: nat) {
    && 0 < k <= |chain| && ChainOk(s', chain[..k]) && SameOutside(s, s', chain)
    && forall p :: 0 <= p < CLUSTER_DATA_SIZE * k ==> ByteOf(s', chain[..k], p) == ByteOf(s, chain, p)
  }

  lemma CutNothing(s: Store, chain: seq<nat>)
    requires ChainOk(s, chain)
    ensures Cut(s, s, chain, |chain|)
  {
    assert chain[..|chain|] == chain;
  }

  lemma CutAt(s: Store, chain: seq<nat>, k: nat, c: seq<byte>)
    requires ChainOk(s, chain) && 0 < k <= |chain| && |c| == CLUSTER_SIZE && FsNextCluster(c) == CLUSTER_OFFSET_EOF
    requires c[..CLUSTER_DATA_SIZE] == s[chain[k - 1]][..CLUSTER_DATA_SIZE]
    ensures Cut(s, s[chain[k - 1] := c], chain, k)
  {
    hide FsNextCluster, ByteOf;
    var s', kept := s[chain[k - 1] := c], chain[..k];
    assert chain == kept + chain[k..];
    Apart(kept, chain[k..]);
    assert chain[k - 1] in chain;
    forall i | 0 <= i < k ensures FsNextCluster(s'[kept[i]]) == if i + 1 < k then kept[i + 1] else CLUSTER_OFFSET_EOF {
      NextInChain(s, chain, i);
      if i < k - 1 {
        LastDiffers(kept, i);
      }
    }
    assert Linked(s', kept);
    forall p | 0 <= p < CLUSTER_DATA_SIZE * k ensures ByteOf(s', kept, p) == ByteOf(s, chain, p) {
      var i, r := p / CLUSTER_DATA_SIZE, p % CLUSTER_DATA_SIZE;
      AtCluster(s, chain, i, r);
      AtCluster(s', kept, i, r);
      assert c[r] == c[..CLUSTER_DATA_SIZE][r] && s[chain[k - 1]][r] == s[chain[k - 1]][..CLUSTER_DATA_SIZE][r];
      if i < k - 1 {
        LastDiffers(kept, i);
      }
    }
  }

  /** Recording the smaller size of a file whose chain was cut accordingly leaves the level in order. */
  lemma CommitShrink(s: Store, s': Store, t: seq<Slot>, chains: seq<seq<nat>>, f: nat, newSize: nat, killPriv: bool)
    requires FilesOk(s, t, chains) && Disjoint(chains) && f < |t| && t[f].Used? && newSize <= t[f].ent.size < TWO32
    requires Cut(s, s', chains[f], ChainLen(newSize))
    ensures var t', chains' := t[f := Used(Committed(t[f].ent, newSize, killPriv))],
        chains[f := chains[f][..ChainLen(newSize)]];
      && Updated(s, s', t, t', chains, chains', f, newSize, Contents(s, chains[f], t[f].ent.size)[..newSize], killPriv)
      && FilesOk(s', t', chains') && Disjoint(chains')
  {
    hide ByteOf, KillPriv, FsNextCluster;
    var k := ChainLen(newSize);
    OwnedShrinks(chains, f, k);
    OthersUntouched(s, s', t, chains, f, chains[f]);
    assert Contents(s', chains[f][..k], newSize) == Contents(s, chains[f], t[f].ent.size)[..newSize];
  }

  /** What is marked once the clusters after the new last one are freed. */
  lemma MarksShrink(bm: seq<byte>, bm': seq<byte>, chains: seq<seq<nat>>, leaked: set<nat>, n: nat, f: nat, k: nat)
    requires MarksOk(bm, chains, leaked, n) && |bm'| == |bm| && f < |chains| && k <= |chains[f]| && Disjoint(chains)
    requires NoDup(chains[f])
    requires Marks(bm', n) == Marks(bm, n) - Elems(chains[f][k..])
    ensures MarksOk(bm', chains[f := chains[f][..k]], leaked, n)
  {
    hide Marks, Disjoint;
    OwnedShrinks(chains, f, k);
    forall c | c in chains[f][k..] ensures c in OwnedSet(chains) {
      OwnedHas(chains, f, c);
    }
  }

  // ---------- the chains are determined ----------

  lemma {:induction false} SameFrom(s: Store, a: seq<nat>, b: seq<nat>, k: nat)
    requires ChainOk(s, a) && ChainOk(s, b) && a[0] == b[0] && k < |a|
    ensures k < |b| && a[..k + 1] == b[..k + 1]
  {
    hide FsNextCluster;
    if k > 0 {
      SameFrom(s, a, b, k - 1);
      assert a[k - 1] == a[..k][k - 1] == b[..k][k - 1] == b[k - 1];
      NextInChain(s, a, k - 1);
      NextInChain(s, b, k - 1);
      assert a[..k + 1] == a[..k] + [a[k]] && b[..k + 1] == b[..k] + [b[k]];
    }
  }

  /** A chain is determined by its first cluster. */
  lemma ChainUnique(s: Store, a: seq<nat>, b: seq<nat>)
    requires ChainOk(s, a) && ChainOk(s, b) && a[0] == b[0]
    ensures a == b
  {
    SameFrom(s, a, b, |a| - 1);
    SameFrom(s, b, a, |b| - 1);
    assert a[..|a|] == a && b[..|b|] == b;
  }

  /** Store and table determine the chains of all files: they are no free choice of the proof. */
  lemma ChainsUnique(s: Store, t: seq<Slot>, a: seq<seq<nat>>, b: seq<seq<nat>>)
    requires FilesOk(s, t, a) && FilesOk(s, t, b)
    ensures a == b
  {
    hide FsNextCluster;
    forall i | 0 <= i < |t| ensures a[i] == b[i] {
      if t[i].Used? {
        ChainUnique(s, a[i], b[i]);
      }
    }
  }

  /** No choice of chains or leaked clusters makes up for a file whose first cluster is not marked. */
  lemma UnmarkedOwner(s: Store, t: seq<Slot>, bm: seq<byte>, n: nat, f: nat, chains: seq<seq<nat>>, leaked: set<nat>)
    requires f < |t| && t[f].Used? && t[f].ent.initialCluster !in Marks(bm, n)
    ensures !(FilesOk(s, t, chains) && MarksOk(bm, chains, leaked, n))
  {
    hide FsNextCluster;
    if FilesOk(s, t, chains) && MarksOk(bm, chains, leaked, n) {
      OwnedHas(chains, f, chains[f][0]);
      assert false;
    }
  }

  // ---------- cutting and growing again ----------

  /** A file that is cut and later extended reads as zeros where it was cut, whatever the clusters held before. */
  lemma CutThenGrown(c: seq<byte>, low: nat, high: nat)
    requires low <= |c| && low <= high
    ensures Resize(Resize(c, low), high) == c[..low] + Zeros(high - low)
    ensures |Resize(c, high)| == high && (high <= |c| ==> Resize(Resize(c, high), low) == Resize(c, low))
  {}

  // ---------- one change after the other ----------

  /** The contents a change left are what the level has for the file afterwards, if the size fits its field. */
  lemma UpdatedReads(s: Store, s': Store, t: seq<Slot>, t': seq<Slot>, chains: seq<seq<nat>>, chains': seq<seq<nat>>,
                     f: nat, newSize: nat, contents: seq<byte>, killPriv: bool)
    requires Updated(s, s', t, t', chains, chains', f, newSize, contents, killPriv) && newSize < TWO32
    ensures t'[f].Used? && t'[f].ent.size == newSize && Contents(s', chains'[f], t'[f].ent.size) == contents
    ensures forall i :: 0 <= i < |t| && i != f && i < |chains| && t[i].Used? ==>
      t'[i] == t[i] && Contents(s', chains'[i], t[i].ent.size) == Contents(s, chains[i], t[i].ent.size)
  {
    hide ByteOf, ChainOk, KillPriv;
    forall i | 0 <= i < |t| && i != f && i < |chains| && t[i].Used?
      ensures Contents(s', chains'[i], t[i].ent.size) == Contents(s, chains[i], t[i].ent.size)
    {
      assert SameFile(s, s', chains[i]);
    }
  }

  /** A truncation, as what the files of the level read afterwards. */
  lemma ResizedReads(s: Store, s': Store, t: seq<Slot>, t': seq<Slot>, chains: seq<seq<nat>>, chains': seq<seq<nat>>,
                     f: nat, newSize: nat)
    requires f < |t| == |chains| && t[f].Used? && newSize < TWO32
    requires if newSize == t[f].ent.size then s' == s && t' == t && chains' == chains
      else Updated(s, s', t, t', chains, chains', f, newSize, Resize(Contents(s, chains[f], t[f].ent.size), newSize),
          true)
    ensures |t'| == |chains'| == |t| && t'[f].Used? && t'[f].ent.size == newSize
    ensures Contents(s', chains'[f], newSize) == Resize(Contents(s, chains[f], t[f].ent.size), newSize)
    ensures forall i :: 0 <= i < |t| && i != f && t[i].Used? ==>
      t'[i] == t[i] && Contents(s', chains'[i], t[i].ent.size) == Contents(s, chains[i], t[i].ent.size)
  {
    hide Contents, ChainLen, Committed;
    if newSize == t[f].ent.size {
      SameSizeResize(Contents(s, chains[f], newSize), newSize);
    } else {
      UpdatedReads(s, s', t, t', chains, chains', f, newSize, Resize(Contents(s, chains[f], t[f].ent.size), newSize),
                   true);
    }
  }

  lemma SameSizeResize(c: seq<byte>, n: nat)
    requires n == |c|
    ensures Resize(c, n) == c
  {}
}
