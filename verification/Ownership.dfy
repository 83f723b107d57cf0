// Who owns which cluster while many operations of src/bsfs.c run at once.

/**
 * In every state that steps without lost writes can reach, the links of each file lead through clusters that are
 * its own, no cluster has two owners, and every owned cluster is marked.
 */
module Ownership {
  import opened Cluster
  import opened Files
  import opened Links
  import opened Interleaving

  /** All clusters that have an owner. */
  ghost function All(owned: map<Owner, seq<nat>>): set<nat> {
    set o, c | o in owned && c in owned[o] :: c
  }

  /** Lists are in range and free of repetitions, and no cluster has two owners. */
  ghost predicate OwnedOk(owned: map<Owner, seq<nat>>, n: nat) {
    && (forall o :: o in owned ==> NoDup(owned[o]))
    && (forall o, c :: o in owned && c in owned[o] ==> c < n)
    && (forall o, p, c :: o in owned && p in owned && c in owned[o] && c in owned[p] ==> o == p)
  }

  /** Exactly the owned and the leaked clusters are marked. */
  ghost predicate Agrees(marks: set<nat>, owned: map<Owner, seq<nat>>, leaked: set<nat>) {
    marks == All(owned) + leaked && leaked !! All(owned)
  }

  // ---------- changes of ownership ----------

  lemma Gain(owned: map<Owner, seq<nat>>, n: nat, o: Owner, cs: seq<nat>)
    requires OwnedOk(owned, n) && o !in owned && NoDup(cs) && Elems(cs) !! All(owned) && forall c :: c in cs ==> c < n
    ensures OwnedOk(owned[o := cs], n) && All(owned[o := cs]) == All(owned) + Elems(cs)
  {
    var after := owned[o := cs];
    forall p, c | p in owned && c in owned[p] ensures c !in cs {
      assert c in All(owned);
      assert c in cs ==> c in Elems(cs);
    }
    forall c ensures c in All(after) <==> c in All(owned) + Elems(cs) {
      if c in All(owned) {
        var p :| p in owned && c in owned[p];
        assert c in after[p];
      }
      if c in cs {
        assert c in after[o];
      }
    }
  }

  lemma Lose(owned: map<Owner, seq<nat>>, n: nat, o: Owner)
    requires OwnedOk(owned, n) && o in owned
    ensures OwnedOk(owned - {o}, n) && All(owned - {o}) == All(owned) - Elems(owned[o])
    ensures Elems(owned[o]) <= All(owned)
  {
    var after := owned - {o};
    forall c ensures c in All(after) <==> c in All(owned) - Elems(owned[o]) {
      if c in All(owned) && c !in owned[o] {
        var p :| p in owned && c in owned[p];
        assert c in after[p];
      }
    }
  }

  lemma Shorten(owned: map<Owner, seq<nat>>, n: nat, o: Owner, k: nat)
    requires OwnedOk(owned, n) && o in owned && k <= |owned[o]|
    ensures OwnedOk(owned[o := owned[o][..k]], n) && All(owned[o := owned[o][..k]]) == All(owned) - Elems(owned[o][k..])
    ensures Elems(owned[o][k..]) <= All(owned)
  {
    var kept, cut := owned[o][..k], owned[o][k..];
    assert owned[o] == kept + cut;
    Apart(kept, cut);
    Lose(owned, n, o);
    assert forall c :: c in cut ==> c in owned[o];
    assert forall c :: c in kept ==> c in owned[o];
    Gain(owned - {o}, n, o, kept);
    assert (owned - {o})[o := kept] == owned[o := kept];
  }

  /** All clusters of one owner go to another that has none yet. */
  lemma HandOver(owned: map<Owner, seq<nat>>, n: nat, o: Owner, p: Owner)
    requires OwnedOk(owned, n) && o in owned && p !in owned
    ensures OwnedOk((owned - {o})[p := owned[o]], n) && All((owned - {o})[p := owned[o]]) == All(owned)
  {
    hide All;
    Lose(owned, n, o);
    assert forall c :: c in owned[o] ==> c < n;
    Gain(owned - {o}, n, p, owned[o]);
  }

  /** The clusters of an operation are appended to those of a file. */
  lemma Append(owned: map<Owner, seq<nat>>, n: nat, o: Owner, p: Owner)
    requires OwnedOk(owned, n) && o in owned && p in owned && o != p
    ensures OwnedOk((owned - {p})[o := owned[o] + owned[p]], n)
    ensures All((owned - {p})[o := owned[o] + owned[p]]) == All(owned)
  {
    hide All;
    var both := owned[o] + owned[p];
    Joined(owned[o], owned[p]);
    Lose(owned, n, p);
    Lose(owned - {p}, n, o);
    assert forall c :: c in both ==> c < n;
    assert Elems(both) == Elems(owned[o]) + Elems(owned[p]);
    Gain(owned - {p} - {o}, n, o, both);
    assert (owned - {p} - {o})[o := both] == (owned - {p})[o := both];
  }

  // ---------- one file and the operation on it ----------

  /** The links lead from the file's first cluster through its chain, and end there unless it is being cut. */
  ghost predicate FileChain(links: seq<nat>, e: Entry, op: Op, chain: seq<nat>) {
    && chain != [] && chain[0] == e.first && e.count > 0 && Path(links, chain)
    && ((op.Freed? && op.count < e.count) || LinkAfter(links, chain) == CLUSTER_OFFSET_EOF)
  }

  /** The first `done` new clusters link to their successors. */
  ghost predicate WrittenUpTo(links: seq<nat>, more: seq<nat>, done: nat) {
    && done <= |more| && (forall j :: 0 <= j < |more| ==> more[j] < |links|)
    && (forall j :: 0 <= j < done ==> links[more[j]] == From(more, j + 1))
  }

  /** What an operation remembers fits the chain of its file; `mine` are the clusters it has allocated. */
  ghost predicate OpFits(links: seq<nat>, count: nat, op: Op, chain: seq<nat>, mine: seq<nat>) {
    match op
    case Idle => mine == [] && |chain| == count
    case Seeking(cur, left, goal) =>
      mine == [] && |chain| == count && left < Reach(count, goal) <= count &&
          cur == chain[Reach(count, goal) - 1 - left]
    case Building(last, more, done) =>
      mine == more && |chain| == count > 0 && last == chain[count - 1] && WrittenUpTo(links, more, done)
    case Collecting(k, last, cur, got) =>
      && mine == [] && |chain| == count && 0 < k && k + |got| <= count && last == chain[k - 1]
      && got == chain[k..k + |got|] && cur == From(chain, k + |got|)
    case Freed(k, last) => mine == [] && 0 < k == |chain| <= count && last == chain[k - 1]
    case Patching(c, link) => mine == [] && |chain| == count && c in chain && c < |links| && link == links[c]
    case Recording(k) => mine == [] && |chain| == k
  }

  ghost predicate SlotOk(links: seq<nat>, e: Entry, op: Op, chain: seq<nat>, mine: seq<nat>) {
    FileChain(links, e, op, chain) && OpFits(links, e.count, op, chain, mine)
  }

  /** Writing other clusters does not matter to a file. */
  lemma SlotFrame(links: seq<nat>, links': seq<nat>, e: Entry, op: Op, chain: seq<nat>, mine: seq<nat>)
    requires SlotOk(links, e, op, chain, mine) && |links'| == |links|
    requires forall c :: (c in chain || c in mine) && c < |links| ==> links'[c] == links[c]
    ensures SlotOk(links', e, op, chain, mine)
  {
    PathKept(links, links', chain);
    if op.Building? {
      forall j | 0 <= j < op.done ensures links'[op.more[j]] == From(op.more, j + 1) {
        assert op.more[j] in mine;
      }
    }
  }

  lemma BeginOk(links: seq<nat>, e: Entry, chain: seq<nat>, goal: Goal)
    requires SlotOk(links, e, Idle, chain, []) && 0 < Reach(e.count, goal) <= e.count
    ensures SlotOk(links, e, Seeking(e.first, Reach(e.count, goal) - 1, goal), chain, [])
  {}

  /** The search never runs past the end of the chain. */
  lemma SeekOk(links: seq<nat>, e: Entry, op: Op, chain: seq<nat>)
    requires SlotOk(links, e, op, chain, []) && op.Seeking? && op.left > 0 && |links| <= DISTINCT_CLUSTERS
    ensures op.cur < |links| && links[op.cur] != CLUSTER_OFFSET_EOF
    ensures SlotOk(links, e, Seeking(links[op.cur], op.left - 1, op.goal), chain, [])
  {
    var i := Reach(e.count, op.goal) - 1 - op.left;
    assert links[chain[i]] == chain[i + 1];
  }

  lemma StopOk(links: seq<nat>, e: Entry, op: Op, chain: seq<nat>, mine: seq<nat>)
    requires SlotOk(links, e, op, chain, mine)
    requires op.Seeking? || op.Collecting? || op.Patching? || op.Building?
    ensures SlotOk(links, e, Idle, chain, [])
  {}

  lemma AllocateOk(links: seq<nat>, e: Entry, op: Op, chain: seq<nat>, more: seq<nat>)
    requires SlotOk(links, e, op, chain, []) && Found(op) && op.goal == Extend
    requires forall j :: 0 <= j < |more| ==> more[j] < |links|
    ensures SlotOk(links, e, Building(op.cur, more, 0), chain, more)
  {}

  lemma WriteNewOk(links: seq<nat>, e: Entry, op: Op, chain: seq<nat>, mine: seq<nat>)
    requires SlotOk(links, e, op, chain, mine) && op.Building? && op.done < |op.more| && NoDup(mine)
    requires forall c :: c in mine ==> c !in chain
    ensures SlotOk(links[op.more[op.done] := From(op.more, op.done + 1)], e, op.(done := op.done + 1), chain, mine)
  {
    assert op.more[op.done] in mine;
    PathKept(links, links[op.more[op.done] := From(op.more, op.done + 1)], chain);
  }

  /** The write that joins the new clusters to the chain. */
  lemma HookUpOk(links: seq<nat>, e: Entry, op: Op, chain: seq<nat>, mine: seq<nat>)
    requires SlotOk(links, e, op, chain, mine) && op.Building? && op.done == |op.more| && NoDup(chain + mine)
    requires op.last < |links|
    ensures SlotOk(links[op.last := From(op.more, 0)], e, Recording(e.count + |op.more|), chain + mine, [])
  {
    var links' := links[op.last := From(op.more, 0)];
    var last := |chain| - 1;
    Apart(chain, mine);
    assert chain[last] in chain;
    forall i | 0 <= i < last ensures chain[i] != chain[last] {}
    assert Path(links', chain);
    forall j | 0 <= j < |mine| ensures links'[mine[j]] == From(mine, j + 1) {
      assert mine[j] in mine;
    }
    PathJoin(links', chain, mine);
  }

  lemma ReadLastOk(links: seq<nat>, e: Entry, op: Op, chain: seq<nat>)
    requires SlotOk(links, e, op, chain, []) && Found(op) && op.goal.CutTo? && op.cur < |links|
    ensures SlotOk(links, e, Collecting(op.goal.count, op.cur, links[op.cur], []), chain, [])
  {
    var k := op.goal.count;
    if k < |chain| {
      assert links[chain[k - 1]] == chain[k];
    }
  }

  lemma CollectOk(links: seq<nat>, e: Entry, op: Op, chain: seq<nat>)
    requires SlotOk(links, e, op, chain, []) && op.Collecting? && op.cur < |links| <= DISTINCT_CLUSTERS
    ensures SlotOk(links, e, op.(cur := links[op.cur], got := op.got + [op.cur]), chain, [])
  {
    var i := op.count + |op.got|;
    if i + 1 < |chain| {
      assert links[chain[i]] == chain[i + 1];
    }
    assert op.got + [op.cur] == chain[op.count..i + 1];
  }

  /** A walk that has reached the end mark has collected exactly the rest of the chain. */
  lemma FreeTailOk(links: seq<nat>, e: Entry, op: Op, chain: seq<nat>)
    requires SlotOk(links, e, op, chain, []) && op.Collecting? && op.cur == CLUSTER_OFFSET_EOF
    requires |links| <= DISTINCT_CLUSTERS
    ensures op.count <= |chain| && op.got == chain[op.count..]
    ensures SlotOk(links, e, Freed(op.count, op.last), chain[..op.count], [])
  {
    assert op.count + |op.got| == |chain|;
    PathPrefix(links, chain, op.count);
  }

  lemma RelinkOk(links: seq<nat>, e: Entry, op: Op, chain: seq<nat>)
    requires SlotOk(links, e, op, chain, []) && op.Freed? && NoDup(chain) && op.last < |links|
    ensures SlotOk(links[op.last := CLUSTER_OFFSET_EOF], e, Recording(op.count), chain, [])
  {
    var last := |chain| - 1;
    forall i | 0 <= i < last ensures chain[i] != chain[last] {}
  }

  /** The old links lead on through `tail`, which the file takes back. */
  lemma RelinkFailsOk(links: seq<nat>, e: Entry, op: Op, chain: seq<nat>, tail: seq<nat>)
    requires SlotOk(links, e, op, chain, []) && op.Freed? && op.count + |tail| == e.count && Path(links, tail)
    requires if tail == [] then LinkAfter(links, chain) == CLUSTER_OFFSET_EOF else LinkAfter(links, chain) == tail[0]
    requires tail != [] ==> LinkAfter(links, tail) == CLUSTER_OFFSET_EOF
    ensures SlotOk(links, e, Idle, chain + tail, [])
  {
    PathJoin(links, chain, tail);
    assert tail == [] ==> chain + tail == chain;
  }

  lemma ReadOldOk(links: seq<nat>, e: Entry, op: Op, chain: seq<nat>)
    requires SlotOk(links, e, op, chain, []) && Found(op) && op.goal.Patch? && op.cur < |links|
    ensures SlotOk(links, e, Patching(op.cur, links[op.cur]), chain, [])
  {}

  lemma RecordOk(links: seq<nat>, e: Entry, op: Op, chain: seq<nat>)
    requires SlotOk(links, e, op, chain, []) && op.Recording?
    ensures SlotOk(links, e.(count := op.count), Idle, chain, [])
  {}

  // ---------- a removed file ----------

  ghost predicate RemovalOk(links: seq<nat>, r: Removal, chain: seq<nat>) {
    WholePath(links, chain) && |r.got| <= |chain| && r.got == chain[..|r.got|] && r.cur == From(chain, |r.got|)
  }

  lemma UnboundOk(links: seq<nat>, e: Entry, chain: seq<nat>)
    requires SlotOk(links, e, Idle, chain, [])
    ensures RemovalOk(links, Removal(e.first, []), chain)
  {}

  lemma CollectRemovedOk(links: seq<nat>, r: Removal, chain: seq<nat>)
    requires RemovalOk(links, r, chain) && r.cur < |links| <= DISTINCT_CLUSTERS
    ensures RemovalOk(links, Removal(links[r.cur], r.got + [r.cur]), chain)
  {
    var i := |r.got|;
    if i + 1 < |chain| {
      assert links[chain[i]] == chain[i + 1];
    }
    assert r.got + [r.cur] == chain[..i + 1];
  }

  lemma CollectedAll(links: seq<nat>, r: Removal, chain: seq<nat>)
    requires RemovalOk(links, r, chain) && r.cur == CLUSTER_OFFSET_EOF && |links| <= DISTINCT_CLUSTERS
    ensures r.got == chain
  {
    assert |r.got| == |chain|;
  }

  // ---------- the whole state ----------

  ghost function Mine(owned: map<Owner, seq<nat>>, slot: nat): seq<nat> {
    if NewFor(slot) in owned then owned[NewFor(slot)] else []
  }

  ghost predicate OwnersOk(s: State, owned: map<Owner, seq<nat>>) {
    forall o :: o in owned <==> IsOwner(s, o)
  }

  ghost predicate SlotsOk(s: State, owned: map<Owner, seq<nat>>) {
    forall k :: k in s.files ==>
      FileIn(k) in owned && SlotOk(s.links, s.files[k], OpOf(s, k), owned[FileIn(k)], Mine(owned, k))
  }

  ghost predicate RemovalsOk(links: seq<nat>, removals: map<nat, Removal>, owned: map<Owner, seq<nat>>) {
    forall id :: id in removals ==> Removed(id) in owned && RemovalOk(links, removals[id], owned[Removed(id)])
  }

  /** A cluster being prepared for a new file; its write leaves the end mark in it. */
  ghost predicate MakerOk(links: seq<nat>, files: map<nat, Entry>, maker: Maker, owned: map<Owner, seq<nat>>) {
    && (maker != Nobody ==> maker.slot !in files && maker.c < |links|)
    && (maker.Creating? ==> Making in owned)
    && (maker != Nobody && Making in owned ==>
          owned[Making] == [maker.c] && (maker.Created? ==> links[maker.c] == CLUSTER_OFFSET_EOF))
  }

  /** Operations work on open files, and open files are in the table. */
  ghost predicate PinsOk(ops: map<nat, Op>, handles: multiset<nat>, files: map<nat, Entry>) {
    && (forall k :: k in ops ==> k in handles && ops[k] != Idle)
    && (forall k :: k in handles ==> k in files)
  }

  ghost predicate Consistent(s: State, owned: map<Owner, seq<nat>>, leaked: set<nat>) {
    && |s.links| <= DISTINCT_CLUSTERS && OwnedOk(owned, |s.links|) && Agrees(s.marks, owned, leaked)
    && OwnersOk(s, owned) && SlotsOk(s, owned) && RemovalsOk(s.links, s.removals, owned)
    && MakerOk(s.links, s.files, s.maker, owned) && PinsOk(s.ops, s.handles, s.files)
  }

  /** Some account of who owns what explains the state; the account is unique by `Determined`. */
  ghost predicate Good(s: State) {
    exists owned, leaked :: Consistent(s, owned, leaked)
  }

  lemma SlotAt(s: State, owned: map<Owner, seq<nat>>, k: nat)
    requires OwnersOk(s, owned) && SlotsOk(s, owned) && PinsOk(s.ops, s.handles, s.files)
    requires (k in s.files || k in s.ops)
    ensures k in s.files && FileIn(k) in owned
    ensures SlotOk(s.links, s.files[k], OpOf(s, k), owned[FileIn(k)], Mine(owned, k))
    ensures NewFor(k) in owned <==> OpOf(s, k).Building?
    ensures !OpOf(s, k).Building? ==> Mine(owned, k) == []
  {
    hide SlotOk;
    assert NewFor(k) in owned <==> IsOwner(s, NewFor(k));
  }

  // ---------- an account is determined by the state ----------

  lemma ListFits(owned: map<Owner, seq<nat>>, n: nat, o: Owner)
    requires OwnedOk(owned, n) && o in owned
    ensures NoDup(owned[o]) && |owned[o]| <= n
  {
    ChainFits(owned[o], n);
  }

  lemma WholeWalk(links: seq<nat>, chain: seq<nat>)
    requires WholePath(links, chain) && |chain| <= |links| <= DISTINCT_CLUSTERS
    ensures Walk(links, chain[0], |links|) == chain
  {
    WalkPath(links, chain, |links|);
  }

  lemma FileIsDetermined(s: State, owned: map<Owner, seq<nat>>, k: nat)
    requires k in s.files && FileIn(k) in owned
    requires SlotOk(s.links, s.files[k], OpOf(s, k), owned[FileIn(k)], Mine(owned, k))
    ensures owned[FileIn(k)] == Owns(s, FileIn(k))
  {
    WalkPath(s.links, owned[FileIn(k)], |owned[FileIn(k)]|);
  }

  /** Every list of the account can be read off the state. */
  lemma Determined(s: State, owned: map<Owner, seq<nat>>, leaked: set<nat>, o: Owner)
    requires Consistent(s, owned, leaked) && o in owned
    ensures IsOwner(s, o) && owned[o] == Owns(s, o)
  {
    hide Agrees, OwnedOk, SlotOk, RemovalOk, SlotsOk, Walk;
    ListFits(owned, |s.links|, o);
    assert IsOwner(s, o);
    match o
    case FileIn(k) =>
      SlotAt(s, owned, k);
      FileIsDetermined(s, owned, k);
    case NewFor(k) =>
      SlotAt(s, owned, k);
      BuildingHas(s.links, s.files[k], OpOf(s, k), owned[FileIn(k)], Mine(owned, k));
    case Removed(id) =>
      RemovedIsWalk(s.links, s.removals[id], owned[o]);
    case Making =>
  }

  lemma RemovedIsWalk(links: seq<nat>, r: Removal, chain: seq<nat>)
    requires RemovalOk(links, r, chain) && |chain| <= |links| <= DISTINCT_CLUSTERS
    ensures r.got + Walk(links, r.cur, |links|) == chain
  {
    var i := |r.got|;
    if i < |chain| {
      var rest := chain[i..];
      PathPrefix(links, chain, i);
      assert LinkAfter(links, rest) == LinkAfter(links, chain);
      WalkPath(links, rest, |links|);
      assert chain == chain[..i] + rest;
    } else {
      assert chain == chain[..i];
    }
  }

  // ---------- steps of one file ----------

  /** Nothing but slot `k`, its clusters and their owner differs between the two states. */
  ghost predicate Local(s: State, s': State, owned: map<Owner, seq<nat>>, owned': map<Owner, seq<nat>>, k: nat)
    requires FileIn(k) in owned
  {
    && s'.removals == s.removals && s'.handles == s.handles && s'.maker == s.maker && |s'.links| == |s.links|
    && (s.maker != Nobody ==> s'.marks == s.marks)
    && k in s'.files && (forall j :: j != k ==>
        (j in s'.files <==> j in s.files) &&
        (j in s.files ==> s'.files[j] == s.files[j]))
    && (forall j :: j != k ==> (j in s'.ops <==> j in s.ops) && (j in s.ops ==> s'.ops[j] == s.ops[j]))
    && (forall c :: 0 <= c < |s.links| && c !in owned[FileIn(k)] && c !in Mine(owned, k) ==> s'.links[c] == s.links[c])
    && (forall o :: o != FileIn(k) && o != NewFor(k) ==>
        (o in owned' <==> o in owned) && (o in owned ==> owned'[o] == owned[o]))
    && FileIn(k) in owned' && (NewFor(k) in owned' <==> OpOf(s', k).Building?)
  }

  lemma OthersApart(owned: map<Owner, seq<nat>>, n: nat, k: nat, o: Owner, c: nat)
    requires OwnedOk(owned, n) && FileIn(k) in owned && o in owned && c in owned[o] && o != FileIn(k) && o != NewFor(k)
    ensures c !in owned[FileIn(k)] && c !in Mine(owned, k)
  {}

  lemma OtherSlots(s: State, s': State, owned: map<Owner, seq<nat>>, owned': map<Owner, seq<nat>>, k: nat, j: nat)
    requires OwnedOk(owned, |s.links|) && SlotsOk(s, owned) && k in s.files && FileIn(k) in owned
    requires Local(s, s', owned, owned', k) && j in s.files && j != k
    ensures FileIn(j) in owned' && SlotOk(s'.links, s'.files[j], OpOf(s', j), owned'[FileIn(j)], Mine(owned', j))
  {
    hide SlotOk;
    assert owned'[FileIn(j)] == owned[FileIn(j)] && Mine(owned', j) == Mine(owned, j);
    forall c | (c in owned[FileIn(j)] || c in Mine(owned, j)) && c < |s.links| ensures s'.links[c] == s.links[c] {
      if c in owned[FileIn(j)] {
        OthersApart(owned, |s.links|, k, FileIn(j), c);
      } else {
        OthersApart(owned, |s.links|, k, NewFor(j), c);
      }
    }
    SlotFrame(s.links, s'.links, s.files[j], OpOf(s, j), owned[FileIn(j)], Mine(owned, j));
  }

  lemma OtherRemovals(s: State, s': State, owned: map<Owner, seq<nat>>, owned': map<Owner, seq<nat>>, k: nat)
    requires OwnedOk(owned, |s.links|) && RemovalsOk(s.links, s.removals, owned) && FileIn(k) in owned
    requires Local(s, s', owned, owned', k)
    ensures RemovalsOk(s'.links, s'.removals, owned')
  {
    forall id | id in s.removals
      ensures Removed(id) in owned' && RemovalOk(s'.links, s.removals[id], owned'[Removed(id)])
    {
      forall c | c in owned[Removed(id)] && c < |s.links| ensures s'.links[c] == s.links[c] {
        OthersApart(owned, |s.links|, k, Removed(id), c);
      }
      PathKept(s.links, s'.links, owned[Removed(id)]);
    }
  }

  lemma OtherMaker(s: State, s': State, owned: map<Owner, seq<nat>>, owned': map<Owner, seq<nat>>, k: nat)
    requires OwnedOk(owned, |s.links|) && MakerOk(s.links, s.files, s.maker, owned) && FileIn(k) in owned
    requires k in s.files
    requires Local(s, s', owned, owned', k)
    ensures MakerOk(s'.links, s'.files, s'.maker, owned')
  {
    if s.maker != Nobody && Making in owned {
      assert s.maker.c in owned[Making];
      OthersApart(owned, |s.links|, k, Making, s.maker.c);
    }
  }

  lemma OtherOwners(s: State, s': State, owned: map<Owner, seq<nat>>, owned': map<Owner, seq<nat>>, k: nat)
    requires OwnersOk(s, owned) && FileIn(k) in owned && k in s.files && Local(s, s', owned, owned', k)
    ensures OwnersOk(s', owned')
  {
    forall o ensures o in owned' <==> IsOwner(s', o) {
      assert o in owned <==> IsOwner(s, o);
    }
  }

  /** A step of one operation keeps the account of all others. */
  lemma LocalKeeps(s: State, s': State, owned: map<Owner, seq<nat>>, owned': map<Owner, seq<nat>>, leaked: set<nat>,
                   leaked': set<nat>, k: nat)
    requires Consistent(s, owned, leaked) && k in s.files && FileIn(k) in owned && Local(s, s', owned, owned', k)
    requires SlotOk(s'.links, s'.files[k], OpOf(s', k), owned'[FileIn(k)], Mine(owned', k))
    requires OwnedOk(owned', |s.links|) && Agrees(s'.marks, owned', leaked')
    requires k in s'.ops ==> k in s.handles && s'.ops[k] != Idle
    ensures Consistent(s', owned', leaked')
  {
    hide OwnedOk, Agrees, SlotOk;
    OtherOwners(s, s', owned, owned', k);
    OtherRemovals(s, s', owned, owned', k);
    OtherMaker(s, s', owned, owned', k);
    forall j | j in s'.files
      ensures FileIn(j) in owned' && SlotOk(s'.links, s'.files[j], OpOf(s', j), owned'[FileIn(j)], Mine(owned', j))
    {
      if j != k {
        OtherSlots(s, s', owned, owned', k, j);
      }
    }
    hide OwnersOk, RemovalsOk, MakerOk;
  }

  // ---------- every step ----------

  /** The clusters that the links still lead through after those a file being cut has kept. */
  function Tail(s: State, slot: nat): seq<nat> {
    if OpOf(s, slot).Freed? && OpOf(s, slot).last < |s.links| then Walk(s.links, s.links[OpOf(s, slot).last], |s.links|)
        else []
  }

  /** Where those links end. */
  function TailEnd(s: State, slot: nat): nat {
    var tail := Tail(s, slot);
    if tail != [] && tail[|tail| - 1] < |s.links| then s.links[tail[|tail| - 1]]
    else if OpOf(s, slot).Freed? && OpOf(s, slot).last < |s.links| then s.links[OpOf(s, slot).last] else 0
  }

  /** What a file being cut has given up is still linked as it was, and by now all of it has leaked. */
  ghost predicate Recovered(s: State, slot: nat) {
    && slot in s.files && OpOf(s, slot).Freed?
    && OpOf(s, slot).count + |Tail(s, slot)| == s.files[slot].count && NoDup(Tail(s, slot)) &&
        TailEnd(s, slot) == CLUSTER_OFFSET_EOF
    && forall c :: c in Tail(s, slot) ==> Leaked(s, c)
  }

  /** Cluster 0 has leaked and links to nothing: it can serve a recreated file. */
  ghost predicate ZeroIsSpare(s: State) {
    0 < |s.links| && s.links[0] == CLUSTER_OFFSET_EOF && Leaked(s, 0)
  }

  /**
   * What costs a file its clusters: a failed write, of a new file or of the new last cluster of one being cut; and
   * renaming a file to itself, which leaves it with cluster 0, whoever owns that.
   */
  ghost predicate Lost(s: State, step: Step) {
    match step
    case CreateEntry => s.maker.Created? && s.maker.c !in s.marks
    case RelinkFails(slot) => !Recovered(s, slot)
    case Recreate(_, _) => !ZeroIsSpare(s)
    case _ => false
  }

  /** The steps that lose track of clusters: an allocation that runs out of space, and a chain that cannot be read. */
  predicate Leaks(step: Step) {
    (step.NoSpace? && step.left != []) || step.LoseRemoved?
  }

  lemma FreshIsUnowned(s: State, owned: map<Owner, seq<nat>>, leaked: set<nat>, cs: seq<nat>)
    requires Agrees(s.marks, owned, leaked) && Fresh(s, cs)
    ensures NoDup(cs) && Elems(cs) !! All(owned) && Elems(cs) !! leaked && forall c :: c in cs ==> c < |s.links|
  {}

  lemma MineOf(s: State, owned: map<Owner, seq<nat>>, k: nat)
    requires FileIn(k) in owned && OwnedOk(owned, |s.links|)
    ensures NoDup(owned[FileIn(k)]) && NoDup(Mine(owned, k)) && NoDup(owned[FileIn(k)] + Mine(owned, k))
    ensures forall c :: c in Mine(owned, k) ==> c !in owned[FileIn(k)]
  {
    Joined(owned[FileIn(k)], Mine(owned, k));
  }

  /** One operation goes on without changing a mark, a link or an owner. */
  lemma OpChanges(s: State, k: nat, e: Entry, op: Op, owned: map<Owner, seq<nat>>, leaked: set<nat>)
    requires Consistent(s, owned, leaked) && k in s.files && k in s.handles && FileIn(k) in owned
    requires !op.Building? && !OpOf(s, k).Building? && SlotOk(s.links, e, op, owned[FileIn(k)], [])
    ensures Consistent(SetOp(s.(files := s.files[k := e]), k, op), owned, leaked)
  {
    hide OwnedOk, Agrees, SlotsOk, RemovalsOk, MakerOk, SlotOk;
    SlotAt(s, owned, k);
    LocalKeeps(s, SetOp(s.(files := s.files[k := e]), k, op), owned, owned, leaked, leaked, k);
  }

  /** The same for an operation that leaves the table alone. */
  lemma OpMoves(s: State, k: nat, op: Op, owned: map<Owner, seq<nat>>, leaked: set<nat>)
    requires Consistent(s, owned, leaked) && k in s.files && k in s.handles && FileIn(k) in owned
    requires !op.Building? && !OpOf(s, k).Building? && SlotOk(s.links, s.files[k], op, owned[FileIn(k)], [])
    ensures Consistent(SetOp(s, k, op), owned, leaked)
  {
    hide Consistent, SlotOk, SetOp;
    OpChanges(s, k, s.files[k], op, owned, leaked);
    assert s.(files := s.files[k := s.files[k]]) == s;
  }

  lemma SearchKeeps(s: State, step: Step, k: nat, owned: map<Owner, seq<nat>>, leaked: set<nat>)
    requires Consistent(s, owned, leaked) && Enabled(s, step)
    requires step == Seek(k) || (step.Begin? && step.slot == k)
    ensures Consistent(Next(s, step), owned, leaked)
  {
    hide Consistent, SlotOk, Fresh;
    AccountAt(s, k, owned, leaked);
    if step.Begin? {
      BeginOk(s.links, s.files[k], owned[FileIn(k)], step.goal);
      OpMoves(s, k, Seeking(s.files[k].first, Reach(s.files[k].count, step.goal) - 1, step.goal), owned, leaked);
    } else {
      var op := OpOf(s, k);
      SeekOk(s.links, s.files[k], op, owned[FileIn(k)]);
      OpMoves(s, k, Seeking(s.links[op.cur], op.left - 1, op.goal), owned, leaked);
    }
  }

  lemma ReadKeeps(s: State, step: Step, k: nat, owned: map<Owner, seq<nat>>, leaked: set<nat>)
    requires Consistent(s, owned, leaked) && Enabled(s, step) && step in {ReadLast(k), Collect(k), ReadOld(k)}
    ensures Consistent(Next(s, step), owned, leaked)
  {
    hide Consistent, SlotOk, Fresh;
    AccountAt(s, k, owned, leaked);
    var op := OpOf(s, k);
    match step
    case ReadLast(_) =>
      ReadLastOk(s.links, s.files[k], op, owned[FileIn(k)]);
      OpMoves(s, k, Collecting(op.goal.count, op.cur, s.links[op.cur], []), owned, leaked);
    case Collect(_) =>
      CollectOk(s.links, s.files[k], op, owned[FileIn(k)]);
      OpMoves(s, k, op.(cur := s.links[op.cur], got := op.got + [op.cur]), owned, leaked);
    case ReadOld(_) =>
      ReadOldOk(s.links, s.files[k], op, owned[FileIn(k)]);
      OpMoves(s, k, Patching(op.cur, s.links[op.cur]), owned, leaked);
  }

  lemma EndKeeps(s: State, step: Step, k: nat, owned: map<Owner, seq<nat>>, leaked: set<nat>)
    requires Consistent(s, owned, leaked) && Enabled(s, step) && step in {Fail(k), Record(k)}
    ensures Consistent(Next(s, step), owned, leaked)
  {
    hide Consistent, SlotOk, Fresh;
    AccountAt(s, k, owned, leaked);
    var op := OpOf(s, k);
    if step == Fail(k) {
      StopOk(s.links, s.files[k], op, owned[FileIn(k)], []);
      OpMoves(s, k, Idle, owned, leaked);
    } else {
      RecordOk(s.links, s.files[k], op, owned[FileIn(k)]);
      OpChanges(s, k, s.files[k].(count := op.count), Idle, owned, leaked);
    }
  }

  /** What is known of the file an operation works on. */
  lemma AccountAt(s: State, k: nat, owned: map<Owner, seq<nat>>, leaked: set<nat>)
    requires Consistent(s, owned, leaked) && (k in s.ops || k in s.handles)
    ensures k in s.files && k in s.handles && FileIn(k) in owned && |s.links| <= DISTINCT_CLUSTERS
    ensures SlotOk(s.links, s.files[k], OpOf(s, k), owned[FileIn(k)], Mine(owned, k))
    ensures NewFor(k) in owned <==> OpOf(s, k).Building?
    ensures !OpOf(s, k).Building? ==> Mine(owned, k) == []
    ensures OwnedOk(owned, |s.links|) && Agrees(s.marks, owned, leaked)
  {
    hide SlotOk;
    SlotAt(s, owned, k);
  }

  /** What an extension has at hand. */
  lemma BuildingHas(links: seq<nat>, e: Entry, op: Op, chain: seq<nat>, mine: seq<nat>)
    requires SlotOk(links, e, op, chain, mine) && op.Building?
    ensures mine == op.more && op.last in chain && op.done <= |op.more| && e.count == |chain|
  {}

  lemma CutHas(links: seq<nat>, e: Entry, op: Op, chain: seq<nat>)
    requires SlotOk(links, e, op, chain, []) && op.Freed?
    ensures chain != [] && op.last == chain[|chain| - 1] && op.last in chain && op.last < |links|
  {}

  lemma AllocateKeeps(s: State, k: nat, more: seq<nat>, owned: map<Owner, seq<nat>>, leaked: set<nat>)
    requires Consistent(s, owned, leaked) && Enabled(s, Allocate(k, more))
    ensures Consistent(Next(s, Allocate(k, more)), owned[NewFor(k) := more], leaked)
  {
    hide Consistent, OwnedOk, SlotOk, All, NoDup, Elems, Fresh;
    AccountAt(s, k, owned, leaked);
    FreshIsUnowned(s, owned, leaked, more);
    Gain(owned, |s.links|, NewFor(k), more);
    forall j | 0 <= j < |more| ensures more[j] < |s.links| {
      assert more[j] in more;
    }
    AllocateOk(s.links, s.files[k], OpOf(s, k), owned[FileIn(k)], more);
    LocalKeeps(s, Next(s, Allocate(k, more)), owned, owned[NewFor(k) := more], leaked, leaked, k);
  }

  lemma NoSpaceKeeps(s: State, k: nat, left: seq<nat>, owned: map<Owner, seq<nat>>, leaked: set<nat>)
    requires Consistent(s, owned, leaked) && Enabled(s, NoSpace(k, left))
    ensures Consistent(Next(s, NoSpace(k, left)), owned, leaked + Elems(left))
  {
    hide Consistent, OwnedOk, SlotOk, All, NoDup, Elems, Fresh;
    AccountAt(s, k, owned, leaked);
    FreshIsUnowned(s, owned, leaked, left);
    StopOk(s.links, s.files[k], OpOf(s, k), owned[FileIn(k)], []);
    LocalKeeps(s, Next(s, NoSpace(k, left)), owned, owned, leaked, leaked + Elems(left), k);
  }

  /** The step writes the link of one of these clusters. */
  ghost predicate WritesIn(s: State, step: Step, cs: seq<nat>) {
    Target(s, step).Link? && Target(s, step).at in cs
  }

  lemma WriteNewKeeps(s: State, k: nat, owned: map<Owner, seq<nat>>, leaked: set<nat>)
    requires Consistent(s, owned, leaked) && Enabled(s, WriteNew(k))
    ensures Consistent(Next(s, WriteNew(k)), owned, leaked)
    ensures NewFor(k) in owned && WritesIn(s, WriteNew(k), owned[NewFor(k)])
  {
    hide Consistent, OwnedOk, SlotOk, All, NoDup, Agrees;
    AccountAt(s, k, owned, leaked);
    MineOf(s, owned, k);
    var op := OpOf(s, k);
    BuildingHas(s.links, s.files[k], op, owned[FileIn(k)], Mine(owned, k));
    assert op.more[op.done] in op.more;
    WriteNewOk(s.links, s.files[k], op, owned[FileIn(k)], Mine(owned, k));
    LocalKeeps(s, Next(s, WriteNew(k)), owned, owned, leaked, leaked, k);
  }

  lemma GiveBackKeeps(s: State, k: nat, owned: map<Owner, seq<nat>>, leaked: set<nat>)
    requires Consistent(s, owned, leaked) && Enabled(s, GiveBack(k))
    ensures Consistent(Next(s, GiveBack(k)), owned - {NewFor(k)}, leaked)
  {
    hide Consistent, OwnedOk, SlotOk, All, NoDup, Elems;
    AccountAt(s, k, owned, leaked);
    BuildingHas(s.links, s.files[k], OpOf(s, k), owned[FileIn(k)], Mine(owned, k));
    StopOk(s.links, s.files[k], OpOf(s, k), owned[FileIn(k)], Mine(owned, k));
    Lose(owned, |s.links|, NewFor(k));
    LocalKeeps(s, Next(s, GiveBack(k)), owned, owned - {NewFor(k)}, leaked, leaked, k);
  }

  lemma HookUpKeeps(s: State, k: nat, owned: map<Owner, seq<nat>>, leaked: set<nat>)
    requires Consistent(s, owned, leaked) && Enabled(s, HookUp(k))
    ensures FileIn(k) in owned && NewFor(k) in owned && WritesIn(s, HookUp(k), owned[FileIn(k)])
    ensures Consistent(Next(s, HookUp(k)), (owned - {NewFor(k)})[FileIn(k) := owned[FileIn(k)] + owned[NewFor(k)]],
        leaked)
  {
    hide Consistent, OwnedOk, SlotOk, All, NoDup;
    AccountAt(s, k, owned, leaked);
    MineOf(s, owned, k);
    BuildingHas(s.links, s.files[k], OpOf(s, k), owned[FileIn(k)], Mine(owned, k));
    HookUpOk(s.links, s.files[k], OpOf(s, k), owned[FileIn(k)], Mine(owned, k));
    Append(owned, |s.links|, FileIn(k), NewFor(k));
    var owned' := (owned - {NewFor(k)})[FileIn(k) := owned[FileIn(k)] + owned[NewFor(k)]];
    LocalKeeps(s, Next(s, HookUp(k)), owned, owned', leaked, leaked, k);
  }

  /** The operation has collected exactly the clusters of the file after those it keeps. */
  ghost predicate CollectedTail(op: Op, owned: map<Owner, seq<nat>>, k: nat) {
    && op.Collecting? && FileIn(k) in owned && op.count <= |owned[FileIn(k)]| && op.got == owned[FileIn(k)][op.count..]
  }

  ghost function CutShort(op: Op, owned: map<Owner, seq<nat>>, k: nat): map<Owner, seq<nat>> {
    if CollectedTail(op, owned, k) then owned[FileIn(k) := owned[FileIn(k)][..op.count]] else owned
  }

  lemma FreeTailKeeps(s: State, k: nat, owned: map<Owner, seq<nat>>, leaked: set<nat>)
    requires Consistent(s, owned, leaked) && Enabled(s, FreeTail(k))
    ensures CollectedTail(OpOf(s, k), owned, k)
    ensures Consistent(Next(s, FreeTail(k)), CutShort(OpOf(s, k), owned, k), leaked)
  {
    hide Consistent, OwnedOk, SlotOk, All, NoDup, Elems;
    AccountAt(s, k, owned, leaked);
    FreeTailOk(s.links, s.files[k], OpOf(s, k), owned[FileIn(k)]);
    Shorten(owned, |s.links|, FileIn(k), OpOf(s, k).count);
    LocalKeeps(s, Next(s, FreeTail(k)), owned, CutShort(OpOf(s, k), owned, k), leaked, leaked, k);
  }

  lemma RelinkKeeps(s: State, k: nat, owned: map<Owner, seq<nat>>, leaked: set<nat>)
    requires Consistent(s, owned, leaked) && Enabled(s, Relink(k))
    ensures FileIn(k) in owned && WritesIn(s, Relink(k), owned[FileIn(k)])
    ensures Consistent(Next(s, Relink(k)), owned, leaked)
  {
    hide Consistent, OwnedOk, SlotOk, All, NoDup, Agrees;
    AccountAt(s, k, owned, leaked);
    MineOf(s, owned, k);
    CutHas(s.links, s.files[k], OpOf(s, k), owned[FileIn(k)]);
    RelinkOk(s.links, s.files[k], OpOf(s, k), owned[FileIn(k)]);
    LocalKeeps(s, Next(s, Relink(k)), owned, owned, leaked, leaked, k);
  }

  /** A cluster is written back with the link it had: nobody else has changed that link meanwhile. */
  lemma WriteBackKeeps(s: State, k: nat, owned: map<Owner, seq<nat>>, leaked: set<nat>)
    requires Consistent(s, owned, leaked) && Enabled(s, WriteBack(k))
    ensures FileIn(k) in owned && WritesIn(s, WriteBack(k), owned[FileIn(k)])
    ensures Consistent(Next(s, WriteBack(k)), owned, leaked)
  {
    hide Consistent, OwnedOk, Agrees;
    AccountAt(s, k, owned, leaked);
    var op := OpOf(s, k);
    assert s.links[op.c := op.link] == s.links;
    hide SlotOk;
    StopOk(s.links, s.files[k], op, owned[FileIn(k)], []);
    OpMoves(s, k, Idle, owned, leaked);
  }

  /** The links after a failed end mark are those of before the cut. */
  lemma TailIsPath(s: State, k: nat)
    requires OpOf(s, k).Freed? && OpOf(s, k).last < |s.links| <= DISTINCT_CLUSTERS
    ensures var tail, next := Tail(s, k), s.links[OpOf(s, k).last];
      && Path(s.links, tail) && (tail != [] ==> tail[0] == next && TailEnd(s, k) == LinkAfter(s.links, tail))
      && (tail == [] ==> TailEnd(s, k) == next)
      && (forall c :: c in tail ==> c < |s.links|)
  {
    WalkIsPath(s.links, s.links[OpOf(s, k).last], |s.links|);
  }

  lemma RecoveredKeeps(s: State, k: nat, owned: map<Owner, seq<nat>>, leaked: set<nat>)
    requires Consistent(s, owned, leaked) && Enabled(s, RelinkFails(k)) && Recovered(s, k)
    ensures FileIn(k) in owned
    ensures Consistent(Next(s, RelinkFails(k)), owned[FileIn(k) := owned[FileIn(k)] + Tail(s, k)],
        leaked - Elems(Tail(s, k)))
  {
    hide Consistent, OwnedOk, SlotOk, All, NoDup, Elems, Tail, TailEnd, Leaked, Path;
    AccountAt(s, k, owned, leaked);
    var chain, tail := owned[FileIn(k)], Tail(s, k);
    CutHas(s.links, s.files[k], OpOf(s, k), chain);
    TailIsPath(s, k);
    RelinkFailsOk(s.links, s.files[k], OpOf(s, k), chain, tail);
    TailLeaked(s, owned, leaked, tail);
    var owned' := owned[FileIn(k) := chain + tail];
    TakeBack(owned, |s.links|, FileIn(k), tail);
    LocalKeeps(s, Next(s, RelinkFails(k)), owned, owned', leaked, leaked - Elems(tail), k);
  }

  lemma TailLeaked(s: State, owned: map<Owner, seq<nat>>, leaked: set<nat>, tail: seq<nat>)
    requires Consistent(s, owned, leaked) && forall c :: c in tail ==> Leaked(s, c)
    ensures Elems(tail) <= leaked && Elems(tail) !! All(owned)
  {
    forall c | c in tail ensures c in leaked && c !in All(owned) {
      if o :| o in owned && c in owned[o] {
        Determined(s, owned, leaked, o);
      }
    }
  }

  /** An owner takes clusters that nobody owns, after its own. */
  lemma TakeBack(owned: map<Owner, seq<nat>>, n: nat, o: Owner, tail: seq<nat>)
    requires OwnedOk(owned, n) && o in owned && NoDup(tail) && Elems(tail) !! All(owned) && forall c :: c in tail ==>
        c < n
    ensures OwnedOk(owned[o := owned[o] + tail], n) && All(owned[o := owned[o] + tail]) == All(owned) + Elems(tail)
  {
    var both := owned[o] + tail;
    Lose(owned, n, o);
    assert forall c :: c in owned[o] ==> c in Elems(owned[o]);
    assert forall c :: c in tail ==> c in Elems(tail);
    Joined(owned[o], tail);
    assert Elems(both) == Elems(owned[o]) + Elems(tail);
    assert forall c :: c in both ==> c < n;
    hide All;
    Gain(owned - {o}, n, o, both);
    assert (owned - {o})[o := both] == owned[o := both];
  }

  // ---------- making and removing files ----------

  lemma AllocatesFirst(s: State, slot: nat, c: nat, owned: map<Owner, seq<nat>>, leaked: set<nat>)
    requires Consistent(s, owned, leaked) && Enabled(s, CreateAlloc(slot, c))
    ensures Consistent(Next(s, CreateAlloc(slot, c)), owned[Making := [c]], leaked)
  {
    hide OwnedOk, All, NoDup, SlotOk, RemovalOk, PinsOk;
    FreshIsUnowned(s, owned, leaked, [c]);
    assert Elems([c]) == {c};
    Gain(owned, |s.links|, Making, [c]);
    OtherAccounts(s, Next(s, CreateAlloc(slot, c)), owned, owned[Making := [c]]);
  }

  /** The account of files and removed files carries over when nothing of theirs changes. */
  lemma OtherAccounts(s: State, s': State, owned: map<Owner, seq<nat>>, owned': map<Owner, seq<nat>>)
    requires SlotsOk(s, owned) && RemovalsOk(s.links, s.removals, owned) && OwnedOk(owned, |s.links|)
    requires s'.files == s.files && s'.ops == s.ops && s'.removals == s.removals && |s'.links| == |s.links|
    requires forall o :: o != Making ==> (o in owned' <==> o in owned) && (o in owned ==> owned'[o] == owned[o])
    requires forall c :: 0 <= c < |s.links| && s'.links[c] != s.links[c] ==> Making in owned && c in owned[Making]
    ensures SlotsOk(s', owned') && RemovalsOk(s'.links, s'.removals, owned')
  {
    hide SlotOk;
    forall k | k in s.files
      ensures FileIn(k) in owned' && SlotOk(s'.links, s.files[k], OpOf(s', k), owned'[FileIn(k)], Mine(owned', k))
    {
      SlotFrame(s.links, s'.links, s.files[k], OpOf(s, k), owned[FileIn(k)], Mine(owned, k));
    }
    forall id | id in s.removals
      ensures Removed(id) in owned' && RemovalOk(s'.links, s.removals[id], owned'[Removed(id)])
    {
      PathKept(s.links, s'.links, owned[Removed(id)]);
    }
  }

  lemma WritesFirst(s: State, owned: map<Owner, seq<nat>>, leaked: set<nat>)
    requires Consistent(s, owned, leaked) && Enabled(s, CreateWrite)
    ensures Consistent(Next(s, CreateWrite), owned, leaked) && Making in owned && owned[Making] == [s.maker.c]
  {
    hide All, SlotOk, RemovalOk, PinsOk, Agrees, OwnedOk, SlotsOk, RemovalsOk;
    assert s.maker.c in owned[Making];
    OtherAccounts(s, Next(s, CreateWrite), owned, owned);
  }

  lemma GivesFirstBack(s: State, step: Step, owned: map<Owner, seq<nat>>, leaked: set<nat>)
    requires Consistent(s, owned, leaked) && Enabled(s, step) && (step == CreateWriteFails || step == CreateGiveUp)
    ensures Consistent(Next(s, step), owned - {Making}, leaked)
  {
    hide All, SlotOk, RemovalOk, PinsOk, OwnedOk, SlotsOk, RemovalsOk;
    if Making in owned {
      Lose(owned, |s.links|, Making);
      assert Elems([s.maker.c]) == {s.maker.c};
    } else {
      assert owned - {Making} == owned;
    }
    OtherAccounts(s, Next(s, step), owned, owned - {Making});
  }

  /** One owner takes over all that another had. */
  ghost function Handed(owned: map<Owner, seq<nat>>, o: Owner, p: Owner): map<Owner, seq<nat>> {
    if o in owned then (owned - {o})[p := owned[o]] else owned
  }

  lemma EntersFirstParts(s: State, owned: map<Owner, seq<nat>>)
    requires OwnersOk(s, owned) && SlotsOk(s, owned) && RemovalsOk(s.links, s.removals, owned)
    requires MakerOk(s.links, s.files, s.maker, owned)
    requires s.maker.Created? && Making in owned && s.maker.slot !in s.ops
    ensures var s', owned' := Next(s, CreateEntry), Handed(owned, Making, FileIn(s.maker.slot));
      OwnersOk(s', owned') && SlotsOk(s', owned') && RemovalsOk(s'.links, s'.removals, owned')
  {
    hide SlotOk, RemovalOk;
    var k, c, s' := s.maker.slot, s.maker.c, Next(s, CreateEntry);
    var owned' := Handed(owned, Making, FileIn(k));
    NewChainOk(s.links, c);
    assert NewFor(k) !in owned by {
      assert !IsOwner(s, NewFor(k));
    }
    forall o ensures o in owned' <==> IsOwner(s', o) {
      assert o in owned <==> IsOwner(s, o);
    }
    forall j | j in s'.files
      ensures FileIn(j) in owned' && SlotOk(s'.links, s'.files[j], OpOf(s', j), owned'[FileIn(j)], Mine(owned', j))
    {
      assert Mine(owned', j) == Mine(owned, j);
    }
  }

  lemma EntersFirst(s: State, owned: map<Owner, seq<nat>>, leaked: set<nat>)
    requires Consistent(s, owned, leaked) && Enabled(s, CreateEntry) && s.maker.c in s.marks
    ensures Consistent(Next(s, CreateEntry), Handed(owned, Making, FileIn(s.maker.slot)), leaked)
  {
    assert Making in owned && s.maker.slot !in s.ops && FileIn(s.maker.slot) !in owned by {
      hide OwnedOk, Agrees, SlotsOk, RemovalsOk;
    }
    hide All, OwnedOk, OwnersOk, SlotsOk, RemovalsOk;
    HandOver(owned, |s.links|, Making, FileIn(s.maker.slot));
    EntersFirstParts(s, owned);
  }

  lemma NewChainOk(links: seq<nat>, c: nat)
    requires c < |links| && links[c] == CLUSTER_OFFSET_EOF
    ensures SlotOk(links, Entry(c, 1), Idle, [c], [])
  {}

  lemma HandlesDoNotOwn(s: State, handles: multiset<nat>, owned: map<Owner, seq<nat>>)
    requires OwnersOk(s, owned) && SlotsOk(s, owned)
    ensures OwnersOk(s.(handles := handles), owned) && SlotsOk(s.(handles := handles), owned)
  {
    hide SlotOk;
    var s' := s.(handles := handles);
    forall o ensures IsOwner(s', o) <==> IsOwner(s, o) {}
    forall k | k in s.files ensures OpOf(s', k) == OpOf(s, k) {}
  }

  lemma PinsKeep(s: State, step: Step)
    requires PinsOk(s.ops, s.handles, s.files) && Enabled(s, step) && (step.Open? || step.Close?)
    ensures PinsOk(s.ops, Next(s, step).handles, s.files)
  {}

  lemma HandlesKeep(s: State, step: Step, owned: map<Owner, seq<nat>>, leaked: set<nat>)
    requires Consistent(s, owned, leaked) && Enabled(s, step) && (step.Open? || step.Close?)
    ensures Consistent(Next(s, step), owned, leaked)
  {
    hide OwnersOk, SlotsOk, OwnedOk, Agrees, MakerOk, RemovalsOk, PinsOk;
    PinsKeep(s, step);
    HandlesDoNotOwn(s, Next(s, step).handles, owned);
  }

  lemma HandedOwners(s: State, s': State, owned: map<Owner, seq<nat>>, o: Owner, p: Owner)
    requires OwnersOk(s, owned) && o in owned
    requires forall q :: IsOwner(s', q) <==> q == p || (q != o && IsOwner(s, q))
    ensures OwnersOk(s', Handed(owned, o, p))
  {
    hide IsOwner;
  }

  lemma UnbindParts(s: State, k: nat, id: nat, owned: map<Owner, seq<nat>>)
    requires OwnersOk(s, owned) && SlotsOk(s, owned) && RemovalsOk(s.links, s.removals, owned)
    requires Enabled(s, Unbind(k, id)) && k !in s.ops && FileIn(k) in owned
    requires RemovalOk(s.links, Removal(s.files[k].first, []), owned[FileIn(k)])
    ensures var s', owned' := Next(s, Unbind(k, id)), Handed(owned, FileIn(k), Removed(id));
      OwnersOk(s', owned') && SlotsOk(s', owned') && RemovalsOk(s'.links, s'.removals, owned')
  {
    hide SlotOk, RemovalOk, OwnersOk;
    var s', owned' := Next(s, Unbind(k, id)), Handed(owned, FileIn(k), Removed(id));
    HandedOwners(s, s', owned, FileIn(k), Removed(id));
    forall j | j in s'.files
      ensures FileIn(j) in owned' && SlotOk(s'.links, s'.files[j], OpOf(s', j), owned'[FileIn(j)], Mine(owned', j))
    {
      assert Mine(owned', j) == Mine(owned, j);
    }
  }

  lemma UnbindFacts(s: State, k: nat, id: nat, owned: map<Owner, seq<nat>>)
    requires OwnersOk(s, owned) && SlotsOk(s, owned) && PinsOk(s.ops, s.handles, s.files)
    requires k in s.files && k !in s.handles && id !in s.removals
    ensures k !in s.ops && FileIn(k) in owned && Removed(id) !in owned
    ensures SlotOk(s.links, s.files[k], Idle, owned[FileIn(k)], [])
  {
    hide SlotOk;
    SlotAt(s, owned, k);
    assert !IsOwner(s, Removed(id));
  }

  lemma UnbindKeeps(s: State, k: nat, id: nat, owned: map<Owner, seq<nat>>, leaked: set<nat>)
    requires Consistent(s, owned, leaked) && Enabled(s, Unbind(k, id))
    ensures Consistent(Next(s, Unbind(k, id)), Handed(owned, FileIn(k), Removed(id)), leaked)
  {
    hide All, OwnedOk, OwnersOk, SlotsOk, RemovalsOk, SlotOk, RemovalOk;
    UnbindFacts(s, k, id, owned);
    UnboundOk(s.links, s.files[k], owned[FileIn(k)]);
    HandOver(owned, |s.links|, FileIn(k), Removed(id));
    UnbindParts(s, k, id, owned);
  }

  /** A slot of the table gets cluster 0 as its only one. */
  function WithZero(s: State, k: nat): State {
    s.(files := s.files[k := Entry(0, 1)])
  }

  lemma Unowned(s: State, k: nat, owned: map<Owner, seq<nat>>, leaked: set<nat>)
    requires Consistent(s, owned, leaked) && k !in s.files
    ensures FileIn(k) !in owned && NewFor(k) !in owned && k !in s.ops
  {
    assert !IsOwner(s, NewFor(k)) && !IsOwner(s, FileIn(k));
  }

  lemma ZeroEnters(s: State, k: nat, owned: map<Owner, seq<nat>>, leaked: set<nat>)
    requires Consistent(s, owned, leaked) && s.maker == Nobody && k !in s.files
    requires 0 in leaked && 0 < |s.links| && s.links[0] == CLUSTER_OFFSET_EOF
    ensures Consistent(WithZero(s, k), owned[FileIn(k) := [0]], leaked - {0})
  {
    Unowned(s, k, owned, leaked);
    hide All, OwnedOk, OwnersOk, SlotsOk, RemovalsOk;
    assert Elems([0]) == {0};
    Gain(owned, |s.links|, FileIn(k), [0]);
    ZeroEntersParts(s, k, owned);
  }

  lemma ZeroEntersParts(s: State, k: nat, owned: map<Owner, seq<nat>>)
    requires OwnersOk(s, owned) && SlotsOk(s, owned) && RemovalsOk(s.links, s.removals, owned)
    requires k !in s.files && k !in s.ops && FileIn(k) !in owned && NewFor(k) !in owned
    requires 0 < |s.links| && s.links[0] == CLUSTER_OFFSET_EOF
    ensures var s', owned' := WithZero(s, k), owned[FileIn(k) := [0]];
      OwnersOk(s', owned') && SlotsOk(s', owned') && RemovalsOk(s'.links, s'.removals, owned')
  {
    hide SlotOk, RemovalOk;
    var s', owned' := WithZero(s, k), owned[FileIn(k) := [0]];
    NewChainOk(s.links, 0);
    forall o ensures o in owned' <==> IsOwner(s', o) {
      assert o in owned <==> IsOwner(s, o);
    }
    forall j | j in s'.files
      ensures FileIn(j) in owned' && SlotOk(s'.links, s'.files[j], OpOf(s', j), owned'[FileIn(j)], Mine(owned', j))
    {
      assert Mine(owned', j) == Mine(owned, j);
    }
  }

  /** What nobody owns is leaked in every account. */
  lemma LeakedIn(s: State, owned: map<Owner, seq<nat>>, leaked: set<nat>, c: nat)
    requires Consistent(s, owned, leaked) && Leaked(s, c)
    ensures c in leaked
  {
    TailLeaked(s, owned, leaked, [c]);
    assert c in Elems([c]);
  }

  lemma RecreateIs(s: State, k: nat, id: nat)
    requires Enabled(s, Recreate(k, id))
    ensures Enabled(s, Unbind(k, id)) && Next(s, Recreate(k, id)) == WithZero(Next(s, Unbind(k, id)), k)
    ensures var t := Next(s, Unbind(k, id));
      t.maker == Nobody && k !in t.files && t.links == s.links && t.marks == s.marks
  {}

  lemma RecreateKeeps(s: State, k: nat, id: nat, owned: map<Owner, seq<nat>>, leaked: set<nat>)
    requires Consistent(s, owned, leaked) && Enabled(s, Recreate(k, id)) && ZeroIsSpare(s)
    ensures Consistent(Next(s, Recreate(k, id)), Handed(owned, FileIn(k), Removed(id))[FileIn(k) := [0]], leaked - {0})
  {
    hide Consistent, Enabled, Next, Leaked, WithZero;
    RecreateIs(s, k, id);
    UnbindKeeps(s, k, id, owned, leaked);
    LeakedIn(s, owned, leaked, 0);
    ZeroEnters(Next(s, Unbind(k, id)), k, Handed(owned, FileIn(k), Removed(id)), leaked);
  }

  lemma CollectRemovedKeeps(s: State, id: nat, owned: map<Owner, seq<nat>>, leaked: set<nat>)
    requires Consistent(s, owned, leaked) && Enabled(s, CollectRemoved(id))
    ensures Consistent(Next(s, CollectRemoved(id)), owned, leaked)
  {
    hide All, SlotOk, RemovalOk, OwnedOk, Agrees, PinsOk;
    CollectRemovedOk(s.links, s.removals[id], owned[Removed(id)]);
  }

  lemma RemovedParts(s: State, s': State, owned: map<Owner, seq<nat>>, id: nat)
    requires OwnersOk(s, owned) && SlotsOk(s, owned) && RemovalsOk(s.links, s.removals, owned) && Removed(id) in owned
    requires s'.links == s.links && s'.files == s.files && s'.ops == s.ops && s'.removals == s.removals - {id}
    requires s'.maker == s.maker
    requires s.maker != Nobody ==> s'.marks == s.marks
    ensures OwnersOk(s', owned - {Removed(id)}) && SlotsOk(s', owned - {Removed(id)})
    ensures RemovalsOk(s'.links, s'.removals, owned - {Removed(id)})
  {
    hide SlotOk, RemovalOk;
    var owned' := owned - {Removed(id)};
    forall o ensures o in owned' <==> IsOwner(s', o) {
      assert o in owned <==> IsOwner(s, o);
    }
    forall j | j in s'.files
      ensures FileIn(j) in owned' && SlotOk(s'.links, s'.files[j], OpOf(s', j), owned'[FileIn(j)], Mine(owned', j))
    {
      assert Mine(owned', j) == Mine(owned, j);
    }
  }

  lemma RemovedAt(s: State, id: nat, owned: map<Owner, seq<nat>>)
    requires OwnersOk(s, owned) && RemovalsOk(s.links, s.removals, owned) && id in s.removals
    ensures Removed(id) in owned && RemovalOk(s.links, s.removals[id], owned[Removed(id)])
  {}

  lemma FreeRemovedKeeps(s: State, id: nat, owned: map<Owner, seq<nat>>, leaked: set<nat>)
    requires Consistent(s, owned, leaked) && Enabled(s, FreeRemoved(id))
    ensures Removed(id) in owned && s.removals[id].got == owned[Removed(id)]
    ensures Consistent(Next(s, FreeRemoved(id)), owned - {Removed(id)}, leaked)
  {
    hide All, OwnedOk, OwnersOk, SlotsOk, RemovalsOk, RemovalOk, PinsOk;
    RemovedAt(s, id, owned);
    Lose(owned, |s.links|, Removed(id));
    CollectedAll(s.links, s.removals[id], owned[Removed(id)]);
    RemovedParts(s, Next(s, FreeRemoved(id)), owned, id);
  }

  lemma LoseRemovedKeeps(s: State, id: nat, owned: map<Owner, seq<nat>>, leaked: set<nat>)
    requires Consistent(s, owned, leaked) && Enabled(s, LoseRemoved(id))
    ensures Removed(id) in owned
    ensures Consistent(Next(s, LoseRemoved(id)), owned - {Removed(id)}, leaked + Elems(owned[Removed(id)]))
  {
    hide All, OwnedOk, OwnersOk, SlotsOk, RemovalsOk, RemovalOk, PinsOk;
    RemovedAt(s, id, owned);
    Lose(owned, |s.links|, Removed(id));
    RemovedParts(s, Next(s, LoseRemoved(id)), owned, id);
  }

  // ---------- exactly which steps keep the account ----------

  /** The slot whose file or operation a step is about. */
  function SlotOfStep(step: Step): nat {
    match step
    case Begin(k, _) => k
    case Seek(k) => k
    case Fail(k) => k
    case Allocate(k, _) => k
    case NoSpace(k, _) => k
    case WriteNew(k) => k
    case GiveBack(k) => k
    case HookUp(k) => k
    case ReadLast(k) => k
    case Collect(k) => k
    case FreeTail(k) => k
    case Relink(k) => k
    case RelinkFails(k) => k
    case ReadOld(k) => k
    case WriteBack(k) => k
    case Record(k) => k
    case Unbind(k, _) => k
    case Recreate(k, _) => k
    case _ => 0
  }

  lemma StepKeeps(s: State, step: Step, owned: map<Owner, seq<nat>>, leaked: set<nat>)
    returns (owned': map<Owner, seq<nat>>, leaked': set<nat>)
    requires Consistent(s, owned, leaked) && Enabled(s, step) && !Lost(s, step)
    ensures Consistent(Next(s, step), owned', leaked')
    ensures !Leaks(step) ==> leaked' <= leaked
  {
    hide Consistent, Enabled, Next, Recovered, ZeroIsSpare;
    var k := SlotOfStep(step);
    owned', leaked' := owned, leaked;
    match step
    case CreateAlloc(slot, c) =>
      AllocatesFirst(s, slot, c, owned, leaked);
      owned' := owned[Making := [c]];
    case CreateWrite => WritesFirst(s, owned, leaked);
    case CreateWriteFails =>
      GivesFirstBack(s, step, owned, leaked);
      owned' := owned - {Making};
    case CreateEntry =>
      assert s.maker.Created? by {
        EntryNeedsMaker(s);
      }
      EntersFirst(s, owned, leaked);
      owned' := Handed(owned, Making, FileIn(s.maker.slot));
    case CreateGiveUp =>
      GivesFirstBack(s, step, owned, leaked);
      owned' := owned - {Making};
    case Open(_) => HandlesKeep(s, step, owned, leaked);
    case Close(_) => HandlesKeep(s, step, owned, leaked);
    case Begin(_, _) => SearchKeeps(s, step, k, owned, leaked);
    case Seek(_) => SearchKeeps(s, step, k, owned, leaked);
    case Fail(_) => EndKeeps(s, step, k, owned, leaked);
    case Allocate(_, more) =>
      AllocateKeeps(s, k, more, owned, leaked);
      owned' := owned[NewFor(k) := more];
    case NoSpace(_, left) =>
      NoSpaceKeeps(s, k, left, owned, leaked);
      leaked' := leaked + Elems(left);
    case WriteNew(_) => WriteNewKeeps(s, k, owned, leaked);
    case GiveBack(_) =>
      GiveBackKeeps(s, k, owned, leaked);
      owned' := owned - {NewFor(k)};
    case HookUp(_) =>
      HookUpKeeps(s, k, owned, leaked);
      owned' := (owned - {NewFor(k)})[FileIn(k) := owned[FileIn(k)] + owned[NewFor(k)]];
    case ReadLast(_) => ReadKeeps(s, step, k, owned, leaked);
    case Collect(_) => ReadKeeps(s, step, k, owned, leaked);
    case FreeTail(_) =>
      FreeTailKeeps(s, k, owned, leaked);
      owned' := CutShort(OpOf(s, k), owned, k);
    case Relink(_) => RelinkKeeps(s, k, owned, leaked);
    case RelinkFails(_) =>
      RecoveredKeeps(s, k, owned, leaked);
      owned', leaked' := owned[FileIn(k) := owned[FileIn(k)] + Tail(s, k)], leaked - Elems(Tail(s, k));
    case ReadOld(_) => ReadKeeps(s, step, k, owned, leaked);
    case WriteBack(_) => WriteBackKeeps(s, k, owned, leaked);
    case Record(_) => EndKeeps(s, step, k, owned, leaked);
    case Unbind(_, id) =>
      UnbindKeeps(s, k, id, owned, leaked);
      owned' := Handed(owned, FileIn(k), Removed(id));
    case Recreate(_, id) =>
      RecreateKeeps(s, k, id, owned, leaked);
      owned', leaked' := Handed(owned, FileIn(k), Removed(id))[FileIn(k) := [0]], leaked - {0};
    case CollectRemoved(id) => CollectRemovedKeeps(s, id, owned, leaked);
    case FreeRemoved(id) =>
      FreeRemovedKeeps(s, id, owned, leaked);
      owned' := owned - {Removed(id)};
    case LoseRemoved(id) =>
      LoseRemovedKeeps(s, id, owned, leaked);
      owned', leaked' := owned - {Removed(id)}, leaked + Elems(owned[Removed(id)]);
  }

  lemma EntryNeedsMaker(s: State)
    requires Enabled(s, CreateEntry)
    ensures s.maker.Created?
  {}

  /** A new file entered without its cluster: no account explains it. */
  lemma LostEntry(s: State, owned': map<Owner, seq<nat>>, leaked': set<nat>)
    requires Enabled(s, CreateEntry) && s.maker.c !in s.marks
    ensures !Consistent(Next(s, CreateEntry), owned', leaked')
  {
    if Consistent(Next(s, CreateEntry), owned', leaked') {
      FirstIsMarked(Next(s, CreateEntry), s.maker.slot, owned', leaked');
    }
  }

  lemma FirstIsMarked(s: State, k: nat, owned: map<Owner, seq<nat>>, leaked: set<nat>)
    requires Consistent(s, owned, leaked) && k in s.files
    ensures s.files[k].first in s.marks
  {
    SlotAt(s, owned, k);
    hide SlotsOk, RemovalsOk, OwnersOk, OwnedOk;
    assert s.files[k].first in owned[FileIn(k)];
    assert s.files[k].first in All(owned);
  }

  lemma SamePath(links: seq<nat>, a: seq<nat>, b: seq<nat>)
    requires a != [] && Path(links, a) && Path(links, b) && |a| <= |b| && a[0] == b[0]
    ensures b[..|a|] == a
  {
    PathPrefix(links, b, |a|);
    WalkPath(links, a, |a|);
    WalkPath(links, b[..|a|], |a|);
  }

  /** A cut chain and a whole one that start at the same cluster. */
  lemma CutAndWhole(links: seq<nat>, e: Entry, op: Op, chain: seq<nat>, whole: seq<nat>)
    requires SlotOk(links, e, op, chain, []) && op.Freed? && SlotOk(links, e, Idle, whole, [])
    ensures chain != [] && op.last == chain[|chain| - 1] < |links| && op.count == |chain| <= |whole| == e.count
    ensures whole == chain + whole[|chain|..]
    ensures Path(links, whole[|chain|..]) && WholePath(links, whole)
  {
    SamePath(links, chain, whole);
    PathPrefix(links, whole, |chain|);
  }

  /** If any account explains the state after a failed end mark, the old tail was still linked and had leaked. */
  lemma OnlyRecovered(s: State, k: nat, owned: map<Owner, seq<nat>>, leaked: set<nat>, owned': map<Owner, seq<nat>>,
                      leaked': set<nat>)
    requires Consistent(s, owned, leaked) && Enabled(s, RelinkFails(k))
    requires Consistent(Next(s, RelinkFails(k)), owned', leaked')
    ensures Recovered(s, k)
  {
    hide Consistent, OwnedOk, Agrees, All, Path, Leaked, NoDup, SlotOk, Tail, TailEnd;
    AccountAt(s, k, owned, leaked);
    StillThere(s, k, owned, leaked, owned', leaked');
    var chain, whole := owned[FileIn(k)], owned'[FileIn(k)];
    CutAndWhole(s.links, s.files[k], OpOf(s, k), chain, whole);
    var tail := whole[|chain|..];
    ListFits(owned', |s.links|, FileIn(k));
    TailIs(s, k, chain, tail);
    Apart(chain, tail);
    forall c | c in tail ensures Leaked(s, c) {
      TailHasLeaked(s, k, owned, leaked, owned', leaked', c);
    }
  }

  lemma StillThere(s: State, k: nat, owned: map<Owner, seq<nat>>, leaked: set<nat>, owned': map<Owner, seq<nat>>,
                   leaked': set<nat>)
    requires Consistent(s, owned, leaked) && Enabled(s, RelinkFails(k))
    requires Consistent(Next(s, RelinkFails(k)), owned', leaked')
    ensures k in s.files && FileIn(k) in owned' && SlotOk(s.links, s.files[k], Idle, owned'[FileIn(k)], [])
    ensures OwnedOk(owned', |s.links|) && Agrees(s.marks, owned', leaked')
  {
    hide SlotOk;
    SlotAt(s, owned, k);
    SlotAt(Next(s, RelinkFails(k)), owned', k);
  }

  lemma TailIs(s: State, k: nat, chain: seq<nat>, tail: seq<nat>)
    requires OpOf(s, k).Freed? && |s.links| <= DISTINCT_CLUSTERS && chain != []
    requires OpOf(s, k).last == chain[|chain| - 1] < |s.links|
    requires Path(s.links, chain + tail) && Path(s.links, tail)
    requires LinkAfter(s.links, chain + tail) == CLUSTER_OFFSET_EOF
    requires |tail| <= |s.links|
    ensures Tail(s, k) == tail && TailEnd(s, k) == CLUSTER_OFFSET_EOF
  {
    var whole, last := chain + tail, |chain| - 1;
    if tail == [] {
      assert whole == chain;
    } else {
      assert whole[last] == chain[last] && whole[last + 1] == tail[0];
      assert LinkAfter(s.links, tail) == LinkAfter(s.links, whole);
      WalkPath(s.links, tail, |s.links|);
    }
  }

  lemma OthersOwnTheSame(s: State, k: nat, o: Owner)
    requires OpOf(s, k).Freed? && IsOwner(s, o) && o != FileIn(k)
    ensures var s' := SetOp(s, k, Idle); IsOwner(s', o) && Owns(s', o) == Owns(s, o)
  {
    hide Walk;
  }

  lemma TailHasLeaked(s: State, k: nat, owned: map<Owner, seq<nat>>, leaked: set<nat>, owned': map<Owner, seq<nat>>,
                      leaked': set<nat>, c: nat)
    requires Consistent(s, owned, leaked) && Enabled(s, RelinkFails(k))
    requires Consistent(Next(s, RelinkFails(k)), owned', leaked')
    requires FileIn(k) in owned && FileIn(k) in owned' && c in owned'[FileIn(k)] && c !in owned[FileIn(k)]
    ensures Leaked(s, c)
  {
    hide Consistent, OwnedOk, Owns;
    var s' := Next(s, RelinkFails(k));
    StillThere(s, k, owned, leaked, owned', leaked');
    assert c in All(owned');
    forall o | IsOwner(s, o) ensures c !in Owns(s, o) {
      HasAccount(s, owned, leaked, o);
      Determined(s, owned, leaked, o);
      if o != FileIn(k) {
        OthersOwnTheSame(s, k, o);
        HasAccount(s', owned', leaked', o);
        Determined(s', owned', leaked', o);
        OneOwner(owned', |s.links|, o, FileIn(k), c);
      }
    }
  }

  lemma HasAccount(s: State, owned: map<Owner, seq<nat>>, leaked: set<nat>, o: Owner)
    requires Consistent(s, owned, leaked) && IsOwner(s, o)
    ensures o in owned
  {}

  lemma OneOwner(owned: map<Owner, seq<nat>>, n: nat, o: Owner, p: Owner, c: nat)
    requires OwnedOk(owned, n) && o in owned && p in owned && c in owned[p] && o != p
    ensures c !in owned[o]
  {}

  /** Nothing else is owned differently for the entry of cluster 0. */
  lemma ZeroEntersOnly(t: State, k: nat, o: Owner)
    requires IsOwner(t, o) && k !in t.files && k !in t.ops
    ensures IsOwner(WithZero(t, k), o) && Owns(WithZero(t, k), o) == Owns(t, o)
  {
    hide Walk;
  }

  /** What the account of a state with a recreated file says of its cluster. */
  lemma ZeroAt(t: State, k: nat, owned': map<Owner, seq<nat>>, leaked': set<nat>)
    requires Consistent(WithZero(t, k), owned', leaked') && k !in t.ops
    ensures 0 < |t.links| && t.links[0] == CLUSTER_OFFSET_EOF && 0 in t.marks
    ensures FileIn(k) in owned' && 0 in owned'[FileIn(k)] && OwnedOk(owned', |t.links|)
  {
    SlotAt(WithZero(t, k), owned', k);
    FirstIsMarked(WithZero(t, k), k, owned', leaked');
    assert owned'[FileIn(k)] == [0];
  }

  lemma ZeroIsNotOwned(t: State, k: nat, owned: map<Owner, seq<nat>>, leaked: set<nat>, owned': map<Owner, seq<nat>>,
                       leaked': set<nat>, o: Owner)
    requires Consistent(t, owned, leaked) && Consistent(WithZero(t, k), owned', leaked')
    requires k !in t.files && k !in t.ops && o in owned
    ensures 0 !in owned[o]
  {
    hide Consistent, OwnedOk, Owns, WithZero;
    ZeroAt(t, k, owned', leaked');
    Determined(t, owned, leaked, o);
    ZeroEntersOnly(t, k, o);
    HasAccount(WithZero(t, k), owned', leaked', o);
    Determined(WithZero(t, k), owned', leaked', o);
    OneOwner(owned', |t.links|, o, FileIn(k), 0);
  }

  lemma NoOperation(s: State, k: nat, owned: map<Owner, seq<nat>>, leaked: set<nat>)
    requires Consistent(s, owned, leaked) && k !in s.handles
    ensures k !in s.ops
  {}

  lemma HandedAt(owned: map<Owner, seq<nat>>, o: Owner, p: Owner, q: Owner)
    requires o in owned && q in owned && p !in owned
    ensures var r := if q == o then p else q; r in Handed(owned, o, p) && Handed(owned, o, p)[r] == owned[q]
  {}

  lemma NewRemoval(s: State, id: nat, owned: map<Owner, seq<nat>>, leaked: set<nat>)
    requires Consistent(s, owned, leaked) && id !in s.removals
    ensures Removed(id) !in owned
  {
    assert !IsOwner(s, Removed(id));
  }

  lemma HasFile(s: State, k: nat, owned: map<Owner, seq<nat>>, leaked: set<nat>)
    requires Consistent(s, owned, leaked) && k in s.files
    ensures FileIn(k) in owned
  {}

  lemma UnbindNeeds(s: State, k: nat, id: nat)
    requires Enabled(s, Unbind(k, id))
    ensures k in s.files && k !in s.handles && id !in s.removals && Next(s, Unbind(k, id)).ops == s.ops
  {}

  /** If any account explains the state after a file was renamed to itself, cluster 0 was spare. */
  lemma OnlySpare(s: State, k: nat, id: nat, owned: map<Owner, seq<nat>>, leaked: set<nat>,
                  owned': map<Owner, seq<nat>>, leaked': set<nat>)
    requires Consistent(s, owned, leaked) && Enabled(s, Recreate(k, id))
    requires Consistent(Next(s, Recreate(k, id)), owned', leaked')
    ensures ZeroIsSpare(s)
  {
    hide Consistent, Enabled, Next, WithZero, Owns, IsOwner, Handed;
    RecreateIs(s, k, id);
    UnbindNeeds(s, k, id);
    NoOperation(s, k, owned, leaked);
    HasFile(s, k, owned, leaked);
    NewRemoval(s, id, owned, leaked);
    var t, handed := Next(s, Unbind(k, id)), Handed(owned, FileIn(k), Removed(id));
    UnbindKeeps(s, k, id, owned, leaked);
    ZeroAt(t, k, owned', leaked');
    forall o | IsOwner(s, o) ensures 0 !in Owns(s, o) {
      HasAccount(s, owned, leaked, o);
      Determined(s, owned, leaked, o);
      HandedAt(owned, FileIn(k), Removed(id), o);
      ZeroIsNotOwned(t, k, handed, leaked, owned', leaked', if o == FileIn(k) then Removed(id) else o);
    }
  }

  /** A step keeps links, owners and bitmap in agreement exactly when it costs no file its clusters. */
  lemma StepKeepsExactly(s: State, step: Step)
    requires Good(s) && Enabled(s, step)
    ensures Good(Next(s, step)) <==> !Lost(s, step)
  {
    hide Consistent, Enabled, Next, Lost;
    var owned, leaked :| Consistent(s, owned, leaked);
    if !Lost(s, step) {
      var owned', leaked' := StepKeeps(s, step, owned, leaked);
    } else {
      forall owned', leaked' ensures !Consistent(Next(s, step), owned', leaked') {
        LostBreaks(s, step, owned, leaked, owned', leaked');
      }
    }
  }

  lemma LostBreaks(s: State, step: Step, owned: map<Owner, seq<nat>>, leaked: set<nat>, owned': map<Owner, seq<nat>>,
                   leaked': set<nat>)
    requires Consistent(s, owned, leaked) && Enabled(s, step) && Lost(s, step)
    ensures !Consistent(Next(s, step), owned', leaked')
  {
    hide Consistent, Enabled, Next, Recovered, ZeroIsSpare;
    match step
    case CreateEntry => LostEntry(s, owned', leaked');
    case RelinkFails(k) =>
      if Consistent(Next(s, step), owned', leaked') {
        OnlyRecovered(s, k, owned, leaked, owned', leaked');
      }
    case Recreate(k, id) =>
      if Consistent(Next(s, step), owned', leaked') {
        OnlySpare(s, k, id, owned, leaked, owned', leaked');
      }
    case _ =>
  }

  // ---------- what an operation writes and frees ----------

  /** No step writes a cluster that its own file, or its own new clusters, do not include. */
  lemma WritesOnlyOwn(s: State, step: Step)
    requires Good(s) && Enabled(s, step) && Target(s, step).Link?
    ensures IsOwner(s, Actor(step)) && Target(s, step).at in Owns(s, Actor(step))
  {
    hide Consistent, Enabled, Next, Owns;
    var owned, leaked :| Consistent(s, owned, leaked);
    match step
    case CreateWrite =>
      WritesFirst(s, owned, leaked);
      Determined(s, owned, leaked, Making);
    case WriteNew(k) =>
      WriteNewKeeps(s, k, owned, leaked);
      Determined(s, owned, leaked, NewFor(k));
    case HookUp(k) =>
      HookUpKeeps(s, k, owned, leaked);
      Determined(s, owned, leaked, FileIn(k));
    case Relink(k) =>
      RelinkKeeps(s, k, owned, leaked);
      Determined(s, owned, leaked, FileIn(k));
    case WriteBack(k) =>
      WriteBackKeeps(s, k, owned, leaked);
      Determined(s, owned, leaked, FileIn(k));
    case _ =>
  }

  /** What a cut has collected are the clusters of the file after those it keeps. */
  ghost predicate GotTheRest(s: State, k: nat) {
    && OpOf(s, k).Collecting? && IsOwner(s, FileIn(k)) && OpOf(s, k).count <= |Owns(s, FileIn(k))|
    && OpOf(s, k).got == Owns(s, FileIn(k))[OpOf(s, k).count..]
  }

  /** A walk along the links frees exactly the clusters of its holder: those after the kept ones. */
  lemma CutFreesExactly(s: State, k: nat)
    requires Good(s) && Enabled(s, FreeTail(k))
    ensures GotTheRest(s, k)
  {
    hide Consistent, Enabled, Next, Owns;
    var owned, leaked :| Consistent(s, owned, leaked);
    FreeTailKeeps(s, k, owned, leaked);
    Determined(s, owned, leaked, FileIn(k));
  }

  /** And all clusters of a removed file. */
  lemma RemovalFreesExactly(s: State, id: nat)
    requires Good(s) && Enabled(s, FreeRemoved(id))
    ensures IsOwner(s, Removed(id)) && s.removals[id].got == Owns(s, Removed(id))
  {
    hide Consistent, Enabled, Next, Owns;
    var owned, leaked :| Consistent(s, owned, leaked);
    FreeRemovedKeeps(s, id, owned, leaked);
    Determined(s, owned, leaked, Removed(id));
  }

  // ---------- what changes hands ----------

  /** After the step `to` owns the clusters `cs`, and exactly those in `freed` are no longer marked. */
  ghost predicate Gives(s: State, step: Step, to: Owner, cs: seq<nat>, freed: set<nat>)
    requires Enabled(s, step)
  {
    var s' := Next(s, step);
    IsOwner(s', to) && Owns(s', to) == cs && s'.marks == s.marks - freed
  }

  lemma OwnsAfter(s: State, step: Step, owned: map<Owner, seq<nat>>, leaked: set<nat>, to: Owner)
    requires Enabled(s, step) && Consistent(Next(s, step), owned, leaked) && to in owned
    ensures IsOwner(Next(s, step), to) && Owns(Next(s, step), to) == owned[to]
  {
    hide Consistent, Owns;
    Determined(Next(s, step), owned, leaked, to);
  }

  lemma MarksAfter(s: State, k: nat)
    ensures Enabled(s, HookUp(k)) ==> Next(s, HookUp(k)).marks == s.marks && s.ops[k].Building?
    ensures Enabled(s, FreeTail(k)) ==> Next(s, FreeTail(k)).marks == s.marks - Elems(OpOf(s, k).got)
  {
    hide Fresh;
  }

  /** Hooking up an extension gives the file the new clusters, behind its own. */
  lemma ExtensionGives(s: State, k: nat)
    requires Good(s) && Enabled(s, HookUp(k))
    ensures IsOwner(s, FileIn(k)) && IsOwner(s, NewFor(k))
    ensures Gives(s, HookUp(k), FileIn(k), Owns(s, FileIn(k)) + Owns(s, NewFor(k)), {})
  {
    MarksAfter(s, k);
    hide Consistent, Enabled, Next, Owns, OpOf;
    var owned, leaked :| Consistent(s, owned, leaked);
    HookUpKeeps(s, k, owned, leaked);
    Determined(s, owned, leaked, FileIn(k));
    Determined(s, owned, leaked, NewFor(k));
    OwnsAfter(s, HookUp(k), (owned - {NewFor(k)})[FileIn(k) := owned[FileIn(k)] + owned[NewFor(k)]], leaked, FileIn(k));
  }

  /** Cutting leaves the file its first clusters and frees all others. */
  lemma CutLeaves(s: State, k: nat)
    requires Good(s) && Enabled(s, FreeTail(k))
    ensures GotTheRest(s, k)
    ensures Gives(s, FreeTail(k), FileIn(k), Owns(s, FileIn(k))[..OpOf(s, k).count],
                  Elems(Owns(s, FileIn(k))[OpOf(s, k).count..]))
  {
    MarksAfter(s, k);
    hide Consistent, Enabled, Next, Owns, OpOf;
    CutFreesExactly(s, k);
    var owned, leaked :| Consistent(s, owned, leaked);
    FreeTailKeeps(s, k, owned, leaked);
    Determined(s, owned, leaked, FileIn(k));
    OwnsAfter(s, FreeTail(k), CutShort(OpOf(s, k), owned, k), leaked, FileIn(k));
  }

  lemma CreateMarks(s: State)
    requires Enabled(s, CreateEntry)
    ensures s.maker.Created? && Next(s, CreateEntry).marks == s.marks
  {}

  /** A new file has the cluster made for it. */
  lemma CreationGives(s: State)
    requires Good(s) && Enabled(s, CreateEntry) && !Lost(s, CreateEntry)
    ensures s.maker.Created? && Gives(s, CreateEntry, FileIn(s.maker.slot), [s.maker.c], {})
  {
    CreateMarks(s);
    assert s.maker.c in s.marks;
    hide Consistent, Enabled, Next, Owns, Lost;
    var owned, leaked :| Consistent(s, owned, leaked);
    MakerHas(s, owned, leaked);
    EntersFirst(s, owned, leaked);
    OwnsAfter(s, CreateEntry, Handed(owned, Making, FileIn(s.maker.slot)), leaked, FileIn(s.maker.slot));
  }

  lemma MakerHas(s: State, owned: map<Owner, seq<nat>>, leaked: set<nat>)
    requires Consistent(s, owned, leaked) && s.maker != Nobody && s.maker.c in s.marks
    ensures Making in owned && owned[Making] == [s.maker.c]
  {
    hide SlotsOk, RemovalsOk, OwnedOk, Agrees, PinsOk;
    assert IsOwner(s, Making);
  }

  lemma UnbindMarks(s: State, k: nat, id: nat)
    requires Enabled(s, Unbind(k, id))
    ensures Next(s, Unbind(k, id)).marks == s.marks
  {}

  /** A file that leaves the table leaves its clusters, all of them and still marked, to its removal. */
  lemma RemovalGets(s: State, k: nat, id: nat)
    requires Good(s) && Enabled(s, Unbind(k, id))
    ensures IsOwner(s, FileIn(k)) && Gives(s, Unbind(k, id), Removed(id), Owns(s, FileIn(k)), {})
  {
    hide Consistent, Enabled, Next, Owns, Handed, IsOwner;
    UnbindMarks(s, k, id);
    UnbindNeeds(s, k, id);
    var owned, leaked :| Consistent(s, owned, leaked);
    HasFile(s, k, owned, leaked);
    NewRemoval(s, id, owned, leaked);
    HandedAt(owned, FileIn(k), Removed(id), FileIn(k));
    UnbindKeeps(s, k, id, owned, leaked);
    Determined(s, owned, leaked, FileIn(k));
    OwnsAfter(s, Unbind(k, id), Handed(owned, FileIn(k), Removed(id)), leaked, Removed(id));
  }

  // ---------- whole runs ----------

  /** A run, by any number of callers, in which no write gets lost. */
  ghost predicate Lossless(s: State, steps: seq<Step>)
    requires IsRun(s, steps)
    decreases |steps|
  {
    steps != [] ==> !Lost(s, steps[0]) && Lossless(Next(s, steps[0]), steps[1..])
  }

  lemma {:induction false} RunKeeps(s: State, steps: seq<Step>)
    requires Good(s) && IsRun(s, steps) && Lossless(s, steps)
    ensures Good(Run(s, steps)) && |Run(s, steps).links| == |s.links|
    decreases |steps|
  {
    hide Good, Next, Enabled, Lost;
    if steps != [] {
      StepKeepsExactly(s, steps[0]);
      SameSize(s, steps[0]);
      RunKeeps(Next(s, steps[0]), steps[1..]);
    }
  }

  lemma SameSize(s: State, step: Step)
    requires Enabled(s, step)
    ensures |Next(s, step).links| == |s.links|
  {
    hide Elems;
  }

  lemma EmptyIsGood(links: seq<nat>)
    requires |links| <= DISTINCT_CLUSTERS
    ensures Consistent(Empty(links), map[], {})
  {}

  /**
   * In every interleaving without lost writes: whatever belongs to a file or an operation, as read off the links,
   * is in range and marked and has one owner and one place.
   */
  lemma OwnershipSafety(links: seq<nat>, steps: seq<Step>, o: Owner, i: nat, p: Owner, j: nat)
    requires |links| <= DISTINCT_CLUSTERS && IsRun(Empty(links), steps) && Lossless(Empty(links), steps)
    requires var s := Run(Empty(links), steps);
      IsOwner(s, o) && i < |Owns(s, o)| && IsOwner(s, p) && j < |Owns(s, p)|
    ensures var s := Run(Empty(links), steps);
      && Owns(s, o)[i] < |links| && Owns(s, o)[i] in s.marks
      && (Owns(s, o)[i] == Owns(s, p)[j] ==> o == p && i == j)
  {
    hide Run, IsRun, Lossless, Owns;
    EmptyIsGood(links);
    RunKeeps(Empty(links), steps);
    OwnedApart(Run(Empty(links), steps), o, i, p, j);
  }

  lemma OwnedApart(s: State, o: Owner, i: nat, p: Owner, j: nat)
    requires Good(s) && IsOwner(s, o) && i < |Owns(s, o)| && IsOwner(s, p) && j < |Owns(s, p)|
    ensures Owns(s, o)[i] < |s.links| && Owns(s, o)[i] in s.marks
    ensures Owns(s, o)[i] == Owns(s, p)[j] ==> o == p && i == j
  {
    hide Consistent, Owns;
    var owned, leaked :| Consistent(s, owned, leaked);
    HasAccount(s, owned, leaked, o);
    HasAccount(s, owned, leaked, p);
    Determined(s, owned, leaked, o);
    Determined(s, owned, leaked, p);
    assert owned[o][i] in owned[o] && owned[p][j] in owned[p];
    Placed(s, owned, leaked, o, i, p, j);
  }

  lemma Placed(s: State, owned: map<Owner, seq<nat>>, leaked: set<nat>, o: Owner, i: nat, p: Owner, j: nat)
    requires Consistent(s, owned, leaked) && o in owned && i < |owned[o]| && p in owned && j < |owned[p]|
    ensures owned[o][i] < |s.links| && owned[o][i] in s.marks
    ensures owned[o][i] == owned[p][j] ==> o == p && i == j
  {
    hide OwnersOk, SlotsOk, RemovalsOk, MakerOk, PinsOk;
    assert owned[o][i] in owned[o] && owned[p][j] in owned[p];
    assert owned[o][i] in All(owned);
  }

  /**
   * In every such state the links from a file's first cluster lead through exactly its own clusters and end in the
   * end mark, except while the file is being cut: then they lead through those it keeps first.
   */
  lemma LinksFollowOwners(links: seq<nat>, steps: seq<Step>, k: nat)
    requires |links| <= DISTINCT_CLUSTERS && IsRun(Empty(links), steps) && Lossless(Empty(links), steps)
    requires k in Run(Empty(links), steps).files
    ensures var s := Run(Empty(links), steps); var chain := Owns(s, FileIn(k));
      && |chain| == Kept(s, k) > 0 && chain[0] == s.files[k].first && NoDup(chain) && Path(s.links, chain)
      && (!OpOf(s, k).Freed? ==> WholePath(s.links, chain) && Walk(s.links, s.files[k].first, |links|) == chain)
      && (k !in s.ops ==> |chain| == s.files[k].count)
  {
    hide Run, IsRun, Lossless;
    EmptyIsGood(links);
    RunKeeps(Empty(links), steps);
    FileIsWalk(Run(Empty(links), steps), k);
  }

  lemma FileIsWalk(s: State, k: nat)
    requires Good(s) && k in s.files
    ensures var chain := Owns(s, FileIn(k));
      && |chain| == Kept(s, k) > 0 && chain[0] == s.files[k].first && NoDup(chain) && Path(s.links, chain)
      && (!OpOf(s, k).Freed? ==> WholePath(s.links, chain) && Walk(s.links, s.files[k].first, |s.links|) == chain)
  {
    var owned, leaked :| Consistent(s, owned, leaked);
    SlotAt(s, owned, k);
    Determined(s, owned, leaked, FileIn(k));
    hide OwnersOk, SlotsOk, RemovalsOk, MakerOk, PinsOk, Agrees;
    ListFits(owned, |s.links|, FileIn(k));
    if !OpOf(s, k).Freed? {
      WholeWalk(s.links, owned[FileIn(k)]);
    }
  }

  lemma {:induction false} NothingLost(s: State, steps: seq<Step>, owned: map<Owner, seq<nat>>)
    returns (after: map<Owner, seq<nat>>)
    requires Consistent(s, owned, {}) && IsRun(s, steps) && Lossless(s, steps) && forall i :: 0 <= i < |steps| ==>
        !Leaks(steps[i])
    ensures Consistent(Run(s, steps), after, {})
    decreases |steps|
  {
    hide Consistent, Next, Enabled, Lost;
    if steps == [] {
      return owned;
    }
    assert !Leaks(steps[0]);
    var owned', leaked' := StepKeeps(s, steps[0], owned, {});
    assert leaked' == {};
    assert forall i :: 0 <= i < |steps[1..]| ==> steps[1..][i] == steps[i + 1];
    after := NothingLost(Next(s, steps[0]), steps[1..], owned');
  }

  /** Without failed allocations and unreadable chains every marked cluster has an owner. */
  lemma NothingLeaks(links: seq<nat>, steps: seq<Step>, c: nat)
    requires |links| <= DISTINCT_CLUSTERS && IsRun(Empty(links), steps) && Lossless(Empty(links), steps)
    requires (forall i :: 0 <= i < |steps| ==> !Leaks(steps[i])) && c in Run(Empty(links), steps).marks
    ensures exists o :: IsOwner(Run(Empty(links), steps), o) && c in Owns(Run(Empty(links), steps), o)
  {
    hide Run, IsRun, Lossless, Consistent, Owns, Leaks;
    var s := Run(Empty(links), steps);
    EmptyIsGood(links);
    var owned := NothingLost(Empty(links), steps, map[]);
    var o := OwnerOf(s, owned, c);
    Determined(s, owned, {}, o);
  }

  lemma OwnerOf(s: State, owned: map<Owner, seq<nat>>, c: nat) returns (o: Owner)
    requires Consistent(s, owned, {}) && c in s.marks
    ensures o in owned && c in owned[o]
  {
    hide OwnersOk, SlotsOk, RemovalsOk, MakerOk, PinsOk, OwnedOk;
    assert c in All(owned);
    o :| o in owned && c in owned[o];
  }

  predicate StartsAt(s: State, k: nat, c: nat) {
    k in s.files && s.files[k].first == c
  }

  /** After a file has lost its first cluster, another one can be given the very same cluster, and both write it. */
  lemma LostClusterIsShared(s: State, other: nat)
    requires Enabled(s, CreateEntry) && Lost(s, CreateEntry) && s.maker.c < |s.links| && other !in s.files
    requires other != s.maker.slot
    ensures var steps := [CreateEntry, CreateAlloc(other, s.maker.c), CreateWrite, CreateEntry];
      IsRun(s, steps) && StartsAt(Run(s, steps), s.maker.slot, s.maker.c) && StartsAt(Run(s, steps), other, s.maker.c)
  {
    var s1 := Next(s, CreateEntry);
    var s2 := Next(s1, CreateAlloc(other, s.maker.c));
    var s3 := Next(s2, CreateWrite);
    var s4 := Next(s3, CreateEntry);
    RunOfFour(s, s1, s2, s3, s4, CreateEntry, CreateAlloc(other, s.maker.c), CreateWrite, CreateEntry);
  }

  lemma RunOfFour(s: State, s1: State, s2: State, s3: State, s4: State, a: Step, b: Step, c: Step, d: Step)
    requires Enabled(s, a) && s1 == Next(s, a) && Enabled(s1, b) && s2 == Next(s1, b)
    requires Enabled(s2, c) && s3 == Next(s2, c) && Enabled(s3, d) && s4 == Next(s3, d)
    ensures IsRun(s, [a, b, c, d]) && Run(s, [a, b, c, d]) == s4
  {
    hide Enabled, Next;
    assert [d][1..] == [] && [c, d][1..] == [d] && [b, c, d][1..] == [c, d] && [a, b, c, d][1..] == [b, c, d];
    assert IsRun(s4, []) && Run(s4, []) == s4;
    assert IsRun(s3, [d]) && Run(s3, [d]) == s4;
    assert IsRun(s2, [c, d]) && Run(s2, [c, d]) == s4;
    assert IsRun(s1, [b, c, d]) && Run(s1, [b, c, d]) == s4;
  }
}
