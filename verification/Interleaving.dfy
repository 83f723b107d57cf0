// Operations of src/bsfs.c on the clusters of one level, interleaved: a machine of critical sections and
// cluster accesses.

/**
 * Every step is one read or write of a cluster, or one critical section of the metadata lock. The state is what
 * the threads share (bitmap, links, table, handles) and what each operation remembers between two steps. A cluster
 * is represented by its link. The links of clusters never written are arbitrary.
 */
module Interleaving {
  import opened Cluster
  import opened Files
  import opened Links

  /** A used slot of the table: the first cluster, and how many clusters its size asks for. */
  datatype Entry = Entry(first: nat, count: nat)

  /** Why an operation looks for a cluster: to append, to cut after so many clusters, or to overwrite data in one. */
  datatype Goal = Extend | CutTo(count: nat) | Patch(index: nat)

  /** An operation on an open file; it holds the lock of the file. */
  datatype Op =
    | Idle
    | Seeking(cur: nat, left: nat, goal: Goal)                    // find_cluster: so many links still to follow
    | Building(last: nat, more: seq<nat>, done: nat)              // bs_do_write_extend: new clusters, some written
    | Collecting(count: nat, last: nat, cur: nat, got: seq<nat>)  // bsfs_ftruncate: collecting what to give up
    | Freed(count: nat, last: nat)                                // bsfs_ftruncate: freed, end mark not yet written
    | Patching(c: nat, link: nat)                                 // do_rw_op: a cluster read, to be written back
    | Recording(count: nat)                                       // commit_write_to_bft is next

  /** `dealloc_cluster_chain` of a file that has left the table. */
  datatype Removal = Removal(cur: nat, got: seq<nat>)

  /** `bsfs_mknod`, which keeps the metadata lock from its allocation to the end. */
  datatype Maker = Nobody | Creating(slot: nat, c: nat) | Created(slot: nat, c: nat)

  datatype State = State(
    marks: set<nat>,               // the bitmap
    links: seq<nat>,               // the link in every cluster
    files: map<nat, Entry>,        // the table, by slot
    ops: map<nat, Op>,             // operations on open files, by the slot whose lock they hold
    removals: map<nat, Removal>,
    handles: multiset<nat>,        // slots, by the handles on them
    maker: Maker)

  datatype Step =
    | CreateAlloc(slot: nat, c: nat)
    | CreateWrite
    | CreateWriteFails                     // the cluster is given back, and the call goes on
    | CreateEntry
    | CreateGiveUp                         // the name is too long
    | Open(slot: nat)
    | Close(slot: nat)
    | Begin(slot: nat, goal: Goal)         // get_size_and_initial_cluster
    | Seek(slot: nat)
    | Fail(slot: nat)                      // a cluster access fails before anything has changed
    | Allocate(slot: nat, more: seq<nat>)  // alloc_clusters
    | NoSpace(slot: nat, left: seq<nat>)   // alloc_clusters failing, with what its rollback leaves marked
    | WriteNew(slot: nat)
    | GiveBack(slot: nat)                  // a cluster access has failed: dealloc_clusters
    | HookUp(slot: nat)
    | ReadLast(slot: nat)
    | Collect(slot: nat)
    | FreeTail(slot: nat)
    | Relink(slot: nat)
    | RelinkFails(slot: nat)
    | ReadOld(slot: nat)
    | WriteBack(slot: nat)
    | Record(slot: nat)
    | Unbind(slot: nat, id: nat)           // do_unlink_metadata in bsfs_unlink and bsfs_rename
    | Recreate(slot: nat, id: nat)         // bsfs_rename of a file to itself: unlinked, then renamed
    | CollectRemoved(id: nat)
    | FreeRemoved(id: nat)
    | LoseRemoved(id: nat)                 // a cluster of the chain cannot be read

  function OpOf(s: State, slot: nat): Op {
    if slot in s.ops then s.ops[slot] else Idle
  }

  function SetOp(s: State, slot: nat, op: Op): State {
    s.(ops := if op == Idle then s.ops - {slot} else s.ops[slot := op])
  }

  /** Distinct clusters that are free. */
  ghost predicate Fresh(s: State, cs: seq<nat>) {
    NoDup(cs) && forall i :: 0 <= i < |cs| ==> cs[i] < |s.links| && cs[i] !in s.marks
  }

  /** How many clusters of the file a search passes, the one it looks for included. */
  function Reach(count: nat, goal: Goal): nat {
    match goal
    case Extend => count
    case CutTo(k) => k
    case Patch(i) => i + 1
  }

  /** The cluster a step writes, and the link it puts there. */
  datatype Access = Nothing | Link(at: nat, to: nat)

  function Target(s: State, step: Step): Access {
    match step
    case CreateWrite => if s.maker.Creating? then Link(s.maker.c, CLUSTER_OFFSET_EOF) else Nothing
    case WriteNew(slot) =>
      var op := OpOf(s, slot);
      if op.Building? && op.done < |op.more| then Link(op.more[op.done], From(op.more, op.done + 1)) else Nothing
    case HookUp(slot) => if OpOf(s, slot).Building? then Link(OpOf(s, slot).last, From(OpOf(s, slot).more, 0))
        else Nothing
    case Relink(slot) => if OpOf(s, slot).Freed? then Link(OpOf(s, slot).last, CLUSTER_OFFSET_EOF) else Nothing
    case WriteBack(slot) => if OpOf(s, slot).Patching? then Link(OpOf(s, slot).c, OpOf(s, slot).link) else Nothing
    case _ => Nothing
  }

  /** A found cluster, for the given purpose. */
  predicate Found(op: Op) {
    op.Seeking? && op.left == 0
  }

  ghost predicate Enabled(s: State, step: Step) {
    (Target(s, step).Link? ==> Target(s, step).at < |s.links|) &&
    match step
    case CreateAlloc(slot, c) => s.maker == Nobody && slot !in s.files && Fresh(s, [c])
    case CreateWrite => s.maker.Creating?
    case CreateWriteFails => s.maker.Creating?
    case CreateEntry => s.maker.Created?
    case CreateGiveUp => s.maker.Created?
    case Open(slot) => s.maker == Nobody && slot in s.files
    case Close(slot) => s.handles[slot] > if slot in s.ops then 1 else 0
    case Begin(slot, goal) =>
      && s.maker == Nobody && slot in s.handles && slot in s.files && slot !in s.ops
      && 0 < Reach(s.files[slot].count, goal) <= s.files[slot].count
    case Seek(slot) => OpOf(s, slot).Seeking? && OpOf(s, slot).left > 0 && OpOf(s, slot).cur < |s.links|
    case Fail(slot) => OpOf(s, slot).Seeking? || OpOf(s, slot).Collecting? || OpOf(s, slot).Patching?
    case Allocate(slot, more) => s.maker == Nobody && Found(OpOf(s, slot)) && OpOf(s, slot).goal == Extend &&
        Fresh(s, more)
    case NoSpace(slot, left) =>
      s.maker == Nobody && Found(OpOf(s, slot)) && OpOf(s, slot).goal == Extend && Fresh(s, left) && |left| <= 1
    case WriteNew(slot) => OpOf(s, slot).Building? && OpOf(s, slot).done < |OpOf(s, slot).more|
    case GiveBack(slot) => s.maker == Nobody && OpOf(s, slot).Building?
    case HookUp(slot) => OpOf(s, slot).Building? && OpOf(s, slot).done == |OpOf(s, slot).more| && slot in s.files
    case ReadLast(slot) => Found(OpOf(s, slot)) && OpOf(s, slot).goal.CutTo? && OpOf(s, slot).cur < |s.links|
    case Collect(slot) => OpOf(s, slot).Collecting? && OpOf(s, slot).cur < |s.links|
    case FreeTail(slot) => s.maker == Nobody && OpOf(s, slot).Collecting? && OpOf(s, slot).cur == CLUSTER_OFFSET_EOF
    case Relink(slot) => OpOf(s, slot).Freed?
    case RelinkFails(slot) => OpOf(s, slot).Freed?
    case ReadOld(slot) => Found(OpOf(s, slot)) && OpOf(s, slot).goal.Patch? && OpOf(s, slot).cur < |s.links|
    case WriteBack(slot) => OpOf(s, slot).Patching?
    case Record(slot) => s.maker == Nobody && OpOf(s, slot).Recording? && slot in s.files
    case Unbind(slot, id) => s.maker == Nobody && slot !in s.handles && slot in s.files && id !in s.removals
    case Recreate(slot, id) => s.maker == Nobody && slot !in s.handles && slot in s.files && id !in s.removals
    case CollectRemoved(id) => id in s.removals && s.removals[id].cur < |s.links|
    case FreeRemoved(id) => s.maker == Nobody && id in s.removals && s.removals[id].cur == CLUSTER_OFFSET_EOF
    case LoseRemoved(id) => id in s.removals
  }

  /** The state after the cluster access of a step. */
  function Written(s: State, step: Step): State
    requires Target(s, step).Link? ==> Target(s, step).at < |s.links|
  {
    match Target(s, step)
    case Nothing => s
    case Link(at, to) => s.(links := s.links[at := to])
  }

  ghost function Next(s: State, step: Step): State
    requires Enabled(s, step)
  {
    var w := Written(s, step);
    match step
    case CreateAlloc(slot, c) => w.(marks := s.marks + {c}, maker := Creating(slot, c))
    case CreateWrite => w.(maker := Created(s.maker.slot, s.maker.c))
    case CreateWriteFails => w.(marks := s.marks - {s.maker.c}, maker := Created(s.maker.slot, s.maker.c))
    case CreateEntry => w.(files := s.files[s.maker.slot := Entry(s.maker.c, 1)], maker := Nobody)
    case CreateGiveUp => w.(marks := s.marks - {s.maker.c}, maker := Nobody)
    case Open(slot) => w.(handles := s.handles + multiset{slot})
    case Close(slot) => w.(handles := s.handles - multiset{slot})
    case Begin(slot, goal) => SetOp(w, slot, Seeking(s.files[slot].first, Reach(s.files[slot].count, goal) - 1, goal))
    case Seek(slot) =>
      var op := OpOf(s, slot);
      var next := s.links[op.cur];
      SetOp(w, slot, if next == CLUSTER_OFFSET_EOF then Idle else Seeking(next, op.left - 1, op.goal))
    case Fail(slot) => SetOp(w, slot, Idle)
    case Allocate(slot, more) => SetOp(w.(marks := s.marks + Elems(more)), slot, Building(OpOf(s, slot).cur, more, 0))
    case NoSpace(slot, left) => SetOp(w.(marks := s.marks + Elems(left)), slot, Idle)
    case WriteNew(slot) => SetOp(w, slot, OpOf(s, slot).(done := OpOf(s, slot).done + 1))
    case GiveBack(slot) => SetOp(w.(marks := s.marks - Elems(OpOf(s, slot).more)), slot, Idle)
    case HookUp(slot) => SetOp(w, slot, Recording(s.files[slot].count + |OpOf(s, slot).more|))
    case ReadLast(slot) =>
      var op := OpOf(s, slot);
      SetOp(w, slot, Collecting(op.goal.count, op.cur, s.links[op.cur], []))
    case Collect(slot) =>
      var op := OpOf(s, slot);
      SetOp(w, slot, op.(cur := s.links[op.cur], got := op.got + [op.cur]))
    case FreeTail(slot) => SetOp(w.(marks := s.marks - Elems(OpOf(s, slot).got)), slot,
        Freed(OpOf(s, slot).count, OpOf(s, slot).last))
    case Relink(slot) => SetOp(w, slot, Recording(OpOf(s, slot).count))
    case RelinkFails(slot) => SetOp(w, slot, Idle)
    case ReadOld(slot) => SetOp(w, slot, Patching(OpOf(s, slot).cur, s.links[OpOf(s, slot).cur]))
    case WriteBack(slot) => SetOp(w, slot, Idle)
    case Record(slot) => SetOp(w.(files := s.files[slot := s.files[slot].(count := OpOf(s, slot).count)]), slot, Idle)
    case Unbind(slot, id) => w.(files := s.files - {slot},
        removals := s.removals[id := Removal(s.files[slot].first, [])])
    case Recreate(slot, id) => w.(files := s.files[slot := Entry(0, 1)],
        removals := s.removals[id := Removal(s.files[slot].first, [])])
    case CollectRemoved(id) =>
      var r := s.removals[id];
      w.(removals := s.removals[id := Removal(s.links[r.cur], r.got + [r.cur])])
    case FreeRemoved(id) => w.(marks := s.marks - Elems(s.removals[id].got), removals := s.removals - {id})
    case LoseRemoved(id) => w.(removals := s.removals - {id})
  }

  // ---------- who owns what ----------

  datatype Owner = FileIn(slot: nat) | NewFor(slot: nat) | Removed(id: nat) | Making

  predicate IsOwner(s: State, o: Owner) {
    match o
    case FileIn(slot) => slot in s.files
    case NewFor(slot) => slot in s.ops && s.ops[slot].Building?
    case Removed(id) => id in s.removals
    case Making => s.maker != Nobody && s.maker.c in s.marks
  }

  /** How many clusters the links of a file lead through that are its own. */
  function Kept(s: State, slot: nat): nat
    requires slot in s.files
  {
    match OpOf(s, slot)
    case Freed(count, _) => count
    case Recording(count) => count
    case _ => s.files[slot].count
  }

  /** The clusters of an owner, read off the links wherever no operation remembers them. */
  function Owns(s: State, o: Owner): seq<nat>
    requires IsOwner(s, o)
  {
    match o
    case FileIn(slot) => Walk(s.links, s.files[slot].first, Kept(s, slot))
    case NewFor(slot) => s.ops[slot].more
    case Removed(id) => s.removals[id].got + Walk(s.links, s.removals[id].cur, |s.links|)
    case Making => [s.maker.c]
  }

  /** The marked clusters that have no owner. */
  ghost predicate Leaked(s: State, c: nat) {
    c in s.marks && forall o :: IsOwner(s, o) ==> c !in Owns(s, o)
  }

  /** Who writes: a file, the new clusters for one, or the maker. */
  function Actor(step: Step): Owner {
    match step
    case WriteNew(slot) => NewFor(slot)
    case HookUp(slot) => FileIn(slot)
    case Relink(slot) => FileIn(slot)
    case WriteBack(slot) => FileIn(slot)
    case _ => Making
  }

  // ---------- runs ----------

  ghost predicate IsRun(s: State, steps: seq<Step>)
    decreases |steps|
  {
    steps == [] || (Enabled(s, steps[0]) && IsRun(Next(s, steps[0]), steps[1..]))
  }

  ghost function Run(s: State, steps: seq<Step>): State
    requires IsRun(s, steps)
    decreases |steps|
  {
    if steps == [] then s else Run(Next(s, steps[0]), steps[1..])
  }

  /** A level with no files and nothing under way, whatever its clusters hold. */
  function Empty(links: seq<nat>): State {
    State({}, links, map[], map[], map[], multiset{}, Nobody)
  }
}
