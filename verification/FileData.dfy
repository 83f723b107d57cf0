// The bytes of files while many operations of src/bsfs.c run at once.

/** Adds the data of clusters to the machine of `Interleaving`: every cluster write may put any data there. */
module FileData {
  import opened BitUtil
  import opened Files
  import opened Links
  import opened Interleaving
  import opened Ownership

  /** The data of all clusters after a step that writes `data` if it writes at all. */
  function DataNext(s: State, step: Step, area: seq<seq<byte>>, data: seq<byte>): (r: seq<seq<byte>>)
    ensures |r| == |area|
  {
    match Target(s, step)
    case Nothing => area
    case Link(at, _) => if at < |area| then area[at := data] else area
  }

  /** The data of all clusters after a run whose steps write the given data. */
  ghost function DataAfter(s: State, steps: seq<Step>, area: seq<seq<byte>>, data: seq<seq<byte>>): seq<seq<byte>>
    requires IsRun(s, steps) && |data| == |steps|
    ensures |DataAfter(s, steps, area, data)| == |area|
    decreases |steps|
  {
    if steps == [] then area
    else DataAfter(Next(s, steps[0]), steps[1..], DataNext(s, steps[0], area, data[0]), data[1..])
  }

  /**
   * The steps by which the file in a slot itself changes. All others leave it alone: opening and closing it,
   * reading it, and building new clusters for it that are not hooked up yet.
   */
  predicate Alters(step: Step, k: nat) {
    step in {HookUp(k), FreeTail(k), Relink(k), RelinkFails(k), WriteBack(k), Record(k)} ||
    (step.Unbind? && step.slot == k) || (step.Recreate? && step.slot == k)
  }

  /** A walk sees only the links of the clusters it passes. */
  lemma {:induction false} WalkKept(links: seq<nat>, links': seq<nat>, c: nat, n: nat)
    requires |links'| == |links| && forall x :: x in Walk(links, c, n) && x < |links| ==> links'[x] == links[x]
    ensures Walk(links', c, n) == Walk(links, c, n)
    decreases n
  {
    if n > 0 && c < |links| {
      assert Walk(links, c, n)[0] == c;
      forall x | x in Walk(links, links[c], n - 1) ensures x in Walk(links, c, n) {}
      WalkKept(links, links', links[c], n - 1);
    }
  }

  /** The maker works on a slot that is not in use. */
  lemma MakerApart(s: State, k: nat)
    requires Good(s) && k in s.files && s.maker != Nobody
    ensures s.maker.slot != k
  {
    hide OwnedOk, Agrees, OwnersOk, SlotsOk, RemovalsOk, PinsOk;
  }

  /** The access of a step changes nothing but links. */
  lemma OnlyLinks(s: State, step: Step)
    requires Target(s, step).Link? ==> Target(s, step).at < |s.links|
    ensures Written(s, step) == s.(links := Written(s, step).links)
  {
    hide Target;
  }

  /** The steps of an operation on an open file. */
  predicate OnOp(step: Step) {
    step.Begin? || step.Seek? || step.Fail? || step.Allocate? || step.NoSpace? || step.WriteNew? || step.GiveBack? ||
    step.HookUp? || step.ReadLast? || step.Collect? || step.FreeTail? || step.Relink? || step.RelinkFails? ||
    step.ReadOld? || step.WriteBack? || step.Record?
  }

  lemma OpsStay(s: State, step: Step, k: nat)
    requires Enabled(s, step) && !OnOp(step)
    ensures Next(s, step).ops == s.ops && OpOf(Next(s, step), k) == OpOf(s, k)
  {
    OnlyLinks(s, step);
    hide Fresh, Written, Target, Reach, From, Elems, SetOp;
  }

  lemma OtherOpsIn(s: State, step: Step, k: nat)
    requires Enabled(s, step) && OnOp(step) && SlotOfStep(step) != k
    ensures k in Next(s, step).ops <==> k in s.ops
    ensures k in s.ops ==> Next(s, step).ops[k] == s.ops[k]
  {
    hide Fresh, Written, Target, Reach, From, Elems, OpOf, Found;
    OnlyLinks(s, step);
  }

  lemma OtherOpsStay(s: State, step: Step, k: nat)
    requires Enabled(s, step) && OnOp(step) && SlotOfStep(step) != k
    ensures OpOf(Next(s, step), k) == OpOf(s, k)
  {
    hide Next, Enabled, OnOp, SlotOfStep;
    OtherOpsIn(s, step, k);
  }

  lemma OpHere(s: State, step: Step, k: nat)
    requires Enabled(s, step) && OnOp(step) && !Alters(step, k) && SlotOfStep(step) == k
    ensures var op, op' := OpOf(s, k), OpOf(Next(s, step), k);
      op' == op || (!op.Freed? && !op.Recording? && !op'.Freed? && !op'.Recording?)
  {
    OnlyLinks(s, step);
    hide Fresh, Written, Target, Reach, From, Elems;
  }

  predicate OnTable(step: Step) {
    step.CreateEntry? || step.Record? || step.Unbind? || step.Recreate?
  }

  lemma TableStays(s: State, step: Step)
    requires Enabled(s, step) && !OnTable(step)
    ensures Next(s, step).files == s.files
  {
    OnlyLinks(s, step);
    hide Fresh, Written, Target, Reach, From, Elems, OpOf;
  }

  lemma EntryStays(s: State, step: Step, k: nat)
    requires Enabled(s, step) && k in s.files && !Alters(step, k) && (s.maker != Nobody ==> s.maker.slot != k)
    ensures k in Next(s, step).files && Next(s, step).files[k] == s.files[k]
  {
    if OnTable(step) {
      OnlyLinks(s, step);
      hide Fresh, Written, Target, Reach, From, Elems, OpOf;
    } else {
      hide Next, Enabled, Alters;
      TableStays(s, step);
    }
  }

  /** Only an operation that has cut or extended its file keeps another number of clusters than its entry says. */
  lemma KeptSame(s: State, s': State, k: nat)
    requires k in s.files && k in s'.files && s'.files[k] == s.files[k]
    requires var op, op' := OpOf(s, k), OpOf(s', k);
      op' == op || (!op.Freed? && !op.Recording? && !op'.Freed? && !op'.Recording?)
    ensures Kept(s', k) == Kept(s, k)
  {}

  lemma KeptStays(s: State, step: Step, k: nat)
    requires Enabled(s, step) && k in s.files && !Alters(step, k) && k in Next(s, step).files
    requires Next(s, step).files[k] == s.files[k]
    ensures Kept(Next(s, step), k) == Kept(s, k)
  {
    hide Next, Enabled, Alters, OpOf, SlotOfStep, Kept, OnOp;
    if !OnOp(step) {
      OpsStay(s, step, k);
    } else if SlotOfStep(step) == k {
      OpHere(s, step, k);
    } else {
      OtherOpsStay(s, step, k);
    }
    KeptSame(s, Next(s, step), k);
  }

  lemma WrittenLinks(s: State, step: Step)
    requires Enabled(s, step)
    ensures Next(s, step).links == Written(s, step).links
  {
    hide Fresh, Written, Target, Reach, From, Elems;
  }

  lemma LinksNext(s: State, step: Step)
    requires Enabled(s, step)
    ensures |Next(s, step).links| == |s.links|
    ensures forall c :: 0 <= c < |s.links| && Next(s, step).links[c] != s.links[c] ==>
      Target(s, step).Link? && Target(s, step).at == c
  {
    WrittenLinks(s, step);
    hide Next, Target;
  }

  /** A step that does not alter a file writes none of its clusters. */
  lemma WritesElsewhere(s: State, step: Step, k: nat)
    requires Good(s) && Enabled(s, step) && k in s.files && !Alters(step, k) && Target(s, step).Link?
    ensures Target(s, step).at !in Owns(s, FileIn(k))
  {
    hide Good, Enabled, Owns, IsOwner;
    WritesOnlyOwn(s, step);
    assert Actor(step) != FileIn(k);
    assert IsOwner(s, FileIn(k)) by {
      FileOwns(s, k);
    }
    var at := Target(s, step).at;
    if at in Owns(s, FileIn(k)) {
      var i: nat :| i < |Owns(s, Actor(step))| && Owns(s, Actor(step))[i] == at;
      var j: nat :| j < |Owns(s, FileIn(k))| && Owns(s, FileIn(k))[j] == at;
      OwnedApart(s, Actor(step), i, FileIn(k), j);
    }
  }

  lemma FileOwns(s: State, k: nat)
    requires k in s.files
    ensures IsOwner(s, FileIn(k)) && Owns(s, FileIn(k)) == Walk(s.links, s.files[k].first, Kept(s, k))
  {}

  /** Then the file is as it was: its entry, its clusters, and the data in them. */
  lemma StepLeavesFile(s: State, step: Step, k: nat, area: seq<seq<byte>>, data: seq<byte>)
    requires Good(s) && Enabled(s, step) && k in s.files && !Alters(step, k)
    ensures var s' := Next(s, step);
      k in s'.files && s'.files[k] == s.files[k] && Owns(s', FileIn(k)) == Owns(s, FileIn(k))
    ensures forall c :: c in Owns(s, FileIn(k)) && c < |area| ==> DataNext(s, step, area, data)[c] == area[c]
  {
    hide Good, Enabled, Next, Owns, Kept, Walk, Alters;
    if s.maker != Nobody {
      MakerApart(s, k);
    }
    EntryStays(s, step, k);
    KeptStays(s, step, k);
    LinksNext(s, step);
    var s' := Next(s, step);
    FileOwns(s, k);
    FileOwns(s', k);
    if Target(s, step).Link? {
      WritesElsewhere(s, step, k);
    }
    WalkKept(s.links, s'.links, s.files[k].first, Kept(s, k));
  }

  /**
   * Over any run of any operations in which no file loses its clusters, a file that no step alters keeps its
   * entry, its clusters and every byte in them, whatever is written meanwhile.
   */
  lemma {:induction false} RunLeavesFile(s: State, steps: seq<Step>, k: nat, area: seq<seq<byte>>,
                                         data: seq<seq<byte>>)
    requires Good(s) && IsRun(s, steps) && Lossless(s, steps) && k in s.files
    requires |data| == |steps| && |area| == |s.links| && forall i :: 0 <= i < |steps| ==> !Alters(steps[i], k)
    ensures var s' := Run(s, steps);
      k in s'.files && s'.files[k] == s.files[k] && Owns(s', FileIn(k)) == Owns(s, FileIn(k))
    ensures forall c :: c in Owns(s, FileIn(k)) && c < |area| ==> DataAfter(s, steps, area, data)[c] == area[c]
    decreases |steps|
  {
    hide Good, Enabled, Next, Owns, Lost, Alters, DataNext;
    if steps != [] {
      var s1, step := Next(s, steps[0]), steps[0];
      assert !Alters(step, k);
      StepLeavesFile(s, step, k, area, data[0]);
      StepKeepsExactly(s, step);
      SameSize(s, step);
      assert forall i :: 0 <= i < |steps[1..]| ==> steps[1..][i] == steps[i + 1];
      RunLeavesFile(s1, steps[1..], k, DataNext(s, step, area, data[0]), data[1..]);
    }
  }
}
