// Opening, releasing and removing files by many threads at once (src/bsfs.c and src/oft.c), as a machine of
// atomic steps.

/**
 * Every step is one atomic operation, or one critical section of the open file table or of the metadata lock.
 * `bsfs_open` holds the metadata lock for reading over two steps, its lookup and its registration; steps that
 * change the directory need the lock for writing, and reading or writing an open file takes it for reading.
 * Releasing takes up to three steps: the decrement, the recheck
 * under the table's lock, and the destruction after that lock is released.
 */
module Handles {
  datatype Life = InTable | Removed | Freed

  /** An open file object: the slot it is for, the file that was in the slot when it was made, and its count. */
  datatype Obj = Obj(index: nat, file: nat, refcount: int, life: Life)

  /** A used slot: the name, and which file it is (a number that is never used again). */
  datatype Slot = Slot(name: nat, file: nat)

  datatype State = State(
    objs: seq<Obj>,
    table: map<nat, nat>,      // the open file table, from slot to object
    handles: multiset<nat>,    // objects by the handles that callers hold
    pending: multiset<nat>,    // objects by the releasers that saw zero and wait for the table's lock
    opening: multiset<nat>,    // slots found by openers that still hold the metadata lock for reading
    slots: map<nat, Slot>,
    files: nat,                // how many files there have been
    locked: bool,              // the metadata lock is held for writing by a call that has returned
    touchedFreed: bool)        // some step has used an object after it was freed

  datatype Step =
    | Create(slot: nat, name: nat)
    | Lookup(slot: nat)
    | Register(slot: nat)
    | Use(obj: nat)
    | Decrement(obj: nat)
    | Recheck(obj: nat)
    | Destroy(obj: nat)
    | Unlink(slot: nat)
    | Rename(slot: nat, name: nat)
    | Replace(slot: nat, victim: nat)
    | Exchange(a: nat, b: nat)

  predicate NameFree(s: State, name: nat) {
    forall k :: k in s.slots ==> s.slots[k].name != name
  }

  /** Nobody holds the metadata lock. */
  predicate CanWrite(s: State) {
    !s.locked && s.opening == multiset{}
  }

  predicate Enabled(s: State, step: Step) {
    match step
    case Create(slot, name) => CanWrite(s) && slot !in s.slots && NameFree(s, name)
    case Lookup(slot) => !s.locked && slot in s.slots
    case Register(slot) => slot in s.opening
    case Use(obj) => !s.locked && obj in s.handles && obj < |s.objs|
    case Decrement(obj) => obj in s.handles && obj < |s.objs|
    case Recheck(obj) => obj in s.pending && obj < |s.objs|
    case Destroy(obj) => obj < |s.objs| && s.objs[obj].life == Removed
    case Unlink(slot) => CanWrite(s) && slot in s.slots
    case Rename(slot, name) => CanWrite(s) && slot in s.slots && NameFree(s, name)
    case Replace(slot, victim) => CanWrite(s) && slot in s.slots && victim in s.slots
    case Exchange(a, b) => CanWrite(s) && a in s.slots && b in s.slots
  }

  /** `bs_oft_get` */
  function Got(s: State, slot: nat): State {
    if slot in s.table then
      var o := s.table[slot];
      if o < |s.objs| then s.(objs := s.objs[o := s.objs[o].(refcount := s.objs[o].refcount + 1)],
          handles := s.handles + multiset{o}) else s
    else
      s.(objs := s.objs + [Obj(slot, if slot in s.slots then s.slots[slot].file else s.files, 1, InTable)],
         table := s.table[slot := |s.objs|], handles := s.handles + multiset{|s.objs|})
  }

  /** The recheck of `bs_oft_release`: it reads the object, whatever has become of it. */
  function Rechecked(s: State, o: nat): State
    requires o < |s.objs|
  {
    var obj := s.objs[o];
    var s1 := s.(pending := s.pending - multiset{o}, touchedFreed := s.touchedFreed || obj.life == Freed);
    if obj.refcount != 0 || obj.index !in s.table || s.table[obj.index] != o then s1
    else s1.(objs := s.objs[o := obj.(life := Removed)], table := s.table - {obj.index})
  }

  function Next(s: State, step: Step): State
    requires Enabled(s, step)
  {
    match step
    case Create(slot, name) => s.(slots := s.slots[slot := Slot(name, s.files)], files := s.files + 1)
    case Lookup(slot) => s.(opening := s.opening + multiset{slot})
    case Register(slot) => Got(s.(opening := s.opening - multiset{slot}), slot)
    case Use(o) => s.(touchedFreed := s.touchedFreed || s.objs[o].life == Freed)
    case Decrement(o) =>
      var obj := s.objs[o];
      s.(objs := s.objs[o := obj.(refcount := obj.refcount - 1)], handles := s.handles - multiset{o},
         pending := if obj.refcount - 1 == 0 then s.pending + multiset{o} else s.pending,
         touchedFreed := s.touchedFreed || obj.life == Freed)
    case Recheck(o) => Rechecked(s, o)
    case Destroy(o) => s.(objs := s.objs[o := s.objs[o].(life := Freed)])
    case Unlink(slot) => if slot in s.table then s.(locked := true) else s.(slots := s.slots - {slot})
    case Rename(slot, name) => s.(slots := s.slots[slot := s.slots[slot].(name := name)])
    case Replace(slot, victim) =>
      if victim in s.table then s
      else if slot == victim then s.(slots := s.slots[slot := Slot(s.slots[slot].name, s.files)], files := s.files + 1)
      else s.(slots := (s.slots - {victim})[slot := s.slots[slot].(name := s.slots[victim].name)])
    case Exchange(a, b) =>
      s.(slots := s.slots[a := s.slots[a].(name := s.slots[b].name)][b := s.slots[b].(name := s.slots[a].name)])
  }

  predicate IsRun(s: State, steps: seq<Step>)
    decreases |steps|
  {
    steps == [] || (Enabled(s, steps[0]) && IsRun(Next(s, steps[0]), steps[1..]))
  }

  function Run(s: State, steps: seq<Step>): State
    requires IsRun(s, steps)
    decreases |steps|
  {
    if steps == [] then s else Run(Next(s, steps[0]), steps[1..])
  }

  const Start: State := State([], map[], multiset{}, multiset{}, multiset{}, map[], 0, false, false)

  // ---------- the invariant ----------

  /** The table leads to the objects that are in it, one for each index. */
  predicate TableOk(objs: seq<Obj>, table: map<nat, nat>) {
    && (forall k :: k in table ==> table[k] < |objs| && objs[table[k]].index == k && objs[table[k]].life == InTable)
    && (forall o :: 0 <= o < |objs| && objs[o].life == InTable ==> objs[o].index in table && table[objs[o].index] == o)
  }

  /** A count is the number of outstanding handles, and whoever has one has an object that is in the table. */
  predicate CountsOk(objs: seq<Obj>, handles: multiset<nat>) {
    && (forall o :: 0 <= o < |objs| ==> objs[o].refcount == handles[o])
    && (forall o :: o in handles ==> o < |objs| && objs[o].life == InTable)
  }

  /** A slot with an open file object holds the file it held when the object was made. */
  predicate Pinned(objs: seq<Obj>, table: map<nat, nat>, slots: map<nat, Slot>) {
    forall k :: k in table ==> k in slots && table[k] < |objs| && slots[k].file == objs[table[k]].file
  }

  /** Names and files in use are pairwise distinct. */
  predicate Distinct(slots: map<nat, Slot>, files: nat) {
    && (forall i, j :: i in slots && j in slots && i != j ==>
        slots[i].name != slots[j].name && slots[i].file != slots[j].file)
    && (forall i :: i in slots ==> slots[i].file < files)
  }

  predicate Inv(s: State) {
    && TableOk(s.objs, s.table) && CountsOk(s.objs, s.handles) && Pinned(s.objs, s.table, s.slots) &&
        Distinct(s.slots, s.files)
    && (forall o :: o in s.pending ==> o < |s.objs|)
    && (forall k :: k in s.opening ==> k in s.slots)
  }

  lemma MoreHandles(objs: seq<Obj>, table: map<nat, nat>, slots: map<nat, Slot>, handles: multiset<nat>, o: nat)
    requires TableOk(objs, table) && CountsOk(objs, handles) && Pinned(objs, table, slots) && o < |objs|
    requires objs[o].life == InTable
    ensures var objs' := objs[o := objs[o].(refcount := objs[o].refcount + 1)];
      TableOk(objs', table) && CountsOk(objs', handles + multiset{o}) && Pinned(objs', table, slots)
  {
    var objs' := objs[o := objs[o].(refcount := objs[o].refcount + 1)];
    assert TableOk(objs', table);
    assert Pinned(objs', table, slots);
  }

  lemma FewerHandles(objs: seq<Obj>, table: map<nat, nat>, slots: map<nat, Slot>, handles: multiset<nat>, o: nat)
    requires TableOk(objs, table) && CountsOk(objs, handles) && Pinned(objs, table, slots) && o in handles
    ensures o < |objs| && objs[o].life == InTable
    ensures var objs' := objs[o := objs[o].(refcount := objs[o].refcount - 1)];
      TableOk(objs', table) && CountsOk(objs', handles - multiset{o}) && Pinned(objs', table, slots)
  {
    var objs' := objs[o := objs[o].(refcount := objs[o].refcount - 1)];
    assert TableOk(objs', table);
    assert Pinned(objs', table, slots);
  }

  lemma NewObject(objs: seq<Obj>, table: map<nat, nat>, slots: map<nat, Slot>, handles: multiset<nat>, k: nat)
    requires TableOk(objs, table) && CountsOk(objs, handles) && Pinned(objs, table, slots) && k !in table && k in slots
    ensures var n := |objs|; var objs', table' := objs + [Obj(k, slots[k].file, 1, InTable)], table[k := n];
      TableOk(objs', table') && CountsOk(objs', handles + multiset{n}) && Pinned(objs', table', slots)
  {
    var n := |objs|;
    var objs', table' := objs + [Obj(k, slots[k].file, 1, InTable)], table[k := n];
    assert n !in handles;
    assert TableOk(objs', table');
    assert Pinned(objs', table', slots);
  }

  lemma RemovedObject(objs: seq<Obj>, table: map<nat, nat>, slots: map<nat, Slot>, handles: multiset<nat>, o: nat)
    requires TableOk(objs, table) && CountsOk(objs, handles) && Pinned(objs, table, slots)
    requires o < |objs| && objs[o].refcount == 0 && objs[o].index in table && table[objs[o].index] == o
    ensures var objs', table' := objs[o := objs[o].(life := Removed)], table - {objs[o].index};
      TableOk(objs', table') && CountsOk(objs', handles) && Pinned(objs', table', slots)
  {
    var objs', table' := objs[o := objs[o].(life := Removed)], table - {objs[o].index};
    assert TableOk(objs', table');
    assert Pinned(objs', table', slots);
  }

  lemma FreedObject(objs: seq<Obj>, table: map<nat, nat>, slots: map<nat, Slot>, handles: multiset<nat>, o: nat)
    requires TableOk(objs, table) && CountsOk(objs, handles) && Pinned(objs, table, slots) && o < |objs|
    requires objs[o].life == Removed
    ensures var objs' := objs[o := objs[o].(life := Freed)];
      TableOk(objs', table) && CountsOk(objs', handles) && Pinned(objs', table, slots)
  {
    var objs' := objs[o := objs[o].(life := Freed)];
    assert TableOk(objs', table);
    assert Pinned(objs', table, slots);
  }

  lemma CreateKeeps(slots: map<nat, Slot>, files: nat, k: nat, name: nat)
    requires Distinct(slots, files) && forall i :: i in slots && i != k ==> slots[i].name != name
    ensures Distinct(slots[k := Slot(name, files)], files + 1)
  {}

  lemma RenameKeeps(slots: map<nat, Slot>, files: nat, k: nat, name: nat)
    requires Distinct(slots, files) && k in slots && forall i :: i in slots && i != k ==> slots[i].name != name
    ensures Distinct(slots[k := slots[k].(name := name)], files)
  {}

  lemma RemoveKeeps(slots: map<nat, Slot>, files: nat, k: nat)
    requires Distinct(slots, files) && k in slots
    ensures Distinct(slots - {k}, files) && forall i :: i in slots - {k} ==> slots[i].name != slots[k].name
  {}

  lemma ExchangeKeeps(slots: map<nat, Slot>, files: nat, a: nat, b: nat)
    requires Distinct(slots, files) && a in slots && b in slots
    ensures Distinct(slots[a := slots[a].(name := slots[b].name)][b := slots[b].(name := slots[a].name)], files)
  {
    var s' := slots[a := slots[a].(name := slots[b].name)][b := slots[b].(name := slots[a].name)];
    forall i, j | i in s' && j in s' && i != j ensures s'[i].name != s'[j].name && s'[i].file != s'[j].file {
      assert slots[i].file != slots[j].file;
      var x, y := if i == a then b else if i == b then a else i, if j == a then b else if j == b then a else j;
      assert s'[i].name == slots[x].name && s'[j].name == slots[y].name && x != y;
    }
  }

  /** Names and files stay distinct whatever happens to the directory. */
  lemma DistinctKept(s: State, step: Step)
    requires Inv(s) && Enabled(s, step)
    ensures Distinct(Next(s, step).slots, Next(s, step).files)
  {
    hide TableOk, CountsOk, Pinned, Distinct;
    match step
    case Create(slot, name) => CreateKeeps(s.slots, s.files, slot, name);
    case Rename(slot, name) => RenameKeeps(s.slots, s.files, slot, name);
    case Unlink(slot) => RemoveKeeps(s.slots, s.files, slot);
    case Replace(slot, victim) =>
      if slot == victim {
        NamesDiffer(s.slots, s.files, slot);
        CreateKeeps(s.slots, s.files, slot, s.slots[slot].name);
      } else {
        RemoveKeeps(s.slots, s.files, victim);
        RenameKeeps(s.slots - {victim}, s.files, slot, s.slots[victim].name);
      }
    case Exchange(a, b) => ExchangeKeeps(s.slots, s.files, a, b);
    case _ =>
  }

  lemma NamesDiffer(slots: map<nat, Slot>, files: nat, k: nat)
    requires Distinct(slots, files) && k in slots
    ensures forall i :: i in slots && i != k ==> slots[i].name != slots[k].name
  {}

  /** A slot in the open file table keeps its file whatever happens to the directory. */
  lemma SlotStays(s: State, step: Step, k: nat)
    requires Inv(s) && Enabled(s, step) && k in s.slots && (k in s.table || k in s.opening)
    ensures k in Next(s, step).slots && Next(s, step).slots[k].file == s.slots[k].file
  {
    hide TableOk, CountsOk, Pinned, Distinct, NameFree;
  }

  lemma PinnedKept(s: State, step: Step)
    requires Inv(s) && Enabled(s, step)
    ensures Pinned(s.objs, s.table, Next(s, step).slots)
    ensures forall k :: k in s.opening ==> k in Next(s, step).slots
  {
    hide TableOk, CountsOk, Distinct;
    forall k | k in s.slots && (k in s.table || k in s.opening)
      ensures k in Next(s, step).slots && Next(s, step).slots[k].file == s.slots[k].file
    {
      SlotStays(s, step, k);
    }
  }

  lemma InTableAt(objs: seq<Obj>, table: map<nat, nat>, k: nat)
    requires TableOk(objs, table) && k in table
    ensures table[k] < |objs| && objs[table[k]].index == k && objs[table[k]].life == InTable
  {}

  /** What openers and releasers work on is in order. */
  predicate HandlesOk(s: State, slots: map<nat, Slot>) {
    TableOk(s.objs, s.table) && CountsOk(s.objs, s.handles) && Pinned(s.objs, s.table, slots)
  }

  lemma GotKeeps(s: State, slot: nat)
    requires HandlesOk(s, s.slots) && slot in s.slots
    ensures HandlesOk(Got(s, slot), s.slots)
  {
    hide CountsOk, Pinned;
    if slot in s.table {
      hide TableOk;
      InTableAt(s.objs, s.table, slot);
      MoreHandles(s.objs, s.table, s.slots, s.handles, s.table[slot]);
    } else {
      hide TableOk;
      NewObject(s.objs, s.table, s.slots, s.handles, slot);
    }
  }

  lemma RecheckKeeps(s: State, o: nat)
    requires HandlesOk(s, s.slots) && o < |s.objs|
    ensures HandlesOk(Rechecked(s, o), s.slots)
  {
    hide TableOk, CountsOk, Pinned;
    var obj := s.objs[o];
    if obj.refcount == 0 && obj.index in s.table && s.table[obj.index] == o {
      RemovedObject(s.objs, s.table, s.slots, s.handles, o);
    }
  }

  lemma RegisterKept(s: State, slot: nat)
    requires HandlesOk(s, s.slots) && slot in s.slots && slot in s.opening
    ensures HandlesOk(Got(s.(opening := s.opening - multiset{slot}), slot), s.slots)
  {
    hide TableOk, CountsOk, Pinned, Got;
    GotKeeps(s.(opening := s.opening - multiset{slot}), slot);
  }

  lemma DecrementKept(s: State, o: nat)
    requires HandlesOk(s, s.slots) && Enabled(s, Decrement(o))
    ensures HandlesOk(Next(s, Decrement(o)), s.slots)
  {
    hide TableOk, CountsOk, Pinned;
    FewerHandles(s.objs, s.table, s.slots, s.handles, o);
  }

  lemma DestroyKept(s: State, o: nat)
    requires HandlesOk(s, s.slots) && Enabled(s, Destroy(o))
    ensures HandlesOk(Next(s, Destroy(o)), s.slots)
  {
    hide TableOk, CountsOk, Pinned;
    FreedObject(s.objs, s.table, s.slots, s.handles, o);
  }

  /** The steps that touch neither the table nor an object's count or life. */
  lemma OthersKept(s: State, step: Step)
    requires HandlesOk(s, s.slots) && Enabled(s, step)
    requires !step.Register? && !step.Decrement? && !step.Recheck? && !step.Destroy?
    ensures HandlesOk(Next(s, step), s.slots)
  {
    hide TableOk, CountsOk, Pinned, NameFree;
  }

  /** A step of openers and releasers keeps the table, the counts and the pins. */
  lemma HandlesKept(s: State, step: Step)
    requires HandlesOk(s, s.slots) && Enabled(s, step) && forall k :: k in s.opening ==> k in s.slots
    ensures HandlesOk(Next(s, step), s.slots)
  {
    hide HandlesOk, Got, Rechecked, NameFree;
    match step
    case Register(slot) => RegisterKept(s, slot);
    case Decrement(o) => DecrementKept(s, o);
    case Recheck(o) => RecheckKeeps(s, o);
    case Destroy(o) => DestroyKept(s, o);
    case _ => OthersKept(s, step);
  }

  lemma GotChanges(s: State, slot: nat)
    ensures var s' := Got(s, slot);
        s'.slots == s.slots && s'.files == s.files && |s'.objs| >= |s.objs| &&
        s'.pending == s.pending && s'.opening == s.opening
  {}

  lemma RecheckChanges(s: State, o: nat)
    requires o < |s.objs|
    ensures var s' := Rechecked(s, o);
        s'.slots == s.slots && s'.files == s.files && |s'.objs| >= |s.objs| &&
        s'.pending <= s.pending && s'.opening == s.opening
  {}

  predicate OnDirectory(step: Step) {
    step.Create? || step.Unlink? || step.Rename? || step.Replace? || step.Exchange?
  }

  /** Steps of the directory change slots only. */
  lemma DirectoryOnly(s: State, step: Step)
    requires Enabled(s, step) && OnDirectory(step)
    ensures var s' := Next(s, step);
      s'.objs == s.objs && s'.table == s.table && s'.opening == s.opening && s'.pending == s.pending &&
          s'.handles == s.handles
  {
    hide NameFree;
  }

  /** All others leave slots alone. */
  lemma HandlesOnly(s: State, step: Step)
    requires Enabled(s, step) && !OnDirectory(step)
    ensures Next(s, step).slots == s.slots && Next(s, step).files == s.files
    ensures (forall o :: o in s.pending ==> o < |s.objs|) ==> forall o :: o in Next(s, step).pending ==>
        o < |Next(s, step).objs|
    ensures forall k :: k in Next(s, step).opening ==> k in s.opening || (step == Lookup(k) && k in s.slots)
  {
    hide Got, Rechecked;
    match step
    case Lookup(slot) =>
    case Register(slot) => GotChanges(s.(opening := s.opening - multiset{slot}), slot);
    case Use(o) =>
    case Decrement(o) =>
    case Recheck(o) => RecheckChanges(s, o);
    case Destroy(o) =>
  }

  lemma NextKeeps(s: State, step: Step)
    requires Inv(s) && Enabled(s, step)
    ensures Inv(Next(s, step))
  {
    hide TableOk, CountsOk, Distinct, Pinned, Next, Enabled, OnDirectory;
    HandlesKept(s, step);
    DistinctKept(s, step);
    PinnedKept(s, step);
    if OnDirectory(step) {
      DirectoryOnly(s, step);
    } else {
      HandlesOnly(s, step);
    }
  }

  // ---------- what holds in every run ----------

  lemma {:induction false} RunKeeps(s: State, steps: seq<Step>)
    requires Inv(s) && IsRun(s, steps)
    ensures Inv(Run(s, steps))
    decreases |steps|
  {
    hide Inv, Next, Enabled;
    if steps != [] {
      NextKeeps(s, steps[0]);
      RunKeeps(Next(s, steps[0]), steps[1..]);
    }
  }

  /**
   * In every interleaving: a count is the number of outstanding handles; an object somebody has a handle on is
   * the one the table has for its slot, and is neither removed nor freed; and its slot holds the file it was
   * opened for.
   */
  lemma HandleSafety(steps: seq<Step>, o: nat)
    requires IsRun(Start, steps) && o in Run(Start, steps).handles
    ensures var s := Run(Start, steps);
      && o < |s.objs| && s.objs[o].refcount == s.handles[o] > 0 && s.objs[o].life == InTable
      && s.objs[o].index in s.table && s.table[s.objs[o].index] == o
      && s.objs[o].index in s.slots && s.slots[s.objs[o].index].file == s.objs[o].file
    ensures var s := Run(Start, steps);
      forall p :: 0 <= p < |s.objs| && s.objs[p].life == InTable && s.objs[p].index == s.objs[o].index ==> p == o
  {
    hide Run, IsRun;
    RunKeeps(Start, steps);
  }

  // ---------- what the steps do for their callers ----------

  /** The directory leads from this name to this file. */
  ghost predicate Leads(slots: map<nat, Slot>, name: nat, file: nat) {
    exists k :: k in slots && slots[k] == Slot(name, file)
  }

  /** The directory after a step, as a relation between names and files. */
  ghost predicate LeadsAfter(s: State, step: Step, name: nat, file: nat)
    requires Enabled(s, step)
  {
    match step
    case Create(_, n) => Leads(s.slots, name, file) || (name == n && file == s.files)
    case Unlink(slot) => Leads(s.slots, name, file) && (slot in s.table || name != s.slots[slot].name)
    case Rename(slot, n) =>
      (Leads(s.slots, name, file) && name != s.slots[slot].name) || (name == n && file == s.slots[slot].file)
    case Replace(slot, victim) =>
      var a, b := s.slots[slot], s.slots[victim];
      if victim in s.table then Leads(s.slots, name, file)
      else (Leads(s.slots, name, file) && name != a.name && name != b.name) ||
           (name == b.name && file == if slot == victim then s.files else a.file)
    case Exchange(i, j) =>
      var a, b := s.slots[i], s.slots[j];
      (Leads(s.slots, name, file) && name != a.name && name != b.name) ||
      (name == a.name && file == b.file) || (name == b.name && file == a.file)
    case _ => Leads(s.slots, name, file)
  }

  lemma LeadsAt(slots: map<nat, Slot>, files: nat, k: nat, name: nat, file: nat)
    requires Distinct(slots, files) && k in slots
    ensures Leads(slots, slots[k].name, slots[k].file)
    ensures name == slots[k].name ==> (Leads(slots, name, file) <==> file == slots[k].file)
  {
    assert slots[k] == Slot(slots[k].name, slots[k].file);
  }

  lemma PutLeads(slots: map<nat, Slot>, files: nat, k: nat, slot: Slot, name: nat, file: nat)
    requires Distinct(slots, files)
    ensures Leads(slots[k := slot], name, file) <==>
      (slot == Slot(name, file) || (Leads(slots, name, file) && (k in slots ==> name != slots[k].name)))
  {
    var slots' := slots[k := slot];
    if Leads(slots', name, file) {
      var j :| j in slots' && slots'[j] == Slot(name, file);
      assert j != k ==> slots[j] == Slot(name, file);
    }
    if slot == Slot(name, file) {
      assert slots'[k] == Slot(name, file);
    }
    if Leads(slots, name, file) && (k in slots ==> name != slots[k].name) {
      var j :| j in slots && slots[j] == Slot(name, file);
      assert slots'[j] == Slot(name, file);
    }
  }

  lemma DropLeads(slots: map<nat, Slot>, files: nat, k: nat, name: nat, file: nat)
    requires Distinct(slots, files) && k in slots
    ensures Leads(slots - {k}, name, file) <==> Leads(slots, name, file) && name != slots[k].name
  {
    var slots' := slots - {k};
    if Leads(slots', name, file) {
      var j :| j in slots' && slots'[j] == Slot(name, file);
      assert slots[j] == Slot(name, file);
    }
    if Leads(slots, name, file) && name != slots[k].name {
      var j :| j in slots && slots[j] == Slot(name, file);
      assert slots'[j] == Slot(name, file);
    }
  }

  /**
   * Creating, removing, renaming, replacing and exchanging do to the directory, as seen by name, what they are for;
   * all other steps leave it alone.
   */
  lemma DirectorySteps(s: State, step: Step, name: nat, file: nat)
    requires Inv(s) && Enabled(s, step)
    ensures Leads(Next(s, step).slots, name, file) <==> LeadsAfter(s, step, name, file)
  {
    hide TableOk, CountsOk, Pinned, Distinct, Leads, NameFree;
    match step
    case Create(slot, n) => PutLeads(s.slots, s.files, slot, Slot(n, s.files), name, file);
    case Unlink(slot) => DropLeads(s.slots, s.files, slot, name, file);
    case Rename(slot, n) => PutLeads(s.slots, s.files, slot, s.slots[slot].(name := n), name, file);
    case Replace(slot, victim) => ReplaceLeads(s, slot, victim, name, file);
    case Exchange(a, b) => ExchangeLeads(s.slots, s.files, a, b, name, file);
    case _ => HandlesOnly(s, step);
  }

  lemma ReplaceLeads(s: State, slot: nat, victim: nat, name: nat, file: nat)
    requires Inv(s) && Enabled(s, Replace(slot, victim))
    ensures Leads(Next(s, Replace(slot, victim)).slots, name, file) <==>
            LeadsAfter(s, Replace(slot, victim), name, file)
  {
    hide TableOk, CountsOk, Pinned, Distinct, Leads, NameFree;
    var a, b := s.slots[slot], s.slots[victim];
    if slot == victim {
      PutLeads(s.slots, s.files, slot, Slot(a.name, s.files), name, file);
    } else {
      DropLeads(s.slots, s.files, victim, name, file);
      RemoveKeeps(s.slots, s.files, victim);
      PutLeads(s.slots - {victim}, s.files, slot, a.(name := b.name), name, file);
    }
  }

  lemma ExchangeLeads(slots: map<nat, Slot>, files: nat, i: nat, j: nat, name: nat, file: nat)
    requires Distinct(slots, files) && i in slots && j in slots
    ensures var a, b := slots[i], slots[j];
      Leads(slots[i := a.(name := b.name)][j := b.(name := a.name)], name, file) <==>
        (Leads(slots, name, file) && name != a.name && name != b.name) ||
        (name == a.name && file == b.file) || (name == b.name && file == a.file)
  {
    var a, b := slots[i], slots[j];
    var slots' := slots[i := a.(name := b.name)][j := b.(name := a.name)];
    assert slots'[j] == Slot(a.name, b.file) && slots'[i] == Slot(b.name, a.file);
    if Leads(slots', name, file) {
      var k :| k in slots' && slots'[k] == Slot(name, file);
      if k != i && k != j {
        assert slots[k] == Slot(name, file);
      }
    }
    if Leads(slots, name, file) && name != a.name && name != b.name {
      var k :| k in slots && slots[k] == Slot(name, file);
      assert slots'[k] == Slot(name, file);
    }
  }

  /** Opening gives one more handle, on the object of the slot; releasing takes one; no other step touches handles. */
  lemma HandleSteps(s: State, step: Step)
    requires Inv(s) && Enabled(s, step)
    ensures var s' := Next(s, step);
      match step
      case Register(slot) =>
        slot in s'.table && s'.handles == s.handles + multiset{s'.table[slot]} && s'.table[slot] < |s'.objs| &&
        s'.objs[s'.table[slot]].index == slot
      case Decrement(o) => s'.handles == s.handles - multiset{o} && o in s.handles
      case _ => s'.handles == s.handles
  {
    hide CountsOk, Pinned, Distinct, NameFree;
  }

  lemma GotTable(s: State, slot: nat, k: nat)
    ensures k in Got(s, slot).table <==> k in s.table || k == slot
  {}

  lemma RecheckedTable(s: State, o: nat, k: nat)
    requires TableOk(s.objs, s.table) && CountsOk(s.objs, s.handles) && o < |s.objs|
    ensures k in Rechecked(s, o).table <==> k in s.table && !(s.table[k] == o && o !in s.handles)
  {
    if k in s.table {
      InTableAt(s.objs, s.table, k);
    }
    hide TableOk;
  }

  /**
   * A slot enters the table by being opened, and leaves it exactly when a releaser that has the lock finds its
   * object, without handles, still there.
   */
  lemma TableSteps(s: State, step: Step, k: nat)
    requires Inv(s) && Enabled(s, step)
    ensures k in Next(s, step).table <==>
      step == Register(k) ||
      (k in s.table && !(step == Recheck(s.table[k]) && s.table[k] !in s.handles))
  {
    hide TableOk, CountsOk, Pinned, Distinct, NameFree, Got, Rechecked;
    match step
    case Register(slot) => GotTable(s.(opening := s.opening - multiset{slot}), slot, k);
    case Recheck(o) => RecheckedTable(s, o, k);
    case _ =>
  }

  /** Names in use are pairwise distinct after every run. */
  lemma NamesStayDistinct(steps: seq<Step>, i: nat, j: nat)
    requires IsRun(Start, steps) && i in Run(Start, steps).slots && j in Run(Start, steps).slots
    ensures Run(Start, steps).slots[i].name == Run(Start, steps).slots[j].name ==> i == j
  {
    hide Run, IsRun;
    RunKeeps(Start, steps);
  }

  lemma SameObject(s: State, step: Step, o: nat)
    requires Enabled(s, step) && o < |s.objs|
    ensures var s' := Next(s, step);
        o < |s'.objs| && s'.objs[o].index == s.objs[o].index &&
        s'.objs[o].file == s.objs[o].file
  {
    hide Got, Rechecked;
    match step
    case Register(slot) => SameAfterGot(s.(opening := s.opening - multiset{slot}), slot, o);
    case Recheck(p) => SameAfterRecheck(s, p, o);
    case _ =>
  }

  lemma SameAfterGot(s: State, slot: nat, o: nat)
    requires o < |s.objs|
    ensures var s' := Got(s, slot);
        o < |s'.objs| && s'.objs[o].index == s.objs[o].index &&
        s'.objs[o].file == s.objs[o].file
  {}

  lemma SameAfterRecheck(s: State, p: nat, o: nat)
    requires o < |s.objs| && p < |s.objs|
    ensures var s' := Rechecked(s, p);
        o < |s'.objs| && s'.objs[o].index == s.objs[o].index &&
        s'.objs[o].file == s.objs[o].file
  {}

  lemma {:induction false} SameObjectInRun(s: State, steps: seq<Step>, o: nat)
    requires IsRun(s, steps) && o < |s.objs|
    ensures var s' := Run(s, steps);
        o < |s'.objs| && s'.objs[o].index == s.objs[o].index &&
        s'.objs[o].file == s.objs[o].file
    decreases |steps|
  {
    hide Next, Enabled;
    if steps != [] {
      SameObject(s, steps[0], o);
      SameObjectInRun(Next(s, steps[0]), steps[1..], o);
    }
  }

  /** A slot with an outstanding handle is not removed or given to another file, whatever else runs meanwhile. */
  lemma OpenSlotsStayPut(s: State, steps: seq<Step>, o: nat)
    requires Inv(s) && IsRun(s, steps) && o in s.handles && o in Run(s, steps).handles
    ensures var k := s.objs[o].index; var s' := Run(s, steps);
      k in s.slots && k in s'.slots && s'.slots[k].file == s.slots[k].file
  {
    hide Run, IsRun;
    RunKeeps(s, steps);
    SameObjectInRun(s, steps, o);
  }

  /** Steps that need no metadata lock: those of a release. */
  predicate Releasing(step: Step) {
    step.Decrement? || step.Recheck? || step.Destroy?
  }

  /**
   * After an unlink of an open file has returned with the metadata lock, only releases go on, for ever: nothing can
   * be opened, read, written, created, removed or renamed any more.
   */
  lemma {:induction false} LockNeverReleased(s: State, steps: seq<Step>)
    requires s.locked && s.opening == multiset{} && IsRun(s, steps)
    ensures forall i :: 0 <= i < |steps| ==> Releasing(steps[i])
    ensures Run(s, steps).locked && Run(s, steps).slots == s.slots
    decreases |steps|
  {
    if steps != [] {
      LockKept(s, steps[0]);
      hide Next;
      LockNeverReleased(Next(s, steps[0]), steps[1..]);
      assert forall i :: 0 < i < |steps| ==> steps[i] == steps[1..][i - 1];
    }
  }

  lemma LockKept(s: State, step: Step)
    requires s.locked && s.opening == multiset{} && Enabled(s, step)
    ensures var s' := Next(s, step); Releasing(step) && s'.locked && s'.opening == multiset{} && s'.slots == s.slots
  {}

  /** Some step of the run unlinks a file that is open then. */
  predicate UnlinksOpen(s: State, steps: seq<Step>)
    requires IsRun(s, steps)
    decreases |steps|
  {
    steps != [] &&
    ((steps[0].Unlink? && steps[0].slot in s.table) || UnlinksOpen(Next(s, steps[0]), steps[1..]))
  }

  /** And that is the only way it comes about: over any run, the lock stays held exactly if an open file is unlinked. */
  lemma {:induction false} UnlinkLocks(s: State, steps: seq<Step>)
    requires !s.locked && IsRun(s, steps)
    ensures Run(s, steps).locked <==> UnlinksOpen(s, steps)
    ensures Run(s, steps).locked ==> Run(s, steps).opening == multiset{}
    decreases |steps|
  {
    hide Next, Enabled;
    if steps != [] {
      var s1 := Next(s, steps[0]);
      LockTaken(s, steps[0]);
      if s1.locked {
        LockNeverReleased(s1, steps[1..]);
        NothingOpening(s1, steps[1..]);
      } else {
        UnlinkLocks(s1, steps[1..]);
      }
    }
  }

  lemma LockTaken(s: State, step: Step)
    requires !s.locked && Enabled(s, step)
    ensures Next(s, step).locked <==> step.Unlink? && step.slot in s.table
    ensures Next(s, step).locked ==> Next(s, step).opening == multiset{}
  {
    hide NameFree;
  }

  lemma {:induction false} NothingOpening(s: State, steps: seq<Step>)
    requires s.locked && s.opening == multiset{} && IsRun(s, steps)
    ensures Run(s, steps).opening == multiset{}
    decreases |steps|
  {
    hide Next, Enabled;
    if steps != [] {
      LockKept(s, steps[0]);
      NothingOpening(Next(s, steps[0]), steps[1..]);
    }
  }

  // ---------- releasing twice ----------

  /**
   * No two releasers of an unused object are waiting for the table's lock, and none is waiting for an object that
   * has left the table.
   */
  predicate Safe(s: State) {
    forall o :: 0 <= o < |s.objs| ==> SafeObject(s.objs[o], s.pending[o])
  }

  predicate Finishing(steps: seq<Step>) {
    forall i :: 0 <= i < |steps| ==> steps[i].Recheck? || steps[i].Destroy?
  }

  predicate SafeObject(obj: Obj, waiting: nat) {
    if obj.life != InTable then waiting == 0 else obj.refcount == 0 ==> waiting <= 1
  }

  lemma RecheckSafe(s: State, o: nat)
    requires TableOk(s.objs, s.table) && Safe(s) && o in s.pending && o < |s.objs|
    ensures Safe(Rechecked(s, o)) && Rechecked(s, o).touchedFreed == s.touchedFreed
  {
    assert SafeObject(s.objs[o], s.pending[o]);
    assert s.objs[o].index in s.table && s.table[s.objs[o].index] == o;
    hide TableOk;
    var s' := Rechecked(s, o);
    forall p | 0 <= p < |s'.objs| ensures SafeObject(s'.objs[p], s'.pending[p]) {
      assert SafeObject(s.objs[p], s.pending[p]);
      assert s'.pending[p] == if p == o then s.pending[p] - 1 else s.pending[p];
    }
  }

  lemma FinishStep(s: State, step: Step)
    requires Inv(s) && Safe(s) && Enabled(s, step) && (step.Recheck? || step.Destroy?)
    ensures Safe(Next(s, step)) && Next(s, step).touchedFreed == s.touchedFreed
  {
    hide TableOk, CountsOk, Pinned, Distinct, Rechecked;
    match step
    case Recheck(o) =>
      hide Safe;
      RecheckSafe(s, o);
    case Destroy(o) =>
      assert SafeObject(s.objs[o], s.pending[o]);
  }

  lemma {:induction false} SafeFinish(s: State, steps: seq<Step>)
    requires Inv(s) && Safe(s) && IsRun(s, steps) && Finishing(steps)
    ensures Run(s, steps).touchedFreed == s.touchedFreed
    decreases |steps|
  {
    hide Inv, Safe, Next, Enabled;
    if steps != [] {
      FinishStep(s, steps[0]);
      NextKeeps(s, steps[0]);
      assert forall i :: 0 <= i < |steps[1..]| ==> steps[1..][i] == steps[i + 1];
      SafeFinish(Next(s, steps[0]), steps[1..]);
    }
  }

  /** Finishing the releases that fail. */
  function Offending(s: State, o: nat): seq<Step>
    requires o < |s.objs|
  {
    match s.objs[o].life
    case InTable => [Recheck(o), Destroy(o), Recheck(o)]
    case Removed => [Destroy(o), Recheck(o)]
    case Freed => [Recheck(o)]
  }

  lemma Cons(s: State, step: Step, steps: seq<Step>)
    requires Enabled(s, step) && IsRun(Next(s, step), steps)
    ensures IsRun(s, [step] + steps) && Run(s, [step] + steps) == Run(Next(s, step), steps)
  {
    hide Next, Enabled;
    assert ([step] + steps)[1..] == steps;
  }

  lemma UnsafeFinish(s: State, o: nat)
    requires TableOk(s.objs, s.table) && o < |s.objs| && !SafeObject(s.objs[o], s.pending[o])
    ensures IsRun(s, Offending(s, o)) && Finishing(Offending(s, o)) && Run(s, Offending(s, o)).touchedFreed
  {
    hide IsRun, Run, TableOk;
    match s.objs[o].life
    case InTable =>
      InTableBack(s.objs, s.table, o);
      var s1 := Next(s, Recheck(o));
      assert s1.objs[o].life == Removed && s1.pending[o] > 0;
      RemovedFinish(s1, o);
      Cons(s, Recheck(o), [Destroy(o), Recheck(o)]);
      assert [Recheck(o)] + [Destroy(o), Recheck(o)] == [Recheck(o), Destroy(o), Recheck(o)];
    case Removed =>
      RemovedFinish(s, o);
    case Freed =>
      FreedFinish(s, o);
  }

  lemma InTableBack(objs: seq<Obj>, table: map<nat, nat>, o: nat)
    requires TableOk(objs, table) && o < |objs| && objs[o].life == InTable
    ensures objs[o].index in table && table[objs[o].index] == o
  {}

  lemma RemovedFinish(s: State, o: nat)
    requires o < |s.objs| && s.objs[o].life == Removed && s.pending[o] > 0
    ensures IsRun(s, [Destroy(o), Recheck(o)]) && Run(s, [Destroy(o), Recheck(o)]).touchedFreed
  {
    hide IsRun, Run;
    FreedFinish(Next(s, Destroy(o)), o);
    Cons(s, Destroy(o), [Recheck(o)]);
    assert [Destroy(o)] + [Recheck(o)] == [Destroy(o), Recheck(o)];
  }

  lemma FreedFinish(s: State, o: nat)
    requires o < |s.objs| && s.objs[o].life == Freed && s.pending[o] > 0
    ensures IsRun(s, [Recheck(o)]) && Run(s, [Recheck(o)]).touchedFreed
  {
    hide Rechecked;
    assert Rechecked(s, o).touchedFreed by {
      RecheckTouches(s, o);
    }
    var s' := Next(s, Recheck(o));
    assert IsRun(s', []) && Run(s', []) == s';
    hide IsRun, Run;
    Cons(s, Recheck(o), []);
    assert [Recheck(o)] + [] == [Recheck(o)];
  }

  lemma RecheckTouches(s: State, o: nat)
    requires o < |s.objs| && s.objs[o].life == Freed
    ensures Rechecked(s, o).touchedFreed
  {}

  /** Exactly when the releases under way can end in a use of freed memory. */
  lemma UseAfterFree(s: State)
    requires Inv(s) && !s.touchedFreed
    ensures Safe(s) <==> forall steps :: IsRun(s, steps) && Finishing(steps) ==> !Run(s, steps).touchedFreed
  {
    hide TableOk, CountsOk, Pinned, Distinct, Run, IsRun, Finishing, SafeObject;
    if Safe(s) {
      forall steps | IsRun(s, steps) && Finishing(steps) ensures !Run(s, steps).touchedFreed {
        SafeFinish(s, steps);
      }
    } else {
      var o: nat :| o < |s.objs| && !SafeObject(s.objs[o], s.pending[o]);
      UnsafeFinish(s, o);
    }
  }

  /** One file, whose object has `count` handles, with `waiting` at the lock. */
  function OneFile(count: nat, waiting: multiset<nat>, opening: multiset<nat>): State {
    State([Obj(0, 0, count, InTable)], map[0 := 0], if count == 0 then multiset{} else multiset{0}, waiting, opening,
          map[0 := Slot(0, 0)], 1, false, false)
  }

  lemma OpenedAgain(waiting: multiset<nat>)
    ensures IsRun(OneFile(0, waiting, multiset{}), [Lookup(0), Register(0)])
    ensures Run(OneFile(0, waiting, multiset{}), [Lookup(0), Register(0)]) == OneFile(1, waiting, multiset{})
  {
    hide IsRun, Run;
    var s, found := OneFile(0, waiting, multiset{}), OneFile(0, waiting, multiset{0});
    assert Next(s, Lookup(0)) == found;
    assert Next(found, Register(0)) == OneFile(1, waiting, multiset{});
    Last(found, Register(0));
    Cons(s, Lookup(0), [Register(0)]);
    assert [Lookup(0)] + [Register(0)] == [Lookup(0), Register(0)];
  }

  lemma OpenedFirst()
    ensures IsRun(Start, [Create(0, 0), Lookup(0), Register(0)])
    ensures Run(Start, [Create(0, 0), Lookup(0), Register(0)]) == OneFile(1, multiset{}, multiset{})
  {
    hide IsRun, Run;
    var made := Start.(slots := map[0 := Slot(0, 0)], files := 1);
    var found := made.(opening := multiset{0});
    assert Next(Start, Create(0, 0)) == made && Next(made, Lookup(0)) == found;
    assert Next(found, Register(0)) == OneFile(1, multiset{}, multiset{});
    Last(found, Register(0));
    Cons(made, Lookup(0), [Register(0)]);
    Cons(Start, Create(0, 0), [Lookup(0)] + [Register(0)]);
    assert [Create(0, 0)] + ([Lookup(0)] + [Register(0)]) == [Create(0, 0), Lookup(0), Register(0)];
  }

  lemma ClosedAgain(waiting: multiset<nat>)
    ensures IsRun(OneFile(1, waiting, multiset{}), [Decrement(0)])
    ensures Run(OneFile(1, waiting, multiset{}), [Decrement(0)]) == OneFile(0, waiting + multiset{0}, multiset{})
  {
    hide IsRun, Run;
    assert Next(OneFile(1, waiting, multiset{}), Decrement(0)) == OneFile(0, waiting + multiset{0}, multiset{});
    Last(OneFile(1, waiting, multiset{}), Decrement(0));
  }

  lemma {:induction false} Append(s: State, a: seq<Step>, b: seq<Step>)
    requires IsRun(s, a) && IsRun(Run(s, a), b)
    ensures IsRun(s, a + b) && Run(s, a + b) == Run(Run(s, a), b)
    decreases |a|
  {
    hide Next, Enabled;
    if a == [] {
      assert a + b == b;
    } else {
      Append(Next(s, a[0]), a[1..], b);
      assert (a + b)[1..] == a[1..] + b;
    }
  }

  /** Two releasers of one object can reach the lock one after the other, and the second uses what the first freed. */
  lemma TwoReleasers()
    ensures var steps := [Create(0, 0), Lookup(0), Register(0), Decrement(0), Lookup(0), Register(0), Decrement(0)];
      IsRun(Start, steps) && !Safe(Run(Start, steps)) && !Run(Start, steps).touchedFreed
  {
    hide IsRun, Run;
    var once := multiset{} + multiset{0};
    OpenedFirst();
    ClosedAgain(multiset{});
    OpenedAgain(once);
    ClosedAgain(once);
    var first, again, closed := [Create(0, 0), Lookup(0), Register(0)], [Lookup(0), Register(0)], [Decrement(0)];
    Append(OneFile(0, once, multiset{}), again, closed);
    Append(OneFile(1, multiset{}, multiset{}), closed, again + closed);
    Append(Start, first, closed + (again + closed));
    assert first + (closed + (again + closed))
        == [Create(0, 0), Lookup(0), Register(0), Decrement(0), Lookup(0), Register(0), Decrement(0)];
    var s := OneFile(0, once + multiset{0}, multiset{});
    assert !SafeObject(s.objs[0], s.pending[0]);
  }

  lemma Last(s: State, step: Step)
    requires Enabled(s, step)
    ensures IsRun(s, [step]) && Run(s, [step]) == Next(s, step)
  {
    var s' := Next(s, step);
    assert IsRun(s', []) && Run(s', []) == s';
    hide Next;
    Cons(s, step, []);
    assert [step] + [] == [step];
  }

  /** No object ever has two releasers waiting for the lock. */
  predicate OneAtATime(s: State, steps: seq<Step>)
    requires IsRun(s, steps)
    decreases |steps|
  {
    (forall o :: o in s.pending ==> s.pending[o] <= 1) && (steps != [] ==> OneAtATime(Next(s, steps[0]), steps[1..]))
  }

  /** Then no run at all uses freed memory. */
  lemma {:induction false} OneReleaserIsSafe(s: State, steps: seq<Step>)
    requires Inv(s) && Safe(s) && IsRun(s, steps) && OneAtATime(s, steps)
    ensures Run(s, steps).touchedFreed == s.touchedFreed
    decreases |steps|
  {
    hide Inv, Safe, Next, Enabled;
    if steps != [] {
      OneReleaserStep(s, steps[0]);
      NextKeeps(s, steps[0]);
      OneReleaserIsSafe(Next(s, steps[0]), steps[1..]);
    }
  }

  lemma OneReleaserStep(s: State, step: Step)
    requires Inv(s) && Safe(s) && Enabled(s, step)
    requires forall o :: o in Next(s, step).pending ==> Next(s, step).pending[o] <= 1
    ensures Safe(Next(s, step)) && Next(s, step).touchedFreed == s.touchedFreed
  {
    hide TableOk, CountsOk, Pinned, Distinct, Rechecked, Got, Safe;
    match step
    case Register(slot) => GotSafe(s.(opening := s.opening - multiset{slot}), s, slot);
    case Use(o) =>
      UseIsSafe(s, o);
      SameSafe(s, Next(s, step));
    case Decrement(o) => DecrementSafe(s, o);
    case Recheck(o) => RecheckSafe(s, o);
    case Destroy(o) => FinishStep(s, step);
    case _ => SameSafe(s, Next(s, step));
  }

  /** A handle is on an object that has not been freed. */
  lemma UseIsSafe(s: State, o: nat)
    requires CountsOk(s.objs, s.handles) && o in s.handles
    ensures o < |s.objs| && s.objs[o].life == InTable
  {}

  lemma SameSafe(s: State, s': State)
    requires Safe(s) && s'.objs == s.objs && s'.pending == s.pending
    ensures Safe(s')
  {}

  lemma GotSafe(s: State, s0: State, slot: nat)
    requires Safe(s0) && s.objs == s0.objs && s.pending == s0.pending && TableOk(s.objs, s.table) &&
        forall o :: o in s.pending ==> o < |s.objs|
    requires CountsOk(s.objs, s.handles)
    ensures Safe(Got(s, slot)) && Got(s, slot).touchedFreed == s.touchedFreed
  {
    SameSafe(s0, s);
    if slot in s.table {
      InTableAt(s.objs, s.table, slot);
    }
    hide TableOk;
    var s' := Got(s, slot);
    forall p | 0 <= p < |s'.objs| ensures SafeObject(s'.objs[p], s'.pending[p]) {
      if p < |s.objs| {
        assert SafeObject(s.objs[p], s.pending[p]);
      }
    }
  }

  lemma DecrementSafe(s: State, o: nat)
    requires Safe(s) && CountsOk(s.objs, s.handles) && Enabled(s, Decrement(o))
    requires forall p :: p in Next(s, Decrement(o)).pending ==> Next(s, Decrement(o)).pending[p] <= 1
    ensures Safe(Next(s, Decrement(o))) && Next(s, Decrement(o)).touchedFreed == s.touchedFreed
  {
    assert s.objs[o].life == InTable;
    hide CountsOk;
    var s' := Next(s, Decrement(o));
    forall p | 0 <= p < |s'.objs| ensures SafeObject(s'.objs[p], s'.pending[p]) {
      assert SafeObject(s.objs[p], s.pending[p]);
      assert s'.pending[p] <= 1;
    }
  }
}
