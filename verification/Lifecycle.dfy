// A run of the machine of Interleaving.dfy from an empty level back to an empty level.

/** Files do come to be, grow, shrink and go in the machine that the ownership theorems are about. */
module Lifecycle {
  import opened Cluster
  import opened Files
  import opened Links
  import opened Interleaving
  import opened Ownership

  /** The step leads from one state to the other, and costs no file its clusters. */
  ghost predicate Leads(s: State, a: Step, s': State) {
    Enabled(s, a) && !Lost(s, a) && Next(s, a) == s'
  }

  /** Each state leads to the next one by the step of its number. */
  ghost predicate Stages(states: seq<State>, steps: seq<Step>) {
    |states| == |steps| + 1 && forall i :: 0 <= i < |steps| ==> Leads(states[i], steps[i], states[i + 1])
  }

  lemma {:induction false} StagesAreRun(states: seq<State>, steps: seq<Step>)
    requires Stages(states, steps)
    ensures IsRun(states[0], steps) && Lossless(states[0], steps) && Run(states[0], steps) == states[|steps|]
    decreases |steps|
  {
    hide Enabled, Next, Lost;
    if steps != [] {
      assert Leads(states[0], steps[0], states[1]);
      StagesAreRun(states[1..], steps[1..]);
    }
  }

  /** A level with one file, and what an operation on it remembers. */
  function With(marks: set<nat>, links: seq<nat>, k: nat, e: Entry, op: Op): State {
    State(marks, links, map[k := e], if op == Idle then map[] else map[k := op], map[], multiset{k}, Nobody)
  }

  /** Creating: a cluster is allocated and written, and the entry made; then the file is opened. */
  lemma Created(links: seq<nat>, k: nat, c: nat)
    requires c < |links|
    ensures var steps := [CreateAlloc(k, c), CreateWrite, CreateEntry, Open(k)];
      && IsRun(Empty(links), steps) && Lossless(Empty(links), steps)
      && Run(Empty(links), steps) == With({c}, links[c := CLUSTER_OFFSET_EOF], k, Entry(c, 1), Idle)
  {
    var s0, links' := Empty(links), links[c := CLUSTER_OFFSET_EOF];
    var s1 := s0.(marks := {c}, maker := Creating(k, c));
    var s2 := s0.(marks := {c}, links := links', maker := Maker.Created(k, c));
    var s3 := s0.(marks := {c}, links := links', files := map[k := Entry(c, 1)]);
    var s4 := With({c}, links', k, Entry(c, 1), Idle);
    assert Next(s0, CreateAlloc(k, c)) == s1 && Next(s1, CreateWrite) == s2 && Next(s2, CreateEntry) == s3;
    assert Next(s3, Open(k)) == s4;
    hide Enabled, Next, Lost;
    StagesAreRun([s0, s1, s2, s3, s4], [CreateAlloc(k, c), CreateWrite, CreateEntry, Open(k)]);
  }

  lemma Begins(marks: set<nat>, links: seq<nat>, k: nat, e: Entry, goal: Goal)
    requires 0 < Reach(e.count, goal) <= e.count
    ensures Leads(With(marks, links, k, e, Idle), Begin(k, goal),
                  With(marks, links, k, e, Seeking(e.first, Reach(e.count, goal) - 1, goal)))
  {}

  lemma Allocates(links: seq<nat>, k: nat, c: nat, d: nat)
    requires d < |links| && c != d
    ensures Leads(With({c}, links, k, Entry(c, 1), Seeking(c, 0, Extend)), Allocate(k, [d]),
                  With({c, d}, links, k, Entry(c, 1), Building(c, [d], 0)))
  {
    assert Elems([d]) == {d};
  }

  lemma Writes(marks: set<nat>, links: seq<nat>, k: nat, e: Entry, last: nat, d: nat)
    requires d < |links|
    ensures Leads(With(marks, links, k, e, Building(last, [d], 0)), WriteNew(k),
                  With(marks, links[d := CLUSTER_OFFSET_EOF], k, e, Building(last, [d], 1)))
  {}

  lemma HooksUp(marks: set<nat>, links: seq<nat>, k: nat, e: Entry, last: nat, d: nat)
    requires last < |links|
    ensures Leads(With(marks, links, k, e, Building(last, [d], 1)), HookUp(k),
                  With(marks, links[last := d], k, e, Recording(e.count + 1)))
  {}

  lemma Records(marks: set<nat>, links: seq<nat>, k: nat, e: Entry, count: nat)
    ensures Leads(With(marks, links, k, e, Recording(count)), Record(k),
                  With(marks, links, k, e.(count := count), Idle))
  {}

  /** Growing by one cluster, which comes behind the first. */
  lemma Grown(links: seq<nat>, k: nat, c: nat, d: nat)
    requires c < |links| && d < |links| && c != d
    ensures var steps := [Begin(k, Extend), Allocate(k, [d]), WriteNew(k), HookUp(k), Record(k)];
      var s := With({c}, links, k, Entry(c, 1), Idle);
      && IsRun(s, steps) && Lossless(s, steps)
      && Run(s, steps) == With({c, d}, links[d := CLUSTER_OFFSET_EOF][c := d], k, Entry(c, 2), Idle)
  {
    hide Leads, With;
    var s0, e, links1 := With({c}, links, k, Entry(c, 1), Idle), Entry(c, 1), links[d := CLUSTER_OFFSET_EOF];
    var s1 := With({c}, links, k, e, Seeking(c, 0, Extend));
    var s2 := With({c, d}, links, k, e, Building(c, [d], 0));
    var s3 := With({c, d}, links1, k, e, Building(c, [d], 1));
    var s4 := With({c, d}, links1[c := d], k, e, Recording(2));
    var s5 := With({c, d}, links1[c := d], k, Entry(c, 2), Idle);
    Begins({c}, links, k, e, Extend);
    Allocates(links, k, c, d);
    Writes({c, d}, links, k, e, c, d);
    HooksUp({c, d}, links1, k, e, c, d);
    Records({c, d}, links1[c := d], k, e, 2);
    StagesAreRun([s0, s1, s2, s3, s4, s5], [Begin(k, Extend), Allocate(k, [d]), WriteNew(k), HookUp(k), Record(k)]);
  }

  lemma ReadsLast(marks: set<nat>, links: seq<nat>, k: nat, e: Entry, c: nat, count: nat)
    requires c < |links|
    ensures Leads(With(marks, links, k, e, Seeking(c, 0, CutTo(count))), ReadLast(k),
                  With(marks, links, k, e, Collecting(count, c, links[c], [])))
  {}

  lemma Collects(marks: set<nat>, links: seq<nat>, k: nat, e: Entry, count: nat, last: nat, d: nat)
    requires d < |links|
    ensures Leads(With(marks, links, k, e, Collecting(count, last, d, [])), Collect(k),
                  With(marks, links, k, e, Collecting(count, last, links[d], [d])))
  {
    assert [] + [d] == [d];
  }

  lemma FreesTail(c: nat, d: nat, links: seq<nat>, k: nat, e: Entry, count: nat)
    requires c != d
    ensures Leads(With({c, d}, links, k, e, Collecting(count, c, CLUSTER_OFFSET_EOF, [d])), FreeTail(k),
                  With({c}, links, k, e, Freed(count, c)))
  {
    assert Elems([d]) == {d} && {c, d} - {d} == {c};
  }

  lemma Relinks(marks: set<nat>, links: seq<nat>, k: nat, e: Entry, count: nat, last: nat)
    requires last < |links|
    ensures Leads(With(marks, links, k, e, Freed(count, last)), Relink(k),
                  With(marks, links[last := CLUSTER_OFFSET_EOF], k, e, Recording(count)))
  {}

  /** Cutting it off again. */
  lemma CutBack(links: seq<nat>, k: nat, c: nat, d: nat)
    requires c < |links| && d < |links| && c != d && links[c] == d && links[d] == CLUSTER_OFFSET_EOF
    ensures var steps := [Begin(k, CutTo(1)), ReadLast(k), Collect(k), FreeTail(k), Relink(k), Record(k)];
      var s := With({c, d}, links, k, Entry(c, 2), Idle);
      && IsRun(s, steps) && Lossless(s, steps)
      && Run(s, steps) == With({c}, links[c := CLUSTER_OFFSET_EOF], k, Entry(c, 1), Idle)
  {
    hide Leads, With;
    var e, m, end := Entry(c, 2), {c, d}, CLUSTER_OFFSET_EOF;
    var s0, s1 := With(m, links, k, e, Idle), With(m, links, k, e, Seeking(c, 0, CutTo(1)));
    var s2, s3 := With(m, links, k, e, Collecting(1, c, d, [])), With(m, links, k, e, Collecting(1, c, end, [d]));
    var s4, s5 := With({c}, links, k, e, Freed(1, c)), With({c}, links[c := end], k, e, Recording(1));
    var s6 := With({c}, links[c := end], k, Entry(c, 1), Idle);
    Begins(m, links, k, e, CutTo(1));
    ReadsLast(m, links, k, e, c, 1);
    Collects(m, links, k, e, 1, c, d);
    FreesTail(c, d, links, k, e, 1);
    Relinks({c}, links, k, e, 1, c);
    Records({c}, links[c := end], k, e, 1);
    StagesAreRun([s0, s1, s2, s3, s4, s5, s6],
                 [Begin(k, CutTo(1)), ReadLast(k), Collect(k), FreeTail(k), Relink(k), Record(k)]);
  }

  /** The level once nobody has the file open. */
  function Closed(links: seq<nat>, k: nat, c: nat): State {
    State({c}, links, map[k := Entry(c, 1)], map[], map[], multiset{}, Nobody)
  }

  /** The level once the file is gone from its table. */
  function Unbound(links: seq<nat>, c: nat, id: nat, cur: nat, got: seq<nat>): State {
    State({c}, links, map[], map[], map[id := Removal(cur, got)], multiset{}, Nobody)
  }

  lemma Closes(links: seq<nat>, k: nat, c: nat)
    ensures Leads(With({c}, links, k, Entry(c, 1), Idle), Close(k), Closed(links, k, c))
  {}

  lemma Unbinds(links: seq<nat>, k: nat, c: nat, id: nat)
    ensures Leads(Closed(links, k, c), Unbind(k, id), Unbound(links, c, id, c, []))
  {}

  lemma CollectsRemoved(links: seq<nat>, c: nat, id: nat)
    requires c < |links|
    ensures Leads(Unbound(links, c, id, c, []), CollectRemoved(id), Unbound(links, c, id, links[c], [c]))
  {
    assert [] + [c] == [c];
  }

  lemma FreesRemoved(links: seq<nat>, c: nat, id: nat)
    ensures Leads(Unbound(links, c, id, CLUSTER_OFFSET_EOF, [c]), FreeRemoved(id), Empty(links))
  {
    assert Elems([c]) == {c};
  }

  /** Closing and removing it: nothing is left. */
  lemma Gone(links: seq<nat>, k: nat, c: nat, id: nat)
    requires c < |links| && links[c] == CLUSTER_OFFSET_EOF
    ensures var steps := [Close(k), Unbind(k, id), CollectRemoved(id), FreeRemoved(id)];
      var s := With({c}, links, k, Entry(c, 1), Idle);
      && IsRun(s, steps) && Lossless(s, steps) && Run(s, steps) == Empty(links)
  {
    hide Leads, With, Closed, Unbound, Empty;
    var s0, s1 := With({c}, links, k, Entry(c, 1), Idle), Closed(links, k, c);
    var s2, s3 := Unbound(links, c, id, c, []), Unbound(links, c, id, CLUSTER_OFFSET_EOF, [c]);
    Closes(links, k, c);
    Unbinds(links, k, c, id);
    CollectsRemoved(links, c, id);
    FreesRemoved(links, c, id);
    StagesAreRun([s0, s1, s2, s3, Empty(links)], [Close(k), Unbind(k, id), CollectRemoved(id), FreeRemoved(id)]);
  }
}
