// What creating, removing, renaming and exchanging entries (src/bsfs.c) means for the directory and its files.

/** Table changes as changes of a map from names to slots, and what they do to the files of the level. */
module Directory {
  import opened BitUtil
  import opened Errors
  import opened Cluster
  import opened Bft
  import opened Files

  /** A lookup is a lookup in the map. */
  lemma LookupIsDir(t: seq<Slot>, name: Name)
    requires IsDirectory(t)
    ensures Lookup(t, name) == if name in Dir(t) then Ok(Dir(t)[name]) else Err(ENOENT)
    ensures name in Dir(t) ==> Named(t, Dir(t)[name], name)
  {
    LookupInDirectory(t, name);
    if name in Dir(t) {
      DirHas(t, name);
    } else {
      forall k | 0 <= k < |t| && t[k].Used? ensures t[k].ent.name != name {
        DirAt(t, k);
      }
      assert forall k :: !Named(t, k, name);
    }
  }

  lemma DirHas(t: seq<Slot>, n: Name)
    requires IsDirectory(t) && n in Dir(t)
    ensures Named(t, Dir(t)[n], n)
  {
    hide LookupFrom;
    var i: nat :| i < |t| && t[i].Used? && t[i].ent.name == n;
    DirAt(t, i);
  }

  lemma DirAt(t: seq<Slot>, i: nat)
    requires IsDirectory(t) && i < |t| && t[i].Used?
    ensures t[i].ent.name in Dir(t) && Dir(t)[t[i].ent.name] == i
  {
    hide LookupFrom;
    LookupInDirectory(t, t[i].ent.name);
    assert Named(t, i, t[i].ent.name);
  }

  lemma Bound(t: seq<Slot>, t': seq<Slot>, n: Name)
    requires IsDirectory(t) && IsDirectory(t')
    ensures n in Dir(t) ==> Named(t, Dir(t)[n], n)
    ensures n in Dir(t') ==> Named(t', Dir(t')[n], n)
  {
    hide Dir;
    if n in Dir(t) {
      DirHas(t, n);
    }
    if n in Dir(t') {
      DirHas(t', n);
    }
  }

  /** Filling a free slot under a new name adds one binding. */
  lemma DirCreated(t: seq<Slot>, i: nat, e: Entry)
    requires IsDirectory(t) && i < |t| && !t[i].Used? && e.name != [] && e.name !in Dir(t)
    ensures IsDirectory(t[i := Used(e)]) && Dir(t[i := Used(e)]) == Dir(t)[e.name := i]
  {
    hide Dir;
    var t' := t[i := Used(e)];
    forall j | 0 <= j < |t| && t[j].Used? ensures t[j].ent.name != e.name {
      DirAt(t, j);
    }
    assert IsDirectory(t');
    forall n: Name ensures n in Dir(t') <==> n in Dir(t)[e.name := i] {
      SameBinding(t, t', i, n);
      Bound(t, t', n);
      if n == e.name {
        DirAt(t', i);
      }
    }
    forall n: Name | n in Dir(t') ensures Dir(t')[n] == Dir(t)[e.name := i][n] {
      SameBinding(t, t', i, n);
      Bound(t, t', n);
      if n == e.name {
        DirAt(t', i);
      }
    }
  }

  /** A name bound to another slot than the one that changed is bound as before. */
  lemma SameBinding(t: seq<Slot>, t': seq<Slot>, i: nat, n: Name)
    requires IsDirectory(t) && IsDirectory(t') && i < |t| == |t'| && t' == t[i := t'[i]]
    ensures n in Dir(t) && Dir(t)[n] != i ==> n in Dir(t') && Dir(t')[n] == Dir(t)[n]
    ensures n in Dir(t') && Dir(t')[n] != i ==> n in Dir(t) && Dir(t)[n] == Dir(t')[n]
  {
    hide Dir;
    if n in Dir(t) {
      DirHas(t, n);
      if Dir(t)[n] != i {
        DirAt(t', Dir(t)[n]);
      }
    }
    if n in Dir(t') {
      DirHas(t', n);
      if Dir(t')[n] != i {
        DirAt(t, Dir(t')[n]);
      }
    }
  }

  /** Erasing a slot removes the binding of its name. */
  lemma DirRemoved(t: seq<Slot>, i: nat)
    requires IsDirectory(t) && i < |t| && t[i].Used?
    ensures IsDirectory(t[i := Free]) && Dir(t[i := Free]) == Dir(t) - {t[i].ent.name}
  {
    hide Dir;
    var t' := t[i := Free];
    DirAt(t, i);
    forall n: Name ensures n in Dir(t') <==> n in Dir(t) - {t[i].ent.name} {
      SameBinding(t, t', i, n);
      Bound(t, t', n);
      if n in Dir(t) {
        DirHas(t, n);
      }
    }
    forall n: Name | n in Dir(t') ensures Dir(t')[n] == Dir(t)[n] {
      SameBinding(t, t', i, n);
      Bound(t, t', n);
    }
  }

  /** Renaming to an unused name moves one binding. */
  lemma DirRenamed(t: seq<Slot>, i: nat, e: Entry)
    requires IsDirectory(t) && i < |t| && t[i].Used? && e.name != [] && e.name !in Dir(t)
    ensures IsDirectory(t[i := Used(e)]) && Dir(t[i := Used(e)]) == (Dir(t) - {t[i].ent.name})[e.name := i]
  {
    hide Dir;
    DirRemoved(t, i);
    DirCreated(t[i := Free], i, e);
    assert t[i := Free][i := Used(e)] == t[i := Used(e)];
  }

  /** Swapping the names of two slots swaps their bindings. */
  lemma DirExchanged(t: seq<Slot>, i: nat, j: nat)
    requires IsDirectory(t) && i < |t| && j < |t| && t[i].Used? && t[j].Used?
    ensures var a, b := t[i].ent, t[j].ent;
      var t' := t[i := Used(a.(name := b.name))][j := Used(b.(name := a.name))];
      IsDirectory(t') && Dir(t') == Dir(t)[a.name := j][b.name := i]
  {
    hide Dir;
    var a, b := t[i].ent, t[j].ent;
    var t' := t[i := Used(a.(name := b.name))][j := Used(b.(name := a.name))];
    DirAt(t, i);
    DirAt(t, j);
    if i == j {
      assert t' == t;
    } else {
      DirRemoved(t, i);
      var t1 := t[i := Free];
      DirRenamed(t1, j, b.(name := a.name));
      var t2 := t1[j := Used(b.(name := a.name))];
      DirCreated(t2, i, a.(name := b.name));
      assert t2[i := Used(a.(name := b.name))] == t';
    }
  }

  // ---------- the files ----------

  /** A new file with one empty cluster. */
  lemma FileCreated(s: Store, c: nat, block: seq<byte>, t: seq<Slot>, chains: seq<seq<nat>>, i: nat, e: Entry)
    requires FilesOk(s, t, chains) && Disjoint(chains) && i < |t| && !t[i].Used? && c < |s| && c !in OwnedSet(chains)
    requires |block| == CLUSTER_SIZE && FsNextCluster(block) == CLUSTER_OFFSET_EOF && e.initialCluster == c
    requires e.size == 0
    ensures FilesOk(s[c := block], t[i := Used(e)], chains[i := [c]]) && Disjoint(chains[i := [c]])
    ensures FilesSame(s, s[c := block], chains)
    ensures OwnedSet(chains[i := [c]]) == OwnedSet(chains) + {c}
  {
    hide FsNextCluster, FileOk;
    var s', more := s[c := block], [c];
    assert Elems(more) == {c};
    assert chains[i] + more == more;
    UnownedWrites(s, s', t, chains, more);
    DisjointGrows(chains, i, more);
    OwnedGrows(chains, i, more);
    NewFileOk(s', c, e);
  }

  /** The level after `mknod`: in order exactly when the first cluster was written, and so kept its mark. */
  lemma FileMade(s: Store, block: seq<byte>, t: seq<Slot>, chains: seq<seq<nat>>, bm: seq<byte>, leaked: set<nat>,
                 n: nat, i: nat, e: Entry, written: bool)
    requires FilesOk(s, t, chains) && Disjoint(chains) && IsDirectory(t) && MarksOk(bm, chains, leaked, n) && n <= |s|
    requires i < |t| && !t[i].Used? && e.name != [] && e.name !in Dir(t) && e.initialCluster < n
    requires e.initialCluster !in Marks(bm, n)
    requires |block| == CLUSTER_SIZE && FsNextCluster(block) == CLUSTER_OFFSET_EOF && e.size == 0
    ensures var c := e.initialCluster; var s', t', chains' := if written then s[c := block]
        else s, t[i := Used(e)], chains[i := [c]];
      && StoreOk(s') && FilesSame(s, s', chains) && FilesOk(s', t, chains) && Disjoint(chains')
      && IsDirectory(t') && Dir(t') == Dir(t)[e.name := i]
      && |chains| == |t|
      && OwnedSet(chains') == OwnedSet(chains) + {c} && c !in leaked
      && (written ==> FilesOk(s', t', chains'))
  {
    hide FsNextCluster, FileOk, Marks, Dir, Disjoint, FilesSame, OwnedSet, IsDirectory;
    var c := e.initialCluster;
    DirCreated(t, i, e);
    FileCreated(s, c, block, t, chains, i, e);
    assert Elems([c]) == {c};
    UnownedWrites(s, s[c := block], t, chains, [c]);
    UnownedWrites(s, s, t, chains, []);
  }

  lemma NewFileOk(s: Store, c: nat, e: Entry)
    requires StoreOk(s) && c < |s| && FsNextCluster(s[c]) == CLUSTER_OFFSET_EOF && e.initialCluster == c && e.size == 0
    ensures FileOk(s, [c], e)
  {}

  /** A file is gone: its clusters are nobody's. */
  lemma FileRemoved(s: Store, t: seq<Slot>, chains: seq<seq<nat>>, i: nat)
    requires FilesOk(s, t, chains) && Disjoint(chains) && i < |t| && t[i].Used?
    ensures FilesOk(s, t[i := Free], chains[i := []]) && Disjoint(chains[i := []])
    ensures OwnedSet(chains[i := []]) == OwnedSet(chains) - Elems(chains[i])
    ensures Elems(chains[i]) <= OwnedSet(chains)
  {
    assert chains[i][..0] == [] && chains[i][0..] == chains[i];
    OwnedShrinks(chains, i, 0);
    forall c | c in chains[i] ensures c in OwnedSet(chains) {
      OwnedHas(chains, i, c);
    }
  }

  /** A name is no part of what a file is. */
  lemma FileRenamed(s: Store, t: seq<Slot>, chains: seq<seq<nat>>, i: nat, name: Name)
    requires FilesOk(s, t, chains) && i < |t| && t[i].Used?
    ensures FilesOk(s, t[i := Used(t[i].ent.(name := name))], chains)
  {
    hide ChainOk, ChainLen;
  }

  /** The marks after a removal: the chain was freed, or could not be read and leaks as a whole. */
  lemma MarksRemoved(bm: seq<byte>, bm': seq<byte>, chains: seq<seq<nat>>, leaked: set<nat>, n: nat, i: nat,
                     freed: bool)
    requires MarksOk(bm, chains, leaked, n) && |bm'| == |bm| && i < |chains| && Elems(chains[i]) <= OwnedSet(chains)
    requires OwnedSet(chains[i := []]) == OwnedSet(chains) - Elems(chains[i])
    requires Marks(bm', n) == if freed then Marks(bm, n) - Elems(chains[i]) else Marks(bm, n)
    ensures MarksOk(bm', chains[i := []], if freed then leaked else leaked + Elems(chains[i]), n)
  {
    hide Marks, OwnedSet, Elems;
  }

  /**
   * Some choice of chains and leaked clusters explains store, table and bitmap. `Files.ChainsUnique` leaves no
   * choice for the chains.
   */
  ghost predicate Explained(s: Store, t: seq<Slot>, bm: seq<byte>, n: nat) {
    exists chains, leaked :: Explains(s, t, bm, n, chains, leaked)
  }

  ghost predicate Explains(s: Store, t: seq<Slot>, bm: seq<byte>, n: nat, chains: seq<seq<nat>>, leaked: set<nat>) {
    FilesOk(s, t, chains) && Disjoint(chains) && MarksOk(bm, chains, leaked, n) && IsDirectory(t)
  }

  lemma ExplainedBy(s: Store, t: seq<Slot>, bm: seq<byte>, n: nat, chains: seq<seq<nat>>, leaked: set<nat>)
    requires Explains(s, t, bm, n, chains, leaked)
    ensures Explained(s, t, bm, n)
  {}

  /** A file whose chain does not have the length that its size asks for. */
  lemma WrongLength(s: Store, t: seq<Slot>, bm: seq<byte>, n: nat, f: nat, chain: seq<nat>)
    requires f < |t| && t[f].Used? && ChainOk(s, chain) && chain[0] == t[f].ent.initialCluster
    requires |chain| != ChainLen(t[f].ent.size)
    ensures !Explained(s, t, bm, n)
  {
    hide FsNextCluster;
    forall chains, leaked ensures !Explains(s, t, bm, n, chains, leaked) {
      if Explains(s, t, bm, n, chains, leaked) {
        ChainUnique(s, chains[f], chain);
      }
    }
  }

  /** A file whose first cluster is not marked. */
  lemma FirstUnmarked(s: Store, t: seq<Slot>, bm: seq<byte>, n: nat, f: nat)
    requires f < |t| && t[f].Used? && t[f].ent.initialCluster !in Marks(bm, n)
    ensures !Explained(s, t, bm, n)
  {
    hide FilesOk, MarksOk;
    forall chains, leaked ensures !Explains(s, t, bm, n, chains, leaked) {
      UnmarkedOwner(s, t, bm, n, f, chains, leaked);
    }
  }

  /** Freeing clusters that files still link to leaves a state nothing explains, unless there were none. */
  lemma FreedButLinked(s: Store, t: seq<Slot>, bm: seq<byte>, bm': seq<byte>, n: nat, chains: seq<seq<nat>>,
                       leaked: set<nat>, freed: set<nat>)
    requires Explains(s, t, bm, n, chains, leaked) && |bm'| == |bm| && freed <= OwnedSet(chains)
    requires Marks(bm', n) == Marks(bm, n) - freed
    ensures Explained(s, t, bm', n) <==> freed == {}
    ensures Explains(s, t, bm', n, chains, leaked) <==> freed == {}
  {
    hide Marks, OwnedSet, FilesOk, Disjoint, IsDirectory;
    if freed == {} {
      assert Marks(bm', n) == Marks(bm, n);
      ExplainedBy(s, t, bm', n, chains, leaked);
    } else {
      var c :| c in freed;
      assert c !in Marks(bm', n);
      forall chains', leaked' ensures !Explains(s, t, bm', n, chains', leaked') {
        if Explains(s, t, bm', n, chains', leaked') {
          ChainsUnique(s, t, chains, chains');
        }
      }
    }
  }

  // ---------- renaming ----------

  function ChainLenAt(chains: seq<seq<nat>>, i: nat): nat {
    if i < |chains| then |chains[i]| else 0
  }

  /** One binding is gone, and the slot it led to is free. */
  ghost predicate Unbound(t: seq<Slot>, t': seq<Slot>, name: Name) {
    && name in Dir(t) && Dir(t)[name] < |t| && t' == t[Dir(t)[name] := Free]
    && IsDirectory(t') && Dir(t') == Dir(t) - {name}
  }

  /** One binding moved to an unused name; all else about the file is as before. */
  ghost predicate Moved(t: seq<Slot>, t': seq<Slot>, oldName: Name, newName: Name) {
    oldName in Dir(t) && var i := Dir(t)[oldName];
    && i < |t| && t[i].Used? && t' == t[i := Used(t[i].ent.(name := newName))]
    && IsDirectory(t') && Dir(t') == (Dir(t) - {oldName})[newName := i]
  }

  /** One binding moved to a name whose former file is gone. */
  ghost predicate Replaced(t: seq<Slot>, t': seq<Slot>, oldName: Name, newName: Name) {
    oldName in Dir(t) && newName in Dir(t) && var i, j := Dir(t)[oldName], Dir(t)[newName];
    && i < |t| && j < |t| && t[i].Used? && t' == t[j := Free][i := Used(t[i].ent.(name := newName))]
    && IsDirectory(t') && Dir(t') == (Dir(t) - {oldName})[newName := i]
  }

  /** Two bindings traded places. */
  ghost predicate Exchanged(t: seq<Slot>, t': seq<Slot>, oldName: Name, newName: Name) {
    oldName in Dir(t) && newName in Dir(t) && var i, j := Dir(t)[oldName], Dir(t)[newName];
    && i < |t| && j < |t| && t[i].Used? && t[j].Used?
    && t' == t[i := Used(t[i].ent.(name := newName))][j := Used(t[j].ent.(name := oldName))]
    && IsDirectory(t') && Dir(t') == Dir(t)[oldName := j][newName := i]
  }

  /** A file renamed to its own name: the entry keeps nothing but the name. */
  ghost predicate SelfRenamed(t: seq<Slot>, t': seq<Slot>, name: Name) {
    name in Dir(t) && Dir(t)[name] < |t| && t' == t[Dir(t)[name] := Used(Entry(name, 0, 0, 0, 0, 0))]
  }

  /** Chain `j` is nobody's any more: its clusters are free, or they leak as a whole. */
  ghost predicate GivenBack(chains: seq<seq<nat>>, chains': seq<seq<nat>>, leaked: set<nat>, leaked': set<nat>,
                            marks: set<nat>, marks': set<nat>, j: nat, freed: bool) {
    && j < |chains| && chains' == chains[j := []]
    && leaked' == (if freed then leaked else leaked + Elems(chains[j]))
    && marks' == (if freed then marks - Elems(chains[j]) else marks)
  }

  lemma MoveIsFine(s: Store, t: seq<Slot>, chains: seq<seq<nat>>, oldName: Name, newName: Name)
    requires FilesOk(s, t, chains) && IsDirectory(t) && oldName in Dir(t) && newName !in Dir(t) && newName != []
    ensures Named(t, Dir(t)[oldName], oldName)
    ensures var t' := t[Dir(t)[oldName] := Used(t[Dir(t)[oldName]].ent.(name := newName))];
      Moved(t, t', oldName, newName) && FilesOk(s, t', chains) && IsDirectory(t')
  {
    hide Dir, IsDirectory, FilesOk;
    DirHas(t, oldName);
    var i := Dir(t)[oldName];
    DirRenamed(t, i, t[i].ent.(name := newName));
    FileRenamed(s, t, chains, i, newName);
  }

  lemma ReplaceIsFine(s: Store, t: seq<Slot>, chains: seq<seq<nat>>, oldName: Name, newName: Name)
    requires IsDirectory(t) && oldName in Dir(t) && newName in Dir(t) && oldName != newName && newName != []
    requires Dir(t)[newName] < |t|
    requires FilesOk(s, t[Dir(t)[newName] := Free], chains)
    ensures Named(t, Dir(t)[oldName], oldName) && Dir(t)[oldName] != Dir(t)[newName]
    ensures var i, j := Dir(t)[oldName], Dir(t)[newName];
      var t' := t[j := Free][i := Used(t[i].ent.(name := newName))];
      Replaced(t, t', oldName, newName) && FilesOk(s, t', chains) && IsDirectory(t')
  {
    hide Dir, IsDirectory, FilesOk;
    DirHas(t, oldName);
    DirHas(t, newName);
    var i, j := Dir(t)[oldName], Dir(t)[newName];
    DirRemoved(t, j);
    var t1 := t[j := Free];
    assert t1[i] == t[i];
    DirRenamed(t1, i, t[i].ent.(name := newName));
    FileRenamed(s, t1, chains, i, newName);
    assert ((Dir(t) - {newName}) - {oldName})[newName := i] == (Dir(t) - {oldName})[newName := i];
  }

  lemma ExchangeIsFine(s: Store, t: seq<Slot>, chains: seq<seq<nat>>, oldName: Name, newName: Name)
    requires FilesOk(s, t, chains) && IsDirectory(t) && oldName in Dir(t) && newName in Dir(t)
    ensures Named(t, Dir(t)[oldName], oldName) && Named(t, Dir(t)[newName], newName)
    ensures var i, j := Dir(t)[oldName], Dir(t)[newName];
      var t' := t[i := Used(t[i].ent.(name := newName))][j := Used(t[j].ent.(name := oldName))];
      Exchanged(t, t', oldName, newName) && FilesOk(s, t', chains) && IsDirectory(t')
  {
    hide Dir, IsDirectory, FilesOk;
    DirHas(t, oldName);
    DirHas(t, newName);
    var i, j := Dir(t)[oldName], Dir(t)[newName];
    DirExchanged(t, i, j);
    FileRenamed(s, t, chains, i, newName);
    var t1 := t[i := Used(t[i].ent.(name := newName))];
    FileRenamed(s, t1, chains, j, oldName);
    assert t1[j].ent.(name := oldName) == t[j].ent.(name := oldName);
  }

  /** Cluster 0 has leaked and could be the only cluster of a file. */
  ghost predicate ZeroIsSpare(s: Store, leaked: set<nat>) {
    0 in leaked && |s| > 0 && |s[0]| == CLUSTER_SIZE && FsNextCluster(s[0]) == CLUSTER_OFFSET_EOF
  }

  lemma ZeroTaken(s: Store, t: seq<Slot>, bm: seq<byte>, n: nat, i: nat, name: Name, chains: seq<seq<nat>>,
                  leaked: set<nat>)
    requires i < |t| && n <= |s| && FilesOk(s, t[i := Free], chains) && Disjoint(chains)
    requires MarksOk(bm, chains, leaked, n)
    requires IsDirectory(t[i := Used(Entry(name, 0, 0, 0, 0, 0))]) && ZeroIsSpare(s, leaked)
    ensures i < |chains| && Explains(s, t[i := Used(Entry(name, 0, 0, 0, 0, 0))], bm, n, chains[i := [0]], leaked - {0})
  {
    hide FsNextCluster, Marks, IsDirectory, FileOk;
    var t', chains' := t[i := Used(Entry(name, 0, 0, 0, 0, 0))], chains[i := [0]];
    NewFileOk(s, 0, t'[i].ent);
    assert Elems([0]) == {0} && chains[i] + [0] == [0];
    DisjointGrows(chains, i, [0]);
    OwnedGrows(chains, i, [0]);
    assert forall j :: 0 <= j < |t'| && j != i ==> t'[j] == t[i := Free][j];
  }

  /**
   * The entry that renaming a file to its own name leaves behind: whatever chains and leaked clusters are tried,
   * they explain the level exactly when cluster 0 has leaked and links to nothing.
   */
  lemma RecreatedExactly(s: Store, t: seq<Slot>, bm: seq<byte>, n: nat, i: nat, name: Name, chains: seq<seq<nat>>,
                         leaked: set<nat>)
    requires i < |t| && n <= |s| && FilesOk(s, t[i := Free], chains) && Disjoint(chains)
    requires MarksOk(bm, chains, leaked, n)
    requires IsDirectory(t[i := Used(Entry(name, 0, 0, 0, 0, 0))])
    ensures Explained(s, t[i := Used(Entry(name, 0, 0, 0, 0, 0))], bm, n) <==> ZeroIsSpare(s, leaked)
  {
    hide FilesOk, Disjoint, MarksOk, IsDirectory, ZeroIsSpare;
    var t' := t[i := Used(Entry(name, 0, 0, 0, 0, 0))];
    if ZeroIsSpare(s, leaked) {
      ZeroTaken(s, t, bm, n, i, name, chains, leaked);
      ExplainedBy(s, t', bm, n, chains[i := [0]], leaked - {0});
    } else {
      forall other, otherLeaked ensures !Explains(s, t', bm, n, other, otherLeaked) {
        if Explains(s, t', bm, n, other, otherLeaked) {
          RecreatedNeedsZero(s, t, bm, n, i, name, chains, leaked, other, otherLeaked);
        }
      }
    }
  }

  lemma RecreatedNeedsZero(s: Store, t: seq<Slot>, bm: seq<byte>, n: nat, i: nat, name: Name,
                           chains: seq<seq<nat>>, leaked: set<nat>, other: seq<seq<nat>>, otherLeaked: set<nat>)
    requires i < |t| && n <= |s| && FilesOk(s, t[i := Free], chains) && MarksOk(bm, chains, leaked, n)
    requires Explains(s, t[i := Used(Entry(name, 0, 0, 0, 0, 0))], bm, n, other, otherLeaked)
    ensures ZeroIsSpare(s, leaked)
  {
    hide FsNextCluster, Marks, IsDirectory;
    assert other[i][0] == 0;
    NextInChain(s, other[i], 0);
    OwnedHas(other, i, 0);
    forall k: nat | k < |chains| ensures 0 !in chains[k] {
      if k != i && chains[k] != [] {
        ChainUnique(s, chains[k], other[k]);
      }
    }
  }
}
