// Cluster links as a plain array of numbers: what following them yields.

/** Paths and walks over the links of all clusters, and which writes leave them alone. */
module Links {
  import opened Cluster
  import opened Files

  /** The clusters from `c` on, at most `n` of them, as far as the links stay in range. */
  function Walk(links: seq<nat>, c: nat, n: nat): seq<nat>
    decreases n
  {
    if n == 0 || c >= |links| then [] else [c] + Walk(links, links[c], n - 1)
  }

  /** Each cluster of the list links to the next one. */
  ghost predicate Path(links: seq<nat>, chain: seq<nat>) {
    && (forall i :: 0 <= i < |chain| ==> chain[i] < |links|)
    && (forall i :: 0 <= i < |chain| - 1 ==> links[chain[i]] == chain[i + 1])
  }

  /** The link that follows a list of clusters. */
  function LinkAfter(links: seq<nat>, chain: seq<nat>): nat
    requires chain != [] && chain[|chain| - 1] < |links|
  {
    links[chain[|chain| - 1]]
  }

  /** A nonempty path that ends in the end mark. */
  ghost predicate WholePath(links: seq<nat>, chain: seq<nat>) {
    chain != [] && Path(links, chain) && LinkAfter(links, chain) == CLUSTER_OFFSET_EOF
  }

  /** What position `i` of a list is, the end mark after its end. */
  function From(chain: seq<nat>, i: nat): nat {
    if i < |chain| then chain[i] else CLUSTER_OFFSET_EOF
  }

  lemma {:induction false} WalkPath(links: seq<nat>, chain: seq<nat>, n: nat)
    requires chain != [] && Path(links, chain) && |chain| <= n
    requires n == |chain| || LinkAfter(links, chain) >= |links|
    ensures Walk(links, chain[0], n) == chain
    decreases n
  {
    if |chain| == 1 {
      assert Walk(links, links[chain[0]], n - 1) == [];
    } else {
      var rest := chain[1..];
      assert LinkAfter(links, rest) == LinkAfter(links, chain);
      assert forall i :: 0 <= i < |rest| ==> rest[i] == chain[i + 1];
      WalkPath(links, rest, n - 1);
      assert chain == [chain[0]] + rest;
    }
  }

  /** A walk is a path, and it stops early only at a link out of range. */
  lemma {:induction false} WalkIsPath(links: seq<nat>, c: nat, n: nat)
    ensures var w := Walk(links, c, n);
      && Path(links, w) && |w| <= n && (w != [] ==> w[0] == c)
      && (|w| < n ==> (if w == [] then c else LinkAfter(links, w)) >= |links|)
    decreases n
  {
    if n > 0 && c < |links| {
      WalkIsPath(links, links[c], n - 1);
    }
  }

  /** A write outside a list leaves the list a path. */
  lemma PathKept(links: seq<nat>, links': seq<nat>, chain: seq<nat>)
    requires Path(links, chain) && |links'| == |links|
    requires forall c :: c in chain && c < |links| ==> links'[c] == links[c]
    ensures Path(links', chain) && (chain != [] ==> LinkAfter(links', chain) == LinkAfter(links, chain))
  {
    forall i | 0 <= i < |chain| ensures links'[chain[i]] == links[chain[i]] {
      assert chain[i] in chain;
    }
  }

  lemma PathJoin(links: seq<nat>, a: seq<nat>, b: seq<nat>)
    requires Path(links, a) && Path(links, b) && (a != [] && b != [] ==> LinkAfter(links, a) == b[0])
    ensures Path(links, a + b) && (b != [] ==> LinkAfter(links, a + b) == LinkAfter(links, b))
  {
    var all := a + b;
    forall i | 0 <= i < |all| - 1 ensures links[all[i]] == all[i + 1] {
      if i >= |a| {
        assert all[i] == b[i - |a|] && all[i + 1] == b[i - |a| + 1];
      }
    }
  }

  lemma PathPrefix(links: seq<nat>, chain: seq<nat>, k: nat)
    requires Path(links, chain) && k <= |chain|
    ensures Path(links, chain[..k]) && Path(links, chain[k..])
    ensures 0 < k < |chain| ==> LinkAfter(links, chain[..k]) == chain[k]
  {}

  /** No more distinct clusters than there are. */
  lemma {:induction false} AtMost(cs: set<nat>, n: nat)
    requires forall c :: c in cs ==> c < n
    ensures |cs| <= n
  {
    if n > 0 {
      AtMost(cs - {n - 1}, n - 1);
    } else {
      assert cs == {};
    }
  }

  lemma ChainFits(chain: seq<nat>, n: nat)
    requires NoDup(chain) && forall c :: c in chain ==> c < n
    ensures |chain| <= n
  {
    ElemsCount(chain);
    AtMost(Elems(chain), n);
  }
}
