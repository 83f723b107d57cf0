// Model of src/oft.c: the open file table, an intrusive chained hash table that rehashes in place.

/** Open files, chained through their own `next` fields, and the table that finds them by index. */
module Oft {
  import opened BitUtil
  import opened Errors

  const OFT_INITIAL_BUCKET_COUNT: nat := 8

  // ---------- powers of two ----------

  /** `&` on unsigned numbers. */
  function BitAnd(a: nat, b: nat): nat {
    if a == 0 || b == 0 then 0 else (if a % 2 == 1 && b % 2 == 1 then 1 else 0) + 2 * BitAnd(a / 2, b / 2)
  }

  /** A binary digit of the result is set exactly if it is in both numbers. */
  lemma {:induction false} AndDigits(a: nat, b: nat, k: nat)
    ensures Digit(BitAnd(a, b), k) == (Digit(a, k) && Digit(b, k))
    decreases k
  {
    if a == 0 || b == 0 {
      ZeroDigits(k);
    } else if k > 0 {
      AndDigits(a / 2, b / 2, k - 1);
    }
  }

  lemma {:induction false} ZeroDigits(k: nat)
    ensures !Digit(0, k)
  {
    if k > 0 {
      ZeroDigits(k - 1);
    }
  }

  predicate IsPowerOf2(n: nat) {
    if n <= 1 then n == 1 else n % 2 == 0 && IsPowerOf2(n / 2)
  }

  lemma {:induction false} PowersArePowers(n: nat) returns (k: nat)
    requires IsPowerOf2(n)
    ensures n == Pow2(k)
  {
    if n <= 1 {
      k := 0;
    } else {
      var j := PowersArePowers(n / 2);
      k := j + 1;
    }
  }

  lemma {:induction false} AllPowers(k: nat)
    ensures IsPowerOf2(Pow2(k))
  {
    if k > 0 {
      AllPowers(k - 1);
    }
  }

  /** The test of `alloc_buckets` accepts the powers of two and nothing else. */
  lemma {:induction false} PowerOf2Test(n: nat)
    requires n > 0
    ensures IsPowerOf2(n) <==> BitAnd(n, n - 1) == 0
  {
    if n > 1 {
      PowerOf2Test(n / 2);
      if n % 2 == 0 {
        assert (n - 1) / 2 == n / 2 - 1;
      } else {
        AndSelf(n / 2);
      }
    }
  }

  lemma {:induction false} AndSelf(a: nat)
    ensures BitAnd(a, a) == a
  {
    if a > 0 {
      AndSelf(a / 2);
    }
  }

  /** With a power of two the mask is a remainder. */
  lemma {:induction false} MaskIsRemainder(a: nat, n: nat)
    requires IsPowerOf2(n)
    ensures BitAnd(a, n - 1) == a % n < n
  {
    if n > 1 {
      var h := n / 2;
      MaskIsRemainder(a / 2, h);
      assert (n - 1) / 2 == h - 1 && (n - 1) % 2 == 1;
      HalfRemainder(a, h);
    }
  }

  lemma HalfRemainder(a: nat, h: nat)
    requires h > 0
    ensures a % (2 * h) == a % 2 + 2 * (a / 2 % h)
  {
    var q, r := a / 2 / h, a / 2 % h;
    assert a / 2 == q * h + r;
    assert a == 2 * (q * h + r) + a % 2;
    assert a == q * (2 * h) + (2 * r + a % 2);
    DivModUnique(a, 2 * h, q, 2 * r + a % 2);
  }

  function BucketOf(index: nat, bucketCount: nat): nat
    requires bucketCount > 0
  {
    BitAnd(index, bucketCount - 1)
  }

  lemma BucketInRange(index: nat, bucketCount: nat)
    requires IsPowerOf2(bucketCount)
    ensures bucketCount > 0 && BucketOf(index, bucketCount) == index % bucketCount < bucketCount
  {
    MaskIsRemainder(index, bucketCount);
  }

  // ---------- open files ----------

  class BsFile {
    const index: nat
    var refcount: int
    var next: BsFile?

    /** The initial reference count is 0. */
    constructor (index: nat)
      ensures this.index == index && refcount == 0
    {
      this.index, refcount, next := index, 0, null;
    }
  }

  /** The list that starts at `head` is `chain`. */
  ghost predicate Seg(head: BsFile?, chain: seq<BsFile>)
    reads chain
  {
    && head == (if chain == [] then null else chain[0])
    && forall i :: 0 <= i < |chain| ==> chain[i].next == if i + 1 < |chain| then chain[i + 1] else null
  }

  lemma NextOf(head: BsFile?, chain: seq<BsFile>, i: nat)
    requires Seg(head, chain) && i < |chain|
    ensures chain[i].next == if i + 1 < |chain| then chain[i + 1] else null
  {}

  /** The chain of bucket `b` holds exactly the files that belong there, once each. */
  ghost predicate Sorted(chain: seq<BsFile>, files: map<nat, BsFile>, b: nat, count: nat)
    requires count > 0
  {
    && (forall i, j :: 0 <= i < j < |chain| ==> chain[i] != chain[j])
    && (forall f :: f in chain ==>
        f in files.Values && f.index in files && files[f.index] == f &&
        BucketOf(f.index, count) == b)
    && (forall k :: k in files && BucketOf(k, count) == b ==> files[k] in chain)
  }

  /** A file knows the index it is registered under. */
  ghost predicate Indexed(files: map<nat, BsFile>) {
    forall k :: k in files ==> files[k].index == k
  }

  /** Puts a file at the head of its bucket. */
  method OftDoInsert(buckets: array<BsFile?>, bucketCount: nat, file: BsFile)
    requires IsPowerOf2(bucketCount) && buckets.Length == bucketCount
    modifies buckets, file`next
    ensures BucketOf(file.index, bucketCount) < bucketCount
    ensures file.next == old(buckets[BucketOf(file.index, bucketCount)])
    ensures buckets[..] == old(buckets[..])[BucketOf(file.index, bucketCount) := file]
  {
    BucketInRange(file.index, bucketCount);
    var bucket := BucketOf(file.index, bucketCount);
    file.next := buckets[bucket];
    buckets[bucket] := file;
  }

  method AllocBuckets(bucketCount: nat) returns (ret: Status, buckets: array<BsFile?>)
    ensures fresh(buckets)
    ensures ret == if IsPowerOf2(bucketCount) then Done else Failed(EINVAL)
    ensures ret == Done ==> buckets.Length == bucketCount && forall i :: 0 <= i < bucketCount ==> buckets[i] == null
  {
    if bucketCount > 0 {
      PowerOf2Test(bucketCount);
    }
    if bucketCount == 0 || BitAnd(bucketCount, bucketCount - 1) != 0 {
      buckets := new BsFile?[0];
      return Failed(EINVAL), buckets;
    }
    buckets := new BsFile?[bucketCount](_ => null);
    return Done, buckets;
  }

  // ---------- the table ----------

  /** The buckets hold the files, each in the bucket of its index. */
  ghost predicate HashOk(heads: seq<BsFile?>, chains: seq<seq<BsFile>>, files: map<nat, BsFile>, count: nat)
    reads files.Values
  {
    && IsPowerOf2(count) && count > 0 && |heads| == |chains| == count && Indexed(files)
    && (forall b :: 0 <= b < count ==> Sorted(chains[b], files, b, count))
    && (forall b :: 0 <= b < count ==> Seg(heads[b], chains[b]))
  }

  lemma HashAt(heads: seq<BsFile?>, chains: seq<seq<BsFile>>, files: map<nat, BsFile>, count: nat, index: nat)
    requires HashOk(heads, chains, files, count)
    ensures var b := BucketOf(index, count);
      b < count && Sorted(chains[b], files, b, count) && Seg(heads[b], chains[b])
  {
    BucketInRange(index, count);
  }

  /** One more file in front of its chain. */
  lemma SortedPush(chain: seq<BsFile>, files: map<nat, BsFile>, b: nat, count: nat, file: BsFile)
    requires count > 0 && Sorted(chain, files, b, count) && Indexed(files) && file.index !in files
    ensures Sorted(if BucketOf(file.index, count) == b then [file] + chain else chain,
                   files[file.index := file], b, count)
  {
    hide BucketOf;
    var files' := files[file.index := file];
    assert file.index in files' && files'[file.index] == file;
    forall f | f in chain ensures f in files'.Values && f.index in files' && files'[f.index] == f && f != file {
      assert files'[f.index] == f;
    }
  }

  lemma SegPush(file: BsFile, chain: seq<BsFile>)
    requires Seg(file.next, chain)
    ensures Seg(file, [file] + chain)
  {
    var c := [file] + chain;
    assert c != [] && c[0] == file;
    forall i | 0 <= i < |c| ensures c[i].next == if i + 1 < |c| then c[i + 1] else null {
      if i > 0 {
        NextOf(file.next, chain, i - 1);
      }
    }
    assert forall i :: 0 <= i < |c| ==> c[i].next == if i + 1 < |c| then c[i + 1] else null;
    assert file == (if c == [] then null else c[0]);
    assert Seg(file, c);
  }

  /** A file that is not in the table is in none of its chains. */
  lemma NotThere(chains: seq<seq<BsFile>>, files: map<nat, BsFile>, count: nat, file: BsFile)
    requires count > 0 && |chains| == count && file.index !in files
    requires forall b :: 0 <= b < count ==> Sorted(chains[b], files, b, count)
    ensures forall b :: 0 <= b < count ==> file !in chains[b]
  {
    hide BucketOf;
  }

  /** `oft_do_insert` of a file with a new index adds exactly that file. */
  method AddFile(buckets: array<BsFile?>, bucketCount: nat, file: BsFile, ghost chains: seq<seq<BsFile>>,
                 ghost files: map<nat, BsFile>)
    returns (ghost chains': seq<seq<BsFile>>)
    requires buckets.Length == bucketCount && HashOk(buckets[..], chains, files, bucketCount) && file.index !in files
    modifies buckets, file`next
    ensures HashOk(buckets[..], chains', files[file.index := file], bucketCount)
  {
    hide Sorted, BucketOf;
    ghost var heads, b := buckets[..], BucketOf(file.index, bucketCount);
    HashAt(heads, chains, files, bucketCount, file.index);
    NotThere(chains, files, bucketCount, file);
    OftDoInsert(buckets, bucketCount, file);
    chains' := chains[b := [file] + chains[b]];
    forall k | 0 <= k < bucketCount
      ensures Sorted(chains'[k], files[file.index := file], k, bucketCount) && Seg(buckets[k], chains'[k])
    {
      SortedPush(chains[k], files, k, bucketCount, file);
      assert Seg(heads[k], chains[k]);
      if k == b {
        SegPush(file, chains[b]);
      }
    }
  }

  /** `atomic_fetch_add`: no link changes, so the table is as it was. */
  method AddToRefcount(file: BsFile, n: int, ghost heads: seq<BsFile?>, ghost chains: seq<seq<BsFile>>,
                       ghost files: map<nat, BsFile>, ghost count: nat)
    requires HashOk(heads, chains, files, count)
    modifies file`refcount
    ensures file.refcount == old(file.refcount) + n && HashOk(heads, chains, files, count)
  {
    hide Sorted, BucketOf;
    file.refcount := file.refcount + n;
  }

  class OpenFileTable {
    var buckets: array<BsFile?>
    var bucketCount: nat
    var size: nat

    ghost var files: map<nat, BsFile>     // what the table holds, by index
    ghost var chains: seq<seq<BsFile>>    // the list of every bucket

    /** The table holds `files`, and never more of them than it has buckets. */
    ghost predicate Valid()
      reads this, buckets, files.Values
    {
      buckets.Length == bucketCount && HashOk(buckets[..], chains, files, bucketCount) && size == |files| <= bucketCount
    }

    constructor ()
      ensures Valid() && files == map[] && fresh(buckets)
    {
      bucketCount, size := OFT_INITIAL_BUCKET_COUNT, 0;
      files := map[];
      chains := seq(OFT_INITIAL_BUCKET_COUNT, _ => []);
      new;
      assert IsPowerOf2(4);
      var ret: Status;
      ret, buckets := AllocBuckets(bucketCount);
    }

    /** The file registered under an index, if there is one. */
    method OftFind(index: nat) returns (file: BsFile?)
      requires Valid()
      ensures file == if index in files then files[index] else null
    {
      HashAt(buckets[..], chains, files, bucketCount, index);
      var bucket := BucketOf(index, bucketCount);
      ghost var chain, k := chains[bucket], 0;
      file := buckets[bucket];
      while file != null && file.index != index
        invariant k <= |chain| && file == if k < |chain| then chain[k] else null
        invariant forall i :: 0 <= i < k ==> chain[i].index != index
        decreases |chain| - k
      {
        NextOf(buckets[bucket], chain, k);
        file := file.next;
        k := k + 1;
      }
      if file != null {
        assert file in chain;
      }
    }

    /** Moves every file, rewriting its `next`, into new buckets: none is lost and none appears twice. */
    method OftRehash(newBucketCount: nat) returns (ret: Status)
      requires Valid()
      modifies this, files.Values`next
      ensures ret == if IsPowerOf2(newBucketCount) then Done else Failed(EINVAL)
      ensures files == old(files) && size == old(size)
      ensures ret == Done ==>
          bucketCount == newBucketCount == buckets.Length && fresh(buckets) &&
          HashOk(buckets[..], chains, files, bucketCount)
      ensures ret != Done ==> Valid() && buckets == old(buckets) && bucketCount == old(bucketCount)
    {
      hide Sorted, BucketOf, Seg, MovedUpTo, HashOk, SegsFrom, Indexed, IsPowerOf2;
      HashParts(buckets[..], chains, files, bucketCount);
      var newBuckets: array<BsFile?>;
      ret, newBuckets := AllocBuckets(newBucketCount);
      if ret != Done {
        return;
      }
      ghost var newChains := seq(newBucketCount, _ => []);
      ghost var moved: map<nat, BsFile> := map[];
      EmptyHash(newBuckets[..], newChains, newBucketCount);
      NothingMoved(files, bucketCount);
      var heads := buckets[..];
      for oldBucket := 0 to bucketCount
        modifies newBuckets, files.Values`next
        invariant HashOk(newBuckets[..], newChains, moved, newBucketCount)
        invariant MovedUpTo(moved, files, bucketCount, oldBucket, [])
        invariant SegsFrom(heads, chains, oldBucket)
      {
        newChains, moved := MoveBucket(heads, newBuckets, newBucketCount, chains, newChains, moved, files, bucketCount,
                                       oldBucket);
      }
      AllMoved(moved, files, bucketCount);
      buckets, bucketCount, chains := newBuckets, newBucketCount, newChains;
    }

    /** `oft_insert`: rehashes into twice as many buckets before there would be more files than buckets. */
    method OftInsert(file: BsFile) returns (ret: Status)
      requires Valid() && file.index !in files
      modifies this, buckets, file`next, files.Values`next
      ensures ret == Done && Valid() && files == old(files)[file.index := file]
      ensures bucketCount == if |old(files)| + 1 > old(bucketCount) then 2 * old(bucketCount) else old(bucketCount)
      ensures buckets == old(buckets) || fresh(buckets)
    {
      hide Sorted, BucketOf, Seg, HashOk, Indexed;
      HashParts(buckets[..], chains, files, bucketCount);
      if size + 1 > bucketCount {
        var rehashStatus := OftRehash(2 * bucketCount);
        if rehashStatus != Done {
          return rehashStatus;
        }
      }
      chains := AddFile(buckets, bucketCount, file, chains, files);
      size := size + 1;
      files := files[file.index := file];
      return Done;
    }

    /** The walk of `oft_remove`: the file, if its bucket has it, and what precedes it there. */
    method FindLink(file: BsFile) returns (bucket: nat, prev: BsFile?, iter: BsFile?, ghost k: nat)
      requires Valid()
      ensures bucket < bucketCount == |chains|
      ensures iter == null ==> file !in files.Values
      ensures iter != null ==>
        iter == file && file in files.Values && file.index in files && k < |chains[bucket]| && chains[bucket][k] == file
      ensures iter != null ==>
        prev == (if k > 0 then chains[bucket][k - 1] else null) && (prev != null ==> prev in files.Values)
    {
      hide Sorted, BucketOf, Seg, HashOk;
      HashParts(buckets[..], chains, files, bucketCount);
      HashAt(buckets[..], chains, files, bucketCount, file.index);
      bucket := BucketOf(file.index, bucketCount);
      ghost var chain := chains[bucket];
      k, prev, iter := 0, null, buckets[bucket];
      HeadOf(iter, chain);
      while iter != null && iter != file
        invariant k <= |chain| && iter == (if k < |chain| then chain[k] else null)
        invariant prev == (if k > 0 then chain[k - 1] else null)
        invariant file !in chain[..k]
        decreases |chain| - k
      {
        NextOf(buckets[bucket], chain, k);
        assert chain[..k + 1] == chain[..k] + [iter];
        prev, iter := iter, iter.next;
        k := k + 1;
      }
      InTable(chain, files, bucket, bucketCount, file);
      assert k == |chain| ==> chain[..k] == chain;
    }

    /** `oft_remove`: unlinks a file, or reports that it is not in the table. */
    method OftRemove(file: BsFile) returns (ret: Status)
      requires Valid()
      modifies this`files, this`chains, this`size, buckets, files.Values`next
      ensures Valid()
      ensures ret == if file in old(files).Values then Done else Failed(EINVAL)
      ensures files == if ret == Done then old(files) - {file.index} else old(files)
    {
      hide Sorted, BucketOf, Seg, HashOk, SegsFrom, Indexed, IsPowerOf2;
      ghost var k;
      var bucket, prev, iter;
      bucket, prev, iter, k := FindLink(file);
      if iter == null {
        return Failed(EINVAL);
      }
      OneFewer(files, file.index);
      Unlink(buckets, bucketCount, bucket, prev, file, chains, files, k);
      chains := chains[bucket := chains[bucket][..k] + chains[bucket][k + 1..]];
      size := size - 1;
      files := files - {file.index};
      return Done;
    }

    // ---------- handles, one call at a time ----------

    /** `bs_oft_get`: one more handle on the file of that index, which is registered first if need be. */
    method Get(index: nat) returns (ret: Status, file: BsFile)
      requires Valid()
      modifies this, buckets, files.Values
      ensures ret == Done && Valid() && index in files && files[index] == file
      ensures if index in old(files) then files == old(files) else fresh(file) && files == old(files)[index := file]
      ensures file.refcount == 1 + (if index in old(files) then old(files[index].refcount) else 0)
      ensures forall k :: k in old(files) && k != index ==> files[k].refcount == old(files[k].refcount)
    {
      hide Sorted, BucketOf, Seg, HashOk;
      HashParts(buckets[..], chains, files, bucketCount);
      var found := OftFind(index);
      ret := Done;
      if found == null {
        file := new BsFile(index);
        ret := OftInsert(file);
        if ret != Done {
          return;
        }
      } else {
        file := found;
      }
      AddToRefcount(file, 1, buckets[..], chains, files, bucketCount);
    }

    /** `bs_oft_has` */
    method Has(index: nat) returns (has: bool)
      requires Valid()
      ensures has <==> index in files
    {
      var file := OftFind(index);
      has := file != null;
    }

    /** `bs_oft_release`: one handle fewer; with the last one the file leaves the table. */
    method Release(file: BsFile) returns (ret: Status)
      requires Valid() && file in files.Values && file.refcount > 0
      modifies this`files, this`chains, this`size, buckets, files.Values
      ensures Valid() && ret == Done
      ensures file.refcount == old(file.refcount) - 1
      ensures files == if old(file.refcount) == 1 then old(files) - {file.index} else old(files)
      ensures forall f :: f in old(files).Values && f != file ==> f.refcount == old(f.refcount)
    {
      AddToRefcount(file, -1, buckets[..], chains, files, bucketCount);
      if file.refcount != 0 {
        return Done;
      }
      ret := OftRemove(file);
    }
  }

  lemma OneFewer(files: map<nat, BsFile>, k: nat)
    requires k in files
    ensures |files - {k}| == |files| - 1
  {
    assert (files - {k}).Keys == files.Keys - {k};
    assert |files.Keys| == |files| && |(files - {k}).Keys| == |files - {k}|;
  }

  /** The assignment through `iter` in `oft_remove`: the link to the file now skips it. */
  method Unlink(buckets: array<BsFile?>, bucketCount: nat, bucket: nat, prev: BsFile?, file: BsFile,
                ghost chains: seq<seq<BsFile>>, ghost files: map<nat, BsFile>, ghost k: nat)
    requires buckets.Length == bucketCount && HashOk(buckets[..], chains, files, bucketCount) && bucket < bucketCount
    requires k < |chains[bucket]| && chains[bucket][k] == file && prev == if k > 0 then chains[bucket][k - 1] else null
    modifies buckets, if prev == null then {} else {prev}`next
    ensures HashOk(buckets[..], chains[bucket := chains[bucket][..k] + chains[bucket][k + 1..]], files - {file.index},
        bucketCount)
  {
    hide Sorted, BucketOf, Seg, SegsFrom;
    ghost var heads, chain := buckets[..], chains[bucket];
    ghost var shorter := chain[..k] + chain[k + 1..];
    HashParts(heads, chains, files, bucketCount);
    OnlyHere(chains, files, bucketCount, bucket, k);
    HeadOf(heads[bucket], chain);
    ghost var links := Links(chain);
    SegLinks(heads[bucket], chain);
    if prev == null {
      buckets[bucket] := file.next;
    } else {
      OnlyHere(chains, files, bucketCount, bucket, k - 1);
      prev.next := file.next;
    }
    assert Links(chain) == if k == 0 then links else links[k - 1 := links[k]];
    SegCut(heads[bucket], buckets[bucket], links, chain, k);
    forall d | 0 <= d < bucketCount
      ensures Sorted(chains[bucket := shorter][d], files - {file.index}, d, bucketCount)
      ensures Seg(buckets[d], chains[bucket := shorter][d])
    {
      SortedCut(chains[d], files, d, bucketCount, file, if d == bucket then k else 0);
      if d != bucket {
        assert Seg(heads[d], chains[d]);
      }
    }
  }

  /** The `next` fields along a chain. */
  ghost function Links(chain: seq<BsFile>): (l: seq<BsFile?>)
    reads chain
    ensures |l| == |chain| && forall i :: 0 <= i < |chain| ==> l[i] == chain[i].next
  {
    seq(|chain|, i requires 0 <= i < |chain| reads chain => chain[i].next)
  }

  lemma SegLinks(head: BsFile?, chain: seq<BsFile>)
    requires Seg(head, chain)
    ensures forall i :: 0 <= i < |chain| ==> Links(chain)[i] == if i + 1 < |chain| then chain[i + 1] else null
  {}

  function Shorter(chain: seq<BsFile>, k: nat): seq<BsFile>
    requires k < |chain|
  {
    chain[..k] + chain[k + 1..]
  }

  lemma ShorterAt(chain: seq<BsFile>, k: nat, i: nat)
    requires k < |chain| && i < |chain| - 1
    ensures |Shorter(chain, k)| == |chain| - 1 && Shorter(chain, k)[i] == chain[if i < k then i else i + 1]
  {}

  /** One link of a list in which one element is skipped. */
  lemma LinkAt(links: seq<BsFile?>, chain: seq<BsFile>, k: nat, i: nat)
    requires k < |chain| == |links| && i < |chain| - 1
    requires forall i :: 0 <= i < |chain| ==> links[i] == if i + 1 < |chain| then chain[i + 1] else null
    requires Links(chain) == if k == 0 then links else links[k - 1 := links[k]]
    ensures var s := Shorter(chain, k);
      |s| == |chain| - 1 && s[i].next == if i + 1 < |s| then s[i + 1] else null
  {
    hide Links, Shorter;
    var j := if i < k then i else i + 1;
    ShorterAt(chain, k, i);
    if i + 1 < |chain| - 1 {
      ShorterAt(chain, k, i + 1);
    }
    assert Links(chain)[j] == chain[j].next;
    assert links[j] == if j + 1 < |chain| then chain[j + 1] else null;
    assert links[k] == if k + 1 < |chain| then chain[k + 1] else null;
  }

  /** A list once one link, or its head, skips an element. */
  lemma SegCut(head: BsFile?, head': BsFile?, links: seq<BsFile?>, chain: seq<BsFile>, k: nat)
    requires k < |chain| == |links| && head == chain[0]
    requires forall i :: 0 <= i < |chain| ==> links[i] == if i + 1 < |chain| then chain[i + 1] else null
    requires Links(chain) == if k == 0 then links else links[k - 1 := links[k]]
    requires head' == if k == 0 then links[k] else head
    ensures Seg(head', Shorter(chain, k))
  {
    hide Links;
    var shorter := Shorter(chain, k);
    forall i | 0 <= i < |shorter| ensures shorter[i].next == if i + 1 < |shorter| then shorter[i + 1] else null {
      LinkAt(links, chain, k, i);
    }
    SegBy(head', shorter);
  }

  lemma SegBy(head: BsFile?, chain: seq<BsFile>)
    requires head == if chain == [] then null else chain[0]
    requires forall i :: 0 <= i < |chain| ==> chain[i].next == if i + 1 < |chain| then chain[i + 1] else null
    ensures Seg(head, chain)
  {}

  /** Dropping one of distinct elements. */
  lemma Without(chain: seq<BsFile>, k: nat)
    requires k < |chain| && forall i, j :: 0 <= i < j < |chain| ==> chain[i] != chain[j]
    ensures var c := chain[..k] + chain[k + 1..];
      && (forall i, j :: 0 <= i < j < |c| ==> c[i] != c[j])
      && (forall f :: f in c <==> f in chain && f != chain[k])
  {
    var c := chain[..k] + chain[k + 1..];
    assert forall i :: 0 <= i < |c| ==> c[i] == chain[if i < k then i else i + 1];
    assert chain == chain[..k] + [chain[k]] + chain[k + 1..];
  }

  lemma SortedCut(chain: seq<BsFile>, files: map<nat, BsFile>, b: nat, count: nat, file: BsFile, k: nat)
    requires count > 0 && Sorted(chain, files, b, count) && Indexed(files) && file.index in files
    requires files[file.index] == file
    requires if BucketOf(file.index, count) == b then k < |chain| && chain[k] == file else true
    ensures Sorted(if BucketOf(file.index, count) == b then chain[..k] + chain[k + 1..] else chain,
                   files - {file.index}, b, count)
  {
    hide BucketOf;
    var files' := files - {file.index};
    forall f | f in chain && f != file ensures f in files'.Values && f.index in files' && files'[f.index] == f {
      assert f.index != file.index;
      assert files'[f.index] == f;
    }
    if BucketOf(file.index, count) == b {
      Without(chain, k);
    }
  }

  lemma HeadOf(head: BsFile?, chain: seq<BsFile>)
    requires Seg(head, chain)
    ensures head == if 0 < |chain| then chain[0] else null
  {}

  /** A file is in the table exactly when it is in the chain of its bucket. */
  lemma InTable(chain: seq<BsFile>, files: map<nat, BsFile>, b: nat, count: nat, file: BsFile)
    requires count > 0 && Sorted(chain, files, b, count) && Indexed(files) && b == BucketOf(file.index, count)
    ensures file in chain <==> file in files.Values
  {
    hide BucketOf;
  }

  /** The buckets from `b` on have not been touched. */
  ghost predicate SegsFrom(heads: seq<BsFile?>, chains: seq<seq<BsFile>>, b: nat)
    reads set d, i | 0 <= d < |chains| && 0 <= i < |chains[d]| :: chains[d][i]
  {
    |heads| == |chains| && forall d :: b <= d < |chains| ==> Seg(heads[d], chains[d])
  }

  /** The inner loop of `oft_rehash`: moves the files of one old bucket. */
  method MoveBucket(heads: seq<BsFile?>, newBuckets: array<BsFile?>, newBucketCount: nat,
                    ghost chains: seq<seq<BsFile>>, ghost newChains: seq<seq<BsFile>>, ghost moved: map<nat, BsFile>,
                    ghost files: map<nat, BsFile>, ghost count: nat, b: nat)
    returns (ghost newChains': seq<seq<BsFile>>, ghost moved': map<nat, BsFile>)
    requires count > 0 && b < |chains| == |heads| == count && SegsFrom(heads, chains, b) && Indexed(files)
    requires forall b :: 0 <= b < count ==> Sorted(chains[b], files, b, count)
    requires newBuckets.Length == newBucketCount && HashOk(newBuckets[..], newChains, moved, newBucketCount)
    requires MovedUpTo(moved, files, count, b, [])
    modifies newBuckets, chains[b]`next
    ensures HashOk(newBuckets[..], newChains', moved', newBucketCount) && MovedUpTo(moved', files, count, b + 1, [])
    ensures SegsFrom(heads, chains, b + 1)
  {
    hide Sorted, BucketOf, Seg, MovedUpTo, HashOk, Indexed;
    newChains', moved' := newChains, moved;
    var file := heads[b];
    ghost var chain, k := chains[b], 0;
    assert chain[0..] == chain && chain[..0] == [];
    while file != null
      invariant HashOk(newBuckets[..], newChains', moved', newBucketCount)
      invariant k <= |chain| && Seg(file, chain[k..])
      invariant MovedUpTo(moved', files, count, b, chain[..k])
      invariant forall d :: b < d < count ==> Seg(heads[d], chains[d])
      decreases |chain| - k
    {
      SegHead(file, chain, k);
      OnlyOnce(chains, files, count, b, k);
      MoveNext(moved', files, count, b, chain, k);
      var next := file.next;
      newChains' := AddFile(newBuckets, newBucketCount, file, newChains', moved');
      moved' := moved'[file.index := file];
      file := next;
      k := k + 1;
    }
    SegHead(file, chain, k);
    assert chain[..k] == chain;
    BucketMoved(moved', files, count, b, chain);
  }

  /** What has been moved: the files of the buckets before `b`, and those in `done`. */
  ghost predicate MovedUpTo(moved: map<nat, BsFile>, files: map<nat, BsFile>, count: nat, b: nat, done: seq<BsFile>)
    requires count > 0
  {
    && (forall k :: k in moved ==> k in files && moved[k] == files[k])
    && (forall k :: k in files ==> (k in moved <==> BucketOf(k, count) < b || files[k] in done))
  }

  lemma NothingMoved(files: map<nat, BsFile>, count: nat)
    requires count > 0
    ensures MovedUpTo(map[], files, count, 0, [])
  {}

  lemma SegHead(head: BsFile?, chain: seq<BsFile>, k: nat)
    requires k <= |chain| && Seg(head, chain[k..])
    ensures head == null <==> k == |chain|
    ensures k < |chain| ==> head == chain[k] && Seg(chain[k].next, chain[k + 1..])
  {
    if k < |chain| {
      var c, d := chain[k..], chain[k + 1..];
      NextOf(head, c, 0);
      forall i | 0 <= i < |d| ensures d[i].next == if i + 1 < |d| then d[i + 1] else null {
        NextOf(head, c, i + 1);
      }
      assert chain[k].next == (if d == [] then null else d[0]);
      assert Seg(chain[k].next, d);
    }
  }

  /** A file is in one place of one bucket. */
  lemma OnlyOnce(chains: seq<seq<BsFile>>, files: map<nat, BsFile>, count: nat, b: nat, k: nat)
    requires count > 0 && b < |chains| == count && k < |chains[b]| && forall b :: 0 <= b < count ==>
        Sorted(chains[b], files, b, count)
    ensures chains[b][k] in chains[b] && chains[b][k] !in chains[b][k + 1..] && Sorted(chains[b], files, b, count)
    ensures forall d :: b < d < count ==> chains[b][k] !in chains[d]
  {
    hide BucketOf;
    assert chains[b][k] in chains[b];
    forall d | b < d < count ensures chains[b][k] !in chains[d] {
      assert Sorted(chains[b], files, b, count) && Sorted(chains[d], files, d, count);
    }
  }

  lemma OnlyHere(chains: seq<seq<BsFile>>, files: map<nat, BsFile>, count: nat, b: nat, k: nat)
    requires count > 0 && b < |chains| == count && k < |chains[b]| && forall b :: 0 <= b < count ==>
        Sorted(chains[b], files, b, count)
    ensures forall i :: 0 <= i < |chains[b]| && chains[b][i] == chains[b][k] ==> i == k
    ensures forall d :: 0 <= d < count && d != b ==> chains[b][k] !in chains[d]
    ensures var f := chains[b][k]; f.index in files && files[f.index] == f && BucketOf(f.index, count) == b
  {
    hide BucketOf;
    assert chains[b][k] in chains[b];
    forall d | 0 <= d < count && d != b ensures chains[b][k] !in chains[d] {
      assert Sorted(chains[b], files, b, count) && Sorted(chains[d], files, d, count);
    }
  }

  lemma MoveNext(moved: map<nat, BsFile>, files: map<nat, BsFile>, count: nat, b: nat, chain: seq<BsFile>, k: nat)
    requires count > 0 && Sorted(chain, files, b, count) && k < |chain| && MovedUpTo(moved, files, count, b, chain[..k])
    requires Indexed(files)
    ensures chain[k].index !in moved
    ensures MovedUpTo(moved[chain[k].index := chain[k]], files, count, b, chain[..k + 1])
  {
    hide BucketOf;
    var f := chain[k];
    assert f in chain && f !in chain[..k];
    assert chain[..k + 1] == chain[..k] + [f];
    forall x | x in files && x != f.index ensures files[x] in chain[..k + 1] <==> files[x] in chain[..k] {
      assert files[x].index == x;
    }
  }

  /** A bucket that has been walked to its end is empty for what follows. */
  lemma BucketMoved(moved: map<nat, BsFile>, files: map<nat, BsFile>, count: nat, b: nat, chain: seq<BsFile>)
    requires count > 0 && Sorted(chain, files, b, count) && MovedUpTo(moved, files, count, b, chain) && Indexed(files)
    ensures MovedUpTo(moved, files, count, b + 1, [])
  {
    hide BucketOf;
  }

  lemma AllMoved(moved: map<nat, BsFile>, files: map<nat, BsFile>, count: nat)
    requires IsPowerOf2(count) && count > 0 && MovedUpTo(moved, files, count, count, [])
    ensures moved == files
  {
    hide BucketOf;
    forall k | k in files ensures BucketOf(k, count) < count {
      BucketInRange(k, count);
    }
  }

  lemma HashParts(heads: seq<BsFile?>, chains: seq<seq<BsFile>>, files: map<nat, BsFile>, count: nat)
    requires HashOk(heads, chains, files, count)
    ensures IsPowerOf2(count) && count > 0 && |chains| == |heads| == count && Indexed(files)
    ensures SegsFrom(heads, chains, 0)
    ensures forall b :: 0 <= b < count ==> Sorted(chains[b], files, b, count)
    ensures forall b, f :: 0 <= b < count && f in chains[b] ==> f in files.Values
  {
    hide BucketOf;
  }

  lemma EmptyHash(heads: seq<BsFile?>, chains: seq<seq<BsFile>>, count: nat)
    requires IsPowerOf2(count) && |heads| == |chains| == count
    requires forall b :: 0 <= b < count ==> heads[b] == null && chains[b] == []
    ensures HashOk(heads, chains, map[], count)
  {}
}
