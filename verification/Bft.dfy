// Model of src/bft.c: the file table, fixed-size slots serialised into a byte buffer.

/** Table slots as bytes and as entries: serialisation, first-fit search, iteration and lookup. */
module Bft {
  import opened BitUtil
  import opened Errors
  import opened Cluster

  const BFT_MAX_FILENAME: nat := 64

  type Name = n: seq<byte> | ZERO_BYTE !in n

  datatype Entry = Entry(name: Name, initialCluster: nat, size: nat, mode: nat, atim: nat, mtim: nat) {
    /** The fields fit their places in a slot. */
    predicate Storable() {
      && |name| < BFT_MAX_FILENAME
      && initialCluster < TWO32 && size < TWO32 && mode < TWO32 && atim < TWO64 && mtim < TWO64
    }

    /** The entry a slot holds after this one is written: every number cut to the width of its field. */
    function Truncated(): Entry {
      Entry(name, initialCluster % TWO32, size % TWO32, mode % TWO32, atim % TWO64, mtim % TWO64)
    }
  }

  /** What a slot means: unused, unreadable (no terminator in the name), or an entry. */
  datatype Slot = Free | Corrupt | Used(ent: Entry)

  // ---------- bytes of one slot ----------

  /** The C string at the start of `raw`. */
  function CStr(raw: seq<byte>): (n: Name)
    ensures n <= raw
    ensures |n| < |raw| ==> raw[|n|] == ZERO_BYTE
  {
    if raw == [] || raw[0] == ZERO_BYTE then [] else [raw[0]] + CStr(raw[1..])
  }

  /** `strncpy` into a field of `n` bytes: the name, then zeros. */
  function Padded(name: seq<byte>, n: nat): (f: seq<byte>)
    requires |name| <= n
    ensures |f| == n
  {
    name + seq<byte>(n - |name|, _ => ZERO_BYTE)
  }

  function Encode(e: Entry): (raw: seq<byte>)
    requires |e.name| < BFT_MAX_FILENAME
    ensures |raw| == BFT_ENTRY_SIZE
  {
    Padded(e.name, BFT_MAX_FILENAME) + BE(e.initialCluster, 4) + BE(e.size, 4) + BE(e.mode, 4) + BE(e.atim, 8) +
        BE(e.mtim, 8)
  }

  function Decode(raw: seq<byte>): Result<Entry>
    requires |raw| == BFT_ENTRY_SIZE
  {
    if raw[BFT_MAX_FILENAME - 1] != ZERO_BYTE then Err(EIO)
    else Ok(Entry(CStr(raw[..BFT_MAX_FILENAME]), ReadBE(raw[64..68]), ReadBE(raw[68..72]), ReadBE(raw[72..76]),
        ReadBE(raw[76..84]), ReadBE(raw[84..92])))
  }

  function SlotOf(raw: seq<byte>): Slot
    requires |raw| == BFT_ENTRY_SIZE
  {
    if raw[0] == ZERO_BYTE then Free
    else match Decode(raw)
      case Err(_) => Corrupt
      case Ok(e) => Used(e)
  }

  lemma {:induction false} CStrOfPadded(name: Name, n: nat)
    requires |name| < n
    ensures CStr(Padded(name, n)) == name
  {
    if name != [] {
      assert name[0] in name;
      assert Padded(name, n)[1..] == Padded(name[1..], n - 1);
      assert forall b :: b in name[1..] ==> b in name;
      CStrOfPadded(name[1..], n - 1);
    }
  }

  lemma EncodeFields(e: Entry)
    requires |e.name| < BFT_MAX_FILENAME
    ensures var raw := Encode(e);
      && raw[..64] == Padded(e.name, BFT_MAX_FILENAME) && raw[BFT_MAX_FILENAME - 1] == ZERO_BYTE
      && raw[64..68] == BE(e.initialCluster, 4) && raw[68..72] == BE(e.size, 4) && raw[72..76] == BE(e.mode, 4)
      && raw[76..84] == BE(e.atim, 8) && raw[84..92] == BE(e.mtim, 8)
  {
    hide BE;
  }

  /** Writing an entry and reading it back cuts the numbers to their fields and changes nothing else. */
  lemma DecodeOfEncode(e: Entry)
    requires |e.name| < BFT_MAX_FILENAME
    ensures Decode(Encode(e)) == Ok(e.Truncated())
    ensures SlotOf(Encode(e)) == if e.name == [] then Free else Used(e.Truncated())
  {
    hide BE, ReadBE, CStr, Encode, Padded, Pow2;
    PowersOfTwo();
    CStrOfPadded(e.name, BFT_MAX_FILENAME);
    EncodeFields(e);
    ReadAfterWrite(e.initialCluster, 4);
    ReadAfterWrite(e.size, 4);
    ReadAfterWrite(e.mode, 4);
    ReadAfterWrite(e.atim, 8);
    ReadAfterWrite(e.mtim, 8);
    EncodedFirst(e);
  }

  lemma EncodedFirst(e: Entry)
    requires |e.name| < BFT_MAX_FILENAME
    ensures Encode(e)[0] == ZERO_BYTE <==> e.name == []
  {
    if e.name != [] {
      assert e.name[0] in e.name;
    }
  }

  /** An entry whose fields fit comes back as it was. */
  lemma StorableRoundTrip(e: Entry)
    requires e.Storable()
    ensures Decode(Encode(e)) == Ok(e)
  {
    hide Decode, Encode;
    DecodeOfEncode(e);
  }

  lemma {:induction false} CStrStops(raw: seq<byte>, k: nat)
    requires k < |raw| && raw[k] == ZERO_BYTE
    ensures |CStr(raw)| <= k
  {
    if raw[0] != ZERO_BYTE {
      CStrStops(raw[1..], k - 1);
    }
  }

  /** Whatever a slot reads as could be written back. */
  lemma DecodedFits(raw: seq<byte>)
    requires |raw| == BFT_ENTRY_SIZE && Decode(raw).Ok?
    ensures Decode(raw).value.Storable()
  {
    hide ReadBE, Pow2;
    PowersOfTwo();
    CStrStops(raw[..BFT_MAX_FILENAME], BFT_MAX_FILENAME - 1);
    WriteAfterRead(raw[64..68]);
    WriteAfterRead(raw[68..72]);
    WriteAfterRead(raw[72..76]);
    WriteAfterRead(raw[76..84]);
    WriteAfterRead(raw[84..92]);
  }

  lemma UsedIsStorable(raw: seq<byte>)
    requires |raw| == BFT_ENTRY_SIZE && SlotOf(raw).Used?
    ensures SlotOf(raw).ent.Storable() && SlotOf(raw).ent.name != [] && Decode(raw) == Ok(SlotOf(raw).ent)
  {
    hide ReadBE;
    DecodedFits(raw);
  }

  /** An erased slot still reads as an entry, with an empty name and zero fields. */
  lemma DecodeOfErased()
    ensures var z := seq<byte>(BFT_ENTRY_SIZE, _ => ZERO_BYTE);
      SlotOf(z) == Free && Decode(z) == Ok(Entry([], 0, 0, 0, 0, 0))
  {
    var z := seq<byte>(BFT_ENTRY_SIZE, _ => ZERO_BYTE);
    ZeroIsZero(4);
    ZeroIsZero(8);
    assert z[64..68] == z[68..72] == z[72..76] == seq<byte>(4, _ => ZERO_BYTE);
    assert z[76..84] == z[84..92] == seq<byte>(8, _ => ZERO_BYTE);
  }

  lemma {:induction false} ZeroIsZero(n: nat)
    ensures ReadBE(seq<byte>(n, _ => ZERO_BYTE)) == 0
  {
    FlatZero(n);
    ValueZero(8 * n);
  }

  lemma {:induction false} FlatZero(n: nat)
    ensures Flat(seq<byte>(n, _ => ZERO_BYTE)) == seq(8 * n, _ => false)
  {
    if n > 0 {
      FlatZero(n - 1);
      assert seq<byte>(n, _ => ZERO_BYTE)[..n - 1] == seq<byte>(n - 1, _ => ZERO_BYTE);
    }
  }

  lemma {:induction false} ValueZero(n: nat)
    ensures Value(seq(n, _ => false)) == 0
  {
    if n > 0 {
      ValueZero(n - 1);
      assert seq(n, _ => false)[..n - 1] == seq(n - 1, _ => false);
    }
  }

  // ---------- the whole table ----------

  function Raw(bft: seq<byte>, i: nat): (raw: seq<byte>)
    requires |bft| == BFT_SIZE && i < BFT_MAX_ENTRIES
    ensures |raw| == BFT_ENTRY_SIZE
  {
    bft[i * BFT_ENTRY_SIZE..(i + 1) * BFT_ENTRY_SIZE]
  }

  /** The table a buffer holds. */
  function TableOf(bft: seq<byte>): (t: seq<Slot>)
    requires |bft| == BFT_SIZE
    ensures |t| == BFT_MAX_ENTRIES
  {
    seq(BFT_MAX_ENTRIES, i requires 0 <= i < BFT_MAX_ENTRIES => SlotOf(Raw(bft, i)))
  }

  /** Replacing the bytes of one slot changes that slot only. */
  lemma SlotReplaced(bft: seq<byte>, off: nat, raw: seq<byte>)
    requires |bft| == BFT_SIZE && off < BFT_MAX_ENTRIES && |raw| == BFT_ENTRY_SIZE
    ensures Raw(Splice(bft, off * BFT_ENTRY_SIZE, raw), off) == raw
    ensures forall i :: 0 <= i < BFT_MAX_ENTRIES && i != off ==>
        Raw(Splice(bft, off * BFT_ENTRY_SIZE, raw), i) == Raw(bft, i)
    ensures TableOf(Splice(bft, off * BFT_ENTRY_SIZE, raw)) == TableOf(bft)[off := SlotOf(raw)]
  {
    hide SlotOf;
    var after := Splice(bft, off * BFT_ENTRY_SIZE, raw);
    SpliceSlice(bft, off * BFT_ENTRY_SIZE, raw, off * BFT_ENTRY_SIZE, BFT_ENTRY_SIZE);
    forall i | 0 <= i < BFT_MAX_ENTRIES && i != off ensures Raw(after, i) == Raw(bft, i) {
      SpliceSlice(bft, off * BFT_ENTRY_SIZE, raw, i * BFT_ENTRY_SIZE, BFT_ENTRY_SIZE);
    }
  }

  /** First fit: the lowest unused slot, and failure only when there is none. */
  method BftFindFreeTableEntry(bft: array<byte>) returns (ret: Result<nat>)
    requires bft.Length == BFT_SIZE
    ensures ret.Err? ==> ret == Err(ENOSPC) && Free !in TableOf(bft[..])
    ensures ret.Ok? ==> ret.value < BFT_MAX_ENTRIES && TableOf(bft[..])[ret.value] == Free
    ensures ret.Ok? ==> forall i :: 0 <= i < ret.value ==> TableOf(bft[..])[i] != Free
  {
    for i := 0 to BFT_MAX_ENTRIES
      invariant forall k :: 0 <= k < i ==> TableOf(bft[..])[k] != Free
    {
      assert Raw(bft[..], i)[0] == bft[i * BFT_ENTRY_SIZE];
      if bft[i * BFT_ENTRY_SIZE] == ZERO_BYTE {
        return Ok(i);
      }
    }
    return Err(ENOSPC);
  }

  method BftReadTableEntry(bft: array<byte>, off: nat) returns (ret: Result<Entry>)
    requires bft.Length == BFT_SIZE
    ensures ret == if off >= BFT_MAX_ENTRIES then Err(EINVAL) else Decode(Raw(bft[..], off))
  {
    if off >= BFT_MAX_ENTRIES {
      return Err(EINVAL);
    }
    return Decode(bft[off * BFT_ENTRY_SIZE..(off + 1) * BFT_ENTRY_SIZE]);
  }

  /** Field after field into the slot, as `do_write_entry` does. */
  method DoWriteEntry(bft: array<byte>, base: nat, ent: Entry) returns (ret: Status)
    requires base + BFT_ENTRY_SIZE <= bft.Length
    modifies bft
    ensures ret == if |ent.name| >= BFT_MAX_FILENAME then Failed(ENAMETOOLONG) else Done
    ensures bft[..] == if ret == Done then Splice(old(bft[..]), base, Encode(ent)) else old(bft[..])
  {
    if |ent.name| >= BFT_MAX_FILENAME {
      return Failed(ENAMETOOLONG);
    }
    hide Splice, BE, Padded;
    ghost var b0 := bft[..];
    var name := Padded(ent.name, BFT_MAX_FILENAME);
    CopyIn(bft, base, name);
    var done := name;
    var rest := [BE(ent.initialCluster, 4), BE(ent.size, 4), BE(ent.mode, 4), BE(ent.atim, 8), BE(ent.mtim, 8)];
    CopyIn(bft, base + 64, rest[0]);
    SpliceTwice(b0, base, done, rest[0]);
    done := done + rest[0];
    CopyIn(bft, base + 68, rest[1]);
    SpliceTwice(b0, base, done, rest[1]);
    done := done + rest[1];
    CopyIn(bft, base + 72, rest[2]);
    SpliceTwice(b0, base, done, rest[2]);
    done := done + rest[2];
    CopyIn(bft, base + 76, rest[3]);
    SpliceTwice(b0, base, done, rest[3]);
    done := done + rest[3];
    CopyIn(bft, base + 84, rest[4]);
    SpliceTwice(b0, base, done, rest[4]);
    return Done;
  }

  /** Writes one slot; every other slot keeps its bytes. */
  method BftWriteTableEntry(bft: array<byte>, ent: Entry, off: nat) returns (ret: Status)
    requires bft.Length == BFT_SIZE
    modifies bft
    ensures ret == if off >= BFT_MAX_ENTRIES then Failed(EINVAL)
        else if |ent.name| >= BFT_MAX_FILENAME then Failed(ENAMETOOLONG) else Done
    ensures ret != Done ==> bft[..] == old(bft[..])
    ensures ret == Done ==> bft[..] == Splice(old(bft[..]), off * BFT_ENTRY_SIZE, Encode(ent))
    ensures ret == Done ==>
      TableOf(bft[..]) == old(TableOf(bft[..]))[off := if ent.name == [] then Free else Used(ent.Truncated())]
  {
    if off >= BFT_MAX_ENTRIES {
      return Failed(EINVAL);
    }
    ret := DoWriteEntry(bft, off * BFT_ENTRY_SIZE, ent);
    if ret == Done {
      SlotReplaced(old(bft[..]), off, Encode(ent));
      DecodeOfEncode(ent);
    }
  }

  method BftRemoveTableEntry(bft: array<byte>, off: nat) returns (ret: Status)
    requires bft.Length == BFT_SIZE
    modifies bft
    ensures ret == if off >= BFT_MAX_ENTRIES then Failed(EINVAL) else Done
    ensures ret != Done ==> bft[..] == old(bft[..])
    ensures ret == Done ==>
      bft[..] == Splice(old(bft[..]), off * BFT_ENTRY_SIZE, seq<byte>(BFT_ENTRY_SIZE, _ => ZERO_BYTE))
    ensures ret == Done ==> TableOf(bft[..]) == old(TableOf(bft[..]))[off := Free]
  {
    if off >= BFT_MAX_ENTRIES {
      return Failed(EINVAL);
    }
    CopyIn(bft, off * BFT_ENTRY_SIZE, seq<byte>(BFT_ENTRY_SIZE, _ => ZERO_BYTE));
    SlotReplaced(old(bft[..]), off, seq<byte>(BFT_ENTRY_SIZE, _ => ZERO_BYTE));
    DecodeOfErased();
    return Done;
  }

  // ---------- iteration and lookup ----------

  /** Visits the used slots from `i` on until the callback asks to stop or a slot is unreadable. */
  function IterFrom<S>(t: seq<Slot>, i: nat, iter: (S, nat, Entry) -> (S, bool), s: S): (Status, S)
    requires i <= |t|
    decreases |t| - i
  {
    if i == |t| then (Done, s)
    else match t[i]
      case Free => IterFrom(t, i + 1, iter, s)
      case Corrupt => (Failed(EIO), s)
      case Used(e) =>
        var (s', more) := iter(s, i, e);
        if more then IterFrom(t, i + 1, iter, s') else (Done, s')
  }

  /** The used slots from `i` on, up to the first unreadable one. */
  function UsedFrom(t: seq<Slot>, i: nat): seq<(nat, Entry)>
    requires i <= |t|
    decreases |t| - i
  {
    if i == |t| || t[i].Corrupt? then []
    else if t[i].Used? then [(i, t[i].ent)] + UsedFrom(t, i + 1)
    else UsedFrom(t, i + 1)
  }

  /** All of them, with their entries. */
  lemma {:induction false} UsedFromHas(t: seq<Slot>, i: nat, k: nat, e: Entry)
    requires i <= |t|
    ensures (k, e) in UsedFrom(t, i) <==>
      i <= k < |t| && t[k] == Used(e) && forall j :: i <= j < k ==> t[j] != Corrupt
    decreases |t| - i
  {
    if i < |t| && !t[i].Corrupt? {
      UsedFromHas(t, i + 1, k, e);
      if t[i].Used? {
        InFront((i, t[i].ent), UsedFrom(t, i + 1), (k, e));
      }
    }
  }

  lemma InFront<T>(x: T, xs: seq<T>, y: T)
    ensures y in [x] + xs <==> y == x || y in xs
  {}

  /** In their order. */
  lemma {:induction false} UsedFromOrder(t: seq<Slot>, i: nat, a: nat, b: nat)
    requires i <= |t| && a < |UsedFrom(t, i)| && b < |UsedFrom(t, i)|
    ensures i <= UsedFrom(t, i)[a].0 && (a < b ==> UsedFrom(t, i)[a].0 < UsedFrom(t, i)[b].0)
    decreases |t| - i
  {
    if t[i].Used? {
      if a > 0 && b > 0 {
        UsedFromOrder(t, i + 1, a - 1, b - 1);
      } else if b > 0 {
        UsedFromOrder(t, i + 1, b - 1, b - 1);
      } else if a > 0 {
        UsedFromOrder(t, i + 1, a - 1, a - 1);
      }
    } else {
      UsedFromOrder(t, i + 1, a, b);
    }
  }

  /** What a callback makes of a list: it gets each entry with the context it left before, until it asks to stop. */
  function Feed<S>(es: seq<(nat, Entry)>, iter: (S, nat, Entry) -> (S, bool), s: S): (S, bool) {
    if es == [] then (s, true)
    else
      var (s', more) := iter(s, es[0].0, es[0].1);
      if more then Feed(es[1..], iter, s') else (s', false)
  }

  /** For every callback, iterating is feeding it the used slots; an unreadable one matters only if it gets there. */
  lemma {:induction false} IterFeeds<S>(t: seq<Slot>, i: nat, iter: (S, nat, Entry) -> (S, bool), s: S)
    requires i <= |t|
    ensures var (out, more) := Feed(UsedFrom(t, i), iter, s);
      IterFrom(t, i, iter, s) ==
        (if more && exists k :: i <= k < |t| && t[k] == Corrupt then Failed(EIO) else Done, out)
    decreases |t| - i
  {
    if i < |t| {
      match t[i]
      case Free => IterFeeds(t, i + 1, iter, s);
      case Corrupt =>
      case Used(e) =>
        var (s', more) := iter(s, i, e);
        if more {
          IterFeeds(t, i + 1, iter, s');
          assert UsedFrom(t, i)[1..] == UsedFrom(t, i + 1);
        }
    }
  }

  type Listing = (seq<(nat, Entry)>, nat, Entry) -> (seq<(nat, Entry)>, bool)

  /** The callback of `bsfs_readdir`, for a caller that takes every entry. */
  ghost predicate TakesAll(iter: Listing) {
    forall seen, off: nat, ent :: iter(seen, off, ent) == (seen + [(off, ent)], true)
  }

  lemma {:induction false} FeedsAll(es: seq<(nat, Entry)>, iter: Listing, seen: seq<(nat, Entry)>)
    requires TakesAll(iter)
    ensures Feed(es, iter, seen) == (seen + es, true)
  {
    if es == [] {
      assert seen + es == seen;
    } else {
      assert iter(seen, es[0].0, es[0].1) == (seen + [es[0]], true);
      FeedsAll(es[1..], iter, seen + [es[0]]);
      assert seen + [es[0]] + es[1..] == seen + es;
    }
  }

  /** Then it lists exactly the used slots in order. */
  lemma ListsAll(t: seq<Slot>, iter: Listing)
    requires TakesAll(iter)
    ensures IterFrom(t, 0, iter, []) ==
      (if exists k :: 0 <= k < |t| && t[k] == Corrupt then Failed(EIO) else Done, UsedFrom(t, 0))
  {
    IterFeeds(t, 0, iter, []);
    FeedsAll(UsedFrom(t, 0), iter, []);
    assert [] + UsedFrom(t, 0) == UsedFrom(t, 0);
  }

  /** `bft_iter_table_entries`: the callback's context is threaded through the calls. */
  method BftIterTableEntries<S>(bft: array<byte>, iter: (S, nat, Entry) -> (S, bool), ctx: S)
    returns (ret: Status, out: S)
    requires bft.Length == BFT_SIZE
    ensures (ret, out) == IterFrom(TableOf(bft[..]), 0, iter, ctx)
  {
    hide TableOf, Raw, Decode;
    out := ctx;
    for off := 0 to BFT_MAX_ENTRIES
      invariant IterFrom(TableOf(bft[..]), 0, iter, ctx) == IterFrom(TableOf(bft[..]), off, iter, out)
    {
      var raw := bft[off * BFT_ENTRY_SIZE..(off + 1) * BFT_ENTRY_SIZE];
      SlotAt(bft[..], off);
      if raw[0] != ZERO_BYTE {
        var ent := Decode(raw);
        if ent.Err? {
          DecodeErrors(raw);
          return Failed(EIO), out;
        }
        var (next, more) := iter(out, off, ent.value);
        out := next;
        if !more {
          return Done, out;
        }
      }
    }
    return Done, out;
  }

  lemma SlotAt(bft: seq<byte>, i: nat)
    requires |bft| == BFT_SIZE && i < BFT_MAX_ENTRIES
    ensures TableOf(bft)[i] == SlotOf(bft[i * BFT_ENTRY_SIZE..(i + 1) * BFT_ENTRY_SIZE])
  {}

  lemma DecodeErrors(raw: seq<byte>)
    requires |raw| == BFT_ENTRY_SIZE && Decode(raw).Err?
    ensures Decode(raw) == Err(EIO)
  {}

  /** The context of a lookup: the offset found so far. */
  datatype FindCtx = NotFound | FoundAt(off: nat)

  function FindEntryIter(name: Name): (FindCtx, nat, Entry) -> (FindCtx, bool) {
    (ctx: FindCtx, off: nat, ent: Entry) => if ent.name == name then (FoundAt(off), false) else (ctx, true)
  }

  /** The first slot from `i` on with that name, unless an unreadable slot comes first. */
  function LookupFrom(t: seq<Slot>, i: nat, name: Name): Result<nat>
    requires i <= |t|
    decreases |t| - i
  {
    if i == |t| then Err(ENOENT)
    else match t[i]
      case Free => LookupFrom(t, i + 1, name)
      case Corrupt => Err(EIO)
      case Used(e) => if e.name == name then Ok(i) else LookupFrom(t, i + 1, name)
  }

  function Lookup(t: seq<Slot>, name: Name): Result<nat> {
    LookupFrom(t, 0, name)
  }

  lemma {:induction false} IterFinds(t: seq<Slot>, i: nat, name: Name)
    requires i <= |t|
    ensures IterFrom(t, i, FindEntryIter(name), NotFound) ==
      match LookupFrom(t, i, name)
      case Ok(off) => (Done, FoundAt(off))
      case Err(e) => if e == EIO then (Failed(EIO), NotFound) else (Done, NotFound)
    ensures LookupFrom(t, i, name).Err? ==> LookupFrom(t, i, name).errno in {EIO, ENOENT}
    decreases |t| - i
  {
    if i < |t| {
      IterFinds(t, i + 1, name);
    }
  }

  method BftFindTableEntry(bft: array<byte>, filename: Name) returns (ret: Result<nat>)
    requires bft.Length == BFT_SIZE
    ensures ret == Lookup(TableOf(bft[..]), filename)
  {
    hide TableOf;
    var status, ctx := BftIterTableEntries(bft, FindEntryIter(filename), NotFound);
    IterFinds(TableOf(bft[..]), 0, filename);
    if status != Done {
      return Err(status.errno);
    }
    if ctx == NotFound {
      return Err(ENOENT);
    }
    return Ok(ctx.off);
  }

  // ---------- the table as a directory ----------

  ghost predicate Named(t: seq<Slot>, i: int, name: Name) {
    0 <= i < |t| && t[i].Used? && t[i].ent.name == name
  }

  ghost predicate NamesDistinct(t: seq<Slot>) {
    forall i, j :: 0 <= i < j < |t| && t[i].Used? && t[j].Used? ==> t[i].ent.name != t[j].ent.name
  }

  /** Every slot is readable and the names in use are nonempty and pairwise distinct. */
  ghost predicate IsDirectory(t: seq<Slot>) {
    && (forall i :: 0 <= i < |t| ==> t[i] != Corrupt)
    && (forall i :: 0 <= i < |t| && t[i].Used? ==> t[i].ent.name != [])
    && NamesDistinct(t)
  }

  /** What a lookup answers, for every table. */
  lemma {:induction false} LookupMeans(t: seq<Slot>, i: nat, name: Name)
    requires i <= |t|
    ensures forall k :: LookupFrom(t, i, name) == Ok(k) <==>
      i <= k && Named(t, k, name) && forall j :: i <= j < k ==> t[j] != Corrupt && !Named(t, j, name)
    ensures LookupFrom(t, i, name) == Err(ENOENT) <==>
      forall j :: i <= j < |t| ==> t[j] != Corrupt && !Named(t, j, name)
    decreases |t| - i
  {
    if i < |t| {
      LookupMeans(t, i + 1, name);
    }
  }

  /** In a directory a lookup finds the slot of the name, which is unique, and fails only when there is none. */
  lemma LookupInDirectory(t: seq<Slot>, name: Name)
    requires IsDirectory(t)
    ensures forall k :: Lookup(t, name) == Ok(k) <==> Named(t, k, name)
    ensures Lookup(t, name) == Err(ENOENT) <==> forall k :: !Named(t, k, name)
    ensures Lookup(t, name).Ok? || Lookup(t, name) == Err(ENOENT)
  {
    LookupMeans(t, 0, name);
  }

  /** Exactly when names stay distinct as a free slot gets an entry, for every table. */
  lemma EntryAdded(t: seq<Slot>, i: nat, e: Entry)
    requires i < |t| && t[i] == Free
    ensures NamesDistinct(t[i := Used(e)]) <==> NamesDistinct(t) && forall j :: !Named(t, j, e.name)
  {
    var t' := t[i := Used(e)];
    if NamesDistinct(t') {
      forall a, b | 0 <= a < b < |t| && t[a].Used? && t[b].Used? ensures t[a].ent.name != t[b].ent.name {
        assert t'[a] == t[a] && t'[b] == t[b];
      }
      forall j | 0 <= j < |t| ensures !Named(t, j, e.name) {
        assert t'[i].Used? && (j != i ==> t'[j] == t[j]);
      }
    }
    if NamesDistinct(t) && forall j :: !Named(t, j, e.name) {
      forall a, b | 0 <= a < b < |t| && t'[a].Used? && t'[b].Used? ensures t'[a].ent.name != t'[b].ent.name {
        assert !Named(t, a, e.name) && !Named(t, b, e.name);
      }
    }
  }

  /** A lookup that fails at an unreadable slot says nothing of the slots behind it. */
  lemma UnreadableHides(e: Entry)
    ensures var t := [Corrupt, Used(e), Free];
      Lookup(t, e.name) == Err(EIO) && NamesDistinct(t) && !NamesDistinct(t[2 := Used(e)])
  {
    var t := [Corrupt, Used(e), Free];
    EntryAdded(t, 2, e);
    assert Named(t, 1, e.name);
    assert LookupFrom(t, 0, e.name) == Err(EIO);
  }

  ghost function NamesOf(t: seq<Slot>): set<Name> {
    set i: nat | i < |t| && t[i].Used? :: t[i].ent.name
  }

  /** The directory as a map from names to slots. */
  ghost function Dir(t: seq<Slot>): map<Name, nat> {
    map n: Name | n in NamesOf(t) :: match Lookup(t, n) case Ok(k) => k case Err(_) => 0
  }
}
