/** Building the table of symbol versions from the linked entries of .gnu.version_d and .gnu.version_r
    (LSB Core Generic, section 10.7). */
module VersionTables {
  import opened Words
  import opened ElfHash

  /** Mapped memory seen through raw pointers. */
  type Image = nat -> Byte

  /** The n-byte little-endian integer at p. */
  function Read(mem: Image, p: nat, n: nat): nat {
    FromLe(seq(n, i requires 0 <= i < n => mem(p + i)))
  }

  lemma ReadTwo(mem: Image, p: nat)
    ensures Read(mem, p, 2) == mem(p) as int + 256 * mem(p + 1)
  {
    var bytes := seq(2, i requires 0 <= i < 2 => mem(p + i));
    assert bytes == [mem(p), mem(p + 1)];
    assert bytes[1..] == [mem(p + 1)] && [mem(p + 1)][1..] == [];
    assert FromLe(bytes) == mem(p) as int + 256 * FromLe(bytes[1..]);
    assert FromLe([mem(p + 1)]) == mem(p + 1) as int + 256 * FromLe([]);
  }

  const VER_NDX_SPAN: nat := 0x8000

  /** `ndx & VER_NDX_VERSION`. */
  function VersionIndex(ndx: nat): nat {
    ndx % VER_NDX_SPAN
  }

  predicate IsHidden(ndx: nat) {
    ndx / VER_NDX_SPAN % 2 == 1
  }

  /** Entries with their links resolved to addresses. */
  datatype VerDef = VerDef(ndx: nat, cnt: nat, hash: nat, aux: nat, next: nat)
  datatype VerNeed = VerNeed(cnt: nat, aux: nat, next: nat)
  datatype VerNeedAux = VerNeedAux(hash: nat, other: nat, name: nat)

  function ReadVerDef(mem: Image, p: nat): VerDef {
    VerDef(Read(mem, p + 4, 2), Read(mem, p + 6, 2), Read(mem, p + 8, 4), p + Read(mem, p + 12, 4), p + Read(mem, p + 16, 4))
  }

  function ReadVerDefAux(mem: Image, p: nat): nat {
    Read(mem, p, 4)
  }

  function ReadVerNeed(mem: Image, p: nat): VerNeed {
    VerNeed(Read(mem, p + 2, 2), p + Read(mem, p + 8, 4), p + Read(mem, p + 12, 4))
  }

  function ReadVerNeedAux(mem: Image, p: nat): VerNeedAux {
    VerNeedAux(Read(mem, p, 4), Read(mem, p + 6, 2), Read(mem, p + 8, 4))
  }

  /** The items met on a walk of n steps from p. */
  function Walk<T>(read: nat -> T, step: nat -> nat, p: nat, n: nat): (r: seq<T>)
    ensures |r| == n
    decreases n
  {
    if n == 0 then [] else [read(p)] + Walk(read, step, step(p), n - 1)
  }

  /** From p on, each of n entries but the last links to the one `size` bytes further on. */
  predicate Contiguous(link: nat -> nat, size: nat, p: nat, n: nat)
    decreases n
  {
    n <= 1 || (link(p) == p + size && Contiguous(link, size, p + size, n - 1))
  }

  function Visited(step: nat -> nat, p: nat, n: nat): seq<nat> {
    Walk((q: nat) => q, step, p, n)
  }

  /** Striding over an array of entries visits the same ones as following their links exactly when the
      entries are contiguous, and then reads the same items. */
  lemma {:induction false} StrideIsLink<T>(read: nat -> T, link: nat -> nat, stride: nat -> nat, size: nat, p: nat, n: nat)
    requires forall q: nat :: stride(q) == q + size
    ensures Visited(link, p, n) == Visited(stride, p, n) <==> Contiguous(link, size, p, n)
    ensures Contiguous(link, size, p, n) ==> Walk(read, link, p, n) == Walk(read, stride, p, n)
    decreases n
  {
    if n > 1 {
      var ls, ss := Visited(link, p, n), Visited(stride, p, n);
      assert ls[1..] == Visited(link, link(p), n - 1) && ss[1..] == Visited(stride, p + size, n - 1);
      assert ls[1] == link(p) && ss[1] == p + size;
      StrideIsLink(read, link, stride, size, p + size, n - 1);
      assert ls == [p] + ls[1..] && ss == [p] + ss[1..];
    }
  }

  /** The four table iterators: they count entries and follow links, or stride over an array. */
  class TableIterator<T> {
    const read: nat -> T
    const step: nat -> nat
    const num: nat
    var ptr: nat
    var count: nat

    constructor (read: nat -> T, step: nat -> nat, ptr: nat, num: nat)
      ensures Valid() && Rest() == Walk(read, step, ptr, num)
    {
      this.read, this.step, this.ptr, this.num := read, step, ptr, num;
      count := 0;
    }

    ghost predicate Valid()
      reads this
    {
      count <= num
    }

    ghost function Rest(): seq<T>
      reads this
      requires Valid()
    {
      Walk(read, step, ptr, num - count)
    }

    method Next() returns (r: Option<T>)
      requires Valid()
      modifies this
      ensures Valid()
      ensures old(Rest()) == [] ==> r == None && Rest() == []
      ensures old(Rest()) != [] ==> r == Some(old(Rest())[0]) && Rest() == old(Rest())[1..]
    {
      if count < num {
        r := Some(read(ptr));
        ptr := step(ptr);
        count := count + 1;
      } else {
        r := None;
      }
    }
  }

  datatype Table = Table(ptr: nat, num: nat)
  datatype Version = Version(name: Name, hash: nat)

  /** One slot to write: the version that an index stands for. */
  datatype Entry = Entry(ndx: nat, version: Version)

  function VerDefs(mem: Image, t: Table): seq<VerDef> {
    Walk(p => ReadVerDef(mem, p), p => ReadVerDef(mem, p).next, t.ptr, t.num)
  }

  function VerNeeds(mem: Image, t: Table): seq<VerNeed> {
    Walk(p => ReadVerNeed(mem, p), p => ReadVerNeed(mem, p).next, t.ptr, t.num)
  }

  function VerDefAuxes(mem: Image, d: VerDef): seq<nat> {
    Walk(p => ReadVerDefAux(mem, p), p => p + 8, d.aux, d.cnt)
  }

  function VerNeedAuxes(mem: Image, d: VerNeed): seq<VerNeedAux> {
    Walk(p => ReadVerNeedAux(mem, p), p => p + 16, d.aux, d.cnt)
  }

  /** A definition gives its index the name of its first auxiliary entry. */
  function DefEntries(mem: Image, strtab: nat -> Name, defs: seq<VerDef>): seq<Entry> {
    if defs == [] then []
    else
      [DefEntry(mem, strtab, defs[0])] + DefEntries(mem, strtab, defs[1..])
  }

  function AuxEntries(strtab: nat -> Name, auxes: seq<VerNeedAux>): (r: seq<Entry>)
    ensures |r| == |auxes|
  {
    if auxes == [] then []
    else [AuxEntry(strtab, auxes[0])] + AuxEntries(strtab, auxes[1..])
  }

  function NeedEntries(mem: Image, strtab: nat -> Name, needs: seq<VerNeed>): seq<Entry> {
    if needs == [] then []
    else AuxEntries(strtab, VerNeedAuxes(mem, needs[0])) + NeedEntries(mem, strtab, needs[1..])
  }

  function AllEntries(mem: Image, strtab: nat -> Name, verdef: Table, verneed: Table): seq<Entry> {
    DefEntries(mem, strtab, VerDefs(mem, verdef)) + NeedEntries(mem, strtab, VerNeeds(mem, verneed))
  }

  function DefEntry(mem: Image, strtab: nat -> Name, d: VerDef): Entry {
    Entry(VersionIndex(d.ndx), Version(strtab(ReadVerDefAux(mem, d.aux)), d.hash))
  }

  function AuxEntry(strtab: nat -> Name, a: VerNeedAux): Entry {
    Entry(VersionIndex(a.other), Version(strtab(a.name), a.hash))
  }

  lemma DefEntriesHead(mem: Image, strtab: nat -> Name, d: VerDef, rest: seq<VerDef>)
    ensures DefEntries(mem, strtab, [d] + rest) == [DefEntry(mem, strtab, d)] + DefEntries(mem, strtab, rest)
  {
  }

  lemma AuxEntriesHead(strtab: nat -> Name, a: VerNeedAux, rest: seq<VerNeedAux>)
    ensures AuxEntries(strtab, [a] + rest) == [AuxEntry(strtab, a)] + AuxEntries(strtab, rest)
  {
  }

  function MaxIndex(es: seq<Entry>, start: nat): (r: nat)
    ensures start <= r && forall e :: e in es ==> e.ndx <= r
    ensures r == start || exists e :: e in es && e.ndx == r
  {
    if es == [] then start else MaxIndex(es[1..], if start < es[0].ndx then es[0].ndx else start)
  }

  lemma {:induction false} MaxIndexConcat(es: seq<Entry>, fs: seq<Entry>, start: nat)
    ensures MaxIndex(es + fs, start) == MaxIndex(fs, MaxIndex(es, start))
  {
    if es == [] {
      assert es + fs == fs;
    } else {
      assert (es + fs)[1..] == es[1..] + fs;
      MaxIndexConcat(es[1..], fs, if start < es[0].ndx then es[0].ndx else start);
    }
  }

  predicate FitsIn(es: seq<Entry>, size: nat) {
    forall e :: e in es ==> e.ndx < size
  }

  /** Writing entries one after the other; a slot nobody writes stays uninitialised. */
  function Fill(slots: seq<Option<Version>>, es: seq<Entry>): (r: seq<Option<Version>>)
    requires FitsIn(es, |slots|)
    ensures |r| == |slots|
    decreases |es|
  {
    if es == [] then slots
    else
      assert es[0] in es;
      Fill(slots[es[0].ndx := Some(es[0].version)], es[1..])
  }

  lemma FillHead(slots: seq<Option<Version>>, e: Entry, es: seq<Entry>)
    requires FitsIn([e] + es, |slots|)
    ensures e.ndx < |slots| && FitsIn(es, |slots|)
    ensures Fill(slots, [e] + es) == Fill(slots[e.ndx := Some(e.version)], es)
  {
    assert e in [e] + es && forall f :: f in es ==> f in [e] + es;
    assert ([e] + es)[1..] == es;
  }

  lemma {:induction false} FillConcat(slots: seq<Option<Version>>, es: seq<Entry>, fs: seq<Entry>)
    requires FitsIn(es, |slots|) && FitsIn(fs, |slots|)
    ensures FitsIn(es + fs, |slots|) && Fill(slots, es + fs) == Fill(Fill(slots, es), fs)
    decreases |es|
  {
    if es == [] {
      assert es + fs == fs;
    } else {
      assert es[0] in es;
      assert (es + fs)[1..] == es[1..] + fs;
      FillConcat(slots[es[0].ndx := Some(es[0].version)], es[1..], fs);
    }
  }

  predicate Unwritten(es: seq<Entry>, k: nat) {
    forall e :: e in es ==> e.ndx != k
  }

  lemma {:induction false} UnwrittenStays(slots: seq<Option<Version>>, es: seq<Entry>, k: nat)
    requires FitsIn(es, |slots|) && k < |slots| && Unwritten(es, k)
    ensures Fill(slots, es)[k] == slots[k]
    decreases |es|
  {
    if es != [] {
      assert es[0] in es;
      UnwrittenStays(slots[es[0].ndx := Some(es[0].version)], es[1..], k);
    }
  }

  /** The last entry written to an index is the one that stays. */
  lemma LastWriteStays(slots: seq<Option<Version>>, es: seq<Entry>, i: nat)
    requires FitsIn(es, |slots|) && i < |es| && Unwritten(es[i + 1..], es[i].ndx)
    ensures es[i].ndx < |slots| && Fill(slots, es)[es[i].ndx] == Some(es[i].version)
  {
    var e := es[i];
    assert e in es;
    assert es == es[..i] + ([e] + es[i + 1..]);
    FillConcat(slots, es[..i], [e] + es[i + 1..]);
    assert ([e] + es[i + 1..])[1..] == es[i + 1..];
    UnwrittenStays(Fill(slots, es[..i])[e.ndx := Some(e.version)], es[i + 1..], e.ndx);
  }

  ghost predicate DistinctIndices(es: seq<Entry>) {
    forall i, j :: 0 <= i < j < |es| ==> es[i].ndx != es[j].ndx
  }

  function Uninitialised(size: nat): (r: seq<Option<Version>>)
    ensures |r| == size && forall k :: 0 <= k < size ==> r[k] == None
  {
    seq(size, _ => None)
  }

  lemma EntriesFit(es: seq<Entry>)
    ensures FitsIn(es, MaxIndex(es, 0) + 1)
  {
  }

  /** The array that the two passes leave. */
  function VersionArray(es: seq<Entry>): (r: seq<Option<Version>>)
    ensures |r| == MaxIndex(es, 0) + 1
  {
    EntriesFit(es);
    Fill(Uninitialised(MaxIndex(es, 0) + 1), es)
  }

  /** With distinct indices the array is the map from index to version: a slot holds a version
      exactly when an entry says so, and is uninitialised exactly when none does. */
  lemma VersionArrayIsMap(es: seq<Entry>, k: nat, v: Version)
    requires DistinctIndices(es)
    ensures Entry(k, v) in es <==> k < |VersionArray(es)| && VersionArray(es)[k] == Some(v)
    ensures k < |VersionArray(es)| ==> (VersionArray(es)[k] == None <==> Unwritten(es, k))
  {
    EntriesFit(es);
    var slots := Uninitialised(MaxIndex(es, 0) + 1);
    if k < |slots| {
      if Unwritten(es, k) {
        UnwrittenStays(slots, es, k);
      } else {
        var i :| 0 <= i < |es| && es[i].ndx == k;
        LastWriteStays(slots, es, i);
        if Entry(k, v) in es {
          var j :| 0 <= j < |es| && es[j] == Entry(k, v);
        }
      }
    }
  }

  /** An index holds a version exactly when some entry writes it, and it is the version of one that does. */
  lemma {:induction false} FilledExactly(slots: seq<Option<Version>>, es: seq<Entry>, k: nat)
    requires FitsIn(es, |slots|) && k < |slots|
    ensures Fill(slots, es)[k].Some? <==> slots[k].Some? || !Unwritten(es, k)
    ensures Fill(slots, es)[k].Some? ==> Fill(slots, es)[k] == slots[k] || Entry(k, Fill(slots, es)[k].value) in es
    decreases |es|
  {
    if es != [] {
      var e, tail := es[0], es[1..];
      assert e in es && es == [e] + tail;
      FilledExactly(slots[e.ndx := Some(e.version)], tail, k);
    }
  }

  lemma ArrayDefines(es: seq<Entry>, k: nat)
    ensures k < |VersionArray(es)| && VersionArray(es)[k].Some? <==> !Unwritten(es, k)
    ensures k < |VersionArray(es)| && VersionArray(es)[k].Some? ==> Entry(k, VersionArray(es)[k].value) in es
  {
    EntriesFit(es);
    if k < |VersionArray(es)| {
      FilledExactly(Uninitialised(MaxIndex(es, 0) + 1), es, k);
    }
  }

  /** `ELFVersion`: the index of every symbol, in memory at `ids`, and the version of every index. */
  datatype ELFVersion = ELFVersion(mem: Image, ids: nat, versions: seq<Option<Version>>)
  {
    function Id(symIdx: nat): nat {
      Read(mem, ids + 2 * symIdx, 2)
    }
  }

  datatype Outcome = Unversioned | Versioned(version: ELFVersion) | Panicked

  /** What is left to process: the item in hand and those still behind the iterator. */
  ghost function Pending<T>(item: Option<T>, rest: seq<T>): seq<T> {
    if item.Some? then [item.value] + rest else rest
  }

  method IterateDefs(mem: Image, t: Table) returns (it: TableIterator<VerDef>)
    ensures fresh(it) && it.Valid() && it.Rest() == VerDefs(mem, t)
  {
    it := new TableIterator(p => ReadVerDef(mem, p), p => ReadVerDef(mem, p).next, t.ptr, t.num);
  }

  /** The auxiliaries of a definition and of a requirement are read by stride; the links of their entries
      (vda_next and vna_next) lead to the same ones exactly when the entries are contiguous. */
  lemma AuxesFollowLinks(mem: Image, d: VerDef, need: VerNeed)
    ensures var next := (p: nat) => p + Read(mem, p + 4, 4);
            Contiguous(next, 8, d.aux, d.cnt) ==> Walk(p => ReadVerDefAux(mem, p), next, d.aux, d.cnt) == VerDefAuxes(mem, d)
    ensures var next := (p: nat) => p + Read(mem, p + 12, 4);
            Contiguous(next, 16, need.aux, need.cnt) ==> Walk(p => ReadVerNeedAux(mem, p), next, need.aux, need.cnt) == VerNeedAuxes(mem, need)
  {
    StrideIsLink(p => ReadVerDefAux(mem, p), (p: nat) => p + Read(mem, p + 4, 4), (p: nat) => p + 8, 8, d.aux, d.cnt);
    StrideIsLink(p => ReadVerNeedAux(mem, p), (p: nat) => p + Read(mem, p + 12, 4), (p: nat) => p + 16, 16, need.aux, need.cnt);
  }

  method IterateDefAuxes(mem: Image, d: VerDef) returns (it: TableIterator<nat>)
    ensures fresh(it) && it.Valid() && it.Rest() == VerDefAuxes(mem, d)
  {
    it := new TableIterator(p => ReadVerDefAux(mem, p), p => p + 8, d.aux, d.cnt);
  }

  method IterateNeeds(mem: Image, t: Table) returns (it: TableIterator<VerNeed>)
    ensures fresh(it) && it.Valid() && it.Rest() == VerNeeds(mem, t)
  {
    it := new TableIterator(p => ReadVerNeed(mem, p), p => ReadVerNeed(mem, p).next, t.ptr, t.num);
  }

  method IterateNeedAuxes(mem: Image, d: VerNeed) returns (it: TableIterator<VerNeedAux>)
    ensures fresh(it) && it.Valid() && it.Rest() == VerNeedAuxes(mem, d)
  {
    it := new TableIterator(p => ReadVerNeedAux(mem, p), p => p + 16, d.aux, d.cnt);
  }

  // ----- first pass: the largest index

  method LargestDef(mem: Image, ghost strtab: nat -> Name, verdef: Table) returns (ndxMax: nat)
    ensures ndxMax == MaxIndex(DefEntries(mem, strtab, VerDefs(mem, verdef)), 0)
  {
    ndxMax := 0;
    ghost var all := DefEntries(mem, strtab, VerDefs(mem, verdef));
    var defs := IterateDefs(mem, verdef);
    var def := defs.Next();
    while def.Some?
      invariant defs.Valid() && fresh(defs)
      invariant def.None? ==> defs.Rest() == []
      invariant MaxIndex(DefEntries(mem, strtab, Pending(def, defs.Rest())), ndxMax) == MaxIndex(all, 0)
      decreases |Pending(def, defs.Rest())|
    {
      DefEntriesHead(mem, strtab, def.value, defs.Rest());
      if ndxMax < VersionIndex(def.value.ndx) {
        ndxMax := VersionIndex(def.value.ndx);
      }
      def := defs.Next();
    }
  }

  method LargestAux(mem: Image, ghost strtab: nat -> Name, need: VerNeed, start: nat) returns (ndxMax: nat)
    ensures ndxMax == MaxIndex(AuxEntries(strtab, VerNeedAuxes(mem, need)), start)
  {
    ndxMax := start;
    ghost var all := AuxEntries(strtab, VerNeedAuxes(mem, need));
    var auxes := IterateNeedAuxes(mem, need);
    var aux := auxes.Next();
    while aux.Some?
      invariant auxes.Valid() && fresh(auxes)
      invariant aux.None? ==> auxes.Rest() == []
      invariant MaxIndex(AuxEntries(strtab, Pending(aux, auxes.Rest())), ndxMax) == MaxIndex(all, start)
      decreases |Pending(aux, auxes.Rest())|
    {
      AuxEntriesHead(strtab, aux.value, auxes.Rest());
      if ndxMax < VersionIndex(aux.value.other) {
        ndxMax := VersionIndex(aux.value.other);
      }
      aux := auxes.Next();
    }
  }

  method LargestNeed(mem: Image, ghost strtab: nat -> Name, verneed: Table, start: nat) returns (ndxMax: nat)
    ensures ndxMax == MaxIndex(NeedEntries(mem, strtab, VerNeeds(mem, verneed)), start)
  {
    ndxMax := start;
    ghost var all := NeedEntries(mem, strtab, VerNeeds(mem, verneed));
    var needs := IterateNeeds(mem, verneed);
    var need := needs.Next();
    while need.Some?
      invariant needs.Valid() && fresh(needs)
      invariant need.None? ==> needs.Rest() == []
      invariant MaxIndex(NeedEntries(mem, strtab, Pending(need, needs.Rest())), ndxMax) == MaxIndex(all, start)
      decreases |Pending(need, needs.Rest())|
    {
      MaxIndexConcat(AuxEntries(strtab, VerNeedAuxes(mem, need.value)), NeedEntries(mem, strtab, needs.Rest()), ndxMax);
      ndxMax := LargestAux(mem, strtab, need.value, ndxMax);
      need := needs.Next();
    }
  }

  // ----- second pass: filling the array

  predicate AllNamed(defs: seq<VerDef>) {
    forall d :: d in defs ==> d.cnt != 0
  }

  method FirstName(mem: Image, strtab: nat -> Name, d: VerDef) returns (r: Option<Name>)
    ensures r == if d.cnt == 0 then None else Some(strtab(ReadVerDefAux(mem, d.aux)))
  {
    var auxes := IterateDefAuxes(mem, d);
    var aux := auxes.Next();
    r := if aux.None? then None else Some(strtab(aux.value));
  }

  lemma NamedStep(d: VerDef, rest: seq<VerDef>)
    ensures AllNamed([d] + rest) <==> d.cnt != 0 && AllNamed(rest)
  {
    assert d in [d] + rest && forall e :: e in rest ==> e in [d] + rest;
  }

  /** Definitions go first; one without auxiliary entries is a panic (`unwrap` of no name). */
  method FillDefs(mem: Image, strtab: nat -> Name, verdef: Table, versions: array<Option<Version>>) returns (ok: bool)
    requires FitsIn(DefEntries(mem, strtab, VerDefs(mem, verdef)), versions.Length)
    modifies versions
    ensures ok <==> AllNamed(VerDefs(mem, verdef))
    ensures ok ==> versions[..] == Fill(old(versions[..]), DefEntries(mem, strtab, VerDefs(mem, verdef)))
  {
    ghost var all := DefEntries(mem, strtab, VerDefs(mem, verdef));
    ghost var slots := versions[..];
    var defs := IterateDefs(mem, verdef);
    var def := defs.Next();
    while def.Some?
      invariant defs.Valid() && fresh(defs)
      invariant def.None? ==> defs.Rest() == []
      invariant AllNamed(VerDefs(mem, verdef)) <==> AllNamed(Pending(def, defs.Rest()))
      invariant FitsIn(DefEntries(mem, strtab, Pending(def, defs.Rest())), versions.Length)
      invariant Fill(versions[..], DefEntries(mem, strtab, Pending(def, defs.Rest()))) == Fill(slots, all)
      decreases |Pending(def, defs.Rest())|
    {
      ghost var e := DefEntry(mem, strtab, def.value);
      DefEntriesHead(mem, strtab, def.value, defs.Rest());
      FillHead(versions[..], e, DefEntries(mem, strtab, defs.Rest()));
      NamedStep(def.value, defs.Rest());
      var name := FirstName(mem, strtab, def.value);
      if name.None? {
        return false;
      }
      ghost var was := versions[..];
      versions[VersionIndex(def.value.ndx)] := Some(Version(name.value, def.value.hash));
      assert versions[..] == was[e.ndx := Some(e.version)];
      def := defs.Next();
    }
    return true;
  }

  method FillAuxes(mem: Image, strtab: nat -> Name, need: VerNeed, versions: array<Option<Version>>)
    requires FitsIn(AuxEntries(strtab, VerNeedAuxes(mem, need)), versions.Length)
    modifies versions
    ensures versions[..] == Fill(old(versions[..]), AuxEntries(strtab, VerNeedAuxes(mem, need)))
  {
    ghost var all := AuxEntries(strtab, VerNeedAuxes(mem, need));
    ghost var slots := versions[..];
    var auxes := IterateNeedAuxes(mem, need);
    var aux := auxes.Next();
    while aux.Some?
      invariant auxes.Valid() && fresh(auxes)
      invariant aux.None? ==> auxes.Rest() == []
      invariant FitsIn(AuxEntries(strtab, Pending(aux, auxes.Rest())), versions.Length)
      invariant Fill(versions[..], AuxEntries(strtab, Pending(aux, auxes.Rest()))) == Fill(slots, all)
      decreases |Pending(aux, auxes.Rest())|
    {
      ghost var e := AuxEntry(strtab, aux.value);
      AuxEntriesHead(strtab, aux.value, auxes.Rest());
      FillHead(versions[..], e, AuxEntries(strtab, auxes.Rest()));
      ghost var was := versions[..];
      versions[VersionIndex(aux.value.other)] := Some(Version(strtab(aux.value.name), aux.value.hash));
      assert versions[..] == was[e.ndx := Some(e.version)];
      aux := auxes.Next();
    }
  }

  method FillNeeds(mem: Image, strtab: nat -> Name, verneed: Table, versions: array<Option<Version>>)
    requires FitsIn(NeedEntries(mem, strtab, VerNeeds(mem, verneed)), versions.Length)
    modifies versions
    ensures versions[..] == Fill(old(versions[..]), NeedEntries(mem, strtab, VerNeeds(mem, verneed)))
  {
    ghost var all := NeedEntries(mem, strtab, VerNeeds(mem, verneed));
    ghost var slots := versions[..];
    var needs := IterateNeeds(mem, verneed);
    var need := needs.Next();
    while need.Some?
      invariant needs.Valid() && fresh(needs)
      invariant need.None? ==> needs.Rest() == []
      invariant FitsIn(NeedEntries(mem, strtab, Pending(need, needs.Rest())), versions.Length)
      invariant Fill(versions[..], NeedEntries(mem, strtab, Pending(need, needs.Rest()))) == Fill(slots, all)
      decreases |Pending(need, needs.Rest())|
    {
      ghost var now := AuxEntries(strtab, VerNeedAuxes(mem, need.value));
      ghost var later := NeedEntries(mem, strtab, needs.Rest());
      assert NeedEntries(mem, strtab, [need.value] + needs.Rest()) == now + later;
      FillConcat(versions[..], now, later);
      FillAuxes(mem, strtab, need.value, versions);
      need := needs.Next();
    }
  }

  lemma BothFit(es: seq<Entry>, fs: seq<Entry>, size: nat)
    requires size == MaxIndex(es + fs, 0) + 1
    ensures FitsIn(es, size) && FitsIn(fs, size)
  {
    forall e | e in es || e in fs ensures e.ndx < size {
      assert e in es + fs;
    }
  }

  method FillBoth(mem: Image, strtab: nat -> Name, verdef: Table, verneed: Table, size: nat)
    returns (r: Option<seq<Option<Version>>>)
    requires FitsIn(DefEntries(mem, strtab, VerDefs(mem, verdef)), size)
    requires FitsIn(NeedEntries(mem, strtab, VerNeeds(mem, verneed)), size)
    ensures FitsIn(AllEntries(mem, strtab, verdef, verneed), size)
    ensures r == if AllNamed(VerDefs(mem, verdef))
                 then Some(Fill(Uninitialised(size), AllEntries(mem, strtab, verdef, verneed)))
                 else None
  {
    ghost var ds, ns := DefEntries(mem, strtab, VerDefs(mem, verdef)), NeedEntries(mem, strtab, VerNeeds(mem, verneed));
    FillConcat(Uninitialised(size), ds, ns);
    var versions := new Option<Version>[size](_ => None);
    assert versions[..] == Uninitialised(size);
    var ok := FillDefs(mem, strtab, verdef, versions);
    if !ok {
      return None;
    }
    FillNeeds(mem, strtab, verneed, versions);
    r := Some(versions[..]);
  }

  /** `ELFVersion::new`: size the array in one pass, fill it in another. No write of the second pass
      can fall outside the array, whatever the links say. */
  method NewVersion(mem: Image, strtab: nat -> Name, ids: Option<nat>, verneed: Option<Table>, verdef: Option<Table>)
    returns (r: Outcome)
    ensures var defs, needs := if verdef.Some? then verdef.value else Table(0, 0), if verneed.Some? then verneed.value else Table(0, 0);
            var es := AllEntries(mem, strtab, defs, needs);
            r == if ids.None? then Unversioned
                 else if !AllNamed(VerDefs(mem, defs)) then Panicked
                 else Versioned(ELFVersion(mem, ids.value, VersionArray(es)))
  {
    if ids.None? {
      return Unversioned;
    }
    var defs := if verdef.Some? then verdef.value else Table(0, 0);
    var needs := if verneed.Some? then verneed.value else Table(0, 0);
    ghost var ds, ns := DefEntries(mem, strtab, VerDefs(mem, defs)), NeedEntries(mem, strtab, VerNeeds(mem, needs));
    var ndxMax := LargestDef(mem, strtab, defs);
    ndxMax := LargestNeed(mem, strtab, needs, ndxMax);
    MaxIndexConcat(ds, ns, 0);
    BothFit(ds, ns, ndxMax + 1);
    var versions := FillBoth(mem, strtab, defs, needs, ndxMax + 1);
    r := if versions.None? then Panicked else Versioned(ELFVersion(mem, ids.value, versions.value));
  }
}
