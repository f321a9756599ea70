/** The version sections (LSB Core Generic, section 10.7) field by field, and that the loader reads from
    them what was laid out. */
module VersionSections {
  import opened Words
  import opened ElfHash
  import opened VersionTables

  type U16 = x: int | 0 <= x < 0x1_0000
  type U32 = x: int | 0 <= x < 0x1_0000_0000
  type Offsets = s: seq<U32> | |s| < 0xffff
  type Versions = s: seq<Required> | |s| < 0x1_0000

  /** A version definition: its index and hash, its own name and those of its parents, as offsets into the
      string table. */
  datatype Definition = Definition(flags: U16, index: U16, hash: U32, name: U32, parents: Offsets)

  /** A version required from a file, and a file with the versions required from it. */
  datatype Required = Required(hash: U32, flags: U16, other: U16, name: U32)
  datatype Requirement = Requirement(file: U32, versions: Versions)

  // ----- fields

  /** A number in its width of bytes, least significant first. */
  datatype Cell = Cell(width: nat, value: nat)

  function Size(cells: seq<Cell>): nat {
    if cells == [] then 0 else cells[0].width + Size(cells[1..])
  }

  /** The fields lie in memory, one after the other. */
  predicate LaidOut(mem: Image, p: nat, cells: seq<Cell>)
    decreases |cells|
  {
    cells == [] || (Read(mem, p, cells[0].width) == cells[0].value && LaidOut(mem, p + cells[0].width, cells[1..]))
  }

  lemma {:induction false} LaidOutParts(mem: Image, p: nat, a: seq<Cell>, b: seq<Cell>)
    ensures Size(a + b) == Size(a) + Size(b)
    ensures LaidOut(mem, p, a + b) <==> LaidOut(mem, p, a) && LaidOut(mem, p + Size(a), b)
    decreases |a|
  {
    if a == [] {
      assert a + b == b;
    } else {
      assert (a + b)[1..] == a[1..] + b;
      LaidOutParts(mem, p + a[0].width, a[1..], b);
    }
  }

  lemma FirstCell(mem: Image, p: nat, c: Cell, rest: seq<Cell>)
    requires LaidOut(mem, p, [c] + rest)
    ensures Read(mem, p, c.width) == c.value && LaidOut(mem, p + c.width, rest)
  {
    assert ([c] + rest)[1..] == rest;
  }

  // ----- records

  /** vd_version, vd_flags, vd_ndx, vd_cnt, vd_hash, vd_aux, vd_next; then vda_name, vda_next of its own name
      and of each parent's. */
  function Verdef(d: Definition, next: U32): seq<Cell> {
    ([Cell(2, 1)] + ([Cell(2, d.flags)] + ([Cell(2, d.index)] + ([Cell(2, 1 + |d.parents|)] + ([Cell(4, d.hash)]
     + ([Cell(4, 20)] + ([Cell(4, next)] + ([Cell(4, d.name)] + ([Cell(4, if d.parents == [] then 0 else 8)] + Parents(d.parents))))))))))
  }

  function Parents(names: seq<U32>): seq<Cell> {
    if names == [] then [] else [Cell(4, names[0]), Cell(4, if |names| == 1 then 0 else 8)] + Parents(names[1..])
  }

  /** vna_hash, vna_flags, vna_other, vna_name, vna_next. */
  function Vernaux(v: Required, next: U32): seq<Cell> {
    [Cell(4, v.hash)] + ([Cell(2, v.flags)] + ([Cell(2, v.other)] + ([Cell(4, v.name)] + [Cell(4, next)])))
  }

  /** vn_version, vn_cnt, vn_file, vn_aux, vn_next, and the auxiliaries. */
  function Verneed(r: Requirement, next: U32): seq<Cell> {
    [Cell(2, 1)] + ([Cell(2, |r.versions|)] + ([Cell(4, r.file)] + ([Cell(4, 16)] + ([Cell(4, next)] + Vernauxes(r.versions)))))
  }

  /** Records one after the other, each telling how far the next one is: its own size or, for the last, 0. */
  function Chain<T>(items: seq<T>, record: (T, U32) -> seq<Cell>, size: T -> U32): seq<Cell> {
    if items == [] then [] else record(items[0], GapAt(items, size, 0)) + Chain(items[1..], record, size)
  }

  function GapAt<T>(items: seq<T>, size: T -> U32, i: nat): U32
    requires i < |items|
  {
    if i + 1 == |items| then 0 else size(items[i])
  }

  /** Where record i begins. */
  function Offset<T>(items: seq<T>, size: T -> U32, i: nat): nat
    requires i <= |items|
  {
    if i == 0 then 0 else size(items[0]) + Offset(items[1..], size, i - 1)
  }

  function VerdefOf(): (Definition, U32) -> seq<Cell> {
    (d: Definition, next: U32) => Verdef(d, next)
  }

  function DefinitionSize(): Definition -> U32 {
    (d: Definition) => 28 + 8 * |d.parents|
  }

  function VernauxOf(): (Required, U32) -> seq<Cell> {
    (v: Required, next: U32) => Vernaux(v, next)
  }

  function VersionSize(): Required -> U32 {
    (v: Required) => 16
  }

  function VerneedOf(): (Requirement, U32) -> seq<Cell> {
    (r: Requirement, next: U32) => Verneed(r, next)
  }

  function RequirementSize(): Requirement -> U32 {
    (r: Requirement) => 16 + 16 * |r.versions|
  }

  /** .gnu.version_d, .gnu.version_r, and the auxiliaries of one requirement. */
  function VersionD(defs: seq<Definition>): seq<Cell> {
    Chain(defs, VerdefOf(), DefinitionSize())
  }

  function VersionR(needs: seq<Requirement>): seq<Cell> {
    Chain(needs, VerneedOf(), RequirementSize())
  }

  function Vernauxes(versions: seq<Required>): seq<Cell> {
    Chain(versions, VernauxOf(), VersionSize())
  }

  // ----- sizes

  lemma {:induction false} ParentsSize(names: seq<U32>)
    ensures Size(Parents(names)) == 8 * |names|
  {
    if names != [] {
      ParentsSize(names[1..]);
      var two := [Cell(4, names[0]), Cell(4, if |names| == 1 then 0 else 8)];
      LaidOutParts(_ => 0, 0, two, Parents(names[1..]));
      assert two[1..][1..] == [];
    }
  }

  lemma SizeStep(c: Cell, rest: seq<Cell>)
    ensures Size([c] + rest) == c.width + Size(rest)
  {
    assert ([c] + rest)[1..] == rest;
  }

  lemma NineCells(a: Cell, b: Cell, c: Cell, d: Cell, e: Cell, f: Cell, g: Cell, h: Cell, i: Cell, rest: seq<Cell>)
    ensures Size([a] + ([b] + ([c] + ([d] + ([e] + ([f] + ([g] + ([h] + ([i] + rest)))))))))
            == a.width + b.width + c.width + d.width + e.width + f.width + g.width + h.width + i.width + Size(rest)
  {
    SizeStep(i, rest);
    SizeStep(h, [i] + rest);
    SizeStep(g, [h] + ([i] + rest));
    SizeStep(f, [g] + ([h] + ([i] + rest)));
    SizeStep(e, [f] + ([g] + ([h] + ([i] + rest))));
    SizeStep(d, [e] + ([f] + ([g] + ([h] + ([i] + rest)))));
    SizeStep(c, [d] + ([e] + ([f] + ([g] + ([h] + ([i] + rest))))));
    SizeStep(b, [c] + ([d] + ([e] + ([f] + ([g] + ([h] + ([i] + rest)))))));
    SizeStep(a, [b] + ([c] + ([d] + ([e] + ([f] + ([g] + ([h] + ([i] + rest))))))));
  }

  lemma FiveCells(a: Cell, b: Cell, c: Cell, d: Cell, e: Cell, rest: seq<Cell>)
    ensures Size([a] + ([b] + ([c] + ([d] + ([e] + rest))))) == a.width + b.width + c.width + d.width + e.width + Size(rest)
  {
    SizeStep(e, rest);
    SizeStep(d, [e] + rest);
    SizeStep(c, [d] + ([e] + rest));
    SizeStep(b, [c] + ([d] + ([e] + rest)));
    SizeStep(a, [b] + ([c] + ([d] + ([e] + rest))));
  }

  lemma VerdefSize(d: Definition, next: U32)
    ensures Size(Verdef(d, next)) == DefinitionSize()(d)
  {
    ParentsSize(d.parents);
    NineCells(Cell(2, 1), Cell(2, d.flags), Cell(2, d.index), Cell(2, 1 + |d.parents|), Cell(4, d.hash), Cell(4, 20), Cell(4, next),
              Cell(4, d.name), Cell(4, if d.parents == [] then 0 else 8), Parents(d.parents));
  }

  lemma VernauxSize(v: Required, next: U32)
    ensures Size(Vernaux(v, next)) == 16
  {
    FiveCells(Cell(4, v.hash), Cell(2, v.flags), Cell(2, v.other), Cell(4, v.name), Cell(4, next), []);
    assert [Cell(4, next)] + [] == [Cell(4, next)];
  }

  lemma {:induction false} VernauxesSize(versions: seq<Required>)
    ensures Size(Vernauxes(versions)) == 16 * |versions|
  {
    if versions != [] {
      var gap := GapAt(versions, VersionSize(), 0);
      VernauxSize(versions[0], gap);
      VernauxesSize(versions[1..]);
      LaidOutParts(_ => 0, 0, Vernaux(versions[0], gap), Vernauxes(versions[1..]));
    }
  }

  lemma VerneedSize(r: Requirement, next: U32)
    ensures Size(Verneed(r, next)) == RequirementSize()(r)
  {
    VernauxesSize(r.versions);
    FiveCells(Cell(2, 1), Cell(2, |r.versions|), Cell(4, r.file), Cell(4, 16), Cell(4, next), Vernauxes(r.versions));
  }

  // ----- chains and walks

  lemma {:induction false} OffsetNext<T>(items: seq<T>, size: T -> U32, i: nat)
    requires i < |items|
    ensures Offset(items, size, i + 1) == Offset(items, size, i) + size(items[i])
    decreases i
  {
    if i > 0 {
      OffsetNext(items[1..], size, i - 1);
    }
  }

  ghost predicate Sized<T(!new)>(record: (T, U32) -> seq<Cell>, size: T -> U32) {
    forall x, gap {:trigger record(x, gap)} :: Size(record(x, gap)) == size(x)
  }

  /** Record i lies at its offset. */
  lemma {:induction false} ChainAt<T(!new)>(mem: Image, p: nat, items: seq<T>, record: (T, U32) -> seq<Cell>, size: T -> U32, i: nat)
    requires i < |items| && LaidOut(mem, p, Chain(items, record, size)) && Sized(record, size)
    ensures LaidOut(mem, p + Offset(items, size, i), record(items[i], GapAt(items, size, i)))
    decreases i
  {
    LaidOutParts(mem, p, record(items[0], GapAt(items, size, 0)), Chain(items[1..], record, size));
    if i > 0 {
      ChainAt(mem, p + size(items[0]), items[1..], record, size, i - 1);
    }
  }

  /** A walk visits the given positions. */
  lemma {:induction false} WalkAt<T>(read: nat -> T, step: nat -> nat, p: nat, n: nat, pos: nat -> nat, i: nat)
    requires i < n && pos(0) == p && forall j: nat :: j + 1 < n ==> step(pos(j)) == pos(j + 1)
    ensures Walk(read, step, p, n)[i] == read(pos(i))
    decreases i
  {
    if i > 0 {
      WalkAt(read, step, step(p), n - 1, (j: nat) => pos(j + 1), i - 1);
    }
  }

  // ----- one record

  lemma EightRead(mem: Image, p: nat, a: Cell, b: Cell, c: Cell, d: Cell, e: Cell, f: Cell, g: Cell, h: Cell, rest: seq<Cell>)
    requires LaidOut(mem, p, [a] + ([b] + ([c] + ([d] + ([e] + ([f] + ([g] + ([h] + rest))))))))
    requires a.width == b.width == c.width == d.width == 2 && e.width == f.width == g.width == h.width == 4
    ensures Read(mem, p, 2) == a.value && Read(mem, p + 2, 2) == b.value && Read(mem, p + 4, 2) == c.value
    ensures Read(mem, p + 6, 2) == d.value && Read(mem, p + 8, 4) == e.value && Read(mem, p + 12, 4) == f.value
    ensures Read(mem, p + 16, 4) == g.value && Read(mem, p + 20, 4) == h.value
  {
    FirstCell(mem, p, a, [b] + ([c] + ([d] + ([e] + ([f] + ([g] + ([h] + rest)))))));
    FirstCell(mem, p + 2, b, [c] + ([d] + ([e] + ([f] + ([g] + ([h] + rest))))));
    FirstCell(mem, p + 4, c, [d] + ([e] + ([f] + ([g] + ([h] + rest)))));
    FirstCell(mem, p + 6, d, [e] + ([f] + ([g] + ([h] + rest))));
    FirstCell(mem, p + 8, e, [f] + ([g] + ([h] + rest)));
    FirstCell(mem, p + 12, f, [g] + ([h] + rest));
    FirstCell(mem, p + 16, g, [h] + rest);
    FirstCell(mem, p + 20, h, rest);
  }

  lemma VerdefBack(mem: Image, p: nat, d: Definition, next: U32)
    requires LaidOut(mem, p, Verdef(d, next))
    ensures ReadVerDef(mem, p) == VerDef(d.index, 1 + |d.parents|, d.hash, p + 20, p + next)
    ensures ReadVerDefAux(mem, p + 20) == d.name
  {
    EightRead(mem, p, Cell(2, 1), Cell(2, d.flags), Cell(2, d.index), Cell(2, 1 + |d.parents|), Cell(4, d.hash), Cell(4, 20),
              Cell(4, next), Cell(4, d.name), [Cell(4, if d.parents == [] then 0 else 8)] + Parents(d.parents));
  }

  lemma VernauxBack(mem: Image, p: nat, v: Required, next: U32)
    requires LaidOut(mem, p, Vernaux(v, next))
    ensures ReadVerNeedAux(mem, p) == VerNeedAux(v.hash, v.other, v.name)
  {
    var d := [Cell(4, next)];
    var c := [Cell(4, v.name)] + d;
    var b := [Cell(2, v.other)] + c;
    var a := [Cell(2, v.flags)] + b;
    FirstCell(mem, p, Cell(4, v.hash), a);
    FirstCell(mem, p + 4, Cell(2, v.flags), b);
    FirstCell(mem, p + 6, Cell(2, v.other), c);
    FirstCell(mem, p + 8, Cell(4, v.name), d);
  }

  lemma FiveRead(mem: Image, p: nat, a: Cell, b: Cell, c: Cell, d: Cell, e: Cell, rest: seq<Cell>)
    requires LaidOut(mem, p, [a] + ([b] + ([c] + ([d] + ([e] + rest)))))
    requires a.width == b.width == 2 && c.width == d.width == e.width == 4
    ensures Read(mem, p, 2) == a.value && Read(mem, p + 2, 2) == b.value && Read(mem, p + 4, 4) == c.value
    ensures Read(mem, p + 8, 4) == d.value && Read(mem, p + 12, 4) == e.value && LaidOut(mem, p + 16, rest)
  {
    FirstCell(mem, p, a, [b] + ([c] + ([d] + ([e] + rest))));
    FirstCell(mem, p + 2, b, [c] + ([d] + ([e] + rest)));
    FirstCell(mem, p + 4, c, [d] + ([e] + rest));
    FirstCell(mem, p + 8, d, [e] + rest);
    FirstCell(mem, p + 12, e, rest);
  }

  lemma VerneedBack(mem: Image, p: nat, r: Requirement, next: U32)
    requires LaidOut(mem, p, Verneed(r, next))
    ensures ReadVerNeed(mem, p) == VerNeed(|r.versions|, p + 16, p + next)
    ensures LaidOut(mem, p + 16, Vernauxes(r.versions))
  {
    FiveRead(mem, p, Cell(2, 1), Cell(2, |r.versions|), Cell(4, r.file), Cell(4, 16), Cell(4, next), Vernauxes(r.versions));
  }

  // ----- the versions that were laid out

  /** A definition gives its index its own name and hash. The index is the low 15 bits. */
  function Defined(strtab: nat -> Name, defs: seq<Definition>): (r: seq<Entry>)
    ensures |r| == |defs|
    ensures forall k :: 0 <= k < |defs| ==> r[k] == Entry(defs[k].index % 0x8000, Version(strtab(defs[k].name), defs[k].hash))
  {
    seq(|defs|, k requires 0 <= k < |defs| => Entry(defs[k].index % 0x8000, Version(strtab(defs[k].name), defs[k].hash)))
  }

  function RequiredVersions(strtab: nat -> Name, versions: seq<Required>): (r: seq<Entry>)
    ensures |r| == |versions|
    ensures forall k :: 0 <= k < |versions| ==> r[k] == Entry(versions[k].other % 0x8000, Version(strtab(versions[k].name), versions[k].hash))
  {
    seq(|versions|, k requires 0 <= k < |versions| => Entry(versions[k].other % 0x8000, Version(strtab(versions[k].name), versions[k].hash)))
  }

  function AllRequired(needs: seq<Requirement>): seq<Required> {
    if needs == [] then [] else needs[0].versions + AllRequired(needs[1..])
  }

  // Definition i.

  function DefinitionAt(p: nat, defs: seq<Definition>): nat -> nat {
    (j: nat) => p + if j <= |defs| then Offset(defs, DefinitionSize(), j) else 0
  }

  lemma DefinitionRecord(mem: Image, p: nat, defs: seq<Definition>, i: nat)
    requires i < |defs| && LaidOut(mem, p, VersionD(defs))
    ensures LaidOut(mem, DefinitionAt(p, defs)(i), Verdef(defs[i], GapAt(defs, DefinitionSize(), i)))
  {
    forall d, gap ensures Size(VerdefOf()(d, gap)) == DefinitionSize()(d) {
      VerdefSize(d, gap);
    }
    ChainAt(mem, p, defs, VerdefOf(), DefinitionSize(), i);
  }

  lemma DefinitionRead(mem: Image, strtab: nat -> Name, p: nat, defs: seq<Definition>, i: nat)
    requires i < |defs| && LaidOut(mem, p, VersionD(defs))
    ensures var d := ReadVerDef(mem, DefinitionAt(p, defs)(i));
            && d.cnt != 0 && (i + 1 < |defs| ==> d.next == DefinitionAt(p, defs)(i + 1))
            && DefEntry(mem, strtab, d) == Entry(defs[i].index % 0x8000, Version(strtab(defs[i].name), defs[i].hash))
  {
    DefinitionRecord(mem, p, defs, i);
    VerdefBack(mem, DefinitionAt(p, defs)(i), defs[i], GapAt(defs, DefinitionSize(), i));
    OffsetNext(defs, DefinitionSize(), i);
  }

  lemma DefinitionWalked(mem: Image, strtab: nat -> Name, p: nat, defs: seq<Definition>, i: nat)
    requires i < |defs| && LaidOut(mem, p, VersionD(defs))
    ensures VerDefs(mem, Table(p, |defs|))[i] == ReadVerDef(mem, DefinitionAt(p, defs)(i))
  {
    var read, step := (q: nat) => ReadVerDef(mem, q), (q: nat) => ReadVerDef(mem, q).next;
    forall j: nat | j + 1 < |defs| ensures step(DefinitionAt(p, defs)(j)) == DefinitionAt(p, defs)(j + 1) {
      DefinitionRead(mem, strtab, p, defs, j);
    }
    WalkAt(read, step, p, |defs|, DefinitionAt(p, defs), i);
  }

  lemma {:induction false} DefEntriesAt(mem: Image, strtab: nat -> Name, ds: seq<VerDef>, es: seq<Entry>)
    requires |ds| == |es| && forall i :: 0 <= i < |ds| ==> DefEntry(mem, strtab, ds[i]) == es[i]
    ensures DefEntries(mem, strtab, ds) == es
  {
    if ds != [] {
      DefEntriesAt(mem, strtab, ds[1..], es[1..]);
      assert es == [es[0]] + es[1..];
    }
  }

  lemma DefinitionsBack(mem: Image, strtab: nat -> Name, p: nat, defs: seq<Definition>)
    requires LaidOut(mem, p, VersionD(defs))
    ensures AllNamed(VerDefs(mem, Table(p, |defs|)))
    ensures DefEntries(mem, strtab, VerDefs(mem, Table(p, |defs|))) == Defined(strtab, defs)
  {
    var ds := VerDefs(mem, Table(p, |defs|));
    forall i | 0 <= i < |ds| ensures ds[i].cnt != 0 && DefEntry(mem, strtab, ds[i]) == Defined(strtab, defs)[i] {
      DefinitionRead(mem, strtab, p, defs, i);
      DefinitionWalked(mem, strtab, p, defs, i);
    }
    DefEntriesAt(mem, strtab, ds, Defined(strtab, defs));
  }

  // Version i of a requirement.

  lemma {:induction false} VersionOffset(versions: seq<Required>, i: nat)
    requires i <= |versions|
    ensures Offset(versions, VersionSize(), i) == 16 * i
    decreases i
  {
    if i > 0 {
      VersionOffset(versions[1..], i - 1);
    }
  }

  lemma VersionRead(mem: Image, p: nat, versions: seq<Required>, i: nat)
    requires i < |versions| && LaidOut(mem, p, Vernauxes(versions))
    ensures ReadVerNeedAux(mem, p + 16 * i) == VerNeedAux(versions[i].hash, versions[i].other, versions[i].name)
  {
    forall v, gap ensures Size(VernauxOf()(v, gap)) == VersionSize()(v) {
      VernauxSize(v, gap);
    }
    ChainAt(mem, p, versions, VernauxOf(), VersionSize(), i);
    VersionOffset(versions, i);
    VernauxBack(mem, p + 16 * i, versions[i], GapAt(versions, VersionSize(), i));
  }

  lemma {:induction false} AuxEntriesAt(strtab: nat -> Name, auxes: seq<VerNeedAux>, es: seq<Entry>)
    requires |auxes| == |es| && forall i :: 0 <= i < |auxes| ==> AuxEntry(strtab, auxes[i]) == es[i]
    ensures AuxEntries(strtab, auxes) == es
  {
    if auxes != [] {
      AuxEntriesAt(strtab, auxes[1..], es[1..]);
      assert es == [es[0]] + es[1..];
    }
  }

  lemma VersionWalked(mem: Image, need: VerNeed, i: nat)
    requires i < need.cnt
    ensures VerNeedAuxes(mem, need)[i] == ReadVerNeedAux(mem, need.aux + 16 * i)
  {
    WalkAt(q => ReadVerNeedAux(mem, q), (q: nat) => q + 16, need.aux, need.cnt, (j: nat) => need.aux + 16 * j, i);
  }

  lemma VersionsBack(mem: Image, strtab: nat -> Name, need: VerNeed, versions: seq<Required>)
    requires LaidOut(mem, need.aux, Vernauxes(versions)) && need.cnt == |versions|
    ensures AuxEntries(strtab, VerNeedAuxes(mem, need)) == RequiredVersions(strtab, versions)
  {
    var auxes := VerNeedAuxes(mem, need);
    forall i | 0 <= i < |auxes| ensures AuxEntry(strtab, auxes[i]) == RequiredVersions(strtab, versions)[i] {
      VersionWalked(mem, need, i);
      VersionRead(mem, need.aux, versions, i);
    }
    AuxEntriesAt(strtab, auxes, RequiredVersions(strtab, versions));
  }

  // Requirement i.

  function RequirementAt(p: nat, needs: seq<Requirement>): nat -> nat {
    (j: nat) => p + if j <= |needs| then Offset(needs, RequirementSize(), j) else 0
  }

  lemma RequirementRecord(mem: Image, p: nat, needs: seq<Requirement>, i: nat)
    requires i < |needs| && LaidOut(mem, p, VersionR(needs))
    ensures LaidOut(mem, RequirementAt(p, needs)(i), Verneed(needs[i], GapAt(needs, RequirementSize(), i)))
  {
    forall r, gap ensures Size(VerneedOf()(r, gap)) == RequirementSize()(r) {
      VerneedSize(r, gap);
    }
    ChainAt(mem, p, needs, VerneedOf(), RequirementSize(), i);
  }

  lemma RequirementRead(mem: Image, strtab: nat -> Name, p: nat, needs: seq<Requirement>, i: nat)
    requires i < |needs| && LaidOut(mem, p, VersionR(needs))
    ensures var need := ReadVerNeed(mem, RequirementAt(p, needs)(i));
            && (i + 1 < |needs| ==> need.next == RequirementAt(p, needs)(i + 1))
            && AuxEntries(strtab, VerNeedAuxes(mem, need)) == RequiredVersions(strtab, needs[i].versions)
  {
    var at := RequirementAt(p, needs)(i);
    RequirementRecord(mem, p, needs, i);
    VerneedBack(mem, at, needs[i], GapAt(needs, RequirementSize(), i));
    VersionsBack(mem, strtab, ReadVerNeed(mem, at), needs[i].versions);
    OffsetNext(needs, RequirementSize(), i);
  }

  lemma RequirementWalked(mem: Image, strtab: nat -> Name, p: nat, needs: seq<Requirement>, i: nat)
    requires i < |needs| && LaidOut(mem, p, VersionR(needs))
    ensures VerNeeds(mem, Table(p, |needs|))[i] == ReadVerNeed(mem, RequirementAt(p, needs)(i))
  {
    var read, step := (q: nat) => ReadVerNeed(mem, q), (q: nat) => ReadVerNeed(mem, q).next;
    forall j: nat | j + 1 < |needs| ensures step(RequirementAt(p, needs)(j)) == RequirementAt(p, needs)(j + 1) {
      RequirementRead(mem, strtab, p, needs, j);
    }
    WalkAt(read, step, p, |needs|, RequirementAt(p, needs), i);
  }

  lemma RequiredConcat(strtab: nat -> Name, a: seq<Required>, b: seq<Required>)
    ensures RequiredVersions(strtab, a + b) == RequiredVersions(strtab, a) + RequiredVersions(strtab, b)
  {
  }

  lemma {:induction false} NeedEntriesAt(mem: Image, strtab: nat -> Name, vs: seq<VerNeed>, needs: seq<Requirement>)
    requires |vs| == |needs|
    requires forall i :: 0 <= i < |vs| ==> AuxEntries(strtab, VerNeedAuxes(mem, vs[i])) == RequiredVersions(strtab, needs[i].versions)
    ensures NeedEntries(mem, strtab, vs) == RequiredVersions(strtab, AllRequired(needs))
  {
    if vs != [] {
      NeedEntriesAt(mem, strtab, vs[1..], needs[1..]);
      RequiredConcat(strtab, needs[0].versions, AllRequired(needs[1..]));
    }
  }

  lemma RequirementsBack(mem: Image, strtab: nat -> Name, p: nat, needs: seq<Requirement>)
    requires LaidOut(mem, p, VersionR(needs))
    ensures NeedEntries(mem, strtab, VerNeeds(mem, Table(p, |needs|))) == RequiredVersions(strtab, AllRequired(needs))
  {
    var vs := VerNeeds(mem, Table(p, |needs|));
    forall i | 0 <= i < |vs| ensures AuxEntries(strtab, VerNeedAuxes(mem, vs[i])) == RequiredVersions(strtab, needs[i].versions) {
      RequirementRead(mem, strtab, p, needs, i);
      RequirementWalked(mem, strtab, p, needs, i);
    }
    NeedEntriesAt(mem, strtab, vs, needs);
  }

  // ----- the round trip

  /** Some definition or requirement gives index k this version. */
  ghost predicate Listed(strtab: nat -> Name, defs: seq<Definition>, versions: seq<Required>, k: nat, v: Version) {
    || (exists d :: d in defs && d.index % 0x8000 == k && v == Version(strtab(d.name), d.hash))
    || (exists q :: q in versions && q.other % 0x8000 == k && v == Version(strtab(q.name), q.hash))
  }

  lemma EntryListed(strtab: nat -> Name, defs: seq<Definition>, versions: seq<Required>, k: nat, v: Version)
    ensures Entry(k, v) in Defined(strtab, defs) + RequiredVersions(strtab, versions) <==> Listed(strtab, defs, versions, k, v)
  {
    var ds, qs := Defined(strtab, defs), RequiredVersions(strtab, versions);
    assert Entry(k, v) in ds + qs <==> Entry(k, v) in ds || Entry(k, v) in qs;
    if d :| d in defs && d.index % 0x8000 == k && v == Version(strtab(d.name), d.hash) {
      var i :| 0 <= i < |defs| && defs[i] == d;
      assert ds[i] == Entry(k, v);
    }
    if q :| q in versions && q.other % 0x8000 == k && v == Version(strtab(q.name), q.hash) {
      var i :| 0 <= i < |versions| && versions[i] == q;
      assert qs[i] == Entry(k, v);
    }
  }

  /** Round trip: from sections laid out as the LSB says, `ELFVersion::new` makes an array in which, with
      distinct indices, slot k holds a version if and only if a definition or a requirement gives index k
      that name and hash. */
  method NewVersionOfSections(mem: Image, strtab: nat -> Name, ids: nat, defAt: nat, needAt: nat,
                              ghost defs: seq<Definition>, ghost needs: seq<Requirement>, defNum: nat, needNum: nat)
    returns (r: Outcome)
    requires LaidOut(mem, defAt, VersionD(defs)) && defNum == |defs|
    requires LaidOut(mem, needAt, VersionR(needs)) && needNum == |needs|
    requires DistinctIndices(Defined(strtab, defs) + RequiredVersions(strtab, AllRequired(needs)))
    ensures r.Versioned? && r.version.mem == mem && r.version.ids == ids
    ensures forall k: nat, v: Version {:trigger Listed(strtab, defs, AllRequired(needs), k, v)} ::
              k < |r.version.versions| && r.version.versions[k] == Some(v) <==> Listed(strtab, defs, AllRequired(needs), k, v)
  {
    ghost var es := Defined(strtab, defs) + RequiredVersions(strtab, AllRequired(needs));
    DefinitionsBack(mem, strtab, defAt, defs);
    RequirementsBack(mem, strtab, needAt, needs);
    assert AllEntries(mem, strtab, Table(defAt, defNum), Table(needAt, needNum)) == es;
    r := NewVersion(mem, strtab, Some(ids), Some(Table(needAt, needNum)), Some(Table(defAt, defNum)));
    assert r == Versioned(ELFVersion(mem, ids, VersionArray(es)));
    forall k: nat, v: Version {:trigger Listed(strtab, defs, AllRequired(needs), k, v)}
      ensures k < |VersionArray(es)| && VersionArray(es)[k] == Some(v) <==> Listed(strtab, defs, AllRequired(needs), k, v)
    {
      VersionArrayIsMap(es, k, v);
      EntryListed(strtab, defs, AllRequired(needs), k, v);
    }
  }

  // ----- every list of fields can be laid out

  predicate CellsFit(cells: seq<Cell>) {
    forall i :: 0 <= i < |cells| ==> cells[i].value < Pow256(cells[i].width)
  }

  function Bytes(cells: seq<Cell>): (r: seq<Byte>)
    requires CellsFit(cells)
    ensures |r| == Size(cells)
  {
    if cells == [] then [] else Field(cells[0].value, cells[0].width) + Bytes(cells[1..])
  }

  /** Memory that holds the bytes at p, and whatever else elsewhere. */
  predicate Holds(mem: Image, p: nat, bytes: seq<Byte>) {
    forall i :: 0 <= i < |bytes| ==> mem(p + i) == bytes[i]
  }

  lemma {:induction false} BytesAreLaidOut(mem: Image, p: nat, cells: seq<Cell>)
    requires CellsFit(cells) && Holds(mem, p, Bytes(cells))
    ensures LaidOut(mem, p, cells)
    decreases |cells|
  {
    if cells != [] {
      var first, rest := Field(cells[0].value, cells[0].width), Bytes(cells[1..]);
      HoldsParts(mem, p, first, rest);
      ReadBytesBack(mem, p, first);
      BytesAreLaidOut(mem, p + |first|, cells[1..]);
    }
  }

  lemma HoldsParts(mem: Image, p: nat, a: seq<Byte>, b: seq<Byte>)
    requires Holds(mem, p, a + b)
    ensures Holds(mem, p, a) && Holds(mem, p + |a|, b)
  {
    forall i | 0 <= i < |a| ensures mem(p + i) == a[i] {
      assert mem(p + i) == (a + b)[i];
    }
    forall i | 0 <= i < |b| ensures mem(p + |a| + i) == b[i] {
      assert mem(p + (|a| + i)) == (a + b)[|a| + i];
    }
  }

  lemma ReadBytesBack(mem: Image, p: nat, bytes: seq<Byte>)
    requires Holds(mem, p, bytes)
    ensures Read(mem, p, |bytes|) == FromLe(bytes)
  {
    assert seq(|bytes|, i requires 0 <= i < |bytes| => mem(p + i)) == bytes;
  }

  /** The low 15 bits of a version index are the index, the bit above them hides. */
  lemma IndexBits(index: nat, hidden: bool)
    requires index < 0x8000
    ensures VersionIndex(index + if hidden then 0x8000 else 0) == index
    ensures IsHidden(index + if hidden then 0x8000 else 0) <==> hidden
  {
  }
}
