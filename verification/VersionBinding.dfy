/** How a symbol that has a version binds: from the version sections of the object and of its libraries
    to the definition that relocation uses. */
module VersionBinding {
  import opened Words
  import opened ElfHash
  import opened VersionTables
  import opened VersionSections
  import opened Symbols
  import opened Relocation
  import opened RelocationResults

  /** i is the first hashed symbol of the name that has the version or, unless the request is hidden, any
      version that is not hidden. */
  ghost predicate FirstAnswer(t: SymbolTable, name: Name, version: Name, hidden: bool, i: nat) {
    && t.version.Some?
    && Hashed(t, i) && t.symtab[i].name == name && AnswersAt(t, version, hidden, i)
    && forall k :: t.hashtab.symbias <= k < i ==> !(t.symtab[k].name == name && AnswersAt(t, version, hidden, k))
  }

  predicate AnswersAt(t: SymbolTable, version: Name, hidden: bool, i: nat)
    requires t.version.Some?
  {
    VersionNameOf(t, i) == version || (!hidden && t.version.value.Id(i) / 0x8000 % 2 == 0)
  }

  /** A hidden request is answered by its own version only. */
  lemma HiddenAnswer(t: SymbolTable, name: Name, version: Name, i: nat)
    requires t.version.Some?
    ensures FirstAnswer(t, name, version, true, i) <==> FirstVersioned(t, name, version, i)
  {
    assert forall k: nat :: AnswersAt(t, version, true, k) <==> VersionNameOf(t, k) == version;
  }

  predicate Ready(t: SymbolTable) {
    VersionsReady(t) && HashesStored(t.version.value)
  }

  /** What a library offers for a versioned request: its first answer, if that is usable. */
  lemma OfferedByVersion(t: SymbolTable, name: Name, v: SymbolVersion)
    requires Ready(t) && v.hash == GabiHash(v.name) as nat
    ensures LookupFilter(t, SymbolInfo(name, Some(v))) != Crashed
    ensures forall i: nat :: LookupFilter(t, SymbolInfo(name, Some(v))) == Found(i)
                             <==> FirstAnswer(t, name, v.name, v.hidden, i) && Usable(t.symtab[i])
  {
    VersionedExact(t, name, v);
    var accepts := (i: nat) => Answers(t, i, v);
    forall i: nat ensures IsFirst(t, SymbolInfo(name, Some(v)), i, accepts) <==> FirstAnswer(t, name, v.name, v.hidden, i) {
      assert forall k: nat :: accepts(k) <==> AnswersAt(t, v.name, v.hidden, k);
    }
  }

  lemma OneFirstAnswer(t: SymbolTable, name: Name, version: Name, hidden: bool, i: nat, j: nat)
    requires FirstAnswer(t, name, version, hidden, i) && FirstAnswer(t, name, version, hidden, j)
    ensures i == j
  {
  }

  /** A library has no usable first answer. */
  ghost predicate OffersNone(h: Helper, name: Name, version: Name, hidden: bool) {
    forall i: nat :: FirstAnswer(h.symtab, name, version, hidden, i) ==> !Usable(h.symtab.symtab[i])
  }

  lemma PassesByVersion(h: Helper, name: Name, v: SymbolVersion)
    requires Ready(h.symtab) && v.hash == GabiHash(v.name) as nat
    ensures Passes(h, SymbolInfo(name, Some(v))) <==> OffersNone(h, name, v.name, v.hidden)
  {
    OfferedByVersion(h.symtab, name, v);
    if LookupFilter(h.symtab, SymbolInfo(name, Some(v))).Found? {
      var i := LookupFilter(h.symtab, SymbolInfo(name, Some(v))).idx;
      assert FirstAnswer(h.symtab, name, v.name, v.hidden, i);
    }
  }

  /** d is the usable first answer of library j, and no library before it has one. */
  ghost predicate AnswersFrom(scope: seq<Helper>, name: Name, version: Name, hidden: bool, j: nat, d: SymDef) {
    && j < |scope|
    && (forall h :: h in scope[..j] ==> OffersNone(h, name, version, hidden))
    && exists i: nat :: FirstAnswer(scope[j].symtab, name, version, hidden, i) && Usable(scope[j].symtab.symtab[i])
                        && d == SymDef(Some(scope[j].symtab.symtab[i]), scope[j].base)
  }

  lemma OfferIsAnswer(scope: seq<Helper>, name: Name, v: SymbolVersion, j: nat, d: SymDef)
    requires (forall h :: h in scope ==> Ready(h.symtab)) && v.hash == GabiHash(v.name) as nat
    ensures FirstOffer(scope, SymbolInfo(name, Some(v)), j) && d == Offered(scope[j], SymbolInfo(name, Some(v)))
            <==> AnswersFrom(scope, name, v.name, v.hidden, j, d)
  {
    if j < |scope| {
      forall h | h in scope[..j] ensures Passes(h, SymbolInfo(name, Some(v))) <==> OffersNone(h, name, v.name, v.hidden) {
        assert h in scope;
        PassesByVersion(h, name, v);
      }
      assert scope[j] in scope;
      OfferedByVersion(scope[j].symtab, name, v);
    }
  }

  lemma NoOfferNoAnswer(scope: seq<Helper>, name: Name, v: SymbolVersion)
    requires (forall h :: h in scope ==> Ready(h.symtab)) && v.hash == GabiHash(v.name) as nat
    ensures AllPass(scope, SymbolInfo(name, Some(v))) <==> forall h :: h in scope ==> OffersNone(h, name, v.name, v.hidden)
  {
    forall h | h in scope ensures Passes(h, SymbolInfo(name, Some(v))) <==> OffersNone(h, name, v.name, v.hidden) {
      PassesByVersion(h, name, v);
    }
  }

  /** A symbol whose version index is above 1 (local and global) asks for its version. */
  predicate HasVersion(t: SymbolTable, idx: nat) {
    && idx < |t.symtab| && t.version.Some? && HashesStored(t.version.value) && VersionDefined(t.version.value, idx)
    && t.version.value.Id(idx) % 0x8000 > 1
  }

  /** Versioned binding: a symbol that is not local and has a version binds, over libraries that are ready for
      versioned lookups, to the first answer in the first library that has a usable one, for its own name,
      its own version's name and its own hidden bit; without one it is null if undefined and weak. */
  lemma BindsByVersion(ctx: Context, idx: nat, d: SymDef)
    requires HasVersion(ctx.symtab, idx) && !ctx.symtab.symtab[idx].IsLocal()
    requires forall h :: h in ctx.scope ==> Ready(h.symtab)
    ensures var sym := ctx.symtab.symtab[idx];
            var version, hidden := VersionNameOf(ctx.symtab, idx), ctx.symtab.version.value.Id(idx) / 0x8000 % 2 == 1;
            Define(ctx, idx) == Bound(d) <==>
            || (exists j: nat :: AnswersFrom(ctx.scope, sym.name, version, hidden, j, d))
            || ((forall h :: h in ctx.scope ==> OffersNone(h, sym.name, version, hidden))
                && sym.IsWeak() && sym.IsUndef() && sym.value == 0 && d == SymDef(None, ctx.base))
  {
    var sym := ctx.symtab.symtab[idx];
    RequirementIsOwnVersion(ctx.symtab, idx);
    var v := GetRequirement(ctx.symtab, idx).value.value;
    assert SymbolIdx(ctx.symtab, idx) == Some((sym, SymbolInfo(sym.name, Some(v))));
    DefineExact(ctx, idx, d);
    NoOfferNoAnswer(ctx.scope, sym.name, v);
    forall j: nat
      ensures FirstOffer(ctx.scope, SymbolInfo(sym.name, Some(v)), j) && d == Offered(ctx.scope[j], SymbolInfo(sym.name, Some(v)))
              <==> AnswersFrom(ctx.scope, sym.name, v.name, v.hidden, j, d)
    {
      OfferIsAnswer(ctx.scope, sym.name, v, j, d);
    }
  }

  /** From the sections to the request: with the versions that definitions and requirements list, a symbol
      whose .gnu.version entry holds an index and a hidden bit asks for the listed name and hash under that
      index, hidden as its bit says, and for none under the indices 0 and 1. */
  lemma RequestOfSections(t: SymbolTable, idx: nat, strtab: nat -> Name, defs: seq<Definition>, versions: seq<Required>,
                          index: nat, hidden: bool, v: Version)
    requires t.version.Some? && index < 0x8000
    requires Read(t.version.value.mem, t.version.value.ids + 2 * idx, 2) == index + if hidden then 0x8000 else 0
    requires forall k: nat, w: Version {:trigger Listed(strtab, defs, versions, k, w)} ::
               k < |t.version.value.versions| && t.version.value.versions[k] == Some(w) <==> Listed(strtab, defs, versions, k, w)
    ensures index <= 1 ==> GetRequirement(t, idx) == Some(None)
    ensures index > 1 && Listed(strtab, defs, versions, index, v) ==>
              GetRequirement(t, idx) == Some(Some(SymbolVersion(v.name, v.hash, hidden)))
    ensures index > 1 && (forall w :: !Listed(strtab, defs, versions, index, w)) ==> GetRequirement(t, idx) == None
  {
    IndexBits(index, hidden);
    var slots := t.version.value.versions;
    if index > 1 && index < |slots| && slots[index].Some? {
      assert Listed(strtab, defs, versions, index, slots[index].value);
    }
  }
}
