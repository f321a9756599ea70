/** Lazy binding: PLT slots are prepared once and then patched one at a time by `dl_fixup`. */
module LazyBinding {
  import opened Words
  import opened Memories
  import opened ElfHash
  import opened Symbols
  import opened Actions
  import opened Relocation
  import opened RelocationResults
  import opened HashBuilder

  type Finder = Name -> Option<Word>

  function OrElse(a: Option<Word>, b: Option<Word>): Option<Word> {
    if a.Some? then a else b
  }

  /** `RelocatedDylib::get`. */
  function Get(ifunc: Word -> Word, h: Helper, name: Name): Option<Word> {
    match LookupFilter(h.symtab, InfoFromName(name))
    case Found(i) => Some(Convert(ifunc, SymDef(Some(h.symtab.symtab[i]), h.base)))
    case _ => None
  }

  /** The closure of `create_lazy_scope`: the finder is asked inside the iteration over the libraries. */
  function LazyFind(libs: seq<Helper>, preFind: Finder, ifunc: Word -> Word, name: Name): Option<Word> {
    if libs == [] then None
    else
      var found := OrElse(preFind(name), Get(ifunc, libs[0], name));
      if found.Some? then found else LazyFind(libs[1..], preFind, ifunc, name)
  }

  /** What `dl_fixup` depends on while the scopes stay fixed: the object, the global scope if one is
      set, and the libraries of the local lazy scope if one is set. */
  datatype LazyEnv = LazyEnv(ctx: Context, pltrel: seq<ElfRela>, global: Option<Finder>, libs: Option<seq<Helper>>)

  /** The local scope; None is also the panic of unwrapping a scope that was not set. */
  function LocalFind(env: LazyEnv, name: Name): Option<Word> {
    if env.libs.Some? then LazyFind(env.libs.value, env.ctx.preFind, env.ctx.ifunc, name) else None
  }

  /** The address a slot gets; None is a panic ("lazy bind fail"). */
  function FixupValue(env: LazyEnv, name: Name): Option<Word> {
    match env.global
    case None => LocalFind(env, name)
    case Some(g) => OrElse(g(name), LocalFind(env, name))
  }

  function FixupAction(env: LazyEnv, idx: nat): Action {
    if idx >= |env.pltrel| then Panic
    else
      var e := env.pltrel[idx];
      if e.Type() != REL_JUMP_SLOT || e.Symbol() == 0 then Panic
      else
        match SymbolIdx(env.ctx.symtab, e.Symbol())
        case None => Panic
        case Some((sym, info)) =>
          match FixupValue(env, info.name)
          case None => Panic
          case Some(w) => Write(Target(env.ctx, e), w)
  }

  function FixupActions(env: LazyEnv, calls: seq<nat>): (r: seq<Action>)
    ensures |r| == |calls| && forall k :: 0 <= k < |calls| ==> r[k] == FixupAction(env, calls[k])
  {
    seq(|calls|, k requires 0 <= k < |calls| => FixupAction(env, calls[k]))
  }

  /** Calls of `dl_fixup` in any order, with repeats, until one fails. */
  function Fixups(env: LazyEnv, m: Memory, calls: seq<nat>): (Memory, Status) {
    Execute(m, FixupActions(env, calls))
  }

  /** The word the lazy pass gives a slot: the base is added to a jump slot's link-time word. */
  function PreparedWord(ctx: Context, m: Memory, e: ElfRela): Word {
    if e.Type() != REL_JUMP_SLOT then ctx.ifunc(Wrap(ctx.base + e.addend))
    else if Mapped(m, Target(ctx, e), 8) then Wrap(ReadWord(m, Target(ctx, e)) + ctx.base)
    else 0
  }

  /** One entry of the lazy pass; an unmapped slot faults, when it is read or when it is written. */
  function PrepareOne(ctx: Context, m: Memory, e: ElfRela): (Memory, Status) {
    if e.Type() == REL_JUMP_SLOT || e.Type() == REL_IRELATIVE then Perform(m, Write(Target(ctx, e), PreparedWord(ctx, m, e)))
    else (m, Panicked)
  }

  function PrepareAll(ctx: Context, m: Memory, es: seq<ElfRela>): (Memory, Status)
    decreases |es|
  {
    if es == [] then (m, Complete)
    else
      var (m1, st) := PrepareOne(ctx, m, es[0]);
      if st == Complete then PrepareAll(ctx, m1, es[1..]) else (m1, st)
  }

  lemma PrepareHead(ctx: Context, m: Memory, es: seq<ElfRela>, i: nat)
    requires i < |es|
    ensures var (m1, st) := PrepareOne(ctx, m, es[i]);
            PrepareAll(ctx, m, es[i..]) == if st == Complete then PrepareAll(ctx, m1, es[i + 1..]) else (m1, st)
  {
    assert es[i..][0] == es[i] && es[i..][1..] == es[i + 1..];
  }

  /** The global offset table and the two values that lead a PLT stub to `dl_fixup`. */
  datatype Got = Got(at: Word, dylib: Word, resolver: Word)

  function GotWord(got: Got, i: nat): Word {
    Wrap(got.at + 8 * i)
  }

  function SetGot(m: Memory, got: Got): (Memory, Status) {
    var (m1, st) := Perform(m, Write(GotWord(got, 1), got.dylib));
    if st == Complete then Perform(m1, Write(GotWord(got, 2), got.resolver)) else (m1, st)
  }

  /** What a PLT stub relies on: the second word of the table is the component, the third the resolver. */
  ghost predicate GotIsSet(m: Memory, got: Got) {
    && Mapped(m, Wrap(got.at + 8), 8) && ReadWord(m, Wrap(got.at + 8)) == got.dylib
    && Mapped(m, Wrap(got.at + 16), 8) && ReadWord(m, Wrap(got.at + 16)) == got.resolver
  }

  lemma SetGotSets(m: Memory, got: Got)
    requires SetGot(m, got).1 == Complete
    ensures GotIsSet(SetGot(m, got).0, got)
  {
    var a, b := Wrap(got.at + 8), Wrap(got.at + 16);
    assert a == GotWord(got, 1) && b == GotWord(got, 2);
    GotWordsApart(got);
    var m1 := Apply(m, WordPatch(a, got.dylib));
    WrittenReads(m, a, got.dylib);
    WrittenReads(m1, b, got.resolver);
    ReadApart(m1, b, got.resolver, a);
  }

  lemma GotWordsApart(got: Got)
    ensures WordsApart(Wrap(got.at + 8), Wrap(got.at + 16))
  {
    assert Wrap(got.at + 8) == if got.at + 8 < WORD_SPAN then got.at + 8 else got.at + 8 - WORD_SPAN;
    assert Wrap(got.at + 16) == if got.at + 16 < WORD_SPAN then got.at + 16 else got.at + 16 - WORD_SPAN;
  }

  lemma WrittenReads(m: Memory, a: Word, w: Word)
    ensures Mapped(Apply(m, WordPatch(a, w)), a, 8) && ReadWord(Apply(m, WordPatch(a, w)), a) == w
  {
    var n := Apply(m, WordPatch(a, w));
    forall x: nat | a <= x < a + 8 ensures At(n, x) == Some(WordBytes(w)[x - a]) {
      assert At(n, x) == After(At(m, x), CellAt(WordPatch(a, w), x));
    }
    WordFromBytes(n, a, w);
  }

  lemma SameGot(m: Memory, n: Memory, got: Got)
    requires GotIsSet(m, got) && forall a: nat :: InGot(got, a) ==> At(n, a) == At(m, a)
    ensures GotIsSet(n, got)
  {
    assert Wrap(got.at + 8) == GotWord(got, 1) && Wrap(got.at + 16) == GotWord(got, 2);
    GotWordKept(m, n, Wrap(got.at + 8));
    GotWordKept(m, n, Wrap(got.at + 16));
  }

  lemma GotWordKept(m: Memory, n: Memory, addr: Word)
    requires Mapped(m, addr, 8) && forall a: nat :: InWord(addr, a) ==> At(n, a) == At(m, a)
    ensures Mapped(n, addr, 8) && ReadWord(n, addr) == ReadWord(m, addr)
  {
    forall a | addr <= a < addr + 8 ensures a in n {
      assert InWord(addr, a) && At(n, a) == At(m, a);
    }
    forall a: nat | addr <= a < addr + 8 ensures At(m, a) == At(n, a) {
      assert InWord(addr, a);
    }
    SameWord(m, n, addr);
  }

  /** `relocate_pltrel_lazy`. */
  function Prepare(ctx: Context, m: Memory, es: seq<ElfRela>, got: Got): (Memory, Status) {
    var (m1, st) := PrepareAll(ctx, m, es);
    if st == Complete && es != [] then SetGot(m1, got) else (m1, st)
  }

  /** Memory and outcome of relocating an object that binds lazily. */
  function LazyStart(env: LazyEnv, m: Memory, r: ElfRelocation, got: Option<Got>): (Memory, Status) {
    var (m1, st1) := Run(env.ctx, m, RelativeJobs(r.relative) + Jobs(Dyn, r.dynrel));
    if st1 != Complete then (m1, st1)
    else if got.None? then (m1, Panicked)
    else
      var (m2, st2) := Prepare(env.ctx, m1, r.pltrel, got.value);
      if st2 == Complete && r.pltrel != [] && env.libs.None? && env.global.None? then (m2, Panicked) else (m2, st2)
  }

  // ----- the code

  method PrepareEntry(image: Image, ctx: Context, e: ElfRela) returns (st: Status)
    modifies image
    ensures (image.mem, st) == PrepareOne(ctx, old(image.mem), e)
  {
    var addr := Wrap(ctx.base + e.offset);
    assert addr == Target(ctx, e);
    ghost var prepared := PreparedWord(ctx, image.mem, e);
    if e.Type() == REL_JUMP_SLOT {
      if !Mapped(image.mem, addr, 8) {
        return Faulted;
      }
      var originVal := ReadWord(image.mem, addr);
      assert prepared == Wrap(originVal + ctx.base);
      st := image.WriteVal(ctx.base, e.offset, Wrap(originVal + ctx.base));
    } else if e.Type() == REL_IRELATIVE {
      st := image.WriteVal(ctx.base, e.offset, ctx.ifunc(Wrap(ctx.base + e.addend)));
    } else {
      st := Panicked;
    }
  }

  method RelocatePltrelLazy(image: Image, ctx: Context, es: seq<ElfRela>, got: Got) returns (st: Status)
    modifies image
    ensures (image.mem, st) == Prepare(ctx, old(image.mem), es, got)
    ensures st == Complete && es != [] ==> GotIsSet(image.mem, got)
  {
    ghost var m0 := image.mem;
    assert es[0..] == es;
    for i := 0 to |es|
      invariant PrepareAll(ctx, image.mem, es[i..]) == PrepareAll(ctx, m0, es)
    {
      PrepareHead(ctx, image.mem, es, i);
      st := PrepareEntry(image, ctx, es[i]);
      if st != Complete {
        return;
      }
    }
    st := Complete;
    if es != [] {
      st := PrepareLazyBind(image, got);
    }
  }

  /** `prepare_lazy_bind`. */
  method PrepareLazyBind(image: Image, got: Got) returns (st: Status)
    modifies image
    ensures (image.mem, st) == SetGot(old(image.mem), got)
    ensures st == Complete ==> GotIsSet(image.mem, got)
  {
    ghost var m0 := image.mem;
    st := image.WriteVal(got.at, 8, got.dylib);
    if st == Complete {
      st := image.WriteVal(got.at, 16, got.resolver);
    }
    if st == Complete {
      SetGotSets(m0, got);
    }
  }

  /** `relocate_impl` with lazy binding: the two other lists are relocated now, the PLT is prepared,
      and some scope must be there to bind it from. */
  method RelocateLazy(image: Image, env: LazyEnv, r: ElfRelocation, got: Option<Got>) returns (st: Status)
    requires env.pltrel == r.pltrel
    modifies image
    ensures (image.mem, st) == LazyStart(env, old(image.mem), r, got)
  {
    ghost var m0 := image.mem;
    RunConcat(env.ctx, m0, RelativeJobs(r.relative), Jobs(Dyn, r.dynrel));
    st := image.RelocateRelative(env.ctx, r.relative);
    if st != Complete {
      return;
    }
    st := image.RelocateDynrel(env.ctx, r.dynrel);
    if st != Complete {
      return;
    }
    if got.None? {
      return Panicked;
    }
    st := RelocatePltrelLazy(image, env.ctx, r.pltrel, got.value);
    if st == Complete && r.pltrel != [] && env.libs.None? && env.global.None? {
      st := Panicked;
    }
  }

  method DlFixup(image: Image, env: LazyEnv, relaIdx: nat) returns (r: Option<Word>, st: Status)
    modifies image
    ensures (image.mem, st) == Perform(old(image.mem), FixupAction(env, relaIdx))
    ensures st == Complete ==> r == Some(FixupAction(env, relaIdx).val)
  {
    if relaIdx >= |env.pltrel| {
      return None, Panicked;
    }
    var rela := env.pltrel[relaIdx];
    if rela.Type() != REL_JUMP_SLOT || rela.Symbol() == 0 {
      return None, Panicked;
    }
    var found := SymbolIdx(env.ctx.symtab, rela.Symbol());
    if found.None? {
      return None, Panicked;
    }
    var name := found.value.1.name;
    var symbol := None;
    if env.global.Some? {
      symbol := env.global.value(name);
    }
    if symbol.None? && env.libs.Some? {
      symbol := LazyFind(env.libs.value, env.ctx.preFind, env.ctx.ifunc, name);
    }
    if symbol.None? {
      return None, Panicked;
    }
    st := image.WriteVal(env.ctx.base, rela.offset, symbol.value);
    r := symbol;
  }

  // ----- lazy and eager resolution

  /** The finder to compare with: the global scope, then the caller's finder. */
  function GlobalThen(global: Option<Finder>, preFind: Finder): Finder {
    if global.None? then preFind else name => OrElse(global.value(name), preFind(name))
  }

  function EagerContext(env: LazyEnv): Context {
    env.ctx.(preFind := GlobalThen(env.global, env.ctx.preFind))
  }

  lemma {:induction false} LazyFindExact(libs: seq<Helper>, preFind: Finder, ifunc: Word -> Word, name: Name)
    ensures libs != [] && preFind(name).Some? ==> LazyFind(libs, preFind, ifunc, name) == preFind(name)
    ensures libs == [] ==> LazyFind(libs, preFind, ifunc, name) == None
    ensures preFind(name).None? ==>
              var search := FindInScope(libs, InfoFromName(name));
              && search != Aborted
              && LazyFind(libs, preFind, ifunc, name) == if search.Bound? then Some(Convert(ifunc, search.def)) else None
  {
    if libs != [] {
      CrashExactly(libs[0].symtab, InfoFromName(name));
      LazyFindExact(libs[1..], preFind, ifunc, name);
    }
  }

  /** The libraries of the lazy scope. */
  function LazyLibs(env: LazyEnv): seq<Helper> {
    if env.libs.Some? then env.libs.value else []
  }

  /** A finder answers for the name: the global scope, or the caller's finder, which is asked only where
      there is a library. */
  predicate Answered(env: LazyEnv, name: Name) {
    || (env.global.Some? && env.global.value(name).Some?)
    || (LazyLibs(env) != [] && env.ctx.preFind(name).Some?)
  }

  /** d is what the name alone finds in the lazy scope. */
  ghost predicate NameFinds(env: LazyEnv, name: Name, d: SymDef) {
    exists j: nat :: FirstOffer(LazyLibs(env), InfoFromName(name), j) && d == Offered(LazyLibs(env)[j], InfoFromName(name))
  }

  /** A fixup finds a value exactly when a finder answers or some library offers the name; the value is
      the finder's answer, which is the eager finder's too, or the address of that definition. */
  lemma FixupFinds(env: LazyEnv, name: Name)
    ensures FixupValue(env, name).Some? <==> Answered(env, name) || !AllPass(LazyLibs(env), InfoFromName(name))
    ensures env.global.Some? && env.global.value(name).Some? ==> FixupValue(env, name) == env.global.value(name)
    ensures Answered(env, name) && (env.global.None? || env.global.value(name).None?) ==> FixupValue(env, name) == env.ctx.preFind(name)
    ensures Answered(env, name) ==> FixupValue(env, name) == EagerContext(env).preFind(name)
    ensures !Answered(env, name) && FixupValue(env, name).Some? ==>
              && EagerContext(env).preFind(name).None?
              && exists d :: NameFinds(env, name, d) && FixupValue(env, name) == Some(Convert(env.ctx.ifunc, d))
    ensures !Answered(env, name) ==> forall d :: NameFinds(env, name, d) ==> FixupValue(env, name) == Some(Convert(env.ctx.ifunc, d))
  {
    var libs := LazyLibs(env);
    LazyFindExact(libs, env.ctx.preFind, env.ctx.ifunc, name);
    FindInScopeExact(libs, InfoFromName(name));
  }

  /** A fixup stores the value it finds at base plus offset exactly when its entry is a jump slot (type 7)
      of a symbol that can be read and a value is found; every other call panics without a store. */
  lemma FixupExactly(env: LazyEnv, i: nat)
    ensures FixupAction(env, i).Write? || FixupAction(env, i).Panic?
    ensures FixupAction(env, i).Write? <==>
            && i < |env.pltrel|
            && var e := env.pltrel[i];
               && e.Type() == 7 && e.Symbol() != 0 && SymbolIdx(env.ctx.symtab, e.Symbol()).Some?
               && FixupValue(env, SymbolIdx(env.ctx.symtab, e.Symbol()).value.1.name).Some?
    ensures FixupAction(env, i).Write? ==>
              var e := env.pltrel[i];
              FixupAction(env, i)
              == Write(Wrap(env.ctx.base + e.offset), FixupValue(env, SymbolIdx(env.ctx.symtab, e.Symbol()).value.1.name).value)
  {
  }

  /** When the value a fixup finds, if it finds one, is the eager value: a finder answers, or no library
      of the lazy scope offers the name, or the definition found by name alone converts to the same
      address as the one that the symbol, with its version and binding, has in the eager scope. */
  ghost predicate Agrees(env: LazyEnv, idx: nat)
    requires SymbolIdx(env.ctx.symtab, idx).Some?
  {
    var name := SymbolIdx(env.ctx.symtab, idx).value.1.name;
    || Answered(env, name)
    || AllPass(LazyLibs(env), InfoFromName(name))
    || exists d, e :: NameFinds(env, name, d) && Defines(env.ctx, idx, e) && Convert(env.ctx.ifunc, d) == Convert(env.ctx.ifunc, e)
  }

  lemma DefinesIgnoresFinder(env: LazyEnv, idx: nat, d: SymDef)
    ensures Defines(EagerContext(env), idx, d) <==> Defines(env.ctx, idx, d)
  {
  }

  /** For every symbol, local or not, versioned or not, and all pairs of scopes: what a fixup finds is the
      eager value if and only if the two agree. */
  lemma LazyValueIsEager(env: LazyEnv, idx: nat)
    requires SymbolIdx(env.ctx.symtab, idx).Some?
    ensures var name := SymbolIdx(env.ctx.symtab, idx).value.1.name;
            (forall w :: FixupValue(env, name) == Some(w) ==> Resolve(EagerContext(env), idx) == Value(w)) <==> Agrees(env, idx)
  {
    var name := SymbolIdx(env.ctx.symtab, idx).value.1.name;
    FixupFinds(env, name);
    if !Answered(env, name) && FixupValue(env, name).Some? {
      var w := FixupValue(env, name).value;
      ResolveExact(EagerContext(env), idx, w);
      forall e ensures Defines(EagerContext(env), idx, e) <==> Defines(env.ctx, idx, e) {
        DefinesIgnoresFinder(env, idx, e);
      }
    }
  }

  /** A symbol that is not local and is asked for without a version. */
  predicate PlainSymbol(ctx: Context, idx: nat) {
    && SymbolIdx(ctx.symtab, idx).Some?
    && var (sym, info) := SymbolIdx(ctx.symtab, idx).value;
       !sym.IsLocal() && info.version.None?
  }

  /** Where lazy binding finds nothing although eager binding has a value: the value is the finder's
      and the lazy scope has no library to ask it for, or it is the null of an undefined weak symbol. */
  ghost predicate OnlyEager(env: LazyEnv, name: Name) {
    !Answered(env, name) && AllPass(LazyLibs(env), InfoFromName(name))
  }

  /** A library, whose lazy scope is its eager one, agrees on every plain symbol; a fixup finds a value
      exactly when eager binding has one that is not eager-only. */
  lemma DylibAgrees(env: LazyEnv, idx: nat)
    requires env.libs == Some(env.ctx.scope) && PlainSymbol(env.ctx, idx)
    ensures Agrees(env, idx)
    ensures var name := SymbolIdx(env.ctx.symtab, idx).value.1.name;
            FixupValue(env, name).Some? <==> Resolve(EagerContext(env), idx).Value? && !OnlyEager(env, name)
  {
    var (sym, info) := SymbolIdx(env.ctx.symtab, idx).value;
    FixupFinds(env, info.name);
    assert info == InfoFromName(info.name);
    if !Answered(env, info.name) && !AllPass(env.ctx.scope, info) {
      var d :| NameFinds(env, info.name, d);
      assert Defines(env.ctx, idx, d);
    }
    LazyValueIsEager(env, idx);
  }

  /** An executable, whose lazy scope leaves the executable out although its eager scope begins with it,
      agrees on a plain symbol exactly when a finder answers, or the executable does not offer the
      symbol, or its libraries do not, or both definitions are at the same address. */
  lemma ExecAgrees(env: LazyEnv, libs: seq<Helper>, idx: nat)
    requires env.ctx.scope == ExecScope(env.ctx.base, Some(env.ctx.symtab), libs) && env.libs == Some(libs)
    requires PlainSymbol(env.ctx, idx)
    ensures var info := SymbolIdx(env.ctx.symtab, idx).value.1;
            var self := Helper(env.ctx.base, env.ctx.symtab);
            Agrees(env, idx) <==>
            || Answered(env, info.name)
            || Passes(self, info)
            || AllPass(libs, info)
            || (exists j: nat :: FirstOffer(libs, info, j) && Offers(self, info)
                                 && Convert(env.ctx.ifunc, Offered(libs[j], info)) == Convert(env.ctx.ifunc, Offered(self, info)))
  {
    var info := SymbolIdx(env.ctx.symtab, idx).value.1;
    var self := Helper(env.ctx.base, env.ctx.symtab);
    assert info == InfoFromName(info.name);
    if !Answered(env, info.name) && !AllPass(libs, info) {
      FindInScopeExact(libs, info);
      CrashExactly(self.symtab, info);
      LazyFindExact(libs, env.ctx.preFind, env.ctx.ifunc, info.name);
      var j: nat :| FirstOffer(libs, info, j);
      var d := Offered(libs[j], info);
      var e := if Passes(self, info) then d else Offered(self, info);
      assert Define(env.ctx, idx) == Bound(e) by {
        ExecBindsSelfFirst(env.ctx.base, env.ctx.symtab, libs, info);
      }
      AgreesOn(env, idx, d, e);
    }
  }

  /** Where the name finds d and the symbol binds to e, agreement is a matter of their addresses. */
  lemma AgreesOn(env: LazyEnv, idx: nat, d: SymDef, e: SymDef)
    requires SymbolIdx(env.ctx.symtab, idx).Some?
    requires var name := SymbolIdx(env.ctx.symtab, idx).value.1.name;
             !Answered(env, name) && FindInScope(LazyLibs(env), InfoFromName(name)) == Bound(d)
    requires Define(env.ctx, idx) == Bound(e)
    ensures Agrees(env, idx) <==> Convert(env.ctx.ifunc, d) == Convert(env.ctx.ifunc, e)
  {
    var name := SymbolIdx(env.ctx.symtab, idx).value.1.name;
    FindInScopeExact(LazyLibs(env), InfoFromName(name));
    forall e' ensures Defines(env.ctx, idx, e') <==> e' == e {
      DefineExact(env.ctx, idx, e');
    }
    forall d' ensures NameFinds(env, name, d') <==> d' == d {
      var j: nat :| FirstOffer(LazyLibs(env), InfoFromName(name), j);
    }
  }

  // ----- an executable that does not agree

  /** A table with one defined function of the given name. */
  function OneFunction(name: Name, value: Word): SymbolTable {
    Build([ElfSymbol(name, value, 8, 16 * STB_GLOBAL + STT_FUNC, 1)], 1, 0, 0)
  }

  lemma OneFunctionFound(name: Name, value: Word)
    ensures WellFormed(OneFunction(name, value)) && OneFunction(name, value).version.None?
    ensures var t := OneFunction(name, value);
            && |t.symtab| == 2 && t.symtab[1] == ElfSymbol(name, value, 8, 16 * STB_GLOBAL + STT_FUNC, 1)
            && LookupFilter(t, InfoFromName(name)) == Found(1)
  {
    var sym, t := ElfSymbol(name, value, 8, 16 * STB_GLOBAL + STT_FUNC, 1), OneFunction(name, value);
    BuiltIsWellFormed([sym], 1, 0, 0);
    assert Bucket(sym, 1) == 0;
    assert InBucket([sym], 1, 0) == [sym];
    assert Arranged([sym], 1, 1) == Arranged([sym], 1, 0) + InBucket([sym], 1, 0);
    assert t.symtab == [NULL_SYMBOL, sym];
    assert Stops(t, InfoFromName(name), 1);
  }

  /** An executable at 0x1000 and a library at 0x2000 both define a function, at 0x10; the executable
      calls it through its PLT. Eager binding writes 0x1010 into the slot, lazy binding 0x2010. */
  lemma ExecDisagrees(name: Name) returns (env: LazyEnv, libs: seq<Helper>)
    ensures env.ctx.scope == ExecScope(env.ctx.base, Some(env.ctx.symtab), libs) && env.libs == Some(libs)
    ensures forall h :: h in env.ctx.scope ==> WellFormed(h.symtab)
    ensures |env.pltrel| == 1 && PlainSymbol(env.ctx, env.pltrel[0].Symbol()) && !Agrees(env, env.pltrel[0].Symbol())
    ensures Plan(EagerContext(env), Job(Plt, env.pltrel[0])) == Write(0x5000, 0x1010)
    ensures FixupAction(env, 0) == Write(0x5000, 0x2010)
  {
    var t := OneFunction(name, 0x10);
    OneFunctionFound(name, 0x10);
    libs := [Helper(0x2000, t)];
    var ctx := Context(0x1000, t, [Helper(0x1000, t)] + libs, _ => None, w => w, _ => false);
    env := LazyEnv(ctx, [ElfRela(0x4000, U32_SPAN + REL_JUMP_SLOT, 0)], None, Some(libs));
    assert SymbolIdx(t, 1) == Some((t.symtab[1], InfoFromName(name)));
    assert env.pltrel[0].Symbol() == 1 && env.pltrel[0].Type() == REL_JUMP_SLOT;
    var found, own := SymDef(Some(t.symtab[1]), 0x2000), SymDef(Some(t.symtab[1]), 0x1000);
    assert FindInScope(libs, InfoFromName(name)) == Bound(found);
    assert Define(ctx, 1) == Bound(own);
    AgreesOn(env, 1, found, own);
    LazyFindExact(libs, ctx.preFind, ctx.ifunc, name);
  }

  // ----- preparation

  /** Distinct entries have distinct slots, and no slot is one of the two GOT words. */
  ghost predicate DisjointSlots(ctx: Context, es: seq<ElfRela>) {
    forall i, j :: 0 <= i < j < |es| ==> WordsApart(Target(ctx, es[i]), Target(ctx, es[j]))
  }

  ghost predicate ApartFromGot(ctx: Context, es: seq<ElfRela>, got: Got) {
    && WordsApart(GotWord(got, 1), GotWord(got, 2))
    && forall e :: e in es ==> WordsApart(Target(ctx, e), GotWord(got, 1)) && WordsApart(Target(ctx, e), GotWord(got, 2))
  }

  function PreparePatches(ctx: Context, m: Memory, es: seq<ElfRela>): (r: seq<Patch>)
    ensures |r| == |es| && forall i :: 0 <= i < |es| ==> r[i] == WordPatch(Target(ctx, es[i]), PreparedWord(ctx, m, es[i]))
  {
    seq(|es|, i requires 0 <= i < |es| => WordPatch(Target(ctx, es[i]), PreparedWord(ctx, m, es[i])))
  }

  lemma ReadApart(m: Memory, a: Word, w: Word, b: Word)
    requires WordsApart(a, b)
    ensures Mapped(Apply(m, WordPatch(a, w)), b, 8) <==> Mapped(m, b, 8)
    ensures Mapped(m, b, 8) ==> ReadWord(Apply(m, WordPatch(a, w)), b) == ReadWord(m, b)
  {
    var n := Apply(m, WordPatch(a, w));
    forall x: nat | b <= x < b + 8 ensures At(n, x) == At(m, x) && (x in n <==> x in m) {
      assert At(n, x) == After(At(m, x), CellAt(WordPatch(a, w), x));
    }
    if Mapped(m, b, 8) {
      assert ReadBytes(n, b, 8) == ReadBytes(m, b, 8) by {
        forall k | 0 <= k < 8 ensures ReadBytes(n, b, 8)[k] == ReadBytes(m, b, 8)[k] {
          assert At(n, b + k) == At(m, b + k);
        }
      }
    }
  }

  lemma PrepareOneIsPatch(ctx: Context, m: Memory, e: ElfRela)
    requires PrepareOne(ctx, m, e).1 == Complete
    ensures PrepareOne(ctx, m, e).0 == Apply(m, WordPatch(Target(ctx, e), PreparedWord(ctx, m, e)))
    ensures Mapped(m, Target(ctx, e), 8) && (e.Type() == REL_JUMP_SLOT || e.Type() == REL_IRELATIVE)
  {
  }

  /** Writing one slot leaves what another will find. */
  lemma PreparedElsewhere(ctx: Context, m: Memory, a: Word, w: Word, f: ElfRela)
    requires WordsApart(a, Target(ctx, f))
    ensures PreparedWord(ctx, Apply(m, WordPatch(a, w)), f) == PreparedWord(ctx, m, f)
    ensures Mapped(Apply(m, WordPatch(a, w)), Target(ctx, f), 8) <==> Mapped(m, Target(ctx, f), 8)
  {
    ReadApart(m, a, w, Target(ctx, f));
  }

  /** With disjoint slots every base is added to the word the linker left: exactly once. */
  lemma {:induction false} PrepareIsPatches(ctx: Context, m: Memory, es: seq<ElfRela>)
    requires DisjointSlots(ctx, es) && PrepareAll(ctx, m, es).1 == Complete
    ensures PrepareAll(ctx, m, es).0 == ApplyAll(m, PreparePatches(ctx, m, es))
    ensures forall e :: e in es ==> Mapped(m, Target(ctx, e), 8) && (e.Type() == REL_JUMP_SLOT || e.Type() == REL_IRELATIVE)
    decreases |es|
  {
    if es != [] {
      var e, rest := es[0], es[1..];
      var m1 := PrepareOne(ctx, m, e).0;
      PrepareOneIsPatch(ctx, m, e);
      PrepareIsPatches(ctx, m1, rest);
      forall j | 0 <= j < |rest|
        ensures PreparedWord(ctx, m1, rest[j]) == PreparedWord(ctx, m, rest[j])
        ensures Mapped(m, Target(ctx, rest[j]), 8)
      {
        assert es[j + 1] == rest[j] && rest[j] in rest;
        PreparedElsewhere(ctx, m, Target(ctx, e), PreparedWord(ctx, m, e), rest[j]);
      }
      assert PreparePatches(ctx, m, es)[1..] == PreparePatches(ctx, m1, rest);
    }
  }

  lemma PreparedCompatible(ctx: Context, m: Memory, es: seq<ElfRela>)
    requires DisjointSlots(ctx, es)
    ensures Compatible(PreparePatches(ctx, m, es))
  {
    var ps := PreparePatches(ctx, m, es);
    forall p, q | p in ps && q in ps ensures p == q || Disjoint(p, q) {
      var i :| 0 <= i < |ps| && ps[i] == p;
      var j :| 0 <= j < |ps| && ps[j] == q;
      if i != j {
        assert WordsApart(Target(ctx, es[i]), Target(ctx, es[j]));
      }
    }
  }

  predicate CanPrepare(ctx: Context, m: Memory, e: ElfRela) {
    (e.Type() == 7 || e.Type() == 37) && Mapped(m, Wrap(ctx.base + e.offset), 8)
  }

  lemma PrepareOneKeeps(ctx: Context, m: Memory, e: ElfRela)
    ensures PrepareOne(ctx, m, e).0.Keys == m.Keys
    ensures PrepareOne(ctx, m, e).1 == Complete <==> CanPrepare(ctx, m, e)
  {
    PerformKeepsDomain(m, Write(Target(ctx, e), PreparedWord(ctx, m, e)));
  }

  /** The lazy pass completes exactly when every entry is a jump slot or an ifunc entry (types 7 and 37)
      with a mapped slot. */
  lemma {:induction false} PrepareCompletes(ctx: Context, m: Memory, es: seq<ElfRela>)
    ensures PrepareAll(ctx, m, es).0.Keys == m.Keys
    ensures PrepareAll(ctx, m, es).1 == Complete <==> forall e :: e in es ==> CanPrepare(ctx, m, e)
    decreases |es|
  {
    if es != [] {
      PrepareOneKeeps(ctx, m, es[0]);
      var m1 := PrepareOne(ctx, m, es[0]).0;
      PrepareCompletes(ctx, m1, es[1..]);
      forall e ensures CanPrepare(ctx, m1, e) <==> CanPrepare(ctx, m, e) {
        SameDomain(m1, m, Wrap(ctx.base + e.offset), 8);
      }
      assert forall e :: e in es <==> e == es[0] || e in es[1..];
    }
  }

  /** Lazy relocation completes exactly when the two other lists do, there is a GOT, every PLT entry can be
      prepared and, if there are any, the two GOT words are mapped and some scope is set. */
  lemma LazyCompletes(env: LazyEnv, m: Memory, r: ElfRelocation, got: Option<Got>)
    ensures LazyStart(env, m, r, got).1 == Complete <==>
            && Run(env.ctx, m, RelativeJobs(r.relative) + Jobs(Dyn, r.dynrel)).1 == Complete
            && got.Some?
            && (forall e :: e in r.pltrel ==> CanPrepare(env.ctx, m, e))
            && (r.pltrel != [] ==> Mapped(m, Wrap(got.value.at + 8), 8) && Mapped(m, Wrap(got.value.at + 16), 8)
                                   && (env.libs.Some? || env.global.Some?))
  {
    var acts := Plans(env.ctx, RelativeJobs(r.relative) + Jobs(Dyn, r.dynrel));
    var m1 := Execute(m, acts).0;
    ExecuteKeepsDomain(m, acts);
    if got.Some? {
      PrepareCompletes(env.ctx, m1, r.pltrel);
      forall e ensures CanPrepare(env.ctx, m1, e) <==> CanPrepare(env.ctx, m, e) {
        SameDomain(m1, m, Wrap(env.ctx.base + e.offset), 8);
      }
      GotCompletes(PrepareAll(env.ctx, m1, r.pltrel).0, m, got.value);
    }
  }

  lemma GotCompletes(n: Memory, m: Memory, got: Got)
    requires n.Keys == m.Keys
    ensures SetGot(n, got).1 == Complete <==> Mapped(m, Wrap(got.at + 8), 8) && Mapped(m, Wrap(got.at + 16), 8)
  {
    var first := Write(GotWord(got, 1), got.dylib);
    PerformKeepsDomain(n, first);
    SameDomain(n, m, Wrap(got.at + 8), 8);
    SameDomain(Perform(n, first).0, m, Wrap(got.at + 16), 8);
  }

  predicate InGot(got: Got, a: nat) {
    InWord(GotWord(got, 1), a) || InWord(GotWord(got, 2), a)
  }

  lemma PreparedOffGot(ctx: Context, m: Memory, es: seq<ElfRela>, got: Got, a: nat)
    requires DisjointSlots(ctx, es) && Prepare(ctx, m, es, got).1 == Complete && !InGot(got, a)
    ensures At(Prepare(ctx, m, es, got).0, a) == At(ApplyAll(m, PreparePatches(ctx, m, es)), a)
  {
    PrepareIsPatches(ctx, m, es);
    if es != [] {
      GotByte(PrepareAll(ctx, m, es).0, got, a);
    }
  }

  /** A byte of a slot in the prepared memory. */
  lemma PreparedByte(ctx: Context, m: Memory, es: seq<ElfRela>, got: Got, i: nat, a: nat)
    requires DisjointSlots(ctx, es) && Prepare(ctx, m, es, got).1 == Complete && !InGot(got, a)
    requires i < |es| && InWord(Target(ctx, es[i]), a)
    ensures At(Prepare(ctx, m, es, got).0, a) == Some(WordBytes(PreparedWord(ctx, m, es[i]))[a - Target(ctx, es[i])])
  {
    var ps := PreparePatches(ctx, m, es);
    var bytes := WordBytes(PreparedWord(ctx, m, es[i]));
    PreparedOffGot(ctx, m, es, got, a);
    assert Compatible(ps) by {
      PreparedCompatible(ctx, m, es);
    }
    assert Store(Target(ctx, es[i]), bytes) in ps by {
      assert ps[i] == WordPatch(Target(ctx, es[i]), PreparedWord(ctx, m, es[i]));
    }
    StoredByte(m, ps, Target(ctx, es[i]), bytes, a);
  }

  /** Outside slots and GOT words the lazy pass changes nothing. */
  lemma PreparedMiss(ctx: Context, m: Memory, es: seq<ElfRela>, got: Got, a: nat)
    requires DisjointSlots(ctx, es) && Prepare(ctx, m, es, got).1 == Complete && !InGot(got, a)
    requires forall e :: e in es ==> !InWord(Target(ctx, e), a)
    ensures At(Prepare(ctx, m, es, got).0, a) == At(m, a)
  {
    var ps := PreparePatches(ctx, m, es);
    PreparedOffGot(ctx, m, es, got, a);
    forall p | p in ps ensures !Covers(p, a) {
      var i :| 0 <= i < |ps| && ps[i] == p;
      assert es[i] in es;
    }
    ApplyAllMiss(m, ps, a);
  }

  lemma GotByte(m: Memory, got: Got, a: nat)
    requires SetGot(m, got).1 == Complete && !InGot(got, a)
    ensures At(SetGot(m, got).0, a) == At(m, a)
  {
    var m1 := Perform(m, Write(GotWord(got, 1), got.dylib)).0;
    assert At(m1, a) == After(At(m, a), CellAt(WordPatch(GotWord(got, 1), got.dylib), a));
    var m2 := Perform(m1, Write(GotWord(got, 2), got.resolver)).0;
    assert At(m2, a) == After(At(m1, a), CellAt(WordPatch(GotWord(got, 2), got.resolver), a));
  }

  // ----- fixups

  lemma SlotsApart(env: LazyEnv, i: nat, j: nat)
    requires DisjointSlots(env.ctx, env.pltrel) && i < |env.pltrel| && j < |env.pltrel| && i != j
    ensures WordsApart(Target(env.ctx, env.pltrel[i]), Target(env.ctx, env.pltrel[j]))
  {
    if i > j {
      assert WordsApart(Target(env.ctx, env.pltrel[j]), Target(env.ctx, env.pltrel[i]));
    }
  }

  lemma FixupCalled(env: LazyEnv, calls: seq<nat>, a: Action)
    ensures a in FixupActions(env, calls) <==> exists i :: i in calls && FixupAction(env, i) == a
  {
    if i :| i in calls && FixupAction(env, i) == a {
      var k :| 0 <= k < |calls| && calls[k] == i;
      assert FixupActions(env, calls)[k] == a;
    }
  }

  /** In a run without failures every call wrote the word of its own slot. */
  lemma FixupsWrite(env: LazyEnv, m: Memory, calls: seq<nat>)
    requires Fixups(env, m, calls).1 == Complete
    ensures forall i :: i in calls ==> FixupAction(env, i).Write?
  {
    CompleteIff(m, FixupActions(env, calls));
    forall i | i in calls ensures FixupAction(env, i).Write? {
      FixupCalled(env, calls, FixupAction(env, i));
      assert Goes(m, FixupAction(env, i));
    }
  }

  lemma FixupsIndependent(env: LazyEnv, m: Memory, calls: seq<nat>)
    requires DisjointSlots(env.ctx, env.pltrel) && Fixups(env, m, calls).1 == Complete
    ensures Independent(FixupActions(env, calls))
  {
    var acts := FixupActions(env, calls);
    FixupsWrite(env, m, calls);
    forall a | a in acts ensures a.Write? {
      FixupCalled(env, calls, a);
    }
    forall a, b | a in acts && b in acts && a.Write? && b.Write? ensures a == b || WordsApart(a.addr, b.addr) {
      FixupCalled(env, calls, a);
      FixupCalled(env, calls, b);
      var i :| i in calls && FixupAction(env, i) == a;
      var j :| j in calls && FixupAction(env, j) == b;
      if i != j {
        SlotsApart(env, i, j);
      }
    }
    WritesIndependent(acts);
  }

  lemma BoundByte(env: LazyEnv, m: Memory, calls: seq<nat>, i: nat, a: nat)
    requires DisjointSlots(env.ctx, env.pltrel) && Fixups(env, m, calls).1 == Complete
    requires i in calls && i < |env.pltrel| && InWord(Target(env.ctx, env.pltrel[i]), a)
    ensures FixupAction(env, i).Write?
    ensures At(Fixups(env, m, calls).0, a) == Some(WordBytes(FixupAction(env, i).val)[a - Target(env.ctx, env.pltrel[i])])
  {
    FixupsWrite(env, m, calls);
    FixupsIndependent(env, m, calls);
    FixupCalled(env, calls, FixupAction(env, i));
    TargetByte(m, FixupActions(env, calls), FixupAction(env, i).addr, FixupAction(env, i).val, a);
  }

  lemma UnboundByte(env: LazyEnv, m: Memory, calls: seq<nat>, i: nat, a: nat)
    requires DisjointSlots(env.ctx, env.pltrel) && Fixups(env, m, calls).1 == Complete
    requires i !in calls && i < |env.pltrel| && InWord(Target(env.ctx, env.pltrel[i]), a)
    ensures At(Fixups(env, m, calls).0, a) == At(m, a)
  {
    FixupsWrite(env, m, calls);
    forall act | act in FixupActions(env, calls) ensures !Touches(act, a) {
      FixupCalled(env, calls, act);
      var j :| j in calls && FixupAction(env, j) == act;
      SlotsApart(env, i, j);
    }
    OtherBytes(m, FixupActions(env, calls), a);
  }

  lemma FixupMiss(env: LazyEnv, m: Memory, calls: seq<nat>, a: nat)
    requires Fixups(env, m, calls).1 == Complete
    requires forall e :: e in env.pltrel ==> !InWord(Target(env.ctx, e), a)
    ensures At(Fixups(env, m, calls).0, a) == At(m, a)
  {
    FixupsWrite(env, m, calls);
    forall act | act in FixupActions(env, calls) ensures !Touches(act, a) {
      FixupCalled(env, calls, act);
      var j :| j in calls && FixupAction(env, j) == act;
      assert env.pltrel[j] in env.pltrel;
    }
    OtherBytes(m, FixupActions(env, calls), a);
  }

  // ----- the protocol

  /** Memory after the lazy pass and a run of fixups. */
  function LazyMemory(env: LazyEnv, m: Memory, got: Got, calls: seq<nat>): Memory {
    Fixups(env, Prepare(env.ctx, m, env.pltrel, got).0, calls).0
  }

  /** A run in which nothing failed, over slots that do not overlap. */
  ghost predicate GoodRun(env: LazyEnv, m: Memory, got: Got, calls: seq<nat>) {
    && DisjointSlots(env.ctx, env.pltrel) && ApartFromGot(env.ctx, env.pltrel, got)
    && Prepare(env.ctx, m, env.pltrel, got).1 == Complete
    && Fixups(env, Prepare(env.ctx, m, env.pltrel, got).0, calls).1 == Complete
  }

  /** Lazy and eager binding agree on the symbol of every jump slot. */
  ghost predicate AgreeingSlots(env: LazyEnv) {
    forall e :: e in env.pltrel && e.Type() == REL_JUMP_SLOT && SymbolIdx(env.ctx.symtab, e.Symbol()).Some?
                ==> Agrees(env, e.Symbol())
  }

  /** No fixup touches the two GOT words: they stay as the lazy pass has set them, over every run. */
  lemma GotStaysSet(env: LazyEnv, m: Memory, got: Got, calls: seq<nat>)
    requires GoodRun(env, m, got, calls) && env.pltrel != []
    ensures GotIsSet(LazyMemory(env, m, got, calls), got)
  {
    var m1 := Prepare(env.ctx, m, env.pltrel, got).0;
    SetGotSets(PrepareAll(env.ctx, m, env.pltrel).0, got);
    forall a: nat | InGot(got, a) ensures At(LazyMemory(env, m, got, calls), a) == At(m1, a) {
      forall e | e in env.pltrel ensures !InWord(Target(env.ctx, e), a) {
        assert WordsApart(Target(env.ctx, e), GotWord(got, 1)) && WordsApart(Target(env.ctx, e), GotWord(got, 2));
      }
      FixupMiss(env, m1, calls, a);
    }
    SameGot(m1, LazyMemory(env, m, got, calls), got);
  }

  lemma FixupAddress(env: LazyEnv, i: nat)
    requires FixupAction(env, i).Write?
    ensures i < |env.pltrel| && env.pltrel[i].Type() == REL_JUMP_SLOT
    ensures FixupAction(env, i).addr == Target(env.ctx, env.pltrel[i])
  {
  }

  lemma UnboundWord(ctx: Context, m: Memory, e: ElfRela)
    requires e.Type() == REL_JUMP_SLOT && Mapped(m, Target(ctx, e), 8)
    ensures PreparedWord(ctx, m, e) == Wrap(ReadWord(m, Target(ctx, e)) + ctx.base)
  {
  }

  /** The value a bound slot holds is the one eager binding writes there, exactly when the two agree. */
  lemma FixupIsEager(env: LazyEnv, i: nat)
    requires FixupAction(env, i).Write?
    ensures i < |env.pltrel| && env.pltrel[i].Type() == REL_JUMP_SLOT && SymbolIdx(env.ctx.symtab, env.pltrel[i].Symbol()).Some?
    ensures Plan(EagerContext(env), Job(Plt, env.pltrel[i])) == FixupAction(env, i) <==> Agrees(env, env.pltrel[i].Symbol())
  {
    LazyValueIsEager(env, env.pltrel[i].Symbol());
  }

  /** The word slot i holds after the calls. */
  function FinalWord(env: LazyEnv, m: Memory, calls: seq<nat>, i: nat): Word
    requires i < |env.pltrel| && (i in calls ==> FixupAction(env, i).Write?)
  {
    if i in calls then FixupAction(env, i).val else PreparedWord(env.ctx, m, env.pltrel[i])
  }

  /** A byte of a slot after a run: of the fixup's value, or of the prepared word. */
  lemma SlotByte(env: LazyEnv, m: Memory, got: Got, calls: seq<nat>, i: nat, a: nat)
    requires GoodRun(env, m, got, calls)
    requires i < |env.pltrel| && InWord(Target(env.ctx, env.pltrel[i]), a)
    ensures i in calls ==> FixupAction(env, i).Write?
    ensures At(LazyMemory(env, m, got, calls), a)
            == Some(WordBytes(FinalWord(env, m, calls, i))[a - Target(env.ctx, env.pltrel[i])])
  {
    var m1 := Prepare(env.ctx, m, env.pltrel, got).0;
    if i in calls {
      BoundByte(env, m1, calls, i, a);
    } else {
      assert env.pltrel[i] in env.pltrel;
      UnboundByte(env, m1, calls, i, a);
      PreparedByte(env.ctx, m, env.pltrel, got, i, a);
    }
  }

  lemma SlotHolds(env: LazyEnv, m: Memory, got: Got, calls: seq<nat>, i: nat)
    requires GoodRun(env, m, got, calls) && i < |env.pltrel|
    ensures Mapped(LazyMemory(env, m, got, calls), Target(env.ctx, env.pltrel[i]), 8)
    ensures i in calls ==> FixupAction(env, i).Write?
    ensures ReadWord(LazyMemory(env, m, got, calls), Target(env.ctx, env.pltrel[i]))
            == FinalWord(env, m, calls, i)
  {
    var addr := Target(env.ctx, env.pltrel[i]);
    SlotByte(env, m, got, calls, i, addr);
    var w := FinalWord(env, m, calls, i);
    forall a: nat | addr <= a < addr + 8 ensures At(LazyMemory(env, m, got, calls), a) == Some(WordBytes(w)[a - addr]) {
      SlotByte(env, m, got, calls, i, a);
    }
    WordFromBytes(LazyMemory(env, m, got, calls), addr, w);
  }

  lemma PreparedFacts(env: LazyEnv, m: Memory, got: Got, i: nat)
    requires DisjointSlots(env.ctx, env.pltrel) && Prepare(env.ctx, m, env.pltrel, got).1 == Complete
    requires i < |env.pltrel|
    ensures Mapped(m, Target(env.ctx, env.pltrel[i]), 8)
    ensures env.pltrel[i].Type() == REL_JUMP_SLOT || env.pltrel[i].Type() == REL_IRELATIVE
  {
    PrepareIsPatches(env.ctx, m, env.pltrel);
    assert env.pltrel[i] in env.pltrel;
  }

  /** At every point of every run, each jump slot holds its link-time word plus the base while it is
      unbound; from its first fixup on it holds the word that eager binding would have written, if and
      only if lazy and eager binding agree on its symbol. */
  lemma SlotWord(env: LazyEnv, m: Memory, got: Got, calls: seq<nat>, i: nat)
    requires GoodRun(env, m, got, calls)
    requires i < |env.pltrel| && env.pltrel[i].Type() == REL_JUMP_SLOT
    ensures var addr := Target(env.ctx, env.pltrel[i]);
            && Mapped(m, addr, 8) && Mapped(LazyMemory(env, m, got, calls), addr, 8)
            && (i !in calls ==> ReadWord(LazyMemory(env, m, got, calls), addr) == Wrap(ReadWord(m, addr) + env.ctx.base))
            && (i in calls ==>
                  && SymbolIdx(env.ctx.symtab, env.pltrel[i].Symbol()).Some?
                  && (Plan(EagerContext(env), Job(Plt, env.pltrel[i])) == Write(addr, ReadWord(LazyMemory(env, m, got, calls), addr))
                      <==> Agrees(env, env.pltrel[i].Symbol())))
  {
    PreparedFacts(env, m, got, i);
    SlotHolds(env, m, got, calls, i);
    if i in calls {
      FixupAddress(env, i);
      FixupIsEager(env, i);
      assert FixupAction(env, i) == Write(Target(env.ctx, env.pltrel[i]), FixupAction(env, i).val);
    } else {
      UnboundWord(env.ctx, m, env.pltrel[i]);
    }
  }

  /** A bound slot never changes while the scopes stay fixed. */
  lemma BoundStaysBound(env: LazyEnv, m: Memory, got: Got, calls: seq<nat>, more: seq<nat>, i: nat)
    requires GoodRun(env, m, got, calls) && GoodRun(env, m, got, calls + more)
    requires i in calls
    ensures i < |env.pltrel|
    ensures var addr := Target(env.ctx, env.pltrel[i]);
            && Mapped(LazyMemory(env, m, got, calls), addr, 8) && Mapped(LazyMemory(env, m, got, calls + more), addr, 8)
            && ReadWord(LazyMemory(env, m, got, calls + more), addr) == ReadWord(LazyMemory(env, m, got, calls), addr)
  {
    FixupsWrite(env, Prepare(env.ctx, m, env.pltrel, got).0, calls);
    FixupAddress(env, i);
    SlotHolds(env, m, got, calls, i);
    SlotHolds(env, m, got, calls + more, i);
  }

  ghost predicate AllBound(env: LazyEnv, calls: seq<nat>) {
    forall i: nat :: i < |env.pltrel| && env.pltrel[i].Type() == REL_JUMP_SLOT ==> i in calls
  }

  /** What eager binding asks of an entry that a finished lazy run has dealt with. */
  lemma EagerPlanOf(env: LazyEnv, m: Memory, got: Got, calls: seq<nat>, i: nat)
    requires GoodRun(env, m, got, calls) && AgreeingSlots(env) && AllBound(env, calls)
    requires i < |env.pltrel|
    ensures var e := env.pltrel[i];
            var a := EagerActions(env)[i];
            && a.Write? && a.addr == Target(env.ctx, e) && Mapped(m, a.addr, 8)
            && (if e.Type() == REL_JUMP_SLOT then a == FixupAction(env, i) else a.val == PreparedWord(env.ctx, m, e))
  {
    PreparedFacts(env, m, got, i);
    assert EagerActions(env)[i] == Plan(EagerContext(env), Job(Plt, env.pltrel[i]));
    if env.pltrel[i].Type() == REL_JUMP_SLOT {
      FixupsWrite(env, Prepare(env.ctx, m, env.pltrel, got).0, calls);
      FixupAddress(env, i);
      FixupIsEager(env, i);
    } else {
      EagerIrelative(env, m, env.pltrel[i]);
    }
  }

  lemma EagerIrelative(env: LazyEnv, m: Memory, e: ElfRela)
    requires e.Type() == REL_IRELATIVE
    ensures Plan(EagerContext(env), Job(Plt, e)) == Write(Target(env.ctx, e), PreparedWord(env.ctx, m, e))
  {
  }

  function EagerActions(env: LazyEnv): seq<Action> {
    Plans(EagerContext(env), Jobs(Plt, env.pltrel))
  }

  /** Eager actions that write the slots, each its own, are independent. */
  lemma EagerIndependent(env: LazyEnv)
    requires DisjointSlots(env.ctx, env.pltrel)
    requires forall i :: 0 <= i < |EagerActions(env)| ==>
               EagerActions(env)[i].Write? && EagerActions(env)[i].addr == Target(env.ctx, env.pltrel[i])
    ensures Independent(EagerActions(env))
  {
    var acts := EagerActions(env);
    forall a, b | a in acts && b in acts ensures !a.Copy? && (a == b || WordsApart(a.addr, b.addr)) {
      var i :| 0 <= i < |acts| && acts[i] == a;
      var j :| 0 <= j < |acts| && acts[j] == b;
      if i != j {
        SlotsApart(env, i, j);
      }
    }
    WritesIndependent(acts);
  }

  lemma EagerCompletes(env: LazyEnv, m: Memory, got: Got, calls: seq<nat>)
    requires GoodRun(env, m, got, calls) && AgreeingSlots(env) && AllBound(env, calls)
    ensures Run(EagerContext(env), m, Jobs(Plt, env.pltrel)).1 == Complete
    ensures Independent(EagerActions(env))
  {
    var acts := EagerActions(env);
    forall i | 0 <= i < |acts| ensures acts[i].Write? && acts[i].addr == Target(env.ctx, env.pltrel[i]) && Goes(m, acts[i]) {
      EagerPlanOf(env, m, got, calls, i);
    }
    EagerIndependent(env);
    CompleteIff(m, acts);
  }

  lemma EagerByte(env: LazyEnv, m: Memory, act: Action, a: nat)
    requires Run(EagerContext(env), m, Jobs(Plt, env.pltrel)).1 == Complete && Independent(EagerActions(env))
    requires act in EagerActions(env) && act.Write? && InWord(act.addr, a)
    ensures At(Run(EagerContext(env), m, Jobs(Plt, env.pltrel)).0, a) == Some(WordBytes(act.val)[a - act.addr])
  {
    TargetByte(m, EagerActions(env), act.addr, act.val, a);
  }

  lemma FinalWordIsEager(env: LazyEnv, m: Memory, got: Got, calls: seq<nat>, i: nat)
    requires GoodRun(env, m, got, calls) && AgreeingSlots(env) && AllBound(env, calls)
    requires i < |env.pltrel|
    ensures i in calls ==> FixupAction(env, i).Write?
    ensures EagerActions(env)[i] == Write(Target(env.ctx, env.pltrel[i]), FinalWord(env, m, calls, i))
  {
    EagerPlanOf(env, m, got, calls, i);
    FixupsWrite(env, Prepare(env.ctx, m, env.pltrel, got).0, calls);
    if i in calls {
      FixupAddress(env, i);
    }
  }

  lemma SlotEndsEager(env: LazyEnv, m: Memory, got: Got, calls: seq<nat>, i: nat, a: nat)
    requires GoodRun(env, m, got, calls) && AgreeingSlots(env) && AllBound(env, calls)
    requires i < |env.pltrel| && InWord(Target(env.ctx, env.pltrel[i]), a)
    ensures At(LazyMemory(env, m, got, calls), a) == At(Run(EagerContext(env), m, Jobs(Plt, env.pltrel)).0, a)
  {
    FinalWordIsEager(env, m, got, calls, i);
    var act := EagerActions(env)[i];
    assert act in EagerActions(env);
    EagerCompletes(env, m, got, calls);
    EagerByte(env, m, act, a);
    SlotByte(env, m, got, calls, i, a);
  }

  lemma EagerMiss(env: LazyEnv, m: Memory, got: Got, calls: seq<nat>, a: nat)
    requires GoodRun(env, m, got, calls) && AgreeingSlots(env) && AllBound(env, calls)
    requires forall e :: e in env.pltrel ==> !InWord(Target(env.ctx, e), a)
    ensures At(Run(EagerContext(env), m, Jobs(Plt, env.pltrel)).0, a) == At(m, a)
  {
    var acts := EagerActions(env);
    EagerCompletes(env, m, got, calls);
    forall act | act in acts ensures !Touches(act, a) {
      var i :| 0 <= i < |acts| && acts[i] == act;
      EagerPlanOf(env, m, got, calls, i);
      assert env.pltrel[i] in env.pltrel;
    }
    OtherBytes(m, acts, a);
  }

  lemma OffSlotEndsEager(env: LazyEnv, m: Memory, got: Got, calls: seq<nat>, a: nat)
    requires GoodRun(env, m, got, calls) && AgreeingSlots(env) && AllBound(env, calls)
    requires !InGot(got, a) && forall e :: e in env.pltrel ==> !InWord(Target(env.ctx, e), a)
    ensures At(LazyMemory(env, m, got, calls), a) == At(Run(EagerContext(env), m, Jobs(Plt, env.pltrel)).0, a)
  {
    EagerMiss(env, m, got, calls, a);
    PreparedMiss(env.ctx, m, env.pltrel, got, a);
    FixupMiss(env, Prepare(env.ctx, m, env.pltrel, got).0, calls, a);
  }

  lemma LazyEndsEagerAt(env: LazyEnv, m: Memory, got: Got, calls: seq<nat>, a: nat)
    requires GoodRun(env, m, got, calls) && AgreeingSlots(env) && AllBound(env, calls)
    requires !InGot(got, a)
    ensures At(LazyMemory(env, m, got, calls), a) == At(Run(EagerContext(env), m, Jobs(Plt, env.pltrel)).0, a)
  {
    if i: nat :| i < |env.pltrel| && InWord(Target(env.ctx, env.pltrel[i]), a) {
      SlotEndsEager(env, m, got, calls, i, a);
    } else {
      OffSlotEndsEager(env, m, got, calls, a);
    }
  }

  /** A completed eager run writes every slot, if the handler takes nothing. */
  lemma EagerWrites(env: LazyEnv, m: Memory, i: nat)
    requires forall e :: !env.ctx.accepts(e)
    requires Run(EagerContext(env), m, Jobs(Plt, env.pltrel)).1 == Complete && i < |env.pltrel|
    ensures EagerActions(env)[i].Write? && EagerActions(env)[i].addr == Target(env.ctx, env.pltrel[i])
  {
    var ctx := EagerContext(env);
    EachGoes(m, EagerActions(env), i);
    EagerActionAt(env, i);
    assert ctx.accepts == env.ctx.accepts && ctx.base == env.ctx.base;
    PltGoes(ctx, m, env.pltrel[i]);
  }

  lemma EagerActionAt(env: LazyEnv, i: nat)
    requires i < |env.pltrel|
    ensures EagerActions(env)[i] == Plan(EagerContext(env), Job(Plt, env.pltrel[i]))
  {
  }

  lemma PltGoes(ctx: Context, m: Memory, e: ElfRela)
    requires !ctx.accepts(e) && Goes(m, Plan(ctx, Job(Plt, e)))
    ensures Plan(ctx, Job(Plt, e)).Write? && Plan(ctx, Job(Plt, e)).addr == Target(ctx, e)
  {
    assert !Goes(m, Reject) && !Goes(m, Panic);
  }

  lemma EagerWord(env: LazyEnv, m: Memory, i: nat)
    requires DisjointSlots(env.ctx, env.pltrel) && forall e :: !env.ctx.accepts(e)
    requires Run(EagerContext(env), m, Jobs(Plt, env.pltrel)).1 == Complete && i < |env.pltrel|
    ensures var n := Run(EagerContext(env), m, Jobs(Plt, env.pltrel)).0; var addr := Target(env.ctx, env.pltrel[i]);
            Mapped(n, addr, 8) && EagerActions(env)[i] == Write(addr, ReadWord(n, addr))
  {
    forall j | 0 <= j < |EagerActions(env)|
      ensures EagerActions(env)[j].Write? && EagerActions(env)[j].addr == Target(env.ctx, env.pltrel[j])
    {
      EagerWrites(env, m, j);
    }
    EagerIndependent(env);
    var act := EagerActions(env)[i];
    assert act in EagerActions(env);
    TargetWord(m, EagerActions(env), act.addr, act.val);
  }

  lemma SameWord(m: Memory, n: Memory, addr: Word)
    requires Mapped(m, addr, 8) && Mapped(n, addr, 8)
    requires forall a: nat :: addr <= a < addr + 8 ==> At(m, a) == At(n, a)
    ensures ReadWord(m, addr) == ReadWord(n, addr)
  {
    forall k | 0 <= k < 8 ensures ReadBytes(m, addr, 8)[k] == ReadBytes(n, addr, 8)[k] {
      assert At(m, addr + k) == At(n, addr + k);
    }
    assert ReadBytes(m, addr, 8) == ReadBytes(n, addr, 8);
  }

  /** If memory ends as eager binding leaves it, then lazy and eager binding agree on the slot. */
  lemma EndsEagerThenAgrees(env: LazyEnv, m: Memory, got: Got, calls: seq<nat>, i: nat)
    requires GoodRun(env, m, got, calls) && i in calls && forall e :: !env.ctx.accepts(e)
    requires SameAsEager(env, m, got, calls)
    ensures i < |env.pltrel| && SymbolIdx(env.ctx.symtab, env.pltrel[i].Symbol()).Some? && Agrees(env, env.pltrel[i].Symbol())
  {
    FixupsWrite(env, Prepare(env.ctx, m, env.pltrel, got).0, calls);
    FixupAddress(env, i);
    SlotWord(env, m, got, calls, i);
    EagerWord(env, m, i);
    var addr := Target(env.ctx, env.pltrel[i]);
    assert env.pltrel[i] in env.pltrel;
    forall a: nat | addr <= a < addr + 8 ensures !InGot(got, a) {
    }
    SameWord(LazyMemory(env, m, got, calls), Run(EagerContext(env), m, Jobs(Plt, env.pltrel)).0, addr);
  }

  /** Memory is what eager binding of the PLT leaves, except for GOT words 1 and 2. */
  ghost predicate SameAsEager(env: LazyEnv, m: Memory, got: Got, calls: seq<nat>) {
    && Run(EagerContext(env), m, Jobs(Plt, env.pltrel)).1 == Complete
    && forall a: nat :: !InGot(got, a) ==> At(LazyMemory(env, m, got, calls), a) == At(Run(EagerContext(env), m, Jobs(Plt, env.pltrel)).0, a)
  }

  /** Once every jump slot is bound, in whatever order and however often, lazy binding has ended where
      eager binding ends if and only if the two agree on the symbol of every slot. */
  lemma LazyEndsEager(env: LazyEnv, m: Memory, got: Got, calls: seq<nat>)
    requires GoodRun(env, m, got, calls) && AllBound(env, calls) && forall e :: !env.ctx.accepts(e)
    ensures SameAsEager(env, m, got, calls) <==> AgreeingSlots(env)
  {
    if AgreeingSlots(env) {
      EagerCompletes(env, m, got, calls);
      forall a: nat | !InGot(got, a)
        ensures At(LazyMemory(env, m, got, calls), a) == At(Run(EagerContext(env), m, Jobs(Plt, env.pltrel)).0, a)
      {
        LazyEndsEagerAt(env, m, got, calls, a);
      }
    } else if SameAsEager(env, m, got, calls) {
      forall e | e in env.pltrel && e.Type() == REL_JUMP_SLOT ensures SymbolIdx(env.ctx.symtab, e.Symbol()).Some? && Agrees(env, e.Symbol()) {
        var i :| 0 <= i < |env.pltrel| && env.pltrel[i] == e;
        EndsEagerThenAgrees(env, m, got, calls, i);
      }
    }
  }

  /** The whole object: after lazy relocation and enough fixups, memory is what relocating it eagerly
      leaves, with the global scope asked first for the PLT entries, except for GOT words 1 and 2, if and
      only if lazy and eager binding agree on the symbol of every slot; those two words hold the component
      and the resolver. */
  lemma LazyObjectEndsEager(env: LazyEnv, m: Memory, r: ElfRelocation, got: Got, calls: seq<nat>)
    requires env.pltrel == r.pltrel && AllBound(env, calls) && forall e :: !env.ctx.accepts(e)
    requires DisjointSlots(env.ctx, env.pltrel) && ApartFromGot(env.ctx, env.pltrel, got)
    requires LazyStart(env, m, r, Some(got)).1 == Complete
    requires Fixups(env, LazyStart(env, m, r, Some(got)).0, calls).1 == Complete
    ensures var front := Run(env.ctx, m, RelativeJobs(r.relative) + Jobs(Dyn, r.dynrel));
            var eager := Run(EagerContext(env), front.0, Jobs(Plt, r.pltrel));
            var lazy := Fixups(env, LazyStart(env, m, r, Some(got)).0, calls).0;
            && front.1 == Complete
            && (eager.1 == Complete && (forall a: nat :: !InGot(got, a) ==> At(lazy, a) == At(eager.0, a)) <==> AgreeingSlots(env))
            && (env.global.None? ==> eager == Run(env.ctx, m, EagerJobs(r)))
            && (r.pltrel != [] ==> GotIsSet(lazy, got))
  {
    var m1 := Run(env.ctx, m, RelativeJobs(r.relative) + Jobs(Dyn, r.dynrel)).0;
    assert GoodRun(env, m1, got, calls);
    LazyEndsEager(env, m1, got, calls);
    if r.pltrel != [] {
      GotStaysSet(env, m1, got, calls);
    }
    RunConcat(env.ctx, m, RelativeJobs(r.relative) + Jobs(Dyn, r.dynrel), Jobs(Plt, r.pltrel));
  }
}
