/** What relocation leaves in memory, when it fails, and how it depends on the scope. */
module RelocationResults {
  import opened Words
  import opened Memories
  import opened ElfHash
  import opened Symbols
  import opened Actions
  import opened Relocation

  // ----- resolution, without the search

  ghost predicate Passes(h: Helper, info: SymbolInfo) {
    LookupFilter(h.symtab, info) == Absent
  }

  ghost predicate Offers(h: Helper, info: SymbolInfo) {
    LookupFilter(h.symtab, info).Found?
  }

  function Offered(h: Helper, info: SymbolInfo): SymDef
    requires Offers(h, info)
  {
    SymDef(Some(h.symtab.symtab[LookupFilter(h.symtab, info).idx]), h.base)
  }

  ghost predicate AllPass(scope: seq<Helper>, info: SymbolInfo) {
    forall h :: h in scope ==> Passes(h, info)
  }

  ghost predicate FirstOffer(scope: seq<Helper>, info: SymbolInfo, j: nat) {
    j < |scope| && Offers(scope[j], info) && AllPass(scope[..j], info)
  }

  lemma {:induction false} UnboundExact(scope: seq<Helper>, info: SymbolInfo)
    ensures FindInScope(scope, info) == Unbound <==> AllPass(scope, info)
  {
    if scope != [] {
      UnboundExact(scope[1..], info);
      assert scope[0] in scope;
      assert forall h :: h in scope <==> h == scope[0] || h in scope[1..];
    }
  }

  lemma {:induction false} FirstOfferBinds(scope: seq<Helper>, info: SymbolInfo, j: nat)
    requires FirstOffer(scope, info, j)
    ensures FindInScope(scope, info) == Bound(Offered(scope[j], info))
  {
    if j > 0 {
      assert scope[0] == scope[..j][0] && Passes(scope[0], info);
      assert scope[1..][..j - 1] == scope[..j][1..];
      FirstOfferBinds(scope[1..], info, j - 1);
    }
  }

  lemma {:induction false} BoundHasOffer(scope: seq<Helper>, info: SymbolInfo) returns (j: nat)
    requires FindInScope(scope, info).Bound?
    ensures FirstOffer(scope, info, j)
  {
    if Offers(scope[0], info) {
      j := 0;
    } else {
      var i := BoundHasOffer(scope[1..], info);
      j := i + 1;
      assert scope[..j] == [scope[0]] + scope[1..][..i];
    }
  }

  /** The search of the scope stops at the first library that does not pass, and binds to what that
      library offers. */
  lemma FindInScopeExact(scope: seq<Helper>, info: SymbolInfo)
    ensures FindInScope(scope, info) == Unbound <==> AllPass(scope, info)
    ensures forall j: nat :: FirstOffer(scope, info, j) ==> FindInScope(scope, info) == Bound(Offered(scope[j], info))
    ensures FindInScope(scope, info).Bound? ==> exists j: nat :: FirstOffer(scope, info, j)
  {
    UnboundExact(scope, info);
    forall j: nat | FirstOffer(scope, info, j) ensures FindInScope(scope, info) == Bound(Offered(scope[j], info)) {
      FirstOfferBinds(scope, info, j);
    }
    if FindInScope(scope, info).Bound? {
      var j := BoundHasOffer(scope, info);
    }
  }

  lemma {:induction false} FindInScopeConcat(scope: seq<Helper>, extra: seq<Helper>, info: SymbolInfo)
    ensures FindInScope(scope + extra, info)
            == if FindInScope(scope, info) == Unbound then FindInScope(extra, info) else FindInScope(scope, info)
  {
    if scope == [] {
      assert scope + extra == extra;
    } else {
      assert (scope + extra)[1..] == scope[1..] + extra;
      FindInScopeConcat(scope[1..], extra, info);
    }
  }

  /** d is the definition that an entry's symbol binds to within the object and its scope. */
  ghost predicate Defines(ctx: Context, idx: nat, d: SymDef) {
    && SymbolIdx(ctx.symtab, idx).Some?
    && var (sym, info) := SymbolIdx(ctx.symtab, idx).value;
       || (sym.IsLocal() && d == SymDef(Some(sym), ctx.base))
       || (!sym.IsLocal() && exists j: nat :: FirstOffer(ctx.scope, info, j) && d == Offered(ctx.scope[j], info))
       || (!sym.IsLocal() && AllPass(ctx.scope, info) && sym.IsWeak() && sym.IsUndef() && sym.value == 0
           && d == SymDef(None, ctx.base))
  }

  /** s is the run-time value of an entry's symbol: the finder's answer, or the address of its definition. */
  ghost predicate Denotes(ctx: Context, idx: nat, s: Word) {
    && SymbolIdx(ctx.symtab, idx).Some?
    && var (sym, info) := SymbolIdx(ctx.symtab, idx).value;
       || ctx.preFind(info.name) == Some(s)
       || (ctx.preFind(info.name) == None && exists d :: Defines(ctx, idx, d) && s == Convert(ctx.ifunc, d))
  }

  lemma DefineExact(ctx: Context, idx: nat, d: SymDef)
    ensures Define(ctx, idx) == Bound(d) <==> Defines(ctx, idx, d)
  {
    if SymbolIdx(ctx.symtab, idx).Some? {
      var (sym, info) := SymbolIdx(ctx.symtab, idx).value;
      FindInScopeExact(ctx.scope, info);
    }
  }

  lemma ResolveExact(ctx: Context, idx: nat, s: Word)
    ensures Resolve(ctx, idx) == Value(s) <==> Denotes(ctx, idx, s)
  {
    match Define(ctx, idx)
    case Bound(d) =>
      DefineExact(ctx, idx, d);
      forall e | Defines(ctx, idx, e) ensures e == d {
        DefineExact(ctx, idx, e);
      }
    case _ =>
      forall e ensures !Defines(ctx, idx, e) {
        DefineExact(ctx, idx, e);
      }
  }

  // ----- values

  // Relocation types of the System V AMD64 psABI, section 4.4.1.
  const R_X86_64_NONE: nat := 0
  const R_X86_64_64: nat := 1
  const R_X86_64_COPY: nat := 5
  const R_X86_64_GLOB_DAT: nat := 6
  const R_X86_64_JUMP_SLOT: nat := 7
  const R_X86_64_RELATIVE: nat := 8
  const R_X86_64_DTPOFF64: nat := 17
  const R_X86_64_IRELATIVE: nat := 37

  /** r_info packs the symbol above the 32 bits of the type. */
  lemma InfoSplits(offset: Word, sym: nat, kind: nat, addend: Word)
    requires sym < 0x1_0000_0000 && kind < 0x1_0000_0000
    ensures sym * 0x1_0000_0000 + kind < WORD_SPAN
    ensures ElfRela(offset, sym * 0x1_0000_0000 + kind, addend).Type() == kind
    ensures ElfRela(offset, sym * 0x1_0000_0000 + kind, addend).Symbol() == sym
  {
  }

  /** The address of a definition: null without a symbol, what the resolver at base plus value returns for
      an STT_GNU_IFUNC symbol (type 10), and base plus value otherwise. */
  lemma ConvertExact(ifunc: Word -> Word, d: SymDef)
    ensures d.sym.None? ==> Convert(ifunc, d) == 0
    ensures d.sym.Some? && d.sym.value.info % 16 == 10 ==> Convert(ifunc, d) == ifunc((d.base + d.sym.value.value) % WORD_SPAN)
    ensures d.sym.Some? && d.sym.value.info % 16 != 10 ==> Convert(ifunc, d) == (d.base + d.sym.value.value) % WORD_SPAN
  {
  }

  /** The value that the System V AMD64 psABI (section 4.4.1) assigns to an entry, with B the base,
      A the addend and S the symbol's value. */
  ghost predicate AbiValue(ctx: Context, e: ElfRela, val: Word) {
    var A, B := e.addend, ctx.base;
    if e.Type() == R_X86_64_64 then exists S: Word :: Denotes(ctx, e.Symbol(), S) && val == Wrap(S + A)
    else if e.Type() == R_X86_64_GLOB_DAT || e.Type() == R_X86_64_JUMP_SLOT then Denotes(ctx, e.Symbol(), val)
    else if e.Type() == R_X86_64_RELATIVE then val == Wrap(B + A)
    else if e.Type() == R_X86_64_IRELATIVE then val == ctx.ifunc(Wrap(B + A))
    else if e.Type() == R_X86_64_DTPOFF64 then
      exists d :: Defines(ctx, e.Symbol(), d) && d.sym.Some? && val == Wrap(d.sym.value.value + A)
    else false
  }

  /** The entries that DT_RELACOUNT counts are relative ones. */
  ghost predicate CountedRight(job: Job) {
    job.kind == RelativeRest ==> job.rela.Type() == REL_RELATIVE
  }

  /** Every word written is at base plus offset and has the psABI's value, except that a symbolic
      entry gets S without its addend: it is right exactly when the addend is zero. */
  lemma WrittenValue(ctx: Context, job: Job)
    requires Plan(ctx, job).Write? && CountedRight(job)
    ensures Plan(ctx, job).addr == Wrap(ctx.base + job.rela.offset)
    ensures AbiValue(ctx, job.rela, Plan(ctx, job).val) <==> (job.rela.Type() == REL_SYMBOLIC ==> job.rela.addend == 0)
  {
    var e, val := job.rela, Plan(ctx, job).val;
    ResolveExact(ctx, e.Symbol(), val);
    if e.Type() == REL_SYMBOLIC {
      forall s: Word | Denotes(ctx, e.Symbol(), s) ensures s == val {
        ResolveExact(ctx, e.Symbol(), s);
      }
    } else if e.Type() == REL_DTPOFF {
      var d := Define(ctx, e.Symbol()).def;
      DefineExact(ctx, e.Symbol(), d);
    }
  }

  // ----- failure

  /** Failure is a prefix: a run fails exactly when some entry cannot be processed; memory is then what
      the entries before the first such one leave, and the failure reported is that entry's own. */
  lemma FailureIsPrefix(ctx: Context, m: Memory, jobs: seq<Job>) returns (k: nat)
    ensures k <= |jobs| && forall i :: 0 <= i < k ==> Goes(m, Plan(ctx, jobs[i]))
    ensures k < |jobs| ==> !Goes(m, Plan(ctx, jobs[k]))
    ensures Run(ctx, m, jobs).1 == Complete <==> k == |jobs|
    ensures Run(ctx, m, jobs[..k]).1 == Complete
    ensures k < |jobs| ==> Run(ctx, m, jobs) == (Run(ctx, m, jobs[..k]).0, Perform(m, Plan(ctx, jobs[k])).1)
  {
    k := StopsAtFirst(m, Plans(ctx, jobs));
    assert Plans(ctx, jobs[..k]) == Plans(ctx, jobs)[..k];
  }

  /** No definition and no finder's answer, and not an undefined weak symbol either. */
  ghost predicate Unresolvable(ctx: Context, idx: nat, asksFinder: bool) {
    && SymbolIdx(ctx.symtab, idx).Some?
    && var (sym, info) := SymbolIdx(ctx.symtab, idx).value;
       && (asksFinder ==> ctx.preFind(info.name) == None)
       && !sym.IsLocal() && AllPass(ctx.scope, info) && !(sym.IsWeak() && sym.IsUndef())
  }

  /** The entries that go to the caller's handler: an unresolvable symbol or a type the loop does not know. */
  ghost predicate LeftToHandler(ctx: Context, job: Job) {
    var t := job.rela.Type();
    match job.kind
    case Dyn =>
      || ((t == REL_GOT || t == REL_SYMBOLIC) && Unresolvable(ctx, job.rela.Symbol(), true))
      || ((t == REL_DTPOFF || t == REL_COPY) && Unresolvable(ctx, job.rela.Symbol(), false))
      || t !in {REL_GOT, REL_SYMBOLIC, REL_DTPOFF, REL_COPY, REL_RELATIVE, REL_NONE}
    case Plt =>
      || (t == REL_JUMP_SLOT && Unresolvable(ctx, job.rela.Symbol(), true))
      || t !in {REL_JUMP_SLOT, REL_IRELATIVE}
    case _ => false
  }

  /** An entry is rejected exactly when it is left to a handler that does not take it. */
  lemma RejectExactly(ctx: Context, job: Job)
    ensures Plan(ctx, job) == Reject <==> LeftToHandler(ctx, job) && !ctx.accepts(job.rela)
  {
    if SymbolIdx(ctx.symtab, job.rela.Symbol()).Some? {
      var (sym, info) := SymbolIdx(ctx.symtab, job.rela.Symbol()).value;
      FindInScopeExact(ctx.scope, info);
    }
  }

  // ----- results

  lemma WrittenAddress(ctx: Context, job: Job)
    requires Plan(ctx, job).Write?
    ensures Plan(ctx, job).addr == Target(ctx, job.rela)
  {
  }

  lemma PlanInPlans(ctx: Context, jobs: seq<Job>, a: Action)
    ensures a in Plans(ctx, jobs) <==> exists job :: job in jobs && Plan(ctx, job) == a
  {
    if a in Plans(ctx, jobs) {
      var i :| 0 <= i < |jobs| && Plans(ctx, jobs)[i] == a;
      assert jobs[i] in jobs;
    }
    if job :| job in jobs && Plan(ctx, job) == a {
      var i :| 0 <= i < |jobs| && jobs[i] == job;
      assert Plans(ctx, jobs)[i] == a;
    }
  }

  /** What a copy relocation moves: the bytes of the defining symbol, as many as its size, to base plus
      offset. They are taken from the object itself, at base plus the symbol's value: that is where the
      definition is, exactly when the definition's base is the object's own. */
  lemma CopiedFrom(ctx: Context, job: Job) returns (d: SymDef)
    requires Plan(ctx, job).Copy?
    ensures Defines(ctx, job.rela.Symbol(), d) && d.sym.Some?
    ensures var c := Plan(ctx, job);
            && c.dst == Wrap(ctx.base + job.rela.offset) && c.len == d.sym.value.size
            && c.src == Wrap(ctx.base + d.sym.value.value)
            && (c.src == Wrap(d.base + d.sym.value.value) <==> d.base == ctx.base)
  {
    d := Define(ctx, job.rela.Symbol()).def;
    DefineExact(ctx, job.rela.Symbol(), d);
    WrapInjective(ctx.base, d.base, d.sym.value.value);
  }

  lemma WrapInjective(x: Word, y: Word, n: Word)
    ensures Wrap(x + n) == Wrap(y + n) <==> x == y
  {
    assert Wrap(x + n) == if x + n < WORD_SPAN then x + n else x + n - WORD_SPAN;
    assert Wrap(y + n) == if y + n < WORD_SPAN then y + n else y + n - WORD_SPAN;
  }

  lemma TargetValue(ctx: Context, m: Memory, jobs: seq<Job>, job: Job)
    requires Run(ctx, m, jobs).1 == Complete && Independent(Plans(ctx, jobs))
    requires job in jobs && Plan(ctx, job).Write? && CountedRight(job)
    ensures var n := Run(ctx, m, jobs).0;
            && Mapped(n, Target(ctx, job.rela), 8)
            && (AbiValue(ctx, job.rela, ReadWord(n, Target(ctx, job.rela)))
                <==> (job.rela.Type() == REL_SYMBOLIC ==> job.rela.addend == 0))
  {
    WrittenAddress(ctx, job);
    WrittenValue(ctx, job);
    PlanInPlans(ctx, jobs, Plan(ctx, job));
    TargetWord(m, Plans(ctx, jobs), Plan(ctx, job).addr, Plan(ctx, job).val);
  }

  lemma CopiedValue(ctx: Context, m: Memory, jobs: seq<Job>, job: Job)
    requires Run(ctx, m, jobs).1 == Complete && Independent(Plans(ctx, jobs))
    requires job in jobs && Plan(ctx, job).Copy?
    ensures BytesCopied(m, Run(ctx, m, jobs).0, Plan(ctx, job).src, Plan(ctx, job).dst, Plan(ctx, job).len)
  {
    PlanInPlans(ctx, jobs, Plan(ctx, job));
    CopiedRange(m, Plans(ctx, jobs), Plan(ctx, job));
  }

  lemma UntargetedByte(ctx: Context, m: Memory, jobs: seq<Job>, a: nat)
    requires forall job :: job in jobs ==> !Touches(Plan(ctx, job), a)
    ensures At(Run(ctx, m, jobs).0, a) == At(m, a)
  {
    forall act | act in Plans(ctx, jobs) ensures !Touches(act, a) {
      PlanInPlans(ctx, jobs, act);
    }
    OtherBytes(m, Plans(ctx, jobs), a);
  }

  // ----- results, by the types of the entries

  /** The entry is one that stores a word. */
  predicate StoresWord(job: Job) {
    match job.kind
    case Dyn => job.rela.Type() in {R_X86_64_GLOB_DAT, R_X86_64_64, R_X86_64_DTPOFF64, R_X86_64_RELATIVE}
    case Plt => job.rela.Type() in {R_X86_64_JUMP_SLOT, R_X86_64_IRELATIVE}
    case _ => true
  }

  predicate CopiesRange(job: Job) {
    job.kind == Dyn && job.rela.Type() == R_X86_64_COPY
  }

  /** The address x is one that the entry stores to, by its type and its symbol. */
  ghost predicate Footprint(ctx: Context, job: Job, x: nat) {
    var addr := Wrap(ctx.base + job.rela.offset);
    || (StoresWord(job) && InWord(addr, x))
    || (CopiesRange(job) && exists d :: Defines(ctx, job.rela.Symbol(), d) && d.sym.Some? && addr <= x < addr + d.sym.value.size)
  }

  ghost predicate SourceOf(ctx: Context, job: Job, x: nat) {
    CopiesRange(job) && exists d :: Defines(ctx, job.rela.Symbol(), d) && d.sym.Some?
                                    && Wrap(ctx.base + d.sym.value.value) <= x < Wrap(ctx.base + d.sym.value.value) + d.sym.value.size
  }

  /** Different entries store to different addresses, and none copies from an address that is stored to. */
  ghost predicate Separate(ctx: Context, jobs: seq<Job>) {
    && (forall j, k, x: nat {:trigger Footprint(ctx, j, x), Footprint(ctx, k, x)} ::
          j in jobs && k in jobs && Footprint(ctx, j, x) && Footprint(ctx, k, x) ==> j.rela == k.rela)
    && (forall j, k, x: nat {:trigger SourceOf(ctx, j, x), Footprint(ctx, k, x)} ::
          j in jobs && k in jobs && SourceOf(ctx, j, x) ==> !Footprint(ctx, k, x))
  }

  /** What a processed entry did, by its type, where no handler took it. */
  lemma DoneByType(ctx: Context, m: Memory, job: Job)
    requires Goes(m, Plan(ctx, job)) && !ctx.accepts(job.rela) && CountedRight(job)
    ensures StoresWord(job) ==> Plan(ctx, job).Write?
    ensures CopiesRange(job) ==> Plan(ctx, job).Copy?
    ensures !StoresWord(job) && !CopiesRange(job) ==> Plan(ctx, job).Skip? && job.kind == Dyn && job.rela.Type() == R_X86_64_NONE
    ensures job.kind == RelativeHead || job.kind == RelativeRest ==> job.rela.Type() == R_X86_64_RELATIVE
  {
    assert !Goes(m, Reject) && !Goes(m, Panic);
  }

  lemma DefinitionIsUnique(ctx: Context, idx: nat, d: SymDef, e: SymDef)
    requires Defines(ctx, idx, d) && Defines(ctx, idx, e)
    ensures d == e
  {
    DefineExact(ctx, idx, d);
    DefineExact(ctx, idx, e);
  }

  lemma CopyByType(ctx: Context, job: Job, x: nat)
    requires Plan(ctx, job).Copy? && CopiesRange(job)
    ensures Touches(Plan(ctx, job), x) <==> Footprint(ctx, job, x)
    ensures Reads(Plan(ctx, job), x) <==> SourceOf(ctx, job, x)
  {
    var d := CopiedFrom(ctx, job);
    forall e | Defines(ctx, job.rela.Symbol(), e) ensures e == d {
      DefinitionIsUnique(ctx, job.rela.Symbol(), d, e);
    }
  }

  lemma WriteByType(ctx: Context, job: Job, x: nat)
    requires Plan(ctx, job).Write? && StoresWord(job)
    ensures Touches(Plan(ctx, job), x) <==> Footprint(ctx, job, x)
    ensures Reads(Plan(ctx, job), x) <==> SourceOf(ctx, job, x)
  {
    WrittenAddress(ctx, job);
  }

  lemma TouchesByType(ctx: Context, m: Memory, job: Job, x: nat)
    requires Goes(m, Plan(ctx, job)) && !ctx.accepts(job.rela) && CountedRight(job)
    ensures Touches(Plan(ctx, job), x) <==> Footprint(ctx, job, x)
    ensures Reads(Plan(ctx, job), x) <==> SourceOf(ctx, job, x)
  {
    DoneByType(ctx, m, job);
    if StoresWord(job) {
      WriteByType(ctx, job, x);
    } else if CopiesRange(job) {
      CopyByType(ctx, job, x);
    }
  }

  lemma RelativePlanned(ctx: Context, job: Job)
    requires job.rela.Type() == R_X86_64_RELATIVE && job.kind != Plt
    ensures Plan(ctx, job) == Write(Wrap(ctx.base + job.rela.offset), Wrap(ctx.base + job.rela.addend))
  {
  }

  /** An entry that occurs in two lists does the same in both. */
  lemma SameEntrySamePlan(ctx: Context, m: Memory, j: Job, k: Job)
    requires j.rela == k.rela && !ctx.accepts(j.rela) && CountedRight(j) && CountedRight(k)
    requires Goes(m, Plan(ctx, j)) && Goes(m, Plan(ctx, k))
    requires (StoresWord(j) || CopiesRange(j)) && (StoresWord(k) || CopiesRange(k))
    ensures Plan(ctx, j) == Plan(ctx, k)
  {
    if j.kind != k.kind {
      DoneByType(ctx, m, j);
      DoneByType(ctx, m, k);
      assert j.rela.Type() == R_X86_64_RELATIVE && j.kind != Plt && k.kind != Plt;
      RelativePlanned(ctx, j);
      RelativePlanned(ctx, k);
    }
  }

  ghost predicate Processed(ctx: Context, m: Memory, jobs: seq<Job>) {
    forall job :: job in jobs ==> Goes(m, Plan(ctx, job)) && !ctx.accepts(job.rela) && CountedRight(job)
  }

  lemma SeparateIsIndependent(ctx: Context, m: Memory, jobs: seq<Job>)
    requires Separate(ctx, jobs) && Processed(ctx, m, jobs)
    ensures Independent(Plans(ctx, jobs))
  {
    var acts := Plans(ctx, jobs);
    forall a, b, x: nat {:trigger Touches(a, x), Touches(b, x)} | a in acts && b in acts && Touches(a, x) && Touches(b, x) ensures a == b {
      PlanInPlans(ctx, jobs, a);
      PlanInPlans(ctx, jobs, b);
      var j :| j in jobs && Plan(ctx, j) == a;
      var k :| k in jobs && Plan(ctx, k) == b;
      TouchesByType(ctx, m, j, x);
      TouchesByType(ctx, m, k, x);
      SameEntrySamePlan(ctx, m, j, k);
    }
    forall a, b, x: nat {:trigger Reads(a, x), Touches(b, x)} | a in acts && b in acts && Reads(a, x) ensures !Touches(b, x) {
      PlanInPlans(ctx, jobs, a);
      PlanInPlans(ctx, jobs, b);
      var j :| j in jobs && Plan(ctx, j) == a;
      var k :| k in jobs && Plan(ctx, k) == b;
      TouchesByType(ctx, m, j, x);
      TouchesByType(ctx, m, k, x);
    }
  }

  lemma AllProcessed(ctx: Context, m: Memory, r: ElfRelocation)
    requires Run(ctx, m, EagerJobs(r)).1 == Complete && AllRelative(r.relative) && forall e :: !ctx.accepts(e)
    ensures Processed(ctx, m, EagerJobs(r))
  {
    CompleteIff(m, Plans(ctx, EagerJobs(r)));
    forall job | job in EagerJobs(r) ensures Goes(m, Plan(ctx, job)) && CountedRight(job) {
      PlanInPlans(ctx, EagerJobs(r), Plan(ctx, job));
      EagerJobsAre(r, job);
    }
  }

  /** The word at base plus offset has the psABI's value; for a symbolic entry, exactly when its addend is zero. */
  ghost predicate WordIsRight(ctx: Context, n: Memory, e: ElfRela) {
    var addr := Wrap(ctx.base + e.offset);
    Mapped(n, addr, 8) && (AbiValue(ctx, e, ReadWord(n, addr)) <==> (e.Type() == R_X86_64_64 ==> e.addend == 0))
  }

  /** The range at base plus offset holds what the object held at the defining symbol's value. */
  ghost predicate RangeIsCopied(ctx: Context, m: Memory, n: Memory, e: ElfRela) {
    exists d :: Defines(ctx, e.Symbol(), d) && d.sym.Some?
                && BytesCopied(m, n, Wrap(ctx.base + d.sym.value.value), Wrap(ctx.base + e.offset), d.sym.value.size)
  }

  lemma StoredJob(ctx: Context, m: Memory, jobs: seq<Job>, job: Job)
    requires Run(ctx, m, jobs).1 == Complete && Independent(Plans(ctx, jobs)) && job in jobs
    requires Plan(ctx, job).Write? && CountedRight(job)
    ensures WordIsRight(ctx, Run(ctx, m, jobs).0, job.rela)
  {
    TargetValue(ctx, m, jobs, job);
  }

  lemma CopiedJob(ctx: Context, m: Memory, jobs: seq<Job>, job: Job)
    requires Run(ctx, m, jobs).1 == Complete && Independent(Plans(ctx, jobs)) && job in jobs && Plan(ctx, job).Copy?
    ensures RangeIsCopied(ctx, m, Run(ctx, m, jobs).0, job.rela)
  {
    CopiedValue(ctx, m, jobs, job);
    var d := CopiedFrom(ctx, job);
  }

  lemma JobResult(ctx: Context, m: Memory, jobs: seq<Job>, job: Job)
    requires Run(ctx, m, jobs).1 == Complete && Independent(Plans(ctx, jobs)) && Processed(ctx, m, jobs) && job in jobs
    ensures StoresWord(job) ==> WordIsRight(ctx, Run(ctx, m, jobs).0, job.rela)
    ensures CopiesRange(job) ==> RangeIsCopied(ctx, m, Run(ctx, m, jobs).0, job.rela)
    ensures StoresWord(job) || CopiesRange(job) || (job.kind == Dyn && job.rela.Type() == R_X86_64_NONE)
  {
    DoneByType(ctx, m, job);
    if StoresWord(job) {
      StoredJob(ctx, m, jobs, job);
    } else if CopiesRange(job) {
      CopiedJob(ctx, m, jobs, job);
    }
  }

  lemma UntouchedByte(ctx: Context, m: Memory, jobs: seq<Job>, x: nat)
    requires Processed(ctx, m, jobs) && forall job :: job in jobs ==> !Footprint(ctx, job, x)
    ensures At(Run(ctx, m, jobs).0, x) == At(m, x)
  {
    forall job | job in jobs ensures !Touches(Plan(ctx, job), x) {
      TouchesByType(ctx, m, job, x);
    }
    UntargetedByte(ctx, m, jobs, x);
  }

  /** Relocation result. After a complete eager run with a handler that takes nothing, over entries that
      store apart: every relative entry, every dynamic entry of type GLOB_DAT, 64, DTPOFF64 or RELATIVE and
      every PLT entry of type JUMP_SLOT or IRELATIVE has its psABI value at base plus offset (type 64: if
      and only if its addend is zero), every COPY entry has its bytes, every other dynamic entry is a NONE,
      no other PLT entry exists, and no other byte has changed. */
  lemma EagerResult(ctx: Context, m: Memory, r: ElfRelocation)
    requires Run(ctx, m, EagerJobs(r)).1 == Complete && forall e :: !ctx.accepts(e)
    requires AllRelative(r.relative) && Separate(ctx, EagerJobs(r))
    ensures var n := Run(ctx, m, EagerJobs(r)).0;
            && (forall e :: e in r.relative ==> WordIsRight(ctx, n, e))
            && (forall e :: e in r.dynrel && e.Type() in {R_X86_64_GLOB_DAT, R_X86_64_64, R_X86_64_DTPOFF64, R_X86_64_RELATIVE}
                  ==> WordIsRight(ctx, n, e))
            && (forall e :: e in r.dynrel && e.Type() == R_X86_64_COPY ==> RangeIsCopied(ctx, m, n, e))
            && (forall e :: e in r.dynrel ==> e.Type() in {R_X86_64_GLOB_DAT, R_X86_64_64, R_X86_64_DTPOFF64, R_X86_64_RELATIVE,
                                                           R_X86_64_COPY, R_X86_64_NONE})
            && (forall e :: e in r.pltrel ==> e.Type() in {R_X86_64_JUMP_SLOT, R_X86_64_IRELATIVE} && WordIsRight(ctx, n, e))
            && (forall x: nat :: (forall job :: job in EagerJobs(r) ==> !Footprint(ctx, job, x)) ==> At(n, x) == At(m, x))
  {
    var jobs := EagerJobs(r);
    AllProcessed(ctx, m, r);
    SeparateIsIndependent(ctx, m, jobs);
    forall job | job in jobs
      ensures StoresWord(job) ==> WordIsRight(ctx, Run(ctx, m, jobs).0, job.rela)
      ensures CopiesRange(job) ==> RangeIsCopied(ctx, m, Run(ctx, m, jobs).0, job.rela)
      ensures StoresWord(job) || CopiesRange(job) || (job.kind == Dyn && job.rela.Type() == R_X86_64_NONE)
    {
      JobResult(ctx, m, jobs, job);
    }
    forall e | e in r.relative ensures WordIsRight(ctx, Run(ctx, m, jobs).0, e) {
      var job := RelativeJob(r, e);
    }
    forall e | e in r.dynrel ensures Job(Dyn, e) in jobs {
      EagerJobsAre(r, Job(Dyn, e));
    }
    forall e | e in r.pltrel ensures Job(Plt, e) in jobs {
      EagerJobsAre(r, Job(Plt, e));
    }
    forall x: nat | forall job :: job in jobs ==> !Footprint(ctx, job, x) ensures At(Run(ctx, m, jobs).0, x) == At(m, x) {
      UntouchedByte(ctx, m, jobs, x);
    }
  }

  lemma RelativeJob(r: ElfRelocation, e: ElfRela) returns (job: Job)
    requires e in r.relative
    ensures job in EagerJobs(r) && job.rela == e && StoresWord(job)
  {
    assert r.relative == [r.relative[0]] + r.relative[1..];
    job := Job(if e == r.relative[0] then RelativeHead else RelativeRest, e);
    EagerJobsAre(r, job);
  }

  // ----- which entries can be processed

  /** The symbol resolves, or its entry is left to a handler that takes it. */
  ghost predicate Taken(ctx: Context, job: Job) {
    LeftToHandler(ctx, job) && ctx.accepts(job.rela)
  }

  ghost predicate SlotMapped(ctx: Context, m: Memory, e: ElfRela) {
    Mapped(m, Wrap(ctx.base + e.offset), 8)
  }

  ghost predicate CanCopy(ctx: Context, m: Memory, e: ElfRela) {
    exists d :: Defines(ctx, e.Symbol(), d) && d.sym.Some?
                && Mapped(m, Wrap(ctx.base + d.sym.value.value), d.sym.value.size) && Mapped(m, Wrap(ctx.base + e.offset), d.sym.value.size)
  }

  /** When an entry can be processed, by its type: its word is mapped and what it needs is defined, or the
      handler takes it. */
  ghost predicate CanProcess(ctx: Context, m: Memory, job: Job) {
    var e, t := job.rela, job.rela.Type();
    match job.kind
    case RelativeHead => t == R_X86_64_RELATIVE && SlotMapped(ctx, m, e)
    case RelativeRest => SlotMapped(ctx, m, e)
    case Dyn =>
      || Taken(ctx, job)
      || ((t == R_X86_64_GLOB_DAT || t == R_X86_64_64) && SlotMapped(ctx, m, e) && exists s: Word :: Denotes(ctx, e.Symbol(), s))
      || (t == R_X86_64_DTPOFF64 && SlotMapped(ctx, m, e) && exists d :: Defines(ctx, e.Symbol(), d) && d.sym.Some?)
      || (t == R_X86_64_COPY && CanCopy(ctx, m, e))
      || (t == R_X86_64_RELATIVE && SlotMapped(ctx, m, e))
      || t == R_X86_64_NONE
    case Plt =>
      || Taken(ctx, job)
      || (t == R_X86_64_JUMP_SLOT && SlotMapped(ctx, m, e) && exists s: Word :: Denotes(ctx, e.Symbol(), s))
      || (t == R_X86_64_IRELATIVE && SlotMapped(ctx, m, e))
  }

  lemma ResolvedExactly(ctx: Context, idx: nat)
    ensures Resolve(ctx, idx).Value? <==> exists s: Word :: Denotes(ctx, idx, s)
    ensures Resolve(ctx, idx) == NoValue <==> Unresolvable(ctx, idx, true)
    ensures Define(ctx, idx).Bound? <==> exists d :: Defines(ctx, idx, d)
    ensures Define(ctx, idx) == Unbound <==> Unresolvable(ctx, idx, false)
    ensures forall d :: Defines(ctx, idx, d) ==> Define(ctx, idx) == Bound(d)
  {
    forall s: Word ensures Resolve(ctx, idx) == Value(s) <==> Denotes(ctx, idx, s) {
      ResolveExact(ctx, idx, s);
    }
    forall d ensures Define(ctx, idx) == Bound(d) <==> Defines(ctx, idx, d) {
      DefineExact(ctx, idx, d);
    }
    if SymbolIdx(ctx.symtab, idx).Some? {
      FindInScopeExact(ctx.scope, SymbolIdx(ctx.symtab, idx).value.1);
    }
  }

  /** An entry is processed exactly when it can be, by its type, its symbol and the handler; so an eager run
      completes exactly when every entry can be processed. */
  lemma GoesExactly(ctx: Context, m: Memory, job: Job)
    ensures Goes(m, Plan(ctx, job)) <==> CanProcess(ctx, m, job)
  {
    ResolvedExactly(ctx, job.rela.Symbol());
    RejectExactly(ctx, job);
  }

  lemma EagerCompletesExactly(ctx: Context, m: Memory, r: ElfRelocation)
    ensures Run(ctx, m, EagerJobs(r)).1 == Complete <==> forall job :: job in EagerJobs(r) ==> CanProcess(ctx, m, job)
  {
    CompleteIff(m, Plans(ctx, EagerJobs(r)));
    forall job ensures Goes(m, Plan(ctx, job)) <==> CanProcess(ctx, m, job) {
      GoesExactly(ctx, m, job);
    }
    forall job | job in EagerJobs(r) ensures Plan(ctx, job) in Plans(ctx, EagerJobs(r)) {
      PlanInPlans(ctx, EagerJobs(r), Plan(ctx, job));
    }
    forall a | a in Plans(ctx, EagerJobs(r)) ensures exists job :: job in EagerJobs(r) && Plan(ctx, job) == a {
      PlanInPlans(ctx, EagerJobs(r), a);
    }
  }

  // ----- order

  lemma EagerJobsAre(r: ElfRelocation, job: Job)
    ensures job in EagerJobs(r) <==>
            || (job.kind == RelativeHead && r.relative != [] && job.rela == r.relative[0])
            || (job.kind == RelativeRest && r.relative != [] && job.rela in r.relative[1..])
            || (job.kind == Dyn && job.rela in r.dynrel)
            || (job.kind == Plt && job.rela in r.pltrel)
  {
    var rel, dyn, plt := RelativeJobs(r.relative), Jobs(Dyn, r.dynrel), Jobs(Plt, r.pltrel);
    assert job in EagerJobs(r) <==> job in rel || job in dyn || job in plt;
    RelativeJobsAre(r.relative, job);
    JobsAre(Dyn, r.dynrel, job);
    JobsAre(Plt, r.pltrel, job);
  }

  lemma JobsAre(kind: Kind, es: seq<ElfRela>, job: Job)
    ensures job in Jobs(kind, es) <==> job.kind == kind && job.rela in es
  {
    if job.kind == kind && job.rela in es {
      var i :| 0 <= i < |es| && es[i] == job.rela;
      assert Jobs(kind, es)[i] == job;
    }
  }

  lemma RelativeJobsAre(es: seq<ElfRela>, job: Job)
    ensures job in RelativeJobs(es) <==>
            || (job.kind == RelativeHead && es != [] && job.rela == es[0])
            || (job.kind == RelativeRest && es != [] && job.rela in es[1..])
  {
    var jobs := RelativeJobs(es);
    if es != [] {
      assert jobs[0] == Job(RelativeHead, es[0]);
      assert jobs[1..] == Jobs(RelativeRest, es[1..]);
      assert jobs == [jobs[0]] + jobs[1..];
      JobsAre(RelativeRest, es[1..], job);
    }
  }

  ghost predicate SameEntries(es: seq<ElfRela>, fs: seq<ElfRela>) {
    (forall e :: e in es ==> e in fs) && (forall f :: f in fs ==> f in es)
  }

  ghost predicate AllRelative(es: seq<ElfRela>) {
    forall e :: e in es ==> e.Type() == REL_RELATIVE
  }

  lemma PlanCarriesOver(ctx: Context, r: ElfRelocation, r': ElfRelocation, job: Job) returns (job': Job)
    requires SameEntries(r.relative, r'.relative) && SameEntries(r.dynrel, r'.dynrel) && SameEntries(r.pltrel, r'.pltrel)
    requires AllRelative(r.relative) && job in EagerJobs(r)
    ensures job' in EagerJobs(r') && Plan(ctx, job') == Plan(ctx, job)
  {
    EagerJobsAre(r, job);
    if job.kind == Dyn || job.kind == Plt {
      job' := job;
    } else {
      assert job.rela in r.relative && job.rela in r'.relative;
      job' := Job(if job.rela == r'.relative[0] then RelativeHead else RelativeRest, job.rela);
      assert r'.relative == [r'.relative[0]] + r'.relative[1..];
    }
    EagerJobsAre(r', job');
  }

  /** Permuting the entries within each list gives the same memory. */
  lemma EagerOrder(ctx: Context, m: Memory, r: ElfRelocation, r': ElfRelocation)
    requires SameEntries(r.relative, r'.relative) && SameEntries(r.dynrel, r'.dynrel) && SameEntries(r.pltrel, r'.pltrel)
    requires AllRelative(r.relative)
    requires Run(ctx, m, EagerJobs(r)).1 == Complete
    requires Independent(Plans(ctx, EagerJobs(r)))
    ensures Run(ctx, m, EagerJobs(r')) == Run(ctx, m, EagerJobs(r))
  {
    var js, ks := EagerJobs(r), EagerJobs(r');
    forall a ensures a in Plans(ctx, js) <==> a in Plans(ctx, ks) {
      PlanInPlans(ctx, js, a);
      PlanInPlans(ctx, ks, a);
      if j :| j in js && Plan(ctx, j) == a {
        var k := PlanCarriesOver(ctx, r, r', j);
      }
      if k :| k in ks && Plan(ctx, k) == a {
        var j := PlanCarriesOver(ctx, r', r, k);
      }
    }
    OrderOfActions(m, Plans(ctx, js), Plans(ctx, ks));
  }

  // ----- growing the scope

  function Grown(ctx: Context, extra: seq<Helper>): Context {
    ctx.(scope := ctx.scope + extra)
  }

  /** An entry bound to null for want of a definition: its symbol is undefined and weak. */
  ghost predicate WeakNull(ctx: Context, job: Job) {
    && (job.kind == Dyn || job.kind == Plt)
    && (job.rela.Type() == (if job.kind == Plt then REL_JUMP_SLOT else REL_GOT)
        || (job.kind == Dyn && job.rela.Type() == REL_SYMBOLIC))
    && SymbolIdx(ctx.symtab, job.rela.Symbol()).Some?
    && var (sym, info) := SymbolIdx(ctx.symtab, job.rela.Symbol()).value;
       && ctx.preFind(info.name) == None && !sym.IsLocal() && AllPass(ctx.scope, info)
       && sym.IsWeak() && sym.IsUndef() && sym.value == 0
  }

  function InfoOf(ctx: Context, job: Job): SymbolInfo
    requires SymbolIdx(ctx.symtab, job.rela.Symbol()).Some?
  {
    SymbolIdx(ctx.symtab, job.rela.Symbol()).value.1
  }

  /** Appending libraries changes a definition only where every earlier library passes. */
  lemma GrowthOfDefinition(ctx: Context, extra: seq<Helper>, idx: nat)
    requires SymbolIdx(ctx.symtab, idx).Some?
    ensures var (sym, info) := SymbolIdx(ctx.symtab, idx).value;
            var before, after := Define(ctx, idx), Define(Grown(ctx, extra), idx);
            if sym.IsLocal() || !AllPass(ctx.scope, info) then after == before
            else if FindInScope(extra, info) == Unbound then after == before
            else after == FindInScope(extra, info)
    ensures var (sym, info) := SymbolIdx(ctx.symtab, idx).value;
            !sym.IsLocal() && AllPass(ctx.scope, info) && Define(ctx, idx).Bound?
            ==> sym.IsWeak() && sym.IsUndef() && sym.value == 0 && Define(ctx, idx) == Bound(SymDef(None, ctx.base))
  {
    var (sym, info) := SymbolIdx(ctx.symtab, idx).value;
    FindInScopeExact(ctx.scope, info);
    FindInScopeConcat(ctx.scope, extra, info);
  }

  /** Appending libraries leaves alone every entry that is bound otherwise than to null. */
  lemma GrowthKeepsPlan(ctx: Context, extra: seq<Helper>, job: Job)
    requires Plan(ctx, job) != Panic && Plan(ctx, job) != Reject && !ctx.accepts(job.rela) && !WeakNull(ctx, job)
    ensures Plan(Grown(ctx, extra), job) == Plan(ctx, job)
  {
    if (job.kind == Dyn || job.kind == Plt) && SymbolIdx(ctx.symtab, job.rela.Symbol()).Some? {
      GrowthOfDefinition(ctx, extra, job.rela.Symbol());
    }
  }

  /** An entry bound to null keeps its target, unless checking a version in a new library aborts. */
  lemma GrowthOfNull(ctx: Context, extra: seq<Helper>, job: Job)
    requires WeakNull(ctx, job)
    ensures Plan(ctx, job) == Write(Target(ctx, job.rela), 0)
    ensures var a := Plan(Grown(ctx, extra), job);
            if FindInScope(extra, InfoOf(ctx, job)) == Aborted then a == Panic
            else a.Write? && a.addr == Target(ctx, job.rela)
  {
    GrowthOfDefinition(ctx, extra, job.rela.Symbol());
    UnboundExact(ctx.scope, InfoOf(ctx, job));
  }

  /** The bytes of the words that hold a null for want of a definition. */
  ghost function NullWords(ctx: Context, jobs: seq<Job>): iset<nat> {
    iset a: nat | InNullWord(ctx, jobs, a)
  }

  ghost predicate InNullWord(ctx: Context, jobs: seq<Job>, a: nat) {
    exists job :: job in jobs && WeakNull(ctx, job) && InWord(Target(ctx, job.rela), a)
  }

  /** The first hashed symbol of the name that a search of the table does not pass over. */
  ghost predicate FirstCandidate(t: SymbolTable, info: SymbolInfo, j: nat) {
    && Hashed(t, j) && t.symtab[j].name == info.name && CheckMatch(t, j, info.version) != Miss
    && forall k :: t.hashtab.symbias <= k < j && t.symtab[k].name == info.name ==> CheckMatch(t, k, info.version) == Miss
  }

  /** The symbol's version cannot be checked: the object has no versions, or none for this symbol. */
  predicate Uncheckable(t: SymbolTable, j: nat) {
    t.version.None? || !VersionDefined(t.version.value, j)
  }

  /** A library passes exactly when its first candidate, if any, checks out and is not usable; it aborts
      exactly when the request has a version and its first candidate's cannot be checked. */
  lemma LibraryExact(h: Helper, info: SymbolInfo)
    ensures Passes(h, info) <==>
            forall j: nat :: FirstCandidate(h.symtab, info, j) ==> CheckMatch(h.symtab, j, info.version) == Hit && !Usable(h.symtab.symtab[j])
    ensures LookupFilter(h.symtab, info) == Crashed <==>
            info.version.Some? && exists j: nat :: FirstCandidate(h.symtab, info, j) && Uncheckable(h.symtab, j)
  {
    var t := h.symtab;
    ScanFrom(t, info, t.hashtab.symbias);
    if Scan(t, info, t.hashtab.symbias) != Absent {
      var i := FirstStop(t, info, t.hashtab.symbias);
      assert Hashed(t, i) && FirstCandidate(t, info, i) by {
        forall k | t.hashtab.symbias <= k < i && t.symtab[k].name == info.name ensures CheckMatch(t, k, info.version) == Miss {
          assert !Stops(t, info, k);
        }
      }
      forall j: nat | FirstCandidate(t, info, j) ensures j == i {
        assert Stops(t, info, j);
      }
    } else {
      forall j: nat ensures !FirstCandidate(t, info, j) {
        assert !Stops(t, info, j) || !Hashed(t, j);
      }
    }
  }

  /** The search reaches library j, and its lookup aborts. */
  ghost predicate AbortsAt(scope: seq<Helper>, info: SymbolInfo, j: nat) {
    j < |scope| && AllPass(scope[..j], info) && LookupFilter(scope[j].symtab, info) == Crashed
  }

  lemma {:induction false} AbortHasLibrary(scope: seq<Helper>, info: SymbolInfo) returns (j: nat)
    requires FindInScope(scope, info) == Aborted
    ensures AbortsAt(scope, info, j)
  {
    if Passes(scope[0], info) {
      var i := AbortHasLibrary(scope[1..], info);
      j := i + 1;
      assert scope[..j] == [scope[0]] + scope[1..][..i];
    } else {
      j := 0;
    }
  }

  lemma {:induction false} LibraryAborts(scope: seq<Helper>, info: SymbolInfo, j: nat)
    requires AbortsAt(scope, info, j)
    ensures FindInScope(scope, info) == Aborted
  {
    if j > 0 {
      assert scope[0] == scope[..j][0] && Passes(scope[0], info);
      assert scope[1..][..j - 1] == scope[..j][1..];
      LibraryAborts(scope[1..], info, j - 1);
    }
  }

  /** Some library, reached by the search, hashes a first candidate whose version cannot be checked:
      read off the tables of the libraries. */
  ghost predicate MeetsUncheckable(scope: seq<Helper>, info: SymbolInfo) {
    && info.version.Some?
    && exists i: nat, j: nat ::
         && i < |scope| && FirstCandidate(scope[i].symtab, info, j) && Uncheckable(scope[i].symtab, j)
         && forall h, k: nat :: h in scope[..i] && FirstCandidate(h.symtab, info, k) ==>
              CheckMatch(h.symtab, k, info.version) == Hit && !Usable(h.symtab.symtab[k])
  }

  lemma AbortsMeeting(scope: seq<Helper>, info: SymbolInfo)
    ensures FindInScope(scope, info) == Aborted <==> MeetsUncheckable(scope, info)
  {
    if FindInScope(scope, info) == Aborted {
      var j := AbortHasLibrary(scope, info);
    }
    forall j: nat | AbortsAt(scope, info, j) ensures FindInScope(scope, info) == Aborted {
      LibraryAborts(scope, info, j);
    }
    forall h ensures Passes(h, info) <==>
                     forall j: nat :: FirstCandidate(h.symtab, info, j) ==> CheckMatch(h.symtab, j, info.version) == Hit && !Usable(h.symtab.symtab[j])
    {
      LibraryExact(h, info);
    }
    forall i: nat | i < |scope|
      ensures LookupFilter(scope[i].symtab, info) == Crashed <==>
              info.version.Some? && exists j: nat :: FirstCandidate(scope[i].symtab, info, j) && Uncheckable(scope[i].symtab, j)
    {
      LibraryExact(scope[i], info);
    }
  }

  lemma GrownPlansAlike(ctx: Context, extra: seq<Helper>, m: Memory, jobs: seq<Job>, i: nat)
    requires forall e :: !ctx.accepts(e)
    requires i < |jobs| && Goes(m, Plan(ctx, jobs[i]))
    requires WeakNull(ctx, jobs[i]) ==> FindInScope(extra, InfoOf(ctx, jobs[i])) != Aborted
    ensures Alike(Plan(ctx, jobs[i]), Plan(Grown(ctx, extra), jobs[i]), NullWords(ctx, jobs))
  {
    var job := jobs[i];
    if !WeakNull(ctx, job) {
      GrowthKeepsPlan(ctx, extra, job);
    } else {
      GrowthOfNull(ctx, extra, job);
      forall x: nat | InWord(Target(ctx, job.rela), x) ensures x in NullWords(ctx, jobs) {
        assert job in jobs;
      }
    }
  }

  lemma GrowthAborts(ctx: Context, extra: seq<Helper>, m: Memory, jobs: seq<Job>, job: Job)
    requires job in jobs && WeakNull(ctx, job) && FindInScope(extra, InfoOf(ctx, job)) == Aborted
    ensures Run(Grown(ctx, extra), m, jobs).1 != Complete
  {
    GrowthOfNull(ctx, extra, job);
    PlanInPlans(Grown(ctx, extra), jobs, Panic);
    CompleteIff(m, Plans(Grown(ctx, extra), jobs));
    assert !Goes(m, Panic);
  }

  /** Scope monotonicity. Appending libraries to the scope of a successful run (with a handler that
      takes nothing) keeps it successful exactly when no undefined weak symbol's versioned request meets,
      in the new libraries, a symbol whose version cannot be checked; memory can then differ only in
      words that held null for an undefined weak symbol, unless such a word is copied elsewhere. */
  lemma ScopeMonotonicity(ctx: Context, extra: seq<Helper>, m: Memory, jobs: seq<Job>)
    requires forall e :: !ctx.accepts(e)
    requires Run(ctx, m, jobs).1 == Complete
    ensures Run(Grown(ctx, extra), m, jobs).1 == Complete
            <==> forall job :: job in jobs && WeakNull(ctx, job) ==> !MeetsUncheckable(extra, InfoOf(ctx, job))
    ensures Run(Grown(ctx, extra), m, jobs).1 == Complete && ReadsOutside(Plans(ctx, jobs), NullWords(ctx, jobs))
            ==> AgreeOutside(Run(ctx, m, jobs).0, Run(Grown(ctx, extra), m, jobs).0, NullWords(ctx, jobs))
  {
    var fs, gs := Plans(ctx, jobs), Plans(Grown(ctx, extra), jobs);
    forall job | job in jobs && WeakNull(ctx, job)
      ensures FindInScope(extra, InfoOf(ctx, job)) == Aborted <==> MeetsUncheckable(extra, InfoOf(ctx, job))
    {
      AbortsMeeting(extra, InfoOf(ctx, job));
    }
    if forall job :: job in jobs && WeakNull(ctx, job) ==> FindInScope(extra, InfoOf(ctx, job)) != Aborted {
      CompleteIff(m, fs);
      forall i | 0 <= i < |jobs| ensures Alike(fs[i], gs[i], NullWords(ctx, jobs)) {
        assert fs[i] in fs && jobs[i] in jobs;
        GrownPlansAlike(ctx, extra, m, jobs, i);
      }
      AlikeCompletes(m, fs, gs, NullWords(ctx, jobs));
      if ReadsOutside(fs, NullWords(ctx, jobs)) {
        AlikeRuns(m, m, fs, gs, NullWords(ctx, jobs));
      }
    } else {
      var job :| job in jobs && WeakNull(ctx, job) && FindInScope(extra, InfoOf(ctx, job)) == Aborted;
      GrowthAborts(ctx, extra, m, jobs, job);
    }
  }

  /** Libraries whose hashed symbols all have versions never abort a lookup, and unversioned requests
      abort in no library. */
  lemma ReadyScopeNeverAborts(extra: seq<Helper>, info: SymbolInfo)
    requires info.version.None? || forall h :: h in extra ==> VersionsReady(h.symtab)
    ensures FindInScope(extra, info) != Aborted
  {
    AbortsMeeting(extra, info);
    forall i: nat, j: nat | i < |extra| && FirstCandidate(extra[i].symtab, info, j)
      ensures info.version.None? || !Uncheckable(extra[i].symtab, j)
    {
      assert extra[i] in extra && Hashed(extra[i].symtab, j);
    }
  }

  // ----- the two kinds of object

  /** `exec.rs`: an executable's scope begins with the executable itself, if it has symbols. */
  function ExecScope(base: Word, symtab: Option<SymbolTable>, libs: seq<Helper>): seq<Helper> {
    (if symtab.Some? then [Helper(base, symtab.value)] else []) + libs
  }

  /** An executable's own definitions come before those of its libraries. */
  lemma ExecBindsSelfFirst(base: Word, symtab: SymbolTable, libs: seq<Helper>, info: SymbolInfo)
    ensures FindInScope(ExecScope(base, Some(symtab), libs), info)
            == if Passes(Helper(base, symtab), info) then FindInScope(libs, info)
               else if Offers(Helper(base, symtab), info) then Bound(Offered(Helper(base, symtab), info))
               else Aborted
  {
    FindInScopeConcat([Helper(base, symtab)], libs, info);
    assert [Helper(base, symtab)][1..] == [];
  }
}
