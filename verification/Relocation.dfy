/** The relocation engine: symbol resolution over an ordered scope and the three relocation loops. */
module Relocation {
  import opened Words
  import opened Memories
  import opened ElfHash
  import opened Symbols
  import opened Actions

  const REL_NONE: nat := 0
  const REL_SYMBOLIC: nat := 1
  const REL_COPY: nat := 5
  const REL_GOT: nat := 6
  const REL_JUMP_SLOT: nat := 7
  const REL_RELATIVE: nat := 8
  const REL_DTPOFF: nat := 17
  const REL_IRELATIVE: nat := 37
  const TLS_DTV_OFFSET: nat := 0

  datatype ElfRela = ElfRela(offset: Word, info: Word, addend: Word)
  {
    function Type(): nat {
      info % U32_SPAN
    }

    function Symbol(): nat {
      info / U32_SPAN
    }
  }

  /** A library of the scope: `RelocateHelper`. */
  datatype Helper = Helper(base: Word, symtab: SymbolTable)

  /** What a relocation run depends on: the object itself, its scope, the caller's finder, the values
      ifunc resolvers return, and which entries the caller's handler takes care of. */
  datatype Context = Context(base: Word, symtab: SymbolTable, scope: seq<Helper>, preFind: Name -> Option<Word>,
                             ifunc: Word -> Word, accepts: ElfRela -> bool)

  datatype SymDef = SymDef(sym: Option<ElfSymbol>, base: Word)

  /** The address a definition stands for. */
  function Convert(ifunc: Word -> Word, d: SymDef): Word {
    match d.sym
    case None => 0
    case Some(s) => if s.Type() != STT_GNU_IFUNC then Wrap(d.base + s.value) else ifunc(Wrap(d.base + s.value))
  }

  datatype Search = Bound(def: SymDef) | Unbound | Aborted

  /** The first library, in order, that offers the symbol. */
  function FindInScope(scope: seq<Helper>, info: SymbolInfo): Search {
    if scope == [] then Unbound
    else
      match LookupFilter(scope[0].symtab, info)
      case Found(i) => Bound(SymDef(Some(scope[0].symtab.symtab[i]), scope[0].base))
      case Crashed => Aborted
      case Absent => FindInScope(scope[1..], info)
  }

  /** `find_symdef`. */
  function FindSymdef(ctx: Context, dynsym: ElfSymbol, info: SymbolInfo): Search {
    if dynsym.IsLocal() then Bound(SymDef(Some(dynsym), ctx.base))
    else
      match FindInScope(ctx.scope, info)
      case Bound(d) => Bound(d)
      case Aborted => Aborted
      case Unbound =>
        if dynsym.IsWeak() && dynsym.IsUndef() then
          if dynsym.value == 0 then Bound(SymDef(None, ctx.base)) else Aborted
        else Unbound
  }

  /** `symbol_idx`: the symbol and what it asks for; None when reading them goes wrong. */
  function SymbolIdx(t: SymbolTable, idx: nat): Option<(ElfSymbol, SymbolInfo)> {
    if idx >= |t.symtab| then None
    else
      match GetRequirement(t, idx)
      case None => None
      case Some(version) => Some((t.symtab[idx], SymbolInfo(t.symtab[idx].name, version)))
  }

  datatype Resolution = Value(w: Word) | NoValue | Trap

  /** S: the caller's finder first, then `find_symdef`. */
  function Resolve(ctx: Context, idx: nat): Resolution {
    match SymbolIdx(ctx.symtab, idx)
    case None => Trap
    case Some((dynsym, info)) =>
      match ctx.preFind(info.name)
      case Some(w) => Value(w)
      case None =>
        match FindSymdef(ctx, dynsym, info)
        case Bound(d) => Value(Convert(ctx.ifunc, d))
        case Unbound => NoValue
        case Aborted => Trap
  }

  /** The definition used by TLS and copy relocations, which do not ask the finder. */
  function Define(ctx: Context, idx: nat): Search {
    match SymbolIdx(ctx.symtab, idx)
    case None => Aborted
    case Some((dynsym, info)) => FindSymdef(ctx, dynsym, info)
  }

  /** Which loop an entry belongs to; the first RELATIVE entry is asserted to be one. */
  datatype Kind = RelativeHead | RelativeRest | Dyn | Plt

  datatype Job = Job(kind: Kind, rela: ElfRela)

  function Target(ctx: Context, e: ElfRela): Word {
    Wrap(ctx.base + e.offset)
  }

  function Unknown(ctx: Context, e: ElfRela): Action {
    if ctx.accepts(e) then Skip else Reject
  }

  function PlanSymbol(ctx: Context, e: ElfRela): Action {
    match Resolve(ctx, e.Symbol())
    case Value(w) => Write(Target(ctx, e), w)
    case NoValue => Unknown(ctx, e)
    case Trap => Panic
  }

  function CopyAction(ctx: Context, e: ElfRela, d: SymDef): Action {
    if d.sym.None? then Panic
    else Copy(Target(ctx, e), Wrap(ctx.base + d.sym.value.value), d.sym.value.size)
  }

  function PlanDyn(ctx: Context, e: ElfRela): Action {
    if e.Type() == REL_GOT || e.Type() == REL_SYMBOLIC then PlanSymbol(ctx, e)
    else if e.Type() == REL_DTPOFF then
      match Define(ctx, e.Symbol())
      case Aborted => Panic
      case Unbound => Unknown(ctx, e)
      case Bound(d) =>
        if d.sym.None? then Panic
        else Write(Target(ctx, e), Wrap(d.sym.value.value + e.addend - TLS_DTV_OFFSET))
    else if e.Type() == REL_COPY then
      match Define(ctx, e.Symbol())
      case Aborted => Panic
      case Unbound => Unknown(ctx, e)
      case Bound(d) => CopyAction(ctx, e, d)
    else if e.Type() == REL_RELATIVE then Write(Target(ctx, e), Wrap(ctx.base + e.addend))
    else if e.Type() == REL_NONE then Skip
    else Unknown(ctx, e)
  }

  function PlanPlt(ctx: Context, e: ElfRela): Action {
    if e.Type() == REL_JUMP_SLOT then PlanSymbol(ctx, e)
    else if e.Type() == REL_IRELATIVE then Write(Target(ctx, e), ctx.ifunc(Wrap(ctx.base + e.addend)))
    else Unknown(ctx, e)
  }

  /** What one entry asks for. It does not depend on memory. */
  function Plan(ctx: Context, job: Job): Action {
    match job.kind
    case RelativeHead =>
      if job.rela.Type() != REL_RELATIVE then Panic
      else Write(Target(ctx, job.rela), Wrap(ctx.base + job.rela.addend))
    case RelativeRest => Write(Target(ctx, job.rela), Wrap(ctx.base + job.rela.addend))
    case Dyn => PlanDyn(ctx, job.rela)
    case Plt => PlanPlt(ctx, job.rela)
  }

  function Plans(ctx: Context, jobs: seq<Job>): (r: seq<Action>)
    ensures |r| == |jobs| && forall i :: 0 <= i < |jobs| ==> r[i] == Plan(ctx, jobs[i])
  {
    seq(|jobs|, i requires 0 <= i < |jobs| => Plan(ctx, jobs[i]))
  }

  function Run(ctx: Context, m: Memory, jobs: seq<Job>): (Memory, Status) {
    Execute(m, Plans(ctx, jobs))
  }

  lemma RunConcat(ctx: Context, m: Memory, js: seq<Job>, ks: seq<Job>)
    ensures Run(ctx, m, js + ks)
            == if Run(ctx, m, js).1 == Complete then Run(ctx, Run(ctx, m, js).0, ks) else Run(ctx, m, js)
  {
    ExecuteConcat(m, Plans(ctx, js), Plans(ctx, ks));
    assert Plans(ctx, js + ks) == Plans(ctx, js) + Plans(ctx, ks);
  }

  function Jobs(kind: Kind, es: seq<ElfRela>): (r: seq<Job>)
    ensures |r| == |es| && forall i :: 0 <= i < |es| ==> r[i] == Job(kind, es[i])
  {
    seq(|es|, i requires 0 <= i < |es| => Job(kind, es[i]))
  }

  function RelativeJobs(es: seq<ElfRela>): (r: seq<Job>)
    ensures |r| == |es|
    ensures forall i :: 0 <= i < |es| ==> r[i] == Job(if i == 0 then RelativeHead else RelativeRest, es[i])
  {
    seq(|es|, i requires 0 <= i < |es| => Job(if i == 0 then RelativeHead else RelativeRest, es[i]))
  }

  /** `ElfRelocation`: the relative entries, the other dynamic entries, and the PLT entries. */
  datatype ElfRelocation = ElfRelocation(relative: seq<ElfRela>, dynrel: seq<ElfRela>, pltrel: seq<ElfRela>)
  {
    predicate IsEmpty() {
      relative == [] && dynrel == [] && pltrel == []
    }
  }

  function EagerJobs(r: ElfRelocation): seq<Job> {
    RelativeJobs(r.relative) + Jobs(Dyn, r.dynrel) + Jobs(Plt, r.pltrel)
  }

  /** One turn of the relative loop. */
  lemma RelativeStep(ctx: Context, m: Memory, es: seq<ElfRela>, i: nat)
    requires i < |es| && es[0].Type() == REL_RELATIVE
    ensures var acts := Plans(ctx, RelativeJobs(es));
            var (m1, st) := Perform(m, Write(Target(ctx, es[i]), Wrap(ctx.base + es[i].addend)));
            Execute(m, acts[i..]) == if st == Complete then Execute(m1, acts[i + 1..]) else (m1, st)
  {
    assert RelativeJobs(es)[i].kind == if i == 0 then RelativeHead else RelativeRest;
    assert Plan(ctx, RelativeJobs(es)[i]) == Write(Target(ctx, es[i]), Wrap(ctx.base + es[i].addend));
    ExecuteHead(m, Plans(ctx, RelativeJobs(es)), i);
  }

  lemma BadHead(ctx: Context, m: Memory, es: seq<ElfRela>)
    requires es != [] && es[0].Type() != REL_RELATIVE
    ensures Run(ctx, m, RelativeJobs(es)) == (m, Panicked)
  {
    assert RelativeJobs(es)[0].kind == RelativeHead;
    assert Plans(ctx, RelativeJobs(es))[0] == Panic;
  }

  // ----- the loops

  /** The search of `find_symdef` over real hash tables: each library is asked through its bloom
      filter, bucket and chain. */
  method SearchScope(scope: seq<Helper>, info: SymbolInfo) returns (r: Search)
    requires forall h :: h in scope ==> WellFormed(h.symtab)
    ensures r == FindInScope(scope, info)
  {
    assert scope[0..] == scope;
    for i := 0 to |scope|
      invariant FindInScope(scope[i..], info) == FindInScope(scope, info)
    {
      var h := scope[i];
      assert scope[i..][0] == h && scope[i..][1..] == scope[i + 1..];
      var found := LookupUsable(h.symtab, info);
      match found {
        case Found(k) => return Bound(SymDef(Some(h.symtab.symtab[k]), h.base));
        case Crashed => return Aborted;
        case Absent =>
      }
    }
    r := Unbound;
  }

  class Image {
    var mem: Memory

    constructor (m: Memory)
      ensures mem == m
    {
      mem := m;
    }

    /** `write_val`. */
    method WriteVal(base: Word, offset: Word, val: Word) returns (st: Status)
      modifies this
      ensures (mem, st) == Perform(old(mem), Write(Wrap(base + offset), val))
    {
      var addr := Wrap(base + offset);
      if !Mapped(mem, addr, 8) {
        return Faulted;
      }
      mem := Apply(mem, WordPatch(addr, val));
      st := Complete;
    }

    method RelocateRelative(ctx: Context, es: seq<ElfRela>) returns (st: Status)
      modifies this
      ensures (mem, st) == Run(ctx, old(mem), RelativeJobs(es))
    {
      ghost var m0 := mem;
      if |es| > 0 && es[0].Type() != REL_RELATIVE {
        BadHead(ctx, mem, es);
        return Panicked;
      }
      ghost var acts := Plans(ctx, RelativeJobs(es));
      assert acts[0..] == acts;
      for i := 0 to |es|
        invariant Execute(mem, acts[i..]) == Execute(m0, acts)
      {
        RelativeStep(ctx, mem, es, i);
        assert Target(ctx, es[i]) == Wrap(ctx.base + es[i].offset);
        st := WriteVal(ctx.base, es[i].offset, Wrap(ctx.base + es[i].addend));
        if st != Complete {
          return;
        }
      }
      st := Complete;
    }

    /** A copy relocation takes its bytes from the object's own segments. */
    method CopySymbol(ctx: Context, e: ElfRela, d: SymDef) returns (st: Status)
      modifies this
      ensures (mem, st) == Perform(old(mem), CopyAction(ctx, e, d))
    {
      if d.sym.None? {
        return Panicked;
      }
      var dst, src, len := Wrap(ctx.base + e.offset), Wrap(ctx.base + d.sym.value.value), d.sym.value.size;
      if !Mapped(mem, src, len) || !Mapped(mem, dst, len) {
        return Faulted;
      }
      mem := Apply(mem, Store(dst, ReadBytes(mem, src, len)));
      st := Complete;
    }

    method RelocateDynEntry(ctx: Context, e: ElfRela) returns (st: Status)
      modifies this
      ensures (mem, st) == Perform(old(mem), PlanDyn(ctx, e))
    {
      if e.Type() == REL_GOT || e.Type() == REL_SYMBOLIC {
        match Resolve(ctx, e.Symbol()) {
          case Value(w) =>
            st := WriteVal(ctx.base, e.offset, w);
            return;
          case NoValue =>
          case Trap =>
            return Panicked;
        }
      } else if e.Type() == REL_DTPOFF {
        match Define(ctx, e.Symbol()) {
          case Bound(d) =>
            if d.sym.None? {
              return Panicked;
            }
            st := WriteVal(ctx.base, e.offset, Wrap(d.sym.value.value + e.addend - TLS_DTV_OFFSET));
            return;
          case Unbound =>
          case Aborted =>
            return Panicked;
        }
      } else if e.Type() == REL_COPY {
        match Define(ctx, e.Symbol()) {
          case Bound(d) =>
            st := CopySymbol(ctx, e, d);
            return;
          case Unbound =>
          case Aborted =>
            return Panicked;
        }
      }
      if e.Type() == REL_RELATIVE {
        st := WriteVal(ctx.base, e.offset, Wrap(ctx.base + e.addend));
      } else if e.Type() == REL_NONE {
        st := Complete;
      } else {
        st := if ctx.accepts(e) then Complete else Rejected;
      }
    }

    method RelocatePltEntry(ctx: Context, e: ElfRela) returns (st: Status)
      modifies this
      ensures (mem, st) == Perform(old(mem), PlanPlt(ctx, e))
    {
      if e.Type() == REL_JUMP_SLOT {
        match Resolve(ctx, e.Symbol()) {
          case Value(w) =>
            st := WriteVal(ctx.base, e.offset, w);
            return;
          case NoValue =>
          case Trap =>
            return Panicked;
        }
      } else if e.Type() == REL_IRELATIVE {
        st := WriteVal(ctx.base, e.offset, ctx.ifunc(Wrap(ctx.base + e.addend)));
        return;
      }
      st := if ctx.accepts(e) then Complete else Rejected;
    }

    method RelocateDynrel(ctx: Context, es: seq<ElfRela>) returns (st: Status)
      modifies this
      ensures (mem, st) == Run(ctx, old(mem), Jobs(Dyn, es))
    {
      ghost var jobs := Jobs(Dyn, es);
      ghost var m0 := mem;
      ghost var acts := Plans(ctx, jobs);
      assert acts[0..] == acts;
      for i := 0 to |es|
        invariant Execute(mem, acts[i..]) == Run(ctx, m0, jobs)
      {
        ExecuteHead(mem, acts, i);
        st := RelocateDynEntry(ctx, es[i]);
        if st != Complete {
          return;
        }
      }
      st := Complete;
    }

    method RelocatePltrel(ctx: Context, es: seq<ElfRela>) returns (st: Status)
      modifies this
      ensures (mem, st) == Run(ctx, old(mem), Jobs(Plt, es))
    {
      ghost var jobs := Jobs(Plt, es);
      ghost var m0 := mem;
      ghost var acts := Plans(ctx, jobs);
      assert acts[0..] == acts;
      for i := 0 to |es|
        invariant Execute(mem, acts[i..]) == Run(ctx, m0, jobs)
      {
        ExecuteHead(mem, acts, i);
        st := RelocatePltEntry(ctx, es[i]);
        if st != Complete {
          return;
        }
      }
      st := Complete;
    }

    /** `relocate_impl` with eager binding. */
    method RelocateEager(ctx: Context, r: ElfRelocation) returns (st: Status)
      modifies this
      ensures (mem, st) == Run(ctx, old(mem), EagerJobs(r))
    {
      ghost var m0 := mem;
      RunConcat(ctx, m0, RelativeJobs(r.relative) + Jobs(Dyn, r.dynrel), Jobs(Plt, r.pltrel));
      RunConcat(ctx, m0, RelativeJobs(r.relative), Jobs(Dyn, r.dynrel));
      st := RelocateRelative(ctx, r.relative);
      if st == Complete {
        st := RelocateDynrel(ctx, r.dynrel);
        if st == Complete {
          st := RelocatePltrel(ctx, r.pltrel);
        }
      }
    }
  }
}
