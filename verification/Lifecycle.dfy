/** The life of a loaded component: handles, relocation, initialisation, finalisation and unmapping. */
module Lifecycle {
  import opened Words
  import opened Memories
  import opened Actions
  import opened Relocation
  import opened RelocationResults
  import opened LazyBinding

  /** DT_INIT and DT_INIT_ARRAY, or DT_FINI and DT_FINI_ARRAY: addresses of functions. */
  datatype Hooks = Hooks(single: Option<Word>, arr: Option<seq<Word>>)
  {
    /** The functions in the order in which the code calls them, the single one first. */
    function List(): seq<Word> {
      (if single.Some? then [single.value] else []) + (if arr.Some? then arr.value else [])
    }
  }

  /** The single function is called before those of the array, which are called in order. */
  lemma SingleFirst(f: Word, fs: seq<Word>)
    ensures Hooks(Some(f), Some(fs)).List() == [f] + fs && Hooks(Some(f), None).List() == [f]
    ensures Hooks(None, Some(fs)).List() == fs && Hooks(None, None).List() == []
  {
  }

  /** What can be observed: the k-th call of an init or fini function, and the unmapping. */
  datatype Event = Init(k: nat, f: Word) | Fini(k: nat, f: Word) | Unmap

  /** What the owner of a component can do with it. A relocation that panics unwinds and drops the object. */
  datatype Op =
    | RelocateOk | RelocateFail | RelocatePanic | RelocateEmpty
    | DropObject | Clone | DropHandle | Downgrade | Upgrade | DropWeak

  /** Strong and weak counts, whether the component is marked initialised, whether the unrelocated
      object still exists (it owns one strong count), and what has happened. */
  datatype State = State(strong: nat, weak: nat, isInit: bool, pending: bool, log: seq<Event>)

  function Inits(h: Hooks): (r: seq<Event>)
    ensures |r| == |h.List()| && forall k :: 0 <= k < |r| ==> r[k] == Init(k, h.List()[k])
  {
    seq(|h.List()|, k requires 0 <= k < |h.List()| => Init(k, h.List()[k]))
  }

  function Finis(h: Hooks): (r: seq<Event>)
    ensures |r| == |h.List()| && forall k :: 0 <= k < |r| ==> r[k] == Fini(k, h.List()[k])
  {
    seq(|h.List()|, k requires 0 <= k < |h.List()| => Fini(k, h.List()[k]))
  }

  function Loaded(): State {
    State(1, 0, false, true, [])
  }

  predicate Enabled(s: State, op: Op) {
    match op
    case RelocateOk => s.pending
    case RelocateFail => s.pending
    case RelocatePanic => s.pending
    case RelocateEmpty => s.pending
    case DropObject => s.pending
    case Clone => s.strong > 0
    case DropHandle => s.strong > (if s.pending then 1 else 0)
    case Downgrade => s.strong > 0
    case Upgrade => s.weak > 0
    case DropWeak => s.weak > 0
  }

  /** Giving up one strong reference; with the last one go the component and its mapping. */
  function Release(s: State, fini: Hooks): State
    requires s.strong > 0
  {
    if s.strong > 1 then s.(strong := s.strong - 1)
    else s.(strong := 0, log := s.log + (if s.isInit then Finis(fini) else []) + [Unmap])
  }

  function Step(s: State, op: Op, init: Hooks, fini: Hooks): State
    requires Enabled(s, op) && (s.pending ==> s.strong > 0)
  {
    match op
    case RelocateOk => s.(pending := false, isInit := true, log := s.log + Inits(init))
    case RelocateFail => Release(s.(pending := false), fini)
    case RelocatePanic => Release(s.(pending := false), fini)
    case RelocateEmpty => s.(pending := false)
    case DropObject => Release(s.(pending := false), fini)
    case Clone => s.(strong := s.strong + 1)
    case DropHandle => Release(s, fini)
    case Downgrade => s.(weak := s.weak + 1)
    case Upgrade => if s.strong > 0 then s.(strong := s.strong + 1) else s
    case DropWeak => s.(weak := s.weak - 1)
  }

  /** `relocate_impl` up to the init functions: memory and outcome. `sealed` is whether the protection of
      the RELRO part, which follows eager binding, succeeds. */
  function Relocating(env: LazyEnv, m: Memory, r: ElfRelocation, got: Option<Got>, isLazy: bool, sealed: bool): (Memory, Status) {
    if isLazy then LazyStart(env, m, r, got)
    else
      var (n, st) := Run(env.ctx, m, EagerJobs(r));
      if st == Complete && !sealed then (n, Rejected) else (n, st)
  }

  /** When relocation succeeds: eagerly, every entry can be processed and RELRO is set; lazily, the relative
      and dynamic entries can, the PLT is prepared, and RELRO plays no part. A failing RELRO is an error. */
  lemma RelocatesExactly(env: LazyEnv, m: Memory, r: ElfRelocation, got: Option<Got>, sealed: bool)
    ensures Relocating(env, m, r, got, false, sealed).1 == Complete
            <==> sealed && forall job :: job in EagerJobs(r) ==> CanProcess(env.ctx, m, job)
    ensures (forall job :: job in EagerJobs(r) ==> CanProcess(env.ctx, m, job)) && !sealed ==>
              Relocating(env, m, r, got, false, sealed).1 == Rejected
    ensures Relocating(env, m, r, got, true, sealed).1 == Complete
            <==> && Run(env.ctx, m, RelativeJobs(r.relative) + Jobs(Dyn, r.dynrel)).1 == Complete
                 && got.Some? && (forall e :: e in r.pltrel ==> CanPrepare(env.ctx, m, e))
                 && (r.pltrel != [] ==> Mapped(m, Wrap(got.value.at + 8), 8) && Mapped(m, Wrap(got.value.at + 16), 8)
                                        && (env.libs.Some? || env.global.Some?))
  {
    EagerCompletesExactly(env.ctx, m, r);
    LazyCompletes(env, m, r, got);
  }

  /** What the outcome of relocating does to the component; a fault ends the process. */
  function AfterRelocating(s: State, st: Status, init: Hooks, fini: Hooks): State
    requires s.pending && s.strong > 0
  {
    match st
    case Complete => Step(s, RelocateOk, init, fini)
    case Rejected => Step(s, RelocateFail, init, fini)
    case Panicked => Step(s, RelocatePanic, init, fini)
    case Faulted => s
  }

  // ----- the code

  class Component {
    const init: Hooks
    const fini: Hooks
    var strong: nat
    var weak: nat
    var isInit: bool
    var pending: bool
    var log: seq<Event>

    ghost function View(): State
      reads this
    {
      State(strong, weak, isInit, pending, log)
    }

    /** What dropping one strong reference leads to: with the last one, the fini functions if the component
        was initialised, and then the unmapping. */
    twostate predicate OneDropped()
      reads this
    {
      && weak == old(weak) && isInit == old(isInit) && strong == old(strong) - 1
      && (old(strong) > 1 ==> log == old(log))
      && (old(strong) == 1 && old(isInit) ==> log == old(log) + Finis(fini) + [Unmap])
      && (old(strong) == 1 && !old(isInit) ==> log == old(log) + [Unmap])
    }

    /** `create_common`. */
    constructor (init: Hooks, fini: Hooks)
      ensures View() == Loaded() && this.init == init && this.fini == fini
    {
      this.init, this.fini := init, fini;
      strong, weak, isInit, pending, log := 1, 0, false, true, [];
    }

    /** `call_init`: the init function, then the init array. */
    method CallInit()
      modifies this`log
      ensures log == old(log) + Inits(init)
    {
      ghost var all := Inits(init);
      var n := 0;
      if init.single.Some? {
        log := log + [Init(0, init.single.value)];
        n := 1;
      }
      assert log == old(log) + all[..n];
      var fs := if init.arr.Some? then init.arr.value else [];
      for i := 0 to |fs|
        invariant log == old(log) + all[..n + i]
      {
        log := log + [Init(n + i, fs[i])];
        assert all[..n + i + 1] == all[..n + i] + [all[n + i]];
      }
      assert all[..n + |fs|] == all;
    }

    /** Dropping the last strong reference: `CoreComponentInner::drop`, then the fields, of which the
        mapping is one. */
    method DropInner()
      modifies this`log
      ensures log == old(log) + (if isInit then Finis(fini) else []) + [Unmap]
    {
      if isInit {
        ghost var all := Finis(fini);
        var n := 0;
        if fini.single.Some? {
          log := log + [Fini(0, fini.single.value)];
          n := 1;
        }
        assert log == old(log) + all[..n];
        var fs := if fini.arr.Some? then fini.arr.value else [];
        for i := 0 to |fs|
          invariant log == old(log) + all[..n + i]
        {
          log := log + [Fini(n + i, fs[i])];
          assert all[..n + i + 1] == all[..n + i] + [all[n + i]];
        }
        assert all[..n + |fs|] == all;
      }
      log := log + [Unmap];
    }

    method DropStrong()
      requires strong > 0
      modifies this`strong, this`log
      ensures View() == Release(old(View()), fini) && OneDropped()
    {
      strong := strong - 1;
      if strong == 0 {
        DropInner();
      }
    }

    /** `relocate`, which consumes the unrelocated object: an executable without relocations skips
        everything; else the outcome of `relocate_impl` decides. An error or a panic drops the object,
        success runs the init functions and then marks it. */
    method Relocate(image: Image, env: LazyEnv, r: ElfRelocation, got: Option<Got>, isExec: bool, isLazy: bool, sealed: bool)
      returns (st: Status)
      requires pending && strong > 0 && env.pltrel == r.pltrel
      modifies this, image
      ensures isExec && r.IsEmpty() ==>
                st == Complete && image.mem == old(image.mem) && View() == Step(old(View()), RelocateEmpty, init, fini)
      ensures !(isExec && r.IsEmpty()) ==>
                && (image.mem, st) == Relocating(env, old(image.mem), r, got, isLazy, sealed)
                && View() == AfterRelocating(old(View()), st, init, fini)
      ensures !(isExec && r.IsEmpty()) && st == Complete ==>
                log == old(log) + Inits(init) && isInit && !pending && strong == old(strong) && weak == old(weak)
      ensures st == Rejected || st == Panicked ==> OneDropped() && !pending
      ensures st == Faulted || (isExec && r.IsEmpty()) ==>
                log == old(log) && isInit == old(isInit) && strong == old(strong) && weak == old(weak)
    {
      if isExec && r.IsEmpty() {
        pending := false;
        return Complete;
      }
      if isLazy {
        st := RelocateLazy(image, env, r, got);
      } else {
        st := image.RelocateEager(env.ctx, r);
        if st == Complete && !sealed {
          st := Rejected;
        }
      }
      if st == Faulted {
        return;
      }
      pending := false;
      if st != Complete {
        DropStrong();
        return;
      }
      CallInit();
      isInit := true;
    }

    method Drop()
      requires Enabled(View(), DropHandle)
      modifies this
      ensures View() == Step(old(View()), DropHandle, init, fini) && OneDropped()
    {
      DropStrong();
    }

    method CloneHandle()
      requires Enabled(View(), Clone)
      modifies this
      ensures View() == Step(old(View()), Clone, init, fini)
      ensures strong == old(strong) + 1 && weak == old(weak) && log == old(log)
    {
      strong := strong + 1;
    }

    method DowngradeHandle()
      requires Enabled(View(), Downgrade)
      modifies this
      ensures View() == Step(old(View()), Downgrade, init, fini)
      ensures strong == old(strong) && weak == old(weak) + 1 && log == old(log)
    {
      weak := weak + 1;
    }

    /** Whether a handle comes back. */
    method UpgradeHandle() returns (r: bool)
      requires Enabled(View(), Upgrade) && (pending ==> strong > 0)
      modifies this
      ensures View() == Step(old(View()), Upgrade, init, fini)
      ensures r <==> old(strong) > 0
      ensures strong == old(strong) + (if r then 1 else 0) && weak == old(weak) && log == old(log)
    {
      r := strong > 0;
      if r {
        strong := strong + 1;
      }
    }
  }

  // ----- every run

  /** The ops can be performed one after the other. */
  ghost predicate CanRun(s: State, ops: seq<Op>, init: Hooks, fini: Hooks)
    decreases |ops|
  {
    (s.pending ==> s.strong > 0)
    && (ops == [] || (Enabled(s, ops[0]) && CanRun(Step(s, ops[0], init, fini), ops[1..], init, fini)))
  }

  function Final(s: State, ops: seq<Op>, init: Hooks, fini: Hooks): State
    requires CanRun(s, ops, init, fini)
    decreases |ops|
  {
    if ops == [] then s else Final(Step(s, ops[0], init, fini), ops[1..], init, fini)
  }

  /** The events so far are determined by whether relocation succeeded and whether a reference is left. */
  predicate Consistent(s: State, init: Hooks, fini: Hooks) {
    && (s.pending ==> s.strong > 0 && !s.isInit)
    && s.log == (if s.isInit then Inits(init) else [])
                + (if s.strong > 0 then [] else (if s.isInit then Finis(fini) else []) + [Unmap])
  }

  lemma StepConsistent(s: State, op: Op, init: Hooks, fini: Hooks)
    requires Consistent(s, init, fini) && Enabled(s, op)
    ensures Consistent(Step(s, op, init, fini), init, fini)
  {
  }

  lemma {:induction false} RunConsistent(s: State, ops: seq<Op>, init: Hooks, fini: Hooks)
    requires Consistent(s, init, fini) && CanRun(s, ops, init, fini)
    ensures Consistent(Final(s, ops, init, fini), init, fini)
    ensures Final(s, ops, init, fini).isInit <==> s.isInit || RelocateOk in ops
    decreases |ops|
  {
    if ops != [] {
      StepConsistent(s, ops[0], init, fini);
      RunConsistent(Step(s, ops[0], init, fini), ops[1..], init, fini);
      assert ops == [ops[0]] + ops[1..];
    }
  }

  /** Handles gained and given up by one operation. */
  function Gained(s: State, op: Op): int {
    match op
    case Clone => 1
    case Upgrade => if s.strong > 0 then 1 else 0
    case RelocateFail => -1
    case RelocatePanic => -1
    case DropObject => -1
    case DropHandle => -1
    case _ => 0
  }

  function GainedOver(s: State, ops: seq<Op>, init: Hooks, fini: Hooks): int
    requires CanRun(s, ops, init, fini)
    decreases |ops|
  {
    if ops == [] then 0 else Gained(s, ops[0]) + GainedOver(Step(s, ops[0], init, fini), ops[1..], init, fini)
  }

  /** The strong count is the number of handles: those gained, by cloning and by upgrading while one is
      left, less those given up. */
  lemma {:induction false} HandlesCounted(s: State, ops: seq<Op>, init: Hooks, fini: Hooks)
    requires CanRun(s, ops, init, fini)
    ensures Final(s, ops, init, fini).strong == s.strong + GainedOver(s, ops, init, fini)
    decreases |ops|
  {
    if ops != [] {
      HandlesCounted(Step(s, ops[0], init, fini), ops[1..], init, fini);
    }
  }

  /** Init functions run in order, fini functions only after all of them, nothing happens twice, and
      the unmapping comes last. */
  ghost predicate Orderly(log: seq<Event>, init: Hooks) {
    && (forall i :: 0 <= i < |log| && log[i].Init? ==> i < |init.List()| && log[i] == Init(i, init.List()[i]))
    && (forall i :: 0 <= i < |log| && log[i].Fini? ==> |init.List()| <= i && log[..|init.List()|] == Inits(init))
    && (forall i, j :: 0 <= i < j < |log| ==> log[i] != log[j])
    && (forall i :: 0 <= i < |log| && log[i] == Unmap ==> i == |log| - 1)
  }

  lemma OrderlyCases(init: Hooks, fini: Hooks)
    ensures Orderly([], init) && Orderly([Unmap], init) && Orderly(Inits(init), init)
    ensures Orderly(Inits(init) + Finis(fini) + [Unmap], init)
  {
    WholeLog(init, fini);
  }

  /** Over all runs: init functions run once and in order if relocation succeeds; fini functions run
      only after all of them, at most once each, when the last strong reference goes; the one unmapping
      is the last event; and nothing of this happens while a strong reference is left. */
  lemma LifeCycle(ops: seq<Op>, init: Hooks, fini: Hooks)
    requires CanRun(Loaded(), ops, init, fini)
    ensures var s := Final(Loaded(), ops, init, fini);
            && Orderly(s.log, init)
            && s.log == (if RelocateOk in ops then Inits(init) else [])
                        + (if s.strong > 0 then [] else (if RelocateOk in ops then Finis(fini) else []) + [Unmap])
  {
    RunConsistent(Loaded(), ops, init, fini);
    OrderlyCases(init, fini);
    assert Inits(init) + [] == Inits(init);
    assert Inits(init) + (Finis(fini) + [Unmap]) == Inits(init) + Finis(fini) + [Unmap];
    assert [] + ([] + [Unmap]) == [Unmap];
  }

  /** The log of a component that was initialised and is gone. */
  lemma WholeLog(init: Hooks, fini: Hooks)
    ensures var log, n, k := Inits(init) + Finis(fini) + [Unmap], |init.List()|, |fini.List()|;
            && |log| == n + k + 1
            && (forall i :: 0 <= i < |log| ==>
                  log[i] == if i < n then Init(i, init.List()[i]) else if i < n + k then Fini(i - n, fini.List()[i - n]) else Unmap)
            && log[..n] == Inits(init) && log[n + k] == Unmap
  {
  }

  /** A component whose last strong reference is gone never comes back: upgrades fail and nothing
      more happens. */
  lemma {:induction false} GoneForGood(s: State, ops: seq<Op>, init: Hooks, fini: Hooks)
    requires Consistent(s, init, fini) && CanRun(s, ops, init, fini) && s.strong == 0
    ensures Final(s, ops, init, fini).strong == 0 && Final(s, ops, init, fini).log == s.log
    decreases |ops|
  {
    if ops != [] {
      StepConsistent(s, ops[0], init, fini);
      GoneForGood(Step(s, ops[0], init, fini), ops[1..], init, fini);
    }
  }

  /** `from_raw` registers a component that somebody else has initialised: no init or fini functions
      run for it, and it is unmapped once. */
  lemma RawLifeCycle(weak: nat, ops: seq<Op>)
    requires CanRun(State(1, weak, true, false, []), ops, Hooks(None, None), Hooks(None, None))
    ensures var s := Final(State(1, weak, true, false, []), ops, Hooks(None, None), Hooks(None, None));
            s.log == if s.strong == 0 then [Unmap] else []
  {
    RunConsistent(State(1, weak, true, false, []), ops, Hooks(None, None), Hooks(None, None));
  }
}
