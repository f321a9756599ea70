/** Sequences of memory actions: how they end, what they leave, and when their order is immaterial. */
module Actions {
  import opened Words
  import opened Memories

  /** What one relocation entry asks for. */
  datatype Action = Write(addr: Word, val: Word) | Copy(dst: Word, src: Word, len: nat) | Skip | Reject | Panic

  /** How a run ends: normally, by the handler's error, by a panic, or by touching unmapped memory. */
  datatype Status = Complete | Rejected | Panicked | Faulted

  function Perform(m: Memory, a: Action): (Memory, Status) {
    match a
    case Write(addr, val) => if Mapped(m, addr, 8) then (Apply(m, WordPatch(addr, val)), Complete) else (m, Faulted)
    case Copy(dst, src, len) =>
      if Mapped(m, src, len) && Mapped(m, dst, len) then (Apply(m, Store(dst, ReadBytes(m, src, len))), Complete)
      else (m, Faulted)
    case Skip => (m, Complete)
    case Reject => (m, Rejected)
    case Panic => (m, Panicked)
  }

  /** One action after the other, until one does not complete. */
  function Execute(m: Memory, acts: seq<Action>): (Memory, Status)
    decreases |acts|
  {
    if acts == [] then (m, Complete)
    else
      var (m1, st) := Perform(m, acts[0]);
      if st == Complete then Execute(m1, acts[1..]) else (m1, st)
  }

  lemma {:induction false} ExecuteConcat(m: Memory, fs: seq<Action>, gs: seq<Action>)
    ensures Execute(m, fs + gs)
            == if Execute(m, fs).1 == Complete then Execute(Execute(m, fs).0, gs) else Execute(m, fs)
    decreases |fs|
  {
    if fs == [] {
      assert fs + gs == gs;
    } else {
      assert (fs + gs)[1..] == fs[1..] + gs;
      ExecuteConcat(Perform(m, fs[0]).0, fs[1..], gs);
    }
  }

  lemma ExecuteHead(m: Memory, acts: seq<Action>, i: nat)
    requires i < |acts|
    ensures var (m1, st) := Perform(m, acts[i]);
            Execute(m, acts[i..]) == if st == Complete then Execute(m1, acts[i + 1..]) else (m1, st)
  {
    assert acts[i..][0] == acts[i] && acts[i..][1..] == acts[i + 1..];
  }

  // ----- failure

  lemma PerformKeepsDomain(m: Memory, a: Action)
    ensures Perform(m, a).0.Keys == m.Keys
  {
    var n := Perform(m, a).0;
    match a
    case Write(addr, val) =>
      forall x: nat ensures x in n <==> x in m {
        assert Mapped(m, addr, 8) ==> At(n, x) == After(At(m, x), CellAt(WordPatch(addr, val), x));
      }
    case Copy(dst, src, len) =>
      forall x: nat ensures x in n <==> x in m {
        assert Mapped(m, src, len) && Mapped(m, dst, len) ==> At(n, x) == After(At(m, x), CellAt(Store(dst, ReadBytes(m, src, len)), x));
      }
    case _ =>
  }

  lemma {:induction false} ExecuteKeepsDomain(m: Memory, acts: seq<Action>)
    ensures Execute(m, acts).0.Keys == m.Keys
    decreases |acts|
  {
    if acts != [] {
      PerformKeepsDomain(m, acts[0]);
      ExecuteKeepsDomain(Perform(m, acts[0]).0, acts[1..]);
    }
  }

  lemma SameDomain(m: Memory, n: Memory, at: nat, len: nat)
    requires m.Keys == n.Keys
    ensures Mapped(m, at, len) <==> Mapped(n, at, len)
  {
    assert forall x :: x in m <==> x in n;
  }

  /** How an action ends depends on what is mapped, not on what it holds. */
  lemma StatusByDomain(m: Memory, n: Memory, a: Action)
    requires m.Keys == n.Keys
    ensures Perform(m, a).1 == Perform(n, a).1
  {
    assert forall x :: x in m <==> x in n;
  }

  predicate Goes(m: Memory, a: Action) {
    Perform(m, a).1 == Complete
  }

  /** The first action that does not complete decides the outcome, and memory is what the actions
      before it leave. */
  lemma {:induction false} StopsAtFirst(m: Memory, acts: seq<Action>) returns (k: nat)
    ensures k <= |acts| && forall i :: 0 <= i < k ==> Goes(m, acts[i])
    ensures k < |acts| ==> !Goes(m, acts[k])
    ensures Execute(m, acts).1 == Complete <==> k == |acts|
    ensures Execute(m, acts[..k]).1 == Complete
    ensures k < |acts| ==> Execute(m, acts) == (Execute(m, acts[..k]).0, Perform(m, acts[k]).1)
    decreases |acts|
  {
    if acts == [] {
      k := 0;
    } else {
      var (m1, st) := Perform(m, acts[0]);
      if st != Complete {
        k := 0;
        assert acts[..0] == [];
      } else {
        PerformKeepsDomain(m, acts[0]);
        var tail := acts[1..];
        var j := StopsAtFirst(m1, tail);
        k := j + 1;
        forall i | 0 <= i < |tail| ensures Perform(m1, tail[i]).1 == Perform(m, acts[i + 1]).1 {
          StatusByDomain(m, m1, tail[i]);
        }
        forall i | 0 <= i < k ensures Goes(m, acts[i]) {
          if i > 0 {
            assert Goes(m1, tail[i - 1]);
          }
        }
        assert acts[..k][1..] == tail[..j];
      }
    }
  }

  lemma CompleteIff(m: Memory, acts: seq<Action>)
    ensures Execute(m, acts).1 == Complete <==> forall a :: a in acts ==> Goes(m, a)
  {
    var k := StopsAtFirst(m, acts);
    if k < |acts| {
      assert acts[k] in acts;
    }
  }

  lemma EachGoes(m: Memory, acts: seq<Action>, i: nat)
    requires Execute(m, acts).1 == Complete && i < |acts|
    ensures Goes(m, acts[i])
  {
    CompleteIff(m, acts);
    assert acts[i] in acts;
  }

  // ----- results

  predicate WordsApart(a: Word, b: Word) {
    a + 8 <= b || b + 8 <= a
  }

  predicate InWord(addr: Word, a: nat) {
    addr <= a < addr + 8
  }

  /** The action stores to address x. */
  predicate Touches(a: Action, x: nat) {
    (a.Write? && InWord(a.addr, x)) || (a.Copy? && a.dst <= x < a.dst + a.len)
  }

  /** The action copies from address x. */
  predicate Reads(a: Action, x: nat) {
    a.Copy? && a.src <= x < a.src + a.len
  }

  /** Different actions store to different addresses, and none copies from an address that is stored to. */
  ghost predicate Independent(acts: seq<Action>) {
    && (forall a, b, x: nat {:trigger Touches(a, x), Touches(b, x)} ::
          a in acts && b in acts && Touches(a, x) && Touches(b, x) ==> a == b)
    && (forall a, b, x: nat {:trigger Reads(a, x), Touches(b, x)} ::
          a in acts && b in acts && Reads(a, x) ==> !Touches(b, x))
  }

  /** Without copies, writing different things to disjoint words is enough. */
  lemma WritesIndependent(acts: seq<Action>)
    requires forall a :: a in acts ==> !a.Copy?
    requires forall a, b :: a in acts && b in acts && a.Write? && b.Write? ==> a == b || WordsApart(a.addr, b.addr)
    ensures Independent(acts)
  {
  }

  lemma PerformElsewhere(m: Memory, a: Action, x: nat)
    requires !Touches(a, x)
    ensures At(Perform(m, a).0, x) == At(m, x)
  {
    match a
    case Write(addr, val) =>
      assert Mapped(m, addr, 8) ==> At(Perform(m, a).0, x) == After(At(m, x), CellAt(WordPatch(addr, val), x));
    case Copy(dst, src, len) =>
      if Mapped(m, src, len) && Mapped(m, dst, len) {
        assert At(Perform(m, a).0, x) == After(At(m, x), CellAt(Store(dst, ReadBytes(m, src, len)), x));
      }
    case _ =>
  }

  /** A run changes no byte that no action stores to. */
  lemma {:induction false} OtherBytes(m: Memory, acts: seq<Action>, x: nat)
    requires forall a :: a in acts ==> !Touches(a, x)
    ensures At(Execute(m, acts).0, x) == At(m, x)
    decreases |acts|
  {
    if acts != [] {
      assert acts[0] in acts;
      PerformElsewhere(m, acts[0], x);
      OtherBytes(Perform(m, acts[0]).0, acts[1..], x);
    }
  }

  /** The patch that an action makes to memory m. */
  function PatchOf(m: Memory, a: Action): seq<Patch> {
    if a.Write? then [WordPatch(a.addr, a.val)]
    else if a.Copy? && Mapped(m, a.src, a.len) then [Store(a.dst, ReadBytes(m, a.src, a.len))]
    else []
  }

  function Patches(m: Memory, acts: seq<Action>): seq<Patch> {
    if acts == [] then [] else PatchOf(m, acts[0]) + Patches(m, acts[1..])
  }

  lemma {:induction false} PatchIsStore(m: Memory, acts: seq<Action>, p: Patch)
    ensures p in Patches(m, acts) <==> exists a :: a in acts && p in PatchOf(m, a)
  {
    if acts != [] {
      PatchIsStore(m, acts[1..], p);
      assert forall a :: a in acts <==> a == acts[0] || a in acts[1..];
    }
  }

  lemma PatchTouches(m: Memory, a: Action, p: Patch, x: nat)
    requires p in PatchOf(m, a) && Covers(p, x)
    ensures Touches(a, x) && PatchOf(m, a) == [p]
  {
  }

  lemma PerformIsPatch(m: Memory, a: Action)
    requires Goes(m, a)
    ensures Perform(m, a).0 == ApplyAll(m, PatchOf(m, a))
  {
    if a.Write? || a.Copy? {
      var p := PatchOf(m, a)[0];
      assert ApplyAll(m, [p]) == ApplyAll(Apply(m, p), []);
    }
  }

  lemma SameRead(m: Memory, n: Memory, c: Action)
    requires m.Keys == n.Keys && c.Copy? && Mapped(m, c.src, c.len)
    requires forall x: nat {:trigger Reads(c, x)} :: Reads(c, x) ==> At(m, x) == At(n, x)
    ensures Mapped(n, c.src, c.len) && ReadBytes(m, c.src, c.len) == ReadBytes(n, c.src, c.len)
  {
    assert forall x :: x in m <==> x in n;
    forall k | 0 <= k < c.len ensures ReadBytes(m, c.src, c.len)[k] == ReadBytes(n, c.src, c.len)[k] {
      assert Reads(c, c.src + k) && At(m, c.src + k) == At(n, c.src + k);
    }
  }

  /** Copies find the same bytes in two memories that agree where they read. */
  lemma {:induction false} PatchesCarryOver(m: Memory, n: Memory, acts: seq<Action>)
    requires m.Keys == n.Keys
    requires forall a, x: nat {:trigger Reads(a, x)} :: a in acts && Reads(a, x) ==> At(m, x) == At(n, x)
    ensures Patches(m, acts) == Patches(n, acts)
  {
    if acts != [] {
      var a := acts[0];
      assert a in acts && forall b :: b in acts[1..] ==> b in acts;
      if a.Copy? && Mapped(m, a.src, a.len) {
        SameRead(m, n, a);
      } else if a.Copy? {
        assert forall x :: x in m <==> x in n;
      }
      PatchesCarryOver(m, n, acts[1..]);
    }
  }

  /** A completed run of independent actions applies the patches they make to the initial memory. */
  lemma {:induction false} ExecuteIsPatches(m: Memory, acts: seq<Action>)
    requires Execute(m, acts).1 == Complete && Independent(acts)
    ensures Execute(m, acts).0 == ApplyAll(m, Patches(m, acts))
    decreases |acts|
  {
    if acts != [] {
      var a, tail, m1 := acts[0], acts[1..], Perform(m, acts[0]).0;
      assert a in acts && forall b :: b in tail ==> b in acts;
      PerformIsPatch(m, a);
      PerformKeepsDomain(m, a);
      forall b, x: nat {:trigger Reads(b, x)} | b in tail && Reads(b, x) ensures At(m, x) == At(m1, x) {
        PerformElsewhere(m, a, x);
      }
      PatchesCarryOver(m, m1, tail);
      ExecuteIsPatches(m1, tail);
      ApplyAllConcat(m, PatchOf(m, a), Patches(m, tail));
    }
  }

  lemma StoresCompatible(m: Memory, acts: seq<Action>)
    requires Independent(acts)
    ensures Compatible(Patches(m, acts))
  {
    var ps := Patches(m, acts);
    forall p, q | p in ps && q in ps ensures p == q || Disjoint(p, q) {
      PatchIsStore(m, acts, p);
      PatchIsStore(m, acts, q);
      var a :| a in acts && p in PatchOf(m, a);
      var b :| b in acts && q in PatchOf(m, b);
      forall x: nat ensures Covers(p, x) && Covers(q, x) ==> p == q {
        if Covers(p, x) && Covers(q, x) {
          PatchTouches(m, a, p, x);
          PatchTouches(m, b, q, x);
        }
      }
    }
  }

  lemma StoredIn(m: Memory, acts: seq<Action>, a: Action, at: nat, bytes: seq<Byte>, x: nat)
    requires Execute(m, acts).1 == Complete && Independent(acts)
    requires a in acts && Store(at, bytes) in PatchOf(m, a) && at <= x < at + |bytes|
    ensures At(Execute(m, acts).0, x) == Some(bytes[x - at])
  {
    ExecuteIsPatches(m, acts);
    StoresCompatible(m, acts);
    PatchIsStore(m, acts, Store(at, bytes));
    StoredByte(m, Patches(m, acts), at, bytes, x);
  }

  /** After a completed run, each byte of a written word is the value's. */
  lemma TargetByte(m: Memory, acts: seq<Action>, addr: Word, val: Word, x: nat)
    requires Execute(m, acts).1 == Complete && Independent(acts)
    requires Write(addr, val) in acts && InWord(addr, x)
    ensures At(Execute(m, acts).0, x) == Some(WordBytes(val)[x - addr])
  {
    StoredIn(m, acts, Write(addr, val), addr, WordBytes(val), x);
  }

  /** After a completed run, each copied byte is what its source held at first. */
  lemma CopiedByte(m: Memory, acts: seq<Action>, dst: Word, src: Word, len: nat, k: nat)
    requires Execute(m, acts).1 == Complete && Independent(acts)
    requires Copy(dst, src, len) in acts && k < len
    ensures At(m, src + k).Some? && At(Execute(m, acts).0, dst + k) == At(m, src + k)
  {
    CompleteIff(m, acts);
    assert Goes(m, Copy(dst, src, len));
    StoredIn(m, acts, Copy(dst, src, len), dst, ReadBytes(m, src, len), dst + k);
  }

  /** Each byte of the range at dst now is what the range at src held before. */
  ghost predicate BytesCopied(m: Memory, n: Memory, src: Word, dst: Word, len: nat) {
    forall x: nat {:trigger At(n, x)} :: dst <= x < dst + len ==> At(n, x) == At(m, src + (x - dst))
  }

  lemma CopiedRange(m: Memory, acts: seq<Action>, c: Action)
    requires Execute(m, acts).1 == Complete && Independent(acts) && c in acts && c.Copy?
    ensures BytesCopied(m, Execute(m, acts).0, c.src, c.dst, c.len)
  {
    forall x: nat | c.dst <= x < c.dst + c.len ensures At(Execute(m, acts).0, x) == At(m, c.src + (x - c.dst)) {
      CopiedByte(m, acts, c.dst, c.src, c.len, x - c.dst);
    }
  }

  lemma WordFromBytes(n: Memory, addr: Word, w: Word)
    requires forall a: nat :: addr <= a < addr + 8 ==> At(n, a) == Some(WordBytes(w)[a - addr])
    ensures Mapped(n, addr, 8) && ReadWord(n, addr) == w
  {
    forall a | addr <= a < addr + 8 ensures a in n {
      assert At(n, a).Some?;
    }
    ReadBack(n, addr, w);
  }

  lemma TargetWord(m: Memory, acts: seq<Action>, addr: Word, val: Word)
    requires Execute(m, acts).1 == Complete && Independent(acts)
    requires Write(addr, val) in acts
    ensures Mapped(Execute(m, acts).0, addr, 8) && ReadWord(Execute(m, acts).0, addr) == val
  {
    forall a: nat | addr <= a < addr + 8 ensures At(Execute(m, acts).0, a) == Some(WordBytes(val)[a - addr]) {
      TargetByte(m, acts, addr, val, a);
    }
    WordFromBytes(Execute(m, acts).0, addr, val);
  }

  // ----- order

  ghost predicate SameActions(fs: seq<Action>, gs: seq<Action>) {
    forall a :: a in fs <==> a in gs
  }

  /** The same actions in any order, repeated or not, end alike and leave the same memory. */
  lemma OrderOfActions(m: Memory, fs: seq<Action>, gs: seq<Action>)
    requires SameActions(fs, gs)
    requires Execute(m, fs).1 == Complete && Independent(fs)
    ensures Execute(m, gs) == Execute(m, fs)
  {
    CompleteIff(m, fs);
    CompleteIff(m, gs);
    assert Independent(gs);
    ExecuteIsPatches(m, fs);
    ExecuteIsPatches(m, gs);
    StoresCompatible(m, fs);
    forall p ensures p in Patches(m, fs) <==> p in Patches(m, gs) {
      PatchIsStore(m, fs, p);
      PatchIsStore(m, gs, p);
    }
    OrderFree(m, Patches(m, fs), Patches(m, gs));
  }

  // ----- runs that differ in some words only

  ghost predicate AgreeOutside(m: Memory, n: Memory, X: iset<nat>) {
    m.Keys == n.Keys && forall a: nat {:trigger At(m, a)} {:trigger At(n, a)} :: a !in X ==> At(m, a) == At(n, a)
  }

  lemma AgreeAfterWrites(m: Memory, n: Memory, X: iset<nat>, addr: Word, v: Word, w: Word)
    requires AgreeOutside(m, n, X) && Mapped(m, addr, 8)
    requires v == w || forall a: nat :: addr <= a < addr + 8 ==> a in X
    ensures Mapped(n, addr, 8)
    ensures AgreeOutside(Apply(m, WordPatch(addr, v)), Apply(n, WordPatch(addr, w)), X)
  {
    assert forall x :: x in m <==> x in n;
    PerformKeepsDomain(m, Write(addr, v));
    PerformKeepsDomain(n, Write(addr, w));
    var m1, n1 := Apply(m, WordPatch(addr, v)), Apply(n, WordPatch(addr, w));
    forall a: nat | a !in X ensures At(m1, a) == At(n1, a) {
      assert At(m1, a) == After(At(m, a), CellAt(WordPatch(addr, v), a));
      assert At(n1, a) == After(At(n, a), CellAt(WordPatch(addr, w), a));
    }
  }

  /** Two actions that may differ only in the value of a word inside X. */
  ghost predicate Alike(a: Action, b: Action, X: iset<nat>) {
    a == b || (a.Write? && b.Write? && a.addr == b.addr && forall x: nat :: a.addr <= x < a.addr + 8 ==> x in X)
  }

  lemma AlikeCompletes(m: Memory, fs: seq<Action>, gs: seq<Action>, X: iset<nat>)
    requires Execute(m, fs).1 == Complete
    requires |fs| == |gs| && forall i :: 0 <= i < |fs| ==> Alike(fs[i], gs[i], X)
    ensures Execute(m, gs).1 == Complete
  {
    CompleteIff(m, fs);
    CompleteIff(m, gs);
    forall g | g in gs ensures Goes(m, g) {
      var i :| 0 <= i < |gs| && gs[i] == g;
      assert fs[i] in fs && Alike(fs[i], gs[i], X);
    }
  }

  lemma AgreeAfterCopy(m: Memory, n: Memory, X: iset<nat>, c: Action)
    requires AgreeOutside(m, n, X) && c.Copy? && Goes(m, c)
    requires forall x: nat :: Reads(c, x) ==> x !in X
    ensures Goes(n, c) && AgreeOutside(Perform(m, c).0, Perform(n, c).0, X)
  {
    StatusByDomain(m, n, c);
    PerformKeepsDomain(m, c);
    PerformKeepsDomain(n, c);
    SameRead(m, n, c);
    var bytes := ReadBytes(m, c.src, c.len);
    forall x: nat | x !in X ensures At(Perform(m, c).0, x) == At(Perform(n, c).0, x) {
      assert At(Perform(m, c).0, x) == After(At(m, x), CellAt(Store(c.dst, bytes), x));
      assert At(Perform(n, c).0, x) == After(At(n, x), CellAt(Store(c.dst, bytes), x));
    }
  }

  ghost predicate ReadsOutside(acts: seq<Action>, X: iset<nat>) {
    forall a, x: nat {:trigger Reads(a, x)} :: a in acts && Reads(a, x) ==> x !in X
  }

  /** Runs of actions that are alike, and that copy nothing from X, differ in X only. */
  lemma {:induction false} AlikeRuns(m: Memory, n: Memory, fs: seq<Action>, gs: seq<Action>, X: iset<nat>)
    requires Execute(m, fs).1 == Complete && ReadsOutside(fs, X)
    requires |fs| == |gs| && forall i :: 0 <= i < |fs| ==> Alike(fs[i], gs[i], X)
    requires AgreeOutside(m, n, X)
    ensures Execute(n, gs).1 == Complete
    ensures AgreeOutside(Execute(m, fs).0, Execute(n, gs).0, X)
    decreases |fs|
  {
    if fs != [] {
      assert fs[0] in fs && Alike(fs[0], gs[0], X);
      if fs[0].Write? {
        AgreeAfterWrites(m, n, X, fs[0].addr, fs[0].val, gs[0].val);
      } else if fs[0].Copy? {
        AgreeAfterCopy(m, n, X, fs[0]);
      }
      AlikeRuns(Perform(m, fs[0]).0, Perform(n, gs[0]).0, fs[1..], gs[1..], X);
    }
  }
}
