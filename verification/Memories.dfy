/** Byte-addressed memory and the patches that mapping, copying and relocation make to it. */
module Memories {
  import opened Words

  /** The mapped bytes of an address space. Touching any other address faults. */
  type Memory = map<nat, Byte>

  /** What a patch does to one address: leave it alone, make it inaccessible, or store a byte. */
  datatype Cell = Keep | Gone | Put(b: Byte)

  datatype Patch = Patch(at: nat, cells: seq<Cell>)

  function At(m: Memory, a: nat): Option<Byte> {
    if a in m then Some(m[a]) else None
  }

  predicate Mapped(m: Memory, at: nat, len: nat) {
    forall a :: at <= a < at + len ==> a in m
  }

  predicate Covers(p: Patch, a: nat) {
    p.at <= a < p.at + |p.cells|
  }

  function CellAt(p: Patch, a: nat): Cell {
    if Covers(p, a) then p.cells[a - p.at] else Keep
  }

  function After(old_: Option<Byte>, c: Cell): Option<Byte> {
    match c
    case Keep => old_
    case Gone => None
    case Put(b) => Some(b)
  }

  function ApplyCell(m: Memory, a: nat, c: Cell): Memory {
    match c
    case Keep => m
    case Gone => m - {a}
    case Put(b) => m[a := b]
  }

  function Apply(m: Memory, p: Patch): (r: Memory)
    ensures forall a: nat {:trigger At(r, a)} :: At(r, a) == After(At(m, a), CellAt(p, a))
    decreases |p.cells|
  {
    if p.cells == [] then m
    else
      var m1 := ApplyCell(m, p.at, p.cells[0]);
      assert forall a: nat :: At(m1, a) == if a == p.at then After(At(m, a), p.cells[0]) else At(m, a);
      Apply(m1, Patch(p.at + 1, p.cells[1..]))
  }

  function ApplyAll(m: Memory, ps: seq<Patch>): Memory
    decreases |ps|
  {
    if ps == [] then m else ApplyAll(Apply(m, ps[0]), ps[1..])
  }

  function Store(at: nat, bytes: seq<Byte>): (p: Patch)
    ensures p.at == at && |p.cells| == |bytes|
    ensures forall k :: 0 <= k < |bytes| ==> p.cells[k] == Put(bytes[k])
  {
    Patch(at, seq(|bytes|, k requires 0 <= k < |bytes| => Put(bytes[k])))
  }

  ghost predicate Disjoint(p: Patch, q: Patch) {
    forall a: nat :: !(Covers(p, a) && Covers(q, a))
  }

  /** Any two patches of the list touch different addresses or are one and the same. */
  ghost predicate Compatible(ps: seq<Patch>) {
    forall p, q :: p in ps && q in ps ==> p == q || Disjoint(p, q)
  }

  lemma SameBytes(m: Memory, n: Memory)
    requires forall a: nat :: At(m, a) == At(n, a)
    ensures m == n
  {
    forall a: nat
      ensures a in m <==> a in n
      ensures a in m ==> m[a] == n[a]
    {
      assert At(m, a) == At(n, a);
    }
  }

  lemma {:induction false} ApplyAllMiss(m: Memory, ps: seq<Patch>, a: nat)
    requires forall p :: p in ps ==> !Covers(p, a)
    ensures At(ApplyAll(m, ps), a) == At(m, a)
    decreases |ps|
  {
    if ps != [] {
      ApplyAllMiss(Apply(m, ps[0]), ps[1..], a);
      assert ps[0] in ps;
    }
  }

  /** Where compatible patches meet an address, one of them alone decides it. */
  lemma {:induction false} ApplyAllHit(m: Memory, ps: seq<Patch>, p: Patch, a: nat)
    requires Compatible(ps) && p in ps && Covers(p, a)
    ensures At(ApplyAll(m, ps), a) == After(At(m, a), CellAt(p, a))
    decreases |ps|
  {
    var h, t := ps[0], ps[1..];
    assert h in ps && forall q :: q in t ==> q in ps;
    var m1 := Apply(m, h);
    assert At(m1, a) == After(At(m, a), CellAt(h, a));
    if p in t {
      ApplyAllHit(m1, t, p, a);
      assert h == p || !Covers(h, a);
    } else {
      assert h == p;
      forall q | q in t ensures !Covers(q, a) {
        assert q != p;
        assert Disjoint(q, p);
      }
      ApplyAllMiss(m1, t, a);
    }
  }

  lemma StoredByte(m: Memory, ps: seq<Patch>, at: nat, bytes: seq<Byte>, a: nat)
    requires Compatible(ps) && Store(at, bytes) in ps && at <= a < at + |bytes|
    ensures At(ApplyAll(m, ps), a) == Some(bytes[a - at])
  {
    ApplyAllHit(m, ps, Store(at, bytes), a);
  }

  /** Order and repetition of compatible patches do not matter, only which patches there are. */
  lemma OrderFree(m: Memory, ps: seq<Patch>, qs: seq<Patch>)
    requires Compatible(ps)
    requires forall p :: p in ps <==> p in qs
    ensures ApplyAll(m, ps) == ApplyAll(m, qs)
  {
    forall a: nat ensures At(ApplyAll(m, ps), a) == At(ApplyAll(m, qs), a) {
      if p :| p in ps && Covers(p, a) {
        ApplyAllHit(m, ps, p, a);
        ApplyAllHit(m, qs, p, a);
      } else {
        ApplyAllMiss(m, ps, a);
        ApplyAllMiss(m, qs, a);
      }
    }
    SameBytes(ApplyAll(m, ps), ApplyAll(m, qs));
  }

  lemma {:induction false} ApplyAllConcat(m: Memory, ps: seq<Patch>, qs: seq<Patch>)
    ensures ApplyAll(m, ps + qs) == ApplyAll(ApplyAll(m, ps), qs)
    decreases |ps|
  {
    if ps == [] {
      assert ps + qs == qs;
    } else {
      assert (ps + qs)[1..] == ps[1..] + qs;
      ApplyAllConcat(Apply(m, ps[0]), ps[1..], qs);
    }
  }

  /** The bytes [at, at + len) of memory, when all of them are mapped. */
  function ReadBytes(m: Memory, at: nat, len: nat): (r: seq<Byte>)
    requires Mapped(m, at, len)
    ensures |r| == len
  {
    seq(len, k requires 0 <= k < len => m[at + k])
  }

  function ReadWord(m: Memory, at: nat): (w: Word)
    requires Mapped(m, at, 8)
  {
    Wrap(FromLe(ReadBytes(m, at, 8)))
  }

  function WordPatch(at: nat, w: Word): (p: Patch)
    ensures p.at == at && |p.cells| == 8
  {
    Store(at, WordBytes(w))
  }

  lemma ReadBack(m: Memory, at: nat, w: Word)
    requires Mapped(m, at, 8)
    requires forall a: nat :: at <= a < at + 8 ==> At(m, a) == Some(WordBytes(w)[a - at])
    ensures ReadWord(m, at) == w
  {
    assert ReadBytes(m, at, 8) == WordBytes(w) by {
      forall k | 0 <= k < 8 ensures m[at + k] == WordBytes(w)[k] {
        assert At(m, at + k) == Some(WordBytes(w)[k]);
      }
    }
    WordRoundTrip(w);
  }
}
