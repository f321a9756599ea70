/** Which objects load, and what a program finds in memory afterwards, in terms of the headers and the file. */
module LoadedObjects {
  import opened Words
  import opened Memories
  import opened Loader
  import opened ElfHeaders
  import opened SegmentImages

  /** The segment occupies at least one page. */
  predicate Spans(h: Phdr) {
    h.memsz > 0 || h.vaddr % PAGE != 0
  }

  predicate SamePage(g: Phdr, h: Phdr) {
    g.vaddr / PAGE == h.vaddr / PAGE
  }

  /** The page that holds position pos of a file of n bytes, if pos is inside one, begins before the end. */
  predicate PageInFile(pos: nat, n: nat) {
    pos % PAGE == 0 || pos - pos % PAGE < n
  }

  /** When an object loads if the kernel turns nothing down, low being its lowest segment: no empty
      mapping is asked for, offsets suit the backend, the bytes to copy exist, and the part of a page that
      has to be cleared is in the file. */
  predicate Loads(s: Source, phdrs: seq<Phdr>, low: Phdr) {
    && (s.backend != Allocator ==> exists h :: h in phdrs && h.IsLoad() && Spans(h))
    && (s.backend == Libc || (s.backend == Syscall && s.hasFd) ==> low.offset % PAGE == 0)
    && (s.backend == Allocator || !s.hasFd ==> low.offset + low.filesz <= |s.file|)
    && forall h :: h in phdrs && h.IsLoad() && !SamePage(h, low) ==>
         && (s.backend != Allocator ==> Spans(h))
         && (s.backend == Allocator || !s.hasFd ==> h.offset + h.filesz <= |s.file|)
         && (s.backend != Allocator && s.hasFd && h.filesz < h.memsz ==> PageInFile(h.offset + h.filesz, |s.file|))
  }

  lemma SpanIsPages(h: Phdr)
    requires WellFormedSegment(h)
    ensures Spans(h) <==> h.PageEnd() - h.PageStart() != 0
    ensures h.PageStart() <= h.PageEnd()
  {
    PageBounds(h.vaddr, 0);
    PageBounds(h.vaddr + h.memsz, h.PageStart());
    PageBounds(h.vaddr + h.memsz, 0);
  }

  lemma StartsAgree(g: Phdr, h: Phdr)
    ensures g.PageStart() == h.PageStart() <==> SamePage(g, h)
  {
  }

  lemma PageReached(pos: nat, n: nat)
    ensures pos % PAGE == 0 || pos <= PageUp(n) <==> PageInFile(pos, n)
  {
    PageBounds(n, 0);
    PageBounds(pos, PageUp(n));
  }

  lemma SegmentLoads(s: Source, segs: ElfSegments, h: Phdr)
    requires WellFormedSegment(h) && segs.offset <= h.PageStart() && forall q :: !s.denies(q)
    ensures SegmentAccepted(s, segs, h) <==>
            && (s.backend != Allocator ==> Spans(h))
            && (s.backend == Allocator || !s.hasFd ==> h.offset + h.filesz <= |s.file|)
            && (s.backend != Allocator && s.hasFd && h.filesz < h.memsz ==> PageInFile(h.offset + h.filesz, |s.file|))
  {
    SpanIsPages(h);
    SegmentGeometry(h);
    PageReached(h.offset + h.filesz, |s.file|);
  }

  lemma SomeSpan(phdrs: seq<Phdr>, h: Phdr)
    requires WellFormed(phdrs) && h in phdrs && h.IsLoad() && Spans(h)
    ensures ReservationOf(phdrs).len > 0
  {
    ReservationIsTight(phdrs);
    SpanIsPages(h);
  }

  /** Empty segments in one page reserve nothing. */
  lemma NoSpan(phdrs: seq<Phdr>, low: Phdr)
    requires WellFormed(phdrs) && low in phdrs && low.IsLoad()
    requires forall h :: h in phdrs && h.IsLoad() ==> !Spans(h) && SamePage(h, low)
    ensures ReservationOf(phdrs).len == 0
  {
    var i := LowestFound(phdrs);
    HighestFound(phdrs);
    assert phdrs[i] in phdrs;
    forall h | h in phdrs && h.IsLoad() ensures h.vaddr == low.vaddr && h.memsz == 0 {
      assert !Spans(h) && SamePage(h, low) && !Spans(low);
    }
    PageBounds(low.vaddr, low.vaddr);
  }

  /** The reservation keeps the file range of the lowest segment, at the start of its page. */
  lemma LowestKept(phdrs: seq<Phdr>, i: nat)
    requires WellFormed(phdrs) && IsLowest(phdrs, i)
    ensures ReservationOf(phdrs).offset == phdrs[i].offset && ReservationOf(phdrs).filesz == phdrs[i].filesz
    ensures ReservationOf(phdrs).min == phdrs[i].vaddr - phdrs[i].vaddr % PAGE
  {
    var j := LowestFound(phdrs);
    assert phdrs[j].vaddr == phdrs[i].vaddr;
    assert i == j;
  }

  /** An object whose requests the kernel grants is loaded if and only if its headers say it can be. */
  lemma LoadsExactly(s: Source, isDylib: bool, phdrs: seq<Phdr>, i: nat)
    requires WellFormed(phdrs) && IsLowest(phdrs, i) && forall q :: !s.denies(q)
    ensures ReservationOf(phdrs).len >= 0 && Above(Segments(s, isDylib, ReservationOf(phdrs)), phdrs)
    ensures Accepted(s, isDylib, phdrs) <==> Loads(s, phdrs, phdrs[i])
  {
    var low := phdrs[i];
    assert low in phdrs;
    ReservationIsTight(phdrs);
    LowestKept(phdrs, i);
    var segs := Segments(s, isDylib, ReservationOf(phdrs));
    forall h | h in phdrs && h.IsLoad()
      ensures Mappable(segs, h) <==> !SamePage(h, low)
      ensures SegmentAccepted(s, segs, h) <==>
              && (s.backend != Allocator ==> Spans(h))
              && (s.backend == Allocator || !s.hasFd ==> h.offset + h.filesz <= |s.file|)
              && (s.backend != Allocator && s.hasFd && h.filesz < h.memsz ==> PageInFile(h.offset + h.filesz, |s.file|))
    {
      StartsAgree(h, low);
      SegmentLoads(s, segs, h);
    }
    if h :| h in phdrs && h.IsLoad() && Spans(h) {
      SomeSpan(phdrs, h);
    } else if forall h :: h in phdrs && h.IsLoad() ==> SamePage(h, low) {
      NoSpan(phdrs, low);
    }
  }

  /** A denied request for a segment's pages, or for the whole range, stops the load. */
  lemma DenialStops(s: Source, isDylib: bool, phdrs: seq<Phdr>, h: Phdr)
    requires WellFormed(phdrs) && ReservationOf(phdrs).len >= 0 && s.backend != Allocator
    requires Above(Segments(s, isDylib, ReservationOf(phdrs)), phdrs)
    requires var segs := Segments(s, isDylib, ReservationOf(phdrs));
             || s.denies(Map(segs.memory, segs.len))
             || (!s.hasFd && s.denies(Protect(segs.memory, segs.len)))
             || (h in phdrs && Mappable(segs, h)
                 && (s.denies(Map(segs.Addr(h.PageStart()), h.PageEnd() - h.PageStart()))
                     || (!s.hasFd && s.denies(Protect(segs.Addr(h.PageStart()), h.PageEnd() - h.PageStart())))))
    ensures !Accepted(s, isDylib, phdrs)
  {
  }

  /** A link-time address of the object, in memory: the range begins at the page of the lowest segment. It
      is put where the system or the allocator answers; without relocation in an allocated block, where it
      was linked. */
  function Address(s: Source, isDylib: bool, low: Phdr, v: nat): int {
    var start := low.vaddr - low.vaddr % 0x1000;
    (if s.backend == Allocator && !isDylib then start else s.place) + (v - start)
  }

  lemma AddressIs(s: Source, isDylib: bool, phdrs: seq<Phdr>, i: nat, v: nat)
    requires WellFormed(phdrs) && IsLowest(phdrs, i) && ReservationOf(phdrs).len >= 0 && v >= ReservationOf(phdrs).min
    ensures Segments(s, isDylib, ReservationOf(phdrs)).Addr(v) == Address(s, isDylib, phdrs[i], v)
  {
    LowestKept(phdrs, i);
  }

  /** The headers of an ordinary object: file parts in the file and in pages of their own, and a lowest
      segment that begins a page and has no bss. */
  predicate Ordinary(s: Source, phdrs: seq<Phdr>, low: Phdr) {
    && WellFormed(phdrs) && PageDisjointAll(phdrs) && AllInFile(s, phdrs)
    && (forall h :: h in phdrs && h.IsLoad() ==> Spans(h))
    && low.offset % 0x1000 == 0 && low.filesz == low.memsz
  }

  lemma OrdinaryLoads(s: Source, phdrs: seq<Phdr>, i: nat)
    requires IsLowest(phdrs, i) && Ordinary(s, phdrs, phdrs[i])
    ensures Loads(s, phdrs, phdrs[i])
  {
    assert phdrs[i] in phdrs;
    forall h | h in phdrs && h.IsLoad() ensures PageInFile(h.offset + h.filesz, |s.file|) {
    }
  }

  /** Byte k of a segment is in memory: from the file, or a zero. */
  ghost predicate ByteLoaded(m: Memory, s: Source, isDylib: bool, low: Phdr, h: Phdr, k: nat)
    requires h.offset + h.filesz <= |s.file|
  {
    var a := Address(s, isDylib, low, h.vaddr + k);
    a >= 0 && At(m, a) == Some(if k < h.filesz then s.file[h.offset + k] else 0)
  }

  lemma OrdinarySafe(s: Source, isDylib: bool, phdrs: seq<Phdr>, i: nat)
    requires IsLowest(phdrs, i) && Ordinary(s, phdrs, phdrs[i]) && forall q :: !s.denies(q)
    ensures ReservationOf(phdrs).len >= 0 && LowestHeadersSafe(s, isDylib, phdrs)
  {
    var low := phdrs[i];
    assert low in phdrs;
    LowestKept(phdrs, i);
    SomeSpan(phdrs, low);
    forall h | h in phdrs && h.IsLoad() && h.PageStart() == ReservationOf(phdrs).min
      ensures LowestSafe(s, isDylib, h, ReservationOf(phdrs))
    {
      assert h == low || PageDisjoint(h, low);
    }
  }

  /** Nothing outside the range changes. */
  lemma LoadFrame(m: Memory, s: Source, isDylib: bool, phdrs: seq<Phdr>, a: nat)
    requires WellFormed(phdrs) && ReservationOf(phdrs).len >= 0
    requires Above(Segments(s, isDylib, ReservationOf(phdrs)), phdrs)
    requires var segs := Segments(s, isDylib, ReservationOf(phdrs)); a < segs.memory || segs.memory + segs.len <= a
    ensures At(Loaded(m, s, isDylib, phdrs), a) == At(m, a)
  {
    ReservationIsTight(phdrs);
    var r := ReservationOf(phdrs);
    var segs := Segments(s, isDylib, r);
    var p := MappedPatch(s, segs.memory, r.len, r.offset, r.filesz);
    assert At(Reserved(m, s, isDylib, r), a) == After(At(m, a), CellAt(p, a));
    forall q | q in SegmentPatches(s, segs, phdrs) ensures !Covers(q, a) {
      PatchIsSegment(s, segs, phdrs, q);
      var h :| h in phdrs && Mappable(segs, h) && q == SegmentPatch(s, segs, h);
    }
    ApplyAllMiss(Reserved(m, s, isDylib, r), SegmentPatches(s, segs, phdrs), a);
  }

  lemma ByteFromImage(m: Memory, s: Source, isDylib: bool, low: Phdr, h: Phdr, at: nat, k: nat)
    requires SegmentImage(m, at, h, s.file) && k < h.memsz && at == Address(s, isDylib, low, h.vaddr)
    ensures ByteLoaded(m, s, isDylib, low, h, k)
  {
    assert ImageByte(m, at, h, s.file, k);
  }

  lemma OrdinaryImages(m: Memory, s: Source, isDylib: bool, phdrs: seq<Phdr>, i: nat)
    requires IsLowest(phdrs, i) && Ordinary(s, phdrs, phdrs[i]) && forall q :: !s.denies(q)
    ensures ReservationOf(phdrs).len >= 0 && Above(Segments(s, isDylib, ReservationOf(phdrs)), phdrs)
    ensures forall h :: h in phdrs && h.IsLoad() ==>
              SegmentImage(Loaded(m, s, isDylib, phdrs), Segments(s, isDylib, ReservationOf(phdrs)).Addr(h.vaddr), h, s.file)
  {
    OrdinarySafe(s, isDylib, phdrs, i);
    ImageCorrect(m, s, isDylib, phdrs);
  }

  lemma OrdinaryByte(m: Memory, s: Source, isDylib: bool, phdrs: seq<Phdr>, i: nat, h: Phdr, k: nat)
    requires IsLowest(phdrs, i) && Ordinary(s, phdrs, phdrs[i]) && forall q :: !s.denies(q)
    requires h in phdrs && h.IsLoad() && k < h.memsz
    ensures ReservationOf(phdrs).len >= 0 && Above(Segments(s, isDylib, ReservationOf(phdrs)), phdrs)
    ensures ByteLoaded(Loaded(m, s, isDylib, phdrs), s, isDylib, phdrs[i], h, k)
  {
    OrdinaryImages(m, s, isDylib, phdrs, i);
    PageBounds(h.vaddr, 0);
    AddressIs(s, isDylib, phdrs, i, h.vaddr);
    ByteFromImage(Loaded(m, s, isDylib, phdrs), s, isDylib, phdrs[i], h, Segments(s, isDylib, ReservationOf(phdrs)).Addr(h.vaddr), k);
  }

  /** `load_impl` on an ordinary object that the kernel grants: it loads, with any backend; every byte of
      every segment is at its address, from the file or zero; and memory outside the range is untouched. */
  method LoadOrdinary(space: AddressSpace, s: Source, isDylib: bool, phdrs: seq<Phdr>, ghost i: nat) returns (r: Result<ElfSegments>)
    requires IsLowest(phdrs, i) && Ordinary(s, phdrs, phdrs[i]) && forall q :: !s.denies(q)
    requires ReservationOf(phdrs).len >= 0
    requires s.backend == Allocator ==>
               Mapped(space.mem, Segments(s, isDylib, ReservationOf(phdrs)).memory, ReservationOf(phdrs).len)
    modifies space
    ensures r.Ok?
    ensures forall h, k: nat {:trigger ByteLoaded(space.mem, s, isDylib, phdrs[i], h, k)} ::
              h in phdrs && h.IsLoad() && k < h.memsz ==> ByteLoaded(space.mem, s, isDylib, phdrs[i], h, k)
    ensures forall a: nat {:trigger At(space.mem, a)} ::
              a < r.value.memory || r.value.memory + r.value.len <= a ==> At(space.mem, a) == At(old(space.mem), a)
  {
    ghost var m0 := space.mem;
    assert Accepted(s, isDylib, phdrs) by {
      OrdinaryLoads(s, phdrs, i);
      LoadsExactly(s, isDylib, phdrs, i);
    }
    r := space.LoadImpl(s, isDylib, phdrs);
    forall h, k: nat {:trigger ByteLoaded(space.mem, s, isDylib, phdrs[i], h, k)} | h in phdrs && h.IsLoad() && k < h.memsz
      ensures ByteLoaded(space.mem, s, isDylib, phdrs[i], h, k)
    {
      OrdinaryByte(m0, s, isDylib, phdrs, i, h, k);
    }
    forall a: nat {:trigger At(space.mem, a)} | a < r.value.memory || r.value.memory + r.value.len <= a
      ensures At(space.mem, a) == At(m0, a)
    {
      LoadFrame(m0, s, isDylib, phdrs, a);
    }
  }
}
