/** What loading leaves in memory, against the image the program headers describe:
    p_filesz bytes of the file, then zeros up to p_memsz. */
module SegmentImages {
  import opened Words
  import opened Memories
  import opened Loader
  import opened ElfHeaders

  ghost predicate ImageByte(m: Memory, at: nat, h: Phdr, file: seq<Byte>, k: nat)
    requires h.offset + h.filesz <= |file|
  {
    At(m, at + k) == Some(if k < h.filesz then file[h.offset + k] else 0)
  }

  /** The image of one segment starting at address `at` (gABI chapter 5, "Program Header"). */
  ghost predicate SegmentImage(m: Memory, at: nat, h: Phdr, file: seq<Byte>) {
    && h.offset + h.filesz <= |file|
    && forall k: nat :: k < h.memsz ==> ImageByte(m, at, h, file, k)
  }

  predicate PageDisjoint(g: Phdr, h: Phdr) {
    && g.PageStart() != h.PageStart()
    && (g.PageEnd() <= h.PageStart() || h.PageEnd() <= g.PageStart())
  }

  predicate PageDisjointAll(phdrs: seq<Phdr>) {
    forall g, h :: g in phdrs && h in phdrs && g.IsLoad() && h.IsLoad() ==> g == h || PageDisjoint(g, h)
  }

  predicate AllInFile(s: Source, phdrs: seq<Phdr>) {
    forall h :: h in phdrs && h.IsLoad() ==> InFile(s, h)
  }

  lemma {:induction false} PatchIsSegment(s: Source, segs: ElfSegments, phdrs: seq<Phdr>, p: Patch)
    requires Above(segs, phdrs)
    ensures p in SegmentPatches(s, segs, phdrs)
            <==> exists h :: h in phdrs && Mappable(segs, h) && p == SegmentPatch(s, segs, h)
  {
    if phdrs != [] {
      PatchIsSegment(s, segs, phdrs[1..], p);
      assert forall h :: h in phdrs <==> h == phdrs[0] || h in phdrs[1..];
    }
  }

  lemma SegmentsCompatible(s: Source, segs: ElfSegments, phdrs: seq<Phdr>)
    requires WellFormed(phdrs) && Above(segs, phdrs) && PageDisjointAll(phdrs)
    ensures Compatible(SegmentPatches(s, segs, phdrs))
  {
    var ps := SegmentPatches(s, segs, phdrs);
    forall p, q | p in ps && q in ps ensures p == q || Disjoint(p, q) {
      PatchIsSegment(s, segs, phdrs, p);
      PatchIsSegment(s, segs, phdrs, q);
      var g :| g in phdrs && Mappable(segs, g) && p == SegmentPatch(s, segs, g);
      var h :| h in phdrs && Mappable(segs, h) && q == SegmentPatch(s, segs, h);
      assert g == h || PageDisjoint(g, h);
    }
  }

  /** Every byte of a mapped segment's pages is what its own patch says, whatever else is loaded. */
  lemma MappedByte(m: Memory, s: Source, segs: ElfSegments, phdrs: seq<Phdr>, h: Phdr, a: nat)
    requires WellFormed(phdrs) && PageDisjointAll(phdrs) && Above(segs, phdrs)
    requires h in phdrs && Mappable(segs, h) && segs.offset <= h.PageStart() && Covers(SegmentPatch(s, segs, h), a)
    ensures At(ApplyAll(m, SegmentPatches(s, segs, phdrs)), a) == After(At(m, a), CellAt(SegmentPatch(s, segs, h), a))
  {
    var p, ps := SegmentPatch(s, segs, h), SegmentPatches(s, segs, phdrs);
    SegmentsCompatible(s, segs, phdrs);
    assert p in ps by {
      PatchIsSegment(s, segs, phdrs, p);
    }
    ApplyAllHit(m, ps, p, a);
  }

  lemma SegmentCellIsImage(s: Source, h: Phdr, skew: nat, k: nat)
    requires WellFormedSegment(h) && InFile(s, h) && k < h.memsz && skew == h.vaddr - h.PageStart()
    ensures SegmentCell(s, h, skew + k)
            == Put(if k < h.filesz then s.file[h.offset + k] else 0)
  {
    SegmentGeometry(h);
  }

  /** A mapped segment always carries its image. */
  lemma MappedImage(m: Memory, s: Source, segs: ElfSegments, phdrs: seq<Phdr>, h: Phdr)
    requires WellFormed(phdrs) && PageDisjointAll(phdrs) && Above(segs, phdrs)
    requires h in phdrs && Mappable(segs, h) && InFile(s, h)
    ensures segs.offset <= h.vaddr
    ensures SegmentImage(ApplyAll(m, SegmentPatches(s, segs, phdrs)), segs.Addr(h.vaddr), h, s.file)
  {
    PageBounds(h.vaddr, 0);
    forall k: nat | k < h.memsz
      ensures ImageByte(ApplyAll(m, SegmentPatches(s, segs, phdrs)), segs.Addr(h.vaddr), h, s.file, k)
    {
      MappedImageByte(m, s, segs, phdrs, h, k);
    }
  }

  lemma MappedImageByte(m: Memory, s: Source, segs: ElfSegments, phdrs: seq<Phdr>, h: Phdr, k: nat)
    requires WellFormed(phdrs) && PageDisjointAll(phdrs) && Above(segs, phdrs)
    requires h in phdrs && Mappable(segs, h) && InFile(s, h) && k < h.memsz && segs.offset <= h.vaddr
    ensures ImageByte(ApplyAll(m, SegmentPatches(s, segs, phdrs)), segs.Addr(h.vaddr), h, s.file, k)
  {
    var a := segs.Addr(h.vaddr) + k;
    PatchIsImage(s, segs, h, k);
    MappedByte(m, s, segs, phdrs, h, a);
  }

  /** Within its patch a segment's bytes are those of its image. */
  lemma PatchIsImage(s: Source, segs: ElfSegments, h: Phdr, k: nat)
    requires WellFormedSegment(h) && InFile(s, h) && k < h.memsz && segs.offset <= h.PageStart() && segs.offset <= h.vaddr
    ensures Covers(SegmentPatch(s, segs, h), segs.Addr(h.vaddr) + k)
    ensures CellAt(SegmentPatch(s, segs, h), segs.Addr(h.vaddr) + k) == Put(if k < h.filesz then s.file[h.offset + k] else 0)
  {
    var skew := SegmentSkew(segs, h, k);
    SegmentCellIsImage(s, h, skew, k);
    assert SegmentPatch(s, segs, h).cells[skew + k] == SegmentCell(s, h, skew + k);
  }

  lemma SegmentSkew(segs: ElfSegments, h: Phdr, k: nat) returns (skew: nat)
    requires segs.offset <= h.PageStart() && k < h.memsz
    ensures skew == h.vaddr - h.PageStart() && skew + k < h.PageEnd() - h.PageStart()
    ensures segs.Addr(h.vaddr) + k == segs.Addr(h.PageStart()) + (skew + k)
  {
    PageBounds(h.vaddr, 0);
    PageBounds(h.vaddr + h.memsz, 0);
    skew := h.vaddr - h.PageStart();
  }

  // ----- the lowest segment

  lemma LowestReservation(phdrs: seq<Phdr>, h: Phdr)
    requires WellFormed(phdrs) && PageDisjointAll(phdrs) && ReservationOf(phdrs).len >= 0
    requires h in phdrs && h.IsLoad() && h.PageStart() == ReservationOf(phdrs).min
    ensures ReservationOf(phdrs).offset == h.offset && ReservationOf(phdrs).filesz == h.filesz
    ensures h.vaddr + h.memsz <= ReservationOf(phdrs).min + ReservationOf(phdrs).len
  {
    var i := LowestFound(phdrs);
    assert phdrs[i] in phdrs;
    assert phdrs[i].PageStart() == h.PageStart();
    ReservationIsTight(phdrs);
  }

  /** No other segment reaches into the lowest segment's pages. */
  lemma LowestUntouched(m: Memory, s: Source, segs: ElfSegments, phdrs: seq<Phdr>, h: Phdr, a: nat)
    requires WellFormed(phdrs) && PageDisjointAll(phdrs) && Above(segs, phdrs)
    requires h in phdrs && h.IsLoad() && h.PageStart() == segs.offset
    requires segs.Addr(h.PageStart()) <= a < segs.Addr(h.PageEnd())
    ensures At(ApplyAll(m, SegmentPatches(s, segs, phdrs)), a) == At(m, a)
  {
    forall q | q in SegmentPatches(s, segs, phdrs) ensures !Covers(q, a) {
      PatchIsSegment(s, segs, phdrs, q);
      var g :| g in phdrs && Mappable(segs, g) && q == SegmentPatch(s, segs, g);
      assert PageDisjoint(g, h);
    }
    ApplyAllMiss(m, SegmentPatches(s, segs, phdrs), a);
  }

  /** The lowest segment has only what the reservation mapping put there. */
  lemma LowestByte(m: Memory, s: Source, segs: ElfSegments, phdrs: seq<Phdr>, h: Phdr, k: nat)
    requires WellFormed(phdrs) && PageDisjointAll(phdrs) && Above(segs, phdrs)
    requires h in phdrs && h.IsLoad() && h.PageStart() == segs.offset && h.vaddr + h.memsz <= segs.offset + segs.len && k < h.memsz
    ensures segs.offset <= h.vaddr
    ensures var p := MappedPatch(s, segs.memory, segs.len, h.offset, h.filesz);
            var a := segs.Addr(h.vaddr) + k;
            At(ApplyAll(Apply(m, p), SegmentPatches(s, segs, phdrs)), a)
            == After(At(m, a), MappedCell(s, h.offset, h.filesz, h.vaddr % PAGE + k))
  {
    var skew := SegmentSkew(segs, h, k);
    var p := MappedPatch(s, segs.memory, segs.len, h.offset, h.filesz);
    ReservedByte(m, s, segs, h, skew + k);
    LowestUntouched(Apply(m, p), s, segs, phdrs, h, segs.Addr(h.vaddr) + k);
  }

  lemma ReservedByte(m: Memory, s: Source, segs: ElfSegments, h: Phdr, k: nat)
    requires k < segs.len
    ensures var p := MappedPatch(s, segs.memory, segs.len, h.offset, h.filesz);
            At(Apply(m, p), segs.memory + k) == After(At(m, segs.memory + k), MappedCell(s, h.offset, h.filesz, k))
  {
  }

  /** A byte of the file that is zero in every file with these headers. */
  predicate FixedZero(file: seq<Byte>, pos: nat) {
    pos < |file| && HeaderByte(file, pos) && file[pos] == 0
  }

  /** A position whose mapped byte is zero for every file with these headers. */
  predicate ReadsZero(file: seq<Byte>, pos: nat) {
    FixedZero(file, pos) || |file| <= pos < PageUp(|file|)
  }

  /** When the lowest segment comes out right for every file with these headers and every earlier memory:
      a test on the headers that a caller can make before loading. The reservation must be accepted. A
      file mapping then needs a bss that lies over zeros, past the end of the file or in the headers; an
      anonymous copy needs an aligned start, or no file bytes but zeros of the headers; an allocated block
      needs to have no bss, and an aligned start or no file bytes. */
  predicate LowestSafe(s: Source, isDylib: bool, h: Phdr, r: Reservation)
    requires r.len >= 0
  {
    && ReservationAccepted(s, isDylib, r)
    && if s.backend == Allocator then
         h.filesz == h.memsz && (h.vaddr % PAGE == 0 || h.filesz == 0)
       else if s.hasFd then
         forall pos :: h.offset + h.filesz <= pos < h.offset + h.memsz ==> ReadsZero(s.file, pos)
       else
         h.vaddr % PAGE == 0 || forall pos :: h.offset <= pos < h.offset + h.filesz ==> FixedZero(s.file, pos)
  }

  ghost predicate BlockMapped(m: Memory, s: Source, isDylib: bool, r: Reservation)
    requires r.len >= 0
  {
    s.backend == Allocator ==> Mapped(m, Segments(s, isDylib, r).memory, r.len)
  }

  ghost predicate LowestRight(m: Memory, s: Source, isDylib: bool, phdrs: seq<Phdr>, h: Phdr)
    requires WellFormed(phdrs) && h in phdrs && h.IsLoad()
  {
    ReservationIsTight(phdrs);
    && ReservationAccepted(s, isDylib, ReservationOf(phdrs))
    && SegmentImage(Loaded(m, s, isDylib, phdrs), Segments(s, isDylib, ReservationOf(phdrs)).Addr(h.vaddr), h, s.file)
  }

  /** The image is right for every file that carries the headers of s.file, and every earlier memory. */
  ghost predicate LowestAlwaysRight(s: Source, isDylib: bool, phdrs: seq<Phdr>, h: Phdr)
    requires WellFormed(phdrs) && h in phdrs && h.IsLoad() && ReservationOf(phdrs).len >= 0
  {
    forall file: seq<Byte>, m: Memory ::
      Variant(file, s.file, phdrs) && BlockMapped(m, s.(file := file), isDylib, ReservationOf(phdrs))
      ==> LowestRight(m, s.(file := file), isDylib, phdrs, h)
  }

  lemma FixedCarriesOver(file: seq<Byte>, base: seq<Byte>, phdrs: seq<Phdr>, pos: nat)
    requires Carries(base, phdrs) && Variant(file, base, phdrs)
    ensures FixedZero(base, pos) ==> FixedZero(file, pos)
    ensures ReadsZero(base, pos) ==> ReadsZero(file, pos)
  {
    VariantExact(file, base, phdrs);
    SameHeader(file, base);
    assert HeaderByte(file, pos) <==> HeaderByte(base, pos);
  }

  /** The test gives the same answer for every file with the same headers. */
  lemma SafetyCarriesOver(s: Source, isDylib: bool, phdrs: seq<Phdr>, h: Phdr, r: Reservation, file: seq<Byte>)
    requires r.len >= 0 && Carries(s.file, phdrs) && Variant(file, s.file, phdrs) && LowestSafe(s, isDylib, h, r)
    ensures LowestSafe(s.(file := file), isDylib, h, r)
  {
    forall pos: nat
      ensures FixedZero(s.file, pos) ==> FixedZero(file, pos)
      ensures ReadsZero(s.file, pos) ==> ReadsZero(file, pos)
    {
      FixedCarriesOver(file, s.file, phdrs, pos);
    }
    var t := s.(file := file);
    assert ReservationAccepted(t, isDylib, r);
    if s.hasFd && s.backend != Allocator {
      forall pos | h.offset + h.filesz <= pos < h.offset + h.memsz ensures ReadsZero(t.file, pos) {
        assert ReadsZero(s.file, pos);
      }
    } else if s.backend != Allocator && h.vaddr % PAGE != 0 {
      forall pos | h.offset <= pos < h.offset + h.filesz ensures FixedZero(t.file, pos) {
        assert FixedZero(s.file, pos);
      }
    }
  }

  lemma SafeCell(s: Source, isDylib: bool, h: Phdr, r: Reservation, before: Option<Byte>, k: nat)
    requires WellFormedSegment(h) && InFile(s, h) && r.len >= 0 && r.offset == h.offset && r.filesz == h.filesz
    requires LowestSafe(s, isDylib, h, r) && k < h.memsz
    ensures After(before, MappedCell(s, h.offset, h.filesz, h.vaddr % PAGE + k))
            == Some(if k < h.filesz then s.file[h.offset + k] else 0)
  {
    if !s.Copies() && k >= h.filesz {
      assert ReadsZero(s.file, h.offset + k);
    } else if s.Copies() && s.backend != Allocator && h.vaddr % PAGE != 0 && k < h.filesz {
      assert FixedZero(s.file, h.offset + k);
      assert h.vaddr % PAGE + k < h.filesz ==> FixedZero(s.file, h.offset + (h.vaddr % PAGE + k));
    }
  }

  lemma SafeLowestImage(m: Memory, s: Source, isDylib: bool, segs: ElfSegments, phdrs: seq<Phdr>, h: Phdr, r: Reservation)
    requires WellFormed(phdrs) && PageDisjointAll(phdrs) && Above(segs, phdrs) && InFile(s, h)
    requires h in phdrs && h.IsLoad() && h.PageStart() == segs.offset && h.vaddr + h.memsz <= segs.offset + segs.len
    requires r.len >= 0 && r.offset == h.offset && r.filesz == h.filesz && LowestSafe(s, isDylib, h, r)
    ensures segs.offset <= h.vaddr
    ensures var p := MappedPatch(s, segs.memory, segs.len, h.offset, h.filesz);
            SegmentImage(ApplyAll(Apply(m, p), SegmentPatches(s, segs, phdrs)), segs.Addr(h.vaddr), h, s.file)
  {
    PageBounds(h.vaddr, 0);
    var p := MappedPatch(s, segs.memory, segs.len, h.offset, h.filesz);
    var after := ApplyAll(Apply(m, p), SegmentPatches(s, segs, phdrs));
    forall k: nat | k < h.memsz ensures ImageByte(after, segs.Addr(h.vaddr), h, s.file, k) {
      LowestByte(m, s, segs, phdrs, h, k);
      SafeCell(s, isDylib, h, r, At(m, segs.Addr(h.vaddr) + k), k);
    }
  }

  lemma SafeLowestIsRight(m: Memory, s: Source, isDylib: bool, phdrs: seq<Phdr>, h: Phdr)
    requires WellFormed(phdrs) && PageDisjointAll(phdrs) && ReservationOf(phdrs).len >= 0
    requires h in phdrs && h.IsLoad() && h.PageStart() == ReservationOf(phdrs).min && InFile(s, h)
    requires LowestSafe(s, isDylib, h, ReservationOf(phdrs))
    ensures LowestRight(m, s, isDylib, phdrs, h)
  {
    ReservationIsTight(phdrs);
    LowestReservation(phdrs, h);
    SafeLowestImage(m, s, isDylib, Segments(s, isDylib, ReservationOf(phdrs)), phdrs, h, ReservationOf(phdrs));
  }

  /** A block whose bytes are all b. */
  function Filled(at: nat, len: nat, b: Byte): (m: Memory)
    ensures forall a: nat {:trigger At(m, a)} :: at <= a < at + len ==> At(m, a) == Some(b)
    decreases len
  {
    if len == 0 then map[]
    else
      var rest: Memory := Filled(at, len - 1, b);
      var all: Memory := rest[at + (len - 1) := b];
      assert forall a: nat :: At(all, a) == if a == at + (len - 1) then Some(b) else At(rest, a);
      all
  }

  /** The last position of a range that is not a zero of the headers. */
  lemma LastFree(file: seq<Byte>, lo: nat, hi: nat) returns (pos: nat)
    requires lo <= hi && exists p :: lo <= p < hi && !FixedZero(file, p)
    ensures lo <= pos < hi && !FixedZero(file, pos) && forall p :: pos < p < hi ==> FixedZero(file, p)
    decreases hi - lo
  {
    if !FixedZero(file, hi - 1) {
      pos := hi - 1;
    } else {
      pos := LastFree(file, lo, hi - 1);
    }
  }

  /** A file with the headers of s.file, differing from it in at most one byte. */
  ghost predicate NearVariant(file: seq<Byte>, base: seq<Byte>, phdrs: seq<Phdr>) {
    && Variant(file, base, phdrs)
    && (file == base || exists pos :: 0 <= pos < |base| && !HeaderByte(base, pos) && file == base[pos := 1])
  }

  /** The file, the earlier content and the byte of the segment that show an unsafe header. */
  lemma WrongByte(s: Source, isDylib: bool, phdrs: seq<Phdr>, h: Phdr, r: Reservation)
    returns (file: seq<Byte>, fill: Byte, k: nat)
    requires WellFormedSegment(h) && InFile(s, h) && r.len >= 0 && r.offset == h.offset && r.filesz == h.filesz
    requires Carries(s.file, phdrs)
    requires ReservationAccepted(s, isDylib, r) && !LowestSafe(s, isDylib, h, r)
    ensures NearVariant(file, s.file, phdrs) && k < h.memsz
    ensures WrongCell(s.(file := file), h, fill, k)
  {
    file, fill := s.file, 0;
    if s.backend == Allocator {
      VariantExact(file, s.file, phdrs);
      fill, k := WrongAllocated(s, h);
    } else if s.hasFd {
      file, k := WrongMapped(s, phdrs, h);
    } else {
      file, k := WrongCopied(s, phdrs, h);
    }
  }

  /** An allocated block keeps its earlier content in the bss, and at the end of a shifted copy. */
  lemma WrongAllocated(s: Source, h: Phdr) returns (fill: Byte, k: nat)
    requires s.backend == Allocator && InFile(s, h) && h.filesz <= h.memsz
    requires h.filesz < h.memsz || (h.vaddr % PAGE != 0 && h.filesz > 0)
    ensures k < h.memsz && WrongCell(s, h, fill, k)
  {
    k := if h.filesz < h.memsz then h.filesz else h.filesz - 1;
    var expected: Byte := if k < h.filesz then s.file[h.offset + k] else 0;
    fill := if expected == 0 then 1 else 0;
  }

  /** A file mapping shows the file in the bss. */
  lemma WrongMappedCell(s: Source, h: Phdr, file: seq<Byte>, k: nat)
    requires s.backend != Allocator && s.hasFd && InFile(s, h) && |file| == |s.file| && h.vaddr % PAGE == 0
    requires h.filesz <= k && !ReadsZero(s.file, h.offset + k)
    requires h.offset + k < |file| ==> file[h.offset + k] != 0
    ensures WrongCell(s.(file := file), h, 0, k)
  {
    var pos := h.offset + k;
    assert MappedCell(s.(file := file), h.offset, h.filesz, k) == FileCell(file, pos);
    assert pos < |file| || PageUp(|file|) <= pos;
  }

  /** Byte k of the lowest segment, over earlier content `fill`, is not the image's. */
  ghost predicate WrongCell(s: Source, h: Phdr, fill: Byte, k: nat)
    requires InFile(s, h)
  {
    After(Some(fill), MappedCell(s, h.offset, h.filesz, h.vaddr % PAGE + k))
    != Some(if k < h.filesz then s.file[h.offset + k] else 0)
  }

  /** The file with the byte at pos made nonzero, where the headers leave that open. */
  lemma MarkIfFree(base: seq<Byte>, phdrs: seq<Phdr>, pos: nat) returns (file: seq<Byte>)
    requires Carries(base, phdrs) && !FixedZero(base, pos)
    ensures NearVariant(file, base, phdrs)
    ensures pos < |base| ==> file[pos] != 0
    ensures forall p :: 0 <= p < |file| && p != pos ==> file[p] == base[p]
  {
    file := base;
    VariantExact(file, base, phdrs);
    if pos < |base| && !HeaderByte(base, pos) {
      file := base[pos := 1];
      VariantExact(file, base, phdrs);
    }
  }

  lemma WrongMapped(s: Source, phdrs: seq<Phdr>, h: Phdr) returns (file: seq<Byte>, k: nat)
    requires s.backend != Allocator && s.hasFd && InFile(s, h) && h.vaddr % PAGE == 0 && Carries(s.file, phdrs)
    requires exists pos :: h.offset + h.filesz <= pos < h.offset + h.memsz && !ReadsZero(s.file, pos)
    ensures NearVariant(file, s.file, phdrs) && k < h.memsz && WrongCell(s.(file := file), h, 0, k)
  {
    var pos :| h.offset + h.filesz <= pos < h.offset + h.memsz && !ReadsZero(s.file, pos);
    k := pos - h.offset;
    file := MarkIfFree(s.file, phdrs, pos);
    WrongMappedCell(s, h, file, k);
  }

  lemma WrongCopied(s: Source, phdrs: seq<Phdr>, h: Phdr) returns (file: seq<Byte>, k: nat)
    requires s.backend != Allocator && !s.hasFd && h.vaddr % PAGE != 0 && InFile(s, h) && Carries(s.file, phdrs)
    requires h.filesz <= h.memsz
    requires exists pos :: h.offset <= pos < h.offset + h.filesz && !FixedZero(s.file, pos)
    ensures NearVariant(file, s.file, phdrs) && k < h.memsz && WrongCell(s.(file := file), h, 0, k)
  {
    var pos := LastFree(s.file, h.offset, h.offset + h.filesz);
    k := pos - h.offset;
    file := MarkIfFree(s.file, phdrs, pos);
    WrongCopiedCell(s, h, file, pos);
  }

  /** An anonymous copy that starts inside a page shifts the file bytes up: the last one that is not a
      fixed zero reads as a zero. */
  lemma WrongCopiedCell(s: Source, h: Phdr, file: seq<Byte>, pos: nat)
    requires s.backend != Allocator && !s.hasFd && h.vaddr % PAGE != 0 && InFile(s, h)
    requires h.offset <= pos < h.offset + h.filesz && |s.file| == |file| && file[pos] != 0
    requires forall p :: 0 <= p < |file| && p != pos ==> file[p] == s.file[p]
    requires forall p :: pos < p < h.offset + h.filesz ==> FixedZero(s.file, p)
    ensures WrongCell(s.(file := file), h, 0, pos - h.offset)
  {
    var j := h.vaddr % PAGE + (pos - h.offset);
    if j < h.filesz {
      assert FixedZero(s.file, h.offset + j);
    }
    assert MappedCell(s.(file := file), h.offset, h.filesz, j) == Put(0);
  }

  /** An unsafe lowest header has a file that carries it, and an earlier memory, with which its image is
      wrong; the file differs from the given one in at most one byte, outside the headers. */
  lemma UnsafeLowestFails(s: Source, isDylib: bool, phdrs: seq<Phdr>, h: Phdr) returns (file: seq<Byte>, m: Memory)
    requires WellFormed(phdrs) && PageDisjointAll(phdrs) && ReservationOf(phdrs).len >= 0 && Carries(s.file, phdrs)
    requires h in phdrs && h.IsLoad() && h.PageStart() == ReservationOf(phdrs).min && InFile(s, h)
    requires !LowestSafe(s, isDylib, h, ReservationOf(phdrs))
    ensures NearVariant(file, s.file, phdrs) && BlockMapped(m, s.(file := file), isDylib, ReservationOf(phdrs))
    ensures !LowestRight(m, s.(file := file), isDylib, phdrs, h)
  {
    ReservationIsTight(phdrs);
    LowestReservation(phdrs, h);
    var r := ReservationOf(phdrs);
    var at := Segments(s, isDylib, r).memory;
    if !ReservationAccepted(s, isDylib, r) {
      file, m := s.file, Filled(at, r.len, 0);
      VariantExact(file, s.file, phdrs);
      FilledIsMapped(at, r.len, 0);
    } else {
      var fill: Byte, k: nat;
      file, fill, k := WrongByte(s, isDylib, phdrs, h, r);
      m := Filled(at, r.len, fill);
      FilledIsMapped(at, r.len, fill);
      WrongImage(m, s.(file := file), isDylib, phdrs, h, fill, k);
    }
  }

  lemma FilledIsMapped(at: nat, len: nat, b: Byte)
    ensures Mapped(Filled(at, len, b), at, len)
  {
    forall a | at <= a < at + len ensures a in Filled(at, len, b) {
      assert At(Filled(at, len, b), a) == Some(b);
    }
  }

  lemma WrongImage(m: Memory, s: Source, isDylib: bool, phdrs: seq<Phdr>, h: Phdr, fill: Byte, k: nat)
    requires WellFormed(phdrs) && PageDisjointAll(phdrs) && ReservationOf(phdrs).len >= 0
    requires h in phdrs && h.IsLoad() && h.PageStart() == ReservationOf(phdrs).min && InFile(s, h) && k < h.memsz
    requires m == Filled(Segments(s, isDylib, ReservationOf(phdrs)).memory, ReservationOf(phdrs).len, fill)
    requires WrongCell(s, h, fill, k)
    ensures !LowestRight(m, s, isDylib, phdrs, h)
  {
    ReservationIsTight(phdrs);
    LowestReservation(phdrs, h);
    WrongImageAt(m, s, Segments(s, isDylib, ReservationOf(phdrs)), phdrs, h, fill, k);
  }

  lemma WrongImageAt(m: Memory, s: Source, segs: ElfSegments, phdrs: seq<Phdr>, h: Phdr, fill: Byte, k: nat)
    requires WellFormed(phdrs) && PageDisjointAll(phdrs) && Above(segs, phdrs) && InFile(s, h) && k < h.memsz
    requires h in phdrs && h.IsLoad() && h.PageStart() == segs.offset && h.vaddr + h.memsz <= segs.offset + segs.len
    requires m == Filled(segs.memory, segs.len, fill) && WrongCell(s, h, fill, k)
    ensures segs.offset <= h.vaddr
    ensures var p := MappedPatch(s, segs.memory, segs.len, h.offset, h.filesz);
            !SegmentImage(ApplyAll(Apply(m, p), SegmentPatches(s, segs, phdrs)), segs.Addr(h.vaddr), h, s.file)
  {
    LowestByte(m, s, segs, phdrs, h, k);
    var p := MappedPatch(s, segs.memory, segs.len, h.offset, h.filesz);
    assert At(m, segs.Addr(h.vaddr) + k) == Some(fill);
    assert !ImageByte(ApplyAll(Apply(m, p), SegmentPatches(s, segs, phdrs)), segs.Addr(h.vaddr), h, s.file, k);
  }

  /** The lowest segment is right for every file with its headers exactly when its header is safe. */
  lemma LowestExact(s: Source, isDylib: bool, phdrs: seq<Phdr>, h: Phdr)
    requires WellFormed(phdrs) && PageDisjointAll(phdrs) && ReservationOf(phdrs).len >= 0 && Carries(s.file, phdrs)
    requires h in phdrs && h.IsLoad() && h.PageStart() == ReservationOf(phdrs).min && InFile(s, h)
    ensures LowestAlwaysRight(s, isDylib, phdrs, h) <==> LowestSafe(s, isDylib, h, ReservationOf(phdrs))
  {
    if LowestSafe(s, isDylib, h, ReservationOf(phdrs)) {
      forall file: seq<Byte>, m: Memory
        | Variant(file, s.file, phdrs) && BlockMapped(m, s.(file := file), isDylib, ReservationOf(phdrs))
        ensures LowestRight(m, s.(file := file), isDylib, phdrs, h)
      {
        SafetyCarriesOver(s, isDylib, phdrs, h, ReservationOf(phdrs), file);
        SafeLowestIsRight(m, s.(file := file), isDylib, phdrs, h);
      }
    } else {
      var file, m := UnsafeLowestFails(s, isDylib, phdrs, h);
    }
  }

  // ----- whole loads

  ghost predicate LowestHeadersSafe(s: Source, isDylib: bool, phdrs: seq<Phdr>)
    requires ReservationOf(phdrs).len >= 0
  {
    forall h :: h in phdrs && h.IsLoad() && h.PageStart() == ReservationOf(phdrs).min
                ==> LowestSafe(s, isDylib, h, ReservationOf(phdrs))
  }

  /** Image correctness: every segment of the object reads as its program header says. */
  lemma ImageCorrect(m: Memory, s: Source, isDylib: bool, phdrs: seq<Phdr>)
    requires WellFormed(phdrs) && PageDisjointAll(phdrs) && AllInFile(s, phdrs) && ReservationOf(phdrs).len >= 0
    requires LowestHeadersSafe(s, isDylib, phdrs)
    ensures Above(Segments(s, isDylib, ReservationOf(phdrs)), phdrs)
    ensures forall h :: h in phdrs && h.IsLoad() ==>
              SegmentImage(Loaded(m, s, isDylib, phdrs), Segments(s, isDylib, ReservationOf(phdrs)).Addr(h.vaddr), h, s.file)
  {
    ReservationIsTight(phdrs);
    var segs := Segments(s, isDylib, ReservationOf(phdrs));
    assert Above(segs, phdrs);
    forall h | h in phdrs && h.IsLoad() ensures segs.offset <= h.vaddr {
      PageBounds(h.vaddr, 0);
    }
    forall h | h in phdrs && h.IsLoad()
      ensures SegmentImage(Loaded(m, s, isDylib, phdrs), segs.Addr(h.vaddr), h, s.file)
    {
      if Mappable(segs, h) {
        MappedImage(Reserved(m, s, isDylib, ReservationOf(phdrs)), s, segs, phdrs, h);
      } else {
        SafeLowestIsRight(m, s, isDylib, phdrs, h);
      }
    }
  }

  /** The three backends, with or without a descriptor, leave the same bytes in every segment. */
  lemma BackendsAgree(m1: Memory, s1: Source, isDylib1: bool, m2: Memory, s2: Source, isDylib2: bool, phdrs: seq<Phdr>, h: Phdr, k: nat)
    requires s1.file == s2.file
    requires WellFormed(phdrs) && PageDisjointAll(phdrs) && AllInFile(s1, phdrs) && ReservationOf(phdrs).len >= 0
    requires LowestHeadersSafe(s1, isDylib1, phdrs) && LowestHeadersSafe(s2, isDylib2, phdrs)
    requires h in phdrs && h.IsLoad() && k < h.memsz
    ensures var r := ReservationOf(phdrs);
            && Above(Segments(s1, isDylib1, r), phdrs) && Above(Segments(s2, isDylib2, r), phdrs)
            && At(Loaded(m1, s1, isDylib1, phdrs), Segments(s1, isDylib1, r).Addr(h.vaddr) + k)
               == At(Loaded(m2, s2, isDylib2, phdrs), Segments(s2, isDylib2, r).Addr(h.vaddr) + k)
  {
    ImageCorrect(m1, s1, isDylib1, phdrs);
    ImageCorrect(m2, s2, isDylib2, phdrs);
    var r := ReservationOf(phdrs);
    assert ImageByte(Loaded(m1, s1, isDylib1, phdrs), Segments(s1, isDylib1, r).Addr(h.vaddr), h, s1.file, k);
    assert ImageByte(Loaded(m2, s2, isDylib2, phdrs), Segments(s2, isDylib2, r).Addr(h.vaddr), h, s2.file, k);
  }

  /** Header order does not matter: the same headers in any order reserve the same range, are
      accepted or refused alike, and leave the same memory, byte for byte. */
  lemma HeaderOrder(m: Memory, s: Source, isDylib: bool, phdrs: seq<Phdr>, shuffled: seq<Phdr>)
    requires WellFormed(phdrs) && PageDisjointAll(phdrs) && ReservationOf(phdrs).len >= 0
    requires forall h :: h in phdrs <==> h in shuffled
    ensures ReservationOf(shuffled) == ReservationOf(phdrs)
    ensures Above(Segments(s, isDylib, ReservationOf(phdrs)), phdrs)
    ensures Above(Segments(s, isDylib, ReservationOf(phdrs)), shuffled)
    ensures Accepted(s, isDylib, shuffled) == Accepted(s, isDylib, phdrs)
    ensures Loaded(m, s, isDylib, shuffled) == Loaded(m, s, isDylib, phdrs)
  {
    assert WellFormed(shuffled) && PageDisjointAll(shuffled);
    ReservationIsTight(phdrs);
    ReservationIsTight(shuffled);
    var r, r' := ReservationOf(phdrs), ReservationOf(shuffled);
    assert CoversAll(r.min, r.min + r.len, shuffled);
    assert CoversAll(r'.min, r'.min + r'.len, phdrs);
    var i := LowestFound(phdrs);
    assert phdrs[i] in phdrs;
    LowestReservation(phdrs, phdrs[i]);
    LowestReservation(shuffled, phdrs[i]);
    assert r == r';
    var segs := Segments(s, isDylib, r);
    forall p ensures p in SegmentPatches(s, segs, phdrs) <==> p in SegmentPatches(s, segs, shuffled) {
      PatchIsSegment(s, segs, phdrs, p);
      PatchIsSegment(s, segs, shuffled, p);
    }
    SegmentsCompatible(s, segs, phdrs);
    OrderFree(Reserved(m, s, isDylib, r), SegmentPatches(s, segs, phdrs), SegmentPatches(s, segs, shuffled));
  }

  lemma BssByte(m: Memory, segs: ElfSegments, h: Phdr, v: nat)
    requires WellFormedSegment(h) && segs.offset <= h.PageStart() && segs.offset <= v
    ensures segs.offset <= h.vaddr
    ensures At(Apply(m, BssPatch(segs, h)), segs.Addr(v))
            == if h.filesz != h.memsz && h.vaddr + h.filesz <= v < h.PageEnd() then Some(0) else At(m, segs.Addr(v))
  {
    SegmentGeometry(h);
    var p := BssPatch(segs, h);
    assert At(Apply(m, p), segs.Addr(v)) == After(At(m, segs.Addr(v)), CellAt(p, segs.Addr(v)));
  }

  /** `fill_bss` clears the segment's own pages after the file bytes and nothing else. */
  lemma BssFrame(m: Memory, segs: ElfSegments, h: Phdr, g: Phdr)
    requires WellFormedSegment(h) && segs.offset <= h.PageStart() && segs.offset <= g.PageStart()
    requires PageDisjoint(g, h)
    ensures forall v :: h.PageStart() <= v < h.vaddr + h.filesz ==>
              At(Apply(m, BssPatch(segs, h)), segs.Addr(v)) == At(m, segs.Addr(v))
    ensures forall v :: g.PageStart() <= v < g.PageEnd() ==>
              At(Apply(m, BssPatch(segs, h)), segs.Addr(v)) == At(m, segs.Addr(v))
    ensures forall v :: h.vaddr + h.filesz <= v < h.vaddr + h.memsz ==>
              At(Apply(m, BssPatch(segs, h)), segs.Addr(v)) == Some(0)
  {
    SegmentGeometry(h);
    PageBounds(h.vaddr + h.memsz, h.PageEnd());
    forall v: nat | segs.offset <= v
      ensures At(Apply(m, BssPatch(segs, h)), segs.Addr(v))
              == if h.filesz != h.memsz && h.vaddr + h.filesz <= v < h.PageEnd() then Some(0) else At(m, segs.Addr(v))
    {
      BssByte(m, segs, h, v);
    }
  }
}
