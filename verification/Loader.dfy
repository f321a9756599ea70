/** Mapping the PT_LOAD segments of an ELF object, over the three `Mmap` backends. */
module Loader {
  import opened Words
  import opened Memories

  const PAGE: nat := 0x1000
  const PT_LOAD: nat := 1

  /** `x & MASK` for the 4096-byte page. */
  function PageDown(x: nat): nat {
    x - x % PAGE
  }

  function PageUp(x: nat): nat {
    PageDown(x + PAGE - 1)
  }

  /** PageDown and PageUp are the greatest and least page boundaries around an address. */
  lemma PageBounds(x: nat, boundary: nat)
    requires boundary % PAGE == 0
    ensures PageDown(x) % PAGE == 0 && PageUp(x) % PAGE == 0
    ensures PageDown(x) <= x < PageDown(x) + PAGE && x <= PageUp(x) < x + PAGE
    ensures boundary <= x <==> boundary <= PageDown(x)
    ensures x <= boundary <==> PageUp(x) <= boundary
  {
  }

  datatype Phdr = Phdr(kind: nat, flags: nat, offset: nat, vaddr: nat, paddr: nat, filesz: nat, memsz: nat, align: nat)
  {
    predicate IsLoad() {
      kind == PT_LOAD
    }

    function PageStart(): nat {
      PageDown(vaddr)
    }

    function PageEnd(): nat {
      PageUp(vaddr + memsz)
    }
  }

  datatype Backend = Libc | Syscall | Allocator

  /** A request that the kernel may turn down for reasons of its own. */
  datatype Request = Map(at: nat, len: nat) | Anonymous(at: nat, len: nat) | Protect(at: nat, len: nat)

  /** The object being loaded: its bytes, whether it offers a file descriptor, the `Mmap`
      implementation in use, the address the system or the allocator answers with when
      no fixed address is imposed, and which requests the kernel turns down. */
  datatype Source = Source(backend: Backend, hasFd: bool, file: seq<Byte>, place: nat, denies: Request -> bool)
  {
    /** `need_copy`: the mapping call leaves copying the bytes to the loader. */
    predicate Copies() {
      backend == Allocator || !hasFd
    }

    /** The allocator backend makes no system calls. */
    predicate Denies(q: Request) {
      backend != Allocator && denies(q)
    }
  }

  /** The errors of a load, and Faulted: a store to unmapped memory, which ends the process. */
  datatype LoadError = MmapFailed | ReadFailed | ProtectFailed | BadHeader | Faulted
  datatype Result<+T> = Ok(value: T) | Err(error: LoadError)

  datatype ElfSegments = ElfSegments(memory: nat, offset: nat, len: nat)
  {
    /** `base() + v` for a link-time address v of the object. */
    function Addr(v: nat): nat
      requires offset <= v
    {
      memory + (v - offset)
    }
  }

  /** The kernel's reasons to refuse a mapping; the syscall flavour drops the offset of an
      anonymous mapping, the libc flavour passes it on. */
  predicate Refuses(s: Source, at: nat, len: nat, offset: nat) {
    || s.Denies(Map(at, len))
    || (s.backend != Allocator && (len == 0 || (offset % PAGE != 0 && (s.hasFd || s.backend == Libc))))
  }

  /** A page of a file mapping: file bytes, zeros up to the end of the last page, nothing beyond. */
  function FileCell(file: seq<Byte>, pos: nat): Cell {
    if pos < |file| then Put(file[pos]) else if pos < PageUp(|file|) then Put(0) else Gone
  }

  /** Byte k of a region after the mapping call and, where the backend asks for it, the copy of
      `filled` bytes found at `offset`. */
  function MappedCell(s: Source, offset: nat, filled: nat, k: nat): Cell {
    if !s.Copies() then FileCell(s.file, offset + k)
    else if k < filled && offset + k < |s.file| then Put(s.file[offset + k])
    else if s.backend == Allocator then Keep
    else Put(0)
  }

  function MappedPatch(s: Source, at: nat, len: nat, offset: nat, filled: nat): (p: Patch)
    ensures p.at == at && |p.cells| == len
    ensures forall k :: 0 <= k < len ==> p.cells[k] == MappedCell(s, offset, filled, k)
  {
    Patch(at, seq(len, k requires 0 <= k < len => MappedCell(s, offset, filled, k)))
  }

  function ZeroPatch(at: nat, len: nat): (p: Patch)
    ensures p.at == at && |p.cells| == len
    ensures forall k :: 0 <= k < len ==> p.cells[k] == Put(0)
  {
    Patch(at, seq(len, k => Put(0)))
  }

  /** What `fill_bss` does: zeros from the end of the file bytes to the end of the last page. */
  function BssPatch(segs: ElfSegments, h: Phdr): Patch
    requires segs.offset <= h.vaddr
  {
    var start := h.vaddr + h.filesz;
    ZeroPatch(segs.Addr(start), if h.filesz == h.memsz || h.PageEnd() < start then 0 else h.PageEnd() - start)
  }

  /** Mapping one segment and clearing its bss, as one patch over the pages it occupies. */
  function SegmentCell(s: Source, h: Phdr, k: nat): Cell {
    if h.filesz != h.memsz && h.vaddr + h.filesz <= h.PageStart() + k then Put(0)
    else MappedCell(s, PageDown(h.offset), h.filesz + h.offset % PAGE, k)
  }

  function SegmentPatch(s: Source, segs: ElfSegments, h: Phdr): (p: Patch)
    requires segs.offset <= h.PageStart()
    ensures p.at == segs.Addr(h.PageStart()) && |p.cells| == h.PageEnd() - h.PageStart()
    ensures forall k :: 0 <= k < |p.cells| ==> p.cells[k] == SegmentCell(s, h, k)
  {
    var len := h.PageEnd() - h.PageStart();
    Patch(segs.Addr(h.PageStart()), seq(len, k requires 0 <= k < len => SegmentCell(s, h, k)))
  }

  /** Smallest start with its file range, and largest end, of the PT_LOAD headers. */
  datatype Extent = Extent(min: nat, max: nat, offset: nat, filesz: nat)

  function Widen(e: Extent, h: Phdr): Extent {
    if !h.IsLoad() then e
    else
      var max := if h.vaddr + h.memsz > e.max then h.vaddr + h.memsz else e.max;
      if h.vaddr < e.min then Extent(h.vaddr, max, h.offset, h.filesz) else e.(max := max)
  }

  function ExtentOf(phdrs: seq<Phdr>): Extent {
    if phdrs == [] then Extent(WORD_SPAN - 1, 0, 0, 0) else Widen(ExtentOf(phdrs[..|phdrs| - 1]), phdrs[|phdrs| - 1])
  }

  /** The reservation `create_segments` asks for. */
  datatype Reservation = Reservation(min: nat, len: int, offset: nat, filesz: nat)

  function ReservationOf(phdrs: seq<Phdr>): Reservation {
    var e := ExtentOf(phdrs);
    Reservation(PageDown(e.min), PageUp(e.max) - PageDown(e.min), e.offset, e.filesz)
  }

  /** What the loader takes from well-formed headers: at least one segment, memory no smaller than
      the file part, offsets congruent to addresses, and ends that do not wrap. */
  predicate WellFormedSegment(h: Phdr) {
    && h.filesz <= h.memsz
    && h.offset % PAGE == h.vaddr % PAGE
    && h.vaddr + h.memsz + PAGE <= WORD_SPAN
  }

  predicate WellFormed(phdrs: seq<Phdr>) {
    && (exists h :: h in phdrs && h.IsLoad())
    && (forall h :: h in phdrs && h.IsLoad() ==> WellFormedSegment(h))
  }

  predicate InFile(s: Source, h: Phdr) {
    h.offset + h.filesz <= |s.file|
  }

  /** The segments the loop maps: all but those starting in the lowest page. */
  predicate Mappable(segs: ElfSegments, h: Phdr) {
    h.IsLoad() && h.PageStart() != segs.offset
  }

  /** `mmap_segment` succeeds: the mapping is made and, where the loader copies, the bytes are there
      and the protection is set. */
  predicate MmapAccepted(s: Source, at: nat, len: nat, offset: nat, filled: nat) {
    && !Refuses(s, at, len, offset)
    && (s.Copies() ==> offset + filled <= |s.file| && !s.Denies(Protect(at, len)))
  }

  /** The bytes that `fill_bss` stores to are mapped: a file mapping has no pages past the file's last. */
  predicate TailInFile(s: Source, h: Phdr) {
    s.Copies() || (h.offset + h.filesz) % PAGE == 0 || h.offset + h.filesz <= PageUp(|s.file|)
  }

  predicate ClearAccepted(s: Source, segs: ElfSegments, h: Phdr)
    requires segs.offset <= h.vaddr
  {
    var zeroEnd := PageUp(h.vaddr + h.filesz);
    zeroEnd < h.PageEnd() ==> !s.Denies(Anonymous(segs.memory + (zeroEnd - segs.offset), h.PageEnd() - zeroEnd))
  }

  /** One turn of the loop succeeds. */
  predicate SegmentAccepted(s: Source, segs: ElfSegments, h: Phdr)
    requires segs.offset <= h.PageStart()
  {
    && MmapAccepted(s, segs.Addr(h.PageStart()), h.PageEnd() - h.PageStart(), PageDown(h.offset), h.filesz + h.offset % PAGE)
    && (h.filesz != h.memsz ==> TailInFile(s, h) && ClearAccepted(s, segs, h))
  }

  predicate ReservationAccepted(s: Source, isDylib: bool, r: Reservation)
    requires r.len >= 0
  {
    MmapAccepted(s, Segments(s, isDylib, r).memory, r.len, r.offset, r.filesz)
  }

  function Segments(s: Source, isDylib: bool, r: Reservation): ElfSegments
    requires r.len >= 0
  {
    ElfSegments(if s.backend == Allocator && !isDylib then r.min else s.place, r.min, r.len)
  }

  predicate Above(segs: ElfSegments, phdrs: seq<Phdr>) {
    forall h :: h in phdrs && h.IsLoad() ==> segs.offset <= h.PageStart()
  }

  function SegmentPatches(s: Source, segs: ElfSegments, phdrs: seq<Phdr>): seq<Patch>
    requires Above(segs, phdrs)
  {
    if phdrs == [] then []
    else
      (if Mappable(segs, phdrs[0]) then [SegmentPatch(s, segs, phdrs[0])] else [])
      + SegmentPatches(s, segs, phdrs[1..])
  }

  function Reserved(m: Memory, s: Source, isDylib: bool, r: Reservation): Memory
    requires r.len >= 0
  {
    Apply(m, MappedPatch(s, Segments(s, isDylib, r).memory, r.len, r.offset, r.filesz))
  }

  /** Memory after loading: the reservation, then every mapped segment in header order. */
  function Loaded(m: Memory, s: Source, isDylib: bool, phdrs: seq<Phdr>): Memory
    requires ReservationOf(phdrs).len >= 0
    requires Above(Segments(s, isDylib, ReservationOf(phdrs)), phdrs)
  {
    var r := ReservationOf(phdrs);
    ApplyAll(Reserved(m, s, isDylib, r), SegmentPatches(s, Segments(s, isDylib, r), phdrs))
  }

  predicate Accepted(s: Source, isDylib: bool, phdrs: seq<Phdr>)
    requires ReservationOf(phdrs).len >= 0
    requires Above(Segments(s, isDylib, ReservationOf(phdrs)), phdrs)
  {
    var segs := Segments(s, isDylib, ReservationOf(phdrs));
    && ReservationAccepted(s, isDylib, ReservationOf(phdrs))
    && (forall h :: h in phdrs && Mappable(segs, h) ==> SegmentAccepted(s, segs, h))
  }

  // ----- the reservation

  ghost predicate IsLowest(phdrs: seq<Phdr>, i: nat) {
    && i < |phdrs| && phdrs[i].IsLoad()
    && (forall j :: 0 <= j < |phdrs| && phdrs[j].IsLoad() ==> phdrs[i].vaddr <= phdrs[j].vaddr)
    && (forall j :: 0 <= j < i && phdrs[j].IsLoad() ==> phdrs[i].vaddr < phdrs[j].vaddr)
  }

  ghost predicate FoundAt(phdrs: seq<Phdr>, i: nat) {
    IsLowest(phdrs, i) && ExtentOf(phdrs).(max := 0) == Extent(phdrs[i].vaddr, 0, phdrs[i].offset, phdrs[i].filesz)
  }

  /** One more header either leaves the lowest one as it is or becomes it. */
  lemma FoundStep(front: seq<Phdr>, last: Phdr, i: nat)
    requires FoundAt(front, i)
    ensures FoundAt(front + [last], if last.IsLoad() && last.vaddr < front[i].vaddr then |front| else i)
  {
    var phdrs := front + [last];
    assert phdrs[..|phdrs| - 1] == front;
    assert ExtentOf(phdrs) == Widen(ExtentOf(front), last);
  }

  lemma FoundFirst(front: seq<Phdr>, last: Phdr)
    requires last.IsLoad() && last.vaddr < WORD_SPAN - 1 && forall h :: h in front ==> !h.IsLoad()
    ensures FoundAt(front + [last], |front|)
  {
    var phdrs := front + [last];
    assert phdrs[..|phdrs| - 1] == front;
    NoLoads(front);
    forall j | 0 <= j < |front| ensures !phdrs[j].IsLoad() {
      assert front[j] in front;
    }
  }

  lemma {:induction false} LowestIn(phdrs: seq<Phdr>) returns (i: nat)
    requires exists h :: h in phdrs && h.IsLoad()
    requires forall h :: h in phdrs && h.IsLoad() ==> h.vaddr < WORD_SPAN - 1
    ensures FoundAt(phdrs, i)
  {
    var n := |phdrs| - 1;
    var front, last := phdrs[..n], phdrs[n];
    assert phdrs == front + [last] && last in phdrs;
    if exists h :: h in front && h.IsLoad() {
      i := LowestIn(front);
      FoundStep(front, last, i);
      i := if last.IsLoad() && last.vaddr < front[i].vaddr then n else i;
    } else {
      FoundFirst(front, last);
      i := n;
    }
  }

  /** The scan finds the first of the lowest segments. */
  lemma LowestFound(phdrs: seq<Phdr>) returns (i: nat)
    requires WellFormed(phdrs)
    ensures IsLowest(phdrs, i)
    ensures ExtentOf(phdrs).(max := 0) == Extent(phdrs[i].vaddr, 0, phdrs[i].offset, phdrs[i].filesz)
  {
    i := LowestIn(phdrs);
  }

  ghost predicate IsHighestEnd(phdrs: seq<Phdr>, end: nat) {
    && (forall h :: h in phdrs && h.IsLoad() ==> h.vaddr + h.memsz <= end)
    && (end == 0 || exists h :: h in phdrs && h.IsLoad() && h.vaddr + h.memsz == end)
  }

  lemma {:induction false} HighestFound(phdrs: seq<Phdr>)
    ensures IsHighestEnd(phdrs, ExtentOf(phdrs).max)
  {
    if phdrs != [] {
      var n := |phdrs| - 1;
      var front, last := phdrs[..n], phdrs[n];
      assert phdrs == front + [last];
      HighestFound(front);
      var e := ExtentOf(front);
      assert e.max != 0 ==> exists h :: h in front && h.IsLoad() && h.vaddr + h.memsz == e.max;
      if e.max != 0 {
        var g :| g in front && g.IsLoad() && g.vaddr + g.memsz == e.max;
        assert g in phdrs;
      }
      assert last in phdrs;
    }
  }

  lemma {:induction false} NoLoads(phdrs: seq<Phdr>)
    requires forall h :: h in phdrs ==> !h.IsLoad()
    ensures ExtentOf(phdrs) == Extent(WORD_SPAN - 1, 0, 0, 0)
  {
    if phdrs != [] {
      NoLoads(phdrs[..|phdrs| - 1]);
      assert phdrs[|phdrs| - 1] in phdrs;
    }
  }

  ghost predicate CoversAll(lo: nat, hi: nat, phdrs: seq<Phdr>) {
    && lo % PAGE == 0 && hi % PAGE == 0
    && (forall h :: h in phdrs && h.IsLoad() ==> lo <= h.vaddr && h.vaddr + h.memsz <= hi)
  }

  /** The reserved range is the smallest page-aligned interval that covers every segment. */
  lemma ReservationIsTight(phdrs: seq<Phdr>)
    requires WellFormed(phdrs)
    ensures var r := ReservationOf(phdrs);
            && r.len >= 0 && CoversAll(r.min, r.min + r.len, phdrs)
            && (forall h :: h in phdrs && h.IsLoad() ==> r.min <= h.PageStart() && h.PageEnd() <= r.min + r.len)
            && (forall lo: nat, hi: nat :: CoversAll(lo, hi, phdrs) ==> lo <= r.min && r.min + r.len <= hi)
  {
    var i := LowestFound(phdrs);
    HighestFound(phdrs);
    var e := ExtentOf(phdrs);
    assert phdrs[i] in phdrs;
    PageBounds(e.min, 0);
    PageBounds(e.max, 0);
    forall h | h in phdrs && h.IsLoad()
      ensures e.min <= h.vaddr && h.vaddr + h.memsz <= e.max
      ensures PageDown(e.min) <= h.PageStart() && h.PageEnd() <= PageUp(e.max)
    {
      var j :| 0 <= j < |phdrs| && phdrs[j] == h;
      PageBounds(h.vaddr, PageDown(e.min));
      PageBounds(h.vaddr + h.memsz, PageUp(e.max));
    }
    forall lo: nat, hi: nat | CoversAll(lo, hi, phdrs) ensures lo <= PageDown(e.min) && PageUp(e.max) <= hi {
      PageBounds(e.min, lo);
      PageBounds(e.max, hi);
    }
  }

  method CreateSegments(phdrs: seq<Phdr>) returns (r: Reservation)
    requires WellFormed(phdrs)
    ensures r == ReservationOf(phdrs) && r.len >= 0
  {
    var minVaddr: nat, maxVaddr: nat := WORD_SPAN - 1, 0;
    var minOff, minFilesz := 0, 0;
    for i := 0 to |phdrs|
      invariant Extent(minVaddr, maxVaddr, minOff, minFilesz) == ExtentOf(phdrs[..i])
    {
      assert phdrs[..i + 1][..i] == phdrs[..i];
      var phdr := phdrs[i];
      if phdr.IsLoad() {
        var vaddrEnd := phdr.vaddr + phdr.memsz;
        if phdr.vaddr < minVaddr {
          minVaddr, minOff, minFilesz := phdr.vaddr, phdr.offset, phdr.filesz;
        }
        if vaddrEnd > maxVaddr {
          maxVaddr := vaddrEnd;
        }
      }
    }
    assert phdrs[..|phdrs|] == phdrs;
    ReservationIsTight(phdrs);
    maxVaddr := PageUp(maxVaddr);
    minVaddr := PageDown(minVaddr);
    r := Reservation(minVaddr, maxVaddr - minVaddr, minOff, minFilesz);
  }

  lemma PatchesStep(m: Memory, s: Source, segs: ElfSegments, phdrs: seq<Phdr>)
    requires Above(segs, phdrs) && phdrs != []
    ensures ApplyAll(m, SegmentPatches(s, segs, phdrs))
            == ApplyAll(if Mappable(segs, phdrs[0]) then Apply(m, SegmentPatch(s, segs, phdrs[0])) else m,
                        SegmentPatches(s, segs, phdrs[1..]))
  {
    var tail := SegmentPatches(s, segs, phdrs[1..]);
    if Mappable(segs, phdrs[0]) {
      var p := SegmentPatch(s, segs, phdrs[0]);
      assert ([p] + tail)[1..] == tail;
    } else {
      assert [] + tail == tail;
    }
  }

  // ----- the mapping operations

  /** `MmapParam`: where to map and which part of the file to bring in. */
  datatype MmapParam = MmapParam(addr: Option<nat>, fixed: bool, len: nat, filled: nat, offset: nat)

  function Region(s: Source, p: MmapParam): nat {
    if p.addr.Some? && (p.fixed || s.backend == Allocator) then p.addr.value else s.place
  }

  // ----- one segment

  /** `load_segment`: page-aligned parameters for one header. */
  function LoadSegment(segs: ElfSegments, h: Phdr): Option<MmapParam>
    requires segs.offset <= h.PageStart()
  {
    if segs.offset != h.PageStart() then
      Some(MmapParam(Some(segs.Addr(h.PageStart())), true, h.PageEnd() - h.PageStart(),
                     h.filesz + h.offset % PAGE, PageDown(h.offset)))
    else None
  }

  lemma SegmentGeometry(h: Phdr)
    requires WellFormedSegment(h)
    ensures h.PageStart() <= h.vaddr && h.vaddr - h.PageStart() == h.offset % PAGE
    ensures h.PageStart() + h.filesz + h.offset % PAGE == h.vaddr + h.filesz
    ensures PageDown(h.offset) + h.filesz + h.offset % PAGE == h.offset + h.filesz
    ensures h.vaddr + h.filesz <= PageUp(h.vaddr + h.filesz) <= h.PageEnd()
  {
    PageBounds(h.vaddr + h.memsz, 0);
    PageBounds(h.vaddr + h.filesz, h.PageEnd());
  }

  /** Page boundaries shift along with an address: they depend on its offset in the page. */
  lemma PageUpShifts(x: nat, y: nat, n: nat)
    requires x % PAGE == y % PAGE
    ensures PageUp(x + n) - x == PageUp(y + n) - y
  {
    var q := x / PAGE - y / PAGE;
    assert x == y + q * PAGE;
    PageUpMoves(y + n, x + n, q);
  }

  lemma PageUpMoves(x: nat, y: nat, q: int)
    requires y == x + q * PAGE
    ensures PageUp(y) == PageUp(x) + q * PAGE
  {
    PageBounds(x, 0);
    PageBounds(y, 0);
  }

  /** The file page that holds the end of the file part maps onto the memory page that does. */
  lemma EndPages(h: Phdr)
    requires WellFormedSegment(h)
    ensures PageUp(h.vaddr + h.filesz) - h.PageStart() == PageUp(h.offset + h.filesz) - PageDown(h.offset)
  {
    PageUpShifts(h.vaddr, h.offset, h.filesz);
  }

  function Zeros(n: nat): (r: seq<Byte>)
    ensures |r| == n && forall k :: 0 <= k < n ==> r[k] == 0
  {
    seq(n, k => 0)
  }

  /** Clearing the rest of a page and then the pages after it is one run of zeros. */
  lemma TwoPartClear(m: Memory, at: nat, first: nat, second: nat)
    ensures Apply(Apply(m, Store(at, Zeros(first))), ZeroPatch(at + first, second)) == Apply(m, ZeroPatch(at, first + second))
    ensures Apply(m, Store(at, Zeros(first))) == Apply(m, ZeroPatch(at, first))
  {
    var m1 := Apply(m, Store(at, Zeros(first)));
    var m2 := Apply(m1, ZeroPatch(at + first, second));
    forall a: nat
      ensures At(m2, a) == At(Apply(m, ZeroPatch(at, first + second)), a)
      ensures At(m1, a) == At(Apply(m, ZeroPatch(at, first)), a)
    {
      assert At(m1, a) == After(At(m, a), CellAt(Store(at, Zeros(first)), a));
    }
    SameBytes(m2, Apply(m, ZeroPatch(at, first + second)));
    SameBytes(m1, Apply(m, ZeroPatch(at, first)));
  }

  /** The two parts of the bss, the rest of a page and the pages after it, are the whole. */
  lemma BssParts(m: Memory, segs: ElfSegments, h: Phdr)
    requires WellFormedSegment(h) && segs.offset <= h.PageStart() && h.filesz != h.memsz
    ensures segs.offset <= h.vaddr
    ensures var start := h.vaddr + h.filesz; var end := PageUp(start);
            var m1 := Apply(m, Store(segs.Addr(start), Zeros(end - start)));
            && start <= end <= h.PageEnd()
            && Apply(m1, ZeroPatch(segs.Addr(end), h.PageEnd() - end)) == Apply(m, BssPatch(segs, h))
            && (end == h.PageEnd() ==> m1 == Apply(m, BssPatch(segs, h)))
  {
    SegmentGeometry(h);
    var start := h.vaddr + h.filesz;
    var end := PageUp(start);
    TwoPartClear(m, segs.Addr(start), end - start, h.PageEnd() - end);
  }

  lemma NoBss(m: Memory, segs: ElfSegments, h: Phdr)
    requires segs.offset <= h.vaddr && h.filesz == h.memsz
    ensures Apply(m, BssPatch(segs, h)) == m
  {
  }

  lemma TailBlock(m: Memory, segs: ElfSegments, h: Phdr)
    requires WellFormedSegment(h) && segs.offset <= h.PageStart()
    requires Mapped(m, segs.Addr(h.PageStart()), h.PageEnd() - h.PageStart())
    ensures segs.offset <= h.vaddr && h.vaddr + h.filesz <= PageUp(h.vaddr + h.filesz) <= h.PageEnd()
    ensures var start := h.vaddr + h.filesz; var end := PageUp(start);
            Mapped(Apply(m, Store(segs.Addr(start), Zeros(end - start))), segs.Addr(end), h.PageEnd() - end)
  {
    SegmentGeometry(h);
    var start := h.vaddr + h.filesz;
    var end := PageUp(start);
    BlockStaysMapped(m, Store(segs.Addr(start), Zeros(end - start)), segs.Addr(end), h.PageEnd() - end);
  }

  /** At each address, mapping a segment and then clearing its bss does what its patch does. */
  lemma MapThenClearAt(s: Source, segs: ElfSegments, h: Phdr, before: Option<Byte>, a: nat)
    requires WellFormedSegment(h) && segs.offset <= h.PageStart() && segs.offset <= h.vaddr
    ensures var p := MappedPatch(s, segs.Addr(h.PageStart()), h.PageEnd() - h.PageStart(),
                                 PageDown(h.offset), h.filesz + h.offset % PAGE);
            After(After(before, CellAt(p, a)), CellAt(BssPatch(segs, h), a)) == After(before, CellAt(SegmentPatch(s, segs, h), a))
  {
    SegmentGeometry(h);
    var b := BssPatch(segs, h);
    var k: int := a - segs.Addr(h.PageStart());
    if 0 <= k < h.PageEnd() - h.PageStart() {
      assert Covers(b, a) <==> h.filesz != h.memsz && h.vaddr + h.filesz <= h.PageStart() + k;
      assert CellAt(SegmentPatch(s, segs, h), a) == SegmentCell(s, h, k);
    } else {
      assert !Covers(b, a);
    }
  }

  /** Mapping a segment and then clearing its bss is the segment's patch. */
  lemma MapThenClear(m: Memory, s: Source, segs: ElfSegments, h: Phdr)
    requires WellFormedSegment(h) && segs.offset <= h.PageStart()
    ensures segs.offset <= h.vaddr
    ensures var p := MappedPatch(s, segs.Addr(h.PageStart()), h.PageEnd() - h.PageStart(),
                                 PageDown(h.offset), h.filesz + h.offset % PAGE);
            Apply(Apply(m, p), BssPatch(segs, h)) == Apply(m, SegmentPatch(s, segs, h))
  {
    PageBounds(h.vaddr, 0);
    var p := MappedPatch(s, segs.Addr(h.PageStart()), h.PageEnd() - h.PageStart(),
                         PageDown(h.offset), h.filesz + h.offset % PAGE);
    var b, q := BssPatch(segs, h), SegmentPatch(s, segs, h);
    var m1 := Apply(m, p);
    forall a: nat ensures At(Apply(m1, b), a) == At(Apply(m, q), a) {
      assert At(m1, a) == After(At(m, a), CellAt(p, a));
      MapThenClearAt(s, segs, h, At(m, a), a);
    }
    SameBytes(Apply(m1, b), Apply(m, q));
  }

  /** After the mapping call a byte of the region is there unless it lies past the file's last page. */
  lemma MappedWhere(m: Memory, s: Source, at: nat, len: nat, offset: nat, filled: nat, k: nat)
    requires k < len && (s.backend == Allocator ==> Mapped(m, at, len))
    ensures at + k in Apply(m, MappedPatch(s, at, len, offset, filled)) <==> s.Copies() || offset + k < PageUp(|s.file|)
  {
    var p := MappedPatch(s, at, len, offset, filled);
    PageBounds(|s.file|, 0);
    assert CellAt(p, at + k) == MappedCell(s, offset, filled, k);
    assert At(Apply(m, p), at + k) == After(At(m, at + k), CellAt(p, at + k));
  }

  lemma PageFits(x: nat, boundary: nat)
    requires boundary % PAGE == 0
    ensures x % PAGE == 0 <==> PageUp(x) == x
    ensures x <= boundary <==> PageUp(x) <= boundary
  {
    PageBounds(x, boundary);
  }

  /** The tail of the last file page lies within the file's last page, or nowhere. */
  lemma TailPages(h: Phdr, n: nat)
    requires WellFormedSegment(h)
    ensures (h.offset + h.filesz) % PAGE == 0 <==> PageUp(h.vaddr + h.filesz) == h.vaddr + h.filesz
    ensures h.offset + h.filesz <= PageUp(n) <==> PageUp(h.offset + h.filesz) <= PageUp(n)
  {
    PageBounds(n, 0);
    PageFits(h.offset + h.filesz, PageUp(n));
    PageUpShifts(h.vaddr, h.offset, h.filesz);
  }

  /** The rest of the last file page, which `fill_bss` clears by plain stores, is mapped exactly when the
      file reaches that page (or there is no rest, or the loader copied). */
  lemma TailIsMapped(m: Memory, s: Source, segs: ElfSegments, h: Phdr)
    requires WellFormedSegment(h) && segs.offset <= h.PageStart()
    requires s.backend == Allocator ==> Mapped(m, segs.Addr(h.PageStart()), h.PageEnd() - h.PageStart())
    ensures var p := MappedPatch(s, segs.Addr(h.PageStart()), h.PageEnd() - h.PageStart(),
                                 PageDown(h.offset), h.filesz + h.offset % PAGE);
            Mapped(Apply(m, p), segs.Addr(h.vaddr + h.filesz), PageUp(h.vaddr + h.filesz) - (h.vaddr + h.filesz))
            <==> TailInFile(s, h)
  {
    SegmentGeometry(h);
    EndPages(h);
    TailPages(h, |s.file|);
    var at, len, offset, filled := segs.Addr(h.PageStart()), h.PageEnd() - h.PageStart(), PageDown(h.offset), h.filesz + h.offset % PAGE;
    var p := MappedPatch(s, at, len, offset, filled);
    var size := PageUp(h.vaddr + h.filesz) - (h.vaddr + h.filesz);
    forall a | at + filled <= a < at + filled + size
      ensures a in Apply(m, p) <==> s.Copies() || offset + filled + (a - (at + filled)) < PageUp(|s.file|)
    {
      MappedWhere(m, s, at, len, offset, filled, a - at);
    }
    TailRange(Apply(m, p), at + filled, size, s.Copies(), offset + filled, PageUp(|s.file|));
  }

  lemma TailRange(m: Memory, at: nat, size: nat, always: bool, pos: nat, limit: nat)
    requires forall a :: at <= a < at + size ==> (a in m <==> always || pos + (a - at) < limit)
    requires pos < limit ==> pos + size <= limit
    ensures Mapped(m, at, size) <==> always || size == 0 || pos < limit
  {
    if size > 0 {
      assert at in m <==> always || pos < limit;
    }
  }

  lemma MapThenCopyAt(s: Source, at: nat, p: MmapParam, before: Option<Byte>, a: nat)
    requires s.Copies() && p.offset + p.filled <= |s.file| && p.filled <= p.len
    ensures After(After(before, CellAt(MappedPatch(s, at, p.len, p.offset, 0), a)),
                  CellAt(Store(at, s.file[p.offset..p.offset + p.filled]), a))
            == After(before, CellAt(MappedPatch(s, at, p.len, p.offset, p.filled), a))
  {
    var k: int := a - at;
    if 0 <= k < p.len {
      assert CellAt(MappedPatch(s, at, p.len, p.offset, p.filled), a) == MappedCell(s, p.offset, p.filled, k);
      assert CellAt(MappedPatch(s, at, p.len, p.offset, 0), a) == MappedCell(s, p.offset, 0, k);
    }
  }

  /** Mapping a region and then copying the file's bytes into it is the patch of both. */
  lemma MapThenCopy(m: Memory, s: Source, at: nat, p: MmapParam)
    requires s.Copies() && p.offset + p.filled <= |s.file| && p.filled <= p.len
    ensures Apply(Apply(m, MappedPatch(s, at, p.len, p.offset, 0)), Store(at, s.file[p.offset..p.offset + p.filled]))
            == Apply(m, MappedPatch(s, at, p.len, p.offset, p.filled))
  {
    var p0, p1 := MappedPatch(s, at, p.len, p.offset, 0), Store(at, s.file[p.offset..p.offset + p.filled]);
    var p2 := MappedPatch(s, at, p.len, p.offset, p.filled);
    var m1 := Apply(m, p0);
    forall a: nat ensures At(Apply(m1, p1), a) == At(Apply(m, p2), a) {
      assert At(m1, a) == After(At(m, a), CellAt(p0, a));
      assert At(Apply(m1, p1), a) == After(At(m1, a), CellAt(p1, a));
      MapThenCopyAt(s, at, p, At(m, a), a);
    }
    SameBytes(Apply(m1, p1), Apply(m, p2));
  }

  /** An allocated block stays mapped: neither a mapping call nor a segment takes bytes away. */
  lemma BlockStaysMapped(m: Memory, p: Patch, at: nat, len: nat)
    requires Mapped(m, at, len)
    requires forall c :: c in p.cells ==> !c.Gone?
    ensures Mapped(Apply(m, p), at, len)
  {
    forall a | at <= a < at + len ensures a in Apply(m, p) {
      assert Covers(p, a) ==> p.cells[a - p.at] in p.cells;
      assert a in m && !CellAt(p, a).Gone?;
      assert At(Apply(m, p), a) == After(At(m, a), CellAt(p, a));
    }
  }

  lemma SegmentKeepsBlock(m: Memory, s: Source, segs: ElfSegments, h: Phdr)
    requires WellFormedSegment(h) && segs.offset <= h.PageStart() && h.PageEnd() <= segs.offset + segs.len
    requires s.backend == Allocator && Mapped(m, segs.memory, segs.len)
    ensures Mapped(m, segs.Addr(h.PageStart()), h.PageEnd() - h.PageStart())
    ensures var p := MappedPatch(s, segs.Addr(h.PageStart()), h.PageEnd() - h.PageStart(),
                                 PageDown(h.offset), h.filesz + h.offset % PAGE);
            Mapped(Apply(m, p), segs.Addr(h.PageStart()), h.PageEnd() - h.PageStart())
    ensures Mapped(Apply(m, SegmentPatch(s, segs, h)), segs.memory, segs.len)
  {
    SegmentGeometry(h);
    var p := MappedPatch(s, segs.Addr(h.PageStart()), h.PageEnd() - h.PageStart(),
                         PageDown(h.offset), h.filesz + h.offset % PAGE);
    BlockStaysMapped(m, p, segs.Addr(h.PageStart()), h.PageEnd() - h.PageStart());
    BlockStaysMapped(m, SegmentPatch(s, segs, h), segs.memory, segs.len);
  }

  class AddressSpace {
    var mem: Memory

    constructor (m: Memory)
      ensures mem == m
    {
      mem := m;
    }

    method Mmap(s: Source, p: MmapParam) returns (r: Result<nat>, needCopy: bool)
      modifies this
      ensures needCopy == s.Copies()
      ensures r == if Refuses(s, Region(s, p), p.len, p.offset) then Err(MmapFailed) else Ok(Region(s, p))
      ensures mem == if r.Err? then old(mem) else Apply(old(mem), MappedPatch(s, r.value, p.len, p.offset, 0))
    {
      needCopy := s.Copies();
      if Refuses(s, Region(s, p), p.len, p.offset) {
        return Err(MmapFailed), needCopy;
      }
      r := Ok(Region(s, p));
      mem := Apply(mem, MappedPatch(s, r.value, p.len, p.offset, 0));
    }

    /** `mmap_anonymous`: fresh zero pages, or zeros written over the allocated block. */
    method MmapAnonymous(s: Source, at: nat, len: nat) returns (r: Result<()>)
      requires s.backend == Allocator ==> Mapped(mem, at, len)
      modifies this
      ensures r == if s.Denies(Anonymous(at, len)) then Err(MmapFailed) else Ok(())
      ensures mem == if r.Err? then old(mem) else Apply(old(mem), ZeroPatch(at, len))
    {
      if s.Denies(Anonymous(at, len)) {
        return Err(MmapFailed);
      }
      mem := Apply(mem, ZeroPatch(at, len));
      r := Ok(());
    }

    /** A plain store through a pointer: every byte must be mapped. */
    method Write(at: nat, bytes: seq<Byte>)
      requires Mapped(mem, at, |bytes|)
      modifies this
      ensures mem == Apply(old(mem), Store(at, bytes))
    {
      mem := Apply(mem, Store(at, bytes));
    }

    /** `mmap_segment`: map, and copy and protect where the mapping call asks for it. */
    method MmapSegment(s: Source, p: MmapParam) returns (r: Result<nat>)
      requires p.filled <= p.len
      requires s.backend == Allocator ==> Mapped(mem, Region(s, p), p.len)
      modifies this
      ensures r.Ok? <==> MmapAccepted(s, Region(s, p), p.len, p.offset, p.filled)
      ensures r.Ok? ==> r.value == Region(s, p)
      ensures r.Ok? || r == Err(ProtectFailed) ==> mem == Apply(old(mem), MappedPatch(s, Region(s, p), p.len, p.offset, p.filled))
      ensures r == Err(MmapFailed) ==> mem == old(mem)
      ensures r == Err(ReadFailed) ==> mem == Apply(old(mem), MappedPatch(s, Region(s, p), p.len, p.offset, 0))
      ensures r.Err? ==> r.error in {MmapFailed, ReadFailed, ProtectFailed}
    {
      ghost var m0 := mem;
      var needCopy: bool;
      r, needCopy := Mmap(s, p);
      if r.Ok? && needCopy {
        if p.offset + p.filled > |s.file| {
          return Err(ReadFailed);
        }
        assert Mapped(mem, r.value, p.filled) by {
          forall a | r.value <= a < r.value + p.filled ensures a in mem {
            assert At(mem, a) == After(At(m0, a), CellAt(MappedPatch(s, r.value, p.len, p.offset, 0), a));
          }
        }
        Write(r.value, s.file[p.offset..p.offset + p.filled]);
        MapThenCopy(m0, s, r.value, p);
        if s.Denies(Protect(r.value, p.len)) {
          return Err(ProtectFailed);
        }
      } else if r.Ok? {
        SameBytes(mem, Apply(m0, MappedPatch(s, r.value, p.len, p.offset, p.filled)));
      }
    }

    /** `fill_bss`. */
    method FillBss(s: Source, segs: ElfSegments, h: Phdr) returns (r: Result<()>)
      requires WellFormedSegment(h) && segs.offset <= h.PageStart()
      requires s.backend == Allocator ==> Mapped(mem, segs.Addr(h.PageStart()), h.PageEnd() - h.PageStart())
      modifies this
      ensures segs.offset <= h.vaddr
      ensures r.Ok? <==> h.filesz == h.memsz
                         || (Mapped(old(mem), segs.Addr(h.vaddr + h.filesz), PageUp(h.vaddr + h.filesz) - (h.vaddr + h.filesz))
                             && ClearAccepted(s, segs, h))
      ensures r.Ok? ==> mem == Apply(old(mem), BssPatch(segs, h))
    {
      ghost var m0 := mem;
      SegmentGeometry(h);
      r := Ok(());
      if h.filesz != h.memsz {
        var maxVaddr := h.PageEnd();
        var zeroStart := h.vaddr + h.filesz;
        var zeroEnd := PageUp(zeroStart);
        if !Mapped(mem, segs.Addr(zeroStart), zeroEnd - zeroStart) {
          return Err(Faulted);
        }
        Write(segs.Addr(zeroStart), Zeros(zeroEnd - zeroStart));
        BssParts(m0, segs, h);
        if zeroEnd < maxVaddr {
          if s.backend == Allocator {
            TailBlock(m0, segs, h);
          }
          r := MmapAnonymous(s, segs.Addr(zeroEnd), maxVaddr - zeroEnd);
        }
      } else {
        NoBss(m0, segs, h);
      }
    }

    /** Map one segment over the reservation and clear its bss. */
    method MapAndClear(s: Source, segs: ElfSegments, h: Phdr, p: MmapParam) returns (r: Result<()>)
      requires WellFormedSegment(h) && segs.offset <= h.PageStart() && h.PageEnd() <= segs.offset + segs.len
      requires LoadSegment(segs, h) == Some(p)
      requires s.backend == Allocator ==> Mapped(mem, segs.memory, segs.len)
      modifies this
      ensures r.Ok? <==> SegmentAccepted(s, segs, h)
      ensures r.Ok? ==> mem == Apply(Apply(old(mem), MappedPatch(s, p.addr.value, p.len, p.offset, p.filled)), BssPatch(segs, h))
    {
      ghost var m0 := mem;
      SegmentGeometry(h);
      if s.backend == Allocator {
        SegmentKeepsBlock(m0, s, segs, h);
      }
      var mapped := MmapSegment(s, p);
      if mapped.Err? {
        return Err(mapped.error);
      }
      TailIsMapped(m0, s, segs, h);
      r := FillBss(s, segs, h);
    }

    /** One PT_LOAD turn of the loop: the segment's patch, or an error. */
    method LoadOne(s: Source, segs: ElfSegments, h: Phdr) returns (r: Result<()>)
      requires WellFormedSegment(h) && segs.offset <= h.PageStart() && h.PageEnd() <= segs.offset + segs.len
      requires s.backend == Allocator ==> Mapped(mem, segs.memory, segs.len)
      modifies this
      ensures r.Ok? <==> (segs.offset != h.PageStart() ==> SegmentAccepted(s, segs, h))
      ensures r.Ok? ==>
                mem == if segs.offset != h.PageStart() then Apply(old(mem), SegmentPatch(s, segs, h)) else old(mem)
      ensures r.Ok? && s.backend == Allocator ==> Mapped(mem, segs.memory, segs.len)
    {
      ghost var m0 := mem;
      var p := LoadSegment(segs, h);
      r := Ok(());
      if p.Some? {
        r := MapAndClear(s, segs, h, p.value);
        MapThenClear(m0, s, segs, h);
        if s.backend == Allocator {
          SegmentKeepsBlock(m0, s, segs, h);
        }
      }
    }

    /** Reserve the whole range, which also brings in the lowest segment's file bytes. */
    method Reserve(s: Source, isDylib: bool, phdrs: seq<Phdr>) returns (r: Result<ElfSegments>)
      requires WellFormed(phdrs) && ReservationOf(phdrs).len >= 0
      requires s.backend == Allocator ==>
                 Mapped(mem, Segments(s, isDylib, ReservationOf(phdrs)).memory, ReservationOf(phdrs).len)
      modifies this
      ensures r.Ok? <==> ReservationAccepted(s, isDylib, ReservationOf(phdrs))
      ensures r.Ok? ==>
                var res := ReservationOf(phdrs);
                && r.value == Segments(s, isDylib, res)
                && mem == Reserved(old(mem), s, isDylib, res)
                && (s.backend == Allocator ==> Mapped(mem, r.value.memory, r.value.len))
    {
      ghost var m0 := mem;
      var res := CreateSegments(phdrs);
      ReservationIsTight(phdrs);
      ghost var i := LowestFound(phdrs);
      assert phdrs[i] in phdrs;
      var param := MmapParam(if isDylib then None else Some(res.min), false, res.len, res.filesz, res.offset);
      var memory := MmapSegment(s, param);
      if memory.Err? {
        return Err(memory.error);
      }
      r := Ok(ElfSegments(memory.value, res.min, res.len));
      if s.backend == Allocator {
        BlockStaysMapped(m0, MappedPatch(s, r.value.memory, res.len, res.offset, res.filesz), r.value.memory, res.len);
      }
    }

    /** `load_impl`: reserve the whole range, then map every other segment in header order. */
    method LoadImpl(s: Source, isDylib: bool, phdrs: seq<Phdr>) returns (r: Result<ElfSegments>)
      requires WellFormed(phdrs) && ReservationOf(phdrs).len >= 0
      requires s.backend == Allocator ==>
                 Mapped(mem, Segments(s, isDylib, ReservationOf(phdrs)).memory, ReservationOf(phdrs).len)
      modifies this
      ensures Above(Segments(s, isDylib, ReservationOf(phdrs)), phdrs)
      ensures r.Ok? <==> Accepted(s, isDylib, phdrs)
      ensures r.Ok? ==> r.value == Segments(s, isDylib, ReservationOf(phdrs))
      ensures r.Ok? ==> mem == Loaded(old(mem), s, isDylib, phdrs)
    {
      ReservationIsTight(phdrs);
      r := Reserve(s, isDylib, phdrs);
      if r.Err? {
        return;
      }
      var segs := r.value;
      ghost var m1 := mem;
      assert phdrs[0..] == phdrs;
      for i := 0 to |phdrs|
        invariant Above(segs, phdrs) && Above(segs, phdrs[i..])
        invariant ApplyAll(mem, SegmentPatches(s, segs, phdrs[i..])) == ApplyAll(m1, SegmentPatches(s, segs, phdrs))
        invariant forall j :: 0 <= j < i && Mappable(segs, phdrs[j]) ==> SegmentAccepted(s, segs, phdrs[j])
        invariant s.backend == Allocator ==> Mapped(mem, segs.memory, segs.len)
      {
        var phdr := phdrs[i];
        assert phdr in phdrs;
        PatchesStep(mem, s, segs, phdrs[i..]);
        assert phdrs[i..][1..] == phdrs[i + 1..];
        if phdr.IsLoad() {
          var one := LoadOne(s, segs, phdr);
          if one.Err? {
            return Err(one.error);
          }
        }
      }
      forall h | h in phdrs && Mappable(segs, h) ensures SegmentAccepted(s, segs, h) {
        var j :| 0 <= j < |phdrs| && phdrs[j] == h;
      }
      assert phdrs[|phdrs|..] == [];
    }
  }
}
