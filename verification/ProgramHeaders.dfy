/** The program header table found again in memory after loading. */
module ProgramHeaders {
  import opened Words
  import opened Memories
  import opened ElfHeaders
  import opened Loader
  import opened SegmentImages

  /** The first segment whose file range contains both ends of the table; the range is half-open,
      so the end of the table must lie strictly inside it. */
  predicate ContainsTable(h: Phdr, ehdr: ElfHeader) {
    && h.IsLoad()
    && h.offset <= ehdr.PhdrStart() < h.offset + h.filesz
    && h.offset <= ehdr.PhdrEnd() < h.offset + h.filesz
  }

  function CoveringLoad(phdrs: seq<Phdr>, ehdr: ElfHeader): (r: Option<Phdr>)
    ensures r.Some? ==> r.value in phdrs && ContainsTable(r.value, ehdr)
    ensures r.None? ==> forall h :: h in phdrs ==> !ContainsTable(h, ehdr)
  {
    if phdrs == [] then None
    else if ContainsTable(phdrs[0], ehdr) then Some(phdrs[0])
    else CoveringLoad(phdrs[1..], ehdr)
  }

  /** It is the first one in table order. */
  lemma {:induction false} FirstCovering(phdrs: seq<Phdr>, ehdr: ElfHeader, i: nat)
    requires i < |phdrs| && ContainsTable(phdrs[i], ehdr)
    requires forall j :: 0 <= j < i ==> !ContainsTable(phdrs[j], ehdr)
    ensures CoveringLoad(phdrs, ehdr) == Some(phdrs[i])
  {
    if i > 0 {
      assert !ContainsTable(phdrs[0], ehdr);
      FirstCovering(phdrs[1..], ehdr, i - 1);
    }
  }

  /** `get_slice` of len bytes at a virtual address. */
  function SliceAt(m: Memory, segs: ElfSegments, v: nat, len: nat): (r: Option<seq<Byte>>)
    ensures r.Some? ==> |r.value| == len
  {
    if segs.offset <= v && Mapped(m, segs.Addr(v), len) then Some(ReadBytes(m, segs.Addr(v), len)) else None
  }

  function MappedTable(m: Memory, segs: ElfSegments, ehdr: ElfHeader, ptPhdr: Option<Phdr>, phdrs: seq<Phdr>): Option<seq<Byte>> {
    match ptPhdr
    case Some(p) => SliceAt(m, segs, p.vaddr, p.memsz)
    case None =>
      match CoveringLoad(phdrs, ehdr)
      case None => None
      case Some(h) => SliceAt(m, segs, h.vaddr + (ehdr.PhdrStart() - h.offset), ehdr.phnum * PHDR_SIZE)
  }

  /** `create_common`: the table where PT_PHDR says, else where a covering segment puts it.
      None is the panic of `unwrap`, or a fault. */
  function MappedHeaders(m: Memory, segs: ElfSegments, ehdr: ElfHeader, ptPhdr: Option<Phdr>, phdrs: seq<Phdr>): Option<seq<Phdr>> {
    match MappedTable(m, segs, ehdr, ptPhdr, phdrs)
    case None => None
    case Some(b) => Some(Headers(b))
  }

  /** Inside a segment's file part, memory at the matching address is the file. */
  lemma ImageSlice(m: Memory, segs: ElfSegments, h: Phdr, file: seq<Byte>, start: nat, len: nat)
    requires segs.offset <= h.vaddr && h.filesz <= h.memsz
    requires SegmentImage(m, segs.Addr(h.vaddr), h, file)
    requires h.offset <= start && start + len <= h.offset + h.filesz
    ensures SliceAt(m, segs, h.vaddr + (start - h.offset), len) == Some(file[start..start + len])
  {
    var v := h.vaddr + (start - h.offset);
    forall a | segs.Addr(v) <= a < segs.Addr(v) + len
      ensures a in m && m[a] == file[start + (a - segs.Addr(v))]
    {
      assert ImageByte(m, segs.Addr(h.vaddr), h, file, a - segs.Addr(h.vaddr));
    }
    assert ReadBytes(m, segs.Addr(v), len) == file[start..start + len];
  }

  /** n headers taken from where the image puts the table are the file's, exactly when the table has n. */
  lemma TableSlice(m: Memory, segs: ElfSegments, h: Phdr, file: seq<Byte>, start: nat, end: nat, n: nat)
    requires segs.offset <= h.vaddr && h.filesz <= h.memsz && SegmentImage(m, segs.Addr(h.vaddr), h, file)
    requires h.offset <= start <= end <= h.offset + h.filesz
    ensures var b := SliceAt(m, segs, h.vaddr + (start - h.offset), n * PHDR_SIZE);
            (b.Some? && Headers(b.value) == Headers(file[start..end])) <==> n == (end - start) / PHDR_SIZE
  {
    var size := n * PHDR_SIZE;
    var b := SliceAt(m, segs, h.vaddr + (start - h.offset), size);
    if n == (end - start) / PHDR_SIZE {
      HeadersIgnoreTail(file[start..end], n);
      ImageSlice(m, segs, h, file, start, size);
      assert file[start..end][..size] == file[start..start + size];
    } else if b.Some? {
      assert |Headers(b.value)| == size / PHDR_SIZE == n;
      assert |Headers(file[start..end])| == (end - start) / PHDR_SIZE;
    }
  }

  /** In memory that carries the covering segment's image, the search finds the file's table exactly
      when the entry size gives as many entries as e_phnum counts. */
  lemma FoundInImage(m: Memory, segs: ElfSegments, ehdr: ElfHeader, phdrs: seq<Phdr>, file: seq<Byte>, h: Phdr)
    requires ehdr.PhdrEnd() <= |file| && phdrs == Headers(file[ehdr.PhdrStart()..ehdr.PhdrEnd()])
    requires CoveringLoad(phdrs, ehdr) == Some(h)
    requires segs.offset <= h.vaddr && h.filesz <= h.memsz && SegmentImage(m, segs.Addr(h.vaddr), h, file)
    ensures MappedHeaders(m, segs, ehdr, None, phdrs) == Some(phdrs)
            <==> ehdr.phnum == ehdr.WholeEntries()
  {
    TableSlice(m, segs, h, file, ehdr.PhdrStart(), ehdr.PhdrEnd(), ehdr.phnum);
    FoundBytes(m, segs, ehdr, phdrs, h, SliceAt(m, segs, h.vaddr + (ehdr.PhdrStart() - h.offset), ehdr.phnum * PHDR_SIZE));
  }

  lemma FoundBytes(m: Memory, segs: ElfSegments, ehdr: ElfHeader, phdrs: seq<Phdr>, h: Phdr, b: Option<seq<Byte>>)
    requires CoveringLoad(phdrs, ehdr) == Some(h)
    requires b == SliceAt(m, segs, h.vaddr + (ehdr.PhdrStart() - h.offset), ehdr.phnum * PHDR_SIZE)
    ensures MappedHeaders(m, segs, ehdr, None, phdrs) == Some(phdrs) <==> b.Some? && Headers(b.value) == phdrs
  {
    assert MappedTable(m, segs, ehdr, None, phdrs) == b;
  }

  /** What a load needs for every segment to come out right. */
  ghost predicate SoundLoad(s: Source, isDylib: bool, phdrs: seq<Phdr>) {
    && WellFormed(phdrs) && PageDisjointAll(phdrs) && AllInFile(s, phdrs)
    && ReservationOf(phdrs).len >= 0 && LowestHeadersSafe(s, isDylib, phdrs)
  }

  /** The header table begins in the segment's file bytes and ends before they do. */
  predicate TableInside(h: Phdr, ehdr: ElfHeader) {
    h.kind == 1 && h.offset <= ehdr.phoff && ehdr.phoff + ehdr.phentsize * ehdr.phnum < h.offset + h.filesz
  }

  /** The headers found in loaded memory are the headers parsed from the file, exactly when the table ends
      before the file bytes of a PT_LOAD that it begins in do, and the entry size gives as many entries as
      e_phnum counts (in particular when e_phentsize is 56). */
  lemma HeaderTableAgreement(m: Memory, s: Source, isDylib: bool, ehdr: ElfHeader, phdrs: seq<Phdr>)
    requires SoundLoad(s, isDylib, phdrs)
    requires ehdr.PhdrEnd() <= |s.file| && phdrs == Headers(s.file[ehdr.PhdrStart()..ehdr.PhdrEnd()])
    ensures Above(Segments(s, isDylib, ReservationOf(phdrs)), phdrs)
    ensures MappedHeaders(Loaded(m, s, isDylib, phdrs), Segments(s, isDylib, ReservationOf(phdrs)), ehdr, None, phdrs) == Some(phdrs)
            <==> (exists h :: h in phdrs && TableInside(h, ehdr)) && ehdr.phnum == ehdr.phentsize * ehdr.phnum / 56
  {
    ImageCorrect(m, s, isDylib, phdrs);
    assert forall h :: ContainsTable(h, ehdr) <==> TableInside(h, ehdr);
    if CoveringLoad(phdrs, ehdr).Some? {
      var h := CoveringLoad(phdrs, ehdr).value;
      PageBounds(h.vaddr, 0);
      FoundInImage(Loaded(m, s, isDylib, phdrs), Segments(s, isDylib, ReservationOf(phdrs)), ehdr, phdrs, s.file, h);
    }
  }

  /** A PT_PHDR that describes the table leads to the same headers. */
  lemma PtPhdrAgreement(m: Memory, s: Source, isDylib: bool, ehdr: ElfHeader, phdrs: seq<Phdr>, h: Phdr, p: Phdr)
    requires SoundLoad(s, isDylib, phdrs)
    requires h in phdrs && h.IsLoad() && h.offset <= ehdr.PhdrStart() && ehdr.PhdrEnd() <= h.offset + h.filesz
    requires p.vaddr == h.vaddr + (ehdr.PhdrStart() - h.offset) && p.memsz == ehdr.PhdrEnd() - ehdr.PhdrStart()
    ensures Above(Segments(s, isDylib, ReservationOf(phdrs)), phdrs) && ehdr.PhdrStart() + p.memsz <= |s.file|
    ensures MappedHeaders(Loaded(m, s, isDylib, phdrs), Segments(s, isDylib, ReservationOf(phdrs)), ehdr, Some(p), phdrs)
            == Some(Headers(s.file[ehdr.PhdrStart()..ehdr.PhdrStart() + p.memsz]))
  {
    ImageCorrect(m, s, isDylib, phdrs);
    PageBounds(h.vaddr, 0);
    ImageSlice(Loaded(m, s, isDylib, phdrs), Segments(s, isDylib, ReservationOf(phdrs)), h, s.file, ehdr.PhdrStart(), p.memsz);
  }

  /** The search succeeds only for a table that ends before the segment's file bytes do: a table
      flush with the end of its segment, or one of an executable (whose headers are not passed on),
      is not found. */
  lemma TableNotFound(m: Memory, segs: ElfSegments, ehdr: ElfHeader, phdrs: seq<Phdr>)
    ensures (forall h :: h in phdrs && h.IsLoad() && h.offset <= ehdr.PhdrStart()
                         ==> h.offset + h.filesz <= ehdr.PhdrEnd())
            ==> MappedHeaders(m, segs, ehdr, None, phdrs) == None
    ensures MappedHeaders(m, segs, ehdr, None, []) == None
  {
  }
}
