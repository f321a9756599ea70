/** The ELF header and the program header table as they are read from the file. */
module ElfHeaders {
  import opened Words
  import opened Loader

  const EHDR_SIZE: nat := 64
  const PHDR_SIZE: nat := 56
  const MAX_BUF_SIZE: nat := EHDR_SIZE + 12 * PHDR_SIZE

  const ELF_MAGIC: seq<Byte> := [0x7f, 0x45, 0x4c, 0x46]
  const ELFCLASS64: Byte := 2
  const EV_CURRENT: Byte := 1
  const EM_X86_64: nat := 62

  datatype ElfHeader = ElfHeader(phoff: nat, phentsize: nat, phnum: nat)
  {
    function PhdrStart(): nat {
      phoff
    }

    function PhdrEnd(): nat {
      phoff + phentsize * phnum
    }

    /** How many whole entries of 56 bytes the table's e_phentsize * e_phnum bytes hold. */
    function WholeEntries(): nat {
      (PhdrEnd() - PhdrStart()) / PHDR_SIZE
    }
  }

  /** `vaildate`: magic, class, version and machine. */
  predicate ValidHeader(b: seq<Byte>)
    requires |b| >= EHDR_SIZE
  {
    b[..4] == ELF_MAGIC && b[4] == ELFCLASS64 && b[6] == EV_CURRENT && FromLe(b[18..20]) == EM_X86_64
  }

  /** Byte by byte: what makes a header valid. */
  lemma ValidExactly(b: seq<Byte>)
    requires |b| >= EHDR_SIZE
    ensures ValidHeader(b) <==> && b[0] == 0x7f && b[1] == 'E' as int && b[2] == 'L' as int && b[3] == 'F' as int
                                && b[4] == 2 && b[6] == 1 && b[18] == 62 && b[19] == 0
  {
    assert b[18..20] == [b[18], b[19]] && b[18..20][1..] == [b[19]] && [b[19]][1..] == [];
    assert FromLe(b[18..20]) == b[18] + 256 * FromLe([b[19]]) && FromLe([b[19]]) == b[19] + 256 * FromLe([]);
    assert b[..4] == [b[0], b[1], b[2], b[3]];
  }

  function DecodeEhdr(b: seq<Byte>): ElfHeader
    requires |b| >= EHDR_SIZE
  {
    ElfHeader(FromLe(b[32..40]), FromLe(b[54..56]), FromLe(b[56..58]))
  }

  function DecodePhdr(b: seq<Byte>): Phdr
    requires |b| == PHDR_SIZE
  {
    Phdr(FromLe(b[0..4]), FromLe(b[4..8]), FromLe(b[8..16]), FromLe(b[16..24]),
         FromLe(b[24..32]), FromLe(b[32..40]), FromLe(b[40..48]), FromLe(b[48..56]))
  }

  /** A byte slice viewed as an array of headers; a short tail is dropped. */
  function Headers(b: seq<Byte>): (r: seq<Phdr>)
    ensures |r| == |b| / PHDR_SIZE
  {
    seq(|b| / PHDR_SIZE, i requires 0 <= i < |b| / PHDR_SIZE => DecodePhdr(b[PHDR_SIZE * i..PHDR_SIZE * i + PHDR_SIZE]))
  }

  lemma HeadersIgnoreTail(b: seq<Byte>, n: nat)
    requires n == |b| / PHDR_SIZE
    ensures n * PHDR_SIZE <= |b| && Headers(b[..n * PHDR_SIZE]) == Headers(b)
  {
    forall i | 0 <= i < n
      ensures Headers(b[..n * PHDR_SIZE])[i] == Headers(b)[i]
    {
      assert b[..n * PHDR_SIZE][PHDR_SIZE * i..PHDR_SIZE * i + PHDR_SIZE] == b[PHDR_SIZE * i..PHDR_SIZE * i + PHDR_SIZE];
    }
  }

  class ElfBuf {
    var stackBuf: seq<Byte>
    var heapBuf: seq<Byte>

    constructor ()
      ensures stackBuf == [] && heapBuf == []
    {
      stackBuf := [];
      heapBuf := [];
    }

    /** Fills the whole stack buffer, so files shorter than it are refused, and checks the header. */
    method PrepareEhdr(file: seq<Byte>) returns (r: Result<ElfHeader>)
      modifies this
      ensures heapBuf == old(heapBuf)
      ensures stackBuf == if MAX_BUF_SIZE <= |file| then file[..MAX_BUF_SIZE] else old(stackBuf)
      ensures r == if |file| < MAX_BUF_SIZE then Err(ReadFailed)
                   else if ValidHeader(file) then Ok(DecodeEhdr(file))
                   else Err(BadHeader)
    {
      if |file| < MAX_BUF_SIZE {
        return Err(ReadFailed);
      }
      stackBuf := file[..MAX_BUF_SIZE];
      assert forall i, j :: 0 <= i <= j <= MAX_BUF_SIZE ==> stackBuf[i..j] == file[i..j];
      if !ValidHeader(stackBuf) {
        return Err(BadHeader);
      }
      r := Ok(DecodeEhdr(stackBuf));
    }

    /** The headers come from the stack buffer when the table ends inside it, else from the heap
        buffer; either way they are the file's table. */
    method PreparePhdr(ehdr: ElfHeader, file: seq<Byte>) returns (r: Result<seq<Phdr>>)
      requires MAX_BUF_SIZE <= |file| && stackBuf == file[..MAX_BUF_SIZE]
      modifies this`heapBuf
      ensures r == if ehdr.PhdrEnd() <= |file| then Ok(Headers(file[ehdr.PhdrStart()..ehdr.PhdrEnd()])) else Err(ReadFailed)
    {
      var start, end := ehdr.PhdrStart(), ehdr.PhdrEnd();
      if MAX_BUF_SIZE >= end {
        var n := (end - start) / PHDR_SIZE;
        HeadersIgnoreTail(file[start..end], n);
        assert stackBuf[start..start + n * PHDR_SIZE] == file[start..end][..n * PHDR_SIZE];
        r := Ok(Headers(stackBuf[start..start + n * PHDR_SIZE]));
      } else {
        heapBuf := seq(end - start, _ => 0);
        if end > |file| {
          return Err(ReadFailed);
        }
        heapBuf := file[start..end];
        r := Ok(Headers(heapBuf));
      }
    }
  }

  // ----- files that carry the same headers

  /** The loader reads this program header table from the file. */
  predicate Carries(file: seq<Byte>, phdrs: seq<Phdr>) {
    && MAX_BUF_SIZE <= |file| && ValidHeader(file)
    && var ehdr := DecodeEhdr(file);
       ehdr.PhdrEnd() <= |file| && phdrs == Headers(file[ehdr.PhdrStart()..ehdr.PhdrEnd()])
  }

  /** A file of the same length with the same ELF header and the same program headers. */
  ghost predicate Variant(file: seq<Byte>, base: seq<Byte>, phdrs: seq<Phdr>) {
    |file| == |base| && EHDR_SIZE <= |base| && file[..EHDR_SIZE] == base[..EHDR_SIZE] && Carries(file, phdrs)
  }

  /** The bytes of the file that its headers occupy. */
  predicate HeaderByte(base: seq<Byte>, pos: nat) {
    && EHDR_SIZE <= |base|
    && var ehdr := DecodeEhdr(base);
       || pos < EHDR_SIZE
       || InTable(ehdr.PhdrStart(), ehdr.PhdrEnd(), pos)
  }

  /** pos lies in one of the whole entries of a table. */
  predicate InTable(start: nat, end: nat, pos: nat)
    requires start <= end
  {
    start <= pos < start + PHDR_SIZE * ((end - start) / PHDR_SIZE)
  }

  lemma {:induction false} FromLeInjective(a: seq<Byte>, b: seq<Byte>)
    requires |a| == |b| && FromLe(a) == FromLe(b)
    ensures a == b
  {
    if a != [] {
      FromLeInjective(a[1..], b[1..]);
      assert a == [a[0]] + a[1..] && b == [b[0]] + b[1..];
    }
  }

  lemma FieldInjective(a: seq<Byte>, b: seq<Byte>, lo: nat, hi: nat)
    requires lo <= hi <= |a| == |b| && FromLe(a[lo..hi]) == FromLe(b[lo..hi])
    ensures forall i :: lo <= i < hi ==> a[i] == b[i]
  {
    FromLeInjective(a[lo..hi], b[lo..hi]);
    forall i | lo <= i < hi ensures a[i] == b[i] {
      assert a[i] == a[lo..hi][i - lo] && b[i] == b[lo..hi][i - lo];
    }
  }

  lemma PhdrInjective(a: seq<Byte>, b: seq<Byte>)
    requires |a| == |b| == PHDR_SIZE && DecodePhdr(a) == DecodePhdr(b)
    ensures forall i :: 0 <= i < PHDR_SIZE ==> a[i] == b[i]
  {
    FieldInjective(a, b, 0, 4);
    FieldInjective(a, b, 4, 8);
    FieldInjective(a, b, 8, 16);
    FieldInjective(a, b, 16, 24);
    FieldInjective(a, b, 24, 32);
    FieldInjective(a, b, 32, 40);
    FieldInjective(a, b, 40, 48);
    FieldInjective(a, b, 48, 56);
  }

  /** Slices with the same headers agree on every byte of their whole entries, and conversely. */
  lemma HeadersInjective(a: seq<Byte>, b: seq<Byte>)
    requires |a| == |b|
    ensures Headers(a) == Headers(b) <==> forall i :: 0 <= i < PHDR_SIZE * (|a| / PHDR_SIZE) ==> a[i] == b[i]
  {
    if Headers(a) == Headers(b) {
      forall i | 0 <= i < PHDR_SIZE * (|a| / PHDR_SIZE) ensures a[i] == b[i] {
        var k := i / PHDR_SIZE;
        var x, y := a[PHDR_SIZE * k..PHDR_SIZE * k + PHDR_SIZE], b[PHDR_SIZE * k..PHDR_SIZE * k + PHDR_SIZE];
        assert Headers(a)[k] == Headers(b)[k];
        PhdrInjective(x, y);
        assert a[i] == x[i % PHDR_SIZE] && b[i] == y[i % PHDR_SIZE];
      }
    } else if forall i :: 0 <= i < PHDR_SIZE * (|a| / PHDR_SIZE) ==> a[i] == b[i] {
      forall k | 0 <= k < |a| / PHDR_SIZE ensures Headers(a)[k] == Headers(b)[k] {
        assert a[PHDR_SIZE * k..PHDR_SIZE * k + PHDR_SIZE] == b[PHDR_SIZE * k..PHDR_SIZE * k + PHDR_SIZE];
      }
    }
  }

  lemma SameHeader(file: seq<Byte>, base: seq<Byte>)
    requires EHDR_SIZE <= |file| && EHDR_SIZE <= |base| && file[..EHDR_SIZE] == base[..EHDR_SIZE]
    ensures DecodeEhdr(file) == DecodeEhdr(base) && (ValidHeader(file) <==> ValidHeader(base))
  {
    var head := base[..EHDR_SIZE];
    forall i | 0 <= i < EHDR_SIZE ensures file[i] == base[i] {
      assert file[i] == head[i] && base[i] == head[i];
    }
    assert forall i, j :: 0 <= i <= j <= EHDR_SIZE ==> file[i..j] == base[i..j];
  }

  lemma TableBytes(file: seq<Byte>, base: seq<Byte>, start: nat, end: nat)
    requires start <= end <= |file| == |base|
    ensures Headers(file[start..end]) == Headers(base[start..end])
            <==> forall pos: nat :: InTable(start, end, pos) ==> file[pos] == base[pos]
  {
    HeadersInjective(file[start..end], base[start..end]);
    if forall pos: nat :: InTable(start, end, pos) ==> file[pos] == base[pos] {
      forall i | 0 <= i < PHDR_SIZE * ((end - start) / PHDR_SIZE) ensures file[start..end][i] == base[start..end][i] {
        assert InTable(start, end, start + i);
      }
    } else {
      var pos: nat :| InTable(start, end, pos) && file[pos] != base[pos];
      assert file[start..end][pos - start] != base[start..end][pos - start];
    }
  }

  /** The files with the same headers are those that agree on the header bytes. */
  lemma VariantExact(file: seq<Byte>, base: seq<Byte>, phdrs: seq<Phdr>)
    requires Carries(base, phdrs) && |file| == |base|
    ensures Variant(file, base, phdrs) <==> forall pos: nat :: HeaderByte(base, pos) ==> file[pos] == base[pos]
  {
    var ehdr := DecodeEhdr(base);
    var start, end := ehdr.PhdrStart(), ehdr.PhdrEnd();
    TableBytes(file, base, start, end);
    if file[..EHDR_SIZE] == base[..EHDR_SIZE] {
      SameHeader(file, base);
      forall pos: nat | pos < EHDR_SIZE ensures file[pos] == base[pos] {
        assert file[..EHDR_SIZE][pos] == base[..EHDR_SIZE][pos];
      }
    } else {
      var pos :| 0 <= pos < EHDR_SIZE && file[..EHDR_SIZE][pos] != base[..EHDR_SIZE][pos];
      assert HeaderByte(base, pos);
    }
  }

  // ----- writing headers: every header list has a file that carries it

  /** The fields fit the widths they have in the file. */
  predicate Fits(h: Phdr) {
    && h.kind < Pow256(4) && h.flags < Pow256(4)
    && h.offset < Pow256(8) && h.vaddr < Pow256(8) && h.paddr < Pow256(8)
    && h.filesz < Pow256(8) && h.memsz < Pow256(8) && h.align < Pow256(8)
  }

  function EncodePhdr(h: Phdr): (r: seq<Byte>)
    requires Fits(h)
    ensures |r| == PHDR_SIZE
  {
    Field(h.kind, HalfSize()) + Field(h.flags, HalfSize()) + Field(h.offset, WordSize()) + Field(h.vaddr, WordSize())
    + Field(h.paddr, WordSize()) + Field(h.filesz, WordSize()) + Field(h.memsz, WordSize()) + Field(h.align, WordSize())
  }

  lemma EightFields(a: seq<Byte>, b: seq<Byte>, c: seq<Byte>, d: seq<Byte>, e: seq<Byte>, f: seq<Byte>, g: seq<Byte>, h: seq<Byte>)
    requires |a| == |b| == 4 && |c| == |d| == |e| == |f| == |g| == |h| == 8
    ensures var all := a + b + c + d + e + f + g + h;
            && |all| == PHDR_SIZE && all[0..4] == a && all[4..8] == b && all[8..16] == c && all[16..24] == d
            && all[24..32] == e && all[32..40] == f && all[40..48] == g && all[48..56] == h
  {
  }

  lemma PhdrRoundTrip(h: Phdr)
    requires Fits(h)
    ensures DecodePhdr(EncodePhdr(h)) == h
  {
    EightFields(Field(h.kind, HalfSize()), Field(h.flags, HalfSize()), Field(h.offset, WordSize()), Field(h.vaddr, WordSize()),
                Field(h.paddr, WordSize()), Field(h.filesz, WordSize()), Field(h.memsz, WordSize()), Field(h.align, WordSize()));
  }

  function EncodeTable(phdrs: seq<Phdr>): (r: seq<Byte>)
    requires forall h :: h in phdrs ==> Fits(h)
    ensures |r| == PHDR_SIZE * |phdrs|
  {
    if phdrs == [] then [] else EncodePhdr(phdrs[0]) + EncodeTable(phdrs[1..])
  }

  /** Entry i of a table is the given header. */
  predicate EntryIs(b: seq<Byte>, i: nat, h: Phdr) {
    PHDR_SIZE * i + PHDR_SIZE <= |b| && DecodePhdr(b[PHDR_SIZE * i..PHDR_SIZE * i + PHDR_SIZE]) == h
  }

  lemma FirstEntry(head: seq<Byte>, tail: seq<Byte>)
    requires |head| == PHDR_SIZE
    ensures EntryIs(head + tail, 0, DecodePhdr(head))
  {
    assert (head + tail)[0..PHDR_SIZE] == head;
  }

  lemma LaterEntry(head: seq<Byte>, tail: seq<Byte>, i: nat, h: Phdr)
    requires |head| == PHDR_SIZE && EntryIs(tail, i, h)
    ensures EntryIs(head + tail, i + 1, h)
  {
    assert (head + tail)[PHDR_SIZE * (i + 1)..PHDR_SIZE * (i + 1) + PHDR_SIZE] == tail[PHDR_SIZE * i..PHDR_SIZE * i + PHDR_SIZE];
  }

  lemma {:induction false} EntryAt(phdrs: seq<Phdr>, i: nat)
    requires (forall h :: h in phdrs ==> Fits(h)) && i < |phdrs|
    ensures EntryIs(EncodeTable(phdrs), i, phdrs[i])
  {
    var head, tail := EncodePhdr(phdrs[0]), EncodeTable(phdrs[1..]);
    assert EncodeTable(phdrs) == head + tail;
    if i == 0 {
      PhdrRoundTrip(phdrs[0]);
      FirstEntry(head, tail);
    } else {
      EntryAt(phdrs[1..], i - 1);
      assert phdrs[1..][i - 1] == phdrs[i];
      LaterEntry(head, tail, i - 1, phdrs[i]);
    }
  }

  lemma HeadersAre(b: seq<Byte>, phdrs: seq<Phdr>)
    requires |b| == PHDR_SIZE * |phdrs| && forall i :: 0 <= i < |phdrs| ==> EntryIs(b, i, phdrs[i])
    ensures Headers(b) == phdrs
  {
    forall i | 0 <= i < |phdrs| ensures Headers(b)[i] == phdrs[i] {
      assert EntryIs(b, i, phdrs[i]);
    }
  }

  lemma TableRoundTrip(phdrs: seq<Phdr>)
    requires forall h :: h in phdrs ==> Fits(h)
    ensures Headers(EncodeTable(phdrs)) == phdrs
  {
    forall i | 0 <= i < |phdrs| ensures EntryIs(EncodeTable(phdrs), i, phdrs[i]) {
      EntryAt(phdrs, i);
    }
    HeadersAre(EncodeTable(phdrs), phdrs);
  }

  /** An ELF header for n entries that follow it. */
  function EncodeEhdr(n: nat): (r: seq<Byte>)
    requires n < Pow256(2)
    ensures |r| == EHDR_SIZE
  {
    ELF_MAGIC + [ELFCLASS64, 1, EV_CURRENT] + Zeros(11) + Field(EM_X86_64, ShortSize()) + Zeros(12) + Field(EHDR_SIZE, WordSize())
    + Zeros(14) + Field(PHDR_SIZE, ShortSize()) + Field(n, ShortSize()) + Zeros(6)
  }

  lemma EhdrParts(machine: seq<Byte>, off: seq<Byte>, size: seq<Byte>, num: seq<Byte>)
    requires |machine| == |size| == |num| == 2 && |off| == 8
    ensures var all := ELF_MAGIC + [ELFCLASS64, 1, EV_CURRENT] + Zeros(11) + machine + Zeros(12) + off + Zeros(14) + size + num + Zeros(6);
            && |all| == EHDR_SIZE && all[..4] == ELF_MAGIC && all[4] == ELFCLASS64 && all[6] == EV_CURRENT
            && all[18..20] == machine && all[32..40] == off && all[54..56] == size && all[56..58] == num
  {
    var a := ELF_MAGIC + [ELFCLASS64, 1, EV_CURRENT] + Zeros(11);
    assert |a| == 18 && a[..4] == ELF_MAGIC && a[4] == ELFCLASS64 && a[6] == EV_CURRENT;
    var b := a + machine + Zeros(12);
    assert |b| == 32 && b[..18] == a && b[18..20] == machine;
    var c := b + off + Zeros(14);
    assert |c| == 54 && c[..32] == b && c[32..40] == off;
    var all := c + size + num + Zeros(6);
    assert |all| == EHDR_SIZE && all[..54] == c && all[54..56] == size && all[56..58] == num;
    assert all[..54][18..20] == b[18..20] && all[..54][32..40] == off;
  }

  lemma EhdrRoundTrip(n: nat)
    requires n < Pow256(2)
    ensures ValidHeader(EncodeEhdr(n)) && DecodeEhdr(EncodeEhdr(n)) == ElfHeader(EHDR_SIZE, PHDR_SIZE, n)
  {
    EhdrParts(Field(EM_X86_64, ShortSize()), Field(EHDR_SIZE, WordSize()), Field(PHDR_SIZE, ShortSize()), Field(n, ShortSize()));
  }

  /** Round trip: the loader reads back any list of headers from a file that begins with them, whatever
      follows, if the file is large enough to fill the first buffer. */
  lemma WrittenIsCarried(phdrs: seq<Phdr>, rest: seq<Byte>)
    requires (forall h :: h in phdrs ==> Fits(h)) && |phdrs| < Pow256(2)
    requires MAX_BUF_SIZE <= EHDR_SIZE + PHDR_SIZE * |phdrs| + |rest|
    ensures Carries(EncodeEhdr(|phdrs|) + EncodeTable(phdrs) + rest, phdrs)
  {
    EhdrRoundTrip(|phdrs|);
    TableRoundTrip(phdrs);
    CarriedParts(EncodeEhdr(|phdrs|), EncodeTable(phdrs), rest, phdrs);
  }

  lemma CarriedParts(head: seq<Byte>, table: seq<Byte>, rest: seq<Byte>, phdrs: seq<Phdr>)
    requires |head| == EHDR_SIZE && ValidHeader(head) && DecodeEhdr(head) == ElfHeader(EHDR_SIZE, PHDR_SIZE, |phdrs|)
    requires |table| == PHDR_SIZE * |phdrs| && Headers(table) == phdrs
    requires MAX_BUF_SIZE <= |head| + |table| + |rest|
    ensures Carries(head + table + rest, phdrs)
  {
    var file := head + table + rest;
    assert file[..EHDR_SIZE] == head && head[..EHDR_SIZE] == head;
    SameHeader(file, head);
    assert file[EHDR_SIZE..EHDR_SIZE + |table|] == table;
  }
}
