/** Symbol lookup through the GNU hash table, with symbol versions. */
module Symbols {
  import opened Words
  import opened ElfHash
  import opened VersionTables
  import opened Bits

  const U32_SPAN: nat := 0x1_0000_0000
  const WORD_BITS: nat := 64

  const SHN_UNDEF: nat := 0
  const STB_LOCAL: nat := 0
  const STB_GLOBAL: nat := 1
  const STB_WEAK: nat := 2
  const STB_GNU_UNIQUE: nat := 10
  const STT_NOTYPE: nat := 0
  const STT_OBJECT: nat := 1
  const STT_FUNC: nat := 2
  const STT_COMMON: nat := 5
  const STT_TLS: nat := 6
  const STT_GNU_IFUNC: nat := 10

  datatype ElfSymbol = ElfSymbol(name: Name, value: Word, size: Word, info: Byte, shndx: nat)
  {
    function Bind(): nat {
      info / 16
    }

    function Type(): nat {
      info % 16
    }

    predicate IsUndef() {
      shndx == SHN_UNDEF
    }

    predicate IsLocal() {
      Bind() == STB_LOCAL
    }

    predicate IsWeak() {
      Bind() == STB_WEAK
    }

    predicate IsOkBind() {
      Bind() in {STB_GLOBAL, STB_WEAK, STB_GNU_UNIQUE}
    }

    predicate IsOkType() {
      Type() in {STT_NOTYPE, STT_OBJECT, STT_FUNC, STT_COMMON, STT_TLS, STT_GNU_IFUNC}
    }
  }

  datatype GnuHash = GnuHash(nbucket: nat, symbias: nat, nbloom: nat, nshift: nat,
                             blooms: seq<nat>, buckets: seq<nat>, chains: seq<nat>)

  datatype SymbolTable = SymbolTable(hashtab: GnuHash, symtab: seq<ElfSymbol>, version: Option<ELFVersion>)

  datatype SymbolVersion = SymbolVersion(name: Name, hash: nat, hidden: bool)

  /** What is being looked for: a name, and possibly a version of it. */
  datatype SymbolInfo = SymbolInfo(name: Name, version: Option<SymbolVersion>)

  function GnuHashFrom(name: Name, h: nat): (r: nat)
    ensures h < U32_SPAN ==> r < U32_SPAN
    decreases |name|
  {
    if name == [] then h else GnuHashFrom(name[1..], (h * 33 + name[0] as nat) % U32_SPAN)
  }

  function HashOf(name: Name): (r: nat)
    ensures r < U32_SPAN
  {
    GnuHashFrom(name, 5381)
  }

  /** `gnu_hash`. */
  method ComputeHash(name: Name) returns (hash: nat)
    ensures hash == HashOf(name)
  {
    hash := 5381;
    assert name[0..] == name;
    for i := 0 to |name|
      invariant GnuHashFrom(name[i..], hash) == HashOf(name)
    {
      assert name[i..][1..] == name[i + 1..];
      hash := (hash * 33 + name[i] as nat) % U32_SPAN;
    }
  }

  /** Byte by byte: the hash of the empty name, and what one more byte makes of a hash. */
  lemma {:induction false} HashGrows(name: Name, c: bv8, h: nat)
    ensures HashOf([]) == 5381
    ensures GnuHashFrom(name + [c], h) == (GnuHashFrom(name, h) * 33 + c as nat) % 0x1_0000_0000
    decreases |name|
  {
    if name == [] {
      assert name + [c] == [c] && [c][1..] == [];
      assert GnuHashFrom([c], h) == GnuHashFrom([], (h * 33 + c as nat) % U32_SPAN);
    } else {
      assert (name + [c])[1..] == name[1..] + [c];
      HashGrows(name[1..], c, (h * 33 + name[0] as nat) % U32_SPAN);
    }
  }

  // ----- versions

  /** Whether a candidate's version is acceptable. Crash is a panic or a read of a slot no entry
      of the version sections has written. */
  datatype Match = Hit | Miss | Crash

  predicate VersionDefined(v: ELFVersion, symIdx: nat) {
    VersionIndex(v.Id(symIdx)) < |v.versions| && v.versions[VersionIndex(v.Id(symIdx))].Some?
  }

  function CheckMatch(t: SymbolTable, symIdx: nat, version: Option<SymbolVersion>): Match {
    match version
    case None => Hit
    case Some(v) =>
      match t.version
      case None => Crash
      case Some(gnu) =>
        if !VersionDefined(gnu, symIdx) then Crash
        else
          var def := gnu.versions[VersionIndex(gnu.Id(symIdx))].value;
          if (def.hash == v.hash && def.name == v.name) || (!v.hidden && !IsHidden(gnu.Id(symIdx))) then Hit else Miss
  }

  /** `get_requirement`: the version a symbol of this object asks for. The outer None is a crash. */
  function GetRequirement(t: SymbolTable, symIdx: nat): Option<Option<SymbolVersion>> {
    match t.version
    case None => Some(None)
    case Some(gnu) =>
      if VersionIndex(gnu.Id(symIdx)) <= 1 then Some(None)
      else if !VersionDefined(gnu, symIdx) then None
      else
        var def := gnu.versions[VersionIndex(gnu.Id(symIdx))].value;
        Some(Some(SymbolVersion(def.name, def.hash, IsHidden(gnu.Id(symIdx)))))
  }

  /** `SymbolInfo::from_str` and `SymbolInfo::new_with_version`. */
  function InfoFromName(name: Name): SymbolInfo {
    SymbolInfo(name, None)
  }

  method InfoWithVersion(name: Name, version: Name) returns (r: SymbolInfo)
    requires version != []
    ensures r == SymbolInfo(name, Some(SymbolVersion(version, if version[0] != 0 then GabiHash(version) as nat else 0, true)))
  {
    var hash := DlElfHash(version);
    r := SymbolInfo(name, Some(SymbolVersion(version, hash as nat, true)));
  }

  // ----- the specification: a linear scan

  datatype LookupResult = Found(idx: nat) | Absent | Crashed

  /** The first symbol at or after i that has the name and does not miss on the version. */
  function Scan(t: SymbolTable, info: SymbolInfo, i: nat): LookupResult
    decreases |t.symtab| - i
  {
    if i >= |t.symtab| then Absent
    else if t.symtab[i].name == info.name && CheckMatch(t, i, info.version) != Miss then
      if CheckMatch(t, i, info.version) == Hit then Found(i) else Crashed
    else Scan(t, info, i + 1)
  }

  predicate Stops(t: SymbolTable, info: SymbolInfo, i: nat) {
    i < |t.symtab| && t.symtab[i].name == info.name && CheckMatch(t, i, info.version) != Miss
  }

  lemma {:induction false} ScanSkips(t: SymbolTable, info: SymbolInfo, i: nat, j: nat)
    requires i <= j && forall k :: i <= k < j ==> !Stops(t, info, k)
    ensures Scan(t, info, i) == Scan(t, info, j)
    decreases j - i
  {
    if i < j {
      assert !Stops(t, info, i);
      ScanSkips(t, info, i + 1, j);
    }
  }

  // ----- well-formed tables

  function BucketOf(t: SymbolTable, i: nat): (r: nat)
    requires i < |t.symtab| && t.hashtab.nbucket > 0
    ensures r < t.hashtab.nbucket
  {
    HashOf(t.symtab[i].name) % t.hashtab.nbucket
  }

  predicate Hashed(t: SymbolTable, i: nat) {
    t.hashtab.symbias <= i < |t.symtab|
  }

  /** Index of the bloom word of a hash, and the two bits it sets there. */
  function BloomWord(h: GnuHash, hash: nat): nat
    requires h.nbloom > 0
  {
    hash / WORD_BITS % h.nbloom
  }

  function BloomBit1(hash: nat): nat {
    hash % WORD_BITS
  }

  function BloomBit2(h: GnuHash, hash: nat): nat {
    ShiftRight(hash, h.nshift) % WORD_BITS
  }

  ghost predicate BloomAdmits(h: GnuHash, hash: nat)
    requires 0 < h.nbloom == |h.blooms|
  {
    var word := h.blooms[BloomWord(h, hash)];
    Bit(word, BloomBit1(hash)) && Bit(word, BloomBit2(h, hash))
  }

  predicate EndsChain(t: SymbolTable, i: nat)
    requires Hashed(t, i) && t.hashtab.nbucket > 0
  {
    i + 1 == |t.symtab| || BucketOf(t, i + 1) != BucketOf(t, i)
  }

  ghost predicate ShapeOk(t: SymbolTable) {
    var h := t.hashtab;
    && 0 < h.nbucket == |h.buckets|
    && 0 < h.nbloom == |h.blooms| && (exists k :: h.nbloom == Pow2(k))
    && h.nshift < 32
    && 0 < h.symbias <= |t.symtab|
    && |h.chains| == |t.symtab| - h.symbias
  }

  /** Symbols of one bucket stand together. */
  ghost predicate Grouped(t: SymbolTable)
    requires ShapeOk(t)
  {
    forall i: nat, j: nat, k: nat {:trigger Hashed(t, i), BucketOf(t, j), Hashed(t, k)} ::
      Hashed(t, i) && i < j < k && Hashed(t, k) && BucketOf(t, i) == BucketOf(t, k)
      ==> BucketOf(t, j) == BucketOf(t, i)
  }

  function ChainWord(hash: nat, last: bool): nat {
    if last then SetLow(hash) else SetLow(hash) - 1
  }

  lemma ChainWordTag(hash: nat, last: bool)
    ensures SetLow(ChainWord(hash, last)) == SetLow(hash)
    ensures ChainWord(hash, last) % 2 == 1 <==> last
  {
  }

  /** A chain word is the symbol's hash with its low bit telling the last symbol of a bucket. */
  ghost predicate ChainsOk(t: SymbolTable)
    requires ShapeOk(t)
  {
    forall i: nat {:trigger Hashed(t, i)} :: Hashed(t, i) ==>
      t.hashtab.chains[i - t.hashtab.symbias] == ChainWord(HashOf(t.symtab[i].name), EndsChain(t, i))
  }

  /** A bucket holds the index of its first symbol, or zero when it has none. */
  ghost predicate BucketsOk(t: SymbolTable)
    requires ShapeOk(t)
  {
    forall b :: 0 <= b < t.hashtab.nbucket ==>
      var start := t.hashtab.buckets[b];
      && (start == 0 ==> forall i: nat {:trigger Hashed(t, i)} :: Hashed(t, i) ==> BucketOf(t, i) != b)
      && (start != 0 ==> Hashed(t, start) && BucketOf(t, start) == b)
      && (start != 0 ==> forall i: nat {:trigger Hashed(t, i)} :: Hashed(t, i) && i < start ==> BucketOf(t, i) != b)
  }

  ghost predicate BloomOk(t: SymbolTable)
    requires ShapeOk(t)
  {
    forall i: nat {:trigger Hashed(t, i)} :: Hashed(t, i) ==> BloomAdmits(t.hashtab, HashOf(t.symtab[i].name))
  }

  ghost predicate WellFormed(t: SymbolTable) {
    ShapeOk(t) && Grouped(t) && ChainsOk(t) && BucketsOk(t) && BloomOk(t)
  }

  // ----- the lookup

  /** The bloom filter as the code reads it never rejects the name of a hashed symbol. */
  lemma BloomNeverRejects(t: SymbolTable, hash: nat)
    requires ShapeOk(t) && BloomAdmits(t.hashtab, hash)
    ensures BitAnd(hash / WORD_BITS, t.hashtab.nbloom - 1) == BloomWord(t.hashtab, hash)
    ensures var filter := t.hashtab.blooms[BloomWord(t.hashtab, hash)];
            && BitAnd(filter, Pow2(hash % WORD_BITS)) != 0
            && BitAnd(ShiftRight(filter, ShiftRight(hash, t.hashtab.nshift) % WORD_BITS), 1) != 0
  {
    MaskIndex(t.hashtab, hash);
    var filter := t.hashtab.blooms[BloomWord(t.hashtab, hash)];
    MaskIsBit(filter, hash % WORD_BITS);
    var i := ShiftRight(hash, t.hashtab.nshift) % WORD_BITS;
    ShiftIsBit(filter, i);
    MaskIsBit(ShiftRight(filter, i), 0);
  }

  lemma MaskIndex(h: GnuHash, hash: nat)
    requires exists k :: h.nbloom == Pow2(k)
    ensures h.nbloom > 0 && BitAnd(hash / WORD_BITS, h.nbloom - 1) == BloomWord(h, hash)
  {
    var k :| h.nbloom == Pow2(k);
    MaskIsMod(hash / WORD_BITS, k);
  }

  /** A symbol of another bucket does not have the name looked for. */
  lemma NotStopping(t: SymbolTable, info: SymbolInfo, i: nat)
    requires ShapeOk(t) && Hashed(t, i)
    requires BucketOf(t, i) != HashOf(info.name) % t.hashtab.nbucket
    ensures !Stops(t, info, i)
  {
  }

  /** The comparison the loop makes at one symbol. */
  method TryCandidate(t: SymbolTable, info: SymbolInfo, hash: nat, i: nat) returns (r: Match)
    requires ShapeOk(t) && ChainsOk(t) && Hashed(t, i) && hash == HashOf(info.name)
    ensures r != Miss <==> Stops(t, info, i)
    ensures r != Miss ==> Scan(t, info, i) == if r == Hit then Found(i) else Crashed
  {
    ChainStep(t, info, i);
    r := Miss;
    if SetLow(hash) == SetLow(t.hashtab.chains[i - t.hashtab.symbias]) && t.symtab[i].name == info.name {
      r := CheckMatch(t, i, info.version);
    }
  }

  lemma TaggedHash(t: SymbolTable, i: nat)
    requires ShapeOk(t) && ChainsOk(t) && Hashed(t, i)
    ensures SetLow(t.hashtab.chains[i - t.hashtab.symbias]) == SetLow(HashOf(t.symtab[i].name))
    ensures t.hashtab.chains[i - t.hashtab.symbias] % 2 == 1 <==> EndsChain(t, i)
  {
    ChainWordTag(HashOf(t.symtab[i].name), EndsChain(t, i));
  }

  /** Past the end of its bucket's chain a name cannot occur. */
  lemma NothingAfterChain(t: SymbolTable, info: SymbolInfo, i: nat)
    requires ShapeOk(t) && Grouped(t) && Hashed(t, i) && EndsChain(t, i)
    requires BucketOf(t, i) == HashOf(info.name) % t.hashtab.nbucket
    ensures Scan(t, info, i + 1) == Absent
  {
    forall k | i + 1 <= k < |t.symtab| ensures !Stops(t, info, k) {
      assert Hashed(t, k);
      assert BucketOf(t, k) != BucketOf(t, i);
      NotStopping(t, info, k);
    }
    ScanSkips(t, info, i + 1, |t.symtab|);
  }

  /** One symbol of the chain: the comparison of tagged hashes never hides a candidate, and the tag
      tells whether the bucket goes on. */
  lemma ChainStep(t: SymbolTable, info: SymbolInfo, i: nat)
    requires ShapeOk(t) && ChainsOk(t) && Hashed(t, i)
    ensures var word := t.hashtab.chains[i - t.hashtab.symbias];
            && (Stops(t, info, i) ==> SetLow(HashOf(info.name)) == SetLow(word))
            && (word % 2 == 0 ==> Hashed(t, i + 1) && BucketOf(t, i + 1) == BucketOf(t, i))
            && (word % 2 != 0 ==> EndsChain(t, i))
  {
    TaggedHash(t, i);
  }

  /** Walks one chain from the bucket's first symbol. */
  method WalkChain(t: SymbolTable, info: SymbolInfo, hash: nat, start: nat) returns (r: LookupResult)
    requires ShapeOk(t) && Grouped(t) && ChainsOk(t) && hash == HashOf(info.name)
    requires Hashed(t, start) && BucketOf(t, start) == hash % t.hashtab.nbucket
    ensures r == Scan(t, info, start)
  {
    ghost var target := Scan(t, info, start);
    var i := start;
    while true
      invariant Hashed(t, i) && BucketOf(t, i) == hash % t.hashtab.nbucket
      invariant Scan(t, info, i) == target
      decreases |t.symtab| - i
    {
      var found := TryCandidate(t, info, hash, i);
      if found != Miss {
        return if found == Hit then Found(i) else Crashed;
      }
      ChainStep(t, info, i);
      var chainHash := t.hashtab.chains[i - t.hashtab.symbias];
      ScanSkips(t, info, i, i + 1);
      if chainHash % 2 != 0 {
        NothingAfterChain(t, info, i);
        return Absent;
      }
      i := i + 1;
    }
  }

  /** `lookup`: bloom filter, bucket and chain give what a linear scan of the hashed symbols gives. */
  method Lookup(t: SymbolTable, info: SymbolInfo) returns (r: LookupResult)
    requires WellFormed(t)
    ensures r == Scan(t, info, t.hashtab.symbias)
  {
    var h := t.hashtab;
    var hash := ComputeHash(info.name);
    MaskIndex(h, hash);
    var filter := h.blooms[BitAnd(hash / WORD_BITS, h.nbloom - 1)];
    if BitAnd(filter, Pow2(hash % WORD_BITS)) == 0
       || BitAnd(ShiftRight(filter, ShiftRight(hash, h.nshift) % WORD_BITS), 1) == 0 {
      forall k | h.symbias <= k < |t.symtab| ensures !Stops(t, info, k) {
        assert Hashed(t, k);
        if t.symtab[k].name == info.name {
          BloomNeverRejects(t, hash);
        }
      }
      ScanSkips(t, info, h.symbias, |t.symtab|);
      return Absent;
    }
    var start := h.buckets[hash % h.nbucket];
    if start == 0 {
      forall k | h.symbias <= k < |t.symtab| ensures !Stops(t, info, k) {
        assert Hashed(t, k);
        NotStopping(t, info, k);
      }
      ScanSkips(t, info, h.symbias, |t.symtab|);
      return Absent;
    }
    forall k | h.symbias <= k < start ensures !Stops(t, info, k) {
      assert Hashed(t, k);
      NotStopping(t, info, k);
    }
    ScanSkips(t, info, h.symbias, start);
    r := WalkChain(t, info, hash, start);
  }

  // ----- what the scan finds

  ghost predicate IsFirst(t: SymbolTable, info: SymbolInfo, i: nat, accepts: nat -> bool) {
    && Hashed(t, i) && t.symtab[i].name == info.name && accepts(i)
    && forall k :: t.hashtab.symbias <= k < i ==> !(t.symtab[k].name == info.name && accepts(k))
  }

  ghost predicate NoneAccepted(t: SymbolTable, info: SymbolInfo, accepts: nat -> bool) {
    forall k: nat :: Hashed(t, k) ==> !(t.symtab[k].name == info.name && accepts(k))
  }

  lemma {:induction false} FirstStop(t: SymbolTable, info: SymbolInfo, i: nat) returns (j: nat)
    requires Scan(t, info, i) != Absent
    ensures i <= j && Stops(t, info, j) && forall k :: i <= k < j ==> !Stops(t, info, k)
    ensures Scan(t, info, i) == if CheckMatch(t, j, info.version) == Hit then Found(j) else Crashed
    decreases |t.symtab| - i
  {
    if Stops(t, info, i) {
      j := i;
    } else {
      j := FirstStop(t, info, i + 1);
    }
  }

  lemma {:induction false} AbsentNone(t: SymbolTable, info: SymbolInfo, i: nat)
    requires Scan(t, info, i) == Absent
    ensures forall k :: i <= k < |t.symtab| ==> !Stops(t, info, k)
    decreases |t.symtab| - i
  {
    if i < |t.symtab| {
      assert !Stops(t, info, i);
      AbsentNone(t, info, i + 1);
    }
  }

  lemma ScanFrom(t: SymbolTable, info: SymbolInfo, i: nat)
    ensures Scan(t, info, i).Absent? <==> forall k :: i <= k < |t.symtab| ==> !Stops(t, info, k)
    ensures forall j :: Scan(t, info, i) == Found(j) <==>
              i <= j && Stops(t, info, j) && CheckMatch(t, j, info.version) == Hit && forall k :: i <= k < j ==> !Stops(t, info, k)
  {
    if Scan(t, info, i) == Absent {
      AbsentNone(t, info, i);
    } else {
      var first := FirstStop(t, info, i);
      assert Stops(t, info, first) && first < |t.symtab|;
      forall j: nat | i <= j && Stops(t, info, j) && forall k :: i <= k < j ==> !Stops(t, info, k) ensures j == first {
      }
    }
  }

  /** Without a version the lookup finds the lowest-index hashed symbol of that name, and nothing
      exactly when there is none. */
  lemma UnversionedExact(t: SymbolTable, name: Name)
    ensures var r := Scan(t, InfoFromName(name), t.hashtab.symbias);
            && (forall i :: r == Found(i) <==> IsFirst(t, InfoFromName(name), i, _ => true))
            && (r == Absent <==> NoneAccepted(t, InfoFromName(name), _ => true))
            && r != Crashed
  {
    var info := InfoFromName(name);
    ScanFrom(t, info, t.hashtab.symbias);
    assert forall k: nat :: Stops(t, info, k) <==> k < |t.symtab| && t.symtab[k].name == name;
    if Scan(t, info, t.hashtab.symbias) != Absent {
      var j := FirstStop(t, info, t.hashtab.symbias);
    }
  }

  /** Every hashed symbol has a version, and versions are stored with their ELF hashes. */
  predicate VersionsReady(t: SymbolTable) {
    && t.version.Some?
    && (forall i {:trigger Hashed(t, i)} :: 0 <= i < |t.symtab| && Hashed(t, i) ==> VersionDefined(t.version.value, i))
  }

  predicate HashesStored(v: ELFVersion) {
    forall k :: 0 <= k < |v.versions| && v.versions[k].Some? ==> v.versions[k].value.hash == GabiHash(v.versions[k].value.name) as nat
  }

  function VersionNameOf(t: SymbolTable, i: nat): Name {
    if t.version.Some? && VersionDefined(t.version.value, i)
    then t.version.value.versions[VersionIndex(t.version.value.Id(i))].value.name
    else []
  }

  /** A symbol answers a versioned request with the version asked for or, unless the request is a hidden
      one, with a default version: any that is not hidden. */
  predicate Answers(t: SymbolTable, i: nat, v: SymbolVersion)
    requires t.version.Some?
  {
    VersionNameOf(t, i) == v.name || (!v.hidden && !IsHidden(t.version.value.Id(i)))
  }

  /** With a version the lookup finds the lowest-index hashed symbol of that name that answers the
      request, and nothing exactly when there is none. */
  lemma VersionedExact(t: SymbolTable, name: Name, v: SymbolVersion)
    requires VersionsReady(t) && HashesStored(t.version.value) && v.hash == GabiHash(v.name) as nat
    ensures var info := SymbolInfo(name, Some(v));
            var r := Scan(t, info, t.hashtab.symbias);
            var accepts := (i: nat) => Answers(t, i, v);
            && (forall i :: r == Found(i) <==> IsFirst(t, info, i, accepts))
            && (r == Absent <==> NoneAccepted(t, info, accepts))
            && r != Crashed
  {
    var info := SymbolInfo(name, Some(v));
    var bias := t.hashtab.symbias;
    ScanFrom(t, info, bias);
    forall k | Hashed(t, k)
      ensures CheckMatch(t, k, info.version) == if Answers(t, k, v) then Hit else Miss
    {
      assert VersionDefined(t.version.value, k);
    }
    if Scan(t, info, bias) != Absent {
      var j := FirstStop(t, info, bias);
      assert Hashed(t, j);
    }
  }

  /** What a symbol asks for, it also answers: a request carries the name and the ELF hash of the
      symbol's own version, and indices 0 and 1 (local and global) ask for none. */
  lemma RequirementIsOwnVersion(t: SymbolTable, idx: nat)
    requires t.version.Some? && VersionDefined(t.version.value, idx) && HashesStored(t.version.value)
    ensures var req := GetRequirement(t, idx);
            && req.Some?
            && (req.value.None? <==> VersionIndex(t.version.value.Id(idx)) <= 1)
            && (req.value.Some? ==>
                  && req.value.value.name == VersionNameOf(t, idx)
                  && req.value.value.hash == GabiHash(VersionNameOf(t, idx)) as nat
                  && Answers(t, idx, req.value.value)
                  && CheckMatch(t, idx, req.value) == Hit)
  {
  }

  /** i is the first hashed symbol of that name and version. */
  ghost predicate FirstVersioned(t: SymbolTable, name: Name, version: Name, i: nat) {
    && Hashed(t, i) && t.symtab[i].name == name && VersionNameOf(t, i) == version
    && forall k :: t.hashtab.symbias <= k < i ==> !(t.symtab[k].name == name && VersionNameOf(t, k) == version)
  }

  lemma HiddenExact(t: SymbolTable, name: Name, v: SymbolVersion)
    requires VersionsReady(t) && HashesStored(t.version.value) && v.hash == GabiHash(v.name) as nat && v.hidden
    ensures LookupFilter(t, SymbolInfo(name, Some(v))) != Crashed
    ensures forall i: nat :: LookupFilter(t, SymbolInfo(name, Some(v))) == Found(i)
                             <==> FirstVersioned(t, name, v.name, i) && Usable(t.symtab[i])
  {
    VersionedExact(t, name, v);
    var accepts := (i: nat) => Answers(t, i, v);
    forall i: nat ensures IsFirst(t, SymbolInfo(name, Some(v)), i, accepts) <==> FirstVersioned(t, name, v.name, i) {
      assert forall k: nat :: accepts(k) <==> VersionNameOf(t, k) == v.name;
    }
  }

  /** The lookup that `get_version` makes, from the two names to the symbol: hashes, bloom filter, chain
      and version check together find exactly the first symbol of that name and version, and give it
      back exactly when it is defined and of a usable binding and type. */
  method LookupVersioned(t: SymbolTable, name: Name, version: Name) returns (r: Option<nat>)
    requires WellFormed(t) && VersionsReady(t) && HashesStored(t.version.value)
    requires version != [] && version[0] != 0
    ensures forall i: nat :: r == Some(i) <==> FirstVersioned(t, name, version, i) && Usable(t.symtab[i])
  {
    var info := InfoWithVersion(name, version);
    HiddenExact(t, name, info.version.value);
    var found := LookupUsable(t, info);
    r := if found.Found? then Some(found.idx) else None;
  }

  /** When the version array built from a table's version sections makes it ready: every hashed symbol's
      index is one that an entry defines, and entries carry the ELF hashes of their names. */
  lemma SectionsMakeReady(t: SymbolTable, mem: Image, ids: nat, es: seq<Entry>)
    requires t.version == Some(ELFVersion(mem, ids, VersionArray(es)))
    ensures VersionsReady(t) <==> forall i: nat :: Hashed(t, i) ==> !Unwritten(es, VersionIndex(t.version.value.Id(i)))
    ensures (forall e :: e in es ==> e.version.hash == GabiHash(e.version.name) as nat) ==> HashesStored(t.version.value)
    ensures DistinctIndices(es) && HashesStored(t.version.value) ==>
              forall e :: e in es ==> e.version.hash == GabiHash(e.version.name) as nat
  {
    forall k: nat
      ensures k < |VersionArray(es)| && VersionArray(es)[k].Some? <==> !Unwritten(es, k)
      ensures k < |VersionArray(es)| && VersionArray(es)[k].Some? ==> Entry(k, VersionArray(es)[k].value) in es
    {
      ArrayDefines(es, k);
    }
    if DistinctIndices(es) && HashesStored(t.version.value) {
      forall e | e in es ensures e.version.hash == GabiHash(e.version.name) as nat {
        VersionArrayIsMap(es, e.ndx, e.version);
      }
    }
  }

  /** A lookup crashes exactly when the first candidate that is not passed over cannot be checked: a
      versioned request meets that name in a table without versions, or a symbol whose version is
      not defined. */
  lemma CrashExactly(t: SymbolTable, info: SymbolInfo)
    ensures Scan(t, info, t.hashtab.symbias) == Crashed
            <==> exists j :: Hashed(t, j) && Stops(t, info, j) && (forall k :: t.hashtab.symbias <= k < j ==> !Stops(t, info, k))
                             && info.version.Some? && (t.version.None? || !VersionDefined(t.version.value, j))
  {
    ScanFrom(t, info, t.hashtab.symbias);
    if Scan(t, info, t.hashtab.symbias) != Absent {
      var j := FirstStop(t, info, t.hashtab.symbias);
      assert Hashed(t, j);
    }
  }

  /** A versioned request aborts in every table without versions that hashes a symbol of that name,
      and an unversioned one in none. */
  lemma VersionlessTableAborts(t: SymbolTable, info: SymbolInfo)
    requires t.version.None?
    ensures Scan(t, info, t.hashtab.symbias) == Crashed
            <==> info.version.Some? && exists k: nat :: Hashed(t, k) && t.symtab[k].name == info.name
  {
    CrashExactly(t, info);
    if info.version.Some? && Scan(t, info, t.hashtab.symbias) == Absent {
      ScanFrom(t, info, t.hashtab.symbias);
    }
    if k: nat :| Hashed(t, k) && t.symtab[k].name == info.name && info.version.Some? {
      assert Stops(t, info, k);
      ScanFrom(t, info, t.hashtab.symbias);
      var j := FirstStop(t, info, t.hashtab.symbias);
    }
  }

  // ----- counting symbols

  /** The largest bucket start. */
  method LargestBucket(h: GnuHash) returns (nsym: nat)
    requires h.nbucket == |h.buckets|
    ensures forall c :: 0 <= c < h.nbucket ==> h.buckets[c] <= nsym
    ensures nsym == 0 || exists c :: 0 <= c < h.nbucket && h.buckets[c] == nsym
  {
    nsym := 0;
    for b := 0 to h.nbucket
      invariant forall c :: 0 <= c < b ==> h.buckets[c] <= nsym
      invariant nsym == 0 || exists c :: 0 <= c < b && h.buckets[c] == nsym
    {
      nsym := if h.buckets[b] > nsym then h.buckets[b] else nsym;
    }
  }

  /** The walk to the end of a chain of the last symbol's bucket reaches the last symbol. */
  method WalkToEnd(t: SymbolTable, start: nat) returns (nsym: nat)
    requires ShapeOk(t) && Grouped(t) && ChainsOk(t)
    requires Hashed(t, start) && BucketOf(t, start) == BucketOf(t, |t.symtab| - 1)
    ensures nsym == |t.symtab| - 1
  {
    nsym := start;
    while t.hashtab.chains[nsym - t.hashtab.symbias] % 2 == 0
      invariant Hashed(t, nsym) && BucketOf(t, nsym) == BucketOf(t, |t.symtab| - 1)
      decreases |t.symtab| - nsym
    {
      ChainStep(t, InfoFromName([]), nsym);
      nsym := nsym + 1;
    }
    ChainStep(t, InfoFromName([]), nsym);
    LastOfRun(t, nsym);
  }

  /** `count_syms`: the chain of the highest bucket ends at the last symbol, so the count is the size
      of the symbol table exactly when something is hashed or only the null symbol precedes. */
  method CountSyms(t: SymbolTable) returns (n: nat)
    requires WellFormed(t)
    ensures n == |t.symtab| <==> t.hashtab.symbias < |t.symtab| || t.hashtab.symbias == 1
    ensures t.hashtab.symbias == |t.symtab| ==> n == 1
  {
    var nsym := LargestBucket(t.hashtab);
    if nsym > 0 {
      ghost var b :| 0 <= b < t.hashtab.nbucket && t.hashtab.buckets[b] == nsym;
      HighestRun(t, nsym, b);
      nsym := WalkToEnd(t, nsym);
    } else {
      NoBucketStarts(t);
    }
    n := nsym + 1;
  }

  /** The highest bucket start opens the run that reaches the last symbol. */
  lemma HighestRun(t: SymbolTable, start: nat, b: nat)
    requires ShapeOk(t) && Grouped(t) && BucketsOk(t) && b < t.hashtab.nbucket && t.hashtab.buckets[b] == start
    requires forall c :: 0 <= c < t.hashtab.nbucket ==> t.hashtab.buckets[c] <= start
    requires start > 0
    ensures Hashed(t, start) && BucketOf(t, start) == BucketOf(t, |t.symtab| - 1)
  {
    var last := |t.symtab| - 1;
    var c := BucketOf(t, last);
    LastBucketStarts(t);
    assert Hashed(t, last);
    var s := t.hashtab.buckets[c];
    assert Hashed(t, s) && BucketOf(t, s) == c;
    assert Hashed(t, start) && BucketOf(t, start) == b;
    assert s == start || s < start < last || start == last;
  }

  /** A chain of the last symbol's bucket that ends, ends there. */
  lemma LastOfRun(t: SymbolTable, i: nat)
    requires ShapeOk(t) && Grouped(t) && Hashed(t, i) && EndsChain(t, i)
    requires BucketOf(t, i) == BucketOf(t, |t.symtab| - 1)
    ensures i == |t.symtab| - 1
  {
    assert Hashed(t, |t.symtab| - 1);
  }

  lemma LastBucketStarts(t: SymbolTable)
    requires ShapeOk(t) && BucketsOk(t) && t.hashtab.symbias < |t.symtab|
    ensures BucketOf(t, |t.symtab| - 1) < t.hashtab.nbucket
    ensures t.hashtab.buckets[BucketOf(t, |t.symtab| - 1)] != 0
  {
    assert Hashed(t, |t.symtab| - 1);
  }

  lemma NoBucketStarts(t: SymbolTable)
    requires ShapeOk(t) && BucketsOk(t)
    requires forall c :: 0 <= c < t.hashtab.nbucket ==> t.hashtab.buckets[c] == 0
    ensures t.hashtab.symbias == |t.symtab|
  {
    if t.hashtab.symbias < |t.symtab| {
      LastBucketStarts(t);
    }
  }

  predicate Usable(s: ElfSymbol) {
    !s.IsUndef() && s.IsOkBind() && s.IsOkType()
  }

  /** The bits of st_info and the section index that make a symbol usable: global, weak or unique, and of one
      of six types. */
  lemma UsableExactly(s: ElfSymbol)
    ensures Usable(s) <==> && s.shndx != 0
                           && (16 <= s.info < 48 || 160 <= s.info < 176)
                           && (s.info % 16 <= 2 || s.info % 16 == 5 || s.info % 16 == 6 || s.info % 16 == 10)
    ensures s.IsLocal() <==> s.info < 16
    ensures s.IsWeak() <==> 32 <= s.info < 48
  {
  }

  /** `lookup_filter`: the symbol looked up, if it is defined and of a usable binding and type. */
  function LookupFilter(t: SymbolTable, info: SymbolInfo): (r: LookupResult)
    ensures r.Found? ==> r.idx < |t.symtab| && t.symtab[r.idx].name == info.name && Usable(t.symtab[r.idx])
  {
    ScanFrom(t, info, t.hashtab.symbias);
    match Scan(t, info, t.hashtab.symbias)
    case Found(i) => if Usable(t.symtab[i]) then Found(i) else Absent
    case Absent => Absent
    case Crashed => Crashed
  }

  method LookupUsable(t: SymbolTable, info: SymbolInfo) returns (r: LookupResult)
    requires WellFormed(t)
    ensures r == LookupFilter(t, info)
  {
    r := Lookup(t, info);
    ScanFrom(t, info, t.hashtab.symbias);
    if r.Found? && !Usable(t.symtab[r.idx]) {
      r := Absent;
    }
  }
}
