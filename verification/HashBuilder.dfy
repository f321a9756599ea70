/** A builder of GNU hash tables: what a linker lays out for a list of symbols. It shows that
    well-formed tables exist for every list of symbols and every table geometry. */
module HashBuilder {
  import opened Words
  import opened ElfHash
  import opened VersionTables
  import opened Bits
  import opened Symbols

  const NULL_SYMBOL := ElfSymbol([], 0, 0, 0, SHN_UNDEF)

  function Bucket(s: ElfSymbol, nbucket: nat): (r: nat)
    requires nbucket > 0
    ensures r < nbucket
  {
    HashOf(s.name) % nbucket
  }

  /** The symbols of bucket b, in order. */
  function InBucket(syms: seq<ElfSymbol>, nbucket: nat, b: nat): (r: seq<ElfSymbol>)
    requires nbucket > 0
    ensures forall s :: s in r ==> Bucket(s, nbucket) == b
  {
    if syms == [] then []
    else (if Bucket(syms[0], nbucket) == b then [syms[0]] else []) + InBucket(syms[1..], nbucket, b)
  }

  /** The symbols of the first n buckets, bucket after bucket. */
  function Arranged(syms: seq<ElfSymbol>, nbucket: nat, n: nat): seq<ElfSymbol>
    requires nbucket > 0
  {
    if n == 0 then [] else Arranged(syms, nbucket, n - 1) + InBucket(syms, nbucket, n - 1)
  }

  /** Index in the symbol table of the first of `syms` in bucket b (the null symbol comes first), or 0. */
  function FirstIndex(syms: seq<ElfSymbol>, nbucket: nat, b: nat): (r: nat)
    requires nbucket > 0
    ensures r <= |syms|
    ensures r == 0 <==> forall i :: 0 <= i < |syms| ==> Bucket(syms[i], nbucket) != b
    ensures r != 0 ==> Bucket(syms[r - 1], nbucket) == b && forall i :: 0 <= i < r - 1 ==> Bucket(syms[i], nbucket) != b
  {
    if syms == [] then 0
    else if Bucket(syms[0], nbucket) == b then 1
    else
      var rest := FirstIndex(syms[1..], nbucket, b);
      assert forall i :: 1 <= i < |syms| ==> syms[i] == syms[1..][i - 1];
      if rest == 0 then 0 else rest + 1
  }

  predicate SetsBit(s: ElfSymbol, geometry: GnuHash, word: nat, bit: nat)
    requires geometry.nbloom > 0
  {
    var hash := HashOf(s.name);
    BloomWord(geometry, hash) == word && (BloomBit1(hash) == bit || BloomBit2(geometry, hash) == bit)
  }

  function BloomBits(syms: seq<ElfSymbol>, geometry: GnuHash, word: nat): (r: seq<bool>)
    requires geometry.nbloom > 0
    ensures |r| == WORD_BITS
    ensures forall bit :: 0 <= bit < WORD_BITS ==> r[bit] == exists s :: s in syms && SetsBit(s, geometry, word, bit)
  {
    seq(WORD_BITS, bit requires 0 <= bit < WORD_BITS => exists s :: s in syms && SetsBit(s, geometry, word, bit))
  }

  function ChainOf(syms: seq<ElfSymbol>, nbucket: nat, i: nat): nat
    requires nbucket > 0 && i < |syms|
  {
    ChainWord(HashOf(syms[i].name), i + 1 == |syms| || Bucket(syms[i + 1], nbucket) != Bucket(syms[i], nbucket))
  }

  function Build(symbols: seq<ElfSymbol>, nbucket: nat, bloomLog: nat, nshift: nat): SymbolTable
    requires nbucket > 0
  {
    var syms := Arranged(symbols, nbucket, nbucket);
    var geometry := GnuHash(nbucket, 1, Pow2(bloomLog), nshift, [], [], []);
    SymbolTable(
      geometry.(blooms := seq(Pow2(bloomLog), w requires 0 <= w < Pow2(bloomLog) => WordOf(BloomBits(syms, geometry, w))),
                buckets := seq(nbucket, b requires 0 <= b < nbucket => FirstIndex(syms, nbucket, b)),
                chains := seq(|syms|, i requires 0 <= i < |syms| => ChainOf(syms, nbucket, i))),
      [NULL_SYMBOL] + syms, None)
  }

  lemma {:induction false} ArrangedIsSorted(syms: seq<ElfSymbol>, nbucket: nat, n: nat)
    requires nbucket > 0
    ensures forall i, j :: 0 <= i <= j < |Arranged(syms, nbucket, n)| ==>
              Bucket(Arranged(syms, nbucket, n)[i], nbucket) <= Bucket(Arranged(syms, nbucket, n)[j], nbucket) < n
  {
    if n > 0 {
      ArrangedIsSorted(syms, nbucket, n - 1);
      var front, back := Arranged(syms, nbucket, n - 1), InBucket(syms, nbucket, n - 1);
      assert forall k :: 0 <= k < |back| ==> back[k] in back;
    }
  }

  /** How often s occurs. */
  function Count(syms: seq<ElfSymbol>, s: ElfSymbol): nat {
    if syms == [] then 0 else (if syms[0] == s then 1 else 0) + Count(syms[1..], s)
  }

  lemma {:induction false} CountIsMultiplicity(syms: seq<ElfSymbol>, s: ElfSymbol)
    ensures multiset(syms)[s] == Count(syms, s)
  {
    if syms != [] {
      assert syms == [syms[0]] + syms[1..];
      CountIsMultiplicity(syms[1..], s);
    }
  }

  lemma {:induction false} CountConcat(a: seq<ElfSymbol>, b: seq<ElfSymbol>, s: ElfSymbol)
    ensures Count(a + b, s) == Count(a, s) + Count(b, s)
  {
    if a == [] {
      assert a + b == b;
    } else {
      assert (a + b)[1..] == a[1..] + b;
      CountConcat(a[1..], b, s);
    }
  }

  lemma {:induction false} InBucketKeeps(syms: seq<ElfSymbol>, nbucket: nat, b: nat, s: ElfSymbol)
    requires nbucket > 0
    ensures Count(InBucket(syms, nbucket, b), s) == if Bucket(s, nbucket) == b then Count(syms, s) else 0
  {
    if syms != [] {
      InBucketKeeps(syms[1..], nbucket, b, s);
      CountConcat(if Bucket(syms[0], nbucket) == b then [syms[0]] else [], InBucket(syms[1..], nbucket, b), s);
    }
  }

  /** Arranging by bucket loses and invents nothing. */
  lemma {:induction false} ArrangedKeeps(syms: seq<ElfSymbol>, nbucket: nat, n: nat, s: ElfSymbol)
    requires nbucket > 0
    ensures Count(Arranged(syms, nbucket, n), s) == if Bucket(s, nbucket) < n then Count(syms, s) else 0
  {
    if n > 0 {
      ArrangedKeeps(syms, nbucket, n - 1, s);
      InBucketKeeps(syms, nbucket, n - 1, s);
      CountConcat(Arranged(syms, nbucket, n - 1), InBucket(syms, nbucket, n - 1), s);
    }
  }

  lemma BuildKeepsSymbols(symbols: seq<ElfSymbol>, nbucket: nat, bloomLog: nat, nshift: nat)
    requires nbucket > 0
    ensures var t := Build(symbols, nbucket, bloomLog, nshift);
            && t.symtab != [] && t.symtab[0] == NULL_SYMBOL && multiset(t.symtab[1..]) == multiset(symbols)
  {
    var t := Build(symbols, nbucket, bloomLog, nshift);
    assert t.symtab[1..] == Arranged(symbols, nbucket, nbucket);
    forall s ensures multiset(t.symtab[1..])[s] == multiset(symbols)[s] {
      ArrangedKeeps(symbols, nbucket, nbucket, s);
      CountIsMultiplicity(t.symtab[1..], s);
      CountIsMultiplicity(symbols, s);
    }
  }

  lemma BuiltShape(symbols: seq<ElfSymbol>, nbucket: nat, bloomLog: nat, nshift: nat)
    requires nbucket > 0 && nshift < 32
    ensures ShapeOk(Build(symbols, nbucket, bloomLog, nshift))
  {
  }

  lemma BuiltGroups(symbols: seq<ElfSymbol>, nbucket: nat, bloomLog: nat, nshift: nat)
    requires nbucket > 0 && nshift < 32
    ensures ShapeOk(Build(symbols, nbucket, bloomLog, nshift)) && Grouped(Build(symbols, nbucket, bloomLog, nshift))
  {
    var t := Build(symbols, nbucket, bloomLog, nshift);
    var syms := Arranged(symbols, nbucket, nbucket);
    BuiltShape(symbols, nbucket, bloomLog, nshift);
    ArrangedIsSorted(symbols, nbucket, nbucket);
    forall i: nat, j: nat, k: nat | Hashed(t, i) && i < j < k && Hashed(t, k) && BucketOf(t, i) == BucketOf(t, k)
      ensures BucketOf(t, j) == BucketOf(t, i)
    {
      BuiltBucket(symbols, nbucket, bloomLog, nshift, i);
      BuiltBucket(symbols, nbucket, bloomLog, nshift, j);
      BuiltBucket(symbols, nbucket, bloomLog, nshift, k);
    }
  }

  lemma BuiltBucket(symbols: seq<ElfSymbol>, nbucket: nat, bloomLog: nat, nshift: nat, i: nat)
    requires nbucket > 0 && Hashed(Build(symbols, nbucket, bloomLog, nshift), i)
    ensures var syms := Arranged(symbols, nbucket, nbucket);
            && 1 <= i <= |syms| && Build(symbols, nbucket, bloomLog, nshift).symtab[i] == syms[i - 1]
            && BucketOf(Build(symbols, nbucket, bloomLog, nshift), i) == Bucket(syms[i - 1], nbucket)
  {
  }

  lemma BuiltChains(symbols: seq<ElfSymbol>, nbucket: nat, bloomLog: nat, nshift: nat)
    requires nbucket > 0 && nshift < 32
    ensures ShapeOk(Build(symbols, nbucket, bloomLog, nshift)) && ChainsOk(Build(symbols, nbucket, bloomLog, nshift))
  {
    var t := Build(symbols, nbucket, bloomLog, nshift);
    var syms := Arranged(symbols, nbucket, nbucket);
    BuiltShape(symbols, nbucket, bloomLog, nshift);
    forall i: nat | Hashed(t, i)
      ensures t.hashtab.chains[i - 1] == ChainWord(HashOf(t.symtab[i].name), EndsChain(t, i))
    {
      BuiltBucket(symbols, nbucket, bloomLog, nshift, i);
      assert t.hashtab.chains[i - 1] == ChainOf(syms, nbucket, i - 1);
      if i < |syms| {
        BuiltBucket(symbols, nbucket, bloomLog, nshift, i + 1);
      }
    }
  }

  lemma BuiltBuckets(symbols: seq<ElfSymbol>, nbucket: nat, bloomLog: nat, nshift: nat)
    requires nbucket > 0 && nshift < 32
    ensures ShapeOk(Build(symbols, nbucket, bloomLog, nshift)) && BucketsOk(Build(symbols, nbucket, bloomLog, nshift))
  {
    var t := Build(symbols, nbucket, bloomLog, nshift);
    var syms := Arranged(symbols, nbucket, nbucket);
    BuiltShape(symbols, nbucket, bloomLog, nshift);
    forall b | 0 <= b < nbucket
      ensures var start := t.hashtab.buckets[b];
              && (start == 0 ==> forall i: nat {:trigger Hashed(t, i)} :: Hashed(t, i) ==> BucketOf(t, i) != b)
              && (start != 0 ==> Hashed(t, start) && BucketOf(t, start) == b)
              && (start != 0 ==> forall i: nat {:trigger Hashed(t, i)} :: Hashed(t, i) && i < start ==> BucketOf(t, i) != b)
    {
      var start := t.hashtab.buckets[b];
      assert start == FirstIndex(syms, nbucket, b);
      forall i: nat | Hashed(t, i) ensures BucketOf(t, i) == Bucket(syms[i - 1], nbucket) {
        BuiltBucket(symbols, nbucket, bloomLog, nshift, i);
      }
    }
  }

  lemma BuiltBloom(symbols: seq<ElfSymbol>, nbucket: nat, bloomLog: nat, nshift: nat)
    requires nbucket > 0 && nshift < 32
    ensures ShapeOk(Build(symbols, nbucket, bloomLog, nshift)) && BloomOk(Build(symbols, nbucket, bloomLog, nshift))
  {
    var t := Build(symbols, nbucket, bloomLog, nshift);
    var syms := Arranged(symbols, nbucket, nbucket);
    var geometry := GnuHash(nbucket, 1, Pow2(bloomLog), nshift, [], [], []);
    BuiltShape(symbols, nbucket, bloomLog, nshift);
    forall i: nat | Hashed(t, i) ensures BloomAdmits(t.hashtab, HashOf(t.symtab[i].name)) {
      BuiltBucket(symbols, nbucket, bloomLog, nshift, i);
      var s := syms[i - 1];
      var hash := HashOf(s.name);
      var w := BloomWord(geometry, hash);
      var bits := BloomBits(syms, geometry, w);
      assert t.hashtab.blooms[w] == WordOf(bits);
      assert SetsBit(s, geometry, w, BloomBit1(hash)) && SetsBit(s, geometry, w, BloomBit2(geometry, hash));
      WordOfBits(bits, BloomBit1(hash));
      WordOfBits(bits, BloomBit2(geometry, hash));
    }
  }

  /** Every list of symbols has a well-formed table, whatever the number of buckets, the bloom size
      and the second bloom shift. */
  lemma BuiltIsWellFormed(symbols: seq<ElfSymbol>, nbucket: nat, bloomLog: nat, nshift: nat)
    requires nbucket > 0 && nshift < 32
    ensures WellFormed(Build(symbols, nbucket, bloomLog, nshift))
  {
    BuiltGroups(symbols, nbucket, bloomLog, nshift);
    BuiltChains(symbols, nbucket, bloomLog, nshift);
    BuiltBuckets(symbols, nbucket, bloomLog, nshift);
    BuiltBloom(symbols, nbucket, bloomLog, nshift);
  }

  /** Round trip: looking a name up in the built table finds one of the symbols of that name that
      went in, and nothing exactly when none did. */
  method BuildAndLookup(symbols: seq<ElfSymbol>, nbucket: nat, bloomLog: nat, nshift: nat, name: Name) returns (r: Option<ElfSymbol>)
    requires nbucket > 0 && nshift < 32
    ensures r.Some? ==> r.value in symbols && r.value.name == name
    ensures r.None? <==> forall s :: s in symbols ==> s.name != name
  {
    var t := Build(symbols, nbucket, bloomLog, nshift);
    BuiltIsWellFormed(symbols, nbucket, bloomLog, nshift);
    BuildKeepsSymbols(symbols, nbucket, bloomLog, nshift);
    UnversionedExact(t, name);
    forall s ensures s in symbols <==> s in t.symtab[1..] {
      assert s in symbols <==> s in multiset(symbols);
      assert s in t.symtab[1..] <==> s in multiset(t.symtab[1..]);
    }
    var found := Lookup(t, InfoFromName(name));
    if found.Found? {
      assert t.symtab[found.idx] == t.symtab[1..][found.idx - 1];
      r := Some(t.symtab[found.idx]);
    } else {
      forall s | s in symbols ensures s.name != name {
        var k :| 0 <= k < |t.symtab[1..]| && t.symtab[1..][k] == s;
        assert Hashed(t, k + 1) && t.symtab[k + 1] == s;
      }
      r := None;
    }
  }

  // ----- tables with versions

  /** The version entries of a list of version names, from index 2 on. */
  function VersionEntries(names: seq<Name>): (r: seq<Entry>)
    ensures |r| == |names|
    ensures forall k :: 0 <= k < |names| ==> r[k] == Entry(k + 2, Version(names[k], GabiHash(names[k]) as nat))
  {
    seq(|names|, k requires 0 <= k < |names| => Entry(k + 2, Version(names[k], GabiHash(names[k]) as nat)))
  }

  /** .gnu.version for a symbol table: two bytes for the version index of each symbol. */
  function VersionIds(symtab: seq<ElfSymbol>, pick: ElfSymbol -> nat): Image {
    p => IdByte(symtab, pick, p / 2, p % 2)
  }

  function IdByte(symtab: seq<ElfSymbol>, pick: ElfSymbol -> nat, i: nat, half: nat): Byte {
    if i >= |symtab| then 0
    else if half == 0 then (pick(symtab[i]) + 2) % 256
    else (pick(symtab[i]) + 2) / 256 % 256
  }

  /** The built table with symbol s at version names[pick(s)]. */
  function BuildVersioned(symbols: seq<ElfSymbol>, nbucket: nat, bloomLog: nat, nshift: nat,
                          names: seq<Name>, pick: ElfSymbol -> nat): SymbolTable
    requires nbucket > 0
  {
    var t := Build(symbols, nbucket, bloomLog, nshift);
    t.(version := Some(ELFVersion(VersionIds(t.symtab, pick), 0, VersionArray(VersionEntries(names)))))
  }

  lemma IdOf(symtab: seq<ElfSymbol>, pick: ElfSymbol -> nat, versions: seq<Option<Version>>, i: nat)
    requires i < |symtab| && pick(symtab[i]) + 2 < VER_NDX_SPAN
    ensures ELFVersion(VersionIds(symtab, pick), 0, versions).Id(i) == pick(symtab[i]) + 2
  {
    var mem := VersionIds(symtab, pick);
    assert (2 * i) / 2 == i && (2 * i + 1) / 2 == i && (2 * i) % 2 == 0 && (2 * i + 1) % 2 == 1;
    ReadTwo(mem, 2 * i);
  }

  lemma NamesFilled(names: seq<Name>, k: nat)
    requires k < |names|
    ensures var a := VersionArray(VersionEntries(names));
            k + 2 < |a| && a[k + 2] == Some(Version(names[k], GabiHash(names[k]) as nat))
  {
    var es := VersionEntries(names);
    assert es[k] in es;
    VersionArrayIsMap(es, k + 2, es[k].version);
  }

  /** Every list of symbols, every list of version names and every choice of one for each symbol have a
      well-formed table that is ready for versioned lookups. */
  lemma BuiltIsReady(symbols: seq<ElfSymbol>, nbucket: nat, bloomLog: nat, nshift: nat, names: seq<Name>, pick: ElfSymbol -> nat)
    requires nbucket > 0 && nshift < 32 && |names| + 2 <= VER_NDX_SPAN
    requires forall s :: s in symbols ==> pick(s) < |names|
    ensures var t := BuildVersioned(symbols, nbucket, bloomLog, nshift, names, pick);
            && WellFormed(t) && VersionsReady(t) && HashesStored(t.version.value)
            && forall i: nat :: Hashed(t, i) ==> t.symtab[i] in symbols && VersionNameOf(t, i) == names[pick(t.symtab[i])]
  {
    var t, plain := BuildVersioned(symbols, nbucket, bloomLog, nshift, names, pick), Build(symbols, nbucket, bloomLog, nshift);
    BuiltIsWellFormed(symbols, nbucket, bloomLog, nshift);
    SameIndex(plain, t);
    forall i: nat | Hashed(t, i) ensures t.symtab[i] in symbols {
      assert Hashed(plain, i);
      HashedWentIn(symbols, nbucket, bloomLog, nshift, i);
    }
    PickedIsReady(t, names, pick);
  }

  lemma PickedIsReady(t: SymbolTable, names: seq<Name>, pick: ElfSymbol -> nat)
    requires |names| + 2 <= VER_NDX_SPAN
    requires t.version == Some(ELFVersion(VersionIds(t.symtab, pick), 0, VersionArray(VersionEntries(names))))
    requires forall i: nat :: Hashed(t, i) ==> pick(t.symtab[i]) < |names|
    ensures VersionsReady(t) && HashesStored(t.version.value)
    ensures forall i: nat :: Hashed(t, i) ==> VersionNameOf(t, i) == names[pick(t.symtab[i])]
  {
    var es := VersionEntries(names);
    SectionsMakeReady(t, VersionIds(t.symtab, pick), 0, es);
    forall i: nat | Hashed(t, i)
      ensures !Unwritten(es, VersionIndex(t.version.value.Id(i))) && VersionNameOf(t, i) == names[pick(t.symtab[i])]
    {
      PickedVersion(t, names, pick, i);
    }
    forall e | e in es ensures e.version.hash == GabiHash(e.version.name) as nat {
      var k :| 0 <= k < |es| && es[k] == e;
    }
  }

  lemma PickedVersion(t: SymbolTable, names: seq<Name>, pick: ElfSymbol -> nat, i: nat)
    requires |names| + 2 <= VER_NDX_SPAN && i < |t.symtab| && pick(t.symtab[i]) < |names|
    requires t.version == Some(ELFVersion(VersionIds(t.symtab, pick), 0, VersionArray(VersionEntries(names))))
    ensures !Unwritten(VersionEntries(names), VersionIndex(t.version.value.Id(i)))
    ensures VersionNameOf(t, i) == names[pick(t.symtab[i])]
  {
    var k := pick(t.symtab[i]);
    IdOf(t.symtab, pick, t.version.value.versions, i);
    assert VersionIndex(t.version.value.Id(i)) == k + 2;
    NamesFilled(names, k);
    assert VersionEntries(names)[k] in VersionEntries(names);
  }

  /** Well-formedness is about the index and the symbols, not about versions. */
  lemma SameIndex(t: SymbolTable, u: SymbolTable)
    requires WellFormed(t) && u.hashtab == t.hashtab && u.symtab == t.symtab
    ensures WellFormed(u)
  {
    forall i: nat ensures Hashed(u, i) == Hashed(t, i) {
    }
    forall i: nat | i < |t.symtab| ensures BucketOf(u, i) == BucketOf(t, i) {
    }
  }

  lemma HashedWentIn(symbols: seq<ElfSymbol>, nbucket: nat, bloomLog: nat, nshift: nat, i: nat)
    requires nbucket > 0 && Hashed(Build(symbols, nbucket, bloomLog, nshift), i)
    ensures Build(symbols, nbucket, bloomLog, nshift).symtab[i] in symbols
  {
    var t := Build(symbols, nbucket, bloomLog, nshift);
    BuildKeepsSymbols(symbols, nbucket, bloomLog, nshift);
    assert t.symtab[i] == t.symtab[1..][i - 1];
    assert t.symtab[i] in multiset(t.symtab[1..]);
  }

  lemma WentInHashed(symbols: seq<ElfSymbol>, nbucket: nat, bloomLog: nat, nshift: nat, s: ElfSymbol) returns (i: nat)
    requires nbucket > 0 && s in symbols
    ensures Hashed(Build(symbols, nbucket, bloomLog, nshift), i) && Build(symbols, nbucket, bloomLog, nshift).symtab[i] == s
  {
    var t := Build(symbols, nbucket, bloomLog, nshift);
    BuildKeepsSymbols(symbols, nbucket, bloomLog, nshift);
    assert s in multiset(symbols);
    assert s in multiset(t.symtab[1..]);
    var k :| 0 <= k < |t.symtab[1..]| && t.symtab[1..][k] == s;
    i := k + 1;
  }

  /** Round trip with versions: a name and a version are found in the built table exactly when a symbol
      of that name went in at that version. */
  method BuildAndLookupVersioned(symbols: seq<ElfSymbol>, nbucket: nat, bloomLog: nat, nshift: nat,
                                 names: seq<Name>, pick: ElfSymbol -> nat, name: Name, version: Name)
    returns (r: Option<ElfSymbol>)
    requires nbucket > 0 && nshift < 32 && |names| + 2 <= VER_NDX_SPAN
    requires forall s :: s in symbols ==> pick(s) < |names|
    requires version != [] && version[0] != 0
    ensures r.Some? ==> r.value in symbols && r.value.name == name && names[pick(r.value)] == version
    ensures r.None? <==> forall s :: s in symbols ==> !(s.name == name && names[pick(s)] == version)
  {
    var t := BuildVersioned(symbols, nbucket, bloomLog, nshift, names, pick);
    BuiltIsReady(symbols, nbucket, bloomLog, nshift, names, pick);
    var info := InfoWithVersion(name, version);
    VersionedExact(t, name, info.version.value);
    ScanFrom(t, info, t.hashtab.symbias);
    var found := Lookup(t, info);
    if found.Found? {
      r := Some(t.symtab[found.idx]);
    } else {
      forall s | s in symbols ensures !(s.name == name && names[pick(s)] == version) {
        var i := WentInHashed(symbols, nbucket, bloomLog, nshift, s);
        assert Hashed(t, i);
      }
      r := None;
    }
  }
}
