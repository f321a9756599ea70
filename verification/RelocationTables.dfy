/** How DT_RELA and DT_JMPREL are cut into the three lists that the relocation loops run over. */
module RelocationTables {
  import opened Words
  import opened Relocation

  const RELA_SIZE: nat := 24

  /** `len` entries from address `at`. */
  datatype Slice = Slice(at: nat, len: nat)
  {
    function End(): nat {
      at + RELA_SIZE * len
    }

    /** An entry of the slice begins at a. */
    predicate Has(a: nat) {
      at <= a < End() && (a - at) % RELA_SIZE == 0
    }

    function Take(n: nat): Slice
      requires n <= len
    {
      Slice(at, n)
    }

    function Drop(n: nat): Slice
      requires n <= len
    {
      Slice(at + RELA_SIZE * n, len - n)
    }
  }

  /** The empty slice that stands for an absent table: a dangling, aligned address. */
  const NO_TABLE := Slice(8, 0)

  datatype Tables = Tables(relative: Slice, pltrel: Slice, dynrel: Slice)

  function OrEmpty(t: Option<Slice>): Slice {
    if t.Some? then t.value else NO_TABLE
  }

  /** `ElfRelocation::new`; None is the panic of a slice index out of range. */
  function NewTables(pltrel: Option<Slice>, dynrel: Option<Slice>, relaCount: nat): Option<Tables> {
    var old_, plt := OrEmpty(dynrel), OrEmpty(pltrel);
    if relaCount > old_.len then None
    else
      var relative, temp := old_.Take(relaCount), old_.Drop(relaCount);
      if old_.End() != plt.End() then Some(Tables(relative, plt, temp))
      else if plt.len > temp.len then None
      else Some(Tables(relative, plt, temp.Take(temp.len - plt.len)))
  }

  function Times(b: bool): nat {
    if b then 1 else 0
  }

  /** How many of the lists hold the entry at a. */
  function Listed(t: Tables, a: nat): nat {
    Times(t.relative.Has(a)) + Times(t.pltrel.Has(a)) + Times(t.dynrel.Has(a))
  }

  /** Every entry of the two tables is in exactly one list, and nothing else is in any. */
  ghost predicate Partition(t: Tables, dyn: Slice, plt: Slice) {
    forall a :: Listed(t, a) == Times(dyn.Has(a) || plt.Has(a))
  }

  ghost predicate NoShared(s: Slice, t: Slice) {
    forall a :: !(s.Has(a) && t.Has(a))
  }

  /** Two tables share no entry: one of them is empty, or they lie apart, or they are out of step. */
  predicate Apart(s: Slice, t: Slice) {
    || s.len == 0 || t.len == 0
    || s.End() <= t.at || t.End() <= s.at
    || (s.at - t.at) % RELA_SIZE != 0
  }

  lemma ApartExact(s: Slice, t: Slice)
    ensures Apart(s, t) <==> NoShared(s, t)
  {
    if !Apart(s, t) {
      var a := if s.at <= t.at then t.at else s.at;
      assert s.Has(a) && t.Has(a);
    }
  }

  lemma CutInTwo(s: Slice, n: nat, a: nat)
    requires n <= s.len
    ensures s.Has(a) <==> s.Take(n).Has(a) || s.Drop(n).Has(a)
    ensures !(s.Take(n).Has(a) && s.Drop(n).Has(a))
  {
  }

  /** Each entry is relocated exactly once, without a panic, exactly when DT_RELACOUNT fits in DT_RELA
      and DT_JMPREL either lies apart from DT_RELA or is the tail of its part after the relative
      entries: where the two tables end together, that it is no longer than that part. */
  lemma ExactlyOnce(pltrel: Option<Slice>, dynrel: Option<Slice>, relaCount: nat)
    ensures var dyn, plt := OrEmpty(dynrel), OrEmpty(pltrel);
            NewTables(pltrel, dynrel, relaCount).Some? && Partition(NewTables(pltrel, dynrel, relaCount).value, dyn, plt)
            <==> relaCount <= dyn.len && (if dyn.End() == plt.End() then plt.len <= dyn.len - relaCount else Apart(dyn, plt))
  {
    ApartExact(OrEmpty(dynrel), OrEmpty(pltrel));
    ExactlyOnceUnshared(pltrel, dynrel, relaCount);
  }

  lemma ExactlyOnceUnshared(pltrel: Option<Slice>, dynrel: Option<Slice>, relaCount: nat)
    ensures var dyn, plt := OrEmpty(dynrel), OrEmpty(pltrel);
            NewTables(pltrel, dynrel, relaCount).Some? && Partition(NewTables(pltrel, dynrel, relaCount).value, dyn, plt)
            <==> relaCount <= dyn.len && (if dyn.End() == plt.End() then plt.len <= dyn.len - relaCount else NoShared(dyn, plt))
  {
    var dyn, plt := OrEmpty(dynrel), OrEmpty(pltrel);
    var made := NewTables(pltrel, dynrel, relaCount);
    if made.Some? {
      var temp := dyn.Drop(relaCount);
      if dyn.End() == plt.End() {
        assert plt == temp.Drop(temp.len - plt.len);
        forall a ensures Listed(made.value, a) == Times(dyn.Has(a) || plt.Has(a)) {
          CutInTwo(dyn, relaCount, a);
          CutInTwo(temp, temp.len - plt.len, a);
        }
      } else {
        forall a ensures Listed(made.value, a) == Times(dyn.Has(a)) + Times(plt.Has(a)) {
          CutInTwo(dyn, relaCount, a);
        }
      }
    }
  }

  // ----- the lists that the loops run over

  /** The entries of a slice, `read` being what is found at an address. */
  function Entries(read: nat -> ElfRela, s: Slice): (r: seq<ElfRela>)
    ensures |r| == s.len
  {
    seq(s.len, i requires 0 <= i < s.len => read(s.at + RELA_SIZE * i))
  }

  function Relocations(read: nat -> ElfRela, t: Tables): ElfRelocation {
    ElfRelocation(Entries(read, t.relative), Entries(read, t.dynrel), Entries(read, t.pltrel))
  }

  function Relas(jobs: seq<Job>): (r: seq<ElfRela>)
    ensures |r| == |jobs| && forall i :: 0 <= i < |jobs| ==> r[i] == jobs[i].rela
  {
    seq(|jobs|, i requires 0 <= i < |jobs| => jobs[i].rela)
  }

  lemma EntriesCut(read: nat -> ElfRela, s: Slice, n: nat)
    requires n <= s.len
    ensures Entries(read, s) == Entries(read, s.Take(n)) + Entries(read, s.Drop(n))
  {
  }

  /** Which parts of the two tables the three lists are. */
  lemma TableParts(pltrel: Option<Slice>, dynrel: Option<Slice>, relaCount: nat)
    requires NewTables(pltrel, dynrel, relaCount).Some?
    ensures var dyn, plt, t := OrEmpty(dynrel), OrEmpty(pltrel), NewTables(pltrel, dynrel, relaCount).value;
            && relaCount <= dyn.len && t.relative == dyn.Take(relaCount) && t.pltrel == plt
            && var temp := dyn.Drop(relaCount);
               if dyn.End() != plt.End() then t.dynrel == temp
               else plt.len <= temp.len && t.dynrel == temp.Take(temp.len - plt.len) && plt == temp.Drop(temp.len - plt.len)
  {
  }

  /** The eager loops process the entries of DT_RELA in table order and then those of DT_JMPREL; where
      DT_JMPREL is the tail of DT_RELA, its entries are not processed again. */
  lemma LoopsFollowTables(read: nat -> ElfRela, pltrel: Option<Slice>, dynrel: Option<Slice>, relaCount: nat)
    requires NewTables(pltrel, dynrel, relaCount).Some?
    ensures var dyn, plt := OrEmpty(dynrel), OrEmpty(pltrel);
            Relas(EagerJobs(Relocations(read, NewTables(pltrel, dynrel, relaCount).value)))
            == if dyn.End() == plt.End() then Entries(read, dyn) else Entries(read, dyn) + Entries(read, plt)
  {
    TableParts(pltrel, dynrel, relaCount);
    ListsAreTables(read, OrEmpty(dynrel), OrEmpty(pltrel), NewTables(pltrel, dynrel, relaCount).value, relaCount);
  }

  lemma ListsAreTables(read: nat -> ElfRela, dyn: Slice, plt: Slice, t: Tables, n: nat)
    requires n <= dyn.len && t.relative == dyn.Take(n) && t.pltrel == plt
    requires t.dynrel == dyn.Drop(n)
             || (plt.len <= dyn.Drop(n).len && t.dynrel == dyn.Drop(n).Take(dyn.Drop(n).len - plt.len)
                 && plt == dyn.Drop(n).Drop(dyn.Drop(n).len - plt.len))
    ensures t.dynrel == dyn.Drop(n) ==> Relas(EagerJobs(Relocations(read, t))) == Entries(read, dyn) + Entries(read, plt)
    ensures t.dynrel != dyn.Drop(n) || plt.len == 0 ==> Relas(EagerJobs(Relocations(read, t))) == Entries(read, dyn)
  {
    LoopOrder(Relocations(read, t));
    EntriesCut(read, dyn, n);
    if t.dynrel != dyn.Drop(n) {
      EntriesCut(read, dyn.Drop(n), dyn.Drop(n).len - plt.len);
      ThreeParts(Entries(read, t.relative), Entries(read, t.dynrel), Entries(read, plt));
    }
  }

  lemma LoopOrder(r: ElfRelocation)
    ensures Relas(EagerJobs(r)) == r.relative + r.dynrel + r.pltrel
  {
    RelasConcat(RelativeJobs(r.relative) + Jobs(Dyn, r.dynrel), Jobs(Plt, r.pltrel));
    RelasConcat(RelativeJobs(r.relative), Jobs(Dyn, r.dynrel));
    assert Relas(RelativeJobs(r.relative)) == r.relative;
    assert Relas(Jobs(Dyn, r.dynrel)) == r.dynrel;
    assert Relas(Jobs(Plt, r.pltrel)) == r.pltrel;
  }

  lemma RelasConcat(js: seq<Job>, ks: seq<Job>)
    ensures Relas(js + ks) == Relas(js) + Relas(ks)
  {
  }

  lemma ThreeParts(a: seq<ElfRela>, b: seq<ElfRela>, c: seq<ElfRela>)
    ensures a + b + c == a + (b + c)
  {
  }
}
