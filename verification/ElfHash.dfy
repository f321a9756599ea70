/** The ELF hash of a version name, as specified and as the loader computes it. */
module ElfHash {

  /** The bytes of a symbol or version name. */
  type Name = seq<bv8>

  const HIGH4: bv32 := 0xf000_0000
  const LOW28: bv32 := 0x0fff_ffff

  /** The shift and add that opens every round, on 32-bit words. */
  function Shifted(h: bv32, c: bv8): (r: bv32)
    ensures r == ((h & LOW28) << 4) + (c as bv32)
  {
    (h << 4) + (c as bv32)
  }

  /** The folding step of the gABI hash function (chapter 5, "Hash Table"): the four high bits
      are mixed into bits 4 to 7 and then cleared. */
  function Fold(h: bv32): bv32 {
    var g := h & HIGH4;
    (if g != 0 then h ^ (g >> 24) else h) & !g
  }

  function GabiHash(name: Name): bv32 {
    if name == [] then 0 else Fold(Shifted(GabiHash(name[..|name| - 1]), name[|name| - 1]))
  }

  /** The loader's folding step leaves the high bits in place. */
  function FastFold(h: bv32): bv32 {
    var hi := h & HIGH4;
    h ^ (hi >> 24)
  }

  lemma MaskClears(h: bv32)
    ensures FastFold(h) & LOW28 == FastFold(h) & !(h & HIGH4)
  {
  }

  /** Folding drops the top four bits and mixes them into bits 4 to 7. */
  lemma FoldExact(h: bv32)
    ensures Fold(h) == (h & 0x0fff_ffff) ^ ((h >> 28) << 4)
  {
    TopBits(h);
    if h & HIGH4 == 0 {
      FoldNothing(h);
    }
  }

  lemma TopBits(h: bv32)
    ensures (h & 0xf000_0000) >> 24 == (h >> 28) << 4
    ensures (h ^ ((h & 0xf000_0000) >> 24)) & !(h & 0xf000_0000) == (h & 0x0fff_ffff) ^ ((h >> 28) << 4)
  {
  }

  lemma NothingToFold(h: bv32)
    requires h & HIGH4 == 0
    ensures FastFold(h) == h
  {
  }

  /** Masked once at the end, the fast folding step is the specified one. */
  lemma FoldsAgree(h: bv32)
    ensures FastFold(h) & LOW28 == Fold(h)
  {
    MaskClears(h);
    if h & HIGH4 == 0 {
      NothingToFold(h);
    }
  }

  lemma MaskTwice(h: bv32)
    ensures (h & LOW28) & LOW28 == h & LOW28
  {
  }

  lemma SameShifted(h: bv32, spec: bv32, c: bv8)
    requires h & LOW28 == spec
    ensures Shifted(h, c) == Shifted(spec, c)
  {
    MaskTwice(h);
    assert spec & LOW28 == h & LOW28;
  }

  /** The low 28 bits of the fast state are the specified state, round after round. */
  lemma FastRoundTracks(h: bv32, spec: bv32, c: bv8)
    requires h & LOW28 == spec
    ensures FastFold(Shifted(h, c)) & LOW28 == Fold(Shifted(spec, c))
  {
    SameShifted(h, spec, c);
    FoldsAgree(Shifted(h, c));
  }

  lemma GabiHashIsSmall(name: Name)
    ensures GabiHash(name) & LOW28 == GabiHash(name)
  {
    if name != [] {
      var h := Shifted(GabiHash(name[..|name| - 1]), name[|name| - 1]);
      FoldsAgree(h);
      MaskTwice(FastFold(h));
    }
  }

  /** The largest hash of a name of at most five bytes, by length. */
  function ShortBound(k: nat): bv32 {
    if k == 0 then 0 else if k == 1 then 0xff else if k == 2 then 0x10ff
    else if k == 3 then 0x1_10ff else if k == 4 then 0x11_10ff else 0x111_10ff
  }

  lemma SmallSum(h: bv32, c: bv8, k: nat)
    requires k < 5 && h <= ShortBound(k)
    ensures Shifted(h, c) & HIGH4 == 0 && Shifted(h, c) <= ShortBound(k + 1)
  {
    if k == 0 {
      assert h == 0;
    }
  }

  lemma ByteIsSmall(c: bv8)
    ensures (c as bv32) <= 0xff && (0 as bv32) << 4 == 0 && (0 as bv32) + (c as bv32) == c as bv32
    ensures c == 0 <==> c as bv32 == 0
  {
  }

  lemma FoldNothing(h: bv32)
    requires h & HIGH4 == 0
    ensures Fold(h) == h
  {
    FoldsAgree(h);
    NothingToFold(h);
    LowPart(h);
  }

  lemma LowPart(h: bv32)
    requires h & HIGH4 == 0
    ensures h & LOW28 == h
  {
  }

  /** While at most five bytes are in, no bit reaches the top: a round is shift and add. */
  lemma {:induction false} ShortRound(name: Name, k: nat)
    requires k < |name| && k < 5
    ensures GabiHash(name[..k + 1]) == Shifted(GabiHash(name[..k]), name[k])
    ensures GabiHash(name[..k + 1]) <= ShortBound(k + 1)
  {
    var h := GabiHash(name[..k]);
    assert name[..k + 1][..k] == name[..k];
    assert h <= ShortBound(k) by {
      if k == 0 {
        assert name[..0] == [];
      } else {
        ShortRound(name, k - 1);
      }
    }
    SmallSum(h, name[k], k);
    FoldNothing(Shifted(h, name[k]));
  }

  lemma FirstByte(name: Name)
    requires name != []
    ensures GabiHash(name[..1]) == name[0] as bv32
  {
    assert name[..0] == [];
    ShortRound(name, 0);
    ByteIsSmall(name[0]);
  }

  /** The loop over the sixth byte and after. */
  method FoldRest(name: Name, start: bv32) returns (hash: bv32)
    requires |name| >= 5 && start == GabiHash(name[..5])
    ensures hash & LOW28 == GabiHash(name)
  {
    hash := start;
    GabiHashIsSmall(name[..5]);
    var i := 5;
    while i < |name|
      invariant 5 <= i <= |name|
      invariant hash & LOW28 == GabiHash(name[..i])
    {
      assert name[..i + 1][..i] == name[..i];
      FastRoundTracks(hash, GabiHash(name[..i]), name[i]);
      hash := FastFold(Shifted(hash, name[i]));
      i := i + 1;
    }
    assert name[..i] == name;
  }

  /** `dl_elf_hash`: the unrolled hash with one final mask is the gABI hash of every non-empty name
      that does not begin with a NUL byte; one that does hashes to zero. */
  method DlElfHash(name: Name) returns (hash: bv32)
    requires name != []
    ensures hash == if name[0] != 0 then GabiHash(name) else 0
  {
    FirstByte(name);
    ByteIsSmall(name[0]);
    assert name[..|name|] == name;
    hash := name[0] as bv32;
    if hash != 0 && |name| > 1 {
      ShortRound(name, 1);
      hash := Shifted(hash, name[1]);
      if |name| > 2 {
        ShortRound(name, 2);
        hash := Shifted(hash, name[2]);
        if |name| > 3 {
          ShortRound(name, 3);
          hash := Shifted(hash, name[3]);
          if |name| > 4 {
            ShortRound(name, 4);
            hash := Shifted(hash, name[4]);
            hash := FoldRest(name, hash);
            hash := hash & LOW28;
          }
        }
      }
    }
  }
}
