/** The bit operations of the symbol lookup on unsigned integers of any width. */
module Bits {

  function Pow2(n: nat): (r: nat)
    ensures r >= 1
  {
    if n == 0 then 1 else 2 * Pow2(n - 1)
  }

  function BitAnd(x: nat, y: nat): nat {
    if x == 0 || y == 0 then 0
    else 2 * BitAnd(x / 2, y / 2) + (if x % 2 == 1 && y % 2 == 1 then 1 else 0)
  }

  function ShiftRight(x: nat, n: nat): nat
    decreases n
  {
    if n == 0 then x else ShiftRight(x / 2, n - 1)
  }

  /** Bit i of x. */
  predicate Bit(x: nat, i: nat)
    decreases i
  {
    if i == 0 then x % 2 == 1 else Bit(x / 2, i - 1)
  }

  /** `x | 1`. */
  function SetLow(x: nat): nat {
    x - x % 2 + 1
  }

  lemma ModHalves(x: nat, n: nat)
    requires n >= 1
    ensures x % (2 * n) == 2 * (x / 2 % n) + x % 2
  {
    var q, r := x / 2 / n, x / 2 % n;
    ModUnique(2 * n, q, 2 * r + x % 2);
    assert x == q * (2 * n) + (2 * r + x % 2);
  }

  lemma {:induction false} ModUnique(n: nat, q: nat, r: nat)
    requires r < n
    ensures (q * n + r) % n == r
    decreases q
  {
    if q > 0 {
      ModUnique(n, q - 1, r);
      ModStep((q - 1) * n + r, n);
      assert q * n + r == (q - 1) * n + r + n;
    }
  }

  lemma ModStep(x: nat, n: nat)
    requires n >= 1
    ensures (x + n) % n == x % n
  {
    var d := (x + n) / n - x / n - 1;
    assert d * n == x % n - (x + n) % n by {
      assert x == x / n * n + x % n;
      assert x + n == (x + n) / n * n + (x + n) % n;
    }
    MultipleIsLarge(d, n);
  }

  lemma MultipleIsLarge(d: int, n: nat)
    ensures d > 0 ==> d * n >= n
    ensures d < 0 ==> d * n + n <= 0
  {
  }

  /** Masking with a power of two less one is the remainder. */
  lemma {:induction false} MaskIsMod(x: nat, k: nat)
    ensures BitAnd(x, Pow2(k) - 1) == x % Pow2(k)
  {
    if k == 0 {
    } else {
      var half := Pow2(k - 1);
      assert (Pow2(k) - 1) / 2 == half - 1 && (Pow2(k) - 1) % 2 == 1;
      MaskIsMod(x / 2, k - 1);
      ModHalves(x, half);
    }
  }

  lemma {:induction false} MaskIsBit(x: nat, i: nat)
    ensures BitAnd(x, Pow2(i)) == 0 <==> !Bit(x, i)
  {
    if i == 0 {
      assert BitAnd(x / 2, 0) == 0;
    } else {
      assert Pow2(i) / 2 == Pow2(i - 1) && Pow2(i) % 2 == 0;
      MaskIsBit(x / 2, i - 1);
      if x == 0 {
        NoBits(i - 1);
      }
    }
  }

  lemma {:induction false} NoBits(i: nat)
    ensures !Bit(0, i)
  {
    if i > 0 {
      NoBits(i - 1);
    }
  }

  lemma {:induction false} ShiftIsBit(x: nat, i: nat)
    ensures ShiftRight(x, i) % 2 == 1 <==> Bit(x, i)
  {
    if i > 0 {
      ShiftIsBit(x / 2, i - 1);
    }
  }

  /** The word of n bits whose bit i is bits[i]. */
  function WordOf(bits: seq<bool>): nat {
    if bits == [] then 0 else (if bits[0] then 1 else 0) + 2 * WordOf(bits[1..])
  }

  lemma {:induction false} WordOfBits(bits: seq<bool>, i: nat)
    requires i < |bits|
    ensures Bit(WordOf(bits), i) == bits[i]
  {
    if i > 0 {
      WordOfBits(bits[1..], i - 1);
    }
  }
}
