/** Machine words of x86_64: 64-bit wrapping arithmetic and little-endian bytes. */
module Words {

  datatype Option<+T> = None | Some(value: T)

  const WORD_SPAN := 0x1_0000_0000_0000_0000

  type Byte = x: int | 0 <= x < 256
  type Word = x: int | 0 <= x < WORD_SPAN

  /** The value an address computation leaves in a 64-bit register. */
  function Wrap(x: int): Word {
    x % WORD_SPAN
  }

  function Pow256(n: nat): nat {
    if n == 0 then 1 else 256 * Pow256(n - 1)
  }

  /** The n low bytes of w, least significant first. */
  function ToLe(w: nat, n: nat): (r: seq<Byte>)
    ensures |r| == n
  {
    if n == 0 then [] else [w % 256] + ToLe(w / 256, n - 1)
  }

  function FromLe(bytes: seq<Byte>): nat {
    if bytes == [] then 0 else bytes[0] + 256 * FromLe(bytes[1..])
  }

  lemma {:induction false} LeRoundTrip(w: nat, n: nat)
    requires w < Pow256(n)
    ensures FromLe(ToLe(w, n)) == w
  {
    if n == 0 {
    } else {
      LeRoundTrip(w / 256, n - 1);
      assert ToLe(w, n)[1..] == ToLe(w / 256, n - 1);
    }
  }

  /** The sizes of a word, a half word and a short, kept from the verifier's eager unrolling of `ToLe`. */
  function WordSize(): (n: nat)
    ensures n == 8
  {
    4 + 4
  }

  function HalfSize(): (n: nat)
    ensures n == 4
  {
    2 + 2
  }

  function ShortSize(): (n: nat)
    ensures n == 2
  {
    1 + 1
  }

  /** A number in n bytes. */
  function Field(w: nat, n: nat): (r: seq<Byte>)
    requires w < Pow256(n)
    ensures |r| == n && FromLe(r) == w
  {
    LeRoundTrip(w, n);
    ToLe(w, n)
  }

  function WordBytes(w: Word): (r: seq<Byte>)
    ensures |r| == 8
  {
    ToLe(w, WordSize())
  }

  lemma WordRoundTrip(w: Word)
    ensures FromLe(WordBytes(w)) == w
  {
    assert Pow256(8) == WORD_SPAN by {
      assert Pow256(4) == 0x1_0000_0000;
    }
    LeRoundTrip(w, 8);
  }
}
