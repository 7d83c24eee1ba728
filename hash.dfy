/** `hash32` of content.js: 32-bit FNV-1a over the string's code units,
    rendered as 8 lower-case hexadecimal digits.

    JavaScript's `^=` and `<<` produce signed 32-bit integers and the final
    `>>> 0` reduces the sum modulo 2^32, so every intermediate value is
    modelled by its residue modulo 2^32, a `Word`. */
module Hash {

  import opened Format

  const Modulus: int := 0x1_0000_0000
  const FnvOffsetBasis: Word := 0x811c9dc5

  type Word = x: int | 0 <= x < 0x1_0000_0000

  /** `h ^ str.charCodeAt(i)` on the low 32 bits. */
  function Xor(h: Word, c: char): nat {
    XorBits(h, c as int, 32)
  }

  /** Bitwise exclusive or of the low `k` bits of `a` and `b`. */
  function XorBits(a: nat, b: nat, k: nat): nat
    decreases k
  {
    if k == 0 then 0
    else 2 * XorBits(a / 2, b / 2, k - 1) + (if a % 2 == b % 2 then 0 else 1)
  }

  /** The exclusive or of the low `k` bits has at most `k` bits, so `Xor`
      yields a 32-bit word. */
  lemma {:induction false} XorBitsBound(a: nat, b: nat, k: nat)
    ensures XorBits(a, b, k) < Pow2(k)
    decreases k
  {
    if k > 0 {
      XorBitsBound(a / 2, b / 2, k - 1);
    }
  }

  lemma XorIsWord(h: Word, c: char)
    ensures Xor(h, c) < Modulus
  {
    XorBitsBound(h, c as int, 32);
    Pow2Of32();
  }

  lemma Pow2Of32()
    ensures Pow2(32) == Modulus
  {
    Pow2Sum(16, 16);
    Pow2Sum(8, 8);
    assert Pow2(8) == 256;
  }

  /** `h << k`, modulo 2^32. */
  function ShiftLeft(h: nat, k: nat): Word {
    h * Pow2(k) % Modulus
  }

  function Pow2(k: nat): nat {
    if k == 0 then 1 else 2 * Pow2(k - 1)
  }

  /** One FNV-1a round as the algorithm defines it: xor, then multiply by
      the 32-bit FNV prime 16777619 modulo 2^32. */
  function FnvStep(h: Word, c: char): Word {
    Xor(h, c) * 16777619 % Modulus
  }

  /** FNV-1a of a string, processed left to right. */
  function Fnv1a(s: string): Word {
    if s == [] then FnvOffsetBasis else FnvStep(Fnv1a(s[..|s| - 1]), s[|s| - 1])
  }

  /** The source's shift-and-add form of the multiplication:
      1 + 2 + 16 + 128 + 256 + 2^24 = 16777619, so the sum of the shifted
      copies, taken modulo 2^32 by `>>> 0`, is the product with the prime. */
  lemma ShiftSumIsPrimeProduct(x: nat)
    ensures (x + (ShiftLeft(x, 1) + ShiftLeft(x, 4) + ShiftLeft(x, 7) + ShiftLeft(x, 8) + ShiftLeft(x, 24))) % Modulus
         == x * 16777619 % Modulus
  {
    assert Pow2(8) == 256;
    Pow2Sum(8, 8);
    Pow2Sum(16, 8);
    SumOfResidues(x, x * 2, x * 16, x * 128, x * 256, x * 0x100_0000);
  }

  lemma {:induction false} Pow2Sum(a: nat, b: nat)
    ensures Pow2(a + b) == Pow2(a) * Pow2(b)
    decreases a
  {
    if a > 0 {
      Pow2Sum(a - 1, b);
      assert Pow2(a + b) == 2 * Pow2(a - 1 + b);
    }
  }

  /** Reducing the summands first does not change the sum modulo 2^32. */
  lemma SumOfResidues(x: int, a: int, b: int, c: int, d: int, e: int)
    requires x >= 0 && a >= 0 && b >= 0 && c >= 0 && d >= 0 && e >= 0
    ensures (x + (a % Modulus + b % Modulus + c % Modulus + d % Modulus + e % Modulus)) % Modulus
         == (x + a + b + c + d + e) % Modulus
  {
  }

  /** `hash32`: the source's loop, with `h ^= code` and the shift-and-add
      update, then zero padding to 8 hexadecimal digits. */
  method Hash32(s: string) returns (r: string)
    ensures r == Hex8(Fnv1a(s))
    ensures |r| == 8 && HexValue(r) == Fnv1a(s)
  {
    var h: Word := FnvOffsetBasis;
    var i := 0;
    while i < |s|
      invariant 0 <= i <= |s|
      invariant h == Fnv1a(s[..i])
    {
      var x := Xor(h, s[i]);
      ShiftSumIsPrimeProduct(x);
      h := (x + (ShiftLeft(x, 1) + ShiftLeft(x, 4) + ShiftLeft(x, 7) + ShiftLeft(x, 8) + ShiftLeft(x, 24))) % Modulus;
      assert s[..i + 1][..i] == s[..i];
      i := i + 1;
    }
    assert s[..|s|] == s;
    r := Hex8(h);
    Hex8Properties(h);
  }
}
