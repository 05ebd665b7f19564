/** XXH64_avalanche, the final mix of the short hashes: different words stay different. */
module XxhAvalanche {
  import opened LittleEndian
  import opened Binary
  import opened Xxh3Stripes

  /** x ^= x >> s. */
  function XorShift(x: U64, s: nat): U64 {
    ShrSmaller(x, Pow2(s));
    XorWord(x, ShiftRight(x, s))
  }

  /** Multiplication modulo 2^64. */
  function Times(x: U64, m: U64): U64 { x * m % TWO64 }

  function Avalanche(hash: U64): U64 {
    XorShift(Times(XorShift(Times(XorShift(hash, 33), PRIME64_2), 29), PRIME64_3), 32)
  }

  /** From the highest bit down: each bit of x is the xor of a bit of the result and a higher bit of x. */
  lemma {:induction false} ShiftedBit(x: U64, y: U64, s: nat, i: nat)
    requires s > 0 && XorShift(x, s) == XorShift(y, s)
    ensures BitAt(x, i) == BitAt(y, i)
    decreases 64 - i
  {
    Pow2Of32And64();
    hide Pow2, Xor, BitAt;
    if i >= 64 {
      HighBit(x, 64, i);
      HighBit(y, 64, i);
    } else {
      ShiftedBit(x, y, s, i + s);
      ShrSmaller(x, Pow2(s));
      ShrSmaller(y, Pow2(s));
      XorBit(x, ShiftRight(x, s), i);
      XorBit(y, ShiftRight(y, s), i);
      ShiftBit(x, s, i);
      ShiftBit(y, s, i);
    }
  }

  lemma XorShiftInjective(x: U64, y: U64, s: nat)
    requires s > 0 && XorShift(x, s) == XorShift(y, s)
    ensures x == y
  {
    Pow2Of32And64();
    hide Pow2, XorShift, BitAt;
    forall i: nat | i < 64 ensures BitAt(x, i) == BitAt(y, i) { ShiftedBit(x, y, s, i); }
    SameBits(x, y, 64);
  }

  /** A factor with an inverse can be cancelled. */
  lemma TimesUndone(x: U64, m: U64, inverse: U64, k: nat)
    requires m * inverse == k * TWO64 + 1
    ensures Times(Times(x, m), inverse) == x
  {
    var q := x * m / TWO64;
    var r := x * m % TWO64;
    assert (x * m) * inverse == x * (m * inverse);
    assert x * (k * TWO64 + 1) == (x * k) * TWO64 + x;
    assert (q * TWO64 + r) * inverse == (q * inverse) * TWO64 + r * inverse;
    ModUnique(r * inverse, TWO64, x * k - q * inverse, x);
  }

  const INVERSE64_2: U64 := 0x0BA79078168D4BAF
  const INVERSE64_3: U64 := 0xE9E9F4C41D6DF849

  lemma Inverses()
    ensures PRIME64_2 * INVERSE64_2 == 638699622168397319 * TWO64 + 1
    ensures PRIME64_3 * INVERSE64_3 == 1470722560960728959 * TWO64 + 1
  {
  }

  /** The avalanche is injective. */
  lemma AvalancheInjective(x: U64, y: U64)
    ensures Avalanche(x) == Avalanche(y) <==> x == y
  {
    hide XorShift, Times;
    Inverses();
    var x1, y1 := XorShift(x, 33), XorShift(y, 33);
    var x2, y2 := Times(x1, PRIME64_2), Times(y1, PRIME64_2);
    var x3, y3 := XorShift(x2, 29), XorShift(y2, 29);
    var x4, y4 := Times(x3, PRIME64_3), Times(y3, PRIME64_3);
    TimesUndone(x1, PRIME64_2, INVERSE64_2, 638699622168397319);
    TimesUndone(y1, PRIME64_2, INVERSE64_2, 638699622168397319);
    TimesUndone(x3, PRIME64_3, INVERSE64_3, 1470722560960728959);
    TimesUndone(y3, PRIME64_3, INVERSE64_3, 1470722560960728959);
    if Avalanche(x) == Avalanche(y) {
      XorShiftInjective(x4, y4, 32);
      XorShiftInjective(x2, y2, 29);
      XorShiftInjective(x, y, 33);
    }
  }
}
