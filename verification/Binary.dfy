/** Powers of two, binary digits, and the bitwise operations of unsigned words. */
module Binary {
  import opened LittleEndian

  function Pow2(n: nat): (p: nat)
    ensures p >= 1
  {
    if n == 0 then 1 else 2 * Pow2(n - 1)
  }

  lemma {:induction false} Pow2Monotone(a: nat, b: nat)
    requires a <= b
    ensures Pow2(a) <= Pow2(b) && (a < b ==> Pow2(a) < Pow2(b))
  {
    if a < b { Pow2Monotone(a, b - 1); }
  }

  lemma DoubleProduct(p: nat, q: nat)
    ensures 2 * (p * q) == p * (2 * q)
  {
  }

  lemma {:induction false} Pow2Add(a: nat, b: nat)
    ensures Pow2(a + b) == Pow2(a) * Pow2(b)
  {
    if b > 0 {
      Pow2Add(a, b - 1);
      DoubleProduct(Pow2(a), Pow2(b - 1));
    }
  }

  /** Binary digits, the lowest first. */
  type Bits = seq<bool>

  function Val(b: Bits): nat {
    if b == [] then 0 else (if b[0] then 1 else 0) + 2 * Val(b[1..])
  }

  function ToBits(x: nat, n: nat): (b: Bits)
    ensures |b| == n
  {
    if n == 0 then [] else [x % 2 == 1] + ToBits(x / 2, n - 1)
  }

  lemma {:induction false} ValOfBits(x: nat, n: nat)
    requires x < Pow2(n)
    ensures Val(ToBits(x, n)) == x
  {
    if n > 0 { ValOfBits(x / 2, n - 1); }
  }

  lemma {:induction false} BitsOfVal(b: Bits)
    ensures Val(b) < Pow2(|b|) && ToBits(Val(b), |b|) == b
  {
    if b != [] { BitsOfVal(b[1..]); }
  }

  function Or(x: nat, y: nat): nat {
    if x == 0 then y
    else if y == 0 then x
    else (if x % 2 == 1 || y % 2 == 1 then 1 else 0) + 2 * Or(x / 2, y / 2)
  }

  /** The or of two words whose bits do not overlap is their sum. */
  lemma {:induction false} OrDisjoint(x: nat, y: nat, s: nat)
    requires y < Pow2(s)
    ensures Or(x * Pow2(s), y) == x * Pow2(s) + y
  {
    if s > 0 && x > 0 && y > 0 {
      var p := Pow2(s - 1);
      assert x * Pow2(s) == 2 * (x * p);
      assert x * p > 0;
      OrDisjoint(x, y / 2, s - 1);
      Twice(x * p);
    }
  }

  lemma Twice(n: nat)
    ensures 2 * n / 2 == n && 2 * n % 2 == 0
  {
  }

  function Xor(x: nat, y: nat): nat {
    if x == 0 then y
    else if y == 0 then x
    else (if x % 2 != y % 2 then 1 else 0) + 2 * Xor(x / 2, y / 2)
  }

  /** The or and the exclusive or of n-bit words have n bits. */
  lemma {:induction false} BitwiseFits(x: nat, y: nat, n: nat)
    requires x < Pow2(n) && y < Pow2(n)
    ensures Or(x, y) < Pow2(n) && Xor(x, y) < Pow2(n)
    decreases n
  {
    if x > 0 && y > 0 { BitwiseFits(x / 2, y / 2, n - 1); }
  }

  function XorWord(x: U64, y: U64): (r: U64) {
    Pow2Of32And64();
    BitwiseFits(x, y, 64);
    Xor(x, y)
  }

  lemma ShrSmaller(x: nat, p: nat)
    requires p >= 1
    ensures 0 <= x / p <= x
  {
    assert p * (x / p) <= x;
    assert (p - 1) * (x / p) >= 0;
  }

  // ---- single bits ---------------------------------------------------------------------------------

  function BitAt(x: nat, i: nat): bool
    decreases i
  {
    if i == 0 then x % 2 == 1 else BitAt(x / 2, i - 1)
  }

  lemma {:induction false} NoBits(i: nat)
    ensures !BitAt(0, i)
  {
    if i > 0 { NoBits(i - 1); }
  }

  lemma XorHalf(x: nat, y: nat)
    ensures Xor(x, y) / 2 == Xor(x / 2, y / 2) && (Xor(x, y) % 2 == 1 <==> x % 2 != y % 2)
  {
  }

  lemma {:induction false} XorBit(x: nat, y: nat, i: nat)
    ensures BitAt(Xor(x, y), i) == (BitAt(x, i) != BitAt(y, i))
    decreases i
  {
    hide Xor;
    XorHalf(x, y);
    if i > 0 { XorBit(x / 2, y / 2, i - 1); }
  }

  lemma HalfOfQuotient(x: nat, p: nat)
    requires p > 0
    ensures x / (2 * p) == x / 2 / p
  {
    var q, r := x / 2 / p, x / 2 % p;
    assert x / 2 == p * q + r;
    assert 2 * (p * q) == (2 * p) * q;
    ModUnique(x, 2 * p, q, 2 * r + x % 2);
  }

  lemma Pow2Step(s: nat)
    ensures Pow2(s) == if s == 0 then 1 else 2 * Pow2(s - 1)
  {
  }

  function ShiftRight(x: nat, s: nat): nat {
    ShrSmaller(x, Pow2(s));
    x / Pow2(s)
  }

  lemma ShiftStep(x: nat, s: nat)
    ensures ShiftRight(x, s) == if s == 0 then x else ShiftRight(x / 2, s - 1)
  {
    hide Pow2;
    Pow2Step(s);
    if s > 0 { HalfOfQuotient(x, Pow2(s - 1)); }
  }

  lemma BitStep(x: nat, i: nat)
    requires i > 0
    ensures BitAt(x, i) == BitAt(x / 2, i - 1)
  {
  }

  lemma {:induction false} ShiftBit(x: nat, s: nat, i: nat)
    ensures BitAt(ShiftRight(x, s), i) == BitAt(x, i + s)
    decreases s
  {
    hide ShiftRight, BitAt;
    ShiftStep(x, s);
    if s > 0 {
      ShiftBit(x / 2, s - 1, i);
      BitStep(x, i + s);
    }
  }

  lemma {:induction false} HighBit(x: nat, n: nat, i: nat)
    requires x < Pow2(n) && n <= i
    ensures !BitAt(x, i)
    decreases n
  {
    if n == 0 { NoBits(i); } else { HighBit(x / 2, n - 1, i - 1); }
  }

  lemma {:induction false} SameBits(x: nat, y: nat, n: nat)
    requires x < Pow2(n) && y < Pow2(n) && forall i: nat :: i < n ==> BitAt(x, i) == BitAt(y, i)
    ensures x == y
    decreases n
  {
    if n > 0 {
      assert BitAt(x, 0) == BitAt(y, 0);
      forall i: nat | i < n - 1 ensures BitAt(x / 2, i) == BitAt(y / 2, i) {
        assert BitAt(x, i + 1) == BitAt(y, i + 1);
      }
      SameBits(x / 2, y / 2, n - 1);
    }
  }

  lemma Pow2Of8()
    ensures Pow2(8) == 256
  {
  }

  lemma Pow2Of32And64()
    ensures Pow2(32) == 0x1_0000_0000 && Pow2(64) == 0x1_0000_0000_0000_0000
  {
    hide Pow2;
    Pow2Of8();
    Pow2Add(8, 8);
    Pow2Add(16, 16);
    Pow2Add(32, 32);
  }
}
