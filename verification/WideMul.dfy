/** The portable wide multiplications of xxhash.h and t1ha_bits.h, and the 128-bit arithmetic that
    t1ha builds on 64-bit limbs. */
module WideMul {
  import opened Binary
  import LE = LittleEndian

  const B: nat := 0x1_0000_0000
  const M: nat := 0x1_0000_0000_0000_0000

  const P: nat := 0xFFFF_FFFE_0000_0001  // the largest product of two halves

  type U64 = x: nat | x < M

  /** An addition or multiplication that is claimed not to overflow returns the true result only
      when that is so. */
  function Wrapped(x: nat): U64 { x % M }

  function Lo(x: U64): nat { x % B }
  function Hi(x: U64): nat { x / B }

  /** x << s and x >> s; shifting by the word size is not defined. */
  function Shl(x: U64, s: nat): U64
    requires s < 64
  {
    x * Pow2(s) % M
  }

  function Shr(x: U64, s: nat): (r: U64)
    requires s < 64
  {
    ShrSmaller(x, Pow2(s));
    x / Pow2(s)
  }

  // ---- 64 by 64 bits -----------------------------------------------------------------------------

  lemma Expand(a1: nat, a0: nat, b1: nat, b0: nat)
    ensures (a1 * B + a0) * (b1 * B + b0) == a1 * b1 * M + (a1 * b0) * B + (a0 * b1) * B + a0 * b0
  {
    assert (a1 * B + a0) * (b1 * B + b0) == (a1 * B) * (b1 * B) + (a1 * B) * b0 + a0 * (b1 * B) + a0 * b0;
    assert (a1 * B) * (b1 * B) == a1 * b1 * M;
    assert (a1 * B) * b0 == (a1 * b0) * B;
    assert a0 * (b1 * B) == (a0 * b1) * B;
  }

  lemma Commutes(x: int, y: int)
    ensures x * y == y * x
  {
  }

  lemma ProductBound(x: nat, y: nat, n: nat)
    requires x < n && y < n
    ensures x * y <= (n - 1) * (n - 1)
  {
    LE.MulMonotone(x, y, n - 1);
    LE.MulMonotone(n - 1, x, n - 1);
    Commutes(x, n - 1);
  }

  /** XXH_mult32to64 and mul_32x32_64. */
  function Product(x: nat, y: nat): (r: U64)
    requires x * y <= P
    ensures r <= P
  {
    x * y
  }

  /** The four products of halves. */
  lemma Halves(a: U64, b: U64)
    ensures Hi(a) * Hi(b) <= P && Hi(a) * Lo(b) <= P && Lo(a) * Hi(b) <= P && Lo(a) * Lo(b) <= P
    ensures a * b == Product(Hi(a), Hi(b)) * M + Product(Hi(a), Lo(b)) * B + Product(Lo(a), Hi(b)) * B + Product(Lo(a), Lo(b))
    ensures a * b < M * M
  {
    Expand(Hi(a), Lo(a), Hi(b), Lo(b));
    ProductBound(Hi(a), Hi(b), B);
    ProductBound(Hi(a), Lo(b), B);
    ProductBound(Lo(a), Hi(b), B);
    ProductBound(Lo(a), Lo(b), B);
    ProductBound(a, b, M);
  }

  lemma Split(x: U64)
    ensures x == Hi(x) * B + Lo(x) && Lo(x) < B && Hi(x) < B
  {
  }

  lemma Fits(x: nat)
    ensures x < M ==> Wrapped(x) == x
  {
  }

  lemma LowerOr(x: nat, y: nat)
    requires x < B && y < B
    ensures Or(x * B, y) == x * B + y < M
  {
    Pow2Of32And64();
    hide Pow2, Or;
    OrDisjoint(x, y, 32);
  }

  lemma Quotient(product: nat, high: nat, low: nat)
    requires product < M * M && low < M && product == high * M + low
    ensures high < M
  {
  }

  /** The sums of xxhash's multiplication; l and h stand for the low and high halves of a product. */
  lemma CrossSums(ll0: nat, ll1: nat, hl0: nat, hl1: nat, lh: nat, hh: nat, cross0: nat, cross1: nat)
    requires ll0 < B && ll1 < B && hl0 < B && hl1 < B && lh <= P && hh <= P
    requires cross0 < B && cross1 * B + cross0 == ll1 + hl0 + lh
    ensures ll1 + hl0 + lh < M
    ensures (hl1 + cross1 + hh) * M + cross0 * B + ll0 == hh * M + (hl1 * B + hl0) * B + lh * B + ll1 * B + ll0
  {
  }

  /** XXH_mult64to128: no intermediate sum overflows and the two halves are the product. */
  method Mult64To128(lhs: U64, rhs: U64) returns (low: U64, high: U64)
    ensures high * M + low == lhs * rhs
  {
    Halves(lhs, rhs);
    hide Lo, Hi, Wrapped, Product;
    var loLo := Product(Lo(lhs), Lo(rhs));
    var hiLo := Product(Hi(lhs), Lo(rhs));
    var loHi := Product(Lo(lhs), Hi(rhs));
    var hiHi := Product(Hi(lhs), Hi(rhs));
    Split(loLo);
    Split(hiLo);
    var cross := Wrapped(Hi(loLo) + Lo(hiLo) + loHi);
    Split(cross);
    Fits(Hi(loLo) + Lo(hiLo) + loHi);
    CrossSums(Lo(loLo), Hi(loLo), Lo(hiLo), Hi(hiLo), loHi, hiHi, Lo(cross), Hi(cross));
    var upper := Wrapped(Hi(hiLo) + Hi(cross) + hiHi);
    var lower := Or(Lo(cross) * B, Lo(loLo));
    LowerOr(Lo(cross), Lo(loLo));
    Quotient(lhs * rhs, Hi(hiLo) + Hi(cross) + hiHi, lower);
    Fits(Hi(hiLo) + Hi(cross) + hiHi);
    low, high := lower, upper;
  }

  /** add64carry_first, add64carry_next and add64carry_last. */
  method Add64CarryFirst(base: U64, addend: U64) returns (carry: nat, sum: U64)
    ensures carry <= 1 && carry * M + sum == base + addend
  {
    sum := Wrapped(base + addend);
    carry := if sum < addend then 1 else 0;
  }

  method Add64CarryNext(carryIn: nat, base: U64, addend: U64) returns (carry: nat, sum: U64)
    requires carryIn <= 1
    ensures carry <= 1 && carry * M + sum == base + addend + carryIn
  {
    sum := Wrapped(base + addend + carryIn);
    carry := if sum < addend || (carryIn != 0 && sum == addend) then 1 else 0;
  }

  method Add64CarryLast(carryIn: nat, base: U64, addend: U64) returns (sum: U64)
    ensures sum == (base + addend + carryIn) % M
  {
    sum := Wrapped(base + addend + carryIn);
  }

  lemma Shift32(x: U64)
    ensures Shl(x, 32) == Lo(x) * B && Shr(x, 32) == Hi(x)
  {
    Pow2Of32And64();
    hide Pow2;
  }

  lemma Chain(product: nat, ll: nat, lh0: nat, lh1: nat, hl0: nat, hl1: nat, hh: nat, c1: nat, c2: nat, l1: nat, l: nat)
    requires product == hh * M + (lh1 * B + lh0) * B + (hl1 * B + hl0) * B + ll
    requires c1 * M + l1 == ll + lh0 * B && c2 * M + l == l1 + hl0 * B
    ensures product == (hh + lh1 + c1 + hl1 + c2) * M + l
  {
  }

  /** mul_64x64_128: the carry chains give the same halves. */
  method Mul64x64To128(a: U64, b: U64) returns (l: U64, h: U64)
    ensures h * M + l == a * b
  {
    hide Lo, Hi, Wrapped, Shl, Shr, Product;
    Halves(a, b);
    var ll := Product(Lo(a), Lo(b));
    var lh := Product(Hi(a), Lo(b));
    var hl := Product(Lo(a), Hi(b));
    var hh := Product(Hi(a), Hi(b));
    Shift32(lh);
    Shift32(hl);
    Split(lh);
    Split(hl);
    var c1, l1 := Add64CarryFirst(ll, Shl(lh, 32));
    var h1 := Add64CarryLast(c1, hh, Shr(lh, 32));
    var c2: nat;
    c2, l := Add64CarryFirst(l1, Shl(hl, 32));
    h := Add64CarryLast(c2, h1, Shr(hl, 32));
    HighWord(a * b, ll, Lo(lh), Hi(lh), Lo(hl), Hi(hl), hh, c1, c2, l1, l);
  }

  lemma HighWord(product: nat, ll: nat, lh0: nat, lh1: nat, hl0: nat, hl1: nat, hh: nat, c1: nat, c2: nat, l1: nat, l: U64)
    requires product == hh * M + (lh1 * B + lh0) * B + (hl1 * B + hl0) * B + ll && product < M * M
    requires c1 * M + l1 == ll + lh0 * B && c2 * M + l == l1 + hl0 * B
    ensures ((hh + lh1 + c1) % M + hl1 + c2) % M * M + l == product
  {
    Chain(product, ll, lh0, lh1, hl0, hl1, hh, c1, c2, l1, l);
    Quotient(product, hh + lh1 + c1 + hl1 + c2, l);
    Settled(hh + lh1 + c1, hl1 + c2);
  }

  lemma Settled(x: nat, y: nat)
    requires x + y < M
    ensures (x % M + y) % M == x + y
  {
  }

  // ---- 128 bits as two limbs -------------------------------------------------------------------------

  datatype U128 = U128(l: U64, h: U64)

  function Value(v: U128): nat { v.h * M + v.l }

  /** The limbs of a number modulo 2^128. */
  function Limbs(n: nat): (v: U128) { U128(n % M, n / M % M) }

  function Or128(x: U128, y: U128): U128 {
    U128(OrWord(x.l, y.l), OrWord(x.h, y.h))
  }

  function Left128(v: U128, s: nat): U128
    requires s < 128
  {
    var l: U64 := if s < 64 then Shl(v.l, s) else 0;
    var h: U64 := if s < 64 then OrWord(Shl(v.h, s), if s > 0 then Shr(v.l, 64 - s) else 0) else Shl(v.l, s - 64);
    U128(l, h)
  }

  function Right128(v: U128, s: nat): U128
    requires s < 128
  {
    var l: U64 := if s < 64 then OrWord(if s > 0 then Shl(v.h, 64 - s) else 0, Shr(v.l, s)) else Shr(v.h, s - 64);
    var h: U64 := if s < 64 then Shr(v.h, s) else 0;
    U128(l, h)
  }

  function OrWord(x: U64, y: U64): U64 {
    Pow2Of32And64();
    BitwiseFits(x, y, 64);
    Or(x, y)
  }

  function Rot128(v: U128, s: nat): U128 {
    var s := s % 128;
    if s > 0 then Or128(Left128(v, 128 - s), Right128(v, s)) else v
  }

  method Add128(x: U128, y: U128) returns (r: U128)
    ensures r == Limbs(Value(x) + Value(y))
  {
    var carry, l := Add64CarryFirst(x.l, y.l);
    var h := Add64CarryLast(carry, x.h, y.h);
    r := U128(l, h);
  }

  lemma {:induction false} ModSums(h: nat, p: nat, q: nat, n: nat, l: U64)
    ensures Wrapped(h + Wrapped(Wrapped(p) + Wrapped(q))) == (h + p + q) % M
    ensures Limbs((h + p + q + n * M) * M + l) == U128(l, (h + p + q) % M)
  {
    var k := h + p + q;
    LimbsOf(k + n * M, l);
    AddMultiple(k, n);
    AddMultiple(h + Wrapped(p) + Wrapped(q), p / M + q / M);
    AddMultiple(h + Wrapped(Wrapped(p) + Wrapped(q)), (Wrapped(p) + Wrapped(q)) / M);
  }

  lemma AddMultiple(k: nat, n: nat)
    ensures (k + n * M) % M == k % M
  {
  }

  lemma LimbsOf(k: nat, l: U64)
    ensures Limbs(k * M + l) == U128(l, k % M)
  {
    LE.ModUnique(k * M + l, M, k, l);
  }

  lemma ExpandLimbs(x: U128, y: U128, l: U64, h: U64)
    requires h * M + l == x.l * y.l
    ensures Value(x) * Value(y) == (h + x.l * y.h + y.l * x.h + x.h * y.h * M) * M + l
  {
    assert Value(x) * Value(y) == (x.h * M) * (y.h * M) + (x.h * M) * y.l + x.l * (y.h * M) + x.l * y.l;
    assert (x.h * M) * (y.h * M) == x.h * y.h * M * M;
    assert (x.h * M) * y.l == y.l * x.h * M;
    assert x.l * (y.h * M) == x.l * y.h * M;
  }

  method Mul128(x: U128, y: U128) returns (r: U128)
    ensures r == Limbs(Value(x) * Value(y))
  {
    var l, h := Mul64x64To128(x.l, y.l);
    hide Limbs, Wrapped, Value;
    ExpandLimbs(x, y, l, h);
    ModSums(h, x.l * y.h, y.l * x.h, x.h * y.h, l);
    h := Wrapped(h + Wrapped(Wrapped(x.l * y.h) + Wrapped(y.l * x.h)));
    r := U128(l, h);
  }

  // ---- shifts and rotations of 128 bits ------------------------------------------------------------

  /** Multiplying by p modulo p * q keeps the low part of x and moves it up. */
  lemma MoveUp(x: nat, p: nat, q: nat)
    requires p > 0 && q > 0
    ensures x == (x / q) * q + x % q && x * p == (x / q) * (p * q) + (x % q) * p
    ensures (x % q) * p <= p * q - p
    ensures x * p % (p * q) == (x % q) * p && x * p / (p * q) == x / q
    ensures x < p * q ==> x / q < p
  {
    var hi, lo := x / q, x % q;
    Commutes(q, hi);
    assert x * p == hi * q * p + lo * p;
    assert hi * q * p == hi * (p * q);
    LE.MulMonotone(p, lo, q - 1);
    Commutes(lo, p);
    assert p * (q - 1) == p * q - p;
    Commutes(hi, p * q);
    LE.ModUnique(x * p, p * q, hi, lo * p);
    if p <= hi { LE.MulMonotone(q, p, hi); Commutes(p, q); }
  }

  /** The bits that x << s loses, and what it keeps. */
  function Lost(x: U64, s: nat): (r: U64)
    requires s <= 64
  {
    ShrSmaller(x, Pow2(64 - s));
    x / Pow2(64 - s)
  }

  function Kept(x: U64, s: nat): nat
    requires s <= 64
  {
    (x % Pow2(64 - s)) * Pow2(s)
  }

  function Times(x: nat, s: nat): nat { x * Pow2(s) }

  lemma Torn(x: U64, s: nat)
    requires s <= 64
    ensures Times(x, s) == Lost(x, s) * M + Kept(x, s)
    ensures Kept(x, s) < M && (s < 64 ==> Shl(x, s) == Kept(x, s)) && (s == 64 ==> Kept(x, s) == 0)
    ensures s > 0 ==> Shr(x, 64 - s) == Lost(x, s)
    ensures s == 0 ==> Lost(x, s) == 0
  {
    Pow2Of32And64();
    Pow2Add(s, 64 - s);
    MoveUp(x, Pow2(s), Pow2(64 - s));
    if s == 64 { assert Pow2(64 - s) == 1; }
    hide Pow2;
  }

  /** What one word keeps and another loses do not overlap. */
  lemma TornOr(x: U64, y: U64, s: nat)
    requires s <= 64
    ensures Or(Kept(x, s), Lost(y, s)) == Kept(x, s) + Lost(y, s) < M
  {
    Pow2Of32And64();
    Pow2Add(s, 64 - s);
    MoveUp(x, Pow2(s), Pow2(64 - s));
    MoveUp(y, Pow2(s), Pow2(64 - s));
    OrDisjoint(x % Pow2(64 - s), Lost(y, s), s);
    hide Pow2, Or;
  }

  lemma ModSquare(v: nat, q: nat, r: nat)
    requires v == q * (M * M) + r && r < M * M
    ensures v % (M * M) == r
  {
    Commutes(q, M * M);
    LE.ModUnique(v, M * M, q, r);
  }

  lemma Distribute(h: int, l: int, p: int)
    ensures (h * M + l) * p == (h * p) * M + l * p
  {
    assert (h * M) * p == (h * p) * M;
  }

  lemma LeftLimbs(v: int, hp: int, lp: int, h1: nat, h0: nat, l1: nat, l0: nat)
    requires v == hp * M + lp && hp == h1 * M + h0 && lp == l1 * M + l0 && h0 + l1 < M && l0 < M
    ensures v % (M * M) == (h0 + l1) * M + l0
  {
    ModSquare(v, h1, (h0 + l1) * M + l0);
  }

  lemma LeftLimbsFar(v: int, hp: nat, lp: int, l1: nat, l0: nat)
    requires v == hp * (M * M) + lp * M && lp == l1 * M + l0 && l0 < M
    ensures v % (M * M) == l0 * M
  {
    ModSquare(v, hp + l1, l0 * M);
  }

  lemma TimesValue(v: U128, s: nat)
    ensures Value(v) * Pow2(s) == Times(v.h, s) * M + Times(v.l, s)
  {
    Distribute(v.h, v.l, Pow2(s));
  }

  lemma LeftNear(v: U128, s: nat)
    requires s < 64
    ensures Value(Left128(v, s)) == Value(v) * Pow2(s) % (M * M)
  {
    hide Pow2, Shl, Shr, Or, Times, Lost, Kept;
    Torn(v.l, s);
    Torn(v.h, s);
    TornOr(v.h, v.l, s);
    OrNothing(Kept(v.h, s));
    TimesValue(v, s);
    LeftLimbs(Value(v) * Pow2(s), Times(v.h, s), Times(v.l, s), Lost(v.h, s), Kept(v.h, s), Lost(v.l, s), Kept(v.l, s));
  }

  lemma OrNothing(x: nat)
    ensures Or(x, 0) == x && Or(0, x) == x
  {
  }

  lemma LeftFar(v: U128, s: nat)
    requires 64 <= s < 128
    ensures Value(Left128(v, s)) == Value(v) * Pow2(s) % (M * M)
  {
    hide Pow2, Shl, Shr, Or, Times, Lost, Kept;
    var t := s - 64;
    Torn(v.l, t);
    TimesValue(v, s);
    TimesFar(v.h, t);
    TimesFar(v.l, t);
    LeftLimbsFar(Value(v) * Pow2(s), Times(v.h, t), Times(v.l, t), Lost(v.l, t), Kept(v.l, t));
  }

  lemma TimesFar(x: nat, t: nat)
    ensures Times(x, t + 64) == Times(x, t) * M
  {
    Pow2Of32And64();
    Pow2Add(t, 64);
    hide Pow2;
  }

  /** left128 is multiplication modulo 2^128. */
  lemma Left128Value(v: U128, s: nat)
    requires s < 128
    ensures Value(Left128(v, s)) == Value(v) * Pow2(s) % (M * M)
  {
    if s < 64 { LeftNear(v, s); } else { LeftFar(v, s); }
  }

  lemma Scale(v: nat, p: nat, q: nat, r: nat, rest: nat)
    requires p > 0 && q > 0 && v * q == r * (p * q) + rest && rest < p * q
    ensures v / p == r
  {
    MoveUp(v, q, p);
    Commutes(p, q);
    Commutes(r, p * q);
    LE.ModUnique(v * q, p * q, r, rest);
  }

  /** The value moved up by 64 - t, torn at the limbs. */
  lemma TornValue(v: U128, u: nat)
    requires u <= 64
    ensures Value(v) * Pow2(u) == (Lost(v.h, u) * M + (Kept(v.h, u) + Lost(v.l, u))) * M + Kept(v.l, u)
    ensures Kept(v.h, u) + Lost(v.l, u) < M && Kept(v.l, u) < M
  {
    hide Pow2, Shl, Shr, Or, Times, Lost, Kept;
    Torn(v.l, u);
    Torn(v.h, u);
    TornOr(v.h, v.l, u);
    TimesValue(v, u);
  }

  lemma RightNear(v: U128, s: nat)
    requires s < 64
    ensures Right128(v, s).l == Kept(v.h, 64 - s) + Lost(v.l, 64 - s) && Right128(v, s).h == Lost(v.h, 64 - s)
    ensures Value(Right128(v, s)) == Value(v) / Pow2(s)
  {
    hide Pow2, Shl, Shr, Or, Times, Lost, Kept;
    var u := 64 - s;
    Torn(v.l, u);
    Torn(v.h, u);
    TornOr(v.h, v.l, u);
    OrNothing(Lost(v.l, u));
    TornValue(v, u);
    Whole(s, u);
    Scale(Value(v), Pow2(s), Pow2(u), Value(Right128(v, s)), Kept(v.l, u));
  }

  lemma Whole(s: nat, u: nat)
    ensures s + u == 64 ==> Pow2(s) * Pow2(u) == M
    ensures s + u == 128 ==> Pow2(s) * Pow2(u) == M * M
  {
    hide Pow2;
    Pow2Of32And64();
    Pow2Add(s, u);
    Pow2Add(64, 64);
  }

  lemma RightFar(v: U128, s: nat)
    requires 64 <= s < 128
    ensures Right128(v, s) == U128(Lost(v.h, 128 - s), 0)
    ensures Value(Right128(v, s)) == Value(v) / Pow2(s)
  {
    hide Pow2, Shl, Shr, Or, Times, Lost, Kept;
    var u := 128 - s;
    Torn(v.h, u);
    OrNothing(0);
    TornValue(v, u);
    Whole(s, u);
    FarLimbs(Value(v) * Pow2(u), Lost(v.h, u), Kept(v.h, u) + Lost(v.l, u), Kept(v.l, u));
    Scale(Value(v), Pow2(s), Pow2(u), Lost(v.h, u), (Kept(v.h, u) + Lost(v.l, u)) * M + Kept(v.l, u));
  }

  lemma FarLimbs(x: nat, a: nat, b: nat, c: nat)
    requires x == (a * M + b) * M + c && b < M && c < M
    ensures x == a * (M * M) + (b * M + c) && b * M + c < M * M
  {
  }

  /** right128 is division. */
  lemma Right128Value(v: U128, s: nat)
    requires s < 128
    ensures Value(Right128(v, s)) == Value(v) / Pow2(s)
  {
    if s < 64 { RightNear(v, s); } else { RightFar(v, s); }
  }

  /** The two shifts of a rotation do not overlap. */
  lemma RotSum(v: U128, s: nat)
    requires 0 < s < 128
    ensures Value(Rot128(v, s)) == Value(Left128(v, 128 - s)) + Value(Right128(v, s))
  {
    hide Pow2, Shl, Shr, Or, Times, Lost, Kept;
    assert s % 128 == s;
    if s < 64 {
      var u := 64 - s;
      Torn(v.l, u);
      RightNear(v, s);
      TornOr(v.l, v.h, u);
      TornOr(v.h, v.l, u);
      OrNothing(Kept(v.h, u) + Lost(v.l, u));
    } else {
      var u := 128 - s;
      Torn(v.l, u);
      Torn(v.h, u);
      RightFar(v, s);
      TornOr(v.l, v.h, u);
      OrNothing(Lost(v.h, u));
      OrNothing(Left128(v, u).h);
    }
  }

  /** rot128 moves the low s bits above the others. */
  lemma Rot128Value(v: U128, s: nat)
    requires s < 128
    ensures Value(Rot128(v, s)) == Value(v) / Pow2(s) + (Value(v) % Pow2(s)) * Pow2(128 - s)
  {
    if s == 0 {
      assert Pow2(0) == 1;
    } else {
      hide Pow2, Rot128, Left128, Right128, Value;
      RotSum(v, s);
      Left128Value(v, 128 - s);
      Right128Value(v, s);
      Whole(128 - s, s);
      MoveUp(Value(v), Pow2(128 - s), Pow2(s));
    }
  }

  lemma ValueUnique(x: U128, y: U128)
    requires Value(x) == Value(y)
    ensures x == y
  {
  }

  /** Rotating on by the rest of the 128 bits restores the value. */
  lemma RotBack(v: U128, s: nat)
    requires 0 < s < 128
    ensures Rot128(Rot128(v, s), 128 - s) == v
  {
    hide Pow2, Rot128, Value;
    var r := Rot128(v, s);
    Rot128Value(v, s);
    Rot128Value(r, 128 - s);
    Whole(128 - s, s);
    ValueBound(v);
    SwapParts(Value(v), Pow2(128 - s), Pow2(s), Value(r));
    assert 128 - (128 - s) == s;
    ValueUnique(Rot128(r, 128 - s), v);
  }

  lemma SwapParts(v: nat, p: nat, q: nat, r: nat)
    requires p > 0 && q > 0 && v < p * q && r == v / q + (v % q) * p
    ensures r / p + (r % p) * q == v
  {
    MoveUp(v, p, q);
    Commutes(v % q, p);
    LE.ModUnique(r, p, v % q, v / q);
  }

  lemma ValueBound(v: U128)
    ensures Value(v) < M * M
  {
  }
}
