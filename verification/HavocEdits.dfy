/** The edits of afl_mutate as functions on the input, and what undoes what. */
module HavocEdits {
  import opened Binary
  import S = Sattolo

  type Bytes = seq<bv8>

  const M16: nat := 0x1_0000
  const M32: nat := 0x1_0000_0000

  datatype Edit =
    | FlipBit(off: nat, bit: nat)
    | XorByte(off: nat, x: bv8)
    | AddByte(off: nat, delta: bv8)
    | Add16(off: nat, delta16: nat, big: bool)
    | Add32(off: nat, delta32: nat, big: bool)
    | Store(off: nat, data: Bytes)
    | CopyWithin(src: nat, dst: nat, n: nat)
    | Fill(off: nat, n: nat, val: bv8)
    | SwapBlocks(a: nat, b: nat, n: nat)
    | Shuffle(off: nat, js: seq<nat>)
    | Delete(off: nat, n: nat)
    | Insert(off: nat, data: Bytes)
    | Replace(off: nat, n: nat, data: Bytes)
    | Nothing

  /** In range for an input of length len, leaving a length in 1..max. */
  predicate ValidFor(e: Edit, len: nat, max: nat) {
    match e
    case FlipBit(off, bit) => off < len && bit < 8
    case XorByte(off, _) => off < len
    case AddByte(off, _) => off < len
    case Add16(off, delta, _) => off + 2 <= len && delta < M16
    case Add32(off, delta, _) => off + 4 <= len && delta < M32
    case Store(off, data) => off + |data| <= len
    case CopyWithin(src, dst, n) => src + n <= len && dst + n <= len
    case Fill(off, n, _) => off + n <= len
    case SwapBlocks(a, b, n) => a + n <= len && b + n <= len && (a + n <= b || b + n <= a)
    case Shuffle(off, js) => |js| >= 1 && off + |js| <= len && S.Choices(js)
    case Delete(off, n) => 1 <= n && off + n <= len && n < len
    case Insert(off, data) => off <= len && len + |data| <= max
    case Nothing => true
    case Replace(off, n, data) => 1 <= n && off + n <= len && 1 <= |data| && len - n + |data| <= max
  }

  function Bit(k: nat): bv8
    requires k < 8
  {
    match k case 0 => 1 case 1 => 2 case 2 => 4 case 3 => 8 case 4 => 16 case 5 => 32 case 6 => 64 case _ => 128
  }

  predicate Has(v: bv8, k: nat)
    requires k < 8
  {
    v & Bit(k) != 0
  }

  function ByteBits(v: bv8): (b: Bits)
    ensures |b| == 8
  {
    [Has(v, 0), Has(v, 1), Has(v, 2), Has(v, 3), Has(v, 4), Has(v, 5), Has(v, 6), Has(v, 7)]
  }

  function FromBits(b: Bits): bv8
    requires |b| == 8
  {
    (if b[0] then 1 else 0) | (if b[1] then 2 else 0) | (if b[2] then 4 else 0) | (if b[3] then 8 else 0)
    | (if b[4] then 16 else 0) | (if b[5] then 32 else 0) | (if b[6] then 64 else 0) | (if b[7] then 128 else 0)
  }

  /** The number a byte stands for, and the byte that stands for a number. */
  function Num(v: bv8): nat { Val(ByteBits(v)) }

  function Byte(n: nat): bv8
    requires n < 256
  {
    FromBits(ToBits(n, 8))
  }

  lemma BitsOf(b: Bits)
    requires |b| == 8
    ensures ByteBits(FromBits(b)) == b
  {
  }

  lemma BitsBack(v: bv8)
    ensures FromBits(ByteBits(v)) == v
  {
  }

  lemma ByteNum(n: nat)
    requires n < 256
    ensures Num(Byte(n)) == n
  {
    hide FromBits, ByteBits, Pow2, ToBits, Val;
    Pow2Of8();
    BitsOf(ToBits(n, 8));
    ValOfBits(n, 8);
  }

  lemma NumRange(v: bv8)
    ensures Num(v) < 256 && Byte(Num(v)) == v
  {
    hide FromBits, ByteBits, Pow2, ToBits, Val;
    Pow2Of8();
    BitsBack(v);
    BitsOfVal(ByteBits(v));
  }

  /** EXTRACT16 and EXTRACT32: the low byte comes first. */
  function Get16(b: Bytes, off: nat): (x: nat)
    requires off + 2 <= |b|
    ensures x < M16
  {
    NumRange(b[off]);
    NumRange(b[off + 1]);
    Num(b[off]) + 256 * Num(b[off + 1])
  }

  function Get32(b: Bytes, off: nat): (x: nat)
    requires off + 4 <= |b|
    ensures x < M32
  {
    Get16(b, off) + M16 * Get16(b, off + 2)
  }

  /** INSERT16 and INSERT32. */
  function Put16(x: nat): (b: Bytes)
    requires x < M16
    ensures |b| == 2
  {
    [Byte(x % 256), Byte(x / 256)]
  }

  function Put32(x: nat): (b: Bytes)
    requires x < M32
    ensures |b| == 4
  {
    Put16(x % M16) + Put16(x / M16)
  }

  /** SWAP16 and SWAP32. */
  function Swap16(x: nat): (r: nat)
    requires x < M16
    ensures r < M16
  {
    (x % 256) * 256 + x / 256
  }

  function Swap32(x: nat): (r: nat)
    requires x < M32
    ensures r < M32
  {
    Swap16(x % M16) * M16 + Swap16(x / M16)
  }

  function Plus16(x: nat, d: nat): (r: nat)
    ensures r < M16
  {
    (x + d) % M16
  }

  function Plus32(x: nat, d: nat): (r: nat)
    ensures r < M32
  {
    (x + d) % M32
  }

  function Add16Of(x: nat, delta: nat, big: bool): (r: nat)
    requires x < M16
    ensures r < M16
  {
    if big then Swap16(Plus16(Swap16(x), delta)) else Plus16(x, delta)
  }

  function Add32Of(x: nat, delta: nat, big: bool): (r: nat)
    requires x < M32
    ensures r < M32
  {
    if big then Swap32(Plus32(Swap32(x), delta)) else Plus32(x, delta)
  }

  /** Subtracting modulo the word size. */
  function Neg16(d: nat): (r: nat)
    requires d < M16
    ensures r < M16
  {
    (M16 - d) % M16
  }

  function Neg32(d: nat): (r: nat)
    requires d < M32
    ensures r < M32
  {
    (M32 - d) % M32
  }

  /** Overwriting bytes from off on. */
  function Patch<T>(b: seq<T>, off: nat, data: seq<T>): (r: seq<T>)
    requires off + |data| <= |b|
    ensures |r| == |b|
  {
    b[..off] + data + b[off + |data|..]
  }

  function Xored(v: bv8, x: bv8): bv8 { v ^ x }
  function Added(v: bv8, x: bv8): bv8 { v + x }

  function Apply(e: Edit, b: Bytes, max: nat): (r: Bytes)
    requires ValidFor(e, |b|, max)
  {
    match e
    case FlipBit(off, bit) => b[off := Xored(b[off], Bit(bit))]
    case XorByte(off, x) => b[off := Xored(b[off], x)]
    case AddByte(off, delta) => b[off := Added(b[off], delta)]
    case Add16(off, delta, big) => Patch(b, off, Put16(Add16Of(Get16(b, off), delta, big)))
    case Add32(off, delta, big) => Patch(b, off, Put32(Add32Of(Get32(b, off), delta, big)))
    case Store(off, data) => Patch(b, off, data)
    case CopyWithin(src, dst, n) => Patch(b, dst, b[src..src + n])
    case Fill(off, n, val) => Patch(b, off, seq(n, _ => val))
    case SwapBlocks(x, y, n) => SwapSeq(b, x, y, n)
    case Shuffle(off, js) => Patch(b, off, S.Shuffled(b[off..off + |js|], js, |js| - 1))
    case Delete(off, n) => b[..off] + b[off + n..]
    case Insert(off, data) => b[..off] + data + b[off..]
    case Nothing => b
    case Replace(off, n, data) => b[..off] + data + b[off + n..]
  }

  /** A valid edit leaves a nonempty input within the limit. */
  lemma LengthKept(e: Edit, b: Bytes, max: nat)
    requires ValidFor(e, |b|, max) && 1 <= |b| <= max
    ensures 1 <= |Apply(e, b, max)| <= max
  {
    hide Put16, Put32, Add16Of, Add32Of, S.Choices;
  }

  predicate ValidScript(script: seq<Edit>, b: Bytes, max: nat)
    decreases |script|
  {
    script == []
    || (ValidFor(script[0], |b|, max) && ValidScript(script[1..], Apply(script[0], b, max), max))
  }

  function Run(script: seq<Edit>, b: Bytes, max: nat): Bytes
    requires ValidScript(script, b, max)
    decreases |script|
  {
    if script == [] then b else Run(script[1..], Apply(script[0], b, max), max)
  }

  /** Scripts run in order. */
  lemma {:induction false} RunSnoc(script: seq<Edit>, b: Bytes, max: nat, e: Edit)
    requires ValidScript(script, b, max) && ValidFor(e, |Run(script, b, max)|, max)
    ensures ValidScript(script + [e], b, max)
    ensures Run(script + [e], b, max) == Apply(e, Run(script, b, max), max)
    decreases |script|
  {
    hide Apply, ValidFor;
    if script == [] {
      assert script + [e] == [e];
      assert [e][1..] == [];
    } else {
      RunSnoc(script[1..], Apply(script[0], b, max), max, e);
      assert (script + [e])[1..] == script[1..] + [e];
    }
  }

  // ---- what undoes what ----------------------------------------------------------------------

  lemma XorUndoes(x: bv8, y: bv8)
    ensures Xored(Xored(x, y), y) == x
  {
  }

  /** Flipping a bit or a byte twice restores the input. */
  lemma FlipTwice(b: Bytes, off: nat, bit: nat, x: bv8, max: nat)
    requires off < |b| && bit < 8
    ensures Apply(FlipBit(off, bit), Apply(FlipBit(off, bit), b, max), max) == b
    ensures Apply(XorByte(off, x), Apply(XorByte(off, x), b, max), max) == b
  {
    hide Bit, Xored;
    XorUndoes(b[off], Bit(bit));
    XorUndoes(b[off], x);
    PutBack(b, off, Xored(b[off], Bit(bit)));
    PutBack(b, off, Xored(b[off], x));
  }

  lemma PutBack<T>(b: seq<T>, off: nat, x: T)
    requires off < |b|
    ensures b[off := x][off := b[off]] == b
  {
  }

  lemma PutGet16(b: Bytes, off: nat, x: nat)
    requires off + 2 <= |b| && x < M16 && b[off..off + 2] == Put16(x)
    ensures Get16(b, off) == x
  {
    ByteNum(x % 256);
    ByteNum(x / 256);
    hide Byte, Num;
    assert b[off] == b[off..off + 2][0] && b[off + 1] == b[off..off + 2][1];
  }

  lemma GetPut16(b: Bytes, off: nat)
    requires off + 2 <= |b|
    ensures Put16(Get16(b, off)) == b[off..off + 2]
  {
    hide Byte, Num;
    NumRange(b[off]);
    NumRange(b[off + 1]);
    Quarters(Num(b[off + 1]), Num(b[off]));
    assert b[off..off + 2] == [b[off], b[off + 1]];
  }

  lemma PutGet32(b: Bytes, off: nat, x: nat)
    requires off + 4 <= |b| && x < M32 && b[off..off + 4] == Put32(x)
    ensures Get32(b, off) == x
  {
    hide Put16, Get16;
    assert b[off..off + 2] == b[off..off + 4][..2] && b[off + 2..off + 4] == b[off..off + 4][2..];
    PutGet16(b, off, x % M16);
    PutGet16(b, off + 2, x / M16);
  }

  lemma GetPut32(b: Bytes, off: nat)
    requires off + 4 <= |b|
    ensures Put32(Get32(b, off)) == b[off..off + 4]
  {
    hide Put16, Get16;
    GetPut16(b, off);
    GetPut16(b, off + 2);
    assert b[off..off + 4] == b[off..off + 2] + b[off + 2..off + 4];
  }

  lemma SwapsUndo(x: nat, y: nat)
    requires x < M16 && y < M32
    ensures Swap16(Swap16(x)) == x && Swap32(Swap32(y)) == y
  {
    hide Swap16;
    Swap16Undo(x);
    Swap16Undo(y % M16);
    Swap16Undo(y / M16);
    Halves(Swap16(y % M16), Swap16(y / M16));
    Halves(y / M16, y % M16);
  }

  lemma Halves(hi: nat, lo: nat)
    requires hi < M16 && lo < M16
    ensures (hi * M16 + lo) % M16 == lo && (hi * M16 + lo) / M16 == hi
  {
  }

  lemma Quarters(hi: nat, lo: nat)
    requires hi < 256 && lo < 256
    ensures (lo + 256 * hi) % 256 == lo && (lo + 256 * hi) / 256 == hi
  {
  }

  lemma Swap16Undo(x: nat)
    requires x < M16
    ensures Swap16(Swap16(x)) == x
  {
    Quarters(x % 256, x / 256);
  }

  lemma PlusUndoes(x: nat, d: nat, y: nat, e: nat)
    requires x < M16 && d < M16 && y < M32 && e < M32
    ensures Plus16(Plus16(x, d), Neg16(d)) == x
    ensures Plus32(Plus32(y, e), Neg32(e)) == y
  {
  }

  lemma AddUndoes(x: nat, d: nat, y: nat, e: nat, big: bool)
    requires x < M16 && d < M16 && y < M32 && e < M32
    ensures Add16Of(Add16Of(x, d, big), Neg16(d), big) == x
    ensures Add32Of(Add32Of(y, e, big), Neg32(e), big) == y
  {
    hide Swap16, Swap32, Plus16, Plus32, Neg16, Neg32;
    SwapsUndo(x, y);
    SwapsUndo(Plus16(Swap16(x), d), Plus32(Swap32(y), e));
    PlusUndoes(x, d, y, e);
    PlusUndoes(Swap16(x), d, Swap32(y), e);
  }

  lemma PatchTwice<T>(b: seq<T>, off: nat, x: seq<T>, y: seq<T>)
    requires off + |x| <= |b| && |y| == |x| && y == b[off..off + |x|]
    ensures Patch(Patch(b, off, x), off, y) == b
  {
  }

  /** Adding and subtracting the same amount at the same place with the same byte order cancel. */
  lemma ArithCancels(b: Bytes, off: nat, d16: nat, d32: nat, big: bool, max: nat)
    requires off + 4 <= |b| && d16 < M16 && d32 < M32
    ensures Apply(Add16(off, Neg16(d16), big), Apply(Add16(off, d16, big), b, max), max) == b
    ensures Apply(Add32(off, Neg32(d32), big), Apply(Add32(off, d32, big), b, max), max) == b
  {
    hide Patch, Put16, Put32, Add16Of, Add32Of, Get16, Get32;
    AddUndoes(Get16(b, off), d16, Get32(b, off), d32, big);
    var x := Put16(Add16Of(Get16(b, off), d16, big));
    var y := Put32(Add32Of(Get32(b, off), d32, big));
    PatchReads(b, off, x);
    PatchReads(b, off, y);
    PutGet16(Patch(b, off, x), off, Add16Of(Get16(b, off), d16, big));
    PutGet32(Patch(b, off, y), off, Add32Of(Get32(b, off), d32, big));
    GetPut16(b, off);
    GetPut32(b, off);
    PatchTwice(b, off, x, Put16(Get16(b, off)));
    PatchTwice(b, off, y, Put32(Get32(b, off)));
  }

  lemma PatchSame<T>(b: seq<T>, off: nat, n: nat)
    requires off + n <= |b|
    ensures Patch(b, off, b[off..off + n]) == b
  {
  }

  lemma PatchReads<T>(b: seq<T>, off: nat, x: seq<T>)
    requires off + |x| <= |b|
    ensures Patch(b, off, x)[off..off + |x|] == x
  {
  }

  /** MUT_ARITH32BE as written swaps the sum twice: it is the little-endian addition. */
  lemma Arith32BEIsLittleEndian(x: nat, item: nat)
    requires x < M32 && item < M32
    ensures Swap32(Swap32(Plus32(x, item))) == Add32Of(x, item, false)
  {
    hide Swap32, Plus32;
    SwapsUndo(0, Plus32(x, item));
  }

  lemma SwapDigits(x: nat, a: nat, b: nat, c: nat, d: nat)
    requires a < 256 && b < 256 && c < 256 && d < 256 && x == a + 0x100 * b + 0x1_0000 * c + 0x100_0000 * d
    ensures x < M32 && Swap32(x) == d + 0x100 * c + 0x1_0000 * b + 0x100_0000 * a
  {
    Halves(c + 256 * d, a + 256 * b);
    Quarters(b, a);
    Quarters(d, c);
  }

  /** A sum below 512 and its carry. */
  function Carry(x: nat): nat { if x < 256 then 0 else 1 }

  lemma SumDigits(x: nat, a: nat, b: nat, c: nat, d: nat, item: nat)
    requires a < 256 && b < 256 && c < 256 && d < 256 && item < 256
    requires x == a + 0x100 * b + 0x1_0000 * c + 0x100_0000 * d
    ensures var p, q, r := Carry(a + item), Carry(b + Carry(a + item)), Carry(c + Carry(b + Carry(a + item)));
      Plus32(x, item)
        == (a + item - 256 * p) + 0x100 * (b + p - 256 * q) + 0x1_0000 * (c + q - 256 * r) + 0x100_0000 * (d + r - 256 * Carry(d + r))
  {
  }

  /** The carries that make both byte orders agree run through all four bytes. */
  lemma AgreeingCarries(a: nat, b: nat, c: nat, d: nat, item: nat, a': nat, b': nat, c': nat, d': nat, z: nat, wrap: nat)
    requires a < 256 && b < 256 && c < 256 && d < 256 && 1 <= item < 256 && wrap <= 1
    requires a' == a + item - 256 * Carry(a + item)
    requires b' == b + Carry(a + item) - 256 * Carry(b + Carry(a + item))
    requires c' == c + Carry(b + Carry(a + item)) - 256 * Carry(c + Carry(b + Carry(a + item)))
    requires d' == d + Carry(c + Carry(b + Carry(a + item))) - 256 * Carry(d + Carry(c + Carry(b + Carry(a + item))))
    requires z == d' + 0x100 * c' + 0x1_0000 * b' + 0x100_0000 * a'
    requires z == d + 0x100 * c + 0x1_0000 * b + 0x100_0000 * a + item - M32 * wrap
    ensures a == 255 && b == 255 && c == 255 && d == 255 && item == 1
  {
    assert Carry(c + Carry(b + Carry(a + item))) == 1 && item == 1;
  }

  /** The bytes of a word. */
  lemma Digits(x: nat) returns (a: nat, b: nat, c: nat, d: nat)
    requires x < M32
    ensures a < 256 && b < 256 && c < 256 && d < 256 && x == a + 0x100 * b + 0x1_0000 * c + 0x100_0000 * d
  {
    a, b, c, d := x % 256, x / 256 % 256, x / 256 / 256 % 256, x / 256 / 256 / 256;
  }

  /** Adding in little-endian and in big-endian order agree for one value and one amount only. */
  lemma OrdersAgree(x: nat, item: nat)
    requires x < M32 && 1 <= item < 256
    ensures Swap32(Plus32(x, item)) == Plus32(Swap32(x), item) <==> x == M32 - 1 && item == 1
  {
    AllOnesAgree();
    if Swap32(Plus32(x, item)) == Plus32(Swap32(x), item) { AgreeingOrders(x, item); }
  }

  lemma AllOnesAgree()
    ensures Swap32(Plus32(M32 - 1, 1)) == 0 == Plus32(Swap32(M32 - 1), 1)
  {
    hide Swap32;
    SwapDigits(M32 - 1, 255, 255, 255, 255);
    SwapDigits(0, 0, 0, 0, 0);
  }

  /** The digits of the sum, and the sum with its bytes in the other order. */
  lemma SumSwapped(x: nat, a: nat, b: nat, c: nat, d: nat, item: nat) returns (a': nat, b': nat, c': nat, d': nat)
    requires a < 256 && b < 256 && c < 256 && d < 256 && item < 256
    requires x == a + 0x100 * b + 0x1_0000 * c + 0x100_0000 * d
    ensures a' == a + item - 256 * Carry(a + item)
    ensures b' == b + Carry(a + item) - 256 * Carry(b + Carry(a + item))
    ensures c' == c + Carry(b + Carry(a + item)) - 256 * Carry(c + Carry(b + Carry(a + item)))
    ensures d' == d + Carry(c + Carry(b + Carry(a + item))) - 256 * Carry(d + Carry(c + Carry(b + Carry(a + item))))
    ensures Swap32(Plus32(x, item)) == d' + 0x100 * c' + 0x1_0000 * b' + 0x100_0000 * a'
  {
    hide Swap32, Plus32, Carry;
    var p := Carry(a + item);
    CarriedDigits(a, item);
    var q := Carry(b + p);
    CarriedDigits(b, p);
    var r := Carry(c + q);
    CarriedDigits(c, q);
    CarriedDigits(d, r);
    a', b', c', d' := a + item - 256 * p, b + p - 256 * q, c + q - 256 * r, d + r - 256 * Carry(d + r);
    SumDigits(x, a, b, c, d, item);
    SwapDigits(Plus32(x, item), a', b', c', d');
  }

  lemma AgreeingOrders(x: nat, item: nat)
    requires x < M32 && 1 <= item < 256 && Swap32(Plus32(x, item)) == Plus32(Swap32(x), item)
    ensures x == M32 - 1 && item == 1
  {
    hide Swap32, Plus32, Carry;
    var a, b, c, d := Digits(x);
    var a', b', c', d' := SumSwapped(x, a, b, c, d, item);
    SwapDigits(x, a, b, c, d);
    var wrap := PlusWraps(Swap32(x), item);
    AgreeingCarries(a, b, c, d, item, a', b', c', d', Swap32(Plus32(x, item)), wrap);
  }

  lemma CarriedDigits(a: nat, carry: nat)
    requires a < 256 && carry < 256
    ensures 0 <= a + carry - 256 * Carry(a + carry) < 256 && Carry(a + carry) <= 1
  {
  }

  lemma PlusWraps(y: nat, d: nat) returns (wrap: nat)
    requires y < M32 && d < M32
    ensures wrap <= 1 && Plus32(y, d) == y + d - M32 * wrap
  {
    wrap := if y + d < M32 then 0 else 1;
  }

  /** So MUT_ARITH32BE_ undoes MUT_ARITH32BE exactly when FF FF FF FF was increased by 1. */
  lemma Arith32BEUndoneExactly(x: nat, item: nat)
    requires x < M32 && 1 <= item < 256
    ensures Add32Of(Add32Of(x, item, false), Neg32(item), true) == x <==> x == M32 - 1 && item == 1
  {
    hide Swap32;
    var y := Plus32(x, item);
    OrdersAgree(x, item);
    SwapsUndo(0, x);
    SwapsUndo(0, y);
    SwapsUndo(0, Plus32(Swap32(y), Neg32(item)));
    PlusUndoes(0, 0, Swap32(x), item);
    MinusUndoes(Swap32(y), item);
    hide Plus32, Neg32;
  }

  lemma MinusUndoes(y: nat, item: nat)
    requires y < M32 && item < M32
    ensures Plus32(Plus32(y, Neg32(item)), item) == y
  {
  }

  /** For one: adding 1 and subtracting 1 turns FF 00 00 00 into 00 00 FF FF. */
  lemma Arith32BENotInverse()
    ensures Add32Of(Add32Of(0xFF, 1, false), Neg32(1), true) == 0xFFFF0000
  {
    assert Swap32(0x100) == 0x10000;
    assert Plus32(0x10000, Neg32(1)) == 0xFFFF;
    assert Swap32(0xFFFF) == 0xFFFF0000;
  }

  function SwapSeq<T>(b: seq<T>, x: nat, y: nat, n: nat): (r: seq<T>)
    requires x + n <= |b| && y + n <= |b|
    ensures |r| == |b|
  {
    Patch(Patch(b, x, b[y..y + n]), y, b[x..x + n])
  }

  lemma SwapIndex<T>(b: seq<T>, x: nat, y: nat, n: nat, k: nat)
    requires x + n <= |b| && y + n <= |b| && (x + n <= y || y + n <= x) && k < |b|
    ensures SwapSeq(b, x, y, n)[k]
         == if x <= k < x + n then b[y + (k - x)] else if y <= k < y + n then b[x + (k - y)] else b[k]
  {
    var first := Patch(b, x, b[y..y + n]);
    assert first[k] == if x <= k < x + n then b[y + (k - x)] else b[k];
  }

  lemma SwapSeqTwice<T>(b: seq<T>, x: nat, y: nat, n: nat)
    requires x + n <= |b| && y + n <= |b| && (x + n <= y || y + n <= x)
    ensures SwapSeq(SwapSeq(b, x, y, n), x, y, n) == b
  {
    hide SwapSeq;
    var c := SwapSeq(b, x, y, n);
    forall k | 0 <= k < |b|
      ensures SwapSeq(c, x, y, n)[k] == b[k]
    {
      SwapIndex(c, x, y, n, k);
      SwapIndex(b, x, y, n, if x <= k < x + n then y + (k - x) else if y <= k < y + n then x + (k - y) else k);
    }
  }

  /** Swapping two disjoint blocks is its own inverse. */
  lemma SwapTwice(b: Bytes, x: nat, y: nat, n: nat, max: nat)
    requires ValidFor(SwapBlocks(x, y, n), |b|, max)
    ensures Apply(SwapBlocks(x, y, n), Apply(SwapBlocks(x, y, n), b, max), max) == b
  {
    SwapSeqTwice(b, x, y, n);
    hide SwapSeq;
  }

  /** Deleting what was inserted restores the input. */
  lemma InsertDelete(b: Bytes, off: nat, data: Bytes, max: nat)
    requires off <= |b| && |b| + |data| <= max && data != [] && b != []
    ensures Apply(Delete(off, |data|), Apply(Insert(off, data), b, max), max) == b
  {
  }
}
