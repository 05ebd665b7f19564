/** Bytes and fixed-width unsigned words, and the little-endian layout used by
    XXH_readLE64/XXH_writeLE64 and by Python's array.tofile on the hosts AFL++ runs on. */
module LittleEndian {

  newtype Byte = x: int | 0 <= x < 256
  type Bytes = seq<Byte>

  const TWO32: int := 0x1_0000_0000
  const TWO64: int := 0x1_0000_0000_0000_0000

  type U32 = x: int | 0 <= x < TWO32
  type U64 = x: int | 0 <= x < TWO64
  newtype Word64 = x: int | 0 <= x < TWO64

  /** 256 to the power w: the number of values a w-byte word can hold. */
  function Pow256(w: nat): (p: nat)
    ensures p >= 1
  {
    if w == 0 then 1 else 256 * Pow256(w - 1)
  }

  lemma Pow256Of8()
    ensures Pow256(8) == TWO64
  {
    assert Pow256(4) == TWO32;
    assert Pow256(5) == 0x100_0000_0000;
  }

  /** The w low bytes of v, least significant first. */
  function Write(v: nat, w: nat): (b: Bytes)
    ensures |b| == w
  {
    if w == 0 then [] else [(v % 256) as Byte] + Write(v / 256, w - 1)
  }

  /** The value of a little-endian byte string. */
  function Read(b: Bytes): (v: nat)
    ensures v < Pow256(|b|)
  {
    if b == [] then 0 else b[0] as nat + 256 * Read(b[1..])
  }

  /** Reading back what was written loses exactly the part that does not fit in w bytes. */
  lemma {:induction false} ReadWrite(v: nat, w: nat)
    ensures Read(Write(v, w)) == v % Pow256(w)
  {
    if w > 0 {
      ReadWrite(v / 256, w - 1);
      assert Write(v, w)[1..] == Write(v / 256, w - 1);
      SplitMod(v, Pow256(w - 1));
    }
  }

  /** Writing back what was read restores the bytes. */
  lemma {:induction false} WriteRead(b: Bytes)
    ensures Write(Read(b), |b|) == b
  {
    if b != [] {
      WriteRead(b[1..]);
      assert Read(b) / 256 == Read(b[1..]) && Read(b) % 256 == b[0] as nat;
      assert b == [b[0]] + b[1..];
    }
  }

  lemma SplitMod(v: nat, p: nat)
    requires p >= 1
    ensures v % (256 * p) == v % 256 + 256 * ((v / 256) % p)
  {
    var q, r := v / 256, v % 256;
    var s, t := q / p, q % p;
    assert v == 256 * (s * p + t) + r;
    assert v == (256 * p) * s + (256 * t + r);
    assert 256 * t + r < 256 * p;
    ModUnique(v, 256 * p, s, 256 * t + r);
  }

  /** Unsigned 64-bit wrap-around. */
  function Wrap64(x: int): U64 { x % TWO64 }

  lemma Wrap64Add(a: nat, b: nat)
    ensures Wrap64(Wrap64(a) + b) == Wrap64(a + b)
  {
    var s := a % TWO64 + b;
    ModUnique(a + b, TWO64, a / TWO64 + s / TWO64, s % TWO64);
  }

  lemma Wrap64Small(a: nat)
    requires a < TWO64
    ensures Wrap64(a) == a
  {
  }

  /** The quotient and remainder of a Euclidean division are unique. */
  lemma ModUnique(v: int, m: int, q: int, r: int)
    requires m > 0 && v == m * q + r && 0 <= r < m
    ensures v / m == q && v % m == r
  {
    var q' := v / m;
    assert v == m * q' + v % m;
    if q' <= q - 1 {
      MulMonotone(m, q', q - 1);
    } else if q <= q' - 1 {
      MulMonotone(m, q, q' - 1);
    }
  }

  lemma MulMonotone(m: nat, a: int, b: int)
    requires a <= b
    ensures m * a <= m * b
  {
    assert m * (b - a) >= 0;
  }
}
