/** The lane arithmetic of XXH3: the scalar rounds in any order, the vector step and the mix of both
    compute the same lanes, and the split product of the vector scramble is the full product. */
module Xxh3Lanes {
  import opened LittleEndian
  import opened Memory
  import opened Binary
  import opened Xxh3Stripes

  /** 64 bytes of input, or of secret, as eight words. */
  type Stripe = b: Bytes | |b| == STRIPE_LEN witness seq(STRIPE_LEN, _ => 0)

  function WordAt(b: Stripe, lane: nat): (w: U64)
    requires lane < 8
  {
    Pow256Of8();
    Read(b[8 * lane..8 * lane + 8])
  }

  function Low(x: U64): U64 { x % TWO32 }
  function High(x: U64): U64 { x / TWO32 }

  function DataKey(input: Stripe, secret: Stripe, lane: nat): U64
    requires lane < 8
  {
    XorWord(WordAt(input, lane), WordAt(secret, lane))
  }

  function HalvesProduct(key: U64): nat { key % 0x1_0000_0000 * (key / 0x1_0000_0000) }

  /** XXH_mult32to64 of the two halves of the keyed word. */
  function KeyProduct(input: Stripe, secret: Stripe, lane: nat): nat
    requires lane < 8
  {
    HalvesProduct(DataKey(input, secret, lane))
  }

  function Plus(x: Word64, y: nat): Word64 { ((x as int + y) % TWO64) as Word64 }

  /** The neighbouring lane, lane ^ 1. */
  function Pair(lane: nat): (r: nat)
    requires lane < 8
    ensures r < 8
  {
    if lane % 2 == 0 then lane + 1 else lane - 1
  }

  /** The lanes when only the rounds in done have run: each adds its word to the neighbour and its
      product to itself. */
  function After(acc: Lanes, input: Stripe, secret: Stripe, done: set<nat>): (r: Lanes) {
    seq(8, i requires 0 <= i < 8 => LaneAfter(acc, input, secret, done, i))
  }

  function LaneAfter(acc: Lanes, input: Stripe, secret: Stripe, done: set<nat>, i: nat): Word64
    requires i < 8
  {
    var a := if Pair(i) in done then Plus(acc[i], WordAt(input, Pair(i))) else acc[i];
    if i in done then Plus(a, KeyProduct(input, secret, i)) else a
  }

  const ALL_LANES: set<nat> := {0, 1, 2, 3, 4, 5, 6, 7}

  /** XXH3_accumulate_512: every lane gains its neighbour's word and its own product. */
  function Accumulated(acc: Lanes, input: Stripe, secret: Stripe): Lanes {
    After(acc, input, secret, ALL_LANES)
  }

  lemma PlusCommutes(x: Word64, y: nat, z: nat)
    ensures Plus(Plus(x, y), z) == Plus(Plus(x, z), y) == Plus(x, y + z)
  {
    ModPlus(x as int + y, z);
    ModPlus(x as int + z, y);
  }

  lemma ModPlus(a: nat, b: nat)
    ensures (a % TWO64 + b) % TWO64 == (a + b) % TWO64
  {
    var r := a % TWO64 + b;
    ModUnique(a + b, TWO64, a / TWO64 + r / TWO64, r % TWO64);
  }

  lemma AccumulatedLane(acc: Lanes, input: Stripe, secret: Stripe, i: nat)
    requires i < 8
    ensures Accumulated(acc, input, secret)[i] as int
         == (acc[i] as int + WordAt(input, Pair(i)) + KeyProduct(input, secret, i)) % TWO64
  {
    hide WordAt, KeyProduct;
    PlusCommutes(acc[i], WordAt(input, Pair(i)), KeyProduct(input, secret, i));
  }

  /** XXH3_scalarRound. */
  method ScalarRound(acc: array<Word64>, input: Stripe, secret: Stripe, lane: nat)
    requires acc.Length == 8 && lane < 8
    modifies acc
    ensures acc[..] == RoundOf(old(acc[..]), input, secret, lane)
  {
    hide WordAt, XorWord, HalvesProduct, Plus;
    var dataVal := WordAt(input, lane);
    var dataKey := XorWord(dataVal, WordAt(secret, lane));
    acc[Pair(lane)] := Plus(acc[Pair(lane)], dataVal);
    acc[lane] := Plus(acc[lane], HalvesProduct(dataKey));
  }

  function RoundOf(acc: Lanes, input: Stripe, secret: Stripe, lane: nat): Lanes
    requires lane < 8
  {
    acc[Pair(lane) := Plus(acc[Pair(lane)], WordAt(input, lane))][lane := Plus(acc[lane], KeyProduct(input, secret, lane))]
  }

  /** A round not yet run can run next. */
  lemma RoundAdds(acc: Lanes, input: Stripe, secret: Stripe, done: set<nat>, lane: nat)
    requires lane < 8 && lane !in done
    ensures RoundOf(After(acc, input, secret, done), input, secret, lane) == After(acc, input, secret, done + {lane})
  {
    hide Plus, WordAt, KeyProduct;
    var b := After(acc, input, secret, done);
    forall i: nat | i < 8
      ensures RoundOf(b, input, secret, lane)[i] == LaneAfter(acc, input, secret, done + {lane}, i)
    {
      PlusCommutes(acc[i], WordAt(input, Pair(i)), KeyProduct(input, secret, i));
    }
  }

  function Rounds(acc: Lanes, input: Stripe, secret: Stripe, order: seq<nat>): Lanes
    requires forall k :: 0 <= k < |order| ==> order[k] < 8
  {
    if order == [] then acc
    else RoundOf(Rounds(acc, input, secret, order[..|order| - 1]), input, secret, order[|order| - 1])
  }

  function Ran(order: seq<nat>): set<nat> { set lane | lane in order }

  /** Whatever the order, rounds that run once each give the lanes that depend only on which ran. */
  lemma {:induction false} OrderIrrelevant(acc: Lanes, input: Stripe, secret: Stripe, order: seq<nat>)
    requires forall k :: 0 <= k < |order| ==> order[k] < 8
    requires forall j, k :: 0 <= j < k < |order| ==> order[j] != order[k]
    ensures Rounds(acc, input, secret, order) == After(acc, input, secret, Ran(order))
  {
    hide LaneAfter, RoundOf;
    if order == [] {
      assert Ran(order) == {};
      NoneRan(acc, input, secret);
    } else {
      var front, lane := order[..|order| - 1], order[|order| - 1];
      OrderIrrelevant(acc, input, secret, front);
      assert lane !in front;
      RoundAdds(acc, input, secret, Ran(front), lane);
      assert order == front + [lane];
      assert Ran(order) == Ran(front) + {lane};
    }
  }

  lemma NoneRan(acc: Lanes, input: Stripe, secret: Stripe)
    ensures After(acc, input, secret, {}) == acc
  {
  }

  /** XXH3_accumulate_512_scalar. */
  method AccumulateScalar(acc: array<Word64>, input: Stripe, secret: Stripe)
    requires acc.Length == 8
    modifies acc
    ensures acc[..] == Accumulated(old(acc[..]), input, secret)
  {
    hide After, RoundOf;
    ghost var done: set<nat> := {};
    NoneRan(acc[..], input, secret);
    for i := 0 to 8
      invariant forall k: nat :: k in done <==> k < i
      invariant acc[..] == After(old(acc[..]), input, secret, done)
    {
      RoundAdds(old(acc[..]), input, secret, done, i);
      ScalarRound(acc, input, secret, i);
      done := done + {i};
    }
    assert done == ALL_LANES;
  }

  /** One vector of two lanes: the sum of the swapped words and the products is added at once. */
  method VectorRound(acc: array<Word64>, input: Stripe, secret: Stripe, i: nat)
    requires acc.Length == 8 && i < 4
    modifies acc
    ensures acc[..] == VectorOf(old(acc[..]), input, secret, i)
  {
    hide WordAt, XorWord, HalvesProduct, Plus;
    var even, odd := 2 * i, 2 * i + 1;
    var dataEven, dataOdd := WordAt(input, even), WordAt(input, odd);
    var keyEven, keyOdd := XorWord(dataEven, WordAt(secret, even)), XorWord(dataOdd, WordAt(secret, odd));
    var sumEven := (dataOdd + HalvesProduct(keyEven)) % TWO64;
    var sumOdd := (dataEven + HalvesProduct(keyOdd)) % TWO64;
    acc[even], acc[odd] := Plus(acc[even], sumEven), Plus(acc[odd], sumOdd);
  }

  function VectorOf(acc: Lanes, input: Stripe, secret: Stripe, i: nat): Lanes
    requires i < 4
  {
    acc[2 * i := Plus(acc[2 * i], (WordAt(input, 2 * i + 1) + KeyProduct(input, secret, 2 * i)) % TWO64)]
       [2 * i + 1 := Plus(acc[2 * i + 1], (WordAt(input, 2 * i) + KeyProduct(input, secret, 2 * i + 1)) % TWO64)]
  }

  lemma PlusMod(x: Word64, y: nat)
    ensures Plus(x, y % TWO64) == Plus(x, y)
  {
  }

  /** A vector step is the two scalar rounds of its lanes. */
  lemma VectorIsTwoRounds(acc: Lanes, input: Stripe, secret: Stripe, done: set<nat>, i: nat)
    requires i < 4 && 2 * i !in done && 2 * i + 1 !in done
    ensures VectorOf(After(acc, input, secret, done), input, secret, i)
         == After(acc, input, secret, done + {2 * i, 2 * i + 1})
  {
    hide Plus, WordAt, KeyProduct;
    var b := After(acc, input, secret, done);
    var v := VectorOf(b, input, secret, i);
    forall k: nat | k < 8
      ensures v[k] == LaneAfter(acc, input, secret, done + {2 * i, 2 * i + 1}, k)
    {
      PlusMod(acc[k], WordAt(input, Pair(k)) + KeyProduct(input, secret, k));
      PlusCommutes(acc[k], WordAt(input, Pair(k)), KeyProduct(input, secret, k));
    }
  }

  /** XXH3_accumulate_512 of the vector back ends: the lanes from vectorLanes on go through the
      scalar round first, the others two at a time.  SSE2 and AVX2 have no scalar lanes. */
  method AccumulateVector(acc: array<Word64>, input: Stripe, secret: Stripe, vectorLanes: nat)
    requires acc.Length == 8 && vectorLanes <= 8 && vectorLanes % 2 == 0
    modifies acc
    ensures acc[..] == Accumulated(old(acc[..]), input, secret)
  {
    hide After, RoundOf, VectorOf;
    ghost var done: set<nat> := {};
    NoneRan(acc[..], input, secret);
    for i := vectorLanes to 8
      invariant forall k: nat :: k in done <==> vectorLanes <= k < i
      invariant acc[..] == After(old(acc[..]), input, secret, done)
    {
      RoundAdds(old(acc[..]), input, secret, done, i);
      ScalarRound(acc, input, secret, i);
      done := done + {i};
    }
    for i := 0 to vectorLanes / 2
      invariant forall k: nat :: k in done <==> vectorLanes <= k < 8 || k < 2 * i
      invariant acc[..] == After(old(acc[..]), input, secret, done)
    {
      VectorIsTwoRounds(old(acc[..]), input, secret, done, i);
      VectorRound(acc, input, secret, i);
      done := done + {2 * i, 2 * i + 1};
    }
    assert done == ALL_LANES;
  }

  // ---- scrambling --------------------------------------------------------------------------------

  /** XXH_xorshift64 by 47, then the key. */
  function Mixed(x: U64, key: U64): U64 {
    XorWord(XorWord(x, x / 0x8000_0000_0000), key)
  }

  function ScrambledLane(x: Word64, key: U64): Word64 {
    ((Mixed(x as int, key) * PRIME32_1) % TWO64) as Word64
  }

  function Scrambled(acc: Lanes, secret: Stripe): Lanes {
    seq(8, i requires 0 <= i < 8 => ScrambledLane(acc[i], WordAt(secret, i)))
  }

  /** The product by a 32-bit prime from the products of the halves, with the high one cut to 32 bits
      before or after it is moved up. */
  lemma SplitProduct(x: U64)
    ensures (Low(x) * PRIME32_1 + High(x) * PRIME32_1 * TWO32 % TWO64) % TWO64 == x * PRIME32_1 % TWO64
    ensures (Low(x) * PRIME32_1 + (High(x) * PRIME32_1 % TWO32) * TWO32) % TWO64 == x * PRIME32_1 % TWO64
  {
    var hp := High(x) * PRIME32_1;
    ModPlus(hp * TWO32, Low(x) * PRIME32_1);
    ModUnique(hp * TWO32, TWO64, hp / TWO32, (hp % TWO32) * TWO32);
    assert x == High(x) * TWO32 + Low(x);
    assert x * PRIME32_1 == hp * TWO32 + Low(x) * PRIME32_1;
  }

  /** XXH3_scrambleAcc_scalar. */
  method ScrambleScalar(acc: array<Word64>, secret: Stripe)
    requires acc.Length == 8
    modifies acc
    ensures acc[..] == Scrambled(old(acc[..]), secret)
  {
    hide ScrambledLane, WordAt;
    for i := 0 to 8
      invariant forall k :: 0 <= k < i ==> acc[k] == ScrambledLane(old(acc[k]), WordAt(secret, k))
      invariant forall k :: i <= k < 8 ==> acc[k] == old(acc[k])
    {
      acc[i] := ScalarScramble(acc[i], WordAt(secret, i));
    }
  }

  method ScalarScramble(x: Word64, key: U64) returns (r: Word64)
    ensures r == ScrambledLane(x, key)
  {
    var acc64: U64 := x as int;
    acc64 := XorWord(acc64, acc64 / 0x8000_0000_0000);
    acc64 := XorWord(acc64, key);
    acc64 := acc64 * PRIME32_1 % TWO64;
    r := acc64 as Word64;
  }

  /** XXH3_scrambleAcc of the vector back ends; cutEarly is the NEON form. */
  method ScrambleVector(acc: array<Word64>, secret: Stripe, cutEarly: bool)
    requires acc.Length == 8
    modifies acc
    ensures acc[..] == Scrambled(old(acc[..]), secret)
  {
    hide ScrambledLane, WordAt;
    for i := 0 to 8
      invariant forall k :: 0 <= k < i ==> acc[k] == ScrambledLane(old(acc[k]), WordAt(secret, k))
      invariant forall k :: i <= k < 8 ==> acc[k] == old(acc[k])
    {
      acc[i] := VectorScramble(acc[i], WordAt(secret, i), cutEarly);
    }
  }

  method VectorScramble(x: Word64, key: U64, cutEarly: bool) returns (r: Word64)
    ensures r == ScrambledLane(x, key)
  {
    var dataKey := Mixed(x as int, key);
    SplitProduct(dataKey);
    var prodHi := if cutEarly then (High(dataKey) * PRIME32_1 % TWO32) * TWO32 else High(dataKey) * PRIME32_1 * TWO32 % TWO64;
    r := ((Low(dataKey) * PRIME32_1 + prodHi) % TWO64) as Word64;
  }

  // ---- the kernel made of these steps ---------------------------------------------------------------

  /** A kernel whose lane steps are the ones proved above to be what every back end computes. */
  function LaneKernel(k: Kernel): Kernel {
    k.(accumulate512 := (acc: Lanes, input: Bytes, secret: Bytes) =>
         if |input| == STRIPE_LEN && |secret| == STRIPE_LEN then Accumulated(acc, input, secret) else acc,
       scramble := (acc: Lanes, secret: Bytes) => if |secret| == STRIPE_LEN then Scrambled(acc, secret) else acc)
  }

  /** XXH3_accumulate in place, for any number of stripes and any share of vector lanes. */
  method AccumulateStripes(k: Kernel, acc: array<Word64>, input: Bytes, secret: Secret, pos: nat, nbStripes: nat, vectorLanes: nat)
    requires acc.Length == 8 && vectorLanes <= 8 && vectorLanes % 2 == 0
    requires STRIPE_LEN * nbStripes <= |input| && pos + nbStripes <= StripesPerBlock(secret)
    modifies acc
    ensures acc[..] == AccumulateRange(LaneKernel(k), secret, old(acc[..]), pos, input, nbStripes)
  {
    hide Accumulated, StripesPerBlock;
    for n := 0 to nbStripes
      invariant acc[..] == AccumulateRange(LaneKernel(k), secret, old(acc[..]), pos, input, n)
    {
      AccumulateVector(acc, StripeAt(input, n), KeyAt(secret, pos + n), vectorLanes);
    }
  }

  method ScrambleLanes(k: Kernel, acc: array<Word64>, secret: Secret, vectorLanes: nat, cutEarly: bool)
    requires acc.Length == 8
    modifies acc
    ensures acc[..] == LaneKernel(k).scramble(old(acc[..]), ScrambleKey(secret))
  {
    hide Scrambled;
    if vectorLanes == 0 {
      ScrambleScalar(acc, ScrambleKey(secret));
    } else {
      ScrambleVector(acc, ScrambleKey(secret), cutEarly);
    }
  }

  method BlockInPlace(k: Kernel, acc: array<Word64>, input: Bytes, secret: Secret, n: nat, ghost nb: nat, vectorLanes: nat, cutEarly: bool)
    requires acc.Length == 8 && vectorLanes <= 8 && vectorLanes % 2 == 0
    requires n < nb && STRIPE_LEN * (nb * StripesPerBlock(secret)) <= |input|
    requires STRIPE_LEN * (n * StripesPerBlock(secret)) <= |input|
    requires acc[..] == Absorb(LaneKernel(k), secret, InitAcc(), 0, input, n * StripesPerBlock(secret))
    modifies acc
    ensures STRIPE_LEN * ((n + 1) * StripesPerBlock(secret)) <= |input|
    ensures acc[..] == Absorb(LaneKernel(k), secret, InitAcc(), 0, input, (n + 1) * StripesPerBlock(secret))
  {
    hide Absorb, AccumulateRange, InitAcc, ScrambleKey, LaneKernel;
    var spb := StripesPerBlock(secret);
    hide StripesPerBlock;
    BlockEdge(n, nb, spb);
    WholeBlock(LaneKernel(k), secret, input, n, nb);
    AccumulateStripes(k, acc, input[STRIPE_LEN * (n * spb)..], secret, 0, spb, vectorLanes);
    ScrambleLanes(k, acc, secret, vectorLanes, cutEarly);
  }

  /** XXH3_hashLong_internal_loop in place: every back end ends with the same lanes. */
  method HashLongInPlace(k: Kernel, input: Bytes, secret: Secret, vectorLanes: nat, cutEarly: bool) returns (acc: array<Word64>)
    requires |input| > STRIPE_LEN && vectorLanes <= 8 && vectorLanes % 2 == 0
    ensures fresh(acc) && acc.Length == 8 && acc[..] == LongAcc(LaneKernel(k), secret, input)
  {
    acc := FreshLanes();
    NothingAbsorbedFrom(LaneKernel(k), secret, InitAcc(), 0, input);
    hide Absorb, InitAcc, LaneKernel;
    var spb := StripesPerBlock(secret);
    var nbBlocks := (|input| - 1) / (STRIPE_LEN * spb);
    BlocksFit(|input| - 1, spb);
    hide StripesPerBlock;
    for n := 0 to nbBlocks
      invariant fresh(acc) && acc.Length == 8 && STRIPE_LEN * (n * spb) <= |input|
      invariant acc[..] == Absorb(LaneKernel(k), secret, InitAcc(), 0, input, n * spb)
    {
      BlockInPlace(k, acc, input, secret, n, nbBlocks, vectorLanes, cutEarly);
    }
    FinishInPlace(k, input, secret, vectorLanes, nbBlocks, acc);
  }

  method FreshLanes() returns (acc: array<Word64>)
    ensures fresh(acc) && acc.Length == 8 && acc[..] == InitAcc()
  {
    var init := InitAcc();
    acc := new Word64[8](i requires 0 <= i < 8 => init[i]);
  }

  /** The partial block and the last stripe. */
  method FinishInPlace(k: Kernel, input: Bytes, secret: Secret, vectorLanes: nat, nbBlocks: nat, acc: array<Word64>)
    requires |input| > STRIPE_LEN && vectorLanes <= 8 && vectorLanes % 2 == 0 && acc.Length == 8
    requires nbBlocks == (|input| - 1) / (STRIPE_LEN * StripesPerBlock(secret))
    requires STRIPE_LEN * (nbBlocks * StripesPerBlock(secret)) <= |input|
    requires acc[..] == Absorb(LaneKernel(k), secret, InitAcc(), 0, input, nbBlocks * StripesPerBlock(secret))
    modifies acc
    ensures acc[..] == LongAcc(LaneKernel(k), secret, input)
  {
    hide Absorb, AccumulateRange, InitAcc, LaneKernel;
    var spb := StripesPerBlock(secret);
    BlocksFit(|input| - 1, spb);
    hide StripesPerBlock;
    var nbStripes := ((|input| - 1) - STRIPE_LEN * spb * nbBlocks) / STRIPE_LEN;
    PartialBlock(LaneKernel(k), secret, input, nbBlocks, nbStripes);
    AccumulateStripes(k, acc, input[STRIPE_LEN * (nbBlocks * spb)..], secret, 0, nbStripes, vectorLanes);
    LastInPlace(k, acc, input, secret, vectorLanes);
  }

  method LastInPlace(k: Kernel, acc: array<Word64>, input: Bytes, secret: Secret, vectorLanes: nat)
    requires |input| > STRIPE_LEN && vectorLanes <= 8 && vectorLanes % 2 == 0 && acc.Length == 8
    modifies acc
    ensures acc[..] == LastStripe(LaneKernel(k), secret, old(acc[..]), input[|input| - STRIPE_LEN..])
  {
    hide Accumulated;
    var at := |secret| - STRIPE_LEN - SECRET_LASTACC_START;
    AccumulateVector(acc, input[|input| - STRIPE_LEN..], secret[at..at + STRIPE_LEN], vectorLanes);
  }

  // ---- closed forms ----------------------------------------------------------------------------------

  function Word8(b: Bytes, at: nat): (w: U64)
    requires at + 8 <= |b|
  {
    Pow256Of8();
    Read(b[at..at + 8])
  }

  /** What stripe s of data adds to lane i when it is at place at of its block: the word beside its own,
      and the product of the halves of its own word keyed. */
  function Gain(data: Bytes, secret: Bytes, s: nat, at: nat, i: nat): nat
    requires 64 * s + 64 <= |data| && 8 * at + 64 <= |secret| && i < 8
  {
    var beside := if i % 2 == 0 then i + 1 else i - 1;
    Word8(data, 64 * s + 8 * beside) + HalvesProduct(XorWord(Word8(data, 64 * s + 8 * i), Word8(secret, 8 * at + 8 * i)))
  }

  function Gains(data: Bytes, secret: Bytes, pos: nat, n: nat, i: nat): nat
    requires 64 * n <= |data| && 8 * (pos + n) + 56 <= |secret| && i < 8
  {
    if n == 0 then 0 else Gains(data, secret, pos, n - 1, i) + Gain(data, secret, n - 1, pos + n - 1, i)
  }

  lemma GainIs(data: Bytes, secret: Secret, s: nat, at: nat, i: nat)
    requires 64 * s + 64 <= |data| && at < StripesPerBlock(secret) && i < 8
    ensures WordAt(StripeAt(data, s), Pair(i)) + KeyProduct(StripeAt(data, s), KeyAt(secret, at), i) == Gain(data, secret, s, at, i)
  {
    hide Read, XorWord;
    SubSlice(data, 64 * s, 64, 8 * i, 8);
    SubSlice(data, 64 * s, 64, 8 * Pair(i), 8);
    SubSlice(secret, 8 * at, 64, 8 * i, 8);
  }

  /** Inside a block each lane is its start plus the sum of what the stripes add, modulo 2^64. */
  lemma {:induction false} LaneSum(k: Kernel, secret: Secret, acc: Lanes, pos: nat, data: Bytes, n: nat, i: nat)
    requires 64 * n <= |data| && pos + n <= StripesPerBlock(secret) && i < 8
    ensures AccumulateRange(LaneKernel(k), secret, acc, pos, data, n)[i] as int == (acc[i] as int + Gains(data, secret, pos, n, i)) % TWO64
  {
    hide Accumulated, Gain, WordAt, KeyProduct;
    if n == 0 {
      ModUnique(acc[i] as int, TWO64, 0, acc[i] as int);
    } else {
      LaneSum(k, secret, acc, pos, data, n - 1, i);
      var before := AccumulateRange(LaneKernel(k), secret, acc, pos, data, n - 1);
      AccumulatedLane(before, StripeAt(data, n - 1), KeyAt(secret, pos + n - 1), i);
      GainIs(data, secret, n - 1, pos + n - 1, i);
      ModPlus(acc[i] as int + Gains(data, secret, pos, n - 1, i), Gain(data, secret, n - 1, pos + n - 1, i));
    }
  }

  /** The scrambled lane: the word with its own bits 47 places up and the key bits flipped in, times the
      prime. */
  lemma ScrambledBits(k: Kernel, acc: Lanes, key: Stripe, i: nat) returns (m: U64)
    requires i < 8
    ensures forall b: nat :: BitAt(m, b) == ((BitAt(acc[i] as int, b) != BitAt(acc[i] as int, b + 47)) != BitAt(Word8(key, 8 * i), b))
    ensures LaneKernel(k).scramble(acc, key)[i] as int == m * 0x9E3779B1 % TWO64
  {
    hide BitAt, XorWord, Read;
    var x: U64 := acc[i] as int;
    m := Mixed(x, WordAt(key, i));
    Half47(x);
    forall b: nat
      ensures BitAt(m, b) == ((BitAt(x, b) != BitAt(x, b + 47)) != BitAt(Word8(key, 8 * i), b))
    {
      XorWordBit(x, x / 0x8000_0000_0000, b);
      XorWordBit(XorWord(x, x / 0x8000_0000_0000), WordAt(key, i), b);
      ShiftBit(x, 47, b);
    }
  }

  lemma XorWordBit(x: U64, y: U64, b: nat)
    ensures BitAt(XorWord(x, y), b) == (BitAt(x, b) != BitAt(y, b))
  {
    XorBit(x, y, b);
    hide BitAt, Xor;
  }

  lemma Half47(x: U64)
    ensures ShiftRight(x, 47) == x / 0x8000_0000_0000
  {
    Pow2Of8();
    assert Pow2(7) == 128;
    hide Pow2;
    Pow2Of32And64();
    Pow2Add(8, 7);
    Pow2Add(32, 15);
  }
}
