/** XXH3 long-input hashing: the mixers it is parametrised by, the one-shot block loop, and
    the resumable stripe consumer, both related to one stripe-at-a-time definition. */
module Xxh3Stripes {
  import opened LittleEndian

  const STRIPE_LEN: nat := 64
  const SECRET_CONSUME_RATE: nat := 8
  const SECRET_SIZE_MIN: nat := 136
  const SECRET_DEFAULT_SIZE: nat := 192
  const SECRET_LASTACC_START: nat := 7
  const SECRET_MERGEACCS_START: nat := 11
  const MIDSIZE_MAX: nat := 240

  const PRIME32_1: U64 := 0x9E3779B1
  const PRIME32_2: U64 := 0x85EBCA77
  const PRIME32_3: U64 := 0xC2B2AE3D
  const PRIME64_1: U64 := 0x9E3779B185EBCA87
  const PRIME64_2: U64 := 0xC2B2AE3D27D4EB4F
  const PRIME64_3: U64 := 0x165667B19E3779F9
  const PRIME64_4: U64 := 0x85EBCA77C2B2AE63
  const PRIME64_5: U64 := 0x27D4EB2F165667C5

  /** XXH3_INIT_ACC. */
  function InitAcc(): Lanes {
    [PRIME32_3 as Word64, PRIME64_1 as Word64, PRIME64_2 as Word64, PRIME64_3 as Word64,
     PRIME64_4 as Word64, PRIME32_2 as Word64, PRIME64_5 as Word64, PRIME32_1 as Word64]
  }

  type Lanes = s: seq<Word64> | |s| == 8 witness [0, 0, 0, 0, 0, 0, 0, 0]
  type Secret = b: Bytes | |b| >= SECRET_SIZE_MIN witness seq(SECRET_SIZE_MIN, _ => 0)
  type DefaultSecret = b: Bytes | |b| == SECRET_DEFAULT_SIZE witness seq(SECRET_DEFAULT_SIZE, _ => 0)

  /** The primitives the streaming logic is independent of.  Every result below holds for any
      choice of them, hence for the scalar code and for each vector back end. */
  datatype Kernel = Kernel(
    accumulate512: (Lanes, Bytes, Bytes) -> Lanes,  // lanes, one stripe, 64 secret bytes
    scramble: (Lanes, Bytes) -> Lanes,              // lanes, 64 secret bytes
    mergeAccs: (Lanes, Bytes, U64) -> U64,          // lanes, 64 secret bytes, start value
    short64: (Bytes, Bytes, U64) -> U64,            // input of at most 240 bytes, secret, seed
    short128: (Bytes, Bytes, U64) -> (U64, U64),
    kSecret: DefaultSecret)

  function StripesPerBlock(secret: Secret): (n: nat)
    ensures 9 <= n && SECRET_CONSUME_RATE * n + STRIPE_LEN <= |secret|
  {
    (|secret| - STRIPE_LEN) / SECRET_CONSUME_RATE
  }

  function StripeAt(data: Bytes, n: nat): Bytes
    requires STRIPE_LEN * (n + 1) <= |data|
  {
    data[STRIPE_LEN * n..STRIPE_LEN * n + STRIPE_LEN]
  }

  /** The 64 secret bytes that key the stripe at position pos of its block. */
  function KeyAt(secret: Secret, pos: nat): Bytes
    requires pos < StripesPerBlock(secret)
  {
    secret[SECRET_CONSUME_RATE * pos..SECRET_CONSUME_RATE * pos + STRIPE_LEN]
  }

  function ScrambleKey(secret: Secret): Bytes {
    secret[|secret| - STRIPE_LEN..]
  }

  /** One stripe: accumulate it, and scramble when it closes its block. */
  function Step(k: Kernel, secret: Secret, acc: Lanes, pos: nat, stripe: Bytes): Lanes
    requires pos < StripesPerBlock(secret)
  {
    var a := k.accumulate512(acc, stripe, KeyAt(secret, pos));
    if pos + 1 == StripesPerBlock(secret) then k.scramble(a, ScrambleKey(secret)) else a
  }

  /** The lanes after the first n stripes of data, the first of them at block position pos. */
  function Absorb(k: Kernel, secret: Secret, acc: Lanes, pos: nat, data: Bytes, n: nat): Lanes
    requires STRIPE_LEN * n <= |data|
  {
    if n == 0 then acc
    else
      Step(k, secret, Absorb(k, secret, acc, pos, data, n - 1),
           (pos + n - 1) % StripesPerBlock(secret), StripeAt(data, n - 1))
  }

  /** Absorbing looks only at the bytes of the stripes it is asked for. */
  lemma {:induction false} AbsorbPrefix(k: Kernel, secret: Secret, acc: Lanes, pos: nat,
                                        data: Bytes, more: Bytes, n: nat)
    requires STRIPE_LEN * n <= |data| && STRIPE_LEN * n <= |more|
    requires data[..STRIPE_LEN * n] == more[..STRIPE_LEN * n]
    ensures Absorb(k, secret, acc, pos, data, n) == Absorb(k, secret, acc, pos, more, n)
  {
    if n > 0 {
      var m := STRIPE_LEN * (n - 1);
      assert data[..m] == data[..STRIPE_LEN * n][..m] == more[..m];
      AbsorbPrefix(k, secret, acc, pos, data, more, n - 1);
      assert StripeAt(data, n - 1) == data[..STRIPE_LEN * n][m..] == StripeAt(more, n - 1);
    }
  }

  lemma AbsorbStep(k: Kernel, secret: Secret, acc: Lanes, pos: nat, data: Bytes, n: nat)
    requires 0 < n && STRIPE_LEN * n <= |data|
    ensures Absorb(k, secret, acc, pos, data, n)
         == Step(k, secret, Absorb(k, secret, acc, pos, data, n - 1), (pos + n - 1) % StripesPerBlock(secret), StripeAt(data, n - 1))
  {
  }

  lemma StripeFurther(data: Bytes, n: nat, m: nat)
    requires STRIPE_LEN * (n + m + 1) <= |data|
    ensures StripeAt(data, n + m) == StripeAt(data[STRIPE_LEN * n..], m)
  {
  }

  /** Absorbing in two goes, resuming at the block position reached, is absorbing once. */
  lemma {:induction false} AbsorbAppend(k: Kernel, secret: Secret, acc: Lanes, pos: nat,
                                        data: Bytes, n1: nat, n2: nat)
    requires STRIPE_LEN * (n1 + n2) <= |data|
    ensures Absorb(k, secret, acc, pos, data, n1 + n2)
         == Absorb(k, secret, Absorb(k, secret, acc, pos, data, n1),
                   (pos + n1) % StripesPerBlock(secret), data[STRIPE_LEN * n1..], n2)
  {
    hide Step, StripeAt, StripesPerBlock, Absorb;
    if n2 == 0 {
      NothingAbsorbedFrom(k, secret, Absorb(k, secret, acc, pos, data, n1), (pos + n1) % StripesPerBlock(secret), data[STRIPE_LEN * n1..]);
    } else {
      AbsorbStep(k, secret, acc, pos, data, n1 + n2);
      AbsorbStep(k, secret, Absorb(k, secret, acc, pos, data, n1), (pos + n1) % StripesPerBlock(secret), data[STRIPE_LEN * n1..], n2);
      AbsorbAppend(k, secret, acc, pos, data, n1, n2 - 1);
      StripeFurther(data, n1, n2 - 1);
      ModAdd(pos + n1, n2 - 1, StripesPerBlock(secret));
    }
  }

  lemma ModAdd(a: nat, b: nat, m: nat)
    requires m > 0
    ensures (a % m + b) % m == (a + b) % m
  {
    var r := (a % m + b) % m;
    var q := (a % m + b) / m;
    assert a + b == m * (a / m) + m * q + r;
    assert m * (a / m) + m * q == m * (a / m + q);
    ModUnique(a + b, m, a / m + q, r);
  }

  /** What n stripes do inside one block, with no scramble: the meaning of XXH3_accumulate. */
  function AccumulateRange(k: Kernel, secret: Secret, acc: Lanes, pos: nat, data: Bytes, n: nat): Lanes
    requires STRIPE_LEN * n <= |data| && pos + n <= StripesPerBlock(secret)
  {
    if n == 0 then acc
    else k.accumulate512(AccumulateRange(k, secret, acc, pos, data, n - 1),
                         StripeAt(data, n - 1), KeyAt(secret, pos + n - 1))
  }

  /** Stripes that stay inside a block are only accumulated; closing the block adds one scramble. */
  lemma {:induction false} AbsorbWithinBlock(k: Kernel, secret: Secret, acc: Lanes, pos: nat, data: Bytes, n: nat)
    requires STRIPE_LEN * n <= |data| && pos + n <= StripesPerBlock(secret)
    ensures Absorb(k, secret, acc, pos, data, n)
         == var a := AccumulateRange(k, secret, acc, pos, data, n);
            if n > 0 && pos + n == StripesPerBlock(secret) then k.scramble(a, ScrambleKey(secret)) else a
  {
    if n > 0 {
      AbsorbWithinBlock(k, secret, acc, pos, data, n - 1);
      SmallMod(pos + n - 1, StripesPerBlock(secret));
    }
  }

  lemma SmallMod(a: nat, m: nat)
    ensures a < m ==> a % m == a
    ensures m > 0 ==> m % m == 0
  {
    if a < m { ModUnique(a, m, 0, a); }
    if m > 0 { ModUnique(m, m, 1, 0); }
  }

  /** Extending a prefix of done stripes by n more that fit in the block being filled. */
  lemma ExtendInBlock(k: Kernel, secret: Secret, acc: Lanes, pos: nat, data: Bytes, done: nat, n: nat, at: nat)
    requires STRIPE_LEN * (done + n) <= |data| && n > 0
    requires at == (pos + done) % StripesPerBlock(secret) && at + n <= StripesPerBlock(secret)
    ensures at < StripesPerBlock(secret)
    ensures (pos + done + n) % StripesPerBlock(secret) == (if at + n == StripesPerBlock(secret) then 0 else at + n)
    ensures Absorb(k, secret, acc, pos, data, done + n)
         == var a := AccumulateRange(k, secret, Absorb(k, secret, acc, pos, data, done), at,
                                     data[STRIPE_LEN * done..], n);
            if at + n == StripesPerBlock(secret) then k.scramble(a, ScrambleKey(secret)) else a
  {
    var spb := StripesPerBlock(secret);
    AbsorbAppend(k, secret, acc, pos, data, done, n);
    AbsorbWithinBlock(k, secret, Absorb(k, secret, acc, pos, data, done), at, data[STRIPE_LEN * done..], n);
    ModAdd(pos + done, n, spb);
    SmallMod(at + n, spb);
  }

  /** XXH3_accumulate: the shared loop of every back end. */
  method Accumulate(k: Kernel, acc: Lanes, input: Bytes, secret: Secret, pos: nat, nbStripes: nat) returns (r: Lanes)
    requires STRIPE_LEN * nbStripes <= |input| && pos + nbStripes <= StripesPerBlock(secret)
    ensures r == AccumulateRange(k, secret, acc, pos, input, nbStripes)
  {
    r := acc;
    for n := 0 to nbStripes
      invariant r == AccumulateRange(k, secret, acc, pos, input, n)
    {
      r := k.accumulate512(r, StripeAt(input, n), KeyAt(secret, pos + n));
    }
  }

  /** The body of XXH3_consumeStripes' block loop: fill the rest of the block, then scramble. */
  method CloseBlock(k: Kernel, secret: Secret, ghost acc: Lanes, ghost pos: nat, data: Bytes, done: nat, n: nat, lanes: Lanes, at: nat)
    returns (r: Lanes)
    requires STRIPE_LEN * (done + n) <= |data| && n > 0 && lanes == Absorb(k, secret, acc, pos, data, done)
    requires at == (pos + done) % StripesPerBlock(secret) && at + n == StripesPerBlock(secret)
    ensures r == Absorb(k, secret, acc, pos, data, done + n)
    ensures (pos + done + n) % StripesPerBlock(secret) == 0
  {
    ExtendInBlock(k, secret, acc, pos, data, done, n, at);
    r := Accumulate(k, lanes, data[STRIPE_LEN * done..], secret, at, n);
    r := k.scramble(r, ScrambleKey(secret));
  }

  /** The block loop of XXH3_consumeStripes: fill blocks and scramble while enough stripes are left. */
  method FillBlocks(k: Kernel, acc: Lanes, soFar: nat, input: Bytes, nbStripes: nat, secret: Secret) returns (r: Lanes, done: nat)
    requires STRIPE_LEN * nbStripes <= |input| && soFar < StripesPerBlock(secret) <= nbStripes + soFar
    ensures done <= nbStripes < done + StripesPerBlock(secret) && (soFar + done) % StripesPerBlock(secret) == 0
    ensures r == Absorb(k, secret, acc, soFar, input, done)
  {
    hide Absorb, AccumulateRange, ScrambleKey, InitAcc;
    NothingAbsorbedFrom(k, secret, acc, soFar, input);
    var nbStripesPerBlock := StripesPerBlock(secret);
    hide StripesPerBlock;
    var initialSecret := soFar;  // block position the secret pointer stands for
    var left := nbStripes;
    var thisIter := nbStripesPerBlock - soFar;
    r, done := acc, 0;
    SmallMod(soFar, nbStripesPerBlock);
    while true
      invariant done + left == nbStripes
      invariant initialSecret + thisIter == nbStripesPerBlock && 1 <= thisIter <= left
      invariant initialSecret == (soFar + done) % nbStripesPerBlock
      invariant r == Absorb(k, secret, acc, soFar, input, done)
      decreases left
    {
      r := CloseBlock(k, secret, acc, soFar, input, done, thisIter, r, initialSecret);
      left := left - thisIter;
      done := done + thisIter;
      thisIter := nbStripesPerBlock;
      initialSecret := 0;
      if left < nbStripesPerBlock { break; }
    }
  }

  /** The partial block at its end. */
  method FillPart(k: Kernel, ghost acc: Lanes, ghost soFar: nat, input: Bytes, done: nat, n: nat, secret: Secret, lanes: Lanes, at: nat)
    returns (r: Lanes)
    requires STRIPE_LEN * (done + n) <= |input| && n > 0 && lanes == Absorb(k, secret, acc, soFar, input, done)
    requires at == (soFar + done) % StripesPerBlock(secret) && at + n < StripesPerBlock(secret)
    ensures r == Absorb(k, secret, acc, soFar, input, done + n)
    ensures (soFar + done + n) % StripesPerBlock(secret) == at + n
  {
    hide Absorb, AccumulateRange, ScrambleKey, StripesPerBlock;
    ExtendInBlock(k, secret, acc, soFar, input, done, n, at);
    r := Accumulate(k, lanes, input[STRIPE_LEN * done..], secret, at, n);
  }

  /** XXH3_consumeStripes: absorb nbStripes stripes starting at block position soFar, crossing
      block boundaries as needed; consumed is how far the input pointer advanced. */
  method ConsumeStripes(k: Kernel, acc: Lanes, soFar: nat, input: Bytes, nbStripes: nat, secret: Secret)
    returns (r: Lanes, soFar': nat, consumed: nat)
    requires STRIPE_LEN * nbStripes <= |input| && soFar < StripesPerBlock(secret)
    ensures r == Absorb(k, secret, acc, soFar, input, nbStripes)
    ensures soFar' == (soFar + nbStripes) % StripesPerBlock(secret)
    ensures consumed == STRIPE_LEN * nbStripes
  {
    hide Absorb, AccumulateRange, ScrambleKey, InitAcc;
    NothingAbsorbedFrom(k, secret, acc, soFar, input);
    var nbStripesPerBlock := StripesPerBlock(secret);
    hide StripesPerBlock;
    var done := 0;
    r, soFar' := acc, soFar;
    SmallMod(soFar, nbStripesPerBlock);
    if nbStripes >= nbStripesPerBlock - soFar {
      r, done := FillBlocks(k, acc, soFar, input, nbStripes, secret);
      soFar' := 0;
    }
    consumed := done * STRIPE_LEN;
    var left := nbStripes - done;
    if left > 0 {
      r := FillPart(k, acc, soFar, input, done, left, secret, r, soFar');
      consumed := consumed + left * STRIPE_LEN;
      soFar' := soFar' + left;
    }
  }

  lemma NothingAbsorbedFrom(k: Kernel, secret: Secret, acc: Lanes, pos: nat, input: Bytes)
    ensures Absorb(k, secret, acc, pos, input, 0) == acc
  {
  }

  /** The lanes of a long input: all stripes but the last, then the last 64 bytes. */
  function LongAcc(k: Kernel, secret: Secret, input: Bytes): Lanes
    requires |input| > STRIPE_LEN
  {
    LastStripe(k, secret, Absorb(k, secret, InitAcc(), 0, input, (|input| - 1) / STRIPE_LEN),
               input[|input| - STRIPE_LEN..])
  }

  function LastStripe(k: Kernel, secret: Secret, acc: Lanes, stripe: Bytes): Lanes {
    var at := |secret| - STRIPE_LEN - SECRET_LASTACC_START;
    k.accumulate512(acc, stripe, secret[at..at + STRIPE_LEN])
  }

  /** What one whole block does. */
  lemma WholeBlock(k: Kernel, secret: Secret, input: Bytes, n: nat, nb: nat)
    requires n < nb && STRIPE_LEN * (nb * StripesPerBlock(secret)) <= |input|
    ensures var spb := StripesPerBlock(secret);
      && 0 <= STRIPE_LEN * (n * spb) <= |input| && STRIPE_LEN * spb <= |input[STRIPE_LEN * (n * spb)..]|
      && Absorb(k, secret, InitAcc(), 0, input, (n + 1) * spb)
      == k.scramble(AccumulateRange(k, secret, Absorb(k, secret, InitAcc(), 0, input, n * spb), 0, input[STRIPE_LEN * (n * spb)..], spb),
                    ScrambleKey(secret))
  {
    hide Absorb, AccumulateRange, InitAcc, ScrambleKey;
    var spb := StripesPerBlock(secret);
    hide StripesPerBlock;
    BlockEdge(n, nb, spb);
    ExtendInBlock(k, secret, InitAcc(), 0, input, n * spb, spb, 0);
  }

  /** What the partial block does. */
  lemma PartialBlock(k: Kernel, secret: Secret, input: Bytes, nb: nat, n: nat)
    requires STRIPE_LEN * (nb * StripesPerBlock(secret) + n) <= |input| && n < StripesPerBlock(secret)
    ensures Absorb(k, secret, InitAcc(), 0, input, nb * StripesPerBlock(secret) + n)
         == AccumulateRange(k, secret, Absorb(k, secret, InitAcc(), 0, input, nb * StripesPerBlock(secret)), 0,
                            input[STRIPE_LEN * (nb * StripesPerBlock(secret))..], n)
  {
    if n > 0 {
      hide Absorb, AccumulateRange, InitAcc, ScrambleKey;
      var spb := StripesPerBlock(secret);
      hide StripesPerBlock;
      BlockEdge(nb, nb, spb);
      ExtendInBlock(k, secret, InitAcc(), 0, input, nb * spb, n, 0);
    }
  }

  /** XXH3_hashLong_internal_loop, the one-shot form: whole blocks, a partial block, a last stripe. */
  method HashLongInternalLoop(k: Kernel, input: Bytes, secret: Secret) returns (acc: Lanes)
    requires |input| > STRIPE_LEN
    ensures acc == LongAcc(k, secret, input)
  {
    hide Absorb, AccumulateRange, ScrambleKey, InitAcc;
    NothingAbsorbedFrom(k, secret, InitAcc(), 0, input);
    var nbStripesPerBlock := StripesPerBlock(secret);
    var blockLen := STRIPE_LEN * nbStripesPerBlock;
    var nbBlocks := (|input| - 1) / blockLen;
    BlocksFit(|input| - 1, nbStripesPerBlock);
    hide StripesPerBlock;
    acc := InitAcc();
    for n := 0 to nbBlocks
      invariant STRIPE_LEN * (n * nbStripesPerBlock) <= |input|
      invariant acc == Absorb(k, secret, InitAcc(), 0, input, n * nbStripesPerBlock)
    {
      BlockEdge(n, nbBlocks, nbStripesPerBlock);
      WholeBlock(k, secret, input, n, nbBlocks);
      acc := Accumulate(k, acc, input[STRIPE_LEN * (n * nbStripesPerBlock)..], secret, 0, nbStripesPerBlock);
      acc := k.scramble(acc, ScrambleKey(secret));
    }
    var nbStripes := ((|input| - 1) - blockLen * nbBlocks) / STRIPE_LEN;
    PartialBlock(k, secret, input, nbBlocks, nbStripes);
    acc := Accumulate(k, acc, input[STRIPE_LEN * (nbBlocks * nbStripesPerBlock)..], secret, 0, nbStripes);
    acc := LastStripe(k, secret, acc, input[|input| - STRIPE_LEN..]);
  }

  /** Counting stripes by whole blocks plus a partial block is counting them directly. */
  lemma BlocksFit(len: nat, spb: nat)
    requires spb > 0
    ensures STRIPE_LEN * spb > 0
    ensures var nb := len / (STRIPE_LEN * spb);
            var rest := (len - STRIPE_LEN * spb * nb) / STRIPE_LEN;
            0 <= STRIPE_LEN * spb * nb <= len && STRIPE_LEN * (nb * spb) == STRIPE_LEN * spb * nb &&
            0 <= rest < spb && nb * spb + rest == len / STRIPE_LEN
  {
    var bl := STRIPE_LEN * spb;
    var nb := len / bl;
    var rem := len - bl * nb;
    assert 0 <= rem < bl;
    assert STRIPE_LEN * (nb * spb) == bl * nb;
    var rest := rem / STRIPE_LEN;
    ModUnique(len, STRIPE_LEN, nb * spb + rest, rem % STRIPE_LEN);
  }

  lemma BlockEdge(n: nat, nb: nat, spb: nat)
    requires spb > 0 && n <= nb
    ensures n * (STRIPE_LEN * spb) == STRIPE_LEN * (n * spb)
    ensures (n + 1) * spb == n * spb + spb
    ensures (n * spb) % spb == 0
    ensures n < nb ==> STRIPE_LEN * (n * spb + spb) <= STRIPE_LEN * (nb * spb)
  {
    ModUnique(n * spb, spb, n, 0);
    if n < nb {
      MulMonotone(spb, n + 1, nb);
    }
  }

  // ---- the rule in bytes -----------------------------------------------------------------------------

  /** One stripe: keyed with the 64 secret bytes from 8 times its place in the block on; the last one
      of a block is followed by a scramble keyed with the last 64 secret bytes. */
  function MixStripe(k: Kernel, secret: Secret, acc: Lanes, at: nat, stripe: Bytes): Lanes
    requires at < (|secret| - 64) / 8
  {
    var a := k.accumulate512(acc, stripe, secret[8 * at..8 * at + 64]);
    if at + 1 == (|secret| - 64) / 8 then k.scramble(a, secret[|secret| - 64..]) else a
  }

  /** accs are the lanes before the first stripe and after each one. */
  ghost predicate Traces(k: Kernel, secret: Secret, pos: nat, data: Bytes, accs: seq<Lanes>) {
    && accs != [] && 64 * (|accs| - 1) <= |data|
    && forall i :: 0 <= i < |accs| - 1 ==>
         accs[i + 1] == MixStripe(k, secret, accs[i], (pos + i) % ((|secret| - 64) / 8), data[64 * i..64 * i + 64])
  }

  lemma TracesStep(k: Kernel, secret: Secret, pos: nat, data: Bytes, accs: seq<Lanes>, i: nat)
    requires Traces(k, secret, pos, data, accs) && i < |accs| - 1
    ensures accs[i + 1] == Step(k, secret, accs[i], (pos + i) % StripesPerBlock(secret), StripeAt(data, i))
  {
    hide Step, MixStripe;
    StepIsMix(k, secret, accs[i], (pos + i) % StripesPerBlock(secret), data, i);
  }

  /** Absorbing is going through the stripes like this, whatever the mixing functions do. */
  lemma {:induction false} AbsorbTraced(k: Kernel, secret: Secret, pos: nat, data: Bytes, accs: seq<Lanes>, n: nat)
    requires Traces(k, secret, pos, data, accs) && n < |accs|
    ensures Absorb(k, secret, accs[0], pos, data, n) == accs[n]
  {
    hide Step, StripeAt, StripesPerBlock, Traces;
    TracesBound(k, secret, pos, data, accs, n);
    NothingAbsorbedFrom(k, secret, accs[0], pos, data);
    if n > 0 {
      AbsorbTraced(k, secret, pos, data, accs, n - 1);
      TracesStep(k, secret, pos, data, accs, n - 1);
    }
  }

  lemma TracesBound(k: Kernel, secret: Secret, pos: nat, data: Bytes, accs: seq<Lanes>, n: nat)
    requires Traces(k, secret, pos, data, accs) && n < |accs|
    ensures 64 * n <= |data|
  {
  }

  /** Such lanes there are for every input. */
  lemma TraceOf(k: Kernel, secret: Secret, acc: Lanes, pos: nat, data: Bytes, n: nat) returns (accs: seq<Lanes>)
    requires 64 * n <= |data|
    ensures Traces(k, secret, pos, data, accs) && |accs| == n + 1 && accs[0] == acc
  {
    hide Absorb;
    accs := seq(n + 1, i requires 0 <= i <= n => Absorb(k, secret, acc, pos, data, i));
    NothingAbsorbedFrom(k, secret, acc, pos, data);
    forall i | 0 <= i < n
      ensures accs[i + 1] == MixStripe(k, secret, accs[i], (pos + i) % ((|secret| - 64) / 8), data[64 * i..64 * i + 64])
    {
      AbsorbStep(k, secret, acc, pos, data, i + 1);
      StepIsMix(k, secret, accs[i], (pos + i) % StripesPerBlock(secret), data, i);
    }
  }

  lemma StepIsMix(k: Kernel, secret: Secret, acc: Lanes, at: nat, data: Bytes, i: nat)
    requires at < StripesPerBlock(secret) && 64 * i + 64 <= |data|
    ensures at < (|secret| - 64) / 8 && Step(k, secret, acc, at, StripeAt(data, i)) == MixStripe(k, secret, acc, at, data[64 * i..64 * i + 64])
  {
  }

  /** The initial lanes. */
  const INIT_LANES: Lanes :=
    [0xC2B2AE3D, 0x9E3779B185EBCA87, 0xC2B2AE3D27D4EB4F, 0x165667B19E3779F9,
     0x85EBCA77C2B2AE63, 0x85EBCA77, 0x27D4EB2F165667C5, 0x9E3779B1]

  /** The lanes of a long input: the last 64 bytes come once more, keyed with the 64 secret bytes that
      end 7 bytes before its end. */
  lemma LongTraced(k: Kernel, secret: Secret, input: Bytes, accs: seq<Lanes>)
    requires |input| > 64 && Traces(k, secret, 0, input, accs)
    requires accs[0] == INIT_LANES && |accs| - 1 == (|input| - 1) / 64
    ensures LongAcc(k, secret, input)
         == k.accumulate512(accs[|accs| - 1], input[|input| - 64..], secret[|secret| - 71..|secret| - 7])
  {
    hide Traces, Absorb;
    AbsorbTraced(k, secret, 0, input, accs, |accs| - 1);
  }

  /** With lanes that show nothing but the last stripe and its key, or the last scramble key: which
      bytes these are. */
  lemma LastBytes(k: Kernel, secret: Secret, acc: Lanes, pos: nat, data: Bytes, n: nat,
                  f: (Bytes, Bytes) -> Lanes, g: Bytes -> Lanes)
    requires 0 < n && 64 * n <= |data|
    requires forall a, s, key :: k.accumulate512(a, s, key) == f(s, key)
    requires forall a, key :: k.scramble(a, key) == g(key)
    ensures var at := (pos + n - 1) % ((|secret| - 64) / 8);
      Absorb(k, secret, acc, pos, data, n)
        == if at + 1 == (|secret| - 64) / 8 then g(secret[|secret| - 64..])
           else f(data[64 * (n - 1)..64 * n], secret[8 * at..8 * at + 64])
  {
    AbsorbStep(k, secret, acc, pos, data, n);
    hide Absorb;
  }
}
