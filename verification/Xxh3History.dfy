/** XXH3 streaming over whole histories: any sequence of resets, updates and digests on one
    state, including failed resets and the seed cache, returns one-shot hashes. */
module Xxh3History {
  import opened LittleEndian
  import opened Xxh3Stripes
  import opened Xxh3State
  import opened Binary
  import opened XxhAvalanche
  import opened Xxh3Lanes

  datatype Op =
    | OpReset
    | OpResetWithSecret(secret: Option<Bytes>, size: U64)
    | OpResetWithSeed(seed: U64)
    | OpResetWithSecretAndSeed(secret: Option<Bytes>, size: U64, seed: U64)
    | OpUpdate(input: Bytes)
    | OpDigest64
    | OpDigest128

  datatype Output = H64(h: U64) | H128(h128: (U64, U64))

  /** All a history needs to remember: the keying of the last reset, if it stands, and the bytes
      fed since.  How they were cut is forgotten. */
  datatype Session = Session(variant: Option<Variant>, fed: Bytes)

  const NO_SESSION := Session(None, [])

  predicate SecretOk(secret: Option<Bytes>, size: U64) {
    secret.Some? && size >= SECRET_SIZE_MIN
  }

  /** The caller's side of the interface: sizes are true, nothing is fed to or read from a
      state whose last reset failed, and lengths fit in size_t. */
  predicate Legal(s: Session, op: Op) {
    match op
    case OpResetWithSecret(secret, size) => secret.Some? ==> |secret.value| == size
    case OpResetWithSecretAndSeed(secret, size, _) => secret.Some? ==> |secret.value| == size
    case OpUpdate(_) => s.variant.Some?
    case OpDigest64 => s.variant.Some? && |s.fed| < TWO64
    case OpDigest128 => s.variant.Some? && |s.fed| < TWO64
    case _ => true
  }

  function Next(s: Session, op: Op): Session
    requires Legal(s, op)
  {
    match op
    case OpReset => Session(Some(Default), [])
    case OpResetWithSecret(secret, size) =>
      Session(if SecretOk(secret, size) then Some(WithSecret(secret.value)) else None, [])
    case OpResetWithSeed(seed) => Session(Some(if seed == 0 then Default else WithSeed(seed)), [])
    case OpResetWithSecretAndSeed(secret, size, seed) =>
      if SecretOk(secret, size) then Session(Some(WithSecretAndSeed(secret.value, seed)), []) else s
    case OpUpdate(input) => Session(s.variant, s.fed + input)
    case OpDigest64 => s
    case OpDigest128 => s
  }

  function Emit(k: Kernel, s: Session, op: Op): seq<Output>
    requires Legal(s, op)
  {
    match op
    case OpDigest64 => [H64(Hash64(k, s.variant.value, s.fed))]
    case OpDigest128 => [H128(Digest128Of(k, s.variant.value, s.fed))]
    case _ => []
  }

  predicate LegalHistory(s: Session, ops: seq<Op>)
    decreases |ops|
  {
    ops == [] || (Legal(s, ops[0]) && LegalHistory(Next(s, ops[0]), ops[1..]))
  }

  /** What a history should return: one one-shot hash per digest. */
  function Expected(k: Kernel, s: Session, ops: seq<Op>): seq<Output>
    requires LegalHistory(s, ops)
    decreases |ops|
  {
    if ops == [] then [] else Emit(k, s, ops[0]) + Expected(k, Next(s, ops[0]), ops[1..])
  }

  /** One operation on a streaming state follows the session it represents. */
  method Apply(st: Xxh3State, op: Op) returns (out: seq<Output>)
    requires st.Valid() && Legal(Session(st.variant, st.fed), op)
    modifies st, st.buffer, st.customSecret
    ensures st.Valid() && Session(st.variant, st.fed) == old(Next(Session(st.variant, st.fed), op))
    ensures out == old(Emit(st.k, Session(st.variant, st.fed), op))
  {
    hide Hash64, Digest128Of;
    out := [];
    var e: ErrorCode;
    match op
    case OpReset => e := st.Reset();
    case OpResetWithSecret(secret, size) => e := st.ResetWithSecret(secret, size);
    case OpResetWithSeed(seed) => e := st.ResetWithSeed(seed);
    case OpResetWithSecretAndSeed(secret, size, seed) => e := st.ResetWithSecretAndSeed(secret, size, seed);
    case OpUpdate(input) => st.Update(input);
    case OpDigest64 => var h := st.Digest64(); out := [H64(h)];
    case OpDigest128 => var h := st.Digest128(); out := [H128(h)];
  }

  /** The whole-history theorem: running any legal history on a fresh state returns exactly the
      one-shot hashes of the bytes fed since the last standing reset. */
  method Run(k: Kernel, ops: seq<Op>) returns (outs: seq<Output>)
    requires LegalHistory(NO_SESSION, ops)
    ensures outs == Expected(k, NO_SESSION, ops)
  {
    var st := new Xxh3State.Create(k);
    outs := [];
    var i := 0;
    assert ops[0..] == ops;
    hide LegalHistory, Expected, Emit, Next, Legal;
    ghost var s := NO_SESSION;
    while i < |ops|
      invariant i <= |ops| && st.Valid() && st.k == k
      invariant fresh(st) && fresh(st.buffer) && fresh(st.customSecret)
      invariant s == Session(st.variant, st.fed) && LegalHistory(s, ops[i..])
      invariant outs + Expected(k, s, ops[i..]) == Expected(k, NO_SESSION, ops)
    {
      HistoryStep(k, s, ops, i);
      var out := Apply(st, ops[i]);
      s := Next(s, ops[i]);
      Regroup(outs, out, Expected(k, s, ops[i + 1..]));
      outs := outs + out;
      i := i + 1;
    }
    NothingExpected(k, s, ops[i..]);
  }

  /** The first operation of what is left of a history. */
  lemma HistoryStep(k: Kernel, s: Session, ops: seq<Op>, i: nat)
    requires i < |ops| && LegalHistory(s, ops[i..])
    ensures Legal(s, ops[i]) && LegalHistory(Next(s, ops[i]), ops[i + 1..])
    ensures Expected(k, s, ops[i..]) == Emit(k, s, ops[i]) + Expected(k, Next(s, ops[i]), ops[i + 1..])
  {
    hide Emit, Next, Legal;
    assert ops[i..][1..] == ops[i + 1..];
  }

  lemma Regroup<T>(a: seq<T>, b: seq<T>, c: seq<T>)
    ensures (a + b) + c == a + (b + c)
  {
  }

  lemma NothingExpected(k: Kernel, s: Session, ops: seq<Op>)
    ensures ops == [] ==> LegalHistory(s, ops) && Expected(k, s, ops) == []
  {
  }

  function Concat(chunks: seq<Bytes>): Bytes {
    if chunks == [] then [] else chunks[0] + Concat(chunks[1..])
  }

  function Updates(chunks: seq<Bytes>): seq<Op> {
    seq(|chunks|, i requires 0 <= i < |chunks| => OpUpdate(chunks[i]))
  }

  /** Feeding chunks and then digesting depends on their concatenation alone: every way of
      cutting the input gives the one-shot hash. */
  lemma {:induction false} CutsDoNotMatter(k: Kernel, v: Variant, fed: Bytes, chunks: seq<Bytes>)
    requires |fed + Concat(chunks)| < TWO64
    ensures LegalHistory(Session(Some(v), fed), Updates(chunks) + [OpDigest64])
    decreases |chunks|
    ensures Expected(k, Session(Some(v), fed), Updates(chunks) + [OpDigest64]) == [H64(Hash64(k, v, fed + Concat(chunks)))]
  {
    var ops := Updates(chunks) + [OpDigest64];
    if chunks == [] {
      assert ops == [OpDigest64] && fed + Concat(chunks) == fed;
    } else {
      assert fed + Concat(chunks) == (fed + chunks[0]) + Concat(chunks[1..]);
      CutsDoNotMatter(k, v, fed + chunks[0], chunks[1..]);
      assert ops[1..] == Updates(chunks[1..]) + [OpDigest64];
    }
  }

  /** Whatever the cuts and whichever back end runs: the stream and the block loop in place, scalar or
      with any share of vector lanes, give the same hash. */
  method StreamedIsInPlace(k: Kernel, chunks: seq<Bytes>, vectorLanes: nat, cutEarly: bool)
    returns (streamed: seq<Output>, oneShot: U64)
    requires MIDSIZE_MAX < |Concat(chunks)| < TWO64 && vectorLanes <= 8 && vectorLanes % 2 == 0
    ensures streamed == [H64(oneShot)] && oneShot == Hash64(LaneKernel(k), Default, Concat(chunks))
  {
    var lk := LaneKernel(k);
    assert [] + Concat(chunks) == Concat(chunks);
    CutsDoNotMatter(lk, Default, [], chunks);
    hide LaneKernel, LongAcc;
    var ops := [OpReset] + (Updates(chunks) + [OpDigest64]);
    assert ops[1..] == Updates(chunks) + [OpDigest64];
    streamed := Run(lk, ops);
    var input := Concat(chunks);
    var acc := HashLongInPlace(k, input, lk.kSecret, vectorLanes, cutEarly);
    oneShot := Merge64(lk, lk.kSecret, acc[..], |input|);
  }

  // ---- the 128-bit digest after reset_withSecretandSeed with seed 0 -----------------

  /** XXH3_kSecret. */
  const K_SECRET: Bytes :=
    [0xb8, 0xfe, 0x6c, 0x39, 0x23, 0xa4, 0x4b, 0xbe, 0x7c, 0x01, 0x81, 0x2c, 0xf7, 0x21, 0xad, 0x1c] +
    [0xde, 0xd4, 0x6d, 0xe9, 0x83, 0x90, 0x97, 0xdb, 0x72, 0x40, 0xa4, 0xa4, 0xb7, 0xb3, 0x67, 0x1f] +
    [0xcb, 0x79, 0xe6, 0x4e, 0xcc, 0xc0, 0xe5, 0x78, 0x82, 0x5a, 0xd0, 0x7d, 0xcc, 0xff, 0x72, 0x21] +
    [0xb8, 0x08, 0x46, 0x74, 0xf7, 0x43, 0x24, 0x8e, 0xe0, 0x35, 0x90, 0xe6, 0x81, 0x3a, 0x26, 0x4c] +
    [0x3c, 0x28, 0x52, 0xbb, 0x91, 0xc3, 0x00, 0xcb, 0x88, 0xd0, 0x65, 0x8b, 0x1b, 0x53, 0x2e, 0xa3] +
    [0x71, 0x64, 0x48, 0x97, 0xa2, 0x0d, 0xf9, 0x4e, 0x38, 0x19, 0xef, 0x46, 0xa9, 0xde, 0xac, 0xd8] +
    [0xa8, 0xfa, 0x76, 0x3f, 0xe3, 0x9c, 0x34, 0x3f, 0xf9, 0xdc, 0xbb, 0xc7, 0xc7, 0x0b, 0x4f, 0x1d] +
    [0x8a, 0x51, 0xe0, 0x4b, 0xcd, 0xb4, 0x59, 0x31, 0xc8, 0x9f, 0x7e, 0xc9, 0xd9, 0x78, 0x73, 0x64] +
    [0xea, 0xc5, 0xac, 0x83, 0x34, 0xd3, 0xeb, 0xc3, 0xc5, 0x81, 0xa0, 0xff, 0xfa, 0x13, 0x63, 0xeb] +
    [0x17, 0x0d, 0xdd, 0x51, 0xb7, 0xf0, 0xda, 0x49, 0xd3, 0x16, 0x55, 0x26, 0x29, 0xd4, 0x68, 0x9e] +
    [0x2b, 0x16, 0xbe, 0x58, 0x7d, 0x47, 0xa1, 0xfc, 0x8f, 0xf8, 0xb8, 0xd1, 0x7a, 0xd0, 0x31, 0xce] +
    [0x45, 0xcb, 0x3a, 0x8f, 0x95, 0x16, 0x04, 0x28, 0xaf, 0xd7, 0xfb, 0xca, 0xbb, 0x4b, 0x40, 0x7e]

  /** XXH_readLE64. */
  function Word(b: Bytes, at: nat): U64
    requires at + 8 <= |b|
  {
    Pow256Of8();
    Read(b[at..at + 8])
  }

  /** The words of the secret that key one half of the hash of the empty input. */
  function Flip(secret: Bytes, at: nat): U64
    requires at + 16 <= |secret|
  {
    XorWord(Word(secret, at), Word(secret, at + 8))
  }

  /** XXH3_len_0to16_128b for the empty input. */
  function HashEmpty(secret: Bytes, seed: U64): (U64, U64)
    requires |secret| >= 96
  {
    (Avalanche(XorWord(seed, Flip(secret, 64))), Avalanche(XorWord(seed, Flip(secret, 80))))
  }

  /** The kernel with the library's secret and its hash of the empty input. */
  function WithEmpty(k: Kernel): Kernel {
    KSecretSize();
    k.(kSecret := K_SECRET,
       short128 := (input, secret, seed) =>
         if input == [] && |secret| >= 96 then HashEmpty(secret, seed) else k.short128(input, secret, seed))
  }

  lemma KSecretSize()
    ensures |K_SECRET| == SECRET_DEFAULT_SIZE
  {
  }

  lemma EmptyDigests(k: Kernel, secret: Secret)
    requires |K_SECRET| == SECRET_DEFAULT_SIZE
    ensures Digest128Of(WithEmpty(k), WithSecretAndSeed(secret, 0), []) == HashEmpty(secret, 0)
    ensures Hash128(WithEmpty(k), WithSecretAndSeed(secret, 0), []) == HashEmpty(K_SECRET, 0)
  {
    hide HashEmpty, K_SECRET;
  }

  /** For the empty input after reset_withSecretandSeed with seed 0, the 128-bit digest is the
      one-shot hash exactly when the two secrets give the same two keys. */
  lemma EmptyDigestExactly(k: Kernel, secret: Secret)
    ensures var v := WithSecretAndSeed(secret, 0);
      Digest128Of(WithEmpty(k), v, []) == Hash128(WithEmpty(k), v, [])
      <==> Flip(secret, 64) == Flip(K_SECRET, 64) && Flip(secret, 80) == Flip(K_SECRET, 80)
  {
    KSecretSize();
    hide Avalanche, Flip, WithEmpty, Digest128Of, Hash128;
    EmptyDigests(k, secret);
    AvalancheInjective(Flip(secret, 64), Flip(K_SECRET, 64));
    AvalancheInjective(Flip(secret, 80), Flip(K_SECRET, 80));
  }

  /** The mismatch is real: with an all-zero external secret and seed 0, digesting nothing gives
      a 128-bit hash other than the one-shot XXH3_128bits_withSecretandSeed. */
  lemma SeedZeroDigestDiffers(k: Kernel, zeros: Secret)
    requires forall i :: 0 <= i < |zeros| ==> zeros[i] == 0
    ensures var v := WithSecretAndSeed(zeros, 0);
      Digest128Of(WithEmpty(k), v, []) != Hash128(WithEmpty(k), v, [])
  {
    EmptyDigestExactly(k, zeros);
    FlipOfZeros(zeros);
    FlipOfKSecret();
    hide Flip;
  }

  lemma FlipOfZeros(zeros: Secret)
    requires forall i :: 0 <= i < |zeros| ==> zeros[i] == 0
    ensures Flip(zeros, 64) == 0
  {
    assert zeros[64..72] == zeros[72..80];
    XorSelf(Word(zeros, 64), Word(zeros, 72));
    hide Read;
  }

  lemma FlipOfKSecret()
    ensures Flip(K_SECRET, 64) != 0
  {
    KSecretSize();
    assert K_SECRET[64] == 0x3c && K_SECRET[72] == 0x88;
    hide K_SECRET;
    LowByte(K_SECRET, 64);
    LowByte(K_SECRET, 72);
    XorSelf(Word(K_SECRET, 64), Word(K_SECRET, 72));
  }

  lemma LowByte(b: Bytes, at: nat)
    requires at + 8 <= |b|
    ensures Word(b, at) % 256 == b[at] as nat
  {
  }

  lemma {:induction false} XorSelf(x: nat, y: nat)
    ensures Xor(x, y) == 0 <==> x == y
    decreases x
  {
    if x > 0 && y > 0 { XorSelf(x / 2, y / 2); }
  }

  /** Short inputs hash to the first byte of the secret they are keyed with, and the default secret
      starts with another byte than the given one. */
  function TellingKernel(first: Byte): Kernel {
    Kernel((acc, stripe, key) => acc, (acc, key) => acc, (acc, key, start) => start,
           (input, secret, seed) => 0,
           (input: Bytes, secret: Bytes, seed: U64) => (if secret == [] then 0 else secret[0] as U64, 0),
           seq(SECRET_DEFAULT_SIZE, _ => if first == 0 then 1 else 0))
  }

  /** Exactly when the 128-bit digest can be relied on: it is the one-shot hash for all mixers unless
      a short input follows reset_withSecretandSeed with seed 0. */
  lemma Digest128Exactly(v: Variant, input: Bytes)
    ensures (forall k: Kernel :: Digest128Of(k, v, input) == Hash128(k, v, input)) <==> !SeedIgnored(v, |input|)
  {
    if SeedIgnored(v, |input|) {
      var k := TellingKernel(v.secret[0]);
      assert Digest128Of(k, v, input).0 == v.secret[0] as U64;
      assert Hash128(k, v, input).0 == k.kSecret[0] as U64;
    }
  }
}
