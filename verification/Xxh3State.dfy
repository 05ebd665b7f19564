/** XXH3 public entry points: the one-shot hashes, and the streaming state whose update may cut
    the input anywhere.  The state records, as ghosts, what was fed since the last successful
    reset; digest returns the one-shot hash of exactly that. */
module Xxh3State {
  import opened LittleEndian
  import opened Memory
  import opened Xxh3Stripes

  const INTERNAL_BUFFER_SIZE: nat := 256
  const INTERNAL_BUFFER_STRIPES: nat := 4

  datatype Option<+T> = None | Some(value: T)
  datatype ErrorCode = XXH_OK | XXH_ERROR

  /** How a hash is keyed: the four families of entry points. */
  datatype Variant =
    | Default
    | WithSecret(secret: Secret)
    | WithSeed(seed: U64)
    | WithSecretAndSeed(secret: Secret, seed: U64)

  /** The first n 16-byte segments of the secret derived from a seed. */
  function CustomSegments(kSecret: DefaultSecret, seed: U64, n: nat): (b: Bytes)
    requires 16 * n <= SECRET_DEFAULT_SIZE
    ensures |b| == 16 * n
  {
    if n == 0 then []
    else CustomSegments(kSecret, seed, n - 1) + Segment(kSecret, seed, 16 * (n - 1))
  }

  /** The seed is added to one 64-bit word of the default secret and subtracted from the next. */
  function Segment(kSecret: DefaultSecret, seed: U64, at: nat): (b: Bytes)
    requires at + 16 <= SECRET_DEFAULT_SIZE
    ensures |b| == 16
  {
    Write(Wrap64(Read(kSecret[at..at + 8]) + seed), 8) + Write(Wrap64(Read(kSecret[at + 8..at + 16]) - seed), 8)
  }

  function InitCustomSecret(kSecret: DefaultSecret, seed: U64): DefaultSecret {
    CustomSegments(kSecret, seed, |kSecret| / 16)
  }

  /** Seed 0 derives the default secret, so builds that skip the seed == 0 shortcut agree. */
  lemma {:induction false} SeedZeroIsDefault(kSecret: DefaultSecret, n: nat)
    requires 16 * n <= SECRET_DEFAULT_SIZE
    ensures CustomSegments(kSecret, 0, n) == kSecret[..16 * n]
  {
    hide Segment, Read, Write, Wrap64, Pow256;
    if n > 0 {
      var at := 16 * (n - 1);
      SeedZeroIsDefault(kSecret, n - 1);
      SegmentOfSeedZero(kSecret, at);
      assert kSecret[..16 * n] == kSecret[..at] + kSecret[at..at + 16];
    }
  }

  lemma SegmentOfSeedZero(kSecret: DefaultSecret, at: nat)
    requires at + 16 <= SECRET_DEFAULT_SIZE
    ensures Segment(kSecret, 0, at) == kSecret[at..at + 16]
  {
    var lo, hi := kSecret[at..at + 8], kSecret[at + 8..at + 16];
    WordOfSeedZero(lo);
    WordOfSeedZero(hi);
    hide Read, Write, Pow256;
    assert kSecret[at..at + 16] == lo + hi;
  }

  lemma WordOfSeedZero(w: Bytes)
    requires |w| == 8
    ensures Write(Wrap64(Read(w) + 0), 8) == w == Write(Wrap64(Read(w) - 0), 8)
  {
    Pow256Of8();
    WriteRead(w);
    hide Read, Write, Pow256;
  }

  lemma {:induction false} SegmentsAt(kSecret: DefaultSecret, seed: U64, n: nat, i: nat)
    requires 16 * n <= SECRET_DEFAULT_SIZE && i < n
    ensures CustomSegments(kSecret, seed, n)[16 * i..16 * i + 16] == Segment(kSecret, seed, 16 * i)
  {
    hide Segment;
    if i < n - 1 {
      SegmentsAt(kSecret, seed, n - 1, i);
      assert CustomSegments(kSecret, seed, n)[..16 * (n - 1)] == CustomSegments(kSecret, seed, n - 1);
      assert CustomSegments(kSecret, seed, n)[16 * i..16 * i + 16] == CustomSegments(kSecret, seed, n - 1)[16 * i..16 * i + 16];
    }
  }

  lemma SegmentWords(kSecret: DefaultSecret, seed: U64, at: nat)
    requires at + 16 <= SECRET_DEFAULT_SIZE
    ensures Read(Segment(kSecret, seed, at)[..8]) == (Read(kSecret[at..at + 8]) + seed) % TWO64
    ensures Read(Segment(kSecret, seed, at)[8..]) == (Read(kSecret[at + 8..at + 16]) + TWO64 - seed) % TWO64
  {
    hide Read, Write, Pow256;
    Pow256Of8();
    var lo, hi := Read(kSecret[at..at + 8]) + seed, Read(kSecret[at + 8..at + 16]) - seed;
    ReadWrite(Wrap64(lo), 8);
    ReadWrite(Wrap64(hi), 8);
    Wrap64Small(Wrap64(lo));
    Wrap64Small(Wrap64(hi));
    WrapUp(hi);
    assert Segment(kSecret, seed, at)[..8] == Write(Wrap64(lo), 8);
    assert Segment(kSecret, seed, at)[8..] == Write(Wrap64(hi), 8);
  }

  lemma WrapUp(x: int)
    ensures Wrap64(x) == (x + TWO64) % TWO64
  {
    ModUnique(x + TWO64, TWO64, x / TWO64 + 1, x % TWO64);
  }

  /** Word by word: the seed is added to the even words of the default secret and subtracted from the
      odd ones. */
  lemma CustomWord(kSecret: DefaultSecret, seed: U64, j: nat)
    requires j < 24
    ensures Read(InitCustomSecret(kSecret, seed)[8 * j..8 * j + 8])
         == (Read(kSecret[8 * j..8 * j + 8]) + if j % 2 == 0 then seed else TWO64 - seed) % TWO64
  {
    hide Read, Segment, CustomSegments;
    var i := j / 2;
    SegmentsAt(kSecret, seed, 12, i);
    SegmentWords(kSecret, seed, 16 * i);
    var c := InitCustomSecret(kSecret, seed);
    if j % 2 == 0 {
      assert c[8 * j..8 * j + 8] == c[16 * i..16 * i + 16][..8];
    } else {
      assert c[8 * j..8 * j + 8] == c[16 * i..16 * i + 16][8..];
    }
  }

  // ---- one-shot hashing -------------------------------------------------------------

  /** The secret that keys long inputs. */
  function LongSecret(k: Kernel, v: Variant): Secret {
    match v
    case Default => k.kSecret
    case WithSecret(s) => s
    case WithSeed(x) => if x == 0 then k.kSecret else InitCustomSecret(k.kSecret, x)
    case WithSecretAndSeed(s, _) => s
  }

  /** The secret and the seed that key inputs of at most 240 bytes. */
  function ShortKey(k: Kernel, v: Variant): (Secret, U64) {
    match v
    case Default => (k.kSecret, 0)
    case WithSecret(s) => (s, 0)
    case WithSeed(x) => (k.kSecret, x)
    case WithSecretAndSeed(_, x) => (k.kSecret, x)
  }

  function Merge64(k: Kernel, secret: Secret, acc: Lanes, len: nat): U64 {
    k.mergeAccs(acc, secret[SECRET_MERGEACCS_START..SECRET_MERGEACCS_START + 64], Wrap64(len * PRIME64_1))
  }

  function Merge128(k: Kernel, secret: Secret, acc: Lanes, len: nat): (U64, U64) {
    var at := |secret| - 64 - SECRET_MERGEACCS_START;
    (Merge64(k, secret, acc, len),
     k.mergeAccs(acc, secret[at..at + 64], TWO64 - 1 - Wrap64(len * PRIME64_2)))
  }

  function Hash64(k: Kernel, v: Variant, input: Bytes): U64 {
    if |input| <= MIDSIZE_MAX then
      var (secret, seed) := ShortKey(k, v);
      k.short64(input, secret, seed)
    else
      Merge64(k, LongSecret(k, v), LongAcc(k, LongSecret(k, v), input), |input|)
  }

  function Hash128(k: Kernel, v: Variant, input: Bytes): (U64, U64) {
    if |input| <= MIDSIZE_MAX then
      var (secret, seed) := ShortKey(k, v);
      k.short128(input, secret, seed)
    else
      Merge128(k, LongSecret(k, v), LongAcc(k, LongSecret(k, v), input), |input|)
  }

  /** XXH3_64bits and its withSecret, withSeed and withSecretandSeed forms, run as written:
      short inputs go to the short mixers, long ones through the block loop. */
  method OneShot64(k: Kernel, v: Variant, input: Bytes) returns (h: U64)
    ensures h == Hash64(k, v, input)
  {
    if |input| <= MIDSIZE_MAX {
      var (secret, seed) := ShortKey(k, v);
      return k.short64(input, secret, seed);
    }
    var secret := LongSecret(k, v);
    var acc := HashLongInternalLoop(k, input, secret);
    h := Merge64(k, secret, acc, |input|);
  }

  method OneShot128(k: Kernel, v: Variant, input: Bytes) returns (h: (U64, U64))
    ensures h == Hash128(k, v, input)
  {
    if |input| <= MIDSIZE_MAX {
      var (secret, seed) := ShortKey(k, v);
      return k.short128(input, secret, seed);
    }
    var secret := LongSecret(k, v);
    var acc := HashLongInternalLoop(k, input, secret);
    h := Merge128(k, secret, acc, |input|);
  }

  /** The secret of a long input: given, derived from the seed, or the default one. */
  predicate KeyedBy(k: Kernel, v: Variant, secret: Secret) {
    match v
    case Default => secret == k.kSecret
    case WithSecret(s) => secret == s
    case WithSeed(x) => |secret| == 192 && (x == 0 ==> secret == k.kSecret) && (x != 0 ==> secret == InitCustomSecret(k.kSecret, x))
    case WithSecretAndSeed(s, _) => secret == s
  }

  /** Both hashes of a long input in bytes: the two halves merge the same lanes with the 64 secret bytes
      from byte 11 on and with those that end 11 bytes before the end, starting from two multiples of
      the length. */
  lemma LongHash(k: Kernel, v: Variant, secret: Secret, input: Bytes, accs: seq<Lanes>)
    requires |input| > 240 && KeyedBy(k, v, secret) && Traces(k, secret, 0, input, accs)
    requires accs[0] == INIT_LANES && |accs| - 1 == (|input| - 1) / 64
    ensures var lanes := k.accumulate512(accs[|accs| - 1], input[|input| - 64..], secret[|secret| - 71..|secret| - 7]);
      && Hash64(k, v, input) == k.mergeAccs(lanes, secret[11..75], |input| * 0x9E3779B185EBCA87 % TWO64)
      && Hash128(k, v, input)
         == (Hash64(k, v, input),
             k.mergeAccs(lanes, secret[|secret| - 75..|secret| - 11], TWO64 - 1 - |input| * 0xC2B2AE3D27D4EB4F % TWO64))
  {
    hide Traces, LongAcc;
    LongTraced(k, secret, input, accs);
  }

  /** Which secret and seed a short input is mixed with. */
  lemma ShortHash(k: Kernel, secret: Secret, seed: U64, input: Bytes)
    requires |input| <= 240
    ensures Hash64(k, Default, input) == k.short64(input, k.kSecret, 0)
    ensures Hash64(k, WithSecret(secret), input) == k.short64(input, secret, 0)
    ensures Hash64(k, WithSeed(seed), input) == k.short64(input, k.kSecret, seed)
    ensures Hash64(k, WithSecretAndSeed(secret, seed), input) == k.short64(input, k.kSecret, seed)
    ensures Hash128(k, Default, input) == k.short128(input, k.kSecret, 0)
    ensures Hash128(k, WithSecret(secret), input) == k.short128(input, secret, 0)
    ensures Hash128(k, WithSeed(seed), input) == k.short128(input, k.kSecret, seed)
    ensures Hash128(k, WithSecretAndSeed(secret, seed), input) == k.short128(input, k.kSecret, seed)
  {
  }

  // ---- streaming invariant ----------------------------------------------------------

  /** The lanes hold exactly the first consumed stripes of the input fed so far. */
  ghost predicate Absorbed(k: Kernel, secret: Secret, acc: Lanes, soFar: nat, consumed: nat, fed: Bytes) {
    && STRIPE_LEN * consumed <= |fed|
    && acc == Absorb(k, secret, InitAcc(), 0, fed, consumed)
    && soFar == consumed % StripesPerBlock(secret)
  }

  /** The buffer holds the unconsumed bytes and, above them, what is left of the 64 bytes that
      precede them in the input. */
  ghost predicate Buffered(buffer: Bytes, size: nat, consumed: nat, fed: Bytes) {
    && |buffer| == INTERNAL_BUFFER_SIZE
    && STRIPE_LEN * consumed + size == |fed| && size <= INTERNAL_BUFFER_SIZE
    && buffer[..size] == fed[STRIPE_LEN * consumed..]
    && (consumed > 0 ==> size > 0 && TailKept(buffer, size, consumed, fed))
  }

  ghost predicate TailKept(buffer: Bytes, size: nat, consumed: nat, fed: Bytes)
    requires |buffer| == INTERNAL_BUFFER_SIZE && STRIPE_LEN * consumed <= |fed|
  {
    && consumed >= INTERNAL_BUFFER_STRIPES
    && forall i :: INTERNAL_BUFFER_SIZE - STRIPE_LEN <= i < INTERNAL_BUFFER_SIZE && size <= i
         ==> buffer[i] == fed[STRIPE_LEN * consumed - INTERNAL_BUFFER_SIZE + i]
  }

  lemma AbsorbedIs(k: Kernel, secret: Secret, acc: Lanes, soFar: nat, consumed: nat, fed: Bytes)
    requires Absorbed(k, secret, acc, soFar, consumed, fed)
    ensures STRIPE_LEN * consumed <= |fed| && soFar < StripesPerBlock(secret)
    ensures acc == Absorb(k, secret, InitAcc(), 0, fed, consumed)
  {
  }

  /** More input does not disturb what was absorbed. */
  lemma AbsorbedExtends(k: Kernel, secret: Secret, acc: Lanes, soFar: nat, consumed: nat, fed: Bytes, input: Bytes)
    requires Absorbed(k, secret, acc, soFar, consumed, fed)
    ensures Absorbed(k, secret, acc, soFar, consumed, fed + input)
  {
    var n := STRIPE_LEN * consumed;
    assert fed[..n] == (fed + input)[..n];
    AbsorbPrefix(k, secret, InitAcc(), 0, fed, fed + input, consumed);
  }

  /** Absorbing the next n stripes from a buffer that mirrors the input there. */
  lemma AbsorbedMore(k: Kernel, secret: Secret, acc: Lanes, soFar: nat, consumed: nat, fed: Bytes, chunk: Bytes, n: nat)
    requires Absorbed(k, secret, acc, soFar, consumed, fed)
    requires STRIPE_LEN * n <= |chunk| && STRIPE_LEN * (consumed + n) <= |fed|
    requires chunk[..STRIPE_LEN * n] == fed[STRIPE_LEN * consumed..STRIPE_LEN * (consumed + n)]
    ensures Absorbed(k, secret, Absorb(k, secret, acc, soFar, chunk, n),
                     (soFar + n) % StripesPerBlock(secret), consumed + n, fed)
  {
    var rest := fed[STRIPE_LEN * consumed..];
    assert rest[..STRIPE_LEN * n] == fed[STRIPE_LEN * consumed..STRIPE_LEN * (consumed + n)];
    AbsorbAppend(k, secret, InitAcc(), 0, fed, consumed, n);
    AbsorbPrefix(k, secret, acc, soFar, chunk, rest, n);
    ModAdd(consumed, n, StripesPerBlock(secret));
  }

  /** The last stripe as XXH3_digest_long assembles it: inside the buffer when there is room,
      otherwise the kept tail followed by the buffered bytes. */
  function DigestStripe(buffer: Bytes, size: nat): Bytes
    requires |buffer| == INTERNAL_BUFFER_SIZE && size <= INTERNAL_BUFFER_SIZE
  {
    if size >= STRIPE_LEN then buffer[size - STRIPE_LEN..size]
    else buffer[INTERNAL_BUFFER_SIZE - (STRIPE_LEN - size)..] + buffer[..size]
  }

  lemma DigestStripeIsInputTail(buffer: Bytes, size: nat, consumed: nat, fed: Bytes)
    requires Buffered(buffer, size, consumed, fed) && |fed| > INTERNAL_BUFFER_SIZE - STRIPE_LEN
    ensures DigestStripe(buffer, size) == fed[|fed| - STRIPE_LEN..]
  {
    var s := DigestStripe(buffer, size);
    forall i | 0 <= i < STRIPE_LEN
      ensures s[i] == fed[|fed| - STRIPE_LEN + i]
    {
      if size >= STRIPE_LEN {
        assert s[i] == buffer[..size][size - STRIPE_LEN + i];
      } else if i < STRIPE_LEN - size {
        assert s[i] == buffer[INTERNAL_BUFFER_SIZE - (STRIPE_LEN - size) + i];
      } else {
        assert s[i] == buffer[..size][i - (STRIPE_LEN - size)];
      }
    }
  }

  lemma BufferedStripes(buffer: Bytes, size: nat, consumed: nat, fed: Bytes, n: nat)
    requires Buffered(buffer, size, consumed, fed) && STRIPE_LEN * n <= size
    ensures buffer[..STRIPE_LEN * n] == fed[STRIPE_LEN * consumed..STRIPE_LEN * (consumed + n)]
  {
    assert buffer[..STRIPE_LEN * n] == buffer[..size][..STRIPE_LEN * n];
  }

  lemma DigestStripeCount(size: nat, consumed: nat, total: nat)
    requires STRIPE_LEN * consumed + size == total && size > 0
    ensures (total - 1) / STRIPE_LEN == consumed + (size - 1) / STRIPE_LEN
  {
    ModUnique(total - 1, STRIPE_LEN, consumed + (size - 1) / STRIPE_LEN, (size - 1) % STRIPE_LEN);
  }

  // ---- streaming state --------------------------------------------------------------

  class Xxh3State {
    const k: Kernel
    var acc: Lanes
    const customSecret: array<Byte>
    const buffer: array<Byte>
    var bufferedSize: nat
    var useSeed: bool
    var nbStripesSoFar: nat
    var totalLen: U64
    var nbStripesPerBlock: nat
    var secretLimit: U64
    var seed: U64
    var extSecret: Option<Bytes>  // None is the NULL pointer

    ghost var variant: Option<Variant>  // of the last reset, when it succeeded
    ghost var fed: Bytes                // everything since that reset
    ghost var consumed: nat             // stripes already in the lanes

    /** The pointer XXH3_update and the digests select the secret with. */
    function SecretPtr(): Bytes
      reads this, customSecret
    {
      if extSecret.None? then customSecret[..] else extSecret.value
    }

    /** The fields agree with the variant of the last successful reset. */
    ghost predicate Configured(v: Variant)
      reads this, customSecret
    {
      && SecretPtr() == LongSecret(k, v)
      && secretLimit == |SecretPtr()| - STRIPE_LEN
      && nbStripesPerBlock == StripesPerBlock(LongSecret(k, v))
      && seed == ShortKey(k, v).1
      && useSeed == match v {
           case WithSeed(x) => x != 0
           case WithSecretAndSeed(_, _) => true
           case _ => false
         }
    }

    ghost predicate Shaped() {
      && buffer.Length == INTERNAL_BUFFER_SIZE && customSecret.Length == SECRET_DEFAULT_SIZE
      && buffer != customSecret
    }

    ghost predicate Valid()
      reads this, buffer, customSecret
    {
      && Shaped()
      // the cache reset_withSeed relies on
      && (extSecret.None? && seed != 0 ==> customSecret[..] == InitCustomSecret(k.kSecret, seed))
      && (variant.Some? ==> Configured(variant.value) && totalLen == Wrap64(|fed|) && Streaming())
    }

    ghost predicate Streaming()
      requires variant.Some?
      reads this, buffer
    {
      && Absorbed(k, LongSecret(k, variant.value), acc, nbStripesSoFar, consumed, fed)
      && Buffered(buffer[..], bufferedSize, consumed, fed)
    }

    /** XXH3_createState: only seed and extSecret are initialised. */
    constructor Create(k: Kernel)
      ensures Valid() && fresh(buffer) && fresh(customSecret) && this.k == k && variant.None? && fed == []
    {
      this.k := k;
      acc := [0, 0, 0, 0, 0, 0, 0, 0];
      customSecret := new Byte[SECRET_DEFAULT_SIZE];
      buffer := new Byte[INTERNAL_BUFFER_SIZE];
      bufferedSize, useSeed, nbStripesSoFar, totalLen, nbStripesPerBlock, secretLimit := 0, false, 0, 0, 0, 0;
      seed, extSecret := 0, None;
      variant, fed, consumed := None, [], 0;
    }

    /** XXH3_reset_internal. */
    method ResetInternal(seed: U64, secret: Option<Bytes>, secretSize: U64)
      requires Shaped()
      requires secret.None? && seed != 0 ==> customSecret[..] == InitCustomSecret(k.kSecret, seed)
      modifies this
      ensures bufferedSize == 0 && !useSeed == (seed == 0) && nbStripesSoFar == 0 && totalLen == 0
      ensures acc == InitAcc() && this.seed == seed && extSecret == secret
      ensures secretLimit == Wrap64(secretSize - STRIPE_LEN)
      ensures nbStripesPerBlock == secretLimit / SECRET_CONSUME_RATE
      ensures variant.None? && fed == [] && consumed == 0
      ensures Valid()
    {
      assert Wrap64(0) == 0;
      hide Streaming, Configured, InitCustomSecret, Wrap64, InitAcc;
      bufferedSize, useSeed, nbStripesSoFar, totalLen := 0, false, 0, 0;
      acc := InitAcc();
      this.seed := seed;
      useSeed := seed != 0;
      extSecret := secret;
      secretLimit := Wrap64(secretSize - STRIPE_LEN);
      nbStripesPerBlock := secretLimit / SECRET_CONSUME_RATE;
      variant, fed, consumed := None, [], 0;
    }

    /** Entering a variant once the fields are set. */
    ghost method Begin(v: Variant)
      requires Valid() && Configured(v) && acc == InitAcc() && nbStripesSoFar == 0 && bufferedSize == 0 && totalLen == 0
      requires fed == [] && consumed == 0
      modifies this`variant
      ensures Valid() && variant == Some(v)
    {
      SmallMod(0, StripesPerBlock(LongSecret(k, v)));
      variant := Some(v);
    }

    method Reset() returns (e: ErrorCode)
      requires Valid()
      modifies this
      ensures Valid() && e == XXH_OK && variant == Some(Default) && fed == []
    {
      ResetInternal(0, Some(k.kSecret), SECRET_DEFAULT_SIZE);
      Begin(Default);
      e := XXH_OK;
    }

    /** A NULL or short secret still clobbers the state before the error is returned. */
    method ResetWithSecret(secret: Option<Bytes>, secretSize: U64) returns (e: ErrorCode)
      requires Valid() && (secret.Some? ==> |secret.value| == secretSize)
      modifies this
      ensures Valid() && fed == []
      ensures e == XXH_OK <==> secret.Some? && secretSize >= SECRET_SIZE_MIN
      ensures variant == if e == XXH_OK then Some(WithSecret(secret.value)) else None
    {
      ResetInternal(0, secret, secretSize);
      if secret.None? { return XXH_ERROR; }
      if secretSize < SECRET_SIZE_MIN { return XXH_ERROR; }
      Begin(WithSecret(secret.value));
      e := XXH_OK;
    }

    method ResetWithSeed(seed: U64) returns (e: ErrorCode)
      requires Valid()
      modifies this, customSecret
      ensures Valid() && e == XXH_OK && fed == []
      ensures variant == Some(if seed == 0 then Default else WithSeed(seed))
    {
      hide CustomSegments;
      if seed == 0 {
        e := Reset();
        return;
      }
      if seed != this.seed || extSecret.Some? {
        InitCustomSecretInPlace(k.kSecret, seed, customSecret);
      }
      ResetInternal(seed, None, SECRET_DEFAULT_SIZE);
      Begin(WithSeed(seed));
      e := XXH_OK;
    }

    /** Errors are detected before the state is touched. */
    method ResetWithSecretAndSeed(secret: Option<Bytes>, secretSize: U64, seed: U64) returns (e: ErrorCode)
      requires Valid() && (secret.Some? ==> |secret.value| == secretSize)
      modifies this
      ensures Valid()
      ensures e == XXH_OK <==> secret.Some? && secretSize >= SECRET_SIZE_MIN
      ensures e == XXH_OK ==> variant == Some(WithSecretAndSeed(secret.value, seed)) && fed == []
      ensures e == XXH_ERROR ==> unchanged(this)
    {
      if secret.None? { return XXH_ERROR; }
      if secretSize < SECRET_SIZE_MIN { return XXH_ERROR; }
      ResetInternal(seed, secret, secretSize);
      useSeed := true;
      Begin(WithSecretAndSeed(secret.value, seed));
      e := XXH_OK;
    }

    /** Between the parts of an update: nothing is buffered, the lanes have reached input
        position at, and the 64 bytes before it are kept. */
    ghost predicate Drained(lanes: Lanes, all: Bytes, at: nat)
      requires variant.Some?
      reads this, buffer
    {
      && buffer.Length == INTERNAL_BUFFER_SIZE && bufferedSize == 0
      && STRIPE_LEN * consumed == at
      && Absorbed(k, LongSecret(k, variant.value), lanes, nbStripesSoFar, consumed, all)
      && (consumed > 0 ==> TailKept(buffer[..], 0, consumed, all))
    }

    method BufferSmall(input: Bytes)
      requires Shaped() && variant.Some? && Streaming() && |input| <= INTERNAL_BUFFER_SIZE - bufferedSize
      modifies this`bufferedSize, buffer
      ensures Buffered(buffer[..], bufferedSize, consumed, fed + input)
    {
      ghost var before := buffer[..];
      MemCpy(buffer, bufferedSize, input);
      BufferAppend(before, buffer[..], bufferedSize, consumed, fed, input);
      bufferedSize := bufferedSize + |input|;
    }

    /** Complete a partly filled buffer and consume it. */
    method ConsumeBuffer(input: Bytes, secret: Secret) returns (lanes: Lanes, p: nat)
      requires Shaped() && variant.Some? && Streaming() && |input| > INTERNAL_BUFFER_SIZE - bufferedSize
      requires bufferedSize > 0 && secret == LongSecret(k, variant.value)
      modifies this`bufferedSize, this`nbStripesSoFar, this`consumed, buffer
      ensures p == INTERNAL_BUFFER_SIZE - old(bufferedSize)
      ensures Drained(lanes, fed + input, |fed| + p)
    {
      hide Absorb, CustomSegments;
      p := INTERNAL_BUFFER_SIZE - bufferedSize;
      ghost var before := buffer[..];
      MemCpy(buffer, bufferedSize, input[..p]);
      BufferFilled(before, buffer[..], bufferedSize, consumed, fed, input);
      AbsorbedExtends(k, secret, acc, nbStripesSoFar, consumed, fed, input);
      AbsorbedMore(k, secret, acc, nbStripesSoFar, consumed, fed + input, buffer[..], INTERNAL_BUFFER_STRIPES);
      var end: nat;
      lanes, nbStripesSoFar, end := ConsumeStripes(k, acc, nbStripesSoFar, buffer[..], INTERNAL_BUFFER_STRIPES, secret);
      consumed := consumed + INTERNAL_BUFFER_STRIPES;
      bufferedSize := 0;
    }

    /** Consume whole stripes straight from the input, leaving at least one byte, and keep the
        last 64 bytes consumed at the top of the buffer. */
    method ConsumeBulk(input: Bytes, p0: nat, lanes0: Lanes, secret: Secret) returns (lanes: Lanes, p: nat)
      requires variant.Some? && secret == LongSecret(k, variant.value)
      requires p0 + INTERNAL_BUFFER_SIZE < |input| && Drained(lanes0, fed + input, |fed| + p0)
      modifies this`nbStripesSoFar, this`consumed, buffer
      ensures p < |input| <= p + STRIPE_LEN
      ensures Drained(lanes, fed + input, |fed| + p)
    {
      hide Absorb, LongSecret, TailKept, InitAcc;
      var nbStripes := (|input| - 1 - p0) / STRIPE_LEN;
      BulkMirrors(fed, input, p0, consumed, nbStripes);
      AbsorbedMore(k, secret, lanes0, nbStripesSoFar, consumed, fed + input, input[p0..], nbStripes);
      var advance: nat;
      lanes, nbStripesSoFar, advance := ConsumeStripes(k, lanes0, nbStripesSoFar, input[p0..], nbStripes, secret);
      p := p0 + advance;
      consumed := consumed + nbStripes;
      assert nbStripes >= INTERNAL_BUFFER_STRIPES;
      KeepTail(input, p);
    }

    /** The last 64 bytes consumed go to the top of the buffer. */
    method KeepTail(input: Bytes, p: nat)
      requires buffer.Length == INTERNAL_BUFFER_SIZE && INTERNAL_BUFFER_SIZE <= p < |input| && STRIPE_LEN * consumed == |fed| + p
      modifies buffer
      ensures TailKept(buffer[..], 0, consumed, fed + input)
    {
      ghost var before := buffer[..];
      MemCpy(buffer, INTERNAL_BUFFER_SIZE - STRIPE_LEN, input[p - STRIPE_LEN..p]);
      BulkTail(before, buffer[..], fed, input, p, consumed);
    }

    method BufferRest(input: Bytes, p: nat, ghost lanes: Lanes)
      requires variant.Some? && p < |input| <= p + INTERNAL_BUFFER_SIZE
      requires |fed| + p > 0 && Drained(lanes, fed + input, |fed| + p)
      modifies this`bufferedSize, buffer
      ensures Buffered(buffer[..], bufferedSize, consumed, fed + input)
    {
      ghost var before := buffer[..];
      MemCpy(buffer, 0, input[p..]);
      bufferedSize := |input| - p;
      Rebuffered(before, buffer[..], fed, input, p, consumed);
    }

    method ConsumeAndBuffer(input: Bytes, secret: Secret)
      requires Shaped() && variant.Some? && Streaming() && |input| > INTERNAL_BUFFER_SIZE - bufferedSize
      requires secret == LongSecret(k, variant.value)
      modifies this`acc, this`bufferedSize, this`nbStripesSoFar, this`consumed, this`fed, buffer
      ensures Streaming() && fed == old(fed) + input
    {
      hide Absorbed, TailKept, LongSecret;
      var lanes, p := acc, 0;
      if bufferedSize != 0 {
        lanes, p := ConsumeBuffer(input, secret);
      } else {
        AbsorbedExtends(k, secret, acc, nbStripesSoFar, consumed, fed, input);
      }
      if |input| - p > INTERNAL_BUFFER_SIZE {
        lanes, p := ConsumeBulk(input, p, lanes, secret);
      }
      BufferRest(input, p, lanes);
      acc := lanes;
      fed := fed + input;
    }

    /** XXH3_update: buffer small input; otherwise complete and consume the buffer, consume the
        rest in bulk while keeping its last 64 bytes, and buffer what remains (never nothing). */
    method Update(input: Bytes)
      requires Valid() && variant.Some?
      modifies this, buffer
      ensures Valid() && variant == old(variant) && fed == old(fed) + input
    {
      hide Absorbed, Buffered, InitCustomSecret, LongSecret, ShortKey, Wrap64, InitAcc;
      var secret := SecretPtr();
      totalLen := Wrap64(totalLen + |input|);
      Wrap64Add(|fed|, |input|);
      if |input| <= INTERNAL_BUFFER_SIZE - bufferedSize {
        AbsorbedExtends(k, secret, acc, nbStripesSoFar, consumed, fed, input);
        BufferSmall(input);
        fed := fed + input;
      } else {
        ConsumeAndBuffer(input, secret);
      }
    }

    /** XXH3_digest_long, on a copy of the lanes. */
    method DigestLong() returns (lanes: Lanes)
      requires Valid() && variant.Some? && |fed| > MIDSIZE_MAX
      ensures lanes == LongAcc(k, LongSecret(k, variant.value), fed)
    {
      hide Absorb, TailKept, CustomSegments, LongSecret, InitAcc;
      var secretPtr := SecretPtr();
      var b: Bytes := buffer[..];
      DigestStripeIsInputTail(b, bufferedSize, consumed, fed);
      lanes := DigestStripes(secretPtr);
      lanes := LastStripe(k, secretPtr, lanes, DigestStripe(b, bufferedSize));
    }

    /** All stripes but the last. */
    method DigestStripes(secret: Secret) returns (lanes: Lanes)
      requires Valid() && variant.Some? && |fed| > MIDSIZE_MAX && secret == LongSecret(k, variant.value)
      ensures lanes == Absorb(k, secret, InitAcc(), 0, fed, (|fed| - 1) / STRIPE_LEN)
    {
      hide Absorb, TailKept, CustomSegments, LongSecret, InitAcc, Absorbed, Configured, ShortKey, StripesPerBlock;
      lanes := acc;
      AbsorbedIs(k, secret, acc, nbStripesSoFar, consumed, fed);
      DigestStripeCount(bufferedSize, consumed, |fed|);
      if bufferedSize >= STRIPE_LEN {
        var b: Bytes := buffer[..];
        var nbStripes := (bufferedSize - 1) / STRIPE_LEN;
        BufferedStripes(b, bufferedSize, consumed, fed, nbStripes);
        AbsorbedMore(k, secret, lanes, nbStripesSoFar, consumed, fed, b, nbStripes);
        var soFar: nat, end: nat;
        lanes, soFar, end := ConsumeStripes(k, lanes, nbStripesSoFar, b, nbStripes, secret);
        AbsorbedIs(k, secret, lanes, soFar, consumed + nbStripes, fed);
      }
    }

    /** XXH3_64bits_digest: the one-shot hash of everything fed, however it was cut. */
    method Digest64() returns (h: U64)
      requires Valid() && variant.Some? && |fed| < TWO64
      ensures h == Hash64(k, variant.value, fed)
    {
      Wrap64Small(|fed|);
      var secretPtr := SecretPtr();
      if totalLen > MIDSIZE_MAX {
        var lanes := DigestLong();
        return Merge64(k, secretPtr, lanes, totalLen);
      }
      assert buffer[..totalLen] == fed;
      if useSeed {
        h := k.short64(buffer[..totalLen], k.kSecret, seed);
      } else {
        h := k.short64(buffer[..totalLen], secretPtr, 0);
      }
    }

    /** XXH3_128bits_digest tests the seed where the 64-bit digest tests useSeed. */
    method Digest128() returns (h: (U64, U64))
      requires Valid() && variant.Some? && |fed| < TWO64
      ensures h == Digest128Of(k, variant.value, fed)
    {
      Wrap64Small(|fed|);
      var secretPtr := SecretPtr();
      if totalLen > MIDSIZE_MAX {
        var lanes := DigestLong();
        return Merge128(k, secretPtr, lanes, totalLen);
      }
      assert buffer[..totalLen] == fed;
      if seed != 0 {
        h := k.short128(buffer[..totalLen], k.kSecret, seed);
      } else {
        h := k.short128(buffer[..totalLen], secretPtr, 0);
      }
    }
  }

  /** A small update appends to the buffer and leaves the kept tail above it alone. */
  lemma BufferAppend(before: Bytes, after: Bytes, size: nat, consumed: nat, fed: Bytes, input: Bytes)
    requires Buffered(before, size, consumed, fed) && size + |input| <= INTERNAL_BUFFER_SIZE
    requires after == before[..size] + input + before[size + |input|..]
    ensures Buffered(after, size + |input|, consumed, fed + input)
  {
    assert after[..size + |input|] == before[..size] + input;
  }

  /** Completing a partly filled buffer makes it a copy of the next four stripes of the input. */
  lemma BufferFilled(before: Bytes, after: Bytes, size: nat, consumed: nat, fed: Bytes, input: Bytes)
    requires Buffered(before, size, consumed, fed) && |input| > INTERNAL_BUFFER_SIZE - size
    requires after == before[..size] + input[..INTERNAL_BUFFER_SIZE - size]
    ensures after[..] == (fed + input)[STRIPE_LEN * consumed..STRIPE_LEN * (consumed + INTERNAL_BUFFER_STRIPES)]
    ensures TailKept(after, 0, consumed + INTERNAL_BUFFER_STRIPES, fed + input)
  {
    SliceAcross(fed, input, STRIPE_LEN * consumed, INTERNAL_BUFFER_SIZE);
    assert forall i :: 0 <= i < INTERNAL_BUFFER_SIZE ==> after[i] == (fed + input)[STRIPE_LEN * consumed + i];
  }

  lemma BulkMirrors(fed: Bytes, input: Bytes, p: nat, consumed: nat, n: nat)
    requires p + STRIPE_LEN * n <= |input| && STRIPE_LEN * consumed == |fed| + p
    ensures input[p..][..STRIPE_LEN * n] == (fed + input)[STRIPE_LEN * consumed..STRIPE_LEN * (consumed + n)]
  {
  }

  /** After bulk consumption the top of the buffer holds the 64 bytes just consumed. */
  lemma BulkTail(before: Bytes, after: Bytes, fed: Bytes, input: Bytes, p: nat, consumed: nat)
    requires |before| == INTERNAL_BUFFER_SIZE && INTERNAL_BUFFER_SIZE <= p < |input|
    requires STRIPE_LEN * consumed == |fed| + p
    requires after == before[..INTERNAL_BUFFER_SIZE - STRIPE_LEN] + input[p - STRIPE_LEN..p] + before[INTERNAL_BUFFER_SIZE..]
    ensures |after| == INTERNAL_BUFFER_SIZE && TailKept(after, 0, consumed, fed + input)
  {
  }

  /** Buffering the rest of the input below the kept tail restores the invariant. */
  lemma Rebuffered(before: Bytes, after: Bytes, fed: Bytes, input: Bytes, p: nat, consumed: nat)
    requires |before| == INTERNAL_BUFFER_SIZE && p < |input| <= p + INTERNAL_BUFFER_SIZE
    requires STRIPE_LEN * consumed == |fed| + p && TailKept(before, 0, consumed, fed + input)
    requires after == before[..0] + input[p..] + before[0 + |input| - p..]
    ensures Buffered(after, |input| - p, consumed, fed + input)
  {
    assert after[..|input| - p] == input[p..] == (fed + input)[STRIPE_LEN * consumed..];
  }

  /** The branch in which the 128-bit digest leaves the one-shot hash. */
  predicate SeedIgnored(v: Variant, len: nat) {
    v.WithSecretAndSeed? && v.seed == 0 && len <= MIDSIZE_MAX
  }

  /** What the 128-bit streaming digest returns in every case. */
  function Digest128Of(k: Kernel, v: Variant, input: Bytes): (U64, U64) {
    if SeedIgnored(v, |input|) then Hash128(k, WithSecret(v.secret), input) else Hash128(k, v, input)
  }

  method WriteSegment(kSecret: DefaultSecret, seed: U64, dst: array<Byte>, at: nat)
    requires at + 16 <= dst.Length == SECRET_DEFAULT_SIZE
    modifies dst
    ensures dst[..at + 16] == old(dst[..at]) + Segment(kSecret, seed, at)
  {
    hide Read, Write, Pow256, Wrap64;
    var lo := Write(Wrap64(Read(kSecret[at..at + 8]) + seed), 8);
    var hi := Write(Wrap64(Read(kSecret[at + 8..at + 16]) - seed), 8);
    MemCpy(dst, at, lo);
    assert dst[..at + 8] == old(dst[..at]) + lo;
    MemCpy(dst, at + 8, hi);
    assert dst[..at + 16] == old(dst[..at]) + (lo + hi);
  }

  /** XXH3_initCustomSecret_scalar. */
  method InitCustomSecretInPlace(kSecret: DefaultSecret, seed: U64, customSecret: array<Byte>)
    requires customSecret.Length == SECRET_DEFAULT_SIZE
    modifies customSecret
    ensures customSecret[..] == InitCustomSecret(kSecret, seed)
  {
    hide Segment, Read, Write, Pow256;
    var nbRounds := |kSecret| / 16;
    for i := 0 to nbRounds
      invariant customSecret[..16 * i] == CustomSegments(kSecret, seed, i)
    {
      WriteSegment(kSecret, seed, customSecret, 16 * i);
    }
    assert customSecret[..] == customSecret[..16 * nbRounds];
  }
}
