/** XXH32: the one-shot hash, both forms of its finalizer, and the streaming state whose 32-bit
    length counter may wrap. */
module Xxh32 {
  import opened LittleEndian
  import opened Memory
  import opened XxhLanes

  const P1: nat := 0x9E3779B1
  const P2: nat := 0x85EBCA77
  const P5: nat := 0x165667B1
  const STRIPE: nat := 16

  function Wrap32(x: int): U32 { x % TWO32 }

  function Seeded(seed: U32): Lanes4 {
    Lanes4(Wrap32(seed + P1 + P2), Wrap32(seed + P2), seed, Wrap32(seed - P1))
  }

  /** One stripe of four 4-byte words. */
  function Round4(m: Mixer, v: Lanes4, s: Bytes): Lanes4
    requires |s| == STRIPE
  {
    Lanes4(m.round(v.v1, Read(s[..4])), m.round(v.v2, Read(s[4..8])),
           m.round(v.v3, Read(s[8..12])), m.round(v.v4, Read(s[12..])))
  }

  /** The lanes after the first n stripes of data. */
  function Fold4(m: Mixer, v: Lanes4, data: Bytes, n: nat): Lanes4
    requires STRIPE * n <= |data|
  {
    if n == 0 then v
    else Round4(m, Fold4(m, v, data, n - 1), data[STRIPE * (n - 1)..STRIPE * (n - 1) + STRIPE])
  }

  /** Folding looks only at the stripes it is asked for. */
  lemma {:induction false} FoldPrefix(m: Mixer, v: Lanes4, data: Bytes, more: Bytes, n: nat)
    requires STRIPE * n <= |data| && STRIPE * n <= |more|
    requires data[..STRIPE * n] == more[..STRIPE * n]
    ensures Fold4(m, v, data, n) == Fold4(m, v, more, n)
  {
    hide Round4;
    if n > 0 {
      var a, b := STRIPE * (n - 1), STRIPE * n;
      assert data[..a] == data[..b][..a] == more[..a];
      FoldPrefix(m, v, data, more, n - 1);
      assert data[a..a + STRIPE] == data[..b][a..] == more[a..a + STRIPE];
    }
  }

  /** The whole stripes of an input and what is left over. */
  function Whole(len: nat): (n: nat)
    ensures STRIPE * n <= len < STRIPE * n + STRIPE
  {
    len / STRIPE
  }

  lemma WholeIs(len: nat, n: nat)
    requires STRIPE * n <= len < STRIPE * n + STRIPE
    ensures n == Whole(len)
  {
  }

  function Rest(input: Bytes): (b: Bytes)
    ensures |b| < STRIPE
  {
    input[STRIPE * Whole(|input|)..]
  }

  function LanesOf(m: Mixer, seed: U32, input: Bytes): Lanes4 {
    Fold4(m, Seeded(seed), input, Whole(|input|))
  }

  lemma NothingFed(m: Mixer, seed: U32)
    ensures LanesOf(m, seed, []) == Seeded(seed) && Rest([]) == [] && Wrap32(0) == 0
  {
    hide Seeded;
  }

  function Hash32(m: Mixer, seed: U32, input: Bytes): nat {
    var h := if |input| >= STRIPE then m.converge(LanesOf(m, seed, input)) else Wrap32(seed + P5);
    Tail4(m, Wrap32(h + |input|), Rest(input))
  }

  /** The compact form of XXH32_finalize. */
  method FinalizeRolled(m: Mixer, hash: nat, ptr: Bytes, len: nat) returns (r: nat)
    requires len % STRIPE <= |ptr|
    ensures r == Tail4(m, hash, ptr[..len % STRIPE])
  {
    hide Tail4, Tail1;
    var end: nat := len % STRIPE;
    var left: nat := end;
    var p: nat := 0;
    var h := hash;
    assert ptr[p..end] == ptr[..end];
    while left >= 4
      invariant p + left == end
      invariant Tail4(m, h, ptr[p..end]) == Tail4(m, hash, ptr[..end])
    {
      Tail4Step(m, h, ptr, p, end);
      h := m.step4(h, Read(ptr[p..p + 4]));
      p, left := p + 4, left - 4;
    }
    Tail4Step(m, h, ptr, p, end);
    while left > 0
      invariant p + left == end && left < 4
      invariant Tail1(m, h, ptr[p..end]) == Tail4(m, hash, ptr[..end])
    {
      Tail1Step(m, h, ptr, p, end);
      h := m.step1(h, ptr[p] as nat);
      p, left := p + 1, left - 1;
    }
    Tail1Step(m, h, ptr, p, end);
    r := m.avalanche(h);
  }

  /** Entry points of the jump table: how many four-byte steps then one-byte steps each case runs. */
  function JumpSteps(c: nat): (nat, nat)
    requires c < STRIPE
  {
    match c
    case 12 => (3, 0) case 8 => (2, 0) case 4 => (1, 0)
    case 13 => (3, 1) case 9 => (2, 1) case 5 => (1, 1)
    case 14 => (3, 2) case 10 => (2, 2) case 6 => (1, 2)
    case 15 => (3, 3) case 11 => (2, 3) case 7 => (1, 3)
    case 3 => (0, 3) case 2 => (0, 2) case 1 => (0, 1)
    case _ => (0, 0)
  }

  /** The fall-through switch form of XXH32_finalize, run as the steps its entry point reaches. */
  method FinalizeJump(m: Mixer, hash: nat, ptr: Bytes, len: nat) returns (r: nat)
    requires len % STRIPE <= |ptr|
    ensures r == Tail4(m, hash, ptr[..len % STRIPE])
  {
    hide Tail4, Tail1, JumpSteps;
    var c := len % STRIPE;
    JumpCovers(c);
    var (fours, ones) := JumpSteps(c);
    var p: nat := 0;
    var h := hash;
    assert ptr[p..c] == ptr[..c];
    for i := 0 to fours
      invariant p == 4 * i
      invariant Tail4(m, h, ptr[p..c]) == Tail4(m, hash, ptr[..c])
    {
      Tail4Step(m, h, ptr, p, c);
      h := m.step4(h, Read(ptr[p..p + 4]));
      p := p + 4;
    }
    Tail4Step(m, h, ptr, p, c);
    for i := 0 to ones
      invariant p == 4 * fours + i
      invariant Tail1(m, h, ptr[p..c]) == Tail4(m, hash, ptr[..c])
    {
      Tail1Step(m, h, ptr, p, c);
      h := m.step1(h, ptr[p] as nat);
      p := p + 1;
    }
    Tail1Step(m, h, ptr, p, c);
    r := m.avalanche(h);
  }

  lemma JumpCovers(c: nat)
    requires c < STRIPE
    ensures c == 4 * JumpSteps(c).0 + JumpSteps(c).1 && JumpSteps(c).1 < 4
  {
  }

  /** The stripe loop of XXH32_endian_align. */
  method RoundAll(m: Mixer, seed: U32, input: Bytes) returns (v: Lanes4, p: nat)
    requires |input| >= STRIPE
    ensures v == LanesOf(m, seed, input) && p == STRIPE * Whole(|input|)
  {
    var limit := |input| - 15;
    hide Seeded, Fold4, Round4, Whole;
    v, p := Seeded(seed), 0;
    ghost var n: nat := 0;
    FoldNone(m, v, input);
    while p < limit  // the source tests after the body; here the first test always passes
      invariant p == STRIPE * n && p <= |input|
      invariant v == Fold4(m, Seeded(seed), input, n)
    {
      FoldStep(m, Seeded(seed), input, n, input[p..p + STRIPE]);
      v := Round4(m, v, input[p..p + STRIPE]);
      p, n := p + STRIPE, n + 1;
    }
    WholeIs(|input|, n);
  }

  /** XXH32_endian_align: the one-shot hash. */
  method OneShot(m: Mixer, seed: U32, input: Bytes) returns (r: nat)
    ensures r == Hash32(m, seed, input)
  {
    hide Wrap32, Seeded, LanesOf, Tail4, Hash32, Rest, Whole;
    var h32: nat;
    var p: nat := 0;
    if |input| >= STRIPE {
      var v: Lanes4;
      v, p := RoundAll(m, seed, input);
      h32 := m.converge(v);
    } else {
      h32 := Wrap32(seed + P5);
    }
    h32 := Wrap32(h32 + |input|);
    TailIsRest(input, p);
    r := FinalizeRolled(m, h32, input[p..], |input| % 16);
    HashParts(m, seed, input);
  }

  lemma TailIsRest(input: Bytes, p: nat)
    requires p == if |input| >= STRIPE then STRIPE * Whole(|input|) else 0
    ensures p <= |input| && |input[p..]| == |input| % STRIPE && input[p..] == Rest(input)
    ensures |input| % STRIPE % STRIPE == |input| % STRIPE
    ensures input[p..][..|input| % STRIPE] == Rest(input)
  {
  }

  lemma HashParts(m: Mixer, seed: U32, input: Bytes)
    ensures Hash32(m, seed, input)
         == Tail4(m, Wrap32((if |input| >= STRIPE then m.converge(LanesOf(m, seed, input)) else Wrap32(seed + P5)) + |input|), Rest(input))
  {
  }

  lemma FoldNone(m: Mixer, v: Lanes4, input: Bytes)
    ensures Fold4(m, v, input, 0) == v
  {
  }

  /** Until the first stripe the third lane is still the seed. */
  lemma SeedKept(m: Mixer, seed: U32, input: Bytes)
    requires |input| < STRIPE
    ensures LanesOf(m, seed, input).v3 == seed
  {
  }

  /** Bringing a state from whole stripe count a to b over a longer input. */
  lemma FoldStep(m: Mixer, v: Lanes4, input: Bytes, n: nat, stripe: Bytes)
    requires STRIPE * (n + 1) <= |input| && stripe == input[STRIPE * n..STRIPE * n + STRIPE]
    ensures Fold4(m, v, input, n + 1) == Round4(m, Fold4(m, v, input, n), stripe)
  {
  }

  class Xxh32State {
    const m: Mixer
    var v: Lanes4
    const mem32: array<Byte>
    var memsize: nat
    var totalLen32: U32
    var largeLen: bool

    ghost var seed: U32
    ghost var fed: Bytes

    /** The lanes hold the whole stripes, the buffer the rest. */
    ghost predicate Buffered()
      reads this, mem32
    {
      && mem32.Length == STRIPE
      && memsize == |fed| % STRIPE
      && v == LanesOf(m, seed, fed)
      && mem32[..memsize] == Rest(fed)
    }

    ghost predicate Valid()
      reads this, mem32
    {
      && Buffered()
      && totalLen32 == Wrap32(|fed|)
      && (largeLen <==> |fed| >= STRIPE)  // although the counter wraps
    }

    /** XXH32_reset on a fresh state. */
    constructor (m: Mixer, seed: U32)
      ensures Valid() && fresh(mem32) && this.m == m && this.seed == seed && fed == []
    {
      this.m := m;
      v := Seeded(seed);
      mem32 := new Byte[STRIPE](_ => 0);
      memsize, totalLen32, largeLen := 0, 0, false;
      this.seed, fed := seed, [];
      new;
      hide Valid, Seeded;
      NothingYet();
    }

    lemma NothingYet()
      requires mem32.Length == STRIPE && memsize == 0 && totalLen32 == 0 && !largeLen && fed == [] && v == Seeded(seed)
      ensures Valid()
    {
      hide Wrap32, Seeded, LanesOf, Rest;
      NothingFed(m, seed);
    }

    /** XXH32_reset. */
    method Reset(seed: U32)
      requires Valid()
      modifies this, mem32
      ensures Valid() && this.seed == seed && fed == []
    {
      hide Wrap32, Seeded, LanesOf, Rest;
      NothingFed(m, seed);
      forall i | 0 <= i < mem32.Length { mem32[i] := 0; }
      v := Seeded(seed);
      memsize, totalLen32, largeLen := 0, 0, false;
      this.seed, fed := seed, [];
    }

    /** XXH32_update. */
    method Update(input: Bytes)
      requires Valid()
      modifies this, mem32
      ensures Valid() && seed == old(seed) && fed == old(fed) + input
    {
      hide Wrap32, LanesOf, Rest;
      CountersFollow(|fed|, |input|);
      totalLen32 := Wrap32(totalLen32 + Wrap32(|input|));
      largeLen := largeLen || |input| >= STRIPE || totalLen32 >= STRIPE;
      Feed(input);
    }

    method Feed(input: Bytes)
      requires Buffered()
      modifies this`v, this`memsize, this`fed, mem32
      ensures Buffered() && fed == old(fed) + input
    {
      hide Seeded, Fold4, Round4;
      if memsize + |input| < STRIPE {
        Buffer(memsize, input);
        SmallFeed(m, seed, fed, input);
        memsize := memsize + |input|;
      } else {
        var p: nat := 0;
        ghost var n := Whole(|fed|);
        if memsize != 0 {
          p, n := CompleteStripe(input);
        } else {
          FoldExtends(m, seed, fed, input, n);
        }
        p := ConsumeStripes(input, p, n);
        BufferRest(input, p);
      }
      fed := fed + input;
    }

    /** Fill the buffer from the input and take it as a stripe. */
    method CompleteStripe(input: Bytes) returns (p: nat, ghost n: nat)
      requires Buffered() && memsize + |input| >= STRIPE && memsize != 0
      modifies this`v, this`memsize, mem32
      ensures memsize == 0 && p == STRIPE - old(memsize) && STRIPE * n == |fed| + p
      ensures v == Fold4(m, Seeded(seed), fed + input, n)
    {
      hide Seeded, Fold4, Round4;
      p := STRIPE - memsize;
      n := Whole(|fed|);
      FoldExtends(m, seed, fed, input, n);
      Buffer(memsize, input[..p]);
      RestAt(fed);
      hide Rest, Whole, LanesOf;
      SliceAcross(fed, input, STRIPE * n, STRIPE);
      assert mem32[..] == mem32[..STRIPE];
      FoldStep(m, Seeded(seed), fed + input, n, mem32[..]);
      v := Round4(m, v, mem32[..]);
      memsize, n := 0, n + 1;
    }

    method ConsumeStripes(input: Bytes, p0: nat, ghost n0: nat) returns (p: nat)
      requires p0 <= |input| && |fed| + p0 == STRIPE * n0
      requires v == Fold4(m, Seeded(seed), fed + input, n0)
      modifies this`v
      ensures p <= |input| < p + STRIPE && (|fed| + p) % STRIPE == 0
      ensures v == LanesOf(m, seed, fed + input) && Rest(fed + input) == input[p..]
    {
      hide Seeded, Fold4, Round4, Rest, LanesOf, Whole;
      p := p0;
      ghost var n := n0;
      ghost var all := fed + input;
      while p + STRIPE <= |input|
        invariant p <= |input| && |fed| + p == STRIPE * n
        invariant v == Fold4(m, Seeded(seed), all, n)
      {
        SliceBehind(fed, input, p, STRIPE);
        FoldStep(m, Seeded(seed), all, n, input[p..p + STRIPE]);
        v := Round4(m, v, input[p..p + STRIPE]);
        p, n := p + STRIPE, n + 1;
      }
      ConsumedAll(m, seed, fed, input, p, n);
    }

    method BufferRest(input: Bytes, p: nat)
      requires mem32.Length == STRIPE && p <= |input| < p + STRIPE && memsize == 0
      modifies this`memsize, mem32
      ensures memsize == |input| - p && mem32[..memsize] == input[p..]
    {
      if p < |input| {
        Buffer(0, input[p..]);
        memsize := |input| - p;
      }
    }

    method Buffer(at: nat, src: Bytes)
      requires at + |src| <= mem32.Length
      modifies mem32
      ensures mem32[..at + |src|] == old(mem32[..at]) + src
    {
      MemCpy(mem32, at, src);
    }

    /** XXH32_digest: the one-shot hash, for any total length. */
    method Digest() returns (r: nat)
      requires Valid()
      ensures r == Hash32(m, seed, fed)
    {
      hide LanesOf, Wrap32, Rest, Tail4, Seeded, Hash32;
      if |fed| < STRIPE { SeedKept(m, seed, fed); }
      var h32: nat;
      if largeLen {
        h32 := m.converge(v);
      } else {
        h32 := Wrap32(v.v3 + P5);
      }
      WrapAdd(h32, |fed|);
      h32 := Wrap32(h32 + totalLen32);
      SmallRest(memsize);
      assert mem32[..][..memsize] == mem32[..memsize];
      r := FinalizeRolled(m, h32, mem32[..], memsize);
      HashParts(m, seed, fed);
    }
  }

  lemma SmallRest(n: nat)
    requires n < STRIPE
    ensures n % STRIPE == n
  {
  }

  lemma WrapAdd(a: nat, b: nat)
    ensures Wrap32(a + Wrap32(b)) == Wrap32(a + b)
    ensures Wrap32(Wrap32(b) + Wrap32(a)) == Wrap32(a + b)
  {
    var s := a + b % TWO32;
    ModUnique(a + b, TWO32, b / TWO32 + s / TWO32, s % TWO32);
    var t := a % TWO32 + b % TWO32;
    ModUnique(a + b, TWO32, a / TWO32 + b / TWO32 + t / TWO32, t % TWO32);
  }

  /** The sticky flag: total_len_32 wraps, yet "an update of 16 bytes or a counter of 16" seen at
      least once is exactly "16 bytes in all". */
  lemma CountersFollow(fed: nat, len: nat)
    ensures Wrap32(Wrap32(fed) + Wrap32(len)) == Wrap32(fed + len)
    ensures fed >= STRIPE || len >= STRIPE || Wrap32(fed + len) >= STRIPE <==> fed + len >= STRIPE
  {
    WrapAdd(len, fed);
  }

  lemma RestAt(fed: Bytes)
    ensures STRIPE * Whole(|fed|) <= |fed| && Rest(fed) == fed[STRIPE * Whole(|fed|)..]
    ensures |fed| - STRIPE * Whole(|fed|) == |fed| % STRIPE
  {
  }

  /** When less than a stripe is left, the lanes and the rest are those of all that was fed. */
  lemma ConsumedAll(m: Mixer, seed: U32, fed: Bytes, input: Bytes, p: nat, n: nat)
    requires |fed| + p == STRIPE * n && p <= |input| < p + STRIPE
    ensures (|fed| + p) % STRIPE == 0
    ensures Fold4(m, Seeded(seed), fed + input, n) == LanesOf(m, seed, fed + input) && Rest(fed + input) == input[p..]
  {
    hide Fold4, Seeded;
    SliceBehind(fed, input, p, 0);
    WholeIs(|fed + input|, n);
  }

  lemma FoldExtends(m: Mixer, seed: U32, fed: Bytes, input: Bytes, n: nat)
    requires n == Whole(|fed|)
    ensures Fold4(m, Seeded(seed), fed + input, n) == LanesOf(m, seed, fed)
  {
    hide Fold4, Seeded;
    assert fed[..STRIPE * n] == (fed + input)[..STRIPE * n];
    FoldPrefix(m, Seeded(seed), fed, fed + input, n);
  }

  lemma SmallFeed(m: Mixer, seed: U32, fed: Bytes, input: Bytes)
    requires |fed| % STRIPE + |input| < STRIPE
    ensures |fed + input| % STRIPE == |fed| % STRIPE + |input|
    ensures LanesOf(m, seed, fed + input) == LanesOf(m, seed, fed)
    ensures Rest(fed + input) == Rest(fed) + input
  {
    assert Whole(|fed + input|) == Whole(|fed|);
    FoldExtends(m, seed, fed, input, Whole(|fed|));
  }

  // ---- the hash in words -----------------------------------------------------------------------------

  /** The words of 4 bytes that lane j takes from the first n stripes: one of each. */
  function LaneWords(data: Bytes, j: nat, n: nat): (ws: seq<nat>)
    requires 16 * n <= |data| && j < 4
    ensures |ws| == n
  {
    seq(n, i requires 0 <= i < n => Read(data[16 * i + 4 * j..16 * i + 4 * j + 4]))
  }

  function Lane(v: Lanes4, j: nat): nat { if j == 0 then v.v1 else if j == 1 then v.v2 else if j == 2 then v.v3 else v.v4 }

  /** Each lane folds its own words. */
  lemma {:induction false} LaneFolded(m: Mixer, v: Lanes4, data: Bytes, n: nat, j: nat)
    requires 16 * n <= |data| && j < 4
    ensures Lane(Fold4(m, v, data, n), j) == Folded(m.round, Lane(v, j), LaneWords(data, j, n))
  {
    hide Round4, LaneWords, WordOf;
    if n == 0 {
      FoldNone(m, v, data);
      NoWords(m.round, Lane(v, j), LaneWords(data, j, 0));
    } else {
      LaneFolded(m, v, data, n - 1, j);
      FoldStep(m, v, data, n - 1, data[16 * (n - 1)..16 * (n - 1) + STRIPE]);
      hide Fold4, Folded;
      RoundWords(m, Fold4(m, v, data, n - 1), data, n);
      OneWordMore(m, Lane(v, j), data, j, n);
    }
  }

  lemma LanesFolded(m: Mixer, v: Lanes4, data: Bytes, n: nat)
    requires 16 * n <= |data|
    ensures Fold4(m, v, data, n)
         == Lanes4(Folded(m.round, v.v1, LaneWords(data, 0, n)), Folded(m.round, v.v2, LaneWords(data, 1, n)),
                   Folded(m.round, v.v3, LaneWords(data, 2, n)), Folded(m.round, v.v4, LaneWords(data, 3, n)))
  {
    hide Fold4, Folded, LaneWords;
    LaneFolded(m, v, data, n, 0);
    LaneFolded(m, v, data, n, 1);
    LaneFolded(m, v, data, n, 2);
    LaneFolded(m, v, data, n, 3);
  }

  function WordOf(data: Bytes, j: nat, i: nat): nat
    requires 16 * i + 16 <= |data| && j < 4
  {
    Read(data[16 * i + 4 * j..16 * i + 4 * j + 4])
  }

  lemma OneWordMore(m: Mixer, h: nat, data: Bytes, j: nat, n: nat)
    requires 0 < n && 16 * n <= |data| && j < 4
    ensures Folded(m.round, h, LaneWords(data, j, n)) == m.round(Folded(m.round, h, LaneWords(data, j, n - 1)), WordOf(data, j, n - 1))
  {
    hide Read;
    assert LaneWords(data, j, n)[..n - 1] == LaneWords(data, j, n - 1);
  }

  lemma RoundWords(m: Mixer, v: Lanes4, data: Bytes, n: nat)
    requires 0 < n && 16 * n <= |data|
    ensures Round4(m, v, data[16 * (n - 1)..16 * (n - 1) + STRIPE])
         == Lanes4(m.round(v.v1, WordOf(data, 0, n - 1)), m.round(v.v2, WordOf(data, 1, n - 1)),
                   m.round(v.v3, WordOf(data, 2, n - 1)), m.round(v.v4, WordOf(data, 3, n - 1)))
  {
    hide Read;
    var o := 16 * (n - 1);
    var s := data[o..o + STRIPE];
    SubSlice(data, o, 16, 0, 4);
    SubSlice(data, o, 16, 4, 4);
    SubSlice(data, o, 16, 8, 4);
    SubSlice(data, o, 16, 12, 4);
    assert s[..4] == s[0..4] && s[12..] == s[12..16];
  }

  /** The whole hash: four folds from the four seeds over every fourth word, or the short start, then
      the length, then the rest of the input. */
  lemma HashInWords(m: Mixer, seed: U32, input: Bytes)
    ensures var n, P1, P2 := |input| / 16, 0x9E3779B1, 0x85EBCA77;
      var lanes := Lanes4(Folded(m.round, (seed + P1 + P2) % TWO32, LaneWords(input, 0, n)),
                          Folded(m.round, (seed + P2) % TWO32, LaneWords(input, 1, n)),
                          Folded(m.round, seed, LaneWords(input, 2, n)),
                          Folded(m.round, (seed + TWO32 - P1) % TWO32, LaneWords(input, 3, n)));
      var h := if |input| >= 16 then m.converge(lanes) else (seed + 0x165667B1) % TWO32;
      var start, r := (h + |input|) % TWO32, input[16 * n..];
      Hash32(m, seed, input)
        == m.avalanche(Folded(m.step1, Folded(m.step4, start, Words4(r, |r| / 4)), Singles(r[4 * (|r| / 4)..])))
  {
    hide Folded, LaneWords, Fold4, Tail4;
    LanesFolded(m, Seeded(seed), input, |input| / 16);
    Tail4Folded(m, Wrap32((if |input| >= STRIPE then m.converge(LanesOf(m, seed, input)) else Wrap32(seed + P5)) + |input|), Rest(input));
    SeedDown(seed);
  }

  lemma SeedDown(seed: U32)
    ensures Wrap32(seed - P1) == (seed + TWO32 - P1) % TWO32
  {
    var x := seed - P1;
    ModUnique(x + TWO32, TWO32, x / TWO32 + 1, x % TWO32);
  }
}
