/** XXH64: the one-shot hash, its finalizer, and the streaming state. */
module Xxh64 {
  import opened LittleEndian
  import opened Memory
  import opened XxhLanes

  const P1: nat := 0x9E3779B185EBCA87
  const P2: nat := 0xC2B2AE3D27D4EB4F
  const P5: nat := 0x27D4EB2F165667C5
  const STRIPE: nat := 32

  function Seeded(seed: U64): Lanes4 {
    Lanes4(Wrap64(seed + P1 + P2), Wrap64(seed + P2), seed, Wrap64(seed - P1))
  }

  /** One stripe of four 8-byte words. */
  function Round4(m: Mixer, v: Lanes4, s: Bytes): Lanes4
    requires |s| == STRIPE
  {
    Lanes4(m.round(v.v1, Read(s[..8])), m.round(v.v2, Read(s[8..16])),
           m.round(v.v3, Read(s[16..24])), m.round(v.v4, Read(s[24..])))
  }

  /** The lanes after the first n stripes of data. */
  function Fold4(m: Mixer, v: Lanes4, data: Bytes, n: nat): Lanes4
    requires STRIPE * n <= |data|
  {
    if n == 0 then v
    else Round4(m, Fold4(m, v, data, n - 1), data[STRIPE * (n - 1)..STRIPE * (n - 1) + STRIPE])
  }

  /** Folding looks only at the stripes it is asked for. */
  lemma {:induction false} FoldPrefix(m: Mixer, v: Lanes4, data: Bytes, more: Bytes, n: nat)
    requires STRIPE * n <= |data| && STRIPE * n <= |more|
    requires data[..STRIPE * n] == more[..STRIPE * n]
    ensures Fold4(m, v, data, n) == Fold4(m, v, more, n)
  {
    hide Round4;
    if n > 0 {
      var a, b := STRIPE * (n - 1), STRIPE * n;
      assert data[..a] == data[..b][..a] == more[..a];
      FoldPrefix(m, v, data, more, n - 1);
      assert data[a..a + STRIPE] == data[..b][a..] == more[a..a + STRIPE];
    }
  }

  /** The whole stripes of an input and what is left over. */
  function Whole(len: nat): (n: nat)
    ensures STRIPE * n <= len < STRIPE * n + STRIPE
  {
    len / STRIPE
  }

  lemma WholeIs(len: nat, n: nat)
    requires STRIPE * n <= len < STRIPE * n + STRIPE
    ensures n == Whole(len)
  {
  }

  function Rest(input: Bytes): (b: Bytes)
    ensures |b| < STRIPE
  {
    input[STRIPE * Whole(|input|)..]
  }

  function LanesOf(m: Mixer, seed: U64, input: Bytes): Lanes4 {
    Fold4(m, Seeded(seed), input, Whole(|input|))
  }

  lemma NothingFed(m: Mixer, seed: U64)
    ensures LanesOf(m, seed, []) == Seeded(seed) && Rest([]) == [] && Wrap64(0) == 0
  {
    hide Seeded;
  }

  function Hash64(m: Mixer, seed: U64, input: Bytes): nat {
    var h := if |input| >= STRIPE then m.converge(LanesOf(m, seed, input)) else Wrap64(seed + P5);
    Tail8(m, Wrap64(h + |input|), Rest(input))
  }

  /** XXH64_finalize; only the low five bits of the length matter. */
  method Finalize(m: Mixer, hash: nat, ptr: Bytes, len: nat) returns (r: nat)
    requires len % STRIPE <= |ptr|
    ensures r == Tail8(m, hash, ptr[..len % STRIPE])
  {
    hide Tail8, Tail1;
    var end: nat := len % STRIPE;
    var left: nat := end;
    var p: nat := 0;
    var h := hash;
    assert ptr[p..end] == ptr[..end];
    while left >= 8
      invariant p + left == end
      invariant Tail8(m, h, ptr[p..end]) == Tail8(m, hash, ptr[..end])
    {
      Tail8Step(m, h, ptr, p, end);
      h := m.step8(h, Read(ptr[p..p + 8]));
      p, left := p + 8, left - 8;
    }
    Tail8Four(m, h, ptr, p, end);
    if left >= 4 {
      h := m.step4(h, Read(ptr[p..p + 4]));
      p, left := p + 4, left - 4;
    }
    while left > 0
      invariant p + left == end
      invariant Tail1(m, h, ptr[p..end]) == Tail8(m, hash, ptr[..end])
    {
      Tail1Step(m, h, ptr, p, end);
      h := m.step1(h, ptr[p] as nat);
      p, left := p + 1, left - 1;
    }
    Tail1Step(m, h, ptr, p, end);
    r := m.avalanche(h);
  }

  /** The stripe loop of XXH64_endian_align. */
  method RoundAll(m: Mixer, seed: U64, input: Bytes) returns (v: Lanes4, p: nat)
    requires |input| >= STRIPE
    ensures v == LanesOf(m, seed, input) && p == STRIPE * Whole(|input|)
  {
    var limit := |input| - 31;
    hide Seeded, Fold4, Round4, Whole;
    v, p := Seeded(seed), 0;
    ghost var n: nat := 0;
    FoldNone(m, v, input);
    while p < limit  // the source tests after the body; here the first test always passes
      invariant p == STRIPE * n && p <= |input|
      invariant v == Fold4(m, Seeded(seed), input, n)
    {
      FoldStep(m, Seeded(seed), input, n, input[p..p + STRIPE]);
      v := Round4(m, v, input[p..p + STRIPE]);
      p, n := p + STRIPE, n + 1;
    }
    WholeIs(|input|, n);
  }

  /** XXH64_endian_align: the one-shot hash. */
  method OneShot(m: Mixer, seed: U64, input: Bytes) returns (r: nat)
    ensures r == Hash64(m, seed, input)
  {
    hide Wrap64, Seeded, LanesOf, Tail8, Hash64, Rest, Whole;
    var h64: nat;
    var p: nat := 0;
    if |input| >= STRIPE {
      var v: Lanes4;
      v, p := RoundAll(m, seed, input);
      h64 := m.converge(v);
    } else {
      h64 := Wrap64(seed + P5);
    }
    h64 := Wrap64(h64 + |input|);
    TailIsRest(input, p);
    r := Finalize(m, h64, input[p..], |input|);
    HashParts(m, seed, input);
  }

  lemma TailIsRest(input: Bytes, p: nat)
    requires p == if |input| >= STRIPE then STRIPE * Whole(|input|) else 0
    ensures p <= |input| && |input[p..]| == |input| % STRIPE && input[p..] == Rest(input)
    ensures |input| % STRIPE % STRIPE == |input| % STRIPE
    ensures input[p..][..|input| % STRIPE] == Rest(input)
  {
  }

  lemma HashParts(m: Mixer, seed: U64, input: Bytes)
    ensures Hash64(m, seed, input)
         == Tail8(m, Wrap64((if |input| >= STRIPE then m.converge(LanesOf(m, seed, input)) else Wrap64(seed + P5)) + |input|), Rest(input))
  {
  }

  lemma FoldNone(m: Mixer, v: Lanes4, input: Bytes)
    ensures Fold4(m, v, input, 0) == v
  {
  }

  /** Until the first stripe the third lane is still the seed. */
  lemma SeedKept(m: Mixer, seed: U64, input: Bytes)
    requires |input| < STRIPE
    ensures LanesOf(m, seed, input).v3 == seed
  {
  }

  /** Bringing a state from whole stripe count a to b over a longer input. */
  lemma FoldStep(m: Mixer, v: Lanes4, input: Bytes, n: nat, stripe: Bytes)
    requires STRIPE * (n + 1) <= |input| && stripe == input[STRIPE * n..STRIPE * n + STRIPE]
    ensures Fold4(m, v, input, n + 1) == Round4(m, Fold4(m, v, input, n), stripe)
  {
  }

  class Xxh64State {
    const m: Mixer
    var v: Lanes4
    const mem64: array<Byte>
    var memsize: nat
    var totalLen: U64

    ghost var seed: U64
    ghost var fed: Bytes

    /** The lanes hold the whole stripes, the buffer the rest. */
    ghost predicate Buffered()
      reads this, mem64
    {
      && mem64.Length == STRIPE
      && memsize == |fed| % STRIPE
      && v == LanesOf(m, seed, fed)
      && mem64[..memsize] == Rest(fed)
    }

    ghost predicate Valid()
      reads this, mem64
    {
      && Buffered()
      && totalLen == Wrap64(|fed|)
    }

    /** XXH64_reset on a fresh state. */
    constructor (m: Mixer, seed: U64)
      ensures Valid() && fresh(mem64) && this.m == m && this.seed == seed && fed == []
    {
      this.m := m;
      v := Seeded(seed);
      mem64 := new Byte[STRIPE](_ => 0);
      memsize, totalLen := 0, 0;
      this.seed, fed := seed, [];
      new;
      hide Valid, Seeded;
      NothingYet();
    }

    lemma NothingYet()
      requires mem64.Length == STRIPE && memsize == 0 && totalLen == 0 && fed == [] && v == Seeded(seed)
      ensures Valid()
    {
      hide Wrap64, Seeded, LanesOf, Rest;
      NothingFed(m, seed);
    }

    /** XXH64_reset. */
    method Reset(seed: U64)
      requires Valid()
      modifies this, mem64
      ensures Valid() && this.seed == seed && fed == []
    {
      hide Wrap64, Seeded, LanesOf, Rest;
      NothingFed(m, seed);
      forall i | 0 <= i < mem64.Length { mem64[i] := 0; }
      v := Seeded(seed);
      memsize, totalLen := 0, 0;
      this.seed, fed := seed, [];
    }

    /** XXH64_update. */
    method Update(input: Bytes)
      requires Valid()
      modifies this, mem64
      ensures Valid() && seed == old(seed) && fed == old(fed) + input
    {
      hide Wrap64, LanesOf, Rest;
      Wrap64Add(|fed|, |input|);
      totalLen := Wrap64(totalLen + |input|);
      Feed(input);
    }

    method Feed(input: Bytes)
      requires Buffered()
      modifies this`v, this`memsize, this`fed, mem64
      ensures Buffered() && fed == old(fed) + input
    {
      hide Seeded, Fold4, Round4;
      if memsize + |input| < STRIPE {
        Buffer(memsize, input);
        SmallFeed(m, seed, fed, input);
        memsize := memsize + |input|;
      } else {
        var p: nat := 0;
        ghost var n := Whole(|fed|);
        if memsize != 0 {
          p, n := CompleteStripe(input);
        } else {
          FoldExtends(m, seed, fed, input, n);
        }
        p := ConsumeStripes(input, p, n);
        BufferRest(input, p);
      }
      fed := fed + input;
    }

    /** Fill the buffer from the input and take it as a stripe. */
    method CompleteStripe(input: Bytes) returns (p: nat, ghost n: nat)
      requires Buffered() && memsize + |input| >= STRIPE && memsize != 0
      modifies this`v, this`memsize, mem64
      ensures memsize == 0 && p == STRIPE - old(memsize) && STRIPE * n == |fed| + p
      ensures v == Fold4(m, Seeded(seed), fed + input, n)
    {
      hide Seeded, Fold4, Round4;
      p := STRIPE - memsize;
      n := Whole(|fed|);
      FoldExtends(m, seed, fed, input, n);
      Buffer(memsize, input[..p]);
      RestAt(fed);
      hide Rest, Whole, LanesOf;
      SliceAcross(fed, input, STRIPE * n, STRIPE);
      assert mem64[..] == mem64[..STRIPE];
      FoldStep(m, Seeded(seed), fed + input, n, mem64[..]);
      v := Round4(m, v, mem64[..]);
      memsize, n := 0, n + 1;
    }

    method ConsumeStripes(input: Bytes, p0: nat, ghost n0: nat) returns (p: nat)
      requires p0 <= |input| && |fed| + p0 == STRIPE * n0
      requires v == Fold4(m, Seeded(seed), fed + input, n0)
      modifies this`v
      ensures p <= |input| < p + STRIPE && (|fed| + p) % STRIPE == 0
      ensures v == LanesOf(m, seed, fed + input) && Rest(fed + input) == input[p..]
    {
      hide Seeded, Fold4, Round4, Rest, LanesOf, Whole;
      p := p0;
      ghost var n := n0;
      ghost var all := fed + input;
      while p + STRIPE <= |input|
        invariant p <= |input| && |fed| + p == STRIPE * n
        invariant v == Fold4(m, Seeded(seed), all, n)
      {
        SliceBehind(fed, input, p, STRIPE);
        FoldStep(m, Seeded(seed), all, n, input[p..p + STRIPE]);
        v := Round4(m, v, input[p..p + STRIPE]);
        p, n := p + STRIPE, n + 1;
      }
      ConsumedAll(m, seed, fed, input, p, n);
    }

    method BufferRest(input: Bytes, p: nat)
      requires mem64.Length == STRIPE && p <= |input| < p + STRIPE && memsize == 0
      modifies this`memsize, mem64
      ensures memsize == |input| - p && mem64[..memsize] == input[p..]
    {
      if p < |input| {
        Buffer(0, input[p..]);
        memsize := |input| - p;
      }
    }

    method Buffer(at: nat, src: Bytes)
      requires at + |src| <= mem64.Length
      modifies mem64
      ensures mem64[..at + |src|] == old(mem64[..at]) + src
    {
      MemCpy(mem64, at, src);
    }

    /** XXH64_digest: the one-shot hash, for any length that fits in 64 bits. */
    method Digest() returns (r: nat)
      requires Valid() && |fed| < TWO64
      ensures r == Hash64(m, seed, fed)
    {
      hide LanesOf, Wrap64, Rest, Tail8, Seeded, Hash64;
      Wrap64Small(|fed|);
      if |fed| < STRIPE { SeedKept(m, seed, fed); }
      var h64: nat;
      if totalLen >= STRIPE {
        h64 := m.converge(v);
      } else {
        h64 := Wrap64(v.v3 + P5);
      }
      h64 := Wrap64(h64 + totalLen);
      assert mem64[..][..memsize] == mem64[..memsize];
      r := Finalize(m, h64, mem64[..], totalLen);
      HashParts(m, seed, fed);
    }
  }

  lemma RestAt(fed: Bytes)
    ensures STRIPE * Whole(|fed|) <= |fed| && Rest(fed) == fed[STRIPE * Whole(|fed|)..]
    ensures |fed| - STRIPE * Whole(|fed|) == |fed| % STRIPE
  {
  }

  /** When less than a stripe is left, the lanes and the rest are those of all that was fed. */
  lemma ConsumedAll(m: Mixer, seed: U64, fed: Bytes, input: Bytes, p: nat, n: nat)
    requires |fed| + p == STRIPE * n && p <= |input| < p + STRIPE
    ensures (|fed| + p) % STRIPE == 0
    ensures Fold4(m, Seeded(seed), fed + input, n) == LanesOf(m, seed, fed + input) && Rest(fed + input) == input[p..]
  {
    hide Fold4, Seeded;
    SliceBehind(fed, input, p, 0);
    WholeIs(|fed + input|, n);
  }

  lemma FoldExtends(m: Mixer, seed: U64, fed: Bytes, input: Bytes, n: nat)
    requires n == Whole(|fed|)
    ensures Fold4(m, Seeded(seed), fed + input, n) == LanesOf(m, seed, fed)
  {
    hide Fold4, Seeded;
    assert fed[..STRIPE * n] == (fed + input)[..STRIPE * n];
    FoldPrefix(m, Seeded(seed), fed, fed + input, n);
  }

  lemma SmallFeed(m: Mixer, seed: U64, fed: Bytes, input: Bytes)
    requires |fed| % STRIPE + |input| < STRIPE
    ensures |fed + input| % STRIPE == |fed| % STRIPE + |input|
    ensures LanesOf(m, seed, fed + input) == LanesOf(m, seed, fed)
    ensures Rest(fed + input) == Rest(fed) + input
  {
    assert Whole(|fed + input|) == Whole(|fed|);
    FoldExtends(m, seed, fed, input, Whole(|fed|));
  }

  // ---- the hash in words -----------------------------------------------------------------------------

  /** The words of 8 bytes that lane j takes from the first n stripes: one of each. */
  function LaneWords(data: Bytes, j: nat, n: nat): (ws: seq<nat>)
    requires 32 * n <= |data| && j < 4
    ensures |ws| == n
  {
    seq(n, i requires 0 <= i < n => Read(data[32 * i + 8 * j..32 * i + 8 * j + 8]))
  }

  function Lane(v: Lanes4, j: nat): nat { if j == 0 then v.v1 else if j == 1 then v.v2 else if j == 2 then v.v3 else v.v4 }

  /** Each lane folds its own words. */
  lemma {:induction false} LaneFolded(m: Mixer, v: Lanes4, data: Bytes, n: nat, j: nat)
    requires 32 * n <= |data| && j < 4
    ensures Lane(Fold4(m, v, data, n), j) == Folded(m.round, Lane(v, j), LaneWords(data, j, n))
  {
    hide Round4, LaneWords, WordOf;
    if n == 0 {
      FoldNone(m, v, data);
      NoWords(m.round, Lane(v, j), LaneWords(data, j, 0));
    } else {
      LaneFolded(m, v, data, n - 1, j);
      FoldStep(m, v, data, n - 1, data[32 * (n - 1)..32 * (n - 1) + STRIPE]);
      hide Fold4, Folded;
      RoundWords(m, Fold4(m, v, data, n - 1), data, n);
      OneWordMore(m, Lane(v, j), data, j, n);
    }
  }

  lemma LanesFolded(m: Mixer, v: Lanes4, data: Bytes, n: nat)
    requires 32 * n <= |data|
    ensures Fold4(m, v, data, n)
         == Lanes4(Folded(m.round, v.v1, LaneWords(data, 0, n)), Folded(m.round, v.v2, LaneWords(data, 1, n)),
                   Folded(m.round, v.v3, LaneWords(data, 2, n)), Folded(m.round, v.v4, LaneWords(data, 3, n)))
  {
    hide Fold4, Folded, LaneWords;
    LaneFolded(m, v, data, n, 0);
    LaneFolded(m, v, data, n, 1);
    LaneFolded(m, v, data, n, 2);
    LaneFolded(m, v, data, n, 3);
  }

  function WordOf(data: Bytes, j: nat, i: nat): nat
    requires 32 * i + 32 <= |data| && j < 4
  {
    Read(data[32 * i + 8 * j..32 * i + 8 * j + 8])
  }

  lemma OneWordMore(m: Mixer, h: nat, data: Bytes, j: nat, n: nat)
    requires 0 < n && 32 * n <= |data| && j < 4
    ensures Folded(m.round, h, LaneWords(data, j, n)) == m.round(Folded(m.round, h, LaneWords(data, j, n - 1)), WordOf(data, j, n - 1))
  {
    hide Read;
    assert LaneWords(data, j, n)[..n - 1] == LaneWords(data, j, n - 1);
  }

  lemma RoundWords(m: Mixer, v: Lanes4, data: Bytes, n: nat)
    requires 0 < n && 32 * n <= |data|
    ensures Round4(m, v, data[32 * (n - 1)..32 * (n - 1) + STRIPE])
         == Lanes4(m.round(v.v1, WordOf(data, 0, n - 1)), m.round(v.v2, WordOf(data, 1, n - 1)),
                   m.round(v.v3, WordOf(data, 2, n - 1)), m.round(v.v4, WordOf(data, 3, n - 1)))
  {
    hide Read;
    var o := 32 * (n - 1);
    var s := data[o..o + STRIPE];
    SubSlice(data, o, 32, 0, 8);
    SubSlice(data, o, 32, 8, 8);
    SubSlice(data, o, 32, 16, 8);
    SubSlice(data, o, 32, 24, 8);
    assert s[..8] == s[0..8] && s[24..] == s[24..32];
  }

  /** The whole hash: four folds from the four seeds over every fourth word, or the short start, then
      the length, then the rest of the input. */
  lemma HashInWords(m: Mixer, seed: U64, input: Bytes)
    ensures var n, P1, P2 := |input| / 32, 0x9E3779B185EBCA87, 0xC2B2AE3D27D4EB4F;
      var lanes := Lanes4(Folded(m.round, (seed + P1 + P2) % TWO64, LaneWords(input, 0, n)),
                          Folded(m.round, (seed + P2) % TWO64, LaneWords(input, 1, n)),
                          Folded(m.round, seed, LaneWords(input, 2, n)),
                          Folded(m.round, (seed + TWO64 - P1) % TWO64, LaneWords(input, 3, n)));
      var h := if |input| >= 32 then m.converge(lanes) else (seed + 0x27D4EB2F165667C5) % TWO64;
      var start, r := (h + |input|) % TWO64, input[32 * n..];
      Hash64(m, seed, input)
        == (var r4 := r[8 * (|r| / 8)..];
            m.avalanche(Folded(m.step1, Folded(m.step4, Folded(m.step8, start, Words8(r, |r| / 8)), Words4(r4, |r4| / 4)), Singles(r4[4 * (|r4| / 4)..]))))
  {
    hide Folded, LaneWords, Fold4, Tail8;
    LanesFolded(m, Seeded(seed), input, |input| / 32);
    Tail8Folded(m, Wrap64((if |input| >= STRIPE then m.converge(LanesOf(m, seed, input)) else Wrap64(seed + P5)) + |input|), Rest(input));
    SeedDown(seed);
  }

  lemma SeedDown(seed: U64)
    ensures Wrap64(seed - P1) == (seed + TWO64 - P1) % TWO64
  {
    var x := seed - P1;
    ModUnique(x + TWO64, TWO64, x / TWO64 + 1, x % TWO64);
  }
}
