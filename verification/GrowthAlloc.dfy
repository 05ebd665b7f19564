/** alloc-inl.h: buffers that grow to the next power of two.  Machine words are sequences of 64
    bits, the lowest first, wherever the code shifts and ors them. */
module GrowthAlloc {
  import opened Memory
  import opened Binary
  import LE = LittleEndian

  const WORD: nat := 64
  const INITIAL_GROWTH_SIZE: nat := 64
  const HEADER: nat := 8   // AFL_ALLOC_SIZE_OFFSET

  /** A word that wraps round. */
  function Wrap(x: int): (w: nat)
    ensures w < Pow2(64)
  {
    assert Pow2(64) > 0;
    x % Pow2(64)
  }

  /** b | b >> s. */
  function OrShifted(b: Bits, s: nat): (r: Bits)
    ensures |r| == |b|
  {
    seq(|b|, i requires 0 <= i < |b| => b[i] || (i + s < |b| && b[i + s]))
  }

  /** The code's six lines. */
  method NextPow2(in_: nat) returns (r: nat)
    requires in_ < Pow2(64)
    ensures r == Rounded(in_)
  {
    hide Pow2, OrShifted, Window, Val, Wrap, ToBits;
    var out := ToBits(Wrap(in_ - 1), WORD);
    ghost var b := out;
    WindowOne(b);
    WindowDoubles(b, 1);
    out := OrShifted(out, 1);
    WindowDoubles(b, 2);
    out := OrShifted(out, 2);
    WindowDoubles(b, 4);
    out := OrShifted(out, 4);
    WindowDoubles(b, 8);
    out := OrShifted(out, 8);
    WindowDoubles(b, 16);
    out := OrShifted(out, 16);
    r := Wrap(Val(out) + 1);
  }

  predicate SetIn(b: Bits, lo: nat, n: nat) {
    exists j :: lo <= j < lo + n && j < |b| && b[j]
  }

  /** Each bit ored with the n - 1 bits above it. */
  function Window(b: Bits, n: nat): (r: Bits)
    ensures |r| == |b|
  {
    seq(|b|, i requires 0 <= i => SetIn(b, i, n))
  }

  /** What the shifts by 1, 2, 4, 8 and 16 amount to: 32 bits are ored together, and no more. */
  function Rounded(x: nat): nat {
    Wrap(Val(Window(ToBits(Wrap(x - 1), WORD), 32)) + 1)
  }

  lemma WindowOne(b: Bits)
    ensures Window(b, 1) == b
  {
    forall i | 0 <= i < |b|
      ensures Window(b, 1)[i] == b[i]
    {
      if b[i] { assert SetIn(b, i, 1); }
    }
  }

  lemma WindowDoubles(b: Bits, n: nat)
    ensures OrShifted(Window(b, n), n) == Window(b, n + n)
  {
    forall i | 0 <= i < |b|
      ensures OrShifted(Window(b, n), n)[i] == Window(b, n + n)[i]
    {
      if SetIn(b, i, n + n) {
        var j :| i <= j < i + n + n && j < |b| && b[j];
        if j < i + n { assert SetIn(b, i, n); } else { assert SetIn(b, i + n, n); }
      }
    }
  }

  // ---- rounding up to a power of two --------------------------------------------------------------

  predicate NoneFrom(b: Bits, m: nat) {
    forall i :: m <= i < |b| ==> !b[i]
  }

  predicate AllBelow(b: Bits, m: nat) {
    forall i :: 0 <= i < m && i < |b| ==> b[i]
  }

  lemma {:induction false} ValFull(b: Bits, m: nat)
    requires m <= |b| && NoneFrom(b, m)
    ensures Val(b) < Pow2(m)
    ensures Val(b) == Pow2(m) - 1 <==> AllBelow(b, m)
    ensures m > 0 && b[m - 1] ==> Val(b) >= Pow2(m - 1)
  {
    if b != [] {
      var t := b[1..];
      if m == 0 {
        assert NoneFrom(t, 0);
        ValFull(t, 0);
      } else {
        assert NoneFrom(t, m - 1);
        ValFull(t, m - 1);
        assert AllBelow(b, m) <==> b[0] && AllBelow(t, m - 1) by {
          if AllBelow(b, m) { assert forall i :: 0 <= i < m - 1 && i < |t| ==> t[i] == b[i + 1]; }
          if b[0] && AllBelow(t, m - 1) {
            forall i | 0 <= i < m && i < |b| ensures b[i] { if i > 0 { assert b[i] == t[i - 1]; } }
          }
        }
        if m > 1 { assert b[m - 1] == t[m - 2]; }
      }
    }
  }

  /** The top bit of x. */
  lemma {:induction false} TopBit(x: nat, n: nat, k: nat)
    requires Pow2(k) <= x < Pow2(k + 1) && k < n
    ensures ToBits(x, n)[k] && NoneFrom(ToBits(x, n), k + 1)
  {
    if k == 0 {
      ZeroBits(n - 1);
    } else {
      TopBit(x / 2, n - 1, k - 1);
      forall i | k + 1 <= i < n ensures !ToBits(x, n)[i] { assert ToBits(x, n)[i] == ToBits(x / 2, n - 1)[i - 1]; }
    }
  }

  lemma {:induction false} ZeroBits(n: nat)
    ensures NoneFrom(ToBits(0, n), 0)
  {
    if n > 0 { ZeroBits(n - 1); }
  }

  lemma {:induction false} Magnitude(x: nat, n: nat) returns (k: nat)
    requires 1 <= x < Pow2(n)
    ensures k < n && Pow2(k) <= x < Pow2(k + 1)
  {
    if x < Pow2(n - 1) { k := Magnitude(x, n - 1); } else { k := n - 1; }
  }

  lemma {:induction false} ValGrows(b: Bits, c: Bits)
    requires |b| == |c| && forall i :: 0 <= i < |b| && b[i] ==> c[i]
    ensures Val(b) <= Val(c)
  {
    if b != [] { ValGrows(b[1..], c[1..]); }
  }

  ghost predicate IsLeastPow2(x: nat, r: nat) {
    exists k: nat :: LeastAt(x, r, k)
  }

  predicate LeastAt(x: nat, r: nat, k: nat) {
    r == Pow2(k) && x <= r && (k > 0 ==> Pow2(k - 1) < x)
  }

  /** No 32 clear bits in a row below a set one. */
  predicate Gapless(b: Bits) {
    forall i, j :: 0 <= i <= j < |b| && b[j] ==> SetIn(b, i, 32)
  }

  lemma WindowOf(b: Bits, k: nat)
    requires k < |b| && b[k] && NoneFrom(b, k + 1)
    ensures var w := Window(b, 32); NoneFrom(w, k + 1) && w[k] && (AllBelow(w, k + 1) <==> Gapless(b))
    ensures Val(b) <= Val(Window(b, 32))
    ensures k < 32 ==> Gapless(b)
  {
    var w := Window(b, 32);
    assert SetIn(b, k, 32);
    forall i | 0 <= i < |b| && b[i] ensures w[i] { assert SetIn(b, i, 32); }
    ValGrows(b, w);
    if AllBelow(w, k + 1) {
      forall i, j | 0 <= i <= j < |b| && b[j] ensures SetIn(b, i, 32) { assert w[i]; }
    }
    if Gapless(b) {
      forall i | 0 <= i < k + 1 && i < |w| ensures w[i] { assert SetIn(b, i, 32); }
    }
    if k < 32 {
      forall i, j | 0 <= i <= j < |b| && b[j] ensures SetIn(b, i, 32) { assert b[k]; }
    }
  }

  /** next_pow2 gives the least power of two that is not below its argument exactly when one less
      than the argument has no 32 clear bits in a row below a set one, so always up to 2^32: a
      shift by 32 is missing.  It never gives less than its argument. */
  lemma RoundsUp(x: nat)
    requires 1 <= x <= Pow2(63)
    ensures IsLeastPow2(x, Rounded(x)) <==> Gapless(ToBits(x - 1, WORD))
    ensures x <= Rounded(x)
    ensures x <= Pow2(32) ==> Gapless(ToBits(x - 1, WORD))
  {
    hide Gapless, Window, ToBits, Val, Pow2, AllBelow, NoneFrom;
    var y, b := x - 1, ToBits(x - 1, WORD);
    Pow2Monotone(63, 64);
    WrapSmall(y);
    if y == 0 {
      OneRoundsToOne(x);
    } else {
      var k := Magnitude(y, 63);
      TopBit(y, WORD, k);
      ValOfBits(y, WORD);
      WindowOf(b, k);
      var w := Window(b, 32);
      ValFull(w, k + 1);
      Pow2Monotone(k + 1, 63);
      WrapSmall(Val(w) + 1);
      LeastOnly(x, Rounded(x), k + 1);
      if x <= Pow2(32) && 32 <= k { Pow2Monotone(32, k); }
    }
  }

  /** Below the argument it never goes, except for the 0 that stands for an overflow. */
  lemma NeverBelow(x: nat)
    requires 1 <= x < Pow2(64)
    ensures Rounded(x) == 0 || x <= Rounded(x)
  {
    hide Pow2, ToBits;
    var b := ToBits(x - 1, WORD);
    var w := Window(b, 32);
    WrapSmall(x - 1);
    ValOfBits(x - 1, WORD);
    forall i | 0 <= i < |b| && b[i] ensures w[i] { assert SetIn(b, i, 32); }
    ValGrows(b, w);
    ValFull(w, WORD);
    WrapOrZero(Val(w) + 1);
  }

  lemma WrapOrZero(v: nat)
    requires v <= Pow2(64)
    ensures Wrap(v) == if v == Pow2(64) then 0 else v
  {
    hide Pow2, Wrap;
    if v == Pow2(64) { WrapAround(); } else { WrapSmall(v); }
  }

  lemma WrapAround()
    ensures Wrap(Pow2(64)) == 0
  {
    hide Pow2;
  }

  /** Where the least power of two is 2^64, the result is the 0 that stands for an overflow under the
      same condition. */
  lemma OverflowIsZero(x: nat)
    requires Pow2(63) < x < Pow2(64)
    ensures Rounded(x) == 0 <==> Gapless(ToBits(x - 1, WORD))
  {
    hide Gapless, Window, ToBits, Val, Pow2, AllBelow, NoneFrom;
    var y, b := x - 1, ToBits(x - 1, WORD);
    WrapSmall(y);
    TopBit(y, WORD, 63);
    WindowOf(b, 63);
    var w := Window(b, 32);
    ValFull(w, WORD);
    WrapAround();
    if Val(w) + 1 < Pow2(64) { WrapSmall(Val(w) + 1); }
  }

  lemma LeastOnly(x: nat, r: nat, k: nat)
    requires k > 0 && Pow2(k - 1) < x && Pow2(k - 1) < r && x <= r <= Pow2(k)
    ensures IsLeastPow2(x, r) <==> r == Pow2(k)
  {
    if r == Pow2(k) { assert LeastAt(x, r, k); }
    if m: nat :| LeastAt(x, r, m) {
      if m < k { Pow2Monotone(m, k - 1); }
      if k < m { Pow2Monotone(k, m); }
    }
  }

  lemma WrapSmall(x: int)
    requires 0 <= x < Pow2(64)
    ensures Wrap(x) == x
  {
    hide Pow2;
    LE.ModUnique(x, Pow2(64), 0, x);
  }

  lemma NoneInWindow(b: Bits)
    requires NoneFrom(b, 0)
    ensures NoneFrom(Window(b, 32), 0)
  {
  }

  lemma OneRoundsToOne(x: nat)
    requires x == 1
    ensures Rounded(x) == 1 && IsLeastPow2(x, 1) && Gapless(ToBits(x - 1, WORD))
  {
    assert Pow2(0) == 1 && 1 < Pow2(64);
    hide Pow2, ToBits;
    WrapSmall(x - 1);
    var b := ToBits(x - 1, WORD);
    ZeroBits(WORD);
    NoneInWindow(b);
    hide Window;
    ValFull(Window(b, 32), 0);
    WrapSmall(1);
    assert LeastAt(1, 1, 0);
  }

  /** Above 2^32 it can fail. */
  lemma RoundingFails()
    ensures !IsLeastPow2(Pow2(40) + 1, Rounded(Pow2(40) + 1))
  {
    hide Pow2, Val, ToBits, Window;
    Pow2Monotone(40, 41);
    Pow2Monotone(41, 63);
    Pow2Monotone(41, 64);
    TopBit(Pow2(40), WORD, 40);
    LowBits(40, WORD);
    RoundsUp(Pow2(40) + 1);
    var b := ToBits(Pow2(40), WORD);
    assert !SetIn(b, 0, 32);
  }

  lemma {:induction false} LowBits(k: nat, n: nat)
    requires k < n
    ensures forall i :: 0 <= i < k ==> !ToBits(Pow2(k), n)[i]
  {
    if k > 0 {
      LowBits(k - 1, n - 1);
      forall i | 0 <= i < k
        ensures !ToBits(Pow2(k), n)[i]
      {
        if i > 0 { assert ToBits(Pow2(k), n)[i] == ToBits(Pow2(k - 1), n - 1)[i - 1]; }
      }
    }
  }

  // ---- the buffer -------------------------------------------------------------------------------------

  function Sum(s: seq<nat>): nat {
    if s == [] then 0 else Sum(s[..|s| - 1]) + s[|s| - 1]
  }

  predicate Doubling(s: seq<nat>) {
    forall i :: 0 < i < |s| ==> s[i] >= 2 * s[i - 1]
  }

  /** Geometric growth: all sizes together are at most twice the last. */
  lemma {:induction false} SumBound(s: seq<nat>)
    requires Doubling(s) && s != []
    ensures Sum(s) <= 2 * s[|s| - 1]
  {
    if |s| > 1 { SumBound(s[..|s| - 1]); }
  }

  /** The size a reallocation asks for, header included. */
  function NextSize(needed: nat): nat {
    if needed < INITIAL_GROWTH_SIZE then INITIAL_GROWTH_SIZE
    else if Rounded(needed) == 0 then needed else Rounded(needed)
  }

  /** A request for no bytes is served like any other: it does not free the buffer. */
  lemma ZeroIsServed()
    ensures NextSize(0 + HEADER) == INITIAL_GROWTH_SIZE
  {
  }

  lemma NextSizeCovers(needed: nat)
    requires needed < Pow2(64)
    ensures NextSize(needed) >= needed && NextSize(needed) >= INITIAL_GROWTH_SIZE
  {
    if needed >= INITIAL_GROWTH_SIZE {
      hide Rounded, Pow2;
      NeverBelow(needed);
    }
  }

  /** What is asked for is the smallest power of two with room for the request, exactly when the size
      is one that next_pow2 rounds right; the smallest requests get 64 bytes. */
  ghost predicate Fitted(needed: nat, size: nat) {
    && (needed < INITIAL_GROWTH_SIZE ==> size == 64)
    && (INITIAL_GROWTH_SIZE <= needed <= Pow2(63) ==> (IsLeastPow2(needed, size) <==> Gapless(ToBits(needed - 1, WORD))))
    && (INITIAL_GROWTH_SIZE <= needed <= Pow2(32) ==> IsLeastPow2(needed, size))
    && (Pow2(63) < needed && Gapless(ToBits(needed - 1, WORD)) ==> size == needed)
  }

  lemma NextSizeFits(needed: nat)
    requires 1 <= needed < Pow2(64)
    ensures Fitted(needed, NextSize(needed))
  {
    hide Rounded, Gapless, ToBits, IsLeastPow2;
    assert Pow2(6) == 64;
    hide Pow2;
    Pow2Monotone(6, 63);
    Pow2Monotone(32, 63);
    if INITIAL_GROWTH_SIZE <= needed <= Pow2(63) {
      RoundsUp(needed);
    } else if Pow2(63) < needed {
      OverflowIsZero(needed);
    }
  }

  /** It is less than twice the request, or 64. */
  lemma NextSizeBelowTwice(needed: nat)
    requires 1 <= needed <= Pow2(32)
    ensures NextSize(needed) == 64 || NextSize(needed) < 2 * needed
  {
    hide Rounded, Pow2;
    if INITIAL_GROWTH_SIZE <= needed {
      SmallIsGapless(needed);
      NextSizeFits(needed);
      var k: nat :| LeastAt(needed, NextSize(needed), k);
      Pow2Step(k);
    }
  }

  ghost predicate IsPow2(n: nat) { exists k: nat :: n == Pow2(k) }

  /** Outgrowing a power of two at least doubles it. */
  lemma NextSizeDoubles(needed: nat, current: nat)
    requires INITIAL_GROWTH_SIZE <= needed <= Pow2(63) && Gapless(ToBits(needed - 1, WORD))
    requires current == 0 || (IsPow2(current) && current < needed)
    ensures IsPow2(NextSize(needed)) && NextSize(needed) >= 2 * current
  {
    hide Rounded, Gapless, ToBits, Pow2;
    RoundsUp(needed);
    var k: nat :| LeastAt(needed, Rounded(needed), k);
    if current > 0 {
      var c: nat :| current == Pow2(c);
      NextPower(c, k);
    }
  }

  lemma NextPower(c: nat, k: nat)
    requires Pow2(c) < Pow2(k)
    ensures 2 * Pow2(c) <= Pow2(k)
  {
    if k <= c { Pow2Monotone(k, c); } else { Pow2Monotone(c + 1, k); }
  }

  lemma FirstIsPow2()
    ensures IsPow2(INITIAL_GROWTH_SIZE)
  {
    assert Pow2(6) == 64;
  }

  lemma SmallIsGapless(needed: nat)
    requires 1 <= needed <= Pow2(32)
    ensures needed <= Pow2(63) && needed < Pow2(64) && Gapless(ToBits(needed - 1, WORD))
  {
    Pow2Monotone(32, 63);
    Pow2Monotone(63, 64);
    hide Pow2;
    RoundsUp(needed);
  }

  /** Any sequence of requests of at most 2^32 bytes, each with whether realloc succeeds: all that was
      allocated for what is there now is at most twice its size, and as long as realloc does not fail
      every request is covered. */
  method ServeAll(requests: seq<(nat, bool)>) returns (p: Pointer)
    requires forall i :: 0 <= i < |requests| ==> requests[i].0 + HEADER <= Pow2(32)
    ensures p.Amortised() && Sum(p.sizes) <= 2 * p.Complete()
    ensures p.Complete() <= 64 || exists i :: 0 <= i < |requests| && p.Complete() < 2 * (requests[i].0 + HEADER)
    ensures (forall i :: 0 <= i < |requests| ==> requests[i].1) ==>
      forall i :: 0 <= i < |requests| ==> p.Complete() >= requests[i].0 + HEADER
  {
    hide Pow2, Gapless, ToBits, Fitted, NextSize;
    p := new Pointer();
    for i := 0 to |requests|
      invariant fresh(p) && p.Amortised()
      invariant p.Complete() <= 64 || exists k :: 0 <= k < i && p.Complete() < 2 * (requests[k].0 + HEADER)
      invariant (forall k :: 0 <= k < i ==> requests[k].1) ==>
        forall k :: 0 <= k < i ==> p.Complete() >= requests[k].0 + HEADER
    {
      SmallIsGapless(requests[i].0 + HEADER);
      NextSizeCovers(requests[i].0 + HEADER);
      NextSizeBelowTwice(requests[i].0 + HEADER);
      var ok := p.Realloc(requests[i].0, requests[i].1);
    }
    p.AmortisedCost();
  }

  /** The pointer that afl_realloc is given. */
  class Pointer {
    var buf: array?<bv8>     // the contents; the header in front of them holds their size
    ghost var sizes: seq<nat>  // of all the allocations made for the contents now there

    constructor ()
      ensures buf == null && sizes == [] && Amortised()
    {
      buf, sizes := null, [];
    }

    /** complete_size, or 0 for a null pointer. */
    function Complete(): nat
      reads this
    {
      if buf == null then 0 else buf.Length + HEADER
    }

    ghost function Content(): seq<bv8>
      reads this, buf
    {
      if buf == null then [] else buf[..]
    }

    ghost predicate Amortised()
      reads this
    {
      if buf == null then sizes == []
      else sizes != [] && Doubling(sizes) && sizes[|sizes| - 1] == Complete() >= INITIAL_GROWTH_SIZE && IsPow2(Complete())
    }

    /** All that was ever allocated for the contents is at most twice what they occupy now. */
    lemma AmortisedCost()
      requires Amortised()
      ensures Sum(sizes) <= 2 * Complete()
    {
      if buf != null { SumBound(sizes); }
    }

    /** afl_realloc; mallocOk says whether realloc succeeds.  The amortisation survives each request
        whose size next_pow2 rounds exactly. */
    method Realloc(sizeNeeded: nat, mallocOk: bool) returns (ok: bool)
      requires sizeNeeded + HEADER < Pow2(64)
      modifies this
      ensures ok <==> old(Complete()) >= sizeNeeded + HEADER || mallocOk
      ensures ok <==> buf != null
      ensures ok ==> buf.Length >= sizeNeeded
      ensures old(Complete()) >= sizeNeeded + HEADER ==> buf == old(buf) && sizes == old(sizes)
      ensures old(Complete()) < sizeNeeded + HEADER && ok ==>
        fresh(buf) && Complete() == NextSize(sizeNeeded + HEADER) && Fitted(sizeNeeded + HEADER, Complete())
        && Content() == old(Content()) + seq(|Content()| - |old(Content())|, _ => 0)
      ensures old(Amortised()) && sizeNeeded + HEADER <= Pow2(63)
        && (sizeNeeded + HEADER < INITIAL_GROWTH_SIZE || Gapless(ToBits(sizeNeeded + HEADER - 1, WORD)))
        ==> Amortised()
    {
      hide Pow2, Rounded, Gapless, ToBits;
      var currentSize := if buf == null then 0 else buf.Length + HEADER;
      var needed := sizeNeeded + HEADER;
      if currentSize >= needed { return true; }
      NextSizeCovers(needed);
      NextSizeFits(needed);
      hide Fitted;
      var nextSize: nat;
      if needed < INITIAL_GROWTH_SIZE {
        nextSize := INITIAL_GROWTH_SIZE;
      } else {
        nextSize := NextPow2(needed);
        if nextSize == 0 { nextSize := needed; }
      }
      if !mallocOk {
        buf, sizes := null, [];
        return false;
      }
      FirstIsPow2();
      if Gapless(ToBits(needed - 1, WORD)) && INITIAL_GROWTH_SIZE <= needed <= Pow2(63) && Amortised() {
        NextSizeDoubles(needed, currentSize);
      }
      MoveTo(nextSize);
      ok := true;
    }

    /** realloc: the old contents in front of zeros in a new block. */
    method MoveTo(nextSize: nat)
      requires Complete() < nextSize && HEADER <= nextSize
      modifies this
      ensures buf != null && fresh(buf) && Complete() == nextSize && sizes == old(sizes) + [nextSize]
      ensures Content() == old(Content()) + seq(|Content()| - |old(Content())|, _ => 0)
    {
      var block := new bv8[nextSize - HEADER](_ => 0);
      if buf != null { MemCpy(block, 0, buf[..]); }
      buf := block;
      sizes := sizes + [nextSize];
    }
  }
}
