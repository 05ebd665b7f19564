/** What new-coverage detection means, byte by byte, and the history a virgin map stands for. */
module CoverageBytes {

  type Map = seq<bv8>

  function ClearByte(c: bv8, v: bv8): bv8 { v & !c }
  predicate AddsBits(c: bv8, v: bv8) { c & v != 0 }
  predicate FirstHit(c: bv8, v: bv8) { c != 0 && v == 0xff }

  ghost predicate Somewhere<T(!new)>(p: (T, T) -> bool, c: seq<T>, v: seq<T>)
    requires |c| == |v|
  {
    exists k :: 0 <= k < |c| && p(c[k], v[k])
  }

  /** Some byte of the trace has a bit that was never seen. */
  ghost predicate NewBits(current: Map, virgin: Map)
    requires |current| == |virgin|
  {
    Somewhere(AddsBits, current, virgin)
  }

  /** Some byte is hit that no trace ever hit. */
  ghost predicate NewByte(current: Map, virgin: Map)
    requires |current| == |virgin|
  {
    Somewhere(FirstHit, current, virgin)
  }

  ghost function Verdict(current: Map, virgin: Map): nat
    requires |current| == |virgin|
  {
    if NewByte(current, virgin) then 2 else if NewBits(current, virgin) then 1 else 0
  }

  function Cleared(current: Map, virgin: Map): (v: Map)
    requires |current| == |virgin|
    ensures |v| == |virgin|
  {
    seq(|virgin|, k requires 0 <= k < |virgin| => ClearByte(current[k], virgin[k]))
  }

  function Max(a: nat, b: nat): nat { if a < b then b else a }

  lemma FreshByteHasNewBits(c: bv8)
    ensures c != 0 ==> c & 0xff != 0
  {
  }

  /** Verdicts and updates of parts combine: it does not matter how the map is cut into words. */
  lemma VerdictAppend(c1: Map, v1: Map, c2: Map, v2: Map)
    requires |c1| == |v1| && |c2| == |v2|
    ensures Verdict(c1 + c2, v1 + v2) == Max(Verdict(c1, v1), Verdict(c2, v2))
    ensures Cleared(c1 + c2, v1 + v2) == Cleared(c1, v1) + Cleared(c2, v2)
  {
    var c, v, n := c1 + c2, v1 + v2, |c1|;
    NewAppend(c1, v1, c2, v2);
    assert NewByte(c1, v1) ==> NewBits(c1, v1) by { ByteIsBits(c1, v1); }
    hide NewBits, NewByte;
  }

  lemma ByteIsBits(c: Map, v: Map)
    requires |c| == |v|
    ensures NewByte(c, v) ==> NewBits(c, v)
  {
    if k :| 0 <= k < |c| && FirstHit(c[k], v[k]) {
      FreshByteHasNewBits(c[k]);
      assert AddsBits(c[k], v[k]);
    }
  }

  lemma SomewhereAppend<T(!new)>(p: (T, T) -> bool, c1: seq<T>, v1: seq<T>, c2: seq<T>, v2: seq<T>)
    requires |c1| == |v1| && |c2| == |v2|
    ensures Somewhere(p, c1 + c2, v1 + v2) <==> Somewhere(p, c1, v1) || Somewhere(p, c2, v2)
  {
    var c, v, n := c1 + c2, v1 + v2, |c1|;
    if k :| 0 <= k < |c1| && p(c1[k], v1[k]) { assert p(c[k], v[k]); }
    if k :| 0 <= k < |c2| && p(c2[k], v2[k]) { assert p(c[n + k], v[n + k]); }
    if k :| 0 <= k < |c| && p(c[k], v[k]) {
      if k < n { assert p(c1[k], v1[k]); } else { assert p(c2[k - n], v2[k - n]); }
    }
  }

  lemma NewAppend(c1: Map, v1: Map, c2: Map, v2: Map)
    requires |c1| == |v1| && |c2| == |v2|
    ensures NewBits(c1 + c2, v1 + v2) <==> NewBits(c1, v1) || NewBits(c2, v2)
    ensures NewByte(c1 + c2, v1 + v2) <==> NewByte(c1, v1) || NewByte(c2, v2)
  {
    SomewhereAppend(AddsBits, c1, v1, c2, v2);
    SomewhereAppend(FirstHit, c1, v1, c2, v2);
    hide Somewhere;
  }

  // ---- histories ------------------------------------------------------------------------

  function Virgin(n: nat): Map { seq(n, _ => 0xff) }

  predicate Sized(traces: seq<Map>, n: nat) {
    forall j :: 0 <= j < |traces| ==> |traces[j]| == n
  }

  /** The map after all traces, from a map never touched. */
  function After(traces: seq<Map>, n: nat): (v: Map)
    requires Sized(traces, n)
    ensures |v| == n
  {
    if traces == [] then Virgin(n)
    else Cleared(traces[|traces| - 1], After(traces[..|traces| - 1], n))
  }

  /** Every bit any trace has set in byte k. */
  function Seen(traces: seq<Map>, n: nat, k: nat): bv8
    requires Sized(traces, n) && k < n
  {
    if traces == [] then 0 else Seen(traces[..|traces| - 1], n, k) | traces[|traces| - 1][k]
  }

  /** The virgin map is the complement of everything seen. */
  lemma {:induction false} VirginIsHistory(traces: seq<Map>, n: nat, k: nat)
    requires Sized(traces, n) && k < n
    ensures After(traces, n)[k] == !Seen(traces, n, k)
  {
    if traces != [] {
      var m := |traces| - 1;
      VirginIsHistory(traces[..m], n, k);
      NotOr(Seen(traces[..m], n, k), traces[m][k]);
    } else {
      NotZero();
    }
  }

  lemma NotOr(a: bv8, b: bv8)
    ensures !a & !b == !(a | b)
  {
  }

  lemma NotZero()
    ensures !(0 as bv8) == 0xff
  {
  }

  ghost predicate EverHit(traces: seq<Map>, n: nat, k: nat)
    requires Sized(traces, n) && k < n
  {
    exists j :: 0 <= j < |traces| && traces[j][k] != 0
  }

  lemma {:induction false} SeenIffHit(traces: seq<Map>, n: nat, k: nat)
    requires Sized(traces, n) && k < n
    ensures Seen(traces, n, k) == 0 <==> !EverHit(traces, n, k)
  {
    if traces != [] {
      var m := |traces| - 1;
      SeenIffHit(traces[..m], n, k);
      OrZero(Seen(traces[..m], n, k), traces[m][k]);
      if EverHit(traces, n, k) {
        var j :| 0 <= j < |traces| && traces[j][k] != 0;
        if j < m { assert traces[..m][j][k] != 0; }
      }
      if EverHit(traces[..m], n, k) {
        var j :| 0 <= j < m && traces[..m][j][k] != 0;
        assert traces[j][k] != 0;
      }
    }
  }

  lemma OrZero(a: bv8, b: bv8)
    ensures a | b == 0 <==> a == 0 && b == 0
  {
  }

  lemma BitFacts(c: bv8, s: bv8)
    ensures !s == 0xff <==> s == 0
    ensures c & !s != 0 <==> c | s != s
    ensures c & !(s | c) == 0
  {
  }

  /** The verdict on the next trace in terms of the traces before it: 2 exactly when it hits a
      byte none of them hit, 1 exactly when it only adds bits to bytes already hit, 0 when it
      adds nothing. */
  lemma VerdictMeaning(traces: seq<Map>, n: nat, current: Map)
    requires Sized(traces, n) && |current| == n
    ensures Verdict(current, After(traces, n)) == 2
       <==> exists k :: 0 <= k < n && current[k] != 0 && !EverHit(traces, n, k)
    ensures Verdict(current, After(traces, n)) == 0
       <==> forall k :: 0 <= k < n ==> current[k] | Seen(traces, n, k) == Seen(traces, n, k)
  {
    hide After, Seen, EverHit;
    var v := After(traces, n);
    forall k | 0 <= k < n
      ensures v[k] == 0xff <==> !EverHit(traces, n, k)
      ensures current[k] & v[k] != 0 <==> current[k] | Seen(traces, n, k) != Seen(traces, n, k)
    {
      MeaningAt(traces, n, current, k);
    }
    ByteIsBits(current, v);
  }

  lemma MeaningAt(traces: seq<Map>, n: nat, current: Map, k: nat)
    requires Sized(traces, n) && |current| == n && k < n
    ensures After(traces, n)[k] == 0xff <==> !EverHit(traces, n, k)
    ensures current[k] & After(traces, n)[k] != 0 <==> current[k] | Seen(traces, n, k) != Seen(traces, n, k)
  {
    hide After, Seen, EverHit;
    VirginIsHistory(traces, n, k);
    SeenIffHit(traces, n, k);
    BitMeaning(current[k], After(traces, n)[k], Seen(traces, n, k));
  }

  lemma BitMeaning(c: bv8, v: bv8, s: bv8)
    requires v == !s
    ensures v == 0xff <==> s == 0
    ensures c & v != 0 <==> c | s != s
  {
    BitFacts(c, s);
  }

  /** A trace seen before is never news. */
  lemma ReplayIsOld(traces: seq<Map>, n: nat, j: nat)
    requires Sized(traces, n) && j < |traces|
    ensures Verdict(traces[j], After(traces, n)) == 0
  {
    forall k | 0 <= k < n
      ensures traces[j][k] | Seen(traces, n, k) == Seen(traces, n, k)
    {
      SeenContains(traces, n, j, k);
    }
    VerdictMeaning(traces, n, traces[j]);
  }

  lemma {:induction false} SeenContains(traces: seq<Map>, n: nat, j: nat, k: nat)
    requires Sized(traces, n) && j < |traces| && k < n
    ensures traces[j][k] | Seen(traces, n, k) == Seen(traces, n, k)
  {
    var m := |traces| - 1;
    if j < m {
      SeenContains(traces[..m], n, j, k);
      OrKeeps(traces[j][k], Seen(traces[..m], n, k), traces[m][k]);
    } else {
      OrSelf(Seen(traces[..m], n, k), traces[m][k]);
    }
  }

  lemma OrKeeps(a: bv8, s: bv8, b: bv8)
    requires a | s == s
    ensures a | (s | b) == s | b
  {
  }

  lemma OrSelf(s: bv8, b: bv8)
    ensures b | (s | b) == s | b
  {
  }

  /** Verdict j is the one on trace j against everything before it. */
  ghost predicate InHistory(traces: seq<Map>, n: nat, verdicts: seq<nat>)
    requires Sized(traces, n) && |verdicts| <= |traces|
  {
    forall j :: 0 <= j < |verdicts| ==> verdicts[j] == Verdict(traces[j], After(traces[..j], n))
  }

  lemma HistoryStarts(traces: seq<Map>, n: nat)
    requires Sized(traces, n)
    ensures InHistory(traces, n, []) && After(traces[..0], n) == Virgin(n)
    ensures forall j :: 0 <= j <= |traces| ==> Sized(traces[..j], n)
  {
  }

  lemma HistoryGrows(traces: seq<Map>, n: nat, verdicts: seq<nat>, r: nat)
    requires Sized(traces, n) && |verdicts| < |traces| && InHistory(traces, n, verdicts)
    requires r == Verdict(traces[|verdicts|], After(traces[..|verdicts|], n))
    ensures InHistory(traces, n, verdicts + [r])
    ensures After(traces[..|verdicts| + 1], n) == Cleared(traces[|verdicts|], After(traces[..|verdicts|], n))
  {
    hide Verdict, Cleared;
    assert traces[..|verdicts| + 1][..|verdicts|] == traces[..|verdicts|];
  }

  // ---- classification, as a table over pairs of bytes --------------------------------------

  function Pair(lo: bv8, hi: bv8): bv16 { (lo as bv16) | ((hi as bv16) << (8 as bv5)) }
  function Low(h: bv16): bv8 { (h & 0xff) as bv8 }
  function High(h: bv16): bv8 { ((h >> (8 as bv5)) & 0xff) as bv8 }

  function PairMap<T>(even: (T, T) -> T, odd: (T, T) -> T, b: seq<T>): (r: seq<T>)
    requires |b| % 2 == 0
    ensures |r| == |b|
  {
    seq(|b|, k requires 0 <= k < |b| => if k % 2 == 0 then even(b[k], b[k + 1]) else odd(b[k - 1], b[k]))
  }

  lemma PairMapAppend<T>(even: (T, T) -> T, odd: (T, T) -> T, a: seq<T>, b: seq<T>)
    requires |a| % 2 == 0 && |b| % 2 == 0
    ensures PairMap(even, odd, a + b) == PairMap(even, odd, a) + PairMap(even, odd, b)
  {
    hide PairMap;
    EvenPlus(|a|, |b|);
    forall k | 0 <= k < |a| + |b|
      ensures PairMap(even, odd, a + b)[k] == (PairMap(even, odd, a) + PairMap(even, odd, b))[k]
    {
      PairMapAt(even, odd, a, b, k);
    }
  }

  lemma PairMapAt<T>(even: (T, T) -> T, odd: (T, T) -> T, a: seq<T>, b: seq<T>, k: nat)
    requires |a| % 2 == 0 && |b| % 2 == 0 && (|a| + |b|) % 2 == 0 && k < |a| + |b|
    ensures PairMap(even, odd, a + b)[k] == if k < |a| then PairMap(even, odd, a)[k] else PairMap(even, odd, b)[k - |a|]
  {
    hide PairMap;
    PairMapIs(even, odd, a + b, k);
    if k >= |a| {
      EvenPlus(|a|, k - |a|);
      PairMapIs(even, odd, b, k - |a|);
    } else {
      PairMapIs(even, odd, a, k);
    }
  }

  lemma PairMapIs<T>(even: (T, T) -> T, odd: (T, T) -> T, b: seq<T>, k: nat)
    requires |b| % 2 == 0 && k < |b|
    ensures k % 2 == 0 ==> k + 1 < |b| && PairMap(even, odd, b)[k] == even(b[k], b[k + 1])
    ensures k % 2 != 0 ==> k > 0 && PairMap(even, odd, b)[k] == odd(b[k - 1], b[k])
  {
  }

  lemma EvenPlus(n: nat, k: nat)
    requires n % 2 == 0
    ensures (n + k) % 2 == k % 2
  {
  }

  function LowOf(lookup: bv16 -> bv16): (bv8, bv8) -> bv8 { (lo, hi) => Low(lookup(Pair(lo, hi))) }
  function HighOf(lookup: bv16 -> bv16): (bv8, bv8) -> bv8 { (lo, hi) => High(lookup(Pair(lo, hi))) }

  /** Each aligned pair of bytes goes through the 16-bit table. */
  function ClassifiedBytes(lookup: bv16 -> bv16, b: Map): (r: Map)
    requires |b| % 2 == 0
    ensures |r| == |b|
  {
    PairMap(LowOf(lookup), HighOf(lookup), b)
  }

  lemma ClassifiedAppend(lookup: bv16 -> bv16, a: Map, b: Map)
    requires |a| % 2 == 0 && |b| % 2 == 0
    ensures ClassifiedBytes(lookup, a + b) == ClassifiedBytes(lookup, a) + ClassifiedBytes(lookup, b)
  {
    hide LowOf, HighOf, PairMap;
    PairMapAppend(LowOf(lookup), HighOf(lookup), a, b);
  }
}
