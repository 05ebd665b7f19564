/** MUT_SHUFFLE: the in-place loop that swaps each position with a strictly smaller one rearranges
    the block by a single cycle through all its positions. */
module Sattolo {
  import opened RandBelow

  type Bytes = seq<bv8>

  function Swapped<T>(b: seq<T>, i: nat, j: nat): (r: seq<T>)
    requires i < |b| && j < |b|
    ensures |r| == |b|
  {
    b[i := b[j]][j := b[i]]
  }

  predicate InRange(js: seq<nat>) {
    forall i :: 0 <= i < |js| ==> js[i] <= i
  }

  /** The partner chosen at each i is smaller than i. */
  predicate Choices(js: seq<nat>) {
    InRange(js) && forall i :: 1 <= i < |js| ==> js[i] < i
  }

  /** The loop from position i down to 1. */
  function Shuffled<T>(b: seq<T>, js: seq<nat>, i: nat): (r: seq<T>)
    requires i < |js| && i < |b| && InRange(js)
    ensures |r| == |b|
    decreases i
  {
    if i == 0 then b else Shuffled(Swapped(b, i, js[i]), js, i - 1)
  }

  /** p maps each position to the one its new element came from; orbit walks p once around. */
  ghost predicate IsCycle(p: seq<nat>, orbit: seq<nat>) {
    && |orbit| == |p|
    && (forall t :: 0 <= t < |orbit| ==> orbit[t] < |p|)
    && (forall s, t :: 0 <= s < t < |orbit| ==> orbit[s] != orbit[t])
    && (forall k :: 0 <= k < |p| ==> k in orbit)
    && (forall t :: 0 <= t < |orbit| ==> p[orbit[t]] == orbit[if t + 1 < |orbit| then t + 1 else 0])
  }

  ghost predicate Rearranged<T>(after: seq<T>, before: seq<T>, p: seq<nat>) {
    && |after| == |before| && |p| <= |before|
    && (forall k :: 0 <= k < |p| ==> p[k] < |p| && after[k] == before[p[k]])
    && (forall k :: |p| <= k < |before| ==> after[k] == before[k])
  }

  /** Putting the new position n behind the one that pointed at j keeps a single cycle. */
  function Extend(q: seq<nat>, j: nat): (p: seq<nat>)
    ensures |p| == |q| + 1
  {
    seq(|q| + 1, k requires 0 <= k < |q| + 1 => if k == |q| then j else if q[k] == j then |q| else q[k])
  }

  /** The orbit with n put in at position s. */
  function Spliced(orbit: seq<nat>, s: nat, n: nat): (r: seq<nat>)
    requires s <= |orbit|
    ensures |r| == |orbit| + 1
    ensures forall t :: 0 <= t <= |orbit| ==> r[t] == if t < s then orbit[t] else if t == s then n else orbit[t - 1]
  {
    orbit[..s] + [n] + orbit[s..]
  }

  lemma ExtendCycle(q: seq<nat>, orbit: seq<nat>, j: nat) returns (orbit': seq<nat>)
    requires IsCycle(q, orbit) && j < |q|
    ensures IsCycle(Extend(q, j), orbit')
  {
    assert j in orbit;
    var s :| 0 <= s < |q| && orbit[s] == j;
    orbit' := Spliced(orbit, s, |q|);   // the new position comes just before j
    hide Spliced, Extend;
    ExtendCovers(q, orbit, s);
    ExtendDistinct(q, orbit, s);
    forall t | 0 <= t < |q| + 1
      ensures orbit'[t] <= |q|
      ensures Extend(q, j)[orbit'[t]] == orbit'[if t + 1 < |q| + 1 then t + 1 else 0]
    {
      ExtendStep(q, orbit, j, s, t);
    }
  }

  lemma ExtendDistinct(q: seq<nat>, orbit: seq<nat>, s: nat)
    requires IsCycle(q, orbit) && s < |q|
    ensures var r := Spliced(orbit, s, |q|); forall t, u :: 0 <= t < u < |r| ==> r[t] != r[u]
  {
  }

  lemma ExtendCovers(q: seq<nat>, orbit: seq<nat>, s: nat)
    requires IsCycle(q, orbit) && s < |q|
    ensures forall k :: 0 <= k < |q| + 1 ==> k in Spliced(orbit, s, |q|)
  {
    var n := |q|;
    var r := Spliced(orbit, s, n);
    forall k | 0 <= k < n + 1 ensures k in r {
      if k < n {
        assert k in orbit;
        var t :| 0 <= t < n && orbit[t] == k;
        assert r[if t < s then t else t + 1] == k;
      } else {
        assert r[s] == n;
      }
    }
  }

  lemma ExtendStep(q: seq<nat>, orbit: seq<nat>, j: nat, s: nat, t: nat)
    requires IsCycle(q, orbit) && s < |q| && orbit[s] == j && t <= |q|
    ensures var r := Spliced(orbit, s, |q|);
      && r[t] <= |q|
      && Extend(q, j)[r[t]] == r[if t + 1 < |q| + 1 then t + 1 else 0]
  {
    var n := |q|;
    if t < s {
      assert q[orbit[t]] == orbit[t + 1];
    } else if t > s {
      assert q[orbit[t - 1]] == orbit[if t < n then t else 0];
    }
  }

  /** The shuffle is a rearrangement by one cycle through every position of the block. */
  lemma {:induction false} ShuffledIsCycle<T>(b: seq<T>, js: seq<nat>, i: nat) returns (p: seq<nat>, orbit: seq<nat>)
    requires i < |js| && i < |b| && Choices(js)
    ensures |p| == i + 1 && IsCycle(p, orbit) && Rearranged(Shuffled(b, js, i), b, p)
    decreases i
  {
    if i == 0 {
      p, orbit := [0], [0];
    } else {
      var q, o := ShuffledIsCycle(Swapped(b, i, js[i]), js, i - 1);
      orbit := ExtendCycle(q, o, js[i]);
      p := Extend(q, js[i]);
      ExtendRearranges(b, Shuffled(b, js, i), q, js[i]);
    }
  }

  lemma ExtendRearranges<T>(b: seq<T>, after: seq<T>, q: seq<nat>, j: nat)
    requires j < |q| < |b| && Rearranged(after, Swapped(b, |q|, j), q)
    ensures Rearranged(after, b, Extend(q, j))
  {
  }

  /** Nothing stays where it was. */
  lemma CycleMovesAll(p: seq<nat>, orbit: seq<nat>, k: nat)
    requires IsCycle(p, orbit) && |p| >= 2 && k < |p|
    ensures p[k] != k
  {
    assert k in orbit;
    var t :| 0 <= t < |orbit| && orbit[t] == k;
    assert p[orbit[t]] == orbit[if t + 1 < |orbit| then t + 1 else 0];
  }

  /** Only the choices up to i are used. */
  lemma {:induction false} ShuffledUses<T>(b: seq<T>, js: seq<nat>, ks: seq<nat>, i: nat)
    requires i < |js| && i < |ks| && i < |b| && InRange(js) && InRange(ks) && js[..i + 1] == ks[..i + 1]
    ensures Shuffled(b, js, i) == Shuffled(b, ks, i)
    decreases i
  {
    if i > 0 {
      assert js[i] == js[..i + 1][i] && ks[i] == ks[..i + 1][i];
      assert js[..i] == js[..i + 1][..i] && ks[..i] == ks[..i + 1][..i];
      ShuffledUses(Swapped(b, i, js[i]), js, ks, i - 1);
    }
  }

  /** p without its last position: what pointed there now points where it pointed. */
  function Shortened(p: seq<nat>): (q: seq<nat>)
    requires p != []
    ensures |q| == |p| - 1
  {
    var n := |p| - 1;
    seq(n, k requires 0 <= k < n => if p[k] == n then p[n] else p[k])
  }

  /** The orbit without position s. */
  function Without(orbit: seq<nat>, s: nat): (r: seq<nat>)
    requires s < |orbit|
    ensures |r| == |orbit| - 1
    ensures forall t :: 0 <= t < |r| ==> r[t] == orbit[if t < s then t else t + 1]
  {
    orbit[..s] + orbit[s + 1..]
  }

  lemma ShortenStep(p: seq<nat>, orbit: seq<nat>, s: nat, t: nat)
    requires IsCycle(p, orbit) && |p| >= 2 && s < |p| && orbit[s] == |p| - 1 && t < |p| - 1
    ensures var r := Without(orbit, s);
      && r[t] < |p| - 1
      && Shortened(p)[r[t]] == r[if t + 1 < |p| - 1 then t + 1 else 0]
  {
    var n := |p| - 1;
    var o := if t < s then t else t + 1;
    var next := if o + 1 < |p| then o + 1 else 0;
    assert p[orbit[o]] == orbit[next];
    assert p[n] == orbit[if s + 1 < |p| then s + 1 else 0];
    assert orbit[o] != n;
    if next == s {
      assert p[orbit[o]] == n;
    } else {
      assert orbit[next] != n;
    }
  }

  lemma ShortenCycle(p: seq<nat>, orbit: seq<nat>) returns (orbit': seq<nat>)
    requires IsCycle(p, orbit) && |p| >= 2
    ensures IsCycle(Shortened(p), orbit')
  {
    var n := |p| - 1;
    assert n in orbit;
    var s :| 0 <= s < |p| && orbit[s] == n;
    orbit' := Without(orbit, s);
    ShortenCovers(p, orbit, s);
    forall t | 0 <= t < n
      ensures orbit'[t] < n
      ensures Shortened(p)[orbit'[t]] == orbit'[if t + 1 < n then t + 1 else 0]
    {
      ShortenStep(p, orbit, s, t);
    }
  }

  lemma ShortenCovers(p: seq<nat>, orbit: seq<nat>, s: nat)
    requires IsCycle(p, orbit) && s < |p| && orbit[s] == |p| - 1
    ensures forall k :: 0 <= k < |p| - 1 ==> k in Without(orbit, s)
    ensures var r := Without(orbit, s); forall t, u :: 0 <= t < u < |r| ==> r[t] != r[u]
  {
    var r := Without(orbit, s);
    forall k | 0 <= k < |p| - 1
      ensures k in r
    {
      assert k in orbit;
      var t :| 0 <= t < |orbit| && orbit[t] == k;
      assert r[if t < s then t else t - 1] == k;
    }
  }

  lemma ChoicesSnoc(ks: seq<nat>, j: nat)
    requires Choices(ks) && 0 < |ks| && j < |ks|
    ensures Choices(ks + [j])
    ensures (ks + [j])[..|ks|] == ks[..|ks|] && (ks + [j])[|ks|] == j
  {
  }

  lemma LastFirst<T>(b: seq<T>, js: seq<nat>, i: nat, j: nat)
    requires 0 < i < |js| && i < |b| && InRange(js) && js[i] == j
    ensures j < |b| && Shuffled(b, js, i) == Shuffled(Swapped(b, i, j), js, i - 1)
  {
    hide Swapped;
  }

  /** Every rearrangement by a single cycle comes from some choice of partners. */
  lemma {:induction false} EveryCycleArises<T>(b: seq<T>, p: seq<nat>, orbit: seq<nat>) returns (js: seq<nat>)
    requires IsCycle(p, orbit) && 0 < |p| <= |b|
    ensures |js| == |p| && Choices(js) && Rearranged(Shuffled(b, js, |p| - 1), b, p)
    decreases |p|
  {
    if |p| == 1 {
      assert 0 in orbit;
      js := [0];
    } else {
      var n := |p| - 1;
      CycleMovesAll(p, orbit, n);
      CycleStaysInside(p, orbit, n);
      var q := Shortened(p);
      var o := ShortenCycle(p, orbit);
      var ks := EveryCycleArises(Swapped(b, n, p[n]), q, o);
      js := ks + [p[n]];
      ChoicesSnoc(ks, p[n]);
      LengthenBack(p, orbit);
      hide Rearranged, IsCycle, Shortened, Swapped, Shuffled;
      ShuffledUses(Swapped(b, n, p[n]), js, ks, n - 1);
      LastFirst(b, js, n, p[n]);
      ExtendRearranges(b, Shuffled(b, js, n), q, p[n]);
    }
  }

  lemma CycleStaysInside(p: seq<nat>, orbit: seq<nat>, k: nat)
    requires IsCycle(p, orbit) && k < |p|
    ensures p[k] < |p|
  {
    assert k in orbit;
    var t :| 0 <= t < |orbit| && orbit[t] == k;
    assert p[orbit[t]] == orbit[if t + 1 < |orbit| then t + 1 else 0];
  }

  lemma LengthenBack(p: seq<nat>, orbit: seq<nat>)
    requires IsCycle(p, orbit) && |p| >= 2 && p[|p| - 1] != |p| - 1
    ensures Extend(Shortened(p), p[|p| - 1]) == p
  {
    var n := |p| - 1;
    var e := Extend(Shortened(p), p[n]);
    forall k | 0 <= k < n
      ensures e[k] == p[k]
    {
      if p[k] != n { PointsOnce(p, orbit, k, n); }
    }
  }

  /** Two positions of a cycle point to different places. */
  lemma PointsOnce(p: seq<nat>, orbit: seq<nat>, k: nat, m: nat)
    requires IsCycle(p, orbit) && k < |p| && m < |p| && k != m
    ensures p[k] != p[m]
  {
    assert k in orbit && m in orbit;
    var s :| 0 <= s < |orbit| && orbit[s] == k;
    var t :| 0 <= t < |orbit| && orbit[t] == m;
    assert p[orbit[s]] == orbit[if s + 1 < |orbit| then s + 1 else 0];
    assert p[orbit[t]] == orbit[if t + 1 < |orbit| then t + 1 else 0];
  }

  /** No bytes are gained or lost. */
  lemma {:induction false} ShuffledMultiset<T>(b: seq<T>, js: seq<nat>, i: nat)
    requires i < |js| && i < |b| && Choices(js)
    ensures multiset(Shuffled(b, js, i)) == multiset(b)
    decreases i
  {
    if i > 0 {
      ShuffledMultiset(Swapped(b, i, js[i]), js, i - 1);
      SwappedMultiset(b, i, js[i]);
    }
  }

  lemma SwappedMultiset<T>(b: seq<T>, i: nat, j: nat)
    requires i < |b| && j < |b|
    ensures multiset(Swapped(b, i, j)) == multiset(b)
  {
  }

  /** Different choices give different rearrangements; so with EveryCycleArises each cycle comes from
      exactly one list of choices. */
  lemma {:induction false} ChoicesDetermined(js: seq<nat>, ks: seq<nat>, b: seq<nat>, i: nat)
    requires i < |b| && |js| == |ks| && i < |js| && Choices(js) && Choices(ks)
    requires forall s, t :: 0 <= s < t < |b| ==> b[s] != b[t]
    requires Shuffled(b, js, i) == Shuffled(b, ks, i)
    ensures forall t :: 1 <= t <= i ==> js[t] == ks[t]
    decreases i
  {
    if i > 0 {
      LastPlaced(b, js, i);
      LastPlaced(b, ks, i);
      ChoicesDetermined(js, ks, Swapped(b, i, js[i]), i - 1);
    }
  }

  /** Position i receives the element of its partner for good. */
  lemma {:induction false} LastPlaced<T>(b: seq<T>, js: seq<nat>, i: nat)
    requires 0 < i < |js| && i < |b| && Choices(js)
    ensures Shuffled(b, js, i)[i] == b[js[i]]
    decreases i
  {
    Above(Swapped(b, i, js[i]), js, i - 1, i);
  }

  lemma {:induction false} Above<T>(b: seq<T>, js: seq<nat>, i: nat, k: nat)
    requires i < |js| && i < k < |b| && Choices(js)
    ensures Shuffled(b, js, i)[k] == b[k]
    decreases i
  {
    if i > 0 { Above(Swapped(b, i, js[i]), js, i - 1, k); }
  }

  /** The steps from position hi down to lo + 1. */
  function Steps<T>(b: seq<T>, js: seq<nat>, hi: nat, lo: nat): (r: seq<T>)
    requires lo <= hi < |js| && hi < |b| && InRange(js)
    ensures |r| == |b|
    decreases hi
  {
    if hi == lo then b else Steps(Swapped(b, hi, js[hi]), js, hi - 1, lo)
  }

  /** One more step, whose partner is only now chosen. */
  lemma {:induction false} StepsNext<T>(b: seq<T>, js: seq<nat>, hi: nat, lo: nat, j: nat)
    requires 0 < lo <= hi < |js| && hi < |b| && InRange(js) && j <= lo
    ensures InRange(js[lo := j])
    ensures Steps(b, js[lo := j], hi, lo - 1) == Swapped(Steps(b, js, hi, lo), lo, j)
    decreases hi
  {
    if hi > lo {
      StepsNext(Swapped(b, hi, js[hi]), js, hi - 1, lo, j);
    }
  }

  lemma {:induction false} StepsAreShuffled<T>(b: seq<T>, js: seq<nat>, hi: nat)
    requires hi < |js| && hi < |b| && InRange(js)
    ensures Steps(b, js, hi, 0) == Shuffled(b, js, hi)
    decreases hi
  {
    if hi > 0 { StepsAreShuffled(Swapped(b, hi, js[hi]), js, hi - 1); }
  }

  method SwapBytes(buf: array<bv8>, x: nat, y: nat, ghost off: nat, ghost blen: nat)
    requires off <= x < off + blen && off <= y < off + blen && off + blen <= buf.Length
    modifies buf
    ensures buf[off..off + blen] == Swapped(old(buf[off..off + blen]), x - off, y - off)
    ensures buf[..off] == old(buf[..off]) && buf[off + blen..] == old(buf[off + blen..])
  {
    var temp := buf[x];
    buf[x] := buf[y];
    buf[y] := temp;
  }

  /** The requests for the partners of the positions from top down to i: each is repeated until the
      answer is another position. */
  ghost predicate Partnered(d: seq<Drawn>, js: seq<nat>, top: nat, i: nat)
    requires top < |js|
    decreases top + 1 - i
  {
    if i > top then d == []
    else exists d0, k: nat :: Joined(d, d0, i, k, js[i]) && Partnered(d0, js, top, i + 1)
  }

  /** After d0, position i was answered k times before j. */
  predicate Joined(d: seq<Drawn>, d0: seq<Drawn>, i: nat, k: nat, j: nat) {
    d == d0 + (Again(i, k) + [Bounded(i + 1, j)])
  }

  function Again(i: nat, k: nat): seq<Drawn> { seq(k, _ => Bounded(i + 1, i)) }

  /** The choice made at a lower position does not matter. */
  lemma {:induction false} PartneredKept(d: seq<Drawn>, js: seq<nat>, top: nat, i: nat, at: nat, j: nat)
    requires top < |js| && at < i <= top + 1 && Partnered(d, js, top, i)
    ensures at < |js| && Partnered(d, js[at := j], top, i)
    decreases top + 1 - i
  {
    if i <= top {
      var d0, k: nat :| Joined(d, d0, i, k, js[i]) && Partnered(d0, js, top, i + 1);
      PartneredKept(d0, js, top, i + 1, at, j);
      assert Joined(d, d0, i, k, js[at := j][i]);
    }
  }

  lemma PartneredMore(d: seq<Drawn>, js: seq<nat>, top: nat, i: nat, k: nat)
    requires i <= top < |js| && Partnered(d, js, top, i + 1)
    ensures Partnered(d + (Again(i, k) + [Bounded(i + 1, js[i])]), js, top, i)
  {
    assert Joined(d + (Again(i, k) + [Bounded(i + 1, js[i])]), d, i, k, js[i]);
  }

  /** The loop of MUT_SHUFFLE over buf[off..off + blen].  On a run that is not cut short the block
      is rearranged by a single cycle and nothing outside it changes. */
  method Shuffle(buf: array<bv8>, off: nat, blen: nat, rng: Rng) returns (ghost js: seq<nat>, ghost d: seq<Drawn>)
    requires 1 <= blen && off + blen <= buf.Length
    modifies buf, rng
    ensures |js| == blen && InRange(js) && (!rng.dry ==> Choices(js))
    ensures buf[off..off + blen] == Shuffled(old(buf[off..off + blen]), js, blen - 1)
    ensures buf[..off] == old(buf[..off]) && buf[off + blen..] == old(buf[off + blen..])
    ensures rng.Asked(d) && Partnered(d, js, blen - 1, 1) && js[0] == 0
  {
    hide Swapped, rng.Honest;
    ghost var block := buf[off..off + blen];
    js, d := seq(blen, _ => 0), [];
    var i: nat := blen - 1;
    while i > 0
      invariant i < blen && |js| == blen && InRange(js)
      invariant !rng.dry ==> forall t :: i < t < blen ==> js[t] < t
      invariant forall t :: 0 <= t <= i ==> js[t] == 0
      invariant buf[off..off + blen] == Steps(block, js, blen - 1, i)
      invariant buf[..off] == old(buf[..off]) && buf[off + blen..] == old(buf[off + blen..])
      invariant rng.Asked(d) && Partnered(d, js, blen - 1, i + 1)
    {
      hide Partnered;
      var j, k := Partner(i, rng);
      StepsNext(block, js, blen - 1, i, j);
      SwapBytes(buf, off + i, off + j, off, blen);
      PartneredKept(d, js, blen - 1, i + 1, i, j);
      js := js[i := j];
      PartneredMore(d, js, blen - 1, i, k);
      d := d + (Again(i, k) + [Bounded(i + 1, j)]);
      i := i - 1;
    }
    StepsAreShuffled(block, js, blen - 1);
  }

  /** Redraw until the partner differs from i. */
  method Partner(i: nat, rng: Rng) returns (j: nat, ghost k: nat)
    requires i > 0
    modifies rng
    ensures j <= i && (!rng.dry ==> j < i)
    ensures rng.Asked(Again(i, k) + [Bounded(i + 1, j)])
  {
    hide rng.Honest;
    j := rng.Below(i + 1);
    k := 0;
    while i == j && !rng.dry
      invariant j <= i && rng.Asked(Again(i, k) + [Bounded(i + 1, j)])
      decreases |rng.tape|, !rng.dry
    {
      assert Again(i, k) + [Bounded(i + 1, j)] == Again(i, k + 1);
      j := rng.Below(i + 1);
      k := k + 1;
    }
  }
}
