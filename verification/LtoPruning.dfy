/** Which basic blocks the LTO pass instruments, and why the blocks it leaves out lose nothing: on a
    control flow graph without critical edges, the instrumented blocks a run executes determine all
    the blocks it executes. */
module LtoPruning {

  /** Block 0 is the entry. */
  datatype Cfg = Cfg(succs: seq<set<nat>>)

  predicate Edge(g: Cfg, u: nat, v: nat) {
    u < |g.succs| && v in g.succs[u]
  }

  /** Edges stay inside the graph and nothing jumps to the entry. */
  ghost predicate WellFormed(g: Cfg) {
    |g.succs| > 0 && forall u: nat, v: nat :: Edge(g, u, v) ==> 0 < v < |g.succs|
  }

  predicate Exit(g: Cfg, b: nat)
    requires b < |g.succs|
  {
    g.succs[b] == {}
  }

  predicate IsPath(g: Cfg, p: seq<nat>) {
    && |p| > 0
    && (forall i :: 0 <= i < |p| ==> p[i] < |g.succs|)
    && (forall i :: 0 < i < |p| ==> Edge(g, p[i - 1], p[i]))
  }

  predicate Connects(g: Cfg, p: seq<nat>, a: nat, b: nat) {
    IsPath(g, p) && p[0] == a && p[|p| - 1] == b
  }

  /** A run of the function from its entry to an exit. */
  predicate Complete(g: Cfg, p: seq<nat>) {
    IsPath(g, p) && p[0] == 0 && Exit(g, p[|p| - 1])
  }

  ghost predicate Reachable(g: Cfg, b: nat) {
    exists p :: Connects(g, p, 0, b)
  }

  ghost predicate AllReachable(g: Cfg) {
    forall b: nat :: b < |g.succs| ==> Reachable(g, b)
  }

  ghost predicate Dominates(g: Cfg, a: nat, b: nat) {
    forall p :: Connects(g, p, 0, b) ==> a in p
  }

  ghost predicate PostDominates(g: Cfg, a: nat, b: nat) {
    forall p :: IsPath(g, p) && p[0] == b && Exit(g, p[|p| - 1]) ==> a in p
  }

  ghost predicate IsFullDominator(g: Cfg, b: nat) {
    b < |g.succs| && !Exit(g, b) && forall s :: Edge(g, b, s) ==> Dominates(g, b, s)
  }

  ghost predicate IsFullPostDominator(g: Cfg, b: nat) {
    (exists u :: Edge(g, u, b)) && forall u :: Edge(g, u, b) ==> PostDominates(g, b, u)
  }

  ghost predicate HasSinglePredecessor(g: Cfg, b: nat) {
    exists u :: Edge(g, u, b) && forall w :: Edge(g, w, b) ==> w == u
  }

  /** shouldInstrumentBlock with pruning on and edge coverage. */
  ghost predicate ShouldInstrument(g: Cfg, b: nat) {
    b < |g.succs| &&
    if b == 0 then |g.succs| == 1
    else !IsFullDominator(g, b) && !(IsFullPostDominator(g, b) && !HasSinglePredecessor(g, b))
  }

  /** What SplitAllCriticalEdges leaves behind: an edge from a block with several successors leads
      to a block with one predecessor. */
  ghost predicate NoCriticalEdges(g: Cfg) {
    forall u, v, v', w :: Edge(g, u, v) && Edge(g, u, v') && v != v' && Edge(g, w, v) ==> w == u
  }

  // ---- what a skipped block's neighbours tell --------------------------------------------------

  lemma DominatorRuns(g: Cfg, p: seq<nat>, a: nat, b: nat)
    requires Complete(g, p) && Dominates(g, a, b) && b in p
    ensures a in p
  {
    var k :| 0 <= k < |p| && p[k] == b;
    assert Connects(g, p[..k + 1], 0, b);
  }

  lemma PostDominatorRuns(g: Cfg, p: seq<nat>, a: nat, b: nat)
    requires Complete(g, p) && PostDominates(g, a, b) && b in p
    ensures a in p
  {
    var k :| 0 <= k < |p| && p[k] == b;
    assert IsPath(g, p[k..]);
  }

  lemma SomeSuccessorRuns(g: Cfg, p: seq<nat>, k: nat)
    requires Complete(g, p) && k < |p| && !Exit(g, p[k])
    ensures k + 1 < |p| && Edge(g, p[k], p[k + 1])
  {
  }

  /** A full dominator runs exactly when one of its successors does. */
  lemma FullDominatorSeen(g: Cfg, p: seq<nat>, b: nat)
    requires Complete(g, p) && IsFullDominator(g, b)
    ensures b in p <==> exists s :: Edge(g, b, s) && s in p
  {
    if b in p {
      var k :| 0 <= k < |p| && p[k] == b;
      SomeSuccessorRuns(g, p, k);
      assert p[k + 1] in p;
    }
    if s :| Edge(g, b, s) && s in p {
      DominatorRuns(g, p, b, s);
    }
  }

  /** A full post-dominator runs exactly when one of its predecessors does. */
  lemma FullPostDominatorSeen(g: Cfg, p: seq<nat>, b: nat)
    requires WellFormed(g) && Complete(g, p) && IsFullPostDominator(g, b)
    ensures b in p <==> exists u :: Edge(g, u, b) && u in p
  {
    if b in p {
      var k :| 0 <= k < |p| && p[k] == b;
      assert k > 0 && Edge(g, p[k - 1], b) && p[k - 1] in p;
    }
    if u :| Edge(g, u, b) && u in p {
      PostDominatorRuns(g, p, b, u);
    }
  }

  /** b runs again whenever a predecessor has run. */
  ghost predicate AlwaysFollows(g: Cfg, b: nat) {
    forall p, i :: Complete(g, p) && 0 <= i < |p| && Edge(g, p[i], b) ==> b in p[i..]
  }

  /** A run that reaches a predecessor of b and ends without b. */
  ghost predicate Misses(g: Cfg, b: nat, p: seq<nat>, i: nat) {
    Complete(g, p) && i < |p| && Edge(g, p[i], b) && b !in p[i..]
  }

  /** Post-dominance in terms of runs: a full post-dominator is a block with predecessors that every run
      executes after each of them. */
  lemma FullPostDominatorExactly(g: Cfg, b: nat)
    requires AllReachable(g)
    ensures IsFullPostDominator(g, b) <==> (exists u :: Edge(g, u, b)) && AlwaysFollows(g, b)
  {
    if IsFullPostDominator(g, b) {
      forall p, i | Complete(g, p) && 0 <= i < |p| && Edge(g, p[i], b)
        ensures b in p[i..]
      {
        assert IsPath(g, p[i..]);
      }
    }
    if AlwaysFollows(g, b) {
      forall u | Edge(g, u, b)
        ensures PostDominates(g, b, u)
      {
        forall q | IsPath(g, q) && q[0] == u && Exit(g, q[|q| - 1])
          ensures b in q
        {
          var p, i := RunThrough(g, u, q);
        }
      }
    }
  }

  lemma RunThrough(g: Cfg, u: nat, q: seq<nat>) returns (p: seq<nat>, i: nat)
    requires AllReachable(g) && IsPath(g, q) && q[0] == u && Exit(g, q[|q| - 1])
    ensures Complete(g, p) && i < |p| && p[i..] == q
  {
    assert Reachable(g, u);
    var r :| Connects(g, r, 0, u);
    i := |r| - 1;
    p := r[..i] + q;
    forall k | 0 < k < |p| ensures Edge(g, p[k - 1], p[k]) {
      if k <= i { assert p[k - 1] == r[k - 1] && p[k] == r[k]; } else { assert p[k - 1] == q[k - 1 - i] && p[k] == q[k - i]; }
    }
  }

  lemma HasPredecessor(g: Cfg, b: nat)
    requires AllReachable(g) && 0 < b < |g.succs|
    ensures exists u :: Edge(g, u, b)
  {
    assert Reachable(g, b);
    var p :| Connects(g, p, 0, b);
    assert Edge(g, p[|p| - 2], p[|p| - 1]);
  }

  /** Exactly which blocks are instrumented: besides the only block of a function, those that are no
      full dominators and either have one predecessor or are missed by some run after a predecessor. */
  lemma InstrumentedExactly(g: Cfg, b: nat)
    requires AllReachable(g) && b < |g.succs|
    ensures b == 0 ==> (ShouldInstrument(g, b) <==> |g.succs| == 1)
    ensures b > 0 ==>
      (ShouldInstrument(g, b) <==> !IsFullDominator(g, b) && (HasSinglePredecessor(g, b) || exists p, i: nat :: Misses(g, b, p, i)))
  {
    hide IsFullPostDominator, IsFullDominator, HasSinglePredecessor, AllReachable;
    FullPostDominatorExactly(g, b);
    if b > 0 { HasPredecessor(g, b); }
    if !AlwaysFollows(g, b) {
      var p, i :| Complete(g, p) && 0 <= i < |p| && Edge(g, p[i], b) && b !in p[i..];
      assert Misses(g, b, p, i);
    }
  }

  /** The nested if: its inner join 4 is skipped, although no run ends there. */
  function Nested(): Cfg { Cfg([{1, 5}, {2, 3}, {4}, {4}, {6}, {6}, {}]) }

  lemma InnerJoinSkipped()
    ensures !Exit(Nested(), 4) && IsFullPostDominator(Nested(), 4) && !ShouldInstrument(Nested(), 4)
  {
    var g := Nested();
    assert Edge(g, 2, 4) && Edge(g, 3, 4);
    forall u, q | Edge(g, u, 4) && IsPath(g, q) && q[0] == u && Exit(g, q[|q| - 1])
      ensures 4 in q
    {
      assert u == 2 || u == 3;
      assert |q| > 1 && Edge(g, q[0], q[1]);
      assert q[1] == 4;
    }
  }

  // ---- dominance by cuts -----------------------------------------------------------------------------

  /** The blocks of s hold the entry and are left through a alone, which with b is not among them. */
  ghost predicate Cuts(g: Cfg, s: set<nat>, a: nat, b: nat) {
    && a !in s && b !in s && (a != 0 ==> 0 in s)
    && forall u, v :: u in s && Edge(g, u, v) && v != a ==> v in s
  }

  ghost predicate Avoidable(g: Cfg, a: nat, v: nat) {
    exists p :: Avoids(g, p, a, v)
  }

  ghost predicate Avoids(g: Cfg, p: seq<nat>, a: nat, v: nat) {
    Connects(g, p, 0, v) && a !in p
  }

  /** a dominates b exactly when it is the only way out of some set of blocks around the entry. */
  lemma DominatesExactly(g: Cfg, a: nat, b: nat)
    requires WellFormed(g)
    ensures Dominates(g, a, b) <==> exists s :: Cuts(g, s, a, b)
  {
    if s :| Cuts(g, s, a, b) {
      forall p | Connects(g, p, 0, b)
        ensures a in p
      {
        if a !in p { StaysIn(g, s, a, b, p, |p|); }
      }
    }
    if Dominates(g, a, b) {
      var s := set v: nat | v < |g.succs| && Avoidable(g, a, v);
      forall u, v | u in s && Edge(g, u, v) && v != a
        ensures v in s
      {
        var p :| Avoids(g, p, a, u);
        assert Avoids(g, p + [v], a, v);
      }
      if a != 0 { assert Avoids(g, [0], a, 0); }
      assert Cuts(g, s, a, b);
    }
  }

  ghost predicate SomeCut(g: Cfg, a: nat, b: nat) {
    exists s :: Cuts(g, s, a, b)
  }

  /** A full dominator has successors and stands between the entry and each of them. */
  lemma FullDominatorExactly(g: Cfg, b: nat)
    requires WellFormed(g)
    ensures IsFullDominator(g, b) <==> (exists s :: Edge(g, b, s)) && forall s :: Edge(g, b, s) ==> SomeCut(g, b, s)
  {
    hide Cuts, WellFormed, Dominates;
    forall s ensures Dominates(g, b, s) <==> SomeCut(g, b, s) { DominatesExactly(g, b, s); }
    if b < |g.succs| && !Exit(g, b) {
      var s :| s in g.succs[b];
      assert Edge(g, b, s);
    }
  }

  lemma {:induction false} StaysIn(g: Cfg, s: set<nat>, a: nat, b: nat, p: seq<nat>, n: nat)
    requires Cuts(g, s, a, b) && Connects(g, p, 0, b) && a !in p && n <= |p|
    ensures forall i :: 0 <= i < n ==> p[i] in s
  {
    if n > 1 {
      StaysIn(g, s, a, b, p, n - 1);
      assert Edge(g, p[n - 2], p[n - 1]);
      assert p[n - 1] in p;
    } else if n == 1 {
      assert p[0] in p;
    }
  }

  // ---- pruning loses nothing ---------------------------------------------------------------------

  /** A block with several predecessors right after a full dominator is a full dominator too. */
  lemma FullDominatorSpreads(g: Cfg, d: nat, t: nat)
    requires WellFormed(g) && AllReachable(g) && NoCriticalEdges(g)
    requires IsFullDominator(g, d) && Edge(g, d, t) && !HasSinglePredecessor(g, t)
    ensures IsFullDominator(g, t)
  {
    if d != t {
      var l := OtherPredecessor(g, d, t);
      DominatesOtherPredecessor(g, d, t, l);
      var r, k := ThroughTo(g, t, l);
      forall s | Edge(g, t, s)
        ensures Dominates(g, t, s)
      {
        LoopedSuccessor(g, t, l, r, k, s);
      }
    }
  }

  lemma OtherPredecessor(g: Cfg, d: nat, t: nat) returns (l: nat)
    requires Edge(g, d, t) && !HasSinglePredecessor(g, t)
    ensures Edge(g, l, t) && l != d
  {
    l :| Edge(g, l, t) && l != d;
  }

  lemma ThroughTo(g: Cfg, t: nat, l: nat) returns (r: seq<nat>, k: nat)
    requires AllReachable(g) && Dominates(g, t, l) && Edge(g, l, t)
    ensures Connects(g, r, 0, l) && k < |r| && r[k] == t && t !in r[k + 1..]
    ensures t < |g.succs| && !Exit(g, t)
  {
    assert Reachable(g, l);
    r :| Connects(g, r, 0, l);
    k := LastAt(r, t);
    if k + 1 < |r| { assert Edge(g, r[k], r[k + 1]); }
  }

  lemma LastAt(r: seq<nat>, t: nat) returns (k: nat)
    requires t in r
    ensures k < |r| && r[k] == t && t !in r[k + 1..]
    ensures forall j :: k < j < |r| ==> r[j] != t
  {
    k := |r| - 1;
    while r[k] != t
      invariant k < |r| && t !in r[k + 1..] && t in r[..k + 1]
      invariant forall j :: k < j < |r| ==> r[j] != t
      decreases k
    {
      assert r[..k + 1] == r[..k] + [r[k]];
      k := k - 1;
    }
  }

  lemma DominatesOtherPredecessor(g: Cfg, d: nat, t: nat, l: nat)
    requires WellFormed(g) && NoCriticalEdges(g) && IsFullDominator(g, d)
    requires Edge(g, d, t) && Edge(g, l, t) && l != d && d != t
    ensures Dominates(g, t, l)
  {
    forall w | Connects(g, w, 0, l)
      ensures t in w
    {
      assert Connects(g, w + [t], 0, t);
      assert d in w + [t];
      var k :| 0 <= k < |w| && w[k] == d;
      assert Edge(g, d, w[k + 1]);
      assert w[k + 1] == t;
    }
  }

  /** t dominates a block l that leads back to it, so it dominates its successors. */
  lemma LoopedSuccessor(g: Cfg, t: nat, l: nat, r: seq<nat>, k: nat, s: nat)
    requires WellFormed(g) && NoCriticalEdges(g) && Dominates(g, t, l) && Edge(g, l, t) && Edge(g, t, s)
    requires Connects(g, r, 0, l) && k < |r| && r[k] == t && t !in r[k + 1..]
    ensures Dominates(g, t, s)
  {
    forall w | Connects(g, w, 0, s)
      ensures t in w
    {
      if s != t {
        assert Edge(g, w[|w| - 2], s);
        if k + 1 < |r| && r[k + 1] == s {
          var around := w + r[k + 2..];
          AroundAvoids(g, w, r, k, s, l);
          assert t in around;
          assert r[k + 1..] == [s] + r[k + 2..];
        } else {
          var s' := if k + 1 < |r| then r[k + 1] else t;
          assert Edge(g, t, s');
          assert w[|w| - 2] == t;
        }
      }
    }
  }

  lemma AroundAvoids(g: Cfg, w: seq<nat>, r: seq<nat>, k: nat, s: nat, l: nat)
    requires Connects(g, w, 0, s) && Connects(g, r, 0, l) && k + 1 < |r| && r[k + 1] == s
    ensures Connects(g, w + r[k + 2..], 0, l)
  {
    var around := w + r[k + 2..];
    forall i | 0 < i < |around|
      ensures Edge(g, around[i - 1], around[i])
    {
      if i >= |w| { assert around[i] == r[k + 2 + i - |w|] && around[i - 1] == r[k + 1 + i - |w|]; }
    }
  }

  ghost predicate SameSeen(g: Cfg, p: seq<nat>, q: seq<nat>) {
    forall b :: ShouldInstrument(g, b) ==> (b in p <==> b in q)
  }

  /** The blocks that are needed: those with one predecessor that are no full dominators. */
  ghost predicate Essential(g: Cfg, b: nat) {
    0 < b < |g.succs| && !IsFullDominator(g, b) && HasSinglePredecessor(g, b)
  }

  ghost predicate SameEssential(g: Cfg, p: seq<nat>, q: seq<nat>) {
    forall b :: Essential(g, b) ==> (b in p <==> b in q)
  }

  lemma SeenAreEssential(g: Cfg, p: seq<nat>, q: seq<nat>)
    requires SameSeen(g, p, q)
    ensures SameEssential(g, p, q)
  {
    forall b | Essential(g, b) ensures ShouldInstrument(g, b) {}
  }

  /** The first block that p runs and q does not would be a full dominator. */
  lemma FirstMissing(g: Cfg, p: seq<nat>, q: seq<nat>, i: nat)
    requires WellFormed(g) && NoCriticalEdges(g) && Complete(g, p) && Complete(g, q) && SameEssential(g, p, q)
    requires i < |p| && p[i] !in q && forall j :: 0 <= j < i ==> p[j] in q
    ensures IsFullDominator(g, p[i])
  {
    assert q[0] in q;
    assert Edge(g, p[i - 1], p[i]);
    assert p[i - 1] in q;
    var k :| 0 <= k < |q| && q[k] == p[i - 1];
    SomeSuccessorRuns(g, q, k);
    assert q[k + 1] in q;
    assert p[i] in p;
    assert HasSinglePredecessor(g, p[i]);
  }

  /** No full dominator of p can be missing from q: p would go on through missing ones for ever. */
  lemma {:induction false} NoneMissing(g: Cfg, p: seq<nat>, q: seq<nat>, i: nat)
    requires WellFormed(g) && AllReachable(g) && NoCriticalEdges(g)
    requires Complete(g, p) && Complete(g, q) && SameEssential(g, p, q)
    requires i < |p| && IsFullDominator(g, p[i])
    ensures p[i] in q
    decreases |p| - i
  {
    if p[i] !in q {
      SomeSuccessorRuns(g, p, i);
      var t := p[i + 1];
      if t in q {
        DominatorRuns(g, q, p[i], t);
      } else {
        assert t in p && q[0] in q;
        if !IsFullDominator(g, t) { FullDominatorSpreads(g, p[i], t); }
        NoneMissing(g, p, q, i + 1);
      }
    }
  }

  lemma {:induction false} RunsInside(g: Cfg, p: seq<nat>, q: seq<nat>, n: nat)
    requires WellFormed(g) && AllReachable(g) && NoCriticalEdges(g)
    requires Complete(g, p) && Complete(g, q) && SameEssential(g, p, q) && n <= |p|
    ensures forall i :: 0 <= i < n ==> p[i] in q
  {
    hide WellFormed, AllReachable, NoCriticalEdges, SameEssential, IsFullDominator, IsPath;
    if n > 0 {
      RunsInside(g, p, q, n - 1);
      if p[n - 1] !in q {
        FirstMissing(g, p, q, n - 1);
        NoneMissing(g, p, q, n - 1);
      }
    }
  }

  /** Runs that agree on the essential blocks agree on all blocks. */
  lemma EssentialBlocksSuffice(g: Cfg, p: seq<nat>, q: seq<nat>, b: nat)
    requires WellFormed(g) && AllReachable(g) && NoCriticalEdges(g)
    requires Complete(g, p) && Complete(g, q) && SameEssential(g, p, q)
    ensures b in p <==> b in q
  {
    RunsInside(g, p, q, |p|);
    RunsInside(g, q, p, |q|);
  }

  /** Runs that agree on the instrumented blocks agree on all blocks. */
  lemma CoverageDetermined(g: Cfg, p: seq<nat>, q: seq<nat>, b: nat)
    requires WellFormed(g) && AllReachable(g) && NoCriticalEdges(g)
    requires Complete(g, p) && Complete(g, q) && SameSeen(g, p, q)
    ensures b in p <==> b in q
  {
    SeenAreEssential(g, p, q);
    EssentialBlocksSuffice(g, p, q, b);
  }

  predicate Takes(p: seq<nat>, u: nat, v: nat) {
    exists i :: 0 < i < |p| && p[i - 1] == u && p[i] == v
  }

  /** The edge into v that p takes, q takes as well: v is the only successor of u or u the only
      predecessor of v. */
  lemma TakesToo(g: Cfg, p: seq<nat>, q: seq<nat>, u: nat, v: nat)
    requires WellFormed(g) && NoCriticalEdges(g) && Complete(g, p) && Complete(g, q)
    requires Takes(p, u, v) && u in q && v in q
    ensures Takes(q, u, v)
  {
    var i :| 0 < i < |p| && p[i - 1] == u && p[i] == v;
    assert Edge(g, u, v);
    var k :| 0 <= k < |q| && q[k] == u;
    SomeSuccessorRuns(g, q, k);
    if q[k + 1] != v {
      var l :| 0 <= l < |q| && q[l] == v;
      assert Edge(g, q[l - 1], v) && Edge(g, u, q[k + 1]);
      assert q[l - 1] == u;
    }
  }

  /** So they also take the same edges. */
  lemma EdgesDetermined(g: Cfg, p: seq<nat>, q: seq<nat>, u: nat, v: nat)
    requires WellFormed(g) && AllReachable(g) && NoCriticalEdges(g)
    requires Complete(g, p) && Complete(g, q) && SameSeen(g, p, q)
    ensures Takes(p, u, v) <==> Takes(q, u, v)
  {
    CoverageDetermined(g, p, q, u);
    CoverageDetermined(g, p, q, v);
    hide WellFormed, AllReachable, NoCriticalEdges, SameSeen, Complete;
    if Takes(p, u, v) { TakesToo(g, p, q, u, v); }
    if Takes(q, u, v) { TakesToo(g, q, p, u, v); }
  }

  // ---- where a full dominator's coverage is found -------------------------------------------------

  lemma DominatesTransitive(g: Cfg, a: nat, b: nat, c: nat)
    requires Dominates(g, a, b) && Dominates(g, b, c)
    ensures Dominates(g, a, c)
  {
    forall p | Connects(g, p, 0, c)
      ensures a in p
    {
      var k :| 0 <= k < |p| && p[k] == b;
      assert Connects(g, p[..k + 1], 0, b);
    }
  }

  /** Going from a full dominator to the successor that its last execution leads to, again and again,
      ends at a block further down the dominator tree that this rule does not skip. */
  lemma {:induction false} DominatorDescends(g: Cfg, p: seq<nat>, b: nat, from: nat) returns (c: nat)
    requires Complete(g, p) && IsFullDominator(g, b) && from < |p| && b in p[from..]
    ensures c in p && c != b && Dominates(g, b, c) && !IsFullDominator(g, c)
    decreases |p| - from
  {
    var k := LastAt(p, b);
    assert k >= from by {
      var j :| 0 <= j < |p| - from && p[from..][j] == b;
      assert p[from + j] == b;
    }
    SomeSuccessorRuns(g, p, k);
    var s := p[k + 1];
    assert s in p[k + 1..];
    if IsFullDominator(g, s) {
      c := DominatorDescends(g, p, s, k + 1);
      DominatesTransitive(g, b, s, c);
    } else {
      c := s;
    }
  }

  // ---- why the critical edges have to go ------------------------------------------------------------

  /** Blocks 1, 2, 3 and again 4, 5, 6: the first leads to the other two, the second to the third. */
  function Unsplit(): Cfg { Cfg([{1, 4}, {2, 3}, {3}, {}, {5, 6}, {6}, {}]) }

  lemma UnsplitEdge(u: nat, v: nat)
    ensures Edge(Unsplit(), u, v)
      <==> (u, v) in {(0, 1), (0, 4), (1, 2), (1, 3), (2, 3), (4, 5), (4, 6), (5, 6)}
    ensures |Unsplit().succs| == 7 && forall b: nat :: b < 7 ==> (Exit(Unsplit(), b) <==> b == 3 || b == 6)
  {
  }

  lemma {:induction false} UnsplitIn(p: seq<nat>, o: nat)
    requires o == 0 || o == 3
    requires IsPath(Unsplit(), p) && p[0] == 0 && 2 + o <= p[|p| - 1] <= 3 + o
    ensures 1 + o in p
  {
    hide Unsplit, Edge;
    var n := |p|;
    UnsplitEdge(p[n - 2], p[n - 1]);
    if p[n - 2] != 1 + o {
      UnsplitIn(p[..n - 1], o);
    }
  }

  lemma {:induction false} UnsplitOut(p: seq<nat>, o: nat)
    requires o == 0 || o == 3
    requires IsPath(Unsplit(), p) && 1 + o <= p[0] <= 3 + o
    ensures 1 + o <= p[|p| - 1] <= 3 + o
  {
    hide Unsplit, Edge;
    if |p| > 1 {
      UnsplitEdge(p[0], p[1]);
      UnsplitOut(p[1..], o);
    }
  }

  lemma UnsplitDominator(o: nat)
    requires o == 0 || o == 3
    ensures IsFullDominator(Unsplit(), 1 + o)
  {
    hide Unsplit, Edge;
    var d := 1 + o;
    UnsplitEdge(0, 0);
    forall s | Edge(Unsplit(), d, s)
      ensures Dominates(Unsplit(), d, s)
    {
      UnsplitEdge(d, s);
      forall p | Connects(Unsplit(), p, 0, s)
        ensures d in p
      {
        UnsplitIn(p, o);
      }
    }
  }

  lemma UnsplitPostDominator(o: nat)
    requires o == 0 || o == 3
    ensures IsFullPostDominator(Unsplit(), 3 + o) && !HasSinglePredecessor(Unsplit(), 3 + o)
  {
    hide Unsplit, Edge;
    var t := 3 + o;
    UnsplitEdge(1 + o, t);
    UnsplitEdge(2 + o, t);
    forall u | Edge(Unsplit(), u, t)
      ensures PostDominates(Unsplit(), t, u)
    {
      UnsplitEdge(u, t);
      forall p | IsPath(Unsplit(), p) && p[0] == u && Exit(Unsplit(), p[|p| - 1])
        ensures t in p
      {
        UnsplitOut(p, o);
      }
    }
  }

  lemma UnsplitPath(p: seq<nat>)
    requires p in {[0], [0, 1], [0, 1, 2], [0, 1, 3], [0, 4], [0, 4, 5], [0, 4, 6]}
    ensures Connects(Unsplit(), p, 0, p[|p| - 1])
  {
    hide Unsplit, Edge;
    UnsplitEdge(0, if |p| > 1 then p[1] else 0);
    if |p| > 2 { UnsplitEdge(p[1], p[2]); }
  }

  lemma UnsplitReachable()
    ensures AllReachable(Unsplit())
  {
    hide Unsplit, Edge, Connects;
    UnsplitEdge(0, 0);
    UnsplitPath([0]);
    UnsplitPath([0, 1]);
    UnsplitPath([0, 1, 2]);
    UnsplitPath([0, 1, 3]);
    UnsplitPath([0, 4]);
    UnsplitPath([0, 4, 5]);
    UnsplitPath([0, 4, 6]);
  }

  /** Blocks 1 and 2 both lead to 3, and 1 leads elsewhere too. */
  lemma UnsplitCritical()
    ensures !NoCriticalEdges(Unsplit())
  {
    hide Unsplit, Edge;
    UnsplitEdge(1, 3);
    UnsplitEdge(1, 2);
    UnsplitEdge(2, 3);
  }

  /** With the critical edges left in, two runs can agree on every instrumented block and differ. */
  lemma CriticalEdgesLoseCoverage()
    ensures Complete(Unsplit(), [0, 1, 3]) && Complete(Unsplit(), [0, 4, 6])
    ensures WellFormed(Unsplit()) && SameSeen(Unsplit(), [0, 1, 3], [0, 4, 6])
    ensures 1 in [0, 1, 3] && 1 !in [0, 4, 6]
    ensures AllReachable(Unsplit()) && !NoCriticalEdges(Unsplit())
  {
    UnsplitReachable();
    UnsplitCritical();
    hide AllReachable, NoCriticalEdges;
    hide Unsplit, Edge, IsFullDominator, IsFullPostDominator, HasSinglePredecessor;
    forall u: nat, v: nat ensures Edge(Unsplit(), u, v) ==> 0 < v < 7 { UnsplitEdge(u, v); }
    UnsplitEdge(0, 1);
    UnsplitEdge(1, 3);
    UnsplitEdge(0, 4);
    UnsplitEdge(4, 6);
    UnsplitDominator(0);
    UnsplitDominator(3);
    UnsplitPostDominator(0);
    UnsplitPostDominator(3);
  }
}
