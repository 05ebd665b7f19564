/** afl-fuzz.h: bounded random numbers.  The generator is an arbitrary tape of 64-bit draws; a
    run that would need more draws than the tape holds is cut short and marked dry, so what holds
    for every tape and every run that is not dry holds for every execution that terminates. */
module RandBelow {
  import opened LittleEndian

  const UINT64_MAX: nat := 0xFFFF_FFFF_FFFF_FFFF

  /** Draws at or above this bound are rejected. */
  function Bound(limit: nat): (b: nat)
    requires limit > 1
    ensures b <= UINT64_MAX
  {
    UINT64_MAX - UINT64_MAX % limit
  }

  /** How many accepted draws give each result. */
  function Share(limit: nat): nat
    requires limit > 1
  {
    UINT64_MAX / limit
  }

  lemma BoundFits(limit: nat)
    requires limit > 1
    ensures Bound(limit) <= UINT64_MAX
  {
  }

  lemma BoundIsShares(limit: nat)
    requires limit > 1
    ensures Bound(limit) == Share(limit) * limit
  {
  }

  /** Fewer than limit draws are rejected, and the accepted ones come in whole rounds. */
  lemma FewRejected(limit: nat)
    requires 1 < limit <= UINT64_MAX
    ensures UINT64_MAX - limit < Bound(limit) <= UINT64_MAX && Bound(limit) % limit == 0
  {
    ModUnique(Bound(limit), limit, UINT64_MAX / limit, 0);
  }

  ghost function Preimages(limit: nat, r: nat): set<nat>
    requires limit > 1
  {
    set x: nat | 0 <= x < Bound(limit) && x % limit == r
  }

  ghost function Progression(limit: nat, r: nat, k: nat): set<nat>
    requires limit > 1
  {
    set q: nat | q < k :: q * limit + r
  }

  lemma {:induction false} ProgressionSize(limit: nat, r: nat, k: nat)
    requires limit > 1
    ensures |Progression(limit, r, k)| == k
  {
    if k == 0 {
      assert Progression(limit, r, 0) == {};
    } else {
      ProgressionSize(limit, r, k - 1);
      ProgressionStep(limit, r, k);
    }
  }

  lemma ProgressionStep(limit: nat, r: nat, k: nat)
    requires limit > 1 && k > 0
    ensures Progression(limit, r, k) == Progression(limit, r, k - 1) + {(k - 1) * limit + r}
    ensures (k - 1) * limit + r !in Progression(limit, r, k - 1)
  {
    var last := (k - 1) * limit + r;
    forall x | x in Progression(limit, r, k)
      ensures x in Progression(limit, r, k - 1) || x == last
    {
      var q: nat :| q < k && x == q * limit + r;
      if q < k - 1 { assert x in Progression(limit, r, k - 1); }
    }
    forall x | x in Progression(limit, r, k - 1)
      ensures x in Progression(limit, r, k) && x != last
    {
      var q: nat :| q < k - 1 && x == q * limit + r;
      BelowProduct(q, k - 1, limit, 0);
    }
  }

  lemma DivMod(x: nat, m: nat, k: nat, r: nat)
    requires m > 0 && r < m
    ensures x % m == r <==> x == (x / m) * m + r
    ensures (k * m + r) % m == r && (k * m + r) / m == k
  {
    assert x == m * (x / m) + x % m;
    assert k * m == m * k && (x / m) * m == m * (x / m);
    ModUnique(k * m + r, m, k, r);
  }

  /** Exact uniformity: every result has the same number of accepted draws. */
  lemma Uniform(limit: nat, r: nat)
    requires limit > 1 && r < limit
    ensures |Preimages(limit, r)| == Share(limit)
  {
    var k := Share(limit);
    BoundIsShares(limit);
    ProgressionSize(limit, r, k);
    assert Preimages(limit, r) == Progression(limit, r, k) by {
      forall x: nat
        ensures x in Preimages(limit, r) <==> x in Progression(limit, r, k)
      {
        DivMod(x, limit, x / limit, r);
        if x in Preimages(limit, r) {
          BelowProduct(x / limit, k, limit, r);
        }
        if x in Progression(limit, r, k) {
          var q: nat :| q < k && x == q * limit + r;
          DivMod(x, limit, q, r);
          BelowProduct(q, k, limit, r);
        }
      }
    }
  }

  lemma BelowProduct(q: nat, k: nat, m: nat, r: nat)
    requires r < m
    ensures q * m + r < k * m <==> q < k
  {
    assert q * m == m * q && k * m == m * k;
    if q < k {
      MulMonotone(m, q + 1, k);
      assert m * (q + 1) == m * q + m;
    } else {
      MulMonotone(m, k, q);
    }
  }

  /** The k-th draw of a tape. */
  function Draw(tape: seq<nat>, k: nat): nat
    requires k < |tape|
  {
    tape[k] % (UINT64_MAX + 1)
  }

  /** r comes from draw k, the first one that is accepted. */
  predicate Accepts(tape: seq<nat>, limit: nat, k: nat, r: nat)
    requires limit > 1
  {
    && k < |tape| && Draw(tape, k) < Bound(limit) && r == Draw(tape, k) % limit
    && forall j :: 0 <= j < k ==> Draw(tape, j) >= Bound(limit)
  }

  // ---- what a run asked for and got ------------------------------------------------------------

  /** One request for a random number with its answer: of rand_next, or of rand_below. */
  datatype Drawn = Raw(x: nat) | Bounded(limit: nat, r: nat)

  /** The answer to one request comes from the next draws of the tape. */
  ghost predicate Answers(tape: seq<nat>, d: Drawn, rest: seq<nat>) {
    match d
    case Raw(x) => tape != [] && x == Draw(tape, 0) && rest == tape[1..]
    case Bounded(limit, r) =>
      if limit <= 1 then r == 0 && rest == tape else exists k: nat :: AcceptsAt(tape, limit, k, r, rest)
  }

  predicate AcceptsAt(tape: seq<nat>, limit: nat, k: nat, r: nat, rest: seq<nat>)
    requires limit > 1
  {
    Accepts(tape, limit, k, r) && rest == tape[k + 1..]
  }

  /** The answers to all requests in turn come from the tape, of which rest is left. */
  ghost predicate Replays(tape: seq<nat>, log: seq<Drawn>, rest: seq<nat>)
    decreases |log|
  {
    if log == [] then rest == tape
    else exists mid :: Replays(tape, Front(log), mid) && Answers(mid, Last(log), rest)
  }

  function Front<T>(s: seq<T>): (f: seq<T>)
    requires s != []
    ensures |f| == |s| - 1
  {
    s[..|s| - 1]
  }

  function Last<T>(s: seq<T>): T
    requires s != []
  {
    s[|s| - 1]
  }

  lemma ReplaysSnoc(tape: seq<nat>, log: seq<Drawn>, mid: seq<nat>, d: Drawn, rest: seq<nat>)
    requires Replays(tape, log, mid) && Answers(mid, d, rest)
    ensures Replays(tape, log + [d], rest)
  {
    hide Answers;
    assert Front(log + [d]) == log && Last(log + [d]) == d;
  }

  /** Nothing but the tape decides: a list of requests has one list of answers. */
  lemma {:induction false} ReplaysUnique(tape: seq<nat>, a: seq<Drawn>, b: seq<Drawn>, restA: seq<nat>, restB: seq<nat>)
    requires Replays(tape, a, restA) && Replays(tape, b, restB) && |a| == |b|
    requires forall i :: 0 <= i < |a| ==> SameRequest(a[i], b[i])
    ensures a == b && restA == restB
  {
    hide Answers, SameRequest;
    if a != [] {
      var midA :| Replays(tape, Front(a), midA) && Answers(midA, Last(a), restA);
      var midB :| Replays(tape, Front(b), midB) && Answers(midB, Last(b), restB);
      ReplaysUnique(tape, Front(a), Front(b), midA, midB);
      AnswerUnique(midA, Last(a), Last(b), restA, restB);
      assert a == Front(a) + [Last(a)] && b == Front(b) + [Last(b)];
    }
  }

  predicate SameRequest(a: Drawn, b: Drawn) {
    (a.Raw? && b.Raw?) || (a.Bounded? && b.Bounded? && a.limit == b.limit)
  }

  lemma AnswerUnique(tape: seq<nat>, a: Drawn, b: Drawn, restA: seq<nat>, restB: seq<nat>)
    requires Answers(tape, a, restA) && Answers(tape, b, restB) && SameRequest(a, b)
    ensures a == b && restA == restB
  {
    hide Bound;
    if a.Bounded? && a.limit > 1 {
      var k: nat :| AcceptsAt(tape, a.limit, k, a.r, restA);
      var l: nat :| AcceptsAt(tape, b.limit, l, b.r, restB);
      assert k == l;
    }
  }

  /** The three shapes of rand_below_datalen. */
  function Nested(which: nat, a: nat, b: nat, c: nat): nat {
    if which == 2 then (a % (1 + b)) % (1 + c) else if which == 1 then a % (1 + b) else a
  }

  lemma RemainderLess(a: nat, m: nat)
    requires m > 0
    ensures a % m <= a
  {
    if a < m { ModUnique(a, m, 0, a); }
  }

  class Rng {
    var tape: seq<nat>
    var dry: bool
    ghost var log: seq<Drawn>
    ghost const origin: seq<nat>

    constructor (tape: seq<nat>)
      ensures this.tape == tape == origin && !dry && log == [] && Honest()
    {
      this.tape, dry, log, origin := tape, false, [], tape;
    }

    /** All answers so far come from the tape. */
    ghost predicate Honest()
      reads this
    {
      !dry ==> Replays(origin, log, tape)
    }

    /** The requests d were made and answered. */
    twostate predicate Asked(d: seq<Drawn>)
      reads this
    {
      && log == old(log) + d && (old(dry) ==> dry) && |tape| <= old(|tape|)
      && (old(Honest()) ==> Honest())
    }

    /** The next draw. */
    method NextDraw() returns (x: nat)
      modifies this`tape, this`dry
      ensures x <= UINT64_MAX && (old(dry) ==> dry) && |tape| <= old(|tape|)
      ensures !dry ==> old(tape) != [] && x == Draw(old(tape), 0) && tape == old(tape)[1..]
      ensures dry == (old(dry) || old(tape) == [])
    {
      if tape == [] {
        dry := true;
        return 0;
      }
      x := tape[0] % (UINT64_MAX + 1);
      tape := tape[1..];
    }

    /** rand_next. */
    method RandNext() returns (x: nat)
      modifies this
      ensures x <= UINT64_MAX && Asked([Raw(x)])
    {
      ghost var before := tape;
      x := NextDraw();
      if !dry && Replays(origin, log, before) { ReplaysSnoc(origin, log, before, Raw(x), tape); }
      log := log + [Raw(x)];
    }

    /** rand_below: redraw until the draw is accepted. */
    method Below(limit: nat) returns (r: nat)
      modifies this
      ensures (r < limit || (limit == 0 && r == 0)) && Asked([Bounded(limit, r)])
      ensures limit > 1 && !dry ==> |tape| < old(|tape|)
    {
      ghost var before := tape;
      r := Draws(limit);
      if !dry && Replays(origin, log, before) { ReplaysSnoc(origin, log, before, Bounded(limit, r), tape); }
      log := log + [Bounded(limit, r)];
    }

    method Draws(limit: nat) returns (r: nat)
      modifies this`tape, this`dry
      ensures r < limit || (limit == 0 && r == 0)
      ensures (old(dry) ==> dry) && |tape| <= old(|tape|)
      ensures !dry ==> Answers(old(tape), Bounded(limit, r), tape)
    {
      if limit <= 1 { return 0; }
      hide Bound;
      BoundFits(limit);
      var unbiased := NextDraw();
      ghost var k: nat := 0;   // which draw that is
      while unbiased >= Bound(limit) && !dry
        invariant (old(dry) ==> dry) && |tape| <= old(|tape|) && unbiased <= UINT64_MAX
        invariant !dry ==> k + 1 + |tape| == |old(tape)| && unbiased == Draw(old(tape), k) && tape == old(tape)[k + 1..]
        invariant !dry ==> forall j :: 0 <= j < k ==> Draw(old(tape), j) >= Bound(limit)
        decreases |tape|, !dry
      {
        assert tape == old(tape)[k + 1..];
        unbiased := NextDraw();
        k := k + 1;
      }
      r := unbiased % limit;
      assert !dry ==> AcceptsAt(old(tape), limit, k, r, tape);
    }

    /** rand_below_datalen: smaller results are likelier, all are below the limit; the requests it
        makes depend on the first answer. */
    method BelowDatalen(limit: nat) returns (r: nat, ghost which: nat, ghost a: nat, ghost b: nat, ghost c: nat)
      modifies this
      ensures r < limit || (limit == 0 && r == 0)
      ensures limit > 1 ==> which < 3 && a < limit && b < limit && c < limit
      ensures r == Nested(which, a, b, c) <= a
      ensures limit <= 1 ==> r == 0
      ensures Asked(if limit <= 1 then [] else NestedRequests(limit, which, a, b, c))
    {
      r, which, a, b, c := 0, 0, 0, 0, 0;
      if limit <= 1 { return; }
      var w := Below(3);
      var first := Below(limit);
      which, a := w, first;
      if w == 2 {
        var second := Below(limit - 1);
        var third := Below(limit - 1);
        r := (first % (1 + second)) % (1 + third);
        b, c := second, third;
        RemainderLess(first, 1 + second);
        RemainderLess(first % (1 + second), 1 + third);
      } else if w == 1 {
        var second := Below(limit - 1);
        r := first % (1 + second);
        b := second;
        RemainderLess(first, 1 + second);
      } else {
        r := first;
      }
    }
  }

  function NestedRequests(limit: nat, which: nat, a: nat, b: nat, c: nat): seq<Drawn>
    requires limit > 1
  {
    [Bounded(3, which), Bounded(limit, a)]
    + if which == 2 then [Bounded(limit - 1, b), Bounded(limit - 1, c)]
      else if which == 1 then [Bounded(limit - 1, b)]
      else []
  }
}
