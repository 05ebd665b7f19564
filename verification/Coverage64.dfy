/** coverage-64.h: the 64-bit word loops over a coverage map, portable form. */
module Coverage64 {
  import opened CoverageBytes

  /** The bytes of a word as they lie in memory. */
  function ByteOf(w: bv64, shift: bv7): bv8
    requires shift <= 56
  {
    ((w >> shift) & 0xff) as bv8
  }

  function Split(w: bv64): (b: Map)
    ensures |b| == 8
  {
    [ByteOf(w, 0 as bv7), ByteOf(w, 8 as bv7), ByteOf(w, 16 as bv7), ByteOf(w, 24 as bv7),
     ByteOf(w, 32 as bv7), ByteOf(w, 40 as bv7), ByteOf(w, 48 as bv7), ByteOf(w, 56 as bv7)]
  }

  function Bytes(words: seq<bv64>): (b: Map)
    ensures |b| == 8 * |words| && |b| % 2 == 0
  {
    if words == [] then [] else Bytes(words[..|words| - 1]) + Split(words[|words| - 1])
  }

  /** The byte test inside discover_word. */
  predicate AnyFirstHit(c: Map, v: Map)
    requires |c| == 8 && |v| == 8
  {
    FirstHit(c[0], v[0]) || FirstHit(c[1], v[1]) || FirstHit(c[2], v[2]) || FirstHit(c[3], v[3])
    || FirstHit(c[4], v[4]) || FirstHit(c[5], v[5]) || FirstHit(c[6], v[6]) || FirstHit(c[7], v[7])
  }

  function AndWords(c: bv64, v: bv64): bv64 { c & v }
  function ClearWord(c: bv64, v: bv64): bv64 { v & !c }
  predicate NonZero(w: bv64) { w != 0 }

  /** discover_word: the new *ret and *virgin. */
  function DiscoverWord(ret: nat, c: bv64, v: bv64): (nat, bv64) {
    if NonZero(AndWords(c, v)) then
      (if ret < 2 then (if AnyFirstHit(Split(c), Split(v)) then 2 else 1) else ret, ClearWord(c, v))
    else (ret, v)
  }

  lemma ZeroBytes(w: bv64)
    ensures !NonZero(w) <==>
      ByteOf(w, 0 as bv7) == 0 && ByteOf(w, 8 as bv7) == 0 && ByteOf(w, 16 as bv7) == 0 && ByteOf(w, 24 as bv7) == 0
      && ByteOf(w, 32 as bv7) == 0 && ByteOf(w, 40 as bv7) == 0 && ByteOf(w, 48 as bv7) == 0 && ByteOf(w, 56 as bv7) == 0
  {
  }

  lemma BytesOfAnd(c: bv64, v: bv64)
    ensures (ByteOf(AndWords(c, v), 0 as bv7) != 0) == AddsBits(ByteOf(c, 0 as bv7), ByteOf(v, 0 as bv7))
    ensures (ByteOf(AndWords(c, v), 8 as bv7) != 0) == AddsBits(ByteOf(c, 8 as bv7), ByteOf(v, 8 as bv7))
    ensures (ByteOf(AndWords(c, v), 16 as bv7) != 0) == AddsBits(ByteOf(c, 16 as bv7), ByteOf(v, 16 as bv7))
    ensures (ByteOf(AndWords(c, v), 24 as bv7) != 0) == AddsBits(ByteOf(c, 24 as bv7), ByteOf(v, 24 as bv7))
    ensures (ByteOf(AndWords(c, v), 32 as bv7) != 0) == AddsBits(ByteOf(c, 32 as bv7), ByteOf(v, 32 as bv7))
    ensures (ByteOf(AndWords(c, v), 40 as bv7) != 0) == AddsBits(ByteOf(c, 40 as bv7), ByteOf(v, 40 as bv7))
    ensures (ByteOf(AndWords(c, v), 48 as bv7) != 0) == AddsBits(ByteOf(c, 48 as bv7), ByteOf(v, 48 as bv7))
    ensures (ByteOf(AndWords(c, v), 56 as bv7) != 0) == AddsBits(ByteOf(c, 56 as bv7), ByteOf(v, 56 as bv7))
  {
  }

  lemma BytesOfClear(c: bv64, v: bv64)
    ensures ByteOf(ClearWord(c, v), 0 as bv7) == ClearByte(ByteOf(c, 0 as bv7), ByteOf(v, 0 as bv7))
    ensures ByteOf(ClearWord(c, v), 8 as bv7) == ClearByte(ByteOf(c, 8 as bv7), ByteOf(v, 8 as bv7))
    ensures ByteOf(ClearWord(c, v), 16 as bv7) == ClearByte(ByteOf(c, 16 as bv7), ByteOf(v, 16 as bv7))
    ensures ByteOf(ClearWord(c, v), 24 as bv7) == ClearByte(ByteOf(c, 24 as bv7), ByteOf(v, 24 as bv7))
    ensures ByteOf(ClearWord(c, v), 32 as bv7) == ClearByte(ByteOf(c, 32 as bv7), ByteOf(v, 32 as bv7))
    ensures ByteOf(ClearWord(c, v), 40 as bv7) == ClearByte(ByteOf(c, 40 as bv7), ByteOf(v, 40 as bv7))
    ensures ByteOf(ClearWord(c, v), 48 as bv7) == ClearByte(ByteOf(c, 48 as bv7), ByteOf(v, 48 as bv7))
    ensures ByteOf(ClearWord(c, v), 56 as bv7) == ClearByte(ByteOf(c, 56 as bv7), ByteOf(v, 56 as bv7))
  {
  }

  lemma SplitIndex(w: bv64)
    ensures Split(w)[0] == ByteOf(w, 0 as bv7)
    ensures Split(w)[1] == ByteOf(w, 8 as bv7)
    ensures Split(w)[2] == ByteOf(w, 16 as bv7)
    ensures Split(w)[3] == ByteOf(w, 24 as bv7)
    ensures Split(w)[4] == ByteOf(w, 32 as bv7)
    ensures Split(w)[5] == ByteOf(w, 40 as bv7)
    ensures Split(w)[6] == ByteOf(w, 48 as bv7)
    ensures Split(w)[7] == ByteOf(w, 56 as bv7)
  {
    hide ByteOf;
  }

  lemma EightEqual<T>(a: seq<T>, b: seq<T>)
    requires |a| == |b| == 8
    requires a[0] == b[0] && a[1] == b[1] && a[2] == b[2] && a[3] == b[3]
    requires a[4] == b[4] && a[5] == b[5] && a[6] == b[6] && a[7] == b[7]
    ensures a == b
  {
  }

  lemma SplitClear(c: bv64, v: bv64)
    ensures Split(ClearWord(c, v)) == Cleared(Split(c), Split(v))
  {
    hide Split, ByteOf, ClearWord, ClearByte;
    SplitIndex(c);
    SplitIndex(v);
    SplitIndex(ClearWord(c, v));
    BytesOfClear(c, v);
    EightEqual(Split(ClearWord(c, v)), Cleared(Split(c), Split(v)));
  }

  lemma EightBytes(p: (bv8, bv8) -> bool, c: Map, v: Map)
    requires |c| == 8 && |v| == 8
    ensures Somewhere(p, c, v) <==>
      p(c[0], v[0]) || p(c[1], v[1]) || p(c[2], v[2]) || p(c[3], v[3])
      || p(c[4], v[4]) || p(c[5], v[5]) || p(c[6], v[6]) || p(c[7], v[7])
  {
  }

  /** The word test is the byte test. */
  lemma AndIsNewBits(c: bv64, v: bv64)
    ensures NonZero(AndWords(c, v)) <==> NewBits(Split(c), Split(v))
  {
    hide Split, ByteOf, AndWords, AddsBits, NonZero, Somewhere;
    SplitIndex(c);
    SplitIndex(v);
    BytesOfAnd(c, v);
    ZeroBytes(AndWords(c, v));
    EightBytes(AddsBits, Split(c), Split(v));
  }

  /** discover_word on one word is the byte-level verdict and update. */
  lemma DiscoverWordRefines(ret: nat, c: bv64, v: bv64)
    requires ret <= 2
    ensures DiscoverWord(ret, c, v).0 == Max(ret, Verdict(Split(c), Split(v)))
    ensures Split(DiscoverWord(ret, c, v).1) == Cleared(Split(c), Split(v))
  {
    AndIsNewBits(c, v);
    SplitClear(c, v);
    EightBytes(FirstHit, Split(c), Split(v));
    ByteIsBits(Split(c), Split(v));
    NothingToClear(Split(c), Split(v));
    hide Split, AndWords, ClearWord, NonZero, Somewhere, FirstHit, NewBits, Cleared;
  }

  lemma NothingToClear(c: Map, v: Map)
    requires |c| == |v|
    ensures !NewBits(c, v) ==> Cleared(c, v) == v
  {
    forall k | 0 <= k < |c| && !NewBits(c, v)
      ensures ClearByte(c[k], v[k]) == v[k]
    {
      assert !AddsBits(c[k], v[k]);
      ClearIdle(c[k], v[k]);
    }
  }

  lemma ClearIdle(c: bv8, v: bv8)
    ensures !AddsBits(c, v) ==> ClearByte(c, v) == v
  {
  }

  // ---- whole maps -----------------------------------------------------------------------

  lemma BytesSnoc(words: seq<bv64>, w: bv64)
    ensures Bytes(words + [w]) == Bytes(words) + Split(w)
  {
    hide Split;
    assert (words + [w])[..|words|] == words;
  }

  /** One word more: the verdict and the update of the longer map. */
  lemma DiscoverStep(ret0: nat, current: seq<bv64>, virgin: seq<bv64>, c: bv64, v: bv64)
    requires |current| == |virgin| && ret0 <= 2
    ensures DiscoverWord(Max(ret0, Verdict(Bytes(current), Bytes(virgin))), c, v).0
         == Max(ret0, Verdict(Bytes(current + [c]), Bytes(virgin + [v])))
    ensures Cleared(Bytes(current), Bytes(virgin)) + Split(DiscoverWord(ret0, c, v).1)
         == Cleared(Bytes(current + [c]), Bytes(virgin + [v]))
  {
    BytesSnoc(current, c);
    BytesSnoc(virgin, v);
    VerdictAppend(Bytes(current), Bytes(virgin), Split(c), Split(v));
    DiscoverWordRefines(ret0, c, v);
    DiscoverWordRefines(Max(ret0, Verdict(Bytes(current), Bytes(virgin))), c, v);
    hide Bytes, Split, DiscoverWord, Cleared, NewByte, NewBits;
  }

  lemma ClearIgnoresRet(ret1: nat, ret2: nat, c: bv64, v: bv64)
    ensures DiscoverWord(ret1, c, v).1 == DiscoverWord(ret2, c, v).1
  {
    hide Split, AndWords, ClearWord;
  }

  /** discover_word on every word of a map: how a caller finds new coverage in a trace. */
  method DiscoverMap(ret0: nat, current: seq<bv64>, virgin: array<bv64>) returns (ret: nat)
    requires |current| == virgin.Length && ret0 <= 2
    modifies virgin
    ensures ret == Max(ret0, Verdict(Bytes(current), Bytes(old(virgin[..]))))
    ensures Bytes(virgin[..]) == Cleared(Bytes(current), Bytes(old(virgin[..])))
  {
    hide Bytes, Split, DiscoverWord, Cleared, Verdict;
    ghost var old_v := virgin[..];
    EmptyVerdict();
    ret := ret0;
    for i := 0 to |current|
      invariant virgin[i..] == old_v[i..] && |old_v| == |current| && ret <= 2
      invariant ret == Max(ret0, Verdict(Bytes(current[..i]), Bytes(old_v[..i])))
      invariant Bytes(virgin[..i]) == Cleared(Bytes(current[..i]), Bytes(old_v[..i]))
    {
      DiscoverStep(ret0, current[..i], old_v[..i], current[i], old_v[i]);
      ClearIgnoresRet(ret, ret0, current[i], old_v[i]);
      BytesSnoc(virgin[..i], DiscoverWord(ret, current[i], old_v[i]).1);
      VerdictRange(Bytes(current[..i] + [current[i]]), Bytes(old_v[..i] + [old_v[i]]));
      assert current[..i + 1] == current[..i] + [current[i]];
      assert old_v[..i + 1] == old_v[..i] + [old_v[i]];
      assert virgin[i] == virgin[i..][0] == old_v[i];
      var (r, v) := DiscoverWord(ret, current[i], virgin[i]);
      ret := r;
      virgin[i] := v;
      assert virgin[..i + 1] == virgin[..i] + [v];
    }
    assert current[..|current|] == current && old_v[..|current|] == old_v && virgin[..|current|] == virgin[..];
  }

  lemma EmptyVerdict()
    ensures Bytes([]) == [] && Verdict([], []) == 0 && Cleared([], []) == []
  {
  }

  lemma VerdictRange(c: Map, v: Map)
    requires |c| == |v|
    ensures Verdict(c, v) <= 2
  {
    hide NewByte, NewBits;
  }

  // ---- histories ------------------------------------------------------------------------

  function ByteTraces(traces: seq<seq<bv64>>): (b: seq<Map>)
    ensures |b| == |traces|
  {
    seq(|traces|, j requires 0 <= j < |traces| => Bytes(traces[j]))
  }

  lemma SplitOnes()
    ensures Split(0xffff_ffff_ffff_ffff) == Virgin(8)
  {
    SplitIndex(0xffff_ffff_ffff_ffff);
    OnesBytes();
    hide Split, ByteOf;
    EightEqual(Split(0xffff_ffff_ffff_ffff), Virgin(8));
  }

  lemma OnesBytes()
    ensures ByteOf(0xffff_ffff_ffff_ffff, 0 as bv7) == 0xff
    ensures ByteOf(0xffff_ffff_ffff_ffff, 8 as bv7) == 0xff
    ensures ByteOf(0xffff_ffff_ffff_ffff, 16 as bv7) == 0xff
    ensures ByteOf(0xffff_ffff_ffff_ffff, 24 as bv7) == 0xff
    ensures ByteOf(0xffff_ffff_ffff_ffff, 32 as bv7) == 0xff
    ensures ByteOf(0xffff_ffff_ffff_ffff, 40 as bv7) == 0xff
    ensures ByteOf(0xffff_ffff_ffff_ffff, 48 as bv7) == 0xff
    ensures ByteOf(0xffff_ffff_ffff_ffff, 56 as bv7) == 0xff
  {
  }

  /** A virgin map: every bit unseen. */
  function Ones(n: nat): seq<bv64> { seq(n, _ => 0xffff_ffff_ffff_ffff) }

  lemma {:induction false} VirginWords(n: nat)
    ensures Bytes(Ones(n)) == Virgin(8 * n)
  {
    hide Split;
    if n > 0 {
      VirginWords(n - 1);
      SplitOnes();
      assert Ones(n) == Ones(n - 1) + [0xffff_ffff_ffff_ffff];
      BytesSnoc(Ones(n - 1), 0xffff_ffff_ffff_ffff);
      assert Virgin(8 * (n - 1)) + Virgin(8) == Virgin(8 * n);
    }
  }

  method NewVirgin(n: nat) returns (virgin: array<bv64>)
    ensures fresh(virgin) && virgin.Length == n && Bytes(virgin[..]) == Virgin(8 * n)
  {
    hide Bytes;
    virgin := new bv64[n](_ => 0xffff_ffff_ffff_ffff);
    VirginWords(n);
    assert virgin[..] == Ones(n);
  }

  lemma TracesSized(traces: seq<seq<bv64>>, n: nat)
    requires forall j :: 0 <= j < |traces| ==> |traces[j]| == n
    ensures Sized(ByteTraces(traces), 8 * n)
    ensures forall j :: 0 <= j < |traces| ==> ByteTraces(traces)[j] == Bytes(traces[j])
  {
    hide Bytes;
  }

  /** Any list of traces against a map never touched: the final map and every verdict are those
      of the byte-level history. */
  method DiscoverAll(traces: seq<seq<bv64>>, n: nat) returns (virgin: array<bv64>, verdicts: seq<nat>)
    requires forall j :: 0 <= j < |traces| ==> |traces[j]| == n
    ensures fresh(virgin) && virgin.Length == n
    ensures Sized(ByteTraces(traces), 8 * n) && Bytes(virgin[..]) == After(ByteTraces(traces), 8 * n)
    ensures |verdicts| == |traces| && InHistory(ByteTraces(traces), 8 * n, verdicts)
  {
    hide Bytes, Split, Cleared, Verdict, After, ByteTraces, Virgin, Sized, InHistory;
    ghost var b := ByteTraces(traces);
    TracesSized(traces, n);
    HistoryStarts(b, 8 * n);
    virgin := NewVirgin(n);
    verdicts := [];
    for j := 0 to |traces|
      invariant fresh(virgin) && virgin.Length == n && |verdicts| == j
      invariant Bytes(virgin[..]) == After(b[..j], 8 * n)
      invariant InHistory(b, 8 * n, verdicts)
    {
      var ret := DiscoverMap(0, traces[j], virgin);
      HistoryGrows(b, 8 * n, verdicts, ret);
      verdicts := verdicts + [ret];
    }
    assert b[..|traces|] == b;
  }

  // ---- classification and skim -------------------------------------------------------------

  function HalfOf(w: bv64, shift: bv7): bv16
    requires shift <= 48
  {
    ((w >> shift) & 0xffff) as bv16
  }

  function JoinHalves(a: bv16, b: bv16, c: bv16, d: bv16): bv64 {
    (a as bv64) | ((b as bv64) << (16 as bv7)) | ((c as bv64) << (32 as bv7)) | ((d as bv64) << (48 as bv7))
  }

  /** classify_word, over count_class_lookup16. */
  function ClassifyWord(lookup: bv16 -> bv16, w: bv64): bv64 {
    JoinHalves(lookup(HalfOf(w, 0 as bv7)), lookup(HalfOf(w, 16 as bv7)),
               lookup(HalfOf(w, 32 as bv7)), lookup(HalfOf(w, 48 as bv7)))
  }

  function Classified(lookup: bv16 -> bv16, words: seq<bv64>): seq<bv64> {
    seq(|words|, i requires 0 <= i < |words| => ClassifyWord(lookup, words[i]))
  }

  lemma ZeroHalves()
    ensures HalfOf(0, 0 as bv7) == 0 && HalfOf(0, 16 as bv7) == 0 && HalfOf(0, 32 as bv7) == 0 && HalfOf(0, 48 as bv7) == 0
    ensures JoinHalves(0, 0, 0, 0) == 0
  {
  }

  lemma ClassifyZero(lookup: bv16 -> bv16)
    requires lookup(0) == 0
    ensures ClassifyWord(lookup, 0) == 0
  {
    ZeroHalves();
    hide HalfOf, JoinHalves;
  }

  /** classify_counts: skipping zero words classifies every half-word all the same. */
  method ClassifyCounts(lookup: bv16 -> bv16, trace: array<bv64>, mapSize: nat)
    requires lookup(0) == 0 && mapSize / 8 <= trace.Length
    modifies trace
    ensures trace[..mapSize / 8] == Classified(lookup, old(trace[..mapSize / 8]))
    ensures trace[mapSize / 8..] == old(trace[mapSize / 8..])
  {
    hide ClassifyWord;
    ClassifyZero(lookup);
    var n := mapSize / 8;
    for i := 0 to n
      invariant forall j :: 0 <= j < i ==> trace[j] == ClassifyWord(lookup, old(trace[j]))
      invariant forall j :: i <= j < trace.Length ==> trace[j] == old(trace[j])
    {
      if trace[i] != 0 {
        trace[i] := ClassifyWord(lookup, trace[i]);
      }
    }
  }

  /** A word whose classified form has an unseen bit. */
  predicate Interesting(lookup: bv16 -> bv16, c: bv64, v: bv64) {
    NonZero(AndWords(ClassifyWord(lookup, c), v))
  }

  lemma ZeroNotInteresting(lookup: bv16 -> bv16, v: bv64)
    requires lookup(0) == 0
    ensures !Interesting(lookup, 0, v)
  {
    ClassifyZero(lookup);
    AndZero(v);
    hide ClassifyWord;
  }

  lemma AndZero(v: bv64)
    ensures !NonZero(AndWords(0, v))
  {
  }

  /** skim: four words a step, the trace a whole number of steps long. */
  method Skim(lookup: bv16 -> bv16, virgin: seq<bv64>, current: seq<bv64>) returns (r: nat)
    requires lookup(0) == 0 && |current| % 4 == 0 && |current| <= |virgin|
    ensures r == 0 || r == 1
    ensures r == 1 <==> AnyInteresting(lookup, current, virgin)
  {
    hide Interesting, ClassifyWord;
    var p := 0;
    while p < |current|
      invariant p % 4 == 0 && p <= |current|
      invariant forall i :: 0 <= i < p ==> !Interesting(lookup, current[i], virgin[i])
    {
      ZeroNotInteresting(lookup, virgin[p]);
      ZeroNotInteresting(lookup, virgin[p + 1]);
      ZeroNotInteresting(lookup, virgin[p + 2]);
      ZeroNotInteresting(lookup, virgin[p + 3]);
      if current[p] != 0 && Interesting(lookup, current[p], virgin[p]) { return 1; }
      if current[p + 1] != 0 && Interesting(lookup, current[p + 1], virgin[p + 1]) { return 1; }
      if current[p + 2] != 0 && Interesting(lookup, current[p + 2], virgin[p + 2]) { return 1; }
      if current[p + 3] != 0 && Interesting(lookup, current[p + 3], virgin[p + 3]) { return 1; }
      p := p + 4;
    }
    r := 0;
  }

  ghost predicate AnyInteresting(lookup: bv16 -> bv16, current: seq<bv64>, virgin: seq<bv64>)
    requires |current| <= |virgin|
  {
    exists i :: 0 <= i < |current| && Interesting(lookup, current[i], virgin[i])
  }

  lemma AnySnoc(lookup: bv16 -> bv16, c: seq<bv64>, v: seq<bv64>, cn: bv64, vn: bv64)
    requires |c| == |v|
    ensures AnyInteresting(lookup, c + [cn], v + [vn]) <==> AnyInteresting(lookup, c, v) || Interesting(lookup, cn, vn)
  {
    hide Interesting;
    var c', v' := c + [cn], v + [vn];
    if i :| 0 <= i < |c| && Interesting(lookup, c[i], v[i]) { assert Interesting(lookup, c'[i], v'[i]); }
    if Interesting(lookup, cn, vn) { assert Interesting(lookup, c'[|c|], v'[|c|]); }
  }

  /** skim answers exactly whether classifying the trace and discovering it would find anything. */
  lemma {:induction false} SkimIsDiscover(lookup: bv16 -> bv16, virgin: seq<bv64>, current: seq<bv64>)
    requires |current| == |virgin|
    ensures AnyInteresting(lookup, current, virgin)
       <==> Verdict(Bytes(Classified(lookup, current)), Bytes(virgin)) != 0
  {
    if current == [] {
      EmptyVerdict();
    } else {
      hide AnyInteresting, Verdict, Bytes, Interesting, ClassifyWord, Classified;
      var n := |current| - 1;
      var c, v := current[..n], virgin[..n];
      SkimIsDiscover(lookup, v, c);
      assert virgin == v + [virgin[n]] && current == c + [current[n]];
      ClassifiedSnoc(lookup, c, current[n]);
      SkimStep(lookup, v, c, virgin[n], current[n]);
      AnySnoc(lookup, c, v, current[n], virgin[n]);
    }
  }

  lemma ClassifiedSnoc(lookup: bv16 -> bv16, c: seq<bv64>, w: bv64)
    ensures Classified(lookup, c + [w]) == Classified(lookup, c) + [ClassifyWord(lookup, w)]
  {
    hide ClassifyWord;
  }

  lemma SkimStep(lookup: bv16 -> bv16, v: seq<bv64>, c: seq<bv64>, vn: bv64, cn: bv64)
    requires |c| == |v|
    ensures Verdict(Bytes(Classified(lookup, c) + [ClassifyWord(lookup, cn)]), Bytes(v + [vn])) != 0
       <==> Verdict(Bytes(Classified(lookup, c)), Bytes(v)) != 0 || Interesting(lookup, cn, vn)
  {
    var w := ClassifyWord(lookup, cn);
    AndIsNewBits(w, vn);
    BytesSnoc(Classified(lookup, c), w);
    BytesSnoc(v, vn);
    VerdictAppend(Bytes(Classified(lookup, c)), Bytes(v), Split(w), Split(vn));
    ByteIsBits(Split(w), Split(vn));
    hide Split, Bytes, ClassifyWord, AndWords, NonZero, NewBits, NewByte, Cleared;
  }

  lemma HalvesOfBytes(w: bv64)
    ensures HalfOf(w, 0 as bv7) == Pair(ByteOf(w, 0 as bv7), ByteOf(w, 8 as bv7))
    ensures HalfOf(w, 16 as bv7) == Pair(ByteOf(w, 16 as bv7), ByteOf(w, 24 as bv7))
    ensures HalfOf(w, 32 as bv7) == Pair(ByteOf(w, 32 as bv7), ByteOf(w, 40 as bv7))
    ensures HalfOf(w, 48 as bv7) == Pair(ByteOf(w, 48 as bv7), ByteOf(w, 56 as bv7))
  {
  }

  lemma BytesOfHalves(a: bv16, b: bv16, c: bv16, d: bv16)
    ensures ByteOf(JoinHalves(a, b, c, d), 0 as bv7) == Low(a) && ByteOf(JoinHalves(a, b, c, d), 8 as bv7) == High(a)
    ensures ByteOf(JoinHalves(a, b, c, d), 16 as bv7) == Low(b) && ByteOf(JoinHalves(a, b, c, d), 24 as bv7) == High(b)
    ensures ByteOf(JoinHalves(a, b, c, d), 32 as bv7) == Low(c) && ByteOf(JoinHalves(a, b, c, d), 40 as bv7) == High(c)
    ensures ByteOf(JoinHalves(a, b, c, d), 48 as bv7) == Low(d) && ByteOf(JoinHalves(a, b, c, d), 56 as bv7) == High(d)
  {
  }

  /** classify_word on a word is the table over its byte pairs. */
  lemma ClassifyWordBytes(lookup: bv16 -> bv16, w: bv64)
    ensures Split(ClassifyWord(lookup, w)) == ClassifiedBytes(lookup, Split(w))
  {
    SplitIndex(w);
    SplitIndex(ClassifyWord(lookup, w));
    HalvesOfBytes(w);
    BytesOfHalves(lookup(HalfOf(w, 0 as bv7)),
                  lookup(HalfOf(w, 16 as bv7)),
                  lookup(HalfOf(w, 32 as bv7)),
                  lookup(HalfOf(w, 48 as bv7)));
    hide Split, ByteOf, HalfOf, JoinHalves, Pair, Low, High;
    EightEqual(Split(ClassifyWord(lookup, w)), ClassifiedBytes(lookup, Split(w)));
  }

  lemma ClassifyNothing(lookup: bv16 -> bv16)
    ensures Bytes(Classified(lookup, [])) == ClassifiedBytes(lookup, Bytes([]))
  {
    hide Split, ClassifyWord;
  }

  lemma ClassifyOneMore(lookup: bv16 -> bv16, init: seq<bv64>, w: bv64)
    requires Bytes(Classified(lookup, init)) == ClassifiedBytes(lookup, Bytes(init))
    ensures Bytes(Classified(lookup, init + [w])) == ClassifiedBytes(lookup, Bytes(init + [w]))
  {
    hide Bytes, Split, Classified, ClassifyWord, ClassifiedBytes;
    ClassifiedSnoc(lookup, init, w);
    BytesSnoc(init, w);
    BytesSnoc(Classified(lookup, init), ClassifyWord(lookup, w));
    ClassifyWordBytes(lookup, w);
    ClassifiedAppend(lookup, Bytes(init), Split(w));
  }

  /** classify_counts on a map is the table over all its byte pairs. */
  lemma {:induction false} ClassifyBytes(lookup: bv16 -> bv16, words: seq<bv64>)
    ensures Bytes(Classified(lookup, words)) == ClassifiedBytes(lookup, Bytes(words))
  {
    if words == [] {
      ClassifyNothing(lookup);
    } else {
      hide Bytes, Split, Classified, ClassifyWord, ClassifiedBytes;
      var init, w := words[..|words| - 1], words[|words| - 1];
      ClassifyBytes(lookup, init);
      ClassifyOneMore(lookup, init, w);
      assert words == init + [w];
    }
  }

  // ---- simplify_trace ------------------------------------------------------------------------

  function JoinBytes(a: bv8, b: bv8, c: bv8, d: bv8, e: bv8, f: bv8, g: bv8, h: bv8): bv64 {
    (a as bv64) | ((b as bv64) << (8 as bv7)) | ((c as bv64) << (16 as bv7)) | ((d as bv64) << (24 as bv7))
    | ((e as bv64) << (32 as bv7)) | ((f as bv64) << (40 as bv7)) | ((g as bv64) << (48 as bv7)) | ((h as bv64) << (56 as bv7))
  }

  lemma BytesOfJoin(a: bv8, b: bv8, c: bv8, d: bv8, e: bv8, f: bv8, g: bv8, h: bv8)
    ensures ByteOf(JoinBytes(a, b, c, d, e, f, g, h), 0 as bv7) == a
    ensures ByteOf(JoinBytes(a, b, c, d, e, f, g, h), 8 as bv7) == b
    ensures ByteOf(JoinBytes(a, b, c, d, e, f, g, h), 16 as bv7) == c
    ensures ByteOf(JoinBytes(a, b, c, d, e, f, g, h), 24 as bv7) == d
    ensures ByteOf(JoinBytes(a, b, c, d, e, f, g, h), 32 as bv7) == e
    ensures ByteOf(JoinBytes(a, b, c, d, e, f, g, h), 40 as bv7) == f
    ensures ByteOf(JoinBytes(a, b, c, d, e, f, g, h), 48 as bv7) == g
    ensures ByteOf(JoinBytes(a, b, c, d, e, f, g, h), 56 as bv7) == h
  {
  }

  /** The eight stores through mem8. */
  function SimplifyWord(lookup: bv8 -> bv8, w: bv64): bv64 {
    JoinBytes(lookup(ByteOf(w, 0 as bv7)), lookup(ByteOf(w, 8 as bv7)), lookup(ByteOf(w, 16 as bv7)), lookup(ByteOf(w, 24 as bv7)),
              lookup(ByteOf(w, 32 as bv7)), lookup(ByteOf(w, 40 as bv7)), lookup(ByteOf(w, 48 as bv7)), lookup(ByteOf(w, 56 as bv7)))
  }

  function Simplified(lookup: bv8 -> bv8, b: Map): (r: Map)
    ensures |r| == |b|
  {
    seq(|b|, k requires 0 <= k < |b| => lookup(b[k]))
  }

  lemma SimplifyWordBytes(lookup: bv8 -> bv8, w: bv64)
    ensures Split(SimplifyWord(lookup, w)) == Simplified(lookup, Split(w))
  {
    SplitIndex(w);
    SplitIndex(SimplifyWord(lookup, w));
    BytesOfJoin(lookup(ByteOf(w, 0 as bv7)), lookup(ByteOf(w, 8 as bv7)), lookup(ByteOf(w, 16 as bv7)), lookup(ByteOf(w, 24 as bv7)),
                lookup(ByteOf(w, 32 as bv7)), lookup(ByteOf(w, 40 as bv7)), lookup(ByteOf(w, 48 as bv7)), lookup(ByteOf(w, 56 as bv7)));
    hide Split, ByteOf, JoinBytes;
    EightEqual(Split(SimplifyWord(lookup, w)), Simplified(lookup, Split(w)));
  }

  lemma ZeroWordBytes(lookup: bv8 -> bv8)
    requires lookup(0) == 1
    ensures Split(0x0101_0101_0101_0101) == Simplified(lookup, Split(0))
  {
    SplitIndex(0);
    SplitIndex(0x0101_0101_0101_0101);
    OneAndZeroBytes();
    hide Split, ByteOf;
    EightEqual(Split(0x0101_0101_0101_0101), Simplified(lookup, Split(0)));
  }

  lemma OneAndZeroBytes()
    ensures ByteOf(0x0101_0101_0101_0101, 0 as bv7) == 1 && ByteOf(0, 0 as bv7) == 0
    ensures ByteOf(0x0101_0101_0101_0101, 8 as bv7) == 1 && ByteOf(0, 8 as bv7) == 0
    ensures ByteOf(0x0101_0101_0101_0101, 16 as bv7) == 1 && ByteOf(0, 16 as bv7) == 0
    ensures ByteOf(0x0101_0101_0101_0101, 24 as bv7) == 1 && ByteOf(0, 24 as bv7) == 0
    ensures ByteOf(0x0101_0101_0101_0101, 32 as bv7) == 1 && ByteOf(0, 32 as bv7) == 0
    ensures ByteOf(0x0101_0101_0101_0101, 40 as bv7) == 1 && ByteOf(0, 40 as bv7) == 0
    ensures ByteOf(0x0101_0101_0101_0101, 48 as bv7) == 1 && ByteOf(0, 48 as bv7) == 0
    ensures ByteOf(0x0101_0101_0101_0101, 56 as bv7) == 1 && ByteOf(0, 56 as bv7) == 0
  {
  }

  /** simplify_trace: the constant stored for a zero word is what the table gives for eight
      unhit bytes, provided it sends 0 to 1. */
  method SimplifyTrace(lookup: bv8 -> bv8, trace: array<bv64>, mapSize: nat)
    requires lookup(0) == 1 && mapSize / 8 <= trace.Length
    modifies trace
    ensures Bytes(trace[..mapSize / 8]) == Simplified(lookup, Bytes(old(trace[..mapSize / 8])))
    ensures trace[mapSize / 8..] == old(trace[mapSize / 8..])
  {
    hide Split, SimplifyWord, Simplified, Bytes;
    var n := mapSize / 8;
    ghost var before := trace[..];
    SimplifiedEmpty(lookup);
    for i := 0 to n
      invariant trace[i..] == before[i..]
      invariant Bytes(trace[..i]) == Simplified(lookup, Bytes(before[..i]))
    {
      assert trace[i] == trace[i..][0] == before[i];
      ghost var done, rest := trace[..i], trace[i..][1..];
      assert rest == trace[i + 1..] && rest == before[i + 1..];
      SimplifyWordBytes(lookup, before[i]);
      ZeroWordBytes(lookup);
      trace[i] := if trace[i] != 0 then SimplifyWord(lookup, trace[i]) else 0x0101_0101_0101_0101;
      SimplifyStep(lookup, done, before[..i], trace[i], before[i]);
      assert trace[..i + 1] == done + [trace[i]] && before[..i + 1] == before[..i] + [before[i]];
      assert trace[i + 1..] == rest;
    }
    assert before[..n] == old(trace[..n]);
  }

  lemma SimplifiedEmpty(lookup: bv8 -> bv8)
    ensures Simplified(lookup, []) == [] && Bytes([]) == []
  {
  }

  lemma SimplifyStep(lookup: bv8 -> bv8, after: seq<bv64>, before: seq<bv64>, a: bv64, b: bv64)
    requires Bytes(after) == Simplified(lookup, Bytes(before)) && Split(a) == Simplified(lookup, Split(b))
    ensures Bytes(after + [a]) == Simplified(lookup, Bytes(before + [b]))
  {
    BytesSnoc(after, a);
    BytesSnoc(before, b);
    hide Bytes, Split;
  }
}
