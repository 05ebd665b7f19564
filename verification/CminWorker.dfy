/** afl-cmin.py, one worker: the per-tuple smallest file index, the tuple counter, and the pack
    file that the announced traces are written to and read back from. */
module CminWorker {
  import opened LittleEndian

  type Trace = seq<nat>

  /** What the workers are given: the trace of every file (sorted by size, so a smaller index is
      a smaller file), the number of tuples, and the item sizes of the two array types. */
  datatype Corpus = Corpus(traces: seq<Trace>, maxTuple: nat, tupleWidth: nat, fileWidth: nat, crashDir: bool)

  /** Tuples index the m array and fit an array item; detect_type_code left room for a sentinel. */
  ghost predicate Ok(c: Corpus) {
    && |c.traces| < Pow256(c.fileWidth)
    && forall f, t :: 0 <= f < |c.traces| && t in c.traces[f] ==> t < c.maxTuple && t < Pow256(c.tupleWidth)
  }

  predicate FilesOk(c: Corpus, files: seq<nat>) {
    forall i :: 0 <= i < |files| ==> files[i] < |c.traces|
  }

  ghost predicate TuplesFit(r: Trace, w: nat) {
    forall i :: 0 <= i < |r| ==> r[i] < Pow256(w)
  }

  /** max_file_index: the value of m[t] while no file with t was seen. */
  function NoFile(c: Corpus): nat { Pow256(c.fileWidth) - 1 }

  /** Item sizes of the type codes B, H, I, L, Q. */
  const ITEM_SIZES: seq<nat> := [1, 2, 4, 8, 8]

  /** detect_type_code: the first array type with more values than size, if there is one. */
  method DetectTypeCode(size: nat) returns (code: int)
    ensures code < |ITEM_SIZES|
    ensures code >= 0 ==> size < Pow256(ITEM_SIZES[code]) && forall j :: 0 <= j < code ==> size >= Pow256(ITEM_SIZES[j])
    ensures code < 0 ==> forall j :: 0 <= j < |ITEM_SIZES| ==> size >= Pow256(ITEM_SIZES[j])
  {
    for i := 0 to |ITEM_SIZES|
      invariant forall j :: 0 <= j < i ==> size >= Pow256(ITEM_SIZES[j])
    {
      if Pow256(ITEM_SIZES[i]) > size { return i; }
    }
    code := -1;
  }

  // ---- pack files -------------------------------------------------------------------

  /** array.tofile. */
  function Encode(r: Trace, w: nat): (b: Bytes)
    ensures |b| == |r| * w
  {
    if r == [] then [] else
      assert |r| * w == (|r| - 1) * w + w;
      Encode(r[..|r| - 1], w) + Write(r[|r| - 1], w)
  }

  /** array.fromfile of n items from the start of b. */
  function Decode(b: Bytes, n: nat, w: nat): (r: Trace)
    requires n * w <= |b|
    ensures |r| == n
  {
    if n == 0 then [] else
      assert n * w == (n - 1) * w + w;
      Decode(b, n - 1, w) + [Read(b[(n - 1) * w..n * w])]
  }

  /** The round trip: what was written is read back, whatever follows it in the file. */
  lemma {:induction false} DecodeEncode(r: Trace, w: nat, rest: Bytes)
    requires TuplesFit(r, w)
    ensures Decode(Encode(r, w) + rest, |r|, w) == r
  {
    hide Write, Read, Pow256;
    if r != [] {
      var n := |r|;
      var init, last := r[..n - 1], r[n - 1];
      ItemSplit(init, last, w, rest);
      DecodeEncode(init, w, Write(last, w) + rest);
      ReadWrite(last, w);
      SmallRemainder(last, Pow256(w));
      assert r == init + [last];
      hide Encode;
    }
  }

  lemma ItemSplit(init: Trace, last: nat, w: nat, rest: Bytes)
    ensures var r := init + [last];
            var b := Encode(r, w) + rest;
            && b == Encode(init, w) + (Write(last, w) + rest)
            && |r| * w == |init| * w + w
            && b[|init| * w..|r| * w] == Write(last, w)
  {
    hide Write;
    var r := init + [last];
    assert r[..|r| - 1] == init;
    assert |r| * w == |init| * w + w;
  }

  lemma SmallRemainder(a: nat, m: nat)
    requires a < m
    ensures a % m == a
  {
    ModUnique(a, m, 0, a);
  }

  /** CombineTraceWorker and the second phase of main: seek to pos and read n items. */
  ghost predicate PackHolds(c: Corpus, pack: Bytes, pos: nat, n: nat, r: Trace) {
    && n == |r| && pos + n * c.tupleWidth <= |pack|
    && pack[pos..pos + n * c.tupleWidth] == Encode(r, c.tupleWidth)
  }

  lemma ReadBack(c: Corpus, pack: Bytes, pos: nat, n: nat, r: Trace)
    requires PackHolds(c, pack, pos, n, r) && TuplesFit(r, c.tupleWidth)
    ensures pos <= |pack| && n * c.tupleWidth <= |pack[pos..]|
    ensures Decode(pack[pos..], n, c.tupleWidth) == r
  {
    var b := pack[pos..];
    assert b == Encode(r, c.tupleWidth) + b[n * c.tupleWidth..];
    DecodeEncode(r, c.tupleWidth, b[n * c.tupleWidth..]);
  }

  // ---- one file ---------------------------------------------------------------------

  /** collections.Counter, with absent keys counting zero. */
  function Lookup(counter: map<nat, nat>, t: nat): nat {
    if t in counter then counter[t] else 0
  }

  function Bump(counter: map<nat, nat>, r: Trace): map<nat, nat> {
    if r == [] then counter
    else
      var before := Bump(counter, r[..|r| - 1]);
      before[r[|r| - 1] := Lookup(before, r[|r| - 1]) + 1]
  }

  function Occurrences(r: Trace, t: nat): nat {
    if r == [] then 0 else Occurrences(r[..|r| - 1], t) + if r[|r| - 1] == t then 1 else 0
  }

  lemma {:induction false} BumpCounts(counter: map<nat, nat>, r: Trace, t: nat)
    ensures Lookup(Bump(counter, r), t) == Lookup(counter, t) + Occurrences(r, t)
    ensures t in Bump(counter, r) <==> t in counter || t in r
    ensures Occurrences(r, t) > 0 <==> t in r
  {
    if r != [] {
      BumpCounts(counter, r[..|r| - 1], t);
      assert r == r[..|r| - 1] + [r[|r| - 1]];
    }
  }

  /** The state a worker keeps; index is what it has announced: file to pack position and count. */
  datatype Local = Local(m: seq<nat>, counter: map<nat, nat>, crashes: seq<nat>, pack: Bytes,
                         index: map<nat, (nat, nat)>)

  function Fresh(c: Corpus): Local {
    Local(seq(c.maxTuple, _ => NoFile(c)), map[], [], [], map[])
  }

  predicate Improves(m: seq<nat>, r: Trace, idx: nat) {
    exists t :: t in r && t < |m| && idx < m[t]
  }

  function Improve(m: seq<nat>, r: Trace, idx: nat): seq<nat> {
    seq(|m|, t requires 0 <= t < |m| => if t in r && idx < m[t] then idx else m[t])
  }

  /** In batch mode a run with no tuples is reported as a crash, and only such a run is. */
  predicate Crashed(r: Trace) { |r| == 0 }

  /** The flag that decides whether a file's trace is written and announced. */
  predicate Uses(c: Corpus, l: Local, idx: nat)
    requires idx < |c.traces|
  {
    var r := c.traces[idx];
    (!Crashed(r) || !c.crashDir) && Improves(l.m, r, idx)
  }

  /** What handling one file does to the worker. */
  function Handle(c: Corpus, l: Local, idx: nat): Local
    requires idx < |c.traces|
  {
    var r := c.traces[idx];
    var l1 := l.(counter := Bump(l.counter, r), crashes := if Crashed(r) then l.crashes + [idx] else l.crashes);
    if Uses(c, l, idx) then
      l1.(m := Improve(l.m, r, idx),
          pack := l.pack + Encode(r, c.tupleWidth),
          index := l.index[idx := (|l.pack|, |r|)])
    else l1
  }

  function HandleAll(c: Corpus, files: seq<nat>): Local
    requires FilesOk(c, files)
  {
    if files == [] then Fresh(c)
    else Handle(c, HandleAll(c, files[..|files| - 1]), files[|files| - 1])
  }

  function TotalOccurrences(c: Corpus, files: seq<nat>, t: nat): nat
    requires FilesOk(c, files)
  {
    if files == [] then 0
    else TotalOccurrences(c, files[..|files| - 1], t) + Occurrences(c.traces[files[|files| - 1]], t)
  }

  /** m[t] is the smallest file with t among those handled, if there is one. */
  ghost predicate SmallestWith(c: Corpus, files: seq<nat>, t: nat, b: nat)
    requires FilesOk(c, files)
  {
    && (b == NoFile(c) || (b in files && t in c.traces[b]))
    && forall f :: f in files && t in c.traces[f] ==> b <= f
  }

  /** What a worker's state says about the files it handled, in any order. */
  ghost predicate Faithful(c: Corpus, files: seq<nat>, l: Local)
    requires FilesOk(c, files)
  {
    && |l.m| == c.maxTuple
    && (forall t :: 0 <= t < c.maxTuple ==> SmallestWith(c, files, t, l.m[t]))
    && (forall t :: 0 <= t < c.maxTuple && l.m[t] != NoFile(c) ==> l.m[t] in l.index)  // every best file was announced
    && (forall f :: f in l.index ==> f in files && PackHolds(c, l.pack, l.index[f].0, l.index[f].1, c.traces[f]))
    && (forall t :: Lookup(l.counter, t) == TotalOccurrences(c, files, t))
    && (forall f :: f in l.crashes <==> f in files && c.traces[f] == [])
  }

  lemma HandleKeepsBest(c: Corpus, files: seq<nat>, l: Local, idx: nat)
    requires Ok(c) && FilesOk(c, files) && Faithful(c, files, l) && idx < |c.traces|
    ensures var l' := Handle(c, l, idx);
            && |l'.m| == c.maxTuple
            && (forall t :: 0 <= t < c.maxTuple ==> SmallestWith(c, files + [idx], t, l'.m[t]))
            && (forall t :: 0 <= t < c.maxTuple && l'.m[t] != NoFile(c) ==> l'.m[t] in l'.index)
  {
    hide Bump, Encode, PackHolds, TotalOccurrences, Lookup, Pow256;
    var r, l' := c.traces[idx], Handle(c, l, idx);
    forall t | 0 <= t < c.maxTuple
      ensures l'.m[t] == if t in r && idx < l.m[t] then idx else l.m[t]
    {
    }
    forall t | 0 <= t < c.maxTuple
      ensures SmallestWith(c, files + [idx], t, l'.m[t])
      ensures l'.m[t] != NoFile(c) ==> l'.m[t] in l'.index
    {
      assert SmallestWith(c, files, t, l.m[t]);
    }
  }

  lemma HandleKeepsPack(c: Corpus, files: seq<nat>, l: Local, idx: nat)
    requires Ok(c) && FilesOk(c, files) && Faithful(c, files, l) && idx < |c.traces|
    ensures var l' := Handle(c, l, idx);
            forall f :: f in l'.index ==>
              f in files + [idx] && PackHolds(c, l'.pack, l'.index[f].0, l'.index[f].1, c.traces[f])
  {
    hide Bump, Improve, Improves, SmallestWith, TotalOccurrences, Encode;
    var l' := Handle(c, l, idx);
    forall f | f in l'.index
      ensures f in files + [idx] && PackHolds(c, l'.pack, l'.index[f].0, l'.index[f].1, c.traces[f])
    {
      if l'.index != l.index && f == idx {
        assert l'.pack[|l.pack|..] == Encode(c.traces[idx], c.tupleWidth);
      } else {
        var pos, n := l.index[f].0, l.index[f].1;
        assert l'.pack[pos..pos + n * c.tupleWidth] == l.pack[pos..pos + n * c.tupleWidth];
      }
    }
  }

  /** Handling one more file keeps every fact about the worker's state. */
  lemma HandleFaithful(c: Corpus, files: seq<nat>, l: Local, idx: nat)
    requires Ok(c) && FilesOk(c, files) && Faithful(c, files, l) && idx < |c.traces|
    ensures Faithful(c, files + [idx], Handle(c, l, idx))
  {
    HandleKeepsBest(c, files, l, idx);
    HandleKeepsPack(c, files, l, idx);
    forall t
      ensures Lookup(Handle(c, l, idx).counter, t) == TotalOccurrences(c, files + [idx], t)
    {
      BumpCounts(l.counter, c.traces[idx], t);
      assert (files + [idx])[..|files|] == files;
    }
  }

  lemma {:induction false} HandleAllFaithful(c: Corpus, files: seq<nat>)
    requires Ok(c) && FilesOk(c, files)
    ensures Faithful(c, files, HandleAll(c, files))
  {
    if files != [] {
      var init := files[..|files| - 1];
      HandleAllFaithful(c, init);
      HandleFaithful(c, init, HandleAll(c, init), files[|files| - 1]);
      assert files == init + [files[|files| - 1]];
    }
  }

  // ---- the worker process -----------------------------------------------------------

  /** Worker.run's local variables. */
  class Worker {
    const c: Corpus
    const m: array<nat>
    var counter: map<nat, nat>
    var crashes: seq<nat>
    var tracePack: Bytes
    var packPos: nat
    ghost var index: map<nat, (nat, nat)>

    ghost predicate Valid()
      reads this
    {
      m.Length == c.maxTuple && packPos == |tracePack|
    }

    ghost function State(): Local
      reads this, m
    {
      Local(m[..], counter, crashes, tracePack, index)
    }

    constructor (c: Corpus)
      ensures Valid() && State() == Fresh(c) && this.c == c && fresh(m)
    {
      this.c := c;
      var noFile := NoFile(c);
      m := new nat[c.maxTuple](_ => noFile);
      counter, crashes, tracePack, packPos, index := map[], [], [], 0, map[];
    }

    /** counter.update(r). */
    method CountTuples(r: Trace)
      modifies this`counter
      ensures counter == Bump(old(counter), r)
    {
      for i := 0 to |r|
        invariant counter == Bump(old(counter), r[..i])
      {
        assert r[..i + 1][..i] == r[..i];
        counter := counter[r[i] := Lookup(counter, r[i]) + 1];
      }
      assert r[..|r|] == r;
    }

    /** The loop over the tuples of one trace. */
    method UpdateBest(r: Trace, idx: nat) returns (used: bool)
      requires forall t :: t in r ==> t < m.Length
      modifies m
      ensures m[..] == Improve(old(m[..]), r, idx)
      ensures used <==> Improves(old(m[..]), r, idx)
    {
      used := false;
      for i := 0 to |r|
        invariant forall t :: t in r[..i] ==> t in r
        invariant forall t :: 0 <= t < m.Length ==> m[t] == if t in r[..i] && idx < old(m[t]) then idx else old(m[t])
        invariant used <==> exists t :: t in r[..i] && t < m.Length && idx < old(m[..])[t]
      {
        var t := r[i];
        assert t in r;
        assert r[..i + 1] == r[..i] + [t];
        if idx < m[t] {
          m[t] := idx;
          used := true;
        }
      }
      assert r[..|r|] == r;
    }

    /** The body of Worker.run's loop over afl_showmap's results: the progress message is the
        file with its pack position and tuple count, or None. */
    method HandleFile(idx: nat) returns (used: bool, pos: nat, tupleCount: nat)
      requires Valid() && Ok(c) && idx < |c.traces|
      modifies this, m
      ensures Valid() && State() == Handle(c, old(State()), idx)
      ensures used <==> Uses(c, old(State()), idx)
      ensures pos == old(packPos) && tupleCount == |c.traces[idx]|
    {
      hide Bump, Encode, Improve, Improves;
      var r := c.traces[idx];
      CountTuples(r);
      used := false;
      if Crashed(r) { crashes := crashes + [idx]; }
      if !Crashed(r) || !c.crashDir {
        used := UpdateBest(r, idx);
        if !used { Unimproved(old(m[..]), r, idx); }
      }
      pos, tupleCount := packPos, |r|;
      if used {
        tracePack := tracePack + Encode(r, c.tupleWidth);
        packPos := packPos + tupleCount * c.tupleWidth;
        index := index[idx := (pos, tupleCount)];
      }
    }
  }

  lemma Unimproved(m: seq<nat>, r: Trace, idx: nat)
    requires !Improves(m, r, idx)
    ensures Improve(m, r, idx) == m
  {
  }
}
