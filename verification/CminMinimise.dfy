/** afl-cmin.py, main after collection: first the files that alone hold some tuple, then a file
    for every tuple still missing, reading traces back from the packs.  The minimised corpus has
    exactly the coverage of the whole one. */
module CminMinimise {
  import opened LittleEndian
  import opened CminWorker
  import opened CminProtocol
  import opened CminInvariant
  import opened CminReach
  import opened CminSelect

  /** What main holds after the result queue is drained. */
  ghost predicate Collected(c: Corpus, best: seq<nat>, info: map<nat, Info>, packs: seq<Bytes>) {
    && |best| == c.maxTuple
    && forall t :: 0 <= t < c.maxTuple ==> IsBest(c, t, best[t]) && (best[t] != NoFile(c) ==> Readable(c, info, packs, best[t]))
  }

  ghost predicate Readable(c: Corpus, info: map<nat, Info>, packs: seq<Bytes>, f: nat) {
    && f < |c.traces| && f in info && info[f].worker < |packs|
    && PackHolds(c, packs[info[f].worker], info[f].pos, info[f].count, c.traces[f])
  }

  /** counter.most_common(): every tuple of the corpus once, with its count, the most common first. */
  ghost predicate Listed(c: Corpus, allUnique: seq<(nat, nat)>) {
    && (forall i :: 0 <= i < |allUnique| ==>
          Covered(c, allUnique[i].0) && allUnique[i].1 == TotalOccurrences(c, AllFiles(c), allUnique[i].0))
    && (forall i, j :: 0 <= i < j < |allUnique| ==> allUnique[i].0 != allUnique[j].0)
    && (forall t :: Covered(c, t) ==> exists i :: 0 <= i < |allUnique| && allUnique[i].0 == t)
    && (forall i, j :: 0 <= i < j < |allUnique| ==> allUnique[i].1 >= allUnique[j].1)
  }

  /** counter.most_common() on the counter that main has merged: every tuple counted, once, with its
      count, the most common first and equally common ones in any order. */
  ghost predicate MostCommon(gathered: seq<Result>, allUnique: seq<(nat, nat)>) {
    && (forall i :: 0 <= i < |allUnique| ==> allUnique[i].1 == MergedCount(gathered, allUnique[i].0) > 0)
    && (forall i, j :: 0 <= i < j < |allUnique| ==> allUnique[i].0 != allUnique[j].0)
    && (forall t :: MergedCount(gathered, t) > 0 ==> exists i :: 0 <= i < |allUnique| && allUnique[i].0 == t)
    && (forall i, j :: 0 <= i < j < |allUnique| ==> allUnique[i].1 >= allUnique[j].1)
  }

  lemma {:induction false} PositiveIsHeld(c: Corpus, files: seq<nat>, t: nat)
    requires FilesOk(c, files)
    ensures TotalOccurrences(c, files, t) > 0 <==> exists i :: 0 <= i < |files| && t in c.traces[files[i]]
  {
    if files != [] {
      var n := |files| - 1;
      PositiveIsHeld(c, files[..n], t);
      BumpCounts(map[], c.traces[files[n]], t);
      if i :| 0 <= i < |files| && t in c.traces[files[i]] {
        if i < n { assert files[..n][i] == files[i]; }
      }
    }
  }

  /** What is counted is what some file covers. */
  lemma CountedIsCovered(p: Plan, s: State, t: nat)
    requires PlanOk(p) && Inv(p, s) && Final(p, s)
    ensures MergedCount(s.gathered, t) == TotalOccurrences(p.c, AllFiles(p.c), t)
    ensures MergedCount(s.gathered, t) > 0 <==> Covered(p.c, t)
  {
    MergedCounts(p, s, t);
    PositiveIsHeld(p.c, AllFiles(p.c), t);
    hide Inv, PlanOk, Final, TotalOccurrences, MergedCount;
    if f :| 0 <= f < |p.c.traces| && t in p.c.traces[f] { assert AllFiles(p.c)[f] == f; }
  }

  lemma MostCommonIsListed(p: Plan, s: State, allUnique: seq<(nat, nat)>)
    requires PlanOk(p) && Inv(p, s) && Final(p, s) && MostCommon(s.gathered, allUnique)
    ensures Listed(p.c, allUnique)
  {
    hide Inv, PlanOk, Final, TotalOccurrences, MergedCount;
    forall t: nat
      ensures MergedCount(s.gathered, t) == TotalOccurrences(p.c, AllFiles(p.c), t)
      ensures MergedCount(s.gathered, t) > 0 <==> Covered(p.c, t)
    {
      CountedIsCovered(p, s, t);
    }
  }

  predicate Distinct(files: seq<nat>) {
    forall i, j :: 0 <= i < j < |files| ==> files[i] != files[j]
  }

  /** The k-th saved file holds a tuple that no earlier saved file has. */
  ghost predicate Contributes(c: Corpus, files: seq<nat>, k: nat)
    requires FilesOk(c, files) && k < |files|
  {
    exists t :: t in c.traces[files[k]] && !CoveredBy(c, files[..k], t)
  }

  /** A tuple that occurs once in the corpus has one holder. */
  lemma SoleHolder(c: Corpus, t: nat, f: nat, g: nat)
    requires f < |c.traces| && g < |c.traces| && t in c.traces[f] && t in c.traces[g]
    requires TotalOccurrences(c, AllFiles(c), t) == 1
    ensures f == g
  {
    var all := AllFiles(c);
    assert all[f] == f && all[g] == g;
    BumpCounts(map[], c.traces[f], t);
    BumpCounts(map[], c.traces[g], t);
    hide TotalOccurrences, Bump, Occurrences;
    if f < g {
      TwoTerms(c, all, f, g, t);
    } else if g < f {
      TwoTerms(c, all, g, f, t);
    }
  }

  lemma {:induction false} OneTerm(c: Corpus, files: seq<nat>, i: nat, t: nat)
    requires FilesOk(c, files) && i < |files|
    ensures TotalOccurrences(c, files, t) >= Occurrences(c.traces[files[i]], t)
  {
    var n := |files| - 1;
    if i < n { OneTerm(c, files[..n], i, t); }
  }

  lemma {:induction false} TwoTerms(c: Corpus, files: seq<nat>, i: nat, j: nat, t: nat)
    requires FilesOk(c, files) && i < j < |files|
    ensures TotalOccurrences(c, files, t)
         >= Occurrences(c.traces[files[i]], t) + Occurrences(c.traces[files[j]], t)
  {
    var n := |files| - 1;
    if j < n { TwoTerms(c, files[..n], i, j, t); } else { OneTerm(c, files[..n], i, t); }
  }

  lemma CoveredHasBest(c: Corpus, t: nat, b: nat)
    requires Ok(c) && Covered(c, t) && IsBest(c, t, b)
    ensures t < c.maxTuple && b != NoFile(c) && b < |c.traces| && t in c.traces[b]
  {
    hide Pow256;
    var f :| 0 <= f < |c.traces| && t in c.traces[f];
  }

  // ---- reading packs ------------------------------------------------------------------

  predicate InPack(c: Corpus, pack: Bytes, job: (nat, nat)) {
    job.0 <= |pack| && job.1 * c.tupleWidth <= |pack| - job.0
  }

  function ReadPack(c: Corpus, pack: Bytes, job: (nat, nat)): Trace
    requires InPack(c, pack, job)
  {
    Decode(pack[job.0..], job.1, c.tupleWidth)
  }

  function ToSet(r: Trace): set<nat> { set t | t in r }

  lemma ReadableReads(c: Corpus, info: map<nat, Info>, packs: seq<Bytes>, f: nat)
    requires Ok(c) && Readable(c, info, packs, f)
    ensures InPack(c, packs[info[f].worker], (info[f].pos, info[f].count))
    ensures ReadPack(c, packs[info[f].worker], (info[f].pos, info[f].count)) == c.traces[f]
  {
    hide Decode, Encode, Pow256;
    var r := c.traces[f];
    assert forall i :: 0 <= i < |r| ==> r[i] in r;
    ReadBack(c, packs[info[f].worker], info[f].pos, info[f].count, c.traces[f]);
  }

  /** CombineTraceWorker.run. */
  method CombineTraces(c: Corpus, pack: Bytes, jobs: seq<(nat, nat)>) returns (have: set<nat>)
    requires forall i :: 0 <= i < |jobs| ==> InPack(c, pack, jobs[i])
    ensures forall t :: t in have <==> exists i :: 0 <= i < |jobs| && t in ReadPack(c, pack, jobs[i])
  {
    have := {};
    for i := 0 to |jobs|
      invariant forall t :: t in have <==> exists j :: 0 <= j < i && t in ReadPack(c, pack, jobs[j])
    {
      hide Decode;
      have := have + ToSet(ReadPack(c, pack, jobs[i]));
    }
  }

  // ---- first phase ----------------------------------------------------------------------

  ghost predicate FromSaved(saved: seq<nat>, info: map<nat, Info>, w: nat, job: (nat, nat)) {
    exists i :: 0 <= i < |saved| && saved[i] in info && info[saved[i]] == Info(w, job.0, job.1)
  }

  ghost predicate HasJob(info: map<nat, Info>, jobs: seq<seq<(nat, nat)>>, f: nat) {
    f in info && info[f].worker < |jobs| && (info[f].pos, info[f].count) in jobs[info[f].worker]
  }

  /** The read jobs handed to the combine workers are those of the saved files. */
  ghost predicate JobsMatch(saved: seq<nat>, info: map<nat, Info>, jobs: seq<seq<(nat, nat)>>) {
    && (forall i :: 0 <= i < |saved| ==> HasJob(info, jobs, saved[i]))
    && (forall w, j :: 0 <= w < |jobs| && 0 <= j < |jobs[w]| ==> FromSaved(saved, info, w, jobs[w][j]))
  }

  ghost predicate SoleOwner(c: Corpus, f: nat) {
    f < |c.traces| && exists t :: t in c.traces[f] && TotalOccurrences(c, AllFiles(c), t) == 1
  }

  /** The loop over tuples that occur once. */
  method SelectUnique(c: Corpus, allUnique: seq<(nat, nat)>, best: seq<nat>, info: map<nat, Info>, packs: seq<Bytes>)
    returns (saved: seq<nat>, jobs: seq<seq<(nat, nat)>>)
    requires Ok(c) && Collected(c, best, info, packs) && Listed(c, allUnique)
    ensures Distinct(saved) && |jobs| == |packs| && JobsMatch(saved, info, jobs)
    ensures forall i :: 0 <= i < |saved| ==> Readable(c, info, packs, saved[i])
    ensures forall f: nat :: f in saved <==> SoleOwner(c, f)
  {
    saved := [];
    jobs := seq(|packs|, _ => []);
    var savedSet := {};
    for i := 0 to |allUnique|
      invariant Distinct(saved) && |jobs| == |packs| && JobsMatch(saved, info, jobs)
      invariant forall k :: 0 <= k < |saved| ==> SoleOwner(c, saved[k]) && Readable(c, info, packs, saved[k])
      invariant forall f :: f in savedSet <==> f in saved
      invariant forall k :: 0 <= k < i && allUnique[k].1 == 1 ==> allUnique[k].0 < |best| && best[allUnique[k].0] in saved
    {
      hide TotalOccurrences, PackHolds, Collected, Listed, Readable, JobsMatch, HasJob, Distinct, SoleOwner;
      var (t, n) := allUnique[i];
      ListedCovered(c, allUnique, i);
      TupleBest(c, best, info, packs, t);
      ReadableIsFile(c, info, packs, best[t]);
      if n == 1 && best[t] !in savedSet {
        var idx := best[t];
        var job := (info[idx].pos, info[idx].count);
        var w := info[idx].worker;
        JobAppended(saved, info, jobs, idx);
        DistinctSnoc(saved, idx);
        OwnsAlone(c, t, idx);
        saved := saved + [idx];
        savedSet := savedSet + {idx};
        jobs := jobs[w := jobs[w] + [job]];
      }
    }
    SoleOwnersSaved(c, allUnique, best, info, packs, saved);
  }

  lemma DistinctSnoc(files: seq<nat>, f: nat)
    requires Distinct(files) && f !in files
    ensures Distinct(files + [f])
  {
  }

  lemma OwnsAlone(c: Corpus, t: nat, f: nat)
    requires f < |c.traces| && t in c.traces[f] && TotalOccurrences(c, AllFiles(c), t) == 1
    ensures SoleOwner(c, f)
  {
    hide TotalOccurrences;
  }

  lemma ListedCovered(c: Corpus, allUnique: seq<(nat, nat)>, i: nat)
    requires Listed(c, allUnique) && i < |allUnique|
    ensures Covered(c, allUnique[i].0)
    ensures allUnique[i].1 == TotalOccurrences(c, AllFiles(c), allUnique[i].0)
  {
    hide TotalOccurrences;
  }

  /** The files of the tuples that are counted once are all saved. */
  lemma SoleOwnersSaved(c: Corpus, allUnique: seq<(nat, nat)>, best: seq<nat>, info: map<nat, Info>, packs: seq<Bytes>, saved: seq<nat>)
    requires Ok(c) && Collected(c, best, info, packs) && Listed(c, allUnique)
    requires forall k :: 0 <= k < |allUnique| && allUnique[k].1 == 1 ==> allUnique[k].0 < |best| && best[allUnique[k].0] in saved
    ensures forall f: nat :: SoleOwner(c, f) ==> f in saved
  {
    hide TotalOccurrences, PackHolds;
    forall f: nat | SoleOwner(c, f)
      ensures f in saved
    {
      var t :| t in c.traces[f] && TotalOccurrences(c, AllFiles(c), t) == 1;
      assert Covered(c, t);
      var k :| 0 <= k < |allUnique| && allUnique[k].0 == t;
      TupleBest(c, best, info, packs, t);
      SoleHolder(c, t, f, best[t]);
    }
  }

  lemma TupleBest(c: Corpus, best: seq<nat>, info: map<nat, Info>, packs: seq<Bytes>, t: nat)
    requires Ok(c) && Collected(c, best, info, packs) && Covered(c, t)
    ensures t < |best| && Readable(c, info, packs, best[t]) && t in c.traces[best[t]] && IsBest(c, t, best[t])
  {
    hide Pow256, PackHolds;
    var f :| 0 <= f < |c.traces| && t in c.traces[f];
    CoveredHasBest(c, t, best[t]);
  }

  lemma JobAppended(saved: seq<nat>, info: map<nat, Info>, jobs: seq<seq<(nat, nat)>>, idx: nat)
    requires JobsMatch(saved, info, jobs) && idx in info && info[idx].worker < |jobs|
    ensures JobsMatch(saved + [idx], info,
                      jobs[info[idx].worker := jobs[info[idx].worker] + [(info[idx].pos, info[idx].count)]])
  {
    var w := info[idx].worker;
    var job := (info[idx].pos, info[idx].count);
    var jobs': seq<seq<(nat, nat)>> := jobs[w := jobs[w] + [job]];
    var saved' := saved + [idx];
    assert saved'[|saved|] == idx && jobs'[w][|jobs[w]|] == job;
    forall v: nat, j: nat | v < |jobs'| && j < |jobs'[v]|
      ensures FromSaved(saved', info, v, jobs'[v][j])
    {
      if v != w || j < |jobs[w]| {
        assert FromSaved(saved, info, v, jobs[v][j]);
        var i :| 0 <= i < |saved| && saved[i] in info && info[saved[i]] == Info(v, jobs[v][j].0, jobs[v][j].1);
        assert saved'[i] == saved[i];
      }
    }
    forall i | 0 <= i < |saved'|
      ensures HasJob(info, jobs', saved'[i])
    {
      if i < |saved| { assert HasJob(info, jobs, saved[i]); }
    }
  }

  /** already_have after the combine workers: exactly what the first-phase files cover. */
  method CombineAll(c: Corpus, saved: seq<nat>, info: map<nat, Info>, packs: seq<Bytes>, jobs: seq<seq<(nat, nat)>>)
    returns (have: set<nat>)
    requires Ok(c) && |jobs| == |packs| && JobsMatch(saved, info, jobs) && FilesOk(c, saved)
    requires forall i :: 0 <= i < |saved| ==> Readable(c, info, packs, saved[i])
    ensures forall t :: t in have <==> CoveredBy(c, saved, t)
  {
    have := {};
    forall w, j | 0 <= w < |jobs| && 0 <= j < |jobs[w]|
      ensures InPack(c, packs[w], jobs[w][j])
    {
      var f := JobFile(saved, info, jobs, w, j);
      ReadableReads(c, info, packs, f);
    }
    for w := 0 to |packs|
      invariant forall t :: t in have <==> exists v, j :: 0 <= v < w && 0 <= j < |jobs[v]| && t in ReadPack(c, packs[v], jobs[v][j])
    {
      hide ReadPack, JobsMatch, Readable;
      var result := CombineTraces(c, packs[w], jobs[w]);
      have := have + result;
    }
    forall t
      ensures t in have <==> CoveredBy(c, saved, t)
    {
      CombinedIsCovered(c, saved, info, packs, jobs, t);
    }
  }

  lemma JobFile(saved: seq<nat>, info: map<nat, Info>, jobs: seq<seq<(nat, nat)>>, w: nat, j: nat) returns (f: nat)
    requires JobsMatch(saved, info, jobs) && w < |jobs| && j < |jobs[w]|
    ensures f in saved && f in info && info[f] == Info(w, jobs[w][j].0, jobs[w][j].1)
  {
    assert FromSaved(saved, info, w, jobs[w][j]);
    var i :| 0 <= i < |saved| && saved[i] in info && info[saved[i]] == Info(w, jobs[w][j].0, jobs[w][j].1);
    f := saved[i];
  }

  lemma CombinedIsCovered(c: Corpus, saved: seq<nat>, info: map<nat, Info>, packs: seq<Bytes>, jobs: seq<seq<(nat, nat)>>, t: nat)
    requires Ok(c) && |jobs| == |packs| && JobsMatch(saved, info, jobs) && FilesOk(c, saved)
    requires forall i :: 0 <= i < |saved| ==> Readable(c, info, packs, saved[i])
    requires forall w, j :: 0 <= w < |jobs| && 0 <= j < |jobs[w]| ==> InPack(c, packs[w], jobs[w][j])
    ensures (exists w, j :: 0 <= w < |packs| && 0 <= j < |jobs[w]| && t in ReadPack(c, packs[w], jobs[w][j]))
       <==> CoveredBy(c, saved, t)
  {
    hide ReadPack, InPack;
    if w, j :| 0 <= w < |packs| && 0 <= j < |jobs[w]| && t in ReadPack(c, packs[w], jobs[w][j]) {
      var f := JobFile(saved, info, jobs, w, j);
      ReadableReads(c, info, packs, f);
      assert CoveredBy(c, saved, t);
    }
    if i :| 0 <= i < |saved| && t in c.traces[saved[i]] {
      var f := saved[i];
      assert HasJob(info, jobs, f);
      ReadableReads(c, info, packs, f);
      var w := info[f].worker;
      var j :| 0 <= j < |jobs[w]| && jobs[w][j] == (info[f].pos, info[f].count);
      assert t in ReadPack(c, packs[w], jobs[w][j]);
    }
  }

  // ---- second phase ---------------------------------------------------------------------

  /** After some saves: no file twice, every save contributed, and already_have is what they cover. */
  ghost predicate Progressing(c: Corpus, out: seq<nat>, have: set<nat>) {
    && FilesOk(c, out) && Distinct(out)
    && (forall t :: t in have <==> CoveredBy(c, out, t))
    && (forall k :: 0 <= k < |out| ==> Contributes(c, out, k))
  }

  lemma UniqueContribute(c: Corpus, saved: seq<nat>)
    requires FilesOk(c, saved) && Distinct(saved)
    requires forall i :: 0 <= i < |saved| ==> SoleOwner(c, saved[i])
    ensures forall k :: 0 <= k < |saved| ==> Contributes(c, saved, k)
  {
    hide TotalOccurrences;
    forall k | 0 <= k < |saved|
      ensures Contributes(c, saved, k)
    {
      assert SoleOwner(c, saved[k]);
      var t :| t in c.traces[saved[k]] && TotalOccurrences(c, AllFiles(c), t) == 1;
      if i :| 0 <= i < k && t in c.traces[saved[..k][i]] {
        SoleHolder(c, t, saved[i], saved[k]);
      }
    }
  }

  /** Saving a file for a tuple that is not covered yet. */
  lemma SaveOne(c: Corpus, out: seq<nat>, have: set<nat>, idx: nat, t: nat)
    requires Progressing(c, out, have) && idx < |c.traces| && t in c.traces[idx] && t !in have
    ensures Progressing(c, out + [idx], have + ToSet(c.traces[idx]))
    ensures t in have + ToSet(c.traces[idx])
  {
    var out' := out + [idx];
    assert out'[..|out|] == out;
    assert !CoveredBy(c, out, t);
    forall u
      ensures u in have + ToSet(c.traces[idx]) <==> CoveredBy(c, out', u)
    {
      if u in have {
        var i :| 0 <= i < |out| && u in c.traces[out[i]];
        assert out'[i] == out[i];
      }
      if u in c.traces[idx] { assert u in c.traces[out'[|out|]]; }
    }
    forall k | 0 <= k < |out'|
      ensures Contributes(c, out', k)
    {
      if k < |out| {
        assert Contributes(c, out, k);
        assert out'[..k] == out[..k];
      }
    }
  }

  /** The k-th file was saved as the smallest one with a tuple that no earlier file has and that is as
      rare as any such tuple. */
  ghost predicate RarestFirst(c: Corpus, out: seq<nat>, k: nat)
    requires FilesOk(c, out) && k < |out|
  {
    exists t :: SavedFor(c, out, k, t)
  }

  ghost predicate SavedFor(c: Corpus, out: seq<nat>, k: nat, t: nat)
    requires FilesOk(c, out) && k < |out|
  {
    && t in c.traces[out[k]] && IsBest(c, t, out[k]) && !CoveredBy(c, out[..k], t)
    && forall u :: Covered(c, u) && !CoveredBy(c, out[..k], u)
         ==> TotalOccurrences(c, AllFiles(c), t) <= TotalOccurrences(c, AllFiles(c), u)
  }

  lemma SavedForKept(c: Corpus, out: seq<nat>, idx: nat, k: nat)
    requires FilesOk(c, out) && idx < |c.traces| && k < |out| && RarestFirst(c, out, k)
    ensures FilesOk(c, out + [idx]) && RarestFirst(c, out + [idx], k)
  {
    hide TotalOccurrences, IsBest, Covered, CoveredBy;
    var t :| SavedFor(c, out, k, t);
    assert (out + [idx])[..k] == out[..k];
    assert SavedFor(c, out + [idx], k, t);
  }

  /** All tuples behind i on the list are covered, so the one at i is a rarest one that is not. */
  lemma RarestLeft(c: Corpus, allUnique: seq<(nat, nat)>, out: seq<nat>, have: set<nat>, i: nat, idx: nat)
    requires Listed(c, allUnique) && Progressing(c, out, have) && i < |allUnique| && idx < |c.traces|
    requires forall k :: i < k < |allUnique| ==> allUnique[k].0 in have
    requires allUnique[i].0 !in have && IsBest(c, allUnique[i].0, idx) && allUnique[i].0 in c.traces[idx]
    ensures FilesOk(c, out + [idx]) && RarestFirst(c, out + [idx], |out|)
  {
    hide TotalOccurrences, IsBest, Contributes, Covered, CoveredBy;
    var t, out' := allUnique[i].0, out + [idx];
    assert out'[..|out|] == out;
    forall u | Covered(c, u) && !CoveredBy(c, out, u)
      ensures TotalOccurrences(c, AllFiles(c), t) <= TotalOccurrences(c, AllFiles(c), u)
    {
      var k :| 0 <= k < |allUnique| && allUnique[k].0 == u;
      assert k <= i;
    }
    assert SavedFor(c, out', |out|, t);
  }

  /** Reading the trace of f back, and saving f for t, keep what is known about the files saved. */
  ghost predicate Kept(c: Corpus, f: nat, info: map<nat, Info>, packs: seq<Bytes>, saved: seq<nat>, out: seq<nat>, have: set<nat>, t: nat)
    requires f in info && info[f].worker < |packs|
  {
    && InPack(c, packs[info[f].worker], (info[f].pos, info[f].count))
    && KeptWith(c, saved, out + [f], have + ToSet(ReadPack(c, packs[info[f].worker], (info[f].pos, info[f].count))), t)
  }

  ghost predicate KeptWith(c: Corpus, saved: seq<nat>, out: seq<nat>, have: set<nat>, t: nat) {
    && Progressing(c, out, have) && t in have
    && saved <= out && forall k :: |saved| <= k < |out| ==> RarestFirst(c, out, k)
  }

  /** What saving the smallest file for the tuple at i on the list keeps. */
  lemma Saving(c: Corpus, allUnique: seq<(nat, nat)>, best: seq<nat>, info: map<nat, Info>, packs: seq<Bytes>,
               saved: seq<nat>, out: seq<nat>, have: set<nat>, i: nat)
    requires Ok(c) && Collected(c, best, info, packs) && Listed(c, allUnique) && Progressing(c, out, have)
    requires i < |allUnique| && allUnique[i].0 !in have && forall k :: i < k < |allUnique| ==> allUnique[k].0 in have
    requires saved <= out && forall k :: |saved| <= k < |out| ==> RarestFirst(c, out, k)
    ensures allUnique[i].0 < |best| && best[allUnique[i].0] in info && info[best[allUnique[i].0]].worker < |packs|
    ensures Kept(c, best[allUnique[i].0], info, packs, saved, out, have, allUnique[i].0)
  {
    assert FilesOk(c, out);
    hide Collected, Progressing, Readable, Decode, TotalOccurrences, RarestFirst, IsBest, Listed;
    var t := allUnique[i].0;
    ListedCovered(c, allUnique, i);
    TupleBest(c, best, info, packs, t);
    var idx := best[t];
    ReadableReads(c, info, packs, idx);
    ReadableIsFile(c, info, packs, idx);
    RarestLeft(c, allUnique, out, have, i, idx);
    forall k | |saved| <= k < |out| ensures FilesOk(c, out + [idx]) && RarestFirst(c, out + [idx], k) { SavedForKept(c, out, idx, k); }
    SaveOne(c, out, have, idx, t);
  }

  /** The loop over all tuples from the end of the list, that is, the rarest first. */
  method SelectRest(c: Corpus, allUnique: seq<(nat, nat)>, best: seq<nat>, info: map<nat, Info>, packs: seq<Bytes>,
                    saved: seq<nat>, have0: set<nat>) returns (out: seq<nat>)
    requires Ok(c) && Collected(c, best, info, packs) && Listed(c, allUnique)
    requires Progressing(c, saved, have0)
    ensures FilesOk(c, out) && Distinct(out) && (forall k :: 0 <= k < |out| ==> Contributes(c, out, k))
    ensures forall t :: Covered(c, t) ==> CoveredBy(c, out, t)
    ensures saved <= out && forall k :: |saved| <= k < |out| ==> RarestFirst(c, out, k)
  {
    out := saved;
    var have := have0;
    var i: nat := |allUnique|;
    while i > 0
      invariant i <= |allUnique| && Progressing(c, out, have)
      invariant saved <= out && forall k :: |saved| <= k < |out| ==> RarestFirst(c, out, k)
      invariant forall k :: i <= k < |allUnique| ==> allUnique[k].0 in have
    {
      hide Collected, Progressing, Readable, Decode, TotalOccurrences, RarestFirst, IsBest, Listed;
      i := i - 1;
      var t := allUnique[i].0;
      if t !in have {
        Saving(c, allUnique, best, info, packs, saved, out, have, i);
        var idx := best[t];
        var result := ReadPack(c, packs[info[idx].worker], (info[idx].pos, info[idx].count));
        out := out + [idx];
        have := have + ToSet(result);
      }
    }
    forall t | Covered(c, t) ensures CoveredBy(c, out, t) {
      var k :| 0 <= k < |allUnique| && allUnique[k].0 == t;
    }
  }

  lemma ReadableIsFile(c: Corpus, info: map<nat, Info>, packs: seq<Bytes>, f: nat)
    requires Readable(c, info, packs, f)
    ensures f < |c.traces| && f in info && info[f].worker < |packs|
  {
  }

  // ---- the minimiser --------------------------------------------------------------------

  /** A corpus is minimised faithfully when nothing is saved twice, nothing is lost, no save was
      useless, and every file that alone holds some tuple is saved.  Those come first; each of the others
      is the smallest file for a rarest tuple that was still missing. */
  ghost predicate Minimised(c: Corpus, out: seq<nat>) {
    && FilesOk(c, out) && Distinct(out)
    && (forall t :: Covered(c, t) <==> CoveredBy(c, out, t))
    && (forall k :: 0 <= k < |out| ==> Contributes(c, out, k))
    && (forall f, t :: IsAlone(c, f, t) ==> f in out)
    && exists m :: TwoPhases(c, out, m)
  }

  ghost predicate TwoPhases(c: Corpus, out: seq<nat>, m: nat)
    requires FilesOk(c, out)
  {
    && m <= |out|
    && (forall f: nat :: f in out[..m] <==> SoleOwner(c, f))
    && forall k :: m <= k < |out| ==> RarestFirst(c, out, k)
  }

  ghost predicate IsAlone(c: Corpus, f: nat, t: nat) {
    && f < |c.traces| && t in c.traces[f]
    && forall g :: 0 <= g < |c.traces| && t in c.traces[g] ==> g == f
  }

  lemma CoverageMinimises(c: Corpus, out: seq<nat>, m: nat)
    requires FilesOk(c, out) && Distinct(out) && (forall k :: 0 <= k < |out| ==> Contributes(c, out, k))
    requires TwoPhases(c, out, m)
    requires forall t :: Covered(c, t) ==> CoveredBy(c, out, t)
    ensures Minimised(c, out)
  {
    hide Contributes, TwoPhases;
    forall f, t | IsAlone(c, f, t)
      ensures f in out
    {
      assert Covered(c, t);
      var i :| 0 <= i < |out| && t in c.traces[out[i]];
      assert out[i] == f;
    }
    forall t | CoveredBy(c, out, t) ensures Covered(c, t) {
      var i :| 0 <= i < |out| && t in c.traces[out[i]];
      assert t in c.traces[out[i]];
    }
  }

  lemma EndIsCollected(p: Plan, s: State, best: seq<nat>)
    requires PlanOk(p) && Inv(p, s) && Final(p, s) && |best| == p.c.maxTuple
    requires forall i :: 0 <= i < |s.gathered| ==> |s.gathered[i].local.m| == p.c.maxTuple
    requires forall t :: 0 <= t < p.c.maxTuple ==> IsMinOf(s.gathered, t, best[t])
    ensures Collected(p.c, best, s.traceInfo, seq(|s.procs|, w requires 0 <= w < |s.procs| => s.procs[w].local.pack))
  {
    hide Inv, Final, PlanOk, IsBest, IsMinOf, PackHolds, NoFile;
    var packs: seq<Bytes> := seq(|s.procs|, w requires 0 <= w < |s.procs| => s.procs[w].local.pack);
    forall t | 0 <= t < p.c.maxTuple
      ensures IsBest(p.c, t, best[t]) && (best[t] != NoFile(p.c) ==> Readable(p.c, s.traceInfo, packs, best[t]))
    {
      MergedIsBest(p, s, t, best[t]);
      if best[t] != NoFile(p.c) {
        BestIsAnnounced(p, s, t, best[t]);
        BestIsFile(p.c, t, best[t]);
      }
    }
  }

  lemma BestIsFile(c: Corpus, t: nat, b: nat)
    requires IsBest(c, t, b) && b != NoFile(c)
    ensures b < |c.traces|
  {
  }

  /** The whole of afl-cmin: whatever the assignment of batches to workers, the interleaving of
      the processes, the order of messages and the order of equally common tuples, the saved files
      have exactly the coverage of all files. */
  method Minimise(p: Plan, run: seq<Action>, allUnique: seq<(nat, nat)>) returns (out: seq<nat>)
    requires PlanOk(p) && Legal(p, Init(p), run) && Final(p, After(p, Init(p), run))
    requires MostCommon(After(p, Init(p), run).gathered, allUnique)
    ensures Minimised(p.c, out)
  {
    hide Init, After, Legal, Inv, Final, Listed, MostCommon, Collected, Minimised, Contributes, SoleOwner, Faithful, JobsMatch, Progressing;
    var s := After(p, Init(p), run);
    RunEnds(p, run, allUnique);
    var best := MergeBest(p.c, s.gathered);
    var packs: seq<Bytes> := seq(|s.procs|, w requires 0 <= w < |s.procs| => s.procs[w].local.pack);
    EndIsCollected(p, s, best);
    out := Select(p.c, allUnique, best, s.traceInfo, packs);
  }

  /** The two phases with the reading of packs between them. */
  method Select(c: Corpus, allUnique: seq<(nat, nat)>, best: seq<nat>, info: map<nat, Info>, packs: seq<Bytes>) returns (out: seq<nat>)
    requires Ok(c) && Collected(c, best, info, packs) && Listed(c, allUnique)
    ensures Minimised(c, out)
  {
    hide Ok, Listed, Collected, Minimised, Contributes, JobsMatch, Progressing, RarestFirst, SoleOwner;
    var saved, jobs := SelectUnique(c, allUnique, best, info, packs);
    var have := CombineAll(c, saved, info, packs, jobs);
    UniqueContribute(c, saved);
    StartProgress(c, saved, have);
    out := SelectRest(c, allUnique, best, info, packs, saved, have);
    assert out[..|saved|] == saved;
    assert TwoPhases(c, out, |saved|);
    CoverageMinimises(c, out, |saved|);
  }

  /** What the parent relies on when the workers are through. */
  lemma RunEnds(p: Plan, run: seq<Action>, allUnique: seq<(nat, nat)>)
    requires PlanOk(p) && Legal(p, Init(p), run) && Final(p, After(p, Init(p), run))
    requires MostCommon(After(p, Init(p), run).gathered, allUnique)
    ensures Inv(p, After(p, Init(p), run)) && Listed(p.c, allUnique) && |After(p, Init(p), run).gathered| > 0
    ensures forall g :: g in After(p, Init(p), run).gathered ==> |g.local.m| == p.c.maxTuple
  {
    InitInv(p);
    hide Init, After, Legal, Inv, Final, Listed, MostCommon;
    RunInv(p, Init(p), run);
    MostCommonIsListed(p, After(p, Init(p), run), allUnique);
    GatheredLengths(p, After(p, Init(p), run));
    SomeResult(p, After(p, Init(p), run));
  }

  lemma GatheredLengths(p: Plan, s: State)
    requires PlanOk(p) && Inv(p, s) && Final(p, s)
    ensures forall i :: 0 <= i < |s.gathered| ==> |s.gathered[i].local.m| == p.c.maxTuple
  {
    hide Inv, Final, PlanOk, Faithful;
    forall i | 0 <= i < |s.gathered|
      ensures |s.gathered[i].local.m| == p.c.maxTuple
    {
      GatheredFaithful(p, s, i);
      FaithfulLength(p.c, s.procs[s.gathered[i].worker].handled, s.gathered[i].local);
    }
  }

  lemma StartProgress(c: Corpus, saved: seq<nat>, have: set<nat>)
    requires FilesOk(c, saved) && Distinct(saved)
    requires forall t :: t in have <==> CoveredBy(c, saved, t)
    requires forall k :: 0 <= k < |saved| ==> Contributes(c, saved, k)
    ensures Progressing(c, saved, have)
  {
  }

  lemma FaithfulLength(c: Corpus, files: seq<nat>, l: Local)
    requires FilesOk(c, files) && Faithful(c, files, l)
    ensures |l.m| == c.maxTuple
  {
  }

  lemma SomeResult(p: Plan, s: State)
    requires PlanOk(p) && Final(p, s)
    ensures |s.gathered| > 0
  {
  }
}
