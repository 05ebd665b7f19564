/** afl-cmin.py, main: merging the workers' results and the two-phase selection, from the end of
    any run of the process network. */
module CminSelect {
  import opened LittleEndian
  import opened CminWorker
  import opened CminProtocol
  import opened CminInvariant
  import opened CminReach

  predicate Covered(c: Corpus, t: nat) {
    exists f :: 0 <= f < |c.traces| && t in c.traces[f]
  }

  predicate CoveredBy(c: Corpus, files: seq<nat>, t: nat)
    requires FilesOk(c, files)
  {
    exists i :: 0 <= i < |files| && t in c.traces[files[i]]
  }

  /** The smallest file that has t; the smallest file is the shortest, as files are sorted by size. */
  ghost predicate IsBest(c: Corpus, t: nat, b: nat) {
    && (b == NoFile(c) || (b < |c.traces| && t in c.traces[b]))
    && forall f :: 0 <= f < |c.traces| && t in c.traces[f] ==> b <= f
  }

  // ---- what the end of a run leaves ---------------------------------------------------

  function AllFiles(c: Corpus): seq<nat> { Range(0, |c.traces|) }

  /** Job i's files end up with its owner. */
  lemma {:induction false} OwnedHolds(jobs: seq<Job>, owner: seq<nat>, i: nat, f: nat)
    requires i < |owner| <= |jobs| && f in FilesOf(jobs[i])
    ensures f in Owned(jobs, owner, owner[i])
  {
    var k := |owner| - 1;
    if i < k {
      OwnedHolds(jobs, owner[..k], i, f);
    }
  }

  lemma {:induction false} FileHasJob(jobs: seq<Job>, f: nat) returns (i: nat)
    requires f in JobFiles(jobs)
    ensures i < |jobs| && f in FilesOf(jobs[i])
  {
    var k := |jobs| - 1;
    if f in FilesOf(jobs[k]) {
      i := k;
    } else {
      i := FileHasJob(jobs[..k], f);
    }
  }

  /** At the end every file has been handled by some worker. */
  lemma EveryFileHandled(p: Plan, s: State, f: nat) returns (w: nat)
    requires PlanOk(p) && Inv(p, s) && Final(p, s) && f < N(p)
    ensures w < |s.procs| && f in s.procs[w].handled
  {
    FinalCounts(p, s);
    JobsCoverOnce(N(p), p.chunk, p.workers);
    JobListIsJobs(p);
    hide CountInv, AnnounceInv, ResultInv, HandleAll, Ok, Owned, JobFiles, Jobs;
    assert Range(0, N(p))[f] == f;
    var i := FileHasJob(Jobs(p), f);
    OwnedHolds(Jobs(p), s.owner, i, f);
    w := s.owner[i];
    assert ProcOk(p, Owned(Jobs(p), s.owner, w), s.procs[w]);
  }

  lemma JobListIsJobs(p: Plan)
    requires p.chunk >= 1
    ensures Jobs(p) == JobList(N(p), p.chunk, p.workers)
  {
  }

  /** The results main gathered are those of all workers, each once, in some order. */
  function ResultsOf(procs: seq<Proc>): seq<Result> {
    seq(|procs|, w requires 0 <= w < |procs| => Result(w, procs[w].local))
  }

  lemma GatheredIsAll(p: Plan, s: State)
    requires PlanOk(p) && Inv(p, s) && Final(p, s)
    ensures multiset(s.gathered) == multiset(ResultsOf(s.procs))
  {
    FinalCounts(p, s);
    hide HistoryInv, CountInv, AnnounceInv, QueueInv, Ok, Final;
    var all := ResultsOf(s.procs);
    forall x: Result
      ensures multiset(s.gathered)[x] == multiset(all)[x]
    {
      if x in s.gathered { assert IsResult(s, x); }
      if x in all {
        OnceInResults(s.procs, x.worker);
      }
      if x in s.gathered { assert x == all[x.worker]; }
    }
  }

  lemma {:induction false} OnceInResults(procs: seq<Proc>, w: nat)
    requires w < |procs|
    ensures multiset(ResultsOf(procs))[Result(w, procs[w].local)] == 1
  {
    var all := ResultsOf(procs);
    var x := all[w];
    assert all == all[..w] + [x] + all[w + 1..];
    assert x !in all[..w] && x !in all[w + 1..];
    assert multiset(all) == multiset(all[..w]) + multiset{x} + multiset(all[w + 1..]);
  }

  // ---- best_idxes ---------------------------------------------------------------------

  /** list(map(min, zip(*ms))). */
  method MergeBest(c: Corpus, gathered: seq<Result>) returns (best: seq<nat>)
    requires |gathered| > 0 && forall i :: 0 <= i < |gathered| ==> |gathered[i].local.m| == c.maxTuple
    ensures |best| == c.maxTuple
    ensures forall t :: 0 <= t < c.maxTuple ==> IsMinOf(gathered, t, best[t])
  {
    best := gathered[0].local.m;
    for i := 1 to |gathered|
      invariant |best| == c.maxTuple
      invariant forall t :: 0 <= t < c.maxTuple ==> IsMinOf(gathered[..i], t, best[t])
    {
      var m := gathered[i].local.m;
      var next := seq(c.maxTuple, t requires 0 <= t < c.maxTuple => if m[t] < best[t] then m[t] else best[t]);
      forall t | 0 <= t < c.maxTuple
        ensures IsMinOf(gathered[..i + 1], t, next[t])
      {
        assert IsMinOf(gathered[..i], t, best[t]);
        assert gathered[..i + 1] == gathered[..i] + [gathered[i]];
        if m[t] < best[t] {
          assert gathered[..i + 1][i].local.m[t] == next[t];
        } else {
          var j :| 0 <= j < i && gathered[..i][j].local.m[t] == best[t];
          assert gathered[..i + 1][j].local.m[t] == next[t];
        }
      }
      best := next;
    }
    assert gathered[..|gathered|] == gathered;
  }

  ghost predicate IsMinOf(gathered: seq<Result>, t: nat, b: nat)
    requires forall i :: 0 <= i < |gathered| ==> t < |gathered[i].local.m|
  {
    && (exists i :: 0 <= i < |gathered| && gathered[i].local.m[t] == b)
    && forall i :: 0 <= i < |gathered| ==> b <= gathered[i].local.m[t]
  }

  lemma WorkerFaithful(p: Plan, s: State, w: nat)
    requires PlanOk(p) && Inv(p, s) && w < |s.procs|
    ensures FilesOk(p.c, s.procs[w].handled) && Faithful(p.c, s.procs[w].handled, s.procs[w].local)
  {
    hide CountInv, AnnounceInv, ResultInv, Ok, HandleAll, Faithful, Jobs, Owned;
    assert ProcOk(p, Owned(Jobs(p), s.owner, w), s.procs[w]);
    HandleAllFaithful(p.c, s.procs[w].handled);
  }

  lemma GatheredFaithful(p: Plan, s: State, i: nat)
    requires PlanOk(p) && Inv(p, s) && i < |s.gathered|
    ensures s.gathered[i].worker < |s.procs| && s.gathered[i].local == s.procs[s.gathered[i].worker].local
    ensures FilesOk(p.c, s.procs[s.gathered[i].worker].handled)
    ensures Faithful(p.c, s.procs[s.gathered[i].worker].handled, s.gathered[i].local)
  {
    hide HistoryInv, CountInv, AnnounceInv, QueueInv, Ok, Faithful;
    assert IsResult(s, s.gathered[i]);
    WorkerFaithful(p, s, s.gathered[i].worker);
  }

  /** The merged minimum is the smallest file of the whole corpus, whoever handled it. */
  lemma MergedIsBest(p: Plan, s: State, t: nat, b: nat)
    requires PlanOk(p) && Inv(p, s) && Final(p, s) && t < p.c.maxTuple
    requires forall i :: 0 <= i < |s.gathered| ==> t < |s.gathered[i].local.m|
    requires IsMinOf(s.gathered, t, b)
    ensures IsBest(p.c, t, b)
  {
    var i :| 0 <= i < |s.gathered| && s.gathered[i].local.m[t] == b;
    GatheredFaithful(p, s, i);
    assert SmallestWith(p.c, s.procs[s.gathered[i].worker].handled, t, b);
    GatheredIsAll(p, s);
    forall f | 0 <= f < |p.c.traces| && t in p.c.traces[f]
      ensures b <= f
    {
      var w := EveryFileHandled(p, s, f);
      var j := ResultAt(s, w);
      GatheredFaithful(p, s, j);
      hide Inv, Final, Ok;
      assert SmallestWith(p.c, s.procs[w].handled, t, s.gathered[j].local.m[t]);
    }
  }

  lemma ResultAt(s: State, w: nat) returns (j: nat)
    requires multiset(s.gathered) == multiset(ResultsOf(s.procs)) && w < |s.procs|
    ensures j < |s.gathered| && s.gathered[j] == Result(w, s.procs[w].local)
  {
    assert ResultsOf(s.procs)[w] in multiset(ResultsOf(s.procs));
    j :| 0 <= j < |s.gathered| && s.gathered[j] == Result(w, s.procs[w].local);
  }

  /** There is one such index, so best_idxes is the same for every schedule. */
  lemma BestUnique(c: Corpus, t: nat, b1: nat, b2: nat)
    requires Ok(c) && IsBest(c, t, b1) && IsBest(c, t, b2)
    ensures b1 == b2
  {
    hide Pow256;
    assert Pow256(c.fileWidth) >= 1;
  }

  /** trace_info is defined at every best index, and points at that file's trace: the worker that
      handled the smallest file with t found it smaller than its own best, so it announced it. */
  lemma BestIsAnnounced(p: Plan, s: State, t: nat, b: nat)
    requires PlanOk(p) && Inv(p, s) && Final(p, s) && t < p.c.maxTuple
    requires IsBest(p.c, t, b) && b != NoFile(p.c)
    ensures b in s.traceInfo && s.traceInfo[b].worker < |s.procs|
    ensures PackHolds(p.c, s.procs[s.traceInfo[b].worker].local.pack, s.traceInfo[b].pos, s.traceInfo[b].count, p.c.traces[b])
  {
    var w := EveryFileHandled(p, s, b);
    WorkerFaithful(p, s, w);
    FinalCounts(p, s);
    BestInIndex(p.c, s.procs[w].handled, s.procs[w].local, t, b);
    AnnouncedIsKnown(s, w, b);
    WorkerFaithful(p, s, s.traceInfo[b].worker);
    hide Inv, Ok, Final, SmallestWith;
  }

  lemma BestInIndex(c: Corpus, files: seq<nat>, l: Local, t: nat, b: nat)
    requires Ok(c) && FilesOk(c, files) && Faithful(c, files, l) && t < c.maxTuple
    requires IsBest(c, t, b) && b != NoFile(c) && b in files
    ensures b in l.index
  {
    hide Pow256, PackHolds;
    assert SmallestWith(c, files, t, l.m[t]);
  }

  lemma AnnouncedIsKnown(s: State, w: nat, f: nat)
    requires AnnounceInv(s) && s.progress == [] && w < |s.procs| && f in s.procs[w].local.index
    ensures f in s.traceInfo
    ensures Announced(s, f, s.traceInfo[f].worker, s.traceInfo[f].pos, s.traceInfo[f].count)
  {
  }

  // ---- counter.update over all results --------------------------------------------------

  function SumSeq(xs: seq<nat>): nat {
    if xs == [] then 0 else SumSeq(xs[..|xs| - 1]) + xs[|xs| - 1]
  }

  lemma {:induction false} SumSeqUpdate(xs: seq<nat>, i: nat, v: nat)
    requires i < |xs|
    ensures SumSeq(xs[i := v]) + xs[i] == SumSeq(xs) + v
  {
    var n := |xs| - 1;
    if i == n {
      assert xs[i := v][..n] == xs[..n];
    } else {
      SumSeqUpdate(xs[..n], i, v);
      assert xs[i := v][..n] == xs[..n][i := v];
    }
  }

  lemma {:induction false} SumSeqZero(xs: seq<nat>)
    requires forall i :: 0 <= i < |xs| ==> xs[i] == 0
    ensures SumSeq(xs) == 0
  {
    if xs != [] { SumSeqZero(xs[..|xs| - 1]); }
  }

  lemma {:induction false} OccurrencesAppend(c: Corpus, a: seq<nat>, b: seq<nat>, t: nat)
    requires FilesOk(c, a) && FilesOk(c, b)
    ensures TotalOccurrences(c, a + b, t) == TotalOccurrences(c, a, t) + TotalOccurrences(c, b, t)
  {
    if b == [] {
      assert a + b == a;
    } else {
      var n := |b| - 1;
      OccurrencesAppend(c, a, b[..n], t);
      assert (a + b)[..|a + b| - 1] == a + b[..n];
    }
  }

  function Shares(c: Corpus, jobs: seq<Job>, owner: seq<nat>, workers: nat, t: nat): (xs: seq<nat>)
    requires |owner| <= |jobs| && forall k :: 0 <= k < |jobs| ==> FilesOk(c, FilesOf(jobs[k]))
    ensures |xs| == workers
  {
    seq(workers, w requires 0 <= w < workers =>
      OwnedOk(c, jobs, owner, w);
      TotalOccurrences(c, Owned(jobs, owner, w), t))
  }

  lemma {:induction false} OwnedOk(c: Corpus, jobs: seq<Job>, owner: seq<nat>, w: nat)
    requires |owner| <= |jobs| && forall k :: 0 <= k < |jobs| ==> FilesOk(c, FilesOf(jobs[k]))
    ensures FilesOk(c, Owned(jobs, owner, w))
  {
    if owner != [] { OwnedOk(c, jobs, owner[..|owner| - 1], w); }
  }

  lemma {:induction false} JobFilesOk(c: Corpus, jobs: seq<Job>)
    requires forall k :: 0 <= k < |jobs| ==> FilesOk(c, FilesOf(jobs[k]))
    ensures FilesOk(c, JobFiles(jobs))
  {
    if jobs != [] { JobFilesOk(c, jobs[..|jobs| - 1]); }
  }

  /** However the jobs are shared out, the shares add up to the whole. */
  lemma {:induction false} SharesAddUp(c: Corpus, jobs: seq<Job>, owner: seq<nat>, workers: nat, t: nat)
    requires |owner| <= |jobs| && forall k :: 0 <= k < |jobs| ==> FilesOk(c, FilesOf(jobs[k]))
    requires forall i :: 0 <= i < |owner| ==> owner[i] < workers
    ensures FilesOk(c, JobFiles(jobs[..|owner|]))
    ensures SumSeq(Shares(c, jobs, owner, workers, t)) == TotalOccurrences(c, JobFiles(jobs[..|owner|]), t)
  {
    JobFilesOk(c, jobs[..|owner|]);
    var xs := Shares(c, jobs, owner, workers, t);
    if owner == [] {
      SumSeqZero(xs);
    } else {
      var k := |owner| - 1;
      SharesAddUp(c, jobs, owner[..k], workers, t);
      ShareStep(c, jobs, owner, workers, t);
    }
  }

  lemma ShareStep(c: Corpus, jobs: seq<Job>, owner: seq<nat>, workers: nat, t: nat)
    requires 0 < |owner| <= |jobs| && forall k :: 0 <= k < |jobs| ==> FilesOk(c, FilesOf(jobs[k]))
    requires forall i :: 0 <= i < |owner| ==> owner[i] < workers
    requires FilesOk(c, JobFiles(jobs[..|owner| - 1])) && FilesOk(c, JobFiles(jobs[..|owner|]))
    ensures SumSeq(Shares(c, jobs, owner, workers, t)) + TotalOccurrences(c, JobFiles(jobs[..|owner| - 1]), t)
         == SumSeq(Shares(c, jobs, owner[..|owner| - 1], workers, t)) + TotalOccurrences(c, JobFiles(jobs[..|owner|]), t)
  {
    hide Shares, SumSeq, TotalOccurrences, FilesOk, Owned;
    var k := |owner| - 1;
    var v := owner[k];
    var before := Shares(c, jobs, owner[..k], workers, t);
    var after := Shares(c, jobs, owner, workers, t);
    OneShareGrows(c, jobs, owner, workers, t);
    SumSeqUpdate(before, v, after[v]);
    assert jobs[..k + 1][..k] == jobs[..k];
    OccurrencesAppend(c, JobFiles(jobs[..k]), FilesOf(jobs[k]), t);
  }

  lemma OneShareGrows(c: Corpus, jobs: seq<Job>, owner: seq<nat>, workers: nat, t: nat)
    requires 0 < |owner| <= |jobs| && forall k :: 0 <= k < |jobs| ==> FilesOk(c, FilesOf(jobs[k]))
    requires forall i :: 0 <= i < |owner| ==> owner[i] < workers
    ensures var k := |owner| - 1;
      var before, after := Shares(c, jobs, owner[..k], workers, t), Shares(c, jobs, owner, workers, t);
      && after == before[owner[k] := after[owner[k]]]
      && after[owner[k]] == before[owner[k]] + TotalOccurrences(c, FilesOf(jobs[k]), t)
  {
    hide TotalOccurrences, FilesOk;
    var k := |owner| - 1;
    OwnedOk(c, jobs, owner[..k], owner[k]);
    OccurrencesAppend(c, Owned(jobs, owner[..k], owner[k]), FilesOf(jobs[k]), t);
    forall w | 0 <= w < workers && w != owner[k]
      ensures Owned(jobs, owner, w) == Owned(jobs, owner[..k], w)
    {
    }
  }

  function MergedCount(rs: seq<Result>, t: nat): nat {
    if rs == [] then 0 else MergedCount(rs[..|rs| - 1], t) + Lookup(rs[|rs| - 1].local.counter, t)
  }

  /** counter.update over the results as they come in. */
  method MergeCounters(gathered: seq<Result>) returns (counter: map<nat, nat>)
    ensures forall t :: Lookup(counter, t) == MergedCount(gathered, t)
  {
    counter := map[];
    for i := 0 to |gathered|
      invariant forall t :: Lookup(counter, t) == MergedCount(gathered[..i], t)
    {
      assert gathered[..i + 1][..i] == gathered[..i];
      var c := gathered[i].local.counter;
      counter := map t | t in counter.Keys + c.Keys :: Lookup(counter, t) + Lookup(c, t);
    }
    assert gathered[..|gathered|] == gathered;
  }

  lemma {:induction false} MergedCountAppend(a: seq<Result>, b: seq<Result>, t: nat)
    ensures MergedCount(a + b, t) == MergedCount(a, t) + MergedCount(b, t)
  {
    if b == [] {
      assert a + b == a;
    } else {
      MergedCountAppend(a, b[..|b| - 1], t);
      assert (a + b)[..|a + b| - 1] == a + b[..|b| - 1];
    }
  }

  lemma RemoveOne(rs: seq<Result>, i: nat, t: nat)
    requires i < |rs|
    ensures MergedCount(rs, t) == MergedCount(Without(rs, i), t) + Lookup(rs[i].local.counter, t)
  {
    var x := [rs[i]];
    assert x[..0] == [];
    assert MergedCount(x, t) == Lookup(rs[i].local.counter, t);
    hide MergedCount, Lookup;
    assert rs == (rs[..i] + x) + rs[i + 1..];
    MergedCountAppend(rs[..i], x, t);
    MergedCountAppend(rs[..i] + x, rs[i + 1..], t);
    MergedCountAppend(rs[..i], rs[i + 1..], t);
  }

  lemma SameAfterRemoval(a: seq<Result>, b: seq<Result>, i: nat)
    requires a != [] && multiset(a) == multiset(b) && i < |b| && b[i] == a[0]
    ensures multiset(Without(a, 0)) == multiset(Without(b, i))
  {
    WithoutMultiset(a, 0);
    WithoutMultiset(b, i);
    assert multiset(Without(a, 0)) == multiset(a) - multiset{a[0]};
    assert multiset(Without(b, i)) == multiset(b) - multiset{b[i]};
  }

  /** Counters merge to the same totals in whatever order the results arrive. */
  lemma {:induction false} MergeOrderIrrelevant(a: seq<Result>, b: seq<Result>, t: nat)
    requires multiset(a) == multiset(b)
    ensures MergedCount(a, t) == MergedCount(b, t)
    decreases |a|
  {
    if a == [] {
      assert |b| == |multiset(b)| == 0;
    } else {
      assert a[0] in multiset(a);
      var i :| 0 <= i < |b| && b[i] == a[0];
      SameAfterRemoval(a, b, i);
      hide MergedCount, Lookup;
      MergeOrderIrrelevant(Without(a, 0), Without(b, i), t);
      RemoveOne(a, 0, t);
      RemoveOne(b, i, t);
    }
  }

  lemma {:induction false} MergedOfAll(c: Corpus, procs: seq<Proc>, xs: seq<nat>, t: nat)
    requires |xs| == |procs| && forall w :: 0 <= w < |procs| ==> Lookup(procs[w].local.counter, t) == xs[w]
    ensures MergedCount(ResultsOf(procs), t) == SumSeq(xs)
  {
    if procs != [] {
      var n := |procs| - 1;
      MergedOfAll(c, procs[..n], xs[..n], t);
      assert ResultsOf(procs)[..n] == ResultsOf(procs[..n]);
    }
  }

  /** The merged counter counts the whole corpus, for every schedule. */
  lemma MergedCounts(p: Plan, s: State, t: nat)
    requires PlanOk(p) && Inv(p, s) && Final(p, s)
    ensures MergedCount(s.gathered, t) == TotalOccurrences(p.c, AllFiles(p.c), t)
  {
    hide Inv, PlanOk, Ok, Final, Jobs, JobList, JobFiles, TotalOccurrences, MergedCount, Shares, SumSeq, ResultsOf, FilesOk, Range;
    AllFilesIn(p);
    FinalCounts(p, s);
    GatheredIsAll(p, s);
    OwnersInRange(p, s);
    MergeOrderIrrelevant(s.gathered, ResultsOf(s.procs), t);
    var jobs := Jobs(p);
    SharesAddUp(p.c, jobs, s.owner, p.workers, t);
    assert jobs[..|jobs|] == jobs;
    var xs := Shares(p.c, jobs, s.owner, p.workers, t);
    forall w | 0 <= w < |s.procs|
      ensures Lookup(s.procs[w].local.counter, t) == xs[w]
    {
      WorkerShare(p, s, w, t);
    }
    MergedOfAll(p.c, s.procs, xs, t);
  }

  lemma AllFilesIn(p: Plan)
    requires PlanOk(p)
    ensures p.chunk >= 1 && JobFiles(Jobs(p)) == AllFiles(p.c)
    ensures forall k :: 0 <= k < |Jobs(p)| ==> FilesOk(p.c, FilesOf(Jobs(p)[k]))
  {
    AllJobsOk(p);
    JobListIsJobs(p);
    JobsCoverOnce(N(p), p.chunk, p.workers);
    hide Jobs, JobFiles, JobList;
  }

  lemma OwnersInRange(p: Plan, s: State)
    requires PlanOk(p) && Inv(p, s)
    ensures |s.procs| == p.workers && |s.owner| <= |Jobs(p)|
    ensures forall i :: 0 <= i < |s.owner| ==> s.owner[i] < p.workers
  {
    hide HistoryInv, CountInv, AnnounceInv, ResultInv, Jobs;
  }

  lemma AllJobsOk(p: Plan)
    requires p.chunk >= 1
    ensures forall k :: 0 <= k < |Jobs(p)| ==> FilesOk(p.c, FilesOf(Jobs(p)[k]))
  {
    forall k | 0 <= k < |Jobs(p)|
      ensures FilesOk(p.c, FilesOf(Jobs(p)[k]))
    {
      JobIsRange(p, k);
    }
  }

  lemma WorkerShare(p: Plan, s: State, w: nat, t: nat)
    requires PlanOk(p) && Inv(p, s) && w < |s.procs| && s.procs[w].phase.Gone?
    requires forall k :: 0 <= k < |Jobs(p)| ==> FilesOk(p.c, FilesOf(Jobs(p)[k]))
    ensures Lookup(s.procs[w].local.counter, t) == Shares(p.c, Jobs(p), s.owner, p.workers, t)[w]
  {
    hide CountInv, AnnounceInv, ResultInv, Ok, Jobs, HandleAll, TotalOccurrences, Owned, Lookup, Pow256;
    OwnedOk(p.c, Jobs(p), s.owner, w);
    assert ProcOk(p, Owned(Jobs(p), s.owner, w), s.procs[w]);
    HandleAllFaithful(p.c, s.procs[w].handled);
    assert s.procs[w].handled + [] == s.procs[w].handled;
  }
}
