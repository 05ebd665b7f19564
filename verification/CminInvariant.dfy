/** What every reachable state of the afl-cmin process network satisfies, and what that gives:
    no interleaving gets stuck, every run has the same length, and the results do not depend on
    the schedule. */
module CminInvariant {
  import opened LittleEndian
  import opened CminWorker
  import opened CminProtocol

  // ---- bookkeeping over the workers -------------------------------------------------

  function Sum(procs: seq<Proc>, weight: Proc -> nat): nat {
    if procs == [] then 0 else Sum(procs[..|procs| - 1], weight) + weight(procs[|procs| - 1])
  }

  lemma {:induction false} SumUpdate(procs: seq<Proc>, weight: Proc -> nat, w: nat, q: Proc)
    requires w < |procs|
    ensures Sum(procs[w := q], weight) + weight(procs[w]) == Sum(procs, weight) + weight(q)
  {
    var n := |procs| - 1;
    if w == n {
      assert procs[w := q][..n] == procs[..n];
    } else {
      SumUpdate(procs[..n], weight, w, q);
      assert procs[w := q][..n] == procs[..n][w := q];
    }
  }

  /** A weight of at most one that sums to the number of workers is one everywhere; a sum of
      zero is zero everywhere. */
  lemma {:induction false} SumExtremes(procs: seq<Proc>, weight: Proc -> nat)
    requires forall q :: weight(q) <= 1
    ensures Sum(procs, weight) <= |procs|
    ensures Sum(procs, weight) == |procs| <==> forall w :: 0 <= w < |procs| ==> weight(procs[w]) == 1
  {
    if procs != [] {
      SumExtremes(procs[..|procs| - 1], weight);
      assert forall w :: 0 <= w < |procs| - 1 ==> procs[..|procs| - 1][w] == procs[w];
    }
  }

  lemma {:induction false} SumZero(procs: seq<Proc>, weight: Proc -> nat)
    ensures Sum(procs, weight) == 0 <==> forall w :: 0 <= w < |procs| ==> weight(procs[w]) == 0
  {
    if procs != [] {
      SumZero(procs[..|procs| - 1], weight);
      assert forall w :: 0 <= w < |procs| - 1 ==> procs[..|procs| - 1][w] == procs[w];
    }
  }

  function LeftLoop(q: Proc): nat { if q.phase.Stopping? || q.phase.Gone? then 1 else 0 }
  function Reported(q: Proc): nat { if q.phase.Gone? then 1 else 0 }
  function Pending(q: Proc): nat { |Rest(q.phase)| }

  /** The files a worker has been handed, in order. */
  function Owned(jobs: seq<Job>, owner: seq<nat>, w: nat): seq<nat>
    requires |owner| <= |jobs|
  {
    if owner == [] then []
    else
      var k := |owner| - 1;
      Owned(jobs, owner[..k], w) + if owner[k] == w then FilesOf(jobs[k]) else []
  }

  // ---- the invariant ----------------------------------------------------------------

  ghost predicate QueueInv(p: Plan, s: State)
    requires p.chunk >= 1
  {
    && |s.procs| == p.workers
    && |s.owner| <= s.dispatched <= |Jobs(p)|
    && s.queue == Jobs(p)[|s.owner|..s.dispatched]
    && forall i :: 0 <= i < |s.owner| ==> s.owner[i] < p.workers
  }

  ghost predicate ProcOk(p: Plan, owned: seq<nat>, q: Proc) {
    && q.handled + Rest(q.phase) == owned
    && FilesOk(p.c, q.handled) && q.local == HandleAll(p.c, q.handled)
    && (q.phase.Busy? ==> q.phase.rest != [])
  }

  ghost predicate HistoryInv(p: Plan, s: State)
    requires p.chunk >= 1 && |s.owner| <= |Jobs(p)|
  {
    forall w :: 0 <= w < |s.procs| ==> ProcOk(p, Owned(Jobs(p), s.owner, w), s.procs[w])
  }

  /** Message conservation: a worker leaves its loop per Stop taken, a progress message exists
      per file handled, a result per worker that has reported. */
  ghost predicate CountInv(p: Plan, s: State)
    requires p.chunk >= 1 && |s.owner| <= |Jobs(p)|
  {
    && Sum(s.procs, LeftLoop) == (if |s.owner| > BatchCount(p) then |s.owner| - BatchCount(p) else 0)
    && s.got + |s.progress| + Sum(s.procs, Pending) == |JobFiles(Jobs(p)[..|s.owner|])|
    && Sum(s.procs, Reported) == |s.results| + |s.gathered|
    && s.got <= N(p) && |s.gathered| <= p.workers
    && (s.gathered != [] ==> s.got == N(p))
  }

  ghost predicate Announced(s: State, idx: nat, worker: nat, pos: nat, count: nat) {
    && worker < |s.procs| && idx in s.procs[worker].local.index
    && s.procs[worker].local.index[idx] == (pos, count)
  }

  ghost predicate InFlight(s: State, idx: nat) {
    exists k :: 0 <= k < |s.progress| && s.progress[k].Used? && s.progress[k].idx == idx
  }

  /** Every announcement is known to main or on its way, and is true. */
  ghost predicate AnnounceInv(s: State) {
    && (forall f :: f in s.traceInfo ==>
          Announced(s, f, s.traceInfo[f].worker, s.traceInfo[f].pos, s.traceInfo[f].count))
    && (forall k :: 0 <= k < |s.progress| && s.progress[k].Used? ==>
          Announced(s, s.progress[k].idx, s.progress[k].worker, s.progress[k].pos, s.progress[k].count))
    && (forall w, f :: 0 <= w < |s.procs| && f in s.procs[w].local.index ==> f in s.traceInfo || InFlight(s, f))
  }

  ghost predicate IsResult(s: State, r: Result) {
    r.worker < |s.procs| && r.local == s.procs[r.worker].local && s.procs[r.worker].phase.Gone?
  }

  /** The results put are exactly one per worker that has reported. */
  ghost predicate ResultInv(s: State) {
    && (forall r :: r in s.results || r in s.gathered ==> IsResult(s, r))
    && (forall w :: 0 <= w < |s.procs| ==>
          multiset(s.results)[Result(w, s.procs[w].local)] + multiset(s.gathered)[Result(w, s.procs[w].local)]
          == Reported(s.procs[w]))
  }

  ghost predicate Inv(p: Plan, s: State)
    requires p.chunk >= 1
  {
    QueueInv(p, s) && HistoryInv(p, s) && CountInv(p, s) && AnnounceInv(s) && ResultInv(s)
  }

  // ---- facts about the job list -----------------------------------------------------

  /** The first k jobs hold a prefix of the files, and job k the next ones. */
  lemma JobPrefix(p: Plan, k: nat)
    requires p.chunk >= 1 && k <= |Jobs(p)|
    ensures JobFiles(Jobs(p)[..k]) == Range(0, |JobFiles(Jobs(p)[..k])|)
    ensures |JobFiles(Jobs(p)[..k])| <= N(p)
    ensures k == |Jobs(p)| ==> |JobFiles(Jobs(p)[..k])| == N(p)
  {
    hide JobFiles, Batches, JobList, Jobs, Range;
    var jobs := Jobs(p);
    JobsHoldAll(p);
    JobFilesAppend(jobs[..k], jobs[k..]);
    assert jobs == jobs[..k] + jobs[k..];
    RangePrefix(JobFiles(jobs[..k]), JobFiles(jobs[k..]), N(p));
    if k == |jobs| {
      assert jobs[..k] == jobs;
      RangePrefix(JobFiles(jobs), [], N(p));
    }
  }

  lemma JobsHoldAll(p: Plan)
    requires p.chunk >= 1
    ensures JobFiles(Jobs(p)) == Range(0, N(p))
  {
    hide JobFiles, JobList, Range;
    JobsCoverOnce(N(p), p.chunk, p.workers);
  }

  lemma RangePrefix(a: seq<nat>, b: seq<nat>, n: nat)
    requires a + b == Range(0, n)
    ensures a == Range(0, |a|) && |a| <= n && (b == [] ==> |a| == n)
  {
    forall i | 0 <= i < |a|
      ensures a[i] == i
    {
      assert a[i] == (a + b)[i];
    }
  }

  lemma JobFilesStep(p: Plan, k: nat)
    requires p.chunk >= 1 && k < |Jobs(p)|
    ensures JobFiles(Jobs(p)[..k + 1]) == JobFiles(Jobs(p)[..k]) + FilesOf(Jobs(p)[k])
  {
    assert Jobs(p)[..k + 1][..k] == Jobs(p)[..k];
  }

  lemma JobIsRange(p: Plan, k: nat)
    requires p.chunk >= 1 && k < |Jobs(p)|
    ensures FilesOf(Jobs(p)[k])
         == Range(|JobFiles(Jobs(p)[..k])|, |JobFiles(Jobs(p)[..k])| + |FilesOf(Jobs(p)[k])|)
    ensures |JobFiles(Jobs(p)[..k])| + |FilesOf(Jobs(p)[k])| <= N(p)
  {
    JobPrefix(p, k);
    JobPrefix(p, k + 1);
    JobFilesStep(p, k);
    hide JobFiles, Jobs;
    var a, f := JobFiles(Jobs(p)[..k]), FilesOf(Jobs(p)[k]);
    forall i | 0 <= i < |f|
      ensures f[i] == |a| + i
    {
      assert f[i] == (a + f)[|a| + i];
    }
  }

  lemma JobKind(p: Plan, k: nat)
    requires p.chunk >= 1 && k < |Jobs(p)|
    ensures Jobs(p)[k].Stop? <==> k >= BatchCount(p)
    ensures |Jobs(p)| == BatchCount(p) + p.workers
  {
    BatchesAreBatches(0, N(p), p.chunk);
  }

  lemma {:induction false} BatchesAreBatches(lo: nat, n: nat, chunk: nat)
    requires chunk >= 1
    ensures forall i :: 0 <= i < |Batches(lo, n, chunk)| ==> Batches(lo, n, chunk)[i].Batch?
    decreases n - lo
  {
    if lo < n { BatchesAreBatches(lo + chunk, n, chunk); }
  }

  predicate Increasing(files: seq<nat>, bound: nat) {
    && (forall i, j :: 0 <= i < j < |files| ==> files[i] < files[j])
    && (forall i :: 0 <= i < |files| ==> files[i] < bound)
  }

  /** A worker is handed files in increasing order, so never the same file twice. */
  lemma {:induction false} OwnedIncreasing(p: Plan, owner: seq<nat>, w: nat)
    requires p.chunk >= 1 && |owner| <= |Jobs(p)|
    ensures Increasing(Owned(Jobs(p), owner, w), |JobFiles(Jobs(p)[..|owner|])|)
  {
    if owner != [] {
      var k := |owner| - 1;
      OwnedIncreasing(p, owner[..k], w);
      JobIsRange(p, k);
      JobFilesStep(p, k);
      hide JobFiles, Jobs;
    }
  }
}
