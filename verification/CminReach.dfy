/** The invariant holds initially and is kept by every action of every process. */
module CminReach {
  import opened LittleEndian
  import opened CminWorker
  import opened CminProtocol
  import opened CminInvariant

  lemma InitInv(p: Plan)
    requires PlanOk(p)
    ensures Inv(p, Init(p))
  {
    var s := Init(p);
    hide Jobs, Ok;
    SumZero(s.procs, LeftLoop);
    SumZero(s.procs, Pending);
    SumZero(s.procs, Reported);
    assert Jobs(p)[..0] == [];
  }

  lemma QueueKept(p: Plan, s: State, a: Action)
    requires PlanOk(p) && Inv(p, s) && Enabled(p, s, a)
    ensures QueueInv(p, Next(p, s, a))
  {
    hide Jobs, HistoryInv, CountInv, AnnounceInv, ResultInv, Handle, Ok;
  }

  /** Taking a job hands over its files. */
  lemma OwnedTake(jobs: seq<Job>, owner: seq<nat>, w: nat, v: nat)
    requires |owner| < |jobs|
    ensures Owned(jobs, owner + [w], v) == Owned(jobs, owner, v) + if v == w then FilesOf(jobs[|owner|]) else []
  {
    assert (owner + [w])[..|owner|] == owner;
  }

  lemma HandledOne(c: Corpus, files: seq<nat>, idx: nat)
    requires FilesOk(c, files) && idx < |c.traces|
    ensures HandleAll(c, files + [idx]) == Handle(c, HandleAll(c, files), idx)
  {
    assert (files + [idx])[..|files|] == files;
  }

  lemma HistoryKept(p: Plan, s: State, a: Action)
    requires PlanOk(p) && Inv(p, s) && Enabled(p, s, a)
    ensures |Next(p, s, a).owner| <= |Jobs(p)|
    ensures HistoryInv(p, Next(p, s, a))
  {
    hide Jobs, CountInv, AnnounceInv, ResultInv, Handle, HandleAll, Ok, Owned, MessageFor, Record, ProcOk;
    var s' := Next(p, s, a);
    forall v | 0 <= v < |s'.procs|
      ensures ProcOk(p, Owned(Jobs(p), s'.owner, v), s'.procs[v])
    {
      HistoryOne(p, s, a, v);
    }
  }

  lemma HistoryOne(p: Plan, s: State, a: Action, v: nat)
    requires PlanOk(p) && Inv(p, s) && Enabled(p, s, a) && v < |s.procs|
    ensures |Next(p, s, a).owner| <= |Jobs(p)| && v < |Next(p, s, a).procs|
    ensures ProcOk(p, Owned(Jobs(p), Next(p, s, a).owner, v), Next(p, s, a).procs[v])
  {
    hide Jobs, CountInv, AnnounceInv, ResultInv, Handle, HandleAll, Ok, Owned, MessageFor, Record;
    assert ProcOk(p, Owned(Jobs(p), s.owner, v), s.procs[v]);
    match a
    case Take(w) =>
      OwnedTake(Jobs(p), s.owner, w, v);
      assert s.queue[0] == Jobs(p)[|s.owner|];
    case HandleNext(w) =>
      if v == w { HandledOne(p.c, s.procs[w].handled, s.procs[w].phase.rest[0]); }
    case _ =>
  }

  lemma CountKept(p: Plan, s: State, a: Action)
    requires PlanOk(p) && Inv(p, s) && Enabled(p, s, a)
    ensures |Next(p, s, a).owner| <= |Jobs(p)|
    ensures CountInv(p, Next(p, s, a))
  {
    hide Jobs, AnnounceInv, ResultInv, Handle, HandleAll, Ok, Owned, Sum, BatchCount, JobFiles, MessageFor, Record;
    var s' := Next(p, s, a);
    match a
    case Dispatch =>
    case Take(w) =>
      ProcChanged(s.procs, w, s'.procs[w]);
      JobKind(p, |s.owner|);
      JobFilesStep(p, |s.owner|);
      assert s.queue[0] == Jobs(p)[|s.owner|];
    case HandleNext(w) => ProcChanged(s.procs, w, s'.procs[w]);
    case Report(w) => ProcChanged(s.procs, w, s'.procs[w]);
    case Receive(k) =>
    case Gather(k) =>
  }

  lemma ProcChanged(procs: seq<Proc>, w: nat, q: Proc)
    requires w < |procs|
    ensures Sum(procs[w := q], LeftLoop) + LeftLoop(procs[w]) == Sum(procs, LeftLoop) + LeftLoop(q)
    ensures Sum(procs[w := q], Pending) + Pending(procs[w]) == Sum(procs, Pending) + Pending(q)
    ensures Sum(procs[w := q], Reported) + Reported(procs[w]) == Sum(procs, Reported) + Reported(q)
  {
    SumUpdate(procs, LeftLoop, w, q);
    SumUpdate(procs, Pending, w, q);
    SumUpdate(procs, Reported, w, q);
  }

  /** A file handed to a worker was not handled by it before, so its announcement is new. */
  lemma FreshFile(p: Plan, s: State, w: nat)
    requires PlanOk(p) && QueueInv(p, s) && HistoryInv(p, s)
    requires w < |s.procs| && s.procs[w].phase.Busy?
    ensures s.procs[w].phase.rest[0] < N(p)
    ensures s.procs[w].phase.rest[0] !in s.procs[w].local.index
  {
    hide Jobs, HandleAll, Ok, Owned;
    var q := s.procs[w];
    assert ProcOk(p, Owned(Jobs(p), s.owner, w), q);
    OwnedIncreasing(p, s.owner, w);
    JobPrefix(p, |s.owner|);
    HandleAllFaithful(p.c, q.handled);
    var files := q.handled + q.phase.rest;
    assert files[|q.handled|] == q.phase.rest[0];
    assert forall i :: 0 <= i < |q.handled| ==> files[i] == q.handled[i];
  }

  lemma AnnounceKept(p: Plan, s: State, a: Action)
    requires PlanOk(p) && Inv(p, s) && Enabled(p, s, a)
    ensures AnnounceInv(Next(p, s, a))
  {
    var s' := Next(p, s, a);
    match a
    case HandleNext(w) => AnnounceHandle(p, s, w);
    case Receive(k) => AnnounceReceive(p, s, k);
    case _ =>
      hide QueueInv, HistoryInv, CountInv, ResultInv, Handle, HandleAll, Ok;
      SameAnnouncements(s, s');
  }

  lemma SameAnnouncements(s: State, s': State)
    requires AnnounceInv(s) && |s'.procs| == |s.procs| && s'.progress == s.progress && s'.traceInfo == s.traceInfo
    requires forall w :: 0 <= w < |s.procs| ==> s'.procs[w].local.index == s.procs[w].local.index
    ensures AnnounceInv(s')
  {
    forall w, f | 0 <= w < |s'.procs| && f in s'.procs[w].local.index
      ensures f in s'.traceInfo || InFlight(s', f)
    {
      assert f in s.procs[w].local.index;
      if f !in s.traceInfo {
        var k :| 0 <= k < |s.progress| && s.progress[k].Used? && s.progress[k].idx == f;
        assert s'.progress[k].idx == f;
      }
    }
  }

  lemma AnnounceHandle(p: Plan, s: State, w: nat)
    requires PlanOk(p) && Inv(p, s) && Enabled(p, s, HandleNext(w))
    ensures AnnounceInv(Next(p, s, HandleNext(w)))
  {
    FreshFile(p, s, w);
    hide QueueInv, HistoryInv, CountInv, ResultInv, AnnounceInv, HandleAll, Ok, Uses, Encode, Bump, Improve;
    var q := s.procs[w];
    AnnounceOne(s, Next(p, s, HandleNext(w)), w, q.phase.rest[0], MessageFor(p.c, q.local, q.phase.rest[0], w));
  }

  /** Worker w announces idx, which it had not announced before, with the message it sends; or
      sends an empty message and announces nothing. */
  lemma AnnounceOne(s: State, s': State, w: nat, idx: nat, msg: Message)
    requires AnnounceInv(s) && w < |s.procs| && idx !in s.procs[w].local.index
    requires |s'.procs| == |s.procs| && s'.procs == s.procs[w := s'.procs[w]]
    requires s'.progress == s.progress + [msg] && s'.traceInfo == s.traceInfo
    requires s'.procs[w].local.index
          == (if msg.Used? then s.procs[w].local.index[idx := (msg.pos, msg.count)] else s.procs[w].local.index)
    requires msg.Used? ==> msg.idx == idx && msg.worker == w
    ensures AnnounceInv(s')
  {
    forall f, v: nat, pos, n | Announced(s, f, v, pos, n)
      ensures Announced(s', f, v, pos, n)
    {
    }
    forall v, f | 0 <= v < |s'.procs| && f in s'.procs[v].local.index
      ensures f in s'.traceInfo || InFlight(s', f)
    {
      if f in s.procs[v].local.index {
        if f !in s.traceInfo {
          var k :| 0 <= k < |s.progress| && s.progress[k].Used? && s.progress[k].idx == f;
          assert s'.progress[k].idx == f;
        }
      } else {
        assert s'.progress[|s.progress|].idx == f;
      }
    }
  }

  lemma AnnounceReceive(p: Plan, s: State, k: nat)
    requires PlanOk(p) && Inv(p, s) && Enabled(p, s, Receive(k))
    ensures AnnounceInv(Next(p, s, Receive(k)))
  {
    hide QueueInv, HistoryInv, CountInv, ResultInv, Ok;
    var s' := Next(p, s, Receive(k));
    assert forall j :: 0 <= j < |s'.progress| ==> s'.progress[j] == s.progress[if j < k then j else j + 1];
    forall v, f | 0 <= v < |s'.procs| && f in s'.procs[v].local.index
      ensures f in s'.traceInfo || InFlight(s', f)
    {
      assert f in s.procs[v].local.index;
      if f !in s.traceInfo {
        var j :| 0 <= j < |s.progress| && s.progress[j].Used? && s.progress[j].idx == f;
        if j != k {
          var j' := if j < k then j else j - 1;
          assert s'.progress[j'] == s.progress[j];
        }
      }
    }
  }

  lemma ResultKept(p: Plan, s: State, a: Action)
    requires PlanOk(p) && Inv(p, s) && Enabled(p, s, a)
    ensures ResultInv(Next(p, s, a))
  {
    hide QueueInv, HistoryInv, CountInv, AnnounceInv, Handle, HandleAll, Ok;
    var s' := Next(p, s, a);
    match a
    case Dispatch => SameResults(s, s');
    case Take(w) => SameResults(s, s');
    case Receive(k) => SameResults(s, s');
    case HandleNext(w) => ResultsOfOthers(s, s', w, []);
    case Report(w) => ResultsOfOthers(s, s', w, [Result(w, s.procs[w].local)]);
    case Gather(k) =>
      WithoutMultiset(s.results, k);
      GatherKeeps(s, s', k);
  }

  lemma SameResults(s: State, s': State)
    requires ResultInv(s) && s'.results == s.results && s'.gathered == s.gathered && |s'.procs| == |s.procs|
    requires forall v :: 0 <= v < |s.procs| ==>
      s'.procs[v].local == s.procs[v].local && s'.procs[v].phase.Gone? == s.procs[v].phase.Gone?
    ensures ResultInv(s')
  {
    forall r | r in s'.results || r in s'.gathered ensures IsResult(s', r) { assert IsResult(s, r); }
  }

  /** A worker that has not reported changes: no result is its own yet, beyond the one it puts now. */
  lemma ResultsOfOthers(s: State, s': State, w: nat, extra: seq<Result>)
    requires ResultInv(s) && w < |s.procs| && !s.procs[w].phase.Gone?
    requires s'.results == s.results + extra && s'.gathered == s.gathered
    requires |s'.procs| == |s.procs| && s'.procs == s.procs[w := s'.procs[w]]
    requires if s'.procs[w].phase.Gone? then extra == [Result(w, s'.procs[w].local)] else extra == []
    ensures ResultInv(s')
  {
    forall r | r in s'.results || r in s'.gathered
      ensures IsResult(s', r)
    {
      if r in s.results || r in s.gathered { assert IsResult(s, r); }
    }
    forall v | 0 <= v < |s'.procs|
      ensures multiset(s'.results)[Result(v, s'.procs[v].local)] + multiset(s'.gathered)[Result(v, s'.procs[v].local)]
           == Reported(s'.procs[v])
    {
      var x := Result(v, s'.procs[v].local);
      assert multiset(s'.results) == multiset(s.results) + multiset(extra);
      if v == w {
        assert x !in s.results && x !in s.gathered by { assert !IsResult(s, x); }
      } else {
        assert x !in extra;
      }
    }
  }

  lemma WithoutMultiset<T>(q: seq<T>, k: nat)
    requires k < |q|
    ensures multiset(q) == multiset(Without(q, k)) + multiset{q[k]}
  {
    assert q == q[..k] + [q[k]] + q[k + 1..];
  }

  lemma GatherKeeps(s: State, s': State, k: nat)
    requires ResultInv(s) && k < |s.results| && s' == s.(results := Without(s.results, k), gathered := s.gathered + [s.results[k]])
    requires multiset(s.results) == multiset(s'.results) + multiset{s.results[k]}
    ensures ResultInv(s')
  {
    assert multiset(s'.gathered) == multiset(s.gathered) + multiset{s.results[k]};
    forall r | r in s'.results || r in s'.gathered
      ensures IsResult(s', r)
    {
      assert r in multiset(s'.results) || r in multiset(s'.gathered);
      assert r in multiset(s.results) || r in multiset(s.gathered);
      assert IsResult(s, r);
    }
  }

  /** One action keeps the whole invariant. */
  lemma StepInv(p: Plan, s: State, a: Action)
    requires PlanOk(p) && Inv(p, s) && Enabled(p, s, a)
    ensures Inv(p, Next(p, s, a))
  {
    QueueKept(p, s, a);
    HistoryKept(p, s, a);
    CountKept(p, s, a);
    AnnounceKept(p, s, a);
    ResultKept(p, s, a);
    hide HistoryInv, CountInv, AnnounceInv, ResultInv, Next;
  }

  /** Safety over whole runs. */
  lemma {:induction false} RunInv(p: Plan, s: State, run: seq<Action>)
    requires PlanOk(p) && Inv(p, s) && Legal(p, s, run)
    ensures Inv(p, After(p, s, run))
    decreases |run|
  {
    hide Inv, Enabled, Next;
    if run != [] {
      StepInv(p, s, run[0]);
      RunInv(p, Next(p, s, run[0]), run[1..]);
    }
  }

  // ---- every interleaving ends, after the same number of steps -----------------------

  function StepsTaken(s: State): nat {
    s.dispatched + |s.owner| + (s.got + |s.progress|) + (|s.results| + |s.gathered|) + s.got + |s.gathered|
  }

  function RunLength(p: Plan): nat
    requires p.chunk >= 1
  {
    2 * (|Jobs(p)| + N(p) + p.workers)
  }

  lemma StepCounts(p: Plan, s: State, a: Action)
    requires p.chunk >= 1 && Enabled(p, s, a)
    ensures StepsTaken(Next(p, s, a)) == StepsTaken(s) + 1
  {
    hide Jobs, Handle, MessageFor, Record;
  }

  lemma {:induction false} RunCounts(p: Plan, s: State, run: seq<Action>)
    requires p.chunk >= 1 && Legal(p, s, run)
    ensures StepsTaken(After(p, s, run)) == StepsTaken(s) + |run|
    decreases |run|
  {
    hide Enabled, Next, StepsTaken;
    if run != [] {
      StepCounts(p, s, run[0]);
      RunCounts(p, Next(p, s, run[0]), run[1..]);
    }
  }

  /** What the counters say once every worker has reported and main has every result. */
  lemma FinalCounts(p: Plan, s: State)
    requires PlanOk(p) && Inv(p, s) && Final(p, s)
    ensures StepsTaken(s) == RunLength(p)
    ensures s.progress == [] && s.results == [] && |s.owner| == |Jobs(p)|
    ensures forall w :: 0 <= w < |s.procs| ==> s.procs[w].phase.Gone?
  {
    hide Jobs, HistoryInv, AnnounceInv, ResultInv, Ok, BatchCount, JobFiles, Sum;
    SumExtremes(s.procs, Reported);
    SumExtremes(s.procs, LeftLoop);
    SumZero(s.procs, Pending);
    JobPrefix(p, |s.owner|);
    JobCount(p);
  }

  lemma JobCount(p: Plan)
    requires p.chunk >= 1
    ensures |Jobs(p)| == BatchCount(p) + p.workers
  {
  }

  /** No reachable state is stuck before the end. */
  lemma NotStuck(p: Plan, s: State)
    requires PlanOk(p) && Inv(p, s) && !Final(p, s)
    ensures exists a :: Enabled(p, s, a)
  {
    hide Jobs, AnnounceInv, ResultInv, Ok, BatchCount, JobFiles, Sum, HandleAll, Owned;
    if s.dispatched < |Jobs(p)| {
      assert Enabled(p, s, Dispatch);
    } else if w :| 0 <= w < |s.procs| && s.procs[w].phase.Busy? {
      assert ProcOk(p, Owned(Jobs(p), s.owner, w), s.procs[w]);
      FreshFile(p, s, w);
      assert Enabled(p, s, HandleNext(w));
    } else if w :| 0 <= w < |s.procs| && s.procs[w].phase.Stopping? {
      assert Enabled(p, s, Report(w));
    } else if w :| 0 <= w < |s.procs| && s.procs[w].phase.Idle? && s.queue != [] {
      assert Enabled(p, s, Take(w));
    } else {
      AllLeft(p, s);
      if s.got < N(p) {
        assert Enabled(p, s, Receive(0));
      } else {
        assert Enabled(p, s, Gather(0));
      }
    }
  }

  /** With nothing left to dispatch, take, handle or report, every worker has reported and every
      file has its progress message. */
  lemma AllLeft(p: Plan, s: State)
    requires PlanOk(p) && QueueInv(p, s) && CountInv(p, s) && s.dispatched == |Jobs(p)|
    requires forall w :: 0 <= w < |s.procs| ==>
      s.procs[w].phase.Gone? || (s.procs[w].phase.Idle? && s.queue == [])
    ensures s.got + |s.progress| == N(p)
    ensures |s.results| + |s.gathered| == p.workers
  {
    hide Jobs, Ok, BatchCount, JobFiles, Sum;
    SumExtremes(s.procs, Reported);
    SumExtremes(s.procs, LeftLoop);
    SumZero(s.procs, Pending);
    JobCount(p);
    assert |s.owner| == |Jobs(p)|;
    JobPrefix(p, |s.owner|);
    assert forall w :: 0 <= w < |s.procs| ==> LeftLoop(s.procs[w]) == 1;
  }

  /** Liveness without fairness: a run is over exactly when it has taken RunLength steps, it
      cannot take more, and until then some process can move.  The count does not depend on the
      interleaving, on the assignment of batches or on the order messages arrive. */
  lemma RunsEnd(p: Plan, run: seq<Action>)
    requires PlanOk(p) && Legal(p, Init(p), run)
    ensures |run| <= RunLength(p)
    ensures Final(p, After(p, Init(p), run)) <==> |run| == RunLength(p)
    ensures |run| < RunLength(p) ==> exists a :: Enabled(p, After(p, Init(p), run), a)
  {
    var s := After(p, Init(p), run);
    InitInv(p);
    RunInv(p, Init(p), run);
    RunCounts(p, Init(p), run);
    StepsBounded(p, s);
    hide Inv, Enabled, Jobs, StepsTaken, After, Legal;
    if Final(p, s) {
      FinalCounts(p, s);
    } else {
      NotStuck(p, s);
    }
  }

  lemma StepsBounded(p: Plan, s: State)
    requires PlanOk(p) && Inv(p, s)
    ensures StepsTaken(Init(p)) == 0
    ensures StepsTaken(s) <= RunLength(p)
    ensures StepsTaken(s) == RunLength(p) ==> Final(p, s)
  {
    hide Jobs, HistoryInv, AnnounceInv, ResultInv, Ok, BatchCount, JobFiles, Sum;
    SumExtremes(s.procs, Reported);
    JobPrefix(p, |s.owner|);
  }
}
