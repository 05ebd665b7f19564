/** afl-cmin.py, the processes: a dispatcher, any number of workers and main, talking over three
    queues, as a state machine over every interleaving.  The progress and result queues have many
    producers, so main may receive their messages in any order. */
module CminProtocol {
  import opened LittleEndian
  import opened CminWorker

  datatype Job = Batch(files: seq<nat>) | Stop

  /** main's job list: consecutive batches of all files, then one Stop (None) per worker. */
  function Range(lo: nat, hi: nat): (r: seq<nat>)
    ensures |r| == if lo < hi then hi - lo else 0
    ensures forall i :: 0 <= i < |r| ==> r[i] == lo + i
  {
    if lo < hi then seq(hi - lo, i requires 0 <= i => lo + i) else []
  }

  function Batches(lo: nat, n: nat, chunk: nat): seq<Job>
    requires chunk >= 1
    decreases n - lo
  {
    if lo >= n then []
    else [Batch(Range(lo, if lo + chunk < n then lo + chunk else n))] + Batches(lo + chunk, n, chunk)
  }

  function JobList(n: nat, chunk: nat, workers: nat): seq<Job>
    requires chunk >= 1
  {
    Batches(0, n, chunk) + seq(workers, _ => Stop)
  }

  lemma BatchesStep(lo: nat, n: nat, chunk: nat)
    requires chunk >= 1
    ensures Batches(lo, n, chunk) == if lo >= n then []
      else [Batch(Range(lo, if lo + chunk < n then lo + chunk else n))] + Batches(lo + chunk, n, chunk)
  {
    hide Range;
  }

  /** An even share of the files for each worker, rounded down. */
  lemma ShareIs(n: nat, workers: nat)
    requires workers >= 1
    ensures (n / workers) * workers <= n < (n / workers + 1) * workers
    ensures n / workers < 1 <==> n < workers
    ensures n / workers >= 128 <==> n >= 128 * workers
  {
    var q := n / workers;
    assert n == workers * q + n % workers;
    if q >= 1 { MulMonotone(workers, 1, q); }
    if q >= 128 { MulMonotone(workers, 128, q); } else { MulMonotone(workers, q + 1, 128); }
  }

  /** _batched(enumerate(files), chunk) followed by the sentinels, as main builds it; a batch is an even
      share of the files, but at least 1 and at most 128. */
  method MakeJobs(n: nat, workers: nat) returns (jobs: seq<Job>, chunk: nat)
    requires workers >= 1
    ensures 1 <= chunk && jobs == JobList(n, chunk, workers)
    ensures n < workers ==> chunk == 1
    ensures n >= 128 * workers ==> chunk == 128
    ensures workers <= n < 128 * workers ==> chunk * workers <= n < (chunk + 1) * workers
  {
    ShareIs(n, workers);
    var share := n / workers;
    chunk := if share > 128 then 128 else share;
    chunk := if chunk < 1 then 1 else chunk;
    jobs := MakeBatches(n, chunk);
    jobs := jobs + seq(workers, _ => Stop);
  }

  method MakeBatches(n: nat, chunk: nat) returns (jobs: seq<Job>)
    requires chunk >= 1
    ensures jobs == Batches(0, n, chunk)
  {
    hide Range, Batches;
    jobs := [];
    var lo := 0;
    while lo < n
      invariant jobs + Batches(lo, n, chunk) == Batches(0, n, chunk)
      decreases n - lo
    {
      BatchesStep(lo, n, chunk);
      var hi := if lo + chunk < n then lo + chunk else n;
      jobs := jobs + [Batch(Range(lo, hi))];
      lo := lo + chunk;
    }
    BatchesStep(lo, n, chunk);
  }

  /** All batches hold chunk files, but for the last one, which holds the rest. */
  lemma {:induction false} BatchSizes(lo: nat, n: nat, chunk: nat, i: nat)
    requires chunk >= 1 && i < |Batches(lo, n, chunk)|
    ensures var b := Batches(lo, n, chunk);
      b[i].Batch? && if i < |b| - 1 then |b[i].files| == chunk else 1 <= |b[i].files| <= chunk
    decreases n - lo
  {
    if i > 0 {
      BatchSizes(lo + chunk, n, chunk, i - 1);
    } else if lo + chunk < n {
      assert Batches(lo + chunk, n, chunk) != [];
    }
  }

  function FilesOf(j: Job): seq<nat> { if j.Batch? then j.files else [] }

  /** The files of a job list, in order. */
  function JobFiles(jobs: seq<Job>): seq<nat> {
    if jobs == [] then [] else JobFiles(jobs[..|jobs| - 1]) + FilesOf(jobs[|jobs| - 1])
  }

  lemma JobFilesLast(jobs: seq<Job>, last: Job)
    ensures JobFiles(jobs + [last]) == JobFiles(jobs) + FilesOf(last)
  {
    assert (jobs + [last])[..|jobs|] == jobs;
  }

  lemma Regroup<T>(a: seq<T>, b: seq<T>, c: seq<T>)
    ensures a + (b + c) == (a + b) + c
  {
  }

  lemma {:induction false} JobFilesAppend(a: seq<Job>, b: seq<Job>)
    ensures JobFiles(a + b) == JobFiles(a) + JobFiles(b)
  {
    if b == [] {
      assert a + b == a;
    } else {
      hide JobFiles;
      var init, last := b[..|b| - 1], b[|b| - 1];
      JobFilesAppend(a, init);
      assert b == init + [last];
      Regroup(a, init, [last]);
      JobFilesLast(init, last);
      JobFilesLast(a + init, last);
      Regroup(JobFiles(a), JobFiles(init), FilesOf(last));
    }
  }

  lemma RangesJoin(lo: nat, chunk: nat, n: nat)
    requires lo < n && chunk >= 1
    ensures Range(lo, if lo + chunk < n then lo + chunk else n) + Range(lo + chunk, n) == Range(lo, n)
  {
  }

  lemma NoFiles(lo: nat, n: nat)
    requires lo >= n
    ensures JobFiles([]) == [] && Range(lo, n) == []
  {
  }

  lemma OneJob(j: Job)
    ensures JobFiles([j]) == FilesOf(j)
  {
    assert [j][..0] == [];
  }

  lemma {:induction false} BatchesCover(lo: nat, n: nat, chunk: nat)
    requires chunk >= 1
    ensures JobFiles(Batches(lo, n, chunk)) == Range(lo, n)
    decreases n - lo
  {
    hide Range, Batches, JobFiles;
    BatchesStep(lo, n, chunk);
    if lo >= n {
      NoFiles(lo, n);
    } else {
      var hi := if lo + chunk < n then lo + chunk else n;
      BatchesCover(lo + chunk, n, chunk);
      JobFilesAppend([Batch(Range(lo, hi))], Batches(lo + chunk, n, chunk));
      OneJob(Batch(Range(lo, hi)));
      RangesJoin(lo, chunk, n);
    }
  }

  lemma {:induction false} StopsHoldNothing(k: nat)
    ensures JobFiles(seq(k, _ => Stop)) == []
  {
    if k > 0 {
      StopsHoldNothing(k - 1);
      assert seq(k, _ => Stop)[..k - 1] == seq(k - 1, _ => Stop);
    }
  }

  /** Every file is in exactly one job. */
  lemma JobsCoverOnce(n: nat, chunk: nat, workers: nat)
    requires chunk >= 1
    ensures JobFiles(JobList(n, chunk, workers)) == Range(0, n)
  {
    BatchesCover(0, n, chunk);
    StopsHoldNothing(workers);
    JobFilesAppend(Batches(0, n, chunk), seq(workers, _ => Stop));
  }

  // ---- the state machine ------------------------------------------------------------

  datatype Plan = Plan(c: Corpus, chunk: nat, workers: nat)

  ghost predicate PlanOk(p: Plan) {
    Ok(p.c) && p.chunk >= 1 && p.workers >= 1
  }

  function N(p: Plan): nat { |p.c.traces| }

  function Jobs(p: Plan): seq<Job>
    requires p.chunk >= 1
  {
    JobList(N(p), p.chunk, p.workers)
  }

  function BatchCount(p: Plan): nat
    requires p.chunk >= 1
  {
    |Batches(0, N(p), p.chunk)|
  }

  datatype Phase = Idle | Busy(rest: seq<nat>) | Stopping | Gone

  /** handled is a history variable: the files handled so far, in order. */
  datatype Proc = Proc(phase: Phase, local: Local, handled: seq<nat>)

  datatype Message = Unused | Used(idx: nat, worker: nat, pos: nat, count: nat)
  datatype Info = Info(worker: nat, pos: nat, count: nat)
  datatype Result = Result(worker: nat, local: Local)

  /** owner is a history variable: which worker took each job. */
  datatype State = State(
    dispatched: nat,
    queue: seq<Job>,
    procs: seq<Proc>,
    progress: seq<Message>,
    results: seq<Result>,
    got: nat,
    traceInfo: map<nat, Info>,
    gathered: seq<Result>,
    owner: seq<nat>)

  function Init(p: Plan): State {
    State(0, [], seq(p.workers, _ => Proc(Idle, Fresh(p.c), [])), [], [], 0, map[], [], [])
  }

  datatype Action =
    | Dispatch          // JobDispatcher puts the next job
    | Take(w: nat)      // a worker gets a job; Stop ends its loop
    | HandleNext(w: nat)  // a worker handles a file of its batch and reports progress
    | Report(w: nat)    // a worker that left its loop puts its result
    | Receive(k: nat)   // main gets a progress message
    | Gather(k: nat)    // main, after the last progress message, gets a result

  function Rest(ph: Phase): seq<nat> { if ph.Busy? then ph.rest else [] }

  function WithFiles(rest: seq<nat>): Phase { if rest == [] then Idle else Busy(rest) }

  predicate Enabled(p: Plan, s: State, a: Action)
    requires p.chunk >= 1
  {
    match a
    case Dispatch => s.dispatched < |Jobs(p)|
    case Take(w) => w < |s.procs| && s.procs[w].phase.Idle? && s.queue != []
    case HandleNext(w) =>
      w < |s.procs| && s.procs[w].phase.Busy? && s.procs[w].phase.rest != [] && s.procs[w].phase.rest[0] < N(p)
    case Report(w) => w < |s.procs| && s.procs[w].phase.Stopping?
    case Receive(k) => s.got < N(p) && k < |s.progress|
    case Gather(k) => s.got == N(p) && |s.gathered| < p.workers && k < |s.results|
  }

  function Without<T>(q: seq<T>, k: nat): seq<T>
    requires k < |q|
  {
    q[..k] + q[k + 1..]
  }

  /** What the worker puts on the progress queue when it handles idx. */
  function MessageFor(c: Corpus, before: Local, idx: nat, w: nat): Message
    requires idx < |c.traces|
  {
    if Uses(c, before, idx) then Used(idx, w, |before.pack|, |c.traces[idx]|) else Unused
  }

  function Record(info: map<nat, Info>, msg: Message): map<nat, Info> {
    if msg.Used? then info[msg.idx := Info(msg.worker, msg.pos, msg.count)] else info
  }

  function Next(p: Plan, s: State, a: Action): State
    requires p.chunk >= 1 && Enabled(p, s, a)
  {
    match a
    case Dispatch => s.(dispatched := s.dispatched + 1, queue := s.queue + [Jobs(p)[s.dispatched]])
    case Take(w) =>
      var phase := if s.queue[0].Stop? then Stopping else WithFiles(s.queue[0].files);
      s.(queue := s.queue[1..], owner := s.owner + [w], procs := s.procs[w := s.procs[w].(phase := phase)])
    case HandleNext(w) =>
      var q := s.procs[w];
      var idx := q.phase.rest[0];
      var local := Handle(p.c, q.local, idx);
      s.(procs := s.procs[w := Proc(WithFiles(q.phase.rest[1..]), local, q.handled + [idx])],
         progress := s.progress + [MessageFor(p.c, q.local, idx, w)])
    case Report(w) =>
      s.(procs := s.procs[w := s.procs[w].(phase := Gone)], results := s.results + [Result(w, s.procs[w].local)])
    case Receive(k) =>
      s.(progress := Without(s.progress, k), got := s.got + 1, traceInfo := Record(s.traceInfo, s.progress[k]))
    case Gather(k) =>
      s.(results := Without(s.results, k), gathered := s.gathered + [s.results[k]])
  }

  /** main has all results: dispatching and collection are over. */
  predicate Final(p: Plan, s: State) {
    |s.gathered| == p.workers
  }

  predicate Legal(p: Plan, s: State, run: seq<Action>)
    requires p.chunk >= 1
    decreases |run|
  {
    run == [] || (Enabled(p, s, run[0]) && Legal(p, Next(p, s, run[0]), run[1..]))
  }

  function After(p: Plan, s: State, run: seq<Action>): State
    requires p.chunk >= 1 && Legal(p, s, run)
    decreases |run|
  {
    if run == [] then s else After(p, Next(p, s, run[0]), run[1..])
  }
}
