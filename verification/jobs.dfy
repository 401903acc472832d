/** The in-memory job queue: the job store, the FIFO of pending ids, the
    `isProcessing` flag, `queueJob`, `getJobResult`, the `processQueue`
    worker and the hourly sweep. Clock readings are milliseconds passed in as
    `now`; each job's extraction outcome is an input.

    The worker is an `async` function: it runs synchronously until it awaits
    the extraction of a job, and resumes when that extraction settles. The
    store records the job being awaited in `inFlight`; `RunUntilSuspend` is
    the synchronous stretch and `CompleteExtraction` is one resumption. */
module Jobs {
  import opened Wrappers
  import opened Markup
  import opened Components

  type JobId = string

  datatype Status = Queued | Processing | Done | Failed
  {
    predicate Terminal()
    {
      this == Done || this == Failed
    }

    /** Position in the lifecycle `queued -> processing -> done | failed`. */
    function Rank(): nat
    {
      match this
      case Queued => 0
      case Processing => 1
      case Done => 2
      case Failed => 2
    }
  }

  /** One stored job. `secret` is the raw signature header of the request
      that queued it. */
  datatype Job = Job(
    status: Status,
    url: string,
    data: Option<Summary>,
    error: Option<string>,
    createdAt: nat,
    startedAt: Option<nat>,
    finishedAt: Option<nat>,
    secret: Option<string>)

  /** How the extraction of a job's page settled. */
  datatype Outcome = Extracted(raw: seq<Descriptor>) | ExtractionFailed(message: string)

  datatype Store = Store(jobs: map<JobId, Job>, queue: seq<JobId>, processing: bool, inFlight: Option<JobId>)

  /** The state at start-up. */
  const Initial: Store := Store(map[], [], false, None)

  /** Jobs are kept for one hour after creation. */
  const RetentionMs: nat := 60 * 60 * 1000

  // ---------- job records ----------

  /** The record `queueJob` stores. */
  function NewJob(url: string, secret: Option<string>, now: nat): Job
  {
    Job(Queued, url, None, None, now, None, None, secret)
  }

  function Begin(job: Job, now: nat): Job
  {
    job.(status := Processing, startedAt := Some(now))
  }

  function Fail(job: Job, message: string, now: nat): Job
  {
    job.(status := Failed, error := Some(message), finishedAt := Some(now))
  }

  /** The record after its extraction settled. */
  function Settle(job: Job, outcome: Outcome, now: nat): Job
  {
    match outcome
    case Extracted(raw) =>
      job.(status := Done, data := Some(BuildSummary(job.url, raw, now)), finishedAt := Some(now))
    case ExtractionFailed(message) => Fail(job, message, now)
  }

  /** The validation the worker performs before extracting. */
  function Rejection(url: string, allowed: string -> bool): (r: Option<string>)
    ensures r.None? <==> url != "" && allowed(url)
  {
    if url == "" then Some("Missing URL")
    else if !allowed(url) then Some("URL not allowed")
    else None
  }

  /** The record right after the worker took the job up: failed at once when
      validation refuses it, otherwise processing. */
  function Start(job: Job, allowed: string -> bool, now: nat): Job
  {
    match Rejection(job.url, allowed)
    case Some(message) => Fail(Begin(job, now), message, now)
    case None => Begin(job, now)
  }

  /** The record a job ends with once the worker is done with it. */
  function Final(job: Job, outcome: Outcome, allowed: string -> bool, now: nat): Job
  {
    match job.status
    case Queued =>
      if Rejection(job.url, allowed).Some? then Start(job, allowed, now)
      else Settle(Begin(job, now), outcome, now)
    case Processing => Settle(job, outcome, now)
    case _ => job
  }

  /** The optional fields are present exactly in the states that set them. */
  predicate WellFormed(job: Job)
  {
    && (job.data.Some? <==> job.status == Done)
    && (job.error.Some? <==> job.status == Failed)
    && (job.startedAt.Some? <==> job.status != Queued)
    && (job.finishedAt.Some? <==> job.status.Terminal())
  }

  /** A job the worker takes up or awaits ends finished and well formed; a
      success carries the summary of the job's own URL, one component per
      captured element. A job already finished is left as it is. */
  lemma FinalIsTerminal(job: Job, outcome: Outcome, allowed: string -> bool, now: nat)
    requires WellFormed(job)
    ensures var f := Final(job, outcome, allowed, now);
      && f.status.Terminal() && WellFormed(f)
      && (job.status.Terminal() ==> f == job)
      && (!job.status.Terminal() && f.status == Done ==>
            && outcome.Extracted?
            && f.data.value.url == job.url
            && f.data.value.componentCount == |outcome.raw|)
  {
    if job.status == Queued {
      if Rejection(job.url, allowed).None? {
        SettleWellFormed(Begin(job, now), outcome, now);
      }
    } else if job.status == Processing {
      SettleWellFormed(job, outcome, now);
    }
  }

  lemma SettleWellFormed(job: Job, outcome: Outcome, now: nat)
    requires job.status == Processing && job.startedAt.Some? && job.data.None? && job.error.None?
    ensures var f := Settle(job, outcome, now);
      && f.status.Terminal() && WellFormed(f)
      && (f.status == Done <==> outcome.Extracted?)
      && (f.status == Done ==> f.data.value.url == job.url && f.data.value.componentCount == |outcome.raw|)
      && (f.status == Failed ==> f.error == Some(outcome.message))
  {
    match outcome
    case Extracted(raw) =>
      SummaryShape(job.url, raw, now);
    case ExtractionFailed(_) =>
  }

  // ---------- store invariant ----------

  predicate NoDuplicates(q: seq<JobId>)
  {
    forall i, j :: 0 <= i < j < |q| ==> q[i] != q[j]
  }

  /** What holds between any two steps of the worker: ids are queued once, the
      awaited job is not queued, and a stored job is queued exactly when its
      id waits in the queue and processing exactly when it is awaited. Ids of
      swept jobs may linger in the queue. */
  predicate Consistent(s: Store)
  {
    && NoDuplicates(s.queue)
    && (s.inFlight.Some? ==> s.inFlight.value !in s.queue)
    && forall id :: id in s.jobs ==>
         && WellFormed(s.jobs[id])
         && (s.jobs[id].status == Queued <==> id in s.queue)
         && (s.jobs[id].status == Processing <==> s.inFlight == Some(id))
  }

  /** The invariant of every state an event handler can observe: the worker
      runs exactly while it awaits an extraction, and when it is idle the
      queue is empty. */
  predicate Inv(s: Store)
  {
    && Consistent(s)
    && (s.processing <==> s.inFlight.Some?)
    && (!s.processing ==> s.queue == [])
  }

  lemma InitialInv()
    ensures Inv(Initial)
  {
  }

  // ---------- the worker ----------

  /** One turn of the `while` loop up to its `await`: shift the head id; skip
      it when the store no longer has it; otherwise mark it processing and
      either fail it at once or start awaiting its extraction. */
  function Shift(s: Store, allowed: string -> bool, now: nat): Store
    requires s.queue != [] && s.inFlight.None?
  {
    var id := s.queue[0];
    if id !in s.jobs then s.(queue := s.queue[1..])
    else
      var job := Start(s.jobs[id], allowed, now);
      s.(jobs := s.jobs[id := job], queue := s.queue[1..],
         inFlight := if job.status == Processing then Some(id) else None)
  }

  /** The synchronous stretch of `processQueue`: shift ids until one is being
      extracted or the queue is empty, in which case the worker stops. */
  function RunUntilSuspend(s: Store, allowed: string -> bool, now: nat): Store
    requires s.inFlight.None?
    decreases |s.queue|
  {
    if s.queue == [] then s.(processing := false)
    else
      var t := Shift(s, allowed, now);
      if t.inFlight.Some? then t else RunUntilSuspend(t, allowed, now)
  }

  /** The awaited extraction settled: record the result on the job, if the
      store still holds it. */
  function Resume(s: Store, outcome: Outcome, now: nat): Store
    requires s.inFlight.Some?
  {
    var id := s.inFlight.value;
    s.(jobs := if id in s.jobs then s.jobs[id := Settle(s.jobs[id], outcome, now)] else s.jobs,
       inFlight := None)
  }

  /** The worker resumes after an extraction and runs until the next one. */
  function CompleteExtraction(s: Store, outcome: Outcome, allowed: string -> bool, now: nat): Store
    requires s.inFlight.Some?
  {
    RunUntilSuspend(Resume(s, outcome, now), allowed, now)
  }

  /** `processQueue()`: nothing when the worker already runs or nothing is
      queued; otherwise set the flag and run. */
  function ProcessQueue(s: Store, allowed: string -> bool, now: nat): (t: Store)
    requires !s.processing ==> s.inFlight.None?
    ensures s.processing || s.queue == [] ==> t == s
  {
    if s.processing || s.queue == [] then s
    else RunUntilSuspend(s.(processing := true), allowed, now)
  }

  /** An id no part of the store knows. */
  predicate Fresh(s: Store, id: JobId)
  {
    id !in s.jobs && id !in s.queue && s.inFlight != Some(id)
  }

  function Enqueue(s: Store, id: JobId, url: string, secret: Option<string>, now: nat): Store
  {
    s.(jobs := s.jobs[id := NewJob(url, secret, now)], queue := s.queue + [id])
  }

  /** `queueJob(jobId, url, secret)`: store a queued job, append its id, and
      kick the worker. */
  function QueueJob(s: Store, id: JobId, url: string, secret: Option<string>,
                    allowed: string -> bool, now: nat): Store
    requires !s.processing ==> s.inFlight.None?
  {
    ProcessQueue(Enqueue(s, id, url, secret, now), allowed, now)
  }

  /** `getJobResult(jobId)`. */
  function GetJobResult(s: Store, id: JobId): (r: Option<Job>)
    ensures r.Some? <==> id in s.jobs
    ensures r.Some? ==> r.value == s.jobs[id]
  {
    if id in s.jobs then Some(s.jobs[id]) else None
  }

  /** Older than the retention window at time `now`. */
  predicate Expired(job: Job, now: nat)
  {
    job.createdAt < now - RetentionMs
  }

  /** The periodic sweep: delete every job created more than an hour before
      `now`, whatever its status. The queue and the worker are untouched. */
  function Sweep(s: Store, now: nat): (t: Store)
    ensures forall id :: id in t.jobs <==> id in s.jobs && s.jobs[id].createdAt + RetentionMs >= now
    ensures forall id :: id in t.jobs ==> t.jobs[id] == s.jobs[id]
    ensures t.queue == s.queue && t.processing == s.processing && t.inFlight == s.inFlight
  {
    s.(jobs := map id | id in s.jobs && !Expired(s.jobs[id], now) :: s.jobs[id])
  }

  // ---------- the invariant is kept ----------

  lemma ShiftConsistent(s: Store, allowed: string -> bool, now: nat)
    requires Consistent(s) && s.queue != [] && s.inFlight.None?
    ensures Consistent(Shift(s, allowed, now))
    ensures Shift(s, allowed, now).jobs.Keys == s.jobs.Keys
    ensures Shift(s, allowed, now).processing == s.processing
  {
    var id := s.queue[0];
    var t := Shift(s, allowed, now);
    assert t.queue == s.queue[1..];
    assert id !in t.queue;
    forall x | x in t.queue ensures x in s.queue && x != id {
    }
  }

  lemma {:induction false} RunUntilSuspendInv(s: Store, allowed: string -> bool, now: nat)
    requires Consistent(s) && s.inFlight.None? && s.processing
    ensures Inv(RunUntilSuspend(s, allowed, now))
    ensures RunUntilSuspend(s, allowed, now).jobs.Keys == s.jobs.Keys
    decreases |s.queue|
  {
    if s.queue != [] {
      ShiftConsistent(s, allowed, now);
      var t := Shift(s, allowed, now);
      if t.inFlight.None? {
        RunUntilSuspendInv(t, allowed, now);
      }
    }
  }

  // ---------- the order in which the worker takes jobs up ----------

  /** The worker sends `id` to extraction: it is stored and its URL passes
      the worker's validation. */
  predicate Admitted(id: JobId, jobs: map<JobId, Job>, allowed: string -> bool)
  {
    id in jobs && Rejection(jobs[id].url, allowed).None?
  }

  /** The position of the first admitted id of `q`, or `|q|` when none is. */
  function FirstAdmitted(q: seq<JobId>, jobs: map<JobId, Job>, allowed: string -> bool): (k: nat)
    ensures k <= |q|
    ensures forall i :: 0 <= i < k ==> !Admitted(q[i], jobs, allowed)
    ensures k < |q| ==> Admitted(q[k], jobs, allowed)
  {
    if q == [] then 0
    else if Admitted(q[0], jobs, allowed) then 0
    else 1 + FirstAdmitted(q[1..], jobs, allowed)
  }

  /** The ids one synchronous stretch of the loop shifts: everything up to
      and including the first admitted id. */
  function Shifted(q: seq<JobId>, jobs: map<JobId, Job>, allowed: string -> bool): (r: seq<JobId>)
    ensures |r| <= |q| && r == q[..|r|]
  {
    var k := FirstAdmitted(q, jobs, allowed);
    if k < |q| then q[..k + 1] else q
  }

  /** `b` is `a` with the shifted ids `sh` taken up by the worker (failed or
      processing) and every other job as it was. */
  predicate StartedOnly(a: map<JobId, Job>, b: map<JobId, Job>, sh: seq<JobId>, allowed: string -> bool, now: nat)
  {
    && b.Keys == a.Keys
    && forall id :: id in a ==> b[id] == (if id in sh then Start(a[id], allowed, now) else a[id])
  }

  /** Two job maps with the same ids and the same URLs. */
  predicate SameUrls(a: map<JobId, Job>, b: map<JobId, Job>)
  {
    a.Keys == b.Keys && forall id :: id in a ==> a[id].url == b[id].url
  }

  lemma {:induction false} FirstAdmittedSameUrls(q: seq<JobId>, a: map<JobId, Job>, b: map<JobId, Job>,
                                                 allowed: string -> bool)
    requires SameUrls(a, b)
    ensures FirstAdmitted(q, a, allowed) == FirstAdmitted(q, b, allowed)
  {
    if q != [] {
      assert Admitted(q[0], a, allowed) == Admitted(q[0], b, allowed);
      FirstAdmittedSameUrls(q[1..], a, b, allowed);
    }
  }

  /** `processQueue`'s loop takes ids up in FIFO order: up to its first
      `await` it shifts the queue's ids one by one, skips those no longer
      stored, fails those whose URL the validation refuses, and stops at the
      first admitted id, which it leaves processing and awaited with the rest
      of the queue behind it in order. When no id is admitted the queue ends
      empty and the worker stops. Jobs not shifted are untouched. */
  lemma {:induction false} RunUntilSuspendFifo(s: Store, allowed: string -> bool, now: nat)
    requires s.inFlight.None? && NoDuplicates(s.queue)
    ensures var t := RunUntilSuspend(s, allowed, now);
      var q, k := s.queue, FirstAdmitted(s.queue, s.jobs, allowed);
      && (k < |q| ==> t.inFlight == Some(q[k]) && t.queue == q[k + 1..] && t.processing == s.processing)
      && (k == |q| ==> t.inFlight.None? && t.queue == [] && !t.processing)
      && StartedOnly(s.jobs, t.jobs, Shifted(q, s.jobs, allowed), allowed, now)
    decreases |s.queue|
  {
    var q := s.queue;
    if q == [] {
      assert Shifted(q, s.jobs, allowed) == [];
    } else if Admitted(q[0], s.jobs, allowed) {
      ShiftAdmitted(s, allowed, now);
    } else {
      var u := Shift(s, allowed, now);
      ShiftRefused(s, allowed, now);
      FirstAdmittedSameUrls(q[1..], s.jobs, u.jobs, allowed);
      TailNoDuplicates(q);
      RunUntilSuspendFifo(u, allowed, now);
      ShiftedTail(q, s.jobs, u.jobs, allowed);
      var t := RunUntilSuspend(u, allowed, now);
      StartedOnlyCons(q, s.jobs, u.jobs, t.jobs, Shifted(q[1..], u.jobs, allowed), allowed, now);
    }
  }

  /** An admitted head id is the one the stretch stops at. */
  lemma ShiftAdmitted(s: Store, allowed: string -> bool, now: nat)
    requires s.inFlight.None? && s.queue != [] && Admitted(s.queue[0], s.jobs, allowed)
    ensures var t := RunUntilSuspend(s, allowed, now);
      && FirstAdmitted(s.queue, s.jobs, allowed) == 0
      && t.inFlight == Some(s.queue[0]) && t.queue == s.queue[1..] && t.processing == s.processing
      && StartedOnly(s.jobs, t.jobs, Shifted(s.queue, s.jobs, allowed), allowed, now)
  {
    assert Shifted(s.queue, s.jobs, allowed) == [s.queue[0]];
  }

  /** A head id that is not admitted is skipped or failed, and the stretch
      goes on with the rest of the queue. */
  lemma ShiftRefused(s: Store, allowed: string -> bool, now: nat)
    requires s.inFlight.None? && s.queue != [] && !Admitted(s.queue[0], s.jobs, allowed)
    ensures var u := Shift(s, allowed, now);
      && RunUntilSuspend(s, allowed, now) == RunUntilSuspend(u, allowed, now)
      && u.inFlight.None? && u.queue == s.queue[1..] && u.processing == s.processing
      && u.jobs == (if s.queue[0] in s.jobs then s.jobs[s.queue[0] := Start(s.jobs[s.queue[0]], allowed, now)] else s.jobs)
      && SameUrls(s.jobs, u.jobs)
  {
  }

  lemma TailNoDuplicates(q: seq<JobId>)
    requires q != [] && NoDuplicates(q)
    ensures NoDuplicates(q[1..]) && q[0] !in q[1..]
  {
    forall i | 0 <= i < |q[1..]| ensures q[1..][i] != q[0] {
      assert q[1..][i] == q[i + 1];
    }
    forall i, j | 0 <= i < j < |q[1..]| ensures q[1..][i] != q[1..][j] {
      assert q[1..][i] == q[i + 1] && q[1..][j] == q[j + 1];
    }
  }

  /** Shifting a head id that is not admitted, then the rest. */
  lemma StartedOnlyCons(q: seq<JobId>, a: map<JobId, Job>, b: map<JobId, Job>, c: map<JobId, Job>,
                        sh: seq<JobId>, allowed: string -> bool, now: nat)
    requires q != [] && q[0] !in q[1..] && |sh| <= |q| - 1 && sh == q[1..][..|sh|]
    requires b == if q[0] in a then a[q[0] := Start(a[q[0]], allowed, now)] else a
    requires StartedOnly(b, c, sh, allowed, now)
    ensures StartedOnly(a, c, [q[0]] + sh, allowed, now)
  {
    var x := q[0];
    assert x !in sh;
    forall id | id in a
      ensures c[id] == (if id in [x] + sh then Start(a[id], allowed, now) else a[id])
    {
      assert id in [x] + sh <==> id == x || id in sh;
    }
  }

  /** When the head id is not admitted, the shifted ids are the head followed
      by those shifted from the rest. */
  lemma ShiftedTail(q: seq<JobId>, a: map<JobId, Job>, b: map<JobId, Job>, allowed: string -> bool)
    requires q != [] && !Admitted(q[0], a, allowed)
    requires FirstAdmitted(q[1..], a, allowed) == FirstAdmitted(q[1..], b, allowed)
    ensures Shifted(q, a, allowed) == [q[0]] + Shifted(q[1..], b, allowed)
  {
    var k := FirstAdmitted(q[1..], a, allowed);
    if k < |q[1..]| {
      assert q[..k + 2] == [q[0]] + q[1..][..k + 1];
    } else {
      assert q == [q[0]] + q[1..];
    }
  }

  /** After an extraction settles, the awaited job (if still stored) gets
      its settled record and the loop goes on with the queue in FIFO order
      as `RunUntilSuspendFifo` describes. */
  lemma CompleteExtractionFifo(s: Store, outcome: Outcome, allowed: string -> bool, now: nat)
    requires s.inFlight.Some? && s.inFlight.value !in s.queue && NoDuplicates(s.queue)
    ensures var x := s.inFlight.value;
      var t := CompleteExtraction(s, outcome, allowed, now);
      var q, k := s.queue, FirstAdmitted(s.queue, s.jobs, allowed);
      && (k < |q| ==> t.inFlight == Some(q[k]) && t.queue == q[k + 1..] && t.processing == s.processing)
      && (k == |q| ==> t.inFlight.None? && t.queue == [] && !t.processing)
      && t.jobs.Keys == s.jobs.Keys
      && (x in s.jobs ==> t.jobs[x] == Settle(s.jobs[x], outcome, now))
      && StartedOnly(s.jobs - {x}, t.jobs - {x}, Shifted(q, s.jobs, allowed), allowed, now)
  {
    var x := s.inFlight.value;
    var r := Resume(s, outcome, now);
    ResumeKeepsUrls(s, outcome, now);
    ResumeSettlesOnly(s, outcome, now);
    FirstAdmittedSameUrls(s.queue, s.jobs, r.jobs, allowed);
    RunUntilSuspendFifo(r, allowed, now);
    var t := RunUntilSuspend(r, allowed, now);
    var sh := Shifted(s.queue, s.jobs, allowed);
    assert sh == Shifted(s.queue, r.jobs, allowed);
    StartedOnlyMinus(s.jobs, r.jobs, t.jobs, sh, x, allowed, now);
  }

  /** `Resume` clears the awaited id and keeps the queue and every URL. */
  lemma ResumeKeepsUrls(s: Store, outcome: Outcome, now: nat)
    requires s.inFlight.Some?
    ensures var r := Resume(s, outcome, now);
      && r.inFlight.None? && r.queue == s.queue && r.processing == s.processing
      && SameUrls(s.jobs, r.jobs)
  {
  }

  /** `Resume` changes only the awaited job, which it settles. */
  lemma ResumeSettlesOnly(s: Store, outcome: Outcome, now: nat)
    requires s.inFlight.Some?
    ensures var x, r := s.inFlight.value, Resume(s, outcome, now);
      && (x in s.jobs ==> r.jobs[x] == Settle(s.jobs[x], outcome, now))
      && s.jobs - {x} == r.jobs - {x}
  {
    var x := s.inFlight.value;
    if x in s.jobs {
      UpdateMinus(s.jobs, x, Settle(s.jobs[x], outcome, now));
    }
  }

  lemma UpdateMinus(a: map<JobId, Job>, x: JobId, v: Job)
    ensures a[x := v] - {x} == a - {x}
  {
  }

  lemma StartedOnlyMinus(a: map<JobId, Job>, b: map<JobId, Job>, c: map<JobId, Job>, sh: seq<JobId>,
                         x: JobId, allowed: string -> bool, now: nat)
    requires StartedOnly(b, c, sh, allowed, now) && a - {x} == b - {x} && a.Keys == b.Keys && x !in sh
    ensures c.Keys == a.Keys && (x in b ==> c[x] == b[x])
    ensures StartedOnly(a - {x}, c - {x}, sh, allowed, now)
  {
    forall id | id in a - {x}
      ensures (c - {x})[id] == (if id in sh then Start((a - {x})[id], allowed, now) else (a - {x})[id])
    {
      assert (a - {x})[id] == b[id];
    }
  }

  lemma ResumeConsistent(s: Store, outcome: Outcome, now: nat)
    requires Inv(s) && s.inFlight.Some?
    ensures Consistent(Resume(s, outcome, now))
    ensures Resume(s, outcome, now).processing
    ensures Resume(s, outcome, now).jobs.Keys == s.jobs.Keys
  {
  }

  lemma CompleteExtractionInv(s: Store, outcome: Outcome, allowed: string -> bool, now: nat)
    requires Inv(s) && s.inFlight.Some?
    ensures Inv(CompleteExtraction(s, outcome, allowed, now))
    ensures CompleteExtraction(s, outcome, allowed, now).jobs.Keys == s.jobs.Keys
  {
    ResumeConsistent(s, outcome, now);
    RunUntilSuspendInv(Resume(s, outcome, now), allowed, now);
  }

  lemma ProcessQueueInv(s: Store, allowed: string -> bool, now: nat)
    requires Consistent(s) && (s.processing <==> s.inFlight.Some?)
    ensures Inv(ProcessQueue(s, allowed, now))
    ensures ProcessQueue(s, allowed, now).jobs.Keys == s.jobs.Keys
  {
    if !s.processing && s.queue != [] {
      RunUntilSuspendInv(s.(processing := true), allowed, now);
    }
  }

  /** `t` is `s` with one more job, `id`, and every other job untouched. */
  predicate AddsJob(s: Store, t: Store, id: JobId)
  {
    && t.jobs.Keys == s.jobs.Keys + {id}
    && (forall other :: other in s.jobs ==> t.jobs[other] == s.jobs[other])
  }

  /** `queueJob` keeps the invariant, adds exactly the new job, and changes
      no other job. When the worker is busy the new id simply waits at the
      tail of the queue; when it is idle the new job is taken up at once. */
  lemma QueueJobEffect(s: Store, id: JobId, url: string, secret: Option<string>,
                       allowed: string -> bool, now: nat)
    requires Inv(s) && Fresh(s, id)
    ensures var t := QueueJob(s, id, url, secret, allowed, now);
      && Inv(t)
      && AddsJob(s, t, id)
      && (s.processing ==> t == Enqueue(s, id, url, secret, now) && t.queue == s.queue + [id])
      && (!s.processing ==>
            && t.jobs[id] == Start(NewJob(url, secret, now), allowed, now)
            && (t.inFlight == Some(id) <==> Rejection(url, allowed).None?)
            && t.queue == [])
  {
    var e := Enqueue(s, id, url, secret, now);
    EnqueueConsistent(s, id, url, secret, now);
    if s.processing {
      assert QueueJob(s, id, url, secret, allowed, now) == e;
    } else {
      QueueJobWhenIdle(s, id, url, secret, allowed, now);
    }
  }

  lemma EnqueueConsistent(s: Store, id: JobId, url: string, secret: Option<string>, now: nat)
    requires Inv(s) && Fresh(s, id)
    ensures var e := Enqueue(s, id, url, secret, now);
      Consistent(e) && (e.processing <==> e.inFlight.Some?)
  {
    var e := Enqueue(s, id, url, secret, now);
    forall x | x in e.queue ensures x == id || x in s.queue {
      assert e.queue[..|s.queue|] == s.queue;
    }
    assert NoDuplicates(e.queue) by {
      forall i, j | 0 <= i < j < |e.queue| ensures e.queue[i] != e.queue[j] {
        if j == |s.queue| {
          assert e.queue[i] == s.queue[i];
        }
      }
    }
  }

  lemma QueueJobWhenIdle(s: Store, id: JobId, url: string, secret: Option<string>,
                         allowed: string -> bool, now: nat)
    requires Inv(s) && Fresh(s, id) && !s.processing
    requires Consistent(Enqueue(s, id, url, secret, now))
    ensures var t := QueueJob(s, id, url, secret, allowed, now);
      && Inv(t)
      && t.jobs == s.jobs[id := Start(NewJob(url, secret, now), allowed, now)]
      && (t.inFlight == Some(id) <==> Rejection(url, allowed).None?)
      && t.queue == []
  {
    var e := Enqueue(s, id, url, secret, now);
    assert e.queue == [id];
    var p := e.(processing := true);
    RunUntilSuspendInv(p, allowed, now);
    var sh := Shift(p, allowed, now);
    assert sh.queue == [];
    assert sh.jobs == s.jobs[id := Start(NewJob(url, secret, now), allowed, now)];
  }

  /** The sweep keeps the invariant: a deleted queued id is skipped later, a
      deleted in-flight job is not written back. */
  lemma SweepInv(s: Store, now: nat)
    requires Inv(s)
    ensures Inv(Sweep(s, now))
  {
  }

  /** A swept job never comes back: no later step of the worker adds ids to
      the store. */
  lemma SweptStaysGone(s: Store, outcome: Outcome, allowed: string -> bool, now: nat, later: nat, id: JobId)
    requires Inv(s) && id in s.jobs && Expired(s.jobs[id], now)
    ensures id !in Sweep(s, now).jobs
    ensures Sweep(s, now).inFlight.Some? ==>
      id !in CompleteExtraction(Sweep(s, now), outcome, allowed, later).jobs
  {
    var t := Sweep(s, now);
    SweepInv(s, now);
    if t.inFlight.Some? {
      CompleteExtractionInv(t, outcome, allowed, later);
    }
  }

  // ---------- lifecycle ----------

  /** `b` is a later version of job `a`: the status only moves forward, a
      finished job never changes, a job that keeps its status keeps its
      record, and the URL, creation time and secret are fixed. */
  predicate Advances(a: Job, b: Job)
  {
    && a.status.Rank() <= b.status.Rank()
    && (a.status.Terminal() ==> b == a)
    && (a.status == b.status ==> b == a)
    && a.url == b.url && a.createdAt == b.createdAt && a.secret == b.secret
  }

  predicate StoreAdvances(s: Store, t: Store)
  {
    forall id :: id in s.jobs && id in t.jobs ==> Advances(s.jobs[id], t.jobs[id])
  }

  lemma AdvancesTransitive(a: Job, b: Job, c: Job)
    requires Advances(a, b) && Advances(b, c)
    ensures Advances(a, c)
  {
  }

  lemma {:induction false} RunUntilSuspendAdvances(s: Store, allowed: string -> bool, now: nat)
    requires Consistent(s) && s.inFlight.None?
    ensures StoreAdvances(s, RunUntilSuspend(s, allowed, now))
    decreases |s.queue|
  {
    if s.queue != [] {
      var t := Shift(s, allowed, now);
      ShiftConsistent(s, allowed, now);
      assert StoreAdvances(s, t);
      if t.inFlight.None? {
        RunUntilSuspendAdvances(t, allowed, now);
        var u := RunUntilSuspend(t, allowed, now);
        forall id | id in s.jobs && id in u.jobs ensures Advances(s.jobs[id], u.jobs[id]) {
          AdvancesTransitive(s.jobs[id], t.jobs[id], u.jobs[id]);
        }
      }
    }
  }

  /** Every step of the worker, the sweep and `queueJob` move each surviving
      job forward along its lifecycle. */
  lemma LifecycleAdvances(s: Store, id: JobId, url: string, secret: Option<string>,
                          outcome: Outcome, allowed: string -> bool, now: nat)
    requires Inv(s)
    ensures s.inFlight.Some? ==> StoreAdvances(s, CompleteExtraction(s, outcome, allowed, now))
    ensures Fresh(s, id) ==> StoreAdvances(s, QueueJob(s, id, url, secret, allowed, now))
    ensures StoreAdvances(s, Sweep(s, now))
  {
    if s.inFlight.Some? {
      var r := Resume(s, outcome, now);
      ResumeConsistent(s, outcome, now);
      assert StoreAdvances(s, r);
      RunUntilSuspendAdvances(r, allowed, now);
      var u := RunUntilSuspend(r, allowed, now);
      forall x | x in s.jobs && x in u.jobs ensures Advances(s.jobs[x], u.jobs[x]) {
        AdvancesTransitive(s.jobs[x], r.jobs[x], u.jobs[x]);
      }
    }
    if Fresh(s, id) {
      QueueJobEffect(s, id, url, secret, allowed, now);
    }
  }

  // ---------- draining the queue ----------

  /** The ids of `q` that the store holds, in queue order. */
  function Present(q: seq<JobId>, jobs: map<JobId, Job>): seq<JobId>
  {
    if q == [] then []
    else Present(q[..|q| - 1], jobs) + (if q[|q| - 1] in jobs then [q[|q| - 1]] else [])
  }

  lemma PresentStep(q: seq<JobId>, k: nat, jobs: map<JobId, Job>)
    requires k < |q|
    ensures Present(q[..k + 1], jobs) == Present(q[..k], jobs) + (if q[k] in jobs then [q[k]] else [])
  {
    assert q[..k + 1][..k] == q[..k];
  }

  /** What the worker loop keeps while draining from `s`: `t` has shifted
      the first `k` ids of `s`'s queue; jobs still queued are untouched, jobs
      behind the worker hold their final record, and the awaited job becomes
      its final record once its extraction settles. */
  predicate DrainInv(s: Store, t: Store, k: nat, outcome: JobId -> Outcome, allowed: string -> bool, now: nat)
  {
    && Consistent(t) && (!t.processing ==> t.queue == [] && t.inFlight.None?)
    && t.jobs.Keys == s.jobs.Keys
    && k <= |s.queue| && t.queue == s.queue[k..]
    && forall id :: id in t.jobs ==> Tracked(s, t, id, outcome(id), allowed, now)
  }

  predicate Tracked(s: Store, t: Store, id: JobId, o: Outcome, allowed: string -> bool, now: nat)
    requires id in s.jobs && id in t.jobs
  {
    && (id in t.queue ==> t.jobs[id] == s.jobs[id])
    && (id !in t.queue && t.inFlight != Some(id) ==> t.jobs[id] == Final(s.jobs[id], o, allowed, now))
    && (t.inFlight == Some(id) ==> Settle(t.jobs[id], o, now) == Final(s.jobs[id], o, allowed, now))
  }

  lemma DrainStart(s: Store, outcome: JobId -> Outcome, allowed: string -> bool, now: nat)
    requires Inv(s)
    ensures DrainInv(s, s, 0, outcome, allowed, now)
  {
    forall id | id in s.jobs ensures Tracked(s, s, id, outcome(id), allowed, now) {
    }
  }

  lemma DrainResume(s: Store, t: Store, k: nat, outcome: JobId -> Outcome, allowed: string -> bool, now: nat)
    requires DrainInv(s, t, k, outcome, allowed, now) && t.inFlight.Some?
    ensures t.processing
    ensures DrainInv(s, Resume(t, outcome(t.inFlight.value), now), k, outcome, allowed, now)
  {
    var x := t.inFlight.value;
    var u := Resume(t, outcome(x), now);
    if x in t.jobs {
      assert t.jobs[x].status == Processing;
      assert Settle(t.jobs[x], outcome(x), now).status.Terminal();
    }
    forall id | id in u.jobs ensures Tracked(s, u, id, outcome(id), allowed, now) {
      assert Tracked(s, t, id, outcome(id), allowed, now);
    }
  }

  lemma DrainShift(s: Store, t: Store, k: nat, outcome: JobId -> Outcome, allowed: string -> bool, now: nat)
    requires DrainInv(s, t, k, outcome, allowed, now) && t.inFlight.None? && t.queue != []
    ensures k < |s.queue| && s.queue[k] == t.queue[0]
    ensures DrainInv(s, Shift(t, allowed, now), k + 1, outcome, allowed, now)
  {
    var x := t.queue[0];
    var u := Shift(t, allowed, now);
    ShiftConsistent(t, allowed, now);
    assert u.queue == s.queue[k + 1..];
    forall id | id in u.jobs ensures Tracked(s, u, id, outcome(id), allowed, now) {
      assert Tracked(s, t, id, outcome(id), allowed, now);
      if id == x {
        assert id !in u.queue;
        assert t.jobs[x] == s.jobs[x] && s.jobs[x].status == Queued;
      } else {
        assert id in u.queue <==> id in t.queue;
      }
    }
  }

  lemma DrainStop(s: Store, t: Store, k: nat, outcome: JobId -> Outcome, allowed: string -> bool, now: nat)
    requires DrainInv(s, t, k, outcome, allowed, now) && t.inFlight.None? && t.queue == []
    ensures DrainInv(s, t.(processing := false), k, outcome, allowed, now)
  {
    var u := t.(processing := false);
    forall id | id in u.jobs ensures Tracked(s, u, id, outcome(id), allowed, now) {
      assert Tracked(s, t, id, outcome(id), allowed, now);
    }
  }

  lemma DrainEnd(s: Store, t: Store, k: nat, outcome: JobId -> Outcome, allowed: string -> bool, now: nat)
    requires Inv(s) && DrainInv(s, t, k, outcome, allowed, now) && !t.processing
    ensures Inv(t) && k == |s.queue|
    ensures forall id :: id in s.jobs ==> t.jobs[id] == Final(s.jobs[id], outcome(id), allowed, now)
    ensures forall id :: id in t.jobs ==> t.jobs[id].status.Terminal()
  {
    forall id | id in s.jobs
      ensures t.jobs[id] == Final(s.jobs[id], outcome(id), allowed, now)
      ensures t.jobs[id].status.Terminal()
    {
      assert Tracked(s, t, id, outcome(id), allowed, now);
      FinalIsTerminal(s.jobs[id], outcome(id), allowed, now);
    }
  }

  /** One step of the worker: settle the awaited extraction, stop on an
      empty queue, or shift the next id. */
  function DrainStep(t: Store, outcome: JobId -> Outcome, allowed: string -> bool, now: nat): Store
  {
    if t.inFlight.Some? then Resume(t, outcome(t.inFlight.value), now)
    else if t.queue == [] then t.(processing := false)
    else Shift(t, allowed, now)
  }

  /** How many ids of the original queue are shifted after the step. */
  function NextK(t: Store, k: nat): nat
  {
    if t.inFlight.None? && t.queue != [] then k + 1 else k
  }

  /** The id the step takes up, if it shifts one that is stored. */
  function Taken(t: Store, jobs: map<JobId, Job>): seq<JobId>
  {
    if t.inFlight.None? && t.queue != [] && t.queue[0] in jobs then [t.queue[0]] else []
  }

  function Measure(t: Store): nat
  {
    3 * |t.queue| + (if t.inFlight.Some? then 2 else 0) + (if t.processing then 1 else 0)
  }

  lemma DrainStepInv(s: Store, t: Store, k: nat, outcome: JobId -> Outcome, allowed: string -> bool, now: nat)
    requires DrainInv(s, t, k, outcome, allowed, now) && t.processing
    ensures DrainInv(s, DrainStep(t, outcome, allowed, now), NextK(t, k), outcome, allowed, now)
    ensures Present(s.queue[..NextK(t, k)], s.jobs) == Present(s.queue[..k], s.jobs) + Taken(t, s.jobs)
    ensures Measure(DrainStep(t, outcome, allowed, now)) < Measure(t)
  {
    if t.inFlight.Some? {
      DrainResume(s, t, k, outcome, allowed, now);
    } else if t.queue == [] {
      DrainStop(s, t, k, outcome, allowed, now);
    } else {
      DrainShift(s, t, k, outcome, allowed, now);
      PresentStep(s.queue, k, s.jobs);
    }
  }

  /** The worker run to completion with the extractions settling one after
      another (the `while` loop of `processQueue` with its awaits resolved in
      order, all at clock reading `now`). Jobs are taken up in FIFO order,
      ids no longer stored are skipped, a failure does not stop the jobs
      behind it, and the worker stops with the flag cleared. */
  method Drain(s: Store, outcome: JobId -> Outcome, allowed: string -> bool, now: nat)
    returns (t: Store, started: seq<JobId>)
    requires Inv(s)
    ensures Inv(t) && !t.processing && t.queue == [] && t.inFlight.None?
    ensures t.jobs.Keys == s.jobs.Keys
    ensures started == Present(s.queue, s.jobs)
    ensures forall id :: id in s.jobs ==> t.jobs[id] == Final(s.jobs[id], outcome(id), allowed, now)
    ensures forall id :: id in t.jobs ==> t.jobs[id].status.Terminal()
  {
    t := s;
    started := [];
    ghost var k: nat := 0;
    DrainStart(s, outcome, allowed, now);
    while t.processing
      invariant DrainInv(s, t, k, outcome, allowed, now)
      invariant started == Present(s.queue[..k], s.jobs)
      decreases Measure(t)
    {
      DrainStepInv(s, t, k, outcome, allowed, now);
      started := started + Taken(t, s.jobs);
      k := NextK(t, k);
      t := DrainStep(t, outcome, allowed, now);
    }
    DrainEnd(s, t, k, outcome, allowed, now);
    assert s.queue[..k] == s.queue;
  }
}
