/** The two JSON endpoints over the job store: `POST /analyze` (the
    `handleAnalyze` checks, in order, then `queueJob`) and
    `GET /result/:jobId` (the per-job signature bypass, then the status to
    response mapping). */
module Api {
  import opened Wrappers
  import opened Text
  import opened Security
  import opened Components
  import opened Jobs

  /** The server's settings and the operations it delegates: the HMAC and
      the host name `new URL(u).hostname` (`None` when `u` does not parse). */
  datatype Env = Env(cfg: Config, hmac: Hmac, hostOf: string -> Option<string>)

  /** The URL check both `handleAnalyze` and the worker apply: `isAllowedUrl`
      with its suffix rule as written. */
  function Allowed(env: Env): string -> bool
  {
    u => IsAllowedUrlAsWritten(env.hostOf(u), env.cfg)
  }

  /** `url.startsWith("http") ? url : "https://" + url`. */
  function NormalizeUrl(url: string): (r: string)
    ensures StartsWith(r, "http")
    ensures StartsWith(url, "http") ==> r == url
    ensures !StartsWith(url, "http") ==> r == "https://" + url
  {
    if StartsWith(url, "http") then url
    else
      ConcatEnds("https://", url, []);
      assert "https://" + url + [] == "https://" + url;
      assert ("https://" + url)[..4] == "http";
      "https://" + url
  }

  /** Normalizing twice changes nothing more. */
  lemma NormalizeIdempotent(url: string)
    ensures NormalizeUrl(NormalizeUrl(url)) == NormalizeUrl(url)
  {
  }

  /** A bare host name gets the `https://` scheme. */
  lemma NormalizeBareHost()
    ensures NormalizeUrl("example.com") == "https://example.com"
  {
    var u := "example.com";
    assert u[..4][0] == 'e' && "http"[0] == 'h';
    assert !StartsWith(u, "http");
  }

  // ---------- POST /analyze ----------

  datatype AnalyzeResponse =
    | Unauthorized
    | MissingUrl
    | Forbidden
    | Accepted(jobId: JobId, pollUrl: string)
  {
    function Code(): nat
    {
      match this
      case Unauthorized => 401
      case MissingUrl => 400
      case Forbidden => 403
      case Accepted(_, _) => 200
    }

    function ErrorText(): string
    {
      match this
      case Unauthorized => "Invalid x-cliq-signature."
      case MissingUrl => "Missing URL."
      case Forbidden => "URL not allowed."
      case Accepted(_, _) => ""
    }
  }

  /** `handleAnalyze`: the signature, then the `url` field (trimmed, empty
      when absent), then the allowlist on the normalized URL; only when all
      pass is a job queued, under the fresh id `id`, with the raw signature
      header as its secret. */
  function HandleAnalyze(s: Store, req: Request, urlField: Option<string>, env: Env, id: JobId, now: nat)
    : (AnalyzeResponse, Store)
    requires !s.processing ==> s.inFlight.None?
  {
    if !ValidateSecret(req, env.cfg, env.hmac) then (Unauthorized, s)
    else
      var url := Trim(urlField.GetOr(""));
      if url == "" then (MissingUrl, s)
      else
        var finalUrl := NormalizeUrl(url);
        if !IsAllowedUrlAsWritten(env.hostOf(finalUrl), env.cfg) then (Forbidden, s)
        else (Accepted(id, "/result/" + id), QueueJob(s, id, finalUrl, req.signature, Allowed(env), now))
  }

  /** The checks run in order and each refusal leaves the store as it was:
      401 exactly when the signature fails; 400 exactly when it passes and the
      trimmed URL is empty; 403 exactly when both pass and the normalized URL
      is not allowed; otherwise exactly one job is added and nothing else in
      the store changes. */
  lemma AnalyzeDecisions(s: Store, req: Request, urlField: Option<string>, env: Env, id: JobId, now: nat)
    requires Inv(s) && Fresh(s, id)
    ensures var r := HandleAnalyze(s, req, urlField, env, id, now);
      var resp, t := r.0, r.1;
      var url := Trim(urlField.GetOr(""));
      && (resp == Unauthorized <==> !ValidateSecret(req, env.cfg, env.hmac))
      && (resp == MissingUrl <==> ValidateSecret(req, env.cfg, env.hmac) && url == "")
      && (resp == Forbidden <==>
            ValidateSecret(req, env.cfg, env.hmac) && url != ""
            && !IsAllowedUrlAsWritten(env.hostOf(NormalizeUrl(url)), env.cfg))
      && (!resp.Accepted? ==> t == s)
      && (resp.Accepted? ==>
            && resp == Accepted(id, "/result/" + id)
            && Inv(t)
            && AddsJob(s, t, id))
  {
    AnalyzeOutcome(s, req, urlField, env, id, now);
  }

  /** `handleAnalyze` branch by branch. */
  lemma AnalyzeOutcome(s: Store, req: Request, urlField: Option<string>, env: Env, id: JobId, now: nat)
    requires Inv(s) && Fresh(s, id)
    ensures var r := HandleAnalyze(s, req, urlField, env, id, now);
      var url := Trim(urlField.GetOr(""));
      if !ValidateSecret(req, env.cfg, env.hmac) then r == (Unauthorized, s)
      else if url == "" then r == (MissingUrl, s)
      else if !IsAllowedUrlAsWritten(env.hostOf(NormalizeUrl(url)), env.cfg) then r == (Forbidden, s)
      else r.0 == Accepted(id, "/result/" + id) && Inv(r.1) && AddsJob(s, r.1, id)
  {
    var url := Trim(urlField.GetOr(""));
    if ValidateSecret(req, env.cfg, env.hmac) && url != "" {
      var finalUrl := NormalizeUrl(url);
      if IsAllowedUrlAsWritten(env.hostOf(finalUrl), env.cfg) {
        QueueJobAdds(s, id, finalUrl, req.signature, Allowed(env), now);
      }
    }
  }

  /** The part of `QueueJobEffect` the endpoint needs. */
  lemma QueueJobAdds(s: Store, id: JobId, url: string, secret: Option<string>,
                     allowed: string -> bool, now: nat)
    requires Inv(s) && Fresh(s, id)
    ensures var t := QueueJob(s, id, url, secret, allowed, now); Inv(t) && AddsJob(s, t, id)
  {
    QueueJobEffect(s, id, url, secret, allowed, now);
  }

  /** An accepted job records the normalized URL, the request's signature
      header and the time; it is queued or already processing, and never
      refused by the worker's own validation, which repeats the checks
      `handleAnalyze` already passed. */
  lemma AcceptedJob(s: Store, req: Request, urlField: Option<string>, env: Env, id: JobId, now: nat)
    requires Inv(s) && Fresh(s, id)
    requires HandleAnalyze(s, req, urlField, env, id, now).0.Accepted?
    ensures var t := HandleAnalyze(s, req, urlField, env, id, now).1;
      var job := t.jobs[id];
      && job.url == NormalizeUrl(Trim(urlField.GetOr("")))
      && job.secret == req.signature
      && job.createdAt == now
      && (job.status == Queued || job.status == Processing)
      && (job.status == Queued <==> s.processing)
      && Rejection(job.url, Allowed(env)).None?
  {
    var url := NormalizeUrl(Trim(urlField.GetOr("")));
    QueueJobEffect(s, id, url, req.signature, Allowed(env), now);
    assert Rejection(url, Allowed(env)).None?;
  }

  /** The endpoint inherits the suffix rule: with `example.com` listed, a
      request for `evilexample.com` is queued rather than refused. */
  lemma AnalyzeAdmitsLookalike(id: JobId, now: nat)
    ensures var env := Env(Config("", false, true, ["example.com"]), (k, d) => "", u => Some("evilexample.com"));
      var req := Request(None, None, NoBody);
      HandleAnalyze(Initial, req, Some("evilexample.com"), env, id, now).0.Accepted?
  {
    var env := Env(Config("", false, true, ["example.com"]), (k, d) => "", u => Some("evilexample.com"));
    var req := Request(None, None, NoBody);
    assert SignatureOf(req) == [];
    var url := Trim("evilexample.com");
    TrimVisibleEnds("evilexample.com");
    var h := "evilexample.com";
    assert EndsWith(h, "example.com") by {
      assert h[|h| - |"example.com"|..] == "example.com";
    }
    assert url == h && url != [];
    var cfg := env.cfg;
    assert EndsWith(h, cfg.allowedDomains[0]);
    assert IsAllowedUrlAsWritten(Some(h), cfg);
    assert env.hostOf(NormalizeUrl(url)) == Some(h);
  }

  // ---------- GET /result/:jobId ----------

  datatype PollResponse =
    | PollUnauthorized
    | NotFound
    | Pending(jobId: JobId, status: Status, queuePosition: nat)
    | JobFailed(jobId: JobId, error: Option<string>)
    | JobDone(jobId: JobId, summary: Option<Summary>)
  {
    function Code(): nat
    {
      match this
      case PollUnauthorized => 401
      case NotFound => 404
      case Pending(_, _, _) => 200
      case JobFailed(_, _) => 400
      case JobDone(_, _) => 200
    }
  }

  /** `jobQueue.indexOf(jobId)`: the first position of `id`, or -1. */
  function IndexOf(q: seq<JobId>, id: JobId): (i: int)
    ensures -1 <= i < |q|
    ensures i == -1 <==> id !in q
    ensures i >= 0 ==> q[i] == id && id !in q[..i]
  {
    if q == [] then -1
    else if q[0] == id then 0
    else
      var j := IndexOf(q[1..], id);
      if j == -1 then -1
      else
        assert q[..j + 1] == [q[0]] + q[1..][..j];
        j + 1
  }

  /** Polling with the signature that queued the job skips the signature
      check: the trimmed header must be non-empty and equal the stored, non-
      empty, raw header. */
  predicate Bypass(s: Store, id: JobId, req: Request)
  {
    var signature := SignatureOf(req);
    && signature != []
    && id in s.jobs
    && s.jobs[id].secret.Some? && s.jobs[id].secret.value != []
    && signature == s.jobs[id].secret.value
  }

  /** The `/result/:jobId` handler. */
  function PollResult(s: Store, id: JobId, req: Request, env: Env): PollResponse
  {
    if !Bypass(s, id, req) && !ValidateSecret(req, env.cfg, env.hmac) then PollUnauthorized
    else
      match GetJobResult(s, id)
      case None => NotFound
      case Some(job) =>
        if job.status == Processing || job.status == Queued then
          Pending(id, job.status, (IndexOf(s.queue, id) + 1) as nat)
        else if job.status == Failed then JobFailed(id, job.error)
        else JobDone(id, job.data)
  }

  /** A request that fails the signature check is only served when it carries
      exactly the signature stored with that job. */
  lemma BypassNeedsStoredSecret(s: Store, id: JobId, req: Request, env: Env)
    requires PollResult(s, id, req, env) != PollUnauthorized
    requires !ValidateSecret(req, env.cfg, env.hmac)
    ensures id in s.jobs && SignatureOf(req) != [] && s.jobs[id].secret == Some(SignatureOf(req))
  {
  }

  /** Whoever queued a job with a signature header that neither starts nor
      ends with whitespace can poll it with that header while it is stored,
      whatever body the polling request carries. */
  lemma QueuerCanPoll(s: Store, id: JobId, req: Request, env: Env)
    requires id in s.jobs && s.jobs[id].secret == req.signature
    requires req.signature.Some? && req.signature.value != []
    requires !IsSpace(req.signature.value[0]) && !IsSpace(req.signature.value[|req.signature.value| - 1])
    ensures PollResult(s, id, req, env) != PollUnauthorized
    ensures PollResult(s, id, req, env) != NotFound
  {
    TrimVisibleEnds(req.signature.value);
    assert SignatureOf(req) == req.signature.value;
  }

  /** The position reported for a pending job: 0 for the job being extracted
      (already shifted out of the queue), and the one-based place in the
      queue for a queued job. */
  lemma QueuePosition(s: Store, id: JobId, req: Request, env: Env)
    requires Inv(s) && id in s.jobs
    requires PollResult(s, id, req, env).Pending?
    ensures var r := PollResult(s, id, req, env);
      && (r.status == Processing ==> r.queuePosition == 0)
      && (r.status == Queued ==>
            && 1 <= r.queuePosition <= |s.queue|
            && s.queue[r.queuePosition - 1] == id
            && id !in s.queue[..r.queuePosition - 1])
  {
  }

  /** Status to response: a failed job answers 400 with its error, a finished
      job 200 with its summary, a waiting job 200 with its status. */
  lemma StatusMapping(s: Store, id: JobId, req: Request, env: Env)
    requires id in s.jobs
    requires Bypass(s, id, req) || ValidateSecret(req, env.cfg, env.hmac)
    ensures var r := PollResult(s, id, req, env);
      var job := s.jobs[id];
      && (job.status == Failed <==> r == JobFailed(id, job.error))
      && (job.status == Done <==> r == JobDone(id, job.data))
      && (!job.status.Terminal() <==> r.Pending? && r.status == job.status)
      && (r.Code() == 400 <==> job.status == Failed)
  {
  }

  /** Once the sweep deleted a job, polling it answers 404 to any request
      that passes the signature check, and 401 to any other: the bypass needs
      the stored job. */
  lemma SweptJobNotFound(s: Store, id: JobId, req: Request, env: Env, now: nat)
    requires id in s.jobs && Expired(s.jobs[id], now)
    ensures ValidateSecret(req, env.cfg, env.hmac) ==> PollResult(Sweep(s, now), id, req, env) == NotFound
    ensures !ValidateSecret(req, env.cfg, env.hmac) ==> PollResult(Sweep(s, now), id, req, env) == PollUnauthorized
  {
    assert id !in Sweep(s, now).jobs;
  }
}
