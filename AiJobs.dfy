/** The worker's job queue (`claim_job`, `process_job`, `enqueue_batch_jobs`
    and the polling loop of `main`). The `ai_jobs` and `works` tables are the
    fields of a `Store`; the worker's loop is a `Worker` holding the batch
    counter. The clock, the language model and the store's own error text
    are inputs. */
module AiJobs {
  import opened Text
  import opened UrlPolicy
  import opened PdfFetch
  import opened LlmResponse

  datatype Status = Pending | Processing | Completed | Failed

  /** A row of `ai_jobs`. */
  datatype Job = Job(
    id: nat,
    workId: string,
    sourceUrl: Option<string>,
    priority: int,
    status: Status,
    createdAt: int,
    startedAt: Option<int>,
    completedAt: Option<int>,
    error: Option<string>)

  /** The columns of a `works` row the worker reads and writes. */
  datatype Work = Work(
    id: string,
    abstractText: Option<string>,
    openAccessUrl: Option<string>,
    summary: Option<string>,
    aiTags: Option<seq<string>>,
    summaryGenerated: Option<bool>)

  /** What the chat call yields: the reply's content, or the text of the
      error it raised (connection, HTTP status, missing field). */
  datatype LlmCall = Content(text: string) | CallError(message: string)

  const NoTextMessage: string := "No text available for summarization"
  const MaxErrorChars: nat := 500
  const BackfillBatch: nat := 10
  const BackfillEvery: nat := 4

  predicate IsOpen(j: Job) {
    j.status == Pending || j.status == Processing
  }

  // ---------------------------------------------------------------------
  // Claiming
  // ---------------------------------------------------------------------

  /** `a` is taken before `b`: higher priority first, then the older one. */
  predicate TakenBefore(a: Job, b: Job) {
    a.priority > b.priority || (a.priority == b.priority && a.createdAt < b.createdAt)
  }

  /** The row the select of `claim_job` returns: a pending job that no other
      pending job is taken before; none when nothing is pending. */
  function NextPending(jobs: seq<Job>): (r: Option<nat>)
    ensures r.Some? ==> r.value < |jobs| && jobs[r.value].status == Pending
    ensures r.Some? ==> forall k :: 0 <= k < |jobs| && jobs[k].status == Pending ==> !TakenBefore(jobs[k], jobs[r.value])
    ensures r.None? <==> forall k :: 0 <= k < |jobs| ==> jobs[k].status != Pending
  {
    if jobs == [] then None
    else
      var n := |jobs| - 1;
      var r := NextPending(jobs[..n]);
      assert forall k :: 0 <= k < n ==> jobs[..n][k] == jobs[k];
      if jobs[n].status == Pending && (r.None? || TakenBefore(jobs[n], jobs[r.value])) then Some(n) else r
  }

  function Started(j: Job, id: nat, now: int): Job {
    if j.id == id && j.status == Pending then j.(status := Processing, startedAt := Some(now)) else j
  }

  /** The conditional update of `claim_job`: the row with this id moves to
      processing only if it is still pending; the flag says whether a row
      changed. */
  function StartIfPending(jobs: seq<Job>, id: nat, now: int): (r: (seq<Job>, bool))
    ensures |r.0| == |jobs|
    ensures r.1 <==> exists k :: 0 <= k < |jobs| && jobs[k].id == id && jobs[k].status == Pending
    ensures forall k :: 0 <= k < |jobs| ==> r.0[k].id == jobs[k].id && r.0[k].workId == jobs[k].workId
    ensures forall k :: 0 <= k < |jobs| && jobs[k].id == id ==> r.0[k].status != Pending
    ensures forall k :: 0 <= k < |jobs| && jobs[k].id == id && jobs[k].status == Pending ==>
              r.0[k].status == Processing && r.0[k].startedAt == Some(now)
    ensures forall k :: 0 <= k < |jobs| && (jobs[k].id != id || jobs[k].status != Pending) ==> r.0[k] == jobs[k]
  {
    (seq(|jobs|, k requires 0 <= k < |jobs| => Started(jobs[k], id, now)),
     exists k :: 0 <= k < |jobs| && jobs[k].id == id && jobs[k].status == Pending)
  }

  /** Two workers that selected the same pending job both send the
      conditional update: the first changes the row, the second changes
      nothing and so gets no job. */
  lemma OneOfTwoClaimantsWins(jobs: seq<Job>, nowA: int, nowB: int)
    requires NextPending(jobs).Some?
    ensures var id := jobs[NextPending(jobs).value].id;
            var first := StartIfPending(jobs, id, nowA);
            first.1 && !StartIfPending(first.0, id, nowB).1
  {
    var k := NextPending(jobs).value;
    var id := jobs[k].id;
    assert jobs[k].id == id && jobs[k].status == Pending;
  }

  /** Claiming never changes which work a job is for, and the open jobs stay
      open. */
  lemma StartKeepsOpenJobs(jobs: seq<Job>, id: nat, now: int, k: nat)
    requires k < |jobs| && IsOpen(jobs[k])
    ensures IsOpen(StartIfPending(jobs, id, now).0[k])
    ensures StartIfPending(jobs, id, now).0[k].workId == jobs[k].workId
  {
  }

  // ---------------------------------------------------------------------
  // Processing
  // ---------------------------------------------------------------------

  /** The first row of `works` with this id. */
  function FindWork(works: seq<Work>, id: string): (r: Option<nat>)
    ensures r.Some? ==> r.value < |works| && works[r.value].id == id
    ensures r.None? <==> forall k :: 0 <= k < |works| ==> works[k].id != id
  {
    if works == [] then None
    else if works[0].id == id then Some(0)
    else match FindWork(works[1..], id)
      case None => None
      case Some(k) => Some(k + 1)
  }

  /** The abstract lookup of `get_text_for_work`: `.single()` raises, with the
      store's error text, when no row has the id. */
  function AbstractOf(works: seq<Work>, id: string, rowError: string): (r: AbstractLookup)
    ensures r.LookupError? <==> FindWork(works, id).None?
    ensures r.Row? ==> r.abstractText == works[FindWork(works, id).value].abstractText
  {
    match FindWork(works, id)
    case None => LookupError(rowError)
    case Some(k) => Row(works[k].abstractText)
  }

  /** How a job ends: with the parsed reply, or failed with an error text. */
  datatype JobEnd = Summarised(reply: Reply) | FailedWith(message: string)

  /** The outcome of `process_job` given the text lookup and the model:
      any raised error (of the lookup, the chat call or the reply's
      parser) fails the job with its text cut to 500 characters; no text
      fails it with the fixed message; otherwise the parsed reply is
      stored. */
  function EndOfJob(text: Outcome<Option<string>>, llm: string -> LlmCall, decode: string -> JsonDecode): (e: JobEnd)
    ensures e.FailedWith? ==> |e.message| <= MaxErrorChars
    ensures text.Raised? ==> e == FailedWith(Take(text.message, MaxErrorChars))
    ensures text.Done? && !Truthy(text.value) ==> e == FailedWith(NoTextMessage)
    ensures text.Done? && Truthy(text.value) && llm(text.value.value).CallError? ==>
              e == FailedWith(Take(llm(text.value.value).message, MaxErrorChars))
    ensures text.Done? && Truthy(text.value) && llm(text.value.value).Content? ==>
              match ParseLlmResponse(llm(text.value.value).text, decode)
              case Parsed(reply) => e == Summarised(reply)
              case ParseFailed(msg) => e == FailedWith(Take(msg, MaxErrorChars))
  {
    match text
    case Raised(msg) => FailedWith(Take(msg, MaxErrorChars))
    case Done(t) =>
      if !Truthy(t) then FailedWith(NoTextMessage)
      else match llm(t.value)
        case CallError(msg) => FailedWith(Take(msg, MaxErrorChars))
        case Content(c) =>
          match ParseLlmResponse(c, decode)
          case Parsed(reply) => Summarised(reply)
          case ParseFailed(msg) => FailedWith(Take(msg, MaxErrorChars))
  }

  /** What `get_text_for_work` yields for a job against the current rows. */
  function TextFor(job: Job, works: seq<Work>, env: Fetcher, maxChars: nat, rowError: string): Outcome<Option<string>>
  {
    var lookup := AbstractOf(works, job.workId, rowError);
    if Truthy(job.sourceUrl) then ResolveText(PdfText(job.sourceUrl.value, env, maxChars), lookup)
    else ResolveText(None, lookup)
  }

  /** A job without a source URL whose work has no abstract (or an empty
      one) fails with the fixed message. */
  lemma NoSourceNoAbstractFails(job: Job, works: seq<Work>, env: Fetcher, maxChars: nat, rowError: string,
                                llm: string -> LlmCall, decode: string -> JsonDecode)
    requires !Truthy(job.sourceUrl)
    requires FindWork(works, job.workId).Some?
    requires !Truthy(works[FindWork(works, job.workId).value].abstractText)
    ensures EndOfJob(TextFor(job, works, env, maxChars, rowError), llm, decode) == FailedWith(NoTextMessage)
  {
  }

  /** A job whose work row is missing fails with the store's error text. */
  lemma MissingWorkFails(job: Job, works: seq<Work>, env: Fetcher, maxChars: nat, rowError: string,
                         llm: string -> LlmCall, decode: string -> JsonDecode)
    requires FindWork(works, job.workId).None?
    requires !Truthy(job.sourceUrl) || !Truthy(PdfText(job.sourceUrl.value, env, maxChars))
    ensures EndOfJob(TextFor(job, works, env, maxChars, rowError), llm, decode)
              == FailedWith(Take(rowError, MaxErrorChars))
  {
  }

  /** Replace every row whose key is `id` by `f` of it, in place: the
      shape of the `update(...).eq("id", ...)` calls on both tables. */
  function UpdateById<R, K(==)>(rows: seq<R>, key: R -> K, id: K, f: R -> R): (r: seq<R>)
    ensures |r| == |rows|
    ensures forall k :: 0 <= k < |rows| && key(rows[k]) != id ==> r[k] == rows[k]
    ensures forall k :: 0 <= k < |rows| && key(rows[k]) == id ==> r[k] == f(rows[k])
  {
    seq(|rows|, k requires 0 <= k < |rows| => if key(rows[k]) == id then f(rows[k]) else rows[k])
  }

  function JobKey(j: Job): nat { j.id }

  function WorkKey(w: Work): string { w.id }

  function WithFailure(msg: string): Job -> Job {
    (j: Job) => j.(status := Failed, error := Some(msg))
  }

  function WithCompletion(now: int): Job -> Job {
    (j: Job) => j.(status := Completed, completedAt := Some(now))
  }

  function WithReply(reply: Reply): Work -> Work {
    (w: Work) => w.(summary := Some(reply.summary), aiTags := Some(reply.tags), summaryGenerated := Some(true))
  }

  /** A job that has been processed is finished: its row is completed or
      failed, whatever the end. */
  lemma ProcessedJobIsFinished(jobs: seq<Job>, id: nat, e: JobEnd, now: int, k: nat)
    requires k < |jobs| && jobs[k].id == id
    ensures var after := if e.FailedWith? then UpdateById(jobs, JobKey, id, WithFailure(e.message))
                         else UpdateById(jobs, JobKey, id, WithCompletion(now));
            after[k].status == (if e.FailedWith? then Failed else Completed)
            && !IsOpen(after[k])
  {
  }

  /** The tables after `process_job` ends with `e`: the reply stored in the
      work and the job completed, or only the job failed with the text. */
  predicate FinishedTables(jobs0: seq<Job>, works0: seq<Work>, jobs: seq<Job>, works: seq<Work>,
                           job: Job, e: JobEnd, now: int) {
    if e.FailedWith? then
      works == works0 && jobs == UpdateById(jobs0, JobKey, job.id, WithFailure(e.message))
    else
      works == UpdateById(works0, WorkKey, job.workId, WithReply(e.reply))
      && jobs == UpdateById(jobs0, JobKey, job.id, WithCompletion(now))
  }

  // ---------------------------------------------------------------------
  // Backfill
  // ---------------------------------------------------------------------

  /** A work the backfill looks at: no summary, never summarised, and an
      abstract. */
  predicate NeedsSummary(w: Work) {
    w.summary.None? && w.summaryGenerated.None? && w.abstractText.Some?
  }

  /** The select of `enqueue_batch_jobs`: the first ten such works, in table
      order. */
  function BackfillCandidates(works: seq<Work>): (r: seq<Work>)
    ensures |r| <= BackfillBatch
    ensures forall w :: w in r ==> NeedsSummary(w) && w in works
  {
    Take(Filter(works, NeedsSummary), BackfillBatch)
  }

  predicate HasOpenJob(jobs: seq<Job>, workId: string) {
    exists k :: 0 <= k < |jobs| && jobs[k].workId == workId && IsOpen(jobs[k])
  }

  /** No work has two open jobs. */
  predicate AtMostOneOpenJob(jobs: seq<Job>) {
    forall i, j :: 0 <= i < j < |jobs| && IsOpen(jobs[i]) && IsOpen(jobs[j]) ==> jobs[i].workId != jobs[j].workId
  }

  /** A job the backfill inserts for the candidate `w`. */
  predicate BackfillJobFor(j: Job, w: Work, now: int) {
    j.workId == w.id && j.sourceUrl == w.openAccessUrl && j.priority == 0 && j.status == Pending
    && j.createdAt == now && j.startedAt.None? && j.completedAt.None? && j.error.None?
  }

  predicate FromCandidate(j: Job, cands: seq<Work>, now: int) {
    exists i :: 0 <= i < |cands| && BackfillJobFor(j, cands[i], now)
  }

  /** Claiming keeps the invariant: it only moves a pending row to
      processing. */
  lemma StartKeepsAtMostOneOpen(jobs: seq<Job>, id: nat, now: int)
    requires AtMostOneOpenJob(jobs)
    ensures AtMostOneOpenJob(StartIfPending(jobs, id, now).0)
  {
    var r := StartIfPending(jobs, id, now).0;
    forall i, j | 0 <= i < j < |r| && IsOpen(r[i]) && IsOpen(r[j])
      ensures r[i].workId != r[j].workId
    {
      assert IsOpen(jobs[i]) && IsOpen(jobs[j]);
    }
  }

  /** Finishing a job keeps the invariant: it only closes a row. */
  lemma FinishKeepsAtMostOneOpen(jobs: seq<Job>, id: nat, f: Job -> Job)
    requires AtMostOneOpenJob(jobs)
    requires forall j :: !IsOpen(f(j)) && f(j).workId == j.workId
    ensures AtMostOneOpenJob(UpdateById(jobs, JobKey, id, f))
  {
    var r := UpdateById(jobs, JobKey, id, f);
    forall i, j | 0 <= i < j < |r| && IsOpen(r[i]) && IsOpen(r[j])
      ensures r[i].workId != r[j].workId
    {
      assert r[i] == jobs[i] && r[j] == jobs[j];
    }
  }

  // ---------------------------------------------------------------------
  // The tables
  // ---------------------------------------------------------------------

  class Store {
    var jobs: seq<Job>
    var works: seq<Work>
    /** The next id the table's sequence hands out. */
    var nextJobId: nat

    /** Job ids are distinct and below the sequence's next value. */
    predicate Valid()
      reads this
    {
      && (forall k :: 0 <= k < |jobs| ==> jobs[k].id < nextJobId)
      && (forall i, j :: 0 <= i < j < |jobs| ==> jobs[i].id != jobs[j].id)
    }

    constructor (works0: seq<Work>)
      ensures Valid() && jobs == [] && works == works0
    {
      jobs := [];
      works := works0;
      nextJobId := 0;
    }

    /** The select of `claim_job`. */
    method SelectNextPending() returns (job: Option<Job>)
      ensures job.None? <==> NextPending(jobs).None?
      ensures job.Some? ==> job.value == jobs[NextPending(jobs).value]
    {
      var k := NextPending(jobs);
      job := if k.Some? then Some(jobs[k.value]) else None;
    }

    /** The conditional update of `claim_job`. */
    method StartIfStillPending(id: nat, now: int) returns (updated: bool)
      requires Valid()
      modifies this
      ensures Valid() && works == old(works) && nextJobId == old(nextJobId)
      ensures (jobs, updated) == StartIfPending(old(jobs), id, now)
    {
      var r := StartIfPending(jobs, id, now);
      jobs, updated := r.0, r.1;
    }

    /** `claim_job`: select the next pending job, then claim it unless
      another worker moved it first. */
    method ClaimJob(now: int) returns (claimed: Option<Job>)
      requires Valid()
      modifies this
      ensures Valid() && works == old(works) && nextJobId == old(nextJobId)
      ensures claimed.None? <==> NextPending(old(jobs)).None?
      ensures claimed.Some? ==> claimed.value == old(jobs)[NextPending(old(jobs)).value]
      ensures claimed.Some? ==> jobs == StartIfPending(old(jobs), claimed.value.id, now).0
      ensures claimed.None? ==> jobs == old(jobs)
      ensures AtMostOneOpenJob(old(jobs)) ==> AtMostOneOpenJob(jobs)
    {
      var pick := SelectNextPending();
      if pick.None? {
        return None;
      }
      assert old(jobs)[NextPending(old(jobs)).value].id == pick.value.id;
      var updated := StartIfStillPending(pick.value.id, now);
      claimed := if updated then pick else None;
      if AtMostOneOpenJob(old(jobs)) {
        StartKeepsAtMostOneOpen(old(jobs), pick.value.id, now);
      }
    }

    /** `process_job`: fetch the text, summarise it and store the reply
      before completing the job; on any error fail the job with the error's
      text. `sent` lists the URLs requested. */
    method ProcessJob(job: Job, env: Fetcher, maxChars: nat, rowError: string,
                      llm: string -> LlmCall, decode: string -> JsonDecode, now: int)
      returns (sent: seq<string>)
      requires Valid()
      modifies this
      ensures Valid() && nextJobId == old(nextJobId)
      ensures forall u :: u in sent ==> Safe(u, env)
      ensures |sent| <= 2
      ensures FinishedTables(old(jobs), old(works), jobs, works, job,
                             EndOfJob(TextFor(job, old(works), env, maxChars, rowError), llm, decode), now)
      ensures AtMostOneOpenJob(old(jobs)) ==> AtMostOneOpenJob(jobs)
    {
      var lookup := AbstractOf(works, job.workId, rowError);
      var text;
      text, sent := GetTextForWork(job.sourceUrl, lookup, env, maxChars);
      assert text == TextFor(job, old(works), env, maxChars, rowError);
      FinishJob(job, EndOfJob(text, llm, decode), now);
    }

    /** The writes that end `process_job`: the reply goes to the work and
      the job is completed, or the job is failed with the error text. */
    method FinishJob(job: Job, e: JobEnd, now: int)
      requires Valid()
      modifies this
      ensures Valid() && nextJobId == old(nextJobId)
      ensures FinishedTables(old(jobs), old(works), jobs, works, job, e, now)
      ensures AtMostOneOpenJob(old(jobs)) ==> AtMostOneOpenJob(jobs)
    {
      if e.FailedWith? {
        MarkJob(job.id, WithFailure(e.message));
      } else {
        works := UpdateById(works, WorkKey, job.workId, WithReply(e.reply));
        MarkJob(job.id, WithCompletion(now));
      }
    }

    /** One update of `ai_jobs` by id. */
    method MarkJob(id: nat, f: Job -> Job)
      requires Valid()
      requires forall j :: f(j).id == j.id && !IsOpen(f(j)) && f(j).workId == j.workId
      modifies this
      ensures Valid() && works == old(works) && nextJobId == old(nextJobId)
      ensures jobs == UpdateById(old(jobs), JobKey, id, f)
      ensures AtMostOneOpenJob(old(jobs)) ==> AtMostOneOpenJob(jobs)
    {
      if AtMostOneOpenJob(jobs) {
        FinishKeepsAtMostOneOpen(jobs, id, f);
      }
      jobs := UpdateById(jobs, JobKey, id, f);
    }

    /** The existence check of `enqueue_batch_jobs`. */
    method OpenJobExists(workId: string) returns (b: bool)
      ensures b <==> HasOpenJob(jobs, workId)
    {
      b := false;
      var k := 0;
      while k < |jobs|
        invariant 0 <= k <= |jobs|
        invariant !b ==> forall m :: 0 <= m < k ==> !(jobs[m].workId == workId && IsOpen(jobs[m]))
        invariant b ==> HasOpenJob(jobs, workId)
      {
        if jobs[k].workId == workId && IsOpen(jobs[k]) {
          b := true;
        }
        k := k + 1;
      }
    }

    /** The insert of `enqueue_batch_jobs`: a pending job at priority 0,
      its id taken from the sequence. */
    method InsertBackfillJob(w: Work, now: int)
      requires Valid()
      requires !HasOpenJob(jobs, w.id)
      modifies this
      ensures Valid() && works == old(works)
      ensures jobs == old(jobs) + [Job(old(nextJobId), w.id, w.openAccessUrl, 0, Pending, now, None, None, None)]
      ensures AtMostOneOpenJob(old(jobs)) ==> AtMostOneOpenJob(jobs)
    {
      var j := Job(nextJobId, w.id, w.openAccessUrl, 0, Pending, now, None, None, None);
      if AtMostOneOpenJob(jobs) {
        AppendKeepsAtMostOneOpen(jobs, j);
      }
      jobs := jobs + [j];
      nextJobId := nextJobId + 1;
    }

    /** `enqueue_batch_jobs`: for each candidate, in order, insert a job
      unless the work already has a pending or processing one. Returns how
      many jobs were inserted. */
    method EnqueueBatchJobs(now: int) returns (count: nat)
      requires Valid()
      modifies this
      ensures Valid() && works == old(works)
      ensures count <= BackfillBatch && |jobs| == |old(jobs)| + count
      ensures Backfilled(old(jobs), jobs, works, now)
      ensures AtMostOneOpenJob(old(jobs)) ==> AtMostOneOpenJob(jobs)
    {
      var cands := BackfillCandidates(works);
      count := 0;
      var i := 0;
      while i < |cands|
        invariant 0 <= i <= |cands|
        invariant Valid() && works == old(works)
        invariant count <= i && |jobs| == |old(jobs)| + count
        invariant BackfillProgress(old(jobs), jobs, cands, i, now)
        invariant AtMostOneOpenJob(old(jobs)) ==> AtMostOneOpenJob(jobs)
      {
        var w := cands[i];
        var found := OpenJobExists(w.id);
        if found {
          BackfillSkip(old(jobs), jobs, cands, i, now);
        } else {
          BackfillStep(old(jobs), jobs, cands, i, now,
                       Job(nextJobId, w.id, w.openAccessUrl, 0, Pending, now, None, None, None));
          InsertBackfillJob(w, now);
          count := count + 1;
        }
        i := i + 1;
      }
    }
  }

  /** The jobs after a backfill over `works`: the table starts with the rows
      it had, every new row is a pending job for a candidate whose work had
      no open job before, and every candidate has an open job. */
  predicate Backfilled(before: seq<Job>, jobs: seq<Job>, works: seq<Work>, now: int) {
    && |before| <= |jobs| && jobs[..|before|] == before
    && (forall k :: |before| <= k < |jobs| ==> FromCandidate(jobs[k], BackfillCandidates(works), now))
    && (forall k :: |before| <= k < |jobs| ==> !HasOpenJob(before, jobs[k].workId))
    && (forall w :: w in BackfillCandidates(works) ==> HasOpenJob(jobs, w.id))
  }

  /** What the backfill loop keeps after the first `i` candidates: the
      table starts with the rows it had, every new row is a pending job for
      a candidate whose work had no open job before, and each candidate seen
      so far has an open job. */
  predicate BackfillProgress(before: seq<Job>, jobs: seq<Job>, cands: seq<Work>, i: nat, now: int) {
    && |before| <= |jobs| && jobs[..|before|] == before
    && (forall k :: |before| <= k < |jobs| ==> FromCandidate(jobs[k], cands, now))
    && (forall k :: |before| <= k < |jobs| ==> !HasOpenJob(before, jobs[k].workId))
    && (forall m :: 0 <= m < i && m < |cands| ==> HasOpenJob(jobs, cands[m].id))
  }

  lemma BackfillSkip(before: seq<Job>, jobs: seq<Job>, cands: seq<Work>, i: nat, now: int)
    requires i < |cands| && BackfillProgress(before, jobs, cands, i, now)
    requires HasOpenJob(jobs, cands[i].id)
    ensures BackfillProgress(before, jobs, cands, i + 1, now)
  {
  }

  lemma BackfillStep(before: seq<Job>, jobs: seq<Job>, cands: seq<Work>, i: nat, now: int, j: Job)
    requires i < |cands| && BackfillProgress(before, jobs, cands, i, now)
    requires BackfillJobFor(j, cands[i], now) && !HasOpenJob(jobs, cands[i].id)
    ensures BackfillProgress(before, jobs + [j], cands, i + 1, now)
  {
    var r := jobs + [j];
    assert r[..|before|] == before by {
      assert r[..|jobs|] == jobs;
    }
    assert r[|jobs|] == j && IsOpen(j);
    OpenJobStaysOpen(before, jobs);
    forall k | |before| <= k < |r|
      ensures FromCandidate(r[k], cands, now) && !HasOpenJob(before, r[k].workId)
    {
      if k < |jobs| {
        assert r[k] == jobs[k];
      }
    }
    forall m | 0 <= m < i + 1 && m < |cands|
      ensures HasOpenJob(r, cands[m].id)
    {
      if m < i {
        var k :| 0 <= k < |jobs| && jobs[k].workId == cands[m].id && IsOpen(jobs[k]);
        assert r[k] == jobs[k];
      }
    }
  }

  /** Adding a job for a work with no open job keeps the invariant. */
  lemma AppendKeepsAtMostOneOpen(jobs: seq<Job>, j: Job)
    requires AtMostOneOpenJob(jobs) && !HasOpenJob(jobs, j.workId)
    ensures AtMostOneOpenJob(jobs + [j])
  {
    var r := jobs + [j];
    forall a, b | 0 <= a < b < |r| && IsOpen(r[a]) && IsOpen(r[b])
      ensures r[a].workId != r[b].workId
    {
      assert r[a] == jobs[a];
      if b < |jobs| {
        assert r[b] == jobs[b];
      }
    }
  }

  /** An open job of a prefix is an open job of the whole table. */
  lemma OpenJobStaysOpen(prefix: seq<Job>, jobs: seq<Job>)
    requires |prefix| <= |jobs| && jobs[..|prefix|] == prefix
    ensures forall id :: HasOpenJob(prefix, id) ==> HasOpenJob(jobs, id)
  {
    forall id | HasOpenJob(prefix, id)
      ensures HasOpenJob(jobs, id)
    {
      var k :| 0 <= k < |prefix| && prefix[k].workId == id && IsOpen(prefix[k]);
      assert jobs[k] == prefix[k];
    }
  }

  // ---------------------------------------------------------------------
  // The polling loop
  // ---------------------------------------------------------------------

  /** One pass of `main`'s loop: a job was claimed (and processed), or none
      was, in which case the flag says whether a backfill started on this
      pass raised. */
  datatype Tick = JobClaimed | Idle(backfillRaises: bool)

  /** Whether this pass runs the backfill. */
  predicate RunsBackfill(counter: nat, t: Tick, enabled: bool) {
    t.Idle? && enabled && counter + 1 >= BackfillEvery
  }

  /** The batch counter after one pass: a claimed job leaves it alone; an
      idle pass adds one, and a backfill that returns resets it to zero (one
      that raises skips the reset). */
  function CounterAfter(counter: nat, t: Tick, enabled: bool): (c: nat)
    ensures t.JobClaimed? ==> c == counter
    ensures RunsBackfill(counter, t, enabled) && !t.backfillRaises ==> c == 0
    ensures !RunsBackfill(counter, t, enabled) || t.backfillRaises ==> c == counter + (if t.Idle? then 1 else 0)
  {
    match t
    case JobClaimed => counter
    case Idle(raises) => if RunsBackfill(counter, t, enabled) && !raises then 0 else counter + 1
  }

  /** The counter after a run of passes, starting from zero. */
  function CounterAfterAll(ticks: seq<Tick>, enabled: bool): nat {
    if ticks == [] then 0
    else CounterAfter(CounterAfterAll(ticks[..|ticks| - 1], enabled), ticks[|ticks| - 1], enabled)
  }

  function IdleCount(ticks: seq<Tick>): nat {
    if ticks == [] then 0
    else IdleCount(ticks[..|ticks| - 1]) + (if ticks[|ticks| - 1].Idle? then 1 else 0)
  }

  predicate NoRaises(ticks: seq<Tick>) {
    forall i :: 0 <= i < |ticks| ==> ticks[i] != Idle(true)
  }

  /** With backfill enabled and never raising, the counter is the number of
      idle passes modulo four; with backfill disabled it is the number of
      idle passes. */
  lemma {:induction false} CounterCountsIdlePasses(ticks: seq<Tick>, enabled: bool)
    requires NoRaises(ticks) || !enabled
    ensures CounterAfterAll(ticks, enabled) == if enabled then IdleCount(ticks) % BackfillEvery else IdleCount(ticks)
  {
    if ticks != [] {
      var init := ticks[..|ticks| - 1];
      assert NoRaises(ticks) ==> NoRaises(init) by {
        if NoRaises(ticks) {
          forall i | 0 <= i < |init| ensures init[i] != Idle(true) {
            assert init[i] == ticks[i];
          }
        }
      }
      CounterCountsIdlePasses(init, enabled);
    }
  }

  /** With backfill enabled and never raising, the backfill runs exactly on
      every fourth idle pass. */
  lemma BackfillOnEveryFourthIdlePass(ticks: seq<Tick>, t: Tick)
    requires NoRaises(ticks)
    ensures (RunsBackfill(CounterAfterAll(ticks, true), t, true)
             <==> t.Idle? && (IdleCount(ticks) + 1) % BackfillEvery == 0)
  {
    CounterCountsIdlePasses(ticks, true);
  }

  /** A backfill that raises runs again on the next idle pass. */
  lemma RaisingBackfillRetries(counter: nat, enabled: bool, next: bool)
    requires RunsBackfill(counter, Idle(true), enabled)
    ensures RunsBackfill(CounterAfter(counter, Idle(true), enabled), Idle(next), enabled)
  {
  }

  /** With backfill disabled it never runs. */
  lemma DisabledNeverBackfills(counter: nat, t: Tick)
    ensures !RunsBackfill(counter, t, false)
  {
  }

  class Worker {
    const store: Store
    const batchEnabled: bool
    var batchCounter: nat

    constructor (store: Store, batchEnabled: bool)
      ensures this.store == store && this.batchEnabled == batchEnabled && batchCounter == 0
    {
      this.store := store;
      this.batchEnabled := batchEnabled;
      batchCounter := 0;
    }

    /** One pass of `main`'s loop (the sleep left out): a pending job is
      claimed and processed; otherwise the counter moves on and, every
      fourth idle pass, the backfill runs. `backfillRaises` says whether the
      backfill, if it runs, raises; the model takes it to raise on its
      first query, before inserting anything. */
    method Pass(env: Fetcher, maxChars: nat, rowError: string, llm: string -> LlmCall,
                decode: string -> JsonDecode, now: int, backfillRaises: bool)
      returns (t: Tick)
      requires store.Valid()
      modifies this, store
      ensures store.Valid()
      ensures t == JobClaimed <==> NextPending(old(store.jobs)).Some?
      ensures t.Idle? ==> t.backfillRaises == backfillRaises
      ensures batchCounter == CounterAfter(old(batchCounter), t, batchEnabled)
      ensures t == JobClaimed ==>
                var job := old(store.jobs)[NextPending(old(store.jobs)).value];
                FinishedTables(StartIfPending(old(store.jobs), job.id, now).0, old(store.works),
                               store.jobs, store.works, job,
                               EndOfJob(TextFor(job, old(store.works), env, maxChars, rowError), llm, decode), now)
      ensures t.Idle? ==> store.works == old(store.works)
      ensures t.Idle? && (!RunsBackfill(old(batchCounter), t, batchEnabled) || backfillRaises) ==> store.jobs == old(store.jobs)
      ensures RunsBackfill(old(batchCounter), t, batchEnabled) && !backfillRaises ==>
                Backfilled(old(store.jobs), store.jobs, old(store.works), now)
      ensures AtMostOneOpenJob(old(store.jobs)) ==> AtMostOneOpenJob(store.jobs)
    {
      var job := store.ClaimJob(now);
      if job.Some? {
        var _ := store.ProcessJob(job.value, env, maxChars, rowError, llm, decode, now);
        return JobClaimed;
      }
      t := Idle(backfillRaises);
      batchCounter := batchCounter + 1;
      if batchEnabled && batchCounter >= BackfillEvery && !backfillRaises {
        var _ := store.EnqueueBatchJobs(now);
        batchCounter := 0;
      }
    }
  }
}
