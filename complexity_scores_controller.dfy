/** The two endpoints. `show` checks the job id, reads the job status and maps it to an
    HTTP answer; it only reads the cache, so it is a function of the cache contents.
    `create` validates the request body through a `WordsForm.Form`, derives the batch key
    from the processed words and, unless a result is already stored, marks the job
    pending and enqueues it. */
module ComplexityScoresController {
  import opened Wrappers
  import opened RubyStrings
  import opened RubyArrays
  import opened Json
  import opened RailsCache
  import opened BatchKeyGenerator
  import opened JobCacheService
  import opened WordsForm

  /** The JSON body of an answer. */
  datatype Body =
    | ErrorBody(message: string, jobId: Option<string>)
    | ValidationErrors(message: string, errors: seq<FormError>)
    | StatusBody(status: string, result: Option<Value>)
    | JobIdBody(id: string)

  datatype Response = Response(status: nat, body: Body)

  /** `valid_job_id?(job_id)`: present, and 16 hex digits in either case. */
  predicate ValidJobId(jobId: Option<string>) {
    && jobId.Some?
    && !Blank(jobId.value)
    && |jobId.value| == 16
    && forall i :: 0 <= i < |jobId.value| ==> IsHexDigit(jobId.value[i])
  }

  /** The presence check adds nothing: 16 hex digits are never blank. */
  lemma ValidJobIdSpec(s: string)
    ensures ValidJobId(Some(s)) <==> |s| == 16 && forall i :: 0 <= i < 16 ==> IsHexDigit(s[i])
  {
    if |s| == 16 && forall i :: 0 <= i < 16 ==> IsHexDigit(s[i]) {
      assert !IsSpace(s[0]);
    }
  }

  /** Every id `create` hands out passes `valid_job_id?`. */
  lemma GeneratedIdValid(words: seq<string>, hexdigest: string -> string)
    requires IsHexDigest(hexdigest(Join(words, ",")))
    ensures ValidJobId(Some(ExtractJobId(Generate(words, hexdigest))))
  {
    GeneratedJobId(words, hexdigest);
    ValidJobIdSpec(ExtractJobId(Generate(words, hexdigest)));
  }

  /** `render_job_status(job_status)`. */
  function RenderJobStatus(status: JobStatus): Response {
    match status
    case Pending => Response(200, StatusBody("pending", None))
    case Completed(result) => Response(200, StatusBody("completed", Some(result)))
    case Failed => Response(422, StatusBody("failed", None))
  }

  /** `show`: the id is checked before the cache is read. */
  function Show(store: map<string, Value>, jobId: Option<string>): Response {
    if !ValidJobId(jobId) then Response(400, ErrorBody("Invalid job ID format", jobId))
    else
      match GetJobStatus(store, BatchPrefix + jobId.value)
      case None => Response(404, ErrorBody("Job not found", jobId))
      case Some(status) => RenderJobStatus(status)
  }

  /** An invalid id is answered 400 whatever the cache holds. */
  lemma ShowInvalidId(store: map<string, Value>, other: map<string, Value>, jobId: Option<string>)
    requires !ValidJobId(jobId)
    ensures Show(store, jobId) == Show(other, jobId)
    ensures Show(store, jobId).status == 400
  {
  }

  /** For a valid id: 404 exactly when the job is unknown, 200 exactly when it is pending
      or completed (a completed answer carries the stored result), 422 exactly when it
      failed. */
  lemma ShowStatusMapping(store: map<string, Value>, id: string)
    requires ValidJobId(Some(id))
    ensures var st := GetJobStatus(store, BatchPrefix + id);
      var r := Show(store, Some(id));
      && (r.status == 404 <==> st.None?)
      && (r.status == 200 <==> st == Some(Pending) || (st.Some? && st.value.Completed?))
      && (r.status == 422 <==> st == Some(Failed))
      && (r.status == 200 && st != Some(Pending) ==>
            r.body == StatusBody("completed", GetResults(store, BatchPrefix + id)))
  {
  }

  /** `show` reads nothing but the job's two entries. */
  lemma ShowReadsJobEntries(store: map<string, Value>, other: map<string, Value>, id: string)
    requires Read(store, "job_result:" + id) == Read(other, "job_result:" + id)
    requires Read(store, "job_status:" + id) == Read(other, "job_status:" + id)
    ensures Show(store, Some(id)) == Show(other, Some(id))
  {
    BatchKeyAddressesJob(id);
  }

  /** The id is not lower-cased: an id with upper-case letters passes the check but
      addresses other entries than its lower-case form, which is what `create` hands out. */
  lemma UpperCaseIdAddressesOtherEntries(id: string)
    requires ValidJobId(Some(id)) && Downcase(id) != id
    ensures ValidJobId(Some(Downcase(id)))
    ensures StatusKeyOf(BatchPrefix + id) != StatusKeyOf(BatchPrefix + Downcase(id))
    ensures ResultKeyOf(BatchPrefix + id) != ResultKeyOf(BatchPrefix + Downcase(id))
  {
    LowerCaseIdValid(id);
    var lower := Downcase(id);
    BatchKeyAddressesJob(id);
    BatchKeyAddressesJob(lower);
    KeysInjective(id, lower);
  }

  /** Lower-casing keeps an id valid. */
  lemma LowerCaseIdValid(id: string)
    requires ValidJobId(Some(id))
    ensures ValidJobId(Some(Downcase(id)))
  {
    var lower := Downcase(id);
    ValidJobIdSpec(id);
    ValidJobIdSpec(lower);
    forall i | 0 <= i < 16 ensures IsHexDigit(lower[i]) {
      assert lower[i] == DowncaseChar(id[i]);
    }
  }

  /** A queued `ComplexityScoreJob.perform_later(words, batch_key)`. */
  datatype Job = Job(words: seq<string>, batchKey: string)

  /** The job queue, as far as `create` sees it. */
  class JobQueue {
    var jobs: seq<Job>

    constructor()
      ensures jobs == []
    {
      jobs := [];
    }

    /** `perform_later(words, batch_key)`. */
    method PerformLater(words: seq<string>, batchKey: string)
      modifies this
      ensures jobs == old(jobs) + [Job(words, batchKey)]
    {
      jobs := jobs + [Job(words, batchKey)];
    }
  }

  /** The cache contents, the queue and the answer after `create`. */
  datatype Created = Created(store: map<string, Value>, jobs: seq<Job>, response: Response)

  /** The words `create` derives its batch key from: `processed_words` after `submit`. */
  function BatchWords(body: RequestBody): seq<string> {
    var raw := Some(body);
    Processed(Submitted(JNull, raw), raw)
  }

  /** `create`, as a function of the cache contents and the queue. */
  function CreateSpec(store: map<string, Value>, jobs: seq<Job>, body: RequestBody,
                      hexdigest: string -> string): Created
  {
    var v := Validate(JNull, Some(body));
    if v.errors != [] then
      Created(store, jobs, Response(422, ValidationErrors("Validation failed", v.errors)))
    else
      var words := BatchWords(body);
      var batchKey := Generate(words, hexdigest);
      var response := Response(202, JobIdBody(ExtractJobId(batchKey)));
      if ResultExists(store, batchKey) then Created(store, jobs, response)
      else Created(WithMarker(store, batchKey, PendingMarker), jobs + [Job(words, batchKey)], response)
  }

  /** `create`. */
  method Create(cache: Cache, queue: JobQueue, body: RequestBody, hexdigest: string -> string)
    returns (response: Response)
    modifies cache, queue
    ensures Created(cache.entries, queue.jobs, response)
         == CreateSpec(old(cache.entries), old(queue.jobs), body, hexdigest)
  {
    var form := new Form(JNull, Some(body));
    var ok := form.Submit();
    if !ok {
      return Response(422, ValidationErrors("Validation failed", form.errors));
    }
    var words := form.ProcessedWords();
    var batchKey := Generate(words, hexdigest);
    var jobId := ExtractJobId(batchKey);
    if !ResultExists(cache.entries, batchKey) {
      MarkAsPending(cache, batchKey);
      queue.PerformLater(words, batchKey);
    }
    response := Response(202, JobIdBody(jobId));
  }

  /** A body that fails validation is answered 422 with the form's errors, and neither the
      cache nor the queue changes. */
  lemma CreateRejects(store: map<string, Value>, jobs: seq<Job>, body: RequestBody,
                      hexdigest: string -> string)
    requires !Accepted(JNull, Some(body))
    ensures var c := CreateSpec(store, jobs, body, hexdigest);
      && c.store == store && c.jobs == jobs
      && c.response == Response(422, ValidationErrors("Validation failed", Validate(JNull, Some(body)).errors))
      && c.response.body.errors != []
  {
    ValidIff(JNull, Some(body));
  }

  /** An accepted body is answered 202 with the job id of its words; the job is queued,
      exactly once, exactly when no result is stored, and then only its marker is
      written. */
  lemma CreateAccepts(store: map<string, Value>, jobs: seq<Job>, body: RequestBody,
                      hexdigest: string -> string)
    requires Accepted(JNull, Some(body))
    ensures var c := CreateSpec(store, jobs, body, hexdigest);
      var key := Generate(BatchWords(body), hexdigest);
      && c.response == Response(202, JobIdBody(ExtractJobId(key)))
      && (|c.jobs| == |jobs| + 1 <==> !ResultExists(store, key))
      && (|c.jobs| == |jobs| + 1 ==> c.jobs[|jobs|] == Job(BatchWords(body), key))
      && c.jobs[..|jobs|] == jobs
      && (ResultExists(store, key) ==> c.store == store)
      && forall k :: k != StatusKeyOf(key) ==> Read(c.store, k) == Read(store, k)
  {
    ValidIff(JNull, Some(body));
    var key := Generate(BatchWords(body), hexdigest);
    var response := Response(202, JobIdBody(ExtractJobId(key)));
    var c := CreateSpec(store, jobs, body, hexdigest);
    if ResultExists(store, key) {
      assert c == Created(store, jobs, response);
      assert jobs[..|jobs|] == jobs;
    } else {
      assert c == Created(WithMarker(store, key, PendingMarker), jobs + [Job(BatchWords(body), key)], response);
      QueuedOnce(jobs, Job(BatchWords(body), key));
      MarkerOnlyWritesStatus(store, key, PendingMarker);
    }
  }

  lemma QueuedOnce(jobs: seq<Job>, j: Job)
    ensures |jobs + [j]| == |jobs| + 1 && (jobs + [j])[|jobs|] == j && (jobs + [j])[..|jobs|] == jobs
  {
  }

  lemma MarkerOnlyWritesStatus(store: map<string, Value>, key: string, marker: string)
    ensures forall k :: k != StatusKeyOf(key) ==> Read(WithMarker(store, key, marker), k) == Read(store, k)
  {
  }

  /** After `create`, `show` with the returned id reports the job pending, or completed
      with the stored result when one already existed. */
  lemma CreateThenShow(store: map<string, Value>, jobs: seq<Job>, body: RequestBody,
                       hexdigest: string -> string)
    requires Accepted(JNull, Some(body))
    requires IsHexDigest(hexdigest(Join(BatchWords(body), ",")))
    ensures var c := CreateSpec(store, jobs, body, hexdigest);
      var key := Generate(BatchWords(body), hexdigest);
      var id := ExtractJobId(key);
      && c.response.body == JobIdBody(id)
      && (!ResultExists(store, key) ==> Show(c.store, Some(id)) == Response(200, StatusBody("pending", None)))
      && (ResultExists(store, key) ==>
            Show(c.store, Some(id)) == Response(200, StatusBody("completed", GetResults(store, key))))
  {
    ValidIff(JNull, Some(body));
    var words := BatchWords(body);
    var key := Generate(words, hexdigest);
    var id := ExtractJobId(key);
    GeneratedIdValid(words, hexdigest);
    GeneratedJobId(words, hexdigest);
    var h := hexdigest(Join(words, ","));
    assert key == BatchPrefix + id;
    if !ResultExists(store, key) {
      MarkerReported(store, key, PendingMarker);
    } else {
      ShowStoredResult(store, id);
    }
  }

  /** A valid id whose job has a stored result is answered `completed` with it. */
  lemma ShowStoredResult(store: map<string, Value>, id: string)
    requires ValidJobId(Some(id)) && ResultExists(store, BatchPrefix + id)
    ensures Show(store, Some(id)) == Response(200, StatusBody("completed", GetResults(store, BatchPrefix + id)))
  {
    var st := GetJobStatus(store, BatchPrefix + id);
    assert st.Some? && st.value.Completed?;
  }

  /** The words of an accepted body are its array's strings, de-duplicated and sorted. */
  lemma BatchWordsOfBody(body: RequestBody)
    requires BodyPresent(Some(body)) && Accepted(JNull, Some(body))
    ensures AllStrings(body.parsed.value.items)
    ensures BatchWords(body) == SortedTexts(body.parsed.value.items)
  {
    BodyWordsAfterSubmit(JNull, body.text, body.parsed.value.items);
  }

  /** Two accepted bodies holding the same set of words, in whatever order and with
      whatever repetitions, get the same batch key and so the same job id. */
  lemma SameWordSetSameKey(a: RequestBody, b: RequestBody, hexdigest: string -> string)
    requires BodyPresent(Some(a)) && Accepted(JNull, Some(a))
    requires BodyPresent(Some(b)) && Accepted(JNull, Some(b))
    requires forall x :: JStr(x) in a.parsed.value.items <==> JStr(x) in b.parsed.value.items
    ensures BatchWords(a) == BatchWords(b)
    ensures Generate(BatchWords(a), hexdigest) == Generate(BatchWords(b), hexdigest)
  {
    BatchWordsOfBody(a);
    BatchWordsOfBody(b);
    SortedTextsSpec(a.parsed.value.items);
    SortedTextsSpec(b.parsed.value.items);
    IncreasingUnique(BatchWords(a), BatchWords(b));
  }

  /** A resubmission while the job is still pending queues it a second time: only a
      stored result stops `create` from enqueueing. */
  lemma ResubmitWhilePending(store: map<string, Value>, jobs: seq<Job>, body: RequestBody,
                             hexdigest: string -> string)
    requires Accepted(JNull, Some(body))
    requires !ResultExists(store, Generate(BatchWords(body), hexdigest))
    ensures var c1 := CreateSpec(store, jobs, body, hexdigest);
      var c2 := CreateSpec(c1.store, c1.jobs, body, hexdigest);
      && |c2.jobs| == |jobs| + 2
      && c2.jobs[|jobs|] == c2.jobs[|jobs| + 1]
      && c2.store == c1.store
      && c2.response == c1.response
  {
    ValidIff(JNull, Some(body));
    var key := Generate(BatchWords(body), hexdigest);
    MarkerKeepsResults(store, key, PendingMarker, key);
    LastMarkerWins(store, key, PendingMarker, PendingMarker);
  }
}
