/** The job status store. A job is addressed by the id inside its batch key; its state lives
    under two cache keys: a status marker (`'pending'` or `'failed'`) and, once the job has
    finished, its results. The readers are functions of the cache contents; the three writers
    are methods on the shared `Cache`, each specified by a transition function of the old
    contents. */
module JobCacheService {
  import opened Wrappers
  import opened RubyStrings
  import opened RailsCache
  import opened BatchKeyGenerator

  /** The hash `get_job_status` returns: `{status: 'pending'}`, `{status: 'completed',
      result: ...}` or `{status: 'failed'}`. */
  datatype JobStatus = Pending | Completed(result: Value) | Failed

  const PendingMarker: string := "pending"
  const FailedMarker: string := "failed"

  /** `status_key(job_id)`. */
  function StatusKey(jobId: string): string {
    "job_status:" + jobId
  }

  /** `result_key(job_id)`. */
  function ResultKey(jobId: string): string {
    "job_result:" + jobId
  }

  function StatusKeyOf(batchKey: string): string {
    StatusKey(ExtractJobId(batchKey))
  }

  function ResultKeyOf(batchKey: string): string {
    ResultKey(ExtractJobId(batchKey))
  }

  /** `result_exists?(batch_key)`. */
  function ResultExists(store: map<string, Value>, batchKey: string): bool {
    ResultKeyOf(batchKey) in store
  }

  /** `get_results(batch_key)`: the stored results, or `nil`. */
  function GetResults(store: map<string, Value>, batchKey: string): (r: Option<Value>)
    ensures r.Some? <==> ResultExists(store, batchKey)
  {
    Read(store, ResultKeyOf(batchKey))
  }

  /** `get_job_status(batch_key)`: a stored result wins over any marker; otherwise the marker
      decides, and a missing or unrecognised marker gives `nil`. */
  function GetJobStatus(store: map<string, Value>, batchKey: string): (r: Option<JobStatus>)
    ensures (r.Some? && r.value.Completed?) <==> ResultExists(store, batchKey)
    ensures r.Some? && r.value.Completed? ==> Some(r.value.result) == GetResults(store, batchKey)
  {
    match Read(store, ResultKeyOf(batchKey))
    case Some(result) => Some(Completed(result))
    case None =>
      match Read(store, StatusKeyOf(batchKey))
      case Some(Text(marker)) =>
        if marker == PendingMarker then Some(Pending)
        else if marker == FailedMarker then Some(Failed)
        else None
      case _ => None
  }

  /** The cache contents after writing `marker` as the job's status. */
  function WithMarker(store: map<string, Value>, batchKey: string, marker: string): map<string, Value> {
    store[StatusKeyOf(batchKey) := Text(marker)]
  }

  /** The cache contents after `save_results`: the results are written, then the marker is
      deleted. */
  function WithResults(store: map<string, Value>, batchKey: string, results: Value): map<string, Value> {
    store[ResultKeyOf(batchKey) := results] - {StatusKeyOf(batchKey)}
  }

  /** `mark_as_pending(batch_key)`. */
  method MarkAsPending(cache: Cache, batchKey: string)
    modifies cache
    ensures cache.entries == WithMarker(old(cache.entries), batchKey, PendingMarker)
  {
    cache.Write(StatusKeyOf(batchKey), Text(PendingMarker));
  }

  /** `mark_as_failed(batch_key)`. */
  method MarkAsFailed(cache: Cache, batchKey: string)
    modifies cache
    ensures cache.entries == WithMarker(old(cache.entries), batchKey, FailedMarker)
  {
    cache.Write(StatusKeyOf(batchKey), Text(FailedMarker));
  }

  /** `save_results(batch_key, results)`. */
  method SaveResults(cache: Cache, batchKey: string, results: Value)
    modifies cache
    ensures cache.entries == WithResults(old(cache.entries), batchKey, results)
  {
    cache.Write(ResultKeyOf(batchKey), results);
    cache.Delete(StatusKeyOf(batchKey));
  }

  /** No status key is a result key: the two namespaces differ at their fifth character. */
  lemma KeyNamespacesDisjoint(a: string, b: string)
    ensures StatusKey(a) != ResultKey(b)
  {
    assert StatusKey(a)[4] == 's';
    assert ResultKey(b)[4] == 'r';
  }

  /** Different job ids have different keys. */
  lemma KeysInjective(a: string, b: string)
    ensures StatusKey(a) == StatusKey(b) <==> a == b
    ensures ResultKey(a) == ResultKey(b) <==> a == b
  {
    assert StatusKey(a)[11..] == a && StatusKey(b)[11..] == b;
    assert ResultKey(a)[11..] == a && ResultKey(b)[11..] == b;
  }

  /** After `save_results` the job reports `completed` with exactly the saved results (an
      empty hash included), the marker is gone and `get_results` returns them. */
  lemma SavedResultsReportCompleted(store: map<string, Value>, batchKey: string, results: Value)
    ensures var s := WithResults(store, batchKey, results);
      && GetJobStatus(s, batchKey) == Some(Completed(results))
      && GetResults(s, batchKey) == Some(results)
      && StatusKeyOf(batchKey) !in s
  {
    KeyNamespacesDisjoint(ExtractJobId(batchKey), ExtractJobId(batchKey));
  }

  /** Once a result exists, writing a marker no longer changes what the job reports: a late
      `mark_as_pending` or `mark_as_failed` cannot hide a completed job. */
  lemma ResultShadowsMarker(store: map<string, Value>, batchKey: string, marker: string)
    requires ResultExists(store, batchKey)
    ensures GetJobStatus(WithMarker(store, batchKey, marker), batchKey) == GetJobStatus(store, batchKey)
  {
    KeyNamespacesDisjoint(ExtractJobId(batchKey), ExtractJobId(batchKey));
  }

  /** Without a result, the job reports the marker last written for it: `pending` or
      `failed`, and nothing for any other text. */
  lemma MarkerReported(store: map<string, Value>, batchKey: string, marker: string)
    requires !ResultExists(store, batchKey)
    ensures var r := GetJobStatus(WithMarker(store, batchKey, marker), batchKey);
      && (r == Some(Pending) <==> marker == PendingMarker)
      && (r == Some(Failed) <==> marker == FailedMarker)
      && (r.None? <==> marker != PendingMarker && marker != FailedMarker)
  {
    KeyNamespacesDisjoint(ExtractJobId(batchKey), ExtractJobId(batchKey));
  }

  /** A job with neither a result nor a marker (never submitted, or both entries expired) is
      not found. */
  lemma UnknownJobNotFound(store: map<string, Value>, batchKey: string)
    requires ResultKeyOf(batchKey) !in store && StatusKeyOf(batchKey) !in store
    ensures GetJobStatus(store, batchKey).None?
  {
  }

  /** Writing a marker never creates or removes a result, for this job or any other. */
  lemma MarkerKeepsResults(store: map<string, Value>, marked: string, marker: string, batchKey: string)
    ensures GetResults(WithMarker(store, marked, marker), batchKey) == GetResults(store, batchKey)
  {
    KeyNamespacesDisjoint(ExtractJobId(marked), ExtractJobId(batchKey));
  }

  /** The last marker written wins. */
  lemma LastMarkerWins(store: map<string, Value>, batchKey: string, first: string, second: string)
    ensures WithMarker(WithMarker(store, batchKey, first), batchKey, second)
         == WithMarker(store, batchKey, second)
  {
  }

  /** `save_results` under one job id leaves what every other job reports unchanged. */
  lemma SaveResultsIndependent(store: map<string, Value>, saved: string, results: Value, batchKey: string)
    requires ExtractJobId(saved) != ExtractJobId(batchKey)
    ensures GetJobStatus(WithResults(store, saved, results), batchKey) == GetJobStatus(store, batchKey)
  {
    var a := ExtractJobId(saved);
    var b := ExtractJobId(batchKey);
    KeysInjective(a, b);
    KeyNamespacesDisjoint(a, b);
    KeyNamespacesDisjoint(b, a);
  }

  /** Writing a marker under one job id leaves what every other job reports unchanged. */
  lemma MarkerIndependent(store: map<string, Value>, marked: string, marker: string, batchKey: string)
    requires ExtractJobId(marked) != ExtractJobId(batchKey)
    ensures GetJobStatus(WithMarker(store, marked, marker), batchKey) == GetJobStatus(store, batchKey)
  {
    var a := ExtractJobId(marked);
    var b := ExtractJobId(batchKey);
    KeysInjective(a, b);
    KeyNamespacesDisjoint(a, b);
  }

  /** The job id of `"batch:" + id` is `id`, so its entries are `job_status:id` and
      `job_result:id`. */
  lemma BatchKeyAddressesJob(id: string)
    ensures StatusKeyOf(BatchPrefix + id) == "job_status:" + id
    ensures ResultKeyOf(BatchPrefix + id) == "job_result:" + id
  {
    ExtractJobIdRoundTrip(id);
  }
}
