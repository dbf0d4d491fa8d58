/** `ComplexityScoreJob#perform`: scores each word of a batch (from the word cache, or from
    the dictionary on a miss, caching the new score), then saves the word-to-score hash as
    the job's result; an error while scoring marks the job failed and is re-raised.

    `DictionaryApiClient.fetch` is a parameter: the data for a word, or `None` when the
    call raised. `RunWords` is the specification of the loop: what the job computes, writes
    and fetches for a prefix of the batch. */
module ComplexityScoreJob {
  import opened Wrappers
  import opened RubyStrings
  import opened RailsCache
  import opened WordProcessing
  import opened Json
  import opened BatchKeyGenerator
  import opened JobCacheService
  import opened DictionaryApiClient

  /** `fetch_word_data(word)`: the fetched data, or `{definitions: []}` when the fetch
      raised. */
  function FetchWordData(fetch: string -> Option<ApiData>, word: string): ApiData {
    fetch(word).GetOr(NoDefinitions)
  }

  /** One call of `process_word`: its score (or the error it raises), the cache afterwards,
      and whether it called `fetch`. */
  datatype Step = Step(score: Result<Value, ScoreError>, store: map<string, Value>, fetched: bool)

  /** `process_word(word)` as a function of the cache contents. */
  function ProcessWordStep(store: map<string, Value>, fetch: string -> Option<ApiData>, word: string): Step {
    match GetCachedScore(store, word)
    case Some(cached) => Step(Ok(cached), store, false)
    case None =>
      match CalculateScoreFromData(FetchWordData(fetch, word))
      case Ok(score) => Step(Ok(Number(score)), store[CacheKeyFor(word) := Number(score)], true)
      case Err(e) => Step(Err(e), store, true)
  }

  /** `process_word(word)`. */
  method ProcessWord(cache: Cache, word: string, fetch: string -> Option<ApiData>)
    returns (score: Result<Value, ScoreError>, fetched: bool)
    modifies cache
    ensures Step(score, cache.entries, fetched) == ProcessWordStep(old(cache.entries), fetch, word)
  {
    var cached := GetCachedScore(cache.entries, word);
    if cached.Some? {
      return Ok(cached.value), false;
    }
    var data := FetchWordData(fetch, word);
    var calculated := CalculateScoreFromData(data);
    if calculated.Err? {
      return Err(calculated.error), true;
    }
    CacheWordScore(cache, word, calculated.value);
    return Ok(Number(calculated.value)), true;
  }

  /** The state of `perform` after some words: the `results` hash, the cache, the words
      passed to `fetch` in order, and the error raised, if any. */
  datatype Run = Run(results: map<string, Value>, store: map<string, Value>, fetched: seq<string>,
                     error: Option<ScoreError>)

  /** `words.each { |word| results[word] = process_word(word) }` from cache contents
      `store`; the first error stops the loop. */
  function RunWords(store: map<string, Value>, fetch: string -> Option<ApiData>, words: seq<string>): Run
    decreases |words|
  {
    if words == [] then Run(map[], store, [], None)
    else
      var prev := RunWords(store, fetch, words[..|words| - 1]);
      if prev.error.Some? then prev
      else
        var word := words[|words| - 1];
        var step := ProcessWordStep(prev.store, fetch, word);
        var fetched := prev.fetched + (if step.fetched then [word] else []);
        match step.score
        case Ok(v) => Run(prev.results[word := v], step.store, fetched, None)
        case Err(e) => Run(prev.results, step.store, fetched, Some(e))
  }

  /** What `perform` ends with: the results were saved, or the error was re-raised. */
  datatype JobOutcome = Saved | Raised(error: ScoreError)

  /** `perform(words, batch_key)`. */
  method Perform(cache: Cache, words: seq<string>, batchKey: string, fetch: string -> Option<ApiData>)
    returns (outcome: JobOutcome, fetched: seq<string>)
    modifies cache
    ensures var run := RunWords(old(cache.entries), fetch, words);
      && fetched == run.fetched
      && (run.error.None? ==>
            outcome == Saved && cache.entries == WithResults(run.store, batchKey, Table(run.results)))
      && (run.error.Some? ==>
            outcome == Raised(run.error.value) && cache.entries == WithMarker(run.store, batchKey, FailedMarker))
  {
    var results: map<string, Value> := map[];
    fetched := [];
    var i := 0;
    while i < |words|
      invariant 0 <= i <= |words|
      invariant RunWords(old(cache.entries), fetch, words[..i]) == Run(results, cache.entries, fetched, None)
    {
      RunExtend(old(cache.entries), fetch, words, i);
      var score, didFetch := ProcessWord(cache, words[i], fetch);
      if didFetch {
        fetched := fetched + [words[i]];
      }
      if score.Err? {
        ErrorStopsBatch(old(cache.entries), fetch, words, i + 1);
        MarkAsFailed(cache, batchKey);
        return Raised(score.error), fetched;
      }
      results := results[words[i] := score.value];
      i := i + 1;
    }
    assert words[..i] == words;
    SaveResults(cache, batchKey, Table(results));
    outcome := Saved;
  }

  /** One more word of the batch, after a prefix that raised nothing, is one call of
      `process_word`. */
  lemma RunExtend(store: map<string, Value>, fetch: string -> Option<ApiData>, words: seq<string>, i: nat)
    requires i < |words| && RunWords(store, fetch, words[..i]).error.None?
    ensures var prev := RunWords(store, fetch, words[..i]);
      var step := ProcessWordStep(prev.store, fetch, words[i]);
      var run := RunWords(store, fetch, words[..i + 1]);
      && run.store == step.store
      && run.fetched == prev.fetched + (if step.fetched then [words[i]] else [])
      && (step.score.Ok? ==> run.results == prev.results[words[i] := step.score.value] && run.error.None?)
      && (step.score.Err? ==> run.error == Some(step.score.error))
  {
    assert words[..i + 1][..i] == words[..i];
  }

  /** A batch whose first `k` words raised ends as that prefix did. */
  lemma ErrorStopsBatch(store: map<string, Value>, fetch: string -> Option<ApiData>, words: seq<string>, k: nat)
    requires k <= |words| && RunWords(store, fetch, words[..k]).error.Some?
    ensures RunWords(store, fetch, words) == RunWords(store, fetch, words[..k])
  {
    ErrorPersists(store, fetch, words[..k], words[k..]);
    assert words[..k] + words[k..] == words;
  }

  /** Once a word has raised, the later words are not processed. */
  lemma {:induction false} ErrorPersists(store: map<string, Value>, fetch: string -> Option<ApiData>,
                                         done: seq<string>, rest: seq<string>)
    requires RunWords(store, fetch, done).error.Some?
    ensures RunWords(store, fetch, done + rest) == RunWords(store, fetch, done)
    decreases |rest|
  {
    if rest == [] {
      assert done + rest == done;
    } else {
      var r := rest[..|rest| - 1];
      ErrorPersists(store, fetch, done, r);
      assert (done + rest)[..|done + rest| - 1] == done + r;
    }
  }

  /** Every entry already in `before` is still in `after`, unchanged. */
  predicate Extends(before: map<string, Value>, after: map<string, Value>) {
    forall k :: k in before ==> k in after && after[k] == before[k]
  }

  /** The job never overwrites or removes a cache entry, and every entry it adds is the
      cache key of a word it fetched. */
  lemma {:induction false} RunOnlyAddsFetchedScores(store: map<string, Value>,
                                                    fetch: string -> Option<ApiData>, words: seq<string>)
    ensures var run := RunWords(store, fetch, words);
      && Extends(store, run.store)
      && forall k :: k in run.store && k !in store ==> exists w :: w in run.fetched && k == CacheKeyFor(w)
    decreases |words|
  {
    if words != [] {
      var init := words[..|words| - 1];
      RunOnlyAddsFetchedScores(store, fetch, init);
      var prev := RunWords(store, fetch, init);
      var run := RunWords(store, fetch, words);
      if prev.error.None? {
        var w := words[|words| - 1];
        forall k | k in run.store && k !in store
          ensures exists v :: v in run.fetched && k == CacheKeyFor(v)
        {
          if k in prev.store {
            var v :| v in prev.fetched && k == CacheKeyFor(v);
            assert v in run.fetched;
          } else {
            assert w in run.fetched && k == CacheKeyFor(w);
          }
        }
      }
    }
  }

  /** On success the results hash has exactly the batch's words as keys. */
  lemma {:induction false} RunResultKeys(store: map<string, Value>, fetch: string -> Option<ApiData>,
                                         words: seq<string>)
    ensures var run := RunWords(store, fetch, words);
      run.error.None? ==> forall w :: w in run.results <==> w in words
    decreases |words|
  {
    if words != [] {
      var init := words[..|words| - 1];
      RunResultKeys(store, fetch, init);
      assert words == init + [words[|words| - 1]];
    }
  }

  /** On success each word's result is what the word cache holds for it afterwards, so two
      spellings that differ only in case get the same score. */
  lemma {:induction false} RunResultsCached(store: map<string, Value>, fetch: string -> Option<ApiData>,
                                            words: seq<string>)
    ensures var run := RunWords(store, fetch, words);
      run.error.None? ==>
        forall w :: w in run.results ==> Read(run.store, CacheKeyFor(w)) == Some(run.results[w])
    decreases |words|
  {
    if words != [] {
      var init := words[..|words| - 1];
      RunResultsCached(store, fetch, init);
      var prev := RunWords(store, fetch, init);
      var run := RunWords(store, fetch, words);
      if run.error.None? {
        var w := words[|words| - 1];
        var step := ProcessWordStep(prev.store, fetch, w);
        forall v | v in run.results ensures Read(run.store, CacheKeyFor(v)) == Some(run.results[v]) {
          if v != w && step.fetched {
            assert v in prev.results;
            assert CacheKeyFor(v) in prev.store;
          }
        }
      }
    }
  }

  /** Only words of the batch whose entry was missing when the job started are fetched; on
      success each of them has an entry afterwards. */
  lemma {:induction false} RunFetchedMissing(store: map<string, Value>, fetch: string -> Option<ApiData>,
                                             words: seq<string>)
    ensures var run := RunWords(store, fetch, words);
      && (forall v :: v in run.fetched ==> v in words && CacheKeyFor(v) !in store)
      && (run.error.None? ==> forall v :: v in run.fetched ==> CacheKeyFor(v) in run.store)
    decreases |words|
  {
    if words != [] {
      var init := words[..|words| - 1];
      RunFetchedMissing(store, fetch, init);
      RunOnlyAddsFetchedScores(store, fetch, init);
      assert words == init + [words[|words| - 1]];
    }
  }

  /** No cache entry is fetched twice, even for words that differ only in case. */
  lemma {:induction false} RunFetchedOnce(store: map<string, Value>, fetch: string -> Option<ApiData>,
                                          words: seq<string>)
    ensures var run := RunWords(store, fetch, words);
      forall i, j :: 0 <= i < j < |run.fetched| ==> CacheKeyFor(run.fetched[i]) != CacheKeyFor(run.fetched[j])
    decreases |words|
  {
    if words != [] {
      var init := words[..|words| - 1];
      RunFetchedOnce(store, fetch, init);
      RunFetchedMissing(store, fetch, init);
      var prev := RunWords(store, fetch, init);
      var run := RunWords(store, fetch, words);
      if prev.error.None? {
        var w := words[|words| - 1];
        forall i, j | 0 <= i < j < |run.fetched|
          ensures CacheKeyFor(run.fetched[i]) != CacheKeyFor(run.fetched[j])
        {
          assert run.fetched[i] == prev.fetched[i];
          if j >= |prev.fetched| {
            assert run.fetched[j] == w;
            assert prev.fetched[i] in prev.fetched;
          } else {
            assert run.fetched[j] == prev.fetched[j];
          }
        }
      }
    }
  }

  /** On success every word whose entry was missing when the job started had its entry
      fetched (under that spelling or another casing). */
  lemma {:induction false} RunMissingFetched(store: map<string, Value>, fetch: string -> Option<ApiData>,
                                             words: seq<string>)
    ensures var run := RunWords(store, fetch, words);
      run.error.None? ==> forall v :: v in words && CacheKeyFor(v) !in store ==>
        exists u :: u in run.fetched && CacheKeyFor(u) == CacheKeyFor(v)
    decreases |words|
  {
    if words != [] {
      var init := words[..|words| - 1];
      RunMissingFetched(store, fetch, init);
      RunOnlyAddsFetchedScores(store, fetch, init);
      var prev := RunWords(store, fetch, init);
      var run := RunWords(store, fetch, words);
      if run.error.None? {
        var w := words[|words| - 1];
        assert words == init + [w];
        forall v | v in words && CacheKeyFor(v) !in store
          ensures exists u :: u in run.fetched && CacheKeyFor(u) == CacheKeyFor(v)
        {
          if v in init {
            var u :| u in prev.fetched && CacheKeyFor(u) == CacheKeyFor(v);
            assert u in run.fetched;
          } else if CacheKeyFor(w) in prev.store {
            var u :| u in prev.fetched && CacheKeyFor(w) == CacheKeyFor(u);
            assert u in run.fetched;
          } else {
            assert w in run.fetched;
          }
        }
      }
    }
  }

  /** A word whose fetch raised and which was not cached scores 0 and has 0 cached. */
  lemma FailedFetchScoresZero(store: map<string, Value>, fetch: string -> Option<ApiData>, word: string)
    requires GetCachedScore(store, word).None? && fetch(word).None?
    ensures ProcessWordStep(store, fetch, word) == Step(Ok(Number(0)), store[CacheKeyFor(word) := Number(0)], true)
  {
  }

  /** A cached score is returned as is, even 0, without fetching or writing. */
  lemma CacheHitSkipsFetch(store: map<string, Value>, fetch: string -> Option<ApiData>, word: string)
    requires CacheKeyFor(word) in store
    ensures ProcessWordStep(store, fetch, word) == Step(Ok(store[CacheKeyFor(word)]), store, false)
  {
  }

  /** Data the scorer can count: every definition has both lists. */
  predicate Scorable(data: ApiData) {
    AllCountable(data.definitions.GetOr([]))
  }

  /** When every successful fetch returns data the scorer can count (as every result of
      `parse_response` is), the job never raises. */
  lemma {:induction false} ScorableDataNeverFails(store: map<string, Value>, fetch: string -> Option<ApiData>,
                                                  words: seq<string>)
    requires forall w :: fetch(w).Some? ==> Scorable(fetch(w).value)
    ensures RunWords(store, fetch, words).error.None?
    decreases |words|
  {
    if words != [] {
      ScorableDataNeverFails(store, fetch, words[..|words| - 1]);
      assert Scorable(NoDefinitions);
    }
  }

  /** Everything `parse_response` returns is scorable. */
  lemma ParsedDataScorable(data: Json)
    requires ParseResponse(data).Ok?
    ensures Scorable(ParseResponse(data).value)
  {
    var ds := ParseResponse(data).value.definitions.value;
    assert WellFormedOutput(ds);
  }

  /** Word cache keys are never job keys. */
  lemma WordKeysAreNotJobKeys(w: string, id: string)
    ensures CacheKeyFor(w) != StatusKey(id) && CacheKeyFor(w) != ResultKey(id)
  {
    assert CacheKeyFor(w)[0] == 'w';
    assert StatusKey(id)[0] == 'j' && ResultKey(id)[0] == 'j';
  }

  /** What the job reports afterwards. On success: `completed` with the results hash, and
      no marker. On failure: the stored result (if any) is untouched, so a job without one
      reports `failed`. */
  lemma JobOutcomeStatus(store: map<string, Value>, fetch: string -> Option<ApiData>, words: seq<string>,
                         batchKey: string)
    ensures var run := RunWords(store, fetch, words);
      && (run.error.None? ==>
            var after := WithResults(run.store, batchKey, Table(run.results));
            GetJobStatus(after, batchKey) == Some(Completed(Table(run.results)))
            && StatusKeyOf(batchKey) !in after)
      && (run.error.Some? ==>
            var after := WithMarker(run.store, batchKey, FailedMarker);
            GetResults(after, batchKey) == GetResults(store, batchKey)
            && (!ResultExists(store, batchKey) ==> GetJobStatus(after, batchKey) == Some(Failed)))
  {
    var run := RunWords(store, fetch, words);
    SavedResultsReportCompleted(run.store, batchKey, Table(run.results));
    if run.error.Some? {
      RunOnlyAddsFetchedScores(store, fetch, words);
      var rk := ResultKeyOf(batchKey);
      MarkerKeepsResults(run.store, batchKey, FailedMarker, batchKey);
      assert GetResults(run.store, batchKey) == GetResults(store, batchKey) by {
        if rk in run.store && rk !in store {
          var w :| w in run.fetched && rk == CacheKeyFor(w);
          WordKeysAreNotJobKeys(w, ExtractJobId(batchKey));
        }
      }
      if !ResultExists(store, batchKey) {
        MarkerReported(run.store, batchKey, FailedMarker);
      }
    }
  }

  /** An empty batch saves an empty hash and fetches nothing. */
  lemma EmptyBatch(store: map<string, Value>, fetch: string -> Option<ApiData>)
    ensures RunWords(store, fetch, []) == Run(map[], store, [], None)
  {
  }
}
