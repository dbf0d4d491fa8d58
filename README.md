# Word complexity API — a Dafny model

The word complexity API is a Rails service. A client posts a JSON array of English words and gets back a job id. A background job looks up each word in a dictionary API. It scores the word by its mean number of synonyms and antonyms per definition and stores the word-to-score table under the job. The client then polls the job id until the job reports `pending`, `completed` (with the table) or `failed`.

This project models the core of that service in Dafny:

- **The job status store** (`JobCacheService`). Each job has two keys: `job_status:<id>` holds the `pending`/`failed` marker and `job_result:<id>` holds the result. A stored result always wins over the marker. The store is `Rails.cache`, modelled as the class `RailsCache.Cache` over a `map<string, Value>`.
- **The content key of a batch** (`BatchKeyGenerator`). It is `"batch:"` followed by the first 16 hex digits of the SHA-256 of the comma-joined words. The job id is that key without its prefix.
- **The score and the per-word cache** (`WordProcessing`).
- **The worker** (`ComplexityScoreJob#perform`). It is a loop over the words: a cache hit is reused, and a miss is fetched, scored and cached. The table is saved at the end, and an error marks the job failed.
- **The dictionary response parser** (`DictionaryApiClient.parse_response`, `extract_words`). It runs over a JSON datatype.
- **Request validation** (`WordsForm`, `BaseForm`). `WordsForm` is a class with `words`, `rawRequestBody` and `errors` fields, and its validators append to `errors` step by step.
- **The two endpoints** (`ComplexityScoresController#show` and `#create`).
- **The error classifier** (`SimpleErrorHandling`) and **the locale selection** (`LocaleHelpers`).

Support modules model the handful of Ruby operations the code relies on:

- `Wrappers` (`nil` and raised exceptions as `Option`/`Result`);
- `RubyStrings` (`strip`, `blank?`, `downcase`, `sub`, `split(...).first`, `join`, `<=>`);
- `RubyArrays` (`uniq`, `sort`, `uniq.sort`);
- `Json` (parsed JSON values);
- `RailsCache`.

The outside world enters as parameters:

- the dictionary fetch is an oracle `string -> Option<ApiData>`, where `None` means the fetch raised;
- SHA-256's hexdigest is a function parameter, and its properties are proved under the assumption that it returns 64 lower-case hex digits;
- `JSON.parse` of the request body is part of the input (`WordsForm.RequestBody.parsed`);
- the clock (the error timestamp) is a parameter;
- the available and default locales are parameters.

## Model

| member | source | states |
|---|---|---|
| RailsCache.Read | app/services/job_cache_service.rb:44-47 | `Rails.cache.read` is `nil` exactly for a missing key, and otherwise the stored value |
| RailsCache.Cache.Write | app/services/job_cache_service.rb:28-31 | a write replaces the one key and nothing else |
| RailsCache.Cache.Delete | app/services/job_cache_service.rb:41 | a delete removes the one key and nothing else |
| JobCacheService.GetResults | app/services/job_cache_service.rb:44-47 | `get_results` is non-nil exactly when `result_exists?` holds |
| JobCacheService.GetJobStatus | app/services/job_cache_service.rb:13-26 | the job reports `completed` exactly when a result is stored, and then with that stored result |
| JobCacheService.MarkAsPending | app/services/job_cache_service.rb:28-31 | the store afterwards is the old store with `job_status:<id>` set to `'pending'` |
| JobCacheService.MarkAsFailed | app/services/job_cache_service.rb:33-36 | the store afterwards is the old store with `job_status:<id>` set to `'failed'` |
| JobCacheService.SaveResults | app/services/job_cache_service.rb:38-42 | the result is written under `job_result:<id>`, then `job_status:<id>` is deleted |
| JobCacheService.KeyNamespacesDisjoint | app/services/job_cache_service.rb:55-61 | no status key equals any result key |
| JobCacheService.KeysInjective | app/services/job_cache_service.rb:55-61 | distinct job ids have distinct status keys and distinct result keys |
| JobCacheService.SavedResultsReportCompleted | app/services/job_cache_service.rb:13-42 | after `save_results(k, r)` the job reports `completed` with `r` (an empty table included), `get_results` gives `r`, and the marker is gone, whatever was stored before |
| JobCacheService.ResultShadowsMarker | app/services/job_cache_service.rb:16-17 | once a result exists, writing any marker does not change what the job reports |
| JobCacheService.MarkerReported | app/services/job_cache_service.rb:19-25 | without a result, the job reports `pending` iff the marker is `'pending'`, `failed` iff it is `'failed'`, and `nil` iff it is anything else |
| JobCacheService.UnknownJobNotFound | app/services/job_cache_service.rb:13-26 | a job with neither entry reports `nil` |
| JobCacheService.MarkerKeepsResults | app/services/job_cache_service.rb:28-47 | marking any job never changes any job's `get_results`, and so never changes `result_exists?` |
| JobCacheService.LastMarkerWins | app/services/job_cache_service.rb:28-36 | two marker writes leave the same store as the second one alone |
| JobCacheService.SaveResultsIndependent | app/services/job_cache_service.rb:38-42 | saving results for one job id leaves what every other job reports unchanged |
| JobCacheService.MarkerIndependent | app/services/job_cache_service.rb:28-36 | marking one job id leaves what every other job reports unchanged |
| JobCacheService.BatchKeyAddressesJob | app/services/job_cache_service.rb:51-61 | `"batch:" + id` addresses `job_status:` + id and `job_result:` + id |
| BatchKeyGenerator.GenerateShape | app/services/batch_key_generator.rb:10-13 | a generated key is 22 characters: `"batch:"` then the digest's first 16 characters, all lower-case hex |
| BatchKeyGenerator.ExtractJobIdRoundTrip | app/services/batch_key_generator.rb:15-17 | stripping the prefix undoes adding it, for every suffix, the empty one included |
| BatchKeyGenerator.ExtractJobIdWithoutPrefix | app/services/batch_key_generator.rb:16 | a key without `"batch:"` is returned unchanged |
| BatchKeyGenerator.ExtractJobIdRemovesOnlyFirst | app/services/batch_key_generator.rb:16 | `sub` removes only the first `"batch:"` |
| BatchKeyGenerator.GeneratedJobId | app/services/batch_key_generator.rb:10-17 | the job id of a generated key is the 16-digit lower-case hex prefix of the digest |
| BatchKeyGenerator.JoinInjective | app/services/batch_key_generator.rb:11 | on non-empty lists of comma-free words, equal joins mean equal lists |
| BatchKeyGenerator.JoinOfEmptyWord | app/services/batch_key_generator.rb:11 | the non-empty condition is needed: `[]` and `[""]` join to the same string |
| WordProcessing.RoundHundredths | app/services/word_processing.rb:17 | the result is the exact quotient in hundredths, rounded half up |
| WordProcessing.CalculateScoreFromData | app/services/word_processing.rb:10-18 | the score raises exactly when some definition lacks a synonym or antonym list |
| WordProcessing.ScoreIsMean | app/services/word_processing.rb:14-17 | when every definition contributes between `lo` and `hi` words, the score lies between `lo` and `hi` |
| WordProcessing.CountsBetween | app/services/word_processing.rb:14-15 | the two sums over the definitions add up to the definitions' sizes, bounded by `lo` and `hi` per definition |
| WordProcessing.NoDefinitionsScoreZero | app/services/word_processing.rb:11-12 | missing, `nil` or empty definitions score exactly 0 |
| WordProcessing.ScoreExample | spec/services/word_processing_spec.rb:14-30 | (2+1+1+2)/2 scores 3.00 |
| WordProcessing.RoundsHalfUp | app/services/word_processing.rb:17 | 1/8 = 0.125 rounds to 0.13 |
| WordProcessing.CacheWordScore | app/services/word_processing.rb:24-26 | the cache afterwards is the old cache with `word_score:<lower-cased word>` set to the score, and nothing else changed |
| WordProcessing.CacheKeyCaseInsensitive | app/services/word_processing.rb:28-30 | two words share a cache entry iff they are equal after lower-casing |
| WordProcessing.CacheKeyExamples | spec/services/word_processing_spec.rb:93-105 | `Hello` maps to `word_score:hello` and `WORLD` to `word_score:world` |
| WordProcessing.CachedScoreReadBack | app/services/word_processing.rb:20-26 | after caching a score, every casing of the word reads it back, and every other word reads what it read before (`nil` if never written) |
| ComplexityScoreJob.ProcessWord | app/jobs/complexity_score_job.rb:35-51 | `process_word` ends with the score (or the error), cache and fetch flag given by `ProcessWordStep` on the old cache |
| ComplexityScoreJob.ErrorStopsBatch | app/jobs/complexity_score_job.rb:16-24 | a batch whose prefix raised ends as that prefix did: the later words are not processed |
| ComplexityScoreJob.Perform | app/jobs/complexity_score_job.rb:11-31 | on success the results table of `RunWords` is saved under the batch key; on an error the cache is as `RunWords` left it plus the `'failed'` marker, and the error is re-raised |
| ComplexityScoreJob.ErrorPersists | app/jobs/complexity_score_job.rb:16-24 | once a word raises, no later word is processed |
| ComplexityScoreJob.RunOnlyAddsFetchedScores | app/jobs/complexity_score_job.rb:35-51 | the job never overwrites or removes a cache entry, and every entry it adds is the key of a fetched word |
| ComplexityScoreJob.RunResultKeys | app/jobs/complexity_score_job.rb:14-21 | on success the saved table's keys are exactly the batch's words |
| ComplexityScoreJob.RunResultsCached | app/jobs/complexity_score_job.rb:16-50 | on success each word's result is what the word cache holds for it afterwards |
| ComplexityScoreJob.RunFetchedMissing | app/jobs/complexity_score_job.rb:37-41 | only batch words whose entry was missing at the start are fetched, and on success each of them is cached |
| ComplexityScoreJob.RunFetchedOnce | app/jobs/complexity_score_job.rb:37-48 | no cache entry is fetched twice, even for words that differ only in case |
| ComplexityScoreJob.RunMissingFetched | app/jobs/complexity_score_job.rb:37-48 | on success every word that was missing at the start had its entry fetched |
| ComplexityScoreJob.FailedFetchScoresZero | app/jobs/complexity_score_job.rb:53-58 | a failed fetch of an uncached word scores 0 and caches 0 |
| ComplexityScoreJob.CacheHitSkipsFetch | app/jobs/complexity_score_job.rb:36-38 | a cached score, even 0, is returned without a fetch or a write |
| ComplexityScoreJob.ScorableDataNeverFails | app/jobs/complexity_score_job.rb:24-31 | when every fetch returns countable data, the job does not fail |
| ComplexityScoreJob.ParsedDataScorable | app/requests/dictionary_api_client.rb:26-48 | everything `parse_response` returns is countable data |
| ComplexityScoreJob.WordKeysAreNotJobKeys | app/services/word_processing.rb:28-30 | word cache keys never collide with job keys |
| ComplexityScoreJob.JobOutcomeStatus | app/jobs/complexity_score_job.rb:21-28 | on success the job then reports `completed` with the saved table and no marker; on failure stored results are untouched and a job without a result reports `failed` |
| ComplexityScoreJob.EmptyBatch | spec/jobs/complexity_score_job_spec.rb:100-106 | an empty batch processes nothing, fetches nothing and keeps the cache |
| DictionaryApiClient.PresentStringsMembers | app/requests/dictionary_api_client.rb:50-54 | the kept elements are exactly the non-blank strings of the list |
| DictionaryApiClient.ExtractWordsMembers | app/requests/dictionary_api_client.rb:50-54 | `extract_words` keeps exactly the non-blank strings of an array, and a non-array gives `[]` |
| DictionaryApiClient.ExtractWordsExample | spec/requests/dictionary_api_client_spec.rb:241-267 | `['valid', '', nil, 'another', 123, 'word']` gives `['valid', 'another', 'word']` |
| DictionaryApiClient.ParseDefinitions | app/requests/dictionary_api_client.rb:36-44 | one output per definition, each with both word lists |
| DictionaryApiClient.ParseResponse | app/requests/dictionary_api_client.rb:26-48 | a parsed response always has a definitions list, and every definition has both word lists |
| DictionaryApiClient.EmptyResponses | app/requests/dictionary_api_client.rb:27-30 | nil, blank and non-array responses, and a first entry without truthy `meanings`, give `{definitions: []}` |
| DictionaryApiClient.OnlyFirstEntryRead | app/requests/dictionary_api_client.rb:29 | entries after the first do not change the result |
| DictionaryApiClient.MeaningWithoutDefinitions | app/requests/dictionary_api_client.rb:35-45 | a meaning without `definitions` contributes nothing |
| DictionaryApiClient.ParseWellFormed | app/requests/dictionary_api_client.rb:32-45 | on a well-formed response the parser returns the reference flattening: every definition of every meaning, in order, merged with its meaning's words |
| DictionaryApiClient.FlattenCount | app/requests/dictionary_api_client.rb:32-45 | the output has one element per nested definition |
| DictionaryApiClient.MergedWords | app/requests/dictionary_api_client.rb:41-42 | a merged list has no duplicates, holds exactly the non-blank words of both levels, and starts with the definition's own words |
| DictionaryApiClient.MergedDefinitionWords | app/requests/dictionary_api_client.rb:37-43 | each synonym and antonym list of the output merges the definition-level and meaning-level words |
| DictionaryApiClient.RepeatedWordsKeptOnce | spec/requests/dictionary_api_client_spec.rb:186-200 | words repeated at both levels appear once, in first-occurrence order |
| BaseForm.ValidUuidPositions | app/forms/base_form.rb:34-37 | `valid_uuid?` holds iff the string has 36 characters, dashes at positions 8, 13, 18 and 23, and hex digits elsewhere |
| BaseForm.ValidUuidCaseInsensitive | app/forms/base_form.rb:35 | the check ignores case |
| BaseForm.ValidUuidOfGroups | app/forms/base_form.rb:35 | any 8-4-4-4-12 hex groups joined by dashes pass |
| BaseForm.ValidUuidLowerExample | spec/forms/base_form_spec.rb:38-51 | a lower-case UUID passes |
| BaseForm.ValidUuidUpperExample | spec/forms/base_form_spec.rb:38-51 | an upper-case UUID passes |
| BaseForm.ValidUuidRejects | spec/forms/base_form_spec.rb:38-51 | a malformed, a short, a long and an empty string fail, and so does `nil` |
| BaseForm.ValidWordFormatSpec | app/forms/base_form.rb:40-46 | a word passes iff it has 1 to 50 characters, all letters, `-`, `'` or whitespace, and at least one that is not whitespace |
| BaseForm.ValidWordHasContent | app/forms/base_form.rb:41 | a valid word has a character that `strip` keeps |
| BaseForm.ValidWordFormatExamples | spec/forms/base_form_spec.rb:53-69 | `hello`, `world's`, `co-operation` and `multiple words` pass |
| BaseForm.ValidWordFormatRejects | spec/forms/base_form_spec.rb:53-69 | the empty word, `nil`, 51 letters, `inv@lid`, `word123` and `word!` fail |
| BaseForm.TruncateSpec | app/forms/base_form.rb:52 | a string within the limit is kept; a longer one is cut to the limit (at least 3), ending in `...` after a prefix of the original |
| BaseForm.SanitizeStringSpec | app/forms/base_form.rb:49-53 | the result is `nil` iff the input is `nil` or blank; otherwise it is the stripped value, or, when that is too long, a value exactly `max_length` long |
| BaseForm.SanitizeValidWord | app/forms/base_form.rb:40-53 | sanitising a valid word strips it and leaves it valid |
| BaseForm.SanitizeBlankExamples | spec/forms/base_form_spec.rb:77-81 | empty, `nil` and whitespace-only input give `nil` |
| BaseForm.SanitizeStripExample | spec/forms/base_form_spec.rb:72-75 | `"  hello world  "` gives `"hello world"` |
| BaseForm.SanitizeKeepExample | spec/forms/base_form_spec.rb:72-75 | `"test"` is kept |
| BaseForm.TruncateLongExample | spec/forms/base_form_spec.rb:83-88 | 300 characters with limit 100 give 100 characters ending in `...` |
| BaseForm.NulOnlySanitizesToEmpty | app/forms/base_form.rb:50-52 | a lone NUL is not blank, but `strip` removes it, so the result is the empty string |
| WordsForm.Texts | app/forms/words_form.rb:28 | the strings of an all-string array, position by position |
| WordsForm.TypeErrorsSpec | app/forms/words_form.rb:58-64 | every non-string element, and only those, adds one error naming its position and class; with no errors all elements are strings |
| WordsForm.InvalidWordsSpec | app/forms/words_form.rb:75-97 | the invalid-word list names exactly the string positions whose word fails, each with its reason |
| WordsForm.ReasonForSpec | app/forms/words_form.rb:81-89 | a word has no reason iff it passes `valid_word_format?`; the reason is `empty` iff the word is blank; `too short` never occurs |
| WordsForm.CountLimit | app/forms/words_form.rb:67-73 | at most 100 words pass; more give one error with the received count |
| WordsForm.ValidIff | app/forms/words_form.rb:33-97 | validation finds no error iff the request is acceptable by the reference definition, and the checked words are the body's array when a body is present |
| WordsForm.ValidatedWords | app/forms/words_form.rb:53-97 | after a clean validation the words are a non-empty array of at most 100 valid strings |
| WordsForm.SanitizeAccepted | app/forms/words_form.rb:18-21 | sanitising valid words strips each of them in place, keeping them all and keeping them valid |
| WordsForm.SortedTextsSpec | app/forms/words_form.rb:28 | `uniq.sort` is strictly increasing with exactly the array's strings |
| WordsForm.ProcessedSpec | app/forms/words_form.rb:25-29 | `processed_words` is `[]` for an invalid form; it is always strictly increasing, and otherwise holds exactly the valid words checked |
| WordsForm.SubmittedWordsPassAgain | app/forms/words_form.rb:16-23 | the sanitised words of a valid form pass validation again |
| WordsForm.ProcessedAfterSubmitReparses | app/forms/words_form.rb:25-45 | with a raw body, `processed_words` after `submit` re-parses the body, so it equals `processed_words` before `submit` |
| WordsForm.BodyWordsAfterSubmit | app/forms/words_form.rb:16-45 | for a body holding valid words, `submit` stores the stripped words, but `processed_words` returns the body's unstripped words, de-duplicated and sorted |
| WordsForm.PaddedWordInBody | app/forms/words_form.rb:20-45 | a body `[" happy "]` is submitted as `["happy"]` and processed as `[" happy "]` |
| WordsForm.PaddedWordSanitized | app/forms/words_form.rb:20 | `" happy "` sanitises to `"happy"` |
| WordsForm.SingleWordSorted | app/forms/words_form.rb:28 | `uniq.sort` of one word is that word |
| WordsForm.ProcessedAfterSubmitKeepsStripping | app/forms/words_form.rb:16-29 | without a raw body, `processed_words` after `submit` is the stripped words, de-duplicated and sorted |
| WordsForm.SortedSanitizedWords | app/forms/words_form.rb:18-28 | those processed words are exactly the stripped input words |
| WordsForm.BlankWordsErrors | spec/forms/words_form_spec.rb:55-74 | no words gives "required", an empty array gives "cannot be empty", and an empty body counts as no body |
| WordsForm.NotArrayErrors | spec/forms/words_form_spec.rb:55-74 | a non-array gives "must be an array" and nothing else |
| WordsForm.NonStringErrors | spec/forms/words_form_spec.rb:84-89 | `["valid", 123, "word"]` gives one type error at position 1 naming `Integer` |
| WordsForm.BodyErrorExamples | spec/forms/words_form_spec.rb:121-149 | a JSON object body gives "must be a JSON array", unparseable JSON gives "Invalid JSON format", each followed by "Words array is required" |
| WordsForm.Form.constructor | app/forms/words_form.rb:8-9 | a new form holds the given words and raw body and no errors |
| WordsForm.Form.ParseJsonBody | app/forms/words_form.rb:41-51 | the words become the parsed array, or an error is added for a non-array or unparseable body |
| WordsForm.Form.ValidateRawRequestBody | app/forms/words_form.rb:33-39 | a blank body with blank words adds "required"; a present body is parsed; the raw body is unchanged |
| WordsForm.Form.ValidateWordsArray | app/forms/words_form.rb:53-65 | the loop appends exactly the array check's errors, first failed check only, then one per non-string element |
| WordsForm.Form.ValidateWordsCount | app/forms/words_form.rb:67-73 | appends exactly the count error, if any |
| WordsForm.Form.ValidateWordsFormat | app/forms/words_form.rb:75-97 | the loop appends one error listing exactly the invalid words of the array, if any |
| WordsForm.Form.Valid | app/forms/base_form.rb:9-11 | `valid?` leaves the words and errors of `Validate` and answers whether there are no errors |
| WordsForm.Form.Submit | app/forms/words_form.rb:16-23 | `submit` answers whether the form is valid; only then the words are replaced by their sanitised strings |
| WordsForm.Form.ProcessedWords | app/forms/words_form.rb:25-29 | `processed_words` re-validates and returns `[]` or the checked words' `uniq.sort` |
| ComplexityScoresController.ValidJobIdSpec | app/controllers/complexity_scores_controller.rb:59-61 | an id is valid iff it is exactly 16 hex digits in either case; the presence check adds nothing |
| ComplexityScoresController.GeneratedIdValid | app/controllers/complexity_scores_controller.rb:21-61 | every id `create` hands out passes `valid_job_id?` |
| ComplexityScoresController.ShowInvalidId | app/controllers/complexity_scores_controller.rb:7 | an invalid id is answered 400 whatever the store holds |
| ComplexityScoresController.ShowStatusMapping | app/controllers/complexity_scores_controller.rb:9-44 | for a valid id: 404 iff unknown, 200 iff pending or completed (with the stored result), 422 iff failed |
| ComplexityScoresController.ShowReadsJobEntries | app/controllers/complexity_scores_controller.rb:9-10 | `show` depends only on the job's two entries |
| ComplexityScoresController.UpperCaseIdAddressesOtherEntries | app/controllers/complexity_scores_controller.rb:9 | an upper-case id is valid but addresses different keys from its lower-case form |
| ComplexityScoresController.LowerCaseIdValid | app/controllers/complexity_scores_controller.rb:59-61 | lower-casing a valid id keeps it valid |
| ComplexityScoresController.JobQueue.PerformLater | app/controllers/complexity_scores_controller.rb:27 | the job is appended to the queue |
| ComplexityScoresController.Create | app/controllers/complexity_scores_controller.rb:17-31 | the cache, queue and answer after `create` are those of `CreateSpec` on the old cache and queue |
| ComplexityScoresController.CreateRejects | app/controllers/complexity_scores_controller.rb:19-57 | an invalid body is answered 422 "Validation failed" with its non-empty error list; nothing is written or enqueued |
| ComplexityScoresController.CreateAccepts | app/controllers/complexity_scores_controller.rb:21-30 | a valid body is answered 202 with the job id; exactly one job is enqueued iff no result exists; no key but the status key changes |
| ComplexityScoresController.CreateThenShow | app/controllers/complexity_scores_controller.rb:4-31 | after `create`, `show` with the returned id reports pending, or completed with the result already stored |
| ComplexityScoresController.BatchWordsOfBody | app/controllers/complexity_scores_controller.rb:21 | the batch words are the body's strings, de-duplicated and sorted |
| ComplexityScoresController.SameWordSetSameKey | app/controllers/complexity_scores_controller.rb:21-23 | two valid bodies with the same set of words get the same batch key, and so the same job id |
| ComplexityScoresController.ResubmitWhilePending | app/controllers/complexity_scores_controller.rb:25-28 | a resubmission while pending enqueues the same job again, with the same store and the same answer |
| SimpleErrorHandling.HandleErrorBody | app/controllers/concerns/simple_error_handling.rb:28-36 | every answer has `success: false` and repeats the HTTP status and the classification |
| SimpleErrorHandling.ClassifyStatus | app/controllers/concerns/simple_error_handling.rb:13-26 | 400 iff a missing parameter or bad JSON; 503 iff a Redis error that is neither; 504 iff only a timeout; 500 iff none of the four |
| SimpleErrorHandling.RedisTimeoutIsServiceUnavailable | app/controllers/concerns/simple_error_handling.rb:18-21 | the first match wins: a Redis error that is also a timeout is 503 |
| SimpleErrorHandling.MissingParameterMessage | app/controllers/concerns/simple_error_handling.rb:14-15 | the message is `"Missing parameter: "` followed by the parameter name, which can be read back |
| SimpleErrorHandling.CodeFixesAnswer | app/controllers/concerns/simple_error_handling.rb:13-26 | each of the five codes comes with one status and, but for `missing_parameter`, one message |
| SimpleErrorHandling.CodeDeterminesAnswer | app/controllers/concerns/simple_error_handling.rb:13-26 | the code determines the status, and for every code but `missing_parameter` the message |
| LocaleHelpers.SetLocale | app/controllers/concerns/locale_helpers.rb:10-13 | `I18n.locale` becomes the requested locale |
| LocaleHelpers.ExplicitLocaleSpec | app/controllers/concerns/locale_helpers.rb:21-29 | the explicit locale is available, and is the parameter when one is given, else `X-Locale` |
| LocaleHelpers.ParamShadowsXLocale | app/controllers/concerns/locale_helpers.rb:22 | a given parameter, even an unavailable one, hides `X-Locale` |
| LocaleHelpers.HeaderLocaleSpec | app/controllers/concerns/locale_helpers.rb:31-40 | the header rule gives an available locale or the default; the default without a header; the first language when it is available |
| LocaleHelpers.FirstLanguageSpec | app/controllers/concerns/locale_helpers.rb:36 | the first language is a prefix of the header without a comma or a hyphen |
| LocaleHelpers.FirstLanguageExamples | app/controllers/concerns/locale_helpers.rb:36 | `en-US,en;q=0.9` gives `en`; `ru` gives `ru` |
| LocaleHelpers.FirstLanguageEdgeCases | app/controllers/concerns/locale_helpers.rb:36 | `""` and `"-"` give `nil`; `-US` gives `""` |
| LocaleHelpers.SplitFirstOfJoin | app/controllers/concerns/locale_helpers.rb:36 | the first field of a non-empty, separator-free prefix followed by the separator is that prefix |
| LocaleHelpers.RequestedLocaleSpec | app/controllers/concerns/locale_helpers.rb:11-12 | a locale is always assigned, available or the default, and an available explicit locale wins over `Accept-Language` |
| RubyStrings.StripSpec | app/forms/base_form.rb:52 | `strip` keeps a contiguous piece that does not start or end with whitespace, and removes only whitespace around it |
| RubyStrings.StripPadded | app/forms/base_form.rb:52 | `strip` removes exactly the padding around a word |
| RubyStrings.Downcase | app/services/word_processing.rb:29 | the ASCII lower-casing changes each character in place |
| RubyStrings.FieldEnd | app/controllers/concerns/locale_helpers.rb:36 | the first field ends at the first separator, or at the string's end |
| RubyArrays.Uniq | app/requests/dictionary_api_client.rb:41-42 | `uniq` has no duplicates and the input's elements |
| RubyArrays.UniqPrefix | app/requests/dictionary_api_client.rb:41-42 | appending elements never reorders or drops what `uniq` kept |
| RubyArrays.Sort | app/forms/words_form.rb:28 | `sort` is a sorted permutation |
| RubyArrays.UniqSortSpec | app/forms/words_form.rb:28 | `uniq.sort` is strictly increasing with exactly the input's elements |
| RubyArrays.UniqSortSetDetermined | app/forms/words_form.rb:28 | `uniq.sort` depends only on the set of elements |
| RubyArrays.IncreasingUnique | app/forms/words_form.rb:28 | two strictly increasing arrays with the same elements are equal |

## Left out

- `DictionaryApiClient.fetch` is an HTTP call with a timeout. It is an oracle parameter of the job: data, or `None` when the fetch raised.
- SHA-256 is a function parameter. The format lemmas require it to return 64 lower-case hex digits; collision resistance is not modelled.
- Cache expiry (`expires_in`) is not modelled as time. `RailsCache.Cache.Delete` is the only deletion, and every reader sees a deleted key as missing.
- ActiveJob scheduling is outside the model: `queue_as`, `retry_on` and real `perform_later`. A queued job is a record in `JobQueue`, and concurrent or duplicate submissions are not interleaved.
- Redis and cache backend failures are not a failure source inside the model. Their classification in `SimpleErrorHandling` is modelled.
- `Rails.logger` calls are not modelled.
- Rendering and ActiveModel internals are not modelled: `render`, `render_error`, `formatted_errors` and `error_details`, error message translation. Errors are plain datatypes. `ComplexityScoresController.Create` answers with the form's error list rather than the formatted summary strings.
- `current_locale`, `response_helpers.rb`, `batch_cache_service.rb`, the configuration files and the Swagger helper are not part of this model.
- WordProcessing.CalculateScoreFromData: the score is a natural number of hundredths, rounded half up on the exact quotient. It is not an IEEE double rounded by `Float#round(2)`.
- RubyStrings.Blank: only ASCII whitespace counts as blank; the Unicode part of `[[:space:]]` is not modelled.
- RubyStrings.Downcase: only ASCII letters are lower-cased; Unicode case mapping is not modelled.
- RubyStrings.Strip: removes ASCII whitespace and NUL only.
- Json.ClassName: every JSON number is named `Integer`; JSON numbers are whole numbers in this model, so Ruby's `Float` class name for a fractional number does not occur.
- DictionaryApiClient.ParseResponse: a lookup on a value of the wrong shape is one error, not Ruby's distinct `NoMethodError` and `TypeError`.
- SimpleErrorHandling.HandleError: the timestamp is the parameter `now`, not `Time.current.iso8601`.
- LocaleHelpers.SetLocale: locales are their names; `to_sym` is the identity.
