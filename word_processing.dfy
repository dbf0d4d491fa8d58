/** The complexity score of a word and its per-word cache entry. The score is the mean
    number of synonyms and antonyms per definition, rounded to two decimals; the model
    counts it in hundredths and rounds the exact mean half up. */
module WordProcessing {
  import opened Wrappers
  import opened RubyStrings
  import opened RailsCache

  /** One entry of `api_data[:definitions]`: `{synonyms: [...], antonyms: [...]}`. Either
      list may be absent (`nil`) in data that did not come from the dictionary client. */
  datatype DefinitionData = DefinitionData(synonyms: Option<seq<string>>, antonyms: Option<seq<string>>)

  /** `{definitions: [...]}`; `definitions` may be missing or `nil`. */
  datatype ApiData = ApiData(definitions: Option<seq<DefinitionData>>)

  /** `d[:synonyms].count` on a `nil` list raises `NoMethodError`. */
  datatype ScoreError = NoMethodError

  /** A definition whose two lists both exist, so that `.count` succeeds on them. */
  predicate Countable(d: DefinitionData) {
    d.synonyms.Some? && d.antonyms.Some?
  }

  predicate AllCountable(ds: seq<DefinitionData>) {
    forall i :: 0 <= i < |ds| ==> Countable(ds[i])
  }

  /** The number of words one definition contributes. */
  function Size(d: DefinitionData): nat
    requires Countable(d)
  {
    |d.synonyms.value| + |d.antonyms.value|
  }

  /** `definitions.sum { |d| d[:synonyms].count }`. */
  function SynonymsCount(ds: seq<DefinitionData>): nat
    requires AllCountable(ds)
    decreases |ds|
  {
    if ds == [] then 0 else |ds[0].synonyms.value| + SynonymsCount(ds[1..])
  }

  /** `definitions.sum { |d| d[:antonyms].count }`. */
  function AntonymsCount(ds: seq<DefinitionData>): nat
    requires AllCountable(ds)
    decreases |ds|
  {
    if ds == [] then 0 else |ds[0].antonyms.value| + AntonymsCount(ds[1..])
  }

  /** `(total.to_f / n).round(2)`, in hundredths: the exact quotient `100 * total / n`
      rounded half up. */
  function RoundHundredths(total: nat, n: nat): (r: nat)
    requires n > 0
    ensures 2 * n * r <= 200 * total + n < 2 * n * (r + 1)
  {
    var r := (200 * total + n) / (2 * n);
    DivisionBounds(200 * total + n, 2 * n);
    r
  }

  lemma DivisionBounds(a: nat, b: nat)
    requires b > 0
    ensures b * (a / b) <= a < b * (a / b + 1)
  {
  }

  /** `calculate_score_from_data(api_data)`. */
  function CalculateScoreFromData(data: ApiData): (r: Result<nat, ScoreError>)
    ensures r.Err? <==> !AllCountable(data.definitions.GetOr([]))
  {
    var ds := data.definitions.GetOr([]);
    if |ds| == 0 then Ok(0)
    else if !AllCountable(ds) then Err(NoMethodError)
    else Ok(RoundHundredths(SynonymsCount(ds) + AntonymsCount(ds), |ds|))
  }

  /** The two sums together add up each definition's size. */
  lemma {:induction false} CountsBetween(ds: seq<DefinitionData>, lo: nat, hi: nat)
    requires AllCountable(ds)
    requires forall i :: 0 <= i < |ds| ==> lo <= Size(ds[i]) <= hi
    ensures lo * |ds| <= SynonymsCount(ds) + AntonymsCount(ds) <= hi * |ds|
    decreases |ds|
  {
    if ds != [] {
      var rest := ds[1..];
      assert AllCountable(rest) by {
        forall i | 0 <= i < |rest| ensures Countable(rest[i]) {
          assert rest[i] == ds[i + 1];
        }
      }
      forall i | 0 <= i < |rest| ensures lo <= Size(rest[i]) <= hi {
        assert rest[i] == ds[i + 1];
      }
      CountsBetween(rest, lo, hi);
      assert lo <= Size(ds[0]) <= hi;
      assert lo * |ds| == lo * |rest| + lo;
      assert hi * |ds| == hi * |rest| + hi;
    }
  }

  /** The score is a mean: when every definition contributes between `lo` and `hi` words,
      the score lies between `lo` and `hi` (in hundredths). With `lo == hi` it is exact. */
  lemma ScoreIsMean(data: ApiData, lo: nat, hi: nat)
    requires data.definitions.Some? && |data.definitions.value| > 0
    requires AllCountable(data.definitions.value)
    requires forall i :: 0 <= i < |data.definitions.value| ==>
      lo <= Size(data.definitions.value[i]) <= hi
    ensures CalculateScoreFromData(data).Ok?
    ensures 100 * lo <= CalculateScoreFromData(data).value <= 100 * hi
  {
    var ds := data.definitions.value;
    var n := |ds|;
    var total := SynonymsCount(ds) + AntonymsCount(ds);
    CountsBetween(ds, lo, hi);
    var r := CalculateScoreFromData(data).value;
    assert 2 * n * r <= 200 * total + n < 2 * n * (r + 1);
    MeanBounds(total, n, r, lo, hi);
  }

  /** Arithmetic behind `ScoreIsMean`. */
  lemma MeanBounds(total: nat, n: nat, r: nat, lo: nat, hi: nat)
    requires n > 0
    requires lo * n <= total <= hi * n
    requires 2 * n * r <= 200 * total + n < 2 * n * (r + 1)
    ensures 100 * lo <= r <= 100 * hi
  {
    var m := 2 * n;
    MulLe(200, total, hi * n);
    assert m * (100 * hi + 1) == 200 * (hi * n) + m;
    assert m * r < m * (100 * hi + 1);
    MulCancelLt(m, r, 100 * hi + 1);
    MulLe(200, lo * n, total);
    assert m * (100 * lo) == 200 * (lo * n);
    assert m * (100 * lo) < m * (r + 1);
    MulCancelLt(m, 100 * lo, r + 1);
  }

  lemma MulLe(c: nat, a: nat, b: nat)
    requires a <= b
    ensures c * a <= c * b
  {
  }

  lemma MulCancelLt(c: nat, a: nat, b: nat)
    requires c * a < c * b
    ensures a < b
  {
  }

  /** Missing, `nil` and empty definitions all score 0. */
  lemma NoDefinitionsScoreZero(data: ApiData)
    requires data.definitions.None? || data.definitions.value == []
    ensures CalculateScoreFromData(data) == Ok(0)
  {
  }

  /** Two definitions with 3 words each score 3.00. */
  lemma ScoreExample()
    ensures CalculateScoreFromData(ApiData(Some([
      DefinitionData(Some(["happy", "joyful"]), Some(["sad"])),
      DefinitionData(Some(["glad"]), Some(["unhappy", "depressed"]))]))) == Ok(300)
  {
    var ds := [
      DefinitionData(Some(["happy", "joyful"]), Some(["sad"])),
      DefinitionData(Some(["glad"]), Some(["unhappy", "depressed"]))];
    assert ds[1..][1..] == [];
    assert SynonymsCount(ds) == 3;
    assert AntonymsCount(ds) == 3;
  }

  /** A score exactly halfway between two hundredths rounds up: one word over eight
      definitions is 0.125, which becomes 0.13. */
  lemma RoundsHalfUp()
    ensures RoundHundredths(1, 8) == 13
  {
  }

  /** `cache_key_for(word)`. */
  function CacheKeyFor(word: string): string {
    "word_score:" + Downcase(word)
  }

  /** `get_cached_score(word)`. */
  function GetCachedScore(store: map<string, Value>, word: string): Option<Value> {
    Read(store, CacheKeyFor(word))
  }

  /** `cache_word_score(word, score)`. */
  method CacheWordScore(cache: Cache, word: string, score: nat)
    modifies cache
    ensures cache.entries == old(cache.entries)[CacheKeyFor(word) := Number(score)]
  {
    cache.Write(CacheKeyFor(word), Number(score));
  }

  /** Two words share a cache entry exactly when they are equal after lower-casing. */
  lemma CacheKeyCaseInsensitive(a: string, b: string)
    ensures CacheKeyFor(a) == CacheKeyFor(b) <==> Downcase(a) == Downcase(b)
  {
    assert CacheKeyFor(a)[11..] == Downcase(a);
    assert CacheKeyFor(b)[11..] == Downcase(b);
  }

  lemma CacheKeyExamples()
    ensures CacheKeyFor("Hello") == "word_score:hello"
    ensures CacheKeyFor("WORLD") == "word_score:world"
  {
    assert Downcase("Hello") == "hello";
    assert Downcase("WORLD") == "world";
  }

  /** A cached score is read back under every casing of the word, and caching it leaves
      the score of every other word unchanged. */
  lemma CachedScoreReadBack(store: map<string, Value>, word: string, score: nat, other: string)
    ensures var s := store[CacheKeyFor(word) := Number(score)];
      && (Downcase(other) == Downcase(word) ==> GetCachedScore(s, other) == Some(Number(score)))
      && (Downcase(other) != Downcase(word) ==> GetCachedScore(s, other) == GetCachedScore(store, other))
  {
    CacheKeyCaseInsensitive(other, word);
  }
}
