/** `DictionaryApiClient.parse_response` and `extract_words`: the parsed dictionary response
    (a JSON tree) becomes a flat list of definitions, each with the synonyms and antonyms of
    the definition merged with those of its meaning.

    The parser uses Ruby's dynamic lookups, so the model follows them on every shape of
    input: `x['key']` on a hash is a lookup, on a string it is a substring test, and on any
    other receiver it raises; `map`/`flat_map` work on arrays and hashes (whose elements are
    `[key, value]` pairs) and raise on anything else. A raise is `Err(Malformed)`. */
module DictionaryApiClient {
  import opened Wrappers
  import opened RubyStrings
  import opened RubyArrays
  import opened Json
  import opened WordProcessing

  /** `NoMethodError` or `TypeError` from a lookup on a value of the wrong shape. */
  datatype ParseError = Malformed

  /** `{definitions: []}`. */
  const NoDefinitions: ApiData := ApiData(Some([]))

  /** Ruby truthiness: everything but `nil` and `false`. */
  predicate Truthy(j: Json) {
    !(j.JNull? || j == JBool(false))
  }

  /** `j[key]` with a string key. */
  function Field(j: Json, key: string): Result<Json, ParseError> {
    match j
    case JObj(fields) => Ok(if key in fields then fields[key] else JNull)
    case JStr(s) => Ok(if FirstOccurrence(s, key).Some? then JStr(key) else JNull)
    case _ => Err(Malformed)
  }

  /** The non-blank strings among `items`, in order. */
  function PresentStrings(items: seq<Json>): seq<string>
    decreases |items|
  {
    if items == [] then []
    else
      var rest := PresentStrings(items[1..]);
      if items[0].JStr? && !Blank(items[0].s) then [items[0].s] + rest else rest
  }

  lemma {:induction false} PresentStringsMembers(items: seq<Json>)
    ensures forall x :: x in PresentStrings(items) <==> JStr(x) in items && !Blank(x)
    decreases |items|
  {
    if items != [] {
      PresentStringsMembers(items[1..]);
      assert items == [items[0]] + items[1..];
    }
  }

  /** `extract_words(words_array)`: the non-blank `String` elements of an array, in order;
      `[]` for anything that is not an array. */
  function ExtractWords(j: Json): seq<string> {
    match j
    case JArr(items) => PresentStrings(items)
    case _ => []
  }

  /** `extract_words` keeps exactly the non-blank strings of an array, and gives `[]` for
      anything else. */
  lemma ExtractWordsMembers(j: Json)
    ensures j.JArr? ==> forall x :: x in ExtractWords(j) <==> JStr(x) in j.items && !Blank(x)
    ensures !j.JArr? ==> ExtractWords(j) == []
  {
    if j.JArr? {
      PresentStringsMembers(j.items);
    }
  }

  /** What `parse_response` promises about every list it returns: each definition has both
      lists, and neither list repeats a word. */
  predicate WellFormedOutput(ds: seq<DefinitionData>) {
    forall i :: 0 <= i < |ds| ==>
      Countable(ds[i]) && NoDup(ds[i].synonyms.value) && NoDup(ds[i].antonyms.value)
  }

  lemma WellFormedConcat(a: seq<DefinitionData>, b: seq<DefinitionData>)
    requires WellFormedOutput(a) && WellFormedOutput(b)
    ensures WellFormedOutput(a + b)
  {
    forall i | 0 <= i < |a + b|
      ensures Countable((a + b)[i]) && NoDup((a + b)[i].synonyms.value) && NoDup((a + b)[i].antonyms.value)
    {
      if i < |a| {
        assert (a + b)[i] == a[i];
      } else {
        assert (a + b)[i] == b[i - |a|];
      }
    }
  }

  /** The definition-level block of `parse_response`: this definition's words first, then
      the meaning's, without repetitions. */
  function ParseDefinition(d: Json, meaningSynonyms: seq<string>, meaningAntonyms: seq<string>)
    : (r: Result<DefinitionData, ParseError>)
    ensures r.Ok? ==> WellFormedOutput([r.value])
  {
    match (Field(d, "synonyms"), Field(d, "antonyms"))
    case (Ok(s), Ok(a)) =>
      Ok(DefinitionData(Some(Uniq(ExtractWords(s) + meaningSynonyms)),
                        Some(Uniq(ExtractWords(a) + meaningAntonyms))))
    case _ => Err(Malformed)
  }

  /** `meaning['definitions'].map { ... }` over an array: one output per definition, in
      order; the first malformed definition raises. */
  function ParseDefinitions(ds: seq<Json>, meaningSynonyms: seq<string>, meaningAntonyms: seq<string>)
    : (r: Result<seq<DefinitionData>, ParseError>)
    ensures r.Ok? ==> |r.value| == |ds| && WellFormedOutput(r.value)
    decreases |ds|
  {
    if ds == [] then Ok([])
    else
      match (ParseDefinition(ds[0], meaningSynonyms, meaningAntonyms),
             ParseDefinitions(ds[1..], meaningSynonyms, meaningAntonyms))
      case (Ok(d), Ok(rest)) =>
        WellFormedConcat([d], rest);
        Ok([d] + rest)
      case _ => Err(Malformed)
  }

  /** `meaning['definitions']&.map { ... }`, with `compact` dropping the `nil` of a missing
      list: `nil` contributes nothing, an array is mapped, a hash is mapped over its
      `[key, value]` pairs (so only an empty hash gets through), anything else raises. */
  function DefinitionsOf(defs: Json, meaningSynonyms: seq<string>, meaningAntonyms: seq<string>)
    : (r: Result<seq<DefinitionData>, ParseError>)
    ensures r.Ok? ==> WellFormedOutput(r.value)
  {
    match defs
    case JNull => Ok([])
    case JArr(items) => ParseDefinitions(items, meaningSynonyms, meaningAntonyms)
    case JObj(fields) => if |fields| == 0 then Ok([]) else Err(Malformed)
    case _ => Err(Malformed)
  }

  /** The block of `flat_map` for one meaning. */
  function ParseMeaning(m: Json): (r: Result<seq<DefinitionData>, ParseError>)
    ensures r.Ok? ==> WellFormedOutput(r.value)
  {
    match (Field(m, "synonyms"), Field(m, "antonyms"), Field(m, "definitions"))
    case (Ok(s), Ok(a), Ok(d)) => DefinitionsOf(d, ExtractWords(s), ExtractWords(a))
    case _ => Err(Malformed)
  }

  /** `meanings.flat_map { ... }.compact` over an array of meanings. */
  function ParseMeanings(ms: seq<Json>): (r: Result<seq<DefinitionData>, ParseError>)
    ensures r.Ok? ==> WellFormedOutput(r.value)
    decreases |ms|
  {
    if ms == [] then Ok([])
    else
      match (ParseMeaning(ms[0]), ParseMeanings(ms[1..]))
      case (Ok(first), Ok(rest)) =>
        WellFormedConcat(first, rest);
        Ok(first + rest)
      case _ => Err(Malformed)
  }

  /** `first_entry['meanings'].flat_map { ... }` on a truthy value: an array is flattened, a
      hash is iterated as `[key, value]` pairs (only an empty one gets through), anything
      else has no `flat_map`. */
  function MeaningsOf(meanings: Json): (r: Result<seq<DefinitionData>, ParseError>)
    ensures r.Ok? ==> WellFormedOutput(r.value)
  {
    match meanings
    case JArr(items) => ParseMeanings(items)
    case JObj(fields) => if |fields| == 0 then Ok([]) else Err(Malformed)
    case _ => Err(Malformed)
  }

  /** The part of `parse_response` after `response_data.first`: `first_entry&.dig('meanings')`
      is `nil` for a `nil` entry, a lookup on a hash, and raises on anything else. */
  function FromFirstEntry(entry: Json): (r: Result<ApiData, ParseError>)
    ensures r.Ok? ==> r.value.definitions.Some? && WellFormedOutput(r.value.definitions.value)
  {
    match entry
    case JNull => Ok(NoDefinitions)
    case JObj(fields) =>
      var meanings := if "meanings" in fields then fields["meanings"] else JNull;
      if !Truthy(meanings) then Ok(NoDefinitions)
      else
        (match MeaningsOf(meanings)
         case Ok(ds) => Ok(ApiData(Some(ds)))
         case Err(e) => Err(e))
    case _ => Err(Malformed)
  }

  /** `parse_response(response_data)`. */
  function ParseResponse(data: Json): (r: Result<ApiData, ParseError>)
    ensures r.Ok? ==> r.value.definitions.Some? && WellFormedOutput(r.value.definitions.value)
  {
    match data
    case JArr(items) => if |items| == 0 then Ok(NoDefinitions) else FromFirstEntry(items[0])
    case _ => Ok(NoDefinitions)
  }

  /** Nil, blank and non-array responses, and an entry without `meanings`, give
      `{definitions: []}`. */
  lemma EmptyResponses(data: Json)
    requires IsBlank(data) || !data.JArr?
      || (data.JArr? && |data.items| > 0 && data.items[0].JObj?
          && ("meanings" !in data.items[0].fields || !Truthy(data.items[0].fields["meanings"])))
    ensures ParseResponse(data) == Ok(NoDefinitions)
  {
  }

  /** Only the first entry of the response is read. */
  lemma OnlyFirstEntryRead(entry: Json, rest: seq<Json>)
    ensures ParseResponse(JArr([entry] + rest)) == ParseResponse(JArr([entry]))
  {
  }

  /** A meaning whose `definitions` is absent or `null` contributes nothing, whatever its
      own synonyms and antonyms are. */
  lemma MeaningWithoutDefinitions(fields: map<string, Json>)
    requires "definitions" !in fields || fields["definitions"] == JNull
    ensures ParseMeaning(JObj(fields)) == Ok([])
  {
  }

  /** `extract_words` on the list `['valid', '', nil, 'another', 123, 'word']`. */
  lemma ExtractWordsExample()
    ensures ExtractWords(JArr([JStr("valid"), JStr(""), JNull, JStr("another"), JNum(123), JStr("word")]))
         == ["valid", "another", "word"]
  {
    var items := [JStr("valid"), JStr(""), JNull, JStr("another"), JNum(123), JStr("word")];
    assert !Blank("valid") by { assert !IsSpace("valid"[0]); }
    assert !Blank("another") by { assert !IsSpace("another"[0]); }
    assert !Blank("word") by { assert !IsSpace("word"[0]); }
    assert PresentStrings(items[5..]) == ["word"] by {
      assert items[5..][1..] == [];
    }
    assert items[4..][1..] == items[5..];
    assert items[3..][1..] == items[4..];
    assert PresentStrings(items[3..]) == ["another", "word"];
    assert items[2..][1..] == items[3..];
    assert items[1..][1..] == items[2..];
    assert PresentStrings(items[1..]) == ["another", "word"];
  }

  /** A well-formed dictionary entry, as the API documents it: word lists are arrays of
      strings, `definitions` may be absent. Used as an independent reference for the
      parser. */
  datatype Definition = Definition(synonyms: seq<string>, antonyms: seq<string>)
  datatype Meaning = Meaning(synonyms: seq<string>, antonyms: seq<string>, definitions: Option<seq<Definition>>)

  function Strings(ws: seq<string>): (r: seq<Json>)
    ensures |r| == |ws|
    ensures forall i :: 0 <= i < |ws| ==> r[i] == JStr(ws[i])
  {
    seq(|ws|, i requires 0 <= i < |ws| => JStr(ws[i]))
  }

  function EmbedDefinition(d: Definition): Json {
    JObj(map["synonyms" := JArr(Strings(d.synonyms)), "antonyms" := JArr(Strings(d.antonyms))])
  }

  function EmbedDefinitions(ds: seq<Definition>): (r: seq<Json>)
    ensures |r| == |ds|
    ensures forall i :: 0 <= i < |ds| ==> r[i] == EmbedDefinition(ds[i])
  {
    seq(|ds|, i requires 0 <= i < |ds| => EmbedDefinition(ds[i]))
  }

  function EmbedMeaning(m: Meaning): Json {
    var base := map["synonyms" := JArr(Strings(m.synonyms)), "antonyms" := JArr(Strings(m.antonyms))];
    match m.definitions
    case None => JObj(base)
    case Some(ds) => JObj(base["definitions" := JArr(EmbedDefinitions(ds))])
  }

  function EmbedMeanings(ms: seq<Meaning>): (r: seq<Json>)
    ensures |r| == |ms|
    ensures forall i :: 0 <= i < |ms| ==> r[i] == EmbedMeaning(ms[i])
  {
    seq(|ms|, i requires 0 <= i < |ms| => EmbedMeaning(ms[i]))
  }

  /** The entry `{"meanings": [...]}` holding `ms`. */
  function EmbedEntry(ms: seq<Meaning>): Json {
    JObj(map["meanings" := JArr(EmbedMeanings(ms))])
  }

  /** The non-blank words of a list. */
  function Present(ws: seq<string>): seq<string>
    decreases |ws|
  {
    if ws == [] then [] else (if Blank(ws[0]) then [] else [ws[0]]) + Present(ws[1..])
  }

  lemma {:induction false} PresentMembers(ws: seq<string>)
    ensures forall x :: x in Present(ws) <==> x in ws && !Blank(x)
    decreases |ws|
  {
    if ws != [] {
      PresentMembers(ws[1..]);
      assert ws == [ws[0]] + ws[1..];
    }
  }

  /** What the parser should produce for one definition of meaning `m`. */
  function MergedDefinition(d: Definition, m: Meaning): DefinitionData {
    DefinitionData(Some(Uniq(Present(d.synonyms) + Present(m.synonyms))),
                   Some(Uniq(Present(d.antonyms) + Present(m.antonyms))))
  }

  function MergedDefinitions(ds: seq<Definition>, m: Meaning): (r: seq<DefinitionData>)
    ensures |r| == |ds|
    ensures forall i :: 0 <= i < |ds| ==> r[i] == MergedDefinition(ds[i], m)
  {
    seq(|ds|, i requires 0 <= i < |ds| => MergedDefinition(ds[i], m))
  }

  /** The reference output: every definition of every meaning, in order, each merged with
      its meaning's lists. */
  function Flatten(ms: seq<Meaning>): seq<DefinitionData>
    decreases |ms|
  {
    if ms == [] then []
    else MergedDefinitions(ms[0].definitions.GetOr([]), ms[0]) + Flatten(ms[1..])
  }

  /** The number of definitions across all meanings. */
  function DefinitionCount(ms: seq<Meaning>): nat
    decreases |ms|
  {
    if ms == [] then 0 else |ms[0].definitions.GetOr([])| + DefinitionCount(ms[1..])
  }

  lemma PresentStringsOfStrings(ws: seq<string>)
    ensures PresentStrings(Strings(ws)) == Present(ws)
    decreases |ws|
  {
    if ws != [] {
      assert Strings(ws)[1..] == Strings(ws[1..]);
      PresentStringsOfStrings(ws[1..]);
    }
  }

  lemma ParseEmbeddedDefinition(d: Definition, m: Meaning)
    ensures ParseDefinition(EmbedDefinition(d), Present(m.synonyms), Present(m.antonyms))
         == Ok(MergedDefinition(d, m))
  {
    PresentStringsOfStrings(d.synonyms);
    PresentStringsOfStrings(d.antonyms);
  }

  lemma {:induction false} ParseEmbeddedDefinitions(ds: seq<Definition>, m: Meaning)
    ensures ParseDefinitions(EmbedDefinitions(ds), Present(m.synonyms), Present(m.antonyms))
         == Ok(MergedDefinitions(ds, m))
    decreases |ds|
  {
    if ds != [] {
      EmbedMergeCons(ds, m);
      ParseEmbeddedDefinition(ds[0], m);
      ParseEmbeddedDefinitions(ds[1..], m);
      ParseDefinitionsCons(EmbedDefinition(ds[0]), EmbedDefinitions(ds[1..]), Present(m.synonyms),
                           Present(m.antonyms), MergedDefinition(ds[0], m), MergedDefinitions(ds[1..], m));
    }
  }

  /** Embedding and the reference merge both split off the first definition. */
  lemma EmbedMergeCons(ds: seq<Definition>, m: Meaning)
    requires ds != []
    ensures EmbedDefinitions(ds) == [EmbedDefinition(ds[0])] + EmbedDefinitions(ds[1..])
    ensures MergedDefinitions(ds, m) == [MergedDefinition(ds[0], m)] + MergedDefinitions(ds[1..], m)
  {
    EmbedCons(ds);
    MergedCons(ds, m);
  }

  lemma EmbedCons(ds: seq<Definition>)
    requires ds != []
    ensures EmbedDefinitions(ds) == [EmbedDefinition(ds[0])] + EmbedDefinitions(ds[1..])
  {
    var l, r := EmbedDefinitions(ds), [EmbedDefinition(ds[0])] + EmbedDefinitions(ds[1..]);
    forall i | 0 <= i < |l| ensures l[i] == r[i] {
      if i > 0 {
        assert ds[1..][i - 1] == ds[i];
      }
    }
  }

  lemma MergedCons(ds: seq<Definition>, m: Meaning)
    requires ds != []
    ensures MergedDefinitions(ds, m) == [MergedDefinition(ds[0], m)] + MergedDefinitions(ds[1..], m)
  {
    var l, r := MergedDefinitions(ds, m), [MergedDefinition(ds[0], m)] + MergedDefinitions(ds[1..], m);
    forall i | 0 <= i < |l| ensures l[i] == r[i] {
      if i > 0 {
        assert ds[1..][i - 1] == ds[i];
      }
    }
  }

  /** `map` over a non-empty array: the first definition's output, then the rest's. */
  lemma ParseDefinitionsCons(x: Json, xs: seq<Json>, s: seq<string>, a: seq<string>,
                             d: DefinitionData, rest: seq<DefinitionData>)
    requires ParseDefinition(x, s, a) == Ok(d) && ParseDefinitions(xs, s, a) == Ok(rest)
    ensures ParseDefinitions([x] + xs, s, a) == Ok([d] + rest)
  {
    assert ([x] + xs)[0] == x && ([x] + xs)[1..] == xs;
  }

  lemma ParseEmbeddedMeaning(m: Meaning)
    ensures ParseMeaning(EmbedMeaning(m)) == Ok(MergedDefinitions(m.definitions.GetOr([]), m))
  {
    var e := EmbedMeaning(m);
    assert e.JObj?;
    assert Field(e, "synonyms") == Ok(JArr(Strings(m.synonyms)));
    assert Field(e, "antonyms") == Ok(JArr(Strings(m.antonyms)));
    PresentStringsOfStrings(m.synonyms);
    PresentStringsOfStrings(m.antonyms);
    var s, a := Present(m.synonyms), Present(m.antonyms);
    assert ExtractWords(JArr(Strings(m.synonyms))) == s;
    assert ExtractWords(JArr(Strings(m.antonyms))) == a;
    if m.definitions.Some? {
      var ds := m.definitions.value;
      assert Field(e, "definitions") == Ok(JArr(EmbedDefinitions(ds)));
      ParseEmbeddedDefinitions(ds, m);
      assert DefinitionsOf(JArr(EmbedDefinitions(ds)), s, a) == Ok(MergedDefinitions(ds, m));
    } else {
      assert Field(e, "definitions") == Ok(JNull);
      assert MergedDefinitions([], m) == [];
    }
  }

  lemma {:induction false} ParseEmbeddedMeanings(ms: seq<Meaning>)
    ensures ParseMeanings(EmbedMeanings(ms)) == Ok(Flatten(ms))
    decreases |ms|
  {
    if ms != [] {
      assert EmbedMeanings(ms)[1..] == EmbedMeanings(ms[1..]);
      ParseEmbeddedMeaning(ms[0]);
      ParseEmbeddedMeanings(ms[1..]);
    }
  }

  /** On a well-formed response the parser returns the reference output, whatever entries
      follow the first one. */
  lemma ParseWellFormed(ms: seq<Meaning>, rest: seq<Json>)
    requires |ms| > 0
    ensures ParseResponse(JArr([EmbedEntry(ms)] + rest)) == Ok(ApiData(Some(Flatten(ms))))
  {
    ParseFirstEntry(EmbedEntry(ms), rest);
    EmbeddedEntry(ms);
  }

  /** A non-empty array response is parsed from its first entry. */
  lemma ParseFirstEntry(entry: Json, rest: seq<Json>)
    ensures ParseResponse(JArr([entry] + rest)) == FromFirstEntry(entry)
  {
    assert ([entry] + rest)[0] == entry;
  }

  lemma EmbeddedEntry(ms: seq<Meaning>)
    ensures FromFirstEntry(EmbedEntry(ms)) == Ok(ApiData(Some(Flatten(ms))))
  {
    var meanings := JArr(EmbedMeanings(ms));
    var fields := map["meanings" := meanings];
    assert EmbedEntry(ms) == JObj(fields);
    assert "meanings" in fields && fields["meanings"] == meanings;
    assert Truthy(meanings);
    ParseEmbeddedMeanings(ms);
    assert MeaningsOf(meanings) == Ok(Flatten(ms));
  }

  /** The reference output has one element per nested definition. */
  lemma {:induction false} FlattenCount(ms: seq<Meaning>)
    ensures |Flatten(ms)| == DefinitionCount(ms)
    decreases |ms|
  {
    if ms != [] {
      FlattenCount(ms[1..]);
    }
  }

  /** `(definition_words + meaning_words).uniq` on the present words of both levels: no
      repetition, exactly the present words of either level, and the definition's own
      words first in their order. */
  lemma MergedWords(defWords: seq<string>, meaningWords: seq<string>)
    ensures var r := Uniq(Present(defWords) + Present(meaningWords));
      && NoDup(r)
      && (forall x :: x in r <==> (x in defWords || x in meaningWords) && !Blank(x))
      && (NoDup(Present(defWords)) ==>
            |Present(defWords)| <= |r| && r[..|Present(defWords)|] == Present(defWords))
  {
    var p := Present(defWords);
    PresentMembers(defWords);
    PresentMembers(meaningWords);
    UniqConcatMembers(p, Present(meaningWords));
    UniqPrefix(p, Present(meaningWords));
    if NoDup(p) {
      UniqOfNoDup(p);
    }
  }

  /** Each merged list of a definition holds exactly the present words of both levels,
      without repetition, the definition's own words first. */
  lemma MergedDefinitionWords(d: Definition, m: Meaning)
    ensures var r := MergedDefinition(d, m);
      && NoDup(r.synonyms.value) && NoDup(r.antonyms.value)
      && (forall x :: x in r.synonyms.value <==> (x in d.synonyms || x in m.synonyms) && !Blank(x))
      && (forall x :: x in r.antonyms.value <==> (x in d.antonyms || x in m.antonyms) && !Blank(x))
      && (NoDup(Present(d.synonyms)) ==>
            |Present(d.synonyms)| <= |r.synonyms.value|
            && r.synonyms.value[..|Present(d.synonyms)|] == Present(d.synonyms))
      && (NoDup(Present(d.antonyms)) ==>
            |Present(d.antonyms)| <= |r.antonyms.value|
            && r.antonyms.value[..|Present(d.antonyms)|] == Present(d.antonyms))
  {
    MergedWords(d.synonyms, m.synonyms);
    MergedWords(d.antonyms, m.antonyms);
  }

  /** Words that are not blank. */
  predicate AllPresent(ws: seq<string>) {
    forall i :: 0 <= i < |ws| ==> !Blank(ws[i])
  }

  /** The shape of the dictionary's answer for "happy": one meaning with one definition,
      where the meaning repeats the definition's words and adds one more. The parser
      returns one definition, each repeated word appearing once: the meaning's lists. */
  lemma RepeatedWordsKeptOnce(d: Definition, m: Meaning, extraSynonym: string, extraAntonym: string)
    requires m.definitions == Some([d])
    requires AllPresent(d.synonyms) && NoDup(d.synonyms) && !Blank(extraSynonym) && extraSynonym !in d.synonyms
    requires AllPresent(d.antonyms) && NoDup(d.antonyms) && !Blank(extraAntonym) && extraAntonym !in d.antonyms
    requires m.synonyms == d.synonyms + [extraSynonym] && m.antonyms == d.antonyms + [extraAntonym]
    ensures ParseResponse(JArr([EmbedEntry([m])]))
         == Ok(ApiData(Some([DefinitionData(Some(m.synonyms), Some(m.antonyms))])))
  {
    MergedRepeats(d.synonyms, m.synonyms, extraSynonym);
    MergedRepeats(d.antonyms, m.antonyms, extraAntonym);
    SingleMeaningFlatten(d, m);
    assert [EmbedEntry([m])] + [] == [EmbedEntry([m])];
    ParseWellFormed([m], []);
  }

  lemma SingleMeaningFlatten(d: Definition, m: Meaning)
    requires m.definitions == Some([d])
    ensures Flatten([m]) == [MergedDefinition(d, m)]
  {
    assert [m][1..] == [];
    assert MergedDefinitions([d], m) == [MergedDefinition(d, m)];
  }

  /** Merging a list of words with the same list plus one new word. */
  lemma MergedRepeats(defWords: seq<string>, meaningWords: seq<string>, extra: string)
    requires AllPresent(defWords) && NoDup(defWords) && !Blank(extra) && extra !in defWords
    requires meaningWords == defWords + [extra]
    ensures Uniq(Present(defWords) + Present(meaningWords)) == meaningWords
  {
    PresentOfPresent(defWords);
    PresentOfPresent(meaningWords);
    UniqExample(defWords, extra);
    assert defWords + meaningWords == defWords + defWords + [extra];
  }

  lemma {:induction false} PresentOfPresent(ws: seq<string>)
    requires AllPresent(ws)
    ensures Present(ws) == ws
    decreases |ws|
  {
    if ws != [] {
      PresentOfPresent(ws[1..]);
      assert ws == [ws[0]] + ws[1..];
    }
  }

  /** Appending a list to itself plus one new word keeps the list and the new word. */
  lemma UniqExample(ws: seq<string>, extra: string)
    requires NoDup(ws) && extra !in ws
    ensures Uniq(ws + ws + [extra]) == ws + [extra]
  {
    UniqOfNoDup(ws);
    UniqRepeat(ws, ws);
    assert ws + ws + [extra] == (ws + ws) + [extra];
  }

  /** Repeating words `uniq` has already kept changes nothing. */
  lemma {:induction false} UniqRepeat(a: seq<string>, b: seq<string>)
    requires forall x :: x in b ==> x in a
    ensures Uniq(a + b) == Uniq(a)
    decreases |b|
  {
    if b != [] {
      var b' := b[..|b| - 1];
      PrefixMembers(a, b);
      UniqRepeat(a, b');
      UniqSeenLast(a + b, a + b');
    } else {
      assert a + b == a;
    }
  }

  lemma PrefixMembers(a: seq<string>, b: seq<string>)
    requires b != [] && forall x :: x in b ==> x in a
    ensures forall x :: x in b[..|b| - 1] ==> x in a
  {
    forall x | x in b[..|b| - 1] ensures x in a {
      var k :| 0 <= k < |b| - 1 && b[..|b| - 1][k] == x;
      assert b[k] == x;
    }
  }

  /** A last element already seen is dropped. */
  lemma UniqSeenLast(s: seq<string>, init: seq<string>)
    requires s != [] && init == s[..|s| - 1] && s[|s| - 1] in init
    ensures Uniq(s) == Uniq(init)
  {
  }
}
