/** The request form of a word batch. It is filled either with `words` directly or with
    the raw request body, which validation parses and copies into `words`. Validation runs
    four validators in order, each appending to `errors`; `submit` then replaces the words
    with their sanitised versions, and `processed_words` validates again and returns the
    words de-duplicated and sorted.

    The form is a `Form` object whose methods update its fields as the validators do;
    `Validate`, `Submitted` and `Processed` are the functions of the old state that specify
    them. JSON parsing happens outside: a raw body carries its text and the value
    `JSON.parse` gives for it, `None` when it raises `JSON::ParserError`. */
module WordsForm {
  import opened Wrappers
  import opened RubyStrings
  import opened RubyArrays
  import opened Json
  import opened BaseForm

  const MaxWordsPerRequest: nat := 100
  const MinWordLength: nat := 1
  const MaxWordLength: nat := 50

  /** `raw_request_body` together with what `JSON.parse` makes of it. */
  datatype RequestBody = RequestBody(text: string, parsed: Option<Json>)

  /** The `reason` of an entry in the invalid-words list. */
  datatype Reason = EmptyWord | TooShort | TooLong | InvalidFormat

  datatype InvalidWord = InvalidWord(position: nat, word: string, reason: Reason)

  /** One `errors.add`, by its `type:` and the details it records. The first three are on
      `:base`, the others on `:words`. */
  datatype FormError =
    | MissingRequestBody
    | InvalidJsonFormat
    | InvalidJson
    | WordsMissing
    | NotArray
    | EmptyArray
    | InvalidType(position: nat, className: string)
    | TooManyWords(received: nat)
    | InvalidWords(invalid: seq<InvalidWord>)

  /** `words` and `errors` after some validators have run. */
  datatype Checked = Checked(words: Json, errors: seq<FormError>)

  /** `raw_request_body.present?`. */
  predicate BodyPresent(raw: Option<RequestBody>) {
    raw.Some? && !Blank(raw.value.text)
  }

  /** `parse_json_body`: an array becomes the words; any other value, and text that does
      not parse, add an error on `:base`. */
  function ParseJsonBodyCheck(words: Json, body: RequestBody): Checked {
    match body.parsed
    case None => Checked(words, [InvalidJson])
    case Some(JArr(items)) => Checked(JArr(items), [])
    case Some(_) => Checked(words, [InvalidJsonFormat])
  }

  /** `validate_raw_request_body`. */
  function RawBodyCheck(words: Json, raw: Option<RequestBody>): Checked {
    if BodyPresent(raw) then ParseJsonBodyCheck(words, raw.value)
    else if IsBlank(words) then Checked(words, [MissingRequestBody])
    else Checked(words, [])
  }

  /** One `invalid_type` error per element that is not a String, in order. */
  function TypeErrors(items: seq<Json>): seq<FormError>
    decreases |items|
  {
    if items == [] then []
    else
      var n := |items| - 1;
      TypeErrors(items[..n]) + (if items[n].JStr? then [] else [InvalidType(n, ClassName(items[n]))])
  }

  /** `validate_words_array`: the first three checks stop at the first that fails; then
      each element is checked to be a String. */
  function ArrayErrors(words: Json): seq<FormError> {
    if words.JNull? then [WordsMissing]
    else if !words.JArr? then [NotArray]
    else if |words.items| == 0 then [EmptyArray]
    else TypeErrors(words.items)
  }

  /** `words.present? && words.is_a?(Array)`. */
  predicate PresentArray(words: Json) {
    words.JArr? && |words.items| > 0
  }

  /** `validate_words_count`. */
  function CountErrors(words: Json): seq<FormError> {
    if PresentArray(words) && |words.items| > MaxWordsPerRequest then [TooManyWords(|words.items|)]
    else []
  }

  /** The `reason` the validator gives one String element, `nil` for a good word. */
  function ReasonFor(word: string): Option<Reason> {
    if Blank(word) then Some(EmptyWord)
    else if |word| < MinWordLength then Some(TooShort)
    else if |word| > MaxWordLength then Some(TooLong)
    else if !ValidWordFormat(Some(word)) then Some(InvalidFormat)
    else None
  }

  /** The `filter_map.with_index` list of bad String elements, in order. */
  function InvalidWordsOf(items: seq<Json>): seq<InvalidWord>
    decreases |items|
  {
    if items == [] then []
    else
      var n := |items| - 1;
      InvalidWordsOf(items[..n]) +
        (if items[n].JStr? && ReasonFor(items[n].s).Some?
         then [InvalidWord(n, items[n].s, ReasonFor(items[n].s).value)]
         else [])
  }

  /** `validate_words_format`: one error carrying every bad word, or none. */
  function FormatErrors(words: Json): seq<FormError> {
    if !PresentArray(words) then []
    else
      var invalid := InvalidWordsOf(words.items);
      if invalid == [] then [] else [InvalidWords(invalid)]
  }

  /** `valid?`: errors are cleared and the four validators run in order; the raw-body one
      may replace `words` before the others look at them. */
  function Validate(words: Json, raw: Option<RequestBody>): Checked {
    var c := RawBodyCheck(words, raw);
    Checked(c.words, c.errors + ArrayErrors(c.words) + CountErrors(c.words) + FormatErrors(c.words))
  }

  predicate AllStrings(items: seq<Json>) {
    forall i :: 0 <= i < |items| ==> items[i].JStr?
  }

  /** The strings of an array of String values. */
  function Texts(items: seq<Json>): (r: seq<string>)
    requires AllStrings(items)
    ensures |r| == |items|
    ensures forall i :: 0 <= i < |items| ==> r[i] == items[i].s
  {
    seq(|items|, i requires 0 <= i < |items| => items[i].s)
  }

  /** An acceptable word list, stated independently of the validators: 1 to 100 elements,
      each a String of accepted format. */
  predicate AcceptedWords(items: seq<Json>) {
    && 0 < |items| <= MaxWordsPerRequest
    && forall i :: 0 <= i < |items| ==> items[i].JStr? && ValidWordFormat(Some(items[i].s))
  }

  /** When the form passes: a present body must parse to an accepted array; without one,
      `words` must be an accepted array. */
  predicate Accepted(words: Json, raw: Option<RequestBody>) {
    if BodyPresent(raw) then
      raw.value.parsed.Some? && raw.value.parsed.value.JArr? && AcceptedWords(raw.value.parsed.value.items)
    else
      words.JArr? && AcceptedWords(words.items)
  }

  /** The words the validators look at: the parsed array of a present body, the given
      `words` otherwise. */
  function EffectiveWords(words: Json, raw: Option<RequestBody>): Json {
    RawBodyCheck(words, raw).words
  }

  /** The string-typing errors name exactly the non-String positions, with their classes. */
  lemma TypeErrorsSpec(items: seq<Json>)
    ensures forall e :: e in TypeErrors(items) ==>
      e.InvalidType? && e.position < |items| && !items[e.position].JStr? &&
      e.className == ClassName(items[e.position])
    ensures forall p :: 0 <= p < |items| && !items[p].JStr? ==>
      InvalidType(p, ClassName(items[p])) in TypeErrors(items)
    ensures TypeErrors(items) == [] <==> AllStrings(items)
  {
    TypeErrorsSound(items);
    TypeErrorsComplete(items);
    if TypeErrors(items) != [] {
      var e := TypeErrors(items)[0];
      assert e in TypeErrors(items);
    }
  }

  lemma {:induction false} TypeErrorsSound(items: seq<Json>)
    ensures forall e :: e in TypeErrors(items) ==>
      e.InvalidType? && e.position < |items| && !items[e.position].JStr? &&
      e.className == ClassName(items[e.position])
    decreases |items|
  {
    if items != [] {
      var n := |items| - 1;
      var init := items[..n];
      TypeErrorsSound(init);
      assert forall p :: 0 <= p < n ==> init[p] == items[p];
    }
  }

  lemma {:induction false} TypeErrorsComplete(items: seq<Json>)
    ensures forall p :: 0 <= p < |items| && !items[p].JStr? ==>
      InvalidType(p, ClassName(items[p])) in TypeErrors(items)
    decreases |items|
  {
    if items != [] {
      var n := |items| - 1;
      var init := items[..n];
      TypeErrorsComplete(init);
      assert forall p :: 0 <= p < n ==> init[p] == items[p];
      if !items[n].JStr? {
        assert InvalidType(n, ClassName(items[n])) in TypeErrors(items);
      }
    }
  }

  /** The invalid-words list names exactly the String positions whose word has a reason,
      with that word and reason. */
  lemma InvalidWordsSpec(items: seq<Json>)
    ensures forall w :: w in InvalidWordsOf(items) ==>
      w.position < |items| && items[w.position] == JStr(w.word) && ReasonFor(w.word) == Some(w.reason)
    ensures forall p :: 0 <= p < |items| && items[p].JStr? && ReasonFor(items[p].s).Some? ==>
      InvalidWord(p, items[p].s, ReasonFor(items[p].s).value) in InvalidWordsOf(items)
    ensures InvalidWordsOf(items) == [] <==>
      forall i :: 0 <= i < |items| && items[i].JStr? ==> ReasonFor(items[i].s).None?
  {
    InvalidWordsSound(items);
    InvalidWordsComplete(items);
    if InvalidWordsOf(items) != [] {
      var w := InvalidWordsOf(items)[0];
      assert w in InvalidWordsOf(items);
    }
  }

  lemma {:induction false} InvalidWordsSound(items: seq<Json>)
    ensures forall w :: w in InvalidWordsOf(items) ==>
      w.position < |items| && items[w.position] == JStr(w.word) && ReasonFor(w.word) == Some(w.reason)
    decreases |items|
  {
    if items != [] {
      var n := |items| - 1;
      var init := items[..n];
      InvalidWordsSound(init);
      assert forall p :: 0 <= p < n ==> init[p] == items[p];
    }
  }

  lemma {:induction false} InvalidWordsComplete(items: seq<Json>)
    ensures forall p :: 0 <= p < |items| && items[p].JStr? && ReasonFor(items[p].s).Some? ==>
      InvalidWord(p, items[p].s, ReasonFor(items[p].s).value) in InvalidWordsOf(items)
    decreases |items|
  {
    if items != [] {
      var n := |items| - 1;
      var init := items[..n];
      InvalidWordsComplete(init);
      assert forall p :: 0 <= p < n ==> init[p] == items[p];
      if items[n].JStr? && ReasonFor(items[n].s).Some? {
        assert InvalidWord(n, items[n].s, ReasonFor(items[n].s).value) in InvalidWordsOf(items);
      }
    }
  }

  /** A String element has no reason exactly when it has an accepted format; `too_short`
      is never the reason, because a word shorter than one character is blank and is
      reported as `empty_word` first. */
  lemma ReasonForSpec(word: string)
    ensures ReasonFor(word).None? <==> ValidWordFormat(Some(word))
    ensures ReasonFor(word) != Some(TooShort)
    ensures ReasonFor(word) == Some(EmptyWord) <==> Blank(word)
  {
  }

  /** `validate_words_count` accepts exactly 100 words and rejects 101. */
  lemma CountLimit(items: seq<Json>)
    ensures CountErrors(JArr(items)) == [] <==> |items| <= MaxWordsPerRequest
    ensures |items| > MaxWordsPerRequest ==> CountErrors(JArr(items)) == [TooManyWords(|items|)]
  {
  }

  /** The form passes validation exactly when its (effective) words are an accepted list;
      the words it is left with are then that list. */
  lemma ValidIff(words: Json, raw: Option<RequestBody>)
    ensures Validate(words, raw).errors == [] <==> Accepted(words, raw)
    ensures Validate(words, raw).words == EffectiveWords(words, raw)
  {
    var c := RawBodyCheck(words, raw);
    WordsChecksPass(c.words);
    RawBodyAccepted(words, raw);
  }

  /** The three word validators pass exactly on an accepted array. */
  lemma WordsChecksPass(w: Json)
    ensures ArrayErrors(w) == [] && CountErrors(w) == [] && FormatErrors(w) == [] <==>
      w.JArr? && AcceptedWords(w.items)
  {
    if w.JArr? && |w.items| > 0 {
      TypeErrorsSpec(w.items);
      InvalidWordsSpec(w.items);
      forall i | 0 <= i < |w.items| && w.items[i].JStr?
        ensures ReasonFor(w.items[i].s).None? <==> ValidWordFormat(Some(w.items[i].s))
      {
        ReasonForSpec(w.items[i].s);
      }
    }
  }

  /** The raw-body check passes and leaves an accepted array exactly when the form is
      acceptable. */
  lemma RawBodyAccepted(words: Json, raw: Option<RequestBody>)
    ensures var c := RawBodyCheck(words, raw);
      c.errors == [] && c.words.JArr? && AcceptedWords(c.words.items) <==> Accepted(words, raw)
  {
  }

  /** A passing form holds an accepted array. */
  lemma ValidatedWords(words: Json, raw: Option<RequestBody>)
    requires Validate(words, raw).errors == []
    ensures Validate(words, raw).words.JArr?
    ensures AcceptedWords(Validate(words, raw).words.items)
  {
    ValidIff(words, raw);
  }

  /** The `filter_map` of `submit`: each String is sanitised at the word limit and `nil`
      results are dropped. */
  function SanitizeItems(items: seq<Json>): seq<Json>
    requires AllStrings(items)
    decreases |items|
  {
    if items == [] then []
    else
      (match SanitizeString(Some(items[0].s), MaxWordLength)
       case None => []
       case Some(t) => [JStr(t)]) + SanitizeItems(items[1..])
  }

  /** On accepted words, sanitising is stripping each word, nothing is dropped and every
      result is still an accepted word. */
  lemma {:induction false} SanitizeAccepted(items: seq<Json>)
    requires forall i :: 0 <= i < |items| ==> items[i].JStr? && ValidWordFormat(Some(items[i].s))
    ensures |SanitizeItems(items)| == |items|
    ensures forall i :: 0 <= i < |items| ==> SanitizeItems(items)[i] == JStr(Strip(items[i].s))
    ensures forall i :: 0 <= i < |items| ==>
      SanitizeItems(items)[i].JStr? && ValidWordFormat(Some(SanitizeItems(items)[i].s))
    decreases |items|
  {
    if items != [] {
      var rest := items[1..];
      assert forall i :: 0 <= i < |rest| ==> rest[i] == items[i + 1];
      SanitizeAccepted(rest);
      SanitizeValidWord(items[0].s);
      var r := SanitizeItems(items);
      assert r == [JStr(Strip(items[0].s))] + SanitizeItems(rest);
      forall i | 0 <= i < |items| ensures r[i] == JStr(Strip(items[i].s)) {
        if i > 0 {
          assert r[i] == SanitizeItems(rest)[i - 1];
        }
      }
      forall i | 0 <= i < |items| ensures ValidWordFormat(Some(r[i].s)) {
        SanitizeValidWord(items[i].s);
      }
    }
  }

  /** The `words` a passing `submit` leaves behind. */
  function SubmittedItems(words: Json, raw: Option<RequestBody>): seq<Json>
    requires Validate(words, raw).errors == []
  {
    ValidatedWords(words, raw);
    SanitizeItems(Validate(words, raw).words.items)
  }

  /** `words` after `submit`: sanitised when validation passed, as validation left them
      otherwise. */
  function Submitted(words: Json, raw: Option<RequestBody>): Json {
    if Validate(words, raw).errors == [] then JArr(SubmittedItems(words, raw))
    else Validate(words, raw).words
  }

  /** `words.uniq.sort` on an array of Strings. */
  function SortedTexts(items: seq<Json>): seq<string>
    requires AllStrings(items)
  {
    UniqSort(Texts(items))
  }

  /** `words.uniq.sort` is strictly increasing and holds exactly the strings of the
      array. */
  lemma SortedTextsSpec(items: seq<Json>)
    requires AllStrings(items)
    ensures StrictlyIncreasing(SortedTexts(items))
    ensures forall x :: x in SortedTexts(items) <==> JStr(x) in items
  {
    var ts := Texts(items);
    UniqSortSpec(ts);
    forall x ensures x in ts <==> JStr(x) in items {
      if x in ts {
        var i :| 0 <= i < |ts| && ts[i] == x;
        assert items[i] == JStr(x);
      }
      if JStr(x) in items {
        var i :| 0 <= i < |items| && items[i] == JStr(x);
        assert ts[i] == x;
      }
    }
  }

  /** `processed_words`: `[]` for a failing form, otherwise its words de-duplicated and
      sorted. */
  function Processed(words: Json, raw: Option<RequestBody>): seq<string> {
    var v := Validate(words, raw);
    if v.errors != [] then []
    else
      ValidatedWords(words, raw);
      SortedTexts(v.words.items)
  }

  /** `processed_words` is strictly increasing, holds exactly the words validation
      accepted, each of accepted format; and it is empty for a failing form. */
  lemma ProcessedSpec(words: Json, raw: Option<RequestBody>)
    ensures Validate(words, raw).errors != [] ==> Processed(words, raw) == []
    ensures StrictlyIncreasing(Processed(words, raw))
    ensures Validate(words, raw).errors == [] ==>
      var items := EffectiveWords(words, raw).items;
      forall x :: x in Processed(words, raw) <==> JStr(x) in items
    ensures forall x :: x in Processed(words, raw) ==> ValidWordFormat(Some(x))
  {
    var v := Validate(words, raw);
    if v.errors == [] {
      ValidatedWords(words, raw);
      var items := v.words.items;
      ProcessedOfValid(words, raw);
      ValidIff(words, raw);
      SortedTextsSpec(items);
      AcceptedTextsValid(items, Processed(words, raw));
    }
  }

  /** For a passing form `processed_words` is the validated strings de-duplicated and
      sorted. */
  lemma ProcessedOfValid(words: Json, raw: Option<RequestBody>)
    requires Validate(words, raw).errors == []
    ensures Validate(words, raw).words.JArr? && AllStrings(Validate(words, raw).words.items)
    ensures Processed(words, raw) == SortedTexts(Validate(words, raw).words.items)
  {
    ValidatedWords(words, raw);
  }

  /** Strings drawn from an accepted array are of accepted format. */
  lemma AcceptedTextsValid(items: seq<Json>, xs: seq<string>)
    requires AcceptedWords(items)
    requires forall x :: x in xs ==> JStr(x) in items
    ensures forall x :: x in xs ==> ValidWordFormat(Some(x))
  {
    forall x | x in xs ensures ValidWordFormat(Some(x)) {
      var i :| 0 <= i < |items| && items[i] == JStr(x);
    }
  }

  /** A form filled with words that passed `submit` passes again, and `processed_words`
      then sorts the stripped words. */
  lemma SubmittedWordsPassAgain(words: Json, raw: Option<RequestBody>)
    requires Validate(words, raw).errors == []
    ensures Accepted(Submitted(words, raw), None)
    ensures Validate(Submitted(words, raw), None).errors == []
  {
    SubmittedOfValid(words, raw);
    ValidatedWords(words, raw);
    var items := Validate(words, raw).words.items;
    SanitizeAccepted(items);
    var sub := SanitizeItems(items);
    assert AcceptedWords(sub);
    ValidIff(JArr(sub), None);
  }

  /** A passing `submit` leaves the sanitised validated words. */
  lemma SubmittedOfValid(words: Json, raw: Option<RequestBody>)
    requires Validate(words, raw).errors == []
    ensures Validate(words, raw).words.JArr? && AllStrings(Validate(words, raw).words.items)
    ensures Submitted(words, raw) == JArr(SanitizeItems(Validate(words, raw).words.items))
  {
    ValidatedWords(words, raw);
  }

  /** `processed_words` validates again, and with a present body that re-parses the body
      and overwrites `words`: the stripping `submit` did is lost, and `processed_words`
      sorts the words as they stood in the body. */
  lemma ProcessedAfterSubmitReparses(words: Json, raw: Option<RequestBody>)
    requires BodyPresent(raw)
    requires Validate(words, raw).errors == []
    ensures Validate(Submitted(words, raw), raw) == Validate(words, raw)
    ensures Processed(Submitted(words, raw), raw) == Processed(words, raw)
  {
    BodyMustBeArray(words, raw);
    BodyReplacesWords(Submitted(words, raw), words, raw);
  }

  /** A present body that passes validation parsed to an array. */
  lemma BodyMustBeArray(words: Json, raw: Option<RequestBody>)
    requires BodyPresent(raw)
    requires Validate(words, raw).errors == []
    ensures raw.value.parsed.Some? && raw.value.parsed.value.JArr?
  {
    var c := RawBodyCheck(words, raw);
    assert c.errors == [] by {
      assert |Validate(words, raw).errors| >= |c.errors|;
    }
  }

  /** A present body that parses to an array replaces whatever `words` the form held. */
  lemma BodyReplacesWords(x: Json, y: Json, raw: Option<RequestBody>)
    requires BodyPresent(raw) && raw.value.parsed.Some? && raw.value.parsed.value.JArr?
    ensures Validate(x, raw) == Validate(y, raw)
  {
    assert RawBodyCheck(x, raw) == RawBodyCheck(y, raw);
  }

  /** A body that parses to accepted words: `submit` stores them stripped, while
      `processed_words` sorts them unstripped. */
  lemma BodyWordsAfterSubmit(words: Json, text: string, items: seq<Json>)
    requires !Blank(text) && AcceptedWords(items)
    ensures var raw := Some(RequestBody(text, Some(JArr(items))));
      && Validate(words, raw) == Checked(JArr(items), [])
      && Submitted(words, raw) == JArr(SanitizeItems(items))
      && Processed(Submitted(words, raw), raw) == SortedTexts(items)
  {
    var raw := Some(RequestBody(text, Some(JArr(items))));
    ValidIff(words, raw);
    ProcessedAfterSubmitReparses(words, raw);
  }

  /** A body `[" happy "]`: `submit` stores `"happy"`, but `processed_words` returns
      `" happy "`. */
  lemma PaddedWordInBody(text: string, items: seq<Json>)
    requires !Blank(text) && items == [JStr(" happy ")]
    ensures var raw := Some(RequestBody(text, Some(JArr(items))));
      && Validate(JNull, raw).errors == []
      && Submitted(JNull, raw) == JArr([JStr("happy")])
      && Processed(Submitted(JNull, raw), raw) == [" happy "]
  {
    var w := " happy ";
    assert !Blank(w) by {
      assert w[1] == 'h';
    }
    assert MatchesWordPattern(w);
    assert AcceptedWords(items);
    BodyWordsAfterSubmit(JNull, text, items);
    PaddedWordSanitized(items);
    SingleWordSorted(items);
  }

  lemma PaddedWordSanitized(items: seq<Json>)
    requires items == [JStr(" happy ")]
    ensures SanitizeItems(items) == [JStr("happy")]
  {
    PaddedHappy();
    SanitizeSingle(" happy ", "happy");
  }

  /** `" happy "` is not blank, and strips to `"happy"`. */
  lemma PaddedHappy()
    ensures !Blank(" happy ") && Strip(" happy ") == "happy"
  {
    assert " happy "[1] == 'h';
    StripPadded(" ", "happy", " ");
    assert " " + "happy" + " " == " happy ";
  }

  /** A one-word array whose word is not blank and strips to a short enough word. */
  lemma SanitizeSingle(w: string, t: string)
    requires !Blank(w) && Strip(w) == t && |t| <= MaxWordLength
    ensures SanitizeItems([JStr(w)]) == [JStr(t)]
  {
    assert [JStr(w)][1..] == [];
  }

  lemma SingleWordSorted(items: seq<Json>)
    requires |items| == 1 && items[0].JStr?
    ensures SortedTexts(items) == [items[0].s]
  {
    var ts := Texts(items);
    assert ts == [items[0].s];
    UniqOfNoDup(ts);
    assert Sort(ts) == ts;
  }

  /** Words given directly stay stripped: after `submit`, `processed_words` sorts the
      sanitised words. */
  lemma ProcessedAfterSubmitKeepsStripping(words: Json)
    requires Validate(words, None).errors == []
    ensures words.JArr? && AcceptedWords(words.items)
    ensures AllStrings(SanitizeItems(words.items))
    ensures Processed(Submitted(words, None), None) == SortedTexts(SanitizeItems(words.items))
  {
    ValidatedWords(words, None);
    NoBodyKeepsWords(words);
    SanitizeAccepted(words.items);
    var sub := SanitizeItems(words.items);
    assert Submitted(words, None) == JArr(sub);
    SubmittedWordsPassAgain(words, None);
    NoBodyKeepsWords(JArr(sub));
    ProcessedOfValid(JArr(sub), None);
  }

  /** Without a raw body, validation leaves `words` as they are. */
  lemma NoBodyKeepsWords(words: Json)
    ensures Validate(words, None).words == words
  {
  }

  /** The sorted sanitised words are exactly the stripped accepted words. */
  lemma SortedSanitizedWords(items: seq<Json>)
    requires AcceptedWords(items)
    ensures AllStrings(SanitizeItems(items))
    ensures forall x :: x in SortedTexts(SanitizeItems(items)) <==>
      exists i :: 0 <= i < |items| && items[i].JStr? && x == Strip(items[i].s)
  {
    SanitizeAccepted(items);
    var sub := SanitizeItems(items);
    SortedTextsSpec(sub);
    StrippedMembers(items, sub);
  }

  /** The sanitised array holds exactly the stripped words. */
  lemma StrippedMembers(items: seq<Json>, sub: seq<Json>)
    requires |sub| == |items|
    requires forall i :: 0 <= i < |items| ==> items[i].JStr? && sub[i] == JStr(Strip(items[i].s))
    ensures forall x :: JStr(x) in sub <==>
      exists i :: 0 <= i < |items| && items[i].JStr? && x == Strip(items[i].s)
  {
    forall x | JStr(x) in sub
      ensures exists i :: 0 <= i < |items| && items[i].JStr? && x == Strip(items[i].s)
    {
      var i :| 0 <= i < |sub| && sub[i] == JStr(x);
      assert x == Strip(items[i].s);
    }
    forall x | exists i :: 0 <= i < |items| && items[i].JStr? && x == Strip(items[i].s)
      ensures JStr(x) in sub
    {
      var i :| 0 <= i < |items| && items[i].JStr? && x == Strip(items[i].s);
      assert sub[i] == JStr(x);
    }
  }

  /** Without a body, blank `words` (`nil` or `[]`) also draw the `:base` error for the
      missing body; and an empty body counts as no body. */
  lemma BlankWordsErrors()
    ensures Validate(JNull, None).errors == [MissingRequestBody, WordsMissing]
    ensures Validate(JArr([]), None).errors == [MissingRequestBody, EmptyArray]
    ensures Validate(JNull, Some(RequestBody("", None))).errors == [MissingRequestBody, WordsMissing]
  {
  }

  lemma NotArrayErrors()
    ensures Validate(JStr("not an array"), None).errors == [NotArray]
  {
    assert !Blank("not an array") by {
      assert "not an array"[0] == 'n';
    }
  }

  /** Only the non-String element is reported, by its position and class. */
  lemma NonStringErrors()
    ensures Validate(JArr([JStr("valid"), JNum(123), JStr("word")]), None).errors
         == [InvalidType(1, "Integer")]
  {
    var items := [JStr("valid"), JNum(123), JStr("word")];
    assert items[..2][..1] == [JStr("valid")];
    assert items[..2] == [JStr("valid"), JNum(123)];
    assert [JStr("valid")][..0] == [];
    assert TypeErrors(items) == [InvalidType(1, "Integer")];
    assert InvalidWordsOf(items) == [] by {
      assert !Blank("valid") by {
        assert "valid"[0] == 'v';
      }
      assert !Blank("word") by {
        assert "word"[0] == 'w';
      }
      assert MatchesWordPattern("valid");
      assert MatchesWordPattern("word");
      ReasonForSpec("valid");
      ReasonForSpec("word");
      InvalidWordsSpec(items);
    }
  }

  /** A non-array body and an unparseable body each add their one `:base` error, and the
      words checks then see the `nil` words. */
  lemma BodyErrorExamples(text: string, fields: map<string, Json>)
    requires !Blank(text)
    ensures Validate(JNull, Some(RequestBody(text, Some(JObj(fields))))).errors
         == [InvalidJsonFormat, WordsMissing]
    ensures Validate(JNull, Some(RequestBody(text, None))).errors == [InvalidJson, WordsMissing]
  {
  }

  /** The form object. */
  class Form {
    var words: Json
    var rawRequestBody: Option<RequestBody>
    var errors: seq<FormError>

    constructor(words: Json, rawRequestBody: Option<RequestBody>)
      ensures this.words == words && this.rawRequestBody == rawRequestBody && errors == []
    {
      this.words := words;
      this.rawRequestBody := rawRequestBody;
      errors := [];
    }

    /** `parse_json_body`. */
    method ParseJsonBody()
      requires rawRequestBody.Some?
      modifies this
      ensures rawRequestBody == old(rawRequestBody)
      ensures var c := ParseJsonBodyCheck(old(words), old(rawRequestBody).value);
        words == c.words && errors == old(errors) + c.errors
    {
      match rawRequestBody.value.parsed
      case None =>
        errors := errors + [InvalidJson];
      case Some(JArr(items)) =>
        words := JArr(items);
      case Some(_) =>
        errors := errors + [InvalidJsonFormat];
    }

    /** `validate_raw_request_body`. */
    method ValidateRawRequestBody()
      modifies this
      ensures var c := RawBodyCheck(old(words), rawRequestBody);
        words == c.words && errors == old(errors) + c.errors
      ensures rawRequestBody == old(rawRequestBody)
    {
      if BodyPresent(rawRequestBody) {
        ParseJsonBody();
      } else if IsBlank(words) {
        errors := errors + [MissingRequestBody];
      }
    }

    /** `validate_words_array`. */
    method ValidateWordsArray()
      modifies this
      ensures words == old(words) && rawRequestBody == old(rawRequestBody)
      ensures errors == old(errors) + ArrayErrors(words)
    {
      if words.JNull? {
        errors := errors + [WordsMissing];
        return;
      }
      if !words.JArr? {
        errors := errors + [NotArray];
        return;
      }
      var items := words.items;
      if |items| == 0 {
        errors := errors + [EmptyArray];
        return;
      }
      var i := 0;
      while i < |items|
        invariant 0 <= i <= |items|
        invariant words == old(words) && rawRequestBody == old(rawRequestBody)
        invariant errors == old(errors) + TypeErrors(items[..i])
      {
        assert items[..i + 1][..i] == items[..i];
        if !items[i].JStr? {
          errors := errors + [InvalidType(i, ClassName(items[i]))];
        }
        i := i + 1;
      }
      assert items[..i] == items;
    }

    /** `validate_words_count`. */
    method ValidateWordsCount()
      modifies this
      ensures words == old(words) && rawRequestBody == old(rawRequestBody)
      ensures errors == old(errors) + CountErrors(words)
    {
      if !PresentArray(words) {
        return;
      }
      if |words.items| <= MaxWordsPerRequest {
        return;
      }
      errors := errors + [TooManyWords(|words.items|)];
    }

    /** `validate_words_format`. */
    method ValidateWordsFormat()
      modifies this
      ensures words == old(words) && rawRequestBody == old(rawRequestBody)
      ensures errors == old(errors) + FormatErrors(words)
    {
      if !PresentArray(words) {
        return;
      }
      var items := words.items;
      var invalid: seq<InvalidWord> := [];
      var i := 0;
      while i < |items|
        invariant 0 <= i <= |items|
        invariant invalid == InvalidWordsOf(items[..i])
      {
        assert items[..i + 1][..i] == items[..i];
        if items[i].JStr? {
          var reason := ReasonFor(items[i].s);
          if reason.Some? {
            invalid := invalid + [InvalidWord(i, items[i].s, reason.value)];
          }
        }
        i := i + 1;
      }
      assert items[..i] == items;
      if invalid == [] {
        return;
      }
      errors := errors + [InvalidWords(invalid)];
    }

    /** `valid?`: clears the errors and runs the validators in order. */
    method Valid() returns (ok: bool)
      modifies this
      ensures var v := Validate(old(words), old(rawRequestBody));
        words == v.words && errors == v.errors
      ensures rawRequestBody == old(rawRequestBody)
      ensures ok <==> errors == []
    {
      ghost var c := RawBodyCheck(words, rawRequestBody);
      errors := [];
      ValidateRawRequestBody();
      assert errors == c.errors;
      ValidateWordsArray();
      ValidateWordsCount();
      ValidateWordsFormat();
      ok := errors == [];
    }

    /** `submit`: false for a failing form; otherwise the words are sanitised. */
    method Submit() returns (ok: bool)
      modifies this
      ensures ok <==> Validate(old(words), old(rawRequestBody)).errors == []
      ensures words == Submitted(old(words), old(rawRequestBody))
      ensures errors == Validate(old(words), old(rawRequestBody)).errors
      ensures rawRequestBody == old(rawRequestBody)
    {
      ghost var w0, r0 := words, rawRequestBody;
      ok := Valid();
      if !ok {
        return;
      }
      SubmittedOfValid(w0, r0);
      words := JArr(SanitizeItems(words.items));
    }

    /** `processed_words`. */
    method ProcessedWords() returns (r: seq<string>)
      modifies this
      ensures r == Processed(old(words), old(rawRequestBody))
      ensures var v := Validate(old(words), old(rawRequestBody));
        words == v.words && errors == v.errors
      ensures rawRequestBody == old(rawRequestBody)
    {
      ghost var w0, r0 := words, rawRequestBody;
      var ok := Valid();
      if !ok {
        return [];
      }
      ValidatedWords(w0, r0);
      r := UniqSort(Texts(words.items));
    }
  }
}
