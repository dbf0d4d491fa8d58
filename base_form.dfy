/** The helpers every form inherits: the UUID and word-format predicates and string
    sanitisation (strip, then ActiveSupport's `truncate` with its `"..."` omission). A
    Ruby `nil` argument is `None`. */
module BaseForm {
  import opened Wrappers
  import opened RubyStrings

  /** The length limit written into `valid_word_format?`. */
  const WordFormatMaxLength: nat := 50

  /** The omission `truncate` appends. */
  const Omission: string := "..."

  /** `s[a...b]` is made of hexadecimal digits (either case). */
  predicate HexRun(s: string, a: nat, b: nat)
    requires a <= b <= |s|
  {
    forall i :: a <= i < b ==> IsHexDigit(s[i])
  }

  /** `valid_uuid?(uuid)`: `uuid.to_s` matches `\A[0-9a-f]{8}-[0-9a-f]{4}-[0-9a-f]{4}-`
      `[0-9a-f]{4}-[0-9a-f]{12}\z` under `/i`; `nil.to_s` is the empty string. */
  predicate ValidUuid(uuid: Option<string>) {
    var s := uuid.GetOr("");
    && |s| == 36
    && HexRun(s, 0, 8) && s[8] == '-'
    && HexRun(s, 9, 13) && s[13] == '-'
    && HexRun(s, 14, 18) && s[18] == '-'
    && HexRun(s, 19, 23) && s[23] == '-'
    && HexRun(s, 24, 36)
  }

  /** The positions of the four dashes of a UUID. */
  predicate IsDashPosition(i: int) {
    i == 8 || i == 13 || i == 18 || i == 23
  }

  /** A UUID is 36 characters with a dash at exactly the four group boundaries and a hex
      digit everywhere else. */
  lemma ValidUuidPositions(s: string)
    ensures ValidUuid(Some(s)) <==>
      |s| == 36 && forall i :: 0 <= i < 36 ==>
        (IsDashPosition(i) ==> s[i] == '-') && (!IsDashPosition(i) ==> IsHexDigit(s[i]))
  {
  }

  /** Letter case does not matter to `valid_uuid?`. */
  lemma ValidUuidCaseInsensitive(s: string)
    ensures ValidUuid(Some(Downcase(s))) <==> ValidUuid(Some(s))
  {
    ValidUuidPositions(s);
    ValidUuidPositions(Downcase(s));
  }

  /** Five hex groups of lengths 8, 4, 4, 4 and 12 joined by dashes form a UUID. */
  lemma ValidUuidOfGroups(g1: string, g2: string, g3: string, g4: string, g5: string)
    requires |g1| == 8 && |g2| == 4 && |g3| == 4 && |g4| == 4 && |g5| == 12
    requires HexRun(g1, 0, 8) && HexRun(g2, 0, 4) && HexRun(g3, 0, 4)
    requires HexRun(g4, 0, 4) && HexRun(g5, 0, 12)
    ensures ValidUuid(Some(g1 + "-" + g2 + "-" + g3 + "-" + g4 + "-" + g5))
  {
    var s := g1 + "-" + g2 + "-" + g3 + "-" + g4 + "-" + g5;
    assert forall i :: 0 <= i < 8 ==> s[i] == g1[i];
    assert forall i :: 9 <= i < 13 ==> s[i] == g2[i - 9];
    assert forall i :: 14 <= i < 18 ==> s[i] == g3[i - 14];
    assert forall i :: 19 <= i < 23 ==> s[i] == g4[i - 19];
    assert forall i :: 24 <= i < 36 ==> s[i] == g5[i - 24];
  }

  lemma ValidUuidLowerExample()
    ensures ValidUuid(Some("550e8400-e29b-41d4-a716-446655440000"))
  {
    ValidUuidLowerExampleGroups();
    ValidUuidOfGroups("550e8400", "e29b", "41d4", "a716", "446655440000");
    ValidUuidLowerExampleJoin();
  }

  lemma ValidUuidLowerExampleGroups()
    ensures HexRun("550e8400", 0, 8)
    ensures HexRun("e29b", 0, 4)
    ensures HexRun("41d4", 0, 4)
    ensures HexRun("a716", 0, 4)
    ensures HexRun("446655440000", 0, 12)
  {
  }

  lemma ValidUuidLowerExampleJoin()
    ensures "550e8400" + "-" + "e29b" + "-" + "41d4" + "-" + "a716" + "-" + "446655440000"
         == "550e8400-e29b-41d4-a716-446655440000"
  {
  }

  lemma ValidUuidUpperExample()
    ensures ValidUuid(Some("550E8400-E29B-41D4-A716-446655440000"))
  {
    ValidUuidUpperExampleGroups();
    ValidUuidOfGroups("550E8400", "E29B", "41D4", "A716", "446655440000");
    ValidUuidUpperExampleJoin();
  }

  lemma ValidUuidUpperExampleGroups()
    ensures HexRun("550E8400", 0, 8)
    ensures HexRun("E29B", 0, 4)
    ensures HexRun("41D4", 0, 4)
    ensures HexRun("A716", 0, 4)
    ensures HexRun("446655440000", 0, 12)
  {
  }

  lemma ValidUuidUpperExampleJoin()
    ensures "550E8400" + "-" + "E29B" + "-" + "41D4" + "-" + "A716" + "-" + "446655440000"
         == "550E8400-E29B-41D4-A716-446655440000"
  {
  }

  lemma ValidUuidRejects()
    ensures !ValidUuid(Some("invalid-uuid"))
    ensures !ValidUuid(Some("550e8400-e29b-41d4-a716-44665544000"))
    ensures !ValidUuid(Some("550e8400-e29b-41d4-a716-4466554400000"))
    ensures !ValidUuid(Some(""))
    ensures !ValidUuid(None)
  {
  }

  /** A character of the class `[a-zA-Z\-'\s]`. */
  predicate IsWordChar(c: char) {
    'a' <= c <= 'z' || 'A' <= c <= 'Z' || c == '-' || c == '\'' || IsSpace(c)
  }

  /** `word.match?(/\A[a-zA-Z\-'\s]+\z/)`. */
  predicate MatchesWordPattern(w: string) {
    |w| > 0 && forall i :: 0 <= i < |w| ==> IsWordChar(w[i])
  }

  /** `valid_word_format?(word)`: not blank, at most 50 characters, and only letters,
      hyphens, apostrophes and whitespace. */
  predicate ValidWordFormat(word: Option<string>) {
    if word.None? || Blank(word.value) then false
    else if |word.value| > WordFormatMaxLength then false
    else MatchesWordPattern(word.value)
  }

  /** An accepted word is 1 to 50 word characters, at least one of which is a letter, a
      hyphen or an apostrophe; and conversely. */
  lemma ValidWordFormatSpec(w: string)
    ensures ValidWordFormat(Some(w)) <==>
      && 1 <= |w| <= 50
      && (forall i :: 0 <= i < |w| ==> IsWordChar(w[i]))
      && (exists i :: 0 <= i < |w| && !IsSpace(w[i]))
  {
  }

  /** An accepted word contains no NUL, so the non-whitespace character that keeps it
      from being blank survives `strip`. */
  lemma ValidWordHasContent(w: string) returns (k: nat)
    requires ValidWordFormat(Some(w))
    ensures k < |w| && !IsStripSpace(w[k])
  {
    k :| 0 <= k < |w| && !IsSpace(w[k]);
  }

  lemma ValidWordFormatExamples()
    ensures ValidWordFormat(Some("hello"))
    ensures ValidWordFormat(Some("world's"))
    ensures ValidWordFormat(Some("co-operation"))
    ensures ValidWordFormat(Some("multiple words"))
  {
    assert "hello"[0] == 'h';
    assert "world's"[0] == 'w';
    assert "co-operation"[0] == 'c';
    assert "multiple words"[0] == 'm';
  }

  lemma ValidWordFormatRejects()
    ensures !ValidWordFormat(Some(""))
    ensures !ValidWordFormat(None)
    ensures !ValidWordFormat(Some(seq(51, _ => 'a')))
    ensures !ValidWordFormat(Some("inv@lid"))
    ensures !ValidWordFormat(Some("word123"))
    ensures !ValidWordFormat(Some("word!"))
  {
    assert "inv@lid"[3] == '@';
    assert "word123"[4] == '1';
    assert "word!"[4] == '!';
  }

  /** ActiveSupport's `String#truncate(max)`: a string of at most `max` characters is kept;
      a longer one keeps its first `max - 3` characters and gains `"..."`. When `max` is
      below 3 the kept part is empty (`self[0, negative]` is `nil`). */
  function Truncate(s: string, max: nat): string {
    if |s| <= max then s
    else (if max >= 3 then s[..max - 3] else "") + Omission
  }

  /** A truncated string is a prefix of the original followed by `"..."`, exactly `max`
      characters long (3 when `max` is smaller), so never longer than `max` once
      `max >= 3`. */
  lemma TruncateSpec(s: string, max: nat)
    ensures |s| <= max ==> Truncate(s, max) == s
    ensures |s| > max ==>
      var r := Truncate(s, max);
      && |r| == (if max >= 3 then max else 3)
      && r[|r| - 3..] == Omission
      && r[..|r| - 3] == s[..|r| - 3]
    ensures max >= 3 ==> |Truncate(s, max)| <= max
  {
  }

  /** `sanitize_string(string, max_length:)`: `nil` for a missing or blank value;
      otherwise the stripped value, truncated. */
  function SanitizeString(str: Option<string>, maxLength: nat): Option<string> {
    if str.None? || Blank(str.value) then None
    else Some(Truncate(Strip(str.value), maxLength))
  }

  /** `sanitize_string` gives `nil` exactly for `nil` and blank input; a stripped value
      within the limit comes back unchanged, and a longer one is cut to exactly the limit
      (for limits of at least 3). */
  lemma SanitizeStringSpec(str: Option<string>, maxLength: nat)
    ensures SanitizeString(str, maxLength).None? <==> str.None? || Blank(str.value)
    ensures str.Some? && !Blank(str.value) && |Strip(str.value)| <= maxLength ==>
      SanitizeString(str, maxLength) == Some(Strip(str.value))
    ensures str.Some? && !Blank(str.value) && |Strip(str.value)| > maxLength >= 3 ==>
      |SanitizeString(str, maxLength).value| == maxLength
  {
    if str.Some? && !Blank(str.value) {
      TruncateSpec(Strip(str.value), maxLength);
    }
  }

  /** An accepted word, sanitised at the word limit, is the word stripped, and the
      result is still an accepted word. */
  lemma SanitizeValidWord(w: string)
    requires ValidWordFormat(Some(w))
    ensures SanitizeString(Some(w), WordFormatMaxLength) == Some(Strip(w))
    ensures ValidWordFormat(Some(Strip(w)))
  {
    var k := ValidWordHasContent(w);
    StripKeepsContent(w, k);
    StripSpec(w);
    StripChars(w);
    var r := Strip(w);
    assert |r| <= |w|;
    forall i | 0 <= i < |r| ensures IsWordChar(r[i]) {
      assert r[i] in w;
    }
    assert MatchesWordPattern(r);
  }

  lemma SanitizeBlankExamples()
    ensures SanitizeString(Some(""), 255).None?
    ensures SanitizeString(None, 255).None?
    ensures SanitizeString(Some("   "), 255).None?
  {
  }

  lemma SanitizeStripExample()
    ensures SanitizeString(Some("  hello world  "), 255) == Some("hello world")
  {
    var s := "  hello world  ";
    StripPadded("  ", "hello world", "  ");
    assert "  " + "hello world" + "  " == s;
    assert !Blank(s) by {
      assert s[2] == 'h';
    }
  }

  lemma SanitizeKeepExample()
    ensures SanitizeString(Some("test"), 255) == Some("test")
  {
    assert !Blank("test") by {
      assert "test"[0] == 't';
    }
    StripPadded("", "test", "");
    assert "" + "test" + "" == "test";
    assert Strip("test") == "test";
  }

  /** Three hundred letters truncated to 100 give exactly 100 characters ending in
      `"..."`. */
  lemma TruncateLongExample()
    ensures var r := SanitizeString(Some(seq(300, _ => 'a')), 100);
      r.Some? && |r.value| == 100 && r.value[97..] == Omission
  {
    var s: string := seq(300, _ => 'a');
    assert s[0] == 'a' && !IsSpace(s[0]);
    assert LeadingSpace(s) == 0;
    assert s[0..] == s;
    assert TrailingSpaceStart(s) == 300;
    assert Strip(s) == s;
    TruncateSpec(s, 100);
  }

  /** A value of only NUL characters is not blank (`blank?` does not count NUL as
      whitespace) but strips to the empty string, so `sanitize_string` returns `""`
      rather than `nil`. */
  lemma NulOnlySanitizesToEmpty()
    ensures SanitizeString(Some("\0"), 255) == Some("")
  {
    assert !IsSpace("\0"[0]);
  }
}
