/** The handful of Ruby and ActiveSupport `String` operations the application relies on,
    stated over `seq<char>`: `blank?`, `strip`, `downcase`, `sub`, `split(sep).first`,
    `Array#join` and the ordering `String#<=>` that `Array#sort` uses. */
module RubyStrings {
  import opened Wrappers

  /** The ASCII whitespace characters: those of the regular-expression class `\s`, and the
      ASCII members of `[[:space:]]`, which `String#blank?` uses. */
  predicate IsSpace(c: char) {
    c == ' ' || c == '\t' || c == '\n' || c == '\U{0B}' || c == '\U{0C}' || c == '\r'
  }

  /** `String#strip` also removes NUL characters. */
  predicate IsStripSpace(c: char) {
    IsSpace(c) || c == '\0'
  }

  /** ActiveSupport's `String#blank?`: empty or whitespace only. */
  predicate Blank(s: string) {
    forall i :: 0 <= i < |s| ==> IsSpace(s[i])
  }

  /** The number of strip-whitespace characters at the front of `s`. */
  function LeadingSpace(s: string): (n: nat)
    ensures n <= |s|
    ensures forall i :: 0 <= i < n ==> IsStripSpace(s[i])
    ensures n < |s| ==> !IsStripSpace(s[n])
  {
    if |s| == 0 || !IsStripSpace(s[0]) then 0 else 1 + LeadingSpace(s[1..])
  }

  /** The length of `s` without its trailing strip-whitespace characters. */
  function TrailingSpaceStart(s: string): (n: nat)
    ensures n <= |s|
    ensures forall i :: n <= i < |s| ==> IsStripSpace(s[i])
    ensures n > 0 ==> !IsStripSpace(s[n - 1])
  {
    if |s| == 0 || !IsStripSpace(s[|s| - 1]) then |s| else TrailingSpaceStart(s[..|s| - 1])
  }

  /** `String#strip`: `s` without leading and trailing whitespace. */
  function Strip(s: string): string {
    var a := LeadingSpace(s);
    s[a..][..TrailingSpaceStart(s[a..])]
  }

  /** What `strip` keeps is a contiguous piece of `s`, it starts and ends with a
      non-whitespace character, and everything it drops is whitespace. */
  lemma StripSpec(s: string)
    ensures var r := Strip(s);
      && |r| <= |s|
      && (r != [] ==> !IsStripSpace(r[0]) && !IsStripSpace(r[|r| - 1]))
      && exists a: nat, b: nat {:trigger s[a..b]} :: a <= b <= |s| && r == s[a..b]
           && (forall i :: 0 <= i < a ==> IsStripSpace(s[i]))
           && (forall i :: b <= i < |s| ==> IsStripSpace(s[i]))
  {
    var a := LeadingSpace(s);
    var t := s[a..];
    var b := TrailingSpaceStart(t);
    assert Strip(s) == s[a..a + b];
    forall i | a + b <= i < |s| ensures IsStripSpace(s[i]) {
      assert s[i] == t[i - a];
    }
    if b > 0 {
      assert !IsStripSpace(t[0]);
    }
  }

  /** `strip` removes exactly the whitespace padding around a word that starts and ends
      with a non-whitespace character. */
  lemma StripPadded(pre: string, w: string, post: string)
    requires forall i :: 0 <= i < |pre| ==> IsStripSpace(pre[i])
    requires forall i :: 0 <= i < |post| ==> IsStripSpace(post[i])
    requires |w| > 0 && !IsStripSpace(w[0]) && !IsStripSpace(w[|w| - 1])
    ensures Strip(pre + w + post) == w
  {
    var s := pre + w + post;
    var a := LeadingSpace(s);
    assert s[|pre|] == w[0];
    assert forall i :: 0 <= i < |pre| ==> s[i] == pre[i];
    assert a == |pre|;
    var t := s[a..];
    assert t == w + post;
    var b := TrailingSpaceStart(t);
    assert t[|w| - 1] == w[|w| - 1];
    assert forall i :: |w| <= i < |t| ==> t[i] == post[i - |w|];
    assert b == |w|;
    assert t[..b] == w;
  }

  /** Every character `strip` keeps comes from `s`. */
  lemma StripChars(s: string)
    ensures forall i :: 0 <= i < |Strip(s)| ==> Strip(s)[i] in s
  {
    var a := LeadingSpace(s);
    var t := s[a..];
    forall i | 0 <= i < |Strip(s)| ensures Strip(s)[i] in s {
      assert Strip(s)[i] == s[a + i];
    }
  }

  /** A string with a character that is neither whitespace nor NUL keeps that character,
      so it does not strip to a blank string. */
  lemma StripKeepsContent(s: string, k: nat)
    requires k < |s| && !IsStripSpace(s[k])
    ensures !Blank(Strip(s)) && |Strip(s)| > 0
  {
    var a := LeadingSpace(s);
    var t := s[a..];
    var b := TrailingSpaceStart(t);
    assert a <= k;
    assert t[k - a] == s[k];
    assert k - a < b;
    assert Strip(s)[k - a] == s[k];
  }

  /** The ASCII part of `String#downcase` on one character. */
  function DowncaseChar(c: char): char {
    if 'A' <= c <= 'Z' then (c as int + 32) as char else c
  }

  /** `String#downcase` on ASCII letters; other characters are kept. */
  function Downcase(s: string): (r: string)
    ensures |r| == |s|
    ensures forall i :: 0 <= i < |s| ==> r[i] == DowncaseChar(s[i])
  {
    seq(|s|, i requires 0 <= i < |s| => DowncaseChar(s[i]))
  }

  /** Lower-casing twice is lower-casing once. */
  lemma DowncaseIdempotent(s: string)
    ensures Downcase(Downcase(s)) == Downcase(s)
  {
  }

  /** A hexadecimal digit in either case (the class `[0-9a-f]` under the `/i` flag). */
  predicate IsHexDigit(c: char) {
    '0' <= c <= '9' || 'a' <= c <= 'f' || 'A' <= c <= 'F'
  }

  /** A hexadecimal digit as `Digest#hexdigest` writes it. */
  predicate IsLowerHexDigit(c: char) {
    '0' <= c <= '9' || 'a' <= c <= 'f'
  }

  /** `Array#join(sep)` on an array of strings. */
  function Join(ws: seq<string>, sep: string): string
    decreases |ws|
  {
    if |ws| == 0 then "" else if |ws| == 1 then ws[0] else ws[0] + sep + Join(ws[1..], sep)
  }

  /** `pat` occurs in `s` starting at index `i`. */
  predicate OccursAt(s: string, pat: string, i: nat) {
    i + |pat| <= |s| && s[i..i + |pat|] == pat
  }

  /** The first index at or after `from` where `pat` occurs in `s`, or `None`. */
  function FirstOccurrenceFrom(s: string, pat: string, from: nat): (r: Option<nat>)
    ensures r.Some? ==> from <= r.value && OccursAt(s, pat, r.value)
    ensures r.Some? ==> forall j :: from <= j < r.value ==> !OccursAt(s, pat, j)
    ensures r.None? ==> forall j :: from <= j ==> !OccursAt(s, pat, j)
    decreases |s| - from
  {
    if from + |pat| > |s| then None
    else if OccursAt(s, pat, from) then Some(from)
    else FirstOccurrenceFrom(s, pat, from + 1)
  }

  /** The first index where `pat` occurs in `s`, or `None`. */
  function FirstOccurrence(s: string, pat: string): Option<nat> {
    FirstOccurrenceFrom(s, pat, 0)
  }

  /** `String#sub(pat, rep)` with a literal string pattern: replaces the first occurrence of
      `pat` only; a string without `pat` is returned unchanged. */
  function Sub(s: string, pat: string, rep: string): string {
    match FirstOccurrence(s, pat)
    case None => s
    case Some(i) => s[..i] + rep + s[i + |pat|..]
  }

  /** The index of the first `sep` in `s`, or `|s|`. */
  function FieldEnd(s: string, sep: char): (n: nat)
    ensures n <= |s|
    ensures forall i :: 0 <= i < n ==> s[i] != sep
    ensures n < |s| ==> s[n] == sep
  {
    if |s| == 0 || s[0] == sep then 0 else 1 + FieldEnd(s[1..], sep)
  }

  /** `s.split(sep).first` for a one-character, non-space separator. `split` drops trailing
      empty fields, so a string made only of separators (the empty string included) splits
      into `[]` and `first` is `nil`; otherwise the first field, which may be empty. */
  function SplitFirst(s: string, sep: char): Option<string> {
    if forall i :: 0 <= i < |s| ==> s[i] == sep then None else Some(s[..FieldEnd(s, sep)])
  }

  /** `a <=> b` is -1: byte-wise (here code-point-wise) lexicographic order. */
  predicate Less(a: string, b: string)
    decreases |a|
  {
    if |a| == 0 then |b| > 0
    else |b| > 0 && (a[0] < b[0] || (a[0] == b[0] && Less(a[1..], b[1..])))
  }

  lemma {:induction false} LessIrreflexive(a: string)
    ensures !Less(a, a)
    decreases |a|
  {
    if |a| > 0 {
      LessIrreflexive(a[1..]);
    }
  }

  lemma {:induction false} LessTransitive(a: string, b: string, c: string)
    requires Less(a, b) && Less(b, c)
    ensures Less(a, c)
    decreases |a|
  {
    if |a| > 0 && a[0] == b[0] && b[0] == c[0] {
      LessTransitive(a[1..], b[1..], c[1..]);
    }
  }

  lemma {:induction false} LessTrichotomy(a: string, b: string)
    ensures Less(a, b) || a == b || Less(b, a)
    decreases |a|
  {
    if |a| > 0 && |b| > 0 && a[0] == b[0] {
      LessTrichotomy(a[1..], b[1..]);
      if a[1..] == b[1..] {
        assert a == [a[0]] + a[1..] && b == [b[0]] + b[1..];
      }
    }
  }

  lemma LessAsymmetric(a: string, b: string)
    requires Less(a, b)
    ensures !Less(b, a)
  {
    if Less(b, a) {
      LessTransitive(a, b, a);
      LessIrreflexive(a);
    }
  }
}
