/** The content key of a batch: `"batch:"` followed by the first 16 hex characters of the
    SHA-256 digest of the words joined with commas. The digest is a parameter: the model
    requires of it only that it yields 64 lower-case hex characters. */
module BatchKeyGenerator {
  import opened Wrappers
  import opened RubyStrings

  const BatchPrefix: string := "batch:"

  /** What `Digest::SHA256.hexdigest` returns: 64 lower-case hex characters. */
  predicate IsHexDigest(h: string) {
    |h| == 64 && forall i :: 0 <= i < |h| ==> IsLowerHexDigit(h[i])
  }

  /** `hash[0..15]`: the first 16 characters, or the whole string if it is shorter. */
  function First16(h: string): string {
    if |h| <= 16 then h else h[..16]
  }

  /** `generate(words)`. */
  function Generate(words: seq<string>, hexdigest: string -> string): string {
    BatchPrefix + First16(hexdigest(Join(words, ",")))
  }

  /** `extract_job_id(batch_key)`: `batch_key.sub('batch:', '')`. `JobCacheService` has a
      method of the same name with the same body; the model uses this one for both. */
  function ExtractJobId(batchKey: string): string {
    Sub(batchKey, BatchPrefix, "")
  }

  /** A generated key is `"batch:"` and 16 lower-case hex characters of the digest: 22
      characters in all. */
  lemma GenerateShape(words: seq<string>, hexdigest: string -> string)
    requires IsHexDigest(hexdigest(Join(words, ",")))
    ensures var key := Generate(words, hexdigest);
      && |key| == 22
      && key[..6] == BatchPrefix
      && key[6..] == hexdigest(Join(words, ","))[..16]
      && forall i :: 6 <= i < 22 ==> IsLowerHexDigit(key[i])
  {
    var h := hexdigest(Join(words, ","));
    var key := Generate(words, hexdigest);
    assert key == BatchPrefix + h[..16];
    forall i | 6 <= i < 22 ensures IsLowerHexDigit(key[i]) {
      assert key[i] == h[i - 6];
    }
  }

  /** `"batch:"` occurs at the front of `"batch:" + s`. */
  lemma PrefixOccursFirst(s: string)
    ensures FirstOccurrence(BatchPrefix + s, BatchPrefix) == Some(0)
  {
    assert OccursAt(BatchPrefix + s, BatchPrefix, 0) by {
      assert (BatchPrefix + s)[0..|BatchPrefix|] == BatchPrefix;
    }
  }

  /** Stripping the prefix undoes adding it, for every suffix (the empty one included). */
  lemma ExtractJobIdRoundTrip(s: string)
    ensures ExtractJobId(BatchPrefix + s) == s
  {
    PrefixOccursFirst(s);
    assert (BatchPrefix + s)[|BatchPrefix|..] == s;
  }

  /** A key that does not contain `"batch:"` is returned unchanged. */
  lemma ExtractJobIdWithoutPrefix(s: string)
    requires forall i: nat :: !OccursAt(s, BatchPrefix, i)
    ensures ExtractJobId(s) == s
  {
  }

  /** `sub` removes only the first occurrence. */
  lemma ExtractJobIdRemovesOnlyFirst()
    ensures ExtractJobId("batch:batch:x") == "batch:x"
  {
    ExtractJobIdRoundTrip("batch:x");
  }

  /** The job id of a generated key is the 16-character digest prefix. */
  lemma GeneratedJobId(words: seq<string>, hexdigest: string -> string)
    requires IsHexDigest(hexdigest(Join(words, ",")))
    ensures var id := ExtractJobId(Generate(words, hexdigest));
      && id == hexdigest(Join(words, ","))[..16]
      && |id| == 16
      && forall i :: 0 <= i < 16 ==> IsLowerHexDigit(id[i])
  {
    var h := hexdigest(Join(words, ","));
    ExtractJobIdRoundTrip(First16(h));
  }

  /** Splits a comma-joined list into its first word and the rest. */
  lemma JoinCons(ws: seq<string>)
    requires |ws| >= 2
    ensures Join(ws, ",") == ws[0] + "," + Join(ws[1..], ",")
  {
  }

  /** For words without commas the join is injective on non-empty lists, so two different
      lists never reach the digest as the same string. */
  lemma {:induction false} JoinInjective(a: seq<string>, b: seq<string>)
    requires |a| > 0 && |b| > 0
    requires forall i :: 0 <= i < |a| ==> ',' !in a[i]
    requires forall i :: 0 <= i < |b| ==> ',' !in b[i]
    requires Join(a, ",") == Join(b, ",")
    ensures a == b
    decreases |a|
  {
    var s := Join(a, ",");
    assert s[..|a[0]|] == a[0] by {
      if |a| >= 2 {
        JoinCons(a);
      }
    }
    assert s[..|b[0]|] == b[0] by {
      if |b| >= 2 {
        JoinCons(b);
      }
    }
    CommaAfterFirstWord(a, s);
    CommaAfterFirstWord(b, s);
    FirstWordsAgree(a, b, s);
    if |a| >= 2 && |b| >= 2 {
      JoinCons(a);
      JoinCons(b);
      var ra := Join(a[1..], ",");
      var rb := Join(b[1..], ",");
      assert ra == s[|a[0]| + 1..];
      assert rb == s[|b[0]| + 1..];
      forall i | 0 <= i < |a[1..]| ensures ',' !in a[1..][i] {
        assert a[1..][i] == a[i + 1];
      }
      forall i | 0 <= i < |b[1..]| ensures ',' !in b[1..][i] {
        assert b[1..][i] == b[i + 1];
      }
      JoinInjective(a[1..], b[1..]);
      assert a == [a[0]] + a[1..] && b == [b[0]] + b[1..];
    }
  }

  /** The first words of two comma-free lists with the same join are equal: each one is
      what comes before the first comma (or the whole string). */
  lemma FirstWordsAgree(a: seq<string>, b: seq<string>, s: string)
    requires |a| > 0 && |b| > 0
    requires ',' !in a[0] && ',' !in b[0]
    requires s == Join(a, ",") && s == Join(b, ",")
    requires s[..|a[0]|] == a[0] && s[..|b[0]|] == b[0]
    ensures a[0] == b[0]
  {
    CommaAfterFirstWord(a, s);
    CommaAfterFirstWord(b, s);
  }

  /** In a join, the first word is followed by a comma or ends the string. */
  lemma CommaAfterFirstWord(ws: seq<string>, s: string)
    requires |ws| > 0 && s == Join(ws, ",")
    ensures |s| >= |ws[0]|
    ensures |s| > |ws[0]| <==> |ws| >= 2
    ensures |ws| >= 2 ==> s[|ws[0]|] == ','
  {
    if |ws| >= 2 {
      JoinCons(ws);
    }
  }

  /** Without the non-empty-list condition the join is not injective: `[]` and `[""]` both
      join to the empty string (validated batches never contain an empty word). */
  lemma JoinOfEmptyWord()
    ensures Join([], ",") == Join([""], ",")
  {
  }
}
