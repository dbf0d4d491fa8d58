/** `Array#uniq` and `Array#sort` on arrays of strings, and `uniq.sort` together. */
module RubyArrays {
  import opened RubyStrings

  /** No element occurs twice. */
  predicate NoDup(s: seq<string>) {
    forall i, j :: 0 <= i < j < |s| ==> s[i] != s[j]
  }

  /** `Array#uniq`: drops every later occurrence of an element, keeping first occurrences in
      their original order. */
  function Uniq(s: seq<string>): (r: seq<string>)
    ensures NoDup(r)
    ensures forall x :: x in r <==> x in s
    decreases |s|
  {
    if s == [] then []
    else
      var p := Uniq(s[..|s| - 1]);
      if s[|s| - 1] in p then p else p + [s[|s| - 1]]
  }

  /** `uniq` leaves an array without duplicates unchanged. */
  lemma {:induction false} UniqOfNoDup(s: seq<string>)
    requires NoDup(s)
    ensures Uniq(s) == s
    decreases |s|
  {
    if s != [] {
      var q := s[..|s| - 1];
      UniqOfNoDup(q);
      assert s[|s| - 1] !in q;
      assert q + [s[|s| - 1]] == s;
    }
  }

  /** First-occurrence order: appending elements never reorders or removes what `uniq`
      already kept, it only adds new elements at the end. */
  lemma {:induction false} UniqPrefix(a: seq<string>, b: seq<string>)
    ensures |Uniq(a)| <= |Uniq(a + b)|
    ensures Uniq(a + b)[..|Uniq(a)|] == Uniq(a)
    decreases |b|
  {
    if b == [] {
      assert a + b == a;
    } else {
      var b' := b[..|b| - 1];
      UniqPrefix(a, b');
      assert (a + b)[..|a + b| - 1] == a + b';
    }
  }

  /** `uniq` of a concatenation contains exactly the elements of both parts. */
  lemma UniqConcatMembers(a: seq<string>, b: seq<string>)
    ensures forall x :: x in Uniq(a + b) <==> x in a || x in b
  {
  }

  /** Non-decreasing under `String#<=>`. */
  predicate Sorted(s: seq<string>) {
    forall i, j :: 0 <= i < j < |s| ==> !Less(s[j], s[i])
  }

  /** Strictly increasing under `String#<=>`. */
  predicate StrictlyIncreasing(s: seq<string>) {
    forall i, j :: 0 <= i < j < |s| ==> Less(s[i], s[j])
  }

  /** Inserts `x` into a sorted array before the first element that is not less than it. */
  function Insert(x: string, s: seq<string>): (r: seq<string>)
    requires Sorted(s)
    ensures Sorted(r)
    ensures multiset(r) == multiset(s) + multiset{x}
    ensures forall y :: y in r <==> y == x || y in s
    decreases |s|
  {
    if s == [] then [x]
    else if Less(s[0], x) then
      var t := Insert(x, s[1..]);
      assert s == [s[0]] + s[1..];
      HeadBelowInserted(x, s, t);
      SortedCons(s[0], t);
      [s[0]] + t
    else
      NoneBelow(x, s);
      SortedCons(x, s);
      [x] + s
  }

  /** A sorted array stays sorted under a head that no element is less than. */
  lemma SortedCons(h: string, t: seq<string>)
    requires Sorted(t) && forall y :: y in t ==> !Less(y, h)
    ensures Sorted([h] + t)
  {
    var r := [h] + t;
    forall i, j | 0 <= i < j < |r| ensures !Less(r[j], r[i]) {
      assert r[j] == t[j - 1];
      if i > 0 {
        assert r[i] == t[i - 1];
      }
    }
  }

  lemma HeadBelowInserted(x: string, s: seq<string>, t: seq<string>)
    requires Sorted(s) && s != [] && Less(s[0], x)
    requires forall y :: y in t ==> y == x || y in s[1..]
    ensures forall y :: y in t ==> !Less(y, s[0])
  {
    forall y | y in t ensures !Less(y, s[0]) {
      if y == x {
        LessAsymmetric(s[0], x);
      } else {
        var k :| 0 <= k < |s[1..]| && s[1..][k] == y;
        assert s[k + 1] == y;
      }
    }
  }

  lemma NoneBelow(x: string, s: seq<string>)
    requires Sorted(s) && s != [] && !Less(s[0], x)
    ensures forall y :: y in s ==> !Less(y, x)
  {
    forall y | y in s ensures !Less(y, x) {
      var j :| 0 <= j < |s| && s[j] == y;
      if Less(s[j], x) {
        LessTrichotomy(s[0], x);
        if j > 0 {
          LessTrichotomy(s[j], s[0]);
          if s[j] != s[0] {
            LessTransitive(s[0], s[j], x);
          }
        }
      }
    }
  }

  /** `Array#sort`: a sorted permutation of `s`. */
  function Sort(s: seq<string>): (r: seq<string>)
    ensures Sorted(r)
    ensures multiset(r) == multiset(s)
    decreases |s|
  {
    if s == [] then []
    else
      assert s == s[..|s| - 1] + [s[|s| - 1]];
      Insert(s[|s| - 1], Sort(s[..|s| - 1]))
  }

  /** A sorted array without duplicates is strictly increasing. */
  lemma SortedNoDupIncreasing(s: seq<string>)
    requires Sorted(s) && NoDup(s)
    ensures StrictlyIncreasing(s)
  {
    forall i, j | 0 <= i < j < |s| ensures Less(s[i], s[j]) {
      LessTrichotomy(s[i], s[j]);
    }
  }

  /** `words.uniq.sort`. */
  function UniqSort(s: seq<string>): seq<string> {
    Sort(Uniq(s))
  }

  /** `uniq.sort` is strictly increasing and has exactly the elements of its input. */
  lemma UniqSortSpec(s: seq<string>)
    ensures StrictlyIncreasing(UniqSort(s))
    ensures forall x :: x in UniqSort(s) <==> x in s
  {
    var u := Uniq(s);
    var r := Sort(u);
    SameMultisetSameMembers(r, u);
    forall i, j | 0 <= i < j < |r| ensures r[i] != r[j] {
      if r[i] == r[j] {
        DuplicateCount(r, i, j);
        UniqCountAtMostOne(u, r[i]);
      }
    }
    SortedNoDupIncreasing(r);
  }

  lemma SameMultisetSameMembers(a: seq<string>, b: seq<string>)
    requires multiset(a) == multiset(b)
    ensures forall x :: x in a <==> x in b
  {
    forall x ensures x in a <==> x in b {
      assert x in a <==> x in multiset(a);
      assert x in b <==> x in multiset(b);
    }
  }

  lemma DuplicateCount(s: seq<string>, i: nat, j: nat)
    requires i < j < |s| && s[i] == s[j]
    ensures multiset(s)[s[i]] >= 2
  {
    assert s == s[..j] + s[j..];
    assert s[i] in s[..j];
    assert s[j] in s[j..];
  }

  lemma {:induction false} UniqCountAtMostOne(s: seq<string>, x: string)
    requires NoDup(s)
    ensures multiset(s)[x] <= 1
    decreases |s|
  {
    if s != [] {
      var q := s[..|s| - 1];
      assert s == q + [s[|s| - 1]];
      UniqCountAtMostOne(q, x);
      if s[|s| - 1] == x {
        assert x !in q;
      }
    }
  }

  /** The first element of a strictly increasing array is below every other element. */
  lemma HeadIsLeast(a: seq<string>, x: string)
    requires StrictlyIncreasing(a) && x in a && x != a[0]
    ensures Less(a[0], x)
  {
    var k :| 0 <= k < |a| && a[k] == x;
  }

  /** Two strictly increasing arrays with the same elements are equal. */
  lemma {:induction false} IncreasingUnique(a: seq<string>, b: seq<string>)
    requires StrictlyIncreasing(a) && StrictlyIncreasing(b)
    requires forall x :: x in a <==> x in b
    ensures a == b
    decreases |a|
  {
    assert a == [] <==> b == [] by {
      if a != [] {
        assert a[0] in a;
      }
      if b != [] {
        assert b[0] in b;
      }
    }
    if a != [] {
      assert a[0] in a && b[0] in b;
      if a[0] != b[0] {
        HeadIsLeast(a, b[0]);
        HeadIsLeast(b, a[0]);
        LessAsymmetric(a[0], b[0]);
      }
      assert a == [a[0]] + a[1..] && b == [b[0]] + b[1..];
      forall x ensures x in a[1..] <==> x in b[1..] {
        if x in a[1..] {
          var k :| 0 <= k < |a[1..]| && a[1..][k] == x;
          assert Less(a[0], a[k + 1]);
          LessIrreflexive(x);
          assert x in b && x != b[0];
        }
        if x in b[1..] {
          var k :| 0 <= k < |b[1..]| && b[1..][k] == x;
          assert Less(b[0], b[k + 1]);
          LessIrreflexive(x);
          assert x in a && x != a[0];
        }
      }
      IncreasingUnique(a[1..], b[1..]);
    }
  }

  /** `uniq.sort` depends only on the set of elements: any reordering or repetition of the
      same strings gives the same array. */
  lemma UniqSortSetDetermined(a: seq<string>, b: seq<string>)
    requires forall x :: x in a <==> x in b
    ensures UniqSort(a) == UniqSort(b)
  {
    UniqSortSpec(a);
    UniqSortSpec(b);
    IncreasingUnique(UniqSort(a), UniqSort(b));
  }
}
