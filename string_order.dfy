/**
 * The ordering Python's `sorted` uses on `str` values, and `sorted(list(set(xs)))`
 * for a list of strings: the one strictly increasing list that holds exactly the
 * distinct elements of `xs`.
 */
module StringOrder {

  /** `a` and `b` agree on their first `k` characters, and at position `k` either `a`
      has ended while `b` goes on or `a` has the smaller code point. */
  ghost predicate FirstDifferenceAt(a: string, b: string, k: nat)
  {
    k <= |a| && k < |b| && a[..k] == b[..k] && (k == |a| || a[k] < b[k])
  }

  /** Python's `a < b` on strings: lexicographic on code points, with a proper prefix
      ordered before the longer string. */
  function Less(a: string, b: string): (r: bool)
    ensures r <==> exists k: nat :: FirstDifferenceAt(a, b, k)
    decreases |a|
  {
    if |a| == 0 then
      assert |b| > 0 ==> FirstDifferenceAt(a, b, 0);
      |b| > 0
    else if |b| == 0 then false
    else if a[0] != b[0] then
      assert a[0] < b[0] ==> FirstDifferenceAt(a, b, 0);
      assert forall k: nat :: FirstDifferenceAt(a, b, k) ==> k == 0;
      a[0] < b[0]
    else
      var r := Less(a[1..], b[1..]);
      assert r ==> exists k: nat :: FirstDifferenceAt(a, b, k) by {
        if r {
          var k: nat :| FirstDifferenceAt(a[1..], b[1..], k);
          assert a[..k + 1] == [a[0]] + a[1..][..k];
          assert b[..k + 1] == [b[0]] + b[1..][..k];
          assert FirstDifferenceAt(a, b, k + 1);
        }
      }
      assert (exists k: nat :: FirstDifferenceAt(a, b, k)) ==> r by {
        if exists k: nat :: FirstDifferenceAt(a, b, k) {
          var k: nat :| FirstDifferenceAt(a, b, k);
          assert k > 0;
          assert a[1..][..k - 1] == a[..k][1..];
          assert b[1..][..k - 1] == b[..k][1..];
          assert FirstDifferenceAt(a[1..], b[1..], k - 1);
        }
      }
      r
  }

  lemma {:induction false} LessIrreflexive(a: string)
    ensures !Less(a, a)
    decreases |a|
  {
    if |a| > 0 {
      LessIrreflexive(a[1..]);
    }
  }

  lemma {:induction false} LessTransitive(a: string, b: string, c: string)
    requires Less(a, b) && Less(b, c)
    ensures Less(a, c)
    decreases |a|
  {
    if |a| > 0 && |b| > 0 && |c| > 0 && a[0] == b[0] && b[0] == c[0] {
      LessTransitive(a[1..], b[1..], c[1..]);
    }
  }

  /** Any two different strings are ordered one way or the other. */
  lemma {:induction false} LessTotal(a: string, b: string)
    requires a != b
    ensures Less(a, b) || Less(b, a)
    decreases |a|
  {
    if |a| > 0 && |b| > 0 && a[0] == b[0] {
      assert a == [a[0]] + a[1..] && b == [b[0]] + b[1..];
      LessTotal(a[1..], b[1..]);
    }
  }

  lemma LessAsymmetric(a: string, b: string)
    requires Less(a, b)
    ensures !Less(b, a)
  {
    if Less(b, a) {
      LessTransitive(a, b, a);
      LessIrreflexive(a);
    }
  }

  /** Every element is smaller than every later one: sorted and free of duplicates. */
  ghost predicate StrictlySorted(s: seq<string>)
  {
    forall i, j :: 0 <= i < j < |s| ==> Less(s[i], s[j])
  }

  ghost predicate NoDuplicates(s: seq<string>)
  {
    forall i, j :: 0 <= i < j < |s| ==> s[i] != s[j]
  }

  lemma StrictlySortedHasNoDuplicates(s: seq<string>)
    requires StrictlySorted(s)
    ensures NoDuplicates(s)
  {
    forall i, j | 0 <= i < j < |s|
      ensures s[i] != s[j]
    {
      LessIrreflexive(s[i]);
    }
  }

  /** Putting a head smaller than every element in front of a strictly sorted list. */
  lemma ConsSorted(h: string, t: seq<string>)
    requires StrictlySorted(t)
    requires forall y :: y in t ==> Less(h, y)
    ensures StrictlySorted([h] + t)
  {
    var s := [h] + t;
    forall i, j | 0 <= i < j < |s|
      ensures Less(s[i], s[j])
    {
      if i == 0 {
        assert s[j] == t[j - 1] && t[j - 1] in t;
      } else {
        assert s[i] == t[i - 1] && s[j] == t[j - 1];
      }
    }
  }

  /** A bound below the head of a strictly sorted list bounds all of it. */
  lemma BelowHead(x: string, s: seq<string>)
    requires StrictlySorted(s) && |s| > 0 && Less(x, s[0])
    ensures forall y :: y in s ==> Less(x, y)
  {
    forall y | y in s
      ensures Less(x, y)
    {
      var k :| 0 <= k < |s| && s[k] == y;
      if k > 0 {
        LessTransitive(x, s[0], s[k]);
      }
    }
  }

  /** Inserts `x` into a strictly sorted list unless it is already there. */
  function Insert(s: seq<string>, x: string): (r: seq<string>)
    requires StrictlySorted(s)
    ensures StrictlySorted(r)
    ensures forall y :: y in r <==> y in s || y == x
  {
    if |s| == 0 then
      [x]
    else if x == s[0] then
      s
    else if Less(x, s[0]) then
      BelowHead(x, s);
      ConsSorted(x, s);
      [x] + s
    else
      LessTotal(x, s[0]);
      var t := s[1..];
      assert StrictlySorted(t) by {
        forall i, j | 0 <= i < j < |t|
          ensures Less(t[i], t[j])
        {
          assert t[i] == s[i + 1] && t[j] == s[j + 1];
        }
      }
      var rest := Insert(t, x);
      assert forall y :: y in t ==> Less(s[0], y) by {
        forall y | y in t
          ensures Less(s[0], y)
        {
          var k :| 0 <= k < |t| && t[k] == y;
          assert s[k + 1] == y;
        }
      }
      ConsSorted(s[0], rest);
      assert s == [s[0]] + t;
      [s[0]] + rest
  }

  /** `sorted(list(set(xs)))`: the distinct elements of `xs` in increasing order. */
  function SortedDistinct(xs: seq<string>): (r: seq<string>)
    ensures StrictlySorted(r)
    ensures forall y :: y in r <==> y in xs
  {
    if |xs| == 0 then
      []
    else
      var init := xs[..|xs| - 1];
      assert xs == init + [xs[|xs| - 1]];
      Insert(SortedDistinct(init), xs[|xs| - 1])
  }

  /** A strictly sorted list is determined by its elements. */
  lemma {:induction false} StrictlySortedIsUnique(a: seq<string>, b: seq<string>)
    requires StrictlySorted(a) && StrictlySorted(b)
    requires forall y :: y in a <==> y in b
    ensures a == b
    decreases |a|
  {
    if |a| > 0 || |b| > 0 {
      var x := if |a| > 0 then a[0] else b[0];
      assert x in a && x in b;
      assert a[0] in a && b[0] in b;
      if a[0] != b[0] {
        var m :| 0 <= m < |a| && a[m] == b[0];
        var k :| 0 <= k < |b| && b[k] == a[0];
        assert Less(a[0], b[0]);
        assert Less(b[0], a[0]);
        LessAsymmetric(a[0], b[0]);
      }
      var a', b' := a[1..], b[1..];
      assert StrictlySorted(a') by {
        forall i, j | 0 <= i < j < |a'| ensures Less(a'[i], a'[j]) {
          assert a'[i] == a[i + 1] && a'[j] == a[j + 1];
        }
      }
      assert StrictlySorted(b') by {
        forall i, j | 0 <= i < j < |b'| ensures Less(b'[i], b'[j]) {
          assert b'[i] == b[i + 1] && b'[j] == b[j + 1];
        }
      }
      forall y
        ensures y in a' <==> y in b'
      {
        if y in a' {
          var i :| 0 <= i < |a'| && a'[i] == y;
          assert Less(a[0], a[i + 1]);
          LessIrreflexive(y);
          assert y in b && y != b[0];
          var j :| 0 <= j < |b| && b[j] == y;
          assert j > 0 && b'[j - 1] == y;
        }
        if y in b' {
          var j :| 0 <= j < |b'| && b'[j] == y;
          assert Less(b[0], b[j + 1]);
          LessIrreflexive(y);
          assert y in a && y != a[0];
          var i :| 0 <= i < |a| && a[i] == y;
          assert i > 0 && a'[i - 1] == y;
        }
      }
      StrictlySortedIsUnique(a', b');
      assert a == [a[0]] + a' && b == [b[0]] + b';
    }
  }

  /** `SortedDistinct(xs)` is the only strictly sorted list of the elements of `xs`,
      so it is exactly what `sorted(list(set(xs)))` returns, whatever order `set`
      iterates in. */
  lemma SortedDistinctIsCanonical(xs: seq<string>, r: seq<string>)
    requires StrictlySorted(r)
    requires forall y :: y in r <==> y in xs
    ensures r == SortedDistinct(xs)
  {
    StrictlySortedIsUnique(r, SortedDistinct(xs));
  }

  /** Lists with the same elements give the same vocabulary or tag list. */
  lemma SortedDistinctDependsOnlyOnElements(xs: seq<string>, ys: seq<string>)
    requires forall y :: y in xs <==> y in ys
    ensures SortedDistinct(xs) == SortedDistinct(ys)
  {
    SortedDistinctIsCanonical(ys, SortedDistinct(xs));
  }
}
