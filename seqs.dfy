/** Generic sequence operations behind pandas' boolean masks and `unique()`. */
module Seqs {

  /** The elements of `s` that satisfy `p`, in their original order: a boolean-mask selection. */
  function Where<T(==,!new)>(s: seq<T>, p: T -> bool): (r: seq<T>)
    ensures |r| <= |s|
    ensures forall x :: x in r <==> x in s && p(x)
  {
    if |s| == 0 then []
    else if p(s[0]) then [s[0]] + Where(s[1..], p)
    else Where(s[1..], p)
  }

  /** `a` can be obtained from `b` by deleting elements: each element of `b` is either kept or skipped. */
  predicate SubsequenceOf<T(==,!new)>(a: seq<T>, b: seq<T>)
    decreases |b|
  {
    |a| == 0 || (|b| > 0 && ((a[0] == b[0] && SubsequenceOf(a[1..], b[1..])) || SubsequenceOf(a, b[1..])))
  }

  /** No element occurs twice. */
  predicate Distinct<T(==,!new)>(s: seq<T>)
  {
    forall i, j :: 0 <= i < j < |s| ==> s[i] != s[j]
  }

  /** A selection keeps the original order. */
  lemma {:induction false} WhereIsSubsequence<T(!new)>(s: seq<T>, p: T -> bool)
    ensures SubsequenceOf(Where(s, p), s)
  {
    if |s| > 0 {
      var rest := Where(s[1..], p);
      WhereIsSubsequence(s[1..], p);
      if p(s[0]) {
        assert ([s[0]] + rest)[0] == s[0];
        assert ([s[0]] + rest)[1..] == rest;
      }
    }
  }

  /** A selection keeps every copy of a satisfying element and no copy of any other. */
  lemma {:induction false} WhereCounts<T(!new)>(s: seq<T>, p: T -> bool)
    ensures forall x :: multiset(Where(s, p))[x] == if p(x) then multiset(s)[x] else 0
  {
    if |s| > 0 {
      WhereCounts(s[1..], p);
      assert s == [s[0]] + s[1..];
      assert multiset(s) == multiset{s[0]} + multiset(s[1..]);
    }
  }

  /** Selecting with a predicate every element satisfies changes nothing. */
  lemma {:induction false} WhereAll<T(!new)>(s: seq<T>, p: T -> bool)
    requires forall x :: x in s ==> p(x)
    ensures Where(s, p) == s
  {
    if |s| > 0 {
      assert s[0] in s;
      WhereAll(s[1..], p);
      assert [s[0]] + s[1..] == s;
    }
  }

  /** Selecting with a predicate no element satisfies leaves nothing. */
  lemma {:induction false} WhereNone<T(!new)>(s: seq<T>, p: T -> bool)
    requires forall x :: x in s ==> !p(x)
    ensures Where(s, p) == []
  {
    if |s| > 0 {
      assert s[0] in s;
      assert forall x :: x in s[1..] ==> x in s;
      WhereNone(s[1..], p);
    }
  }

  /** Only the predicate's values on the elements of `s` matter. */
  lemma {:induction false} WhereExt<T(!new)>(s: seq<T>, p: T -> bool, q: T -> bool)
    requires forall x :: x in s ==> p(x) == q(x)
    ensures Where(s, p) == Where(s, q)
  {
    if |s| > 0 {
      assert s[0] in s;
      assert forall x :: x in s[1..] ==> x in s;
      WhereExt(s[1..], p, q);
    }
  }

  /** Two successive selections are one selection with the conjunction. */
  lemma {:induction false} WhereWhere<T(!new)>(s: seq<T>, p: T -> bool, q: T -> bool, pq: T -> bool)
    requires forall x :: x in s ==> pq(x) == (p(x) && q(x))
    ensures Where(Where(s, p), q) == Where(s, pq)
  {
    if |s| > 0 {
      assert s[0] in s;
      assert forall x :: x in s[1..] ==> x in s;
      WhereWhere(s[1..], p, q, pq);
      if p(s[0]) {
        var rest := Where(s[1..], p);
        assert ([s[0]] + rest)[0] == s[0];
        assert ([s[0]] + rest)[1..] == rest;
      }
    }
  }

  /** Selection distributes over concatenation. */
  lemma {:induction false} WhereConcat<T(!new)>(a: seq<T>, b: seq<T>, p: T -> bool)
    ensures Where(a + b, p) == Where(a, p) + Where(b, p)
  {
    if |a| == 0 {
      assert a + b == b;
    } else {
      assert (a + b)[0] == a[0] && (a + b)[1..] == a[1..] + b;
      WhereConcat(a[1..], b, p);
    }
  }

  /** Selecting twice with the same predicate is selecting once. */
  lemma WhereIdempotent<T(!new)>(s: seq<T>, p: T -> bool)
    ensures Where(Where(s, p), p) == Where(s, p)
  {
    WhereAll(Where(s, p), p);
  }

  /** The position of the first occurrence of `x`. */
  function IndexOf<T(==,!new)>(s: seq<T>, x: T): (i: nat)
    requires x in s
    ensures i < |s| && s[i] == x
    ensures forall j :: 0 <= j < i ==> s[j] != x
  {
    if s[0] == x then 0 else 1 + IndexOf(s[1..], x)
  }

  /** The distinct elements of `s` in order of first appearance (pandas `Series.unique()`). */
  function Unique<T(==,!new)>(s: seq<T>): (u: seq<T>)
    ensures Distinct(u)
    ensures forall x :: x in u <==> x in s
    ensures |u| <= |s|
    decreases |s|
  {
    if |s| == 0 then []
    else
      var init := s[..|s| - 1];
      var u := Unique(init);
      assert s == init + [s[|s| - 1]];
      if s[|s| - 1] in u then u else u + [s[|s| - 1]]
  }

  /** Extending a sequence does not move the first occurrence of an element already present. */
  lemma IndexOfPrefix<T(!new)>(a: seq<T>, b: seq<T>, x: T)
    requires x in a
    ensures x in a + b && IndexOf(a + b, x) == IndexOf(a, x)
  {
    var k := IndexOf(a, x);
    assert forall j :: 0 <= j < |a| ==> (a + b)[j] == a[j];
    assert (a + b)[k] == x;
  }

  /** `unique()` lists the elements ordered by their first occurrence in the input. */
  lemma {:induction false} UniqueFirstAppearance<T(!new)>(s: seq<T>)
    ensures forall i, j :: 0 <= i < j < |Unique(s)| ==> IndexOf(s, Unique(s)[i]) < IndexOf(s, Unique(s)[j])
    decreases |s|
  {
    if |s| > 0 {
      var init, last := s[..|s| - 1], s[|s| - 1];
      assert s == init + [last];
      var ui := Unique(init);
      UniqueFirstAppearance(init);
      forall y | y in init
        ensures IndexOf(s, y) == IndexOf(init, y) < |init|
      {
        IndexOfPrefix(init, [last], y);
      }
      if last !in ui {
        var u := ui + [last];
        assert forall k :: 0 <= k < |init| ==> s[k] == init[k];
        assert IndexOf(s, last) == |s| - 1;
        forall i, j | 0 <= i < j < |u|
          ensures IndexOf(s, u[i]) < IndexOf(s, u[j])
        {
          assert u[i] == ui[i] && u[i] in init;
          assert IndexOf(s, u[i]) == IndexOf(init, ui[i]) < |init|;
          if j < |ui| {
            assert u[j] == ui[j] && u[j] in init;
            assert IndexOf(s, u[j]) == IndexOf(init, ui[j]);
          }
        }
      } else {
        forall i, j | 0 <= i < j < |ui|
          ensures IndexOf(s, ui[i]) < IndexOf(s, ui[j])
        {
          IndexOfPrefix(init, [last], ui[i]);
          IndexOfPrefix(init, [last], ui[j]);
          assert IndexOf(init, ui[i]) < IndexOf(init, ui[j]);
        }
      }
    }
  }
}
