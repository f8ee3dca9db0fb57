/**
 * Orderings used by the pandas pipelines: the ascending key order of `groupby`
 * (and `sort_index`), the descending value order of `sort_values(ascending=False)`
 * with NaN placed last, and `head(n)`.
 */
module Order {
  import opened Wrappers
  import opened Seqs

  /** Python's string comparison: lexicographic by code point. */
  predicate StrLess(a: string, b: string)
  {
    if |a| == 0 then |b| > 0
    else |b| > 0 && (a[0] < b[0] || (a[0] == b[0] && StrLess(a[1..], b[1..])))
  }

  predicate IntLess(a: int, b: int)
  {
    a < b
  }

  /** `lt` is a strict total order. */
  ghost predicate StrictTotal<K(!new)>(lt: (K, K) -> bool)
  {
    && (forall a :: !lt(a, a))
    && (forall a, b, c :: lt(a, b) && lt(b, c) ==> lt(a, c))
    && (forall a, b :: a != b ==> lt(a, b) || lt(b, a))
  }

  lemma {:induction false} StrLessIrreflexive(a: string)
    ensures !StrLess(a, a)
  {
    if |a| > 0 {
      StrLessIrreflexive(a[1..]);
    }
  }

  lemma {:induction false} StrLessTransitive(a: string, b: string, c: string)
    requires StrLess(a, b) && StrLess(b, c)
    ensures StrLess(a, c)
  {
    if |a| > 0 && a[0] == b[0] && b[0] == c[0] {
      StrLessTransitive(a[1..], b[1..], c[1..]);
    }
  }

  lemma {:induction false} StrLessTotal(a: string, b: string)
    requires a != b
    ensures StrLess(a, b) || StrLess(b, a)
  {
    if |a| > 0 && |b| > 0 && a[0] == b[0] {
      assert a == [a[0]] + a[1..] && b == [b[0]] + b[1..];
      StrLessTotal(a[1..], b[1..]);
    }
  }

  lemma StrLessIsStrictTotal()
    ensures StrictTotal(StrLess)
  {
    forall a: string
      ensures !StrLess(a, a)
    {
      StrLessIrreflexive(a);
    }
    forall a: string, b: string, c: string | StrLess(a, b) && StrLess(b, c)
      ensures StrLess(a, c)
    {
      StrLessTransitive(a, b, c);
    }
    forall a: string, b: string | a != b
      ensures StrLess(a, b) || StrLess(b, a)
    {
      StrLessTotal(a, b);
    }
  }

  lemma IntLessIsStrictTotal()
    ensures StrictTotal(IntLess)
  {
  }

  /** Strictly ascending under `lt`. */
  ghost predicate Ascending<K>(s: seq<K>, lt: (K, K) -> bool)
  {
    forall i, j :: 0 <= i < j < |s| ==> lt(s[i], s[j])
  }

  /** Adds `k` to an ascending duplicate-free sequence of keys, unless it is already there. */
  function InsertKey<K(==,!new)>(k: K, s: seq<K>, lt: (K, K) -> bool): (r: seq<K>)
    ensures forall x :: x in r <==> x == k || x in s
  {
    if |s| == 0 then [k]
    else if k == s[0] then s
    else if lt(k, s[0]) then [k] + s
    else [s[0]] + InsertKey(k, s[1..], lt)
  }

  /** The distinct elements of `s` in ascending order: the group keys pandas `groupby` produces. */
  function SortedKeys<K(==,!new)>(s: seq<K>, lt: (K, K) -> bool): (r: seq<K>)
    ensures forall x :: x in r <==> x in s
  {
    if |s| == 0 then [] else InsertKey(s[0], SortedKeys(s[1..], lt), lt)
  }

  lemma {:induction false} InsertKeyAscending<K(!new)>(k: K, s: seq<K>, lt: (K, K) -> bool)
    requires StrictTotal(lt) && Ascending(s, lt)
    ensures Ascending(InsertKey(k, s, lt), lt)
  {
    if |s| > 0 && k != s[0] && !lt(k, s[0]) {
      assert lt(s[0], k);
      InsertKeyAscending(k, s[1..], lt);
      var tail := InsertKey(k, s[1..], lt);
      forall x | x in tail
        ensures lt(s[0], x)
      {
        if x != k {
          var j :| 0 <= j < |s[1..]| && s[1..][j] == x;
          assert s[j + 1] == x;
        }
      }
      var r := [s[0]] + tail;
      forall i, j | 0 <= i < j < |r|
        ensures lt(r[i], r[j])
      {
        if i == 0 {
          assert r[j] == tail[j - 1] && r[j] in tail;
        } else {
          assert r[i] == tail[i - 1] && r[j] == tail[j - 1];
        }
      }
    } else if |s| > 0 && k != s[0] {
      var r := [k] + s;
      forall i, j | 0 <= i < j < |r|
        ensures lt(r[i], r[j])
      {
        if i == 0 {
          assert r[j] == s[j - 1];
          if j > 1 {
            assert lt(s[0], s[j - 1]);
          }
        } else {
          assert r[i] == s[i - 1] && r[j] == s[j - 1];
        }
      }
    }
  }

  /** Group keys come out strictly ascending, hence duplicate-free. */
  lemma {:induction false} SortedKeysAscending<K(!new)>(s: seq<K>, lt: (K, K) -> bool)
    requires StrictTotal(lt)
    ensures Ascending(SortedKeys(s, lt), lt)
    ensures Distinct(SortedKeys(s, lt))
  {
    if |s| > 0 {
      SortedKeysAscending(s[1..], lt);
      InsertKeyAscending(s[0], SortedKeys(s[1..], lt), lt);
    }
    var r := SortedKeys(s, lt);
    forall i, j | 0 <= i < j < |r|
      ensures r[i] != r[j]
    {
      assert lt(r[i], r[j]);
    }
  }

  /**
   * The order `sort_values(ascending=False)` puts values in: larger first, and a
   * missing value (NaN) after every present one.
   */
  predicate AtLeast(a: Option<real>, b: Option<real>)
  {
    b.None? || (a.Some? && a.value >= b.value)
  }

  predicate NonIncreasing<T>(s: seq<T>, score: T -> Option<real>)
  {
    forall i, j :: 0 <= i < j < |s| ==> AtLeast(score(s[i]), score(s[j]))
  }

  /** Inserts `x` in front of the first element it is at least as large as. */
  function InsertByScore<T(==,!new)>(x: T, s: seq<T>, score: T -> Option<real>): (r: seq<T>)
    ensures multiset(r) == multiset(s) + multiset{x}
  {
    if |s| == 0 then [x]
    else if AtLeast(score(x), score(s[0])) then
      assert s == [s[0]] + s[1..];
      [x] + s
    else
      assert s == [s[0]] + s[1..];
      [s[0]] + InsertByScore(x, s[1..], score)
  }

  lemma {:induction false} InsertByScoreSorted<T(!new)>(x: T, s: seq<T>, score: T -> Option<real>)
    requires NonIncreasing(s, score)
    ensures NonIncreasing(InsertByScore(x, s, score), score)
  {
    var r := InsertByScore(x, s, score);
    if |s| > 0 && !AtLeast(score(x), score(s[0])) {
      InsertByScoreSorted(x, s[1..], score);
      var tail := InsertByScore(x, s[1..], score);
      forall y | y in tail
        ensures AtLeast(score(s[0]), score(y))
      {
        assert y in multiset(tail);
        if y != x {
          var j :| 0 <= j < |s[1..]| && s[1..][j] == y;
          assert s[j + 1] == y;
        }
      }
      forall i, j | 0 <= i < j < |r|
        ensures AtLeast(score(r[i]), score(r[j]))
      {
        if i == 0 {
          assert r[j] == tail[j - 1] && r[j] in tail;
        } else {
          assert r[i] == tail[i - 1] && r[j] == tail[j - 1];
        }
      }
    } else if |s| > 0 {
      forall i, j | 0 <= i < j < |r|
        ensures AtLeast(score(r[i]), score(r[j]))
      {
        if i == 0 {
          assert r[j] == s[j - 1];
          if j > 1 {
            assert AtLeast(score(s[0]), score(s[j - 1]));
          }
        } else {
          assert r[i] == s[i - 1] && r[j] == s[j - 1];
        }
      }
    }
  }

  lemma {:induction false} InsertByScoreDistinct<T(!new)>(x: T, s: seq<T>, score: T -> Option<real>)
    requires x !in s && Distinct(s)
    ensures Distinct(InsertByScore(x, s, score))
  {
    var r := InsertByScore(x, s, score);
    if |s| > 0 && !AtLeast(score(x), score(s[0])) {
      var tail := InsertByScore(x, s[1..], score);
      InsertByScoreDistinct(x, s[1..], score);
      assert s[0] !in tail by {
        assert s[0] !in s[1..];
        assert multiset(tail)[s[0]] == multiset(s[1..])[s[0]] + multiset{x}[s[0]];
      }
      forall i, j | 0 <= i < j < |r|
        ensures r[i] != r[j]
      {
        if i == 0 {
          assert r[j] == tail[j - 1];
        } else {
          assert r[i] == tail[i - 1] && r[j] == tail[j - 1];
        }
      }
    } else if |s| > 0 {
      forall i, j | 0 <= i < j < |r|
        ensures r[i] != r[j]
      {
        if i == 0 {
          assert r[j] == s[j - 1];
        } else {
          assert r[i] == s[i - 1] && r[j] == s[j - 1];
        }
      }
    }
  }

  /** A descending sort by `score` (an insertion sort; pandas leaves the order of ties unspecified). */
  function SortByScore<T(==,!new)>(s: seq<T>, score: T -> Option<real>): (r: seq<T>)
    ensures multiset(r) == multiset(s)
    ensures |r| == |s|
  {
    if |s| == 0 then []
    else
      assert s == [s[0]] + s[1..];
      InsertByScore(s[0], SortByScore(s[1..], score), score)
  }

  /** The sort orders larger scores first and missing scores last. */
  lemma {:induction false} SortByScoreSorted<T(!new)>(s: seq<T>, score: T -> Option<real>)
    ensures NonIncreasing(SortByScore(s, score), score)
  {
    if |s| > 0 {
      SortByScoreSorted(s[1..], score);
      InsertByScoreSorted(s[0], SortByScore(s[1..], score), score);
    }
  }

  /** The sort neither duplicates nor merges entries. */
  lemma {:induction false} SortByScoreDistinct<T(!new)>(s: seq<T>, score: T -> Option<real>)
    requires Distinct(s)
    ensures Distinct(SortByScore(s, score))
  {
    if |s| > 0 {
      var sorted := SortByScore(s[1..], score);
      SortByScoreDistinct(s[1..], score);
      assert s[0] !in sorted by {
        assert s[0] !in s[1..];
        assert multiset(sorted)[s[0]] == multiset(s[1..])[s[0]];
      }
      InsertByScoreDistinct(s[0], sorted, score);
    }
  }

  /** The number of rows `head(n)` keeps of `len`: the first `n`, or all but the last `-n` when `n` is negative. */
  function HeadLength(len: nat, n: int): (k: nat)
    ensures k <= len
    ensures n >= 0 ==> k <= n
    ensures 0 <= n <= len ==> k == n
    ensures n >= len ==> k == len
    ensures n < 0 ==> k == if len + n > 0 then len + n else 0
  {
    if n >= 0 then (if n < len then n else len)
    else if len + n > 0 then len + n
    else 0
  }

  function Head<T>(s: seq<T>, n: int): seq<T>
  {
    s[..HeadLength(|s|, n)]
  }
}
