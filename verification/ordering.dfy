/**
 * Python's ordering of strings and of tuples of strings, and `sorted(...)`
 * over a list whose elements are compared by such a tuple.  The row batcher
 * sorts column names and buffer keys this way before it writes statements.
 */
module Ordering {

  /** Python's `a < b` on `str`: lexicographic by code point, a proper prefix first. */
  predicate StrLess(a: string, b: string)
  {
    if |a| == 0 then |b| > 0
    else if |b| == 0 then false
    else if a[0] != b[0] then a[0] < b[0]
    else StrLess(a[1..], b[1..])
  }

  lemma {:induction false} StrLessIrreflexive(a: string)
    ensures !StrLess(a, a)
  {
    if |a| > 0 {
      StrLessIrreflexive(a[1..]);
    }
  }

  lemma {:induction false} StrLessTransitive(a: string, b: string, c: string)
    requires StrLess(a, b) && StrLess(b, c)
    ensures StrLess(a, c)
  {
    if |a| > 0 && |b| > 0 && |c| > 0 && a[0] == b[0] && b[0] == c[0] {
      StrLessTransitive(a[1..], b[1..], c[1..]);
    }
  }

  lemma {:induction false} StrLessTotal(a: string, b: string)
    requires a != b
    ensures StrLess(a, b) || StrLess(b, a)
  {
    if |a| > 0 && |b| > 0 && a[0] == b[0] {
      assert a == [a[0]] + a[1..] && b == [b[0]] + b[1..];
      StrLessTotal(a[1..], b[1..]);
    }
  }

  /** Python's `a < b` on tuples of strings: the first differing component decides. */
  predicate TupleLess(a: seq<string>, b: seq<string>)
  {
    if |a| == 0 then |b| > 0
    else if |b| == 0 then false
    else if a[0] != b[0] then StrLess(a[0], b[0])
    else TupleLess(a[1..], b[1..])
  }

  lemma {:induction false} TupleLessIrreflexive(a: seq<string>)
    ensures !TupleLess(a, a)
  {
    if |a| > 0 {
      TupleLessIrreflexive(a[1..]);
    }
  }

  lemma {:induction false} TupleLessTransitive(a: seq<string>, b: seq<string>, c: seq<string>)
    requires TupleLess(a, b) && TupleLess(b, c)
    ensures TupleLess(a, c)
  {
    if |a| > 0 && |b| > 0 && |c| > 0 {
      if a[0] == b[0] && b[0] == c[0] {
        TupleLessTransitive(a[1..], b[1..], c[1..]);
      } else if a[0] != b[0] && b[0] != c[0] {
        StrLessTransitive(a[0], b[0], c[0]);
        if a[0] == c[0] {
          StrLessIrreflexive(a[0]);
        }
      }
    }
  }

  lemma {:induction false} TupleLessTotal(a: seq<string>, b: seq<string>)
    requires a != b
    ensures TupleLess(a, b) || TupleLess(b, a)
  {
    if |a| > 0 && |b| > 0 {
      if a[0] == b[0] {
        assert a == [a[0]] + a[1..] && b == [b[0]] + b[1..];
        TupleLessTotal(a[1..], b[1..]);
      } else {
        StrLessTotal(a[0], b[0]);
      }
    }
  }

  lemma TupleLessAsymmetric(a: seq<string>, b: seq<string>)
    requires TupleLess(a, b)
    ensures !TupleLess(b, a)
  {
    if TupleLess(b, a) {
      TupleLessTransitive(a, b, a);
      TupleLessIrreflexive(a);
    }
  }

  /** `a < c` forces `b` to lie above `a` or below `c`, whatever `b` is. */
  lemma TupleLessSplits(a: seq<string>, b: seq<string>, c: seq<string>)
    requires TupleLess(a, c)
    ensures TupleLess(a, b) || TupleLess(b, c)
  {
    if !TupleLess(a, b) && !TupleLess(b, c) {
      if b != c && a != b {
        TupleLessTotal(b, c);
        TupleLessTotal(a, b);
        TupleLessTransitive(c, b, a);
        TupleLessAsymmetric(a, c);
      }
    }
  }

  /** A one-component tuple compares like its component. */
  lemma SingletonTupleLess(a: string, b: string)
    ensures TupleLess([a], [b]) <==> StrLess(a, b)
  {
    if a == b {
      StrLessIrreflexive(a);
    }
    assert [a][1..] == [] && [b][1..] == [];
  }

  /** No element is followed by one whose key is smaller: `sorted(s, key=key)`'s output order. */
  ghost predicate SortedBy<T>(s: seq<T>, key: T -> seq<string>)
  {
    forall i, j :: 0 <= i < j < |s| ==> !TupleLess(key(s[j]), key(s[i]))
  }

  /** Keys strictly increase along `s`. */
  ghost predicate StrictlySortedBy<T>(s: seq<T>, key: T -> seq<string>)
  {
    forall i, j :: 0 <= i < j < |s| ==> TupleLess(key(s[i]), key(s[j]))
  }

  /** Putting an element no key of `rest` lies below in front of a sorted `rest` keeps it sorted. */
  lemma ConsSorted<T>(h: T, rest: seq<T>, key: T -> seq<string>)
    requires SortedBy(rest, key)
    requires forall j :: 0 <= j < |rest| ==> !TupleLess(key(rest[j]), key(h))
    ensures SortedBy([h] + rest, key)
  {
    var r := [h] + rest;
    forall i, j | 0 <= i < j < |r|
      ensures !TupleLess(key(r[j]), key(r[i]))
    {
      assert r[j] == rest[j - 1];
      if i > 0 {
        assert r[i] == rest[i - 1];
      }
    }
  }

  /** `x` goes in front when the head's key is not below it. */
  lemma InsertInFront<T>(x: T, s: seq<T>, key: T -> seq<string>)
    requires SortedBy(s, key) && |s| > 0 && !TupleLess(key(s[0]), key(x))
    ensures SortedBy([x] + s, key)
  {
    forall j | 0 <= j < |s|
      ensures !TupleLess(key(s[j]), key(x))
    {
      if TupleLess(key(s[j]), key(x)) {
        TupleLessSplits(key(s[j]), key(s[0]), key(x));
      }
    }
    ConsSorted(x, s, key);
  }

  /** `x` goes after the head when the head's key is below it. */
  lemma InsertAfterHead<T>(x: T, s: seq<T>, rest: seq<T>, key: T -> seq<string>)
    requires SortedBy(s, key) && |s| > 0 && TupleLess(key(s[0]), key(x))
    requires SortedBy(rest, key) && multiset(rest) == multiset(s[1..]) + multiset{x}
    ensures SortedBy([s[0]] + rest, key)
    ensures multiset([s[0]] + rest) == multiset(s) + multiset{x}
  {
    assert s == [s[0]] + s[1..];
    TupleLessAsymmetric(key(s[0]), key(x));
    forall j | 0 <= j < |rest|
      ensures !TupleLess(key(rest[j]), key(s[0]))
    {
      assert rest[j] in multiset(rest);
      if rest[j] != x {
        assert rest[j] in multiset(s[1..]);
        var k :| 1 <= k < |s| && s[k] == rest[j];
      }
    }
    ConsSorted(s[0], rest, key);
  }

  function InsertSorted<T(==)>(x: T, s: seq<T>, key: T -> seq<string>): (r: seq<T>)
    requires SortedBy(s, key)
    ensures |r| == |s| + 1
    ensures SortedBy(r, key)
    ensures multiset(r) == multiset(s) + multiset{x}
  {
    if |s| == 0 then [x]
    else if !TupleLess(key(s[0]), key(x)) then
      InsertInFront(x, s, key);
      [x] + s
    else
      var rest := InsertSorted(x, s[1..], key);
      InsertAfterHead(x, s, rest, key);
      [s[0]] + rest
  }

  /** `sorted(s, key=key)` */
  function SortBy<T(==)>(s: seq<T>, key: T -> seq<string>): (r: seq<T>)
    ensures |r| == |s|
    ensures SortedBy(r, key)
    ensures multiset(r) == multiset(s)
  {
    if |s| == 0 then []
    else
      assert s == [s[0]] + s[1..];
      InsertSorted(s[0], SortBy(s[1..], key), key)
  }

  /** Distinct keys in a sorted list are in strictly increasing order. */
  lemma SortedDistinctIsStrict<T>(s: seq<T>, key: T -> seq<string>)
    requires SortedBy(s, key)
    requires forall i, j :: 0 <= i < j < |s| ==> key(s[i]) != key(s[j])
    ensures StrictlySortedBy(s, key)
  {
    forall i, j | 0 <= i < j < |s|
      ensures TupleLess(key(s[i]), key(s[j]))
    {
      TupleLessTotal(key(s[i]), key(s[j]));
    }
  }
}
