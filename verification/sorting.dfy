/** Ordering rows by a text column under the BINARY collation: the order of
    `ORDER BY Title` and `ORDER BY TitleRu`. */
module Sorting {
  import opened Basics
  import opened Text

  /** `xs` is in non-decreasing order of `key`. */
  ghost predicate SortedBy<T>(xs: seq<T>, key: T -> string) {
    forall i, j :: 0 <= i < j < |xs| ==> LexLeq(key(xs[i]), key(xs[j]))
  }

  /** No two entries of `xs` share a key. */
  ghost predicate KeysDistinct<T>(xs: seq<T>, key: T -> string) {
    forall i, j :: 0 <= i < j < |xs| ==> key(xs[i]) != key(xs[j])
  }

  /** `x` sorts no later than any element of `xs`. */
  ghost predicate Below<T>(x: T, xs: seq<T>, key: T -> string) {
    forall y :: y in xs ==> LexLeq(key(x), key(y))
  }

  lemma PrependSorted<T>(x: T, xs: seq<T>, key: T -> string)
    requires SortedBy(xs, key) && Below(x, xs, key)
    ensures SortedBy([x] + xs, key)
  {
    var r := [x] + xs;
    forall i, j | 0 <= i < j < |r| ensures LexLeq(key(r[i]), key(r[j])) {
      assert r[j] == xs[j - 1];
      if i > 0 {
        assert r[i] == xs[i - 1];
      }
    }
  }

  /** A value no later than the head of a sorted sequence is below all of it. */
  lemma HeadBoundsAll<T>(x: T, xs: seq<T>, key: T -> string)
    requires SortedBy(xs, key) && |xs| > 0 && LexLeq(key(x), key(xs[0]))
    ensures Below(x, xs, key)
  {
    forall y | y in xs ensures LexLeq(key(x), key(y)) {
      var k :| 0 <= k < |xs| && xs[k] == y;
      if k > 0 {
        LexLeqTransitive(key(x), key(xs[0]), key(y));
      }
    }
  }

  /** Inserts `x` into a sorted sequence, after every element with a smaller key. */
  function Insert<T>(x: T, xs: seq<T>, key: T -> string): (r: seq<T>)
    requires SortedBy(xs, key)
    ensures SortedBy(r, key)
    ensures multiset(r) == multiset(xs) + multiset{x}
    decreases |xs|
  {
    if |xs| == 0 then [x]
    else if LexLeq(key(x), key(xs[0])) then
      HeadBoundsAll(x, xs, key);
      PrependSorted(x, xs, key);
      [x] + xs
    else
      var tail := xs[1..];
      assert xs == [xs[0]] + tail;
      assert SortedBy(tail, key) by {
        forall i, j | 0 <= i < j < |tail| ensures LexLeq(key(tail[i]), key(tail[j])) {
          assert tail[i] == xs[i + 1] && tail[j] == xs[j + 1];
        }
      }
      var rest := Insert(x, tail, key);
      assert Below(xs[0], rest, key) by {
        LexLeqTotal(key(x), key(xs[0]));
        forall y | y in rest ensures LexLeq(key(xs[0]), key(y)) {
          assert y in multiset(rest);
          if y != x {
            var k :| 0 <= k < |tail| && tail[k] == y;
            assert tail[k] == xs[k + 1];
          }
        }
      }
      PrependSorted(xs[0], rest, key);
      [xs[0]] + rest
  }

  /** Insertion sort by `key`; entries with equal keys keep no particular order. */
  function Sort<T>(xs: seq<T>, key: T -> string): (r: seq<T>)
    ensures SortedBy(r, key)
    ensures multiset(r) == multiset(xs)
    decreases |xs|
  {
    if |xs| == 0 then []
    else
      assert xs == [xs[0]] + xs[1..];
      Insert(xs[0], Sort(xs[1..], key), key)
  }

  /** Sorting a duplicate-free sequence lists the same elements, each once. */
  lemma SortKeepsElements<T>(xs: seq<T>, key: T -> string)
    requires Distinct(xs)
    ensures Distinct(Sort(xs, key))
    ensures forall x :: x in Sort(xs, key) <==> x in xs
  {
    var r := Sort(xs, key);
    assert forall x :: x in r <==> x in xs by {
      forall x ensures x in r <==> x in xs {
        assert x in r <==> x in multiset(r);
        assert x in xs <==> x in multiset(xs);
      }
    }
    assert |r| == |multiset(r)| == |xs|;
    assert Elements(r) == Elements(xs);
    DistinctCount(xs);
    if !Distinct(r) {
      RepeatCount(r);
      assert false;
    }
  }

  /** Ordering by a key that no two entries share leaves no freedom: two sorted,
      duplicate-free listings of the same elements are the same listing. */
  lemma {:induction false} SortedListingUnique<T>(a: seq<T>, b: seq<T>, key: T -> string)
    requires SortedBy(a, key) && SortedBy(b, key)
    requires Distinct(a) && Distinct(b) && KeysDistinct(a, key)
    requires forall x :: x in a <==> x in b
    ensures a == b
    decreases |a|
  {
    if |a| > 0 {
      assert a[0] in a;
      var k :| 0 <= k < |b| && b[k] == a[0];
      assert b[0] in b;
      var m :| 0 <= m < |a| && a[m] == b[0];
      if m != 0 {
        if k != 0 {
          LexLeqAntisymmetric(key(a[0]), key(a[m]));
        }
        assert false;
      }
      var ta, tb := a[1..], b[1..];
      assert SortedBy(ta, key) && Distinct(ta) && KeysDistinct(ta, key) by {
        forall i, j | 0 <= i < j < |ta|
          ensures LexLeq(key(ta[i]), key(ta[j])) && ta[i] != ta[j] && key(ta[i]) != key(ta[j])
        {
          assert ta[i] == a[i + 1] && ta[j] == a[j + 1];
        }
      }
      assert SortedBy(tb, key) && Distinct(tb) by {
        forall i, j | 0 <= i < j < |tb| ensures LexLeq(key(tb[i]), key(tb[j])) && tb[i] != tb[j] {
          assert tb[i] == b[i + 1] && tb[j] == b[j + 1];
        }
      }
      forall x ensures x in ta <==> x in tb {
        TailMembers(a, x);
        TailMembers(b, x);
      }
      SortedListingUnique(ta, tb, key);
      assert a == [a[0]] + ta && b == [b[0]] + tb;
    } else {
      HeadIsMember(b);
    }
  }

  /** A non-empty sequence contains its head. */
  lemma HeadIsMember<T>(xs: seq<T>)
    ensures |xs| > 0 ==> xs[0] in xs
  {
  }

  /** In a duplicate-free sequence, the tail holds everything but the head. */
  lemma TailMembers<T>(xs: seq<T>, x: T)
    requires Distinct(xs) && |xs| > 0
    ensures x in xs[1..] <==> x in xs && x != xs[0]
  {
    if x in xs[1..] {
      var k :| 0 <= k < |xs| - 1 && xs[1..][k] == x;
      assert xs[k + 1] == x;
    }
    if x in xs && x != xs[0] {
      var k :| 0 <= k < |xs| && xs[k] == x;
      assert xs[1..][k - 1] == x;
    }
  }
}
