/** Vocabulary shared by every part of the model: optional values, duplicate-free
    sequences and the enumeration of a finite set (the order in which SQLite hands
    back rows whose order the query leaves open). */
module Basics {

  /** A value that may be absent: SQL NULL, a JavaScript `null`/`undefined`, or a `NaN`. */
  datatype Option<+T> = None | Some(value: T)

  /** No element occurs twice in `xs`. */
  ghost predicate Distinct<T>(xs: seq<T>) {
    forall i, j :: 0 <= i < j < |xs| ==> xs[i] != xs[j]
  }

  /** The elements of `xs`, as a set. */
  function Elements<T>(xs: seq<T>): set<T> {
    set x | x in xs
  }

  /** A duplicate-free sequence has as many distinct elements as it has entries. */
  lemma {:induction false} DistinctCount<T>(xs: seq<T>)
    requires Distinct(xs)
    ensures |Elements(xs)| == |xs|
  {
    if |xs| > 0 {
      var rest := xs[1..];
      assert Distinct(rest) by {
        forall i, j | 0 <= i < j < |rest| ensures rest[i] != rest[j] {
          assert rest[i] == xs[i + 1] && rest[j] == xs[j + 1];
        }
      }
      DistinctCount(rest);
      assert xs[0] !in Elements(rest) by {
        forall k | 0 <= k < |rest| ensures rest[k] != xs[0] {
          assert rest[k] == xs[k + 1];
        }
      }
      assert Elements(xs) == {xs[0]} + Elements(rest) by {
        assert xs == [xs[0]] + rest;
      }
    }
  }

  /** A sequence that repeats an element has fewer distinct elements than entries. */
  lemma {:induction false} RepeatCount<T>(xs: seq<T>)
    requires !Distinct(xs)
    ensures |Elements(xs)| < |xs|
  {
    var i, j :| 0 <= i < j < |xs| && xs[i] == xs[j];
    var rest := xs[1..];
    assert xs == [xs[0]] + rest;
    assert Elements(xs) == {xs[0]} + Elements(rest);
    if i == 0 {
      assert xs[0] == rest[j - 1];
      assert xs[0] in Elements(rest);
      ElementsAtMostLength(rest);
    } else {
      assert rest[i - 1] == rest[j - 1];
      RepeatCount(rest);
    }
  }

  /** No sequence has more distinct elements than entries. */
  lemma {:induction false} ElementsAtMostLength<T>(xs: seq<T>)
    ensures |Elements(xs)| <= |xs|
  {
    if |xs| > 0 {
      var rest := xs[1..];
      assert xs == [xs[0]] + rest;
      assert Elements(xs) == {xs[0]} + Elements(rest);
      ElementsAtMostLength(rest);
    }
  }

  /** A subset is no larger than its superset. */
  lemma {:induction false} SubsetSize<T>(a: set<T>, b: set<T>)
    requires a <= b
    ensures |a| <= |b|
    decreases a
  {
    if a != {} {
      var x :| x in a;
      SubsetSize(a - {x}, b - {x});
      assert b == (b - {x}) + {x};
    }
  }

  /** A subset as large as its superset is the whole superset. */
  lemma SubsetOfSameSize<T>(a: set<T>, b: set<T>)
    requires a <= b && |a| == |b|
    ensures a == b
  {
    if a != b {
      var x :| x in b && x !in a;
      assert |b - {x}| < |b| by {
        assert b == (b - {x}) + {x};
      }
      SubsetSize(a, b - {x});
    }
  }

  /** Lists the elements of a finite set, each exactly once, in an unspecified order. */
  method Enumerate<T>(xs: set<T>) returns (r: seq<T>)
    ensures Distinct(r)
    ensures forall x :: x in r <==> x in xs
    ensures |r| == |xs|
  {
    r := [];
    var rest := xs;
    while rest != {}
      invariant Distinct(r)
      invariant forall x :: x in xs <==> x in r || x in rest
      invariant forall x :: x in r ==> x !in rest
      invariant |r| + |rest| == |xs|
      decreases |rest|
    {
      var x :| x in rest;
      r := r + [x];
      rest := rest - {x};
    }
  }
}
