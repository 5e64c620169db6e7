/** Python's ordering of strings (lexicographic by code point, a proper prefix first) and the
    `sorted()` of a duplicate-free list of strings, built by insertion. */
module LexOrder {
  import Seqs

  /** `a < b` on Python strings. */
  predicate Less(a: string, b: string)
    decreases |a|
  {
    |b| > 0 && (|a| == 0 || a[0] < b[0] || (a[0] == b[0] && Less(a[1..], b[1..])))
  }

  lemma {:induction false} LessIrreflexive(a: string)
    ensures !Less(a, a)
    decreases |a|
  {
    if |a| > 0 {
      LessIrreflexive(a[1..]);
    }
  }

  lemma {:induction false} LessAsymmetric(a: string, b: string)
    requires Less(a, b)
    ensures !Less(b, a)
    decreases |a|
  {
    if |a| > 0 && a[0] == b[0] {
      LessAsymmetric(a[1..], b[1..]);
    }
  }

  lemma {:induction false} LessTransitive(a: string, b: string, c: string)
    requires Less(a, b) && Less(b, c)
    ensures Less(a, c)
    decreases |a|
  {
    if |a| > 0 && a[0] == b[0] && b[0] == c[0] {
      LessTransitive(a[1..], b[1..], c[1..]);
    }
  }

  lemma {:induction false} LessTotal(a: string, b: string)
    requires a != b
    ensures Less(a, b) || Less(b, a)
    decreases |a|
  {
    if |a| > 0 && |b| > 0 && a[0] == b[0] {
      assert a == [a[0]] + a[1..] && b == [b[0]] + b[1..];
      LessTotal(a[1..], b[1..]);
    }
  }

  /** `a` and `b` agree before position `i`, where `a` has the smaller character. */
  predicate FirstDifferenceBelow(a: string, b: string, i: nat)
  {
    i < |a| && i < |b| && a[..i] == b[..i] && a[i] < b[i]
  }

  /** The usual reading of Python's string order: `a < b` exactly when `a` is a proper prefix of
      `b`, or the first position where they differ holds the smaller character in `a`. */
  lemma {:induction false} LessCharwise(a: string, b: string)
    ensures Less(a, b) <==> (|a| < |b| && a == b[..|a|]) || exists i: nat :: FirstDifferenceBelow(a, b, i)
    decreases |a|
  {
    if |a| > 0 && |b| > 0 {
      var a', b' := a[1..], b[1..];
      LessCharwise(a', b');
      if Less(a, b) && a[0] == b[0] {
        if |a'| < |b'| && a' == b'[..|a'|] {
          assert a == [a[0]] + a' && b[..|a|] == [b[0]] + b'[..|a'|];
        } else {
          var i: nat :| FirstDifferenceBelow(a', b', i);
          assert a[..i + 1] == [a[0]] + a'[..i] && b[..i + 1] == [b[0]] + b'[..i];
          assert FirstDifferenceBelow(a, b, i + 1);
        }
      } else if Less(a, b) {
        assert FirstDifferenceBelow(a, b, 0);
      }
      if exists i: nat :: FirstDifferenceBelow(a, b, i) {
        var i: nat :| FirstDifferenceBelow(a, b, i);
        if i > 0 {
          assert a[0] == a[..i][0] == b[..i][0] == b[0];
          assert a'[..i - 1] == a[..i][1..] == b[..i][1..] == b'[..i - 1];
          assert FirstDifferenceBelow(a', b', i - 1);
        }
      }
    } else if |a| > 0 {
      assert forall i: nat :: !FirstDifferenceBelow(a, b, i);
    }
  }

  /** Strictly increasing under `Less`; in particular free of repetitions. */
  predicate StrictlySorted(xs: seq<string>)
  {
    forall i, j | 0 <= i < j < |xs| :: Less(xs[i], xs[j])
  }

  /** A strictly sorted list repeats nothing. */
  lemma SortedDistinct(xs: seq<string>)
    requires StrictlySorted(xs)
    ensures Seqs.Distinct(xs)
  {
    forall i, j | 0 <= i < j < |xs| ensures xs[i] != xs[j] {
      if xs[i] == xs[j] {
        LessIrreflexive(xs[i]);
      }
    }
  }

  /** Adds `x` to a strictly sorted list at its place, unless it is already there. */
  function Insert(x: string, xs: seq<string>): (r: seq<string>)
    requires StrictlySorted(xs)
    ensures StrictlySorted(r)
    ensures forall y | y in r :: y == x || y in xs
    ensures x in r && forall y | y in xs :: y in r
    ensures |r| == if x in xs then |xs| else |xs| + 1
  {
    if xs == [] then [x]
    else if x == xs[0] then xs
    else if Less(x, xs[0]) then
      assert forall j | 0 < j < |xs| :: Less(x, xs[j]) by {
        forall j | 0 < j < |xs| ensures Less(x, xs[j]) {
          LessTransitive(x, xs[0], xs[j]);
        }
      }
      LessIrreflexive(x);
      [x] + xs
    else
      LessTotal(x, xs[0]);
      var rest := Insert(x, xs[1..]);
      var r := [xs[0]] + rest;
      assert xs == [xs[0]] + xs[1..];
      assert x in xs <==> x in xs[1..];
      assert forall j | 0 <= j < |rest| :: Less(xs[0], rest[j]) by {
        forall j | 0 <= j < |rest| ensures Less(xs[0], rest[j]) {
          assert rest[j] in rest;
        }
      }
      r
  }

  /** `sorted()` of the distinct elements of `xs`: the unique strictly sorted list holding
      exactly the elements of `xs`. On a list without repetitions it keeps every element. */
  function SortUnique(xs: seq<string>): (r: seq<string>)
    ensures StrictlySorted(r)
    ensures forall y | y in r :: y in xs
    ensures forall y | y in xs :: y in r
    ensures Seqs.Distinct(xs) ==> |r| == |xs|
  {
    if xs == [] then [] else Insert(xs[0], SortUnique(xs[1..]))
  }

  /** Two strictly sorted lists with the same elements are the same list. */
  lemma {:induction false} SortedUnique(a: seq<string>, b: seq<string>)
    requires StrictlySorted(a) && StrictlySorted(b)
    requires forall y | y in a :: y in b
    requires forall y | y in b :: y in a
    ensures a == b
    decreases |a|
  {
    assert a != [] ==> a[0] in b;
    assert b != [] ==> b[0] in a;
    if a != [] && b != [] {
      assert a[0] == b[0] by {
        var i :| 0 <= i < |a| && a[i] == b[0];
        var j :| 0 <= j < |b| && b[j] == a[0];
        if i > 0 && j > 0 {
          LessAsymmetric(a[0], a[i]);
        }
      }
      assert a == [a[0]] + a[1..] && b == [b[0]] + b[1..];
      LessIrreflexive(a[0]);
      forall y | y in a[1..] ensures y in b[1..] {
        var i :| 0 <= i < |a[1..]| && a[1..][i] == y;
        assert Less(a[0], a[i + 1]);
        assert y in b;
        var k :| 0 <= k < |b| && b[k] == y;
        assert b[1..][k - 1] == y;
      }
      forall y | y in b[1..] ensures y in a[1..] {
        var j :| 0 <= j < |b[1..]| && b[1..][j] == y;
        assert Less(b[0], b[j + 1]);
        assert y in a;
        var k :| 0 <= k < |a| && a[k] == y;
        assert a[1..][k - 1] == y;
      }
      SortedUnique(a[1..], b[1..]);
    }
  }

  /** The sorted list depends only on which elements are listed, not on their order or repetition. */
  lemma SortUniqueIgnoresOrder(xs: seq<string>, ys: seq<string>)
    requires forall y | y in xs :: y in ys
    requires forall y | y in ys :: y in xs
    ensures SortUnique(xs) == SortUnique(ys)
  {
    SortedUnique(SortUnique(xs), SortUnique(ys));
  }
}
