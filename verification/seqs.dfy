/** Generic sequence helpers: filtering, mapping, flattening and distinctness. */
module Seqs {

  /** The elements of `xs` satisfying `f`, in their original order (a list comprehension with a guard). */
  function Filter<T>(xs: seq<T>, f: T -> bool): (r: seq<T>)
    ensures |r| <= |xs|
    ensures forall x | x in r :: x in xs && f(x)
    ensures forall x | x in xs && f(x) :: x in r
    ensures forall i | 0 <= i < |r| :: f(r[i])
  {
    if xs == [] then [] else (if f(xs[0]) then [xs[0]] else []) + Filter(xs[1..], f)
  }

  /** `f` applied to every element of `xs`. */
  function Map<T, U>(xs: seq<T>, f: T -> U): (r: seq<U>)
    ensures |r| == |xs|
    ensures forall i | 0 <= i < |xs| :: r[i] == f(xs[i])
  {
    if xs == [] then [] else [f(xs[0])] + Map(xs[1..], f)
  }

  /** The elements of `Map(xs, f)` are exactly the images of the elements of `xs`. */
  lemma MapMembers<T, U>(xs: seq<T>, f: T -> U)
    ensures forall x | x in xs :: f(x) in Map(xs, f)
    ensures forall y | y in Map(xs, f) :: exists x | x in xs :: f(x) == y
  {
    var r := Map(xs, f);
    forall y | y in r ensures exists x | x in xs :: f(x) == y {
      var i :| 0 <= i < |r| && r[i] == y;
      assert xs[i] in xs;
    }
    forall x | x in xs ensures f(x) in r {
      var i :| 0 <= i < |xs| && xs[i] == x;
      assert r[i] == f(x);
    }
  }

  /** The concatenation of all sequences in `xss`. */
  function Flatten<T>(xss: seq<seq<T>>): seq<T>
  {
    if xss == [] then [] else xss[0] + Flatten(xss[1..])
  }

  /** No element occurs twice. */
  predicate Distinct<T(==)>(xs: seq<T>)
  {
    forall i, j | 0 <= i < j < |xs| :: xs[i] != xs[j]
  }

  /** One step of `Filter`: the head, if selected, then the filtered tail. */
  lemma FilterUnfold<T>(xs: seq<T>, f: T -> bool)
    requires xs != []
    ensures Filter(xs, f) == (if f(xs[0]) then [xs[0]] else []) + Filter(xs[1..], f)
  {
  }

  /** Filtering distributes over concatenation. */
  lemma {:induction false} FilterConcat<T>(a: seq<T>, b: seq<T>, f: T -> bool)
    ensures Filter(a + b, f) == Filter(a, f) + Filter(b, f)
  {
    if a == [] {
      assert a + b == b;
    } else {
      assert (a + b)[1..] == a[1..] + b;
      FilterConcat(a[1..], b, f);
    }
  }

  /** Filtering keeps every occurrence of a selected element and none of a rejected one. */
  lemma {:induction false} FilterMultiplicity<T>(xs: seq<T>, f: T -> bool, x: T)
    ensures multiset(Filter(xs, f))[x] == if f(x) then multiset(xs)[x] else 0
  {
    if xs != [] {
      FilterMultiplicity(xs[1..], f, x);
      assert xs == [xs[0]] + xs[1..];
      assert multiset(xs) == multiset([xs[0]]) + multiset(xs[1..]);
    }
  }

  /** Filtering with a predicate that holds of every element changes nothing. */
  lemma {:induction false} FilterAll<T>(xs: seq<T>, f: T -> bool)
    requires forall x | x in xs :: f(x)
    ensures Filter(xs, f) == xs
  {
    if xs != [] {
      FilterAll(xs[1..], f);
    }
  }

  /** Filtering a sequence without repetitions yields one without repetitions. */
  lemma {:induction false} FilterDistinct<T>(xs: seq<T>, f: T -> bool)
    requires Distinct(xs)
    ensures Distinct(Filter(xs, f))
  {
    if xs != [] {
      FilterDistinct(xs[1..], f);
      var rest := Filter(xs[1..], f);
      assert xs[0] !in rest;
    }
  }

  lemma FlattenCons<T>(x: seq<T>, xss: seq<seq<T>>)
    ensures Flatten([x] + xss) == x + Flatten(xss)
  {
    assert ([x] + xss)[1..] == xss;
  }

  /** Flattening distributes over concatenation. */
  lemma {:induction false} FlattenConcat<T>(a: seq<seq<T>>, b: seq<seq<T>>)
    ensures Flatten(a + b) == Flatten(a) + Flatten(b)
  {
    if a == [] {
      assert a + b == b;
    } else {
      assert (a + b)[1..] == a[1..] + b;
      FlattenConcat(a[1..], b);
    }
  }

  /** An element of a flattened list comes from one of the lists, and every list's elements are
      in it. */
  lemma {:induction false} FlattenMembers<T>(xss: seq<seq<T>>)
    ensures forall x | x in Flatten(xss) :: exists i | 0 <= i < |xss| :: x in xss[i]
    ensures forall i, x | 0 <= i < |xss| && x in xss[i] :: x in Flatten(xss)
  {
    if xss != [] {
      FlattenMembers(xss[1..]);
      var rest := Flatten(xss[1..]);
      assert Flatten(xss) == xss[0] + rest;
      forall x | x in Flatten(xss) ensures exists i | 0 <= i < |xss| :: x in xss[i] {
        if x !in xss[0] {
          var k :| 0 <= k < |xss[1..]| && x in xss[1..][k];
          assert x in xss[k + 1];
        }
      }
      forall i, x | 0 <= i < |xss| && x in xss[i] ensures x in Flatten(xss) {
        if i > 0 {
          assert xss[1..][i - 1] == xss[i];
        }
      }
    }
  }

  /** A flattened list holds every occurrence of each of its lists. */
  lemma {:induction false} FlattenCount<T>(xss: seq<seq<T>>, i: nat, x: T)
    requires i < |xss|
    ensures multiset(Flatten(xss))[x] >= multiset(xss[i])[x]
  {
    var rest := Flatten(xss[1..]);
    assert Flatten(xss) == xss[0] + rest;
    assert multiset(xss[0] + rest) == multiset(xss[0]) + multiset(rest);
    if i > 0 {
      FlattenCount(xss[1..], i - 1, x);
      assert xss[1..][i - 1] == xss[i];
    }
  }

  /** Two different lists of a flattened list both contribute their occurrences. */
  lemma {:induction false} FlattenCountTwo<T>(xss: seq<seq<T>>, i: nat, j: nat, x: T)
    requires i < j < |xss|
    ensures multiset(Flatten(xss))[x] >= multiset(xss[i])[x] + multiset(xss[j])[x]
  {
    var rest := Flatten(xss[1..]);
    assert Flatten(xss) == xss[0] + rest;
    assert multiset(xss[0] + rest) == multiset(xss[0]) + multiset(rest);
    assert xss[1..][j - 1] == xss[j];
    if i > 0 {
      FlattenCountTwo(xss[1..], i - 1, j - 1, x);
      assert xss[1..][i - 1] == xss[i];
    } else {
      FlattenCount(xss[1..], j - 1, x);
    }
  }

  /** A sequence without repetitions has as many elements as its element set. */
  lemma {:induction false} DistinctCardinality<T>(xs: seq<T>)
    requires Distinct(xs)
    ensures |set x | x in xs| == |xs|
  {
    if xs != [] {
      DistinctCardinality(xs[1..]);
      var rest := set x | x in xs[1..];
      assert (set x | x in xs) == {xs[0]} + rest;
      assert xs[0] !in rest;
    }
  }

  /** Filtering with two tests that agree on the elements gives the same result. */
  lemma {:induction false} FilterCongruent<T>(xs: seq<T>, f: T -> bool, g: T -> bool)
    requires forall x | x in xs :: f(x) == g(x)
    ensures Filter(xs, f) == Filter(xs, g)
  {
    if xs != [] {
      FilterCongruent(xs[1..], f, g);
    }
  }

  // ---------------------------------------------------------------- keep-first deduplication

  /** No two elements of `xs` share a key. */
  predicate KeysDistinct<T, K(==)>(xs: seq<T>, key: T -> K)
  {
    forall i, j | 0 <= i < j < |xs| :: key(xs[i]) != key(xs[j])
  }

  /** `xs[i]` is the first element of `xs` with its key. */
  predicate FirstWithKey<T, K(==)>(xs: seq<T>, key: T -> K, i: nat)
    requires i < |xs|
  {
    forall j | 0 <= j < i :: key(xs[j]) != key(xs[i])
  }

  /** The elements of `xs` whose key is not in `seen` and was not met earlier in `xs`, in order. */
  function DedupFrom<T, K(==)>(xs: seq<T>, key: T -> K, seen: set<K>): (r: seq<T>)
    ensures |r| <= |xs|
    decreases |xs|
  {
    if xs == [] then []
    else if key(xs[0]) in seen then DedupFrom(xs[1..], key, seen)
    else [xs[0]] + DedupFrom(xs[1..], key, seen + {key(xs[0])})
  }

  /** Keep-first deduplication by key (`drop_duplicates(keep="first")`): the first element of
      every key, in order. */
  function DedupBy<T, K(==)>(xs: seq<T>, key: T -> K): (r: seq<T>)
    ensures |r| <= |xs|
  {
    DedupFrom(xs, key, {})
  }

  /** `DedupFrom` keeps elements of `xs` only, none with a key in `seen`, and no two with one key. */
  lemma {:induction false} DedupFromSound<T, K>(xs: seq<T>, key: T -> K, seen: set<K>)
    ensures forall y | y in DedupFrom(xs, key, seen) :: y in xs && key(y) !in seen
    ensures KeysDistinct(DedupFrom(xs, key, seen), key)
    decreases |xs|
  {
    if xs != [] {
      if key(xs[0]) in seen {
        DedupFromSound(xs[1..], key, seen);
      } else {
        var seen' := seen + {key(xs[0])};
        var rest := DedupFrom(xs[1..], key, seen');
        DedupFromSound(xs[1..], key, seen');
        var r := [xs[0]] + rest;
        assert DedupFrom(xs, key, seen) == r;
        forall i, j | 0 <= i < j < |r| ensures key(r[i]) != key(r[j]) {
          assert r[j] == rest[j - 1] && r[j] in rest;
          if i > 0 {
            assert r[i] == rest[i - 1];
          }
        }
      }
    }
  }

  /** Every key of `xs` outside `seen` is the key of some element `DedupFrom` keeps. */
  lemma {:induction false} DedupFromComplete<T, K>(xs: seq<T>, key: T -> K, seen: set<K>)
    ensures forall x | x in xs && key(x) !in seen :: exists y | y in DedupFrom(xs, key, seen) :: key(y) == key(x)
    decreases |xs|
  {
    if xs != [] {
      var seen' := if key(xs[0]) in seen then seen else seen + {key(xs[0])};
      DedupFromComplete(xs[1..], key, seen');
      var r := DedupFrom(xs, key, seen);
      var rest := DedupFrom(xs[1..], key, seen');
      assert forall y | y in rest :: y in r;
      forall x | x in xs && key(x) !in seen ensures exists y | y in r :: key(y) == key(x) {
        if key(x) == key(xs[0]) {
          assert xs[0] in r;
        } else {
          assert x in xs[1..];
        }
      }
    }
  }

  /** Every element kept by `DedupFrom` is the first of its key in `xs`. */
  lemma {:induction false} DedupFromKeepsFirst<T, K>(xs: seq<T>, key: T -> K, seen: set<K>)
    ensures forall y | y in DedupFrom(xs, key, seen) ::
              exists i | 0 <= i < |xs| :: xs[i] == y && FirstWithKey(xs, key, i)
    decreases |xs|
  {
    if xs != [] {
      var tail := xs[1..];
      var seen' := if key(xs[0]) in seen then seen else seen + {key(xs[0])};
      var rest := DedupFrom(tail, key, seen');
      DedupFromKeepsFirst(tail, key, seen');
      DedupFromSound(tail, key, seen');
      var r := DedupFrom(xs, key, seen);
      assert r == if key(xs[0]) in seen then rest else [xs[0]] + rest;
      forall y | y in r ensures exists i | 0 <= i < |xs| :: xs[i] == y && FirstWithKey(xs, key, i) {
        if y in rest {
          TailFirstShifts(xs, key, y, rest, seen');
        } else {
          assert y == xs[0];
          assert FirstWithKey(xs, key, 0);
        }
      }
    }
  }

  /** A first-of-its-key element of `xs[1..]` whose key differs from that of `xs[0]` is also the
      first of its key in `xs`. */
  lemma TailFirstShifts<T, K>(xs: seq<T>, key: T -> K, y: T, rest: seq<T>, seen': set<K>)
    requires xs != [] && key(xs[0]) in seen'
    requires y in rest && key(y) !in seen'
    requires forall z | z in rest :: exists i | 0 <= i < |xs[1..]| :: xs[1..][i] == z && FirstWithKey(xs[1..], key, i)
    ensures exists i | 0 <= i < |xs| :: xs[i] == y && FirstWithKey(xs, key, i)
  {
    var tail := xs[1..];
    var i :| 0 <= i < |tail| && tail[i] == y && FirstWithKey(tail, key, i);
    assert xs[i + 1] == y;
    forall j | 0 <= j < i + 1 ensures key(xs[j]) != key(xs[i + 1]) {
      if j > 0 {
        assert xs[j] == tail[j - 1];
      }
    }
    assert FirstWithKey(xs, key, i + 1);
  }

  /** The positions in `[lo, |xs|)` holding the first element of their key, in increasing order:
      every such position, and no other. */
  function FirstIndices<T, K(==)>(xs: seq<T>, key: T -> K, lo: nat): (ix: seq<nat>)
    requires lo <= |xs|
    ensures forall k | 0 <= k < |ix| :: lo <= ix[k] < |xs| && FirstWithKey(xs, key, ix[k])
    ensures forall k, l | 0 <= k < l < |ix| :: ix[k] < ix[l]
    ensures forall i | lo <= i < |xs| && FirstWithKey(xs, key, i) :: i in ix
    decreases |xs| - lo
  {
    if lo == |xs| then [] else (if FirstWithKey(xs, key, lo) then [lo] else []) + FirstIndices(xs, key, lo + 1)
  }

  /** The elements of `xs` at the positions `ix`. */
  function Pick<T>(xs: seq<T>, ix: seq<nat>): (ys: seq<T>)
    requires forall k | 0 <= k < |ix| :: ix[k] < |xs|
    ensures |ys| == |ix|
    ensures forall k | 0 <= k < |ix| :: ys[k] == xs[ix[k]]
  {
    seq(|ix|, k requires 0 <= k < |ix| => xs[ix[k]])
  }

  /** The positions from `lo` on whose elements `f` selects, in increasing order. */
  function Selected<T>(xs: seq<T>, f: T -> bool, lo: nat): (ix: seq<nat>)
    requires lo <= |xs|
    ensures forall k | 0 <= k < |ix| :: lo <= ix[k] < |xs| && f(xs[ix[k]])
    ensures forall k, l | 0 <= k < l < |ix| :: ix[k] < ix[l]
    ensures forall i | lo <= i < |xs| && f(xs[i]) :: i in ix
    decreases |xs| - lo
  {
    if lo == |xs| then [] else (if f(xs[lo]) then [lo] else []) + Selected(xs, f, lo + 1)
  }

  /** Filtering keeps exactly the selected elements, each from its own position, in order. */
  lemma {:induction false} FilterPicks<T>(xs: seq<T>, f: T -> bool, lo: nat)
    requires lo <= |xs|
    ensures Filter(xs[lo..], f) == Pick(xs, Selected(xs, f, lo))
    decreases |xs| - lo
  {
    if lo < |xs| {
      FilterPicks(xs, f, lo + 1);
      assert xs[lo..][1..] == xs[lo + 1..];
      assert xs[lo..][0] == xs[lo];
      if f(xs[lo]) {
        PickCons(xs, lo, Selected(xs, f, lo + 1));
      }
    }
  }

  /** The keys of the elements before position `lo`. */
  function KeysBefore<T, K>(xs: seq<T>, key: T -> K, lo: nat): set<K>
    requires lo <= |xs|
  {
    set i | 0 <= i < lo :: key(xs[i])
  }

  /** From position `lo` on, with the earlier keys seen, deduplication keeps exactly the elements at
      the first-of-their-key positions, in order. */
  lemma {:induction false} DedupFromPicks<T, K>(xs: seq<T>, key: T -> K, lo: nat)
    requires lo <= |xs|
    ensures DedupFrom(xs[lo..], key, KeysBefore(xs, key, lo)) == Pick(xs, FirstIndices(xs, key, lo))
    decreases |xs| - lo
  {
    if lo < |xs| {
      DedupFromPicks(xs, key, lo + 1);
      KeysBeforeStep(xs, key, lo);
      if FirstWithKey(xs, key, lo) {
        PicksStepFirst(xs, key, lo);
      } else {
        PicksStepRepeat(xs, key, lo);
      }
    }
  }

  /** The step of `DedupFromPicks` at a position that is the first of its key. */
  lemma PicksStepFirst<T, K>(xs: seq<T>, key: T -> K, lo: nat)
    requires lo < |xs| && FirstWithKey(xs, key, lo)
    requires key(xs[lo]) !in KeysBefore(xs, key, lo)
    requires KeysBefore(xs, key, lo + 1) == KeysBefore(xs, key, lo) + {key(xs[lo])}
    requires DedupFrom(xs[lo + 1..], key, KeysBefore(xs, key, lo + 1)) == Pick(xs, FirstIndices(xs, key, lo + 1))
    ensures DedupFrom(xs[lo..], key, KeysBefore(xs, key, lo)) == Pick(xs, FirstIndices(xs, key, lo))
  {
    assert xs[lo..][0] == xs[lo] && xs[lo..][1..] == xs[lo + 1..];
    var rest := FirstIndices(xs, key, lo + 1);
    assert FirstIndices(xs, key, lo) == [lo] + rest;
    PickCons(xs, lo, rest);
  }

  /** The step of `DedupFromPicks` at a position whose key occurred earlier. */
  lemma PicksStepRepeat<T, K>(xs: seq<T>, key: T -> K, lo: nat)
    requires lo < |xs| && !FirstWithKey(xs, key, lo)
    requires key(xs[lo]) in KeysBefore(xs, key, lo)
    requires KeysBefore(xs, key, lo + 1) == KeysBefore(xs, key, lo) + {key(xs[lo])}
    requires DedupFrom(xs[lo + 1..], key, KeysBefore(xs, key, lo + 1)) == Pick(xs, FirstIndices(xs, key, lo + 1))
    ensures DedupFrom(xs[lo..], key, KeysBefore(xs, key, lo)) == Pick(xs, FirstIndices(xs, key, lo))
  {
    assert xs[lo..][0] == xs[lo] && xs[lo..][1..] == xs[lo + 1..];
    assert KeysBefore(xs, key, lo + 1) == KeysBefore(xs, key, lo);
    assert FirstIndices(xs, key, lo) == FirstIndices(xs, key, lo + 1);
  }

  /** Position `lo` is the first of its key exactly when its key is not among the earlier ones,
      and the earlier keys grow by that key. */
  lemma KeysBeforeStep<T, K>(xs: seq<T>, key: T -> K, lo: nat)
    requires lo < |xs|
    ensures key(xs[lo]) in KeysBefore(xs, key, lo) <==> !FirstWithKey(xs, key, lo)
    ensures KeysBefore(xs, key, lo + 1) == KeysBefore(xs, key, lo) + {key(xs[lo])}
  {
    if key(xs[lo]) in KeysBefore(xs, key, lo) {
      var i :| 0 <= i < lo && key(xs[i]) == key(xs[lo]);
    }
  }

  lemma PickCons<T>(xs: seq<T>, i: nat, ix: seq<nat>)
    requires i < |xs| && forall k | 0 <= k < |ix| :: ix[k] < |xs|
    ensures Pick(xs, [i] + ix) == [xs[i]] + Pick(xs, ix)
  {
  }

  /** `DedupBy` keeps, in order, exactly one element per key of `xs`: the first one. The kept
      elements are `xs` taken at strictly increasing positions, each the first of its key. */
  lemma DedupByCorrect<T, K>(xs: seq<T>, key: T -> K)
    ensures KeysDistinct(DedupBy(xs, key), key)
    ensures forall y | y in DedupBy(xs, key) :: exists i | 0 <= i < |xs| :: xs[i] == y && FirstWithKey(xs, key, i)
    ensures forall x | x in xs :: exists y | y in DedupBy(xs, key) :: key(y) == key(x)
    ensures var ix := FirstIndices(xs, key, 0);
            && |DedupBy(xs, key)| == |ix|
            && (forall k | 0 <= k < |ix| :: ix[k] < |xs| && DedupBy(xs, key)[k] == xs[ix[k]] && FirstWithKey(xs, key, ix[k]))
            && (forall k, l | 0 <= k < l < |ix| :: ix[k] < ix[l])
  {
    DedupFromSound(xs, key, {});
    DedupFromComplete(xs, key, {});
    DedupFromKeepsFirst(xs, key, {});
    DedupByPositions(xs, key);
  }

  /** The kept elements are `xs` at the first-of-their-key positions, in increasing order. */
  lemma DedupByPositions<T, K>(xs: seq<T>, key: T -> K)
    ensures var ix := FirstIndices(xs, key, 0);
            && |DedupBy(xs, key)| == |ix|
            && (forall k | 0 <= k < |ix| :: ix[k] < |xs| && DedupBy(xs, key)[k] == xs[ix[k]])
  {
    DedupFromPicks(xs, key, 0);
    assert xs[0..] == xs;
    assert KeysBefore(xs, key, 0) == {};
  }

  /** A list whose keys are already distinct is left as it is. */
  lemma {:induction false} DedupFromDistinct<T, K>(xs: seq<T>, key: T -> K, seen: set<K>)
    requires KeysDistinct(xs, key)
    requires forall x | x in xs :: key(x) !in seen
    ensures DedupFrom(xs, key, seen) == xs
    decreases |xs|
  {
    if xs != [] {
      var seen' := seen + {key(xs[0])};
      forall x | x in xs[1..] ensures key(x) !in seen' {
        var i :| 0 <= i < |xs[1..]| && xs[1..][i] == x;
        assert xs[i + 1] == x;
      }
      assert KeysDistinct(xs[1..], key) by {
        forall i, j | 0 <= i < j < |xs[1..]| ensures key(xs[1..][i]) != key(xs[1..][j]) {
          assert xs[1..][i] == xs[i + 1] && xs[1..][j] == xs[j + 1];
        }
      }
      DedupFromDistinct(xs[1..], key, seen');
    }
  }

  /** Deduplicating twice is deduplicating once. */
  lemma DedupByIdempotent<T, K>(xs: seq<T>, key: T -> K)
    ensures DedupBy(DedupBy(xs, key), key) == DedupBy(xs, key)
  {
    DedupFromSound(xs, key, {});
    DedupFromDistinct(DedupBy(xs, key), key, {});
  }
}
