/** Sequence operations the views use in place of JavaScript's array methods:
    `filter`, `find`, a first-occurrence de-duplication and the (stable) `sort`. */
module Seqs {
  import opened Wrappers

  /** `s.filter(p)`: the elements of `s` that satisfy `p`, in their original order. */
  function Filter<T(!new)>(s: seq<T>, p: T -> bool): (r: seq<T>)
    ensures |r| <= |s|
    ensures forall x :: x in r <==> x in s && p(x)
  {
    if |s| == 0 then []
    else
      var rest := Filter(s[1..], p);
      assert s == [s[0]] + s[1..];
      if p(s[0]) then [s[0]] + rest else rest
  }

  /** `Filter` keeps every copy of an element that satisfies `p` and no copy of any other. */
  lemma {:induction false} FilterCounts<T(!new)>(s: seq<T>, p: T -> bool, x: T)
    ensures multiset(Filter(s, p))[x] == if p(x) then multiset(s)[x] else 0
    decreases |s|
  {
    if |s| > 0 {
      assert s == [s[0]] + s[1..];
      FilterCounts(s[1..], p, x);
    }
  }

  /** Filtering a concatenation filters each part. */
  lemma {:induction false} FilterAppend<T(!new)>(a: seq<T>, b: seq<T>, p: T -> bool)
    ensures Filter(a + b, p) == Filter(a, p) + Filter(b, p)
    decreases |a|
  {
    if |a| == 0 {
      assert a + b == b;
    } else {
      assert (a + b)[1..] == a[1..] + b;
      FilterAppend(a[1..], b, p);
    }
  }

  /** Filtering one more element appends it when it passes. */
  lemma FilterSnoc<T(!new)>(s: seq<T>, x: T, p: T -> bool)
    ensures Filter(s + [x], p) == Filter(s, p) + (if p(x) then [x] else [])
  {
    FilterAppend(s, [x], p);
    assert [x][1..] == [];
  }

  /** Filtering with a predicate every element satisfies changes nothing. */
  lemma {:induction false} FilterAll<T(!new)>(s: seq<T>, p: T -> bool)
    requires forall i :: 0 <= i < |s| ==> p(s[i])
    ensures Filter(s, p) == s
    decreases |s|
  {
    if |s| > 0 {
      FilterAll(s[1..], p);
    }
  }

  /** `s.find(p)` as an index: the position of the first element satisfying `p`, if any. */
  function FindFirst<T>(s: seq<T>, p: T -> bool): (r: Option<nat>)
    ensures r.Some? ==> r.value < |s| && p(s[r.value])
    ensures r.Some? ==> forall j :: 0 <= j < r.value ==> !p(s[j])
    ensures r.None? <==> forall j :: 0 <= j < |s| ==> !p(s[j])
  {
    if |s| == 0 then None
    else if p(s[0]) then Some(0)
    else
      match FindFirst(s[1..], p)
      case None => None
      case Some(k) => Some(k + 1)
  }

  /** The set of keys the elements of `s` carry. */
  function KeySet<T, K>(s: seq<T>, key: T -> K): set<K>
  {
    set i | 0 <= i < |s| :: key(s[i])
  }

  lemma KeySetSnoc<T, K>(s: seq<T>, x: T, key: T -> K)
    ensures KeySet(s + [x], key) == KeySet(s, key) + {key(x)}
  {
    var t := s + [x];
    forall k | k in KeySet(t, key) ensures k in KeySet(s, key) + {key(x)} {
      var i :| 0 <= i < |t| && key(t[i]) == k;
      if i < |s| {
        assert t[i] == s[i];
      }
    }
    forall k | k in KeySet(s, key) ensures k in KeySet(t, key) {
      var i :| 0 <= i < |s| && key(s[i]) == k;
      assert t[i] == s[i];
    }
    assert t[|s|] == x;
  }

  /** True when no two elements of `s` carry the same key. */
  ghost predicate DistinctKeys<T, K>(s: seq<T>, key: T -> K)
  {
    forall i, j :: 0 <= i < j < |s| ==> key(s[i]) != key(s[j])
  }

  /** True when `s[i]` is the first element of `s` carrying its key. */
  ghost predicate FirstWithKey<T, K>(s: seq<T>, i: int, key: T -> K)
  {
    0 <= i < |s| && forall j :: 0 <= j < i ==> key(s[j]) != key(s[i])
  }

  /** The elements of `s` that are the first to carry their key, in input order: the reference
      definition of a de-duplication that remembers the keys it has already let through. */
  function DedupBy<T(!new), K(==)>(s: seq<T>, key: T -> K): (r: seq<T>)
    ensures DistinctKeys(r, key)
    ensures KeySet(r, key) == KeySet(s, key)
    ensures forall y :: y in r ==> exists i :: FirstWithKey(s, i, key) && s[i] == y
    decreases |s|
  {
    if |s| == 0 then []
    else
      var init := s[..|s| - 1];
      var last := s[|s| - 1];
      var r0 := DedupBy(init, key);
      KeySetSnoc(init, last, key);
      assert s == init + [last];
      assert forall y :: y in r0 ==> exists i :: FirstWithKey(s, i, key) && s[i] == y by {
        forall y | y in r0 ensures exists i :: FirstWithKey(s, i, key) && s[i] == y {
          var i :| FirstWithKey(init, i, key) && init[i] == y;
          assert FirstWithKey(s, i, key) && s[i] == y;
        }
      }
      if key(last) in KeySet(init, key) then r0
      else
        KeySetSnoc(r0, last, key);
        assert FirstWithKey(s, |s| - 1, key) by {
          forall j | 0 <= j < |s| - 1 ensures key(s[j]) != key(last) {
            assert key(init[j]) in KeySet(init, key);
          }
        }
        assert DistinctKeys(r0 + [last], key) by {
          forall i | 0 <= i < |r0| ensures key(r0[i]) != key(last) {
            assert key(r0[i]) in KeySet(r0, key);
          }
        }
        r0 + [last]
  }

  /** One more element is kept exactly when its key is new. */
  lemma DedupBySnoc<T(!new), K>(s: seq<T>, x: T, key: T -> K)
    ensures DedupBy(s + [x], key) == DedupBy(s, key) + (if key(x) in KeySet(s, key) then [] else [x])
  {
    assert (s + [x])[..|s|] == s;
  }

  /** `idx` lists positions of `s` in increasing order, and `r` holds the elements at those
      positions: `r` is an in-order subsequence of `s`. */
  ghost predicate PicksFrom<T>(s: seq<T>, r: seq<T>, idx: seq<nat>)
  {
    && |idx| == |r|
    && (forall i :: 0 <= i < |idx| ==> idx[i] < |s| && s[idx[i]] == r[i])
    && (forall i, j :: 0 <= i < j < |idx| ==> idx[i] < idx[j])
  }

  /** The positions in `s` that `DedupBy` keeps, strictly increasing: the result is an in-order
      subsequence of the input. */
  ghost function DedupPositions<T(!new), K>(s: seq<T>, key: T -> K): (idx: seq<nat>)
    ensures |idx| == |DedupBy(s, key)|
    ensures forall i :: 0 <= i < |idx| ==> idx[i] < |s| && s[idx[i]] == DedupBy(s, key)[i]
    ensures forall i, j :: 0 <= i < j < |idx| ==> idx[i] < idx[j]
    decreases |s|
  {
    if |s| == 0 then []
    else
      var init := s[..|s| - 1];
      var idx0 := DedupPositions(init, key);
      var last := s[|s| - 1];
      assert init + [last] == s;
      DedupBySnoc(init, last, key);
      if key(last) in KeySet(init, key) then
        PicksFromSnoc(init, DedupBy(init, key), idx0, last, false);
        idx0
      else
        PicksFromSnoc(init, DedupBy(init, key), idx0, last, true);
        idx0 + [|s| - 1]
  }

  /** Picking from a longer sequence: the old picks stay valid, and the new last element may be
      picked after them. */
  lemma PicksFromSnoc<T>(s: seq<T>, r: seq<T>, idx: seq<nat>, x: T, take: bool)
    requires PicksFrom(s, r, idx)
    ensures take ==> PicksFrom(s + [x], r + [x], idx + [|s|])
    ensures !take ==> PicksFrom(s + [x], r, idx)
  {
    var t := s + [x];
    forall i | 0 <= i < |idx| ensures t[idx[i]] == r[i] {
      assert t[idx[i]] == s[idx[i]];
    }
  }

  /** One step of a filter-then-deduplicate pass: the next element joins the passing ones when it
      passes, and the kept ones when its key is also new. */
  lemma FilterDedupStep<T(!new), K>(s: seq<T>, i: nat, p: T -> bool, key: T -> K, passed: seq<T>, seen: set<K>)
    requires i < |s|
    requires passed == Filter(s[..i], p)
    requires seen == KeySet(passed, key)
    ensures var next := if p(s[i]) then passed + [s[i]] else passed;
      && next == Filter(s[..i + 1], p)
      && KeySet(next, key) == (if p(s[i]) then seen + {key(s[i])} else seen)
      && DedupBy(next, key) == DedupBy(passed, key) + (if p(s[i]) && key(s[i]) !in seen then [s[i]] else [])
  {
    assert s[..i + 1] == s[..i] + [s[i]];
    FilterSnoc(s[..i], s[i], p);
    KeySetSnoc(passed, s[i], key);
    DedupBySnoc(passed, s[i], key);
  }

  /** `s.map(f)`. */
  function Map<T, U>(s: seq<T>, f: T -> U): (r: seq<U>)
    ensures |r| == |s|
    ensures forall i :: 0 <= i < |s| ==> r[i] == f(s[i])
  {
    seq(|s|, i requires 0 <= i < |s| => f(s[i]))
  }

  lemma MapSnoc<T, U>(s: seq<T>, x: T, f: T -> U)
    ensures Map(s + [x], f) == Map(s, f) + [f(x)]
  {
  }

  /** Filter, de-duplicate by key and map in one pass, remembering the keys already let through. */
  method FilterDedupMap<T(!new), K(==), U>(s: seq<T>, p: T -> bool, key: T -> K, f: T -> U) returns (r: seq<U>)
    ensures r == Map(DedupBy(Filter(s, p), key), f)
  {
    var passed: seq<T> := [];
    var kept: seq<T> := [];
    var seen: set<K> := {};
    r := [];
    for i := 0 to |s|
      invariant passed == Filter(s[..i], p)
      invariant kept == DedupBy(passed, key)
      invariant seen == KeySet(passed, key)
      invariant r == Map(kept, f)
    {
      var x := s[i];
      FilterDedupStep(s, i, p, key, passed, seen);
      if p(x) {
        var k := key(x);
        if k !in seen {
          MapSnoc(kept, x, f);
          seen := seen + {k};
          kept := kept + [x];
          r := r + [f(x)];
        }
        passed := passed + [x];
      }
    }
    assert s[..|s|] == s;
  }

  /** The keys of `s` in order of first appearance. */
  function FirstKeys<T(!new), K(==)>(s: seq<T>, key: T -> K): seq<K>
  {
    var firsts := DedupBy(s, key);
    seq(|firsts|, i requires 0 <= i < |firsts| => key(firsts[i]))
  }

  /** Each key appears once, and the keys are exactly those the elements carry. */
  lemma FirstKeysDistinctAndComplete<T(!new), K>(s: seq<T>, key: T -> K)
    ensures forall i, j :: 0 <= i < j < |FirstKeys(s, key)| ==> FirstKeys(s, key)[i] != FirstKeys(s, key)[j]
    ensures forall k :: k in FirstKeys(s, key) <==> k in KeySet(s, key)
    ensures forall k :: k in FirstKeys(s, key) <==> exists m :: 0 <= m < |s| && key(s[m]) == k
  {
    var firsts := DedupBy(s, key);
    var ks := FirstKeys(s, key);
    forall k ensures k in ks <==> k in KeySet(firsts, key) {
      if k in ks {
        var i :| 0 <= i < |ks| && ks[i] == k;
        assert key(firsts[i]) == k;
      }
      if k in KeySet(firsts, key) {
        var i :| 0 <= i < |firsts| && key(firsts[i]) == k;
        assert ks[i] == k;
      }
    }
  }

  lemma FirstKeysMember<T(!new), K>(s: seq<T>, key: T -> K, k: K)
    ensures k in FirstKeys(s, key) <==> k in KeySet(s, key)
  {
    FirstKeysDistinctAndComplete(s, key);
  }

  /** Appending an element appends its key, unless the key was already there. */
  lemma FirstKeysSnoc<T(!new), K>(s: seq<T>, x: T, key: T -> K)
    ensures FirstKeys(s + [x], key) == FirstKeys(s, key) + (if key(x) in FirstKeys(s, key) then [] else [key(x)])
  {
    var t := s + [x];
    assert t[..|t| - 1] == s;
    FirstKeysMember(s, key, key(x));
    var d := DedupBy(s, key);
    var ks := FirstKeys(s, key);
    if key(x) in KeySet(s, key) {
      assert DedupBy(t, key) == d;
      assert FirstKeys(t, key) == ks;
      assert ks + [] == ks;
    } else {
      var e := d + [x];
      assert DedupBy(t, key) == e;
      assert FirstKeys(t, key) == ks + [key(x)] by {
        forall i | 0 <= i < |e| ensures FirstKeys(t, key)[i] == (ks + [key(x)])[i] {
          if i < |d| {
            assert e[i] == d[i];
          }
        }
      }
    }
  }

  /** True when `s` is in ascending order of `key`. */
  ghost predicate SortedBy<T>(s: seq<T>, key: T -> int)
  {
    forall i, j :: 0 <= i < j < |s| ==> key(s[i]) <= key(s[j])
  }

  /** The test "carries key `k`", as a value that can be passed to `Filter`. */
  function KeyIs<T>(key: T -> int, k: int): T -> bool
  {
    x => key(x) == k
  }

  /** The elements of `s` whose key is `k`, in their original order. */
  function WithKey<T(!new)>(s: seq<T>, key: T -> int, k: int): seq<T>
  {
    Filter(s, KeyIs(key, k))
  }

  /** Inserts `x` into the sorted `t` after every element whose key is not greater than its own. */
  function Insert<T(!new)>(t: seq<T>, x: T, key: T -> int): (r: seq<T>)
    requires SortedBy(t, key)
    ensures SortedBy(r, key)
    ensures |r| == |t| + 1 && (r[0] == x || (|t| > 0 && r[0] == t[0]))
    decreases |t|
  {
    if |t| == 0 then [x]
    else if key(x) < key(t[0]) then [x] + t
    else
      var rest := Insert(t[1..], x, key);
      var r := [t[0]] + rest;
      assert t == [t[0]] + t[1..];
      assert key(t[0]) <= key(rest[0]) by {
        if rest[0] != x {
          assert key(t[0]) <= key(t[1]);
        }
      }
      assert SortedBy(r, key) by {
        forall i, j | 0 <= i < j < |r| ensures key(r[i]) <= key(r[j]) {
          if i == 0 && j > 1 {
            assert key(rest[0]) <= key(rest[j - 1]);
          }
        }
      }
      r
  }

  /** Insertion adds `x` and loses nothing. */
  lemma {:induction false} InsertPermutes<T(!new)>(t: seq<T>, x: T, key: T -> int)
    requires SortedBy(t, key)
    ensures multiset(Insert(t, x, key)) == multiset(t) + multiset{x}
    decreases |t|
  {
    if |t| > 0 && key(x) >= key(t[0]) {
      assert t == [t[0]] + t[1..];
      InsertPermutes(t[1..], x, key);
    }
  }

  /** A sorted sequence has no element whose key is below its first one. */
  lemma NoneBelowFirst<T(!new)>(t: seq<T>, key: T -> int, k: int)
    requires SortedBy(t, key) && |t| > 0 && k < key(t[0])
    ensures Filter(t, KeyIs(key, k)) == []
  {
    forall i | 0 <= i < |t| ensures !KeyIs(key, k)(t[i]) {
      assert key(t[0]) <= key(t[i]);
    }
  }

  /** The filtered tail that `x` contributes. */
  lemma FilterSingleton<T(!new)>(x: T, key: T -> int, k: int)
    ensures Filter([x], KeyIs(key, k)) == if key(x) == k then [x] else []
  {
    assert [x][1..] == [];
  }

  /** `x` goes in front of `t` when its key is below that of `t`'s first element. */
  lemma InsertInFront<T(!new)>(t: seq<T>, x: T, key: T -> int, k: int)
    requires SortedBy(t, key) && (|t| == 0 || key(x) < key(t[0]))
    ensures WithKey([x] + t, key, k) == WithKey(t, key, k) + (if key(x) == k then [x] else [])
  {
    FilterAppend([x], t, KeyIs(key, k));
    FilterSingleton(x, key, k);
    if key(x) == k && |t| > 0 {
      NoneBelowFirst(t, key, k);
    }
  }

  /** Filtering by key splits off the first element. */
  lemma ConsWithKey<T(!new)>(a: T, s: seq<T>, key: T -> int, k: int)
    ensures WithKey([a] + s, key, k) == (if key(a) == k then [a] else []) + WithKey(s, key, k)
  {
    FilterAppend([a], s, KeyIs(key, k));
    FilterSingleton(a, key, k);
  }

  /** `x` lands behind every element of `t` that has its key. */
  lemma {:induction false} InsertWithKey<T(!new)>(t: seq<T>, x: T, key: T -> int, k: int)
    requires SortedBy(t, key)
    ensures WithKey(Insert(t, x, key), key, k) == WithKey(t, key, k) + (if key(x) == k then [x] else [])
    decreases |t|
  {
    if |t| == 0 || key(x) < key(t[0]) {
      assert Insert(t, x, key) == [x] + t;
      InsertInFront(t, x, key, k);
    } else {
      var rest := Insert(t[1..], x, key);
      var head: seq<T> := if key(t[0]) == k then [t[0]] else [];
      var tail: seq<T> := if key(x) == k then [x] else [];
      assert Insert(t, x, key) == [t[0]] + rest;
      InsertWithKey(t[1..], x, key, k);
      ConsWithKey(t[0], rest, key, k);
      assert t == [t[0]] + t[1..];
      ConsWithKey(t[0], t[1..], key, k);
      assert head + (WithKey(t[1..], key, k) + tail) == (head + WithKey(t[1..], key, k)) + tail;
    }
  }

  /** Insertion sort ascending by `key`, the behaviour of `Array.prototype.sort` with the
      comparator `(a, b) => key(a) - key(b)`: the result is in order and a permutation. */
  function SortBy<T(!new)>(s: seq<T>, key: T -> int): (r: seq<T>)
    ensures SortedBy(r, key)
    ensures multiset(r) == multiset(s)
    decreases |s|
  {
    if |s| == 0 then []
    else
      assert s == s[..|s| - 1] + [s[|s| - 1]];
      InsertPermutes(SortBy(s[..|s| - 1], key), s[|s| - 1], key);
      Insert(SortBy(s[..|s| - 1], key), s[|s| - 1], key)
  }

  /** The sort is stable, as `Array.prototype.sort` is required to be: the elements that share a
      key come out in the order they went in. */
  lemma {:induction false} SortByStable<T(!new)>(s: seq<T>, key: T -> int, k: int)
    ensures WithKey(SortBy(s, key), key, k) == WithKey(s, key, k)
    decreases |s|
  {
    if |s| > 0 {
      var p := KeyIs(key, k);
      var init := s[..|s| - 1];
      var last := s[|s| - 1];
      assert s == init + [last];
      var sorted := SortBy(init, key);
      assert SortBy(s, key) == Insert(sorted, last, key);
      SortByStable(init, key, k);
      InsertWithKey(sorted, last, key, k);
      FilterAppend(init, [last], p);
      FilterSingleton(last, key, k);
    }
  }
}
