/**
 Total orders by key: the library sorts of the source, the uniqueness of a strictly sorted
 arrangement, and the iteration order of its ordered sets and maps.
 */
module Ordering {

  /** Keys compare lexicographically; a descending component is stored negated. */
  type Key = (int, int)

  predicate KeyLess(a: Key, b: Key) {
    a.0 < b.0 || (a.0 == b.0 && a.1 < b.1)
  }

  predicate KeyLeq(a: Key, b: Key) {
    !KeyLess(b, a)
  }

  ghost predicate Sorted<T>(s: seq<T>, key: T -> Key) {
    forall i, j :: 0 <= i < j < |s| ==> KeyLeq(key(s[i]), key(s[j]))
  }

  ghost predicate StrictlySorted<T>(s: seq<T>, key: T -> Key) {
    forall i, j :: 0 <= i < j < |s| ==> KeyLess(key(s[i]), key(s[j]))
  }

  ghost predicate DistinctKeys<T>(s: seq<T>, key: T -> Key) {
    forall i, j :: 0 <= i < j < |s| ==> key(s[i]) != key(s[j])
  }

  /** Stable sort, as an insertion sort from the right. */
  function Sort<T>(s: seq<T>, key: T -> Key): seq<T> {
    if s == [] then [] else Insert(s[0], Sort(s[1..], key), key)
  }

  function Insert<T>(x: T, s: seq<T>, key: T -> Key): seq<T> {
    if s == [] || KeyLeq(key(x), key(s[0])) then [x] + s
    else [s[0]] + Insert(x, s[1..], key)
  }

  lemma {:induction false} InsertMembers<T>(x: T, s: seq<T>, key: T -> Key)
    ensures multiset(Insert(x, s, key)) == multiset(s) + multiset{x}
    ensures Insert(x, s, key) != []
    ensures forall y :: y in Insert(x, s, key) ==> y == x || y in s
  {
    if !(s == [] || KeyLeq(key(x), key(s[0]))) {
      InsertMembers(x, s[1..], key);
      assert s == [s[0]] + s[1..];
    }
  }

  lemma {:induction false} InsertSorted<T>(x: T, s: seq<T>, key: T -> Key)
    requires Sorted(s, key)
    ensures Sorted(Insert(x, s, key), key)
  {
    if !(s == [] || KeyLeq(key(x), key(s[0]))) {
      InsertSorted(x, s[1..], key);
      InsertMembers(x, s[1..], key);
      var rest := Insert(x, s[1..], key);
      forall j | 0 <= j < |rest|
        ensures KeyLeq(key(s[0]), key(rest[j]))
      {
        assert rest[j] == x || rest[j] in s[1..];
      }
    }
  }

  lemma {:induction false} SortProperties<T>(s: seq<T>, key: T -> Key)
    ensures Sorted(Sort(s, key), key)
    ensures multiset(Sort(s, key)) == multiset(s)
    ensures |Sort(s, key)| == |s|
  {
    if s != [] {
      SortProperties(s[1..], key);
      InsertSorted(s[0], Sort(s[1..], key), key);
      InsertMembers(s[0], Sort(s[1..], key), key);
      assert s == [s[0]] + s[1..];
    }
    assert |multiset(Sort(s, key))| == |multiset(s)|;
  }

  lemma SortMembers<T>(s: seq<T>, key: T -> Key)
    ensures forall x :: x in Sort(s, key) <==> x in s
  {
    SortProperties(s, key);
    forall x
      ensures x in Sort(s, key) <==> x in s
    {
      assert x in Sort(s, key) <==> x in multiset(Sort(s, key));
      assert x in s <==> x in multiset(s);
    }
  }

  /** Sorting what is already sorted changes nothing. */
  lemma {:induction false} SortIdentity<T>(s: seq<T>, key: T -> Key)
    requires Sorted(s, key)
    ensures Sort(s, key) == s
  {
    if s != [] {
      SortIdentity(s[1..], key);
      assert s == [s[0]] + s[1..];
    }
  }

  lemma HeadLeast<T>(s: seq<T>, key: T -> Key, x: T)
    requires StrictlySorted(s, key) && x in s
    ensures s[0] == x || KeyLess(key(s[0]), key(x))
  {
  }

  lemma SameEmptiness<T>(a: seq<T>, b: seq<T>)
    requires forall x :: x in a <==> x in b
    ensures a == [] <==> b == []
  {
    if a != [] {
      assert a[0] in a;
    }
    if b != [] {
      assert b[0] in b;
    }
  }

  /** A strictly sorted arrangement of a given collection is unique. */
  lemma {:induction false} StrictOrderUnique<T>(a: seq<T>, b: seq<T>, key: T -> Key)
    requires StrictlySorted(a, key) && StrictlySorted(b, key)
    requires forall x :: x in a <==> x in b
    ensures a == b
  {
    SameEmptiness(a, b);
    if a != [] {
      assert a[0] in a && b[0] in b;
      HeadLeast(a, key, b[0]);
      HeadLeast(b, key, a[0]);
      assert a[0] == b[0];
      forall x
        ensures x in a[1..] <==> x in b[1..]
      {
        TailMembers(a, key, x);
        TailMembers(b, key, x);
      }
      StrictOrderUnique(a[1..], b[1..], key);
      assert a == [a[0]] + a[1..] && b == [b[0]] + b[1..];
    }
  }

  lemma TailMembers<T>(s: seq<T>, key: T -> Key, x: T)
    requires s != [] && StrictlySorted(s, key)
    ensures x in s[1..] <==> x in s && x != s[0]
  {
    assert s == [s[0]] + s[1..];
    if x in s[1..] {
      var i :| 0 <= i < |s[1..]| && s[1..][i] == x;
      assert KeyLess(key(s[0]), key(s[i + 1]));
    }
  }

  /** An unstable sort has one possible result when the keys are distinct. */
  lemma UnstableSortUnique<T>(s: seq<T>, sorted: seq<T>, key: T -> Key)
    requires DistinctKeys(s, key)
    requires Sorted(sorted, key) && multiset(sorted) == multiset(s)
    ensures sorted == Sort(s, key) && StrictlySorted(sorted, key)
  {
    SortProperties(s, key);
    DistinctSurvives(s, sorted, key);
    DistinctSurvives(s, Sort(s, key), key);
    SortMembers(s, key);
    forall x
      ensures x in sorted <==> x in Sort(s, key)
    {
      assert x in sorted <==> x in multiset(sorted);
      assert x in s <==> x in multiset(s);
    }
    StrictOrderUnique(sorted, Sort(s, key), key);
  }

  /** A sorted arrangement of items with distinct keys is strictly sorted. */
  lemma DistinctSurvives<T>(s: seq<T>, t: seq<T>, key: T -> Key)
    requires DistinctKeys(s, key)
    requires Sorted(t, key) && multiset(t) == multiset(s)
    ensures StrictlySorted(t, key)
  {
    forall i, j | 0 <= i < j < |t|
      ensures KeyLess(key(t[i]), key(t[j]))
    {
      var p, q := TwoPositions(s, t, i, j);
      assert key(s[p]) != key(s[q]);
    }
  }

  /** Two positions of a rearrangement come from two positions of the original. */
  lemma TwoPositions<T>(s: seq<T>, t: seq<T>, i: nat, j: nat) returns (p: nat, q: nat)
    requires multiset(t) == multiset(s) && i < j < |t|
    ensures p < |s| && q < |s| && p != q && s[p] == t[i] && s[q] == t[j]
  {
    assert t == t[..i] + [t[i]] + t[i + 1..j] + [t[j]] + t[j + 1..];
    assert t[i] in multiset(s) && t[j] in multiset(s);
    if t[i] == t[j] {
      assert multiset(s)[t[i]] >= 2;
      p, q := FindTwo(s, t[i]);
    } else {
      p :| 0 <= p < |s| && s[p] == t[i];
      q :| 0 <= q < |s| && s[q] == t[j];
    }
  }

  lemma FindTwo<T>(s: seq<T>, x: T) returns (p: nat, q: nat)
    requires multiset(s)[x] >= 2
    ensures p < |s| && q < |s| && p != q && s[p] == x && s[q] == x
  {
    assert x in multiset(s);
    p :| 0 <= p < |s| && s[p] == x;
    assert s == s[..p] + [x] + s[p + 1..];
    assert multiset(s) == multiset(s[..p]) + multiset{x} + multiset(s[p + 1..]);
    if x in multiset(s[..p]) {
      q :| 0 <= q < p && s[..p][q] == x;
    } else {
      assert x in multiset(s[p + 1..]);
      var o :| 0 <= o < |s[p + 1..]| && s[p + 1..][o] == x;
      q := p + 1 + o;
    }
  }

  /** Strict sorting is preserved by taking a slice. */
  lemma StrictSlice<T>(s: seq<T>, key: T -> Key, lo: nat, hi: nat)
    requires StrictlySorted(s, key) && lo <= hi <= |s|
    ensures StrictlySorted(s[lo..hi], key)
  {
    forall i, j | 0 <= i < j < hi - lo
      ensures KeyLess(key(s[lo..hi][i]), key(s[lo..hi][j]))
    {
      assert s[lo..hi][i] == s[lo + i] && s[lo..hi][j] == s[lo + j];
    }
  }

  /** Neighbours in order suffice. */
  lemma {:induction false} NeighboursStrict<T>(s: seq<T>, key: T -> Key)
    requires forall i :: 0 < i < |s| ==> KeyLess(key(s[i - 1]), key(s[i]))
    ensures StrictlySorted(s, key)
  {
    forall i, j | 0 <= i < j < |s|
      ensures KeyLess(key(s[i]), key(s[j]))
    {
      var k := i + 1;
      while k < j
        invariant i < k <= j
        invariant KeyLess(key(s[i]), key(s[k]))
      {
        k := k + 1;
      }
    }
  }
}

/** Order-preserving filtering. */
module Filtering {
  import opened Ordering

  lemma IndexIn<T>(s: seq<T>, x: T) returns (i: nat)
    requires x in s
    ensures i < |s| && s[i] == x
  {
    i :| 0 <= i < |s| && s[i] == x;
  }

  function Filter<T>(s: seq<T>, keep: T -> bool): seq<T> {
    if s == [] then []
    else if keep(s[0]) then [s[0]] + Filter(s[1..], keep)
    else Filter(s[1..], keep)
  }

  lemma {:induction false} FilterMembers<T>(s: seq<T>, keep: T -> bool)
    ensures forall x :: x in Filter(s, keep) <==> x in s && keep(x)
    ensures |Filter(s, keep)| <= |s|
  {
    if s != [] {
      FilterMembers(s[1..], keep);
      assert s == [s[0]] + s[1..];
    }
  }

  lemma FilterMember<T>(s: seq<T>, keep: T -> bool, x: T)
    ensures x in Filter(s, keep) <==> x in s && keep(x)
  {
    FilterMembers(s, keep);
  }

  lemma {:induction false} FilterAppend<T>(a: seq<T>, b: seq<T>, keep: T -> bool)
    ensures Filter(a + b, keep) == Filter(a, keep) + Filter(b, keep)
  {
    if a == [] {
      assert a + b == b;
    } else {
      assert (a + b)[1..] == a[1..] + b;
      FilterAppend(a[1..], b, keep);
    }
  }

  lemma {:induction false} FilterAll<T>(s: seq<T>, keep: T -> bool)
    requires forall x :: x in s ==> keep(x)
    ensures Filter(s, keep) == s
  {
    if s != [] {
      FilterAll(s[1..], keep);
      assert s == [s[0]] + s[1..];
    }
  }

  lemma {:induction false} FilterStrict<T>(s: seq<T>, keep: T -> bool, key: T -> Key)
    requires StrictlySorted(s, key)
    ensures StrictlySorted(Filter(s, keep), key)
  {
    if s != [] {
      StrictSlice(s, key, 1, |s|);
      assert s[1..|s|] == s[1..];
      FilterStrict(s[1..], keep, key);
      FilterMembers(s[1..], keep);
      forall x | x in Filter(s[1..], keep)
        ensures KeyLess(key(s[0]), key(x))
      {
        FilterMember(s[1..], keep, x);
        var i := IndexIn(s[1..], x);
        assert x == s[i + 1];
      }
    }
  }
}

/** Ordered sets and the keys of ordered maps, in iteration order. */
module OrderedSets {
  import opened Ordering

  function IdKey(id: nat): Key {
    (id, 0)
  }

  lemma {:induction false} LeastOf(ids: set<nat>) returns (m: nat)
    requires ids != {}
    ensures m in ids && forall x :: x in ids ==> m <= x
    decreases |ids|
  {
    var y :| y in ids;
    var rest := ids - {y};
    if rest == {} {
      m := y;
    } else {
      var l := LeastOf(rest);
      m := if l < y then l else y;
    }
    forall x | x in ids
      ensures m <= x
    {
      assert x == y || x in rest;
    }
  }

  lemma LeastExists(ids: set<nat>)
    requires ids != {}
    ensures exists m :: m in ids && forall x :: x in ids ==> m <= x
  {
    var m := LeastOf(ids);
  }

  lemma AscendingStep(ids: set<nat>, m: nat, rest: seq<nat>)
    requires m in ids && forall x :: x in ids ==> m <= x
    requires forall id :: id in rest <==> id in ids - {m}
    requires StrictlySorted(rest, IdKey)
    ensures forall id :: id in [m] + rest <==> id in ids
    ensures StrictlySorted([m] + rest, IdKey)
  {
    forall j | 0 <= j < |rest|
      ensures m < rest[j]
    {
      assert rest[j] in ids - {m};
    }
  }

  /** Iteration order of an ordered set, or of the keys of an ordered map. */
  function Ascending(ids: set<nat>): seq<nat> {
    if ids == {} then []
    else
      LeastExists(ids);
      var m :| m in ids && forall x :: x in ids ==> m <= x;
      [m] + Ascending(ids - {m})
  }

  lemma {:induction false} AscendingProperties(ids: set<nat>)
    ensures forall id :: id in Ascending(ids) <==> id in ids
    ensures StrictlySorted(Ascending(ids), IdKey)
    ensures |Ascending(ids)| == |ids|
  {
    if ids != {} {
      LeastExists(ids);
      var m :| m in ids && (forall x :: x in ids ==> m <= x) && Ascending(ids) == [m] + Ascending(ids - {m});
      AscendingProperties(ids - {m});
      AscendingStep(ids, m, Ascending(ids - {m}));
    }
  }
}
