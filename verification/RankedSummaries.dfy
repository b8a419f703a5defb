/**
 The cached summaries and their ranking by total, largest first (canisters/historian/src/lifecycle.rs).
 The ranking vector is maintained incrementally by binary search.
 */
module RankedSummaries {
  import opened Machine
  import opened Ordering
  import opened Filtering
  import opened OrderedSets
  import opened HistorianData

  type Cache = map<Principal, CanisterSummary>
  type Index = seq<Principal>

  function SummaryKey(s: CanisterSummary): Key {
    var total: int := s.totalQualifyingCommittedE8s;
    (-total, s.canisterId)
  }

  function RankKey(cache: Cache): Principal -> Key {
    (id: Principal) => if id in cache then SummaryKey(cache[id]) else (1, id)
  }

  ghost predicate OwnKeys(cache: Cache) {
    forall id: Principal :: id in cache ==> cache[id].canisterId == id
  }

  /** Sorting the cache from scratch: by total descending, then by principal. */
  function Ranking(cache: Cache): Index {
    Sort(Ascending(cache.Keys), RankKey(cache))
  }

  ghost predicate ValidRanking(cache: Cache, index: Index) {
    OwnKeys(cache) && index == Ranking(cache)
  }

  /** A cache that was never built counts as empty. */
  ghost predicate ValidOrAbsent(cache: Option<Cache>, index: Option<Index>) {
    ValidRanking(if cache.Some? then cache.value else map[], if index.Some? then index.value else [])
  }

  /** Index entries i and i + 1 of a window are in the cache, carry their own key and are strictly ordered. */
  ghost predicate WindowOrdered(cache: Cache, index: Index, lo: nat, hi: nat)
    requires lo <= hi <= |index|
  {
    && (forall i :: lo <= i < hi ==> index[i] in cache && cache[index[i]].canisterId == index[i])
    && (forall i :: lo < i < hi ==> KeyLess(SummaryKey(cache[index[i - 1]]), SummaryKey(cache[index[i]])))
  }

  lemma RankingProperties(cache: Cache)
    requires OwnKeys(cache)
    ensures StrictlySorted(Ranking(cache), RankKey(cache))
    ensures forall id: Principal :: id in Ranking(cache) <==> id in cache
    ensures |Ranking(cache)| == |cache|
  {
    var ids := Ascending(cache.Keys);
    AscendingProperties(cache.Keys);
    SortProperties(ids, RankKey(cache));
    SortMembers(ids, RankKey(cache));
    forall i, j | 0 <= i < j < |ids|
      ensures RankKey(cache)(ids[i]) != RankKey(cache)(ids[j])
    {
      assert ids[i] in ids && ids[j] in ids;
      assert KeyLess(IdKey(ids[i]), IdKey(ids[j]));
    }
    DistinctSurvives(ids, Ranking(cache), RankKey(cache));
  }

  /** A strictly ordered arrangement of the cache keys is the ranking. */
  lemma RankingUnique(cache: Cache, index: Index)
    requires OwnKeys(cache)
    requires StrictlySorted(index, RankKey(cache))
    requires forall id: Principal :: id in index <==> id in cache
    ensures index == Ranking(cache)
  {
    RankingProperties(cache);
    StrictOrderUnique(index, Ranking(cache), RankKey(cache));
  }

  lemma {:induction false} StrictMembersCount(index: Index, key: Principal -> Key, ids: set<Principal>)
    requires StrictlySorted(index, key)
    requires forall id: Principal :: id in ids <==> id in index
    ensures |ids| == |index|
  {
    if index == [] {
      assert ids == {};
    } else {
      var n := |index| - 1;
      var last := index[n];
      assert index == index[..n] + [last];
      StrictSlice(index, key, 0, n);
      assert index[0..n] == index[..n];
      forall id: Principal
        ensures id in ids - {last} <==> id in index[..n]
      {
        if id in index[..n] {
          var i :| 0 <= i < n && index[..n][i] == id;
          assert KeyLess(key(index[i]), key(last));
        }
      }
      StrictMembersCount(index[..n], key, ids - {last});
    }
  }

  lemma FullSubset(ids: set<Principal>, all: set<Principal>)
    requires ids <= all && |ids| == |all|
    ensures ids == all
  {
    assert all == ids + (all - ids);
    assert |all - ids| == 0;
  }

  lemma CheckedIsValid(cache: Cache, index: Index)
    requires |index| == |cache| && WindowOrdered(cache, index, 0, |index|)
    ensures ValidRanking(cache, index)
  {
    hide Ranking, StrictlySorted;
    NeighboursStrict(index, RankKey(cache));
    var ids: set<Principal> := set id | id in index;
    StrictMembersCount(index, RankKey(cache), ids);
    forall id: Principal | id in ids
      ensures id in cache.Keys && cache[id].canisterId == id
    {
      var i :| 0 <= i < |index| && index[i] == id;
    }
    FullSubset(ids, cache.Keys);
    RankingUnique(cache, index);
  }

  lemma ValidIsChecked(cache: Cache, index: Index)
    requires ValidRanking(cache, index)
    ensures |index| == |cache| && WindowOrdered(cache, index, 0, |index|)
  {
    hide Ranking;
    RankingProperties(cache);
    forall i | 0 <= i < |index|
      ensures index[i] in cache
    {
      assert index[i] in index;
    }
    assert forall i :: 0 < i < |index| ==> KeyLess(RankKey(cache)(index[i - 1]), RankKey(cache)(index[i]));
  }

  /** The one-pass check accepts exactly the valid rankings: strict order and equal length rule out gaps and repeats. */
  lemma OnePassCheckIsExact(cache: Cache, index: Index)
    ensures |index| == |cache| && WindowOrdered(cache, index, 0, |index|) <==> ValidRanking(cache, index)
  {
    hide WindowOrdered, ValidRanking;
    if |index| == |cache| && WindowOrdered(cache, index, 0, |index|) {
      CheckedIsValid(cache, index);
    }
    if ValidRanking(cache, index) {
      ValidIsChecked(cache, index);
    }
  }

  predicate Other(id: Principal, existing: Principal) {
    existing != id
  }

  /** retain(existing != id) */
  function Without(index: Index, id: Principal): Index {
    Filter(index, existing => Other(id, existing))
  }

  /** retain(existing != id && cache.contains_key(existing)) */
  function KnownWithout(cache: Cache, index: Index, id: Principal): Index {
    Filter(index, existing => Other(id, existing) && existing in cache)
  }

  lemma WithoutProperties(index: Index, id: Principal, key: Principal -> Key)
    requires StrictlySorted(index, key)
    ensures StrictlySorted(Without(index, id), key)
    ensures forall x: Principal :: x in Without(index, id) <==> x in index && x != id
  {
    FilterStrict(index, existing => Other(id, existing), key);
    FilterMembers(index, existing => Other(id, existing));
  }

  lemma KnownWithoutIdentity(cache: Cache, index: Index, id: Principal)
    requires forall x: Principal :: x in index ==> x in cache && x != id
    ensures KnownWithout(cache, index, id) == index
  {
    FilterAll(index, existing => Other(id, existing) && existing in cache);
  }

  lemma KnownMembers(cache: Cache, index: Index, id: Principal)
    ensures forall i :: 0 <= i < |KnownWithout(cache, index, id)| ==> KnownWithout(cache, index, id)[i] in cache
  {
    var kept := KnownWithout(cache, index, id);
    FilterMembers(index, existing => Other(id, existing) && existing in cache);
    forall i | 0 <= i < |kept|
      ensures kept[i] in cache
    {
      assert kept[i] in kept;
    }
  }

  /** A change at id leaves the keys of the others alone. */
  lemma KeysElsewhere(cache: Cache, cache': Cache, id: Principal, index: Index)
    requires StrictlySorted(index, RankKey(cache))
    requires forall x: Principal :: x in index ==> x != id && x in cache && x in cache' && cache[x] == cache'[x]
    ensures StrictlySorted(index, RankKey(cache'))
  {
    forall i, j | 0 <= i < j < |index|
      ensures KeyLess(RankKey(cache')(index[i]), RankKey(cache')(index[j]))
    {
      assert index[i] in index && index[j] in index;
      assert KeyLess(RankKey(cache)(index[i]), RankKey(cache)(index[j]));
    }
  }

  ghost predicate Splits(cache: Cache, index: Index, id: Principal, at: nat)
    requires at <= |index|
  {
    && (forall i :: 0 <= i < at ==> KeyLess(RankKey(cache)(index[i]), RankKey(cache)(id)))
    && (forall i :: at <= i < |index| ==> KeyLess(RankKey(cache)(id), RankKey(cache)(index[i])))
  }

  lemma InsertionMembers(index: Index, id: Principal, at: nat)
    requires at <= |index|
    ensures forall x: Principal :: x in index[..at] + [id] + index[at..] <==> x in index || x == id
  {
    assert index == index[..at] + index[at..];
  }

  lemma InsertedOrdered(index: Index, key: Principal -> Key, id: Principal, at: nat)
    requires StrictlySorted(index, key) && at <= |index|
    requires forall i :: 0 <= i < at ==> KeyLess(key(index[i]), key(id))
    requires forall i :: at <= i < |index| ==> KeyLess(key(id), key(index[i]))
    ensures StrictlySorted(index[..at] + [id] + index[at..], key)
  {
    var inserted := index[..at] + [id] + index[at..];
    forall i, j | 0 <= i < j < |inserted|
      ensures KeyLess(key(inserted[i]), key(inserted[j]))
    {
      if i != at && j != at {
        var i', j' := if i < at then i else i - 1, if j < at then j else j - 1;
        assert KeyLess(key(index[i']), key(index[j']));
      }
    }
  }

  /** Inserting at the split point yields the ranking. */
  lemma InsertAtSplit(cache: Cache, index: Index, id: Principal, at: nat)
    requires OwnKeys(cache) && id in cache
    requires StrictlySorted(index, RankKey(cache))
    requires forall x: Principal :: x in index <==> x in cache && x != id
    requires at <= |index| && Splits(cache, index, id, at)
    ensures index[..at] + [id] + index[at..] == Ranking(cache)
  {
    hide Ranking, StrictlySorted;
    var inserted := index[..at] + [id] + index[at..];
    assert index == index[..at] + index[at..];
    forall x: Principal
      ensures x in inserted <==> x in cache
    {
      assert x in index <==> x in index[..at] || x in index[at..];
    }
    InsertedOrdered(index, RankKey(cache), id, at);
    RankingUnique(cache, inserted);
  }

  /** The summaries of all tracked canisters. */
  function AllSummaries(reg: Registry): Cache {
    map id | id in reg.trackingReasons && SummaryFor(reg, id).Some? :: SummaryFor(reg, id).value
  }

  function StoredTotal(reg: Registry, id: Principal): U64 {
    if id in reg.store.rollups then reg.store.rollups[id].totalE8s else 0
  }

  /** Larger stored totals come first, and canisters with equal totals in principal order. */
  ghost predicate RankedByStoredTotals(index: Index, reg: Registry) {
    forall i, j :: 0 <= i < j < |index| ==>
      || StoredTotal(reg, index[i]) > StoredTotal(reg, index[j])
      || (StoredTotal(reg, index[i]) == StoredTotal(reg, index[j]) && index[i] < index[j])
  }

  /**
   Over the registry alone: the ranking lists each canister with a visible reason, a stored commitment and a
   routable principal, by stored total descending, and the cache reports what the registry records.
   */
  lemma RankingByStoredTotals(reg: Registry)
    ensures RankedByStoredTotals(Ranking(AllSummaries(reg)), reg)
    ensures forall id: Principal :: id in Ranking(AllSummaries(reg))
              <==> (exists r :: IsVisible(reg, id, r)) && (exists x :: IsStored(reg, id, x)) && id !in reg.store.unroutable
    ensures forall id: Principal :: id in AllSummaries(reg) ==> Reports(AllSummaries(reg)[id], reg, id)
  {
    hide SummaryFor, IsVisible, IsStored, IsLatestReading, IsLatestSecond, Ranking;
    var cache := AllSummaries(reg);
    forall id: Principal
      ensures id in cache <==>
                (exists r :: IsVisible(reg, id, r)) && (exists x :: IsStored(reg, id, x)) && id !in reg.store.unroutable
      ensures id in cache ==> Reports(cache[id], reg, id)
    {
      VisibleReasonsAreExact(reg, id);
      SummaryReports(reg, id);
    }
    RankingProperties(cache);
    var index := Ranking(cache);
    forall i, j | 0 <= i < j < |index|
      ensures || StoredTotal(reg, index[i]) > StoredTotal(reg, index[j])
              || (StoredTotal(reg, index[i]) == StoredTotal(reg, index[j]) && index[i] < index[j])
    {
      assert index[i] in index && index[j] in index;
      assert KeyLess(RankKey(cache)(index[i]), RankKey(cache)(index[j]));
      assert Reports(cache[index[i]], reg, index[i]) && Reports(cache[index[j]], reg, index[j]);
    }
  }

  function Updated(cache: Cache, id: Principal, summary: Option<CanisterSummary>): Cache {
    if summary.Some? then cache[id := summary.value] else cache - {id}
  }

  datatype SummaryPage = SummaryPage(items: seq<CanisterSummary>, page: U32, pageSize: U32, total: nat)

  function PageStart(page: U32, pageSize: U32): nat {
    Product(page, pageSize);
    Min(page * pageSize, U32_MAX)
  }

  lemma Product(a: nat, b: nat)
    ensures a * b >= 0
  {
  }

  function PageEnd(page: U32, pageSize: U32, count: nat): nat {
    Min(PageStart(page, pageSize) + pageSize, count)
  }

  /** The index entries of one page. */
  function PageIds(index: Index, page: U32, pageSize: U32): Index {
    var start, end := PageStart(page, pageSize), PageEnd(page, pageSize, |index|);
    if start >= |index| then [] else index[start..end]
  }

  function SummariesOf(cache: Cache, ids: Index): seq<CanisterSummary>
    requires forall i :: 0 <= i < |ids| ==> ids[i] in cache
  {
    seq(|ids|, i requires 0 <= i < |ids| => cache[ids[i]])
  }

  /** The entries a page inspects: its own and one neighbour on either side. */
  function InspectedStart(page: U32, pageSize: U32): nat {
    SatSub(PageStart(page, pageSize), 1)
  }

  function InspectedEnd(page: U32, pageSize: U32, count: nat): nat {
    Min(PageEnd(page, pageSize, count) + 1, count)
  }

  ghost predicate PageServable(cache: Cache, index: Index, page: U32, pageSize: U32) {
    && |cache| == |index|
    && (PageStart(page, pageSize) < |index| ==>
          WindowOrdered(cache, index, InspectedStart(page, pageSize), InspectedEnd(page, pageSize, |index|)))
  }

  class SummaryRanking {
    var cache: Option<Cache>
    var index: Option<Index>

    ghost predicate Valid()
      reads this
    {
      cache.Some? && index.Some? && ValidRanking(cache.value, index.value)
    }

    constructor ()
      ensures cache.None? && index.None?
    {
      cache, index := None, None;
    }

    method IndexIsValid() returns (valid: bool)
      ensures valid <==> Valid()
    {
      if cache.None? || index.None? || |index.value| != |cache.value| {
        if cache.Some? && index.Some? {
          OnePassCheckIsExact(cache.value, index.value);
        }
        return false;
      }
      valid := WindowCheck(cache.value, index.value, 0, |index.value|);
      OnePassCheckIsExact(cache.value, index.value);
    }

    /** The loop of the validity check. */
    static method WindowCheck(cache: Cache, index: Index, lo: nat, hi: nat) returns (ordered: bool)
      requires lo <= hi <= |index|
      ensures ordered <==> WindowOrdered(cache, index, lo, hi)
    {
      var previous: Option<Key> := None;
      for i := lo to hi
        invariant WindowOrdered(cache, index, lo, i)
        invariant previous == if i == lo then None else Some(SummaryKey(cache[index[i - 1]]))
      {
        if index[i] !in cache {
          return false;
        }
        var summary := cache[index[i]];
        if summary.canisterId != index[i] {
          return false;
        }
        var key := SummaryKey(summary);
        if previous.Some? && KeyLeq(key, previous.value) {
          return false;
        }
        previous := Some(key);
      }
      ordered := true;
    }

    /** binary_search_by on a vector whose entries are all cached; no entry equals the new key. */
    static method SearchPosition(cache: Cache, index: Index, id: Principal) returns (at: nat)
      requires id in cache
      requires forall i :: 0 <= i < |index| ==> index[i] in cache
      ensures at <= |index|
      ensures StrictlySorted(index, RankKey(cache)) && OwnKeys(cache) && id !in index ==>
                Splits(cache, index, id, at)
    {
      var lo, hi := 0, |index|;
      ghost var ordered := StrictlySorted(index, RankKey(cache)) && OwnKeys(cache) && id !in index;
      while lo < hi
        invariant lo <= hi <= |index|
        invariant ordered ==> forall i :: 0 <= i < lo ==> KeyLess(RankKey(cache)(index[i]), RankKey(cache)(id))
        invariant ordered ==> forall i :: hi <= i < |index| ==> KeyLess(RankKey(cache)(id), RankKey(cache)(index[i]))
      {
        var mid := (lo + hi) / 2;
        assert index[mid] in index;
        if KeyLess(SummaryKey(cache[index[mid]]), SummaryKey(cache[id])) {
          lo := mid + 1;
        } else {
          hi := mid;
        }
      }
      at := lo;
    }

    method Refresh(reg: Registry, id: Principal)
      modifies this
      ensures cache.Some? && index.Some?
      ensures cache.value == Updated(if old(cache).Some? then old(cache).value else map[], id, SummaryFor(reg, id))
      ensures id in cache.value ==> Reports(cache.value[id], reg, id)
      ensures forall x: Principal :: x != id ==>
                (x in index.value <==> old(index).Some? && x in old(index).value && (id in cache.value ==> x in cache.value))
      ensures id in index.value <==> id in cache.value
      ensures ValidOrAbsent(old(cache), old(index)) ==> Valid()
    {
      hide SummaryFor, Reports;
      SummaryReports(reg, id);
      var summary := SummaryFor(reg, id);
      var entries: Cache := if cache.Some? then cache.value else map[];
      var order: Index := if index.Some? then index.value else [];
      ghost var before, was := entries, ValidRanking(entries, order);
      FilterMembers(order, existing => Other(id, existing));
      order := Without(order, id);
      entries := Updated(entries, id, summary);
      if was {
        RefreshedOrder(before, id, summary);
      }
      if summary.Some? {
        FilterMembers(order, existing => Other(id, existing) && existing in entries);
        order := KnownWithout(entries, order, id);
        KnownMembers(entries, Without(if index.Some? then index.value else [], id), id);
        var at := SearchPosition(entries, order, id);
        if was {
          InsertAtSplit(entries, order, id, at);
        }
        InsertionMembers(order, id, at);
        order := order[..at] + [id] + order[at..];
      }
      cache, index := Some(entries), Some(order);
    }

    method Rebuild(reg: Registry)
      modifies this
      ensures Valid() && cache.value == AllSummaries(reg)
      ensures forall id: Principal :: id in cache.value ==> Reports(cache.value[id], reg, id)
      ensures RankedByStoredTotals(index.value, reg)
    {
      hide SummaryFor, Reports, RankedByStoredTotals;
      var ids := Ascending(reg.trackingReasons.Keys);
      AscendingProperties(reg.trackingReasons.Keys);
      cache, index := Some(map[]), Some([]);
      EmptyIsValid();
      for i := 0 to |ids|
        invariant Valid()
        invariant cache.value == RebuiltFrom(reg, ids[..i])
      {
        RebuiltStep(reg, ids, i);
        Refresh(reg, ids[i]);
      }
      assert ids[..|ids|] == ids;
      RebuiltAll(reg, ids);
      RankingByStoredTotals(reg);
    }

    method RepairIfInvalid(reg: Registry) returns (repaired: bool)
      modifies this
      ensures Valid()
      ensures repaired <==> old(!Valid())
      ensures !repaired ==> cache == old(cache) && index == old(index)
      ensures repaired ==> cache.value == AllSummaries(reg)
    {
      var valid := IndexIsValid();
      if valid {
        return false;
      }
      Rebuild(reg);
      repaired := true;
    }

    method Page(page: U32, pageSize: U32) returns (response: Option<SummaryPage>)
      ensures response.Some? <==>
              cache.Some? && index.Some? && PageServable(cache.value, index.value, page, pageSize)
      ensures response.Some? ==>
                var ids := PageIds(index.value, page, pageSize);
                && response.value.total == |index.value|
                && (forall i :: 0 <= i < |ids| ==> ids[i] in cache.value)
                && response.value.items == SummariesOf(cache.value, ids)
    {
      hide PageStart;
      if cache.None? || index.None? || |cache.value| != |index.value| {
        return None;
      }
      var entries, order := cache.value, index.value;
      var start, end := PageStart(page, pageSize), PageEnd(page, pageSize, |order|);
      if start >= |order| {
        return Some(SummaryPage([], page, pageSize, |order|));
      }
      var lo, hi := InspectedStart(page, pageSize), InspectedEnd(page, pageSize, |order|);
      var previous: Option<Key> := None;
      var items: seq<CanisterSummary> := [];
      for i := lo to hi
        invariant WindowOrdered(entries, order, lo, i)
        invariant previous == if i == lo then None else Some(SummaryKey(entries[order[i - 1]]))
        invariant |items| == if i <= start then 0 else Min(i, end) - start
        invariant forall j :: start <= j < Min(i, end) ==> order[j] in entries && items[j - start] == entries[order[j]]
      {
        if order[i] !in entries {
          return None;
        }
        var summary := entries[order[i]];
        if summary.canisterId != order[i] {
          return None;
        }
        var key := SummaryKey(summary);
        if previous.Some? && KeyLeq(key, previous.value) {
          return None;
        }
        previous := Some(key);
        if start <= i < end {
          items := items + [summary];
        }
      }
      PageItems(entries, order, page, pageSize, items);
      response := Some(SummaryPage(items, page, pageSize, |order|));
    }
  }

  /** Items read off the ranking one position at a time are the summaries of the page's ids. */
  lemma PageItems(cache: Cache, index: Index, page: U32, pageSize: U32, items: seq<CanisterSummary>)
    requires var start, end := PageStart(page, pageSize), PageEnd(page, pageSize, |index|);
             && start < |index|
             && |items| == end - start
             && forall j :: start <= j < end ==> index[j] in cache && items[j - start] == cache[index[j]]
    ensures var ids := PageIds(index, page, pageSize);
            && (forall i :: 0 <= i < |ids| ==> ids[i] in cache)
            && items == SummariesOf(cache, ids)
  {
    hide PageStart;
    var start, end := PageStart(page, pageSize), PageEnd(page, pageSize, |index|);
    var ids := PageIds(index, page, pageSize);
    assert ids == index[start..end];
    forall i | 0 <= i < |ids|
      ensures ids[i] in cache && items[i] == cache[ids[i]]
    {
      assert ids[i] == index[start + i];
      assert items[start + i - start] == items[i];
    }
    assert items == SummariesOf(cache, ids);
  }

  /**
   What a served page was checked for, without the window's bounds: every entry from one before the page to
   one after it is cached under its own key, and neighbours among them are ordered by total, then principal.
   */
  lemma ServedPageIsChecked(cache: Cache, index: Index, page: U32, pageSize: U32)
    ensures var start := Min(page * pageSize, U32_MAX);
            PageServable(cache, index, page, pageSize)
            <==> |cache| == |index|
                 && (start < |index| ==>
                      && (forall i :: Near(i, start, pageSize) && 0 <= i < |index| ==> HasOwnKey(cache, index[i]))
                      && (forall i :: (Near(i - 1, start, pageSize) && Near(i, start, pageSize) && 0 < i < |index|)
                            ==> InRankOrder(cache, index[i - 1], index[i])))
  {
    hide PageStart;
    PageStartIs(page, pageSize);
    var start := PageStart(page, pageSize);
    if |cache| == |index| && start < |index| {
      var lo, hi := InspectedStart(page, pageSize), InspectedEnd(page, pageSize, |index|);
      forall i: int
        ensures lo <= i < hi <==> Near(i, start, pageSize) && 0 <= i < |index|
      {
      }
      WindowMeans(cache, index, lo, hi);
    }
  }

  lemma PageStartIs(page: U32, pageSize: U32)
    ensures PageStart(page, pageSize) == Min(page * pageSize, U32_MAX)
  {
  }

  lemma WindowMeans(cache: Cache, index: Index, lo: nat, hi: nat)
    requires lo <= hi <= |index|
    ensures WindowOrdered(cache, index, lo, hi)
            <==> (forall i :: lo <= i < hi ==> HasOwnKey(cache, index[i]))
                 && (forall i :: lo < i < hi ==> InRankOrder(cache, index[i - 1], index[i]))
  {
  }

  /** On the page, or next to its first or last entry. */
  ghost predicate Near(i: int, start: int, pageSize: U32) {
    start - 1 <= i <= start + pageSize
  }

  ghost predicate HasOwnKey(cache: Cache, id: Principal) {
    id in cache && cache[id].canisterId == id
  }

  ghost predicate InRankOrder(cache: Cache, a: Principal, b: Principal) {
    && a in cache && b in cache
    && (|| cache[a].totalQualifyingCommittedE8s > cache[b].totalQualifyingCommittedE8s
        || (cache[a].totalQualifyingCommittedE8s == cache[b].totalQualifyingCommittedE8s
            && cache[a].canisterId < cache[b].canisterId))
  }

  lemma EmptyIsValid()
    ensures ValidRanking(map[], [])
  {
    var none: Cache := map[];
    RankingUnique(none, []);
  }

  /** After the removal step the remaining index is ordered under the updated cache. */
  lemma RefreshedOrder(cache: Cache, id: Principal, summary: Option<CanisterSummary>)
    requires OwnKeys(cache)
    requires summary.Some? ==> summary.value.canisterId == id
    ensures var cache' := Updated(cache, id, summary);
            var order := Without(Ranking(cache), id);
            && OwnKeys(cache')
            && StrictlySorted(order, RankKey(cache'))
            && (forall x: Principal :: x in order <==> x in cache' && x != id)
            && id !in order
            && (summary.None? ==> order == Ranking(cache'))
            && (summary.Some? ==> KnownWithout(cache', order, id) == order)
  {
    var cache' := Updated(cache, id, summary);
    var order := Without(Ranking(cache), id);
    RankingProperties(cache);
    WithoutProperties(Ranking(cache), id, RankKey(cache));
    KeysElsewhere(cache, cache', id, order);
    if summary.None? {
      RankingUnique(cache', order);
    } else {
      KnownWithoutIdentity(cache', order, id);
    }
  }

  function RebuiltFrom(reg: Registry, ids: Index): Cache {
    if ids == [] then map[]
    else Updated(RebuiltFrom(reg, ids[..|ids| - 1]), ids[|ids| - 1], SummaryFor(reg, ids[|ids| - 1]))
  }

  lemma RebuiltStep(reg: Registry, ids: Index, i: nat)
    requires i < |ids|
    ensures RebuiltFrom(reg, ids[..i + 1]) == Updated(RebuiltFrom(reg, ids[..i]), ids[i], SummaryFor(reg, ids[i]))
  {
    hide SummaryFor;
    assert ids[..i + 1][..i] == ids[..i];
  }

  lemma {:induction false} RebuiltHolds(reg: Registry, ids: Index, id: Principal)
    ensures id in RebuiltFrom(reg, ids) <==> id in ids && SummaryFor(reg, id).Some?
    ensures id in RebuiltFrom(reg, ids) ==> RebuiltFrom(reg, ids)[id] == SummaryFor(reg, id).value
  {
    hide SummaryFor;
    if ids != [] {
      var n := |ids| - 1;
      RebuiltHolds(reg, ids[..n], id);
      assert ids == ids[..n] + [ids[n]];
    }
  }

  lemma RebuiltAll(reg: Registry, ids: Index)
    requires forall id: Principal :: id in ids <==> id in reg.trackingReasons
    ensures RebuiltFrom(reg, ids) == AllSummaries(reg)
  {
    hide SummaryFor;
    forall id: Principal
      ensures id in RebuiltFrom(reg, ids) <==> id in AllSummaries(reg)
      ensures id in RebuiltFrom(reg, ids) ==> RebuiltFrom(reg, ids)[id] == AllSummaries(reg)[id]
    {
      RebuiltHolds(reg, ids, id);
    }
  }

  // ---- walking the pages ----

  /** Pages page, page + 1, ... until one is empty. */
  function WalkPages(index: Index, page: U32, pageSize: U32): Index
    requires pageSize > 0 && |index| < U32_MAX + 1
    decreases |index| - PageStart(page, pageSize)
  {
    if PageStart(page, pageSize) >= |index| then []
    else
      NextPage(index, page, pageSize);
      PageIds(index, page, pageSize) + WalkPages(index, page + 1, pageSize)
  }

  lemma NextPage(index: Index, page: U32, pageSize: U32)
    requires pageSize > 0 && |index| < U32_MAX + 1 && PageStart(page, pageSize) < |index|
    ensures page + 1 <= U32_MAX
    ensures PageStart(page, pageSize) == page * pageSize
    ensures PageEnd(page, pageSize, |index|) == Min(PageStart(page + 1, pageSize), |index|)
    ensures PageStart(page + 1, pageSize) > PageStart(page, pageSize)
  {
    PageArithmetic(page, pageSize);
  }

  lemma PageArithmetic(page: nat, pageSize: nat)
    requires pageSize > 0
    ensures page * pageSize >= page
    ensures (page + 1) * pageSize == page * pageSize + pageSize
  {
  }

  lemma {:induction false} WalkFrom(index: Index, page: U32, pageSize: U32)
    requires pageSize > 0 && |index| < U32_MAX + 1
    ensures WalkPages(index, page, pageSize)
            == if PageStart(page, pageSize) >= |index| then [] else index[PageStart(page, pageSize)..]
    decreases |index| - PageStart(page, pageSize)
  {
    var start := PageStart(page, pageSize);
    if start < |index| {
      NextPage(index, page, pageSize);
      WalkFrom(index, page + 1, pageSize);
      var end := PageEnd(page, pageSize, |index|);
      assert index[start..] == index[start..end] + index[end..];
    }
  }

  /** Concatenating the pages of a valid state yields every cached canister once, in ranking order. */
  lemma PagesCoverRanking(cache: Cache, index: Index, pageSize: U32)
    requires ValidRanking(cache, index)
    requires 1 <= pageSize <= 100 && |index| < U32_MAX + 1
    ensures WalkPages(index, 0, pageSize) == Ranking(cache)
    ensures forall page: U32 :: PageServable(cache, index, page, pageSize)
    ensures StrictlySorted(Ranking(cache), RankKey(cache))
    ensures forall id: Principal :: id in WalkPages(index, 0, pageSize) <==> id in cache
  {
    hide PageStart, Ranking, WindowOrdered, WalkPages;
    FirstPage(pageSize);
    WalkFrom(index, 0, pageSize);
    RankingProperties(cache);
    assert index[0..] == index;
    OnePassCheckIsExact(cache, index);
    forall page: U32
      ensures PageServable(cache, index, page, pageSize)
    {
      if PageStart(page, pageSize) < |index| {
        SubWindow(cache, index, InspectedStart(page, pageSize), InspectedEnd(page, pageSize, |index|));
      }
    }
  }

  lemma FirstPage(pageSize: U32)
    ensures PageStart(0, pageSize) == 0
  {
  }

  lemma SubWindow(cache: Cache, index: Index, lo: nat, hi: nat)
    requires WindowOrdered(cache, index, 0, |index|) && lo <= hi <= |index|
    ensures WindowOrdered(cache, index, lo, hi)
  {
  }
}
