/**
 Cursor pagination of the public queries (canisters/historian/src/read_model.rs): commitment histories in
 either direction, the raw-ICP histories of one destination, and the canister list.
 */
module Pagination {
  import opened Machine
  import opened Ordering
  import opened Filtering
  import opened OrderedSets
  import opened HistorianData

  const MAX_PUBLIC_QUERY_LIMIT := 100

  function ClampPublicLimit(limit: Option<U32>, default: U32): (clamped: nat)
    ensures 1 <= clamped <= 100
    ensures limit.Some? && 1 <= limit.value <= 100 ==> clamped == limit.value
    ensures limit.Some? && limit.value == 0 ==> clamped == 1
    ensures limit.Some? && limit.value > 100 ==> clamped == 100
    ensures limit.None? && 1 <= default <= 100 ==> clamped == default
  {
    Min(Max(if limit.Some? then limit.value else default, 1), MAX_PUBLIC_QUERY_LIMIT)
  }

  // ---- pages of a sequence in its direction of travel ----

  /** Items with positions on the line of travel; the next cursor is the position of the last item. */
  datatype Page<T> = Page(items: seq<T>, next: Option<int>)

  ghost predicate Increasing<T>(s: seq<T>, pos: T -> int) {
    forall i, j :: 0 <= i < j < |s| ==> pos(s[i]) < pos(s[j])
  }

  function Past<T>(pos: T -> int, after: Option<int>): T -> bool {
    (x: T) => after.None? || pos(x) > after.value
  }

  function After<T>(s: seq<T>, pos: T -> int, after: Option<int>): seq<T> {
    Filter(s, Past(pos, after))
  }

  /** The first items past the cursor, and a cursor exactly when more remain. */
  function PageOf<T>(s: seq<T>, pos: T -> int, after: Option<int>, limit: nat): Page<T>
    requires limit > 0
  {
    var rest := After(s, pos, after);
    if |rest| > limit then Page(rest[..limit], Some(pos(rest[limit - 1]))) else Page(rest, None)
  }

  lemma {:induction false} FilterIncreasing<T>(s: seq<T>, keep: T -> bool, pos: T -> int)
    requires Increasing(s, pos)
    ensures Increasing(Filter(s, keep), pos)
  {
    if s != [] {
      FilterIncreasing(s[1..], keep, pos);
      FilterMembers(s[1..], keep);
      var rest := Filter(s[1..], keep);
      forall i | 0 <= i < |rest|
        ensures pos(s[0]) < pos(rest[i])
      {
        FilterMember(s[1..], keep, rest[i]);
        var p := IndexIn(s[1..], rest[i]);
        assert rest[i] == s[p + 1];
      }
    }
  }

  lemma {:induction false} FilterAgain<T>(s: seq<T>, outer: T -> bool, inner: T -> bool)
    requires forall x :: x in s && inner(x) ==> outer(x)
    ensures Filter(Filter(s, outer), inner) == Filter(s, inner)
  {
    if s != [] {
      assert s == [s[0]] + s[1..];
      FilterAgain(s[1..], outer, inner);
      if outer(s[0]) {
        assert ([s[0]] + Filter(s[1..], outer))[1..] == Filter(s[1..], outer);
      } else {
        assert s[0] in s;
      }
    }
  }

  lemma {:induction false} FilterNone<T>(s: seq<T>, keep: T -> bool)
    requires forall i :: 0 <= i < |s| ==> !keep(s[i])
    ensures Filter(s, keep) == []
  {
    if s != [] {
      FilterNone(s[1..], keep);
    }
  }

  /** Past the position of item i lies exactly the rest of the sequence. */
  lemma AfterItem<T>(s: seq<T>, pos: T -> int, i: nat)
    requires Increasing(s, pos) && i < |s|
    ensures After(s, pos, Some(pos(s[i]))) == s[i + 1..]
  {
    var keep := Past(pos, Some(pos(s[i])));
    assert s == s[..i + 1] + s[i + 1..];
    FilterAppend(s[..i + 1], s[i + 1..], keep);
    var head := s[..i + 1];
    forall j | 0 <= j < |head|
      ensures !keep(head[j])
    {
      assert head[j] == s[j] && (j < i ==> pos(s[j]) < pos(s[i]));
    }
    FilterNone(head, keep);
    forall x | x in s[i + 1..]
      ensures keep(x)
    {
      var j := IndexIn(s[i + 1..], x);
      assert x == s[i + 1 + j];
    }
    FilterAll(s[i + 1..], keep);
  }

  /** Following the cursor of a page leads to what the page left. */
  lemma NextPageContinues<T>(s: seq<T>, pos: T -> int, after: Option<int>, limit: nat)
    requires Increasing(s, pos) && limit > 0
    requires |After(s, pos, after)| > limit
    ensures After(s, pos, PageOf(s, pos, after, limit).next) == After(s, pos, after)[limit..]
  {
    var rest := After(s, pos, after);
    var next := PageOf(s, pos, after, limit).next;
    FilterIncreasing(s, Past(pos, after), pos);
    AfterItem(rest, pos, limit - 1);
    assert rest[limit - 1] in rest;
    FilterMember(s, Past(pos, after), rest[limit - 1]);
    FilterAgain(s, Past(pos, after), Past(pos, next));
  }

  /** Every page from the cursor on, following the returned cursors until there is none. */
  function Walk<T>(s: seq<T>, pos: T -> int, after: Option<int>, limit: nat): seq<T>
    requires Increasing(s, pos) && limit > 0
    decreases |After(s, pos, after)|
  {
    var page := PageOf(s, pos, after, limit);
    if page.next.None? then page.items
    else
      NextPageContinues(s, pos, after, limit);
      page.items + Walk(s, pos, page.next, limit)
  }

  /** The walk terminates and repeats or loses nothing. */
  lemma {:induction false} WalkIsComplete<T>(s: seq<T>, pos: T -> int, after: Option<int>, limit: nat)
    requires Increasing(s, pos) && limit > 0
    ensures Walk(s, pos, after, limit) == After(s, pos, after)
    ensures after.None? ==> Walk(s, pos, after, limit) == s
    decreases |After(s, pos, after)|
  {
    var rest := After(s, pos, after);
    if |rest| > limit {
      NextPageContinues(s, pos, after, limit);
      WalkIsComplete(s, pos, PageOf(s, pos, after, limit).next, limit);
      assert rest == rest[..limit] + rest[limit..];
    }
    if after.None? {
      FilterAll(s, Past(pos, after));
    }
  }

  // ---- commitment histories ----

  datatype CommitmentPage = CommitmentPage(items: seq<CommitmentSample>, next: Option<U64>)

  function Reverse<T>(s: seq<T>): (r: seq<T>)
    ensures |r| == |s| && forall i :: 0 <= i < |s| ==> r[i] == s[|s| - 1 - i]
  {
    if s == [] then [] else Reverse(s[1..]) + [s[0]]
  }

  /** Position on the line of travel: the transaction id, negated when travelling down. */
  function Travel(descending: bool, tx: int): int {
    if descending then -tx else tx
  }

  function TxPosition(descending: bool): CommitmentSample -> int {
    (x: CommitmentSample) => Travel(descending, x.txId)
  }

  function Cursor(descending: bool, after: Option<U64>): Option<int> {
    if after.None? then None else Some(Travel(descending, after.value))
  }

  function InDirection(history: seq<CommitmentSample>, descending: bool): seq<CommitmentSample> {
    if descending then Reverse(history) else history
  }

  ghost predicate IsHistoryPage(page: CommitmentPage, history: seq<CommitmentSample>, after: Option<U64>,
                                limit: nat, descending: bool)
    requires limit > 0
  {
    var p := PageOf(InDirection(history, descending), TxPosition(descending), Cursor(descending, after), limit);
    page.items == p.items && Cursor(descending, page.next) == p.next
  }

  /** commitment_history_page_from_snapshot */
  method HistoryPage(history: seq<CommitmentSample>, after: Option<U64>, limit: Option<U32>, descending: Option<bool>)
    returns (page: CommitmentPage)
    ensures IsHistoryPage(page, history, after, ClampPublicLimit(limit, 100), descending == Some(true))
  {
    var down := descending == Some(true);
    var cap := ClampPublicLimit(limit, 100);
    var travel := InDirection(history, down);
    ghost var pos, cursor := TxPosition(down), Cursor(down, after);
    var items: seq<CommitmentSample> := [];
    var next: Option<U64> := None;
    var i := 0;
    ghost var more := false;
    while i < |travel|
      invariant i <= |travel| && |items| <= cap
      invariant items == After(travel[..i], pos, cursor)
      invariant next.None? && !more
    {
      var item := travel[i];
      PrefixAfter(travel, pos, cursor, i);
      var included := after.None? || (if down then item.txId < after.value else item.txId > after.value);
      if included {
        if |items| >= cap {
          next := Some(items[|items| - 1].txId);
          more := true;
          SuffixAfter(travel, pos, cursor, i);
          break;
        }
        items := items + [item];
      }
      i := i + 1;
    }
    if !more {
      assert travel[..i] == travel;
    }
    page := CommitmentPage(items, next);
  }

  lemma PrefixAfter<T>(s: seq<T>, pos: T -> int, after: Option<int>, i: nat)
    requires i < |s|
    ensures After(s[..i + 1], pos, after)
            == After(s[..i], pos, after) + if Past(pos, after)(s[i]) then [s[i]] else []
  {
    assert s[..i + 1] == s[..i] + [s[i]];
    FilterAppend(s[..i], [s[i]], Past(pos, after));
  }

  lemma SuffixAfter<T>(s: seq<T>, pos: T -> int, after: Option<int>, i: nat)
    requires i < |s| && Past(pos, after)(s[i])
    ensures |After(s, pos, after)| > |After(s[..i], pos, after)|
    ensures After(s, pos, after)[..|After(s[..i], pos, after)|] == After(s[..i], pos, after)
  {
    assert s == s[..i + 1] + s[i + 1..];
    FilterAppend(s[..i + 1], s[i + 1..], Past(pos, after));
    PrefixAfter(s, pos, after, i);
  }

  /** Walking a history by its own cursors, page after page, from a cursor or from its end. */
  ghost function HistoryWalk(history: seq<CommitmentSample>, descending: bool, after: Option<U64>, limit: nat)
    : seq<CommitmentSample>
    requires StrictlySorted(history, TxKey) && limit > 0
  {
    TravelIncreases(history, descending);
    Walk(InDirection(history, descending), TxPosition(descending), Cursor(descending, after), limit)
  }

  lemma TravelIncreases(history: seq<CommitmentSample>, descending: bool)
    requires StrictlySorted(history, TxKey)
    ensures Increasing(InDirection(history, descending), TxPosition(descending))
  {
    var s, pos := InDirection(history, descending), TxPosition(descending);
    forall i, j | 0 <= i < j < |s|
      ensures pos(s[i]) < pos(s[j])
    {
      if descending {
        assert KeyLess(TxKey(history[|s| - 1 - j]), TxKey(history[|s| - 1 - i]));
      } else {
        assert KeyLess(TxKey(history[i]), TxKey(history[j]));
      }
    }
  }

  lemma ReverseMembers<T>(s: seq<T>)
    ensures forall x :: x in Reverse(s) <==> x in s
  {
    forall i | 0 <= i < |s|
      ensures s[i] in Reverse(s)
    {
      assert Reverse(s)[|s| - 1 - i] == s[i];
    }
  }

  /**
   From any cursor and in either direction the walk yields exactly the samples beyond the cursor, in order
   and once each; without a cursor that is the whole history.
   */
  lemma HistoryWalkIsComplete(history: seq<CommitmentSample>, descending: bool, after: Option<U64>, limit: nat)
    requires StrictlySorted(history, TxKey) && limit > 0
    ensures var walk := HistoryWalk(history, descending, after, limit);
            && (forall x :: x in walk <==>
                  && x in history
                  && (after.None? || if descending then x.txId < after.value else x.txId > after.value))
            && (forall i, j :: 0 <= i < j < |walk| ==>
                  if descending then walk[i].txId > walk[j].txId else walk[i].txId < walk[j].txId)
            && (after.None? ==> walk == if descending then Reverse(history) else history)
  {
    var travel, pos, cursor := InDirection(history, descending), TxPosition(descending), Cursor(descending, after);
    TravelIncreases(history, descending);
    WalkIsComplete(travel, pos, cursor, limit);
    FilterMembers(travel, Past(pos, cursor));
    FilterIncreasing(travel, Past(pos, cursor), pos);
    ReverseMembers(history);
    var walk := HistoryWalk(history, descending, after, limit);
    forall i, j | 0 <= i < j < |walk|
      ensures if descending then walk[i].txId > walk[j].txId else walk[i].txId < walk[j].txId
    {
      assert pos(walk[i]) < pos(walk[j]);
    }
  }

  // ---- raw-ICP histories of one destination ----

  datatype Destination = Malformed | Normal(subaccount: Option<Bytes>)

  predicate HasNonZeroByte(bytes: Bytes) {
    exists i :: 0 <= i < |bytes| && bytes[i] != 0
  }

  /** An all-zero subaccount is the default account; any other length than 32 is malformed. */
  function NormalizeRawDestination(destination: Option<Bytes>): Destination {
    if destination.None? then Normal(None)
    else if |destination.value| != 32 then Malformed
    else Normal(if HasNonZeroByte(destination.value) then destination else None)
  }

  /** The 32 bytes of a destination's subaccount; no subaccount means all zeros. */
  function SubaccountBytes(destination: Option<Bytes>): Bytes {
    if destination.Some? then destination.value else seq(32, _ => 0)
  }

  /** Well-formed destinations are those of 32 bytes, and two of them are the same exactly when their bytes are. */
  lemma DestinationsAgree(a: Option<Bytes>, b: Option<Bytes>)
    ensures NormalizeRawDestination(a).Malformed? <==> |SubaccountBytes(a)| != 32
    ensures NormalizeRawDestination(a).Normal? && NormalizeRawDestination(b).Normal? ==>
              (NormalizeRawDestination(a) == NormalizeRawDestination(b) <==> SubaccountBytes(a) == SubaccountBytes(b))
  {
    if |SubaccountBytes(a)| == 32 && |SubaccountBytes(b)| == 32 {
      ZeroBytes(a);
      ZeroBytes(b);
    }
  }

  lemma ZeroBytes(a: Option<Bytes>)
    requires |SubaccountBytes(a)| == 32
    ensures SubaccountBytes(a) == SubaccountBytes(None) <==> a.None? || !HasNonZeroByte(a.value)
    ensures a.None? ==> !HasNonZeroByte(SubaccountBytes(a))
  {
  }

  function GoesTo(destination: Destination): CommitmentSample -> bool {
    (x: CommitmentSample) =>
      NormalizeRawDestination(x.rawIcpDestination).Normal? && NormalizeRawDestination(x.rawIcpDestination) == destination
  }

  /** get_raw_icp_commitment_history over the history snapshot */
  method RawHistoryPage(history: seq<CommitmentSample>, destination: Option<Bytes>, after: Option<U64>,
                        limit: Option<U32>, descending: Option<bool>)
    returns (page: CommitmentPage)
    ensures NormalizeRawDestination(destination).Malformed? ==> page == CommitmentPage([], None)
    ensures NormalizeRawDestination(destination).Normal? ==>
              IsHistoryPage(page, Filter(history, GoesTo(NormalizeRawDestination(destination))), after,
                            ClampPublicLimit(limit, 100), descending == Some(true))
  {
    var target := NormalizeRawDestination(destination);
    if target.Malformed? {
      return CommitmentPage([], None);
    }
    page := HistoryPage(Filter(history, GoesTo(target)), after, limit, descending);
  }

  /** Walking a raw-ICP history yields exactly the samples of its destination, once each. */
  lemma RawWalkIsComplete(history: seq<CommitmentSample>, destination: Option<Bytes>, descending: bool, limit: nat)
    requires StrictlySorted(history, TxKey) && limit > 0
    requires NormalizeRawDestination(destination).Normal?
    ensures var mine := Filter(history, GoesTo(NormalizeRawDestination(destination)));
            && StrictlySorted(mine, TxKey)
            && HistoryWalk(mine, descending, None, limit) == (if descending then Reverse(mine) else mine)
            && forall x :: x in mine <==>
                 x in history && SubaccountBytes(x.rawIcpDestination) == SubaccountBytes(destination)
  {
    forall x: CommitmentSample
      ensures GoesTo(NormalizeRawDestination(destination))(x) <==>
                SubaccountBytes(x.rawIcpDestination) == SubaccountBytes(destination)
    {
      DestinationsAgree(x.rawIcpDestination, destination);
      DestinationsAgree(destination, destination);
    }
    var mine := Filter(history, GoesTo(NormalizeRawDestination(destination)));
    FilterStrict(history, GoesTo(NormalizeRawDestination(destination)), TxKey);
    FilterMembers(history, GoesTo(NormalizeRawDestination(destination)));
    HistoryWalkIsComplete(mine, descending, None, limit);
  }

  // ---- the canister list ----

  datatype CanisterItem = CanisterItem(canisterId: Principal, trackingReasons: set<TrackingReason>)

  datatype CanisterPage = CanisterPage(items: seq<CanisterItem>, next: Option<Principal>)

  predicate IsListed(reg: Registry, reason: Option<TrackingReason>, id: Principal) {
    var visible := VisibleReasons(reg, id);
    visible.Some? && (reason.None? || reason.value in visible.value)
  }

  function Listed(reg: Registry, reason: Option<TrackingReason>): Principal -> bool {
    (id: Principal) => IsListed(reg, reason, id)
  }

  function IdPosition(id: Principal): int {
    id
  }

  function IdCursor(after: Option<Principal>): Option<int> {
    if after.None? then None else Some(after.value)
  }

  function ItemIds(items: seq<CanisterItem>): (ids: seq<Principal>)
    ensures |ids| == |items|
  {
    seq(|items|, i requires 0 <= i < |items| => items[i].canisterId)
  }

  lemma ItemIdsAppend(items: seq<CanisterItem>, item: CanisterItem)
    ensures ItemIds(items + [item]) == ItemIds(items) + [item.canisterId]
    ensures items != [] ==> ItemIds(items)[|items| - 1] == items[|items| - 1].canisterId
  {
  }

  function ListedIds(reg: Registry, distinct: set<Principal>, reason: Option<TrackingReason>): seq<Principal> {
    Filter(Ascending(distinct), Listed(reg, reason))
  }

  /** list_canisters */
  method ListCanisters(reg: Registry, distinct: set<Principal>, after: Option<Principal>, limit: Option<U32>,
                       reason: Option<TrackingReason>)
    returns (page: CanisterPage)
    ensures var p := PageOf(ListedIds(reg, distinct, reason), IdPosition, IdCursor(after), ClampPublicLimit(limit, 50));
            ItemIds(page.items) == p.items && IdCursor(page.next) == p.next
    ensures forall i :: 0 <= i < |page.items| ==>
              forall r :: r in page.items[i].trackingReasons <==> IsVisible(reg, page.items[i].canisterId, r)
  {
    hide IsVisible, VisibleReasons, Ascending, ClampPublicLimit, ItemIds;
    var cap := ClampPublicLimit(limit, 50);
    ghost var cursor := IdCursor(after);
    // The ordered range that excludes the cursor.
    var range := After(Ascending(distinct), IdPosition, IdCursor(after));
    FiltersSwap(Ascending(distinct), Past(IdPosition, cursor), Listed(reg, reason));
    ghost var wanted := Filter(range, Listed(reg, reason));
    var items: seq<CanisterItem> := [];
    assert ItemIds(items) == [];
    var next: Option<Principal> := None;
    var i := 0;
    ghost var more := false;
    while i < |range|
      invariant i <= |range| && |items| <= cap
      invariant ItemIds(items) == Filter(range[..i], Listed(reg, reason))
      invariant forall j :: 0 <= j < |items| ==>
                  VisibleReasons(reg, items[j].canisterId) == Some(items[j].trackingReasons)
      invariant next.None? && !more
    {
      var id := range[i];
      FilterPrefix(range, Listed(reg, reason), i);
      var visible := VisibleReasons(reg, id);
      if visible.Some? && (reason.None? || reason.value in visible.value) {
        ItemIdsAppend(items, CanisterItem(id, visible.value));
        if |items| >= cap {
          next := Some(items[|items| - 1].canisterId);
          more := true;
          break;
        }
        items := items + [CanisterItem(id, visible.value)];
      }
      i := i + 1;
    }
    if !more {
      assert range[..i] == range;
    }
    page := CanisterPage(items, next);
    forall j | 0 <= j < |items|
      ensures forall r :: r in items[j].trackingReasons <==> IsVisible(reg, items[j].canisterId, r)
    {
      VisibleReasonsAreExact(reg, items[j].canisterId);
    }
  }

  /** One more element of a filtered prefix, and what the prefix says about the whole. */
  lemma FilterPrefix<T>(s: seq<T>, keep: T -> bool, i: nat)
    requires i < |s|
    ensures Filter(s[..i + 1], keep) == Filter(s[..i], keep) + if keep(s[i]) then [s[i]] else []
    ensures |Filter(s, keep)| >= |Filter(s[..i + 1], keep)|
    ensures Filter(s, keep)[..|Filter(s[..i], keep)|] == Filter(s[..i], keep)
  {
    assert s[..i + 1] == s[..i] + [s[i]];
    assert s == s[..i + 1] + s[i + 1..];
    FilterAppend(s[..i], [s[i]], keep);
    FilterAppend(s[..i + 1], s[i + 1..], keep);
  }

  lemma {:induction false} FiltersSwap<T>(s: seq<T>, f: T -> bool, g: T -> bool)
    ensures Filter(Filter(s, f), g) == Filter(Filter(s, g), f)
  {
    if s != [] {
      FiltersSwap(s[1..], f, g);
      assert ([s[0]] + Filter(s[1..], f))[1..] == Filter(s[1..], f);
      assert ([s[0]] + Filter(s[1..], g))[1..] == Filter(s[1..], g);
    }
  }

  /** Following the list's cursors yields exactly the listed ids of the known canisters, ascending and once each. */
  lemma ListWalkIsComplete(reg: Registry, distinct: set<Principal>, reason: Option<TrackingReason>, limit: nat)
    requires limit > 0
    ensures var ids := ListedIds(reg, distinct, reason);
            && Increasing(ids, IdPosition)
            && Walk(ids, IdPosition, None, limit) == ids
            && forall id: Principal :: id in ids <==>
                 && id in distinct && (exists r :: IsVisible(reg, id, r))
                 && (reason.Some? ==> IsVisible(reg, id, reason.value))
  {
    hide VisibleReasons, IsVisible;
    var all := Ascending(distinct);
    AscendingProperties(distinct);
    forall i, j | 0 <= i < j < |all|
      ensures IdPosition(all[i]) < IdPosition(all[j])
    {
      assert KeyLess(IdKey(all[i]), IdKey(all[j]));
    }
    FilterIncreasing(all, Listed(reg, reason), IdPosition);
    FilterMembers(all, Listed(reg, reason));
    WalkIsComplete(ListedIds(reg, distinct, reason), IdPosition, None, limit);
    forall id: Principal
      ensures IsListed(reg, reason, id) <==>
                (exists r :: IsVisible(reg, id, r)) && (reason.Some? ==> IsVisible(reg, id, reason.value))
    {
      VisibleReasonsAreExact(reg, id);
    }
  }
}
