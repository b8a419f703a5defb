/**
 Normalising the read model (canisters/historian/src/normalization.rs, normalize_runtime_state): clamp the
 limits, tidy the histories, drop unbacked memo tags, rebuild the feeds, the metadata and the ranking.
 */
module Normalization {
  import opened Machine
  import opened Ordering
  import opened Filtering
  import opened OrderedSets
  import opened HistorianData
  import opened RankedSummaries
  import opened RecentFeeds
  import opened CommitmentHistory

  const MAX_COMMITMENT_ENTRIES := 250
  const MAX_CYCLES_ENTRIES := 250
  const MAX_INDEX_PAGES := 100
  const MAX_CANISTERS_PER_TICK := 500

  type Histories = map<nat, Samples>

  datatype Limits = Limits(
    commitmentEntries: U32,
    cyclesEntries: U32,
    indexPages: U32,
    canistersPerTick: U32)

  function Clamp(value: U32, cap: U32): U32 {
    Min(Max(value, 1), cap)
  }

  function ClampLimits(l: Limits): Limits {
    Limits(Clamp(l.commitmentEntries, MAX_COMMITMENT_ENTRIES),
           Clamp(l.cyclesEntries, MAX_CYCLES_ENTRIES),
           Clamp(l.indexPages, MAX_INDEX_PAGES),
           Clamp(l.canistersPerTick, MAX_CANISTERS_PER_TICK))
  }

  ghost predicate WithinLimits(l: Limits) {
    && 1 <= l.commitmentEntries <= 250 && 1 <= l.cyclesEntries <= 250
    && 1 <= l.indexPages <= 100 && 1 <= l.canistersPerTick <= 500
  }

  lemma ClampNearest(value: U32, cap: U32)
    requires cap >= 1
    ensures 1 <= Clamp(value, cap) <= cap
    ensures forall w: U32 :: 1 <= w <= cap ==> Distance(value, Clamp(value, cap)) <= Distance(value, w)
  {
  }

  function Distance(a: int, b: int): int {
    if a <= b then b - a else a - b
  }

  /** Clamping moves every limit to the nearest allowed value. */
  lemma ClampsToLimits(l: Limits)
    ensures WithinLimits(ClampLimits(l))
    ensures WithinLimits(l) ==> ClampLimits(l) == l
    ensures forall m: Limits :: WithinLimits(m) ==>
              && Distance(l.commitmentEntries, ClampLimits(l).commitmentEntries) <= Distance(l.commitmentEntries, m.commitmentEntries)
              && Distance(l.cyclesEntries, ClampLimits(l).cyclesEntries) <= Distance(l.cyclesEntries, m.cyclesEntries)
              && Distance(l.indexPages, ClampLimits(l).indexPages) <= Distance(l.indexPages, m.indexPages)
              && Distance(l.canistersPerTick, ClampLimits(l).canistersPerTick) <= Distance(l.canistersPerTick, m.canistersPerTick)
  {
    ClampNearest(l.commitmentEntries, 250);
    ClampNearest(l.cyclesEntries, 250);
    ClampNearest(l.indexPages, 100);
    ClampNearest(l.canistersPerTick, 500);
  }

  /** A value snapshot of everything normalisation reads or writes. */
  datatype ReadModel = ReadModel(
    limits: Limits,
    registry: Registry,
    rawIcpHistory: Histories,
    neuronHistory: Histories,
    distinctCanisters: set<Principal>,
    recent: seq<RecentCommitment>,
    recentUnderThreshold: seq<RecentCommitment>,
    recentInvalid: seq<InvalidCommitment>,
    cache: Option<Cache>,
    index: Option<Index>)

  // ---- histories ----

  function NormalHistory(h: Samples, cap: nat): Samples {
    Prune(Sort(Filter(h, Qualifies), TxKey), cap)
  }

  function NormalHistories(histories: Histories, cap: nat): Histories {
    map id | id in histories && NormalHistory(histories[id], cap) != [] :: NormalHistory(histories[id], cap)
  }

  ghost predicate DistinctHistories(histories: Histories) {
    forall id: nat :: id in histories ==> DistinctKeys(histories[id], TxKey)
  }

  /** Retained histories are non-empty, sorted, qualifying-only and within the cap. */
  ghost predicate IsNormal(h: Samples, cap: nat) {
    h != [] && Sorted(h, TxKey) && |h| <= cap && forall x :: x in h ==> Qualifies(x)
  }

  ghost predicate AllNormal(histories: Histories, cap: nat) {
    forall id: nat :: id in histories ==> IsNormal(histories[id], cap)
  }

  lemma SuffixSorted(h: Samples, cap: nat)
    requires Sorted(h, TxKey)
    ensures Sorted(Prune(h, cap), TxKey)
    ensures forall x :: x in Prune(h, cap) ==> x in h
    ensures |Prune(h, cap)| <= cap
  {
    var p := Prune(h, cap);
    if cap > 0 && |h| > cap {
      var d := |h| - cap;
      forall i, j | 0 <= i < j < |p|
        ensures KeyLeq(TxKey(p[i]), TxKey(p[j]))
      {
        assert p[i] == h[d + i] && p[j] == h[d + j];
      }
    }
  }

  lemma NormalHistoryIsNormal(h: Samples, cap: nat)
    ensures NormalHistory(h, cap) != [] ==> IsNormal(NormalHistory(h, cap), cap)
    ensures cap > 0 && IsNormal(h, cap) ==> NormalHistory(h, cap) == h
  {
    var kept := Filter(h, Qualifies);
    FilterMembers(h, Qualifies);
    SortProperties(kept, TxKey);
    SortMembers(kept, TxKey);
    SuffixSorted(Sort(kept, TxKey), cap);
    if IsNormal(h, cap) {
      FilterAll(h, Qualifies);
      SortIdentity(h, TxKey);
    }
  }

  lemma HistoriesNormalForm(histories: Histories, cap: nat)
    ensures AllNormal(NormalHistories(histories, cap), cap)
    ensures cap > 0 && AllNormal(histories, cap) ==> NormalHistories(histories, cap) == histories
  {
    forall id: nat | id in histories
      ensures NormalHistory(histories[id], cap) != [] ==> IsNormal(NormalHistory(histories[id], cap), cap)
      ensures cap > 0 && IsNormal(histories[id], cap) ==> NormalHistory(histories[id], cap) == histories[id]
    {
      NormalHistoryIsNormal(histories[id], cap);
    }
  }

  /** Distinct transactions stay distinct, so a second pass of the unstable sort is determined as well. */
  lemma NormalKeepsDistinct(histories: Histories, cap: nat)
    requires DistinctHistories(histories)
    ensures DistinctHistories(NormalHistories(histories, cap))
  {
    forall id: nat | id in histories
      ensures DistinctKeys(NormalHistory(histories[id], cap), TxKey)
    {
      var kept := Filter(histories[id], Qualifies);
      FilterDistinct(histories[id]);
      SortProperties(kept, TxKey);
      DistinctSurvives(kept, Sort(kept, TxKey), TxKey);
      PruneAscends(Sort(kept, TxKey), cap);
    }
  }

  /** What a normalised history keeps: the qualifying samples with the largest transaction ids. */
  lemma NormalKeepsNewest(h: Samples, cap: nat, x: CommitmentSample)
    requires x in h && Qualifies(x) && x !in NormalHistory(h, cap)
    ensures |NormalHistory(h, cap)| == cap
    ensures forall y :: y in NormalHistory(h, cap) ==> x.txId <= y.txId
  {
    var kept := Filter(h, Qualifies);
    FilterMembers(h, Qualifies);
    var sorted := Sort(kept, TxKey);
    SortProperties(kept, TxKey);
    SortMembers(kept, TxKey);
    var n := NormalHistory(h, cap);
    var p :| 0 <= p < |sorted| && sorted[p] == x;
    assert |sorted| <= cap && cap > 0 ==> n == sorted;
    if cap > 0 {
      var d := |sorted| - cap;
      forall i | d <= i < |sorted|
        ensures sorted[i] in n
      {
        assert sorted[i] == n[i - d];
      }
      forall i | 0 <= i < |n|
        ensures x.txId <= n[i].txId
      {
        assert n[i] == sorted[d + i] && KeyLeq(TxKey(sorted[p]), TxKey(sorted[d + i]));
      }
    }
  }

  // ---- memo tags ----

  /** Tagged as a memo canister without a qualifying sample to show for it. */
  predicate Stale(reg: Registry, id: Principal)
    requires id in reg.trackingReasons
  {
    MemoCommitment in reg.trackingReasons[id] && !MemoIsRegistered(reg, id, reg.trackingReasons[id])
  }

  function StaleIds(reg: Registry): set<Principal> {
    set id | id in reg.trackingReasons && Stale(reg, id)
  }

  function Untagged(reasons: set<TrackingReason>): set<TrackingReason> {
    reasons - {MemoCommitment}
  }

  /** The tracking map after untagging the ids in done. */
  function StrippedReasons(reasons: map<Principal, set<TrackingReason>>, done: set<Principal>)
    : map<Principal, set<TrackingReason>>
  {
    map id | id in reasons && !(id in done && Untagged(reasons[id]) == {}) ::
      if id in done then Untagged(reasons[id]) else reasons[id]
  }

  /** The ids in done that lose their last reason. */
  function Emptied(reasons: map<Principal, set<TrackingReason>>, done: set<Principal>): set<Principal> {
    set id | id in done && id in reasons && Untagged(reasons[id]) == {}
  }

  function Stripped(reg: Registry): Registry {
    var gone := Emptied(reg.trackingReasons, StaleIds(reg));
    reg.(trackingReasons := StrippedReasons(reg.trackingReasons, StaleIds(reg)),
         cyclesHistory := reg.cyclesHistory - gone,
         metas := reg.metas - gone)
  }

  // ---- metadata ----

  function RefreshedMeta(meta: CanisterMeta, seen: Option<U64>): CanisterMeta {
    if seen.None? then meta
    else meta.(lastCommitmentTs := MaxOption(meta.lastCommitmentTs, seen))
  }

  function RefreshedMetas(reg: Registry): map<Principal, CanisterMeta> {
    map id | id in reg.metas :: RefreshedMeta(reg.metas[id], LatestSeconds(HistorySnapshot(reg, id)))
  }

  function KnownCanisters(reg: Registry): set<Principal> {
    reg.trackingReasons.Keys + reg.commitmentHistory.Keys + reg.store.commitmentHistories.Keys
    + reg.cyclesHistory.Keys + reg.store.cyclesHistories.Keys
  }

  ghost predicate IsKnown(reg: Registry, id: Principal) {
    || id in reg.trackingReasons || id in reg.commitmentHistory || id in reg.cyclesHistory
    || id in reg.store.commitmentHistories || id in reg.store.cyclesHistories
  }

  lemma KnownCanistersAreKnown(reg: Registry)
    ensures forall id: Principal :: id in KnownCanisters(reg) <==> IsKnown(reg, id)
  {
  }

  // ---- the whole pass ----

  /** The registry once its histories are normalised. */
  function Settled(reg: Registry): Registry {
    var r := Stripped(reg);
    r.(metas := RefreshedMetas(r))
  }

  /** Everything after the histories. */
  function Finish(s: ReadModel): ReadModel {
    var reg := Settled(s.registry);
    s.(registry := reg,
       distinctCanisters := KnownCanisters(reg),
       recent := CommitmentBucket(s.recent, true, MAX_RECENT_QUALIFYING),
       recentUnderThreshold := CommitmentBucket(s.recentUnderThreshold, false, MAX_RECENT_UNDER_THRESHOLD),
       recentInvalid := InvalidBucket(s.recentInvalid),
       cache := Some(AllSummaries(reg)),
       index := Some(Ranking(AllSummaries(reg))))
  }

  function WithHistories(s: ReadModel, commitments: Histories, rawIcp: Histories, neurons: Histories): ReadModel {
    s.(limits := ClampLimits(s.limits),
       registry := s.registry.(commitmentHistory := commitments),
       rawIcpHistory := rawIcp,
       neuronHistory := neurons)
  }

  function Normalize(s: ReadModel): ReadModel {
    var cap := ClampLimits(s.limits).commitmentEntries;
    Finish(WithHistories(s, NormalHistories(s.registry.commitmentHistory, cap),
                         NormalHistories(s.rawIcpHistory, cap),
                         NormalHistories(s.neuronHistory, cap)))
  }

  /** Every memo tag is backed by a qualifying sample. */
  ghost predicate TagsBacked(reg: Registry) {
    forall id: Principal :: id in reg.trackingReasons && MemoCommitment in reg.trackingReasons[id] ==>
      HasQualifying(HistorySnapshot(reg, id))
  }

  /** No dated sample of the history is later than the time, in whole seconds. */
  ghost predicate CoversHistory(time: Option<U64>, history: Samples) {
    forall x :: x in history && x.timestampNanos.Some? ==>
      time.Some? && x.timestampNanos.value / 1_000_000_000 <= time.value
  }

  /** No metadata lags behind its history. */
  ghost predicate MetasCurrent(reg: Registry) {
    forall id: Principal :: id in reg.metas ==> CoversHistory(reg.metas[id].lastCommitmentTs, HistorySnapshot(reg, id))
  }

  /**
   The new metadata differs at most in a last-commitment time that was raised: it is the greatest of the old
   time and the seconds of the dated samples, so it stays when no sample is dated.
   */
  ghost predicate IsRaised(meta: CanisterMeta, raised: CanisterMeta, history: Samples) {
    && raised == meta.(lastCommitmentTs := raised.lastCommitmentTs)
    && CoversHistory(raised.lastCommitmentTs, history)
    && (meta.lastCommitmentTs.Some? ==>
          raised.lastCommitmentTs.Some? && raised.lastCommitmentTs.value >= meta.lastCommitmentTs.value)
    && (raised.lastCommitmentTs == meta.lastCommitmentTs
        || exists x :: x in history && x.timestampNanos.Some?
             && raised.lastCommitmentTs == Some(x.timestampNanos.value / 1_000_000_000))
  }

  lemma MetaIsRaised(meta: CanisterMeta, history: Samples)
    ensures IsRaised(meta, RefreshedMeta(meta, LatestSeconds(history)), history)
    ensures CoversHistory(meta.lastCommitmentTs, history) <==> RefreshedMeta(meta, LatestSeconds(history)) == meta
  {
    LatestSecondsIs(history);
    var seen := LatestSeconds(history);
    assert seen.Some? ==> exists x :: x in history && x.timestampNanos.Some? && x.timestampNanos.value / 1_000_000_000 == seen.value;
  }

  /** What the read model's queries rely on. */
  ghost predicate ReadModelInvariant(s: ReadModel) {
    && WithinLimits(s.limits)
    && AllNormal(s.registry.commitmentHistory, s.limits.commitmentEntries)
    && AllNormal(s.rawIcpHistory, s.limits.commitmentEntries)
    && AllNormal(s.neuronHistory, s.limits.commitmentEntries)
    && TagsBacked(s.registry)
    && MetasCurrent(s.registry)
    && (forall id: Principal :: id in s.distinctCanisters <==> IsKnown(s.registry, id))
    && IsCommitmentBucket(s.recent, true, 500)
    && IsCommitmentBucket(s.recentUnderThreshold, false, 100)
    && IsFeed(s.recentInvalid, InvalidKey, InvalidTx, 100)
    && s.cache == Some(AllSummaries(s.registry))
    && s.index.Some? && ValidRanking(s.cache.value, s.index.value)
  }

  lemma StrippedIsBacked(reg: Registry)
    ensures TagsBacked(Stripped(reg))
  {
    forall id: Principal | id in Stripped(reg).trackingReasons
      ensures HistorySnapshot(Stripped(reg), id) == HistorySnapshot(reg, id)
    {
    }
  }

  /**
   A canister keeps exactly its visible reasons. It loses its entry, and with it its cycles history and its
   metadata, exactly when an unbacked memo commitment was its only reason.
   */
  ghost predicate IsStripped(reg: Registry, after: Registry, id: Principal) {
    var gone := id in reg.trackingReasons && reg.trackingReasons[id] == {MemoCommitment}
                && !IsVisible(reg, id, MemoCommitment);
    && (id in after.trackingReasons <==> id in reg.trackingReasons && !gone)
    && (id in after.trackingReasons ==> forall r :: r in after.trackingReasons[id] <==> IsVisible(reg, id, r))
    && (id in after.cyclesHistory <==> id in reg.cyclesHistory && !gone)
    && (id in after.cyclesHistory ==> after.cyclesHistory[id] == reg.cyclesHistory[id])
    && (id in after.metas <==> id in reg.metas && !gone)
  }

  lemma StrippedExactly(reg: Registry, id: Principal)
    ensures IsStripped(reg, Stripped(reg), id)
    ensures id in Stripped(reg).metas ==> Stripped(reg).metas[id] == reg.metas[id]
  {
    hide HistorySnapshot, IsStored;
    SnapshotIsStored(reg, id);
    assert HasQualifying(HistorySnapshot(reg, id)) <==> exists x :: IsStored(reg, id, x) && x.countsTowardFaucet;
    if id in reg.trackingReasons {
      OnlyReason(reg.trackingReasons[id]);
    }
  }

  /** Stripping is judged by reasons, cycles and which metadata there is, not by the metadata itself. */
  lemma StrippedKept(reg: Registry, stripped: Registry, after: Registry, id: Principal)
    requires IsStripped(reg, stripped, id)
    requires after.trackingReasons == stripped.trackingReasons && after.cyclesHistory == stripped.cyclesHistory
    requires after.metas.Keys == stripped.metas.Keys
    ensures IsStripped(reg, after, id)
  {
  }

  lemma OnlyReason(reasons: set<TrackingReason>)
    ensures MemoCommitment in reasons ==> (Untagged(reasons) == {} <==> reasons == {MemoCommitment})
  {
    if MemoCommitment in reasons && Untagged(reasons) == {} {
      forall r | r in reasons
        ensures r == MemoCommitment
      {
        assert r !in Untagged(reasons);
      }
    }
  }

  lemma BackedIsStripped(reg: Registry)
    requires TagsBacked(reg)
    ensures Stripped(reg) == reg
  {
    assert StaleIds(reg) == {};
    assert StrippedReasons(reg.trackingReasons, {}) == reg.trackingReasons;
    assert Emptied(reg.trackingReasons, {}) == {};
  }

  lemma SettledProperties(reg: Registry)
    ensures TagsBacked(Settled(reg)) && MetasCurrent(Settled(reg))
    ensures Settled(reg).commitmentHistory == reg.commitmentHistory
    ensures TagsBacked(reg) && MetasCurrent(reg) <==> Settled(reg) == reg
  {
    hide LatestSeconds, RefreshedMeta, HasQualifying, CoversHistory, IsRaised, HistorySnapshot;
    var r := Stripped(reg);
    var settled := Settled(reg);
    StrippedIsBacked(reg);
    forall id: Principal
      ensures HistorySnapshot(settled, id) == HistorySnapshot(r, id)
    {
      SameSnapshot(settled, r, id);
    }
    forall id: Principal | id in settled.metas
      ensures CoversHistory(settled.metas[id].lastCommitmentTs, HistorySnapshot(settled, id))
    {
      MetaIsRaised(r.metas[id], HistorySnapshot(r, id));
      RaisedCovers(r.metas[id], settled.metas[id], HistorySnapshot(r, id));
    }
    if TagsBacked(reg) && MetasCurrent(reg) {
      BackedIsStripped(reg);
      forall id: Principal | id in reg.metas
        ensures RefreshedMetas(reg)[id] == reg.metas[id]
      {
        MetaIsRaised(reg.metas[id], HistorySnapshot(reg, id));
      }
      assert RefreshedMetas(reg) == reg.metas;
    }
  }

  lemma RaisedCovers(meta: CanisterMeta, raised: CanisterMeta, history: Samples)
    requires IsRaised(meta, raised, history)
    ensures CoversHistory(raised.lastCommitmentTs, history)
  {
  }

  lemma AllSummariesOwnKeys(reg: Registry)
    ensures OwnKeys(AllSummaries(reg))
  {
  }

  /** Finishing a state with normal histories establishes the invariant. */
  lemma FinishEstablishes(s: ReadModel)
    requires WithinLimits(s.limits)
    requires AllNormal(s.registry.commitmentHistory, s.limits.commitmentEntries)
    requires AllNormal(s.rawIcpHistory, s.limits.commitmentEntries)
    requires AllNormal(s.neuronHistory, s.limits.commitmentEntries)
    ensures ReadModelInvariant(Finish(s))
  {
    hide Settled, AllSummaries, Ranking, CommitmentBucket, InvalidBucket, TagsBacked, MetasCurrent;
    SettledProperties(s.registry);
    KnownCanistersAreKnown(Settled(s.registry));
    AllSummariesOwnKeys(Settled(s.registry));
    BucketNormalForm(s.recent, true, MAX_RECENT_QUALIFYING);
    BucketNormalForm(s.recentUnderThreshold, false, MAX_RECENT_UNDER_THRESHOLD);
    InvalidNormalForm(s.recentInvalid);
  }

  /** A state that has the invariant is a fixed point. */
  lemma InvariantIsFixed(s: ReadModel)
    requires ReadModelInvariant(s)
    ensures Normalize(s) == s
  {
    hide Settled, AllSummaries, Ranking, CommitmentBucket, InvalidBucket, TagsBacked, MetasCurrent, NormalHistories;
    var cap := s.limits.commitmentEntries;
    ClampsToLimits(s.limits);
    HistoriesNormalForm(s.registry.commitmentHistory, cap);
    HistoriesNormalForm(s.rawIcpHistory, cap);
    HistoriesNormalForm(s.neuronHistory, cap);
    SettledProperties(s.registry);
    KnownCanistersAreKnown(s.registry);
    assert s.distinctCanisters == KnownCanisters(s.registry);
    BucketNormalForm(s.recent, true, MAX_RECENT_QUALIFYING);
    BucketNormalForm(s.recentUnderThreshold, false, MAX_RECENT_UNDER_THRESHOLD);
    InvalidNormalForm(s.recentInvalid);
  }

  /** Normalisation establishes the invariant from any state, and a second pass does nothing. */
  lemma NormalizeIdempotent(s: ReadModel)
    ensures ReadModelInvariant(Normalize(s))
    ensures Normalize(Normalize(s)) == Normalize(s)
    ensures Normalize(s) == s <==> ReadModelInvariant(s)
  {
    hide ReadModelInvariant, Finish, AllNormal, NormalHistories;
    var cap := ClampLimits(s.limits).commitmentEntries;
    ClampsToLimits(s.limits);
    HistoriesNormalForm(s.registry.commitmentHistory, cap);
    HistoriesNormalForm(s.rawIcpHistory, cap);
    HistoriesNormalForm(s.neuronHistory, cap);
    FinishEstablishes(WithHistories(s, NormalHistories(s.registry.commitmentHistory, cap),
                                    NormalHistories(s.rawIcpHistory, cap), NormalHistories(s.neuronHistory, cap)));
    InvariantIsFixed(Normalize(s));
    if ReadModelInvariant(s) {
      InvariantIsFixed(s);
    }
  }

  // ---- the pass as the source runs it ----

  /** retain, sort_unstable and drain on one history */
  method TidyHistory(before: Samples, cap: nat) returns (history: Samples)
    requires cap > 0
    ensures TidiedFrom(before, history, cap)
  {
    history := Filter(before, Qualifies);
    history := SortUnstable(history);
    ghost var sorted := history;
    if |history| > cap {
      history := history[|history| - cap..];
    }
    Tidied(before, sorted, history, cap);
  }

  /** Tidy every history, then drop the empty ones. */
  method NormalizeHistories(histories: Histories, cap: nat) returns (result: Histories)
    requires cap > 0
    ensures AllNormal(result, cap) && AllKept(histories, result, cap)
    ensures DistinctHistories(histories) ==> result == NormalHistories(histories, cap)
  {
    hide TidiedFrom, AllNormal, AllKept, DistinctHistories, NormalHistories, Ascending, StrictlySorted, TidiedUpTo;
    result := histories;
    var ids := Ascending(histories.Keys);
    AscendingProperties(histories.Keys);
    var empty: set<nat> := {};
    NothingTidied(histories, ids, cap);
    for i := 0 to |ids|
      invariant TidiedUpTo(histories, result, empty, ids, i, cap)
    {
      var id := ids[i];
      TidiedLookup(histories, result, empty, ids, i, cap);
      var history := TidyHistory(result[id], cap);
      TidyStep(histories, result, empty, ids, i, history, cap);
      if history == [] {
        empty := empty + {id};
      }
      result := result[id := history];
    }
    TidiedHistories(histories, result, empty, ids, cap);
    result := result - empty;
  }

  /** The histories of the first i ids are tidied, and the empty ones among them are listed. */
  ghost predicate TidiedUpTo(before: Histories, after: Histories, empty: set<nat>, ids: seq<nat>, i: nat, cap: nat) {
    && i <= |ids| && after.Keys == before.Keys
    && (forall j :: 0 <= j < |ids| ==> ids[j] in before)
    && (forall j :: i <= j < |ids| ==> after[ids[j]] == before[ids[j]] && ids[j] !in empty)
    && (forall j :: 0 <= j < i ==> TidiedFrom(before[ids[j]], after[ids[j]], cap))
    && (forall j :: 0 <= j < i && after[ids[j]] == [] ==> ids[j] in empty)
    && (forall id: nat :: id in empty ==> id in after && after[id] == [])
  }

  lemma NothingTidied(histories: Histories, ids: seq<nat>, cap: nat)
    requires forall id: nat :: id in ids <==> id in histories
    ensures TidiedUpTo(histories, histories, {}, ids, 0, cap)
  {
    forall j | 0 <= j < |ids|
      ensures ids[j] in histories
    {
      assert ids[j] in ids;
    }
  }

  lemma TidiedLookup(before: Histories, after: Histories, empty: set<nat>, ids: seq<nat>, i: nat, cap: nat)
    requires TidiedUpTo(before, after, empty, ids, i, cap) && i < |ids|
    ensures ids[i] in after && ids[i] in before && after[ids[i]] == before[ids[i]]
  {
  }

  lemma TidyStep(before: Histories, after: Histories, empty: set<nat>, ids: seq<nat>, i: nat, history: Samples, cap: nat)
    requires TidiedUpTo(before, after, empty, ids, i, cap) && i < |ids|
    requires StrictlySorted(ids, IdKey)
    requires TidiedFrom(before[ids[i]], history, cap)
    ensures TidiedUpTo(before, after[ids[i] := history], if history == [] then empty + {ids[i]} else empty, ids, i + 1, cap)
  {
    hide TidiedFrom;
    OtherIds(ids, i);
  }

  lemma OtherIds(ids: seq<nat>, i: nat)
    requires StrictlySorted(ids, IdKey) && i < |ids|
    ensures forall j :: 0 <= j < |ids| && j != i ==> ids[j] != ids[i]
  {
    forall j | 0 <= j < |ids| && j != i
      ensures ids[j] != ids[i]
    {
      assert KeyLess(IdKey(ids[Min(i, j)]), IdKey(ids[Max(i, j)]));
    }
  }

  lemma TidiedHistories(before: Histories, after: Histories, empty: set<nat>, ids: seq<nat>, cap: nat)
    requires forall id: nat :: id in ids <==> id in before
    requires TidiedUpTo(before, after, empty, ids, |ids|, cap)
    requires cap > 0
    ensures AllNormal(after - empty, cap) && AllKept(before, after - empty, cap)
    ensures DistinctHistories(before) ==> after - empty == NormalHistories(before, cap)
  {
    hide IsNormal, NormalHistory, DistinctKeys, KeepsNewest;
    forall id: nat | id in after
      ensures TidiedFrom(before[id], after[id], cap)
      ensures id in empty <==> after[id] == []
      ensures after[id] == [] <==> forall x :: x in before[id] ==> !x.countsTowardFaucet
    {
      var j :| 0 <= j < |ids| && ids[j] == id;
      KeptIsEmpty(before[id], after[id], cap);
    }
  }

  lemma FreshId(ids: seq<nat>, i: nat)
    requires StrictlySorted(ids, IdKey) && i < |ids|
    ensures ids[i] !in ids[..i]
  {
    forall j | 0 <= j < i
      ensures ids[..i][j] != ids[i]
    {
      assert KeyLess(IdKey(ids[j]), IdKey(ids[i]));
    }
  }

  /**
   The samples kept are samples that count, as many of them as the cap allows, and one that is left out is no
   newer than any that is kept.
   */
  ghost predicate KeepsNewest(before: Samples, after: Samples, cap: nat) {
    && (forall x :: x in after ==> x in before && x.countsTowardFaucet)
    && multiset(after) <= multiset(before)
    && |after| == Min(cap, |Filter(before, Qualifies)|)
    && (forall x, y :: x in before && x.countsTowardFaucet && x !in after && y in after ==> x.txId <= y.txId)
  }

  /** Exactly the histories with a sample that counts remain, each with its newest ones. */
  ghost predicate AllKept(before: Histories, after: Histories, cap: nat) {
    && (forall id: nat :: id in after <==> id in before && exists x :: x in before[id] && x.countsTowardFaucet)
    && (forall id: nat :: id in after ==> KeepsNewest(before[id], after[id], cap))
  }

  lemma {:induction false} FilterMultiset(h: Samples)
    ensures multiset(Filter(h, Qualifies)) <= multiset(h)
  {
    if h != [] {
      FilterMultiset(h[1..]);
      assert h == [h[0]] + h[1..];
    }
  }

  lemma SortedMembers(before: Samples, sorted: Samples)
    requires multiset(sorted) == multiset(Filter(before, Qualifies))
    ensures |sorted| == |Filter(before, Qualifies)| && multiset(sorted) <= multiset(before)
    ensures forall x :: x in sorted <==> x in before && x.countsTowardFaucet
  {
    var kept := Filter(before, Qualifies);
    assert |multiset(sorted)| == |multiset(kept)|;
    FilterMultiset(before);
    FilterMembers(before, Qualifies);
    forall x
      ensures x in sorted <==> x in kept
    {
      assert x in sorted <==> x in multiset(sorted);
      assert x in kept <==> x in multiset(kept);
    }
  }

  lemma InSuffix(s: Samples, d: nat, i: nat)
    requires d <= |s| && i < |s|
    ensures i >= d ==> s[i] in s[d..]
  {
    if i >= d {
      assert s[d..][i - d] == s[i];
    }
  }

  lemma DroppedIsNoNewer(sorted: Samples, d: nat, x: CommitmentSample, y: CommitmentSample)
    requires Sorted(sorted, TxKey) && d <= |sorted|
    requires x in sorted && x !in sorted[d..] && y in sorted[d..]
    ensures x.txId <= y.txId
  {
    var i := IndexIn(sorted, x);
    var j := IndexIn(sorted[d..], y);
    InSuffix(sorted, d, i);
    assert KeyLeq(TxKey(sorted[i]), TxKey(sorted[d + j]));
  }

  lemma SuffixKeepsNewest(before: Samples, sorted: Samples, after: Samples, cap: nat)
    requires cap > 0
    requires Sorted(sorted, TxKey) && multiset(sorted) == multiset(Filter(before, Qualifies))
    requires after == Prune(sorted, cap)
    ensures KeepsNewest(before, after, cap)
  {
    hide Sorted, Filter;
    var d := SatSub(|sorted|, cap);
    assert after == sorted[d..] && sorted == sorted[..d] + after;
    SortedMembers(before, sorted);
    forall x, y | x in sorted && x !in after && y in after
      ensures x.txId <= y.txId
    {
      DroppedIsNoNewer(sorted, d, x, y);
    }
  }

  lemma KeptIsEmpty(before: Samples, after: Samples, cap: nat)
    requires cap > 0 && KeepsNewest(before, after, cap)
    ensures after == [] <==> forall x :: x in before ==> !x.countsTowardFaucet
  {
    FilterMembers(before, Qualifies);
    if after != [] {
      assert after[0] in after;
    } else {
      forall x | x in before
        ensures !x.countsTowardFaucet
      {
        assert x !in Filter(before, Qualifies);
      }
    }
  }

  /** A history after the tidying pass, whatever order the unstable sort gave equal transactions. */
  ghost predicate TidiedFrom(before: Samples, after: Samples, cap: nat) {
    && (after != [] ==> IsNormal(after, cap))
    && KeepsNewest(before, after, cap)
    && (DistinctKeys(before, TxKey) ==> after == NormalHistory(before, cap))
  }

  lemma Tidied(before: Samples, sorted: Samples, after: Samples, cap: nat)
    requires cap > 0
    requires Sorted(sorted, TxKey) && multiset(sorted) == multiset(Filter(before, Qualifies))
    requires after == Prune(sorted, cap)
    ensures TidiedFrom(before, after, cap)
  {
    hide KeepsNewest;
    var kept := Filter(before, Qualifies);
    FilterMembers(before, Qualifies);
    SuffixSorted(sorted, cap);
    SuffixKeepsNewest(before, sorted, after, cap);
    forall x | x in after
      ensures Qualifies(x)
    {
      assert x in multiset(sorted);
      assert x in kept;
    }
    if DistinctKeys(before, TxKey) {
      FilterDistinct(before);
      UnstableSortUnique(kept, sorted, TxKey);
    }
  }

  lemma {:induction false} FilterDistinct(h: Samples)
    requires DistinctKeys(h, TxKey)
    ensures DistinctKeys(Filter(h, Qualifies), TxKey)
  {
    if h != [] {
      FilterDistinct(h[1..]);
      FilterMembers(h[1..], Qualifies);
      var rest := Filter(h[1..], Qualifies);
      forall i | 0 <= i < |rest|
        ensures TxKey(rest[i]) != TxKey(h[0])
      {
        assert rest[i] in h[1..];
        var p :| 0 <= p < |h[1..]| && h[1..][p] == rest[i];
        assert TxKey(h[0]) != TxKey(h[p + 1]);
      }
    }
  }

  /** The heap state of the canister, field by field. */
  class ReadModelState {
    var limits: Limits
    var trackingReasons: map<Principal, set<TrackingReason>>
    var commitmentHistory: map<Principal, Samples>
    var rawIcpHistory: Histories
    var neuronHistory: Histories
    var cyclesHistory: map<Principal, seq<CyclesSample>>
    var metas: map<Principal, CanisterMeta>
    var distinctCanisters: set<Principal>
    var recent: Option<seq<RecentCommitment>>
    var recentUnderThreshold: Option<seq<RecentCommitment>>
    var recentInvalid: Option<seq<InvalidCommitment>>
    /** Qualifying count, total output and total rewards. */
    var totals: (Option<U64>, Option<U64>, Option<U64>)
    const store: StableStore
    const ranking: SummaryRanking

    constructor (limits: Limits, store: StableStore, ranking: SummaryRanking)
      ensures Initialized() && this.store == store && this.ranking == ranking
    {
      this.limits, this.store, this.ranking := limits, store, ranking;
      trackingReasons, commitmentHistory, cyclesHistory, metas := map[], map[], map[], map[];
      rawIcpHistory, neuronHistory, distinctCanisters := map[], map[], {};
      recent, recentUnderThreshold, recentInvalid := Some([]), Some([]), Some([]);
      totals := (Some(0), Some(0), Some(0));
    }

    /** The fields the source unwraps; a missing one traps. */
    predicate Initialized()
      reads this
    {
      && recent.Some? && recentUnderThreshold.Some? && recentInvalid.Some?
      && totals.0.Some? && totals.1.Some? && totals.2.Some?
    }

    function CurrentRegistry(): Registry
      reads this
    {
      Registry(trackingReasons, commitmentHistory, cyclesHistory, metas, store)
    }

    ghost function Snapshot(): ReadModel
      requires Initialized()
      reads this, ranking
    {
      ReadModel(limits, CurrentRegistry(), rawIcpHistory, neuronHistory, distinctCanisters,
                recent.value, recentUnderThreshold.value, recentInvalid.value, ranking.cache, ranking.index)
    }

    method TidyHistories()
      modifies this
      ensures limits == ClampLimits(old(limits))
      ensures AllNormal(commitmentHistory, limits.commitmentEntries)
      ensures AllNormal(rawIcpHistory, limits.commitmentEntries)
      ensures AllNormal(neuronHistory, limits.commitmentEntries)
      ensures AllKept(old(commitmentHistory), commitmentHistory, limits.commitmentEntries)
      ensures AllKept(old(rawIcpHistory), rawIcpHistory, limits.commitmentEntries)
      ensures AllKept(old(neuronHistory), neuronHistory, limits.commitmentEntries)
      ensures old(DistinctHistories(commitmentHistory)) ==>
                commitmentHistory == NormalHistories(old(commitmentHistory), limits.commitmentEntries)
      ensures old(DistinctHistories(rawIcpHistory)) ==>
                rawIcpHistory == NormalHistories(old(rawIcpHistory), limits.commitmentEntries)
      ensures old(DistinctHistories(neuronHistory)) ==>
                neuronHistory == NormalHistories(old(neuronHistory), limits.commitmentEntries)
      ensures unchanged(`trackingReasons, `cyclesHistory, `metas, `distinctCanisters,
                        `recent, `recentUnderThreshold, `recentInvalid, `totals)
    {
      hide AllNormal, AllKept, DistinctHistories, NormalHistories, ClampLimits;
      ClampsToLimits(limits);
      limits := ClampLimits(limits);
      commitmentHistory := NormalizeHistories(commitmentHistory, limits.commitmentEntries);
      rawIcpHistory := NormalizeHistories(rawIcpHistory, limits.commitmentEntries);
      neuronHistory := NormalizeHistories(neuronHistory, limits.commitmentEntries);
    }

    method DropStaleTags()
      modifies `trackingReasons, `cyclesHistory, `metas
      ensures CurrentRegistry() == Stripped(old(CurrentRegistry()))
      ensures forall id: Principal :: IsStripped(old(CurrentRegistry()), CurrentRegistry(), id)
      ensures forall id: Principal :: id in metas ==> id in old(metas) && metas[id] == old(metas)[id]
    {
      hide IsStripped, HistorySnapshot, HasQualifying, StrippedReasons, Emptied, Ascending, StrictlySorted;
      ghost var reg0 := CurrentRegistry();
      var staleSet := StaleIds(CurrentRegistry());
      var stale := Ascending(staleSet);
      AscendingProperties(staleSet);
      ghost var done: set<Principal> := {};
      NothingStripped(reg0);
      for i := 0 to |stale|
        invariant done == Members(stale[..i])
        invariant trackingReasons == StrippedReasons(reg0.trackingReasons, done)
        invariant cyclesHistory == reg0.cyclesHistory - Emptied(reg0.trackingReasons, done)
        invariant metas == reg0.metas - Emptied(reg0.trackingReasons, done)
      {
        var id := stale[i];
        assert id in stale && id in reg0.trackingReasons;
        FreshId(stale, i);
        StripOne(reg0, done, id);
        MembersStep(stale, i);
        done := done + {id};
        var reasons := trackingReasons[id] - {MemoCommitment};
        trackingReasons := trackingReasons[id := reasons];
        if reasons == {} {
          trackingReasons := trackingReasons - {id};
          cyclesHistory := cyclesHistory - {id};
          metas := metas - {id};
        }
      }
      assert done == staleSet by {
        assert stale[..|stale|] == stale;
      }
      forall id: Principal
        ensures IsStripped(reg0, CurrentRegistry(), id)
      {
        StrippedExactly(reg0, id);
      }
    }

    method RefreshMetas()
      modifies `metas
      ensures metas == RefreshedMetas(old(CurrentRegistry()))
      ensures metas.Keys == old(metas.Keys)
      ensures forall id: Principal :: id in metas ==>
                IsRaised(old(metas)[id], metas[id], HistorySnapshot(CurrentRegistry(), id))
    {
      hide IsRaised, HistorySnapshot, LatestSeconds, RefreshedMeta, PartlyRefreshed, Ascending, StrictlySorted;
      ghost var reg0 := CurrentRegistry();
      var ids := Ascending(metas.Keys);
      AscendingProperties(metas.Keys);
      PartlyRefreshedEnds(reg0);
      for i := 0 to |ids|
        invariant metas == PartlyRefreshed(reg0, Members(ids[..i]))
      {
        var id := ids[i];
        assert id in ids;
        FreshId(ids, i);
        MembersStep(ids, i);
        PartlyRefreshedStep(reg0, Members(ids[..i]), id);
        SameSnapshot(CurrentRegistry(), reg0, id);
        metas := metas[id := RefreshedMeta(metas[id], LatestSeconds(HistorySnapshot(CurrentRegistry(), id)))];
      }
      assert Members(ids) == reg0.metas.Keys;
      assert ids[..|ids|] == ids;
      forall id: Principal | id in metas
        ensures IsRaised(reg0.metas[id], metas[id], HistorySnapshot(CurrentRegistry(), id))
      {
        SameSnapshot(CurrentRegistry(), reg0, id);
        MetaIsRaised(reg0.metas[id], HistorySnapshot(reg0, id));
      }
    }

    method NormalizeFeeds()
      requires Initialized()
      modifies `recent, `recentUnderThreshold, `recentInvalid
      ensures recent == Some(CommitmentBucket(old(recent.value), true, MAX_RECENT_QUALIFYING))
      ensures recentUnderThreshold
              == Some(CommitmentBucket(old(recentUnderThreshold.value), false, MAX_RECENT_UNDER_THRESHOLD))
      ensures recentInvalid == Some(InvalidBucket(old(recentInvalid.value)))
    {
      hide CommitmentBucket, InvalidBucket;
      var feed := NormalizeRecentCommitmentBucket(recent.value, true, MAX_RECENT_QUALIFYING);
      recent := Some(feed);
      feed := NormalizeRecentCommitmentBucket(recentUnderThreshold.value, false, MAX_RECENT_UNDER_THRESHOLD);
      recentUnderThreshold := Some(feed);
      var invalid := NormalizeRecentInvalidCommitments(recentInvalid.value);
      recentInvalid := Some(invalid);
    }

    /** normalize_runtime_state */
    method NormalizeRuntimeState()
      requires Initialized()
      modifies this, ranking
      ensures Initialized()
      ensures ReadModelInvariant(Snapshot())
      ensures Snapshot() == Finish(WithHistories(old(Snapshot()), commitmentHistory, rawIcpHistory, neuronHistory))
      ensures old(DistinctHistories(commitmentHistory) && DistinctHistories(rawIcpHistory) && DistinctHistories(neuronHistory))
              ==> Snapshot() == Normalize(old(Snapshot()))
      ensures AllKept(old(commitmentHistory), commitmentHistory, limits.commitmentEntries)
      ensures AllKept(old(rawIcpHistory), rawIcpHistory, limits.commitmentEntries)
      ensures AllKept(old(neuronHistory), neuronHistory, limits.commitmentEntries)
      ensures forall id: Principal ::
                IsStripped(old(CurrentRegistry()).(commitmentHistory := commitmentHistory), CurrentRegistry(), id)
      ensures forall id: Principal :: id in metas ==>
                id in old(metas) && IsRaised(old(metas)[id], metas[id], HistorySnapshot(CurrentRegistry(), id))
      ensures RankedByStoredTotals(ranking.index.value, CurrentRegistry())
      ensures totals == old(totals)
    {
      hide AllKept, IsStripped, IsRaised, RankedByStoredTotals, Reports, HistorySnapshot, Stripped, RefreshedMetas, AllSummaries, Ranking, AllNormal, NormalHistories, SummaryFor, ReadModelInvariant,
           CommitmentBucket, InvalidBucket, KnownCanisters, ClampLimits, DistinctHistories;
      ghost var s0 := Snapshot();
      TidyHistories();
      ghost var tidied := WithHistories(s0, commitmentHistory, rawIcpHistory, neuronHistory);
      assert CurrentRegistry() == tidied.registry;
      DropStaleTags();
      assert CurrentRegistry() == Stripped(tidied.registry);
      ghost var stripped := CurrentRegistry();
      NormalizeFeeds();
      RefreshMetas();
      forall id: Principal
        ensures IsStripped(tidied.registry, CurrentRegistry(), id)
      {
        StrippedKept(tidied.registry, stripped, CurrentRegistry(), id);
      }
      assert CurrentRegistry() == Settled(tidied.registry);
      distinctCanisters := KnownCanisters(CurrentRegistry());
      ranking.Rebuild(CurrentRegistry());
      assert Snapshot() == Finish(tidied);
      ClampsToLimits(s0.limits);
      FinishEstablishes(tidied);
    }
  }

  function Members(ids: seq<Principal>): set<Principal> {
    set id | id in ids
  }

  lemma MembersStep(ids: seq<Principal>, i: nat)
    requires i < |ids|
    ensures Members(ids[..i + 1]) == Members(ids[..i]) + {ids[i]}
  {
    assert ids[..i + 1] == ids[..i] + [ids[i]];
  }

  lemma NothingStripped(reg: Registry)
    ensures StrippedReasons(reg.trackingReasons, {}) == reg.trackingReasons
    ensures Emptied(reg.trackingReasons, {}) == {}
    ensures Members([]) == {}
  {
  }

  /** One iteration of the untagging loop. */
  lemma StripOne(reg: Registry, done: set<Principal>, id: Principal)
    requires id in reg.trackingReasons && id !in done
    ensures var reasons := reg.trackingReasons;
            var untagged := Untagged(reasons[id]);
            var stripped := StrippedReasons(reasons, done);
            && id in stripped && stripped[id] == reasons[id]
            && StrippedReasons(reasons, done + {id})
                == (if untagged == {} then stripped[id := untagged] - {id} else stripped[id := untagged])
            && reg.cyclesHistory - Emptied(reasons, done + {id})
                == (if untagged == {} then reg.cyclesHistory - Emptied(reasons, done) - {id}
                    else reg.cyclesHistory - Emptied(reasons, done))
            && reg.metas - Emptied(reasons, done + {id})
                == (if untagged == {} then reg.metas - Emptied(reasons, done) - {id}
                    else reg.metas - Emptied(reasons, done))
  {
    var reasons := reg.trackingReasons;
    assert Emptied(reasons, done + {id})
        == Emptied(reasons, done) + (if Untagged(reasons[id]) == {} then {id} else {});
    StripReasonsOne(reasons, done, id);
  }

  lemma StripReasonsOne(reasons: map<Principal, set<TrackingReason>>, done: set<Principal>, id: Principal)
    requires id in reasons && id !in done
    ensures var untagged := Untagged(reasons[id]);
            var stripped := StrippedReasons(reasons, done);
            && id in stripped && stripped[id] == reasons[id]
            && StrippedReasons(reasons, done + {id})
                == (if untagged == {} then stripped[id := untagged] - {id} else stripped[id := untagged])
  {
  }

  function PartlyRefreshed(reg: Registry, done: set<Principal>): map<Principal, CanisterMeta> {
    map id | id in reg.metas ::
      if id in done then RefreshedMeta(reg.metas[id], LatestSeconds(HistorySnapshot(reg, id))) else reg.metas[id]
  }

  lemma PartlyRefreshedEnds(reg: Registry)
    ensures PartlyRefreshed(reg, Members([])) == reg.metas
    ensures PartlyRefreshed(reg, reg.metas.Keys) == RefreshedMetas(reg)
  {
    hide HistorySnapshot, LatestSeconds, RefreshedMeta;
  }

  lemma PartlyRefreshedStep(reg: Registry, done: set<Principal>, id: Principal)
    requires id in reg.metas && id !in done
    ensures var partly := PartlyRefreshed(reg, done);
            && id in partly && partly[id] == reg.metas[id]
            && PartlyRefreshed(reg, done + {id})
                == partly[id := RefreshedMeta(reg.metas[id], LatestSeconds(HistorySnapshot(reg, id)))]
  {
    hide HistorySnapshot, LatestSeconds, RefreshedMeta;
  }

  lemma SameSnapshot(a: Registry, b: Registry, id: Principal)
    requires a.commitmentHistory == b.commitmentHistory && a.store == b.store
    ensures HistorySnapshot(a, id) == HistorySnapshot(b, id)
  {
  }
}
