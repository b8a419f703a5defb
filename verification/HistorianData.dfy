/**
 The Historian's read-model data (canisters/historian/src/state/types.rs) and the values derived from
 it: history snapshots, visible tracking reasons and the summary of a registered canister.
 */
module HistorianData {
  import opened Machine
  import opened Ordering
  import opened Filtering

  const NANOS_PER_SECOND := 1_000_000_000

  datatype TrackingReason = MemoCommitment | SnsDiscovery | RelayTarget | RelayInstance

  type Bytes = seq<nat>

  datatype CommitmentSample = CommitmentSample(
    txId: U64,
    timestampNanos: Option<U64>,
    amountE8s: U64,
    countsTowardFaucet: bool,
    rawIcpDestination: Option<Bytes>)

  datatype CyclesSample = CyclesSample(timestampNanos: U64, cycles: U128, source: nat)

  datatype CanisterMeta = CanisterMeta(
    firstSeenTs: Option<U64>,
    lastCommitmentTs: Option<U64>,
    lastCyclesProbeTs: Option<U64>,
    lastCyclesProbeResult: Option<nat>)

  const DEFAULT_META := CanisterMeta(None, None, None, None)

  datatype RouteRollup = RouteRollup(qualifyingCount: U64, totalE8s: U64)

  const DEFAULT_ROLLUP := RouteRollup(0, 0)

  datatype CanisterSummary = CanisterSummary(
    canisterId: Principal,
    trackingReasons: set<TrackingReason>,
    qualifyingCommitmentCount: U64,
    totalQualifyingCommittedE8s: U64,
    lastCommitmentTs: Option<U64>,
    latestCycles: Option<U128>,
    lastCyclesProbeTs: Option<U64>)

  /** Stable storage behind the heap state; it does not change during the operations modelled here. */
  datatype StableStore = StableStore(
    commitmentHistories: map<Principal, seq<CommitmentSample>>,
    cyclesHistories: map<Principal, seq<CyclesSample>>,
    rollups: map<Principal, RouteRollup>,
    unroutable: set<Principal>)

  /** The part of the state that summaries are computed from. */
  datatype Registry = Registry(
    trackingReasons: map<Principal, set<TrackingReason>>,
    commitmentHistory: map<Principal, seq<CommitmentSample>>,
    cyclesHistory: map<Principal, seq<CyclesSample>>,
    metas: map<Principal, CanisterMeta>,
    store: StableStore)

  function TxKey(sample: CommitmentSample): Key {
    (sample.txId, 0)
  }

  predicate Qualifies(sample: CommitmentSample) {
    sample.countsTowardFaucet
  }

  /** The heap history, or the stable one, by transaction id. */
  function HistorySnapshot(reg: Registry, id: Principal): seq<CommitmentSample> {
    Sort(if id in reg.commitmentHistory then reg.commitmentHistory[id]
         else if id in reg.store.commitmentHistories then reg.store.commitmentHistories[id]
         else [],
         TxKey)
  }

  function CyclesSnapshot(reg: Registry, id: Principal): seq<CyclesSample> {
    if id in reg.cyclesHistory then reg.cyclesHistory[id]
    else if id in reg.store.cyclesHistories then reg.store.cyclesHistories[id]
    else []
  }

  predicate HasQualifying(history: seq<CommitmentSample>) {
    exists sample :: sample in history && Qualifies(sample)
  }

  predicate MemoIsRegistered(reg: Registry, id: Principal, reasons: set<TrackingReason>) {
    MemoCommitment in reasons && HasQualifying(HistorySnapshot(reg, id))
  }

  function VisibleReasons(reg: Registry, id: Principal): Option<set<TrackingReason>> {
    if id !in reg.trackingReasons then None
    else
      var reasons := reg.trackingReasons[id];
      var visible := if MemoIsRegistered(reg, id, reasons) then reasons else reasons - {MemoCommitment};
      if visible == {} then None else Some(visible)
  }

  function MaxOption(a: Option<U64>, b: Option<U64>): Option<U64> {
    if a.None? then b else if b.None? then a else Some(Max(a.value, b.value))
  }

  /** The latest timestamp of a history, in seconds. */
  function LatestSeconds(history: seq<CommitmentSample>): Option<U64> {
    if history == [] then None
    else
      var last := history[|history| - 1].timestampNanos;
      MaxOption(LatestSeconds(history[..|history| - 1]),
                if last.None? then None else Some(last.value / NANOS_PER_SECOND))
  }

  /** The last of the samples with the greatest timestamp. */
  function LatestSample(history: seq<CyclesSample>): Option<CyclesSample> {
    if history == [] then None
    else
      var last := history[|history| - 1];
      var earlier := LatestSample(history[..|history| - 1]);
      if earlier.Some? && earlier.value.timestampNanos > last.timestampNanos then earlier else Some(last)
  }

  function SummaryFor(reg: Registry, id: Principal): (summary: Option<CanisterSummary>)
    ensures summary.Some? ==> summary.value.canisterId == id
  {
    var visible := VisibleReasons(reg, id);
    var history := HistorySnapshot(reg, id);
    if visible.None? || history == [] || id in reg.store.unroutable then None
    else
      var rollup := if id in reg.store.rollups then reg.store.rollups[id] else DEFAULT_ROLLUP;
      var meta := if id in reg.metas then reg.metas[id] else DEFAULT_META;
      var retainedLast := LatestSeconds(Filter(history, Qualifies));
      var latest := LatestSample(CyclesSnapshot(reg, id));
      Some(CanisterSummary(
        id, visible.value, rollup.qualifyingCount, rollup.totalE8s,
        if meta.lastCommitmentTs.Some? then meta.lastCommitmentTs else retainedLast,
        if latest.Some? then Some(latest.value.cycles) else None,
        meta.lastCyclesProbeTs))
  }

  // ---- what a summary says, against the registry alone ----

  /** The sample is in the heap history of the canister, or in the stable one if there is no heap history. */
  ghost predicate IsStored(reg: Registry, id: Principal, x: CommitmentSample) {
    if id in reg.commitmentHistory then x in reg.commitmentHistory[id]
    else id in reg.store.commitmentHistories && x in reg.store.commitmentHistories[id]
  }

  /** The reason is recorded, and for a memo commitment a stored sample counts toward the faucet. */
  ghost predicate IsVisible(reg: Registry, id: Principal, reason: TrackingReason) {
    && id in reg.trackingReasons && reason in reg.trackingReasons[id]
    && (reason == MemoCommitment ==> exists x :: IsStored(reg, id, x) && x.countsTowardFaucet)
  }

  /** The time is the latest whole second of the samples with a timestamp. */
  ghost predicate IsLatestSecond(time: Option<U64>, samples: iset<CommitmentSample>) {
    && (time.None? <==> forall x :: x in samples ==> x.timestampNanos.None?)
    && (time.Some? ==>
          && (exists x :: x in samples && x.timestampNanos.Some? && x.timestampNanos.value / 1_000_000_000 == time.value)
          && forall x :: x in samples && x.timestampNanos.Some? ==> x.timestampNanos.value / 1_000_000_000 <= time.value)
  }

  /** The cycles are those of the newest reading, the last one listed if several are newest. */
  ghost predicate IsLatestReading(cycles: Option<U128>, readings: seq<CyclesSample>) {
    && (cycles.None? <==> readings == [])
    && (cycles.Some? ==>
          exists i :: 0 <= i < |readings| && readings[i].cycles == cycles.value
            && forall j :: 0 <= j < |readings| && j != i ==>
                 readings[j].timestampNanos <= readings[i].timestampNanos
                 && (j > i ==> readings[j].timestampNanos < readings[i].timestampNanos))
  }

  /** Every field of the summary is what the registry records about the canister. */
  ghost predicate Reports(s: CanisterSummary, reg: Registry, id: Principal) {
    && s.canisterId == id
    && (forall r :: r in s.trackingReasons <==> IsVisible(reg, id, r))
    && s.totalQualifyingCommittedE8s == (if id in reg.store.rollups then reg.store.rollups[id].totalE8s else 0)
    && s.qualifyingCommitmentCount == (if id in reg.store.rollups then reg.store.rollups[id].qualifyingCount else 0)
    && IsLatestReading(s.latestCycles, if id in reg.cyclesHistory then reg.cyclesHistory[id]
                                       else if id in reg.store.cyclesHistories then reg.store.cyclesHistories[id] else [])
    && (if id in reg.metas && reg.metas[id].lastCommitmentTs.Some?
        then s.lastCommitmentTs == reg.metas[id].lastCommitmentTs
        else IsLatestSecond(s.lastCommitmentTs, iset x | IsStored(reg, id, x) && x.countsTowardFaucet))
    && s.lastCyclesProbeTs == (if id in reg.metas then reg.metas[id].lastCyclesProbeTs else None)
  }

  lemma SnapshotIsStored(reg: Registry, id: Principal)
    ensures Sorted(HistorySnapshot(reg, id), TxKey)
    ensures forall x :: x in HistorySnapshot(reg, id) <==> IsStored(reg, id, x)
    ensures id in reg.commitmentHistory ==> multiset(HistorySnapshot(reg, id)) == multiset(reg.commitmentHistory[id])
  {
    var stored := if id in reg.commitmentHistory then reg.commitmentHistory[id]
                  else if id in reg.store.commitmentHistories then reg.store.commitmentHistories[id]
                  else [];
    SortProperties(stored, TxKey);
    SortMembers(stored, TxKey);
  }

  /** Exactly the visible reasons are reported, and a canister without any is not listed. */
  lemma VisibleReasonsAreExact(reg: Registry, id: Principal)
    ensures VisibleReasons(reg, id).Some? ==> forall r :: r in VisibleReasons(reg, id).value <==> IsVisible(reg, id, r)
    ensures VisibleReasons(reg, id).Some? <==> exists r :: IsVisible(reg, id, r)
  {
    hide HistorySnapshot, IsStored;
    SnapshotIsStored(reg, id);
    if id in reg.trackingReasons {
      var reasons := reg.trackingReasons[id];
      assert HasQualifying(HistorySnapshot(reg, id)) <==> exists x :: IsStored(reg, id, x) && x.countsTowardFaucet;
      var visible := if MemoIsRegistered(reg, id, reasons) then reasons else reasons - {MemoCommitment};
      assert forall r :: r in visible <==> IsVisible(reg, id, r);
      if visible != {} {
        var r :| r in visible;
        assert IsVisible(reg, id, r);
      }
    }
  }

  lemma {:induction false} LatestSecondsIs(history: seq<CommitmentSample>)
    ensures IsLatestSecond(LatestSeconds(history), iset x | x in history)
  {
    if history != [] {
      var n := |history| - 1;
      var before, last := history[..n], history[n];
      LatestSecondsIs(before);
      assert history == before + [last];
      var earlier, seen := LatestSeconds(before), LatestSeconds(history);
      assert forall x :: x in history <==> x in before || x == last;
      assert last in history;
      if last.timestampNanos.Some? && (earlier.None? || earlier.value < last.timestampNanos.value / 1_000_000_000) {
        assert seen.value == last.timestampNanos.value / 1_000_000_000;
      } else {
        assert seen == earlier;
      }
    }
  }

  lemma NewestStep(readings: seq<CyclesSample>, last: CyclesSample, i: int)
    requires IsNewestAt(readings, i)
    ensures if readings[i].timestampNanos > last.timestampNanos then IsNewestAt(readings + [last], i)
            else IsNewestAt(readings + [last], |readings|)
  {
    var all := readings + [last];
    forall j | 0 <= j < |readings|
      ensures all[j] == readings[j] && (j == i || readings[j].timestampNanos <= readings[i].timestampNanos)
    {
    }
  }

  lemma {:induction false} LatestSampleIs(readings: seq<CyclesSample>) returns (i: int)
    ensures LatestSample(readings).None? <==> readings == []
    ensures readings != [] ==> IsNewestAt(readings, i) && readings[i] == LatestSample(readings).value
  {
    hide IsNewestAt;
    i := 0;
    if readings != [] {
      var n := |readings| - 1;
      var before := readings[..n];
      assert readings == before + [readings[n]];
      var p := LatestSampleIs(before);
      if before == [] {
        OnlyReading(readings);
      } else {
        IndexOfNewest(before, p);
        NewestStep(before, readings[n], p);
        i := if before[p].timestampNanos > readings[n].timestampNanos then p else n;
      }
    }
  }

  lemma OnlyReading(readings: seq<CyclesSample>)
    requires |readings| == 1
    ensures IsNewestAt(readings, 0)
  {
  }

  lemma IndexOfNewest(readings: seq<CyclesSample>, i: int)
    requires IsNewestAt(readings, i)
    ensures 0 <= i < |readings|
  {
  }

  /** No reading is newer, and the later ones are older. */
  ghost predicate IsNewestAt(readings: seq<CyclesSample>, i: int) {
    0 <= i < |readings|
    && forall j :: 0 <= j < |readings| && j != i ==>
         readings[j].timestampNanos <= readings[i].timestampNanos
         && (j > i ==> readings[j].timestampNanos < readings[i].timestampNanos)
  }

  /**
   A canister has a summary exactly when it has a visible reason, a stored commitment and a routable
   principal; the summary then reports what the registry records.
   */
  lemma SummaryReports(reg: Registry, id: Principal)
    ensures SummaryFor(reg, id).Some? ==> Reports(SummaryFor(reg, id).value, reg, id)
    ensures SummaryFor(reg, id).Some?
            <==> (exists r :: IsVisible(reg, id, r)) && (exists x :: IsStored(reg, id, x)) && id !in reg.store.unroutable
  {
    hide VisibleReasons, HistorySnapshot, IsVisible, IsStored, LatestSeconds, LatestSample, IsLatestSecond;
    var history, readings := HistorySnapshot(reg, id), CyclesSnapshot(reg, id);
    SnapshotIsStored(reg, id);
    VisibleReasonsAreExact(reg, id);
    FilterMembers(history, Qualifies);
    LatestSecondsIs(Filter(history, Qualifies));
    var newest := LatestSampleIs(readings);
    assert (iset x | x in Filter(history, Qualifies)) == (iset x | IsStored(reg, id, x) && x.countsTowardFaucet);
    assert history != [] <==> exists x :: x in history by {
      if history != [] {
        assert history[0] in history;
      }
    }
    if SummaryFor(reg, id).Some? {
      var latest := LatestSample(readings);
      if latest.Some? {
        assert readings[newest].cycles == latest.value.cycles;
      }
    }
  }
}
