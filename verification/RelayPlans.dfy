/**
 The Relay allocation planner (canisters/relay/src/logic.rs): burn plus carried deficit becomes a set
 of ICP transfers, and what is left over is split among the surplus recipients.
 */
module RelayPlans {
  import opened Machine
  import opened Arithmetic
  import opened Ordering
  import opened OrderedSets
  import opened LargestRemainder

  const HEADROOM_NUMERATOR := 101
  const HEADROOM_DENOMINATOR := 100
  const ESTIMATE_MAX_AGE_NANOS := 14 * 24 * 60 * 60 * 1_000_000_000
  const BOOTSTRAP_CYCLES_PER_E8: U128 := 100_000
  const MIN_RAW_ICP_RECIPIENT_AMOUNT_E8S := 100_000_000

  datatype SkipReason =
    | ZeroBurn
    | GrossShareDoesNotExceedFee
    | InsufficientBalanceForTopups
    | NoPositiveBurn
    | NoRawIcpRecipients
    | BelowFeeEfficientThreshold
    | MissingConversionEstimate
    | NoSurplusRecipients
    | NoSurplus
    | RawIcpShareBelowOneIcp

  datatype BurnPlan = BurnPlan(
    canisterId: Principal,
    previousCycles: Option<U128>,
    currentCycles: U128,
    relayMintedCycles: U128,
    burnCycles: U128,
    carriedDeficitCycles: U128,
    targetTopupCycles: U128,
    grossShareE8s: U64,
    amountE8s: U64,
    actualMintedCycles: U128,
    remainingDeficitCycles: U128,
    skippedReason: Option<SkipReason>)

  datatype AllocationPlan = AllocationPlan(
    topups: seq<BurnPlan>,
    topupPhaseFullyFunded: bool,
    skippedSurplusReason: Option<SkipReason>)

  datatype ConversionEstimate = ConversionEstimate(cyclesPerE8: U128, timestampNanos: U64)

  /** The four maps every planner reads. */
  datatype Observations = Observations(
    current: map<Principal, U128>,
    previous: map<Principal, U128>,
    relayMinted: map<Principal, U128>,
    recoveryDeficits: map<Principal, U128>)

  function ComputeBurn(previous: U128, relayMinted: U128, current: U128): U128 {
    SatSub(SatAdd128(previous, relayMinted), current)
  }

  function CeilDiv(numerator: U128, denominator: U128): U128
    requires denominator > 0
  {
    if numerator == 0 then 0
    else
      var padded := SatAdd128(numerator, denominator - 1);
      DivMod(padded, denominator);
      QuotientFits(padded, denominator);
      padded / denominator
  }

  lemma QuotientFits(n: U128, d: U128)
    requires d > 0
    ensures 0 <= n / d <= n
  {
    DivMod(n, d);
    if n / d > n {
      MulLeq(n + 1, n / d, d);
      assert (n + 1) * d == n * d + d;
      MulLeq(1, d, n);
      assert false;
    }
  }

  function TargetTopupCycles(burn: U128): U128 {
    CeilDiv(SatMul128(burn, HEADROOM_NUMERATOR), HEADROOM_DENOMINATOR)
  }

  function TopupNetE8s(target: U128, rate: U128): U64 {
    if target == 0 || rate == 0 then 0 else Min(CeilDiv(target, rate), U64_MAX)
  }

  predicate EstimateIsUsable(estimate: ConversionEstimate, now: U64) {
    estimate.cyclesPerE8 > 0 && SatSub(now, estimate.timestampNanos) <= ESTIMATE_MAX_AGE_NANOS
  }

  /** The rate a plan is priced at: a usable estimate, or the bootstrap rate. */
  function PlanningRate(estimate: Option<ConversionEstimate>, now: U64): (rate: U128)
    ensures rate > 0
  {
    if estimate.Some? && EstimateIsUsable(estimate.value, now) then estimate.value.cyclesPerE8
    else BOOTSTRAP_CYCLES_PER_E8
  }

  function ConversionEstimateFromCmcRate(xdrPermyriadPerIcp: U64, timestampSeconds: U64): Option<ConversionEstimate> {
    if xdrPermyriadPerIcp == 0 || timestampSeconds * 1_000_000_000 > U64_MAX then None
    else Some(ConversionEstimate(xdrPermyriadPerIcp, timestampSeconds * 1_000_000_000))
  }

  /** Whatever the CMC reported, and without a report, a plan is priced at a positive rate below 2^64. */
  lemma PlanningRateFits(xdrPermyriadPerIcp: U64, timestampSeconds: U64, now: U64)
    ensures 0 < PlanningRate(ConversionEstimateFromCmcRate(xdrPermyriadPerIcp, timestampSeconds), now) <= U64_MAX
    ensures 0 < PlanningRate(None, now) <= U64_MAX
  {
  }

  /**
   A plan is priced at the reported rate exactly when the report is non-zero, its time fits in nanoseconds
   and it is at most 14 days old; a report in the future counts as fresh. One XDR is 10^12 cycles, and the
   report is in ten-thousandths of an XDR per 10^8 e8s.
   */
  lemma PlanningRateIsFresh(xdrPermyriadPerIcp: U64, timestampSeconds: U64, now: U64)
    ensures var estimate := ConversionEstimateFromCmcRate(xdrPermyriadPerIcp, timestampSeconds);
            var reported := timestampSeconds * 1_000_000_000;
            && (estimate.Some? <==> xdrPermyriadPerIcp > 0 && reported <= U64_MAX)
            && (estimate.Some? ==>
                  && estimate.value.cyclesPerE8 * 100_000_000 * 10_000 == xdrPermyriadPerIcp * 1_000_000_000_000
                  && (EstimateIsUsable(estimate.value, now) <==> now <= reported + 1_209_600_000_000_000))
            && PlanningRate(estimate, now)
                == (if xdrPermyriadPerIcp > 0 && reported <= U64_MAX && now <= reported + 1_209_600_000_000_000
                    then xdrPermyriadPerIcp else 100_000)
  {
  }

  function Lookup(m: map<Principal, U128>, id: Principal): U128 {
    if id in m then m[id] else 0
  }

  function BurnPlanFor(obs: Observations, id: Principal, headroom: bool): BurnPlan
    requires id in obs.current
  {
    var previous := if id in obs.previous then Some(obs.previous[id]) else None;
    var minted := Lookup(obs.relayMinted, id);
    var burn := if previous.Some? then ComputeBurn(previous.value, minted, obs.current[id]) else 0;
    var carried := Lookup(obs.recoveryDeficits, id);
    var target := SatAdd128(carried, if headroom then TargetTopupCycles(burn) else burn);
    BurnPlan(id, previous, obs.current[id], minted, burn, carried, target, 0, 0, 0, target, None)
  }

  /** One plan per observed canister, in principal order. */
  function BurnPlans(obs: Observations, headroom: bool): (plans: seq<BurnPlan>)
    ensures |plans| == |Ascending(obs.current.Keys)|
    ensures forall i :: 0 <= i < |plans| ==>
              Ascending(obs.current.Keys)[i] in obs.current
              && plans[i] == BurnPlanFor(obs, Ascending(obs.current.Keys)[i], headroom)
  {
    var ids := Ascending(obs.current.Keys);
    AscendingProperties(obs.current.Keys);
    assert forall i :: 0 <= i < |ids| ==> ids[i] in ids;
    seq(|ids|, i requires 0 <= i < |ids| => BurnPlanFor(obs, ids[i], headroom))
  }

  /**
   What a plan's entry says about its canister, against the observations alone: the readings and the carried
   deficit are the recorded ones, burn makes up for the drop from the previous reading plus what the relay
   minted, and the target is the deficit plus the burn, with 1% on top when there is headroom.
   */
  ghost predicate Observed(p: BurnPlan, obs: Observations, headroom: bool) {
    var before: int := if p.previousCycles.Some? then p.previousCycles.value + p.relayMintedCycles else 0;
    && p.canisterId in obs.current && p.currentCycles == obs.current[p.canisterId]
    && (p.previousCycles.Some? <==> p.canisterId in obs.previous)
    && (p.previousCycles.Some? ==> p.previousCycles.value == obs.previous[p.canisterId])
    && p.relayMintedCycles == (if p.canisterId in obs.relayMinted then obs.relayMinted[p.canisterId] else 0)
    && p.carriedDeficitCycles == (if p.canisterId in obs.recoveryDeficits then obs.recoveryDeficits[p.canisterId] else 0)
    && (p.previousCycles.None? ==> p.burnCycles == 0)
    && (p.previousCycles.Some? && before <= U128_MAX ==>
          if p.burnCycles > 0 then p.currentCycles + p.burnCycles == before else p.currentCycles >= before)
    && (p.previousCycles.Some? && before > U128_MAX ==> p.currentCycles + p.burnCycles == U128_MAX)
    && (!headroom ==> p.targetTopupCycles == Min(p.carriedDeficitCycles + p.burnCycles, U128_MAX))
    && (headroom ==>
          && p.targetTopupCycles <= Min(p.carriedDeficitCycles + ExactCeil(p.burnCycles * 101, 100), U128_MAX)
          && (p.burnCycles * 101 <= U128_MAX - 55 ==>
                p.targetTopupCycles == Min(p.carriedDeficitCycles + ExactCeil(p.burnCycles * 101, 100), U128_MAX)))
    && p.remainingDeficitCycles == p.targetTopupCycles && p.actualMintedCycles == 0
  }

  /** Every entry reflects the observations of its canister, and starts without funds or a reason. */
  lemma BurnsAreObserved(obs: Observations, headroom: bool, i: nat)
    requires i < |BurnPlans(obs, headroom)|
    ensures var p := BurnPlans(obs, headroom)[i];
            Observed(p, obs, headroom) && p.grossShareE8s == 0 && p.amountE8s == 0 && p.skippedReason.None?
  {
    hide TargetTopupCycles, ExactCeil;
    HeadroomIsExact(BurnPlans(obs, headroom)[i].burnCycles);
  }

  /** The plans cover the observed canisters, ascending and once each. */
  lemma BurnPlansCover(obs: Observations, headroom: bool)
    ensures var plans := BurnPlans(obs, headroom);
            && (forall i, j :: 0 <= i < j < |plans| ==> plans[i].canisterId < plans[j].canisterId)
            && (forall id: Principal :: id in obs.current <==> exists i :: 0 <= i < |plans| && plans[i].canisterId == id)
  {
    hide BurnPlanFor;
    var ids, plans := Ascending(obs.current.Keys), BurnPlans(obs, headroom);
    AscendingProperties(obs.current.Keys);
    forall i | 0 <= i < |plans|
      ensures ids[i] in obs.current && plans[i].canisterId == ids[i]
    {
      BurnPlanNames(obs, ids[i], headroom);
    }
    forall i, j | 0 <= i < j < |plans|
      ensures plans[i].canisterId < plans[j].canisterId
    {
      assert KeyLess(IdKey(ids[i]), IdKey(ids[j]));
    }
    forall id: Principal | id in obs.current
      ensures exists i :: 0 <= i < |plans| && plans[i].canisterId == id
    {
      assert id in ids;
      var i :| 0 <= i < |ids| && ids[i] == id;
      assert plans[i].canisterId == id;
    }
  }

  lemma BurnPlanNames(obs: Observations, id: Principal, headroom: bool)
    requires id in obs.current
    ensures BurnPlanFor(obs, id, headroom).canisterId == id
  {
  }

  // ---- the top-up phase ----

  function DesiredGross(target: U128, rate: U128, fee: U64): U64 {
    var net := TopupNetE8s(target, rate);
    if net == 0 || SatAdd64(net, fee) <= fee then 0 else SatAdd64(net, fee)
  }

  function PricingSkip(target: U128, rate: U128, fee: U64): Option<SkipReason> {
    var net := TopupNetE8s(target, rate);
    if net == 0 then if target == 0 then Some(ZeroBurn) else None
    else if SatAdd64(net, fee) <= fee then Some(GrossShareDoesNotExceedFee)
    else None
  }

  function Priced(plan: BurnPlan, rate: U128, fee: U64): BurnPlan {
    match PricingSkip(plan.targetTopupCycles, rate, fee)
    case Some(reason) => plan.(skippedReason := Some(reason))
    case None => plan
  }

  function DesiredAmounts(plans: seq<BurnPlan>, rate: U128, fee: U64): seq<U64> {
    seq(|plans|, i requires 0 <= i < |plans| => DesiredGross(plans[i].targetTopupCycles, rate, fee))
  }

  /** The gross share each canister is allotted: its desire, or its proportional share. */
  ghost function Allotted(desired: seq<U64>, available: U64): (r: seq<nat>)
    ensures |r| == |desired|
  {
    var total := SaturatingFold(desired, 0);
    if total <= available then desired else Shares(desired, total, available)
  }

  /** One entry of the finished plan. */
  ghost function FundedEntry(plan: BurnPlan, rate: U128, fee: U64, gross: U64, fullyFunded: bool): BurnPlan {
    var priced := Priced(plan, rate, fee);
    if gross > fee then priced.(grossShareE8s := gross, amountE8s := gross - fee)
    else if fullyFunded || priced.skippedReason.Some? then priced
    else priced.(skippedReason := Some(GrossShareDoesNotExceedFee))
  }

  ghost predicate IsTopupPlan(plan: AllocationPlan, obs: Observations, available: U64, fee: U64, rate: U128) {
    var base := BurnPlans(obs, true);
    var desired := DesiredAmounts(base, rate, fee);
    var allotted := Allotted(desired, available);
    && plan.topupPhaseFullyFunded == (SaturatingFold(desired, 0) <= available)
    && plan.skippedSurplusReason == (if plan.topupPhaseFullyFunded then None else Some(InsufficientBalanceForTopups))
    && |plan.topups| == |base|
    && (forall i :: 0 <= i < |base| ==> allotted[i] <= desired[i])
    && (forall i :: 0 <= i < |base| ==>
          plan.topups[i] == FundedEntry(base[i], rate, fee, allotted[i], plan.topupPhaseFullyFunded))
  }

  lemma AllottedWithinDesire(desired: seq<U64>, available: U64)
    ensures forall i :: 0 <= i < |desired| ==> Allotted(desired, available)[i] <= desired[i]
    ensures Sum(desired) <= U64_MAX ==> Sum(Allotted(desired, available)) <= available
  {
    hide Shares, Floors;
    var total := SaturatingFold(desired, 0);
    SaturatingFoldIsSum(desired, 0);
    if total > available {
      Exactness(desired, total, available);
      WithinDesire(desired, total, available);
    }
  }

  /** The pricing pass: mark what cannot be priced and collect the desired gross amounts. */
  method PriceTopups(base: seq<BurnPlan>, rate: U128, fee: U64)
    returns (topups: seq<BurnPlan>, desired: seq<U64>)
    ensures |topups| == |base|
    ensures forall i :: 0 <= i < |base| ==> topups[i] == Priced(base[i], rate, fee)
    ensures desired == DesiredAmounts(base, rate, fee)
  {
    topups, desired := base, [];
    for i := 0 to |base|
      invariant |topups| == |base| && |desired| == i
      invariant forall j :: 0 <= j < i ==> desired[j] == DesiredGross(base[j].targetTopupCycles, rate, fee)
      invariant forall j :: 0 <= j < i ==> topups[j] == Priced(base[j], rate, fee)
      invariant forall j :: i <= j < |base| ==> topups[j] == base[j]
    {
      var net := TopupNetE8s(topups[i].targetTopupCycles, rate);
      var gross: U64 := 0;
      if net == 0 {
        if topups[i].targetTopupCycles == 0 {
          topups := topups[i := topups[i].(skippedReason := Some(ZeroBurn))];
        }
      } else {
        gross := SatAdd64(net, fee);
        if gross <= fee {
          topups := topups[i := topups[i].(skippedReason := Some(GrossShareDoesNotExceedFee))];
          gross := 0;
        }
      }
      desired := desired + [gross];
    }
  }

  /** The funding pass over priced entries. */
  method FundTopups(ghost base: seq<BurnPlan>, priced: seq<BurnPlan>, ghost rate: U128, fee: U64,
                    allotted: seq<U64>, fullyFunded: bool)
    returns (topups: seq<BurnPlan>)
    requires |priced| == |base| == |allotted|
    requires forall i :: 0 <= i < |base| ==> priced[i] == Priced(base[i], rate, fee)
    requires fullyFunded ==> forall i :: 0 <= i < |base| ==> allotted[i] == 0 || allotted[i] > fee
    ensures |topups| == |base|
    ensures forall i :: 0 <= i < |base| ==> topups[i] == FundedEntry(base[i], rate, fee, allotted[i], fullyFunded)
  {
    topups := priced;
    for i := 0 to |priced|
      invariant |topups| == |base|
      invariant forall j :: 0 <= j < i ==> topups[j] == FundedEntry(base[j], rate, fee, allotted[j], fullyFunded)
      invariant forall j :: i <= j < |base| ==> topups[j] == priced[j]
    {
      if fullyFunded {
        if allotted[i] > 0 {
          topups := topups[i := topups[i].(grossShareE8s := allotted[i], amountE8s := allotted[i] - fee)];
        }
      } else if allotted[i] > fee {
        topups := topups[i := topups[i].(grossShareE8s := allotted[i], amountE8s := allotted[i] - fee)];
      } else if topups[i].skippedReason.None? {
        topups := topups[i := topups[i].(skippedReason := Some(GrossShareDoesNotExceedFee))];
      }
    }
  }

  lemma DesiredExceedsFee(plans: seq<BurnPlan>, rate: U128, fee: U64)
    ensures var desired := DesiredAmounts(plans, rate, fee);
            forall i :: 0 <= i < |desired| ==> desired[i] == 0 || desired[i] > fee
  {
  }

  lemma UnfundedHasReason(plan: BurnPlan, rate: U128, fee: U64, gross: U64)
    requires plan.amountE8s == 0
    ensures var entry := FundedEntry(plan, rate, fee, gross, false); entry.amountE8s > 0 || entry.skippedReason.Some?
  {
  }

  method BuildAllocationPlan(obs: Observations, available: U64, fee: U64,
                             estimate: Option<ConversionEstimate>, now: U64)
    returns (plan: AllocationPlan)
    ensures IsTopupPlan(plan, obs, available, fee, PlanningRate(estimate, now))
    ensures forall i :: 0 <= i < |plan.topups| ==> Observed(plan.topups[i], obs, true)
  {
    hide Observed, FundedEntry, Priced, DesiredGross, Shares;
    var base := BurnPlans(obs, true);
    var rate := PlanningRate(estimate, now);
    var topups, desired := PriceTopups(base, rate, fee);
    var total := SaturatingFold(desired, 0);
    var fullyFunded := total <= available;
    var allotted: seq<U64> := desired;
    if !fullyFunded {
      ghost var passes;
      allotted, passes := ProportionalTopupGrossAllocations(desired, total, available);
    }
    AllottedWithinDesire(desired, available);
    DesiredExceedsFee(base, rate, fee);
    topups := FundTopups(base, topups, rate, fee, allotted, fullyFunded);
    if !fullyFunded {
      for i := 0 to |base|
      {
        // This pass would mark entries as InsufficientBalanceForTopups, but the funding pass
        // leaves no unfunded entry without a reason.
        UnfundedHasReason(base[i], rate, fee, allotted[i]);
        if desired[i] > 0 && topups[i].amountE8s == 0 && topups[i].skippedReason.None? {
          assert false;
        }
      }
    }
    plan := AllocationPlan(topups, fullyFunded, if fullyFunded then None else Some(InsufficientBalanceForTopups));
    TopupsAreObserved(plan, obs, available, fee, rate);
  }

  /** Funding an entry keeps what it says about its canister. */
  lemma TopupsAreObserved(plan: AllocationPlan, obs: Observations, available: U64, fee: U64, rate: U128)
    requires IsTopupPlan(plan, obs, available, fee, rate)
    ensures forall i :: 0 <= i < |plan.topups| ==> Observed(plan.topups[i], obs, true)
  {
    hide Observed, FundedEntry;
    var base := BurnPlans(obs, true);
    var allotted := Allotted(DesiredAmounts(base, rate, fee), available);
    forall i | 0 <= i < |plan.topups|
      ensures Observed(plan.topups[i], obs, true)
    {
      BurnsAreObserved(obs, true, i);
      FundingKeepsReadings(base[i], rate, fee, allotted[i], plan.topupPhaseFullyFunded);
      ObservedKept(base[i], plan.topups[i], obs, true);
    }
  }

  lemma FundingKeepsReadings(p: BurnPlan, rate: U128, fee: U64, gross: U64, fullyFunded: bool)
    ensures SameReadings(p, FundedEntry(p, rate, fee, gross, fullyFunded))
  {
    hide TopupNetE8s;
  }

  /** The entries differ in funds and reason only. */
  ghost predicate SameReadings(p: BurnPlan, q: BurnPlan) {
    q == p.(grossShareE8s := q.grossShareE8s, amountE8s := q.amountE8s, skippedReason := q.skippedReason)
  }

  lemma ObservedKept(p: BurnPlan, q: BurnPlan, obs: Observations, headroom: bool)
    requires Observed(p, obs, headroom) && SameReadings(p, q)
    ensures Observed(q, obs, headroom)
  {
    hide ExactCeil;
  }

  /**
   The reasons of a finished plan: nothing to top up exactly when the target is zero, no reason exactly for
   funded entries, and otherwise a share within the fee; with full funding that needs a fee of u64::MAX.
   */
  lemma TopupReasons(plan: AllocationPlan, obs: Observations, available: U64, fee: U64, rate: U128, i: nat)
    requires IsTopupPlan(plan, obs, available, fee, rate) && rate > 0 && i < |plan.topups|
    ensures var p := plan.topups[i];
            && (p.skippedReason == Some(ZeroBurn) <==> p.targetTopupCycles == 0)
            && (p.skippedReason.None? <==> p.amountE8s > 0)
            && (p.targetTopupCycles > 0 && p.amountE8s == 0 ==> p.skippedReason == Some(GrossShareDoesNotExceedFee))
            && (plan.topupPhaseFullyFunded && p.targetTopupCycles > 0 && fee < U64_MAX ==> p.amountE8s > 0)
  {
    hide CeilDiv, ExactCeil, Shares;
    var base := BurnPlans(obs, true);
    var desired := DesiredAmounts(base, rate, fee);
    CeilDivPositive(base[i].targetTopupCycles, rate);
    assert plan.topups[i].targetTopupCycles == base[i].targetTopupCycles;
    assert plan.topupPhaseFullyFunded ==> Allotted(desired, available)[i] == desired[i];
    assert Allotted(desired, available)[i] <= desired[i];
  }

  lemma CeilDivPositive(target: U128, rate: U128)
    requires rate > 0
    ensures CeilDiv(target, rate) > 0 <==> target > 0
  {
    if target > 0 {
      MulLeq(1, 1, rate);
      FloorAtLeast(SatAdd128(target, rate - 1), rate, 1);
    }
  }

  function GrossShares(topups: seq<BurnPlan>): seq<U64> {
    seq(|topups|, i requires 0 <= i < |topups| => topups[i].grossShareE8s)
  }

  /** Funded entries pay amount + fee out of their gross share, the others hold nothing. */
  ghost predicate EntriesBalance(topups: seq<BurnPlan>, fee: U64) {
    forall i :: 0 <= i < |topups| ==>
      if topups[i].amountE8s > 0 then topups[i].amountE8s + fee == topups[i].grossShareE8s
      else topups[i].grossShareE8s == 0
  }

  ghost predicate Solvent(topups: seq<BurnPlan>, fee: U64, available: U64) {
    EntriesBalance(topups, fee) && Sum(GrossShares(topups)) <= available
  }

  /** The true total need of a round, in e8s including fees. */
  function TotalNeed(obs: Observations, rate: U128, fee: U64): int {
    Sum(DesiredAmounts(BurnPlans(obs, true), rate, fee))
  }

  lemma TopupPlanSolvent(plan: AllocationPlan, obs: Observations, available: U64, fee: U64, rate: U128)
    requires IsTopupPlan(plan, obs, available, fee, rate)
    requires TotalNeed(obs, rate, fee) <= U64_MAX
    ensures Solvent(plan.topups, fee, available)
  {
    var desired := DesiredAmounts(BurnPlans(obs, true), rate, fee);
    AllottedWithinDesire(desired, available);
    GrossWithinAllotted(plan, obs, available, fee, rate);
    SumPointwiseLeq(GrossShares(plan.topups), Allotted(desired, available));
  }

  lemma GrossWithinAllotted(plan: AllocationPlan, obs: Observations, available: U64, fee: U64, rate: U128)
    requires IsTopupPlan(plan, obs, available, fee, rate)
    ensures EntriesBalance(plan.topups, fee)
    ensures |plan.topups| == |BurnPlans(obs, true)|
    ensures var allotted := Allotted(DesiredAmounts(BurnPlans(obs, true), rate, fee), available);
            forall i :: 0 <= i < |plan.topups| ==> plan.topups[i].grossShareE8s <= allotted[i]
  {
    var base := BurnPlans(obs, true);
    var allotted := Allotted(DesiredAmounts(base, rate, fee), available);
    forall i | 0 <= i < |plan.topups|
      ensures plan.topups[i].grossShareE8s <= allotted[i]
      ensures if plan.topups[i].amountE8s > 0 then plan.topups[i].amountE8s + fee == plan.topups[i].grossShareE8s
              else plan.topups[i].grossShareE8s == 0
    {
      FundedEntryBalances(base[i], rate, fee, allotted[i], plan.topupPhaseFullyFunded);
    }
  }

  lemma FundedEntryBalances(plan: BurnPlan, rate: U128, fee: U64, gross: U64, fullyFunded: bool)
    requires plan.grossShareE8s == 0 && plan.amountE8s == 0
    ensures var e := FundedEntry(plan, rate, fee, gross, fullyFunded);
            && e.grossShareE8s <= gross
            && (if e.amountE8s > 0 then e.amountE8s + fee == e.grossShareE8s else e.grossShareE8s == 0)
  {
  }

  /**
   The planner is solvent for every balance exactly when the total need fits in 64 bits. A larger
   need saturates to u64::MAX, and a balance of u64::MAX then counts as full funding.
   */
  lemma SolvencyCondition(obs: Observations, fee: U64, rate: U128)
    ensures TotalNeed(obs, rate, fee) <= U64_MAX <==>
            forall plan, available: U64 :: IsTopupPlan(plan, obs, available, fee, rate) ==> Solvent(plan.topups, fee, available)
  {
    if TotalNeed(obs, rate, fee) <= U64_MAX {
      forall plan, available: U64 | IsTopupPlan(plan, obs, available, fee, rate)
        ensures Solvent(plan.topups, fee, available)
      {
        TopupPlanSolvent(plan, obs, available, fee, rate);
      }
    } else {
      var plan := OverflowingPlan(obs, fee, rate);
    }
  }

  lemma OverflowingPlan(obs: Observations, fee: U64, rate: U128) returns (plan: AllocationPlan)
    requires TotalNeed(obs, rate, fee) > U64_MAX
    ensures IsTopupPlan(plan, obs, U64_MAX, fee, rate) && !Solvent(plan.topups, fee, U64_MAX)
  {
    var base := BurnPlans(obs, true);
    var desired := DesiredAmounts(base, rate, fee);
    SaturatingFoldIsSum(desired, 0);
    var topups := seq(|base|, i requires 0 <= i < |base| => FundedEntry(base[i], rate, fee, desired[i], true));
    plan := AllocationPlan(topups, true, None);
    assert Allotted(desired, U64_MAX) == desired;
    forall i | 0 <= i < |base|
      ensures GrossShares(topups)[i] == desired[i]
    {
    }
    assert GrossShares(topups) == desired;
  }

  /** amount is the least number of e8s that converts to at least target cycles. */
  ghost predicate LeastCovering(amount: nat, rate: U128, target: U128) {
    amount * rate >= target && (amount - 1) * rate < target
  }

  function ExactCeil(n: nat, d: nat): nat
    requires d > 0
  {
    (n + d - 1) / d
  }

  lemma ExactCeilIsLeast(n: nat, d: nat)
    requires d > 0
    ensures ExactCeil(n, d) * d >= n && (ExactCeil(n, d) - 1) * d < n
    ensures n > 0 ==> ExactCeil(n, d) >= 1
  {
    DivMod(n + d - 1, d);
    var q := ExactCeil(n, d);
    assert (q - 1) * d == q * d - d;
    if n > 0 {
      PositiveFactor(q, d);
    }
  }

  /** Below the range where 128-bit padding saturates, the planner's ceiling is exact. */
  lemma CeilDivExact(target: U128, rate: U128)
    requires 0 < rate <= U64_MAX && target > 0
    ensures Min(CeilDiv(target, rate), U64_MAX) == Min(ExactCeil(target, rate), U64_MAX)
  {
    if target + rate - 1 > U128_MAX {
      MulLeq(rate, U64_MAX, U64_MAX);
      assert U64_MAX * rate <= U128_MAX;
      FloorAtLeast(U128_MAX, rate, U64_MAX);
      FloorAtLeast(target + rate - 1, rate, U64_MAX);
    }
  }

  /**
   A fully funded canister gets the least amount that covers its target exactly when that amount and
   the fee fit in 64 bits together. The rate is one the CMC can report, hence below 2^64.
   */
  lemma FullFundingCovers(plan: AllocationPlan, obs: Observations, available: U64, fee: U64, rate: U128, i: nat)
    requires IsTopupPlan(plan, obs, available, fee, rate)
    requires plan.topupPhaseFullyFunded && i < |plan.topups|
    requires 0 < rate <= U64_MAX && plan.topups[i].targetTopupCycles > 0
    ensures LeastCovering(plan.topups[i].amountE8s, rate, plan.topups[i].targetTopupCycles)
            <==> ExactCeil(plan.topups[i].targetTopupCycles, rate) + fee <= U64_MAX
  {
    var base := BurnPlans(obs, true);
    var target := base[i].targetTopupCycles;
    var least := ExactCeil(target, rate);
    ExactCeilIsLeast(target, rate);
    CeilDivExact(target, rate);
    assert plan.topups[i].targetTopupCycles == target;
    var amount := plan.topups[i].amountE8s;
    var desired := DesiredAmounts(base, rate, fee);
    assert Allotted(desired, available)[i] == desired[i];
    if least + fee <= U64_MAX {
      assert amount == least;
    } else {
      assert amount < least;
      MulLeq(amount, least - 1, rate);
    }
  }

  /** An under-funded round gives nobody more than the need it priced, and blocks the surplus phase. */
  lemma UnderFundingIsCapped(plan: AllocationPlan, obs: Observations, available: U64, fee: U64, rate: U128, i: nat)
    requires IsTopupPlan(plan, obs, available, fee, rate)
    requires !plan.topupPhaseFullyFunded && i < |plan.topups| && rate > 0
    ensures plan.skippedSurplusReason == Some(InsufficientBalanceForTopups)
    ensures plan.topups[i].amountE8s <= TopupNetE8s(plan.topups[i].targetTopupCycles, rate)
    ensures plan.topups[i].amountE8s == 0 ==> plan.topups[i].skippedReason.Some?
    ensures plan.topups[i].skippedReason != Some(InsufficientBalanceForTopups)
  {
    var base := BurnPlans(obs, true);
    assert plan.topups[i].targetTopupCycles == base[i].targetTopupCycles;
  }

  /** The target is the carried deficit plus burn with 1% headroom, rounded up, unless 128 bits overflow. */
  lemma HeadroomIsExact(burn: U128)
    ensures TargetTopupCycles(burn) == ExactCeil(burn * 101, 100) <==> burn * 101 <= U128_MAX - 55
    ensures TargetTopupCycles(burn) <= ExactCeil(burn * 101, 100)
  {
    var n := burn * 101;
    if n == 0 {
    } else if n <= U128_MAX - 55 {
      if n + 99 > U128_MAX {
        assert U128_MAX / 100 * 100 + 55 == U128_MAX;
      }
    } else {
      FloorMonotone(U128_MAX + 45, n + 99, 100);
    }
  }

  lemma TargetIsNeed(obs: Observations, i: nat)
    requires i < |BurnPlans(obs, true)|
    ensures var p := BurnPlans(obs, true)[i];
            p.burnCycles * 101 <= U128_MAX - 55 && p.carriedDeficitCycles + ExactCeil(p.burnCycles * 101, 100) <= U128_MAX
            ==> p.targetTopupCycles == p.carriedDeficitCycles + ExactCeil(p.burnCycles * 101, 100)
  {
    HeadroomIsExact(BurnPlans(obs, true)[i].burnCycles);
  }
}
