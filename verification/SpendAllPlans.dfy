/** The planner that spends the whole balance on cycles (canisters/relay/src/logic.rs, build_spend_all_cycles_plan). */
module SpendAllPlans {
  import opened Machine
  import opened Arithmetic
  import opened RelayPlans

  function Targets(plans: seq<BurnPlan>): seq<U128> {
    seq(|plans|, i requires 0 <= i < |plans| => plans[i].targetTopupCycles)
  }

  /** available * target / need, with the source's saturations. */
  function SpendShare(available: U64, target: U128, need: U128): U64
    requires need > 0
  {
    if target == 0 then 0
    else
      var product := SatMul128(available, target);
      DivMod(product, need);
      Min(product / need, U64_MAX)
  }

  function FeeEfficient(gross: U64, fee: U64): bool {
    gross >= SatMul128(fee, 2) && gross > fee
  }

  function SpendEntry(plan: BurnPlan, available: U64, need: U128, fee: U64): BurnPlan
    requires need > 0
  {
    if plan.targetTopupCycles == 0 then plan.(skippedReason := Some(ZeroBurn))
    else
      var gross := SpendShare(available, plan.targetTopupCycles, need);
      if FeeEfficient(gross, fee) then plan.(grossShareE8s := gross, amountE8s := gross - fee)
      else plan.(grossShareE8s := gross, skippedReason := Some(BelowFeeEfficientThreshold))
  }

  ghost predicate AnyPayable(topups: seq<BurnPlan>) {
    exists i :: 0 <= i < |topups| && topups[i].amountE8s > 0
  }

  ghost predicate IsSpendAllPlan(plan: AllocationPlan, obs: Observations, available: U64, fee: U64) {
    var base := BurnPlans(obs, false);
    var need := Sum(Targets(base));
    && plan.topupPhaseFullyFunded
    && |plan.topups| == |base|
    && need <= U128_MAX
    && if need <= 0 then
      && plan.skippedSurplusReason == Some(NoPositiveBurn)
      && (forall i :: 0 <= i < |base| ==> plan.topups[i] == base[i].(skippedReason := Some(NoPositiveBurn)))
    else
      && plan.skippedSurplusReason
          == Some(if AnyPayable(plan.topups) then NoRawIcpRecipients else BelowFeeEfficientThreshold)
      && (forall i :: 0 <= i < |base| ==> plan.topups[i] == SpendEntry(base[i], available, need, fee))
  }

  lemma {:induction false} PrefixSums(s: seq<U128>, i: nat)
    requires i < |s|
    ensures Sum(s[..i + 1]) == Sum(s[..i]) + s[i]
    ensures 0 <= Sum(s[..i]) && Sum(s[..i + 1]) <= Sum(s)
  {
    assert s[..i + 1] == s[..i] + [s[i]];
    assert s == s[..i + 1] + s[i + 1..];
    SumLast(s[..i], s[i]);
    SumAppend(s[..i + 1], s[i + 1..]);
    SumNonNegative(s[i + 1..]);
    SumNonNegative(s[..i]);
  }

  /** The sum of the positive targets is the sum of all targets. */
  method TotalPositiveNeed(plans: seq<BurnPlan>) returns (need: U128)
    requires Sum(Targets(plans)) <= U128_MAX
    ensures need == Sum(Targets(plans))
  {
    need := 0;
    ghost var targets := Targets(plans);
    SumNonNegative(targets);
    for i := 0 to |plans|
      invariant need == Sum(targets[..i])
    {
      PrefixSums(targets, i);
      if plans[i].targetTopupCycles > 0 {
        need := need + plans[i].targetTopupCycles;
      }
    }
    assert targets[..|plans|] == targets;
  }

  /** The spending pass over entries that hold nothing yet. */
  method SpendTopups(base: seq<BurnPlan>, available: U64, need: U128, fee: U64)
    returns (topups: seq<BurnPlan>, anyPayable: bool)
    requires need > 0
    requires forall i :: 0 <= i < |base| ==> base[i].amountE8s == 0
    ensures |topups| == |base|
    ensures forall i :: 0 <= i < |base| ==> topups[i] == SpendEntry(base[i], available, need, fee)
    ensures anyPayable <==> AnyPayable(topups)
  {
    hide SpendShare;
    topups, anyPayable := base, false;
    ghost var payable := 0;
    for i := 0 to |base|
      invariant |topups| == |base|
      invariant anyPayable ==> payable < i && topups[payable].amountE8s > 0
      invariant !anyPayable ==> forall j :: 0 <= j < i ==> topups[j].amountE8s == 0
      invariant forall j :: 0 <= j < i ==> topups[j] == SpendEntry(base[j], available, need, fee)
      invariant forall j :: i <= j < |base| ==> topups[j] == base[j]
    {
      if topups[i].targetTopupCycles == 0 {
        topups := topups[i := topups[i].(skippedReason := Some(ZeroBurn))];
      } else {
        var gross := SpendShare(available, topups[i].targetTopupCycles, need);
        topups := topups[i := topups[i].(grossShareE8s := gross)];
        if gross < SatMul128(fee, 2) || gross <= fee {
          topups := topups[i := topups[i].(skippedReason := Some(BelowFeeEfficientThreshold))];
        } else {
          topups := topups[i := topups[i].(amountE8s := gross - fee)];
          anyPayable, payable := true, i;
        }
      }
    }
  }

  /** The sum of the needs must fit in 128 bits, as the source's own sum demands. */
  method BuildSpendAllCyclesPlan(obs: Observations, available: U64, fee: U64) returns (plan: AllocationPlan)
    requires Sum(Targets(BurnPlans(obs, false))) <= U128_MAX
    ensures IsSpendAllPlan(plan, obs, available, fee)
    ensures forall i :: 0 <= i < |plan.topups| ==> Observed(plan.topups[i], obs, false)
  {
    hide SpendShare, SpendEntry, Sum, Observed;
    var base := BurnPlans(obs, false);
    var need := TotalPositiveNeed(base);
    if need == 0 {
      var topups := base;
      for i := 0 to |base|
        invariant |topups| == |base|
        invariant forall j :: 0 <= j < i ==> topups[j] == base[j].(skippedReason := Some(NoPositiveBurn))
        invariant forall j :: i <= j < |base| ==> topups[j] == base[j]
      {
        topups := topups[i := topups[i].(skippedReason := Some(NoPositiveBurn))];
      }
      plan := AllocationPlan(topups, true, Some(NoPositiveBurn));
      SpendingIsObserved(plan, obs, available, fee);
      return plan;
    }
    var topups, anyPayable := SpendTopups(base, available, need, fee);
    plan := AllocationPlan(topups, true, Some(if anyPayable then NoRawIcpRecipients else BelowFeeEfficientThreshold));
    SpendingIsObserved(plan, obs, available, fee);
  }

  lemma SpendShareWithin(available: U64, target: U128, need: U128)
    requires 0 < need && target <= need
    ensures SpendShare(available, target, need) * need <= available * target
    ensures available * target <= U128_MAX ==> available * target < SpendShare(available, target, need) * need + need
  {
    var product := SatMul128(available, target);
    assert product <= available * target;
    MulLeq(target, need, available);
    DivMod(product, need);
    FloorAtMost(product, need, available);
  }

  lemma SpendEntryWithin(plan: BurnPlan, available: U64, need: U128, fee: U64)
    requires 0 < need && plan.targetTopupCycles <= need
    requires plan.grossShareE8s == 0 && plan.amountE8s == 0
    ensures var e := SpendEntry(plan, available, need, fee);
            && e.grossShareE8s == SpendShare(available, plan.targetTopupCycles, need)
            && e.amountE8s == (if e.grossShareE8s >= 2 * fee && e.grossShareE8s > fee then e.grossShareE8s - fee else 0)
            && e.skippedReason == (if plan.targetTopupCycles == 0 then Some(ZeroBurn)
                                   else if e.amountE8s == 0 then Some(BelowFeeEfficientThreshold)
                                   else plan.skippedReason)
  {
    hide SpendShare;
    assert plan.targetTopupCycles == 0 ==> SpendShare(available, plan.targetTopupCycles, need) == 0 by {
      SpendNothing(available, need);
    }
  }

  lemma SpendNothing(available: U64, need: U128)
    requires need > 0
    ensures SpendShare(available, 0, need) == 0
  {
  }

  lemma SpendingIsObserved(plan: AllocationPlan, obs: Observations, available: U64, fee: U64)
    requires IsSpendAllPlan(plan, obs, available, fee)
    ensures forall i :: 0 <= i < |plan.topups| ==> Observed(plan.topups[i], obs, false)
  {
    hide SpendShare, Sum, Observed;
    var base := BurnPlans(obs, false);
    forall i | 0 <= i < |plan.topups|
      ensures Observed(plan.topups[i], obs, false)
    {
      BurnsAreObserved(obs, false, i);
      ObservedKept(base[i], plan.topups[i], obs, false);
    }
  }

  /**
   Entry by entry: the gross share is the floor of the exact proportion of the balance, and it is paid less
   one fee exactly when it is at least two fees and more than one.
   */
  lemma SpendAllEntry(plan: AllocationPlan, obs: Observations, available: U64, fee: U64, i: nat)
    requires IsSpendAllPlan(plan, obs, available, fee) && i < |plan.topups|
    requires 0 < Sum(Targets(BurnPlans(obs, false)))
    ensures var need, p := Sum(Targets(BurnPlans(obs, false))), plan.topups[i];
            && p.targetTopupCycles == Targets(BurnPlans(obs, false))[i] <= need
            && p.grossShareE8s * need <= available * p.targetTopupCycles
            && (available * p.targetTopupCycles <= U128_MAX ==>
                  available * p.targetTopupCycles < p.grossShareE8s * need + need)
            && p.amountE8s == (if p.grossShareE8s >= 2 * fee && p.grossShareE8s > fee then p.grossShareE8s - fee else 0)
            && p.skippedReason == (if p.targetTopupCycles == 0 then Some(ZeroBurn)
                                   else if p.amountE8s == 0 then Some(BelowFeeEfficientThreshold)
                                   else None)
  {
    hide SpendShare, Sum;
    var base := BurnPlans(obs, false);
    var need := Sum(Targets(base));
    MemberWithinSum(Targets(base), i);
    SpendEntryWithin(base[i], available, need, fee);
    SpendShareWithin(available, base[i].targetTopupCycles, need);
  }

  /** The entries' bounds, ready to be summed. */
  lemma GrossBounds(plan: AllocationPlan, obs: Observations, available: U64, fee: U64)
    requires IsSpendAllPlan(plan, obs, available, fee)
    requires 0 < Sum(Targets(BurnPlans(obs, false)))
    ensures var targets: seq<int>, grosses: seq<int> := Targets(BurnPlans(obs, false)), GrossShares(plan.topups);
            var need := Sum(targets);
            && |grosses| == |targets|
            && (forall i :: 0 <= i < |grosses| ==> need * grosses[i] <= available * targets[i])
            && (available * need <= U128_MAX ==>
                  forall i :: 0 <= i < |grosses| ==> available * targets[i] < need * (grosses[i] + 1))
  {
    hide SpendShare, SpendEntry, Sum, BurnPlans, Targets;
    var targets: seq<int>, grosses: seq<int> := Targets(BurnPlans(obs, false)), GrossShares(plan.topups);
    var need := Sum(targets);
    assert |plan.topups| == |targets| by {
      TargetsLength(BurnPlans(obs, false));
    }
    forall i | 0 <= i < |grosses|
      ensures need * grosses[i] <= available * targets[i]
      ensures available * need <= U128_MAX ==> available * targets[i] < need * (grosses[i] + 1)
    {
      hide IsSpendAllPlan, GrossShares;
      SpendAllEntry(plan, obs, available, fee, i);
      GrossIs(plan.topups, i);
      FloorBounds(grosses[i], need, available, targets[i]);
    }
  }

  lemma GrossIs(topups: seq<BurnPlan>, i: nat)
    requires i < |topups|
    ensures GrossShares(topups)[i] == topups[i].grossShareE8s
  {
  }

  lemma FloorBounds(gross: int, need: int, available: nat, target: int)
    requires target <= need && gross * need <= available * target
    requires available * target <= U128_MAX ==> available * target < gross * need + need
    ensures need * gross <= available * target
    ensures available * need <= U128_MAX ==> available * target < need * (gross + 1)
  {
    MulLeq(target, need, available);
    SplitProduct(need, gross, 1);
  }

  lemma TargetsLength(plans: seq<BurnPlan>)
    ensures |Targets(plans)| == |plans|
  {
  }

  lemma NothingSpent(plan: AllocationPlan, obs: Observations, available: U64, fee: U64)
    requires IsSpendAllPlan(plan, obs, available, fee)
    requires Sum(Targets(BurnPlans(obs, false))) <= 0
    ensures Sum(GrossShares(plan.topups)) <= 0
    ensures forall i :: 0 <= i < |plan.topups| ==> plan.topups[i].amountE8s == 0
  {
    hide Sum;
    SumPointwiseLeq(GrossShares(plan.topups), Targets(BurnPlans(obs, false)));
  }

  /** Gross shares never exceed the balance, and paid entries split into amount and fee. */
  lemma SpendAllSolvent(plan: AllocationPlan, obs: Observations, available: U64, fee: U64)
    requires IsSpendAllPlan(plan, obs, available, fee)
    ensures Sum(GrossShares(plan.topups)) <= available
    ensures forall i :: 0 <= i < |plan.topups| && plan.topups[i].amountE8s > 0 ==>
              plan.topups[i].amountE8s + fee == plan.topups[i].grossShareE8s
              && plan.topups[i].amountE8s >= fee
  {
    hide IsSpendAllPlan, BurnPlans, Targets, GrossShares, Sum;
    var targets := Targets(BurnPlans(obs, false));
    var need := Sum(targets);
    var grosses := GrossShares(plan.topups);
    if need > 0 {
      GrossBounds(plan, obs, available, fee);
      ScaledSums(grosses, need, targets, available);
      CancelAtMost(need, Sum(grosses), available);
      forall i | 0 <= i < |plan.topups| && plan.topups[i].amountE8s > 0
        ensures plan.topups[i].amountE8s + fee == plan.topups[i].grossShareE8s && plan.topups[i].amountE8s >= fee
      {
        SpendAllEntry(plan, obs, available, fee, i);
      }
    } else {
      NothingSpent(plan, obs, available, fee);
    }
  }

  lemma {:induction false} ScaledSums(a: seq<int>, c: int, b: seq<int>, d: int)
    requires |a| == |b|
    requires forall i :: 0 <= i < |a| ==> c * a[i] <= d * b[i]
    ensures c * Sum(a) <= d * Sum(b)
  {
    if a != [] {
      ScaledSums(a[1..], c, b[1..], d);
      SplitProduct(c, a[0], Sum(a[1..]));
      SplitProduct(d, b[0], Sum(b[1..]));
    }
  }

  /** Without 128-bit saturation the floors leave less than one e8s per canister unspent. */
  lemma SpendAllExhausts(plan: AllocationPlan, obs: Observations, available: U64, fee: U64)
    requires IsSpendAllPlan(plan, obs, available, fee)
    requires 0 < Sum(Targets(BurnPlans(obs, false)))
    requires available * Sum(Targets(BurnPlans(obs, false))) <= U128_MAX
    ensures available - Sum(GrossShares(plan.topups)) < |plan.topups|
  {
    hide IsSpendAllPlan, BurnPlans, Targets, Sum;
    var targets := Targets(BurnPlans(obs, false));
    var need := Sum(targets);
    var grosses := GrossShares(plan.topups);
    GrossBounds(plan, obs, available, fee);
    SomeTarget(targets);
    PaddedSum(targets, available, grosses, need);
    CancelLess(available, Sum(grosses) + |grosses|, need);
  }

  lemma SomeTarget(targets: seq<int>)
    requires Sum(targets) > 0
    ensures |targets| > 0
  {
  }

  lemma {:induction false} PaddedSum(targets: seq<int>, available: int, grosses: seq<int>, need: int)
    requires |targets| == |grosses|
    requires forall i :: 0 <= i < |grosses| ==> available * targets[i] < need * (grosses[i] + 1)
    ensures available * Sum(targets) <= need * (Sum(grosses) + |grosses|)
    ensures grosses != [] ==> available * Sum(targets) < need * (Sum(grosses) + |grosses|)
  {
    if grosses != [] {
      PaddedSum(targets[1..], available, grosses[1..], need);
      SplitProduct(available, targets[0], Sum(targets[1..]));
      SplitProduct(need, grosses[0] + 1, Sum(grosses[1..]) + |grosses[1..]|);
    }
  }
}
