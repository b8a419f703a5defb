/** Equal surplus shares and the 10-90% splitter plan (canisters/relay/src/logic.rs). */
module SurplusPlans {
  import opened Machine
  import opened Arithmetic
  import opened RelayPlans

  datatype SurplusTransfer = SurplusTransfer(
    target: nat,
    grossShareE8s: U64,
    amountE8s: U64,
    memoLength: Option<nat>,
    skippedReason: Option<SkipReason>)

  /** A resolved recipient, by the identity of its target, with its memo length. */
  datatype Recipient = Recipient(target: nat, memoLength: Option<nat>)

  function EqualGross(recipients: nat, available: U64): U64
    requires recipients > 0
  {
    FloorOfPart(available, recipients);
    available / recipients
  }

  lemma FloorOfPart(n: nat, parts: nat)
    requires parts > 0
    ensures 0 <= n / parts <= n
    ensures parts * (n / parts) <= n < parts * (n / parts) + parts
  {
    DivMod(n, parts);
    MulLeq(1, parts, n / parts);
  }

  lemma ShareBelow(n: nat, parts: nat, c: nat)
    requires parts > 0
    ensures n / parts < c <==> n < c * parts
  {
    DivMod(n, parts);
    if n / parts < c {
      MulLeq(n / parts + 1, c, parts);
    } else {
      MulLeq(c, n / parts, parts);
    }
  }

  function AllocateEqualSurplusShares(recipients: seq<Recipient>, available: U64, fee: U64): seq<SurplusTransfer> {
    if recipients == [] then []
    else
      var gross := EqualGross(|recipients|, available);
      var amount, reason :=
        if gross <= fee then 0 else if gross - fee < MIN_RAW_ICP_RECIPIENT_AMOUNT_E8S then 0 else gross - fee,
        if gross <= fee then Some(GrossShareDoesNotExceedFee)
        else if gross - fee < MIN_RAW_ICP_RECIPIENT_AMOUNT_E8S then Some(RawIcpShareBelowOneIcp)
        else None;
      seq(|recipients|, i requires 0 <= i < |recipients| =>
        SurplusTransfer(recipients[i].target, gross, amount, recipients[i].memoLength, reason))
  }

  method BuildSurplusPlan(recipients: seq<Recipient>, available: U64, fee: U64,
                          estimate: Option<ConversionEstimate>, now: U64)
    returns (transfers: seq<SurplusTransfer>, balance: U64, skipped: Option<SkipReason>)
    ensures !(estimate.Some? && EstimateIsUsable(estimate.value, now)) ==>
              transfers == [] && balance == 0 && skipped == Some(MissingConversionEstimate)
    ensures estimate.Some? && EstimateIsUsable(estimate.value, now) ==>
              transfers == AllocateEqualSurplusShares(recipients, available, fee) && balance == available
    ensures skipped.None? <==> exists i :: 0 <= i < |transfers| && transfers[i].amountE8s > 0
    ensures estimate.Some? && EstimateIsUsable(estimate.value, now) ==>
              skipped == (if recipients == [] then Some(NoSurplusRecipients)
                          else if available == 0 then Some(NoSurplus)
                          else if available < (fee + 1) * |recipients| then Some(GrossShareDoesNotExceedFee)
                          else if available < (fee + 100_000_000) * |recipients| then Some(RawIcpShareBelowOneIcp)
                          else None)
  {
    if !(estimate.Some? && EstimateIsUsable(estimate.value, now)) {
      return [], 0, Some(MissingConversionEstimate);
    }
    transfers := AllocateEqualSurplusShares(recipients, available, fee);
    balance := available;
    if recipients != [] {
      FloorOfPart(available, |recipients|);
      ShareBelow(available, |recipients|, fee + 1);
      ShareBelow(available, |recipients|, fee + 100_000_000);
    }
    if recipients == [] {
      skipped := Some(NoSurplusRecipients);
    } else if available == 0 {
      FloorOfPart(0, |recipients|);
      skipped := Some(NoSurplus);
    } else if transfers[0].amountE8s == 0 {
      // Every transfer carries the same amount and reason, so the first one decides.
      skipped := transfers[0].skippedReason;
    } else {
      skipped := None;
    }
  }

  function SurplusGrosses(transfers: seq<SurplusTransfer>): seq<U64> {
    seq(|transfers|, i requires 0 <= i < |transfers| => transfers[i].grossShareE8s)
  }

  lemma {:induction false} SumConstant(s: seq<int>, c: int)
    requires forall i :: 0 <= i < |s| ==> s[i] == c
    ensures Sum(s) == |s| * c
  {
    if s != [] {
      SumConstant(s[1..], c);
      assert |s| * c == c + (|s| - 1) * c;
    }
  }

  /**
   One transfer per recipient, in order and to its target. The equal shares stay within the balance, leave
   less than one e8s per recipient, and pay out less one fee exactly when that is at least one ICP.
   */
  lemma SurplusSolvent(recipients: seq<Recipient>, available: U64, fee: U64)
    requires recipients != []
    ensures var t := AllocateEqualSurplusShares(recipients, available, fee);
            && |t| == |recipients|
            && available - |t| < Sum(SurplusGrosses(t)) <= available
            && (forall i :: 0 <= i < |t| ==>
                  && t[i].target == recipients[i].target && t[i].memoLength == recipients[i].memoLength
                  && t[i].grossShareE8s * |t| <= available < t[i].grossShareE8s * |t| + |t|
                  && t[i].amountE8s == (if t[i].grossShareE8s >= fee + 100_000_000 then t[i].grossShareE8s - fee else 0)
                  && t[i].skippedReason == (if t[i].grossShareE8s <= fee then Some(GrossShareDoesNotExceedFee)
                                            else if t[i].amountE8s == 0 then Some(RawIcpShareBelowOneIcp)
                                            else None))
  {
    FloorOfPart(available, |recipients|);
    var t := AllocateEqualSurplusShares(recipients, available, fee);
    SumConstant(SurplusGrosses(t), available / |recipients|);
    assert |t| * (available / |recipients|) == available / |recipients| * |t|;
  }

  // ---- splitter plans ----

  datatype SplitterRejection =
    | NotProtocolDefined
    | NoFunds
    | BelowOneIcpNet
    | ShareDoesNotExceedFee
    | CreatedAtOverflow

  datatype SplitterDestination = DefaultAccount | SubaccountOne

  datatype SplitterLegPlan = SplitterLegPlan(
    destination: SplitterDestination,
    grossShareE8s: U64,
    amountE8s: U64,
    feeE8s: U64,
    createdAtTimeNanos: U64)

  /** The source subaccount is the splitter number, so it is not repeated here. */
  datatype SplitterPlan = SplitterPlan(
    splitterNumber: nat,
    percentageToDefault: nat,
    balanceStartE8s: U64,
    defaultLeg: SplitterLegPlan,
    subaccountOneLeg: SplitterLegPlan)

  datatype SplitterResult = Planned(plan: SplitterPlan) | Rejected(reason: SplitterRejection)

  predicate IsSplitterPercentage(number: nat) {
    number % 10 == 0 && 10 <= number <= 90
  }

  function BuildSplitterPlan(number: nat, balance: U64, fee: U64, now: U64): SplitterResult {
    if !IsSplitterPercentage(number) then Rejected(NotProtocolDefined)
    else if balance == 0 then Rejected(NoFunds)
    else if balance <= fee || balance - fee < MIN_RAW_ICP_RECIPIENT_AMOUNT_E8S then Rejected(BelowOneIcpNet)
    else
      DefaultShareFits(number, balance);
      var defaultGross: U64 := balance * number / 100;
      var otherGross: U64 := balance - defaultGross;
      if defaultGross <= fee || otherGross <= fee then Rejected(ShareDoesNotExceedFee)
      else if now + 1 > U64_MAX then Rejected(CreatedAtOverflow)
      else Planned(SplitterPlan(number, number, balance,
                                SplitterLegPlan(DefaultAccount, defaultGross, defaultGross - fee, fee, now),
                                SplitterLegPlan(SubaccountOne, otherGross, otherGross - fee, fee, now + 1)))
  }

  lemma DefaultShareFits(number: nat, balance: U64)
    requires 10 <= number <= 90
    ensures 0 <= balance * number / 100 <= balance
    ensures 100 * (balance * number / 100) <= balance * number < 100 * (balance * number / 100) + 100
  {
    DivMod(balance * number, 100);
    MulLeq(number, 100, balance);
  }

  /** A leg pays its share less the fee to its destination. */
  ghost predicate IsLeg(leg: SplitterLegPlan, destination: SplitterDestination, fee: U64, createdAt: int) {
    && leg.destination == destination && leg.feeE8s == fee && leg.createdAtTimeNanos == createdAt
    && leg.amountE8s > 0 && leg.amountE8s + fee == leg.grossShareE8s
  }

  /**
   An accepted plan spends the whole balance: the number is the percentage that goes to the default account,
   rounded down, the rest goes to subaccount one, and the legs have distinct creation times.
   */
  lemma SplitterConserves(number: nat, balance: U64, fee: U64, now: U64)
    requires BuildSplitterPlan(number, balance, fee, now).Planned?
    ensures var p := BuildSplitterPlan(number, balance, fee, now).plan;
            && p.splitterNumber == p.percentageToDefault == number && p.balanceStartE8s == balance
            && IsLeg(p.defaultLeg, DefaultAccount, fee, now)
            && IsLeg(p.subaccountOneLeg, SubaccountOne, fee, now + 1)
            && p.defaultLeg.amountE8s + p.subaccountOneLeg.amountE8s + 2 * fee == balance
            && 0 <= balance * number - 100 * p.defaultLeg.grossShareE8s < 100
            && 0 <= 100 * p.subaccountOneLeg.grossShareE8s - balance * (100 - number) < 100
  {
    DefaultShareFits(number, balance);
    assert balance * (100 - number) == 100 * balance - balance * number;
  }

  /** Why a plan is refused, in the order of the tests, in terms of the exact shares. */
  lemma SplitterRefusals(number: nat, balance: U64, fee: U64, now: U64)
    ensures var result := BuildSplitterPlan(number, balance, fee, now);
            && (result.Planned? <==>
                  && number in {10, 20, 30, 40, 50, 60, 70, 80, 90} && balance >= fee + 100_000_000
                  && balance * number >= 100 * (fee + 1) && balance * (100 - number) > 100 * fee && now < U64_MAX)
            && (result.Rejected? ==>
                  result.reason ==
                    if number !in {10, 20, 30, 40, 50, 60, 70, 80, 90} then NotProtocolDefined
                    else if balance == 0 then NoFunds
                    else if balance < fee + 100_000_000 then BelowOneIcpNet
                    else if balance * number < 100 * (fee + 1) || balance * (100 - number) <= 100 * fee
                         then ShareDoesNotExceedFee
                    else CreatedAtOverflow)
  {
    PercentagesListed(number);
    if IsSplitterPercentage(number) {
      DefaultShareFits(number, balance);
      assert balance * (100 - number) == 100 * balance - balance * number;
    }
  }

  lemma PercentagesListed(number: nat)
    ensures IsSplitterPercentage(number) <==> number in {10, 20, 30, 40, 50, 60, 70, 80, 90}
  {
    if IsSplitterPercentage(number) {
      assert number == number / 10 * 10 && 1 <= number / 10 <= 9;
    }
  }

  /**
   With a fee below one ninth of an ICP the shares always exceed it, so a plan is accepted exactly when
   the number is a percentage, one ICP remains after a fee, and the clock can still advance.
   */
  lemma SplitterAccepted(number: nat, balance: U64, fee: U64, now: U64)
    requires fee <= 11_111_110
    ensures BuildSplitterPlan(number, balance, fee, now).Planned?
            <==> IsSplitterPercentage(number) && balance >= fee + MIN_RAW_ICP_RECIPIENT_AMOUNT_E8S && now < U64_MAX
    ensures BuildSplitterPlan(number, balance, fee, now) != Rejected(ShareDoesNotExceedFee)
  {
    if IsSplitterPercentage(number) && balance >= fee + MIN_RAW_ICP_RECIPIENT_AMOUNT_E8S {
      DefaultShareFits(number, balance);
      MulLeq(10, number, balance);
      MulLeq(number, 90, balance);
    }
  }

  /** The bound is sharp: one e8s more and the smallest admissible balance is rejected. */
  lemma SplitterFeeBoundIsSharp()
    ensures BuildSplitterPlan(10, 111_111_111, 11_111_111, 0) == Rejected(ShareDoesNotExceedFee)
  {
  }
}
