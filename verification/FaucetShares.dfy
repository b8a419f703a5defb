/** Pro-rata pot shares and time-weighted commitments (canisters/faucet/src/logic.rs). */
module FaucetShares {
  import opened Machine
  import opened Arithmetic

  const NANOS_PER_SECOND := 1_000_000_000

  function RawShare(amount: U64, pot: U64, denominator: U64): U64 {
    if pot == 0 || denominator == 0 then 0
    else
      ProductFits(amount, pot);
      DivMod(amount * pot, denominator);
      Min(SatMul128(amount, pot) / denominator, U64_MAX)
  }

  lemma ProductFits(a: U64, b: U64)
    ensures 0 <= a * b <= U128_MAX
  {
    MulLeq(a, U64_MAX, b);
    MulLeq(b, U64_MAX, U64_MAX);
  }

  function RawShares(amounts: seq<U64>, pot: U64, denominator: U64): (shares: seq<U64>)
    ensures |shares| == |amounts|
  {
    seq(|amounts|, i requires 0 <= i < |amounts| => RawShare(amounts[i], pot, denominator))
  }

  lemma ShareIsFloor(amount: U64, pot: U64, denominator: U64)
    requires amount <= denominator && denominator > 0
    ensures RawShare(amount, pot, denominator) * denominator <= amount * pot
            < RawShare(amount, pot, denominator) * denominator + denominator
    ensures RawShare(amount, pot, denominator) <= pot
  {
    ProductFits(amount, pot);
    DivMod(amount * pot, denominator);
    MulLeq(amount, denominator, pot);
    FloorAtMost(amount * pot, denominator, pot);
  }

  /** For every input the share is the floor of the exact quotient, capped at 64 bits; without a denominator it is zero. */
  lemma ShareIsCappedFloor(amount: U64, pot: U64, denominator: U64)
    ensures var share := RawShare(amount, pot, denominator);
            && (denominator == 0 ==> share == 0)
            && share * denominator <= amount * pot
            && (denominator > 0 && share < U64_MAX ==> amount * pot < share * denominator + denominator)
  {
    ProductFits(amount, pot);
    if denominator > 0 {
      DivMod(amount * pot, denominator);
      MulLeq(RawShare(amount, pot, denominator), amount * pot / denominator, denominator);
    }
  }

  /**
   With a denominator at least the sum of the payout amounts the shares never exceed the pot; with the
   exact sum they leave less than one e8s per commitment.
   */
  lemma PotIsNeverOverspent(amounts: seq<U64>, pot: U64, denominator: U64)
    requires Sum(amounts) <= denominator && denominator > 0
    ensures 0 <= Sum(RawShares(amounts, pot, denominator)) <= pot
    ensures Sum(amounts) == denominator ==> pot - Sum(RawShares(amounts, pot, denominator)) < |amounts|
  {
    hide RawShare, Sum;
    var shares: seq<int> := RawShares(amounts, pot, denominator);
    forall i | 0 <= i < |amounts|
      ensures denominator * shares[i] <= pot * amounts[i] < denominator * (shares[i] + 1)
    {
      MemberWithinSum(amounts, i);
      ShareBetween(amounts[i], pot, denominator);
    }
    SumNonNegative(shares);
    SomeAmount(amounts);
    WeightedSums(shares, denominator, amounts, pot);
    PotArithmetic(denominator, pot, Sum(shares), Sum(amounts), |shares|);
  }

  lemma ShareBetween(amount: U64, pot: U64, denominator: U64)
    requires amount <= denominator && denominator > 0
    ensures denominator * RawShare(amount, pot, denominator) <= pot * amount
            < denominator * (RawShare(amount, pot, denominator) + 1)
  {
    hide RawShare;
    ShareIsFloor(amount, pot, denominator);
    SplitProduct(denominator, RawShare(amount, pot, denominator), 1);
  }

  lemma PotArithmetic(d: nat, pot: nat, shares: int, amounts: int, n: nat)
    requires d > 0 && 0 <= amounts <= d
    requires d * shares <= pot * amounts
    requires n > 0 ==> pot * amounts < d * (shares + n)
    ensures shares <= pot
    ensures amounts == d && n > 0 ==> pot - shares < n
  {
    MulLeq(amounts, d, pot);
    CancelAtMost(d, shares, pot);
    if amounts == d && n > 0 {
      CancelLess(pot, shares + n, d);
    }
  }

  lemma SomeAmount(amounts: seq<U64>)
    ensures Sum(amounts) >= 0
    ensures Sum(amounts) > 0 ==> |amounts| > 0
  {
    SumNonNegative(amounts);
  }

  lemma {:induction false} WeightedSums(shares: seq<int>, d: int, amounts: seq<int>, pot: int)
    requires |shares| == |amounts|
    requires forall i :: 0 <= i < |shares| ==> d * shares[i] <= pot * amounts[i] < d * (shares[i] + 1)
    ensures d * Sum(shares) <= pot * Sum(amounts)
    ensures shares != [] ==> pot * Sum(amounts) < d * (Sum(shares) + |shares|)
  {
    if shares != [] {
      WeightedSums(shares[1..], d, amounts[1..], pot);
      SplitProduct(d, shares[0], Sum(shares[1..]));
      SplitProduct(pot, amounts[0], Sum(amounts[1..]));
      SplitProduct(d, shares[0] + 1, Sum(shares[1..]) + |shares| - 1);
      if |shares| == 1 {
        assert shares[1..] == [] && amounts[1..] == [];
      }
    }
  }

  /** Paid in order, the next share always fits in what the earlier ones left of the pot. */
  lemma NextShareFits(amounts: seq<U64>, pot: U64, denominator: U64, i: nat)
    requires Sum(amounts) <= denominator && denominator > 0 && i < |amounts|
    ensures Sum(RawShares(amounts, pot, denominator)[..i]) + RawShare(amounts[i], pot, denominator) <= pot
  {
    hide RawShare, Sum;
    var head := amounts[..i + 1];
    assert amounts == head + amounts[i + 1..];
    SumAppend(head, amounts[i + 1..]);
    SumNonNegative(amounts[i + 1..]);
    PotIsNeverOverspent(head, pot, denominator);
    SharesOfPrefix(amounts, pot, denominator, i);
    SumLast(RawShares(amounts, pot, denominator)[..i], RawShare(amounts[i], pot, denominator));
  }

  lemma SharesOfPrefix(amounts: seq<U64>, pot: U64, denominator: U64, i: nat)
    requires i < |amounts|
    ensures RawShares(amounts[..i + 1], pot, denominator)
            == RawShares(amounts, pot, denominator)[..i] + [RawShare(amounts[i], pot, denominator)]
  {
    hide RawShare;
  }

  // ---- time weighting ----

  function EffectiveTimestamp(txTimestamp: U64, delaySeconds: U64): U64 {
    SatAdd64(txTimestamp, if delaySeconds * NANOS_PER_SECOND > U64_MAX then U64_MAX else delaySeconds * NANOS_PER_SECOND)
  }

  function WeightedAmount(raw: U64, start: U64, end: U64, effective: U64): U64 {
    if raw == 0 || end <= start then 0
    else if effective <= start then raw
    else if effective >= end then 0
    else
      ProductFits(raw, end - effective);
      DivMod(raw * (end - effective), end - start);
      Min(SatMul128(raw, end - effective) / (end - start), U64_MAX)
  }

  /** How long a commitment takes part in a round. */
  function Participation(start: U64, end: U64, effective: U64): nat {
    Max(0, end - Max(start, effective))
  }

  predicate Straddles(start: U64, end: U64, effective: U64) {
    start < effective < end
  }

  /** One round: zero before, full after, and a floor of the exact stake-time in between. */
  lemma RoundWeight(raw: U64, start: U64, end: U64, effective: U64)
    requires start <= end
    ensures var w := WeightedAmount(raw, start, end, effective);
            var loss := RoundLoss(raw, start, end, effective);
            && 0 <= loss
            && (if Straddles(start, end, effective) then loss < RoundLength(start, end) else loss == 0)
            && (effective >= end ==> w == 0)
            && (effective <= start < end ==> w == raw)
  {
    if Straddles(start, end, effective) {
      var part := end - effective;
      ProductFits(raw, part);
      DivMod(raw * part, end - start);
      MulLeq(part, end - start, raw);
      FloorAtMost(raw * part, end - start, raw);
    }
  }

  /** Boundaries of back-to-back rounds. */
  ghost predicate Boundaries(times: seq<U64>) {
    forall i :: 0 < i < |times| ==> times[i - 1] <= times[i]
  }

  function RoundLength(start: U64, end: U64): int {
    end as int - start as int
  }

  function StakeTime(raw: U64, times: seq<U64>, effective: U64): int {
    if |times| < 2 then 0
    else WeightedAmount(raw, times[0], times[1], effective) * RoundLength(times[0], times[1])
         + StakeTime(raw, times[1..], effective)
  }

  /** What rounding takes from the exact stake-time of one round. */
  function RoundLoss(raw: U64, start: U64, end: U64, effective: U64): int {
    raw * Participation(start, end, effective) - WeightedAmount(raw, start, end, effective) * RoundLength(start, end)
  }

  function TotalLoss(raw: U64, times: seq<U64>, effective: U64): int {
    if |times| < 2 then 0
    else RoundLoss(raw, times[0], times[1], effective) + TotalLoss(raw, times[1..], effective)
  }

  ghost predicate StraddledRound(times: seq<U64>, effective: U64, i: nat) {
    i + 1 < |times| && Straddles(times[i], times[i + 1], effective)
  }

  lemma {:induction false} BoundariesOrdered(times: seq<U64>, i: nat, j: nat)
    requires Boundaries(times) && i <= j < |times|
    ensures times[i] <= times[j]
  {
    if i < j {
      BoundariesOrdered(times, i, j - 1);
    }
  }

  /** At most one round is partial. */
  lemma OneStraddledRound(times: seq<U64>, effective: U64, i: nat, j: nat)
    requires Boundaries(times)
    requires StraddledRound(times, effective, i) && StraddledRound(times, effective, j)
    ensures i == j
  {
    if i < j {
      BoundariesOrdered(times, i + 1, j);
    } else if j < i {
      BoundariesOrdered(times, j + 1, i);
    }
  }

  lemma {:induction false} StakeTimeAndLoss(raw: U64, times: seq<U64>, effective: U64)
    requires Boundaries(times) && |times| >= 1
    ensures StakeTime(raw, times, effective) + TotalLoss(raw, times, effective)
            == raw * Participation(times[0], times[|times| - 1], effective)
  {
    hide WeightedAmount, Participation;
    var last := times[|times| - 1];
    if |times| >= 2 {
      var rest := times[1..];
      assert last == rest[|rest| - 1];
      StakeTimeAndLoss(raw, rest, effective);
      BoundariesOrdered(times, 1, |times| - 1);
      ParticipationSplits(times[0], times[1], last, effective);
      SplitProduct(raw, Participation(times[0], times[1], effective), Participation(times[1], last, effective));
    } else {
      NoParticipation(last, effective);
    }
  }

  lemma NoParticipation(t: U64, effective: U64)
    ensures Participation(t, t, effective) == 0
  {
  }

  /** Only a straddled round loses anything, and less than its length. */
  lemma {:induction false} LossIsOneRound(raw: U64, times: seq<U64>, effective: U64) returns (straddled: Option<nat>)
    requires Boundaries(times)
    ensures straddled.None? ==> TotalLoss(raw, times, effective) == 0
    ensures straddled.Some? ==>
              StraddledRound(times, effective, straddled.value)
              && 0 <= TotalLoss(raw, times, effective)
                 < RoundLength(times[straddled.value], times[straddled.value + 1])
  {
    hide RoundLoss, WeightedAmount;
    straddled := None;
    if |times| >= 2 {
      RoundWeight(raw, times[0], times[1], effective);
      var later := LossIsOneRound(raw, times[1..], effective);
      if later.Some? {
        assert StraddledRound(times, effective, later.value + 1);
        straddled := Some(later.value + 1);
        if StraddledRound(times, effective, 0) {
          OneStraddledRound(times, effective, 0, later.value + 1);
          assert false;
        }
      } else if StraddledRound(times, effective, 0) {
        straddled := Some(0);
      }
    }
  }

  /**
   Stake-time is conserved: over all rounds together it is the amount times the participating time, short
   only by the rounding of the straddled round, if there is one.
   */
  lemma StakeTimeConserved(raw: U64, times: seq<U64>, effective: U64)
    requires Boundaries(times) && |times| >= 1
    ensures var loss := raw * Participation(times[0], times[|times| - 1], effective) - StakeTime(raw, times, effective);
            || loss == 0
            || exists i: nat :: StraddledRound(times, effective, i) && 0 <= loss < RoundLength(times[i], times[i + 1])
  {
    hide StakeTime, TotalLoss, Participation;
    StakeTimeAndLoss(raw, times, effective);
    var straddled := LossIsOneRound(raw, times, effective);
  }

  lemma ParticipationSplits(a: U64, b: U64, c: U64, effective: U64)
    requires a <= b <= c
    ensures Participation(a, c, effective) == Participation(a, b, effective) + Participation(b, c, effective)
  {
  }

  /** commitment_amount_for_payout_e8s: None outside the tranche. */
  function PayoutAmount(amount: U64, txId: U64, txTimestamp: Option<U64>, roundStart: Option<U64>,
                        roundEndTx: Option<U64>, roundEnd: U64, delaySeconds: U64): Option<U64>
  {
    if roundEndTx.Some? && txId > roundEndTx.value then None
    else if roundStart.None? then
      Some(if txTimestamp.Some? && EffectiveTimestamp(txTimestamp.value, delaySeconds) <= roundEnd then amount else 0)
    else if roundEnd <= roundStart.value then Some(0)
    else
      var observed := if txTimestamp.Some? then txTimestamp.value else roundEnd;
      Some(WeightedAmount(amount, roundStart.value, roundEnd, EffectiveTimestamp(observed, delaySeconds)))
  }

  /** Recognition comes a whole number of seconds after the transfer, capped at the last representable instant. */
  lemma EffectiveIsDelayed(txTimestamp: U64, delaySeconds: U64)
    ensures EffectiveTimestamp(txTimestamp, delaySeconds) == Min(txTimestamp + 1_000_000_000 * delaySeconds, U64_MAX)
  {
  }

  /**
   A commitment outside the tranche has no amount, and one without a timestamp never counts. The first round
   takes whole commitments recognised by its end. A later one takes the amount in proportion to the part of
   the round after recognition, rounded down, and the whole amount exactly when recognised by its start.
   */
  lemma PayoutAmountIsProRata(amount: U64, txId: U64, txTimestamp: Option<U64>, roundStart: Option<U64>,
                              roundEndTx: Option<U64>, roundEnd: U64, delaySeconds: U64)
    ensures var r := PayoutAmount(amount, txId, txTimestamp, roundStart, roundEndTx, roundEnd, delaySeconds);
            var start: int := if roundStart.Some? then roundStart.value else 0;
            var recognised: int := (if txTimestamp.Some? then txTimestamp.value else 0) + 1_000_000_000 * delaySeconds;
            && (r.None? <==> roundEndTx.Some? && txId > roundEndTx.value)
            && (r.Some? && txTimestamp.None? ==> r.value == 0)
            && (r.Some? && txTimestamp.Some? && roundStart.None? ==>
                  r.value == if Min(recognised, U64_MAX) <= roundEnd then amount else 0)
            && (r.Some? && roundStart.Some? && roundEnd <= start ==> r.value == 0)
            && (r.Some? && txTimestamp.Some? && roundStart.Some? && start < roundEnd ==>
                  var part := Max(0, roundEnd - Max(start, recognised));
                  && r.value * (roundEnd - start) <= amount * part < r.value * (roundEnd - start) + (roundEnd - start)
                  && (amount > 0 ==> (r.value == amount <==> recognised <= start)))
  {
    if roundStart.Some? && roundStart.value < roundEnd {
      var start := roundStart.value;
      var observed := if txTimestamp.Some? then txTimestamp.value else roundEnd;
      var effective := EffectiveTimestamp(observed, delaySeconds);
      RoundWeight(amount, start, roundEnd, effective);
      if Straddles(start, roundEnd, effective) {
        PartialIsLess(amount, start, roundEnd, effective);
      }
    }
  }

  lemma PartialIsLess(raw: U64, start: U64, end: U64, effective: U64)
    requires Straddles(start, end, effective)
    ensures WeightedAmount(raw, start, end, effective) <= raw
    ensures raw > 0 ==> WeightedAmount(raw, start, end, effective) < raw
  {
    RoundWeight(raw, start, end, effective);
    var w := WeightedAmount(raw, start, end, effective);
    if raw > 0 {
      MulLess(end - effective, end - start, raw);
      CancelLess(w, raw, end - start);
    }
  }
}
