/**
 Accounting of a payout job (canisters/faucet/src/logic.rs and the transfer lifecycle around it in
 canisters/faucet/src/scheduler): the pot, the gross outflow, and what beneficiaries received.
 */
module PayoutJobs {
  import opened Machine
  import opened Arithmetic

  datatype TransferKind = Beneficiary | CyclesTopUpRawFallback | RawIcp | NeuronStake | RemainderToRelay

  datatype Notification = Notification(kind: TransferKind, beneficiary: Principal, grossShareE8s: U64, amountE8s: U64)

  datatype Pending = Pending(notification: Notification, accepted: bool)

  datatype Job = Job(
    potStartE8s: U64,
    feeE8s: U64,
    grossOutflowE8s: U64,
    toppedUpCount: U64,
    toppedUpSumE8s: U64,
    toppedUpMinE8s: Option<U64>,
    toppedUpMaxE8s: Option<U64>,
    failedTopups: U64,
    ambiguousTopups: U64,
    remainderToRelayE8s: U64,
    pending: Option<Pending>)

  function NewJob(pot: U64, fee: U64): Job {
    Job(pot, fee, 0, 0, 0, None, None, 0, 0, 0, None)
  }

  function RecordAccepted(job: Job, n: Notification): Job {
    job.(grossOutflowE8s := SatAdd64(job.grossOutflowE8s, n.grossShareE8s))
  }

  function ApplyNotified(job: Job, n: Notification): Job {
    if n.kind == RemainderToRelay then job.(remainderToRelayE8s := n.amountE8s)
    else
      var least := if job.toppedUpMinE8s.Some? then Min(job.toppedUpMinE8s.value, n.amountE8s) else n.amountE8s;
      var greatest := if job.toppedUpMaxE8s.Some? then Max(job.toppedUpMaxE8s.value, n.amountE8s) else n.amountE8s;
      job.(toppedUpCount := SatAdd64(job.toppedUpCount, 1),
           toppedUpSumE8s := SatAdd64(job.toppedUpSumE8s, n.amountE8s),
           toppedUpMinE8s := Some(least),
           toppedUpMaxE8s := Some(greatest))
  }

  /** The remaining pot a summary reports. */
  function PotRemaining(job: Job): U64 {
    SatSub(job.potStartE8s, job.grossOutflowE8s)
  }

  class ActivePayoutJob {
    const potStartE8s: U64
    const feeE8s: U64
    var grossOutflowE8s: U64
    var toppedUpCount: U64
    var toppedUpSumE8s: U64
    var toppedUpMinE8s: Option<U64>
    var toppedUpMaxE8s: Option<U64>
    var failedTopups: U64
    var ambiguousTopups: U64
    var remainderToRelayE8s: U64
    var pending: Option<Pending>

    constructor (pot: U64, fee: U64)
      ensures State() == NewJob(pot, fee)
    {
      potStartE8s, feeE8s, grossOutflowE8s := pot, fee, 0;
      toppedUpCount, toppedUpSumE8s, toppedUpMinE8s, toppedUpMaxE8s := 0, 0, None, None;
      failedTopups, ambiguousTopups, remainderToRelayE8s, pending := 0, 0, 0, None;
    }

    function State(): Job
      reads this
    {
      Job(potStartE8s, feeE8s, grossOutflowE8s, toppedUpCount, toppedUpSumE8s, toppedUpMinE8s, toppedUpMaxE8s,
          failedTopups, ambiguousTopups, remainderToRelayE8s, pending)
    }

    method RecordLedgerAcceptedTransfer(n: Notification)
      modifies this
      ensures State() == RecordAccepted(old(State()), n)
    {
      grossOutflowE8s := SatAdd64(grossOutflowE8s, n.grossShareE8s);
    }

    method ApplyNotifiedTransfer(n: Notification)
      modifies this
      ensures State() == ApplyNotified(old(State()), n)
    {
      match n.kind {
        case RemainderToRelay => remainderToRelayE8s := n.amountE8s;
        case _ =>
          toppedUpCount := SatAdd64(toppedUpCount, 1);
          toppedUpSumE8s := SatAdd64(toppedUpSumE8s, n.amountE8s);
          toppedUpMinE8s := Some(if toppedUpMinE8s.Some? then Min(toppedUpMinE8s.value, n.amountE8s) else n.amountE8s);
          toppedUpMaxE8s := Some(if toppedUpMaxE8s.Some? then Max(toppedUpMaxE8s.value, n.amountE8s) else n.amountE8s);
      }
    }
  }

  // ---- the transfer lifecycle ----

  datatype Event =
    | Stage(notification: Notification)
    | Accept
    | Notify
    | Abandon(failed: bool)
    | Reserve
    | Refund

  /** A staged transfer fits in the rest of the pot and pays its gross share less one fee. */
  predicate CanStage(job: Job, n: Notification) {
    && job.pending.None?
    && n.grossShareE8s > job.feeE8s && n.amountE8s + job.feeE8s == n.grossShareE8s
    && job.grossOutflowE8s + n.grossShareE8s <= job.potStartE8s
  }

  /** The source's saturating test of the pot is the exact one unless the pot is u64::MAX itself. */
  lemma PotGuardIsExact(job: Job, gross: U64)
    ensures (SatAdd64(job.grossOutflowE8s, gross) <= job.potStartE8s <==> job.grossOutflowE8s + gross <= job.potStartE8s)
            <==> job.potStartE8s < U64_MAX || job.grossOutflowE8s + gross <= U64_MAX
  {
  }

  /** What the cycles minter credits back for a refunded top-up: the amount less three fees. */
  function RefundCredit(job: Job, n: Notification): int {
    n.amountE8s - job.feeE8s - 2 * job.feeE8s
  }

  ghost predicate Enabled(job: Job, e: Event) {
    match e
    case Stage(n) => CanStage(job, n)
    case Accept => job.pending.Some? && !job.pending.value.accepted
    case Notify => job.pending.Some? && job.pending.value.accepted
    case Abandon(_) => job.pending.Some?
    case Reserve =>
      job.pending.Some? && !job.pending.value.accepted
      && job.grossOutflowE8s + job.pending.value.notification.grossShareE8s <= job.potStartE8s
    case Refund =>
      job.pending.Some? && job.pending.value.accepted && job.pending.value.notification.kind == Beneficiary
      && 0 <= RefundCredit(job, job.pending.value.notification) <= job.grossOutflowE8s
  }

  function Cleared(job: Job, failed: bool): Job
    requires job.pending.Some?
  {
    var beneficiary := job.pending.value.notification.kind != RemainderToRelay;
    job.(pending := None,
         failedTopups := if beneficiary && failed then SatAdd64(job.failedTopups, 1) else job.failedTopups,
         ambiguousTopups := if beneficiary && !failed then SatAdd64(job.ambiguousTopups, 1) else job.ambiguousTopups)
  }

  ghost function Next(job: Job, e: Event): Job
    requires Enabled(job, e)
  {
    match e
    case Stage(n) => job.(pending := Some(Pending(n, false)))
    case Accept =>
      RecordAccepted(job, job.pending.value.notification).(pending := Some(job.pending.value.(accepted := true)))
    case Notify => ApplyNotified(job, job.pending.value.notification).(pending := None)
    case Abandon(failed) => Cleared(job, failed)
    case Reserve => Cleared(RecordAccepted(job, job.pending.value.notification), false)
    case Refund =>
      var n := job.pending.value.notification;
      var credit: U64 := RefundCredit(job, n);
      var released := job.(grossOutflowE8s := job.grossOutflowE8s - credit);
      if credit <= job.feeE8s then Cleared(released, true)
      else released.(pending := Some(Pending(Notification(CyclesTopUpRawFallback, n.beneficiary, credit, credit - job.feeE8s), false)))
  }

  /** The amounts beneficiaries were notified of, in order. */
  ghost function PaidBy(job: Job, e: Event): seq<U64>
    requires Enabled(job, e)
  {
    if e.Notify? && job.pending.value.notification.kind != RemainderToRelay
    then [job.pending.value.notification.amountE8s] else []
  }

  ghost predicate Run(jobs: seq<Job>, events: seq<Event>, pot: U64, fee: U64) {
    && |jobs| == |events| + 1
    && jobs[0] == NewJob(pot, fee)
    && forall i :: 0 <= i < |events| ==> Enabled(jobs[i], events[i]) && jobs[i + 1] == Next(jobs[i], events[i])
  }

  ghost function Paid(jobs: seq<Job>, events: seq<Event>, k: nat): seq<U64>
    requires k <= |events| < |jobs|
    requires forall i :: 0 <= i < |events| ==> Enabled(jobs[i], events[i])
  {
    if k == 0 then [] else Paid(jobs, events, k - 1) + PaidBy(jobs[k - 1], events[k - 1])
  }

  function Committed(job: Job): nat {
    if job.pending.Some? && job.pending.value.accepted then job.pending.value.notification.grossShareE8s else 0
  }

  /** The pot covers the outflow, and the outflow covers everything paid or accepted. */
  ghost predicate Funded(job: Job) {
    && job.grossOutflowE8s <= job.potStartE8s
    && job.toppedUpSumE8s + job.remainderToRelayE8s + Committed(job) <= job.grossOutflowE8s
    && (job.pending.Some? ==>
          var n := job.pending.value.notification;
          && n.grossShareE8s > job.feeE8s && n.amountE8s + job.feeE8s == n.grossShareE8s
          && (!job.pending.value.accepted ==> job.grossOutflowE8s + n.grossShareE8s <= job.potStartE8s))
  }

  ghost predicate IsLeast(m: U64, s: seq<U64>) {
    (exists i :: 0 <= i < |s| && s[i] == m) && forall i :: 0 <= i < |s| ==> m <= s[i]
  }

  ghost predicate IsGreatest(m: U64, s: seq<U64>) {
    (exists i :: 0 <= i < |s| && s[i] == m) && forall i :: 0 <= i < |s| ==> s[i] <= m
  }

  /** The counters are the statistics of the paid amounts. */
  ghost predicate Accounts(job: Job, paid: seq<U64>) {
    && job.toppedUpCount == |paid| && job.toppedUpSumE8s == Sum(paid)
    && (forall i :: 0 <= i < |paid| ==> paid[i] > 0)
    && (if paid == [] then job.toppedUpMinE8s.None? && job.toppedUpMaxE8s.None?
        else job.toppedUpMinE8s.Some? && job.toppedUpMaxE8s.Some?
             && IsLeast(job.toppedUpMinE8s.value, paid) && IsGreatest(job.toppedUpMaxE8s.value, paid))
  }

  lemma StepIsFunded(job: Job, e: Event)
    requires Enabled(job, e) && Funded(job)
    ensures Funded(Next(job, e))
    ensures Next(job, e).potStartE8s == job.potStartE8s && Next(job, e).feeE8s == job.feeE8s
  {
  }

  lemma {:induction false} CountAtMostSum(paid: seq<U64>)
    requires forall i :: 0 <= i < |paid| ==> paid[i] > 0
    ensures |paid| <= Sum(paid)
  {
    if paid != [] {
      CountAtMostSum(paid[1..]);
    }
  }

  lemma NotifyAccounts(job: Job, n: Notification, paid: seq<U64>)
    requires Accounts(job, paid) && n.kind != RemainderToRelay && n.amountE8s > 0
    requires job.toppedUpSumE8s + n.amountE8s <= U64_MAX
    ensures Accounts(ApplyNotified(job, n), paid + [n.amountE8s])
  {
    var all := paid + [n.amountE8s];
    var after := ApplyNotified(job, n);
    CountAtMostSum(paid);
    SumLast(paid, n.amountE8s);
    assert all[|paid|] == n.amountE8s;
    if paid != [] {
      var i :| 0 <= i < |paid| && paid[i] == job.toppedUpMinE8s.value;
      var j :| 0 <= j < |paid| && paid[j] == job.toppedUpMaxE8s.value;
      assert all[i] == paid[i] && all[j] == paid[j];
    }
    assert IsLeast(after.toppedUpMinE8s.value, all);
    assert IsGreatest(after.toppedUpMaxE8s.value, all);
  }

  /** A beneficiary's transfer that ends in failure: abandoned as failed, or refunded with too little left for a fallback. */
  ghost predicate Fails(job: Job, e: Event)
    requires Enabled(job, e)
  {
    && !e.Stage? && job.pending.value.notification.kind != RemainderToRelay
    && (e == Abandon(true) || (e.Refund? && job.pending.value.notification.amountE8s <= 4 * job.feeE8s))
  }

  /** A beneficiary's transfer whose outcome stays unknown. */
  ghost predicate IsAmbiguous(job: Job, e: Event)
    requires Enabled(job, e)
  {
    !e.Stage? && job.pending.value.notification.kind != RemainderToRelay && (e == Abandon(false) || e.Reserve?)
  }

  ghost function Failures(jobs: seq<Job>, events: seq<Event>, k: nat): nat
    requires k <= |events| < |jobs|
    requires forall i :: 0 <= i < |events| ==> Enabled(jobs[i], events[i])
  {
    if k == 0 then 0 else Failures(jobs, events, k - 1) + if Fails(jobs[k - 1], events[k - 1]) then 1 else 0
  }

  ghost function Ambiguities(jobs: seq<Job>, events: seq<Event>, k: nat): nat
    requires k <= |events| < |jobs|
    requires forall i :: 0 <= i < |events| ==> Enabled(jobs[i], events[i])
  {
    if k == 0 then 0 else Ambiguities(jobs, events, k - 1) + if IsAmbiguous(jobs[k - 1], events[k - 1]) then 1 else 0
  }

  /** The net amount of the remainder transfer notified last. */
  ghost function LastRemainder(jobs: seq<Job>, events: seq<Event>, k: nat): nat
    requires k <= |events| < |jobs|
    requires forall i :: 0 <= i < |events| ==> Enabled(jobs[i], events[i])
  {
    if k == 0 then 0
    else if Enabled(jobs[k - 1], events[k - 1]) && events[k - 1].Notify?
            && jobs[k - 1].pending.value.notification.kind == RemainderToRelay
         then jobs[k - 1].pending.value.notification.amountE8s
    else LastRemainder(jobs, events, k - 1)
  }

  /** The failure counters count their events, up to saturation, and the remainder is the one notified last. */
  lemma {:induction false} OutcomesAreCounted(jobs: seq<Job>, events: seq<Event>, pot: U64, fee: U64, k: nat)
    requires Run(jobs, events, pot, fee) && k <= |events|
    ensures jobs[k].failedTopups == Min(Failures(jobs, events, k), U64_MAX)
    ensures jobs[k].ambiguousTopups == Min(Ambiguities(jobs, events, k), U64_MAX)
    ensures jobs[k].remainderToRelayE8s == LastRemainder(jobs, events, k)
  {
    if k > 0 {
      OutcomesAreCounted(jobs, events, pot, fee, k - 1);
      assert jobs[k] == Next(jobs[k - 1], events[k - 1]) && Enabled(jobs[k - 1], events[k - 1]);
    }
  }

  /** What was accepted or reserved so far, less what refunds gave back. */
  ghost function NetAccepted(jobs: seq<Job>, events: seq<Event>, k: nat): int
    requires k <= |events| < |jobs|
    requires forall i :: 0 <= i < |events| ==> Enabled(jobs[i], events[i])
  {
    if k == 0 then 0
    else NetAccepted(jobs, events, k - 1) + AcceptedBy(jobs[k - 1], events[k - 1])
  }

  ghost function AcceptedBy(job: Job, e: Event): int
    requires Enabled(job, e)
  {
    match e
    case Accept => job.pending.value.notification.grossShareE8s
    case Reserve => job.pending.value.notification.grossShareE8s
    case Refund => 4 * job.feeE8s - job.pending.value.notification.grossShareE8s
    case _ => 0
  }

  /** The outflow is exactly what was accepted or reserved, net of refunds. */
  lemma {:induction false} OutflowIsAccepted(jobs: seq<Job>, events: seq<Event>, pot: U64, fee: U64, k: nat)
    requires Run(jobs, events, pot, fee) && k <= |events|
    ensures jobs[k].grossOutflowE8s == NetAccepted(jobs, events, k)
  {
    if k > 0 {
      OutflowIsAccepted(jobs, events, pot, fee, k - 1);
      RunBalances(jobs, events, pot, fee, k - 1);
      assert jobs[k] == Next(jobs[k - 1], events[k - 1]) && Enabled(jobs[k - 1], events[k - 1]);
    }
  }

  /**
   Refunding a top-up costs the pot four fees of the gross share; what is left is staged for the same
   beneficiary as a raw transfer if it exceeds one more fee.
   */
  lemma RefundCostsFourFees(job: Job)
    requires Funded(job) && Enabled(job, Refund)
    ensures var n, after := job.pending.value.notification, Next(job, Refund);
            && job.grossOutflowE8s - after.grossOutflowE8s == n.grossShareE8s - 4 * job.feeE8s
            && (after.pending.Some? <==> n.grossShareE8s > 5 * job.feeE8s)
            && (after.pending.Some? ==>
                  && !after.pending.value.accepted
                  && after.pending.value.notification.beneficiary == n.beneficiary
                  && after.pending.value.notification.kind == CyclesTopUpRawFallback
                  && after.pending.value.notification.amountE8s == n.grossShareE8s - 5 * job.feeE8s)
  {
  }

  /** Over every run the books balance. */
  lemma {:induction false} RunBalances(jobs: seq<Job>, events: seq<Event>, pot: U64, fee: U64, k: nat)
    requires Run(jobs, events, pot, fee) && k <= |events|
    ensures Funded(jobs[k]) && jobs[k].potStartE8s == pot && jobs[k].feeE8s == fee
    ensures Accounts(jobs[k], Paid(jobs, events, k))
  {
    hide Funded, Accounts, Next;
    if k == 0 {
      NewJobBalances(pot, fee);
    } else {
      RunBalances(jobs, events, pot, fee, k - 1);
      var job, e := jobs[k - 1], events[k - 1];
      assert jobs[k] == Next(job, e) && Enabled(job, e);
      StepIsFunded(job, e);
      StepAccounts(job, e, Paid(jobs, events, k - 1));
    }
  }

  lemma NewJobBalances(pot: U64, fee: U64)
    ensures Funded(NewJob(pot, fee)) && Accounts(NewJob(pot, fee), [])
  {
  }

  lemma StepAccounts(job: Job, e: Event, paid: seq<U64>)
    requires Enabled(job, e) && Funded(job) && Accounts(job, paid)
    ensures Accounts(Next(job, e), paid + PaidBy(job, e))
  {
    assert paid + [] == paid;
    if e.Notify? && job.pending.value.notification.kind != RemainderToRelay {
      NotifyAccounts(job, job.pending.value.notification, paid);
    }
  }

  /**
   Over every run: outflow plus remaining pot is the pot, what was paid out net never exceeds the outflow,
   and the sum lies between the least and the greatest payment times the count.
   */
  lemma PotConserved(jobs: seq<Job>, events: seq<Event>, pot: U64, fee: U64, k: nat)
    requires Run(jobs, events, pot, fee) && k <= |events|
    ensures var job := jobs[k];
            && job.grossOutflowE8s + PotRemaining(job) == pot
            && job.toppedUpSumE8s + job.remainderToRelayE8s <= job.grossOutflowE8s
            && job.toppedUpCount == |Paid(jobs, events, k)|
            && job.toppedUpSumE8s == Sum(Paid(jobs, events, k))
            && (job.toppedUpCount > 0 ==>
                  && job.toppedUpMinE8s.Some? && job.toppedUpMaxE8s.Some?
                  && job.toppedUpMinE8s.value * job.toppedUpCount <= job.toppedUpSumE8s
                     <= job.toppedUpMaxE8s.value * job.toppedUpCount)
  {
    RunBalances(jobs, events, pot, fee, k);
    var paid := Paid(jobs, events, k);
    if paid != [] {
      SumBetween(paid, jobs[k].toppedUpMinE8s.value, jobs[k].toppedUpMaxE8s.value);
    }
  }

  lemma {:induction false} SumBetween(s: seq<U64>, low: nat, high: nat)
    requires forall i :: 0 <= i < |s| ==> low <= s[i] <= high
    ensures low * |s| <= Sum(s) <= high * |s|
  {
    if s != [] {
      SumBetween(s[1..], low, high);
      SplitProduct(low, |s| - 1, 1);
      SplitProduct(high, |s| - 1, 1);
    }
  }
}
