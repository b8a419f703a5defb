/**
 The Relay splitter journal (canisters/relay/src/splitter_state.rs): one active job with a fencing token,
 driven by interleaved continuations, and the quarantined jobs.
 */
module SplitterJournal {
  import opened Machine
  import opened SurplusPlans

  datatype Leg = DefaultLeg | SubaccountOneLeg

  datatype LegStatus =
    | Ready
    | WaitingForFunds(observedBalanceE8s: U64)
    | WaitingForFeasibleFee(expectedFeeE8s: nat)
    | Accepted(blockIndex: nat)

  datatype LegProgress = LegProgress(status: LegStatus, attemptStarted: bool, uncertainAttemptSeen: bool)

  const FRESH_LEG := LegProgress(Ready, false, false)

  datatype Job = Job(
    pinnedLedger: Principal,
    plan: SplitterPlan,
    defaultLeg: LegProgress,
    subaccountOneLeg: LegProgress,
    driverRevision: U64)

  datatype QuarantinedJob = QuarantinedJob(job: Job, blockedLeg: Leg, quarantinedAtNanos: U64, reason: string)

  datatype Journal = Journal(
    activeJob: Option<Job>,
    quarantined: map<nat, QuarantinedJob>,
    nextDriverRevision: U64)

  function NewJob(ledger: Principal, plan: SplitterPlan): Job {
    Job(ledger, plan, FRESH_LEG, FRESH_LEG, 0)
  }

  /** A claim is refused on a mismatch, and traps when the revisions are exhausted. */
  datatype ClaimOutcome = Refused | Exhausted | Claimed(job: Job)

  function MarkStarted(job: Job, mark: Option<Leg>): Job {
    match mark
    case None => job
    case Some(DefaultLeg) => job.(defaultLeg := job.defaultLeg.(attemptStarted := true))
    case Some(SubaccountOneLeg) => job.(subaccountOneLeg := job.subaccountOneLeg.(attemptStarted := true))
  }

  predicate AttemptStarted(job: Job, leg: Leg) {
    if leg == DefaultLeg then job.defaultLeg.attemptStarted else job.subaccountOneLeg.attemptStarted
  }

  /** The claimed job is the expected one under a new revision, with an attempt recorded on the marked leg only. */
  ghost predicate IsClaimOf(job: Job, expected: Job, mark: Option<Leg>, revision: int) {
    && job.pinnedLedger == expected.pinnedLedger && job.plan == expected.plan && job.driverRevision == revision
    && job.defaultLeg.status == expected.defaultLeg.status
    && job.defaultLeg.uncertainAttemptSeen == expected.defaultLeg.uncertainAttemptSeen
    && (job.defaultLeg.attemptStarted <==> expected.defaultLeg.attemptStarted || mark == Some(DefaultLeg))
    && job.subaccountOneLeg.status == expected.subaccountOneLeg.status
    && job.subaccountOneLeg.uncertainAttemptSeen == expected.subaccountOneLeg.uncertainAttemptSeen
    && (job.subaccountOneLeg.attemptStarted <==> expected.subaccountOneLeg.attemptStarted || mark == Some(SubaccountOneLeg))
  }

  function ClaimResult(s: Journal, expected: Job, mark: Option<Leg>): ClaimOutcome {
    if s.activeJob != Some(expected) then Refused
    else if s.nextDriverRevision + 1 > U64_MAX then Exhausted
    else Claimed(MarkStarted(expected.(driverRevision := s.nextDriverRevision + 1), mark))
  }

  function AfterClaim(s: Journal, expected: Job, mark: Option<Leg>): Journal {
    match ClaimResult(s, expected, mark)
    case Claimed(job) => s.(activeJob := Some(job), nextDriverRevision := job.driverRevision)
    case _ => s
  }

  function AfterQuarantine(s: Journal, leg: Leg, at: U64, reason: string): Journal {
    match s.activeJob
    case None => s
    case Some(job) =>
      s.(activeJob := None,
         quarantined := s.quarantined[job.plan.splitterNumber := QuarantinedJob(job, leg, at, reason)])
  }

  // ---- the journal as the source keeps it ----

  class StableJournal {
    var activeJob: Option<Job>
    var quarantined: map<nat, QuarantinedJob>
    var nextDriverRevision: U64

    function State(): Journal
      reads this
    {
      Journal(activeJob, quarantined, nextDriverRevision)
    }

    constructor ()
      ensures State() == Journal(None, map[], 0)
    {
      activeJob, quarantined, nextDriverRevision := None, map[], 0;
    }

    method SetActiveJob(job: Job)
      modifies this
      ensures State() == old(State()).(activeJob := Some(job))
    {
      activeJob := Some(job);
    }

    method ClaimActiveJob(expected: Job, mark: Option<Leg>) returns (outcome: ClaimOutcome)
      modifies this
      ensures outcome == ClaimResult(old(State()), expected, mark)
      ensures State() == AfterClaim(old(State()), expected, mark)
      ensures outcome.Refused? <==> old(activeJob) != Some(expected)
      ensures outcome.Exhausted? <==> old(activeJob) == Some(expected) && old(nextDriverRevision) == U64_MAX
      ensures outcome.Claimed? ==>
                && IsClaimOf(outcome.job, expected, mark, old(nextDriverRevision) + 1)
                && activeJob == Some(outcome.job) && nextDriverRevision == old(nextDriverRevision) + 1
      ensures !outcome.Claimed? ==> activeJob == old(activeJob) && nextDriverRevision == old(nextDriverRevision)
      ensures quarantined == old(quarantined)
    {
      if activeJob != Some(expected) {
        return Refused;
      }
      if nextDriverRevision + 1 > U64_MAX {
        return Exhausted;
      }
      nextDriverRevision := nextDriverRevision + 1;
      var job := activeJob.value.(driverRevision := nextDriverRevision);
      if mark.Some? {
        match mark.value {
          case DefaultLeg => job := job.(defaultLeg := job.defaultLeg.(attemptStarted := true));
          case SubaccountOneLeg => job := job.(subaccountOneLeg := job.subaccountOneLeg.(attemptStarted := true));
        }
      }
      activeJob := Some(job);
      outcome := Claimed(job);
    }

    method ActiveJobIfClaimMatches(claimed: Job) returns (active: Option<Job>)
      ensures active == if activeJob == Some(claimed) then Some(claimed) else None
    {
      active := if activeJob.Some? && activeJob.value == claimed then activeJob else None;
    }

    method ClearActiveJob() returns (cleared: Option<Job>)
      modifies this
      ensures cleared == old(activeJob)
      ensures State() == old(State()).(activeJob := None)
    {
      cleared := activeJob;
      activeJob := None;
    }

    method QuarantineActiveJob(leg: Leg, at: U64, reason: string) returns (entry: Option<QuarantinedJob>)
      modifies this
      ensures State() == AfterQuarantine(old(State()), leg, at, reason)
      ensures entry.Some? <==> old(activeJob).Some?
      ensures entry.Some? ==> entry.value == QuarantinedJob(old(activeJob).value, leg, at, reason)
      ensures activeJob.None? && nextDriverRevision == old(nextDriverRevision)
      ensures quarantined
              == if entry.Some? then old(quarantined)[old(activeJob).value.plan.splitterNumber := entry.value]
                 else old(quarantined)
    {
      if activeJob.None? {
        return None;
      }
      var job := activeJob.value;
      activeJob := None;
      entry := Some(QuarantinedJob(job, leg, at, reason));
      quarantined := quarantined[job.plan.splitterNumber := entry.value];
    }
  }

  // ---- runs of interleaved drivers ----

  datatype Step =
    | Install(ledger: Principal, plan: SplitterPlan)
    | Claim(expected: Job, mark: Option<Leg>)
    | Update(claimed: Job, job: Job)
    | Clear
    | Quarantine(leg: Leg, at: U64, reason: string)

  /** A continuation updates the job only while its claim matches, and keeps the claim's revision. */
  ghost predicate Enabled(s: Journal, step: Step) {
    step.Update? ==> s.activeJob == Some(step.claimed) && step.job.driverRevision == step.claimed.driverRevision
  }

  function Next(s: Journal, step: Step): Journal {
    match step
    case Install(ledger, plan) => s.(activeJob := Some(NewJob(ledger, plan)))
    case Claim(expected, mark) => AfterClaim(s, expected, mark)
    case Update(_, job) => s.(activeJob := Some(job))
    case Clear => s.(activeJob := None)
    case Quarantine(leg, at, reason) => AfterQuarantine(s, leg, at, reason)
  }

  ghost predicate Run(states: seq<Journal>, steps: seq<Step>) {
    && |states| == |steps| + 1
    && states[0] == Journal(None, map[], 0)
    && forall i :: 0 <= i < |steps| ==> Enabled(states[i], steps[i]) && states[i + 1] == Next(states[i], steps[i])
  }

  /** No stored revision exceeds the counter, and every quarantined job is keyed by its own number. */
  ghost predicate Consistent(s: Journal) {
    && (s.activeJob.Some? ==> s.activeJob.value.driverRevision <= s.nextDriverRevision)
    && forall n :: n in s.quarantined ==>
         s.quarantined[n].job.plan.splitterNumber == n && s.quarantined[n].job.driverRevision <= s.nextDriverRevision
  }

  ghost predicate ClaimSucceeds(s: Journal, step: Step) {
    step.Claim? && ClaimResult(s, step.expected, step.mark).Claimed?
  }

  lemma {:induction false} RunIsConsistent(states: seq<Journal>, steps: seq<Step>, i: nat)
    requires Run(states, steps) && i <= |steps|
    ensures Consistent(states[i])
  {
    if i > 0 {
      RunIsConsistent(states, steps, i - 1);
      assert states[i] == Next(states[i - 1], steps[i - 1]);
    }
  }

  lemma {:induction false} CounterMonotone(states: seq<Journal>, steps: seq<Step>, i: nat, j: nat)
    requires Run(states, steps) && i <= j <= |steps|
    ensures states[i].nextDriverRevision <= states[j].nextDriverRevision
  {
    if i < j {
      CounterMonotone(states, steps, i, j - 1);
      assert states[j] == Next(states[j - 1], steps[j - 1]);
    }
  }

  function ClaimedAt(s: Journal, step: Step): (job: Job)
    requires ClaimSucceeds(s, step)
  {
    ClaimResult(s, step.expected, step.mark).job
  }

  /** In a run, a successful claim leaves the expected job active under the next revision, marked as asked. */
  lemma ClaimMarksItsLeg(states: seq<Journal>, steps: seq<Step>, i: nat)
    requires Run(states, steps) && i < |steps| && ClaimSucceeds(states[i], steps[i])
    ensures states[i].activeJob == Some(steps[i].expected)
    ensures states[i + 1].activeJob == Some(ClaimedAt(states[i], steps[i]))
    ensures IsClaimOf(ClaimedAt(states[i], steps[i]), steps[i].expected, steps[i].mark, states[i].nextDriverRevision + 1)
  {
    assert states[i + 1] == Next(states[i], steps[i]);
  }

  /** A claim step turns a leg's attempt flag on only when its mark names that leg, and never off. */
  lemma ClaimStepAttempts(states: seq<Journal>, steps: seq<Step>, i: nat, leg: Leg)
    requires Run(states, steps) && i < |steps| && steps[i].Claim? && states[i].activeJob.Some?
    ensures states[i + 1].activeJob.Some?
    ensures AttemptStarted(states[i].activeJob.value, leg) ==> AttemptStarted(states[i + 1].activeJob.value, leg)
    ensures AttemptStarted(states[i + 1].activeJob.value, leg) && !AttemptStarted(states[i].activeJob.value, leg) ==>
              ClaimSucceeds(states[i], steps[i]) && steps[i].mark == Some(leg)
  {
    assert states[i + 1] == Next(states[i], steps[i]);
  }

  /**
   Over every run, an attempt recorded on a leg of the active job goes back to a successful claim marking
   that leg, or to a guarded update that recorded it, with no installation since.
   */
  lemma {:induction false} AttemptHasCause(states: seq<Journal>, steps: seq<Step>, k: nat, leg: Leg)
    returns (cause: nat)
    requires Run(states, steps) && k <= |steps|
    requires states[k].activeJob.Some? && AttemptStarted(states[k].activeJob.value, leg)
    ensures cause < k
    ensures (ClaimSucceeds(states[cause], steps[cause]) && steps[cause].mark == Some(leg))
            || (steps[cause].Update? && AttemptStarted(steps[cause].job, leg))
    ensures forall j :: cause < j < k ==> !steps[j].Install?
  {
    assert states[k - 1 + 1] == Next(states[k - 1], steps[k - 1]);
    if steps[k - 1].Update? {
      cause := k - 1;
    } else if AttemptStarted(states[k - 1].activeJob.value, leg) {
      cause := AttemptHasCause(states, steps, k - 1, leg);
    } else {
      ClaimStepAttempts(states, steps, k - 1, leg);
      cause := k - 1;
    }
  }

  /** The leg is no longer ready, or an uncertain attempt was seen. */
  predicate Progressed(job: Job, leg: Leg) {
    var progress := if leg == DefaultLeg then job.defaultLeg else job.subaccountOneLeg;
    progress.status != Ready || progress.uncertainAttemptSeen
  }

  /** Progress on a leg goes back to a guarded update that recorded it, with no installation since. */
  lemma {:induction false} ProgressHasCause(states: seq<Journal>, steps: seq<Step>, k: nat, leg: Leg)
    returns (cause: nat)
    requires Run(states, steps) && k <= |steps|
    requires states[k].activeJob.Some? && Progressed(states[k].activeJob.value, leg)
    ensures cause < k && steps[cause].Update? && Progressed(steps[cause].job, leg)
    ensures forall j :: cause < j < k ==> !steps[j].Install?
  {
    assert states[k - 1 + 1] == Next(states[k - 1], steps[k - 1]);
    if steps[k - 1].Update? {
      cause := k - 1;
    } else {
      cause := ProgressHasCause(states, steps, k - 1, leg);
    }
  }

  /** Claim revisions strictly increase along a run. */
  lemma ClaimsIncrease(states: seq<Journal>, steps: seq<Step>, i: nat, j: nat)
    requires Run(states, steps) && i < j < |steps|
    requires ClaimSucceeds(states[i], steps[i]) && ClaimSucceeds(states[j], steps[j])
    ensures ClaimedAt(states[i], steps[i]).driverRevision < ClaimedAt(states[j], steps[j]).driverRevision
  {
    assert states[i + 1] == Next(states[i], steps[i]);
    CounterMonotone(states, steps, i + 1, j);
  }

  /** The token has been issued and the active job no longer carries it. */
  ghost predicate Fenced(s: Journal, revision: U64) {
    1 <= revision <= s.nextDriverRevision
    && (s.activeJob.Some? ==> s.activeJob.value.driverRevision != revision)
  }

  lemma {:induction false} FencedForever(states: seq<Journal>, steps: seq<Step>, i: nat, j: nat, revision: U64)
    requires Run(states, steps) && i <= j <= |steps|
    requires Fenced(states[i], revision)
    ensures Fenced(states[j], revision)
  {
    if i < j {
      FencedForever(states, steps, i, j - 1, revision);
      assert states[j] == Next(states[j - 1], steps[j - 1]) && Enabled(states[j - 1], steps[j - 1]);
    }
  }

  /** A step that takes the job away from its current driver. */
  ghost predicate Supersedes(s: Journal, step: Step) {
    ClaimSucceeds(s, step) || step.Clear? || step.Quarantine? || step.Install?
  }

  /**
   Fencing: once a later claim succeeds, or the job is cleared, quarantined or replaced, an earlier claim
   never matches the active job again, so its continuation can never update it.
   */
  lemma StaleClaimNeverMatches(states: seq<Journal>, steps: seq<Step>, i: nat, j: nat, k: nat)
    requires Run(states, steps) && i < j < k <= |steps|
    requires ClaimSucceeds(states[i], steps[i]) && Supersedes(states[j], steps[j])
    ensures states[k].activeJob != Some(ClaimedAt(states[i], steps[i]))
    ensures k < |steps| && steps[k].Update? ==> steps[k].claimed != ClaimedAt(states[i], steps[i])
  {
    var revision := ClaimedAt(states[i], steps[i]).driverRevision;
    assert states[i + 1] == Next(states[i], steps[i]);
    CounterMonotone(states, steps, i + 1, j);
    assert states[j + 1] == Next(states[j], steps[j]);
    assert Fenced(states[j + 1], revision);
    FencedForever(states, steps, j + 1, k, revision);
  }

  /** Until it is superseded, the job carries the claim's revision through every guarded update. */
  lemma {:induction false} ClaimHoldsUntilSuperseded(states: seq<Journal>, steps: seq<Step>, i: nat, k: nat)
    requires Run(states, steps) && i < k <= |steps|
    requires ClaimSucceeds(states[i], steps[i])
    requires forall j :: i < j < k ==> !Supersedes(states[j], steps[j])
    ensures states[k].activeJob.Some?
    ensures states[k].activeJob.value.driverRevision == ClaimedAt(states[i], steps[i]).driverRevision
  {
    if k == i + 1 {
      assert states[i + 1] == Next(states[i], steps[i]);
    } else {
      ClaimHoldsUntilSuperseded(states, steps, i, k - 1);
      assert states[k] == Next(states[k - 1], steps[k - 1]);
    }
  }

  /** Quarantined numbers are never lost, and an entry changes only when its number is quarantined again. */
  lemma {:induction false} QuarantineKeepsNumbers(states: seq<Journal>, steps: seq<Step>, i: nat, j: nat)
    requires Run(states, steps) && i <= j <= |steps|
    ensures states[i].quarantined.Keys <= states[j].quarantined.Keys
  {
    if i < j {
      QuarantineKeepsNumbers(states, steps, i, j - 1);
      assert states[j] == Next(states[j - 1], steps[j - 1]);
    }
  }

  /** A quarantine step keeps every entry exactly when the active job's number has no entry that differs. */
  lemma QuarantineOverwrites(s: Journal, leg: Leg, at: U64, reason: string)
    ensures (forall n :: n in s.quarantined ==>
               n in AfterQuarantine(s, leg, at, reason).quarantined
               && AfterQuarantine(s, leg, at, reason).quarantined[n] == s.quarantined[n])
            <==> (s.activeJob.None? || var n := s.activeJob.value.plan.splitterNumber;
                  n !in s.quarantined || s.quarantined[n] == QuarantinedJob(s.activeJob.value, leg, at, reason))
  {
    var after := AfterQuarantine(s, leg, at, reason);
    if s.activeJob.Some? {
      var n := s.activeJob.value.plan.splitterNumber;
      assert after.quarantined[n] == QuarantinedJob(s.activeJob.value, leg, at, reason);
    }
  }

  /** The driver's discipline: it installs no job for a quarantined number, and updates keep the number. */
  ghost predicate Disciplined(s: Journal, step: Step) {
    && (step.Install? ==> step.plan.splitterNumber !in s.quarantined)
    && (step.Update? ==> step.job.plan.splitterNumber == step.claimed.plan.splitterNumber)
  }

  /** Under that discipline no quarantined entry is ever overwritten. */
  lemma {:induction false} EntriesArePermanent(states: seq<Journal>, steps: seq<Step>, i: nat, j: nat)
    requires Run(states, steps) && i <= j <= |steps|
    requires forall k :: 0 <= k < |steps| ==> Disciplined(states[k], steps[k])
    ensures forall n :: n in states[i].quarantined ==>
              n in states[j].quarantined && states[j].quarantined[n] == states[i].quarantined[n]
    decreases j
  {
    if i < j {
      EntriesArePermanent(states, steps, i, j - 1);
      ActiveNotQuarantined(states, steps, j - 1);
      assert states[j] == Next(states[j - 1], steps[j - 1]);
    }
  }

  lemma {:induction false} ActiveNotQuarantined(states: seq<Journal>, steps: seq<Step>, j: nat)
    requires Run(states, steps) && j <= |steps|
    requires forall k :: 0 <= k < |steps| ==> Disciplined(states[k], steps[k])
    ensures states[j].activeJob.Some? ==> states[j].activeJob.value.plan.splitterNumber !in states[j].quarantined
  {
    if j > 0 {
      ActiveNotQuarantined(states, steps, j - 1);
      assert states[j] == Next(states[j - 1], steps[j - 1]) && Disciplined(states[j - 1], steps[j - 1]);
    }
  }
}
