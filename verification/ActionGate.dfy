/**
  The action gate of a browser session (packages/browser-core/src/browser-core.ts,
  packages/browser-core/src/cdp-helper.ts).

  `execute` is cut into the steps between its awaits; the scheduler decides which
  step comes next. So is a recovery of the transport: it is started, the reset it awaits
  settles (for all recoveries that share it), and only then is it recorded. Recoveries
  may be started outside any call. Every operation ever launched is remembered with the
  call that launched it.
 */
module ActionGate {
  import opened Wrappers

  datatype Phase =
    | Released
    | Starting
    | Acting
    | Recovering(helper: nat)
    | Settling(recovered: bool, recovery: nat)

  datatype Op = Op(call: nat, settled: bool)

  /** A recovery of the transport: awaiting its reset, not recorded yet, or done. Successful resets are numbered. */
  datatype Recovery = Resetting | Reset(number: nat) | ResetFailed | Recorded

  /**
    How one accepted call ended: how many recoveries had been recorded and how many
    resets had succeeded when it began, the number of the recovery its interruption was
    decided by, and the number of the reset that recovery awaited (0 for none).
   */
  datatype Report = Report(call: nat, interrupted: bool, reset: nat, resetsBefore: nat, settled: bool, poisonedAfter: bool, began: nat, recovery: nat)

  /** The reset that decided the call succeeded after the call began. */
  predicate SawReset(r: Report) {
    r.reset > r.resetsBefore
  }

  datatype Gate = Gate(
    active: bool,
    poisoned: bool,
    phase: Phase,
    owner: Option<nat>,
    startOp: Option<nat>,
    actionOp: Option<nat>,
    ops: seq<Op>,
    calls: nat,
    recoveryGeneration: nat,
    helperGeneration: nat,
    helperSucceeded: bool,
    resets: nat,
    resetsAtBegin: nat,
    pageGeneration: nat,
    helpers: seq<Recovery>,
    recoveries: seq<Option<nat>>,
    reports: seq<Report>)

  const START: Gate := Gate(false, false, Released, None, None, None, [], 0, 0, 0, true, 0, 0, 0, [], [], [])

  /** How a promise the gate races against the abort signal settles. */
  datatype Settlement = Fulfilled | Interrupted | Rejected

  datatype Event =
    | Call(aborted: bool, deadlineFits: bool, startThrows: Option<Settlement>)
    | StartSettled(how: Settlement)
    | ActionSettled(how: Settlement)
    | Abort
    | RecoveryStarted
    | ResetSettled(awaiting: set<nat>, ok: bool)
    | RecoveryRecorded(helper: nat)
    | OpsSettled
    | SettlementTimedOut
    | LateSettled(op: nat)

  datatype Answer = Accepted | Busy | Poisoned | Aborted | DeadlineRejected | Internal

  function Settle(ops: seq<Op>, op: nat): seq<Op> {
    if op < |ops| then ops[op := ops[op].(settled := true)] else ops
  }

  predicate IsSettled(ops: seq<Op>, op: Option<nat>) {
    op.Some? ==> op.value < |ops| && ops[op.value].settled
  }

  /** The reset that the recovery a call was decided by had awaited; 0 when it failed. */
  function DecidingReset(g: Gate): nat {
    if g.phase.Settling? && 0 < g.phase.recovery <= |g.recoveries| then g.recoveries[g.phase.recovery - 1].GetOr(0) else 0
  }

  /** The `finally` block, after the outcome is known. */
  function Release(g: Gate, interrupted: bool, settled: bool, poisoned: bool): Gate {
    var report := Report(g.owner.GetOr(0), interrupted, DecidingReset(g), g.resetsAtBegin, settled, poisoned,
                         g.recoveryGeneration, if g.phase.Settling? then g.phase.recovery else 0);
    g.(active := false, poisoned := poisoned, phase := Released, owner := None, startOp := None, actionOp := None,
       pageGeneration := if interrupted then g.pageGeneration + 1 else g.pageGeneration,
       reports := g.reports + [report])
  }

  function StartRecovery(g: Gate): Gate {
    g.(helpers := g.helpers + [Resetting])
  }

  /** An interruption: reuse a recovery the helper has recorded since the call began, else force one. */
  function Interrupt(g: Gate): Gate {
    if g.helperGeneration != g.recoveryGeneration then g.(phase := Settling(g.helperSucceeded, g.helperGeneration))
    else StartRecovery(g).(phase := Recovering(|g.helpers|))
  }

  predicate Awaits(helpers: seq<Recovery>, awaiting: set<nat>) {
    exists i :: 0 <= i < |helpers| && i in awaiting && helpers[i] == Resetting
  }

  function Settled(helpers: seq<Recovery>, awaiting: set<nat>, how: Recovery): (r: seq<Recovery>)
    ensures |r| == |helpers|
    ensures forall i :: 0 <= i < |helpers| ==> r[i] == if i in awaiting && helpers[i] == Resetting then how else helpers[i]
  {
    seq(|helpers|, i requires 0 <= i < |helpers| => if i in awaiting && helpers[i] == Resetting then how else helpers[i])
  }

  /** A reset settles, in success or (also by the recovery's own deadline) in failure, for those that await it. */
  function SettleReset(g: Gate, awaiting: set<nat>, ok: bool): Gate {
    if !Awaits(g.helpers, awaiting) then g
    else if ok then g.(resets := g.resets + 1, helpers := Settled(g.helpers, awaiting, Reset(g.resets + 1)))
    else g.(helpers := Settled(g.helpers, awaiting, ResetFailed))
  }

  /** A recovery whose reset has settled is recorded; one that a call had forced then decides that call. */
  function RecordRecovery(g: Gate, helper: nat): Gate {
    if helper >= |g.helpers| || g.helpers[helper] == Resetting || g.helpers[helper] == Recorded then g
    else
      var outcome := if g.helpers[helper].Reset? then Some(g.helpers[helper].number) else None;
      g.(helperGeneration := g.helperGeneration + 1, helperSucceeded := outcome.Some?,
         recoveries := g.recoveries + [outcome], helpers := g.helpers[helper := Recorded],
         phase := if g.phase == Recovering(helper) then Settling(outcome.Some?, g.helperGeneration + 1) else g.phase)
  }

  function Launch(g: Gate): (Gate, nat) {
    (g.(ops := g.ops + [Op(g.owner.GetOr(0), false)]), |g.ops|)
  }

  function Claim(g: Gate): Gate {
    g.(active := true, phase := Starting, owner := Some(g.calls), calls := g.calls + 1,
       recoveryGeneration := g.helperGeneration, resetsAtBegin := g.resets)
  }

  function Answered(g: Gate, ev: Event): Answer {
    if !ev.Call? then Internal
    else if g.active then Busy
    else if g.poisoned then Poisoned
    else if ev.aborted then Aborted
    else if !ev.deadlineFits then DeadlineRejected
    else Accepted
  }

  function AfterAwait(g: Gate, how: Settlement): Gate {
    match how
    case Interrupted => Interrupt(g)
    case _ => Release(g, false, true, false)
  }

  function Step(g: Gate, ev: Event): Gate {
    match ev
    case Call(_, _, startThrows) =>
      if Answered(g, ev) != Accepted then g
      else if startThrows.Some? && startThrows.value != Fulfilled then AfterAwait(Claim(g), startThrows.value)
      else
        var (h, op) := Launch(Claim(g));
        h.(startOp := Some(op))
    case StartSettled(how) =>
      if g.phase != Starting || g.startOp.None? then g
      else
        var h := g.(ops := Settle(g.ops, g.startOp.value));
        if how == Fulfilled then
          var (k, op) := Launch(h);
          k.(actionOp := Some(op), phase := Acting)
        else AfterAwait(h, how)
    case ActionSettled(how) =>
      if g.phase != Acting || g.actionOp.None? then g
      else AfterAwait(g.(ops := Settle(g.ops, g.actionOp.value)), how)
    case Abort => if g.phase == Starting || g.phase == Acting then Interrupt(g) else g
    case RecoveryStarted => StartRecovery(g)
    case ResetSettled(awaiting, ok) => SettleReset(g, awaiting, ok)
    case RecoveryRecorded(helper) => RecordRecovery(g, helper)
    case OpsSettled =>
      if g.phase.Settling? && IsSettled(g.ops, g.startOp) && IsSettled(g.ops, g.actionOp)
      then Release(g, true, true, !g.phase.recovered)
      else g
    case SettlementTimedOut => if g.phase.Settling? && g.startOp.Some? then Release(g, true, false, true) else g
    case LateSettled(op) => g.(ops := Settle(g.ops, op))
  }

  function Run(g: Gate, events: seq<Event>): Gate {
    if events == [] then g else Step(Run(g, events[..|events| - 1]), events[|events| - 1])
  }

  // ----------------------------------------------------------------- invariant

  ghost predicate Mine(g: Gate, op: Option<nat>) {
    op.Some? ==> g.owner.Some? && op.value < |g.ops| && g.ops[op.value].call == g.owner.value
  }

  ghost predicate ReportOk(r: Report) {
    && (r.interrupted && !r.poisonedAfter ==> r.reset > 0 && r.settled)
    && (!r.interrupted ==> !r.poisonedAfter && r.settled)
  }

  /** Who owns the gate and what still runs. */
  ghost predicate Gated(g: Gate) {
    && (g.active <==> g.phase != Released) && (g.active <==> g.owner.Some?)
    && (g.active ==> !g.poisoned)
    && (g.owner.Some? ==> g.owner.value + 1 == g.calls)
    && (!g.active ==> g.startOp.None? && g.actionOp.None?)
    && Mine(g, g.startOp) && Mine(g, g.actionOp)
    && (g.actionOp.Some? ==> g.startOp.Some?)
    && (g.phase == Acting ==> IsSettled(g.ops, g.startOp) && g.actionOp.Some?)
    && (g.phase == Starting ==> g.startOp.Some? && g.actionOp.None?)
    // Unsettled operations belong to the call that owns the gate.
    && (!g.poisoned ==> forall i :: 0 <= i < |g.ops| && !g.ops[i].settled ==> Some(i) == g.startOp || Some(i) == g.actionOp)
    && g.recoveryGeneration <= g.helperGeneration && g.resetsAtBegin <= g.resets
  }

  ghost predicate ReportsOk(g: Gate) {
    forall i :: 0 <= i < |g.reports| ==> ReportOk(g.reports[i]) && g.reports[i].reset <= g.resets
  }

  ghost predicate Inv(g: Gate) {
    Gated(g) && Logged(g) && ReportsOk(g)
  }

  /** Recoveries are recorded in order, successful ones with a reset that has succeeded. */
  ghost predicate Logged(g: Gate) {
    && |g.recoveries| == g.helperGeneration
    && (g.helperGeneration > 0 ==> g.helperSucceeded == g.recoveries[g.helperGeneration - 1].Some?)
    && (forall i :: 0 <= i < |g.recoveries| && g.recoveries[i].Some? ==> 0 < g.recoveries[i].value <= g.resets)
    && (forall i :: 0 <= i < |g.helpers| && g.helpers[i].Reset? ==> 0 < g.helpers[i].number <= g.resets)
    && (g.phase.Recovering? ==> g.phase.helper < |g.helpers|)
    && (g.phase.Settling? ==>
          && g.recoveryGeneration < g.phase.recovery <= g.helperGeneration
          && g.phase.recovered == g.recoveries[g.phase.recovery - 1].Some?)
  }

  /** Releasing the gate keeps the invariant when nothing still runs, or when it poisons the session. */
  lemma ReleaseKeepsInv(g: Gate, interrupted: bool, settled: bool, poisoned: bool)
    requires Inv(g) && g.active
    requires interrupted && !poisoned ==> g.phase.Settling? && g.phase.recovered && settled
    requires !interrupted ==> !poisoned && settled
    requires poisoned || (IsSettled(g.ops, g.startOp) && IsSettled(g.ops, g.actionOp))
    ensures Inv(Release(g, interrupted, settled, poisoned))
  {
  }

  lemma InterruptKeepsInv(g: Gate)
    requires Inv(g) && g.active
    ensures Inv(Interrupt(g))
  {
  }

  lemma SettleKeepsInv(g: Gate, op: nat)
    requires Inv(g)
    ensures Inv(g.(ops := Settle(g.ops, op)))
  {
  }

  predicate IsRecovery(ev: Event) {
    ev.RecoveryStarted? || ev.ResetSettled? || ev.RecoveryRecorded?
  }

  lemma RecoveryKeepsGated(g: Gate, ev: Event)
    requires Gated(g) && IsRecovery(ev)
    ensures Gated(Step(g, ev))
  {
    hide Settled;
  }

  lemma StartIsLogged(g: Gate)
    requires Logged(g)
    ensures Logged(StartRecovery(g))
  {
  }

  lemma SettlementIsLogged(g: Gate, awaiting: set<nat>, ok: bool)
    requires Logged(g)
    ensures Logged(SettleReset(g, awaiting, ok))
  {
    hide Awaits;
  }

  lemma RecordIsLogged(g: Gate, helper: nat)
    requires Logged(g) && g.recoveryGeneration <= g.helperGeneration
    ensures Logged(RecordRecovery(g, helper))
  {
  }

  lemma RecoveryKeepsLogged(g: Gate, ev: Event)
    requires Logged(g) && g.recoveryGeneration <= g.helperGeneration && IsRecovery(ev)
    ensures Logged(Step(g, ev))
  {
    hide Logged, StartRecovery, SettleReset, RecordRecovery;
    match ev
    case RecoveryStarted => StartIsLogged(g);
    case ResetSettled(awaiting, ok) => SettlementIsLogged(g, awaiting, ok);
    case RecoveryRecorded(helper) => RecordIsLogged(g, helper);
  }

  lemma RecoveryKeepsInv(g: Gate, ev: Event)
    requires Inv(g) && IsRecovery(ev)
    ensures Inv(Step(g, ev))
  {
    hide Logged, Settled;
    RecoveryKeepsGated(g, ev);
    RecoveryKeepsLogged(g, ev);
  }

  lemma ClaimIsLogged(g: Gate)
    requires Inv(g) && !g.active
    ensures Logged(Claim(g)) && Logged(Launch(Claim(g)).0) && ReportsOk(Claim(g))
    ensures Logged(Interrupt(Claim(g)))
  {
    hide ReportOk;
  }

  lemma CallLaunches(g: Gate)
    requires Gated(g) && !g.active && !g.poisoned
    ensures var (h, op) := Launch(Claim(g)); Gated(h.(startOp := Some(op)))
  {
  }

  lemma CallInterrupted(g: Gate)
    requires Gated(g) && !g.active && !g.poisoned
    ensures Gated(Interrupt(Claim(g)))
  {
  }

  /** A call that fails before it launches anything leaves the gate free. */
  lemma CallRejected(g: Gate)
    requires Inv(g) && !g.active && !g.poisoned
    ensures Inv(Release(Claim(g), false, true, false))
  {
  }

  lemma CallKeepsInv(g: Gate, ev: Event)
    requires Inv(g) && ev.Call? && Answered(g, ev) == Accepted
    ensures Inv(Step(g, ev))
  {
    hide Gated, ReportOk, Release;
    GatedIsFree(g);
    ClaimIsLogged(g);
    CallLaunches(g);
    CallInterrupted(g);
    CallRejected(g);
  }

  lemma GatedIsFree(g: Gate)
    requires Gated(g) && !g.active
    ensures g.owner.None?
  {
  }

  lemma StartSettledKeepsInv(g: Gate, how: Settlement)
    requires Inv(g) && g.phase == Starting
    ensures Inv(Step(g, StartSettled(how)))
  {
    var h := g.(ops := Settle(g.ops, g.startOp.value));
    SettleKeepsInv(g, g.startOp.value);
    match how
    case Fulfilled => ActionLaunched(h);
    case Interrupted => InterruptKeepsInv(h);
    case Rejected => ReleaseKeepsInv(h, false, true, false);
  }

  lemma ActionLaunched(h: Gate)
    requires Inv(h) && h.phase == Starting && IsSettled(h.ops, h.startOp)
    ensures var (k, op) := Launch(h); Inv(k.(actionOp := Some(op), phase := Acting))
  {
  }

  lemma ActionSettledKeepsInv(g: Gate, how: Settlement)
    requires Inv(g) && g.phase == Acting
    ensures Inv(Step(g, ActionSettled(how)))
  {
    var h := g.(ops := Settle(g.ops, g.actionOp.value));
    SettleKeepsInv(g, g.actionOp.value);
    match how
    case Interrupted => InterruptKeepsInv(h);
    case _ => ReleaseKeepsInv(h, false, true, false);
  }

  lemma StepKeepsInv(g: Gate, ev: Event)
    requires Inv(g)
    ensures Inv(Step(g, ev))
  {
    match ev
    case Call(_, _, _) => if Answered(g, ev) == Accepted { CallKeepsInv(g, ev); }
    case StartSettled(how) => if g.phase == Starting { StartSettledKeepsInv(g, how); }
    case ActionSettled(how) => if g.phase == Acting { ActionSettledKeepsInv(g, how); }
    case Abort => if g.phase == Starting || g.phase == Acting { InterruptKeepsInv(g); }
    case RecoveryStarted => RecoveryKeepsInv(g, ev);
    case ResetSettled(_, _) => RecoveryKeepsInv(g, ev);
    case RecoveryRecorded(_) => RecoveryKeepsInv(g, ev);
    case OpsSettled =>
      if g.phase.Settling? && IsSettled(g.ops, g.startOp) && IsSettled(g.ops, g.actionOp) {
        ReleaseKeepsInv(g, true, true, !g.phase.recovered);
      }
    case SettlementTimedOut => if g.phase.Settling? { ReleaseKeepsInv(g, true, false, true); }
    case LateSettled(op) => SettleKeepsInv(g, op);
  }

  lemma {:induction false} RunKeepsInv(events: seq<Event>)
    ensures Inv(Run(START, events))
  {
    if events != [] {
      RunKeepsInv(events[..|events| - 1]);
      StepKeepsInv(Run(START, events[..|events| - 1]), events[|events| - 1]);
    }
  }

  // ------------------------------------------------------------------ theorems

  /**
    Over every run: a session that is neither active nor poisoned has no operation
    left running; while it is not poisoned, whatever still runs was launched by the
    one call that owns the gate; and every interrupted call that left it usable was
    decided by a transport reset that succeeded, and saw its operations settle.
   */
  lemma GateSafety(events: seq<Event>)
    ensures var g := Run(START, events);
            && (!g.active && !g.poisoned ==> forall i :: 0 <= i < |g.ops| ==> g.ops[i].settled)
            && (!g.poisoned ==> forall i :: 0 <= i < |g.ops| && !g.ops[i].settled ==>
                  g.owner.Some? && g.ops[i].call == g.owner.value)
            && (forall i :: 0 <= i < |g.reports| && g.reports[i].interrupted && !g.reports[i].poisonedAfter ==>
                  0 < g.reports[i].reset <= g.resets && g.reports[i].settled)
  {
    RunKeepsInv(events);
  }

  lemma PoisonedStep(g: Gate, ev: Event)
    requires Inv(g) && g.poisoned
    ensures var h := Step(g, ev); h.poisoned && !h.active && h.calls == g.calls && h.reports == g.reports
  {
    hide Settled, Awaits, Logged, ReportsOk;
  }

  /** Poisoned is absorbing: no event clears it and no call is accepted any more. */
  lemma {:induction false} PoisonedIsForever(events: seq<Event>, more: seq<Event>)
    requires Run(START, events).poisoned
    ensures Run(START, events + more).poisoned && !Run(START, events + more).active
    ensures Run(START, events + more).calls == Run(START, events).calls
    ensures Run(START, events + more).reports == Run(START, events).reports
    decreases |more|
  {
    hide Step, Inv;
    if more == [] {
      assert events + more == events;
      RunKeepsInv(events);
      PoisonedIsFree(Run(START, events));
    } else {
      var init := more[..|more| - 1];
      PoisonedIsForever(events, init);
      RunKeepsInv(events + init);
      PoisonedStep(Run(START, events + init), more[|more| - 1]);
      assert (events + more)[..|events + more| - 1] == events + init;
    }
  }

  lemma PoisonedIsFree(g: Gate)
    requires Inv(g) && g.poisoned
    ensures !g.active
  {
  }

  /** The command state never changes hands: an owner stays until its own call is released. */
  lemma OwnerChangesOnlyThroughRelease(g: Gate, ev: Event)
    requires Inv(g) && g.owner.Some?
    ensures var h := Step(g, ev);
            h.owner == g.owner || (h.owner.None? && |h.reports| == |g.reports| + 1 && h.reports[|g.reports|].call == g.owner.value)
    ensures Answered(g, ev) != Accepted
  {
  }

  // ------------------------------------------------------------------- history

  function Interruptions(reports: seq<Report>): nat {
    if reports == [] then 0
    else Interruptions(reports[..|reports| - 1]) + if reports[|reports| - 1].interrupted then 1 else 0
  }

  /** Recovery number n, counted from 1, was recorded as a success. */
  predicate Succeeded(recoveries: seq<Option<nat>>, n: nat) {
    0 < n <= |recoveries| && recoveries[n - 1].Some?
  }

  /** The report of an interruption: decided by a recovery recorded since the call began, and by the settlement. */
  predicate Decided(r: Report, recoveries: seq<Option<nat>>) {
    r.interrupted ==>
      && r.began < r.recovery <= |recoveries| && r.reset == recoveries[r.recovery - 1].GetOr(0)
      && (!r.poisonedAfter <==> Succeeded(recoveries, r.recovery) && r.settled)
  }

  ghost predicate AllSettled(ops: seq<Op>, call: nat) {
    forall i :: 0 <= i < |ops| && ops[i].call == call ==> ops[i].settled
  }

  /** Calls are reported in the order they were accepted, one at a time. */
  ghost predicate InTurn(g: Gate) {
    && g.calls == |g.reports| + (if g.active then 1 else 0)
    && forall i :: 0 <= i < |g.reports| ==> g.reports[i].call == i
  }

  ghost predicate ReportsDecided(g: Gate) {
    forall i :: 0 <= i < |g.reports| ==> Decided(g.reports[i], g.recoveries)
  }

  /** What a report calls settled has settled, and stays so. */
  ghost predicate SettledForGood(g: Gate) {
    && (forall i :: 0 <= i < |g.ops| ==> g.ops[i].call < g.calls)
    && forall i :: 0 <= i < |g.reports| && g.reports[i].settled ==> AllSettled(g.ops, g.reports[i].call)
  }

  /** Only the last report can have poisoned the session, and then it is poisoned. */
  ghost predicate PoisonedByLast(g: Gate) {
    forall i :: 0 <= i < |g.reports| ==> (g.reports[i].poisonedAfter <==> g.poisoned && i == |g.reports| - 1)
  }

  ghost predicate History(g: Gate) {
    && InTurn(g) && Logged(g) && ReportsDecided(g) && SettledForGood(g) && PoisonedByLast(g)
    && (g.poisoned ==> g.reports != [])
    && g.pageGeneration == Interruptions(g.reports)
  }

  /** What an active gate keeps from claim to release. */
  ghost predicate Owned(g: Gate) {
    && g.active && !g.poisoned && g.calls > 0 && g.owner == Some(g.calls - 1)
    && g.recoveryGeneration <= g.helperGeneration
    && forall i :: 0 <= i < |g.ops| && !g.ops[i].settled ==> Some(i) == g.startOp || Some(i) == g.actionOp
  }

  lemma ActiveIsOwned(g: Gate)
    requires Inv(g) && g.active
    ensures Owned(g)
  {
  }

  lemma ReleaseKeepsTurns(g: Gate, interrupted: bool, settled: bool, poisoned: bool)
    requires Owned(g) && InTurn(g) && PoisonedByLast(g)
    ensures var h := Release(g, interrupted, settled, poisoned); InTurn(h) && PoisonedByLast(h)
  {
  }

  lemma ReleaseDecides(g: Gate, interrupted: bool, settled: bool, poisoned: bool)
    requires Owned(g) && ReportsDecided(g) && Logged(g)
    requires if interrupted then g.phase.Settling? && (!poisoned <==> g.phase.recovered && settled) else !poisoned && settled
    ensures var h := Release(g, interrupted, settled, poisoned); ReportsDecided(h) && Logged(h)
  {
  }

  lemma ReleaseSettles(g: Gate, interrupted: bool, settled: bool, poisoned: bool)
    requires Owned(g) && SettledForGood(g)
    requires settled ==> IsSettled(g.ops, g.startOp) && IsSettled(g.ops, g.actionOp)
    ensures SettledForGood(Release(g, interrupted, settled, poisoned))
  {
  }

  lemma ReleaseKeepsHistory(g: Gate, interrupted: bool, settled: bool, poisoned: bool)
    requires Owned(g) && History(g)
    requires if interrupted then g.phase.Settling? && (!poisoned <==> g.phase.recovered && settled) else !poisoned && settled
    requires settled ==> IsSettled(g.ops, g.startOp) && IsSettled(g.ops, g.actionOp)
    ensures History(Release(g, interrupted, settled, poisoned))
  {
    hide Owned, InTurn, PoisonedByLast, ReportsDecided, Logged, SettledForGood;
    ReleaseKeepsTurns(g, interrupted, settled, poisoned);
    ReleaseDecides(g, interrupted, settled, poisoned);
    ReleaseSettles(g, interrupted, settled, poisoned);
    var h := Release(g, interrupted, settled, poisoned);
    assert h.reports[..|h.reports| - 1] == g.reports;
  }

  /** Recoveries going on leave what has been reported as it was decided. */
  lemma RecoveryKeepsHistory(g: Gate, ev: Event)
    requires Inv(g) && History(g) && IsRecovery(ev)
    ensures History(Step(g, ev))
  {
    hide Interruptions, SettledForGood, PoisonedByLast, Logged, Inv, InTurn;
    RecoveryKeepsInv(g, ev);
    InvLogs(Step(g, ev));
    RecoveryKeepsTurns(g, ev);
    var h := Step(g, ev);
    forall i | 0 <= i < |g.reports|
      ensures Decided(g.reports[i], h.recoveries)
    {
      assert Decided(g.reports[i], g.recoveries);
    }
  }

  lemma InvLogs(g: Gate)
    requires Inv(g)
    ensures Logged(g)
  {
  }

  lemma RecoveryKeepsTurns(g: Gate, ev: Event)
    requires InTurn(g) && SettledForGood(g) && PoisonedByLast(g) && IsRecovery(ev)
    ensures InTurn(Step(g, ev)) && SettledForGood(Step(g, ev)) && PoisonedByLast(Step(g, ev))
  {
  }

  lemma SettleKeepsHistory(g: Gate, op: nat)
    requires History(g)
    ensures History(g.(ops := Settle(g.ops, op)))
  {
    hide Interruptions, Decided;
  }

  lemma InterruptKeepsHistory(g: Gate)
    requires Owned(g) && History(g)
    ensures History(Interrupt(g))
  {
    hide SettledForGood, PoisonedByLast, ReportsDecided, Interruptions;
    OtherFieldsHoldNoHistory(g, Interrupt(g));
  }

  lemma AfterAwaitKeepsHistory(g: Gate, how: Settlement)
    requires Owned(g) && History(g) && IsSettled(g.ops, g.startOp) && IsSettled(g.ops, g.actionOp)
    ensures History(AfterAwait(g, how))
  {
    hide History;
    if how == Interrupted {
      InterruptKeepsHistory(g);
    } else {
      ReleaseKeepsHistory(g, false, true, false);
    }
  }

  lemma ClaimKeepsHistory(g: Gate)
    requires Inv(g) && History(g) && !g.active && !g.poisoned
    ensures Owned(Claim(g)) && History(Claim(g)) && Claim(g).startOp.None? && Claim(g).actionOp.None?
  {
    hide Interruptions, Decided;
  }

  lemma LaunchKeepsHistory(g: Gate)
    requires Owned(g) && History(g)
    ensures History(Launch(g).0)
  {
    hide Interruptions, Decided;
  }

  lemma OtherFieldsHoldNoHistory(g: Gate, h: Gate)
    requires History(g) && Logged(h)
    requires h == g.(startOp := h.startOp, actionOp := h.actionOp, phase := h.phase, helpers := h.helpers)
    ensures History(h)
  {
    hide Interruptions, Decided, Logged;
  }

  lemma OperationsAreNotLogged(g: Gate, startOp: Option<nat>, actionOp: Option<nat>, phase: Phase)
    requires History(g) && !phase.Settling? && !phase.Recovering?
    ensures History(g.(startOp := startOp, actionOp := actionOp, phase := phase))
  {
    hide Interruptions, SettledForGood, PoisonedByLast, ReportsDecided;
    OtherFieldsHoldNoHistory(g, g.(startOp := startOp, actionOp := actionOp, phase := phase));
  }

  lemma CallKeepsHistory(g: Gate, ev: Event)
    requires Inv(g) && History(g) && ev.Call? && Answered(g, ev) == Accepted
    ensures History(Step(g, ev))
  {
    hide History, Inv, Owned, Release, Interrupt;
    var c := Claim(g);
    ClaimKeepsHistory(g);
    if ev.startThrows.Some? && ev.startThrows.value != Fulfilled {
      AfterAwaitKeepsHistory(c, ev.startThrows.value);
    } else {
      LaunchKeepsHistory(c);
      OperationsAreNotLogged(Launch(c).0, Some(Launch(c).1), c.actionOp, c.phase);
    }
  }

  lemma StartSettledKeepsHistory(g: Gate, how: Settlement)
    requires Inv(g) && History(g) && g.phase == Starting
    ensures History(Step(g, StartSettled(how)))
  {
    hide History, Inv, Owned, Release, Interrupt;
    var h := g.(ops := Settle(g.ops, g.startOp.GetOr(0)));
    StartIsSettled(g);
    SettleKeepsHistory(g, g.startOp.GetOr(0));
    if how == Fulfilled {
      LaunchKeepsHistory(h);
      OperationsAreNotLogged(Launch(h).0, h.startOp, Some(Launch(h).1), Acting);
    } else {
      AfterAwaitKeepsHistory(h, how);
    }
  }

  lemma StartIsSettled(g: Gate)
    requires Inv(g) && g.phase == Starting
    ensures g.startOp.Some?
    ensures var h := g.(ops := Settle(g.ops, g.startOp.value));
            Owned(h) && IsSettled(h.ops, h.startOp) && IsSettled(h.ops, h.actionOp)
  {
  }

  lemma ActionSettledKeepsHistory(g: Gate, how: Settlement)
    requires Inv(g) && History(g) && g.phase == Acting
    ensures History(Step(g, ActionSettled(how)))
  {
    hide History, Inv, Owned, Release, Interrupt;
    ActionIsSettled(g);
    SettleKeepsHistory(g, g.actionOp.value);
    AfterAwaitKeepsHistory(g.(ops := Settle(g.ops, g.actionOp.value)), how);
  }

  lemma ActionIsSettled(g: Gate)
    requires Inv(g) && g.phase == Acting
    ensures g.actionOp.Some?
    ensures var h := g.(ops := Settle(g.ops, g.actionOp.value));
            Owned(h) && IsSettled(h.ops, h.startOp) && IsSettled(h.ops, h.actionOp)
  {
  }

  lemma StepKeepsHistory(g: Gate, ev: Event)
    requires Inv(g) && History(g)
    ensures History(Step(g, ev))
  {
    hide History, Owned, Release, Interrupt, Claim, Launch, AfterAwait, RecordRecovery, SettleReset, StartRecovery, Settle;
    if g.active {
      ActiveIsOwned(g);
    }
    match ev
    case Call(_, _, _) => if Answered(g, ev) == Accepted { CallKeepsHistory(g, ev); }
    case StartSettled(how) => if g.phase == Starting { StartSettledKeepsHistory(g, how); }
    case ActionSettled(how) => if g.phase == Acting { ActionSettledKeepsHistory(g, how); }
    case Abort => if g.phase == Starting || g.phase == Acting { InterruptKeepsHistory(g); }
    case RecoveryStarted => RecoveryKeepsHistory(g, ev);
    case ResetSettled(_, _) => RecoveryKeepsHistory(g, ev);
    case RecoveryRecorded(_) => RecoveryKeepsHistory(g, ev);
    case OpsSettled =>
      if g.phase.Settling? && IsSettled(g.ops, g.startOp) && IsSettled(g.ops, g.actionOp) {
        ReleaseKeepsHistory(g, true, true, !g.phase.recovered);
      }
    case SettlementTimedOut => if g.phase.Settling? && g.startOp.Some? { ReleaseKeepsHistory(g, true, false, true); }
    case LateSettled(op) => SettleKeepsHistory(g, op);
  }

  lemma {:induction false} RunKeepsHistory(events: seq<Event>)
    ensures History(Run(START, events))
  {
    hide Step, Inv;
    if events == [] {
      StartHistory();
    } else {
      RunKeepsHistory(events[..|events| - 1]);
      RunKeepsInv(events[..|events| - 1]);
      StepKeepsHistory(Run(START, events[..|events| - 1]), events[|events| - 1]);
    }
  }

  lemma StartHistory()
    ensures History(START)
  {
  }

  /**
    Over every run, an interrupted call leaves the session usable if and only if the
    recovery it was decided by, one recorded since it began, was a success and its own
    operations settled in time; the operations of a call reported settled are settled
    for good.
   */
  lemma EveryInterruptionIsDecided(events: seq<Event>)
    ensures var g := Run(START, events);
            forall i :: 0 <= i < |g.reports| ==>
              var r := g.reports[i];
              && (r.interrupted ==>
                    && r.began < r.recovery <= |g.recoveries|
                    && (!r.poisonedAfter <==> Succeeded(g.recoveries, r.recovery) && r.settled))
              && (r.settled ==> forall j :: 0 <= j < |g.ops| && g.ops[j].call == r.call ==> g.ops[j].settled)
  {
    RunKeepsHistory(events);
  }

  /**
    Over every run, accepted calls are served one at a time and reported in turn: a
    valid call is accepted if and only if every call accepted before has been reported
    and none of their reports poisoned the session. The page generation counts the
    interruptions.
   */
  lemma EveryCallIsServedInTurn(events: seq<Event>, ev: Event)
    requires ev.Call? && !ev.aborted && ev.deadlineFits
    ensures var g := Run(START, events);
            && (forall i :: 0 <= i < |g.reports| ==> g.reports[i].call == i)
            && |g.reports| <= g.calls <= |g.reports| + 1
            && (Answered(g, ev) == Accepted <==> |g.reports| == g.calls && forall i :: 0 <= i < |g.reports| ==> !g.reports[i].poisonedAfter)
            && (Answered(g, ev) == Busy <==> |g.reports| < g.calls)
            && (Answered(g, ev) == Poisoned <==> exists i :: 0 <= i < |g.reports| && g.reports[i].poisonedAfter)
            && g.pageGeneration == Interruptions(g.reports)
  {
    hide Interruptions, Run, Logged, ReportsDecided, SettledForGood;
    RunKeepsHistory(events);
    RunKeepsInv(events);
    PoisonedIsReported(Run(START, events));
    ActiveIsUnpoisoned(Run(START, events));
  }

  lemma PoisonedIsReported(g: Gate)
    requires PoisonedByLast(g) && (g.poisoned ==> g.reports != [])
    ensures g.poisoned <==> exists i :: 0 <= i < |g.reports| && g.reports[i].poisonedAfter
  {
    if g.poisoned {
      assert g.reports[|g.reports| - 1].poisonedAfter;
    }
  }

  lemma ActiveIsUnpoisoned(g: Gate)
    requires Inv(g)
    ensures g.active ==> !g.poisoned
  {
  }

  // ------------------------------------------------------------ how a call ends

  /** This event interrupts call c. */
  predicate Interrupts(g: Gate, ev: Event, c: nat) {
    if ev.Call? then Answered(g, ev) == Accepted && g.calls == c && ev.startThrows == Some(Interrupted)
    else
      && g.owner == Some(c)
      && (|| (ev.Abort? && (g.phase == Starting || g.phase == Acting))
          || (ev == StartSettled(Interrupted) && g.phase == Starting)
          || (ev == ActionSettled(Interrupted) && g.phase == Acting))
  }

  /** This event ends call c without an interruption. */
  predicate Ends(g: Gate, ev: Event, c: nat) {
    if ev.Call? then Answered(g, ev) == Accepted && g.calls == c && ev.startThrows == Some(Rejected)
    else
      && g.owner == Some(c)
      && (|| (ev == StartSettled(Rejected) && g.phase == Starting)
          || (ev.ActionSettled? && ev.how != Interrupted && g.phase == Acting))
  }

  /** This event ends the wait for the operations of the interrupted call c: they have settled, or took too long. */
  predicate EndsWait(g: Gate, ev: Event, c: nat, settled: bool) {
    && g.owner == Some(c) && g.phase.Settling?
    && if settled then ev.OpsSettled? && IsSettled(g.ops, g.startOp) && IsSettled(g.ops, g.actionOp)
       else ev.SettlementTimedOut? && g.startOp.Some?
  }

  datatype Ending = Interruption | Plainly | Waited(settled: bool)

  predicate Happens(g: Gate, ev: Event, c: nat, how: Ending) {
    match how
    case Interruption => Interrupts(g, ev, c)
    case Plainly => Ends(g, ev, c)
    case Waited(settled) => EndsWait(g, ev, c, settled)
  }

  ghost predicate Happened(events: seq<Event>, c: nat, how: Ending) {
    exists j :: 0 <= j < |events| && Happens(Run(START, events[..j]), events[j], c, how)
  }

  /** What has happened to call c, against where it stands and what is reported of it. */
  ghost predicate CourseOk(g: Gate, c: nat, interrupted: bool, ended: bool, settled: bool, late: bool) {
    && (c >= g.calls ==> !interrupted && !ended && !settled && !late)
    && (g.owner == Some(c) ==> !ended && !settled && !late && (interrupted <==> g.phase.Recovering? || g.phase.Settling?))
    && (c < |g.reports| ==>
          && (g.reports[c].interrupted <==> interrupted) && (interrupted <==> !ended)
          && (interrupted ==> (g.reports[c].settled <==> settled) && (settled <==> !late)))
  }

  lemma ReleaseKeepsCourse(g: Gate, c: nat, ended: bool, settled: bool, poisoned: bool)
    requires g.owner == Some(c) && c + 1 == g.calls && g.calls == |g.reports| + 1
    ensures CourseOk(Release(g, false, true, poisoned), c, false, true, false, false)
    ensures CourseOk(Release(g, true, settled, poisoned), c, true, false, settled, !settled)
  {
  }

  lemma ReportedStays(g: Gate, h: Gate, c: nat, interrupted: bool, ended: bool, settled: bool, late: bool)
    requires CourseOk(g, c, interrupted, ended, settled, late) && g.owner != Some(c) && h.owner != Some(c)
    requires c < |g.reports| <= |h.reports| && h.reports[c] == g.reports[c] && g.calls <= h.calls && c < g.calls
    ensures CourseOk(h, c, interrupted, ended, settled, late)
  {
  }

  /** One step of another call, or of none. */
  lemma ElsewhereKeepsCourse(g: Gate, ev: Event, c: nat, interrupted: bool, ended: bool, settled: bool, late: bool)
    requires Inv(g) && InTurn(g) && InTurn(Step(g, ev)) && CourseOk(g, c, interrupted, ended, settled, late)
    requires g.owner != Some(c) && !(ev.Call? && Answered(g, ev) == Accepted && g.calls == c)
    ensures CourseOk(Step(g, ev), c, interrupted, ended, settled, late)
    ensures forall how :: !Happens(g, ev, c, how)
  {
    hide Step, Inv, CourseOk;
    ReportsGrow(g, ev);
    OwnerHasEnded(g, c, interrupted, ended, settled, late);
    if c >= g.calls {
      NotCalledYet(Step(g, ev), c);
    }
    if c < g.calls {
      PastIsReported(g, c);
      ReportedStays(g, Step(g, ev), c, interrupted, ended, settled, late);
    }
  }

  ghost predicate GrowsTo(g: Gate, h: Gate, called: bool) {
    && g.reports <= h.reports
    && h.calls == g.calls + (if called then 1 else 0)
    && (h.owner.Some? ==> h.owner == g.owner || (called && h.owner == Some(g.calls)))
  }

  lemma AfterAwaitGrows(g: Gate, how: Settlement)
    ensures GrowsTo(g, AfterAwait(g, how), false)
  {
  }

  lemma CallGrows(g: Gate, ev: Event)
    requires ev.Call?
    ensures GrowsTo(g, Step(g, ev), Answered(g, ev) == Accepted)
  {
    if Answered(g, ev) == Accepted && ev.startThrows.Some? {
      AfterAwaitGrows(Claim(g), ev.startThrows.value);
    }
  }

  lemma RecoveryGrows(g: Gate, ev: Event)
    requires IsRecovery(ev)
    ensures GrowsTo(g, Step(g, ev), false)
  {
    hide Awaits;
  }

  lemma ReportsGrow(g: Gate, ev: Event)
    ensures GrowsTo(g, Step(g, ev), ev.Call? && Answered(g, ev) == Accepted)
  {
    hide AfterAwait, Interrupt;
    if ev.Call? {
      CallGrows(g, ev);
    } else if IsRecovery(ev) {
      RecoveryGrows(g, ev);
    } else {
      match ev
      case StartSettled(how) =>
        if g.startOp.Some? {
          AfterAwaitGrows(g.(ops := Settle(g.ops, g.startOp.value)), how);
        }
      case ActionSettled(how) =>
        if g.actionOp.Some? {
          AfterAwaitGrows(g.(ops := Settle(g.ops, g.actionOp.value)), how);
        }
      case Abort =>
        AfterAwaitGrows(g, Interrupted);
        AfterInterruption(g);
      case _ =>
    }
  }

  lemma CallTakesCourse(g: Gate, ev: Event)
    requires Inv(g) && InTurn(g) && ev.Call? && Answered(g, ev) == Accepted
    ensures CourseOk(Step(g, ev), g.calls, Interrupts(g, ev, g.calls), Ends(g, ev, g.calls), false, false)
    ensures forall settled :: !EndsWait(g, ev, g.calls, settled)
  {
    ReleaseKeepsCourse(Claim(g), g.calls, true, true, false);
  }

  lemma OwnerTakesCourse(g: Gate, ev: Event, c: nat, interrupted: bool)
    requires Inv(g) && InTurn(g) && g.owner == Some(c) && CourseOk(g, c, interrupted, false, false, false)
    ensures CourseOk(Step(g, ev), c, interrupted || Interrupts(g, ev, c), Ends(g, ev, c), EndsWait(g, ev, c, true), EndsWait(g, ev, c, false))
  {
    hide Logged, ReportsOk, Settled, Awaits;
    match ev
    case StartSettled(how) =>
      if g.phase == Starting && g.startOp.Some? {
        ReleaseKeepsCourse(g.(ops := Settle(g.ops, g.startOp.value)), c, true, true, false);
      }
    case ActionSettled(how) =>
      if g.phase == Acting && g.actionOp.Some? {
        ReleaseKeepsCourse(g.(ops := Settle(g.ops, g.actionOp.value)), c, true, true, false);
      }
    case OpsSettled =>
      if g.phase.Settling? {
        ReleaseKeepsCourse(g, c, false, true, !g.phase.recovered);
      }
    case SettlementTimedOut =>
      if g.phase.Settling? {
        ReleaseKeepsCourse(g, c, false, false, true);
      }
    case _ =>
  }

  lemma StepKeepsCourse(g: Gate, ev: Event, c: nat, interrupted: bool, ended: bool, settled: bool, late: bool)
    requires Inv(g) && History(g) && CourseOk(g, c, interrupted, ended, settled, late)
    ensures CourseOk(Step(g, ev), c, interrupted || Interrupts(g, ev, c), ended || Ends(g, ev, c),
                     settled || EndsWait(g, ev, c, true), late || EndsWait(g, ev, c, false))
  {
    hide Step, Inv, CourseOk, Interrupts, Ends, EndsWait, Answered;
    StepKeepsHistory(g, ev);
    OwnerHasEnded(g, c, interrupted, ended, settled, late);
    if g.owner == Some(c) {
      OwnerTakesCourse(g, ev, c, interrupted);
    } else if ev.Call? && Answered(g, ev) == Accepted && g.calls == c {
      CallTakesCourse(g, ev);
    } else {
      ElsewhereKeepsCourse(g, ev, c, interrupted, ended, settled, late);
      assert !Happens(g, ev, c, Interruption) && !Happens(g, ev, c, Plainly);
      assert !Happens(g, ev, c, Waited(true)) && !Happens(g, ev, c, Waited(false));
    }
  }

  lemma PastIsReported(g: Gate, c: nat)
    requires Inv(g) && InTurn(g) && c < g.calls && g.owner != Some(c)
    ensures c < |g.reports|
  {
    hide Logged, ReportsOk;
  }

  lemma NotCalledYet(g: Gate, c: nat)
    requires InTurn(g) && c >= g.calls && g.owner != Some(c)
    ensures CourseOk(g, c, false, false, false, false)
  {
  }

  lemma OwnerHasEnded(g: Gate, c: nat, interrupted: bool, ended: bool, settled: bool, late: bool)
    requires CourseOk(g, c, interrupted, ended, settled, late)
    ensures g.owner == Some(c) ==> !ended && !settled && !late
    ensures c >= g.calls ==> !interrupted && !ended && !settled && !late
  {
  }

  lemma HappenedLater(events: seq<Event>, c: nat, how: Ending)
    requires events != []
    ensures var front := events[..|events| - 1];
            Happened(events, c, how) <==> Happened(front, c, how) || Happens(Run(START, front), events[|events| - 1], c, how)
  {
    hide Happens, Run;
    var front := events[..|events| - 1];
    assert forall j :: 0 <= j < |front| ==> events[..j] == front[..j] && events[j] == front[j];
    if Happened(front, c, how) {
      var j :| 0 <= j < |front| && Happens(Run(START, front[..j]), front[j], c, how);
      assert Happens(Run(START, events[..j]), events[j], c, how);
    }
    if Happens(Run(START, front), events[|events| - 1], c, how) {
      assert Happens(Run(START, events[..|events| - 1]), events[|events| - 1], c, how);
    }
  }

  lemma {:induction false} RunKeepsCourse(events: seq<Event>, c: nat)
    ensures CourseOk(Run(START, events), c, Happened(events, c, Interruption), Happened(events, c, Plainly),
                     Happened(events, c, Waited(true)), Happened(events, c, Waited(false)))
  {
    hide Step, Inv, CourseOk, Happened, Interrupts, Ends, EndsWait;
    if events == [] {
      NothingHappened(c);
    } else {
      var front, last := events[..|events| - 1], events[|events| - 1];
      RunKeepsCourse(front, c);
      RunKeepsInv(front);
      RunKeepsHistory(front);
      HappenedLater(events, c, Interruption);
      HappenedLater(events, c, Plainly);
      HappenedLater(events, c, Waited(true));
      HappenedLater(events, c, Waited(false));
      StepKeepsCourse(Run(START, front), last, c, Happened(front, c, Interruption), Happened(front, c, Plainly),
                      Happened(front, c, Waited(true)), Happened(front, c, Waited(false)));
    }
  }

  lemma NothingHappened(c: nat)
    ensures CourseOk(START, c, false, false, false, false)
    ensures forall how :: !Happened([], c, how)
  {
  }

  /**
    Over every run, what is reported of a call is what happened to it. Its report says
    interrupted if and only if it was aborted, or its start or action failed with an
    interruption, while it owned the gate; otherwise it ended by its start or action
    settling. An interrupted one is reported once its operations have settled, or took
    too long, and says which. Until then it owns the gate and awaits its recovery.
   */
  lemma EveryEndingIsReported(events: seq<Event>, c: nat)
    ensures var g := Run(START, events);
            && (c < |g.reports| ==>
                  && g.reports[c].call == c
                  && (g.reports[c].interrupted <==> Happened(events, c, Interruption))
                  && (!g.reports[c].interrupted <==> Happened(events, c, Plainly))
                  && (g.reports[c].interrupted && g.reports[c].settled <==> Happened(events, c, Waited(true)))
                  && (g.reports[c].interrupted && !g.reports[c].settled <==> Happened(events, c, Waited(false))))
            && (Happened(events, c, Plainly) || Happened(events, c, Waited(true)) || Happened(events, c, Waited(false)) ==> c < |g.reports|)
            && (Happened(events, c, Interruption) && c >= |g.reports| ==>
                  g.owner == Some(c) && (g.phase.Recovering? || g.phase.Settling?))
  {
    hide Happened, Run;
    RunKeepsCourse(events, c);
    RunKeepsInv(events);
    RunKeepsHistory(events);
    WaitsWereInterrupted(events, c);
  }

  /** Only an interrupted call waits. */
  lemma {:induction false} WaitsWereInterrupted(events: seq<Event>, c: nat)
    ensures Happened(events, c, Waited(true)) || Happened(events, c, Waited(false)) ==> Happened(events, c, Interruption)
  {
    hide Step, Inv, Happened, Interrupts, Ends, Run;
    if events == [] {
      NothingHappened(c);
    } else {
      var front := events[..|events| - 1];
      WaitsWereInterrupted(front, c);
      RunKeepsCourse(front, c);
      HappenedLater(events, c, Interruption);
      HappenedLater(events, c, Waited(true));
      HappenedLater(events, c, Waited(false));
    }
  }

  /**
    An interruption is decided by the last recovery recorded since the call began, and
    else by one started for it.
   */
  lemma InterruptionAwaits(g: Gate, ev: Event, c: nat)
    requires Inv(g) && Interrupts(g, ev, c)
    ensures var h := Step(g, ev);
            h.owner == Some(c) &&
            if !ev.Call? && |g.recoveries| > g.recoveryGeneration
            then h.phase == Settling(g.recoveries[|g.recoveries| - 1].Some?, |g.recoveries|)
            else h.phase == Recovering(|g.helpers|) && h.helpers == g.helpers + [Resetting]
  {
    hide ReportsOk;
  }

  // ------------------------------------------------- whether the reset was the call's

  /** Call number c, if its interruption left the session usable, saw a reset succeed since it began. */
  ghost predicate SawItsReset(g: Gate, c: nat) {
    forall i :: 0 <= i < |g.reports| && g.reports[i].call == c && g.reports[i].interrupted && !g.reports[i].poisonedAfter ==>
      SawReset(g.reports[i])
  }

  /** A recovery whose reset has succeeded but which is not recorded yet. */
  ghost predicate Unrecorded(g: Gate) {
    exists r :: 0 <= r < |g.helpers| && g.helpers[r].Reset?
  }

  /** Every reset that could still decide call number c succeeded since it began. */
  ghost predicate OnlyNewResets(g: Gate, c: nat) {
    && c < g.calls && (g.active ==> g.owner.Some? && g.owner.value + 1 == g.calls)
    && (g.owner == Some(c) ==>
          && g.resetsAtBegin <= g.resets
          && (forall r :: 0 <= r < |g.helpers| && g.helpers[r].Reset? ==> g.helpers[r].number > g.resetsAtBegin)
          && (forall k :: g.recoveryGeneration <= k < |g.recoveries| && g.recoveries[k].Some? ==> g.recoveries[k].value > g.resetsAtBegin))
    && SawItsReset(g, c)
  }

  lemma ReleaseKeepsOnlyNewResets(g: Gate, c: nat, interrupted: bool, settled: bool, poisoned: bool)
    requires Logged(g) && g.active && OnlyNewResets(g, c)
    requires interrupted && !poisoned ==> g.phase.Settling? && g.phase.recovered
    ensures OnlyNewResets(Release(g, interrupted, settled, poisoned), c)
  {
    var h := Release(g, interrupted, settled, poisoned);
    forall i | 0 <= i < |h.reports| && h.reports[i].call == c && h.reports[i].interrupted && !h.reports[i].poisonedAfter
      ensures SawReset(h.reports[i])
    {
      if i < |g.reports| {
        assert h.reports[i] == g.reports[i];
      } else {
        assert g.recoveries[g.phase.recovery - 1].Some?;
      }
    }
  }

  lemma SettlementIsNew(g: Gate, c: nat, awaiting: set<nat>, ok: bool)
    requires OnlyNewResets(g, c)
    ensures OnlyNewResets(SettleReset(g, awaiting, ok), c)
  {
    hide SawReset, Awaits;
  }

  lemma RecordIsNew(g: Gate, c: nat, helper: nat)
    requires OnlyNewResets(g, c)
    ensures OnlyNewResets(RecordRecovery(g, helper), c)
  {
    hide SawReset;
  }

  lemma RecoveryKeepsOnlyNewResets(g: Gate, c: nat, ev: Event)
    requires OnlyNewResets(g, c) && IsRecovery(ev)
    ensures OnlyNewResets(Step(g, ev), c)
  {
    hide OnlyNewResets, SettleReset, RecordRecovery;
    match ev
    case RecoveryStarted => OtherFieldsAreNoResets(g, StartRecovery(g), c);
    case ResetSettled(awaiting, ok) => SettlementIsNew(g, c, awaiting, ok);
    case RecoveryRecorded(helper) => RecordIsNew(g, c, helper);
  }

  lemma OtherFieldsAreNoResets(g: Gate, h: Gate, c: nat)
    requires OnlyNewResets(g, c)
    requires h == g.(startOp := h.startOp, actionOp := h.actionOp, phase := h.phase, ops := h.ops)
             || h == g.(phase := h.phase, helpers := g.helpers + [Resetting])
    ensures OnlyNewResets(h, c)
  {
    hide SawReset;
  }

  lemma AfterAwaitKeepsOnlyNewResets(g: Gate, c: nat, how: Settlement)
    requires Logged(g) && g.active && OnlyNewResets(g, c)
    ensures OnlyNewResets(AfterAwait(g, how), c)
  {
    hide Logged, OnlyNewResets, Release;
    if how == Interrupted {
      OtherFieldsAreNoResets(g, Interrupt(g), c);
    } else {
      ReleaseKeepsOnlyNewResets(g, c, false, true, false);
    }
  }

  /** Another call's claim is no concern of call c. */
  lemma LaterClaim(g: Gate, c: nat)
    requires Inv(g) && OnlyNewResets(g, c) && !g.active
    ensures OnlyNewResets(Claim(g), c)
  {
    hide SawReset;
  }

  /** The rest of an accepted call's first step. */
  lemma ClaimedKeepsOnlyNewResets(g: Gate, c: nat, ev: Event)
    requires Logged(Claim(g)) && OnlyNewResets(Claim(g), c) && ev.Call? && Answered(g, ev) == Accepted
    ensures OnlyNewResets(Step(g, ev), c)
  {
    hide Logged, OnlyNewResets, Release, Interrupt;
    var h := Claim(g);
    if ev.startThrows.Some? && ev.startThrows.value != Fulfilled {
      AfterAwaitKeepsOnlyNewResets(h, c, ev.startThrows.value);
    } else {
      OtherFieldsAreNoResets(h, Step(g, ev), c);
    }
  }

  lemma SettledOpIsNoReset(g: Gate, c: nat, op: nat)
    requires OnlyNewResets(g, c) && Logged(g)
    ensures OnlyNewResets(g.(ops := Settle(g.ops, op)), c) && Logged(g.(ops := Settle(g.ops, op)))
  {
    hide OnlyNewResets;
    OtherFieldsAreNoResets(g, g.(ops := Settle(g.ops, op)), c);
  }

  lemma LaunchIsNoReset(g: Gate, c: nat)
    requires OnlyNewResets(g, c)
    ensures var (k, op) := Launch(g); OnlyNewResets(k.(actionOp := Some(op), phase := Acting), c)
  {
    hide OnlyNewResets;
    var (k, op) := Launch(g);
    OtherFieldsAreNoResets(g, k.(actionOp := Some(op), phase := Acting), c);
  }

  lemma StepKeepsOnlyNewResets(g: Gate, c: nat, ev: Event)
    requires Inv(g) && OnlyNewResets(g, c)
    ensures OnlyNewResets(Step(g, ev), c)
  {
    hide Gated, Logged, ReportsOk, OnlyNewResets, Release, Interrupt, Launch, Claim, AfterAwait, Settle, RecordRecovery, SettleReset, StartRecovery, IsSettled;
    match ev
    case Call(_, _, _) =>
      if Answered(g, ev) == Accepted {
        LaterClaim(g, c);
        ClaimIsLogged(g);
        ClaimedKeepsOnlyNewResets(g, c, ev);
      }
    case StartSettled(how) =>
      if g.phase == Starting && g.startOp.Some? {
        PhaseIsActive(g);
        SettledOpIsNoReset(g, c, g.startOp.value);
        LaunchIsNoReset(g.(ops := Settle(g.ops, g.startOp.value)), c);
        AfterAwaitKeepsOnlyNewResets(g.(ops := Settle(g.ops, g.startOp.value)), c, how);
      }
    case ActionSettled(how) =>
      if g.phase == Acting && g.actionOp.Some? {
        PhaseIsActive(g);
        SettledOpIsNoReset(g, c, g.actionOp.value);
        AfterAwaitKeepsOnlyNewResets(g.(ops := Settle(g.ops, g.actionOp.value)), c, how);
      }
    case Abort =>
      if g.phase == Starting || g.phase == Acting {
        PhaseIsActive(g);
        AfterAwaitKeepsOnlyNewResets(g, c, Interrupted);
        AfterInterruption(g);
      }
    case OpsSettled =>
      if g.phase.Settling? {
        PhaseIsActive(g);
        ReleaseKeepsOnlyNewResets(g, c, true, true, !g.phase.recovered);
      }
    case SettlementTimedOut =>
      if g.phase.Settling? {
        PhaseIsActive(g);
        ReleaseKeepsOnlyNewResets(g, c, true, false, true);
      }
    case LateSettled(op) => SettledOpIsNoReset(g, c, op);
    case _ => RecoveryKeepsOnlyNewResets(g, c, ev);
  }

  lemma PhaseIsActive(g: Gate)
    requires Gated(g) && g.phase != Released
    ensures g.active
  {
  }

  lemma AfterInterruption(g: Gate)
    ensures AfterAwait(g, Interrupted) == Interrupt(g)
  {
  }

  lemma {:induction false} RunKeepsOnlyNewResets(g: Gate, c: nat, more: seq<Event>)
    requires Inv(g) && OnlyNewResets(g, c)
    ensures Inv(Run(g, more)) && OnlyNewResets(Run(g, more), c)
    decreases |more|
  {
    hide Inv, OnlyNewResets, Step;
    if more != [] {
      RunKeepsOnlyNewResets(g, c, more[..|more| - 1]);
      StepKeepsInv(Run(g, more[..|more| - 1]), more[|more| - 1]);
      StepKeepsOnlyNewResets(Run(g, more[..|more| - 1]), c, more[|more| - 1]);
    }
  }

  lemma {:induction false} RunInParts(g: Gate, events: seq<Event>, more: seq<Event>)
    ensures Run(g, events + more) == Run(Run(g, events), more)
    decreases |more|
  {
    hide Step;
    if more == [] {
      assert events + more == events;
    } else {
      RunInParts(g, events, more[..|more| - 1]);
      assert (events + more)[..|events + more| - 1] == events + more[..|more| - 1];
    }
  }

  lemma RunOneMore(events: seq<Event>, ev: Event)
    ensures Run(START, events + [ev]) == Step(Run(START, events), ev)
  {
    hide Step;
    assert (events + [ev])[..|events|] == events;
  }

  lemma ClaimHasOnlyNewResets(g: Gate)
    requires Inv(g) && InTurn(g) && !g.active && !Unrecorded(g)
    ensures OnlyNewResets(Claim(g), g.calls)
  {
    hide SawReset;
  }

  /**
    A call accepted while no recovery of an earlier reset is still unrecorded, whatever
    follows: if its interruption leaves the session usable, a reset has succeeded since
    it began.
   */
  lemma CallSeesItsReset(events: seq<Event>, ev: Event, more: seq<Event>)
    requires Answered(Run(START, events), ev) == Accepted && ev.Call? && !Unrecorded(Run(START, events))
    ensures SawItsReset(Run(START, events + [ev] + more), Run(START, events).calls)
  {
    hide Step, Inv, InTurn, Unrecorded, Claim;
    var g := Run(START, events);
    RunKeepsInv(events);
    RunKeepsHistory(events);
    ClaimHasOnlyNewResets(g);
    ClaimIsLogged(g);
    ClaimedKeepsOnlyNewResets(g, g.calls, ev);
    StepKeepsInv(g, ev);
    RunOneMore(events, ev);
    RunKeepsOnlyNewResets(Step(g, ev), g.calls, more);
    RunInParts(START, events + [ev], more);
  }

  const CALL: Event := Call(false, true, None)

  /** What may follow otherwise: the late record decides the call, which is then left usable. */
  function LateRecord(g: Gate, r: nat): seq<Event> {
    [RecoveryRecorded(r), Abort, LateSettled(|g.ops|), OpsSettled]
  }

  lemma LateRecordDecides(g: Gate, r: nat)
    requires Inv(g) && Answered(g, CALL) == Accepted && r < |g.helpers| && g.helpers[r].Reset?
    ensures !SawItsReset(Run(Step(g, CALL), LateRecord(g, r)), g.calls)
  {
    hide Gated, ReportsOk;
    var events := LateRecord(g, r);
    assert events[..3] == [RecoveryRecorded(r), Abort, LateSettled(|g.ops|)];
    assert events[..3][..2] == [RecoveryRecorded(r), Abort] && events[..2][..1] == [RecoveryRecorded(r)] && events[..1][..0] == [];
    var g1 := Step(g, CALL);
    var g2 := Step(g1, RecoveryRecorded(r));
    var g3 := Step(g2, Abort);
    var g4 := Step(g3, LateSettled(|g.ops|));
    LateInterruption(g, r);
    var g5 := Step(g4, OpsSettled);
    FourSteps(g1, events[0], events[1], events[2], events[3]);
    var report := g5.reports[|g5.reports| - 1];
    assert report.call == g.calls && !SawReset(report);
  }

  lemma FourSteps(g: Gate, a: Event, b: Event, c: Event, d: Event)
    ensures Run(g, [a, b, c, d]) == Step(Step(Step(Step(g, a), b), c), d)
  {
    hide Step;
    assert [a, b, c, d][..3] == [a, b, c] && [a, b, c][..2] == [a, b] && [a, b][..1] == [a] && [a][..0] == [];
    assert Run(g, [a]) == Step(Run(g, []), a);
    assert Run(g, [a, b]) == Step(Run(g, [a]), b);
    assert Run(g, [a, b, c]) == Step(Run(g, [a, b]), c);
  }

  /** The call after the record and the abort: settling on that recovery. */
  lemma LateInterruption(g: Gate, r: nat)
    requires Inv(g) && Answered(g, CALL) == Accepted && r < |g.helpers| && g.helpers[r].Reset?
    ensures var h := Step(Step(Step(Step(g, CALL), RecoveryRecorded(r)), Abort), LateSettled(|g.ops|));
            && h.phase == Settling(true, g.helperGeneration + 1) && h.owner == Some(g.calls)
            && IsSettled(h.ops, h.startOp) && h.actionOp.None? && DecidingReset(h) <= h.resetsAtBegin
  {
    hide ReportsOk;
  }

  /**
    A call that is accepted sees a reset of its own in every continuation that
    interrupts it and leaves the session usable, if and only if, when it is accepted,
    no recovery is waiting to be recorded whose reset has succeeded already.
   */
  lemma ResetSeenExactly(events: seq<Event>)
    requires Answered(Run(START, events), CALL) == Accepted
    ensures var g := Run(START, events);
            (forall more :: SawItsReset(Run(START, events + [CALL] + more), g.calls)) <==> !Unrecorded(g)
  {
    hide Step, Inv, SawItsReset, LateRecord, Answered;
    var g := Run(START, events);
    if Unrecorded(g) {
      var r :| 0 <= r < |g.helpers| && g.helpers[r].Reset?;
      RunKeepsInv(events);
      LateRecordDecides(g, r);
      RunOneMore(events, CALL);
      RunInParts(START, events + [CALL], LateRecord(g, r));
      assert !SawItsReset(Run(START, events + [CALL] + LateRecord(g, r)), g.calls);
    } else {
      forall more
        ensures SawItsReset(Run(START, events + [CALL] + more), g.calls)
      {
        CallSeesItsReset(events, CALL, more);
      }
    }
  }

  /** Such a session: a recovery of the helper's own, outside any call, between its reset and its record. */
  lemma RecoveryMayBeLate()
    ensures var g := Run(START, [RecoveryStarted, ResetSettled({0}, true)]);
            Unrecorded(g) && Answered(g, CALL) == Accepted
  {
    var events := [RecoveryStarted, ResetSettled({0}, true)];
    assert events[..1] == [RecoveryStarted] && events[..1][..0] == [];
    var g := Step(START, RecoveryStarted);
    assert Run(START, events[..1]) == g;
    assert g.helpers[0] == Resetting;
    var h := Step(g, ResetSettled({0}, true));
    assert Run(START, events) == h;
    assert h.helpers[0].Reset?;
  }
}
