/** Call admission and shutdown of plugins/cloudflare-dns/service.go.

    begin, awaitOwned, Cancel and Close run in many goroutines over a live flag,
    two bounded token pools (slots and hostCalls) and a wait group (active).
    Every atomic step of that code is one action of the state machine below; the
    actions of different goroutines interleave in any order. Whether a context is
    already done is the environment's choice, so it is part of the action. */
module Admission {

  const MAX_ACTIVE_CALLS := 64

  datatype OptionalCall = NoCall | InCall(call: nat)

  // An operation, from the moment begin counted it.
  datatype Op =
    | Admitted                          // counted in active, no slot yet
    | Open(awaiting: OptionalCall)      // slot taken; perhaps inside awaitOwned
    | Leaving                           // slot returned, still counted
    | Ended

  // One execution of awaitOwned.
  datatype Phase =
    | Entered         // before the first liveness check
    | Checked         // first check passed
    | HoldsToken      // hostCalls token taken, not counted yet
    | Counted         // counted in active, before the second check
    | Approved        // second check passed, goroutine not started yet
    | Running         // goroutine started, the host call is in progress
    | Returned        // the host call ended, its deferred steps are pending
    | CleanedUp       // cleanup ran
    | TokenReturned   // hostCalls token returned, still counted
    | BackingOut      // second check failed; token and count still held
    | BackedOut       // token returned, still counted
    | Rejected        // nothing held, cleanup pending
    | Done

  datatype Call = Call(op: nat, phase: Phase, cleanups: nat)

  datatype State = State(
    live: bool, slots: nat, hostCalls: nat, active: nat,
    ops: seq<Op>, calls: seq<Call>, closed: bool)

  // The steps of begin's second half and of the function it returns.
  datatype OpStep = TakeSlot | Refuse | ReturnSlot | Leave

  // The steps of awaitOwned and of the goroutine it starts.
  datatype CallStep =
    | PassFirstCheck
    | FailFirstCheck
    | TakeToken
    | GiveUp            // the context is done or no token is free
    | CountCall
    | PassSecondCheck
    | FailSecondCheck
    | StartHostCall
    | BackOutToken
    | BackOutCount
    | CleanUpRejected
    | HostCallEnds
    | CleanUp
    | ReturnToken
    | UncountCall

  datatype Action =
    | BeginAdmit                        // begin's critical section under mu
    | OnOp(op: nat, opStep: OpStep)
    | AwaitEnter(op: nat)
    | OnCall(call: nat, callStep: CallStep)
    | AwaitLeave(op: nat)               // the owner stops waiting
    | Cancel
    | CloseReturns                      // active.Wait returned after this Close cancelled

  const Initial := State(true, 0, 0, 0, [], [], false)

  // ------------------------------------------------------------------
  // Steps
  // ------------------------------------------------------------------

  function OpFrom(step: OpStep): Op {
    match step
    case TakeSlot => Admitted
    case Refuse => Admitted
    case ReturnSlot => Open(NoCall)
    case Leave => Leaving
  }

  function OpTo(step: OpStep): Op {
    match step
    case TakeSlot => Open(NoCall)
    case Refuse => Ended
    case ReturnSlot => Leaving
    case Leave => Ended
  }

  function SlotDelta(step: OpStep): int {
    match step
    case TakeSlot => 1
    case Refuse => 0
    case ReturnSlot => -1
    case Leave => 0
  }

  function OpActiveDelta(step: OpStep): int {
    match step
    case TakeSlot => 0
    case Refuse => -1
    case ReturnSlot => 0
    case Leave => -1
  }

  function CallFrom(step: CallStep): Phase {
    match step
    case PassFirstCheck => Entered
    case FailFirstCheck => Entered
    case TakeToken => Checked
    case GiveUp => Checked
    case CountCall => HoldsToken
    case PassSecondCheck => Counted
    case FailSecondCheck => Counted
    case StartHostCall => Approved
    case BackOutToken => BackingOut
    case BackOutCount => BackedOut
    case CleanUpRejected => Rejected
    case HostCallEnds => Running
    case CleanUp => Returned
    case ReturnToken => CleanedUp
    case UncountCall => TokenReturned
  }

  function CallTo(step: CallStep): Phase {
    match step
    case PassFirstCheck => Checked
    case FailFirstCheck => Rejected
    case TakeToken => HoldsToken
    case GiveUp => Rejected
    case CountCall => Counted
    case PassSecondCheck => Approved
    case FailSecondCheck => BackingOut
    case StartHostCall => Running
    case BackOutToken => BackedOut
    case BackOutCount => Rejected
    case CleanUpRejected => Done
    case HostCallEnds => Returned
    case CleanUp => CleanedUp
    case ReturnToken => TokenReturned
    case UncountCall => Done
  }

  function TokenDelta(step: CallStep): int {
    match step
    case TakeToken => 1
    case BackOutToken => -1
    case ReturnToken => -1
    case _ => 0
  }

  function CallActiveDelta(step: CallStep): int {
    match step
    case CountCall => 1
    case BackOutCount => -1
    case UncountCall => -1
    case _ => 0
  }

  function CleanupDelta(step: CallStep): nat {
    match step
    case CleanUpRejected => 1
    case CleanUp => 1
    case _ => 0
  }

  predicate CallGuard(s: State, step: CallStep) {
    match step
    case PassFirstCheck => s.live
    case PassSecondCheck => s.live
    case TakeToken => s.hostCalls < MAX_ACTIVE_CALLS
    case _ => true
  }

  predicate OpGuard(s: State, step: OpStep) {
    match step
    case TakeSlot => s.slots < MAX_ACTIVE_CALLS
    case Refuse => s.slots >= MAX_ACTIVE_CALLS
    case _ => true
  }

  // The owner is still inside awaitOwned before the goroutine was started.
  predicate BeforeStart(phase: Phase) {
    || phase.Entered? || phase.Checked? || phase.HoldsToken? || phase.Counted?
    || phase.Approved? || phase.BackingOut? || phase.BackedOut? || phase.Rejected?
  }

  predicate Enabled(s: State, a: Action) {
    match a
    case BeginAdmit => s.live
    case OnOp(op, step) =>
      && op < |s.ops| && s.ops[op] == OpFrom(step) && OpGuard(s, step)
      && s.slots + SlotDelta(step) >= 0 && s.active + OpActiveDelta(step) >= 0
    case AwaitEnter(op) => op < |s.ops| && s.ops[op] == Open(NoCall)
    case OnCall(call, step) =>
      && call < |s.calls| && s.calls[call].phase == CallFrom(step) && CallGuard(s, step)
      && s.hostCalls + TokenDelta(step) >= 0 && s.active + CallActiveDelta(step) >= 0
    case AwaitLeave(op) =>
      && op < |s.ops| && s.ops[op].Open? && s.ops[op].awaiting.InCall?
      && var call := s.ops[op].awaiting.call; call < |s.calls| && !BeforeStart(s.calls[call].phase)
    case Cancel => true
    case CloseReturns => !s.live && s.active == 0
  }

  function Stepped(call: Call, step: CallStep): Call {
    Call(call.op, CallTo(step), call.cleanups + CleanupDelta(step))
  }

  function Apply(s: State, a: Action): State
    requires Enabled(s, a)
  {
    match a
    case BeginAdmit => s.(active := s.active + 1, ops := s.ops + [Admitted])
    case OnOp(op, step) =>
      s.(ops := s.ops[op := OpTo(step)], slots := s.slots + SlotDelta(step), active := s.active + OpActiveDelta(step))
    case AwaitEnter(op) =>
      s.(ops := s.ops[op := Open(InCall(|s.calls|))], calls := s.calls + [Call(op, Entered, 0)])
    case OnCall(call, step) =>
      s.(calls := s.calls[call := Stepped(s.calls[call], step)],
         hostCalls := s.hostCalls + TokenDelta(step), active := s.active + CallActiveDelta(step))
    case AwaitLeave(op) => s.(ops := s.ops[op := Open(NoCall)])
    case Cancel => s.(live := false)
    case CloseReturns => s.(closed := true)
  }

  // ------------------------------------------------------------------
  // What each goroutine holds
  // ------------------------------------------------------------------

  function OpCount(op: Op): nat {
    if op.Ended? then 0 else 1
  }

  function OpSlots(op: Op): nat {
    if op.Open? then 1 else 0
  }

  function CallCount(call: Call): nat {
    match call.phase
    case Counted => 1
    case Approved => 1
    case Running => 1
    case Returned => 1
    case CleanedUp => 1
    case TokenReturned => 1
    case BackingOut => 1
    case BackedOut => 1
    case _ => 0
  }

  function CallTokens(call: Call): nat {
    match call.phase
    case HoldsToken => 1
    case Counted => 1
    case Approved => 1
    case Running => 1
    case Returned => 1
    case CleanedUp => 1
    case BackingOut => 1
    case _ => 0
  }

  function RunningCalls(call: Call): nat {
    if call.phase.Running? then 1 else 0
  }

  function Total<T>(xs: seq<T>, weight: T -> nat): nat {
    if xs == [] then 0 else weight(xs[0]) + Total(xs[1..], weight)
  }

  lemma {:induction false} TotalOfUpdate<T>(xs: seq<T>, weight: T -> nat, i: nat, x: T)
    requires i < |xs|
    ensures Total(xs[i := x], weight) + weight(xs[i]) == Total(xs, weight) + weight(x)
    ensures weight(xs[i]) <= Total(xs, weight)
  {
    if i == 0 {
      assert xs[0 := x][1..] == xs[1..];
    } else {
      assert xs[i := x][1..] == xs[1..][i - 1 := x];
      TotalOfUpdate(xs[1..], weight, i - 1, x);
    }
  }

  lemma {:induction false} TotalOfAppend<T>(xs: seq<T>, weight: T -> nat, x: T)
    ensures Total(xs + [x], weight) == Total(xs, weight) + weight(x)
  {
    if xs == [] {
      assert xs + [x] == [x];
    } else {
      assert (xs + [x])[1..] == xs[1..] + [x];
      TotalOfAppend(xs[1..], weight, x);
    }
  }

  lemma {:induction false} TotalDominates<T>(xs: seq<T>, light: T -> nat, heavy: T -> nat)
    requires forall x :: x in xs ==> light(x) <= heavy(x)
    ensures Total(xs, light) <= Total(xs, heavy)
  {
    if xs != [] {
      TotalDominates(xs[1..], light, heavy);
    }
  }

  lemma {:induction false} TotalZero<T>(xs: seq<T>, weight: T -> nat)
    requires Total(xs, weight) == 0
    ensures forall i :: 0 <= i < |xs| ==> weight(xs[i]) == 0
  {
    forall i | 0 <= i < |xs|
      ensures weight(xs[i]) == 0
    {
      TotalOfUpdate(xs, weight, i, xs[i]);
    }
  }

  // ------------------------------------------------------------------
  // The invariant
  // ------------------------------------------------------------------

  predicate CleanupDone(phase: Phase) {
    phase.CleanedUp? || phase.TokenReturned? || phase.Done?
  }

  ghost predicate Counters(s: State) {
    && s.slots == Total(s.ops, OpSlots) <= MAX_ACTIVE_CALLS
    && s.hostCalls == Total(s.calls, CallTokens) <= MAX_ACTIVE_CALLS
    && s.active == Total(s.ops, OpCount) + Total(s.calls, CallCount)
  }

  predicate OpIs(s: State, op: nat, state: Op) {
    op < |s.ops| && s.ops[op] == state
  }

  ghost predicate Ownership(s: State) {
    && (forall op :: 0 <= op < |s.ops| && s.ops[op].Open? && s.ops[op].awaiting.InCall? ==>
          s.ops[op].awaiting.call < |s.calls|)
    && (forall c :: 0 <= c < |s.calls| && BeforeStart(s.calls[c].phase) ==>
          OpIs(s, s.calls[c].op, Open(InCall(c))))
  }

  ghost predicate Cleanups(s: State) {
    forall c :: 0 <= c < |s.calls| ==>
      s.calls[c].cleanups == if CleanupDone(s.calls[c].phase) then 1 else 0
  }

  ghost predicate Inv(s: State) {
    && Counters(s)
    && Ownership(s)
    && Cleanups(s)
    && (s.closed ==> !s.live && s.active == 0)
  }

  // While an operation or a call is counted, active is positive.
  lemma CountedIsPositive(s: State)
    requires Counters(s)
    ensures forall op :: 0 <= op < |s.ops| && !s.ops[op].Ended? ==> s.active > 0
    ensures forall c :: 0 <= c < |s.calls| && CallCount(s.calls[c]) > 0 ==> s.active > 0
  {
    forall op | 0 <= op < |s.ops| && !s.ops[op].Ended?
      ensures s.active > 0
    {
      TotalOfUpdate(s.ops, OpCount, op, Ended);
    }
    forall c | 0 <= c < |s.calls| && CallCount(s.calls[c]) > 0
      ensures s.active > 0
    {
      TotalOfUpdate(s.calls, CallCount, c, s.calls[c]);
    }
  }

  // Each step pays exactly for what its goroutine holds afterwards.
  lemma StepsBalance()
    ensures forall call: Call, step :: call.phase == CallFrom(step) ==>
              && CallTokens(Stepped(call, step)) == CallTokens(call) + TokenDelta(step)
              && CallCount(Stepped(call, step)) == CallCount(call) + CallActiveDelta(step)
    ensures forall step :: OpSlots(OpTo(step)) == OpSlots(OpFrom(step)) + SlotDelta(step)
    ensures forall step :: OpCount(OpTo(step)) == OpCount(OpFrom(step)) + OpActiveDelta(step)
  {
  }

  lemma CountersStep(s: State, a: Action)
    requires Counters(s) && Enabled(s, a)
    ensures Counters(Apply(s, a))
  {
    StepsBalance();
    match a {
      case BeginAdmit =>
        TotalOfAppend(s.ops, OpSlots, Admitted);
        TotalOfAppend(s.ops, OpCount, Admitted);
      case OnOp(op, step) =>
        TotalOfUpdate(s.ops, OpSlots, op, OpTo(step));
        TotalOfUpdate(s.ops, OpCount, op, OpTo(step));
      case AwaitEnter(op) =>
        TotalOfUpdate(s.ops, OpSlots, op, Open(InCall(|s.calls|)));
        TotalOfUpdate(s.ops, OpCount, op, Open(InCall(|s.calls|)));
        TotalOfAppend(s.calls, CallTokens, Call(op, Entered, 0));
        TotalOfAppend(s.calls, CallCount, Call(op, Entered, 0));
      case OnCall(call, step) =>
        TotalOfUpdate(s.calls, CallTokens, call, Stepped(s.calls[call], step));
        TotalOfUpdate(s.calls, CallCount, call, Stepped(s.calls[call], step));
      case AwaitLeave(op) =>
        TotalOfUpdate(s.ops, OpSlots, op, Open(NoCall));
        TotalOfUpdate(s.ops, OpCount, op, Open(NoCall));
      case Cancel =>
      case CloseReturns =>
    }
  }

  lemma OwnershipStep(s: State, a: Action)
    requires Ownership(s) && Cleanups(s) && Enabled(s, a)
    ensures Ownership(Apply(s, a)) && Cleanups(Apply(s, a))
  {
    var t := Apply(s, a);
    forall c | 0 <= c < |t.calls| && BeforeStart(t.calls[c].phase)
      ensures OpIs(t, t.calls[c].op, Open(InCall(c)))
    {
      if c < |s.calls| {
        assert BeforeStart(s.calls[c].phase);
      }
    }
    forall c | 0 <= c < |t.calls|
      ensures t.calls[c].cleanups == if CleanupDone(t.calls[c].phase) then 1 else 0
    {
      assert c < |s.calls| ==> s.calls[c].cleanups == if CleanupDone(s.calls[c].phase) then 1 else 0;
    }
  }

  // A counter only rises while the service is live or still counts someone, so
  // the wait group is never revived from zero once the service was cancelled.
  lemma ActiveRisesOnlyWhileCounted(s: State, a: Action)
    requires Counters(s) && Ownership(s) && Enabled(s, a)
    ensures Apply(s, a).active > s.active ==> a.BeginAdmit? || s.active > 0
    ensures !s.live && s.active == 0 ==> Apply(s, a).active == 0 && !Apply(s, a).live
  {
    CountedIsPositive(s);
    if a.OnCall? && a.callStep.CountCall? {
      assert OpIs(s, s.calls[a.call].op, Open(InCall(a.call)));
    }
  }

  lemma InvStep(s: State, a: Action)
    requires Inv(s) && Enabled(s, a)
    ensures Inv(Apply(s, a))
  {
    CountersStep(s, a);
    OwnershipStep(s, a);
    if s.closed {
      ActiveRisesOnlyWhileCounted(s, a);
    }
  }

  // ------------------------------------------------------------------
  // All interleavings
  // ------------------------------------------------------------------

  // states[k + 1] is reached from states[k] by actions[k].
  ghost predicate IsRun(states: seq<State>, actions: seq<Action>) {
    && |states| == |actions| + 1
    && states[0] == Initial
    && forall k {:trigger Enabled(states[k], actions[k])} :: 0 <= k < |actions| ==>
         Enabled(states[k], actions[k]) && states[k + 1] == Apply(states[k], actions[k])
  }

  lemma StepOf(states: seq<State>, actions: seq<Action>, k: nat)
    requires IsRun(states, actions) && k < |actions|
    ensures Enabled(states[k], actions[k]) && states[k + 1] == Apply(states[k], actions[k])
  {
  }

  lemma {:induction false} RunInv(states: seq<State>, actions: seq<Action>, k: nat)
    requires IsRun(states, actions) && k < |states|
    ensures Inv(states[k])
    decreases k
  {
    if k > 0 {
      RunInv(states, actions, k - 1);
      InvStep(states[k - 1], actions[k - 1]);
    }
  }

  /** At most 64 host calls run, at most 64 operations are open, and the wait
      counter is exactly the operations and host calls it has to wait for. */
  lemma BoundsAlways(states: seq<State>, actions: seq<Action>, k: nat)
    requires IsRun(states, actions) && k < |states|
    ensures Total(states[k].calls, RunningCalls) <= states[k].hostCalls <= 64
    ensures Total(states[k].ops, OpSlots) == states[k].slots <= 64
    ensures states[k].active == Total(states[k].ops, OpCount) + Total(states[k].calls, CallCount)
  {
    RunInv(states, actions, k);
    TotalDominates(states[k].calls, RunningCalls, CallTokens);
  }

  /** cleanup never runs twice, never before the host call ended, and has run by
      the time awaitOwned and its goroutine are done. */
  lemma CleanupExactlyOnce(states: seq<State>, actions: seq<Action>, k: nat, call: nat)
    requires IsRun(states, actions) && k < |states| && call < |states[k].calls|
    ensures states[k].calls[call].cleanups <= 1
    ensures states[k].calls[call].phase == Running || BeforeStart(states[k].calls[call].phase) ==>
              states[k].calls[call].cleanups == 0
    ensures states[k].calls[call].phase == Done ==> states[k].calls[call].cleanups == 1
  {
    RunInv(states, actions, k);
  }

  // Nothing is left of a service that was cancelled and counts nobody.
  ghost predicate Quiescent(s: State) {
    && (forall op :: 0 <= op < |s.ops| ==> s.ops[op].Ended?)
    && (forall c :: 0 <= c < |s.calls| ==> s.calls[c].phase == Done)
  }

  lemma NoneCountedIsQuiescent(s: State)
    requires Counters(s) && Ownership(s) && s.active == 0
    ensures Quiescent(s)
  {
    TotalZero(s.ops, OpCount);
    TotalZero(s.calls, CallCount);
    assert forall op :: 0 <= op < |s.ops| ==> OpCount(s.ops[op]) == 0;
    forall c | 0 <= c < |s.calls|
      ensures s.calls[c].phase == Done
    {
      assert !BeforeStart(s.calls[c].phase);
      assert CallCount(s.calls[c]) == 0;
    }
  }

  lemma {:induction false} ClosedStays(states: seq<State>, actions: seq<Action>, k: nat, later: nat)
    requires IsRun(states, actions) && k <= later < |states| && states[k].closed
    ensures states[later].closed
    decreases later
  {
    if k < later {
      ClosedStays(states, actions, k, later - 1);
      StepOf(states, actions, later - 1);
    }
  }

  /** Once a Close has returned nil, no operation is open and no host call runs,
      then or at any later time, and neither can be started any more. */
  lemma NothingAfterClose(states: seq<State>, actions: seq<Action>, k: nat, later: nat)
    requires IsRun(states, actions) && k <= later < |states| && states[k].closed
    ensures Quiescent(states[later])
    ensures forall a :: Enabled(states[later], a) ==> a.Cancel? || a.CloseReturns?
  {
    ClosedStays(states, actions, k, later);
    RunInv(states, actions, later);
    NoneCountedIsQuiescent(states[later]);
  }

  /** An operation is refused exactly when 64 operations are open; otherwise it gets
      a slot. */
  lemma RefusedExactlyWhenFull(states: seq<State>, actions: seq<Action>, k: nat, op: nat)
    requires IsRun(states, actions) && k < |states| && op < |states[k].ops| && states[k].ops[op].Admitted?
    ensures Enabled(states[k], OnOp(op, Refuse)) <==> Total(states[k].ops, OpSlots) == MAX_ACTIVE_CALLS
    ensures Enabled(states[k], OnOp(op, TakeSlot)) <==> Total(states[k].ops, OpSlots) < MAX_ACTIVE_CALLS
  {
    RunInv(states, actions, k);
    CountedIsPositive(states[k]);
  }

  // ------------------------------------------------------------------
  // After Cancel
  // ------------------------------------------------------------------

  // Past the second check: the host call runs, ran, or is about to.
  predicate Committed(phase: Phase) {
    || phase.Approved? || phase.Running? || phase.Returned?
    || phase.CleanedUp? || phase.TokenReturned?
  }

  function ApprovedCalls(call: Call): nat {
    if call.phase.Approved? then 1 else 0
  }

  lemma {:induction false} CancelledStays(states: seq<State>, actions: seq<Action>, k: nat, later: nat)
    requires IsRun(states, actions) && k <= later < |states| && !states[k].live
    ensures !states[later].live && |states[later].ops| == |states[k].ops|
    ensures |states[k].calls| <= |states[later].calls|
    decreases later
  {
    if k < later {
      CancelledStays(states, actions, k, later - 1);
      StepOf(states, actions, later - 1);
    }
  }

  lemma CommittedStep(s: State, a: Action, call: nat)
    requires !s.live && Enabled(s, a) && call < |Apply(s, a).calls| && Committed(Apply(s, a).calls[call].phase)
    ensures call < |s.calls| && Committed(s.calls[call].phase)
    ensures Apply(s, a).calls[call].phase.Approved? ==> s.calls[call].phase.Approved?
  {
  }

  /** After Cancel a host call runs only if it had passed both checks before: a call
      that had not, or that enters awaitOwned later, never runs. No operation is
      admitted any more. */
  lemma {:induction false} NothingStartsAfterCancel(
      states: seq<State>, actions: seq<Action>, k: nat, later: nat, call: nat)
    requires IsRun(states, actions) && k <= later < |states| && !states[k].live && call < |states[later].calls|
    requires Committed(states[later].calls[call].phase)
    ensures call < |states[k].calls| && Committed(states[k].calls[call].phase)
    ensures states[later].calls[call].phase.Approved? ==> states[k].calls[call].phase.Approved?
    ensures |states[later].ops| == |states[k].ops|
    decreases later
  {
    CancelledStays(states, actions, k, later);
    if k < later {
      CancelledStays(states, actions, k, later - 1);
      StepOf(states, actions, later - 1);
      CommittedStep(states[later - 1], actions[later - 1], call);
      NothingStartsAfterCancel(states, actions, k, later - 1, call);
    }
  }

  // No token was taken and none will be.
  predicate TurnedAway(phase: Phase) {
    phase.Entered? || phase.Rejected? || phase.Done?
  }

  lemma TurnedAwayStep(s: State, a: Action, call: nat)
    requires !s.live && Enabled(s, a) && call < |Apply(s, a).calls|
    requires call < |s.calls| ==> TurnedAway(s.calls[call].phase)
    ensures TurnedAway(Apply(s, a).calls[call].phase)
  {
  }

  /** A call that enters awaitOwned after Cancel, or was still before its first check,
      never takes a token and ends with one cleanup. */
  lemma {:induction false} TurnedAwayAfterCancel(
      states: seq<State>, actions: seq<Action>, k: nat, later: nat, call: nat)
    requires IsRun(states, actions) && k <= later < |states| && !states[k].live && call < |states[later].calls|
    requires call < |states[k].calls| ==> states[k].calls[call].phase.Entered?
    ensures TurnedAway(states[later].calls[call].phase)
    ensures states[later].calls[call].phase == Done ==> states[later].calls[call].cleanups == 1
    decreases later
  {
    CleanupExactlyOnce(states, actions, later, call);
    if k < later {
      CancelledStays(states, actions, k, later - 1);
      if call < |states[later - 1].calls| {
        TurnedAwayAfterCancel(states, actions, k, later - 1, call);
      }
      StepOf(states, actions, later - 1);
      TurnedAwayStep(states[later - 1], actions[later - 1], call);
    }
  }

  /** So a host call that starts after Cancel was approved before it, and there are
      at most 64 of those. */
  lemma StartsWereApproved(states: seq<State>, actions: seq<Action>, k: nat, later: nat, call: nat)
    requires IsRun(states, actions) && k <= later < |actions| && !states[k].live
    requires actions[later] == OnCall(call, StartHostCall)
    ensures call < |states[k].calls| && states[k].calls[call].phase.Approved?
    ensures Total(states[k].calls, ApprovedCalls) <= MAX_ACTIVE_CALLS
  {
    StepOf(states, actions, later);
    NothingStartsAfterCancel(states, actions, k, later, call);
    RunInv(states, actions, k);
    TotalDominates(states[k].calls, ApprovedCalls, CallTokens);
  }

  // The steps of one call in a row.
  ghost predicate Reaches(s: State, call: nat, steps: seq<CallStep>, t: State)
    decreases |steps|
  {
    if steps == [] then t == s
    else Enabled(s, OnCall(call, steps[0])) && Reaches(Apply(s, OnCall(call, steps[0])), call, steps[1..], t)
  }

  lemma OneMoreStep(s: State, call: nat, step: CallStep, steps: seq<CallStep>, t: State)
    requires Enabled(s, OnCall(call, step)) && Reaches(Apply(s, OnCall(call, step)), call, steps, t)
    ensures Reaches(s, call, [step] + steps, t)
  {
    assert ([step] + steps)[1..] == steps;
  }

  lemma CountedCallRuns(s: State, call: nat) returns (t: State)
    requires s.live && call < |s.calls| && s.calls[call].phase.Counted?
    ensures Reaches(s, call, [PassSecondCheck] + [StartHostCall], t)
    ensures call < |t.calls| && t.calls[call].phase.Running?
  {
    var checked := Apply(s, OnCall(call, PassSecondCheck));
    t := Apply(checked, OnCall(call, StartHostCall));
    assert Reaches(checked, call, [StartHostCall], t);
    OneMoreStep(s, call, PassSecondCheck, [StartHostCall], t);
  }

  /** While the service is live and a token is free, a call that enters awaitOwned
      gets its host call to run. */
  lemma LiveCallRuns(s: State, call: nat) returns (t: State)
    requires s.live && s.hostCalls < MAX_ACTIVE_CALLS && call < |s.calls| && s.calls[call].phase.Entered?
    ensures var last := [PassSecondCheck] + [StartHostCall];
            Reaches(s, call, [PassFirstCheck] + ([TakeToken] + ([CountCall] + last)), t)
    ensures call < |t.calls| && t.calls[call].phase.Running?
  {
    var passed := Apply(s, OnCall(call, PassFirstCheck));
    var holding := Apply(passed, OnCall(call, TakeToken));
    var steps := [PassSecondCheck] + [StartHostCall];
    t := CountedCallRuns(Apply(holding, OnCall(call, CountCall)), call);
    OneMoreStep(holding, call, CountCall, steps, t);
    OneMoreStep(passed, call, TakeToken, [CountCall] + steps, t);
    OneMoreStep(s, call, PassFirstCheck, [TakeToken] + ([CountCall] + steps), t);
  }

  /** No step ever finds a counter or a pool empty that it has to give back to,
      so the guards on zero in Enabled exclude nothing. */
  lemma NothingReturnedTwice(states: seq<State>, actions: seq<Action>, k: nat)
    requires IsRun(states, actions) && k < |states|
    ensures var s := states[k];
            && (forall op :: 0 <= op < |s.ops| && !s.ops[op].Ended? ==> s.active > 0)
            && (forall op :: 0 <= op < |s.ops| && s.ops[op].Open? ==> s.slots > 0)
            && (forall c :: 0 <= c < |s.calls| && CallCount(s.calls[c]) > 0 ==> s.active > 0)
            && (forall c :: 0 <= c < |s.calls| && CallTokens(s.calls[c]) > 0 ==> s.hostCalls > 0)
  {
    var s := states[k];
    RunInv(states, actions, k);
    CountedIsPositive(s);
    forall op | 0 <= op < |s.ops| && s.ops[op].Open?
      ensures s.slots > 0
    {
      TotalOfUpdate(s.ops, OpSlots, op, Ended);
    }
    forall c | 0 <= c < |s.calls| && CallTokens(s.calls[c]) > 0
      ensures s.hostCalls > 0
    {
      TotalOfUpdate(s.calls, CallTokens, c, s.calls[c]);
    }
  }

  // ------------------------------------------------------------------
  // Progress
  // ------------------------------------------------------------------

  // The steps that bring an operation or a call closer to its end. Left out are a
  // new operation, a new call of an open one, Cancel and Close.
  predicate WindsDown(a: Action) {
    a.OnOp? || a.OnCall? || a.AwaitLeave?
  }

  // How many such steps an operation or a call can still make.
  function OpWork(op: Op): nat {
    match op
    case Admitted => 4
    case Open(awaiting) => if awaiting.InCall? then 3 else 2
    case Leaving => 1
    case Ended => 0
  }

  function CallWork(call: Call): nat {
    match call.phase
    case Entered => 9
    case Checked => 8
    case HoldsToken => 7
    case Counted => 6
    case Approved => 5
    case Running => 4
    case Returned => 3
    case CleanedUp => 2
    case TokenReturned => 1
    case BackingOut => 3
    case BackedOut => 2
    case Rejected => 1
    case Done => 0
  }

  function Work(s: State): nat {
    Total(s.ops, OpWork) + Total(s.calls, CallWork)
  }

  lemma WorkFalls(s: State, a: Action)
    requires Enabled(s, a) && WindsDown(a)
    ensures Work(Apply(s, a)) < Work(s)
  {
    match a {
      case OnOp(op, step) =>
        TotalOfUpdate(s.ops, OpWork, op, OpTo(step));
      case OnCall(call, step) =>
        TotalOfUpdate(s.calls, CallWork, call, Stepped(s.calls[call], step));
      case AwaitLeave(op) =>
        TotalOfUpdate(s.ops, OpWork, op, Open(NoCall));
    }
  }

  lemma {:induction false} SomePositive<T>(xs: seq<T>, weight: T -> nat) returns (i: nat)
    requires Total(xs, weight) > 0
    ensures i < |xs| && weight(xs[i]) > 0
  {
    if weight(xs[0]) > 0 {
      i := 0;
    } else {
      i := SomePositive(xs[1..], weight);
      i := i + 1;
    }
  }

  // The step that a call not yet done can always make, live service or not.
  function NextCallStep(phase: Phase): CallStep
    requires !phase.Done?
  {
    match phase
    case Entered => FailFirstCheck
    case Checked => GiveUp
    case HoldsToken => CountCall
    case Counted => FailSecondCheck
    case Approved => StartHostCall
    case Running => HostCallEnds
    case Returned => CleanUp
    case CleanedUp => ReturnToken
    case TokenReturned => UncountCall
    case BackingOut => BackOutToken
    case BackedOut => BackOutCount
    case Rejected => CleanUpRejected
  }

  lemma CallCanStep(s: State, c: nat)
    requires Counters(s) && c < |s.calls| && !s.calls[c].phase.Done?
    ensures Enabled(s, OnCall(c, NextCallStep(s.calls[c].phase)))
  {
    TotalOfUpdate(s.calls, CallTokens, c, s.calls[c]);
    TotalOfUpdate(s.calls, CallCount, c, s.calls[c]);
  }

  // The step of an operation that waits for no call that has to start first.
  lemma OpCanStep(s: State, op: nat) returns (a: Action)
    requires Counters(s) && Ownership(s) && op < |s.ops| && !s.ops[op].Ended?
    ensures Enabled(s, a) && WindsDown(a)
  {
    TotalOfUpdate(s.ops, OpSlots, op, s.ops[op]);
    TotalOfUpdate(s.ops, OpCount, op, s.ops[op]);
    match s.ops[op] {
      case Admitted =>
        a := OnOp(op, if s.slots < MAX_ACTIVE_CALLS then TakeSlot else Refuse);
      case Leaving =>
        a := OnOp(op, Leave);
      case Open(awaiting) =>
        if awaiting.NoCall? {
          a := OnOp(op, ReturnSlot);
        } else if BeforeStart(s.calls[awaiting.call].phase) {
          CallCanStep(s, awaiting.call);
          a := OnCall(awaiting.call, NextCallStep(s.calls[awaiting.call].phase));
        } else {
          a := AwaitLeave(op);
        }
    }
  }

  /** As long as anything is counted, some step is possible that brings it closer
      to its end, whether the service is live or not. */
  lemma SomeStep(s: State) returns (a: Action)
    requires Counters(s) && Ownership(s) && s.active > 0
    ensures Enabled(s, a) && WindsDown(a)
  {
    if Total(s.ops, OpCount) > 0 {
      var op := SomePositive(s.ops, OpCount);
      a := OpCanStep(s, op);
    } else {
      var c := SomePositive(s.calls, CallCount);
      CallCanStep(s, c);
      a := OnCall(c, NextCallStep(s.calls[c].phase));
    }
  }

  // A run that starts anywhere and only winds down.
  ghost predicate WindsDownFrom(s: State, states: seq<State>, actions: seq<Action>) {
    && |states| == |actions| + 1 && states[0] == s
    && forall k :: 0 <= k < |actions| ==>
         WindsDown(actions[k]) && Enabled(states[k], actions[k]) && states[k + 1] == Apply(states[k], actions[k])
  }

  lemma WindsDownFirst(s: State, a: Action, states: seq<State>, actions: seq<Action>)
    requires Enabled(s, a) && WindsDown(a) && WindsDownFrom(Apply(s, a), states, actions)
    ensures WindsDownFrom(s, [s] + states, [a] + actions)
  {
  }

  lemma {:induction false} Drains(s: State) returns (states: seq<State>, actions: seq<Action>)
    requires Inv(s)
    ensures WindsDownFrom(s, states, actions) && |actions| <= Work(s)
    ensures states[|actions|].active == 0 && states[|actions|].live == s.live
    decreases Work(s)
  {
    if s.active == 0 {
      states, actions := [s], [];
    } else {
      var a := SomeStep(s);
      WorkFalls(s, a);
      InvStep(s, a);
      states, actions := Drains(Apply(s, a));
      WindsDownFirst(s, a, states, actions);
      states, actions := [s] + states, [a] + actions;
    }
  }

  /** From every state that can be reached with the service cancelled, Close can
      return after a bounded number of steps of what is already there. Every such
      step is one fewer to go, so Close does return once host calls end and open
      operations make no new ones. */
  lemma CloseCanReturn(states: seq<State>, actions: seq<Action>, k: nat) returns (rest: seq<State>, steps: seq<Action>)
    requires IsRun(states, actions) && k < |states| && !states[k].live
    ensures WindsDownFrom(states[k], rest, steps) && |steps| <= Work(states[k])
    ensures Enabled(rest[|steps|], CloseReturns)
  {
    RunInv(states, actions, k);
    rest, steps := Drains(states[k]);
  }
}
