/** What other goroutines do to the memory of the mapping service while
    applyAndPersist waits for the catalog. It holds catalogMu, so there is one save
    at a time, but gives up mu; when the save is lost it puts back the memory it
    cloned before. Every critical section under mu is one action below, and the
    actions of different goroutines interleave in any order. */
module MappingSaves {

  import opened MappingMemory
  import opened Strings

  datatype Saving = Idle | InProgress(previous: Memory, next: Memory)

  datatype State = State(live: bool, mem: Memory, catalog: Memory, saving: Saving)

  datatype Action =
    | BeginSave(next: Memory)                   // clone the memory and apply a change
    | SaveDone
    | SaveLost
    | TakeReservation(suffix: string, epoch: nat)
    | DropReservation(suffix: string)
    | GiveUpEpoch(suffix: string, epoch: nat)
    | CancelAll

  // What the catalog holds after a save: no reservations.
  function Keep(m: Memory): Memory {
    m.(mappings := map s | s in m.mappings && Configured(m.mappings[s]) :: m.mappings[s])
  }

  // No change that is applied takes a retirement back.
  ghost predicate Retires(m: Memory, next: Memory) {
    forall s :: Retired(m.retired, s) <= Retired(next.retired, s)
  }

  // await returns without an error only if the service is still live.
  ghost predicate Enabled(state: State, action: Action) {
    match action
    case BeginSave(next) => state.live && state.saving.Idle? && Retires(state.mem, next)
    case SaveDone => state.live && state.saving.InProgress?
    case SaveLost => state.saving.InProgress?
    case TakeReservation(suffix, _) => state.live && !IsConfigured(state.mem, suffix)
    case DropReservation(_) => state.live
    case GiveUpEpoch(_, _) => true
    case CancelAll => true
  }

  function Restored(saving: Saving): Memory
    requires saving.InProgress?
  {
    Undo(saving.previous, NewEpochs(saving.previous, saving.next))
  }

  function GivenUp(m: Memory, suffix: string, epoch: nat): Memory {
    Release(m, suffix).(retired := Retire(m.retired, suffix, epoch))
  }

  function Next(state: State, action: Action): State
    requires action.SaveDone? || action.SaveLost? ==> state.saving.InProgress?
  {
    match action
    case BeginSave(next) => state.(mem := next, saving := InProgress(state.mem, next))
    case SaveDone => state.(catalog := Keep(state.saving.next), saving := Idle)
    case SaveLost => state.(mem := Restored(state.saving), saving := Idle)
    case TakeReservation(suffix, epoch) => state.(mem := Reserve(state.mem, suffix, epoch))
    case DropReservation(suffix) => state.(mem := Release(state.mem, suffix))
    case GiveUpEpoch(suffix, epoch) => state.(mem := GivenUp(state.mem, suffix, epoch))
    case CancelAll => state.(live := false, mem := Memory(map[], map[], state.mem.revision))
  }

  ghost predicate IsStep(state: State, action: Action, state': State) {
    Enabled(state, action) && state' == Next(state, action)
  }

  ghost predicate IsRun(states: seq<State>, actions: seq<Action>) {
    && |states| == |actions| + 1
    && forall k {:trigger IsStep(states[k], actions[k], states[k + 1])} :: 0 <= k < |actions| ==>
         IsStep(states[k], actions[k], states[k + 1])
  }

  lemma StepOf(states: seq<State>, actions: seq<Action>, k: nat)
    requires IsRun(states, actions) && k < |actions|
    ensures IsStep(states[k], actions[k], states[k + 1])
  {
  }

  // ------------------------------------------------------------------
  // The catalog
  // ------------------------------------------------------------------

  ghost predicate Saved(catalog: Memory, m: Memory) {
    && catalog.mappings == Keep(m).mappings && catalog.revision == m.revision
    && Retires(catalog, m)
  }

  // While a save is in progress the catalog belongs to the memory cloned before.
  ghost predicate Matches(state: State) {
    state.live ==>
      match state.saving
      case Idle => Saved(state.catalog, state.mem)
      case InProgress(previous, next) =>
        && Saved(state.catalog, previous)
        && Saved(Keep(next), state.mem)
  }

  lemma ReservationsAreNotKept(m: Memory, suffix: string, epoch: nat)
    ensures !IsConfigured(m, suffix) ==> Keep(Reserve(m, suffix, epoch)).mappings == Keep(m).mappings
    ensures Keep(Release(m, suffix)).mappings == Keep(m).mappings
    ensures Keep(GivenUp(m, suffix, epoch)).mappings == Keep(m).mappings
  {
  }

  lemma UndoKeeps(m: Memory, epochs: map<string, nat>)
    ensures Keep(Undo(m, epochs)).mappings == Keep(m).mappings && Retires(m, Undo(m, epochs))
  {
  }

  lemma MatchesStep(state: State, action: Action)
    requires Matches(state) && Enabled(state, action)
    ensures Matches(Next(state, action))
  {
    match action {
      case SaveLost =>
        UndoKeeps(state.saving.previous, NewEpochs(state.saving.previous, state.saving.next));
      case TakeReservation(suffix, epoch) => ReservationsAreNotKept(state.mem, suffix, epoch);
      case DropReservation(suffix) => ReservationsAreNotKept(state.mem, suffix, 0);
      case GiveUpEpoch(suffix, epoch) => ReservationsAreNotKept(state.mem, suffix, epoch);
      case _ =>
    }
  }

  /** In every interleaving the catalog holds the configured mappings of a live
      service whenever no save is in progress. */
  lemma {:induction false} CatalogAlwaysMatches(states: seq<State>, actions: seq<Action>, k: nat)
    requires IsRun(states, actions) && k <= |actions| && Matches(states[0])
    ensures Matches(states[k])
  {
    if k > 0 {
      CatalogAlwaysMatches(states, actions, k - 1);
      StepOf(states, actions, k - 1);
      MatchesStep(states[k - 1], actions[k - 1]);
    }
  }

  // ------------------------------------------------------------------
  // What a lost save forgets
  // ------------------------------------------------------------------

  ghost predicate IsSave(states: seq<State>, actions: seq<Action>, b: nat, f: nat) {
    && IsRun(states, actions) && b < f < |actions| && actions[b].BeginSave?
    && (actions[f].SaveDone? || actions[f].SaveLost?)
    && forall i :: b < i < f ==> !actions[i].SaveDone? && !actions[i].SaveLost?
  }

  lemma {:induction false} SaveStays(states: seq<State>, actions: seq<Action>, b: nat, f: nat, k: nat)
    requires IsSave(states, actions, b, f) && b < k <= f
    ensures states[k].saving == InProgress(states[b].mem, actions[b].next)
  {
    if k == b + 1 {
      StepOf(states, actions, b);
    } else {
      SaveStays(states, actions, b, f, k - 1);
      StepOf(states, actions, k - 1);
    }
  }

  /** A lost save leaves a memory that only depends on the one it began with:
      whatever others did meanwhile is gone. */
  lemma LostSaveForgets(states: seq<State>, actions: seq<Action>, b: nat, f: nat)
    requires IsSave(states, actions, b, f) && actions[f].SaveLost?
    ensures states[f + 1].mem == Undo(states[b].mem, NewEpochs(states[b].mem, actions[b].next))
  {
    SaveStays(states, actions, b, f, f);
    StepOf(states, actions, f);
  }

  // How far the suffix is retired when the change is undone.
  function Floor(previous: Memory, next: Memory, s: string): nat {
    var epochs := NewEpochs(previous, next);
    if s in epochs && epochs[s] > Retired(previous.retired, s) then epochs[s] else Retired(previous.retired, s)
  }

  lemma {:induction false} RetirementStays(states: seq<State>, actions: seq<Action>, i: nat, k: nat, s: string)
    requires IsRun(states, actions) && i <= k <= |actions|
    requires forall j :: i <= j < k ==> !actions[j].SaveLost? && !actions[j].CancelAll?
    ensures Retired(states[i].mem.retired, s) <= Retired(states[k].mem.retired, s)
  {
    if i < k {
      RetirementStays(states, actions, i, k - 1, s);
      StepOf(states, actions, k - 1);
    }
  }

  // A service that is live was never cancelled.
  lemma {:induction false} StaysLive(states: seq<State>, actions: seq<Action>, k: nat)
    requires IsRun(states, actions) && k <= |actions| && states[k].live
    ensures forall i :: 0 <= i < k ==> states[i].live && !actions[i].CancelAll?
  {
    if k > 0 {
      StepOf(states, actions, k - 1);
      StaysLive(states, actions, k - 1);
    }
  }

  /** An epoch given up during a save stays retired exactly when the save is done
      (and the service not cancelled before that), or when the memory from before
      the save and the undone change cover it. */
  lemma GivenUpStaysIff(states: seq<State>, actions: seq<Action>, b: nat, f: nat, i: nat)
    requires IsSave(states, actions, b, f) && b < i < f && actions[i].GiveUpEpoch?
    ensures actions[i].epoch <= Retired(states[f + 1].mem.retired, actions[i].suffix) <==>
            actions[f].SaveDone? || actions[i].epoch <= Floor(states[b].mem, actions[b].next, actions[i].suffix)
  {
    var s := actions[i].suffix;
    StepOf(states, actions, f);
    if actions[f].SaveLost? {
      LostSaveForgets(states, actions, b, f);
    } else {
      StaysLive(states, actions, f);
      StepOf(states, actions, i);
      RetirementStays(states, actions, i + 1, f + 1, s);
    }
  }

  // ------------------------------------------------------------------
  // Cancelled services
  // ------------------------------------------------------------------

  // A save that was lost after the service was cancelled, with no later Cancel.
  ghost predicate LostAfterCancel(states: seq<State>, actions: seq<Action>, f: nat, k: nat)
    requires |states| == |actions| + 1 && k <= |actions|
  {
    && f < k && actions[f].SaveLost? && states[f].saving.InProgress? && !states[f].live
    && forall j :: f < j < k ==> !actions[j].CancelAll?
  }

  // Once cancelled, a service begins no save.
  lemma {:induction false} StaysIdle(states: seq<State>, actions: seq<Action>, i: nat, k: nat)
    requires IsRun(states, actions) && i <= k <= |actions| && !states[i].live && states[i].saving.Idle?
    ensures !states[k].live && states[k].saving.Idle?
  {
    if i < k {
      StaysIdle(states, actions, i, k - 1);
      StepOf(states, actions, k - 1);
    }
  }

  lemma ConfiguredAfterUndo(m: Memory, epochs: map<string, nat>, s: string)
    ensures IsConfigured(Undo(m, epochs), s) <==> IsConfigured(m, s)
  {
  }

  // A cancelled service loses at most one save.
  lemma LostOnce(states: seq<State>, actions: seq<Action>, f: nat, k: nat)
    requires IsRun(states, actions) && k < |actions| && actions[k].SaveLost?
    requires LostAfterCancel(states, actions, f, k + 1)
    ensures f == k
  {
    StepOf(states, actions, k);
    if f < k {
      StepOf(states, actions, f);
      StaysIdle(states, actions, f + 1, k);
      assert false;
    }
  }

  /** A cancelled service is promised to have forgotten its mappings. It has a
      mapping exactly when a save was in progress when it was cancelled, that save
      was lost, and the mapping was there before the save began. */
  lemma {:induction false} CancelledHoldsIff(states: seq<State>, actions: seq<Action>, k: nat, s: string)
    requires IsRun(states, actions) && k <= |actions| && states[0].live && !states[k].live
    ensures IsConfigured(states[k].mem, s) <==>
            exists f: nat :: LostAfterCancel(states, actions, f, k) && IsConfigured(states[f].saving.previous, s)
  {
    var i := k - 1;
    StepOf(states, actions, i);
    if actions[i].SaveLost? {
      ConfiguredAfterUndo(states[i].saving.previous, NewEpochs(states[i].saving.previous, states[i].saving.next), s);
      forall f: nat | LostAfterCancel(states, actions, f, k)
        ensures f == i
      {
        LostOnce(states, actions, f, i);
      }
      assert LostAfterCancel(states, actions, i, k);
    } else if !actions[i].CancelAll? {
      CancelledHoldsIff(states, actions, i, s);
      assert forall f: nat :: LostAfterCancel(states, actions, f, k) <==> LostAfterCancel(states, actions, f, i);
    }
  }

  // ------------------------------------------------------------------
  // Examples
  // ------------------------------------------------------------------

  // The run that these actions make from a live service that is saved.
  function RunFrom(state: State, actions: seq<Action>): (states: seq<State>)
    requires |actions| == 3
    requires actions[0].BeginSave? && !actions[1].SaveDone? && !actions[1].SaveLost? && actions[2].SaveLost?
    ensures |states| == 4
  {
    var second := Next(state, actions[0]);
    var third := Next(second, actions[1]);
    [state, second, third, Next(third, actions[2])]
  }

  /** Cancel during a save that is lost: the cancelled service has all the mappings
      it had before. */
  lemma CancelIsUndone(m: Memory, next: Memory)
    requires Retires(m, next)
    ensures var actions := [BeginSave(next), CancelAll, SaveLost];
            var states := RunFrom(State(true, m, Keep(m), Idle), actions);
            && IsRun(states, actions) && Matches(states[0]) && !states[3].live
            && Keep(states[3].mem).mappings == Keep(m).mappings
  {
  }

  /** A create gives up the epoch of its reference while the change of another
      suffix is saved, and that save is lost: the next create takes the same
      reference again. */
  lemma GivenUpIsLost(m: Memory, next: Memory, s: string)
    requires Retires(m, next) && !IsConfigured(m, s) && !IsConfigured(next, s)
    ensures var actions := [BeginSave(next), GiveUpEpoch(s, NextEpoch(m, s)), SaveLost];
            var states := RunFrom(State(true, m, Keep(m), Idle), actions);
            && IsRun(states, actions) && Matches(states[0]) && states[3].live
            && NextEpoch(states[2].mem, s) > NextEpoch(m, s) == NextEpoch(states[3].mem, s)
  {
  }
}
