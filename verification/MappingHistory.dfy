/** Whole lifetimes of the mapping service, as values: what one operation makes of
    the state it finds, and what holds of every sequence of such steps. */
module MappingHistory {

  import opened Suffix
  import opened MappingMemory
  import opened MappingRules
  import opened Strings

  datatype Command =
    | CreateCmd(suffix: string, provider: string, materialBytes: nat, host: Host)
    | ShareCmd(suffix: string, source: string, host: Host)
    | RenameCmd(suffix: string, newSuffix: string, host: Host)
    | RotateCmd(suffix: string, materialBytes: nat, host: Host)
    | DeleteCmd(suffix: string, host: Host)
    | CancelCmd

  datatype State = State(live: bool, mem: Memory, events: seq<Event>)

  // ------------------------------------------------------------------
  // One operation
  // ------------------------------------------------------------------

  // The operation did what it is asked for.
  ghost predicate Effect(command: Command, before: Memory, after: Memory) {
    match command
    case CreateCmd(suffix, provider, _, _) => Created(before, after, NameOf(suffix), provider)
    case ShareCmd(suffix, source, _) => SharedFrom(before, after, NameOf(suffix), NameOf(source))
    case RenameCmd(suffix, newSuffix, _) => RenamedTo(before, after, NameOf(suffix), NameOf(newSuffix))
    case RotateCmd(suffix, _, host) => RotatedAt(before, after, NameOf(suffix), host)
    case DeleteCmd(suffix, _) => DeletedAt(before, after, NameOf(suffix))
    case CancelCmd => false
  }

  // It did nothing, except perhaps for retiring epochs.
  ghost predicate NoEffect(command: Command, before: Memory, after: Memory) {
    match command
    case CreateCmd(suffix, _, _, _) => OnlyRetires(before, after, NameOf(suffix))
    case ShareCmd(suffix, _, _) => OnlyRetires(before, after, NameOf(suffix))
    case RenameCmd(_, newSuffix, _) => OnlyRetires(before, after, NameOf(newSuffix))
    case RotateCmd(_, _, _) => OnlyRetiresHeld(before, after)
    case DeleteCmd(_, _) => after == before
    case CancelCmd => false
  }

  // The answers of the host and the memory let the operation succeed; a create
  // is decided by its first round instead.
  ghost predicate Succeeds(keeps: bool, command: Command, before: State) {
    match command
    case CreateCmd(suffix, _, materialBytes, host) =>
      && MayCreate(before.live, suffix, materialBytes, host)
      && CanCreate(before.mem, NameOf(suffix)) && (keeps ==> host.saved)
    case ShareCmd(suffix, source, host) =>
      && Passes(before.live, suffix, source, true, host)
      && CanShare(before.mem, NameOf(suffix), NameOf(source)) && (keeps ==> host.saved)
    case RenameCmd(suffix, newSuffix, host) =>
      && Passes(before.live, suffix, newSuffix, true, host)
      && CanRename(before.mem, NameOf(suffix), NameOf(newSuffix)) && (keeps ==> host.saved)
    case RotateCmd(suffix, materialBytes, host) =>
      && Passes(before.live, suffix, suffix, 0 < materialBytes <= MAX_TOKEN_BYTES, host)
      && CanRotate(before.mem, NameOf(suffix), host) && (keeps ==> host.saved)
    case DeleteCmd(suffix, host) =>
      && Passes(before.live, suffix, suffix, true, host)
      && NameOf(suffix) in before.mem.mappings && (keeps ==> host.saved)
    case CancelCmd => false
  }

  // An error that this operation returns only with its effect.
  predicate MeansEffect(command: Command, error: Error) {
    error.Pending? && (command.ShareCmd? || command.RenameCmd? || command.DeleteCmd?)
  }

  // An error that this operation returns with and without its effect.
  predicate Undecided(command: Command, error: Error) {
    || (command.CreateCmd? && (error.Pending? || error.Revoked?))
    || (command.RotateCmd? && (error.Pending? || error.Revoked?))
    || (command.ShareCmd? && error.Revoked?)
    || (command.RenameCmd? && error.Revoked?)
  }

  // What the error that a caller sees tells about the effect.
  ghost predicate Classified(command: Command, reply: Reply) {
    Seen(reply).Some? && !Undecided(command, reply.error) ==> (reply.Fail? <==> !MeansEffect(command, reply.error))
  }

  // What the caller of an operation that took effect is told: finishMapping first
  // looks whether the call is still live, the end of a delete does not.
  ghost predicate Told(command: Command, reply: Reply)
    requires !command.CancelCmd?
  {
    if !command.DeleteCmd? && !command.host.stillLive then reply == Unreported(Revoked)
    else if command.host.emitted && command.host.recorded then reply.Done?
    else reply == Unreported(Pending)
  }

  // What a create does to the log.
  ghost predicate CreateLogs(keeps: bool, command: Command, before: State, after: State)
    requires command.CreateCmd?
  {
    var s, round := NameOf(command.suffix), command.host.rounds(0);
    if !MayCreate(before.live, command.suffix, command.materialBytes, command.host) then
      after.events == before.events && after.mem == before.mem
    else
      && Logs(before.events, after.events, FirstEvent(before.mem, s, round, keeps && !command.host.replaySaved), round)
      && (if after.events == before.events then after.mem == before.mem else LastDecides(after.events, after.mem, s))
  }

  /** One operation, with the answers of the host that the command carries. */
  ghost predicate IsStep(keeps: bool, before: State, command: Command, reply: Reply, after: State) {
    if command.CancelCmd? then
      after == State(false, Memory(map[], map[], before.mem.revision), before.events)
    else
      && after.live == before.live && before.events <= after.events
      && (if reply.Fail? then NoEffect(command, before.mem, after.mem) else Effect(command, before.mem, after.mem))
      && (command.CreateCmd? && !reply.Fail? && NameOf(command.suffix) !in before.mem.mappings ==>
            StoredFrom(after.events, after.mem, NameOf(command.suffix)))
      && (if command.CreateCmd? then CreateLogs(keeps, command, before, after) else after.events == before.events)
      && (!command.CreateCmd? || Smooth(command.host.rounds(0)) ==>
            (reply.Fail? <==> !Succeeds(keeps, command, before)))
      && (!before.live ==> reply == Fail(Revoked))
      && (!reply.Fail? ==> Told(command, reply))
      && Classified(command, reply)
  }

  // The command may change whether this suffix is taken or what its next epoch is.
  ghost predicate Names(command: Command, s: string) {
    match command
    case CreateCmd(suffix, _, _, _) => NameOf(suffix) == s
    case ShareCmd(suffix, _, _) => NameOf(suffix) == s
    case RenameCmd(suffix, newSuffix, _) => NameOf(suffix) == s || NameOf(newSuffix) == s
    case RotateCmd(_, _, _) => false
    case DeleteCmd(suffix, _) => NameOf(suffix) == s
    case CancelCmd => false
  }

  lemma EffectElsewhere(command: Command, before: Memory, after: Memory, s: string)
    requires Effect(command, before, after) && !Names(command, s)
    ensures SameAt(before, after, s)
  {
  }

  lemma NoEffectElsewhere(command: Command, before: Memory, after: Memory, s: string)
    requires NoEffect(command, before, after) && !Names(command, s)
    ensures SameAt(before, after, s)
  {
  }

  /** An operation leaves every suffix alone that it does not name. */
  lemma StepElsewhere(keeps: bool, before: State, command: Command, reply: Reply, after: State, s: string)
    requires IsStep(keeps, before, command, reply, after) && after.live && !Names(command, s)
    ensures before.live && SameAt(before.mem, after.mem, s)
  {
    if reply.Fail? {
      NoEffectElsewhere(command, before.mem, after.mem, s);
    } else {
      EffectElsewhere(command, before.mem, after.mem, s);
    }
  }

  // ------------------------------------------------------------------
  // Sequences of operations
  // ------------------------------------------------------------------

  ghost predicate IsHistory(keeps: bool, states: seq<State>, commands: seq<Command>, replies: seq<Reply>) {
    && |states| == |commands| + 1 && |replies| == |commands|
    && forall k {:trigger IsStep(keeps, states[k], commands[k], replies[k], states[k + 1])} :: 0 <= k < |commands| ==>
         IsStep(keeps, states[k], commands[k], replies[k], states[k + 1])
  }

  lemma StepOf(keeps: bool, states: seq<State>, commands: seq<Command>, replies: seq<Reply>, k: nat)
    requires IsHistory(keeps, states, commands, replies) && k < |commands|
    ensures IsStep(keeps, states[k], commands[k], replies[k], states[k + 1])
  {
  }

  lemma HistoryGrows(keeps: bool, states: seq<State>, commands: seq<Command>, replies: seq<Reply>,
                     command: Command, reply: Reply, state: State)
    requires IsHistory(keeps, states, commands, replies)
    requires IsStep(keeps, states[|commands|], command, reply, state)
    ensures IsHistory(keeps, states + [state], commands + [command], replies + [reply])
  {
    var states', commands', replies' := states + [state], commands + [command], replies + [reply];
    forall k | 0 <= k < |commands'|
      ensures IsStep(keeps, states'[k], commands'[k], replies'[k], states'[k + 1])
    {
      if k < |commands| {
        StepOf(keeps, states, commands, replies, k);
      }
    }
  }

  lemma {:induction false} SameBetween(
      keeps: bool, states: seq<State>, commands: seq<Command>, replies: seq<Reply>, j: nat, k: nat, s: string)
    requires IsHistory(keeps, states, commands, replies) && j <= k <= |commands| && states[k].live
    requires forall i :: j <= i < k ==> !Names(commands[i], s)
    ensures states[j].live && SameAt(states[j].mem, states[k].mem, s)
    decreases k - j
  {
    if j < k {
      SameBetween(keeps, states, commands, replies, j + 1, k, s);
      StepOf(keeps, states, commands, replies, j);
      StepElsewhere(keeps, states[j], commands[j], replies[j], states[j + 1], s);
    }
  }

  // Operation k added something to the log.
  ghost predicate Logged(states: seq<State>, k: nat)
    requires k + 1 < |states|
  {
    states[k].events < states[k + 1].events
  }

  lemma FirstLogged(keeps: bool, states: seq<State>, commands: seq<Command>, replies: seq<Reply>, k: nat)
    requires IsHistory(keeps, states, commands, replies) && k < |commands|
    requires commands[k].CreateCmd? && Logged(states, k)
    ensures states[k].live && states[k + 1].live
    ensures var s, first := NameOf(commands[k].suffix), states[k + 1].events[|states[k].events|];
            && first.ref == MapRef(s, NextEpoch(states[k].mem, s))
            && (first.Enrolled? ==> s !in states[k].mem.mappings)
    ensures LastDecides(states[k + 1].events, states[k + 1].mem, NameOf(commands[k].suffix))
  {
    StepOf(keeps, states, commands, replies, k);
  }

  /** When a reference is enrolled again, exactly: a create that logged something,
      then any operations that do not name its suffix, then a create of that suffix
      that comes to an enrollment. It enrolls the reference of the first create's
      last event exactly when that event left it open: the vault accepted it but
      it leaked, or the vault returned an error and the epoch was not given up. */
  lemma ReusedIffOpen(
      keeps: bool, states: seq<State>, commands: seq<Command>, replies: seq<Reply>, j: nat, k: nat, s: string)
    requires IsHistory(keeps, states, commands, replies) && j < k < |commands|
    requires commands[j].CreateCmd? && NameOf(commands[j].suffix) == s && Logged(states, j)
    requires commands[k].CreateCmd? && NameOf(commands[k].suffix) == s && Logged(states, k)
    requires forall i :: j < i < k ==> !Names(commands[i], s)
    requires states[k + 1].events[|states[k].events|].Enrolled?
    ensures var last := states[j + 1].events[|states[j + 1].events| - 1];
            var again := states[k + 1].events[|states[k].events|];
            && (again.ref == last.ref <==> Open(last))
            && (Accepts(last) ==> (again.ref == last.ref <==> Leaks(last)))
  {
    FirstLogged(keeps, states, commands, replies, j);
    FirstLogged(keeps, states, commands, replies, k);
    SameBetween(keeps, states, commands, replies, j + 1, k, s);
  }
}
