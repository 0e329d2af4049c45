/** What the operations of the mapping service in plugins/cloudflare-dns/mapping.go
    are asked, answered and allowed to do, as values: the answers of the host, the
    replies, the effect on the memory, and the log of secret references. */
module MappingRules {

  import opened Suffix
  import opened MappingMemory
  import opened Strings

  const MAX_MAPPINGS := 256
  const MAX_TOKEN_BYTES := 4096

  // ------------------------------------------------------------------
  // Answers and replies
  // ------------------------------------------------------------------

  datatype Error =
    | Revoked | Busy | InvalidInput | Denied | Pending | VaultFailed | Stale
    | Conflict | NotFound | BoundExceeded

  // Unreported: the operation took effect, but the caller is told of an error.
  datatype Reply = Done(mapping: Stored) | Unreported(error: Error) | Fail(error: Error)

  // What the caller gets to see of a reply.
  function Seen(reply: Reply): Option<Error> {
    if reply.Done? then None else Some(reply.error)
  }

  // What the operation ledger knows about an operation key. A committed
  // operation carries the version the vault gave the secret.
  datatype Ledger = Absent | Committed(version: string) | Unknown | Failed | Unreachable

  datatype VaultAnswer = Version(version: string) | StaleToken | RevokedToken | Broken

  function VersionIn(answer: VaultAnswer): Option<string> {
    if answer.Version? then Some(answer.version) else None
  }

  // The answers to one round of createMapping; advance is
  // shouldAdvanceMappingIdentity, later the ledger's answer after an error.
  datatype Attempt = Attempt(authorized: bool, ledger: Ledger, answer: VaultAnswer, advance: bool, later: Ledger)

  // The answers to RotateMappingToken; retry is asked when the first answer is
  // that the token is stale and verified says what the current version is.
  datatype Rotation = Rotation(ledger: Ledger, answer: VaultAnswer, verified: bool, retry: VaultAnswer, later: Ledger)

  datatype Host = Host(
    admitted: bool, authorized: bool, credential: bool,
    rounds: nat -> Attempt, rotation: Rotation,
    replaySaved: bool, saved: bool,
    stillLive: bool, emitted: bool, recorded: bool)

  // The end of DeleteMapping, which does not look whether the service is live.
  function FinishDelete(host: Host, mapping: Stored): (reply: Reply)
    ensures reply == Done(mapping) <==> host.emitted && host.recorded
    ensures reply == Done(mapping) || reply == Unreported(Pending)
  {
    if host.emitted && host.recorded then Done(mapping) else Unreported(Pending)
  }

  // finishMapping: the commit is done, only its report can still fail.
  function Finish(host: Host, mapping: Stored): (reply: Reply)
    ensures reply == Done(mapping) <==> host.stillLive && host.emitted && host.recorded
    ensures reply == Done(mapping) || reply == Unreported(Pending) || reply == Unreported(Revoked)
  {
    if !host.stillLive then Unreported(Revoked) else FinishDelete(host, mapping)
  }

  // begin, both names, the size of the material and authorizeBare.
  ghost predicate Passes(live: bool, suffix: string, other: string, material: bool, host: Host) {
    && live && host.admitted && Normalized(suffix).Some? && Normalized(other).Some?
    && material && host.authorized
  }

  ghost function NameOf(suffix: string): string {
    if Normalized(suffix).Some? then Normalized(suffix).value else ""
  }

  // ------------------------------------------------------------------
  // What operations do
  // ------------------------------------------------------------------

  ghost predicate IsAt(m: Memory, suffix: string, mapping: Stored) {
    suffix in m.mappings && m.mappings[suffix] == mapping
  }

  // A failed operation may retire epochs of one suffix and nothing else.
  ghost predicate OnlyRetires(before: Memory, after: Memory, s: string) {
    && after.mappings == before.mappings && after.revision == before.revision
    && Retired(before.retired, s) <= Retired(after.retired, s)
    && forall t :: t != s ==> Retired(after.retired, t) == Retired(before.retired, t)
  }

  // A failed rotation may retire epochs that mappings hold, and no others.
  ghost predicate OnlyRetiresHeld(before: Memory, after: Memory) {
    && after.mappings == before.mappings && after.revision == before.revision
    && (forall t :: t !in before.mappings ==> Retired(after.retired, t) == Retired(before.retired, t))
    && forall t :: t in before.mappings ==>
         || Retired(after.retired, t) == Retired(before.retired, t)
         || Retired(before.retired, t) < Retired(after.retired, t) == before.mappings[t].epoch
  }

  // createMapping: a free suffix got a mapping of its own under an epoch that
  // was not spent before; a taken suffix kept what it had.
  ghost predicate Created(before: Memory, after: Memory, s: string, provider: string) {
    && (forall t :: t != s ==> Retired(after.retired, t) == Retired(before.retired, t))
    && s in after.mappings
    && var mapping := after.mappings[s];
       if s in before.mappings then
         after.mappings == before.mappings && after.revision == before.revision
       else
         && after.mappings == before.mappings[s := mapping] && after.revision == before.revision + 1
         && mapping.suffix == s && mapping.provider == provider && mapping.updatedAt == after.revision
         && mapping.secretRef == MapRef(s, mapping.epoch) && mapping.epoch > Retired(before.retired, s)
         && MatchesRefPattern(mapping.version)
  }

  // A store that fails retires its epoch, unless the vault's answer was malformed.
  function NotStored(base: Memory, mapping: Stored): Memory {
    if MatchesRefPattern(mapping.version)
    then base.(retired := Retire(base.retired, mapping.suffix, mapping.epoch))
    else base
  }

  // The mapping of every other suffix is the same, or missing as before.
  ghost predicate OthersSame(before: Memory, after: Memory, s: string) {
    forall t :: t != s ==>
      && (t in after.mappings <==> t in before.mappings)
      && (t in before.mappings ==> after.mappings[t] == before.mappings[t])
  }

  // Exactly this epoch of this suffix, and those before it, are retired now.
  ghost predicate RetiredUpTo(before: Memory, after: Memory, s: string, epoch: nat) {
    && Retired(after.retired, s) == (if epoch > Retired(before.retired, s) then epoch else Retired(before.retired, s))
    && forall t :: t != s ==> Retired(after.retired, t) == Retired(before.retired, t)
  }

  // A free suffix received the secret of origin under its next epoch; a taken
  // one already had that secret and nothing changed.
  ghost predicate SharedFrom(before: Memory, after: Memory, s: string, origin: string) {
    && origin in before.mappings
    && if s in before.mappings then
         after == before && before.mappings[s].secretRef == before.mappings[origin].secretRef
       else
         && after.retired == before.retired && after.revision == before.revision + 1
         && OthersSame(before, after, s) && s in after.mappings
         && var from, shared := before.mappings[origin], after.mappings[s];
            && shared.suffix == s && shared.epoch == Retired(before.retired, s) + 1
            && shared.secretRef == from.secretRef && shared.version == from.version
            && shared.provider == from.provider && shared.updatedAt == after.revision
  }

  // The mapping moved with its secret, version, provider and epoch, and that epoch
  // is retired at the old suffix.
  ghost predicate RenamedTo(before: Memory, after: Memory, s: string, renamed: string) {
    && s in before.mappings
    && if renamed == s then after == before
       else
         && renamed !in before.mappings && after.revision == before.revision + 1
         && RetiredUpTo(before, after, s, before.mappings[s].epoch)
         && s !in after.mappings && renamed in after.mappings
         && (forall t :: t != s && t != renamed ==>
               && (t in after.mappings <==> t in before.mappings)
               && (t in before.mappings ==> after.mappings[t] == before.mappings[t]))
         && after.mappings[renamed] == before.mappings[s].(suffix := renamed, updatedAt := after.revision)
  }

  // The mapping is gone and its epoch is retired.
  ghost predicate DeletedAt(before: Memory, after: Memory, s: string) {
    && s in before.mappings && s !in after.mappings && after.revision == before.revision
    && OthersSame(before, after, s) && RetiredUpTo(before, after, s, before.mappings[s].epoch)
  }

  // What the memory must allow for an operation to succeed.
  ghost predicate CanShare(m: Memory, s: string, origin: string) {
    && origin in m.mappings
    && if s in m.mappings then m.mappings[s].secretRef == m.mappings[origin].secretRef else |m.mappings| < MAX_MAPPINGS
  }

  ghost predicate CanRename(m: Memory, s: string, renamed: string) {
    s in m.mappings && (renamed == s || renamed !in m.mappings)
  }

  ghost predicate CanCreate(m: Memory, s: string) {
    s !in m.mappings && |m.mappings| < MAX_MAPPINGS
  }

  // What createMapping checks before its first round.
  ghost predicate MayCreate(live: bool, suffix: string, materialBytes: nat, host: Host) {
    live && host.admitted && Normalized(suffix).Some? && 0 < materialBytes <= MAX_TOKEN_BYTES && host.credential
  }

  // The version a rotation ends with, if the vault gives one: the ledger knows it
  // already, the vault returns it at once or after a stale token was verified, or
  // the ledger knows it after an error.
  function RotatedVersion(version: string, rotation: Rotation): Option<string> {
    if rotation.ledger.Committed? then Some(rotation.ledger.version)
    else if !rotation.ledger.Absent? || !MatchesRefPattern(version) then None
    else
      var answer := if rotation.answer.StaleToken? && rotation.verified then rotation.retry else rotation.answer;
      if answer.Version? then Some(answer.version)
      else if answer.Broken? && rotation.later.Committed? then Some(rotation.later.version)
      else None
  }

  // The error when it ends without one.
  function RotationError(version: string, rotation: Rotation): Error {
    if !rotation.ledger.Absent? then if rotation.ledger.Failed? then VaultFailed else Pending
    else if !MatchesRefPattern(version) then Stale
    else
      var answer := if rotation.answer.StaleToken? && rotation.verified then rotation.retry else rotation.answer;
      if answer.StaleToken? then Stale else if answer.RevokedToken? then Revoked
      else if rotation.later.Failed? then VaultFailed else Pending
  }

  // The answer that counts: a stale one is asked again once, if the current version
  // could be verified.
  ghost predicate Answered(rotation: Rotation, answer: VaultAnswer) {
    || (answer == rotation.answer && !(rotation.answer.StaleToken? && rotation.verified))
    || (answer == rotation.retry && rotation.answer.StaleToken? && rotation.verified)
  }

  /** Where the version of a rotation comes from: from the ledger if that knows it,
      else from the answer of the vault that counts, else, if that was an unclear
      error, from the ledger asked again. */
  lemma VersionComesFrom(version: string, rotation: Rotation, answer: VaultAnswer)
    requires Answered(rotation, answer)
    ensures var rotated, asked := RotatedVersion(version, rotation),
                                  rotation.ledger.Absent? && MatchesRefPattern(version);
            && (rotated.Some? <==> || rotation.ledger.Committed?
                                   || (asked && answer.Version?)
                                   || (asked && answer.Broken? && rotation.later.Committed?))
            && (rotation.ledger.Committed? ==> rotated == Some(rotation.ledger.version))
            && (asked && answer.Version? ==> rotated == Some(answer.version))
            && (asked && answer.Broken? && rotation.later.Committed? ==> rotated == Some(rotation.later.version))
  {
  }

  /** What the error of a rotation tells: stale and revoked come from the vault, or
      from a version that was never well formed; failed means that the ledger knows
      of the failure; everything else is pending. */
  lemma RotationErrorTells(version: string, rotation: Rotation, answer: VaultAnswer)
    requires Answered(rotation, answer) && RotatedVersion(version, rotation).None?
    ensures var error, asked := RotationError(version, rotation), rotation.ledger.Absent?;
            && (error == Stale <==> asked && (MatchesRefPattern(version) ==> answer.StaleToken?))
            && (error == Revoked <==> asked && MatchesRefPattern(version) && answer.RevokedToken?)
            && (error == VaultFailed <==>
                  || rotation.ledger.Failed?
                  || (asked && MatchesRefPattern(version) && answer.Broken? && rotation.later.Failed?))
            && (error in {Stale, Revoked, VaultFailed, Pending})
  {
  }

  ghost predicate NoVersion(m: Memory, s: string, host: Host) {
    s in m.mappings && host.credential && RotatedVersion(m.mappings[s].version, host.rotation).None?
  }

  ghost predicate CanRotate(m: Memory, s: string, host: Host) {
    && s in m.mappings && host.credential
    && var version := RotatedVersion(m.mappings[s].version, host.rotation);
       version.Some? && MatchesRefPattern(version.value)
  }

  // Every mapping of the secret got this version, and no other mapping changed.
  ghost predicate VersionAt(before: Memory, after: Memory, s: string, version: string) {
    && s in before.mappings && after.mappings.Keys == before.mappings.Keys
    && after.retired == before.retired && after.revision == before.revision + 1
    && forall t :: t in before.mappings ==>
         after.mappings[t] == if before.mappings[t].secretRef != before.mappings[s].secretRef then before.mappings[t]
                              else before.mappings[t].(version := version, updatedAt := after.revision)
  }

  ghost predicate RotatedAt(before: Memory, after: Memory, s: string, host: Host) {
    && CanRotate(before, s, host)
    && VersionAt(before, after, s, RotatedVersion(before.mappings[s].version, host.rotation).value)
  }

  lemma ConfiguredIfPresent(m: Memory, suffix: string)
    requires AllConfigured(m)
    ensures IsConfigured(m, suffix) <==> suffix in m.mappings
  {
  }

  lemma ShareMeans(m: Memory, s: string, origin: string)
    requires origin in m.mappings && s !in m.mappings
    ensures SharedFrom(m, Share(m, s, m.mappings[origin], Retired(m.retired, s) + 1), s, origin)
  {
  }

  lemma DeleteMeans(m: Memory, s: string)
    requires s in m.mappings
    ensures DeletedAt(m, Delete(m, s), s)
  {
  }

  lemma RenameMeans(m: Memory, s: string, renamed: string)
    requires s in m.mappings && renamed !in m.mappings
    ensures RenamedTo(m, Rename(m, s, renamed), s, renamed)
  {
  }

  lemma RotateMeans(m: Memory, s: string, version: string)
    requires AllConfigured(m) && s in m.mappings
    ensures VersionAt(m, Rotate(m, m.mappings[s].secretRef, version), s, version)
  {
    forall t | t in m.mappings
      ensures Configured(m.mappings[t])
    {
    }
  }

  // What the apply functions of ShareMapping and RenameMapping leave.
  function ShareResult(m: Memory, s: string, origin: string): Memory
    requires origin in m.mappings
  {
    if s in m.mappings then m else Share(m, s, m.mappings[origin], Retired(m.retired, s) + 1)
  }

  function RenameResult(m: Memory, s: string, renamed: string): Memory
    requires s in m.mappings
  {
    if renamed == s then m else Rename(m, s, renamed)
  }

  lemma SharedKeeps(m: Memory, next: Memory, s: string, origin: string)
    requires Good(m) && s != "" && origin in m.mappings && next == ShareResult(m, s, origin)
    ensures Good(next) && SpentGrows(m, next) && next.mappings.Keys == m.mappings.Keys + {s}
  {
    if s in m.mappings {
      assert m.mappings.Keys == m.mappings.Keys + {s};
    } else {
      ShareKeeps(m, s, origin, Retired(m.retired, s) + 1);
    }
  }

  lemma RenamedKeeps(m: Memory, s: string, renamed: string)
    requires Good(m) && renamed != "" && CanRename(m, s, renamed)
    ensures var next := RenameResult(m, s, renamed);
            && Good(next) && SpentGrows(m, next)
            && renamed in next.mappings && next.mappings.Keys <= m.mappings.Keys + {renamed}
  {
    if renamed != s {
      RenameKeeps(m, s, renamed);
    }
  }

  lemma StoredIsCreated(base: Memory, mapping: Stored)
    requires IsFreshStore(base, mapping) && MatchesRefPattern(mapping.version)
    ensures Created(base, Store(base, mapping), mapping.suffix, mapping.provider)
    ensures mapping.epoch <= Spent(Store(base, mapping), mapping.suffix)
  {
  }

  lemma NotStoredOnlyRetires(base: Memory, mapping: Stored)
    ensures OnlyRetires(base, NotStored(base, mapping), mapping.suffix)
    ensures MatchesRefPattern(mapping.version) ==>
              mapping.epoch <= Retired(NotStored(base, mapping).retired, mapping.suffix)
  {
  }

  lemma RetiresTwice(a: Memory, b: Memory, c: Memory, s: string)
    requires OnlyRetires(a, b, s) && OnlyRetires(b, c, s)
    ensures OnlyRetires(a, c, s)
  {
  }

  lemma CreatedLater(a: Memory, b: Memory, c: Memory, s: string, provider: string)
    requires OnlyRetires(a, b, s) && Created(b, c, s, provider)
    ensures Created(a, c, s, provider)
  {
  }

  // The memory that a failed save of next brings back.
  function Undone(m: Memory, next: Memory): Memory {
    m.(retired := RetireAll(m.retired, NewEpochs(m, next)))
  }

  // What did not change is not new, so undoing only retires what changed.
  lemma UndoneOnlyRetires(m: Memory, next: Memory, s: string)
    requires AllConfigured(m)
    requires forall t :: t in next.mappings && t != s ==> t in m.mappings && next.mappings[t] == m.mappings[t]
    ensures OnlyRetires(m, Undone(m, next), s)
    ensures s !in next.mappings ==> Undone(m, next) == m
  {
    forall t | t != s
      ensures t !in NewEpochs(m, next)
    {
      ConfiguredIfPresent(m, t);
    }
    if s !in next.mappings {
      assert NewEpochs(m, next) == map[];
      assert RetireAll(m.retired, map[]) == m.retired;
    }
  }

  // The mapping of this suffix has another epoch, secret or version than before.
  predicate IsChanged(m: Memory, next: Memory, t: string) {
    && t in next.mappings
    && (t in m.mappings ==>
          || next.mappings[t].epoch != m.mappings[t].epoch
          || next.mappings[t].secretRef != m.mappings[t].secretRef
          || next.mappings[t].version != m.mappings[t].version)
  }

  /** A lost save brings the old mappings back and retires, at every suffix, exactly
      the epoch that the change brought there. */
  lemma UndoneExactly(m: Memory, next: Memory, t: string)
    requires AllConfigured(m) && AllConfigured(next)
    ensures Undone(m, next).mappings == m.mappings && Undone(m, next).revision == m.revision
    ensures var before, after := Retired(m.retired, t), Retired(Undone(m, next).retired, t);
            after == if IsChanged(m, next, t) && next.mappings[t].epoch > before then next.mappings[t].epoch else before
  {
    ConfiguredIfPresent(m, t);
    ConfiguredIfPresent(next, t);
  }

  /** So a lost share leaves the free suffix at its next epoch but one. */
  lemma LostShareSkips(m: Memory, s: string, origin: string)
    requires Good(m) && s != "" && s !in m.mappings && origin in m.mappings
    ensures var undone := Undone(m, ShareResult(m, s, origin));
            s !in undone.mappings && NextEpoch(undone, s) == NextEpoch(m, s) + 1
  {
    SharedKeeps(m, ShareResult(m, s, origin), s, origin);
    UndoneExactly(m, ShareResult(m, s, origin), s);
  }

  lemma UndoneRotation(m: Memory, ref: Ref, version: string)
    ensures OnlyRetiresHeld(m, Undone(m, Rotate(m, ref, version)))
  {
  }

  // Saving an unchanged memory brings no new epochs.
  lemma NothingNew(m: Memory)
    ensures Undone(m, m) == m && SpentGrows(m, m)
  {
  }

  // The apply function of ShareMapping.
  datatype Outcome = Applied(next: Memory) | Refused(error: Error)

  method ApplyShare(m: Memory, s: string, origin: string) returns (outcome: Outcome)
    requires AllConfigured(m)
    ensures outcome.Applied? ==> SharedFrom(m, outcome.next, s, origin) && outcome.next == ShareResult(m, s, origin)
    ensures outcome.Applied? <==> CanShare(m, s, origin)
    ensures outcome.Refused? ==>
              outcome.error == if s in m.mappings then Conflict
                               else if origin in m.mappings then BoundExceeded else NotFound
  {
    ConfiguredIfPresent(m, s);
    ConfiguredIfPresent(m, origin);
    var epoch := NextEpoch(m, s);
    if IsConfigured(m, s) {
      if !IsConfigured(m, origin) || m.mappings[s].secretRef != m.mappings[origin].secretRef {
        return Refused(Conflict);
      }
      return Applied(m);
    }
    if !IsConfigured(m, origin) {
      return Refused(NotFound);
    }
    if |m.mappings| >= MAX_MAPPINGS && s !in m.mappings {
      return Refused(BoundExceeded);
    }
    var from := m.mappings[origin];
    var stored := Stored(s, from.secretRef, from.version, from.provider, m.revision + 1, epoch);
    var next := Memory(m.mappings[s := stored], m.retired, m.revision + 1);
    assert next == Share(m, s, from, epoch);
    ShareMeans(m, s, origin);
    return Applied(next);
  }

  // The apply function of RenameMapping.
  method ApplyRename(m: Memory, s: string, renamed: string) returns (outcome: Outcome)
    requires AllConfigured(m)
    ensures outcome.Applied? ==> RenamedTo(m, outcome.next, s, renamed) && outcome.next == RenameResult(m, s, renamed)
    ensures outcome.Applied? <==> CanRename(m, s, renamed)
    ensures outcome.Refused? ==> outcome.error == if s in m.mappings then Conflict else NotFound
  {
    ConfiguredIfPresent(m, s);
    ConfiguredIfPresent(m, renamed);
    if !IsConfigured(m, s) {
      return Refused(NotFound);
    }
    if renamed == s {
      return Applied(m);
    }
    if IsConfigured(m, renamed) {
      return Refused(Conflict);
    }
    var current := m.mappings[s];
    var moved := current.(suffix := renamed, updatedAt := m.revision + 1);
    var next := Memory((m.mappings - {s})[renamed := moved], Retire(m.retired, s, current.epoch), m.revision + 1);
    assert next == Rename(m, s, renamed);
    RenameMeans(m, s, renamed);
    return Applied(next);
  }

  // The apply function of applyRotatedMapping: the map is visited in any order.
  method ApplyRotated(m: Memory, ref: Ref, version: string) returns (next: Memory)
    ensures next == Rotate(m, ref, version)
  {
    var revision := m.revision + 1;
    var mappings := m.mappings;
    var left := m.mappings.Keys;
    while left != {}
      invariant left <= m.mappings.Keys == mappings.Keys
      invariant forall s :: s in mappings ==>
                  mappings[s] == if s in left then m.mappings[s] else RotateOne(m.mappings[s], ref, version, revision)
    {
      var s :| s in left;
      left := left - {s};
      var mapping := mappings[s];
      if mapping.secretRef != ref || !Configured(mapping) {
        continue;
      }
      mappings := mappings[s := mapping.(version := version, updatedAt := revision)];
    }
    next := Memory(mappings, m.retired, revision);
    assert next.mappings == Rotate(m, ref, version).mappings;
  }

  // ------------------------------------------------------------------
  // The log of references
  // ------------------------------------------------------------------

  // What happened to a reference: an enrollment with the version the vault
  // returned, if any; its epoch given up; or a commit reported by the ledger,
  // for a suffix that had a mapping already (held) or whose replay could not be
  // saved (lost).
  datatype Event =
    | Enrolled(ref: Ref, answer: Option<string>)
    | GivenUp(ref: Ref)
    | Replayed(ref: Ref, version: string, held: bool, lost: bool)

  // The vault is known to have accepted the reference.
  predicate Accepts(e: Event) {
    (e.Enrolled? && e.answer.Some?) || e.Replayed?
  }

  // It was accepted, but not adopted: its version was malformed, or the save that
  // comes before the adoption of a replay was lost.
  predicate Leaks(e: Event) {
    || (e.Enrolled? && e.answer.Some? && !MatchesRefPattern(e.answer.value))
    || (e.Replayed? && !e.held && (e.lost || !MatchesRefPattern(e.version)))
  }

  // The event leaves the reference to be enrolled again.
  predicate Open(e: Event) {
    Leaks(e) || (e.Enrolled? && e.answer.None?)
  }

  // Whatever is enrolled a second time was left open by every earlier event.
  ghost predicate ReusesOnlyOpen(log: seq<Event>) {
    forall i, j :: 0 <= i < j < |log| && log[j].Enrolled? && log[i].ref == log[j].ref ==> Open(log[i])
  }

  predicate IsSpent(m: Memory, ref: Ref) {
    ref.MapRef? && ref.epoch <= Spent(m, ref.suffix)
  }

  ghost predicate LogSpent(log: seq<Event>, m: Memory) {
    forall i {:trigger Open(log[i])} :: 0 <= i < |log| && !Open(log[i]) ==> IsSpent(m, log[i].ref)
  }

  // The same, except perhaps for the reference about to be stored.
  ghost predicate LogReady(log: seq<Event>, base: Memory, mapping: Stored) {
    forall i {:trigger Open(log[i])} :: 0 <= i < |log| && !Open(log[i]) ==>
      || IsSpent(base, log[i].ref)
      || (log[i].ref == MapRef(mapping.suffix, mapping.epoch) && MatchesRefPattern(mapping.version))
  }

  // What the memory, the catalog read back and the log of a live service satisfy
  // between operations; keeps tells whether there is a catalog.
  ghost predicate Quiet(m: Memory, keeps: bool, durable: Memory, log: seq<Event>) {
    Good(m) && NamesOk(m.mappings.Keys) && (keeps ==> SavedMatches(durable, m)) && LogSpent(log, m)
  }

  // The first event of a round of createMapping, if it comes to one.
  function FirstEvent(m: Memory, s: string, round: Attempt, lost: bool): (first: Option<Event>)
    ensures first.Some? ==> first.value.ref == MapRef(s, NextEpoch(m, s))
    ensures first.Some? && first.value.Enrolled? <==> round.authorized && round.ledger.Absent? && CanCreate(m, s)
    ensures first.Some? && first.value.Replayed? <==> round.authorized && round.ledger.Committed?
    ensures first.Some? ==> !first.value.GivenUp?
  {
    var ref := MapRef(s, NextEpoch(m, s));
    if !round.authorized then None
    else if round.ledger.Committed? then Some(Replayed(ref, round.ledger.version, s in m.mappings, lost))
    else if !round.ledger.Absent? || s in m.mappings || |m.mappings| >= MAX_MAPPINGS then None
    else Some(Enrolled(ref, VersionIn(round.answer)))
  }

  // The error of a round that comes to no event.
  function Refusal(m: Memory, s: string, round: Attempt): Error {
    if !round.authorized then Denied
    else if round.ledger.Failed? then VaultFailed
    else if !round.ledger.Absent? then Pending
    else if s in m.mappings then Conflict
    else BoundExceeded
  }

  /** What the error of a round without an event tells. */
  lemma RefusalTells(m: Memory, s: string, round: Attempt, lost: bool)
    requires FirstEvent(m, s, round, lost).None?
    ensures var error, asked := Refusal(m, s, round), round.authorized && round.ledger.Absent?;
            && (error == Denied <==> !round.authorized)
            && (error == VaultFailed <==> round.authorized && round.ledger.Failed?)
            && (error == Pending <==> round.authorized && (round.ledger.Unknown? || round.ledger.Unreachable?))
            && (error == Conflict <==> asked && s in m.mappings)
            && (error == BoundExceeded <==> asked && s !in m.mappings && |m.mappings| >= 256)
  {
  }

  // An accepted reference is adopted; saved tells whether its store is saved.
  predicate Adopts(e: Event, saved: bool) {
    if e.Replayed? then !e.lost && (e.held || (MatchesRefPattern(e.version) && saved))
    else Accepts(e) && !Leaks(e) && saved
  }

  // The round ends the call with its first event: the reference was accepted, or
  // the error is passed on.
  predicate Ends(first: Event, round: Attempt) {
    Accepts(first) || (!round.advance && !(round.answer.Broken? && round.later.Committed?))
  }

  // A round in which the host does what it is asked, and in the usual form.
  predicate Smooth(round: Attempt) {
    round.authorized && round.ledger.Absent? && round.answer.Version? && MatchesRefPattern(round.answer.version)
  }

  /** In such a round the memory and the save alone decide. */
  lemma SmoothDecides(m: Memory, s: string, round: Attempt, lost: bool, saved: bool)
    requires Smooth(round)
    ensures var first := FirstEvent(m, s, round, lost);
            && (first.Some? <==> CanCreate(m, s))
            && (first.Some? ==> Ends(first.value, round) && (Adopts(first.value, saved) <==> saved))
  {
  }

  // What the log says next when an enrollment that failed does not end the call: the
  // epoch is given up, or else the ledger's commit is replayed.
  predicate Continues(ref: Ref, round: Attempt, next: Event) {
    if round.advance then next == GivenUp(ref)
    else next.Replayed? && next.ref == ref && round.later == Committed(next.version) && !next.held
  }

  // What a round or a call does to the log, from its first event on: nothing if
  // there is none, and nothing more if that ends the call.
  ghost predicate Logs(earlier: seq<Event>, log: seq<Event>, first: Option<Event>, round: Attempt) {
    if first.None? then log == earlier
    else
      && earlier < log && log[|earlier|] == first.value
      && (Ends(first.value, round) ==> log == earlier + [first.value])
      && (!Ends(first.value, round) ==>
            |earlier| + 1 < |log| && Continues(first.value.ref, round, log[|earlier| + 1]))
  }

  // No accepted reference is enrolled again, unless it leaked.
  ghost predicate ReusesOnlyLeaked(log: seq<Event>) {
    forall i, j :: 0 <= i < j < |log| && log[j].Enrolled? && log[i].ref == log[j].ref && Accepts(log[i]) ==>
        Leaks(log[i])
  }

  // The last event tells exactly whether the next create would enroll the same
  // reference again.
  ghost predicate LastDecides(log: seq<Event>, m: Memory, s: string) {
    && log != []
    && var last := log[|log| - 1];
       Open(last) <==> s !in m.mappings && last.ref == MapRef(s, NextEpoch(m, s))
  }

  // The mapping holds the reference and the version of the last event.
  ghost predicate StoredFrom(log: seq<Event>, m: Memory, s: string) {
    && log != [] && s in m.mappings
    && var last := log[|log| - 1];
       && m.mappings[s].secretRef == last.ref
       && ((last.Enrolled? && last.answer == Some(m.mappings[s].version))
           || (last.Replayed? && last.version == m.mappings[s].version))
  }

  lemma EnrollKeepsFresh(log: seq<Event>, m: Memory, s: string, version: Option<string>)
    requires ReusesOnlyOpen(log) && LogSpent(log, m) && s !in m.mappings
    ensures ReusesOnlyOpen(log + [Enrolled(MapRef(s, Retired(m.retired, s) + 1), version)])
  {
  }

  lemma LogsOn(earlier: seq<Event>, log: seq<Event>, longer: seq<Event>, first: Option<Event>, round: Attempt)
    requires earlier < log <= longer && Logs(earlier, log, first, round) && !Ends(first.value, round)
    ensures Logs(earlier, longer, first, round)
  {
  }

  // An event about the next epoch decides, whether it left the epoch open or
  // spent it.
  lemma EventDecides(log: seq<Event>, m: Memory, s: string, epoch: nat)
    requires log != [] && log[|log| - 1].ref == MapRef(s, epoch)
    requires if Open(log[|log| - 1]) then s !in m.mappings && epoch == Retired(m.retired, s) + 1
             else epoch <= Spent(m, s)
    ensures LastDecides(log, m, s)
  {
  }

  // The suffix is as free as before, and its next epoch is the same.
  ghost predicate SameAt(before: Memory, after: Memory, s: string) {
    && (s in before.mappings <==> s in after.mappings)
    && (s !in before.mappings ==> Retired(before.retired, s) == Retired(after.retired, s))
  }

  lemma ReplayKeepsFresh(log: seq<Event>, e: Event)
    requires ReusesOnlyOpen(log) && !e.Enrolled?
    ensures ReusesOnlyOpen(log + [e])
  {
  }

  lemma LogReadyWithout(log: seq<Event>, base: Memory, mapping: Stored)
    requires LogReady(log, base, mapping) && !MatchesRefPattern(mapping.version)
    ensures LogSpent(log, base)
  {
  }

  lemma LogGrows(log: seq<Event>, m: Memory, e: Event)
    requires LogSpent(log, m) && (Open(e) || IsSpent(m, e.ref))
    ensures LogSpent(log + [e], m)
  {
  }

  lemma LogBecomesReady(log: seq<Event>, base: Memory, mapping: Stored, e: Event)
    requires LogSpent(log, base) && e.ref == MapRef(mapping.suffix, mapping.epoch)
    requires Open(e) || MatchesRefPattern(mapping.version)
    ensures LogReady(log + [e], base, mapping)
  {
  }

  lemma QuietAfterStore(base: Memory, mapping: Stored, keeps: bool, durable: Memory, log: seq<Event>)
    requires Good(base) && IsFreshStore(base, mapping) && LogReady(log, base, mapping)
    requires NamesOk(base.mappings.Keys + {mapping.suffix}) && (keeps ==> durable == Store(base, mapping))
    ensures Quiet(Store(base, mapping), keeps, durable, log)
  {
    StoreKeeps(base, mapping);
    assert Store(base, mapping).mappings.Keys == base.mappings.Keys + {mapping.suffix};
  }

  lemma QuietAfterLostStore(base: Memory, mapping: Stored, keeps: bool, durable: Memory, log: seq<Event>)
    requires Good(base) && LogReady(log, base, mapping) && (keeps ==> SavedMatches(durable, base))
    requires NamesOk(base.mappings.Keys)
    ensures Quiet(base.(retired := Retire(base.retired, mapping.suffix, mapping.epoch)), keeps, durable, log)
  {
    RetireKeeps(base, Retire(base.retired, mapping.suffix, mapping.epoch));
  }

  // Whether the new memory was saved or the old one came back with more epochs
  // retired, the service is quiet again.
  lemma QuietAfterSave(base: Memory, m: Memory, keeps: bool, durable: Memory, log: seq<Event>)
    requires Good(m) && NamesOk(m.mappings.Keys) && LogSpent(log, base) && SpentGrows(base, m)
    requires keeps ==> durable == m
    ensures Quiet(m, keeps, durable, log)
  {
  }

  lemma QuietAfterUndo(base: Memory, epochs: map<string, nat>, keeps: bool, durable: Memory, log: seq<Event>)
    requires Quiet(base, keeps, durable, log)
    ensures Quiet(Undo(base, epochs), keeps, durable, log)
    ensures Undo(base, epochs) == base.(retired := RetireAll(base.retired, epochs))
  {
    UndoReturns(base, epochs);
  }

  lemma QuietAfterGivingUp(base: Memory, s: string, epoch: nat, keeps: bool, durable: Memory, log: seq<Event>)
    requires Quiet(base, keeps, durable, log)
    ensures Quiet(base.(retired := Retire(base.retired, s, epoch)), keeps, durable, log + [GivenUp(MapRef(s, epoch))])
  {
    var next := base.(retired := Retire(base.retired, s, epoch));
    RetireKeeps(base, next.retired);
    assert IsSpent(next, MapRef(s, epoch));
  }
}
