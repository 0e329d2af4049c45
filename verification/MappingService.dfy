/** The mapping service of plugins/cloudflare-dns: operations run one at a time
    on the memory of a live service and save it to a durable catalog.

    What the host (authorization, operation ledger, vault, catalog, reports)
    answers during one call is a parameter of the call and otherwise arbitrary,
    with two limits: a vault answer is about the requested reference, and a save
    that reports failure stored nothing. */
module MappingService {

  import opened Suffix
  import opened MappingMemory
  import opened MappingRules
  import opened MappingHistory
  import opened Strings

  // The vault's part of RotateMappingToken: a rotation, retried once when the
  // known version turns out to be stale, then the ledger.
  method RotateSecret(version: string, rotation: Rotation) returns (rotated: Option<string>, failure: Error)
    ensures rotated == RotatedVersion(version, rotation)
    ensures rotated.None? ==> failure == RotationError(version, rotation)
  {
    failure := Pending;
    if rotation.ledger.Committed? {
      return Some(rotation.ledger.version), failure;
    }
    if !rotation.ledger.Absent? {
      return None, if rotation.ledger.Failed? then VaultFailed else Pending;
    }
    if !MatchesRefPattern(version) {
      return None, Stale;
    }
    var answer := rotation.answer;
    if answer.StaleToken? && rotation.verified {
      answer := rotation.retry;
    }
    if answer.Version? {
      return Some(answer.version), failure;
    }
    if answer.StaleToken? || answer.RevokedToken? {
      return None, if answer.StaleToken? then Stale else Revoked;
    }
    if rotation.later.Committed? {
      return Some(rotation.later.version), failure;
    }
    return None, if rotation.later.Failed? then VaultFailed else Pending;
  }

  lemma AddName(names: set<string>, name: string)
    requires NamesOk(names) && IsName(name)
    ensures NamesOk(names + {name}) && name != ""
  {
  }

  lemma FewerNames(names: set<string>, fewer: set<string>)
    requires NamesOk(names) && fewer <= names
    ensures NamesOk(fewer)
  {
  }

  class Service {
    var mappings: map<string, Stored>
    var retired: map<string, nat>
    var revision: nat
    var live: bool
    var saved: Snapshot
    ghost var durable: Memory   // saved, read back
    ghost var events: seq<Event>
    const keeps: bool           // whether there is a catalog

    function Mem(): Memory
      reads this
    {
      Memory(mappings, retired, revision)
    }

    ghost function View(): State
      reads this
    {
      State(live, Mem(), events)
    }

    ghost predicate Valid()
      reads this
    {
      && durable == MemoryOf(saved) && Good(durable) && NamesOk(durable.mappings.Keys)
      && ReusesOnlyOpen(events)
      && (live ==> Quiet(Mem(), keeps, durable, events))
    }

    // The catalog, if there is one, holds what is in memory.
    ghost predicate Kept()
      reads this
    {
      keeps ==> durable == Mem()
    }

    // A save is only asked for when there is a catalog.
    predicate Saves(answer: bool) {
      !keeps || answer
    }

    /** NewService: rebuild the memory from the catalog (restoreCatalog). */
    constructor (catalog: Option<Snapshot>)
      ensures keeps == catalog.Some? && live && events == [] && Mem() == MemoryOf(saved) == durable
      ensures saved == if catalog.Some? then catalog.value else Snapshot([], map[], 0)
      ensures Good(durable) && NamesOk(durable.mappings.Keys) ==> Valid()
    {
      var snapshot := if catalog.Some? then catalog.value else Snapshot([], map[], 0);
      keeps, live, events := catalog.Some?, true, [];
      saved, durable := snapshot, MemoryOf(snapshot);
      retired, revision := snapshot.retired, snapshot.revision;
      mappings := map[];
      new;
      for i := 0 to |snapshot.mappings|
        invariant mappings == Rebuild(snapshot.mappings[..i])
        invariant live && events == [] && saved == snapshot && durable == MemoryOf(snapshot)
        invariant retired == snapshot.retired && revision == snapshot.revision
      {
        var mapping := snapshot.mappings[i];
        assert snapshot.mappings[..i + 1][..i] == snapshot.mappings[..i];
        if mapping.suffix == "" || !Configured(mapping) {
          continue;
        }
        mappings := mappings[mapping.suffix := mapping];
      }
      assert snapshot.mappings[..|snapshot.mappings|] == snapshot.mappings;
    }

    /** Cancel: the service is revoked and forgets its memory. */
    method Cancel()
      requires Valid()
      modifies this
      ensures Valid() && !live && mappings == map[] && retired == map[] && revision == old(revision)
      ensures saved == old(saved) && durable == old(durable) && events == old(events)
    {
      live := false;
      mappings, retired := map[], map[];
    }

    // ----------------------------------------------------------------
    // Saving and undoing
    // ----------------------------------------------------------------

    // catalogSnapshotLocked: the map is visited in any order.
    method CatalogSnapshot() returns (snapshot: Snapshot)
      requires KeysOk(Mem())
      ensures Lists(snapshot.mappings, mappings) && snapshot.retired == retired && snapshot.revision == revision
    {
      var list: seq<Stored> := [];
      var left := mappings.Keys;
      while left != {}
        invariant left <= mappings.Keys
        invariant forall i :: 0 <= i < |list| ==>
                    list[i].suffix in mappings && mappings[list[i].suffix] == list[i] && Configured(list[i])
        invariant forall s :: s in mappings && s !in left && Configured(mappings[s]) ==> mappings[s] in list
      {
        var s :| s in left;
        left := left - {s};
        if Configured(mappings[s]) {
          list := list + [mappings[s]];
        }
      }
      snapshot := Snapshot(list, retired, revision);
    }

    method CollectNewEpochs(previous: Memory) returns (epochs: map<string, nat>)
      ensures epochs == NewEpochs(previous, Mem())
    {
      epochs := map[];
      var left := mappings.Keys;
      while left != {}
        invariant left <= mappings.Keys
        invariant epochs == map s | s in mappings && s !in left && IsNewEpoch(previous, Mem(), s) :: mappings[s].epoch
      {
        var s :| s in left;
        left := left - {s};
        if IsNewEpoch(previous, Mem(), s) {
          epochs := epochs[s := mappings[s].epoch];
        }
      }
    }

    method UndoTo(previous: Memory, epochs: map<string, nat>)
      modifies this`mappings, this`retired, this`revision
      ensures Mem() == Undo(previous, epochs)
    {
      mappings, retired, revision := previous.mappings, previous.retired, previous.revision;
      UndoNothing(previous);
      var left := epochs.Keys;
      ghost var done: map<string, nat> := map[];
      while left != {}
        invariant left <= epochs.Keys
        invariant done.Keys == epochs.Keys - left && forall s :: s in done ==> done[s] == epochs[s]
        invariant Mem() == Undo(previous, done)
      {
        var s :| s in left;
        left := left - {s};
        UndoOneMore(previous, done, s, epochs[s]);
        RetireOneMore(previous.retired, done, s, epochs[s]);
        done := done[s := epochs[s]];
        retired := Retire(retired, s, epochs[s]);
        if s in mappings && !Configured(mappings[s]) {
          mappings := mappings - {s};
        }
      }
      assert epochs == done;
    }

    /** applyAndPersist after apply succeeded: without a catalog that is all; with
        one, save what is in memory now, or go back to previous with the new epochs
        retired. */
    method Persist(previous: Memory, answer: bool) returns (ok: bool)
      requires durable == MemoryOf(saved) && KeysOk(Mem()) && AllConfigured(Mem())
      modifies this`mappings, this`retired, this`revision, this`saved, this`durable
      ensures durable == MemoryOf(saved) && ok == Saves(answer)
      ensures ok ==> Mem() == old(Mem()) && Kept()
      ensures !keeps || !ok ==> saved == old(saved)
      ensures !ok ==> Mem() == Undo(previous, NewEpochs(previous, old(Mem())))
    {
      if !keeps {
        return true;
      }
      var epochs := CollectNewEpochs(previous);
      var snapshot := CatalogSnapshot();
      RebuildInverts(snapshot.mappings, Mem());
      ok := answer;
      if ok {
        saved, durable := snapshot, MemoryOf(snapshot);
      } else {
        UndoTo(previous, epochs);
      }
    }

    /** applyAndPersist, for an operation that reserved nothing: either the new
        memory is kept and saved, or the mappings and the revision are as before. */
    method ApplyAndPersist(next: Memory, answer: bool) returns (ok: bool)
      requires Valid() && live
      requires Good(next) && SpentGrows(Mem(), next) && NamesOk(next.mappings.Keys)
      modifies this`mappings, this`retired, this`revision, this`saved, this`durable
      ensures Valid() && ok == Saves(answer)
      ensures ok ==> Mem() == next && Kept()
      ensures !ok ==> Mem() == Undone(old(Mem()), next) && saved == old(saved)
    {
      var previous := Mem();
      mappings, retired, revision := next.mappings, next.retired, next.revision;
      ok := Persist(previous, answer);
      if ok {
        QuietAfterSave(previous, next, keeps, durable, events);
      } else {
        QuietAfterUndo(previous, NewEpochs(previous, next), keeps, durable, events);
      }
    }

    // ----------------------------------------------------------------
    // Delete, share and rename
    // ----------------------------------------------------------------

    // begin, the normalization of both names, the check of the material and
    // authorizeBare.
    method Admit(suffix: string, other: string, material: bool, host: Host)
      returns (names: Option<(string, string)>, refusal: Error)
      ensures names.Some? <==> Passes(live, suffix, other, material, host)
      ensures names.None? ==> refusal == (if !live then Revoked else if !host.admitted then Busy else
                                          if Passes(live, suffix, other, material, host.(authorized := true))
                                          then Denied else InvalidInput)
      ensures names.Some? ==> Normalized(suffix) == Some(names.value.0) && Normalized(other) == Some(names.value.1)
    {
      if !live || !host.admitted {
        return None, if live then Busy else Revoked;
      }
      var first := NormalizeDomain(suffix);
      if first.None? {
        return None, InvalidInput;
      }
      var second := NormalizeDomain(other);
      if second.None? || !material {
        return None, InvalidInput;
      }
      if !host.authorized {
        return None, Denied;
      }
      return Some((first.value, second.value)), Denied;
    }

    // What a failed operation leaves as it was; it may only retire epochs.
    twostate predicate Untouched()
      reads this
    {
      mappings == old(mappings) && revision == old(revision) && saved == old(saved)
    }

    method DeleteNormalized(s: string, host: Host) returns (reply: Reply)
      requires Valid() && live
      modifies this`mappings, this`retired, this`revision, this`saved, this`durable
      ensures Valid()
      ensures reply.Fail? <==> !(s in old(mappings) && Saves(host.saved))
      ensures reply.Fail? ==> Mem() == old(Mem()) && saved == old(saved) && !reply.error.Pending?
      ensures !reply.Fail? ==> DeletedAt(old(Mem()), Mem(), s) && Kept()
      ensures !reply.Fail? ==> reply == FinishDelete(host, old(mappings[s]))
    {
      ConfiguredIfPresent(Mem(), s);
      if !IsConfigured(Mem(), s) {
        return Fail(NotFound);
      }
      var current := mappings[s];
      var next := Memory(mappings - {s}, Retire(retired, s, current.epoch), revision);
      DeleteKeeps(Mem(), s);
      DeleteMeans(Mem(), s);
      FewerNames(mappings.Keys, next.mappings.Keys);
      UndoneOnlyRetires(Mem(), next, s);
      var ok := ApplyAndPersist(next, host.saved);
      reply := if ok then FinishDelete(host, current) else Fail(VaultFailed);
    }

    /** DeleteMapping. */
    method DeleteMapping(suffix: string, host: Host) returns (reply: Reply)
      requires Valid()
      modifies this
      ensures Valid() && live == old(live) && events == old(events)
      ensures !old(live) ==> reply == Fail(Revoked)
      ensures reply.Fail? <==>
                !(Passes(old(live), suffix, suffix, true, host) && NameOf(suffix) in old(mappings) && Saves(host.saved))
      ensures reply.Fail? ==> Mem() == old(Mem()) && saved == old(saved) && !reply.error.Pending?
      ensures !reply.Fail? ==> DeletedAt(old(Mem()), Mem(), NameOf(suffix)) && Kept()
      ensures !reply.Fail? ==> reply == FinishDelete(host, old(mappings[NameOf(suffix)]))
    {
      var names, refusal := Admit(suffix, suffix, true, host);
      if names.None? {
        return Fail(refusal);
      }
      reply := DeleteNormalized(names.value.0, host);
    }

    method ShareNormalized(s: string, origin: string, host: Host) returns (reply: Reply)
      requires Valid() && live && s != "" && NamesOk(mappings.Keys + {s})
      modifies this`mappings, this`retired, this`revision, this`saved, this`durable
      ensures Valid()
      ensures reply.Fail? <==> !(CanShare(old(Mem()), s, origin) && Saves(host.saved))
      ensures reply.Fail? ==> saved == old(saved) && OnlyRetires(old(Mem()), Mem(), s) && !reply.error.Pending?
      ensures !reply.Fail? ==> SharedFrom(old(Mem()), Mem(), s, origin) && Kept()
      ensures !reply.Fail? ==> s in mappings && reply == Finish(host, mappings[s])
      ensures reply.Fail? && CanShare(old(Mem()), s, origin) ==>
                Mem() == Undone(old(Mem()), ShareResult(old(Mem()), s, origin))
    {
      var outcome := ApplyShare(Mem(), s, origin);
      if outcome.Refused? {
        return Fail(outcome.error);
      }
      SharedKeeps(Mem(), outcome.next, s, origin);
      UndoneOnlyRetires(Mem(), outcome.next, s);
      var ok := ApplyAndPersist(outcome.next, host.saved);
      reply := if ok then Finish(host, mappings[s]) else Fail(VaultFailed);
    }

    /** ShareMapping: give another suffix the secret of source. */
    method ShareMapping(suffix: string, source: string, host: Host) returns (reply: Reply)
      requires Valid()
      modifies this
      ensures Valid() && live == old(live) && events == old(events)
      ensures !old(live) ==> reply == Fail(Revoked)
      ensures reply.Fail? <==>
                !(Passes(old(live), suffix, source, true, host)
                  && CanShare(old(Mem()), NameOf(suffix), NameOf(source)) && Saves(host.saved))
      ensures reply.Fail? ==> Untouched() && OnlyRetires(old(Mem()), Mem(), NameOf(suffix)) && !reply.error.Pending?
      ensures !reply.Fail? ==> SharedFrom(old(Mem()), Mem(), NameOf(suffix), NameOf(source)) && Kept()
      ensures !reply.Fail? ==> NameOf(suffix) in mappings && reply == Finish(host, mappings[NameOf(suffix)])
      ensures reply.Fail? && Passes(old(live), suffix, source, true, host) ==>
                (CanShare(old(Mem()), NameOf(suffix), NameOf(source)) ==>
                   Mem() == Undone(old(Mem()), ShareResult(old(Mem()), NameOf(suffix), NameOf(source))))
    {
      var names, refusal := Admit(suffix, source, true, host);
      if names.None? {
        return Fail(refusal);
      }
      AddName(mappings.Keys, names.value.0);
      reply := ShareNormalized(names.value.0, names.value.1, host);
    }

    method RenameNormalized(s: string, renamed: string, host: Host) returns (reply: Reply)
      requires Valid() && live && renamed != "" && NamesOk(mappings.Keys + {renamed})
      modifies this`mappings, this`retired, this`revision, this`saved, this`durable
      ensures Valid()
      ensures reply.Fail? <==> !(CanRename(old(Mem()), s, renamed) && Saves(host.saved))
      ensures reply.Fail? ==> saved == old(saved) && OnlyRetires(old(Mem()), Mem(), renamed) && !reply.error.Pending?
      ensures !reply.Fail? ==> RenamedTo(old(Mem()), Mem(), s, renamed) && Kept()
      ensures !reply.Fail? ==> renamed in mappings && reply == Finish(host, mappings[renamed])
      ensures reply.Fail? && CanRename(old(Mem()), s, renamed) ==>
                Mem() == Undone(old(Mem()), RenameResult(old(Mem()), s, renamed))
    {
      var outcome := ApplyRename(Mem(), s, renamed);
      if outcome.Refused? {
        return Fail(outcome.error);
      }
      RenamedKeeps(Mem(), s, renamed);
      FewerNames(mappings.Keys + {renamed}, outcome.next.mappings.Keys);
      UndoneOnlyRetires(Mem(), outcome.next, renamed);
      var ok := ApplyAndPersist(outcome.next, host.saved);
      reply := if ok then Finish(host, mappings[renamed]) else Fail(VaultFailed);
    }

    /** RenameMapping. */
    method RenameMapping(suffix: string, newSuffix: string, host: Host) returns (reply: Reply)
      requires Valid()
      modifies this
      ensures Valid() && live == old(live) && events == old(events)
      ensures !old(live) ==> reply == Fail(Revoked)
      ensures reply.Fail? <==>
                !(Passes(old(live), suffix, newSuffix, true, host)
                  && CanRename(old(Mem()), NameOf(suffix), NameOf(newSuffix)) && Saves(host.saved))
      ensures reply.Fail? ==> Untouched() && OnlyRetires(old(Mem()), Mem(), NameOf(newSuffix)) && !reply.error.Pending?
      ensures !reply.Fail? ==> RenamedTo(old(Mem()), Mem(), NameOf(suffix), NameOf(newSuffix)) && Kept()
      ensures !reply.Fail? ==> NameOf(newSuffix) in mappings && reply == Finish(host, mappings[NameOf(newSuffix)])
      ensures reply.Fail? && Passes(old(live), suffix, newSuffix, true, host) ==>
                (CanRename(old(Mem()), NameOf(suffix), NameOf(newSuffix)) ==>
                   Mem() == Undone(old(Mem()), RenameResult(old(Mem()), NameOf(suffix), NameOf(newSuffix))))
    {
      var names, refusal := Admit(suffix, newSuffix, true, host);
      if names.None? {
        return Fail(refusal);
      }
      AddName(mappings.Keys, names.value.1);
      reply := RenameNormalized(names.value.0, names.value.1, host);
    }

    // ----------------------------------------------------------------
    // Create
    // ----------------------------------------------------------------

    // The apply function of storeMapping and its persistence. base is the memory
    // without the reservation that may stand for the mapping.
    method PersistStore(mapping: Stored, answer: bool, ghost base: Memory) returns (ok: bool)
      requires Good(base) && IsFreshStore(base, mapping) && durable == MemoryOf(saved)
      requires Mem() == base || Mem() == Reserve(base, mapping.suffix, mapping.epoch)
      modifies this`mappings, this`retired, this`revision, this`saved, this`durable
      ensures durable == MemoryOf(saved) && ok == Saves(answer)
      ensures ok ==> Mem() == Store(base, mapping) && Kept()
      ensures !keeps || !ok ==> saved == old(saved)
      ensures !ok ==> Mem() == base.(retired := Retire(base.retired, mapping.suffix, mapping.epoch))
    {
      var previous := Mem();
      mappings, revision := mappings[mapping.suffix := mapping.(updatedAt := revision + 1)], revision + 1;
      StoreNewEpochs(base, previous, mapping);
      StoreKeeps(base, mapping);
      assert Mem() == Store(previous, mapping);
      ok := Persist(previous, answer);
      UndoStore(base, previous, mapping.suffix, mapping.epoch);
    }

    // What storeMapping relies on while its reference is not stored yet.
    ghost predicate Storing(base: Memory, mapping: Stored)
      reads this
    {
      && live && ReusesOnlyOpen(events)
      && durable == MemoryOf(saved) && Good(durable) && NamesOk(durable.mappings.Keys)
      && Good(base) && (keeps ==> SavedMatches(durable, base))
      && NamesOk(base.mappings.Keys) && NamesOk(base.mappings.Keys + {mapping.suffix})
      && (Mem() == base || Mem() == Reserve(base, mapping.suffix, mapping.epoch))
      && LogReady(events, base, mapping)
      && mapping.suffix !in base.mappings && mapping.suffix != ""
      && mapping.epoch == Retired(base.retired, mapping.suffix) + 1
      && mapping.secretRef == MapRef(mapping.suffix, mapping.epoch)
    }

    // storeMapping, for the reference of a free suffix and its next epoch.
    method StoreMapping(mapping: Stored, host: Host, ghost base: Memory) returns (reply: Reply)
      requires Storing(base, mapping)
      modifies this`mappings, this`retired, this`revision, this`saved, this`durable
      ensures Valid()
      ensures reply.Fail? <==> !(MatchesRefPattern(mapping.version) && Saves(host.saved))
      ensures reply.Fail? ==> saved == old(saved) && Mem() == NotStored(base, mapping)
      ensures !reply.Fail? ==>
                Mem() == Store(base, mapping) && Kept() && reply == Finish(host, mappings[mapping.suffix])
      ensures reply.Fail? ==> OnlyRetires(base, Mem(), mapping.suffix)
      ensures !reply.Fail? ==> Created(base, Mem(), mapping.suffix, mapping.provider)
      ensures if MatchesRefPattern(mapping.version) then mapping.epoch <= Spent(Mem(), mapping.suffix)
              else Mem() == base
    {
      NotStoredOnlyRetires(base, mapping);
      if !MatchesRefPattern(mapping.version) {
        mappings := Release(Mem(), mapping.suffix).mappings;
        assert mappings == base.mappings;
        LogReadyWithout(events, base, mapping);
        return Fail(Stale);
      }
      var ok := PersistStore(mapping, host.saved, base);
      if ok {
        QuietAfterStore(base, mapping, keeps, durable, events);
        StoredIsCreated(base, mapping);
        reply := Finish(host, mappings[mapping.suffix]);
      } else {
        QuietAfterLostStore(base, mapping, keeps, durable, events);
        reply := Fail(VaultFailed);
      }
    }

    // storeMapping for the reference that the log speaks of last.
    method StoreLogged(mapping: Stored, host: Host, ghost base: Memory) returns (reply: Reply)
      requires Storing(base, mapping) && events != []
      requires events[|events| - 1].ref == mapping.secretRef
      requires Open(events[|events| - 1]) <==> !MatchesRefPattern(mapping.version)
      requires var last := events[|events| - 1];
               || (last.Enrolled? && last.answer == Some(mapping.version))
               || (last.Replayed? && last.version == mapping.version)
      modifies this`mappings, this`retired, this`revision, this`saved, this`durable
      ensures Valid() && LastDecides(events, Mem(), mapping.suffix)
      ensures reply.Fail? <==> !(MatchesRefPattern(mapping.version) && Saves(host.saved))
      ensures reply.Fail? ==> OnlyRetires(base, Mem(), mapping.suffix) && saved == old(saved)
      ensures Open(events[|events| - 1]) ==> Mem() == base
      ensures !reply.Fail? ==> Created(base, Mem(), mapping.suffix, mapping.provider) && Kept()
      ensures !reply.Fail? ==>
                reply == Finish(host, mappings[mapping.suffix]) && StoredFrom(events, Mem(), mapping.suffix)
    {
      reply := StoreMapping(mapping, host, base);
      EventDecides(events, Mem(), mapping.suffix, mapping.epoch);
    }

    // The save that finishCommittedMapping makes of the memory as it is.
    method SaveUnchanged(answer: bool) returns (ok: bool)
      requires Valid() && live
      modifies this`mappings, this`retired, this`revision, this`saved, this`durable
      ensures Valid() && ok == Saves(answer) && Mem() == old(Mem()) && (ok ==> Kept())
    {
      NothingNew(Mem());
      ok := ApplyAndPersist(Mem(), answer);
    }

    // The secret that the ledger calls committed is stored under its epoch.
    method AdoptCommitted(s: string, provider: string, epoch: nat, version: string, host: Host) returns (reply: Reply)
      requires Valid() && live && s != "" && NamesOk(mappings.Keys + {s})
      requires s !in mappings && epoch == Retired(retired, s) + 1
      modifies this`mappings, this`retired, this`revision, this`saved, this`durable, this`events
      ensures Valid() && events == old(events) + [Replayed(MapRef(s, epoch), version, false, false)]
      ensures reply.Fail? <==> !(MatchesRefPattern(version) && Saves(host.saved))
      ensures reply.Fail? ==> OnlyRetires(old(Mem()), Mem(), s)
      ensures !MatchesRefPattern(version) ==> Mem() == old(Mem())
      ensures !reply.Fail? ==> Created(old(Mem()), Mem(), s, provider) && Kept() && reply == Finish(host, mappings[s])
      ensures LastDecides(events, Mem(), s)
      ensures !reply.Fail? ==> StoredFrom(events, Mem(), s)
    {
      ghost var base, log := Mem(), events;
      ghost var event := Replayed(MapRef(s, epoch), version, false, false);
      var mapping := Stored(s, MapRef(s, epoch), version, provider, 0, epoch);
      events := log + [event];
      ReplayKeepsFresh(log, event);
      LogBecomesReady(log, base, mapping, event);
      reply := StoreLogged(mapping, host, base);
    }

    // finishCommittedMapping: the ledger says the vault already committed this
    // operation, so the secret is adopted instead of enrolled. When the save of
    // the unchanged memory is lost, nothing is adopted and nothing is retired.
    // The check against retired epochs refuses nothing: epoch is the next one.
    method FinishCommitted(s: string, provider: string, epoch: nat, version: string, host: Host) returns (reply: Reply)
      requires Valid() && live && s != "" && NamesOk(mappings.Keys + {s}) && epoch == NextEpoch(Mem(), s)
      modifies this`mappings, this`retired, this`revision, this`saved, this`durable, this`events
      ensures Valid()
      ensures var lost := !Saves(host.replaySaved);
              events == old(events) + [Replayed(MapRef(s, epoch), version, s in old(mappings), lost)]
      ensures reply.Fail? <==> !Adopts(events[|old(events)|], Saves(host.saved))
      ensures reply.Fail? ==> OnlyRetires(old(Mem()), Mem(), s)
      ensures Open(events[|old(events)|]) ==> Mem() == old(Mem())
      ensures !reply.Fail? ==> Created(old(Mem()), Mem(), s, provider) && Kept() && reply == Finish(host, mappings[s])
      ensures LastDecides(events, Mem(), s)
      ensures !reply.Fail? && s !in old(mappings) ==> StoredFrom(events, Mem(), s)
    {
      ConfiguredIfPresent(Mem(), s);
      var ok := SaveUnchanged(host.replaySaved);
      if ok && !IsConfigured(Mem(), s) {
        reply := AdoptCommitted(s, provider, epoch, version, host);
      } else {
        ghost var event := Replayed(MapRef(s, epoch), version, s in mappings, !ok);
        LogGrows(events, Mem(), event);
        ReplayKeepsFresh(events, event);
        events := events + [event];
        EventDecides(events, Mem(), s, epoch);
        reply := if ok then Finish(host, mappings[s]) else Fail(VaultFailed);
      }
    }

    // The Enroll call of createMapping, with the reservation around it. An
    // enrollment that fails releases the reservation.
    method ReserveAndEnroll(s: string, epoch: nat, answer: VaultAnswer) returns (version: Option<string>)
      requires ReusesOnlyOpen(events) && LogSpent(events, Mem())
      requires s !in mappings && epoch == Retired(retired, s) + 1
      modifies this`mappings, this`events
      ensures version == VersionIn(answer)
      ensures events == old(events) + [Enrolled(MapRef(s, epoch), version)] && ReusesOnlyOpen(events)
      ensures mappings == if version.None? then old(mappings) else Reserve(old(Mem()), s, epoch).mappings
    {
      ghost var base := Mem();
      mappings := mappings[s := Stored(s, NoRef, "", "", 0, epoch)];
      version := VersionIn(answer);
      EnrollKeepsFresh(events, base, s, version);
      events := events + [Enrolled(MapRef(s, epoch), version)];
      if version.None? {
        mappings := Release(Mem(), s).mappings;
        assert mappings == base.mappings;
      }
    }

    // createMapping after the vault returned an error: give the epoch up, adopt
    // what the ledger calls committed, or fail and leave the reference open.
    method AfterVaultError(s: string, provider: string, epoch: nat, round: Attempt, host: Host)
      returns (reply: Option<Reply>)
      requires Valid() && live && s != "" && NamesOk(mappings.Keys + {s})
      requires s !in mappings && epoch == Retired(retired, s) + 1 && LastDecides(events, Mem(), s)
      requires !round.answer.Version?
      modifies this`mappings, this`retired, this`revision, this`saved, this`durable, this`events
      ensures Valid() && old(events) <= events && LastDecides(events, Mem(), s)
      ensures reply.Some? && !reply.value.Fail? ==>
                Created(old(Mem()), Mem(), s, provider) && Kept() && reply.value == Finish(host, mappings[s])
      ensures reply.None? || reply.value.Fail? ==> OnlyRetires(old(Mem()), Mem(), s)
      ensures (reply.None? <==> round.advance) && (round.advance ==> epoch <= Retired(retired, s))
      ensures round.advance || (round.answer.Broken? && round.later.Committed?) ==>
                |old(events)| < |events| && Continues(MapRef(s, epoch), round, events[|old(events)|])
      ensures reply.Some? && events == old(events) ==>
                && (reply.value == Fail(Stale) <==> round.answer.StaleToken?)
                && (reply.value == Fail(Revoked) <==> round.answer.RevokedToken?)
                && (reply.value == Fail(VaultFailed) <==> round.answer.Broken? && round.later.Failed?)
      ensures !round.advance && !(round.answer.Broken? && round.later.Committed?) && !round.answer.Version? ==>
                events == old(events) && Mem() == old(Mem()) && saved == old(saved) && reply.Some? && reply.value.Fail?
      ensures reply.Some? && !reply.value.Fail? ==> StoredFrom(events, Mem(), s)
    {
      if round.advance {
        QuietAfterGivingUp(Mem(), s, epoch, keeps, durable, events);
        ReplayKeepsFresh(events, GivenUp(MapRef(s, epoch)));
        retired := Retire(retired, s, epoch);
        events := events + [GivenUp(MapRef(s, epoch))];
        EventDecides(events, Mem(), s, epoch);
        return None;
      }
      if round.answer.StaleToken? || round.answer.RevokedToken? {
        return Some(Fail(if round.answer.StaleToken? then Stale else Revoked));
      }
      if round.later.Committed? {
        var finished := FinishCommitted(s, provider, epoch, round.later.version, host);
        return Some(finished);
      }
      return Some(Fail(if round.later.Failed? then VaultFailed else Pending));
    }

    // Enroll a fresh reference and store it; None asks for another round.
    method EnrollAndStore(s: string, provider: string, epoch: nat, round: Attempt, host: Host)
      returns (reply: Option<Reply>)
      requires Valid() && live && s != "" && NamesOk(mappings.Keys + {s})
      requires s !in mappings && epoch == Retired(retired, s) + 1
      modifies this`mappings, this`retired, this`revision, this`saved, this`durable, this`events
      ensures Valid() && LastDecides(events, Mem(), s)
      ensures Logs(old(events), events, Some(Enrolled(MapRef(s, epoch), VersionIn(round.answer))), round)
      ensures reply.Some? && !reply.value.Fail? ==>
                Created(old(Mem()), Mem(), s, provider) && Kept() && reply.value == Finish(host, mappings[s])
      ensures reply.None? || reply.value.Fail? ==> OnlyRetires(old(Mem()), Mem(), s)
      ensures Ends(events[|old(events)|], round) ==>
                reply.Some? && (reply.value.Fail? <==> !Adopts(events[|old(events)|], Saves(host.saved)))
      ensures Ends(events[|old(events)|], round) && Open(events[|old(events)|]) ==> Mem() == old(Mem())
      ensures Ends(events[|old(events)|], round) && reply.value.Fail? ==> saved == old(saved)
      ensures reply.Some? && !reply.value.Fail? ==> StoredFrom(events, Mem(), s)
    {
      ghost var base, log := Mem(), events;
      var version := ReserveAndEnroll(s, epoch, round.answer);
      ghost var event := Enrolled(MapRef(s, epoch), version);
      if version.Some? {
        var mapping := Stored(s, MapRef(s, epoch), version.value, provider, 0, epoch);
        FewerNames(base.mappings.Keys + {s}, base.mappings.Keys);
        LogBecomesReady(log, base, mapping, event);
        var stored := StoreLogged(mapping, host, base);
        reply := Some(stored);
      } else {
        assert Mem() == base;
        LogGrows(log, base, event);
        EventDecides(events, base, s, epoch);
        reply := AfterVaultError(s, provider, epoch, round, host);
        assert events[|log|] == event;
      }
    }

    // One round of createMapping's retry loop; None asks for another round.
    method CreateAttempt(s: string, provider: string, round: Attempt, host: Host) returns (reply: Option<Reply>)
      requires Valid() && live && s != "" && NamesOk(mappings.Keys + {s})
      modifies this`mappings, this`retired, this`revision, this`saved, this`durable, this`events
      ensures Valid()
      ensures Logs(old(events), events, FirstEvent(old(Mem()), s, round, !Saves(host.replaySaved)), round)
      ensures events == old(events) ==> Mem() == old(Mem()) && reply == Some(Fail(Refusal(old(Mem()), s, round)))
      ensures old(events) < events ==> LastDecides(events, Mem(), s)
      ensures old(events) < events && Ends(events[|old(events)|], round) ==>
                reply.Some? && (reply.value.Fail? <==> !Adopts(events[|old(events)|], Saves(host.saved)))
      ensures old(events) < events && Ends(events[|old(events)|], round) && Open(events[|old(events)|]) ==>
                Mem() == old(Mem())
      ensures old(events) < events && Ends(events[|old(events)|], round) && events[|old(events)|].Enrolled? ==>
                (reply.value.Fail? ==> saved == old(saved))
      ensures reply.Some? && !reply.value.Fail? ==>
                Created(old(Mem()), Mem(), s, provider) && Kept() && reply.value == Finish(host, mappings[s])
      ensures reply.None? || reply.value.Fail? ==> OnlyRetires(old(Mem()), Mem(), s)
      ensures reply.Some? && !reply.value.Fail? && s !in old(mappings) ==> StoredFrom(events, Mem(), s)
    {
      ConfiguredIfPresent(Mem(), s);
      var epoch := NextEpoch(Mem(), s);
      if !round.authorized {
        return Some(Fail(Denied));
      }
      if round.ledger.Committed? {
        var finished := FinishCommitted(s, provider, epoch, round.ledger.version, host);
        return Some(finished);
      }
      if !round.ledger.Absent? {
        return Some(Fail(if round.ledger.Failed? then VaultFailed else Pending));
      }
      if IsConfigured(Mem(), s) {
        return Some(Fail(Conflict));
      }
      if |mappings| >= MAX_MAPPINGS && s !in mappings {
        return Some(Fail(BoundExceeded));
      }
      reply := EnrollAndStore(s, provider, epoch, round, host);
    }

    // The rounds of createMapping after the first.
    method CreateLater(s: string, provider: string, host: Host) returns (reply: Reply)
      requires Valid() && live && s != "" && NamesOk(mappings.Keys + {s}) && LastDecides(events, Mem(), s)
      modifies this`mappings, this`retired, this`revision, this`saved, this`durable, this`events
      ensures Valid() && old(events) <= events && LastDecides(events, Mem(), s)
      ensures !reply.Fail? ==> Created(old(Mem()), Mem(), s, provider) && Kept() && reply == Finish(host, mappings[s])
      ensures reply.Fail? ==> OnlyRetires(old(Mem()), Mem(), s)
      ensures !reply.Fail? && s !in old(mappings) ==> StoredFrom(events, Mem(), s)
    {
      ghost var base, log := Mem(), events;
      for attempt := 1 to MAX_MAPPINGS
        invariant Valid() && log <= events && OnlyRetires(base, Mem(), s) && LastDecides(events, Mem(), s)
      {
        ghost var m := Mem();
        var round := CreateAttempt(s, provider, host.rounds(attempt), host);
        if round.Some? && !round.value.Fail? {
          CreatedLater(base, m, Mem(), s, provider);
          return round.value;
        }
        RetiresTwice(base, m, Mem(), s);
        if round.Some? {
          return round.value;
        }
      }
      return Fail(BoundExceeded);
    }

    method CreateNormalized(s: string, provider: string, host: Host) returns (reply: Reply)
      requires Valid() && live && s != "" && NamesOk(mappings.Keys + {s})
      modifies this`mappings, this`retired, this`revision, this`saved, this`durable, this`events
      ensures Valid()
      ensures Logs(old(events), events,
                   FirstEvent(old(Mem()), s, host.rounds(0), !Saves(host.replaySaved)), host.rounds(0))
      ensures events == old(events) ==> Mem() == old(Mem()) && reply == Fail(Refusal(old(Mem()), s, host.rounds(0)))
      ensures old(events) < events ==> LastDecides(events, Mem(), s)
      ensures old(events) < events && Ends(events[|old(events)|], host.rounds(0)) ==>
                && (reply.Fail? <==> !Adopts(events[|old(events)|], Saves(host.saved)))
                && (Open(events[|old(events)|]) ==> Mem() == old(Mem()))
                && (reply.Fail? && events[|old(events)|].Enrolled? ==> saved == old(saved))
      ensures !reply.Fail? ==> Created(old(Mem()), Mem(), s, provider) && Kept() && reply == Finish(host, mappings[s])
      ensures reply.Fail? ==> OnlyRetires(old(Mem()), Mem(), s)
      ensures !reply.Fail? && s !in old(mappings) ==> StoredFrom(events, Mem(), s)
    {
      ghost var base, log := Mem(), events;
      var round := CreateAttempt(s, provider, host.rounds(0), host);
      if round.Some? {
        return round.value;
      }
      ghost var m, earlier := Mem(), events;
      reply := CreateLater(s, provider, host);
      LogsOn(log, earlier, events, FirstEvent(base, s, host.rounds(0), !Saves(host.replaySaved)), host.rounds(0));
      if reply.Fail? {
        RetiresTwice(base, m, Mem(), s);
      } else {
        CreatedLater(base, m, Mem(), s, provider);
      }
    }

    /** createMapping. Its first round decides how the log grows; an accepted
        reference ends the call, and the reply then says whether it was adopted. */
    method CreateMapping(suffix: string, provider: string, materialBytes: nat, host: Host) returns (reply: Reply)
      requires Valid()
      modifies this
      ensures Valid() && live == old(live)
      ensures !MayCreate(old(live), suffix, materialBytes, host) ==>
                && Mem() == old(Mem()) && saved == old(saved) && events == old(events)
                && reply == Fail(if !old(live) then Revoked else if !host.admitted then Busy else InvalidInput)
      ensures MayCreate(old(live), suffix, materialBytes, host) ==>
                Logs(old(events), events,
                     FirstEvent(old(Mem()), NameOf(suffix), host.rounds(0), !Saves(host.replaySaved)), host.rounds(0))
      ensures MayCreate(old(live), suffix, materialBytes, host) && events == old(events) ==>
                Mem() == old(Mem()) && reply == Fail(Refusal(old(Mem()), NameOf(suffix), host.rounds(0)))
      ensures old(events) < events ==> LastDecides(events, Mem(), NameOf(suffix))
      ensures old(events) < events && Ends(events[|old(events)|], host.rounds(0)) ==>
                && (reply.Fail? <==> !Adopts(events[|old(events)|], Saves(host.saved)))
                && (Open(events[|old(events)|]) ==> Mem() == old(Mem()))
                && (reply.Fail? && events[|old(events)|].Enrolled? ==> saved == old(saved))
      ensures !reply.Fail? ==>
                && Created(old(Mem()), Mem(), NameOf(suffix), provider) && Kept()
                && reply == Finish(host, mappings[NameOf(suffix)])
      ensures reply.Fail? ==> mappings == old(mappings) && revision == old(revision)
      ensures reply.Fail? ==> OnlyRetires(old(Mem()), Mem(), NameOf(suffix))
      ensures MayCreate(old(live), suffix, materialBytes, host) && Smooth(host.rounds(0)) ==>
                (reply.Fail? <==> !(CanCreate(old(Mem()), NameOf(suffix)) && Saves(host.saved)))
      ensures !reply.Fail? && NameOf(suffix) !in old(mappings) ==> StoredFrom(events, Mem(), NameOf(suffix))
    {
      if !live || !host.admitted {
        return Fail(if live then Busy else Revoked);
      }
      var normalized := NormalizeDomain(suffix);
      if normalized.None? {
        return Fail(InvalidInput);
      }
      if materialBytes == 0 || materialBytes > MAX_TOKEN_BYTES || !host.credential {
        return Fail(InvalidInput);
      }
      AddName(mappings.Keys, normalized.value);
      if Smooth(host.rounds(0)) {
        SmoothDecides(Mem(), normalized.value, host.rounds(0), !Saves(host.replaySaved), Saves(host.saved));
      }
      reply := CreateNormalized(normalized.value, provider, host);
    }

    // ----------------------------------------------------------------
    // Rotate
    // ----------------------------------------------------------------

    method RotateNormalized(s: string, host: Host) returns (reply: Reply)
      requires Valid() && live
      modifies this`mappings, this`retired, this`revision, this`saved, this`durable
      ensures Valid()
      ensures reply.Fail? <==> !(CanRotate(old(Mem()), s, host) && Saves(host.saved))
      ensures reply.Fail? ==> saved == old(saved) && OnlyRetiresHeld(old(Mem()), Mem())
      ensures NoVersion(old(Mem()), s, host) ==> reply == Fail(RotationError(old(mappings)[s].version, host.rotation))
      ensures !reply.Fail? ==> RotatedAt(old(Mem()), Mem(), s, host) && Kept() && reply == Finish(host, mappings[s])
    {
      ConfiguredIfPresent(Mem(), s);
      if !IsConfigured(Mem(), s) {
        return Fail(NotFound);
      }
      if !host.credential {
        return Fail(InvalidInput);
      }
      var version, failure := RotateSecret(mappings[s].version, host.rotation);
      if version.None? || !MatchesRefPattern(version.value) {
        return Fail(if version.None? then failure else Stale);
      }
      var ref := mappings[s].secretRef;
      var next := ApplyRotated(Mem(), ref, version.value);
      RotateKeeps(Mem(), ref, version.value);
      RotateMeans(Mem(), s, version.value);
      UndoneRotation(Mem(), ref, version.value);
      assert next.mappings.Keys == mappings.Keys;
      assert Configured(mappings[s]) && next.mappings[s].version == version.value;
      var ok := ApplyAndPersist(next, host.saved);
      reply := if ok then Finish(host, mappings[s]) else Fail(VaultFailed);
    }

    /** RotateMappingToken: all mappings of the secret change version together. */
    method RotateMappingToken(suffix: string, materialBytes: nat, host: Host) returns (reply: Reply)
      requires Valid()
      modifies this
      ensures Valid() && live == old(live) && events == old(events)
      ensures !old(live) ==> reply == Fail(Revoked)
      ensures reply.Fail? <==>
                !(Passes(old(live), suffix, suffix, 0 < materialBytes <= MAX_TOKEN_BYTES, host)
                  && CanRotate(old(Mem()), NameOf(suffix), host) && Saves(host.saved))
      ensures reply.Fail? ==> Untouched() && OnlyRetiresHeld(old(Mem()), Mem())
      ensures Passes(old(live), suffix, suffix, 0 < materialBytes <= MAX_TOKEN_BYTES, host) ==>
                (NoVersion(old(Mem()), NameOf(suffix), host) ==>
                   reply == Fail(RotationError(old(mappings)[NameOf(suffix)].version, host.rotation)))
      ensures !reply.Fail? ==> RotatedAt(old(Mem()), Mem(), NameOf(suffix), host) && Kept()
      ensures !reply.Fail? ==> reply == Finish(host, mappings[NameOf(suffix)])
    {
      var names, refusal := Admit(suffix, suffix, 0 < materialBytes <= MAX_TOKEN_BYTES, host);
      if names.None? {
        return Fail(refusal);
      }
      reply := RotateNormalized(names.value.0, host);
    }

    // ----------------------------------------------------------------
    // Lookup
    // ----------------------------------------------------------------

    /** lookupStored: the configured mappings are visited in any order. */
    method LookupStored(domain: string) returns (best: Option<Stored>)
      requires Valid()
      ensures !live ==> best.None?
      ensures live ==> IsLongestMatch(domain, mappings.Keys, if best.Some? then Some(best.value.suffix) else None)
      ensures live && best.Some? ==> IsAt(Mem(), best.value.suffix, best.value)
    {
      best := None;
      if !live {
        return;
      }
      var left := mappings.Keys;
      assert mappings.Keys - left == {};
      while left != {}
        invariant left <= mappings.Keys
        invariant IsLongestMatch(domain, mappings.Keys - left, if best.Some? then Some(best.value.suffix) else None)
        invariant best.Some? ==> IsAt(Mem(), best.value.suffix, best.value)
      {
        var s :| s in left;
        ConfiguredIfPresent(Mem(), s);
        BetterIsLongest(domain, mappings.Keys - left, if best.Some? then Some(best.value.suffix) else None, s);
        assert mappings.Keys - (left - {s}) == mappings.Keys - left + {s};
        left := left - {s};
        if !Configured(mappings[s]) || !Matches(domain, s) {
          continue;
        }
        if best.None? || |s| > |best.value.suffix| {
          best := Some(mappings[s]);
        }
      }
      assert mappings.Keys - left == mappings.Keys;
    }
  }

  /** lookupStored agrees with LongestSuffixMatch on the configured suffixes,
      whatever the order in which either visits them. */
  lemma LookupAgrees(query: string, m: Memory, suffixes: seq<string>, looked: Option<string>, matched: Option<string>)
    requires Normalized(query).Some? && NamesOk(m.mappings.Keys)
    requires forall s :: s in suffixes <==> s in m.mappings
    requires IsLongestMatch(Normalized(query).value, m.mappings.Keys, looked)
    requires IsLongestMatch(Normalized(query).value, NormalForms(suffixes), matched)
    ensures looked == matched
  {
    forall s | s in suffixes
      ensures Normalized(s) == Some(s)
    {
      NormalizedIdempotent(s);
    }
    assert NormalForms(suffixes) == m.mappings.Keys;
    LongestMatchUnique(Normalized(query).value, m.mappings.Keys, looked, matched);
  }

  // ------------------------------------------------------------------
  // Whole lifetimes
  // ------------------------------------------------------------------

  method RunCreate(service: Service, command: Command) returns (reply: Reply)
    requires service.Valid() && command.CreateCmd?
    modifies service
    ensures service.Valid()
    ensures IsStep(service.keeps, old(service.View()), command, reply, service.View())
  {
    reply := service.CreateMapping(command.suffix, command.provider, command.materialBytes, command.host);
  }

  method RunShare(service: Service, command: Command) returns (reply: Reply)
    requires service.Valid() && command.ShareCmd?
    modifies service
    ensures service.Valid()
    ensures IsStep(service.keeps, old(service.View()), command, reply, service.View())
  {
    reply := service.ShareMapping(command.suffix, command.source, command.host);
  }

  method RunRename(service: Service, command: Command) returns (reply: Reply)
    requires service.Valid() && command.RenameCmd?
    modifies service
    ensures service.Valid()
    ensures IsStep(service.keeps, old(service.View()), command, reply, service.View())
  {
    reply := service.RenameMapping(command.suffix, command.newSuffix, command.host);
  }

  method RunRotate(service: Service, command: Command) returns (reply: Reply)
    requires service.Valid() && command.RotateCmd?
    modifies service
    ensures service.Valid()
    ensures IsStep(service.keeps, old(service.View()), command, reply, service.View())
  {
    reply := service.RotateMappingToken(command.suffix, command.materialBytes, command.host);
  }

  method RunDelete(service: Service, command: Command) returns (reply: Reply)
    requires service.Valid() && command.DeleteCmd?
    modifies service
    ensures service.Valid()
    ensures IsStep(service.keeps, old(service.View()), command, reply, service.View())
  {
    reply := service.DeleteMapping(command.suffix, command.host);
  }

  /** One operation, with any answers of the host. */
  method RunCommand(service: Service, command: Command) returns (reply: Reply)
    requires service.Valid()
    modifies service
    ensures service.Valid()
    ensures IsStep(service.keeps, old(service.View()), command, reply, service.View())
  {
    match command {
      case CreateCmd(_, _, _, _) => reply := RunCreate(service, command);
      case ShareCmd(_, _, _) => reply := RunShare(service, command);
      case RenameCmd(_, _, _) => reply := RunRename(service, command);
      case RotateCmd(_, _, _) => reply := RunRotate(service, command);
      case DeleteCmd(_, _) => reply := RunDelete(service, command);
      case CancelCmd =>
        service.Cancel();
        reply := Fail(Revoked);
    }
  }

  /** Any sequence of operations, with any answers of the host, is a history of the
      service. In it a reference that the vault is known to have accepted is
      enrolled again only if it leaked, that is if its version was malformed or the
      save before its adoption was lost; mappings that share a secret agree; and
      the catalog read back is the memory up to retired epochs. */
  method Lifetime(service: Service, commands: seq<Command>) returns (replies: seq<Reply>, ghost states: seq<State>)
    requires service.Valid()
    modifies service
    ensures IsHistory(service.keeps, states, commands, replies)
    ensures states[0] == old(service.View()) && states[|commands|] == service.View()
    ensures service.Valid() && ReusesOnlyLeaked(service.events)
    ensures service.live ==> SharersAgree(service.Mem())
    ensures service.live && service.keeps ==> SavedMatches(MemoryOf(service.saved), service.Mem())
    ensures Good(MemoryOf(service.saved))
  {
    replies, states := [], [service.View()];
    for i := 0 to |commands|
      invariant service.Valid() && IsHistory(service.keeps, states, commands[..i], replies)
      invariant states[0] == old(service.View()) && states[i] == service.View()
    {
      var reply := RunCommand(service, commands[i]);
      HistoryGrows(service.keeps, states, commands[..i], replies, commands[i], reply, service.View());
      assert commands[..i + 1] == commands[..i] + [commands[i]];
      replies, states := replies + [reply], states + [service.View()];
    }
    assert commands[..|commands|] == commands;
  }

  /** A new service on the catalog of a live one has the same mappings and
      revision, so it answers every lookup alike; only retirements that were
      never saved are forgotten, and exactly they make a free suffix start again
      at another epoch. */
  method Restart(service: Service) returns (next: Service)
    requires service.Valid() && service.keeps
    ensures fresh(next) && next.Valid() && next.live && next.keeps && next.events == []
    ensures service.live ==> next.mappings == service.mappings && next.revision == service.revision
    ensures service.live ==> forall s :: Retired(next.retired, s) <= Retired(service.retired, s)
    ensures service.live ==> forall s :: s !in service.mappings ==>
              (NextEpoch(next.Mem(), s) == NextEpoch(service.Mem(), s) <==>
               Retired(service.saved.retired, s) == Retired(service.retired, s))
  {
    next := new Service(Some(service.saved));
  }

  // ------------------------------------------------------------------
  // Examples
  // ------------------------------------------------------------------

  // A host that does everything it is asked, with this version.
  function CalmHost(version: string): Host {
    Host(true, true, true,
         (round: nat) => Attempt(true, Absent, Version(version), false, Absent),
         Rotation(Absent, Version(version), false, Broken, Absent),
         true, true, true, true, true)
  }

  function WithRound(host: Host, round: Attempt): Host {
    host.(rounds := (k: nat) => round)
  }

  method EmptyService() returns (service: Service)
    ensures fresh(service) && service.Valid() && service.live && service.keeps
    ensures service.Mem() == Memory(map[], map[], 0) == service.durable && service.events == []
    ensures service.saved == Snapshot([], map[], 0)
  {
    service := new Service(Some(Snapshot([], map[], 0)));
  }

  // A create whose first event leaves its reference open and ends the call.
  method OpenCreate(service: Service, suffix: string, host: Host, ghost e: Event) returns (reply: Reply)
    requires service.Valid() && service.live && service.keeps && MayCreate(true, suffix, 1, host)
    requires FirstEvent(service.Mem(), NameOf(suffix), host.rounds(0), !host.replaySaved) == Some(e)
    requires Open(e) && Ends(e, host.rounds(0))
    modifies service
    ensures service.Valid() && service.live && reply.Fail?
    ensures service.Mem() == old(service.Mem()) && service.events == old(service.events) + [e]
  {
    reply := service.CreateMapping(suffix, "", 1, host);
  }

  method CalmCreate(service: Service, suffix: string) returns (reply: Reply)
    requires service.Valid() && service.live && service.keeps && Normalized(suffix).Some?
    requires NameOf(suffix) !in service.mappings && |service.mappings| < MAX_MAPPINGS
    modifies service
    ensures service.Valid() && service.live && NameOf(suffix) in service.mappings
    ensures reply == Done(service.mappings[NameOf(suffix)])
    ensures var ref := MapRef(NameOf(suffix), NextEpoch(old(service.Mem()), NameOf(suffix)));
            service.events == old(service.events) + [Enrolled(ref, Some("1"))]
    ensures Created(old(service.Mem()), service.Mem(), NameOf(suffix), "") && service.durable == service.Mem()
  {
    reply := service.CreateMapping(suffix, "", 1, CalmHost("1"));
  }

  /** Two creates of one suffix in an empty service. If the first leaves its
      reference open, the second, with a calm host, enrolls the same reference and
      succeeds. */
  method CreateTwice(suffix: string, host: Host, ghost e: Event)
    returns (service: Service, first: Reply, second: Reply)
    requires MayCreate(true, suffix, 1, host)
    requires FirstEvent(Memory(map[], map[], 0), NameOf(suffix), host.rounds(0), !host.replaySaved) == Some(e)
    requires Open(e) && Ends(e, host.rounds(0))
    ensures fresh(service) && service.Valid() && service.live && first.Fail?
    ensures service.events == [e, Enrolled(MapRef(NameOf(suffix), 1), Some("1"))] && e.ref == MapRef(NameOf(suffix), 1)
    ensures NameOf(suffix) in service.mappings && second == Done(service.mappings[NameOf(suffix)])
  {
    service := EmptyService();
    first := OpenCreate(service, suffix, host, e);
    second := CalmCreate(service, suffix);
  }

  /** The vault accepts the secret and returns a malformed version. */
  method MalformedIsReused(suffix: string) returns (service: Service, first: Reply, second: Reply)
    requires Normalized(suffix).Some?
    ensures fresh(service) && service.Valid() && first.Fail? && second.Done?
    ensures var ref := MapRef(NameOf(suffix), 1);
            service.events == [Enrolled(ref, Some("?")), Enrolled(ref, Some("1"))]
    ensures Accepts(service.events[0]) && Leaks(service.events[0])
  {
    service, first, second := CreateTwice(suffix, CalmHost("?"), Enrolled(MapRef(NameOf(suffix), 1), Some("?")));
  }

  /** The ledger says the vault committed the secret, and the save before its
      adoption is lost. */
  method LostReplayIsReused(suffix: string) returns (service: Service, first: Reply, second: Reply)
    requires Normalized(suffix).Some?
    ensures fresh(service) && service.Valid() && first.Fail? && second.Done?
    ensures var ref := MapRef(NameOf(suffix), 1);
            service.events == [Replayed(ref, "1", false, true), Enrolled(ref, Some("1"))]
    ensures Accepts(service.events[0]) && Leaks(service.events[0])
  {
    var round := Attempt(true, Committed("1"), Broken, false, Absent);
    var host := WithRound(CalmHost("1"), round).(replaySaved := false);
    service, first, second := CreateTwice(suffix, host, Replayed(MapRef(NameOf(suffix), 1), "1", false, true));
  }

  /** The vault returns an error and the ledger does not know what became of it. */
  method UnclearIsReused(suffix: string) returns (service: Service, first: Reply, second: Reply)
    requires Normalized(suffix).Some?
    ensures fresh(service) && service.Valid() && first.Fail? && second.Done?
    ensures var ref := MapRef(NameOf(suffix), 1); service.events == [Enrolled(ref, None), Enrolled(ref, Some("1"))]
  {
    var round := Attempt(true, Absent, Broken, false, Unknown);
    var host := WithRound(CalmHost("1"), round);
    service, first, second := CreateTwice(suffix, host, Enrolled(MapRef(NameOf(suffix), 1), None));
  }

  // A create whose reference is accepted and whose save is lost.
  method LostCreate(service: Service, suffix: string, host: Host, ghost e: Event) returns (reply: Reply)
    requires service.Valid() && service.live && service.keeps && MayCreate(true, suffix, 1, host)
    requires FirstEvent(service.Mem(), NameOf(suffix), host.rounds(0), !host.replaySaved) == Some(e)
    requires e.Enrolled? && Accepts(e) && !host.saved
    modifies service
    ensures service.Valid() && reply.Fail? && service.saved == old(service.saved)
    ensures service.events == old(service.events) + [e]
  {
    reply := service.CreateMapping(suffix, "", 1, host);
  }

  method LostThenRestarted(service: Service, suffix: string) returns (reply: Reply, next: Service)
    requires service.Valid() && service.live && service.keeps && Normalized(suffix).Some?
    requires service.Mem() == Memory(map[], map[], 0) == service.durable && service.events == []
    modifies service
    ensures reply.Fail? && service.events == [Enrolled(MapRef(NameOf(suffix), 1), Some("1"))]
    ensures service.saved == old(service.saved)
    ensures fresh(next) && next.Valid() && next.live && next.keeps && next.events == []
    ensures next.Mem() == Memory(map[], map[], 0)
  {
    var host := CalmHost("1").(saved := false);
    reply := LostCreate(service, suffix, host, Enrolled(MapRef(NameOf(suffix), 1), Some("1")));
    next := new Service(Some(service.saved));
  }

  /** The vault accepts the secret with a well-formed version and the save of its
      mapping is lost. The epoch is retired, but only in memory: after a restart
      the same reference is enrolled again. */
  method RestartForgets(suffix: string) returns (service: Service, first: Reply, next: Service, second: Reply)
    requires Normalized(suffix).Some?
    ensures fresh(service) && fresh(next) && next.Valid() && next.live && first.Fail?
    ensures service.saved == Snapshot([], map[], 0)
    ensures service.events == next.events == [Enrolled(MapRef(NameOf(suffix), 1), Some("1"))]
    ensures Accepts(service.events[0]) && !Leaks(service.events[0])
    ensures NameOf(suffix) in next.mappings && second == Done(next.mappings[NameOf(suffix)])
  {
    service := EmptyService();
    first, next := LostThenRestarted(service, suffix);
    second := CalmCreate(next, suffix);
  }

  /** The pending error decides nothing: a create returns it without effect when
      the ledger does not know what became of the operation. */
  method PendingWithoutEffect(suffix: string) returns (reply: Reply, service: Service)
    requires Normalized(suffix).Some?
    ensures Seen(reply) == Some(Pending) && reply.Fail?
    ensures service.mappings == map[] && service.events == []
  {
    service := EmptyService();
    var round := Attempt(true, Unknown, Broken, false, Absent);
    reply := service.CreateMapping(suffix, "", 1, WithRound(CalmHost("1"), round));
  }

  /** And a create returns it with the mapping stored and saved when the user
      interface does not take the report. */
  method PendingWithEffect(suffix: string) returns (reply: Reply, service: Service)
    requires Normalized(suffix).Some?
    ensures Seen(reply) == Some(Pending) && reply.Unreported?
    ensures NameOf(suffix) in service.mappings && service.durable == service.Mem()
  {
    service := EmptyService();
    reply := service.CreateMapping(suffix, "", 1, CalmHost("1").(emitted := false));
  }

  /** The revoked error decides nothing either: a create returns it with the mapping
      stored and saved when the call is found to be over before its report, */
  method RevokedWithEffect(suffix: string) returns (reply: Reply, service: Service)
    requires Normalized(suffix).Some?
    ensures Seen(reply) == Some(Revoked) && reply.Unreported?
    ensures NameOf(suffix) in service.mappings && service.durable == service.Mem()
  {
    service := EmptyService();
    reply := service.CreateMapping(suffix, "", 1, CalmHost("1").(stillLive := false));
  }

  /** and it returns it without effect, as every operation does, after Cancel. */
  method RevokedWithoutEffect(service: Service, suffix: string) returns (reply: Reply)
    requires service.Valid()
    modifies service
    ensures Seen(reply) == Some(Revoked) && reply.Fail?
    ensures service.mappings == map[] && service.saved == old(service.saved)
  {
    service.Cancel();
    reply := service.CreateMapping(suffix, "", 1, CalmHost("1"));
  }

  /** A rotation returns the pending error without effect when the ledger does not
      know what became of it. */
  method RotationWithoutEffect(service: Service, suffix: string) returns (reply: Reply)
    requires service.Valid() && service.live && Normalized(suffix).Some? && NameOf(suffix) in service.mappings
    modifies service
    ensures Seen(reply) == Some(Pending) && reply.Fail? && service.mappings == old(service.mappings)
  {
    var rotation := Rotation(Unknown, Broken, false, Broken, Absent);
    reply := service.RotateMappingToken(suffix, 1, CalmHost("2").(rotation := rotation));
  }

  /** And it returns it with the new version stored and saved when the report is
      not taken. */
  method RotationWithEffect(service: Service, suffix: string) returns (reply: Reply)
    requires service.Valid() && service.live && service.keeps && Normalized(suffix).Some?
    requires NameOf(suffix) in service.mappings && MatchesRefPattern(service.mappings[NameOf(suffix)].version)
    modifies service
    ensures Seen(reply) == Some(Pending) && reply.Unreported? && service.durable == service.Mem()
    ensures NameOf(suffix) in service.mappings && service.mappings[NameOf(suffix)].version == "2"
  {
    ghost var s := NameOf(suffix);
    assert Configured(service.mappings[s]);
    reply := service.RotateMappingToken(suffix, 1, CalmHost("2").(recorded := false));
  }
}
