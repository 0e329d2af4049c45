/** The values behind the suffix-to-token mappings of
    plugins/cloudflare-dns/mapping.go and mapping_catalog.go: what the service
    keeps in memory, what it saves, and what each operation does to them. */
module MappingMemory {

  import opened Suffix
  import opened Strings

  // A secret reference is a digest of a suffix and an epoch. The encoding under
  // the digest is injective (Encodings.SecretRefKeyInjective) and the digest is
  // taken to be, so a reference is modelled by the pair itself.
  datatype Ref = NoRef | MapRef(suffix: string, epoch: nat)

  datatype Stored = Stored(
    suffix: string, secretRef: Ref, version: string, provider: string, updatedAt: nat, epoch: nat)

  // A mapping without a reference is only a reservation.
  predicate Configured(mapping: Stored) {
    mapping.secretRef.MapRef? && mapping.version != ""
  }

  datatype Memory = Memory(mappings: map<string, Stored>, retired: map<string, nat>, revision: nat)

  datatype Snapshot = Snapshot(mappings: seq<Stored>, retired: map<string, nat>, revision: nat)

  function Retired(retired: map<string, nat>, suffix: string): nat {
    if suffix in retired then retired[suffix] else 0
  }

  predicate IsConfigured(m: Memory, suffix: string) {
    suffix in m.mappings && Configured(m.mappings[suffix])
  }

  // ^[a-z0-9][a-z0-9._:/-]{0,127}$
  predicate MatchesRefPattern(value: string) {
    && 0 < |value| <= 128
    && ('a' <= value[0] <= 'z' || '0' <= value[0] <= '9')
    && forall i :: 1 <= i < |value| ==>
         'a' <= value[i] <= 'z' || '0' <= value[i] <= '9' || value[i] in "._:/-"
  }

  /** Which characters the pattern lets follow, and how many: it begins with a lower-case
      letter or a digit and goes on with those and five punctuation marks, up to 128. */
  lemma PatternGrows(value: string, c: char)
    ensures !MatchesRefPattern("")
    ensures MatchesRefPattern([c]) <==> 'a' <= c <= 'z' || '0' <= c <= '9'
    ensures value != "" ==>
              (MatchesRefPattern(value + [c]) <==>
               && MatchesRefPattern(value) && |value| < 128
               && ('a' <= c <= 'z' || '0' <= c <= '9' || c == '.' || c == '_' || c == ':' || c == '/' || c == '-'))
  {
    if value != "" {
      var longer := value + [c];
      assert longer[|value|] == c;
      assert forall i :: 0 <= i < |value| ==> longer[i] == value[i];
    }
  }

  // ------------------------------------------------------------------
  // What holds of every memory between operations
  // ------------------------------------------------------------------

  // All epochs of a suffix up to here are spent: retired, or held by the
  // suffix's own mapping.
  function Spent(m: Memory, suffix: string): nat {
    var retired := Retired(m.retired, suffix);
    if suffix in m.mappings && m.mappings[suffix].epoch > retired then m.mappings[suffix].epoch else retired
  }

  // No spent epoch becomes available again.
  ghost predicate SpentGrows(m: Memory, m': Memory) {
    forall s :: Spent(m, s) <= Spent(m', s)
  }

  ghost predicate KeysOk(m: Memory) {
    forall s :: s in m.mappings ==> s != "" && m.mappings[s].suffix == s
  }

  ghost predicate AllConfigured(m: Memory) {
    forall s {:trigger Configured(m.mappings[s])} :: s in m.mappings ==>
        Configured(m.mappings[s]) && m.mappings[s].epoch >= 1
  }

  // A mapping may carry the reference of another suffix, after a share or a
  // rename, so what must be spent is the pair inside the reference.
  ghost predicate RefsSpent(m: Memory) {
    forall s {:trigger m.mappings[s].secretRef} :: s in m.mappings && m.mappings[s].secretRef.MapRef? ==>
      1 <= m.mappings[s].secretRef.epoch <= Spent(m, m.mappings[s].secretRef.suffix)
  }

  // Mappings that share a secret agree on its version and provider.
  ghost predicate SharersAgree(m: Memory) {
    forall s, t {:trigger m.mappings[s].version, m.mappings[t].version} ::
      s in m.mappings && t in m.mappings && m.mappings[s].secretRef == m.mappings[t].secretRef ==>
        m.mappings[s].version == m.mappings[t].version && m.mappings[s].provider == m.mappings[t].provider
  }

  ghost predicate Good(m: Memory) {
    KeysOk(m) && AllConfigured(m) && RefsSpent(m) && SharersAgree(m)
  }

  // Every configured suffix is in normal form.
  ghost predicate NamesOk(suffixes: set<string>) {
    forall s :: s in suffixes ==> IsName(s)
  }

  // What the durable catalog, read back, has to do with the memory.
  ghost predicate SavedMatches(durable: Memory, m: Memory) {
    && durable.mappings == m.mappings
    && durable.revision == m.revision
    && forall s :: Retired(durable.retired, s) <= Retired(m.retired, s)
  }

  // ------------------------------------------------------------------
  // Epochs and reservations
  // ------------------------------------------------------------------

  // nextMappingEpoch.
  function NextEpoch(m: Memory, suffix: string): nat {
    if IsConfigured(m, suffix) then m.mappings[suffix].epoch else Retired(m.retired, suffix) + 1
  }

  // retireSuffixLocked.
  function Retire(retired: map<string, nat>, suffix: string, epoch: nat): map<string, nat> {
    if epoch > Retired(retired, suffix) then retired[suffix := epoch] else retired
  }

  function Reserve(m: Memory, suffix: string, epoch: nat): Memory {
    m.(mappings := m.mappings[suffix := Stored(suffix, NoRef, "", "", 0, epoch)])
  }

  function Release(m: Memory, suffix: string): Memory {
    if suffix in m.mappings && !Configured(m.mappings[suffix]) then m.(mappings := m.mappings - {suffix}) else m
  }

  lemma RetireKeeps(m: Memory, retired: map<string, nat>)
    requires Good(m) && forall s :: Retired(m.retired, s) <= Retired(retired, s)
    ensures Good(m.(retired := retired)) && SpentGrows(m, m.(retired := retired))
  {
  }

  // ------------------------------------------------------------------
  // What each operation applies
  // ------------------------------------------------------------------

  // storeMapping.
  function Store(m: Memory, mapping: Stored): Memory {
    Memory(m.mappings[mapping.suffix := mapping.(updatedAt := m.revision + 1)], m.retired, m.revision + 1)
  }

  // ShareMapping: the new suffix gets the secret of the origin.
  function Share(m: Memory, suffix: string, origin: Stored, epoch: nat): Memory {
    Store(m, Stored(suffix, origin.secretRef, origin.version, origin.provider, 0, epoch))
  }

  // DeleteMapping; the revision stays.
  function Delete(m: Memory, suffix: string): Memory
    requires suffix in m.mappings
  {
    m.(mappings := m.mappings - {suffix}, retired := Retire(m.retired, suffix, m.mappings[suffix].epoch))
  }

  // RenameMapping: the mapping moves with its epoch; the old suffix retires it.
  function Rename(m: Memory, suffix: string, renamed: string): Memory
    requires suffix in m.mappings
  {
    Store(Delete(m, suffix), m.mappings[suffix].(suffix := renamed))
  }

  // applyRotatedMapping: every mapping of the secret gets the new version.
  function RotateOne(mapping: Stored, ref: Ref, version: string, revision: nat): Stored {
    if mapping.secretRef == ref && Configured(mapping) then mapping.(version := version, updatedAt := revision)
    else mapping
  }

  function Rotate(m: Memory, ref: Ref, version: string): Memory {
    Memory(map s | s in m.mappings :: RotateOne(m.mappings[s], ref, version, m.revision + 1), m.retired, m.revision + 1)
  }

  // Putting a mapping at a free suffix, with a secret that is either new or
  // already shared consistently.
  lemma PutKeeps(m: Memory, mapping: Stored)
    requires Good(m) && mapping.suffix !in m.mappings && mapping.suffix != ""
    requires Configured(mapping) && mapping.epoch >= 1
    requires mapping.secretRef == MapRef(mapping.suffix, mapping.epoch)
          || 1 <= mapping.secretRef.epoch <= Spent(m, mapping.secretRef.suffix)
    requires forall s :: s in m.mappings && m.mappings[s].secretRef == mapping.secretRef ==>
               m.mappings[s].version == mapping.version && m.mappings[s].provider == mapping.provider
    ensures Good(Store(m, mapping)) && SpentGrows(m, Store(m, mapping))
  {
    assert SpentGrows(m, Store(m, mapping));
  }

  // The store createMapping makes: a free suffix and the next epoch under it.
  ghost predicate IsFreshStore(m: Memory, mapping: Stored) {
    && mapping.suffix !in m.mappings && mapping.suffix != ""
    && mapping.epoch == Retired(m.retired, mapping.suffix) + 1
    && mapping.secretRef == MapRef(mapping.suffix, mapping.epoch) && mapping.version != ""
  }

  lemma StoreKeeps(m: Memory, mapping: Stored)
    requires Good(m) && IsFreshStore(m, mapping)
    ensures Good(Store(m, mapping)) && SpentGrows(m, Store(m, mapping))
    ensures mapping.epoch <= Spent(Store(m, mapping), mapping.suffix)
  {
    // The reference is new: were it in use, its epoch would be spent.
    assert Spent(m, mapping.suffix) < mapping.epoch;
    assert forall s :: s in m.mappings ==> m.mappings[s].secretRef != mapping.secretRef;
    PutKeeps(m, mapping);
  }

  lemma ShareKeeps(m: Memory, suffix: string, source: string, epoch: nat)
    requires Good(m) && suffix !in m.mappings && source in m.mappings && suffix != "" && epoch >= 1
    ensures var next := Share(m, suffix, m.mappings[source], epoch); Good(next) && SpentGrows(m, next)
  {
    var origin := m.mappings[source];
    assert Configured(origin);
    PutKeeps(m, Stored(suffix, origin.secretRef, origin.version, origin.provider, 0, epoch));
  }

  lemma DeleteKeeps(m: Memory, suffix: string)
    requires Good(m) && suffix in m.mappings
    ensures Good(Delete(m, suffix)) && SpentGrows(m, Delete(m, suffix))
  {
  }

  lemma RenameKeeps(m: Memory, suffix: string, renamed: string)
    requires Good(m) && suffix in m.mappings && renamed !in m.mappings && renamed != ""
    ensures Good(Rename(m, suffix, renamed)) && SpentGrows(m, Rename(m, suffix, renamed))
  {
    var current, without := m.mappings[suffix], Delete(m, suffix);
    DeleteKeeps(m, suffix);
    assert Configured(current);
    PutKeeps(without, current.(suffix := renamed));
    assert SpentGrows(without, Rename(m, suffix, renamed));
  }

  lemma RotateAgrees(m: Memory, ref: Ref, version: string)
    requires Good(m)
    ensures SharersAgree(Rotate(m, ref, version))
  {
  }

  // Rotating changes versions only.
  lemma RotateSpends(m: Memory, ref: Ref, version: string)
    ensures forall s :: Spent(Rotate(m, ref, version), s) == Spent(m, s)
    ensures RefsSpent(m) ==> RefsSpent(Rotate(m, ref, version))
  {
    var next := Rotate(m, ref, version);
    forall s | s in next.mappings
      ensures next.mappings[s].secretRef == m.mappings[s].secretRef
      ensures next.mappings[s].epoch == m.mappings[s].epoch
    {
    }
  }

  lemma RotateConfigures(m: Memory, ref: Ref, version: string)
    requires KeysOk(m) && AllConfigured(m) && version != ""
    ensures KeysOk(Rotate(m, ref, version)) && AllConfigured(Rotate(m, ref, version))
  {
    var next := Rotate(m, ref, version);
    forall s | s in next.mappings
      ensures Configured(next.mappings[s]) && next.mappings[s].suffix == s && next.mappings[s].epoch >= 1
    {
      assert Configured(m.mappings[s]);
    }
  }

  lemma RotateKeeps(m: Memory, ref: Ref, version: string)
    requires Good(m) && version != ""
    ensures Good(Rotate(m, ref, version)) && SpentGrows(m, Rotate(m, ref, version))
  {
    RotateSpends(m, ref, version);
    RotateConfigures(m, ref, version);
    RotateAgrees(m, ref, version);
  }

  // ------------------------------------------------------------------
  // Undoing a failed save
  // ------------------------------------------------------------------

  // The epochs applyAndPersist retires when the save fails.
  predicate IsNewEpoch(previous: Memory, next: Memory, suffix: string) {
    && IsConfigured(next, suffix) && next.mappings[suffix].epoch != 0
    && var mapping := next.mappings[suffix];
       !(IsConfigured(previous, suffix)
         && previous.mappings[suffix].epoch == mapping.epoch
         && previous.mappings[suffix].secretRef == mapping.secretRef
         && previous.mappings[suffix].version == mapping.version)
  }

  function NewEpochs(previous: Memory, next: Memory): map<string, nat> {
    map s | s in next.mappings && IsNewEpoch(previous, next, s) :: next.mappings[s].epoch
  }

  function RetireAll(retired: map<string, nat>, epochs: map<string, nat>): map<string, nat> {
    retired + map s | s in epochs && epochs[s] > Retired(retired, s) :: epochs[s]
  }

  // restoreMemoryLocked, then the retirements, dropping bare reservations.
  function Undo(previous: Memory, epochs: map<string, nat>): Memory {
    Memory(map s | s in previous.mappings && (Configured(previous.mappings[s]) || s !in epochs) :: previous.mappings[s],
           RetireAll(previous.retired, epochs),
           previous.revision)
  }

  lemma RetireOneMore(retired: map<string, nat>, done: map<string, nat>, suffix: string, epoch: nat)
    requires suffix !in done
    ensures RetireAll(retired, done[suffix := epoch]) == Retire(RetireAll(retired, done), suffix, epoch)
  {
  }

  // Undoing one more epoch: retire it and drop its bare reservation.
  lemma UndoOneMore(previous: Memory, done: map<string, nat>, suffix: string, epoch: nat)
    requires suffix !in done
    ensures Undo(previous, done[suffix := epoch]).mappings == Release(Undo(previous, done), suffix).mappings
  {
  }

  lemma UndoNothing(previous: Memory)
    ensures Undo(previous, map[]) == previous
  {
  }

  /** Undoing an operation that reserved nothing restores the mappings and the
      revision; epochs are only ever retired further. */
  lemma UndoReturns(previous: Memory, epochs: map<string, nat>)
    requires Good(previous)
    ensures var undone := Undo(previous, epochs);
            && undone == previous.(retired := RetireAll(previous.retired, epochs))
            && Good(undone) && SpentGrows(previous, undone)
            && forall s :: Retired(previous.retired, s) <= Retired(undone.retired, s)
  {
  }

  lemma StoreNewEpochs(base: Memory, previous: Memory, mapping: Stored)
    requires AllConfigured(base) && IsFreshStore(base, mapping)
    requires previous == base || previous == Reserve(base, mapping.suffix, mapping.epoch)
    ensures Store(previous, mapping) == Store(base, mapping)
    ensures NewEpochs(previous, Store(previous, mapping)) == map[mapping.suffix := mapping.epoch]
  {
    var next := Store(previous, mapping);
    assert next.mappings == Store(base, mapping).mappings;
    assert IsNewEpoch(previous, next, mapping.suffix);
    assert forall s :: s in base.mappings ==> Configured(base.mappings[s]) && next.mappings[s] == base.mappings[s];
  }

  /** Undoing createMapping's store drops the reservation and retires the epoch,
      so that the reference under it is never enrolled again. */
  lemma UndoStore(base: Memory, previous: Memory, suffix: string, epoch: nat)
    requires AllConfigured(base) && suffix !in base.mappings
    requires previous == base || previous == Reserve(base, suffix, epoch)
    ensures Undo(previous, map[suffix := epoch]) == base.(retired := Retire(base.retired, suffix, epoch))
  {
  }

  // ------------------------------------------------------------------
  // The catalog
  // ------------------------------------------------------------------

  // The list holds exactly the configured mappings, in some order.
  ghost predicate Lists(list: seq<Stored>, mappings: map<string, Stored>) {
    && (forall i :: 0 <= i < |list| ==>
          list[i].suffix in mappings && mappings[list[i].suffix] == list[i] && Configured(list[i]))
    && (forall s :: s in mappings && Configured(mappings[s]) ==> mappings[s] in list)
  }

  // restoreCatalog, one mapping at a time.
  function Rebuild(list: seq<Stored>): map<string, Stored> {
    if list == [] then map[]
    else
      var last := list[|list| - 1];
      var earlier := Rebuild(list[..|list| - 1]);
      if last.suffix == "" || !Configured(last) then earlier else earlier[last.suffix := last]
  }

  function MemoryOf(snapshot: Snapshot): Memory {
    Memory(Rebuild(snapshot.mappings), snapshot.retired, snapshot.revision)
  }

  lemma {:induction false} RebuildEntries(list: seq<Stored>, mappings: map<string, Stored>)
    requires forall i :: 0 <= i < |list| ==>
               && list[i].suffix in mappings && mappings[list[i].suffix] == list[i]
               && Configured(list[i]) && list[i].suffix != ""
    ensures forall s :: s in Rebuild(list) ==> s in mappings && Rebuild(list)[s] == mappings[s] && mappings[s] in list
    ensures forall i :: 0 <= i < |list| ==> list[i].suffix in Rebuild(list)
  {
    if list != [] {
      RebuildEntries(list[..|list| - 1], mappings);
    }
  }

  /** Rebuilding from any order of the saved list gives back the configured
      mappings exactly. */
  lemma RebuildInverts(list: seq<Stored>, m: Memory)
    requires KeysOk(m) && AllConfigured(m) && Lists(list, m.mappings)
    ensures Rebuild(list) == m.mappings
  {
    RebuildEntries(list, m.mappings);
    forall s | s in m.mappings
      ensures s in Rebuild(list)
    {
      assert Configured(m.mappings[s]);
      assert m.mappings[s] in list && m.mappings[s].suffix == s;
    }
  }
}
