/** The crash-safe SDK update of cmd/nre-ci/sdk_transaction.go.

    A set of target files is replaced together. New contents are first staged
    beside each target, then a journal naming the old and the new content of
    every target is published by a rename, then each target is swapped, and
    finally the leftovers and the journal are removed. After a crash, recovery
    reads the disk and either completes or undoes the update.

    SHA-256 is taken to be injective, so a digest is modelled by the content
    itself. The model works for any number of targets. */
module SdkTransaction {

  import opened Strings

  // A file holds plain bytes or an encoded journal; only the latter decodes.
  datatype File = Plain(text: string) | Encoded(manifest: Manifest)

  // path is the position of the target in the canonical target list.
  datatype Entry = Entry(path: nat, oldDigest: File, newDigest: File)

  datatype Manifest = Manifest(schemaVersion: int, files: seq<Entry>)

  datatype Path =
    | Target(index: nat)
    | Staged(index: nat)
    | Backup(index: nat)
    | Journal
    | JournalTemp

  // What the file system was asked when it failed.
  datatype Operation = Reading | Writing | Renaming(source: Path) | Removing | Syncing

  datatype Error =
    | IoError(doing: Operation)
    | CrashError
    | InvalidTargets
    | UnreadableJournal
    | InvalidManifest
    | UnknownContent
    | BothHoldOldGeneration
    | StagedUnavailable
    | BackupUnavailable
    | VerificationFailed
    | CannotRecover
    | OrphanBackup

  type Disk = map<Path, File>

  // One complete content for every target.
  type Generation = seq<File>

  // ------------------------------------------------------------------
  // What the disk holds
  // ------------------------------------------------------------------

  function Get(disk: Disk, path: Path): Option<File> {
    if path in disk then Some(disk[path]) else None
  }

  function Renamed(disk: Disk, source: Path, destination: Path): Disk
    requires source in disk
  {
    (disk - {source})[destination := disk[source]]
  }

  function ManifestOf(before: Generation, after: Generation): (m: Manifest)
    requires |before| == |after|
  {
    Manifest(1, seq(|before|, i requires 0 <= i < |before| => Entry(i, before[i], after[i])))
  }

  // Journals that recovery accepts: schema 1 and the canonical paths in order.
  predicate ValidManifest(manifest: Manifest, targets: nat) {
    && manifest.schemaVersion == 1
    && |manifest.files| == targets
    && forall i :: 0 <= i < targets ==> manifest.files[i].path == i
  }

  predicate InScope(path: Path, targets: nat) {
    match path
    case Journal => true
    case JournalTemp => true
    case _ => path.index < targets
  }

  ghost predicate Scoped(disk: Disk, targets: nat) {
    forall path :: path in disk ==> InScope(path, targets)
  }

  ghost predicate TargetsAre(disk: Disk, generation: Generation) {
    forall i :: 0 <= i < |generation| ==> Get(disk, Target(i)) == Some(generation[i])
  }

  // Nothing but the targets is on disk, and they are exactly this generation.
  ghost predicate Clean(disk: Disk, generation: Generation) {
    && TargetsAre(disk, generation)
    && forall path :: path in disk ==> path.Target? && path.index < |generation|
  }

  predicate HasOld(disk: Disk, i: nat, before: Generation)
    requires i < |before|
  {
    Get(disk, Target(i)) == Some(before[i]) || Get(disk, Backup(i)) == Some(before[i])
  }

  predicate HasNew(disk: Disk, i: nat, after: Generation)
    requires i < |after|
  {
    Get(disk, Target(i)) == Some(after[i]) || Get(disk, Staged(i)) == Some(after[i])
  }

  predicate CanRollForward(disk: Disk, after: Generation) {
    forall i :: 0 <= i < |after| ==> HasNew(disk, i, after)
  }

  predicate CanRollBack(disk: Disk, before: Generation) {
    forall i :: 0 <= i < |before| ==> HasOld(disk, i, before)
  }

  // ------------------------------------------------------------------
  // The invariant
  // ------------------------------------------------------------------

  // No journal and no backup: the targets are one whole generation. Staged
  // files and the journal's temporary file may be left over, torn or not.
  ghost predicate Settled(disk: Disk, generation: Generation) {
    && Journal !in disk
    && TargetsAre(disk, generation)
    && forall i :: 0 <= i < |generation| ==> Backup(i) !in disk
  }

  // What one target and its two siblings may hold while the journal exists.
  ghost predicate SlotOk(disk: Disk, i: nat, before: File, after: File) {
    var target, staged, backup := Get(disk, Target(i)), Get(disk, Staged(i)), Get(disk, Backup(i));
    && (staged == None || staged == Some(after))
    && if before == after then
         target == Some(before) && backup == None
       else
         && (target == None || target == Some(before) || target == Some(after))
         && (backup == None || (backup == Some(before) && target != Some(before)))
  }

  // The journal exists. Either no old content has been lost, or every target
  // has already received its new content.
  ghost predicate InFlight(disk: Disk, before: Generation, after: Generation) {
    && |before| == |after|
    && Get(disk, Journal) == Some(Encoded(ManifestOf(before, after)))
    && JournalTemp !in disk
    && (forall i :: 0 <= i < |before| ==> SlotOk(disk, i, before[i], after[i]))
    && (CanRollBack(disk, before) || TargetsAre(disk, after))
  }

  ghost predicate Between(disk: Disk, before: Generation, after: Generation) {
    && |before| == |after|
    && Scoped(disk, |before|)
    && (Settled(disk, before) || Settled(disk, after) || InFlight(disk, before, after))
  }

  // No copy of an old or a new content appears that was not there before.
  ghost predicate Shrinks(earlier: Disk, later: Disk, before: Generation, after: Generation) {
    && |before| == |after|
    && forall i :: 0 <= i < |before| ==>
         && (HasNew(later, i, after) ==> HasNew(earlier, i, after))
         && (HasOld(later, i, before) ==> HasOld(earlier, i, before))
  }

  // Errors that can only stem from the file system, never from what the disk
  // holds. CannotRecover belongs here because a failed read counts as absence.
  predicate Environmental(error: Error) {
    error.IoError? || error.CrashError? || error.CannotRecover?
  }

  // One operation of the file system failed.
  predicate Failed(errs: seq<Error>) {
    |errs| == 1 && (errs[0].IoError? || errs[0].CrashError?)
  }

  // ------------------------------------------------------------------
  // One step at a time
  // ------------------------------------------------------------------

  lemma BackupStep(disk: Disk, before: Generation, after: Generation, i: nat)
    requires Between(disk, before, after) && InFlight(disk, before, after)
    requires i < |before| && before[i] != after[i] && Get(disk, Target(i)) == Some(before[i])
    ensures var next := Renamed(disk, Target(i), Backup(i));
            && Between(next, before, after) && InFlight(next, before, after)
            && Shrinks(disk, next, before, after)
            && (CanRollForward(disk, after) ==> CanRollForward(next, after))
  {
    var next := Renamed(disk, Target(i), Backup(i));
    assert !TargetsAre(disk, after);
    forall j | 0 <= j < |before|
      ensures SlotOk(next, j, before[j], after[j]) && HasOld(next, j, before)
      ensures HasNew(disk, j, after) <==> HasNew(next, j, after)
    {
      assert SlotOk(disk, j, before[j], after[j]) && HasOld(disk, j, before);
    }
  }

  lemma PromoteStep(disk: Disk, before: Generation, after: Generation, i: nat)
    requires Between(disk, before, after) && InFlight(disk, before, after)
    requires i < |before| && Target(i) !in disk && Get(disk, Staged(i)) == Some(after[i])
    ensures var next := Renamed(disk, Staged(i), Target(i));
            && Between(next, before, after) && InFlight(next, before, after)
            && Shrinks(disk, next, before, after)
            && (CanRollForward(disk, after) ==> CanRollForward(next, after))
  {
    var next := Renamed(disk, Staged(i), Target(i));
    assert !TargetsAre(disk, after);
    forall j | 0 <= j < |before|
      ensures SlotOk(next, j, before[j], after[j]) && HasOld(next, j, before)
      ensures HasNew(disk, j, after) <==> HasNew(next, j, after)
      ensures HasOld(next, j, before) ==> HasOld(disk, j, before)
    {
      assert SlotOk(disk, j, before[j], after[j]) && HasOld(disk, j, before);
    }
  }

  lemma DiscardStep(disk: Disk, before: Generation, after: Generation, i: nat)
    requires Between(disk, before, after) && CanRollBack(disk, before)
    requires i < |before| && Target(i) in disk && disk[Target(i)] != before[i]
    ensures var next := disk - {Target(i)};
            && Between(next, before, after) && CanRollBack(next, before)
            && Shrinks(disk, next, before, after)
  {
    var next := disk - {Target(i)};
    assert InFlight(disk, before, after) by {
      assert HasOld(disk, i, before);
    }
    forall j | 0 <= j < |before|
      ensures SlotOk(next, j, before[j], after[j]) && HasOld(next, j, before)
    {
      assert SlotOk(disk, j, before[j], after[j]) && HasOld(disk, j, before);
    }
  }

  lemma RestoreStep(disk: Disk, before: Generation, after: Generation, i: nat)
    requires Between(disk, before, after) && CanRollBack(disk, before)
    requires i < |before| && Target(i) !in disk && Get(disk, Backup(i)) == Some(before[i])
    ensures var next := Renamed(disk, Backup(i), Target(i));
            && Between(next, before, after) && CanRollBack(next, before)
            && Shrinks(disk, next, before, after)
  {
    var next := Renamed(disk, Backup(i), Target(i));
    assert InFlight(disk, before, after) by {
      assert HasOld(disk, i, before);
    }
    forall j | 0 <= j < |before|
      ensures SlotOk(next, j, before[j], after[j]) && HasOld(next, j, before)
      ensures HasNew(next, j, after) ==> HasNew(disk, j, after)
    {
      assert SlotOk(disk, j, before[j], after[j]) && HasOld(disk, j, before);
    }
  }

  // Removing a leftover once all targets agree keeps the invariant whichever
  // generation they agree on, because only the targets are then needed.
  lemma SweepStep(disk: Disk, before: Generation, after: Generation, leftover: Path)
    requires Between(disk, before, after)
    requires TargetsAre(disk, before) || TargetsAre(disk, after)
    requires leftover.Staged? || leftover.Backup?
    ensures var next := disk - {leftover};
            && Between(next, before, after)
            && Shrinks(disk, next, before, after)
            && (TargetsAre(disk, before) ==> TargetsAre(next, before))
            && (TargetsAre(disk, after) ==> TargetsAre(next, after))
  {
  }

  // Removing the journal when no leftover is there settles the disk.
  lemma CloseStep(disk: Disk, before: Generation, after: Generation, kept: Generation)
    requires Between(disk, before, after) && JournalTemp !in disk
    requires (kept == before || kept == after) && TargetsAre(disk, kept)
    requires forall i :: 0 <= i < |before| ==> Staged(i) !in disk && Backup(i) !in disk
    ensures var next := disk - {Journal};
            Clean(next, kept) && Between(next, before, after) && Shrinks(disk, next, before, after)
  {
  }

  // ------------------------------------------------------------------
  // The file system, as the updater sees it
  // ------------------------------------------------------------------

  datatype Fault = NoFault | FailsBefore | FailsAfter | CrashesBefore | CrashesAfter

  /** Every operation may succeed, fail without effect, take effect and still
      report failure, or end the process before or after its effect. A dead
      process changes nothing any more, so the disk it leaves behind is the disk
      at the moment of the crash. */
  class FileSystem {
    var disk: Disk
    var dead: bool
    const targets: nat

    // How many operations may still fail or crash.
    var faults: nat

    constructor (initial: Generation)
      ensures Clean(disk, initial) && !dead && targets == |initial|
    {
      disk := map i: nat | 0 <= i < |initial| :: Target(i) := initial[i];
      dead := false;
      targets := |initial|;
    }

    method NextFault() returns (fault: Fault)
      modifies this`faults
      ensures if fault == NoFault then faults == old(faults) else faults < old(faults)
    {
      fault := *;
      if faults == 0 {
        fault := NoFault;
      }
      if fault != NoFault {
        faults := faults - 1;
      }
    }

    // A missing file is not an error: it reads as None.
    method ReadFile(path: Path) returns (content: Option<File>, errs: seq<Error>)
      modifies this`faults
      ensures errs == [] ==> content == Get(disk, path) && !dead
      ensures errs != [] ==> Failed(errs) && (CrashError in errs <==> dead)
      ensures faults <= old(faults) && (errs != [] && !dead ==> faults < old(faults))
      ensures errs == [] ==> faults == old(faults)
    {
      if dead {
        return None, [CrashError];
      }
      var fault := NextFault();
      if fault != NoFault {
        return None, [IoError(Reading)];
      }
      return Get(disk, path), [];
    }

    // A failed write may leave the file as it was or with any content at all.
    method WriteDurable(path: Path, data: File) returns (errs: seq<Error>)
      modifies this`disk, this`dead, this`faults
      ensures errs == [] ==> disk == old(disk)[path := data] && !dead
      ensures disk == old(disk) || (path in disk && disk == old(disk)[path := disk[path]])
      ensures errs != [] ==> Failed(errs)
      ensures CrashError in errs <==> dead
      ensures old(dead) ==> dead && disk == old(disk)
      ensures faults <= old(faults) && (errs != [] && !old(dead) ==> faults < old(faults))
      ensures errs == [] ==> faults == old(faults)
    {
      if dead {
        return [CrashError];
      }
      var fault := NextFault();
      if fault == NoFault {
        disk := disk[path := data];
        return [];
      }
      if fault == FailsAfter || fault == CrashesAfter {
        var torn: File := *;
        disk := disk[path := torn];
      }
      dead := fault == CrashesBefore || fault == CrashesAfter;
      errs := if dead then [CrashError] else [IoError(Writing)];
    }

    method Rename(source: Path, destination: Path) returns (errs: seq<Error>)
      modifies this`disk, this`dead, this`faults
      ensures errs == [] ==> source in old(disk) && disk == Renamed(old(disk), source, destination) && !dead
      ensures disk == old(disk) || (source in old(disk) && disk == Renamed(old(disk), source, destination))
      ensures errs != [] ==> errs == [CrashError] || errs == [IoError(Renaming(source))]
      ensures CrashError in errs <==> dead
      ensures old(dead) ==> dead && disk == old(disk)
      ensures faults <= old(faults) && (errs != [] && !old(dead) && source in old(disk) ==> faults < old(faults))
      ensures errs == [] ==> faults == old(faults)
    {
      if dead {
        return [CrashError];
      }
      if source !in disk {
        return [IoError(Renaming(source))];
      }
      var fault := NextFault();
      if fault == NoFault || fault == FailsAfter || fault == CrashesAfter {
        disk := Renamed(disk, source, destination);
      }
      dead := fault == CrashesBefore || fault == CrashesAfter;
      errs := if dead then [CrashError] else if fault == NoFault then [] else [IoError(Renaming(source))];
    }

    method Remove(path: Path) returns (errs: seq<Error>)
      modifies this`disk, this`dead, this`faults
      ensures errs == [] ==> disk == old(disk) - {path} && !dead
      ensures disk == old(disk) || disk == old(disk) - {path}
      ensures errs != [] ==> Failed(errs)
      ensures CrashError in errs <==> dead
      ensures old(dead) ==> dead && disk == old(disk)
      ensures faults <= old(faults) && (errs != [] && !old(dead) && path in old(disk) ==> faults < old(faults))
      ensures errs == [] ==> faults == old(faults)
    {
      if dead {
        return [CrashError];
      }
      if path !in disk {
        return [IoError(Removing)];
      }
      var fault := NextFault();
      if fault == NoFault || fault == FailsAfter || fault == CrashesAfter {
        disk := disk - {path};
      }
      dead := fault == CrashesBefore || fault == CrashesAfter;
      errs := if dead then [CrashError] else if fault == NoFault then [] else [IoError(Removing)];
    }

    method SyncDir() returns (errs: seq<Error>)
      modifies this`dead, this`faults
      ensures errs == [] ==> !dead
      ensures errs != [] ==> Failed(errs)
      ensures CrashError in errs <==> dead
      ensures old(dead) ==> dead
      ensures faults <= old(faults) && (errs != [] && !old(dead) ==> faults < old(faults))
      ensures errs == [] ==> faults == old(faults)
    {
      if dead {
        return [CrashError];
      }
      var fault := NextFault();
      dead := fault == CrashesBefore || fault == CrashesAfter;
      errs := if dead then [CrashError] else if fault == NoFault then [] else [IoError(Syncing)];
    }

    // sdkTransactionRename: the rename and then the sync of its directory.
    method RenameAndSync(source: Path, destination: Path) returns (errs: seq<Error>)
      modifies this`disk, this`dead, this`faults
      ensures errs == [] ==> source in old(disk) && disk == Renamed(old(disk), source, destination) && !dead
      ensures disk == old(disk) || (source in old(disk) && disk == Renamed(old(disk), source, destination))
      ensures forall e :: e in errs ==> Environmental(e)
      ensures CrashError in errs <==> dead
      ensures old(dead) ==> dead && disk == old(disk)
      ensures faults <= old(faults) && (errs != [] && !old(dead) && source in old(disk) ==> faults < old(faults))
      ensures errs == [] ==> faults == old(faults)
    {
      errs := Rename(source, destination);
      if errs == [] {
        errs := SyncDir();
      }
    }

    method RemoveAndSync(path: Path) returns (errs: seq<Error>)
      modifies this`disk, this`dead, this`faults
      ensures errs == [] ==> disk == old(disk) - {path} && !dead
      ensures disk == old(disk) || disk == old(disk) - {path}
      ensures forall e :: e in errs ==> Environmental(e)
      ensures CrashError in errs <==> dead
      ensures old(dead) ==> dead && disk == old(disk)
      ensures faults <= old(faults) && (errs != [] && !old(dead) && path in old(disk) ==> faults < old(faults))
      ensures errs == [] ==> faults == old(faults)
    {
      errs := Remove(path);
      if errs == [] {
        errs := SyncDir();
      }
    }

    // sdkTransactionRemoveIfExists.
    method RemoveIfExists(path: Path) returns (errs: seq<Error>)
      modifies this`disk, this`dead, this`faults
      ensures errs == [] ==> disk == old(disk) - {path} && !dead
      ensures disk == old(disk) || disk == old(disk) - {path}
      ensures forall e :: e in errs ==> Environmental(e)
      ensures CrashError in errs <==> dead
      ensures old(dead) ==> dead && disk == old(disk)
      ensures faults <= old(faults) && (errs != [] && !old(dead) ==> faults < old(faults))
      ensures errs == [] ==> faults == old(faults)
    {
      var content, readErrs := ReadFile(path);
      if readErrs != [] {
        return readErrs;
      }
      if content == None {
        assert disk == disk - {path};
        return [];
      }
      errs := RemoveAndSync(path);
    }
  }

  // ------------------------------------------------------------------
  // Recovery
  // ------------------------------------------------------------------

  /** sdkTransactionCanRollForward: a read that fails counts as absence. */
  method CheckRollForward(fs: FileSystem, manifest: Manifest, ghost before: Generation, ghost after: Generation)
    returns (can: bool)
    requires |before| == |after| && manifest == ManifestOf(before, after)
    modifies fs`faults
    ensures can ==> CanRollForward(fs.disk, after)
    ensures can == CanRollForward(fs.disk, after) || fs.dead || fs.faults < old(fs.faults)
    ensures fs.faults <= old(fs.faults)
  {
    for i := 0 to |manifest.files|
      invariant fs.faults <= old(fs.faults) && forall j :: 0 <= j < i ==> HasNew(fs.disk, j, after)
    {
      var entry := manifest.files[i];
      var target, targetErrs := fs.ReadFile(Target(i));
      if targetErrs != [] {
        return false;
      }
      var staged, stagedErrs := fs.ReadFile(Staged(i));
      if stagedErrs != [] || !(target == Some(entry.newDigest) || staged == Some(entry.newDigest)) {
        assert !fs.dead && fs.faults == old(fs.faults) ==> !HasNew(fs.disk, i, after);
        return false;
      }
    }
    return true;
  }

  /** sdkTransactionCanRollback. */
  method CheckRollBack(fs: FileSystem, manifest: Manifest, ghost before: Generation, ghost after: Generation)
    returns (can: bool)
    requires |before| == |after| && manifest == ManifestOf(before, after)
    modifies fs`faults
    ensures can ==> CanRollBack(fs.disk, before)
    ensures can == CanRollBack(fs.disk, before) || fs.dead || fs.faults < old(fs.faults)
    ensures fs.faults <= old(fs.faults)
  {
    for i := 0 to |manifest.files|
      invariant fs.faults <= old(fs.faults) && forall j :: 0 <= j < i ==> HasOld(fs.disk, j, before)
    {
      var entry := manifest.files[i];
      var target, targetErrs := fs.ReadFile(Target(i));
      if targetErrs != [] {
        return false;
      }
      var backup, backupErrs := fs.ReadFile(Backup(i));
      if backupErrs != [] || !(target == Some(entry.oldDigest) || backup == Some(entry.oldDigest)) {
        assert !fs.dead && fs.faults == old(fs.faults) ==> !HasOld(fs.disk, i, before);
        return false;
      }
    }
    return true;
  }

  // At most one of the leftovers is still there.
  ghost predicate AllGoneBut(disk: Disk, targets: nat, except: Path) {
    forall path :: path in disk && (path.Staged? || path.Backup?) && path.index < targets ==> path == except
  }

  lemma AllGoneStep(earlier: Disk, later: Disk, i: nat, left: Path, failed: bool)
    requires later.Keys <= earlier.Keys
    requires !failed ==> Staged(i) !in later && Backup(i) !in later
    ensures !failed && AllGoneBut(earlier, i, left) ==> AllGoneBut(later, i + 1, left)
    ensures failed && AllGoneBut(earlier, i, Journal) && (Staged(i) !in later || Backup(i) !in later) ==>
              AllGoneBut(later, i + 1, if Staged(i) in later then Staged(i) else Backup(i))
  {
  }

  // The two leftovers of one target in cleanupSDKTransaction.
  method SweepTarget(fs: FileSystem, i: nat, ghost before: Generation, ghost after: Generation,
                     ghost kept: Generation)
    returns (errs: seq<Error>)
    requires Between(fs.disk, before, after) && (kept == before || kept == after) && TargetsAre(fs.disk, kept)
    modifies fs`disk, fs`dead, fs`faults
    ensures Between(fs.disk, before, after) && Shrinks(old(fs.disk), fs.disk, before, after)
    ensures TargetsAre(fs.disk, kept)
    ensures fs.disk.Keys <= old(fs.disk).Keys && (Journal in old(fs.disk) ==> Journal in fs.disk)
    ensures errs == [] ==> Staged(i) !in fs.disk && Backup(i) !in fs.disk && fs.faults == old(fs.faults)
    ensures forall e :: e in errs ==> Environmental(e)
    ensures old(fs.dead) ==> errs != [] && fs.dead && fs.disk == old(fs.disk)
    ensures fs.faults <= old(fs.faults) && (errs != [] && !old(fs.dead) ==> fs.faults < old(fs.faults))
    ensures CrashError in errs <==> fs.dead
    ensures errs != [] && !fs.dead && old(fs.faults) <= fs.faults + 1 ==>
              Staged(i) !in fs.disk || Backup(i) !in fs.disk
  {
    SweepStep(fs.disk, before, after, Staged(i));
    var stagedErrs := fs.RemoveIfExists(Staged(i));
    if CrashError in stagedErrs {
      return stagedErrs;
    }
    SweepStep(fs.disk, before, after, Backup(i));
    var backupErrs := fs.RemoveIfExists(Backup(i));
    if CrashError in backupErrs {
      return backupErrs;
    }
    errs := stagedErrs + backupErrs;
  }

  /** cleanupSDKTransaction: remove every staged file and backup, carrying on
      past failures, and the journal only when all of them are gone. */
  method CleanUp(fs: FileSystem, manifest: Manifest, ghost before: Generation, ghost after: Generation,
                 ghost kept: Generation)
    returns (errs: seq<Error>)
    requires Between(fs.disk, before, after) && JournalTemp !in fs.disk
    requires manifest == ManifestOf(before, after)
    requires kept == before || kept == after
    requires TargetsAre(fs.disk, kept)
    modifies fs`disk, fs`dead, fs`faults
    ensures Between(fs.disk, before, after) && Shrinks(old(fs.disk), fs.disk, before, after)
    ensures TargetsAre(fs.disk, kept) && JournalTemp !in fs.disk
    ensures errs == [] ==> Clean(fs.disk, kept) && !fs.dead
    ensures Journal in old(fs.disk) && Journal !in fs.disk ==> Clean(fs.disk, kept)
    ensures errs != [] && CrashError !in errs && old(fs.faults) <= fs.faults + 1 ==>
              exists left :: AllGoneBut(fs.disk, |before|, left)
    ensures forall e :: e in errs ==> Environmental(e)
    ensures old(fs.dead) ==> errs != [] && fs.dead && fs.disk == old(fs.disk)
    ensures fs.faults <= old(fs.faults) && (errs != [] && !old(fs.dead) ==> fs.faults < old(fs.faults))
    ensures errs == [] ==> fs.faults == old(fs.faults)
    ensures CrashError in errs <==> fs.dead
  {
    var failures := [];
    ghost var left := Journal;
    for i := 0 to |manifest.files|
      invariant Between(fs.disk, before, after) && JournalTemp !in fs.disk
      invariant Shrinks(old(fs.disk), fs.disk, before, after)
      invariant TargetsAre(fs.disk, kept) && (Journal in old(fs.disk) ==> Journal in fs.disk)
      invariant old(fs.faults) <= fs.faults + 1 ==> AllGoneBut(fs.disk, i, left)
      invariant failures == [] ==> left == Journal && AllGoneBut(fs.disk, i, left)
      invariant forall e :: e in failures ==> Environmental(e)
      invariant old(fs.dead) ==> fs.dead && fs.disk == old(fs.disk)
      invariant fs.faults <= old(fs.faults) && (failures != [] && !old(fs.dead) ==> fs.faults < old(fs.faults))
      invariant failures == [] ==> fs.faults == old(fs.faults)
      invariant (fs.dead ==> old(fs.dead) && failures == []) && CrashError !in failures
    {
      ghost var earlier := fs.disk;
      var sweepErrs := SweepTarget(fs, i, before, after, kept);
      if CrashError in sweepErrs {
        return sweepErrs;
      }
      AllGoneStep(earlier, fs.disk, i, left, sweepErrs != []);
      left := if sweepErrs == [] then left else if Staged(i) in fs.disk then Staged(i) else Backup(i);
      failures := failures + sweepErrs;
    }
    if failures != [] {
      return failures;
    }
    CloseStep(fs.disk, before, after, kept);
    errs := fs.RemoveIfExists(Journal);
    assert AllGoneBut(fs.disk, |before|, left);
  }

  // The check both directions make before they clean up.
  method VerifyTargets(fs: FileSystem, wanted: Generation) returns (errs: seq<Error>)
    modifies fs`faults
    ensures errs == [] ==> TargetsAre(fs.disk, wanted)
    ensures TargetsAre(fs.disk, wanted) ==> forall e :: e in errs ==> Environmental(e)
    ensures fs.faults <= old(fs.faults)
    ensures TargetsAre(fs.disk, wanted) && errs != [] && !fs.dead ==> fs.faults < old(fs.faults)
    ensures errs == [] ==> fs.faults == old(fs.faults)
    ensures errs != [] ==> (CrashError in errs <==> fs.dead)
  {
    for i := 0 to |wanted|
      invariant fs.faults == old(fs.faults)
      invariant forall j :: 0 <= j < i ==> Get(fs.disk, Target(j)) == Some(wanted[j])
    {
      var target, targetErrs := fs.ReadFile(Target(i));
      if targetErrs != [] {
        return targetErrs;
      }
      if target != Some(wanted[i]) {
        return [VerificationFailed];
      }
    }
    return [];
  }

  // One target of rollSDKTransactionForward.
  method PromoteTarget(fs: FileSystem, i: nat, entry: Entry, ghost before: Generation, ghost after: Generation)
    returns (errs: seq<Error>)
    requires Between(fs.disk, before, after) && InFlight(fs.disk, before, after) && CanRollForward(fs.disk, after)
    requires i < |before| && entry == Entry(i, before[i], after[i])
    modifies fs`disk, fs`dead, fs`faults
    ensures Between(fs.disk, before, after) && InFlight(fs.disk, before, after) && CanRollForward(fs.disk, after)
    ensures Shrinks(old(fs.disk), fs.disk, before, after)
    ensures forall j :: j != i ==> Get(fs.disk, Target(j)) == Get(old(fs.disk), Target(j))
    ensures errs == [] ==> Get(fs.disk, Target(i)) == Some(after[i])
    ensures forall e :: e in errs ==> Environmental(e)
    ensures old(fs.dead) ==> errs != [] && fs.dead && fs.disk == old(fs.disk)
    ensures fs.faults <= old(fs.faults) && (errs != [] && !old(fs.dead) ==> fs.faults < old(fs.faults))
    ensures errs == [] ==> fs.faults == old(fs.faults)
    ensures CrashError in errs <==> fs.dead
  {
    assert SlotOk(fs.disk, i, before[i], after[i]) && HasNew(fs.disk, i, after);
    var target, targetErrs := fs.ReadFile(Target(i));
    if targetErrs != [] {
      return targetErrs;
    }
    if target == Some(entry.newDigest) {
      return [];
    }
    if target != None {
      if target != Some(entry.oldDigest) {
        return [UnknownContent];
      }
      var backup, backupErrs := fs.ReadFile(Backup(i));
      if backupErrs != [] {
        return backupErrs;
      }
      if backup != None {
        return [BothHoldOldGeneration];
      }
      BackupStep(fs.disk, before, after, i);
      errs := fs.RenameAndSync(Target(i), Backup(i));
      if errs != [] {
        return;
      }
    }
    var staged, stagedErrs := fs.ReadFile(Staged(i));
    if stagedErrs != [] {
      return stagedErrs;
    }
    if staged != Some(entry.newDigest) {
      return [StagedUnavailable];
    }
    PromoteStep(fs.disk, before, after, i);
    errs := fs.RenameAndSync(Staged(i), Target(i));
  }

  /** rollSDKTransactionForward. */
  method RollForward(fs: FileSystem, manifest: Manifest, ghost before: Generation, ghost after: Generation)
    returns (errs: seq<Error>)
    requires Between(fs.disk, before, after) && InFlight(fs.disk, before, after)
    requires CanRollForward(fs.disk, after)
    requires manifest == ManifestOf(before, after)
    modifies fs`disk, fs`dead, fs`faults
    ensures Between(fs.disk, before, after) && JournalTemp !in fs.disk
    ensures Shrinks(old(fs.disk), fs.disk, before, after)
    ensures errs == [] ==> Clean(fs.disk, after) && !fs.dead
    ensures Journal !in fs.disk ==> Clean(fs.disk, after)
    ensures forall e :: e in errs ==> Environmental(e)
    ensures old(fs.dead) ==> errs != [] && fs.dead && fs.disk == old(fs.disk)
    ensures fs.faults <= old(fs.faults) && (errs != [] && !old(fs.dead) ==> fs.faults < old(fs.faults))
    ensures errs == [] ==> fs.faults == old(fs.faults)
    ensures CrashError in errs <==> fs.dead
  {
    for i := 0 to |manifest.files|
      invariant Between(fs.disk, before, after) && InFlight(fs.disk, before, after)
      invariant Shrinks(old(fs.disk), fs.disk, before, after)
      invariant CanRollForward(fs.disk, after)
      invariant forall j :: 0 <= j < i ==> Get(fs.disk, Target(j)) == Some(after[j])
      invariant old(fs.dead) ==> fs.dead && fs.disk == old(fs.disk)
      invariant fs.faults == old(fs.faults) && (fs.dead ==> old(fs.dead))
    {
      errs := PromoteTarget(fs, i, manifest.files[i], before, after);
      if errs != [] {
        return;
      }
    }
    var wanted := seq(|manifest.files|, j requires 0 <= j < |manifest.files| => manifest.files[j].newDigest);
    assert wanted == after;
    errs := VerifyTargets(fs, wanted);
    if errs != [] {
      return;
    }
    errs := CleanUp(fs, manifest, before, after, after);
  }

  // One target of rollbackSDKTransaction.
  method RestoreTarget(fs: FileSystem, i: nat, entry: Entry, ghost before: Generation, ghost after: Generation)
    returns (errs: seq<Error>)
    requires Between(fs.disk, before, after) && JournalTemp !in fs.disk && CanRollBack(fs.disk, before)
    requires i < |before| && entry == Entry(i, before[i], after[i])
    modifies fs`disk, fs`dead, fs`faults
    ensures Between(fs.disk, before, after) && JournalTemp !in fs.disk && CanRollBack(fs.disk, before)
    ensures Shrinks(old(fs.disk), fs.disk, before, after)
    ensures forall j :: j != i ==> Get(fs.disk, Target(j)) == Get(old(fs.disk), Target(j))
    ensures errs == [] ==> Get(fs.disk, Target(i)) == Some(before[i])
    ensures forall e :: e in errs ==> Environmental(e)
    ensures old(fs.dead) ==> errs != [] && fs.dead && fs.disk == old(fs.disk)
    ensures fs.faults <= old(fs.faults) && (errs != [] && !old(fs.dead) ==> fs.faults < old(fs.faults))
    ensures errs == [] ==> fs.faults == old(fs.faults)
    ensures CrashError in errs <==> fs.dead
  {
    assert HasOld(fs.disk, i, before);
    var target, targetErrs := fs.ReadFile(Target(i));
    if targetErrs != [] {
      return targetErrs;
    }
    if target == Some(entry.oldDigest) {
      return [];
    }
    var backup, backupErrs := fs.ReadFile(Backup(i));
    if backupErrs != [] {
      return backupErrs;
    }
    if backup != Some(entry.oldDigest) {
      return [BackupUnavailable];
    }
    if target != None {
      DiscardStep(fs.disk, before, after, i);
      errs := fs.RemoveAndSync(Target(i));
      if errs != [] {
        return;
      }
    }
    RestoreStep(fs.disk, before, after, i);
    errs := fs.RenameAndSync(Backup(i), Target(i));
  }

  // At most one target is not the old content.
  ghost predicate AllButOne(disk: Disk, generation: Generation, except: int) {
    forall j :: 0 <= j < |generation| && j != except ==> Get(disk, Target(j)) == Some(generation[j])
  }

  /** rollbackSDKTransaction: last target first, carrying on past failures, so that
      one failure leaves at most one target behind. */
  method RollBack(fs: FileSystem, manifest: Manifest, ghost before: Generation, ghost after: Generation)
    returns (errs: seq<Error>)
    requires Between(fs.disk, before, after) && JournalTemp !in fs.disk
    requires CanRollBack(fs.disk, before)
    requires manifest == ManifestOf(before, after)
    modifies fs`disk, fs`dead, fs`faults
    ensures Between(fs.disk, before, after) && Shrinks(old(fs.disk), fs.disk, before, after)
    ensures errs == [] ==> Clean(fs.disk, before) && !fs.dead
    ensures errs != [] && CrashError !in errs && old(fs.faults) <= fs.faults + 1 ==>
              exists i :: AllButOne(fs.disk, before, i)
    ensures forall e :: e in errs ==> Environmental(e)
    ensures old(fs.dead) ==> errs != [] && fs.dead && fs.disk == old(fs.disk)
    ensures fs.faults <= old(fs.faults) && (errs != [] && !old(fs.dead) ==> fs.faults < old(fs.faults))
    ensures errs == [] ==> fs.faults == old(fs.faults)
    ensures CrashError in errs <==> fs.dead
  {
    var failures := [];
    ghost var behind := -1;
    for i := |manifest.files| downto 0
      invariant Between(fs.disk, before, after) && JournalTemp !in fs.disk && CanRollBack(fs.disk, before)
      invariant Shrinks(old(fs.disk), fs.disk, before, after)
      invariant old(fs.faults) <= fs.faults + 1 ==>
                  forall j :: i <= j < |before| && j != behind ==> Get(fs.disk, Target(j)) == Some(before[j])
      invariant failures == [] ==> forall j :: i <= j < |before| ==> Get(fs.disk, Target(j)) == Some(before[j])
      invariant forall e :: e in failures ==> Environmental(e)
      invariant old(fs.dead) ==> fs.dead && fs.disk == old(fs.disk)
      invariant fs.faults <= old(fs.faults) && (failures != [] && !old(fs.dead) ==> fs.faults < old(fs.faults))
      invariant failures == [] ==> fs.faults == old(fs.faults)
      invariant (fs.dead ==> old(fs.dead) && failures == []) && CrashError !in failures
    {
      var targetErrs := RestoreTarget(fs, i, manifest.files[i], before, after);
      if CrashError in targetErrs {
        return targetErrs;
      }
      if targetErrs != [] {
        behind := i;
      }
      failures := failures + targetErrs;
    }
    assert old(fs.faults) <= fs.faults + 1 ==> AllButOne(fs.disk, before, behind);
    if failures != [] {
      return failures;
    }
    var wanted := seq(|manifest.files|, j requires 0 <= j < |manifest.files| => manifest.files[j].oldDigest);
    assert wanted == before;
    errs := VerifyTargets(fs, wanted);
    if errs != [] {
      return;
    }
    errs := CleanUp(fs, manifest, before, after, before);
    assert AllButOne(fs.disk, before, -1);
  }

  // Removing a staged file or the journal's temporary file never disturbs
  // targets that are still the old generation.
  lemma DropStagedStep(disk: Disk, base: Generation, next: Generation, leftover: Path)
    requires Between(disk, base, next) && TargetsAre(disk, base)
    requires leftover.Staged? || leftover.JournalTemp?
    ensures Between(disk - {leftover}, base, next) && TargetsAre(disk - {leftover}, base)
  {
  }

  /** cleanupSDKOrphans: no journal, so whatever is staged is abandoned. */
  method CleanUpOrphans(fs: FileSystem, ghost generation: Generation) returns (errs: seq<Error>)
    requires Scoped(fs.disk, fs.targets) && fs.targets == |generation|
    requires Settled(fs.disk, generation)
    modifies fs`disk, fs`dead, fs`faults
    ensures Scoped(fs.disk, fs.targets) && Settled(fs.disk, generation)
    ensures fs.disk.Keys <= old(fs.disk.Keys) && forall p :: p in fs.disk ==> fs.disk[p] == old(fs.disk)[p]
    ensures errs == [] ==> Clean(fs.disk, generation) && !fs.dead
    ensures forall e :: e in errs ==> Environmental(e)
    ensures old(fs.dead) ==> errs != [] && fs.dead && fs.disk == old(fs.disk)
    ensures fs.faults <= old(fs.faults) && (errs != [] && !old(fs.dead) ==> fs.faults < old(fs.faults))
    ensures errs == [] ==> fs.faults == old(fs.faults)
    ensures CrashError in errs <==> fs.dead
  {
    for i := 0 to fs.targets
      invariant Scoped(fs.disk, fs.targets) && Settled(fs.disk, generation)
      invariant fs.disk.Keys <= old(fs.disk.Keys) && forall p :: p in fs.disk ==> fs.disk[p] == old(fs.disk)[p]
      invariant forall j :: 0 <= j < i ==> Staged(j) !in fs.disk
      invariant old(fs.dead) ==> fs.dead && fs.disk == old(fs.disk)
      invariant fs.faults == old(fs.faults) && (fs.dead ==> old(fs.dead))
    {
      var backup, readErrs := fs.ReadFile(Backup(i));
      if readErrs != [] {
        return readErrs;
      }
      if backup != None {
        return [OrphanBackup];
      }
      errs := fs.RemoveIfExists(Staged(i));
      if errs != [] {
        return;
      }
    }
    errs := fs.RemoveIfExists(JournalTemp);
  }

  // Files went, but no target changed.
  ghost predicate OnlyLess(earlier: Disk, later: Disk, targets: nat) {
    && later.Keys <= earlier.Keys
    && forall i :: 0 <= i < targets ==> Get(later, Target(i)) == Get(earlier, Target(i))
  }

  // What a recovery with a way forward leaves that failed for one reason, not a
  // crash: it did not begin, or it got all new contents in place and lost old ones.
  ghost predicate RecoveryStuck(earlier: Disk, later: Disk, before: Generation, after: Generation) {
    later == earlier || (TargetsAre(later, after) && !CanRollBack(later, before))
  }

  // Where a recovery without faults leads: on while every new content is there,
  // back otherwise, and nowhere when there is no journal.
  ghost function Direction(disk: Disk, before: Generation, after: Generation): Generation {
    if Journal in disk then (if CanRollForward(disk, after) then after else before)
    else if TargetsAre(disk, before) then before else after
  }

  /** recoverSDKUpdateWithFS. Whatever happened before, recovery keeps the
      invariant; when it returns without error the disk is one whole generation
      and nothing else; and without faults it always returns without error, in
      the direction CanRollForward decides. */
  method Recover(fs: FileSystem, ghost before: Generation, ghost after: Generation) returns (errs: seq<Error>)
    requires Between(fs.disk, before, after) && fs.targets == |before|
    modifies fs`disk, fs`dead, fs`faults
    ensures Between(fs.disk, before, after) && Shrinks(old(fs.disk), fs.disk, before, after)
    ensures errs == [] ==> (Clean(fs.disk, before) || Clean(fs.disk, after)) && !fs.dead
    ensures forall e :: e in errs ==> Environmental(e)
    ensures old(fs.dead) ==> errs != [] && fs.dead && fs.disk == old(fs.disk)
    ensures Journal !in old(fs.disk) ==>
              Journal !in fs.disk && OnlyLess(old(fs.disk), fs.disk, fs.targets)
    ensures fs.faults <= old(fs.faults)
    ensures errs == [] && Journal !in old(fs.disk) ==> fs.faults == old(fs.faults)
    ensures fs.faults == old(fs.faults) && !old(fs.dead) ==>
              errs == [] && Clean(fs.disk, Direction(old(fs.disk), before, after))
    ensures fs.dead ==> CrashError in errs
    ensures Journal in old(fs.disk) && CanRollForward(old(fs.disk), after) && errs != [] && CrashError !in errs ==>
              (old(fs.faults) <= fs.faults + 1 ==> RecoveryStuck(old(fs.disk), fs.disk, before, after))
  {
    var encoded, readErrs := fs.ReadFile(Journal);
    if readErrs != [] {
      return readErrs;
    }
    if encoded == None {
      ghost var generation := if Settled(fs.disk, before) then before else after;
      errs := CleanUpOrphans(fs, generation);
      return;
    }
    if !encoded.value.Encoded? {
      return [UnreadableJournal];
    }
    var manifest := encoded.value.manifest;
    if !ValidManifest(manifest, fs.targets) {
      return [InvalidManifest];
    }
    var forwardErrs := [];
    var canForward := CheckRollForward(fs, manifest, before, after);
    if canForward {
      forwardErrs := RollForward(fs, manifest, before, after);
      if forwardErrs == [] {
        return [];
      }
    }
    var canBack := CheckRollBack(fs, manifest, before, after);
    if canBack {
      var backErrs := RollBack(fs, manifest, before, after);
      return if backErrs != [] then forwardErrs + backErrs else [];
    }
    return forwardErrs + [CannotRecover];
  }

  // ------------------------------------------------------------------
  // The update itself
  // ------------------------------------------------------------------

  predicate CanonicalTargets(relatives: seq<nat>, targets: nat) {
    |relatives| == targets && forall i :: 0 <= i < targets ==> relatives[i] == i
  }

  predicate StagesAll(staging: map<nat, File>, targets: nat) {
    forall i :: 0 <= i < targets ==> i in staging
  }

  function StagedGeneration(staging: map<nat, File>, targets: nat): Generation
    requires StagesAll(staging, targets)
  {
    seq(targets, i requires 0 <= i < targets => staging[i])
  }

  // The generation an update leads to; an incomplete staging leads nowhere.
  ghost function Destination(staging: map<nat, File>, base: Generation): (next: Generation)
    ensures |next| == |base|
  {
    if StagesAll(staging, |base|) then StagedGeneration(staging, |base|) else base
  }

  /** cleanupSDKPreManifest: give up before the journal is known to exist. */
  method CleanUpPreManifest(fs: FileSystem, staged: nat, ghost base: Generation, ghost next: Generation)
    returns (errs: seq<Error>)
    requires Between(fs.disk, base, next) && TargetsAre(fs.disk, base)
    modifies fs`disk, fs`dead, fs`faults
    ensures Between(fs.disk, base, next) && TargetsAre(fs.disk, base)
    ensures forall e :: e in errs ==> Environmental(e)
    ensures errs == [] ==> JournalTemp !in fs.disk && forall i :: 0 <= i < staged ==> Staged(i) !in fs.disk
    ensures fs.disk.Keys <= old(fs.disk).Keys
    ensures fs.faults <= old(fs.faults) && (errs != [] && !old(fs.dead) ==> fs.faults < old(fs.faults))
    ensures errs == [] ==> fs.faults == old(fs.faults)
  {
    errs := [];
    for i := 0 to staged
      invariant fs.disk.Keys <= old(fs.disk).Keys && (fs.dead ==> old(fs.dead))
      invariant fs.faults <= old(fs.faults) && (errs != [] && !old(fs.dead) ==> fs.faults < old(fs.faults))
      invariant errs == [] ==> fs.faults == old(fs.faults)
      invariant Between(fs.disk, base, next) && TargetsAre(fs.disk, base)
      invariant forall e :: e in errs ==> Environmental(e)
      invariant errs == [] ==> forall j :: 0 <= j < i ==> Staged(j) !in fs.disk
    {
      DropStagedStep(fs.disk, base, next, Staged(i));
      var removeErrs := fs.RemoveIfExists(Staged(i));
      if CrashError in removeErrs {
        return removeErrs;
      }
      errs := errs + removeErrs;
    }
    DropStagedStep(fs.disk, base, next, JournalTemp);
    var tempErrs := fs.RemoveIfExists(JournalTemp);
    if CrashError in tempErrs {
      return tempErrs;
    }
    errs := errs + tempErrs;
  }

  /** abortBeforeManifest: a crash leaves everything to the next recovery. */
  method AbortBeforeManifest(fs: FileSystem, cause: seq<Error>, staged: nat, ghost base: Generation,
                             ghost next: Generation)
    returns (errs: seq<Error>)
    requires cause != [] && forall e :: e in cause ==> Environmental(e)
    requires Between(fs.disk, base, next) && TargetsAre(fs.disk, base)
    modifies fs`disk, fs`dead, fs`faults
    ensures Between(fs.disk, base, next) && TargetsAre(fs.disk, base)
    ensures cause <= errs && forall e :: e in errs ==> Environmental(e)
    ensures CrashError in cause ==> errs == cause && fs.disk == old(fs.disk)
    ensures errs == cause && CrashError !in cause ==>
              JournalTemp !in fs.disk && forall i :: 0 <= i < staged ==> Staged(i) !in fs.disk
    ensures fs.disk.Keys <= old(fs.disk).Keys
    ensures fs.faults <= old(fs.faults) && (errs != cause && !old(fs.dead) ==> fs.faults < old(fs.faults))
  {
    if CrashError in cause {
      return cause;
    }
    var cleanupErrs := CleanUpPreManifest(fs, staged, base, next);
    errs := cause + cleanupErrs;
  }

  /** failSDKTransaction: undo what can be undone, or keep the journal. */
  method FailTransaction(fs: FileSystem, manifest: Manifest, cause: seq<Error>, ghost base: Generation,
                         ghost next: Generation)
    returns (errs: seq<Error>)
    requires cause != [] && forall e :: e in cause ==> Environmental(e)
    requires Between(fs.disk, base, next) && JournalTemp !in fs.disk
    requires manifest == ManifestOf(base, next)
    modifies fs`disk, fs`dead, fs`faults
    ensures Between(fs.disk, base, next)
    ensures cause <= errs && forall e :: e in errs ==> Environmental(e)
    ensures errs == cause ==> Clean(fs.disk, base)
    ensures !CanRollBack(old(fs.disk), base) ==> fs.disk == old(fs.disk) && errs == cause + [CannotRecover]
    ensures fs.faults <= old(fs.faults)
    ensures CanRollBack(old(fs.disk), base) && errs != cause && !old(fs.dead) ==> fs.faults < old(fs.faults)
  {
    var canBack := CheckRollBack(fs, manifest, base, next);
    if !canBack {
      return cause + [CannotRecover];
    }
    var backErrs := RollBack(fs, manifest, base, next);
    errs := cause + backErrs;
  }

  // One target of the staging loop of promoteSDKUpdateWithFS. An entry is
  // recorded as soon as both contents are known, even if staging then fails.
  method StageTarget(fs: FileSystem, i: nat, staging: map<nat, File>, ghost base: Generation)
    returns (errs: seq<Error>, entry: Option<Entry>)
    requires Scoped(fs.disk, fs.targets) && i < fs.targets == |base| && Settled(fs.disk, base) && !fs.dead
    modifies fs`disk, fs`dead, fs`faults
    ensures || fs.disk == old(fs.disk)
            || (Staged(i) in fs.disk && fs.disk == old(fs.disk)[Staged(i) := fs.disk[Staged(i)]])
    ensures errs == [] ==> i in staging && entry == Some(Entry(i, base[i], staging[i])) && !fs.dead
    ensures errs == [] ==> fs.disk == old(fs.disk)[Staged(i) := staging[i]]
    ensures forall e :: e in errs ==> Environmental(e)
    ensures CrashError in errs <==> fs.dead
    ensures errs != [] && fs.disk != old(fs.disk) ==> entry.Some?
    ensures fs.faults <= old(fs.faults) && (errs != [] && i in staging ==> fs.faults < old(fs.faults))
    ensures errs == [] ==> fs.faults == old(fs.faults)
  {
    var content, readErrs := fs.ReadFile(Target(i));
    if readErrs != [] || content == None {
      return if readErrs != [] then readErrs else [IoError(Reading)], None;
    }
    var _, statErrs := fs.ReadFile(Target(i));
    if statErrs != [] {
      return statErrs, None;
    }
    if i !in staging {
      return [IoError(Reading)], None;
    }
    entry := Some(Entry(i, content.value, staging[i]));
    errs := fs.WriteDurable(Staged(i), staging[i]);
    if errs != [] {
      return;
    }
    errs := fs.SyncDir();
  }

  // The first targets are staged and recorded, and nothing else is left over.
  ghost predicate IsStaging(disk: Disk, base: Generation, staging: map<nat, File>, entries: seq<Entry>) {
    && |entries| <= |base| && Scoped(disk, |base|) && Settled(disk, base) && JournalTemp !in disk
    && (forall j :: 0 <= j < |entries| ==> j in staging && entries[j] == Entry(j, base[j], staging[j]))
    && (forall j :: 0 <= j < |entries| ==> Get(disk, Staged(j)) == Some(staging[j]))
    && (forall j :: |entries| <= j < |base| ==> Staged(j) !in disk)
  }

  lemma StagingGrows(disk: Disk, base: Generation, staging: map<nat, File>, entries: seq<Entry>)
    requires IsStaging(disk, base, staging, entries) && |entries| < |base| && |entries| in staging
    ensures var i := |entries|;
            IsStaging(disk[Staged(i) := staging[i]], base, staging, entries + [Entry(i, base[i], staging[i])])
  {
  }

  lemma StagingBreaks(disk: Disk, next: Disk, base: Generation, staging: map<nat, File>, entries: seq<Entry>)
    requires IsStaging(disk, base, staging, entries) && |entries| < |base|
    requires var i := |entries|; next == disk || (Staged(i) in next && next == disk[Staged(i) := next[Staged(i)]])
    ensures Scoped(next, |base|) && Settled(next, base) && JournalTemp !in next
    ensures forall j :: |entries| < j < |base| ==> Staged(j) !in next
    ensures next == disk ==> Staged(|entries|) !in next
  {
  }

  // The staging loop of promoteSDKUpdateWithFS.
  method Stage(fs: FileSystem, staging: map<nat, File>, ghost base: Generation)
    returns (errs: seq<Error>, entries: seq<Entry>)
    requires Scoped(fs.disk, fs.targets) && fs.targets == |base| && Clean(fs.disk, base) && !fs.dead
    modifies fs`disk, fs`dead, fs`faults
    ensures Scoped(fs.disk, fs.targets) && Settled(fs.disk, base)
    ensures errs == [] ==> StagesAll(staging, fs.targets) && !fs.dead && JournalTemp !in fs.disk
    ensures errs == [] ==> entries == ManifestOf(base, StagedGeneration(staging, fs.targets)).files
    ensures errs == [] ==> forall i :: 0 <= i < fs.targets ==> Get(fs.disk, Staged(i)) == Some(staging[i])
    ensures forall e :: e in errs ==> Environmental(e)
    ensures CrashError in errs <==> fs.dead
    ensures |entries| <= fs.targets && JournalTemp !in fs.disk
    ensures forall i :: |entries| <= i < fs.targets ==> Staged(i) !in fs.disk
    ensures fs.faults <= old(fs.faults)
    ensures errs != [] && StagesAll(staging, fs.targets) ==> fs.faults < old(fs.faults)
    ensures errs == [] ==> fs.faults == old(fs.faults)
  {
    entries := [];
    for i := 0 to fs.targets
      invariant IsStaging(fs.disk, base, staging, entries) && |entries| == i
      invariant fs.faults == old(fs.faults) && !fs.dead
    {
      ghost var disk, recorded := fs.disk, entries;
      var entry;
      errs, entry := StageTarget(fs, i, staging, base);
      if entry.Some? {
        entries := entries + [entry.value];
      }
      if errs != [] {
        StagingBreaks(disk, fs.disk, base, staging, recorded);
        return;
      }
      StagingGrows(disk, base, staging, recorded);
    }
    errs := [];
  }

  // Publishing a journal over fully staged files starts the in-flight phase.
  lemma PublishStep(disk: Disk, base: Generation, next: Generation)
    requires |base| == |next| && Scoped(disk, |base|) && Settled(disk, base)
    requires Get(disk, JournalTemp) == Some(Encoded(ManifestOf(base, next)))
    requires forall i :: 0 <= i < |base| ==> Get(disk, Staged(i)) == Some(next[i])
    ensures var published := Renamed(disk, JournalTemp, Journal);
            && InFlight(published, base, next) && Scoped(published, |base|)
            && TargetsAre(published, base) && CanRollForward(published, next)
  {
  }

  // Nothing but targets of this generation and the journal is on disk.
  ghost predicate OnlyJournal(disk: Disk, generation: Generation) {
    TargetsAre(disk, generation) && forall path :: path in disk ==> path.Target? || path.Journal?
  }

  // At most one thing goes wrong: an operation fails, or the staging is incomplete.
  predicate FailsOnce(staging: map<nat, File>, targets: nat, failures: int) {
    failures <= if StagesAll(staging, targets) then 1 else 0
  }

  // What an update leaves that failed for one reason, not a crash: the old
  // generation and nothing else, or with the journal when it was published by a
  // rename that was reported as failed; or the new generation, when the failure
  // came after old contents were cleaned up, with the journal unless that was
  // cleaned up too.
  ghost predicate Undone(disk: Disk, errs: seq<Error>, base: Generation, next: Generation) {
    || Clean(disk, base)
    || (OnlyJournal(disk, base) && errs == [IoError(Renaming(JournalTemp))])
    || (TargetsAre(disk, next) && !CanRollBack(disk, base) && (Journal in disk || Clean(disk, next)))
  }

  // Without staged files, backups and the temporary journal only targets and
  // perhaps the journal are left.
  lemma NothingStaged(disk: Disk, base: Generation, next: Generation)
    requires Between(disk, base, next) && TargetsAre(disk, base) && JournalTemp !in disk
    requires forall i :: 0 <= i < |base| ==> Staged(i) !in disk && Backup(i) !in disk
    ensures OnlyJournal(disk, base) && (Journal !in disk ==> Clean(disk, base))
  {
  }

  // promoteSDKUpdateWithFS once the journal is published: sync and roll forward,
  // or undo.
  method RollOrFail(fs: FileSystem, manifest: Manifest, ghost base: Generation, ghost next: Generation)
    returns (errs: seq<Error>)
    requires Between(fs.disk, base, next) && InFlight(fs.disk, base, next) && !fs.dead
    requires CanRollForward(fs.disk, next) && manifest == ManifestOf(base, next)
    modifies fs`disk, fs`dead, fs`faults
    ensures Between(fs.disk, base, next)
    ensures errs == [] ==> Clean(fs.disk, next)
    ensures forall e :: e in errs ==> Environmental(e)
    ensures fs.faults <= old(fs.faults) && (errs != [] ==> fs.faults < old(fs.faults))
    ensures errs == [] ==> fs.faults == old(fs.faults)
    ensures errs != [] && CrashError !in errs && old(fs.faults) <= fs.faults + 1 ==> Undone(fs.disk, errs, base, next)
    ensures |errs| == 1 && errs != [CrashError] ==> TargetsAre(fs.disk, base)
  {
    errs := fs.SyncDir();
    if errs == [] {
      errs := RollForward(fs, manifest, base, next);
    }
    if errs == [] || CrashError in errs {
      return;
    }
    errs := FailTransaction(fs, manifest, errs, base, next);
  }

  // promoteSDKUpdateWithFS once everything is staged: publish the journal and
  // roll forward.
  method PublishAndRoll(fs: FileSystem, entries: seq<Entry>, ghost base: Generation, ghost next: Generation)
    returns (errs: seq<Error>)
    requires |base| == |next| && Scoped(fs.disk, |base|) && Settled(fs.disk, base) && !fs.dead
    requires entries == ManifestOf(base, next).files
    requires forall i :: 0 <= i < |base| ==> Get(fs.disk, Staged(i)) == Some(next[i])
    modifies fs`disk, fs`dead, fs`faults
    ensures Between(fs.disk, base, next)
    ensures errs == [] ==> Clean(fs.disk, next)
    ensures forall e :: e in errs ==> Environmental(e)
    ensures fs.faults <= old(fs.faults) && (errs != [] ==> fs.faults < old(fs.faults))
    ensures errs == [] ==> fs.faults == old(fs.faults)
    ensures errs != [] && CrashError !in errs && old(fs.faults) <= fs.faults + 1 ==> Undone(fs.disk, errs, base, next)
    ensures |errs| == 1 && errs != [CrashError] ==> TargetsAre(fs.disk, base)
  {
    var manifest := Manifest(1, entries);
    assert manifest == ManifestOf(base, next);
    var cause := fs.WriteDurable(JournalTemp, Encoded(manifest));
    if cause == [] {
      PublishStep(fs.disk, base, next);
      cause := fs.Rename(JournalTemp, Journal);
      if CrashError in cause {
        return cause;
      }
    }
    if cause != [] {
      errs := AbortBeforeManifest(fs, cause, |entries|, base, next);
      if errs == cause && CrashError !in cause {
        NothingStaged(fs.disk, base, next);
      }
      return;
    }
    errs := RollOrFail(fs, manifest, base, next);
  }

  // promoteSDKUpdateWithFS after its recovery.
  method StageAndPublish(fs: FileSystem, staging: map<nat, File>, ghost base: Generation) returns (errs: seq<Error>)
    requires Scoped(fs.disk, fs.targets) && fs.targets == |base| && Clean(fs.disk, base) && !fs.dead
    modifies fs`disk, fs`dead, fs`faults
    ensures Between(fs.disk, base, Destination(staging, base))
    ensures errs == [] ==> StagesAll(staging, fs.targets) && Clean(fs.disk, StagedGeneration(staging, fs.targets))
    ensures forall e :: e in errs ==> Environmental(e)
    ensures fs.faults <= old(fs.faults)
    ensures errs != [] && StagesAll(staging, fs.targets) ==> fs.faults < old(fs.faults)
    ensures errs == [] ==> fs.faults == old(fs.faults)
    ensures errs != [] && CrashError !in errs && FailsOnce(staging, fs.targets, old(fs.faults) - fs.faults) ==>
              Undone(fs.disk, errs, base, Destination(staging, base))
    ensures |errs| == 1 && errs != [CrashError] ==> TargetsAre(fs.disk, base)
  {
    ghost var next := Destination(staging, base);
    var stageErrs, entries := Stage(fs, staging, base);
    if stageErrs != [] {
      errs := AbortBeforeManifest(fs, stageErrs, |entries|, base, next);
      if errs == stageErrs && CrashError !in stageErrs {
        NothingStaged(fs.disk, base, next);
      }
      return;
    }
    errs := PublishAndRoll(fs, entries, base, next);
  }

  /** promoteSDKUpdateWithFS. base is the generation the update started from and
      next the one it leads to; when the recovery at the start fails the update is
      not started and they stay (before, after). */
  method Promote(fs: FileSystem, relatives: seq<nat>, staging: map<nat, File>, ghost before: Generation,
                 ghost after: Generation)
    returns (errs: seq<Error>, ghost started: bool, ghost base: Generation, ghost next: Generation)
    requires Between(fs.disk, before, after) && fs.targets == |before|
    modifies fs`disk, fs`dead, fs`faults
    ensures |base| == |before| && Between(fs.disk, base, next)
    ensures started ==> (base == before || base == after) && next == Destination(staging, base)
    ensures !started ==> base == before && next == after && (Journal !in old(fs.disk) ==> Journal !in fs.disk)
    ensures errs == [] ==> StagesAll(staging, fs.targets) && Clean(fs.disk, StagedGeneration(staging, fs.targets))
    ensures errs == [] ==> started
    ensures forall e :: e in errs ==> Environmental(e) || e.InvalidTargets?
    ensures fs.faults <= old(fs.faults)
    ensures !old(fs.dead) && CanonicalTargets(relatives, fs.targets) && StagesAll(staging, fs.targets) ==>
              errs == [] || fs.faults < old(fs.faults)
    ensures started && errs != [] && CrashError !in errs ==>
              (FailsOnce(staging, fs.targets, old(fs.faults) - fs.faults) ==> Undone(fs.disk, errs, base, next))
    ensures started && |errs| == 1 && errs != [CrashError] ==> TargetsAre(fs.disk, base)
    ensures errs == [] && Journal !in old(fs.disk) ==> fs.faults == old(fs.faults)
    ensures |relatives| != fs.targets || (exists i :: 0 <= i < fs.targets && relatives[i] != i) ==>
              errs == [InvalidTargets] && fs.disk == old(fs.disk)
    ensures started && Journal !in old(fs.disk) ==> TargetsAre(old(fs.disk), base)
    ensures !started && Journal !in old(fs.disk) ==> OnlyLess(old(fs.disk), fs.disk, |before|)
  {
    started, base, next := false, before, after;
    if !CanonicalTargets(relatives, fs.targets) {
      return [InvalidTargets], started, base, next;
    }
    errs := Recover(fs, before, after);
    if errs != [] {
      return;
    }
    started := true;
    base := if Clean(fs.disk, before) then before else after;
    next := Destination(staging, base);
    errs := StageAndPublish(fs, staging, base);
  }

  // ------------------------------------------------------------------
  // Whole runs
  // ------------------------------------------------------------------

  datatype Moment = Moment(errs: seq<Error>, disk: Disk)

  ghost predicate NewLost(disk: Disk, after: Generation) {
    exists i :: 0 <= i < |after| && !HasNew(disk, i, after)
  }

  ghost predicate OldLost(disk: Disk, before: Generation) {
    exists i :: 0 <= i < |before| && !HasOld(disk, i, before)
  }

  // While the journal exists one complete generation can always be rebuilt.
  lemma NeverBothLost(disk: Disk, before: Generation, after: Generation)
    requires Between(disk, before, after)
    ensures Journal in disk ==> !(NewLost(disk, after) && OldLost(disk, before))
    ensures TargetsAre(disk, before) || TargetsAre(disk, after)
         || (Journal in disk && (CanRollBack(disk, before) || CanRollForward(disk, after)))
  {
  }

  // Once a direction has lost its last copy it can never be reached again.
  lemma Irrevocable(earlier: Disk, later: Disk, before: Generation, after: Generation)
    requires Shrinks(earlier, later, before, after)
    ensures NewLost(earlier, after) ==> NewLost(later, after) && !TargetsAre(later, after)
    ensures OldLost(earlier, before) ==> OldLost(later, before) && !TargetsAre(later, before)
  {
  }

  // A run: every disk is between the two generations, an error-free command
  // leaves one whole generation and nothing else, and contents only get lost.
  ghost predicate RunOk(run: seq<Moment>, base: Generation, next: Generation) {
    && |run| > 0
    && (forall k :: 0 <= k < |run| ==> Between(run[k].disk, base, next))
    && (forall k :: 0 <= k < |run| && run[k].errs == [] ==>
          Clean(run[k].disk, base) || Clean(run[k].disk, next))
    && (forall j, k :: 0 <= j < k < |run| ==> Shrinks(run[j].disk, run[k].disk, base, next))
  }

  lemma ExtendRun(run: seq<Moment>, moment: Moment, base: Generation, next: Generation)
    requires RunOk(run, base, next)
    requires Between(moment.disk, base, next) && Shrinks(run[|run| - 1].disk, moment.disk, base, next)
    requires moment.errs == [] ==> Clean(moment.disk, base) || Clean(moment.disk, next)
    ensures RunOk(run + [moment], base, next)
  {
  }

  // After a moment at which some new content is gone, no later command ends
  // with the new generation, and likewise for the old one.
  lemma RunIrrevocable(run: seq<Moment>, base: Generation, next: Generation, j: nat, k: nat)
    requires RunOk(run, base, next) && j < k < |run|
    ensures NewLost(run[j].disk, next) && run[k].errs == [] ==> Clean(run[k].disk, base) && !Clean(run[k].disk, next)
    ensures OldLost(run[j].disk, base) && run[k].errs == [] ==> Clean(run[k].disk, next) && !Clean(run[k].disk, base)
  {
  }

  // What a recovery without faults makes of the moment before it.
  ghost predicate CalmRecovery(earlier: Disk, moment: Moment, base: Generation, next: Generation) {
    moment.errs == [] && Clean(moment.disk, Direction(earlier, base, next))
  }

  // Promote from a clean disk, with the canonical target list.
  method PromoteFromClean(fs: FileSystem, staging: map<nat, File>, ghost base: Generation) returns (errs: seq<Error>)
    requires fs.targets == |base| && Clean(fs.disk, base)
    modifies fs`disk, fs`dead, fs`faults
    ensures Between(fs.disk, base, Destination(staging, base))
    ensures errs == [] ==> StagesAll(staging, |base|) && Clean(fs.disk, Destination(staging, base))
    ensures !old(fs.dead) && StagesAll(staging, |base|) ==> errs == [] || fs.faults < old(fs.faults)
  {
    var relatives: seq<nat> := seq(fs.targets, i => i);
    ghost var started, from, next;
    assert Between(fs.disk, base, base);
    errs, started, from, next := Promote(fs, relatives, staging, base, base);
    if !started {
      assert Settled(fs.disk, base);
    }
  }

  /** One update, crashing or failing anywhere, followed by any number of
      recoveries that may crash anywhere themselves. faults tells for the update
      and for each recovery how many operations may fail during it. A recovery
      without faults succeeds whatever happened before it, in the direction the
      disk it finds decides. */
  method UpdateThenRecover(fs: FileSystem, staging: map<nat, File>, faults: seq<nat>, ghost base: Generation)
    returns (run: seq<Moment>, ghost next: Generation)
    requires fs.targets == |base| && Clean(fs.disk, base) && faults != []
    modifies fs
    ensures next == Destination(staging, base)
    ensures |run| == |faults| && RunOk(run, base, next) && run[|run| - 1].disk == fs.disk
    ensures run[0].errs == [] ==> StagesAll(staging, |base|) && Clean(run[0].disk, next)
    ensures faults[0] == 0 && StagesAll(staging, |base|) ==> run[0].errs == []
    ensures forall k :: 1 <= k < |run| && faults[k] == 0 ==> CalmRecovery(run[k - 1].disk, run[k], base, next)
  {
    fs.faults, fs.dead := faults[0], false;
    var errs := PromoteFromClean(fs, staging, base);
    next := Destination(staging, base);
    run := [Moment(errs, fs.disk)];
    for k := 1 to |faults|
      invariant |run| == k && run[k - 1].disk == fs.disk && RunOk(run, base, next)
      invariant run[0] == Moment(errs, run[0].disk)
      invariant run[0].errs == [] ==> StagesAll(staging, |base|) && Clean(run[0].disk, next)
      invariant faults[0] == 0 && StagesAll(staging, |base|) ==> run[0].errs == []
      invariant forall j :: 1 <= j < k && faults[j] == 0 ==> CalmRecovery(run[j - 1].disk, run[j], base, next)
    {
      fs.faults, fs.dead := faults[k], false;
      var recoverErrs := Recover(fs, base, next);
      ExtendRun(run, Moment(recoverErrs, fs.disk), base, next);
      run := run + [Moment(recoverErrs, fs.disk)];
    }
  }

  // ------------------------------------------------------------------
  // Any history of updates and recoveries
  // ------------------------------------------------------------------

  // Each command says how many operations may fail while it runs.
  datatype Command = DoRecover(faults: nat) | DoPromote(faults: nat, relatives: seq<nat>, staging: map<nat, File>)

  ghost predicate Stages(command: Command, targets: nat, generation: Generation) {
    && command.DoPromote? && StagesAll(command.staging, targets)
    && generation == StagedGeneration(command.staging, targets)
  }

  // The generations that may be seen after a clean start and these commands.
  ghost predicate Offered(generation: Generation, initial: Generation, commands: seq<Command>) {
    || generation == initial
    || exists c :: c in commands && Stages(c, |initial|, generation)
  }

  // Where a command may lead from a disk between two generations.
  ghost predicate Reaches(before: Generation, after: Generation, command: Command, generation: Generation) {
    generation == before || generation == after || Stages(command, |before|, generation)
  }

  lemma OfferedStep(initial: Generation, commands: seq<Command>, before: Generation, after: Generation,
                    command: Command, generation: Generation)
    requires |initial| == |before| && Offered(before, initial, commands) && Offered(after, initial, commands)
    requires Reaches(before, after, command, generation)
    ensures Offered(generation, initial, commands + [command])
  {
  }

  lemma CleanIsOne(disk: Disk, a: Generation, b: Generation)
    requires Clean(disk, a) && Clean(disk, b) && |a| == |b|
    ensures a == b
  {
  }

  lemma SameTargets(disk: Disk, a: Generation, b: Generation)
    requires TargetsAre(disk, a) && TargetsAre(disk, b) && |a| == |b|
    ensures a == b
  {
  }

  lemma DirectionAfterUndo(disk: Disk, errs: seq<Error>, g: Generation, next: Generation)
    requires Between(disk, g, next) && Undone(disk, errs, g, next)
    ensures Direction(disk, g, next) == if TargetsAre(disk, g) then g else next
  {
    if CanRollForward(disk, next) && OnlyJournal(disk, g) {
      assert forall i :: 0 <= i < |g| ==> HasNew(disk, i, next) && g[i] == next[i];
      assert g == next;
    }
  }

  lemma DirectionWhenClean(disk: Disk, before: Generation, after: Generation, g: Generation)
    requires Between(disk, before, after) && Clean(disk, g) && |g| == |before|
    ensures Direction(disk, before, after) == g
  {
    if TargetsAre(disk, before) {
      SameTargets(disk, before, g);
    } else {
      SameTargets(disk, after, g);
    }
  }

  lemma LessIsClean(earlier: Disk, later: Disk, g: Generation)
    requires Clean(earlier, g) && OnlyLess(earlier, later, |g|)
    ensures Clean(later, g)
  {
  }

  // The two generations that a disk is between.
  datatype Span = Span(before: Generation, after: Generation)

  predicate MayPromote(command: Command, targets: nat) {
    command.DoPromote? && CanonicalTargets(command.relatives, targets) && StagesAll(command.staging, targets)
  }

  // What an update leaves that failed without a crash: it was undone, if it reports
  // one error or failed for one reason, or the recovery before it failed.
  ghost predicate LeftByFailure(
      targets: nat, command: Command, earlier: Disk, span: Span, moment: Moment, span': Span)
    requires command.DoPromote?
  {
    || (&& span'.after == Destination(command.staging, span'.before)
        && (Journal !in earlier ==> TargetsAre(earlier, span'.before))
        && (|moment.errs| == 1 ==> TargetsAre(moment.disk, span'.before))
        && (FailsOnce(command.staging, targets, command.faults) ==>
              Undone(moment.disk, moment.errs, span'.before, span'.after)))
    || (span' == span && (Journal !in earlier ==> OnlyLess(earlier, moment.disk, targets)))
  }

  // One command in a fresh process, on the disk the previous one left behind. A
  // success leaves one whole generation, which is then all that later commands
  // can go back to.
  ghost predicate IsStep(targets: nat, command: Command, earlier: Disk, span: Span, moment: Moment, span': Span) {
    && |span'.before| == targets && Between(moment.disk, span'.before, span'.after)
    && Reaches(span.before, span.after, command, span'.before)
    && Reaches(span.before, span.after, command, span'.after)
    && (moment.errs == [] ==> span'.before == span'.after && Clean(moment.disk, span'.before))
    && (moment.errs == [] && command.DoPromote? ==> Stages(command, targets, span'.before))
    && (command.DoRecover? ==> Shrinks(earlier, moment.disk, span.before, span.after))
    && (command.DoRecover? && moment.errs != [] ==> span' == span)
    && (command.faults == 0 && command.DoRecover? ==> CalmRecovery(earlier, moment, span.before, span.after))
    && (command.faults == 0 && MayPromote(command, targets) ==> moment.errs == [])
    && (command.DoPromote? && moment.errs != [] && CrashError !in moment.errs ==>
          LeftByFailure(targets, command, earlier, span, moment, span'))
    && (command.DoRecover? && command.faults <= 1 && moment.errs != [] && CrashError !in moment.errs ==>
          (Journal in earlier && CanRollForward(earlier, span.after) ==>
             RecoveryStuck(earlier, moment.disk, span.before, span.after)))
  }

  method RunCommand(fs: FileSystem, command: Command, ghost span: Span) returns (errs: seq<Error>, ghost span': Span)
    requires fs.targets == |span.before| && Between(fs.disk, span.before, span.after)
    modifies fs
    ensures IsStep(fs.targets, command, old(fs.disk), span, Moment(errs, fs.disk), span')
  {
    fs.faults, fs.dead := command.faults, false;
    ghost var before, after := span.before, span.after;
    match command {
      case DoRecover(_) =>
        errs := Recover(fs, before, after);
        span' := if errs != [] then span
                 else if Clean(fs.disk, before) then Span(before, before) else Span(after, after);
      case DoPromote(_, relatives, staging) =>
        ghost var started, base, next;
        errs, started, base, next := Promote(fs, relatives, staging, before, after);
        span' := if errs == [] then Span(next, next) else Span(base, next);
    }
  }

  // The disk that command k finds.
  function DiskBefore(start: Disk, log: seq<Moment>, k: nat): Disk
    requires k <= |log|
  {
    if k == 0 then start else log[k - 1].disk
  }

  ghost predicate IsHistory(initial: Generation, start: Disk, commands: seq<Command>, log: seq<Moment>,
                            spans: seq<Span>) {
    && Clean(start, initial)
    && |log| == |commands| && |spans| == |commands| + 1 && spans[0] == Span(initial, initial)
    && forall k {:trigger IsStep(|initial|, commands[k], DiskBefore(start, log, k), spans[k], log[k], spans[k + 1])} ::
         0 <= k < |commands| ==>
           IsStep(|initial|, commands[k], DiskBefore(start, log, k), spans[k], log[k], spans[k + 1])
  }

  lemma StepOf(initial: Generation, start: Disk, commands: seq<Command>, log: seq<Moment>, spans: seq<Span>, k: nat)
    requires IsHistory(initial, start, commands, log, spans) && k < |commands|
    ensures IsStep(|initial|, commands[k], DiskBefore(start, log, k), spans[k], log[k], spans[k + 1])
  {
  }

  lemma SuccessClosesSpan(
      initial: Generation, start: Disk, commands: seq<Command>, log: seq<Moment>, spans: seq<Span>, k: nat)
    requires IsHistory(initial, start, commands, log, spans) && k < |commands| && log[k].errs == []
    ensures spans[k + 1].before == spans[k + 1].after && |spans[k + 1].before| == |initial|
    ensures Clean(log[k].disk, spans[k + 1].before)
  {
    StepOf(initial, start, commands, log, spans, k);
  }

  lemma {:induction false} SpansAreOffered(
      initial: Generation, start: Disk, commands: seq<Command>, log: seq<Moment>, spans: seq<Span>, j: nat, k: nat)
    requires IsHistory(initial, start, commands, log, spans) && j <= k <= |commands|
    requires spans[j].before == spans[j].after && |spans[j].before| == |initial|
    ensures |spans[k].before| == |initial|
    ensures Offered(spans[k].before, spans[j].before, commands[j..k])
    ensures Offered(spans[k].after, spans[j].before, commands[j..k])
    decreases k
  {
    if j < k {
      var i := k - 1;
      SpansAreOffered(initial, start, commands, log, spans, j, i);
      StepOf(initial, start, commands, log, spans, i);
      OfferedStep(spans[j].before, commands[j..i], spans[i].before, spans[i].after, commands[i], spans[k].before);
      OfferedStep(spans[j].before, commands[j..i], spans[i].before, spans[i].after, commands[i], spans[k].after);
      assert commands[j..k] == commands[j..i] + [commands[i]];
    }
  }

  /** An error-free command leaves exactly one generation that was offered up to
      then, and an error-free update leaves its own. */
  lemma SuccessIsOffered(
      initial: Generation, start: Disk, commands: seq<Command>, log: seq<Moment>, spans: seq<Span>, k: nat)
    requires IsHistory(initial, start, commands, log, spans) && k < |commands| && log[k].errs == []
    ensures exists g :: Offered(g, initial, commands[..k + 1]) && Clean(log[k].disk, g)
    ensures commands[k].DoPromote? ==>
              && StagesAll(commands[k].staging, |initial|)
              && Clean(log[k].disk, StagedGeneration(commands[k].staging, |initial|))
  {
    StepOf(initial, start, commands, log, spans, k);
    SpansAreOffered(initial, start, commands, log, spans, 0, k + 1);
    assert commands[0..k + 1] == commands[..k + 1];
    assert Clean(log[k].disk, spans[k + 1].before);
  }

  /** What a success left is durable: every later success leaves the same
      generation or the staging of an update made after it, whatever failed or
      crashed in between. */
  lemma SuccessIsDurable(
      initial: Generation, start: Disk, commands: seq<Command>, log: seq<Moment>, spans: seq<Span>,
      j: nat, k: nat, g: Generation)
    requires IsHistory(initial, start, commands, log, spans) && j < k < |commands|
    requires log[j].errs == [] && log[k].errs == [] && |g| == |initial| && Clean(log[j].disk, g)
    ensures exists g' :: Offered(g', g, commands[j + 1..k + 1]) && Clean(log[k].disk, g')
  {
    SuccessClosesSpan(initial, start, commands, log, spans, j);
    SuccessClosesSpan(initial, start, commands, log, spans, k);
    CleanIsOne(log[j].disk, g, spans[j + 1].before);
    SpansAreOffered(initial, start, commands, log, spans, j + 1, k + 1);
    assert Clean(log[k].disk, spans[k + 1].before);
  }

  /** In particular recoveries alone never take a success back. */
  lemma RecoveriesKeepSuccess(
      initial: Generation, start: Disk, commands: seq<Command>, log: seq<Moment>, spans: seq<Span>,
      j: nat, k: nat, g: Generation)
    requires IsHistory(initial, start, commands, log, spans) && j < k < |commands|
    requires log[j].errs == [] && log[k].errs == [] && |g| == |initial| && Clean(log[j].disk, g)
    requires forall i :: j < i <= k ==> commands[i].DoRecover?
    ensures Clean(log[k].disk, g)
  {
    SuccessIsDurable(initial, start, commands, log, spans, j, k, g);
    var g' :| Offered(g', g, commands[j + 1..k + 1]) && Clean(log[k].disk, g');
    forall c | c in commands[j + 1..k + 1]
      ensures c.DoRecover?
    {
    }
  }

  lemma RecoveryCommits(
      initial: Generation, start: Disk, commands: seq<Command>, log: seq<Moment>, spans: seq<Span>, j: nat)
    requires IsHistory(initial, start, commands, log, spans) && j < |commands|
    requires commands[j].DoRecover? && log[j].errs == []
    ensures var before, after, disk := spans[j].before, spans[j].after, DiskBefore(start, log, j);
            && |before| == |after|
            && (NewLost(disk, after) ==> before != after && Clean(log[j].disk, before))
            && (OldLost(disk, before) ==> before != after && Clean(log[j].disk, after))
  {
    StepOf(initial, start, commands, log, spans, j);
    Irrevocable(DiskBefore(start, log, j), log[j].disk, spans[j].before, spans[j].after);
  }

  lemma RecoveryKeepsLoss(
      initial: Generation, start: Disk, commands: seq<Command>, log: seq<Moment>, spans: seq<Span>, j: nat)
    requires IsHistory(initial, start, commands, log, spans) && j < |commands|
    requires commands[j].DoRecover? && log[j].errs != []
    ensures spans[j + 1] == spans[j]
    ensures NewLost(DiskBefore(start, log, j), spans[j].after) ==> NewLost(log[j].disk, spans[j].after)
    ensures OldLost(DiskBefore(start, log, j), spans[j].before) ==> OldLost(log[j].disk, spans[j].before)
  {
    StepOf(initial, start, commands, log, spans, j);
    Irrevocable(DiskBefore(start, log, j), log[j].disk, spans[j].before, spans[j].after);
  }

  lemma SuccessStays(
      initial: Generation, start: Disk, commands: seq<Command>, log: seq<Moment>, spans: seq<Span>,
      j: nat, k: nat, g: Generation, other: Generation)
    requires IsHistory(initial, start, commands, log, spans) && j <= k < |commands|
    requires log[j].errs == [] && log[k].errs == [] && forall i :: j <= i <= k ==> commands[i].DoRecover?
    requires |g| == |other| == |initial| && g != other
    ensures Clean(log[j].disk, g) ==> Clean(log[k].disk, g) && !Clean(log[k].disk, other)
  {
    if Clean(log[j].disk, g) {
      if j < k {
        RecoveriesKeepSuccess(initial, start, commands, log, spans, j, k, g);
      }
      if Clean(log[k].disk, other) {
        CleanIsOne(log[k].disk, g, other);
        assert false;
      }
    }
  }

  /** The direction is irrevocable: once the disk that a recovery finds has lost a
      new content, that recovery and all that follow it, crashing or not, can only
      end with the old generation, and the other way round. */
  lemma {:induction false} DirectionIsFinal(
      initial: Generation, start: Disk, commands: seq<Command>, log: seq<Moment>, spans: seq<Span>, j: nat, k: nat)
    requires IsHistory(initial, start, commands, log, spans) && j <= k < |commands|
    requires log[k].errs == [] && forall i :: j <= i <= k ==> commands[i].DoRecover?
    ensures var before, after, disk := spans[j].before, spans[j].after, DiskBefore(start, log, j);
            && (NewLost(disk, after) ==> Clean(log[k].disk, before) && !Clean(log[k].disk, after))
            && (OldLost(disk, before) ==> Clean(log[k].disk, after) && !Clean(log[k].disk, before))
    decreases k - j
  {
    var before, after, disk := spans[j].before, spans[j].after, DiskBefore(start, log, j);
    if log[j].errs != [] {
      RecoveryKeepsLoss(initial, start, commands, log, spans, j);
      DirectionIsFinal(initial, start, commands, log, spans, j + 1, k);
    } else {
      RecoveryCommits(initial, start, commands, log, spans, j);
      SpansAreOffered(initial, start, commands, log, spans, 0, j);
      if before != after {
        SuccessStays(initial, start, commands, log, spans, j, k, before, after);
        SuccessStays(initial, start, commands, log, spans, j, k, after, before);
      }
    }
  }

  /** A recovery without faults succeeds whatever happened before, in the direction
      that the disk it finds decides; so does an update with a complete staging. */
  lemma CalmSucceeds(
      initial: Generation, start: Disk, commands: seq<Command>, log: seq<Moment>, spans: seq<Span>, k: nat)
    requires IsHistory(initial, start, commands, log, spans) && k < |commands| && commands[k].faults == 0
    ensures Between(DiskBefore(start, log, k), spans[k].before, spans[k].after)
    ensures commands[k].DoRecover? ==>
              CalmRecovery(DiskBefore(start, log, k), log[k], spans[k].before, spans[k].after)
    ensures MayPromote(commands[k], |initial|) ==>
              log[k].errs == [] && Clean(log[k].disk, StagedGeneration(commands[k].staging, |initial|))
  {
    StepOf(initial, start, commands, log, spans, k);
    if k > 0 {
      StepOf(initial, start, commands, log, spans, k - 1);
    }
  }

  /** From a clean disk, an update in which one operation fails, but does not crash,
      or whose staging is incomplete, leaves the old generation and nothing else.
      There are two exceptions: the journal stays when it was published by a rename
      that was reported as failed, and the new generation stays when the failure
      came only after old contents were cleaned up. */
  lemma OneFailureIsUndone(
      initial: Generation, start: Disk, commands: seq<Command>, log: seq<Moment>, spans: seq<Span>,
      k: nat, g: Generation)
    requires IsHistory(initial, start, commands, log, spans) && k < |commands| && commands[k].DoPromote?
    requires FailsOnce(commands[k].staging, |initial|, commands[k].faults)
    requires log[k].errs != [] && CrashError !in log[k].errs
    requires |g| == |initial| && Clean(DiskBefore(start, log, k), g)
    ensures Undone(log[k].disk, log[k].errs, g, Destination(commands[k].staging, g))
  {
    var earlier := DiskBefore(start, log, k);
    StepOf(initial, start, commands, log, spans, k);
    if TargetsAre(earlier, spans[k + 1].before) {
      SameTargets(earlier, spans[k + 1].before, g);
    }
    if OnlyLess(earlier, log[k].disk, |initial|) {
      LessIsClean(earlier, log[k].disk, g);
    }
  }

  /** Whatever else fails: an update on a clean disk that reports one error, not a
      crash, leaves every target as it was. */
  lemma OneErrorKeepsTargets(
      initial: Generation, start: Disk, commands: seq<Command>, log: seq<Moment>, spans: seq<Span>,
      k: nat, g: Generation)
    requires IsHistory(initial, start, commands, log, spans) && k < |commands| && commands[k].DoPromote?
    requires |log[k].errs| == 1 && log[k].errs != [CrashError]
    requires |g| == |initial| && Clean(DiskBefore(start, log, k), g)
    ensures TargetsAre(log[k].disk, g)
  {
    var earlier := DiskBefore(start, log, k);
    StepOf(initial, start, commands, log, spans, k);
    if TargetsAre(earlier, spans[k + 1].before) {
      SameTargets(earlier, spans[k + 1].before, g);
    }
  }

  /** So the recovery that comes next, without faults, ends with the old generation
      exactly unless the update was complete. */
  lemma OneFailureThenRecovery(
      initial: Generation, start: Disk, commands: seq<Command>, log: seq<Moment>, spans: seq<Span>,
      k: nat, g: Generation)
    requires IsHistory(initial, start, commands, log, spans) && k + 1 < |commands|
    requires commands[k].DoPromote? && FailsOnce(commands[k].staging, |initial|, commands[k].faults)
    requires log[k].errs != [] && CrashError !in log[k].errs
    requires |g| == |initial| && Clean(DiskBefore(start, log, k), g)
    requires commands[k + 1] == DoRecover(0)
    ensures var next := Destination(commands[k].staging, g);
            Clean(log[k + 1].disk, if TargetsAre(log[k].disk, g) then g else next)
  {
    var earlier, disk, span := DiskBefore(start, log, k), log[k].disk, spans[k + 1];
    StepOf(initial, start, commands, log, spans, k);
    CalmSucceeds(initial, start, commands, log, spans, k + 1);
    if OnlyLess(earlier, disk, |initial|) {
      LessIsClean(earlier, disk, g);
      DirectionWhenClean(disk, span.before, span.after, g);
    } else {
      SameTargets(earlier, span.before, g);
      DirectionAfterUndo(disk, log[k].errs, g, span.after);
    }
  }

  lemma HistoryGrows(initial: Generation, start: Disk, commands: seq<Command>, log: seq<Moment>, spans: seq<Span>,
                     command: Command, moment: Moment, span: Span)
    requires IsHistory(initial, start, commands, log, spans)
    requires IsStep(|initial|, command, DiskBefore(start, log, |log|), spans[|log|], moment, span)
    ensures IsHistory(initial, start, commands + [command], log + [moment], spans + [span])
  {
    var commands', log', spans' := commands + [command], log + [moment], spans + [span];
    forall k | 0 <= k < |commands'|
      ensures IsStep(|initial|, commands'[k], DiskBefore(start, log', k), spans'[k], log'[k], spans'[k + 1])
    {
      if k < |commands| {
        StepOf(initial, start, commands, log, spans, k);
        assert DiskBefore(start, log', k) == DiskBefore(start, log, k);
      } else {
        assert DiskBefore(start, log', k) == DiskBefore(start, log, |log|);
      }
    }
  }

  /** Every command runs in a fresh process, on whatever disk the previous one
      left behind; the lemmas above are about every such history. */
  method History(fs: FileSystem, commands: seq<Command>, ghost initial: Generation)
    returns (log: seq<Moment>, ghost spans: seq<Span>)
    requires fs.targets == |initial| && Clean(fs.disk, initial)
    modifies fs
    ensures IsHistory(initial, old(fs.disk), commands, log, spans)
    ensures |log| == |commands| && (commands != [] ==> fs.disk == log[|log| - 1].disk)
  {
    ghost var start := fs.disk;
    log, spans := [], [Span(initial, initial)];
    for k := 0 to |commands|
      invariant |log| == k && fs.disk == DiskBefore(start, log, k)
      invariant IsHistory(initial, start, commands[..k], log, spans)
      invariant |spans[k].before| == |initial| && Between(fs.disk, spans[k].before, spans[k].after)
    {
      var errs;
      ghost var span;
      errs, span := RunCommand(fs, commands[k], spans[k]);
      HistoryGrows(initial, start, commands[..k], log, spans, commands[k], Moment(errs, fs.disk), span);
      assert commands[..k + 1] == commands[..k] + [commands[k]];
      log, spans := log + [Moment(errs, fs.disk)], spans + [span];
    }
    assert commands[..|commands|] == commands;
  }

}
