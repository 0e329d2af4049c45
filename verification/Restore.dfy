/** Reading a verified backup artifact back: BackupArtifactReader in
    plugins/docker-app/backup_artifact.go. The file may have changed since it was
    verified, so the operations take any archive and the manifest verified before. */
module Restore {

  import opened Encodings
  import opened BackupNames
  import opened Backup
  import opened Strings

  // memberDigest.
  function DigestOf(members: seq<Member>, name: string): Option<string> {
    if members == [] then None
    else if members[0].name == name then Some(members[0].sha256)
    else DigestOf(members[1..], name)
  }

  lemma {:induction false} DigestOfMember(members: seq<Member>, i: nat)
    requires DistinctNames(members) && i < |members|
    ensures DigestOf(members, members[i].name) == Some(members[i].sha256)
  {
    if i > 0 {
      assert members[1..][i - 1] == members[i];
      DigestOfMember(members[1..], i - 1);
    }
  }

  lemma {:induction false} DigestOfSome(members: seq<Member>, name: string) returns (i: nat)
    requires DigestOf(members, name).Some?
    ensures i < |members| && members[i].name == name && members[i].sha256 == DigestOf(members, name).value
  {
    if members[0].name == name {
      i := 0;
    } else {
      i := DigestOfSome(members[1..], name);
      i := i + 1;
    }
  }

  // ------------------------------------------------------------------
  // One member
  // ------------------------------------------------------------------

  predicate FirstNamed(archive: seq<TarEntry>, name: string, k: int) {
    && archive != [] && archive[0].name == MANIFEST_NAME
    && 0 < k < |archive| && archive[k].name == name
    && forall j :: 0 < j < k ==> archive[j].name != name
  }

  // An entry is given out when it is a file with the recorded digest.
  function Checked(codec: Codec, manifest: Manifest, entry: TarEntry): Option<Bytes> {
    if entry.regular && DigestOf(manifest.members, entry.name) == Some(codec.digest(entry.content))
    then Some(entry.content)
    else None
  }

  // withMember, with a consumer that keeps every byte.
  method ReadMember(codec: Codec, manifest: Manifest, archive: seq<TarEntry>, name: string)
    returns (result: Option<Bytes>)
    ensures forall k :: FirstNamed(archive, name, k) ==> result == Checked(codec, manifest, archive[k])
    ensures result.Some? ==> exists k :: FirstNamed(archive, name, k)
  {
    if archive == [] || archive[0].name != MANIFEST_NAME {
      return None;
    }
    for k := 1 to |archive|
      invariant forall j :: 0 < j < k ==> archive[j].name != name
    {
      if archive[k].name == name {
        assert FirstNamed(archive, name, k);
        var want := DigestOf(manifest.members, name);
        if !archive[k].regular || want.None? || codec.digest(archive[k].content) != want.value {
          return None;
        }
        return Some(archive[k].content);
      }
    }
    return None;
  }

  lemma AcceptedMember(codec: Codec, manifest: Manifest, archive: seq<TarEntry>, i: nat)
    requires Accepts(codec, archive, manifest) && i < |manifest.members|
    ensures i + 1 < |archive| && MatchesMember(codec, manifest.members[i], archive[i + 1])
    ensures Checked(codec, manifest, archive[i + 1]) == Some(archive[i + 1].content)
  {
    assert MatchesMember(codec, manifest.members[i], archive[1..][i]);
    DigestOfMember(manifest.members, i);
  }

  /** From a verified artifact every member of the manifest is read back whole. */
  lemma AcceptedIsReadable(codec: Codec, manifest: Manifest, archive: seq<TarEntry>, i: nat)
    requires Accepts(codec, archive, manifest) && i < |manifest.members|
    ensures FirstNamed(archive, manifest.members[i].name, i + 1)
    ensures Checked(codec, manifest, archive[i + 1]) == Some(archive[i + 1].content)
  {
    AcceptedMember(codec, manifest, archive, i);
    forall j | 0 < j < i + 1
      ensures archive[j].name != manifest.members[i].name
    {
      AcceptedMember(codec, manifest, archive, j - 1);
    }
  }

  /** If the artifact was replaced after it was verified, what is still read under
      a name has the digest of the member verified under that name: it is that
      member unless the two contents collide. */
  lemma ReplacedIsNoticed(codec: Codec, manifest: Manifest, verified: seq<TarEntry>, current: seq<TarEntry>, k: nat)
    returns (i: nat)
    requires Accepts(codec, verified, manifest) && k < |current|
    requires Checked(codec, manifest, current[k]).Some?
    ensures 0 < i < |verified| && verified[i].name == current[k].name
    ensures codec.digest(current[k].content) == codec.digest(verified[i].content)
  {
    i := DigestOfSome(manifest.members, current[k].name);
    AcceptedMember(codec, manifest, verified, i);
    i := i + 1;
  }

  // ------------------------------------------------------------------
  // The workspace
  // ------------------------------------------------------------------

  type Path = seq<string>
  type Tree = map<Path, Bytes>

  // A file cannot be written where a directory is, or below another file.
  predicate Blocked(tree: Tree, path: Path) {
    path == [] || exists other | other in tree :: other != path && (other <= path || path <= other)
  }

  // One pass of ExtractWorkspace's loop.
  function ExtractEntry(codec: Codec, manifest: Manifest, tree: Tree, entry: TarEntry): Option<Tree> {
    if !entry.regular || !HasPrefix(entry.name, WORKSPACE_PREFIX) then Some(tree) else
      var path := SafePath(entry.name[|WORKSPACE_PREFIX|..]);
      if path.None? || Blocked(tree, path.value) || Checked(codec, manifest, entry).None? then None
      else Some(tree[path.value := entry.content])
  }

  function Extracted(codec: Codec, manifest: Manifest, members: seq<TarEntry>): Option<Tree> {
    if members == [] then Some(map[]) else
      var before := Extracted(codec, manifest, members[..|members| - 1]);
      if before.None? then None else ExtractEntry(codec, manifest, before.value, members[|members| - 1])
  }

  lemma {:induction false} FailureIsFinal(codec: Codec, manifest: Manifest, members: seq<TarEntry>, i: nat)
    requires i <= |members| && Extracted(codec, manifest, members[..i]).None?
    ensures Extracted(codec, manifest, members).None?
  {
    if i < |members| {
      var front := members[..|members| - 1];
      assert front[..i] == members[..i];
      FailureIsFinal(codec, manifest, front, i);
    } else {
      assert members[..i] == members;
    }
  }

  method ExtractWorkspace(codec: Codec, manifest: Manifest, archive: seq<TarEntry>) returns (result: Option<Tree>)
    ensures result == if archive == [] || archive[0].name != MANIFEST_NAME then None
                      else Extracted(codec, manifest, archive[1..])
  {
    if archive == [] || archive[0].name != MANIFEST_NAME {
      return None;
    }
    var members := archive[1..];
    var tree: Tree := map[];
    for i := 0 to |members|
      invariant Extracted(codec, manifest, members[..i]) == Some(tree)
    {
      assert members[..i + 1][..i] == members[..i];
      var next := ExtractEntry(codec, manifest, tree, members[i]);
      if next.None? {
        FailureIsFinal(codec, manifest, members, i + 1);
        return None;
      }
      tree := next.value;
    }
    assert members[..|members|] == members;
    return Some(tree);
  }

  // The files of the workspace that are packed, by their path.
  function TreeOf(entries: seq<WalkEntry>): Tree {
    if entries == [] then map[] else
      var last := entries[|entries| - 1];
      var before := TreeOf(entries[..|entries| - 1]);
      if Packed(last) then before[Split(last.rel, '/') := last.content] else before
  }

  // No packed path looks like one on a Windows drive.
  predicate NoDrives(entries: seq<WalkEntry>) {
    forall i :: 0 <= i < |entries| && Packed(entries[i]) ==> !HasDrive(entries[i].rel)
  }

  lemma PathsDiffer(entries: seq<WalkEntry>, i: nat, j: nat)
    requires FromWalk(entries) && i < j < |entries|
    ensures Split(entries[i].rel, '/') != Split(entries[j].rel, '/')
  {
    assert !Below(entries[j], entries[i]);
  }

  lemma {:induction false} TreeHolds(entries: seq<WalkEntry>, i: nat)
    requires FromWalk(entries) && i < |entries| && Packed(entries[i])
    ensures Split(entries[i].rel, '/') in TreeOf(entries)
    ensures TreeOf(entries)[Split(entries[i].rel, '/')] == entries[i].content
  {
    var n := |entries| - 1;
    if i < n {
      var front := entries[..n];
      FrontIsFromWalk(entries, n);
      assert front[i] == entries[i];
      TreeHolds(front, i);
      PathsDiffer(entries, i, n);
    }
  }

  lemma {:induction false} TreeHoldsOnly(entries: seq<WalkEntry>, path: Path) returns (i: nat)
    requires path in TreeOf(entries)
    ensures i < |entries| && Packed(entries[i]) && Split(entries[i].rel, '/') == path
  {
    var n := |entries| - 1;
    if Packed(entries[n]) && Split(entries[n].rel, '/') == path {
      i := n;
    } else {
      i := TreeHoldsOnly(entries[..n], path);
    }
  }

  lemma NextFileIsFree(entries: seq<WalkEntry>)
    requires FromWalk(entries) && entries != []
    ensures !Blocked(TreeOf(entries[..|entries| - 1]), Split(entries[|entries| - 1].rel, '/'))
  {
    var front, path := entries[..|entries| - 1], Split(entries[|entries| - 1].rel, '/');
    forall other | other in TreeOf(front)
      ensures !(other <= path) && !(path <= other)
    {
      var i := TreeHoldsOnly(front, other);
      var last := entries[|entries| - 1];
      assert other == Split(entries[i].rel, '/') && !Below(entries[i], last) && !Below(last, entries[i]);
    }
  }

  lemma FileIsExtracted(codec: Codec, manifest: Manifest, tree: Tree, entry: WalkEntry)
    requires IsWalkPath(entry.rel) && |entry.rel| <= NAME_MAX && '\\' !in entry.rel
    requires !Blocked(tree, Split(entry.rel, '/')) && Checked(codec, manifest, FileMember(entry)).Some?
    ensures ExtractEntry(codec, manifest, tree, FileMember(entry)) ==
            if HasDrive(entry.rel) then None else Some(tree[Split(entry.rel, '/') := entry.content])
  {
    WalkPathIsSafe(entry.rel);
    var name := WorkspaceMember(entry.rel);
    assert name[..10] == WORKSPACE_PREFIX && name[10..] == entry.rel;
  }

  ghost function Expected(entries: seq<WalkEntry>): Option<Tree> {
    if NoDrives(entries) then Some(TreeOf(entries)) else None
  }

  lemma NextFileIsExtracted(codec: Codec, manifest: Manifest, front: seq<WalkEntry>, last: WalkEntry)
    requires FromWalk(front + [last]) && Portable(front + [last])
    requires Packed(last) && Checked(codec, manifest, FileMember(last)).Some?
    ensures Expected(front + [last]) ==
            if Expected(front).None? then None
            else ExtractEntry(codec, manifest, Expected(front).value, FileMember(last))
  {
    var entries := front + [last];
    assert entries[..|front|] == front && entries[|front|] == last;
    NextFileIsFree(entries);
    FileIsExtracted(codec, manifest, TreeOf(front), last);
    if NoDrives(front) && !HasDrive(last.rel) {
      assert NoDrives(entries);
    }
    if NoDrives(entries) {
      assert forall i :: 0 <= i < |front| ==> front[i] == entries[i];
      assert NoDrives(front);
    }
  }

  lemma ExtractedLast(codec: Codec, manifest: Manifest, members: seq<TarEntry>, last: TarEntry)
    ensures Extracted(codec, manifest, members + [last]) ==
            var before := Extracted(codec, manifest, members);
            if before.None? then None else ExtractEntry(codec, manifest, before.value, last)
  {
  }

  lemma ComposeIsSkipped(codec: Codec, manifest: Manifest, compose: TarEntry)
    requires compose.name == COMPOSE_NAME
    ensures Extracted(codec, manifest, [compose]) == Some(map[])
  {
    ExtractedLast(codec, manifest, [], compose);
    assert [] + [compose] == [compose];
    assert compose.name[0] != WORKSPACE_PREFIX[0];
  }

  lemma NoFileIsAdded(front: seq<WalkEntry>, last: WalkEntry)
    requires !Packed(last)
    ensures WorkspaceMembers(front + [last]) == WorkspaceMembers(front) && Expected(front + [last]) == Expected(front)
  {
  }

  lemma {:induction false} FilesAreExtracted(
      codec: Codec, manifest: Manifest, compose: TarEntry, entries: seq<WalkEntry>)
    requires FromWalk(entries) && Portable(entries) && compose.name == COMPOSE_NAME
    requires forall m :: m in WorkspaceMembers(entries) ==> Checked(codec, manifest, m).Some?
    ensures Extracted(codec, manifest, [compose] + WorkspaceMembers(entries)) == Expected(entries)
  {
    if entries == [] {
      ComposeIsSkipped(codec, manifest, compose);
      assert [compose] + WorkspaceMembers(entries) == [compose];
    } else {
      var front, last := entries[..|entries| - 1], entries[|entries| - 1];
      assert entries == front + [last];
      FrontIsFromWalk(entries, |entries| - 1);
      FilesAreExtracted(codec, manifest, compose, front);
      if Packed(last) {
        var before := [compose] + WorkspaceMembers(front);
        assert [compose] + WorkspaceMembers(entries) == before + [FileMember(last)];
        assert FileMember(last) in WorkspaceMembers(entries);
        ExtractedLast(codec, manifest, before, FileMember(last));
        NextFileIsExtracted(codec, manifest, front, last);
      } else {
        NoFileIsAdded(front, last);
      }
    }
  }

  lemma {:induction false} VolumesAreSkipped(
      codec: Codec, manifest: Manifest, members: seq<TarEntry>, volumes: seq<TarEntry>)
    requires forall v :: v in volumes ==> !HasPrefix(v.name, WORKSPACE_PREFIX)
    ensures Extracted(codec, manifest, members + volumes) == Extracted(codec, manifest, members)
  {
    if volumes == [] {
      assert members + volumes == members;
    } else {
      var front := volumes[..|volumes| - 1];
      assert (members + volumes)[..|members + volumes| - 1] == members + front;
      VolumesAreSkipped(codec, manifest, members, front);
    }
  }

  lemma FilesAreChecked(codec: Codec, source: Source, archive: seq<TarEntry>, manifest: Manifest, m: TarEntry)
    requires IsPacked(codec, source, archive, manifest) && Accepts(codec, archive, manifest)
    requires m in WorkspaceMembers(source.entries)
    ensures Checked(codec, manifest, m).Some?
  {
    var files := WorkspaceMembers(source.entries);
    var k :| 0 <= k < |files| && files[k] == m;
    assert archive[k + 2] == Members(source)[k + 1] == m;
    AcceptedMember(codec, manifest, archive, k + 1);
  }

  lemma VolumeIsNoFile(volume: string)
    ensures !HasPrefix(VolumeMember(volume), WORKSPACE_PREFIX)
  {
    assert VolumeMember(volume)[0] != WORKSPACE_PREFIX[0];
  }

  lemma MembersAreExtracted(codec: Codec, manifest: Manifest, source: Source)
    requires FromWalk(source.entries) && Portable(source.entries)
    requires forall m :: m in WorkspaceMembers(source.entries) ==> Checked(codec, manifest, m).Some?
    ensures Extracted(codec, manifest, Members(source)) == Expected(source.entries)
  {
    var compose := TarEntry(COMPOSE_NAME, true, source.compose);
    var volumes := VolumeMembers(source.volumes);
    FilesAreExtracted(codec, manifest, compose, source.entries);
    forall v | v in volumes
      ensures !HasPrefix(v.name, WORKSPACE_PREFIX)
    {
      var i :| 0 <= i < |volumes| && v == volumes[i];
      VolumeIsNoFile(source.volumes[i].name);
    }
    VolumesAreSkipped(codec, manifest, [compose] + WorkspaceMembers(source.entries), volumes);
  }

  /** Extracting a verified artifact gives back exactly the packed workspace files
      if no path among them starts like a Windows drive ("a:..."); otherwise
      extraction fails, although creation and verification accepted the artifact. */
  lemma WorkspaceIsRestored(codec: Codec, source: Source, archive: seq<TarEntry>, manifest: Manifest)
    requires FromWalk(source.entries) && Portable(source.entries)
    requires IsPacked(codec, source, archive, manifest) && Accepts(codec, archive, manifest)
    ensures Extracted(codec, manifest, archive[1..]) == Expected(source.entries)
  {
    forall m | m in WorkspaceMembers(source.entries)
      ensures Checked(codec, manifest, m).Some?
    {
      FilesAreChecked(codec, source, archive, manifest, m);
    }
    MembersAreExtracted(codec, manifest, source);
    assert archive[1..] == Members(source);
  }

  // ------------------------------------------------------------------
  // The round trip
  // ------------------------------------------------------------------

  // ReadCompose.
  method ReadCompose(codec: Codec, manifest: Manifest, archive: seq<TarEntry>) returns (result: Option<Bytes>)
    ensures forall k :: FirstNamed(archive, COMPOSE_NAME, k) ==>
      result == if |archive[k].content| > COMPOSE_MAX_BYTES then None else Checked(codec, manifest, archive[k])
    ensures result.Some? ==> |result.value| <= COMPOSE_MAX_BYTES
  {
    result := ReadMember(codec, manifest, archive, COMPOSE_NAME);
    if result.Some? && |result.value| > COMPOSE_MAX_BYTES {
      return None;
    }
  }

  lemma ComposeComesFirst(codec: Codec, source: Source, archive: seq<TarEntry>, manifest: Manifest)
    requires IsPacked(codec, source, archive, manifest) && Accepts(codec, archive, manifest)
    ensures FirstNamed(archive, COMPOSE_NAME, 1)
    ensures Checked(codec, manifest, archive[1]) == Some(source.compose)
  {
  }

  lemma PackedDecodes(codec: Codec, source: Source, archive: seq<TarEntry>, manifest: Manifest)
    requires GoodCodec(codec) && IsPacked(codec, source, archive, manifest)
    ensures forall other :: Accepts(codec, archive, other) ==> other == manifest
  {
  }

  // A regular file of the application other than the compose document, outside the
  // two trees that backups are made in.
  predicate IsUserFile(entry: WalkEntry) {
    && entry.kind == Regular && entry.rel != "compose.yaml"
    && !("backups/" <= entry.rel) && !("backup-staging/" <= entry.rel)
  }

  lemma PackedMeans(entry: WalkEntry)
    ensures Packed(entry) <==> IsUserFile(entry)
  {
    var rel := entry.rel;
    assert HasPrefix(rel, "backups/") <==> "backups/" <= rel;
    assert HasPrefix(rel, "backup-staging/") <==> "backup-staging/" <= rel;
  }

  // Every user file is in the tree, with its content at its path, and nothing else.
  ghost predicate ComesBack(entries: seq<WalkEntry>, tree: Tree) {
    && (forall i :: 0 <= i < |entries| && IsUserFile(entries[i]) ==>
          && Split(entries[i].rel, '/') in tree
          && tree[Split(entries[i].rel, '/')] == entries[i].content)
    && (forall path :: path in tree ==>
          exists i :: 0 <= i < |entries| && IsUserFile(entries[i]) && Split(entries[i].rel, '/') == path)
  }

  /** The extracted tree holds every user file as it was, and nothing else. */
  lemma UserFilesComeBack(entries: seq<WalkEntry>)
    requires FromWalk(entries)
    ensures ComesBack(entries, TreeOf(entries))
  {
    forall i | 0 <= i < |entries| && IsUserFile(entries[i])
      ensures Split(entries[i].rel, '/') in TreeOf(entries)
      ensures TreeOf(entries)[Split(entries[i].rel, '/')] == entries[i].content
    {
      PackedMeans(entries[i]);
      TreeHolds(entries, i);
    }
    forall path | path in TreeOf(entries)
      ensures exists i :: 0 <= i < |entries| && IsUserFile(entries[i]) && Split(entries[i].rel, '/') == path
    {
      var i := TreeHoldsOnly(entries, path);
      PackedMeans(entries[i]);
    }
  }

  /** Every volume is read back under its name from an artifact that is accepted. */
  lemma VolumesComeBack(codec: Codec, source: Source, archive: seq<TarEntry>, manifest: Manifest, i: nat)
    returns (k: nat)
    requires IsPacked(codec, source, archive, manifest) && Accepts(codec, archive, manifest)
    requires i < |source.volumes|
    ensures k < |archive| && FirstNamed(archive, "volumes/" + source.volumes[i].name + ".tar", k)
    ensures Checked(codec, manifest, archive[k]) == Some(source.volumes[i].tar)
  {
    var volume := source.volumes[i];
    k := 2 + |WorkspaceMembers(source.entries)| + i;
    assert archive[k] == TarEntry(VolumeMember(volume.name), true, volume.tar);
    AcceptedMember(codec, manifest, archive, k - 1);
    AcceptedIsReadable(codec, manifest, archive, k - 1);
  }

  datatype Outcome = Refused | Unverifiable | Restored(compose: Option<Bytes>, workspace: Option<Tree>)

  /** Packing a source, opening the artifact and reading it back. */
  method BackUpAndRestore(codec: Codec, source: Source) returns (outcome: Outcome, ghost manifest: Manifest)
    requires GoodCodec(codec) && FromWalk(source.entries)
    ensures outcome.Refused? <==> !Allowed(source)
    ensures Allowed(source) ==> Describes(codec, manifest, source)
    ensures outcome.Restored? <==> Allowed(source) && Verifiable(codec, source, manifest)
    ensures outcome.Restored? ==>
              outcome.compose == Some(source.compose) && outcome.workspace == Expected(source.entries)
    ensures outcome.Restored? && outcome.workspace.Some? ==> ComesBack(source.entries, outcome.workspace.value)
  {
    var packed := Pack(codec, source);
    if packed.None? {
      manifest := *;
      return Refused, manifest;
    }
    var archive := packed.value.0;
    manifest := packed.value.1;
    PackedIsAccepted(codec, source, archive, manifest);
    var reader := Verify(codec, archive);
    if reader.None? {
      return Unverifiable, manifest;
    }
    assert Accepts(codec, archive, reader.value);
    PackedDecodes(codec, source, archive, manifest);
    ComposeComesFirst(codec, source, archive, manifest);
    WorkspaceIsRestored(codec, source, archive, manifest);
    UserFilesComeBack(source.entries);
    var compose := ReadCompose(codec, reader.value, archive);
    var workspace := ExtractWorkspace(codec, reader.value, archive);
    return Restored(compose, workspace), manifest;
  }

  // An application with a one-byte compose document and one empty workspace file.
  function OneFile(rel: string): Source {
    Source("app", "2025-01-02T03:04:05Z", [1], [WalkEntry(rel, Regular, [])], [])
  }

  lemma OneFileIsAllowed(rel: string)
    requires |rel| == 3 && '/' !in rel && NUL !in rel
    ensures Allowed(OneFile(rel)) && FromWalk(OneFile(rel).entries) && Packed(OneFile(rel).entries[0])
  {
    SplitAlone(rel, '/');
    assert !HasPrefix(rel, ARTIFACT_TREE) && !HasPrefix(rel, STAGING_TREE);
  }

  /** A workspace file called a\b is packed into an artifact that is then refused. */
  lemma BackslashIsUnverifiable(codec: Codec, archive: seq<TarEntry>, manifest: Manifest, rel: string)
    requires rel == "a\\b" && GoodCodec(codec) && IsPacked(codec, OneFile(rel), archive, manifest)
    ensures Allowed(OneFile(rel)) && !Accepts(codec, archive, manifest)
  {
    OneFileIsAllowed(rel);
    PackedIsAccepted(codec, OneFile(rel), archive, manifest);
    assert '\\' in OneFile(rel).entries[0].rel;
  }

  /** A workspace file called a:b is packed into an artifact that is accepted, if
      its timestamp and manifest are, and then cannot be extracted. */
  lemma DriveIsUnextractable(codec: Codec, archive: seq<TarEntry>, manifest: Manifest, rel: string)
    requires rel == "a:b" && GoodCodec(codec) && IsPacked(codec, OneFile(rel), archive, manifest)
    requires codec.isTimestamp(OneFile(rel).createdAt) && |codec.encode(manifest)| <= MANIFEST_MAX_BYTES
    ensures Allowed(OneFile(rel)) && Accepts(codec, archive, manifest)
    ensures Extracted(codec, manifest, archive[1..]) == None
  {
    OneFileIsAllowed(rel);
    var entries := OneFile(rel).entries;
    assert Portable(entries);
    PackedIsAccepted(codec, OneFile(rel), archive, manifest);
    WorkspaceIsRestored(codec, OneFile(rel), archive, manifest);
    assert Packed(entries[0]) && HasDrive(entries[0].rel);
  }
}
