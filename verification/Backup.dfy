/** Backup artifacts of plugins/docker-app/backup_artifact.go: how they are
    packed, verified and read back.

    An artifact is the sequence of its tar members. SHA-256, the JSON codec of the
    manifest and the timestamp syntax are parameters; tar and zstd are taken to
    give back what was written. */
module Backup {

  import opened Encodings
  import opened BackupNames
  import opened Strings

  type Bytes = seq<Byte>

  const MANIFEST_NAME := "manifest.json"
  const ARTIFACT_TREE := "backups/"
  const STAGING_TREE := "backup-staging/"
  const MANIFEST_MAX_BYTES := 0x10_0000
  const COMPOSE_MAX_BYTES := 0x10_0000
  const VOLUME_MAX := 256
  const VERSION := 1
  const ZSTD := "zstd"

  datatype Member = Member(name: string, sha256: string, size: int)

  datatype Manifest = Manifest(
    version: int, appId: string, createdAt: string, compression: string,
    payloadSha256: string, payloadSize: int, members: seq<Member>)

  datatype TarEntry = TarEntry(name: string, regular: bool, content: Bytes)

  // What a walk of the workspace meets that is not a directory.
  datatype Kind = Regular | Symlink | Irregular
  datatype WalkEntry = WalkEntry(rel: string, kind: Kind, content: Bytes)
  datatype Volume = Volume(name: string, tar: Bytes)
  datatype Source = Source(
    appId: string, createdAt: string, compose: Bytes, entries: seq<WalkEntry>, volumes: seq<Volume>)

  datatype Codec = Codec(
    digest: Bytes -> string, encode: Manifest -> Bytes, decode: Bytes -> Option<Manifest>, isTimestamp: string -> bool)

  // What is assumed of SHA-256 in hexadecimal and of JSON. Nothing is assumed
  // about collisions.
  ghost predicate GoodCodec(codec: Codec) {
    && (forall bytes :: IsSha256Hex(codec.digest(bytes)))
    && (forall manifest :: codec.decode(codec.encode(manifest)) == Some(manifest))
  }

  function Payload(members: seq<TarEntry>): Bytes {
    if members == [] then [] else Payload(members[..|members| - 1]) + members[|members| - 1].content
  }

  // ------------------------------------------------------------------
  // Verification
  // ------------------------------------------------------------------

  ghost predicate DistinctNames(members: seq<Member>) {
    forall i, j :: 0 <= i < j < |members| ==> members[i].name != members[j].name
  }

  predicate ValidMember(member: Member) {
    ValidMemberName(member.name) && IsSha256Hex(member.sha256) && member.size >= 0
  }

  predicate ValidHeader(codec: Codec, manifest: Manifest) {
    && manifest.version == VERSION && ValidId(manifest.appId) && codec.isTimestamp(manifest.createdAt)
    && manifest.compression == ZSTD && IsSha256Hex(manifest.payloadSha256) && manifest.payloadSize >= 0
  }

  ghost predicate ValidMembers(members: seq<Member>) {
    forall i {:trigger ValidMember(members[i])} :: 0 <= i < |members| ==> ValidMember(members[i])
  }

  ghost predicate ValidManifest(codec: Codec, manifest: Manifest) {
    && ValidHeader(codec, manifest)
    && ValidMembers(manifest.members)
    && DistinctNames(manifest.members)
    && exists i :: 0 <= i < |manifest.members| && manifest.members[i].name == COMPOSE_NAME
  }

  predicate MatchesMember(codec: Codec, want: Member, entry: TarEntry) {
    && entry.name == want.name && entry.regular
    && |entry.content| == want.size && codec.digest(entry.content) == want.sha256
  }

  // The members are those of the manifest, in its order, with its digests.
  ghost predicate Matches(codec: Codec, manifest: Manifest, members: seq<TarEntry>) {
    && |members| == |manifest.members|
    && (forall i :: 0 <= i < |members| ==> MatchesMember(codec, manifest.members[i], members[i]))
    && manifest.payloadSize == |Payload(members)|
    && manifest.payloadSha256 == codec.digest(Payload(members))
  }

  ghost predicate Accepts(codec: Codec, archive: seq<TarEntry>, manifest: Manifest) {
    && archive != []
    && archive[0].name == MANIFEST_NAME && archive[0].regular && |archive[0].content| <= MANIFEST_MAX_BYTES
    && codec.decode(archive[0].content) == Some(manifest)
    && ValidManifest(codec, manifest)
    && Matches(codec, manifest, archive[1..])
  }

  method CheckMembers(members: seq<Member>, valid: Member -> bool) returns (ok: bool)
    ensures ok <==>
      && (forall i :: 0 <= i < |members| ==> valid(members[i])) && DistinctNames(members)
      && exists i :: 0 <= i < |members| && members[i].name == COMPOSE_NAME
  {
    var seen: set<string> := {};
    var hasCompose := false;
    for i := 0 to |members|
      invariant forall k :: 0 <= k < i ==> valid(members[k])
      invariant seen == set k | 0 <= k < i :: members[k].name
      invariant DistinctNames(members[..i])
      invariant hasCompose <==> exists k :: 0 <= k < i && members[k].name == COMPOSE_NAME
    {
      if !valid(members[i]) || members[i].name in seen {
        return false;
      }
      seen := seen + {members[i].name};
      hasCompose := hasCompose || members[i].name == COMPOSE_NAME;
    }
    assert members[..|members|] == members;
    return hasCompose;
  }

  method ValidateManifest(codec: Codec, manifest: Manifest) returns (ok: bool)
    ensures ok <==> ValidManifest(codec, manifest)
  {
    if !ValidHeader(codec, manifest) {
      return false;
    }
    ok := CheckMembers(manifest.members, ValidMember);
  }

  method MatchMembers(codec: Codec, manifest: Manifest, members: seq<TarEntry>) returns (ok: bool)
    ensures ok <==> Matches(codec, manifest, members)
  {
    var payload: Bytes := [];
    var payloadSize := 0;
    for i := 0 to |manifest.members|
      invariant i <= |members|
      invariant forall k :: 0 <= k < i ==> MatchesMember(codec, manifest.members[k], members[k])
      invariant payload == Payload(members[..i]) && payloadSize == |payload|
    {
      if i == |members| || !MatchesMember(codec, manifest.members[i], members[i]) {
        return false;
      }
      assert members[..i + 1][..i] == members[..i];
      payload := payload + members[i].content;
      payloadSize := payloadSize + |members[i].content|;
    }
    if |members| > |manifest.members| {
      return false;
    }
    assert members[..|members|] == members;
    return payloadSize == manifest.payloadSize && codec.digest(payload) == manifest.payloadSha256;
  }

  /** verifyBackupArtifact decides exactly whether the artifact is its manifest's
      members, in order, with the recorded sizes, digests and payload sum. */
  method Verify(codec: Codec, archive: seq<TarEntry>) returns (result: Option<Manifest>)
    ensures forall manifest :: Accepts(codec, archive, manifest) <==> result == Some(manifest)
  {
    if archive == [] || archive[0].name != MANIFEST_NAME || !archive[0].regular ||
       |archive[0].content| > MANIFEST_MAX_BYTES {
      return None;
    }
    var decoded := codec.decode(archive[0].content);
    if decoded.None? {
      return None;
    }
    var ok := ValidateManifest(codec, decoded.value);
    if !ok {
      return None;
    }
    ok := MatchMembers(codec, decoded.value, archive[1..]);
    return if ok then decoded else None;
  }

  // ------------------------------------------------------------------
  // Packing
  // ------------------------------------------------------------------

  // Files below backups/ and backup-staging/ are never visited.
  predicate Owned(rel: string) {
    HasPrefix(rel, ARTIFACT_TREE) || HasPrefix(rel, STAGING_TREE)
  }

  predicate Stops(entry: WalkEntry) {
    !Owned(entry.rel) && entry.kind != Regular
  }

  predicate Packed(entry: WalkEntry) {
    !Owned(entry.rel) && entry.kind == Regular && entry.rel != COMPOSE_NAME
  }

  function FileMember(entry: WalkEntry): TarEntry {
    TarEntry(WorkspaceMember(entry.rel), true, entry.content)
  }

  function WorkspaceMembers(entries: seq<WalkEntry>): seq<TarEntry> {
    if entries == [] then [] else
      var last := entries[|entries| - 1];
      WorkspaceMembers(entries[..|entries| - 1])
      + if Packed(last) then [FileMember(last)] else []
  }

  function VolumeMembers(volumes: seq<Volume>): seq<TarEntry> {
    seq(|volumes|, i requires 0 <= i < |volumes| => TarEntry(VolumeMember(volumes[i].name), true, volumes[i].tar))
  }

  function Members(source: Source): seq<TarEntry> {
    [TarEntry(COMPOSE_NAME, true, source.compose)] + WorkspaceMembers(source.entries) + VolumeMembers(source.volumes)
  }

  ghost predicate ValidVolumes(volumes: seq<Volume>) {
    && (forall i :: 0 <= i < |volumes| ==> ValidVolumeName(volumes[i].name))
    && (forall i, j :: 0 <= i < j < |volumes| ==> volumes[i].name != volumes[j].name)
  }

  // What creation itself checks.
  ghost predicate Allowed(source: Source) {
    && ValidId(source.appId)
    && 0 < |source.compose| <= COMPOSE_MAX_BYTES && 0 !in source.compose
    && |source.volumes| <= VOLUME_MAX && ValidVolumes(source.volumes)
    && forall i :: 0 <= i < |source.entries| ==> !Stops(source.entries[i])
  }

  ghost predicate Describes(codec: Codec, manifest: Manifest, source: Source) {
    && manifest.version == VERSION && manifest.appId == source.appId && manifest.createdAt == source.createdAt
    && manifest.compression == ZSTD
    && Matches(codec, manifest, Members(source))
  }

  // The artifact written for a source.
  ghost predicate IsPacked(codec: Codec, source: Source, archive: seq<TarEntry>, manifest: Manifest) {
    && Describes(codec, manifest, source)
    && archive == [TarEntry(MANIFEST_NAME, true, codec.encode(manifest))] + Members(source)
  }

  method CheckVolumes(volumes: seq<Volume>) returns (ok: bool)
    ensures ok <==> ValidVolumes(volumes)
  {
    var seen: set<string> := {};
    for i := 0 to |volumes|
      invariant seen == set k | 0 <= k < i :: volumes[k].name
      invariant forall k :: 0 <= k < i ==> ValidVolumeName(volumes[k].name)
      invariant forall j, k :: 0 <= j < k < i ==> volumes[j].name != volumes[k].name
    {
      if !ValidVolumeName(volumes[i].name) || volumes[i].name in seen {
        return false;
      }
      seen := seen + {volumes[i].name};
    }
    return true;
  }

  method StageMembers(source: Source) returns (result: Option<seq<TarEntry>>)
    ensures result.Some? <==> forall i :: 0 <= i < |source.entries| ==> !Stops(source.entries[i])
    ensures result.Some? ==> result.value == Members(source)
  {
    var entries, volumes := source.entries, source.volumes;
    var compose := [TarEntry(COMPOSE_NAME, true, source.compose)];
    var staged := compose;
    for i := 0 to |entries|
      invariant forall k :: 0 <= k < i ==> !Stops(entries[k])
      invariant staged == compose + WorkspaceMembers(entries[..i])
    {
      if Stops(entries[i]) {
        return None;
      }
      assert entries[..i + 1][..i] == entries[..i];
      if Packed(entries[i]) {
        staged := staged + [FileMember(entries[i])];
      }
    }
    assert entries[..|entries|] == entries;
    for i := 0 to |volumes|
      invariant staged == compose + WorkspaceMembers(entries) + VolumeMembers(volumes)[..i]
    {
      staged := staged + [TarEntry(VolumeMember(volumes[i].name), true, volumes[i].tar)];
    }
    return Some(staged);
  }

  method HashMembers(codec: Codec, staged: seq<TarEntry>, appId: string, createdAt: string) returns (manifest: Manifest)
    requires forall i :: 0 <= i < |staged| ==> staged[i].regular
    ensures manifest.version == VERSION && manifest.appId == appId && manifest.createdAt == createdAt
    ensures manifest.compression == ZSTD && Matches(codec, manifest, staged)
  {
    var members: seq<Member> := [];
    var payload: Bytes := [];
    var payloadSize := 0;
    for i := 0 to |staged|
      invariant |members| == i
      invariant forall k :: 0 <= k < i ==> MatchesMember(codec, members[k], staged[k])
      invariant payload == Payload(staged[..i]) && payloadSize == |payload|
    {
      var content := staged[i].content;
      assert staged[..i + 1][..i] == staged[..i];
      members := members + [Member(staged[i].name, codec.digest(content), |content|)];
      payload := payload + content;
      payloadSize := payloadSize + |content|;
    }
    assert staged[..|staged|] == staged;
    manifest := Manifest(VERSION, appId, createdAt, ZSTD, codec.digest(payload), payloadSize, members);
  }

  lemma {:induction false} WorkspaceMembersAreFiles(entries: seq<WalkEntry>)
    ensures forall m :: m in WorkspaceMembers(entries) ==> m.regular
  {
    if entries != [] {
      WorkspaceMembersAreFiles(entries[..|entries| - 1]);
    }
  }

  /** CreateBackupArtifact succeeds exactly on the sources it allows, and then the
      artifact is the manifest followed by the compose document, the workspace
      files and the volumes, all described by the manifest. */
  method Pack(codec: Codec, source: Source) returns (result: Option<(seq<TarEntry>, Manifest)>)
    ensures result.Some? <==> Allowed(source)
    ensures result.Some? ==> IsPacked(codec, source, result.value.0, result.value.1)
  {
    if !ValidId(source.appId) || source.compose == [] || |source.compose| > COMPOSE_MAX_BYTES ||
       0 in source.compose || |source.volumes| > VOLUME_MAX {
      return None;
    }
    var ok := CheckVolumes(source.volumes);
    if !ok {
      return None;
    }
    var staged := StageMembers(source);
    if staged.None? {
      return None;
    }
    assert forall i :: 0 <= i < |staged.value| ==> staged.value[i].regular by {
      WorkspaceMembersAreFiles(source.entries);
    }
    var manifest := HashMembers(codec, staged.value, source.appId, source.createdAt);
    return Some(([TarEntry(MANIFEST_NAME, true, codec.encode(manifest))] + staged.value, manifest));
  }

  // ------------------------------------------------------------------
  // What is packed is accepted
  // ------------------------------------------------------------------

  predicate Below(a: WalkEntry, b: WalkEntry) {
    Split(b.rel, '/') <= Split(a.rel, '/')
  }

  // The entries of one walk: their paths are plain and name different files, and
  // no file lies below another.
  ghost predicate FromWalk(entries: seq<WalkEntry>) {
    && (forall i {:trigger IsWalkPath(entries[i].rel)} :: 0 <= i < |entries| ==> IsWalkPath(entries[i].rel))
    && (forall i, j {:trigger Below(entries[i], entries[j])} ::
          0 <= i < |entries| && 0 <= j < |entries| && i != j ==> !Below(entries[i], entries[j]))
  }

  lemma FrontIsFromWalk(entries: seq<WalkEntry>, n: nat)
    requires FromWalk(entries) && n <= |entries|
    ensures FromWalk(entries[..n])
  {
  }

  ghost predicate Portable(entries: seq<WalkEntry>) {
    forall i :: 0 <= i < |entries| && Packed(entries[i]) ==>
      |entries[i].rel| <= NAME_MAX - |WORKSPACE_PREFIX| && '\\' !in entries[i].rel
  }

  lemma {:induction false} MemberIsAFile(entries: seq<WalkEntry>, k: nat) returns (i: nat)
    requires k < |WorkspaceMembers(entries)|
    ensures i < |entries| && Packed(entries[i]) && WorkspaceMembers(entries)[k] == FileMember(entries[i])
  {
    var front := entries[..|entries| - 1];
    if k < |WorkspaceMembers(front)| {
      i := MemberIsAFile(front, k);
    } else {
      i := |entries| - 1;
    }
  }

  lemma {:induction false} FileIsAMember(entries: seq<WalkEntry>, i: nat) returns (k: nat)
    requires i < |entries| && Packed(entries[i])
    ensures k < |WorkspaceMembers(entries)| && WorkspaceMembers(entries)[k] == FileMember(entries[i])
  {
    var front := entries[..|entries| - 1];
    if i < |front| {
      k := FileIsAMember(front, i);
    } else {
      k := |WorkspaceMembers(front)|;
    }
  }

  ghost predicate DistinctEntries(members: seq<TarEntry>) {
    forall i, j :: 0 <= i < j < |members| ==> members[i].name != members[j].name
  }

  lemma {:induction false} WorkspaceNamesDiffer(entries: seq<WalkEntry>)
    requires FromWalk(entries)
    ensures DistinctEntries(WorkspaceMembers(entries))
  {
    if entries != [] {
      var front, last := entries[..|entries| - 1], entries[|entries| - 1];
      FrontIsFromWalk(entries, |entries| - 1);
      WorkspaceNamesDiffer(front);
      var before := WorkspaceMembers(front);
      forall k | 0 <= k < |before|
        ensures before[k].name != WorkspaceMember(last.rel)
      {
        var i := MemberIsAFile(front, k);
        assert front[i] == entries[i] && !Below(entries[i], last);
        assert WorkspaceMember(front[i].rel)[10..] == front[i].rel && WorkspaceMember(last.rel)[10..] == last.rel;
      }
    }
  }

  // Which of the three parts a member belongs to shows in its first letter.
  lemma PartsDiffer(source: Source, k: nat)
    requires k < |Members(source)|
    ensures |Members(source)[k].name| > 0
    ensures Members(source)[k].name[0] ==
            if k == 0 then 'c' else if k <= |WorkspaceMembers(source.entries)| then 'w' else 'v'
  {
    if 0 < k <= |WorkspaceMembers(source.entries)| {
      var _ := MemberIsAFile(source.entries, k - 1);
    }
  }

  lemma MemberNamesDiffer(source: Source)
    requires FromWalk(source.entries) && ValidVolumes(source.volumes)
    ensures DistinctEntries(Members(source))
  {
    var members, n := Members(source), |WorkspaceMembers(source.entries)|;
    WorkspaceNamesDiffer(source.entries);
    forall i, j | 0 <= i < j < |members|
      ensures members[i].name != members[j].name
    {
      PartsDiffer(source, i);
      PartsDiffer(source, j);
      if i > n {
        var a, b := source.volumes[i - n - 1].name, source.volumes[j - n - 1].name;
        assert VolumeMember(a)[8..|VolumeMember(a)| - 4] == a && VolumeMember(b)[8..|VolumeMember(b)| - 4] == b;
      }
    }
  }

  lemma MemberNameIsValid(source: Source, k: nat)
    requires FromWalk(source.entries) && ValidVolumes(source.volumes) && Portable(source.entries)
    requires k < |Members(source)|
    ensures ValidMemberName(Members(source)[k].name)
  {
    var name, n := Members(source)[k].name, |WorkspaceMembers(source.entries)|;
    if k == 0 {
      ComposeNameIsValid(name);
    } else if k <= n {
      var i := MemberIsAFile(source.entries, k - 1);
      assert name == WorkspaceMember(source.entries[i].rel);
      WorkspaceMemberIsValid(source.entries[i].rel);
    } else {
      var volume := source.volumes[k - n - 1].name;
      assert name == VolumeMember(volume);
      VolumeMemberIsValid(volume);
    }
  }

  lemma ValidNamesArePortable(source: Source)
    requires FromWalk(source.entries)
    requires forall k {:trigger ValidMemberName(Members(source)[k].name)} ::
               0 <= k < |Members(source)| ==> ValidMemberName(Members(source)[k].name)
    ensures Portable(source.entries)
  {
    forall i | 0 <= i < |source.entries| && Packed(source.entries[i])
      ensures |source.entries[i].rel| <= NAME_MAX - |WORKSPACE_PREFIX| && '\\' !in source.entries[i].rel
    {
      var k := FileIsAMember(source.entries, i);
      assert Members(source)[k + 1] == FileMember(source.entries[i]);
      assert ValidMemberName(Members(source)[k + 1].name);
      WorkspaceMemberIsValid(source.entries[i].rel);
    }
  }

  // What verification asks and creation does not check.
  ghost predicate Verifiable(codec: Codec, source: Source, manifest: Manifest) {
    && Portable(source.entries) && codec.isTimestamp(source.createdAt)
    && |codec.encode(manifest)| <= MANIFEST_MAX_BYTES
  }

  lemma PackedMember(codec: Codec, source: Source, manifest: Manifest, i: nat)
    requires GoodCodec(codec) && Describes(codec, manifest, source) && i < |Members(source)|
    ensures manifest.members[i].name == Members(source)[i].name
    ensures ValidMember(manifest.members[i]) <==> ValidMemberName(Members(source)[i].name)
  {
  }

  lemma PackedMembersAreValid(codec: Codec, source: Source, manifest: Manifest)
    requires GoodCodec(codec) && FromWalk(source.entries) && ValidVolumes(source.volumes)
    requires Describes(codec, manifest, source)
    ensures ValidMembers(manifest.members) <==> Portable(source.entries)
  {
    if Portable(source.entries) {
      forall i | 0 <= i < |Members(source)|
        ensures ValidMember(manifest.members[i])
      {
        PackedMember(codec, source, manifest, i);
        MemberNameIsValid(source, i);
      }
    } else if ValidMembers(manifest.members) {
      forall i | 0 <= i < |Members(source)|
        ensures ValidMemberName(Members(source)[i].name)
      {
        PackedMember(codec, source, manifest, i);
      }
      ValidNamesArePortable(source);
    }
  }

  lemma PackedNamesDiffer(codec: Codec, source: Source, manifest: Manifest)
    requires FromWalk(source.entries) && ValidVolumes(source.volumes) && Describes(codec, manifest, source)
    ensures DistinctNames(manifest.members) && manifest.members[0].name == COMPOSE_NAME
  {
    MemberNamesDiffer(source);
    forall i | 0 <= i < |Members(source)|
      ensures manifest.members[i].name == Members(source)[i].name
    {
      assert MatchesMember(codec, manifest.members[i], Members(source)[i]);
    }
  }

  /** Every artifact that creation writes is accepted, and gives its manifest back,
      exactly when no packed path is longer than 502 bytes or holds a backslash,
      the timestamp parses, and the manifest takes at most 1 MiB. Creation checks
      none of the three. */
  lemma PackedIsAccepted(codec: Codec, source: Source, archive: seq<TarEntry>, manifest: Manifest)
    requires GoodCodec(codec) && Allowed(source) && FromWalk(source.entries)
    requires IsPacked(codec, source, archive, manifest)
    ensures Accepts(codec, archive, manifest) <==> Verifiable(codec, source, manifest)
  {
    assert archive[1..] == Members(source);
    PackedMembersAreValid(codec, source, manifest);
    PackedNamesDiffer(codec, source, manifest);
  }
}
