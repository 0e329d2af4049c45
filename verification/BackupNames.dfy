/** Member names of backup artifacts: the name rules at the end of
    plugins/docker-app/backup_artifact.go. A string is its sequence of bytes, one
    character each. */
module BackupNames {

  import opened Encodings
  import opened Strings

  const COMPOSE_NAME := "compose.yaml"
  const WORKSPACE_PREFIX := "workspace/"
  const VOLUME_PREFIX := "volumes/"
  const VOLUME_SUFFIX := ".tar"
  const VOLUME_NAME_MAX := 128
  const NAME_MAX := 512

  // path.Clean of a relative path, as the components it leaves. None when a ".."
  // has no earlier component to cancel, so that the clean path starts with "..".
  function Clean(parts: seq<string>, kept: seq<string>): Option<seq<string>> {
    if parts == [] then Some(kept)
    else if parts[0] == "" || parts[0] == "." then Clean(parts[1..], kept)
    else if parts[0] == ".." then
      if kept == [] then None else Clean(parts[1..], kept[..|kept| - 1])
    else Clean(parts[1..], kept + [parts[0]])
  }

  // One name deeper, or one less for two dots.
  function Weight(part: string): int {
    if part == "" || part == "." then 0 else if part == ".." then -1 else 1
  }

  function Depth(parts: seq<string>): int {
    if parts == [] then 0 else Weight(parts[0]) + Depth(parts[1..])
  }

  // On the way some directory above the start is reached.
  ghost predicate Escapes(parts: seq<string>, depth: int) {
    exists n :: 0 <= n <= |parts| && depth + Depth(parts[..n]) < 0
  }

  lemma EscapesLater(parts: seq<string>, depth: nat)
    requires parts != []
    ensures Escapes(parts, depth) <==> Escapes(parts[1..], depth + Weight(parts[0]))
  {
    forall n | 0 <= n < |parts|
      ensures Depth(parts[..n + 1]) == Weight(parts[0]) + Depth(parts[1..][..n])
    {
      assert parts[..n + 1][1..] == parts[1..][..n];
    }
    if Escapes(parts, depth) {
      var n :| 0 <= n <= |parts| && depth + Depth(parts[..n]) < 0;
      assert n > 0 && depth + Weight(parts[0]) + Depth(parts[1..][..n - 1]) < 0;
    }
    if Escapes(parts[1..], depth + Weight(parts[0])) {
      var n :| 0 <= n <= |parts| - 1 && depth + Weight(parts[0]) + Depth(parts[1..][..n]) < 0;
      assert depth + Depth(parts[..n + 1]) < 0;
    }
  }

  /** A path is refused exactly when it climbs above its start somewhere on the way. */
  lemma {:induction false} CleanRefusesEscapes(parts: seq<string>, kept: seq<string>)
    ensures Clean(parts, kept).None? <==> Escapes(parts, |kept|)
  {
    if parts != [] {
      EscapesLater(parts, |kept|);
      if parts[0] == "" || parts[0] == "." {
        CleanRefusesEscapes(parts[1..], kept);
      } else if parts[0] == ".." {
        if kept == [] {
          assert parts[1..][..0] == [] && -1 + Depth([]) < 0;
        } else {
          CleanRefusesEscapes(parts[1..], kept[..|kept| - 1]);
        }
      } else {
        CleanRefusesEscapes(parts[1..], kept + [parts[0]]);
      }
    } else {
      assert forall n :: 0 <= n <= |parts| ==> parts[..n] == [];
    }
  }

  // A path as a file system walk reports it.
  predicate Plain(parts: seq<string>) {
    "" !in parts && "." !in parts && ".." !in parts
  }

  /** What is left of a path that is not refused are names only, so it stays below
      its start. */
  lemma {:induction false} CleanedIsPlain(parts: seq<string>, kept: seq<string>)
    requires Plain(kept)
    ensures Clean(parts, kept).Some? ==> Plain(Clean(parts, kept).value)
  {
    if parts != [] {
      if parts[0] == "" || parts[0] == "." {
        CleanedIsPlain(parts[1..], kept);
      } else if parts[0] == ".." {
        if kept != [] {
          CleanedIsPlain(parts[1..], kept[..|kept| - 1]);
        }
      } else {
        CleanedIsPlain(parts[1..], kept + [parts[0]]);
      }
    }
  }

  predicate IsLetter(c: char) {
    'a' <= c <= 'z' || 'A' <= c <= 'Z'
  }

  predicate IsAlnum(c: char) {
    IsLetter(c) || '0' <= c <= '9'
  }

  predicate HasDrive(name: string) {
    |name| >= 2 && name[1] == ':' && IsLetter(name[0])
  }

  // safeBackupEntryName: where the entry goes below the extraction root.
  function SafePath(name: string): Option<seq<string>> {
    if name == "" || |name| > NAME_MAX || NUL in name || '\\' in name then None
    else if name[0] == '/' || HasDrive(name) then None
    else Clean(Split(name, '/'), [])
  }

  // Whether "/../" occurs in the name.
  predicate HasDotDot(name: string) {
    |name| >= 4 && (name[..4] == "/../" || HasDotDot(name[1..]))
  }

  // validBackupMemberName.
  predicate ValidMemberName(name: string) {
    && SafePath(name).Some? && !HasDotDot(name)
    && (|| name == COMPOSE_NAME
        || (HasPrefix(name, WORKSPACE_PREFIX) && |name| > |WORKSPACE_PREFIX|)
        || (HasPrefix(name, VOLUME_PREFIX) && HasSuffix(name, VOLUME_SUFFIX)
            && |name| > |VOLUME_PREFIX| + |VOLUME_SUFFIX|))
  }

  // validBackupVolumeName.
  predicate ValidVolumeName(name: string) {
    && 0 < |name| <= VOLUME_NAME_MAX
    && IsAlnum(name[0])
    && forall i :: 1 <= i < |name| ==> IsAlnum(name[i]) || name[i] in "_.-"
  }

  /** Which characters may follow in a volume name, and how many. */
  lemma VolumeNameGrows(name: string, c: char)
    ensures !ValidVolumeName("") && (ValidVolumeName([c]) <==> IsAlnum(c))
    ensures name != "" ==>
              (ValidVolumeName(name + [c]) <==>
               ValidVolumeName(name) && |name| < 128 && (IsAlnum(c) || c == '_' || c == '.' || c == '-'))
  {
    if name != "" {
      var longer := name + [c];
      assert longer[|name|] == c;
      assert forall i :: 0 <= i < |name| ==> longer[i] == name[i];
    }
  }

  function VolumeMember(volume: string): string {
    VOLUME_PREFIX + volume + VOLUME_SUFFIX
  }

  function WorkspaceMember(rel: string): string {
    WORKSPACE_PREFIX + rel
  }

  // validID.
  predicate ValidId(value: string) {
    && 0 < |value| <= 64 && value[0] != '-' && value[|value| - 1] != '-'
    && forall i :: 0 <= i < |value| ==> 'a' <= value[i] <= 'z' || '0' <= value[i] <= '9' || value[i] == '-'
  }

  predicate IsWalkPath(rel: string) {
    NUL !in rel && Plain(Split(rel, '/'))
  }

  lemma StartsEmpty(name: string)
    requires name == "" || name[0] == '/'
    ensures "" in Split(name, '/')
  {
  }

  lemma {:induction false} DotDotIsAComponent(name: string)
    requires HasDotDot(name)
    ensures ".." in Split(name, '/')[1..]
  {
    if name[..4] == "/../" {
      assert name == "" + "/" + (".." + "/" + name[4..]);
      SplitAfter("", ".." + "/" + name[4..], '/');
      SplitAfter("..", name[4..], '/');
      assert Split(name, '/')[1] == "..";
    } else {
      DotDotIsAComponent(name[1..]);
      assert Split(name, '/')[1..] == Split(name[1..], '/') || Split(name, '/')[1..] == Split(name[1..], '/')[1..];
    }
  }

  lemma {:induction false} CleanKeepsPlain(parts: seq<string>, kept: seq<string>)
    requires Plain(parts)
    ensures Clean(parts, kept) == Some(kept + parts)
  {
    if parts == [] {
      assert kept + parts == kept;
    } else {
      CleanKeepsPlain(parts[1..], kept + [parts[0]]);
      assert kept + [parts[0]] + parts[1..] == kept + parts;
    }
  }

  lemma MemberBelow(dir: string, name: string)
    requires Plain([dir]) && '/' !in dir && Plain(Split(name, '/'))
    ensures Clean(Split(dir + "/" + name, '/'), []) == Some([dir] + Split(name, '/'))
    ensures !HasDotDot(dir + "/" + name)
  {
    SplitAfter(dir, name, '/');
    var parts := [dir] + Split(name, '/');
    CleanKeepsPlain(parts, []);
    assert [] + parts == parts;
    if HasDotDot(dir + "/" + name) {
      DotDotIsAComponent(dir + "/" + name);
      assert false;
    }
  }

  lemma {:induction false} NoSlashNoDotDot(name: string)
    requires '/' !in name
    ensures !HasDotDot(name)
  {
    if |name| >= 4 {
      assert name[..4][0] == name[0];
      NoSlashNoDotDot(name[1..]);
    }
  }

  /** It is extracted again exactly when, on its own, it does not look like a path
      on a Windows drive. */
  lemma WalkPathIsSafe(rel: string)
    requires IsWalkPath(rel) && |rel| <= NAME_MAX && '\\' !in rel
    ensures SafePath(rel) == if HasDrive(rel) then None else Some(Split(rel, '/'))
  {
    var parts := Split(rel, '/');
    if rel == "" || rel[0] == '/' {
      StartsEmpty(rel);
      assert false;
    }
    CleanKeepsPlain(parts, []);
    assert [] + parts == parts;
  }

  lemma FileNameIsSafe(name: string)
    requires 0 < |name| <= NAME_MAX && name != "." && name != ".." && !HasDrive(name)
    requires '/' !in name && NUL !in name && '\\' !in name
    ensures SafePath(name).Some? && !HasDotDot(name)
  {
    NoSlashNoDotDot(name);
    SplitAlone(name, '/');
    WalkPathIsSafe(name);
  }

  lemma ComposeNameIsValid(name: string)
    requires name == COMPOSE_NAME
    ensures ValidMemberName(name)
  {
    FileNameIsSafe(name);
  }

  lemma VolumeFile(volume: string)
    requires ValidVolumeName(volume)
    ensures var file := volume + VOLUME_SUFFIX;
      '/' !in file && NUL !in file && '\\' !in file && Plain([file])
  {
  }

  /** Every volume name that creation accepts becomes a member name that
      verification accepts. */
  lemma VolumeMemberIsValid(volume: string)
    requires ValidVolumeName(volume)
    ensures ValidMemberName(VolumeMember(volume))
  {
    var name, file := VolumeMember(volume), volume + VOLUME_SUFFIX;
    assert name == "volumes" + "/" + file;
    VolumeFile(volume);
    SplitAlone(file, '/');
    MemberBelow("volumes", file);
    assert name[..8] == VOLUME_PREFIX && name[|name| - 4..] == VOLUME_SUFFIX;
  }

  /** A workspace path becomes a valid member name exactly when it fits the length
      limit and holds no backslash. */
  lemma WorkspaceMemberIsValid(rel: string)
    requires IsWalkPath(rel)
    ensures ValidMemberName(WorkspaceMember(rel)) <==> |rel| <= NAME_MAX - |WORKSPACE_PREFIX| && '\\' !in rel
  {
    var name := WorkspaceMember(rel);
    assert name == "workspace" + "/" + rel;
    if rel == "" {
      StartsEmpty(rel);
      assert false;
    }
    MemberBelow("workspace", rel);
    assert name[..10] == WORKSPACE_PREFIX;
    assert name[10..] == rel;
    assert forall i :: 10 <= i < |name| ==> name[i] == rel[i - 10];
    assert '\\' in rel ==> '\\' in name by {
      assert forall i :: 0 <= i < |rel| ==> name[i + 10] == rel[i];
    }
  }

}
