/** The version story of a service image: plugins/docker-app/release.go. */
module Releases {

  import opened Versions
  import opened Tags
  import opened Strings

  datatype Entry = Entry(tag: string, digest: string)

  datatype Release = Release(tag: string, version: string, variant: string, digest: string)

  // How tags are read, versions written and digests compared.
  datatype Dialect = Dialect(read: Grammar, render: Version -> string, core: string -> string)

  ghost predicate GoodDialect(dialect: Dialect) {
    && GoodGrammar(dialect.read)
    && forall a, b :: dialect.render(a) == dialect.render(b) ==> a == b
  }

  // ------------------------------------------------------------------
  // Ranking
  // ------------------------------------------------------------------

  // releaseGreater.
  predicate Greater(dialect: Dialect, candidate: Release, current: Release) {
    var left, right := Parse(dialect.read, candidate.tag), Parse(dialect.read, current.tag);
    if left.None? || right.None? then CompareText(candidate.version, current.version) > 0
    else if left.value.version != right.value.version then Compare(left.value.version, right.value.version) > 0
    else CompareText(candidate.tag, current.tag) > 0
  }

  predicate IsRead(dialect: Dialect, release: Release) {
    Parse(dialect.read, release.tag).Some?
  }

  ghost predicate AllRead(dialect: Dialect, releases: seq<Release>) {
    forall i {:trigger IsRead(dialect, releases[i])} :: 0 <= i < |releases| ==> IsRead(dialect, releases[i])
  }

  function VersionOf(dialect: Dialect, release: Release): Version
    requires IsRead(dialect, release)
  {
    Parse(dialect.read, release.tag).value.version
  }

  lemma TextFacts(a: string, b: string, c: string)
    ensures CompareText(a, b) == 0 <==> a == b
    ensures CompareText(a, b) < 0 <==> CompareText(b, a) > 0
    ensures CompareText(b, a) < 0 && CompareText(c, b) < 0 ==> CompareText(c, a) < 0
  {
    TextIsOrdered();
    var compare := CompareText;
    assert compare(a, b) == CompareText(a, b) && compare(b, a) == CompareText(b, a);
    assert compare(c, b) == CompareText(c, b) && compare(c, a) == CompareText(c, a);
  }

  /** The version decides; of two tags with one version the later in the alphabet is
      greater. */
  lemma GreaterMeans(dialect: Dialect, a: Release, b: Release)
    requires IsRead(dialect, a) && IsRead(dialect, b)
    ensures var v, w := VersionOf(dialect, a), VersionOf(dialect, b);
            Greater(dialect, a, b) <==> Precedes(w, v) || (v == w && TextPrecedes(b.tag, a.tag))
  {
    CompareMeans(VersionOf(dialect, a), VersionOf(dialect, b));
    Trichotomy(VersionOf(dialect, a), VersionOf(dialect, b));
    TextFacts(b.tag, a.tag, b.tag);
    TextMeans(b.tag, a.tag);
  }

  /** releaseGreater is a strict order on the releases read, total on tags. */
  lemma GreaterIsStrict(dialect: Dialect, a: Release, b: Release)
    requires IsRead(dialect, a) && IsRead(dialect, b)
    ensures Greater(dialect, a, b) ==>
              !Greater(dialect, b, a) && Compare(VersionOf(dialect, a), VersionOf(dialect, b)) >= 0
    ensures Greater(dialect, a, b) || Greater(dialect, b, a) <==> a.tag != b.tag
  {
    Trichotomy(VersionOf(dialect, a), VersionOf(dialect, b));
    TextFacts(a.tag, b.tag, a.tag);
    TextFacts(b.tag, a.tag, b.tag);
  }

  lemma GreaterIsTransitive(dialect: Dialect, a: Release, b: Release, c: Release)
    requires IsRead(dialect, a) && IsRead(dialect, b) && IsRead(dialect, c)
    requires Greater(dialect, a, b) && Greater(dialect, b, c)
    ensures Greater(dialect, a, c)
  {
    var x, y, z := VersionOf(dialect, a), VersionOf(dialect, b), VersionOf(dialect, c);
    GreaterIsStrict(dialect, a, b);
    GreaterIsStrict(dialect, b, c);
    Transitive(x, y, z);
    Trichotomy(x, z);
    TextFacts(a.tag, b.tag, c.tag);
    TextFacts(b.tag, a.tag, b.tag);
    TextFacts(c.tag, b.tag, a.tag);
    TextFacts(a.tag, c.tag, a.tag);
  }

  ghost predicate IsNewest(dialect: Dialect, releases: seq<Release>, best: Release) {
    && best in releases
    && forall i {:trigger Greater(dialect, best, releases[i])} ::
         0 <= i < |releases| ==> releases[i].tag == best.tag || Greater(dialect, best, releases[i])
  }

  lemma NewestOfOneMore(dialect: Dialect, releases: seq<Release>, best: Release, next: Release)
    requires AllRead(dialect, releases) && IsRead(dialect, next) && IsNewest(dialect, releases, best)
    ensures IsNewest(dialect, releases + [next], if Greater(dialect, next, best) then next else best)
  {
    if Greater(dialect, next, best) {
      forall i | 0 <= i < |releases|
        ensures releases[i].tag == next.tag || Greater(dialect, next, releases[i])
      {
        if releases[i].tag == best.tag {
          GreaterIsStrict(dialect, next, best);
          GreaterIsStrict(dialect, next, releases[i]);
        } else {
          GreaterIsTransitive(dialect, next, best, releases[i]);
        }
      }
    } else {
      GreaterIsStrict(dialect, best, next);
    }
  }

  // newestRelease.
  method Newest(dialect: Dialect, releases: seq<Release>) returns (best: Option<Release>)
    requires AllRead(dialect, releases)
    ensures best.None? <==> releases == []
    ensures best.Some? ==> IsNewest(dialect, releases, best.value)
  {
    best := None;
    for i := 0 to |releases|
      invariant best.None? <==> i == 0
      invariant best.Some? ==> IsNewest(dialect, releases[..i], best.value)
    {
      var next := releases[i];
      assert releases[..i + 1] == releases[..i] + [next];
      if best.None? {
        best := Some(next);
      } else {
        NewestOfOneMore(dialect, releases[..i], best.value, next);
        if Greater(dialect, next, best.value) {
          best := Some(next);
        }
      }
    }
    assert releases[..|releases|] == releases;
  }

  /** The newest release does not depend on the order of the listing. */
  lemma NewestIgnoresOrder(dialect: Dialect, a: seq<Release>, b: seq<Release>, x: Release, y: Release)
    requires AllRead(dialect, a) && AllRead(dialect, b)
    requires forall r :: r in a <==> r in b
    requires IsNewest(dialect, a, x) && IsNewest(dialect, b, y)
    ensures x.tag == y.tag
  {
    assert x in b && y in a;
    GreaterIsStrict(dialect, x, y);
  }

  // ------------------------------------------------------------------
  // Release lines
  // ------------------------------------------------------------------

  function ReleaseOf(dialect: Dialect, entry: Entry): Option<Release> {
    var tag := TrimSpace(entry.tag);
    var parsed := Parse(dialect.read, tag);
    if tag == "" || parsed.None? then None
    else Some(Release(tag, dialect.render(parsed.value.version), parsed.value.variant, TrimSpace(entry.digest)))
  }

  predicate HasTag(release: Option<Release>, tag: string) {
    release.Some? && release.value.tag == tag
  }

  // The first entry read with a tag stands for it.
  ghost predicate Represents(read: Entry -> Option<Release>, entries: seq<Entry>, release: Release) {
    exists k :: 0 <= k < |entries| && read(entries[k]) == Some(release)
      && forall j :: 0 <= j < k ==> !HasTag(read(entries[j]), release.tag)
  }

  ghost predicate HoldsTag(releases: seq<Release>, tag: string) {
    exists i :: 0 <= i < |releases| && releases[i].tag == tag
  }

  ghost predicate AreReleases(read: Entry -> Option<Release>, entries: seq<Entry>, releases: seq<Release>) {
    && (forall i, j :: 0 <= i < j < |releases| ==> releases[i].tag != releases[j].tag)
    && (forall i {:trigger Represents(read, entries, releases[i])} ::
          0 <= i < |releases| ==> Represents(read, entries, releases[i]))
    && (forall k {:trigger read(entries[k])} ::
          0 <= k < |entries| && read(entries[k]).Some? ==> HoldsTag(releases, read(entries[k]).value.tag))
  }

  lemma StillRepresents(read: Entry -> Option<Release>, entries: seq<Entry>, next: Entry, release: Release)
    requires Represents(read, entries, release)
    ensures Represents(read, entries + [next], release)
  {
    var k :| 0 <= k < |entries| && read(entries[k]) == Some(release)
      && forall j :: 0 <= j < k ==> !HasTag(read(entries[j]), release.tag);
    var longer := entries + [next];
    assert longer[k] == entries[k] && forall j :: 0 <= j < k ==> longer[j] == entries[j];
  }

  lemma KeepReleases(read: Entry -> Option<Release>, entries: seq<Entry>, next: Entry, releases: seq<Release>)
    requires AreReleases(read, entries, releases)
    requires read(next).Some? ==> HoldsTag(releases, read(next).value.tag)
    ensures AreReleases(read, entries + [next], releases)
  {
    forall i | 0 <= i < |releases|
      ensures Represents(read, entries + [next], releases[i])
    {
      assert Represents(read, entries, releases[i]);
      StillRepresents(read, entries, next, releases[i]);
    }
    assert forall k :: 0 <= k < |entries| ==> read((entries + [next])[k]) == read(entries[k]);
  }

  lemma AddRelease(read: Entry -> Option<Release>, entries: seq<Entry>, next: Entry, releases: seq<Release>)
    requires AreReleases(read, entries, releases)
    requires read(next).Some? && !HoldsTag(releases, read(next).value.tag)
    ensures AreReleases(read, entries + [next], releases + [read(next).value])
  {
    var release, longer := read(next).value, entries + [next];
    forall i | 0 <= i < |releases|
      ensures Represents(read, longer, releases[i])
    {
      assert Represents(read, entries, releases[i]);
      StillRepresents(read, entries, next, releases[i]);
    }
    assert forall k :: 0 <= k < |entries| ==> longer[k] == entries[k];
    assert Represents(read, longer, release) by {
      assert longer[|entries|] == next;
      assert forall j :: 0 <= j < |entries| ==> !HasTag(read(entries[j]), release.tag);
    }
    assert (releases + [release])[|releases|].tag == release.tag;
    forall k | 0 <= k < |longer| && read(longer[k]).Some?
      ensures HoldsTag(releases + [release], read(longer[k]).value.tag)
    {
      if k < |entries| {
        assert read(longer[k]) == read(entries[k]);
        var i :| 0 <= i < |releases| && releases[i].tag == read(entries[k]).value.tag;
        assert (releases + [release])[i].tag == read(entries[k]).value.tag;
      }
    }
  }

  lemma TagAdded(releases: seq<Release>, release: Release)
    ensures forall tag :: HoldsTag(releases + [release], tag) <==> HoldsTag(releases, tag) || tag == release.tag
  {
    var longer := releases + [release];
    assert longer[|releases|] == release;
    forall tag
      ensures HoldsTag(longer, tag) <==> HoldsTag(releases, tag) || tag == release.tag
    {
      if HoldsTag(releases, tag) {
        var i :| 0 <= i < |releases| && releases[i].tag == tag;
        assert longer[i].tag == tag;
      }
    }
  }

  // imageReleases.
  method ImageReleases(entries: seq<Entry>, read: Entry -> Option<Release>) returns (releases: seq<Release>)
    ensures AreReleases(read, entries, releases)
  {
    var seen: set<string> := {};
    releases := [];
    for i := 0 to |entries|
      invariant AreReleases(read, entries[..i], releases)
      invariant forall tag :: tag in seen <==> HoldsTag(releases, tag)
    {
      assert entries[..i + 1] == entries[..i] + [entries[i]];
      var release := read(entries[i]);
      if release.None? || release.value.tag in seen {
        KeepReleases(read, entries[..i], entries[i], releases);
      } else {
        AddRelease(read, entries[..i], entries[i], releases);
        TagAdded(releases, release.value);
        seen := seen + {release.value.tag};
        releases := releases + [release.value];
      }
    }
    assert entries[..|entries|] == entries;
  }

  // releaseFamily.
  function Family(releases: seq<Release>, variant: string): (family: seq<Release>)
    ensures forall release :: release in family <==> release in releases && release.variant == variant
  {
    if releases == [] then [] else
      var front, last := releases[..|releases| - 1], releases[|releases| - 1];
      assert releases == front + [last];
      Family(front, variant) + if last.variant == variant then [last] else []
  }

  method ReleaseFamily(releases: seq<Release>, variant: string) returns (family: seq<Release>)
    ensures family == Family(releases, variant)
  {
    family := [];
    for i := 0 to |releases|
      invariant family == Family(releases[..i], variant)
    {
      assert releases[..i + 1][..i] == releases[..i];
      if releases[i].variant == variant {
        family := family + [releases[i]];
      }
    }
    assert releases[..|releases|] == releases;
  }

  // The plain line when there is one, else the line of the highest version.
  ghost predicate IsPrimaryLine(dialect: Dialect, releases: seq<Release>, line: seq<Release>) {
    if exists release :: release in releases && release.variant == "" then line == Family(releases, "")
    else if releases == [] then line == []
    else exists best :: IsNewest(dialect, releases, best) && line == Family(releases, best.variant)
  }

  // primaryReleaseLine.
  method PrimaryLine(dialect: Dialect, releases: seq<Release>) returns (line: seq<Release>)
    requires AllRead(dialect, releases)
    ensures IsPrimaryLine(dialect, releases, line)
  {
    line := ReleaseFamily(releases, "");
    if line != [] {
      assert line[0] in Family(releases, "");
      return;
    }
    var best := Newest(dialect, releases);
    if best.Some? {
      line := ReleaseFamily(releases, best.value.variant);
    }
  }

  // ------------------------------------------------------------------
  // The story of one image
  // ------------------------------------------------------------------

  datatype State = Current | Outdated | Floating | Unknown

  datatype Story = Story(version: string, latest: string, state: State, floating: bool)

  // The repository lists a tag with this version and variant.
  ghost predicate Publishes(dialect: Dialect, entries: seq<Entry>, parsed: Parsed) {
    exists k :: 0 <= k < |entries| && Parse(dialect.read, TrimSpace(entries[k].tag)) == Some(parsed)
  }

  // What every collected release says about its own tag.
  ghost predicate Consistent(dialect: Dialect, release: Release) {
    var parsed := Parse(dialect.read, release.tag);
    parsed.Some? && release.variant == parsed.value.variant && release.version == dialect.render(parsed.value.version)
  }

  lemma ReleaseIsConsistent(dialect: Dialect, entries: seq<Entry>, releases: seq<Release>, i: nat)
    requires AreReleases(entry => ReleaseOf(dialect, entry), entries, releases) && i < |releases|
    ensures Consistent(dialect, releases[i])
    ensures Publishes(dialect, entries, Parse(dialect.read, releases[i].tag).value)
  {
    var read := entry => ReleaseOf(dialect, entry);
    assert Represents(read, entries, releases[i]);
    var k :| 0 <= k < |entries| && read(entries[k]) == Some(releases[i]);
    assert ReleaseOf(dialect, entries[k]) == Some(releases[i]);
  }

  lemma PublishedIsCollected(dialect: Dialect, entries: seq<Entry>, releases: seq<Release>, parsed: Parsed)
    returns (i: nat)
    requires AreReleases(entry => ReleaseOf(dialect, entry), entries, releases)
    requires Publishes(dialect, entries, parsed)
    ensures i < |releases| && Parse(dialect.read, releases[i].tag) == Some(parsed)
  {
    var read := entry => ReleaseOf(dialect, entry);
    var k :| 0 <= k < |entries| && Parse(dialect.read, TrimSpace(entries[k].tag)) == Some(parsed);
    assert read(entries[k]) == ReleaseOf(dialect, entries[k]);
    assert HoldsTag(releases, read(entries[k]).value.tag);
    i :| 0 <= i < |releases| && releases[i].tag == TrimSpace(entries[k].tag);
  }

  // No listed release of the variant is above the version.
  ghost predicate NoneAbove(dialect: Dialect, entries: seq<Entry>, variant: string, version: Version) {
    forall v :: Publishes(dialect, entries, Parsed(v, variant)) ==> Compare(version, v) >= 0
  }

  ghost predicate NonePublished(dialect: Dialect, entries: seq<Entry>, variant: string) {
    forall v :: !Publishes(dialect, entries, Parsed(v, variant))
  }

  // The newest of a family is a highest listed version of its variant.
  ghost predicate IsHighest(dialect: Dialect, entries: seq<Entry>, variant: string, tag: string) {
    var parsed := Parse(dialect.read, tag);
    && parsed.Some? && parsed.value.variant == variant && Publishes(dialect, entries, parsed.value)
    && NoneAbove(dialect, entries, variant, parsed.value.version)
  }

  lemma AllAreRead(dialect: Dialect, entries: seq<Entry>, releases: seq<Release>, variant: string)
    requires AreReleases(entry => ReleaseOf(dialect, entry), entries, releases)
    ensures AllRead(dialect, releases) && AllRead(dialect, Family(releases, variant))
  {
    forall i | 0 <= i < |releases|
      ensures IsRead(dialect, releases[i])
    {
      ReleaseIsConsistent(dialect, entries, releases, i);
    }
    assert forall r :: r in Family(releases, variant) ==> r in releases;
  }

  lemma NewestIsHighest(dialect: Dialect, entries: seq<Entry>, releases: seq<Release>, variant: string, best: Release)
    requires AreReleases(entry => ReleaseOf(dialect, entry), entries, releases)
    requires IsNewest(dialect, Family(releases, variant), best)
    ensures best in releases && Consistent(dialect, best) && IsHighest(dialect, entries, variant, best.tag)
  {
    var family := Family(releases, variant);
    var b :| 0 <= b < |releases| && releases[b] == best;
    ReleaseIsConsistent(dialect, entries, releases, b);
    forall v | Publishes(dialect, entries, Parsed(v, variant))
      ensures Compare(VersionOf(dialect, best), v) >= 0
    {
      var i := PublishedIsCollected(dialect, entries, releases, Parsed(v, variant));
      ReleaseIsConsistent(dialect, entries, releases, i);
      assert releases[i] in family;
      var f :| 0 <= f < |family| && family[f] == releases[i];
      Trichotomy(VersionOf(dialect, best), v);
      if family[f].tag != best.tag {
        GreaterIsStrict(dialect, best, releases[i]);
      }
    }
  }

  lemma EmptyFamily(dialect: Dialect, entries: seq<Entry>, releases: seq<Release>, variant: string)
    requires AreReleases(entry => ReleaseOf(dialect, entry), entries, releases)
    ensures Family(releases, variant) == [] <==> NonePublished(dialect, entries, variant)
  {
    var family := Family(releases, variant);
    if family != [] {
      assert family[0] in releases;
      var i :| 0 <= i < |releases| && releases[i] == family[0];
      ReleaseIsConsistent(dialect, entries, releases, i);
      assert Publishes(dialect, entries, Parsed(VersionOf(dialect, releases[i]), variant));
    } else {
      forall v
        ensures !Publishes(dialect, entries, Parsed(v, variant))
      {
        if Publishes(dialect, entries, Parsed(v, variant)) {
          var i := PublishedIsCollected(dialect, entries, releases, Parsed(v, variant));
          ReleaseIsConsistent(dialect, entries, releases, i);
          assert false;
        }
      }
    }
  }

  // The newest tag of a family, as newestRelease(releaseFamily(...)) finds it.
  method NewestOfVariant(dialect: Dialect, entries: seq<Entry>, releases: seq<Release>, variant: string)
    returns (best: Option<Release>)
    requires AreReleases(entry => ReleaseOf(dialect, entry), entries, releases)
    ensures best.None? <==> NonePublished(dialect, entries, variant)
    ensures best.Some? ==> IsHighest(dialect, entries, variant, best.value.tag)
  {
    var family := ReleaseFamily(releases, variant);
    AllAreRead(dialect, entries, releases, variant);
    EmptyFamily(dialect, entries, releases, variant);
    best := Newest(dialect, family);
    if best.Some? {
      NewestIsHighest(dialect, entries, releases, variant, best.value);
    }
  }

  lemma NoneAboveHigher(dialect: Dialect, entries: seq<Entry>, variant: string, low: Version, high: Version)
    requires NoneAbove(dialect, entries, variant, low) && Compare(high, low) >= 0
    ensures NoneAbove(dialect, entries, variant, high)
  {
    forall v | Publishes(dialect, entries, Parsed(v, variant))
      ensures Compare(high, v) >= 0
    {
      Transitive(high, low, v);
    }
  }

  // The latest reported for a pinned tag.
  ghost predicate IsLatest(dialect: Dialect, entries: seq<Entry>, tag: string, latest: string) {
    var pinned, found := Parse(dialect.read, tag), Parse(dialect.read, latest);
    && pinned.Some? && found.Some? && found.value.variant == pinned.value.variant
    && Compare(found.value.version, pinned.value.version) >= 0
    && NoneAbove(dialect, entries, pinned.value.variant, found.value.version)
    && (latest == tag || Publishes(dialect, entries, found.value))
  }

  lemma HighestDecides(dialect: Dialect, entries: seq<Entry>, tag: string, best: string, order: int)
    requires Parse(dialect.read, tag).Some?
    requires IsHighest(dialect, entries, Parse(dialect.read, tag).value.variant, best)
    requires order == Compare(Parse(dialect.read, best).value.version, Parse(dialect.read, tag).value.version)
    ensures var pinned := Parse(dialect.read, tag).value;
      order > 0 <==> !NoneAbove(dialect, entries, pinned.variant, pinned.version)
    ensures IsLatest(dialect, entries, tag, if order < 0 then tag else best)
  {
    var pinned, found := Parse(dialect.read, tag).value, Parse(dialect.read, best).value;
    Trichotomy(found.version, pinned.version);
    Trichotomy(pinned.version, pinned.version);
    if order <= 0 {
      NoneAboveHigher(dialect, entries, pinned.variant, found.version, pinned.version);
    } else {
      assert found == Parsed(found.version, pinned.variant);
    }
  }

  ghost predicate IsPinnedStory(dialect: Dialect, tag: string, entries: seq<Entry>, known: bool, story: Story)
    requires Parse(dialect.read, tag).Some?
  {
    var pinned := Parse(dialect.read, tag).value;
    && story.version == tag && !story.floating && story.state != Floating
    && (story.state == Outdated <==> !NoneAbove(dialect, entries, pinned.variant, pinned.version))
    && (story.state == Unknown <==> !known && NonePublished(dialect, entries, pinned.variant))
    && if NonePublished(dialect, entries, pinned.variant) then story.latest == ""
       else IsLatest(dialect, entries, tag, story.latest)
  }

  // The entry reads as this version of the variant.
  ghost predicate Lists(dialect: Dialect, entries: seq<Entry>, k: int, variant: string, version: Version) {
    0 <= k < |entries| && Parse(dialect.read, TrimSpace(entries[k].tag)) == Some(Parsed(version, variant))
  }

  lemma NoneAboveMeans(dialect: Dialect, entries: seq<Entry>, variant: string, version: Version)
    ensures NoneAbove(dialect, entries, variant, version) <==>
            forall k, v :: Lists(dialect, entries, k, variant, v) ==> !Precedes(version, v)
  {
    forall k, v | Lists(dialect, entries, k, variant, v)
      ensures Publishes(dialect, entries, Parsed(v, variant))
    {
    }
    forall v
      ensures Compare(version, v) >= 0 <==> !Precedes(version, v)
    {
      CompareMeans(version, v);
    }
    forall v | Publishes(dialect, entries, Parsed(v, variant))
      ensures exists k :: Lists(dialect, entries, k, variant, v)
    {
      var k :| 0 <= k < |entries| && Parse(dialect.read, TrimSpace(entries[k].tag)) == Some(Parsed(v, variant));
      assert Lists(dialect, entries, k, variant, v);
    }
  }

  lemma NoneMeans(dialect: Dialect, entries: seq<Entry>, variant: string)
    ensures NonePublished(dialect, entries, variant) <==> forall k, v :: !Lists(dialect, entries, k, variant, v)
  {
    forall v | Publishes(dialect, entries, Parsed(v, variant))
      ensures exists k :: Lists(dialect, entries, k, variant, v)
    {
      var k :| 0 <= k < |entries| && Parse(dialect.read, TrimSpace(entries[k].tag)) == Some(Parsed(v, variant));
      assert Lists(dialect, entries, k, variant, v);
    }
    forall k, v | Lists(dialect, entries, k, variant, v)
      ensures Publishes(dialect, entries, Parsed(v, variant))
    {
    }
  }

  /** What the story of a pinned tag says, entry by entry: it is outdated exactly when
      some entry of its variant comes after it, and the latest reported comes after or
      is everything of the variant that is listed, and the tag itself. */
  lemma PinnedStoryMeans(dialect: Dialect, tag: string, entries: seq<Entry>, known: bool, story: Story)
    requires Parse(dialect.read, tag).Some? && IsPinnedStory(dialect, tag, entries, known, story)
    ensures var pinned := Parse(dialect.read, tag).value;
            && (story.state == Outdated <==>
                  exists k, v :: Lists(dialect, entries, k, pinned.variant, v) && Precedes(pinned.version, v))
            && (story.latest == "" <==> forall k, v :: !Lists(dialect, entries, k, pinned.variant, v))
    ensures story.latest != "" ==>
              var pinned, latest := Parse(dialect.read, tag).value, Parse(dialect.read, story.latest);
              && latest.Some? && latest.value.variant == pinned.variant
              && !Precedes(latest.value.version, pinned.version)
              && forall k, v :: Lists(dialect, entries, k, pinned.variant, v) ==> !Precedes(latest.value.version, v)
  {
    var pinned := Parse(dialect.read, tag).value;
    NoneAboveMeans(dialect, entries, pinned.variant, pinned.version);
    NoneMeans(dialect, entries, pinned.variant);
    if !NonePublished(dialect, entries, pinned.variant) {
      var latest := Parse(dialect.read, story.latest);
      NoneAboveMeans(dialect, entries, pinned.variant, latest.value.version);
      CompareMeans(latest.value.version, pinned.version);
    }
  }

  /** projectServiceRelease for a tag that carries a version: it is outdated exactly
      when a higher version of its variant is listed, and the latest reported is
      never lower than the tag itself nor than anything listed. */
  method PinnedStory(dialect: Dialect, tag: string, entries: seq<Entry>, known: bool) returns (story: Story)
    requires Parse(dialect.read, tag).Some?
    ensures IsPinnedStory(dialect, tag, entries, known, story)
  {
    var pinned := Parse(dialect.read, tag).value;
    var releases := ImageReleases(entries, entry => ReleaseOf(dialect, entry));
    var best := NewestOfVariant(dialect, entries, releases, pinned.variant);
    if best.None? {
      return Story(tag, "", if known then Current else Unknown, false);
    }
    var order := Compare(Parse(dialect.read, best.value.tag).value.version, pinned.version);
    HighestDecides(dialect, entries, tag, best.value.tag, order);
    assert Publishes(dialect, entries, Parsed(Parse(dialect.read, best.value.tag).value.version, pinned.variant));
    if order > 0 {
      return Story(tag, best.value.tag, Outdated, false);
    } else if order < 0 {
      return Story(tag, tag, Current, false);
    }
    return Story(tag, best.value.tag, Current, false);
  }

  /** The image 1.5.0 is outdated, and 2.0.0 its latest, when 2.0.0 is listed. */
  method NextMajorIsLatest(dialect: Dialect, tag: string, next: string) returns (story: Story)
    requires GoodDialect(dialect)
    requires Parse(dialect.read, tag) == Some(Parsed(Version(1, 5, 0, []), ""))
    requires Parse(dialect.read, TrimSpace(next)) == Some(Parsed(Version(2, 0, 0, []), ""))
    ensures story.version == tag && story.state == Outdated
    ensures Parse(dialect.read, story.latest) == Some(Parsed(Version(2, 0, 0, []), ""))
  {
    var entries := [Entry(next, "")];
    story := PinnedStory(dialect, tag, entries, true);
    PinnedStoryMeans(dialect, tag, entries, true, story);
    assert Lists(dialect, entries, 0, "", Version(2, 0, 0, []));
    assert Parse(dialect.read, story.latest).value.version != Version(1, 5, 0, []);
  }

  // The first release whose digest is the observed one.
  ghost predicate IsResolved(dialect: Dialect, releases: seq<Release>, observed: string, resolved: Option<Release>) {
    var core := dialect.core(observed);
    if core == "" || forall i :: 0 <= i < |releases| ==> dialect.core(releases[i].digest) != core then resolved == None
    else exists k ::
      && 0 <= k < |releases| && resolved == Some(releases[k]) && dialect.core(releases[k].digest) == core
      && forall j :: 0 <= j < k ==> dialect.core(releases[j].digest) != core
  }

  // releaseByDigest.
  method ReleaseByDigest(dialect: Dialect, releases: seq<Release>, observed: string) returns (resolved: Option<Release>)
    ensures IsResolved(dialect, releases, observed, resolved)
  {
    var core := dialect.core(observed);
    if core == "" {
      return None;
    }
    for i := 0 to |releases|
      invariant forall j :: 0 <= j < i ==> dialect.core(releases[j].digest) != core
    {
      if dialect.core(releases[i].digest) == core {
        return Some(releases[i]);
      }
    }
    return None;
  }

  // What is found for a moving tag: the releases, their primary line, the release
  // the tag points at and the newest of the line.
  datatype Findings = Findings(
    releases: seq<Release>, line: seq<Release>, resolved: Option<Release>, newest: Option<Release>)

  ghost predicate AreFindings(dialect: Dialect, entries: seq<Entry>, observed: string, found: Findings) {
    && AreReleases(entry => ReleaseOf(dialect, entry), entries, found.releases)
    && IsPrimaryLine(dialect, found.releases, found.line)
    && IsResolved(dialect, found.releases, observed, found.resolved)
    && (found.newest.None? <==> found.releases == [])
    && (found.newest.Some? ==> IsNewest(dialect, found.line, found.newest.value))
  }

  ghost predicate IsMovingStory(known: bool, found: Findings, story: Story) {
    var resolved, newest := found.resolved, found.newest;
    && story.floating
    && story.latest == (if newest.Some? then newest.value.tag else "")
    && story.version == (if resolved.Some? then resolved.value.tag else "")
    && story.state == if resolved.None? then (if known then Floating else Unknown)
                      else if newest.None? then Floating
                      else if resolved.value.version == newest.value.version then Current else Outdated
  }

  lemma PrimaryLineIsFamily(dialect: Dialect, entries: seq<Entry>, releases: seq<Release>, line: seq<Release>)
    returns (variant: string)
    requires AreReleases(entry => ReleaseOf(dialect, entry), entries, releases)
    requires IsPrimaryLine(dialect, releases, line)
    ensures line == Family(releases, variant) && (line == [] ==> releases == [])
  {
    variant := "";
    if release :| release in releases && release.variant == "" {
      assert release in Family(releases, variant);
    } else if releases != [] {
      var best :| IsNewest(dialect, releases, best) && line == Family(releases, best.variant);
      assert best in Family(releases, best.variant);
      variant := best.variant;
    } else {
      assert Family(releases, variant) == [];
    }
  }

  // projectServiceRelease for a moving tag.
  method MovingStory(dialect: Dialect, entries: seq<Entry>, known: bool, observed: string)
    returns (story: Story, found: Findings)
    ensures AreFindings(dialect, entries, observed, found) && IsMovingStory(known, found, story)
  {
    var releases := ImageReleases(entries, entry => ReleaseOf(dialect, entry));
    AllAreRead(dialect, entries, releases, "");
    var line := PrimaryLine(dialect, releases);
    ghost var variant := PrimaryLineIsFamily(dialect, entries, releases, line);
    AllAreRead(dialect, entries, releases, variant);
    var newest := Newest(dialect, line);
    var resolved := ReleaseByDigest(dialect, releases, observed);
    found := Findings(releases, line, resolved, newest);
    var latest := if newest.Some? then newest.value.tag else "";
    if resolved.Some? {
      var state := if newest.None? then Floating
                   else if resolved.value.version == newest.value.version then Current else Outdated;
      story := Story(resolved.value.tag, latest, state, true);
    } else {
      story := Story("", latest, if known then Floating else Unknown, true);
    }
  }

  lemma NewestIsNotBelow(dialect: Dialect, releases: seq<Release>, best: Release, release: Release)
    requires AllRead(dialect, releases) && IsNewest(dialect, releases, best) && release in releases
    ensures Compare(VersionOf(dialect, best), VersionOf(dialect, release)) >= 0
  {
    var i :| 0 <= i < |releases| && releases[i] == release;
    Trichotomy(VersionOf(dialect, best), VersionOf(dialect, release));
    if release.tag != best.tag {
      GreaterIsStrict(dialect, best, release);
    }
  }

  lemma ResolvedIsListed(dialect: Dialect, releases: seq<Release>, observed: string, resolved: Option<Release>)
    requires IsResolved(dialect, releases, observed, resolved) && resolved.Some?
    ensures resolved.value in releases
  {
  }

  lemma PlainIsPublished(dialect: Dialect, entries: seq<Entry>, releases: seq<Release>)
    requires AreReleases(entry => ReleaseOf(dialect, entry), entries, releases)
    ensures (exists release :: release in releases && release.variant == "") <==> !NonePublished(dialect, entries, "")
  {
    EmptyFamily(dialect, entries, releases, "");
    var family := Family(releases, "");
    if family != [] {
      assert family[0] in releases && family[0].variant == "";
    }
  }

  // Without a plain line the latest is the newest of all releases.
  lemma NoPlainLine(
      dialect: Dialect, entries: seq<Entry>, releases: seq<Release>, line: seq<Release>,
      newest: Release, running: Release)
    requires AreReleases(entry => ReleaseOf(dialect, entry), entries, releases)
    requires IsPrimaryLine(dialect, releases, line) && IsNewest(dialect, line, newest) && running in releases
    requires forall release :: release in releases ==> release.variant != ""
    ensures IsRead(dialect, newest) && IsRead(dialect, running)
    ensures Compare(VersionOf(dialect, newest), VersionOf(dialect, running)) >= 0
  {
    var best :| IsNewest(dialect, releases, best) && line == Family(releases, best.variant);
    AllAreRead(dialect, entries, releases, best.variant);
    assert best in line && newest in releases;
    NewestIsNotBelow(dialect, line, newest, best);
    NewestIsNotBelow(dialect, releases, best, running);
    Transitive(VersionOf(dialect, newest), VersionOf(dialect, best), VersionOf(dialect, running));
  }

  // Plain releases are listed and every one of them is below the version.
  ghost predicate PlainLineIsBelow(dialect: Dialect, entries: seq<Entry>, version: Version) {
    && !NonePublished(dialect, entries, "")
    && forall v :: Publishes(dialect, entries, Parsed(v, "")) ==> Compare(v, version) < 0
  }

  lemma PlainNewest(dialect: Dialect, entries: seq<Entry>, releases: seq<Release>, newest: Release, version: Version)
    requires AreReleases(entry => ReleaseOf(dialect, entry), entries, releases)
    requires IsNewest(dialect, Family(releases, ""), newest)
    ensures IsRead(dialect, newest)
    ensures Compare(VersionOf(dialect, newest), version) < 0 <==> PlainLineIsBelow(dialect, entries, version)
  {
    NewestIsHighest(dialect, entries, releases, "", newest);
    var top := VersionOf(dialect, newest);
    assert Publishes(dialect, entries, Parsed(top, ""));
    if Compare(top, version) < 0 {
      forall v | Publishes(dialect, entries, Parsed(v, ""))
        ensures Compare(v, version) < 0
      {
        Trichotomy(top, version);
        Trichotomy(v, version);
        if Compare(v, version) >= 0 {
          Transitive(top, v, version);
          assert false;
        }
      }
    }
  }

  lemma LineIsBelowIff(
      dialect: Dialect, entries: seq<Entry>, releases: seq<Release>, line: seq<Release>,
      newest: Release, running: Release)
    requires AreReleases(entry => ReleaseOf(dialect, entry), entries, releases)
    requires IsPrimaryLine(dialect, releases, line) && IsNewest(dialect, line, newest) && running in releases
    ensures IsRead(dialect, newest) && IsRead(dialect, running)
    ensures Compare(VersionOf(dialect, newest), VersionOf(dialect, running)) < 0
       <==> PlainLineIsBelow(dialect, entries, VersionOf(dialect, running))
  {
    AllAreRead(dialect, entries, releases, "");
    PlainIsPublished(dialect, entries, releases);
    if exists release :: release in releases && release.variant == "" {
      PlainNewest(dialect, entries, releases, newest, VersionOf(dialect, running));
    } else {
      NoPlainLine(dialect, entries, releases, line, newest, running);
    }
  }

  /** A moving tag is reported outdated when the version it points at differs from
      the latest. That latest is lower than what is running exactly when plain
      releases are listed and every one of them is below the running release. */
  lemma LatestIsBelowIff(dialect: Dialect, entries: seq<Entry>, observed: string, found: Findings)
    requires AreFindings(dialect, entries, observed, found) && found.resolved.Some?
    ensures found.newest.Some? && IsRead(dialect, found.newest.value) && IsRead(dialect, found.resolved.value)
    ensures Compare(VersionOf(dialect, found.newest.value), VersionOf(dialect, found.resolved.value)) < 0
       <==> PlainLineIsBelow(dialect, entries, VersionOf(dialect, found.resolved.value))
  {
    ResolvedIsListed(dialect, found.releases, observed, found.resolved);
    LineIsBelowIff(dialect, entries, found.releases, found.line, found.newest.value, found.resolved.value);
  }

  lemma RunningIsPublished(dialect: Dialect, entries: seq<Entry>, releases: seq<Release>, running: Release)
    requires AreReleases(entry => ReleaseOf(dialect, entry), entries, releases) && running in releases
    ensures IsRead(dialect, running)
    ensures Publishes(dialect, entries, Parsed(VersionOf(dialect, running), running.variant))
  {
    var i :| 0 <= i < |releases| && releases[i] == running;
    ReleaseIsConsistent(dialect, entries, releases, i);
  }

  lemma LatestHasVariant(
      dialect: Dialect, entries: seq<Entry>, releases: seq<Release>, line: seq<Release>, newest: Release)
    requires AreReleases(entry => ReleaseOf(dialect, entry), entries, releases)
    requires IsPrimaryLine(dialect, releases, line) && IsNewest(dialect, line, newest)
    ensures newest.variant != "" ==> NonePublished(dialect, entries, "")
  {
    PlainIsPublished(dialect, entries, releases);
  }

  /** In particular a running release without a variant, or a latest with one, is
      never answered with a lower version. */
  lemma LatestIsNotBelow(dialect: Dialect, entries: seq<Entry>, observed: string, found: Findings)
    requires AreFindings(dialect, entries, observed, found) && found.resolved.Some?
    ensures found.newest.Some? && IsRead(dialect, found.newest.value) && IsRead(dialect, found.resolved.value)
    ensures found.resolved.value.variant == "" || found.newest.value.variant != "" ==>
      Compare(VersionOf(dialect, found.newest.value), VersionOf(dialect, found.resolved.value)) >= 0
  {
    LatestIsBelowIff(dialect, entries, observed, found);
    ResolvedIsListed(dialect, found.releases, observed, found.resolved);
    RunningIsPublished(dialect, entries, found.releases, found.resolved.value);
    LatestHasVariant(dialect, entries, found.releases, found.line, found.newest.value);
    var version := VersionOf(dialect, found.resolved.value);
    Trichotomy(version, version);
  }

  lemma TagIsReleased(dialect: Dialect, tag: string, digest: string)
    requires GoodDialect(dialect) && dialect.read(tag).Some?
    ensures ReleaseOf(dialect, Entry(tag, digest)) ==
      var parsed := dialect.read(tag).value;
      Some(Release(tag, dialect.render(parsed.version), parsed.variant, TrimSpace(digest)))
  {
  }

  // Two entries read with different tags give two releases and no other.
  lemma TwoReleases(read: Entry -> Option<Release>, entries: seq<Entry>, releases: seq<Release>, a: Release, b: Release)
    requires AreReleases(read, entries, releases) && |entries| == 2
    requires read(entries[0]) == Some(a) && read(entries[1]) == Some(b) && a.tag != b.tag
    ensures forall r :: r in releases <==> r == a || r == b
  {
    forall r | r in releases
      ensures r == a || r == b
    {
      var i :| 0 <= i < |releases| && releases[i] == r;
      assert Represents(read, entries, releases[i]);
    }
    assert HoldsTag(releases, a.tag) && HoldsTag(releases, b.tag);
    var i :| 0 <= i < |releases| && releases[i].tag == a.tag;
    var j :| 0 <= j < |releases| && releases[j].tag == b.tag;
    assert releases[i] in releases && releases[j] in releases;
  }

  lemma TwoFindings(dialect: Dialect, digest: string, found: Findings, plain: Release, other: Release)
    requires forall r :: r in found.releases <==> r == plain || r == other
    requires plain.variant == "" != other.variant
    requires dialect.core(plain.digest) == "" != dialect.core(other.digest) && other.digest == digest
    requires IsPrimaryLine(dialect, found.releases, found.line)
    requires IsResolved(dialect, found.releases, digest, found.resolved)
    requires found.newest.None? <==> found.releases == []
    requires found.newest.Some? ==> IsNewest(dialect, found.line, found.newest.value)
    ensures found.newest == Some(plain) && found.resolved == Some(other)
  {
    assert plain in found.releases && other in found.releases;
    assert found.newest.value in Family(found.releases, "");
    var k :| 0 <= k < |found.releases| && found.releases[k] == other;
    assert dialect.core(found.releases[k].digest) == dialect.core(digest) != "";
    assert found.resolved.Some? && found.resolved.value in found.releases;
    assert dialect.core(found.resolved.value.digest) == dialect.core(digest);
  }

  /** In the excepted case the story steps back: with a plain 1.0.0 listed and the
      moving tag at 2.0.0-alpine it calls the image outdated and 1.0.0 its latest. */
  method StepBack(dialect: Dialect, plain: string, variant: string, digest: string) returns (story: Story)
    requires GoodDialect(dialect) && TrimSpace(digest) == digest
    requires dialect.core(digest) != "" && dialect.core("") == ""
    requires dialect.read(plain).Some? && dialect.read(plain).value.variant == ""
    requires dialect.read(variant).Some? && dialect.read(variant).value.variant != ""
    requires Compare(dialect.read(variant).value.version, dialect.read(plain).value.version) > 0
    ensures story == Story(variant, plain, Outdated, true)
  {
    var entries := [Entry(plain, ""), Entry(variant, digest)];
    var found;
    story, found := MovingStory(dialect, entries, true, digest);
    TagIsReleased(dialect, plain, "");
    TagIsReleased(dialect, variant, digest);
    ghost var a, b := ReleaseOf(dialect, entries[0]).value, ReleaseOf(dialect, entries[1]).value;
    TwoReleases(entry => ReleaseOf(dialect, entry), entries, found.releases, a, b);
    TwoFindings(dialect, digest, found, a, b);
    Trichotomy(dialect.read(variant).value.version, dialect.read(plain).value.version);
  }

  // ------------------------------------------------------------------
  // Listings
  // ------------------------------------------------------------------

  // A registry lists entries with digests, or only tag names.
  datatype Listing = Listing(entries: seq<Entry>, tags: seq<string>, known: bool)

  // Bare names, without the blank ones.
  function BareEntries(tags: seq<string>): seq<Entry> {
    if tags == [] then [] else
      var name := TrimSpace(tags[|tags| - 1]);
      BareEntries(tags[..|tags| - 1]) + if name == "" then [] else [Entry(name, "")]
  }

  function EntriesOf(listing: Listing): seq<Entry> {
    if listing.entries != [] then listing.entries else BareEntries(listing.tags)
  }

  // listingEntries.
  method ListingEntries(listing: Listing) returns (entries: seq<Entry>)
    ensures entries == EntriesOf(listing)
  {
    if |listing.entries| > 0 {
      return listing.entries;
    }
    entries := [];
    for i := 0 to |listing.tags|
      invariant entries == BareEntries(listing.tags[..i])
    {
      var name := TrimSpace(listing.tags[i]);
      assert listing.tags[..i + 1][..i] == listing.tags[..i];
      if name == "" {
        continue;
      }
      entries := entries + [Entry(name, "")];
    }
    assert listing.tags[..|listing.tags|] == listing.tags;
  }

  // One of the names reads as this version and variant.
  ghost predicate NamesVersion(dialect: Dialect, tags: seq<string>, parsed: Parsed) {
    exists k :: 0 <= k < |tags| && Parse(dialect.read, tags[k]) == Some(parsed)
  }

  lemma NothingInBlank(dialect: Dialect, name: string)
    ensures Parse(dialect.read, TrimSpace(TrimSpace(name))) == Parse(dialect.read, name)
    ensures TrimSpace(name) == "" ==> Parse(dialect.read, name).None?
  {
    TrimTwice(name);
  }

  lemma PublishesOneMore(dialect: Dialect, entries: seq<Entry>, entry: Entry, parsed: Parsed)
    ensures Publishes(dialect, entries + [entry], parsed) <==>
            Publishes(dialect, entries, parsed) || Parse(dialect.read, TrimSpace(entry.tag)) == Some(parsed)
  {
    var longer := entries + [entry];
    assert longer[|entries|] == entry && forall k :: 0 <= k < |entries| ==> longer[k] == entries[k];
  }

  lemma NamesOneMore(dialect: Dialect, tags: seq<string>, name: string, parsed: Parsed)
    ensures NamesVersion(dialect, tags + [name], parsed) <==>
            NamesVersion(dialect, tags, parsed) || Parse(dialect.read, name) == Some(parsed)
  {
    var longer := tags + [name];
    assert longer[|tags|] == name && forall k :: 0 <= k < |tags| ==> longer[k] == tags[k];
  }

  lemma BareStep(dialect: Dialect, entries: seq<Entry>, tags: seq<string>, name: string, parsed: Parsed)
    requires Publishes(dialect, entries, parsed) <==> NamesVersion(dialect, tags, parsed)
    ensures Publishes(dialect, entries + if TrimSpace(name) == "" then [] else [Entry(TrimSpace(name), "")], parsed)
       <==> NamesVersion(dialect, tags + [name], parsed)
  {
    NothingInBlank(dialect, name);
    NamesOneMore(dialect, tags, name, parsed);
    if TrimSpace(name) == "" {
      assert entries + [] == entries;
    } else {
      PublishesOneMore(dialect, entries, Entry(TrimSpace(name), ""), parsed);
    }
  }

  /** A registry that lists only names publishes exactly the versions they read as. */
  lemma {:induction false} BareNamesPublish(dialect: Dialect, tags: seq<string>, parsed: Parsed)
    ensures Publishes(dialect, BareEntries(tags), parsed) <==> NamesVersion(dialect, tags, parsed)
  {
    if tags != [] {
      var init, last := tags[..|tags| - 1], tags[|tags| - 1];
      BareNamesPublish(dialect, init, parsed);
      BareStep(dialect, BareEntries(init), init, last, parsed);
      assert tags == init + [last];
    }
  }

  lemma {:induction false} BareNamesHaveNoDigest(tags: seq<string>)
    ensures forall k :: 0 <= k < |BareEntries(tags)| ==> BareEntries(tags)[k].digest == ""
  {
    if tags != [] {
      BareNamesHaveNoDigest(tags[..|tags| - 1]);
    }
  }

  lemma NoDigestNoRelease(dialect: Dialect, entries: seq<Entry>, found: Findings, observed: string)
    requires AreFindings(dialect, entries, observed, found) && dialect.core("") == ""
    requires forall k :: 0 <= k < |entries| ==> entries[k].digest == ""
    ensures found.resolved.None?
  {
    forall i | 0 <= i < |found.releases|
      ensures found.releases[i].digest == ""
    {
      assert Represents(entry => ReleaseOf(dialect, entry), entries, found.releases[i]);
    }
  }

  /** So the release behind a moving tag is never found there. */
  lemma BareNamesResolveNothing(dialect: Dialect, tags: seq<string>, found: Findings, observed: string)
    requires AreFindings(dialect, BareEntries(tags), observed, found) && dialect.core("") == ""
    ensures found.resolved.None?
  {
    BareNamesHaveNoDigest(tags);
    NoDigestNoRelease(dialect, BareEntries(tags), found, observed);
  }

  /** projectServiceRelease: the tag is read from the image reference and decides
      which of the two stories is told. */
  method Project(dialect: Dialect, image: string, listing: Listing, observed: string)
    returns (story: Story, found: Findings)
    requires GoodDialect(dialect)
    ensures ExtractTag(image) == "" ==> story == Story("", "", Unknown, false) && Parse(dialect.read, image).None?
    ensures Parse(dialect.read, image).Some? ==>
      && Parse(dialect.read, ExtractTag(image)) == Parse(dialect.read, image)
      && IsPinnedStory(dialect, ExtractTag(image), EntriesOf(listing), listing.known, story)
    ensures ExtractTag(image) != "" && Parse(dialect.read, image).None? ==>
      AreFindings(dialect, EntriesOf(listing), observed, found) && IsMovingStory(listing.known, found, story)
  {
    var tag := ExtractTag(image);
    found := Findings([], [], None, None);
    TrimmedExtracts(image);
    if tag == "" {
      return Story("", "", Unknown, false), found;
    }
    var entries := ListingEntries(listing);
    if Parse(dialect.read, image).Some? {
      TagReadsAlike(dialect.read, image);
      story := PinnedStory(dialect, tag, entries, listing.known);
    } else {
      story, found := MovingStory(dialect, entries, listing.known, observed);
    }
  }
}
