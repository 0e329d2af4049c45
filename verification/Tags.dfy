/** Reading docker tags and choosing upgrade candidates among them:
    plugins/docker-app/semver.go. How the text of a tag splits into a version and
    an image variant is a parameter; how the tag is cut out of an image reference
    is not. */
module Tags {

  import opened Versions
  import opened Strings

  datatype Parsed = Parsed(version: Version, variant: string)

  // What the text of a tag means: its version and its variant such as alpine.
  type Grammar = string -> Option<Parsed>

  predicate IsTagText(tag: string) {
    && tag != "" && '/' !in tag && ':' !in tag && '@' !in tag
    && forall i :: 0 <= i < |tag| ==> !IsSpace(tag[i])
  }

  // A version holds none of the characters that separate the parts of a reference.
  ghost predicate GoodGrammar(grammar: Grammar) {
    forall tag :: grammar(tag).Some? ==> IsTagText(tag)
  }

  function LastIndex(value: string, c: char): (i: nat)
    requires c in value
    ensures i < |value| && value[i] == c && c !in value[i + 1..]
  {
    if value[|value| - 1] == c then |value| - 1 else
      assert c in value[..|value| - 1];
      LastIndex(value[..|value| - 1], c)
  }

  function FirstIndex(value: string, c: char): (i: nat)
    requires c in value
    ensures i < |value| && value[i] == c && c !in value[..i]
  {
    if value[0] == c then 0 else
      assert c in value[1..];
      1 + FirstIndex(value[1..], c)
  }

  // stripImageDigest.
  function StripDigest(ref: string): string {
    var r := TrimSpace(ref);
    if '@' in r then TrimSpace(r[..LastIndex(r, '@')]) else r
  }

  function TagOfName(ref: string): string {
    var name := if '/' in ref then ref[LastIndex(ref, '/') + 1..] else ref;
    if ':' in name then name[FirstIndex(name, ':') + 1..]
    else if '/' in ref then "" else ref
  }

  // extractDockerTag.
  function ExtractTag(ref: string): string {
    TagOfName(StripDigest(ref))
  }

  // parseSemverTag.
  function Parse(grammar: Grammar, raw: string): Option<Parsed> {
    var tag := ExtractTag(TrimSpace(raw));
    if tag == "" then None else grammar(tag)
  }

  lemma TagTextIsItself(tag: string)
    requires IsTagText(tag)
    ensures ExtractTag(TrimSpace(tag)) == tag
  {
  }

  lemma TrimmedExtracts(ref: string)
    ensures ExtractTag(TrimSpace(ref)) == ExtractTag(ref)
  {
    TrimTwice(ref);
    assert StripDigest(TrimSpace(ref)) == StripDigest(ref);
  }

  /** The tag cut out of an image reference reads as the same version and variant
      as the reference itself. */
  lemma TagReadsAlike(grammar: Grammar, image: string)
    requires GoodGrammar(grammar) && Parse(grammar, image).Some?
    ensures Parse(grammar, ExtractTag(image)) == Parse(grammar, image)
  {
    TrimmedExtracts(image);
    TagTextIsItself(ExtractTag(image));
  }

  predicate IsPlain(text: string) {
    text != "" && !IsSpace(text[0]) && !IsSpace(text[|text| - 1]) && '@' !in text
  }

  lemma ColonEndsName(name: string, tag: string)
    requires ':' !in name
    ensures ':' in name + ":" + tag && FirstIndex(name + ":" + tag, ':') == |name|
    ensures (name + ":" + tag)[|name| + 1..] == tag
  {
    var text := name + ":" + tag;
    assert text[|name|] == ':';
    assert text[..|name|] == name;
  }

  lemma PlainTagOfName(path: string, name: string, tag: string)
    requires '/' !in name && ':' !in name && '/' !in tag
    ensures TagOfName(path + "/" + name + ":" + tag) == tag
    ensures TagOfName(path + "/" + name) == ""
    ensures TagOfName(name + ":" + tag) == tag
  {
    var ref := path + "/" + name + ":" + tag;
    assert ref[|path|] == '/' && ref[|path| + 1..] == name + ":" + tag;
    assert LastIndex(ref, '/') == |path|;
    ColonEndsName(name, tag);
    var bare := path + "/" + name;
    assert bare[|path|] == '/' && bare[|path| + 1..] == name;
    assert LastIndex(bare, '/') == |path|;
  }

  lemma WithoutDigest(ref: string, digest: string)
    requires ref != "" && !IsSpace(ref[0]) && !IsSpace(ref[|ref| - 1])
    requires '@' !in digest && digest != "" && !IsSpace(digest[|digest| - 1])
    ensures StripDigest(ref + "@" + digest) == ref && ('@' !in ref ==> StripDigest(ref) == ref)
  {
    var long := ref + "@" + digest;
    assert long[|ref|] == '@' && long[..|ref|] == ref && long[|ref| + 1..] == digest;
    assert TrimSpace(ref) == ref && TrimSpace(long) == long;
    assert LastIndex(long, '@') == |ref|;
  }

  /** The tag of an image reference is what stands behind the first colon of its last
      path component; a digest behind an at sign does not belong to it, and a path
      without a colon in its last component has no tag. */
  lemma TagOfReference(path: string, name: string, tag: string, digest: string)
    requires '/' !in name && ':' !in name && '/' !in tag && '@' !in digest
    requires IsPlain(path + "/" + name + ":" + tag) && IsPlain(path + "/" + name)
    requires digest != "" && !IsSpace(digest[|digest| - 1])
    ensures ExtractTag(path + "/" + name + ":" + tag) == tag
    ensures ExtractTag(path + "/" + name + ":" + tag + "@" + digest) == tag
    ensures ExtractTag(path + "/" + name) == ""
  {
    var ref := path + "/" + name + ":" + tag;
    PlainTagOfName(path, name, tag);
    WithoutDigest(ref, digest);
    WithoutDigest(path + "/" + name, digest);
  }

  // ------------------------------------------------------------------
  // Candidates
  // ------------------------------------------------------------------

  const MAX_LISTED := 20

  // An npm-style range; whether prereleases are included is decided by the caller.
  datatype Constraint = Any | Malformed | Range(check: (bool, Version) -> bool)

  predicate Eligible(current: Parsed, constraint: Constraint, candidate: Parsed) {
    && candidate.variant == current.variant
    && Compare(candidate.version, current.version) > 0
    && match constraint
       case Any => candidate.version.pre == [] || current.version.pre != []
       case Malformed => false
       case Range(check) => check(current.version.pre != [], candidate.version)
  }

  // The version a tag offers, if it is eligible.
  function Offer(grammar: Grammar, current: Parsed, constraint: Constraint, tag: string): Option<Version> {
    var parsed := Parse(grammar, tag);
    if parsed.Some? && Eligible(current, constraint, parsed.value) then Some(parsed.value.version) else None
  }

  datatype Ranked = Ranked(tag: string, version: Option<Version>)

  function Listed(tags: seq<string>, offer: string -> Option<Version>): seq<Ranked> {
    seq(|tags|, i requires 0 <= i < |tags| => Ranked(tags[i], offer(tags[i])))
  }

  predicate Above(a: Ranked, b: Ranked) {
    a.version.Some? && b.version.Some? && Compare(a.version.value, b.version.value) > 0
  }

  predicate Unseen(items: seq<Ranked>, item: Ranked) {
    item.version.Some? && forall j :: 0 <= j < |items| ==> items[j].version != item.version
  }

  // The item is the first listed with its version.
  ghost predicate First(listed: seq<Ranked>, item: Ranked) {
    exists k :: 0 <= k < |listed| && listed[k] == item && Unseen(listed[..k], item)
  }

  ghost predicate Descending(items: seq<Ranked>) {
    forall i, j :: 0 <= i < j < |items| ==> Above(items[i], items[j])
  }

  ghost predicate Placed(items: seq<Ranked>, item: Ranked) {
    || !Unseen(items, item)
    || (|items| == MAX_LISTED && forall i :: 0 <= i < |items| ==> Above(items[i], item))
  }

  // The first listed tags of the highest eligible versions, highest first: an
  // eligible version that is left out is below twenty others.
  ghost predicate IsSelection(listed: seq<Ranked>, items: seq<Ranked>) {
    && |items| <= MAX_LISTED && Descending(items)
    && (forall i {:trigger First(listed, items[i])} :: 0 <= i < |items| ==> First(listed, items[i]))
    && (forall k {:trigger Placed(items, listed[k])} ::
          0 <= k < |listed| && listed[k].version.Some? ==> Placed(items, listed[k]))
  }

  // Where two selections agree so far, the second goes on with a version at
  // least as high as the first does.
  lemma NotBelow(listed: seq<Ranked>, a: seq<Ranked>, b: seq<Ranked>, i: nat)
    requires IsSelection(listed, a) && IsSelection(listed, b) && i < |a|
    requires i <= |b| && a[..i] == b[..i]
    ensures i < |b| && (Above(b[i], a[i]) || b[i].version == a[i].version)
  {
    assert First(listed, a[i]);
    assert Placed(b, a[i]);
    Trichotomy(a[i].version.value, a[i].version.value);
    if !Unseen(b, a[i]) {
      var j :| 0 <= j < |b| && b[j].version == a[i].version;
      assert forall m :: 0 <= m < i ==> a[m] == b[m] by {
        assert forall m :: 0 <= m < i ==> a[..i][m] == b[..i][m];
      }
      assert j >= i;
    }
  }

  lemma FirstIsUnique(listed: seq<Ranked>, x: Ranked, y: Ranked)
    requires First(listed, x) && First(listed, y)
    ensures x.version == y.version ==> x == y
  {
  }

  lemma AgreeAt(listed: seq<Ranked>, a: seq<Ranked>, b: seq<Ranked>, i: nat)
    requires IsSelection(listed, a) && IsSelection(listed, b) && i < |a|
    requires i <= |b| && a[..i] == b[..i]
    ensures i < |b| && a[i] == b[i]
  {
    NotBelow(listed, a, b, i);
    NotBelow(listed, b, a, i);
    assert First(listed, a[i]) && First(listed, b[i]);
    FirstIsUnique(listed, a[i], b[i]);
    Trichotomy(a[i].version.value, b[i].version.value);
  }

  lemma {:induction false} AgreeUpTo(listed: seq<Ranked>, a: seq<Ranked>, b: seq<Ranked>, n: nat)
    requires IsSelection(listed, a) && IsSelection(listed, b) && n <= |a|
    ensures n <= |b| && a[..n] == b[..n]
  {
    if n > 0 {
      AgreeUpTo(listed, a, b, n - 1);
      AgreeAt(listed, a, b, n - 1);
      assert a[..n] == a[..n - 1] + [a[n - 1]] && b[..n] == b[..n - 1] + [b[n - 1]];
    }
  }

  /** There is only one such selection. */
  lemma SelectionIsUnique(listed: seq<Ranked>, a: seq<Ranked>, b: seq<Ranked>)
    requires IsSelection(listed, a) && IsSelection(listed, b)
    ensures a == b
  {
    AgreeUpTo(listed, a, b, |a|);
    AgreeUpTo(listed, b, a, |b|);
  }

  // One tag for each eligible version: the first that offers it.
  ghost predicate IsCollected(listed: seq<Ranked>, items: seq<Ranked>) {
    && (forall i, j :: 0 <= i < j < |items| ==> items[i].version != items[j].version)
    && (forall i {:trigger First(listed, items[i])} :: 0 <= i < |items| ==> First(listed, items[i]))
    && (forall k {:trigger Unseen(items, listed[k])} :: 0 <= k < |listed| ==> !Unseen(items, listed[k]))
  }

  lemma SeenStays(items: seq<Ranked>, next: Ranked, item: Ranked)
    requires !Unseen(items, item) || item == next
    ensures !Unseen(items + [next], item)
  {
    var longer := items + [next];
    assert longer[|items|] == next;
    if j :| 0 <= j < |items| && items[j].version == item.version {
      assert longer[j].version == item.version;
    }
  }

  lemma FirstStays(listed: seq<Ranked>, next: Ranked, item: Ranked)
    requires First(listed, item)
    ensures First(listed + [next], item)
  {
    var k :| 0 <= k < |listed| && listed[k] == item && Unseen(listed[..k], item);
    assert (listed + [next])[k] == item && (listed + [next])[..k] == listed[..k];
  }

  lemma NewIsFirst(listed: seq<Ranked>, next: Ranked, items: seq<Ranked>)
    requires IsCollected(listed, items) && Unseen(items, next)
    ensures First(listed + [next], next)
  {
    forall j | 0 <= j < |listed|
      ensures listed[j].version != next.version
    {
      assert !Unseen(items, listed[j]);
    }
    assert (listed + [next])[..|listed|] == listed && (listed + [next])[|listed|] == next;
  }

  lemma CollectNew(listed: seq<Ranked>, next: Ranked, items: seq<Ranked>)
    requires IsCollected(listed, items) && Unseen(items, next)
    ensures IsCollected(listed + [next], items + [next])
  {
    NewIsFirst(listed, next, items);
    forall i | 0 <= i < |items|
      ensures First(listed + [next], items[i])
    {
      assert First(listed, items[i]);
      FirstStays(listed, next, items[i]);
    }
    forall k | 0 <= k < |listed| + 1
      ensures !Unseen(items + [next], (listed + [next])[k])
    {
      assert k < |listed| ==> !Unseen(items, listed[k]);
      SeenStays(items, next, (listed + [next])[k]);
    }
  }

  lemma CollectSeen(listed: seq<Ranked>, next: Ranked, items: seq<Ranked>)
    requires IsCollected(listed, items) && !Unseen(items, next)
    ensures IsCollected(listed + [next], items)
  {
    forall i | 0 <= i < |items|
      ensures First(listed + [next], items[i])
    {
      assert First(listed, items[i]);
      FirstStays(listed, next, items[i]);
    }
    assert forall k :: 0 <= k < |listed| ==> (listed + [next])[k] == listed[k] && !Unseen(items, listed[k]);
  }

  method Collect(tags: seq<string>, offer: string -> Option<Version>) returns (selected: seq<Ranked>)
    ensures IsCollected(Listed(tags, offer), selected)
  {
    ghost var listed := Listed(tags, offer);
    var seen: set<Option<Version>> := {};
    selected := [];
    for i := 0 to |tags|
      invariant IsCollected(listed[..i], selected)
      invariant seen == set item | item in selected :: item.version
    {
      var next := Ranked(tags[i], offer(tags[i]));
      assert listed[..i + 1] == listed[..i] + [next];
      if next.version.Some? && next.version !in seen {
        CollectNew(listed[..i], next, selected);
        seen := seen + {next.version};
        selected := selected + [next];
      } else {
        CollectSeen(listed[..i], next, selected);
      }
    }
    assert listed[..|tags|] == listed;
  }

  lemma BelowTheRest(items: seq<Ranked>, item: Ranked, i: nat)
    requires Descending(items) && item.version.Some? && i <= |items|
    requires forall k :: 0 <= k < |items| ==> items[k].version.Some? && items[k].version != item.version
    requires forall k :: 0 <= k < i ==> Above(items[k], item)
    requires i < |items| ==> !Above(items[i], item)
    ensures Descending(items[..i] + [item] + items[i..])
  {
    forall k | i <= k < |items|
      ensures Above(item, items[k])
    {
      Trichotomy(item.version.value, items[i].version.value);
      if k > i {
        Transitive(item.version.value, items[i].version.value, items[k].version.value);
      }
    }
  }

  method Insert(items: seq<Ranked>, item: Ranked) returns (longer: seq<Ranked>)
    requires Descending(items) && item.version.Some?
    requires forall k :: 0 <= k < |items| ==> items[k].version.Some? && items[k].version != item.version
    ensures multiset(longer) == multiset(items) + multiset{item} && Descending(longer)
  {
    var i := 0;
    while i < |items| && Above(items[i], item)
      invariant 0 <= i <= |items|
      invariant forall k :: 0 <= k < i ==> Above(items[k], item)
    {
      i := i + 1;
    }
    BelowTheRest(items, item, i);
    longer := items[..i] + [item] + items[i..];
    assert items == items[..i] + items[i..];
  }

  // The source sorts with the library's sort; with distinct versions every sort
  // gives the same result.
  method SortDescending(items: seq<Ranked>) returns (sorted: seq<Ranked>)
    requires forall i :: 0 <= i < |items| ==> items[i].version.Some?
    requires forall i, j :: 0 <= i < j < |items| ==> items[i].version != items[j].version
    ensures multiset(sorted) == multiset(items) && Descending(sorted)
  {
    sorted := [];
    for i := 0 to |items|
      invariant multiset(sorted) == multiset(items[..i]) && Descending(sorted)
    {
      assert items[..i + 1] == items[..i] + [items[i]];
      forall k | 0 <= k < |sorted|
        ensures sorted[k].version.Some? && sorted[k].version != items[i].version
      {
        assert sorted[k] in multiset(items[..i]);
      }
      sorted := Insert(sorted, items[i]);
    }
    assert items[..|items|] == items;
  }

  lemma SelectTop(listed: seq<Ranked>, collected: seq<Ranked>, sorted: seq<Ranked>, items: seq<Ranked>)
    requires IsCollected(listed, collected)
    requires multiset(sorted) == multiset(collected) && Descending(sorted)
    requires items == if |sorted| > MAX_LISTED then sorted[..MAX_LISTED] else sorted
    ensures IsSelection(listed, items)
  {
    forall i | 0 <= i < |items|
      ensures First(listed, items[i])
    {
      assert sorted[i] in multiset(collected);
      var k :| 0 <= k < |collected| && collected[k] == sorted[i];
      assert First(listed, collected[k]);
    }
    forall k | 0 <= k < |listed| && listed[k].version.Some?
      ensures Placed(items, listed[k])
    {
      assert !Unseen(collected, listed[k]);
      var j :| 0 <= j < |collected| && collected[j].version == listed[k].version;
      assert collected[j] in multiset(sorted);
      var i :| 0 <= i < |sorted| && sorted[i] == collected[j];
      if i < |items| {
        assert items[i].version == listed[k].version;
      }
    }
  }

  // The candidate is above the current version and of the same variant, and it is
  // no prerelease unless the current one is, or else the range accepts it.
  ghost predicate Upgrades(current: Parsed, constraint: Constraint, candidate: Parsed) {
    && candidate.variant == current.variant && Precedes(current.version, candidate.version)
    && (constraint.Any? ==> candidate.version.pre == [] || current.version.pre != [])
    && (constraint.Range? ==> constraint.check(current.version.pre != [], candidate.version))
  }

  lemma EligibleMeans(current: Parsed, constraint: Constraint, candidate: Parsed)
    requires !constraint.Malformed?
    ensures Eligible(current, constraint, candidate) <==> Upgrades(current, constraint, candidate)
  {
    CompareMeans(candidate.version, current.version);
  }

  // The tag reads as an upgrade to this version.
  ghost predicate UpgradesTo(grammar: Grammar, current: Parsed, constraint: Constraint, tag: string, version: Version) {
    && Parse(grammar, tag).Some? && Parse(grammar, tag).value.version == version
    && Upgrades(current, constraint, Parse(grammar, tag).value)
  }

  lemma OfferMeans(grammar: Grammar, current: Parsed, constraint: Constraint, tag: string, version: Version)
    requires !constraint.Malformed?
    ensures Offer(grammar, current, constraint, tag) == Some(version)
       <==> UpgradesTo(grammar, current, constraint, tag, version)
  {
    var parsed := Parse(grammar, tag);
    if parsed.Some? {
      EligibleMeans(current, constraint, parsed.value);
    }
  }

  /** What a selection of the eligible tags is for a caller: its tags are upgrades,
      the first listed ones to their versions, highest first, and an upgrade that is
      not among its versions is below all of twenty. */
  lemma SelectionMeans(grammar: Grammar, current: Parsed, constraint: Constraint, tags: seq<string>,
                       items: seq<Ranked>)
    requires !constraint.Malformed?
    requires IsSelection(Listed(tags, tag => Offer(grammar, current, constraint, tag)), items)
    ensures forall i :: 0 <= i < |items| ==> items[i].tag in tags && items[i].version.Some?
    ensures forall i :: 0 <= i < |items| ==>
              UpgradesTo(grammar, current, constraint, items[i].tag, items[i].version.value)
    ensures forall i, j :: 0 <= i < j < |items| ==> Precedes(items[j].version.value, items[i].version.value)
  {
    var listed := Listed(tags, tag => Offer(grammar, current, constraint, tag));
    forall i | 0 <= i < |items|
      ensures items[i].tag in tags && items[i].version.Some?
      ensures UpgradesTo(grammar, current, constraint, items[i].tag, items[i].version.value)
    {
      assert First(listed, items[i]);
      var k :| 0 <= k < |listed| && listed[k] == items[i] && Unseen(listed[..k], items[i]);
      assert items[i].tag == tags[k];
      OfferMeans(grammar, current, constraint, items[i].tag, items[i].version.value);
    }
    forall i, j | 0 <= i < j < |items|
      ensures Precedes(items[j].version.value, items[i].version.value)
    {
      assert Above(items[i], items[j]);
      CompareMeans(items[i].version.value, items[j].version.value);
    }
  }

  lemma FirstIsNotLater(listed: seq<Ranked>, item: Ranked, first: nat, k: nat)
    requires first < |listed| && Unseen(listed[..first], item) && k < |listed| && listed[k].version == item.version
    ensures first <= k
  {
  }

  /** And nothing else is left out: a listed upgrade has its version in the selection,
      under a tag listed no later, or the selection is full and above it. */
  lemma SelectionMisses(grammar: Grammar, current: Parsed, constraint: Constraint, tags: seq<string>,
                        items: seq<Ranked>, k: nat, version: Version)
    requires !constraint.Malformed? && k < |tags|
    requires IsSelection(Listed(tags, tag => Offer(grammar, current, constraint, tag)), items)
    requires UpgradesTo(grammar, current, constraint, tags[k], version)
    ensures || (exists i :: 0 <= i < |items| && items[i].version == Some(version) && items[i].tag in tags[..k + 1])
            || (|items| == 20 && forall i :: 0 <= i < |items| ==>
                  items[i].version.Some? && Precedes(version, items[i].version.value))
  {
    var listed := Listed(tags, tag => Offer(grammar, current, constraint, tag));
    OfferMeans(grammar, current, constraint, tags[k], version);
    assert listed[k] == Ranked(tags[k], Some(version));
    assert Placed(items, listed[k]);
    if !Unseen(items, listed[k]) {
      var i :| 0 <= i < |items| && items[i].version == Some(version);
      assert First(listed, items[i]);
      var first :| 0 <= first < |listed| && listed[first] == items[i] && Unseen(listed[..first], items[i]);
      FirstIsNotLater(listed, items[i], first, k);
      assert tags[..k + 1][first] == items[i].tag;
    } else {
      forall i | 0 <= i < |items|
        ensures items[i].version.Some? && Precedes(version, items[i].version.value)
      {
        assert Above(items[i], listed[k]);
        CompareMeans(items[i].version.value, version);
      }
    }
  }

  // SelectSemverCandidates, with the selected items it takes the tags of.
  method SelectCandidates(grammar: Grammar, current: string, tags: seq<string>, constraint: Constraint)
    returns (out: seq<string>, ghost items: seq<Ranked>)
    ensures |out| == |items| && forall i :: 0 <= i < |out| ==> out[i] == items[i].tag
    ensures Parse(grammar, current).None? || constraint.Malformed? ==> out == []
    ensures Parse(grammar, current).Some? && !constraint.Malformed? ==>
      IsSelection(Listed(tags, tag => Offer(grammar, Parse(grammar, current).value, constraint, tag)), items)
  {
    out, items := [], [];
    var parsed := Parse(grammar, current);
    if parsed.None? || constraint.Malformed? {
      return;
    }
    var offer := tag => Offer(grammar, parsed.value, constraint, tag);
    var collected := Collect(tags, offer);
    assert forall i :: 0 <= i < |collected| ==> First(Listed(tags, offer), collected[i]);
    var sorted := SortDescending(collected);
    var top := if |sorted| > MAX_LISTED then sorted[..MAX_LISTED] else sorted;
    SelectTop(Listed(tags, offer), collected, sorted, top);
    items := top;
    out := seq(|top|, i requires 0 <= i < |top| => top[i].tag);
    assert Listed(tags, offer) == Listed(tags, tag => Offer(grammar, Parse(grammar, current).value, constraint, tag));
  }

  lemma NotBeforeItself(v: Version)
    ensures !Precedes(v, v)
  {
    CompareMeans(v, v);
    Trichotomy(v, v);
  }

  lemma OneTagOneItem(grammar: Grammar, current: Parsed, constraint: Constraint, tag: string, items: seq<Ranked>)
    requires !constraint.Malformed?
    requires IsSelection(Listed([tag], tag => Offer(grammar, current, constraint, tag)), items)
    ensures |items| <= 1
  {
    SelectionMeans(grammar, current, constraint, [tag], items);
    if |items| > 1 {
      assert items[0].tag == tag && items[1].tag == tag;
      NotBeforeItself(items[0].version.value);
      assert false;
    }
  }

  /** A higher major version is offered whatever the minor version of the current
      one: to 1.5.0 the tag 2.0.0. */
  method OffersNextMajor(grammar: Grammar, current: string, next: string) returns (out: seq<string>)
    requires Parse(grammar, current) == Some(Parsed(Version(1, 5, 0, []), ""))
    requires Parse(grammar, next) == Some(Parsed(Version(2, 0, 0, []), ""))
    ensures out == [next]
  {
    ghost var items;
    out, items := SelectCandidates(grammar, current, [next], Any);
    ghost var parsed := Parse(grammar, current).value;
    SelectionMisses(grammar, parsed, Any, [next], items, 0, Version(2, 0, 0, []));
    SelectionMeans(grammar, parsed, Any, [next], items);
    OneTagOneItem(grammar, parsed, Any, next, items);
  }
}
