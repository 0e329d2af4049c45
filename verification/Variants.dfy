/** How the text of a docker tag splits into a version and an image variant:
    parseSemverTag, splitSemverVariant and isPrereleaseChannel in
    plugins/docker-app/semver.go. Reading the numbers of a version and the
    identifiers of a prerelease is left to the version library and a parameter. */
module Variants {

  import opened Strings
  import opened Versions
  import opened Tags

  // ------------------------------------------------------------------
  // Prerelease channels
  // ------------------------------------------------------------------

  const CHANNELS: seq<string> := [
    "experimental", "snapshot", "preview", "nightly", "canary",
    "alpha", "beta", "next", "dev", "pre", "rc"]

  predicate IsDigits(value: string) {
    value != "" && forall i :: 0 <= i < |value| ==> '0' <= value[i] <= '9'
  }

  // The text of a prerelease holds ASCII only.
  function Lower(value: string): string {
    seq(|value|, i requires 0 <= i < |value| => if 'A' <= value[i] <= 'Z' then 'a' + (value[i] - 'A') else value[i])
  }

  predicate IsWord(part: string) {
    && part != ""
    && forall i :: 0 <= i < |part| ==>
         'a' <= part[i] <= 'z' || 'A' <= part[i] <= 'Z' || '0' <= part[i] <= '9' || part[i] == '-'
  }

  // isPrereleaseRemainder, or nothing at all.
  predicate IsRemainder(extra: string) {
    extra == "" || forall i :: 0 <= i < |Split(extra, '.')| ==> IsWord(Split(extra, '.')[i])
  }

  // strings.Cut at a one-character separator.
  function Cut(value: string, separator: char): (parts: (string, string, bool))
    ensures parts.2 <==> separator in value
    ensures value == if parts.2 then parts.0 + [separator] + parts.1 else parts.0
    ensures separator !in parts.0 && (!parts.2 ==> parts.1 == "")
  {
    if separator in value then
      var i := FirstIndex(value, separator);
      assert value == value[..i] + [separator] + value[i + 1..];
      (value[..i], value[i + 1..], true)
    else (value, "", false)
  }

  // A channel name, perhaps with a number behind it.
  predicate Continues(ident: string, name: string) {
    ident == name || (|ident| > |name| && HasPrefix(ident, name) && IsDigits(ident[|name|..]))
  }

  predicate IsChannel(token: string) {
    && token != ""
    && var parts := Cut(Lower(token), '.');
       && (IsDigits(parts.0) || exists k :: 0 <= k < |CHANNELS| && Continues(parts.0, CHANNELS[k]))
       && IsRemainder(parts.1)
  }

  lemma NumberedIsChannel(name: string, number: string, k: nat)
    requires k < |CHANNELS| && CHANNELS[k] == name && name != "" && '.' !in name && Lower(name) == name
    requires number == "" || IsDigits(number)
    ensures IsChannel(name + number)
  {
    var token := name + number;
    assert Lower(token) == token && '.' !in token;
    assert token[|name|..] == number && token[..|name|] == name;
    assert Continues(token, CHANNELS[k]);
  }

  /** The names of the channels, each perhaps with a number behind it. */
  lemma NamesAreChannels(name: string, number: string)
    requires name in [
               "experimental", "snapshot", "preview", "nightly", "canary",
               "alpha", "beta", "next", "dev", "pre", "rc"]
    requires number == "" || IsDigits(number)
    ensures IsChannel(name + number)
  {
    var k :| 0 <= k < |CHANNELS| && CHANNELS[k] == name;
    assert '.' !in name && Lower(name) == name;
    NumberedIsChannel(name, number, k);
  }

  /** isPrereleaseChannel: the first name that continues decides. */
  method FindChannel(token: string) returns (found: bool)
    ensures found <==> IsChannel(token)
  {
    if token == "" {
      return false;
    }
    var parts := Cut(Lower(token), '.');
    if IsDigits(parts.0) {
      return IsRemainder(parts.1);
    }
    for k := 0 to |CHANNELS|
      invariant forall j :: 0 <= j < k ==> !Continues(parts.0, CHANNELS[j])
    {
      if Continues(parts.0, CHANNELS[k]) {
        return IsRemainder(parts.1);
      }
    }
    return false;
  }

  // ------------------------------------------------------------------
  // The split
  // ------------------------------------------------------------------

  // splitSemverVariant: a prerelease channel up to the first hyphen, and the rest.
  function SplitVariant(pre: string): (parts: (string, string))
    ensures parts.0 == "" || IsChannel(parts.0)
  {
    var cut := Cut(pre, '-');
    if pre == "" then ("", "")
    else if IsChannel(cut.0) then (cut.0, cut.1)
    else ("", pre)
  }

  // The text that a prerelease and a variant were written with.
  function Joined(prerelease: string, variant: string): string {
    if variant == "" then prerelease else if prerelease == "" then variant else prerelease + "-" + variant
  }

  // A channel followed by a hyphen and nothing else.
  predicate EndsInHyphen(pre: string) {
    var cut := Cut(pre, '-');
    cut.2 && cut.1 == "" && IsChannel(cut.0)
  }

  /** The split gives the text back exactly unless it is a channel with a bare
      hyphen behind it: "rc-" reads as "rc". */
  lemma SplitLosesOnlyHyphen(pre: string)
    ensures var parts := SplitVariant(pre); Joined(parts.0, parts.1) == pre <==> !EndsInHyphen(pre)
    ensures var parts := SplitVariant(pre); EndsInHyphen(pre) ==> Joined(parts.0, parts.1) + "-" == pre
  {
  }

  lemma RcIsChannel()
    ensures IsChannel("rc")
  {
    NamesAreChannels("rc", "");
    assert "rc" + "" == "rc";
  }

  /** The shortest such text. */
  lemma RcHyphenReadsAsRc()
    ensures SplitVariant("rc-") == ("rc", "") == SplitVariant("rc")
  {
    var cut := Cut("rc-", '-');
    assert "rc-"[2] == '-';
    assert |cut.0| == 2;
    assert cut.0 == "rc";
    RcIsChannel();
  }

  lemma PlainCut(head: string, tail: string, separator: char)
    requires separator !in head
    ensures Cut(head + [separator] + tail, separator) == (head, tail, true)
    ensures Cut(head, separator) == (head, "", false)
  {
    var text := head + [separator] + tail;
    assert text[|head|] == separator;
    assert FirstIndex(text, separator) == |head| by {
      assert text[..|head|] == head;
    }
    assert text[..|head|] == head && text[|head| + 1..] == tail;
  }

  lemma LowerParts(head: string, extra: string)
    requires '.' !in head
    ensures '.' !in Lower(head) && Lower(head + "." + extra) == Lower(head) + "." + Lower(extra)
    ensures Lower(extra) == "" <==> extra == ""
  {
    forall c | c in Lower(head)
      ensures c != '.'
    {
      var i :| 0 <= i < |head| && Lower(head)[i] == c;
      assert head[i] != '.';
    }
  }

  /** Behind a channel and a dot anything may follow that is made of words of letters,
      digits and hyphens between dots. */
  lemma RemainderDecides(head: string, extra: string)
    requires '.' !in head && IsChannel(head)
    ensures IsChannel(head + "." + extra) <==> IsRemainder(Lower(extra))
  {
    var token := head + "." + extra;
    LowerParts(head, extra);
    PlainCut(Lower(head), Lower(extra), '.');
    assert Cut(Lower(token), '.') == (Lower(head), Lower(extra), true);
    assert Cut(Lower(head), '.') == (Lower(head), "", false);
  }

  // A text that starts with no digit and with no channel name is no channel.
  lemma NoChannel(token: string)
    requires token != "" && !('0' <= token[0] <= '9') && '.' !in token && Lower(token) == token
    requires forall k :: 0 <= k < |CHANNELS| ==> !HasPrefix(token, CHANNELS[k])
    ensures !IsChannel(token)
  {
    var parts := Cut(token, '.');
    forall k | 0 <= k < |CHANNELS|
      ensures !Continues(parts.0, CHANNELS[k])
    {
    }
  }

  /** A channel up to the first hyphen is the prerelease and what follows the
      variant; a text whose start is no channel is all variant. */
  lemma SplitMeans(head: string, tail: string)
    requires '-' !in head && head != ""
    ensures IsChannel(head) ==>
              SplitVariant(head + "-" + tail) == (head, tail) && SplitVariant(head) == (head, "")
    ensures !IsChannel(head) ==>
              SplitVariant(head + "-" + tail) == ("", head + "-" + tail) && SplitVariant(head) == ("", head)
  {
    PlainCut(head, tail, '-');
  }

  /** The prerelease that is split off has no variant left in it. */
  lemma SplitTwice(pre: string)
    ensures SplitVariant(SplitVariant(pre).0) == (SplitVariant(pre).0, "")
  {
  }

  // The text as it is read: without the bare hyphen.
  function Trimmed(pre: string): string {
    if EndsInHyphen(pre) then pre[..|pre| - 1] else pre
  }

  lemma TrimmedIsJoined(pre: string)
    ensures Trimmed(pre) == Joined(SplitVariant(pre).0, SplitVariant(pre).1)
  {
  }

  lemma TrimmedSplits(pre: string)
    ensures SplitVariant(Trimmed(pre)) == SplitVariant(pre)
  {
  }

  /** Two texts split alike exactly when they are the same up to that hyphen. */
  lemma SplitAlike(a: string, b: string)
    ensures SplitVariant(a) == SplitVariant(b) <==> Trimmed(a) == Trimmed(b)
  {
    TrimmedIsJoined(a);
    TrimmedIsJoined(b);
    TrimmedSplits(a);
    TrimmedSplits(b);
  }

  // ------------------------------------------------------------------
  // Reading a tag
  // ------------------------------------------------------------------

  // A version as the library reads it, its prerelease still a text.
  datatype Raw = Raw(major: nat, minor: nat, patch: nat, pre: string)

  datatype Library = Library(read: string -> Option<Raw>, identifiers: string -> Option<seq<Ident>>)

  // What is assumed of the library: it reads only version characters, what it
  // reads as prerelease has identifiers, and texts with the same identifiers are
  // the same.
  ghost predicate GoodLibrary(library: Library) {
    && (forall text :: library.read(text).Some? ==> IsTagText(text))
    && (forall text :: library.read(text).Some? ==> library.identifiers(library.read(text).value.pre).Some?)
    && library.identifiers("") == Some([])
    && (forall a, b :: library.identifiers(a).Some? && library.identifiers(a) == library.identifiers(b) ==> a == b)
  }

  // normalizeVPrefix.
  function NormalizeV(tag: string): string {
    if |tag| >= 2 && tag[0] == 'V' && '0' <= tag[1] <= '9' then "v" + tag[1..] else tag
  }

  // parseSemverTag after the tag is cut out.
  function ReadTag(library: Library, tag: string): Option<Parsed> {
    var raw := library.read(NormalizeV(tag));
    if raw.None? then None else
      var parts := SplitVariant(raw.value.pre);
      var pre := library.identifiers(parts.0);
      if pre.None? then None
      else Some(Parsed(Version(raw.value.major, raw.value.minor, raw.value.patch, pre.value), parts.1))
  }

  /** What a tag reads as, field by field: the numbers are those the library reads, the
      prerelease and the variant are what its prerelease text splits into. */
  lemma ReadTagMeans(library: Library, tag: string)
    requires ReadTag(library, tag).Some?
    ensures var raw, parsed := library.read(NormalizeV(tag)), ReadTag(library, tag).value;
            && raw.Some? && parsed.version.major == raw.value.major
            && parsed.version.minor == raw.value.minor && parsed.version.patch == raw.value.patch
            && Some(parsed.version.pre) == library.identifiers(SplitVariant(raw.value.pre).0)
            && parsed.variant == SplitVariant(raw.value.pre).1
  {
  }

  /** A capital V in front of a digit reads as a small one. */
  lemma CapitalVReadsAlike(library: Library, rest: string)
    requires rest != "" && '0' <= rest[0] <= '9'
    ensures ReadTag(library, "V" + rest) == ReadTag(library, "v" + rest)
  {
    assert ("V" + rest)[1..] == rest;
  }

  function GrammarOf(library: Library): Grammar {
    tag => ReadTag(library, tag)
  }

  lemma NormalizedText(tag: string)
    requires IsTagText(NormalizeV(tag))
    ensures IsTagText(tag)
  {
    var text := NormalizeV(tag);
    assert |text| == |tag| && forall i :: 1 <= i < |tag| ==> text[i] == tag[i];
    assert text != tag ==> tag[0] == 'V';
    assert forall i :: 0 <= i < |tag| ==> tag[i] == text[i] || tag[i] == 'V';
  }

  /** The reading that the plugin makes of tags is one that the selection of
      candidates and the release lines may rely on. */
  lemma GrammarIsGood(library: Library)
    requires GoodLibrary(library)
    ensures GoodGrammar(GrammarOf(library))
  {
    forall tag | GrammarOf(library)(tag).Some?
      ensures IsTagText(tag)
    {
      assert ReadTag(library, tag).Some?;
      NormalizedText(tag);
    }
  }

  /** Two tags read as the same version and variant exactly when their numbers
      agree and their prerelease texts do, up to a bare hyphen at the end. */
  lemma TagsReadAlike(library: Library, a: string, b: string)
    requires GoodLibrary(library) && ReadTag(library, a).Some? && ReadTag(library, b).Some?
    ensures var x, y := library.read(NormalizeV(a)).value, library.read(NormalizeV(b)).value;
      ReadTag(library, a) == ReadTag(library, b) <==>
      x.major == y.major && x.minor == y.minor && x.patch == y.patch && Trimmed(x.pre) == Trimmed(y.pre)
  {
    var x, y := library.read(NormalizeV(a)).value, library.read(NormalizeV(b)).value;
    SplitAlike(x.pre, y.pre);
  }

  /** So the tags 1.0.0-rc- and 1.0.0-rc are one version. */
  lemma HyphenIsLost(library: Library, a: string, b: string)
    requires GoodLibrary(library)
    requires library.read(NormalizeV(a)) == Some(Raw(1, 0, 0, "rc-"))
    requires library.read(NormalizeV(b)) == Some(Raw(1, 0, 0, "rc"))
    ensures ReadTag(library, a).Some? && ReadTag(library, a) == ReadTag(library, b)
  {
    RcHyphenReadsAsRc();
  }
}
