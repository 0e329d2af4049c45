/** Domain normalization and longest-suffix matching of
    plugins/cloudflare-dns/suffix.go. */
module Suffix {

  import opened Strings

  // Section 2.3.4 of RFC 1035 limits labels to 63 octets and names to 255
  // octets on the wire, which leaves 253 for the dotted form.
  const MAX_NAME := 253
  const MAX_LABEL := 63

  // ------------------------------------------------------------------
  // Normalization
  // ------------------------------------------------------------------

  // The lower-case form of an upper-case rune. Besides A to Z only the dotted
  // capital I and the Kelvin sign have an ASCII lower case; every other rune
  // outside ASCII keeps one outside ASCII and is refused later.
  function ToLower(c: char): char {
    if 'A' <= c <= 'Z' then 'a' + (c - 'A')
    else if c == '\U{130}' then 'i'
    else if c == '\U{212A}' then 'k'
    else c
  }

  predicate IsAscii(c: char) {
    c as int <= 127
  }

  function Lowered(value: string): string {
    seq(|value|, i requires 0 <= i < |value| => ToLower(value[i]))
  }

  function TrimDot(value: string): string {
    if value != "" && value[|value| - 1] == '.' then value[..|value| - 1] else value
  }

  predicate IsLabelChar(c: char) {
    'a' <= c <= 'z' || '0' <= c <= '9' || c == '-'
  }

  predicate IsLabel(part: string) {
    && 0 < |part| <= MAX_LABEL
    && part[0] != '-' && part[|part| - 1] != '-'
    && forall i :: 0 <= i < |part| ==> IsLabelChar(part[i])
  }

  predicate AllLabels(labels: seq<string>) {
    forall i :: 0 <= i < |labels| ==> IsLabel(labels[i])
  }

  // A name in normal form.
  predicate IsName(value: string) {
    0 < |value| <= MAX_NAME && AllLabels(Split(value, '.'))
  }

  /** Labels have at most 63 characters. */
  lemma LongestLabel(count: nat)
    ensures IsLabel(seq(count, _ => 'a')) <==> 1 <= count <= 63
  {
  }

  function Normalized(value: string): (r: Option<string>)
    ensures r.Some? ==> IsName(r.value)
  {
    var trimmed := TrimSpace(value);
    var lowered := Lowered(trimmed);
    var name := TrimDot(lowered);
    if (forall i :: 0 <= i < |lowered| ==> IsAscii(lowered[i])) && IsName(name) then Some(name) else None
  }

  // The characters and dots of a name whose first label may be cut short.
  lemma {:induction false} LabelsOfName(value: string)
    requires forall i :: 1 <= i < |Split(value, '.')| ==> IsLabel(Split(value, '.')[i])
    requires forall i :: 0 <= i < |Split(value, '.')[0]| ==> IsLabelChar(Split(value, '.')[0][i])
    ensures forall i :: 0 <= i < |value| ==> IsLabelChar(value[i]) || value[i] == '.'
    ensures forall i :: 0 <= i < |value| - 1 ==> !(value[i] == '.' && value[i + 1] == '.')
    ensures value != "" ==> (value[0] == '.' <==> Split(value, '.')[0] == "")
    ensures value == "" ==> Split(value, '.') == [""]
    ensures value != "" ==> (value[|value| - 1] == '.' <==> Split(value, '.')[|Split(value, '.')| - 1] == "")
  {
    if value != "" {
      var rest := Split(value[1..], '.');
      if value[0] == '.' {
        assert Split(value, '.')[1..] == rest;
        assert forall i :: 0 <= i < |rest| ==> rest[i] == Split(value, '.')[i + 1];
      } else {
        assert forall i :: 1 <= i < |rest| ==> rest[i] == Split(value, '.')[i];
        assert forall i :: 0 <= i < |rest[0]| ==> rest[0][i] == Split(value, '.')[0][i + 1];
        assert Split(value, '.')[0][0] == value[0];
      }
      LabelsOfName(value[1..]);
    }
  }

  // In a name every character is a label character or a dot, and dots never
  // stand at an end or next to each other.
  lemma {:induction false} LabelsDetermineName(value: string)
    requires AllLabels(Split(value, '.'))
    ensures forall i :: 0 <= i < |value| ==> IsLabelChar(value[i]) || value[i] == '.'
    ensures value != "" && value[0] != '.' && value[|value| - 1] != '.'
    ensures forall i :: 0 <= i < |value| - 1 ==> !(value[i] == '.' && value[i + 1] == '.')
  {
    LabelsOfName(value);
    assert IsLabel(Split(value, '.')[0]) && IsLabel(Split(value, '.')[|Split(value, '.')| - 1]);
  }

  lemma NameIsFixed(name: string)
    requires IsName(name)
    ensures Normalized(name) == Some(name)
  {
    LabelsDetermineName(name);
    assert TrimSpace(name) == name;
    assert Lowered(name) == name;
    assert TrimDot(name) == name;
  }

  /** Normalizing a normal form changes nothing, so query names and configured
      suffixes meet in one form however often either was normalized. */
  lemma NormalizedIdempotent(value: string)
    ensures IsName(value) ==> Normalized(value) == Some(value)
    ensures Normalized(value).Some? ==> Normalized(Normalized(value).value) == Normalized(value)
  {
    if IsName(value) {
      NameIsFixed(value);
    }
    if Normalized(value).Some? {
      NameIsFixed(Normalized(value).value);
    }
  }

  // The text is the name in other letter cases; besides A to Z the dotted capital I
  // and the Kelvin sign are upper-case letters of ASCII ones.
  predicate IsCaseOf(c: char, lower: char) {
    || c == lower
    || ('a' <= lower <= 'z' && c as int == lower as int - 32)
    || (lower == 'i' && c == '\U{130}')
    || (lower == 'k' && c == '\U{212A}')
  }

  predicate IsCasing(text: string, name: string) {
    |text| == |name| && forall i :: 0 <= i < |name| ==> IsCaseOf(text[i], name[i])
  }

  lemma CasingLowers(text: string, name: string)
    requires forall i :: 0 <= i < |name| ==> IsLabelChar(name[i]) || name[i] == '.'
    ensures IsCasing(text, name) <==> Lowered(text) == name
  {
    if |text| == |name| {
      forall i | 0 <= i < |name|
        ensures ToLower(text[i]) == name[i] <==> IsCaseOf(text[i], name[i])
      {
        assert IsLabelChar(name[i]) || name[i] == '.';
      }
      if IsCasing(text, name) {
        assert forall i :: 0 <= i < |name| ==> Lowered(text)[i] == name[i];
      }
    }
  }

  lemma DotIsTrimmed(lowered: string, name: string)
    requires IsName(name)
    ensures TrimDot(lowered) == name <==> lowered == name || lowered == name + "."
    ensures TrimDot(lowered) == name ==> forall i :: 0 <= i < |lowered| ==> IsAscii(lowered[i])
  {
    LabelsDetermineName(name);
    if lowered != "" && lowered[|lowered| - 1] == '.' {
      assert lowered == lowered[..|lowered| - 1] + ".";
    }
  }

  /** Which texts have a normal form, and which: those that are, without the space
      around them and in any letter case, a well-formed name with or without one dot
      behind it. */
  lemma NormalFormOf(value: string, name: string)
    ensures Normalized(value) == Some(name) <==>
            IsName(name) && (IsCasing(TrimSpace(value), name) || IsCasing(TrimSpace(value), name + "."))
  {
    var text := TrimSpace(value);
    if IsName(name) {
      LabelsDetermineName(name);
      CasingLowers(text, name);
      CasingLowers(text, name + ".");
      DotIsTrimmed(Lowered(text), name);
    }
  }

  /** In particular letter case and one dot at the end do not matter. */
  lemma CaseAndDotDoNotMatter(text: string, name: string)
    requires IsName(name) && IsCasing(text, name)
    ensures Normalized(text) == Some(name) && Normalized(text + ".") == Some(name)
  {
    LabelsDetermineName(name);
    assert IsLabelChar(name[0]) && IsLabelChar(name[|name| - 1]);
    assert IsCaseOf(text[0], name[0]) && IsCaseOf(text[|text| - 1], name[|name| - 1]);
    var dotted := text + ".";
    assert TrimSpace(text) == text && TrimSpace(dotted) == dotted;
    assert IsCasing(dotted, name + ".");
    NormalFormOf(text, name);
    NormalFormOf(dotted, name);
  }

  predicate HasDoubleDot(value: string) {
    exists i :: 0 <= i < |value| - 1 && value[i] == '.' && value[i + 1] == '.'
  }

  // The label loop of NormalizeDomain.
  method CheckLabels(name: string) returns (ok: bool)
    ensures ok <==> AllLabels(Split(name, '.'))
  {
    var labels := Split(name, '.');
    for i := 0 to |labels|
      invariant forall j :: 0 <= j < i ==> IsLabel(labels[j])
    {
      var part := labels[i];
      if |part| == 0 || |part| > MAX_LABEL || part[0] == '-' || part[|part| - 1] == '-' {
        assert !IsLabel(labels[i]);
        return false;
      }
      for index := 0 to |part|
        invariant forall j :: 0 <= j < index ==> IsLabelChar(part[j])
      {
        if !IsLabelChar(part[index]) {
          assert !IsLabel(labels[i]);
          return false;
        }
      }
    }
    return true;
  }

  /** NormalizeDomain. The dot checks before the label loop refuse nothing that
      the label loop would accept. */
  method NormalizeDomain(value: string) returns (r: Option<string>)
    ensures r == Normalized(value)
  {
    var trimmed := TrimSpace(value);
    if trimmed == "" {
      return None;
    }
    var builder := "";
    for i := 0 to |trimmed|
      invariant builder == Lowered(trimmed)[..i]
      invariant forall j :: 0 <= j < i ==> IsAscii(Lowered(trimmed)[j])
    {
      var current := ToLower(trimmed[i]);
      if !IsAscii(current) {
        assert !IsAscii(Lowered(trimmed)[i]);
        return None;
      }
      builder := builder + [current];
    }
    assert builder == Lowered(trimmed);
    var name := TrimDot(builder);
    assert IsName(name) ==> !HasDoubleDot(name) && name[0] != '.' && name[|name| - 1] != '.' by {
      if IsName(name) {
        LabelsDetermineName(name);
      }
    }
    if name == "" || |name| > MAX_NAME || HasDoubleDot(name) || name[0] == '.' || name[|name| - 1] == '.' {
      return None;
    }
    var ok := CheckLabels(name);
    return if ok then Some(name) else None;
  }

  // ------------------------------------------------------------------
  // Matching
  // ------------------------------------------------------------------

  /** DomainMatchesSuffix. */
  predicate Matches(domain: string, suffix: string) {
    domain == suffix || HasSuffix(domain, "." + suffix)
  }

  predicate EndsWithLabels(labels: seq<string>, last: seq<string>) {
    |last| <= |labels| && labels[|labels| - |last|..] == last
  }

  lemma {:induction false} LabelsAfterDot(value: string, dot: nat)
    requires dot < |value| && value[dot] == '.'
    ensures var rest := Split(value[dot + 1..], '.');
            |rest| < |Split(value, '.')| && Split(value, '.')[|Split(value, '.')| - |rest|..] == rest
  {
    if dot > 0 {
      LabelsAfterDot(value[1..], dot - 1);
      assert value[1..][dot..] == value[dot + 1..];
    }
  }

  lemma {:induction false} LabelsEndMatches(domain: string, suffix: string)
    requires EndsWithLabels(Split(domain, '.'), Split(suffix, '.')) && |Split(suffix, '.')| < |Split(domain, '.')|
    ensures HasSuffix(domain, "." + suffix)
  {
    var rest := Split(domain[1..], '.');
    if |rest| == |Split(suffix, '.')| {
      assert domain[0] == '.' && rest == Split(suffix, '.');
      SplitInjective(domain[1..], suffix, '.');
      assert domain == "." + suffix;
    } else {
      var skip := |rest| - |Split(suffix, '.')|;
      assert rest[skip..] == Split(domain, '.')[|Split(domain, '.')| - |Split(suffix, '.')|..];
      LabelsEndMatches(domain[1..], suffix);
    }
  }

  /** Matching is by whole labels: a suffix matches exactly when its labels are
      the last labels of the domain. */
  lemma MatchIsByLabels(domain: string, suffix: string)
    ensures Matches(domain, suffix) <==> EndsWithLabels(Split(domain, '.'), Split(suffix, '.'))
  {
    if Matches(domain, suffix) && domain != suffix {
      var cut := |domain| - |suffix| - 1;
      assert domain[cut..] == "." + suffix;
      LabelsAfterDot(domain, cut);
      assert domain[cut + 1..] == suffix;
    }
    if EndsWithLabels(Split(domain, '.'), Split(suffix, '.')) {
      if |Split(domain, '.')| == |Split(suffix, '.')| {
        assert Split(domain, '.') == Split(suffix, '.');
        SplitInjective(domain, suffix, '.');
      } else {
        LabelsEndMatches(domain, suffix);
      }
    }
  }

  lemma SuffixOfDomain(domain: string, suffix: string)
    requires Matches(domain, suffix)
    ensures |suffix| <= |domain| && suffix == domain[|domain| - |suffix|..]
  {
  }

  // Two suffixes of one length cannot both match one domain.
  lemma SameLengthSameSuffix(domain: string, s: string, t: string)
    requires Matches(domain, s) && Matches(domain, t) && |s| == |t|
    ensures s == t
  {
    SuffixOfDomain(domain, s);
    SuffixOfDomain(domain, t);
  }

  ghost predicate IsLongestMatch(domain: string, suffixes: set<string>, best: Option<string>) {
    match best
    case None => forall s {:trigger Matches(domain, s)} :: s in suffixes ==> !Matches(domain, s)
    case Some(b) =>
      && b in suffixes && Matches(domain, b)
      && forall s {:trigger Matches(domain, s)} :: s in suffixes && Matches(domain, s) ==> |s| <= |b|
  }

  /** The longest match depends on the configured suffixes alone, not on the
      order in which they are visited. */
  lemma LongestMatchUnique(domain: string, suffixes: set<string>, a: Option<string>, b: Option<string>)
    requires IsLongestMatch(domain, suffixes, a) && IsLongestMatch(domain, suffixes, b)
    ensures a == b
  {
    if a.Some? && b.Some? {
      SameLengthSameSuffix(domain, a.value, b.value);
    }
  }

  function NormalForms(suffixes: seq<string>): set<string> {
    set s | s in suffixes && Normalized(s).Some? :: Normalized(s).value
  }

  lemma NormalFormsAppend(suffixes: seq<string>, suffix: string)
    ensures NormalForms(suffixes + [suffix])
         == NormalForms(suffixes) + if Normalized(suffix).Some? then {Normalized(suffix).value} else {}
  {
  }

  // What one visited suffix does to the best match so far.
  function Better(domain: string, best: Option<string>, candidate: string): Option<string> {
    if Matches(domain, candidate) && (best.None? || |candidate| > |best.value|) then Some(candidate) else best
  }

  lemma BetterIsLongest(domain: string, suffixes: set<string>, best: Option<string>, candidate: string)
    requires IsLongestMatch(domain, suffixes, best)
    ensures IsLongestMatch(domain, suffixes + {candidate}, Better(domain, best, candidate))
  {
  }

  lemma NextIsLongest(domain: string, suffixes: seq<string>, i: nat, best: Option<string>)
    requires i < |suffixes| && IsLongestMatch(domain, NormalForms(suffixes[..i]), best)
    ensures var next := Normalized(suffixes[i]);
            IsLongestMatch(domain, NormalForms(suffixes[..i + 1]),
                           if next.None? then best else Better(domain, best, next.value))
  {
    assert suffixes[..i + 1] == suffixes[..i] + [suffixes[i]];
    NormalFormsAppend(suffixes[..i], suffixes[i]);
    if Normalized(suffixes[i]).Some? {
      BetterIsLongest(domain, NormalForms(suffixes[..i]), best, Normalized(suffixes[i]).value);
    }
  }

  /** LongestSuffixMatch. */
  method LongestSuffixMatch(domain: string, suffixes: seq<string>) returns (best: string, found: bool)
    ensures Normalized(domain).None? ==> !found
    ensures Normalized(domain).Some? ==>
              IsLongestMatch(Normalized(domain).value, NormalForms(suffixes), if found then Some(best) else None)
  {
    best, found := "", false;
    var normalized := NormalizeDomain(domain);
    if normalized.None? {
      return;
    }
    for i := 0 to |suffixes|
      invariant IsLongestMatch(normalized.value, NormalForms(suffixes[..i]), if found then Some(best) else None)
    {
      var current := NormalizeDomain(suffixes[i]);
      NextIsLongest(normalized.value, suffixes, i, if found then Some(best) else None);
      if current.None? {
        continue;
      }
      if !Matches(normalized.value, current.value) {
        continue;
      }
      if !found || |current.value| > |best| {
        best, found := current.value, true;
      }
    }
    assert suffixes[..|suffixes|] == suffixes;
  }
}
