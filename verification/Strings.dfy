/** What several plugins share: optional values and Go's string functions. */
module Strings {

  datatype Option<+T> = None | Some(value: T)

  // strings.HasPrefix.
  predicate HasPrefix(value: string, prefix: string) {
    |prefix| <= |value| && value[..|prefix|] == prefix
  }

  // strings.HasSuffix.
  predicate HasSuffix(value: string, suffix: string) {
    |suffix| <= |value| && value[|value| - |suffix|..] == suffix
  }

  // ------------------------------------------------------------------
  // Trimming
  // ------------------------------------------------------------------

  // unicode.IsSpace.
  predicate IsSpace(c: char) {
    || '\t' <= c <= '\r' || c == ' ' || c == '\U{85}' || c == '\U{A0}' || c == '\U{1680}'
    || '\U{2000}' <= c <= '\U{200A}' || c == '\U{2028}' || c == '\U{2029}' || c == '\U{202F}'
    || c == '\U{205F}' || c == '\U{3000}'
  }

  function TrimLeft(value: string): string {
    if value != "" && IsSpace(value[0]) then TrimLeft(value[1..]) else value
  }

  function TrimRight(value: string): string {
    if value != "" && IsSpace(value[|value| - 1]) then TrimRight(value[..|value| - 1]) else value
  }

  function TrimSpace(value: string): string {
    TrimRight(TrimLeft(value))
  }

  lemma {:induction false} TrimLeftStops(value: string)
    ensures TrimLeft(value) == "" || !IsSpace(TrimLeft(value)[0])
  {
    if value != "" && IsSpace(value[0]) {
      TrimLeftStops(value[1..]);
    }
  }

  lemma {:induction false} TrimRightKeepsFirst(value: string)
    requires value == "" || !IsSpace(value[0])
    ensures var kept := TrimRight(value);
      && (kept == "" || !IsSpace(kept[0]))
      && (kept == "" || !IsSpace(kept[|kept| - 1]))
  {
    if value != "" && IsSpace(value[|value| - 1]) {
      TrimRightKeepsFirst(value[..|value| - 1]);
    }
  }

  lemma TrimTwice(value: string)
    ensures TrimSpace(TrimSpace(value)) == TrimSpace(value)
  {
    TrimLeftStops(value);
    TrimRightKeepsFirst(TrimLeft(value));
  }

  ghost predicate AllSpace(value: string) {
    forall i :: 0 <= i < |value| ==> IsSpace(value[i])
  }

  lemma {:induction false} TrimLeftCuts(space: string, rest: string)
    requires AllSpace(space) && (rest == "" || !IsSpace(rest[0]))
    ensures TrimLeft(space + rest) == rest
  {
    if space == "" {
      assert space + rest == rest;
    } else {
      assert (space + rest)[1..] == space[1..] + rest;
      TrimLeftCuts(space[1..], rest);
    }
  }

  lemma {:induction false} TrimRightCuts(rest: string, space: string)
    requires AllSpace(space) && (rest == "" || !IsSpace(rest[|rest| - 1]))
    ensures TrimRight(rest + space) == rest
  {
    if space == "" {
      assert rest + space == rest;
    } else {
      assert (rest + space)[..|rest + space| - 1] == rest + space[..|space| - 1];
      TrimRightCuts(rest, space[..|space| - 1]);
    }
  }

  /** Trimming cuts off exactly the space around a text that neither starts nor ends
      with space. */
  lemma TrimCuts(left: string, text: string, right: string)
    requires AllSpace(left) && AllSpace(right)
    requires text == "" || (!IsSpace(text[0]) && !IsSpace(text[|text| - 1]))
    ensures TrimSpace(left + text + right) == text
  {
    if text == "" {
      assert left + text + right == (left + right) + "";
      TrimLeftCuts(left + right, "");
    } else {
      assert left + text + right == left + (text + right);
      TrimLeftCuts(left, text + right);
      TrimRightCuts(text, right);
    }
  }

  // ------------------------------------------------------------------
  // Splitting
  // ------------------------------------------------------------------

  // strings.Split at a one-character separator.
  function Split(value: string, separator: char): (parts: seq<string>)
    ensures |parts| > 0
  {
    if value == "" then [""]
    else if value[0] == separator then [""] + Split(value[1..], separator)
    else var rest := Split(value[1..], separator); [[value[0]] + rest[0]] + rest[1..]
  }

  lemma {:induction false} SplitAlone(value: string, separator: char)
    requires separator !in value
    ensures Split(value, separator) == [value]
  {
    if value != "" {
      assert value == [value[0]] + value[1..];
      SplitAlone(value[1..], separator);
    }
  }

  lemma {:induction false} SplitAfter(first: string, rest: string, separator: char)
    requires separator !in first
    ensures Split(first + [separator] + rest, separator) == [first] + Split(rest, separator)
  {
    var value := first + [separator] + rest;
    if first == "" {
      assert value[1..] == rest;
    } else {
      assert value[1..] == first[1..] + [separator] + rest;
      SplitAfter(first[1..], rest, separator);
      assert first == [first[0]] + first[1..];
    }
  }

  lemma SplitEmpty(value: string, separator: char)
    ensures Split(value, separator) == [""] <==> value == ""
  {
  }

  /** A string is determined by its parts. */
  lemma {:induction false} SplitInjective(a: string, b: string, separator: char)
    requires Split(a, separator) == Split(b, separator)
    ensures a == b
  {
    SplitEmpty(a, separator);
    SplitEmpty(b, separator);
    if a != "" {
      var p, q := Split(a, separator), Split(b, separator);
      if a[0] == separator || b[0] == separator {
        assert a[0] == b[0];
        assert p[1..] == Split(a[1..], separator) && q[1..] == Split(b[1..], separator);
      } else {
        var r, s := Split(a[1..], separator), Split(b[1..], separator);
        assert p[0][1..] == r[0] && q[0][1..] == s[0];
        assert r == [r[0]] + p[1..] && s == [s[0]] + q[1..];
        assert a[0] == p[0][0] && b[0] == q[0][0];
      }
      SplitInjective(a[1..], b[1..], separator);
      assert a == [a[0]] + a[1..] && b == [b[0]] + b[1..];
    }
  }
}
