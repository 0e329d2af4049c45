/** The precedence of versions in section 11 of Semantic Versioning 2.0.0, which
    plugins/docker-app/semver.go and release.go compare tags by. Build metadata,
    which a docker tag cannot carry, is not modelled. */
module Versions {

  // Three-way comparisons that are total orders.
  ghost predicate IsOrder<T(!new)>(compare: (T, T) -> int) {
    && (forall a, b :: compare(a, b) == 0 <==> a == b)
    && (forall a, b :: compare(a, b) < 0 <==> compare(b, a) > 0)
    && (forall a, b, c :: compare(a, b) < 0 && compare(b, c) < 0 ==> compare(a, c) < 0)
  }

  // Lexicographic comparison; a proper prefix comes first.
  function Lex<T>(compare: (T, T) -> int, a: seq<T>, b: seq<T>): int {
    if a == [] || b == [] then |a| - |b|
    else if compare(a[0], b[0]) != 0 then compare(a[0], b[0])
    else Lex(compare, a[1..], b[1..])
  }

  lemma {:induction false} LexEqual<T(!new)>(compare: (T, T) -> int, a: seq<T>, b: seq<T>)
    requires IsOrder(compare)
    ensures Lex(compare, a, b) == 0 <==> a == b
  {
    if a != [] && b != [] {
      LexEqual(compare, a[1..], b[1..]);
      assert a == [a[0]] + a[1..] && b == [b[0]] + b[1..];
    }
  }

  lemma {:induction false} LexOpposite<T(!new)>(compare: (T, T) -> int, a: seq<T>, b: seq<T>)
    requires IsOrder(compare)
    ensures Lex(compare, a, b) < 0 <==> Lex(compare, b, a) > 0
  {
    if a != [] && b != [] {
      assert compare(a[0], b[0]) == 0 <==> compare(b[0], a[0]) == 0;
      LexOpposite(compare, a[1..], b[1..]);
    }
  }

  lemma {:induction false} LexTransitive<T(!new)>(compare: (T, T) -> int, a: seq<T>, b: seq<T>, c: seq<T>)
    requires IsOrder(compare) && Lex(compare, a, b) < 0 && Lex(compare, b, c) < 0
    ensures Lex(compare, a, c) < 0
  {
    if a != [] {
      var x, y, z := a[0], b[0], c[0];
      assert compare(x, y) < 0 || x == y;
      assert compare(y, z) < 0 || y == z;
      if x == y == z {
        LexTransitive(compare, a[1..], b[1..], c[1..]);
      } else {
        assert compare(x, z) < 0;
      }
    }
  }

  /** Sequences compared by a total order, element by element, are totally ordered. */
  lemma LexIsOrder<T(!new)>(compare: (T, T) -> int)
    requires IsOrder(compare)
    ensures IsOrder((a: seq<T>, b: seq<T>) => Lex(compare, a, b))
  {
    forall a: seq<T>, b: seq<T>
      ensures Lex(compare, a, b) == 0 <==> a == b
      ensures Lex(compare, a, b) < 0 <==> Lex(compare, b, a) > 0
    {
      LexEqual(compare, a, b);
      LexOpposite(compare, a, b);
    }
    forall a: seq<T>, b: seq<T>, c: seq<T> | Lex(compare, a, b) < 0 && Lex(compare, b, c) < 0
      ensures Lex(compare, a, c) < 0
    {
      LexTransitive(compare, a, b, c);
    }
  }

  // ------------------------------------------------------------------
  // Versions
  // ------------------------------------------------------------------

  datatype Ident = Number(n: nat) | Text(s: string)

  datatype Version = Version(major: nat, minor: nat, patch: nat, pre: seq<Ident>)

  function CompareChar(a: char, b: char): int {
    a as int - b as int
  }

  function CompareText(a: string, b: string): int {
    Lex(CompareChar, a, b)
  }

  // Numeric identifiers compare as numbers and come before the others.
  function CompareIdent(a: Ident, b: Ident): int {
    match (a, b)
    case (Number(m), Number(n)) => m - n
    case (Number(_), Text(_)) => -1
    case (Text(_), Number(_)) => 1
    case (Text(s), Text(t)) => CompareText(s, t)
  }

  // A version without a prerelease comes after those with one.
  function ComparePre(a: seq<Ident>, b: seq<Ident>): int {
    if a == [] || b == [] then |b| - |a| else Lex(CompareIdent, a, b)
  }

  function Compare(a: Version, b: Version): int {
    if a.major != b.major then a.major - b.major
    else if a.minor != b.minor then a.minor - b.minor
    else if a.patch != b.patch then a.patch - b.patch
    else ComparePre(a.pre, b.pre)
  }

  lemma TextIsOrdered()
    ensures IsOrder(CompareText)
  {
    assert IsOrder(CompareChar);
    LexIsOrder(CompareChar);
    var lex := (a: string, b: string) => Lex(CompareChar, a, b);
    assert forall a, b :: CompareText(a, b) == lex(a, b);
  }

  lemma IdentIsOrdered()
    ensures IsOrder(CompareIdent)
  {
    TextIsOrdered();
    assert forall s, t :: CompareIdent(Text(s), Text(t)) == CompareText(s, t);
  }

  lemma PreIsOrdered()
    ensures IsOrder(ComparePre)
  {
    IdentIsOrdered();
    LexIsOrder(CompareIdent);
    var lex := (a: seq<Ident>, b: seq<Ident>) => Lex(CompareIdent, a, b);
    assert forall a, b :: a != [] && b != [] ==> ComparePre(a, b) == lex(a, b);
  }

  /** Precedence is a total order on versions. */
  lemma VersionsAreOrdered()
    ensures IsOrder(Compare)
  {
    PreIsOrdered();
    assert forall a, b :: ComparePre(a, b) == 0 <==> a == b;
  }

  lemma Trichotomy(a: Version, b: Version)
    ensures Compare(a, b) == 0 <==> a == b
    ensures Compare(a, b) < 0 <==> Compare(b, a) > 0
    ensures Compare(a, b) > 0 <==> Compare(b, a) < 0
  {
    VersionsAreOrdered();
    var compare := Compare;
    assert compare(a, b) == Compare(a, b) && compare(b, a) == Compare(b, a);
  }

  lemma Transitive(a: Version, b: Version, c: Version)
    requires Compare(a, b) >= 0 && Compare(b, c) >= 0
    ensures Compare(a, c) >= 0 && (Compare(a, c) == 0 ==> a == b == c)
  {
    VersionsAreOrdered();
    Trichotomy(a, b);
    Trichotomy(b, c);
    Trichotomy(a, c);
    var compare := Compare;
    assert compare(c, b) == Compare(c, b) && compare(b, a) == Compare(b, a) && compare(c, a) == Compare(c, a);
  }

  // ------------------------------------------------------------------
  // Section 11 of Semantic Versioning 2.0.0, in its own words
  // ------------------------------------------------------------------

  predicate Differ<T(==)>(less: (T, T) -> bool, a: seq<T>, b: seq<T>, k: int) {
    && 0 <= k <= |a| && k < |b| && a[..k] == b[..k]
    && (k == |a| || less(a[k], b[k]))
  }

  // The sequences agree up to a position, and there the first ends or is smaller.
  ghost predicate SeqPrecedes<T(!new)>(less: (T, T) -> bool, a: seq<T>, b: seq<T>) {
    exists k :: Differ(less, a, b, k)
  }

  ghost predicate TextPrecedes(a: string, b: string) {
    SeqPrecedes((x: char, y: char) => x < y, a, b)
  }

  ghost predicate IdentPrecedes(a: Ident, b: Ident) {
    || (a.Number? && b.Number? && a.n < b.n)
    || (a.Number? && b.Text?)
    || (a.Text? && b.Text? && TextPrecedes(a.s, b.s))
  }

  // Major, minor and patch decide, in this order; then a prerelease comes before
  // none; then its identifiers decide, from left to right.
  ghost predicate Precedes(a: Version, b: Version) {
    || a.major < b.major
    || (a.major == b.major && a.minor < b.minor)
    || (a.major == b.major && a.minor == b.minor && a.patch < b.patch)
    || (a.major == b.major && a.minor == b.minor && a.patch == b.patch && a.pre != []
        && (b.pre == [] || SeqPrecedes((x, y) => IdentPrecedes(x, y), a.pre, b.pre)))
  }

  lemma DifferLater<T(!new)>(less: (T, T) -> bool, a: seq<T>, b: seq<T>)
    requires a != [] && b != [] && a[0] == b[0] && !less(a[0], b[0])
    ensures SeqPrecedes(less, a[1..], b[1..]) <==> SeqPrecedes(less, a, b)
  {
    if k :| Differ(less, a[1..], b[1..], k) {
      assert a[..k + 1] == [a[0]] + a[1..][..k] && b[..k + 1] == [b[0]] + b[1..][..k];
      assert Differ(less, a, b, k + 1);
    }
    if k :| Differ(less, a, b, k) {
      assert k > 0;
      assert a[1..][..k - 1] == a[..k][1..] && b[1..][..k - 1] == b[..k][1..];
      assert Differ(less, a[1..], b[1..], k - 1);
    }
  }

  lemma {:induction false} LexMeans<T(!new)>(compare: (T, T) -> int, less: (T, T) -> bool, a: seq<T>, b: seq<T>)
    requires IsOrder(compare) && forall x, y :: less(x, y) <==> compare(x, y) < 0
    ensures Lex(compare, a, b) < 0 <==> SeqPrecedes(less, a, b)
  {
    if a == [] {
      assert b != [] ==> Differ(less, a, b, 0);
    } else if b != [] {
      if a[0] == b[0] {
        assert compare(a[0], b[0]) == 0;
        DifferLater(less, a, b);
        LexMeans(compare, less, a[1..], b[1..]);
      } else {
        assert compare(a[0], b[0]) < 0 ==> Differ(less, a, b, 0);
        forall k | Differ(less, a, b, k)
          ensures compare(a[0], b[0]) < 0
        {
          assert k > 0 ==> a[..k][0] == b[..k][0];
        }
      }
    }
  }

  lemma TextMeans(a: string, b: string)
    ensures CompareText(a, b) < 0 <==> TextPrecedes(a, b)
  {
    assert IsOrder(CompareChar);
    LexMeans(CompareChar, (x: char, y: char) => x < y, a, b);
  }

  lemma IdentMeans(a: Ident, b: Ident)
    ensures CompareIdent(a, b) < 0 <==> IdentPrecedes(a, b)
  {
    if a.Text? && b.Text? {
      TextMeans(a.s, b.s);
    }
  }

  lemma CompareBelow(a: Version, b: Version)
    ensures Compare(a, b) < 0 <==> Precedes(a, b)
  {
    IdentIsOrdered();
    forall x, y
      ensures IdentPrecedes(x, y) <==> CompareIdent(x, y) < 0
    {
      IdentMeans(x, y);
    }
    LexMeans(CompareIdent, (x, y) => IdentPrecedes(x, y), a.pre, b.pre);
  }

  /** The comparison is the precedence of the standard. */
  lemma CompareMeans(a: Version, b: Version)
    ensures Compare(a, b) < 0 <==> Precedes(a, b)
    ensures Compare(a, b) > 0 <==> Precedes(b, a)
  {
    Trichotomy(a, b);
    CompareBelow(a, b);
    CompareBelow(b, a);
  }

  // ------------------------------------------------------------------
  // Examples
  // ------------------------------------------------------------------

  lemma FirstCharDecides(a: string, b: string)
    requires a != "" && b != "" && a[0] < b[0]
    ensures IdentPrecedes(Text(a), Text(b))
  {
    assert Differ((x: char, y: char) => x < y, a, b, 0);
  }

  // The identifiers differ at this position, or the first ends there.
  lemma PreDecides(a: seq<Ident>, b: seq<Ident>, k: nat)
    requires 0 < |a| && k <= |a| && k < |b| && a[..k] == b[..k] && (k == |a| || IdentPrecedes(a[k], b[k]))
    ensures Precedes(Version(1, 0, 0, a), Version(1, 0, 0, b))
  {
    assert Differ((x, y) => IdentPrecedes(x, y), a, b, k);
  }

  /** The chain that the standard gives: 1.0.0-alpha, alpha.1, alpha.beta, beta,
      beta.2, beta.11, rc.1 and 1.0.0, each before the next. */
  lemma StandardChain()
    ensures var alpha, beta, rc := Text("alpha"), Text("beta"), Text("rc");
            var chain := [[alpha], [alpha, Number(1)], [alpha, beta], [beta], [beta, Number(2)], [beta, Number(11)],
                          [rc, Number(1)], []];
            forall i :: 0 <= i < |chain| - 1 ==>
              Precedes(Version(1, 0, 0, chain[i]), Version(1, 0, 0, chain[i + 1]))
  {
    var alpha, beta, rc := Text("alpha"), Text("beta"), Text("rc");
    FirstCharDecides("alpha", "beta");
    FirstCharDecides("beta", "rc");
    PreDecides([alpha], [alpha, Number(1)], 1);
    PreDecides([alpha, Number(1)], [alpha, beta], 1);
    PreDecides([alpha, beta], [beta], 0);
    PreDecides([beta], [beta, Number(2)], 1);
    PreDecides([beta, Number(2)], [beta, Number(11)], 1);
    PreDecides([beta, Number(11)], [rc, Number(1)], 0);
  }
}
