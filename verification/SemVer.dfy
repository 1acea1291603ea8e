/** Version precedence (section 11 of Semantic Versioning 2.0.0), and that it is a total order. */
module SemVer {
  datatype Order = Less | Equal | Greater {
    function Flip(): Order {
      match this case Less => Greater case Equal => Equal case Greater => Less
    }
    function Then(next: Order): Order {
      if Equal? then next else this
    }
  }

  datatype Ident = Numeric(n: nat) | Alphanumeric(s: string)

  /** Build metadata has no precedence. */
  datatype Version = Version(major: nat, minor: nat, patch: nat, pre: seq<Ident>, build: string)

  function CompareInts(a: int, b: int): Order {
    if a < b then Less else if a > b then Greater else Equal
  }

  /** Strings byte by byte; a proper prefix is smaller. */
  function CompareStrings(a: string, b: string): Order {
    if a == "" && b == "" then Equal
    else if a == "" then Less
    else if b == "" then Greater
    else CompareInts(a[0] as int, b[0] as int).Then(CompareStrings(a[1..], b[1..]))
  }

  function CompareIdents(a: Ident, b: Ident): Order {
    match (a, b)
    case (Numeric(m), Numeric(n)) => CompareInts(m, n)
    case (Numeric(_), Alphanumeric(_)) => Less
    case (Alphanumeric(_), Numeric(_)) => Greater
    case (Alphanumeric(s), Alphanumeric(t)) => CompareStrings(s, t)
  }

  /** Field by field; with all fields equal the longer list is greater. */
  function CompareFields(a: seq<Ident>, b: seq<Ident>): Order {
    if a == [] && b == [] then Equal
    else if a == [] then Less
    else if b == [] then Greater
    else CompareIdents(a[0], b[0]).Then(CompareFields(a[1..], b[1..]))
  }

  /** A version without pre-release fields is greater than one with. */
  function ComparePreRelease(a: seq<Ident>, b: seq<Ident>): Order {
    if a == [] && b == [] then Equal
    else if a == [] then Greater
    else if b == [] then Less
    else CompareFields(a, b)
  }

  function Compare(a: Version, b: Version): Order {
    CompareInts(a.major, b.major).Then(
      CompareInts(a.minor, b.minor).Then(
        CompareInts(a.patch, b.patch).Then(
          ComparePreRelease(a.pre, b.pre))))
  }

  lemma {:induction false} StringsOrder(a: string, b: string)
    ensures CompareStrings(a, b) == CompareStrings(b, a).Flip()
    ensures CompareStrings(a, b) == Equal <==> a == b
  {
    if a != "" && b != "" {
      StringsOrder(a[1..], b[1..]);
      assert a == [a[0]] + a[1..] && b == [b[0]] + b[1..];
    }
  }

  lemma {:induction false} StringsTransitive(a: string, b: string, c: string)
    requires CompareStrings(a, b) != Greater && CompareStrings(b, c) != Greater
    ensures CompareStrings(a, c) != Greater
    ensures CompareStrings(a, c) == Equal ==> CompareStrings(a, b) == Equal
  {
    if a != "" && b != "" && c != "" && a[0] == b[0] == c[0] {
      StringsTransitive(a[1..], b[1..], c[1..]);
    }
  }

  lemma IdentsOrder(a: Ident, b: Ident)
    ensures CompareIdents(a, b) == CompareIdents(b, a).Flip()
    ensures CompareIdents(a, b) == Equal <==> a == b
  {
    if a.Alphanumeric? && b.Alphanumeric? {
      StringsOrder(a.s, b.s);
    }
  }

  lemma IdentsTransitive(a: Ident, b: Ident, c: Ident)
    requires CompareIdents(a, b) != Greater && CompareIdents(b, c) != Greater
    ensures CompareIdents(a, c) != Greater
    ensures CompareIdents(a, c) == Equal ==> CompareIdents(a, b) == Equal
  {
    if a.Alphanumeric? && b.Alphanumeric? && c.Alphanumeric? {
      StringsTransitive(a.s, b.s, c.s);
    }
  }

  lemma {:induction false} FieldsOrder(a: seq<Ident>, b: seq<Ident>)
    ensures CompareFields(a, b) == CompareFields(b, a).Flip()
    ensures CompareFields(a, b) == Equal <==> a == b
  {
    if a != [] && b != [] {
      IdentsOrder(a[0], b[0]);
      FieldsOrder(a[1..], b[1..]);
      assert a == [a[0]] + a[1..] && b == [b[0]] + b[1..];
    }
  }

  lemma {:induction false} FieldsTransitive(a: seq<Ident>, b: seq<Ident>, c: seq<Ident>)
    requires CompareFields(a, b) != Greater && CompareFields(b, c) != Greater
    ensures CompareFields(a, c) != Greater
    ensures CompareFields(a, c) == Equal ==> CompareFields(a, b) == Equal
  {
    if a != [] && b != [] && c != [] {
      IdentsTransitive(a[0], b[0], c[0]);
      IdentsOrder(a[0], b[0]);
      IdentsOrder(b[0], c[0]);
      IdentsOrder(a[0], c[0]);
      if a[0] == b[0] == c[0] {
        FieldsTransitive(a[1..], b[1..], c[1..]);
      }
    }
  }

  /** Equal precedence means equal in everything but build metadata. */
  lemma CompareIsAntisymmetric(a: Version, b: Version)
    ensures Compare(a, b) == Compare(b, a).Flip()
    ensures Compare(a, b) == Equal <==> a.(build := b.build) == b
  {
    FieldsOrder(a.pre, b.pre);
  }

  lemma CompareIsTransitive(a: Version, b: Version, c: Version)
    requires Compare(a, b) != Greater && Compare(b, c) != Greater
    ensures Compare(a, c) != Greater
    ensures Compare(a, c) == Equal ==> Compare(a, b) == Equal && Compare(b, c) == Equal
  {
    if a.pre != [] && b.pre != [] && c.pre != []
       && CompareFields(a.pre, b.pre) != Greater && CompareFields(b.pre, c.pre) != Greater {
      FieldsTransitive(a.pre, b.pre, c.pre);
    }
    FieldsOrder(a.pre, b.pre);
    FieldsOrder(b.pre, c.pre);
    FieldsOrder(a.pre, c.pre);
  }

  // ----- section 11, by the first difference

  /** Two identifiers in ASCII order: the first differing character decides, and a proper prefix comes first. */
  ghost predicate StringBelow(a: string, b: string) {
    exists i :: StringBelowAt(a, b, i)
  }

  predicate StringBelowAt(a: string, b: string, i: int) {
    && 0 <= i <= |a| && i < |b| && a[..i] == b[..i]
    && (i == |a| || a[i] < b[i])
  }

  ghost predicate IdentBelow(a: Ident, b: Ident) {
    || (a.Numeric? && b.Numeric? && a.n < b.n)
    || (a.Numeric? && b.Alphanumeric?)
    || (a.Alphanumeric? && b.Alphanumeric? && StringBelow(a.s, b.s))
  }

  /** The first differing identifier decides; with none, the longer list wins. */
  ghost predicate FieldsBelow(a: seq<Ident>, b: seq<Ident>) {
    exists i :: FieldsBelowAt(a, b, i)
  }

  ghost predicate FieldsBelowAt(a: seq<Ident>, b: seq<Ident>, i: int) {
    && 0 <= i <= |a| && i < |b| && a[..i] == b[..i]
    && (i == |a| || IdentBelow(a[i], b[i]))
  }

  /** `a` has lower precedence than `b`: major, minor and patch decide in this order, numerically; all else equal, a
      pre-release comes before its release, and pre-releases by their identifiers. */
  ghost predicate Below(a: Version, b: Version) {
    || a.major < b.major
    || (a.major == b.major && a.minor < b.minor)
    || (a.major == b.major && a.minor == b.minor && a.patch < b.patch)
    || (a.major == b.major && a.minor == b.minor && a.patch == b.patch && a.pre != []
        && (b.pre == [] || FieldsBelow(a.pre, b.pre)))
  }

  lemma {:induction false} StringsByFirstDifference(a: string, b: string)
    ensures CompareStrings(a, b) == Less <==> StringBelow(a, b)
  {
    if a == "" || b == "" {
      assert b != "" ==> StringBelowAt("", b, 0);
    } else {
      var s, t := a[1..], b[1..];
      StringsByFirstDifference(s, t);
      if a[0] < b[0] {
        assert StringBelowAt(a, b, 0);
      }
      if i :| StringBelowAt(a, b, i) {
        if i > 0 {
          assert a[0] == a[..i][0] && b[0] == b[..i][0];
          assert s[..i - 1] == a[..i][1..] && t[..i - 1] == b[..i][1..];
          assert StringBelowAt(s, t, i - 1);
        }
      }
      if i :| StringBelowAt(s, t, i) {
        if a[0] == b[0] {
          assert a[..i + 1] == [a[0]] + s[..i] && b[..i + 1] == [b[0]] + t[..i];
          assert StringBelowAt(a, b, i + 1);
        }
      }
    }
  }

  lemma IdentsByKind(a: Ident, b: Ident)
    ensures CompareIdents(a, b) == Less <==> IdentBelow(a, b)
  {
    if a.Alphanumeric? && b.Alphanumeric? {
      StringsByFirstDifference(a.s, b.s);
    }
  }

  lemma {:induction false} FieldsByFirstDifference(a: seq<Ident>, b: seq<Ident>)
    ensures CompareFields(a, b) == Less <==> FieldsBelow(a, b)
  {
    if a == [] || b == [] {
      assert b != [] ==> FieldsBelowAt([], b, 0);
    } else {
      var s, t := a[1..], b[1..];
      FieldsByFirstDifference(s, t);
      IdentsByKind(a[0], b[0]);
      IdentsOrder(a[0], b[0]);
      if CompareIdents(a[0], b[0]) == Less {
        assert FieldsBelowAt(a, b, 0);
      }
      if i :| FieldsBelowAt(a, b, i) {
        if i > 0 {
          assert a[0] == a[..i][0] && b[0] == b[..i][0];
          assert s[..i - 1] == a[..i][1..] && t[..i - 1] == b[..i][1..];
          assert FieldsBelowAt(s, t, i - 1);
        }
      }
      if i :| FieldsBelowAt(s, t, i) {
        if a[0] == b[0] {
          assert a[..i + 1] == [a[0]] + s[..i] && b[..i + 1] == [b[0]] + t[..i];
          assert FieldsBelowAt(a, b, i + 1);
        }
      }
    }
  }

  /** The comparison is the precedence of section 11. */
  lemma CompareIsPrecedence(a: Version, b: Version)
    ensures Compare(a, b) == Less <==> Below(a, b)
    ensures Compare(a, b) == Greater <==> Below(b, a)
  {
    CompareIsAntisymmetric(a, b);
    FieldsByFirstDifference(a.pre, b.pre);
    FieldsByFirstDifference(b.pre, a.pre);
  }
}
