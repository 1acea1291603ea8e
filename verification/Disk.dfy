/** Disk capacities in exact arithmetic, and the split of a request's disks. */
module Disk {
  import opened Basics
  import opened Numbers

  datatype CapacityError = Malformed | NotPositive | UnknownUnit

  datatype Sized = Size(gib: int) | Bad(error: CapacityError)

  // ----- the capacity pattern

  /** -?[0-9]+(\.[0-9]+)?\s*[A-Za-z]+, anchored; `fraction` is empty when there is none. */
  datatype Capacity = Capacity(negative: bool, whole: string, fraction: string, gap: string, unit: string)

  predicate IsDigit(c: char) { '0' <= c <= '9' }

  predicate IsLetter(c: char) { 'A' <= c <= 'Z' || 'a' <= c <= 'z' }

  /** Go's regexp class \s. */
  predicate IsBlank(c: char) { c == ' ' || c == '\t' || c == '\n' || c == '\r' || c == '\U{000C}' }

  predicate All(p: char -> bool, s: string) {
    forall i :: 0 <= i < |s| ==> p(s[i])
  }

  /** The length of the longest prefix whose characters all satisfy `p`. */
  function Span(p: char -> bool, s: string): (n: nat)
    ensures n <= |s| && All(p, s[..n])
    ensures n < |s| ==> !p(s[n])
  {
    if s == "" || !p(s[0]) then 0 else 1 + Span(p, s[1..])
  }

  lemma {:induction false} SpanOfConcat(p: char -> bool, a: string, b: string)
    requires All(p, a) && (b == "" || !p(b[0]))
    ensures Span(p, a + b) == |a| && (a + b)[..|a|] == a && (a + b)[|a|..] == b
  {
    if a == "" {
      assert a + b == b;
    } else {
      assert (a + b)[1..] == a[1..] + b;
      SpanOfConcat(p, a[1..], b);
    }
  }

  predicate WellFormed(c: Capacity) {
    && c.whole != "" && All(IsDigit, c.whole) && All(IsDigit, c.fraction)
    && All(IsBlank, c.gap) && c.unit != "" && All(IsLetter, c.unit)
  }

  function UnitText(c: Capacity): string {
    c.gap + c.unit
  }

  function FractionText(c: Capacity): string {
    if c.fraction == "" then UnitText(c) else "." + (c.fraction + UnitText(c))
  }

  function Text(c: Capacity): string {
    (if c.negative then "-" else "") + (c.whole + FractionText(c))
  }

  /** Blanks, then letters to the end. */
  function MatchUnit(s: string, negative: bool, whole: string, fraction: string): Option<Capacity> {
    var k := Span(IsBlank, s);
    if s[k..] != "" && All(IsLetter, s[k..]) then Some(Capacity(negative, whole, fraction, s[..k], s[k..])) else None
  }

  /** An optional fraction, which has at least one digit. */
  function MatchFraction(s: string, negative: bool, whole: string): Option<Capacity> {
    if s != "" && s[0] == '.' then
      var m := Span(IsDigit, s[1..]);
      if m == 0 then None else MatchUnit(s[1..][m..], negative, whole, s[1..][..m])
    else MatchUnit(s, negative, whole, "")
  }

  function MatchWhole(s: string, negative: bool): Option<Capacity> {
    var n := Span(IsDigit, s);
    if n == 0 then None else MatchFraction(s[n..], negative, s[..n])
  }

  /** capacityPattern.FindStringSubmatch. */
  function Match(s: string): Option<Capacity> {
    if s != "" && s[0] == '-' then MatchWhole(s[1..], true) else MatchWhole(s, false)
  }

  lemma TextOfUnit(s: string, negative: bool, whole: string, fraction: string, c: Capacity)
    requires MatchUnit(s, negative, whole, fraction) == Some(c)
    ensures c.negative == negative && c.whole == whole && c.fraction == fraction
    ensures UnitText(c) == s && All(IsBlank, c.gap) && c.unit != "" && All(IsLetter, c.unit)
  {
    var k := Span(IsBlank, s);
    assert s[..k] + s[k..] == s;
  }

  lemma TextOfDotted(rest: string, negative: bool, whole: string, c: Capacity)
    requires MatchFraction("." + rest, negative, whole) == Some(c)
    ensures c.negative == negative && c.whole == whole && All(IsDigit, c.fraction)
    ensures FractionText(c) == "." + rest && All(IsBlank, c.gap) && c.unit != "" && All(IsLetter, c.unit)
  {
    assert ("." + rest)[1..] == rest;
    var m := Span(IsDigit, rest);
    TextOfUnit(rest[m..], negative, whole, rest[..m], c);
    assert rest[..m] + rest[m..] == rest;
  }

  lemma TextOfFraction(s: string, negative: bool, whole: string, c: Capacity)
    requires MatchFraction(s, negative, whole) == Some(c)
    ensures c.negative == negative && c.whole == whole && All(IsDigit, c.fraction)
    ensures FractionText(c) == s && All(IsBlank, c.gap) && c.unit != "" && All(IsLetter, c.unit)
  {
    if s != "" && s[0] == '.' {
      assert s == "." + s[1..];
      TextOfDotted(s[1..], negative, whole, c);
    } else {
      TextOfUnit(s, negative, whole, "", c);
    }
  }

  lemma TextOfNumber(whole: string, rest: string, negative: bool, c: Capacity)
    requires whole != "" && All(IsDigit, whole)
    requires MatchFraction(rest, negative, whole) == Some(c)
    ensures c.negative == negative && WellFormed(c) && c.whole == whole && FractionText(c) == rest
  {
    TextOfFraction(rest, negative, whole, c);
  }

  lemma SplitOfWhole(s: string, negative: bool, c: Capacity) returns (n: nat)
    requires MatchWhole(s, negative) == Some(c)
    ensures 0 < n <= |s| && All(IsDigit, s[..n]) && MatchFraction(s[n..], negative, s[..n]) == Some(c)
  {
    n := Span(IsDigit, s);
  }

  lemma Joined(s: string, n: nat, whole: string, rest: string)
    requires n <= |s| && whole == s[..n] && rest == s[n..]
    ensures whole + rest == s
  {
  }

  lemma TextOfWhole(s: string, negative: bool, c: Capacity)
    requires MatchWhole(s, negative) == Some(c)
    ensures c.negative == negative && WellFormed(c) && c.whole + FractionText(c) == s
  {
    var n := SplitOfWhole(s, negative, c);
    TextOfNumber(s[..n], s[n..], negative, c);
    Joined(s, n, c.whole, FractionText(c));
  }

  /** Nothing but the pattern's form is matched: what is matched is the text of its parts. */
  lemma TextOfMatch(s: string, c: Capacity)
    requires Match(s) == Some(c)
    ensures WellFormed(c) && Text(c) == s
  {
    if s != "" && s[0] == '-' {
      assert s == "-" + s[1..];
      TextOfNegative(s[1..], c);
    } else {
      TextOfWhole(s, false, c);
    }
  }

  lemma TextOfNegative(body: string, c: Capacity)
    requires MatchWhole(body, true) == Some(c)
    ensures WellFormed(c) && Text(c) == "-" + body
  {
    TextOfWhole(body, true, c);
  }

  lemma UnitOfText(c: Capacity)
    requires WellFormed(c)
    ensures MatchUnit(UnitText(c), c.negative, c.whole, c.fraction) == Some(c)
    ensures UnitText(c) != "" && !IsDigit(UnitText(c)[0]) && UnitText(c)[0] != '.'
  {
    SpanOfConcat(IsBlank, c.gap, c.unit);
    assert UnitText(c)[0] == if c.gap == "" then c.unit[0] else c.gap[0];
  }

  lemma FractionOfText(c: Capacity)
    requires WellFormed(c)
    ensures MatchFraction(FractionText(c), c.negative, c.whole) == Some(c)
    ensures FractionText(c) != "" && !IsDigit(FractionText(c)[0])
  {
    UnitOfText(c);
    if c.fraction != "" {
      DecimalsOfText(c.fraction, UnitText(c), c.negative, c.whole);
      assert FractionText(c)[0] == '.';
    }
  }

  lemma DecimalsOfText(fraction: string, rest: string, negative: bool, whole: string)
    requires fraction != "" && All(IsDigit, fraction)
    requires rest != "" && !IsDigit(rest[0])
    ensures MatchFraction("." + (fraction + rest), negative, whole) == MatchUnit(rest, negative, whole, fraction)
  {
    assert ("." + (fraction + rest))[1..] == fraction + rest;
    SpanOfConcat(IsDigit, fraction, rest);
  }

  lemma WholeOfText(c: Capacity)
    requires WellFormed(c)
    ensures MatchWhole(c.whole + FractionText(c), c.negative) == Some(c)
  {
    FractionOfText(c);
    SpanOfConcat(IsDigit, c.whole, FractionText(c));
  }

  lemma BodyOfText(c: Capacity)
    requires WellFormed(c)
    ensures var body := c.whole + FractionText(c);
            body != "" && body[0] != '-' && Text(c) == if c.negative then "-" + body else body
  {
    assert IsDigit(c.whole[0]);
  }

  /** Everything of the pattern's form is matched, into its parts. */
  lemma MatchOfText(c: Capacity)
    requires WellFormed(c)
    ensures Match(Text(c)) == Some(c)
  {
    BodyOfText(c);
    var body := c.whole + FractionText(c);
    assert ("-" + body)[1..] == body;
    assert Match(Text(c)) == MatchWhole(body, c.negative);
    WholeOfText(c);
  }

  // ----- sizes

  function Pow10(n: nat): (p: nat)
    ensures p > 0
  {
    if n == 0 then 1 else 10 * Pow10(n - 1)
  }

  function DigitValue(c: char): nat {
    if IsDigit(c) then (c - '0') as int else 0
  }

  function Mantissa(c: Capacity): nat {
    Number(DigitValue, c.whole + c.fraction)
  }

  function CeilDiv(a: nat, b: nat): nat
    requires b > 0
  {
    (a + b - 1) / b
  }

  datatype Unit = MB | GB | TB

  function ToUpper(c: char): char {
    if 'a' <= c <= 'z' then c - 'a' + 'A' else c
  }

  function Upper(s: string): string {
    seq(|s|, i requires 0 <= i < |s| => ToUpper(s[i]))
  }

  function UnitOf(unit: string): Option<Unit> {
    var u := Upper(unit);
    if u == "GB" || u == "GIB" then Some(GB)
    else if u == "TB" || u == "TIB" then Some(TB)
    else if u == "MB" || u == "MIB" then Some(MB)
    else None
  }

  /** One unit of each kind as so many parts of which 1024 make a GiB. */
  function Parts(unit: Unit): nat {
    match unit case MB => 1 case GB => 1024 case TB => 1024 * 1024
  }

  /** mantissa / 10^scale units, rounded up to whole GiB. */
  function GiB(mantissa: nat, scale: nat, unit: Unit): nat {
    match unit
    case GB => CeilDiv(mantissa, Pow10(scale))
    case TB => CeilDiv(mantissa * 1024, Pow10(scale))
    case MB => CeilDiv(mantissa, Pow10(scale) * 1024)
  }

  /** The characters strings.TrimSpace removes. */
  predicate IsSpace(c: char) {
    || c == ' ' || ('\t' <= c <= '\r') || c == '\U{0085}' || c == '\U{00A0}' || c == '\U{1680}'
    || ('\U{2000}' <= c <= '\U{200A}') || c == '\U{2028}' || c == '\U{2029}'
    || c == '\U{202F}' || c == '\U{205F}' || c == '\U{3000}'
  }

  function TrimLeft(s: string): string {
    s[Span(IsSpace, s)..]
  }

  function TrimRight(s: string): string {
    if s != "" && IsSpace(Last(s)) then TrimRight(Front(s)) else s
  }

  /** The checks and the switch that follow a match, in their order. */
  function SizeFor(c: Capacity): Sized {
    var mantissa := Mantissa(c);
    if c.negative || mantissa == 0 then Bad(NotPositive)
    else
      match UnitOf(c.unit)
      case None => Bad(UnknownUnit)
      case Some(unit) => Size(GiB(mantissa, |c.fraction|, unit))
  }

  function ParseDiskCapacityGiB(capacity: string): Sized {
    match Match(TrimRight(TrimLeft(capacity)))
    case None => Bad(Malformed)
    case Some(c) => SizeFor(c)
  }

  lemma ParseOfText(c: Capacity)
    requires WellFormed(c)
    ensures ParseDiskCapacityGiB(Text(c)) == SizeFor(c)
  {
    LastOfText(c);
    FirstOfText(c);
    NothingToTrim(Text(c));
    MatchOfText(c);
  }

  lemma NothingToTrim(s: string)
    requires s != "" && !IsSpace(s[0]) && !IsSpace(Last(s))
    ensures TrimRight(TrimLeft(s)) == s
  {
    assert TrimLeft(s) == s;
  }

  lemma FirstOfText(c: Capacity)
    requires WellFormed(c)
    ensures Text(c) != "" && !IsSpace(Text(c)[0])
  {
    assert IsDigit(c.whole[0]);
    assert (c.whole + FractionText(c))[0] == c.whole[0];
    assert Text(c)[0] == if c.negative then '-' else c.whole[0];
  }

  lemma LastOfText(c: Capacity)
    requires WellFormed(c)
    ensures Text(c) != "" && Last(Text(c)) == Last(c.unit) && IsLetter(Last(c.unit))
  {
    assert IsLetter(c.unit[|c.unit| - 1]);
    assert Last(UnitText(c)) == Last(c.unit);
    assert Last(FractionText(c)) == Last(UnitText(c));
    assert Last(Text(c)) == Last(FractionText(c));
  }

  lemma CeilIsLeast(a: nat, b: nat)
    requires b > 0
    ensures CeilDiv(a, b) * b >= a
    ensures a > 0 ==> CeilDiv(a, b) >= 1 && (CeilDiv(a, b) - 1) * b < a
  {
    var q := CeilDiv(a, b);
    assert a + b - 1 == q * b + (a + b - 1) % b;
    assert (q - 1) * b == q * b - b;
  }

  /** `size` is the least whole number of GiB, and at least 1, that covers mantissa / 10^scale units: with
      everything in parts of 1/1024 GiB and scaled by 10^scale, `size` covers it and one less does not. */
  ghost predicate IsLeastCover(size: int, mantissa: nat, scale: nat, unit: Unit) {
    && size >= 1
    && size * (1024 * Pow10(scale)) >= mantissa * Parts(unit)
    && (size - 1) * (1024 * Pow10(scale)) < mantissa * Parts(unit)
  }

  lemma SizeIsLeastCover(mantissa: nat, scale: nat, unit: Unit)
    requires mantissa > 0
    ensures IsLeastCover(GiB(mantissa, scale, unit), mantissa, scale, unit)
  {
    var p := Pow10(scale);
    CeilIsLeast(mantissa, p);
    CeilIsLeast(mantissa * 1024, p);
    CeilIsLeast(mantissa, p * 1024);
    var size := GiB(mantissa, scale, unit);
    Rescale(size, p);
    Rescale(size - 1, p);
  }

  /** What parsing a well-formed text means: it succeeds exactly for a positive value in a known unit, and
      then gives the least whole number of GiB covering that value. */
  lemma ParsedSizeCovers(c: Capacity)
    requires WellFormed(c)
    ensures var r, mantissa, unit := ParseDiskCapacityGiB(Text(c)), Mantissa(c), UnitOf(c.unit);
            && (r.Size? <==> !c.negative && mantissa > 0 && unit.Some?)
            && (r.Size? ==> IsLeastCover(r.gib, mantissa, |c.fraction|, unit.value))
  {
    ParseOfText(c);
    SizeForCovers(c);
  }

  lemma SizeForCovers(c: Capacity)
    ensures var r, mantissa, unit := SizeFor(c), Mantissa(c), UnitOf(c.unit);
            && (r.Size? <==> !c.negative && mantissa > 0 && unit.Some?)
            && (r.Size? ==> IsLeastCover(r.gib, mantissa, |c.fraction|, unit.value))
  {
    var mantissa := Mantissa(c);
    if mantissa > 0 && UnitOf(c.unit).Some? {
      SizeIsLeastCover(mantissa, |c.fraction|, UnitOf(c.unit).value);
    }
  }

  lemma Rescale(n: int, p: nat)
    ensures n * (1024 * p) == 1024 * (n * p) == n * (p * 1024)
  {
  }

  /** A larger request never gets a smaller disk, whatever the units and the number of decimals. */
  lemma SizeIsMonotone(m1: nat, s1: nat, u1: Unit, m2: nat, s2: nat, u2: Unit)
    requires m1 > 0 && m2 > 0
    requires (m1 * Parts(u1)) * Pow10(s2) <= (m2 * Parts(u2)) * Pow10(s1)
    ensures GiB(m1, s1, u1) <= GiB(m2, s2, u2)
  {
    SizeIsLeastCover(m1, s1, u1);
    SizeIsLeastCover(m2, s2, u2);
    CoversCompare(GiB(m1, s1, u1), m1 * Parts(u1), Pow10(s1), GiB(m2, s2, u2), m2 * Parts(u2), Pow10(s2));
  }

  lemma CoversCompare(x: int, a: int, p: nat, y: int, b: int, q: nat)
    requires p > 0 && q > 0 && a * q <= b * p
    requires (x - 1) * (1024 * p) < a && b <= y * (1024 * q)
    ensures x <= y
  {
    Scale((x - 1) * (1024 * p), a, q);
    Scale(b, y * (1024 * q) + 1, p);
    Rearrange(x - 1, p, q);
    Rearrange(y, q, p);
    Cancel(x - 1, y, 1024 * (p * q));
  }

  lemma ProductIsNonnegative(a: int, k: int)
    requires a >= 0 && k >= 0
    ensures a * k >= 0
  {
  }

  lemma Scale(a: int, b: int, k: nat)
    requires a < b && k > 0
    ensures a * k < b * k && a * k <= (b - 1) * k
  {
    ProductIsNonnegative(b - 1 - a, k);
    assert (b - 1 - a) * k == (b - 1) * k - a * k;
    assert (b - 1) * k == b * k - k;
  }

  lemma Rearrange(n: int, p: nat, q: nat)
    ensures (n * (1024 * p)) * q == n * (1024 * (p * q)) == n * (1024 * (q * p))
  {
  }

  lemma Cancel(a: int, b: int, k: nat)
    requires a * k < b * k
    ensures a < b
  {
    if a > b {
      Scale(b, a, k);
    }
  }

  /** Units are consistent: n TB = 1024n GB = 1048576n MB. */
  lemma UnitsAgree(mantissa: nat, scale: nat)
    ensures GiB(mantissa, scale, TB) == GiB(1024 * mantissa, scale, GB) == GiB(1048576 * mantissa, scale, MB)
    ensures GiB(mantissa, scale, GB) == GiB(1024 * mantissa, scale, MB)
  {
    if mantissa == 0 {
      CeilOfZero(Pow10(scale));
      CeilOfZero(Pow10(scale) * 1024);
    } else {
      SameRequest(mantissa, scale, TB, 1024 * mantissa, scale, GB);
      SameRequest(mantissa, scale, TB, 1048576 * mantissa, scale, MB);
      SameRequest(mantissa, scale, GB, 1024 * mantissa, scale, MB);
    }
  }

  /** Trailing zeros do not matter: 1.50 is 1.5. */
  lemma TrailingZerosAgree(mantissa: nat, scale: nat, unit: Unit)
    requires mantissa > 0
    ensures GiB(10 * mantissa, scale + 1, unit) == GiB(mantissa, scale, unit)
  {
    var parts, p := Parts(unit), Pow10(scale);
    assert (10 * mantissa) * parts == 10 * (mantissa * parts);
    assert (10 * (mantissa * parts)) * p == (mantissa * parts) * (10 * p);
    SameRequest(10 * mantissa, scale + 1, unit, mantissa, scale, unit);
  }

  /** The same of texts: appending a decimal zero changes neither the size nor the refusal. */
  lemma MoreDecimalsAgree(c: Capacity)
    requires WellFormed(c)
    ensures ParseDiskCapacityGiB(Text(c.(fraction := c.fraction + "0"))) == ParseDiskCapacityGiB(Text(c))
  {
    ParseOfText(c);
    ParseOfText(c.(fraction := c.fraction + "0"));
    SizeWithMoreDecimals(c);
  }

  lemma SizeWithMoreDecimals(c: Capacity)
    ensures SizeFor(c.(fraction := c.fraction + "0")) == SizeFor(c)
  {
    var longer := c.(fraction := c.fraction + "0");
    AnotherZero(c.whole, c.fraction);
    assert Mantissa(longer) == 10 * Mantissa(c);
    if Mantissa(c) > 0 && UnitOf(c.unit).Some? {
      TrailingZerosAgree(Mantissa(c), |c.fraction|, UnitOf(c.unit).value);
    }
  }

  lemma AnotherZero(whole: string, fraction: string)
    ensures Number(DigitValue, whole + (fraction + "0")) == 10 * Number(DigitValue, whole + fraction)
  {
    var s := whole + (fraction + "0");
    assert Front(s) == whole + fraction && Last(s) == '0';
  }

  lemma CeilOfZero(b: nat)
    requires b > 0
    ensures CeilDiv(0, b) == 0
  {
  }

  lemma SameRequest(m1: nat, s1: nat, u1: Unit, m2: nat, s2: nat, u2: Unit)
    requires m1 > 0 && m2 > 0
    requires (m1 * Parts(u1)) * Pow10(s2) == (m2 * Parts(u2)) * Pow10(s1)
    ensures GiB(m1, s1, u1) == GiB(m2, s2, u2)
  {
    SizeIsMonotone(m1, s1, u1, m2, s2, u2);
    SizeIsMonotone(m2, s2, u2, m1, s1, u1);
  }

  // ----- what a written capacity means

  const DIGITS := "0123456789"

  /** A number as people write it. */
  function Decimal(n: nat): string {
    if n < 10 then [DIGITS[n]] else Decimal(n / 10) + [DIGITS[n % 10]]
  }

  /** A number written with `width` digits, zeros in front. */
  function FixedDecimal(n: nat, width: nat): string {
    if width == 0 then "" else FixedDecimal(n / 10, width - 1) + [DIGITS[n % 10]]
  }

  lemma DigitReads(d: nat)
    requires d < 10
    ensures IsDigit(DIGITS[d]) && DigitValue(DIGITS[d]) == d
  {
  }

  lemma {:induction false} DecimalReads(n: nat)
    ensures Decimal(n) != "" && All(IsDigit, Decimal(n)) && Number(DigitValue, Decimal(n)) == n
  {
    DigitReads(n % 10);
    if n >= 10 {
      DecimalReads(n / 10);
      assert Front(Decimal(n)) == Decimal(n / 10);
    } else {
      assert Front(Decimal(n)) == [];
    }
  }

  /** Digits after the point count by their place. */
  lemma {:induction false} PlacesRead(w: nat, m: nat, width: nat)
    requires m < Pow10(width)
    ensures |FixedDecimal(m, width)| == width && All(IsDigit, FixedDecimal(m, width))
    ensures Number(DigitValue, Decimal(w) + FixedDecimal(m, width)) == w * Pow10(width) + m
  {
    if width == 0 {
      DecimalReads(w);
      assert Decimal(w) + "" == Decimal(w);
    } else {
      TenthFits(m, Pow10(width - 1));
      PlacesRead(w, m / 10, width - 1);
      OneMoreDigit(Decimal(w), FixedDecimal(m / 10, width - 1), m % 10);
      ShiftedPlaces(w, m, Pow10(width - 1));
    }
  }

  lemma TenthFits(m: nat, p: nat)
    requires m < 10 * p
    ensures m / 10 < p
  {
  }

  lemma ShiftedPlaces(w: nat, m: nat, p: nat)
    ensures 10 * (w * p + m / 10) + m % 10 == w * (10 * p) + m
  {
    assert w * (10 * p) == 10 * (w * p);
  }

  lemma OneMoreDigit(whole: string, fraction: string, d: nat)
    requires d < 10 && All(IsDigit, fraction)
    ensures All(IsDigit, fraction + [DIGITS[d]])
    ensures Number(DigitValue, whole + (fraction + [DIGITS[d]])) == 10 * Number(DigitValue, whole + fraction) + d
  {
    DigitReads(d);
    var s := whole + (fraction + [DIGITS[d]]);
    assert Front(s) == whole + fraction && Last(s) == DIGITS[d];
  }

  /** `c` is the capital letter `capital`, or that letter small. */
  predicate IsEither(c: char, capital: char) {
    c == capital || ('A' <= capital <= 'Z' && c as int == capital as int + 32)
  }

  predicate SameIgnoringCase(s: string, capitals: string) {
    |s| == |capitals| && forall i :: 0 <= i < |s| ==> IsEither(s[i], capitals[i])
  }

  /** The units as they may be written. */
  predicate Names(unit: string, u: Unit) {
    match u
    case GB => SameIgnoringCase(unit, "GB") || SameIgnoringCase(unit, "GIB")
    case TB => SameIgnoringCase(unit, "TB") || SameIgnoringCase(unit, "TIB")
    case MB => SameIgnoringCase(unit, "MB") || SameIgnoringCase(unit, "MIB")
  }

  lemma UpperIs(s: string, capitals: string)
    requires forall i :: 0 <= i < |capitals| ==> 'A' <= capitals[i] <= 'Z'
    ensures Upper(s) == capitals <==> SameIgnoringCase(s, capitals)
  {
    if Upper(s) == capitals {
      assert forall i :: 0 <= i < |s| ==> Upper(s)[i] == ToUpper(s[i]);
    }
    if SameIgnoringCase(s, capitals) {
      assert forall i :: 0 <= i < |s| ==> Upper(s)[i] == capitals[i];
    }
  }

  /** A unit is recognized exactly by its names, in any case. */
  lemma UnitNames(unit: string, u: Unit)
    ensures UnitOf(unit) == Some(u) <==> Names(unit, u)
  {
    UpperIs(unit, "GB");
    UpperIs(unit, "GIB");
    UpperIs(unit, "TB");
    UpperIs(unit, "TIB");
    UpperIs(unit, "MB");
    UpperIs(unit, "MIB");
  }

  lemma NamesAreLetters(unit: string, u: Unit)
    requires Names(unit, u)
    ensures unit != "" && All(IsLetter, unit)
  {
  }

  function Written(w: nat, m: nat, width: nat, gap: string, unit: string): string {
    Decimal(w) + (if width == 0 then "" else "." + FixedDecimal(m, width)) + gap + unit
  }

  /** A written capacity is parsed to the least whole number of GiB that covers what is written: the number with
      `width` digits m after the point is w + m / 10^width. */
  lemma WrittenCapacity(w: nat, m: nat, width: nat, gap: string, unit: string, u: Unit)
    requires m < Pow10(width) && w * Pow10(width) + m > 0 && All(IsBlank, gap) && Names(unit, u)
    ensures var r := ParseDiskCapacityGiB(Written(w, m, width, gap, unit));
            r.Size? && IsLeastCover(r.gib, w * Pow10(width) + m, width, u)
  {
    var c := Capacity(false, Decimal(w), FixedDecimal(m, width), gap, unit);
    DecimalReads(w);
    PlacesRead(w, m, width);
    NamesAreLetters(unit, u);
    UnitNames(unit, u);
    WrittenIsText(w, m, width, gap, unit);
    ParsedSizeCovers(c);
  }

  lemma WrittenIsText(w: nat, m: nat, width: nat, gap: string, unit: string)
    requires |FixedDecimal(m, width)| == width
    ensures Written(w, m, width, gap, unit) == Text(Capacity(false, Decimal(w), FixedDecimal(m, width), gap, unit))
  {
    var whole, fraction := Decimal(w), FixedDecimal(m, width);
    if width == 0 {
      assert whole + "" + gap + unit == "" + (whole + (gap + unit));
    } else {
      assert whole + ("." + fraction) + gap + unit == "" + (whole + ("." + (fraction + (gap + unit))));
    }
  }

  /** So n GB are n GiB, n TB are 1024 n, and n MB are n / 1024 rounded up. */
  lemma WrittenWholeNumber(n: nat, gap: string, unit: string, u: Unit)
    requires n > 0 && All(IsBlank, gap) && Names(unit, u)
    ensures var r := ParseDiskCapacityGiB(Decimal(n) + gap + unit);
            match u
            case GB => r == Size(n)
            case TB => r == Size(1024 * n)
            case MB => r.Size? && 1024 * r.gib >= n && 1024 * (r.gib - 1) < n
  {
    WrittenCapacity(n, 0, 0, gap, unit, u);
    assert Written(n, 0, 0, gap, unit) == Decimal(n) + gap + unit by {
      assert Decimal(n) + "" == Decimal(n);
    }
    CoverOfWhole(ParseDiskCapacityGiB(Decimal(n) + gap + unit).gib, n, u);
  }

  lemma CoverOfWhole(size: int, n: nat, u: Unit)
    requires IsLeastCover(size, n * Pow10(0) + 0, 0, u)
    ensures match u
            case GB => size == n
            case TB => size == 1024 * n
            case MB => 1024 * size >= n && 1024 * (size - 1) < n
  {
  }

  lemma {:induction false} TrimsRight(s: string, pad: string)
    requires All(IsSpace, pad) && (s == "" || !IsSpace(Last(s)))
    ensures TrimRight(s + pad) == s
  {
    if pad == "" {
      assert s + pad == s;
    } else {
      assert IsSpace(pad[|pad| - 1]);
      assert Front(s + pad) == s + Front(pad);
      TrimsRight(s, Front(pad));
    }
  }

  /** White space around a capacity does not matter. */
  lemma PaddingDoesNotMatter(before: string, c: Capacity, after: string)
    requires WellFormed(c) && All(IsSpace, before) && All(IsSpace, after)
    ensures ParseDiskCapacityGiB(before + Text(c) + after) == ParseDiskCapacityGiB(Text(c))
  {
    FirstOfText(c);
    LastOfText(c);
    NothingToTrim(Text(c));
    Trims(before, Text(c), after);
  }

  lemma Trims(before: string, s: string, after: string)
    requires All(IsSpace, before) && All(IsSpace, after) && s != "" && !IsSpace(s[0]) && !IsSpace(Last(s))
    ensures TrimRight(TrimLeft(before + s + after)) == s
  {
    TrimsLeft(before, s + after);
    assert before + s + after == before + (s + after);
    TrimsRight(s, after);
  }

  lemma TrimsLeft(pad: string, s: string)
    requires All(IsSpace, pad) && (s == "" || !IsSpace(s[0]))
    ensures TrimLeft(pad + s) == s
  {
    SpanOfConcat(IsSpace, pad, s);
  }

  // ----- splitDisks

  datatype VMDisk = VMDisk(name: string, capacity: string)

  /** The capacity parser in use; ParseDiskCapacityGiB in the provider. */
  type Parser = string -> Sized

  datatype Split =
    | Disks(boot: int, additional: seq<int>)
    | WrongBootCount(found: nat)
    | BadCapacity(name: string, error: CapacityError)

  const BOOT := "boot"

  function BootCount(disks: seq<VMDisk>): nat {
    if disks == [] then 0 else BootCount(Front(disks)) + if Last(disks).name == BOOT then 1 else 0
  }

  /** The sizes of the disks not named "boot", in order. */
  function AdditionalSizes(disks: seq<VMDisk>, parse: Parser): seq<int> {
    if disks == [] then []
    else
      var size := parse(Last(disks).capacity);
      AdditionalSizes(Front(disks), parse) + if Last(disks).name == BOOT || size.Bad? then [] else [size.gib]
  }

  predicate Parses(d: VMDisk, parse: Parser) {
    parse(d.capacity).Size?
  }

  method CountBoot(disks: seq<VMDisk>) returns (count: nat)
    ensures count == BootCount(disks)
  {
    count := 0;
    for i := 0 to |disks|
      invariant count == BootCount(disks[..i])
    {
      assert Front(disks[..i + 1]) == disks[..i];
      if disks[i].name == BOOT {
        count := count + 1;
      }
    }
    assert disks[..|disks|] == disks;
  }

  function BootDisks(disks: seq<VMDisk>): set<int> {
    set i | 0 <= i < |disks| && disks[i].name == "boot"
  }

  lemma OneMoreDisk(disks: seq<VMDisk>, last: VMDisk)
    ensures BootDisks(disks + [last]) == BootDisks(disks) + if last.name == "boot" then {|disks|} else {}
  {
  }

  /** The disks named "boot" are what is counted. */
  lemma {:induction false} BootDisksAreCounted(disks: seq<VMDisk>)
    ensures BootCount(disks) == |BootDisks(disks)|
  {
    if disks != [] {
      BootDisksAreCounted(Front(disks));
      OneMoreDisk(Front(disks), Last(disks));
      assert disks == Front(disks) + [Last(disks)];
    }
  }

  /** A disk named "boot" has this size. */
  predicate HasBoot(disks: seq<VMDisk>, size: int, parse: Parser) {
    exists i :: 0 <= i < |disks| && disks[i].name == BOOT && parse(disks[i].capacity) == Size(size)
  }

  lemma HasBootInLonger(disks: seq<VMDisk>, i: nat, size: int, parse: Parser)
    requires i < |disks| && HasBoot(disks[..i], size, parse)
    ensures HasBoot(disks[..i + 1], size, parse)
  {
    var j :| 0 <= j < i && disks[..i][j].name == BOOT && parse(disks[..i][j].capacity) == Size(size);
    assert disks[..i + 1][j] == disks[j];
  }

  /** Disk `i` is the first whose capacity cannot be parsed. */
  predicate FirstBad(disks: seq<VMDisk>, i: int, name: string, error: CapacityError, parse: Parser) {
    && 0 <= i < |disks| && disks[i].name == name && parse(disks[i].capacity) == Bad(error)
    && forall j :: 0 <= j < i ==> Parses(disks[j], parse)
  }

  lemma NextDisk(disks: seq<VMDisk>, i: nat, parse: Parser)
    requires i < |disks|
    ensures BootCount(disks[..i + 1]) == BootCount(disks[..i]) + if disks[i].name == BOOT then 1 else 0
    ensures var size, earlier := parse(disks[i].capacity), AdditionalSizes(disks[..i], parse);
            AdditionalSizes(disks[..i + 1], parse) ==
              earlier + if disks[i].name == BOOT || size.Bad? then [] else [size.gib]
  {
    assert Front(disks[..i + 1]) == disks[..i];
  }

  /** What the loop has found in the disks so far. */
  ghost predicate SplitSoFar(disks: seq<VMDisk>, parse: Parser, boot: int, additional: seq<int>) {
    && additional == AdditionalSizes(disks, parse) && |additional| + BootCount(disks) == |disks|
    && (BootCount(disks) > 0 ==> HasBoot(disks, boot, parse))
  }

  lemma NextSplit(disks: seq<VMDisk>, i: nat, parse: Parser, boot: int, additional: seq<int>)
    requires i < |disks| && Parses(disks[i], parse) && SplitSoFar(disks[..i], parse, boot, additional)
    ensures var size := parse(disks[i].capacity).gib;
            if disks[i].name == BOOT then SplitSoFar(disks[..i + 1], parse, size, additional)
            else SplitSoFar(disks[..i + 1], parse, boot, additional + [size])
  {
    NextDisk(disks, i, parse);
    if disks[i].name == BOOT {
      assert disks[..i + 1][i] == disks[i];
    } else if BootCount(disks[..i]) > 0 {
      HasBootInLonger(disks, i, boot, parse);
    }
  }

  /** `sizes` are the sizes of the disks at these positions, none of them the boot disk, in order. */
  ghost predicate AreSizesOf(sizes: seq<int>, disks: seq<VMDisk>, parse: Parser, at: seq<nat>) {
    && |at| == |sizes|
    && (forall j :: 0 <= j < |at| ==> IsSizeOf(sizes[j], disks, parse, at[j]))
    && forall i, j :: 0 <= i < j < |at| ==> at[i] < at[j]
  }

  predicate IsSizeOf(size: int, disks: seq<VMDisk>, parse: Parser, i: nat) {
    i < |disks| && disks[i].name != BOOT && parse(disks[i].capacity) == Size(size)
  }

  /** The additional disks are all disks but the boot disk, each once, in the order given. */
  lemma {:induction false} AdditionalInOrder(disks: seq<VMDisk>, parse: Parser) returns (at: seq<nat>)
    requires forall i :: 0 <= i < |disks| ==> Parses(disks[i], parse)
    ensures AreSizesOf(AdditionalSizes(disks, parse), disks, parse, at)
    ensures forall i :: 0 <= i < |disks| && disks[i].name != BOOT ==> i in at
  {
    if disks == [] {
      at := [];
    } else {
      var before, last := Front(disks), Last(disks);
      at := AdditionalInOrder(before, parse);
      assert disks == before + [last];
      if last.name == BOOT {
        StillSizes(AdditionalSizes(before, parse), before, last, parse, at);
      } else {
        OneMoreSize(AdditionalSizes(before, parse), before, last, parse, at);
        at := at + [|before|];
      }
    }
  }

  lemma StillSizes(sizes: seq<int>, disks: seq<VMDisk>, last: VMDisk, parse: Parser, at: seq<nat>)
    requires AreSizesOf(sizes, disks, parse, at)
    ensures AreSizesOf(sizes, disks + [last], parse, at)
  {
    forall j | 0 <= j < |at| ensures IsSizeOf(sizes[j], disks + [last], parse, at[j]) {
      assert IsSizeOf(sizes[j], disks, parse, at[j]);
    }
  }

  lemma OneMoreSize(sizes: seq<int>, disks: seq<VMDisk>, last: VMDisk, parse: Parser, at: seq<nat>)
    requires AreSizesOf(sizes, disks, parse, at) && last.name != BOOT && Parses(last, parse)
    ensures AreSizesOf(sizes + [parse(last.capacity).gib], disks + [last], parse, at + [|disks|])
  {
    StillSizes(sizes, disks, last, parse, at);
    forall i | 0 <= i < |at| ensures at[i] < |disks| {
      assert IsSizeOf(sizes[i], disks, parse, at[i]);
    }
  }

  /** It fails exactly on a wrong number of boot disks or an unparseable capacity, the former first; otherwise
      every disk's size is kept, the boot disk's apart and the others' in order. */
  method SplitDisks(disks: seq<VMDisk>, parse: Parser) returns (r: Split)
    ensures r.WrongBootCount? <==> BootCount(disks) != 1
    ensures r.WrongBootCount? ==> r.found == BootCount(disks)
    ensures r.BadCapacity? <==> BootCount(disks) == 1 && exists d :: d in disks && !Parses(d, parse)
    ensures r.BadCapacity? ==> exists i :: FirstBad(disks, i, r.name, r.error, parse)
    ensures r.Disks? ==>
              && HasBoot(disks, r.boot, parse)
              && r.additional == AdditionalSizes(disks, parse)
              && |r.additional| + 1 == |disks|
  {
    var bootCount := CountBoot(disks);
    if bootCount != 1 {
      return WrongBootCount(bootCount);
    }
    var boot, additional := 0, [];
    for i := 0 to |disks|
      invariant forall j :: 0 <= j < i ==> Parses(disks[j], parse)
      invariant SplitSoFar(disks[..i], parse, boot, additional)
    {
      var size := parse(disks[i].capacity);
      if size.Bad? {
        assert !Parses(disks[i], parse) && FirstBad(disks, i, disks[i].name, size.error, parse);
        return BadCapacity(disks[i].name, size.error);
      }
      NextSplit(disks, i, parse, boot, additional);
      if disks[i].name == BOOT {
        boot := size.gib;
      } else {
        additional := additional + [size.gib];
      }
    }
    assert disks[..|disks|] == disks;
    r := Disks(boot, additional);
  }
}
