/** Opaque page tokens: an offset in decimal, in unpadded base64url (sections 3.2 and 5 of RFC 4648). */
module PageTokens {
  import opened Basics
  import opened Numbers

  type Byte = b: int | 0 <= b < 256

  // ----- base64url

  function Symbol(v: int): (c: char)
    requires 0 <= v < 64
    ensures c != '\r' && c != '\n'
  {
    if v < 26 then 'A' + v as char
    else if v < 52 then 'a' + (v - 26) as char
    else if v < 62 then '0' + (v - 52) as char
    else if v == 62 then '-'
    else '_'
  }

  function SymbolValue(c: char): (v: Option<int>)
    ensures v.Some? ==> 0 <= v.value < 64
  {
    if 'A' <= c <= 'Z' then Some((c - 'A') as int)
    else if 'a' <= c <= 'z' then Some((c - 'a') as int + 26)
    else if '0' <= c <= '9' then Some((c - '0') as int + 52)
    else if c == '-' then Some(62)
    else if c == '_' then Some(63)
    else None
  }

  lemma SymbolRoundTrip(v: int)
    requires 0 <= v < 64
    ensures SymbolValue(Symbol(v)) == Some(v)
  {
  }

  function EncodeBytes(b: seq<Byte>): string {
    if |b| == 0 then ""
    else if |b| == 1 then [Symbol(b[0] / 4), Symbol(b[0] % 4 * 16)]
    else if |b| == 2 then [Symbol(b[0] / 4), Symbol(b[0] % 4 * 16 + b[1] / 16), Symbol(b[1] % 16 * 4)]
    else [Symbol(b[0] / 4), Symbol(b[0] % 4 * 16 + b[1] / 16), Symbol(b[1] % 16 * 4 + b[2] / 64), Symbol(b[2] % 64)]
         + EncodeBytes(b[3..])
  }

  /** Decoding without line breaks. As in Go's non-strict decoder, unused trailing bits are ignored. */
  function DecodeClean(s: string): Option<seq<Byte>> {
    if |s| == 0 then Some([])
    else if |s| == 1 then None
    else
      var a, b := SymbolValue(s[0]), SymbolValue(s[1]);
      if a.None? || b.None? then None
      else if |s| == 2 then Some([a.value * 4 + b.value / 16])
      else
        var c := SymbolValue(s[2]);
        if c.None? then None
        else if |s| == 3 then Some([a.value * 4 + b.value / 16, b.value % 16 * 16 + c.value / 4])
        else
          var d, rest := SymbolValue(s[3]), DecodeClean(s[4..]);
          if d.None? || rest.None? then None
          else Some([a.value * 4 + b.value / 16, b.value % 16 * 16 + c.value / 4,
               c.value % 4 * 64 + d.value] + rest.value)
  }

  /** Go's decoder skips carriage returns and line feeds. */
  function WithoutBreaks(s: string): string {
    if s == "" then ""
    else if s[0] == '\r' || s[0] == '\n' then WithoutBreaks(s[1..])
    else [s[0]] + WithoutBreaks(s[1..])
  }

  function DecodeBytes(s: string): Option<seq<Byte>> {
    DecodeClean(WithoutBreaks(s))
  }

  lemma {:induction false} CleanStaysClean(s: string)
    requires forall i :: 0 <= i < |s| ==> s[i] != '\r' && s[i] != '\n'
    ensures WithoutBreaks(s) == s
  {
    if s != "" {
      CleanStaysClean(s[1..]);
    }
  }

  lemma {:induction false} EncodedIsClean(b: seq<Byte>)
    ensures forall i :: 0 <= i < |EncodeBytes(b)| ==> EncodeBytes(b)[i] != '\r' && EncodeBytes(b)[i] != '\n'
  {
    if |b| >= 3 {
      EncodedIsClean(b[3..]);
    }
  }

  lemma OneByteRoundTrip(x: Byte)
    ensures DecodeClean(EncodeBytes([x])) == Some([x])
  {
    SymbolRoundTrip(x / 4);
    SymbolRoundTrip(x % 4 * 16);
  }

  lemma TwoBytesRoundTrip(x: Byte, y: Byte)
    ensures DecodeClean(EncodeBytes([x, y])) == Some([x, y])
  {
    var a, b, c := x / 4, x % 4 * 16 + y / 16, y % 16 * 4;
    SymbolRoundTrip(a);
    SymbolRoundTrip(b);
    SymbolRoundTrip(c);
    assert EncodeBytes([x, y]) == [Symbol(a), Symbol(b), Symbol(c)];
    assert a * 4 + b / 16 == x && b % 16 * 16 + c / 4 == y;
  }

  lemma ThreeBytesRoundTrip(x: Byte, y: Byte, z: Byte, rest: seq<Byte>, tail: string)
    requires DecodeClean(tail) == Some(rest)
    ensures DecodeClean([Symbol(x / 4), Symbol(x % 4 * 16 + y / 16),
                        Symbol(y % 16 * 4 + z / 64), Symbol(z % 64)] + tail)
         == Some([x, y, z] + rest)
  {
    var a, b, c, d := x / 4, x % 4 * 16 + y / 16, y % 16 * 4 + z / 64, z % 64;
    SymbolRoundTrip(a);
    SymbolRoundTrip(b);
    SymbolRoundTrip(c);
    SymbolRoundTrip(d);
    Sextets(x, y, z);
    assert ([Symbol(a), Symbol(b), Symbol(c), Symbol(d)] + tail)[4..] == tail;
  }

  /** Three bytes regrouped in sixes and back. */
  lemma Sextets(x: Byte, y: Byte, z: Byte)
    ensures var a, b, c, d := x / 4, x % 4 * 16 + y / 16, y % 16 * 4 + z / 64, z % 64;
            a * 4 + b / 16 == x && b % 16 * 16 + c / 4 == y && c % 4 * 64 + d == z
  {
  }

  lemma ShortRoundTrip(b: seq<Byte>)
    requires |b| < 3
    ensures DecodeClean(EncodeBytes(b)) == Some(b)
  {
    if |b| == 2 {
      TwoBytesRoundTrip(b[0], b[1]);
      assert b == [b[0], b[1]];
    } else if |b| == 1 {
      OneByteRoundTrip(b[0]);
      assert b == [b[0]];
    }
  }

  lemma {:induction false} CleanRoundTrip(b: seq<Byte>)
    ensures DecodeClean(EncodeBytes(b)) == Some(b)
  {
    if |b| < 3 {
      ShortRoundTrip(b);
    } else {
      CleanRoundTrip(b[3..]);
      ThreeBytesRoundTrip(b[0], b[1], b[2], b[3..], EncodeBytes(b[3..]));
      assert b == [b[0], b[1], b[2]] + b[3..];
    }
  }

  /** Decoding undoes encoding, for every byte string. */
  lemma Base64RoundTrip(b: seq<Byte>)
    ensures DecodeBytes(EncodeBytes(b)) == Some(b)
  {
    EncodedIsClean(b);
    CleanStaysClean(EncodeBytes(b));
    CleanRoundTrip(b);
  }

  // ----- that it is base64url

  /** The alphabet of section 5 of RFC 4648: A to Z, a to z, 0 to 9, then '-' and '_'. */
  lemma Alphabet(v: int)
    requires 0 <= v < 64
    ensures Symbol(0) == 'A' && Symbol(25) == 'Z' && Symbol(26) == 'a' && Symbol(51) == 'z'
    ensures Symbol(52) == '0' && Symbol(61) == '9' && Symbol(62) == '-' && Symbol(63) == '_'
    ensures v !in {25, 51, 61, 62, 63} ==> Symbol(v + 1) as int == Symbol(v) as int + 1
  {
  }

  /** What four symbols stand for, six bits each, most significant first. */
  function Bits(s: string): int
    requires |s| == 4 && forall i :: 0 <= i < 4 ==> SymbolValue(s[i]).Some?
  {
    SymbolValue(s[0]).value * 262144 + SymbolValue(s[1]).value * 4096
    + SymbolValue(s[2]).value * 64 + SymbolValue(s[3]).value
  }

  /** Three bytes make four symbols of the same 24 bits, one or two bytes at the end two or three symbols whose spare
      bits are zero (an 'A' stands for zero), and there is no padding. */
  lemma GroupsKeepTheirBits(b: seq<Byte>)
    requires b != []
    ensures |b| >= 3 ==> |EncodeBytes(b)| >= 4 && EncodeBytes(b)[4..] == EncodeBytes(b[3..])
                         && HasBits(EncodeBytes(b)[..4], (b[0] as int) * 65536 + (b[1] as int) * 256 + b[2] as int)
    ensures |b| == 2 ==> HasBits(EncodeBytes(b) + "A", (b[0] as int) * 65536 + (b[1] as int) * 256)
    ensures |b| == 1 ==> HasBits(EncodeBytes(b) + "AA", (b[0] as int) * 65536)
  {
    if |b| >= 3 {
      GroupOfThree(b[0], b[1], b[2]);
    } else if |b| == 2 {
      GroupOfThree(b[0], b[1], 0);
    } else {
      GroupOfThree(b[0], 0, 0);
    }
  }

  predicate HasBits(s: string, n: int) {
    |s| == 4 && (forall i :: 0 <= i < 4 ==> SymbolValue(s[i]).Some?) && Bits(s) == n
  }

  lemma GroupOfThree(x: Byte, y: Byte, z: Byte)
    ensures var s := [Symbol(x / 4), Symbol(x % 4 * 16 + y / 16), Symbol(y % 16 * 4 + z / 64), Symbol(z % 64)];
            HasBits(s, (x as int) * 65536 + (y as int) * 256 + z as int)
  {
    SymbolRoundTrip(x / 4);
    SymbolRoundTrip(x % 4 * 16 + y / 16);
    SymbolRoundTrip(y % 16 * 4 + z / 64);
    SymbolRoundTrip(z % 64);
  }

  // ----- decimal

  const ZERO: Byte := 48
  const MINUS: Byte := 45
  const PLUS: Byte := 43

  function Digits(n: nat): seq<Byte> {
    if n < 10 then [ZERO + n] else Digits(n / 10) + [ZERO + n % 10]
  }

  /** strconv.Itoa. */
  function Itoa(n: int): seq<Byte> {
    if n < 0 then [MINUS] + Digits(-n) else Digits(n)
  }

  predicate AllDigits(s: seq<Byte>) {
    forall i :: 0 <= i < |s| ==> ZERO <= s[i] < ZERO + 10
  }

  function DigitOf(b: Byte): nat {
    if ZERO <= b then b - ZERO else 0
  }

  /** strconv.Atoi: an optional sign, at least one digit, and a value that fits 64 bits. */
  function Atoi(s: seq<Byte>): Option<int> {
    var signed := s != [] && (s[0] == MINUS || s[0] == PLUS);
    var digits := if signed then s[1..] else s;
    if digits == [] || !AllDigits(digits) then None
    else
      var n: int := if signed && s[0] == MINUS then 0 - Number(DigitOf, digits) else Number(DigitOf, digits);
      if -MAX_INT64 - 1 <= n <= MAX_INT64 then Some(n) else None
  }

  lemma {:induction false} DigitsRoundTrip(n: nat)
    ensures Digits(n) != [] && AllDigits(Digits(n)) && Number(DigitOf, Digits(n)) == n
  {
    if n >= 10 {
      DigitsRoundTrip(n / 10);
      assert Front(Digits(n)) == Digits(n / 10);
    } else {
      assert Front(Digits(n)) == [];
    }
  }

  /** A decimal numeral for `n`: an optional sign and at least one digit. */
  ghost predicate Denotes(raw: seq<Byte>, n: int) {
    exists digits: seq<Byte> :: DenotesWith(raw, digits, n)
  }

  predicate DenotesWith(raw: seq<Byte>, digits: seq<Byte>, n: int) {
    && digits != [] && AllDigits(digits)
    && (raw == [MINUS] + digits || raw == [PLUS] + digits || raw == digits)
    && n == if raw == [MINUS] + digits then 0 - Number(DigitOf, digits) else Number(DigitOf, digits)
  }

  lemma AtoiReadsNumerals(raw: seq<Byte>, n: int)
    requires -MAX_INT64 - 1 <= n <= MAX_INT64
    ensures Atoi(raw) == Some(n) <==> Denotes(raw, n)
  {
    if Atoi(raw) == Some(n) {
      var signed := raw[0] == MINUS || raw[0] == PLUS;
      assert raw == [raw[0]] + raw[1..];
      assert DenotesWith(raw, if signed then raw[1..] else raw, n);
    }
    if digits :| DenotesWith(raw, digits, n) {
      assert ZERO <= digits[0];
      if raw != digits {
        assert raw[1..] == digits;
      }
    }
  }

  lemma DecimalRoundTrip(n: int)
    requires -MAX_INT64 - 1 <= n <= MAX_INT64
    ensures Atoi(Itoa(n)) == Some(n)
  {
    var digits := Digits(if n < 0 then -n else n);
    DigitsRoundTrip(if n < 0 then -n else n);
    assert DenotesWith(Itoa(n), digits, n);
    AtoiReadsNumerals(Itoa(n), n);
  }

  // ----- tokens

  /** None is the InvalidArgument error. */
  function DecodePageToken(token: string): (offset: Option<int>)
    ensures offset.Some? ==> 0 <= offset.value <= MAX_INT32
  {
    match DecodeBytes(token)
    case None => None
    case Some(raw) =>
      match Atoi(raw)
      case None => None
      case Some(n) => if n < 0 || n > MAX_INT32 then None else Some(n)
  }

  function EncodePageToken(offset: int): string {
    EncodeBytes(Itoa(offset))
  }

  /** Which offset a token is decoded to, and which tokens are accepted at all: exactly those whose decoded
      bytes are a decimal numeral for a number in 0..MaxInt32, that number. */
  lemma DecodedToken(token: string, n: int)
    ensures DecodePageToken(token) == Some(n)
       <==> 0 <= n <= MAX_INT32 && DecodeBytes(token).Some? && Denotes(DecodeBytes(token).value, n)
  {
    if DecodeBytes(token).Some? && 0 <= n <= MAX_INT32 {
      AtoiReadsNumerals(DecodeBytes(token).value, n);
    }
  }

  /** A token stands for the offset it was made from, and a token made from an offset that has wrapped is
      refused. */
  lemma TokenRoundTrip(offset: int)
    requires -MAX_INT32 - 1 <= offset <= MAX_INT32
    ensures DecodePageToken(EncodePageToken(offset)) == if offset >= 0 then Some(offset) else None
    ensures EncodePageToken(offset) != ""
  {
    Base64RoundTrip(Itoa(offset));
    DecimalRoundTrip(offset);
  }

  /** The tokens of the first pages of 0, 50 and 100 items: "0", "50" and "100" in base64url. */
  lemma FirstTokens()
    ensures Itoa(0) == [48] && Itoa(50) == [53, 48] && Itoa(100) == [49, 48, 48]
    ensures EncodePageToken(0) == "MA" && EncodePageToken(50) == "NTA" && EncodePageToken(100) == "MTAw"
  {
    assert Digits(10) == [49, 48] && Digits(5) == [53];
    assert EncodeBytes([48]) == "MA";
    assert EncodeBytes([53, 48]) == "NTA";
    assert EncodeBytes([49, 48, 48]) == "MTAw";
  }
}
