/** Node addresses of the IP transport: an IPv4 end point written as
    "a.b.c.d:port", parsed by splitting on ':' and compared by value.
    Parsing follows the .NET rules for IPAddress.Parse (the IPv4 forms of
    one to four decimal, octal or hex parts) and int.Parse (white space and
    a sign around decimal digits). */
module IpEndPoint {
  import opened Common

  /** An IPv4 address, one field per octet (each in 0..255 when valid). */
  datatype IPAddress = IPAddress(b0: int, b1: int, b2: int, b3: int)

  datatype IPEndPoint = IPEndPoint(address: IPAddress, port: int)

  datatype IPEndPointAddress = IPEndPointAddress(endPoint: IPEndPoint)

  /** What `Equals(object)` may be handed: this address type, another
      implementation of the address interface, or null. */
  datatype AnyObject = AnIPEndPointAddress(a: IPEndPointAddress) | OtherObject | Null

  const MaxPort: int := 65535
  const IntMaxValue: int := 0x7FFF_FFFF

  /** IPAddress.None (255.255.255.255). */
  const NoneAddress: IPAddress := IPAddress(255, 255, 255, 255)

  /** The placeholder address `Unknown`: IPAddress.None with port 0. */
  const Unknown: IPEndPointAddress := IPEndPointAddress(IPEndPoint(NoneAddress, 0))

  predicate ValidOctet(b: int) { 0 <= b <= 255 }

  predicate ValidAddress(a: IPAddress) {
    ValidOctet(a.b0) && ValidOctet(a.b1) && ValidOctet(a.b2) && ValidOctet(a.b3)
  }

  predicate ValidEndPoint(e: IPEndPoint) {
    ValidAddress(e.address) && 0 <= e.port <= MaxPort
  }

  // ---------------------------------------------------------------------
  // Splitting on a separator, dropping empty pieces

  /** Position of the first `sep` in `s`, or |s| when there is none. */
  function IndexOf(s: string, sep: char): (i: nat)
    ensures i <= |s|
    ensures i < |s| ==> s[i] == sep
    ensures forall k :: 0 <= k < i ==> s[k] != sep
  {
    if s == [] then 0 else if s[0] == sep then 0 else 1 + IndexOf(s[1..], sep)
  }

  /** String.Split(sep, RemoveEmptyEntries): the maximal separator-free pieces, empty ones dropped. */
  function Split(s: string, sep: char): (r: seq<string>)
    ensures forall k :: 0 <= k < |r| ==> |r[k]| > 0 && sep !in r[k]
    decreases |s|
  {
    if s == [] then []
    else
      var i := IndexOf(s, sep);
      var rest := if i < |s| then Split(s[i + 1..], sep) else [];
      if i == 0 then rest else [s[..i]] + rest
  }

  // ---------------------------------------------------------------------
  // Decimal digits

  predicate IsDigit(c: char) { '0' <= c <= '9' }

  function DigitValue(c: char): int requires IsDigit(c) { c as int - '0' as int }

  function DigitChar(d: int): (c: char)
    requires 0 <= d < 10
    ensures IsDigit(c) && DigitValue(c) == d
  {
    ('0' as int + d) as char
  }

  predicate AllDigits(s: string) { forall k :: 0 <= k < |s| ==> IsDigit(s[k]) }

  /** The value of a string of decimal digits. */
  function DigitsValue(s: string): nat
    requires AllDigits(s)
    decreases |s|
  {
    if s == [] then 0 else DigitsValue(s[..|s| - 1]) * 10 + DigitValue(s[|s| - 1])
  }

  /** The decimal form of `n`, without leading zeros. */
  function NatToString(n: nat): (s: string)
    ensures |s| > 0 && AllDigits(s)
    decreases n
  {
    if n < 10 then [DigitChar(n)] else NatToString(n / 10) + [DigitChar(n % 10)]
  }

  /** Digits with no superfluous leading zero. */
  predicate Canonical(s: string) { |s| > 0 && AllDigits(s) && (s[0] == '0' ==> |s| == 1) }

  lemma {:induction false} NatToStringRoundTrip(n: nat)
    ensures DigitsValue(NatToString(n)) == n
    ensures Canonical(NatToString(n))
    ensures n < 10 ==> |NatToString(n)| == 1
    ensures n < 100 ==> |NatToString(n)| <= 2
    ensures n < 1000 ==> |NatToString(n)| <= 3
    decreases n
  {
    if n >= 10 {
      NatToStringRoundTrip(n / 10);
      var s := NatToString(n);
      assert s[..|s| - 1] == NatToString(n / 10);
    }
  }

  const IntMinValue: int := -0x8000_0000

  /** The white characters int.Parse skips: U+0009 to U+000D and the space. */
  predicate IsWhite(c: char) { c == ' ' || '\t' <= c <= '\r' }

  predicate AllWhite(s: string) { forall k :: 0 <= k < |s| ==> IsWhite(s[k]) }

  predicate AllNul(s: string) { forall k :: 0 <= k < |s| ==> s[k] == '\0' }

  /** `s` without its leading white characters. */
  function TrimWhite(s: string): (r: string)
    ensures |r| <= |s|
    ensures r == [] || !IsWhite(r[0])
    decreases |s|
  {
    if s != [] && IsWhite(s[0]) then TrimWhite(s[1..]) else s
  }

  /** Length of the run of decimal digits at the head of `s`. */
  function DigitRun(s: string): (n: nat)
    ensures n <= |s|
    ensures forall k :: 0 <= k < n ==> IsDigit(s[k])
    ensures n < |s| ==> !IsDigit(s[n])
    decreases |s|
  {
    if s != [] && IsDigit(s[0]) then 1 + DigitRun(s[1..]) else 0
  }

  /** int.Parse with NumberStyles.Integer: white space, then an optional '+'
      or '-', then at least one decimal digit, then white space and trailing
      NUL characters. Anything else is a Format error; a value outside the
      32-bit signed range is an Overflow error. */
  function ParseInt(s: string): (r: Result<int>)
    ensures r.Ok? ==> IntMinValue <= r.value <= IntMaxValue
  {
    var t := TrimWhite(s);
    var negative := t != [] && t[0] == '-';
    var u := if t != [] && (t[0] == '-' || t[0] == '+') then t[1..] else t;
    var n := DigitRun(u);
    if n == 0 || !AllNul(TrimWhite(u[n..])) then Err(Format)
    else SignedResult(negative, DigitsValue(u[..n]))
  }

  /** The outcome for a magnitude and a sign: the signed value, or Overflow
      outside the 32-bit signed range. */
  function SignedResult(negative: bool, magnitude: nat): (r: Result<int>)
    ensures r.Ok? <==> (if negative then magnitude <= -IntMinValue else magnitude <= IntMaxValue)
    ensures r.Ok? ==> r.value == if negative then -(magnitude as int) else magnitude
    ensures r.Err? ==> r.error == Overflow
  {
    var v: int := if negative then -(magnitude as int) else magnitude;
    if v < IntMinValue || v > IntMaxValue then Err(Overflow) else Ok(v)
  }

  // ---------------------------------------------------------------------
  // IPv4 text forms

  const MaxIPv4Value: int := 0xFFFF_FFFF

  predicate IsHexDigit(c: char) { IsDigit(c) || 'a' <= c <= 'f' || 'A' <= c <= 'F' }

  function HexDigitValue(c: char): (d: nat)
    requires IsHexDigit(c)
    ensures d < 16
  {
    if IsDigit(c) then DigitValue(c)
    else if 'a' <= c <= 'f' then c as int - 'a' as int + 10
    else c as int - 'A' as int + 10
  }

  /** A digit of the given base (8, 10 or 16). */
  predicate InBase(c: char, base: nat) { IsHexDigit(c) && HexDigitValue(c) < base }

  predicate AllInBase(s: string, base: nat) { forall k :: 0 <= k < |s| ==> InBase(s[k], base) }

  /** The value of a string of digits in the given base. */
  function BaseValue(s: string, base: nat): nat
    requires AllInBase(s, base)
    decreases |s|
  {
    if s == [] then 0 else Shift(BaseValue(s[..|s| - 1], base), base) + HexDigitValue(s[|s| - 1])
  }

  /** `x * base` for the three bases, written so that it stays linear. */
  function Shift(x: nat, base: nat): nat {
    if base == 8 then x * 8 else if base == 10 then x * 10 else x * 16
  }

  /** One dot-separated part of an IPv4 address: "0x" or "0X" and at least
      one hex digit, or a '0' and octal digits, or decimal digits; its value
      is at most 0xFFFFFFFF. */
  function ParsePart(p: string): (r: Option<nat>)
    ensures r.Some? ==> r.value <= MaxIPv4Value
  {
    var (digits, base) :=
      if |p| >= 2 && p[0] == '0' && (p[1] == 'x' || p[1] == 'X') then (p[2..], 16)
      else if |p| >= 1 && p[0] == '0' then (p[1..], 8)
      else (p, 10);
    if (base != 8 && digits == []) || !AllInBase(digits, base) then None
    else if BaseValue(digits, base) > MaxIPv4Value then None
    else Some(BaseValue(digits, base))
  }

  /** The values of all parts, or None when one of them does not parse. */
  function ParseParts(parts: seq<string>): (r: Option<seq<nat>>)
    ensures r.Some? ==> |r.value| == |parts|
    ensures r.Some? ==> forall k :: 0 <= k < |parts| ==> ParsePart(parts[k]) == Some(r.value[k])
  {
    if parts == [] then Some([])
    else match (ParsePart(parts[0]), ParseParts(parts[1..]))
      case (Some(x), Some(rest)) => Some([x] + rest)
      case (None, _) => None
      case (_, None) => None
  }

  /** Parts that each parse give exactly their values. */
  lemma {:induction false} PartsParse(parts: seq<string>, v: seq<nat>)
    requires |v| == |parts|
    requires forall k :: 0 <= k < |parts| ==> ParsePart(parts[k]) == Some(v[k])
    ensures ParseParts(parts) == Some(v)
  {
    if parts != [] {
      PartsParse(parts[1..], v[1..]);
      assert [v[0]] + v[1..] == v;
    }
  }

  /** The largest value the last of `count` parts may take: the bytes the
      earlier parts leave to it. */
  function LastPartMax(count: nat): nat {
    if count == 1 then 0xFFFF_FFFF
    else if count == 2 then 0xFF_FFFF
    else if count == 3 then 0xFFFF
    else 0xFF
  }

  /** The address that one to four part values denote: each earlier part
      is one byte, the last part fills the remaining low-order bytes. */
  function Assemble(v: seq<nat>): (a: IPAddress)
    requires 1 <= |v| <= 4
    requires forall k :: 0 <= k < |v| - 1 ==> v[k] <= 0xFF
    ensures ValidAddress(a)
  {
    if |v| == 1 then IPAddress(v[0] / 0x100_0000 % 256, v[0] / 0x1_0000 % 256, v[0] / 0x100 % 256, v[0] % 256)
    else if |v| == 2 then IPAddress(v[0], v[1] / 0x1_0000 % 256, v[1] / 0x100 % 256, v[1] % 256)
    else if |v| == 3 then IPAddress(v[0], v[1], v[2] / 0x100 % 256, v[2] % 256)
    else IPAddress(v[0], v[1], v[2], v[3] % 256)
  }

  /** Every part but the last is a byte, and the last fits what the others leave. */
  predicate PartsInRange(v: seq<nat>)
    requires 1 <= |v|
  {
    (forall k :: 0 <= k < |v| - 1 ==> v[k] <= 0xFF) && v[|v| - 1] <= LastPartMax(|v|)
  }

  /** IPAddress.Parse of text without ':' (so an IPv4 address): one to four
      parts separated by '.', none empty, every part but the last at most
      255, the last within what the earlier parts leave. */
  function ParseIPAddress(s: string): (r: Result<IPAddress>)
    ensures r.Ok? ==> ValidAddress(r.value)
    ensures r.Ok? ==> 1 <= |SplitKeepEmpty(s, '.')| <= 4
  {
    var parts := SplitKeepEmpty(s, '.');
    if |parts| > 4 then Err(Format)
    else match ParseParts(parts)
      case None => Err(Format)
      case Some(v) =>
        if PartsInRange(v) then Ok(Assemble(v))
        else Err(Format)
  }

  /** Pieces between separators, empty ones kept. */
  function SplitKeepEmpty(s: string, sep: char): (r: seq<string>)
    ensures |r| > 0
    ensures forall k :: 0 <= k < |r| ==> sep !in r[k]
    decreases |s|
  {
    var i := IndexOf(s, sep);
    if i < |s| then [s[..i]] + SplitKeepEmpty(s[i + 1..], sep) else [s]
  }

  // ---------------------------------------------------------------------
  // The address operations

  function AddressToString(a: IPAddress): string {
    NatToString(Nat(a.b0)) + "." + NatToString(Nat(a.b1)) + "." + NatToString(Nat(a.b2)) + "." + NatToString(Nat(a.b3))
  }

  function Nat(x: int): nat { if x < 0 then 0 else x }

  /** ToString: the end point as "a.b.c.d:port". */
  function ToString(a: IPEndPointAddress): string {
    AddressToString(a.endPoint.address) + ":" + NatToString(Nat(a.endPoint.port))
  }

  /** Parse: split on ':' dropping empty pieces, demand exactly two, then
      parse the address and the port (their Format and Overflow errors pass
      through), and build the end point, which refuses a port outside
      0..65535 with ArgumentOutOfRange. */
  function Parse(s: string): Result<IPEndPointAddress> {
    var elements := Split(s, ':');
    if |elements| != 2 then Err(Application)
    else
      var address :- ParseIPAddress(elements[0]);
      var port :- ParseInt(elements[1]);
      if port < 0 || port > MaxPort then Err(ArgumentOutOfRange)
      else Ok(IPEndPointAddress(IPEndPoint(address, port)))
  }

  /** The address of an end point. */
  function From(endPoint: IPEndPoint): IPEndPointAddress {
    IPEndPointAddress(endPoint)
  }

  /** Equals(object): true exactly for an address of this type with an equal end point. */
  function Equals(self: IPEndPointAddress, obj: AnyObject): (r: bool)
    ensures r <==> obj.AnIPEndPointAddress? && obj.a.endPoint == self.endPoint
  {
    match obj
    case AnIPEndPointAddress(other) => self.endPoint == other.endPoint
    case _ => false
  }

  // ---------------------------------------------------------------------
  // Properties

  /** Parse refuses every string that does not split into exactly two pieces. */
  lemma ParseNeedsTwoPieces(s: string)
    ensures |Split(s, ':')| != 2 ==> Parse(s) == Err(Application)
    ensures Parse(s).Ok? ==> |Split(s, ':')| == 2
  {
  }

  lemma {:induction false} SplitSingle(s: string, sep: char)
    requires |s| > 0 && sep !in s
    ensures Split(s, sep) == [s]
    ensures SplitKeepEmpty(s, sep) == [s]
  {
    assert IndexOf(s, sep) == |s|;
    assert s[..|s|] == s;
  }

  lemma {:induction false} IndexOfJoin(a: string, sep: char, b: string)
    requires sep !in a
    ensures IndexOf(a + [sep] + b, sep) == |a|
    ensures (a + [sep] + b)[|a| + 1..] == b
    ensures (a + [sep] + b)[..|a|] == a
  {
    var s := a + [sep] + b;
    assert forall k :: 0 <= k < |a| ==> s[k] == a[k];
    assert s[|a|] == sep;
  }

  /** Two non-empty separator-free pieces joined by one separator split back into themselves. */
  lemma SplitTwo(a: string, sep: char, b: string)
    requires |a| > 0 && sep !in a && |b| > 0 && sep !in b
    ensures Split(a + [sep] + b, sep) == [a, b]
  {
    IndexOfJoin(a, sep, b);
    SplitSingle(b, sep);
  }

  /** Doubled separators do not matter: "1.2.3.4::80" splits like "1.2.3.4:80". */
  lemma SplitDropsEmptyPiece(a: string, sep: char, b: string)
    requires |a| > 0 && sep !in a && |b| > 0 && sep !in b
    ensures Split(a + [sep, sep] + b, sep) == Split(a + [sep] + b, sep) == [a, b]
  {
    SplitTwo(a, sep, b);
    var s := a + [sep, sep] + b;
    assert s == a + [sep] + ([sep] + b);
    IndexOfJoin(a, sep, [sep] + b);
    var rest := ([sep] + b);
    assert IndexOf(rest, sep) == 0;
    assert rest[1..] == b;
    SplitSingle(b, sep);
  }

  lemma {:induction false} SplitKeepEmptyJoin(a: string, sep: char, b: string)
    requires sep !in a
    ensures SplitKeepEmpty(a + [sep] + b, sep) == [a] + SplitKeepEmpty(b, sep)
  {
    IndexOfJoin(a, sep, b);
  }

  lemma DigitsHaveNoSeparator(s: string)
    requires AllDigits(s)
    ensures '.' !in s && ':' !in s
  {
  }

  /** A decimal digit string is a base-10 digit string with the same value. */
  lemma {:induction false} DecimalIsBase10(s: string)
    requires AllDigits(s)
    ensures AllInBase(s, 10) && BaseValue(s, 10) == DigitsValue(s)
    decreases |s|
  {
    if s != [] {
      DecimalIsBase10(s[..|s| - 1]);
    }
  }

  /** A decimal part without a superfluous leading zero denotes its decimal value. */
  lemma DecimalPart(s: string)
    requires Canonical(s) && DigitsValue(s) <= MaxIPv4Value
    ensures ParsePart(s) == Some(DigitsValue(s))
  {
    DecimalIsBase10(s);
    if s[0] == '0' {
      assert s == "0";
      assert s[1..] == [];
    }
  }

  /** A leading '0' (not followed by 'x' or 'X') makes the rest octal:
      the part parses exactly when the rest is octal digits within range. */
  lemma OctalPart(d: string)
    requires d == [] || (d[0] != 'x' && d[0] != 'X')
    ensures ParsePart("0" + d)
         == if AllInBase(d, 8) && BaseValue(d, 8) <= MaxIPv4Value then Some(BaseValue(d, 8)) else None
  {
    assert ("0" + d)[1..] == d;
  }

  /** A "0x" or "0X" prefix makes the rest hexadecimal: the part parses
      exactly when at least one hex digit follows and the value is in range. */
  lemma HexPart(x: char, h: string)
    requires x == 'x' || x == 'X'
    ensures ParsePart(['0', x] + h)
         == if |h| > 0 && AllInBase(h, 16) && BaseValue(h, 16) <= MaxIPv4Value then Some(BaseValue(h, 16)) else None
  {
    assert (['0', x] + h)[2..] == h;
  }

  /** Parts joined by '.'. */
  function JoinDots(parts: seq<string>): string
    requires |parts| > 0
  {
    if |parts| == 1 then parts[0] else parts[0] + "." + JoinDots(parts[1..])
  }

  /** Dot-free parts joined by '.' split back into those parts. */
  lemma {:induction false} SplitJoinDots(parts: seq<string>)
    requires |parts| > 0
    requires forall k :: 0 <= k < |parts| ==> '.' !in parts[k]
    ensures SplitKeepEmpty(JoinDots(parts), '.') == parts
  {
    if |parts| == 1 {
      var s := parts[0];
      assert IndexOf(s, '.') == |s|;
      assert s[..|s|] == s;
    } else {
      SplitJoinDots(parts[1..]);
      assert parts[0] + "." + JoinDots(parts[1..]) == parts[0] + ['.'] + JoinDots(parts[1..]);
      SplitKeepEmptyJoin(parts[0], '.', JoinDots(parts[1..]));
      assert [parts[0]] + parts[1..] == parts;
    }
  }

  /** One to four dot-free parts that parse, every part but the last a byte
      and the last within what the others leave, make the assembled address. */
  lemma ParseDotted(parts: seq<string>, v: seq<nat>)
    requires 1 <= |parts| <= 4 && |v| == |parts|
    requires forall k :: 0 <= k < |parts| ==> '.' !in parts[k]
    requires forall k :: 0 <= k < |parts| ==> ParsePart(parts[k]) == Some(v[k])
    requires forall k :: 0 <= k < |v| - 1 ==> v[k] <= 0xFF
    requires v[|v| - 1] <= LastPartMax(|v|)
    ensures ParseIPAddress(JoinDots(parts)) == Ok(Assemble(v))
  {
    SplitJoinDots(parts);
    PartsParse(parts, v);
  }

  /** The two-part form "a.n": the first byte, then `n` spread over the
      three low-order bytes ("127.1" is 127.0.0.1). */
  lemma TwoPartForm(a: nat, n: nat)
    requires a <= 0xFF && n <= 0xFF_FFFF
    ensures ParseIPAddress(NatToString(a) + "." + NatToString(n))
         == Ok(IPAddress(a, n / 0x1_0000 % 256, n / 0x100 % 256, n % 256))
  {
    NatToStringRoundTrip(a);
    NatToStringRoundTrip(n);
    DigitsHaveNoSeparator(NatToString(a));
    DigitsHaveNoSeparator(NatToString(n));
    DecimalPart(NatToString(a));
    DecimalPart(NatToString(n));
    var parts := [NatToString(a), NatToString(n)];
    assert JoinDots(parts) == NatToString(a) + "." + NatToString(n) by {
      assert parts[1..] == [NatToString(n)];
    }
    ParseDotted(parts, [a, n]);
  }

  /** A single part is the whole 32-bit address ("2130706433" is 127.0.0.1). */
  lemma OnePartForm(n: nat)
    requires n <= MaxIPv4Value
    ensures ParseIPAddress(NatToString(n))
         == Ok(IPAddress(n / 0x100_0000 % 256, n / 0x1_0000 % 256, n / 0x100 % 256, n % 256))
  {
    NatToStringRoundTrip(n);
    DigitsHaveNoSeparator(NatToString(n));
    DecimalPart(NatToString(n));
    ParseDotted([NatToString(n)], [n]);
  }

  /** The dotted quad printed by ToString parses back to the same address. */
  lemma AddressRoundTrip(a: IPAddress)
    requires ValidAddress(a)
    ensures ParseIPAddress(AddressToString(a)) == Ok(a)
    ensures ':' !in AddressToString(a) && |AddressToString(a)| > 0
  {
    var s0, s1, s2, s3 := NatToString(a.b0), NatToString(a.b1), NatToString(a.b2), NatToString(a.b3);
    var parts := [s0, s1, s2, s3];
    DecimalOctet(a.b0);
    DecimalOctet(a.b1);
    DecimalOctet(a.b2);
    DecimalOctet(a.b3);
    JoinFour(s0, s1, s2, s3);
    assert ParseIPAddress(JoinDots(parts)) == Ok(a) by {
      var v: seq<nat> := [a.b0, a.b1, a.b2, a.b3];
      assert forall k :: 0 <= k < |parts| ==> '.' !in parts[k] && ParsePart(parts[k]) == Some(v[k]);
      ParseDotted(parts, v);
      AssembleQuad(a);
    }
    QuadHasNoColon(s0, s1, s2, s3);
  }

  /** Four byte values assemble to exactly the address they name. */
  lemma AssembleQuad(a: IPAddress)
    requires ValidAddress(a)
    ensures Assemble([a.b0, a.b1, a.b2, a.b3]) == a
  {
    var v: seq<nat> := [a.b0, a.b1, a.b2, a.b3];
    assert |v| == 4 && v[3] == a.b3;
    assert a.b3 % 256 == a.b3;
  }

  lemma JoinFour(s0: string, s1: string, s2: string, s3: string)
    ensures JoinDots([s0, s1, s2, s3]) == s0 + "." + s1 + "." + s2 + "." + s3
  {
    var parts := [s0, s1, s2, s3];
    assert parts[1..] == [s1, s2, s3];
    assert parts[1..][1..] == [s2, s3];
    assert parts[1..][1..][1..] == [s3];
    assert JoinDots([s3]) == s3;
    assert JoinDots([s2, s3]) == s2 + "." + s3;
    assert JoinDots([s1, s2, s3]) == s1 + "." + (s2 + "." + s3);
    assert JoinDots(parts) == s0 + "." + (s1 + "." + (s2 + "." + s3));
    QuadRegroup(s0, s1, s2, s3);
  }

  lemma QuadRegroup(s0: string, s1: string, s2: string, s3: string)
    ensures s0 + "." + (s1 + "." + (s2 + "." + s3)) == s0 + "." + s1 + "." + s2 + "." + s3
  {
  }

  /** The decimal form of a byte is a dot- and colon-free part that parses to it. */
  lemma DecimalOctet(b: int)
    requires ValidOctet(b)
    ensures ParsePart(NatToString(b)) == Some(b)
    ensures '.' !in NatToString(b) && ':' !in NatToString(b)
  {
    NatToStringRoundTrip(b);
    DigitsHaveNoSeparator(NatToString(b));
    DecimalPart(NatToString(b));
  }

  /** Four colon-free pieces joined by '.' contain no ':'. */
  lemma QuadHasNoColon(s0: string, s1: string, s2: string, s3: string)
    requires ':' !in s0 && ':' !in s1 && ':' !in s2 && ':' !in s3
    ensures ':' !in s0 + "." + s1 + "." + s2 + "." + s3
  {
    var s := s0 + "." + s1 + "." + s2 + "." + s3;
    assert s == s0 + ['.'] + s1 + ['.'] + s2 + ['.'] + s3;
  }

  lemma {:induction false} TrimWhiteLead(w: string, t: string)
    requires AllWhite(w)
    requires t == [] || !IsWhite(t[0])
    ensures TrimWhite(w + t) == t
    decreases |w|
  {
    if w == [] {
      assert w + t == t;
    } else {
      assert (w + t)[1..] == w[1..] + t;
      TrimWhiteLead(w[1..], t);
    }
  }

  lemma {:induction false} DigitRunJoin(d: string, t: string)
    requires AllDigits(d)
    requires t == [] || !IsDigit(t[0])
    ensures DigitRun(d + t) == |d|
    decreases |d|
  {
    if d == [] {
      assert d + t == t;
    } else {
      assert (d + t)[1..] == d[1..] + t;
      DigitRunJoin(d[1..], t);
    }
  }

  /** A decimal numeral with an optional sign, surrounded by white space,
      parses to its signed value, or to Overflow outside the 32-bit range. */
  lemma ParseIntNumeral(lead: string, sign: string, digits: string, trail: string)
    requires AllWhite(lead) && AllWhite(trail)
    requires sign == "" || sign == "+" || sign == "-"
    requires |digits| > 0 && AllDigits(digits)
    ensures ParseInt(lead + sign + digits + trail) == SignedResult(sign == "-", DigitsValue(digits))
  {
    var s := lead + sign + digits + trail;
    var u := digits + trail;
    if sign == "" {
      Regroup(lead, sign, digits, trail);
      assert sign + u == u;
      TrimWhiteLead(lead, u);
    } else {
      assert sign == [sign[0]];
      Regroup(lead, sign, digits, trail);
      TrimWhiteLead(lead, [sign[0]] + u);
    }
    DigitRunJoin(digits, trail);
    assert u[..|digits|] == digits && u[|digits|..] == trail;
    TrimWhiteLead(trail, []);
    assert trail + [] == trail;
    ParseIntAfterWhite(s, sign != "", sign == "-", u, |digits|);
  }

  lemma Regroup(a: string, b: string, c: string, d: string)
    ensures a + b + c + d == a + (b + (c + d))
  {
  }

  /** ParseInt once the leading white space is gone: the sign, the digit
      run, and a tail that is only white space. */
  lemma ParseIntAfterWhite(s: string, signed: bool, negative: bool, u: string, n: nat)
    requires signed ==> TrimWhite(s) == [if negative then '-' else '+'] + u
    requires !signed ==> TrimWhite(s) == u && !negative && (u == [] || (u[0] != '-' && u[0] != '+'))
    requires 0 < n <= |u| && DigitRun(u) == n && TrimWhite(u[n..]) == []
    ensures ParseInt(s) == SignedResult(negative, DigitsValue(u[..n]))
  {
    var t := TrimWhite(s);
    if signed {
      assert t[1..] == u;
    }
  }

  /** The decimal form of a port parses back to it. */
  lemma ParseIntOfNatToString(n: nat)
    requires n <= IntMaxValue
    ensures ParseInt(NatToString(n)) == Ok(n)
  {
    NatToStringRoundTrip(n);
    ParseIntNumeral([], "", NatToString(n), []);
    assert [] + "" + NatToString(n) + [] == NatToString(n);
  }

  /** Two pieces that parse as an address and an in-range port make an end point. */
  lemma ParsePieces(s: string, ip: string, port: string, a: IPEndPointAddress)
    requires ValidEndPoint(a.endPoint)
    requires Split(s, ':') == [ip, port]
    requires ParseIPAddress(ip) == Ok(a.endPoint.address)
    requires ParseInt(port) == Ok(a.endPoint.port)
    ensures Parse(s) == Ok(a)
  {
    var elements := Split(s, ':');
    assert elements[0] == ip && elements[1] == port;
  }

  /** An address piece and a port piece joined by one ':' parse to the
      address with the port's outcome: its Format or Overflow error, or
      ArgumentOutOfRange outside 0..65535. */
  lemma ParseJoined(ip: string, port: string, address: IPAddress)
    requires |ip| > 0 && ':' !in ip && |port| > 0 && ':' !in port
    requires ParseIPAddress(ip) == Ok(address)
    ensures Parse(ip + [':'] + port)
         == match ParseInt(port)
            case Err(e) => Err(e)
            case Ok(p) => if p < 0 || p > MaxPort then Err(ArgumentOutOfRange)
                          else Ok(IPEndPointAddress(IPEndPoint(address, p)))
  {
    SplitTwo(ip, ':', port);
  }

  lemma AllWhiteHasNoColon(w: string)
    requires AllWhite(w)
    ensures ':' !in w
  {
  }

  lemma ColonFreeJoin(a: string, b: string, c: string, d: string)
    requires ':' !in a && ':' !in b && ':' !in c && ':' !in d
    ensures ':' !in a + b + c + d
  {
  }

  lemma RegroupPort(ip: string, a: string, b: string, c: string, d: string)
    ensures ip + ":" + a + b + c + d == ip + [':'] + (a + b + c + d)
  {
  }

  /** White space around the port and a '+' sign are accepted:
      "a.b.c.d: +80 " is the same end point as "a.b.c.d:80". */
  lemma PaddedPortAccepted(a: IPEndPointAddress, lead: string, sign: string, trail: string)
    requires ValidEndPoint(a.endPoint)
    requires AllWhite(lead) && AllWhite(trail)
    requires sign == "" || sign == "+"
    ensures Parse(AddressToString(a.endPoint.address) + ":" + lead + sign + NatToString(a.endPoint.port) + trail) == Ok(a)
  {
    var ip := AddressToString(a.endPoint.address);
    var digits := NatToString(a.endPoint.port);
    var port := lead + sign + digits + trail;
    AddressRoundTrip(a.endPoint.address);
    NatToStringRoundTrip(a.endPoint.port);
    ParseIntNumeral(lead, sign, digits, trail);
    DigitsHaveNoSeparator(digits);
    AllWhiteHasNoColon(lead);
    AllWhiteHasNoColon(trail);
    ColonFreeJoin(lead, sign, digits, trail);
    var s := ip + [':'] + port;
    RegroupPort(ip, lead, sign, digits, trail);
    SplitTwo(ip, ':', port);
    ParsePieces(s, ip, port, a);
  }

  /** A negative port ("a.b.c.d:-1") is refused by the end point with
      ArgumentOutOfRange; past the 32-bit range int.Parse already fails
      with Overflow. */
  lemma NegativePortRefused(address: IPAddress, n: nat)
    requires ValidAddress(address) && n > 0
    ensures Parse(AddressToString(address) + ":-" + NatToString(n))
         == if n <= -IntMinValue then Err(ArgumentOutOfRange) else Err(Overflow)
  {
    var ip := AddressToString(address);
    var digits := NatToString(n);
    var port := "-" + digits;
    assert ParseInt(port) == SignedResult(true, n) by {
      NatToStringRoundTrip(n);
      ParseIntNumeral([], "-", digits, []);
      assert [] + "-" + digits + [] == port;
    }
    assert ':' !in port by {
      DigitsHaveNoSeparator(digits);
    }
    assert ip + ":-" + digits == ip + [':'] + port;
    AddressRoundTrip(address);
    ParseJoined(ip, port, address);
  }

  /** Parse(ToString(a)) == a for every valid end point, and ToString of the
      parsed address reproduces the text: "a.b.c.d:port" survives the round trip. */
  lemma ToStringParseRoundTrip(a: IPEndPointAddress)
    requires ValidEndPoint(a.endPoint)
    ensures Parse(ToString(a)) == Ok(a)
    ensures ToString(Parse(ToString(a)).value) == ToString(a)
  {
    var ip := AddressToString(a.endPoint.address);
    var port := NatToString(a.endPoint.port);
    AddressRoundTrip(a.endPoint.address);
    NatToStringRoundTrip(a.endPoint.port);
    ParseIntOfNatToString(a.endPoint.port);
    DigitsHaveNoSeparator(port);
    var s := ToString(a);
    assert s == ip + [':'] + port;
    SplitTwo(ip, ':', port);
    ParsePieces(s, ip, port, a);
  }

  /** A doubled ':' is accepted and yields the same address as the single form. */
  lemma DoubledColonAccepted(a: IPEndPointAddress)
    requires ValidEndPoint(a.endPoint)
    ensures Parse(AddressToString(a.endPoint.address) + "::" + NatToString(a.endPoint.port)) == Ok(a)
  {
    var ip := AddressToString(a.endPoint.address);
    var port := NatToString(a.endPoint.port);
    AddressRoundTrip(a.endPoint.address);
    NatToStringRoundTrip(a.endPoint.port);
    ParseIntOfNatToString(a.endPoint.port);
    DigitsHaveNoSeparator(port);
    var s := ip + "::" + port;
    assert s == ip + [':', ':'] + port;
    SplitDropsEmptyPiece(ip, ':', port);
    ParsePieces(s, ip, port, a);
  }

  /** Equality is by end point only, symmetric between two addresses, and
      never holds against another kind of object or null. */
  lemma EqualsIsEndPointEquality(x: IPEndPointAddress, y: IPEndPointAddress)
    ensures Equals(x, AnIPEndPointAddress(y)) <==> x == y
    ensures Equals(x, AnIPEndPointAddress(y)) == Equals(y, AnIPEndPointAddress(x))
    ensures !Equals(x, OtherObject) && !Equals(x, Null)
  {
  }
}
