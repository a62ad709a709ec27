/**
  The text form of network addresses: numbers in base 10 and 16, the fields of an IPv6 address with
  its longest run of zeros compressed, and the grammar by which such texts are read.
 */
module NetAddrText {
  import opened Machine

  // ---------------------------------------------------------------------------------------------
  // Numbers
  // ---------------------------------------------------------------------------------------------

  type base = b: nat | b == 10 || b == 16 witness 10

  const DIGITS := "0123456789abcdef"

  /** `%d` of a non-negative number in base 10, `%x` in base 16. */
  function NumberText(n: nat, b: base): (t: string)
    ensures t != ""
  {
    if n < b then [DIGITS[n]] else NumberText(n / b, b) + [DIGITS[n % b]]
  }

  function DigitValue(c: char): int {
    if '0' <= c <= '9' then c as int - '0' as int
    else if 'a' <= c <= 'f' then c as int - 'a' as int + 10
    else if 'A' <= c <= 'F' then c as int - 'A' as int + 10
    else -1
  }

  predicate IsDigit(c: char, b: base) {
    0 <= DigitValue(c) < b
  }

  predicate AreDigits(t: string, b: base) {
    forall k :: 0 <= k < |t| ==> IsDigit(t[k], b)
  }

  function NumberValue(t: string, b: base): (n: nat)
    requires AreDigits(t, b)
  {
    if t == "" then 0 else NumberValue(t[..|t| - 1], b) * b + DigitValue(t[|t| - 1])
  }

  lemma DigitsHaveValues(d: nat, b: base)
    requires d < b
    ensures IsDigit(DIGITS[d], b) && DigitValue(DIGITS[d]) == d && DIGITS[d] != ':'
  {
  }

  lemma Quotient(n: nat, b: base)
    ensures n / b * b + n % b == n && (n >= b ==> n / b < n)
  {
  }

  /** Reading a number's text gives the number. */
  lemma {:induction false} NumberRoundTrip(n: nat, b: base)
    ensures AreDigits(NumberText(n, b), b) && NumberValue(NumberText(n, b), b) == n
    decreases n
  {
    Quotient(n, b);
    if n < b {
      DigitsHaveValues(n, b);
      assert NumberText(n, b)[..0] == "";
    } else {
      DigitsHaveValues(n % b, b);
      NumberRoundTrip(n / b, b);
      assert NumberText(n, b)[..|NumberText(n, b)| - 1] == NumberText(n / b, b);
    }
  }

  function Power(b: base, k: nat): nat {
    if k == 0 then 1 else b * Power(b, k - 1)
  }

  lemma {:induction false} NumberLength(n: nat, b: base, k: nat)
    requires 0 < k && n < Power(b, k)
    ensures |NumberText(n, b)| <= k
    decreases k
  {
    if n >= b {
      assert k > 1 by {
        assert Power(b, 1) == b * Power(b, 0) == b;
      }
      NumberLength(n / b, b, k - 1);
    }
  }

  lemma NumberLengths(n: nat)
    ensures n < 0x1_0000 ==> |NumberText(n, 16)| <= 4 && |NumberText(n, 10)| <= 5
    ensures n < 256 ==> |NumberText(n, 10)| <= 3
  {
    assert Power(16, 4) == 16 * Power(16, 3) && Power(16, 3) == 16 * Power(16, 2) == 4096;
    assert Power(10, 5) == 10 * Power(10, 4) && Power(10, 4) == 10 * Power(10, 3) && Power(10, 3) == 10 * Power(10, 2) == 1000;
    if n < 0x1_0000 {
      NumberLength(n, 16, 4);
      NumberLength(n, 10, 5);
    }
    if n < 256 {
      NumberLength(n, 10, 3);
    }
  }

  // ---------------------------------------------------------------------------------------------
  // Fields separated by colons
  // ---------------------------------------------------------------------------------------------

  /** The fields of an IPv6 address. */
  type field = x: int | 0 <= x < 0x1_0000

  function FieldOf(high: byte, low: byte): field {
    high as int * 256 + low as int
  }

  function Joined(fields: seq<field>): string {
    if fields == [] then ""
    else if |fields| == 1 then NumberText(fields[0], 16)
    else NumberText(fields[0], 16) + ":" + Joined(fields[1..])
  }

  function Zeros(n: nat): seq<field> {
    seq(n, _ => 0)
  }

  /** An IPv6 address with the fields from `start` on, `len` of them, written as "::". */
  function Compressed(ip: seq<field>, start: int, len: nat): string
    requires len > 0 ==> 0 <= start && start + len <= |ip|
  {
    if len == 0 then Joined(ip) else Joined(ip[..start]) + "::" + Joined(ip[start + len..])
  }

  // The grammar of section 2.2 of RFC 4291.

  /** The length of the text before the first `c`. */
  function FirstOf(t: string, c: char): (n: nat)
    ensures n <= |t| && (n < |t| ==> t[n] == c)
  {
    if t == "" || t[0] == c then 0 else 1 + FirstOf(t[1..], c)
  }

  /** A field: one to four hexadecimal digits. */
  function ParsedField(t: string): Option<field> {
    if 1 <= |t| <= 4 && AreDigits(t, 16) then
      FieldInRange(t);
      Some(NumberValue(t, 16))
    else None
  }

  lemma FieldInRange(t: string)
    requires |t| <= 4 && AreDigits(t, 16)
    ensures NumberValue(t, 16) < 0x1_0000
  {
    assert Power(16, 1) == 16 * Power(16, 0) == 16 && Power(16, 2) == 16 * Power(16, 1) == 256;
    assert Power(16, 3) == 16 * Power(16, 2) == 4096 && Power(16, 4) == 16 * Power(16, 3);
    ValueBound(t, 16);
  }

  lemma {:induction false} ValueBound(t: string, b: base)
    requires AreDigits(t, b)
    ensures NumberValue(t, b) < Power(b, |t|)
  {
    if t != "" {
      ValueBound(t[..|t| - 1], b);
    }
  }

  /** A decimal number below 256 without leading zeros. */
  function ParsedOctet(t: string): Option<byte> {
    if 1 <= |t| <= 3 && AreDigits(t, 10) && (|t| == 1 || t[0] != '0') && NumberValue(t, 10) < 256 then
      Some(NumberValue(t, 10))
    else None
  }

  function ParsedOctets(t: string): Option<seq<byte>> {
    var n := FirstOf(t, '.');
    var first := ParsedOctet(t[..n]);
    if first.None? then None
    else if n == |t| then Some([first.value])
    else
      var rest := ParsedOctets(t[n + 1..]);
      if rest.None? then None else Some([first.value] + rest.value)
  }

  /** An IPv4 address in decimal, which may stand for the last two fields. */
  function ParsedDotted(t: string): Option<seq<field>> {
    var octets := ParsedOctets(t);
    if octets.Some? && |octets.value| == 4 then
      var o := octets.value;
      Some([FieldOf(o[0], o[1]), FieldOf(o[2], o[3])])
    else None
  }

  /** Fields separated by colons; `last` says that they are the last ones of the address. */
  function ParsedFields(t: string, last: bool): Option<seq<field>>
    decreases |t|
  {
    var n := FirstOf(t, ':');
    var first := ParsedField(t[..n]);
    if n == |t| then
      if first.Some? then Some([first.value]) else if last then ParsedDotted(t) else None
    else if first.None? then None
    else
      var rest := ParsedFields(t[n + 1..], last);
      if rest.None? then None else Some([first.value] + rest.value)
  }

  /** The position of the first "::", or the length of the text. */
  function DoubleColon(t: string): (n: nat)
    ensures n <= |t| && (n < |t| ==> n + 2 <= |t| && t[n] == ':' && t[n + 1] == ':')
  {
    if |t| < 2 then |t|
    else if t[0] == ':' && t[1] == ':' then 0
    else 1 + DoubleColon(t[1..])
  }

  function ParsedPart(t: string, last: bool): Option<seq<field>> {
    if t == "" then Some([]) else ParsedFields(t, last)
  }

  /** An IPv6 address: eight fields, or fewer with one "::" that stands for one or more zeros. */
  function ParsedIpv6(t: string): (r: Option<seq<field>>)
    ensures r.Some? ==> |r.value| == 8
  {
    var n := DoubleColon(t);
    if n == |t| then
      var fields := ParsedFields(t, true);
      if fields.Some? && |fields.value| == 8 then fields else None
    else
      var left, right := ParsedPart(t[..n], false), ParsedPart(t[n + 2..], true);
      if left.Some? && right.Some? && |left.value| + |right.value| <= 7 then
        Some(left.value + Zeros(8 - |left.value| - |right.value|) + right.value)
      else None
  }

  // ---------------------------------------------------------------------------------------------
  // The round trip of IPv6 addresses
  // ---------------------------------------------------------------------------------------------

  predicate HasNo(t: string, c: char) {
    forall k :: 0 <= k < |t| ==> t[k] != c
  }

  lemma FieldText(x: field)
    ensures var t := NumberText(x, 16); 1 <= |t| <= 4 && HasNo(t, ':') && ParsedField(t) == Some(x)
  {
    NumberRoundTrip(x, 16);
    NumberLengths(x);
  }

  lemma {:induction false} FirstOfAfter(t: string, rest: string, c: char)
    requires HasNo(t, c) && (rest == "" || rest[0] == c)
    ensures FirstOf(t + rest, c) == |t|
  {
    if t == "" {
      assert t + rest == rest;
    } else {
      assert (t + rest)[1..] == t[1..] + rest;
      FirstOfAfter(t[1..], rest, c);
    }
  }

  lemma {:induction false} JoinedParses(fields: seq<field>, last: bool)
    requires fields != []
    ensures ParsedFields(Joined(fields), last) == Some(fields)
  {
    hide ParsedField, ParsedDotted, NumberText;
    var t := NumberText(fields[0], 16);
    FieldText(fields[0]);
    if |fields| == 1 {
      FirstOfAfter(t, "", ':');
      assert t + "" == t && t[..|t|] == t;
      assert fields == [fields[0]];
    } else {
      var rest := ":" + Joined(fields[1..]);
      FirstOfAfter(t, rest, ':');
      JoinedParses(fields[1..], last);
      assert Joined(fields) == t + rest;
      assert (t + rest)[..|t|] == t && (t + rest)[|t| + 1..] == Joined(fields[1..]);
      assert fields == [fields[0]] + fields[1..];
    }
  }

  lemma {:induction false} DoubleColonAfter(t: string, rest: string)
    requires HasNo(t, ':')
    ensures DoubleColon(t + rest) == |t| + DoubleColon(rest)
  {
    if t == "" {
      assert t + rest == rest;
    } else {
      assert (t + rest)[1..] == t[1..] + rest;
      DoubleColonAfter(t[1..], rest);
    }
  }

  lemma SingleColon(rest: string)
    requires rest != "" && rest[0] != ':'
    ensures DoubleColon(":" + rest) == 1 + DoubleColon(rest)
  {
    assert (":" + rest)[1..] == rest;
  }

  lemma JoinedUnfold(fields: seq<field>)
    ensures fields == [] ==> Joined(fields) == ""
    ensures |fields| == 1 ==> Joined(fields) == NumberText(fields[0], 16)
    ensures |fields| > 1 ==> Joined(fields) == NumberText(fields[0], 16) + (":" + Joined(fields[1..]))
  {
    hide NumberText;
  }

  lemma DoubleColonStart(rest: string)
    requires rest == "" || (2 <= |rest| && rest[..2] == "::")
    ensures DoubleColon(rest) == 0
  {
    if rest != "" {
      assert rest[0] == rest[..2][0] && rest[1] == rest[..2][1];
    }
  }

  /** Joined fields contain no "::" of their own. */
  lemma {:induction false} DoubleColonAfterJoined(fields: seq<field>, rest: string)
    requires rest == "" || (2 <= |rest| && rest[..2] == "::")
    ensures DoubleColon(Joined(fields) + rest) == |Joined(fields)|
    ensures fields != [] ==> Joined(fields) != "" && Joined(fields)[0] != ':'
  {
    hide NumberText, Joined, DoubleColon, ParsedField;
    JoinedUnfold(fields);
    DoubleColonStart(rest);
    if fields == [] {
      assert Joined(fields) + rest == rest;
    } else {
      var t := NumberText(fields[0], 16);
      FieldText(fields[0]);
      if |fields| == 1 {
        DoubleColonAfter(t, rest);
      } else {
        DoubleColonAfterJoined(fields[1..], rest);
        var more := Joined(fields[1..]) + rest;
        SingleColon(more);
        DoubleColonAfter(t, ":" + more);
        assert Joined(fields) + rest == t + (":" + more);
      }
    }
  }

  lemma PartParses(fields: seq<field>, last: bool)
    ensures ParsedPart(Joined(fields), last) == Some(fields)
  {
    if fields != [] {
      JoinedParses(fields, last);
      DoubleColonAfterJoined(fields, "");
    }
  }

  /** Whichever zeros are compressed, reading the text of an IPv6 address gives the address. */
  lemma Ipv6RoundTrip(ip: seq<field>, start: int, len: nat)
    requires |ip| == 8
    requires len > 0 ==> 0 <= start && start + len <= 8 && forall k :: start <= k < start + len ==> ip[k] == 0
    ensures ParsedIpv6(Compressed(ip, start, len)) == Some(ip)
  {
    hide Joined, ParsedFields, DoubleColon, ParsedPart;
    if len == 0 {
      JoinedParses(ip, true);
      DoubleColonAfterJoined(ip, "");
      assert Joined(ip) + "" == Joined(ip);
    } else {
      var left, right := ip[..start], ip[start + len..];
      var rest := "::" + Joined(right);
      DoubleColonAfterJoined(left, rest);
      var t := Joined(left) + rest;
      assert Compressed(ip, start, len) == t;
      assert t[..|Joined(left)|] == Joined(left) && t[|Joined(left)| + 2..] == Joined(right);
      PartParses(left, false);
      PartParses(right, true);
      assert ip == left + Zeros(8 - |left| - |right|) + right;
    }
  }
}
