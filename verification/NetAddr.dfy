/**
  Printing and parsing of network addresses: the scan for the longest run of zeros, the bounded
  printing into a caller's buffer, and the parser that advances a pointer through a C string.
 */
module NetAddr {
  import opened Machine
  import opened NetAddrText

  /** The bits of `NETADDR::type`. */
  datatype NetType = Ipv4 | Ipv6 | WebsocketIpv4 | WebsocketIpv6 | LinkBroadcast | Tw7

  datatype NetAddr = NetAddr(types: set<NetType>, ip: seq<byte>, port: nat)

  /** `NETADDR_MAXSTRSIZE`. */
  const MAX_STR_SIZE: nat := 1 + (8 * 4 + 7) + 1 + 1 + 5 + 1

  predicate Valid(a: NetAddr) {
    |a.ip| == 16 && a.port < 0x1_0000
  }

  predicate PrintsAsIpv4(a: NetAddr) {
    Ipv4 in a.types || WebsocketIpv4 in a.types
  }

  /** The types `net_addr_str` asserts. */
  predicate Known(a: NetAddr) {
    PrintsAsIpv4(a) || Ipv6 in a.types || WebsocketIpv6 in a.types
  }

  // ---------------------------------------------------------------------------------------------
  // The longest run of zeros
  // ---------------------------------------------------------------------------------------------

  predicate IsRun(ip: seq<field>, start: int, len: int) {
    0 <= start && 0 <= len && start + len <= |ip| && forall k :: start <= k < start + len ==> ip[k] == 0
  }

  /** The run that sections 4.2.2 and 4.2.3 of RFC 5952 ask for: the first of the longest, if it has two fields. */
  ghost predicate LongestRun(ip: seq<field>, start: int, len: nat) {
    if len == 0 then start == -1 && forall s :: !IsRun(ip, s, 2)
    else len >= 2 && IsRun(ip, start, len) && forall s, l :: IsRun(ip, s, l) ==> l < len || (l == len && start <= s)
  }

  function ZerosFrom(ip: seq<field>, i: nat): (n: nat)
    requires i <= |ip|
    ensures IsRun(ip, i, n) && (i + n < |ip| ==> ip[i + n] != 0)
    decreases |ip| - i
  {
    if i == |ip| || ip[i] != 0 then 0 else 1 + ZerosFrom(ip, i + 1)
  }

  function LongestFrom(ip: seq<field>, i: nat): (run: (int, nat))
    requires i <= |ip|
    ensures if run.1 == 0 then run.0 == -1 else i <= run.0 && IsRun(ip, run.0, run.1)
    ensures forall s, l :: i <= s && 0 < l && IsRun(ip, s, l) ==> l < run.1 || (l == run.1 && run.0 <= s)
    decreases |ip| - i
  {
    if i == |ip| then (-1, 0)
    else
      var later, n := LongestFrom(ip, i + 1), ZerosFrom(ip, i);
      if n > 0 && n >= later.1 then (i, n) else later
  }

  /** Where "::" goes, and for how many fields; (-1, 0) if nowhere. */
  function ZeroRun(ip: seq<field>): (run: (int, nat))
    ensures run.1 > 0 ==> IsRun(ip, run.0, run.1)
  {
    var run := LongestFrom(ip, 0);
    if run.1 <= 1 then (-1, 0) else run
  }

  lemma ZeroRunIsLongest(ip: seq<field>)
    ensures LongestRun(ip, ZeroRun(ip).0, ZeroRun(ip).1)
  {
    hide LongestFrom;
    assert LongestFrom(ip, 0).1 <= 1 ==> forall s :: !IsRun(ip, s, 2);
  }

  lemma LongestRunIsUnique(ip: seq<field>, start: int, len: nat, start': int, len': nat)
    requires LongestRun(ip, start, len) && LongestRun(ip, start', len')
    ensures start == start' && len == len'
  {
    if len > 0 {
      assert IsRun(ip, start, len) && IsRun(ip, start, 2);
    }
    if len' > 0 {
      assert IsRun(ip, start', len') && IsRun(ip, start', 2);
    }
  }

  /** The longest run among those that end by `limit`. */
  ghost predicate BestUntil(ip: seq<field>, limit: int, start: int, len: nat) {
    && (if len == 0 then start == -1 else IsRun(ip, start, len) && start + len <= limit)
    && forall s, l :: 0 < l && s + l <= limit && IsRun(ip, s, l) ==> l < len || (l == len && start <= s)
  }

  lemma RunCloses(ip: seq<field>, i: int, start: int, len: nat, seqStart: int, seqLen: nat)
    requires BestUntil(ip, seqStart, start, len)
    requires seqLen > 0 && IsRun(ip, seqStart, seqLen) && seqStart + seqLen == i
    requires seqStart == 0 || ip[seqStart - 1] != 0
    ensures if len < seqLen then BestUntil(ip, i, seqStart, seqLen) else BestUntil(ip, i, start, len)
  {
    forall s, l | 0 < l && s + l <= i && IsRun(ip, s, l)
      ensures s + l <= seqStart || (seqStart <= s && l <= seqLen && (l == seqLen ==> s == seqStart))
    {
    }
  }

  lemma NonzeroField(ip: seq<field>, i: int, start: int, len: nat)
    requires BestUntil(ip, i, start, len) && 0 <= i < |ip| && ip[i] != 0
    ensures BestUntil(ip, i + 1, start, len)
  {
    forall s, l | 0 < l && s + l <= i + 1 && IsRun(ip, s, l)
      ensures s + l <= i
    {
    }
  }

  /** `net_addr_str_v6`, the scan: `start` is -1 and `len` 0 when no two neighbouring fields are zero. */
  method LongestZeroRun(ip: seq<field>) returns (start: int, len: nat)
    requires |ip| == 8
    ensures LongestRun(ip, start, len)
  {
    start, len := -1, 0;
    var seqStart, seqLen: nat := -1, 0;
    for i := 0 to 8 + 1
      invariant if seqStart == -1 then BestUntil(ip, if i < 8 then i else 8, start, len)
                else i <= 8 && seqLen > 0 && IsRun(ip, seqStart, seqLen) && seqStart + seqLen == i && BestUntil(ip, seqStart, start, len)
      invariant seqStart > 0 ==> ip[seqStart - 1] != 0
      invariant seqStart == -1 && 0 < i <= 8 ==> ip[i - 1] != 0
      invariant i == 9 ==> seqStart == -1
    {
      if seqStart != -1 {
        if i == 8 || ip[i] != 0 {
          RunCloses(ip, i, start, len, seqStart, seqLen);
          if len < seqLen {
            start, len := seqStart, seqLen;
          }
          seqStart, seqLen := -1, 0;
          if i < 8 {
            NonzeroField(ip, i, start, len);
          }
        } else {
          seqLen := seqLen + 1;
        }
      } else {
        if i != 8 && ip[i] == 0 {
          seqStart, seqLen := i, 1;
        } else if i != 8 {
          NonzeroField(ip, i, start, len);
        }
      }
    }
    if len <= 1 {
      assert forall s :: IsRun(ip, s, 2) ==> 2 <= len;
      start, len := -1, 0;
    }
  }

  // ---------------------------------------------------------------------------------------------
  // Texts
  // ---------------------------------------------------------------------------------------------

  /** A negative port is not printed. */
  function PortText(port: int): string {
    if port >= 0 then ":" + NumberText(port, 10) else ""
  }

  function Ipv6Text(ip: seq<field>, port: int): string {
    "[" + Compressed(ip, ZeroRun(ip).0, ZeroRun(ip).1) + "]" + PortText(port)
  }

  function DottedText(ip: seq<byte>): string {
    if ip == [] then ""
    else if |ip| == 1 then NumberText(ip[0], 10)
    else NumberText(ip[0], 10) + "." + DottedText(ip[1..])
  }

  /** The fields of sixteen bytes in network order. */
  function FieldsOf(ip: seq<byte>): seq<field>
    requires |ip| == 16
  {
    seq(8, i requires 0 <= i < 8 => FieldOf(ip[2 * i], ip[2 * i + 1]))
  }

  function BytesOf(fields: seq<field>): (ip: seq<byte>)
    requires |fields| == 8
    ensures |ip| == 16
  {
    seq(16, i requires 0 <= i < 16 => if i % 2 == 0 then fields[i / 2] / 256 else fields[i / 2] % 256)
  }

  lemma FieldSplits(high: byte, low: byte)
    ensures FieldOf(high, low) / 256 == high && FieldOf(high, low) % 256 == low
  {
  }

  lemma FieldAt(ip: seq<byte>, j: nat)
    requires |ip| == 16 && j < 8
    ensures |FieldsOf(ip)| == 8 && FieldsOf(ip)[j] == FieldOf(ip[2 * j], ip[2 * j + 1])
    ensures FieldsOf(ip)[..j + 1] == FieldsOf(ip)[..j] + [FieldOf(ip[2 * j], ip[2 * j + 1])]
  {
  }

  lemma BytesAt(fields: seq<field>, j: nat)
    requires |fields| == 8 && j < 8
    ensures BytesOf(fields)[2 * j] == fields[j] / 256 && BytesOf(fields)[2 * j + 1] == fields[j] % 256
  {
  }

  lemma BytesOfFields(ip: seq<byte>)
    requires |ip| == 16
    ensures |FieldsOf(ip)| == 8 && BytesOf(FieldsOf(ip)) == ip
  {
    hide FieldsOf, BytesOf, FieldOf;
    FieldAt(ip, 0);
    forall i | 0 <= i < 16
      ensures BytesOf(FieldsOf(ip))[i] == ip[i]
    {
      var j := i / 2;
      FieldAt(ip, j);
      BytesAt(FieldsOf(ip), j);
      FieldSplits(ip[2 * j], ip[2 * j + 1]);
      assert i == 2 * j || i == 2 * j + 1;
    }
  }

  function ShownPort(a: NetAddr, addPort: bool): int {
    if addPort then a.port else -1
  }

  /** The whole text of an address. */
  function AddrText(a: NetAddr, addPort: bool): string
    requires Valid(a)
  {
    if PrintsAsIpv4(a) then DottedText(a.ip[..4]) + PortText(ShownPort(a, addPort))
    else Ipv6Text(FieldsOf(a.ip), ShownPort(a, addPort))
  }

  lemma {:induction false} JoinedLength(fields: seq<field>)
    ensures |Joined(fields)| + 1 <= 5 * |fields| || fields == []
    ensures forall k :: 0 <= k < |Joined(fields)| ==> IsDigit(Joined(fields)[k], 16) || Joined(fields)[k] == ':'
    ensures fields == [] ==> Joined(fields) == ""
  {
    hide Joined, IsDigit, NumberText;
    JoinedUnfold(fields);
    if fields != [] {
      FieldText(fields[0]);
      NumberRoundTrip(fields[0], 16);
      if |fields| > 1 {
        JoinedLength(fields[1..]);
      }
    }
  }

  lemma CompressedLength(ip: seq<field>, start: int, len: nat)
    requires |ip| == 8 && len != 1 && (len > 0 ==> IsRun(ip, start, len))
    ensures |Compressed(ip, start, len)| <= 39
    ensures HasNo(Compressed(ip, start, len), ']')
  {
    hide Joined, IsRun;
    if len == 0 {
      JoinedLength(ip);
    } else {
      assert 0 <= start && start + len <= 8 by {
        RunBounds(ip, start, len);
      }
      JoinedLength(ip[..start]);
      JoinedLength(ip[start + len..]);
    }
  }

  lemma RunBounds(ip: seq<field>, start: int, len: int)
    requires IsRun(ip, start, len)
    ensures 0 <= start && start + len <= |ip|
  {
  }

  /** Every address, with or without its port, fits the size the callers reserve. */
  lemma TextFits(a: NetAddr, addPort: bool)
    requires Valid(a)
    ensures |AddrText(a, addPort)| < MAX_STR_SIZE
  {
    hide Compressed, Joined, NumberText, FieldsOf, ZeroRun, LongestRun;
    NumberLengths(a.port);
    if PrintsAsIpv4(a) {
      NumberLengths(a.ip[0]);
      NumberLengths(a.ip[1]);
      NumberLengths(a.ip[2]);
      NumberLengths(a.ip[3]);
      DottedOfFour(a.ip);
    } else {
      var ip := FieldsOf(a.ip);
      BytesOfFields(a.ip);
      RunOfTwo(ip);
      CompressedLength(ip, ZeroRun(ip).0, ZeroRun(ip).1);
    }
  }

  lemma RunOfTwo(ip: seq<field>)
    ensures ZeroRun(ip).1 != 1
  {
  }

  // ---------------------------------------------------------------------------------------------
  // Printing into a buffer
  // ---------------------------------------------------------------------------------------------

  /** What of a text fits a buffer of `size` characters with its terminator. */
  function Truncated(text: string, size: nat): (t: string)
    requires size > 0
    ensures |t| < size && t <= text && (|text| < size ==> t == text)
  {
    if |text| < size then text else text[..size - 1]
  }

  /** The buffer starts with what fits of `text`, which is `w` characters. */
  predicate Holds(buffer: array<char>, w: nat, text: string)
    requires buffer.Length > 0
    reads buffer
  {
    w < buffer.Length && buffer[..w] == Truncated(text, buffer.Length)
  }

  /** The same, with the terminator after it. */
  predicate Printed(buffer: array<char>, w: nat, text: string)
    requires buffer.Length > 0
    reads buffer
  {
    w < buffer.Length && Holds(buffer, w, text) && buffer[w] == '\0'
  }

  /** `str_copy` or `str_format` of ASCII at `buffer + w`, which returns the number of characters written. */
  method Put(buffer: array<char>, w: nat, text: string, ghost before: string) returns (n: nat)
    requires buffer.Length > 0 && Holds(buffer, w, before)
    modifies buffer
    ensures Printed(buffer, w + n, before + text)
  {
    n := if |text| < buffer.Length - w then |text| else buffer.Length - w - 1;
    forall k | 0 <= k < n {
      buffer[w + k] := text[k];
    }
    buffer[w + n] := '\0';
    assert buffer[..w] == old(buffer[..w]);
    assert buffer[..w + n] == buffer[..w] + text[..n];
    if |before| >= buffer.Length {
      assert Truncated(before + text, buffer.Length) == Truncated(before, buffer.Length);
    }
  }

  /** The text of the first `i` fields as the loop prints them. */
  function FirstFields(ip: seq<field>, start: int, len: nat, i: nat): string
    requires i <= |ip| && (len > 0 ==> 0 <= start && start + len <= |ip|)
  {
    if len == 0 || i <= start then Joined(ip[..i])
    else if i <= start + len then Joined(ip[..start]) + "::"
    else Joined(ip[..start]) + "::" + Joined(ip[start + len..i])
  }

  lemma {:induction false} JoinedSnoc(fields: seq<field>, x: field)
    ensures Joined(fields + [x]) == if fields == [] then NumberText(x, 16) else Joined(fields) + ":" + NumberText(x, 16)
  {
    hide NumberText, Joined;
    JoinedUnfold(fields);
    JoinedUnfold(fields + [x]);
    if fields == [] {
      assert fields + [x] == [x];
    } else {
      assert (fields + [x])[1..] == fields[1..] + [x];
      JoinedSnoc(fields[1..], x);
      if |fields| == 1 {
        assert fields[1..] == [];
      }
    }
  }

  lemma FieldPrinted(ip: seq<field>, start: int, len: nat, i: nat)
    requires i < |ip| && (if len == 0 then start == -1 else 0 <= start && start + len <= |ip|)
    ensures start <= i < start + len && i == start ==> FirstFields(ip, start, len, i + 1) == FirstFields(ip, start, len, i) + "::"
    ensures start <= i < start + len && i != start ==> FirstFields(ip, start, len, i + 1) == FirstFields(ip, start, len, i)
    ensures !(start <= i < start + len) ==>
      var colon := if i == 0 || i == start + len then "" else ":";
      FirstFields(ip, start, len, i + 1) == FirstFields(ip, start, len, i) + (colon + NumberText(ip[i], 16))
  {
    hide NumberText, Joined;
    if len == 0 || i < start {
      JoinedMore(ip, 0, i);
      assert ip[0..i + 1] == ip[..i + 1] && ip[0..i] == ip[..i];
    } else if start + len <= i {
      JoinedMore(ip, start + len, i);
      AfterGap(Joined(ip[..start]) + "::", Joined(ip[start + len..i]), if i == start + len then "" else ":", NumberText(ip[i], 16));
      if i == start + len {
        assert ip[start + len..i] == [];
        JoinedUnfold([]);
      }
    }
  }

  lemma AfterGap(before: string, fields: string, colon: string, number: string)
    ensures before + (fields + (colon + number)) == before + fields + (colon + number)
    ensures before + "" == before
  {
  }

  lemma JoinedMore(ip: seq<field>, lo: nat, i: nat)
    requires lo <= i < |ip|
    ensures Joined(ip[lo..i + 1]) == Joined(ip[lo..i]) + ((if i == lo then "" else ":") + NumberText(ip[i], 16))
  {
    hide NumberText, Joined;
    JoinedSnoc(ip[lo..i], ip[i]);
    assert ip[lo..i + 1] == ip[lo..i] + [ip[i]];
    JoinedUnfold(ip[lo..i]);
  }

  /** `net_addr_str_v6`: prints what fits of the canonical text. */
  method StrV6(ip: seq<field>, port: int, buffer: array<char>) returns (ghost end: nat)
    requires |ip| == 8 && buffer.Length > 0
    modifies buffer
    ensures Printed(buffer, end, Ipv6Text(ip, port))
  {
    hide NumberText, Joined, LongestRun, ZeroRun, Truncated, FirstFields, IsRun, Holds, Compressed;
    var start, len := LongestZeroRun(ip);
    RunMatches(ip, start, len);
    EmptyFits(buffer);
    var w := Put(buffer, 0, "[", "");
    ghost var text := "" + "[";
    FirstFieldsEnds(ip, start, len);
    for i := 0 to 8
      invariant text == "[" + FirstFields(ip, start, len, i)
      invariant Printed(buffer, w, text)
    {
      FieldPrinted(ip, start, len, i);
      if start <= i < start + len {
        if i == start {
          var n := Put(buffer, w, "::", text);
          w := w + n;
          text := text + "::";
        }
      } else {
        var colon := if i == 0 || i == start + len then "" else ":";
        var n := Put(buffer, w, colon + NumberText(ip[i], 16), text);
        w := w + n;
        text := text + (colon + NumberText(ip[i], 16));
      }
    }
    var n := Put(buffer, w, "]", text);
    w := w + n;
    end := w;
    text := text + "]";
    assert text == "[" + Compressed(ip, start, len) + "]";
    if port >= 0 {
      n := Put(buffer, w, ":" + NumberText(port, 10), text);
      end := w + n;
      text := text + (":" + NumberText(port, 10));
    }
    assert text == Ipv6Text(ip, port);
  }

  lemma RunMatches(ip: seq<field>, start: int, len: nat)
    requires LongestRun(ip, start, len)
    ensures start == ZeroRun(ip).0 && len == ZeroRun(ip).1
    ensures if len == 0 then start == -1 else 0 <= start && start + len <= |ip|
  {
    ZeroRunIsLongest(ip);
    LongestRunIsUnique(ip, start, len, ZeroRun(ip).0, ZeroRun(ip).1);
  }

  lemma EmptyFits(buffer: array<char>)
    requires buffer.Length > 0
    ensures Holds(buffer, 0, "")
  {
    assert buffer[..0] == [];
  }

  lemma FirstFieldsEnds(ip: seq<field>, start: int, len: nat)
    requires len > 0 ==> 0 <= start && start + len <= |ip|
    ensures FirstFields(ip, start, len, 0) == ""
    ensures FirstFields(ip, start, len, |ip|) == Compressed(ip, start, len)
  {
    assert ip[..|ip|] == ip && ip[..0] == [];
    if len > 0 && start + len == |ip| {
      assert ip[start + len..] == [];
    }
  }

  /** `net_addr_str`. */
  method Str(a: NetAddr, buffer: array<char>, addPort: bool) returns (ghost end: nat)
    requires Valid(a) && Known(a) && buffer.Length > 0
    modifies buffer
    ensures Printed(buffer, end, AddrText(a, addPort))
    ensures buffer.Length >= MAX_STR_SIZE ==> end == |AddrText(a, addPort)| && buffer[..end] == AddrText(a, addPort)
  {
    hide NumberText, DottedText, Ipv6Text, FieldsOf, FieldOf, Holds;
    if PrintsAsIpv4(a) {
      DottedOfFour(a.ip);
      var text := NumberText(a.ip[0], 10) + "." + NumberText(a.ip[1], 10) + "."
        + NumberText(a.ip[2], 10) + "." + NumberText(a.ip[3], 10);
      if addPort {
        text := text + (":" + NumberText(a.port, 10));
      }
      EmptyFits(buffer);
      end := Put(buffer, 0, text, "");
      assert "" + text == text == AddrText(a, addPort);
    } else {
      var ip: seq<field> := [];
      FieldAt(a.ip, 0);
      for i := 0 to 8
        invariant ip == FieldsOf(a.ip)[..i]
      {
        FieldAt(a.ip, i);
        ip := ip + [FieldOf(a.ip[i * 2], a.ip[i * 2 + 1])];
      }
      assert ip == FieldsOf(a.ip);
      end := StrV6(ip, if addPort then a.port else -1, buffer);
    }
    TextFits(a, addPort);
    WholeText(buffer, end, AddrText(a, addPort));
  }

  lemma WholeText(buffer: array<char>, end: nat, text: string)
    requires buffer.Length > 0 && Holds(buffer, end, text)
    ensures |text| < buffer.Length ==> end == |text| && buffer[..end] == text
  {
    assert |buffer[..end]| == end;
  }

  lemma DottedOfFour(ip: seq<byte>)
    requires |ip| >= 4
    ensures DottedText(ip[..4]) == NumberText(ip[0], 10) + "." + NumberText(ip[1], 10) + "."
      + NumberText(ip[2], 10) + "." + NumberText(ip[3], 10)
  {
    hide NumberText;
    var four := ip[..4];
    assert DottedText(four[3..]) == NumberText(four[3], 10);
    assert four[2..][1..] == four[3..] && four[1..][1..] == four[2..];
    assert DottedText(four[2..]) == NumberText(four[2], 10) + "." + DottedText(four[3..]);
    assert DottedText(four[1..]) == NumberText(four[1], 10) + "." + DottedText(four[2..]);
  }

  // ---------------------------------------------------------------------------------------------
  // Parsing
  // ---------------------------------------------------------------------------------------------

  /** `*str` for a pointer into a C string, which stands for the rest of that string. */
  function Deref(str: string): char {
    if str == "" then '\0' else str[0]
  }

  /** How many decimal digits the text starts with. */
  function DigitCount(t: string): (n: nat)
    ensures n <= |t| && AreDigits(t[..n], 10)
    ensures n < |t| ==> !IsDigit(t[n], 10)
  {
    if t == "" || !IsDigit(t[0], 10) then 0 else 1 + DigitCount(t[1..])
  }

  /** A decimal number below `limit` at the start of a text, and the text after it. */
  function ParsedNumber(t: string, limit: nat): (r: Option<(nat, string)>)
    ensures r.Some? ==> r.value.0 < limit
  {
    var n := DigitCount(t);
    if n > 0 && NumberValue(t[..n], 10) < limit then Some((NumberValue(t[..n], 10), t[n..])) else None
  }

  /** `count` numbers below 256 separated by dots, and the text after them. */
  function ParsedBytes(t: string, count: nat): Option<(seq<byte>, string)> {
    if count == 0 then Some(([], t))
    else
      var first := ParsedNumber(t, 256);
      if first.None? then None
      else if count == 1 then Some(([first.value.0], first.value.1))
      else if Deref(first.value.1) != '.' then None
      else
        var rest := ParsedBytes(first.value.1[1..], count - 1);
        if rest.None? then None else Some(([first.value.0] + rest.value.0, rest.value.1))
  }

  function ZeroBytes(n: nat): seq<byte> {
    seq(n, _ => 0)
  }

  /** An optional port, and the text after it. */
  function ParsedPort(t: string): Option<(nat, string)> {
    if Deref(t) == ':' then ParsedNumber(t[1..], 0x1_0000) else Some((0, t))
  }

  function ParsedIpv4Addr(t: string): Option<NetAddr> {
    var ip := ParsedBytes(t, 4);
    if ip.None? then None
    else
      var port := ParsedPort(ip.value.1);
      if port.None? || port.value.1 != "" then None
      else Some(NetAddr({Ipv4}, ip.value.0 + ZeroBytes(12), port.value.0))
  }

  /** The text between the brackets, of which the first 127 characters are copied. */
  function HostLength(t: string): (n: nat)
    ensures n <= |t|
  {
    if FirstOf(t, ']') < 127 then FirstOf(t, ']') else 127
  }

  /** `t` is the text after the opening bracket; whatever follows the port is ignored. */
  function ParsedIpv6Addr(t: string): Option<NetAddr> {
    var n := HostLength(t);
    var fields := ParsedIpv6(t[..n]);
    if fields.None? || Deref(t[n..]) != ']' then None
    else
      var port := ParsedPort(t[n + 1..]);
      if port.None? then None else Some(NetAddr({Ipv6}, BytesOf(fields.value), port.value.0))
  }

  function ParsedAddr(t: string): Option<NetAddr> {
    if Deref(t) == '[' then ParsedIpv6Addr(t[1..]) else ParsedIpv4Addr(t)
  }

  lemma {:induction false} DigitCountIs(t: string, n: nat)
    requires n <= |t| && AreDigits(t[..n], 10) && (n < |t| ==> !IsDigit(t[n], 10))
    ensures DigitCount(t) == n
  {
    if n > 0 {
      assert IsDigit(t[..n][0], 10);
      assert t[1..][..n - 1] == t[..n][1..];
      DigitCountIs(t[1..], n - 1);
    }
  }

  lemma AnotherDigit(t: string, n: nat)
    requires n < |t| && AreDigits(t[..n], 10) && IsDigit(t[n], 10)
    ensures AreDigits(t[..n + 1], 10)
    ensures NumberValue(t[..n + 1], 10) == NumberValue(t[..n], 10) * 10 + DigitValue(t[n])
  {
    assert t[..n + 1][..n] == t[..n];
  }

  /** `parse_int`: the number at the start of the string, and the pointer behind it. */
  method ParseInt(str: string) returns (ok: bool, out: nat, rest: string)
    ensures ok == (DigitCount(str) > 0)
    ensures ok ==> out == NumberValue(str[..DigitCount(str)], 10) && rest == str[DigitCount(str)..]
  {
    hide NumberValue, AreDigits, DigitCount;
    ok, out, rest := false, 0, str;
    ghost var n := 0;
    assert str[..0] == "";
    NoDigits(str);
    if !IsDigit(Deref(rest), 10) {
      return;
    }
    AnotherDigit(str, 0);
    out := DigitValue(rest[0]);
    rest := rest[1..];
    n := 1;
    while IsDigit(Deref(rest), 10)
      invariant 1 <= n <= |str| && rest == str[n..] && AreDigits(str[..n], 10) && out == NumberValue(str[..n], 10)
      decreases |rest|
    {
      AnotherDigit(str, n);
      out := out * 10 + DigitValue(rest[0]);
      rest := rest[1..];
      n := n + 1;
    }
    ok := true;
    DigitCountIs(str, n);
  }

  /**
    How far the unbounded numbers of this model go: the source adds up in an `int`, and no number it
    arrives at while reading these digits exceeds 2^31 - 1 exactly if the whole number does not.
   */
  lemma AccumulationFitsIff(t: string)
    requires AreDigits(t, 10)
    ensures (forall n :: 0 <= n <= |t| ==> NumberValue(t[..n], 10) <= 0x7FFF_FFFF) <==> NumberValue(t, 10) <= 0x7FFF_FFFF
  {
    hide NumberValue;
    assert t[..|t|] == t;
    forall n | 0 <= n <= |t|
      ensures NumberValue(t[..n], 10) <= NumberValue(t, 10)
    {
      PrefixIsLess(t, n);
    }
  }

  lemma {:induction false} PrefixIsLess(t: string, n: nat)
    requires AreDigits(t, 10) && n <= |t|
    ensures NumberValue(t[..n], 10) <= NumberValue(t, 10)
    decreases |t| - n
  {
    hide NumberValue;
    if n == |t| {
      assert t[..n] == t;
    } else {
      PrefixIsLess(t, n + 1);
      AnotherDigit(t, n);
      assert IsDigit(t[n], 10);
    }
  }

  lemma NoDigits(str: string)
    ensures AreDigits("", 10) && NumberValue("", 10) == 0
    ensures !IsDigit(Deref(str), 10) ==> DigitCount(str) == 0
  {
  }

  /** `parse_uint8`. */
  method ParseUint8(str: string) returns (r: Option<(nat, string)>)
    ensures r == ParsedNumber(str, 256)
  {
    var ok, i, rest := ParseInt(str);
    if !ok || i > 0xff {
      return None;
    }
    return Some((i, rest));
  }

  /** `parse_uint16`. */
  method ParseUint16(str: string) returns (r: Option<(nat, string)>)
    ensures r == ParsedNumber(str, 0x1_0000)
  {
    var ok, i, rest := ParseInt(str);
    if !ok || i > 0xffff {
      return None;
    }
    return Some((i, rest));
  }

  /** `net_addr_from_str`; `None` is the source's -1. */
  method FromStr(text: string) returns (r: Option<NetAddr>)
    requires '\0' !in text
    ensures r == ParsedAddr(text)
  {
    hide ParsedNumber, ParsedIpv6, BytesOf, FirstOf, ZeroBytes;
    var str := text;
    if Deref(str) == '[' {
      str := str[1..];
      ghost var host := str;
      var buf := "";
      var i := 0;
      while i < 127 && i < |str| && str[i] != ']'
        invariant i <= |host| && i <= 127 && buf == host[..i] && str == host
        invariant forall k :: 0 <= k < i ==> host[k] != ']'
      {
        buf := buf + [str[i]];
        i := i + 1;
      }
      HostEnds(host, i);
      str := str[i..];
      var fields := ParsedIpv6(buf);
      if fields.None? {
        return None;
      }
      if Deref(str) == ']' {
        str := str[1..];
        assert str == host[i + 1..];
        if Deref(str) == ':' {
          str := str[1..];
          var port := ParseUint16(str);
          if port.None? {
            return None;
          }
          return Some(NetAddr({Ipv6}, BytesOf(fields.value), port.value.0));
        } else {
          return Some(NetAddr({Ipv6}, BytesOf(fields.value), 0));
        }
      } else {
        return None;
      }
    } else {
      r := FromStrIpv4(str);
    }
  }

  lemma {:induction false} FirstOfIs(t: string, c: char, n: nat)
    requires n <= |t| && HasNo(t[..n], c) && (n < |t| ==> t[n] == c)
    ensures FirstOf(t, c) == n
  {
    assert t == t[..n] + t[n..];
    FirstOfAfter(t[..n], t[n..], c);
  }

  lemma {:induction false} FirstOfFrom(t: string, c: char, n: nat)
    requires n <= |t| && HasNo(t[..n], c)
    ensures FirstOf(t, c) >= n
  {
    if n > 0 {
      assert t[..n][0] == t[0] && t[1..][..n - 1] == t[..n][1..];
      FirstOfFrom(t[1..], c, n - 1);
    }
  }

  lemma HostEnds(host: string, i: nat)
    requires i <= |host| && i <= 127 && forall k :: 0 <= k < i ==> host[k] != ']'
    requires i == 127 || i == |host| || host[i] == ']'
    ensures HostLength(host) == i
  {
    if i == 127 {
      FirstOfFrom(host, ']', i);
    } else {
      FirstOfIs(host, ']', i);
    }
  }

  lemma BytesUnfold(t: string, count: nat)
    requires count > 0
    ensures
      var first := ParsedNumber(t, 256);
      ParsedBytes(t, count) ==
        if first.None? then None
        else if count == 1 then Some(([first.value.0], first.value.1))
        else if Deref(first.value.1) != '.' then None
        else
          var rest := ParsedBytes(first.value.1[1..], count - 1);
          if rest.None? then None else Some(([first.value.0] + rest.value.0, rest.value.1))
  {
    hide ParsedNumber;
  }

  /** The branch of `net_addr_from_str` for IPv4 addresses. */
  method FromStrIpv4(text: string) returns (r: Option<NetAddr>)
    ensures r == ParsedIpv4Addr(text)
  {
    hide ParsedNumber, ParsedBytes, ZeroBytes;
    BytesUnfold(text, 4);
    var b0 := ParseUint8(text);
    if b0.None? || Deref(b0.value.1) != '.' {
      return None;
    }
    BytesUnfold(b0.value.1[1..], 3);
    var b1 := ParseUint8(b0.value.1[1..]);
    if b1.None? || Deref(b1.value.1) != '.' {
      return None;
    }
    BytesUnfold(b1.value.1[1..], 2);
    var b2 := ParseUint8(b1.value.1[1..]);
    if b2.None? || Deref(b2.value.1) != '.' {
      return None;
    }
    BytesUnfold(b2.value.1[1..], 1);
    var b3 := ParseUint8(b2.value.1[1..]);
    if b3.None? {
      return None;
    }
    var str, port := b3.value.1, 0;
    if Deref(str) == ':' {
      var p := ParseUint16(str[1..]);
      if p.None? {
        return None;
      }
      port, str := p.value.0, p.value.1;
    }
    if str != "" {
      return None;
    }
    ghost var last: seq<byte> := [b2.value.0] + [b3.value.0];
    assert [b0.value.0] + ([b1.value.0] + last) == [b0.value.0, b1.value.0, b2.value.0, b3.value.0];
    return Some(NetAddr({Ipv4}, [b0.value.0, b1.value.0, b2.value.0, b3.value.0] + ZeroBytes(12), port));
  }

  // ---------------------------------------------------------------------------------------------
  // The round trip
  // ---------------------------------------------------------------------------------------------

  lemma NumberThenParses(x: nat, limit: nat, rest: string)
    requires x < limit && (rest == "" || !IsDigit(rest[0], 10))
    ensures ParsedNumber(NumberText(x, 10) + rest, limit) == Some((x, rest))
    ensures IsDigit((NumberText(x, 10) + rest)[0], 10)
  {
    hide NumberText, NumberValue, IsDigit;
    var t := NumberText(x, 10);
    NumberRoundTrip(x, 10);
    assert (t + rest)[..|t|] == t && (t + rest)[|t|..] == rest;
    DigitCountIs(t + rest, |t|);
  }

  lemma PortParses(port: int)
    requires port < 0x1_0000
    ensures ParsedPort(PortText(port)) == Some((if port >= 0 then port else 0, ""))
    ensures PortText(port) == "" || PortText(port)[0] == ':'
  {
    hide NumberText, ParsedNumber;
    if port >= 0 {
      NumberThenParses(port, 0x1_0000, "");
      assert NumberText(port, 10) + "" == NumberText(port, 10);
      assert PortText(port)[1..] == NumberText(port, 10);
    }
  }

  lemma DottedUnfold(ip: seq<byte>)
    requires ip != []
    ensures DottedText(ip) == if |ip| == 1 then NumberText(ip[0], 10) else NumberText(ip[0], 10) + "." + DottedText(ip[1..])
  {
    hide NumberText;
  }

  lemma DotIsNoDigit()
    ensures !IsDigit('.', 10) && !IsDigit(':', 10)
  {
  }

  lemma {:induction false} BytesParse(ip: seq<byte>, rest: string)
    requires ip != [] && (rest == "" || rest[0] == ':')
    ensures ParsedBytes(DottedText(ip) + rest, |ip|) == Some((ip, rest))
    ensures DottedText(ip) != "" && IsDigit(DottedText(ip)[0], 10)
  {
    hide NumberText, ParsedNumber, ParsedBytes, IsDigit, DottedText;
    var t := NumberText(ip[0], 10);
    DottedUnfold(ip);
    DotIsNoDigit();
    BytesUnfold(DottedText(ip) + rest, |ip|);
    if |ip| == 1 {
      NumberThenParses(ip[0], 256, rest);
      assert ip == [ip[0]];
    } else {
      var more := DottedText(ip[1..]) + rest;
      assert DottedText(ip) + rest == t + ("." + more);
      NumberThenParses(ip[0], 256, "." + more);
      BytesParse(ip[1..], rest);
      assert ("." + more)[1..] == more;
      assert ip == [ip[0]] + ip[1..];
    }
  }

  /** What of an address survives printing: the family, its bytes, and the port if it was printed. */
  function Kept(a: NetAddr, addPort: bool): NetAddr
    requires Valid(a)
  {
    var port := if addPort then a.port else 0;
    if PrintsAsIpv4(a) then NetAddr({Ipv4}, a.ip[..4] + ZeroBytes(12), port) else NetAddr({Ipv6}, a.ip, port)
  }

  lemma Ipv4RoundTrip(ip: seq<byte>, port: int)
    requires |ip| == 4 && port < 0x1_0000
    ensures ParsedAddr(DottedText(ip) + PortText(port)) == Some(NetAddr({Ipv4}, ip + ZeroBytes(12), if port >= 0 then port else 0))
  {
    hide DottedText, PortText, ParsedBytes, ParsedPort, ZeroBytes;
    PortParses(port);
    BytesParse(ip, PortText(port));
  }

  lemma Ipv6AddrRoundTrip(ip: seq<field>, port: int)
    requires |ip| == 8 && port < 0x1_0000
    ensures ParsedAddr(Ipv6Text(ip, port)) == Some(NetAddr({Ipv6}, BytesOf(ip), if port >= 0 then port else 0))
  {
    hide PortText, Compressed, ZeroRun, ParsedIpv6, ParsedPort, BytesOf;
    var start, len := ZeroRun(ip).0, ZeroRun(ip).1;
    RunOfTwo(ip);
    CompressedLength(ip, start, len);
    PortParses(port);
    Ipv6RoundTrip(ip, start, len);
    var host, rest := Compressed(ip, start, len), "]" + PortText(port);
    var t := host + rest;
    assert Ipv6Text(ip, port) == "[" + t && ("[" + t)[1..] == t;
    FirstOfAfter(host, rest, ']');
    assert t[..|host|] == host && t[|host|..] == rest && t[|host| + 1..] == PortText(port);
  }

  /** Printing an address and parsing the text gives the same address and port. */
  lemma RoundTrip(a: NetAddr, addPort: bool)
    requires Valid(a)
    ensures ParsedAddr(AddrText(a, addPort)) == Some(Kept(a, addPort))
  {
    hide DottedText, PortText, Ipv6Text, FieldsOf, BytesOf, ParsedAddr, ZeroBytes;
    if PrintsAsIpv4(a) {
      Ipv4RoundTrip(a.ip[..4], ShownPort(a, addPort));
    } else {
      BytesOfFields(a.ip);
      Ipv6AddrRoundTrip(FieldsOf(a.ip), ShownPort(a, addPort));
    }
  }

  /**
    The parsed address equals the printed one in every field exactly if the address has no type bit
    besides its family's, no bytes beyond its family's, and no port that was not printed.
   */
  lemma RoundTripIsExactIff(a: NetAddr, addPort: bool)
    requires Valid(a) && Known(a)
    ensures ParsedAddr(AddrText(a, addPort)) == Some(a)
      <==> (addPort || a.port == 0) && (a.types == {Ipv6} || (a.types == {Ipv4} && forall k :: 4 <= k < 16 ==> a.ip[k] == 0))
  {
    hide AddrText, ParsedAddr;
    RoundTrip(a, addPort);
    if a.types == {Ipv6} {
    } else if a.types == {Ipv4} {
      assert Kept(a, addPort).ip == a.ip <==> forall k :: 4 <= k < 16 ==> a.ip[k] == 0;
    }
  }
}
