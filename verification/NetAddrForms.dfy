/**
  Which texts are network addresses: exactly what the IPv4 parser accepts, and which characters are
  printed.
 */
module NetAddrForms {
  import opened Machine
  import opened NetAddrText
  import opened NetAddr

  // ---------------------------------------------------------------------------------------------
  // Digits
  // ---------------------------------------------------------------------------------------------

  /** Decimal digits, and the letters from 'a' to 'f'. */
  predicate IsPrintedDigit(c: char, b: base) {
    48 <= c as int <= 57 || (b == 16 && 97 <= c as int <= 102)
  }

  /** The text of a number is its digits, most significant first, in lower case and without leading zeros. */
  lemma {:induction false} TextOfNumber(n: nat, b: base)
    ensures var t := NumberText(n, b);
            && (forall k :: 0 <= k < |t| ==> IsPrintedDigit(t[k], b))
            && (n > 0 ==> t[0] as int != 48)
            && (n < b ==> |t| == 1 && t[0] as int == if n < 10 then 48 + n else 87 + n)
            && (n >= b ==> t == NumberText(n / b, b) + NumberText(n % b, b))
    decreases n
  {
    Quotient(n, b);
    if n >= b {
      TextOfNumber(n / b, b);
      TextOfNumber(n % b, b);
    }
  }

  /** What is read as a digit, in either case. */
  lemma ValueOfDigit(c: char, d: nat)
    requires d < 16
    ensures DigitValue(c) == d <==> c as int == (if d < 10 then 48 + d else 87 + d) || (d >= 10 && c as int == 55 + d)
  {
  }

  // ---------------------------------------------------------------------------------------------
  // IPv4 addresses
  // ---------------------------------------------------------------------------------------------

  /** A decimal number below a limit. Leading zeros are allowed. */
  predicate Numeral(x: string, limit: nat) {
    x != "" && AreDigits(x, 10) && NumberValue(x, 10) < limit
  }

  function Value(x: string): nat
    requires AreDigits(x, 10)
  {
    NumberValue(x, 10)
  }

  /** Four numbers below 256, and maybe a port. */
  datatype Dotted = Dotted(a: string, b: string, c: string, d: string, port: Option<string>)
  {
    predicate Valid() {
      && Numeral(a, 256) && Numeral(b, 256) && Numeral(c, 256) && Numeral(d, 256)
      && (port.Some? ==> Numeral(port.value, 65536))
    }

    function Tail(): string {
      if port.Some? then ":" + port.value else ""
    }

    function Text(): string {
      a + ("." + (b + ("." + (c + ("." + (d + Tail()))))))
    }

    function Addr(): NetAddr
      requires Valid()
    {
      NetAddr({Ipv4}, [Value(a), Value(b), Value(c), Value(d)] + ZeroBytes(12), if port.Some? then Value(port.value) else 0)
    }
  }

  lemma NumeralParses(x: string, limit: nat, rest: string)
    requires Numeral(x, limit) && (rest == "" || !IsDigit(rest[0], 10))
    ensures ParsedNumber(x + rest, limit) == Some((Value(x), rest))
  {
    hide NumberValue, IsDigit;
    assert (x + rest)[..|x|] == x && (x + rest)[|x|..] == rest;
    DigitCountIs(x + rest, |x|);
  }

  lemma ParsedIsNumeral(t: string, limit: nat) returns (x: string)
    requires ParsedNumber(t, limit).Some?
    ensures var r := ParsedNumber(t, limit).value;
            Numeral(x, limit) && t == x + r.1 && Value(x) == r.0
  {
    hide NumberValue;
    var n := DigitCount(t);
    x := t[..n];
  }

  lemma OneByte(t: string, count: nat)
    requires count > 0
    ensures ParsedBytes(t, count) ==
              var first := ParsedNumber(t, 256);
              if first.None? then None
              else if count == 1 then Some(([first.value.0], first.value.1))
              else if Deref(first.value.1) != '.' then None
              else
                var rest := ParsedBytes(first.value.1[1..], count - 1);
                if rest.None? then None else Some(([first.value.0] + rest.value.0, rest.value.1))
  {
    hide ParsedNumber;
  }

  lemma ByteThenMore(x: string, more: string, count: nat)
    requires Numeral(x, 256) && count > 0
    ensures ParsedBytes(x + ("." + more), count + 1) ==
              var rest := ParsedBytes(more, count);
              if rest.None? then None else Some(([Value(x)] + rest.value.0, rest.value.1))
  {
    hide ParsedNumber, ParsedBytes, NumberValue;
    NumeralParses(x, 256, "." + more);
    OneByte(x + ("." + more), count + 1);
    assert ("." + more)[1..] == more;
  }

  lemma DottedParses(form: Dotted)
    requires form.Valid()
    ensures ParsedIpv4Addr(form.Text()) == Some(form.Addr()) && Deref(form.Text()) != '['
  {
    hide ParsedNumber, ParsedBytes, NumberValue, ZeroBytes, AreDigits, Dotted.Tail;
    var tail := form.Tail();
    TailParses(form);
    ByteThenMore(form.a, form.b + ("." + (form.c + ("." + (form.d + tail)))), 3);
    ByteThenMore(form.b, form.c + ("." + (form.d + tail)), 2);
    ByteThenMore(form.c, form.d + tail, 1);
    OneByte(form.d + tail, 1);
    assert ParsedBytes(form.d + tail, 1) == Some(([Value(form.d)], tail));
    var ip := ParsedBytes(form.Text(), 4);
    assert ip.Some? && ip.value.1 == tail;
    assert ip.value.0 == [Value(form.a), Value(form.b), Value(form.c), Value(form.d)];
    FirstIsDigit(form.a);
  }

  lemma FirstIsDigit(x: string)
    requires Numeral(x, 256)
    ensures x[0] != '['
  {
    assert IsDigit(x[0], 10);
  }

  lemma TailParses(form: Dotted)
    requires form.Valid()
    ensures ParsedNumber(form.d + form.Tail(), 256) == Some((Value(form.d), form.Tail()))
    ensures ParsedPort(form.Tail()) == Some((if form.port.Some? then Value(form.port.value) else 0, ""))
  {
    hide NumberValue, ParsedNumber;
    NumeralParses(form.d, 256, form.Tail());
    if form.port.Some? {
      var p := form.port.value;
      NumeralParses(p, 65536, "");
      assert form.Tail()[1..] == p && p + "" == p;
    }
  }

  lemma ParsedByte(t: string, count: nat) returns (x: string, more: string)
    requires count > 1 && ParsedBytes(t, count).Some?
    ensures Numeral(x, 256) && t == x + ("." + more) && ParsedBytes(more, count - 1).Some?
  {
    hide ParsedNumber, ParsedBytes, NumberValue;
    OneByte(t, count);
    x := ParsedIsNumeral(t, 256);
    var rest := ParsedNumber(t, 256).value.1;
    more := rest[1..];
    assert rest == "." + more;
  }

  lemma ParsedIsDotted(t: string) returns (form: Dotted)
    requires ParsedIpv4Addr(t).Some?
    ensures form.Valid() && t == form.Text()
  {
    hide ParsedNumber, ParsedBytes, NumberValue, ZeroBytes, Numeral;
    var a, t1 := ParsedByte(t, 4);
    var b, t2 := ParsedByte(t1, 3);
    var c, t3 := ParsedByte(t2, 2);
    ByteThenMore(a, t1, 3);
    ByteThenMore(b, t2, 2);
    ByteThenMore(c, t3, 1);
    OneByte(t3, 1);
    var d := ParsedIsNumeral(t3, 256);
    var tail := ParsedNumber(t3, 256).value.1;
    var port := ParsedIsTail(tail);
    form := Dotted(a, b, c, d, port);
  }

  lemma ParsedIsTail(tail: string) returns (port: Option<string>)
    requires ParsedPort(tail).Some? && ParsedPort(tail).value.1 == ""
    ensures port.Some? ==> Numeral(port.value, 65536)
    ensures tail == if port.Some? then ":" + port.value else ""
  {
    hide ParsedNumber, NumberValue;
    port := None;
    if Deref(tail) == ':' {
      var p := ParsedIsNumeral(tail[1..], 65536);
      assert p + "" == p;
      port := Some(p);
    }
  }

  /**
    A text without an opening bracket is accepted exactly if it is four decimal numbers below 256 with dots
    between them and nothing else, or that with a colon and a number below 65536 behind it; and those are
    then the bytes and the port.
   */
  lemma AcceptedIffDotted(t: string, a: NetAddr)
    requires Deref(t) != '['
    ensures ParsedAddr(t) == Some(a) <==> exists form: Dotted :: form.Valid() && form.Text() == t && form.Addr() == a
  {
    hide ParsedIpv4Addr, Dotted.Text, Dotted.Valid, Dotted.Addr;
    if ParsedAddr(t) == Some(a) {
      var form := ParsedIsDotted(t);
      DottedParses(form);
    }
    if form: Dotted :| form.Valid() && form.Text() == t && form.Addr() == a {
      DottedParses(form);
    }
  }

  // ---------------------------------------------------------------------------------------------
  // IPv6 addresses
  // ---------------------------------------------------------------------------------------------

  /** A host in brackets, maybe a port, and whatever follows. */
  datatype Bracketed = Bracketed(host: string, port: Option<string>, rest: string)
  {
    predicate Valid() {
      && HasNo(host, ']') && |host| <= 127 && ParsedIpv6(host).Some?
      && match port
         case Some(p) => Numeral(p, 65536) && (rest == "" || !IsDigit(rest[0], 10))
         case None => Deref(rest) != ':'
    }

    function Tail(): string {
      if port.Some? then ":" + (port.value + rest) else rest
    }

    function Text(): string {
      "[" + (host + ("]" + Tail()))
    }

    function Addr(): NetAddr
      requires Valid()
    {
      NetAddr({Ipv6}, BytesOf(ParsedIpv6(host).value), if port.Some? then Value(port.value) else 0)
    }
  }

  lemma BracketedParses(form: Bracketed)
    requires form.Valid()
    ensures ParsedAddr(form.Text()) == Some(form.Addr()) && Deref(form.Text()) == '['
  {
    hide ParsedIpv6, ParsedNumber, NumberValue, BytesOf, AreDigits, HasNo;
    var u := form.host + ("]" + form.Tail());
    assert form.Text()[1..] == u;
    FirstOfAfter(form.host, "]" + form.Tail(), ']');
    assert u[..|form.host|] == form.host && u[|form.host|..] == "]" + form.Tail() && u[|form.host| + 1..] == form.Tail();
    if form.port.Some? {
      NumeralParses(form.port.value, 65536, form.rest);
      assert form.Tail()[1..] == form.port.value + form.rest;
    }
  }

  lemma ParsedIsBracketed(t: string) returns (form: Bracketed)
    requires Deref(t) == '[' && ParsedAddr(t).Some?
    ensures form.Valid() && t == form.Text()
  {
    hide ParsedIpv6, ParsedNumber, ParsedPort, BytesOf, HasNo, Numeral, IsDigit, Bracketed.Text;
    var u := t[1..];
    var n := HostLength(u);
    NoneBefore(u, ']');
    var port, rest := ParsedIsPort(u[n + 1..]);
    form := Bracketed(u[..n], port, rest);
    TextOfParts(t, n, form);
  }

  lemma TextOfParts(t: string, n: nat, form: Bracketed)
    requires n + 1 < |t| && t[0] == '[' && t[n + 1] == ']' && form.host == t[1..][..n] && form.Tail() == t[1..][n + 1..]
    ensures form.Text() == t
  {
    hide Bracketed.Tail;
    var u := t[1..];
    assert u == u[..n] + ([u[n]] + u[n + 1..]);
    assert t == [t[0]] + u;
  }

  lemma ParsedIsPort(tail: string) returns (port: Option<string>, rest: string)
    requires ParsedPort(tail).Some?
    ensures tail == if port.Some? then ":" + (port.value + rest) else rest
    ensures match port
            case Some(p) => Numeral(p, 65536) && (rest == "" || !IsDigit(rest[0], 10))
            case None => Deref(rest) != ':'
  {
    hide ParsedNumber, NumberValue, IsDigit;
    port, rest := None, tail;
    if Deref(tail) == ':' {
      var p := ParsedIsNumeral(tail[1..], 65536);
      RestIsNoDigit(tail[1..], 65536);
      port, rest := Some(p), ParsedNumber(tail[1..], 65536).value.1;
    }
  }

  lemma {:induction false} NoneBefore(t: string, c: char)
    ensures HasNo(t[..FirstOf(t, c)], c)
  {
    if t != "" && t[0] != c {
      NoneBefore(t[1..], c);
      assert t[..FirstOf(t, c)] == [t[0]] + t[1..][..FirstOf(t[1..], c)];
    }
  }

  lemma RestIsNoDigit(t: string, limit: nat)
    requires ParsedNumber(t, limit).Some?
    ensures var rest := ParsedNumber(t, limit).value.1; rest == "" || !IsDigit(rest[0], 10)
  {
    hide NumberValue, IsDigit;
  }

  /**
    A text that starts with a bracket is accepted exactly if at most 127 characters follow up to the closing
    one and are an IPv6 address, and a colon right behind that is followed by a number below 65536.
   */
  lemma AcceptedIffBracketed(t: string, a: NetAddr)
    requires Deref(t) == '['
    ensures ParsedAddr(t) == Some(a) <==> exists form: Bracketed :: form.Valid() && form.Text() == t && form.Addr() == a
  {
    hide ParsedAddr, Bracketed.Text, Bracketed.Valid, Bracketed.Addr;
    if ParsedAddr(t) == Some(a) {
      var form := ParsedIsBracketed(t);
      BracketedParses(form);
    }
    if form: Bracketed :| form.Valid() && form.Text() == t && form.Addr() == a {
      BracketedParses(form);
    }
  }
}
