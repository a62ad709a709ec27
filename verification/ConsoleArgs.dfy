/**
  Quoting of console arguments: `str_escape` puts a backslash before quotes and backslashes,
  `GetParsedArgument` splits a line into plain and quoted tokens and takes the escapes out again.
 */
module ConsoleArgs {
  import opened Machine
  import opened Utf8
  import opened Utf8Copy

  const QUOTE: byte := 34
  const BACKSLASH: byte := 92
  const SPACE: byte := 32

  // ---------------------------------------------------------------------------------------------
  // Escaping
  // ---------------------------------------------------------------------------------------------

  predicate IsSpecial(b: byte) {
    b == QUOTE || b == BACKSLASH
  }

  function EscapedByte(b: byte): seq<byte> {
    if IsSpecial(b) then [BACKSLASH, b] else [b]
  }

  function Escaped(s: cstring): (e: cstring)
    ensures |s| <= |e|
  {
    if s == [] then [] else EscapedByte(s[0]) + Escaped(s[1..])
  }

  /** How many bytes of `s` can be escaped into `room` bytes. */
  function EscapeFits(s: cstring, room: nat): (n: nat)
    ensures n <= |s|
  {
    if s == [] || |EscapedByte(s[0])| > room then 0
    else 1 + EscapeFits(s[1..], room - |EscapedByte(s[0])|)
  }

  /** The escape of the longest prefix that fits, and nothing more: no dangling backslash. */
  lemma {:induction false} EscapeFitsIsLongest(s: cstring, room: nat)
    ensures |Escaped(s[..EscapeFits(s, room)])| <= room
    ensures EscapeFits(s, room) < |s| ==> |Escaped(s[..EscapeFits(s, room) + 1])| > room
  {
    if s != [] && |EscapedByte(s[0])| <= room {
      var n := EscapeFits(s[1..], room - |EscapedByte(s[0])|);
      EscapeFitsIsLongest(s[1..], room - |EscapedByte(s[0])|);
      EscapedHead(s, n + 1);
      if n + 1 < |s| {
        EscapedHead(s, n + 2);
      }
    } else if s != [] {
      EscapedHead(s, 1);
    }
  }

  lemma EscapedHead(s: cstring, n: nat)
    requires 0 < n <= |s|
    ensures Escaped(s[..n]) == EscapedByte(s[0]) + Escaped(s[1..][..n - 1])
  {
    assert s[..n][1..] == s[1..][..n - 1];
  }

  /** `str_escape` into the part of a buffer from `at` up to `end`; returns the place of the terminating NUL. */
  method StrEscape(dst: array<byte>, at: nat, src: cstring, end: nat) returns (after: nat)
    requires at < end <= dst.Length
    modifies dst
    ensures at <= after < end && dst[after] == 0
    ensures dst[at..after] == Escaped(src[..EscapeFits(src, end - at - 1)])
    ensures dst[..at] == old(dst[..at])
  {
    hide IsSpecial, Escaped, EscapeFits;
    after := at;
    var i := 0;
    EscapedNone();
    while i < |src| && after + 1 < end
      invariant 0 <= i <= |src|
      invariant at <= after < end
      invariant dst[..after] == old(dst[..at]) + Escaped(src[..i])
      invariant i + EscapeFits(src[i..], end - after - 1) == EscapeFits(src, end - at - 1)
    {
      EscapedSnoc(src, i);
      EscapeFitsStep(src, i, end - after - 1);
      if IsSpecial(src[i]) {
        if after + 2 < end {
          after := PutByte(dst, after, BACKSLASH);
        } else {
          break;
        }
      }
      after := PutByte(dst, after, src[i]);
      i := i + 1;
    }
    EscapeFitsNothing(src[i..], end - after - 1);
    ghost var done := dst[..after];
    dst[after] := 0;
    assert dst[..after] == done;
    PrefixAndRest(done, old(dst[..at]), Escaped(src[..i]));
    assert dst[at..after] == done[at..] && dst[..at] == done[..at];
  }

  lemma PrefixAndRest(all: seq<byte>, first: seq<byte>, rest: seq<byte>)
    requires all == first + rest
    ensures all[..|first|] == first && all[|first|..] == rest
  {
  }

  lemma EscapeFitsStep(src: cstring, i: nat, room: nat)
    requires i < |src|
    ensures EscapeFits(src[i..], room) ==
              if |EscapedByte(src[i])| > room then 0 else 1 + EscapeFits(src[i + 1..], room - |EscapedByte(src[i])|)
  {
    assert src[i..][1..] == src[i + 1..];
  }

  /** Nothing more fits once the string ends or there is no room for its next byte. */
  lemma EscapeFitsNothing(s: cstring, room: nat)
    ensures s == [] || room == 0 || (IsSpecial(s[0]) && room <= 1) ==> EscapeFits(s, room) == 0
  {
  }

  lemma EscapedNone()
    ensures Escaped([]) == []
  {
  }

  lemma {:induction false} EscapedSnoc(s: cstring, i: nat)
    requires i < |s|
    ensures Escaped(s[..i + 1]) == Escaped(s[..i]) + EscapedByte(s[i])
  {
    if i == 0 {
      assert s[..1] == [s[0]];
      assert s[..1][1..] == [] && s[..0] == [];
    } else {
      EscapedSnoc(s[1..], i - 1);
      EscapedHead(s, i + 1);
      EscapedHead(s, i);
    }
  }

  // ---------------------------------------------------------------------------------------------
  // Tokens
  // ---------------------------------------------------------------------------------------------

  /** `std::isspace` in the C locale. */
  predicate IsSpace(b: byte) {
    b == SPACE || 9 <= b <= 13
  }

  function SkipSpaces(s: cstring, at: nat): (next: nat)
    requires at <= |s|
    ensures at <= next <= |s| && (next < |s| ==> !IsSpace(s[next]))
    decreases |s| - at
  {
    if at < |s| && IsSpace(s[at]) then SkipSpaces(s, at + 1) else at
  }

  /** An escape sequence at this place: a backslash followed by a backslash or a quote. */
  predicate IsEscape(s: cstring, at: nat)
    requires at <= |s|
  {
    at + 1 < |s| && s[at] == BACKSLASH && IsSpecial(s[at + 1])
  }

  /** The end of a quoted token, past its closing quote if there is one. */
  function QuotedEnd(s: cstring, at: nat): (end: nat)
    requires at <= |s|
    ensures at <= end <= |s|
    decreases |s| - at
  {
    if at == |s| then at
    else if IsEscape(s, at) then QuotedEnd(s, at + 2)
    else if s[at] == QUOTE then at + 1
    else QuotedEnd(s, at + 1)
  }

  /** What a quoted token stands for, from `at` on. */
  function QuotedText(s: cstring, at: nat): cstring
    requires at <= |s|
    decreases |s| - at
  {
    if at == |s| then []
    else if IsEscape(s, at) then [s[at + 1]] + QuotedText(s, at + 2)
    else if s[at] == QUOTE then []
    else [s[at]] + QuotedText(s, at + 1)
  }

  function PlainEnd(s: cstring, at: nat): (end: nat)
    requires at <= |s|
    ensures at <= end <= |s|
    ensures at < |s| && !IsSpace(s[at]) ==> at < end
    decreases |s| - at
  {
    if at < |s| && !IsSpace(s[at]) then PlainEnd(s, at + 1) else at
  }

  function TokenEnd(s: cstring, start: nat): (end: nat)
    requires start < |s| && !IsSpace(s[start])
    ensures start < end <= |s|
  {
    if s[start] == QUOTE then QuotedEnd(s, start + 1) else PlainEnd(s, start)
  }

  function TokenText(s: cstring, start: nat): cstring
    requires start < |s| && !IsSpace(s[start])
  {
    if s[start] == QUOTE then QuotedText(s, start + 1) else s[start..PlainEnd(s, start)]
  }

  /** Where the token of that index starts, counting from `at` on. */
  function FindToken(s: cstring, at: nat, index: int): (start: Option<nat>)
    requires at <= |s|
    ensures start.Some? ==> start.value < |s| && !IsSpace(s[start.value])
    decreases |s| - at
  {
    var start := SkipSpaces(s, at);
    if start == |s| then None
    else if index == 0 then Some(start)
    else FindToken(s, TokenEnd(s, start), index - 1)
  }

  const OUT_BUF_SIZE := 2048

  /** A null pointer, a pointer into the given string, or a pointer to the static buffer. */
  datatype Pointer = Null | IntoString(at: nat) | OutBuf

  /** What the function returns, and for `OutBuf` what the buffer then holds. */
  function ParsedArgument(s: cstring, index: int, rest: bool): (Pointer, cstring) {
    match FindToken(s, 0, index)
    case None => (Null, [])
    case Some(start) =>
      if rest then (IntoString(start), [])
      else
        var text := Clamped(TokenText(s, start), OUT_BUF_SIZE - 1);
        if text == [] then (Null, []) else (OutBuf, text)
  }

  /** `GetParsedArgument`. */
  method GetParsedArgument(outBuf: array<byte>, str: cstring, index: int, rest: bool) returns (r: Pointer)
    requires outBuf.Length == OUT_BUF_SIZE
    modifies outBuf
    ensures r == ParsedArgument(str, index, rest).0
    ensures r.OutBuf? ==> Holds(outBuf[..], ParsedArgument(str, index, rest).1)
  {
    hide TokenEnd, TokenText, SkipSpaces;
    var cur: nat := 0;
    var tokenIndex := 0;
    while cur < |str|
      invariant 0 <= cur <= |str|
      invariant FindToken(str, cur, index - tokenIndex) == FindToken(str, 0, index)
      decreases |str| - cur
    {
      cur := AfterSpaces(str, cur);
      if cur == |str| {
        break;
      }
      var tokenStart := cur;
      if tokenIndex == index && rest {
        return IntoString(tokenStart);
      }
      cur := AfterToken(str, cur);
      if tokenIndex == index && !rest {
        ReadToken(outBuf, str, tokenStart);
        return if outBuf[0] != 0 then OutBuf else Null;
      }
      tokenIndex := tokenIndex + 1;
    }
    NoTokenAtEnd(str, cur, index - tokenIndex);
    return Null;
  }

  lemma NoTokenAtEnd(s: cstring, at: nat, index: int)
    requires at <= |s| && SkipSpaces(s, at) == |s|
    ensures FindToken(s, at, index).None?
  {
  }

  method AfterSpaces(s: cstring, at: nat) returns (next: nat)
    requires at <= |s|
    ensures next == SkipSpaces(s, at)
  {
    next := at;
    while next < |s| && IsSpace(s[next])
      invariant at <= next <= |s|
      invariant SkipSpaces(s, next) == SkipSpaces(s, at)
    {
      next := next + 1;
    }
  }

  /** Advances to the end of a token. */
  method AfterToken(s: cstring, start: nat) returns (end: nat)
    requires start < |s| && !IsSpace(s[start])
    ensures end == TokenEnd(s, start)
  {
    end := start;
    if s[end] == QUOTE {
      end := end + 1;
      while end < |s|
        invariant start < end <= |s|
        invariant QuotedEnd(s, end) == QuotedEnd(s, start + 1)
      {
        if s[end] == BACKSLASH && (ByteAt(s, end + 1) == BACKSLASH || ByteAt(s, end + 1) == QUOTE) {
          end := end + 2;
          continue;
        }
        if s[end] == QUOTE {
          end := end + 1;
          return;
        }
        end := end + 1;
      }
    } else {
      while end < |s| && !IsSpace(s[end])
        invariant start <= end <= |s|
        invariant PlainEnd(s, end) == PlainEnd(s, start)
      {
        end := end + 1;
      }
    }
  }

  /** `*pDst++ = b`. */
  method PutByte(buf: array<byte>, dst: nat, b: byte) returns (next: nat)
    requires dst < buf.Length
    modifies buf
    ensures next == dst + 1
    ensures buf[..next] == old(buf[..dst]) + [b]
  {
    buf[dst] := b;
    next := dst + 1;
  }

  /** Parses the token once more, unescaping it into the buffer as far as it fits. */
  method ReadToken(outBuf: array<byte>, s: cstring, start: nat)
    requires outBuf.Length == OUT_BUF_SIZE
    requires start < |s| && !IsSpace(s[start])
    modifies outBuf
    ensures Holds(outBuf[..], Clamped(TokenText(s, start), OUT_BUF_SIZE - 1))
  {
    var dst;
    if s[start] == QUOTE {
      dst := ReadQuoted(outBuf, s, start + 1);
    } else {
      dst := ReadPlain(outBuf, s, start);
    }
    ghost var done := outBuf[..dst];
    outBuf[dst] := 0;
    assert outBuf[..dst] == done;
  }

  method ReadQuoted(outBuf: array<byte>, s: cstring, at: nat) returns (dst: nat)
    requires outBuf.Length == OUT_BUF_SIZE && at <= |s|
    modifies outBuf
    ensures dst < OUT_BUF_SIZE && outBuf[..dst] == Clamped(QuotedText(s, at), OUT_BUF_SIZE - 1)
  {
    hide IsSpecial, IsEscape, QuotedText;
    dst := 0;
    var remaining := OUT_BUF_SIZE - 1;
    var read := at;
    while read < |s| && remaining != 0
      invariant at <= read <= |s|
      invariant dst + remaining == OUT_BUF_SIZE - 1 && 0 <= remaining
      invariant outBuf[..dst] + QuotedText(s, read) == QuotedText(s, at)
    {
      QuotedTextStep(s, read, outBuf[..dst]);
      if s[read] == BACKSLASH && (ByteAt(s, read + 1) == BACKSLASH || ByteAt(s, read + 1) == QUOTE) {
        dst := PutByte(outBuf, dst, s[read + 1]);
        remaining := remaining - 1;
        read := read + 2;
        continue;
      }
      if s[read] == QUOTE {
        break;
      }
      dst := PutByte(outBuf, dst, s[read]);
      read := read + 1;
      remaining := remaining - 1;
    }
    if read == |s| {
      assert QuotedText(s, read) == [] by { QuotedTextAtEnd(s); }
    }
  }

  lemma QuotedTextAtEnd(s: cstring)
    ensures QuotedText(s, |s|) == []
  {
  }

  lemma QuotedTextStep(s: cstring, at: nat, before: seq<byte>)
    requires at < |s|
    ensures var all := before + QuotedText(s, at);
            if s[at] == BACKSLASH && (ByteAt(s, at + 1) == BACKSLASH || ByteAt(s, at + 1) == QUOTE) then
              at + 1 < |s| && all == before + [s[at + 1]] + QuotedText(s, at + 2)
            else if s[at] == QUOTE then all == before
            else all == before + [s[at]] + QuotedText(s, at + 1)
  {
    if IsEscape(s, at) {
      assert before + ([s[at + 1]] + QuotedText(s, at + 2)) == before + [s[at + 1]] + QuotedText(s, at + 2);
    } else if s[at] == QUOTE {
      assert before + [] == before;
    } else {
      assert before + ([s[at]] + QuotedText(s, at + 1)) == before + [s[at]] + QuotedText(s, at + 1);
    }
  }

  method ReadPlain(outBuf: array<byte>, s: cstring, at: nat) returns (dst: nat)
    requires outBuf.Length == OUT_BUF_SIZE && at <= |s|
    modifies outBuf
    ensures dst < OUT_BUF_SIZE && outBuf[..dst] == Clamped(s[at..PlainEnd(s, at)], OUT_BUF_SIZE - 1)
  {
    dst := 0;
    var remaining := OUT_BUF_SIZE - 1;
    var read := at;
    while read < |s| && !IsSpace(s[read]) && remaining != 0
      invariant at <= read <= PlainEnd(s, at) && PlainEnd(s, read) == PlainEnd(s, at)
      invariant dst == read - at && dst + remaining == OUT_BUF_SIZE - 1 && 0 <= remaining
      invariant outBuf[..dst] == s[at..read]
    {
      dst := PutByte(outBuf, dst, s[read]);
      read := read + 1;
      remaining := remaining - 1;
    }
  }

  // ---------------------------------------------------------------------------------------------
  // The round trip
  // ---------------------------------------------------------------------------------------------

  /** An argument escaped and put in quotes. */
  function Quoted(arg: cstring): cstring {
    [QUOTE] + Escaped(arg) + [QUOTE]
  }

  /** The arguments quoted and joined with spaces. */
  function Line(args: seq<cstring>): cstring {
    if args == [] then []
    else if |args| == 1 then Quoted(args[0])
    else Quoted(args[0]) + [SPACE] + Line(args[1..])
  }

  /** Reading an escaped text up to the closing quote gives the text back. */
  lemma {:induction false} QuotedTextOfEscaped(s: cstring, at: nat, arg: cstring)
    requires at + |Escaped(arg)| < |s|
    requires s[at..at + |Escaped(arg)|] == Escaped(arg) && s[at + |Escaped(arg)|] == QUOTE
    ensures QuotedText(s, at) == arg
    ensures QuotedEnd(s, at) == at + |Escaped(arg)| + 1
    decreases |arg|
  {
    hide Escaped, QuotedText, QuotedEnd, EscapedByte;
    EscapedUnfold(arg);
    if arg == [] {
      QuotedEnds(s, at);
    } else {
      var first, rest := EscapedByte(arg[0]), Escaped(arg[1..]);
      var next := at + |first|;
      SliceOfConcat(s, at, first, rest);
      QuotedByte(s, at, arg[0]);
      QuotedTextOfEscaped(s, next, arg[1..]);
      assert [arg[0]] + arg[1..] == arg;
    }
  }

  lemma EscapedUnfold(arg: cstring)
    ensures Escaped(arg) == if arg == [] then [] else EscapedByte(arg[0]) + Escaped(arg[1..])
  {
  }

  lemma QuotedEnds(s: cstring, at: nat)
    requires at < |s| && s[at] == QUOTE
    ensures QuotedText(s, at) == [] && QuotedEnd(s, at) == at + 1
  {
  }

  lemma SliceOfConcat(s: cstring, at: nat, first: seq<byte>, rest: seq<byte>)
    requires at + |first + rest| <= |s| && s[at..at + |first + rest|] == first + rest
    ensures s[at..at + |first|] == first && s[at + |first|..at + |first| + |rest|] == rest
  {
    var part := s[at..at + |first + rest|];
    assert part[..|first|] == first && part[|first|..] == rest;
  }

  /** One escaped byte of a quoted token. */
  lemma QuotedByte(s: cstring, at: nat, b: byte)
    requires at + |EscapedByte(b)| <= |s| && s[at..at + |EscapedByte(b)|] == EscapedByte(b)
    ensures QuotedText(s, at) == [b] + QuotedText(s, at + |EscapedByte(b)|)
    ensures QuotedEnd(s, at) == QuotedEnd(s, at + |EscapedByte(b)|)
  {
    hide QuotedText, QuotedEnd;
    var part := s[at..at + |EscapedByte(b)|];
    assert s[at] == part[0] && (IsSpecial(b) ==> s[at + 1] == part[1]);
    QuotedUnfold(s, at);
  }

  lemma QuotedUnfold(s: cstring, at: nat)
    requires at < |s|
    ensures QuotedText(s, at) ==
              if IsEscape(s, at) then [s[at + 1]] + QuotedText(s, at + 2)
              else if s[at] == QUOTE then [] else [s[at]] + QuotedText(s, at + 1)
    ensures QuotedEnd(s, at) ==
              if IsEscape(s, at) then QuotedEnd(s, at + 2) else if s[at] == QUOTE then at + 1 else QuotedEnd(s, at + 1)
  {
  }

  /** Token `k` of the line is argument `k`, wherever in the string the line starts. */
  lemma {:induction false} LineTokens(s: cstring, at: nat, args: seq<cstring>, k: int)
    requires at <= |s| && s[at..] == Line(args)
    ensures 0 <= k < |args| ==>
              FindToken(s, at, k).Some? && TokenText(s, FindToken(s, at, k).value) == args[k]
    ensures !(0 <= k < |args|) ==> FindToken(s, at, k).None?
    decreases |args|
  {
    hide FindToken, TokenText, TokenEnd, SkipSpaces, Line;
    LineStartsWithQuote(args);
    if args == [] {
      NoTokenLeft(s, k);
    } else {
      var next := FirstToken(s, at, args);
      FindTokenStep(s, at, k);
      if |args| == 1 {
        NoTokenLeft(s, k - 1);
      } else {
        FindTokenAfterSpace(s, next, k - 1);
        LineTokens(s, next + 1, args[1..], k - 1);
      }
    }
  }

  lemma LineStartsWithQuote(args: seq<cstring>)
    ensures Line(args) == [] <==> args == []
  {
  }

  lemma NoTokenLeft(s: cstring, k: int)
    ensures FindToken(s, |s|, k).None?
  {
  }

  lemma FindTokenStep(s: cstring, at: nat, k: int)
    requires at < |s| && !IsSpace(s[at])
    ensures FindToken(s, at, k) == if k == 0 then Some(at) else FindToken(s, TokenEnd(s, at), k - 1)
  {
  }

  lemma FirstToken(s: cstring, at: nat, args: seq<cstring>) returns (next: nat)
    requires at <= |s| && s[at..] == Line(args) && args != []
    ensures at < next <= |s| && s[at] == QUOTE
    ensures TokenText(s, at) == args[0] && TokenEnd(s, at) == next
    ensures if |args| == 1 then next == |s| else next < |s| && s[next] == SPACE && s[next + 1..] == Line(args[1..])
  {
    hide QuotedText, QuotedEnd, Escaped, IsSpecial;
    var e := Escaped(args[0]);
    next := at + |e| + 2;
    var quoted, rest := Quoted(args[0]), if |args| == 1 then [] else [SPACE] + Line(args[1..]);
    assert s[at..] == quoted + rest;
    assert forall i :: 0 <= i < |quoted| ==> s[at + i] == quoted[i];
    assert s[at + 1..at + 1 + |e|] == e;
    QuotedTextOfEscaped(s, at + 1, args[0]);
    assert s[next..] == rest;
    assert |args| > 1 ==> s[next + 1..] == rest[1..];
  }

  lemma FindTokenAfterSpace(s: cstring, at: nat, k: int)
    requires at < |s| && IsSpace(s[at])
    ensures FindToken(s, at, k) == FindToken(s, at + 1, k)
  {
  }

  /**
    Argument `k` of a quoted line is argument `k` of the list, cut off at what the static buffer can
    hold; a null pointer stands for an empty argument as well as for an index out of range.
   */
  lemma ParsedLine(args: seq<cstring>, k: int)
    ensures ParsedArgument(Line(args), k, false) ==
            if 0 <= k < |args| && args[k] != [] then (OutBuf, Clamped(args[k], OUT_BUF_SIZE - 1)) else (Null, [])
  {
    hide FindToken, TokenText, Line;
    assert Line(args)[0..] == Line(args);
    LineTokens(Line(args), 0, args, k);
  }

  /** An argument comes back whole exactly if it is not empty and has at most 2047 bytes. */
  lemma ArgumentRoundTripIff(args: seq<cstring>, k: nat)
    requires k < |args|
    ensures ParsedArgument(Line(args), k, false) == (OutBuf, args[k]) <==> 0 < |args[k]| <= 2047
  {
    ParsedLine(args, k);
  }

  // ---------------------------------------------------------------------------------------------
  // Lines that somebody has typed
  // ---------------------------------------------------------------------------------------------

  /** What the escape is: a backslash before quotes and backslashes, and nothing else. */
  lemma {:induction false} EscapedLaws(a: cstring, b: cstring)
    ensures Escaped(a + b) == Escaped(a) + Escaped(b)
    ensures (forall i :: 0 <= i < |a| ==> a[i] != 34 && a[i] != 92) ==> Escaped(a) == a
    ensures Escaped([34]) == [92, 34] && Escaped([92]) == [92, 92]
  {
    hide Escaped, EscapedByte;
    EscapedSpecial();
    EscapedUnfold(a);
    if a == [] {
      assert a + b == b;
    } else {
      EscapedUnfold(a + b);
      EscapedPlain(a[0]);
      EscapedLaws(a[1..], b);
      assert (a + b)[1..] == a[1..] + b;
      assert a == [a[0]] + a[1..];
      assert Escaped(a + b) == EscapedByte(a[0]) + (Escaped(a[1..]) + Escaped(b));
    }
  }

  lemma EscapedPlain(b: byte)
    ensures b != 34 && b != 92 ==> EscapedByte(b) == [b]
  {
  }

  lemma EscapedSpecial()
    ensures Escaped([34]) == [92, 34] && Escaped([92]) == [92, 92]
  {
    EscapedUnfold([34]);
    EscapedUnfold([92]);
    assert [34][1..] == [] && [92][1..] == [];
  }

  /** White space: a space, or one of the control characters from tab to carriage return. */
  predicate Blank(run: seq<byte>) {
    forall i :: 0 <= i < |run| ==> run[i] == 32 || 9 <= run[i] <= 13
  }

  /** A byte between quotes, with a backslash before it or without. */
  datatype Piece = Escape(b: byte) | Verbatim(b: byte)

  /**
    Only quotes and backslashes are escaped. A quote always is; a backslash may stand alone where what
    follows is neither of the two.
   */
  predicate ValidPieces(pieces: seq<Piece>, closed: bool) {
    pieces != [] ==>
      && ValidPieces(pieces[1..], closed)
      && match pieces[0]
         case Escape(b) => b == 34 || b == 92
         case Verbatim(b) =>
           b != 34 && (b == 92 ==> if |pieces| > 1 then pieces[1].Verbatim? && pieces[1].b != 92 else !closed)
  }

  function PiecesText(pieces: seq<Piece>): seq<byte> {
    if pieces == [] then [] else [pieces[0].b] + PiecesText(pieces[1..])
  }

  function PiecesSpelled(pieces: seq<Piece>): seq<byte> {
    if pieces == [] then []
    else (if pieces[0].Escape? then [92, pieces[0].b] else [pieces[0].b]) + PiecesSpelled(pieces[1..])
  }

  /** The last quoted word of a line may lack its closing quote. */
  datatype Word = Bare(bytes: seq<byte>) | InQuotes(pieces: seq<Piece>, closed: bool)
  {
    /** A word without quotes around it ends at white space and does not start with a quote. */
    predicate Valid() {
      match this
      case Bare(bytes) =>
        bytes != [] && bytes[0] != 34 && forall i :: 0 <= i < |bytes| ==> bytes[i] != 32 && !(9 <= bytes[i] <= 13)
      case InQuotes(pieces, closed) => ValidPieces(pieces, closed)
    }

    function Text(): seq<byte> {
      if Bare? then bytes else PiecesText(pieces)
    }

    function Spelled(): seq<byte> {
      if Bare? then bytes else [34] + PiecesSpelled(pieces) + if closed then [34] else []
    }
  }

  predicate ValidLayout(words: seq<Word>, gaps: seq<seq<byte>>) {
    && |gaps| == |words| + 1
    && (forall i :: 0 <= i < |words| ==> words[i].Valid())
    && (forall i :: 0 <= i < |gaps| ==> Blank(gaps[i]))
    && (forall i :: 0 < i < |words| && gaps[i] == [] ==> words[i - 1].InQuotes?)
    && (forall i :: 0 <= i < |words| && words[i].InQuotes? && !words[i].closed ==> i == |words| - 1 && gaps[|words|] == [])
  }

  /** The words with the gaps before, between and behind them. */
  function Layout(words: seq<Word>, gaps: seq<seq<byte>>): seq<byte>
    requires |gaps| == |words| + 1
  {
    if words == [] then gaps[0] else gaps[0] + words[0].Spelled() + Layout(words[1..], gaps[1..])
  }

  /** Where a word starts. */
  function Offset(words: seq<Word>, gaps: seq<seq<byte>>, k: nat): nat
    requires |gaps| == |words| + 1 && k < |words|
  {
    |gaps[0]| + if k == 0 then 0 else |words[0].Spelled()| + Offset(words[1..], gaps[1..], k - 1)
  }

  lemma {:induction false} BlankIsSkipped(s: cstring, at: nat, n: nat, k: int)
    requires at + n <= |s| && Blank(s[at..at + n])
    ensures FindToken(s, at, k) == FindToken(s, at + n, k)
    decreases n
  {
    hide FindToken;
    if n > 0 {
      assert s[at..at + n][0] == s[at] && s[at + 1..at + n] == s[at..at + n][1..];
      FindTokenAfterSpace(s, at, k);
      BlankIsSkipped(s, at + 1, n - 1, k);
    }
  }

  lemma {:induction false} PlainEndIs(s: cstring, at: nat, n: nat)
    requires at + n <= |s| && (at + n < |s| ==> IsSpace(s[at + n]))
    requires forall i :: at <= i < at + n ==> !IsSpace(s[i])
    ensures PlainEnd(s, at) == at + n
    decreases n
  {
    if n > 0 {
      PlainEndIs(s, at + 1, n - 1);
    }
  }

  /** Reading pieces up to the closing quote or the end of the string gives their bytes. */
  lemma {:induction false} QuotedTextOfPieces(s: cstring, at: nat, pieces: seq<Piece>, closed: bool)
    requires ValidPieces(pieces, closed) && at + |PiecesSpelled(pieces)| <= |s|
    requires s[at..at + |PiecesSpelled(pieces)|] == PiecesSpelled(pieces)
    requires if closed then at + |PiecesSpelled(pieces)| < |s| && s[at + |PiecesSpelled(pieces)|] == 34
             else at + |PiecesSpelled(pieces)| == |s|
    ensures QuotedText(s, at) == PiecesText(pieces)
    ensures QuotedEnd(s, at) == at + |PiecesSpelled(pieces)| + if closed then 1 else 0
    decreases |pieces|
  {
    hide QuotedText, QuotedEnd, ValidPieces, PiecesSpelled, PiecesText, IsEscape;
    PiecesUnfold(pieces);
    if pieces == [] {
      if closed {
        QuotedEnds(s, at);
      } else {
        QuotedTextAtEnd(s);
      }
    } else {
      var piece, rest := pieces[0], PiecesSpelled(pieces[1..]);
      var first := if piece.Escape? then [92, piece.b] else [piece.b];
      SliceOfConcat(s, at, first, rest);
      FirstPiece(s, at, pieces, closed);
      QuotedUnfold(s, at);
      QuotedTextOfPieces(s, at + |first|, pieces[1..], closed);
    }
  }

  lemma PiecesUnfold(pieces: seq<Piece>)
    ensures PiecesText(pieces) == if pieces == [] then [] else [pieces[0].b] + PiecesText(pieces[1..])
    ensures PiecesSpelled(pieces) ==
              if pieces == [] then []
              else (if pieces[0].Escape? then [92, pieces[0].b] else [pieces[0].b]) + PiecesSpelled(pieces[1..])
  {
  }

  lemma FirstPiece(s: cstring, at: nat, pieces: seq<Piece>, closed: bool)
    requires pieces != [] && ValidPieces(pieces, closed)
    requires var first := if pieces[0].Escape? then [92, pieces[0].b] else [pieces[0].b];
             var next, rest := at + |first|, PiecesSpelled(pieces[1..]);
             && next + |rest| <= |s| && s[at..next] == first && s[next..next + |rest|] == rest
             && (!closed ==> next + |rest| == |s|)
    ensures ValidPieces(pieces[1..], closed)
    ensures IsEscape(s, at) <==> pieces[0].Escape?
    ensures if pieces[0].Escape? then s[at + 1] == pieces[0].b else s[at] == pieces[0].b != QUOTE
  {
    var first := if pieces[0].Escape? then [92, pieces[0].b] else [pieces[0].b];
    var next, rest := at + |first|, PiecesSpelled(pieces[1..]);
    assert s[at] == s[at..next][0] && (pieces[0].Escape? ==> s[at + 1] == s[at..next][1]);
    if |pieces| > 1 {
      assert s[next] == rest[0];
    }
  }

  /** One word; a bare one at the end of the string or followed by white space. */
  lemma WordToken(s: cstring, at: nat, word: Word)
    requires word.Valid() && at + |word.Spelled()| <= |s| && s[at..at + |word.Spelled()|] == word.Spelled()
    requires word.Bare? && at + |word.Spelled()| < |s| ==> IsSpace(s[at + |word.Spelled()|])
    requires word.InQuotes? && !word.closed ==> at + |word.Spelled()| == |s|
    ensures at < |s| && !IsSpace(s[at])
    ensures TokenText(s, at) == word.Text() && TokenEnd(s, at) == at + |word.Spelled()|
  {
    hide QuotedText, QuotedEnd, PlainEnd, ValidPieces, PiecesSpelled, PiecesText;
    var spelled := word.Spelled();
    assert forall i :: 0 <= i < |spelled| ==> s[at + i] == spelled[i];
    if word.Bare? {
      assert forall i :: at <= i < at + |spelled| ==> s[i] == spelled[i - at];
      PlainEndIs(s, at, |spelled|);
    } else {
      var inside := PiecesSpelled(word.pieces);
      assert s[at + 1..at + 1 + |inside|] == spelled[1..1 + |inside|] == inside;
      QuotedTextOfPieces(s, at + 1, word.pieces, word.closed);
    }
  }

  lemma LayoutParts(s: cstring, at: nat, words: seq<Word>, gaps: seq<seq<byte>>) returns (next: nat)
    requires ValidLayout(words, gaps) && words != [] && at <= |s| && s[at..] == Layout(words, gaps)
    ensures var start := at + |gaps[0]|;
            && next == start + |words[0].Spelled()| <= |s|
            && s[at..start] == gaps[0] && s[start..next] == words[0].Spelled()
            && s[next..] == Layout(words[1..], gaps[1..]) && ValidLayout(words[1..], gaps[1..])
            && (words[0].Bare? && next < |s| ==> IsSpace(s[next]))
            && (words[0].InQuotes? && !words[0].closed ==> next == |s|)
  {
    hide Word.Spelled, Word.Valid;
    var more := Layout(words[1..], gaps[1..]);
    var start := at + |gaps[0]|;
    next := start + |words[0].Spelled()|;
    assert s[at..] == gaps[0] + words[0].Spelled() + more;
    assert s[at..][..|gaps[0]|] == gaps[0] && s[at..][|gaps[0]|..next - at] == words[0].Spelled() && s[at..][next - at..] == more;
    assert s[at..start] == s[at..][..|gaps[0]|] && s[start..next] == s[at..][|gaps[0]|..next - at];
    assert s[next..] == more;
    if next < |s| && words[0].Bare? {
      GapFollows(words[1..], gaps[1..]);
      assert s[next] == more[0];
    }
  }

  lemma GapFollows(words: seq<Word>, gaps: seq<seq<byte>>)
    requires |gaps| == |words| + 1 && Blank(gaps[0]) && (words != [] ==> gaps[0] != [])
    ensures Layout(words, gaps) != [] ==> IsSpace(Layout(words, gaps)[0])
  {
    hide Word.Spelled;
  }

  /** Token `k` is word `k`, at its place. */
  lemma {:induction false} LayoutTokens(s: cstring, at: nat, words: seq<Word>, gaps: seq<seq<byte>>, k: int)
    requires ValidLayout(words, gaps) && at <= |s| && s[at..] == Layout(words, gaps)
    ensures 0 <= k < |words| ==>
              && FindToken(s, at, k) == Some(at + Offset(words, gaps, k))
              && TokenText(s, at + Offset(words, gaps, k)) == words[k].Text()
    ensures !(0 <= k < |words|) ==> FindToken(s, at, k).None?
    decreases |words|
  {
    hide FindToken, TokenText, TokenEnd, IsSpace, Layout, Blank, Word.Spelled, Word.Valid, Word.Text;
    if words == [] {
      OnlyBlank(s, at, gaps);
      BlankIsSkipped(s, at, |s| - at, k);
      NoTokenLeft(s, k);
    } else {
      var next := LayoutParts(s, at, words, gaps);
      var start := at + |gaps[0]|;
      FirstOfLayout(words, gaps);
      WordToken(s, start, words[0]);
      BlankIsSkipped(s, at, |gaps[0]|, k);
      FindTokenStep(s, start, k);
      LayoutTokens(s, next, words[1..], gaps[1..], k - 1);
    }
  }

  lemma OnlyBlank(s: cstring, at: nat, gaps: seq<seq<byte>>)
    requires ValidLayout([], gaps) && at <= |s| && s[at..] == Layout([], gaps)
    ensures Blank(s[at..at + (|s| - at)])
  {
    assert s[at..at + (|s| - at)] == s[at..];
  }

  lemma FirstOfLayout(words: seq<Word>, gaps: seq<seq<byte>>)
    requires ValidLayout(words, gaps) && words != []
    ensures words[0].Valid() && Blank(gaps[0])
  {
  }

  /**
    A line of words, bare or quoted, with white space between and around them: every index is answered with
    the word's text as far as the static buffer can hold it, or with the place where the word starts.
   */
  lemma ParsedLayout(s: cstring, words: seq<Word>, gaps: seq<seq<byte>>, k: int)
    requires ValidLayout(words, gaps) && s == Layout(words, gaps)
    ensures ParsedArgument(s, k, false) ==
            if 0 <= k < |words| && words[k].Text() != [] then
              (OutBuf, if |words[k].Text()| <= 2047 then words[k].Text() else words[k].Text()[..2047])
            else (Null, [])
    ensures ParsedArgument(s, k, true) ==
            if 0 <= k < |words| then (IntoString(Offset(words, gaps, k)), []) else (Null, [])
  {
    hide FindToken, TokenText, Layout, Offset, Blank, Word.Text, Word.Valid;
    assert s[0..] == s;
    LayoutTokens(s, 0, words, gaps, k);
  }

  /** The part of a quoted token from `at` on, byte by byte. */
  lemma {:induction false} PiecesOf(s: cstring, at: nat) returns (pieces: seq<Piece>, closed: bool)
    requires at <= |s|
    ensures ValidPieces(pieces, closed)
    ensures s[at..QuotedEnd(s, at)] == PiecesSpelled(pieces) + if closed then [34] else []
    ensures !closed ==> QuotedEnd(s, at) == |s|
    ensures at == |s| ==> pieces == [] && !closed
    ensures at < |s| && !IsSpecial(s[at]) ==> pieces != [] && pieces[0] == Verbatim(s[at])
    decreases |s| - at
  {
    hide QuotedEnd, IsEscape, IsSpecial, ValidPieces, PiecesSpelled;
    if at == |s| {
      QuotedTextAtEnd(s);
      NoPieces();
      return [], false;
    }
    QuotedUnfold(s, at);
    EscapeStarts(s, at);
    if !IsEscape(s, at) && s[at] == QUOTE {
      NoPieces();
      return [], true;
    }
    var n := if IsEscape(s, at) then 2 else 1;
    var more;
    more, closed := PiecesOf(s, at + n);
    PiecesCons(s, at, more, closed);
    pieces := [if IsEscape(s, at) then Escape(s[at + 1]) else Verbatim(s[at])] + more;
    assert s[at..QuotedEnd(s, at)] == s[at..at + n] + s[at + n..QuotedEnd(s, at)];
  }

  lemma NoPieces()
    ensures PiecesSpelled([]) == [] && ValidPieces([], true) && ValidPieces([], false)
  {
  }

  lemma EscapeStarts(s: cstring, at: nat)
    requires at < |s|
    ensures IsEscape(s, at) ==> at + 2 <= |s| && s[at] == BACKSLASH
    ensures IsSpecial(s[at]) <==> s[at] == BACKSLASH || s[at] == QUOTE
  {
  }

  lemma PiecesCons(s: cstring, at: nat, more: seq<Piece>, closed: bool)
    requires at < |s| && (IsEscape(s, at) || s[at] != QUOTE) && ValidPieces(more, closed)
    requires var next := at + if IsEscape(s, at) then 2 else 1;
             && (next == |s| ==> more == [] && !closed)
             && (next < |s| && !IsSpecial(s[next]) ==> more != [] && more[0] == Verbatim(s[next]))
    ensures var pieces := [if IsEscape(s, at) then Escape(s[at + 1]) else Verbatim(s[at])] + more;
            && ValidPieces(pieces, closed)
            && PiecesSpelled(pieces) == s[at..at + if IsEscape(s, at) then 2 else 1] + PiecesSpelled(more)
  {
    var pieces := [if IsEscape(s, at) then Escape(s[at + 1]) else Verbatim(s[at])] + more;
    assert pieces[1..] == more;
  }

  lemma {:induction false} LayoutFrom(s: cstring, at: nat) returns (words: seq<Word>, gaps: seq<seq<byte>>)
    requires at <= |s|
    ensures ValidLayout(words, gaps) && s[at..] == Layout(words, gaps) && gaps[0] == s[at..SkipSpaces(s, at)]
    ensures at == |s| ==> words == [] && gaps == [[]]
    decreases |s| - at
  {
    hide Word.Valid, Word.Spelled, TokenEnd, IsSpace, Blank, SkipSpaces, Layout;
    var start := SkipSpaces(s, at);
    SkippedIsBlank(s, at);
    if start == |s| {
      assert s[at..start] == s[at..];
      words, gaps := [], [s[at..start]];
      NoWords(gaps);
      return;
    }
    var end := TokenEnd(s, start);
    var word := TokenWord(s, start);
    var moreWords, moreGaps := LayoutFrom(s, end);
    LayoutCons(word, s[at..start], moreWords, moreGaps);
    words, gaps := [word] + moreWords, [s[at..start]] + moreGaps;
    assert s[at..] == s[at..start] + s[start..end] + s[end..];
    GapAfterToken(s, end);
  }

  lemma NoWords(gaps: seq<seq<byte>>)
    requires |gaps| == 1
    ensures Layout([], gaps) == gaps[0]
  {
  }

  lemma GapAfterToken(s: cstring, end: nat)
    requires end <= |s|
    ensures s[end..SkipSpaces(s, end)] == [] <==> end == |s| || !IsSpace(s[end])
  {
  }

  lemma LayoutCons(word: Word, gap: seq<byte>, words: seq<Word>, gaps: seq<seq<byte>>)
    requires |gaps| == |words| + 1
    ensures Layout([word] + words, [gap] + gaps) == gap + word.Spelled() + Layout(words, gaps)
  {
    hide Word.Spelled;
    assert ([word] + words)[1..] == words && ([gap] + gaps)[1..] == gaps;
  }

  /** The word that a token is. */
  lemma TokenWord(s: cstring, start: nat) returns (word: Word)
    requires start < |s| && !IsSpace(s[start])
    ensures word.Valid() && word.Spelled() == s[start..TokenEnd(s, start)]
    ensures word.Bare? && TokenEnd(s, start) < |s| ==> IsSpace(s[TokenEnd(s, start)])
    ensures word.InQuotes? && !word.closed ==> TokenEnd(s, start) == |s|
  {
    hide ValidPieces, PiecesSpelled, QuotedEnd, PlainEnd;
    var end := TokenEnd(s, start);
    if s[start] == 34 {
      var pieces, closed := PiecesOf(s, start + 1);
      word := InQuotes(pieces, closed);
      assert s[start..end] == [34] + s[start + 1..end];
    } else {
      PlainIsBare(s, start);
      word := Bare(s[start..end]);
      assert forall i :: 0 <= i < end - start ==> word.bytes[i] == s[start + i];
    }
  }

  lemma {:induction false} SkippedIsBlank(s: cstring, at: nat)
    requires at <= |s|
    ensures Blank(s[at..SkipSpaces(s, at)])
    decreases |s| - at
  {
    var next := SkipSpaces(s, at);
    if at < next {
      SkippedIsBlank(s, at + 1);
      assert s[at..next] == [s[at]] + s[at + 1..next];
    }
  }

  lemma {:induction false} PlainIsBare(s: cstring, at: nat)
    requires at <= |s|
    ensures forall i :: at <= i < PlainEnd(s, at) ==> !IsSpace(s[i])
    ensures PlainEnd(s, at) < |s| ==> IsSpace(s[PlainEnd(s, at)])
    decreases |s| - at
  {
    if at < |s| && !IsSpace(s[at]) {
      PlainIsBare(s, at + 1);
    }
  }

  /** Every line there is can be laid out like that, so that `ParsedLayout` says what is returned for any line. */
  lemma EveryLineHasLayout(s: cstring) returns (words: seq<Word>, gaps: seq<seq<byte>>)
    ensures ValidLayout(words, gaps) && s == Layout(words, gaps)
  {
    words, gaps := LayoutFrom(s, 0);
    assert s[0..] == s;
  }
}
