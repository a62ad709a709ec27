/**
  UTF-8: the grammar of section 4 of RFC 3629, the encoder, the decoder state machine and the
  validity check of `str.cpp`.
 */
module Utf8 {
  import opened Machine

  /** The bytes of a C string before its terminating NUL. */
  type cstring = s: seq<byte> | forall k :: 0 <= k < |s| ==> s[k] != 0

  /** What a pointer at offset `i` of the string reads: the terminating NUL right after its last byte. */
  function ByteAt(s: cstring, i: nat): byte
    requires i <= |s|
  {
    if i < |s| then s[i] else 0
  }

  // ---------------------------------------------------------------------------------------------
  // The grammar
  // ---------------------------------------------------------------------------------------------

  predicate IsTail(b: byte) {
    0x80 <= b <= 0xBF
  }

  /** UTF8-char of section 4 of RFC 3629. */
  predicate IsUtf8Char(s: seq<byte>) {
    match |s|
    case 1 => s[0] <= 0x7F
    case 2 => 0xC2 <= s[0] <= 0xDF && IsTail(s[1])
    case 3 =>
      && IsTail(s[2])
      && (|| (s[0] == 0xE0 && 0xA0 <= s[1] <= 0xBF)
          || (0xE1 <= s[0] <= 0xEC && IsTail(s[1]))
          || (s[0] == 0xED && 0x80 <= s[1] <= 0x9F)
          || (0xEE <= s[0] <= 0xEF && IsTail(s[1])))
    case 4 =>
      && IsTail(s[2]) && IsTail(s[3])
      && (|| (s[0] == 0xF0 && 0x90 <= s[1] <= 0xBF)
          || (0xF1 <= s[0] <= 0xF3 && IsTail(s[1]))
          || (s[0] == 0xF4 && 0x80 <= s[1] <= 0x8F))
    case _ => false
  }

  /** The bits of a UTF8-char put together, as in section 3 of RFC 3629. */
  function ScalarOf(s: seq<byte>): int
    requires IsUtf8Char(s)
  {
    match |s|
    case 1 => s[0]
    case 2 => (s[0] as int - 0xC0) * 64 + (s[1] as int - 0x80)
    case 3 => (s[0] as int - 0xE0) * 4096 + (s[1] as int - 0x80) * 64 + (s[2] as int - 0x80)
    case _ =>
      (s[0] as int - 0xF0) * 262144 + (s[1] as int - 0x80) * 4096 + (s[2] as int - 0x80) * 64 + (s[3] as int - 0x80)
  }

  /** The characters a Unicode string may contain: all code points except the surrogates. */
  predicate IsScalarValue(c: int) {
    0 <= c <= 0xD7FF || 0xE000 <= c <= 0x10FFFF
  }

  /** The first byte of a UTF8-char tells its length. */
  function CharLen(lead: byte): nat {
    if lead <= 0x7F then 1
    else if 0xC2 <= lead <= 0xDF then 2
    else if 0xE0 <= lead <= 0xEF then 3
    else if 0xF0 <= lead <= 0xF4 then 4
    else 0
  }

  /** UTF8-octets of the same section, read from the front; see `WellFormedMeansUtf8Octets`. */
  ghost predicate WellFormed(s: seq<byte>) {
    s == [] ||
    var k := CharLen(s[0]);
    0 < k <= |s| && IsUtf8Char(s[..k]) && WellFormed(s[k..])
  }

  function Concat(parts: seq<seq<byte>>): seq<byte> {
    if parts == [] then [] else parts[0] + Concat(parts[1..])
  }

  ghost predicate AreUtf8Chars(chars: seq<seq<byte>>) {
    forall i :: 0 <= i < |chars| ==> IsUtf8Char(chars[i])
  }

  lemma CharLenOfChar(s: seq<byte>, k: nat)
    requires k <= |s| && IsUtf8Char(s[..k])
    ensures k > 0 && CharLen(s[0]) == k
  {
    assert s[..k][0] == s[0];
  }

  lemma {:induction false} CharsAreWellFormed(chars: seq<seq<byte>>)
    requires AreUtf8Chars(chars)
    ensures WellFormed(Concat(chars))
  {
    if chars != [] {
      CharsAreWellFormed(chars[1..]);
      PrependIsWellFormed(chars[0], Concat(chars[1..]));
    }
  }

  lemma PrependIsWellFormed(c: seq<byte>, rest: seq<byte>)
    requires IsUtf8Char(c) && WellFormed(rest)
    ensures WellFormed(c + rest)
  {
    var s := c + rest;
    assert s[..|c|] == c && s[|c|..] == rest;
    CharLenOfChar(s, |c|);
  }

  lemma {:induction false} WellFormedSplits(s: seq<byte>) returns (chars: seq<seq<byte>>)
    requires WellFormed(s)
    ensures AreUtf8Chars(chars) && Concat(chars) == s
  {
    if s == [] {
      chars := [];
    } else {
      var k := CharLen(s[0]);
      var rest := WellFormedSplits(s[k..]);
      chars := [s[..k]] + rest;
      assert chars[1..] == rest;
      assert s[..k] + s[k..] == s;
    }
  }

  /** Well-formed strings are exactly the concatenations of UTF8-chars. */
  lemma WellFormedMeansUtf8Octets(s: seq<byte>)
    ensures WellFormed(s) <==> exists chars :: AreUtf8Chars(chars) && Concat(chars) == s
  {
    if WellFormed(s) {
      var chars := WellFormedSplits(s);
    }
    if chars :| AreUtf8Chars(chars) && Concat(chars) == s {
      CharsAreWellFormed(chars);
    }
  }

  // ---------------------------------------------------------------------------------------------
  // The decoder
  // ---------------------------------------------------------------------------------------------

  /** How many bytes the decoder expects after a first byte. */
  function Needed(lead: byte): nat {
    if CharLen(lead) == 0 then 0 else CharLen(lead) - 1
  }

  function LowerBoundary(lead: byte): byte {
    if lead == 0xE0 then 0xA0 else if lead == 0xF0 then 0x90 else 0x80
  }

  function UpperBoundary(lead: byte): byte {
    if lead == 0xED then 0x9F else if lead == 0xF4 then 0x8F else 0xBF
  }

  function LeadBits(lead: byte): int {
    if lead <= 0x7F then lead
    else if lead <= 0xDF then lead - 0xC0
    else if lead <= 0xEF then lead - 0xE0
    else lead - 0xF0
  }

  /** The code point and the new position after the decoder has read at `at`; -1 is an error. */
  function Decoded(s: cstring, at: nat): (r: (int, nat))
    requires at <= |s|
    ensures at < r.1 <= |s| + 1
    ensures r.1 == |s| + 1 <==> at == |s|
    ensures -1 <= r.0
    ensures r.0 == 0 <==> at == |s|
  {
    var lead := ByteAt(s, at);
    if CharLen(lead) == 0 then (-1, at + 1)
    else DecodedTail(s, at + 1, LowerBoundary(lead), UpperBoundary(lead), Needed(lead), LeadBits(lead))
  }

  /** The rest of a character: `needed` more bytes, the first of them between `lower` and `upper`. */
  function DecodedTail(s: cstring, at: nat, lower: byte, upper: byte, needed: nat, codePoint: int): (r: (int, nat))
    requires needed > 0 ==> at <= |s|
    requires 0x80 <= lower && upper <= 0xBF && 0 <= codePoint
    requires needed > 0 ==> codePoint > 0 || lower > 0x80
    ensures if needed == 0 then r == (codePoint, at) else at <= r.1 <= |s| && (r.0 == -1 || r.0 > 0)
    decreases needed
  {
    if needed == 0 then (codePoint, at)
    else
      var b := ByteAt(s, at);
      if !(lower <= b <= upper) then (-1, at)
      else DecodedTail(s, at + 1, 0x80, 0xBF, needed - 1, codePoint * 64 + (b - 0x80))
  }

  /** 64 to the power `k`, what a left shift by `6 * k` multiplies with. */
  function Pow64(k: nat): nat {
    if k == 0 then 1 else 64 * Pow64(k - 1)
  }

  /** `str_utf8_decode`: the state machine, which advances `next` over the bytes it accepts. */
  method Decode(s: cstring, at: nat) returns (codePoint: int, next: nat)
    requires at <= |s|
    ensures (codePoint, next) == Decoded(s, at)
  {
    hide Decoded, DecodedTail, Pow64;
    next := at;
    DecodedUnfold(s, at);
    var lowerBoundary: byte := 0x80;
    var upperBoundary: byte := 0xBF;
    var bits := 0;
    var bytesSeen := 0;
    var bytesNeeded := 0;
    // The bits collected so far, before they are shifted into place.
    ghost var collected := 0;
    while true
      invariant 0 <= bytesSeen <= bytesNeeded <= 3
      invariant 0x80 <= lowerBoundary && upperBoundary <= 0xBF
      invariant bytesNeeded == 0 ==> next == at && lowerBoundary == 0x80 && upperBoundary == 0xBF
      invariant bytesNeeded != 0 ==>
        && bytesSeen < bytesNeeded
        && next <= |s|
        && 0 <= collected
        && (collected > 0 || lowerBoundary > 0x80)
        && bits == collected * Pow64(bytesNeeded - bytesSeen)
        && DecodedTail(s, next, lowerBoundary, upperBoundary, bytesNeeded - bytesSeen, collected) == Decoded(s, at)
      decreases bytesNeeded == 0, bytesNeeded - bytesSeen
    {
      var b := ByteAt(s, next);
      next := next + 1;
      if bytesNeeded == 0 {
        if b <= 0x7F {
          return b, next;
        } else if 0xC2 <= b <= 0xDF {
          bytesNeeded := 1;
          bits := b - 0xC0;
        } else if 0xE0 <= b <= 0xEF {
          if b == 0xE0 {
            lowerBoundary := 0xA0;
          }
          if b == 0xED {
            upperBoundary := 0x9F;
          }
          bytesNeeded := 2;
          bits := b - 0xE0;
        } else if 0xF0 <= b <= 0xF4 {
          if b == 0xF0 {
            lowerBoundary := 0x90;
          }
          if b == 0xF4 {
            upperBoundary := 0x8F;
          }
          bytesNeeded := 3;
          bits := b - 0xF0;
        } else {
          return -1, next;
        }
        collected := bits;
        bits := bits * Pow64(bytesNeeded);
        continue;
      }
      DecodedTailUnfold(s, next - 1, lowerBoundary, upperBoundary, bytesNeeded - bytesSeen, collected);
      if !(lowerBoundary <= b <= upperBoundary) {
        return -1, next - 1;
      }
      lowerBoundary := 0x80;
      upperBoundary := 0xBF;
      bytesSeen := bytesSeen + 1;
      ShiftIn(collected, b - 0x80, bytesNeeded - bytesSeen);
      collected := collected * 64 + (b - 0x80);
      bits := bits + (b - 0x80) * Pow64(bytesNeeded - bytesSeen);
      if bytesSeen != bytesNeeded {
        continue;
      }
      return bits, next;
    }
  }

  lemma DecodedUnfold(s: cstring, at: nat)
    requires at <= |s|
    ensures Decoded(s, at) ==
              var lead := ByteAt(s, at);
              if CharLen(lead) == 0 then (-1, at + 1)
              else if Needed(lead) == 0 then (LeadBits(lead), at + 1)
              else DecodedTail(s, at + 1, LowerBoundary(lead), UpperBoundary(lead), Needed(lead), LeadBits(lead))
  {
  }

  lemma DecodedTailUnfold(s: cstring, at: nat, lower: byte, upper: byte, needed: nat, codePoint: int)
    requires needed > 0 && at <= |s| && 0x80 <= lower && upper <= 0xBF && 0 <= codePoint && (codePoint > 0 || lower > 0x80)
    ensures DecodedTail(s, at, lower, upper, needed, codePoint) ==
              var b := ByteAt(s, at);
              if !(lower <= b <= upper) then (-1, at)
              else if needed == 1 then (codePoint * 64 + (b - 0x80), at + 1)
              else DecodedTail(s, at + 1, 0x80, 0xBF, needed - 1, codePoint * 64 + (b - 0x80))
    ensures Pow64(0) == 1
  {
  }

  lemma ShiftIn(collected: int, more: int, k: nat)
    ensures collected * Pow64(k + 1) + more * Pow64(k) == (collected * 64 + more) * Pow64(k)
  {
  }

  /** The string with its terminating NUL. */
  function Terminated(s: cstring): (z: seq<byte>)
    ensures |z| == |s| + 1 && forall i :: 0 <= i <= |s| ==> z[i] == ByteAt(s, i)
  {
    s + [0]
  }

  /** A UTF8-char at the position is decoded to its code point, and exactly its bytes are consumed. */
  lemma DecodesChars(s: cstring, at: nat, end: nat)
    requires at < end <= |s| + 1 && IsUtf8Char(Terminated(s)[at..end])
    ensures Decoded(s, at) == (ScalarOf(Terminated(s)[at..end]), end)
  {
    var z := Terminated(s);
    var c := z[at..end];
    assert c[0] == z[at] && CharLen(c[0]) == end - at;
    if |c| >= 2 {
      assert c[1] == z[at + 1];
    }
    if |c| >= 3 {
      assert c[2] == z[at + 2];
    }
    if |c| >= 4 {
      assert c[3] == z[at + 3];
    }
  }

  lemma {:induction false} DecodedTailLength(s: cstring, at: nat, lower: byte, upper: byte, needed: nat, codePoint: int)
    requires needed > 0 ==> at <= |s|
    requires 0x80 <= lower && upper <= 0xBF && 0 <= codePoint
    requires needed > 0 ==> codePoint > 0 || lower > 0x80
    requires DecodedTail(s, at, lower, upper, needed, codePoint).0 != -1
    ensures DecodedTail(s, at, lower, upper, needed, codePoint).1 == at + needed
    ensures needed > 0 ==> at + needed <= |s| && lower <= ByteAt(s, at) <= upper
    ensures forall j :: at < j < at + needed ==> IsTail(ByteAt(s, j))
    decreases needed
  {
    if needed > 0 {
      var next := codePoint * 64 + (ByteAt(s, at) - 0x80);
      DecodedTailLength(s, at + 1, 0x80, 0xBF, needed - 1, next);
    }
  }

  /** Whatever the decoder accepts is a UTF8-char. */
  lemma DecodesOnlyChars(s: cstring, at: nat)
    requires at <= |s| && Decoded(s, at).0 != -1
    ensures IsUtf8Char(Terminated(s)[at..Decoded(s, at).1])
  {
    var z := Terminated(s);
    var end := Decoded(s, at).1;
    var lead := ByteAt(s, at);
    DecodedTailLength(s, at + 1, LowerBoundary(lead), UpperBoundary(lead), Needed(lead), LeadBits(lead));
    var c := z[at..end];
    assert forall j :: at <= j < end ==> c[j - at] == ByteAt(s, j);
  }

  /**
    The decoder accepts exactly the UTF8-chars, by their scalar value and their full length;
    everything else is an error, after which it has moved on by at least one byte and not past the
    terminating NUL.
   */
  lemma DecoderMeetsGrammar(s: cstring, at: nat)
    requires at <= |s|
    ensures var (codePoint, next) := Decoded(s, at);
            && (codePoint != -1 ==>
                  IsUtf8Char(Terminated(s)[at..next]) && codePoint == ScalarOf(Terminated(s)[at..next]))
            && (codePoint == -1 ==>
                  next <= |s| && forall end :: at < end <= |s| + 1 ==> !IsUtf8Char(Terminated(s)[at..end]))
  {
    if Decoded(s, at).0 != -1 {
      DecodesOnlyChars(s, at);
      DecodesChars(s, at, Decoded(s, at).1);
    } else {
      forall end | at < end <= |s| + 1
        ensures !IsUtf8Char(Terminated(s)[at..end])
      {
        if IsUtf8Char(Terminated(s)[at..end]) {
          DecodesChars(s, at, end);
        }
      }
    }
  }

  // ---------------------------------------------------------------------------------------------
  // The encoder
  // ---------------------------------------------------------------------------------------------

  /** The bytes `str_utf8_encode` stores; none for a number past the last code point. */
  function Encoded(chr: int): seq<byte> {
    if chr <= 0x7F then [chr % 256]
    else if chr <= 0x7FF then [0xC0 + chr / 64 % 32, 0x80 + chr % 64]
    else if chr <= 0xFFFF then [0xE0 + chr / 4096 % 16, 0x80 + chr / 64 % 64, 0x80 + chr % 64]
    else if chr <= 0x10FFFF then
      [0xF0 + chr / 262144 % 8, 0x80 + chr / 4096 % 64, 0x80 + chr / 64 % 64, 0x80 + chr % 64]
    else []
  }

  /** `str_utf8_encode`. */
  method Encode(dst: array<byte>, chr: int) returns (n: nat)
    requires dst.Length >= |Encoded(chr)|
    modifies dst
    ensures n == |Encoded(chr)|
    ensures dst[..] == Encoded(chr) + old(dst[..])[n..]
  {
    if chr <= 0x7F {
      dst[0] := chr % 256;
      return 1;
    } else if chr <= 0x7FF {
      dst[0] := 0xC0 + chr / 64 % 32;
      dst[1] := 0x80 + chr % 64;
      return 2;
    } else if chr <= 0xFFFF {
      dst[0] := 0xE0 + chr / 4096 % 16;
      dst[1] := 0x80 + chr / 64 % 64;
      dst[2] := 0x80 + chr % 64;
      return 3;
    } else if chr <= 0x10FFFF {
      dst[0] := 0xF0 + chr / 262144 % 8;
      dst[1] := 0x80 + chr / 4096 % 64;
      dst[2] := 0x80 + chr / 64 % 64;
      dst[3] := 0x80 + chr % 64;
      return 4;
    }
    return 0;
  }

  /** Two digits in base 64 are a quotient and a remainder. */
  lemma Split64(high: int, low: int)
    requires 0 <= low < 64
    ensures (high * 64 + low) / 64 == high && (high * 64 + low) % 64 == low
  {
  }

  lemma Sextets(chr: int)
    ensures chr / 64 / 64 == chr / 4096 && chr / 64 / 64 / 64 == chr / 262144
    ensures chr == chr / 64 * 64 + chr % 64
    ensures chr / 64 == chr / 4096 * 64 + chr / 64 % 64
    ensures chr / 4096 == chr / 262144 * 64 + chr / 4096 % 64
  {
  }

  lemma LongFormMeetsGrammar(chr: int)
    requires 0x10000 <= chr <= 0x10FFFF
    ensures IsUtf8Char(Encoded(chr)) && ScalarOf(Encoded(chr)) == chr
  {
    Sextets(chr);
    var top, second := chr / 262144, chr / 4096 % 64;
    assert 0 <= top <= 4 && top % 8 == top;
    var c := Encoded(chr);
    assert c[0] == 0xF0 + top && c[1] == 0x80 + second;
    assert top * 64 + second == chr / 4096;
    assert 16 <= top * 64 + second < 272;
  }

  lemma MiddleFormMeetsGrammar(chr: int)
    requires 0x800 <= chr <= 0xFFFF
    ensures IsUtf8Char(Encoded(chr)) <==> IsScalarValue(chr)
    ensures IsScalarValue(chr) ==> ScalarOf(Encoded(chr)) == chr
  {
    Sextets(chr);
    var top, second := chr / 4096, chr / 64 % 64;
    assert 0 <= top <= 15 && top % 16 == top;
    var c := Encoded(chr);
    assert c[0] == 0xE0 + top && c[1] == 0x80 + second;
    assert top * 64 + second == chr / 64;
    assert 0xD800 <= chr <= 0xDFFF <==> top == 13 && second >= 32;
  }

  lemma ShortFormMeetsGrammar(chr: int)
    requires 0x80 <= chr <= 0x7FF
    ensures IsUtf8Char(Encoded(chr)) && ScalarOf(Encoded(chr)) == chr
  {
    Sextets(chr);
    assert chr / 64 % 32 == chr / 64;
  }

  /** The encoder produces a UTF8-char exactly for the Unicode scalar values, and it means that value. */
  lemma EncoderMeetsGrammar(chr: int)
    ensures chr >= 0 ==> (IsUtf8Char(Encoded(chr)) <==> IsScalarValue(chr))
    ensures IsScalarValue(chr) ==> ScalarOf(Encoded(chr)) == chr
  {
    if chr >= 0x10000 {
      if chr <= 0x10FFFF {
        LongFormMeetsGrammar(chr);
      }
    } else if chr >= 0x800 {
      MiddleFormMeetsGrammar(chr);
    } else if chr >= 0x80 {
      ShortFormMeetsGrammar(chr);
    }
  }

  /** Encoding is also the inverse the other way around. */
  lemma ScalarOfEncodes(c: seq<byte>)
    requires IsUtf8Char(c)
    ensures IsScalarValue(ScalarOf(c)) && Encoded(ScalarOf(c)) == c
  {
    match |c|
    case 1 =>
    case 2 =>
      Sextets(ScalarOf(c));
      Split64(c[0] as int - 0xC0, c[1] as int - 0x80);
    case 3 => MiddleScalarOfEncodes(c);
    case _ => LongScalarOfEncodes(c);
  }

  lemma MiddleScalarOfEncodes(c: seq<byte>)
    requires IsUtf8Char(c) && |c| == 3
    ensures IsScalarValue(ScalarOf(c)) && Encoded(ScalarOf(c)) == c
  {
    var chr := ScalarOf(c);
    Sextets(chr);
    var d0, d1, d2 := c[0] as int - 0xE0, c[1] as int - 0x80, c[2] as int - 0x80;
    Split64(d0, d1);
    Split64(d0 * 64 + d1, d2);
    assert chr == (d0 * 64 + d1) * 64 + d2;
    assert Encoded(chr) == [0xE0 + d0, 0x80 + d1, 0x80 + d2];
  }

  lemma LongScalarOfEncodes(c: seq<byte>)
    requires IsUtf8Char(c) && |c| == 4
    ensures IsScalarValue(ScalarOf(c)) && Encoded(ScalarOf(c)) == c
  {
    var chr := ScalarOf(c);
    Sextets(chr);
    var d0, d1, d2, d3 := c[0] as int - 0xF0, c[1] as int - 0x80, c[2] as int - 0x80, c[3] as int - 0x80;
    Split64(d0, d1);
    Split64(d0 * 64 + d1, d2);
    Split64((d0 * 64 + d1) * 64 + d2, d3);
    assert chr == ((d0 * 64 + d1) * 64 + d2) * 64 + d3;
    assert Encoded(chr) == [0xF0 + d0, 0x80 + d1, 0x80 + d2, 0x80 + d3];
  }

  /** Decoding inverts encoding on every Unicode scalar value but the terminating NUL, whatever follows. */
  lemma DecodeInvertsEncode(chr: int, rest: cstring)
    requires IsScalarValue(chr) && chr != 0
    ensures var s: seq<byte> := Encoded(chr) + rest;
            && (forall k :: 0 <= k < |s| ==> s[k] != 0)
            && Decoded(s, 0) == (chr, |Encoded(chr)|)
  {
    EncoderMeetsGrammar(chr);
    var s: cstring := Encoded(chr) + rest;
    assert Terminated(s)[0..|Encoded(chr)|] == Encoded(chr);
    DecodesChars(s, 0, |Encoded(chr)|);
  }

  // ---------------------------------------------------------------------------------------------
  // Whole strings
  // ---------------------------------------------------------------------------------------------

  lemma HeadChar(s: seq<byte>) returns (k: nat)
    requires s != [] && WellFormed(s)
    ensures 0 < k <= |s| && k == CharLen(s[0]) && IsUtf8Char(s[..k]) && WellFormed(s[k..])
  {
    k := CharLen(s[0]);
  }

  /** Cutting one UTF8-char off the front does not change well-formedness. */
  lemma WellFormedWithoutHead(s: seq<byte>, k: nat)
    requires k <= |s| && IsUtf8Char(s[..k])
    ensures k > 0 && (WellFormed(s) <==> WellFormed(s[k..]))
  {
    CharLenOfChar(s, k);
  }

  /** `str_utf8_check` returns 1 exactly for well-formed strings. */
  method Check(s: cstring) returns (valid: int)
    ensures valid == if WellFormed(s) then 1 else 0
  {
    var at := 0;
    var codePoint;
    codePoint, at := Decode(s, at);
    while codePoint != 0
      invariant 0 <= at <= |s| + 1
      invariant codePoint != 0 ==> at <= |s|
      invariant codePoint == -1 ==> !WellFormed(s)
      invariant codePoint != -1 ==> (WellFormed(s) <==> at > |s| || WellFormed(s[at..]))
      invariant codePoint == 0 <==> at == |s| + 1
      decreases |s| + 1 - at
    {
      if codePoint == -1 {
        return 0;
      }
      DecodedStep(s, at);
      codePoint, at := Decode(s, at);
    }
    return 1;
  }

  lemma DecodedStep(s: cstring, at: nat)
    requires at <= |s|
    ensures var (codePoint, next) := Decoded(s, at);
            && (codePoint == -1 ==> !WellFormed(s[at..]))
            && (codePoint > 0 ==> (WellFormed(s[at..]) <==> WellFormed(s[next..])))
            && (codePoint == 0 ==> WellFormed(s[at..]))
  {
    DecoderMeetsGrammar(s, at);
    var (codePoint, next) := Decoded(s, at);
    var z, rest := Terminated(s), s[at..];
    if codePoint > 0 {
      assert rest[..next - at] == z[at..next];
      assert rest[next - at..] == s[next..];
      WellFormedWithoutHead(rest, next - at);
    } else if codePoint == -1 {
      forall k | 0 < k <= |rest|
        ensures !IsUtf8Char(rest[..k])
      {
        assert rest[..k] == z[at..at + k];
      }
    }
  }
}
