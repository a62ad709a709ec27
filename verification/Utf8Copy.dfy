/**
  Bounded string copies of `str.cpp` and their UTF-8 truncation repair. Whatever the buffer size,
  copies of well-formed strings end between two characters and are as long as they can be.
 */
module Utf8Copy {
  import opened Machine
  import opened Utf8

  /** The buffer starts with the NUL-terminated string `s`. */
  ghost predicate Holds(buf: seq<byte>, s: cstring) {
    |s| < |buf| && buf[..|s|] == s && buf[|s|] == 0
  }

  /** At most the first `room` bytes of a string. */
  function Clamped(s: cstring, room: nat): cstring {
    if |s| <= room then s else s[..room]
  }

  // ---------------------------------------------------------------------------------------------
  // Truncation repair
  // ---------------------------------------------------------------------------------------------

  function Rewound(s: cstring, cursor: nat): (start: nat)
    requires cursor <= |s|
    ensures start <= cursor && (cursor > 0 ==> start < cursor)
  {
    if cursor == 0 then 0
    else if !IsTail(s[cursor - 1]) then cursor - 1
    else Rewound(s, cursor - 1)
  }

  /** The string with a last character that does not decode cut off. */
  function Repaired(s: cstring): cstring {
    var start := Rewound(s, |s|);
    if s != [] && Decoded(s, start).0 == -1 then s[..start] else s
  }

  /** `str_utf8_isstart`: not of the form 10xxxxxx. */
  predicate IsStart(b: byte) {
    b / 64 != 2
  }

  method StrLength(str: array<byte>, ghost s: cstring) returns (len: nat)
    requires Holds(str[..], s)
    ensures len == |s|
  {
    len := 0;
    while str[len] != 0
      invariant len <= |s|
      invariant forall k :: 0 <= k < |s| ==> str[k] == s[k]
      decreases |s| - len
    {
      len := len + 1;
    }
  }

  method Rewind(s: cstring, cursor: nat) returns (start: nat)
    requires cursor <= |s|
    ensures start == Rewound(s, cursor)
  {
    start := cursor;
    while start != 0
      invariant start <= cursor
      invariant Rewound(s, start) == Rewound(s, cursor)
    {
      start := start - 1;
      if IsStart(s[start]) {
        break;
      }
    }
  }

  /** `str_utf8_fix_truncation`. */
  method FixTruncation(str: array<byte>, ghost s: cstring) returns (len: nat)
    requires Holds(str[..], s)
    modifies str
    ensures Holds(str[..], Repaired(s))
    ensures len == |Repaired(s)|
  {
    len := StrLength(str, s);
    if len > 0 {
      var lastCharIndex := Rewind(str[..len], len);
      var codePoint, next := Decode(str[..len], lastCharIndex);
      if codePoint == -1 {
        str[lastCharIndex] := 0;
        assert str[..lastCharIndex] == s[..lastCharIndex];
        return lastCharIndex;
      }
    }
  }

  // ---------------------------------------------------------------------------------------------
  // The copies
  // ---------------------------------------------------------------------------------------------

  /** `str_copy`. */
  method StrCopy(dst: array<byte>, src: cstring, dstSize: nat) returns (len: nat)
    requires 0 < dstSize <= dst.Length
    modifies dst
    ensures Holds(dst[..], Repaired(Clamped(src, dstSize - 1)))
    ensures len == |Repaired(Clamped(src, dstSize - 1))|
  {
    var maxLength := dstSize - 1;
    var copyLength := if |src| < maxLength then |src| else maxLength;
    MemCopy(dst, 0, src[..copyLength]);
    dst[copyLength] := 0;
    assert dst[..copyLength] == Clamped(src, maxLength);
    len := FixTruncation(dst, Clamped(src, maxLength));
  }

  /** `str_append` to a buffer that holds `before`. */
  method StrAppend(dst: array<byte>, src: cstring, dstSize: nat, ghost before: cstring)
    requires 0 < dstSize <= dst.Length && Holds(dst[..], before)
    modifies dst
    ensures Holds(dst[..], Repaired(Clamped(before + src, dstSize - 1)))
  {
    ghost var all: cstring := before + src;
    var s := StrLength(dst, before);
    var i := 0;
    while s < dstSize
      invariant i <= |src| && s == |before| + i
      invariant s <= dstSize || i == 0
      invariant dst[..s] == all[..s]
      decreases dstSize - s
    {
      dst[s] := ByteAt(src, i);
      if ByteAt(src, i) == 0 {
        break;
      }
      s := s + 1;
      i := i + 1;
    }
    assert dst[..if s < dstSize then s else dstSize - 1] == all[..if s < dstSize then s else dstSize - 1];
    dst[dstSize - 1] := 0;
    var len := FixTruncation(dst, Clamped(all, dstSize - 1));
  }

  /** Where `num` code points from `at` on end, staying within the first `room` bytes. */
  function PosAfter(s: cstring, at: nat, num: nat, room: nat): (end: nat)
    requires at <= |s| && at <= room
    ensures at <= end <= |s| && end <= room
    decreases |s| - at
  {
    if num == 0 || at == |s| then at
    else
      var next := Decoded(s, at).1;
      if next > room then at else PosAfter(s, next, num - 1, room)
  }

  lemma PosAfterUnfold(s: cstring, at: nat, num: nat, room: nat)
    requires at <= |s| && at <= room
    ensures PosAfter(s, at, num, room) ==
              if num == 0 || at == |s| || Decoded(s, at).1 > room then at else PosAfter(s, Decoded(s, at).1, num - 1, room)
  {
    hide Decoded;
  }

  /** `str_utf8_truncate`. */
  method Utf8Truncate(dst: array<byte>, dstSize: nat, src: cstring, truncationLen: nat)
    requires 0 < dstSize <= dst.Length
    modifies dst
    ensures Holds(dst[..], Repaired(src[..PosAfter(src, 0, truncationLen, dstSize - 1)]))
  {
    hide Decoded, PosAfter, Repaired;
    var size := -1;
    var cursor := 0;
    var pos := 0;
    while pos <= truncationLen && cursor < dstSize && size != cursor
      invariant 0 <= pos <= truncationLen + 1
      invariant size < cursor <= |src|
      invariant pos == 0 ==> size == -1 && cursor == 0
      invariant pos > 0 ==> 0 <= size < dstSize && cursor == Decoded(src, size).1
      invariant pos > 0 ==> PosAfter(src, size, truncationLen - (pos - 1), dstSize - 1) == PosAfter(src, 0, truncationLen, dstSize - 1)
      decreases truncationLen - pos
    {
      if pos > 0 {
        PosAfterUnfold(src, size, truncationLen - (pos - 1), dstSize - 1);
      }
      size := cursor;
      var codePoint;
      codePoint, cursor := Decode(src, cursor);
      if codePoint == 0 {
        break;
      }
      pos := pos + 1;
    }
    PosAfterUnfold(src, size, if pos > 0 then truncationLen - (pos - 1) else truncationLen, dstSize - 1);
    assert size == PosAfter(src, 0, truncationLen, dstSize - 1);
    assert Clamped(src, size) == src[..size];
    var len := StrCopy(dst, src, size + 1);
  }

  /** `str_utf8_copy_num`. */
  method Utf8CopyNum(dst: array<byte>, src: cstring, dstSize: nat, num: int)
    requires 0 < dstSize <= dst.Length
    modifies dst
    ensures Holds(dst[..], Repaired(src[..PosAfter(src, 0, if num <= 0 then 0 else num, dstSize - 1)]))
  {
    var cursor: nat := 0;
    var left := num;
    while ByteAt(src, cursor) != 0 && left > 0
      invariant cursor <= |src| && cursor < dstSize
      invariant PosAfter(src, cursor, if left <= 0 then 0 else left, dstSize - 1)
             == PosAfter(src, 0, if num <= 0 then 0 else num, dstSize - 1)
      decreases left
    {
      var newCursor := Forward(src, cursor);
      if newCursor >= dstSize {
        break;
      }
      cursor := newCursor;
      left := left - 1;
    }
    assert Clamped(src, cursor) == src[..cursor];
    var len := StrCopy(dst, src, if cursor < dstSize then cursor + 1 else dstSize);
  }

  /** `str_utf8_forward`. */
  method Forward(s: cstring, cursor: nat) returns (next: nat)
    requires cursor <= |s|
    ensures next == if cursor == |s| then cursor else Decoded(s, cursor).1
  {
    var codePoint, ptr := Decode(s, cursor);
    return if codePoint == 0 then cursor else ptr;
  }

  // ---------------------------------------------------------------------------------------------
  // What the copies promise for well-formed strings
  // ---------------------------------------------------------------------------------------------

  /** The number of characters: one for each byte that is not a continuation. */
  function CodePoints(s: seq<byte>): nat {
    if s == [] then 0 else (if IsTail(s[0]) then 0 else 1) + CodePoints(s[1..])
  }

  /** The longest prefix of `src` that is well formed, at most `room` bytes and at most `num` characters long. */
  ghost predicate IsLongestPrefix(r: seq<byte>, src: cstring, room: nat, num: nat) {
    && r <= src && |r| <= room && WellFormed(r) && CodePoints(r) <= num
    && forall m :: |r| < m <= |src| && m <= room && WellFormed(src[..m]) ==> CodePoints(src[..m]) > num
  }

  lemma CharIsOneCodePoint(c: seq<byte>, rest: seq<byte>)
    requires IsUtf8Char(c)
    ensures CodePoints(c + rest) == 1 + CodePoints(rest)
  {
    var s := c + rest;
    assert s[1..] == c[1..] + rest;
    TailsAreNoCodePoints(c[1..], rest);
  }

  lemma {:induction false} TailsAreNoCodePoints(tails: seq<byte>, rest: seq<byte>)
    requires forall i :: 0 <= i < |tails| ==> IsTail(tails[i])
    ensures CodePoints(tails + rest) == CodePoints(rest)
  {
    if tails == [] {
      assert tails + rest == rest;
    } else {
      assert (tails + rest)[1..] == tails[1..] + rest;
      TailsAreNoCodePoints(tails[1..], rest);
    }
  }

  /** A well-formed stretch of a string starts with the character the decoder reads there. */
  lemma WellFormedHead(s: cstring, at: nat, m: nat)
    requires at < m <= |s| && WellFormed(s[at..m])
    ensures var next := Decoded(s, at).1;
            at < next <= m && IsUtf8Char(s[at..next]) && WellFormed(s[next..m])
  {
    var k := CharLen(s[at]);
    assert s[at..m][0] == s[at];
    assert s[at..m][..k] == s[at..at + k];
    assert s[at..m][k..] == s[at + k..m];
    assert Terminated(s)[at..at + k] == s[at..at + k];
    DecodesChars(s, at, at + k);
  }

  lemma PrependChar(s: cstring, at: nat, next: nat, m: nat)
    requires at < next <= m <= |s| && IsUtf8Char(s[at..next]) && WellFormed(s[next..m])
    ensures WellFormed(s[at..m]) && CodePoints(s[at..m]) == 1 + CodePoints(s[next..m])
  {
    assert s[at..m] == s[at..next] + s[next..m];
    PrependIsWellFormed(s[at..next], s[next..m]);
    CharIsOneCodePoint(s[at..next], s[next..m]);
  }

  lemma WellFormedSuffixes(s: cstring, at: nat)
    requires at < |s| && WellFormed(s[at..])
    ensures var next := Decoded(s, at).1;
            at < next <= |s| && IsUtf8Char(s[at..next]) && WellFormed(s[next..])
  {
    assert s[at..|s|] == s[at..];
    WellFormedHead(s, at, |s|);
    var next := Decoded(s, at).1;
    assert s[next..|s|] == s[next..];
  }

  /** `PosAfter` stops at the last place it may stop at. */
  lemma {:induction false} PosAfterIsLongest(s: cstring, at: nat, num: nat, room: nat)
    requires at <= |s| && at <= room && WellFormed(s[at..])
    ensures WellFormed(s[at..PosAfter(s, at, num, room)])
    ensures CodePoints(s[at..PosAfter(s, at, num, room)]) <= num
    ensures forall m :: PosAfter(s, at, num, room) < m <= |s| && m <= room && WellFormed(s[at..m]) ==>
              CodePoints(s[at..m]) > num
    decreases |s| - at
  {
    hide IsUtf8Char, Decoded;
    if at < |s| {
      WellFormedSuffixes(s, at);
      var next := Decoded(s, at).1;
      var end := PosAfter(s, at, num, room);
      if num > 0 && next <= room {
        PosAfterIsLongest(s, next, num - 1, room);
        PrependChar(s, at, next, end);
      }
      forall m | end < m <= |s| && m <= room && WellFormed(s[at..m])
        ensures CodePoints(s[at..m]) > num
      {
        WellFormedHead(s, at, m);
        PrependChar(s, at, next, m);
      }
    }
  }

  /** The last character that starts before `m`: it may end at `m` or be cut off there. */
  lemma {:induction false} LastChar(s: cstring, at: nat, m: nat, num: nat) returns (start: nat)
    requires at < m <= |s| && WellFormed(s[at..]) && num >= m - at
    ensures at <= start < m
    ensures m <= Decoded(s, start).1 <= |s| && IsUtf8Char(s[start..Decoded(s, start).1])
    ensures PosAfter(s, at, num, m) == if Decoded(s, start).1 == m then m else start
    decreases |s| - at
  {
    hide WellFormed, IsUtf8Char, Decoded;
    WellFormedSuffixes(s, at);
    var next := Decoded(s, at).1;
    if next < m {
      start := LastChar(s, next, m, num - 1);
    } else {
      start := at;
      assert next == m ==> PosAfter(s, next, num - 1, m) == m;
    }
  }

  lemma {:induction false} RewindsOverTails(s: cstring, start: nat, cursor: nat)
    requires start < cursor <= |s| && !IsTail(s[start])
    requires forall i :: start < i < cursor ==> IsTail(s[i])
    ensures Rewound(s, cursor) == start
  {
    if cursor > start + 1 {
      RewindsOverTails(s, start, cursor - 1);
    }
  }

  lemma CharStartsWithNoTail(s: seq<byte>, start: nat, next: nat)
    requires start < next <= |s| && IsUtf8Char(s[start..next])
    ensures !IsTail(s[start]) && CharLen(s[start]) == next - start
    ensures forall i :: start < i < next ==> IsTail(s[i])
  {
    var c := s[start..next];
    forall i | start < i < next
      ensures IsTail(s[i])
    {
      assert c[i - start] == s[i];
    }
    assert c[0] == s[start];
  }

  lemma TruncatedCharFails(s: cstring, start: nat, m: nat, next: nat)
    requires start < m < next <= |s| && IsUtf8Char(s[start..next])
    ensures Decoded(s[..m], start).0 == -1
  {
    var t: cstring := s[..m];
    CharStartsWithNoTail(s, start, next);
    if Decoded(t, start).0 != -1 {
      DecodesOnlyChars(t, start);
      CharStartsWithNoTail(Terminated(t), start, Decoded(t, start).1);
      assert false;
    }
  }

  lemma WholeCharDecodes(s: cstring, start: nat, m: nat)
    requires start < m <= |s| && IsUtf8Char(s[start..m])
    ensures Decoded(s[..m], start).0 != -1
  {
    assert Terminated(s[..m])[start..m] == s[start..m];
    DecodesChars(s[..m], start, m);
  }

  /** The repair of a well-formed string that was cut off somewhere takes away exactly a started character. */
  lemma RepairCutsStartedChar(s: cstring, m: nat, num: nat)
    requires m <= |s| && WellFormed(s) && num >= m
    ensures Repaired(s[..m]) == s[..PosAfter(s, 0, num, m)]
  {
    hide WellFormed, IsUtf8Char, Decoded, PosAfter, Rewound;
    if m > 0 {
      assert s[0..] == s;
      var start := LastChar(s, 0, m, num);
      var next := Decoded(s, start).1;
      CharStartsWithNoTail(s, start, next);
      RewindsOverTails(s[..m], start, m);
      if next == m {
        WholeCharDecodes(s, start, m);
      } else {
        TruncatedCharFails(s, start, m, next);
        assert s[..m][..start] == s[..start];
      }
    }
  }

  lemma CodePointsBound(s: seq<byte>)
    ensures CodePoints(s) <= |s|
  {
  }

  /** The bounded copy of a well-formed string is its longest well-formed prefix that fits, for every buffer size. */
  lemma CopyIsLongestFit(src: cstring, room: nat)
    requires WellFormed(src)
    ensures IsLongestPrefix(Repaired(Clamped(src, room)), src, room, |src|)
    ensures |src| <= room ==> Repaired(Clamped(src, room)) == src
  {
    var m := if |src| <= room then |src| else room;
    assert src[..|src|] == src && src[0..] == src;
    RepairCutsStartedChar(src, m, |src|);
    PosAfterIsLongest(src, 0, |src|, m);
    var end := PosAfter(src, 0, |src|, m);
    CodePointsBound(src[..end]);
    forall k | end < k <= |src| && k <= room && WellFormed(src[..k])
      ensures CodePoints(src[..k]) > |src|
    {
      assert src[0..k] == src[..k];
    }
    if |src| <= room && end < |src| {
      CodePointsBound(src[..|src|]);
    }
  }

  /** So is the copy limited to a number of code points, whichever of the two functions makes it. */
  lemma TruncationIsLongestFit(src: cstring, num: nat, room: nat)
    requires WellFormed(src)
    ensures IsLongestPrefix(Repaired(src[..PosAfter(src, 0, num, room)]), src, room, num)
  {
    assert src[0..] == src;
    PosAfterIsLongest(src, 0, num, room);
    var end := PosAfter(src, 0, num, room);
    var r := src[..end];
    assert src[0..end] == r;
    CopyIsLongestFit(r, end);
    forall k | end < k <= |src| && k <= room && WellFormed(src[..k])
      ensures CodePoints(src[..k]) > num
    {
      assert src[0..k] == src[..k];
    }
  }

  lemma {:induction false} WellFormedConcat(s: seq<byte>, t: seq<byte>)
    requires WellFormed(s) && WellFormed(t)
    ensures WellFormed(s + t)
  {
    hide WellFormed, IsUtf8Char, CharLen;
    if s == [] {
      assert s + t == t;
    } else {
      var k := HeadChar(s);
      WellFormedConcat(s[k..], t);
      PrependIsWellFormed(s[..k], s[k..] + t);
      assert s + t == s[..k] + (s[k..] + t);
    }
  }

  /** Appending well-formed text leaves the longest well-formed prefix of the joined text that fits. */
  lemma AppendIsLongestFit(before: cstring, src: cstring, room: nat)
    requires WellFormed(before) && WellFormed(src)
    ensures IsLongestPrefix(Repaired(Clamped(before + src, room)), before + src, room, |before| + |src|)
  {
    WellFormedConcat(before, src);
    CopyIsLongestFit(before + src, room);
  }
}
