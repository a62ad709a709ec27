/**
  Where the UTF-8 decoder goes on after an error: behind the longest beginning of a character.
 */
module Utf8Errors {
  import opened Machine
  import opened Utf8

  /** Some character starts with these bytes. */
  ghost predicate Begins(x: seq<byte>) {
    exists rest: seq<byte> :: IsUtf8Char(x + rest)
  }

  lemma BeginsWith(x: seq<byte>, rest: seq<byte>)
    requires IsUtf8Char(x + rest)
    ensures Begins(x)
  {
  }

  lemma {:induction false} BeginningsArePrefixes(x: seq<byte>, n: nat)
    requires Begins(x) && n <= |x|
    ensures Begins(x[..n])
  {
    var rest :| IsUtf8Char(x + rest);
    assert x[..n] + (x[n..] + rest) == x + rest;
    BeginsWith(x[..n], x[n..] + rest);
  }

  lemma FirstByteBegins(lead: byte)
    ensures Begins([lead]) <==> CharLen(lead) > 0
  {
    if CharLen(lead) > 0 {
      var rest: seq<byte> := [LowerBoundary(lead), 0x80, 0x80][..CharLen(lead) - 1];
      assert IsUtf8Char([lead] + rest);
    } else {
      forall rest: seq<byte>
        ensures !IsUtf8Char([lead] + rest)
      {
        assert ([lead] + rest)[0] == lead;
      }
    }
  }

  lemma SecondByteBegins(lead: byte, b: byte)
    requires CharLen(lead) >= 2
    ensures Begins([lead, b]) <==> LowerBoundary(lead) <= b <= UpperBoundary(lead)
  {
    if LowerBoundary(lead) <= b <= UpperBoundary(lead) {
      var rest: seq<byte> := [0x80, 0x80][..CharLen(lead) - 2];
      assert IsUtf8Char([lead, b] + rest);
    } else {
      forall rest: seq<byte>
        ensures !IsUtf8Char([lead, b] + rest)
      {
        assert ([lead, b] + rest)[0] == lead && ([lead, b] + rest)[1] == b;
      }
    }
  }

  lemma LaterByteBegins(x: seq<byte>, b: byte)
    requires 2 <= |x| <= 3 && Begins(x) && CharLen(x[0]) > |x|
    ensures Begins(x + [b]) <==> IsTail(b)
  {
    var rest :| IsUtf8Char(x + rest);
    assert (x + rest)[0] == x[0] && |x + rest| == CharLen(x[0]);
    if IsTail(b) {
      assert x + rest[0 := b] == x + [b] + rest[1..];
      BeginsWith(x + [b], rest[1..]);
    } else {
      forall more: seq<byte>
        ensures !IsUtf8Char(x + [b] + more)
      {
        assert (x + [b] + more)[|x|] == b;
      }
    }
  }

  /**
    After an error the decoder is behind the longest beginning of a character that it has met, or behind a
    single byte that begins none.
   */
  lemma ErrorsSkipBeginnings(s: cstring, at: nat)
    requires at <= |s| && Decoded(s, at).0 == -1
    ensures var z, next := Terminated(s), Decoded(s, at).1;
            && at < next <= |s|
            && if Begins(z[at..at + 1]) then Begins(z[at..next]) && !Begins(z[at..next + 1]) else next == at + 1
  {
    hide Begins, IsUtf8Char, Terminated;
    var z, next := Terminated(s), Decoded(s, at).1;
    var lead := ByteAt(s, at);
    FirstByteBegins(lead);
    assert z[at..at + 1] == [lead];
    if CharLen(lead) > 1 {
      var second := ByteAt(s, at + 1);
      SecondByteBegins(lead, second);
      assert z[at..at + 2] == [lead, second];
      if next > at + 1 {
        LaterByteBegins([lead, second], ByteAt(s, at + 2));
        assert z[at..at + 3] == [lead, second] + [ByteAt(s, at + 2)];
        if next > at + 2 {
          LaterByteBegins(z[at..at + 3], ByteAt(s, at + 3));
          assert z[at..at + 4] == z[at..at + 3] + [ByteAt(s, at + 3)];
        }
      }
    }
  }
}
