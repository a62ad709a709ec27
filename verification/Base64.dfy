/**
  Base64 as in section 4 of RFC 4648, and the bit-buffer encoder and checking decoder of `str.cpp`.
  The two are inverse bijections between byte strings and canonical padded texts.
 */
module Base64 {
  import opened Machine

  // ---------------------------------------------------------------------------------------------
  // The encoding
  // ---------------------------------------------------------------------------------------------

  const PAD: byte := 61

  /** The alphabet of section 4 of RFC 4648. */
  function Digit(value: int): byte
    requires 0 <= value < 64
  {
    if value < 26 then 65 + value
    else if value < 52 then 97 + (value - 26)
    else if value < 62 then 48 + (value - 52)
    else if value == 62 then 43
    else 47
  }

  /** The four digits of a 24-bit group. */
  function Digits(b0: byte, b1: byte, b2: byte): seq<byte> {
    [Digit(b0 / 4), Digit(b0 % 4 * 16 + b1 / 16), Digit(b1 % 16 * 4 + b2 / 64), Digit(b2 % 64)]
  }

  /** The base 64 encoding, with the padding of the last group. */
  function Encoding(data: seq<byte>): (text: seq<byte>)
    ensures |text| == (|data| + 2) / 3 * 4
  {
    if |data| == 0 then []
    else if |data| == 1 then Digits(data[0], 0, 0)[..2] + [PAD, PAD]
    else if |data| == 2 then Digits(data[0], data[1], 0)[..3] + [PAD]
    else Digits(data[0], data[1], data[2]) + Encoding(data[3..])
  }

  // ---------------------------------------------------------------------------------------------
  // The encoder
  // ---------------------------------------------------------------------------------------------

  /** The byte at an index, zero past the end. */
  function ByteOrZero(data: seq<byte>, i: nat): byte {
    if i < |data| then data[i] else 0
  }

  /** The group of three bytes, filled up with zeros, that digit `o` belongs to. */
  function GroupDigits(data: seq<byte>, g: nat): seq<byte> {
    Digits(ByteOrZero(data, 3 * g), ByteOrZero(data, 3 * g + 1), ByteOrZero(data, 3 * g + 2))
  }

  lemma {:induction false} EncodingAt(data: seq<byte>, g: nat, k: nat)
    requires 3 * g < |data| && k < 4
    ensures 4 * g + k < |Encoding(data)|
    ensures Encoding(data)[4 * g + k] == if 3 * g + k <= |data| then GroupDigits(data, g)[k] else PAD
  {
    hide Encoding, Digits;
    EncodingUnfold(data);
    if g > 0 {
      EncodingAt(data[3..], g - 1, k);
      assert GroupDigits(data, g) == GroupDigits(data[3..], g - 1);
    }
  }

  lemma EncodingUnfold(data: seq<byte>)
    requires data != []
    ensures |GroupDigits(data, 0)| == 4 && |Encoding(data)| >= 4
    ensures forall k :: 0 <= k < 4 ==> Encoding(data)[k] == if k <= |data| then GroupDigits(data, 0)[k] else PAD
    ensures |data| >= 3 ==> Encoding(data) == Encoding(data)[..4] + Encoding(data[3..])
  {
    hide Digit;
  }

  /** 4 to the power `k`, for the few `k` in use. */
  function Pow4(k: nat): nat {
    if k == 0 then 1 else if k == 1 then 4 else if k == 2 then 16 else 64
  }

  /**
    Where the encoder is between two rounds. While data is left, `o` digits have taken in just the
    bytes they need and the low `numBits` bits of `value` are still to be put out; after the last
    digit `numBits` is negative.
   */
  predicate Between(data: seq<byte>, value: nat, numBits: int, i: nat, o: nat) {
    var needed, k := o / 4 * 3 + o % 4, o % 4;
    if needed <= |data| then
      numBits == 2 * k && i == needed && (k > 0 ==> value % Pow4(k) == data[i - 1] % Pow4(k))
    else
      numBits < 0 && i == |data|
  }

  /** `str_base64` writes as much of the encoding as fits, and a terminating NUL. */
  method StrBase64(dst: array<byte>, dstSize0: nat, data: seq<byte>)
    requires 0 < dstSize0 <= dst.Length
    modifies dst
    ensures var n := if |Encoding(data)| < dstSize0 then |Encoding(data)| else dstSize0 - 1;
            dst[..n] == Encoding(data)[..n] && dst[n] == 0
  {
    hide Encoding;
    var value: nat := 0;
    var numBits := 0;
    var i := 0;
    var o := 0;
    var dstSize := dstSize0 - 1;
    dst[dstSize] := 0;
    while true
      invariant 0 <= o <= dstSize && o <= |Encoding(data)|
      invariant Between(data, value, numBits, i, o)
      invariant dst[dstSize] == 0
      invariant dst[..o] == Encoding(data)[..o]
      decreases dstSize - o
    {
      hide Between, Digit, TopDigit, Pow2;
      EncoderRound(data, value, numBits, i, o);
      if numBits < 6 && i < |data| {
        value := ShiftedIn(value, data[i]);
        numBits := numBits + 8;
        i := i + 1;
      }
      if o == dstSize {
        return;
      }
      if numBits > 0 {
        dst[o] := Digit(TopDigit(value, numBits));
        numBits := numBits - 6;
        o := o + 1;
      } else if o % 4 != 0 {
        dst[o] := PAD;
        o := o + 1;
      } else {
        dst[o] := 0;
        return;
      }
    }
  }

  /** `value` after one more byte was shifted in, on a 32-bit unsigned integer. */
  function ShiftedIn(value: nat, b: byte): nat {
    (value * 256 + b) % 0x1_0000_0000
  }

  /** The digit the encoder puts out from the top of its `numBits` bits, filled up with zeros. */
  function TopDigit(value: nat, numBits: int): int
    requires 0 < numBits
  {
    if numBits >= 6 then value / Pow2(numBits - 6) % 64 else value * Pow2(6 - numBits) % 64
  }

  /** Shifting by `k` bits multiplies or divides by this. */
  function Pow2(k: nat): (p: nat)
    ensures p > 0
  {
    if k == 0 then 1 else 2 * Pow2(k - 1)
  }

  lemma ShiftedInModulo(value: nat, b: byte)
    ensures ShiftedIn(value, b) % 4096 == value % 16 * 256 + b
    ensures ShiftedIn(value, b) % 1024 == value % 4 * 256 + b
    ensures ShiftedIn(value, b) % 256 == b
  {
    hide ShiftedIn;
    var q, r := ShiftedInParts(value, b);
    Residue4096(ShiftedIn(value, b), q, r, b);
    Low2OfLow4(value);
  }

  lemma ShiftedInParts(value: nat, b: byte) returns (q: int, r: nat)
    ensures r == value % 16 && ShiftedIn(value, b) == 4096 * q + (256 * r + b)
  {
    var x := value * 256 + b;
    r := value % 16;
    q := value / 16 - 0x10_0000 * (x / 0x1_0000_0000);
    assert x % 0x1_0000_0000 == x - 0x1_0000_0000 * (x / 0x1_0000_0000);
  }

  lemma Low2OfLow4(value: nat)
    ensures value % 16 % 4 == value % 4
  {
    var q, low := value / 16, value % 16;
    assert value == 16 * q + low;
    RemainderIs(value, 4, 4 * q + low / 4, low % 4);
  }

  lemma RemainderIs(x: int, n: int, q: int, r: int)
    requires 0 <= r < n && x == n * q + r
    ensures x % n == r && x / n == q
  {
    var d := x / n - q;
    assert x == n * (x / n) + x % n;
    assert n * d == r - x % n by {
      Distributes(n, x / n, q);
    }
    if d >= 1 {
      Grows(n, d);
    } else if d <= -1 {
      Grows(n, -d);
      Negates(n, d);
    }
  }

  lemma Distributes(n: int, a: int, b: int)
    ensures n * (a - b) == n * a - n * b
  {
  }

  lemma Negates(n: int, d: int)
    ensures n * -d == -(n * d)
  {
  }

  lemma Grows(n: int, d: int)
    requires n > 0 && d >= 1
    ensures n * d >= n
  {
  }

  lemma Residue4096(y: int, q: int, r: nat, b: byte)
    requires r < 16 && y == 4096 * q + (256 * r + b)
    ensures y % 4096 == 256 * r + b
    ensures y % 1024 == 256 * (r % 4) + b
    ensures y % 256 == b
  {
    RemainderIs(y, 4096, q, 256 * r + b);
    RemainderIs(y, 1024, 4 * q + r / 4, 256 * (r % 4) + b);
    RemainderIs(y, 256, 16 * q + r, b);
  }

  /** The digits at the three places where a byte is shifted in, and the bits each leaves over. */
  lemma DigitAt0(x: nat, b: byte)
    requires x % 256 == b
    ensures x / 4 % 64 == b / 4 && x % 4 == b % 4
  {
    assert x == x / 256 * 256 + b;
    assert x / 4 == x / 256 * 64 + b / 4;
  }

  lemma DigitAt1(x: nat, low: nat, b: byte)
    requires low < 4 && x % 1024 == low * 256 + b
    ensures x / 16 % 64 == low * 16 + b / 16 && x % 16 == b % 16
  {
    assert x == x / 1024 * 1024 + (low * 256 + b);
    assert x / 16 == x / 1024 * 64 + (low * 16 + b / 16);
    assert x == 16 * (x / 1024 * 64 + low * 16 + b / 16) + b % 16;
  }

  lemma DigitAt2(x: nat, low: nat, b: byte)
    requires low < 16 && x % 4096 == low * 256 + b
    ensures x / 64 % 64 == low * 4 + b / 64 && x % 64 == b % 64
  {
    assert x == x / 4096 * 4096 + (low * 256 + b);
    assert x / 64 == x / 4096 * 64 + (low * 4 + b / 64);
    assert x == 64 * (x / 4096 * 64 + low * 4 + b / 64) + b % 64;
  }

  lemma ShiftAmounts()
    ensures Pow2(0) == 1 && Pow2(2) == 4 && Pow2(4) == 16 && Pow2(6) == 64
  {
  }

  /** The digit put out and the bits kept after a byte was shifted in at place `k` of a group. */
  lemma DigitAfterShift(value: nat, b: byte, k: nat)
    requires k < 3
    ensures TopDigit(ShiftedIn(value, b), 2 * k + 8) == value % Pow4(k) * Pow4(3 - k) + b / Pow4(k + 1)
    ensures ShiftedIn(value, b) % Pow4(k + 1) == b % Pow4(k + 1)
  {
    hide ShiftedIn, Pow2;
    ShiftAmounts();
    ShiftedInModulo(value, b);
    var x := ShiftedIn(value, b);
    if k == 0 {
      DigitAt0(x, b);
    } else if k == 1 {
      DigitAt1(x, value % 4, b);
    } else {
      DigitAt2(x, value % 16, b);
    }
  }

  lemma TopOfLow(value: nat, shifted: nat, n: nat, m: nat)
    requires ((n == 4 && m == 16) || (n == 16 && m == 4)) && shifted == value * m
    ensures shifted % 64 == value % n * m
  {
    var q, low := value / n, value % n;
    assert value == n * q + low;
    assert shifted == 64 * q + low * m;
    RemainderIs(shifted, 64, q, low * m);
  }

  lemma DigitWithoutShift(value: nat, k: nat)
    requires 0 < k <= 3
    ensures TopDigit(value, 2 * k) == value % Pow4(k) * Pow4(3 - k)
  {
    hide Pow2;
    ShiftAmounts();
    if k == 1 {
      TopOfLow(value, value * 16, 4, 16);
    } else if k == 2 {
      TopOfLow(value, value * 4, 16, 4);
    }
  }

  /** What one round of the encoder does, on its variables. */
  ghost predicate RoundIsRight(data: seq<byte>, value: nat, numBits: int, i: nat, o: nat)
    requires o <= |Encoding(data)|
  {
    if numBits > 0 then
      && o < |Encoding(data)| && Encoding(data)[o] == Digit(TopDigit(value, numBits))
      && Between(data, value, numBits - 6, i, o + 1)
    else if o % 4 != 0 then
      && o < |Encoding(data)| && Encoding(data)[o] == PAD
      && Between(data, value, numBits, i, o + 1)
    else
      o == |Encoding(data)|
  }

  /** A round with bytes left to encode at its place in the group. */
  lemma RoundWithByte(data: seq<byte>, value: nat, o: nat)
    requires o <= |Encoding(data)|
    requires var needed := o / 4 * 3 + o % 4;
             needed <= |data| && Between(data, value, 2 * (o % 4), needed, o)
    requires o % 4 < 3 && o / 4 * 3 + o % 4 < |data|
    ensures var needed := o / 4 * 3 + o % 4;
            RoundIsRight(data, ShiftedIn(value, data[needed]), 2 * (o % 4) + 8, needed + 1, o)
  {
    hide Encoding, TopDigit, ShiftedIn, Digit;
    var g, k := o / 4, o % 4;
    EncodingAt(data, g, k);
    DigitAfterShift(value, data[3 * g + k], k);
    assert (o + 1) / 4 * 3 + (o + 1) % 4 == (if k == 2 then 3 * g + 3 else 3 * g + k + 1);
  }

  /** A round that puts out bits already taken in. */
  lemma RoundWithoutByte(data: seq<byte>, value: nat, o: nat)
    requires o <= |Encoding(data)|
    requires var needed := o / 4 * 3 + o % 4;
             needed <= |data| && Between(data, value, 2 * (o % 4), needed, o)
    requires o % 4 == 3 || o / 4 * 3 + o % 4 == |data|
    ensures RoundIsRight(data, value, 2 * (o % 4), o / 4 * 3 + o % 4, o)
  {
    hide Encoding, TopDigit, Digit;
    var g, k := o / 4, o % 4;
    if k > 0 {
      EncodingAt(data, g, k);
      DigitWithoutShift(value, k);
    } else {
      assert |Encoding(data)| == (|data| + 2) / 3 * 4;
    }
  }

  lemma RoundOfPadding(data: seq<byte>, value: nat, numBits: int, o: nat)
    requires o <= |Encoding(data)|
    requires o / 4 * 3 + o % 4 > |data| && numBits < 0
    ensures RoundIsRight(data, value, numBits, |data|, o)
  {
    hide Encoding;
    assert |Encoding(data)| == (|data| + 2) / 3 * 4;
    if o % 4 != 0 {
      EncodingAt(data, o / 4, o % 4);
    }
  }

  lemma EncoderRound(data: seq<byte>, value: nat, numBits: int, i: nat, o: nat)
    requires o <= |Encoding(data)| && Between(data, value, numBits, i, o)
    ensures if numBits < 6 && i < |data| then RoundIsRight(data, ShiftedIn(value, data[i]), numBits + 8, i + 1, o)
            else RoundIsRight(data, value, numBits, i, o)
  {
    hide RoundIsRight, ShiftedIn, TopDigit, Encoding;
    if o / 4 * 3 + o % 4 > |data| {
      RoundOfPadding(data, value, numBits, o);
    } else if numBits < 6 && i < |data| {
      RoundWithByte(data, value, o);
    } else {
      RoundWithoutByte(data, value, o);
    }
  }

  // ---------------------------------------------------------------------------------------------
  // The decoder
  // ---------------------------------------------------------------------------------------------

  /** `base64_digit_value`. */
  function DigitValue(digit: byte): (value: int)
    ensures -1 <= value < 64
  {
    if 65 <= digit <= 90 then digit - 65
    else if 97 <= digit <= 122 then digit as int - 97 + 26
    else if 48 <= digit <= 57 then digit as int - 48 + 52
    else if digit == 43 then 62
    else if digit == 47 then 63
    else -1
  }

  lemma DigitsAreInverse(value: int, digit: byte)
    ensures 0 <= value < 64 ==> DigitValue(Digit(value)) == value
    ensures DigitValue(digit) != -1 ==> Digit(DigitValue(digit)) == digit
    ensures DigitValue(PAD) == -1
  {
  }

  const INVALID_DIGIT := -1
  const PADDING_NOT_ZERO := -2
  const BUFFER_TOO_SMALL := -2
  const BAD_LENGTH := -3

  datatype Outcome = Bytes(bytes: seq<byte>) | Fail(code: int)

  /** How many bytes a group of four digits stands for, going by its padding. */
  function GroupLength(text: seq<byte>, last: bool): (n: int)
    requires |text| == 4
    ensures 1 <= n <= 3
  {
    if last && text[3] == PAD then (if text[2] == PAD then 1 else 2) else 3
  }

  /** The group with its padding replaced by the digit zero. */
  function Unpadded(text: seq<byte>, last: bool): seq<byte>
    requires |text| == 4
  {
    var n := GroupLength(text, last);
    [text[0], text[1], if n < 2 then 65 else text[2], if n < 3 then 65 else text[3]]
  }

  /** The 24 bits of four digits. */
  function GroupValue(text: seq<byte>): (value: int)
    requires |text| == 4 && forall k :: 0 <= k < 4 ==> DigitValue(text[k]) != -1
    ensures 0 <= value < 0x100_0000
  {
    DigitValue(text[0]) * 262144 + DigitValue(text[1]) * 4096 + DigitValue(text[2]) * 64 + DigitValue(text[3])
  }

  function ValueBytes(value: int): seq<byte>
    requires 0 <= value < 0x100_0000
  {
    [value / 65536, value / 256 % 256, value % 256]
  }

  function DecodedGroup(text: seq<byte>, last: bool): Outcome
    requires |text| == 4
  {
    var n, copy := GroupLength(text, last), Unpadded(text, last);
    if exists k :: 0 <= k < 4 && DigitValue(copy[k]) == -1 then Fail(INVALID_DIGIT)
    else
      var bytes := ValueBytes(GroupValue(copy));
      if exists k :: n <= k < 3 && bytes[k] != 0 then Fail(PADDING_NOT_ZERO)
      else Bytes(bytes[..n])
  }

  /** All groups in turn, up to the first one that fails. */
  function Decoding(text: seq<byte>): Outcome
    requires |text| % 4 == 0
  {
    if text == [] then Bytes([])
    else
      var first := DecodedGroup(text[..4], |text| == 4);
      if first.Fail? then first
      else
        var rest := Decoding(text[4..]);
        if rest.Fail? then rest else Bytes(first.bytes + rest.bytes)
  }

  /** An outcome for the rest of a text, with the bytes of what came before. */
  function Prepend(bytes: seq<byte>, rest: Outcome): Outcome {
    if rest.Fail? then rest else Bytes(bytes + rest.bytes)
  }

  lemma DecodingStep(text: seq<byte>, done: seq<byte>)
    requires |text| % 4 == 0 && text != []
    ensures |text| >= 4 && |text[4..]| % 4 == 0
    ensures var first := DecodedGroup(text[..4], |text| == 4);
            Prepend(done, Decoding(text)) ==
              if first.Fail? then first else Prepend(done + first.bytes, Decoding(text[4..]))
  {
    hide DecodedGroup;
  }

  lemma DecodingEnd(done: seq<byte>)
    ensures Prepend(done, Decoding([])) == Bytes(done)
    ensures forall text :: |text| % 4 == 0 ==> Prepend([], Decoding(text)) == Decoding(text)
  {
  }

  lemma FirstGroup(data: seq<byte>, i: nat)
    requires i + 4 <= |data|
    ensures data[i..][..4] == data[i..i + 4] && data[i..][4..] == data[i + 4..]
  {
  }

  /** `str_base64_decode`: an error code, or the number of bytes put into the buffer. */
  method StrBase64Decode(dst: array<byte>, dstSize: nat, data: seq<byte>) returns (r: int)
    requires dstSize <= dst.Length
    modifies dst
    ensures |data| % 4 != 0 ==> r == BAD_LENGTH
    ensures |data| % 4 == 0 && |data| / 4 * 3 > dstSize ==> r == BUFFER_TOO_SMALL
    ensures |data| % 4 == 0 && |data| / 4 * 3 <= dstSize ==>
              match Decoding(data)
              case Fail(code) => r == code
              case Bytes(bytes) => r == |bytes| <= dstSize && dst[..r] == bytes
    ensures r >= 0 ==> forall k :: r <= k < dst.Length ==> dst[k] == old(dst[k])
    ensures |data| % 4 != 0 || |data| / 4 * 3 > dstSize ==> dst[..] == old(dst[..])
  {
    hide DecodedGroup, Decoding;
    if |data| % 4 != 0 {
      return BAD_LENGTH;
    }
    if |data| / 4 * 3 > dstSize {
      return BUFFER_TOO_SMALL;
    }
    var o := 0;
    var i := 0;
    ghost var done: seq<byte>, g, groups := [], 0, |data| / 4;
    assert data[0..] == data;
    assert Prepend(done, Decoding(data)) == Decoding(data);
    while i < |data|
      invariant 0 <= g <= groups && i == 4 * g && |data| == 4 * groups
      invariant 0 <= o <= 3 * g
      invariant dst[..o] == done
      invariant forall k :: o <= k < dst.Length ==> dst[k] == old(dst[k])
      invariant Prepend(done, Decoding(data[i..])) == Decoding(data)
      decreases |data| - i
    {
      var copy := data[i..i + 4];
      FirstGroup(data, i);
      DecodingStep(data[i..], done);
      var n;
      r, n := DecodeGroup(dst, o, copy, i == |data| - 4);
      if r < 0 {
        return;
      }
      ghost var group := DecodedGroup(copy, i == |data| - 4).bytes;
      assert dst[..o + n] == done + group;
      done := done + group;
      o := o + n;
      i := i + 4;
      g := g + 1;
    }
    DecodingEnd(done);
    return o;
  }

  /** One round of the decoder's loop: four digits to up to three bytes at position `o` of the buffer. */
  method DecodeGroup(dst: array<byte>, o: nat, text: seq<byte>, last: bool) returns (r: int, n: nat)
    requires |text| == 4 && o + 3 <= dst.Length
    modifies dst
    ensures dst[..o] == old(dst[..o])
    ensures match DecodedGroup(text, last)
            case Fail(code) => r == code < 0
            case Bytes(bytes) => r == 0 && n == |bytes| <= 3 && dst[o..o + n] == bytes
    ensures forall k :: o + n <= k < dst.Length && r == 0 ==> dst[k] == old(dst[k])
  {
    hide DigitValue;
    n := 3;
    var copy := text;
    if last {
      if copy[3] == PAD {
        copy := copy[3 := 65];
        n := 2;
        if copy[2] == PAD {
          copy := copy[2 := 65];
          n := 1;
        }
      }
    }
    assert copy == Unpadded(text, last) && n == GroupLength(text, last);
    if DigitValue(copy[0]) == -1 || DigitValue(copy[1]) == -1 || DigitValue(copy[2]) == -1 || DigitValue(copy[3]) == -1 {
      return INVALID_DIGIT, 0;
    }
    var bytes := ValueBytes(GroupValue(copy));
    var b := 0;
    while b < 3
      invariant 0 <= b <= 3
      invariant dst[..o] == old(dst[..o])
      invariant forall k :: o + n <= k < dst.Length ==> dst[k] == old(dst[k])
      invariant forall k :: 0 <= k < b && k < n ==> dst[o + k] == bytes[k]
      invariant forall k :: n <= k < b ==> bytes[k] == 0
    {
      if b < n {
        dst[o + b] := bytes[b];
      } else if bytes[b] != 0 {
        return PADDING_NOT_ZERO, 0;
      }
      b := b + 1;
    }
    r := 0;
  }

  // ---------------------------------------------------------------------------------------------
  // The round trips
  // ---------------------------------------------------------------------------------------------

  lemma BytesOfValue(b0: byte, b1: byte, b2: byte)
    ensures ValueBytes(b0 * 65536 + b1 * 256 + b2) == [b0, b1, b2]
    ensures b0 / 4 * 262144 + (b0 % 4 * 16 + b1 / 16) * 4096 + (b1 % 16 * 4 + b2 / 64) * 64 + b2 % 64
         == b0 * 65536 + b1 * 256 + b2
  {
    var x := b0 * 65536 + b1 * 256 + b2;
    assert x / 256 == b0 * 256 + b1;
  }

  /** Decoding the digits of a group, as they are or with padding in place of the digits zero. */
  lemma GroupDecodes(b0: byte, b1: byte, b2: byte, text: seq<byte>, last: bool)
    requires |text| == 4 && Unpadded(text, last) == Digits(b0, b1, b2)
    requires GroupLength(text, last) < 3 ==> b2 == 0
    requires GroupLength(text, last) < 2 ==> b1 == 0
    ensures DecodedGroup(text, last) == Bytes([b0, b1, b2][..GroupLength(text, last)])
  {
    hide Digit, DigitValue, GroupLength;
    var copy := Unpadded(text, last);
    DigitsAreInverse(b0 / 4, 0);
    DigitsAreInverse(b0 % 4 * 16 + b1 / 16, 0);
    DigitsAreInverse(b1 % 16 * 4 + b2 / 64, 0);
    DigitsAreInverse(b2 % 64, 0);
    assert DigitValue(copy[0]) == b0 / 4 && DigitValue(copy[1]) == b0 % 4 * 16 + b1 / 16;
    assert DigitValue(copy[2]) == b1 % 16 * 4 + b2 / 64 && DigitValue(copy[3]) == b2 % 64;
    BytesOfValue(b0, b1, b2);
    assert GroupValue(copy) == b0 * 65536 + b1 * 256 + b2;
  }

  lemma DigitIsNoPad(value: int)
    requires 0 <= value < 64
    ensures Digit(value) != PAD && Digit(0) == 65
  {
  }

  /** Decoding inverts encoding, on every sequence of bytes. */
  lemma {:induction false} DecodeInvertsEncode(data: seq<byte>)
    ensures |Encoding(data)| % 4 == 0
    ensures Decoding(Encoding(data)) == Bytes(data)
  {
    hide DecodedGroup, Digit;
    var text := Encoding(data);
    if |data| >= 3 {
      DecodeInvertsEncode(data[3..]);
      assert text[..4] == Digits(data[0], data[1], data[2]) && text[4..] == Encoding(data[3..]);
      DigitIsNoPad(data[2] % 64);
      GroupDecodes(data[0], data[1], data[2], text[..4], |text| == 4);
      assert [data[0], data[1], data[2]] + data[3..] == data;
    } else if |data| > 0 {
      LastGroupDecodes(data);
    }
  }

  lemma LastGroupDecodes(data: seq<byte>)
    requires 0 < |data| < 3
    ensures Decoding(Encoding(data)) == Bytes(data)
  {
    hide DecodedGroup, Digit, Decoding, Encoding;
    var b1 := if |data| == 2 then data[1] else 0;
    var text := PaddedGroup(data);
    GroupDecodes(data[0], b1, 0, text, true);
    assert [data[0], b1, 0][..|data|] == data;
    DecodingStep(text, []);
    assert text[..4] == text && text[4..] == [];
    assert [] + data == data;
    DecodingEnd([] + data);
  }

  lemma PaddedGroup(data: seq<byte>) returns (text: seq<byte>)
    requires 0 < |data| < 3
    ensures text == Encoding(data) && |text| == 4
    ensures GroupLength(text, true) == |data|
    ensures Unpadded(text, true) == Digits(data[0], if |data| == 2 then data[1] else 0, 0)
  {
    hide Digit;
    text := Encoding(data);
    DigitIsNoPad(0);
    if |data| == 2 {
      DigitIsNoPad(data[1] % 16 * 4);
    }
  }

  lemma ValueOfBytes(d0: int, d1: int, d2: int, d3: int)
    requires 0 <= d0 < 64 && 0 <= d1 < 64 && 0 <= d2 < 64 && 0 <= d3 < 64
    ensures var bytes := ValueBytes(d0 * 262144 + d1 * 4096 + d2 * 64 + d3);
            && bytes[0] / 4 == d0 && bytes[0] % 4 * 16 + bytes[1] / 16 == d1
            && bytes[1] % 16 * 4 + bytes[2] / 64 == d2 && bytes[2] % 64 == d3
  {
    var b0, b1, b2 := d0 * 4 + d1 / 16, d1 % 16 * 16 + d2 / 4, d2 % 4 * 64 + d3;
    var x := d0 * 262144 + d1 * 4096 + d2 * 64 + d3;
    assert x == b0 * 65536 + b1 * 256 + b2;
    BytesOfValue(b0, b1, b2);
  }

  /** A group that decodes is the encoding of the bytes it decodes to. */
  lemma GroupEncodes(text: seq<byte>, last: bool)
    requires |text| == 4 && DecodedGroup(text, last).Bytes?
    ensures var bytes := DecodedGroup(text, last).bytes;
            && |bytes| == GroupLength(text, last)
            && Unpadded(text, last) == Digits(bytes[0], if |bytes| > 1 then bytes[1] else 0, if |bytes| > 2 then bytes[2] else 0)
  {
    hide Digit, DigitValue, GroupLength;
    var copy := Unpadded(text, last);
    DigitsAreInverse(0, copy[0]);
    DigitsAreInverse(0, copy[1]);
    DigitsAreInverse(0, copy[2]);
    DigitsAreInverse(0, copy[3]);
    ValueOfBytes(DigitValue(copy[0]), DigitValue(copy[1]), DigitValue(copy[2]), DigitValue(copy[3]));
    var all := ValueBytes(GroupValue(copy));
    assert Digits(all[0], all[1], all[2]) == copy;
    assert GroupLength(text, last) < 3 ==> all[2] == 0;
    assert GroupLength(text, last) < 2 ==> all[1] == 0;
  }

  /** What decodes is the encoding of the bytes it decodes to: no other text is accepted. */
  lemma {:induction false} EncodeInvertsDecode(text: seq<byte>)
    requires |text| % 4 == 0 && Decoding(text).Bytes?
    ensures Encoding(Decoding(text).bytes) == text
  {
    hide DecodedGroup, Digit;
    if text != [] {
      var last := |text| == 4;
      var first := DecodedGroup(text[..4], last).bytes;
      GroupEncodes(text[..4], last);
      EncodeInvertsDecode(text[4..]);
      var rest := Decoding(text[4..]).bytes;
      assert text == text[..4] + text[4..];
      if |first| == 3 {
        assert (first + rest)[3..] == rest;
      } else {
        assert text[4..] == [] && first + rest == first;
        assert text == text[..4];
      }
    }
  }

  /** The decoder succeeds, given room, exactly on encodings. */
  lemma DecodesExactlyEncodings(text: seq<byte>, data: seq<byte>)
    ensures |text| % 4 == 0 && Decoding(text) == Bytes(data) <==> text == Encoding(data)
  {
    DecodeInvertsEncode(data);
    if |text| % 4 == 0 && Decoding(text) == Bytes(data) {
      EncodeInvertsDecode(text);
    }
  }

  /** The room the decoder asks for is that of whole groups, up to two bytes more than it uses. */
  lemma RoomForEncoding(data: seq<byte>)
    ensures |Encoding(data)| / 4 * 3 == (|data| + 2) / 3 * 3
  {
    assert |Encoding(data)| == (|data| + 2) / 3 * 4;
  }

  /** Encoding into a large enough buffer and decoding into a large enough one gives the data back. */
  method RoundTrip(data: seq<byte>) returns (back: seq<byte>)
    ensures back == data
  {
    hide Encoding, Decoding;
    DecodeInvertsEncode(data);
    RoomForEncoding(data);
    var size := (|data| + 2) / 3 * 4 + 1;
    var text := new byte[size];
    StrBase64(text, size, data);
    assert text[..size - 1] == Encoding(data);
    var decoded := new byte[(|data| + 2) / 3 * 3];
    var n := StrBase64Decode(decoded, decoded.Length, text[..size - 1]);
    back := decoded[..n];
  }
}
