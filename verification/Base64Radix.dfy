/**
  What base 64 encodings mean: the alphabet of section 4 of RFC 4648 digit by digit, and the bytes as a
  number in base 256 that is written in base 64.
 */
module Base64Radix {
  import opened Machine
  import opened Base64

  const CAPITALS := "ABCDEFGHIJKLMNOPQRSTUVWXYZ"
  const SMALL_LETTERS := "abcdefghijklmnopqrstuvwxyz"
  const ALPHABET := CAPITALS + SMALL_LETTERS + "0123456789+/"

  function Letter(value: nat): byte
    requires value < 64
  {
    if ALPHABET[value] as int < 256 then ALPHABET[value] as int else 0
  }

  function Power(b: nat, k: nat): nat {
    if k == 0 then 1 else Power(b, k - 1) * b
  }

  /** The number with these digits in base `b`. */
  function Radix(digits: seq<nat>, b: nat): nat {
    if digits == [] then 0 else Radix(digits[..|digits| - 1], b) * b + digits[|digits| - 1]
  }

  function ZeroDigits(n: nat): seq<nat> {
    seq(n, _ => 0)
  }

  /** How many bytes the last group lacks. */
  function Missing(data: seq<byte>): nat {
    (3 - |data| % 3) % 3
  }

  predicate AreSixBits(values: seq<nat>) {
    forall i :: 0 <= i < |values| ==> values[i] < 64
  }

  /** These values as digits of the alphabet, and the padding. */
  ghost predicate Spells(text: seq<byte>, values: seq<nat>, padding: nat) {
    && AreSixBits(values) && |text| == |values| + padding
    && (forall i :: 0 <= i < |values| ==> text[i] == Letter(values[i]))
    && (forall i :: |values| <= i < |text| ==> text[i] == '=' as int)
  }

  lemma DigitIsOfAlphabet(value: nat)
    requires value < 64
    ensures Digit(value) == ALPHABET[value] as int == Letter(value)
  {
    if value < 26 {
      assert ALPHABET[value] == CAPITALS[value];
    } else if value < 52 {
      assert ALPHABET[value] == SMALL_LETTERS[value - 26];
    } else {
      assert ALPHABET[value] == "0123456789+/"[value - 52];
    }
  }

  lemma {:induction false} RadixConcat(x: seq<nat>, y: seq<nat>, b: nat)
    ensures Radix(x + y, b) == Radix(x, b) * Power(b, |y|) + Radix(y, b)
  {
    if y == [] {
      assert x + y == x;
    } else {
      var n := |y| - 1;
      assert (x + y)[..|x + y| - 1] == x + y[..n];
      RadixConcat(x, y[..n], b);
      Regroup(Radix(x, b), Power(b, n), b, Radix(y[..n], b));
    }
  }

  lemma Regroup(x: nat, p: nat, b: nat, y: nat)
    ensures (x * p + y) * b == x * (p * b) + y * b
  {
  }

  /** Four digits of six bits weigh as much as three bytes. */
  lemma {:induction false} PowersMatch(m: nat)
    ensures Power(64, 4 * m) == Power(256, 3 * m)
  {
    if m > 0 {
      PowersMatch(m - 1);
      FourPowers(64, 4 * m - 4);
      ThreePowers(256, 3 * m - 3);
    }
  }

  lemma FourPowers(b: nat, k: nat)
    requires b == 64
    ensures Power(b, k + 4) == Power(b, k) * 0x100_0000
  {
    assert Power(b, k + 4) == Power(b, k + 3) * b && Power(b, k + 3) == Power(b, k + 2) * b;
    assert Power(b, k + 2) == Power(b, k + 1) * b && Power(b, k + 1) == Power(b, k) * b;
  }

  lemma ThreePowers(b: nat, k: nat)
    requires b == 256
    ensures Power(b, k + 3) == Power(b, k) * 0x100_0000
  {
    assert Power(b, k + 3) == Power(b, k + 2) * b && Power(b, k + 2) == Power(b, k + 1) * b;
    assert Power(b, k + 1) == Power(b, k) * b;
  }

  /** The values of the digits of one group. */
  function GroupValues(b0: byte, b1: byte, b2: byte): seq<nat> {
    [b0 / 4, b0 % 4 * 16 + b1 / 16, b1 % 16 * 4 + b2 / 64, b2 % 64]
  }

  lemma GroupIsNumber(b0: byte, b1: byte, b2: byte)
    ensures AreSixBits(GroupValues(b0, b1, b2))
    ensures Radix(GroupValues(b0, b1, b2), 64) == Radix([b0, b1, b2], 256)
    ensures forall k :: 0 <= k < 4 ==> Digits(b0, b1, b2)[k] == Letter(GroupValues(b0, b1, b2)[k])
  {
    hide Digit, Letter, Radix;
    var v := GroupValues(b0, b1, b2);
    GroupLetters(b0, b1, b2);
    GroupOfBytes(b0, b1, b2);
    RadixOfFour(v[0], v[1], v[2], v[3], 64);
    RadixOfThree(b0, b1, b2, 256);
  }

  lemma GroupLetters(b0: byte, b1: byte, b2: byte)
    ensures forall k :: 0 <= k < 4 ==> Digits(b0, b1, b2)[k] == Letter(GroupValues(b0, b1, b2)[k])
  {
    hide Digit, Letter;
    var v := GroupValues(b0, b1, b2);
    DigitIsOfAlphabet(v[0]);
    DigitIsOfAlphabet(v[1]);
    DigitIsOfAlphabet(v[2]);
    DigitIsOfAlphabet(v[3]);
  }

  lemma GroupOfBytes(b0: byte, b1: byte, b2: byte)
    ensures ((b0 / 4 * 64 + (b0 % 4 * 16 + b1 / 16)) * 64 + (b1 % 16 * 4 + b2 / 64)) * 64 + b2 % 64 == (b0 * 256 + b1) * 256 + b2
  {
    assert b0 == b0 / 4 * 4 + b0 % 4 && b1 == b1 / 16 * 16 + b1 % 16 && b2 == b2 / 64 * 64 + b2 % 64;
  }

  lemma RadixOfThree(x: nat, y: nat, z: nat, b: nat)
    ensures Radix([x, y, z], b) == (x * b + y) * b + z
  {
    assert [x, y, z][..2] == [x, y] && [x, y][..1] == [x] && [x][..0] == [];
    assert Radix([x], b) == x && Radix([x, y], b) == x * b + y;
  }

  lemma RadixOfFour(x: nat, y: nat, z: nat, w: nat, b: nat)
    ensures Radix([x, y, z, w], b) == ((x * b + y) * b + z) * b + w
  {
    assert [x, y, z, w][..3] == [x, y, z];
    RadixOfThree(x, y, z, b);
  }

  /**
    The encoding of data, filled up with zeros to whole groups, is the number that the bytes are in base
    256 written in base 64; in place of the digits of the missing bytes it has padding.
   */
  lemma {:induction false} EncodingIsNumber(data: seq<byte>) returns (values: seq<nat>)
    ensures Spells(Encoding(data), values, Missing(data))
    ensures Radix(values + ZeroDigits(Missing(data)), 64) == Radix(data + ZeroDigits(Missing(data)), 256)
  {
    hide Letter, Encoding, Radix, Spells, GroupValues;
    if data == [] {
      values := [];
      NothingIsNumber();
    } else if |data| < 3 {
      values := LastGroupIsNumber(data);
    } else {
      var rest := data[3..];
      var more := EncodingIsNumber(rest);
      values := GroupValues(data[0], data[1], data[2]) + more;
      GroupThenRest(data, more);
    }
  }

  lemma NothingIsNumber()
    ensures Spells(Encoding([]), [], Missing([]))
    ensures Radix([] + ZeroDigits(Missing([])), 64) == Radix([] + ZeroDigits(Missing([])), 256)
  {
    assert [] + ZeroDigits(0) == [];
  }

  lemma LastGroupIsNumber(data: seq<byte>) returns (values: seq<nat>)
    requires 1 <= |data| <= 2
    ensures Spells(Encoding(data), values, Missing(data))
    ensures Radix(values + ZeroDigits(Missing(data)), 64) == Radix(data + ZeroDigits(Missing(data)), 256)
  {
    hide Letter, Encoding, Radix, Digits, GroupValues;
    var b1 := if |data| == 2 then data[1] else 0;
    var group, missing := GroupValues(data[0], b1, 0), Missing(data);
    GroupIsNumber(data[0], b1, 0);
    LastValues(data[0], b1);
    EncodingCases(data);
    values := group[..4 - missing];
    assert values + ZeroDigits(missing) == group;
    assert data + ZeroDigits(missing) == [data[0], b1, 0];
  }

  lemma GroupThenRest(data: seq<byte>, more: seq<nat>)
    requires |data| >= 3 && Spells(Encoding(data[3..]), more, Missing(data[3..]))
    requires var zeros := ZeroDigits(Missing(data[3..])); Radix(more + zeros, 64) == Radix(data[3..] + zeros, 256)
    ensures var values := GroupValues(data[0], data[1], data[2]) + more;
            && Spells(Encoding(data), values, Missing(data))
            && Radix(values + ZeroDigits(Missing(data)), 64) == Radix(data + ZeroDigits(Missing(data)), 256)
  {
    hide Letter, Encoding, Radix, Digits, GroupValues, Spells, Missing;
    var group, rest := GroupValues(data[0], data[1], data[2]), data[3..];
    MissingFills(data);
    var zeros := ZeroDigits(Missing(rest));
    GroupIsNumber(data[0], data[1], data[2]);
    FourOf(data[0], data[1], data[2]);
    EncodingCases(data);
    GroupSpells(data, more);
    assert (group + more) + zeros == group + (more + zeros);
    assert data + zeros == [data[0], data[1], data[2]] + (rest + zeros);
    RadixConcat(group, more + zeros, 64);
    RadixConcat([data[0], data[1], data[2]], rest + zeros, 256);
    var m := WholeGroups(rest, more);
    SamePower(m, |more + zeros|, |rest + zeros|);
  }

  lemma MissingFills(data: seq<byte>)
    ensures |data| + Missing(data) == 3 * ((|data| + 2) / 3)
    ensures |data| >= 3 ==> Missing(data[3..]) == Missing(data)
  {
  }

  /** Digits and bytes are as many groups. */
  lemma WholeGroups(rest: seq<byte>, more: seq<nat>) returns (m: nat)
    requires Spells(Encoding(rest), more, Missing(rest))
    ensures |more| + Missing(rest) == m * 4 && |rest| + Missing(rest) == 3 * m
  {
    hide Letter, Encoding, Missing, Spells, AreSixBits;
    SpellsLength(Encoding(rest), more, Missing(rest));
    MissingFills(rest);
    m := (|rest| + 2) / 3;
  }

  lemma SpellsLength(text: seq<byte>, values: seq<nat>, padding: nat)
    requires Spells(text, values, padding)
    ensures |text| == |values| + padding
  {
  }

  lemma SamePower(m: nat, k: nat, l: nat)
    requires k == m * 4 && l == 3 * m
    ensures Power(64, k) == Power(256, l)
  {
    PowersMatch(m);
  }

  lemma SpellsMore(first: seq<byte>, group: seq<nat>, text: seq<byte>, values: seq<nat>, padding: nat)
    requires |first| == |group| && AreSixBits(group) && Spells(text, values, padding)
    requires forall k :: 0 <= k < |group| ==> first[k] == Letter(group[k])
    ensures Spells(first + text, group + values, padding)
  {
    hide Letter;
  }

  lemma GroupSpells(data: seq<byte>, more: seq<nat>)
    requires |data| >= 3 && Spells(Encoding(data[3..]), more, Missing(data[3..]))
    ensures Spells(Encoding(data), GroupValues(data[0], data[1], data[2]) + more, Missing(data))
  {
    hide Letter, Encoding, Digits, GroupValues, Spells, Missing;
    GroupIsNumber(data[0], data[1], data[2]);
    FourOf(data[0], data[1], data[2]);
    EncodingCases(data);
    MissingFills(data);
    SpellsMore(Digits(data[0], data[1], data[2]), GroupValues(data[0], data[1], data[2]),
               Encoding(data[3..]), more, Missing(data));
  }

  lemma FourOf(b0: byte, b1: byte, b2: byte)
    ensures |GroupValues(b0, b1, b2)| == |Digits(b0, b1, b2)| == 4
  {
  }

  lemma LastValues(b0: byte, b1: byte)
    ensures |GroupValues(b0, b1, 0)| == |Digits(b0, b1, 0)| == 4 && GroupValues(b0, b1, 0)[3] == 0
    ensures b1 == 0 ==> GroupValues(b0, b1, 0)[2] == 0
  {
  }

  lemma EncodingCases(data: seq<byte>)
    ensures data == [] ==> Encoding(data) == []
    ensures |data| == 1 ==> Encoding(data) == Digits(data[0], 0, 0)[..2] + ['=' as int, '=' as int]
    ensures |data| == 2 ==> Encoding(data) == Digits(data[0], data[1], 0)[..3] + ['=' as int]
    ensures |data| >= 3 ==> Encoding(data) == Digits(data[0], data[1], data[2]) + Encoding(data[3..])
    ensures Encoding([]) == []
  {
    hide Digit;
  }
}
