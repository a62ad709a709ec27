/**
  Where the constants of SHA-256 come from, and how words and lengths are laid out in bytes.
 */
module Sha256Constants {
  import opened Sha256

  /** The first 64 primes. */
  function Prime(t: nat): nat
    requires t < 64
  {
    [
      [2, 3, 5, 7, 11, 13, 17, 19],
      [23, 29, 31, 37, 41, 43, 47, 53],
      [59, 61, 67, 71, 73, 79, 83, 89],
      [97, 101, 103, 107, 109, 113, 127, 131],
      [137, 139, 149, 151, 157, 163, 167, 173],
      [179, 181, 191, 193, 197, 199, 211, 223],
      [227, 229, 233, 239, 241, 251, 257, 263],
      [269, 271, 277, 281, 283, 293, 307, 311]
    ][t / 8][t % 8]
  }

  /** The whole part of the cube root of that prime. */
  function CubeRoot(t: nat): nat
    requires t < 64
  {
    if t < 4 then 1 else if t < 9 then 2 else if t < 18 then 3 else if t < 30 then 4 else if t < 47 then 5 else 6
  }

  /** `r` and then the 32 bits of `bits` as a fraction are the beginning of the cube root of `p`. */
  predicate CubeRootBits(p: nat, r: nat, bits: bv32) {
    var n := r * 0x1_0000_0000 + bits as int;
    n * n * n <= p * 0x1_0000_0000_0000_0000_0000_0000 < (n + 1) * (n + 1) * (n + 1)
  }

  predicate SquareRootBits(p: nat, r: nat, bits: bv32) {
    var n := r * 0x1_0000_0000 + bits as int;
    n * n <= p * 0x1_0000_0000_0000_0000 < (n + 1) * (n + 1)
  }

  lemma CubeRootsFrom0(t: nat)
    requires 0 <= t < 4
    ensures CubeRootBits(Prime(t), CubeRoot(t), K(t))
  {
    match t
    case 0 =>
    case 1 =>
    case 2 =>
    case 3 =>
  }

  lemma CubeRootsFrom4(t: nat)
    requires 4 <= t < 8
    ensures CubeRootBits(Prime(t), CubeRoot(t), K(t))
  {
    match t
    case 4 =>
    case 5 =>
    case 6 =>
    case 7 =>
  }

  lemma CubeRootsFrom8(t: nat)
    requires 8 <= t < 12
    ensures CubeRootBits(Prime(t), CubeRoot(t), K(t))
  {
    match t
    case 8 =>
    case 9 =>
    case 10 =>
    case 11 =>
  }

  lemma CubeRootsFrom12(t: nat)
    requires 12 <= t < 16
    ensures CubeRootBits(Prime(t), CubeRoot(t), K(t))
  {
    match t
    case 12 =>
    case 13 =>
    case 14 =>
    case 15 =>
  }

  lemma CubeRootsFrom16(t: nat)
    requires 16 <= t < 20
    ensures CubeRootBits(Prime(t), CubeRoot(t), K(t))
  {
    match t
    case 16 =>
    case 17 =>
    case 18 =>
    case 19 =>
  }

  lemma CubeRootsFrom20(t: nat)
    requires 20 <= t < 24
    ensures CubeRootBits(Prime(t), CubeRoot(t), K(t))
  {
    match t
    case 20 =>
    case 21 =>
    case 22 =>
    case 23 =>
  }

  lemma CubeRootsFrom24(t: nat)
    requires 24 <= t < 28
    ensures CubeRootBits(Prime(t), CubeRoot(t), K(t))
  {
    match t
    case 24 =>
    case 25 =>
    case 26 =>
    case 27 =>
  }

  lemma CubeRootsFrom28(t: nat)
    requires 28 <= t < 32
    ensures CubeRootBits(Prime(t), CubeRoot(t), K(t))
  {
    match t
    case 28 =>
    case 29 =>
    case 30 =>
    case 31 =>
  }

  lemma CubeRootsFrom32(t: nat)
    requires 32 <= t < 36
    ensures CubeRootBits(Prime(t), CubeRoot(t), K(t))
  {
    match t
    case 32 =>
    case 33 =>
    case 34 =>
    case 35 =>
  }

  lemma CubeRootsFrom36(t: nat)
    requires 36 <= t < 40
    ensures CubeRootBits(Prime(t), CubeRoot(t), K(t))
  {
    match t
    case 36 =>
    case 37 =>
    case 38 =>
    case 39 =>
  }

  lemma CubeRootsFrom40(t: nat)
    requires 40 <= t < 44
    ensures CubeRootBits(Prime(t), CubeRoot(t), K(t))
  {
    match t
    case 40 =>
    case 41 =>
    case 42 =>
    case 43 =>
  }

  lemma CubeRootsFrom44(t: nat)
    requires 44 <= t < 48
    ensures CubeRootBits(Prime(t), CubeRoot(t), K(t))
  {
    match t
    case 44 =>
    case 45 =>
    case 46 =>
    case 47 =>
  }

  lemma CubeRootsFrom48(t: nat)
    requires 48 <= t < 52
    ensures CubeRootBits(Prime(t), CubeRoot(t), K(t))
  {
    match t
    case 48 =>
    case 49 =>
    case 50 =>
    case 51 =>
  }

  lemma CubeRootsFrom52(t: nat)
    requires 52 <= t < 56
    ensures CubeRootBits(Prime(t), CubeRoot(t), K(t))
  {
    match t
    case 52 =>
    case 53 =>
    case 54 =>
    case 55 =>
  }

  lemma CubeRootsFrom56(t: nat)
    requires 56 <= t < 60
    ensures CubeRootBits(Prime(t), CubeRoot(t), K(t))
  {
    match t
    case 56 =>
    case 57 =>
    case 58 =>
    case 59 =>
  }

  lemma CubeRootsFrom60(t: nat)
    requires 60 <= t < 64
    ensures CubeRootBits(Prime(t), CubeRoot(t), K(t))
  {
    match t
    case 60 =>
    case 61 =>
    case 62 =>
    case 63 =>
  }

  /** Section 4.2.2 of FIPS 180-4: the first 32 bits of the fractions of the cube roots of the first 64 primes. */
  lemma ConstantsAreCubeRoots(t: nat)
    requires t < 64
    ensures CubeRootBits(Prime(t), CubeRoot(t), K(t))
  {
    hide CubeRootBits, CubeRoot, Prime, K;
    match t / 4
    case 0 => CubeRootsFrom0(t);
    case 1 => CubeRootsFrom4(t);
    case 2 => CubeRootsFrom8(t);
    case 3 => CubeRootsFrom12(t);
    case 4 => CubeRootsFrom16(t);
    case 5 => CubeRootsFrom20(t);
    case 6 => CubeRootsFrom24(t);
    case 7 => CubeRootsFrom28(t);
    case 8 => CubeRootsFrom32(t);
    case 9 => CubeRootsFrom36(t);
    case 10 => CubeRootsFrom40(t);
    case 11 => CubeRootsFrom44(t);
    case 12 => CubeRootsFrom48(t);
    case 13 => CubeRootsFrom52(t);
    case 14 => CubeRootsFrom56(t);
    case 15 => CubeRootsFrom60(t);
  }

  /** Section 5.3.3 of FIPS 180-4: the same of the square roots of the first 8 primes. */
  lemma InitialIsSquareRoots()
    ensures var v := Initial();
            && SquareRootBits(2, 1, v.a) && SquareRootBits(3, 1, v.b)
            && SquareRootBits(5, 2, v.c) && SquareRootBits(7, 2, v.d)
            && SquareRootBits(11, 3, v.e) && SquareRootBits(13, 3, v.f)
            && SquareRootBits(17, 4, v.g) && SquareRootBits(19, 4, v.h)
  {
  }

  /** Words and their bytes determine each other, the first byte being the most significant. */
  lemma WordsAreBytes(w: bv32, b0: bv8, b1: bv8, b2: bv8, b3: bv8)
    ensures var b := WordBytes(w); |b| == 4 && Word(b[0], b[1], b[2], b[3]) == w
    ensures WordBytes(Word(b0, b1, b2, b3)) == [b0, b1, b2, b3]
    ensures Word(0, 0, 0, b3) < 0x100 && (b0 != 0 ==> Word(b0, b1, b2, b3) >= 0x100_0000)
    ensures Word(0, 0, b2, b3) < 0x1_0000 && Word(0, b1, b2, b3) < 0x100_0000
  {
  }

  /** The number with these bytes as its digits in base 256. */
  function BigEndian(bytes: seq<bv8>): nat {
    if bytes == [] then 0 else BigEndian(bytes[..|bytes| - 1]) * 256 + bytes[|bytes| - 1] as int
  }

  lemma {:induction false} ByteAsNumber(v: nat)
    requires v < 256
    ensures (v as bv8) as int == v
  {
    if v > 0 {
      ByteAsNumber(v - 1);
      var w := (v - 1) as bv8;
      assert w != 255;
      assert (w + 1) as int == v;
    }
  }

  lemma ByteAt(x: nat, i: nat)
    requires x < 0x1_0000_0000_0000_0000 && i < 8
    ensures Bytes64(x)[i] as int == x / Pow256(7 - i) % 256
  {
    hide Pow256;
    ByteAsNumber(x / Pow256(7 - i) % 256);
  }

  lemma BigEndianSnoc(bytes: seq<bv8>, n: nat)
    requires 0 < n <= |bytes|
    ensures BigEndian(bytes[..n]) == BigEndian(bytes[..n - 1]) * 256 + bytes[n - 1] as int
  {
    assert bytes[..n][..n - 1] == bytes[..n - 1];
  }

  lemma {:induction false} Bytes64Prefix(x: nat, n: nat)
    requires x < 0x1_0000_0000_0000_0000 && n <= 8
    ensures BigEndian(Bytes64(x)[..n]) == x / Pow256(8 - n)
  {
    hide Pow256, Bytes64, BigEndian;
    if n == 0 {
      assert Bytes64(x)[..0] == [];
      NoBytes();
      Powers();
    } else {
      Bytes64Prefix(x, n - 1);
      BigEndianSnoc(Bytes64(x), n);
      ByteAt(x, n - 1);
      OneMoreByte(x, 8 - n);
    }
  }

  lemma NoBytes()
    ensures BigEndian([]) == 0
  {
  }

  lemma Powers()
    ensures Pow256(0) == 1 && Pow256(1) == 0x100 && Pow256(2) == 0x1_0000 && Pow256(3) == 0x100_0000
    ensures Pow256(4) == 0x1_0000_0000 && Pow256(5) == 0x100_0000_0000 && Pow256(6) == 0x1_0000_0000_0000
    ensures Pow256(7) == 0x100_0000_0000_0000 && Pow256(8) == 0x1_0000_0000_0000_0000
  {
  }

  lemma OneMoreByte(x: nat, k: nat)
    requires k < 8
    ensures x / Pow256(k + 1) * 256 + x / Pow256(k) % 256 == x / Pow256(k)
  {
    hide Pow256;
    Powers();
    match k
    case 0 =>
    case 1 =>
    case 2 =>
    case 3 =>
    case 4 =>
    case 5 =>
    case 6 =>
    case 7 =>
  }

  /** The length field of the padding is the length, most significant byte first. */
  lemma LengthFieldIsLength(x: nat)
    requires x < 0x1_0000_0000_0000_0000
    ensures BigEndian(Bytes64(x)) == x
  {
    Bytes64Prefix(x, 8);
    Powers();
    assert Bytes64(x)[..8] == Bytes64(x);
  }
}
