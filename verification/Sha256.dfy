/**
  SHA-256: the one-shot definition of FIPS 180-4 and the streaming implementation of
  `hash_libtomcrypt.cpp`, which agrees with it for every way of cutting the message into updates.
 */
module Sha256 {

  // ---------------------------------------------------------------------------------------------
  // The standard
  // ---------------------------------------------------------------------------------------------

  /** The constants of section 4.2.2 of FIPS 180-4. */
  function K(t: nat): bv32
    requires t < 64
  {
    [
      [0x428a2f98, 0x71374491, 0xb5c0fbcf, 0xe9b5dba5, 0x3956c25b, 0x59f111f1, 0x923f82a4, 0xab1c5ed5],
      [0xd807aa98, 0x12835b01, 0x243185be, 0x550c7dc3, 0x72be5d74, 0x80deb1fe, 0x9bdc06a7, 0xc19bf174],
      [0xe49b69c1, 0xefbe4786, 0x0fc19dc6, 0x240ca1cc, 0x2de92c6f, 0x4a7484aa, 0x5cb0a9dc, 0x76f988da],
      [0x983e5152, 0xa831c66d, 0xb00327c8, 0xbf597fc7, 0xc6e00bf3, 0xd5a79147, 0x06ca6351, 0x14292967],
      [0x27b70a85, 0x2e1b2138, 0x4d2c6dfc, 0x53380d13, 0x650a7354, 0x766a0abb, 0x81c2c92e, 0x92722c85],
      [0xa2bfe8a1, 0xa81a664b, 0xc24b8b70, 0xc76c51a3, 0xd192e819, 0xd6990624, 0xf40e3585, 0x106aa070],
      [0x19a4c116, 0x1e376c08, 0x2748774c, 0x34b0bcb5, 0x391c0cb3, 0x4ed8aa4a, 0x5b9cca4f, 0x682e6ff3],
      [0x748f82ee, 0x78a5636f, 0x84c87814, 0x8cc70208, 0x90befffa, 0xa4506ceb, 0xbef9a3f7, 0xc67178f2]
    ][t / 8][t % 8]
  }

  // The functions of section 4.1.2 of FIPS 180-4.
  function SpecCh(x: bv32, y: bv32, z: bv32): bv32 { (x & y) ^ (!x & z) }
  function SpecMaj(x: bv32, y: bv32, z: bv32): bv32 { (x & y) ^ (x & z) ^ (y & z) }
  function BigSigma0(x: bv32): bv32 { Rot(x, 2) ^ Rot(x, 13) ^ Rot(x, 22) }
  function BigSigma1(x: bv32): bv32 { Rot(x, 6) ^ Rot(x, 11) ^ Rot(x, 25) }
  function SmallSigma0(x: bv32): bv32 { Rot(x, 7) ^ Rot(x, 18) ^ (x >> 3) }
  function SmallSigma1(x: bv32): bv32 { Rot(x, 17) ^ Rot(x, 19) ^ (x >> 10) }

  /** Right rotation, as section 3.2 of FIPS 180-4 and the source write it; see `RotRotates`. */
  function Rot(x: bv32, n: bv32): bv32 { (x >> (n & 31)) | (x << (32 - (n & 31))) }

  /** Addition of words, modulo 2^32. */
  function Add(x: bv32, y: bv32): bv32 { x + y }

  /** Four bytes as a word, most significant first. */
  function Word(b0: bv8, b1: bv8, b2: bv8, b3: bv8): bv32 {
    (b0 as bv32 << 24) | (b1 as bv32 << 16) | (b2 as bv32 << 8) | b3 as bv32
  }

  /** The message schedule of a block, step 1 of section 6.2.2 of FIPS 180-4. */
  function Schedule(block: seq<bv8>, t: nat): bv32
    requires |block| == 64 && t < 64
  {
    if t < 16 then Word(block[4 * t], block[4 * t + 1], block[4 * t + 2], block[4 * t + 3])
    else Add(Add(Add(SmallSigma1(Schedule(block, t - 2)), Schedule(block, t - 7)),
                 SmallSigma0(Schedule(block, t - 15))),
             Schedule(block, t - 16))
  }

  /** Eight words: the hash value between blocks, the working variables within one. */
  datatype Words = Words(a: bv32, b: bv32, c: bv32, d: bv32, e: bv32, f: bv32, g: bv32, h: bv32)

  /** Step 3 of section 6.2.2 of FIPS 180-4 for one `t`. */
  function Round(v: Words, k: bv32, w: bv32): Words {
    var t1 := Add(Add(Add(Add(v.h, BigSigma1(v.e)), SpecCh(v.e, v.f, v.g)), k), w);
    var t2 := Add(BigSigma0(v.a), SpecMaj(v.a, v.b, v.c));
    Words(Add(t1, t2), v.a, v.b, v.c, Add(v.d, t1), v.e, v.f, v.g)
  }

  function Rounds(v: Words, block: seq<bv8>, t: nat): Words
    requires |block| == 64 && t <= 64
  {
    if t == 0 then v else Round(Rounds(v, block, t - 1), K(t - 1), Schedule(block, t - 1))
  }

  function Sum(v: Words, w: Words): Words {
    Words(Add(v.a, w.a), Add(v.b, w.b), Add(v.c, w.c), Add(v.d, w.d),
          Add(v.e, w.e), Add(v.f, w.f), Add(v.g, w.g), Add(v.h, w.h))
  }

  function Compressed(v: Words, block: seq<bv8>): Words
    requires |block| == 64
  {
    Sum(v, Rounds(v, block, 64))
  }

  /** The initial hash value of section 5.3.3 of FIPS 180-4. */
  function Initial(): Words {
    Words(0x6A09E667, 0xBB67AE85, 0x3C6EF372, 0xA54FF53A, 0x510E527F, 0x9B05688C, 0x1F83D9AB, 0x5BE0CD19)
  }

  /** The hash value after whole blocks, section 6.2.2 of FIPS 180-4. */
  function HashBlocks(m: seq<bv8>): Words
    requires |m| % 64 == 0
  {
    if m == [] then Initial()
    else Compressed(HashBlocks(m[..|m| - 64]), m[|m| - 64..])
  }

  function Zeros(n: nat): seq<bv8> {
    seq(n, _ => 0)
  }

  lemma ZerosAdd(i: nat, j: nat)
    ensures Zeros(i) + Zeros(j) == Zeros(i + j)
    ensures Zeros(0) == []
  {
  }

  /** A 64-bit number as eight bytes, most significant first. */
  function Bytes64(x: nat): (bytes: seq<bv8>)
    requires x < 0x1_0000_0000_0000_0000
    ensures |bytes| == 8
  {
    seq(8, i requires 0 <= i < 8 => ByteOf(x, i))
  }

  function ByteOf(x: nat, i: nat): bv8
    requires i < 8
  {
    (x / Pow256(7 - i) % 256) as bv8
  }

  function Pow256(k: nat): (p: nat)
    ensures p > 0
  {
    if k == 0 then 1 else 256 * Pow256(k - 1)
  }

  /** The length in bits; the standard only defines the hash of messages for which it is below 2^64. */
  function BitLength(n: nat): nat {
    8 * n % 0x1_0000_0000_0000_0000
  }

  /** How many zero bytes follow the 1 bit in the padding of a message of `n` bytes. */
  function ZeroBytes(n: nat): nat {
    (119 - n % 64) % 64
  }

  /** With `k` zero bytes the padded message ends eight bytes before the end of a block. */
  predicate PadsToLengthField(n: nat, k: nat) {
    (n + 1 + k) % 64 == 56
  }

  /** What section 5.1.1 of FIPS 180-4 says about it: the least number that leaves room for the length. */
  lemma ZeroBytesIsLeast(n: nat)
    ensures PadsToLengthField(n, ZeroBytes(n))
    ensures forall k: nat :: k < ZeroBytes(n) ==> !PadsToLengthField(n, k)
  {
    var q, r := n / 64, n % 64;
    assert n == 64 * q + r;
    if r <= 55 {
      assert ZeroBytes(n) == 55 - r;
      Mod64(q, 56);
      forall k: nat | k < ZeroBytes(n)
        ensures !PadsToLengthField(n, k)
      {
        Mod64(q, r + 1 + k);
      }
    } else {
      assert ZeroBytes(n) == 119 - r;
      Mod64(q + 1, 56);
      forall k: nat | k < ZeroBytes(n)
        ensures !PadsToLengthField(n, k)
      {
        if r + 1 + k < 64 {
          Mod64(q, r + 1 + k);
        } else {
          Mod64(q + 1, r + 1 + k - 64);
        }
      }
    }
  }

  lemma ZeroBytesFrom(n: nat, curlen: nat)
    requires curlen < 64 && curlen <= n && (n - curlen) % 64 == 0
    ensures ZeroBytes(n) == if curlen + 1 > 56 then 119 - curlen else 55 - curlen
  {
    assert n == (n - curlen) / 64 * 64 + curlen;
    Mod64((n - curlen) / 64, curlen);
  }

  lemma Mod64(q: nat, r: nat)
    requires r < 64
    ensures (64 * q + r) % 64 == r
  {
  }

  lemma PaddedLength(n: nat)
    ensures (n + 1 + ZeroBytes(n) + 8) % 64 == 0
  {
    ZeroBytesIsLeast(n);
    Mod64((n + 1 + ZeroBytes(n)) / 64 + 1, 0);
  }

  /** Section 5.1.1 of FIPS 180-4. */
  function Padded(m: seq<bv8>): (p: seq<bv8>)
    ensures |p| % 64 == 0
  {
    PaddedLength(|m|);
    m + [0x80] + Zeros(ZeroBytes(|m|)) + Bytes64(BitLength(|m|))
  }

  lemma PaddedIs(m: seq<bv8>)
    ensures Padded(m) == m + [0x80] + Zeros(ZeroBytes(|m|)) + Bytes64(BitLength(|m|))
  {
  }

  function WordBytes(w: bv32): seq<bv8> {
    [((w >> 24) & 255) as bv8, ((w >> 16) & 255) as bv8, ((w >> 8) & 255) as bv8, (w & 255) as bv8]
  }

  /** The message digest of section 6.2 of FIPS 180-4. */
  function Digest(m: seq<bv8>): seq<bv8> {
    HashBytes(HashBlocks(Padded(m)))
  }

  function HashBytes(v: Words): seq<bv8> {
    WordBytes(v.a) + WordBytes(v.b) + WordBytes(v.c) + WordBytes(v.d)
    + WordBytes(v.e) + WordBytes(v.f) + WordBytes(v.g) + WordBytes(v.h)
  }

  // ---------------------------------------------------------------------------------------------
  // The source's bit functions
  // ---------------------------------------------------------------------------------------------

  function Ch(x: bv32, y: bv32, z: bv32): bv32 { z ^ (x & (y ^ z)) }
  function Maj(x: bv32, y: bv32, z: bv32): bv32 { ((x | y) & z) | (x & y) }
  lemma ChBits(x: bv32, y: bv32, z: bv32)
    ensures z ^ (x & (y ^ z)) == (x & y) ^ (!x & z)
  {
  }

  lemma MajBits(x: bv32, y: bv32, z: bv32)
    ensures ((x | y) & z) | (x & y) == (x & y) ^ (x & z) ^ (y & z)
  {
  }

  /** The shifted words put together are a rotation, for every amount in use. */
  lemma RotRotates(x: bv32)
    ensures Rot(x, 2) == x.RotateRight(2)
    ensures Rot(x, 6) == x.RotateRight(6)
    ensures Rot(x, 7) == x.RotateRight(7)
    ensures Rot(x, 11) == x.RotateRight(11)
    ensures Rot(x, 13) == x.RotateRight(13)
    ensures Rot(x, 17) == x.RotateRight(17)
    ensures Rot(x, 18) == x.RotateRight(18)
    ensures Rot(x, 19) == x.RotateRight(19)
    ensures Rot(x, 22) == x.RotateRight(22)
    ensures Rot(x, 25) == x.RotateRight(25)
  {
  }

  /** The source's shorter formulas for choice and majority are those of the standard. */
  lemma ChMeetsStandard(x: bv32, y: bv32, z: bv32)
    ensures Ch(x, y, z) == SpecCh(x, y, z)
  {
    ChBits(x, y, z);
  }

  lemma MajMeetsStandard(x: bv32, y: bv32, z: bv32)
    ensures Maj(x, y, z) == SpecMaj(x, y, z)
  {
    MajBits(x, y, z);
  }

  // ---------------------------------------------------------------------------------------------
  // The streaming implementation
  // ---------------------------------------------------------------------------------------------

  const BLOCK_SIZE: nat := 64

  /** Eight words held in an array. */
  function AsWords(s: seq<bv32>): Words
    requires |s| == 8
  {
    Words(s[0], s[1], s[2], s[3], s[4], s[5], s[6], s[7])
  }

  lemma PaddedInTwo(m: seq<bv8>, n: nat)
    ensures m + [0x80] + Zeros(n) + Zeros(56) == m + [0x80] + Zeros(n + 56)
  {
    hide Zeros;
    ZerosAdd(n, 56);
  }

  lemma AsWordsOf(v: Words)
    ensures AsWords([v.a, v.b, v.c, v.d, v.e, v.f, v.g, v.h]) == v
  {
  }

  class Sha256State {
    var length: nat            // in bits, modulo 2^64
    const state: array<bv32>
    var curlen: nat
    const buf: array<bv8>
    /** Everything absorbed so far. */
    ghost var message: seq<bv8>

    ghost predicate Valid()
      reads this, state, buf
    {
      && HoldsMessage()
      && curlen < BLOCK_SIZE
      && length == BitLength(|message| - curlen)
    }

    /** The whole blocks of the message are hashed into `state`, the rest of it is kept in `buf`. */
    ghost predicate HoldsMessage()
      reads this, state, buf
    {
      && state.Length == 8 && buf.Length == BLOCK_SIZE
      && curlen <= BLOCK_SIZE && curlen <= |message|
      && (|message| - curlen) % 64 == 0
      && AsWords(state[..]) == HashBlocks(message[..|message| - curlen])
      && buf[..curlen] == message[|message| - curlen..]
    }

    /** `sha_init`. */
    constructor ()
      ensures Valid() && message == [] && fresh(state) && fresh(buf)
    {
      hide Initial, HashBlocks, BitLength, AsWords;
      var v := Initial();
      StartsEmpty();
      length := 0;
      curlen := 0;
      state := new bv32[8] [v.a, v.b, v.c, v.d, v.e, v.f, v.g, v.h];
      buf := new bv8[BLOCK_SIZE];
      message := [];
      new;
      assert state[..] == [v.a, v.b, v.c, v.d, v.e, v.f, v.g, v.h];
      AsWordsOf(v);
      assert message[..0] == [];
    }

    /** `sha_compress`. */
    method Compress(block: seq<bv8>)
      requires |block| == 64 && state.Length == 8
      modifies state
      ensures AsWords(state[..]) == Compressed(old(AsWords(state[..])), block)
    {
      hide Rounds, Add;
      var S := RunRounds(state[..], block);
      var i := 0;
      while i < 8
        invariant 0 <= i <= 8
        invariant forall k :: 0 <= k < i ==> state[k] == Add(old(state[k]), S[k])
        invariant forall k :: i <= k < 8 ==> state[k] == old(state[k])
      {
        state[i] := Add(state[i], S[i]);
        i := i + 1;
      }
    }
  
    /** Hashes one whole block right from the input. */
    method AbsorbBlock(block: seq<bv8>)
      requires Valid() && curlen == 0 && |block| == 64
      modifies this`length, this`message, state
      ensures Valid() && curlen == 0
      ensures message == old(message) + block
    {
      hide Compressed;
      assert message[..|message|] == message;
      HashBlocksSnoc(message, block);
      BitLengthAdds(|message|, 64);
      Compress(block);
      length := (length + BLOCK_SIZE * 8) % 0x1_0000_0000_0000_0000;
      message := message + block;
      assert message[..|message|] == message;
      Mod64Adds(|message| - 64);
    }

    /** `memcpy` to the end of what is in `buf`. */
    method AppendToBuf(part: seq<bv8>)
      requires HoldsMessage() && curlen + |part| <= BLOCK_SIZE
      modifies this`curlen, this`message, buf
      ensures HoldsMessage()
      ensures curlen == old(curlen) + |part|
      ensures message == old(message) + part
    {
      hide HashBlocks;
      forall k | 0 <= k < |part| {
        buf[curlen + k] := part[k];
      }
      ghost var whole := |message| - curlen;
      assert buf[..curlen] == message[whole..];
      assert buf[..curlen + |part|] == buf[..curlen] + part;
      assert (message + part)[..whole] == message[..whole];
      assert (message + part)[whole..] == message[whole..] + part;
      curlen := curlen + |part|;
      message := message + part;
    }

    /** Hashes the buffer once it is full. */
    method FlushBuf()
      requires HoldsMessage() && curlen == BLOCK_SIZE
      modifies this`curlen, state
      ensures HoldsMessage() && curlen == 0
    {
      hide Compressed;
      ghost var whole := |message| - 64;
      HashBlocksSnoc(message[..whole], message[whole..]);
      assert message[..whole] + message[whole..] == message;
      assert buf[..curlen] == buf[..];
      Mod64Adds(whole);
      Compress(buf[..]);
      curlen := 0;
      assert message[..|message|] == message;
    }

    /** `sha_process`, with its 32-bit length. */
    method Process(src: seq<bv8>)
      requires Valid() && |src| < 0x1_0000_0000
      modifies this, state, buf
      ensures Valid()
      ensures message == old(message) + src
    {
      hide HashBlocks, BitLength, HoldsMessage;
      var at := 0;
      while at < |src|
        invariant 0 <= at <= |src|
        invariant Valid()
        invariant message == old(message) + src[..at]
      {
        var inlen := |src| - at;
        if curlen == 0 && inlen >= BLOCK_SIZE {
          AbsorbBlock(src[at..at + BLOCK_SIZE]);
          assert src[..at + BLOCK_SIZE] == src[..at] + src[at..at + BLOCK_SIZE];
          at := at + BLOCK_SIZE;
        } else {
          var n := if inlen < BLOCK_SIZE - curlen then inlen else BLOCK_SIZE - curlen;
          AbsorbPart(src[at..at + n]);
          assert src[..at + n] == src[..at] + src[at..at + n];
          at := at + n;
        }
      }
    }

    /** Collects input in the buffer, and hashes it when it is full. */
    method AbsorbPart(part: seq<bv8>)
      requires Valid() && curlen + |part| <= BLOCK_SIZE
      modifies this, state, buf
      ensures Valid()
      ensures message == old(message) + part
    {
      hide HashBlocks;
      AppendToBuf(part);
      if curlen == BLOCK_SIZE {
        BitLengthAdds(|message| - 64, 64);
        FlushBuf();
        length := (length + 8 * BLOCK_SIZE) % 0x1_0000_0000_0000_0000;
      }
    }

    /** `sha256_update`, which hands its `size_t` length to the 32-bit parameter of `sha_process`. */
    method Update(data: seq<bv8>)
      requires Valid()
      modifies this, state, buf
      ensures Valid()
      ensures message == old(message) + Absorbed(data)
      ensures message == old(message) + data <==> |data| < 0x1_0000_0000
    {
      AbsorbedAllIff(data);
      assert |message + Absorbed(data)| == |message| + |Absorbed(data)|;
      Process(Absorbed(data));
    }

    /** `sha_done`. */
    method Finish() returns (out: seq<bv8>)
      requires Valid()
      modifies this, state, buf
      ensures out == Digest(old(message))
    {
      hide HashBlocks, Bytes64, Padded, HashBytes, Zeros, ZeroBytes, BitLength;
      BitLengthAdds(|message| - curlen, curlen);
      length := (length + curlen * 8) % 0x1_0000_0000_0000_0000;
      PadToLengthField();
      AppendToBuf(Bytes64(length));
      PaddedIs(old(message));
      FlushBuf();
      assert message[..|message|] == message;
      out := HashBytes(AsWords(state[..]));
    }

    /** Appends the 1 bit and zeros up to where the length goes, with one more block if that is already past. */
    method PadToLengthField()
      requires HoldsMessage() && curlen < BLOCK_SIZE
      modifies this`curlen, this`message, state, buf
      ensures HoldsMessage() && curlen == 56
      ensures message == old(message) + [0x80] + Zeros(ZeroBytes(|old(message)|))
    {
      hide HashBlocks, Zeros, ZeroBytes, HoldsMessage;
      ghost var m, c := message, curlen;
      HeldLength();
      ZeroBytesFrom(|m|, c);
      ZerosAdd(0, 0);
      AppendToBuf([0x80]);
      if curlen > 56 {
        AppendZeros(64);
        FlushBuf();
        AppendZeros(56);
        PaddedInTwo(m, 63 - c);
      } else {
        AppendZeros(56);
      }
    }

    lemma HeldLength()
      requires HoldsMessage()
      ensures curlen <= |message| && (|message| - curlen) % 64 == 0
    {
    }

    /** The loops that pad the buffer with zero bytes. */
    method AppendZeros(limit: nat)
      requires HoldsMessage() && curlen <= limit <= BLOCK_SIZE
      modifies this`curlen, this`message, buf
      ensures HoldsMessage() && curlen == limit
      ensures message == old(message) + Zeros(limit - old(curlen))
    {
      hide HashBlocks;
      while curlen < limit
        invariant HoldsMessage() && old(curlen) <= curlen <= limit
        invariant message == old(message) + Zeros(curlen - old(curlen))
      {
        ghost var n := curlen - old(curlen);
        assert Zeros(n) + [0] == Zeros(n + 1);
        AppendToBuf([0]);
      }
    }
  }

  /** The bytes `sha256_update` takes in: the length is cut down to 32 bits. */
  function Absorbed(data: seq<bv8>): seq<bv8> {
    data[..|data| % 0x1_0000_0000]
  }

  /** All of the data exactly if it is shorter than 4 GiB. */
  lemma AbsorbedAllIff(data: seq<bv8>)
    ensures Absorbed(data) == data <==> |data| < 0x1_0000_0000
  {
    assert |Absorbed(data)| == |data| % 0x1_0000_0000;
  }

  function Concat(parts: seq<seq<bv8>>): seq<bv8> {
    if parts == [] then [] else Concat(parts[..|parts| - 1]) + parts[|parts| - 1]
  }

  /** What any number of updates take in. */
  function AbsorbedParts(parts: seq<seq<bv8>>): (absorbed: seq<seq<bv8>>)
    ensures |absorbed| == |parts| && forall i :: 0 <= i < |parts| ==> absorbed[i] == Absorbed(parts[i])
  {
    seq(|parts|, i requires 0 <= i < |parts| => Absorbed(parts[i]))
  }

  /** Below 4 GiB a part, that is everything. */
  lemma AbsorbedPartsAll(parts: seq<seq<bv8>>)
    requires forall i :: 0 <= i < |parts| ==> |parts[i]| < 0x1_0000_0000
    ensures AbsorbedParts(parts) == parts
  {
    hide Absorbed;
    forall i | 0 <= i < |parts|
      ensures AbsorbedParts(parts)[i] == parts[i]
    {
      AbsorbedAllIff(parts[i]);
    }
  }

  /** `sha256_init`, any number of updates, `sha256_finish`: the hash does not depend on where the message was cut. */
  method HashParts(parts: seq<seq<bv8>>) returns (out: seq<bv8>)
    ensures out == Digest(Concat(AbsorbedParts(parts)))
    ensures (forall i :: 0 <= i < |parts| ==> |parts[i]| < 0x1_0000_0000) ==> out == Digest(Concat(parts))
  {
    hide *;
    ConcatNone();
    ghost var absorbed := AbsorbedParts(parts);
    var ctxt := new Sha256State();
    var i := 0;
    while i < |parts|
      invariant 0 <= i <= |parts|
      invariant ctxt.Valid() && fresh(ctxt) && fresh(ctxt.state) && fresh(ctxt.buf)
      invariant ctxt.message == Concat(absorbed[..i])
    {
      ConcatSnoc(absorbed, i);
      ctxt.Update(parts[i]);
      i := i + 1;
    }
    assert absorbed[..i] == absorbed;
    out := ctxt.Finish();
    if forall i :: 0 <= i < |parts| ==> |parts[i]| < 0x1_0000_0000 {
      AbsorbedPartsAll(parts);
    }
  }

  lemma ConcatNone()
    ensures Concat([]) == []
  {
  }

  lemma ConcatSnoc(parts: seq<seq<bv8>>, i: nat)
    requires i < |parts|
    ensures Concat(parts[..i + 1]) == Concat(parts[..i]) + parts[i]
  {
    assert parts[..i + 1][..i] == parts[..i];
  }

  lemma StartsEmpty()
    ensures HashBlocks([]) == Initial() && BitLength(0) == 0
  {
  }

  lemma HashBlocksSnoc(m: seq<bv8>, block: seq<bv8>)
    requires |m| % 64 == 0 && |block| == 64
    ensures (|m| + 64) % 64 == 0 && |m + block| == |m| + 64
    ensures HashBlocks(m + block) == Compressed(HashBlocks(m), block)
  {
    hide Compressed;
    Mod64Adds(|m|);
    var all := m + block;
    assert all[..|all| - 64] == m && all[|all| - 64..] == block;
  }

  lemma Mod64Adds(n: nat)
    ensures (n + 64) % 64 == n % 64
  {
  }

  lemma BitLengthAdds(n: nat, k: nat)
    ensures (BitLength(n) + 8 * k) % 0x1_0000_0000_0000_0000 == BitLength(n + k)
  {
  }

  /** The compression loop of `sha_compress`, on a copy of the state. */
  method RunRounds(state: seq<bv32>, block: seq<bv8>) returns (result: seq<bv32>)
    requires |state| == 8 && |block| == 64
    ensures |result| == 8 && AsWords(result) == Rounds(AsWords(state), block, 64)
  {
    hide K, Schedule, Round;
    var W := FillSchedule(block);
    var S := new bv32[8](i requires 0 <= i < 8 => state[i]);
    assert S[..] == state;
    var i := 0;
    while i < 64
      invariant 0 <= i <= 64
      invariant AsWords(S[..]) == Rounds(AsWords(state), block, i)
    {
      RunRound(S, K(i), W[i]);
      i := i + 1;
    }
    result := S[..];
  }

  /** The schedule `W` of a block, kept in an array. */
  method FillSchedule(block: seq<bv8>) returns (schedule: seq<bv32>)
    requires |block| == 64
    ensures |schedule| == 64
    ensures forall k :: 0 <= k < 64 ==> schedule[k] == Schedule(block, k)
  {
    hide SmallSigma0, SmallSigma1, Word, Add;
    var W := new bv32[64];
    var i := 0;
    while i < 16
      invariant 0 <= i <= 16
      invariant forall k :: 0 <= k < i ==> W[k] == Schedule(block, k)
    {
      W[i] := Word(block[4 * i], block[4 * i + 1], block[4 * i + 2], block[4 * i + 3]);
      i := i + 1;
    }
    while i < 64
      invariant 16 <= i <= 64
      invariant forall k :: 0 <= k < i ==> W[k] == Schedule(block, k)
    {
      W[i] := Add(Add(Add(SmallSigma1(W[i - 2]), W[i - 7]), SmallSigma0(W[i - 15])), W[i - 16]);
      i := i + 1;
    }
    schedule := W[..];
  }

  /** The macro `RND` followed by the rotation of the registers. */
  method RunRound(S: array<bv32>, k: bv32, w: bv32)
    requires S.Length == 8
    modifies S
    ensures AsWords(S[..]) == Round(old(AsWords(S[..])), k, w)
  {
    hide BigSigma0, BigSigma1, SpecCh, SpecMaj, Ch, Maj, Add;
    ChMeetsStandard(S[4], S[5], S[6]);
    MajMeetsStandard(S[0], S[1], S[2]);
    var t0 := Add(Add(Add(Add(S[7], BigSigma1(S[4])), Ch(S[4], S[5], S[6])), k), w);
    var t1 := Add(BigSigma0(S[0]), Maj(S[0], S[1], S[2]));
    S[3] := Add(S[3], t0);
    S[7] := Add(t0, t1);
    var t := S[7];
    S[7] := S[6];
    S[6] := S[5];
    S[5] := S[4];
    S[4] := S[3];
    S[3] := S[2];
    S[2] := S[1];
    S[1] := S[0];
    S[0] := t;
  }
}
