/**
  The few pieces of the C machine model that several components share: bytes, 32-bit unsigned
  integers and `mem_copy`.
 */
module Machine {

  type byte = x: int | 0 <= x < 256

  /** The source's `unsigned int`. Being a `newtype`, every arithmetic step on it is proved not to wrap. */
  newtype uint32 = x: int | 0 <= x < 0x1_0000_0000

  datatype Option<+T> = None | Some(value: T)

  /** The contents `buf` with `data` copied over it from position `at` on. */
  ghost function Stored<T>(buf: seq<T>, at: nat, data: seq<T>): (after: seq<T>)
    requires at + |data| <= |buf|
    ensures |after| == |buf|
  {
    buf[..at] + data + buf[at + |data|..]
  }

  /** `mem_copy(dst + at, src, |src|)`. */
  method MemCopy<T>(dst: array<T>, at: nat, src: seq<T>)
    requires at + |src| <= dst.Length
    modifies dst
    ensures dst[..] == Stored(old(dst[..]), at, src)
  {
    forall k | 0 <= k < |src| {
      dst[at + k] := src[k];
    }
  }
}
