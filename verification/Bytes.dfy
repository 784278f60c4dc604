/** Bytes, little-endian words and byte buffers, as the C code sees memory and the disk. */
module Bytes {

  type byte = b: nat | b < 256

  datatype Option<+T> = None | Some(value: T)

  const WORD: nat := 0x1_0000_0000

  type uint32 = n: nat | n < 0x1_0000_0000

  /** A two-byte little-endian field of a packed structure. */
  function Le16(b: seq<byte>): nat
    requires |b| == 2
  {
    b[0] as int + 256 * b[1] as int
  }

  /** A four-byte little-endian field of a packed structure. */
  function Le32(b: seq<byte>): uint32
    requires |b| == 4
  {
    b[0] as int + 256 * (b[1] as int + 256 * (b[2] as int + 256 * b[3] as int))
  }

  /** `s` with `data` written over it from position `pos` on. */
  function Splice(s: seq<byte>, pos: nat, data: seq<byte>): (r: seq<byte>)
    requires pos + |data| <= |s|
    ensures |r| == |s|
  {
    s[..pos] + data + s[pos + |data|..]
  }

  /** A range that a write does not touch reads as before. */
  lemma SpliceApart(s: seq<byte>, pos: nat, data: seq<byte>, lo: nat, hi: nat)
    requires pos + |data| <= |s| && lo <= hi <= |s|
    requires hi <= pos || pos + |data| <= lo
    ensures Splice(s, pos, data)[lo..hi] == s[lo..hi]
  {
  }

  /** Writing everything. */
  lemma SpliceAll(s: seq<byte>, data: seq<byte>)
    requires |data| == |s|
    ensures Splice(s, 0, data) == data
  {
  }

  /** The second of two writes to the same range is the one that counts. */
  lemma SpliceTwice(s: seq<byte>, pos: nat, first: seq<byte>, second: seq<byte>)
    requires |first| == |second| && pos + |first| <= |s|
    ensures Splice(Splice(s, pos, first), pos, second) == Splice(s, pos, second)
  {
  }
}
