/** Option, fixed-width unsigned integers and the little-endian encodings of the archive format. */
module Wrappers {
  datatype Option<+T> = None | Some(value: T) {
    function GetOr(default: T): T {
      match this
      case Some(v) => v
      case None => default
    }
  }
}

module Bytes {
  type u8 = x: int | 0 <= x < 0x100
  type u16 = x: int | 0 <= x < 0x1_0000
  type u32 = x: int | 0 <= x < 0x1_0000_0000
  type u64 = x: int | 0 <= x < 0x1_0000_0000_0000_0000

  /** le16_to_cpu of the two bytes at s[i..i+2]. */
  function LE16(s: seq<u8>, i: nat): u16
    requires i + 2 <= |s|
  {
    s[i] as int + 0x100 * s[i + 1] as int
  }

  /** le32_to_cpu of the four bytes at s[i..i+4]. */
  function LE32(s: seq<u8>, i: nat): u32
    requires i + 4 <= |s|
  {
    LE16(s, i) as int + 0x1_0000 * LE16(s, i + 2) as int
  }

  /** le64_to_cpu of the eight bytes at s[i..i+8]. */
  function LE64(s: seq<u8>, i: nat): u64
    requires i + 8 <= |s|
  {
    LE32(s, i) as int + 0x1_0000_0000 * LE32(s, i + 4) as int
  }

  /** cpu_to_le16: the two bytes a writer stores for v. */
  function U16Bytes(v: u16): (b: seq<u8>)
    ensures |b| == 2 && LE16(b, 0) == v
  {
    [v % 0x100, v / 0x100]
  }

  /** cpu_to_le32: the four bytes a writer stores for v. */
  function U32Bytes(v: u32): (b: seq<u8>)
    ensures |b| == 4 && LE32(b, 0) == v
  {
    var lo, hi := U16Bytes(v % 0x1_0000), U16Bytes(v / 0x1_0000);
    assert LE16(lo + hi, 0) == LE16(lo, 0);
    assert LE16(lo + hi, 2) == LE16(hi, 0);
    lo + hi
  }

  /** cpu_to_le64: the eight bytes a writer stores for v. */
  function U64Bytes(v: u64): (b: seq<u8>)
    ensures |b| == 8 && LE64(b, 0) == v
  {
    var lo, hi := U32Bytes(v % 0x1_0000_0000), U32Bytes(v / 0x1_0000_0000);
    assert (lo + hi)[0..4] == lo[0..4] && (lo + hi)[4..8] == hi[0..4];
    LE32Local(lo + hi, 0, lo, 0);
    LE32Local(lo + hi, 4, hi, 0);
    lo + hi
  }

  /** LE16 reads only the two bytes it is given: it does not see what surrounds them. */
  lemma LE16Local(s: seq<u8>, i: nat, t: seq<u8>, j: nat)
    requires i + 2 <= |s| && j + 2 <= |t|
    requires s[i..i + 2] == t[j..j + 2]
    ensures LE16(s, i) == LE16(t, j)
  {
    assert s[i] == s[i..i + 2][0] && s[i + 1] == s[i..i + 2][1];
    assert t[j] == t[j..j + 2][0] && t[j + 1] == t[j..j + 2][1];
  }

  /** LE32 reads only the four bytes it is given. */
  lemma LE32Local(s: seq<u8>, i: nat, t: seq<u8>, j: nat)
    requires i + 4 <= |s| && j + 4 <= |t|
    requires s[i..i + 4] == t[j..j + 4]
    ensures LE32(s, i) == LE32(t, j)
  {
    assert s[i..i + 2] == s[i..i + 4][..2] && t[j..j + 2] == t[j..j + 4][..2];
    assert s[i + 2..i + 4] == s[i..i + 4][2..] && t[j + 2..j + 4] == t[j..j + 4][2..];
    LE16Local(s, i, t, j);
    LE16Local(s, i + 2, t, j + 2);
  }

  /** A zero-filled buffer of n bytes (malloc followed by memset 0). */
  function Zeros(n: nat): (z: seq<u8>)
    ensures |z| == n && forall i :: 0 <= i < n ==> z[i] == 0
  {
    seq(n, _ => 0)
  }

  /** What a buffer holds after a short read(2) wrote `part` into its first bytes. */
  function Overlay(buffer: seq<u8>, part: seq<u8>): (r: seq<u8>)
    requires |part| <= |buffer|
    ensures |r| == |buffer| && r[..|part|] == part && r[|part|..] == buffer[|part|..]
  {
    part + buffer[|part|..]
  }
}
