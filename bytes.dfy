/**
  Machine integers as the block codec uses them: bytes, 32-bit unsigned
  fields in little-endian order, the `as u32` truncation, round-up to a
  multiple of four and `copy_from_slice` into a fixed buffer.
*/
module Bytes {
  import opened Arith

  const U32_LIMIT: int := 0x1_0000_0000

  type byte = x: int | 0 <= x < 256
  type u32 = x: int | 0 <= x < U32_LIMIT

  /** `n` zero bytes: the contents of a freshly zeroed buffer. */
  function Zeros(n: nat): (r: seq<byte>)
    ensures |r| == n
    ensures forall i | 0 <= i < n :: r[i] == 0
  {
    seq(n, _ => 0)
  }

  /** Little-endian bytes of a u32 (`u32::to_le_bytes`, or the in-memory
      layout of a `#[repr(C)]` u32 field on a little-endian target). */
  function LeBytes(x: u32): (r: seq<byte>)
    ensures |r| == 4
  {
    [x % 256, x / 256 % 256, x / 65536 % 256, x / 16777216]
  }

  /** The u32 whose little-endian bytes are `s` (`u32::from_le_bytes`). */
  function FromLe(s: seq<byte>): u32
    requires |s| == 4
  {
    s[0] as int + 256 * s[1] as int + 65536 * s[2] as int + 16777216 * s[3] as int
  }

  lemma FromLeBytes(x: u32)
    ensures FromLe(LeBytes(x)) == x
  {
    var q1, q2, q3 := x / 256, x / 65536, x / 16777216;
    DivMod(x, 256);
    DivMod(q1, 256);
    DivMod(q2, 256);
    DivUnique(x, 65536, q1 / 256, q1 % 256 * 256 + x % 256);
    DivUnique(x, 16777216, q2 / 256, q2 % 256 * 65536 + q1 % 256 * 256 + x % 256);
  }

  lemma LeBytesFrom(s: seq<byte>)
    requires |s| == 4
    ensures LeBytes(FromLe(s)) == s
  {
    var x := FromLe(s);
    var b0, b1, b2, b3 := s[0] as int, s[1] as int, s[2] as int, s[3] as int;
    DivUnique(x, 256, b1 + 256 * b2 + 65536 * b3, b0);
    DivUnique(x / 256, 256, b2 + 256 * b3, b1);
    DivUnique(x, 65536, b2 + 256 * b3, b0 + 256 * b1);
    DivUnique(x / 65536, 256, b3, b2);
    DivUnique(x, 16777216, b3, b0 + 256 * b1 + 65536 * b2);
  }

  /** The u32 read from four bytes at `offset` of `buf`. */
  function U32At(buf: seq<byte>, offset: nat): u32
    requires offset + 4 <= |buf|
  {
    FromLe(buf[offset..offset + 4])
  }

  /** `x as u32` for a `usize` value: truncation modulo 2^32. */
  function Wrap32(x: nat): (r: u32)
    ensures x < U32_LIMIT ==> r == x
    ensures (r - x) % 0x1_0000_0000 == 0
  {
    x % 0x1_0000_0000
  }

  /** `n.next_multiple_of(4)`: the least multiple of four not below `n`. */
  function RoundUp4(n: nat): (r: nat)
    ensures r % 4 == 0
    ensures n <= r < n + 4
  {
    (n + 3) / 4 * 4
  }

  lemma RoundUp4Least(n: nat, m: nat)
    requires m % 4 == 0 && n <= m
    ensures RoundUp4(n) <= m
  {
  }

  /** `dst[at..at + |src|].copy_from_slice(src)` on a value: `dst` with the
      window starting at `at` replaced by `src`, everything else kept. */
  function Overwrite(dst: seq<byte>, at: nat, src: seq<byte>): (r: seq<byte>)
    requires at + |src| <= |dst|
    ensures |r| == |dst|
    ensures r[at..at + |src|] == src
    ensures r[..at] == dst[..at] && r[at + |src|..] == dst[at + |src|..]
  {
    dst[..at] + src + dst[at + |src|..]
  }

  /** The same copy done in place on a fixed-size array, element by element. */
  method CopyFromSlice(dst: array<byte>, at: nat, src: seq<byte>)
    requires at + |src| <= dst.Length
    modifies dst
    ensures dst[..] == Overwrite(old(dst[..]), at, src)
  {
    var i := 0;
    while i < |src|
      invariant 0 <= i <= |src|
      invariant forall k | 0 <= k < dst.Length ::
        dst[k] == if at <= k < at + i then src[k - at] else old(dst[k])
    {
      dst[at + i] := src[i];
      i := i + 1;
    }
    assert dst[..] == Overwrite(old(dst[..]), at, src);
  }
}
