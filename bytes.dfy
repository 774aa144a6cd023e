/** Bytes and the little-endian integer layout of the structs written through the control pipe. */
module Bytes {
  type byte = x: int | 0 <= x < 256

  function Pow256(n: nat): (r: nat)
    ensures r >= 1
  {
    if n == 0 then 1 else 256 * Pow256(n - 1)
  }

  /** The `n` bytes of `x`, least significant first (the memory image of an unsigned integer). */
  function LittleEndian(x: nat, n: nat): (r: seq<byte>)
    requires x < Pow256(n)
    ensures |r| == n
  {
    if n == 0 then [] else [x % 256] + LittleEndian(x / 256, n - 1)
  }

  /** The unsigned integer whose memory image is `s`. */
  function FromLittleEndian(s: seq<byte>): (r: nat)
    ensures r < Pow256(|s|)
  {
    if s == [] then 0 else s[0] + 256 * FromLittleEndian(s[1..])
  }

  lemma {:induction false} LittleEndianRoundTrip(x: nat, n: nat)
    requires x < Pow256(n)
    ensures FromLittleEndian(LittleEndian(x, n)) == x
  {
    if n > 0 {
      var s := LittleEndian(x, n);
      assert s[1..] == LittleEndian(x / 256, n - 1);
      LittleEndianRoundTrip(x / 256, n - 1);
    }
  }

  const INT_MIN: int := -0x8000_0000
  const INT_MAX: int := 0x7fff_ffff

  /** C `int`. */
  type Int32 = x: int | INT_MIN <= x <= INT_MAX

  /** The two's-complement bit pattern of a C `int`, as an unsigned number. */
  function Unsigned32(x: Int32): (r: nat)
    ensures r < Pow256(4)
    ensures x >= 0 ==> r == x
  {
    assert Pow256(4) == 0x1_0000_0000;
    if x < 0 then x + 0x1_0000_0000 else x
  }

  /** The C `int` whose bit pattern is `u`. */
  function Signed32(u: nat): (r: Int32)
    requires u < Pow256(4)
    ensures r % 0x1_0000_0000 == u
  {
    assert Pow256(4) == 0x1_0000_0000;
    if u > INT_MAX then u - 0x1_0000_0000 else u
  }

  lemma SignedUnsigned(x: Int32)
    ensures Signed32(Unsigned32(x)) == x
  {
  }

  /** The memory image of a C `int`. */
  function Int32Bytes(x: Int32): (r: seq<byte>)
    ensures |r| == 4
  {
    LittleEndian(Unsigned32(x), 4)
  }

  lemma Int32RoundTrip(x: Int32)
    ensures Signed32(FromLittleEndian(Int32Bytes(x))) == x
  {
    LittleEndianRoundTrip(Unsigned32(x), 4);
  }

  /** `n` zero bytes. */
  function Zeros(n: nat): (r: seq<byte>)
    ensures |r| == n && forall i :: 0 <= i < n ==> r[i] == 0
  {
    seq(n, _ => 0)
  }
}
