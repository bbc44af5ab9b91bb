/** Length and data checksums of the PN532 normal information frame
    (section 6.2.1.1 of the NXP PN532 User Manual): each checksum is the byte
    that brings a modular sum to zero. */
module Checksum {
  import opened Bytes

  /** `lcs`: `0u8.wrapping_sub(len)`. */
  function Lcs(len: byte): (r: byte)
    ensures (len + r) % 0x100 == 0
    ensures r == 0 <==> len == 0
  {
    (0x100 - len) % 0x100
  }

  /** The `fold(0u8, wrapping_add)` accumulator of `dcs`, continued from `acc`. */
  function WrappingSum(acc: byte, s: seq<byte>): byte
    decreases |s|
  {
    if |s| == 0 then acc else WrappingSum((acc + s[0]) % 0x100, s[1..])
  }

  lemma {:induction false} WrappingSumIsSumMod(acc: byte, s: seq<byte>)
    ensures WrappingSum(acc, s) == (acc + Sum(s)) % 0x100
    decreases |s|
  {
    if |s| > 0 {
      WrappingSumIsSumMod((acc + s[0]) % 0x100, s[1..]);
      ModAddLeft(acc + s[0], Sum(s[1..]));
    }
  }

  /** Reducing the left operand first does not change a sum modulo 0x100. */
  lemma ModAddLeft(x: nat, y: nat)
    ensures (x % 0x100 + y) % 0x100 == (x + y) % 0x100
  {
    assert x == 0x100 * (x / 0x100) + x % 0x100;
  }

  /** `dcs`: the wrapping sum of the payload, negated modulo 256. */
  function Dcs(payload: seq<byte>): (r: byte)
    ensures (Sum(payload) + r) % 0x100 == 0
  {
    WrappingSumIsSumMod(0, payload);
    (0x100 - WrappingSum(0, payload)) % 0x100
  }

  /** A byte that zeroes a modular sum is unique, so both checksums are
      determined by the sum alone. */
  lemma ChecksumUnique(total: int, a: byte, b: byte)
    requires (total + a) % 0x100 == 0 && (total + b) % 0x100 == 0
    ensures a == b
  {
  }

  /** Reordering the payload does not change its data checksum. */
  lemma DcsPermutation(a: seq<byte>, b: seq<byte>)
    requires multiset(a) == multiset(b)
    ensures Dcs(a) == Dcs(b)
  {
    SumPermutation(a, b);
    ChecksumUnique(Sum(a), Dcs(a), Dcs(b));
  }

  /** Unit-test vectors of checksum.rs. */
  lemma ChecksumVectors()
    ensures Lcs(3) == 0xFD && Lcs(0) == 0 && Lcs(0xFF) == 0x01
    ensures Dcs([0x01, 0x02, 0x03]) == 0xFA && Dcs([]) == 0
  {
  }
}
