/** Fixed-width unsigned integers and the byte-order conversions of
    <arpa/inet.h> (ntohl, htonl, ntohs) on a little-endian host.

    A value is stored in memory as its little-endian bytes; a conversion
    between network and host order reverses those bytes. */
module Words {

  const TWO_16: int := 0x1_0000
  const TWO_32: int := 0x1_0000_0000

  type u8 = x: int | 0 <= x < 0x100
  type u16 = x: int | 0 <= x < 0x1_0000
  type u32 = x: int | 0 <= x < 0x1_0000_0000

  function Pow256(n: nat): (r: nat)
    ensures r >= 1
  {
    if n == 0 then 1 else 256 * Pow256(n - 1)
  }

  lemma Pow256Widths()
    ensures Pow256(2) == TWO_16 && Pow256(4) == TWO_32
  {
    assert Pow256(1) == 256;
    assert Pow256(2) == 0x1_0000;
    assert Pow256(3) == 0x100_0000;
  }

  /** The n least significant bytes of x, least significant first. */
  function Bytes(x: nat, n: nat): (bs: seq<u8>)
    ensures |bs| == n
  {
    if n == 0 then [] else [x % 256] + Bytes(x / 256, n - 1)
  }

  /** The number whose little-endian bytes are bs. */
  function FromBytes(bs: seq<u8>): (x: nat)
    ensures x < Pow256(|bs|)
  {
    if bs == [] then 0 else bs[0] + 256 * FromBytes(bs[1..])
  }

  lemma {:induction false} FromBytesOfBytes(x: nat, n: nat)
    requires x < Pow256(n)
    ensures FromBytes(Bytes(x, n)) == x
  {
    if n > 0 {
      assert x / 256 < Pow256(n - 1);
      FromBytesOfBytes(x / 256, n - 1);
      assert Bytes(x, n)[1..] == Bytes(x / 256, n - 1);
    }
  }

  lemma {:induction false} BytesOfFromBytes(bs: seq<u8>)
    ensures Bytes(FromBytes(bs), |bs|) == bs
  {
    if bs != [] {
      var x := FromBytes(bs);
      assert x % 256 == bs[0];
      assert x / 256 == FromBytes(bs[1..]);
      BytesOfFromBytes(bs[1..]);
    }
  }

  function Reverse<T>(s: seq<T>): (r: seq<T>)
    ensures |r| == |s|
    ensures forall i :: 0 <= i < |s| ==> r[i] == s[|s| - 1 - i]
  {
    if s == [] then [] else Reverse(s[1..]) + [s[0]]
  }

  lemma ReverseReverse<T>(s: seq<T>)
    ensures Reverse(Reverse(s)) == s
  {
    assert forall i :: 0 <= i < |s| ==> Reverse(Reverse(s))[i] == s[i];
  }

  /** Reverses the order of the n low bytes of x. */
  function ByteSwap(x: nat, n: nat): (r: nat)
    ensures r < Pow256(n)
  {
    FromBytes(Reverse(Bytes(x, n)))
  }

  lemma ByteSwapBytes(x: nat, n: nat)
    ensures Bytes(ByteSwap(x, n), n) == Reverse(Bytes(x, n))
  {
    BytesOfFromBytes(Reverse(Bytes(x, n)));
  }

  /** Swapping twice gives back every value that fits in n bytes. */
  lemma ByteSwapInvolution(x: nat, n: nat)
    requires x < Pow256(n)
    ensures ByteSwap(ByteSwap(x, n), n) == x
  {
    ByteSwapBytes(x, n);
    ReverseReverse(Bytes(x, n));
    FromBytesOfBytes(x, n);
  }

  /** Network to host order of a 32-bit value: its four bytes reversed
      (NtohlBytes). */
  function Ntohl(x: u32): u32 {
    Pow256Widths();
    ByteSwap(x, 4)
  }

  /** Host to network order of a 32-bit value: the same reversal as Ntohl
      on a little-endian host (HtonlBytes). */
  function Htonl(x: u32): u32 {
    Pow256Widths();
    ByteSwap(x, 4)
  }

  /** Network to host order of a 16-bit value: its two bytes swapped
      (NtohsBytes). */
  function Ntohs(x: u16): u16 {
    Pow256Widths();
    ByteSwap(x, 2)
  }

  lemma NtohlBytes(x: u32)
    ensures Bytes(Ntohl(x), 4) == Reverse(Bytes(x, 4))
  {
    ByteSwapBytes(x, 4);
  }

  lemma HtonlBytes(x: u32)
    ensures Bytes(Htonl(x), 4) == Reverse(Bytes(x, 4))
  {
    ByteSwapBytes(x, 4);
  }

  lemma NtohsBytes(x: u16)
    ensures Bytes(Ntohs(x), 2) == Reverse(Bytes(x, 2))
  {
    ByteSwapBytes(x, 2);
  }

  lemma HtonlInvertsNtohl(x: u32)
    ensures Htonl(Ntohl(x)) == x && Ntohl(Htonl(x)) == x
  {
    Pow256Widths();
    ByteSwapInvolution(x, 4);
  }

  lemma NtohsInvolution(x: u16)
    ensures Ntohs(Ntohs(x)) == x
  {
    Pow256Widths();
    ByteSwapInvolution(x, 2);
  }

  /** Conversion of an integer to a C unsigned 16-bit type (keeps the low 16 bits). */
  function ToU16(x: int): (r: u16)
    ensures 0 <= x < TWO_16 ==> r == x
    ensures (x - r) % TWO_16 == 0
  {
    x % TWO_16
  }

  /** Conversion of an integer to a C unsigned 32-bit type (modulo 2^32). */
  function ToU32(x: int): (r: u32)
    ensures 0 <= x < TWO_32 ==> r == x
    ensures x == -1 ==> r == 0xFFFF_FFFF
  {
    x % TWO_32
  }
}
