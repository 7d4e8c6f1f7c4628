/** Host/network byte order for the IPv4 endpoint fields.

    `htons`/`htonl` are byte swaps on a little-endian host and the identity on
    a big-endian one; `ntohs`/`ntohl` are the same maps. A swap is defined
    through the little-endian byte decomposition of a value, so the involution
    lemma follows from the decomposition round trip.
 */
module ByteOrder {

  type byte = x: int | 0 <= x < 0x100
  type u16 = x: int | 0 <= x < 0x1_0000
  type u32 = x: int | 0 <= x < 0x1_0000_0000

  /** 256^n, the number of values that fit in n bytes */
  function Pow256(n: nat): (p: nat)
    ensures p >= 1
  {
    if n == 0 then 1 else 0x100 * Pow256(n - 1)
  }

  /** Value of a little-endian byte sequence */
  function FromBytes(bs: seq<byte>): (x: nat)
    ensures x < Pow256(|bs|)
  {
    if |bs| == 0 then 0 else bs[0] + 0x100 * FromBytes(bs[1..])
  }

  /** The n little-endian bytes of x */
  function ToBytes(x: nat, n: nat): (bs: seq<byte>)
    requires x < Pow256(n)
    ensures |bs| == n
  {
    if n == 0 then [] else [x % 0x100] + ToBytes(x / 0x100, n - 1)
  }

  lemma {:induction false} FromToBytes(x: nat, n: nat)
    requires x < Pow256(n)
    ensures FromBytes(ToBytes(x, n)) == x
  {
    if n > 0 {
      FromToBytes(x / 0x100, n - 1);
      assert ToBytes(x, n)[1..] == ToBytes(x / 0x100, n - 1);
    }
  }

  lemma {:induction false} ToFromBytes(bs: seq<byte>)
    ensures ToBytes(FromBytes(bs), |bs|) == bs
  {
    if |bs| > 0 {
      var rest := FromBytes(bs[1..]);
      assert (bs[0] + 0x100 * rest) % 0x100 == bs[0];
      assert (bs[0] + 0x100 * rest) / 0x100 == rest;
      ToFromBytes(bs[1..]);
    }
  }

  function Reverse<T>(s: seq<T>): (r: seq<T>)
    ensures |r| == |s|
    ensures forall i :: 0 <= i < |s| ==> r[i] == s[|s| - 1 - i]
  {
    if |s| == 0 then [] else Reverse(s[1..]) + [s[0]]
  }

  lemma ReverseInvolution<T>(s: seq<T>)
    ensures Reverse(Reverse(s)) == s
  {
  }

  /** Reverses the order of the n bytes of x */
  function Swap(x: nat, n: nat): (y: nat)
    requires x < Pow256(n)
    ensures y < Pow256(n)
  {
    FromBytes(Reverse(ToBytes(x, n)))
  }

  lemma SwapInvolution(x: nat, n: nat)
    requires x < Pow256(n)
    ensures Swap(Swap(x, n), n) == x
  {
    var bs := ToBytes(x, n);
    ToFromBytes(Reverse(bs));
    ReverseInvolution(bs);
    FromToBytes(x, n);
  }

  function Swap16(x: u16): (y: u16)
  {
    assert Pow256(2) == 0x1_0000;
    Swap(x, 2)
  }

  function Swap32(x: u32): (y: u32)
  {
    assert Pow256(4) == 0x1_0000_0000;
    Swap(x, 4)
  }

  /** The 16-bit swap exchanges the low and the high byte */
  lemma Swap16Bytes(x: u16)
    ensures Swap16(x) == (x % 0x100) * 0x100 + x / 0x100
  {
    assert ToBytes(x, 2) == [x % 0x100, x / 0x100 % 0x100] + [];
    var swapped := [x / 0x100 % 0x100, x % 0x100];
    assert Reverse(ToBytes(x, 2)) == swapped;
    assert swapped[1..][1..] == [];
    assert FromBytes(swapped[1..]) == x % 0x100;
  }

  /** The four little-endian bytes of a 32-bit value */
  lemma Bytes32(x: u32)
    ensures ToBytes(x, 4) == [x % 0x100, x / 0x100 % 0x100, x / 0x1_0000 % 0x100, x / 0x100_0000]
  {
    assert Pow256(4) == 0x1_0000_0000;
    assert x / 0x100 / 0x100 == x / 0x1_0000;
    assert x / 0x1_0000 / 0x100 == x / 0x100_0000;
    assert x / 0x100_0000 < 0x100;
    assert Pow256(3) == 0x100_0000 && Pow256(2) == 0x1_0000 && Pow256(1) == 0x100;
    var y := x / 0x100;
    var z := x / 0x1_0000;
    var w := x / 0x100_0000;
    assert ToBytes(w, 1) == [w % 0x100] + ToBytes(w / 0x100, 0) == [w];
    assert ToBytes(z, 2) == [z % 0x100] + ToBytes(w, 1);
    assert ToBytes(y, 3) == [y % 0x100] + ToBytes(z, 2);
    assert ToBytes(x, 4) == [x % 0x100] + ToBytes(y, 3);
  }

  /** The value of four little-endian bytes */
  lemma FromBytes4(b0: byte, b1: byte, b2: byte, b3: byte)
    ensures FromBytes([b0, b1, b2, b3]) == b0 + 0x100 * b1 + 0x1_0000 * b2 + 0x100_0000 * b3
  {
    var bs := [b0, b1, b2, b3];
    assert bs[1..] == [b1, b2, b3] && bs[1..][1..] == [b2, b3] && bs[1..][1..][1..] == [b3];
    assert bs[1..][1..][1..][1..] == [];
    assert FromBytes([b3]) == b3;
    assert FromBytes([b2, b3]) == b2 + 0x100 * b3;
    assert FromBytes([b1, b2, b3]) == b1 + 0x100 * (b2 + 0x100 * b3);
  }

  /** The 32-bit swap moves byte k of x to byte 3 - k of the result */
  lemma Swap32Bytes(x: u32)
    ensures ToBytes(Swap32(x), 4) == Reverse(ToBytes(x, 4))
  {
    assert Pow256(4) == 0x1_0000_0000;
    ToFromBytes(Reverse(ToBytes(x, 4)));
  }

  /** The 32-bit swap in closed form: the lowest byte of x becomes the
      highest of the result, and so on */
  lemma Swap32Value(x: u32)
    ensures Swap32(x) == (x % 0x100) * 0x100_0000 + (x / 0x100 % 0x100) * 0x1_0000
                         + (x / 0x1_0000 % 0x100) * 0x100 + x / 0x100_0000
  {
    Bytes32(x);
    var b0, b1, b2, b3 := x % 0x100, x / 0x100 % 0x100, x / 0x1_0000 % 0x100, x / 0x100_0000;
    assert Reverse(ToBytes(x, 4)) == [b3, b2, b1, b0];
    FromBytes4(b3, b2, b1, b0);
  }

  /** `htons`: the identity on a big-endian host, a byte swap on a little-endian one */
  function Htons(littleEndian: bool, x: u16): u16
  {
    if littleEndian then Swap16(x) else x
  }

  function Htonl(littleEndian: bool, x: u32): u32
  {
    if littleEndian then Swap32(x) else x
  }

  /** `ntohs`/`ntohl` are the same byte permutations as `htons`/`htonl` */
  function Ntohs(littleEndian: bool, x: u16): u16
  {
    Htons(littleEndian, x)
  }

  function Ntohl(littleEndian: bool, x: u32): u32
  {
    Htonl(littleEndian, x)
  }

  lemma HtonsRoundTrip(littleEndian: bool, x: u16)
    ensures Ntohs(littleEndian, Htons(littleEndian, x)) == x
  {
    if littleEndian {
      assert Pow256(2) == 0x1_0000;
      SwapInvolution(x, 2);
    }
  }

  lemma HtonlRoundTrip(littleEndian: bool, x: u32)
    ensures Ntohl(littleEndian, Htonl(littleEndian, x)) == x
  {
    if littleEndian {
      assert Pow256(4) == 0x1_0000_0000;
      SwapInvolution(x, 4);
    }
  }
}
