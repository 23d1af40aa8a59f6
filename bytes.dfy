/** Bytes and the big-endian unsigned integers of Python's struct format "!". */
module Bytes {

  type Byte = b: int | 0 <= b < 256
  type U16 = x: int | 0 <= x < 0x1_0000
  type U64 = x: int | 0 <= x < 0x1_0000_0000_0000_0000

  /** 256 to the power n: the number of values an n-byte field can hold. */
  function Pow256(n: nat): (p: nat)
    ensures p >= 1
  {
    if n == 0 then 1 else 256 * Pow256(n - 1)
  }

  /** The n-byte big-endian encoding of x (struct.pack of an unsigned field). */
  function ToBigEndian(x: nat, n: nat): (s: seq<Byte>)
    requires x < Pow256(n)
    ensures |s| == n
  {
    if n == 0 then [] else ToBigEndian(x / 256, n - 1) + [x % 256]
  }

  /** The value of a big-endian byte string (struct.unpack of an unsigned field). */
  function FromBigEndian(s: seq<Byte>): nat
  {
    if s == [] then 0 else FromBigEndian(s[..|s| - 1]) * 256 + s[|s| - 1]
  }

  lemma {:induction false} FromBigEndianBound(s: seq<Byte>)
    ensures FromBigEndian(s) < Pow256(|s|)
  {
    if s != [] {
      FromBigEndianBound(s[..|s| - 1]);
    }
  }

  /** Decoding an encoded field gives the value back. */
  lemma {:induction false} BigEndianRoundTrip(x: nat, n: nat)
    requires x < Pow256(n)
    ensures FromBigEndian(ToBigEndian(x, n)) == x
  {
    if n > 0 {
      var s := ToBigEndian(x, n);
      assert s[..|s| - 1] == ToBigEndian(x / 256, n - 1);
      BigEndianRoundTrip(x / 256, n - 1);
    }
  }

  /** Encoding a decoded field gives the bytes back: the encoding is a bijection. */
  lemma {:induction false} BigEndianInverse(s: seq<Byte>)
    ensures FromBigEndian(s) < Pow256(|s|)
    ensures ToBigEndian(FromBigEndian(s), |s|) == s
  {
    FromBigEndianBound(s);
    if s != [] {
      var init := s[..|s| - 1];
      BigEndianInverse(init);
      var x := FromBigEndian(s);
      assert x / 256 == FromBigEndian(init);
      assert x % 256 == s[|s| - 1];
      assert s == init + [s[|s| - 1]];
    }
  }

  function U16Bytes(x: U16): (s: seq<Byte>)
    ensures |s| == 2
  {
    ToBigEndian(x, 2)
  }

  function U64Bytes(x: U64): (s: seq<Byte>)
    ensures |s| == 8
  {
    assert Pow256(8) == 0x1_0000_0000_0000_0000;
    ToBigEndian(x, 8)
  }

  function ReadU16(s: seq<Byte>): (x: U16)
    requires |s| == 2
  {
    FromBigEndianBound(s);
    FromBigEndian(s)
  }

  function ReadU64(s: seq<Byte>): (x: U64)
    requires |s| == 8
  {
    FromBigEndianBound(s);
    assert Pow256(8) == 0x1_0000_0000_0000_0000;
    FromBigEndian(s)
  }

  lemma U16RoundTrip(x: U16)
    ensures ReadU16(U16Bytes(x)) == x
  {
    BigEndianRoundTrip(x, 2);
  }

  lemma U64RoundTrip(x: U64)
    ensures ReadU64(U64Bytes(x)) == x
  {
    assert Pow256(8) == 0x1_0000_0000_0000_0000;
    BigEndianRoundTrip(x, 8);
  }

  lemma U16Inverse(s: seq<Byte>)
    requires |s| == 2
    ensures U16Bytes(ReadU16(s)) == s
  {
    BigEndianInverse(s);
  }

  lemma U64Inverse(s: seq<Byte>)
    requires |s| == 8
    ensures U64Bytes(ReadU64(s)) == s
  {
    assert Pow256(8) == 0x1_0000_0000_0000_0000;
    BigEndianInverse(s);
  }

  /** The two bytes of a u16 field are its high and its low byte. */
  lemma U16Layout(x: U16)
    ensures U16Bytes(x) == [x / 256, x % 256]
  {
    assert ToBigEndian(x / 256 / 256, 0) == [];
    assert ToBigEndian(x / 256, 1) == [x / 256 % 256];
  }
}
