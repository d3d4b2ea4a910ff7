/** Numbers as bytes, most or least significant first. */
module Endian {
  import opened Basics

  function Pow256(width: nat): nat {
    if width == 0 then 1 else 256 * Pow256(width - 1)
  }

  function ToBigEndian(x: nat, width: nat): (b: Bytes)
    ensures |b| == width
  {
    if width == 0 then [] else ToBigEndian(x / 256, width - 1) + [x % 256]
  }

  function FromBigEndian(b: Bytes): nat {
    if b == [] then 0 else 256 * FromBigEndian(b[..|b| - 1]) + b[|b| - 1]
  }

  function FromLittleEndian(b: Bytes): nat {
    if b == [] then 0 else (b[0] as int) + 256 * FromLittleEndian(b[1..])
  }

  function Reverse(b: Bytes): (r: Bytes)
    ensures |r| == |b|
  {
    if b == [] then [] else Reverse(b[1..]) + [b[0]]
  }

  /** A number that fits comes back from its bytes. */
  lemma {:induction false} BigEndianRoundTrip(x: nat, width: nat)
    requires x < Pow256(width)
    ensures FromBigEndian(ToBigEndian(x, width)) == x
  {
    if width > 0 {
      BigEndianRoundTrip(x / 256, width - 1);
      var b := ToBigEndian(x, width);
      assert b[..width - 1] == ToBigEndian(x / 256, width - 1);
    }
  }

  lemma {:induction false} ReverseAppend(a: Bytes, x: Byte)
    ensures Reverse(a + [x]) == [x] + Reverse(a)
  {
    if a != [] {
      ReverseAppend(a[1..], x);
      assert (a + [x])[1..] == a[1..] + [x];
    }
  }

  lemma {:induction false} ReverseAt(b: Bytes, i: nat)
    requires i < |b|
    ensures Reverse(b)[i] == b[|b| - 1 - i]
  {
    if i < |b| - 1 {
      ReverseAt(b[1..], i);
    }
  }

  lemma {:induction false} ReverseTwice(b: Bytes)
    ensures Reverse(Reverse(b)) == b
  {
    if b != [] {
      ReverseTwice(b[1..]);
      ReverseAppend(Reverse(b[1..]), b[0]);
    }
  }

  /** Read from the other end, the bytes are the same number. */
  lemma {:induction false} ReverseReads(b: Bytes)
    ensures FromLittleEndian(Reverse(b)) == FromBigEndian(b)
  {
    if b != [] {
      var init, last := b[..|b| - 1], b[|b| - 1];
      ReverseReads(init);
      SplitLast(b);
      ReverseAppend(init, last);
      assert ([last] + Reverse(init))[1..] == Reverse(init);
    }
  }

  /** The four bytes of a number, most significant first. */
  lemma {:induction false} FourBytes(x: nat)
    requires x <= U32_MAX
    ensures ToBigEndian(x, 4) == [x / 0x100_0000, x / 0x1_0000 % 256, x / 256 % 256, x % 256]
  {
    var y, z, t := x / 256, x / 256 / 256, x / 256 / 256 / 256;
    assert z == x / 0x1_0000 && t == x / 0x100_0000 && t < 256;
    assert ToBigEndian(t, 0) == [] && ToBigEndian(t, 1) == [t];
    assert ToBigEndian(z, 2) == [t, z % 256];
    assert ToBigEndian(y, 3) == [t, z % 256, y % 256];
  }

  /** Reading little-endian and writing big-endian turns the bytes around. */
  lemma {:induction false} SwapEndianness(b: Bytes)
    ensures ToBigEndian(FromLittleEndian(b), |b|) == Reverse(b)
  {
    if b != [] {
      SwapEndianness(b[1..]);
      var rest := FromLittleEndian(b[1..]);
      assert FromLittleEndian(b) % 256 == b[0] && FromLittleEndian(b) / 256 == rest;
    }
  }
}
