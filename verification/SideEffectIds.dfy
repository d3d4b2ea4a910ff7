/** Identifiers of cross-chain transactions and of their side effects: the hash of a byte string that
    ends in a 32-byte big-endian word. */
module SideEffectIds {
  import opened Basics
  import opened Endian

  lemma FitsFourBytes(x: U32)
    ensures x < Pow256(4)
  {
    assert Pow256(1) == 256 && Pow256(2) == 0x1_0000 && Pow256(3) == 0x100_0000;
  }

  /** A 32-byte word, the number in its last four bytes. */
  function Word32(x: U32): (w: Bytes)
    ensures |w| == 32
  {
    seq(28, _ => 0) + ToBigEndian(x, 4)
  }

  /** What is hashed: a base of any length and the word. */
  function Preimage(base: Bytes, x: U32): Bytes {
    base + Word32(x)
  }

  /** Different (base, number) pairs are never hashed from the same bytes. */
  lemma PreimageInjective(a: Bytes, x: U32, b: Bytes, y: U32)
    requires Preimage(a, x) == Preimage(b, y)
    ensures a == b && x == y
  {
    var p := Preimage(a, x);
    assert |a| == |b|;
    assert a == p[..|a|] && b == p[..|b|];
    assert Word32(x) == p[|a|..] && Word32(y) == p[|b|..];
    assert ToBigEndian(x, 4) == Word32(x)[28..] && ToBigEndian(y, 4) == Word32(y)[28..];
    FitsFourBytes(x);
    FitsFourBytes(y);
    BigEndianRoundTrip(x, 4);
    BigEndianRoundTrip(y, 4);
  }

  /** The word byte by byte: 28 zeros, then the number, most significant byte first. */
  lemma WordBytes(x: U32)
    ensures Word32(x)[..28] == seq(28, _ => 0)
    ensures Word32(x)[28..] == [x / 0x100_0000, x / 0x1_0000 % 256, x / 256 % 256, x % 256]
  {
    FourBytes(x);
  }

  /** `[0; 32]` with the big-endian bytes copied over its last four. */
  method PaddedWord(x: U32) returns (word: Bytes)
    ensures word == Word32(x)
    ensures |word| == 32 && word[..28] == seq(28, _ => 0)
    ensures word[28..] == [x / 0x100_0000, x / 0x1_0000 % 256, x / 256 % 256, x % 256]
  {
    WordBytes(x);
    var short := ToBigEndian(x, 4);
    var buffer := new Byte[32](_ => 0);
    for i := 0 to 4
      invariant forall k :: 0 <= k < 28 + i ==> buffer[k] == Word32(x)[k]
      invariant forall k :: 28 + i <= k < 32 ==> buffer[k] == 0
    {
      buffer[28 + i] := short[i];
    }
    word := buffer[..];
  }

  /** `generate_xtx_id` on an encoded requester, `generate_id` on a transaction id: the base is
      extended in place and hashed. */
  method GenerateId(hasher: Bytes -> Bytes, base: Bytes, x: U32) returns (id: Bytes)
    ensures id == hasher(Preimage(base, x))
    ensures id == hasher(base + seq(28, _ => 0) + [x / 0x100_0000, x / 0x1_0000 % 256, x / 256 % 256, x % 256])
  {
    var bytes := base;
    var word := PaddedWord(x);
    assert word == word[..28] + word[28..];
    AppendAssoc(base, word[..28], word[28..]);
    bytes := bytes + word;
    id := hasher(bytes);
  }

  /** An ideal hash. */
  ghost predicate Injective(hasher: Bytes -> Bytes) {
    forall a, b :: hasher(a) == hasher(b) ==> a == b
  }

  /** So under an ideal hash ids agree exactly when base and number do. */
  lemma IdsDistinct(hasher: Bytes -> Bytes, a: Bytes, x: U32, b: Bytes, y: U32)
    requires Injective(hasher)
    ensures hasher(Preimage(a, x)) == hasher(Preimage(b, y)) <==> a == b && x == y
  {
    if Preimage(a, x) == Preimage(b, y) {
      PreimageInjective(a, x, b, y);
    }
  }
}
