/** Account ids as 32-byte words. A short (8-byte) id is a little-endian u64, stored big-endian. */
module AccountIds {
  import opened Basics
  import opened Endian

  type H256 = Bytes32

  /** `account_encode_to_h256`; `None` is the panic on any other length. */
  function ToH256(account: Bytes): Option<H256> {
    if |account| == 32 then Some(account)
    else if |account| == 8 then Some(seq(24, _ => 0) + ToBigEndian(FromLittleEndian(account), 8))
    else None
  }

  /** `h256_to_account` for an account type that encodes to `width` bytes. */
  function FromH256(h: H256, width: nat): Option<Bytes> {
    if width == 32 then Some(h)
    else if width == 8 then Some(Reverse(h[24..]))
    else None
  }

  predicate Supported(width: nat) {
    width == 32 || width == 8
  }

  /** The word of an account, byte by byte: the id itself, or 24 zeros and the id turned around. */
  lemma AccountWord(account: Bytes, i: nat)
    requires Supported(|account|) && i < 32
    ensures ToH256(account).Some?
    ensures |account| == 32 ==> ToH256(account).value[i] == account[i]
    ensures |account| == 8 ==> ToH256(account).value[i] == if i < 24 then 0 else account[31 - i]
  {
    if |account| == 8 && i >= 24 {
      SwapEndianness(account);
      ReverseAt(account, i - 24);
    }
  }

  /** Every account of a supported width comes back from its word, and from no other
      account's of the same width. */
  lemma AccountRoundTrip(account: Bytes)
    ensures ToH256(account).Some? <==> Supported(|account|)
    ensures Supported(|account|) ==> FromH256(ToH256(account).value, |account|) == Some(account)
  {
    if |account| == 8 {
      SwapEndianness(account);
      ReverseTwice(account);
      assert ToH256(account).value[24..] == Reverse(account);
    }
  }
}
