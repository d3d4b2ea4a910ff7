/** The hand-written SCALE codec of the portal precompile's arguments. */
module PortalCodec {
  import opened Basics

  datatype SpeedMode = Fast | Rational | Finalized | Instant

  datatype PrecompileArgs =
    | GetLatestFinalizedHeader(chainId: ChainId)
    | GetFinalizedHeight(chainId: ChainId)
    | GetRationalHeight(chainId: ChainId)
    | GetFastHeight(chainId: ChainId)
    | VerifyEventInclusion(chainId: ChainId, mode: SpeedMode, source: ExecutionSource, bytes: Bytes)
    | VerifyStateInclusion(chainId: ChainId, mode: SpeedMode, bytes: Bytes)
    | VerifyTxInclusion(chainId: ChainId, mode: SpeedMode, bytes: Bytes)

  datatype DecodeError = EndOfInput | InvalidTag | InvalidSpeedMode

  function ModeByte(mode: SpeedMode): Byte {
    match mode
    case Fast => 0
    case Rational => 1
    case Finalized => 2
    case Instant => 3
  }

  function Tag(args: PrecompileArgs): Byte {
    match args
    case GetLatestFinalizedHeader(_) => 0
    case GetFinalizedHeight(_) => 1
    case GetRationalHeight(_) => 2
    case GetFastHeight(_) => 3
    case VerifyEventInclusion(_, _, _, _) => 4
    case VerifyStateInclusion(_, _, _) => 5
    case VerifyTxInclusion(_, _, _) => 6
  }

  /** What follows the tag and the chain id. */
  function Tail(args: PrecompileArgs): Bytes {
    match args
    case VerifyEventInclusion(_, mode, source, bytes) => [ModeByte(mode)] + source + bytes
    case VerifyStateInclusion(_, mode, bytes) => [ModeByte(mode)] + bytes
    case VerifyTxInclusion(_, mode, bytes) => [ModeByte(mode)] + bytes
    case _ => []
  }

  function Encode(args: PrecompileArgs): Bytes {
    [Tag(args)] + args.chainId + Tail(args)
  }

  /** Tags 4 to 6 take everything that is left as their last field. */
  predicate TakesRest(args: PrecompileArgs) {
    Tag(args) >= 4
  }

  /** `input` starts with the encoding of `args` and goes on with `rest`. */
  predicate Decodes(input: Bytes, args: PrecompileArgs, rest: Bytes) {
    input == Encode(args) + rest && (TakesRest(args) ==> rest == [])
  }

  lemma Regroup(a: Bytes, b: Bytes, c: Bytes)
    ensures a + b + c == a + (b + c)
  {
  }

  lemma Pieces(t: Byte, a: Bytes, b: Bytes)
    ensures var s := [t] + a + b; s[0] == t && s[1..1 + |a|] == a && s[1 + |a|..] == b
  {
  }

  lemma Shifted(s: Bytes, n: nat, i: nat, j: nat)
    requires n + j <= |s| && i <= j
    ensures s[n..][i..j] == s[n + i..n + j] && s[n..][j..] == s[n + j..]
    ensures 0 < j ==> s[n..][0] == s[n]
  {
  }

  lemma EncodeHead(args: PrecompileArgs, rest: Bytes)
    ensures var input := Encode(args) + rest;
            && |input| >= 5 && input[0] == Tag(args) && input[1..5] == args.chainId
            && (TakesRest(args) ==> |input| >= 6 && input[5] == ModeByte(args.mode))
            && (args.VerifyEventInclusion? ==>
                  |input| >= 38 && input[6..38] == args.source && input[38..] == args.bytes + rest)
            && (args.VerifyStateInclusion? || args.VerifyTxInclusion? ==> input[6..] == args.bytes + rest)
            && (!TakesRest(args) ==> input[5..] == rest)
  {
    var tail := Tail(args) + rest;
    Regroup([Tag(args)] + args.chainId, Tail(args), rest);
    Pieces(Tag(args), args.chainId, tail);
    match args {
      case VerifyEventInclusion(_, mode, source, bytes) =>
        Regroup([ModeByte(mode)] + source, bytes, rest);
        Pieces(ModeByte(mode), source, bytes + rest);
        Shifted(Encode(args) + rest, 5, 1, 33);
      case VerifyStateInclusion(_, mode, bytes) =>
        Regroup([ModeByte(mode)], bytes, rest);
        Shifted(Encode(args) + rest, 5, 1, 1);
      case VerifyTxInclusion(_, mode, bytes) =>
        Regroup([ModeByte(mode)], bytes, rest);
        Shifted(Encode(args) + rest, 5, 1, 1);
      case _ =>
    }
  }

  /** No input decodes in two ways. */
  lemma DecodesOneWay(input: Bytes, a: PrecompileArgs, restA: Bytes, b: PrecompileArgs, restB: Bytes)
    requires Decodes(input, a, restA) && Decodes(input, b, restB)
    ensures a == b && restA == restB
  {
    EncodeHead(a, restA);
    EncodeHead(b, restB);
    if TakesRest(a) {
      assert a.bytes + [] == a.bytes && b.bytes + [] == b.bytes;
    }
  }

  // ---- The bytes on the wire ------------------------------------------------------------

  /** The four queries: a tag from 0 to 3 and the chain id. */
  lemma WireQueries(chainId: ChainId)
    ensures Encode(GetLatestFinalizedHeader(chainId)) == [0] + chainId
    ensures Encode(GetFinalizedHeight(chainId)) == [1] + chainId
    ensures Encode(GetRationalHeight(chainId)) == [2] + chainId
    ensures Encode(GetFastHeight(chainId)) == [3] + chainId
  {
    AppendNothing([0] + chainId);
    AppendNothing([1] + chainId);
    AppendNothing([2] + chainId);
    AppendNothing([3] + chainId);
  }

  /** Tag 4: chain id, speed mode from 0 to 3, 32 bytes of source, and the rest. */
  lemma WireEvent(chainId: ChainId, source: ExecutionSource, bytes: Bytes)
    ensures Encode(VerifyEventInclusion(chainId, Fast, source, bytes)) == [4] + chainId + ([0] + source + bytes)
    ensures Encode(VerifyEventInclusion(chainId, Rational, source, bytes)) == [4] + chainId + ([1] + source + bytes)
    ensures Encode(VerifyEventInclusion(chainId, Finalized, source, bytes)) == [4] + chainId + ([2] + source + bytes)
    ensures Encode(VerifyEventInclusion(chainId, Instant, source, bytes)) == [4] + chainId + ([3] + source + bytes)
  {
  }

  /** Tag 5: the same without a source. */
  lemma WireState(chainId: ChainId, bytes: Bytes)
    ensures Encode(VerifyStateInclusion(chainId, Fast, bytes)) == [5] + chainId + ([0] + bytes)
    ensures Encode(VerifyStateInclusion(chainId, Rational, bytes)) == [5] + chainId + ([1] + bytes)
    ensures Encode(VerifyStateInclusion(chainId, Finalized, bytes)) == [5] + chainId + ([2] + bytes)
    ensures Encode(VerifyStateInclusion(chainId, Instant, bytes)) == [5] + chainId + ([3] + bytes)
  {
  }

  /** Tag 6: the same again. */
  lemma WireTx(chainId: ChainId, bytes: Bytes)
    ensures Encode(VerifyTxInclusion(chainId, Fast, bytes)) == [6] + chainId + ([0] + bytes)
    ensures Encode(VerifyTxInclusion(chainId, Rational, bytes)) == [6] + chainId + ([1] + bytes)
    ensures Encode(VerifyTxInclusion(chainId, Finalized, bytes)) == [6] + chainId + ([2] + bytes)
    ensures Encode(VerifyTxInclusion(chainId, Instant, bytes)) == [6] + chainId + ([3] + bytes)
  {
  }

  /** Whatever is decoded, read off the bytes: the tag names the variant, the next four bytes the chain,
      byte 5 the mode. */
  ghost predicate ReadsAs(input: Bytes, args: PrecompileArgs) {
    && |input| >= 5 && args.chainId == input[1..5]
    && (args.GetLatestFinalizedHeader? <==> input[0] == 0)
    && (args.GetFinalizedHeight? <==> input[0] == 1)
    && (args.GetRationalHeight? <==> input[0] == 2)
    && (args.GetFastHeight? <==> input[0] == 3)
    && (args.VerifyEventInclusion? <==> input[0] == 4)
    && (args.VerifyStateInclusion? <==> input[0] == 5)
    && (args.VerifyTxInclusion? <==> input[0] == 6)
    && (input[0] >= 4 ==>
          && |input| >= 6
          && (args.mode.Fast? <==> input[5] == 0) && (args.mode.Rational? <==> input[5] == 1)
          && (args.mode.Finalized? <==> input[5] == 2) && (args.mode.Instant? <==> input[5] == 3))
    && (input[0] == 4 ==> |input| >= 38 && args.source == input[6..38] && args.bytes == input[38..])
    && (input[0] == 5 || input[0] == 6 ==> args.bytes == input[6..])
  }

  lemma DecodedReadsAs(input: Bytes, args: PrecompileArgs, rest: Bytes)
    requires Decodes(input, args, rest)
    ensures ReadsAs(input, args)
    ensures input[0] <= 3 ==> rest == input[5..]
  {
    EncodeHead(args, rest);
    if TakesRest(args) {
      AppendNothing(args.bytes);
    }
  }

  // ---- The output buffer and the input cursor -------------------------------------------

  class Output {
    var written: Bytes

    constructor ()
      ensures written == []
    {
      written := [];
    }

    method Write(bytes: Bytes)
      modifies this
      ensures written == old(written) + bytes
    {
      written := written + bytes;
    }
  }

  method EncodeTail(args: PrecompileArgs, dest: Output)
    modifies dest
    ensures dest.written == old(dest.written) + Tail(args)
  {
    match args {
      case VerifyEventInclusion(_, mode, source, bytes) =>
        dest.Write([ModeByte(mode)]);
        dest.Write(source);
        dest.Write(bytes);
        Regroup(old(dest.written), [ModeByte(mode)], source);
        Regroup(old(dest.written), [ModeByte(mode)] + source, bytes);
      case VerifyStateInclusion(_, mode, bytes) =>
        dest.Write([ModeByte(mode)]);
        dest.Write(bytes);
        Regroup(old(dest.written), [ModeByte(mode)], bytes);
      case VerifyTxInclusion(_, mode, bytes) =>
        dest.Write([ModeByte(mode)]);
        dest.Write(bytes);
        Regroup(old(dest.written), [ModeByte(mode)], bytes);
      case _ =>
        assert dest.written + [] == dest.written;
    }
  }

  method EncodeTo(args: PrecompileArgs, dest: Output)
    modifies dest
    ensures dest.written == old(dest.written) + Encode(args)
  {
    dest.Write([Tag(args)]);
    dest.Write(args.chainId);
    EncodeTail(args, dest);
    Regroup(old(dest.written), [Tag(args)], args.chainId);
    Regroup(old(dest.written), [Tag(args)] + args.chainId, Tail(args));
  }

  method Encoded(args: PrecompileArgs) returns (bytes: Bytes)
    ensures bytes == Encode(args)
  {
    var dest := new Output();
    EncodeTo(args, dest);
    bytes := dest.written;
  }

  class Input {
    var left: Bytes

    constructor (bytes: Bytes)
      ensures left == bytes
    {
      left := bytes;
    }

    method ReadByte() returns (r: Option<Byte>)
      modifies this
      ensures old(left) == [] ==> r == None && left == []
      ensures old(left) != [] ==> r == Some(old(left)[0]) && left == old(left)[1..]
    {
      if left == [] {
        return None;
      }
      r := Some(left[0]);
      left := left[1..];
    }

    /** Reads an array of `n` bytes. */
    method Read(n: nat) returns (r: Option<Bytes>)
      modifies this
      ensures |old(left)| < n ==> r == None
      ensures |old(left)| >= n ==> r == Some(old(left)[..n]) && left == old(left)[n..]
    {
      if |left| < n {
        return None;
      }
      r := Some(left[..n]);
      left := left[n..];
    }

    /** `while let Ok(byte) = input.read_byte()`. */
    method ReadRest() returns (bytes: Bytes)
      modifies this
      ensures bytes == old(left) && left == []
    {
      bytes := [];
      var byte := ReadByte();
      while byte.Some?
        invariant byte.Some? ==> bytes + [byte.value] + left == old(left)
        invariant byte.None? ==> bytes == old(left) && left == []
        decreases byte.Some?, |left|
      {
        bytes := bytes + [byte.value];
        byte := ReadByte();
      }
    }

    method ReadMode() returns (r: Result<SpeedMode, DecodeError>)
      modifies this
      ensures old(left) == [] ==> r == Err(EndOfInput)
      ensures old(left) != [] ==>
                && left == old(left)[1..]
                && (r.Ok? ==> ModeByte(r.value) == old(left)[0])
                && (r.Err? ==> r.error == InvalidSpeedMode && old(left)[0] > 3)
    {
      var byte := ReadByte();
      if byte.None? {
        return Err(EndOfInput);
      }
      match byte.value {
        case 0 => return Ok(Fast);
        case 1 => return Ok(Rational);
        case 2 => return Ok(Finalized);
        case 3 => return Ok(Instant);
        case _ => return Err(InvalidSpeedMode);
      }
    }
  }

  /** Long enough for its tag, with a known tag and speed mode. */
  predicate Plausible(input: Bytes) {
    && |input| >= 5 && input[0] <= 6
    && (input[0] >= 4 ==> |input| >= 6 && input[5] <= 3)
    && (input[0] == 4 ==> |input| >= 38)
  }

  lemma OnlyPlausible(input: Bytes)
    requires !Plausible(input)
    ensures forall args, rest :: !Decodes(input, args, rest)
  {
    forall args, rest | Decodes(input, args, rest) ensures false {
      EncodeHead(args, rest);
    }
  }

  lemma Reassembled(input: Bytes)
    requires |input| >= 5
    ensures input == [input[0]] + input[1..5] + input[5..]
  {
  }

  /** Tags 4 to 6: a speed mode, for tag 4 a source, and the rest. */
  method DecodeVerify(tag: Byte, chainId: ChainId, input: Input) returns (r: Result<PrecompileArgs, DecodeError>)
    requires 4 <= tag <= 6
    modifies input
    ensures r.Ok? ==>
              && Tag(r.value) == tag && r.value.chainId == chainId
              && old(input.left) == Tail(r.value) && input.left == []
    ensures r.Err? ==> old(input.left) == [] || old(input.left)[0] > 3 || (tag == 4 && |old(input.left)| < 33)
    ensures r.Err? ==>
              r.error == if old(input.left) != [] && old(input.left)[0] > 3 then InvalidSpeedMode else EndOfInput
  {
    ghost var tail := input.left;
    var mode := input.ReadMode();
    if mode.Err? {
      return Err(mode.error);
    }
    assert tail == [tail[0]] + tail[1..];
    if tag == 4 {
      var source := input.Read(32);
      if source.None? {
        return Err(EndOfInput);
      }
      assert tail[1..] == tail[1..33] + tail[33..];
      Regroup([tail[0]], tail[1..33], tail[33..]);
      var bytes := input.ReadRest();
      return Ok(VerifyEventInclusion(chainId, mode.value, source.value, bytes));
    }
    var bytes := input.ReadRest();
    return Ok(if tag == 5 then VerifyStateInclusion(chainId, mode.value, bytes)
              else VerifyTxInclusion(chainId, mode.value, bytes));
  }

  /** Succeeds exactly on the inputs that start with an encoding, consumes exactly that encoding, and
      returns what was encoded. */
  method Decode(input: Input) returns (r: Result<PrecompileArgs, DecodeError>)
    modifies input
    ensures r.Ok? ==> Decodes(old(input.left), r.value, input.left) && ReadsAs(old(input.left), r.value)
    ensures r.Err? ==> forall args, rest :: !Decodes(old(input.left), args, rest)
    ensures var bytes := old(input.left);
            && (r == Err(InvalidTag) <==> bytes != [] && bytes[0] > 6)
            && (r == Err(InvalidSpeedMode) <==> |bytes| > 5 && 4 <= bytes[0] <= 6 && bytes[5] > 3)
            && (r == Err(EndOfInput) <==>
                || bytes == []
                || (bytes[0] <= 6 && |bytes| < 5)
                || (4 <= bytes[0] <= 6 && |bytes| == 5)
                || (bytes[0] == 4 && |bytes| < 38 && |bytes| > 5 && bytes[5] <= 3))
  {
    ghost var whole := input.left;
    if !Plausible(whole) {
      OnlyPlausible(whole);
    } else {
      Reassembled(whole);
    }
    var tag := input.ReadByte();
    if tag.None? {
      return Err(EndOfInput);
    }
    if tag.value > 6 {
      return Err(InvalidTag);
    }
    var chainId := input.Read(4);
    if chainId.None? {
      return Err(EndOfInput);
    }
    match tag.value {
      case 0 => r := Ok(GetLatestFinalizedHeader(chainId.value));
      case 1 => r := Ok(GetFinalizedHeight(chainId.value));
      case 2 => r := Ok(GetRationalHeight(chainId.value));
      case 3 => r := Ok(GetFastHeight(chainId.value));
      case _ => r := DecodeVerify(tag.value, chainId.value, input);
    }
    if r.Ok? {
      AppendNothing([tag.value] + chainId.value);
      AppendNothing(Encode(r.value));
      DecodedReadsAs(whole, r.value, input.left);
    }
  }

  /** Encoding and decoding again returns the arguments and leaves nothing unread. */
  method EncodeThenDecode(args: PrecompileArgs) returns (r: Result<PrecompileArgs, DecodeError>, unread: Bytes)
    ensures r == Ok(args) && unread == []
  {
    var bytes := Encoded(args);
    var input := new Input(bytes);
    r := Decode(input);
    unread := input.left;
    AppendNothing(Encode(args));
    assert Decodes(bytes, args, []);
    if r.Ok? {
      DecodesOneWay(Encode(args), args, [], r.value, unread);
    }
  }

  /** Decoding and encoding again returns the bytes consumed; for tags 4 to 6 that is all of them. */
  method DecodeThenEncode(bytes: Bytes) returns (again: Option<Bytes>, unread: Bytes)
    ensures again.Some? ==> bytes != [] && bytes == again.value + unread
    ensures again.Some? && bytes[0] >= 4 ==> again.value == bytes
    ensures again.None? <==> forall args, rest :: !Decodes(bytes, args, rest)
  {
    var input := new Input(bytes);
    var r := Decode(input);
    unread := input.left;
    if r.Err? {
      return None, unread;
    }
    var encoded := Encoded(r.value);
    assert bytes[0] == Tag(r.value);
    return Some(encoded), unread;
  }
}
