/** Decoding a side effect from bytes: a target byte, an action byte, fields of fixed width, and for
    most actions an optional insurance. `None` stands for the panic of a split past the end. */
module SfxDecoder {
  import opened Basics
  import opened Endian

  const HASH_WIDTH := 32

  /** Encoded widths of the runtime's account ids and balances. */
  datatype Widths = Widths(account: nat, balance: nat)

  datatype Action = Transfer | TransferMulti | AddLiquidity | Swap | Call | Data

  datatype SideEffect = SideEffect(target: Bytes, action: Bytes, encodedArgs: seq<Bytes>)

  datatype DecodeError = NoMoreBytes | InvalidTarget | InvalidAction | Panic

  /** `ksma`, `pdot`, `karu`, `t3rn`. */
  function TargetOf(b: Byte): Option<Bytes> {
    match b
    case 0 => Some([107, 115, 109, 97])
    case 1 => Some([112, 100, 111, 116])
    case 2 => Some([107, 97, 114, 117])
    case 3 => Some([116, 51, 114, 110])
    case _ => None
  }

  function ActionOf(b: Byte): Option<Action> {
    match b
    case 0 => Some(Transfer)
    case 1 => Some(TransferMulti)
    case 2 => Some(AddLiquidity)
    case 3 => Some(Swap)
    case 4 => Some(Call)
    case 5 => Some(Data)
    case _ => None
  }

  /** `tran`, `mult`, `aliq`, `swap`, `call`, `data`. */
  function ActionId(action: Action): Bytes {
    match action
    case Transfer => [116, 114, 97, 110]
    case TransferMulti => [109, 117, 108, 116]
    case AddLiquidity => [97, 108, 105, 113]
    case Swap => [115, 119, 97, 112]
    case Call => [99, 97, 108, 108]
    case Data => [100, 97, 116, 97]
  }

  /** Widths of an action's fields, in order. */
  function Layout(w: Widths, action: Action): seq<nat>
    requires action != Call
  {
    match action
    case Transfer => [w.account, w.account, w.balance]
    case TransferMulti => [HASH_WIDTH, w.account, w.account, w.balance]
    case AddLiquidity =>
      [w.account, w.account, HASH_WIDTH, HASH_WIDTH, HASH_WIDTH, w.balance, w.balance, w.balance]
    case Swap => [w.account, w.account, w.balance, w.balance, HASH_WIDTH, HASH_WIDTH]
    case Data => [HASH_WIDTH]
  }

  // ---- What is extracted ----------------------------------------------------------------

  /** Fields and what is left after them, or a panic. */
  type Split = Option<(seq<Bytes>, Bytes)>

  function Prepend(fields: seq<Bytes>, split: Split): Split {
    if split.None? then None else Some((fields + split.value.0, split.value.1))
  }

  function SplitFields(bytes: Bytes, widths: seq<nat>): Split
    decreases widths
  {
    if widths == [] then Some(([], bytes))
    else if |bytes| < widths[0] then None
    else Prepend([bytes[..widths[0]]], SplitFields(bytes[widths[0]..], widths[1..]))
  }

  lemma PrependFacts(a: seq<Bytes>, x: Bytes, split: Split)
    ensures Prepend([], split) == split
    ensures Prepend(a, Prepend([x], split)) == Prepend(a + [x], split)
  {
    if split.Some? {
      var fields := split.value.0;
      assert [] + fields == fields && a + ([x] + fields) == a + [x] + fields;
    }
  }

  function InsuranceWidth(w: Widths): nat {
    1 + 2 * w.balance
  }

  /** The extra argument, if any: empty for a zero tag, the whole encoded option for a one. */
  function Insurance(w: Widths, bytes: Bytes): Option<seq<Bytes>> {
    if bytes == [] then Some([])
    else if bytes[0] == 0 then Some([[]])
    else if bytes[0] == 1 then
      if |bytes| < InsuranceWidth(w) then None else Some([bytes[..InsuranceWidth(w)]])
    else Some([])
  }

  function Extract(w: Widths, action: Action, bytes: Bytes): Option<seq<Bytes>>
    requires action != Call
  {
    match SplitFields(bytes, Layout(w, action))
    case None => None
    case Some((fields, rest)) =>
      if action == Data then Some(fields)
      else if Insurance(w, rest).None? then None
      else Some(fields + Insurance(w, rest).value)
  }

  /** Skips the length byte and takes the rest as data. */
  function Finish(args: seq<Bytes>, split: Split): Option<seq<Bytes>> {
    if split.None? || split.value.1 == [] then None
    else Some(args + split.value.0 + [split.value.1[1..]])
  }

  /** A contract call: caller, a byte that names the machine, its fields, one byte skipped, the data. */
  function ExtractCall(w: Widths, bytes: Bytes): Option<seq<Bytes>> {
    match SplitFields(bytes, [w.account])
    case None => None
    case Some((caller, rest)) =>
      if rest != [] && rest[0] == 0 then Finish(caller, SplitFields(rest[1..], [w.account, w.balance]))
      else if rest != [] && rest[0] == 1 then
        match SplitFields(rest[1..], [w.account, w.balance, w.balance])
        case None => None
        case Some((fields, tail)) =>
          if tail != [] && tail[0] == 0 then Finish(caller + fields, Some(([[0]], tail)))
          else if tail != [] && tail[0] == 1 then Finish(caller + fields, SplitFields(tail[1..], [w.balance]))
          else Finish(caller + fields, Some(([], tail)))
      else Finish(caller, Some(([], rest)))
  }

  function Decoded(w: Widths, bytes: Bytes): Result<SideEffect, DecodeError> {
    if bytes == [] then Err(NoMoreBytes)
    else if TargetOf(bytes[0]).None? then Err(InvalidTarget)
    else if |bytes| < 2 then Err(NoMoreBytes)
    else if ActionOf(bytes[1]).None? then Err(InvalidAction)
    else
      var action := ActionOf(bytes[1]).value;
      var args := if action == Call then ExtractCall(w, bytes[2..]) else Extract(w, action, bytes[2..]);
      if args.None? then Err(Panic)
      else Ok(SideEffect(TargetOf(bytes[0]).value, ActionId(action), args.value))
  }

  // ---- The decoder ----------------------------------------------------------------------

  class ByteBuf {
    var left: Bytes

    constructor (bytes: Bytes)
      ensures left == bytes
    {
      left := bytes;
    }

    /** Takes the next `n` bytes out of the buffer. */
    method SplitTo(n: nat) returns (r: Option<Bytes>)
      modifies this
      ensures |old(left)| < n ==> r == None && left == old(left)
      ensures |old(left)| >= n ==> r == Some(old(left)[..n]) && left == old(left)[n..]
    {
      if |left| < n {
        return None;
      }
      r := Some(left[..n]);
      left := left[n..];
    }

    /** One split after another, each pushed onto the arguments. */
    method SplitAll(widths: seq<nat>) returns (r: Option<seq<Bytes>>)
      modifies this
      ensures match SplitFields(old(left), widths)
              case None => r == None
              case Some((fields, rest)) => r == Some(fields) && left == rest
    {
      var args: seq<Bytes> := [];
      assert widths[0..] == widths;
      PrependFacts([], [], SplitFields(left, widths));
      for i := 0 to |widths|
        invariant Prepend(args, SplitFields(left, widths[i..])) == SplitFields(old(left), widths)
      {
        assert widths[i..][1..] == widths[i + 1..];
        var field := SplitTo(widths[i]);
        if field.None? {
          return None;
        }
        PrependFacts(args, field.value, SplitFields(left, widths[i + 1..]));
        args := args + [field.value];
      }
      assert args + [] == args;
      return Some(args);
    }

    method TakeInsurance(w: Widths) returns (r: Option<seq<Bytes>>)
      modifies this
      ensures r == Insurance(w, old(left))
    {
      if left != [] && left[0] == 0 {
        return Some([[]]);
      } else if left != [] && left[0] == 1 {
        var insurance := SplitTo(InsuranceWidth(w));
        if insurance.None? {
          return None;
        }
        return Some([insurance.value]);
      }
      return Some([]);
    }

    method ExtractArgs(w: Widths, action: Action) returns (r: Option<seq<Bytes>>)
      requires action != Call
      modifies this
      ensures r == Extract(w, action, old(left))
    {
      var args := SplitAll(Layout(w, action));
      if args.None? {
        return None;
      }
      if action == Data {
        return args;
      }
      var insurance := TakeInsurance(w);
      if insurance.None? {
        return None;
      }
      return Some(args.value + insurance.value);
    }

    method ExtractCallArgs(w: Widths) returns (r: Option<seq<Bytes>>)
      modifies this
      ensures r == ExtractCall(w, old(left))
    {
      var caller := SplitAll([w.account]);
      if caller.None? {
        return None;
      }
      var args := caller.value;
      if left != [] && left[0] == 0 {
        left := left[1..];
        var fields := SplitAll([w.account, w.balance]);
        if fields.None? {
          return None;
        }
        args := args + fields.value;
      } else if left != [] && left[0] == 1 {
        left := left[1..];
        var fields := SplitAll([w.account, w.balance, w.balance]);
        if fields.None? {
          return None;
        }
        args := args + fields.value;
        if left != [] && left[0] == 0 {
          args := args + [[0]];
        } else if left != [] && left[0] == 1 {
          left := left[1..];
          var limit := SplitAll([w.balance]);
          if limit.None? {
            return None;
          }
          args := args + limit.value;
        }
      }
      if left == [] {
        return None;
      }
      assert args + [] == args;
      left := left[1..];
      return Some(args + [left]);
    }
  }

  method TryFrom(w: Widths, bytes: Bytes) returns (r: Result<SideEffect, DecodeError>)
    ensures r == Decoded(w, bytes)
  {
    if bytes == [] {
      return Err(NoMoreBytes);
    }
    var target := TargetOf(bytes[0]);
    if target.None? {
      return Err(InvalidTarget);
    }
    if |bytes| < 2 {
      return Err(NoMoreBytes);
    }
    var action := ActionOf(bytes[1]);
    if action.None? {
      return Err(InvalidAction);
    }
    var buf := new ByteBuf(bytes[2..]);
    var args;
    if action.value == Call {
      args := buf.ExtractCallArgs(w);
    } else {
      args := buf.ExtractArgs(w, action.value);
    }
    if args.None? {
      return Err(Panic);
    }
    return Ok(SideEffect(target.value, ActionId(action.value), args.value));
  }

  // ---- Round trips ----------------------------------------------------------------------

  function Concat(fields: seq<Bytes>): Bytes {
    if fields == [] then [] else fields[0] + Concat(fields[1..])
  }

  ghost predicate Fit(fields: seq<Bytes>, widths: seq<nat>) {
    |fields| == |widths| && forall i :: 0 <= i < |fields| ==> |fields[i]| == widths[i]
  }

  /** Splitting undoes concatenation ... */
  lemma {:induction false} SplitConcat(fields: seq<Bytes>, widths: seq<nat>, rest: Bytes)
    requires Fit(fields, widths)
    ensures SplitFields(Concat(fields) + rest, widths) == Some((fields, rest))
    decreases widths
  {
    if widths != [] {
      SplitConcat(fields[1..], widths[1..], rest);
      var bytes := Concat(fields) + rest;
      assert bytes[..widths[0]] == fields[0];
      assert bytes[widths[0]..] == Concat(fields[1..]) + rest;
      assert fields == [fields[0]] + fields[1..];
    } else {
      assert Concat(fields) + rest == rest;
    }
  }

  /** ... and concatenation undoes splitting. */
  lemma {:induction false} ConcatSplit(bytes: Bytes, widths: seq<nat>)
    ensures match SplitFields(bytes, widths)
            case None => true
            case Some((fields, rest)) => Fit(fields, widths) && bytes == Concat(fields) + rest
    decreases widths
  {
    if widths != [] && |bytes| >= widths[0] {
      ConcatSplit(bytes[widths[0]..], widths[1..]);
      match SplitFields(bytes[widths[0]..], widths[1..])
      case None =>
      case Some((fields, rest)) =>
        var all := [bytes[..widths[0]]] + fields;
        assert all[1..] == fields;
        assert bytes == bytes[..widths[0]] + bytes[widths[0]..];
    }
  }

  datatype InsuranceField = Absent | NoInsurance | Insured(payload: Bytes)

  function EncodeInsurance(ins: InsuranceField): Bytes {
    match ins
    case Absent => []
    case NoInsurance => [0]
    case Insured(payload) => [1] + payload
  }

  function InsuranceArgs(ins: InsuranceField): seq<Bytes> {
    match ins
    case Absent => []
    case NoInsurance => [[]]
    case Insured(payload) => [[1] + payload]
  }

  predicate FitsInsurance(w: Widths, ins: InsuranceField) {
    ins.Insured? ==> |ins.payload| == 2 * w.balance
  }

  lemma InsuranceRoundTrip(w: Widths, ins: InsuranceField)
    requires FitsInsurance(w, ins)
    ensures Insurance(w, EncodeInsurance(ins)) == Some(InsuranceArgs(ins))
  {
    var tail := EncodeInsurance(ins);
    if ins.Insured? {
      assert tail[..InsuranceWidth(w)] == tail;
    }
  }

  lemma HeaderOff(target: Byte, code: Byte, body: Bytes)
    ensures var bytes := [target, code] + body; bytes[0] == target && bytes[1] == code && bytes[2..] == body
  {
  }

  /** Encoding exact-width fields in order, with or without insurance, and decoding the bytes gives the
      target, the action and the same fields. */
  lemma {:induction false} SideEffectRoundTrip(w: Widths, target: Byte, code: Byte, fields: seq<Bytes>,
                                               ins: InsuranceField)
    requires TargetOf(target).Some? && ActionOf(code).Some? && ActionOf(code).value != Call
    requires Fit(fields, Layout(w, ActionOf(code).value))
    requires ActionOf(code) == Some(Data) ==> ins == Absent
    requires FitsInsurance(w, ins)
    ensures Decoded(w, [target, code] + (Concat(fields) + EncodeInsurance(ins)))
         == Ok(SideEffect(TargetOf(target).value, ActionId(ActionOf(code).value), fields + InsuranceArgs(ins)))
  {
    var action := ActionOf(code).value;
    HeaderOff(target, code, Concat(fields) + EncodeInsurance(ins));
    SplitConcat(fields, Layout(w, action), EncodeInsurance(ins));
    InsuranceRoundTrip(w, ins);
    assert fields + [] == fields;
    assert Extract(w, action, Concat(fields) + EncodeInsurance(ins)) == Some(fields + InsuranceArgs(ins));
  }

  /** Whatever is decoded, the fields stand in the input one after the other, and the argument after
      them is the insurance read from the bytes that follow. */
  lemma DecodedIsInOrder(w: Widths, bytes: Bytes)
    requires Decoded(w, bytes).Ok? && ActionOf(bytes[1]) != Some(Call)
    ensures var args, action := Decoded(w, bytes).value.encodedArgs, ActionOf(bytes[1]).value;
            var widths := Layout(w, action);
            && |widths| <= |args|
            && Fit(args[..|widths|], widths)
            && exists rest ::
                 && bytes == [bytes[0], bytes[1]] + (Concat(args[..|widths|]) + rest)
                 && Some(args[|widths|..]) == if action == Data then Some([]) else Insurance(w, rest)
  {
    var widths := Layout(w, ActionOf(bytes[1]).value);
    ConcatSplit(bytes[2..], widths);
    var (fields, rest) := SplitFields(bytes[2..], widths).value;
    var args := Decoded(w, bytes).value.encodedArgs;
    assert args[..|widths|] == fields;
    assert bytes == [bytes[0], bytes[1]] + (Concat(fields) + rest);
  }

  // ---- The actions by the names of their fields -----------------------------------------

  lemma {:induction false} ConcatCons(x: Bytes, rest: seq<Bytes>)
    ensures Concat([x] + rest) == x + Concat(rest)
  {
    assert ([x] + rest)[1..] == rest;
  }

  lemma {:induction false} ConcatThree(a: Bytes, b: Bytes, c: Bytes, rest: seq<Bytes>, tail: Bytes)
    ensures Concat([a, b, c] + rest) + tail == a + (b + (c + (Concat(rest) + tail)))
  {
    ConcatCons(c, rest);
    ConcatCons(b, [c] + rest);
    ConcatCons(a, [b] + ([c] + rest));
    assert [a] + ([b] + ([c] + rest)) == [a, b, c] + rest;
    assert a + (b + (c + Concat(rest))) + tail == a + (b + (c + (Concat(rest) + tail)));
  }

  lemma ConcatTwo(a: Bytes, b: Bytes, tail: Bytes)
    ensures Concat([a, b]) + tail == a + (b + tail)
  {
    ConcatCons(b, []);
    ConcatCons(a, [b]);
    assert [b] + [] == [b] && [a] + [b] == [a, b] && b + Concat([]) == b;
    assert a + b + tail == a + (b + tail);
  }

  lemma TransferRoundTrip(w: Widths, target: Byte, from: Bytes, to: Bytes, amount: Bytes, ins: InsuranceField)
    requires TargetOf(target).Some? && |from| == |to| == w.account && |amount| == w.balance && FitsInsurance(w, ins)
    ensures Decoded(w, [target, 0] + (from + (to + (amount + EncodeInsurance(ins)))))
         == Ok(SideEffect(TargetOf(target).value, ActionId(Transfer), [from, to, amount] + InsuranceArgs(ins)))
  {
    var tail := EncodeInsurance(ins);
    ConcatThree(from, to, amount, [], tail);
    assert [] + tail == tail && [from, to, amount] + [] == [from, to, amount];
    SideEffectRoundTrip(w, target, 0, [from, to, amount], ins);
  }

  lemma TransferMultiRoundTrip(w: Widths, target: Byte, asset: Bytes, from: Bytes, to: Bytes, amount: Bytes,
                               ins: InsuranceField)
    requires TargetOf(target).Some? && |asset| == HASH_WIDTH
    requires |from| == |to| == w.account && |amount| == w.balance && FitsInsurance(w, ins)
    ensures Decoded(w, [target, 1] + (asset + (from + (to + (amount + EncodeInsurance(ins))))))
         == Ok(SideEffect(TargetOf(target).value, ActionId(TransferMulti),
                          [asset, from, to, amount] + InsuranceArgs(ins)))
  {
    ConcatThree(asset, from, to, [amount], EncodeInsurance(ins));
    ConcatCons(amount, []);
    assert amount + Concat([]) == amount && [amount] + [] == [amount];
    assert [asset, from, to] + [amount] == [asset, from, to, amount];
    SideEffectRoundTrip(w, target, 1, [asset, from, to, amount], ins);
  }

  lemma AddLiquidityRoundTrip(w: Widths, target: Byte, from: Bytes, to: Bytes, assetLeft: Bytes, assetRight: Bytes,
                              token: Bytes, amountLeft: Bytes, amountRight: Bytes, amountToken: Bytes,
                              ins: InsuranceField)
    requires TargetOf(target).Some? && |from| == |to| == w.account
    requires |assetLeft| == |assetRight| == |token| == HASH_WIDTH
    requires |amountLeft| == |amountRight| == |amountToken| == w.balance && FitsInsurance(w, ins)
    ensures Decoded(w, [target, 2] + (from + (to + (assetLeft + (assetRight + (token + (amountLeft + (amountRight
                       + (amountToken + EncodeInsurance(ins))))))))))
         == Ok(SideEffect(TargetOf(target).value, ActionId(AddLiquidity),
                          [from, to, assetLeft, assetRight, token, amountLeft, amountRight, amountToken]
                          + InsuranceArgs(ins)))
  {
    var tail, last := EncodeInsurance(ins), [amountRight, amountToken];
    var rest := [assetRight, token, amountLeft] + last;
    ConcatThree(from, to, assetLeft, rest, tail);
    ConcatThree(assetRight, token, amountLeft, last, tail);
    ConcatTwo(amountRight, amountToken, tail);
    var fields := [from, to, assetLeft, assetRight, token, amountLeft, amountRight, amountToken];
    assert [from, to, assetLeft] + rest == fields;
    SideEffectRoundTrip(w, target, 2, fields, ins);
  }

  lemma SwapRoundTrip(w: Widths, target: Byte, from: Bytes, to: Bytes, amountLeft: Bytes, amountRight: Bytes,
                      assetLeft: Bytes, assetRight: Bytes, ins: InsuranceField)
    requires TargetOf(target).Some? && |from| == |to| == w.account
    requires |amountLeft| == |amountRight| == w.balance && |assetLeft| == |assetRight| == HASH_WIDTH
    requires FitsInsurance(w, ins)
    ensures Decoded(w, [target, 3] + (from + (to + (amountLeft + (amountRight + (assetLeft + (assetRight
                       + EncodeInsurance(ins))))))))
         == Ok(SideEffect(TargetOf(target).value, ActionId(Swap),
                          [from, to, amountLeft, amountRight, assetLeft, assetRight] + InsuranceArgs(ins)))
  {
    var tail, rest := EncodeInsurance(ins), [amountRight, assetLeft, assetRight];
    ConcatThree(from, to, amountLeft, rest, tail);
    ConcatThree(amountRight, assetLeft, assetRight, [], tail);
    assert [] + tail == tail && rest + [] == rest;
    assert [from, to, amountLeft] + rest == [from, to, amountLeft, amountRight, assetLeft, assetRight];
    SideEffectRoundTrip(w, target, 3, [from, to, amountLeft, amountRight, assetLeft, assetRight], ins);
  }

  lemma DataRoundTrip(w: Widths, target: Byte, key: Bytes)
    requires TargetOf(target).Some? && |key| == HASH_WIDTH
    ensures Decoded(w, [target, 5] + key) == Ok(SideEffect(TargetOf(target).value, ActionId(Data), [key]))
  {
    ConcatCons(key, []);
    assert [key] + [] == [key] && key + [] == key;
    SideEffectRoundTrip(w, target, 5, [key], Absent);
  }

  // ---- Calls ----------------------------------------------------------------------------

  /** The machine a call is for, with the fields only it has. */
  datatype VM = Evm | Wasm(gasLimit: Bytes, storageLimit: Option<Bytes>)

  predicate FitsVM(w: Widths, vm: VM) {
    vm.Wasm? ==> |vm.gasLimit| == w.balance && (vm.storageLimit.Some? ==> |vm.storageLimit.value| == w.balance)
  }

  /** The SCALE encoding of the length of a vector: one, two, four or five bytes, the two lowest bits
      of the first saying which. */
  function CompactLength(n: U32): (length: Bytes)
    ensures length != [] && (|length| == 1 <==> n < 64)
  {
    if n < 0x40 then [4 * n]
    else if n < 0x4000 then Reverse(ToBigEndian(4 * n + 1, 2))
    else if n < 0x4000_0000 then Reverse(ToBigEndian(4 * n + 2, 4))
    else [3] + Reverse(ToBigEndian(n, 4))
  }

  /** What the bytes say, least significant first: the length times four, plus what tells the widths apart. */
  lemma {:induction false} CompactValue(n: U32)
    ensures var length := CompactLength(n);
            if n < 0x40 then length == [4 * n]
            else if n < 0x4000 then |length| == 2 && FromLittleEndian(length) == 4 * n + 1
            else if n < 0x4000_0000 then |length| == 4 && FromLittleEndian(length) == 4 * n + 2
            else |length| == 5 && length[0] == 3 && FromLittleEndian(length[1..]) == n
  {
    assert Pow256(1) == 0x100 && Pow256(2) == 0x1_0000 && Pow256(3) == 0x100_0000 && Pow256(4) == 0x1_0000_0000;
    if 0x40 <= n < 0x4000 {
      ReverseReads(ToBigEndian(4 * n + 1, 2));
      BigEndianRoundTrip(4 * n + 1, 2);
    } else if 0x4000 <= n < 0x4000_0000 {
      ReverseReads(ToBigEndian(4 * n + 2, 4));
      BigEndianRoundTrip(4 * n + 2, 4);
    } else if n >= 0x4000_0000 {
      ReverseReads(ToBigEndian(n, 4));
      BigEndianRoundTrip(n, 4);
    }
  }

  /** A call as it is encoded; `length` is the encoded length of the data. */
  function EncodeCall(caller: Bytes, dest: Bytes, value: Bytes, vm: VM, length: Bytes, data: Bytes): Bytes {
    match vm
    case Evm => caller + ([0] + (dest + (value + (length + data))))
    case Wasm(gas, None) => caller + ([1] + (dest + (value + (gas + ([0] + (length + data))))))
    case Wasm(gas, Some(limit)) => caller + ([1] + (dest + (value + (gas + ([1] + (limit + (length + data)))))))
  }

  /** The arguments that come back before the data. */
  function CallFields(caller: Bytes, dest: Bytes, value: Bytes, vm: VM): seq<Bytes> {
    match vm
    case Evm => [caller] + [dest, value]
    case Wasm(gas, None) => [caller] + [dest, value, gas] + [[0]]
    case Wasm(gas, Some(limit)) => [caller] + [dest, value, gas] + [limit]
  }

  /** Only one byte is dropped before the data. For a Wasm call without a storage limit that byte is the
      option's tag, not the length. */
  function CallData(vm: VM, length: Bytes, data: Bytes): Bytes
    requires length != []
  {
    if vm.Wasm? && vm.storageLimit.None? then length + data else length[1..] + data
  }

  lemma {:induction false} SplitOne(a: Bytes, rest: Bytes)
    ensures SplitFields(a + rest, [|a|]) == Some(([a], rest))
  {
    SplitConcat([a], [|a|], rest);
    assert Concat([a]) == a + Concat([]) == a;
  }

  lemma {:induction false} SplitTwo(a: Bytes, b: Bytes, rest: Bytes)
    ensures SplitFields(a + (b + rest), [|a|, |b|]) == Some(([a, b], rest))
  {
    SplitOne(b, rest);
    assert (a + (b + rest))[..|a|] == a && (a + (b + rest))[|a|..] == b + rest;
    assert [|a|, |b|][1..] == [|b|] && [a] + [b] == [a, b];
  }

  lemma {:induction false} SplitThree(a: Bytes, b: Bytes, c: Bytes, rest: Bytes)
    ensures SplitFields(a + (b + (c + rest)), [|a|, |b|, |c|]) == Some(([a, b, c], rest))
  {
    SplitTwo(b, c, rest);
    var all := a + (b + (c + rest));
    assert all[..|a|] == a && all[|a|..] == b + (c + rest);
    assert [|a|, |b|, |c|][1..] == [|b|, |c|] && [a] + [b, c] == [a, b, c];
  }

  /** What a call decodes to, whatever its length prefix. */
  lemma CallDecodes(w: Widths, caller: Bytes, dest: Bytes, value: Bytes, vm: VM, length: Bytes, data: Bytes)
    requires |caller| == |dest| == w.account && |value| == w.balance && FitsVM(w, vm) && length != []
    ensures ExtractCall(w, EncodeCall(caller, dest, value, vm, length, data))
         == Some(CallFields(caller, dest, value, vm) + [CallData(vm, length, data)])
  {
    var tail := length + data;
    assert tail[1..] == length[1..] + data;
    match vm
    case Evm =>
      SplitOne(caller, [0] + (dest + (value + tail)));
      SplitTwo(dest, value, tail);
      assert ([0] + (dest + (value + tail)))[1..] == dest + (value + tail);
    case Wasm(gas, None) =>
      var end := [0] + tail;
      SplitOne(caller, [1] + (dest + (value + (gas + end))));
      SplitThree(dest, value, gas, end);
      assert ([1] + (dest + (value + (gas + end))))[1..] == dest + (value + (gas + end));
      assert end[1..] == tail;
    case Wasm(gas, Some(limit)) =>
      var end := [1] + (limit + tail);
      SplitOne(caller, [1] + (dest + (value + (gas + end))));
      SplitThree(dest, value, gas, end);
      assert ([1] + (dest + (value + (gas + end))))[1..] == dest + (value + (gas + end));
      assert end[1..] == limit + tail;
      SplitOne(limit, tail);
  }

  lemma CallIsDecoded(w: Widths, target: Byte, body: Bytes, args: seq<Bytes>)
    requires TargetOf(target).Some? && ExtractCall(w, body) == Some(args)
    ensures Decoded(w, [target, 4] + body) == Ok(SideEffect(TargetOf(target).value, ActionId(Call), args))
  {
    HeaderOff(target, 4, body);
  }

  /** So the data of a call comes back as it was sent exactly when it is shorter than 64 bytes, its
      length then taking one byte, and the call is not a Wasm call without a storage limit. */
  lemma CallDataComesBack(w: Widths, target: Byte, caller: Bytes, dest: Bytes, value: Bytes, vm: VM, data: Bytes)
    requires TargetOf(target).Some? && |data| <= U32_MAX
    requires |caller| == |dest| == w.account && |value| == w.balance && FitsVM(w, vm)
    ensures Decoded(w, [target, 4] + EncodeCall(caller, dest, value, vm, CompactLength(|data|), data))
            == Ok(SideEffect(TargetOf(target).value, ActionId(Call), CallFields(caller, dest, value, vm) + [data]))
            <==> |data| < 64 && !(vm.Wasm? && vm.storageLimit.None?)
  {
    var length := CompactLength(|data|);
    CallDecodes(w, caller, dest, value, vm, length, data);
    var fields, sent := CallFields(caller, dest, value, vm), CallData(vm, length, data);
    CallIsDecoded(w, target, EncodeCall(caller, dest, value, vm, length, data), fields + [sent]);
    assert (fields + [sent])[|fields|] == sent && (fields + [data])[|fields|] == data;
    if |data| < 64 {
      assert length[1..] + data == data;
    }
  }

  /** One such call, with 32-byte accounts and 16-byte balances: the length byte comes back glued to the
      one byte of data. */
  lemma WasmCallWithoutLimit(caller: Bytes, dest: Bytes, value: Bytes, gas: Bytes)
    requires |caller| == |dest| == 32 && |value| == |gas| == 16
    ensures Decoded(Widths(32, 16), [3, 4] + EncodeCall(caller, dest, value, Wasm(gas, None), CompactLength(1), [9]))
         == Ok(SideEffect([116, 51, 114, 110], [99, 97, 108, 108], [caller, dest, value, gas, [0], [4, 9]]))
  {
    var w, vm := Widths(32, 16), Wasm(gas, None);
    CallDecodes(w, caller, dest, value, vm, [4], [9]);
    var glued: Bytes := [4] + [9];
    assert glued == [4, 9];
    assert CallFields(caller, dest, value, vm) + [glued] == [caller, dest, value, gas, [0], glued];
    CallIsDecoded(w, 3, EncodeCall(caller, dest, value, vm, [4], [9]), [caller, dest, value, gas, [0], glued]);
  }

  // ---- Names and refusals ---------------------------------------------------------------

  /** The bytes of an ASCII text. */
  function Ascii(text: string): seq<int> {
    if text == [] then [] else [text[0] as int] + Ascii(text[1..])
  }

  lemma FourLetters(a: char, b: char, c: char, d: char)
    ensures Ascii([a, b, c, d]) == [a as int, b as int, c as int, d as int]
  {
    assert [a, b, c, d][1..] == [b, c, d] && [b, c, d][1..] == [c, d] && [c, d][1..] == [d] && [d][1..] == [];
    assert Ascii([d]) == [d as int];
    assert Ascii([c, d]) == [c as int, d as int];
    assert Ascii([b, c, d]) == [b as int, c as int, d as int];
  }

  lemma TargetNames(b: Byte)
    ensures TargetOf(b).Some? <==> b <= 3
    ensures b == 0 ==> TargetOf(b).value == Ascii("ksma")
    ensures b == 1 ==> TargetOf(b).value == Ascii("pdot")
    ensures b == 2 ==> TargetOf(b).value == Ascii("karu")
    ensures b == 3 ==> TargetOf(b).value == Ascii("t3rn")
  {
    FourLetters('k', 's', 'm', 'a');
    FourLetters('p', 'd', 'o', 't');
    FourLetters('k', 'a', 'r', 'u');
    FourLetters('t', '3', 'r', 'n');
  }

  lemma ActionNames(b: Byte)
    ensures ActionOf(b).Some? <==> b <= 5
    ensures b == 0 ==> ActionId(ActionOf(b).value) == Ascii("tran")
    ensures b == 1 ==> ActionId(ActionOf(b).value) == Ascii("mult")
    ensures b == 2 ==> ActionId(ActionOf(b).value) == Ascii("aliq")
    ensures b == 3 ==> ActionId(ActionOf(b).value) == Ascii("swap")
    ensures b == 4 ==> ActionId(ActionOf(b).value) == Ascii("call")
    ensures b == 5 ==> ActionId(ActionOf(b).value) == Ascii("data")
  {
    FourLetters('t', 'r', 'a', 'n');
    FourLetters('m', 'u', 'l', 't');
    FourLetters('a', 'l', 'i', 'q');
    FourLetters('s', 'w', 'a', 'p');
    FourLetters('c', 'a', 'l', 'l');
    FourLetters('d', 'a', 't', 'a');
  }

  /** The names that go with the first two bytes of whatever is decoded. */
  lemma DecodedNames(w: Widths, bytes: Bytes)
    requires Decoded(w, bytes).Ok?
    ensures |bytes| >= 2 && bytes[0] <= 3 && bytes[1] <= 5
    ensures var sfx := Decoded(w, bytes).value;
            && (bytes[0] == 0 ==> sfx.target == Ascii("ksma")) && (bytes[0] == 1 ==> sfx.target == Ascii("pdot"))
            && (bytes[0] == 2 ==> sfx.target == Ascii("karu")) && (bytes[0] == 3 ==> sfx.target == Ascii("t3rn"))
            && (bytes[1] == 0 ==> sfx.action == Ascii("tran")) && (bytes[1] == 1 ==> sfx.action == Ascii("mult"))
            && (bytes[1] == 2 ==> sfx.action == Ascii("aliq")) && (bytes[1] == 3 ==> sfx.action == Ascii("swap"))
            && (bytes[1] == 4 ==> sfx.action == Ascii("call")) && (bytes[1] == 5 ==> sfx.action == Ascii("data"))
  {
    TargetNames(bytes[0]);
    ActionNames(bytes[1]);
  }

  /** The insurance argument by its tag, whatever follows: an empty one for 0, the encoded option for 1,
      none for any other tag or at the end. */
  lemma InsuranceByTag(w: Widths, tag: Byte, payload: Bytes, more: Bytes)
    requires tag == 1 ==> |payload| == 2 * w.balance
    ensures Insurance(w, []) == Some([])
    ensures tag == 0 ==> Insurance(w, [tag] + payload + more) == Some([[]])
    ensures tag == 1 ==> Insurance(w, [tag] + payload + more) == Some([[1] + payload])
    ensures tag > 1 ==> Insurance(w, [tag] + payload + more) == Some([])
  {
    var bytes := [tag] + payload + more;
    assert bytes[0] == tag;
    if tag == 1 {
      assert bytes[..InsuranceWidth(w)] == [1] + payload;
    }
  }

  function Sum(widths: seq<nat>): nat {
    if widths == [] then 0 else widths[0] + Sum(widths[1..])
  }

  lemma {:induction false} SplitNeeds(bytes: Bytes, widths: seq<nat>)
    ensures SplitFields(bytes, widths).None? <==> |bytes| < Sum(widths)
    ensures SplitFields(bytes, widths).Some? ==> SplitFields(bytes, widths).value.1 == bytes[Sum(widths)..]
    decreases widths
  {
    if widths != [] && |bytes| >= widths[0] {
      SplitNeeds(bytes[widths[0]..], widths[1..]);
    }
  }

  /** How many bytes the fields of an action other than a call take. */
  function FieldsWidth(w: Widths, code: Byte): nat
    requires code <= 5 && code != 4
  {
    match code
    case 0 => 2 * w.account + w.balance
    case 1 => 32 + 2 * w.account + w.balance
    case 2 => 2 * w.account + 96 + 3 * w.balance
    case 3 => 2 * w.account + 2 * w.balance + 64
    case 5 => 32
  }

  lemma {:induction false} SumCons(x: nat, rest: seq<nat>)
    ensures Sum([x] + rest) == x + Sum(rest)
  {
    assert ([x] + rest)[1..] == rest;
  }

  lemma {:induction false} SumOfThree(a: nat, b: nat, c: nat, rest: seq<nat>)
    ensures Sum([a, b, c] + rest) == a + b + c + Sum(rest)
  {
    SumCons(c, rest);
    SumCons(b, [c] + rest);
    SumCons(a, [b] + ([c] + rest));
    assert [a] + ([b] + ([c] + rest)) == [a, b, c] + rest;
  }

  lemma LayoutWidth(w: Widths, code: Byte)
    requires code <= 5 && code != 4
    ensures Sum(Layout(w, ActionOf(code).value)) == FieldsWidth(w, code)
  {
    var a, b := w.account, w.balance;
    match code {
      case 0 =>
        SumOfThree(a, a, b, []);
        AppendNothing([a, a, b]);
      case 1 =>
        SumOfThree(HASH_WIDTH, a, a, [b]);
        assert [HASH_WIDTH, a, a] + [b] == [HASH_WIDTH, a, a, b];
      case 2 =>
        SumOfThree(a, a, HASH_WIDTH, [HASH_WIDTH, HASH_WIDTH, b] + [b, b]);
        SumOfThree(HASH_WIDTH, HASH_WIDTH, b, [b, b]);
        SumCons(b, [b]);
        assert [b] + [b] == [b, b];
        assert [a, a, HASH_WIDTH] + ([HASH_WIDTH, HASH_WIDTH, b] + [b, b])
            == [a, a, HASH_WIDTH, HASH_WIDTH, HASH_WIDTH, b, b, b];
      case 3 =>
        SumOfThree(a, a, b, [b, HASH_WIDTH, HASH_WIDTH]);
        SumOfThree(b, HASH_WIDTH, HASH_WIDTH, []);
        AppendNothing([b, HASH_WIDTH, HASH_WIDTH]);
        assert [a, a, b] + [b, HASH_WIDTH, HASH_WIDTH] == [a, a, b, b, HASH_WIDTH, HASH_WIDTH];
      case 5 =>
        SumCons(HASH_WIDTH, []);
    }
  }

  /** Which inputs are refused, and how: too short for its two bytes, an unknown target, an unknown
      action, or a body that ends within a field or within a started insurance. */
  lemma {:induction false} RefusedExactly(w: Widths, bytes: Bytes)
    ensures Decoded(w, bytes) == Err(NoMoreBytes) <==> bytes == [] || (|bytes| == 1 && bytes[0] <= 3)
    ensures Decoded(w, bytes) == Err(InvalidTarget) <==> bytes != [] && bytes[0] > 3
    ensures Decoded(w, bytes) == Err(InvalidAction) <==> |bytes| >= 2 && bytes[0] <= 3 && bytes[1] > 5
    ensures |bytes| >= 2 && bytes[0] <= 3 && bytes[1] <= 5 && bytes[1] != 4 ==>
              var body, n := bytes[2..], FieldsWidth(w, bytes[1]);
              Decoded(w, bytes) == Err(Panic) <==>
                || |body| < n
                || (bytes[1] != 5 && |body| > n && body[n] == 1 && |body| < n + 1 + 2 * w.balance)
  {
    if |bytes| >= 2 && bytes[0] <= 3 && bytes[1] <= 5 && bytes[1] != 4 {
      var widths := Layout(w, ActionOf(bytes[1]).value);
      LayoutWidth(w, bytes[1]);
      SplitNeeds(bytes[2..], widths);
    }
  }

  /** A call body with neither machine byte: everything after the caller but one byte is the data. */
  lemma {:induction false} OtherMachine(w: Widths, caller: Bytes, machine: Byte, data: Bytes)
    requires |caller| == w.account && machine > 1
    ensures ExtractCall(w, caller + ([machine] + data)) == Some([caller, data])
  {
    var rest := [machine] + data;
    SplitOne(caller, rest);
    assert rest[1..] == data;
    assert [caller] + [] + [data] == [caller, data];
  }

  /** A Wasm call whose storage limit has neither tag: the tag is dropped like a length. */
  lemma {:induction false} OtherOption(w: Widths, caller: Bytes, dest: Bytes, value: Bytes, gas: Bytes, tag: Byte,
                                       data: Bytes)
    requires |caller| == |dest| == w.account && |value| == |gas| == w.balance && tag > 1
    ensures ExtractCall(w, caller + ([1] + (dest + (value + (gas + ([tag] + data))))))
         == Some([caller, dest, value, gas, data])
  {
    var end := [tag] + data;
    SplitOne(caller, [1] + (dest + (value + (gas + end))));
    SplitThree(dest, value, gas, end);
    assert ([1] + (dest + (value + (gas + end))))[1..] == dest + (value + (gas + end));
    assert end[1..] == data;
    assert [caller] + [dest, value, gas] + [] + [data] == [caller, dest, value, gas, data];
  }

  /** What is left of a Wasm call after its fields, and when there is a storage limit after that. */
  lemma {:induction false} WasmRest(w: Widths, body: Bytes)
    requires |body| > w.account
    ensures var a, b := w.account, w.balance;
            var split := SplitFields(body[a..][1..], [a, b, b]);
            && (split.None? <==> |body| < 1 + 2 * a + 2 * b)
            && (split.Some? ==> split.value.1 == body[1 + 2 * a + 2 * b..])
            && (split.Some? && |body| > 1 + 2 * a + 2 * b ==>
                  var limit := SplitFields(split.value.1[1..], [b]);
                  && (limit.None? <==> |body| < 2 + 2 * a + 3 * b)
                  && (limit.Some? ==> limit.value.1 == body[2 + 2 * a + 3 * b..]))
  {
    var a, b := w.account, w.balance;
    var fields := body[a..][1..];
    SumOfThree(a, b, b, []);
    AppendNothing([a, b, b]);
    SplitNeeds(fields, [a, b, b]);
    if |body| > 1 + 2 * a + 2 * b {
      var tail := fields[a + b + b..];
      assert tail == body[1 + 2 * a + 2 * b..];
      SumCons(b, []);
      SplitNeeds(tail[1..], [b]);
    }
  }

  /** When the bytes of a call run out: it takes more than the caller, for the EVM at least one byte after
      destination and value, for Wasm at least one after the gas limit, and one more after a storage
      limit that is announced. */
  lemma {:induction false} CallPanicsExactly(w: Widths, body: Bytes)
    ensures var a, b := w.account, w.balance;
            ExtractCall(w, body).None? <==>
              || |body| <= a
              || (body[a] == 0 && |body| <= 1 + 2 * a + b)
              || (body[a] == 1 && |body| <= 1 + 2 * a + 2 * b)
              || (body[a] == 1 && body[1 + 2 * a + 2 * b] == 1 && |body| <= 2 + 2 * a + 3 * b)
  {
    var a, b := w.account, w.balance;
    SumCons(a, []);
    SplitNeeds(body, [a]);
    if |body| > a {
      var rest := body[a..];
      SumCons(b, []);
      SumCons(a, [b]);
      assert [a] + [b] == [a, b];
      SplitNeeds(rest[1..], [a, b]);
      if body[a] == 1 {
        WasmRest(w, body);
      }
    }
  }
}
