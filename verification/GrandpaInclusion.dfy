/** Inclusion proofs: what a receipt stands on. The trie reader is foreign code (`Env.readTrie`). */
module GrandpaInclusion {
  import opened Basics
  import opened GrandpaTypes
  import opened GrandpaChain
  import opened GrandpaLedger

  datatype VMSource = EVM(address: Bytes) | WASM(account: Bytes)

  datatype Receipt = Receipt(height: nat, includingHeader: Hash, message: Bytes)

  // ---- Storage keys: the hash of a pallet's name and the hash of an item's name ----------

  const SYSTEM: Bytes := [38, 170, 57, 78, 234, 86, 48, 224, 124, 72, 174, 12, 149, 88, 206, 247]
  const EVENTS: Bytes := [128, 212, 30, 94, 22, 5, 103, 101, 188, 132, 97, 133, 16, 114, 201, 215]
  const PARAS: Bytes := [205, 113, 11, 48, 189, 46, 171, 3, 82, 221, 204, 38, 65, 122, 161, 148]
  const HEADS: Bytes := [27, 60, 37, 47, 203, 41, 216, 142, 255, 79, 61, 229, 222, 68, 118, 195]

  /** Storage key of the block's events. */
  const SYSTEM_EVENTS_KEY: Bytes := SYSTEM + EVENTS

  /** Storage key prefix of the parachain heads. */
  const PARAS_HEADS_PREFIX: Bytes := PARAS + HEADS

  /** Four bytes as one number. */
  function Quad(b: Bytes): int {
    if |b| != 4 then 0
    else 0x100_0000 * (b[0] as int) + 0x1_0000 * (b[1] as int) + 0x100 * (b[2] as int) + b[3] as int
  }

  /** `b` is the 16 bytes of four such numbers. */
  ghost predicate Spells(b: Bytes, w: int, x: int, y: int, z: int) {
    && |b| == 16
    && Quad(b[..4]) == w && Quad(b[4..8]) == x && Quad(b[8..12]) == y && Quad(b[12..]) == z
  }

  lemma SystemHash()
    ensures Spells(SYSTEM, 0x26aa_394e, 0xea56_30e0, 0x7c48_ae0c, 0x9558_cef7)
  {
    assert SYSTEM[..4] == [38, 170, 57, 78] && SYSTEM[4..8] == [234, 86, 48, 224];
    assert SYSTEM[8..12] == [124, 72, 174, 12] && SYSTEM[12..] == [149, 88, 206, 247];
  }

  lemma EventsHash()
    ensures Spells(EVENTS, 0x80d4_1e5e, 0x1605_6765, 0xbc84_6185, 0x1072_c9d7)
  {
    assert EVENTS[..4] == [128, 212, 30, 94] && EVENTS[4..8] == [22, 5, 103, 101];
    assert EVENTS[8..12] == [188, 132, 97, 133] && EVENTS[12..] == [16, 114, 201, 215];
  }

  lemma ParasHash()
    ensures Spells(PARAS, 0xcd71_0b30, 0xbd2e_ab03, 0x52dd_cc26, 0x417a_a194)
  {
    assert PARAS[..4] == [205, 113, 11, 48] && PARAS[4..8] == [189, 46, 171, 3];
    assert PARAS[8..12] == [82, 221, 204, 38] && PARAS[12..] == [65, 122, 161, 148];
  }

  lemma HeadsHash()
    ensures Spells(HEADS, 0x1b3c_252f, 0xcb29_d88e, 0xff4f_3de5, 0xde44_76c3)
  {
    assert HEADS[..4] == [27, 60, 37, 47] && HEADS[4..8] == [203, 41, 216, 142];
    assert HEADS[8..12] == [255, 79, 61, 229] && HEADS[12..] == [222, 68, 118, 195];
  }

  /** The keys in the notation they are known by. */
  lemma StorageKeys()
    ensures Spells(SYSTEM_EVENTS_KEY[..16], 0x26aa_394e, 0xea56_30e0, 0x7c48_ae0c, 0x9558_cef7)
    ensures Spells(SYSTEM_EVENTS_KEY[16..], 0x80d4_1e5e, 0x1605_6765, 0xbc84_6185, 0x1072_c9d7)
    ensures Spells(PARAS_HEADS_PREFIX[..16], 0xcd71_0b30, 0xbd2e_ab03, 0x52dd_cc26, 0x417a_a194)
    ensures Spells(PARAS_HEADS_PREFIX[16..], 0x1b3c_252f, 0xcb29_d88e, 0xff4f_3de5, 0xde44_76c3)
  {
    SystemHash();
    EventsHash();
    ParasHash();
    HeadsHash();
  }

  /** `needle` stands in `haystack`, starting before its end. */
  ghost predicate Occurs(haystack: Bytes, needle: Bytes) {
    exists i :: 0 <= i < |haystack| && needle <= haystack[i..]
  }

  /** That is: something, the needle, something, with the needle or what follows it not empty. */
  lemma OccursExactly(haystack: Bytes, needle: Bytes)
    ensures Occurs(haystack, needle) <==>
            exists before, after :: haystack == before + needle + after && |before| < |haystack|
  {
    if Occurs(haystack, needle) {
      var i :| 0 <= i < |haystack| && needle <= haystack[i..];
      assert haystack == haystack[..i] + needle + haystack[i + |needle|..];
    }
    if before, after :| haystack == before + needle + after && |before| < |haystack| {
      assert needle <= haystack[|before|..];
    }
  }

  method IsSub(haystack: Bytes, needle: Bytes) returns (r: bool)
    ensures r <==> Occurs(haystack, needle)
    ensures needle == [] ==> (r <==> haystack != [])
  {
    var rest := haystack;
    ghost var dropped := 0;
    while rest != []
      invariant dropped + |rest| == |haystack| && rest == haystack[dropped..]
      invariant forall i :: 0 <= i < dropped ==> !(needle <= haystack[i..])
      invariant needle == [] ==> dropped == 0
      decreases |rest|
    {
      if needle <= rest {
        return true;
      }
      rest := rest[1..];
      dropped := dropped + 1;
    }
    return false;
  }

  /** The address an event message carries, when it is of the kind the source asks for. */
  ghost predicate Emits(source: ExecutionSource, message: Bytes) {
    if forall i :: 0 <= i < 12 ==> source[i] == 0
    then |message| >= 22 && message[1] == 0 && message[2..22] == source[12..]
    else |message| >= 34 && message[1] == 3 && message[2..34] == source
  }

  /** A log of a pallet's first event that names an EVM address is emitted by it, and by nobody else. */
  lemma EvmEmits(address: Bytes, pallet: Byte, event: Byte, named: Bytes, more: Bytes)
    requires |address| == |named| == 20
    ensures Emits(seq(12, _ => 0) + address, [pallet, event] + named + more) <==> event == 0 && named == address
  {
    var source: ExecutionSource, message := seq(12, _ => 0) + address, [pallet, event] + named + more;
    assert source[12..] == address && message[2..22] == named;
  }

  /** A log of a pallet's fourth event that names any other account is emitted by it, and by nobody else. */
  lemma ContractEmits(source: ExecutionSource, pallet: Byte, event: Byte, named: Bytes, more: Bytes)
    requires source[..12] != seq(12, _ => 0) && |named| == 32
    ensures Emits(source, [pallet, event] + named + more) <==> event == 3 && named == source
  {
    var message := [pallet, event] + named + more;
    assert message[2..34] == named;
    var i :| 0 <= i < 12 && source[..12][i] != seq(12, _ => 0)[i];
    assert source[i] != 0;
  }

  method CheckVmSource(source: ExecutionSource, message: Bytes) returns (r: Result<VMSource, Error>)
    ensures r.Ok? <==> Emits(source, message)
    ensures r.Ok? ==>
              r.value == if forall i :: 0 <= i < 12 ==> source[i] == 0 then EVM(source[12..]) else WASM(source)
    ensures r.Err? ==>
              && r.error in {UnexpectedEventLength, UnexpectedSource}
              && (r.error == UnexpectedEventLength <==>
                  |message| < if forall i :: 0 <= i < 12 ==> source[i] == 0 then 22 else 34)
  {
    assert forall i :: 0 <= i < 12 ==> source[i] == source[0..12][i];
    if source[0..12] == seq(12, _ => 0) {
      if |message| < 22 {
        return Err(UnexpectedEventLength);
      }
      if message[1] != 0 || source[12..] != message[2..22] {
        return Err(UnexpectedSource);
      }
      return Ok(EVM(source[12..]));
    } else {
      if |message| < 34 {
        return Err(UnexpectedEventLength);
      }
      if message[1] != 3 || source != message[2..34] {
        return Err(UnexpectedSource);
      }
      return Ok(WASM(source));
    }
  }

  /** `message` is part of the events of the block `header`, as read from its state. */
  ghost predicate EventIn(env: Env, header: Header, proof: StorageProof, message: Bytes) {
    var events := env.readTrie(proof, header.stateRoot, SYSTEM_EVENTS_KEY);
    events.Some? && Occurs(events.value, message)
  }

  /** The head the relay block `relayHeader` records for a parachain, if it can be read. */
  ghost function HeadIn(env: Env, relayHeader: Header, proof: StorageProof, id: U32): Option<Header> {
    var stored := env.readTrie(proof, relayHeader.stateRoot, PARAS_HEADS_PREFIX + env.parachainKey(id));
    if stored.None? then None
    else
      var encoded := env.decodeBytes(stored.value);
      if encoded.None? then None else env.decodeHeader(encoded.value)
  }

  /** `hash` names a header of the finalized chain that has not been dropped: the first one, or one
      of the last `n`. */
  ghost predicate Available(n: Capacity, c: Chain, hash: Hash) {
    || hash == HashOf(c.initial)
    || exists i :: Oldest(n, |Log(c.accepted)|) <= i < |Log(c.accepted)| && hash == HashOf(Log(c.accepted)[i])
  }

  /** Everything a receipt claims about an event of `header`, included by the block `hash`. */
  ghost predicate Confirmed(env: Env, header: Header, hash: Hash, proof: StorageProof, payload: Bytes,
                            source: Option<ExecutionSource>, receipt: Receipt)
  {
    && EventIn(env, header, proof, payload)
    && (source.Some? ==> Emits(source.value, payload))
    && receipt.includingHeader == hash
    && receipt.message == payload
    && env.localNumber(header.number) == Some(receipt.height)
  }

  /** The same for the head that `relayHeader` records for a parachain. */
  ghost predicate ConfirmedHead(env: Env, relayHeader: Header, id: U32, proof: ParachainProof,
                                source: Option<ExecutionSource>, receipt: Receipt)
  {
    var head := HeadIn(env, relayHeader, proof.headerProof, id);
    head.Some? && Confirmed(env, head.value, proof.relayBlockHash, proof.payloadProof, proof.payload, source, receipt)
  }

  /** Proven under a header that is available, of the relay chain or of a registered parachain. */
  ghost predicate Proven(env: Env, l: Ledger, gateway: ChainId, encoded: Bytes, source: Option<ExecutionSource>,
                         receipt: Receipt)
  {
    && l.chain.Some?
    && if gateway == l.chain.value.relay then
         && env.decodeRelayProof(encoded).Some?
         && var proof := env.decodeRelayProof(encoded).value;
         && Available(env.headersToStore, l.chain.value, proof.blockHash) && proof.blockHash.HashOf?
         && Confirmed(env, proof.blockHash.header, proof.blockHash, proof.payloadProof, proof.payload, source, receipt)
       else
         && gateway in l.parachains
         && env.decodeParachainProof(encoded).Some?
         && var proof := env.decodeParachainProof(encoded).value;
         && Available(env.headersToStore, l.chain.value, proof.relayBlockHash) && proof.relayBlockHash.HashOf?
         && ConfirmedHead(env, proof.relayBlockHash.header, l.parachains[gateway].id, proof, source, receipt)
  }

  /** Why an event of `header` is not confirmed: the first of these that applies. */
  ghost predicate FailsWith(env: Env, header: Header, proof: StorageProof, payload: Bytes,
                            source: Option<ExecutionSource>, error: Error)
  {
    var events := env.readTrie(proof, header.stateRoot, SYSTEM_EVENTS_KEY);
    if events.None? then error == InvalidStorageProof
    else if !Occurs(events.value, payload) then error == EventNotIncluded
    else if source.Some? && !Emits(source.value, payload) then
      && error in {UnexpectedEventLength, UnexpectedSource}
      && (error == UnexpectedEventLength <==>
          |payload| < if forall i :: 0 <= i < 12 ==> source.value[i] == 0 then 22 else 34)
    else error == BlockNumberDecoding
  }

  /** The same for a parachain block: the relay block's record of it comes first. */
  ghost predicate ParachainFailsWith(env: Env, relayHeader: Header, id: U32, proof: ParachainProof,
                                     source: Option<ExecutionSource>, error: Error)
  {
    var key := PARAS_HEADS_PREFIX + env.parachainKey(id);
    var head := HeadIn(env, relayHeader, proof.headerProof, id);
    if env.readTrie(proof.headerProof, relayHeader.stateRoot, key).None? then error == InvalidStorageProof
    else if head.None? then error == HeaderDecoding
    else FailsWith(env, head.value, proof.payloadProof, proof.payload, source, error)
  }

  /** What is retained is what is available. */
  lemma RetainedIsAvailable(n: Capacity, c: Chain, hash: Hash)
    ensures hash in Retained(n, c.initial, Log(c.accepted)) <==> Available(n, c, hash)
  {
  }
}
