/** The pallet itself: storage items updated in place, one at a time, in the order the source
    updates them. Every method is proved to have the effect `GrandpaLedger.Step` gives its call. */
module GrandpaPallet {
  import opened Basics
  import opened GrandpaTypes
  import opened GrandpaChain
  import opened GrandpaLedger
  import opened GrandpaInclusion

  /** The two maps hold what they should for the list `log`. */
  ghost predicate Holds(n: Capacity, hashes: map<nat, Hash>, headers: map<Hash, Header>,
                        initial: Header, log: seq<Header>)
  {
    && hashes == Ring(n, log)
    && headers == Retained(n, initial, log)
  }

  /** The two maps, the best hash and the index after `done` was imported on top of `c`. */
  ghost predicate Stored(n: Capacity, hashes: map<nat, Hash>, headers: map<Hash, Header>, c: Chain,
                         done: seq<Header>, best: Hash, index: nat)
  {
    var tip := Tip(HashOf(c.initial), Log(c.accepted));
    && best == Tip(tip, done)
    && Linked(tip, done)
    && Holds(n, hashes, headers, c.initial, Log(c.accepted) + done)
    && index == (|Log(c.accepted)| + |done|) % n
  }

  class Pallet {
    const env: Env

    var initialHash: Option<Hash>
    var bestFinalizedHash: Option<Hash>
    var importedHashes: map<nat, Hash>
    var submissionsCounter: U32
    var importedHashesPointer: Option<nat>
    var importedHeaders: map<Hash, Header>
    var relayChainId: Option<ChainId>
    var currentAuthoritySet: Option<AuthoritySet>
    var parachainIdMap: map<ChainId, ParachainRegistration>
    var palletOwner: Option<AccountId>
    var isHalted: bool
    var everInitialized: bool

    /** The simple state the storage items stand for. */
    ghost var ledger: Ledger

    function Snapshot(): Storage
      reads this
    {
      Storage(initialHash, bestFinalizedHash, importedHashes, submissionsCounter, importedHashesPointer,
              importedHeaders, relayChainId, currentAuthoritySet, parachainIdMap, palletOwner, isHalted,
              everInitialized)
    }

    ghost predicate Valid()
      reads this
    {
      WellFormed(env, ledger) && Snapshot() == Concrete(env.headersToStore, ledger)
    }

    /** The storage items of a chain are those of a fresh pallet. */
    ghost predicate Unregistered()
      reads this
    {
      Snapshot() == Concrete(env.headersToStore,
                             FRESH.(parachains := parachainIdMap, owner := palletOwner, halted := isHalted,
                                    counter := submissionsCounter))
    }

    /** The storage items every submission moves hold what they should for `c`. */
    ghost predicate Imported(c: Chain)
      reads this
    {
      && bestFinalizedHash == Some(Tip(HashOf(c.initial), Log(c.accepted)))
      && Holds(env.headersToStore, importedHashes, importedHeaders, c.initial, Log(c.accepted))
      && importedHashesPointer == Some(|Log(c.accepted)| % env.headersToStore)
      && currentAuthoritySet == Some(SetInForce(c.genesis, c.accepted))
    }

    constructor (env: Env)
      ensures Valid() && this.env == env && ledger == FRESH
    {
      this.env := env;
      initialHash, bestFinalizedHash := None, None;
      importedHashes, importedHashesPointer, importedHeaders := map[], None, map[];
      submissionsCounter := 0;
      relayChainId, currentAuthoritySet, parachainIdMap := None, None, map[];
      palletOwner, isHalted, everInitialized := None, false, false;
      ledger := FRESH;
    }

    /** Rolls the storage back to a saved value. */
    method Restore(saved: Storage)
      modifies this
      ensures Snapshot() == saved && ledger == old(ledger)
    {
      initialHash, bestFinalizedHash := saved.initialHash, saved.bestFinalizedHash;
      importedHashes, submissionsCounter := saved.importedHashes, saved.submissionsCounter;
      importedHashesPointer, importedHeaders := saved.importedHashesPointer, saved.importedHeaders;
      relayChainId, currentAuthoritySet := saved.relayChainId, saved.currentAuthoritySet;
      parachainIdMap, palletOwner := saved.parachainIdMap, saved.palletOwner;
      isHalted, everInitialized := saved.isHalted, saved.everInitialized;
    }

    // ---- Importing headers --------------------------------------------------------------

    /** The part of `Valid` that importing depends on. */
    ghost predicate Ready()
      reads this
    {
      match ledger.chain
      case None => bestFinalizedHash == None
      case Some(c) => Imported(c) && Linked(HashOf(c.initial), Log(c.accepted))
    }

    /** Takes one header in. If the maps agreed with a list that `header` extends, they agree with
        the extended list afterwards, and the index moves to its next slot. */
    method WriteAndCleanHeaderData(bufferIndex: U32, header: Header, hash: Hash, isSignedHeader: bool,
                                   ghost initial: Header, ghost log: seq<Header>)
      returns (next: U32)
      requires bufferIndex < env.headersToStore && hash == HashOf(header)
      modifies this`importedHeaders, this`importedHashes, this`bestFinalizedHash
      ensures bestFinalizedHash == if isSignedHeader then Some(hash) else old(bestFinalizedHash)
      ensures next < env.headersToStore
      ensures && old(Holds(env.headersToStore, importedHashes, importedHeaders, initial, log))
              && bufferIndex == |log| % env.headersToStore
              && Linked(HashOf(initial), log + [header])
              ==> && Holds(env.headersToStore, importedHashes, importedHeaders, initial, log + [header])
                  && next == (|log| + 1) % env.headersToStore
    {
      if bufferIndex in importedHashes {
        importedHeaders := importedHeaders - {importedHashes[bufferIndex]};
      }
      importedHeaders := importedHeaders[hash := header];
      importedHashes := importedHashes[bufferIndex := hash];
      if isSignedHeader {
        bestFinalizedHash := Some(hash);
      }
      next := (bufferIndex + 1) % env.headersToStore;

      RingAfterAppend(env.headersToStore, log, header);
      ModSucc(|log|, env.headersToStore);
      if Linked(HashOf(initial), log + [header]) {
        RetainedAfterAppend(env.headersToStore, initial, log, header);
      }
    }

    method TryEnactAuthorityChangeSingle(header: Header, currentSetId: SetId) returns (r: Result<bool, Error>)
      modifies this`currentAuthoritySet
      ensures r.Ok? <==> SupportedDigest(header)
      ensures r.Err? ==> r.error == UnsupportedScheduledChange
      ensures var change := FindScheduledChange(header.digest);
              r.Ok? ==>
                && r.value == change.Some?
                && currentAuthoritySet ==
                   if change.Some?
                   then Some(AuthoritySet(change.value.nextAuthorities, NextSetId(currentSetId)))
                   else old(currentAuthoritySet)
    {
      if FindForcedChange(header.digest).Some? {
        return Err(UnsupportedScheduledChange);
      }
      var enacted := false;
      var change := FindScheduledChange(header.digest);
      if change.Some? {
        if change.value.delay != 0 {
          return Err(UnsupportedScheduledChange);
        }
        currentAuthoritySet :=
          Some(AuthoritySet(change.value.nextAuthorities, NextSetId(currentSetId)));
        enacted := true;
      }
      return Ok(enacted);
    }

    method VerifyJustificationSingle(justification: Justification, hash: Hash, number: nat, voters: AuthoritySet)
      returns (r: Option<Error>)
      ensures r.None? <==> && env.validVoters(voters.authorities)
                           && env.verify(justification, hash, number, voters.setId, voters.authorities)
      ensures r.Some? ==> (r.value == InvalidAuthoritySet <==> !env.validVoters(voters.authorities))
      ensures r.Some? ==> r.value in {InvalidAuthoritySet, InvalidGrandpaJustification}
    {
      if !env.validVoters(voters.authorities) {
        return Some(InvalidAuthoritySet);
      }
      if !env.verify(justification, hash, number, voters.setId, voters.authorities) {
        return Some(InvalidGrandpaJustification);
      }
      return None;
    }

    /** `log` followed by `more` and then `header` is still linked. */
    lemma ExtendsChain(c: Chain, more: seq<Header>, header: Header)
      requires Linked(HashOf(c.initial), Log(c.accepted))
      requires Linked(Tip(HashOf(c.initial), Log(c.accepted)), more)
      requires header.parentHash == Tip(Tip(HashOf(c.initial), Log(c.accepted)), more)
      ensures Linked(Tip(HashOf(c.initial), Log(c.accepted)), more + [header])
      ensures Linked(HashOf(c.initial), Log(c.accepted) + more + [header])
      ensures Log(c.accepted) + more + [header] == Log(c.accepted) + (more + [header])
    {
      var log := Log(c.accepted);
      LinkedAppend(Tip(HashOf(c.initial), log), more, [header]);
      LinkedAppend(HashOf(c.initial), log, more + [header]);
      assert log + more + [header] == log + (more + [header]);
    }

    method StoreNext(header: Header, bufferIndex: U32, ghost c: Chain, ghost done: seq<Header>) returns (next: U32)
      requires Linked(HashOf(c.initial), Log(c.accepted))
      requires Stored(env.headersToStore, importedHashes, importedHeaders, c, done, header.parentHash, bufferIndex)
      modifies this`importedHeaders, this`importedHashes, this`bestFinalizedHash
      ensures Stored(env.headersToStore, importedHashes, importedHeaders, c, done + [header], HashOf(header), next)
    {
      ExtendsChain(c, done, header);
      next := WriteAndCleanHeaderData(bufferIndex, header, HashOf(header), false, c.initial, Log(c.accepted) + done);
    }

    /** The loop over the range: imports headers as long as each names its predecessor. */
    method StoreRange(range: seq<Header>, start: U32, ghost c: Chain)
      returns (linked: bool, best: Hash, bufferIndex: U32)
      requires bestFinalizedHash == Some(Tip(HashOf(c.initial), Log(c.accepted)))
      requires Linked(HashOf(c.initial), Log(c.accepted))
      requires Holds(env.headersToStore, importedHashes, importedHeaders, c.initial, Log(c.accepted))
      requires start == |Log(c.accepted)| % env.headersToStore
      modifies this`importedHeaders, this`importedHashes, this`bestFinalizedHash
      ensures linked <==> Linked(Tip(HashOf(c.initial), Log(c.accepted)), range)
      ensures linked ==>
                Stored(env.headersToStore, importedHashes, importedHeaders, c, range, best, bufferIndex)
    {
      best, bufferIndex := bestFinalizedHash.value, start;
      ghost var tip := best;
      AppendNothing(Log(c.accepted));
      for k := 0 to |range|
        invariant Stored(env.headersToStore, importedHashes, importedHeaders, c, range[..k], best, bufferIndex)
      {
        var header := range[k];
        TakeSnoc(range, k);
        assert LinkAt(tip, range, k) <==> best == header.parentHash;
        if best == header.parentHash {
          bufferIndex := StoreNext(header, bufferIndex, c, range[..k]);
          best := HashOf(header);
        } else {
          return false, best, bufferIndex;
        }
      }
      assert range[..|range|] == range;
      return true, best, bufferIndex;
    }

    /** Imports the signed header, makes it the best one and moves the pointer. */
    method StoreSigned(signed: Header, index: U32, ghost initial: Header, ghost log: seq<Header>)
      requires index == |log| % env.headersToStore && Linked(HashOf(initial), log + [signed])
      requires Holds(env.headersToStore, importedHashes, importedHeaders, initial, log)
      modifies this`importedHeaders, this`importedHashes, this`bestFinalizedHash, this`importedHashesPointer
      ensures Holds(env.headersToStore, importedHashes, importedHeaders, initial, log + [signed])
      ensures bestFinalizedHash == Some(HashOf(signed))
      ensures importedHashesPointer == Some(|log + [signed]| % env.headersToStore)
    {
      var next := WriteAndCleanHeaderData(index, signed, HashOf(signed), true, initial, log);
      importedHashesPointer := Some(next);
    }

    /** The checks that come first: a finalized header and an authority set exist, the set vouches for
        the signed header, and its digest is supported. The set it schedules is enacted at once. */
    method VerifyAndEnact(sub: Submission) returns (r: Option<Error>)
      requires Ready()
      modifies this`currentAuthoritySet
      ensures r.None? ==>
                && ledger.chain.Some?
                && var c := ledger.chain.value;
                && Justified(env, SetInForce(c.genesis, c.accepted), sub)
                && SupportedDigest(sub.signed)
                && currentAuthoritySet == Some(SetInForce(c.genesis, c.accepted + [sub]))
      ensures r.Some? ==> r == Submit(env, ledger, sub).1
    {
      if bestFinalizedHash.None? {
        return Some(NoFinalizedHeader);
      }
      if currentAuthoritySet.None? {
        return Some(InvalidAuthoritySet);
      }
      var voters := currentAuthoritySet.value;
      r := VerifyJustificationSingle(sub.justification, HashOf(sub.signed), sub.signed.number, voters);
      if r.Some? {
        return;
      }
      var enacted := TryEnactAuthorityChangeSingle(sub.signed, voters.setId);
      if enacted.Err? {
        return Some(enacted.error);
      }
      SetInForceSnoc(ledger.chain.value.genesis, ledger.chain.value.accepted, sub);
      return None;
    }

    /** The linkage checks with the writes between them. */
    method StoreLinked(sub: Submission, start: U32, ghost c: Chain) returns (r: Option<Error>)
      requires bestFinalizedHash == Some(Tip(HashOf(c.initial), Log(c.accepted)))
      requires Linked(HashOf(c.initial), Log(c.accepted))
      requires Holds(env.headersToStore, importedHashes, importedHeaders, c.initial, Log(c.accepted))
      requires start == |Log(c.accepted)| % env.headersToStore
      modifies this`bestFinalizedHash, this`importedHashes, this`importedHashesPointer, this`importedHeaders
      ensures var tip := Tip(HashOf(c.initial), Log(c.accepted));
              r == if !Linked(tip, sub.range) then Some(InvalidRangeLinkage)
                   else if sub.signed.parentHash != Tip(tip, sub.range) then Some(InvalidJustificationLinkage)
                   else None
      ensures var log := Log(c.accepted + [sub]);
              r.None? ==>
                && bestFinalizedHash == Some(Tip(HashOf(c.initial), log))
                && Holds(env.headersToStore, importedHashes, importedHeaders, c.initial, log)
                && importedHashesPointer == Some(|log| % env.headersToStore)
    {
      var linked, best, bufferIndex := StoreRange(sub.range, start, c);
      if !linked {
        return Some(InvalidRangeLinkage);
      }
      if best != sub.signed.parentHash {
        return Some(InvalidJustificationLinkage);
      }
      ExtendsChain(c, sub.range, sub.signed);
      LogSnoc(c.accepted, sub);
      StoreSigned(sub.signed, bufferIndex, c.initial, Log(c.accepted) + sub.range);
      return None;
    }

    /** The body of `verify_and_store_headers`, without the rollback: on an error the storage is
        whatever the writes so far left, the authority set included. */
    method StoreHeaders(sub: Submission) returns (r: Option<Error>)
      requires Ready()
      modifies this`bestFinalizedHash, this`importedHashes, this`importedHashesPointer, this`importedHeaders,
               this`currentAuthoritySet
      ensures r == Submit(env, ledger, sub).1
      ensures r.None? ==> Imported(ledger.chain.value.(accepted := ledger.chain.value.accepted + [sub]))
    {
      r := VerifyAndEnact(sub);
      if r.Some? {
        return;
      }
      var bufferIndex := if importedHashesPointer.None? then 0 else importedHashesPointer.value;
      r := StoreLinked(sub, bufferIndex, ledger.chain.value);
    }

    /** The storage items no import touches are those of the simple state. */
    ghost predicate Untouched()
      reads this
    {
      var s := Concrete(env.headersToStore, ledger);
      && initialHash == s.initialHash && relayChainId == s.relayChainId && everInitialized == s.everInitialized
      && submissionsCounter == s.submissionsCounter && parachainIdMap == s.parachainIdMap
      && palletOwner == s.palletOwner && isHalted == s.isHalted
    }

    ghost method Record(sub: Submission)
      requires WellFormed(env, ledger) && Submit(env, ledger, sub).1.None? && Untouched()
      requires Imported(ledger.chain.value.(accepted := ledger.chain.value.accepted + [sub]))
      modifies this`ledger
      ensures Valid() && ledger == Submit(env, old(ledger), sub).0
    {
      AcceptKeepsChain(env, ledger.chain.value, sub);
      ledger := Submit(env, ledger, sub).0;
    }

    /** `verify_and_store_headers` under `#[transactional]`: all of it or nothing. */
    method VerifyAndStoreHeaders(sub: Submission) returns (r: Option<Error>)
      requires Valid()
      modifies this
      ensures Valid()
      ensures (ledger, r) == Submit(env, old(ledger), sub)
      ensures r.Some? ==> Snapshot() == old(Snapshot())
    {
      var saved := Snapshot();
      r := StoreHeaders(sub);
      if r.Some? {
        Restore(saved);
      } else {
        Record(sub);
      }
    }

    method CountSubmission()
      requires Valid()
      modifies this`submissionsCounter, this`ledger
      ensures Valid() && ledger == old(ledger).(counter := SaturatingSucc(old(ledger.counter)))
    {
      submissionsCounter := SaturatingSucc(submissionsCounter);
      ledger := ledger.(counter := submissionsCounter);
    }

    /** The extrinsic `submit_headers`. The halt flag is not consulted. The fee is waived, and the
        counter moved, exactly when the pointer ends up elsewhere. */
    method SubmitHeaders(origin: Origin, sub: Submission) returns (out: Outcome)
      requires Valid()
      modifies this
      ensures Valid() && (ledger, out) == HeadersSubmitted(env, old(ledger), origin, sub)
      ensures out.Failed? ==> Snapshot() == old(Snapshot())
    {
      if !origin.SignedBy? {
        return Failed(BadOrigin);
      }
      var pointerPrior := if importedHashesPointer.None? then 0 else importedHashesPointer.value;
      var rejection := VerifyAndStoreHeaders(sub);
      if rejection.Some? {
        return Failed(rejection.value);
      }
      var pointerPost := if importedHashesPointer.None? then 0 else importedHashesPointer.value;
      PointerReturns(env.headersToStore, old(ledger.chain.value.accepted), sub);
      if pointerPrior != pointerPost {
        CountSubmission();
        return Accepted(false);
      } else {
        return Accepted(true);
      }
    }

    method SubmitEncodedHeaders(encoded: Bytes) returns (out: Outcome)
      requires Valid()
      modifies this
      ensures Valid() && (ledger, out) == EncodedHeadersSubmitted(env, old(ledger), encoded)
      ensures out.Failed? ==> Snapshot() == old(Snapshot())
    {
      if isHalted {
        return Failed(Halted);
      }
      var data := env.decodeSubmission(encoded);
      if data.None? {
        return Failed(HeaderDataDecoding);
      }
      var rejection := VerifyAndStoreHeaders(data.value);
      return if rejection.Some? then Failed(rejection.value) else Done;
    }

    /** The best header the pallet knows of: never the dummy once a chain is registered. */
    method BestFinalizedMap() returns (header: Header)
      requires Valid()
      ensures ledger.chain.Some? ==>
                HashOf(header) == Tip(HashOf(ledger.chain.value.initial), Log(ledger.chain.value.accepted))
      ensures ledger.chain.None? ==> header == DUMMY_HEADER
    {
      var hash := if bestFinalizedHash.None? then DEFAULT_HASH else bestFinalizedHash.value;
      if ledger.chain.Some? {
        RingRefinesLog(env.headersToStore, ledger.chain.value.initial, Log(ledger.chain.value.accepted));
      }
      header := if hash in importedHeaders then importedHeaders[hash] else DUMMY_HEADER;
    }

    // ---- Registration and administration ------------------------------------------------

    method EnsureOwnerOrRoot(origin: Origin) returns (ok: bool)
      ensures ok <==> Authorised(palletOwner, origin)
    {
      match origin {
        case Root => return true;
        case SignedBy(account) => return palletOwner.Some? && palletOwner.value == account;
        case Unsigned => return false;
      }
    }

    method StoreFirstHeader(header: Header, genesis: AuthoritySet, gateway: ChainId)
      requires Unregistered()
      modifies this`initialHash, this`bestFinalizedHash, this`importedHeaders, this`importedHashesPointer,
               this`relayChainId, this`currentAuthoritySet
      ensures initialHash == Some(HashOf(header)) && relayChainId == Some(gateway)
      ensures Imported(Chain(gateway, header, genesis, []))
    {
      var hash := HashOf(header);
      initialHash := Some(hash);
      bestFinalizedHash := Some(hash);
      importedHeaders := importedHeaders[hash := header];
      importedHashesPointer := Some(0);
      relayChainId := Some(gateway);
      currentAuthoritySet := Some(genesis);
      assert Retained(env.headersToStore, header, []) == map[hash := header];
      assert Ring(env.headersToStore, []) == map[];
    }

    /** Starts the client on a relay chain; refused once there is a finalized header. */
    method InitializeRelayChain(header: Header, genesis: AuthoritySet, halted: bool, gateway: ChainId, owner: AccountId)
      returns (r: Option<Error>)
      requires Valid()
      modifies this
      ensures Valid()
      ensures old(ledger.chain.Some?) ==>
                r == Some(RelayChainAlreadyInitialized) && ledger == old(ledger)
      ensures old(ledger.chain.None?) ==>
                r == None && ledger == old(ledger).(chain := Some(Chain(gateway, header, genesis, [])),
                                                    owner := Some(owner), halted := halted)
    {
      if bestFinalizedHash.Some? {
        return Some(RelayChainAlreadyInitialized);
      }
      StoreFirstHeader(header, genesis, gateway);
      isHalted, everInitialized, palletOwner := halted, true, Some(owner);
      ledger := ledger.(chain := Some(Chain(gateway, header, genesis, [])), owner := Some(owner), halted := halted);
      return None;
    }

    method InitializeParachain(relay: ChainId, gateway: ChainId, registration: Bytes) returns (out: Outcome)
      requires Valid() && ledger.chain.Some? && relay == ledger.chain.value.relay
      modifies this`parachainIdMap, this`ledger
      ensures Valid() && (ledger, out) == RegisterParachain(env, old(ledger), gateway, registration)
      ensures out.Failed? ==> Snapshot() == old(Snapshot())
    {
      if relay == gateway {
        return Failed(ChainIdAlreadyInitialized);
      }
      var entry := env.decodeParachain(registration);
      if entry.None? {
        return Failed(ParachainDecoding);
      }
      if entry.value.relay != relay {
        return Failed(InvalidRelayChainId);
      }
      parachainIdMap := parachainIdMap[gateway := entry.value];
      ledger := ledger.(parachains := parachainIdMap);
      return Done;
    }

    /** Registers the relay chain, or a parachain once there is one. The refusal inside
        `initialize_relay_chain` cannot be reached from here. */
    method Initialize(origin: Origin, gateway: ChainId, registration: Bytes) returns (out: Outcome)
      requires Valid()
      modifies this
      ensures Valid() && (ledger, out) == Initialized(env, old(ledger), origin, gateway, registration)
      ensures out.Failed? ==> Snapshot() == old(Snapshot())
      ensures out != Failed(RelayChainAlreadyInitialized)
    {
      var ok := EnsureOwnerOrRoot(origin);
      if !ok {
        return Failed(BadOrigin);
      }
      if relayChainId.Some? {
        out := InitializeParachain(relayChainId.value, gateway, registration);
      } else {
        var data := env.decodeRelay(registration);
        if data.None? {
          return Failed(RelayDecoding);
        }
        var header := env.decodeHeader(data.value.firstHeader);
        if header.None? {
          return Failed(FirstHeaderDecoding);
        }
        var genesis := AuthoritySet(InitialAuthorities(data.value.authorities), data.value.setId);
        var refusal := InitializeRelayChain(header.value, genesis, false, gateway, data.value.owner);
        assert refusal == None;
        return Done;
      }
    }

    method SetOwner(origin: Origin, encodedOwner: Bytes) returns (out: Outcome)
      requires Valid()
      modifies this
      ensures Valid() && (ledger, out) == OwnerSet(env, old(ledger), origin, encodedOwner)
      ensures out.Failed? ==> Snapshot() == old(Snapshot())
    {
      var ok := EnsureOwnerOrRoot(origin);
      if !ok {
        return Failed(BadOrigin);
      }
      var owner := env.decodeOwner(encodedOwner);
      if owner.None? {
        return Failed(OwnerDecoding);
      }
      palletOwner := owner.value;
      ledger := ledger.(owner := owner.value);
      return Done;
    }

    method SetOperational(origin: Origin, operational: bool) returns (out: Outcome)
      requires Valid()
      modifies this
      ensures Valid() && (ledger, out) == OperationalSet(old(ledger), origin, operational)
      ensures out.Failed? ==> Snapshot() == old(Snapshot())
    {
      var ok := EnsureOwnerOrRoot(origin);
      if !ok {
        return Failed(BadOrigin);
      }
      isHalted := !operational;
      ledger := ledger.(halted := !operational);
      return Done;
    }

    method KillChain()
      modifies this`everInitialized, this`bestFinalizedHash, this`importedHashes, this`importedHeaders,
               this`initialHash, this`importedHashesPointer, this`relayChainId, this`currentAuthoritySet
      ensures Unregistered()
    {
      everInitialized := false;
      bestFinalizedHash := None;
      importedHashes := map[];
      importedHeaders := map[];
      initialHash := None;
      importedHashesPointer := None;
      relayChainId := None;
      currentAuthoritySet := None;
    }

    method Reset(origin: Origin) returns (out: Outcome)
      requires Valid()
      modifies this
      ensures Valid() && (ledger, out) == ResetDone(old(ledger), origin)
      ensures out.Failed? ==> Snapshot() == old(Snapshot())
    {
      if !origin.Root? {
        return Failed(BadOrigin);
      }
      KillChain();
      parachainIdMap := map[];
      isHalted := false;
      palletOwner := None;
      ledger := FRESH.(counter := ledger.counter);
      return Done;
    }

    // ---- Whole runs ---------------------------------------------------------------------

    method Dispatch(call: Call) returns (out: Outcome)
      requires Valid()
      modifies this
      ensures Valid() && (ledger, out) == Step(env, old(ledger), call)
    {
      match call {
        case Initialize(origin, gateway, registration) => out := Initialize(origin, gateway, registration);
        case SubmitHeaders(origin, sub) => out := SubmitHeaders(origin, sub);
        case SubmitEncodedHeaders(encoded) => out := SubmitEncodedHeaders(encoded);
        case SetOwner(origin, encodedOwner) => out := SetOwner(origin, encodedOwner);
        case SetOperational(origin, operational) => out := SetOperational(origin, operational);
        case Reset(origin) => out := Reset(origin);
      }
    }

    /** Any sequence of calls leaves the storage `Concrete` of what the simple machine reaches. */
    method Execute(calls: seq<Call>)
      requires Valid()
      modifies this
      ensures Valid() && ledger == Run(env, old(ledger), calls)
      ensures Snapshot() == Concrete(env.headersToStore, Run(env, old(ledger), calls))
    {
      for k := 0 to |calls|
        invariant Valid() && ledger == Run(env, old(ledger), calls[..k])
      {
        assert calls[..k + 1][..k] == calls[..k];
        var _ := Dispatch(calls[k]);
      }
      assert calls[..|calls|] == calls;
    }

    // ---- Inclusion proofs ---------------------------------------------------------------

    method VerifyEventStorageProof(proof: StorageProof, header: Header, payload: Bytes)
      returns (r: Result<Bytes, Error>)
      ensures r.Ok? <==> EventIn(env, header, proof, payload)
      ensures r.Ok? ==> r.value == payload
      ensures r.Err? ==>
                r.error == if env.readTrie(proof, header.stateRoot, SYSTEM_EVENTS_KEY).None? then InvalidStorageProof
                           else EventNotIncluded
    {
      var events := env.readTrie(proof, header.stateRoot, SYSTEM_EVENTS_KEY);
      if events.None? {
        return Err(InvalidStorageProof);
      }
      var found := IsSub(events.value, payload);
      if !found {
        return Err(EventNotIncluded);
      }
      return Ok(payload);
    }

    method VerifyHeaderStorageProof(relayBlockHash: Hash, proof: StorageProof, parachain: ParachainRegistration)
      returns (r: Result<Header, Error>)
      ensures relayBlockHash !in importedHeaders ==> r == Err(UnknownHeader)
      ensures relayBlockHash in importedHeaders ==>
                var head := HeadIn(env, importedHeaders[relayBlockHash], proof, parachain.id);
                var key := PARAS_HEADS_PREFIX + env.parachainKey(parachain.id);
                r == if head.Some? then Ok(head.value)
                     else if env.readTrie(proof, importedHeaders[relayBlockHash].stateRoot, key).None?
                     then Err(InvalidStorageProof)
                     else Err(HeaderDecoding)
    {
      if relayBlockHash !in importedHeaders {
        return Err(UnknownHeader);
      }
      var key := PARAS_HEADS_PREFIX + env.parachainKey(parachain.id);
      var stored := env.readTrie(proof, importedHeaders[relayBlockHash].stateRoot, key);
      if stored.None? {
        return Err(InvalidStorageProof);
      }
      var encoded := env.decodeBytes(stored.value);
      if encoded.None? {
        return Err(HeaderDecoding);
      }
      var header := env.decodeHeader(encoded.value);
      if header.None? {
        return Err(HeaderDecoding);
      }
      return Ok(header.value);
    }

    /** The last checks, shared by relay chain and parachains: the event, its source, the height. */
    method ConfirmEvent(proof: StorageProof, header: Header, hash: Hash, payload: Bytes,
                        source: Option<ExecutionSource>)
      returns (r: Result<Receipt, Error>)
      ensures forall receipt ::
                r == Ok(receipt) <==> Confirmed(env, header, hash, proof, payload, source, receipt)
      ensures r.Err? ==> FailsWith(env, header, proof, payload, source, r.error)
    {
      var message := VerifyEventStorageProof(proof, header, payload);
      if message.Err? {
        return Err(message.error);
      }
      if source.Some? {
        var origin := CheckVmSource(source.value, message.value);
        if origin.Err? {
          return Err(origin.error);
        }
      }
      var height := env.localNumber(header.number);
      if height.None? {
        return Err(BlockNumberDecoding);
      }
      return Ok(Receipt(height.value, hash, message.value));
    }

    method ConfirmOnRelay(proof: RelayProof, source: Option<ExecutionSource>) returns (r: Result<Receipt, Error>)
      ensures if proof.blockHash !in importedHeaders then r == Err(UnknownHeader)
              else
                var header := importedHeaders[proof.blockHash];
                && (forall receipt ::
                      r == Ok(receipt) <==> Confirmed(env, header, proof.blockHash, proof.payloadProof, proof.payload,
                                                      source, receipt))
                && (r.Err? ==> FailsWith(env, header, proof.payloadProof, proof.payload, source, r.error))
    {
      if proof.blockHash !in importedHeaders {
        return Err(UnknownHeader);
      }
      var header := importedHeaders[proof.blockHash];
      r := ConfirmEvent(proof.payloadProof, header, proof.blockHash, proof.payload, source);
    }

    method ConfirmOnParachain(entry: ParachainRegistration, proof: ParachainProof, source: Option<ExecutionSource>)
      returns (r: Result<Receipt, Error>)
      ensures if proof.relayBlockHash !in importedHeaders then r == Err(UnknownHeader)
              else
                var relayHeader := importedHeaders[proof.relayBlockHash];
                && (forall receipt ::
                      r == Ok(receipt) <==> ConfirmedHead(env, relayHeader, entry.id, proof, source, receipt))
                && (r.Err? ==> ParachainFailsWith(env, relayHeader, entry.id, proof, source, r.error))
    {
      var header := VerifyHeaderStorageProof(proof.relayBlockHash, proof.headerProof, entry);
      if header.Err? {
        return Err(header.error);
      }
      r := ConfirmEvent(proof.payloadProof, header.value, proof.relayBlockHash, proof.payload, source);
    }

    /** A receipt is handed out exactly for what is proven under a header of the finalized chain
        that is still available; otherwise the first thing wrong is answered. */
    method ConfirmEventInclusion(gateway: ChainId, encoded: Bytes, source: Option<ExecutionSource>)
      returns (r: Result<Receipt, Error>)
      requires Valid()
      ensures forall receipt :: r == Ok(receipt) <==> Proven(env, ledger, gateway, encoded, source, receipt)
      ensures var relay, main, para :=
                relayChainId == Some(gateway), env.decodeRelayProof(encoded), env.decodeParachainProof(encoded);
              if (if relay then main.None? else para.None?) then r == Err(HeaderDataDecoding)
              else if !relay && gateway !in parachainIdMap then r == Err(ParachainEntryNotFound)
              else
                var hash := if relay then main.value.blockHash else para.value.relayBlockHash;
                if hash !in importedHeaders then r == Err(UnknownHeader)
                else if r.Ok? then true
                else if relay then
                  FailsWith(env, importedHeaders[hash], main.value.payloadProof, main.value.payload, source, r.error)
                else
                  ParachainFailsWith(env, importedHeaders[hash], parachainIdMap[gateway].id, para.value, source,
                                     r.error)
    {
      if ledger.chain.Some? {
        forall h ensures h in importedHeaders <==> Available(env.headersToStore, ledger.chain.value, h) {
          RetainedIsAvailable(env.headersToStore, ledger.chain.value, h);
        }
      }
      if relayChainId == Some(gateway) {
        var proof := env.decodeRelayProof(encoded);
        if proof.None? {
          return Err(HeaderDataDecoding);
        }
        r := ConfirmOnRelay(proof.value, source);
      } else {
        var proof := env.decodeParachainProof(encoded);
        if proof.None? {
          return Err(HeaderDataDecoding);
        }
        if gateway !in parachainIdMap {
          return Err(ParachainEntryNotFound);
        }
        r := ConfirmOnParachain(parachainIdMap[gateway], proof.value, source);
      }
    }
  }
}
