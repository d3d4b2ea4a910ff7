/** What holds over every sequence of calls, said of the storage itself. `GrandpaPallet.Execute`
    shows that `Concrete(n, Run(env, FRESH, calls))` is what the pallet stores after `calls`. */
module GrandpaRuns {
  import opened Basics
  import opened GrandpaTypes
  import opened GrandpaChain
  import opened GrandpaLedger
  import opened GrandpaInclusion

  ghost function StorageAfter(env: Env, calls: seq<Call>): Storage {
    Concrete(env.headersToStore, Run(env, FRESH, calls))
  }

  lemma {:induction false} Reachable(env: Env, calls: seq<Call>)
    ensures WellFormed(env, Run(env, FRESH, calls))
  {
    RunKeepsWellFormed(env, FRESH, calls);
  }

  /** With a chain registered, the imported headers form one unbroken chain from the initial hash to
      the best one; the ring, the header map and the pointer are exactly those of that chain. */
  lemma {:induction false} StoreFollowsChain(env: Env, calls: seq<Call>)
    requires Run(env, FRESH, calls).chain.Some?
    ensures var c, n, s := Run(env, FRESH, calls).chain.value, env.headersToStore, StorageAfter(env, calls);
            var log := Log(c.accepted);
            && s.initialHash == Some(HashOf(c.initial))
            && Linked(HashOf(c.initial), log)
            && s.bestFinalizedHash == Some(Tip(HashOf(c.initial), log))
            && s.bestFinalizedHash.value in s.importedHeaders
            && s.importedHashesPointer == Some(|log| % n)
            && (forall i :: Oldest(n, |log|) <= i < |log| ==>
                  i % n in s.importedHashes && s.importedHashes[i % n] == HashOf(log[i]))
            && (forall slot :: slot in s.importedHashes <==> 0 <= slot < Min(n, |log|))
            && s.importedHeaders.Keys == s.importedHashes.Values + {HashOf(c.initial)}
            && (forall h :: h in s.importedHeaders ==> HashOf(s.importedHeaders[h]) == h)
            && |s.importedHeaders| == Min(n, |log|) + 1
  {
    Reachable(env, calls);
    var c := Run(env, FRESH, calls).chain.value;
    RingRefinesLog(env.headersToStore, c.initial, Log(c.accepted));
  }

  // ---- Authority hand-off ---------------------------------------------------------------

  ghost predicate Hands(sub: Submission) {
    var change := FindScheduledChange(sub.signed.digest);
    change.Some? && change.value.delay == 0
  }

  /** The accepted submissions whose signed header carries a zero-delay scheduled change. */
  ghost function HandOffs(accepted: seq<Submission>): set<nat> {
    set k: nat | k < |accepted| && Hands(accepted[k])
  }

  ghost predicate IsLastHandOff(accepted: seq<Submission>, k: nat) {
    k in HandOffs(accepted) && forall j :: j in HandOffs(accepted) ==> j <= k
  }

  lemma HandOffsSnoc(accepted: seq<Submission>, sub: Submission)
    ensures HandOffs(accepted + [sub]) == HandOffs(accepted) + if Hands(sub) then {|accepted|} else {}
  {
    assert forall k :: 0 <= k < |accepted| ==> (accepted + [sub])[k] == accepted[k];
  }

  lemma {:induction false} ChangesCountHandOffs(accepted: seq<Submission>)
    ensures |Changes(accepted)| == |HandOffs(accepted)|
  {
    if accepted != [] {
      var init, last := accepted[..|accepted| - 1], accepted[|accepted| - 1];
      ChangesCountHandOffs(init);
      HandOffsSnoc(init, last);
      assert accepted == init + [last];
    }
  }

  lemma {:induction false} LastChangeIsLastHandOff(accepted: seq<Submission>, k: nat)
    requires IsLastHandOff(accepted, k)
    ensures Changes(accepted) != []
    ensures Changes(accepted)[|Changes(accepted)| - 1]
         == FindScheduledChange(accepted[k].signed.digest).value.nextAuthorities
  {
    var init, last := accepted[..|accepted| - 1], accepted[|accepted| - 1];
    HandOffsSnoc(init, last);
    assert accepted == init + [last];
    if !Hands(last) {
      LastChangeIsLastHandOff(init, k);
    }
  }

  /** What the hand-offs make of the first set. */
  ghost predicate HandedOn(genesis: AuthoritySet, accepted: seq<Submission>, voters: AuthoritySet) {
    && voters.setId == (genesis.setId + |HandOffs(accepted)|) % U64_SIZE
    && (HandOffs(accepted) == {} ==> voters.authorities == genesis.authorities)
    && forall k: nat :: IsLastHandOff(accepted, k) ==>
         voters.authorities == FindScheduledChange(accepted[k].signed.digest).value.nextAuthorities
  }

  lemma SetInForceIsHandedOn(genesis: AuthoritySet, accepted: seq<Submission>)
    ensures HandedOn(genesis, accepted, SetInForce(genesis, accepted))
  {
    var voters := SetInForce(genesis, accepted);
    assert voters.setId == (genesis.setId + |HandOffs(accepted)|) % U64_SIZE by {
      ChangesCountHandOffs(accepted);
      AdvanceIdIsSum(genesis.setId, |HandOffs(accepted)|);
    }
    assert HandOffs(accepted) == {} ==> voters.authorities == genesis.authorities by {
      ChangesCountHandOffs(accepted);
    }
    forall k: nat | IsLastHandOff(accepted, k)
      ensures voters.authorities
           == FindScheduledChange(accepted[k].signed.digest).value.nextAuthorities
    {
      LastChangeIsLastHandOff(accepted, k);
    }
  }

  /** The set id counts the hand-offs since the start, and the authorities are those the last
      hand-off named. */
  lemma {:induction false} AuthorityHandOff(env: Env, calls: seq<Call>)
    requires Run(env, FRESH, calls).chain.Some?
    ensures var c := Run(env, FRESH, calls).chain.value;
            var voters := StorageAfter(env, calls).currentAuthoritySet;
            voters.Some? && HandedOn(c.genesis, c.accepted, voters.value)
  {
    var c := Run(env, FRESH, calls).chain.value;
    SetInForceIsHandedOn(c.genesis, c.accepted);
  }

  /** Each signed header was accepted on the word of the set in force just before it. */
  lemma {:induction false} AcceptedOnPriorSet(env: Env, calls: seq<Call>, k: nat)
    requires Run(env, FRESH, calls).chain.Some?
    requires k < |Run(env, FRESH, calls).chain.value.accepted|
    ensures var c := Run(env, FRESH, calls).chain.value;
            && Justified(env, SetInForce(c.genesis, c.accepted[..k]), c.accepted[k])
            && SupportedDigest(c.accepted[k].signed)
  {
    Reachable(env, calls);
    assert Endorsed(env, Run(env, FRESH, calls).chain.value, k);
  }

  // ---- Changes the client does not see --------------------------------------------------

  function ScheduledBy(header: Header): seq<seq<Authority>> {
    var change := FindScheduledChange(header.digest);
    if change.Some? then [change.value.nextAuthorities] else []
  }

  /** The authority lists scheduled along a list of headers, in order. */
  function ScheduledAlong(hs: seq<Header>): seq<seq<Authority>> {
    if hs == [] then [] else ScheduledAlong(hs[..|hs| - 1]) + ScheduledBy(hs[|hs| - 1])
  }

  lemma {:induction false} ScheduledAlongSnoc(hs: seq<Header>, h: Header)
    ensures ScheduledAlong(hs + [h]) == ScheduledAlong(hs) + ScheduledBy(h)
  {
    assert (hs + [h])[..|hs|] == hs;
  }

  lemma {:induction false} ScheduledAlongAppend(a: seq<Header>, b: seq<Header>)
    ensures ScheduledAlong(a + b) == ScheduledAlong(a) + ScheduledAlong(b)
  {
    if b == [] {
      AppendNothing(a);
      AppendNothing(ScheduledAlong(a));
    } else {
      var init, last := b[..|b| - 1], b[|b| - 1];
      ScheduledAlongAppend(a, init);
      SplitLast(b);
      AppendAssoc(a, init, [last]);
      ScheduledAlongSnoc(a + init, last);
      AppendAssoc(ScheduledAlong(a), ScheduledAlong(init), ScheduledBy(last));
    }
  }

  ghost predicate Silent(hs: seq<Header>) {
    forall i :: 0 <= i < |hs| ==> FindScheduledChange(hs[i].digest).None?
  }

  lemma {:induction false} SilentExactly(hs: seq<Header>)
    ensures Silent(hs) <==> ScheduledAlong(hs) == []
  {
    if hs != [] {
      var init := hs[..|hs| - 1];
      SilentExactly(init);
      assert Silent(hs) <==> Silent(init) && FindScheduledChange(hs[|hs| - 1].digest).None?;
    }
  }

  ghost predicate RangesSilent(accepted: seq<Submission>) {
    forall k :: 0 <= k < |accepted| ==> Silent(accepted[k].range)
  }

  lemma {:induction false} ScheduledSnoc(accepted: seq<Submission>, sub: Submission)
    ensures ScheduledAlong(Log(accepted + [sub]))
         == ScheduledAlong(Log(accepted)) + ScheduledAlong(sub.range) + ScheduledBy(sub.signed)
  {
    var log := Log(accepted);
    LogSnoc(accepted, sub);
    AppendAssoc(log, sub.range, [sub.signed]);
    ScheduledAlongSnoc(log + sub.range, sub.signed);
    ScheduledAlongAppend(log, sub.range);
  }

  lemma {:induction false} ChangesSnoc(accepted: seq<Submission>, sub: Submission)
    requires SupportedDigest(sub.signed)
    ensures Changes(accepted + [sub]) == Changes(accepted) + ScheduledBy(sub.signed)
  {
    assert (accepted + [sub])[..|accepted|] == accepted;
    AppendNothing(Changes(accepted));
  }

  lemma RangesSilentSnoc(accepted: seq<Submission>, sub: Submission)
    ensures RangesSilent(accepted + [sub]) <==> RangesSilent(accepted) && Silent(sub.range)
  {
    var all := accepted + [sub];
    assert all[|accepted|] == sub;
    assert forall k :: 0 <= k < |accepted| ==> all[k] == accepted[k];
  }

  lemma {:induction false} ChangesAreFewer(accepted: seq<Submission>)
    requires forall k :: 0 <= k < |accepted| ==> SupportedDigest(accepted[k].signed)
    ensures |Changes(accepted)| <= |ScheduledAlong(Log(accepted))|
    ensures RangesSilent(accepted) <==> |Changes(accepted)| == |ScheduledAlong(Log(accepted))|
    ensures RangesSilent(accepted) ==> Changes(accepted) == ScheduledAlong(Log(accepted))
  {
    if accepted != [] {
      var init, last := accepted[..|accepted| - 1], accepted[|accepted| - 1];
      ChangesAreFewer(init);
      SilentExactly(last.range);
      ScheduledSnoc(init, last);
      ChangesSnoc(init, last);
      RangesSilentSnoc(init, last);
      SplitLast(accepted);
      AppendNothing(ScheduledAlong(Log(init)));
    }
  }

  /** The client enacts what the signed headers schedule. That is everything its chain schedules exactly
      when no header of a range carries a scheduled change; any such change is skipped. */
  lemma {:induction false} EnactsWholeChainExactly(env: Env, calls: seq<Call>)
    requires Run(env, FRESH, calls).chain.Some?
    ensures var accepted := Run(env, FRESH, calls).chain.value.accepted;
            && |Changes(accepted)| <= |ScheduledAlong(Log(accepted))|
            && (Changes(accepted) == ScheduledAlong(Log(accepted)) <==> RangesSilent(accepted))
  {
    var c := Run(env, FRESH, calls).chain.value;
    forall k | 0 <= k < |c.accepted| ensures SupportedDigest(c.accepted[k].signed) {
      AcceptedOnPriorSet(env, calls, k);
    }
    ChangesAreFewer(c.accepted);
  }

  ghost predicate AllSupported(hs: seq<Header>) {
    forall i :: 0 <= i < |hs| ==> SupportedDigest(hs[i])
  }

  lemma {:induction false} AllSupportedAppend(a: seq<Header>, b: seq<Header>)
    ensures AllSupported(a + b) <==> AllSupported(a) && AllSupported(b)
  {
    var ab := a + b;
    assert forall i :: 0 <= i < |a| ==> ab[i] == a[i];
    assert forall i :: 0 <= i < |b| ==> ab[|a| + i] == b[i];
  }

  ghost predicate RangesSupported(accepted: seq<Submission>) {
    forall k :: 0 <= k < |accepted| ==> AllSupported(accepted[k].range)
  }

  lemma {:induction false} LogSupportedExactly(accepted: seq<Submission>)
    requires forall k :: 0 <= k < |accepted| ==> SupportedDigest(accepted[k].signed)
    ensures AllSupported(Log(accepted)) <==> RangesSupported(accepted)
  {
    if accepted != [] {
      var init, last := accepted[..|accepted| - 1], accepted[|accepted| - 1];
      LogSupportedExactly(init);
      AllSupportedAppend(Log(init), HeadersOf(last));
      AllSupportedAppend(last.range, [last.signed]);
      assert RangesSupported(accepted) <==> RangesSupported(init) && AllSupported(last.range);
    }
  }

  /** Forced and delayed changes are refused in signed headers only: after any run the whole chain is
      free of them exactly when the ranges are. */
  lemma {:induction false} ChainSupportedExactly(env: Env, calls: seq<Call>)
    requires Run(env, FRESH, calls).chain.Some?
    ensures var accepted := Run(env, FRESH, calls).chain.value.accepted;
            AllSupported(Log(accepted)) <==> RangesSupported(accepted)
  {
    var c := Run(env, FRESH, calls).chain.value;
    forall k | 0 <= k < |c.accepted| ensures SupportedDigest(c.accepted[k].signed) {
      AcceptedOnPriorSet(env, calls, k);
    }
    LogSupportedExactly(c.accepted);
  }

  // ---- Registration ---------------------------------------------------------------------

  /** The items that belong to a chain are all set or all unset; the relay chain is no parachain of
      its own, and every parachain entry names it. */
  lemma RegistrationConsistent(env: Env, calls: seq<Call>)
    ensures var s := StorageAfter(env, calls);
            && (s.relayChainId.Some? <==> s.everInitialized)
            && (s.bestFinalizedHash.Some? <==> s.everInitialized)
            && (s.initialHash.Some? <==> s.everInitialized)
            && (s.currentAuthoritySet.Some? <==> s.everInitialized)
            && (s.importedHashesPointer.Some? <==> s.everInitialized)
            && (s.importedHeaders != map[] <==> s.everInitialized)
            && (!s.everInitialized ==> s.importedHashes == map[] && s.parachainIdMap == map[])
            && (forall id :: id in s.parachainIdMap ==>
                  s.relayChainId == Some(s.parachainIdMap[id].relay) && s.relayChainId != Some(id))
  {
    Reachable(env, calls);
    var l := Run(env, FRESH, calls);
    if l.chain.Some? {
      assert HashOf(l.chain.value.initial) in StorageAfter(env, calls).importedHeaders;
    }
  }

  lemma {:induction false} RunAppend(env: Env, l: Ledger, a: seq<Call>, b: seq<Call>)
    ensures Run(env, l, a + b) == Run(env, Run(env, l, a), b)
  {
    if b == [] {
      AppendNothing(a);
    } else {
      var init := b[..|b| - 1];
      RunAppend(env, l, a, init);
      assert (a + b)[..|a + b| - 1] == a + init;
    }
  }

  /** Root's reset empties everything but the counter, whatever happened before. */
  lemma ResetIsFresh(env: Env, calls: seq<Call>)
    ensures StorageAfter(env, calls + [Reset(Root)])
         == Concrete(env.headersToStore, FRESH).(submissionsCounter := StorageAfter(env, calls).submissionsCounter)
  {
    assert (calls + [Reset(Root)])[..|calls|] == calls;
  }

  lemma StepKeepsCounter(env: Env, l: Ledger, call: Call)
    ensures l.counter <= Step(env, l, call).0.counter
  {
  }

  lemma {:induction false} RunKeepsCounter(env: Env, l: Ledger, calls: seq<Call>)
    ensures l.counter <= Run(env, l, calls).counter
  {
    if calls != [] {
      var init := calls[..|calls| - 1];
      RunKeepsCounter(env, l, init);
      StepKeepsCounter(env, Run(env, l, init), calls[|calls| - 1]);
    }
  }

  lemma {:induction false} CounterNeverDecreases(env: Env, calls: seq<Call>, more: seq<Call>)
    ensures StorageAfter(env, calls).submissionsCounter <= StorageAfter(env, calls + more).submissionsCounter
  {
    RunAppend(env, FRESH, calls, more);
    RunKeepsCounter(env, Run(env, FRESH, calls), more);
  }

  // ---- Finality -------------------------------------------------------------------------

  /** `b` is still on the chain of `a`, and has only added to it. */
  ghost predicate Extends(a: Chain, b: Chain) {
    && b == a.(accepted := b.accepted)
    && a.accepted <= b.accepted
    && Log(a.accepted) <= Log(b.accepted)
  }

  lemma SubmitExtends(env: Env, l: Ledger, sub: Submission)
    requires l.chain.Some?
    ensures var after := Submit(env, l, sub).0;
            after.chain.Some? && Extends(l.chain.value, after.chain.value)
  {
    LogSnoc(l.chain.value.accepted, sub);
  }

  lemma StepExtends(env: Env, l: Ledger, call: Call)
    requires l.chain.Some? && call != Reset(Root)
    ensures var after := Step(env, l, call).0;
            after.chain.Some? && Extends(l.chain.value, after.chain.value)
  {
    match call {
      case SubmitHeaders(_, sub) => SubmitExtends(env, l, sub);
      case SubmitEncodedHeaders(encoded) =>
        if env.decodeSubmission(encoded).Some? {
          SubmitExtends(env, l, env.decodeSubmission(encoded).value);
        }
      case _ =>
        assert Step(env, l, call).0.chain == l.chain;
    }
  }

  /** Until root resets the pallet, the chain it follows is only ever extended. */
  lemma {:induction false} ChainOnlyGrows(env: Env, l: Ledger, calls: seq<Call>)
    requires l.chain.Some? && Reset(Root) !in calls
    ensures var after := Run(env, l, calls);
            after.chain.Some? && Extends(l.chain.value, after.chain.value)
  {
    if calls != [] {
      var init, last := calls[..|calls| - 1], calls[|calls| - 1];
      ChainOnlyGrows(env, l, init);
      assert last in calls;
      StepExtends(env, Run(env, l, init), last);
    }
  }

  /** A header imported by some point of a run stays available for inclusion proofs until exactly
      `HeadersToStore` further headers have been imported, however they were submitted. */
  lemma {:induction false} RetainedUntilNMore(env: Env, calls: seq<Call>, more: seq<Call>, i: nat)
    requires Run(env, FRESH, calls).chain.Some? && Reset(Root) !in more
    requires i < |Log(Run(env, FRESH, calls).chain.value.accepted)|
    ensures Run(env, FRESH, calls + more).chain.Some?
    ensures var log := Log(Run(env, FRESH, calls).chain.value.accepted);
            var after := Log(Run(env, FRESH, calls + more).chain.value.accepted);
            && log <= after
            && (HashOf(log[i]) in StorageAfter(env, calls + more).importedHeaders
                <==> |after| - (i + 1) < env.headersToStore)
  {
    RunAppend(env, FRESH, calls, more);
    ChainOnlyGrows(env, Run(env, FRESH, calls), more);
    Reachable(env, calls + more);
    var c := Run(env, FRESH, calls + more).chain.value;
    RetentionWindow(env.headersToStore, c.initial, Log(c.accepted), i);
  }

  predicate Registers(call: Call, gateway: ChainId) {
    call.Initialize? && call.gateway == gateway
  }

  lemma StepKeepsEntry(env: Env, l: Ledger, call: Call, gateway: ChainId)
    requires l.chain.Some? && call != Reset(Root) && gateway in l.parachains && !Registers(call, gateway)
    ensures var after := Step(env, l, call).0;
            gateway in after.parachains && after.parachains[gateway] == l.parachains[gateway]
  {
  }

  /** Until it is registered anew, a parachain keeps its entry. */
  lemma {:induction false} EntryIsKept(env: Env, l: Ledger, calls: seq<Call>, gateway: ChainId)
    requires l.chain.Some? && Reset(Root) !in calls && gateway in l.parachains
    requires forall k :: 0 <= k < |calls| ==> !Registers(calls[k], gateway)
    ensures var after := Run(env, l, calls);
            gateway in after.parachains && after.parachains[gateway] == l.parachains[gateway]
  {
    if calls != [] {
      var init, last := calls[..|calls| - 1], calls[|calls| - 1];
      EntryIsKept(env, l, init, gateway);
      ChainOnlyGrows(env, l, init);
      assert last in calls;
      StepKeepsEntry(env, Run(env, l, init), last, gateway);
    }
  }

  /** The relay block an inclusion proof for `gateway` stands on. */
  function ProofBlock(env: Env, relay: ChainId, gateway: ChainId, encoded: Bytes): Option<Hash> {
    if gateway == relay then
      var proof := env.decodeRelayProof(encoded);
      if proof.None? then None else Some(proof.value.blockHash)
    else
      var proof := env.decodeParachainProof(encoded);
      if proof.None? then None else Some(proof.value.relayBlockHash)
  }

  /** A receipt that stands on an imported relay block, for an event of that block or of a parachain
      block it records, can be had again until exactly `HeadersToStore` further headers have been
      imported, and not after; a parachain must not have been registered anew in between. */
  lemma {:induction false} ReceiptLifetime(
    env: Env, calls: seq<Call>, more: seq<Call>, i: nat, gateway: ChainId, encoded: Bytes,
    source: Option<ExecutionSource>, receipt: Receipt)
    requires Run(env, FRESH, calls).chain.Some? && Reset(Root) !in more
    requires var c := Run(env, FRESH, calls).chain.value;
             && i < |Log(c.accepted)|
             && ProofBlock(env, c.relay, gateway, encoded) == Some(HashOf(Log(c.accepted)[i]))
             && (gateway != c.relay ==> forall k :: 0 <= k < |more| ==> !Registers(more[k], gateway))
    requires Proven(env, Run(env, FRESH, calls), gateway, encoded, source, receipt)
    ensures var after := Run(env, FRESH, calls + more);
            && after.chain.Some?
            && (Proven(env, after, gateway, encoded, source, receipt) <==>
                |Log(after.chain.value.accepted)| - (i + 1) < env.headersToStore)
  {
    var before := Run(env, FRESH, calls);
    RunAppend(env, FRESH, calls, more);
    ChainOnlyGrows(env, before, more);
    RetainedUntilNMore(env, calls, more, i);
    var c := Run(env, FRESH, calls + more).chain.value;
    RetainedIsAvailable(env.headersToStore, c, HashOf(Log(before.chain.value.accepted)[i]));
    if gateway != c.relay {
      EntryIsKept(env, before, more, gateway);
    }
  }

  // ---- The halt flag --------------------------------------------------------------------

  /** What the flag stops: of all calls in a halted state, exactly `submit_encoded_headers`. */
  lemma HaltStopsEncodedOnly(env: Env, l: Ledger, call: Call)
    requires l.halted
    ensures Step(env, l, call).1 == Failed(Halted) <==> call.SubmitEncodedHeaders?
  {
  }

  predicate Resumes(call: Call) {
    call == Reset(Root) || (call.SetOperational? && call.operational)
  }

  ghost function SubmittedBy(env: Env, l: Ledger, call: Call): seq<Header> {
    if call.SubmitHeaders? && Step(env, l, call).1.Accepted? then HeadersOf(call.submission) else []
  }

  /** The headers of the `submit_headers` calls that are accepted, in order. */
  ghost function SubmittedHeaders(env: Env, l: Ledger, calls: seq<Call>): seq<Header> {
    if calls == [] then []
    else
      var init, last := calls[..|calls| - 1], calls[|calls| - 1];
      SubmittedHeaders(env, l, init) + SubmittedBy(env, Run(env, l, init), last)
  }

  /** `after` is halted, still on the chain of `l`, and has imported exactly `headers` since. */
  ghost predicate GrownHalted(l: Ledger, after: Ledger, headers: seq<Header>)
    requires l.chain.Some?
  {
    && after.halted
    && after.chain.Some?
    && after.chain.value == l.chain.value.(accepted := after.chain.value.accepted)
    && Log(after.chain.value.accepted) == Log(l.chain.value.accepted) + headers
  }

  lemma GrownTwice(l: Ledger, mid: Ledger, after: Ledger, first: seq<Header>, second: seq<Header>)
    requires l.chain.Some? && GrownHalted(l, mid, first) && GrownHalted(mid, after, second)
    ensures GrownHalted(l, after, first + second)
  {
    var log := Log(l.chain.value.accepted);
    assert log + first + second == log + (first + second);
  }

  lemma HaltedSubmit(env: Env, l: Ledger, origin: Origin, sub: Submission)
    requires l.halted && l.chain.Some?
    ensures GrownHalted(l, HeadersSubmitted(env, l, origin, sub).0, SubmittedBy(env, l, SubmitHeaders(origin, sub)))
  {
    LogSnoc(l.chain.value.accepted, sub);
    AppendNothing(Log(l.chain.value.accepted));
  }

  lemma HaltedOther(env: Env, l: Ledger, call: Call)
    requires l.halted && l.chain.Some? && !Resumes(call) && !call.SubmitHeaders?
    ensures Step(env, l, call).0.halted && Step(env, l, call).0.chain == l.chain
  {
  }

  lemma HaltedStep(env: Env, l: Ledger, call: Call)
    requires l.halted && l.chain.Some? && !Resumes(call)
    ensures GrownHalted(l, Step(env, l, call).0, SubmittedBy(env, l, call))
  {
    if call.SubmitHeaders? {
      HaltedSubmit(env, l, call.origin, call.submission);
    } else {
      HaltedOther(env, l, call);
      AppendNothing(Log(l.chain.value.accepted));
    }
  }

  /** A halted client with a chain stays halted until it is resumed, and its chain goes on growing by
      exactly what `submit_headers` accepts. */
  lemma {:induction false} HaltedChainGrows(env: Env, l: Ledger, calls: seq<Call>)
    requires l.halted && l.chain.Some? && forall k :: 0 <= k < |calls| ==> !Resumes(calls[k])
    ensures GrownHalted(l, Run(env, l, calls), SubmittedHeaders(env, l, calls))
  {
    if calls == [] {
      assert Log(l.chain.value.accepted) + [] == Log(l.chain.value.accepted);
    } else {
      var init, last := calls[..|calls| - 1], calls[|calls| - 1];
      HaltedChainGrows(env, l, init);
      HaltedStep(env, Run(env, l, init), last);
      GrownTwice(l, Run(env, l, init), Run(env, l, calls),
                 SubmittedHeaders(env, l, init), SubmittedBy(env, Run(env, l, init), last));
    }
  }

  /** A runtime whose foreign code finds nothing wrong, and whose relay chain starts at the dummy header. */
  function Lenient(headersToStore: Capacity): Env {
    Env(headersToStore, _ => true, (_, _, _, _, _) => true, _ => Some(RelayRegistration([], [], 0, 0)), _ => None,
        _ => Some(DUMMY_HEADER), _ => None, _ => None, _ => None, _ => None, _ => None,
        (_, _, _) => None, _ => [], _ => None)
  }

  const START: Call := Initialize(Root, [0, 0, 0, 0], [])

  lemma LenientStart(n: Capacity)
    ensures Run(Lenient(n), FRESH, [START])
         == Ledger(Some(Chain([0, 0, 0, 0], DUMMY_HEADER, AuthoritySet([], 0), [])), map[], Some(0), false, 0)
  {
    assert [START][..0] == [];
    assert InitialAuthorities([]) == [];
  }

  /** "A halted pallet fails all transactions" is not true: halted by root, it accepts a child of its
      best header. */
  lemma HaltedMayAccept() returns (env: Env, calls: seq<Call>, sub: Submission)
    ensures StorageAfter(env, calls).isHalted
    ensures Step(env, Run(env, FRESH, calls), SubmitHeaders(SignedBy(0), sub)).1.Accepted?
  {
    env, calls := Lenient(2), [START, SetOperational(Root, false)];
    sub := Submission([], Header(HashOf(DUMMY_HEADER), 1, 0, 0, []), []);
    LenientStart(2);
    assert calls[..1] == [START];
  }

  // ---- A change carried by a range header -----------------------------------------------

  /** Two headers on top of the dummy, the first of which carries a digest log. */
  function Carrying(item: DigestItem): Submission {
    var first := Header(HashOf(DUMMY_HEADER), 1, 0, 0, [item]);
    Submission([first], Header(HashOf(first), 2, 0, 0, []), [])
  }

  lemma {:induction false} CarryingChanges(genesis: AuthoritySet, item: DigestItem)
    ensures Log([Carrying(item)]) == HeadersOf(Carrying(item))
    ensures SetInForce(genesis, [Carrying(item)]) == genesis
  {
    var sub := Carrying(item);
    LogSnoc([], sub);
    SetInForceSnoc(genesis, [], sub);
    assert [] + [sub] == [sub] && [] + HeadersOf(sub) == HeadersOf(sub);
  }

  lemma {:induction false} CarryingSchedules(next: seq<Authority>)
    ensures ScheduledAlong(HeadersOf(Carrying(Scheduled(ScheduledChange(next, 0))))) == [next]
  {
    var sub := Carrying(Scheduled(ScheduledChange(next, 0)));
    ScheduledAlongSnoc(sub.range, sub.signed);
    assert ScheduledBy(sub.range[0]) == [next] && ScheduledBy(sub.signed) == [];
    assert sub.range[..0] == [] && ScheduledAlong(sub.range) == [next];
    AppendNothing([next]);
  }

  /** Whatever it is, the log of a range header is not looked at. */
  lemma {:induction false} CarryingIsAccepted(n: Capacity, item: DigestItem)
    ensures var l := Run(Lenient(n), FRESH, [START]);
            l.chain.Some? && l.chain.value.accepted == [] && Rejection(Lenient(n), l.chain.value, Carrying(item)).None?
  {
    LenientStart(n);
    assert LinkAt(HashOf(DUMMY_HEADER), Carrying(item).range, 0);
  }

  lemma {:induction false} OneMoreAccepted(env: Env, calls: seq<Call>, sub: Submission)
    requires Run(env, FRESH, calls).chain.Some? && Rejection(env, Run(env, FRESH, calls).chain.value, sub).None?
    ensures var c := Run(env, FRESH, calls).chain.value;
            Run(env, FRESH, calls + [SubmitHeaders(SignedBy(0), sub)]).chain
            == Some(c.(accepted := c.accepted + [sub]))
  {
    assert (calls + [SubmitHeaders(SignedBy(0), sub)])[..|calls|] == calls;
  }

  lemma {:induction false} RunWithCarried(n: Capacity, item: DigestItem) returns (calls: seq<Call>)
    ensures var c := Run(Lenient(n), FRESH, calls).chain;
            c.Some? && c.value.accepted == [Carrying(item)]
  {
    calls := [START] + [SubmitHeaders(SignedBy(0), Carrying(item))];
    CarryingIsAccepted(n, item);
    OneMoreAccepted(Lenient(n), [START], Carrying(item));
  }

  /** A change scheduled by a range header goes unseen: the chain schedules new authorities, the stored
      set is still the first one. */
  lemma RangeChangeIsSkipped(next: seq<Authority>) returns (env: Env, calls: seq<Call>)
    ensures var c := Run(env, FRESH, calls).chain;
            && c.Some?
            && ScheduledAlong(Log(c.value.accepted)) == [next]
            && StorageAfter(env, calls).currentAuthoritySet == Some(c.value.genesis)
  {
    var item := Scheduled(ScheduledChange(next, 0));
    env := Lenient(2);
    calls := RunWithCarried(2, item);
    CarryingChanges(Run(env, FRESH, calls).chain.value.genesis, item);
    CarryingSchedules(next);
  }

  /** A forced change, refused in a signed header, passes in a range header. */
  lemma ForcedMayPass(median: nat, change: ScheduledChange) returns (env: Env, calls: seq<Call>)
    ensures var c := Run(env, FRESH, calls).chain;
            && c.Some? && Log(c.value.accepted) != []
            && FindForcedChange(Log(c.value.accepted)[0].digest) == Some(change)
            && !AllSupported(Log(c.value.accepted))
  {
    var item := Forced(median, change);
    env := Lenient(2);
    calls := RunWithCarried(2, item);
    CarryingChanges(Run(env, FRESH, calls).chain.value.genesis, item);
  }

  // ---- Splitting a submission -----------------------------------------------------------

  function Joined(a: Submission, b: Submission): Submission {
    Submission(a.range + [a.signed] + b.range, b.signed, b.justification)
  }

  lemma JoinedLinks(tip: Hash, a: Submission, b: Submission)
    ensures Linked(tip, Joined(a, b).range) <==>
            && Linked(tip, a.range) && a.signed.parentHash == Tip(tip, a.range)
            && Linked(HashOf(a.signed), b.range)
    ensures Tip(tip, Joined(a, b).range) == Tip(HashOf(a.signed), b.range)
  {
    LinkedAppend(tip, a.range, [a.signed]);
    LinkedAppend(tip, a.range + [a.signed], b.range);
    assert LinkAt(Tip(tip, a.range), [a.signed], 0) <==> a.signed.parentHash == Tip(tip, a.range);
  }

  lemma {:induction false} JoinedAmountsToSame(genesis: AuthoritySet, accepted: seq<Submission>,
                                               a: Submission, b: Submission)
    requires FindScheduledChange(a.signed.digest).None? && SupportedDigest(a.signed) && SupportedDigest(b.signed)
    ensures Log(accepted + [a] + [b]) == Log(accepted + [Joined(a, b)])
    ensures SetInForce(genesis, accepted + [a] + [b]) == SetInForce(genesis, accepted + [Joined(a, b)])
  {
    LogSnoc(accepted, a);
    LogSnoc(accepted + [a], b);
    LogSnoc(accepted, Joined(a, b));
    assert Log(accepted) + HeadersOf(a) + HeadersOf(b) == Log(accepted) + HeadersOf(Joined(a, b));
    SetInForceSnoc(genesis, accepted, a);
    SetInForceSnoc(genesis, accepted + [a], b);
    SetInForceSnoc(genesis, accepted, Joined(a, b));
  }

  lemma {:induction false} JoinedIsAccepted(env: Env, c: Chain, a: Submission, b: Submission)
    requires Justified(env, SetInForce(c.genesis, c.accepted), a)
    requires FindScheduledChange(a.signed.digest).None? && FindForcedChange(a.signed.digest).None?
    ensures Rejection(env, c, Joined(a, b)).None? <==>
            Rejection(env, c, a).None? && Rejection(env, c.(accepted := c.accepted + [a]), b).None?
  {
    SetInForceSnoc(c.genesis, c.accepted, a);
    LogSnoc(c.accepted, a);
    JoinedLinks(Tip(HashOf(c.initial), Log(c.accepted)), a, b);
  }

  /** Submitting in two goes, the first signed header scheduling nothing, is accepted exactly when the
      one submission of everything is, and leaves the same storage. */
  lemma SplitIsHarmless(env: Env, l: Ledger, a: Submission, b: Submission)
    requires l.chain.Some?
    requires Justified(env, SetInForce(l.chain.value.genesis, l.chain.value.accepted), a)
    requires FindScheduledChange(a.signed.digest).None? && FindForcedChange(a.signed.digest).None?
    ensures var (l1, r1) := Submit(env, l, a);
            var (l2, r2) := Submit(env, l1, b);
            var (joint, r) := Submit(env, l, Joined(a, b));
            && (r.None? <==> r1.None? && r2.None?)
            && (r.None? ==> Concrete(env.headersToStore, l2) == Concrete(env.headersToStore, joint))
  {
    var c := l.chain.value;
    JoinedIsAccepted(env, c, a, b);
    if SupportedDigest(b.signed) {
      JoinedAmountsToSame(c.genesis, c.accepted, a, b);
    }
  }

  lemma JoinedSkipsChange(genesis: AuthoritySet, accepted: seq<Submission>, a: Submission, b: Submission)
    requires FindScheduledChange(a.signed.digest).Some? && SupportedDigest(a.signed) && SupportedDigest(b.signed)
    ensures SetInForce(genesis, accepted + [a] + [b]) != SetInForce(genesis, accepted + [Joined(a, b)])
  {
    SetInForceSnoc(genesis, accepted, a);
    SetInForceSnoc(genesis, accepted + [a], b);
    SetInForceSnoc(genesis, accepted, Joined(a, b));
  }

  /** Of two submissions and their join, all acceptable, the storage is the same exactly when the first
      signed header schedules nothing: otherwise the join skips that change. */
  lemma SplitIsSameExactly(env: Env, l: Ledger, a: Submission, b: Submission)
    requires Submit(env, l, a).1.None? && Submit(env, Submit(env, l, a).0, b).1.None?
    requires Submit(env, l, Joined(a, b)).1.None?
    ensures Concrete(env.headersToStore, Submit(env, Submit(env, l, a).0, b).0)
         == Concrete(env.headersToStore, Submit(env, l, Joined(a, b)).0)
         <==> FindScheduledChange(a.signed.digest).None?
  {
    var c := l.chain.value;
    if FindScheduledChange(a.signed.digest).None? {
      JoinedAmountsToSame(c.genesis, c.accepted, a, b);
    } else {
      JoinedSkipsChange(c.genesis, c.accepted, a, b);
    }
  }

  // ---- The fee --------------------------------------------------------------------------

  /** An accepted `submit_headers` pays exactly when the pointer is back where it was, that is when
      the number of headers is a multiple of `HeadersToStore`; shorter submissions never pay. */
  lemma FeeFollowsPointer(env: Env, l: Ledger, origin: Origin, sub: Submission)
    requires HeadersSubmitted(env, l, origin, sub).1.Accepted?
    ensures var (after, out) := HeadersSubmitted(env, l, origin, sub);
            var n := env.headersToStore;
            && (out.paysFee <==> (|sub.range| + 1) % n == 0)
            && (out.paysFee <==>
                Concrete(n, l).importedHashesPointer == Concrete(n, after).importedHashesPointer)
            && (|sub.range| + 1 < n ==> !out.paysFee)
            && after.counter == if out.paysFee then l.counter else SaturatingSucc(l.counter)
  {
    var (after, out) := HeadersSubmitted(env, l, origin, sub);
    var n, k := env.headersToStore, |sub.range| + 1;
    assert |HeadersOf(sub)| == k;
    assert out.paysFee <==> k % n == 0;
    assert out.paysFee <==> Concrete(n, l).importedHashesPointer == Concrete(n, after).importedHashesPointer by {
      PointerReturns(n, l.chain.value.accepted, sub);
    }
    assert k < n ==> k % n != 0 by {
      if k < n { ModIs(k, n, 0, k); }
    }
  }

  /** "Accepted, so no fee" is not true of every submission: with room for one header, one header
      brings the pointer back. */
  lemma AcceptedMayPay() returns (env: Env, calls: seq<Call>, sub: Submission)
    ensures HeadersSubmitted(env, Run(env, FRESH, calls), SignedBy(0), sub).1 == Accepted(true)
  {
    env, calls := Lenient(1), [START];
    sub := Submission([], Header(HashOf(DUMMY_HEADER), 1, 0, 0, []), []);
    LenientStart(1);
  }
}
