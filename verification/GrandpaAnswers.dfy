/** What each call answers and leaves behind, in any state a run reaches, said of the storage and of what
    was passed in. */
module GrandpaAnswers {
  import opened Basics
  import opened GrandpaTypes
  import opened GrandpaChain
  import opened GrandpaLedger
  import opened GrandpaInclusion
  import opened GrandpaRuns

  ghost function Answer(env: Env, calls: seq<Call>, call: Call): Outcome {
    Step(env, Run(env, FRESH, calls), call).1
  }

  lemma {:induction false} RunSnoc(env: Env, calls: seq<Call>, call: Call)
    ensures Run(env, FRESH, calls + [call]) == Step(env, Run(env, FRESH, calls), call).0
  {
    assert (calls + [call])[..|calls|] == calls;
  }

  lemma FailedStep(env: Env, l: Ledger, call: Call)
    requires Step(env, l, call).1.Failed?
    ensures Step(env, l, call).0 == l
  {
  }

  /** A call that fails leaves the storage as it was. */
  lemma {:induction false} FailureChangesNothing(env: Env, calls: seq<Call>, call: Call)
    requires Answer(env, calls, call).Failed?
    ensures StorageAfter(env, calls + [call]) == StorageAfter(env, calls)
  {
    RunSnoc(env, calls, call);
    FailedStep(env, Run(env, FRESH, calls), call);
  }

  // ---- Digests --------------------------------------------------------------------------

  ghost predicate NoForced(logs: seq<DigestItem>) {
    forall i :: 0 <= i < |logs| ==> !logs[i].Forced?
  }

  ghost predicate NoScheduled(logs: seq<DigestItem>) {
    forall i :: 0 <= i < |logs| ==> !logs[i].Scheduled?
  }

  /** Log `i` is the first scheduled change. */
  ghost predicate FirstScheduled(logs: seq<DigestItem>, i: int) {
    0 <= i < |logs| && logs[i].Scheduled? && forall j :: 0 <= j < i ==> !logs[j].Scheduled?
  }

  /** No forced change, and the first scheduled one, if any, takes effect at once. */
  ghost predicate Enactable(logs: seq<DigestItem>) {
    NoForced(logs) && forall i :: FirstScheduled(logs, i) ==> logs[i].change.delay == 0
  }

  lemma {:induction false} FindsForced(logs: seq<DigestItem>)
    ensures FindForcedChange(logs).None? <==> NoForced(logs)
  {
    if logs != [] {
      FindsForced(logs[1..]);
      assert forall i :: 0 < i < |logs| ==> logs[i] == logs[1..][i - 1];
    }
  }

  lemma {:induction false} FirstUpTo(logs: seq<DigestItem>, k: nat) returns (i: nat)
    requires k < |logs| && logs[k].Scheduled?
    ensures i <= k && FirstScheduled(logs, i)
  {
    if j: nat :| j < k && logs[j].Scheduled? {
      i := FirstUpTo(logs, j);
    } else {
      i := k;
    }
  }

  lemma {:induction false} FindsScheduled(logs: seq<DigestItem>)
    ensures FindScheduledChange(logs).None? <==> NoScheduled(logs)
    ensures forall i :: FirstScheduled(logs, i) ==> FindScheduledChange(logs) == Some(logs[i].change)
  {
    forall i | FirstScheduled(logs, i) ensures FindScheduledChange(logs) == Some(logs[i].change) {
      FindsFirst(logs, i);
    }
    if NoScheduled(logs) {
      FindsFirst(logs, |logs|);
    } else {
      var k: nat :| k < |logs| && logs[k].Scheduled?;
      var _ := FirstUpTo(logs, k);
    }
  }

  lemma {:induction false} SupportedExactly(header: Header)
    ensures SupportedDigest(header) <==> Enactable(header.digest)
  {
    var logs := header.digest;
    FindsForced(logs);
    FindsScheduled(logs);
    if !NoScheduled(logs) {
      var k: nat :| k < |logs| && logs[k].Scheduled?;
      var i := FirstUpTo(logs, k);
      assert FirstScheduled(logs, i);
    }
  }

  // ---- Submissions ----------------------------------------------------------------------

  /** The stored authority set vouches for the signed header. */
  ghost predicate Vouched(env: Env, s: Storage, sub: Submission) {
    && s.currentAuthoritySet.Some?
    && var voters := s.currentAuthoritySet.value;
    && env.validVoters(voters.authorities)
    && env.verify(sub.justification, HashOf(sub.signed), sub.signed.number, voters.setId, voters.authorities)
  }

  /** Every header names its predecessor, the first one the best header. */
  ghost predicate Continues(s: Storage, sub: Submission) {
    s.bestFinalizedHash.Some? && Linked(s.bestFinalizedHash.value, sub.range + [sub.signed])
  }

  lemma {:induction false} LinkedSubmission(tip: Hash, sub: Submission)
    ensures Linked(tip, sub.range + [sub.signed]) <==>
            Linked(tip, sub.range) && sub.signed.parentHash == Tip(tip, sub.range)
  {
    LinkedAppend(tip, sub.range, [sub.signed]);
    assert LinkAt(Tip(tip, sub.range), [sub.signed], 0) <==> sub.signed.parentHash == Tip(tip, sub.range);
  }

  lemma {:induction false} SubmitExactly(env: Env, l: Ledger, sub: Submission)
    ensures var s := Concrete(env.headersToStore, l);
            Submit(env, l, sub).1.None? <==> Vouched(env, s, sub) && Enactable(sub.signed.digest) && Continues(s, sub)
  {
    if l.chain.Some? {
      SupportedExactly(sub.signed);
      LinkedSubmission(Tip(HashOf(l.chain.value.initial), Log(l.chain.value.accepted)), sub);
    }
  }

  /** The set after an accepted submission: the list its first scheduled change names under the next id, or
      the one before. */
  ghost predicate HandsOver(before: AuthoritySet, logs: seq<DigestItem>, after: AuthoritySet) {
    && (NoScheduled(logs) ==> after == before)
    && forall i :: FirstScheduled(logs, i) ==>
         && after.authorities == logs[i].change.nextAuthorities
         && after.setId == if before.setId == 0xFFFF_FFFF_FFFF_FFFF then 0 else before.setId + 1
  }

  lemma {:induction false} SubmitHandsOver(env: Env, l: Ledger, sub: Submission)
    requires Submit(env, l, sub).1.None?
    ensures var s := Concrete(env.headersToStore, l);
            var after := Concrete(env.headersToStore, Submit(env, l, sub).0);
            && s.currentAuthoritySet.Some? && after.currentAuthoritySet.Some?
            && HandsOver(s.currentAuthoritySet.value, sub.signed.digest, after.currentAuthoritySet.value)
            && after.bestFinalizedHash == Some(HashOf(sub.signed))
  {
    var c := l.chain.value;
    SetInForceSnoc(c.genesis, c.accepted, sub);
    FindsScheduled(sub.signed.digest);
    LogSnoc(c.accepted, sub);
  }

  /** A submission is accepted exactly when it is signed for, the stored set vouches for it, its signed
      header's digest has no forced change and no delayed first change, and its headers continue the
      chain. Then the scheduled list is the stored set, under the next id, and the signed header is the
      best one. */
  lemma {:induction false} AcceptedExactly(env: Env, calls: seq<Call>, origin: Origin, sub: Submission)
    ensures var s, call := StorageAfter(env, calls), SubmitHeaders(origin, sub);
            var after := StorageAfter(env, calls + [call]);
            && (Answer(env, calls, call).Accepted? <==>
                && origin.SignedBy?
                && Vouched(env, s, sub)
                && Enactable(sub.signed.digest)
                && Continues(s, sub))
            && (Answer(env, calls, call).Accepted? ==>
                  && after.bestFinalizedHash == Some(HashOf(sub.signed))
                  && after.currentAuthoritySet.Some?
                  && HandsOver(s.currentAuthoritySet.value, sub.signed.digest, after.currentAuthoritySet.value))
  {
    var l := Run(env, FRESH, calls);
    RunSnoc(env, calls, SubmitHeaders(origin, sub));
    SubmitExactly(env, l, sub);
    if Submit(env, l, sub).1.None? {
      SubmitHandsOver(env, l, sub);
    }
  }

  /** Why a submission is refused: the first of these that applies. */
  lemma {:induction false} RefusedExactly(env: Env, calls: seq<Call>, sub: Submission, account: AccountId)
    ensures Answer(env, calls, SubmitHeaders(Root, sub)) == Failed(BadOrigin)
    ensures Answer(env, calls, SubmitHeaders(Unsigned, sub)) == Failed(BadOrigin)
    ensures var s, out := StorageAfter(env, calls), Answer(env, calls, SubmitHeaders(SignedBy(account), sub));
            && (out == Failed(NoFinalizedHeader) <==> s.bestFinalizedHash.None?)
            && (s.bestFinalizedHash.Some? ==>
                  && s.currentAuthoritySet.Some?
                  && var valid := env.validVoters(s.currentAuthoritySet.value.authorities);
                  && (out == Failed(InvalidAuthoritySet) <==> !valid)
                  && (out == Failed(InvalidGrandpaJustification) <==> valid && !Vouched(env, s, sub))
                  && (out == Failed(UnsupportedScheduledChange) <==>
                      Vouched(env, s, sub) && !Enactable(sub.signed.digest))
                  && (out == Failed(InvalidRangeLinkage) <==>
                      && Vouched(env, s, sub) && Enactable(sub.signed.digest)
                      && !Linked(s.bestFinalizedHash.value, sub.range))
                  && (out == Failed(InvalidJustificationLinkage) <==>
                      && Vouched(env, s, sub) && Enactable(sub.signed.digest)
                      && Linked(s.bestFinalizedHash.value, sub.range)
                      && sub.signed.parentHash != Tip(s.bestFinalizedHash.value, sub.range)))
  {
    SupportedExactly(sub.signed);
  }

  /** A run that hands off to any given list. */
  lemma HandOffIsReachable(next: seq<Authority>) returns (env: Env, calls: seq<Call>)
    ensures StorageAfter(env, calls).currentAuthoritySet == Some(AuthoritySet(next, 1))
  {
    env := Lenient(2);
    var signed := Header(HashOf(DUMMY_HEADER), 1, 0, 0, [Scheduled(ScheduledChange(next, 0))]);
    var sub := Submission([], signed, []);
    calls := [START] + [SubmitHeaders(SignedBy(0), sub)];
    LenientStart(2);
    SupportedExactly(signed);
    assert FirstScheduled(signed.digest, 0);
    FindsScheduled(signed.digest);
    OneMoreAccepted(env, [START], sub);
    SetInForceSnoc(AuthoritySet([], 0), [], sub);
  }

  /** On an operational client an encoded submission does what the submission itself does: the same error,
      or the same storage but for the counter. */
  lemma {:induction false} EncodedIsPlain(env: Env, calls: seq<Call>, encoded: Bytes, sub: Submission,
                                          account: AccountId)
    requires !StorageAfter(env, calls).isHalted && env.decodeSubmission(encoded) == Some(sub)
    ensures var plain, coded := SubmitHeaders(SignedBy(account), sub), SubmitEncodedHeaders(encoded);
            && (Answer(env, calls, coded) == Done <==> Answer(env, calls, plain).Accepted?)
            && (Answer(env, calls, coded) != Done ==> Answer(env, calls, coded) == Answer(env, calls, plain))
            && StorageAfter(env, calls + [coded])
               == StorageAfter(env, calls + [plain]).(submissionsCounter := StorageAfter(env, calls).submissionsCounter)
  {
    RunSnoc(env, calls, SubmitHeaders(SignedBy(account), sub));
    RunSnoc(env, calls, SubmitEncodedHeaders(encoded));
  }

  /** What else it answers: the halt flag comes first, then the decoder. */
  lemma {:induction false} EncodedRefusals(env: Env, calls: seq<Call>, encoded: Bytes)
    ensures var s, out := StorageAfter(env, calls), Answer(env, calls, SubmitEncodedHeaders(encoded));
            && (out == Failed(Halted) <==> s.isHalted)
            && (out == Failed(HeaderDataDecoding) <==> !s.isHalted && env.decodeSubmission(encoded).None?)
  {
  }

  // ---- The log over a run ---------------------------------------------------------------

  /** The headers a call imports, by its answer. */
  ghost function ImportedBy(env: Env, l: Ledger, call: Call): seq<Header> {
    match call
    case SubmitHeaders(_, sub) => if Step(env, l, call).1.Accepted? then HeadersOf(sub) else []
    case SubmitEncodedHeaders(encoded) =>
      if Step(env, l, call).1 == Done && env.decodeSubmission(encoded).Some?
      then HeadersOf(env.decodeSubmission(encoded).value) else []
    case _ => []
  }

  ghost function Imports(env: Env, l: Ledger, calls: seq<Call>): seq<Header> {
    if calls == [] then []
    else
      var init, last := calls[..|calls| - 1], calls[|calls| - 1];
      Imports(env, l, init) + ImportedBy(env, Run(env, l, init), last)
  }

  ghost predicate Grown(l: Ledger, after: Ledger, headers: seq<Header>)
    requires l.chain.Some?
  {
    after.chain.Some? && Log(after.chain.value.accepted) == Log(l.chain.value.accepted) + headers
  }

  lemma SubmitGrows(env: Env, l: Ledger, sub: Submission)
    requires l.chain.Some?
    ensures Grown(l, Submit(env, l, sub).0, if Submit(env, l, sub).1.None? then HeadersOf(sub) else [])
  {
    LogSnoc(l.chain.value.accepted, sub);
    AppendNothing(Log(l.chain.value.accepted));
  }

  lemma OtherGrowsNothing(env: Env, l: Ledger, call: Call)
    requires l.chain.Some? && call != Reset(Root) && !call.SubmitHeaders? && !call.SubmitEncodedHeaders?
    ensures Step(env, l, call).0.chain == l.chain
  {
  }

  lemma StepGrows(env: Env, l: Ledger, call: Call)
    requires l.chain.Some? && call != Reset(Root)
    ensures Grown(l, Step(env, l, call).0, ImportedBy(env, l, call))
  {
    AppendNothing(Log(l.chain.value.accepted));
    match call
    case SubmitHeaders(_, sub) => SubmitGrows(env, l, sub);
    case SubmitEncodedHeaders(encoded) =>
      if env.decodeSubmission(encoded).Some? {
        SubmitGrows(env, l, env.decodeSubmission(encoded).value);
      }
    case _ => OtherGrowsNothing(env, l, call);
  }

  lemma GrownAgain(l: Ledger, mid: Ledger, after: Ledger, first: seq<Header>, second: seq<Header>)
    requires l.chain.Some? && Grown(l, mid, first) && Grown(mid, after, second)
    ensures Grown(l, after, first + second)
  {
    AppendAssoc(Log(l.chain.value.accepted), first, second);
  }

  lemma {:induction false} ImportsGrow(env: Env, l: Ledger, calls: seq<Call>)
    requires l.chain.Some? && Reset(Root) !in calls
    ensures Grown(l, Run(env, l, calls), Imports(env, l, calls))
  {
    if calls == [] {
      AppendNothing(Log(l.chain.value.accepted));
    } else {
      var init, last := calls[..|calls| - 1], calls[|calls| - 1];
      ImportsGrow(env, l, init);
      assert last in calls;
      StepGrows(env, Run(env, l, init), last);
      var mid := Run(env, l, init);
      GrownAgain(l, mid, Run(env, l, calls), Imports(env, l, init), ImportedBy(env, mid, last));
    }
  }

  lemma FromEmptyLog(log: seq<Header>, headers: seq<Header>)
    requires log == [] + headers
    ensures log == headers
  {
  }

  /** From the call that registers the relay chain on, and until a reset, the chain is exactly the headers
      of the submissions accepted through either call, in order. */
  lemma {:induction false} LogIsImports(env: Env, calls: seq<Call>, origin: Origin, gateway: ChainId,
                                        registration: Bytes, more: seq<Call>)
    requires StorageAfter(env, calls).relayChainId.None? && Reset(Root) !in more
    requires Answer(env, calls, Initialize(origin, gateway, registration)) == Done
    ensures var start := calls + [Initialize(origin, gateway, registration)];
            var c := Run(env, FRESH, start + more).chain;
            c.Some? && Log(c.value.accepted) == Imports(env, Run(env, FRESH, start), more)
  {
    var start := calls + [Initialize(origin, gateway, registration)];
    RunSnoc(env, calls, Initialize(origin, gateway, registration));
    RunAppend(env, FRESH, start, more);
    var l := Run(env, FRESH, start);
    ImportsGrow(env, l, more);
    assert Log(l.chain.value.accepted) == [];
    FromEmptyLog(Log(Run(env, FRESH, start + more).chain.value.accepted), Imports(env, l, more));
  }

  // ---- Registration ---------------------------------------------------------------------

  /** Root, or the account stored as owner. */
  ghost predicate MayAdminister(s: Storage, origin: Origin) {
    match origin
    case Root => true
    case SignedBy(account) => s.palletOwner.Some? && s.palletOwner.value == account
    case Unsigned => false
  }

  /** The storage of a client just started on `header`. */
  ghost predicate StartedOn(s: Storage, gateway: ChainId, header: Header, data: RelayRegistration) {
    && s.initialHash == Some(HashOf(header)) && s.bestFinalizedHash == Some(HashOf(header))
    && s.importedHeaders == map[HashOf(header) := header] && s.importedHashes == map[]
    && s.importedHashesPointer == Some(0)
    && s.relayChainId == Some(gateway) && s.palletOwner == Some(data.owner)
    && !s.isHalted && s.everInitialized
    && s.currentAuthoritySet.Some?
    && var voters := s.currentAuthoritySet.value;
    && voters.setId == data.setId
    && |voters.authorities| == |data.authorities|
    && forall i :: 0 <= i < |data.authorities| ==> voters.authorities[i] == (data.authorities[i], 1)
  }

  lemma {:induction false} StartIsConcrete(n: Capacity, l: Ledger, gateway: ChainId, header: Header,
                                           data: RelayRegistration)
    requires l.owner == Some(data.owner) && !l.halted
    requires l.chain == Some(Chain(gateway, header, AuthoritySet(InitialAuthorities(data.authorities), data.setId), []))
    ensures StartedOn(Concrete(n, l), gateway, header, data)
  {
    var hash := HashOf(header);
    assert Retained(n, header, []) == map[hash := header];
    assert Ring(n, []) == map[];
    assert 0 % n == 0;
  }

  lemma {:induction false} RelayStarts(env: Env, l: Ledger, origin: Origin, gateway: ChainId, registration: Bytes)
    requires l.chain.None?
    ensures var (after, out) := Initialized(env, l, origin, gateway, registration);
            out == Done ==>
              && env.decodeRelay(registration).Some?
              && var data := env.decodeRelay(registration).value;
              && env.decodeHeader(data.firstHeader).Some?
              && StartedOn(Concrete(env.headersToStore, after), gateway, env.decodeHeader(data.firstHeader).value, data)
  {
    var (after, out) := Initialized(env, l, origin, gateway, registration);
    if out == Done {
      var data := env.decodeRelay(registration).value;
      StartIsConcrete(env.headersToStore, after, gateway, env.decodeHeader(data.firstHeader).value, data);
    }
  }

  /** With no chain, a registration by root or owner that decodes starts the client; otherwise the first
      thing wrong is answered. */
  lemma {:induction false} RelayRegistered(env: Env, calls: seq<Call>, origin: Origin, gateway: ChainId,
                                           registration: Bytes)
    requires StorageAfter(env, calls).relayChainId.None?
    ensures var s, call := StorageAfter(env, calls), Initialize(origin, gateway, registration);
            var out, data := Answer(env, calls, call), env.decodeRelay(registration);
            && (out == Failed(BadOrigin) <==> !MayAdminister(s, origin))
            && (out == Failed(RelayDecoding) <==> MayAdminister(s, origin) && data.None?)
            && (out == Failed(FirstHeaderDecoding) <==>
                MayAdminister(s, origin) && data.Some? && env.decodeHeader(data.value.firstHeader).None?)
            && (out == Done <==>
                MayAdminister(s, origin) && data.Some? && env.decodeHeader(data.value.firstHeader).Some?)
            && (out == Done ==>
                  StartedOn(StorageAfter(env, calls + [call]), gateway,
                            env.decodeHeader(data.value.firstHeader).value, data.value))
  {
    RunSnoc(env, calls, Initialize(origin, gateway, registration));
    RelayStarts(env, Run(env, FRESH, calls), origin, gateway, registration);
  }

  /** With a chain, a registration by root or owner, for another gateway, that decodes and names the relay
      chain writes an entry; otherwise the first thing wrong is answered. */
  lemma {:induction false} ParachainRegistered(env: Env, calls: seq<Call>, origin: Origin, gateway: ChainId,
                                               registration: Bytes)
    requires StorageAfter(env, calls).relayChainId.Some?
    ensures var s, call := StorageAfter(env, calls), Initialize(origin, gateway, registration);
            var out, data, relay := Answer(env, calls, call), env.decodeParachain(registration), s.relayChainId.value;
            && (out == Failed(BadOrigin) <==> !MayAdminister(s, origin))
            && (out == Failed(ChainIdAlreadyInitialized) <==> MayAdminister(s, origin) && gateway == relay)
            && (out == Failed(ParachainDecoding) <==> MayAdminister(s, origin) && gateway != relay && data.None?)
            && (out == Failed(InvalidRelayChainId) <==>
                MayAdminister(s, origin) && gateway != relay && data.Some? && data.value.relay != relay)
            && (out == Done <==>
                MayAdminister(s, origin) && gateway != relay && data.Some? && data.value.relay == relay)
            && (out == Done ==>
                  StorageAfter(env, calls + [call]) == s.(parachainIdMap := s.parachainIdMap[gateway := data.value]))
  {
    RunSnoc(env, calls, Initialize(origin, gateway, registration));
  }

  /** Call `k` registered `gateway` as a parachain, and nothing was reset since. */
  ghost predicate RegisteredAt(env: Env, calls: seq<Call>, gateway: ChainId, k: nat) {
    && k < |calls|
    && Registers(calls[k], gateway)
    && StorageAfter(env, calls[..k]).relayChainId.Some?
    && Answer(env, calls[..k], calls[k]) == Done
    && forall j :: k < j < |calls| ==> calls[j] != Reset(Root)
  }

  ghost function Registrations(env: Env, calls: seq<Call>, gateway: ChainId): set<nat> {
    set k: nat | k < |calls| && RegisteredAt(env, calls, gateway, k)
  }

  lemma {:induction false} RegisteredAtInit(env: Env, calls: seq<Call>, gateway: ChainId, k: nat)
    requires calls != [] && k < |calls| - 1
    ensures RegisteredAt(env, calls, gateway, k) <==>
            RegisteredAt(env, calls[..|calls| - 1], gateway, k) && calls[|calls| - 1] != Reset(Root)
  {
    var init := calls[..|calls| - 1];
    assert init[..k] == calls[..k] && init[k] == calls[k];
    assert forall j :: k < j < |init| ==> init[j] == calls[j];
  }

  lemma {:induction false} RegistrationsSnoc(env: Env, calls: seq<Call>, gateway: ChainId)
    requires calls != []
    ensures var init, n := calls[..|calls| - 1], |calls| - 1;
            Registrations(env, calls, gateway)
            == (if calls[n] == Reset(Root) then {} else Registrations(env, init, gateway))
               + if RegisteredAt(env, calls, gateway, n) then {n} else {}
  {
    var init, n := calls[..|calls| - 1], |calls| - 1;
    forall k: nat | k < n
      ensures k in Registrations(env, calls, gateway) <==>
              k in Registrations(env, init, gateway) && calls[n] != Reset(Root)
    {
      RegisteredAtInit(env, calls, gateway, k);
    }
  }

  ghost predicate IsLast(ks: set<nat>, k: nat) {
    k in ks && forall j :: j in ks ==> j <= k
  }

  /** The entry of a gateway after a run: what the last call that registered it decodes to. */
  ghost predicate EntryIs(env: Env, calls: seq<Call>, ks: set<nat>, gateway: ChainId,
                          entries: map<ChainId, ParachainRegistration>)
  {
    && (gateway in entries <==> ks != {})
    && forall k: nat :: IsLast(ks, k) && k < |calls| && calls[k].Initialize? ==>
         gateway in entries && env.decodeParachain(calls[k].registration) == Some(entries[gateway])
  }

  /** What one call does to the entry of `gateway`. */
  lemma {:induction false} StepEntry(env: Env, l: Ledger, call: Call, gateway: ChainId)
    requires WellFormed(env, l)
    ensures var (after, out) := Step(env, l, call);
            if call == Reset(Root) then gateway !in after.parachains
            else if l.chain.Some? && Registers(call, gateway) && out == Done then
              && env.decodeParachain(call.registration).Some?
              && gateway in after.parachains
              && after.parachains[gateway] == env.decodeParachain(call.registration).value
            else
              && (gateway in after.parachains <==> gateway in l.parachains)
              && (gateway in l.parachains ==> after.parachains[gateway] == l.parachains[gateway])
  {
  }

  lemma {:induction false} EntryKept(env: Env, init: seq<Call>, last: Call, ks: set<nat>, gateway: ChainId,
                                     before: map<ChainId, ParachainRegistration>,
                                     after: map<ChainId, ParachainRegistration>)
    requires EntryIs(env, init, ks, gateway, before) && forall k :: k in ks ==> k < |init|
    requires gateway in after <==> gateway in before
    requires gateway in before ==> after[gateway] == before[gateway]
    ensures EntryIs(env, init + [last], ks, gateway, after)
  {
    assert forall k :: k in ks ==> (init + [last])[k] == init[k];
  }

  lemma {:induction false} EntryWritten(env: Env, init: seq<Call>, last: Call, ks: set<nat>, gateway: ChainId,
                                        after: map<ChainId, ParachainRegistration>)
    requires last.Initialize? && forall k :: k in ks ==> k < |init|
    requires gateway in after && env.decodeParachain(last.registration) == Some(after[gateway])
    ensures EntryIs(env, init + [last], ks + {|init|}, gateway, after)
  {
    assert (init + [last])[|init|] == last;
    assert forall k: nat :: IsLast(ks + {|init|}, k) ==> k >= |init|;
  }

  lemma {:induction false} EntryAfterStep(env: Env, init: seq<Call>, last: Call, gateway: ChainId)
    requires EntryIs(env, init, Registrations(env, init, gateway), gateway, StorageAfter(env, init).parachainIdMap)
    ensures var calls := init + [last];
            EntryIs(env, calls, Registrations(env, calls, gateway), gateway, StorageAfter(env, calls).parachainIdMap)
  {
    var calls, ks := init + [last], Registrations(env, init, gateway);
    var before, after := StorageAfter(env, init).parachainIdMap, StorageAfter(env, calls).parachainIdMap;
    assert calls[..|init|] == init && calls[|init|] == last;
    Reachable(env, init);
    RunSnoc(env, init, last);
    StepEntry(env, Run(env, FRESH, init), last, gateway);
    RegistrationsSnoc(env, calls, gateway);
    if last == Reset(Root) {
      assert Registrations(env, calls, gateway) == {};
    } else if RegisteredAt(env, calls, gateway, |init|) {
      EntryWritten(env, init, last, ks, gateway, after);
    } else {
      assert Registrations(env, calls, gateway) == ks;
      EntryKept(env, init, last, ks, gateway, before, after);
    }
  }

  /** After any run a gateway has an entry exactly when some call registered it as a parachain since the last
      reset, and the entry is what the last such call's bytes decode to. */
  lemma {:induction false} EntriesByRun(env: Env, calls: seq<Call>, gateway: ChainId)
    ensures EntryIs(env, calls, Registrations(env, calls, gateway), gateway, StorageAfter(env, calls).parachainIdMap)
  {
    if calls == [] {
      assert Registrations(env, calls, gateway) == {};
    } else {
      var init, last := calls[..|calls| - 1], calls[|calls| - 1];
      EntriesByRun(env, init, gateway);
      EntryAfterStep(env, init, last, gateway);
      SplitLast(calls);
    }
  }

  /** A run that leaves any given parachain registered. */
  lemma ParachainIsReachable(gateway: ChainId, id: U32) returns (env: Env, calls: seq<Call>)
    requires gateway != [0, 0, 0, 0]
    ensures var entries := StorageAfter(env, calls).parachainIdMap;
            gateway in entries && entries[gateway] == ParachainRegistration([0, 0, 0, 0], id)
  {
    env := Lenient(2).(decodeParachain := _ => Some(ParachainRegistration([0, 0, 0, 0], id)));
    calls := [START] + [Initialize(Root, gateway, [])];
    assert [START][..0] == [];
    assert Run(env, FRESH, [START]).chain.value.relay == [0, 0, 0, 0];
    ParachainRegistered(env, [START], Root, gateway, []);
    assert Answer(env, [START], Initialize(Root, gateway, [])) == Done;
  }

  // ---- Owner and halt flag --------------------------------------------------------------

  lemma {:induction false} OwnerChange(env: Env, calls: seq<Call>, origin: Origin, encodedOwner: Bytes)
    ensures var s, call := StorageAfter(env, calls), SetOwner(origin, encodedOwner);
            var out, decoded := Answer(env, calls, call), env.decodeOwner(encodedOwner);
            && (out == Failed(BadOrigin) <==> !MayAdminister(s, origin))
            && (out == Failed(OwnerDecoding) <==> MayAdminister(s, origin) && decoded.None?)
            && (out == Done <==> MayAdminister(s, origin) && decoded.Some?)
            && (out == Done ==> StorageAfter(env, calls + [call]) == s.(palletOwner := decoded.value))
  {
    RunSnoc(env, calls, SetOwner(origin, encodedOwner));
  }

  lemma {:induction false} HaltChange(env: Env, calls: seq<Call>, origin: Origin, operational: bool)
    ensures var s, call := StorageAfter(env, calls), SetOperational(origin, operational);
            var out := Answer(env, calls, call);
            && (out == Failed(BadOrigin) <==> !MayAdminister(s, origin))
            && (out == Done <==> MayAdminister(s, origin))
            && (out == Done ==> StorageAfter(env, calls + [call]) == s.(isHalted := !operational))
  {
    RunSnoc(env, calls, SetOperational(origin, operational));
  }

  /** Whoever makes a call; an encoded submission has no origin. */
  ghost predicate MadeBy(call: Call, origin: Origin) {
    !call.SubmitEncodedHeaders? && call.origin == origin
  }

  /** Neither root nor the stored owner makes the call. */
  ghost predicate ByStranger(owner: Option<AccountId>, call: Call) {
    && !MadeBy(call, Root)
    && (owner.Some? ==> !MadeBy(call, SignedBy(owner.value)))
  }

  lemma {:induction false} StrangerStep(env: Env, l: Ledger, call: Call)
    requires ByStranger(l.owner, call)
    ensures var after := Step(env, l, call).0;
            after.owner == l.owner && after.halted == l.halted && after.parachains == l.parachains
  {
  }

  /** However often accounts other than the owner call, they change neither owner nor halt flag nor the
      parachains. */
  lemma {:induction false} StrangersChangeNothing(env: Env, calls: seq<Call>, more: seq<Call>)
    requires forall k :: 0 <= k < |more| ==> ByStranger(StorageAfter(env, calls).palletOwner, more[k])
    ensures var s, after := StorageAfter(env, calls), StorageAfter(env, calls + more);
            && after.palletOwner == s.palletOwner
            && after.isHalted == s.isHalted
            && after.parachainIdMap == s.parachainIdMap
  {
    if more == [] {
      AppendNothing(calls);
    } else {
      var init, last := more[..|more| - 1], more[|more| - 1];
      StrangersChangeNothing(env, calls, init);
      SplitLast(more);
      AppendAssoc(calls, init, [last]);
      RunSnoc(env, calls + init, last);
      StrangerStep(env, Run(env, FRESH, calls + init), last);
    }
  }

  /** The owner after a call, by its answer: the one decoded, the one the registration names, or as before. */
  ghost function NextOwner(env: Env, l: Ledger, call: Call): Option<AccountId> {
    if Step(env, l, call).1 != Done then l.owner
    else
      match call
      case Reset(_) => None
      case SetOwner(_, encoded) => if env.decodeOwner(encoded).Some? then env.decodeOwner(encoded).value else l.owner
      case Initialize(_, _, registration) =>
        if l.chain.None? && env.decodeRelay(registration).Some? then Some(env.decodeRelay(registration).value.owner)
        else l.owner
      case _ => l.owner
  }

  /** The halt flag after a call, by its answer. */
  ghost function NextHalt(env: Env, l: Ledger, call: Call): bool {
    if Step(env, l, call).1 != Done then l.halted
    else
      match call
      case Reset(_) => false
      case SetOperational(_, operational) => !operational
      case Initialize(_, _, _) => l.chain.Some? && l.halted
      case _ => l.halted
  }

  lemma {:induction false} StepOwner(env: Env, l: Ledger, call: Call)
    ensures Step(env, l, call).0.owner == NextOwner(env, l, call)
  {
  }

  lemma {:induction false} StepHalt(env: Env, l: Ledger, call: Call)
    ensures Step(env, l, call).0.halted == NextHalt(env, l, call)
  {
  }

  /** Every call leaves the owner and the flag its answer stands for. */
  lemma {:induction false} OwnerByAnswer(env: Env, calls: seq<Call>, call: Call)
    ensures StorageAfter(env, calls + [call]).palletOwner == NextOwner(env, Run(env, FRESH, calls), call)
  {
    RunSnoc(env, calls, call);
    StepOwner(env, Run(env, FRESH, calls), call);
  }

  lemma {:induction false} HaltByAnswer(env: Env, calls: seq<Call>, call: Call)
    ensures StorageAfter(env, calls + [call]).isHalted == NextHalt(env, Run(env, FRESH, calls), call)
  {
    RunSnoc(env, calls, call);
    StepHalt(env, Run(env, FRESH, calls), call);
  }

  /** A decoded owner stays until the next call that can name one. */
  lemma {:induction false} OwnerStays(env: Env, calls: seq<Call>, origin: Origin, encoded: Bytes, more: seq<Call>)
    requires Answer(env, calls, SetOwner(origin, encoded)) == Done
    requires forall k :: 0 <= k < |more| ==> !more[k].SetOwner? && !more[k].Initialize? && !more[k].Reset?
    ensures env.decodeOwner(encoded).Some?
    ensures StorageAfter(env, calls + [SetOwner(origin, encoded)] + more).palletOwner == env.decodeOwner(encoded).value
  {
    var start := calls + [SetOwner(origin, encoded)];
    OwnerChange(env, calls, origin, encoded);
    if more == [] {
      AppendNothing(start);
    } else {
      var init, last := more[..|more| - 1], more[|more| - 1];
      OwnerStays(env, calls, origin, encoded, init);
      SplitLast(more);
      AppendAssoc(start, init, [last]);
      OwnerByAnswer(env, start + init, last);
    }
  }

  /** Only root resets. */
  lemma {:induction false} ResetAnswer(env: Env, calls: seq<Call>, origin: Origin)
    ensures Answer(env, calls, Reset(origin)) == if origin == Root then Done else Failed(BadOrigin)
  {
  }

  // ---- Receipts -------------------------------------------------------------------------

  /** A run after which any given event of a relay block gets its receipt. */
  lemma RelayReceiptIsReachable(payload: Bytes, header: Header) returns (env: Env, calls: seq<Call>, encoded: Bytes)
    requires payload != []
    ensures Proven(env, Run(env, FRESH, calls), [0, 0, 0, 0], encoded, None,
                   Receipt(header.number, HashOf(header), payload))
  {
    encoded := [];
    env := Lenient(2).(decodeHeader := _ => Some(header),
                       decodeRelayProof := _ => Some(RelayProof(payload, [], HashOf(header))),
                       readTrie := (_, root, key) =>
                         if root == header.stateRoot && key == SYSTEM_EVENTS_KEY then Some(payload) else None,
                       localNumber := n => Some(n));
    calls := [START];
    assert calls[..0] == [];
    assert payload <= payload[0..];
    assert Occurs(payload, payload);
  }

  /** A relay-chain receipt, said of the storage: the named block is stored, its state holds the events, the
      payload is part of them and comes from the source asked for. */
  lemma {:induction false} RelayReceiptExactly(env: Env, calls: seq<Call>, encoded: Bytes,
                                               source: Option<ExecutionSource>, receipt: Receipt)
    requires StorageAfter(env, calls).relayChainId.Some?
    ensures var s, decoded := StorageAfter(env, calls), env.decodeRelayProof(encoded);
            Proven(env, Run(env, FRESH, calls), s.relayChainId.value, encoded, source, receipt) <==>
              && decoded.Some?
              && var proof := decoded.value;
              && proof.blockHash in s.importedHeaders
              && var header := s.importedHeaders[proof.blockHash];
              && var events := env.readTrie(proof.payloadProof, header.stateRoot, SYSTEM_EVENTS_KEY);
              && events.Some?
              && (exists before, after :: events.value == before + proof.payload + after && |before| < |events.value|)
              && (source.Some? ==> Emits(source.value, proof.payload))
              && env.localNumber(header.number) == Some(receipt.height)
              && receipt == Receipt(receipt.height, proof.blockHash, proof.payload)
  {
    var c, decoded := Run(env, FRESH, calls).chain.value, env.decodeRelayProof(encoded);
    if decoded.Some? {
      var proof := decoded.value;
      RetainedIsAvailable(env.headersToStore, c, proof.blockHash);
      if proof.blockHash.HashOf? {
        var events := env.readTrie(proof.payloadProof, proof.blockHash.header.stateRoot, SYSTEM_EVENTS_KEY);
        if events.Some? {
          OccursExactly(events.value, proof.payload);
        }
      }
    }
  }

  /** A parachain receipt: the same of the head that the named relay block's state records under the key of
      the registered id. */
  lemma {:induction false} ParachainReceiptExactly(env: Env, calls: seq<Call>, gateway: ChainId, encoded: Bytes,
                                                   source: Option<ExecutionSource>, receipt: Receipt)
    requires StorageAfter(env, calls).relayChainId.Some? && StorageAfter(env, calls).relayChainId != Some(gateway)
    ensures var s, decoded := StorageAfter(env, calls), env.decodeParachainProof(encoded);
            Proven(env, Run(env, FRESH, calls), gateway, encoded, source, receipt) <==>
              && gateway in s.parachainIdMap && decoded.Some?
              && var proof := decoded.value;
              && proof.relayBlockHash in s.importedHeaders
              && var root := s.importedHeaders[proof.relayBlockHash].stateRoot;
              && var stored := env.readTrie(proof.headerProof, root,
                                            PARAS_HEADS_PREFIX + env.parachainKey(s.parachainIdMap[gateway].id));
              && stored.Some? && env.decodeBytes(stored.value).Some?
              && var head := env.decodeHeader(env.decodeBytes(stored.value).value);
              && head.Some?
              && var events := env.readTrie(proof.payloadProof, head.value.stateRoot, SYSTEM_EVENTS_KEY);
              && events.Some?
              && (exists before, after :: events.value == before + proof.payload + after && |before| < |events.value|)
              && (source.Some? ==> Emits(source.value, proof.payload))
              && env.localNumber(head.value.number) == Some(receipt.height)
              && receipt == Receipt(receipt.height, proof.relayBlockHash, proof.payload)
  {
    var l, decoded := Run(env, FRESH, calls), env.decodeParachainProof(encoded);
    if gateway in l.parachains && decoded.Some? {
      var proof := decoded.value;
      RetainedIsAvailable(env.headersToStore, l.chain.value, proof.relayBlockHash);
      if proof.relayBlockHash.HashOf? {
        var head := HeadIn(env, proof.relayBlockHash.header, proof.headerProof, l.parachains[gateway].id);
        if head.Some? {
          var events := env.readTrie(proof.payloadProof, head.value.stateRoot, SYSTEM_EVENTS_KEY);
          if events.Some? {
            OccursExactly(events.value, proof.payload);
          }
        }
      }
    }
  }
}
