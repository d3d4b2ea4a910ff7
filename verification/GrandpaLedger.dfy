/** The light client as a simple machine: it remembers which chain it was started on and the list
    of submissions it accepted since. Everything the pallet stores is a function of that
    (`Concrete`), and every call has its effect on it (`Step`). */
module GrandpaLedger {
  import opened Basics
  import opened GrandpaTypes
  import opened GrandpaChain

  datatype Chain = Chain(
    relay: ChainId,
    initial: Header,
    genesis: AuthoritySet,
    accepted: seq<Submission>)

  datatype Ledger = Ledger(
    chain: Option<Chain>,
    parachains: map<ChainId, ParachainRegistration>,
    owner: Option<AccountId>,
    halted: bool,
    counter: U32)

  const FRESH := Ledger(None, map[], None, false, 0)

  // ---- What the accepted submissions amount to ------------------------------------------

  function HeadersOf(sub: Submission): seq<Header> {
    sub.range + [sub.signed]
  }

  function Log(accepted: seq<Submission>): seq<Header> {
    if accepted == [] then []
    else Log(accepted[..|accepted| - 1]) + HeadersOf(accepted[|accepted| - 1])
  }

  /** The authority lists scheduled with zero delay by the signed headers, in order. */
  function Changes(accepted: seq<Submission>): seq<seq<Authority>> {
    if accepted == [] then []
    else
      var init, change := accepted[..|accepted| - 1], FindScheduledChange(accepted[|accepted| - 1].signed.digest);
      if change.Some? && change.value.delay == 0 then Changes(init) + [change.value.nextAuthorities]
      else Changes(init)
  }

  function AdvanceId(id: SetId, times: nat): SetId {
    if times == 0 then id else NextSetId(AdvanceId(id, times - 1))
  }

  lemma {:induction false} AdvanceIdIsSum(id: SetId, times: nat)
    ensures AdvanceId(id, times) == (id + times) % U64_SIZE
  {
    if times > 0 {
      AdvanceIdIsSum(id, times - 1);
      ModStep(id + times - 1, U64_SIZE);
    }
  }

  /** The authority set after the accepted submissions: the last list scheduled, under the first id
      advanced once per change. */
  function SetInForce(genesis: AuthoritySet, accepted: seq<Submission>): AuthoritySet {
    var changes := Changes(accepted);
    AuthoritySet(
      if changes == [] then genesis.authorities else changes[|changes| - 1],
      AdvanceId(genesis.setId, |changes|))
  }

  predicate Justified(env: Env, voters: AuthoritySet, sub: Submission) {
    && env.validVoters(voters.authorities)
    && env.verify(sub.justification, HashOf(sub.signed), sub.signed.number, voters.setId, voters.authorities)
  }

  predicate SupportedDigest(header: Header) {
    && FindForcedChange(header.digest).None?
    && (FindScheduledChange(header.digest).Some? ==> FindScheduledChange(header.digest).value.delay == 0)
  }

  // ---- What the pallet stores -----------------------------------------------------------

  ghost function Concrete(n: Capacity, l: Ledger): Storage {
    match l.chain
    case None =>
      Storage(None, None, map[], l.counter, None, map[], None, None, l.parachains, l.owner, l.halted, false)
    case Some(c) =>
      var log := Log(c.accepted);
      Storage(
        Some(HashOf(c.initial)),
        Some(Tip(HashOf(c.initial), log)),
        Ring(n, log),
        l.counter,
        Some(|log| % n),
        Retained(n, c.initial, log),
        Some(c.relay),
        Some(SetInForce(c.genesis, c.accepted)),
        l.parachains,
        l.owner,
        l.halted,
        true)
  }

  // ---- The calls ------------------------------------------------------------------------

  predicate Authorised(owner: Option<AccountId>, origin: Origin) {
    origin.Root? || (origin.SignedBy? && owner == Some(origin.account))
  }

  function InitialAuthorities(ids: seq<nat>): seq<Authority> {
    seq(|ids|, i requires 0 <= i < |ids| => (ids[i], 1))
  }

  /** Why a submission is turned down, or `None` when it is accepted. */
  ghost function Rejection(env: Env, c: Chain, sub: Submission): Option<Error> {
    var voters := SetInForce(c.genesis, c.accepted);
    var tip := Tip(HashOf(c.initial), Log(c.accepted));
    if !env.validVoters(voters.authorities) then Some(InvalidAuthoritySet)
    else if !Justified(env, voters, sub) then Some(InvalidGrandpaJustification)
    else if !SupportedDigest(sub.signed) then Some(UnsupportedScheduledChange)
    else if !Linked(tip, sub.range) then Some(InvalidRangeLinkage)
    else if sub.signed.parentHash != Tip(tip, sub.range) then Some(InvalidJustificationLinkage)
    else None
  }

  ghost function Submit(env: Env, l: Ledger, sub: Submission): (Ledger, Option<Error>) {
    match l.chain
    case None => (l, Some(NoFinalizedHeader))
    case Some(c) =>
      var rejection := Rejection(env, c, sub);
      if rejection.Some? then (l, rejection)
      else (l.(chain := Some(c.(accepted := c.accepted + [sub]))), None)
  }

  function SaturatingSucc(x: U32): U32 {
    if x == U32_MAX then x else x + 1
  }

  ghost function RegisterParachain(env: Env, l: Ledger, gateway: ChainId, registration: Bytes): (Ledger, Outcome)
    requires l.chain.Some?
  {
    var entry := env.decodeParachain(registration);
    if gateway == l.chain.value.relay then (l, Failed(ChainIdAlreadyInitialized))
    else if entry.None? then (l, Failed(ParachainDecoding))
    else if entry.value.relay != l.chain.value.relay then (l, Failed(InvalidRelayChainId))
    else (l.(parachains := l.parachains[gateway := entry.value]), Done)
  }

  ghost function RegisterRelay(env: Env, l: Ledger, gateway: ChainId, registration: Bytes): (Ledger, Outcome) {
    var data := env.decodeRelay(registration);
    if data.None? then (l, Failed(RelayDecoding))
    else
      var header := env.decodeHeader(data.value.firstHeader);
      if header.None? then (l, Failed(FirstHeaderDecoding))
      else
        var genesis := AuthoritySet(InitialAuthorities(data.value.authorities), data.value.setId);
        (l.(chain := Some(Chain(gateway, header.value, genesis, [])),
            owner := Some(data.value.owner),
            halted := false),
         Done)
  }

  ghost function Initialized(env: Env, l: Ledger, origin: Origin, gateway: ChainId, registration: Bytes)
    : (Ledger, Outcome)
  {
    if !Authorised(l.owner, origin) then (l, Failed(BadOrigin))
    else if l.chain.Some? then RegisterParachain(env, l, gateway, registration)
    else RegisterRelay(env, l, gateway, registration)
  }

  /** The counter moves, and the fee is waived, unless the submission is a whole number of ring
      lengths. The halt flag plays no part. */
  ghost function HeadersSubmitted(env: Env, l: Ledger, origin: Origin, sub: Submission): (Ledger, Outcome) {
    var (after, rejection) := Submit(env, l, sub);
    if !origin.SignedBy? then (l, Failed(BadOrigin))
    else if rejection.Some? then (l, Failed(rejection.value))
    else if |HeadersOf(sub)| % env.headersToStore == 0 then (after, Accepted(true))
    else (after.(counter := SaturatingSucc(l.counter)), Accepted(false))
  }

  ghost function EncodedHeadersSubmitted(env: Env, l: Ledger, encoded: Bytes): (Ledger, Outcome) {
    if l.halted then (l, Failed(Halted))
    else if env.decodeSubmission(encoded).None? then (l, Failed(HeaderDataDecoding))
    else
      var (after, rejection) := Submit(env, l, env.decodeSubmission(encoded).value);
      if rejection.Some? then (l, Failed(rejection.value)) else (after, Done)
  }

  function OwnerSet(env: Env, l: Ledger, origin: Origin, encodedOwner: Bytes): (Ledger, Outcome) {
    if !Authorised(l.owner, origin) then (l, Failed(BadOrigin))
    else if env.decodeOwner(encodedOwner).None? then (l, Failed(OwnerDecoding))
    else (l.(owner := env.decodeOwner(encodedOwner).value), Done)
  }

  function OperationalSet(l: Ledger, origin: Origin, operational: bool): (Ledger, Outcome) {
    if !Authorised(l.owner, origin) then (l, Failed(BadOrigin))
    else (l.(halted := !operational), Done)
  }

  function ResetDone(l: Ledger, origin: Origin): (Ledger, Outcome) {
    if !origin.Root? then (l, Failed(BadOrigin))
    else (FRESH.(counter := l.counter), Done)
  }

  ghost function Step(env: Env, l: Ledger, call: Call): (Ledger, Outcome) {
    match call
    case Initialize(origin, gateway, registration) => Initialized(env, l, origin, gateway, registration)
    case SubmitHeaders(origin, sub) => HeadersSubmitted(env, l, origin, sub)
    case SubmitEncodedHeaders(encoded) => EncodedHeadersSubmitted(env, l, encoded)
    case SetOwner(origin, encodedOwner) => OwnerSet(env, l, origin, encodedOwner)
    case SetOperational(origin, operational) => OperationalSet(l, origin, operational)
    case Reset(origin) => ResetDone(l, origin)
  }

  ghost function Run(env: Env, l: Ledger, calls: seq<Call>): Ledger {
    if calls == [] then l
    else Step(env, Run(env, l, calls[..|calls| - 1]), calls[|calls| - 1]).0
  }

  // ---- One more accepted submission -----------------------------------------------------

  lemma {:induction false} LogSnoc(accepted: seq<Submission>, sub: Submission)
    ensures Log(accepted + [sub]) == Log(accepted) + HeadersOf(sub)
  {
    assert (accepted + [sub])[..|accepted|] == accepted;
  }

  /** The pointer is back where it was exactly when a whole number of ring lengths was imported. */
  lemma {:induction false} PointerReturns(n: Capacity, accepted: seq<Submission>, sub: Submission)
    ensures |Log(accepted)| % n == |Log(accepted + [sub])| % n <==> |HeadersOf(sub)| % n == 0
  {
    LogSnoc(accepted, sub);
    ModReturns(|Log(accepted)|, |HeadersOf(sub)|, n);
  }

  /** Enacting a header's change moves the set in force on by one; no change leaves it. */
  lemma SetInForceSnoc(genesis: AuthoritySet, accepted: seq<Submission>, sub: Submission)
    requires SupportedDigest(sub.signed)
    ensures var change := FindScheduledChange(sub.signed.digest);
            var voters := SetInForce(genesis, accepted);
            SetInForce(genesis, accepted + [sub])
            == if change.Some? then AuthoritySet(change.value.nextAuthorities, NextSetId(voters.setId))
               else voters
  {
    assert (accepted + [sub])[..|accepted|] == accepted;
  }

  // ---- Every run ------------------------------------------------------------------------

  /** Each accepted submission was justified under the set in force just before it, and its signed
      header carried nothing the client does not support. */
  ghost predicate Endorsed(env: Env, c: Chain, k: nat)
    requires k < |c.accepted|
  {
    && Justified(env, SetInForce(c.genesis, c.accepted[..k]), c.accepted[k])
    && SupportedDigest(c.accepted[k].signed)
  }

  ghost predicate WellFormedChain(env: Env, c: Chain) {
    && Linked(HashOf(c.initial), Log(c.accepted))
    && forall k :: 0 <= k < |c.accepted| ==> Endorsed(env, c, k)
  }

  ghost predicate WellFormed(env: Env, l: Ledger) {
    match l.chain
    case None => l.parachains == map[]
    case Some(c) =>
      && WellFormedChain(env, c)
      && c.relay !in l.parachains
      && forall id :: id in l.parachains ==> l.parachains[id].relay == c.relay
  }

  lemma AcceptKeepsChain(env: Env, c: Chain, sub: Submission)
    requires WellFormedChain(env, c) && Rejection(env, c, sub).None?
    ensures WellFormedChain(env, c.(accepted := c.accepted + [sub]))
  {
    var after := c.(accepted := c.accepted + [sub]);
    var parent, log := HashOf(c.initial), Log(c.accepted);
    LogSnoc(c.accepted, sub);
    LinkedAppend(Tip(parent, log), sub.range, [sub.signed]);
    LinkedAppend(parent, log, HeadersOf(sub));
    forall k | 0 <= k < |after.accepted| ensures Endorsed(env, after, k) {
      assert after.accepted[..k] == c.accepted[..k];
      if k < |c.accepted| {
        assert Endorsed(env, c, k);
      } else {
        assert c.accepted[..k] == c.accepted;
      }
    }
  }

  lemma StepKeepsWellFormed(env: Env, l: Ledger, call: Call)
    requires WellFormed(env, l)
    ensures WellFormed(env, Step(env, l, call).0)
  {
    if l.chain.Some? {
      var c := l.chain.value;
      match call {
        case SubmitHeaders(_, sub) =>
          if Rejection(env, c, sub).None? { AcceptKeepsChain(env, c, sub); }
        case SubmitEncodedHeaders(encoded) =>
          var sub := env.decodeSubmission(encoded);
          if sub.Some? && Rejection(env, c, sub.value).None? { AcceptKeepsChain(env, c, sub.value); }
        case _ =>
      }
    }
  }

  lemma {:induction false} RunKeepsWellFormed(env: Env, l: Ledger, calls: seq<Call>)
    requires WellFormed(env, l)
    ensures WellFormed(env, Run(env, l, calls))
  {
    if calls != [] {
      var init := calls[..|calls| - 1];
      RunKeepsWellFormed(env, l, init);
      StepKeepsWellFormed(env, Run(env, l, init), calls[|calls| - 1]);
    }
  }
}
