/** The values the GRANDPA light client stores and receives. */
module GrandpaTypes {
  import opened Basics

  type AccountId = nat
  type TrieRoot = nat
  type Authority = (nat, nat)
  type Justification = Bytes
  type StorageProof = Bytes

  datatype ScheduledChange = ScheduledChange(nextAuthorities: seq<Authority>, delay: nat)

  /** A digest log, already classified: a GRANDPA scheduled change, a GRANDPA forced change, or
      anything that does not decode as either. */
  datatype DigestItem =
    | Scheduled(change: ScheduledChange)
    | Forced(median: nat, change: ScheduledChange)
    | OtherLog

  /** An ideal hash: it determines the header it was taken of, so no two headers collide and no
      header can name its own hash as an ancestor. `Raw` is a word that is no header's hash. */
  datatype Hash = HashOf(header: Header) | Raw(word: nat)

  datatype Header = Header(
    parentHash: Hash,
    number: nat,
    stateRoot: TrieRoot,
    extrinsicsRoot: TrieRoot,
    digest: seq<DigestItem>)

  const DEFAULT_HASH := Raw(0)
  const DUMMY_HEADER := Header(DEFAULT_HASH, 0, 0, 0, [])

  type SetId = x: int | 0 <= x < U64_SIZE

  /** `set_id + 1`, a u64 that wraps around. */
  function NextSetId(id: SetId): SetId {
    if id == U64_SIZE - 1 then 0 else id + 1
  }

  datatype AuthoritySet = AuthoritySet(authorities: seq<Authority>, setId: SetId)

  datatype Submission = Submission(range: seq<Header>, signed: Header, justification: Justification)

  datatype RelayRegistration = RelayRegistration(
    firstHeader: Bytes,
    authorities: seq<nat>,
    setId: SetId,
    owner: AccountId)

  datatype ParachainRegistration = ParachainRegistration(relay: ChainId, id: U32)

  datatype RelayProof = RelayProof(payload: Bytes, payloadProof: StorageProof, blockHash: Hash)

  datatype ParachainProof = ParachainProof(
    payload: Bytes,
    headerProof: StorageProof,
    payloadProof: StorageProof,
    relayBlockHash: Hash)

  /** `HeadersToStore`, a positive u32. */
  type Capacity = n: int | 0 < n <= U32_MAX witness 1

  /** The runtime around the pallet. Every function here is foreign code about which nothing is
      assumed: the results hold for every choice of them. */
  datatype Env = Env(
    headersToStore: Capacity,
    validVoters: seq<Authority> -> bool,
    verify: (Justification, Hash, nat, SetId, seq<Authority>) -> bool,
    decodeRelay: Bytes -> Option<RelayRegistration>,
    decodeParachain: Bytes -> Option<ParachainRegistration>,
    decodeHeader: Bytes -> Option<Header>,
    decodeSubmission: Bytes -> Option<Submission>,
    decodeOwner: Bytes -> Option<Option<AccountId>>,
    decodeRelayProof: Bytes -> Option<RelayProof>,
    decodeParachainProof: Bytes -> Option<ParachainProof>,
    decodeBytes: Bytes -> Option<Bytes>,
    readTrie: (StorageProof, TrieRoot, Bytes) -> Option<Bytes>,
    parachainKey: U32 -> Bytes,
    localNumber: nat -> Option<nat>)

  datatype Error =
    | BadOrigin
    | ChainIdAlreadyInitialized
    | RelayChainAlreadyInitialized
    | ParachainDecoding
    | InvalidRelayChainId
    | RelayDecoding
    | FirstHeaderDecoding
    | OwnerDecoding
    | Halted
    | HeaderDataDecoding
    | NoFinalizedHeader
    | InvalidAuthoritySet
    | InvalidGrandpaJustification
    | UnsupportedScheduledChange
    | InvalidRangeLinkage
    | InvalidJustificationLinkage
    | UnknownHeader
    | ParachainEntryNotFound
    | InvalidStorageProof
    | HeaderDecoding
    | EventNotIncluded
    | UnexpectedEventLength
    | UnexpectedSource
    | BlockNumberDecoding

  datatype Origin = Root | SignedBy(account: AccountId) | Unsigned

  /** What a call hands back: plain success, success of a fee-bearing call, or the error. */
  datatype Outcome = Done | Accepted(paysFee: bool) | Failed(error: Error)

  datatype Call =
    | Initialize(origin: Origin, gateway: ChainId, registration: Bytes)
    | SubmitHeaders(origin: Origin, submission: Submission)
    | SubmitEncodedHeaders(encoded: Bytes)
    | SetOwner(origin: Origin, encodedOwner: Bytes)
    | SetOperational(origin: Origin, operational: bool)
    | Reset(origin: Origin)

  /** The pallet's storage as one value: what `#[transactional]` saves and restores. */
  datatype Storage = Storage(
    initialHash: Option<Hash>,
    bestFinalizedHash: Option<Hash>,
    importedHashes: map<nat, Hash>,
    submissionsCounter: U32,
    importedHashesPointer: Option<nat>,
    importedHeaders: map<Hash, Header>,
    relayChainId: Option<ChainId>,
    currentAuthoritySet: Option<AuthoritySet>,
    parachainIdMap: map<ChainId, ParachainRegistration>,
    palletOwner: Option<AccountId>,
    isHalted: bool,
    everInitialized: bool)

  /** The first scheduled change among the digest logs. */
  function FindScheduledChange(logs: seq<DigestItem>): Option<ScheduledChange> {
    if logs == [] then None
    else if logs[0].Scheduled? then Some(logs[0].change)
    else FindScheduledChange(logs[1..])
  }

  /** The first forced change among the digest logs. */
  function FindForcedChange(logs: seq<DigestItem>): Option<ScheduledChange> {
    if logs == [] then None
    else if logs[0].Forced? then Some(logs[0].change)
    else FindForcedChange(logs[1..])
  }

  /** Either search comes back with the first log of its kind, or with nothing when there is none. */
  lemma {:induction false} FindsFirst(logs: seq<DigestItem>, i: nat)
    requires i <= |logs|
    ensures (forall j :: 0 <= j < i ==> !logs[j].Scheduled?) ==>
              FindScheduledChange(logs) == if i == |logs| then None
                                           else if logs[i].Scheduled? then Some(logs[i].change)
                                           else FindScheduledChange(logs[i + 1..])
    ensures (forall j :: 0 <= j < i ==> !logs[j].Forced?) ==>
              FindForcedChange(logs) == if i == |logs| then None
                                        else if logs[i].Forced? then Some(logs[i].change)
                                        else FindForcedChange(logs[i + 1..])
  {
    if i > 0 {
      FindsFirst(logs[1..], i - 1);
      assert forall j :: 0 <= j < |logs| - 1 ==> logs[1..][j] == logs[j + 1];
      assert i < |logs| ==> logs[1..][i..] == logs[i + 1..];
    }
  }
}
