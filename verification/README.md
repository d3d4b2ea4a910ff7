# Verified model of the t3rn primitives and the GRANDPA light client

This project models, in Dafny, the parts of t3rn on which its cross-chain guarantees rest, and
proves what they promise:

* **The GRANDPA header store** (`Grandpa*.dfy`). An on-chain light client that imports ranges of
  relay-chain headers into a ring buffer, follows authority hand-offs, registers parachains and
  hands out inclusion receipts. `GrandpaLedger` is a simple machine that only remembers the list of
  accepted submissions. `GrandpaPallet` is the pallet: storage items updated one at a time, in the
  order the source updates them, with rollback on failure. Every method of the pallet is proved to
  have exactly the effect the simple machine gives its call, and `Execute` does the same for any
  sequence of calls, so that the storage after any run is the function `Concrete` of the list of
  accepted submissions. `GrandpaChain` says what the ring and the header map are for a given list,
  and `GrandpaRuns` draws the consequences for every run. `GrandpaAnswers` says what every call answers
  and leaves behind in any state a run reaches, in terms of the storage and of what was passed in.
* **The DFD and signature parsers** (`Match*.dfy`, `DfdGrammar.dfy`). The loops of `match_format.rs`
  against the unique splitting of a text into delimited fields, against a bracket grammar with its
  tree meaning, and against printers they undo.
* **Confirmation of cross-chain transactions** (`Xtx.dfy`, `SideEffectIds.dfy`). The nested mutating
  scan, over every run of confirmation attempts, and the identifiers it compares.
* **Supporting cores**: escrowed transfers (`Transfers.dfy`, `AccountIds.dfy`, `Endian.dfy`), the precompile codec
  (`PortalCodec.dfy`), the side-effect decoder (`SfxDecoder.dfy`), `OrderedSet` (`OrderedSets.dfy`)
  and the signal bounce counter (`Signals.dfy`).

`dafny verify dfyconfig.toml` checks everything.

## Modelling choices

* Header hashes are ideal: `HashOf(header)` determines its header. A header linked by parent hash
  therefore never repeats along a chain, and a hash stands for one header wherever it is stored or
  looked up.
* Foreign code (justification checks, SCALE decoding of call data, the trie reader, key hashing) is a
  record of arbitrary functions, `Env`. Every result holds for all choices of them. The hash behind
  side-effect ids is an arbitrary function too; where it must be injective a lemma says so.
* `#[transactional]` is a snapshot of the storage and its restoration. `HeadersToStore` is any
  positive u32. `set_id` is a u64 that wraps around, `SubmissionsCounter` a u32 that saturates.
* A Rust panic (a split past the end of a buffer, an account id of the wrong width, a value that does
  not fit a u32) is an explicit result, never a precondition. `Panic` shows the storage at the moment
  of the panic; a host that discards the writes of a panicking call goes on from the state before it.
* The currency is balances under an existential deposit. A transfer between two different accounts
  fails when the payer has too little, when the payee would stay below the deposit, or when the payer
  would fall below it.
* No proof uses Dafny's automatic induction: every lemma for which Dafny would attempt it says
  `{:induction false}`.
* The loops of `verify_and_store_headers` and `match_dfd` are cut into helper methods at the places
  where the source has a comment or a block; the order of effects is the source's.

Where the code and its comments disagree, the model follows the code:

* The comment on `submit_headers` says an accepted range pays no fee. It pays when the number of
  headers is a multiple of `HeadersToStore` (`FeeFollowsPointer`, `AcceptedMayPay`).
* The comment on `IsHalted` says a halted pallet fails all transactions. Only
  `submit_encoded_headers` looks at the flag (`HaltStopsEncodedOnly`, `HaltedChainGrows`,
  `HaltedMayAccept`).
* Scheduled changes are looked for in signed headers only. One carried by a range header is skipped
  (`EnactsWholeChainExactly`, `RangeChangeIsSkipped`, `SplitIsSameExactly`).
* The decoder of side effects drops one byte before the data of a call. That is the length only for
  data of fewer than 64 bytes, and never for a Wasm call without a storage limit
  (`CallDataComesBack`, `WasmCallWithoutLimit`).

## Model

| member | source | states |
|---|---|---|
| GrandpaTypes.FindsFirst | finality-verifiers/grandpa/src/lib.rs:870-887 | the digest searches for scheduled and forced changes return the first log of their kind, or nothing when there is none |
| GrandpaChain.HashesDistinct | finality-verifiers/grandpa/src/lib.rs:552-567 | headers linked by parent hash never repeat a hash, nor the hash they started from |
| GrandpaChain.RingAfterAppend | finality-verifiers/grandpa/src/lib.rs:484-492 | overwriting slot (number of headers mod N) keeps the ring equal to "latest header per slot" |
| GrandpaChain.EvictedIsOldest | finality-verifiers/grandpa/src/lib.rs:476-481 | the slot about to be overwritten is occupied exactly when N headers were imported, and then holds the oldest header of the window |
| GrandpaChain.RetainedAfterAppend | finality-verifiers/grandpa/src/lib.rs:470-494 | removing the evicted header and inserting the new one leaves exactly the initial header and the last N |
| GrandpaChain.RingRefinesLog | finality-verifiers/grandpa/src/lib.rs:228-250 | slot i mod N holds the hash of the latest such header, neither map has dangling or missing entries, exactly min(count, N) + 1 headers are kept, the best one among them |
| GrandpaChain.RetentionWindow | finality-verifiers/grandpa/src/lib.rs:476-492 | header i is kept if and only if fewer than N headers followed it; the initial header is kept for good |
| GrandpaLedger.SetInForceSnoc | finality-verifiers/grandpa/src/lib.rs:376-392 | enacting the signed header's scheduled change turns the set in force into the scheduled one under the next id |
| GrandpaLedger.AcceptKeepsChain | finality-verifiers/grandpa/src/lib.rs:545-586 | an accepted submission keeps the chain linked and every accepted header endorsed by the set before it |
| GrandpaLedger.StepKeepsWellFormed | finality-verifiers/grandpa/src/lib.rs:287-356 | every call keeps linkage, endorsement and registration consistency |
| GrandpaLedger.RunKeepsWellFormed | finality-verifiers/grandpa/src/lib.rs:287-356 | so does every sequence of calls |
| GrandpaPallet.Pallet.WriteAndCleanHeaderData | finality-verifiers/grandpa/src/lib.rs:470-494 | if the maps agreed with a list that the header extends, they agree with the extended list, and the index is the next slot |
| GrandpaPallet.Pallet.TryEnactAuthorityChangeSingle | finality-verifiers/grandpa/src/lib.rs:364-403 | fails exactly on forced or delayed changes; otherwise writes the scheduled set, or nothing |
| GrandpaPallet.Pallet.VerifyJustificationSingle | finality-verifiers/grandpa/src/lib.rs:411-433 | unusable voter sets and unverified justifications are told apart, in this order |
| GrandpaPallet.Pallet.VerifyAndEnact | finality-verifiers/grandpa/src/lib.rs:520-546 | passes exactly submissions endorsed by the current set with a supported digest, and has then enacted their change |
| GrandpaPallet.Pallet.StoreRange | finality-verifiers/grandpa/src/lib.rs:548-567 | succeeds exactly on a range linked to the best header, and then both maps are those of the extended chain |
| GrandpaPallet.Pallet.StoreSigned | finality-verifiers/grandpa/src/lib.rs:570-586 | the signed header is imported like any other, becomes the best one, and the pointer is the next slot |
| GrandpaPallet.Pallet.StoreLinked | finality-verifiers/grandpa/src/lib.rs:546-586 | either linkage error, told apart, or the maps, best hash and pointer of the chain with the whole submission on top |
| GrandpaPallet.Pallet.StoreHeaders | finality-verifiers/grandpa/src/lib.rs:507-590 | returns the first applicable error of the declarative verdict, or has imported the whole submission |
| GrandpaPallet.Pallet.VerifyAndStoreHeaders | finality-verifiers/grandpa/src/lib.rs:507-590 | accepted: the submission is appended; rejected: the whole storage is unchanged, although the authority set may have been written |
| GrandpaPallet.Pallet.SubmitHeaders | finality-verifiers/grandpa/src/lib.rs:300-339 | the effect on the simple machine, with fee and counter decided by whether N divides the number of headers |
| GrandpaPallet.Pallet.SubmitEncodedHeaders | finality-verifiers/grandpa/src/lib.rs:719-731 | the same import behind the halt flag and the decoder; failures change nothing |
| GrandpaPallet.Pallet.BestFinalizedMap | finality-verifiers/grandpa/src/lib.rs:596-607 | with a chain registered, the header whose hash is the tip of the chain; the dummy only without one |
| GrandpaPallet.Pallet.EnsureOwnerOrRoot | finality-verifiers/grandpa/src/lib.rs:890-901 | root or the current owner, nobody else |
| GrandpaPallet.Pallet.InitializeRelayChain | finality-verifiers/grandpa/src/lib.rs:437-467 | refused exactly when a chain is registered; otherwise the client starts on the given header |
| GrandpaPallet.Pallet.Initialize | finality-verifiers/grandpa/src/lib.rs:630-682 | registers relay chain or parachain; the refusal inside `initialize_relay_chain` is unreachable |
| GrandpaPallet.Pallet.InitializeParachain | finality-verifiers/grandpa/src/lib.rs:638-653 | an entry is written exactly for another id whose registration decodes and names the current relay chain |
| GrandpaPallet.Pallet.SetOwner | finality-verifiers/grandpa/src/lib.rs:687-708 | owner or root replaces or removes the owner; everything else is untouched |
| GrandpaPallet.Pallet.SetOperational | finality-verifiers/grandpa/src/lib.rs:713-717 | owner or root sets the halt flag; everything else is untouched |
| GrandpaPallet.Pallet.Reset | finality-verifiers/grandpa/src/lib.rs:342-356 | root returns everything but the submissions counter to fresh |
| GrandpaPallet.Pallet.Execute | finality-verifiers/grandpa/src/lib.rs:287-356 | after any sequence of calls the storage is the one determined by what the simple machine reaches |
| GrandpaPallet.Pallet.VerifyHeaderStorageProof | finality-verifiers/grandpa/src/lib.rs:974-1001 | the recorded head, an unknown header, an unreadable proof and an undecodable head, told apart |
| GrandpaPallet.Pallet.VerifyEventStorageProof | finality-verifiers/grandpa/src/lib.rs:950-972 | the payload exactly when it occurs in the proven events; an unreadable proof told apart |
| GrandpaPallet.Pallet.ConfirmEvent | finality-verifiers/grandpa/src/lib.rs:815-826 | a receipt exactly when the event, its source and the height all check out; otherwise the error of the first check that fails |
| GrandpaPallet.Pallet.ConfirmOnRelay | finality-verifiers/grandpa/src/lib.rs:783-797 | the relay-chain branch: unknown header, receipt or first error |
| GrandpaPallet.Pallet.ConfirmOnParachain | finality-verifiers/grandpa/src/lib.rs:798-813 | the parachain branch: unknown header, receipt or first error |
| GrandpaPallet.Pallet.ConfirmEventInclusion | finality-verifiers/grandpa/src/lib.rs:776-827 | a receipt if and only if what it says is proven under a header that is the initial one or among the last N of the finalized chain; otherwise the error of the first check that fails |
| GrandpaInclusion.IsSub | finality-verifiers/grandpa/src/lib.rs:1003-1011 | true if and only if the needle starts at some offset before the end of the haystack; an empty haystack contains nothing |
| GrandpaInclusion.OccursExactly | finality-verifiers/grandpa/src/lib.rs:1003-1011 | occurring means standing between something and something, before the end |
| GrandpaInclusion.StorageKeys | finality-verifiers/grandpa/src/lib.rs:955-989 | the two storage keys in hexadecimal |
| GrandpaInclusion.CheckVmSource | finality-verifiers/grandpa/src/lib.rs:738-774 | accepts exactly EVM logs of a zero-padded source and contract events of any other source; too short messages are told apart |
| GrandpaInclusion.EvmEmits | finality-verifiers/grandpa/src/lib.rs:746-759 | a message of event index 0 that names an address comes from that address zero-padded, and from no other |
| GrandpaInclusion.ContractEmits | finality-verifiers/grandpa/src/lib.rs:760-773 | a message of event index 3 that names any other account comes from it, and from no other |
| GrandpaRuns.StoreFollowsChain | finality-verifiers/grandpa/src/lib.rs:507-590 | after any run: one unbroken chain from the initial to the best hash, the best header present, pointer, ring and header map exactly those of the chain |
| GrandpaRuns.ChangesCountHandOffs | finality-verifiers/grandpa/src/lib.rs:376-392 | one recorded change for each accepted signed header with a zero-delay scheduled change |
| GrandpaRuns.AuthorityHandOff | finality-verifiers/grandpa/src/lib.rs:364-403 | after any run the set id is the initial id plus the number of hand-offs (mod 2^64), and the authorities are those of the last hand-off |
| GrandpaRuns.AcceptedOnPriorSet | finality-verifiers/grandpa/src/lib.rs:531-546 | after any run each accepted signed header was justified under the set in force just before it, and carried no forced or delayed change |
| GrandpaRuns.EnactsWholeChainExactly | finality-verifiers/grandpa/src/lib.rs:531-567 | after any run the client has enacted every change its chain schedules if and only if no header of a range schedules one |
| GrandpaRuns.RangeChangeIsSkipped | finality-verifiers/grandpa/src/lib.rs:546-567 | a reachable state whose chain schedules a change that was not enacted, because a range header carries it |
| GrandpaRuns.ChainSupportedExactly | finality-verifiers/grandpa/src/lib.rs:364-375 | after any run the whole chain is free of forced and delayed changes if and only if the headers of the ranges are |
| GrandpaRuns.ForcedMayPass | finality-verifiers/grandpa/src/lib.rs:546-567 | a reachable state whose chain holds any given forced change, because a range header carries it |
| GrandpaRuns.RegistrationConsistent | finality-verifiers/grandpa/src/lib.rs:630-682 | after any run the storage items of a chain are all set or all unset, the relay is no parachain, every parachain entry names it |
| GrandpaRuns.ResetIsFresh | finality-verifiers/grandpa/src/lib.rs:342-356 | a reset after any run leaves fresh storage but for the counter |
| GrandpaRuns.CounterNeverDecreases | finality-verifiers/grandpa/src/lib.rs:330-333 | no continuation of a run, resets included, lowers the submissions counter |
| GrandpaRuns.ChainOnlyGrows | finality-verifiers/grandpa/src/lib.rs:552-586 | until root resets, the finalized chain of a run is a prefix of that of any continuation |
| GrandpaRuns.RetainedUntilNMore | finality-verifiers/grandpa/src/lib.rs:470-494 | over any continuation, a header is available until exactly N more headers have been imported |
| GrandpaRuns.EntryIsKept | finality-verifiers/grandpa/src/lib.rs:638-653 | over any continuation without a reset or a new registration of it, a parachain keeps its entry |
| GrandpaRuns.ReceiptLifetime | finality-verifiers/grandpa/src/lib.rs:776-827 | over any continuation, a receipt of the relay chain or of a parachain not registered anew can be had again until exactly N more headers have followed its relay block |
| GrandpaRuns.HaltStopsEncodedOnly | finality-verifiers/grandpa/src/lib.rs:719-731 | in a halted state a call fails for being halted if and only if it is `submit_encoded_headers` |
| GrandpaRuns.HaltedChainGrows | finality-verifiers/grandpa/src/lib.rs:300-339 | over any continuation that does not resume it, a halted client stays halted and its chain grows by exactly the headers of the accepted `submit_headers` calls |
| GrandpaRuns.HaltedMayAccept | finality-verifiers/grandpa/src/lib.rs:300-339 | a reachable halted state in which `submit_headers` is accepted |
| GrandpaRuns.SplitIsHarmless | finality-verifiers/grandpa/src/lib.rs:546-586 | two submissions, the first scheduling nothing, are accepted exactly when their join is, and leave the same storage |
| GrandpaRuns.SplitIsSameExactly | finality-verifiers/grandpa/src/lib.rs:546-586 | of two submissions and their join, all acceptable, the storage is the same if and only if the first schedules nothing |
| GrandpaRuns.FeeFollowsPointer | finality-verifiers/grandpa/src/lib.rs:311-338 | an accepted submission pays if and only if N divides its number of headers, if and only if the pointer did not move; shorter ones never pay |
| GrandpaRuns.AcceptedMayPay | finality-verifiers/grandpa/src/lib.rs:298-338 | a reachable state and an accepted submission that pays the fee |
| GrandpaAnswers.FailureChangesNothing | finality-verifiers/grandpa/src/lib.rs:287-356 | after any run, a call of any kind that fails leaves the storage as it was |
| GrandpaAnswers.AcceptedExactly | finality-verifiers/grandpa/src/lib.rs:364-403 | after any run, a submission is accepted if and only if it is signed for, the stored set vouches for it, no log of the signed digest is a forced change, the first scheduled change, if any, has no delay, and every header names its predecessor; then the scheduled list is the stored set under the next id |
| GrandpaAnswers.RefusedExactly | finality-verifiers/grandpa/src/lib.rs:520-586 | after any run, which of the refusals a submission gets, each as an if-and-only-if |
| GrandpaAnswers.HandOffIsReachable | finality-verifiers/grandpa/src/lib.rs:376-392 | a run that hands off to any given list of authorities |
| GrandpaAnswers.EncodedIsPlain | finality-verifiers/grandpa/src/lib.rs:719-731 | after any run that left the client operational, an encoded submission gets the same error, or leaves the same storage but for the counter, as the submission it decodes to |
| GrandpaAnswers.EncodedRefusals | finality-verifiers/grandpa/src/lib.rs:719-731 | halted if and only if the flag is set, then a decoding error if and only if the bytes do not decode |
| GrandpaAnswers.LogIsImports | finality-verifiers/grandpa/src/lib.rs:546-586 | from the registration of the relay chain on, over any continuation without a reset, the chain is exactly the headers of the submissions accepted through either call, in order |
| GrandpaAnswers.RelayRegistered | finality-verifiers/grandpa/src/lib.rs:656-682 | without a chain, each answer of a registration as an if-and-only-if, and the whole storage it leaves: first header, pointer, owner, flag, and each authority id with weight 1 |
| GrandpaAnswers.ParachainRegistered | finality-verifiers/grandpa/src/lib.rs:638-653 | with a chain, each answer of a registration as an if-and-only-if, and the entry it writes |
| GrandpaAnswers.EntriesByRun | finality-verifiers/grandpa/src/lib.rs:638-653 | after any run a gateway has an entry if and only if some call registered it as a parachain since the last reset, and the entry is what the last such call decodes to |
| GrandpaAnswers.ParachainIsReachable | finality-verifiers/grandpa/src/lib.rs:638-653 | a run that leaves any given parachain registered |
| GrandpaAnswers.OwnerChange | finality-verifiers/grandpa/src/lib.rs:687-708 | after any run, each answer of a change of owner as an if-and-only-if, and the owner it leaves |
| GrandpaAnswers.HaltChange | finality-verifiers/grandpa/src/lib.rs:713-717 | after any run, who may set the flag, and the flag it leaves |
| GrandpaAnswers.StrangersChangeNothing | finality-verifiers/grandpa/src/lib.rs:890-901 | over any continuation made by neither root nor the stored owner, owner, flag and parachains stay |
| GrandpaAnswers.OwnerByAnswer | finality-verifiers/grandpa/src/lib.rs:687-708 | the owner after any call, by what the call answered |
| GrandpaAnswers.OwnerStays | finality-verifiers/grandpa/src/lib.rs:687-708 | a decoded owner stays until the next call that can name one |
| GrandpaAnswers.HaltByAnswer | finality-verifiers/grandpa/src/lib.rs:713-717 | the halt flag after any call, by what the call answered |
| GrandpaAnswers.ResetAnswer | finality-verifiers/grandpa/src/lib.rs:342-356 | only root resets |
| GrandpaAnswers.RelayReceiptExactly | finality-verifiers/grandpa/src/lib.rs:776-827 | after any run, a relay-chain receipt, said of the stored header, the trie, the position of the payload in the events, the source and the height |
| GrandpaAnswers.ParachainReceiptExactly | finality-verifiers/grandpa/src/lib.rs:776-827 | the same through the head that a stored relay header records for the registered id |
| GrandpaAnswers.RelayReceiptIsReachable | finality-verifiers/grandpa/src/lib.rs:776-827 | a run after which any given event of a relay block gets its receipt |
| MatchTokens.TrimWhitespace | primitives/src/match_format.rs:39-54 | removing elements in place leaves exactly the characters that are no white space, in order |
| MatchTokens.Characters | primitives/src/match_format.rs:12-16 | the white space and the delimiters as characters |
| MatchTokens.SplitIsFaithful | primitives/src/match_format.rs:65-89 | cutting at delimiters loses nothing and leaves no delimiter in a word |
| MatchTokens.SplitIsUnique | primitives/src/match_format.rs:65-89 | and no other list of fields stands for the same text |
| MatchSignature.CheckOverallSanity | primitives/src/match_format.rs:21-36 | passes exactly texts whose last character other than white space is a closing bracket |
| MatchSignature.MatchSignature | primitives/src/match_format.rs:56-98 | returns the name and arguments of the fields, or the error of the first faulty field |
| MatchSignature.AcceptedExactly | primitives/src/match_format.rs:56-98 | accepted if and only if sane, all words non-empty and the first delimiter opens; then name and at least one argument, all non-empty and delimiter-free |
| MatchSignature.SanityExactly | primitives/src/match_format.rs:21-36 | a text with something in it fails sanity if and only if its last character other than white space is no closing bracket |
| MatchSignature.AllSpace | primitives/src/match_format.rs:21-36 | a text of white space is refused as empty |
| MatchSignature.FirstFaultDecides | primitives/src/match_format.rs:65-89 | the first faulty field decides which error it is |
| MatchSignature.SignatureRoundTrip | primitives/src/match_format.rs:174-188 | parsing a printed name and argument list returns them |
| MatchSignature.RecoveredExactly | primitives/src/match_format.rs:56-98 | an accepted text is the print of its name and arguments if and only if nothing follows the last delimiter, only the first delimiter opens and only the last closes |
| MatchSignature.NameIsLost | primitives/src/match_format.rs:65-89 | `a(b(c)` is accepted as `b(c)` |
| MatchDfd.MatchDfd | primitives/src/match_format.rs:100-168 | returns the declarative meaning of the stripped text; the step index never leaves the vector of steps |
| MatchDfd.OneChar | primitives/src/match_format.rs:116-145 | a delimiter pushes the finished word at the current depth, brackets open or close a step, and only a bracket closed too often is refused |
| MatchDfd.GroundedExactly | primitives/src/match_format.rs:134-149 | the depth check passes exactly when no prefix closes more brackets than it opens |
| MatchDfd.WhitespaceIsIgnored | primitives/src/match_format.rs:107-114 | white space anywhere does not change the result |
| DfdGrammar.TreeMeaning | primitives/src/match_format.rs:116-167 | the text of any tree parses to the tree's non-empty levels, deepest first, words in order |
| DfdGrammar.BalancedExactly | primitives/src/match_format.rs:127-149 | accepted texts are those with balanced brackets and no negative prefix, counted character by character |
| DfdGrammar.AcceptedExactly | primitives/src/match_format.rs:100-168 | accepted if and only if non-empty and the text of some tree of the grammar |
| DfdGrammar.RefusedExactly | primitives/src/match_format.rs:107-149 | which of the three refusals a text gets, counted character by character, each as an if-and-only-if |
| DfdGrammar.TreeIsUnique | primitives/src/match_format.rs:116-145 | no text is the text of two trees, so every accepted text has exactly one and its meaning is that of `TreeMeaning` |
| DfdGrammar.DfdRoundTrip | primitives/src/match_format.rs:334-348 | a schedule printed as nested brackets, with any white space added, parses to itself |
| DfdGrammar.PrintIsClean | primitives/src/match_format.rs:300-314 | without white space in the words the print needs no stripping |
| Endian.BigEndianRoundTrip | types/src/sfx.rs:108-108 | a number that fits comes back from its big-endian bytes |
| Endian.FourBytes | types/src/sfx.rs:108-108 | the four bytes of a number, most significant first |
| SideEffectIds.PaddedWord | types/src/sfx.rs:108-111 | filling the last four bytes of a zero buffer gives 28 zeros and the number, most significant byte first |
| SideEffectIds.GenerateId | primitives/src/xtx.rs:77-90 | the id is the hash of the base, 28 zeros and the four bytes of the number |
| SideEffectIds.PreimageInjective | types/src/sfx.rs:102-114 | distinct (base, number) pairs give distinct hashed byte strings, for bases of any length |
| SideEffectIds.IdsDistinct | types/src/sfx.rs:102-121 | under an injective hash ids agree exactly when base and number do |
| Xtx.ScanMeaning | primitives/src/xtx.rs:126-155 | for any mixture of confirmed effects and empty steps, what the scan stops at |
| Xtx.StopsOnce | primitives/src/xtx.rs:126-155 | and it is the only thing the scan can stop at |
| Xtx.AnswersByFrontier | primitives/src/xtx.rs:110-158 | for any mixture of confirmed effects and empty steps, what a call answers and changes by what the scan stops at |
| Xtx.Xtx.IsCompleted | primitives/src/xtx.rs:92-101 | true if and only if every effect of every step is confirmed |
| Xtx.Xtx.CompleteSideEffect | primitives/src/xtx.rs:110-158 | the nested mutating scan confirms at most the effect the scan stops at, and only on a matching id |
| Xtx.ScanIsNext | primitives/src/xtx.rs:126-155 | with the first k effects of the flattened order confirmed, the scan stops at effect k |
| Xtx.OneCall | primitives/src/xtx.rs:110-158 | then a call succeeds if and only if it names effect k, which it confirms; one that names another is out of order, and changes nothing |
| Xtx.ConfirmationOrder | primitives/src/xtx.rs:103-109 | over any run from an unconfirmed transaction, with any transaction id in each attempt, the confirmed effects are a prefix, as long as there were successes |
| Xtx.NextInOrder | primitives/src/xtx.rs:92-158 | after any run: success exactly for the next index, complete exactly after as many successes as effects, then always `Ok(false)` |
| Endian.SwapEndianness | primitives/src/transfers.rs:99-110 | reading little-endian and writing big-endian reverses the bytes |
| AccountIds.AccountRoundTrip | primitives/src/transfers.rs:94-137 | 32- and 8-byte account ids survive the way through H256; all others panic |
| AccountIds.AccountWord | primitives/src/transfers.rs:94-119 | the word of an id byte by byte: itself, or 24 zeros and the id turned around |
| Transfers.TransferConserves | primitives/src/transfers.rs:41-47 | a transfer keeps total issuance and touches no third account |
| Transfers.TransferExactly | primitives/src/transfers.rs:41-47 | when a transfer goes through, and each of its refusals, as if-and-only-ifs |
| Transfers.EscrowBook.JustTransfer | primitives/src/transfers.rs:41-47 | the currency's transfer, balances untouched on failure |
| Transfers.EscrowBook.EscrowTransfer | primitives/src/transfers.rs:64-92 | balance check, transfer into escrow and queue entry; the panics come after the money has moved |
| Transfers.EscrowExactly | primitives/src/transfers.rs:64-92 | when an escrow goes through, is refused or panics, as if-and-only-ifs, with the entry and the balances it leaves |
| Transfers.EscrowBook.CommitDeferredTransfers | primitives/src/transfers.rs:49-62 | pays the queue in order up to the first failure |
| Transfers.EscrowRun | primitives/src/transfers.rs:64-92 | over any run the queue holds exactly the payments that moved money and fit an entry, in order, issuance is constant, each balance moved by exactly what moved |
| Transfers.EscrowGrowsByQueue | primitives/src/transfers.rs:80-92 | over any run in which escrow requests nothing itself, it grows by exactly the queued value and what panics left without an entry |
| Transfers.CommitPaysPrefix | primitives/src/transfers.rs:49-62 | a commit failing at entry k has paid exactly the first k, and failed for the reason entry k gives |
| Transfers.CommitPanics | primitives/src/transfers.rs:121-137 | with account ids of another width a commit panics at the first entry, nothing paid |
| Transfers.EscrowHonoursQueue | primitives/src/transfers.rs:49-92 | an escrow with the minimum that requests nothing itself is never short at commit: only a payee below the existential deposit stops it |
| Transfers.EscrowEqualsDirect | primitives/src/transfers.rs:49-92 | after a commit that does not fail each balance has moved by what the payments give and take; paying them directly goes through if and only if escrow covers the payments it is a party to, and then leaves every balance the same |
| Transfers.EscrowIsDirect | primitives/src/transfers.rs:49-92 | escrowing and committing comes to the same as paying directly when escrow requests nothing, and is paid nothing or has the minimum to begin with |
| Transfers.EscrowAsParty | primitives/src/transfers.rs:64-92 | a committed run with escrow as a party whose direct payments fail |
| PortalCodec.EncodeTo | primitives/src/portal.rs:214-254 | appends exactly the encoding |
| PortalCodec.WireQueries | primitives/src/portal.rs:217-232 | the bytes of the four queries: tags 0 to 3 and the chain id |
| PortalCodec.WireEvent | primitives/src/portal.rs:233-239 | the bytes of an event check: tag 4, chain id, mode 0 to 3, source, rest |
| PortalCodec.WireState | primitives/src/portal.rs:240-245 | the bytes of a state check: tag 5, chain id, mode 0 to 3, rest |
| PortalCodec.WireTx | primitives/src/portal.rs:246-251 | the bytes of a transaction check: tag 6, chain id, mode 0 to 3, rest |
| PortalCodec.DecodedReadsAs | primitives/src/portal.rs:255-312 | whatever decodes, the tag byte names the variant, the next four the chain, byte 5 the mode |
| PortalCodec.Decode | primitives/src/portal.rs:255-312 | succeeds exactly on inputs that start with an encoding, consumes exactly that one, reads every field off its bytes, and tells the three errors apart |
| PortalCodec.DecodesOneWay | primitives/src/portal.rs:255-312 | no input decodes in two ways |
| PortalCodec.EncodeThenDecode | primitives/src/portal.rs:214-312 | decoding an encoding returns the arguments and leaves nothing |
| PortalCodec.DecodeThenEncode | primitives/src/portal.rs:214-312 | re-encoding a decoded input returns the bytes consumed, for tags 4 to 6 all of them |
| SfxDecoder.TryFrom | types/src/sfx.rs:157-181 | target, action and arguments of the input, or the first error met |
| SfxDecoder.DecodedNames | types/src/sfx.rs:189-243 | the four letters of each target byte and of each action byte |
| SfxDecoder.RefusedExactly | types/src/sfx.rs:157-295 | which inputs are refused for their length, target or action, and which bodies run out of bytes, as if-and-only-ifs |
| SfxDecoder.ByteBuf.SplitAll | types/src/sfx.rs:261-292 | consecutive splits give consecutive fields, and panic exactly when the bytes run out |
| SfxDecoder.ByteBuf.TakeInsurance | types/src/sfx.rs:372-384 | no argument, an empty one, or the whole encoded option, by the tag |
| SfxDecoder.InsuranceByTag | types/src/sfx.rs:372-384 | the insurance argument by its tag, whatever follows |
| SfxDecoder.ByteBuf.ExtractArgs | types/src/sfx.rs:250-295 | the fields of the action's layout and the insurance argument |
| SfxDecoder.ByteBuf.ExtractCallArgs | types/src/sfx.rs:296-343 | the arguments of a call as the branch computes them |
| SfxDecoder.SplitConcat | types/src/sfx.rs:261-292 | splitting by widths undoes concatenation |
| SfxDecoder.ConcatSplit | types/src/sfx.rs:261-292 | and concatenation undoes splitting |
| SfxDecoder.SideEffectRoundTrip | types/src/sfx.rs:157-295 | decoding target byte, action byte, exact-width fields and optional insurance returns them in order |
| SfxDecoder.TransferRoundTrip | types/src/sfx.rs:262-271 | from, to, amount and insurance of an encoded transfer come back in this order |
| SfxDecoder.TransferMultiRoundTrip | types/src/sfx.rs:355-363 | so do asset, from, to, amount and insurance |
| SfxDecoder.AddLiquidityRoundTrip | types/src/sfx.rs:272-284 | so do the two accounts, three assets, three amounts and insurance of an added liquidity |
| SfxDecoder.SwapRoundTrip | types/src/sfx.rs:285-295 | so do the two accounts, two amounts, two assets and insurance of a swap |
| SfxDecoder.DataRoundTrip | types/src/sfx.rs:364-368 | so does the key of a data request |
| SfxDecoder.DecodedIsInOrder | types/src/sfx.rs:157-181 | whatever is decoded, its fields stand in the input one after the other, and the argument after them is the insurance read from the bytes that follow |
| SfxDecoder.CallDecodes | types/src/sfx.rs:296-343 | what an encoded EVM or Wasm call decodes to, for any length prefix |
| SfxDecoder.OtherMachine | types/src/sfx.rs:331-342 | a call with neither machine byte keeps the caller and the rest without one byte |
| SfxDecoder.OtherOption | types/src/sfx.rs:315-342 | a Wasm call whose storage limit has neither tag loses that tag |
| SfxDecoder.CallPanicsExactly | types/src/sfx.rs:296-343 | when the bytes of a call run out, as an if-and-only-if |
| SfxDecoder.CompactValue | types/src/sfx.rs:336-338 | the length prefix of a vector is its SCALE compact length: four times the length and a mark for the width, least significant byte first |
| SfxDecoder.CallDataComesBack | types/src/sfx.rs:296-343 | the data of a call comes back if and only if it is shorter than 64 bytes and it is no Wasm call without a storage limit |
| SfxDecoder.WasmCallWithoutLimit | types/src/sfx.rs:306-340 | a call with 32-byte accounts and 16-byte balances whose data comes back with its length byte in front |
| OrderedSets.BinarySearch | primitives/src/common.rs:113-140 | the place of the value, or the only place where it can go |
| OrderedSets.Dedup | primitives/src/common.rs:99-105 | a sorted vector becomes strictly ascending with the same elements |
| OrderedSets.SortSorts | primitives/src/common.rs:99-105 | sorting permutes the elements and orders them |
| OrderedSets.OrderedSet.From | primitives/src/common.rs:99-111 | strictly ascending, with exactly the elements of the input |
| OrderedSets.OrderedSet.Insert | primitives/src/common.rs:113-123 | union with the value; the flag says whether it was new |
| OrderedSets.OrderedSet.Remove | primitives/src/common.rs:125-135 | difference with the value; the flag says whether it was there |
| OrderedSets.OrderedSet.Contains | primitives/src/common.rs:137-140 | membership |
| OrderedSets.OrderedSet.Execute | primitives/src/common.rs:88-146 | any run of operations gives the flags and the contents of the same run on a mathematical set |
| Signals.Pallet.Signal | pallets/3vm/src/signal.rs:9-58 | the counter is written before the threshold is checked and stays written on an error |
| Signals.AnswersByOccurrence | pallets/3vm/src/signal.rs:9-58 | under any interleaving an answer depends only on the number of earlier signals of the same key |
| Signals.AnswersExactly | pallets/3vm/src/signal.rs:9-58 | each of the four answers as an if-and-only-if on the number of earlier signals of the same key |
| Signals.BoundedSignalling | pallets/3vm/src/signal.rs:30-57 | each key gets min(signals, threshold) successes, and exactly its first signal is an initiation |

## Left out

- Events, logging, weights and the notification of a new epoch to other pallets: outputs only, nothing stored here depends on them.
- The checks inside GRANDPA justifications, trie proofs, hashing and SCALE decoding of call data: foreign code, kept as arbitrary functions.
- `light_clients.rs` of the GRANDPA verifier: delegation to the pallet modelled here.
- `parse_finalized_storage_proof`: a look-up in the header map followed by foreign code.
- `determine_finalized_reports_increase`, `calculate_offsets`, `Range` and `RoundInfo` in primitives: the growth between the oldest and the latest finality report, block offsets estimated from the epoch history, an ordering check on three bounds, and when a round of blocks is over.
- `PrecompileArgs::recode_to_scale_and_decode`: it goes through an ABI crate that is not part of this model.
- The `CallEvm`, `CallWasm` and `CallComposable` actions of the side-effect decoder: no action byte leads to them.
- Reserved and locked balances, and overflow of the balance type: the currency model has free balances only.
- Transfers.EscrowEqualsDirect: for runs without a panic, in which every payment that moved money fits a u32 and names an account of the runtime's width, 32 or 8 bytes; `EscrowRun` accounts for the money of the others.
- The library's sort is modelled as insertion sort.
- The generic element type of `OrderedSet` is taken to be the integers.
