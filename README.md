# paxoskv in Dafny

A verified model of the core of the Go key-value store `paxoskv`. The model covers:

- **The per-entry Paxos state machine of the `paxos` package** (`EntryStateMachine`). It keeps one entry record per acceptor and derives the entry state from them, in seven states from `Normal` to `Chosen`. Its operations:
  - generate ballots (`Promise`);
  - select the value to accept (`Accept`);
  - merge records gossiped by peers (`Update`);
  - resolve values stored only by id (`GetByValueId`, `RestoreValueInRecord`);
  - count the read-path emptiness flags.
- **Three pieces around that machine:**
  - the command envelope that carries records between acceptors;
  - the manager of the worker queues, which routes an entity to a queue by hashing its id;
  - the ordering of entry keys.
- **The single-decree Paxos demo in the `paxoskv` package:**
  - the ballot comparison;
  - the acceptor's Prepare and Accept handlers over per-(key, version) instances;
  - the proposer's reply counting in Phase1 and Phase2;
  - the retry loop of RunPaxos.

## How the model is organised

| file | module | what it models |
|---|---|---|
| `records.dfy` | `Records` | The entry record, the record validity rule, the "newer record" test, and Go's `copy` on slices. |
| `entry_state.dfy` | `EntryStateSpec` | The value-level specification of the state machine: `StateOf` classifies the records, `Settle` is the chosen-marking, and `NextProposalNum` generates ballots. It also covers the max-accepted selection, the merge of a peer record and the value-id lookup. |
| `entry_state_machine.dfy` | `EntryStateMachines` | The class `EntryStateMachine` over two arrays, with loop methods proved against `EntryStateSpec`. |
| `command.dfy` | `Command` | The classes `CmdBase`, `PaxosCmd` and `ClientCmd`, and the field mapping to the wire message. |
| `async_queue_mng.dfy` | `AsyncQueues` | The class `AsyncQueueMng`, which holds thirteen queue lists, and the routing functions. |
| `entry_info_mng.dfy` | `EntryInfo` | `EntryKey` with `Less` and `Equal`. |
| `paxoskv.dfy` | `PaxosKv` | Ballots, acceptor steps, the class `KVServer` over nested maps, and the proposer loops. |

Modelling choices:

- **Integer types.**
  - Go's unsigned integers are subset types `U32` and `U64`.
  - Ballot generation wraps explicitly through `Wrap32`. `BallotWrapsAtLimit` shows the wrap, and `NextProposalNumProperties` holds only when `NoBallotOverflow` holds.
- **Go `assert` calls** (`paxos/util.go`) are proof obligations.
  - The asserts inside `CalcEntryState` hold under the class invariant `Valid()`.
  - `Promise` requires the accepted-at-most-promised order that its own state computation asserts. Only a uint32 wrap of the new ballot can break that order.
  - `Accept` requires the assertion on its final state (`AcceptStaysLocal`).
  - `RestoreValueInRecord` and `GetChosenValue` require the asserted flag.
- **Records are values.** Go stores `*pb.EntryRecord` pointers. The model stores records by value in an array, and a command holds them as `Option` (nil or not).
- **Allocation.** The Go constructor of `EntryStateMachine` allocates neither `entryRecords` nor `emptyFlags`, so any use would index a nil slice. The model's constructor allocates both with `acceptorNum` entries, all `EmptyRecord` and `false`, and requires `localAcceptorId < acceptorNum`.
- **Single acceptor.** With one acceptor, `Promise` never ends in `PromiseLocal` (it ends in `MajorityPromise`, or in `Chosen` once anything was accepted) and so fails (`SingleAcceptorPromiseFails`). `Accept` would end in `Chosen`, so its final-state assertion cannot hold (`SingleAcceptorAcceptIsChosen`).
- **Constructors.** `NewClientCmd` ignores its `cmdId` argument and always builds a `kCmdPaxos` command. The model keeps that behaviour.
- **Entity hash.** The hash used for queue routing is an arbitrary function, a constant field of `AsyncQueueMng`.
- **Replies as input.** In `paxoskv`, the replies a proposer collects over gRPC are inputs, given as sequences. RunPaxos runs over a given sequence of rounds.

## Model

| member | source | states |
|---|---|---|
| Records.IsValidRecord | paxos/entry_state.go:371-407 | The corrected validity rule. A valid record has its counters in the order the state computation asserts, and a valid chosen record has accepted a number no higher than its promise, with a value id. |
| Records.IsValidRecordAsWritten | paxos/entry_state.go:371-407 | The validity rule as coded. A record it accepts has prepared at most accepted, and any such record with a promise has accepted a value, so a plain promise never passes. |
| Records.ValidRecordDefects | paxos/entry_state.go:371-407 | A record is invalid exactly when one of the listed defects holds: prepared above promised, or accepted above promised (in the corrected order); accepted and value id disagreeing on zero; a zero value id carrying a payload, tokens or a chosen mark; an id-only record carrying a payload. |
| Records.ValidityExamples | paxos/entry_state.go:371-407 | The all-zero record is valid. A record that accepted something without a value id is not. With a value id, it is. |
| Records.UpdateGuardRejectsAcceptReply | paxos/entry_state.go:165 | The coded guard refuses a well-formed accept reply (promised = accepted = 4, value id 7), which the intended guard admits. Both guards admit a promise reply. |
| Records.AsWrittenGuardAdmitsDisorderedRecord | paxos/entry_state.go:165 | The coded guard admits a record whose prepared number exceeds its promised number, because that record is invalid. The intended guard refuses it. |
| Records.AsWrittenValidityReversesOrder | paxos/entry_state.go:372-373 | The coded validity rule calls a plain promise (prepared = promised = 4, nothing accepted) invalid. It calls a record that accepted 5 above its promise 3 valid. The intended rule says the reverse in both cases. |
| Records.UpdateRejectsMeaning | paxos/entry_state.go:164-171 | The intended guard admits exactly valid records that are not id-only, and every admitted record has ordered counters. |
| Records.IsRecordNewer | paxos/entry_state.go:409-424 | A record is only newer than a different, unchosen record, and a chosen record is always newer than an unchosen one. |
| Records.NewerIsIrreflexiveAndProgressive | paxos/entry_state.go:409-424 | A record is never newer than itself, so a repeated gossip is a no-op. Nothing is newer than a chosen record. An unchosen newer record has grown in some counter. |
| Records.GoCopy | paxos/entry_state.go:210 | Go's `copy` keeps the destination's length and overwrites only its first min(len) elements with the source. |
| Records.GoCopyLosesTokens | paxos/entry_state.go:114 | Copying into a shorter slice loses tokens, and copying into a nil slice copies nothing. |
| EntryStateSpec.StateMeaning | paxos/entry_state.go:47-104 | What each of the seven states says about the local record: Normal has zero counters, AcceptLocal has equal positive counters, and MajorityPromise and PromiseLocal differ by whether a quorum shares our promise. The remote states have promised above prepared. Chosen holds exactly when the record is chosen or a majority accepted its number. |
| EntryStateSpec.SettleProperties | paxos/entry_state.go:56-67 | Marking chosen keeps the state, sets the local chosen flag exactly when the state is Chosen, and changes nothing else. |
| EntryStateSpec.CountWithIsCardinality | paxos/entry_state.go:57-62 | The counting loop's result is the number of acceptor ids whose counter holds the value. |
| EntryStateSpec.QuorumNumberUnique | paxos/entry_state.go:57-63 | At most one number can be shared by a quorum (`acceptorNum/2+1`) of records on the same counter. |
| EntryStateSpec.NextProposalNumExact | paxos/entry_state.go:223-227 | Without overflow, the new number is the promise rounded up to a multiple of `n`, plus `id + 1`, plus `n` when the call is not pre-auth and the number is at most `n`. No step wraps. |
| EntryStateSpec.NextProposalNumProperties | paxos/entry_state.go:223-227 | Without overflow, the new number is strictly above the old promise and at most `2n` above it. It is congruent to `id + 1` modulo `n`, and it exceeds `n` unless pre-authorised. |
| EntryStateSpec.BallotsDistinctAcrossAcceptors | paxos/entry_state.go:223 | Without overflow (`NoBallotOverflow` on both inputs), two different acceptors never generate the same proposal number. |
| EntryStateSpec.BallotWrapsAtLimit | paxos/entry_state.go:223 | In uint32 arithmetic, a promise at 2^32-1 wraps to the number 1, below the old promise. |
| EntryStateSpec.BallotsCollideAtWrap | paxos/entry_state.go:223 | At the uint32 wrap, distinct acceptors can collide: with three acceptors, acceptor 0 from promise 0 and acceptor 1 from promise 2^32-3 both generate 1. |
| EntryStateSpec.PromiseOutcome | paxos/entry_state.go:229-235 | After the new ballot is written, the state is PromiseLocal exactly when the entry was not chosen and the new number is not shared by a quorum. |
| EntryStateSpec.SingleAcceptorPromiseFails | paxos/entry_state.go:229-235 | With one acceptor, Promise never reaches PromiseLocal. |
| EntryStateSpec.PromiseSucceedsWhenUncontended | paxos/entry_state.go:229-235 | With at least two acceptors, no peer at our number and an unchosen entry, Promise reaches PromiseLocal. |
| EntryStateSpec.LowestMaxAccepted | paxos/entry_state.go:251-258 | The selection returns an index whose accepted number is the maximum, and every earlier index is strictly below it. |
| EntryStateSpec.AcceptReproposesAcceptedValue | paxos/entry_state.go:260-267 | Once anything is accepted and all accepted records agree on a value, Accept re-proposes that value and id, not the caller's. |
| EntryStateSpec.AcceptOutcome | paxos/entry_state.go:276-277 | From MajorityPromise or PromiseLocal, accepting our number gives AcceptLocal exactly when no quorum then shares it, and Chosen otherwise. |
| EntryStateSpec.AcceptAsWrittenDropsCallerTokens | paxos/entry_state.go:266-272 | As coded, installing the caller's value into a record with no tokens keeps no tokens. The corrected record carries the caller's tokens. |
| EntryStateSpec.SingleAcceptorAcceptIsChosen | paxos/entry_state.go:276-277 | With one acceptor, the assertion on Accept's final state can never hold. |
| EntryStateSpec.MergeLocalProperties | paxos/entry_state.go:192-212 | The merge raises the promise to the larger of the two, keeps our own ballot and the id-only flag, and adopts a chosen peer's acceptance. An adopted accepted number is the peer's, and counters stay ordered for a valid peer. |
| EntryStateSpec.UpdatedRecordsProperties | paxos/entry_state.go:180-215 | Update never regresses: only the addressed slot and the local record change, a chosen entry stays chosen with its local record untouched, the local promise never drops, counters stay ordered, and a chosen peer makes the entry Chosen. |
| EntryStateSpec.FirstWithValueId | paxos/entry_state.go:111-118 | The lookup index is the first record with the value id, or the number of records when there is none. |
| EntryStateSpec.LookupAsWrittenDropsTokens | paxos/entry_state.go:114 | As coded, a successful lookup always returns empty uuids, so it differs from the record's tokens whenever there are any. |
| EntryStateSpec.Stripped | paxos/command.go:186-196 | Stripping makes a record id-only with empty payload and tokens, and changes no other field. |
| EntryStateSpec.StripRestoreRoundTrip | paxos/entry_state.go:121-139 | Through the corrected lookup, a record stripped to its id and restored against records holding its payload and tokens is the original record, with status Ok. |
| EntryStateSpec.StripRestoreAsWrittenLosesTokens | paxos/entry_state.go:133-137 | As coded, the same round trip restores a record with tokens with none: the result is the original record with empty uuids, never the original. |
| EntryStateSpec.StripIdempotent | paxos/command.go:186-196 | Stripping twice is stripping once. |
| EntryStateSpec.CountTrueSingle | paxos/entry_state.go:303-309 | After a reset, exactly one flag is counted. |
| EntryStateSpec.CountTrueSet | paxos/entry_state.go:311-313 | Setting a flag raises the count by one exactly when it was clear. |
| EntryStateMachines.EntryStateMachine.constructor | paxos/entry_state.go:37-45 | A fresh machine has the given ids, `acceptorNum` empty records and clear flags, state Normal, and satisfies the invariant. |
| EntryStateMachines.EntryStateMachine.CountRecordsWith | paxos/entry_state.go:57-62 | The counting loop returns `CountWith` of the records, at most `acceptorNum`. |
| EntryStateMachines.EntryStateMachine.CalcEntryState | paxos/entry_state.go:47-104 | The records become `Settle` of the old records and the state becomes `StateOf` of them. The asserts at lines 75, 80 and 81 hold, and the invariant is re-established. |
| EntryStateMachines.EntryStateMachine.GetByValueId | paxos/entry_state.go:110-119 | Returns the payload and the tokens of the first record with the value id, or NotFound with an empty payload. This is the corrected version. |
| EntryStateMachines.EntryStateMachine.RestoreValueInRecord | paxos/entry_state.go:121-139 | Returns `RestoredRecord`: the id-only flag is cleared. On a hit the payload and the matching record's tokens are filled in (the corrected lookup). On a miss the chosen mark, payload and tokens are cleared and the status is NotFound. Id and counters are kept. |
| EntryStateMachines.EntryStateMachine.GetChosenValue | paxos/entry_state.go:141-145 | For a chosen local record, the state is Chosen and the result is the local value. |
| EntryStateMachines.EntryStateMachine.Update | paxos/entry_state.go:155-216 | An out-of-range id gives InvalidAcceptorId with nothing changed. A rejected record gives InvalidRecord with nothing changed. A record that is not newer gives Ok with nothing changed. Otherwise the result is Ok with `UpdatedRecords`. The invariant is kept throughout. |
| EntryStateMachines.EntryStateMachine.Promise | paxos/entry_state.go:218-238 | The local prepared and promised numbers become `NextProposalNum`, and the state is re-derived. The status is Ok exactly when the state is PromiseLocal, and InvalidEntryState otherwise. |
| EntryStateMachines.EntryStateMachine.IsLocalAcceptable | paxos/entry_state.go:289-295 | True exactly for MajorityPromise, or for PromiseLocal with a pre-auth number (at most `acceptorNum`). It then implies our ballot is outstanding: 0 < prepared = promised > accepted. |
| EntryStateMachines.EntryStateMachine.SelectMaxAccepted | paxos/entry_state.go:250-258 | The scan returns `LowestMaxAccepted` of the records. |
| EntryStateMachines.EntryStateMachine.Accept | paxos/entry_state.go:240-279 | When not acceptable, the result is (false, InvalidEntryState) with nothing changed. Otherwise: Ok, state AcceptLocal, only the local record replaced by `AcceptedRecord`, and `valueInstalled` exactly when nothing was accepted. |
| EntryStateMachines.EntryStateMachine.HasPromisedMyProposal | paxos/entry_state.go:347-357 | A peer that promised our proposal holds our prepared number as its promise. The local acceptor qualifies exactly while its promise equals its own ballot. |
| EntryStateMachines.EntryStateMachine.HasAcceptedMyProposal | paxos/entry_state.go:359-369 | A peer that accepted our proposal holds our prepared number as its accepted number. The local acceptor qualifies exactly once it accepted its own ballot. |
| EntryStateMachines.EntryStateMachine.MajorityPromiseMeansQuorumOfPromises | paxos/entry_state.go:347-357 | While our ballot is outstanding, MajorityPromise holds exactly when at least a quorum of acceptors satisfy `HasPromisedMyProposal`. |
| EntryStateMachines.EntryStateMachine.QuorumOfAcceptsMeansChosen | paxos/entry_state.go:359-369 | Once we accepted our own ballot, a quorum satisfying `HasAcceptedMyProposal` means Chosen. At AcceptLocal there is no such quorum. |
| EntryStateMachines.EntryStateMachine.IsLocalEmpty | paxos/entry_state.go:299-301 | True exactly in state Normal, in which case no counter is set and the record is not chosen. |
| EntryStateMachines.EntryStateMachine.ResetEmptyFlags | paxos/entry_state.go:303-309 | Only the local flag is set afterwards, so the count is 1. |
| EntryStateMachines.EntryStateMachine.SetEmptyFlag | paxos/entry_state.go:311-313 | The peer's flag is set, no other flag changes, and the count grows by one exactly when the flag was clear. |
| EntryStateMachines.EntryStateMachine.IsMajorityEmpty | paxos/entry_state.go:315-323 | True exactly when more than `acceptorNum/2` flags are set. |
| Command.SwappedInvolution | paxos/command.go:176-177 | Swapping the two views twice is the identity. One swap changes nothing only when both ends agree. |
| Command.WithoutValuesProperties | paxos/command.go:181-197 | Stripping keeps ids, counters, value ids and chosen marks. A peer record without a value id leaves the view unchanged, even with a nil local record. Otherwise the peer record becomes id-only and empty. The local record is touched only when its value id matches, a nil local record stays nil, and stripping is idempotent. |
| Command.CmdBase.constructor | paxos/command.go:35-37 | A new header base has the given command id and zero fields. |
| Command.CmdBase.ToHeader | paxos/command.go:46-53 | The header carries the command's uuid, entity, entry and result. |
| Command.CmdBase.SetFromHeader | paxos/command.go:39-53 | After `setFromHeader`, `toHeader` gives back that header, and the command id and timestamp are unchanged. |
| Command.PaxosCmd.constructor | paxos/command.go:90-98 | The new command has id `kCmdPaxos` with the given entity and entry, and every other field at zero or nil. |
| Command.PaxosCmd.SerializeToMsg | paxos/command.go:141-154 | The corrected serializer. The message carries the command's header, its whole acceptor view (both ids and both records), the max chosen entry and both flags. |
| Command.PaxosCmd.SerializeToMsgAsWritten | paxos/command.go:141-154 | As coded, the message always has peer id 0 and otherwise equals the corrected message. |
| Command.PaxosCmd.AsWrittenLosesPeerAcceptorId | paxos/command.go:141-154 | As coded, serializing a command parsed from a message with a nonzero peer id gives that message with peer id 0, never the message itself. |
| Command.PaxosCmd.ParseFromMsg | paxos/command.go:127-139 | Parsing then serializing gives back the message. The bookkeeping that never travels, the command id and the timestamp are unchanged. |
| Command.PaxosCmd.SwitchToLocalView | paxos/command.go:172-179 | Succeeds exactly when the message was addressed to `localAcceptorId`. On success the view is swapped and the local id is ours; on failure nothing changes. The bookkeeping is unchanged either way. |
| Command.PaxosCmd.RemoveValueInRecord | paxos/command.go:181-197 | Callable whenever Go does not dereference nil: the peer record is present, and so is the local record when the peer record has a value id. The view becomes `WithoutValues` of the old view, and nothing else changes. |
| Command.PaxosCmd.SetChosen | paxos/command.go:199-201 | Only the local record's chosen mark changes. |
| Command.ClientCmd.constructor | paxos/command.go:211-217 | The command id is `kCmdPaxos`, whatever was requested, and every other field is zero. |
| Command.SerializeDeterminesCarriedFields | paxos/command.go:141-154 | Two commands that serialize alike agree on header, view, max chosen entry and both flags. |
| AsyncQueues.EmptyQueuesProperties | paxos/async_queue_mng.go:201-207 | The intended list has `cnt` queues, each empty with capacity `size`. |
| AsyncQueues.CreateAsyncQueues | paxos/async_queue_mng.go:201-207 | The loop builds exactly `EmptyQueues(cnt, size)`. This is the corrected version. |
| AsyncQueues.CreateAsyncQueuesAsWritten | paxos/async_queue_mng.go:201-207 | As coded, the builder faults for every `cnt > 0`. It returns a list, the intended empty one, only for `cnt == 0`. |
| AsyncQueues.AsyncQueueMng.constructor | paxos/async_queue_mng.go:7-23 | A zero-value manager has all thirteen lists empty. |
| AsyncQueues.AsyncQueueMng.Init | paxos/async_queue_mng.go:25-53 | Every stage's list is `EmptyQueues` of that stage's worker count and queue size. |
| AsyncQueues.AsyncQueueMng.InitEntityQueues | paxos/async_queue_mng.go:29-34 | The five entity-worker lists each get one queue per entity worker. |
| AsyncQueues.AsyncQueueMng.InitWorkerQueues | paxos/async_queue_mng.go:36-51 | The other eight lists get their workers' counts and sizes. |
| AsyncQueues.AsyncQueueMng.Destroy | paxos/async_queue_mng.go:55-69 | All thirteen lists are empty afterwards. |
| AsyncQueues.AsyncQueueMng.QueueByIdx | paxos/async_queue_mng.go:79-81 | The queue at an in-range index is in the list. |
| AsyncQueues.AsyncQueueMng.QueueIndexByEntityId | paxos/async_queue_mng.go:83-87 | The routed index `hash(entityId) % len` is within range when the list is not empty. |
| AsyncQueues.AsyncQueueMng.QueueByEntityId | paxos/async_queue_mng.go:83-198 | The routed queue is in the stage's list. |
| AsyncQueues.AsyncQueueMng.RoutingDeterministic | paxos/async_queue_mng.go:83-198 | The routed index depends only on the id's hash and the list length. |
| AsyncQueues.AsyncQueueMng.EntityStagesShareIndex | paxos/async_queue_mng.go:29-34 | After Init, the five entity stages have the same length, so an entity routes to the same index in each. |
| AsyncQueues.AsyncQueueMng.InitializedQueuesBounded | paxos/async_queue_mng.go:25-53 | After Init, every list has its worker count of queues, all empty and within capacity. |
| AsyncQueues.AsyncQueueMng.NoRoutingWithoutQueues | paxos/async_queue_mng.go:55-69 | With all lists empty (after Destroy or before Init), no routing precondition can be met. |
| EntryInfo.Equal | paxos/entry_info_mng.go:19-21 | `Equal` holds exactly when the keys are equal. |
| EntryInfo.Less | paxos/entry_info_mng.go:12-17 | A key is less only than a different key, and never than a key of a smaller entity. |
| EntryInfo.LessIsLexicographic | paxos/entry_info_mng.go:12-17 | `Less` is the lexicographic order on (entity id, entry). |
| EntryInfo.LessIsStrictOrder | paxos/entry_info_mng.go:12-17 | `Less` is irreflexive, transitive and asymmetric. |
| EntryInfo.Trichotomy | paxos/entry_info_mng.go:12-21 | Exactly one of `a < b`, `b < a` and `Equal(a, b)` holds. |
| EntryInfo.AdjacentLessSorts | paxos/entry_info_mng.go:12-17 | Keys whose neighbours increase are strictly sorted, and then no key appears twice. |
| PaxosKv.CompareBalNum | paxoskv/paxoskv.go:109-114 | The sign of the comparison is the lexicographic order on (N, ProposerId), and it is zero exactly for equal ballots. |
| PaxosKv.BallotOrder | paxoskv/paxoskv.go:109-114 | The ballot order is a strict total order. |
| PaxosKv.AfterPrepare | paxoskv/paxoskv.go:80-82 | A prepare never lowers the promise and never touches the vote. |
| PaxosKv.PrepareRaisesPromise | paxoskv/paxoskv.go:80-82 | A prepare raises the promise to the larger of the promise and the ballot, and leaves the vote alone. |
| PaxosKv.AcceptStep | paxoskv/paxoskv.go:88-105 | An accept succeeds exactly when the ballot is not below the promise, and the reply always carries the promise held before the call. |
| PaxosKv.AcceptRule | paxoskv/paxoskv.go:92-102 | An accept succeeds exactly when the ballot is not below the promise. Success sets LastBal = VBal = ballot and stores the value. Failure changes nothing and reports a promise above the ballot. LastBal never drops. |
| PaxosKv.PromiseBlocksLowerAccept | paxoskv/paxoskv.go:70-105 | After preparing ballot b, an accept at any ballot below b is refused. |
| PaxosKv.StepsKeepVoteBelowPromise | paxoskv/paxoskv.go:70-105 | Prepare and accept keep VBal at or below LastBal. |
| PaxosKv.WithInstanceProperties | paxoskv/paxoskv.go:42-66 | Lookup makes the instance present. An existing instance is untouched, and a missing one is created with zero ballots and no value. Every other key and version keeps its instance. A second lookup changes nothing. |
| PaxosKv.KVServer.constructor | paxoskv/paxoskv.go:36-39 | A new server stores no instances. |
| PaxosKv.KVServer.GetInstance | paxoskv/paxoskv.go:42-66 | The storage becomes `WithInstance` of the old storage, and the returned acceptor is the stored one. |
| PaxosKv.KVServer.Prepare | paxoskv/paxoskv.go:70-86 | The reply is the acceptor's state before the call, and the stored acceptor becomes `AfterPrepare` of it. |
| PaxosKv.KVServer.Accept | paxoskv/paxoskv.go:88-105 | The reply and the stored acceptor are those of `AcceptStep` on the looked-up acceptor. |
| PaxosKv.CountOkMonotone | paxoskv/paxoskv.go:129-139 | Reading more replies never lowers the count. |
| PaxosKv.FirstQuorum | paxoskv/paxoskv.go:139-141 | The stopping point is the first prefix whose count reaches the quorum. |
| PaxosKv.QuorumReachedAt | paxoskv/paxoskv.go:139-141 | The reply at which the count first reaches the quorum is the stopping point, and the whole reply list has a quorum. |
| PaxosKv.LastHigher | paxoskv/paxoskv.go:121-131 | The reported ballot is our own or the promise of some reply above ours, and never below ours. |
| PaxosKv.BestVoted | paxoskv/paxoskv.go:123-135 | The adopted reply is the placeholder or an eligible reply. Its vote ballot is at least zero and at least that of every eligible reply. |
| PaxosKv.Phase1 | paxoskv/paxoskv.go:117-145 | The loop returns `Phase1Outcome`. With a quorum of replies whose promise is at most our ballot, the result is the best vote up to the reply that completes the quorum. Otherwise it is the last higher ballot. |
| PaxosKv.Phase2 | paxoskv/paxoskv.go:147-168 | The loop returns `Phase2Outcome`: Chosen when a quorum has promises at most our ballot, otherwise the last higher ballot. |
| PaxosKv.Phase1AdoptsHighestVote | paxoskv/paxoskv.go:117-145 | A successful Phase1 adopts a value only from a counted reply, and no counted reply voted at a higher ballot. |
| PaxosKv.NextBallotIncreases | paxoskv/paxoskv.go:253 | The retry ballot `higherBal.N+1` (lines 253 and 270) is strictly above both our ballot and the reported one, with a larger round number. |
| PaxosKv.RunPaxosRound | paxoskv/paxoskv.go:247-276 | One attempt with quorum `len/2+1`. A rejected phase gives a retry at `higherBal.N+1`. A voted value is adopted. A read with no vote decides nil. A value decided for a write is never nil, and a retry ballot is always higher. |
| PaxosKv.RunPaxos | paxoskv/paxoskv.go:247-276 | Over the given rounds, the ballot only rises and keeps our proposer id. A write that decides returns a value. |

## Left out

- Protobuf encoding: `proto.Marshal`/`Unmarshal`, `SerializedByteSize`, `ByteSize` and `CalcSize` are foreign encoding and memory accounting. Only the field mapping between a command and the message is modelled.
- Logging and string formatting: `String()`, `EntryRecordToString` and the log calls.
- `AddChosenUuids`: it calls a uuid manager that is not part of this model.
- The xxhash function: it is an arbitrary function parameter of `AsyncQueueMng`.
- Channels: a queue is a capacity and a list of waiting items. Blocking, backpressure and the workers are concurrency and are not modelled.
- Locks: the mutexes of `KVServer` and `Instance` only matter under concurrency, and every operation here runs alone.
- gRPC plumbing: the proposer's `prepare`, `Accept` and `getAcceptorConn` become the reply sequences given to `Phase1`, `Phase2` and `RunPaxosRound`. The replies are not tied to the requests a proposer would send.
- Accessors without logic: `EntryState()`, `GetEntryRecord`, `GetLocalPromisedNum`, `GetLocalAcceptedNum`, `NewPaxosCmd`, `NewMsgBase` and `EntryKey.Hash` (which does not compile as written) are not modelled.
- Aliasing: Go's `Update` stores the caller's record pointer in the slot, so later writes through either alias show up in both. Likewise, `Prepare` and `Accept` store the request's ballot pointer. The model stores values, so it does not capture that sharing.
- PaxosKv.CompareBalNum: the exact difference is modelled. The Go `int(a.N - b.N)` wraps in int64 when ballots differ by 2^63 or more, which ballots counted up from zero never do.
- PaxosKv.RunPaxos: the Go loop retries forever. The model runs the rounds it is given and returns no decision when they run out. `higherBal.N+1` is computed without int64 overflow.
- AsyncQueues.AsyncQueueMng.Init: it is modelled with the corrected `createAsyncQueues`. As coded, `Init` panics on the first list with a nonzero worker count (see Findings).
- EntryStateMachines.EntryStateMachine.Update: it uses the corrected guard and validity rule and a full copy of the peer's tokens (see Findings).
- EntryStateMachines.EntryStateMachine.Accept: it requires the final-state assertion instead of panicking when a peer quorum already accepted our number. It also makes a full copy of the adopted or caller tokens, where the coded `copy` keeps only as many as the local record already had (see Findings).
- EntryStateMachines.EntryStateMachine.Promise: it requires that the new ballot does not wrap below the accepted number. Go's assertion at line 81 is only reached when the local record is neither chosen nor majority-accepted (`CalcEntryState` returns earlier at lines 51-67), so the requirement is slightly stronger than the panic condition.
- EntryStateMachines.EntryStateMachine.constructor: it allocates both arrays, which the Go constructor does not.
- EntryStateMachines.EntryStateMachine.RestoreValueInRecord: it restores through the corrected lookup, so on a hit it returns the matching record's tokens. As coded (entry_state.go:114 and 137) it returns none; `StripRestoreAsWrittenLosesTokens` exhibits that.
- EntryStateSpec.StripRestoreRoundTrip: it holds only for the corrected lookup. As coded, the round trip drops the tokens of every record that has any (`StripRestoreAsWrittenLosesTokens`).
- PaxosKv.KVServer.constructor: Go has no constructor. A zero-value `KVServer` has a nil `Storage`, and the first `getInstance` would panic writing to it at line 50. The model's constructor starts with an empty, allocated map.
- Command.PaxosCmd.RemoveValueInRecord: a nil peer record, or a nil local record when the peer record has a value id, is a nil dereference in Go. The model does not capture that panic; its requires excludes those cases.

## Findings

| source | as written | input that shows it | evidently intended | confidence | as-written member | corrected member |
|---|---|---|---|---|---|---|
| paxos/entry_state.go:165 | `Update` returns `ErrInvalidRecord` when `IsValidRecord` is true | an accept reply with promised = accepted = 4 and value id 7 is refused, and prepared 5 above promised 3 is admitted | refuse id-only records and records that are NOT valid | high, not executed | Records.UpdateGuardRejectsAcceptReply | EntryStateMachines.EntryStateMachine.Update |
| paxos/entry_state.go:372-373 | validity demands promised ≤ accepted | a plain promise (prepared = promised = 4, nothing accepted) is invalid, while promised 3 with accepted 5 and value id 7 is valid | demand accepted ≤ promised, as asserted at lines 75 and 81 | high, not executed | Records.AsWrittenValidityReversesOrder | Records.IsValidRecord |
| paxos/entry_state.go:114 | `copy(uuids, ...)` into the nil named result, so `RestoreValueInRecord` (line 137) restores no tokens either | any hit on a record with tokens returns no tokens | return the record's tokens | high, not executed | EntryStateSpec.LookupAsWrittenDropsTokens | EntryStateMachines.EntryStateMachine.GetByValueId |
| paxos/entry_state.go:266-272 | `copy(record.Uuids, ...)` into the existing, possibly shorter slice (also at line 210) | Accept with caller tokens [1] on a fresh record (no tokens) stores no tokens | the record takes all tokens of the adopted value | high, not executed | EntryStateSpec.AcceptAsWrittenDropsCallerTokens | EntryStateMachines.EntryStateMachine.Accept |
| paxos/command.go:147 | `SerializeToBuffer` writes `PeerEntryRecord` twice and never `PeerAcceptorId` | a command with peer id 2 serializes with peer id 0, so the receiver's `SwitchToLocalView` fails | `msg.PeerAcceptorId = c.PeerAcceptorId` | high, not executed | Command.PaxosCmd.AsWrittenLosesPeerAcceptorId | Command.PaxosCmd.SerializeToMsg |
| paxos/async_queue_mng.go:202-204 | `make([]AsyncQueue, 0, cnt)` and then `queues[i] = ...` | `cnt = 1` indexes 0 in an empty slice | a slice of length `cnt` | high, not executed | AsyncQueues.CreateAsyncQueuesAsWritten | AsyncQueues.CreateAsyncQueues |
