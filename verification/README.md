# Verified model of four Ark components

This project states, and proves with Dafny, what four parts of the repository
guarantee over every input and every run.

**Governance execution timelock (`x/govtimelock`).** A passed proposal does not
run in the block that tallies it but is scheduled for a delay later.
`TimelockChain` gives the state (x/gov's proposal table, its two queues and the
deposits it holds; the schedule, the activation height and the delay; the
application the messages act on) and the meaning of each step of the EndBlocker
as a function from state to state. `TimelockKeeper` and `EndBlocker` are the
program's own form, classes whose loops and branches follow the Go code, and
every method is proved to compute exactly the corresponding function. The
theorems are then proved about the functions, over runs of any length in which
transactions, upgrades and blocks of non-decreasing time alternate, and in which
something outside both modules may overwrite or delete the record of any
proposal x/gov is done with, or make stored bytes undecodable, between blocks:
`TimelockOutcomes` (what each step leaves, field by field, in terms of the
message handlers and hooks alone), `TimelockInvariant` (the inductive
invariant), `TimelockBlock` (one block),
`TimelockAccounts` (hooks, deposits, conversions), `TimelockRun` (runs),
`TimelockTheorems` (the guarantees), `TimelockActivation` (refinement of stock
x/gov below the activation height) and `TimelockGenesis` (export, import, the
zero-height reset, the upgrade). A `Trace` in the state records tallies, hook
attempts, executions and payments; no branch reads it. Handlers, hooks, tallies
and parameters are arbitrary functions given with each block (`Env`).

**Protocol Buffers codec (`x/sanction/types`).** `WireVarint`, `WireSkip`,
`WireDecode`, `WireMeaning`, `SanctionMessages` and `SanctionMeaning` model the varint loop, the
skipper with its group depth, the field-dispatch decoder, and the back-to-front
writer over a byte array (Protocol Buffers Encoding, sections "Base 128
Varints", "Message Structure" and "Last One Wins"). Go's `int` is 64 bits wide
and wraps (`ToInt`, `Add`); every index and slice is proved in bounds under that
arithmetic, which is what the overflow guards are for. The two blacklist
messages have byte-for-byte the same layout and share one class.

**Bech32 and the faucet.** `Bech32Checksum` and `Bech32` model
`bech32_reencode.py` (BIP-173, sections "Bech32" and "Checksum") without a limit
on length, as in the code; the checksum is a 30-bit vector recurrence and its
guarantees come from GF(2)-linearity and the injectivity of one step.
`Bech32Vectors` ties constants and alphabet to a valid string of the standard.
`BitRegroup` models `convertbits`, `Faucet` the address normalisation and
`FaucetLimiter` the daily cap of the devnet faucet.

**Block-event export, cleanup and import (`cleanup_block.go`).** `BlockEvents`
models the three loops over a height-indexed store.

`Options`, `Powers` and `OrderedKeys` (ordered iteration over (time, id) keys)
are shared helpers.

## Where code and documentation disagree

- `docs/proof/gov-timelock.md:24` says the import also rejects a proposal that
  is passed in x/gov but not scheduled, and a comment in
  `app/upgrades/v8_5/upgrades.go` relies on it. The code does not check this and
  says why (`x/govtimelock/module.go:123-135`). The model follows the code;
  `TimelockGenesis.UnscheduledIgnored` states it.
- The faucet tells a refused caller to come back after `retry_after_seconds`.
  The number is rounded down, so a caller who does is served exactly if the
  oldest counted payout expires a whole number of seconds ahead
  (`FaucetLimiter.RetryHonoured`; `FaucetLimiter.RetryTooEarly` is a caller who
  is not).
- A change in a window of seven symbols can escape the checksum in every word,
  so six is the most that can be promised at every length
  (`Bech32Checksum.SevenEscape`).

## Model

| member | source | states |
|---|---|---|
| `OrderedKeys.IterateUntil` | x/govtimelock/keeper/keeper.go:142-161 | A range read of the ordered store yields exactly the keys up to the bound, ascending by (time, id); `ListingUnique` shows that order leaves one list. |
| `TimelockKeeper.Keeper.constructor` | x/govtimelock/keeper/keeper.go:29-58 | A new keeper holds no entry, no activation height and no delay. |
| `TimelockKeeper.Keeper.Schedule` | x/govtimelock/keeper/keeper.go:60-62 | Adds the one entry and changes neither item. |
| `TimelockKeeper.Keeper.Remove` | x/govtimelock/keeper/keeper.go:64-66 | Removes the one entry, present or not, and nothing else. |
| `TimelockKeeper.Keeper.ClearSchedule` | x/govtimelock/keeper/keeper.go:74-76 | Drops every entry and keeps the height and the delay. |
| `TimelockKeeper.Keeper.SetActivationHeight` | x/govtimelock/keeper/keeper.go:80-82 | Records the height; the schedule and the delay stay. |
| `TimelockKeeper.Keeper.GetActivationHeight` | x/govtimelock/keeper/keeper.go:86-95 | The recorded height, 0 when none is. |
| `TimelockKeeper.Keeper.SetExecutionDelay` | x/govtimelock/keeper/keeper.go:98-100 | Records the delay; the schedule and the height stay. |
| `TimelockKeeper.Keeper.GetExecutionDelay` | x/govtimelock/keeper/keeper.go:103-115 | The stored delay if it is positive, the fallback if it is unset, zero or negative. |
| `TimelockKeeper.Keeper.IsActive` | x/govtimelock/keeper/keeper.go:120-129 | True exactly if a height is recorded and reached. |
| `TimelockKeeper.Keeper.Due` | x/govtimelock/keeper/keeper.go:132-134 | Exactly the entries with time at or before now, in execution order. |
| `TimelockKeeper.Keeper.Export` | x/govtimelock/keeper/keeper.go:137-139 | Every entry once, in execution order. |
| `EndBlocker.GovKeeper.ExecuteProposal` | x/govtimelock/abci.go:389-419 | The record ends passed exactly if the messages load and some chain of states leads from the old application to the new one with every message succeeding; otherwise it ends failed and the application is untouched. |
| `EndBlocker.SafeExecuteHandler` | x/govtimelock/abci.go:421-431 | Succeeds exactly if there is a handler and it neither fails nor panics. |
| `EndBlocker.GovKeeper.RunVotingPeriodEndedHook` | x/govtimelock/abci.go:376-383 | A hook that fails leaves no write behind and does not stop the block; every attempt is counted. |
| `EndBlocker.GovKeeper.FailUnsupportedProposal` | x/govtimelock/abci.go:433-468 | Leaves a failed record without messages and refunds the whole deposit. |
| `EndBlocker.DropOne` | x/govtimelock/abci.go:79-133 | One under-deposited proposal: stops the block only when the record is missing; otherwise its new state is that of `InactiveStep`. |
| `EndBlocker.ProcessInactiveProposals` | x/govtimelock/abci.go:68-136 | The loop over the snapshot of the inactive queue computes `Inactivated`, and fails exactly when it does. |
| `EndBlocker.CountAndSettle` | x/govtimelock/abci.go:181-197 | Settles the deposit unless an expedited proposal failed, and removes the queue entry. |
| `EndBlocker.Conclude` | x/govtimelock/abci.go:199-258 | The four outcomes of a vote, with the delay read at most once per loop yet equal to the delay in force. |
| `EndBlocker.TallyOne` | x/govtimelock/abci.go:166-258 | One ended vote, with its undecodable and missing cases, computes `TallyStep`. |
| `EndBlocker.ProcessEndedVotingPeriods` | x/govtimelock/abci.go:138-276 | The loop over the snapshot of the active queue computes `AfterTally`, and fails exactly when it does. |
| `EndBlocker.MatureOne` | x/govtimelock/abci.go:284-354 | One due entry, whatever it names, is consumed and never stops the block; computes `MatureStep`. |
| `EndBlocker.ExecuteMaturedProposals` | x/govtimelock/abci.go:278-356 | The loop over the due entries computes `Matured`. |
| `EndBlocker.EndBlock` | x/govtimelock/abci.go:42-66 | The whole EndBlocker computes `TimelockChain.EndBlock` and fails exactly when it does. |
| `TimelockOutcomes.RunMessagesMeaning` | x/govtimelock/abci.go:389-419 | A batch of messages ends in a state exactly if a chain of states exists in which each message succeeds in turn. |
| `TimelockOutcomes.RunProposalMeaning` | x/govtimelock/abci.go:389-419 | A proposal's messages are applied exactly if they load and such a chain exists, and lead where it leads. |
| `TimelockOutcomes.RunProposalFails` | x/govtimelock/abci.go:389-419 | They are not applied exactly if they do not load or no such chain exists. |
| `TimelockOutcomes.MatureOutcome` | x/govtimelock/abci.go:333-347 | A matured proposal ends passed where its handlers lead, or failed with the application as it was, the hook coming after. |
| `TimelockOutcomes.MatureDropped` | x/govtimelock/abci.go:284-331 | An entry that cannot run is dropped with its hook; a record that does not load is failed, one off StatusPassed is left. |
| `TimelockOutcomes.TallyOutcome` | x/govtimelock/abci.go:181-258 | The record, queue, deposit and application after a vote, for each of its outcomes in both modes. |
| `TimelockOutcomes.TallyUnsupported` | x/govtimelock/abci.go:166-179 | A vote on a record that does not load fails it and refunds, without tally or hook; on a missing one it stops the block. |
| `TimelockOutcomes.DropOutcome` | x/govtimelock/abci.go:79-121 | A proposal dropped for want of deposits leaves no record, deposit or queue entry, and its hook is fired if it loads. |
| `TimelockInvariant.InactiveKeeps` | x/govtimelock/abci.go:79-133 | Dropping a proposal keeps the invariant that ties queues, proposals, schedule and trace, and never fails in a consistent state. |
| `TimelockInvariant.TallyKeeps` | x/govtimelock/abci.go:166-258 | So does every outcome of a vote, in either mode. |
| `TimelockInvariant.MatureKeeps` | x/govtimelock/abci.go:284-354 | So does consuming the least due entry, whatever it names. |
| `TimelockBlock.InactiveLoopEffect` | x/govtimelock/abci.go:68-136 | After the loop the inactive queue has lost exactly the due keys; voting proposals and the schedule are untouched. |
| `TimelockBlock.TallyLoopEffect` | x/govtimelock/abci.go:138-276 | After the loop the schedule has gained exactly one entry, at now plus the delay, per due proposal that passes. |
| `TimelockBlock.MatureLoopSchedule` | x/govtimelock/abci.go:278-372 | Every entry processed leaves the schedule, whatever it names, and no other does. |
| `TimelockBlock.ScheduleTransition` | x/govtimelock/abci.go:56-65 | After an active block the schedule is exactly the old entries still in the future and (now + delay, id) for each proposal that passed, for any schedule. |
| `TimelockAccounts.InactivePayment` | x/govtimelock/abci.go:96-110 | A dropped proposal's deposit is paid out once and in full, burned exactly if the parameter says so and the record decodes. |
| `TimelockAccounts.TallyPayment` | x/govtimelock/abci.go:185-194 | A tallied deposit is paid out in full, burned exactly if the tally says so and the record decodes, and kept through a conversion. |
| `TimelockAccounts.TallyHookDebt` | x/govtimelock/abci.go:252-258 | A tally leaves the balance of tallies, hook attempts and schedule entries unchanged for every proposal. |
| `TimelockAccounts.MatureHookDebt` | x/govtimelock/abci.go:314-347 | Consuming any entry leaves it unchanged too: executed, missing, undecodable or off StatusPassed. |
| `TimelockRun.RunKeeps` | x/govtimelock/abci.go:42-66 | No run from a consistent state is stopped by an error, and the invariant and all books hold in every state of it, whatever happens to finished proposals from outside; what is promised of records stays true if the transactions respect it. |
| `TimelockTheorems.NeverEarlyNeverTwice` | x/govtimelock/abci.go:195-221 | Messages run only in a block whose time has reached the entry's, at most once per proposal over the run, and entries scheduled in the run waited the full positive delay. |
| `TimelockTheorems.ExecutionOrder` | x/govtimelock/abci.go:279-283 | Over the whole run, one scheduled proposal executes before another exactly if it passed in a block of earlier time, or of the same time with the smaller id. |
| `TimelockTheorems.ScheduleConsistent` | x/govtimelock/abci.go:278-356 | In every reachable state each scheduled id is scheduled once and is in neither queue, and it is passed in x/gov unless something outside touched a finished proposal. |
| `TimelockTheorems.FullWait` | x/govtimelock/abci.go:206-210 | With the default delay or a longer one, whatever passes waits 172,800,000,000,000 ns before its messages run. |
| `TimelockTheorems.BlockBatch` | x/govtimelock/abci.go:56-65 | An active block runs exactly the entries that were due before it began, in order, on what its tallies leave. |
| `TimelockTheorems.HookAccounting` | x/govtimelock/abci.go:252-258 | For every proposal, tallies equal hook attempts plus one if it is scheduled now, over runs that reach every branch, the drop branches included. |
| `TimelockTheorems.DepositsSettledOnce` | x/govtimelock/abci.go:185-194 | A deposit is held in full while its proposal is open and paid out in full exactly once when it closes; conversion happens at most once. |
| `TimelockTheorems.BatchAtomicity` | x/govtimelock/abci.go:283-344 | After a batch the application is, hooks aside, the in-order composition of exactly the runnable proposals all of whose messages succeeded; each ends passed or failed accordingly; deposits and other records are untouched. |
| `TimelockActivation.DropRefines` | x/govtimelock/abci.go:79-133 | Dropping a proposal is the stock step and leaves the timelock alone. |
| `TimelockActivation.TallyRefines` | x/govtimelock/abci.go:202-204 | Before activation, a tally is the stock tally that executes on the spot. |
| `TimelockActivation.ActiveTallyDefers` | x/govtimelock/abci.go:199-258 | After activation, a vote that fails is a stock tally; one that passes closes the vote and settles the deposit as stock does, but runs no message and fires no hook. |
| `TimelockActivation.EndBlockRefines` | x/govtimelock/abci.go:47-65 | Below the activation height the EndBlocker is the stock one and leaves the schedule as it is. |
| `TimelockActivation.IdleBlockIsStock` | x/govtimelock/abci.go:47-65 | At any height, a block in which no vote passes and nothing is due is a stock block. |
| `TimelockActivation.RunBeforeActivation` | x/govtimelock/abci.go:47-65 | Any number of blocks below the activation height is a run of stock x/gov. |
| `TimelockActivation.ActivationSwitch` | app/upgrades/v8_5/upgrades.go:65-69 | The timelock governs a block exactly if the upgrade ran at or before it or the genesis height is reached. |
| `TimelockActivation.ActivationNeverReverts` | x/govtimelock/keeper/keeper.go:120-129 | Once it governs a block it governs every later one. |
| `TimelockActivation.NothingOnTheSpot` | x/govtimelock/abci.go:202-221 | From the first block it governs, the upgrade's own included, nothing runs in its tally block up to any later point of the run. |
| `TimelockGenesis.DefaultGenesis` | x/govtimelock/types/genesis.go:36-38 | The default genesis is valid and makes every height from 1 on active. |
| `TimelockGenesis.Validate` | x/govtimelock/types/genesis.go:40-67 | Accepts exactly the valid genesis states, and the error given is true of the state. |
| `TimelockGenesis.ValidateAgainstGov` | x/govtimelock/module.go:136-153 | Accepts exactly if every entry names a proposal x/gov can load and holds as passed. |
| `TimelockGenesis.UnscheduledIgnored` | x/govtimelock/module.go:119-136 | Acceptance does not depend on any proposal that is not scheduled. |
| `TimelockGenesis.InitGenesis` | x/govtimelock/module.go:75-117 | Imports the whole state or, when x/gov does not agree, nothing. |
| `TimelockGenesis.ExportGenesis` | x/govtimelock/module.go:155-177 | Exports every entry, the height (0 if unset) and the delay in force. |
| `TimelockGenesis.GenesisStarts` | x/govtimelock/module.go:75-117 | An accepted genesis starts a consistent chain in which every scheduled proposal is passed. |
| `TimelockGenesis.ValidGenesisWaits` | x/govtimelock/types/genesis.go:40-67 | On a chain started from a validated genesis whatever passes waits 48 hours. |
| `TimelockGenesis.ExportAccepted` | x/govtimelock/module.go:155-177 | A consistent state's export validates exactly if its delay is a production delay, and x/gov accepts it exactly if every scheduled proposal loads and is passed; if all are passed, exactly if they decode. |
| `TimelockGenesis.ReimportRestores` | x/govtimelock/module.go:75-177 | Import of an export restores the schedule, the answer of IsActive at every height and the delay in force. |
| `TimelockGenesis.RunExportsValid` | x/govtimelock/module.go:75-177 | Any run from an accepted genesis exports a genesis that validates again. x/gov accepts it exactly if every scheduled record decodes, when nothing outside touched a finished proposal; and outright when moreover all records decoded at first and none stopped decoding. |
| `TimelockGenesis.PrepForZeroHeightGenesis` | app/export.go:241-262 | The reset empties the schedule, makes height 1 the activation height and keeps the delay. |
| `TimelockGenesis.ForkWaits` | app/export.go:241-262 | A fork made with the reset is accepted and runs no message before its own first block time plus the delay. |
| `TimelockGenesis.ActivateAtUpgrade` | app/upgrades/v8_5/upgrades.go:65-69 | The upgrade records its own height: the timelock governs exactly that block and the later ones. |
| `WireVarint.DecodeVarint` | x/sanction/types/tx.pb.go:575-589 | The read loop terminates within the buffer and computes `ReadVarint`. |
| `WireVarint.ReadVarintMeaning` | x/sanction/types/tx.pb.go:575-589 | A read that succeeds has consumed one varint of at most ten bytes and returns its value modulo 2^64. |
| `WireVarint.ReadVarintAt` | x/sanction/types/tx.pb.go:575-589 | Every varint of at most ten bytes is read, wherever it stands. |
| `WireVarint.OrIsSum` | x/sanction/types/tx.pb.go:585-585 | The wrapped sum the loop is modelled with is the only uint64 whose bits are the or of the bits of its operands; that the operands do not overlap is carried through the loop. |
| `WireVarint.BitsOfOr` | x/sanction/types/tx.pb.go:585-585 | Each of the 64 bits of that sum is the or of the operands' bits. |
| `WireVarint.EncodeVarint` | x/sanction/types/tx.pb.go:497-507 | Writes the shortest varint of the value ending at the offset and no other byte. |
| `WireVarint.SovIsLength` | x/sanction/types/tx.pb.go:564-566 | `sovTx` is the number of bytes `encodeVarintTx` writes, for every value. |
| `WireVarint.ShortestRoundTrip` | x/sanction/types/tx.pb.go:497-507 | Reading what was written gives the value back, for every uint64. |
| `WireVarint.KnownVarint` | x/sanction/types/tx.pb.go:497-507 | The standard's example: 150 is the bytes 96 01. |
| `WireSkip.SkipTx` | x/sanction/types/tx.pb.go:898-975 | The skip loop terminates on every buffer, stays inside it under wrapping arithmetic and computes `Skip`. |
| `WireSkip.SkipFits` | x/sanction/types/tx.pb.go:898-975 | What it returns is a non-negative Go int. |
| `WireSkip.SkipScalar` | x/sanction/types/tx.pb.go:917-968 | Behind a tag of wire type 0, 1 or 5 a varint, eight or four bytes are skipped, whatever follows. |
| `WireSkip.SkipBytes` | x/sanction/types/tx.pb.go:930-954 | Behind one of wire type 2 a length and as many bytes. |
| `WireSkip.SkipGroup` | x/sanction/types/tx.pb.go:955-961 | From one of wire type 3 up to the matching one of wire type 4, over any fields between. |
| `WireSkip.SkipRefused` | x/sanction/types/tx.pb.go:956-967 | A group end outside a group and the wire types 6 and 7 are refused. |
| `WireSkip.SkipField` | x/sanction/types/tx.pb.go:898-975 | A well-formed field, with groups nested to any depth, is skipped as a unit. |
| `WireSkip.SkipIsExact` | x/sanction/types/tx.pb.go:898-975 | The skipper returns n within the buffer exactly if the first n bytes are one well-formed field. |
| `WireDecode.DecodeConcat` | x/sanction/types/tx.pb.go:570-683 | Decoding a ++ b into a message is decoding a and then b into it. |
| `WireDecode.FieldNumOf` | x/sanction/types/tx.pb.go:590-590 | The field number is the tag's value divided by eight, as a signed 32-bit number. |
| `WireDecode.TurnCases` | x/sanction/types/tx.pb.go:590-676 | Which error or which known field one turn gives, for every tag and length read. |
| `WireDecode.DecodeUnknown` | x/sanction/types/tx.pb.go:663-676 | A well-formed field the message does not know decodes to nothing. |
| `WireDecode.UnknownIgnored` | x/sanction/types/tx.pb.go:663-676 | Inserting such a field between two parts of a message changes nothing. |
| `WireMeaning.DecodeMeaning` | x/sanction/types/tx.pb.go:570-683 | A buffer decodes exactly if it is a sequence of accepted fields whose known payloads merge, and the receiver ends as their merge in order. |
| `WireMeaning.NumberOf` | x/sanction/types/tx.pb.go:590-590 | A tag of value 8 n + t carries number n, for every n below 2^31. |
| `SanctionMeaning.BlacklistMeaning` | x/sanction/types/tx.pb.go:570-683 | A buffer decodes exactly if it is a sequence of accepted fields; the last field 1 replaces the authority and each field 2 adds an account. |
| `SanctionMeaning.ParamsMeaning` | x/sanction/types/tx.pb.go:684-733 | A message without fields decodes exactly from the sequences of accepted fields. |
| `SanctionMeaning.GenesisMeaning` | x/sanction/types/genesis.pb.go:186-300 | The same for the genesis, which moreover decodes only if every nested message does. |
| `SanctionMeaning.BytesAre` | x/sanction/types/tx.pb.go:388-410 | The bytes written, in their order: authority unless empty, then each account, with their tags and lengths. |
| `SanctionMessages.NextTurn` | x/sanction/types/tx.pb.go:573-676 | One turn of the decode loop, with all of its guards, computes `NextField` and never indexes outside the buffer. |
| `SanctionMessages.PutField` | x/sanction/types/tx.pb.go:388-410 | Writes tag, length and payload so that they end at the index, and touches no other byte. |
| `SanctionMessages.BlacklistMsg.Size` | x/sanction/types/tx.pb.go:508-525 | The number of bytes of the encoding. |
| `SanctionMessages.BlacklistMsg.MarshalToSizedBuffer` | x/sanction/types/tx.pb.go:388-410 | Fills exactly the last Size() bytes with the encoding and leaves the rest of the buffer alone. |
| `SanctionMessages.BlacklistMsg.Marshal` | x/sanction/types/tx.pb.go:373-381 | Returns a fresh buffer that is the encoding, with nothing before or behind it. |
| `SanctionMessages.BlacklistMsg.Unmarshal` | x/sanction/types/tx.pb.go:570-683 | Merges into the receiver as `DecodeBlacklist` says, fields kept up to the error that stops it. |
| `SanctionMessages.UnmarshalParams` | x/sanction/types/tx.pb.go:684-733 | A message without fields accepts exactly what the decoder with no known number accepts. |
| `SanctionMessages.BlacklistRoundTrip` | x/sanction/types/tx.pb.go:373-410 | Unmarshal of Marshal gives the message back, empty strings included; into any receiver it appends and replaces. |
| `SanctionMessages.BlacklistConcat` | x/sanction/types/tx.pb.go:570-683 | Two encodings back to back decode to the merge of the messages. |
| `SanctionMessages.GenesisMsg.Size` | x/sanction/types/genesis.pb.go:163-178 | The number of bytes of the encoding, the empty nested message included. |
| `SanctionMessages.GenesisMsg.MarshalToSizedBuffer` | x/sanction/types/genesis.pb.go:125-150 | Fills exactly the last Size() bytes with the encoding and leaves the rest alone. |
| `SanctionMessages.GenesisMsg.Marshal` | x/sanction/types/genesis.pb.go:110-118 | Returns a fresh buffer that is the encoding. |
| `SanctionMessages.GenesisMsg.Unmarshal` | x/sanction/types/genesis.pb.go:186-300 | Merges into the receiver as `DecodeGenesis` says, decoding the nested message in place. |
| `SanctionMessages.GenesisRoundTrip` | x/sanction/types/genesis.pb.go:110-300 | Unmarshal of Marshal gives the genesis back; into any receiver it appends. |
| `Bech32Checksum.ComputePolymod` | scripts/genesis/bech32_reencode.py:19-27 | The two loops compute `Polymod`. |
| `Bech32Checksum.PolymodLinear` | scripts/genesis/bech32_reencode.py:19-27 | The checksum is linear over GF(2) in state and word together. |
| `Bech32Checksum.PolymodInjective` | scripts/genesis/bech32_reencode.py:19-27 | Reading any word is injective on the 30-bit state. |
| `Bech32Checksum.UniqueCompletion` | scripts/genesis/bech32_reencode.py:34-37 | Exactly one choice of six symbols brings a state to a given checksum. |
| `Bech32Checksum.BurstDetected` | scripts/genesis/bech32_reencode.py:19-27 | Words of any length that differ inside six consecutive symbols only have different checksums. |
| `Bech32Checksum.SevenEscape` | scripts/genesis/bech32_reencode.py:19-27 | For every word and every window of seven symbols some change in it keeps the checksum. |
| `Bech32Vectors.StepIsClosed` | scripts/genesis/bech32_reencode.py:22-26 | One turn of the loop is the standard's formula with its five constants. |
| `Bech32Vectors.KnownAnswer` | scripts/genesis/bech32_reencode.py:62-64 | The standard's valid string with every symbol once encodes and decodes as listed. |
| `Bech32.ComputeDecode` | scripts/genesis/bech32_reencode.py:40-59 | The decoder's checks, in their order, compute `Decode`. |
| `Bech32.ReadSymbols` | scripts/genesis/bech32_reencode.py:51-55 | The loop reads the symbols or stops at the first foreign character. |
| `Bech32.ChecksumUnique` | scripts/genesis/bech32_reencode.py:34-37 | Six symbols complete a word to a valid one exactly if they are the created checksum. |
| `Bech32.EncodeDecode` | scripts/genesis/bech32_reencode.py:40-64 | Decode of encode gives prefix and data back exactly if the prefix is non-empty, printable and without capitals; it may contain '1'. |
| `Bech32.DecodeEncode` | scripts/genesis/bech32_reencode.py:40-64 | Encode of decode is the lower-case spelling of every accepted string. |
| `Bech32.AcceptedStrings` | scripts/genesis/bech32_reencode.py:40-59 | The accepted strings are exactly the encodings' spellings without characters outside 33 to 126 and without both cases. |
| `Bech32.DecodeErrors` | scripts/genesis/bech32_reencode.py:40-59 | Which check fails first, and so which error is given, for every string. |
| `Bech32.PrefixDetected` | scripts/genesis/bech32_reencode.py:30-37 | The checksum covers the prefix: it tells apart prefixes that differ inside six characters in low bits only or in high bits only. |
| `Bech32.PrefixRejected` | scripts/genesis/bech32_reencode.py:40-59 | An accepted string whose prefix is so changed is rejected, at every length. |
| `Bech32.ReencodeRoundTrip` | scripts/genesis/bech32_reencode.py:67-72 | Re-encoding keeps the data under the new prefix, refuses what does not decode, and back again is the identity up to case. |
| `Bech32.CorruptionDetected` | scripts/genesis/bech32_reencode.py:40-59 | Two accepted strings with the same separator that agree outside six consecutive data characters agree altogether. |
| `Bech32.BurstRejected` | scripts/genesis/bech32_reencode.py:40-59 | Replacing data characters inside a window of six of an accepted string of any length gives a rejected one. |
| `BitRegroup.ConvertBits` | ops/docker/faucet/faucet.py:56-67 | The accumulator loop computes the regrouping of the whole bit string, padded or truncated. |
| `BitRegroup.RegroupRoundTrip` | ops/docker/faucet/faucet.py:56-67 | Regrouping with padding and back without is the identity exactly if the padding is shorter than a number, so always from 8 to 5 bits; all results fit their width. |
| `BitRegroup.RegroupSize` | ops/docker/faucet/faucet.py:56-67 | The padded result has the bits divided by the width, rounded up. |
| `BitRegroup.RegroupValue` | ops/docker/faucet/faucet.py:56-67 | The padded result denotes the same number, most significant first, moved up by the padding. |
| `Faucet.AddressOfInjective` | ops/docker/faucet/faucet.py:70-72 | Different bytes have different addresses. |
| `Faucet.AddressOfShape` | ops/docker/faucet/faucet.py:75-76 | The address of twenty bytes has the form the second pattern accepts. |
| `Faucet.NormalizeIdempotent` | ops/docker/faucet/faucet.py:79-85 | Normalising a normalised address changes nothing. |
| `Faucet.NormalizeHex` | ops/docker/faucet/faucet.py:79-85 | Two hexadecimal addresses normalise alike exactly if they differ in case only. |
| `Faucet.HexNames` | ops/docker/faucet/faucet.py:70-85 | The hexadecimal spelling of twenty bytes, high digit first, normalises to the address of those bytes. |
| `Faucet.AddressCarries` | ops/docker/faucet/faucet.py:70-72 | That address decodes, under the chain's prefix, to 32 symbols that denote the same number. |
| `Faucet.NormalizeAccepts` | ops/docker/faucet/faucet.py:75-85 | Exactly 0x with forty hexadecimal digits or ark1 with 38 small letters or digits is accepted, the latter standing for itself. |
| `Faucet.NormalizeSurrounded` | ops/docker/faucet/faucet.py:79-85 | White space around an address does not matter. |
| `FaucetLimiter.Handler.DoPost` | ops/docker/faucet/faucet.py:233-263 | Each answer with its condition, and the new state; only a confirmed payment changes it, by one entry behind the unexpired ones. |
| `FaucetLimiter.PruneIs` | ops/docker/faucet/faucet.py:103-104 | Pruning keeps each entry less than 86400 seconds old as often as it stood there, and no other. |
| `FaucetLimiter.WithinIs` | ops/docker/faucet/faucet.py:103-104 | The window used in the cap holds exactly the payouts of the day that ends at its time. |
| `FaucetLimiter.StoredIsEnough` | ops/docker/faucet/faucet.py:103-104 | Although entries are pruned for good, what is stored prunes, now and ever after, to what all payouts prune to. |
| `FaucetLimiter.DailyCap` | ops/docker/faucet/faucet.py:238-257 | In every run with a clock that never goes back, the payouts of one address in any stretch of a day never exceed the cap. |
| `FaucetLimiter.AdmittedExactly` | ops/docker/faucet/faucet.py:238-257 | A request is paid exactly if the address's real payouts of the last day leave room for it. |
| `FaucetLimiter.RetryHonoured` | ops/docker/faucet/faucet.py:242-248 | A refused caller who returns when told is paid exactly if something is counted and the oldest expires in a whole number of seconds. |
| `FaucetLimiter.RetryTooEarly` | ops/docker/faucet/faucet.py:242-248 | A run in which it is not: paid at 0.5, refused at 1.0 with 86399 seconds, refused again at 86400. |
| `BlockEvents.StateStore.LoadBlockEventsExport` | cmd/arkd/cmd/cleanup_block.go:217-239 | The events of a height, with an empty list for a nil result; nothing for a missing height. |
| `BlockEvents.StateStore.ApplyBlockEventsExport` | cmd/arkd/cmd/cleanup_block.go:241-258 | Overwrites the event lists of one height and nothing else; fails exactly on a missing height. |
| `BlockEvents.StateStore.ExportBlockEvents` | cmd/arkd/cmd/cleanup_block.go:97-129 | The file holds one record per listed height that loads, in order, repeats included, each with the events of its block and of each of its transactions. |
| `BlockEvents.StateStore.CleanupBlockEvents` | cmd/arkd/cmd/cleanup_block.go:164-195 | Each listed height that loads has every event list emptied, nil results staying nil; nothing else changes. |
| `BlockEvents.StateStore.ImportBlockEvents` | cmd/arkd/cmd/cleanup_block.go:131-162 | The loop computes `Imported`; the count is the number of records whose height exists. |
| `BlockEvents.ImportOne` | cmd/arkd/cmd/cleanup_block.go:241-258 | One record writes its height's event lists, as far as it has them, and nothing else. |
| `BlockEvents.ImportConcat` | cmd/arkd/cmd/cleanup_block.go:131-162 | Files import one after the other as one. |
| `BlockEvents.ExportedIs` | cmd/arkd/cmd/cleanup_block.go:97-129 | The records are those of the listed heights that load, in order. |
| `BlockEvents.CleanedIs` | cmd/arkd/cmd/cleanup_block.go:164-195 | What clean-up leaves, height by height. |
| `BlockEvents.CleanupOnlyEvents` | cmd/arkd/cmd/cleanup_block.go:164-195 | Cleaning up empties the event lists of the listed heights and changes nothing else. |
| `BlockEvents.ImportRestores` | cmd/arkd/cmd/cleanup_block.go:131-162 | Importing an export of a store turns another store into it exactly if the two differ in nothing but event lists at the exported heights. |
| `BlockEvents.ExportCleanupImport` | cmd/arkd/cmd/cleanup_block.go:97-195 | Export, cleanup and import together are the identity on every store, for every list of heights. |
| `BlockEvents.CleanupIdempotent` | cmd/arkd/cmd/cleanup_block.go:164-195 | Cleaning up part of the heights again, in any order, changes nothing. |

## Left out

- x/gov itself: deposit storage, the tally and parameters are functions given with each block, and DeleteProposal is a removal from the table and both queues; transactions on proposals are modelled only as far as the queues, statuses and deposits go (`TimelockRun.Tx`).
- Handlers and hooks act on the application state only: they are assumed not to touch the schedule, the proposals or the queues. Interference with finished proposals is modelled between blocks (`TimelockRun.Interfere`), not in the middle of an EndBlock.
- Errors of the store itself, logging, telemetry, events and reason strings; gas.
- Amounts are one number per deposit, not a list of coins per depositor, and the share x/gov charges for a cancellation is part of the one payment recorded for it.
- Proposal ids, times and the sum of a time and a delay are unbounded.
- TimelockTheorems.NeverEarlyNeverTwice: entries already in the schedule a run starts with are shown to run no earlier than their time, but how long ago they were scheduled is not known.
- TimelockGenesis.RunExportsValid: the outright half assumes that nothing outside touches finished proposals or breaks stored bytes; the code cannot prevent either, and `ExportAccepted` states the exact condition on the state exported.
- The nil govKeeper that skips the check at import, the version map and RunMigrations in the upgrade handler, and the rest of prepForZeroHeightGenesis.
- WireVarint.EncodeVarint: byte arrays stand for Go slices, so capacity and aliasing of the buffer are not modelled.
- WireDecode.DecodeConcat: says that both sides succeed or both fail and that the receivers agree, not that the error values are the same, because the overflow guards compare absolute positions and so choose between two errors by where the buffer starts.
- UTF-8 validity: the generated code does not check it and strings are byte lists.
- query.pb.go, the denommetadata messages, registration, gRPC and reflection code of the generated files.
- Detection of up to four substitutions anywhere in 90 characters (BIP-173, section "Checksum"): it rests on an exhaustive search, not on the code's structure.
- The prefix of the faucet is fixed to "ark", its default; str.lower is modelled on ASCII, which is all the matched patterns allow.
- FaucetLimiter.Handler.DoPost: HTTP and JSON handling, the state file and its corruption, and the subprocess are left out; a payment that lands after the handler gave up waiting is a failed request, as in the code, and is not counted against the cap.
- Time stamps of the faucet are real numbers, not floating-point ones.
- BlockEvents.StateStore.SaveFinalizeBlockResponse: CometBFT's store is not part of this model; a save is a plain write, nil and empty event lists are the same stored value, and the JSON file is read back as written.
