# A verified model of cvms

cvms watches validators of Cosmos chains. This project models its most intricate parts in Dafny
and proves what they are for:

- **Bech32 addresses** (`Bech32Checksum`, `Bech32Codec`, `Bech32Refusals`, `Bech32Vectors`,
  `BitGroups`, `AddressCodec`): the BCH
  checksum of BIP-173 as polynomial arithmetic over GF(32), the string codec, the bit regrouper and
  the address codec on top. The word-level loops are proved equal to the algebra, and the algebra
  is used to show error detection, uniqueness and the round trips. The vectors that BIP-173 publishes
  are proved with literal results, and every refusal is explained by the first thing that is wrong.
- **The vote indexer** (`VoteChain`, `VoteSync`, `VoteProgress`, `VoteStalls`, `VoteDetails`,
  `VoteService`, `RecentVotes`): a
  state machine over batches, failed and silent workers, panics, crashes, lost acknowledgements,
  other writers of `validator_info` and retention. The vote table is shown to hold each row exactly
  once after every run, and it is shown exactly when a batch advances and what stalls it.
- **The finality provider indexer** (`FinalityVotes`, `FinalityDetails`, `FinalityService`): the same shape with other
  off-by-ones, a lag of three heights, a presence check and unordered rows.
- **The Axelar amplifier indexer** (`AmplifierPolls`, `AmplifierRuns`, `AmplifierBatching`,
  `AmplifierDetails`, `AmplifierService`): poll rows
  written by two separate commits that are replayed after partial failures.
- **Yoda** (`YodaScan`, `YodaMisses`): a batched scan with early exit against the full scan, and a
  diff of snapshots that accounts for every miss.
- **The validator info builder** (`ValidatorInfoList`): the retry loop that feeds the vote indexer.
- `Windows` holds the batch window that the three indexers share, `IntSets` the sets of heights of a batch.

## How the model is built

Each stateful component has two layers. A pure layer gives the step functions, with everything the
outside decides (node answers, which workers fail or stay silent, how each database call ends) in an
explicit environment; runs are folds over events, and the theorems quantify over all of them. An
imperative layer keeps the program's own loops and objects, and each of its methods is proved equal
to the step function, up to a loop over whole lists of events. Results that the program receives
from goroutines or reads out of a Go map are taken in an arbitrary order.

The three `Details` modules say, field by field and for all inputs, what the single operations do, in
terms of the blocks, rows and lists themselves, so that the step functions do not rest on each other
alone.

A lemma's `hide` statements only keep definitions out of a proof that does not need them.

Assumptions about the outside are always explicit predicates:

- `VoteChain.Honest`: from height 1 on the node serves the block it was asked for, each block commits
  its predecessor and carries one signature slot per validator of it, the proposer is one of the
  validators, and validators of one height belong to different operators. `VoteChain.Timely` (used
  with retention only): block times do not run backwards.
- `VoteSync.OwnInfos`: a consensus key is never listed under another operator than its owner.
- `VoteSync.NoStrands`: no batch ends below the persisted pointer while rows are stored, none of them
  below that end. It takes a lost acknowledgement, retention and a drop of the latest height together
  to break it; `VoteSync.NeverReturns` gives two conditions that rule it out,
  `VoteProgress.StrandsExactly` shows that it cannot be dropped, and `VoteStalls.StrandingHappens` is
  a run from a first start that breaks it.
- `AmplifierPolls.Orderly`: a (poll, verifier) pair starts at one height, votes at most once, and
  not before it starts. That the table agrees with what was taken in needs none of this.
- `AmplifierRuns.AllowedRun` (for frozen rows only): a batch whose vote commit is applied but not
  acknowledged had seen all its heights.

## Where the code and its description differ

- The chain check of the vote indexer does not protect a batch that starts at height 1: with the base
  at height 0 it passes also when every height is missing (`VoteSync.ChainCheckExact`).
- A lost acknowledgement, retention and a drop of the latest height (which is overwritten with
  whatever the node reports) can move the vote indexer's persisted pointer back
  (`VoteProgress.ReturnsExactly`) and leave rows above it (`VoteProgress.DropAfterRetentionReturns`,
  `VoteStalls.StrandingHappens`). Until retention removes those rows no batch that reaches them
  commits, also after a restart (`VoteStalls.StrandedRowsBlock`).
- The error of the validator info builder is discarded, and the vote indexer carries on with an empty
  list. So an address that no fetched list shows, such as the former key of an operator that has
  rotated it, never gets a row, and the pointer does not pass a height that mentions it
  (`VoteStalls.UnlistedKeyStalls`, `ValidatorInfoList.ReplacedKeyStalls`). When a rotation falls
  between two fetches of one call the list names the operator twice, and the upsert refuses all of it
  (`ValidatorInfoList.RotationFails`). `VoteProgress.AdvancesExactly` says exactly when a batch
  advances.
- The amplifier indexer does not check that every height was collected, so a height whose worker
  panicked is skipped for good (`AmplifierBatching.SilentHeightLosesPoll`), and a row can change after
  its window has passed (`AmplifierRuns.UnacknowledgedSilenceThaws`).
  `AmplifierBatching.RunTableExact` and `AmplifierRuns.RowChangesOverRun` say exactly when.
- The Yoda scan asks for request 1 unless the request count is one more than a multiple of twenty,
  and it agrees with the full scan if and only if no live request lies in a lower batch than an
  expired one (`YodaScan.EarlyExitExact`); heights that do not decrease with the id are enough.

## Model

| member | source | states |
|---|---|---|
| `Bech32Checksum.GeneratorWord` | internal/helper/sdk/bech32.go:17-18 | each of the five generator constants is the packed form of the GF(32) polynomial that one set top bit folds in |
| `Bech32Checksum.StepInjective` | internal/helper/sdk/bech32.go:79-87 | one checksum step loses nothing: two remainders that agree after the same symbol agreed before it |
| `Bech32Checksum.RunIsLoad` | internal/helper/sdk/bech32.go:79-112 | feeding up to six symbols adds them, without feedback, to what feeding zeros would give |
| `Bech32Checksum.BurstChangesRemainder` | internal/helper/sdk/bech32.go:79-112 | two different symbol strings that differ only inside six consecutive positions leave different remainders, at any length |
| `Bech32Checksum.PackFaithful` | internal/helper/sdk/bech32.go:41-115 | the packed remainder stays below 2^30 and determines the polynomial |
| `Bech32Checksum.FoldGenerators` | internal/helper/sdk/bech32.go:49-53 | the five conditional xors add the reduction of the top coefficient |
| `Bech32Checksum.Round` | internal/helper/sdk/bech32.go:80-86 | shift, mask, xor and fold on the machine word are one step of the polynomial |
| `Bech32Checksum.ComputePolymod` | internal/helper/sdk/bech32.go:41-115 | all loops together give the packed remainder of the expanded prefix, the values and the checksum (six zeros when it is absent) |
| `Bech32Vectors.ExpandSpells` | internal/helper/sdk/bech32.go:45-78 | every prefix character of one byte is spelled by its two halves, 32 times the upper three bits plus the lower five, with a zero between the halves |
| `Bech32Checksum.ComputeChecksum` | internal/helper/sdk/bech32.go:126-136 | the six symbols cut from the word are the checksum of prefix and values |
| `Bech32Checksum.CheckChecksum` | internal/helper/sdk/bech32.go:143-146 | comparing the word with 1 accepts exactly the strings with remainder 1 |
| `Bech32Checksum.ChecksumUnique` | internal/helper/sdk/bech32.go:126-146 | for every prefix and values exactly one six-symbol checksum verifies, and it is the one that is written |
| `Bech32Checksum.BurstDetected` | internal/helper/sdk/bech32.go:41-146 | after an accepted string, every other string that differs from it inside six consecutive symbols only is rejected |
| `Bech32Codec.ReadBytes` | internal/helper/sdk/bech32.go:22-32 | the loop gives the values of the characters, or the first character outside the charset |
| `Bech32Codec.ToBytesSpells` | internal/helper/sdk/bech32.go:22-32 | accepted characters are spelled back by the values read |
| `Bech32Codec.ToBytesOfLetters` | internal/helper/sdk/bech32.go:22-32 | reading what was spelled gives the values back |
| `Bech32Codec.NormalizeString` | internal/helper/sdk/bech32.go:153-178 | the loop reports the first bad character or mixed case, else lowers the string and says whether it had upper case |
| `Bech32Codec.NormalizeAccepts` | internal/helper/sdk/bech32.go:153-178 | accepted exactly when all characters are printable and not both cases occur, with the lowercased string as result |
| `Bech32Codec.WriteData` | internal/helper/sdk/bech32.go:290-296 | one letter per value is appended, or the first value above five bits is the error |
| `Bech32Codec.WriteChecksum` | internal/helper/sdk/bech32.go:128-135 | the letters of the six checksum symbols are appended |
| `Bech32Codec.WriteString` | internal/helper/sdk/bech32.go:281-302 | the builder ends up with lowercased prefix, separator, data and checksum, or the first byte above five bits is the error |
| `Bech32Codec.ReadString` | internal/helper/sdk/bech32.go:189-261 | the decoder with its loops and the word checksum gives the specified result or error, with the expected and actual checksum |
| `Bech32Codec.SplitAtSeparator` | internal/helper/sdk/bech32.go:193-200 | the last `1` is the separator even when the prefix contains `1` |
| `Bech32Codec.DecodeUnsafeParts` | internal/helper/sdk/bech32.go:189-210 | what is accepted is rebuilt from its three parts |
| `Bech32Codec.DecodeUndoesEncode` | internal/helper/sdk/bech32.go:220-302 | an encoded string in either case decodes to the lowercased prefix and the same data |
| `Bech32Codec.DecodeOfEncode` | internal/helper/sdk/bech32.go:220-302 | decoding undoes encoding for every non-empty printable prefix and all five-bit data |
| `Bech32Codec.AcceptedIsCanonical` | internal/helper/sdk/bech32.go:220-302 | encoding the result of a successful decode gives the input in lower case |
| `Bech32Codec.AcceptedExactly` | internal/helper/sdk/bech32.go:220-302 | a string decodes to a prefix and data if and only if it is not mixed-case and, in lower case, is the encoding of that printable lower-case prefix and five-bit data |
| `Bech32Codec.ChecksumErrorIsReal` | internal/helper/sdk/bech32.go:239-257 | the expected and the actual checksum of a checksum error always differ |
| `Bech32Vectors.ShortestVector` | internal/helper/sdk/bech32.go:220-302 | the published vector: "a" without data is "a12uel5l", and "A12UEL5L" decodes to it |
| `Bech32Vectors.CharsetVector` | internal/helper/sdk/bech32.go:20-302 | the published vector that uses every letter once: "abcdef" with the values 0 to 31, both ways |
| `Bech32Vectors.UpperCaseChecksumRefused` | internal/helper/sdk/bech32.go:239-257 | the published invalid string "A1G7SGD8": checksum error with the expected and the actual checksum |
| `Bech32Vectors.InvalidVectors` | internal/helper/sdk/bech32.go:153-236 | seven published invalid strings, each with its error |
| `Bech32Refusals.CleanExactly` | internal/helper/sdk/bech32.go:153-178 | the characters that pass are 33 to 126 without both cases, and lowering moves A to Z by 32 and nothing else |
| `Bech32Refusals.CaseErrorIsFirst` | internal/helper/sdk/bech32.go:153-178 | the fault reported is the one at the first character at which the string stops being clean |
| `Bech32Refusals.ToBytesExact` | internal/helper/sdk/bech32.go:22-32 | reading fails exactly at the first character outside the charset |
| `Bech32Refusals.BadByteIsFirst` | internal/helper/sdk/bech32.go:290-296 | the value the writer refuses is the first one above 31 |
| `Bech32Refusals.RefusalExplained` | internal/helper/sdk/bech32.go:189-257 | every refusal names the first check that fails, in the order length, characters and case, separator, charset, checksum, and the expected checksum of a checksum error would have been accepted |
| `Bech32Refusals.OneExplanation` | internal/helper/sdk/bech32.go:189-257 | no string has two such explanations |
| `Bech32Codec.StringBurstDetected` | internal/helper/sdk/bech32.go:220-261 | a string that decodes no longer does after any change, other than of letter case, inside six consecutive characters after its separator that puts no separator there, at any length |
| `BitGroups.AddByte` | internal/helper/sdk/bech32.go:327-361 | the inner loop moves exactly the low bits of one byte, in order, into the groups, and ends |
| `BitGroups.Regroup` | internal/helper/sdk/bech32.go:306-377 | the nested loops compute the regrouping of the bit stream, with both errors, within the announced size |
| `BitGroups.ConvertBitsKeepsStream` | internal/helper/sdk/bech32.go:306-377 | for all widths 1 to 8 the bit stream survives, padded with fewer than one group of zeros, or cut by at most four zeros; every other tail is an error |
| `BitGroups.ConvertBitsSize` | internal/helper/sdk/bech32.go:316-319 | the result never exceeds the size computed for it |
| `BitGroups.StreamInjective` | internal/helper/sdk/bech32.go:306-377 | groups that fit their width are determined by their bit stream |
| `BitGroups.StreamAt` | internal/helper/sdk/bech32.go:306-361 | bit j of group i, from the highest, is bit n - 1 - j of its number |
| `BitGroups.WidthsExact` | internal/helper/sdk/bech32.go:307-309 | widths outside 1 to 8 are refused, whatever the data, and only they are |
| `BitGroups.PadThenUnpad` | internal/helper/sdk/bech32.go:306-377 | there with padding and back without returns the data if and only if the padding is shorter than an input group and at most four bits |
| `BitGroups.UnpadThenPad` | internal/helper/sdk/bech32.go:306-377 | there without padding and back with it returns the data if and only if the dropped tail is shorter than an input group |
| `AddressCodec.FiveBitForm` | internal/helper/sdk/keys_parse.go:15-22 | every byte string has a five-bit form of the rounded-up length that converts back |
| `AddressCodec.AddressRoundTrip` | internal/helper/sdk/keys_parse.go:15-37 | encoding never fails; decoding returns the lowercased prefix and the bytes if and only if the prefix is non-empty and printable and the string is within the limit; a longer one is a length error |
| `AddressCodec.EntryPointsRoundTrip` | internal/helper/sdk/bech32.go:379-405 | the round trip for both decoders if and only if the string has at most 1023 and at most 90 characters |
| `AddressCodec.AddressIsCanonical` | internal/helper/sdk/keys_parse.go:15-37 | re-encoding an accepted address gives it back in lower case |
| `VoteChain.ExpectedDistinct` | docker/postgres/schema/02-init-voteindexer.sql:2-15 | the rows of any interval of heights satisfy the unique constraint on height and validator |
| `VoteChain.FilterCuts` | internal/packages/consensus/voteindexer/repository/repository.go:140-145 | a row filter that is monotone in the height cuts the table at one height |
| `VoteSync.UpsertKeeps` | internal/common/indexer/repository/validator_info.go:62-77 | the upsert keeps every id and moniker, hands out fresh distinct ids, and keeps each key with its owner |
| `VoteSync.UpsertStores` | internal/common/indexer/repository/validator_info.go:62-77 | every listed address is afterwards the key of its operator's row |
| `VoteSync.ReloadByOwner` | internal/packages/consensus/voteindexer/indexer/indexer.go:205-218 | after the rows are loaded a key of the table reads as the id of its owner's row, and every other address as before |
| `VoteSync.RegisterKeeps` | internal/packages/consensus/voteindexer/indexer/batch_sync.go:132-183 | whichever call fails, every cached address still maps to the row id of its operator, also after a key rotation |
| `VoteSync.VotesUpToCorrect` | internal/packages/consensus/voteindexer/indexer/batch_sync.go:255-329 | with a valid cache a height never panics, fails exactly for want of an id, and otherwise gives one row per validator with the status the next block dictates |
| `VoteSync.ProposerById` | internal/packages/consensus/voteindexer/indexer/batch_sync.go:302-312 | comparing ids finds the proposer |
| `VoteSync.MakeVotesCorrect` | internal/packages/consensus/voteindexer/indexer/batch_sync.go:255-329 | a height is built exactly when every address it mentions is cached, and then its rows are the expected ones |
| `VoteSync.ChainCheckExact` | internal/packages/consensus/voteindexer/indexer/batch_sync.go:185-192 | the check passes if and only if no height is missing, or the base is height 0 and all are |
| `VoteSync.BuildCorrect` | internal/packages/consensus/voteindexer/indexer/batch_sync.go:185-213 | what passes the check is exactly the rows of the heights from the base up to below the end |
| `VoteSync.StaleFitsExactly` | internal/packages/consensus/voteindexer/repository/repository.go:57-82 | the rows of a process that missed an acknowledgement satisfy the unique constraint if and only if the stored interval of heights does not overlap theirs |
| `VoteSync.NothingBelow` | internal/packages/consensus/voteindexer/repository/repository.go:121-152 | no stored row lies below a height exactly when the stored interval starts there or is empty |
| `VoteSync.BatchKeeps` | internal/packages/consensus/voteindexer/indexer/batch_sync.go:17-251 | every batch, however it ends, keeps the table invariant unless it strands rows, and never moves the pointer back unless it goes back; a stale process whose next height is stored changes nothing |
| `VoteSync.RetentionKeeps` | internal/packages/consensus/voteindexer/repository/repository.go:121-152 | in any state, deleting old rows raises the lower end of the stored interval to the first height not older than the cutoff |
| `VoteSync.StepKeeps` | internal/packages/consensus/voteindexer/indexer/indexer.go:114-158 | every event keeps the invariant; without retention the lower end stays |
| `VoteSync.ExactlyOnce` | internal/packages/consensus/voteindexer/indexer/batch_sync.go:17-251 | after any run in which no batch strands rows, with retention at any time, the table is, in order, one row per validator of each height of an interval ending below the persisted pointer, starting at the initial pointer when nothing was deleted; the cache agrees with the info table; the pointer never decreases unless a batch goes back |
| `VoteSync.NeverReturns` | internal/common/indexer.go:90-112 | no batch goes back when there is no retention, and none when the latest height never drops |
| `VoteSync.ExactlyOnceWhileRising` | internal/packages/consensus/voteindexer/indexer/batch_sync.go:17-251 | so in both cases every run leaves exactly that table, and the pointer never decreases |
| `VoteSync.StaleStuck` | internal/packages/consensus/voteindexer/indexer/indexer.go:143-158 | after a lost acknowledgement, until a restart and without retention, no run writes a row or moves the pointer |
| `VoteSync.FreshStart` | internal/packages/consensus/voteindexer/indexer/indexer.go:60-87 | the state of a first start satisfies the invariant |
| `VoteSync.RowsOfHeight` | internal/packages/consensus/voteindexer/indexer/batch_sync.go:274-326 | in every such state each validator of each stored height has exactly one row, with its operator's id and its status |
| `VoteSync.SurvivorsContiguous` | internal/packages/consensus/voteindexer/repository/repository.go:121-152 | the stored heights are exactly an interval ending at pointer - 1 |
| `VoteProgress.RegisterCovers` | internal/packages/consensus/voteindexer/indexer/batch_sync.go:132-183 | when the info list names every unseen address, registration leaves every mentioned address cached |
| `VoteProgress.BuildNeeds` | internal/packages/consensus/voteindexer/indexer/batch_sync.go:185-213 | rows are built only when every worker of the window delivered and every address below its end is cached |
| `VoteProgress.BuildExact` | internal/packages/consensus/voteindexer/indexer/batch_sync.go:185-213 | over a complete window there is no panic, and rows are built if and only if every address below the end is cached |
| `VoteProgress.RegisterExact` | internal/packages/consensus/voteindexer/indexer/batch_sync.go:154-183 | registration succeeds if and only if there is nothing to register, or both calls work and the list names no operator twice |
| `VoteProgress.CachedExactly` | internal/packages/consensus/voteindexer/indexer/batch_sync.go:171-183 | after a successful registration an address is cached if and only if it was before, or it is the key of its operator's row and the table was read |
| `VoteProgress.CommitsExactly` | internal/packages/consensus/voteindexer/indexer/batch_sync.go:17-251 | whatever fails, a batch writes if and only if there is something to fetch, every worker delivers, registration succeeds, every address below the end is then cached and no row clashes; it then writes exactly the expected rows and its end, and otherwise no row and no pointer |
| `VoteProgress.AdvancesExactly` | internal/packages/consensus/voteindexer/indexer/batch_sync.go:17-251 | in every state that keeps the invariant, a clash is a stored height of the window, which a process in step with the table never meets; a batch commits if and only if it writes and the commit is applied, and then moves to min(latest, in-memory pointer + 11) |
| `VoteProgress.GoodBatchAdvances` | internal/packages/consensus/voteindexer/indexer/batch_sync.go:26-34 | so a batch in which nothing fails and whose list names every unseen address, no operator twice, moves the pointer to min(latest, pointer + 11) |
| `VoteProgress.CatchUp` | internal/packages/consensus/voteindexer/indexer/batch_sync.go:21-34 | after n good batches the pointer is min(latest, pointer + 11 n): latest is reached after ceil(gap / 11) batches, not before, and kept |
| `VoteProgress.ReturnsExactly` | internal/packages/consensus/voteindexer/indexer/batch_sync.go:243-250 | a good batch moves the persisted pointer back if and only if it ends below it and no stored row lies below that end |
| `VoteProgress.StrandsExactly` | internal/packages/consensus/voteindexer/indexer/batch_sync.go:243-250 | a good batch leaves a table that is not one interval below the pointer if and only if, besides, a row is stored |
| `VoteProgress.DropAfterRetentionReturns` | internal/packages/consensus/voteindexer/indexer/batch_sync.go:26-34 | on every chain: a lost acknowledgement, retention of the rows below the later end and a lower latest height move the pointer back, and strand rows if and only if retention kept the last block |
| `VoteProgress.RepeatedOperatorFails` | internal/common/indexer/repository/validator_info.go:62-77 | a list that names an operator twice makes the batch fail and changes nothing but the cache |
| `VoteStalls.BatchCases` | internal/packages/consensus/voteindexer/indexer/batch_sync.go:17-251 | every batch, however it ends, writes its whole window with all addresses cached, or leaves votes and pointers alone |
| `VoteStalls.UnlistedKeyStalls` | internal/packages/consensus/voteindexer/indexer/batch_sync.go:154-213 | over any run, restarts and other services included: while no accepted list names an address without a row, the pointer does not pass a height that mentions it, and does not move at all while every window covers that height |
| `VoteStalls.StrandedRowsBlock` | docker/postgres/schema/02-init-voteindexer.sql:12 | over any run, restarts included: a stored row at or above the pointer holds the pointer at or below its height until retention removes it |
| `VoteStalls.StrandingBlocks` | internal/packages/consensus/voteindexer/indexer/batch_sync.go:243-250 | which is what a batch that strands rows leaves behind |
| `VoteStalls.StrandingHappens` | internal/packages/consensus/voteindexer/indexer/batch_sync.go:26-34 | a concrete run from a first start: latest height 12 with a lost acknowledgement, retention of what is older than 8, latest height 4: the pointer falls to 4 and the table is not the rows of any interval below it |
| `VoteDetails.UpsertExact` | internal/common/indexer/repository/validator_info.go:62-77 | a listed operator takes the listed key; with a row it keeps id and moniker, without one it gets a new id and the listed moniker |
| `VoteDetails.UpsertLeaves` | internal/common/indexer/repository/validator_info.go:62-77 | an operator that is not listed is neither added nor changed |
| `VoteDetails.OtherServiceStores` | internal/common/indexer/repository/validator_info.go:62-77 | another writer's list is stored with keys and monikers, or refused as a whole, and touches nothing else |
| `VoteDetails.NewAddressesExactly` | internal/packages/consensus/voteindexer/indexer/batch_sync.go:132-152 | the unseen addresses are exactly the proposers and validators of collected blocks that are not cached |
| `VoteDetails.RegisterRereads` | internal/packages/consensus/voteindexer/indexer/batch_sync.go:154-183 | with unseen addresses and a working read every row of the table ends up cached, also after a refused insert; otherwise the cache stays, and the table changes only with an accepted statement |
| `VoteDetails.VotesExactly` | internal/packages/consensus/voteindexer/indexer/batch_sync.go:255-329 | for any two blocks: which of rows, missing id and index panic comes out, and row k in terms of validator k, its signature slot and the proposer |
| `VoteDetails.BuildExactly` | internal/packages/consensus/voteindexer/indexer/batch_sync.go:185-213 | for any collected blocks: a window is built if and only if each block commits the height of the one before it, missing ones counting as zero, and every height can be built |
| `VoteDetails.FinishExactly` | internal/packages/consensus/voteindexer/repository/repository.go:33-89 | the write is refused as a whole if and only if the commit is, or a height and validator would have two rows whatever their status; else rows and pointer are stored |
| `VoteDetails.PanicsExactly` | internal/packages/consensus/voteindexer/indexer/batch_sync.go:185-192 | a batch panics if and only if no worker failed, registration succeeded, and a silent height comes up before an address without id |
| `VoteDetails.RestartRecovers` | internal/packages/consensus/voteindexer/indexer/indexer.go:58-87 | after a crash or a panic, in every state, memory is the persisted pointer and the cache is exactly the table |
| `VoteDetails.CrashThenAdvances` | internal/packages/consensus/voteindexer/indexer/indexer.go:58-87 | so from every state of the invariant, stale ones included, the first good batch after a crash commits and advances |
| `VoteService.Repository.InsertValidatorVoteList` | internal/packages/consensus/voteindexer/repository/repository.go:33-89 | rows and pointer change together or not at all, and the unique constraint holds throughout |
| `VoteService.Repository.InsertValidatorInfoList` | internal/common/indexer/repository/validator_info.go:62-77 | the whole list is upserted, or nothing when an operator is listed twice or a key is taken |
| `VoteService.Repository.DeleteOldValidatorVoteList` | internal/packages/consensus/voteindexer/repository/repository.go:121-152 | keeps exactly the rows not older than the cutoff, in order |
| `VoteService.CollectSummaries` | internal/packages/consensus/voteindexer/indexer/batch_sync.go:69-130 | in any order of arrival: an error exactly when a worker of the window failed, else the base and all heights whose worker was not silent |
| `VoteService.FindUnseen` | internal/packages/consensus/voteindexer/indexer/batch_sync.go:132-152 | in any traversal order the collected set is the proposers and validators missing from the cache |
| `VoteService.MakeValidatorVoteList` | internal/packages/consensus/voteindexer/indexer/batch_sync.go:255-329 | the loop gives the specified rows, missing-id error or panic |
| `VoteService.BuildVotes` | internal/packages/consensus/voteindexer/indexer/batch_sync.go:185-213 | the loop over the heights gives the specified rows, error or panic |
| `VoteService.LoadRows` | internal/packages/consensus/voteindexer/indexer/indexer.go:205-218 | reading the table in any order gives the same cache, old entries kept |
| `VoteService.Indexer.FetchValidatorInfoList` | internal/packages/consensus/voteindexer/indexer/indexer.go:205-218 | the cache becomes the reloaded one, or stays on failure |
| `VoteService.Indexer.RegisterNew` | internal/packages/consensus/voteindexer/indexer/batch_sync.go:132-183 | equals the specified registration in every failure case and keeps the table valid |
| `VoteService.Indexer.BatchSync` | internal/packages/consensus/voteindexer/indexer/batch_sync.go:17-251 | new state, returned pointer and outcome equal the specified batch |
| `VoteService.Indexer.Start` | internal/packages/consensus/voteindexer/indexer/indexer.go:58-87 | the pointer is asked for at most six times; the process runs exactly when one of them and the cache load succeed, and then memory is the persisted pointer and the cache is exactly the keys of the table with their ids |
| `VoteService.Indexer.LoopOnce` | internal/packages/consensus/voteindexer/indexer/indexer.go:143-158 | one turn of the loop is one step of the state machine: the in-memory pointer moves on success only |
| `VoteService.Indexer.Handle` | internal/packages/consensus/voteindexer/indexer/indexer.go:87-158 | a turn of the loop, a new process, another writer of validator_info and the retention loop are each one step of the state machine |
| `VoteService.Indexer.RunAll` | internal/packages/consensus/voteindexer/indexer/indexer.go:87-158 | so the objects go through every list of events exactly as the state machine does |
| `RecentVotes.RecentRowsExact` | internal/packages/consensus/voteindexer/repository/repository.go:100-112 | the selected rows are those of the last min(100, stored) heights below the pointer |
| `RecentVotes.RecentVotesExact` | internal/packages/consensus/voteindexer/repository/repository.go:91-119 | per moniker the counters equal the numbers of nil signatures, signatures and proposals on the chain over that window and add up to all its rows; the extremes are the first and last height with a validator of it; a moniker without one has no row |
| `RecentVotes.CountIsCard` | internal/packages/consensus/voteindexer/repository/repository.go:100-112 | the direct count is the number of validator slots of those heights with that moniker and status, read off the blocks |
| `FinalityVotes.InsertKeeps` | internal/common/indexer/repository/finality_provider_info.go:62-75 | an accepted insert adds exactly the listed keys with fresh distinct ids |
| `FinalityVotes.BuildCorrect` | internal/packages/babylon/finality-provider/indexer/batch_sync.go:166-184 | the presence check admits no holes: what is built is exactly the rows of the fetched heights |
| `FinalityVotes.StaleClashes` | internal/packages/babylon/finality-provider/repository/repository.go:52-76 | a stale process clashes with the unique constraint |
| `FinalityVotes.BatchKeeps` | internal/packages/babylon/finality-provider/indexer/batch_sync.go:20-217 | every batch keeps the invariant and never moves the pointer back |
| `FinalityVotes.ExactlyOnce` | internal/packages/babylon/finality-provider/indexer/batch_sync.go:20-217 | after any run the table is one row per provider of each height above the initial and up to the persisted pointer, voted exactly where a vote was seen |
| `FinalityVotes.FreshStart` | internal/packages/babylon/finality-provider/indexer/indexer.go:53-89 | the state of a first start satisfies the invariant |
| `FinalityVotes.CommitsExactly` | internal/packages/babylon/finality-provider/indexer/batch_sync.go:20-217 | in every reachable state and whatever fails, a batch commits if and only if memory agrees with the table, there is something to fetch, every worker delivers a non-empty vote list, registration succeeds, every key is then cached and the commit is applied |
| `FinalityVotes.GoodBatchAdvances` | internal/packages/babylon/finality-provider/indexer/batch_sync.go:26-37 | so a good batch moves the pointer to min(latest - 3, pointer + 11) |
| `FinalityVotes.CatchUp` | internal/packages/babylon/finality-provider/indexer/batch_sync.go:26-37 | latest - 3 is reached after ceil(gap / 11) good batches, not before, and kept |
| `FinalityDetails.RowsOfHeight` | internal/packages/babylon/finality-provider/indexer/batch_sync.go:63-86 | each key active or voting at a stored height has one row there, voted exactly when its vote was seen, and none to the contrary |
| `FinalityDetails.RowsHaveKeys` | internal/packages/babylon/finality-provider/indexer/batch_sync.go:219-244 | every row belongs to such a key of its height |
| `FinalityDetails.FinishExactly` | internal/packages/babylon/finality-provider/repository/repository.go:32-83 | the write is refused as a whole if and only if the commit is, or a stored and a new row share height and provider, whether voted or not |
| `FinalityDetails.RegisterRereads` | internal/packages/babylon/finality-provider/indexer/batch_sync.go:136-164 | with unseen keys and a working read the cache ends up equal to the table, also after a refused insert; otherwise it stays; an accepted list adds exactly its keys |
| `FinalityDetails.RetryAccepted` | internal/packages/babylon/finality-provider/indexer/batch_sync.go:136-164 | so after another writer was first, the retry that lists the unseen keys once is accepted |
| `FinalityDetails.PanicsExactly` | internal/packages/babylon/finality-provider/indexer/batch_sync.go:166-184 | a batch panics if and only if no worker failed, registration succeeded, and a silent height comes up before a key without id |
| `FinalityDetails.RestartRecovers` | internal/packages/babylon/finality-provider/indexer/indexer.go:53-89 | after a crash or a panic, in every state, memory is the persisted pointer and the cache is the table |
| `FinalityDetails.CrashThenAdvances` | internal/packages/babylon/finality-provider/indexer/indexer.go:53-89 | so the first good batch after a crash commits and advances |
| `FinalityDetails.OtherServiceStores` | internal/common/indexer/repository/finality_provider_info.go:62-75 | another writer's keys are added, or none of them is, and nothing else changes |
| `FinalityService.MarkVotes` | internal/packages/babylon/finality-provider/indexer/batch_sync.go:63-86 | every active key, and every key that voted, with voted exactly for the latter |
| `FinalityService.CollectVotes` | internal/packages/babylon/finality-provider/indexer/batch_sync.go:47-120 | in any order of arrival: an error exactly when a worker failed or a height had no votes yet, else the vote maps of all heights whose worker was not silent |
| `FinalityService.FindNew` | internal/packages/babylon/finality-provider/indexer/batch_sync.go:122-134 | in any traversal order the keys missing from the cache |
| `FinalityService.MakeVoteList` | internal/packages/babylon/finality-provider/indexer/batch_sync.go:219-244 | in any traversal order one row per key of the map, or an error exactly when a key has no id |
| `FinalityService.BuildVotes` | internal/packages/babylon/finality-provider/indexer/batch_sync.go:166-184 | the loop gives the specified rows, error or panic |
| `FinalityService.FinalityIndexer.InsertInfoList` | internal/common/indexer/repository/finality_provider_info.go:62-75 | the whole list is inserted, or nothing when a key is present |
| `FinalityService.FinalityIndexer.RegisterNew` | internal/packages/babylon/finality-provider/indexer/batch_sync.go:136-164 | equals the specified registration in every failure case |
| `FinalityService.FinalityIndexer.BatchSync` | internal/packages/babylon/finality-provider/indexer/batch_sync.go:20-217 | new state and outcome equal the specified batch |
| `FinalityService.FinalityIndexer.Handle` | internal/packages/babylon/finality-provider/indexer/indexer.go:53-143 | a turn of the loop, with a restart after a panic, a new process and another writer of the info table are each one step of the state machine |
| `FinalityService.FinalityIndexer.RunAll` | internal/packages/babylon/finality-provider/indexer/indexer.go:53-143 | so the object goes through every list of events exactly as the state machine does |
| `AmplifierPolls.ReflectsUnique` | internal/packages/axelar/amplifier-verifier/repository/repository.go:33-115 | the polls and votes taken in determine the table |
| `AmplifierPolls.InsertInitsSpec` | internal/packages/axelar/amplifier-verifier/repository/repository.go:33-47 | the insert changes no existing row and adds a row for every other listed pair |
| `AmplifierPolls.UpdateVotesSpec` | internal/packages/axelar/amplifier-verifier/repository/repository.go:79-91 | the update changes only rows with a listed vote less than ten blocks after the start, and never a start |
| `AmplifierPolls.InitListSpec` | internal/packages/axelar/amplifier-verifier/indexer/sync.go:179-200 | the initial rows are exactly the participants of the polls started at the heights that were seen |
| `AmplifierPolls.UpdateListSpec` | internal/packages/axelar/amplifier-verifier/indexer/sync.go:202-228 | the updates are exactly the votes of cached verifiers at the heights that were seen |
| `AmplifierDetails.FirstInitWins` | internal/packages/axelar/amplifier-verifier/repository/repository.go:33-47 | of several listed rows of a new pair the first is inserted |
| `AmplifierDetails.LastVoteWins` | internal/packages/axelar/amplifier-verifier/repository/repository.go:79-91 | of several listed votes of a pair the last one less than ten blocks after the start stays |
| `AmplifierDetails.NewVerifiersExactly` | internal/packages/axelar/amplifier-verifier/indexer/sync.go:132-146 | the unseen verifiers are exactly the participants that are not cached |
| `AmplifierDetails.UnknownExactly` | internal/packages/axelar/amplifier-verifier/indexer/sync.go:202-228 | the batch gives up if and only if a vote that was seen names a contract outside the list, also when its verifier is not cached |
| `AmplifierDetails.RegisterRereads` | internal/packages/axelar/amplifier-verifier/indexer/sync.go:148-177 | with unseen verifiers and a working read the cache ends up equal to the table, also after a refused insert; otherwise it stays |
| `AmplifierDetails.RetryAccepted` | internal/packages/axelar/amplifier-verifier/indexer/sync.go:148-177 | so after another writer was first, the retry of the same batch registers |
| `AmplifierDetails.CommitsExactly` | internal/packages/axelar/amplifier-verifier/indexer/sync.go:21-273 | whatever fails: exactly when a batch commits, when it moves the persisted pointer and to where, and when no row changes |
| `AmplifierDetails.RestartRecovers` | internal/packages/axelar/amplifier-verifier/indexer/indexer.go:54-71 | a new process reads pointer and verifiers from the tables in every state; another writer's verifiers are added and nothing else changes |
| `AmplifierRuns.InitsKeep` | internal/packages/axelar/amplifier-verifier/indexer/sync.go:253-259 | the first commit alone leaves a table that is right for the polls taken in so far |
| `AmplifierRuns.VotesKeep` | internal/packages/axelar/amplifier-verifier/indexer/sync.go:261-265 | the second commit makes it right for the votes as well |
| `AmplifierRuns.RegisterKeeps` | internal/packages/axelar/amplifier-verifier/indexer/sync.go:148-177 | in every failure case registration changes the cache only and loses nothing from it; when it succeeds every participant is cached |
| `AmplifierRuns.StepKeeps` | internal/packages/axelar/amplifier-verifier/indexer/sync.go:21-273 | every event keeps the table in agreement with what was taken in |
| `AmplifierRuns.TableReflectsHistory` | internal/packages/axelar/amplifier-verifier/indexer/sync.go:21-273 | so does every run, with failures between the commits, crashes, lost acknowledgements and silent workers in any mix |
| `AmplifierDetails.HistExactly` | internal/packages/axelar/amplifier-verifier/indexer/sync.go:253-265 | what counts as taken in, read off the events: the heights some batch stored polls of, and the votes some batch applied with those polls in the table |
| `AmplifierRuns.VoteHeightInWindow` | internal/packages/axelar/amplifier-verifier/repository/repository.go:85-90 | a vote height is 0 or lies in the ten blocks from the start |
| `AmplifierRuns.NewlyTaken` | internal/packages/axelar/amplifier-verifier/indexer/sync.go:202-228 | a step takes in only votes of heights of its own window that were seen, and forgets nothing |
| `AmplifierRuns.RowChangesExactly` | internal/packages/axelar/amplifier-verifier/repository/repository.go:79-108 | a step removes or moves no row, and changes one if and only if it newly takes in a vote of the pair less than ten blocks after the start |
| `AmplifierRuns.RowChangesOverRun` | internal/packages/axelar/amplifier-verifier/repository/repository.go:79-108 | the same if and only if over every run |
| `AmplifierRuns.CaughtUpOverRun` | internal/packages/axelar/amplifier-verifier/indexer/sync.go:21-273 | over such a run every height the process would read again has been taken in completely |
| `AmplifierRuns.ExpiredRowsFrozen` | internal/packages/axelar/amplifier-verifier/repository/repository.go:79-108 | in every run from a first start in which a vote commit that lost its acknowledgement had seen all its heights: once the persisted pointer is at least start + 9, nothing that follows changes the row |
| `AmplifierRuns.UnacknowledgedSilenceThaws` | internal/packages/axelar/amplifier-verifier/indexer/sync.go:253-265 | without that an expired row does change: a vote silent in an unacknowledged batch is taken in by the replay |
| `AmplifierBatching.CompleteExact` | internal/packages/axelar/amplifier-verifier/indexer/sync.go:116-130 | a table is the one of a set of heights if and only if what it took in differs from them in nothing a row shows |
| `AmplifierBatching.RunTableExact` | internal/packages/axelar/amplifier-verifier/indexer/sync.go:21-273 | for every run from a first start: the table is the one of the heights up to the pointer if and only if heights lost to silent workers, and heights inserted above the pointer by half-failed batches, show in no row |
| `AmplifierBatching.DropLeavesRow` | internal/packages/axelar/amplifier-verifier/indexer/sync.go:27-38 | a half-failed batch followed by a committed one with a lower latest height leaves a row above the pointer |
| `AmplifierBatching.SilentHeightLosesPoll` | internal/packages/axelar/amplifier-verifier/indexer/sync.go:56-58 | one silent worker loses a poll although the batch commits |
| `AmplifierBatching.LoudTable` | internal/packages/axelar/amplifier-verifier/indexer/sync.go:132-265 | without silent workers the table of every run is determined by the furthest poll commit and the furthest vote commit |
| `AmplifierBatching.BatchingInvisible` | internal/packages/axelar/amplifier-verifier/indexer/sync.go:132-265 | two such runs that got equally far have the same table, however they were batched, whatever failed, and also when the latest height drops |
| `AmplifierBatching.CommittedTable` | internal/packages/axelar/amplifier-verifier/indexer/sync.go:132-265 | when the latest height never drops either, a committed batch leaves exactly the table of the heights up to the pointer |
| `AmplifierService.Collect` | internal/packages/axelar/amplifier-verifier/indexer/sync.go:46-130 | in any order of arrival: an error exactly when a worker failed, else every height reads as it was seen, silent ones as empty |
| `AmplifierService.FindNewVerifiers` | internal/packages/axelar/amplifier-verifier/indexer/sync.go:132-146 | the participants missing from the cache |
| `AmplifierService.HeightLists` | internal/packages/axelar/amplifier-verifier/indexer/sync.go:183-226 | the rows and updates of one height, or the unknown-contract error |
| `AmplifierService.BuildLists` | internal/packages/axelar/amplifier-verifier/indexer/sync.go:179-228 | both lists of a batch, or the error before anything is written |
| `AmplifierService.AmplifierIndexer.InsertInitPollVoteList` | internal/packages/axelar/amplifier-verifier/repository/repository.go:33-47 | do nothing on conflict, element by element |
| `AmplifierService.AmplifierIndexer.UpdatePollVoteList` | internal/packages/axelar/amplifier-verifier/repository/repository.go:50-115 | guarded updates and pointer together or not at all |
| `AmplifierService.AmplifierIndexer.InsertVerifierInfoList` | internal/common/indexer/repository/verifier_info.go:62-75 | all listed addresses are inserted, or none when one is already there |
| `AmplifierService.AmplifierIndexer.FetchValidatorInfoList` | internal/packages/axelar/amplifier-verifier/indexer/indexer.go:170-180 | in any order of rows the cache gains exactly the registered addresses |
| `AmplifierService.AmplifierIndexer.BatchSync` | internal/packages/axelar/amplifier-verifier/indexer/sync.go:21-273 | new state and outcome equal the specified batch |
| `AmplifierService.AmplifierIndexer.Handle` | internal/packages/axelar/amplifier-verifier/indexer/indexer.go:54-125 | a turn of the loop, a new process and another writer of the info table are each one step of the state machine |
| `AmplifierService.AmplifierIndexer.RunAll` | internal/packages/axelar/amplifier-verifier/indexer/indexer.go:54-125 | so the object goes through every list of events exactly as the state machine does |
| `YodaScan.ScanBatch` | internal/packages/duty/yoda/api/api.go:111-173 | in any order of arrival: the live requests of the twenty ids, each once, and whether one had expired |
| `YodaScan.LiveExact` | internal/packages/duty/yoda/api/api.go:147-172 | a delivered request is expired when it is more than the window old, live when its age is between 0 and the window, and carries id, height, age and misses as answered |
| `YodaScan.Scan` | internal/packages/duty/yoda/api/api.go:98-178 | the loop returns exactly the live requests above the batch at which it stops, each once, as the node described them |
| `YodaScan.EarlyExitExact` | internal/packages/duty/yoda/api/api.go:103-106 | stopping early returns what the full scan returns if and only if no live request lies in a lower batch than an expired one |
| `YodaScan.EarlyExitLosesNothing` | internal/packages/duty/yoda/api/api.go:103-106 | heights that do not decrease with the id are enough for that |
| `YodaScan.EarlyExitCanLose` | internal/packages/duty/yoda/api/api.go:174-176 | an input on which the early exit loses a live request |
| `YodaScan.FloorExact` | internal/packages/duty/yoda/api/api.go:110-114 | the full scan reaches down to request 2 always, and to request 1 unless the count is one more than a multiple of twenty |
| `YodaScan.ScanIsFullScan` | internal/packages/duty/yoda/api/api.go:98-178 | under the exact condition the scan returns the live requests from 2 on, and request 1 exactly when count % 20 is not 1 |
| `YodaScan.MapMisses` | internal/packages/duty/yoda/api/api.go:195-203 | the validator's missed requests in order and the maximum of their ages |
| `YodaMisses.GetYodaStatus` | internal/packages/duty/yoda/api/api.go:98-272 | in any order of answers the poll fails exactly when a validator's query fails; else it lists the validators that were not silent, each with exactly the scanned requests it missed; MaxMisses is attained, is the maximum, is 0 without misses and lies in [0, window] |
| `YodaMisses.ProcessYodaMisses` | internal/packages/duty/yoda/processor/processor.go:7-37 | the nested loops give the specified reports, each an old entry with one of its requests unchanged |
| `YodaMisses.LastEntryCounts` | internal/packages/duty/yoda/processor/processor.go:15-22 | the new ids of a validator are those of its last entry, should it be listed twice |
| `YodaMisses.ReportsExactly` | internal/packages/duty/yoda/processor/processor.go:23-35 | a report is an entry of the old snapshot with, unchanged, one of its requests, above id zero, whose validator is listed anew without it; nothing else is reported |
| `YodaMisses.ReportsInOrder` | internal/packages/duty/yoda/processor/processor.go:23-35 | reports come in the order of the old entries |
| `YodaMisses.ReportedExactly` | internal/packages/duty/yoda/collector/collector.go:165-256 | over any run of polls, failed ones included: what has been reported is exactly what one successful poll showed and the next successful one did not, with all it carried |
| `YodaMisses.ReportsAreFinished` | internal/packages/duty/yoda/processor/processor.go:7-37 | each miss that ended while its validator stayed listed is reported once, and nothing else is |
| `YodaMisses.Collector.LoopOnce` | internal/packages/duty/yoda/collector/collector.go:165-256 | the carried snapshot is replaced and reports are added after a successful poll only |
| `YodaMisses.MissesConserved` | internal/packages/duty/yoda/collector/collector.go:178-252 | over any run of polls a miss was opened as often as it was reported, lost with its validator, or is still open |
| `YodaMisses.ReportedAtMostOnce` | internal/packages/duty/yoda/processor/processor.go:8-11 | a miss that never reopens is reported at most once, and not while it is open |
| `YodaMisses.TotalsConserved` | internal/packages/duty/yoda/collector/collector.go:178-252 | the same in total numbers |
| `YodaMisses.NothingLost` | internal/packages/duty/yoda/collector/collector.go:178-252 | with a fixed validator set openings equal reports plus open misses |
| `ValidatorInfoList.MakeValidatorInfoList` | internal/common/function/function.go:160-230 | for every order of addresses: at most three extra fetches in all, success exactly when every address is in one of the four lists, the least sufficient number of fetches, one entry per address |
| `ValidatorInfoList.KnownCovers` | internal/common/function/function.go:160-197 | what is covered after no, one, two and three extra fetches: the bonded, and in turn the unbonding, unbonded and unspecified validators |
| `ValidatorInfoList.LatestCounts` | internal/common/function/function.go:213-230 | of several descriptions of an address the latest one fetched counts |
| `ValidatorInfoList.EntriesDistinct` | internal/common/function/function.go:180-208 | no address is listed twice |
| `ValidatorInfoList.ContentFixed` | internal/common/function/function.go:213-230 | when the fetched lists agree, the entries do not depend on the order |
| `ValidatorInfoList.FeedsVoteIndexer` | internal/packages/consensus/voteindexer/indexer/batch_sync.go:154-166 | the entries pair each address with its own operator and cover every requested address, and no operator is listed twice if and only if no two requested addresses are keys of one operator |
| `ValidatorInfoList.RotationFails` | internal/packages/consensus/voteindexer/indexer/batch_sync.go:154-170 | two unseen keys of one operator in a window, both shown by the fetched lists, make the batch fail at registration, with nothing written |
| `ValidatorInfoList.BuiltLeavesOut` | internal/common/function/function.go:180-210 | an address that no fetched list shows is not in the list passed on, whether the builder succeeded or gave up |
| `ValidatorInfoList.ReplacedKeyStalls` | internal/packages/consensus/voteindexer/indexer/batch_sync.go:154-213 | so over any run of batches fed by the builder, restarts and other services, the pointer does not pass a height that mentions a key without a row which no fetched list shows |

## Left out

- HTTP, JSON and gRPC calls, metrics, logging, sleeps, endpoint health checks and start-up: node answers are functions of the height, and every call may fail where the environment says so.
- Goroutines and channels: a worker delivers, reports a failure or stays silent after a recovered panic; results are taken in an arbitrary order.
- `Lh.LatestHeight` changing in the middle of a batch: a batch sees one value.
- The SQL engine: tables are sequences, maps or multisets with the stated constraints, transactions are atomic, created_at and table partitions are absent.
- Initialising the index pointer: an existing pointer is never touched there, so this would only add easy members.
- Validator mode of the indexers (filtering rows by moniker): network mode only.
- Time retention of the finality provider and amplifier tables, which is by creation time and not by block time.
- The activation height of the finality provider indexer: the initial pointer is the one after it was applied.
- VoteService.Indexer.BatchSync: pointers are non-negative; the program reads them from a table that only it writes.
- Verifier ids of the amplifier tables: a verifier stands for its unique id.
- The active flag in a validator's Yoda status.
- Reading public keys (base64, SHA-256, RIPEMD-160) and the bera and babylon branches of the validator info builder.
- Upper case outside ASCII in prefixes: a string is a sequence of one-byte characters.
- Float rounding: block counts and windows are integers.
- Heartbeats, block data analytics, covenant committee, BTC light client, veindexer and checkpoint.
