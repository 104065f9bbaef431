# RGB++ indexer: a verified model

The repository indexes RGB++ assets: cells on CKB whose lock names a Bitcoin output. A scanner walks CKB
blocks in rounds and commits cells, spends, transitions and a checkpoint in one database transaction. A
second, Bitcoin side records what a data source says about the bound outputs, with a refresh queue, a drain
worker, a sweep over all live bindings, and address histories on top.

This project models those parts in Dafny and proves what they promise:

- **The index** (`chain`, `index`, `rounds`, `scan`, `runs`, `lag`, `loss`, `partial`, `witnesses`, `integrity`,
  `growth`, `prefixes`). `Index.IsIndex` says what the tables of a chain prefix are, over the chain alone, without rounds or batches. The scanner is
  proved against it: a round turns the index of a prefix into the index of a longer one, and in every run with
  reorganisations of any depth, crashes at any stop point and any round boundaries, the tables are the index
  of exactly one chain prefix ending at the stored checkpoint hash. `WellFormed` is what CKB guarantees:
  distinct transaction hashes, cells created before they are consumed, and consumed once.
- **Readings** (`layout`, `columns`, `facts`, `reach`, `readings`, `verdicts`). The same tables read column by column
  over the blocks, with byte layouts and constants written out and none of the functions that build rows:
  which outputs and transactions have a row, what each column holds, which blocks a round covers, what it writes
  on the checkpoint row and which headers it keeps. `Readings.RunReads` says so of every run.
- **The imperative layer** (`store`, `scanner`, `search`). The store and the scanner are classes with mutable
  tables; each method is proved equal to the function on tables that the theorems are about.
- **Codecs** (`bytes`, `hex`, `molecule`, `protocol`, `commitment`, `extract`, `resolve`, `inputorder`). Molecule
  tables as in CKB RFC 0008, both lock args, the commitment pre-image, and rebuilding a cell from its row. Both hash
  functions are parameters, so every result is about pre-images.
- **Observations and queue** (`observation`, `statuses`, `queue`, `source`, `reconcile`, `drains`). One statement is
  one update of a map. Which due rows a claim picks among equals is left open; everything holds for every choice.
- **Walks and aggregates** (`order`, `keyset`, `sweep`, `cursor`, `activity`, `deltas`, `walks`, `holders`). Pages are
  read while the scanner changes the tables underneath.

## What the proofs turned up

Each of these is a place where the code does less than its comments say. For each but the last, which is a note on
a comment, the exact condition under which the code keeps the promise is proved, over all inputs or all runs.

- **Input order.** A commitment is meant to cover the inputs in transaction order. They come in search order, all
  RGB++ inputs first (`InputOrder.SearchOrder`). The recorded pre-image is the promised one exactly when no BTC
  time cell is consumed ahead of an RGB++ cell (`InputOrder.CommitsInOrderExactly`). `Witnesses.OutOfOrder` is a
  transaction with readable cells whose two pre-images differ.
- **Input count.** The pre-image stores both counts in one byte. Over what transactions really commit to, outputs
  under the protocol's own locks and inputs that are all different, it identifies a transaction exactly up to 255
  inputs (`Extract.IdentifiesExactlyUpTo255`), whatever the number of outputs: an issuance and a transfer with
  256 inputs collide (`Extract.TransactionsCollide`). A collision takes an input whose index is the number that the
  last four bytes of a lock's code hash spell (`Commitment.LongerSpellsIndex`); without such inputs pre-images
  identify transactions with any number of inputs (`Extract.AnyCountExactly`).
- **Silent indexer.** `synced_tip` falls back to the node tip when the indexer reports none, and the round then
  commits over blocks the indexer never populated (`Scan.SilentIndexerSkipsBlocks`). For every configuration there
  is a chain on which that loses a cell (`Witnesses.LostToSilence`). An indexer populated up to some block leaves
  right tables exactly when the blocks above it in the range neither consume a cell under either lock nor create
  a readable one (`Loss.CommitIsRightExactly`). One that answers with any part of the range's transactions does
  so exactly when each transaction left out is silent in that sense (`Partial.AnyPartRightExactly`). The run
  theorems assume a populated indexer (`Scan.Serves`).
- **Start block 0.** Block 0 is never scanned. The tables are the index of the whole chain all the same exactly
  when block 0 is silent in that sense (`Loss.StartAtZeroExactly`); `Witnesses.BlockZeroIsMissed` is a chain on which
  it is not.
- **Unreadable cells.** An output whose args do not parse is skipped, but consuming it fails the round: a round with
  work to do succeeds if and only if everything it consumes is readable (`Scan.RoundSucceeds`).
  `Witnesses.UnreadableFails` is a chain on which it fails.
- **Backoff.** A claim pushes an entry back so that a dying worker does not leave it spinning. While the entry waits
  that holds exactly as long as nobody queues it again (`Queue.BackoffHoldsExactly`). A failed refresh does queue
  it again: after a completed drain every claimed entry that stays is due at once (`Reconcile.WhatEntriesKeep`),
  and after one that breaks off exactly the ones it had queued again are (`Reconcile.WhatABreakLeaves`).
  `Queue.BackoffCancelled` is a run in which that happens.
- **Lost follow-ups.** A refresh whose follow-up fails breaks off with the answer already recorded. A later drain that
  claims the outpoint asks again if and only if that answer has outlived the TTL, and clears the entry otherwise.
  Even when asked again, an answer of the same kind is not newly spent, and the spender is not fetched
  (`Reconcile.FailedFollowUpIsForgotten`).
- **No attempts allowed.** The configuration accepts a `max_attempts` of 0. An entry queued between a drain's drop
  and its claim is then claimed all the same (`Queue.ClaimedDespiteZero`), though only once
  (`Queue.ClaimedAtMostMaxTimes`). The limit holds in all runs exactly when it is not 0 (`Queue.LimitHoldsExactly`).
- **Spent is not final.** A cell shown as pending stays so exactly as long as every further answer says spent
  (`Statuses.PendingStaysExactly`). An `Unknown` answer ends it, and the cell is shown live again
  (`Statuses.SpentThenUnknown`).
- **Labels count as observations.** Labels are not meant to disturb freshness. An outpoint without an observation
  counts as fresh for a whole TTL after its first label (`Statuses.FreshExactly`), so a drain clears its queue
  entry without asking Bitcoin, exactly while the label is younger than the TTL
  (`Reconcile.LabelledEntryLeavesUnasked`).
- **Large heights.** A confirmed spend at a height of 2^31 or more reads back with height 0, and every other answer
  as given (`Statuses.ReadsLastAnswer`).
- **Where a txid comes from.** migrations/0001_init.sql speaks of a transition's Bitcoin txid as taken from consumed
  cells; the code takes it from the outputs, and so does the model.

## Model

| member | source | states |
|---|---|---|
| Runs.AlwaysOneChain | crates/indexer/src/scanner.rs:113-255 | in every run of rounds, reorganisations of any depth, crashes and verifier writes, the tables are untouched or exactly the index of one chain prefix whose last block is the stored checkpoint, by number and hash |
| Runs.SameCheckpointSameFacts | crates/indexer/src/scanner.rs:147-245 | two runs that end at the same checkpoint hash hold the same cells and the same indexed transition columns, whatever their batch boundaries, tips, reorganisations and crashes were |
| Prefixes.PrefixesExtend | crates/indexer/src/scanner.rs:559-594 | in every run, the prefix behind the tables after a later event extends the one after an earlier event |
| Prefixes.OnChainOrRefused | crates/indexer/src/scanner.rs:559-594 | whenever a scan of any run starts, the tables are the index of the chain the node then has, or the scan changes no fact, header or checkpoint |
| Runs.CheckedMeansOnChain | crates/indexer/src/scanner.rs:559-594 | if the stored hash is the node's hash at the checkpoint, the whole index is the index of the node's own chain |
| Scan.ForkIsRefused | crates/indexer/src/scanner.rs:559-594 | a round whose checkpoint the node no longer has, or has under another hash, changes no fact, header or checkpoint; it is idle iff there is no block to cover, and fails otherwise, naming the checkpoint if the hash differs |
| Runs.CheckpointGrows | crates/indexer/src/scanner.rs:120-148 | no event moves the checkpoint back, and a moved checkpoint is at least the lag below the node's tip and below the indexer's where it reports one |
| Runs.CatchesUp | crates/indexer/src/scanner.rs:147-255 | against a standing, readable chain, enough rounds of any batch size reach exactly the highest block that is the lag below both tips, and the index of that prefix |
| Lag.LagIsEnough | crates/types/src/config.rs:625-628 | if no reorganisation reaches down to the highest tip ever seen minus the lag, the checkpoint check always passes and every stored anchor stays canonical |
| Lag.NoRoundFails | crates/indexer/src/scanner.rs:559-594 | under the same hypothesis, and with readable consumed cells, no round of the run ever fails |
| Scan.CommitExtends | crates/indexer/src/scanner.rs:113-255 | a committed round turns the index of a prefix of the node's chain into the index of a longer prefix |
| Scan.RoundSucceeds | crates/indexer/src/scanner.rs:113-255 | with its checkpoint on the node's chain and the highest block in reach above it, a round commits iff every RGB++ cell consumed in its range has parseable args, and ends at that block or after a full batch |
| Reach.CommitsExactly | crates/indexer/src/scanner.rs:113-255 | the same over the blocks: it commits iff every consumed cell under either lock has args of that lock's shape |
| Reach.CommittedRange | crates/types/src/config.rs:625-628 | a committed round covers exactly the blocks above the checkpoint, from the start block, the lag below the node's tip and the indexer's, and within one batch; an indexer populated up to its tip has populated all of them |
| Reach.IdleExactly | crates/indexer/src/scanner.rs:120-145 | a round is idle iff there is no such block |
| Reach.CheckpointRow | crates/store/src/state.rs:64-85 | every column of the checkpoint row after a round: number and hash of the last covered block or as before, the lesser of both tips, the highest block in reach or 0, the lag, and the error mark |
| Reach.HeaderRows | crates/indexer/src/scanner.rs:213-252 | the header rows after a round: its active blocks and its last one, with the node's hash, parent and timestamp, the old ones otherwise, and of all of them those within the retention |
| Scan.SilentIndexerSkipsBlocks | crates/ckb/src/client.rs:81-87 | with no indexer tip and nothing populated, a fresh scanner commits a checkpoint over blocks and records nothing |
| Loss.CommitIsRightExactly | crates/ckb/src/client.rs:81-87 | for an indexer populated up to any block, a committed round leaves the index its checkpoint names iff the blocks of its range that the indexer had not populated are silent |
| Partial.AnyPartRightExactly | crates/indexer/src/scanner.rs:150-246 | whatever part of a range's transactions the indexer answers with, what the round then writes is the index of the whole range iff every transaction left out is silent |
| Witnesses.LostToSilence | crates/ckb/src/client.rs:81-87 | for every configuration, a well-formed chain and an indexer without a tip on which the first round commits tables that are not the index its checkpoint names |
| Witnesses.BlockZeroIsMissed | crates/store/src/state.rs:32-48 | for every configuration with `start_block = 0`, a chain on which the first round commits without the cell that block 0 creates |
| Witnesses.UnreadableFails | crates/indexer/src/scanner.rs:444-526 | for every configuration, a served chain that consumes a cell with empty args, on which the first round fails |
| Loss.MissedIsMissing | crates/indexer/src/scanner.rs:150-246 | once a transaction that is not silent is skipped, no longer prefix makes the tables right |
| Loss.SilentRange | crates/indexer/src/scanner.rs:293-366 | silent transactions change nothing about what the index should hold |
| Loss.StartAtZeroExactly | crates/store/src/state.rs:32-48 | with `start_block = 0` the tables are the index of the whole prefix iff block 0 is silent |
| Scan.ReportedAll | crates/ckb/src/client.rs:110-147 | an indexer populated up to the range reports every record the chain holds there |
| Index.IndexUnique | crates/store/src/cells.rs:24-69 | the reference definition determines the tables: a chain prefix has one index |
| Index.StepIndex | crates/store/src/cells.rs:33-45 | writing one transaction's backfills, cells, spends and transition turns the index of a history into that of the history one longer |
| Index.StepConsumed | crates/indexer/src/scanner.rs:293-366 | a consumed older cell, stored or backfilled, ends up with its creation anchor and this consumption |
| Index.StepCreated | crates/indexer/src/extract.rs:56-94 | a created output has an unconsumed row if and only if it is readable |
| Index.StepUntouched | crates/store/src/cells.rs:174-234 | keys a transaction neither creates nor consumes keep their row or their absence |
| Columns.EveryRow | crates/indexer/src/extract.rs:180-241 | an output of an indexed chain has a row iff it is under a lock with args of its shape and a covered block creates or consumes it; its binding columns spell its args, its target, type, asset, amount, capacity, data and hash columns are those of the output, and both anchors are those of the blocks |
| Columns.EveryKey | crates/store/src/cells.rs:174-209 | every cell row is the row of an output of that chain |
| Facts.EveryTransition | crates/indexer/src/extract.rs:243-301 | a covered transaction has a row iff it takes or keeps a cell; anchor, timestamp, kind, counts and common Bitcoin txid are those of its block, inputs and outputs, and the expected commitment is the hash of the bytes written out from them |
| Facts.EveryHash | crates/store/src/transitions.rs:97-130 | every transition row is the row of a covered transaction of that chain |
| Facts.ReadableIs | crates/indexer/src/scanner.rs:444-526 | a transaction can be processed iff every cell it takes under either lock has args of that lock's shape |
| Facts.SilentIs | crates/indexer/src/scanner.rs:262-291 | a transaction is silent iff it takes no cell under either lock and keeps no output |
| Readings.RunReads | crates/indexer/src/scanner.rs:113-255 | in every run, nothing is indexed or both tables read in all these columns as one chain some scan saw, up to the stored checkpoint |
| Verdicts.VerdictsAreTheVerifiers | crates/store/src/transitions.rs:64-130 | in every run, a transition's verdict is what the verifier last said while the row was there, or unchecked if it said nothing |
| Rounds.RangeExact | crates/indexer/src/scanner.rs:293-366 | processing the records of a range succeeds iff it is readable, and writing the batch then extends the index over exactly that range, cells created and consumed inside it included |
| Rounds.ResolveOne | crates/indexer/src/scanner.rs:369-409 | resolving a consumed cell from batch, table or node gives what the chain says, and backfills it iff it was unknown |
| Rounds.IndexIsFaithful | crates/indexer/src/scanner.rs:369-442 | the rows of an index describe the cells of every chain that extends it |
| Rounds.UnreportedContributesNothing | crates/indexer/src/scanner.rs:262-291 | a transaction neither search reports has no facts to contribute |
| Resolve.ThreeWaysAgree | crates/indexer/src/scanner.rs:369-526 | a pending row, a stored row (spent or not) and the node give the same out point, binding, cell output and data |
| Resolve.RebuildInvertsBuild | crates/indexer/src/resolve.rs:43-77 | rebuilding lock, type, capacity and binding from the columns inverts building the row |
| Resolve.ScriptJsonRoundTrip | crates/indexer/src/resolve.rs:17-35 | a script survives its JSON column |
| Resolve.DeploymentChangeIsNoticed | crates/indexer/src/resolve.rs:43-72 | rebuilding under another deployment's code hash gives the original lock or an exhibited hash collision |
| Hex.HexRoundTrip | crates/types/src/ckb.rs:82-98 | prefixed hex decodes to the bytes it was printed from |
| Layout.HexIs | crates/types/src/ckb.rs:82-98 | prefixed hex is `0x` and two lower-case digits a byte, high digit first |
| Matching.MatchedInputsExact | crates/indexer/src/scanner.rs:262-291 | the merged record names each consumed RGB++ or BTC time cell of a transaction, exactly once |
| InputOrder.SearchOrder | crates/indexer/src/scanner.rs:265-288 | the matched inputs are the RGB++ positions in transaction order, then the BTC time positions in transaction order |
| InputOrder.OrderedExactly | crates/indexer/src/scanner.rs:265-288 | they are in transaction order iff no BTC time cell is consumed ahead of an RGB++ cell |
| InputOrder.CommitsInOrderExactly | crates/indexer/src/extract.rs:149-177 | the pre-image covers the inputs in transaction order, as promised, iff no BTC time cell is consumed ahead of an RGB++ cell |
| Witnesses.OutOfOrder | crates/indexer/src/extract.rs:149-177 | for any two different locks, a well-formed history and a readable transaction consuming a BTC time cell and then an RGB++ cell, listed as positions 1, 0, whose recorded and promised pre-images differ |
| Matching.OutputsAreReported | crates/indexer/src/scanner.rs:262-291 | a transaction creating a cell under either lock is reported by the search |
| Search.CollectTransactionsInRange | crates/ckb/src/client.rs:110-147 | for any page limit, the result is the served records of the range, each as often as served, sorted by (block, position); a record is in it iff it was served and lies in the range |
| Search.SortByPositionSorts | crates/ckb/src/client.rs:140-147 | the sort orders by (block, position) and keeps exactly the same records |
| Search.MergeExact | crates/indexer/src/scanner.rs:262-291 | merging both searches gives one record per reported transaction, in chain order, with the union of its matched cells |
| Search.MergeAny | crates/indexer/src/scanner.rs:262-291 | merging any record lists, in any order and with any repetition, keeps keys strictly ascending and distinct, and gives each key exactly the union of its cells, without duplicates |
| Search.HonestAnswers | crates/ckb/src/client.rs:110-147 | for every snapshot there is an indexer that meets what the scanner is proved against |
| Search.CollectRange | crates/indexer/src/scanner.rs:262-291 | the two paged searches and the map merge compute exactly the chain's record list for the range |
| Scanning.CkbScanner.ResolveOneInput | crates/indexer/src/scanner.rs:369-409 | batch first, then store, then node: equals the resolution function |
| Scanning.CkbScanner.ProcessOne | crates/indexer/src/scanner.rs:293-366 | pushes exactly one transaction's backfills, cells, spends and transition onto the batch, or fails as specified |
| Scanning.CkbScanner.BuildRound | crates/indexer/src/scanner.rs:150-230 | builds the round's batch, headers and checkpoint from one snapshot |
| Scanning.CkbScanner.ScanOnce | crates/indexer/src/scanner.rs:113-255 | the imperative round leaves the store in exactly the state the run theorems speak about, on every outcome |
| Scanning.CkbScanner.RunOnce | crates/indexer/src/scanner.rs:53-110 | a failed round only leaves an error mark on the checkpoint row |
| Storage.Store.ApplyBatch | crates/store/src/cells.rs:24-69 | the loops over headers, cells, spends and transitions leave the composed table update, with the checkpoint moved last and the counts exact |
| Storage.Store.InsertCellIn | crates/store/src/cells.rs:174-209 | a conflicting insert moves only the creation anchor |
| Storage.Store.ApplySpendIn | crates/store/src/cells.rs:213-234 | updates the named row's consumption and reports whether there was one |
| Storage.Store.InsertTransitionIn | crates/store/src/transitions.rs:97-130 | a conflicting insert leaves the verifier's columns alone |
| Storage.Store.UpsertBlockIn | crates/store/src/blocks.rs:58-81 | the activity flag is never cleared |
| Storage.Store.InitStream | crates/store/src/state.rs:32-48 | creates the checkpoint row just below the start block, once |
| Storage.Store.RecordChainProgress | crates/store/src/state.rs:64-85 | changes tip, target and lag, not the checkpoint |
| Storage.Store.PruneBlocksBelow | crates/store/src/blocks.rs:49-55 | removes exactly the headers below the bound |
| Storage.Store.SetCommitmentResult | crates/store/src/transitions.rs:64-81 | changes only the verifier's columns of one row |
| Tables.AppliedTwice | crates/store/src/cells.rs:24-69 | applying any batch a second time changes nothing |
| Tables.BatchKeepsVerdictsAndFlags | crates/store/src/transitions.rs:97-130 | no batch disturbs a recorded commitment result or clears an activity flag |
| Tables.GrowBatch | crates/store/src/cells.rs:33-45 | writing a grown batch at once equals writing its first part and then the rest, if the old spends do not name the new cells |
| Integrity.ConsumerHasTransition | crates/indexer/src/extract.rs:252-301 | in every index, a consumed cell's consumer has a transition row at the same block anchor |
| Integrity.CreatedBeforeConsumed | crates/indexer/src/scanner.rs:293-366 | creation precedes consumption in (block, position) order |
| Integrity.InputCountExact | crates/indexer/src/extract.rs:252-301 | a transition's input count is the number of cells it consumed |
| Integrity.OutputCountExact | crates/indexer/src/extract.rs:252-301 | a transition's output count is the number of cells it created |
| Integrity.UnindexedCreationIsSpent | crates/indexer/src/scanner.rs:444-526 | a cell whose creator has no transition row was backfilled and has been consumed |
| Integrity.EverySpendUpdatesOneRow | crates/store/src/cells.rs:213-234 | every spend in a batch the scanner builds hits a row |
| Growth.RowKept | crates/store/src/cells.rs:174-234 | a longer index keeps every row of a shorter one, cell and consumption |
| Growth.RowOld | crates/store/src/cells.rs:174-234 | a row the longer index creates or consumes inside the shorter range is already in the shorter index |
| Growth.PlacesDistinct | crates/store/src/activity.rs:15-17 | two transition rows never share (block, position) |
| Extract.ReadableOutputsExact | crates/indexer/src/extract.rs:56-94 | the outputs kept are the classified, parseable ones, in order, each once |
| Extract.ClassifyOutputs | crates/indexer/src/extract.rs:56-94 | the loop computes that list |
| Extract.TransitionKindMeaning | crates/indexer/src/extract.rs:96-130 | when each of the five labels is given, by the kinds going in and out |
| Extract.DeriveBtcTxid | crates/indexer/src/extract.rs:132-156 | the txid shared by all RGB++ outputs, or none |
| Extract.ComputeExpectedCommitment | crates/indexer/src/extract.rs:158-177 | the hash of tag, version, both counts, the inputs' out points in order and each output with its args' last 32 bytes zero and its data, written out; none iff there is nothing to commit to or some args do not parse |
| Extract.ExtractTx | crates/indexer/src/extract.rs:243-301 | the facts of one transaction, or an error when nothing readable matched |
| Extract.EqualPreimagesExactly | crates/indexer/src/extract.rs:158-177 | with at most 255 inputs each, pre-images are equal iff the inputs, output cells and data are equal up to the Bitcoin txid in the lock args |
| Extract.IdentifiesExactlyUpTo255 | crates/indexer/src/extract.rs:158-177 | over genuine outputs and different inputs, pre-images identify all transactions with at most n inputs up to the txid iff n is at most 255 |
| Extract.TransactionsCollide | crates/types/src/commitment.rs:37-38 | under any protocol, an issuance and a transfer with 256 different inputs share their pre-image |
| Extract.AnyCountExactly | crates/indexer/src/extract.rs:158-177 | with no input index equal to the one either lock's code hash spells, pre-images are equal iff inputs, output cells and data are equal up to the txid, for any number of inputs |
| Extract.PreimageAndTxidPinAll | crates/indexer/src/extract.rs:149-177 | the pre-image and the common Bitcoin txid together determine out points, cells and data |
| Commitment.Encode | crates/types/src/commitment.rs:33-47 | the two appending loops give the tag, the version high byte first, the two count bytes, the out points, then each output's bytes and its data, all written out |
| Commitment.PreimageDecodesUniquely | crates/types/src/commitment.rs:33-47 | the concatenated tables and byte vectors decode uniquely |
| Commitment.CountByteCollision | crates/types/src/commitment.rs:37-38 | for any lock code, contents with no inputs and with 256 different inputs, both with one output under that lock, share their encoding |
| Commitment.LongerSpellsIndex | crates/types/src/commitment.rs:33-47 | contents with different input counts share their encoding only if a certain input of the longer list has the index spelled by the end of the other's first code hash |
| Commitment.UniqueExactlyUpTo255 | crates/types/src/commitment.rs:37-38 | the encoding tells all contents with at most n inputs apart iff n is at most 255 |
| Commitment.FindCommitment | crates/types/src/commitment.rs:104-123 | over scripts that push `RGB++` and 32 bytes or just 32 bytes: the first tagged payload wins over any bare one, and the first bare one otherwise |
| Commitment.PayloadIs | crates/types/src/commitment.rs:65-98 | an OP_RETURN script yields a payload iff it pushes it directly, with 1 to 75 bytes, or behind one of the three push opcodes with its length |
| Molecule.EncodeTable | crates/types/src/molecule.rs:27-44 | the offset loops write size, offsets and fields |
| Molecule.ReadTableFields | crates/types/src/molecule.rs:123-171 | the validating reader, with its error for each malformed header |
| Molecule.TableFieldsExact | crates/types/src/molecule.rs:123-171 | below 2^32 bytes the reader accepts exactly the encodings and returns what was encoded: every accepted table is canonical |
| Molecule.BytesExact | crates/types/src/molecule.rs:174-189 | byte vectors decode exactly from their encodings |
| Molecule.ScriptExact | crates/types/src/molecule.rs:191-224 | scripts decode exactly from their encodings |
| Molecule.CellOutputInjective | crates/types/src/molecule.rs:62-69 | different cell outputs have different encodings |
| Layout.ScriptIs | crates/types/src/molecule.rs:46-52 | a script is encoded as size, offsets 16, 48 and 49, code hash, hash type 0, 1, 2 or 4, and its args with their length |
| Layout.CellIs | crates/types/src/molecule.rs:62-69 | a cell output is encoded as size, offsets 16, 24 and the end of the lock, capacity in eight bytes, lock, and type if there is one |
| Protocol.LockArgsExact | crates/types/src/protocol.rs:94-177 | both lock args parse exactly from their encodings, and every accepted string re-encodes to itself |
| Layout.SealParsesExactly | crates/types/src/protocol.rs:84-125 | RGB++ lock args parse iff they are the output in four bytes, low byte first, and the displayed txid back to front |
| Layout.TimeParsesExactly | crates/types/src/protocol.rs:127-177 | BTC time lock args parse iff they are the table of target lock, `after` in four bytes, and the displayed txid back to front |
| Protocol.PlaceholderZeroesTheTail | crates/types/src/protocol.rs:190-204 | the rewrite zeroes exactly the last 32 bytes and keeps the length; args that do not parse are refused |
| Protocol.PlaceholderParses | crates/types/src/protocol.rs:190-204 | the rewritten args parse to the same binding with a zero txid, and rewriting again changes nothing |
| Protocol.PlaceholderForgetsOnlyTheTxid | crates/types/src/protocol.rs:190-204 | two placeholder forms agree iff the args agree up to the txid |
| Protocol.ArgsOfOneBinding | crates/types/src/protocol.rs:190-204 | args that agree up to the txid and parse to the same txid are equal |
| Statuses.ReadsLastAnswer | crates/store/src/btc.rs:49-92 | after any run of answers and labels an outpoint reads as its last answer, a confirmed height from 2^31 on as 0 |
| Statuses.ShowsLastAnswer | migrations/0001_init.sql:288-305 | the SQL view shows what the Rust derivation makes of the last answer; an unconsumed cell is pending iff that answer was spent, and a consumed one is spent |
| Statuses.PendingStaysExactly | crates/store/src/btc.rs:62-79 | an unconsumed cell shown as pending stays so over a stretch of a run iff every answer in it says spent |
| Statuses.SpentThenUnknown | crates/store/src/btc.rs:62-79 | a run in which a confirmed spend is followed by an unknown answer shows the cell pending and then live |
| Statuses.FreshExactly | crates/store/src/models.rs:280-282 | an outpoint counts as fresh iff its last answer, or if it was never asked about its first label, is younger than the TTL |
| Source.ObserveMany | crates/btc/src/source.rs:125-184 | every distinct outpoint is answered exactly once: from its place in its transaction's list when another output of the transaction is asked about and the source has the list, unknown beyond its end, by its own status otherwise |
| Source.GroupingIsInvisible | crates/btc/src/source.rs:125-184 | every answer to every request is what the outpoint's own query gives iff the source's two ways of answering agree |
| Source.ReturnsOwnStatus | crates/btc/src/source.rs:125-184 | and what a request returns is then each outpoint's own status, whatever else was asked about |
| Source.SortDedupExact | crates/btc/src/source.rs:125-184 | sorting and deduplicating leaves the requested outputs, ascending |
| Reconcile.Reconciler.RefreshOutpoints | crates/indexer/src/reconcile.rs:110-192 | a completed refresh records the source's answers about the first `cap` outpoints, and queues exactly the rest and the unanswered, due at once at priority 10 or better; each newly spent outpoint's spender was fetched and each of its bound outputs got the address the source lists at that place |
| Reconcile.Reconciler.FollowUpSpend | crates/indexer/src/reconcile.rs:214-259 | each bound output of the fetched spender gets the address listed at its own place, no other row or column changes, and it fails iff the fetch does |
| Reconcile.Reconciler.DrainQueueOnce | crates/indexer/src/reconcile.rs:440-529 | the queue a drain leaves, exactly, on both outcomes: when it breaks off nothing it refreshed is removed, and what it had queued again is known |
| Reconcile.Reconciler.ReconcileAddress | crates/indexer/src/reconcile.rs:268-335 | absence from the source's list never changes a status: exactly the cells recorded for the address that it lacks, and the outpoints it lists that are recorded as spent, are asked about, in sorted order and each once, and only an own answer is recorded; listed outpoints that carry a cell are labelled with the address |
| Reconcile.WhyEntriesLeave | crates/indexer/src/reconcile.rs:440-529 | an entry leaves iff its attempts were used up, it was claimed and found fresh, or this drain recorded an answer |
| Reconcile.WhatEntriesKeep | crates/indexer/src/reconcile.rs:440-529 | an entry that stays has one attempt more iff it was claimed, is never less urgent, was there before, and if claimed is due again at once |
| Reconcile.WhatABreakLeaves | crates/store/src/queue.rs:77-102 | after a drain that breaks off, a claimed entry not found fresh is still there with one attempt more, and keeps its backoff iff it was not queued again |
| Reconcile.FailedFollowUpIsForgotten | crates/indexer/src/reconcile.rs:142-227 | once an answer is recorded, a later drain clears the outpoint's entry unasked iff it is younger than the TTL, and the same answer does not count as newly spent, whether or not the follow-up succeeded |
| Reconcile.LabelledEntryLeavesUnasked | crates/indexer/src/reconcile.rs:477-496 | a drain clears a claimed, never observed, labelled outpoint without asking about it iff the label is younger than the TTL |
| Queue.AttemptsCountClaims | crates/store/src/queue.rs:26-102 | in every run, the attempts column is the number of claims since insertion, re-queuing included |
| Queue.ClaimedAtMostMaxTimes | crates/store/src/queue.rs:82-133 | with one worker that drops before it claims, an entry is claimed at most `max_attempts` times, or once if that is 0 |
| Queue.LimitHoldsExactly | crates/store/src/queue.rs:82-133 | no run of that worker claims an entry more often than `max_attempts` iff it is not 0 |
| Drains.DrainsClaimAtMost | crates/indexer/src/reconcile.rs:424-529 | the same bound for every sequence of drains, however far each got, with anybody's enqueues anywhere in between |
| Drains.DrainIsItsStatements | crates/indexer/src/reconcile.rs:440-529 | the queues `DrainQueueOnce` promises, completed or broken off, are what the statements of such a drain leave |
| Queue.BackoffHoldsExactly | crates/store/src/queue.rs:77-102 | in every run, a claimed entry waits out its whole backoff iff nobody queues it again before |
| Queue.BackoffCancelled | crates/store/src/queue.rs:26-48 | a run in which an entry claimed with two seconds of backoff is due, and claimable, after one |
| Queue.BackoffDoubles | crates/store/src/queue.rs:77-102 | the backoff is two seconds after the first claim, doubles with every further one, and ends at 300 |
| Queue.UrgentIsClaimed | crates/store/src/queue.rs:77-102 | whatever a claim picks among equals, a due entry that comes before all other due ones by priority and then by time is claimed |
| Queue.EntriesOnlyGetMoreUrgent | crates/store/src/queue.rs:26-75 | no statement lowers an entry's urgency or gives attempts back |
| Queue.ClaimsConsumeAttempts | crates/store/src/queue.rs:82-102 | the attempts left over all entries strictly fall with every claim that picks anything |
| Queue.RemovalNeverRaises | crates/store/src/queue.rs:104-133 | completing never raises that sum and dropping keeps it |
| Keyset.PageUnique | crates/store/src/cells.rs:156-164 | a keyset query has exactly one answer |
| Keyset.SelectPage | crates/store/src/cells.rs:156-164 | and always has one |
| Sweep.SweepInner | crates/indexer/src/sweeper.rs:86-121 | visits strictly ascending by txid bytes and then signed output, so nothing twice; every outpoint an unconsumed cell is bound to at all its pages is visited, and nothing else; each visited one ends up observed or queued; it terminates once the set settles |
| Sweep.AscendingIsDistinct | crates/store/src/cells.rs:150-171 | strictly ascending means no outpoint twice |
| Activity.HistoryAppends | crates/store/src/activity.rs:18-62 | with labels fixed, a longer chain's history contains the shorter one's, and everything new is newer than all of it |
| Activity.EntriesAre | crates/store/src/activity.rs:18-62 | the history of an address is the block and index of each transition that created or consumed a cell bound to an output labelled with it |
| Activity.FollowCursors | crates/api/src/dto.rs:853-858 | following the textual cursors yields the history as of the first page, newest first, no gap, no repeat, for any positive page size, each page read from the history of its own moment |
| Prefixes.RunOnlyAppends | crates/store/src/activity.rs:15-17 | in every run of the scanner, whenever the pages are read, an address's history only gains newer entries |
| CursorText.CursorRoundTrip | crates/store/src/models.rs:406-432 | every (i64, i32) position survives printing and parsing |
| CursorText.CursorsDiffer | crates/store/src/models.rs:406-408 | no two positions print alike |
| CursorText.PrintedIs | crates/store/src/models.rs:406-408 | a cursor's integers are printed as an optional minus sign and decimal digits without leading zeros |
| Deltas.AssetDeltas | crates/api/src/dto.rs:796-828 | the map of maps holds, per transition and asset, the sums of the UDT amount column, the capacity column and ones, received rows for and sent rows against, and an entry iff there is a row |
| Deltas.PageShowsNet | crates/store/src/activity.rs:68-101 | the sums shown for a transition are the cells it gave the address less those it took, whichever page shows it |
| Deltas.HistoryBalances | crates/api/src/dto.rs:796-828 | over the whole history, each asset's deltas add up to the sums of the UDT amount and capacity columns over unconsumed less backfilled cells, and to the difference of their numbers |
| Deltas.WhoseCells | crates/store/src/activity.rs:68-101 | which cells those are: of the asset, bound to an output labelled with the address, and unconsumed, or without a recorded creating transition |
| Deltas.NetKept | crates/store/src/activity.rs:68-101 | a transition's deltas do not change while blocks are appended |
| Walks.WalkBalances | crates/api/src/dto.rs:807-920 | summing the shown deltas over all pages of a walk, each read from a later index, gives those columns over unconsumed less backfilled cells as of the first page |
| Walks.RunWalkBalances | crates/api/src/dto.rs:807-920 | the same when the pages are read at any moments of any run of the scanner |
| Holders.HoldersBracketed | crates/store/src/stats.rs:184-195 | `holder_count` is at most the true number of owners, which is at most `holder_count` plus `unlabelled_seal_count` |
| Holders.HolderCountIs | crates/store/src/stats.rs:184-195 | `holder_count` is the number of addresses that label an output some unconsumed RGB++ cell of the asset is bound to |
| Holders.UnlabelledCountIs | crates/store/src/stats.rs:184-195 | `unlabelled_seal_count` is the number of outputs such cells are bound to that no address labels |
| Holders.BracketIsTight | crates/store/src/stats.rs:184-195 | `holder_count` is the true number iff every unlabelled seal belongs to an owner already counted |
| Holders.UpperBoundReached | crates/store/src/stats.rs:184-195 | the upper bound is the true number iff the unlabelled seals have pairwise different owners and none of them is already counted |
| Chain.PositionOrder | crates/store/src/activity.rs:15-17 | history positions are ordered like (block, position in block) |

## Left out

- HTTP and JSON-RPC clients, retries, serialisation, converting header timestamps, the API handlers apart from history paging, the command line, logging, throttling and shutdown: plumbing.
- PostgreSQL: each statement is one atomic update or comprehension. SQL text, locking, connection errors, and the clock columns `indexed_at`, `consumed_at`, `first_seen_at` and `requested_at` are not modelled.
- Within one round all reads see one snapshot of the node; between rounds anything may happen.
- Stored headers are kept for `Tables.AppliedTwice` and for the round itself, not in the run theorems: which headers exist depends on round boundaries and pruning.
- Block numbers, transaction indexes and cell counts are unbounded integers, and a `max_attempts` below 0 counts as 0. The casts of output index, Bitcoin vout, unlock height, capacity and spent height are modelled bit for bit.
- The product `cell.capacity * sign` of a delta is taken over the integers; the source multiplies in i64.
- Pending transactions the node returns without a block, or without a body: the node either has a transaction on its chain or does not have it.
- Within one search, a transaction's matched cells are listed inputs before outputs, each in index order.
- The BTC time args encoder writes its table with its own loop; the model uses the one table encoder for both, since the bytes are the same.
- A refresh or drain sees one instant, and no other writer interleaves with its statements; the queue's run lemmas cover every interleaving of statements.
- Source.ObserveMany: the order in which groups are answered is left open, and the source answers a call the same way each time.
- Reconcile.Reconciler.RefreshOutpoints: the `btc_txs` cache, anomaly rows and returned counters are not modelled.
- Sweep.SweepInner: the report counters and misspend detection are not modelled; termination needs the set of live bindings to settle.
- Activity.FollowCursors: labels stay fixed during the walk, and an unreadable cursor, which the source treats as none, never arises from following cursors.
- `resolve_transition`, point lookups, the commitment verifier, balances, asset summaries apart from holders, and the address backfill loop: single queries or response mapping.
- Configuration checks and overrides, address validation, bech32 and base58: library code and easy members.
- The rollback of docs/reorg.md and the reserved tables: no code implements them.
