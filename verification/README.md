# A verified model of the buyback-and-burn service

The service burns tokens bought with the SOL of a vault. Off chain it splits an amount over one to
four weighted targets, prices a floor for each from a reference pool, builds and simulates a
transaction inside a retry machine, guards paid uploads and RPC credentials, picks reference pools,
and indexes the finalized burns of the ledger into totals. This project models the parts of that
which carry their own logic and proves what they are for. `dafny verify dfyconfig.toml` checks it.

Each module follows one component:

| module | what it models |
|---|---|
| `DlmmPrice`, `DlmmExact`, `PriceFloor`, `FloorExact`, `PumpFees` | the truncating Q64.64 power against the exact rational, the price floor of every venue kind and its every answer, the Pump fee table |
| `SplitAmounts`, `SplitCodec`, `Base58`, `Positional` | the split arithmetic, the instruction encoder and decoder, both base58 decoders |
| `SimulationFailure`, `BurnLegs`, `BurnBuilder`, `LadderExact`, `BurnBuilderSafety` | from a request through the local refusals, the fitting ladder and the retry loop to an unsigned burn |
| `VaultLeases` | the in-memory lease store with its deferred timers |
| `BurnLogs`, `BurnDecoder`, `BurnInstruction`, `Indexer`, `IndexerSafety`, `Conservation` | the log parser, transaction decoding, the round trip from built instruction to rows, the cursor and backfill protocol, and conservation from ledger to totals |
| `Aggregation`, `VaultConfigs`, `Lexicographic` | the leaderboard aggregations and their order independence |
| `UploadGate`, `GateAnswers`, `GateSafety`, `GateRates`, `GateSaturation` | the paid-upload gate: exclusion, replay, rate bounds, alarms |
| `ReferenceSelection`, `LockedDepth`, `ConcurrentMap` | reference ranking and the two-phase selection, the locked-depth measure, the bounded concurrent map |
| `Redactor`, `RedactorSafety`, `RedactorExact` | whole-buffer redaction, the safety of its streaming form, and when the two are equal |
| `Arith`, `Basics` | shared arithmetic facts, optional values and bytes |

Loops and stateful objects of the source are methods and classes here. A method is proved equal to a
specification function or predicate, and the properties are proved about that. Where an answer is a number or a
choice, one of them fixes it in raw inequalities or fields (`DlmmExact`, `FloorExact`, `LadderExact`,
`ReferenceSelection.Leads`, `BurnInstruction`, `GateAnswers`). Worlds the service
does not control (quotes, message sizes, simulation answers, scheduling, crashes, ledger growth,
clocks, tokens) are arbitrary parameters of the theorems.

Where the code and its own comments differ, the model follows the code:

- `quote-service/worker.ts:46-52` says paid uploads are capped at 30 an hour. The cap holds per fixed
  window. A sliding hour holds at most 59 overall and 5 per client (`GateRates.RateBound`), and
  `GateSaturation.FiftyNineInOneHour` is a run of completed uploads that puts 59 into one hour. The
  cap does hold for every hour whose uploads were all counted in one window, and breaking it takes
  two (`GateRates.OneWindowHour`, `GateRates.CapBrokenAcrossWindows`).
- `quote-service/reference.ts:165-171` says the last tier at or below the market cap wins. The loop
  stops at the first tier above it. `PumpFees.ScanMatchesRule` says exactly when the two agree.
- `quote-service/core.ts:432-437` says burner failures other than one 6018 are never retried. The
  loop also retries 6021, as its own comment further down says.
- `quote-service/core.ts:1066-1073` credits the innermost failing frame. A program that prints
  `failed: custom program error` before it fails is read as a failing program called `log:`.
  `SimulationFailure.AuthorIsInnermost` says exactly when the credit is right, and
  `SimulationFailure.BurnerNeverBlamedFalsely` that the burner is never blamed for it.
- `app/worker.ts:454` promises redaction across chunk edges. For secrets that hold no `*` it is safe
  for every chunking: no secret survives and nothing is starred that whole-body redaction would not
  star. It equals whole-body redaction of a body under every chunking exactly when every covered
  byte has a standing occurrence under every set of cuts (`RedactorExact.ExactIffAlwaysStanding`).
  Recovery at every single cut is sufficient for that, not necessary
  (`RedactorExact.CutsRecoverNotNecessary`), and is the exact condition for all prefixes of the body
  at once (`RedactorSafety.ExactIffCutsRecover`). A secret that itself holds a `*` can match the
  stars of another, and then more is starred than should be (`RedactorExact.StarredPatternOverRedacts`).
- `app/community-indexer.ts:516-538` loses burns for good when more than 500 signatures arrive between
  two successful runs, even after a first run that found an empty ledger
  (`IndexerSafety.OldestOf501IsLost`). `IndexerSafety.CoverageExact` says exactly when a run keeps
  coverage, and `IndexerSafety.SkippedIsLost` and `LostForGood` that what it skips unstored no later
  run brings back.

## Model

| member | source | states |
|---|---|---|
| `DlmmPrice.DlmmPriceQ64` | quote-service/reference.ts:125-135 | the square-and-multiply loop ends and computes the price the lemmas below are about |
| `DlmmExact.PriceExact` | quote-service/reference.ts:124-135 | for a nonnegative id the price is 2^64 times the exact (1 + binStep/10000)^n: never above it, below it by a relative error under 2n/2^64, and exactly 2^64 at id 0 |
| `DlmmExact.NegativePriceExact` | quote-service/reference.ts:124-135 | for a negative id it is the exact reciprocal power, short of it by less than one unit and above it by a relative error under 2n/2^64 |
| `DlmmPrice.PowerRelativeError` | quote-service/reference.ts:126-133 | for every bin step and exponent n, the truncated power never exceeds the exact power of the base and falls short of it by a relative error below n/2^64 |
| `DlmmPrice.PowerApproximates` | quote-service/reference.ts:126-133 | the two-sided bound r·Q^(n-1) <= b^n and r·Q^(2n-1) >= b^n·(Q-1)^n, and the power is never below par |
| `DlmmPrice.PriceMonotoneInBinStep` | quote-service/reference.ts:125-135 | a wider bin step never lowers a price of a nonnegative id and never raises one of a negative id |
| `DlmmPrice.PowerStrictlyIncreasing` | quote-service/reference.ts:126-133 | over the whole range of an i32 id truncation never swallows a step: one more factor strictly raises the power |
| `DlmmPrice.PriceMonotoneInId` | quote-service/reference.ts:125-135 | prices never fall as the bin id rises, across zero and the whole i32 range |
| `DlmmPrice.PriceIncreasesWithId` | quote-service/reference.ts:125-135 | one id up never lowers the price, and strictly raises it from id 0 on |
| `DlmmPrice.PriceZeroIff` | quote-service/reference.ts:134 | the price truncates to zero exactly when a negative id's power exceeds 2^128 |
| `DlmmPrice.NegativePriceError` | quote-service/reference.ts:134 | the reciprocal price times the power is within one power of 2^128 from below |
| `PriceFloor.FloorMonotone` | quote-service/reference.ts:249-323 | for all venue kinds, an accepted input stays accepted up to the cap and its positive floor never falls |
| `PriceFloor.AcceptedInterval` | quote-service/reference.ts:264-321 | the accepted inputs are exactly one interval that ends at the cap, or none |
| `FloorExact.EveryAnswer` | quote-service/reference.ts:263-320 | every answer in raw inequalities: over the cap, then too shallow, then by the exact net input and the output it buys at that venue's and side's price; a floor is 99% of an output of at least two atoms |
| `FloorExact.ExactIsUnique` | quote-service/reference.ts:141-147 | those inequalities admit one net input and one output, for every venue, side and fee form |
| `PriceFloor.CapExact` | quote-service/reference.ts:137-139 | the truncated cap refuses exactly the inputs above the exact fee share of the depth |
| `PriceFloor.NetBelowAmount` | quote-service/reference.ts:141-147 | netting a positive input always takes something, also in the Pump form that reserves an atom |
| `PriceFloor.ToleranceBounds` | quote-service/reference.ts:313-314 | the tolerance keeps 99% truncated and vanishes exactly on quotes of at most one atom |
| `PriceFloor.CurveKeepsProduct` | quote-service/reference.ts:311 | the constant-product quote is the largest output that keeps the product of reserves |
| `PriceFloor.ConstantProductFloor` | quote-service/reference.ts:263-320 | for every accepted input the product of reserves does not fall, and the quote is within the fee of spot: (e+1)·S·(den+num) > T·net·den |
| `PriceFloor.CapBoundsImpact` | quote-service/reference.ts:263-278 | the depth cap bounds the price impact of one burn by the fee |
| `PriceFloor.ClmmNeverCreatesValue` | quote-service/reference.ts:302-306 | the two CLMM conversions compose, in either order, to at most the input |
| `PriceFloor.ClmmQuoteError` | quote-service/reference.ts:304-306 | each CLMM quote is at most its exact value and short of it by less than 1 + sq/2^64, respectively 1 + 2^64/sq |
| `PriceFloor.DlmmNeverCreatesValue` | quote-service/reference.ts:307-309 | the two DLMM conversions compose, in either order, to at most the input when the price is not zero |
| `PumpFees.PumpFeeConfig` | quote-service/reference.ts:172-213 | whatever the account holds, the fee is a valid one between 1 bps and 10%; on a long enough table it is the total of the tier the scan stops at, if plausible |
| `PumpFees.TableReadBack` | quote-service/reference.ts:189-203 | every table laid out with rates at 41, the count at 65 and 40-byte tiers from 69 is read back exactly |
| `PumpFees.ScanMatchesRule` | quote-service/reference.ts:165-203 | the early-stopping scan picks the documented tier exactly when no tier after the stop is reached by the market cap |
| `PumpFees.SortedTablesAgree` | quote-service/reference.ts:165-203 | on an ascending table scan and documented rule always agree |
| `PumpFees.UnsortedTableDiffers` | quote-service/reference.ts:165-203 | a table on which they differ |
| `SplitAmounts.SplitAmounts` | quote-service/core.ts:547-562 | the loop over quotient and remainder computes the exact floored shares with the rest on the last leg |
| `SplitAmounts.ShareFromParts` | quote-service/core.ts:548-557 | splitting the total into quotient and remainder first loses nothing against floor(total·bps/10000) |
| `SplitAmounts.SharesSumToTotal` | app/community-indexer.ts:162-177 | the shares of any total over any weights sum to the total |
| `SplitAmounts.SharesExact` | quote-service/core.ts:552-558 | every share but the last is the whole part of total·bps/10000, and the last is what the others leave |
| `SplitAmounts.LastShareBound` | app/community-indexer.ts:162-177 | with weights of 100% the last share is its own floor share plus fewer atoms than legs |
| `Base58.DecodeCarry` | app/community-indexer.ts:68-93 | the in-place byte array with carries computes the big-integer conversion on every string, and fails exactly on strings outside the alphabet |
| `Base58.DecodeBigInteger` | scripts/create-setup-lut.ts:107-126 | the big-integer decoder computes the same function, leading ones and the empty string included |
| `Base58.MultiplyIn` | app/community-indexer.ts:74-85 | one carry pass multiplies the little-endian value by 58 and adds the digit, keeping the array canonical |
| `Base58.DecodeEncode` | app/community-indexer.ts:68-93 | decoding inverts the standard encoder on every byte string |
| `Base58.EncodeDecode` | app/community-indexer.ts:68-93 | every string over the alphabet is the encoding of what it decodes to |
| `Base58.DigitIsIndex` | app/community-indexer.ts:68-74 | a character's digit is its first index in the alphabet |
| `Base58.AlphabetIsBase58` | app/community-indexer.ts:68-74 | the alphabet is the ASCII digits and letters without 0, O, I and l, in order |
| `SplitCodec.SplitData` | quote-service/core.ts:932-949 | the encoder's buffers are the discriminator, total, count and legs, and it fails exactly when a field does not fit |
| `SplitCodec.DecodeSplit` | app/community-indexer.ts:125-160 | the moving-cursor parser of a base58 instruction computes the decoding function below |
| `SplitCodec.ParseSplit` | app/community-indexer.ts:127-159 | on raw bytes the parser accepts exactly what the recursive reading of header, count and legs accepts, to the last byte |
| `SplitCodec.ReadU64` | app/community-indexer.ts:110-117 | eight bytes little-endian, or failure past the end |
| `SplitCodec.DecodeEncoded` | quote-service/core.ts:932-949 | the decoder accepts an encoder output exactly when it is a valid split and then recovers total and weights |
| `SplitCodec.AcceptedIsEncoding` | app/community-indexer.ts:125-160 | every accepted byte string is the encoding of exactly one list of one to four legs |
| `SplitCodec.EncodeInjective` | quote-service/core.ts:932-949 | no two instructions share their bytes |
| `SplitCodec.InstructionRoundTrip` | app/community-indexer.ts:125-160 | builder legs survive encoding, base58 and decoding |
| `SplitCodec.WireLayout` | quote-service/core.ts:932-949 | where in the bytes every leg's weight, minimum output, route account count and data stand |
| `SplitCodec.DecodedIsValid` | app/community-indexer.ts:150-159 | whatever decodes has a positive total and one to four positive weights that make 100% |
| `SimulationFailure.ClassifySimulationFailure` | quote-service/core.ts:1074-1099 | the first failure line decides, as the burner's exactly when it names it; without one the answer is compute exactly when the error or a line mentions it |
| `SimulationFailure.AuthorIsInnermost` | quote-service/core.ts:1066-1090 | a custom error is credited to the innermost failing frame exactly when no program printed an imitation of a failure before |
| `SimulationFailure.BurnerNeverBlamedFalsely` | quote-service/core.ts:1066-1090 | whatever was printed, a burner attribution means the burner's own frame was innermost and raised that code |
| `BurnLegs.AdmitLegs` | quote-service/core.ts:1393-1404 | admitted legs carry their exact shares and their references' floors, or the refusal is that of the first leg refused |
| `BurnLegs.AdmittedSpendsAll` | quote-service/core.ts:1613-1656 | admitted legs spend the whole amount, each within its reference's cap and with a positive floor |
| `BurnLegs.VaultRefusal` | quote-service/core.ts:1583-1595 | a burn passes exactly when it empties the vault or leaves at least the rent floor |
| `BurnLegs.PrepareRouted` | quote-service/core.ts:1851-1958 | a quoted leg passes exactly when threshold, reference, slippage, price impact and independent floor are acceptable, and then encodes a minimum no lower than reference floor, aggregator threshold, independent floor and policy slippage; a reference is refused as not pricing the market exactly when twice its floor plus one is below the quote |
| `BurnLegs.PrepareDirect` | quote-service/core.ts:1787-1802 | a leg that buys off the curve encodes exactly its floor and no route data |
| `BurnBuilder.BuildAndSimulate` | quote-service/core.ts:1705-2224 | against any world the machine ends, and its attempts and outcome obey the law that the lemmas below unfold |
| `BurnBuilder.Fit` | quote-service/core.ts:1735-2104 | the ladder loop from a starting rung computes the recursive ladder |
| `BurnBuilder.LadderTakesFirst` | quote-service/core.ts:1736-2088 | a chosen candidate is the first rung from the start that fits 1232 bytes and 64 locks, with every leg prepared at that rung |
| `LadderExact.LadderAnswers` | quote-service/core.ts:1736-2104 | too large is answered exactly when every rung from the start was assembled and did not fit, or the uncapped rung did not with three or more legs and no covering table; otherwise the first rung that is refused or fits decides |
| `LadderExact.FirstRefusedLeg` | quote-service/core.ts:1742-1960 | a rung is refused exactly when one of its legs is, for the reason of the first |
| `LadderExact.RunTooLarge` | quote-service/core.ts:1735-2104 | a run reports too large exactly when the attempt it owes next meets one of those two cases |
| `LadderExact.FittingRungIsSimulated` | quote-service/core.ts:2052-2087 | a burn that fits at a narrower cap is simulated there, two-leg burns without a table included |
| `BurnBuilderSafety.RunDetermined` | quote-service/core.ts:1734-2210 | the law fixes the outcome and every attempt of a run |
| `BurnBuilderSafety.RetryDiscipline` | quote-service/core.ts:2121-2210 | at most retryLimit + 1 simulations; the only burner codes retried are 6021 and, once, 6018 |
| `BurnBuilderSafety.LaterAttempts` | quote-service/core.ts:2143-2194 | over any stretch of a run the starting rung never drops, a rung that ran out of compute is never offered again, and exclusions only grow |
| `BurnBuilderSafety.BlamedLegsRequoted` | quote-service/core.ts:2148-2160 | after a 6018 every later quote of a blamed leg excludes the Pump venues |
| `BurnBuilderSafety.ExcludedExactly` | quote-service/core.ts:2148-2160 | a leg is kept off Pump venues exactly when an earlier 6018 blamed it: its route touched one, or none did |
| `BurnBuilderSafety.ComputeFailuresBounded` | quote-service/core.ts:2187-2194 | every compute failure uses up a rung, so there are at most as many as rungs |
| `BurnBuilderSafety.GivesUpOnlyWhen` | quote-service/core.ts:2142-2209 | a simulation failure is reported only after every allowed attempt, a second 6018, or compute exhaustion at the narrowest cap; deterministic burner codes aside |
| `BurnBuilderSafety.CleanIsReturned` | quote-service/core.ts:2117-2121 | a clean simulation within the compute limit is the last, and is returned unless its blockhash has too little life left |
| `BurnBuilderSafety.OtherCodesEnd` | quote-service/core.ts:2176-2185 | any burner code but 6018 and 6021 ends the run with that code |
| `BurnBuilderSafety.BuiltIsChecked` | quote-service/core.ts:2005-2051 | a returned burn fits, simulated last and cleanly within the compute limit, and each leg passed its checks in that attempt's quotes |
| `BurnBuilderSafety.PrepareBurn` | quote-service/core.ts:1420-1441 | from request to unsigned burn: over the notional limit, with a refused leg or short of vault balance nothing is simulated, too large without a simulation is answered exactly when the first ladder fails, and a returned burn is safe as below |
| `BurnBuilderSafety.BuiltIsSafe` | quote-service/core.ts:1563-2230 | leg inputs are the exact shares and sum to the amount, every minimum covers its own reference's floor, the vault can fund it, and the instruction carries those minimums byte for byte and decodes back to the requested amount and weights |
| `VaultLeases.InMemoryVaultLeaseStore.Acquire` | quote-service/core.ts:1181-1213 | refuses submitted request ids and busy vaults, else takes the vault with a fresh token |
| `VaultLeases.InMemoryVaultLeaseStore.Release` | quote-service/core.ts:1202-1211 | only the first release acts: failure frees the vault if still held, submission records the id and arms the timer |
| `VaultLeases.InMemoryVaultLeaseStore.FireTimer` | quote-service/core.ts:1197-1206 | a timer frees the vault only if its own lease still holds it |
| `VaultLeases.InMemoryVaultLeaseStore.Settle` | quote-service/core.ts:1223-1225 | frees the vault and leaves the submitted ids |
| `VaultLeases.OneLeasePerVault` | quote-service/core.ts:1173-1213 | without settlement, in every interleaving a vault has at most one outstanding lease and is busy exactly while it has one |
| `VaultLeases.AnswerExact` | quote-service/core.ts:1187-1196 | without settlement: duplicate exactly when a lease for the request was submitted, else busy exactly when a lease is outstanding on the vault, else granted |
| `VaultLeases.OnlyOwnEventsFree` | quote-service/core.ts:1174-1199 | no timer or late release of another lease ever frees a newer lease on the vault, settlement included |
| `VaultLeases.SubmittedOnce` | quote-service/core.ts:1187-1192 | a request id released as submitted is never granted again, on any vault |
| `BurnLogs.BurnLogGroups` | app/community-indexer.ts:180-220 | the loop over stack, groups and the active group computes the line-by-line run |
| `BurnLogs.ParsePrinted` | app/community-indexer.ts:180-220 | parsing inverts printing: for every call forest the groups are, per top-level burner call in order, exactly the pairs its burner frames logged, empty groups removed |
| `BurnLogs.RunItems` | app/community-indexer.ts:184-215 | inside a frame, any nested calls leave the stack alone and add only what burner frames logged |
| `BurnDecoder.DecodeBurnTransaction` | app/community-indexer.ts:222-283 | the scan over instructions with its call counter computes the row function |
| `BurnDecoder.CallAllOrNothing` | app/community-indexer.ts:239-283 | a call leaves all its legs, with lamports that sum to the instruction's total and positive burns, or none |
| `BurnDecoder.RowsAreLogged` | app/community-indexer.ts:244-280 | the log of a call that left rows is exactly their lamports and burned atoms, leg by leg |
| `BurnInstruction.CallAsBuilt` | quote-service/core.ts:977-1007 | a call with the builder's accounts and data and a matching log decodes to one row per leg with exactly the builder's launch mint, vault, target mint, pool, weight and share |
| `BurnInstruction.RoundTrip` | app/community-indexer.ts:222-283 | built, landed, printed and decoded: whatever else the transaction runs, the rows of the burn are exactly those |
| `BurnDecoder.RowKeysDistinct` | app/community-indexer.ts:246-283 | rows of a transaction never repeat a (signature, instruction, leg) key |
| `BurnDecoder.SplitsMatchTheirOwnLogs` | app/community-indexer.ts:235-244 | when each split call logs pairs and other burner calls log none, the k-th decoded split is matched with its own call's log, whatever other programs print or leave unprinted |
| `BurnDecoder.IndexedIsOwn` | app/community-indexer.ts:235-283 | for a printed transaction a vault's indexed total is that of the split calls whose own frame logged the matching pairs |
| `BurnDecoder.TransactionConserves` | app/community-indexer.ts:239-283 | per transaction, a vault's row lamports equal the totals of its indexed calls |
| `Indexer.CommunityIndex.IndexFinalizedBurns` | app/community-indexer.ts:508-584 | a run, stopped at any await or not, changes table and cursors exactly as the run function says, while the ledger may grow between its pages |
| `Indexer.CommunityIndex.StoreRows` | app/community-indexer.ts:476-506 | inserts rows in batches of 50, ignoring known keys; a crash keeps the batches before it |
| `Indexer.CommunityIndex.IncrementalPages` | app/community-indexer.ts:516-521 | up to five pages give exactly the newest signatures above the head, at most 500, even if the ledger grows meanwhile |
| `Indexer.CommunityIndex.Scan` | app/community-indexer.ts:512-538 | what is fetched and where the three cursors go, by position in the ledger |
| `IndexerSafety.EverySchedule` | app/community-indexer.ts:508-584 | after any schedule of runs, crashes and growth with at most 500 signatures newer than the head at each success, every successful burn between the backfill position and the head is stored whole, nothing else is, and an incomplete backfill has a cursor |
| `IndexerSafety.RunKeepsInv` | app/community-indexer.ts:400-408 | one run keeps that invariant under any fault and any growth since the last |
| `IndexerSafety.CoverageExact` | app/community-indexer.ts:516-525 | a successful run keeps coverage exactly when every entry it skipped was already stored |
| `IndexerSafety.BackfillProgress` | app/community-indexer.ts:527-538 | each successful run moves an incomplete backfill one page older or completes it; a failed run moves no cursor |
| `IndexerSafety.SlotIsHighest` | app/community-indexer.ts:554-557 | the indexed slot is the highest of those fetched and the one before |
| `IndexerSafety.CommitHead` | app/community-indexer.ts:522-525 | only the newest incremental signature becomes the head, never a backfilled one |
| `IndexerSafety.OldestOf501IsLost` | app/community-indexer.ts:516-538 | the 500 bound is needed: the oldest of 501 signatures after an empty first run is stored neither by the next successful run nor by any later run, although the backfill reads complete |
| `IndexerSafety.SkippedIsLost` | app/community-indexer.ts:516-538 | an entry a successful run skips is out of reach of every cursor exactly when it was not stored before |
| `IndexerSafety.LostForGood` | app/community-indexer.ts:508-584 | an unstored entry out of reach stays unstored after every later sequence of runs, faults and ledger growth |
| `Conservation.TableIsLedger` | app/community-indexer.ts:476-576 | after a successful run within the 500 bound that leaves the backfill complete, a vault's table rows are exactly those of the ledger, each once |
| `Conservation.VaultTotalsConserved` | app/community-indexer.ts:508-768 | after any schedule of runs and crashes within the 500 bound that ends in a success with the backfill complete, a vault's total equals the sum of the totals of the ledger's indexed calls |
| `Conservation.VaultTotalsArePrinted` | app/community-indexer.ts:180-283 | for ledgers of printed transactions that total is what the vault's split calls spent, each counted once and only if its own frame logged its burn |
| `Aggregation.AggregateVaultBurnRows` | app/community-indexer.ts:711-767 | the one-pass accumulation computes every field by its own definition: sums, distinct calls, latest time, per target |
| `Aggregation.TargetsSumToVault` | app/community-indexer.ts:711-767 | per-target lamports sum to the vault's |
| `Aggregation.LastBurnIsLatest` | app/community-indexer.ts:727-744 | the last burn is the latest block time of any row, absent only when every row's is |
| `Aggregation.SummaryOfPermutation` | app/community-indexer.ts:711-767 | the summary does not depend on the order of rows |
| `VaultConfigs.LatestVaultConfigs` | app/community-indexer.ts:651-701 | the two passes compute each vault's configuration as specified |
| `VaultConfigs.LatestIsMaximum` | app/community-indexer.ts:651-675 | the first pass finds exactly the call maximal by slot, instruction index and signature |
| `VaultConfigs.LatestByFields` | app/community-indexer.ts:659-666 | no row of the vault has a higher slot than the kept call, nor at its slot a higher instruction index, nor there a later signature |
| `VaultConfigs.ConfigIsLatestCall` | app/community-indexer.ts:651-701 | a vault's configuration is exactly the legs of its latest call |
| `VaultConfigs.ConfigsOfPermutation` | app/community-indexer.ts:651-701 | configurations do not depend on the order of rows |
| `UploadGate.MetadataUploadGate.Acquire` | quote-service/worker.ts:79-217 | answer and all three tables plus the alarm after an acquisition attempt, on every branch |
| `UploadGate.MetadataUploadGate.Complete` | quote-service/worker.ts:219-256 | accepted exactly from the token that holds the job; stores the receipt for 24 hours and frees the lease |
| `UploadGate.MetadataUploadGate.Fail` | quote-service/worker.ts:258-273 | deletes the job only for its own token, and that token's lease |
| `UploadGate.MetadataUploadGate.Release` | quote-service/worker.ts:275-278 | deletes that token's lease only |
| `UploadGate.MetadataUploadGate.Alarm` | quote-service/worker.ts:280-316 | purges what expired and sets the next alarm at the least deadline left |
| `GateAnswers.AnswerExact` | quote-service/worker.ts:94-208 | every answer from the tables, in order: malformed, live job (conflict, replay, processing), live lease, full window, and otherwise always a grant |
| `GateAnswers.RefusedIffFull` | quote-service/worker.ts:136-168 | a rate refusal is given exactly when a window is full, with the least whole seconds after which none is |
| `GateAnswers.WaitingIsEnough` | quote-service/worker.ts:160-168 | a client that waits as told, while nobody else acquires, is not rate limited again |
| `GateAnswers.LeaseRunsOut` | quote-service/worker.ts:94-101 | a lease blocks nobody three minutes after its acquisition |
| `GateAnswers.GivenBack` | quote-service/worker.ts:219-278 | completion, failure and release free exactly their token's lease, and failure by the holder its job |
| `GateAnswers.AlarmForgets` | quote-service/worker.ts:280-294 | the alarm forgets exactly what has expired |
| `GateSafety.AlwaysExclusive` | quote-service/worker.ts:94-208 | in every reachable state there is at most one lease, and it has exactly one job with its token and expiry |
| `GateSafety.AcquisitionsApart` | quote-service/worker.ts:94-208 | of two acquisitions less than three minutes apart, the first was completed, failed or released in between |
| `GateSafety.ReceiptStays` | quote-service/worker.ts:219-278 | until it expires no event, stale or not, changes a completed receipt |
| `GateSafety.CompletionReplays` | quote-service/worker.ts:115-123 | for 24 hours after a completion the same id and hash replays that receipt and another hash only conflicts |
| `GateRates.RateBound` | quote-service/worker.ts:136-185 | any half-open hour holds at most 2·3-1 acquisitions per client and 2·30-1 overall, each window at most 3 and 30 |
| `GateRates.OneWindowHour` | quote-service/worker.ts:136-185 | an hour whose acquisitions were all counted in one window holds at most the documented cap |
| `GateRates.WindowHour` | quote-service/worker.ts:136-185 | the hour that begins with a window holds at most the documented cap |
| `GateRates.CapBrokenAcrossWindows` | quote-service/worker.ts:136-185 | an hour breaks the cap exactly when its parts of two windows add up to more, both nonempty, the older window having started before the hour |
| `GateSaturation.BoundReached` | quote-service/worker.ts:136-256 | for either scope, twice the cap of suitable uploads, all completed and their receipts kept, put twice the cap less one into one hour |
| `GateSaturation.FiftyNineInOneHour` | quote-service/worker.ts:46-52 | an actual run of sixty completed uploads with 59 acquisitions in one hour, against a documented 30 |
| `GateSaturation.FiveInOneHour` | quote-service/worker.ts:150-159 | for every client a run of six completed uploads with five acquisitions in one hour |
| `GateRates.ForgettingIsHarmless` | quote-service/worker.ts:186-191 | deleting old client windows never changes the answer of any later acquisition |
| `GateRates.AlwaysAlarmed` | quote-service/worker.ts:209-316 | in every reachable state an alarm is pending whenever a job or client window exists |
| `ReferenceSelection.BetterIsOrder` | quote-service/markets.ts:1099-1138 | the ranking is a strict total order on rankable markets with distinct pools |
| `ReferenceSelection.BetterIsLeads` | quote-service/markets.ts:1068-1138 | in raw fields the comparators rank a locked AMM before every position pool, more locked depth, then more live depth, then a known and earlier open time, the venue order and the lesser key first |
| `ReferenceSelection.RankCandidates` | quote-service/markets.ts:1146-1206 | the pick leads every other admissible, unrefused candidate by those rules, and is null exactly when there is none |
| `ReferenceSelection.AuthenticateBestFirst` | quote-service/markets.ts:1427-1449 | the reject-and-retry loop ends, returns the best candidate authentication does not refuse, and writes only refusals |
| `ReferenceSelection.SelectReference` | quote-service/markets.ts:1427-1531 | the pool chosen is authentic and leads, by those rules, every admissible candidate that is not refused; none is chosen exactly when all are; two phases decide as one best-first authentication of the whole list would, and do not touch concentrated pools when the first phase decides |
| `ReferenceSelection.AmmDecides` | quote-service/markets.ts:1427-1444 | a decision among locked AMMs is the decision over all candidates |
| `ReferenceSelection.DecisionUnique` | quote-service/markets.ts:1469-1507 | the decision is unique and does not depend on the order of enumeration |
| `LockedDepth.MeasureLocking` | quote-service/markets.ts:451-536 | locked depth is reported exactly when the pool's numbers are plausible, is the burned and verified share of the depth, and a positive one always comes with a locked or burned verdict |
| `LockedDepth.LockedDepthSurvives` | quote-service/markets.ts:511-537 | however the withdrawable LP is redeemed pro rata, at least the reported depth stays in the pool |
| `LockedDepth.HoldersCannotReach` | quote-service/markets.ts:511-537 | LP burned from the supply and LP in verified custody keep their share of the depth whatever all other holders redeem |
| `LockedDepth.LockedDepthIsReached` | quote-service/markets.ts:511-537 | and no more than that: when they all redeem at full value, exactly the reported depth is left |
| `ConcurrentMap.VisitedOnce` | quote-service/markets.ts:659-676 | in every interleaving visits start in order and none repeats; each is in its own result slot or owned by exactly one worker |
| `ConcurrentMap.AtMostConcurrency` | quote-service/markets.ts:659-676 | at most `concurrency` visits are outstanding at any moment |
| `ConcurrentMap.CompletedInOrder` | quote-service/markets.ts:672-675 | on completion every slot holds its own value's result, exactly unless the map was given no workers on a nonempty input |
| `ConcurrentMap.QuiescentOutcome` | quote-service/markets.ts:666-675 | the map completes exactly when nothing was rejected, and a rejection stops only its own worker |
| `ConcurrentMap.MapWithConcurrency` | quote-service/markets.ts:659-676 | under an arbitrary scheduler the whole call ends and returns the values in input order or rejects |
| `Redactor.RedactBytes` | app/worker.ts:429-445 | the nested scan stars exactly the bytes of every occurrence of every pattern |
| `Redactor.SafeBody.Pull` | app/worker.ts:475-496 | a pull keeps the streamed state equal to the chunk-by-chunk specification and makes progress |
| `RedactorSafety.StreamingIsSafe` | app/worker.ts:454-508 | for secrets without stars and every chunking the output keeps its length, differs from the body only by stars that whole-body redaction also sets, and contains no secret |
| `RedactorExact.OutputOnlyStars` | app/worker.ts:454-508 | for any secrets at all the output keeps its length and differs from the body only by stars |
| `RedactorExact.StarredPatternOverRedacts` | app/worker.ts:488-491 | a secret that holds a star, and a chunking where it stars a byte that whole-body redaction keeps |
| `RedactorExact.StreamedBytes` | app/worker.ts:454-508 | for every chunking a byte leaves as a star exactly when an occurrence that stands under those cuts covers it |
| `RedactorExact.ExactIffAlwaysStanding` | app/worker.ts:429-496 | for secrets without stars, streaming a body equals its whole-body redaction under every chunking exactly when every covered byte has a standing occurrence under every set of cuts |
| `RedactorExact.CutsRecoverNotNecessary` | app/worker.ts:488-491 | a body streamed exactly under every chunking although a single cut delays a star |
| `RedactorSafety.ExactIffCutsRecover` | app/worker.ts:488-491 | for all prefixes of a body at once, streaming equals whole-body redaction exactly when every single cut recovers its occurrences, which suffices for the body |
| `RedactorSafety.ExactWithoutOverlap` | app/worker.ts:488-491 | in particular when no two occurrences overlap, or only ones that end together do |
| `RedactorSafety.OverlapLeaksAByte` | app/worker.ts:488-491 | a body and chunking where overlapping secrets leave a byte unstarred |

## Left out

- HTTP handlers, CORS, origin checks, rate limiters in `quote-service/fetch-handler.ts`, logging and environment parsing: plumbing.
- Regular expressions, JSON, URL and hex parsing: log lines, requests and RPC answers are already typed; RPC pages are assumed well formed and newest first, and logs not truncated.
- SQL text: tables are maps with insert-or-ignore and delete-if-expired semantics; each gate method is one atomic step.
- The Solana libraries: message compilation, serialized size, lock counts, addresses, hashes and signatures are values the world supplies; the two final layout checks of the compiled message (`TOP_LEVEL_INSTRUCTION_POLICY`, `SIGNER_LAYOUT`) are not modelled.
- Shape checks of aggregator answers, setup accounts and lookup tables (`assertRoute`, `assertAuxiliaryInstructions`, `resolveAndValidateLookupTables`, mint and token-account admission): each is one branch; a failure is one refusal of the leg.
- When several legs refuse at once the model reports the leg with the lowest index; the service reports whichever answered first.
- Price impact is a real number, not a float; scores and display strings (`percentOf`, reasons, rounding for display) are not modelled.
- Diagnostics-only candidates, discovery timeouts and the display sort of the candidate list in reference selection: ranking is proved not to depend on that order, and a discovery failure is one outcome that aborts the selection.
- Pools of one selection are assumed distinct, as different venues own different accounts.
- Authentication of a pool is a fixed answer within one selection, with a nonempty message when it refuses.
- Locked depth assumes that redeeming LP pays at most its share of the depth; swaps and added liquidity are not modelled.
- Exactness and whole-body bounds of streaming for secrets that hold a `*`: only the unconditional half above is proved for them.
- Stream cancellation and errors in the redactor, and the derivation of the patterns from a URL.
- Timer durations in the lease store: a timer may fire at any moment after the submitted release that armed it.
- String keys that join a signature and an instruction index are pairs.
- Sorting of summaries and targets by locale, mint supplies and the indexed-at timestamps.
- The value of a rejected concurrent map: only that it rejects and that other workers go on.
- The on-chain program: not part of this model, and nothing here claims equality with it.
