# c2pool: verified models of the consensus arithmetic, the settlement ledger, the codecs and the alert relay

This project models the parts of c2pool whose behaviour is hardest to see from one function body, and proves what
those parts promise over all inputs and all runs. Every `.dfy` file is one module; `dafny verify dfyconfig.toml` checks
them together.

* **Decay arithmetic** (`Power`, `IntegerRoot`, `DecayTable`, `IteratedTable`, `Lane`, `LaneAccuracy`, `Replay`): the
  exact integer root, the two canonical fixed-point tables, the older iterated table, the scaled-frame accumulator with
  its epoch rebuild, and the distance between the fast payout and the slow closed form. Half-life, epoch and fractional
  bits are parameters.
* **Settlement** (`Sums`, `KFair`, `Settlement`, `SettlementRuns`, `SettlementService`, `SettlementWaiting`,
  `SettlementLimits`, `SettlementDriver`): the owed-height-first order, the finality-gated ledger as a block function, and
  what holds over whole runs: solvency, conservation, fairness, how long a miner holds a slot, how long it can wait under
  a live credit stream, how long the ledger takes to drain, and where a wait is unbounded. Finality depth, slots and pay
  per slot are parameters.
* **Codecs** (`Numerals`, `Base58`, `Base58Codec`, `BitRegroup`, `Bech32Checksum`, `Segwit`, `Streams`, `VarInt`,
  `Serialize`, `StreamCodec`): in-place base conversion, the Bech32 register and the 32-bit regrouping accumulator, segwit
  addresses, the byte queue and everything serialized over it.
* **Alert relay and coinbase** (`Delivery`, `Sidecar`, `Coinbase`): the delivery protocol with restarts between any two
  events, the object that implements it, and the v36 output assembly.

`Basics` and `Arithmetic` hold shared types and small integer facts.

## Where the code and its promises part

* The comments on the iterated table call its base the floor of a root. The search ends on the least base whose power
  reaches the target, and that is the floor exactly for half-life one (`IteratedTable.BaseIsFloorExactly`); for every
  other half-life it is the canonical first entry plus one (`IteratedTable.BaseAgainstCanonical`).
* Strict monotonicity of the canonical tables (C4) is not true of every geometry: `DecayTable.StrictnessCanFail` names one.
  `DecayTable.InverseStrictExactly` gives the exact condition for InvD, `DecayTable.DecayStrictExactly` for decay over whole
  half-lives, `DecayTable.DecayStrictBounds` brackets every other epoch, and `DecayTable.RatifiedStrict` is C4 itself for
  half-life 2160, epoch 4096 and 62 bits. All four are tests on the geometry.
* The reciprocal test (C5) passes as long as the epoch is below log2(2 + sqrt 3) half-lives, which
  `DecayTable.ReciprocalCheckPasses` states as an integer test on the geometry, and can fail beyond:
  `DecayTable.ReciprocalCheckCanFail`.
* "Anti-starvation by construction" holds only against the credits of the miners ahead: `SettlementWaiting.BoundedWaiting`
  is the bound, and `SettlementLimits.Starvation` gives, for every configuration, a stream of bounded credits under which
  an eligible miner is not paid while the stream lasts.
* "No slot is left idle while an eligible miner waits" speaks about selection. A selected miner with everything already in
  flight uses its slot for nothing: `SettlementLimits.IdleSlotExactly`, `SettlementLimits.IdleSlotRun`.
* The conservation check at the end of a settlement run holds exactly for streams no longer than the number of blocks:
  `SettlementRuns.FinalConservationExactly`.
* The coinbase can spend less than the subsidy: `Coinbase.EqualWeightsUnderpay`. `Coinbase.PaysSubsidyExactly` says when,
  in terms of the weights.
* A row that `format_text` raises on ends the sidecar's pass. If it never grows stale, every pass ends there and the rows
  behind it are never sent: the last clause of `Sidecar.Sidecar.Step`, and from an empty state directory
  `Sidecar.BlockedForEver`.
* `encode_segwit` folds its version to a byte, so version 256 encodes as version 0: `Segwit.RoundTrip`.
* `decode_segwit` accepts more than one spelling. It accepts the second checksum constant for every witness version
  (`Segwit.SecondSpelling`), and `strchr` finds the terminator of the character set, so a NUL decodes to 32 and can
  stand in the checksum (`Segwit.NulSpelling`). `Segwit.RoundTripBackExactly` says when re-encoding gives the text back.
  The header comment of the file says decoding is omitted; the file decodes.

## Model

| member | source | states |
|---|---|---|
| IntegerRoot.IRootFloor | proto/refimpl/decay_table.py:64-108 | for every n, k >= 1 and seed the loop ends on the x with x^k <= n < (x+1)^k, and the closing corrections run zero times |
| IntegerRoot.PreBump | proto/refimpl/decay_table.py:88-91 | the raised seed is at least the seed and its k-th power reaches n; a seed already above stays |
| IntegerRoot.CorrectToFloor | proto/refimpl/decay_table.py:101-107 | from any start the two loops reach the floor root, only one of them moving |
| IntegerRoot.FloorRootUnique | proto/refimpl/decay_table.py:67-69 | the floor root is unique, so no seed changes the result |
| IntegerRoot.NewtonStaysAbove | proto/refimpl/decay_table.py:95-100 | a truncated Newton iterate never falls below the floor root |
| IntegerRoot.NewtonStopIsLow | proto/refimpl/decay_table.py:98-99 | when an iterate stops decreasing its k-th power is at most n |
| IntegerRoot.ColdStartAbove | proto/refimpl/decay_table.py:92-94 | the start without a seed is at or above the root |
| Power.TangentLine | proto/refimpl/decay_table.py:71-73 | r^k + (k-1)x^k >= k r x^(k-1): why Newton converges from above |
| DecayTable.BuildTables | proto/refimpl/decay_table.py:111-128 | fails exactly when a shift would be negative; otherwise every entry of both tables is the exact floored root (C3 at every index) |
| DecayTable.CanonicalUnique | proto/refimpl/decay_table.py:13-25 | two conforming tables are equal entry by entry |
| DecayTable.StartsAtOne | proto/refimpl/decay_table.py:171-172 | C1: both tables start at exactly 1.0 |
| DecayTable.ExactHalf | proto/refimpl/decay_table.py:173-174 | C2: the half-life entry is exactly 2^(frac-1) |
| DecayTable.HalfLifeShift | proto/refimpl/decay_table.py:13-25 | one half-life halves decay with floor and doubles InvD up to one unit |
| DecayTable.Monotone | proto/refimpl/decay_table.py:187-189 | decay never rises and InvD never falls, between any two indices |
| DecayTable.StrictStep | proto/refimpl/decay_table.py:187-189 | neighbours differ strictly once the smaller is at least 2*hl |
| DecayTable.InverseStrictExactly | proto/refimpl/decay_table.py:187-189 | C4 for InvD holds if and only if (2^frac+1)^hl <= 2*(2^frac)^hl |
| DecayTable.DecayStrictExactly | proto/refimpl/decay_table.py:187-189 | C4 for decay over m whole half-lives holds if and only if (x+1)^hl <= 2*x^hl for x = 2^(frac-m) |
| DecayTable.DecayStrictBounds | proto/refimpl/decay_table.py:187-189 | for every epoch: that condition at the covering number of half-lives suffices, at the completed number it is needed |
| DecayTable.RatifiedStrict | proto/refimpl/decay_table.py:42-48 | C4 for both tables of the ratified geometry 2160 / 4096 / 62 |
| DecayTable.HalfLifeAnchor | proto/refimpl/decay_table.py:13-21 | the entry m half-lives out is exactly 2^(frac-m), and none before it is smaller |
| DecayTable.DecayStrictNeeds | proto/refimpl/decay_table.py:187-189 | a strict run over one half-life needs an entry of at least 2*hl-1 at its start |
| DecayTable.StrictnessCanFail | proto/refimpl/decay_table.py:187-189 | a geometry on which both tables repeat an entry |
| DecayTable.TablesCompose | proto/refimpl/decay_table.py:111-128 | InvD[j]*decay[d] and 2^frac*decay[d-j] agree up to the flooring of the entries, both ways |
| DecayTable.Reciprocal | proto/refimpl/decay_table.py:190-194 | C5: 0 <= 2^(2 frac) - decay[d]*InvD[d] <= decay[d]+InvD[d] |
| DecayTable.ReciprocalCheckPasses | proto/refimpl/decay_table.py:190-195 | the C5 test passes at every index whenever 2^epoch < (2+sqrt 3)^hl + (2-sqrt 3)^hl |
| DecayTable.ReciprocalRangeSharp | proto/refimpl/decay_table.py:193-195 | once 2^d reaches that sum, decay[d] and InvD[d] add up to 4*2^frac but for their flooring, so the bound behind the test is used up |
| DecayTable.ReciprocalRange | proto/refimpl/decay_table.py:190-195 | the range contains every geometry with 29*epoch <= 55*hl, among them 4096 over 2160 |
| DecayTable.ReciprocalCheckCanFail | proto/refimpl/decay_table.py:190-195 | a geometry beyond that range on which the C5 test fails |
| DecayTable.InverseCeiling | proto/refimpl/decay_table.py:16-21 | over at most m half-lives InvD grows at most 2^m-fold |
| IteratedTable.FindStepBase | proto/refimpl/mrr_ref.py:51-59 | the search returns the least x with x^hl >= 2*ONE^hl |
| IteratedTable.BaseIsFloorExactly | proto/refimpl/mrr_ref.py:47-59 | the base is the floor of ONE*2^(1/hl) if and only if hl = 1 |
| IteratedTable.BaseAgainstCanonical | proto/refimpl/mrr_ref.py:47-59 | the base is the canonical InvD[1] for hl = 1 and one more for every hl >= 2 |
| IteratedTable.NoDoubledPower | proto/refimpl/mrr_ref.py:51 | for k >= 2 no k-th power is twice another, so the target is never hit |
| IteratedTable.BuildIterated | proto/refimpl/mrr_ref.py:40-65 | the two lists of the iterated construction |
| IteratedTable.BoundedDrift | proto/refimpl/mrr_ref.py:60-62 | 0 <= base^j - InvD[j]*ONE^(j-1) <= (j-1)*base^(j-1) |
| IteratedTable.DriftFromCanonical | proto/refimpl/gen_golden_decaytable.py:83-88 | the iterated and the canonical InvD[j] differ by O(j) steps in either direction |
| IteratedTable.DecayDrift | proto/refimpl/gen_golden_decaytable.py:83-88 | the decay entries differ by that drift seen through the reciprocal, plus the two truncations |
| Lane.Lane.constructor | proto/refimpl/mrr_ref.py:73-80 | an empty lane satisfies the invariant |
| Lane.Lane.Push | proto/refimpl/mrr_ref.py:82-92 | keeps the invariant: base, head, records and sums are those of the whole push history |
| Lane.Lane.EpochRebuild | proto/refimpl/mrr_ref.py:94-104 | the base advances by one epoch, exactly the records at or after it survive, acc is their fold |
| Lane.Lane.ClosedForm | proto/refimpl/mrr_ref.py:111-121 | the loop computes the truncated sum over the durable records |
| Lane.FrameBaseIsMultiple | proto/refimpl/mrr_ref.py:82-92 | after every push B = epoch * (H div epoch) |
| Lane.FrameAfterPush | proto/refimpl/mrr_ref.py:85-92 | one push appends its record to the frame or starts the next frame with it |
| Lane.AccumulateOne | proto/refimpl/mrr_ref.py:87-92 | the incremental update equals the fold over the extended records |
| Lane.SurvivorsExactly | proto/refimpl/mrr_ref.py:94-104 | a rebuild keeps exactly the records at or after the new base, in their order |
| Lane.TwoScalings | proto/refimpl/mrr_ref.py:88-90 | the overwritten first form of the scaled weight equals the second |
| LaneAccuracy.PayoutNearClosedForm | proto/refimpl/mrr_ref.py:106-121 | after any history and for any geometry: overpaid by at most n while W < 1.0, underpaid by at most n+1 while W*(InvD+decay+1) <= 1.0 squared |
| LaneAccuracy.PayoutWithinCount | proto/refimpl/mrr_ref.py:106-121 | for epochs up to two half-lives and 6W <= 2^frac the fast payout is within n+1 of the closed form |
| LaneAccuracy.SumErrors | proto/refimpl/mrr_ref.py:82-121 | both error totals over any record list of one frame |
| Replay.RebuildFromRecords | proto/refimpl/gen_golden_decaytable.py:57-66 | an independent rebuild equals acc |
| Replay.ReplayOnce | proto/refimpl/gen_golden_decaytable.py:51-70 | samples exactly the stated heads, each a function of the history; every rebuild check succeeds |
| Replay.RunAccumulator | proto/refimpl/gen_golden_decaytable.py:47-76 | P1 and P2 hold for every share sequence |
| KFair.RankingUnique | proto/refimpl/settlement_kfair_ref.py:31-34 | the K_fair order of a set of miners is unique |
| KFair.SelectionIsPrefix | proto/refimpl/settlement_kfair_ref.py:37-51 | for every iteration order of the dictionary the selection is the prefix of the one ranking |
| KFair.CheckAcceptsExactlyPrefix | proto/refimpl/settlement_kfair_ref.py:84-105 | the checker accepts a list if and only if it is that prefix |
| KFair.NoInversion | proto/refimpl/settlement_kfair_ref.py:44-48 | an unselected eligible miner means all slots are used and every selected miner has an earlier first-eligible height, or the same and a smaller id |
| KFair.SelectedExactly | proto/refimpl/settlement_kfair_ref.py:31-51 | a miner is selected if and only if it is owed something and fewer than `slots` eligible miners have an earlier height, or the same and a smaller id |
| KFair.SelectedCount | proto/refimpl/settlement_kfair_ref.py:37-51 | as many are selected as there are slots or eligible miners, whichever is less |
| Settlement.CreditKeeps | proto/refimpl/settlement_kfair_ref.py:62-67 | a credit keeps first_eligible defined exactly where owed > 0 and adds exactly its amount |
| Settlement.PayKeeps | proto/refimpl/settlement_kfair_ref.py:69-74 | so does a payment, removing exactly its amount |
| Settlement.PayAllEffect | proto/refimpl/gen_golden_settlement.py:68-72 | a block's payments take from every miner exactly what the block pays it |
| Settlement.BlockPayoutsAmounts | proto/refimpl/gen_golden_settlement.py:84-95 | the payout vector lists every selected miner at most once, with its share; nobody else gets anything |
| Settlement.SlotPays | proto/refimpl/gen_golden_settlement.py:84-95 | a selected miner is paid the whole slot or all it has open, whichever is less; nobody else is paid |
| Settlement.BlockStep | proto/refimpl/gen_golden_settlement.py:63-97 | one block keeps solvency and the overlay's finality bounds |
| Settlement.Reach | proto/refimpl/gen_golden_settlement.py:48-97 | in every reachable state in-flight payouts never exceed finalized owed |
| SettlementRuns.StepConserves | proto/refimpl/gen_golden_settlement.py:63-97 | a block neither mints nor loses value |
| SettlementRuns.Conservation | proto/refimpl/gen_golden_settlement.py:20-21 | in every reachable state credits found = pending + owed + paid |
| SettlementRuns.PendingExactly | proto/refimpl/gen_golden_settlement.py:64-77 | the credit overlay holds exactly the credits of the last depth blocks |
| SettlementRuns.FinalConservationExactly | proto/refimpl/gen_golden_settlement.py:122-125 | credited = still owed + paid at the end if and only if the stream is no longer than nblocks |
| SettlementRuns.FirstEligibleIsLastArming | proto/refimpl/settlement_kfair_ref.py:12-15 | first_eligible is the height of the last 0-to-positive transition, in every reachable ledger |
| SettlementRuns.NobodyJumpsAhead | proto/refimpl/settlement_kfair_ref.py:44-48 | while a miner stays eligible the set ahead of it never grows, whatever credits arrive |
| SettlementService.OverlayExactly | proto/refimpl/gen_golden_settlement.py:84-97 | the payout overlay holds exactly what the last depth blocks chose, each depth blocks later |
| SettlementService.PaysWhatWasChosen | proto/refimpl/gen_golden_settlement.py:68-97 | block k + depth pays every miner exactly what block k chose |
| SettlementService.RoundLaw | proto/refimpl/gen_golden_settlement.py:63-97 | under any stream, owed depth blocks later = owed now - in flight now + credited meanwhile |
| SettlementService.PaidForSlot | proto/refimpl/gen_golden_settlement.py:84-97 | a block pays a miner at most one slot's worth, and only if it was selected depth blocks before |
| SettlementService.StaysSelected | proto/refimpl/settlement_kfair_ref.py:44-48 | a selected miner stays selected for as long as it is owed something, whatever credits arrive |
| SettlementService.LoadStep | proto/refimpl/gen_golden_settlement.py:63-97 | a block's credit adds at most its visit, depth - 1 + ceil(credit/pay) blocks, to a miner's load; a block with the miner selected takes one off |
| SettlementService.PaidOffExactly | proto/refimpl/gen_golden_settlement.py:63-97 | a selected miner that is credited nothing more is owed something for exactly its load in blocks |
| SettlementService.VisitExactly | proto/refimpl/gen_golden_settlement.py:63-97 | from its first selection, a miner owed x and credited nothing more is paid off after exactly depth - 1 + ceil(x/pay) blocks |
| SettlementService.GroupLoadStep | proto/refimpl/gen_golden_settlement.py:63-97 | in one block the load of a group shrinks by the number of its selected miners, but for the visit of the credit it gets |
| SettlementWaiting.BoundedWaiting | proto/refimpl/settlement_kfair_ref.py:44-48 | under any credit stream an eligible miner is paid within depth + V/slots blocks, V being the visits of what is owed, or credited meanwhile, to the miners ahead of it |
| SettlementWaiting.QuietWaiting | proto/refimpl/gen_golden_settlement.py:63-97 | with no credit pending: the same with the visits owed ahead alone, and the miner is owed less by then |
| SettlementWaiting.QueueShrinks | proto/refimpl/gen_golden_settlement.py:63-97 | a miner unpaid for n - 1 + depth blocks has visits ahead of it for at least n blocks of all slots |
| SettlementWaiting.DrainsCompletely | proto/refimpl/gen_golden_settlement.py:63-97 | with no credit pending the ledger is empty after the sum over all miners of depth - 1 + ceil(owed/pay) blocks |
| SettlementWaiting.DrainsInParallel | proto/refimpl/gen_golden_settlement.py:63-97 | with all slots at work: after that sum divided by the slots and the longest visit |
| SettlementService.Account | proto/refimpl/gen_golden_settlement.py:63-97 | miner by miner, finalized credits = owed + paid in every reachable state |
| SettlementLimits.Starvation | proto/refimpl/settlement_kfair_ref.py:44-48 | for every depth, slots and pay there is a stream of bounded credits, of any length n, under which one eligible miner is not paid by any block up to n + depth |
| SettlementLimits.StarvationRun | proto/refimpl/settlement_kfair_ref.py:44-48 | the smallest case: one slot, depth one, one unit to miner 0 per block starves miner 1 |
| SettlementLimits.IdleSlotExactly | proto/refimpl/gen_golden_settlement.py:84-95 | a selected miner is paid nothing if and only if all it is owed is in flight |
| SettlementLimits.IdleSlotRun | proto/refimpl/gen_golden_settlement.py:11-14 | a run, for every depth >= 2, whose only slot stays empty while an eligible miner waits |
| SettlementDriver.OwedLedger.Credit | proto/refimpl/settlement_kfair_ref.py:62-67 | the two dictionaries after a credit |
| SettlementDriver.OwedLedger.Pay | proto/refimpl/settlement_kfair_ref.py:69-74 | succeeds exactly when the miner is known and owed enough; otherwise nothing changes |
| SettlementDriver.OwedLedger.EligibleCount | proto/refimpl/settlement_kfair_ref.py:76-77 | the number of miners with something owed |
| SettlementDriver.SumInFlight | proto/refimpl/gen_golden_settlement.py:86-89 | the two loops sum the overlay per miner, in any order |
| SettlementDriver.BuildPayouts | proto/refimpl/gen_golden_settlement.py:90-95 | the loop builds the payout vector of the block function, whose amounts SlotPays gives |
| SettlementDriver.FinalizePayouts | proto/refimpl/gen_golden_settlement.py:68-72 | no payment of a finalized block ever fails its assertion |
| SettlementDriver.RunBlock | proto/refimpl/gen_golden_settlement.py:63-107 | the loop body is the block function, the F1 check succeeds and the report holds height, number of eligible miners, selection and payouts |
| SettlementDriver.Run | proto/refimpl/gen_golden_settlement.py:48-111 | the whole run: final ledger, payments, trace, F1, and the conservation verdict |
| Numerals.MultiplyAdd | src/btclibs/base58.cpp:61-68 | the in-place loop computes buf*mult+ch in the new base, with the carry accounting for what does not fit |
| Numerals.CanonicalRoundTrip | src/btclibs/base58.cpp:96-113 | a numeral without leading zeros is recovered from its value |
| Base58.EncodeBufferSuffices | src/btclibs/base58.cpp:97 | 256^n <= 58^(138n/100+1) for every n |
| Base58.DecodeBufferSuffices | src/btclibs/base58.cpp:52 | 58^n <= 256^(733n/1000+1) for every n |
| Base58.TableInvertsAlphabet | src/btclibs/base58.cpp:17-36 | the lookup table inverts the alphabet |
| Base58.AlphabetInvertsTable | src/btclibs/base58.cpp:17-36 | and the alphabet the table; no space is a digit |
| Base58.EncodedMeans | src/btclibs/base58.cpp:87-125 | the text writes the same number in base 58, with as many leading ones as the bytes have leading zeros |
| Base58.DecodedEncoded | src/btclibs/base58.cpp:38-125 | decoding undoes encoding, leading zeros included |
| Base58.EncodedDecoded | src/btclibs/base58.cpp:38-125 | encoding undoes decoding for every alphabet string |
| Base58.TextRoundTrip | src/btclibs/base58.cpp:38-133 | decode(encode(b)) = b exactly when b is within the length limit |
| Base58.TextRoundTripBack | src/btclibs/base58.cpp:38-133 | encode(decode(s)) is s without surrounding spaces |
| Base58.CheckCarries | src/btclibs/base58.cpp:135-142 | the Check text is the encoding of the payload followed by the first four bytes of its hash |
| Base58.CheckRoundTrip | src/btclibs/base58.cpp:135-168 | for any hash the Check variants round trip exactly up to maxLen payload bytes; when maxLen + 4 would exceed INT_MAX, up to INT_MAX - 4 |
| Base58.CheckRoundTripBack | src/btclibs/base58.cpp:144-160 | whatever the Check decoder accepts carried the right checksum and is within the limit |
| Base58Codec.EncodeBase58 | src/btclibs/base58.cpp:87-125 | the method computes the encoding; its carry assertion holds for every input |
| Base58Codec.ConvertBytes | src/btclibs/base58.cpp:96-117 | the byte loop and the zero skip give the base-58 digits |
| Base58Codec.AddDigit | src/btclibs/base58.cpp:57-68 | one character multiplies and adds; nothing is carried out of the buffer |
| Base58Codec.ConvertChars | src/btclibs/base58.cpp:51-71 | the digit loop gives the bytes of the run, or says it is malformed or too long |
| Base58Codec.DecodeCString | src/btclibs/base58.cpp:38-85 | the method computes the decoding, spaces, ones, limit and failures included |
| Base58Codec.DecodeBase58 | src/btclibs/base58.cpp:127-133 | so does the string form; an embedded NUL is refused |
| Base58Codec.EncodeBase58Check | src/btclibs/base58.cpp:135-142 | appends four bytes of the hash and encodes |
| Base58Codec.DecodeBase58Check | src/btclibs/base58.cpp:144-168 | decodes with the raised limit and accepts only a matching checksum |
| BitRegroup.ConvertBits | src/btclibs/bech32.h:64-85 | for any length the wrapping 32-bit accumulator gives the regrouping of the unbounded number, and the same failures |
| BitRegroup.PaddedMeans | src/btclibs/bech32.h:64-85 | with padding: the fewest groups that hold all bits, writing the same number shifted left by the free bits |
| BitRegroup.PadThenStrict | src/btclibs/bech32.h:64-85 | packing with padding and unpacking without is the identity |
| BitRegroup.StrictThenPad | src/btclibs/bech32.h:64-85 | whatever is accepted without padding is what padding produces |
| BitRegroup.GroupUnwrapped | src/btclibs/bech32.h:72-77 | a group read from the wrapped accumulator is the true group |
| Bech32Checksum.ComputePolymod | src/btclibs/bech32.h:27-37 | the two loops compute the register |
| Bech32Checksum.StepInjective | src/btclibs/bech32.h:30-35 | a step is injective on 30-bit states |
| Bech32Checksum.LastSymbolsLinear | src/btclibs/bech32.h:49-60 | up to six appended symbols change the register by exactly their packed value |
| Bech32Checksum.BurstDetected | src/btclibs/bech32.h:27-37 | any change inside a window of six symbols changes the polymod, at any length |
| Bech32Checksum.OneSymbolDetected | src/btclibs/bech32.h:27-37 | in particular a change of one symbol |
| Bech32Checksum.ChecksumExactly | src/btclibs/bech32.h:49-60 | the created checksum brings the register to the constant, and no other six symbols do |
| Bech32Checksum.CreateChecksum | src/btclibs/bech32.h:49-60 | the method computes that checksum |
| Segwit.EncodeSegwit | src/btclibs/bech32.h:94-112 | the method computes the address, the version folded to a byte |
| Segwit.DecodeSegwit | src/btclibs/bech32.h:120-179 | the method computes the decoding with all its refusals |
| Segwit.CheckData | src/btclibs/bech32.h:152-178 | the checks on the symbols after the separator |
| Segwit.AcceptedExactly | src/btclibs/bech32.h:152-178 | symbols are accepted as a program if and only if they are its version (at most 16), its groups (2 to 40 bytes, 20 or 32 for version 0) and six more that bring the register to 1 or 0x2bc830a3 |
| Segwit.HrpSymbols | src/btclibs/bech32.h:39-47 | the expanded prefix holds the high three and the low five bits of every byte, with a zero between |
| Segwit.HrpExpandInjective | src/btclibs/bech32.h:39-47 | two different byte prefixes never expand alike |
| Segwit.LowerLetters | src/btclibs/bech32.h:125-133 | exactly the capitals move, each to its small letter |
| Segwit.CapitalsDecode | src/btclibs/bech32.h:120-135 | an address in capitals decodes as the address itself |
| Segwit.FindLast | src/btclibs/bech32.h:136-138 | the last separator, or none |
| Segwit.RoundTrip | src/btclibs/bech32.h:94-179 | decode(encode(v, p)) is p with v modulo 256, exactly for non-empty prefixes without capitals and legal programs; the version itself comes back exactly for 0..16 |
| Segwit.RoundTripBackExactly | src/btclibs/bech32.h:120-179 | re-encoding gives the lower-cased text if and only if it has the first constant and no NUL symbol |
| Segwit.SecondSpelling | src/btclibs/bech32.h:152-157 | every legal program has a second accepted address |
| Segwit.NulSpelling | src/btclibs/bech32.h:146-150 | an accepted address with a zero among its last five symbols has another accepted text, with a NUL there and one flipped bit before it, and the same result |
| Segwit.NulExample | src/btclibs/bech32.h:146-150 | such a pair of texts for version 1 and the program 00 0e |
| Segwit.NulCollides | src/btclibs/bech32.h:30-35 | the symbol 32 acts as a flip of the symbol before it |
| Streams.DataStream.Read | src/btclibs/streams.h:238-254 | takes exactly the next n bytes of the queue or fails without change |
| Streams.DataStream.Ignore | src/btclibs/streams.h:256-269 | drops exactly the next n bytes or fails without change |
| Streams.DataStream.Write | src/btclibs/streams.h:271-275 | appends to the queue |
| Streams.CheckedAddExactly | src/btclibs/streams.h:140-160 | the checked sum fails exactly when it does not fit in 64 bits |
| Streams.QueueOrder | src/btclibs/streams.h:238-275 | first in, first out |
| VarInt.VarIntRoundTrip | src/btclibs/serialize.h:362-417 | reading what was written returns the value and leaves the rest |
| VarInt.VarIntOneToOne | src/btclibs/serialize.h:397-417 | every accepted byte string is the writer's output for a value of the type |
| VarInt.VarIntFitsBuffer | src/btclibs/serialize.h:382 | the output never exceeds (bits+6)/7 bytes |
| VarInt.CompactRoundTrip | src/btclibs/serialize.h:253-315 | every 64-bit size is read back, with the range check exactly up to MAX_SIZE |
| VarInt.CompactOneToOne | src/btclibs/serialize.h:282-315 | only canonical encodings are accepted |
| VarInt.CompactFormat | src/btclibs/serialize.h:253-277 | one, three, five or nine bytes by range, the marker 253, 254 or 255 and the size in little-endian bytes |
| VarInt.VarIntMeans | src/btclibs/serialize.h:318-326 | the bytes carry a continuation bit on all but the last, and their seven-bit groups, most significant first, give the value less 128 + ... + 128^(len-1) |
| VarInt.MaxIs | src/btclibs/serialize.h:397-417 | the largest value of a type of n bytes is 256^n - 1, or (256^n - 2)/2 if signed |
| VarInt.LittleEndianBytes | src/btclibs/serialize.h:55-119 | byte i of a fixed-width integer is n / 256^i modulo 256 |
| VarInt.LittleEndianRoundTrip | src/btclibs/serialize.h:55-119 | fixed-width integers survive the byte order |
| Serialize.RoundTrip | src/btclibs/serialize.h:588-621 | unserialize after serialize returns the value and leaves any suffix, for every nesting of integers, byte vectors, vectors and pairs |
| Serialize.OneToOne | src/btclibs/serialize.h:588-621 | whatever is accepted is exactly what the writer writes |
| Serialize.Layout | src/btclibs/serialize.h:588-621 | where the parts stand: fixed integers least significant byte first, sizes before contents, the first of a pair before the second |
| Serialize.ElementPlace | src/btclibs/serialize.h:590-597 | the elements of a vector are written one after another, in their order |
| StreamCodec.GetSizeOfVarInt | src/btclibs/serialize.h:361-373 | the loop counts the bytes of the encoding |
| StreamCodec.WriteVarInt | src/btclibs/serialize.h:378-394 | the scratch buffer is never overrun and the encoding is appended |
| StreamCodec.ReadVarInt | src/btclibs/serialize.h:396-417 | returns the parsed value and leaves the rest, or fails |
| StreamCodec.WriteCompactSize | src/btclibs/serialize.h:253-277 | appends the encoding |
| StreamCodec.ReadCompactSize | src/btclibs/serialize.h:285-315 | returns the parsed size and leaves the rest, or fails |
| StreamCodec.ReadBytes | src/btclibs/serialize.h:833-847 | the chunked loop reads exactly the announced bytes or fails |
| StreamCodec.ReadElements | src/btclibs/serialize.h:600-619 | the batched loops read exactly the announced elements or fail |
| StreamCodec.Write | src/btclibs/serialize.h:590-597 | appends the serialization of any value |
| StreamCodec.Read | src/btclibs/serialize.h:600-619 | returns the parsed value and leaves the rest, or fails |
| Delivery.InvKept | scripts/alert_relay_telegram.py:243-274 | every event, restarts included, keeps the ledgers and the rate limit in order |
| Delivery.AtMostOnce | scripts/alert_relay_telegram.py:192-269 | over any run with restarts an id enters one ledger at most once and never both |
| Delivery.DeliveredWasAcknowledged | scripts/alert_relay_telegram.py:331-358 | every delivered id has a Deliver event before which every chat of the configuration then in force had said ok to that process |
| Delivery.LedgerIsFinal | scripts/alert_relay_telegram.py:227-230 | once in a ledger an id is never accepted, sent, delivered or expired again |
| Delivery.RateLimited | scripts/alert_relay_telegram.py:271-274 | a process makes at most max_per_min sends in any 60 seconds |
| Delivery.LogsOnlyGrow | scripts/alert_relay_telegram.py:233-241 | the ledgers are append-only over any run |
| Sidecar.Sidecar.constructor | scripts/alert_relay_telegram.py:160-206 | a new process over existing ledgers is the restart event; its queue, attempts and backoffs are empty |
| Sidecar.Sidecar.ReadOutbox | scripts/alert_relay_telegram.py:219-231 | the queue is the old one with the new rows behind it, in order, each under its id, known ids skipped; a run of the protocol |
| Sidecar.EnqueueKeeps | scripts/alert_relay_telegram.py:219-231 | rows that were waiting stay in front unchanged, and every id read that is not known is in the queue |
| Sidecar.JoinsFirst | scripts/alert_relay_telegram.py:226-231 | a row that joins has an unknown id and is the first line with that id |
| Sidecar.JoinsInOrder | scripts/alert_relay_telegram.py:226-231 | rows join in the order of their first lines |
| Sidecar.Sidecar.MarkDelivered | scripts/alert_relay_telegram.py:354-358 | the delivered ledger and the forgotten row |
| Sidecar.Sidecar.MarkExpired | scripts/alert_relay_telegram.py:255-261 | the expired ledger and the forgotten row |
| Sidecar.Sidecar.IsThrottled | scripts/alert_relay_telegram.py:271-274 | prunes the window and compares with the limit |
| Sidecar.Sidecar.Postpone | scripts/alert_relay_telegram.py:343-351 | the next attempt honours retry_after, at least one second, or else the backoff, which doubles up to its cap |
| Sidecar.Sidecar.SendToChats | scripts/alert_relay_telegram.py:331-353 | a run of the protocol; without limit or failure every chat is done |
| Sidecar.Sidecar.ProcessRow | scripts/alert_relay_telegram.py:317-358 | not due: nothing happens; a due row expires if and only if the limit is on, its time is positive and time + limit lies before the wall clock; one that does not expire raises exactly when it has no text, with nothing changed; otherwise delivered or rescheduled unless the rate limit cuts in |
| Sidecar.StaleGrows | scripts/alert_relay_telegram.py:243-249 | a stale row stays stale |
| Sidecar.NeverStaleExactly | scripts/alert_relay_telegram.py:243-249 | no wall clock reading makes a row stale if and only if the limit is off or the row has no positive time |
| Sidecar.Sidecar.Step | scripts/alert_relay_telegram.py:314-358 | one pass is a run of the protocol; a pass that ends normally handled every waiting row; no row expires before the limit has passed since its time; behind a row without text that never grows stale no row is ever handled |
| Sidecar.BlockedForEver | scripts/alert_relay_telegram.py:143-149 | from an empty state directory: two rows read, the first without text and never stale; over any passes, replies and later lines the second is never delivered or expired |
| Coinbase.AssembleV36 | scripts/gen_g2_oracle.py:16-29 | fails exactly on a non-empty table that weighs nothing; otherwise lists the final amounts as specified |
| Coinbase.PaysSubsidyExactly | scripts/gen_g2_oracle.py:16-29 | with E the scripts of exact share at least one: pays the subsidy if and only if E has at most 4000 members, or 4001 and the adjustment takes a single unit from one of them; otherwise less |
| Coinbase.FewScriptsPaySubsidy | scripts/gen_g2_oracle.py:16-29 | at most 4000 scripts besides the donation: exactly the subsidy |
| Coinbase.EqualWeightsUnderpay | scripts/gen_g2_oracle.py:26-28 | n > 4000 distinct byte strings of weight one, donation weight one and subsidy n + 1 pay out 4001, for every other donation script |
| Coinbase.DonationApart | scripts/gen_g2_oracle.py:12 | the fixed donation script is none of those byte strings |
| Coinbase.AdjustmentRescues | scripts/gen_g2_oracle.py:20-23 | 4001 of those byte strings, donation weight zero and subsidy 4001 pay out 4001 |
| Coinbase.SpentExactly | scripts/gen_g2_oracle.py:18-20 | the adjustment happens if and only if the donation has no weight and no share is floored |
| Coinbase.OutputShape | scripts/gen_g2_oracle.py:25-28 | donation last and at least one; the others ascend by amount and, for equal amounts, by the first byte in which the scripts differ; whoever is left out ranks below all 4000 listed |
| Coinbase.LexIsFirstDifference | scripts/gen_g2_oracle.py:21-27 | the byte order of two scripts is decided by their first difference, a proper prefix coming first |
| Coinbase.FinalExactly | scripts/gen_g2_oracle.py:18-24 | every script's final amount is its floored share, less one exactly for the script that ranks last when the shares add up to the subsidy |
| Coinbase.FairShares | scripts/gen_g2_oracle.py:17-23 | every amount is at most its exact share and less than two below it |
| Coinbase.SharesWithinSubsidy | scripts/gen_g2_oracle.py:18-19 | the floored shares never exceed the subsidy |
| Coinbase.FinalFacts | scripts/gen_g2_oracle.py:19-24 | the final amounts add up to the subsidy |

## Left out

- The recorded golden values, the generator of the input streams, the JSON cache, progress output and `_q62`.
- Networking, JSON parsing, the wording of a message, log redaction, statistics and chat-id validation of the sidecar: a
  reply is an arbitrary script of ok, failure and retry-after; a clock is an arbitrary non-decreasing script of reals;
  whether a row can be put into text is a field of the row.
- The byte offset into the outbox: `Sidecar.ReadOutbox` is given the complete lines of a poll.
- An append to a ledger file is one atomic event; a torn line is not modelled.
- Hash functions are parameters; SHA-256, HMAC, ECDSA and BIP32 are not part of this model.
- Machine widths of lengths: string and vector lengths in Base58 and segwit are unbounded, and the `int` conversions of
  their sizes are not modelled.
- `encode_segwit` is modelled for versions that are at most 32 modulo 256; for the others the source reads outside its
  character set.
- Left shifts of a negative `int` in `convertbits` are taken to wrap, as on two's complement hardware.
- Reading failures of the stream codecs: how much a failed read has consumed is not stated.
- `DataStream` operations other than read, ignore and write; `SpanReader`, `VectorWriter`, `prevector`, maps, sets, smart
  pointers, strings with limits and the size computer of `serialize.h`.
- DecayStrictBounds: for an epoch that is no multiple of the half-life the two conditions bracket C4 without meeting; there
  each remaining step depends on the fractional part of its own root.
- ReciprocalCheckPasses: says nothing beyond its range, where the outcome depends on the fractional parts of the roots.
- `assemble_with_finderfee`, a negative control of the oracle script.
- The explorer, web pages, utilities, regtest and stratum scripts, the JSON-RPC layer and the C++ share chain.
