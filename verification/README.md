# Rusty Coin: a verified model of the core

A Dafny model of the parts of Rusty Coin (a proof-of-work/proof-of-stake chain with on-chain
governance) that are hardest to get right, with proofs about all inputs, all runs or all reachable
states. `dafny verify dfyconfig.toml` checks the whole project.

| file | models |
|---|---|
| `PrimeField.dfy`, `Dkg.dfy` | the arithmetic of distributed key generation and threshold signatures: Feldman commitments and shares, Lagrange weights, signature aggregation, over the scalar field of any sufficiently large prime order |
| `Compact.dfy`, `Retarget.dfy` | the compact difficulty encoding, the retarget rule and the header rules it is checked with along a chain |
| `OxideHash.dfy`, `Mining.dfy`, `MinedNonces.dfy` | the memory-hard hash with its reused scratchpad, multi-threaded mining as a state machine over atomic steps, which nonces it can return |
| `Merkle.dfy`, `MerkleRoots.dfy` | the Merkle trees, and which lists share a root |
| `Utxo.dfy`, `Ledger.dfy`, `Conservation.dfy`, `Maturity.dfy`, `Supply.dfy` | transaction and block validation, applying a block, what happens to the coins, coinbase maturity and lock times, the subsidy |
| `Tickets.dfy`, `Finality.dfy` | the ticket pool, the voting lottery, vote validation, block finality, slashing |
| `Burning.dfy`, `Voting.dfy` | stake burning and the bicameral vote that triggers it |
| `Parameters.dfy`, `ParameterManager.dfy` | governed consensus parameters: validation, scheduling, application, rollback |
| `Decimal.dfy`, `Activation.dfy` | activation of approved proposals, the treasury and the community fund |
| `BlockSize.dfy`, `Mempool.dfy`, `PoolFees.dfy` | the adaptive block size limit, the transaction pool and its block template, whether pooled transactions really pay their fees |
| `Wrappers.dfy`, `Arithmetic.dfy`, `Sorting.dfy`, `Sums.dfy` | optional values and results, machine words and powers, sorting, counting and iteration over hash maps in an arbitrary order, sums over maps |

Conventions. Hash functions, signatures, eligibility checks and serialized sizes are parameters.
Iterating a hash map visits its keys in an arbitrary order (`Sorting.Enumerate`), so every result is
proved for all orders. Objects that the program updates in place are classes; loops are loops. Machine
integers are unbounded unless a wrap-around is written out (`% U64`); `f64` is `real`.

Where the code does not do what its design promises, the code is modelled, a lemma gives a failing
input, and another says exactly when the promise is kept:

- signature aggregation returns the negated group signature for every even number of shares
  (`Dkg.TwoSharesGiveTheNegative`, `Dkg.AggregationCorrectIffOdd`);
- the coinbase's null input is looked up like any other, so some block is accepted if and only if the
  null outpoint is in the set, mature; it is never created, so from an empty set no block is ever
  accepted (`Conservation.NothingAcceptedFromGenesis`, `Conservation.AcceptanceIff`);
- a hash equal to the target verifies but is never mined (`MinedNonces.ExactTargetPassedOver`,
  `MinedNonces.StopsIff`, `MinedNonces.MinedNonceIff`);
- with fewer headers than a full period at hand, and only then, an adjustment block may carry any
  difficulty bits (`Retarget.ShortHistoryAcceptsAnyBits`);
- a target below four can be rounded down to zero, for good (`Retarget.SmallTargetReachesZero`,
  `Retarget.StaysPositiveIff`, `Retarget.ZeroNextIff`, `Retarget.ZeroReachedIff`);
- the maturity test of single transactions wraps at 32 bits; the block loop's does not
  (`Maturity.WrappedMaturityPasses`, `Maturity.WrappedMaturityIff`, `Maturity.CoinbaseMaturity`);
- a Merkle root does not determine the list: odd tails may repeat, and blocks may be replaced by their
  joined sibling digests, and these are the only two reasons (`Merkle.OddTailMayRepeat`,
  `MerkleRoots.SiblingDigestsShareRoot`, `MerkleRoots.BlockRootsEqualIff`);
- votes of tickets that were not selected count towards finality, so conflicting blocks can become final
  without any ticket's votes naming both whenever enough tickets are live
  (`Finality.UnselectedTicketsSplit`, `Finality.FinalityAccountableIff`); a caller that lets only the
  selected tickets vote still has that problem in a committee of four (`Finality.FilteredFinalityIff`);
- No and Abstain votes count towards finality like Yes votes, so any live committee of three or more can
  make two blocks final without a ticket saying Yes to both (`Finality.NoVotesFinalize`,
  `Finality.CommitteeNoVotesFinalize`, `Finality.ApprovalSplitIff`);
- evidence of misbehaviour is checked for its length only (`Finality.EvidenceIsNoProof`,
  `Finality.EvidenceContentIgnored`), and the burn of a whole ticket above 2^53 can differ from the ticket
  (`Finality.BurnMayExceedTicket`, `Finality.WholeTicketBurnedIff`);
- a burn for insufficient participation needs a proposal on which no power at all was cast
  (`Burning.ParticipationBurnIff`);
- the connection limit is registered as a governed parameter that no proposal can change
  (`Parameters.ConnectionLimitNeverValid`, `Parameters.SettableIff`);
- the result of applying due changes can depend on the map order, and so can a rollback over two changes
  of one parameter; changes of one parameter applied late, at one height, are not rolled back to the value
  from before, nor out of the history (`Parameters.OrderIndependentIff`,
  `Parameters.ChangedTwiceDependsOnOrder`, `Parameters.LateChangesStay`, `Parameters.RestoresIff`,
  `Parameters.DeepRollback`);
- an approved proposal can be scheduled, and take effect, again (`Activation.SpendTwice`,
  `Activation.RepeatsIff`), an approval can fall short of its threshold by ten basis points
  (`Activation.MinorityPasses`, `Activation.PresentableIff`), and allocations whose identifiers share eight
  bytes share a record (`Activation.RecordKeysIff`);
- the adaptive block size limit can shrink but never grow (`BlockSize.LimitNeverIncreases`);
- the pool's fee check adds outputs up modulo 2^64 and a repeated input twice
  (`Mempool.WrappedOutputsPass`, `PoolFees.RepeatedInputPasses`, `PoolFees.FeeAlwaysRealIff`), and its
  template is ordered by the declared fee, which nothing checks (`PoolFees.DeclaredFeeUnchecked`,
  `PoolFees.OrderAgainstRealFees`), in a 64-bit product that can wrap (`Mempool.WrappedRateGoesLast`,
  `Mempool.RateExactIff`).

## Model

| member | source | states |
|---|---|---|
| `PrimeField.Invert` | rusty-crypto/src/dkg.rs:747-778 | a scalar has an inverse unless it is zero modulo the prime, and times its inverse it is one |
| `Dkg.EvaluateShare` | rusty-crypto/src/dkg.rs:208-216 | the loop over running powers yields the polynomial's value at the index |
| `Dkg.GenerateCommitments` | rusty-crypto/src/dkg.rs:95-121 | commitments only in the commitment phase, one per coefficient, each the generator times it |
| `Dkg.GenerateSecretShares` | rusty-crypto/src/dkg.rs:192-240 | shares exactly in the distribution phase when every recipient's key can be encrypted to, exactly one for every other participant in order, each the polynomial's value there |
| `Dkg.VerifyShareConsistency` | rusty-crypto/src/dkg.rs:681-709 | no commitments is an error; otherwise the verdict is equality of the committed polynomial at the index with the generator times the share |
| `Dkg.FeldmanCheckExact` | rusty-crypto/src/dkg.rs:681-709 | a share passes the Feldman check if and only if it is the committed polynomial's value at the participant's index |
| `Dkg.ComputeLagrangeCoefficient` | rusty-crypto/src/dkg.rs:747-778 | an error unless the index takes part; otherwise one division of two products equals the product of the Lagrange factors |
| `Dkg.WeightsSumToOne` | rusty-crypto/src/dkg.rs:747-778 | the Lagrange weights at zero of any distinct indices sum to one |
| `Dkg.InterpolationAtZero` | rusty-crypto/src/dkg.rs:747-778 | for every polynomial with at most k coefficients and any k distinct indices the weighted values sum to the value at zero |
| `Dkg.ReconstructSecret` | rusty-crypto/src/dkg.rs:208-216 | shares from the evaluation loop weighted by the computed coefficients give back the constant term |
| `Dkg.InlineLambda` | rusty-crypto/src/dkg.rs:621-627 | the inlined loop computes the product of its own, differently signed factors |
| `Dkg.InlineWeightSign` | rusty-crypto/src/dkg.rs:617-629 | the inlined weight is the Lagrange weight times minus one to the number of other signers |
| `Dkg.LagrangeInterpolateSignatures` | rusty-crypto/src/dkg.rs:603-636 | succeeds exactly with enough shares, all of them points, whose weighted sum is a signature, and then returns that sum |
| `Dkg.AggregateSignatureShares` | rusty-crypto/src/dkg.rs:575-600 | succeeds exactly with enough shares, all of them points, and a signature as aggregate; whatever the map order, shares of a polynomial of degree below their number aggregate to the group signature times minus one to the number of shares less one |
| `Dkg.AggregationCorrectIffOdd` | rusty-crypto/src/dkg.rs:617-629 | for every sharing, the aggregate is the group signature if and only if the number of shares is odd or the signature is zero |
| `Dkg.TwoSharesGiveTheNegative` | rusty-crypto/src/dkg.rs:617-629 | two correct shares of the secret 7 aggregate to minus 7 |
| `Dkg.GroupOrderExists` | rusty-crypto/src/dkg.rs:747-778 | the assumption on the group order is satisfiable |
| `Compact.TargetToCompact` | rusty-consensus/src/pow.rs:309-331 | the byte-size computation with its 32-bit casts and sign fix-up equals the mathematical encoding by exponent and leading digits |
| `Compact.RoundTripError` | rusty-consensus/src/pow.rs:282-331 | for every 256-bit target t, decoding its encoding gives t' with t' at most t and (t - t') * 2^15 < t' |
| `Compact.EncodeMonotone` | rusty-consensus/src/pow.rs:309-331 | encoding is monotone as a 32-bit number |
| `Compact.ReEncode` | rusty-consensus/src/pow.rs:282-331 | re-encoding the decoded target gives the same bits |
| `Compact.DecoderStaysInRange` | rusty-consensus/src/pow.rs:282-305 | on encoded values the decoder's shift stays below 256 and loses no bits |
| `Compact.BestApproximation` | rusty-consensus/src/pow.rs:309-331 | among all 32-bit values that decode to at most t the encoding of t decodes to the largest |
| `Compact.RepresentableRoundTrip` | rusty-consensus/src/pow.rs:282-331 | every decodable target survives encoding exactly, whatever the bits it came from |
| `Compact.DecodedValue` | rusty-consensus/src/pow.rs:282-305 | any 32 bits denote nothing with bit 23 set, else the low 23 bits times 256 to the exponent less three, with the wrap-around of exponents from 35 up |
| `Retarget.NextTargetBounds` | rusty-consensus/src/pow.rs:199-246 | a computed target lies between a quarter of and four times the previous one and fits 256 bits |
| `Retarget.NextTargetMonotone` | rusty-consensus/src/pow.rs:199-246 | the computed target is monotone in the timespan |
| `Retarget.NextTargetFixedPoint` | rusty-consensus/src/pow.rs:199-246 | the expected timespan leaves the target unchanged |
| `Retarget.NoOverflowExactly` | rusty-consensus/src/pow.rs:199-246 | no timespan overflows 256 bits if and only if four times the scaled target fits; so for every target below 2^224 |
| `Retarget.NewTargetScales` | rusty-consensus/src/pow.rs:199-246 | for all arguments the new target is the least of the caps and the previous target times elapsed over expected time, short by less than a unit and a billionth, the factor or its inverse beyond them |
| `Retarget.NextTargetScales` | rusty-consensus/src/pow.rs:199-246 | for 2016 blocks of 150 seconds: a quarter of the target below a quarter of the time, four times it above four times, and scaled by the time between; an overflow exactly when the fixed-point product exceeds 256 bits |
| `Retarget.HeaderAcceptedIff` | rusty-consensus/src/validation.rs:263-287 | a header passes exactly when it is later than the previous one, at most 7200 seconds ahead, and keeps the bits unless the previous height is a multiple of 2016 |
| `Retarget.BitsAcceptedIff` | rusty-consensus/src/validation.rs:626-717 | by height: any bits but zero at genesis, the previous bits at height one and within a period, the encoded scaled target at an adjustment with a full history |
| `Retarget.TimestampsIncrease` | rusty-consensus/src/validation.rs:263-287 | along every valid chain timestamps strictly increase |
| `Retarget.BitsConstantInPeriod` | rusty-consensus/src/validation.rs:626-717 | along every valid chain difficulty bits are constant within a period |
| `Retarget.AdjustmentStep` | rusty-consensus/src/validation.rs:626-717 | at an adjustment the timespan subtraction does not saturate and the bits encode the last target scaled by the elapsed over the expected 302400 seconds, within a quarter and four times |
| `Retarget.AdjustedTargetBounds` | rusty-consensus/src/validation.rs:626-717 | after encoding, the target is at most the old one scaled by the elapsed time, at most four times it, and at least a quarter of it up to the encoding error |
| `Retarget.GrowthOverChain` | rusty-consensus/src/validation.rs:626-717 | over a whole chain the target grows at most fourfold per completed period |
| `Retarget.ZeroTargetIsForever` | rusty-consensus/src/validation.rs:626-717 | once the target decodes to zero it does so in every later block |
| `Retarget.SmallTargetReachesZero` | rusty-consensus/src/pow.rs:199-246 | a target of three and any period of at most a quarter of its time give the target zero |
| `Retarget.StaysPositiveIff` | rusty-consensus/src/pow.rs:199-246 | no timespan takes a target to zero if and only if it is at least four |
| `Retarget.ZeroNextIff` | rusty-consensus/src/pow.rs:199-246 | an adjustment gives zero exactly from zero, from one in less than the time, from two in less than half of it, from three in at most a third of it |
| `Retarget.AdjustedToZeroIff` | rusty-consensus/src/validation.rs:626-717 | along a chain and after encoding, an adjustment gives zero exactly for those targets and elapsed times |
| `Retarget.ZeroReachedIff` | rusty-consensus/src/validation.rs:626-717 | a chain from a positive target has a zero target if and only if some adjustment before took a target below four to zero |
| `Retarget.ShortHistoryAcceptsAnyBits` | rusty-consensus/src/validation.rs:626-717 | the difficulty check accepts any bits if and only if less than a period of headers is at hand; with a full period exactly one value |
| `OxideHash.OxideHasher.InitializeScratchpad` | rusty-crypto/src/hash.rs:39-107 | the in-place fill leaves the chain of digests, whatever was there before |
| `OxideHash.OxideHasher.Iterate` | rusty-crypto/src/hash.rs:39-107 | one round reads and overwrites in bounds and equals the round the next rows speak about |
| `OxideHash.RoundMeaning` | rusty-crypto/src/hash.rs:57-93 | the next state is the digest of the old one with every bit flipped where the data read has a one; it replaces 32 bytes of the scratchpad and nothing else changes |
| `OxideHash.ReadsEnterTheHash` | rusty-crypto/src/hash.rs:70-79 | in one state two scratchpads give the round the same input if and only if they agree on the 32 bytes read |
| `OxideHash.XorByteMeaning` | rusty-crypto/src/hash.rs:75-78 | a bit of the exclusive or is one exactly when the two bits differ |
| `OxideHash.XorTwice` | rusty-crypto/src/hash.rs:75-78 | the exclusive or with the data read undoes itself and commutes |
| `OxideHash.AddressMeaning` | rusty-crypto/src/hash.rs:58-68 | an address is the number the first eight bytes spell, modulo 2^30 - 32 |
| `OxideHash.LittleEndianInverse` | rusty-crypto/src/hash.rs:58-68 | every byte string spells exactly one number of its length |
| `OxideHash.PadBlock` | rusty-crypto/src/hash.rs:45-52 | block k of the initial scratchpad is the digest of the seed and the four bytes of 32k |
| `OxideHash.PadInputsDiffer` | rusty-crypto/src/hash.rs:45-52 | no two blocks are digests of the same input |
| `OxideHash.OxideHasher.CalculateOxideHash` | rusty-crypto/src/hash.rs:39-107 | the hash is that of the rounds from the header's scratchpad, with the nonce in the last input alone; it does not depend on earlier calls, and the scratchpad left behind is the same for every nonce |
| `OxideHash.OxideHasher.CalculateAll` | rusty-crypto/src/hash.rs:39-107 | over any history of calls a reused hasher returns what a fresh one would |
| `OxideHash.LittleEndianRoundTrip` | rusty-crypto/src/hash.rs:39-107 | the nonce bytes spell the nonce |
| `OxideHash.DistinctNoncesDistinctInputs` | rusty-crypto/src/hash.rs:39-107 | two nonces for one header never give the final hash the same input |
| `Mining.RunKeepsInv` | rusty-consensus/src/pow.rs:103-179 | every interleaving of the threads' atomic steps keeps the invariant: the counter hands out 0, 1, 2 and so on, the flag is set exactly when a thread has returned a solution, joins proceed in order |
| `Mining.MinedBlockVerifies` | rusty-consensus/src/pow.rs:60-85 | if mining returns, it returns a block exactly when there is a thread, and that block verifies and differs from the input only in nonce and timestamp |
| `Mining.NoncesRepeatOnlyByWrapping` | rusty-consensus/src/pow.rs:29-39 | two hand-outs give the same nonce if and only if they are a multiple of 2^64 apart |
| `Mining.NoSharedNonce` | rusty-consensus/src/pow.rs:103-179 | before the counter wraps no two threads hold the same nonce |
| `Mining.NeverStuck` | rusty-consensus/src/pow.rs:103-179 | in every reachable state without a result some thread can move or the caller can join |
| `Mining.JoiningEnds` | rusty-consensus/src/pow.rs:171-179 | once all threads have returned, joining ends the call with the first solution in thread order |
| `Mining.TimestampCounts` | rusty-consensus/src/pow.rs:153-160 | in every run a thread's timestamp has moved on by exactly the number of rounds it ended on the last nonce, modulo 2^64 |
| `Mining.RoundStartsOver` | rusty-consensus/src/pow.rs:153-160 | after the last nonce, and only then, the nonce starts over at zero |
| `MinedNonces.StopsIff` | rusty-consensus/src/pow.rs:103-179 | a thread stops on a nonce if and only if verification accepts the block and its hash is not the target itself |
| `MinedNonces.ExactTargetPassedOver` | rusty-consensus/src/pow.rs:103-179 | with a hash equal to the target the block verifies and the thread goes on |
| `MinedNonces.ReturnedNonceWins` | rusty-consensus/src/pow.rs:103-179 | in every run that has not wrapped, the returned nonce wins and fewer smaller nonces win than there are threads |
| `MinedNonces.WinningNonceReturned` | rusty-consensus/src/pow.rs:103-179 | for every such nonce there is an interleaving that returns it |
| `MinedNonces.MinedNonceIff` | rusty-consensus/src/pow.rs:103-179 | so a nonce can be returned before the counter wraps if and only if it wins and fewer smaller nonces win than there are threads |
| `Mining.ExactTargetIsNeverMined` | rusty-consensus/src/pow.rs:103-179 | after any run, wrapped or not, the mined block's hash is not equal to the target |
| `Merkle.NextLevel` | rusty-crypto/src/hash.rs:124-161 | the pairing loop builds the level above, an odd last element paired with itself |
| `Merkle.BuildTree` | rusty-crypto/src/hash.rs:124-161 | the tree holds all levels, leaves first |
| `Merkle.CalculateMerkleRoot` | rusty-crypto/src/hash.rs:169-202 | the direct loop gives the recursively defined root, none for no blocks |
| `Merkle.MerkleRootOfHashes` | rusty-consensus/src/pow.rs:376-414 | the in-place level loop gives the same recursively defined root; no hashes is an error |
| `Merkle.TreeRootIsDirectRoot` | rusty-crypto/src/hash.rs:164-202 | for every list the full tree's root equals the direct computation |
| `Merkle.RootIsTopNode` | rusty-crypto/src/hash.rs:124-161 | the root is the top node of the positional definition of the tree |
| `Merkle.EqualRootsGiveCollision` | rusty-crypto/src/hash.rs:169-202 | equal roots of different lists of one length exhibit a collision of the pair hash |
| `Merkle.RootDeterminesBlocks` | rusty-crypto/src/hash.rs:169-202 | under injective hashing equal roots of lists of one length mean equal lists |
| `Merkle.OddTailMayRepeat` | rusty-crypto/src/hash.rs:169-202 | repeating the last of an odd number of leaves keeps the root |
| `MerkleRoots.SiblingDigestsShareRoot` | rusty-crypto/src/hash.rs:124-161 | leaves and pairs being hashed alike, any two or more blocks have the root of their joined sibling digests |
| `MerkleRoots.RootsEqualIff` | rusty-consensus/src/pow.rs:392-414 | under injective pair hashing two lists of digests have the same root if and only if the shorter one, filled up by its repetitions, is the level of the other at its own height |
| `MerkleRoots.BlockRootsEqualIff` | rusty-crypto/src/hash.rs:124-202 | under injective hashing two lists of blocks have the same root if and only if they are equal up to repeated tails or the lower one consists of the joined sibling digests just below its height in the other |
| `Utxo.UtxoSet.ApplyBatch` | rusty-consensus/src/utxo_set.rs:64-110 | a batch is its writes in order |
| `Utxo.BatchValueBound` | rusty-consensus/src/utxo_set.rs:64-110 | applying any batch adds at most the value it puts to what it does not touch |
| `Ledger.CheckedOutputSum` | rusty-consensus/src/validation.rs:39-159 | the checked sum fails exactly when the true sum exceeds 64 bits |
| `Ledger.ValidateStructure` | rusty-consensus/src/validation.rs:1215-1375 | accepts exactly the transactions of valid structure |
| `Ledger.ValidateTransaction` | rusty-consensus/src/validation.rs:39-159 | accepts exactly the transactions whose inputs exist, are mature and cover outputs and fee |
| `Ledger.ValidateLocktimeAndSequence` | rusty-consensus/src/validation.rs:2039-2080 | accepts exactly coinbases, transactions without an enabling sequence and those whose lock time is reached, a height below 500 million and a time from there |
| `Ledger.SpendTransaction` | rusty-consensus/src/validation.rs:1124-1209 | accepts exactly spends of existing, not yet used outpoints, coinbase ones `maturity` blocks old, at an unlocked time; the fee subtraction never underflows |
| `Ledger.ValidateTransactions` | rusty-consensus/src/validation.rs:814-1212 | a block's transactions are accepted exactly when each is and no outpoint is spent twice across the block |
| `Ledger.ValidateBlockAccounting` | rusty-consensus/src/validation.rs:513-570 | in addition the coinbase pays out at most reward plus the fees actually left by the inputs |
| `Ledger.ApplyBlockToUtxoSet` | rusty-consensus/src/validation.rs:373-412 | the loop applies, in order, the deletes and puts of every transaction |
| `Conservation.AcceptedIsAccounted` | rusty-consensus/src/validation.rs:513-570 | acceptance implies distinct existing inputs and outputs bounded by inputs plus reward |
| `Conservation.NoInflation` | rusty-consensus/src/validation.rs:373-412 | applying an accounted block raises the total of all unspent outputs by at most the reward, even if transaction identifiers repeat |
| `Conservation.BatchIsSpendAndCreate` | rusty-consensus/src/validation.rs:373-412 | with fresh distinct identifiers the new set is exactly the old one without the spent outpoints plus the created ones |
| `Conservation.CreatedExactly` | rusty-consensus/src/validation.rs:373-412 | every output of every transaction is created, under its own outpoint, with its own value |
| `Conservation.ExactConservation` | rusty-consensus/src/validation.rs:373-412 | then the total changes by exactly outputs minus inputs |
| `Conservation.SupplyBoundedByRewards` | rusty-consensus/src/validation.rs:373-412 | over every sequence of accounted blocks the total is at most the initial total plus all rewards |
| `Conservation.ApplyRun` | rusty-consensus/src/validation.rs:373-412 | applying the blocks of a run in turn gives the set these rows speak about |
| `Conservation.AcceptanceNeedsNullOutpoint` | rusty-consensus/src/validation.rs:814-1212 | a block is accepted only if the null outpoint of its coinbase is in the set, mature and below 2^64 |
| `Conservation.NullNeverCreated` | rusty-consensus/src/validation.rs:373-412 | applying blocks never creates the null outpoint |
| `Conservation.NothingAcceptedFromGenesis` | rusty-consensus/src/validation.rs:513-570 | so from a set without it no later block is accepted |
| `Conservation.AcceptanceIff` | rusty-consensus/src/validation.rs:513-570 | for every context that can pay its reward, some block is accepted if and only if the null outpoint is in the set, below 2^64, and, if a coinbase made it, `maturity` blocks old |
| `Conservation.SpendAccepted` | rusty-consensus/src/validation.rs:513-570 | then every output that exists, is `maturity` blocks old if a coinbase made it, and covers fee and dust can be spent in a block whose coinbase takes reward and fee in full |
| `Maturity.AcceptedIsMature` | rusty-consensus/src/validation.rs:1124-1145 | no input of an accepted list is a coinbase output with height < created + maturity |
| `Maturity.AcceptedIsUnlocked` | rusty-consensus/src/validation.rs:1184-1209 | every accepted transaction has lock time zero, a height below 500 million that is reached, or a time that is reached |
| `Maturity.AcceptedPaysFee` | rusty-consensus/src/validation.rs:1146-1183 | every accepted transaction but the coinbase leaves at least one unit per byte |
| `Maturity.Provenance` | rusty-consensus/src/validation.rs:373-412 | after every run each entry is an original one or the output of an applied transaction, with that block's height and coinbase flag |
| `Maturity.CoinbaseMaturity` | rusty-consensus/src/validation.rs:814-1212 | over every run with fresh identifiers, an output a coinbase created at height h is an input of no list accepted below h + maturity |
| `Maturity.WrappedMaturityIff` | rusty-consensus/src/validation.rs:93-97 | the 32-bit test agrees with the exact one if and only if the sum does not wrap or the height is below what it wraps to |
| `Maturity.WrappedMaturityPasses` | rusty-consensus/src/validation.rs:93-97 | near 2^32 it passes an output one block old |
| `Supply.SubsidyNeverIncreases` | rusty-consensus/src/state.rs:31-42 | the subsidy never increases with height |
| `Supply.SubsidyHalves` | rusty-consensus/src/state.rs:31-42 | the first interval pays the initial reward, and an interval later every height pays half, rounded down |
| `Supply.SubsidySumBound` | rusty-consensus/src/state.rs:31-42 | the sum of all subsidies is at most twice the interval times the initial reward, for every number of blocks |
| `Supply.SupplyCap` | rusty-consensus/src/state.rs:31-42 | hence the coins in existence after any run of blocks paid by subsidy are bounded by it |
| `Tickets.LiveTicketsPool.RemoveTicket` | rusty-consensus/src/pos.rs:35-43 | removal forgets the ticket's misses with it, and nothing when it was not there |
| `Tickets.LiveTicketsPool.MarkTicketVoted` | rusty-consensus/src/pos.rs:131-150 | only a live ticket becomes voted; tickets otherwise only advance |
| `Tickets.LiveTicketsPool.Replay` | rusty-consensus/src/pos.rs:26-171 | over any history of additions, misses and removals the count is the number of misses since the ticket was last removed, in 32 bits, and the remembered height is that of the latest |
| `Tickets.LiveTicketsPool.RevokeTicket` | rusty-consensus/src/pos.rs:184-203 | only a live or expired ticket becomes revoked |
| `Tickets.LiveTicketsPool.ProcessTicketExpiration` | rusty-consensus/src/pos.rs:106-128 | exactly the live tickets past their age expire and are reported once each, whatever the map order; no live ticket past its age remains |
| `Tickets.LiveTicketsPool.ProcessTicketFinality` | rusty-consensus/src/pos.rs:218-246 | exactly the pending tickets deep enough become live and are reported once each |
| `Tickets.ExpiryIff` | rusty-consensus/src/pos.rs:106-128 | the age test says that 40960 blocks have passed if and only if the 64-bit sum does not wrap or the height is below what it wraps to |
| `Tickets.StatusNeverReturns` | rusty-consensus/src/pos.rs:106-246 | over any status changes voted and revoked tickets stay so, expired ones can only be revoked, and none becomes pending again |
| `Tickets.AdvancesTransitive` | rusty-consensus/src/pos.rs:106-246 | over any number of status changes tickets only move forward and voted tickets stay voted |
| `Tickets.SelectTicketsForVoting` | rusty-consensus/src/pos_selection.rs:35-101 | the result is the first k of the live tickets in (score, identifier) order |
| `Tickets.SelectionUnique` | rusty-consensus/src/pos_selection.rs:35-101 | there is only one such list, so the map order cannot matter |
| `Tickets.SelectionMeaning` | rusty-consensus/src/pos_selection.rs:35-101 | min(k, live) distinct live tickets, each before every live ticket left out |
| `Tickets.VotedNeverSelected` | rusty-consensus/src/pos.rs:131-203 | a voted or revoked ticket is never drawn again, however the pool advances |
| `Tickets.ValidateTicketVotes` | rusty-consensus/src/pos.rs:256-319 | accepts exactly three or more votes of distinct, known, live, unexpired tickets with known choices |
| `Tickets.SelectedVotesAreValid` | rusty-consensus/src/pos.rs:256-319 | after expiration at a height, three or more votes of distinct selected tickets with known choices are valid at that height |
| `Finality.IsBlockFinal` | rusty-consensus/src/pos_selection.rs:146-174 | true exactly when there is a selection of n and three times the votes for the hash, plus two, is at least 2n |
| `Finality.ConflictingFinalityOverlap` | rusty-consensus/src/pos_selection.rs:146-174 | two blocks final over the same n tickets by votes from one electorate share at least 2*floor(2n/3) - electorate tickets whose votes name both |
| `Finality.FinalityAccountableIff` | rusty-consensus/src/pos.rs:256-319 | two lists that pass vote validation can make different blocks final without a ticket whose votes name both if and only if at least three tickets, and at least twice the threshold, are live and unexpired |
| `Finality.UnselectedTicketsSplit` | rusty-consensus/src/pos.rs:256-319 | a committee of five and six live tickets outside it split |
| `Finality.FilteredFinalityIff` | rusty-consensus/src/pos_selection.rs:146-174 | when only the selected tickets vote, once each, blocks can become final without a ticket naming both if and only if the committee has one, two or four members, and with the three votes vote validation asks for, four |
| `Finality.NoVotesFinalize` | rusty-consensus/src/pos_selection.rs:146-174 | any three or more live tickets, as many as the threshold, make one block final by Yes and another by No |
| `Finality.CommitteeNoVotesFinalize` | rusty-consensus/src/pos_selection.rs:146-174 | so do the members of any live committee of three or more, even where they alone may vote |
| `Finality.ApprovalSplitIff` | rusty-consensus/src/pos_selection.rs:146-174 | two lists that pass vote validation can make two blocks final with no ticket saying Yes to both if and only if at least three tickets, and at least the threshold, are live and unexpired |
| `Finality.RepeatedVoteFinalizes` | rusty-consensus/src/pos_selection.rs:146-174 | without the duplicate check one ticket's repeated vote makes any block final |
| `Finality.EvidenceAccepted` | rusty-consensus/src/pos_slashing.rs:214-313 | the two 64-byte-signed votes of a ticket for different blocks, with a witness, give a proof that holds both signatures and hashes, is accepted and slashes the whole ticket |
| `Finality.ValidateMaliciousSlashing` | rusty-consensus/src/pos_slashing.rs:214-272 | accepts exactly a matching ticket, a witness and enough bytes for the action |
| `Finality.EvidenceContentIgnored` | rusty-consensus/src/pos_slashing.rs:214-272 | other bytes, at least as many, and other witnesses are accepted as well |
| `Finality.EvidenceIsNoProof` | rusty-consensus/src/pos_slashing.rs:214-272 | every ticket is convicted by any 128 or more bytes and a witness, and slashed for up to 4096 of them |
| `Finality.ConflictIsSlashable` | rusty-consensus/src/pos_slashing.rs:214-313 | conflicting finality by votes from one electorate yields at least 2*floor(2n/3) - electorate tickets of it with such evidence |
| `Finality.CheckedConflictIsSlashable` | rusty-consensus/src/pos_slashing.rs:214-313 | the same for lists that pass vote validation, the electorate being the live, unexpired tickets |
| `Finality.AbsenceSlashConserves` | rusty-consensus/src/pos_slashing.rs:55-103 | burn and change add up to the ticket, for every value, with the `f64` rounding of the hundredth |
| `Finality.OnePercentExact` | rusty-consensus/src/pos_slashing.rs:71-74 | below 2^52 the slashed amount is exactly the hundredth, rounded down |
| `Finality.WholeTicketBurnedIff` | rusty-consensus/src/pos_slashing.rs:117-149 | the burn is exactly the ticket if and only if its value survives conversion to `f64` (every value up to 2^53 does) or is the largest 64-bit number |
| `Finality.BurnMayExceedTicket` | rusty-consensus/src/pos_slashing.rs:131-135 | for a ticket of 2^53 + 3 the burn is one more than the ticket |
| `Finality.SpacingMeaning` | rusty-consensus/src/pos_slashing.rs:131-135 | the spacing of `f64` numbers is the power of two that leaves 53 significant bits |
| `Finality.RoundedMeaning` | rusty-consensus/src/pos_slashing.rs:131-135 | conversion gives the nearest multiple of the spacing, the even one of two |
| `Finality.LockTimeIff` | rusty-consensus/src/pos_slashing.rs:98 | the slashing transaction is locked for 10080 blocks if and only if that height fits 32 bits |
| `Burning.BurnConservesStake` | rusty-governance/src/stake_burning.rs:254-293 | the burn transaction pays out exactly the stake if and only if the burn does not exceed it |
| `Burning.BurnWithinStake` | rusty-governance/src/stake_burning.rs:166-190 | with percentages of at most one no scheduled burn exceeds its stake |
| `Burning.SaneIff` | rusty-governance/src/stake_burning.rs:166-190 | no stake is ever exceeded if and only if every percentage is at most one |
| `Burning.BurnReasonMeaning` | rusty-governance/src/stake_burning.rs:100-165 | past its end a proposal is burned for the first reason that applies: malice, absence after the grace period, spam, a voting period outside 1000 to 100000 blocks, missing documentation, an approval share below its threshold |
| `Burning.BurnShares` | rusty-governance/src/stake_burning.rs:166-190 | the burn scheduled, ten blocks later, is the reason's share of the stake, rounded down; without collateral it is an error |
| `Burning.BurnDestroys` | rusty-governance/src/stake_burning.rs:254-293 | the burn transaction spends the collateral and its burn outputs hold exactly the scheduled amount |
| `Burning.ParticipationBurnIff` | rusty-governance/src/stake_burning.rs:110-133 | when all power was cast as votes, a proposal is burned for insufficient participation if and only if it is harmless, its grace period is over and no power was cast |
| `Burning.StakeBurningManager.EvaluateProposalForBurning` | rusty-governance/src/stake_burning.rs:100-200 | exactly the evaluated burn becomes pending, under its proposal, and pending burns stay within their stakes |
| `Burning.StakeBurningManager.ExecutePendingBurns` | rusty-governance/src/stake_burning.rs:203-251 | exactly the due burns move to executed and give one transaction each, whatever the map order; each pays out its stake and the statistics grow by what is burned |
| `Burning.StakeBurningManager.GetBurnStatistics` | rusty-governance/src/stake_burning.rs:425-446 | the total is the sum of all executed burns, the amounts per reason are the sums per reason, and they partition the total |
| `Voting.VotingCoordinator.AddProposal` | rusty-governance/src/voting_coordinator.rs:104-148 | accepted exactly when not active, not ended and not started; every reachable state is tallied |
| `Voting.VotingCoordinator.RecordVote` | rusty-governance/src/voting_coordinator.rs:151-245 | accepted exactly for an eligible voter's first vote on an active proposal; every reachable state is tallied |
| `Voting.RecordedTallied` | rusty-governance/src/voting_coordinator.rs:181-233 | recording keeps: each chamber counter is the number of distinct stored voters of that chamber and choice, and total power is yes plus no plus abstain |
| `Voting.VotesAddUp` | rusty-governance/src/voting_coordinator.rs:151-245 | after any sequence of first votes the state stores exactly the ballots cast, is tallied, and each choice has exactly the power cast for it |
| `Voting.OutcomeIff` | rusty-governance/src/voting_coordinator.rs:329-391 | in a tallied state each outcome holds exactly when its condition on quorum and supermajority over distinct voters of both chambers does; power plays no part |
| `Voting.BurnedIff` | rusty-governance/src/voting_coordinator.rs:284-291 | exactly the ended proposals that miss a quorum or an approval of either chamber are evaluated for burning |
| `Voting.VotingCoordinator.ProcessEndedProposals` | rusty-governance/src/voting_coordinator.rs:249-325 | whatever the map order exactly the proposals past their grace period are finalized, with their outcome, and exactly their burns become pending |
| `Voting.ParticipationBurnOnlyWithoutPower` | rusty-governance/src/voting_coordinator.rs:284-291 | in every reachable state a burn for insufficient participation means that no power was cast |
| `Parameters.ValidatedChange` | rusty-governance/src/parameter_manager.rs:480-535 | a validated change can be applied and reverted, is in its registered range and records the current value |
| `Parameters.ValidIff` | rusty-governance/src/parameter_manager.rs:480-535 | a proposal is valid exactly when its text parses, as the parameter's type, to a value in its range, given in numbers for all 27 parameters; the change goes from the current value to that one |
| `Parameters.ApplicableIff` | rusty-governance/src/parameter_manager.rs:611-760 | a change can be applied exactly when its value has the parameter's type |
| `Parameters.TypesKept` | rusty-governance/src/parameter_manager.rs:611-760 | applying any list of such changes keeps the record well typed |
| `Parameters.TypeKeptIff` | rusty-governance/src/parameter_manager.rs:611-760 | and only such a change of a parameter does |
| `Parameters.SettableIff` | rusty-governance/src/parameter_manager.rs:179-477 | a registered parameter can be set if and only if it is not the connection limit, and then its registered type is the one set |
| `Parameters.ConnectionLimitNeverValid` | rusty-governance/src/parameter_manager.rs:365-375 | no proposal for the connection limit is ever valid |
| `Parameters.OrderIndependentIff` | rusty-governance/src/parameter_manager.rs:571-608 | the result of applying a set of changes is the same for all map orders if and only if no two disagree about a parameter |
| `Parameters.RestoresIff` | rusty-governance/src/parameter_manager.rs:981-1027 | a rollback restores the parameters for all map orders if and only if, at every height, the last change of each parameter recorded the value from before the rolled-back range |
| `Parameters.RollbackOneHeight` | rusty-governance/src/parameter_manager.rs:981-1027 | undoing one height restores the height index, the history if and only if nothing applied there was due earlier, and the parameters if and only if the last change of each recorded the value from before |
| `Parameters.DeepRollback` | rusty-governance/src/parameter_manager.rs:981-1027 | undoing any number of heights, late changes and repeated parameters included, restores the height index, the history if and only if every change applied in them was due in them, and the parameters if and only if the last change of each at each height recorded the value from before; in particular when each change recorded the value it replaced and no parameter changed twice |
| `ParameterManager.ApplyHeights` | rusty-governance/src/parameter_manager.rs:538-608 | over any number of consecutive heights, with any validated requests served in between, every apply succeeds and history, index and parameters are those of the run of applied lists |
| `ParameterManager.ApplyAndRollBack` | rusty-governance/src/parameter_manager.rs:571-1027 | rolling all those heights back restores history and index, and the parameters when each change recorded the value it replaced and none changed twice |
| `Parameters.ChangedTwiceDependsOnOrder` | rusty-governance/src/parameter_manager.rs:981-1027 | for every parameter changed at two heights the two orders give different results |
| `Parameters.LateChangesStay` | rusty-governance/src/parameter_manager.rs:571-1027 | two changes of one parameter due at successive heights and applied at the second: rolling it back leaves the first in force and in the history |
| `ParameterManager.Manager.ScheduleParameterChange` | rusty-governance/src/parameter_manager.rs:538-568 | accepted exactly when no pending change of the same parameter has the same activation height |
| `ParameterManager.Manager.ApplyPendingChanges` | rusty-governance/src/parameter_manager.rs:571-608 | succeeds exactly when all due changes can be applied, and then applies, records and consumes exactly those; a failure keeps what was done and drops one inapplicable change |
| `ParameterManager.Manager.RollbackChangesFromHeight` | rusty-governance/src/parameter_manager.rs:981-1027 | succeeds exactly when all recorded old values have their type; then reverts every recorded change once and forgets the heights and their history; on failure index and history are untouched |
| `ParameterManager.Manager.CancelPendingChange` | rusty-governance/src/parameter_manager.rs:1030-1039 | removes and returns exactly that change |
| `ParameterManager.AheadKept` | rusty-governance/src/parameter_manager.rs:538-568 | scheduling validated changes ahead, cancelling and applying height by height keep all pending changes ahead, applicable and free of conflicts |
| `ParameterManager.ApplyInTurn` | rusty-governance/src/parameter_manager.rs:571-820 | applied at every height in turn, each apply succeeds, applies only that height's changes and does not depend on the map order |
| `ParameterManager.ApplyThenRollback` | rusty-governance/src/parameter_manager.rs:571-1027 | applying a height and rolling it back restores history and height index, and the parameters if and only if each change recorded the value it replaced |
| `Decimal.RoundTrip` | rusty-governance/src/proposal_activation.rs:402-424 | a balance written as decimal text reads back as itself if and only if it fits 64 bits |
| `Decimal.ParseIff` | rusty-governance/src/proposal_activation.rs:380-408 | text is read as n exactly when it is a decimal numeral of n below 2^64, with or without a plus sign |
| `Activation.FlagKeysApart` | rusty-governance/src/proposal_activation.rs:308-515 | no key any proposal kind makes from its own text is a balance key or the height key |
| `Activation.BalanceMeaning` | rusty-governance/src/proposal_activation.rs:404-408 | a balance is the number its text reads as, and zero if there is none |
| `Activation.RecordKeysIff` | rusty-governance/src/proposal_activation.rs:396-552 | two spends share a record if and only if they are the same proposal, two allocations if and only if their identifiers agree in eight bytes |
| `Activation.UpgradeEffect` | rusty-governance/src/proposal_activation.rs:308-365 | a protocol upgrade sets exactly the flag of its target, to its value, or fails and changes nothing |
| `Activation.BugFixEffect` | rusty-governance/src/proposal_activation.rs:436-515 | a bug fix takes effect exactly for its four targets and sets exactly the flag made from its text |
| `Activation.BalancesMove` | rusty-governance/src/proposal_activation.rs:308-623 | for every proposal and store an effective proposal moves exactly its own amounts out of and into treasury and fund, never more than is there, and a failed one moves nothing |
| `Activation.ActivationManager.ScheduleActivation` | rusty-governance/src/proposal_activation.rs:96-127 | accepted exactly when the approval proof holds up; the window starts after the delay; every reachable state is accounted |
| `Activation.ActivationManager.ProcessActivation` | rusty-governance/src/proposal_activation.rs:233-305 | takes effect exactly when pending, in its window and applicable, and is then no longer pending; in every reachable state no scheduling took effect twice or outside its window, and the treasury is the initial balance minus all effective spends |
| `Activation.RepeatsIff` | rusty-governance/src/proposal_activation.rs:96-305 | in every history of calls a proposal has taken, or is pending to take, effect more than once if and only if it was scheduled again after taking effect |
| `Activation.SpendTakesEffectIff` | rusty-governance/src/proposal_activation.rs:368-433 | a treasury spend takes effect exactly with a readable amount, a recipient of at least 20 bytes and enough in the treasury |
| `Activation.FundTakesEffectIff` | rusty-governance/src/proposal_activation.rs:518-623 | an allocation takes effect exactly with an amount the fund holds and a recipient, a deposit with an amount |
| `Activation.ProofOkIff` | rusty-governance/src/proposal_activation.rs:626-659 | a proof is accepted exactly when somebody voted, voting lasted to the end, and the declared basis points reach the threshold and are within ten of the true ones |
| `Activation.PresentableIff` | rusty-governance/src/proposal_activation.rs:626-659 | so votes can be presented as an approval if and only if they are at most ten basis points short of the threshold |
| `Activation.MinorityPasses` | rusty-governance/src/proposal_activation.rs:626-659 | 499 of 1000 votes pass a threshold of one half |
| `Activation.SpendTwice` | rusty-governance/src/proposal_activation.rs:96-305 | one approval scheduled twice spends twice |
| `Activation.EffectAccounted` | rusty-governance/src/proposal_activation.rs:368-623 | one more effect keeps the treasury exactly accounted and the fund accounted modulo 2^64 |
| `BlockSize.AdaptiveBlockSizeCalculator.AddBlockSize` | rusty-consensus/src/adaptive_block_size.rs:65-72 | the window holds the most recent sizes, at most a period of them |
| `BlockSize.AdaptiveBlockSizeCalculator.CalculateMedianBlockSize` | rusty-consensus/src/adaptive_block_size.rs:99-115 | the rounded-down mean of the two sizes of middle rank, rank being how many sizes are smaller and how many not larger |
| `BlockSize.MedianUnique` | rusty-consensus/src/adaptive_block_size.rs:99-115 | that determines the median |
| `BlockSize.MedianHalves` | rusty-consensus/src/adaptive_block_size.rs:99-115 | at least half of the window is no larger, and at least half no smaller, than its median |
| `BlockSize.NewLimitMeaning` | rusty-consensus/src/adaptive_block_size.rs:118-140 | the adjusted limit is the median grown or shrunk by its percentage, rounded down, then held between minimum and hard cap |
| `BlockSize.AdaptiveBlockSizeCalculator.UpdateWithBlock` | rusty-consensus/src/adaptive_block_size.rs:176-188 | recording a block is one step of the run the next rows speak about |
| `BlockSize.AdjustmentNeverRaises` | rusty-consensus/src/adaptive_block_size.rs:118-140 | with the window within the limit the median is too and the adjusted limit is between the minimum and the old limit |
| `BlockSize.LimitNeverIncreases` | rusty-consensus/src/adaptive_block_size.rs:65-188 | over every run of accepted blocks at consecutive heights the limit stays between minimum and hard cap and never increases |
| `BlockSize.FreshRunBelowInitial` | rusty-consensus/src/adaptive_block_size.rs:55-188 | a fresh calculator never exceeds its initial limit |
| `Mempool.DisjointAfterAdd` | rusty-core/src/mempool.rs:414-427 | adding to a pool of disjoint spends keeps it so if and only if the transaction conflicts with nothing there |
| `Mempool.TransactionPool.AddTransaction` | rusty-core/src/mempool.rs:26-35 | the unvalidated add keeps spends disjoint exactly when there is no conflict |
| `Mempool.TransactionPool.RemoveTransaction` | rusty-core/src/mempool.rs:38-41 | removal keeps spends disjoint |
| `Mempool.TransactionPool.ValidateTransactionInputs` | rusty-core/src/mempool.rs:284-310 | accepts exactly when all inputs are unspent outputs that no pooled transaction spends |
| `Mempool.TransactionPool.ValidateNoConflicts` | rusty-core/src/mempool.rs:414-427 | accepts exactly when no pooled transaction shares an input |
| `Mempool.TransactionPool.ValidateAndAddTransaction` | rusty-core/src/mempool.rs:124-189 | adds exactly the new transactions that pass structure, signature, input, fee, script, policy and conflict checks; distinct pooled transactions keep spending disjoint outpoints |
| `Mempool.ValidateStructure` | rusty-core/src/mempool.rs:192-234 | accepts exactly serializable, small enough non-coinbase transactions with inputs and no dust |
| `Mempool.ValidateSignatures` | rusty-core/src/mempool.rs:237-281 | accepts exactly when every input with a script spends an existing output and satisfies it |
| `Mempool.ValidateFees` | rusty-core/src/mempool.rs:313-358 | accepts exactly when the saturated input sum less the wrapped output sum is between the minimum fee and the maximum rate |
| `Mempool.ValidatePolicy` | rusty-core/src/mempool.rs:385-411 | accepts exactly outputs with scripts of at most 10000 bytes |
| `Mempool.ChecksInNumbers` | rusty-core/src/mempool.rs:192-411 | at most 100000 bytes, outputs of at least 546, scripts of at most 10000 bytes, a fee of at least 1000 and at most 10000 per byte |
| `Mempool.WrappedOutputsPass` | rusty-core/src/mempool.rs:313-358 | outputs of 2^64 in total pass on an input of 1000 |
| `PoolFees.FeeIsRealIff` | rusty-core/src/mempool.rs:313-358 | without a repeated input an accepted transaction leaves the minimum fee, every outpoint counted once, if and only if its outputs do not overflow 64 bits |
| `PoolFees.RepeatedInputPasses` | rusty-core/src/mempool.rs:192-427 | one outpoint of 1000 listed twice is accepted as paying 1000 and a fee of 1000 |
| `PoolFees.FeeAlwaysRealIff` | rusty-core/src/mempool.rs:192-427 | an ordinary transaction leaves its fee on every chain that accepts it if and only if it repeats no input and its outputs stay below 2^64 |
| `PoolFees.UnrealFeeRefused` | rusty-consensus/src/validation.rs:814-1212 | block validation refuses every block that contains a transaction with a repeated input or overflowing outputs |
| `PoolFees.DeclaredFeeUnchecked` | rusty-core/src/mempool.rs:124-189 | no check of the pool looks at the declared fee |
| `PoolFees.OrderAgainstRealFees` | rusty-core/src/mempool.rs:92-121 | two accepted transactions are ordered against the fees they leave |
| `Mempool.TransactionPool.GetTransactionsForBlockTemplate` | rusty-core/src/mempool.rs:92-121 | the greedy loop returns a fitting prefix of the (fee rate descending, identifier ascending) order that the next transaction would overflow |
| `Mempool.TemplateByFeeRate` | rusty-core/src/mempool.rs:92-121 | whatever comes after a listed transaction, or is left out, pays no more per byte: 1000 f n + m n > 1000 g m for fees f, g and sizes m, n; equal rates go by identifier |
| `Mempool.RateExactIff` | rusty-core/src/mempool.rs:101-104 | the rate is the fee per thousand bytes if and only if the 64-bit product does not wrap |
| `Mempool.WrappedRateGoesLast` | rusty-core/src/mempool.rs:101-104 | a fee whose product wraps is listed after a fee of one |
| `Mempool.TemplateLongest` | rusty-core/src/mempool.rs:92-121 | a prefix of that order fits if and only if it is a prefix of the template |
| `Mempool.TemplateUnique` | rusty-core/src/mempool.rs:92-121 | there is only one template, so the map order cannot matter |
| `Mempool.TemplateSpendsOnce` | rusty-core/src/mempool.rs:92-121 | the template of a validated pool stays within the size limit and spends no outpoint in two transactions |

## Left out

- Cryptographic primitives, script execution, signature checks and vote eligibility: parameters, or verdicts passed in as booleans.
- Elliptic-curve points: commitments and signatures are modelled by their discrete logarithms, so group addition is addition modulo the order.
- `reconstruct_secret_key_share`, `scalar_to_fr`, share encryption, `compute_group_public_key` and `verify_feldman_vss_share` in the key generation: placeholders that support no claim about keys.
- `BlockchainState::apply_block` in rusty-consensus/src/state.rs: it deletes and writes under different key prefixes, so only `apply_block_to_utxo_set` is modelled.
- Whether slashing transactions are ever mined: they carry no fee and a future lock time.
- Relative lock times, post-quantum migration heights, proposal title checks, rate limiting and ticket price adjustment: single-branch or easy members.
- Network, RPC, light client, storage engine and audit log: plumbing.
- Wrap-around of vote power and vote counts at 64 bits: sums of powers and counts of distinct voters are unbounded in `Voting` and `Burning`.
- Rounding of `f64`: percentages and rates are exact reals, except for the two slashed amounts, where rounding is modelled.
- Activation.BalancesMove: the straight-line `apply_*` helpers are functions from the flag store to the flag store rather than statements on it; the manager that calls them updates its state in place.
- Parameters.ValidatedChange: parsing the new value's text is a parameter that yields values of the requested type.
- BlockSize.AdaptiveBlockSizeCalculator.CalculateMedianBlockSize: sizes are byte lengths, so the 64-bit sum of the two middle sizes is not wrapped.
