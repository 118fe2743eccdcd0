# Verified model of the Craftec erasure coder and settlement pipeline

This project models two parts of the repository and proves properties of them in Dafny 4.11.

**The RLNC erasure coder** (`crates/erasure`). Content is cut into segments, a segment into `k`
source pieces, and pieces are mixed linearly over GF(2^8). The model covers

- the field: the log/exp tables, multiplication through them, inverses, per-scalar lookup tables
  (`Gf256.dfy`);
- linear algebra for families of any size: linear combinations, span, independence, the exchange
  lemma, rank (`Vectors.dfy`, `Span.dfy`);
- Gauss-Jordan elimination: one invariant (`Elimination.Echelon`, `Elimination.Reduces`) carries the
  decoder, the rank check, the orthogonal vector and the orthogonal piece (`Elimination.dfy`);
- encoder, decoder, recombination, repair (`Pieces.dfy`, `Encoder.dfy`, `Decoder.dfy`, `Repair.dfy`,
  `RepairPiece.dfy`), homomorphic hashes (`Homomorphic.dfy`), the segmenter (`Segmenter.dfy`);
- whole runs in which pieces are coded, recombined, repaired and lost in any order (`Runs.dfy`).

**The settlement pipeline** (`crates/aggregator`, `crates/prover`, `crates/settlement`). Receipts are
collected, deduplicated and queued by pool; at the end of an epoch each pool is settled with a batch, a
Merkle root and a mock proof. The model covers the collector and service objects, aggregation, the
guest output and its 76 bytes, the Merkle loop, the fee arithmetic (`Collector.dfy`, `Service.dfy`,
`Batch.dfy`, `Prover.dfy`, `Merkle.dfy`, `Fee.dfy`, `Bytes.dfy`, `Numbers.dfy`) and whole runs of the
service (`Epochs.dfy`).

Code that loops is a method proved against a specification function. In the erasure coder these
functions say what is meant (the rank, the one source that fits the pieces, the leading columns of the
row space), not how the loop gets there. In the settlement pipeline some of them follow the code's own
steps (`Collector.Verdict`, `Prover.Fold`, `Batch.BatchOf`, `Service.SettleAll`, `Prover.GuestOutput`);
what they amount to is then a separate lemma (`Prover.FoldMeaning`, `Prover.GuestOutputIsCanonical`,
`Batch.BatchConservesWeight`, `Epochs.EpochEndAccounts`). `Vec<Vec<u8>>` matrices are local sequences
of rows that the loops reassign, fixed-size buffers are arrays, and the collector and the service are
classes.

Parameters stand for what the source draws or calls: random coefficients and scalars, the clock
reading, the hash functions, and the signature check. Nothing is assumed about them beyond the
32-byte hash length and the non-zero scalars of recombination. Shard indices, timestamps and token
amounts have the source's 32 or 64 bits (`Bytes.u32`, `Bytes.u64`); other integers are unbounded except
where the code saturates, truncates or casts. Where a hash takes part in what a caller relies on (dedup,
Merkle leaves and nodes, projections), the layout of the hashed string is proved and a collision is always
an explicit pair of strings that are really hashed.

## Where the code and its documentation differ

The model follows the code.

- `create_orthogonal_piece` documents its second argument as the coefficient vectors of all providers
  in the network. Called that way by a node whose own pieces are listed, it always returns nothing
  (`Runs.ListedNodeCannotRepair`): the target lies outside the span of the listed vectors but must lie
  inside the span of the local ones. Holding a direction that the listed vectors miss is not enough
  either (`RepairPiece.NewDirectionNotEnough`). `RepairPiece.SomeOffsetRepairsIff`: some offset makes a
  piece exactly when the local coefficients span the unit vector of a free column.
- `generate_orthogonal_vector` documents that each offset targets another column. With no existing
  vectors the offset is ignored; `Repair.OffsetsDistinctIffNonEmpty` proves that this is the only
  exception.
- `verify_piece` documents `false` for a corrupted piece. No seed makes that hold for every corruption:
  `Homomorphic.AcceptanceSoundIff` proves that acceptance implies consistency for all pieces of a size
  exactly when the sixteen projections have full rank on that size, which more than sixteen bytes rule
  out. Up to sixteen bytes it can be had: `Homomorphic.SoundnessPossibleIff`.

## Where a promise has a boundary

Some things one might expect of the pipeline hold only in part. For each the model gives the inputs on
which it fails and the exact condition under which it holds.

- One receipt can count more than once. The collector documents its window as
  `[epoch_start, epoch_end)` followed by a grace period, and the next window opens before that period is
  over. `Epochs.AcceptedTimesIff`: some run accepts a receipt `n` times exactly when it is acceptable and
  `n` windows hold its timestamp. `Epochs.AcceptedTwiceIff`: twice is possible exactly for stamps past
  epoch zero that fall into the grace period of the epoch before. The same bound covers all receipts that
  state one claim together (`Epochs.ClaimedTimesIff`).
- A receipt stamped zero is accepted in epoch zero and then makes its pool's batch fail
  (`Epochs.EpochZeroCanFail`). `Epochs.EpochEndConservesIff`: the posted weight equals the receipts
  accepted in the epoch exactly when none of them is stamped zero. Every later epoch conserves its weight
  (`Epochs.LaterEpochsConserve`).
- A receipt that is offered in its window, acceptable and of registered content can still be refused.
  `Epochs.OfferAcceptedIff`: that happens exactly when this epoch has accepted its claim already, or a
  claim whose hashed string is a different one with the same hash.
- The Merkle root alone does not bind the leaves: inner nodes taken as leaves
  (`Merkle.InnerNodesSameRoot`) and explicit zero leaves in place of padding
  (`Merkle.ZeroLeafSameRoot`) leave it unchanged. `Merkle.SameRootIff`: when two lists have the same root,
  the padded leaves of one are a level of the tree over the other, or two different strings that were
  really hashed, one for each list, have the same hash. `Prover.OutputBinds` shows in the same sense that
  the output, which also carries the entry count, binds the entries.
- Segment indices and the number of segments are `u32`. `Segmenter.RecoverableIffU32`: what was encoded
  can be reassembled exactly when there are fewer than 2^32 segments; at 2^32 the indices still differ
  (`Segmenter.IndicesDistinctIffU32`) but the number of segments no longer fits.
- Not every set of pieces gives the file back. `Segmenter.ReassembledIff`: reassembling
  succeeds exactly when every segment is at hand with at least `k` pieces of which the first `k` are
  independent, and otherwise the lowest segment that is not decides the error.
- The protocol fee is the exact floor of its rate only while the product of share and rate fits 64 bits;
  above that it stays at one fixed amount (`Fee.PayoutSplit`).
- The `u64` sums of the aggregation wrap around. `Prover.AggregatedExactIff`: the entries are exact
  exactly when no operator earns 2^64 or more.

## Model

| member | source | states |
|---|---|---|
| GF256.XtimeLinear | crates/erasure/src/gf256.rs:19-22 | the shift-and-reduce step of the table generator distributes over XOR |
| GF256.PowersOfInterest | crates/erasure/src/gf256.rs:15-25 | the generator's 255th power is one, its 15th, 51st and 85th are not |
| GF256.OrderIs255 | crates/erasure/src/gf256.rs:15-25 | no power strictly between 0 and 255 is one, so the exp table has no repetition |
| GF256.ExpInjective | crates/erasure/src/gf256.rs:15-23 | the 255 entries of the exp table are pairwise different |
| GF256.ExpSurjective | crates/erasure/src/gf256.rs:15-23 | every non-zero byte occurs in the exp table, so the log table is total on them |
| GF256.BuildTables | crates/erasure/src/gf256.rs:11-28 | the 16-bit generator loop fills exp with the powers and log with the discrete logarithms |
| GF256.MulIsIteratedXtime | crates/erasure/src/gf256.rs:48-55 | multiplying through the tables is doubling as often as the logarithm says |
| GF256.MulIsPolynomialProduct | crates/erasure/src/gf256.rs:48-55 | the table product equals carry-less multiplication reduced modulo 0x11D, for all bytes |
| GF256.MulAssoc | crates/erasure/src/gf256.rs:48-55 | multiplication is associative |
| GF256.MulComm | crates/erasure/src/gf256.rs:48-55 | multiplication is commutative |
| GF256.MulDistributes | crates/erasure/src/gf256.rs:36-55 | multiplication distributes over XOR on both sides |
| GF256.MulNonZero | crates/erasure/src/gf256.rs:48-55 | a product is zero exactly when a factor is |
| GF256.InvCorrect | crates/erasure/src/gf256.rs:76-83 | zero alone has no inverse; otherwise the product with the inverse is one |
| GF256.MulTable | crates/erasure/src/gf256.rs:60-72 | the filled table holds the product of the scalar with every byte |
| GF256.Lookup | crates/erasure/src/gf256.rs:57-59 | reading a table of multiples is one field multiplication |
| Vectors.DotExchange | crates/erasure/src/homomorphic.rs:3-5 | the dot product of a combination is the combination of the dot products |
| Vectors.CombCombs | crates/erasure/src/lib.rs:297-340 | combining combinations is combining the originals: recombination composes |
| Span.Exchange | crates/erasure/src/lib.rs:552-605 | Steinitz: an independent family is no larger than one that spans it |
| Span.BasisCorrect | crates/erasure/src/lib.rs:552-605 | rank-many of the given vectors are independent and span all of them |
| Span.RankUnique | crates/erasure/src/lib.rs:552-605 | any independent family with the same span has exactly rank-many vectors |
| Span.RankOfSameVectors | crates/erasure/src/lib.rs:552-605 | the rank does not change under reordering or repetition of vectors |
| Span.FullRankIffIndependent | crates/erasure/src/lib.rs:552-605 | the rank equals the number of vectors exactly when they are independent |
| Span.FullRankIffSpansAll | crates/erasure/src/lib.rs:345-346 | the rank equals the dimension exactly when the vectors span the whole space |
| Elimination.FindPivot | crates/erasure/src/lib.rs:565-569 | finds the first row with a non-zero entry in the column, or none exists |
| Elimination.PivotColumn | crates/erasure/src/lib.rs:571-596 | swap, scale and clear perform exactly one pivot step |
| Elimination.PivotStepEchelon | crates/erasure/src/lib.rs:571-598 | a pivot step extends the reduced form by one unit column |
| Elimination.PivotStepSpan | crates/erasure/src/lib.rs:571-596 | a pivot step neither loses nor gains anything in the row space |
| Elimination.ReduceOneColumn | crates/erasure/src/lib.rs:563-598 | one loop iteration keeps the invariant whether or not the column has a pivot |
| Elimination.PivotCountIsPrefixRank | crates/erasure/src/lib.rs:563-604 | at every column the pivots found count the rank of the columns processed |
| Elimination.PivotIffLeading | crates/erasure/src/lib.rs:365-408 | pivot columns depend on the row space alone: they are its leading columns |
| Pieces.CreatePieceFromExisting | crates/erasure/src/lib.rs:301-340 | fewer than two pieces are an error; otherwise data and coefficients, fitted to the first piece by zipping, are combined by the same scalars |
| Pieces.FittedIffShaped | crates/erasure/src/lib.rs:326-333 | zipping takes the pieces as they are exactly when all have the shape of the first |
| Pieces.RecombineConsistent | crates/erasure/src/lib.rs:297-340 | any recombination of pieces consistent with a source is consistent with it |
| Numbers.DivCeilCovers | crates/erasure/src/lib.rs:122 | the rounded-up quotient is the least number of blocks that cover the data |
| Numbers.WrapIsModulo | crates/erasure/src/lib.rs:420-425 | the wrap-around used for offsets, casts and sums is the remainder of the division |
| Encoder.NewEncoder | crates/erasure/src/lib.rs:114-139 | the error cases, and otherwise the zero-padded pieces of the segment |
| Encoder.SplitRoundTrip | crates/erasure/src/lib.rs:122-133 | the joined source pieces start with the segment and are zero after it |
| Encoder.SourcePiecesConsistent | crates/erasure/src/lib.rs:147-159 | source pieces carry identity coefficients and the source data |
| Encoder.AddMultiple | crates/erasure/src/lib.rs:185-188 | the buffer gains the scalar multiple of the piece, through the lookup table |
| Encoder.LinearCombine | crates/erasure/src/lib.rs:179-191 | the accumulated bytes are the entrywise sum of field products |
| Encoder.LinearCombineIsBilinear | crates/erasure/src/lib.rs:178-191 | combining is linear in the coefficients and in the pieces |
| Encoder.RlncEncoder.Encode | crates/erasure/src/lib.rs:161-198 | k source pieces with unit coefficients, then for each drawn vector the piece with these coefficients and the combination of the source pieces that they announce |
| Decoder.SolutionSolves | crates/erasure/src/lib.rs:227-291 | independent pieces have a source from which all of them are coded |
| Decoder.SolutionUnique | crates/erasure/src/lib.rs:227-291 | and only one |
| Decoder.EliminateColumn | crates/erasure/src/lib.rs:257-284 | every other row is cleared, in coefficients and data by the same factor |
| Decoder.ReduceColumn | crates/erasure/src/lib.rs:240-284 | one decoder column is one pivot step on coefficients and data together |
| Decoder.MissingPivot | crates/erasure/src/lib.rs:235-238 | a column without a pivot proves the coefficients dependent |
| Decoder.AllPivots | crates/erasure/src/lib.rs:287 | after all columns the data rows are the source pieces |
| Decoder.EliminateAll | crates/erasure/src/lib.rs:229-285 | the loop stops early only on dependent coefficients and otherwise reaches the reduced form |
| Decoder.RlncDecoder.Decode | crates/erasure/src/lib.rs:219-294 | too few pieces, dependent coefficients, or the bytes of the one source that fits, truncated |
| Decoder.DecodeSound | crates/erasure/src/lib.rs:218-294 | whatever source the pieces came from, a successful decode returns its bytes |
| Decoder.DecodeComplete | crates/erasure/src/lib.rs:218-294 | with enough pieces decoding succeeds exactly at rank k, and dependence is the only error |
| Repair.CheckIndependence | crates/erasure/src/lib.rs:553-605 | returns the rank of the vectors, as far as the first one is long |
| Repair.FreeColumnsOfRank | crates/erasure/src/lib.rs:414-419 | there is one free column for each missing dimension |
| Repair.GenerateOrthogonalVector | crates/erasure/src/lib.rs:354-432 | the unit vector of the free column that the offset selects, or none; entries past k do not count |
| Repair.OrthogonalVectorCorrect | crates/erasure/src/lib.rs:342-349 | none exactly when the vectors span the space; otherwise a vector outside their span |
| Repair.OrthogonalVectorRaisesRank | crates/erasure/src/lib.rs:348-349 | appending the vector raises the rank by exactly one |
| Repair.RepairTerminates | crates/erasure/src/lib.rs:342-432 | repeated repair gains one dimension a round and stops after exactly k minus rank rounds |
| Repair.OffsetsWrap | crates/erasure/src/lib.rs:350-353 | offsets select the same column exactly when equal modulo the missing dimensions |
| Repair.TargetIsNth | crates/erasure/src/lib.rs:414-432 | the target is a free column, and as many free columns lie before it as the offset, wrapped around the missing dimensions, says |
| Repair.SameVectorIffSameColumn | crates/erasure/src/lib.rs:421-431 | vectors coincide exactly when the selected columns do |
| Repair.OffsetsDistinctIffNonEmpty | crates/erasure/src/lib.rs:358-363 | different small offsets select different columns exactly when some vector exists |
| Repair.SimultaneousIsOrthogonal | crates/erasure/src/lib.rs:421-431 | the jointly chosen vectors are those each node computes alone |
| Repair.CoveringOffsetsComplete | crates/erasure/src/lib.rs:421-431 | when the offsets cover all missing dimensions, the repaired family has full rank |
| Repair.SimultaneousRepairsIndependent | crates/erasure/src/lib.rs:421-431 | nodes with distinct offsets raise the rank by as many dimensions as there are nodes |
| RepairPiece.GreedyUnique | crates/erasure/src/lib.rs:523-527 | the solution that uses no vector spanned by earlier ones is unique |
| RepairPiece.Inconsistent | crates/erasure/src/lib.rs:516-521 | a reduced row with zero left and non-zero right side excludes every solution |
| RepairPiece.BasicSolutionSolves | crates/erasure/src/lib.rs:523-527 | reading off the pivots with free unknowns zero solves the system |
| RepairPiece.SolveAlphas | crates/erasure/src/lib.rs:457-527 | scalars are found exactly when the target is in the span, and they are the greedy solution |
| RepairPiece.CreateOrthogonalPiece | crates/erasure/src/lib.rs:445-550 | returns the piece that realises the orthogonal vector over the local pieces, fitted by zipping, or none |
| RepairPiece.OrthogonalPieceCorrect | crates/erasure/src/lib.rs:434-444 | some exactly when a target exists and is reachable; then its coefficients are the target, the rank rises by one, and it stays consistent |
| RepairPiece.SimultaneousPiecesIndependent | crates/erasure/src/lib.rs:421-442 | nodes with distinct offsets that each make a piece from their own pieces raise the rank by as many dimensions as there are nodes |
| RepairPiece.SomeOffsetRepairsIff | crates/erasure/src/lib.rs:438-442 | some offset makes a piece exactly when the local coefficients span the unit vector of a column that can be targeted |
| RepairPiece.NewDirectionNotEnough | crates/erasure/src/lib.rs:457-521 | a node with a direction the network lacks for which no offset makes a piece |
| Homomorphic.GenerateProjection | crates/erasure/src/homomorphic.rs:142-170 | chunked hashing with early exit gives the projection bytes of the requested length |
| Homomorphic.ProjectionBlock | crates/erasure/src/homomorphic.rs:142-170 | byte i of block c of projection j is byte i of the hash of the string for j and c |
| Homomorphic.ChunkInputLayout | crates/erasure/src/homomorphic.rs:148-152 | the hashed string is the seed, then the projection index, then four bytes that decode to the block number |
| Homomorphic.ChunkInputsDiffer | crates/erasure/src/homomorphic.rs:148-152 | two such strings are equal exactly for the same projection and the same block |
| Homomorphic.Gf256Dot | crates/erasure/src/homomorphic.rs:173-181 | the loop computes the dot product |
| Homomorphic.GenerateSegmentHashes | crates/erasure/src/homomorphic.rs:67-92 | sixteen projections of every original piece |
| Homomorphic.ExpectedProjection | crates/erasure/src/homomorphic.rs:122-130 | skipping zero coefficients still gives the announced hash |
| Homomorphic.VerifyPiece | crates/erasure/src/homomorphic.rs:102-138 | true exactly when the coefficient count fits and the hash of the data is the announced one |
| Homomorphic.ExpectedIsHashOfCombination | crates/erasure/src/homomorphic.rs:3-5 | the announced hash is the hash of the combined originals |
| Homomorphic.AcceptsIffErrorOrthogonal | crates/erasure/src/homomorphic.rs:94-138 | a piece passes exactly when its error is orthogonal to all sixteen projections |
| Homomorphic.ConsistentAccepted | crates/erasure/src/homomorphic.rs:94-138 | consistent pieces pass for every seed and every hash function |
| Homomorphic.InconsistentAccepted | crates/erasure/src/homomorphic.rs:94-138 | below full rank of the projections, every coefficient vector has an accepted piece that is not consistent |
| Homomorphic.AcceptanceSoundIff | crates/erasure/src/homomorphic.rs:94-138 | acceptance implies consistency for all pieces of a size exactly when the sixteen projections have full rank on it, never past sixteen bytes |
| Homomorphic.ShortPiecesCoverable | crates/erasure/src/homomorphic.rs:140-170 | up to sixteen bytes, for every seed some hash function gives projections of full rank |
| Homomorphic.SoundnessPossibleIff | crates/erasure/src/homomorphic.rs:94-138 | for some hash function and the hashes it gives the source acceptance is sound exactly when pieces have at most sixteen bytes |
| Homomorphic.AcceptsNothingElse | crates/erasure/src/homomorphic.rs:94-138 | without original pieces only the empty piece passes |
| Homomorphic.AcceptedRecombine | crates/erasure/src/homomorphic.rs:1-5 | recombining accepted pieces gives an accepted piece, consistent or not |
| Homomorphic.RejectedRecombine | crates/erasure/src/homomorphic.rs:94-138 | one rejected piece among accepted ones makes the recombination rejected exactly when its scalar is not zero |
| Runs.NextSound | crates/erasure/src/lib.rs:147-340 | every action keeps all pieces consistent with the source |
| Runs.RunSound | crates/erasure/src/lib.rs:147-340 | so every piece of every reachable pool is consistent with the source |
| Runs.RunDecodes | crates/erasure/src/lib.rs:218-294 | any k reachable pieces with independent coefficients decode to the segment |
| Runs.ParityDecodes | crates/erasure/src/lib.rs:161-294 | the pieces coded from k independent drawn vectors decode to the segment without any source piece |
| Runs.CodeRaisesRankIff | crates/erasure/src/lib.rs:161-176 | coding a piece for a vector raises the rank of the pool by one exactly when the vector lies outside its span |
| Runs.RunVerifies | crates/erasure/src/homomorphic.rs:94-101 | every reachable piece verifies, however deeply recombined |
| Runs.RecoverableIffFullRank | crates/erasure/src/lib.rs:218-294 | at any moment the segment can be recovered exactly when the held coefficients have rank k |
| Runs.RankNeverGrowsOverRun | crates/erasure/src/lib.rs:297-340 | without the source no recombination or repair raises the rank the network holds |
| Runs.LostStaysLost | crates/erasure/src/lib.rs:297-340 | a segment that cannot be recovered stays so until the source codes again |
| Runs.RepairNeedsNewDirection | crates/erasure/src/lib.rs:445-521 | no repair piece when the local coefficients lie in the span of the existing ones |
| Runs.ListedNodeCannotRepair | crates/erasure/src/lib.rs:438-442 | in particular none for a node whose pieces are listed |
| Segmenter.EncodeSegment | crates/erasure/src/segmenter.rs:26-37 | index as u32, source pieces and coded pieces of one segment, or the configuration error |
| Segmenter.PieceCount | crates/erasure/src/lib.rs:74-76 | a segment yields k source pieces and the floored parity percentage of k coded ones |
| Segmenter.KForSegmentCovers | crates/erasure/src/lib.rs:60-72 | the piece count of a segment length is the least positive one that covers it |
| Segmenter.FullSegmentPieces | crates/erasure/src/lib.rs:55-72 | a full segment has the configured k exactly when the piece size divides the segment size |
| Segmenter.SegmentAndEncode | crates/erasure/src/segmenter.rs:14-42 | the encoded segments in order, or the error for empty data or zero piece size |
| Segmenter.DecodeAndReassemble | crates/erasure/src/segmenter.rs:49-85 | the decoded segments joined and truncated, or the error of the first that fails |
| Segmenter.ReassembledIff | crates/erasure/src/segmenter.rs:49-85 | success exactly when every segment is present with k pieces whose first k are independent; otherwise the lowest one that is not decides: missing, too few pieces, or dependent |
| Segmenter.ReassembledValue | crates/erasure/src/segmenter.rs:66-84 | on success the result is the joined bytes of the sources that fit, each cut to its segment, whichever sources those are |
| Segmenter.DecimalReadsBack | crates/erasure/src/segmenter.rs:61-63 | the segment number in the error text reads back as the number |
| Segmenter.RoundTrip | crates/erasure/src/segmenter.rs:14-85 | reassembling faithful selections of all segments gives back the data |
| Segmenter.EncodedSelectionIsFaithful | crates/erasure/src/segmenter.rs:31-34 | any choice from the encoder's output whose first k pieces are independent is faithful |
| Segmenter.EncodeDecodeRoundTrip | crates/erasure/src/segmenter.rs:14-85 | what the encoder returns, collected under its own segment indices, reassembles to the data, below 2^32 segments |
| Segmenter.FewerSegmentsFail | crates/erasure/src/segmenter.rs:49-85 | a total below the segment count never gives back the data, whatever the map holds |
| Segmenter.RecoverableIffU32 | crates/erasure/src/segmenter.rs:49-85 | some u32 total and some collected segments reassemble to the data exactly when there are fewer than 2^32 segments |
| Segmenter.IndicesDistinctIffU32 | crates/erasure/src/segmenter.rs:36 | segment indices stay apart exactly up to 2^32 segments |
| Segmenter.RecordMatchesEncoder | crates/erasure/src/homomorphic.rs:32-56 | the record derives the segment count and each k that the encoder produced |
| Segmenter.SegmentCountCovers | crates/erasure/src/homomorphic.rs:34-39 | for every file size the count is the least number of segments that cover the file |
| Bytes.LittleEndianRoundTrip | crates/prover-guest-types/src/lib.rs:37-60 | fixed-width little-endian bytes give back the number when it fits |
| Bytes.LittleEndianDigit | crates/prover-guest-types/src/lib.rs:37-42 | byte i holds the digit of weight 256 to the i |
| Bytes.LessIffFirstDifference | crates/prover/src/lib.rs:74-81 | keys are ordered by the first byte in which they differ |
| Merkle.ComputeMerkleRoot | crates/prover/src/merkle.rs:7-39 | the level-by-level loop computes the balanced-tree hash of the padded leaves |
| Merkle.RootOfFew | crates/prover/src/merkle.rs:7-14 | no leaves have the zero root, and a single leaf is its own root |
| Merkle.RootOfHalves | crates/prover/src/merkle.rs:23-38 | over two halves of a power-of-two size the root is the hash of the two roots, left before right |
| Merkle.MergeLevel | crates/prover/src/merkle.rs:24-36 | one pass hashes adjacent pairs |
| Merkle.PowerFromIsLeast | crates/prover/src/merkle.rs:15-16 | the padded length is the least power of two that holds the leaves |
| Merkle.LevelKeepsRoot | crates/prover/src/merkle.rs:23-36 | merging one level keeps the root |
| Merkle.SameRootIff | crates/prover/src/merkle.rs:7-39 | equal roots for any two leaf lists exactly when their trees agree at the widest common level, or two strings hashed above that level, one in each tree, collide |
| Merkle.InnerNodesSameRoot | crates/prover/src/merkle.rs:23-38 | the shorter list of inner nodes has the root of the leaves |
| Merkle.RootBindsUpToZeros | crates/prover/src/merkle.rs:15-21 | within one padded length, equal roots exactly when the lists differ in trailing zero leaves only, or two hashed strings, one of each computation, collide |
| Merkle.RootBinds | crates/prover/src/merkle.rs:3-6 | equal-length leaves with equal roots are equal, or two hashed strings, one of each computation, collide |
| Merkle.ZeroLeafSameRoot | crates/prover/src/merkle.rs:15-21 | off powers of two an explicit zero leaf leaves the root unchanged |
| Prover.AggregateReceipts | crates/prover/src/lib.rs:52-76 | the error of the first bad receipt, or the entries in key order with their u64 sums |
| Prover.AggregationFails | crates/prover/src/lib.rs:52-71 | aggregation fails exactly on an empty batch or at the first receipt without weight, time or operator, whose first fault is named |
| Prover.AggregatedExactIff | crates/prover/src/lib.rs:59-72 | the entries are what the operators earned exactly when nobody earns 2^64 or more |
| Prover.FoldMeaning | crates/prover/src/lib.rs:59-75 | the entries are the operators with the sums they earned, and the total is the sum of all weights |
| Prover.FoldSorted | crates/prover/src/lib.rs:74-75 | entries come out in strictly increasing key order |
| Prover.AggregationIsCanonical | crates/prover/src/lib.rs:48-76 | reordering receipts neither changes the entries nor success |
| Prover.ExecuteGuestLogic | crates/prover/src/lib.rs:79-106 | root, total and count of the sorted entries |
| Prover.LeafLayout | crates/prover/src/lib.rs:83-92 | a leaf hashes 40 bytes: the operator, then eight that decode to its weight |
| Prover.SortIsStable | crates/prover/src/lib.rs:80-81 | the sort orders the keys, keeps the same entries, and keeps those of one key in their order |
| Prover.GuestOutputIsCanonical | crates/prover/src/lib.rs:79-106 | for entries with distinct keys the output is the root, wrapped total and count of their one sorted arrangement, whatever order they came in |
| Prover.SortIsIdentity | crates/prover/src/lib.rs:80-81 | aggregated entries are already in the order the guest sorts them into |
| Prover.OutputRoundTrip | crates/prover-guest-types/src/lib.rs:35-61 | decoding the 76 bytes gives back the output |
| Prover.OutputLayout | crates/prover-guest-types/src/lib.rs:35-45 | where root, total, count and pool stand in the 76 bytes |
| Prover.ProveBatch | crates/prover/src/lib.rs:127-150 | the magic and the output bytes, or the aggregation error |
| Prover.VerifyAcceptsIff | crates/prover/src/lib.rs:153-172 | accepted exactly when the proof is the magic followed by 76 public bytes |
| Prover.VerifyErrors | crates/prover/src/lib.rs:153-172 | which error a proof without the magic, with other public inputs, or with public inputs of the wrong length gets |
| Prover.ProvedBatchVerifies | crates/prover/src/lib.rs:127-172 | verifying a proved batch returns its root, the sum of the receipt weights, its count and pool |
| Prover.ProofIsCanonical | crates/prover/src/lib.rs:127-150 | the proof is the same for every order of the receipts |
| Prover.OutputBinds | crates/prover/src/lib.rs:79-106 | equal outputs mean equal pools, and equal distributions or a collision between two strings hashed for the two outputs |
| Fee.CalculateFee | crates/settlement/src/fee.rs:26-36 | fee and payout add up to the amount |
| Fee.FeeExactIffNoSaturation | crates/settlement/src/fee.rs:33 | the fee is the exact floor exactly within the saturation bound, and never more |
| Fee.FeeAtMostHalf | crates/settlement/src/fee.rs:26-36 | at every admissible rate the fee is at most half of the amount |
| Fee.PayoutSplit | crates/settlement/src/fee.rs:48-63 | how the share splits: the fee is the floored rate of it up to saturation, the payout the rest and never less than the fee, and the whole share at rate zero |
| Fee.PayoutIsShare | crates/settlement/src/fee.rs:48-63 | fee and payout together are the exact floored share |
| Fee.HeavierIsPaidNoLess | crates/settlement/src/fee.rs:48-63 | a heavier operator is never paid less, despite flooring and saturation |
| Fee.NoOverpayment | crates/settlement/src/fee.rs:43-63 | all fees and payouts fit the pool and fall short by less than one unit an operator |
| Batch.Build | crates/aggregator/src/batch.rs:41-78 | weights, total and proof of the pool's receipts, or the error |
| Batch.BuildSucceedsIff | crates/aggregator/src/batch.rs:41-78 | a batch is built exactly when there are receipts and each is provable |
| Batch.BuildFails | crates/aggregator/src/batch.rs:41-62 | the error names an empty batch, or the fault of the first receipt that cannot be proved |
| Batch.BatchConservesWeight | crates/aggregator/src/batch.rs:50-77 | the total equals the number of receipts and the total that the proof attests |
| Batch.BatchIsCanonical | crates/aggregator/src/batch.rs:41-78 | reordering the receipts changes nothing in the batch |
| Batch.ClaimLayout | crates/settlement/src/accounts.rs:212-216 | the string hashed for deduplication holds content, shard, node, challenger and time at fixed places |
| Batch.SameHashIff | crates/settlement/src/accounts.rs:208-221 | dedup hashes agree exactly for the same claim, or for two claims whose strings collide |
| Service.SettledRoot | crates/aggregator/src/poster.rs:67-76 | a posting carries the Merkle root of the leaves of its own weights, and their total |
| Collector.ReceiptCollector.constructor | crates/aggregator/src/collector.rs:41-51 | an empty collector for the given window |
| Collector.ReceiptCollector.RegisterPool | crates/aggregator/src/collector.rs:65-67 | only the mapping of that content changes |
| Collector.ReceiptCollector.Pools | crates/aggregator/src/collector.rs:75-77 | every pool with receipts once, in no promised order |
| Collector.ReceiptCollector.TakeReceipts | crates/aggregator/src/collector.rs:80-82 | returns and removes one pool's queue, nothing else |
| Collector.ReceiptCollector.Ingest | crates/aggregator/src/collector.rs:110-155 | the first failed check and no change, or the receipt queued and its hash remembered |
| Collector.ReceiptCollector.Reset | crates/aggregator/src/collector.rs:158-163 | a new window with no receipts and no hashes, pools kept |
| Service.AggregatorService.constructor | crates/aggregator/src/service.rs:65-88 | the epoch and the aligned window that hold the clock reading |
| Service.AggregatorService.AdvanceEpoch | crates/aggregator/src/service.rs:169-173 | the next epoch's aligned window |
| Service.AggregatorService.ProcessEpochEnd | crates/aggregator/src/service.rs:117-166 | every pool with receipts settled once, then the next epoch |
| Epochs.RunKeepsInv | crates/aggregator/src/service.rs:117-173 | over every run the queues and the seen set hold exactly what this epoch accepted |
| Epochs.RegistryMatches | crates/aggregator/src/collector.rs:65-67 | over every run the collector knows exactly the registered content, each with the pool last registered for it |
| Epochs.OfferOutcome | crates/aggregator/src/collector.rs:110-155 | in every run, which verdict an offered receipt gets, told from what was registered and accepted before |
| Epochs.OfferAcceptedIff | crates/aggregator/src/collector.rs:110-155 | in every run an offer in the window, acceptable and registered is accepted exactly when this epoch has accepted neither its claim nor a colliding one; otherwise nothing changes |
| Epochs.AcceptedWasOffered | crates/aggregator/src/collector.rs:137-152 | everything accepted was offered in that epoch, for the pool then last registered for its content |
| Epochs.EpochsCounted | crates/aggregator/src/service.rs:65-173 | the epoch is that of the first clock reading plus one for each epoch end |
| Epochs.AcceptedAtMostOncePerEpoch | crates/aggregator/src/collector.rs:126-150 | over every run each dedup hash is accepted at most once per epoch |
| Epochs.SettledIffNoZeroTimestamp | crates/prover/src/lib.rs:65-67 | a pending batch can be settled exactly when no receipt in it is stamped zero |
| Epochs.EpochZeroCanFail | crates/prover/src/lib.rs:65-67 | a zero-stamped receipt accepted in epoch zero blocks its pool's batch |
| Epochs.EpochEndAccounts | crates/aggregator/src/service.rs:117-166 | in every run and for every order of the pools, the posted weight and the receipts of blocked pools add up to the receipts accepted in the epoch |
| Epochs.EpochEndConservesIff | crates/aggregator/src/service.rs:117-166 | the posted weight equals the receipts accepted in the epoch exactly when none of them is stamped zero |
| Epochs.LaterEpochsConserve | crates/aggregator/src/service.rs:117-166 | in every run, closing an epoch after epoch zero settles every pool and posts one unit for each receipt accepted in it |
| Epochs.OneResultPerPool | crates/aggregator/src/service.rs:117-166 | in every run closing the epoch reports one result for each pool with receipts, in the order taken, failed or not |
| Epochs.PostingCommits | crates/aggregator/src/poster.rs:67-76 | in every run the root and the total of a posted pool are those of the posted weights |
| Epochs.PostingPaysOperators | crates/aggregator/src/service.rs:138-151 | in every run, a posted pool gives each operator exactly the number of receipts the epoch accepted for that pool from it |
| Epochs.WindowsOfTimestamp | crates/aggregator/src/collector.rs:111-119 | the exact interval of epochs whose window holds a timestamp |
| Epochs.GraceReach | crates/aggregator/src/collector.rs:111-119 | that interval spans at most ceil(grace/duration) earlier epochs, and none exactly in epoch zero or past the grace period |
| Epochs.ClaimedAtMostWindows | crates/aggregator/src/collector.rs:111-163 | over a run all receipts that agree in the deduplicated fields are together accepted at most once for each window that holds the timestamp |
| Epochs.AcceptedAtMostWindows | crates/aggregator/src/collector.rs:111-163 | so is each single receipt, and only an acceptable one |
| Epochs.ReplayIsAccepted | crates/aggregator/src/collector.rs:110-163 | a run that offers an acceptable receipt in each of those windows has it accepted every time |
| Epochs.AcceptedTimesIff | crates/aggregator/src/collector.rs:110-163 | some run accepts a receipt n times exactly when it is acceptable and n windows hold its timestamp |
| Epochs.ClaimedTimesIff | crates/aggregator/src/collector.rs:110-163 | some run accepts a claim n times exactly when some acceptable receipt states it and n windows hold its timestamp |
| Epochs.AcceptedTwiceIff | crates/aggregator/src/collector.rs:110-163 | twice is possible exactly when the stamp is past epoch zero and within the grace period of the epoch before |
| Epochs.OverlapIsBounded | crates/aggregator/src/collector.rs:111-163 | one claim counts in at most 1 + ceil(grace/duration) epochs |
| Epochs.NothingStrandedIff | crates/aggregator/src/service.rs:117-166 | over a run nothing is left unposted by a blocked pool exactly when epoch zero is open or accepted no zero stamp |
| Epochs.Perform | crates/aggregator/src/service.rs:117-182 | each operation on the objects is the corresponding step of the run, and posts exactly what becomes due |
| Epochs.Execute | crates/aggregator/src/service.rs:283-327 | over any events from any clock reading, everything accepted is posted, pending in the current epoch, or stranded in a pool that a zero stamp blocked |

## Left out

- Networking, IPC, agent runtime, key handling, settings and logging: not part of this model.
- Receipt persistence and `load_persisted`: file input and output.
- `receipt_count`, `process_receipt_message`, `drain_channel`: counting for the log, deserialisation, and a loop over a channel around `ingest`.
- The asynchronous epoch loops, sleeping and submission: the epoch machine is driven by arbitrary events instead.
- The SP1 prover and guest: the host algorithm they repeat is modelled, real proofs are opaque.
- The instruction bytes and the description string of a posted transaction; the pool, root, total and weights are modelled.
- Signature verification and the two hash functions: parameters of the model.
- Decoder.RlncDecoder.Decode: requires that the first `k` pieces have `k` coefficients and equal data lengths, the shape all constructors produce; the source can panic on shorter rows, and on data of unequal length its zipping has no meaning in terms of a source.
- Repair.CheckIndependence: requires that no vector is shorter than the first, where the source can index past the end of a row.
- Repair.GenerateOrthogonalVector: requires at least `k` entries in each vector, for the same reason.
- RepairPiece.CreateOrthogonalPiece: requires at least `k` coefficients in each local piece and each vector, for the same reason.
- Prover.AggregateReceipts: wraps `u64` sums as a release build does; a debug build panics instead.
- Prover.ExecuteGuestLogic: wraps the total in the same way.
- Batch.Build: requires fewer than 2^64 receipts, which holds for every slice in memory.
- Service.AggregatorService.ProcessEpochEnd: requires fewer than 2^64 receipts in a pool, for the same reason.
- Segmenter.DecodeAndReassemble: requires that no segment starts past the original length, where the source's subtraction underflows, and pieces of the shape that `Decode` requires.
- Time arithmetic on epochs and deadlines is unbounded; the source's `u64` sums could overflow near 2^64 seconds.
- Row buffers are updated by reassigning local sequences, so the borrow splitting around the pivot row is not modelled.
- Probability that random coefficients are independent, and the forgery probability of the hash.
