# Control codecs, packers and oracles of the CMPCT research line

A Dafny model of the deterministic cores of the repository's research oracles, with proofs of what
they promise. Everything is stated for all inputs; nothing is sampled. `dafny verify dfyconfig.toml`
checks the whole project.

## What is modelled

* **The compact index** (`IndexTable`, `IndexCodec`): front-coded paths, modes and times as differences, sizes that
  the storage tells, hard links by row number. Proved: exactly which indices can be compacted, exactly when
  decoding gives the index back, and the same from end to end through each pack map (`IndexPipeline`); and what
  every cell of a table says, for either direction (`IndexMeaning`).
* **The implicit S_PACK control codecs v2 to v5.** A compact index has file rows, and a packed row says
  "bytes [off, off+len) of pack blob". The encoders blank that column and describe each pack once; the
  decoders rebuild it behind many guards. Encoders and decoders are given twice, as functions over rows
  and descriptor cells (`PackMapV2`, `PackMapV3`, `PackMapV4`, `BlobTableV5`) and as the loops that overwrite
  rows in place, proved equal to those functions. Proved: decode after encode is the identity, with the exact
  condition where it is not; what any successful decoding looks like; exactly which layouts each encoder
  accepts; that the accepted sets form a strict chain; and, in terms of rows and slices alone, every cell of an
  accepted candidate (`Candidates`) and of a descriptor that a decoder accepts (`Decoders`).
* **The micro-packers.** Four grouping strategies, the incremental packer and the stable one
  (`GreedyCut`, `LocalityPack`, `PackStrategies`), and the builder that turns groups into packs by rewriting
  file rows and the content store (`Storages`, `PackRun`, `MicroPackBuilder`). Proved: partition, bounds,
  minimality, refinement, and exactly when a row of any kind and storage keeps its bytes and the archive
  can be written, after retained streams and a dictionary are added (`Finishing`), with the inputs on which
  it cannot (`LostContents`, `SmallBuilds`). What each strategy makes, what a build packs, what finishing adds and
  what bytes a storage stands for are told without these functions in `StrategyMeaning`, `BuildMeaning`,
  `FinishingMeaning` and `StorageMeaning`.
* **From the packers to the codecs** (`ListedPacks`, `PackLayout`, `PackThenCodec`, `PolicyThenCodec`, `StableThenCodec`): exactly
  when v2 and v4 accept what a build under any policy leaves behind, in terms of the build's own packs and
  rows, with the builds that they refuse (`RefusedTables`).
* **The knapsack oracle** (`Knapsack`): exactness and tie-break of the sparse table.
* **Physical records** (`ByteLayout`, `RecordScan`, `SalvageHeaders`, `SelfIndexedRaw`, `RecordBytes`): three walkers over
  one byte stream, and a fourth routine that re-frames it under shorter headers; records byte by byte.
* **Effort policies** (`Effort`, `EffortRuns`, `EffortEconomics`, `EffortMeaning`): early stop against one probe on every
  size curve, the audit of missed bytes, and all that the runs report.
* **Residual program packs** (`ResidualPlan`, `ResidualPricing`, `ResidualMeaning`) and the **BytePlane4** transform with its wrapped codec (`BytePlane4`).

`Results`, `Numbers`, `Kinds`, `Sorting`, `Grouping`, `ControlRows`, `Descriptors` and `PackTally` hold what these share:
exceptions as results, sums and minima, row kinds, stable sorting on tuple keys, dictionaries of lists in
insertion order, rows, descriptor cells and the encoders' statistics.

## Where the code does not keep its promise

* The v4 decoder refuses negative blob ids although the encoder does not; `PackMapV4.RoundTrip` shows that this
  is the only obstacle, `AcceptanceV3.NegativeIdRefused` and `BlobTableV5.NegativeIdRefused` give a one-row input for v4
  and v5. v3 has no obstacle.
* The v2 decoder indexes rows without a range check, so a negative index counts from the end as in Python;
  `PackMapV2.RestoreExact` shows that the markers make up for it.
* The builder drops packed contents from the store even when something else needs them, although
  src/cmpct/builder.py:150-158 promises that what nested ZIP recipes refer to is left independent. The second
  name may be a symbolic link (`LostContents.SymlinkLosesContent`), a stored member of a nested ZIP
  (`LostContents.StoredMemberLosesContent`) or a chunk, extent or part of any other row
  (`LostContents.SecondNameLosesContent`); or an earlier pack may have the bytes of a later member and be dropped
  with it (`LostContents.SpelledMemberLosesPack`). `build` then cannot map the digest and raises, unless a
  retained Deflate stream or the dictionary happens to put the content back. `Finishing.FinishedPreservesExact`
  and `Finishing.FinishedMapsExact` give the exact condition for every row, storage and policy.
* Tables that a build leaves behind and no codec accepts: two copies of a small text file
  (`RefusedTables.CopiesRefused`), two packs of the same bytes (`RefusedTables.TwinPacksRefused`), and, from the
  ascending packer, an empty file behind a short one (`RefusedTables.EmptyFileRefused`). Tables that v2 accepts and
  v4 refuses, in the stable order as well: packs of two extensions that straddle each other
  (`RefusedTables.TwoBucketsRefused`), and eight nested archives around a text file (`RefusedTables.EightArchivesRefused`).
  `PolicyThenCodec.BuiltAcceptedExact` and `PolicyThenCodec.BuiltAcceptedByBytes` are the exact conditions.
* Sorting the file table by path can put a hard link before the file that the walk met first; the compact
  index then raises (`IndexCodec.SortedWalkRefused`). `IndexCodec.CompactExact` is the exact condition.
* The re-framing of RAW records fails on payloads of 2^32 bytes and more (`SelfIndexedRaw.ReframeExact`); one
  such record is enough (`SelfIndexedRaw.WideRecordRefused`).
* Of the four eligibility filters of the residual plan, the one on amplification never decides anything, at
  any limit (`ResidualPlan.AmplificationFilterRedundant`), and the one on size decides nothing exactly for limits
  up to 256 KiB (`ResidualPlan.SizeFilterExact`), which all shipped limits are. For programs at the cost that
  the oracle gives them, it matters exactly if some list of deltas above that size gains enough
  (`ResidualPricing.PricedFilterExact`).

## Assumptions

* SHA-256, CRC-32, Zstandard, the base codec and the record compressor are function parameters. Where a theorem
  needs more than determinism it says so in its `requires`: a digest without collisions,
  a base codec that round-trips and never emits the BytePlane4 tag (Zstandard frames start with the magic
  number of section 3.1.1 of RFC 8878), a stored payload that is the level-1 encoding. Regenerating a
  Deflate stream at a level is a function of content and level.
* The compact index keeps a packed row's column 3 as `[S_PACK, blob, off, len]`; `IndexPipeline.ControlOf` is that
  view of it, with the storages that no pack map looks into told apart by a number, and
  `IndexPipeline.CompactIsUnmarked` proves that no bare marker `[S_PACK]` leaves it. `PackThenCodec.Renders` is the same view
  of the builder's rows, with blob ids for digests.
* Integers are Python's, unbounded; header fields are unsigned and of the widths of `<4sBBHQQII32s`.

## Model

| member | source | states |
|---|---|---|
| IndexCodec.CompactExact | benchmarks/v030_r24_compact_control_oracle.py:78-125 | an index can be compacted exactly when every hard link names a path at or before its row and every other storage tells its size without a fault |
| IndexCodec.RoundTripExact | benchmarks/v030_r24_compact_control_oracle.py:78-165 | decoding fails exactly on a hard link that names itself, and gives back the index exactly when every row is faithful: directories without size, digest and storage, hard links with the size of their owner and nothing else, digests only on chunked and sparse rows |
| IndexCodec.DecodedIsFaithful | benchmarks/v030_r24_compact_control_oracle.py:128-165 | whatever table the decoder accepts, its result is faithful, and encoding and decoding it again changes nothing, unless a hard link shares its path with an earlier row |
| IndexCodec.ModeFewestOverrides | benchmarks/v030_r24_compact_control_oracle.py:47-51 | no other default leaves fewer modes or times to be written out; of equally good ones it is the least |
| IndexMeaning.DerivedExact | benchmarks/v030_r24_compact_control_oracle.py:54-75 | the size that a storage tells is the length of a slice, `usize` of the blob, the total of the chunks' or the parts' sizes, or the size in the recipe, negative indices counting from the end; sparse and unknown storages tell none, and all others raise |
| IndexMeaning.CompactMeans | benchmarks/v030_r24_compact_control_oracle.py:78-125 | a table is the encoder's result exactly when its defaults are the most common mode and time, least of equals, every prefix is the longest common one, and every cell holds what its row says: a size is left out exactly when the storage tells that size |
| IndexMeaning.ExpandMeans | benchmarks/v030_r24_compact_control_oracle.py:128-165 | an index is the decoder's result exactly when each row is what its cells say: a missing size is the one that the storage tells, a hard link has the last size under its owner's path |
| IndexCodec.SortedWalkRefused | src/cmpct/builder.py:65-146 | a directory with a hard-linked file and an alias beside it: in walk order the table round-trips, sorted by path the encoder raises |
| IndexCodec.CountPrefix | benchmarks/v030_r24_compact_control_oracle.py:39-44 | the loop counts the longest common prefix |
| IndexCodec.CompactRows | benchmarks/v030_r24_compact_control_oracle.py:78-125 | the loop with its dictionary of paths computes the specified table or fault |
| IndexCodec.ExpandRows | benchmarks/v030_r24_compact_control_oracle.py:128-165 | the loop with its list of paths and dictionary of sizes computes the specified index or fault |
| IndexPipeline.CompactIsUnmarked | benchmarks/v030_r24_compact_control_oracle.py:56-75 | no compact table has a bare marker where a slice should be |
| IndexPipeline.ControlTold | benchmarks/v030_c25cc01_implicit_packmap_v4_oracle.py:33-43 | what the pack maps see of a compact table determines it |
| IndexPipeline.SlicesTold | benchmarks/v030_c25cc01_implicit_packmap_v4_oracle.py:33-43 | the pack maps see a slice exactly where the index has a regular file stored as that slice |
| IndexPipeline.ProjectV4Exact | benchmarks/v030_c25cc01_implicit_packmap_v4_oracle.py:162-167 | from index to v4 candidate and back: it fails exactly on negative ids, and gives back the index exactly when it is faithful |
| IndexPipeline.ProjectV3Exact | benchmarks/v030_c25cc01_implicit_packmap_v3_oracle.py:192-197 | the same for v3, which never fails |
| IndexPipeline.ProjectV2Exact | benchmarks/v030_c25cc01_packmap_control_oracle.py:124-127 | the same for v2, which never fails |
| IndexPipeline.ProjectV5Exact | benchmarks/v030_c25cc01_self_describing_blobtable_oracle.py:85-90 | the same for v5, over the archive's own records |
| PackMapV4.RoundTrip | benchmarks/v030_c25cc01_implicit_packmap_v4_oracle.py:33-159 | for every index the encoder accepts, decoding succeeds exactly when no packed row has a negative blob id, and then gives back the whole control |
| PackMapV4.ExpandUndoesEncode | benchmarks/v030_c25cc01_implicit_packmap_v4_oracle.py:71-98 | one descriptor in any of the four modes decodes to the rows and lengths it came from; no guard but the sign of the id can fire |
| PackMapV4.ExpansionUndoesEncode | benchmarks/v030_c25cc01_implicit_packmap_v4_oracle.py:116-150 | the same over the whole list, with the running file end of encoder and decoder in step |
| PackMapV4.DecodedIsSliced | benchmarks/v030_c25cc01_implicit_packmap_v4_oracle.py:112-159 | whatever candidate the decoder accepts: no row is assigned twice, each descriptor's rows get consecutive slices from 0, all other rows are untouched |
| PackMapV4.OrderGroups | benchmarks/v030_c25cc01_implicit_packmap_v4_oracle.py:45-51 | packs come in order of first file row, members by offset and row |
| PackMapV4.EncodeOrdered | benchmarks/v030_c25cc01_implicit_packmap_v4_oracle.py:53-100 | the loop computes the specified descriptors and counters or raises the specified fault |
| PackMapV4.CompactV4 | benchmarks/v030_c25cc01_implicit_packmap_v4_oracle.py:33-109 | the in-place encoder is the specified function, with its statistics; a truncated slice raises |
| PackMapV4.StatisticsExact | benchmarks/v030_c25cc01_implicit_packmap_v4_oracle.py:53-109 | the statistics count one group per descriptor and every packed row once; uniform and contiguous groups are those whose descriptor has such a mode |
| Candidates.CandidateV4Exact | benchmarks/v030_c25cc01_implicit_packmap_v4_oracle.py:33-109 | an accepted candidate, cell by cell: one descriptor for each pack, in order of first row and id; equal lengths are one number exactly in modes 0 and 2, consecutive rows a distance from the file end exactly in modes 0 and 1; packed rows are blanked, nothing else changes |
| Candidates.TallyV4Exact | benchmarks/v030_c25cc01_implicit_packmap_v4_oracle.py:53-109 | the statistics count the packs whose lengths are all equal, the packs whose rows are consecutive, and the packed rows |
| Decoders.ExpandV4Exact | benchmarks/v030_c25cc01_implicit_packmap_v4_oracle.py:119-150 | a descriptor is accepted exactly when its four cells read as a run of rows and lengths, and gives that run; the next distance counts from the largest row so far |
| PackMapV4.RestoreV4 | benchmarks/v030_c25cc01_implicit_packmap_v4_oracle.py:112-159 | the in-place decoder is the specified function, faults included |
| PackMapV3.RoundTrip | benchmarks/v030_c25cc01_implicit_packmap_v3_oracle.py:47-189 | for every index the encoder accepts, decoding gives back the whole control, unconditionally |
| PackMapV3.ExpandUndoesEncode | benchmarks/v030_c25cc01_implicit_packmap_v3_oracle.py:81-117 | `delta*4 + mode` splits back, the membership and lengths come back, no decoder guard fires |
| PackMapV3.AccumulateUndoesDeltas | benchmarks/v030_c25cc01_implicit_packmap_v3_oracle.py:101-108 | monotone sparse membership survives delta coding, with no negative delta |
| PackMapV3.DecodedIsSliced | benchmarks/v030_c25cc01_implicit_packmap_v3_oracle.py:129-189 | as for v4, for any candidate the v3 decoder accepts |
| PackMapV3.EncodeGroups | benchmarks/v030_c25cc01_implicit_packmap_v3_oracle.py:60-120 | the loop with its accumulators and counters computes the specified descriptors or fault |
| PackMapV3.CompactV3 | benchmarks/v030_c25cc01_implicit_packmap_v3_oracle.py:47-126 | the in-place encoder is the specified function, with its statistics |
| PackMapV3.StatisticsExact | benchmarks/v030_c25cc01_implicit_packmap_v3_oracle.py:60-126 | as for v4, with the mode in the lowest two bits of the header |
| Candidates.CandidateV3Exact | benchmarks/v030_c25cc01_implicit_packmap_v3_oracle.py:47-126 | the same for v3: packs in order of their ids, ids and sparse rows as distances, the mode as the remainder by four |
| Candidates.TallyV3Exact | benchmarks/v030_c25cc01_implicit_packmap_v3_oracle.py:60-126 | the same for the statistics of v3 |
| Decoders.ExpandV3Exact | benchmarks/v030_c25cc01_implicit_packmap_v3_oracle.py:134-178 | the same for the descriptors of v3; the next distances count from this id and the last row |
| PackMapV3.RestoreV3 | benchmarks/v030_c25cc01_implicit_packmap_v3_oracle.py:129-189 | the in-place decoder is the specified function, faults included |
| PackMapV2.RoundTrip | benchmarks/v030_c25cc01_packmap_control_oracle.py:43-107 | decoding the encoder's output gives back the whole control, for every compact table, none of which holds a bare marker |
| PackMapV2.RoundTripExact | benchmarks/v030_c25cc01_packmap_control_oracle.py:43-107 | on rows of any origin, exactly a bare marker on a row that is not packed is refused |
| PackMapV2.RestoreExact | benchmarks/v030_c25cc01_packmap_control_oracle.py:79-107 | the decoder succeeds exactly when the listed entries are in bijection with the marked rows, negative indices resolved; each then holds its slice |
| Candidates.CandidateV2Exact | benchmarks/v030_c25cc01_packmap_control_oracle.py:43-76 | the same for v2: consecutive rows are given by the first one exactly in mode 0, all others by their distances in mode 1, and `u` counts the descriptors of either mode |
| Decoders.ExpandV2Exact | benchmarks/v030_c25cc01_packmap_control_oracle.py:79-100 | the same for the descriptors of v2, with slices one after another from 0 |
| Decoders.RestoreV2Means | benchmarks/v030_c25cc01_packmap_control_oracle.py:79-107 | v2 as a whole: entries land on the row of their index, modulo the number of rows when it is negative; all marked rows are hit once, and get the slice of their entry |
| PackMapV2.PlaceExact | benchmarks/v030_c25cc01_packmap_control_oracle.py:97-103 | the unguarded inner loop accepts exactly distinct, marked rows |
| PackMapV2.EncodeGroups | benchmarks/v030_c25cc01_packmap_control_oracle.py:56-76 | the loop computes the specified rows and the count of contiguous packs |
| PackMapV2.PlaceEntries | benchmarks/v030_c25cc01_packmap_control_oracle.py:97-103 | in-place assignment equals the specified one |
| PackMapV2.CompactV2 | benchmarks/v030_c25cc01_packmap_control_oracle.py:43-76 | the in-place encoder is the specified function, counters included |
| PackMapV2.RestoreV2 | benchmarks/v030_c25cc01_packmap_control_oracle.py:79-107 | the in-place decoder is the specified function |
| ControlRows.Gather | benchmarks/v030_c25cc01_implicit_packmap_v4_oracle.py:35-43 | one pass blanks every packed row's column and groups the slices by pack in insertion order |
| ControlRows.PlaceExact | benchmarks/v030_c25cc01_implicit_packmap_v4_oracle.py:151-157 | slot assignment succeeds exactly on fresh, distinct rows in range, and changes only those |
| ControlRows.PlaceUndoesClearing | benchmarks/v030_c25cc01_implicit_packmap_v3_oracle.py:180-186 | writing all slots back in any order restores every row |
| ControlRows.TiledRun | benchmarks/v030_c25cc01_implicit_packmap_v4_oracle.py:62-69 | a gapless pack is determined by its rows and lengths: offsets need not be stored |
| Descriptors.TileCheckExact | benchmarks/v030_c25cc01_implicit_packmap_v3_oracle.py:71-78 | the encoder's member loop accepts exactly gapless packs without negative lengths |
| Descriptors.CheckMembers | benchmarks/v030_c25cc01_implicit_packmap_v3_oracle.py:68-78 | that loop, with its two faults and the columns it collects |
| Descriptors.AssignRun | benchmarks/v030_c25cc01_implicit_packmap_v4_oracle.py:151-157 | overwriting the rows of one descriptor in place |
| Descriptors.RestoreRows | benchmarks/v030_c25cc01_implicit_packmap_v4_oracle.py:113-159 | the decoder's outer loop over descriptors |
| Descriptors.RestoreSound | benchmarks/v030_c25cc01_implicit_packmap_v3_oracle.py:134-189 | every list that decodes slices its packs consecutively and assigns no row twice |
| Descriptors.RestoreExact | benchmarks/v030_c25cc01_implicit_packmap_v3_oracle.py:134-189 | the shared decoder of v3 and v4 succeeds exactly when all descriptors expand and their slots name fresh, distinct rows in range |
| Acceptance.AcceptedV2Exact | benchmarks/v030_c25cc01_packmap_control_oracle.py:56-76 | v2 accepts exactly the layouts where each offset is the sum of the lengths before it in its pack, by offset and then row |
| Acceptance.TiledIsSums | benchmarks/v030_c25cc01_packmap_control_oracle.py:59-65 | the sequential check over sorted packs is that closed form |
| AcceptanceV4.AcceptedV4Exact | benchmarks/v030_c25cc01_implicit_packmap_v4_oracle.py:45-100 | v4 accepts exactly those without negative lengths in which no pack straddles the first row of a later run |
| AcceptanceV3.AcceptedV3Exact | benchmarks/v030_c25cc01_implicit_packmap_v3_oracle.py:66-119 | v3 accepts exactly the chains: packed rows in file order walk the packs in ascending id without a gap |
| AcceptanceV3.AcceptanceChain | benchmarks/v030_c25cc01_implicit_packmap_v4_oracle.py:45-100 | whatever v3 accepts v4 accepts, and whatever v4 accepts v2 accepts |
| AcceptanceV3.AcceptanceStrict | benchmarks/v030_c25cc01_implicit_packmap_v3_oracle.py:66-119 | both inclusions are strict |
| AcceptanceV3.BlobOrderDefeatsV3 | benchmarks/v030_c25cc01_implicit_packmap_v3_oracle.py:86-90 | two packs whose ids disagree with the file order: v4 yes, v3 no |
| AcceptanceV3.InterleavingDefeatsV4 | benchmarks/v030_c25cc01_implicit_packmap_v4_oracle.py:73-76 | packs on rows {0, 2} and {1}: v2 yes, v4 no |
| AcceptanceV3.BlockedNoStraddle | benchmarks/v030_c25cc01_implicit_packmap_v4_oracle.py:73-76 | packs on disjoint stretches of the file table never trip the overlap guard |
| AcceptanceV3.NegativeIdRefused | benchmarks/v030_c25cc01_implicit_packmap_v4_oracle.py:112-123 | one row packed under the id -1: the v4 encoder accepts it, the decoder refuses the result |
| BlobTableV5.RoundTrip | benchmarks/v030_c25cc01_self_describing_blobtable_oracle.py:63-82 | v5 decode after encode gives back the control with its blob table; a negative id is again the only obstacle |
| BlobTableV5.RebuildsV4 | benchmarks/v030_c25cc01_self_describing_blobtable_oracle.py:79-82 | scanning puts back the very candidate that v4 made |
| BlobTableV5.NegativeIdRefused | benchmarks/v030_c25cc01_self_describing_blobtable_oracle.py:63-82 | the same for v5, with an archive of no records |
| BlobTableV5.AcceptedV5Exact | benchmarks/v030_c25cc01_self_describing_blobtable_oracle.py:63-76 | v5 accepts exactly what v4 accepts with a table that some stream of well-formed records has |
| Candidates.CandidateV5Exact | benchmarks/v030_c25cc01_self_describing_blobtable_oracle.py:63-76 | the v5 candidate is the v4 candidate without its blob table |
| BlobTableV5.CompactV5 | benchmarks/v030_c25cc01_self_describing_blobtable_oracle.py:63-76 | the encoder, with its drift faults, is the specified function |
| BlobTableV5.RestoreV5 | benchmarks/v030_c25cc01_self_describing_blobtable_oracle.py:79-82 | the decoder is the specified function |
| RecordScan.ScanExact | benchmarks/v030_c25cc01_self_describing_blobtable_oracle.py:37-60 | the scan accepts exactly the concatenations of well-formed records and derives one row each |
| RecordScan.ScanContiguous | benchmarks/v030_c25cc01_self_describing_blobtable_oracle.py:53-57 | derived offsets start at the start, are cumulative, and end with the data |
| RecordScan.WrittenRecord | src/cmpct/builder.py:273-276 | what the builder writes for a blob is a well-formed record whose header reads back |
| RecordScan.ScanBlobTable | benchmarks/v030_c25cc01_self_describing_blobtable_oracle.py:37-60 | the while loop terminates and computes the specified table or fault |
| RecordScan.DerivedBlobTable | benchmarks/v030_c25cc01_distributed_blob_control_oracle.py:45-68 | the second walker, which appends before it checks, computes the same |
| ByteLayout.UnpackOfPack | src/cmpct/codec.py:30 | every header that fits its fields survives packing and unpacking |
| ByteLayout.UnpackFits | src/cmpct/codec.py:30 | every 64 bytes unpack to a header that fits and packs to the same bytes |
| RecordBytes.FieldAt | src/cmpct/codec.py:30 | byte k of a field is digit k of its value to base 256 |
| RecordBytes.HeaderColumns | src/cmpct/codec.py:30 | where every column of a header lies, and that its bytes are the digits of its value |
| SalvageHeaders.UvarintLengthExact | benchmarks/v030_c25cc01_derived_blob_header_oracle.py:39-46 | the length is n exactly when v < 128^n and n is 1 or v >= 128^(n-1) |
| SalvageHeaders.UvarintBytes | benchmarks/v030_c25cc01_derived_blob_header_oracle.py:39-46 | the shifting loop computes that length; a negative value raises |
| SalvageHeaders.WalkIsScan | benchmarks/v030_c25cc01_derived_blob_header_oracle.py:58-82 | walking a table succeeds exactly when scanning the bytes derives that very table |
| SalvageHeaders.WalkersAgree | benchmarks/v030_c25cc01_derived_blob_header_oracle.py:49-101 | the accounting succeeds exactly when the stream scan derives the offset-sorted table and no record uses the reserved field |
| SalvageHeaders.AccountAnyOrder | benchmarks/v030_c25cc01_derived_blob_header_oracle.py:58 | it accepts the scanned table in any order of rows |
| SalvageHeaders.WalkPrices | benchmarks/v030_c25cc01_derived_blob_header_oracle.py:73-79 | each width is the price of its row, and flagged records are counted exactly |
| SalvageHeaders.WidthExact | benchmarks/v030_c25cc01_derived_blob_header_oracle.py:77 | a record is charged 42 bytes and as many as its three lengths need at seven bits each |
| SalvageHeaders.WalkConserves | benchmarks/v030_c25cc01_derived_blob_header_oracle.py:73-80 | data is headers, metadata and payload; the header total is the sum of the widths |
| SalvageHeaders.ProjectionConserves | benchmarks/v030_c25cc01_derived_blob_header_oracle.py:104-122 | the projection reconciles exactly when the archive is framing, data and control, and projected data is metadata, payload and salvage headers |
| SalvageHeaders.SalvageIsShorter | benchmarks/v030_c25cc01_derived_blob_header_oracle.py:77 | below 2^56 bytes the new header is shorter than the 64 bytes it replaces |
| SalvageHeaders.WalkTable | benchmarks/v030_c25cc01_derived_blob_header_oracle.py:53-82 | the loop with its counters computes the specified ledger or fault |
| SalvageHeaders.SalvageAccounting | benchmarks/v030_c25cc01_derived_blob_header_oracle.py:49-101 | the whole accounting is the specified function, with minimum, maximum and average width |
| SalvageHeaders.SpreadExact | benchmarks/v030_c25cc01_derived_blob_header_oracle.py:85-93 | extremes are widths of records and bound all of them, the average lies between them, and average times count is the header total |
| SelfIndexedRaw.RawScanExact | benchmarks/v030_c25cc02_self_indexed_raw_oracle.py:45-74 | the RAW scan accepts exactly the concatenations of intact RAW records and derives the plain scan's table |
| SelfIndexedRaw.ReframeExact | benchmarks/v030_c25cc02_self_indexed_raw_oracle.py:77-105 | on every accepted stream the projection succeeds exactly when all lengths are below 2^32; payload and all columns but the offset are kept, the k-th offset falls by 24k, a reader of the new stream derives exactly the projected table |
| SelfIndexedRaw.OneRecordExact | src/cmpct/builder.py:273-276 | an archive of one record, as the builder writes it for a payload that it stores as it is, passes the RAW scan, and is re-framed exactly when the payload is shorter than 2^32 bytes |
| SelfIndexedRaw.WideRecordRefused | benchmarks/v030_c25cc02_self_indexed_raw_oracle.py:77-99 | a stream that is scanned and cannot be re-framed |
| SelfIndexedRaw.SelfScanOfStream | benchmarks/v030_c25cc02_self_indexed_raw_oracle.py:77-99 | the promised reader of the shorter headers derives the projected rows |
| SelfIndexedRaw.ProjectOfStream | benchmarks/v030_c25cc02_self_indexed_raw_oracle.py:82-98 | the projected length is that of the re-framed records |
| SelfIndexedRaw.OffsetsShift | benchmarks/v030_c25cc02_self_indexed_raw_oracle.py:102-105 | the two tables agree in blob semantics row by row |
| RecordBytes.RawRecordExact | benchmarks/v030_c25cc02_self_indexed_raw_oracle.py:45-74 | an intact RAW record is, byte for byte, the header made of its length, checksum and digest, followed by the payload; nothing else is one |
| RecordBytes.ReframedExact | benchmarks/v030_c25cc02_self_indexed_raw_oracle.py:77-99 | the record in its place is magic, 32-bit length, digest and payload |
| RecordBytes.SelfScanExact | benchmarks/v030_c25cc02_self_indexed_raw_oracle.py:77-99 | the promised reader accepts exactly concatenations of such records, one row each |
| RecordBytes.ProjectExact | benchmarks/v030_c25cc02_self_indexed_raw_oracle.py:77-99 | on any bytes the projection succeeds exactly on records without metadata and flags, with equal lengths below 2^32 and the digest of the bytes that are there, the last one perhaps cut; it gives the rows of their claimed lengths behind 40-byte headers |
| RecordBytes.SameBlobsExact | benchmarks/v030_c25cc02_self_indexed_raw_oracle.py:102-105 | two tables agree in blob semantics exactly when they are the same without offsets |
| SelfIndexedRaw.ScanCurrentRawRecords | benchmarks/v030_c25cc02_self_indexed_raw_oracle.py:45-74 | the while loop computes the specified scan or fault |
| SelfIndexedRaw.ProjectSelfIndexedData | benchmarks/v030_c25cc02_self_indexed_raw_oracle.py:77-99 | the while loop computes the specified projection, a cut last payload included |
| GreedyCut.CutPartitions | benchmarks/v030_c25cc01_locality_pack_strategy_oracle.py:60-69 | the greedy walk cuts the list, in order, into admissible groups |
| GreedyCut.CutIsLeast | benchmarks/v030_c25cc01_locality_pack_strategy_oracle.py:60-69 | for any law closed under slices no cut into admissible groups has fewer groups |
| GreedyCut.WeakerLawFewerGroups | benchmarks/mosaic_v029_residual_pack_oracle.py:100-111 | a weaker law never needs more groups |
| GreedyCut.CutIsWhole | benchmarks/v030_c25cc01_locality_pack_strategy_oracle.py:60-69 | a list that obeys the law as a whole is one group |
| LocalityPack.FitsIsLaw | benchmarks/v030_c25cc01_locality_pack_strategy_oracle.py:52-56 | the test on a candidate is the law on the extended group |
| LocalityPack.LawClosed | benchmarks/v030_c25cc01_locality_pack_strategy_oracle.py:52-56 | the law is closed under non-empty slices |
| LocalityPack.AdmissibleIsLocal | benchmarks/v030_c25cc01_locality_pack_strategy_oracle.py:121-123 | an admissible group never exceeds eight times its smallest member: the builder's guard is unreachable |
| LocalityPack.GreedyPacks | benchmarks/v030_c25cc01_locality_pack_strategy_oracle.py:60-79 | ascending and descending pack every item once within the bounds, with the fewest groups of all cuts of their order |
| LocalityPack.Segment | benchmarks/v030_c25cc01_locality_pack_strategy_oracle.py:62-69 | the loop is the greedy cut |
| PackStrategies.AscendingEqualsDescending | benchmarks/v030_c25cc01_locality_pack_strategy_oracle.py:60-79 | both orders make the same number of packs on every input |
| PackStrategies.LargerTargetFewerPacks | benchmarks/v030_c25cc01_locality_pack_strategy_oracle.py:52-69 | a larger target never makes more packs |
| PackStrategies.ChooseExact | benchmarks/v030_c25cc01_locality_pack_strategy_oracle.py:84-92 | the chosen bin is the least slack, then the lowest index, of those that fit |
| PackStrategies.BestFitPacks | benchmarks/v030_c25cc01_locality_pack_strategy_oracle.py:80-97 | every item once within the bounds, and no two final bins could have been one |
| PackStrategies.SizeClassPacks | benchmarks/v030_c25cc01_locality_pack_strategy_oracle.py:98-114 | every item once within the bounds, members of a pack within a factor of two |
| PackStrategies.EveryStrategyPacks | benchmarks/v030_c25cc01_locality_pack_strategy_oracle.py:59-125 | all four strategies partition the items into groups that satisfy the builder's guard |
| StrategyMeaning.AscendingMeans | benchmarks/v030_c25cc01_locality_pack_strategy_oracle.py:60-69 | ascending: all contents by size and digest, in packs within the target and eight times their smallest member, none of which could have taken the content that opens the next |
| StrategyMeaning.DescendingMeans | benchmarks/v030_c25cc01_locality_pack_strategy_oracle.py:70-79 | the same in descending order |
| StrategyMeaning.BestFitMeans | benchmarks/v030_c25cc01_locality_pack_strategy_oracle.py:80-97 | best fit: the largest content first, each put into the bin with the least room that takes it, the earliest of equals, or a new one; no two packs could have been one, and they come in order of their openers |
| StrategyMeaning.SizeClassMeans | benchmarks/v030_c25cc01_locality_pack_strategy_oracle.py:98-114 | size classes: all contents by size and digest, in packs of one binary order of magnitude each; a pack ends only where the class does or where it could not take the next content |
| PackStrategies.BestFit | benchmarks/v030_c25cc01_locality_pack_strategy_oracle.py:80-97 | the nested loops over bins compute the specified bins |
| PackStrategies.SizeClasses | benchmarks/v030_c25cc01_locality_pack_strategy_oracle.py:98-114 | the loops over size classes compute the specified groups |
| PackStrategies.Groups | benchmarks/v030_c25cc01_locality_pack_strategy_oracle.py:59-114 | each strategy's loop is its specification |
| PackStrategies.TrackedFits | benchmarks/v030_c25cc01_locality_safe_pack_oracle.py:92-99 | on ascending sizes the first member and a running sum decide as the recomputed test does |
| PackStrategies.LocalitySafeGroups | benchmarks/v030_c25cc01_locality_safe_pack_oracle.py:67-110 | the incremental packer makes exactly the groups of ascending_greedy |
| PackRun.SlotReadsBack | benchmarks/v030_c25cc01_locality_pack_strategy_oracle.py:119-121 | a member's recorded slot of the pack holds its bytes |
| Storages.ResolveAfter | src/cmpct/reader.py:174-221 | a store that keeps the bytes of its contents gives a row of any storage the same bytes exactly as long as it has every digest that the storage names |
| Storages.AddedExact | src/cmpct/builder.py:35-44 | adding a content changes its own entry only: bytes stay, the hint is added, the stream counts one more |
| StorageMeaning.LinkMeans | src/cmpct/reader.py:174-177 | a hard link reads as the row that it names |
| StorageMeaning.ChunksMean | src/cmpct/reader.py:190-201 | a chunked file is its contents one after another, each behind those before it |
| StorageMeaning.SparseMeans | src/cmpct/reader.py:202-210 | a byte of a sparse file is that of the last extent over it, and zero under none |
| StorageMeaning.RecipeMeans | src/cmpct/reader.py:211-218 | a virtual ZIP is the literals of its skeleton and its members in turn, each as it is or deflated |
| PackRun.StoreAfter | benchmarks/v030_c25cc01_locality_pack_strategy_oracle.py:125-129 | after all packs the store holds exactly what was there or was packed and not dropped since, with unchanged bytes |
| PackRun.FilesAfter | benchmarks/v030_c25cc01_locality_pack_strategy_oracle.py:126-127 | a row of a member names its slice of that pack, every other row is unchanged |
| PackRun.NamesAfter | benchmarks/v030_c25cc01_locality_pack_strategy_oracle.py:115-130 | the digests that a row names after the packs are exactly its pack, or those that it named |
| PackRun.RunResolvesIn | benchmarks/v030_c25cc01_locality_pack_strategy_oracle.py:115-130 | read after packing out of any store of contents under their digests, a row of any kind and storage stands for the same bytes exactly when the store has all that it then names, and otherwise for none |
| PackRun.RunResolvesExact | benchmarks/v030_c25cc01_locality_pack_strategy_oracle.py:115-130 | a row of any kind and storage stands for the same bytes exactly when no digest that it then names was dropped, and otherwise for none |
| PackRun.RunPreservesExact | benchmarks/v030_c25cc01_locality_pack_strategy_oracle.py:115-130 | the same for reading any row, hard links through their owner: the old bytes or nothing, never other bytes |
| PackRun.RunMapsExact | benchmarks/v030_c25cc01_locality_pack_strategy_oracle.py:115-130 | right after packing, every digest that a row or recipe names is in the store exactly when no row names a dropped one |
| PackRun.SafeRunPreserves | benchmarks/v030_c25cc01_locality_pack_strategy_oracle.py:115-130 | if members are named only as the whole storage of regular rows and no pack spells a member of another, every row of every storage keeps its bytes |
| MicroPackBuilder.EligibleSound | benchmarks/v030_c25cc01_locality_pack_strategy_oracle.py:34-49 | eligible contents are exactly the named, small, variant-free text contents, each once |
| MicroPackBuilder.EligibleExact | benchmarks/v030_c25cc01_locality_pack_strategy_oracle.py:34-49 | a content is eligible exactly when it is small, has a text hint and no Deflate stream, and is the storage of a regular row |
| BuildMeaning.PackableExact | benchmarks/v030_c25cc01_locality_pack_strategy_oracle.py:34-49 | eligible are exactly the stored contents within the size bound with no Deflate stream, a text extension and a regular file that holds them |
| BuildMeaning.PacksByExtension | benchmarks/v030_c25cc01_locality_pack_strategy_oracle.py:34-119 | the packs of a build are those of every extension in order of the extensions, each over the eligible contents whose first text extension it is; the stable packer takes them by the first row that holds them |
| BuildMeaning.LocalityMeans | benchmarks/v030_c25cc01_locality_pack_strategy_oracle.py:123-125 | the guard: at most eight times as many bytes as any member, an empty one counting as one |
| BuildMeaning.PacksAreMarked | benchmarks/v030_c25cc01_locality_pack_strategy_oracle.py:126 | whatever pack is in the store after a build has the hint of packs |
| MicroPackBuilder.PacksAreSound | benchmarks/v030_c25cc01_stable_order_packmap_oracle.py:49-89 | every build's packs hold each eligible content once and satisfy the guard |
| MicroPackBuilder.BuildPreservesExact | benchmarks/v030_c25cc01_stable_order_packmap_oracle.py:49-89 | the exact condition of a whole build, under any policy, for a row of any kind and storage to read as before; else it reads as nothing |
| MicroPackBuilder.BuildMapsExact | benchmarks/v030_c25cc01_stable_order_packmap_oracle.py:49-89 | right after a build's packing, under any policy, the store has every named digest exactly when no row names a dropped one |
| Finishing.FinishedExact | src/cmpct/builder.py:188-227 | retaining streams and training a dictionary keeps every content and adds only those, under their digests |
| FinishingMeaning.FinishedMeans | src/cmpct/builder.py:188-227 | the finished store is the one before, every stream of a content that is not its chosen one and is long enough, and, when there are 16 text samples of 96 KiB in all and the trainer makes one, the dictionary; nothing else |
| FinishingMeaning.PreparedEntries | src/cmpct/builder.py:188-209 | a retained stream is an opaque content under its digest; all other entries keep bytes, streams and hints |
| FinishingMeaning.DictionaryEntry | src/cmpct/builder.py:211-226 | the dictionary has its own hint; all other entries keep bytes, streams and hints |
| Finishing.FinishedPreservesExact | src/cmpct/builder.py:258-304 | the whole way: a row of any kind and storage reads as before exactly when all that it names is in the finished store, and else as nothing |
| Finishing.ServedExact | src/cmpct/builder.py:258-304 | something is missing exactly when packing dropped it and neither a stream nor the dictionary put it back |
| Finishing.FinishedMapsExact | src/cmpct/builder.py:279-304 | the archive can be written exactly when every dropped content that a row or recipe names is put back |
| LostContents.SecondNameLosesContent | src/cmpct/builder.py:150-158 | two text contents that fit in one pack, whatever their further hints, and any other row that names one of them: the content is gone from the finished store, the row reads as nothing and the archive cannot be written |
| LostContents.SymlinkLosesContent | src/cmpct/builder.py:87-89 | a symbolic link to the text of a small file, with the hint that the scan records for it |
| LostContents.StoredMemberLosesContent | src/cmpct/codec.py:161-206 | a nested ZIP of any skeleton with a stored member that is also a small text file |
| LostContents.SpelledMemberLosesPack | benchmarks/v030_c25cc01_locality_pack_strategy_oracle.py:124-130 | a pack with the bytes of a member of the next pack is dropped and not put back: both its rows read as nothing and the archive cannot be written |
| MicroPackBuilder.StableFewest | benchmarks/v030_c25cc01_stable_order_packmap_oracle.py:56-71 | the stable packer has the fewest groups of all cuts of the file-table order |
| MicroPackBuilder.LayOut | benchmarks/v030_c25cc01_stable_order_packmap_oracle.py:74-80 | the pack's bytes, the slot dictionary and the least member |
| MicroPackBuilder.Builder.AddContent | src/cmpct/builder.py:35-44 | a known content keeps its bytes, a new one is stored under its digest; hints and counted Deflate streams accumulate |
| MicroPackBuilder.Builder.Eligible | benchmarks/v030_c25cc01_locality_pack_strategy_oracle.py:34-49 | the two dictionaries, in insertion order |
| MicroPackBuilder.Builder.Repoint | benchmarks/v030_c25cc01_stable_order_packmap_oracle.py:84-86 | exactly the regular rows that name the content are overwritten |
| MicroPackBuilder.Builder.PackGroup | benchmarks/v030_c25cc01_stable_order_packmap_oracle.py:73-89 | one pack: the new rows and store, or the guard's fault and no change |
| MicroPackBuilder.Builder.BuildMicroPacks | benchmarks/v030_c25cc01_stable_order_packmap_oracle.py:49-89 | the whole build computes the specified state for every policy and never raises |
| ListedPacks.ListedPacksAccepted | benchmarks/v030_c25cc01_implicit_packmap_v4_oracle.py:45-100 | packs that follow one another in the file table are accepted by v4 under any ids |
| PackLayout.PackSlotsExact | benchmarks/v030_c25cc01_stable_order_packmap_oracle.py:74-86 | the slots of a pack, member by member, are those that the slot dictionary gives to the rows that name a member |
| PackLayout.OrderlyTiles | benchmarks/v030_c25cc01_packmap_control_oracle.py:59-65 | an orderly pack, whatever rows name its empty member, lies from offset 0 without a gap |
| PackLayout.OrderlyOrdered | benchmarks/v030_c25cc01_packmap_control_oracle.py:57-58 | and its slots, member by member, are in physical order |
| PackLayout.Disorder | benchmarks/v030_c25cc01_packmap_control_oracle.py:59-65 | in any other pack two rows start at one offset, the first of them not empty |
| PackThenCodec.SameSlots | benchmarks/v030_c25cc01_stable_order_packmap_oracle.py:84-86 | the packed rows of the finished table are exactly those that were packed before and the slots of the packs |
| StableThenCodec.PacksInFileOrder | benchmarks/v030_c25cc01_implicit_packmap_v4_oracle.py:45-100 | packs in file-table order are accepted by v4 exactly when what was packed before adds up and does not straddle; if there is nothing of the kind, always |
| PolicyThenCodec.SumsExact | benchmarks/v030_c25cc01_packmap_control_oracle.py:59-65 | with ids of their own, the packs' offsets add up exactly when each pack is orderly and what was packed before adds up |
| PolicyThenCodec.BuiltAcceptedExact | benchmarks/v030_c25cc01_stable_order_packmap_oracle.py:49-89 | any policy, any number of buckets, packs with ids of their own: v2 accepts the table exactly when every non-empty packed content is named by one row, every row of the empty one precedes the row of the next member, and what was packed before adds up; v4 exactly when besides no pack's rows reach over the first row of a later run |
| PolicyThenCodec.BuiltAcceptedByBytes | benchmarks/v030_c25cc01_stable_order_packmap_oracle.py:49-89 | with ids that follow from the bytes, and no pack equal to an earlier one, the same without the condition on ids: packs must differ in their bytes |
| PolicyThenCodec.StaleBytesRefused | benchmarks/v030_c25cc01_stable_order_packmap_oracle.py:81-86 | a pack with the bytes of one that the scan made before, whose rows add up and are not all empty, is refused |
| PolicyThenCodec.TwinRefused | benchmarks/v030_c25cc01_packmap_control_oracle.py:56-65 | one non-empty content named by two rows leaves no contiguous layout, whatever the packs and ids |
| RefusedTables.CopiesRefused | benchmarks/v030_c25cc01_packmap_control_oracle.py:56-65 | two regular files of one eligible content: v2, v3 and v4 refuse the table of every build |
| StableThenCodec.StablePackThenCodec | benchmarks/v030_c25cc01_stable_order_packmap_oracle.py:49-89 | with one extension bucket and nothing packed before, the stable packer's table encodes in v4 if each content is named by one row and packs have ids of their own, and if no content is empty only then; decoding returns every row's blob, offset and length |
| RefusedTables.TwoBucketsRefused | benchmarks/v030_c25cc01_stable_order_packmap_oracle.py:53-89 | three small text files with two extensions: however the builder numbers the packs of the stable order, v2 accepts the table and v4 does not |
| RefusedTables.ArchivesStraddle | benchmarks/v030_c25cc01_implicit_packmap_v4_oracle.py:73-76 | any build in which a pack's rows are a run between two rows of one pack made before: v4 refuses it |
| RefusedTables.EightArchivesRefused | src/cmpct/builder.py:127-138 | eight nested archives around one text file, under any greedy policy: v2 accepts the table and v4 does not |
| RefusedTables.TwinPacksRefused | benchmarks/v030_c25cc01_locality_pack_strategy_oracle.py:115-127 | contents p and qr of one extension and pq and r of another: both packs are pqr, and no codec accepts the table |
| RefusedTables.EmptyFileRefused | benchmarks/v030_c25cc01_locality_pack_strategy_oracle.py:60-69 | an empty file behind a short one of its extension: the ascending packer's table is refused by all codecs |
| PolicyThenCodec.SharedIdRefused | benchmarks/v030_c25cc01_implicit_packmap_v4_oracle.py:62-69 | two packs under one id, each with some bytes, leave no contiguous layout, whatever the packing order |
| PolicyThenCodec.EarlierIdRefused | benchmarks/v030_c25cc01_implicit_packmap_v4_oracle.py:62-69 | the same for a pack under the id of rows that were packed before and open with some bytes |
| Knapsack.TableSound | benchmarks/v030_analytics_margin_cpu_oracle.py:30-46 | every table entry is an actual choice of that weight and value within the budget |
| Knapsack.TableComplete | benchmarks/v030_analytics_margin_cpu_oracle.py:30-46 | every choice within the budget is matched by an entry of its weight and no less value |
| Knapsack.ChoiceIsOptimal | benchmarks/v030_analytics_margin_cpu_oracle.py:48-55 | no choice within the budget removes more, and none that removes as much gives back fewer bytes |
| Knapsack.SelectedExact | benchmarks/v030_analytics_margin_cpu_oracle.py:49 | the selected rows are those whose bits the mask has, in their order |
| Knapsack.TotalsAreSums | benchmarks/v030_analytics_margin_cpu_oracle.py:32-33 | weights and values count the positive columns |
| Knapsack.Offer | benchmarks/v030_analytics_margin_cpu_oracle.py:33-46 | one row offered to every entry, in any order of the dictionary, gives the next table |
| Knapsack.Choose | benchmarks/v030_analytics_margin_cpu_oracle.py:48-50 | the best value, then the fewest bytes |
| Knapsack.SolveExactKnapsack | benchmarks/v030_analytics_margin_cpu_oracle.py:23-55 | the selected rows weigh and remove exactly what is reported, and are optimal; a negative budget selects nothing |
| Effort.ClimbExact | benchmarks/v030_adaptive_effort_residual_referee.py:74-93 | the policy takes the least payload of the longest run of levels that never makes it worse, and reports attempts and stop accordingly |
| Effort.RecoverExact | benchmarks/v030_adaptive_effort_recovery_probe_referee.py:69-105 | the probe policy takes the same payload unless level 9 detects a better one behind a stop below 9, and then a strictly smaller one |
| Effort.RecoverAfterWin | benchmarks/v030_adaptive_effort_recovery_probe_referee.py:89-104 | after a win the policy goes on from level 9's payload behind the stop, without a second probe; attempts and stops follow |
| EffortMeaning.ClimbMeans | benchmarks/v030_adaptive_effort_residual_referee.py:74-93 | the policy walks on while sizes do not rise, and keeps the first payload of the smallest size that it saw, the stored one before any other; level, attempts and stop are those of that walk |
| Effort.ProbeNeverRegresses | benchmarks/v030_adaptive_effort_recovery_probe_referee.py:69-105 | in total, probe bytes <= historical bytes <= stored bytes, strictly less exactly when some cold pack recovers |
| Effort.GateNeverFails | benchmarks/v030_adaptive_effort_recovery_probe_referee.py:306 | the held-out no-regression gate holds on all workloads |
| EffortMeaning.GateExact | benchmarks/v030_adaptive_effort_recovery_probe_referee.py:306 | the gate compares payload bytes with a header each |
| Effort.LeastBehindStop | benchmarks/v030_adaptive_effort_residual_referee.py:198-211 | whatever beats the selection lies behind the stop |
| Effort.AuditPackExact | benchmarks/v030_adaptive_effort_residual_referee.py:198-217 | the bytes reported for a cold pack are its distance from the best of stored and policy levels |
| EffortMeaning.AuditMeans | benchmarks/v030_adaptive_effort_residual_referee.py:195-217 | a pack is reported exactly when the least size behind its stop, or where nothing is behind it the size before, is below the selected size; the report has the level, both sizes and the difference |
| EffortMeaning.AuditIsListed | benchmarks/v030_adaptive_effort_residual_referee.py:180-217 | the report lists the cold packs in their order |
| Effort.MissedBytesConserved | benchmarks/v030_adaptive_effort_residual_referee.py:180-217 | summed, missed bytes are the selected size minus the minimum over the cold packs; zero exactly when every cold pack is optimal |
| EffortRuns.LevelsConserved | benchmarks/v030_adaptive_effort_residual_referee.py:90-95 | every pack is counted at exactly one selected level |
| EffortRuns.WinsAreRecoveries | benchmarks/v030_adaptive_effort_recovery_probe_referee.py:89-105 | the wins are the number of recovered packs; probes in vain are at most the stops; without wins every probe is one extra attempt |
| EffortMeaning.PolicyStatsExact | benchmarks/v030_adaptive_effort_residual_referee.py:65-96 | attempts are the sum over all packs, early stops and selected levels the numbers of packs that stopped and that were left at the level, hot packs left as they are |
| EffortMeaning.ProbeStatsExact | benchmarks/v030_adaptive_effort_recovery_probe_referee.py:69-105 | the four counters of the probe run are the sums over its packs |
| EffortMeaning.SelectionExact | benchmarks/v030_adaptive_effort_residual_referee.py:65-96 | either run selects the payload of its walk for every pack, in order |
| EffortMeaning.PhysicalExact | benchmarks/v030_adaptive_effort_residual_referee.py:119-120 | physical bytes are all payloads and a header for each |
| EffortRuns.RunPolicyOnce | benchmarks/v030_adaptive_effort_residual_referee.py:65-96 | selection and all counters of the loop |
| EffortRuns.ProbeOnce | benchmarks/v030_adaptive_effort_recovery_probe_referee.py:69-105 | selection and all counters of the loop |
| EffortRuns.AuditStops | benchmarks/v030_adaptive_effort_residual_referee.py:180-217 | the audit loop's report, and its total on the policy's own selection |
| EffortEconomics.HistoryIsPolicy | benchmarks/v030_adaptive_effort_economics_referee.py:59-85 | the replay over a curve takes the policy's size and level and stops where it stops |
| EffortEconomics.OracleExact | benchmarks/v030_adaptive_effort_economics_referee.py:88-109 | missed bytes are exact, need no clamp, and are positive exactly on a later recovery or a better level 9 |
| EffortEconomics.OracleLevels | benchmarks/v030_adaptive_effort_economics_referee.py:93-105 | the named levels have the named sizes and are the lowest of their size, over all levels and over those behind the stop |
| EffortMeaning.HistoryMeans | benchmarks/v030_adaptive_effort_economics_referee.py:59-85 | the replay walks levels 3, 6, 12 and 19 until a size rises, takes the first of the smallest size, level 1 before any other, and charges the times of all levels walked |
| EffortMeaning.HeadroomExact | benchmarks/v030_adaptive_effort_economics_referee.py:101-109 | what is left behind level 9 is its size less the smaller of those at 12 and 19, or nothing; it is zero unless level 9 detects |
| EffortEconomics.DetectionIsProbeWin | benchmarks/v030_adaptive_effort_economics_referee.py:108 | level 9 detects a recovery exactly where the probe policy wins |
| EffortEconomics.Historical | benchmarks/v030_adaptive_effort_economics_referee.py:59-85 | the loop with its cumulative times is the specified replay |
| ResidualPlan.LawIsBounded | benchmarks/mosaic_v029_residual_pack_oracle.py:95-103 | the test on amplification fractions is an integer bound on every member |
| ResidualPlan.OneWalk | benchmarks/mosaic_v029_residual_pack_oracle.py:91-113 | the walks per base are one greedy walk over all programs |
| ResidualPlan.PlanExact | benchmarks/mosaic_v029_residual_pack_oracle.py:85-113 | every program once, single-base groups within limit and amplification, and the fewest such groups |
| ResidualPlan.PlanOrder | benchmarks/mosaic_v029_residual_pack_oracle.py:91-94 | groups list the programs by base and target |
| ResidualPlan.LargerLimitFewerGroups | benchmarks/mosaic_v029_residual_pack_oracle.py:85-113 | a larger limit never needs more groups |
| ResidualMeaning.PlanMeans | benchmarks/mosaic_v029_residual_pack_oracle.py:85-113 | every program once, by base and target, in groups of one base that fit; none could have taken the program that opens the next group |
| ResidualMeaning.GroupExact | benchmarks/mosaic_v029_residual_pack_oracle.py:63-82 | every column of a group: base, targets in order, members, bytes of the joined deltas, separate, packed and charged bytes, net saving, and the largest fraction |
| ResidualMeaning.KeptMeans | benchmarks/mosaic_v029_residual_pack_oracle.py:115-121 | a group is kept exactly with two members, at most 262144 bytes, at most twice each target, and a net saving of at least 128 |
| ResidualMeaning.KeptInOrder | benchmarks/mosaic_v029_residual_pack_oracle.py:115-121 | the kept groups stay in order |
| ResidualPlan.AmplificationFilterRedundant | benchmarks/mosaic_v029_residual_pack_oracle.py:115-121 | at every limit the amplification filter decides nothing |
| ResidualPlan.SizeFilterExact | benchmarks/mosaic_v029_residual_pack_oracle.py:115-121 | the size filter decides nothing for all programs exactly when the limit is at most 256 KiB |
| ResidualPlan.SizeFilterDecides | benchmarks/mosaic_v029_residual_pack_oracle.py:115-121 | above, two programs, as any input of the plan may have them, make a group that only the size filter rejects |
| ResidualPricing.PricedFilterExact | benchmarks/mosaic_v029_residual_pack_oracle.py:42-60 | for programs that cost a header and their compressed delta: redundant exactly when no list of deltas above 256 KiB and within the limit gains enough, whatever the compressor |
| ResidualPlan.SavingConserved | benchmarks/mosaic_v029_residual_pack_oracle.py:63-126 | net saving is separate bytes minus final bytes, and at least the minimum per kept group |
| ResidualPlan.WalkBase | benchmarks/mosaic_v029_residual_pack_oracle.py:92-113 | the inner loop with its running size is the greedy cut |
| ResidualPlan.PlanTotals | benchmarks/mosaic_v029_residual_pack_oracle.py:122-129 | the groups have every program once, kept groups at least two each, and the reported amplification is that of the worst kept group and at most 2 |
| ResidualPlan.MakePlan | benchmarks/mosaic_v029_residual_pack_oracle.py:85-129 | groups, kept groups and all totals of the whole plan |
| BytePlane4.UnshuffleUndoesShuffle | benchmarks/v030_analytics_byteplane4_strong_transfer_referee.py:38-52 | unshuffling a shuffled string of any length gives it back |
| BytePlane4.ShuffleUndoesUnshuffle | benchmarks/v030_analytics_byteplane4_strong_transfer_referee.py:38-52 | and the other way round |
| BytePlane4.Unshuffle | benchmarks/v030_analytics_byteplane4_strong_transfer_referee.py:44-52 | strided writes into a buffer compute the inverse permutation |
| BytePlane4.ShuffleExact | benchmarks/v030_analytics_byteplane4_strong_transfer_referee.py:38-41 | the shuffled string is every fourth byte from the first, the second, the third and the fourth, then the tail |
| BytePlane4.TransferExact | benchmarks/v030_analytics_byteplane4_strong_transfer_referee.py:74-115 | the wrapped codec round-trips, still reads the base codec, is never longer, and is shorter exactly when tagged |
| BytePlane4.TaggedExact | benchmarks/v030_analytics_byteplane4_strong_transfer_referee.py:74-106 | a payload is tagged exactly at level 19 and above, for at least four bytes, when the shuffled content behind a 5-byte tag is shorter at level 1 and shorter than the direct payload at level 19; it is then that, and otherwise the direct payload |
| BytePlane4.DecodedExact | benchmarks/v030_analytics_byteplane4_strong_transfer_referee.py:108-115 | a tagged payload decodes to a string exactly when it has the announced length and its shuffled form is what the base codec finds behind the tag; any other payload is left to the base codec |
| BytePlane4.TaggedBaseIsMisread | benchmarks/v030_analytics_byteplane4_strong_transfer_referee.py:108-115 | the assumption on the tag is needed |
| BytePlane4.NetSavingConserved | benchmarks/v030_analytics_byteplane4_strong_transfer_referee.py:58-132 | over any run the reported net saving is direct minus emitted bytes, and the counters form a funnel |
| BytePlane4.StatsExact | benchmarks/v030_analytics_byteplane4_strong_transfer_referee.py:58-106 | every counter is the sum over the calls that reached it |
| BytePlane4.TransferCodec.Zc | benchmarks/v030_analytics_byteplane4_strong_transfer_referee.py:74-106 | payload and statistics of one call |
| BytePlane4.TransferCodec.Zd | benchmarks/v030_analytics_byteplane4_strong_transfer_referee.py:108-115 | the decoder is the specified function |

## Left out

- PackMapV4.CompactV4: the two constant strings of the statistics; the guard against an empty group, which no dictionary of appended lists can trip, is checked in the descriptor loop instead of the ordering loop.
- PackMapV4.RestoreV4: `int()` of other Python types and nested lists are one fault, a cell being an integer or a list of integers; a shape fault does not say which conversion failed first.
- BlobTableV5.CompactV5: the byte count of the elided table and the other statistics that v5 adds to v4's.
- RecordScan.ScanBlobTable: guards against negative fields and a position that does not advance, which unsigned header fields rule out, have no counterpart.
- SalvageHeaders.SalvageAccounting: the constant fields of the result; the average is an exact quotient.
- Knapsack.SolveExactKnapsack: CPU seconds are reals, so rounding and NaN are not modelled; the bit mask is a set of positions.
- Storages.Read: the reader's checks of sizes, CRC-32 and SHA-256 and of the fields of a recipe; reading a retained secondary Deflate stream or a stored canonical one, which the archive holds beside the contents, counts as regenerating it.
- Finishing.Finished: the loops that retain streams and pick samples are map and set expressions; ties between streams are decided by the dictionary's order, here by any choice; the trainer is a parameter.
- MicroPackBuilder.Builder.Eligible: hints are numbers, those of the text extensions from 0 in the order of their strings.
- MicroPackBuilder.Builder.BuildMicroPacks: rows are shared objects in the source; the model re-points them by index, which is the same because no row object occurs twice. The strategy is a parameter, so the fault for an unknown name and the module patching are gone.
- StableThenCodec.StablePackThenCodec: file tables with rows that the scan packed before, for which `PolicyThenCodec.BuiltAcceptedExact` is the statement.
- PolicyThenCodec.BuiltAcceptedByBytes: builds in which a pack has the bytes of one made before; `PolicyThenCodec.StaleBytesRefused` covers those whose earlier rows add up.
- IndexCodec.Compact: a hard link whose storage is no list with a path in front, and a path where another row's storage has its tag, are shape faults; the source goes on where such a value happens to be a number or the name of a file.
- PackStrategies.BestFit: the list of choices is kept as its running minimum.
- ResidualPlan.MakePlan: the choice among the seven limits; amplification is a real quotient.
- BytePlane4.TransferCodec.Zc: CPU and wall time counters.
- EffortRuns.RunPolicyOnce: the repetition that checks determinism; encoders are functions.
- EffortEconomics.OracleExact: the aggregation over workloads, ratios and observables.
- The file-row splitting of the distributed table and the duplicate copies of the byte shuffle repeat arguments made here.
- MessagePack and Zstandard encoding of the control, corpus generation, archive verification, timing, verdict strings and receipts.
