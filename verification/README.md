# Verified models of Hysight's algorithmic cores

Dafny models of the parts of Hysight that carry a guarantee of their own: vector compression and search, the lexical
index, the embedding cache, the commit footer, the Python memory store, text normalisation, the lock-file protocol
and event streaming. Each operation is a method proved against a specification function, a class where the source
updates fields, or a state machine where several processes interleave; the lemmas then prove what the source
promises about those specifications, for all inputs and all runs. `dafny verify dfyconfig.toml` checks everything.

| module | models |
|---|---|
| `Vectors`, `KMeans`, `LloydDescent` | squared distance in eight lanes; farthest-first seeding and its 4-approximation; Lloyd iterations and their descent |
| `Quantizer`, `VectorSearch`, `PqCodec`, `PqLayout` | codebooks, training, encoding, asymmetric distance; exact and compressed search; the serialised index, its older layout, and its bytes |
| `Utf8`, `LexChunks`, `LexMatches`, `LexIndex`, `Windows`, `Snippets`, `SnippetsOfMatches` | chunking, occurrence search, ranking and snippet windows of the lexical index |
| `EmbeddingCache` | the LRU cache and its use by the embedder |
| `Footer`, `LittleEndian` | the commit footer and the backward scan |
| `MemoryStore`, `Retrieval` | the JSONL-backed list, its durability, and ranked retrieval |
| `LockProtocol`, `Streaming` | the lock file with its registry record, and the event stream, as interleaved steps |
| `TextNormalize`, `PdfSpacing` | normalisation, truncation, and joining words that PDF extraction broke up |
| `Sorting`, `Basics` | the stable library sort with the laws that determine it; shared datatypes |

## How the code is represented

- f32 values are real numbers: no rounding, NaN or infinite input. "No distance yet" and the distance for a wrong
  length are a separate value `Infinite`. Scores of the lexical index and of retrieval are real numbers too.
- The square root is a parameter `root` of which only `IsRoot` is assumed. BLAKE3, NFKC, grapheme segmentation,
  `char::is_alphabetic`, the embedding model, the 64-bit text hash, the split of a text into lower-cased terms, and
  the JSON codec are parameters as well; what is assumed of each is written out where it is used (`IsSegmentation`,
  `IsCodec`; nothing for the others).
- A Rust `&str` of the lexical index is a byte sequence made of characters of 1 to 4 bytes (`IsText`); overlong forms
  are not excluded, so the results hold for more than valid UTF-8. Snippets and text modules work on positions or
  `char`s where the source does.
- `usize` is unbounded and holds every u64 (a 64-bit platform); u32 and u64 fields are bounded.
- Clocks are parameters, and timestamps are integers.
- In the lock protocol the file id is fixed, and every file-system call is one step except `write_record`, which
  truncates in one step and completes in another; processes may crash between any two steps. Other processes find
  the record absent, torn or written.
- In the stream, `read_events` is assumed to return what was appended behind the cursor, with the new cursor, in one
  step. The poller can be overtaken by the run between any two of its steps. A time-out of the final wait counts as
  a disconnect.
- The store is modelled for sequential callers.

## What the proofs found

- `finish` does not enforce the 512 MiB limit that `decode` has: an index the builder made can be read back if and
  only if it has at most 4,789,972 documents (`PqCodec.DecodeAfterFinish`, `PqLayout.BuiltDecodesIff`, `FirstTooLarge`).
- A torn or newline-less tail is tolerated by loading but not repaired, so the first append after it makes the whole
  file unloadable (`MemoryStore.AppendIsDurableIff`); after a crash during an append, one more append leaves a
  loadable file if and only if the crash came before the first or after the last byte of the line
  (`AppendAfterCrash`).
- The lock is safe in every run if and only if `force_stale` is off (`LockProtocol.ForceStaleDecides`, `TwoGuards`). A
  record that has not been written yet counts as stale, so the check before a takeover does not help
  (`StaleCheckIsNotEnough`). A removal can do harm if and only if some process owns the file at that moment, even one
  that is about to leave (`TakeoverBreaksIff`).
- An exception without a message is streamed as success if and only if the run has an id
  (`Streaming.EmptyErrorCountsAsSuccess`). A run that failed loses the events that had not been read when the poller
  saw that it was over (`FailureDeliversIff`, `EventOfFailedRunIsLost`).
- A cache exceeds its capacity if and only if that is 0 and something was used: it keeps one entry
  (`EmbeddingCache.KeptIsBounded`).
- The soft limit of 900 bytes in `chunk_sections` has no influence: a soft break below 1400 bytes never ends a section
  at once, whichever side of 900 it is on. The comment on `kmeans_plus_plus_init` speaks of k-means++, and two others
  of random choices; the code is the deterministic farthest-first traversal, and the model follows the code.
- `truncated` says that the text exceeds the limit, and not that something was cut: a text of one grapheme beyond the
  limit is returned whole and marked (`TextNormalize.NormalizeText`).
- With `max_snippets` 0 there is still one snippet. For token occurrences it is empty if and only if `window` is 0 and
  nothing occurred (`Snippets.TokenSlicesGeometry`).

## Model

| member | source | states |
|---|---|---|
| Vectors.SimdSqDist | memvid/src/simd.rs:15-63 | for every length, eight lanes, a horizontal sum and a scalar remainder give exactly the plain sum of squared differences; of a longer second vector, the coordinates that the first one has count |
| Vectors.DistZeroIffEqual | memvid/src/simd.rs:15-63 | the squared distance is zero if and only if the vectors are equal |
| Vectors.RelaxedTriangle | memvid/src/vec_pq.rs:529-532 | d(a,b)² is at most twice d(a,c)² plus twice d(b,c)² |
| Vectors.CauchySchwarz | memvid/src/simd.rs:67-72 | the square of the inner product of two difference vectors is at most the product of their squared lengths |
| Vectors.TriangleInequality | memvid/src/simd.rs:67-72 | the rooted distance obeys the triangle inequality |
| KMeans.FirstMin | memvid/src/vec_pq.rs:63-76 | the position a running strict minimum ends at: no element is smaller, and every earlier one is larger |
| KMeans.LastMax | memvid/src/vec_pq.rs:513-517 | the position `max_by` selects: no element is larger, and every later one is smaller |
| KMeans.Nearest | memvid/src/vec_pq.rs:434-442 | the first of the nearest centroids |
| KMeans.MinDist | memvid/src/vec_pq.rs:503-508 | a lower bound on the distance to every centroid that is attained |
| KMeans.FindNearest | memvid/src/vec_pq.rs:434-442 | the assignment loop finds the first nearest centroid |
| KMeans.MinDistance | memvid/src/vec_pq.rs:503-508 | the running minimum is the distance to the nearest centroid |
| KMeans.ComputeGaps | memvid/src/vec_pq.rs:500-510 | for every vector, its distance to the nearest centroid chosen so far |
| KMeans.Farthest | memvid/src/vec_pq.rs:512-519 | the next seed is at least as far from all seeds as every other vector |
| KMeans.KMeansPlusPlusInit | memvid/src/vec_pq.rs:486-523 | errors exactly for no vectors or k = 0; otherwise the farthest-first traversal, k seeds beginning with the first vector |
| KMeans.SeedsMeaning | memvid/src/vec_pq.rs:494-520 | the seeds one by one: the first vector, then each time the last of the vectors that are farthest from the seeds so far |
| KMeans.PicksAreSeparated | memvid/src/vec_pq.rs:499-520 | as long as some vector is farther than r from all seeds, the seeds are pairwise more than r apart |
| KMeans.Pigeonhole | memvid/src/vec_pq.rs:486-523 | among more points than labels two share a label (the counting step of the covering guarantee) |
| KMeans.SeparatedNeedMoreCentres | memvid/src/vec_pq.rs:486-523 | centres that cover within r cannot cover more than their number of points that are pairwise more than 4r apart |
| KMeans.FarthestFirstCovers | memvid/src/vec_pq.rs:486-523 | the covering guarantee: whenever any k centres of the space have every vector within squared distance r, the k seeds have every vector within 4r |
| KMeans.Assign | memvid/src/vec_pq.rs:431-445 | each cluster receives exactly the vectors whose first nearest centroid it is, in order |
| KMeans.ComputeMean | memvid/src/vec_pq.rs:457-465 | accumulating and dividing in place gives the coordinatewise mean |
| KMeans.Update | memvid/src/vec_pq.rs:447-473 | every non-empty cluster moves to its mean, every empty one to a data vector; `changed` holds exactly when some cluster was empty or some centroid moved by more than 1e-6 |
| KMeans.Iterate | memvid/src/vec_pq.rs:427-478 | the loop stops after the first iteration in which nothing changed, or at the limit |
| KMeans.Cluster | memvid/src/vec_pq.rs:418-483 | the whole of `kmeans`, with both error conditions and their order; always k centroids of the right dimension |
| LloydDescent.MeanIsBest | memvid/src/vec_pq.rs:457-465 | no centre whatsoever serves a cluster at a smaller total squared distance than its mean |
| LloydDescent.AssignedCostByCluster | memvid/src/vec_pq.rs:431-473 | the cost summed vector by vector is the cost summed cluster by cluster |
| LloydDescent.LloydStepDescends | memvid/src/vec_pq.rs:427-473 | one iteration, reseeded empty clusters included, never increases the total squared distance to the nearest centroid |
| LloydDescent.LloydDescends | memvid/src/vec_pq.rs:418-483 | the result is never worse than the initialisation, whatever the iteration limit and wherever the loop stops |
| LloydDescent.MoreIterationsNoWorse | memvid/src/vec_pq.rs:418-483 | a larger iteration limit never gives a worse clustering than a smaller one |
| LloydDescent.MembersAre | memvid/src/vec_pq.rs:431-445 | a cluster holds exactly the vectors whose first nearest centroid is its own, with every copy |
| LloydDescent.LloydStepMeaning | memvid/src/vec_pq.rs:447-473 | one iteration in full: a centroid nearest to no vector becomes the data vector of its number, and any other the point at the least total squared distance from its vectors |
| LloydDescent.LloydIsSteps | memvid/src/vec_pq.rs:427-478 | the loop makes m iterations: all that are allowed, or those up to the first that finds no empty cluster and moves no centroid by more than 1e-6 |
| LloydDescent.LloydIsClustered | memvid/src/vec_pq.rs:418-483 | the result is what m iterations make of the seeds, and no number of iterations within the limit makes anything better |
| Quantizer.SubspaceCodebook.SetCentroid | memvid/src/vec_pq.rs:50-54 | writes the four numbers at their place in the flat array and leaves all others as they were |
| Quantizer.SubspaceCodebook.Quantize | memvid/src/vec_pq.rs:57-79 | the code of the first nearest of the 256 centroids |
| Quantizer.ProductQuantizer.New | memvid/src/vec_pq.rs:94-106 | succeeds exactly for dimension 384, with 96 distinct new codebooks |
| Quantizer.ProductQuantizer.Train | memvid/src/vec_pq.rs:109-148 | errors for an empty set or a wrong dimension and then leaves every codebook alone; otherwise, in every subspace, the stored centroids are those after the iterations made from the farthest-first seeds, at most max_iterations, and none of fewer iterations has a lower cost |
| Quantizer.ProductQuantizer.TrainAll | memvid/src/vec_pq.rs:130-145 | the same for all 96 subspaces: training one does not disturb those already trained |
| Quantizer.ProductQuantizer.Encode | memvid/src/vec_pq.rs:151-175 | errors exactly for a wrong dimension; otherwise each code names the first of the 256 rows of its table that are nearest to its four coordinates |
| Quantizer.ProductQuantizer.Decode | memvid/src/vec_pq.rs:178-197 | errors exactly for a wrong number of codes; otherwise coordinate d is the number at its place in the row that code d/4 names |
| Quantizer.ProductQuantizer.AsymmetricDistance | memvid/src/vec_pq.rs:201-221 | infinite for a wrong length, and otherwise exactly the Euclidean distance from the query to the decoded vector, which is never built |
| Quantizer.EncodingIsOptimal | memvid/src/vec_pq.rs:151-175 | the code found one subspace at a time is nearest to the vector among all 256^96 codes |
| Quantizer.DecodedReencodes | memvid/src/vec_pq.rs:151-197 | a decoded vector encodes to codes that decode to the very same vector, duplicate centroids or not |
| Quantizer.ErrorIsClusteringCost | memvid/src/vec_pq.rs:109-197 | the total reconstruction error of a set of vectors is the sum of the k-means objectives of the 96 subspaces |
| Quantizer.TrainedErrorBound | memvid/src/vec_pq.rs:109-148 | a trained quantiser reconstructs its training set at least as well as the seeds would |
| Quantizer.TrainedErrorIsNearBest | memvid/src/vec_pq.rs:109-148 | seeding, iterating and encoding together: if any codebooks of 256 centres have every training vector within r in every subspace, the trained squared reconstruction error is at most 4r per vector and subspace |
| Sorting.SortSorts | memvid/src/vec_pq.rs:373-377 | the sort the rankings call returns a sorted list |
| Sorting.SortKeepsElements | memvid/src/vec_pq.rs:373-377 | and a permutation of its input |
| Sorting.SortIsStable | memvid/src/lex.rs:283-283 | elements that tie keep their order |
| Sorting.StableSortIsUnique | memvid/src/lex.rs:283-283 | a sorted list with the same ties in the same order is the stable sort: the three laws determine it |
| Sorting.StableSortArranges | memvid/src/vec_pq.rs:373-377 | in positions: the sort lists every element once, by rank, and where that ties by position |
| Sorting.TruncatedArranges | memvid/src/vec_pq.rs:373-380 | cut to a limit, it lists min(limit, n) elements, and every other one stands behind all of them |
| Sorting.FilterKeeps | memvid/src/vec_pq.rs:384-386 | what `retain` keeps is a subsequence with every copy of what passes and nothing else |
| Sorting.SortFilter | memvid/src/vec_pq.rs:373-386 | leaving elements out before sorting is leaving them out after it |
| VectorSearch.ExactSearch | memvid/src/vec.rs:232-260 | nothing for an empty query; otherwise the frames and true distances of min(limit, n) documents, by distance and where that ties by position, and every other document comes behind all of them |
| VectorSearch.QuantizedVecIndex.Search | memvid/src/vec_pq.rs:357-382 | the same with the distance to the decoded vector, which is infinite for a wrong length |
| VectorSearch.QuantizedVecIndex.Remove | memvid/src/vec_pq.rs:384-386 | what is left is a subsequence of the documents, with every copy of those of other frames and none of those of the frame |
| VectorSearch.RemovedFromRanking | memvid/src/vec_pq.rs:357-386 | after a removal, every search ranks as before with the hits of the frame left out and nothing else moved |
| VectorSearch.QuantizedVecIndexBuilder.TrainQuantizer | memvid/src/vec_pq.rs:238-243 | a failed training leaves the previous quantiser in place; a successful one installs a new one whose codebooks are clustered with at most 25 iterations |
| VectorSearch.QuantizedVecIndexBuilder.AddDocument | memvid/src/vec_pq.rs:246-261 | both error conditions leave the documents alone; otherwise the encoded document is appended |
| VectorSearch.ReportedDistanceIsClose | memvid/src/vec_pq.rs:201-221 | the distance to the decoded vector, which is what is reported, differs from the true one by at most the quantisation error |
| VectorSearch.RankIsCount | memvid/src/vec_pq.rs:373-380 | in a ranking, hit i lies within t if and only if more than i hits do |
| VectorSearch.RankedDistance | memvid/src/vec_pq.rs:373-380 | if no reported distance exceeds the true one by more than e, the i-th smallest reported distance exceeds the i-th smallest true one by at most e, although the orders differ |
| VectorSearch.CompressedSearchApproximates | memvid/src/vec_pq.rs:357-382 | with quantisation errors of at most e, the i-th compressed hit reports a distance within e of its true distance, which is at most the exact i-th nearest distance plus 2e |
| LittleEndian.FromToLe | memvid/src/footer.rs:26-29 | reading what was written little-endian in w bytes returns the number, if it fits |
| LittleEndian.ToFromLe | memvid/src/footer.rs:42-49 | writing what was read returns the bytes |
| LittleEndian.FromLeConcat | memvid/src/footer.rs:42-49 | bytes in front weigh less: a number is its first bytes plus the rest times a power of 256 |
| PqCodec.ManyInverts | memvid/src/vec_pq.rs:269-287 | if the parser undoes the encoder on each element, it does on the whole list |
| PqCodec.IndexParses | memvid/src/vec_pq.rs:305-319 | the current-format parse of an encoded index of at most 512 MiB returns the index and leaves nothing |
| PqCodec.DecodeAfterFinish | memvid/src/vec_pq.rs:269-322 | `decode` after `finish` is the identity if and only if the encoding has at most 512 MiB, which `finish` does not check |
| PqLayout.BuiltSize | memvid/src/vec_pq.rs:269-287 | an index with 96 codebooks of 1024 floats and 96 codes a document takes 394,004 bytes and 112 for each document |
| PqLayout.BuiltLayout | memvid/src/vec_pq.rs:269-287 | where every number of an encoded index stands: the count of codebooks, each with its length and its floats, the dimension at byte 393,992, the count of documents, and 112 bytes for each document |
| PqLayout.BuiltDecodesIff | memvid/src/vec_pq.rs:269-322 | what the builder made is read back if it has at most 4,789,972 documents, and rejected if it has more |
| PqLayout.FirstTooLarge | memvid/src/vec_pq.rs:269-322 | an index of 4,789,973 documents that cannot be read back, and one with a document fewer that can |
| PqCodec.ManyConsume | memvid/src/vec_pq.rs:305-319 | parsing n elements that take at least m bytes each takes at least n·m bytes |
| PqCodec.ShiftedDocuments | memvid/src/vec_pq.rs:331-337 | read four bytes late, an encoded document list either announces more documents than its bytes can hold or leaves bytes over |
| PqCodec.LegacyDecodes | memvid/src/vec_pq.rs:324-353 | no old-format index is ever consumed whole by the current parse; `decode` returns its codebooks and documents with dimension 384 if it has at most 512 MiB, and fails otherwise |
| PqCodec.IndexReflects | memvid/src/vec_pq.rs:305-337 | whatever either parse accepts is the encoding of what it returns, followed by what it leaves |
| PqCodec.DecodeMeans | memvid/src/vec_pq.rs:305-353 | the full meaning of `decode`: it returns x for exactly the bytes of at most 512 MiB that encode x in the current layout or, if the dimension is 384, in the old one |
| Footer.DecodeEncode | memvid/src/footer.rs:22-55 | decoding an encoded footer returns it |
| Footer.EncodeDecode | memvid/src/footer.rs:22-55 | exactly the 56-byte strings that begin with the magic decode, and each is the encoding of its footer |
| Footer.FooterLayout | memvid/src/footer.rs:22-31 | the magic at byte 0, the length at 8, the hash at 16 and the generation at 48 |
| Footer.EncodeBuffer | memvid/src/footer.rs:22-31 | filling the buffer field by field gives magic, length, hash and generation in place |
| Footer.LastIndexOf | memvid/src/footer.rs:83-83 | the last position of a byte before the end of the search, or nothing if there is none |
| Footer.FindLastValidFooter | memvid/src/footer.rs:76-118 | for every byte string: the greatest position with the magic, a length that is not 0 and fits, and the hash of the bytes so far back; its table of contents, hash, length and generation as they stand there; nothing exactly if there is no such position |
| Footer.NewestIsUnique | memvid/src/footer.rs:76-118 | that specification leaves one answer only |
| Footer.ValidIsCommit | memvid/src/footer.rs:91-105 | the decoded fields and the bytes say the same about a position |
| Footer.AppendedCommitIsFound | memvid/src/footer.rs:76-118 | after any bytes whatsoever, a complete commit at the end is the one found |
| Footer.ValidityIsLocal | memvid/src/footer.rs:91-105 | whether a position is valid depends only on the bytes up to the end of its footer |
| Footer.TailKeepsAnswer | memvid/src/footer.rs:76-118 | appending a tail leaves the answer alone if and only if no valid footer ends inside the tail |
| Footer.MagicFreeTail | memvid/src/footer.rs:76-118 | a tail that creates no magic, not even across the seam, leaves the previous commit found |
| EmbeddingCache.Recent | memvid/src/text_embed.rs:358-391 | lists exactly the keys used so far |
| EmbeddingCache.RecentByLastUse | memvid/src/text_embed.rs:358-391 | that list is strictly ordered by last use |
| EmbeddingCache.RecentDistinct | memvid/src/text_embed.rs:358-391 | and has no duplicates |
| EmbeddingCache.TouchIsLocal | memvid/src/text_embed.rs:358-391 | moving a key to the front and evicting from the back commutes with cutting the recency list off at the capacity |
| EmbeddingCache.KeptStep | memvid/src/text_embed.rs:358-391 | what is kept after one more use can be computed from what was kept before it |
| EmbeddingCache.LargerCacheContainsSmaller | memvid/src/text_embed.rs:358-391 | after the same uses, the smaller cache is a prefix of the larger one |
| EmbeddingCache.LargerCacheHitsMore | memvid/src/text_embed.rs:358-391 | over any run, a larger cache has at least as many hits |
| EmbeddingCache.KeptIsBounded | memvid/src/text_embed.rs:380-385 | no duplicates; exactly as many keys as were used, up to max(capacity, 1); so the capacity is exceeded if and only if it is 0 and something was used |
| EmbeddingCache.KeptMeaning | memvid/src/text_embed.rs:358-391 | in terms of the uses: a key is kept if and only if fewer than max(capacity, 1) other keys were used since its last use |
| EmbeddingCache.EmbeddingCache.Get | memvid/src/text_embed.rs:358-369 | returns the stored value or nothing, counts the hit or miss, changes no entry, and keeps the queue equal to the max(capacity, 1) most recently used keys |
| EmbeddingCache.EmbeddingCache.Insert | memvid/src/text_embed.rs:371-391 | stores the value, changes no other value, and keeps queue and map in agreement with the recency specification |
| EmbeddingCache.EmbeddingCache.InsertNew | memvid/src/text_embed.rs:381-390 | at capacity exactly the last key of the queue leaves |
| EmbeddingCache.EmbeddingCache.Clear | memvid/src/text_embed.rs:393-398 | empties map, queue and counters |
| EmbeddingCache.EmbeddingCache.Stats | memvid/src/text_embed.rs:400-407 | reports the counters and a size of at most max(capacity, 1) |
| EmbeddingCache.LocalTextEmbedder.EncodeText | memvid/src/text_embed.rs:608-619 | succeeds exactly if the key is among the most recently used or the model succeeds; the hit counter is the number of hits of the run; the result is the text's own embedding unless another encoded text has the same key |
| EmbeddingCache.LocalTextEmbedder.ClearCache | memvid/src/text_embed.rs:827-835 | starts the run over |
| Utf8.NextChar | memvid/src/lex.rs:463-464 | the character at a boundary ends at the next boundary |
| Utf8.EncodedIsText | memvid/src/lex.rs:463-463 | the UTF-8 encoding of any string is a text of the model |
| Utf8.WhitespaceByBytes | memvid/src/lex.rs:529-535 | of the encoded code points, exactly the 25 white space characters are recognised as such by their bytes |
| LexChunks.FindCutMeaning | memvid/src/lex.rs:463-486 | a section ends at the last sentence or line end read before its length reached 1400 bytes, or right there if none was |
| LexChunks.CutDistances | memvid/src/lex.rs:463-486 | the cut is at most 1406 bytes from the start of its section and leaves at most 1402 bytes read but pending |
| LexChunks.StartsAreGood | memvid/src/lex.rs:463-491 | over the whole loop: cuts ascend on character boundaries, gaps are at most 1406 bytes, and two gaps together exceed 1400 |
| LexChunks.SectionsPartition | memvid/src/lex.rs:445-514 | the sections are not empty, lie on character boundaries at their recorded offsets, concatenate to the content, are lower-cased copies of it, and number at most 2048 |
| LexChunks.SectionLengths | memvid/src/lex.rs:445-514 | only the last of 2048 sections can exceed 1406 bytes; two neighbours have at least 1400 bytes together, and more than 1400 unless the second is the last |
| LexChunks.SectionsEndRight | memvid/src/lex.rs:463-486 | every section but the last ends at the last soft break within 1400 bytes of its beginning - behind a line feed, or a stop with white space after it - or has none and at least 1400 bytes |
| LexChunks.CutAll | memvid/src/lex.rs:458-491 | the stateful loop with its lagging soft break computes the specified cuts |
| LexChunks.ChunkLong | memvid/src/lex.rs:458-513 | the rest of the content becomes a section of its own, or joins the last one once there are 2048 |
| LexChunks.ChunkSections | memvid/src/lex.rs:445-514 | the whole of `chunk_sections`: all of the above of the sections it returns, which for content of up to 1400 bytes are one or none |
| LexMatches.FindFrom | memvid/src/lex.rs:227-227 | the first match at or after a position, or nothing if there is none |
| LexMatches.FindAll | memvid/src/lex.rs:226-232 | the loop returns the spans of the left-to-right disjoint search |
| LexMatches.GreedyIsDisjoint | memvid/src/lex.rs:226-232 | what is found are true matches, none twice, no two overlapping |
| LexMatches.GreedyIsMaximum | memvid/src/lex.rs:226-232 | no set of disjoint matches has more elements than the search finds |
| LexMatches.JoinMatches | memvid/src/lex.rs:196-196 | the joined tokens occur somewhere exactly if the tokens stand there one after the other with single blanks between them |
| LexMatches.SortedSpansAre | memvid/src/lex.rs:213-265 | the occurrences of a match are true occurrences of its tokens, by start, for each token as many as can be had without overlaps |
| LexMatches.SearchTokens | memvid/src/lex.rs:233-258 | succeeds exactly if no token is empty and all occur; then all occurrences of all tokens |
| LexMatches.SearchSection | memvid/src/lex.rs:213-265 | a section yields occurrences, sorted by start, exactly if it is not empty and contains every token |
| LexIndex.MatchSection | memvid/src/lex.rs:213-279 | a match exactly if the section contains every token |
| LexIndex.MatchReports | memvid/src/lex.rs:265-279 | its fields are those of the document and the section, and its score the number of occurrences plus 1000 exactly if the tokens occur as a phrase |
| LexIndex.RankedIsAnswer | memvid/src/lex.rs:283-295 | the ranking of all hits is that answer |
| LexIndex.HitsAre | memvid/src/lex.rs:197-281 | the hits are exactly the matching sections of the documents that pass the uri filter or, without one, the scope filter |
| LexIndex.PassesMeaning | memvid/src/lex.rs:197-207 | what passes: with a uri filter, uris that begin with it, or equal it if it has a fragment, ASCII case aside; else, with a scope filter, uris that begin with it exactly; else everything |
| LexIndex.BestOf | memvid/src/lex.rs:283-295 | a hit of the frame that no hit of the frame beats, computed without sorting |
| LexIndex.SortedFirstIsBest | memvid/src/lex.rs:283-295 | the first hit of a frame in the stable sort is its best hit, the earliest among equals |
| LexIndex.RankingIsComplete | memvid/src/lex.rs:283-295 | no frame twice, scores never increase, and for every frame exactly its best hit: sort then keep-first is a per-frame maximum |
| LexIndex.Dedup | memvid/src/lex.rs:288-295 | the loop over the seen frames keeps the first hit of each |
| LexIndex.ComputeMatches | memvid/src/lex.rs:185-296 | nothing for an empty query; otherwise a match for exactly the frames that have a section with every token in a document that passes, one for each frame, with the frame, uri, title, offset, content, occurrences and score of such a section; none of the frame scores higher or, scoring as much, comes earlier; by score and where that ties by place |
| Windows.Prev | memvid/src/lex.rs:634-642 | the last character boundary at or before a position |
| Windows.Next | memvid/src/lex.rs:644-652 | the first character boundary at or after a position |
| Windows.PrevCharBoundary | memvid/src/lex.rs:634-642 | the loop finds it |
| Windows.NextCharBoundary | memvid/src/lex.rs:644-652 | the loop finds it |
| Windows.SentenceStartBeforeIndex | memvid/src/lex.rs:595-614 | the position behind the last stop before the index, blanks skipped; nothing if there is no stop |
| Windows.SentenceEndAfterIndex | memvid/src/lex.rs:616-632 | the position behind the first stop from the index on, but before a line break; nothing if there is no stop |
| Windows.AdvanceBoundary | memvid/src/lex.rs:654-667 | the offset behind a number of characters, or the end of the content |
| Windows.Widen | memvid/src/lex.rs:554-565 | computes the window of an occurrence |
| Windows.WindowMeaning | memvid/src/lex.rs:554-565 | the window from inside and outside: it begins behind the last stop before the half window and the blanks after that stop, or without a stop at the character there, at most 3 bytes before; and ends behind the first stop, before a line feed, or at the character there, at most 3 bytes behind |
| Windows.WindowIsUnique | memvid/src/lex.rs:554-565 | no other window meets that description |
| Windows.BeginsInOrder | memvid/src/lex.rs:595-614 | a window that should begin later does not begin earlier |
| Windows.AdvanceCounts | memvid/src/lex.rs:654-667 | the stretch has exactly so many characters, or all that are left |
| Windows.WindowContains | memvid/src/lex.rs:554-565 | the window of a token occurrence contains the occurrence |
| Snippets.SlicesGeometry | memvid/src/lex.rs:537-593 | between 1 and max(1, max_snippets) slices; they are not empty, lie in the content on character boundaries, in order and more than 20 bytes apart if and only if the window is not 0 or an occurrence was taken in; otherwise the only slice is empty |
| Snippets.TokenSlicesGeometry | memvid/src/lex.rs:537-593 | for token occurrences, that is so if and only if the window is not 0 or there is an occurrence |
| Snippets.HandledOccurrencesAreShown | memvid/src/lex.rs:553-585 | for sorted token occurrences, each one handled before the cap lies wholly inside one slice |
| Snippets.AllHandledBelowCap | memvid/src/lex.rs:582-584 | all occurrences are handled unless the number of slices reached the cap |
| Snippets.MergeWindows | memvid/src/lex.rs:552-585 | the loop joins the windows of the handled occurrences |
| Snippets.AbsorbedIsMade | memvid/src/lex.rs:571-581 | each slice begins and ends where windows of handled occurrences do and has in it only these and gaps of at most 20 bytes; and every window that is not empty lies in a slice |
| Snippets.MadeIsUnique | memvid/src/lex.rs:571-581 | slices so made, more than 20 bytes apart, are determined by the occurrences |
| Snippets.HandledMeaning | memvid/src/lex.rs:582-584 | the occurrences handled are the fewest that make as many slices as the cap, or all |
| Snippets.ComputeSnippetSlices | memvid/src/lex.rs:537-593 | the whole of `compute_snippet_slices`: nothing for no content; otherwise, for occurrences in order, exactly the slices described, or the first `window` characters if all windows are empty |
| SnippetsOfMatches.MatchSpansCharacters | memvid/src/lex.rs:226-232 | where a token occurs in the lower-cased section, it spans whole characters of the section |
| SnippetsOfMatches.SearchHitsAreShown | memvid/src/lex.rs:537-593 | the occurrences that the search reports satisfy the assumptions of the snippets, so those handled are shown |
| SnippetsOfMatches.SectionsAreTexts | memvid/src/lex.rs:516-527 | every section is itself a valid text whose lower-cased copy the search runs on |
| SnippetsOfMatches.MatchesAreShown | memvid/src/lex.rs:155-177 | from chunked documents over search and ranking to snippets: each handled occurrence of every match that a query returns lies wholly inside a snippet of that match |
| MemoryStore.LineEnd | memory_service/controller.py:125-125 | where the next line ends: behind its newline, or at the end of the file |
| MemoryStore.LoadJsonl | memory_service/controller.py:116-149 | the reading loop with its four outcomes: blank lines skipped, a torn last line ignored, and two kinds of malformed file |
| MemoryStore.LoadConcat | memory_service/controller.py:116-149 | loading a file whose first part ends a line is loading the parts one after the other |
| MemoryStore.LineBetween | memory_service/controller.py:125-148 | a blank line changes nothing; one that does not parse makes the file malformed at its offset; a value that is no object is an error; any other line adds its record |
| MemoryStore.LastLine | memory_service/controller.py:132-142 | a last line without a newline that does not parse is ignored, however it came about |
| MemoryStore.InterruptedAppend | memory_service/controller.py:200-211 | an append stopped at any byte loads as the records before it, or as the records after it |
| MemoryStore.WrittenFileLoads | memory_service/controller.py:344-366 | a rewritten file loads as the list it was written from |
| MemoryStore.FileIsLines | memory_service/controller.py:357-359 | each object on a line of its own, in order |
| MemoryStore.AppendIsDurableIff | memory_service/controller.py:116-149 | appending to a loadable file is durable if and only if only JSON blanks follow its last newline; otherwise the next load fails |
| MemoryStore.AppendAfterCrash | memory_service/controller.py:116-149 | after a crash at byte n of an append and one more append, the file loads if and only if n is 0 or the length of the line; then the list is complete |
| MemoryStore.ApplyIsDurable | memory_service/controller.py:238-267 | each of ingest, delete and maintain keeps file and list in agreement |
| MemoryStore.RunIsDurable | memory_service/controller.py:238-267 | after any sequential run from a well-formed file, loading the file yields exactly the list |
| MemoryStore.CrashLoadsBeforeOrAfter | memory_service/controller.py:344-366 | a crash at any byte of an append or any step of a rewrite loads as the state before or the state after |
| MemoryStore.MemoryController.Open | memory_service/controller.py:193-198 | a new controller holds what its file loads as, and fails exactly if loading does |
| MemoryStore.MemoryController.Ingest | memory_service/controller.py:238-267 | the record is behind the list, its object and a newline behind the file; durability is kept |
| MemoryStore.MemoryController.DeleteRecord | memory_service/controller.py:330-342 | true exactly if some record has the id; what is left is a subsequence with every copy of the other records; the file is rewritten exactly if something was deleted, which makes even a damaged file durable again |
| MemoryStore.MemoryController.RewriteDisk | memory_service/controller.py:344-366 | the file holds exactly the lines of the list and loads as it |
| MemoryStore.MemoryController.Maintain | memory_service/controller.py:368-408 | exactly the records that were expired or were stored more than 604,800 seconds ago are expired, and nothing else changes; reports the ids of all expired records in order and the number of live records of the five lasting types; rewrites the file exactly if something changed, which makes even a damaged file durable again |
| MemoryStore.ReportLists | memory_service/controller.py:376-399 | the report, from the records |
| Retrieval.ContributionBounds | memory_service/controller.py:226-233 | one term contributes at least 0 and less than 2.5, and something exactly if it occurs; the denominator is positive |
| Retrieval.ContributionIs | memory_service/controller.py:226-233 | the formula: 2.5 tf / (tf + 0.375 + 0.1125 length) |
| Retrieval.ContributionIsStrict | memory_service/controller.py:226-233 | a contribution rises strictly with the frequency of the term and falls strictly with the length of the text |
| Retrieval.ScoreGrows | memory_service/controller.py:225-233 | each further query term adds its contribution |
| Retrieval.ScoreBounds | memory_service/controller.py:216-234 | a score is at least 0 and less than 2.5 per query term, and positive if and only if some query term occurs |
| Retrieval.CountTerms | memory_service/controller.py:222-224 | the map counts each term of the text |
| Retrieval.Bm25 | memory_service/controller.py:216-234 | the loop computes the score |
| Retrieval.CandidatesAre | memory_service/controller.py:273-292 | the candidates are exactly the records that pass the four filters and score above zero |
| Retrieval.RankingIsStrict | memory_service/controller.py:293-293 | the ranking is strict in score and then recency, so it has no ties |
| Retrieval.RetrieveIsTopK | memory_service/controller.py:269-297 | what is returned qualifies, once each, in strict order; a qualifying record that is not returned is outranked by all top_k returned ones |
| Retrieval.Retrieve | memory_service/controller.py:269-297 | the hits are records with their scores, none twice, that pass the four filters and hold a query term; by score and then latest first; at most top_k, and any other such record comes behind all of them, of which there are then top_k |
| LockProtocol.StepKeepsFile | memvid/src/lockfile.rs:114-199 | every step but the removal of a file that a process owns keeps the lock file with the one process that owns it |
| LockProtocol.StepKeepsRecord | memvid/src/registry.rs:208-249 | every step but a removal while a process owns the file keeps the record of a live guard its own |
| LockProtocol.LockSafety | memvid/src/lockfile.rs:93-199 | with force_stale off, in every state any interleaving with failures and crashes can reach: at most one live guard; its record is present and its own; the lock file exists exactly while its creator has not removed it |
| LockProtocol.HolderIsUndisturbed | memvid/src/lockfile.rs:93-199 | no step of another process, takeovers aside, touches the record, the lock file or the state of a live holder |
| LockProtocol.CarefulTakeoversAreSafe | memvid/src/lockfile.rs:160-167 | with force_stale on, exclusion survives every run in which removals happen only while no process owns the lock file |
| LockProtocol.TakenFromGuard | memvid/src/lockfile.rs:160-167 | removing the file of an owner that has a guard, or is on its way to one, can be followed by two live guards without another takeover |
| LockProtocol.TakenFromLeaver | memvid/src/lockfile.rs:114-167 | so can removing the file of an owner about to remove it: it removes the file of the taker instead, and a third process gets in |
| LockProtocol.TakeoverBreaksIff | memvid/src/lockfile.rs:160-167 | in a safe state, the removal of the lock file in a takeover can be followed by two live guards if and only if some process owns the file, whatever that process is doing |
| LockProtocol.StaleCheckIsNotEnough | memvid/src/lockfile.rs:154-167 | the stale check does not prevent that state, even without a crash: a record not yet written counts as stale |
| LockProtocol.TwoGuards | memvid/src/lockfile.rs:121-199 | from the initial state, a run leads to two live guards |
| LockProtocol.ForceStaleDecides | memvid/src/lockfile.rs:121-199 | every run keeps at most one live guard if and only if force_stale is off |
| Streaming.PollKeepsInv | backend/server_streaming.py:94-171 | every step of the poller keeps the delivery invariant |
| Streaming.RunKeepsInv | backend/server_streaming.py:76-171 | so does every interleaving of run and poller |
| Streaming.ExactlyOnce | backend/server_streaming.py:69-171 | in every reachable state: the events streamed are a prefix of the log without repetition, steps are 0, 1, 2, …, a finished stream has delivered the whole log, and nothing follows a terminal message |
| Streaming.PollProgress | backend/server_streaming.py:107-171 | once the run is over, every step of the poller brings the end nearer or is the right end |
| Streaming.StreamEndsRight | backend/server_streaming.py:107-171 | from wherever the poller is when the run ends: the whole log and `done` if the run has an id and no error text; otherwise the log up to the cursor, and the error text or "Run failed to start." |
| Streaming.FailureDeliversIff | backend/server_streaming.py:144-171 | a run that failed has all its events streamed if and only if the poller had read them all before it saw that the run was over; what lies behind the cursor is lost |
| Streaming.EventOfFailedRunIsLost | backend/server_streaming.py:107-146 | a run whose only event is never streamed |
| Streaming.ReadIsDelivered | backend/server_streaming.py:122-140 | what the log holds when the poller reads it is streamed, while the run goes on and whatever it does, once the poller has made as many more steps as there were new events |
| Streaming.ReadComesRound | backend/server_streaming.py:107-126 | while the run goes on and has its id, the poller comes to read again and again |
| Streaming.EmptyErrorCountsAsSuccess | backend/server_streaming.py:144-171 | a run that fails with an empty error text is streamed as finished if and only if it has an id |
| Streaming.EmptyErrorRun | backend/server_streaming.py:89-171 | there are such runs |
| TextNormalize.CanonicalIsNormal | memvid/src/text.rs:25-59 | the canonical form has no white space but single blanks and line breaks between visible characters, and no control character |
| TextNormalize.CanonicalFixpoint | memvid/src/text.rs:25-59 | a normal text is its own canonical form |
| TextNormalize.GapBecomesSeparator | memvid/src/text.rs:29-58 | between two visible characters stands a line break exactly if the input has a line feed or a carriage return there, otherwise a blank exactly if it has a tab or white space that is no control character, and else nothing |
| TextNormalize.LeadingGapVanishes | memvid/src/text.rs:29-61 | a gap at the beginning becomes nothing |
| TextNormalize.CharLenIsEncoded | memvid/src/text.rs:70-71 | the length of a character is that of its UTF-8 encoding |
| TextNormalize.Clean | memvid/src/text.rs:25-59 | the flag-driven loop yields the canonical form, up to one separator at each end |
| TextNormalize.CleanedIsCompact | memvid/src/text.rs:25-59 | so its output has no white space but blanks and line breaks, never two in a row, and no other control character |
| TextNormalize.TrimmedIsCanonical | memvid/src/text.rs:61-61 | trimmed, it is exactly the canonical form |
| TextNormalize.FittingMeaning | memvid/src/text.rs:70-78 | the graphemes kept are the longest prefix within the limit, and all of them exactly if the whole text is |
| TextNormalize.TakeGraphemes | memvid/src/text.rs:66-88 | the loop keeps the graphemes that fit, at least the first; `truncated` holds exactly if the text exceeds the limit |
| TextNormalize.NormalizeText | memvid/src/text.rs:21-95 | nothing exactly if the canonical form is empty; otherwise a prefix of it that is not empty and exceeds the limit only as a single grapheme, with `truncated` exactly if the canonical form exceeds the limit |
| TextNormalize.ZeroLimit | memvid/src/text.rs:22-22 | a limit of 0 keeps what a limit of 1 keeps |
| TextNormalize.TruncateAtGraphemeBoundary | memvid/src/text.rs:100-119 | the offset it returns is the length of what `normalize_text` keeps under the same limit, which only that function raises to 1 |
| TextNormalize.UntruncatedIsFixpoint | memvid/src/text.rs:21-95 | an untruncated result is in normal form, and normalising it again changes nothing, if NFKC does not change it |
| TextNormalize.KeptIsPrefix | memvid/src/text.rs:66-88 | what is kept is a prefix, is not empty for a text that is not, and exceeds the limit only if the first grapheme does |
| PdfSpacing.JoinedSplits | memvid/src/text.rs:256-289 | joining words with blanks and splitting the result again gives the words |
| PdfSpacing.StartsByLength | memvid/src/text.rs:186-232 | which pairs of words begin a merge, by their lengths and whether they are common |
| PdfSpacing.ShortByLength | memvid/src/text.rs:264-268 | which merges can go on |
| PdfSpacing.ContinuesByLength | memvid/src/text.rs:234-249 | and through which words |
| PdfSpacing.MergeRun | memvid/src/text.rs:265-283 | the inner loop joins the longest run of words that may follow |
| PdfSpacing.MergeWords | memvid/src/text.rs:258-287 | the output is the concatenations of consecutive groups: single words that start no merge, and maximal merges |
| PdfSpacing.MergesIsUnique | memvid/src/text.rs:258-287 | that description leaves one output only |
| PdfSpacing.MergingKeepsText | memvid/src/text.rs:258-287 | no character of the words is lost, added or moved |
| PdfSpacing.OtherWordsSurvive | memvid/src/text.rs:258-287 | a word that is not purely alphabetic stays a word of its own, with the same text before it and behind it |
| PdfSpacing.FixPdfSpacing | memvid/src/text.rs:130-289 | the whole function: texts with fewer than 3 bytes, no blank or fewer than two words are returned as they are; all others have their words merged; the characters other than white space never change |

## Left out

- Machine floats: no bound here is claimed for f32 rounding, NaN or infinities, nor for counts above 2^24 in f32 scores.
- CarefulTakeoversAreSafe: its condition, that no process owns the file when it is removed, is not one the program checks; `ForceStaleDecides` states what a caller can decide.
- FindLastValidFooter: on a 32-bit platform a length above 2^32 would be read as 0 and rejected; the model has 64-bit sizes, on which it is rejected for not fitting.
- The in-place mutation of centroid lists, hit lists and sections is modelled by reassigned sequences; `sort` is a function.
- Branches that cannot be taken: the fallback for an empty list of sections. (The guard against an empty cut is kept.)
- Lock acquisition: timeouts, sleeping, messages and owner hints, `current_owner`, and `registry::heartbeat`, which no guard calls.
- The Python store: the sidecar backend, concurrent callers, `list_records`, pydantic validation, and the field normalisation of hits.
- The embedder: a disabled cache, poisoned locks, `encode_batch`, tokenising and inference.
- The lexical index: tokenising, title and tag handling, the codec and migration of old indexes, and the replacement of line breaks in snippets.
- ExactSearch: a query longer than an embedding makes the program panic, and debug builds panic for every difference in length; the contract does not cover these.
- The vector index: HNSW, the choice between formats in `VecIndex::decode`, entries and statistics; the scalar fallback without the `simd` feature, which is the specification `SqDist` itself.
- Streaming: labels and SSE framing, the run itself, thread pools and waiting.
- Text: NFKC and grapheme segmentation themselves.
- The HCA runtime, memvid's write-ahead log, table of contents and commit path, extraction, CLIP and Whisper, the servers and the frontend.
