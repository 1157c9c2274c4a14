# Verified models of mnem's self-contained algorithms

mnem is a versioned, content-addressed graph store with vector retrieval. This project models
the algorithms in it that carry hard promises, and proves those promises:

- **k-nearest-neighbour edges** (`KnnEdges`, `KnnGraph`, `KnnLaws`, `KnnMetrics`, `KnnOrder`,
  `KnnCanonical`, `KnnSelfLoops`): the derivation loops, shown equal to a graph defined by
  counting rivals; when the list is independent of input order and free of self-loops, and when
  the metrics choose alike.
- **The vector index shell** (`HnswIndex`, `HnswLaws`, `HnswContents`): the build filter, decoding
  and normalising, score arithmetic and re-ranking, against a brute-force search.
- **The brute-force index** (`BruteForceIndex`, `BruteForceLaws`): its flat buffer, its build and
  its search, and exactly when the two indexes hold the same rows and give the same answers.
- **The index file** (`Bytes`, `IndexFile`, `IndexFileLaws`, `IndexFileLayout`): the byte writer and
  the cursor reader, shown exact inverses of each other; where every field stands.
- **Operation heads** (`OpHeads`, `OpHeadRaces`, `Lca`, `HeadUpdates`, `RemotePush`):
  interleavings of the repository layer's writers, which read the heads and later publish an
  operation superseding them; interleavings of arbitrary updates; the push endpoint of the
  server; and the common-ancestor search that opening a repository with several heads needs.
- **The block store** (`Blockstore`, `BlockstoreLaws`, `BlockWalk`, `BlockWalkLaws`,
  `BlockWalkOrder`, `GarbageCollection`): reads, writes and batches over whole runs, the walk over links, and
  deleting what no root reaches.
- **Host configuration** (`Text`, `PromptBlock`, `PromptLaws`, `PromptTheorems`, `PromptDrift`,
  `HookLists`, `Json`, `HostConfig`, `HostConfigLaws`, `HookContents`, `HookOwnership`): injecting and removing a managed block
  or entry in files that belong to the user.
- **The bag-of-tokens embedder** (`Fnv`, `Utf8`, `Embedder`, `EmbedderLaws`).
- **Re-ranking by a chat model** (`Rerank`).

`Options`, `Ordering` and `RealVectors` hold what several of these share. Code that updates
state in place is modelled as a class or as a method with loops, proved equal to a function;
the theorems are about the function. Verify with `dafny verify dfyconfig.toml`.

## How to read the numbers

Similarities, distances and counters are exact reals; the square root is a parameter of which
only `RealVectors.IsSqrt` is asked. Stored floats in the index file are bit patterns. Hashes
are numbers below 2^64 with explicit wrap-around. Digests (SHA-256, BLAKE3), the byte spelling
of content ids, UTF-8 validity, Unicode character tables and the links of a DAG-CBOR block are
parameters.

## Where the code does less than its text says

Each of these is a theorem below; the model follows the code.

- *Prompt merge.* "Last writer wins" and idempotence hold exactly when the file's markers are
  absent or in order and the earlier prompt, trimmed, does not contain the end marker
  (`PromptTheorems.LastWriterWinsIff`). With the end marker first, every run appends one more
  block; with a start marker alone, the second run drops the text after it
  (`PromptTheorems.EndFirstCase`, `PromptTheorems.StrayStartResult`).
- *JSON prompt.* When something that is not an object lies on the path, the field is not
  written and yet every run reports a write (`HostConfigLaws.WiringSettlesIff`). Undoing
  restores a document exactly when the path is blocked, or the container was there and the field
  was not, or the field was a text that is not blank, holds no marker and ends in one line break
  (`HostConfigLaws.WireThenUndoRestoresIff`). So a container made for a nested field stays behind
  (`HostConfigLaws.ContainerStaysBehind`), and a value at the field that is not a string is
  overwritten, and gone after undoing (`HostConfigLaws.OtherValueIsGone`).
- *Hermes removal* drops the key of an empty list and reports no change, so that edit is not
  saved (`HostConfigLaws.HermesRemoveReports`).
- *Hook lists.* A set replaces the first owned entry only; duplicates of it stay
  (`HookLists.PlacingReplacesFirst`). An entry is owned as a whole, so a removal takes another
  tool's hook with it exactly when one entry lists it beside ours
  (`HookOwnership.OtherHooksSurviveIff`).
- *Containers.* A value of the user is overwritten exactly when something other than an object
  is on the way to a server entry or hook list (`Json.BlockedAt` finds it,
  `Json.ForceLosesNothingIff`, `HostConfigLaws.ServerEntryLosesNothingIff`), or something other
  than a list is where the hooks belong (`HostConfigLaws.HookSetLosesNothingIff`).
- *Heads.* A merge operation is a function of the heads it merges, so a slow reader can publish
  it again after it got a child: it is then a head that is not childless
  (`OpHeadRaces.StaleMergeReturns`; `OpHeads.HeadsStayExactIff` is the exact condition).
- *Pushes.* A push loses nothing exactly when the old head is an ancestor of the new entry,
  another one, or of another head (`RemotePush.PushKeepsHistoryIff`). The server lets through
  three classes that can lose it, and no other (`RemotePush.AcceptedPushIff`): the head is no
  commit, as the root operation in the first push after initialisation is not
  (`RemotePush.FirstPushLosesRoot`); the search for the head meets a block it cannot read
  (`RemotePush.UnreadableParentLosesHead`); the head is replaced by itself, which removes it
  (`RemotePush.PushingTheHeadRemovesIt`).
- *Linearize.* The re-read of the heads is not in the transaction that advances them, so two
  writers can both pass it and leave two heads (`OpHeadRaces.LinearizeDoesNotSerialise`;
  `OpHeadRaces.SingleHeadIff` says when one head is left).
- *Walk order.* A walk marks blocks when it pushes them, so a block linked again while it waits
  is not visited sooner. The walk is in depth-first order if no block but the root is linked
  twice (`BlockWalkOrder.LinkedOnceWalkIsDepthFirst`), and not always
  (`BlockWalkOrder.SomeWalkIsNotDepthFirst`).
- *Scores.* A score is the cosine exactly when neither vector is zero; a zero vector scores
  one half (`HnswLaws.ScoreIsCosineIff`).
- *Baseline.* The brute-force index filters neither tombstoned nor system nodes and decodes two
  more types, so the two indexes can differ even in dimension. They hold the same exactly when
  no such row is in the brute-force one (`BruteForceLaws.SameIndexIff`), and answer the same
  exactly when the graph offers that one's whole answer (`BruteForceLaws.SearchesAgreeIff`).
- *Dimension.* The first embedding that passes the filters fixes the dimension even when it
  cannot be decoded (`HnswIndex.Undecodable`).
- *Edge order.* The bag of edges is the same in any input order. The list is the same for all
  vectors and all orders exactly when ids are distinct, or there are at most two rows, or no
  edges are asked for (`KnnCanonical.CanonicalIff`).
- *Self-loops.* No edge leads from an id to itself, whatever the vectors, exactly when ids are
  distinct or no edges are asked for (`KnnSelfLoops.NeverLoopsIff`).
- *Selection metric.* The module text speaks of ascending squared distance; the code ranks by
  the dot product. A stored zero vector can make them choose different pairs
  (`KnnMetrics.ZeroVectorSplitsMetrics`); `KnnMetrics.MetricsAgree` is the exact condition, which
  unit vectors always meet.

## Model

| member | source | states |
|---|---|---|
| KnnEdges.ComputeSimilarity | crates/mnem-ann/src/knn_edges.rs:229-252 | the accumulating loop computes the dot product for the cosine and dot-product metrics; for L2, the number whose product with one plus the Euclidean distance is one |
| KnnEdges.SimMeans | crates/mnem-ann/src/knn_edges.rs:229-252 | the same of the similarity that all laws are stated about |
| KnnEdges.EdgesFrom | crates/mnem-ann/src/knn_edges.rs:194-217 | one turn of the loop gives the specified edges of one source |
| KnnEdges.DeriveKnnEdgesFromVectors | crates/mnem-ann/src/knn_edges.rs:175-227 | the nested loops with their early exits and scratch list compute the specified list for every k and every input |
| KnnEdges.RankedLength | crates/mnem-ann/src/knn_edges.rs:195-209 | each source has a score for every other position and none for itself |
| KnnGraph.RankIsRivalCount | crates/mnem-ann/src/knn_edges.rs:204-209 | the position of a destination in the sorted scores is the number of candidates that are closer, or as close with a smaller id |
| KnnGraph.OutEdgeMeaning | crates/mnem-ann/src/knn_edges.rs:210-217 | an edge leaves a source exactly when fewer than k candidates outrank its destination, it is no self-loop and its weight is the similarity |
| KnnGraph.DerivedIsKnnGraph | crates/mnem-ann/src/knn_edges.rs:175-227 | the list holds exactly the edges of the graph in which fewer than k candidates are closer, or as close with a smaller id; strictly increasing in (source, destination), n times min(k, n - 1) of them |
| KnnGraph.EdgeCount | crates/mnem-ann/src/knn_edges.rs:182-217 | the number of edges, also when ids repeat |
| KnnGraph.DerivationIsCanonical | crates/mnem-ann/src/knn_edges.rs:23-33 | deriving from any permutation of the (id, vector) pairs gives the identical list, for distinct ids and any similarity |
| KnnLaws.OutDegree | crates/mnem-ann/src/knn_edges.rs:186-217 | every source has exactly min(k, n - 1) neighbours |
| KnnLaws.ChosenBeforeUnchosen | crates/mnem-ann/src/knn_edges.rs:204-217 | every chosen destination is closer than every unchosen one, or as close with a smaller id |
| KnnLaws.MoreNeighboursKeepEdges | crates/mnem-ann/src/knn_edges.rs:186-217 | raising k only adds edges |
| KnnLaws.RestrictionKeepsEdges | crates/mnem-ann/src/knn_edges.rs:194-217 | an edge between two members of a sub-collection is an edge of the sub-collection's own graph |
| KnnLaws.MetricsRankAlike | crates/mnem-ann/src/knn_edges.rs:229-252 | on unit vectors the cosine and the Euclidean similarity order every two pairs alike, ties included |
| KnnMetrics.BuiltPointsAreStored | crates/mnem-ann/src/hnsw.rs:644-656 | every point of a built index is a unit vector or zero |
| KnnMetrics.RankAlikeIff | crates/mnem-ann/src/knn_edges.rs:229-252 | for stored vectors, unit or zero, the dot product and the distance order two candidates alike, ties included, exactly when both or neither are zero, or the source is not zero and the other one's dot product is negative or above one half |
| KnnMetrics.SamePairsIff | crates/mnem-ann/src/knn_edges.rs:204-217 | any two similarities choose the same pairs for every k exactly when every source orders every two others alike, ids breaking ties |
| KnnMetrics.MetricsAgreeIff | crates/mnem-ann/src/knn_edges.rs:23-33 | for stored vectors the graphs of the two metrics have the same pairs for every k exactly when no zero vector stands where the two orders differ |
| KnnMetrics.MetricsAgree | crates/mnem-ann/src/knn_edges.rs:23-33 | the same of the derived lists; unit vectors always meet the condition |
| KnnMetrics.ZeroVectorSplitsMetrics | crates/mnem-ann/src/knn_edges.rs:23-33 | two unit vectors and a zero vector for which the two metrics choose different neighbours |
| KnnOrder.SameOutEdges | crates/mnem-ann/src/knn_edges.rs:194-217 | the out-edges of a pair depend on the bag of all pairs only, repeated ids or not |
| KnnOrder.SameEdgesInAnyOrder | crates/mnem-ann/src/knn_edges.rs:23-33 | without any condition on ids, a permuted input gives the same bag of weighted edges |
| KnnCanonical.CanonicalIff | crates/mnem-ann/src/knn_edges.rs:23-33 | under every metric, the list is the same for all vectors and all orders of the pairs if and only if ids are distinct, or there are at most two rows, or no edges are asked for; the same with unit vectors only |
| KnnCanonical.SortKeepsFirst | crates/mnem-ann/src/knn_edges.rs:222-226 | the stable sort keeps the first of edges with equal source and destination |
| KnnCanonical.SeparatedRowsDiffer | crates/mnem-ann/src/knn_edges.rs:222-226 | exchanging the vectors of two rows of one id changes the list, whatever the other ids |
| KnnCanonical.RepeatedIdsFollowTheOrder | crates/mnem-ann/src/knn_edges.rs:222-226 | one such input: three unit vectors, a repeated id, k = 1, under every metric |
| KnnSelfLoops.NeverLoopsIff | crates/mnem-ann/src/knn_edges.rs:29-31 | under every metric, no vectors for the given ids give an edge from an id to itself if and only if ids are distinct or no edges are asked for; the same with unit vectors only |
| KnnSelfLoops.RepeatLoops | crates/mnem-ann/src/knn_edges.rs:195-217 | two rows of one id with one vector, all others opposite, give such an edge |
| KnnOrder.DeriveKnnEdges | crates/mnem-ann/src/knn_edges.rs:274-288 | over distinct ids the index entry point returns, by source and destination, exactly the edges to the k nearest by dot product, the smaller id first among equals, and the dot product is the weight |
| KnnOrder.IndexEdgesAreNearest | crates/mnem-ann/src/knn_edges.rs:274-288 | the same of the function the entry point computes |
| KnnOrder.EdgesIgnoreCursorOrder | crates/mnem-ann/src/knn_edges.rs:274-288 | two builds over the same nodes in different orders that agree on the dimension give the same edges, and the same list when ids are distinct |
| HnswIndex.BuildFromRepoWith | crates/mnem-ann/src/hnsw.rs:175-276 | the build fails exactly when a cursor row fails, or an embedding of a living node that is not of the system has other than dimension times 2, 4, 8 or 1 bytes; else it holds the kept rows with the first-seen dimension (contents: HnswContents.BuiltRows) |
| HnswContents.BuiltDim | crates/mnem-ann/src/hnsw.rs:219-237 | the dimension is that of the first embedding of a living node that is not of the system |
| HnswContents.BuiltRows | crates/mnem-ann/src/hnsw.rs:193-258 | the rows are, in cursor order, the living nodes that are not of the system with an F32 or F64 embedding of that dimension; component i of each vector is read from bytes 4i to 4i+4, or 8i to 8i+8, and divided by the norm unless the vector is zero |
| HnswIndex.DecodedComponent | crates/mnem-ann/src/hnsw.rs:618-642 | component i of a decoded F32 embedding is read from bytes 4i to 4i+4, of an F64 one from bytes 8i to 8i+8; F16 and I8 are not decoded |
| HnswContents.NormalisedMeans | crates/mnem-ann/src/hnsw.rs:644-656 | every component is divided by the norm, unless the vector is zero |
| HnswIndex.Undecodable | crates/mnem-ann/src/hnsw.rs:215-240 | an undecodable first embedding contributes no row and still fixes the dimension |
| HnswIndex.Normalise | crates/mnem-ann/src/hnsw.rs:644-656 | the in-place loops divide by the norm, and leave a zero vector as it is |
| HnswIndex.Distance | crates/mnem-ann/src/hnsw.rs:82-94 | the loop computes the squared Euclidean distance |
| HnswIndex.CollectHits | crates/mnem-ann/src/hnsw.rs:581-591 | each candidate looked at becomes one hit with its id and one minus half its distance |
| HnswIndex.SearchIndex | crates/mnem-ann/src/hnsw.rs:556-602 | an empty index without dimension answers nothing, and another query length is a mismatch; otherwise min(k, candidates) hits, each of a candidate among the first k or within the search width and scored one minus half its distance, the best of these in order (score descending, id ascending) |
| HnswLaws.IndexedIff | crates/mnem-ann/src/hnsw.rs:175-258 | a row is indexed exactly when some cursor entry carries it past the tombstone, system, dimension and decoding filters |
| HnswLaws.BuiltIsAligned | crates/mnem-ann/src/hnsw.rs:175-276 | ids and points are aligned and every point has the dimension of the index |
| HnswLaws.NormalisedIsUnitIff | crates/mnem-ann/src/hnsw.rs:644-656 | normalising gives a unit vector exactly when the input is not zero |
| HnswLaws.NormaliseIsIdempotent | crates/mnem-ann/src/hnsw.rs:644-656 | normalising twice is normalising once |
| HnswLaws.NormaliseIgnoresScale | crates/mnem-ann/src/hnsw.rs:644-656 | positive scaling of the input does not change the result |
| HnswLaws.ScoreIsCosineIff | crates/mnem-ann/src/hnsw.rs:585-591 | one minus half the squared distance of the normalised vectors is their dot product exactly when neither input is zero; one zero input scores one half |
| HnswLaws.ScoreIsInRange | crates/mnem-ann/src/hnsw.rs:585-591 | scores lie between -1 and 1 |
| HnswLaws.TopOfPartIff | crates/mnem-ann/src/hnsw.rs:593-601 | the first k of some candidates are the first k of all exactly when none of the latter is missing |
| HnswLaws.SearchIsBruteForceIff | crates/mnem-core/src/index/vector.rs:309-350 | over non-zero vectors the search returns the brute-force answer exactly when the graph offers all of that answer |
| HnswLaws.BuiltSearchIsBruteForceIff | crates/mnem-ann/src/hnsw.rs:556-602 | an index built over distinct nodes without a zero embedding answers a non-zero query as brute force over the indexed rows does exactly when every point of that answer is among the first k candidates, or within the search width |
| HnswLaws.FullSearchIsBruteForce | crates/mnem-ann/src/hnsw.rs:581-602 | so it is brute force when every row is among those candidates |
| BruteForceIndex.BruteForceVectorIndex.Empty | crates/mnem-core/src/index/vector.rs:140-147 | an index without rows |
| BruteForceIndex.BruteForceVectorIndex.TryInsert | crates/mnem-core/src/index/vector.rs:202-215 | an embedding of the index's dimension and of the right size is appended, normalised, as one row; any other is refused and changes nothing |
| BruteForceIndex.RowOfFlat | crates/mnem-core/src/index/vector.rs:333-334 | a slice of the flat buffer at a multiple of the dimension is the point that was appended there |
| BruteForceIndex.DividedByNorm | crates/mnem-core/src/index/vector.rs:446-454 | dividing by the norm is the same as the other index's multiplying by its reciprocal |
| BruteForceIndex.BruteForceVectorIndex.ScoreRows | crates/mnem-core/src/index/vector.rs:333-340 | every row of the buffer is scored by its dot product with the query |
| BruteForceIndex.BruteForceVectorIndex.Search | crates/mnem-core/src/index/vector.rs:309-351 | an empty index without dimension answers nothing, and another query length is a mismatch; otherwise min(k, rows) hits, each of a row and scored by its dot product with the normalised query, the best of these in order (score descending, id ascending) |
| BruteForceIndex.InsertOrStart | crates/mnem-core/src/index/vector.rs:274-282 | the first embedding makes the index, of its dimension, and is inserted; later ones are inserted if they have that dimension |
| BruteForceIndex.TakeEntry | crates/mnem-core/src/index/vector.rs:254-287 | one turn of the loop takes the state for some entries to the state for one more |
| BruteForceIndex.BuildFromRepo | crates/mnem-core/src/index/vector.rs:239-297 | the build fails exactly when a cursor row fails or an embedding has other than dimension times 2, 4, 8 or 1 bytes; else it holds the embeddings of the first one's dimension (contents: HnswContents.BruteBuiltRows) |
| HnswContents.BruteBuiltRows | crates/mnem-core/src/index/vector.rs:239-297 | the rows are, in cursor order, all embeddings of that dimension; component i is read from bytes 2i to 2i+2, 4i to 4i+4, 8i to 8i+8 or i to i+1, by type, and divided by the norm unless the vector is zero |
| BruteForceLaws.SameIndexIff | crates/mnem-ann/src/hnsw.rs:193-236 | from one cursor without a fault, the two builds hold the same dimension, ids and points if and only if no row of the brute-force one is tombstoned, of the system, or stored as F16 or I8 |
| BruteForceLaws.OthersAreNeverOffered | crates/mnem-ann/src/hnsw.rs:193-231 | such a row is among no candidates |
| BruteForceLaws.SearchesAgreeIff | crates/mnem-ann/src/hnsw.rs:556-602 | over distinct nodes and without a zero vector indexed, the two searches return the same if and only if the two indexes have one dimension and all of the brute-force answer is among the first k candidates, or within the search width |
| RealVectors.UnitDistance | crates/mnem-ann/src/hnsw.rs:82-94 | for unit vectors the squared distance is two minus twice the dot product |
| RealVectors.UnitDotBounds | crates/mnem-ann/src/hnsw.rs:585-591 | the dot product of unit vectors lies between -1 and 1 |
| Bytes.ManyReadBack | crates/mnem-ann/src/hnsw.rs:395-408 | a counted run of items reads back whatever follows it, if single items do |
| Bytes.ManyRefuseCut | crates/mnem-ann/src/hnsw.rs:509-535 | a counted run cut short is refused, if single items are |
| Bytes.ByteReader.ReadExact | crates/mnem-ann/src/hnsw.rs:444-475 | reads n bytes and advances past them, or fails when fewer are left |
| IndexFile.SaveToPath | crates/mnem-ann/src/hnsw.rs:343-414 | field by field the writer appends the specified file: magic, version, id, model, dimension, three ignored slots, count, ids, vectors |
| IndexFile.LoadFromPath | crates/mnem-ann/src/hnsw.rs:430-544 | field by field the cursor reader computes the specified parse: error, ignored for another operation id, or an index and what is left |
| IndexFileLaws.SavedFileLoads | crates/mnem-ann/src/hnsw.rs:343-544 | a saved file loads to the same model, dimension, ids and vector bits, consuming exactly what was written; under another operation id it is ignored |
| IndexFileLaws.CutFileFails | crates/mnem-ann/src/hnsw.rs:430-544 | every strict prefix of a saved file is an error under its operation id |
| IndexFileLaws.LoadedIff | crates/mnem-ann/src/hnsw.rs:430-544 | the reader accepts exactly the bytes of a well-formed index, up to the ignored slots and the spelling of the operation id |
| IndexFileLayout.StartLayout | crates/mnem-ann/src/hnsw.rs:353-364 | a file starts with the bytes MNEMHNSW and 1, 0, 0, 0; then the length of the operation id in four bytes, and the id |
| IndexFileLayout.BodyLayout | crates/mnem-ann/src/hnsw.rs:366-372 | then the length of the model in four bytes, and the model |
| IndexFileLayout.TailLayout | crates/mnem-ann/src/hnsw.rs:374-411 | then the dimension in four bytes, 24 bytes of slots, the number of rows in eight, and the rows |
| IndexFileLayout.SlotsLayout | crates/mnem-ann/src/hnsw.rs:385-390 | the slots hold the search width twice, and zero |
| IndexFileLayout.FileRows | crates/mnem-ann/src/hnsw.rs:392-411 | all ids come first, then all vectors |
| IndexFileLayout.IdAt | crates/mnem-ann/src/hnsw.rs:397-401 | each id takes 16 bytes |
| IndexFileLayout.ComponentAt | crates/mnem-ann/src/hnsw.rs:403-408 | each component takes four bytes, vector after vector |
| IndexFileLayout.LeByteAt | crates/mnem-ann/src/hnsw.rs:356-411 | integers are written least significant byte first |
| IndexFileLayout.IgnoredIff | crates/mnem-ann/src/hnsw.rs:443-475 | a file is ignored, rather than an error, exactly when its first eight bytes are others, or its version is, or its operation id can be read and is another |
| OpHeads.RedbOpHeadsStore.Current | crates/mnem-backend-redb/src/op_heads.rs:39-51 | returns the heads, each once, in ascending order |
| OpHeads.RedbOpHeadsStore.Update | crates/mnem-backend-redb/src/op_heads.rs:53-67 | inserts the operation, then deletes the superseded ones, in one step |
| OpHeads.HeadCount | crates/mnem-backend-redb/src/op_heads.rs:53-67 | an update adds at most one head, and leaves only the new one exactly when it supersedes all others and not itself |
| OpHeads.StepKeepsInv | crates/mnem-core/src/repo/transaction.rs:1043-1053 | every step of every writer keeps: parents published before children, heads published, and no childless operation outside the heads |
| OpHeads.RunKeepsInv | crates/mnem-core/src/repo/readonly.rs:80-140 | the invariant holds in every interleaving of initialising, opening, merging and committing |
| OpHeads.ChildrenAfterPublish | crates/mnem-core/src/repo/transaction.rs:1050-1053 | publishing makes children of exactly the operations named as parents |
| OpHeads.HistoryIsAcyclic | crates/mnem-backend-redb/src/op_heads.rs:53-67 | in every run no chain of parent links returns to its start |
| OpHeads.NoOperationIsLost | crates/mnem-backend-redb/src/op_heads.rs:126-135 | whatever was published at any time is a head or an ancestor of one at every later time, in every interleaving of the repository layer's writers (initialise, open, merge, commit, move a ref); pushes are in HeadUpdates |
| HeadUpdates.WriteLosesNothingIff | crates/mnem-core/src/store/op_heads.rs:34-46 | an update with any superseded entries loses nothing exactly when each superseded head is reachable from a head that remains, the new entry included |
| HeadUpdates.RunLosesNothingIff | crates/mnem-core/src/store/op_heads.rs:34-46 | in every interleaving of all writers of the table, nothing is lost at any time exactly when every update covers what it supersedes |
| HeadUpdates.OnlyOthersLose | crates/mnem-http/src/routes/remote.rs:494-503 | where repository writers and others interleave, that depends on the others' updates only |
| HeadUpdates.RepositoryRun | crates/mnem-core/src/repo/transaction.rs:1050-1053 | the steps of the repository layer are such updates, with the same heads and entries, each superseding parents of its entry |
| HeadUpdates.RepositoryRunLosesNothing | crates/mnem-backend-redb/src/op_heads.rs:126-135 | and they lose nothing at any time |
| RemotePush.IsAncestorOf | crates/mnem-http/src/routes/remote.rs:520-553 | the breadth-first search says no exactly when the commit does not descend along commit parents and no block on the way is unreadable; it says yes only of a descendant |
| RemotePush.PostAdvanceHead | crates/mnem-http/src/routes/remote.rs:351-511 | a push goes through, replacing the claimed head, exactly when that head is there (or none is, and none is claimed) and it is no commit, or an ancestor along commits, or the search for it meets an unreadable block; else nothing changes |
| RemotePush.PushWithoutOldCovers | crates/mnem-http/src/routes/remote.rs:424-434 | a push to an empty table loses nothing |
| RemotePush.PushKeepsHistoryIff | crates/mnem-http/src/routes/remote.rs:494-503 | a push loses nothing exactly when the replaced head is an ancestor of the new entry, another one, or of another head |
| RemotePush.CheckedPushIff | crates/mnem-http/src/routes/remote.rs:449-492 | a push for which the search finds the head loses nothing unless it replaces by itself a head that no other head descends from |
| RemotePush.AcceptedPushIff | crates/mnem-http/src/routes/remote.rs:449-502 | a push that is let through loses something if and only if no other head descends from the old one and: it is replaced by itself, or it is no commit and no ancestor of the new entry, or it is a commit and no ancestor and the search met an unreadable block |
| RemotePush.UnreadableParentLosesHead | crates/mnem-http/src/routes/remote.rs:486-490 | such an input: the new entry's parent cannot be read, the push is let through, and a head it does not descend from is lost |
| RemotePush.PushingTheHeadRemovesIt | crates/mnem-http/src/routes/remote.rs:520-533 | replacing a head by itself passes the ancestry check and removes the head |
| RemotePush.FirstPushLosesRoot | crates/mnem-http/src/routes/remote.rs:459-463 | the first push after initialisation skips the check, and the root operation is no longer reachable from any head |
| RemotePush.SomeFirstPush | crates/mnem-http/src/routes/remote.rs:459-463 | a run of two updates with that effect |
| OpHeads.HeadsStayExactIff | crates/mnem-core/src/repo/merge.rs:112-128 | publishing keeps the heads equal to the childless operations exactly when the operation has no child yet |
| OpHeads.HeadsAreChildless | crates/mnem-backend-redb/src/op_heads.rs:53-67 | with fresh operation ids the heads are exactly the childless operations throughout |
| OpHeadRaces.StaleMergeReturns | crates/mnem-core/src/repo/merge.rs:112-128 | from every state in which two writers know the same heads, a merge can be published again after it got a child, and is then a head with a child |
| OpHeadRaces.LinearizeDoesNotSerialise | crates/mnem-core/src/repo/transaction.rs:1043-1053 | from every single-headed state two writers can pass the linearize check and leave two heads |
| OpHeadRaces.SingleHeadIff | crates/mnem-core/src/repo/transaction.rs:1043-1053 | a commit leaves one head exactly when no head but its base exists when it publishes |
| OpHeadRaces.SharedHistoryIff | crates/mnem-core/src/repo/readonly.rs:80-110 | all operations pairwise share an ancestor exactly when the repository was initialised once |
| Lca.AncestorsInclusive | crates/mnem-core/src/repo/lca.rs:122-137 | the stack walk returns exactly the operations reachable by parent links, or a missing one among them, and succeeds exactly when none is missing |
| Lca.FindLcaMany | crates/mnem-core/src/repo/lca.rs:74-115 | over acyclic histories: nothing for no heads or disjoint heads, else the smallest id among the lowest common ancestors; never the panic |
| Lca.LcaIsUnique | crates/mnem-core/src/repo/lca.rs:46-60 | the answer depends on the set of heads only, not on order or repetition |
| Lca.SomeCommonIsLowest | crates/mnem-core/src/repo/lca.rs:95-115 | a non-empty set of common ancestors has a lowest member |
| Lca.RunHistory | crates/mnem-core/src/repo/merge.rs:100-104 | every history the writers can produce is acyclic and complete |
| Lca.OpeningFindsAncestor | crates/mnem-core/src/repo/merge.rs:100-104 | in a repository initialised once, the common-ancestor error never arises, in any interleaving and for any published heads |
| Blockstore.RedbBlockstore.Has | crates/mnem-backend-redb/src/blockstore.rs:36-41 | true exactly when the identifier is stored |
| Blockstore.RedbBlockstore.Get | crates/mnem-backend-redb/src/blockstore.rs:43-68 | absent when not stored; the stored bytes when their SHA2-256 (code 0x12) or BLAKE3-256 (code 0x1e) digest is the one in the identifier, or the code is another; else corruption, naming the identifier with the right digest |
| Blockstore.RedbBlockstore.Put | crates/mnem-backend-redb/src/blockstore.rs:70-92 | stores the block exactly when its digest fits in that sense; else it reports the claimed and the right identifier, of the same codec and code, and changes nothing |
| Blockstore.RedbBlockstore.PutTrusted | crates/mnem-backend-redb/src/blockstore.rs:94-108 | stores the block unchecked |
| Blockstore.RedbBlockstore.BatchPut | crates/mnem-backend-redb/src/blockstore.rs:110-134 | succeeds exactly when every digest fits; then the last block of each identifier is stored and every other identifier is as it was; else the first mismatch is reported and nothing changed |
| Blockstore.RedbBlockstore.Delete | crates/mnem-backend-redb/src/blockstore.rs:136-145 | removes the block, if there is one, and no other |
| Blockstore.RedbBlockstore.AllCids | crates/mnem-backend-redb/src/blockstore.rs:147-160 | lists every stored identifier once |
| BlockstoreLaws.NeverCorruptIff | crates/mnem-backend-redb/src/blockstore.rs:48-68 | no read reports corruption exactly when every stored block checks |
| BlockstoreLaws.ReadsAgree | crates/mnem-core/src/store/blockstore.rs:93-103 | reads of one identifier with a known hash from any two stores return the same bytes, or exhibit a collision |
| BlockstoreLaws.CorruptionHasACulprit | crates/mnem-core/src/store/blockstore.rs:35-59 | after any run a corrupt block was there at the start, or a trusted write of exactly those bytes is in the run |
| BlockstoreLaws.StaysVerifiedIff | crates/mnem-core/src/store/blockstore.rs:105-136 | every table along a run verifies exactly when every trusted write keeps its contract |
| BlockstoreLaws.BatchIsPutEachIff | crates/mnem-core/src/store/blockstore.rs:196-229 | a batch answers as putting one by one; it leaves the same table exactly when it succeeds or the blocks before the first bad one were already there |
| BlockstoreLaws.PutsCommuteIff | crates/mnem-backend-redb/src/blockstore.rs:70-92 | two puts commute unless both succeed with different bytes under one identifier |
| BlockstoreLaws.OrderIsIrrelevantIff | crates/mnem-backend-redb/src/blockstore.rs:110-134 | every permutation of a batch leaves the same table exactly when no identifier comes with two contents |
| BlockstoreLaws.VerifiedBatchesAreSets | crates/mnem-backend-redb/src/blockstore.rs:110-134 | for known hashes a successful batch may come in any order exactly when no two of its blocks collide |
| BlockWalk.ReachableIter.constructor | crates/mnem-core/src/store/blockstore.rs:252-265 | the walk starts with the root on the stack and seen |
| BlockWalk.ReachableIter.Next | crates/mnem-core/src/store/blockstore.rs:267-309 | one step pops a block, yields it or an error that ends the walk, and pushes its unseen links |
| BlockWalk.ReachableIter.PushUnseen | crates/mnem-core/src/store/blockstore.rs:289-301 | the reversed loop over the links claims each unseen one once |
| BlockWalk.AdvanceShrinks | crates/mnem-core/src/store/blockstore.rs:267-309 | every visit leaves fewer stored blocks to visit, so a walk ends even on cyclic links |
| BlockWalkLaws.AdvanceKeepsInv | crates/mnem-core/src/store/blockstore.rs:267-309 | a step yields a reachable block not visited before and keeps: seen is visited or pending, pending once, and visited blocks link to nothing unseen |
| BlockWalkLaws.IsLinkMeans | crates/mnem-core/src/store/blockstore.rs:279-301 | a block links to another exactly when it is stored with a fitting digest, has codec 0x71, and its bytes decode to links that name the other |
| BlockWalkLaws.FetchMeans | crates/mnem-core/src/store/blockstore.rs:267-309 | not found exactly when not stored, corrupt exactly when the digest does not fit, undecodable exactly when it fits, the codec is 0x71 and the bytes do not decode; else the stored bytes |
| BlockWalkLaws.WalkIsReachabilityIff | crates/mnem-core/src/store/blockstore.rs:154-177 | a walk yields every reachable block exactly once if and only if all of them can be read; else it ends with an error naming a reachable block that cannot |
| BlockWalkLaws.WalkFrame | crates/mnem-core/src/store/blockstore.rs:154-177 | a walk depends on no block but those it names |
| BlockWalkOrder.OrderlyWalkIsDepthFirst | crates/mnem-core/src/store/blockstore.rs:154-158 | a walk yields exactly what a depth-first search yields, in that order, when after every visit the same blocks wait in the same order |
| BlockWalkOrder.LinkedOnceWalkIsDepthFirst | crates/mnem-core/src/store/blockstore.rs:154-158 | a walk yields exactly what a depth-first search yields, errors included, if no block it can reach, but for the root, is linked twice |
| BlockWalkOrder.FreshClaim | crates/mnem-core/src/store/blockstore.rs:292-300 | links that are new, or the root, are stacked in the order in which the search will come to them |
| BlockWalkOrder.SomeWalkRejoins | crates/mnem-core/src/store/blockstore.rs:154-158 | a concrete walk that falls out of step and is in depth-first order all the same: that condition is not necessary |
| BlockWalkOrder.WaitingLinkComesLate | crates/mnem-core/src/store/blockstore.rs:292-300 | a second link to a waiting block does not move it forward: the search visits it next, the walk after its earlier siblings |
| BlockWalkOrder.SomeWalkIsNotDepthFirst | crates/mnem-core/src/store/blockstore.rs:154-158 | a concrete store of four readable blocks whose walk is not in depth-first order |
| GarbageCollection.WalkRoot | crates/mnem-cli/src/commands/gc.rs:73-95 | collecting one walk gives exactly the root's reachable blocks, or an obstacle on the way |
| GarbageCollection.Mark | crates/mnem-cli/src/commands/gc.rs:73-95 | the blocks some root reaches, or a reachable block that cannot be read |
| GarbageCollection.CollectGarbage | crates/mnem-cli/src/commands/gc.rs:33-150 | aborts exactly when a reachable block is bad, before any deletion; a dry run changes nothing; a forced one leaves exactly the reachable blocks; the reported counts are right |
| GarbageCollection.CollectionKeepsWalks | crates/mnem-cli/src/commands/gc.rs:33-40 | every root's walk is the same, block for block, before, during and after collection |
| GarbageCollection.CollectingTwice | crates/mnem-cli/src/commands/gc.rs:33-150 | a second collection finds everything reachable |
| Text.Find | crates/mnem-cli/src/integrate.rs:1310-1312 | the first occurrence of a marker, or none when it does not occur |
| PromptBlock.SystemPromptIsProper | crates/mnem-cli/src/integrate.rs:1050-1051 | the rules-file markers are non-empty, single-line, and the end marker cannot start inside the start marker |
| PromptBlock.JsonPromptIsProper | crates/mnem-cli/src/integrate.rs:755-756 | the same of the JSON markers |
| PromptBlock.NewRulesFile | crates/mnem-cli/src/integrate.rs:1303-1337 | what is written to an empty rules file |
| PromptBlock.NewField | crates/mnem-cli/src/integrate.rs:1201-1220 | what is written to an empty field |
| Text.TrimEndMeans | crates/mnem-cli/src/integrate.rs:1303-1308 | trimming cuts off exactly the characters that Unicode lists as white space |
| PromptBlock.EatBlanks | crates/mnem-cli/src/integrate.rs:1361-1370 | the loop cuts exactly the line breaks, spaces, carriage returns and tabs at the end of the head |
| PromptBlock.RemoveSystemPrompt | crates/mnem-cli/src/integrate.rs:1350-1380 | the removal with its loop computes the specified text |
| PromptLaws.MergeShape | crates/mnem-cli/src/integrate.rs:1302-1345 | both merges are: kept text before, the block, kept text after |
| PromptLaws.RemoveShape | crates/mnem-cli/src/integrate.rs:1350-1380 | both removals join the settled head with the tail, or return the text as it is when no block is located |
| PromptLaws.BlockIsLocated | crates/mnem-cli/src/integrate.rs:1310-1316 | a block behind text that cannot be taken for its markers is found where it was put, up to an end marker inside its body |
| PromptTheorems.LastWriterWinsIff | crates/mnem-cli/src/integrate.rs:1302-1345 | merging p2 after p1 equals merging p2 alone if and only if the file's markers are absent or in order and p1, trimmed, does not contain the end marker |
| PromptTheorems.MergeIsIdempotentIff | crates/mnem-cli/src/integrate.rs:1201-1221 | the same condition decides idempotence for both kinds of file with the program's own markers |
| PromptTheorems.EndFirstCase | crates/mnem-cli/src/integrate.rs:1310-1345 | with the end marker first each merge makes the file longer |
| PromptTheorems.StrayStartResult | crates/mnem-cli/src/integrate.rs:1310-1345 | with a start marker alone the second merge is the text before that marker, the block, and nothing else, unless the first prompt contained the end marker |
| PromptTheorems.StrayStartCase | crates/mnem-cli/src/integrate.rs:1310-1345 | with a start marker alone the second merge differs from a first |
| PromptDrift.MergeKeepsUserText | crates/mnem-cli/src/integrate.rs:1310-1330 | replacing a block keeps the text before its start and after its end but for at most one line break |
| PromptDrift.RemoveUndoesAppend | crates/mnem-cli/src/integrate.rs:1350-1380 | removing an appended block gives the text with its trailing blanks settled into one line break |
| PromptDrift.RemoveForgetsReplace | crates/mnem-cli/src/integrate.rs:1350-1380 | removing after replacing is removing the old block |
| PromptDrift.MergeThenRemoveIff | crates/mnem-cli/src/integrate.rs:1201-1245 | for both kinds of file and a prompt without the end marker: integrating and undoing restores a text if and only if it holds no marker and is empty or ends in one line break |
| PromptDrift.HistoryIsForgotten | crates/mnem-cli/src/integrate.rs:1201-1243 | after any history of integrates and unintegrates, with any harmless prompts, a marker-free file is the original or the settled text with at most the last prompt's block |
| HookLists.PlaceEntry | crates/mnem-cli/src/integrate.rs:1898-1911 | the loop replaces the first owned entry or appends, and says whether that changed anything |
| HookLists.Retain | crates/mnem-cli/src/integrate.rs:1929-1931 | keeps exactly the entries of others, in order |
| HookLists.PlacingKeepsForeign | crates/mnem-cli/src/integrate.rs:1898-1911 | a set keeps the entries of others in order and contains the new entry; the number of owned entries does not change, unless it was zero |
| HookLists.PlacingReplacesFirst | crates/mnem-cli/src/integrate.rs:1898-1911 | a set appends, or changes the first owned entry and no other position, owned or not |
| HookLists.DroppingKeepsPartsIff | crates/mnem-cli/src/integrate.rs:1929-1931 | dropping the owned entries keeps every part of all entries exactly when no owned entry has one |
| HookLists.PlacingTwiceIff | crates/mnem-cli/src/integrate.rs:1898-1911 | a second set changes nothing exactly when the written entry is recognised as owned |
| HookLists.PlacingIsIdempotent | crates/mnem-cli/src/integrate.rs:1898-1911 | for a recognised entry a repeated set changes nothing and says so, from any list |
| HookLists.ReplacingAll | crates/mnem-cli/src/integrate.rs:1694-1703 | dropping the owned entries and appending one leaves exactly one owned and the others in order |
| HookLists.HistoryKeepsForeign | crates/mnem-cli/src/integrate.rs:1678-1745 | over any sequence of sets and removes the entries of others never change |
| Json.SetThenGet | crates/mnem-cli/src/integrate.rs:1171-1196 | a set on a blocked path changes nothing; on any other path a get returns the value |
| Json.SetLeavesOthers | crates/mnem-cli/src/integrate.rs:1171-1196 | gets at paths that do not extend the written one are unchanged |
| Json.GetThenSet | crates/mnem-cli/src/integrate.rs:1171-1196 | setting what a get returned changes nothing |
| Json.SetThenSet | crates/mnem-cli/src/integrate.rs:1171-1196 | the last set wins |
| Json.ForceThenLookup | crates/mnem-cli/src/integrate.rs:2424-2441 | a server entry is there after being set, and setting it again changes nothing |
| Json.ForceLeavesOthers | crates/mnem-cli/src/integrate.rs:2424-2441 | everything neither above nor below the written path survives; the values above are the subject of ForceLosesNothingIff |
| Json.ForceLosesNothingIff | crates/mnem-cli/src/integrate.rs:2424-2441 | every value that is not an object, and not at or below the written path, is kept if and only if nothing but objects is on the way |
| Json.BlockedAt | crates/mnem-cli/src/integrate.rs:2424-2433 | otherwise the first such value on the way is overwritten by an object |
| Json.WithoutThenLookup | crates/mnem-cli/src/integrate.rs:2443-2454 | an entry is gone after removal, and removing a missing one changes nothing |
| Json.SetThenWithoutIff | crates/mnem-cli/src/integrate.rs:1247-1292 | on an open path, setting a string and removing it restores the tree exactly when its container was there and nothing was at its place |
| Json.ForceThenWithoutIff | crates/mnem-cli/src/integrate.rs:2424-2454 | setting and removing an entry restores the tree exactly when its container was there and the entry was not |
| HostConfig.ConfigDocument.WirePrompt | crates/mnem-cli/src/integrate.rs:1113-1166 | afterwards the field reads as the merged text; or the document is unchanged, because the merge changes nothing, which is reported, or because the path is blocked, which is not; strings elsewhere are as they were |
| HostConfig.ConfigDocument.RemoveField | crates/mnem-cli/src/integrate.rs:1274-1284 | for paths of one and two keys, the field is removed and nothing else |
| HostConfig.ConfigDocument.UndoPrompt | crates/mnem-cli/src/integrate.rs:1247-1292 | a change is reported exactly when there was a block; the field then reads as the rest, or is gone when only blanks are left |
| HostConfig.ConfigDocument.SetTopLevel | crates/mnem-cli/src/integrate.rs:2424-2441 | the entry mcpServers.mnem is set, and a change is reported exactly when it was not there already |
| HostConfig.ConfigDocument.RemoveTopLevel | crates/mnem-cli/src/integrate.rs:2443-2454 | the entry mcpServers.mnem is removed, and a change is reported exactly when it was there |
| HostConfig.ConfigDocument.SetZedNested | crates/mnem-cli/src/integrate.rs:2462-2486 | the same for experimental.context_servers.mnem |
| HostConfig.ConfigDocument.RemoveZedNested | crates/mnem-cli/src/integrate.rs:2488-2500 | the same for removing experimental.context_servers.mnem |
| HostConfig.ConfigDocument.SetUserPromptHook | crates/mnem-cli/src/integrate.rs:1879-1911 | the list hooks.UserPromptSubmit receives the entry in place of the first owned one or at the end, containers being made or replaced on the way; a change is reported exactly when the document changes |
| HostConfig.ConfigDocument.RemoveUserPromptHook | crates/mnem-cli/src/integrate.rs:1913-1932 | the owned entries are dropped, and a change is reported exactly when the document changes |
| HostConfig.ConfigDocument.SetHermesHookPhase | crates/mnem-cli/src/integrate.rs:1678-1707 | refuses anything that is not a list or mapping where one belongs, changing nothing; else drops owned entries and appends one |
| HostConfig.ConfigDocument.SetHermesHooks | crates/mnem-cli/src/integrate.rs:1709-1713 | both phases, stopping at the first refusal |
| HostConfig.ConfigDocument.RemoveHermesHookPhase | crates/mnem-cli/src/integrate.rs:1715-1739 | drops the owned entries, and the key when the list is empty |
| HostConfigLaws.WiringSettlesIff | crates/mnem-cli/src/integrate.rs:1113-1166 | a second run finds the prompt in place exactly when the path is not blocked, the text's markers are absent or in order and the prompt does not contain the end marker |
| HostConfigLaws.ServerEntryLosesNothingIff | crates/mnem-cli/src/integrate.rs:2424-2486 | setting a server entry overwrites a value of the user exactly when the root or a container of the entry is something other than an object |
| HostConfigLaws.HookSetLosesNothingIff | crates/mnem-cli/src/integrate.rs:1879-1911 | setting the hook overwrites one exactly when the root or the hooks are something other than an object, or the hook list something other than a list |
| HostConfigLaws.HermesSetLosesNothing | crates/mnem-cli/src/integrate.rs:1678-1707 | a Hermes set that does not refuse overwrites nothing on the way |
| HostConfigLaws.WireThenUndoRestoresIff | crates/mnem-cli/src/integrate.rs:1113-1292 | for every document and path, and a prompt without the end marker: integrating and undoing restores the document if and only if the path is blocked, or the container is there and the field is not, or the field is a text that is not blank, holds no marker and ends in one line break |
| HostConfigLaws.WireThenUndoRestores | crates/mnem-cli/src/integrate.rs:1247-1292 | integrating into a container without the field and undoing restores the document and reports a change, for a path of any length |
| HostConfigLaws.ContainerStaysBehind | crates/mnem-cli/src/integrate.rs:1275-1283 | an empty document with a nested field: the container made on the way stays behind, empty |
| HostConfigLaws.OtherValueIsGone | crates/mnem-cli/src/integrate.rs:1113-1292 | a value at the field that is not a string is overwritten, and after undoing nothing is there |
| HostConfigLaws.HookCommandIsOurs | crates/mnem-cli/src/integrate.rs:2323-2344 | the written Unix command is recognised as owned whatever the directory of the program, quotes in it included |
| HostConfigLaws.HookValueIsOurs | crates/mnem-cli/src/integrate.rs:1936-1955 | so is the whole hook entry |
| HostConfigLaws.OtherHooksSurvive | crates/mnem-cli/src/integrate.rs:1879-1932 | over any history of sets and removes on a document the entries that are not owned stay, in order |
| HookOwnership.RemovedKeepsOthersIff | crates/mnem-cli/src/integrate.rs:1913-1955 | a removal keeps the hooks of other tools exactly when no entry lists one of ours beside one of theirs |
| HookOwnership.OtherHooksSurviveIff | crates/mnem-cli/src/integrate.rs:1879-1955 | every history of sets and removes keeps the hooks of other tools, in order, exactly under that condition |
| HostConfigLaws.RepeatedHookSet | crates/mnem-cli/src/integrate.rs:1879-1911 | a repeated set reports no change and leaves the document equal |
| HostConfigLaws.HermesPhaseSet | crates/mnem-cli/src/integrate.rs:1678-1707 | after a successful set the phase has exactly one owned entry and the others in order, no other phase changed, and a change was reported exactly when made |
| HostConfigLaws.HermesHooksSet | crates/mnem-cli/src/integrate.rs:1709-1713 | after setting both phases each has exactly one owned entry, and setting them again reports no change |
| HostConfigLaws.HermesRemoveReports | crates/mnem-cli/src/integrate.rs:1715-1739 | a removal edits the tree while reporting no change exactly when the phase holds an empty list |
| HostConfigLaws.HermesPhaseRemoved | crates/mnem-cli/src/integrate.rs:1715-1739 | after a removal the phase holds exactly the entries of others |
| HookContents.OwnedIff | crates/mnem-cli/src/integrate.rs:1934-1955 | an entry is owned exactly when one of its hooks has a command that, quotes removed, contains mnem retrieve, mnem.exe retrieve or mnem-hook.ps1 |
| HookContents.HermesOwnedIff | crates/mnem-cli/src/integrate.rs:1656-1676 | a Hermes entry is owned exactly when its command is that of a phase, or an older spelling |
| HookContents.StripChar | crates/mnem-cli/src/integrate.rs:1945-1950 | exactly the single and double quotes are removed |
| HookContents.EscapedChar | crates/mnem-cli/src/integrate.rs:2336-2343 | a double quote in the path of the program gets a backslash, no other character does |
| HookContents.HookValueText | crates/mnem-cli/src/integrate.rs:2348-2360 | the entry matches every prompt and lists one hook, the command |
| HookContents.HermesHooksWritten | crates/mnem-cli/src/integrate.rs:1639-1654 | after both phases are set, the list of each ends in the command of that phase, with a timeout of 30 |
| HookContents.HermesHooksReport | crates/mnem-cli/src/integrate.rs:1709-1713 | setting both phases reports a change exactly when the document changes |
| HookContents.HermesRefusesIff | crates/mnem-cli/src/integrate.rs:1614-1696 | a set is refused exactly when the root or the hooks are there and no mapping, or the phase is there and neither a list nor null |
| Fnv.Fnv1a | crates/mnem-bench/src/embed.rs:123-130 | the loop computes FNV-1a; of no bytes, the 64-bit offset basis |
| Fnv.Fnv1aSeeded | crates/mnem-bench/src/embed.rs:134-141 | the loop computes it from the basis mixed with the seed |
| Fnv.HashSnoc | crates/mnem-bench/src/embed.rs:123-130 | each further byte is mixed in before multiplying by 0x100000001b3 modulo 2^64 |
| Fnv.HashOfA | crates/mnem-bench/src/embed.rs:123-130 | the hash of the text a is af63dc4c8601ec8c |
| Fnv.XorBit | crates/mnem-bench/src/embed.rs:126-127 | each bit of an exclusive or says whether the two bits differ |
| Fnv.HashingIsABijection | crates/mnem-bench/src/embed.rs:123-141 | for every byte string, hashing is a bijection of the 64-bit starting states |
| Fnv.HashesAgreeIff | crates/mnem-bench/src/embed.rs:134-141 | the plain and the seeded hash of a string agree exactly for the zero seed |
| Fnv.TokenHashesDiffer | crates/mnem-bench/src/embed.rs:81-82 | the two hashes of a token never coincide |
| Utf8.FloorBoundary | crates/mnem-bench/src/embed.rs:111-114 | the loop finds the largest character boundary at or below the limit |
| Utf8.CutKeepsWholeCharacters | crates/mnem-bench/src/embed.rs:110-115 | cutting there keeps the longest run of whole characters that fits |
| Utf8.EncodeCharSpells | crates/mnem-bench/src/embed.rs:81-82 | a character can be read back from its bytes, one to four by its size |
| Embedder.ComputeTokens | crates/mnem-bench/src/embed.rs:105-120 | the split, filter and truncation loop computes the specified tokens (of one word: EmbedderLaws.TokeniseWord; of joined texts: EmbedderLaws.TokeniseConcat) |
| Embedder.ToyEmbedder.EmbedText | crates/mnem-bench/src/embed.rs:73-99 | the fresh vector holds the normalised bucket counts of the tokens |
| Embedder.CountTokens | crates/mnem-bench/src/embed.rs:77-85 | the counting loop adds one to two buckets for each token (which: EmbedderLaws.BucketsMean) |
| EmbedderLaws.BucketsMean | crates/mnem-bench/src/embed.rs:81-84 | the buckets of a token are its FNV-1a hashes from the offset basis, and from the basis mixed with 9E3779B97F4A7C15, modulo the dimension |
| EmbedderLaws.CountOfOne | crates/mnem-bench/src/embed.rs:83-84 | one token adds one to each of its buckets, two if they are the same |
| EmbedderLaws.TokeniseConcat | crates/mnem-bench/src/embed.rs:105-120 | texts joined by a separator have the tokens of the parts, in order |
| EmbedderLaws.TokeniseWord | crates/mnem-bench/src/embed.rs:105-120 | a word of fewer than two bytes has no token; any other has one, the longest run of whole characters of its lowered form within 64 bytes |
| EmbedderLaws.ShortenKeepsWholeCharacters | crates/mnem-bench/src/embed.rs:109-117 | a token is the longest run of whole leading characters of the lowered word within 64 bytes |
| EmbedderLaws.CountsAdd | crates/mnem-bench/src/embed.rs:73-85 | bucket counts of joined texts are the sums of the counts |
| EmbedderLaws.EmbeddingIgnoresOrder | crates/mnem-bench/src/embed.rs:73-99 | texts with the same bag of tokens have the same embedding |
| EmbedderLaws.CountsSumToTwicePerToken | crates/mnem-bench/src/embed.rs:77-85 | the buckets hold exactly two units per token |
| EmbedderLaws.EmbeddingIsUnitIff | crates/mnem-bench/src/embed.rs:87-99 | the embedding has length one exactly when there is a token; else it is zero |
| EmbedderLaws.NormalisedMeans | crates/mnem-bench/src/embed.rs:87-97 | every count is divided by the norm, unless that is zero |
| Rerank.LlmRerank | benchmarks/harness/adapters/longmemeval_session.py:116-181 | without an answer nothing moves; with one, the first min(pool, n) results are the candidates of the head by first mention, numbers at or above the pool ignored and those not mentioned last in their own order; those at or past the pool stay where they are |
| Rerank.OrderOf | benchmarks/harness/adapters/longmemeval_session.py:169-179 | the two loops: numbers in range at their first mention, then what was skipped |
| Rerank.OrderIsByFirstMention | benchmarks/harness/adapters/longmemeval_session.py:169-180 | every index of the head once: those mentioned by first mention, then the others in their own order |
| Rerank.FirstMentionOrderIsUnique | benchmarks/harness/adapters/longmemeval_session.py:169-180 | no other order has that property |
| Rerank.NothingIsLost | benchmarks/harness/adapters/longmemeval_session.py:169-181 | whatever the model answers, the result permutes the candidates, and every position at or past the pool holds what it held |
| Rerank.NothingMovesIff | benchmarks/harness/adapters/longmemeval_session.py:169-180 | the order is the original one exactly when the numbers in range are first mentioned as 0, 1, 2 and so on |

## Left out

- BlockWalkOrder.OrderlyWalkIsDepthFirst: one direction only, under a condition read off the walk itself; `BlockWalkOrder.SomeWalkRejoins` shows that it is not necessary.
- BlockWalkOrder.LinkedOnceWalkIsDepthFirst: one direction only; a block linked twice leaves the order as it is when the links happen to name the blocks that come next.
- HostConfigLaws.WireThenUndoRestoresIff: does not cover a prompt that contains the end marker; the program's own prompts do not.
- Allocation failures: reserving room for an absurd point count from a damaged index file panics in the program, and is an ordinary parse error here.
- IEEE 754 rounding, infinities and NaN: similarities and scores are exact reals, so the branches taken for incomparable scores and for narrowing casts that round to zero are not modelled.
- The instant-distance graph and its recall: a search receives a list of candidate ordinals with their true distances; ids of nodes are numbers in the index model and 16 bytes in the file model.
- Files, locks, backups, atomic renames, JSON and YAML parsing and printing, dry runs: a file is a byte or character sequence, a document a tree.
- redb transactions, disk errors and durability: a write transaction is one atomic step; the key of a stored head or block is its content id, so the error for an unparsable key is not modelled.
- SHA-256, BLAKE3, content-id and UTF-8 codecs, DAG-CBOR: parameters; the file theorems ask only that parsing a content id undoes writing it.
- Merging of views and commits, prolly trees, transactions beyond the linearize check and the update of the heads, compare-and-swap on refs, the memoising ancestor cache: other state than the one modelled.
- Sorting and deduplicating the roots of a garbage collection, and deletions that fail one by one: `KeepsLive` covers every partial result.
- KnnOrder.EdgesIgnoreCursorOrder: does not cover orders that change which embedding comes first with another dimension, because the build then indexes other nodes.
- OpHeads.NoOperationIsLost: does not cover the push endpoint, which can supersede a head that the new entry does not name; `HeadUpdates.RunLosesNothingIff` covers every writer and says exactly which updates lose something.
- The lock that serialises pushes in one server process, authentication, and the metrics of the push endpoint: a push is one step.
- HostConfigLaws.HookCommandIsOurs: does not cover the Windows command, which names a script file instead of the program.
- Quoting of paths in commands, the generated hook scripts, the older spellings of Hermes commands (a predicate), YAML mappings with keys that are not strings.
- Negative pool sizes in re-ranking and the reading of numbers out of the model's text.
- Option tables, environment lookups, prompts to the user, benchmark runners and HTTP adapters: they would only add easy members.
