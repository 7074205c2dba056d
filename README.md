# Storage and distribution utilities, modelled in Dafny

This project models three components of a small Python repository of
data-structure utilities and proves properties of the models.

- **`LSMTree`** (`lsm_tree/lsm_tree.py`) is a toy log-structured-merge key-value
  store, modelled in module `Lsm` (`lsm_tree.dfy`).
  - The memtable is a dictionary. When a write makes it hold as many keys as
    the size limit, it is flushed: appended as a new sstable to a chain kept
    oldest first.
  - `get` consults the memtable, then the sstables newest to oldest.
  - A delete writes the sentinel string `"<deleted>"`. A key holding the
    sentinel reads as absent, so a value that is literally `"<deleted>"` also
    reads as absent. The model keeps that sentinel rather than a tagged value.
  - `compact` folds the chain into at most one sstable without sentinels.
  - The class `Lsm.LSMTree` has the same fields as the source and updates them
    in place. Its methods are proved against the reference read `Lookup` and
    the reference compaction `Compacted`. The lemmas show that compaction and
    flushing leave every read unchanged.
- **`ConsistentHashRing`** (`consistent_hash/consistent_hashing.py`) is a hash
  ring with virtual nodes and replica selection, modelled in module `HashRing`
  (`consistent_hashing.dfy`).
  - Each node is placed at the hashes of its virtual keys `"node:0"`,
    `"node:1"`, and so on.
  - `get_node` returns the owner of the first point after the key's hash,
    wrapping round past the largest one.
  - `get_nodes_for_key` walks on from there, collecting distinct owners.
  - `bisect` and `insort` are modelled by the binary searches and insertions
    they perform.
  - The class keeps the source's `ring` map, `sorted_keys` list and `nodes`
    set. The proofs show that those three stay consistent: same points,
    sorted, every owner is a node, and every point is one of its owner's
    points.
  - `get_node` is proved to return the successor of the key's hash.
  - `get_nodes_for_key` is proved to return the first `replication_factor`
    distinct owners in clockwise order.
  - The SHA-256 hash is a parameter (`hash: string -> nat`). Nothing proved
    depends on which function it is.
- **`InvertedIndex`** (`inverted_index_tfidf/inverted_index.py`) is a term to
  document-id posting index, modelled in module `TextSearch`
  (`inverted_index.dfy`).
  - The tokenizer `text.lower().split()` is modelled exactly on ASCII text,
    and splits on Python's whitespace set. Lower-casing outside ASCII (for
    example `"É"`) is not modelled.
  - `add_document` stores the document and adds its id to each token's posting
    set, in a loop over the field.
  - `search` unions the posting sets of the query tokens, makes one hit of
    score 1.0 per document, and slices the list as `results[:max_results]`
    does, negative limits included.

`lsm_tree/lsm_tree.py` has no per-write sequence numbers, no tagged
tombstone, no range scan and no validation of the size limit, and neither
has the model. The newest table wins by its position in the chain, the
tombstone is the sentinel string, and any size limit is accepted; a limit of
0 or below makes every write flush.

`wrappers.dfy` holds the `Option` type used for Python's `None`.

## Model

| member | source | states |
|---|---|---|
| Lsm.MergeKeys | lsm_tree/lsm_tree.py:38-43 | the oldest-to-newest fold of the chain holds a key exactly when some sstable of the chain holds it |
| Lsm.LookupTablesReadsMerge | lsm_tree/lsm_tree.py:22-27 | reading the chain newest to oldest yields the value the oldest-to-newest fold holds for the key, with the sentinel read as absent, which is the read compaction must preserve |
| Lsm.CompactPreservesLookup | lsm_tree/lsm_tree.py:34-51 | for every memtable and key, the store reads the same after the chain is compacted as before |
| Lsm.CompactedShape | lsm_tree/lsm_tree.py:34-51 | compaction leaves at most one sstable; a chain of zero or one sstable is kept as it is; otherwise the new sstable has no sentinel and no key absent from the chain, and the chain becomes empty exactly when every merged value was the sentinel |
| Lsm.CompactIdempotent | lsm_tree/lsm_tree.py:34-51 | compacting twice gives the same chain as compacting once |
| Lsm.FlushPreservesLookup | lsm_tree/lsm_tree.py:53-57 | moving the memtable to the end of the chain and starting an empty one leaves every read unchanged |
| Lsm.LSMTree.constructor | lsm_tree/lsm_tree.py:7-10 | a new store has the given size limit (10 by default), an empty memtable and no sstables |
| Lsm.LSMTree.Put | lsm_tree/lsm_tree.py:12-15 | the value is written to the memtable, which is flushed, and only then, when it reaches the limit; afterwards the key reads as the value (absent if it is the sentinel) and every other key reads as before |
| Lsm.LSMTree.Get | lsm_tree/lsm_tree.py:17-27 | the result is the reference read: the memtable entry if any, otherwise the newest sstable holding the key, with the sentinel as absent |
| Lsm.LSMTree.Delete | lsm_tree/lsm_tree.py:29-32 | the sentinel is written with the same flush rule as a put; afterwards the key reads as absent and every other key reads as before |
| Lsm.LSMTree.Compact | lsm_tree/lsm_tree.py:34-51 | the chain becomes its reference compaction (unchanged when it has at most one sstable), the memtable is untouched, and every read is unchanged |
| Lsm.LSMTree.FlushMemtable | lsm_tree/lsm_tree.py:53-57 | an empty memtable changes nothing; otherwise it is appended to the chain and emptied, no empty sstable is ever stored, and every read is unchanged |
| HashRing.BisectRight | consistent_hash/consistent_hashing.py:77 | on a sorted list, the position returned has every element at most x before it and every element above x from it on |
| HashRing.BisectLeft | consistent_hash/consistent_hashing.py:123 | on a sorted list, the position returned has every element below x before it and every element at least x from it on |
| HashRing.InsortSorted | consistent_hash/consistent_hashing.py:59 | inserting x at its bisect_right position keeps the list sorted |
| HashRing.InsortAddsOne | consistent_hash/consistent_hashing.py:59 | the insertion adds exactly one copy of x to the list's multiset and no other element |
| HashRing.InsortStrict | consistent_hash/consistent_hashing.py:59 | inserting an x not yet in a strictly ascending list at its bisect_right position keeps it strictly ascending |
| HashRing.CutKeepsOrder | consistent_hash/consistent_hashing.py:121-125 | cutting the list between the bisect_left and bisect_right positions of x keeps it sorted (strictly, if it was), leaves no copy of x, and leaves every other value with exactly as many copies as before |
| HashRing.Clockwise | consistent_hash/consistent_hashing.py:77-80 | the ring points in clockwise order from a hash: those above it, then the rest; a rearrangement of all the points, each listed as often as in the sorted list |
| HashRing.SplitKeepsMultiset | consistent_hash/consistent_hashing.py:77-80 | the points above a hash and those at most it together make up the sorted list, as multisets |
| HashRing.ClockwiseIsRotation | consistent_hash/consistent_hashing.py:95-101 | on the sorted list, the clockwise order is the rotation at the bisect_right position, the order that `idx % len(sorted_keys)` walks through |
| HashRing.ClockwiseHeadIsSuccessor | consistent_hash/consistent_hashing.py:76-80 | the first point clockwise is the least point above the hash, or, when none is above it, the least point of all (the wrap-around) |
| HashRing.FirstOccurrencesSpec | consistent_hash/consistent_hashing.py:96-104 | keeping the first occurrence of each owner gives a list without repetitions that holds every owner met, beginning with the first one |
| HashRing.ReplicasSpec | consistent_hash/consistent_hashing.py:82-106 | the reference replica list has no repetitions, holds only owners, has length min(rf, number of owners) for positive rf and 0 otherwise, and begins with the owner that get_node returns |
| HashRing.WalkStep | consistent_hash/consistent_hashing.py:100-105 | one step of the walk visits the next point clockwise (`idx % len`) and appends its owner exactly when that owner was not found before |
| HashRing.WalkResult | consistent_hash/consistent_hashing.py:99-106 | when the walk stops, because rf replicas were found or as many as there are nodes, its list is the reference replica list |
| HashRing.CollectStep | consistent_hash/consistent_hashing.py:99-105 | while fewer owners are found than the ring has, the walk has not gone all the way round, and the owner at `idx % len` joins the replicas exactly when it is new |
| HashRing.CollectReplicas | consistent_hash/consistent_hashing.py:94-106 | the loop of get_nodes_for_key returns the first rf distinct owners met clockwise from the hash; it terminates because the ring has enough owners |
| HashRing.NatToStringDigits | consistent_hash/consistent_hashing.py:56 | `str(i)` is a non-empty string of decimal digits |
| HashRing.NatToStringInjective | consistent_hash/consistent_hashing.py:56 | different numbers give different numerals |
| HashRing.LastColon | consistent_hash/consistent_hashing.py:56 | in `f"{node}:{i}"` the colon after the node name is the last colon, since a numeral has none |
| HashRing.VirtualKeyInjective | consistent_hash/consistent_hashing.py:56 | `f"{a}:{i}"` equals `f"{b}:{j}"` only when a is b and i is j, whatever the node names contain |
| HashRing.ConsistentHashRing.DistinctNodesHaveDistinctPoints | consistent_hash/consistent_hashing.py:39-41 | with a hash that never collides, initial nodes of distinct names have pairwise distinct virtual points, so the constructor builds a ring without a repeated point |
| HashRing.CountBelow | consistent_hash/consistent_hashing.py:123 | bisect_left as a function: every element before the position is below x, and on a sorted list every element from it on is at least x |
| HashRing.StalePointAfterDoubleAdd | consistent_hash/consistent_hashing.py:121-125 | with a point listed twice, the removal step as written deletes it from the ring but leaves one copy in the sorted list |
| HashRing.RemovePointAsWritten | consistent_hash/consistent_hashing.py:121-125 | one turn of the removal loop as written: the point leaves the ring; when it was on the ring and listed, exactly one copy of it leaves the sorted list; otherwise the list is unchanged |
| HashRing.PopAtBisectLeft | consistent_hash/consistent_hashing.py:123-125 | on a sorted list holding the point, the bisect_left position holds the point, so the guarded pop removes exactly one copy of it |
| HashRing.AsWrittenSoundWithoutRepeats | consistent_hash/consistent_hashing.py:121-125 | on a list without repeated points, the removal step as written keeps the list strictly ascending and equal to the ring's points |
| HashRing.ConsistentHashRing.PointsMapSpec | consistent_hash/consistent_hashing.py:55-58 | the ring entries written for the first n virtual keys of a node are exactly the points of those keys, each owned by the node |
| HashRing.ConsistentHashRing.constructor | consistent_hash/consistent_hashing.py:19-41 | the new ring keeps the given parameters, is consistent, has the given nodes as its node set, maps exactly the points of the nodes' virtual keys, each to the node added last among those producing it (a later node overwrites a colliding point), lists each point as often as the nodes' virtual keys produce it (twice for a name given twice), and has no repeated point when no two virtual keys collide |
| HashRing.ConsistentHashRing.AddInitialNode | consistent_hash/consistent_hashing.py:40-41 | one turn of the constructor's loop: after adding node j, the node set is the first j+1 names, the ring map is the earlier map overwritten by node j's points, the list holds each point as often as those nodes' virtual keys produce it, and the ring stays consistent (and free of repeats when no virtual keys collide) |
| HashRing.ConsistentHashRing.FreshAfterPrefix | consistent_hash/consistent_hashing.py:39-41 | when no two virtual keys of the initial nodes collide, the next node added by the constructor has pairwise different points, none of them yet on the ring |
| HashRing.ConsistentHashRing.AddNode | consistent_hash/consistent_hashing.py:47-60 | the node joins the node set, every one of its virtual points is owned by it, the sorted list gains exactly those points (as a multiset), the ring stays consistent, and with fresh points no point is repeated |
| HashRing.ConsistentHashRing.PlacePoints | consistent_hash/consistent_hashing.py:55-59 | after the loop the ring is the old ring overwritten by the node's points, the ring stays consistent, and the sorted list is the old list plus those points |
| HashRing.ConsistentHashRing.PlacePoint | consistent_hash/consistent_hashing.py:56-59 | placing one more virtual point and inserting it at its bisect_right position extends what the loop has achieved by that point |
| HashRing.ConsistentHashRing.GetNode | consistent_hash/consistent_hashing.py:62-80 | None exactly for an empty ring or a None or empty key; otherwise the owner of the successor point of the key's hash, which is one of the nodes |
| HashRing.ConsistentHashRing.GetNodesForKey | consistent_hash/consistent_hashing.py:82-106 | [] for an empty ring or a factor of 0; otherwise the reference replica list: distinct nodes, min(factor, nodes) of them for a positive factor, beginning with get_node's owner |
| HashRing.ConsistentHashRing.RemoveNode | consistent_hash/consistent_hashing.py:108-126 | None changes nothing; otherwise the node leaves the node set, all its virtual points leave the ring, it owns nothing, the ring stays consistent, the sorted list keeps no copy of its points and every copy of every other point, and no point becomes repeated |
| HashRing.ConsistentHashRing.UnplacePoints | consistent_hash/consistent_hashing.py:118-125 | after the loop the ring is the old ring without the node's points, and the sorted list is the old list with every copy of those points cut out and every other point listed as often as before |
| HashRing.ConsistentHashRing.UnplacePoint | consistent_hash/consistent_hashing.py:119-125 | one turn of the loop keeps the removal invariant: the ring loses the point when it was on it, and the list loses every copy of it and no copy of any other point still on the ring |
| HashRing.ConsistentHashRing.RemovedCounts | consistent_hash/consistent_hashing.py:118-125 | once the loop has covered every virtual key, the list holds no copy of the node's points and every other point as often as before |
| HashRing.ConsistentHashRing.TakePoint | consistent_hash/consistent_hashing.py:121-125 | a point on the ring lies between its bisect_left and bisect_right positions, and cutting it out keeps the removal invariant |
| HashRing.ConsistentHashRing.Unowned | consistent_hash/consistent_hashing.py:117-125 | once none of its points is on the ring, the node owns nothing and may leave the node set |
| TextSearch.LowerChar | inverted_index_tfidf/inverted_index.py:39 | lower-casing a character turns each upper-case ASCII letter into the lower-case letter of the same place in the alphabet, keeps whitespace as whitespace, and changes nothing else |
| TextSearch.Lower | inverted_index_tfidf/inverted_index.py:39 | `str.lower()` keeps the length, turns every upper-case ASCII letter into its own lower-case letter at the same position, leaves no upper-case letter, keeps whitespace exactly where it was, and keeps every character that is not an upper-case letter |
| TextSearch.LowerIdempotent | inverted_index_tfidf/inverted_index.py:39 | lower-casing an already lower-cased text changes nothing |
| TextSearch.SplitTokensAreWords | inverted_index_tfidf/inverted_index.py:39 | every token split produces is non-empty and has no whitespace, and its characters come from the text |
| TextSearch.SplitKeepsEveryNonSpace | inverted_index_tfidf/inverted_index.py:39 | the tokens, written one after another, are exactly the text's non-whitespace characters in order |
| TextSearch.SplitEmptyIffBlank | inverted_index_tfidf/inverted_index.py:27-29 | a text has no tokens if and only if all of its characters are whitespace, the empty text included |
| TextSearch.SplitJoinSpaced | inverted_index_tfidf/inverted_index.py:39 | splitting the space-joined words of a list of non-empty whitespace-free words gives the list back |
| TextSearch.TokenizeSpec | inverted_index_tfidf/inverted_index.py:37-39 | the tokens are non-empty, have no whitespace and no upper-case letter, and there are none exactly when the text is blank |
| TextSearch.PostingsAfterAdd | inverted_index_tfidf/inverted_index.py:22-24 | posting a document under its tokens gives each token a posting set with the document added, and leaves every other term's posting set and the term set otherwise unchanged |
| TextSearch.AddKeepsOldPostings | inverted_index_tfidf/inverted_index.py:22-24 | adding a document never removes an id from a posting set, so re-adding a document keeps its old terms matching, and posts it under each of its new tokens |
| TextSearch.MatchesStep | inverted_index_tfidf/inverted_index.py:31-32 | taking one more query term adds its posting set to the matches |
| TextSearch.UnindexedQueryMatchesNothing | inverted_index_tfidf/inverted_index.py:31-32 | a query none of whose terms has a non-empty posting set matches no document |
| TextSearch.Hits | inverted_index_tfidf/inverted_index.py:34 | one hit of score 1.0 per matching document: as many hits as documents, no id twice, every document present |
| TextSearch.InvertedIndex.constructor | inverted_index_tfidf/inverted_index.py:15-17 | a new index has no documents and no postings |
| TextSearch.InvertedIndex.AddDocument | inverted_index_tfidf/inverted_index.py:19-24 | the document is stored under its id, replacing any earlier one, the index gains the id under every token of the content, and every posted id stays a stored document |
| TextSearch.InvertedIndex.Search | inverted_index_tfidf/inverted_index.py:26-35 | a blank query finds nothing; otherwise the hits have score 1.0, no id twice, only matching documents, each of them stored in the index, exactly as many as `results[:max_results]` keeps, and every match when the limit allows |
| TextSearch.TokenizeHelloWorld | inverted_index_tfidf/test_inverted_index.py:4-10 | the text of the single-document test tokenizes to `["hello", "world"]` |

## Left out

- The SHA-256 hash (consistent_hash/consistent_hashing.py:43-45) is a
  parameter of the ring. The 256-bit digest is not computed.
- HashRing.ConsistentHashRing.GetNodesForKey: its precondition requires the
  ring to hold at least min(factor, nodes) distinct owners. Without it the
  source loops forever, and termination cannot be proved. With a
  collision-free hash every node keeps its points, so only hash collisions
  can break this.
- HashRing.ConsistentHashRing.constructor: `nodes=None` is passed as the
  empty list. Python's truthiness test on `nodes` is otherwise the same.
- HashRing.ConsistentHashRing.AddNode: the loop is factored into the
  value-level method PlacePoints. AddNode assigns its results to the fields,
  so the in-place list updates are modelled as whole-value assignments.
  RemoveNode and UnplacePoints are split the same way.
- HashRing.ConsistentHashRing.RemoveNode and
  HashRing.ConsistentHashRing.UnplacePoints model the corrected removal.
  UnplacePoints, the loop, cuts out every copy of a point, where the source
  pops one (see Findings).
  The as-written step is HashRing.RemovePointAsWritten.
- HashRing.ConsistentHashRing.UnplacePoint: the loop body of the corrected
  removal. It cuts every copy of the point out of the sorted list, where
  lines 124-125 pop only the copy at the bisect_left position (see Findings).
- Lsm.LSMTree.FlushMemtable: the flushed sstable is the memtable map itself.
  A map has no order, so the key order of `dict(sorted(...))` is not
  represented. No operation of the store depends on that order.
- The `memtable` property (lsm_tree/lsm_tree.py:59-61) only exposes the
  field. The model's field `memtable` is public.
- TextSearch.LowerChar lower-cases the ASCII letters only. Unicode case
  mappings of `str.lower()` are not modelled.
- TextSearch.Hits: the score is the real number 1.0, not a Python float.
- TextSearch.InvertedIndex.Search: the order of the hits comes from set
  iteration in the source. It is left unspecified; the results are some
  order of the matches. Search requires the class invariant `Valid()`
  (every posted id is a stored document), which the constructor and
  AddDocument establish and keep, so every index the class builds meets it.
- The other parts of the repository are not part of this model:
  - the Streamlit front-end;
  - the Bloom filter, count-min sketch, HyperLogLog and skip list.
- TF-IDF ranking, `remove_document`, `get_stats`, `get_document_content` and
  punctuation stripping are exercised by inverted_index_tfidf/test_inverted_index.py
  but do not exist in the index's code, so they are not modelled.
- Nothing in the code is concurrent, so no concurrency is modelled.

## Findings

| source | as written | input that shows it | evidently intended | confidence | as-written member | corrected member |
|---|---|---|---|---|---|---|
| consistent_hash/consistent_hashing.py:121-125 | after `bisect_left`, only one copy of the point is popped from `sorted_keys` (`if ... : pop(idx)`), but `add_node` inserts a point again each time the same node is added | `add_node("a")` twice, then `remove_node("a")`: the ring no longer maps the point but `sorted_keys` still lists it once. After another node is added, `get_node` on a key whose successor is that point raises KeyError at line 80 | every copy of a removed point leaves `sorted_keys`, so that it lists exactly the ring's points | medium, not executed | HashRing.StalePointAfterDoubleAdd | HashRing.ConsistentHashRing.RemoveNode |
