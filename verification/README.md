# A verified model of respublica

respublica is a blockchain node. This project models six of its parts in Dafny and proves what they
are for:

1. **BLAKE3** (`Bits`, `LeftTree`, `Bytes`, `Blake3Spec`, `Blake3Domains`, `Blake3Chunk`,
   `Blake3Subtree`, `Blake3Output`, `Blake3Hasher`, `CryptoHash`). The incremental hasher keeps a stack of chaining
   values that it merges late, picks subtree sizes by bit masks, and hashes wide subtrees by a
   recursion that depends on the SIMD degree. `Blake3Spec` defines the hash as a short recursive tree
   (sections 2.1, 2.4, 2.5 and 2.6 of the BLAKE3 specification). For every compression function,
   every power-of-two degree and every way of cutting the input into updates, the hasher returns
   the bytes of that tree. Which flags, counters and lengths the tree asks of the compression is
   stated in numbers, and so is that only the root sees flag 8.
2. **Merkle roots** (`Merkle`). Two in-place, level-by-level reductions agree with each other and
   with the recursive split at the largest power of two.
3. **State deltas and the fork index** (`Collections`, `StateLayers`, `StateDelta`, `StateRoot`,
   `ForkIndex`, `DeltaIndex`). Every node shows a plain map. Squashing and committing keep what a node
   and its descendants show; the Merkle root's leaves tell exactly as much about a layer as they can;
   the index keeps its tree, its head and its fork heads over every run.
4. **FourQ scalar multiplication** (`Words`, `Group`, `Radix2`, `FourQOrder`, `FourQDecompose`,
   `FourQRecode`, `FourQMul`, `FourQWnaf`, `FourQComb`). From the words of a 256-bit scalar to the
   point: Montgomery reduction modulo the group order, decomposition in a lattice, three recodings
   into signed digits, and three loops over tables return k P, k G and k G + l Q for every k and l.
5. **Base58** (`Positional`, `Base58`). The fixed buffers always suffice, and both round trips hold.
6. **Metering, transactions and the coin** (`Metering`, `Transactions`, `TransactionLaws`, `Coin`). What a payer is
   charged is exactly the weighted use. After its authority checks, a transaction takes effect
   completely or changes only a nonce; what a program does while it is checked stays in either case
   (`Transactions.CheckStays`). As long as no program writes to the space of nonces, no nonce is
   taken twice over any run shorter than 2^64. A failed block leaves what its first transactions did.
   The coin's balances always add up to its supply.

`dafny verify dfyconfig.toml` checks the whole project.

## How the model is built

Code that updates objects or arrays in place is a class or a method over arrays, proved against
functions; those functions are what the lemmas speak about. Some choices that a reader should know:

- The BLAKE3 compression function is a pair of arbitrary functions in a record. The theorems hold
  for all of them, so they do not depend on the rounds.
- Points are elements of an arbitrary abelian group, and the endomorphisms are arbitrary functions.
  The theorems say which combination of `P, phi(P), psi(P), psi(phi(P))` is computed, and that it is
  k P wherever the four basis vectors of the decomposition's lattice are relations between these
  points. They are on every point of the group's order on which the two endomorphisms are
  multiplication by their eigenvalues (`FourQDecompose.EigenRelations`).
- A state node is an object with a parent link. Contracts take its chain of ancestors as a ghost
  argument, and the view of a node is the view of the layers along that chain.
- In the fork index a node is named by its id, which the index keeps unique. `finalize`, `discard`,
  `make_child` and `clone` are modelled on indexed nodes.
- What a program does during a transaction is an arbitrary list of events: ticks, writes, removals
  and uploads, with arbitrary reported sizes. This covers every program and every nesting of calls.
- Checking the authority of a payer or payee is an arbitrary list of events and a verdict, because
  checking a program account runs that program. Payer and payee have a check each, so one program in
  both roles may answer differently the second time. A user account's check has no events.
- An authority check of the coin carries an arbitrary list of further coin instructions and an
  optional verdict. The coin only tests whether the check returned a value
  (`src/respublica/program/coin.cpp:105` and `:165`), so the verdict no lets a transfer or a burn
  through. `Coin.RefusedSpend` shows it, and `Coin.SpendsExactly` says exactly when coins leave an
  account and when they leave one that neither calls nor approves.

`commit` drains a node's writes before it asks for the node's Merkle root. So the root it stores is
the node's own if and only if that root was asked for earlier or the node wrote nothing
(`StateRoot.StoredRoot`, `StateRoot.CommitNode`). That a cached root is the node's own is kept by
every operation that works on a node before its commit (`StateDelta.StateDelta.CachesOwn`). The view
is kept in either case.

The leaves of a layer do not tell an empty value from a tombstone (`StateRoot.EmptyValueLooksRemoved`).
Two layers have equal leaves if and only if they are equal once every empty value without a
tombstone of its own is read as a tombstone (`StateRoot.LeavesTellPlain`).

Where documentation and code differ, the model follows the code. The comment on `mLSB_set_recode`
speaks of scalars below the group order, but `conversion_to_odd` can hand it almost twice the order;
`FourQComb.MlsbSetRecode` is proved for every scalar below 2^249. The comment on
`Montgomery_multiply_mod_order` asks for two reduced factors, but `modulo_order` passes any 256-bit
number; one reduced factor is enough, and `FourQOrder.ModuloOrder` is proved for every 256-bit number.

## Model

| member | source | states |
|---|---|---|
| `Bits.HighestOne` | external/blake3/blake3_impl.h:102-130 | the portable binary search over every nonzero 64-bit number finds c such that 2^c is the largest power of two in it |
| `Bits.PopCnt` | external/blake3/blake3_impl.h:132-143 | clearing the lowest bit until nothing is left counts the 1-bits |
| `Bits.RoundDownToPowerOf2` | external/blake3/blake3_impl.h:147-149 | yields the largest power of two that is at most the argument, and 1 for 0 |
| `Bits.ClearLowestBit` | external/blake3/blake3_impl.h:132-143 | x & (x - 1) has one 1-bit less than x |
| `Bits.MaskTestsAlignment` | external/blake3/blake3.c:541-543 | the mask test on a power of two is zero exactly when that power divides the counter |
| `Bits.PopCountBound` | external/blake3/blake3.h:38-60 | a number below 2^k has at most k 1-bits, which bounds the stack |
| `LeftTree.PairKeepsTree` | external/blake3/blake3.c:216-253 | one level of pairing, with an odd one promoted, keeps the value and the top pair of the largest-power-of-two tree |
| `LeftTree.SubtreesAppend` | external/blake3/blake3.c:467-473 | a full subtree after an aligned prefix adds exactly one entry to the stack of the prefix |
| `LeftTree.FoldIsTop` | external/blake3/blake3.c:626-643 | the bottom of the stack is the left child of the root, and the rest folds from the right into the right child |
| `LeftTree.FoldIsTree` | external/blake3/blake3.c:626-643 | folding the full subtrees of the binary digits from the right gives the tree |
| `LeftTree.MergeTest` | external/blake3/blake3.c:424-433 | the lazily merged stack is longer than the population count exactly when its two top entries must merge |
| `LeftTree.UnmergedTop` | external/blake3/blake3.c:631-636 | when equal halves wait unmerged, the two top entries are the children of the lowest node that is not compressed yet |
| `Blake3Spec.TreeIsLeftTree` | external/blake3/blake3.c:161-170 | the recursive BLAKE3 tree over bytes is the largest-power-of-two tree over its chunk chaining values |
| `Blake3Spec.ChunkCvsSplit` | external/blake3/blake3.c:285-322 | the chunk chaining values of an input cut at a chunk boundary are those of its parts, counters continued |
| `Blake3Domains.ChunkChain` | external/blake3/blake3.c:118-151 | a chunk chains its 64-byte blocks from the key with its number as counter, flag 1 on the first block and flag 2 on the last, which is padded with zeros |
| `Blake3Domains.ParentSplit` | external/blake3/blake3.c:153-170 | above one chunk, the left part holds the largest power of two of chunks that leaves a byte, and the parent is compressed from the key with flag 4, counter 0 and length 64, left value first |
| `Blake3Domains.HashByte` | external/blake3/blake3.c:89-116 | byte i from a position on is byte (position + i) mod 64 of the top node compressed with flag 8 and counter (position + i) / 64 |
| `Blake3Domains.RootSeparated` | external/blake3/blake3.c:89-116 | two compressions that agree without flag 8 below the root and with flag 8 at the root give the same hash, for every input, position and length |
| `Blake3Chunk.ChunkState.constructor` | external/blake3/blake3.c:10-18 | a fresh chunk state has absorbed nothing |
| `Blake3Chunk.ChunkState.Reset` | external/blake3/blake3.c:20-27 | the state forgets its bytes and takes a new key and counter |
| `Blake3Chunk.ChunkState.FillBuf` | external/blake3/blake3.c:34-44 | copies what fits behind the buffered bytes and keeps the rest zero |
| `Blake3Chunk.ChunkState.CompressBlocks` | external/blake3/blake3.c:134-141 | compresses whole blocks straight from the input but always withholds a last, non-empty one |
| `Blake3Chunk.ChunkState.Update` | external/blake3/blake3.c:118-144 | for every split of at most 1024 bytes the state is that of the concatenated bytes: last block withheld, buffer zero-padded |
| `Blake3Chunk.ChunkState.Finish` | external/blake3/blake3.c:146-151 | yields the chunk node of the specification over all absorbed bytes |
| `Blake3Subtree.FullChunkIsBlocks` | external/blake3/blake3.c:172-209 | for a full chunk, the block-wise path and the streaming path give the same chaining value |
| `Blake3Subtree.HashOne` | external/blake3/blake3_portable.c:125-143 | chains the blocks with the start flag on the first and the end flag on the last |
| `Blake3Subtree.HashMany` | external/blake3/blake3_portable.c:145-160 | hashes every input with its own counter and writes the results in order, nothing before the offset changed |
| `Blake3Subtree.CompressChunksParallel` | external/blake3/blake3.c:172-209 | writes the chaining values of all chunks, the last of which may be short |
| `Blake3Subtree.ShortChunk` | external/blake3/blake3.c:194-205 | the partial last chunk goes through the chunk state and has the specified chaining value |
| `Blake3Subtree.CompressParentsParallel` | external/blake3/blake3.c:216-253 | writes one level of parents; an odd chaining value moves up unchanged |
| `Blake3Subtree.LeftSubtreeLen` | external/blake3/blake3.c:161-170 | the left part is the largest power of two of chunks that leaves at least one byte |
| `Blake3Subtree.CompressSubtreeWide` | external/blake3/blake3.c:268-336 | for every power-of-two degree, returns between two and max(degree, 2) values with the same tree and the same top pair as the chunks; a full subtree fills exactly that many slots |
| `Blake3Subtree.CompressHalves` | external/blake3/blake3.c:285-322 | the left recursive call fills exactly `degree` slots, so the halves are adjacent and together keep tree and top pair |
| `Blake3Subtree.CompressLayer` | external/blake3/blake3.c:324-335 | a layer of parents keeps tree and top pair, and single values that may be the root's children stay unmerged |
| `Blake3Subtree.CompressSubtreeToParentNode` | external/blake3/blake3.c:348-380 | condenses a subtree to the two children of its root, whatever the degree |
| `Blake3Output.XofMany` | external/blake3/blake3_dispatch.c:227-248 | writes consecutive 64-byte output blocks with consecutive counters |
| `Blake3Output.OutputRootBytes` | external/blake3/blake3.c:89-116 | writes exactly the bytes of the extendable output from any seek position, for any length |
| `Blake3Hasher.StackMerge` | external/blake3/blake3.c:424-433 | the population count decides exactly when the two top entries merge; merging keeps what the stack stands for, and a stack that need not merge holds the full subtrees of the binary digits |
| `Blake3Hasher.StackLength` | external/blake3/blake3.h:38-60 | the stack never holds more than BLAKE3_MAX_DEPTH + 1 entries |
| `Blake3Hasher.HalvesStayUnmerged` | external/blake3/blake3.c:559-566 | the second of two equal halves is never aligned for a merge with the first before more input arrives |
| `Blake3Hasher.RollUpIsRoot` | external/blake3/blake3.c:626-643 | rolling up the stack behind a partial chunk yields the root node of the tree |
| `Blake3Hasher.UnmergedRoot` | external/blake3/blake3.c:631-643 | rolling up a stack without a partial chunk starts from its two top entries and yields the root node |
| `Blake3Hasher.Hasher.constructor` | external/blake3/blake3.c:382-389 | a fresh hasher has absorbed nothing |
| `Blake3Hasher.Hasher.Reset` | external/blake3/blake3.c:647-650 | forgets the input, keeps key and flags |
| `Blake3Hasher.Hasher.MergeCvStack` | external/blake3/blake3.c:424-433 | leaves exactly the full subtrees of the binary digits of the chunk counter |
| `Blake3Hasher.Hasher.PushCv` | external/blake3/blake3.c:467-473 | pushes a subtree after merging the earlier ones; the new one stays unmerged |
| `Blake3Hasher.Hasher.PushChunk` | external/blake3/blake3.c:547-555 | a finished chunk joins the stack and the stack invariant holds for one chunk more |
| `Blake3Hasher.Hasher.PushHalves` | external/blake3/blake3.c:556-566 | a subtree joins as two unmerged halves, which the stack invariant records |
| `Blake3Hasher.Hasher.ChooseSubtreeLen` | external/blake3/blake3.c:523-546 | the mask loop finds the largest power-of-two subtree that fits the input and divides the count so far |
| `Blake3Hasher.Hasher.HashSubtrees` | external/blake3/blake3.c:523-570 | the loop absorbs all input but at most one chunk |
| `Blake3Hasher.Hasher.Update` | external/blake3/blake3.c:475-589 | after every update the hasher stands for all bytes absorbed, in any split (below 2^64 bytes) |
| `Blake3Hasher.Hasher.RootOutput` | external/blake3/blake3.c:613-643 | the node that finalization uses is the root node of the recursive tree |
| `Blake3Hasher.Hasher.FinalizeSeek` | external/blake3/blake3.c:603-645 | writes the tree hash of all absorbed bytes from the seek position on, and the hasher may go on absorbing |
| `Blake3Hasher.Hasher.Finalize` | external/blake3/blake3.c:598-601 | the same from position zero |
| `CryptoHash.HashBytes` | src/respublica/crypto/hash.cpp:28-36 | the digest of a buffer is bytes 0 to 31 of its tree hash |
| `CryptoHash.HashPieces` | src/respublica/crypto/hash.cpp:53-76 | hashing in pieces is hashing the concatenation, for every cut |
| `CryptoHash.FlattenConcat` | src/respublica/crypto/hash.cpp:53-76 | the pieces are joined in their order |
| `CryptoHash.HasherFinalize` | src/respublica/crypto/hash.cpp:78-83 | yields the digest of everything absorbed |
| `Merkle.CombineDigests` | include/respublica/crypto/merkle_tree.hpp:37-40 | an inner node's digest is the hash of its children's digests, left one first |
| `Merkle.RootOfOne` | include/respublica/crypto/merkle_tree.hpp:134-152 | no value yields 32 zeros; one value yields its hash, or itself if it is of the digest type and marked hashed |
| `Merkle.RootSplit` | include/respublica/crypto/merkle_tree.hpp:134-177 | for every k, more than 2^k and at most 2^(k+1) values split after 2^k, and the root is the hash of the two roots, left one first |
| `Merkle.ReduceLevel` | include/respublica/crypto/merkle_tree.hpp:156-173 | one in-place level leaves the pairs, an odd one promoted, at the front of the vector |
| `Merkle.MerkleRoot` | include/respublica/crypto/merkle_tree.hpp:134-177 | the level-by-level root is the recursive root for every list of values, the empty one included; values of the digest type are taken as they are if marked hashed, all others are hashed |
| `Merkle.JoinLevel` | include/respublica/crypto/merkle_tree.hpp:102-119 | the same level over owned nodes, which are moved out before they are joined |
| `Merkle.NodeTreeHash` | include/respublica/crypto/merkle_tree.hpp:87-123 | a well hashed, left balanced tree has the recursive root of its leaves at its top |
| `Merkle.JoinedTree` | include/respublica/crypto/merkle_tree.hpp:87-123 | joining leaves by the recursive split gives such a tree over exactly those leaves |
| `Merkle.Create` | include/respublica/crypto/merkle_tree.hpp:85-123 | the tree it builds is left balanced, well hashed, has the values' digests as leaves, chosen by type, and its root hash is that of `merkle_root` |
| `StateLayers.SquashKeepsView` | src/respublica/state_db/state_delta.cpp:58-85 | squashing a layer into the next keeps the view, root parent or not, with keys both removed and rewritten |
| `StateLayers.CollapseKeepsView` | src/respublica/state_db/state_delta.cpp:113-148 | replacing any lower part of a chain by one root layer with the same view keeps every view above it |
| `StateLayers.NearestDecides` | src/respublica/state_db/state_delta.cpp:47-56 | the nearest layer that names a key decides whether and with what value it shows |
| `StateDelta.MapBackend.DrainInto` | src/respublica/state_db/state_delta.cpp:129-133 | releasing entries one by one in any order empties one backend and overwrites the other |
| `StateDelta.StateDelta.Get` | src/respublica/state_db/state_delta.cpp:47-56 | the recursive lookup is a lookup in the node's view |
| `StateDelta.StateDelta.Put` | include/respublica/state_db/state_delta.hpp:81-93 | writes one key of the view, tombstones left as they are; throws and changes nothing on a final node; a cached Merkle root stays that of the node's layer |
| `StateDelta.StateDelta.Remove` | src/respublica/state_db/state_delta.cpp:30-45 | removes one key from the view and adds a tombstone exactly if the key was in this node or visible below it; throws on a final node; a cached Merkle root stays that of the node's layer |
| `StateDelta.StateDelta.MoveTombstones` | src/respublica/state_db/state_delta.cpp:67-75 | tombstones delete from the parent and stay on unless the parent is the root |
| `StateDelta.StateDelta.MoveEntries` | src/respublica/state_db/state_delta.cpp:77-84 | writes replace the parent's and lift its tombstones |
| `StateDelta.StateDelta.Squash` | src/respublica/state_db/state_delta.cpp:58-85 | the parent's view becomes the child's old view, the child is empty, deeper layers are untouched; a root is left alone; cached Merkle roots stay right unless parent or child is final |
| `StateDelta.StateDelta.MakeChild` | src/respublica/state_db/state_delta.cpp:240-248 | a child shows what its parent shows, one revision later, under the given id, or under the inherited one if the given id is all zeros |
| `StateDelta.StateDelta.Clone` | src/respublica/state_db/state_delta.cpp:250-266 | the copy has the same layers below and in itself, under the given or the same id, and keeps flag and cached root |
| `StateDelta.StateDelta.Finalize` | src/respublica/state_db/state_delta.cpp:184-187 | the node is final, and a cached Merkle root stays that of its layer |
| `StateDelta.StateDelta.NodeStack` | src/respublica/state_db/state_delta.cpp:103-110 | following parents lists the chain down to the root |
| `StateDelta.StateDelta.WriteLayers` | src/respublica/state_db/state_delta.cpp:121-136 | draining the layers from the lowest up leaves the view of the chain in the root's backend |
| `StateDelta.StateDelta.Commit` | src/respublica/state_db/state_delta.cpp:87-151 | committing any number of levels makes the node the root with its view, id and revision unchanged, and stores the cached Merkle root, or else the root over the tombstones alone; it throws on the root, and on a node that is not final, whose backend is then already drained and the old root's gone |
| `StateDelta.StateDelta.CommitBelow` | src/respublica/state_db/state_delta.cpp:87-151 | a successful commit also keeps the view of every descendant |
| `StateDelta.StateDelta.MerkleRoot` | src/respublica/state_db/state_delta.cpp:189-238 | computes the root of the node's own layer once, and throws on a node that is not final; what is cached afterwards is the layer's root if what was cached before was |
| `StateRoot.LessTotal` | src/respublica/state_db/state_delta.cpp:206 | the order of keys is a strict total order |
| `StateRoot.LessIs` | src/respublica/state_db/state_delta.cpp:206 | one key comes before another if and only if they agree up to some place where the first ends or has the smaller byte |
| `StateRoot.MergeLeaves` | src/respublica/state_db/state_delta.cpp:196-232 | the two-way merge returns the leaves of the layer: two for every write and every tombstone, in key order, a tombstone before the write of the same key |
| `StateRoot.SortedUnique` | src/respublica/state_db/state_delta.cpp:201-232 | there is only one such list, so the root depends on the layer alone |
| `StateRoot.Listing` | src/respublica/state_db/state_delta.cpp:196-232 | every set of writes and tombstones has such a list |
| `StateRoot.LeavesAre` | src/respublica/state_db/state_delta.cpp:196-232 | every such list gives the same leaves, which are therefore a function of the layer |
| `StateRoot.LeavesListed` | src/respublica/state_db/state_delta.cpp:204-232 | the leaves are pairs: every written key with its value, every tombstone with nothing, and no others |
| `StateRoot.LeavesAscend` | src/respublica/state_db/state_delta.cpp:199-232 | of two pairs the earlier has the smaller key, byte by byte, or both have a key that is removed and written, the tombstone first |
| `StateRoot.LeavesTellPlain` | src/respublica/state_db/state_delta.cpp:196-232 | two layers have equal leaves if and only if they are equal once empty values without a tombstone are read as tombstones |
| `StateRoot.LeavesTellLayer` | src/respublica/state_db/state_delta.cpp:196-232 | for layers whose empty values all have a tombstone of their own, equal leaves mean equal layers and the other way round |
| `StateRoot.EmptyValueLooksRemoved` | src/respublica/state_db/state_delta.cpp:212-217 | an empty value and a tombstone have the same leaves, so leaves do not tell all layers apart |
| `StateRoot.DrainedLeaves` | src/respublica/state_db/state_delta.cpp:129-141 | the leaves that a commit without a cached root hashes are the node's if and only if it wrote nothing |
| `StateRoot.LayerRoot` | src/respublica/state_db/state_delta.cpp:189-238 | the digest is the recursive Merkle root over the leaves of the layer, hashed as plain data |
| `StateRoot.StoredRoot` | src/respublica/state_db/state_delta.cpp:129-141 | unless the two digests collide, the root that a commit stores is the node's own if and only if it was cached or the node wrote nothing |
| `StateRoot.CommitNode` | src/respublica/state_db/state_delta.cpp:87-151 | the same of a commit with the Merkle root itself, which succeeds exactly on a final node that is not the root; it asks only for what every operation before keeps of the cached root |
| `ForkIndex.OpenedGood` | src/respublica/state_db/delta_index.cpp:35-57 | an opened index satisfies the invariant: a tree by revision, a highest final head, and final fork heads without final children |
| `ForkIndex.ChildGood` | src/respublica/state_db/permanent_state_node.cpp:61-71 | adding a child keeps the invariant |
| `ForkIndex.CloneGood` | src/respublica/state_db/permanent_state_node.cpp:73-83 | adding a clone keeps the invariant if and only if the cloned node is not the root |
| `ForkIndex.FinalizedGood` | src/respublica/state_db/delta_index.cpp:128-150 | finalizing any indexed node, before or after its parent, keeps the invariant |
| `ForkIndex.PrunedGood` | src/respublica/state_db/delta_index.cpp:152-193 | an allowed removal keeps the invariant |
| `ForkIndex.SubtreeIsReached` | src/respublica/state_db/delta_index.cpp:159-177 | what goes with a node is exactly what a path of children leads to that avoids the whitelist |
| `ForkIndex.StepGood` | src/respublica/state_db/delta_index.cpp:35-193 | every operation keeps the invariant and the root |
| `ForkIndex.Run` | src/respublica/state_db/delta_index.cpp:35-193 | the invariant holds after every run |
| `ForkIndex.RunSnoc` | src/respublica/state_db/delta_index.cpp:35-193 | one operation more is one step more from where the run ended, and one finalization more in the log if it is one |
| `ForkIndex.StepHead` | src/respublica/state_db/delta_index.cpp:128-141 | only a finalization with a strictly greater revision moves the head |
| `ForkIndex.HeadFirstFinalized` | src/respublica/state_db/delta_index.cpp:128-150 | after any run the head is the first node finalized with the greatest revision ever finalized |
| `ForkIndex.HeadAfterOpen` | src/respublica/state_db/delta_index.cpp:6-57 | the same, counted from the opening of the index |
| `ForkIndex.AboveRoot` | src/respublica/state_db/delta_index.cpp:102-120 | the root alone has the lowest revision |
| `ForkIndex.AncestorUnique` | src/respublica/state_db/delta_index.cpp:102-120 | a node has at most one ancestor-or-self of each revision |
| `DeltaIndex.QueueIsSubtree` | src/respublica/state_db/delta_index.cpp:163-177 | a work queue that is worked off holds exactly the node and what is under it |
| `DeltaIndex.DeltaIndex.Open` | src/respublica/state_db/delta_index.cpp:35-57 | the new index holds one final node, its root, head and fork head |
| `DeltaIndex.DeltaIndex.Close` | src/respublica/state_db/delta_index.cpp:59-65 | nothing is left |
| `DeltaIndex.DeltaIndex.Get` | src/respublica/state_db/delta_index.cpp:91-100 | finds exactly the indexed nodes; throws when closed |
| `DeltaIndex.DeltaIndex.AtRevision` | src/respublica/state_db/delta_index.cpp:102-120 | ends, and returns the ancestor-or-self of the node (or of the head) at the revision, or the start itself for a later revision; throws exactly when closed or below the root |
| `DeltaIndex.DeltaIndex.MakeChild` | src/respublica/state_db/permanent_state_node.cpp:61-71 | adds the child, not final and one revision above its parent, or throws and changes nothing if its id is null or taken |
| `DeltaIndex.DeltaIndex.Clone` | src/respublica/state_db/permanent_state_node.cpp:73-83 | adds the copy, or throws; the index stays well formed unless the root was copied |
| `DeltaIndex.DeltaIndex.Finalize` | src/respublica/state_db/permanent_state_node.cpp:28-35 | the node is final, it becomes the head if its revision is greater than the head's, its parent is no fork head any more and the head is one |
| `DeltaIndex.DeltaIndex.Collect` | src/respublica/state_db/delta_index.cpp:159-177 | the growing queue ends with exactly the subtree, or stops because the head is in it |
| `DeltaIndex.DeltaIndex.Remove` | src/respublica/state_db/delta_index.cpp:152-193 | removes exactly the subtree minus kept nodes and the fork heads in it, or throws with nothing changed, exactly when closed, at the root, or when the head is in the subtree |
| `Group.MulSum` | external/fourq/fourq/eccp2.c:449-454 | (m + n) p == m p + n p for all integers |
| `Group.CombSum` | external/fourq/fourq/eccp2.c:449-454 | linear combinations of points add up coefficient by coefficient |
| `Group.CombConcat` | external/fourq/fourq/eccp2_core.c:575-643 | a combination over two lists of points is the sum of the two combinations |
| `Group.CombShift` | external/fourq/fourq/eccp2.c:324-330 | adding a relation between the points any number of times keeps the combination |
| `FourQOrder.Add` | external/fourq/fourq/amd64/fp_x64.h:266-276 | the word-by-word sum and the last carry make up the sum of the two numbers, for every length |
| `FourQOrder.Subtract` | external/fourq/fourq/amd64/fp_x64.h:278-288 | the word-by-word difference and the last borrow make up the difference |
| `FourQOrder.MultiplyRow` | external/fourq/fourq/amd64/fp_x64.h:252-262 | one row adds a word times the other factor in place; the running carry never overflows a word |
| `FourQOrder.Multiply` | external/fourq/fourq/amd64/fp_x64.h:243-264 | the schoolbook loops leave the product of the two numbers in the double-length array |
| `FourQOrder.Reduce` | external/fourq/fourq/amd64/fp_x64.h:323-329 | the multiple of the order that is added clears the low half, there is no carry out, and the upper half is below twice the order |
| `FourQOrder.ReduceOnce` | external/fourq/fourq/amd64/fp_x64.h:331-340 | the masked final subtraction leaves a number below the order that differs by nothing or the order |
| `FourQOrder.MontgomeryMultiply` | external/fourq/fourq/amd64/fp_x64.h:312-343 | the result is below the order, and 2^256 times it is congruent to the product, even if one factor is not reduced |
| `FourQOrder.ModuloOrder` | external/fourq/fourq/amd64/fp_x64.h:345-354 | two Montgomery multiplications return the remainder modulo the order, for every 256-bit number |
| `FourQDecompose.MulTruncate` | external/fourq/fourq/eccp2.c:257-281 | with 128-bit sums that wrap and hand-made carries, returns exactly bits 256 to 319 of the product of two 256-bit numbers |
| `FourQDecompose.VectorFits` | external/fourq/fourq/eccp2.c:324-330 | for every 256-bit scalar all four exact coordinates fit 64 bits, before and after the parity correction |
| `FourQDecompose.Subscalars` | external/fourq/fourq/eccp2.c:325-330 | the first sub-scalar that leaves the decomposition is odd |
| `FourQDecompose.ParityKept` | external/fourq/fourq/eccp2.c:325-330 | correcting the parity keeps the combination of the four points, given the relation and no wrapping |
| `FourQDecompose.CorrectParity` | external/fourq/fourq/eccp2.c:325-330 | writes the corrected words modulo 2^64, the ones of which `ParityKept` and `CorrectedIs` speak |
| `FourQDecompose.Decompose` | external/fourq/fourq/eccp2.c:293-331 | for every scalar the words computed modulo 2^64 are the exact sub-scalars, rounding and parity included |
| `FourQDecompose.VectorIs` | external/fourq/fourq/eccp2.c:324-330 | the offset c1 to c4 is a lattice vector, so it does not change the product |
| `FourQDecompose.SubscalarsMultiply` | external/fourq/fourq/eccp2.c:293-331 | the four points multiplied by the sub-scalars of k add up to k times the first point, for every 256-bit k, wherever the lattice vectors are relations |
| `FourQDecompose.EigenRelations` | external/fourq/fourq/eccp2.c:344-357 | they are relations on every point of the group's order on which phi and psi multiply by their eigenvalues |
| `FourQRecode.HalveSigned` | external/fourq/fourq/eccp2.c:402-415 | the carry pays back exactly the negative digit, and a bound on the sub-scalar is halved |
| `FourQRecode.RecodeColumn` | external/fourq/fourq/eccp2.c:396-416 | one column takes one signed digit off every sub-scalar |
| `FourQRecode.Recode` | external/fourq/fourq/eccp2.c:385-418 | the 65 digits, all below 8, and signs rebuild the four sub-scalars exactly, the first one rounded up to odd |
| `FourQMul.Precompute` | external/fourq/fourq/eccp2.c:344-382 | the eight table entries are P plus every subset of phi(P), psi(P), psi(phi(P)) |
| `FourQMul.Select` | external/fourq/fourq/table_lookup.h:123-142 | the scan with a wrapping 32-bit counter ends with the entry asked for |
| `FourQMul.TableLookup` | external/fourq/fourq/table_lookup.h:119-157 | yields the entry, negated if the mask is zero |
| `FourQMul.MultiplyStep` | external/fourq/fourq/eccp2.c:449-454 | doubling and adding a column's point turns the combination of the higher columns into that of all columns so far |
| `FourQMul.DoubleAndAdd` | external/fourq/fourq/eccp2.c:446-454 | the loop returns the combination that the columns stand for |
| `FourQMul.Multiply` | external/fourq/fourq/eccp2.c:443-454 | for all sub-scalars the result is s0 P + s1 phi(P) + s2 psi(P) + s3 psi(phi(P)), s0 rounded up to odd |
| `FourQMul.ClearCofactor` | external/fourq/fourq/eccp2.c:466-484 | returns 392 times the point |
| `FourQMul.BasisMultiplies` | external/fourq/fourq/eccp2.c:352-369 | the sub-scalars of k multiply P, phi(P), psi(P), psi(phi(P)) to k P wherever the lattice vectors are relations, and so wherever phi and psi multiply by their eigenvalues |
| `FourQMul.EccMul` | external/fourq/fourq/eccp2.c:421-463 | fails exactly off the curve; otherwise returns k P, or k times 392 P, for every 256-bit k, wherever phi and psi multiply that point by their eigenvalues, or just the lattice vectors are relations; and the combination with the sub-scalars of k everywhere |
| `FourQWnaf.ResidueSmall` | external/fourq/fourq/eccp2_core.c:704-713 | the signed residue of an odd number is odd and below 2^(w-1) in size, and the rest makes up the number |
| `FourQWnaf.RemainingSmall` | external/fourq/fourq/eccp2_core.c:704-713 | what remains shrinks by w bits, and is zero once fewer than w bits were left |
| `FourQWnaf.TakeDigit` | external/fourq/fourq/eccp2_core.c:704-713 | the digit taken is the signed residue, and the rest gets back what it borrows |
| `FourQWnaf.WnafRecode` | external/fourq/fourq/eccp2_core.c:689-727 | for every 64-bit scalar and window 2 to 30 the 65 digits sum to the scalar, non-zero ones are odd, below 2^(w-1) in size and at least w apart, and no index above 64 is written |
| `FourQWnaf.PrecomputeDouble` | external/fourq/fourq/eccp2_core.c:666-686 | entry i is (2i + 1) P |
| `FourQWnaf.AddDigit` | external/fourq/fourq/eccp2_core.c:578-585 | adds digit times the point, with the table position in range |
| `FourQWnaf.Interleave` | external/fourq/fourq/eccp2_core.c:571-643 | the interleaved loop returns the combination of all rows' numbers |
| `FourQWnaf.MultiplyBoth` | external/fourq/fourq/eccp2_core.c:541-643 | for all sub-scalars the result is the four-term combination for l over Q plus that for k over the generator's points |
| `FourQWnaf.EccMulDouble` | external/fourq/fourq/eccp2_core.c:524-663 | fails exactly off the curve; otherwise returns l Q + k G for all 256-bit k and l, wherever phi and psi multiply Q and G by their eigenvalues, or just the lattice vectors are relations; and the sum of the two combinations everywhere |
| `FourQComb.ShiftRight` | external/fourq/fourq/eccp2_core.c:459-463 | the multiword shift halves the 256-bit number |
| `FourQComb.AddBit` | external/fourq/fourq/eccp2_core.c:488-495 | the rippling carry adds one to the 256-bit number |
| `FourQComb.SignRow` | external/fourq/fourq/eccp2_core.c:456-474 | the first fifty digits are the signs, and the rest is what the value rows must stand for |
| `FourQComb.MlsbSetRecode` | external/fourq/fourq/eccp2_core.c:447-498 | for every scalar below 2^249 the signed digits over 250 places rebuild it, rounded up to odd, and the multiword remainder is zero |
| `FourQComb.FoldKeepsValue` | external/fourq/fourq/eccp2_core.c:383-444 | laying the pieces of a numeral on top of each other, weighted, keeps its value |
| `FourQComb.FoldTwice` | external/fourq/fourq/eccp2_core.c:383-444 | folding by rows and then by sub-tables keeps the value |
| `FourQComb.ColumnWeight` | external/fourq/fourq/eccp2_core.c:427-434 | a column of the folded digits is its sign times the weight of its table digit |
| `FourQComb.CombTableIs` | external/fourq/fourq/eccp2_core.c:383-444 | the table that is taken as given holds, at entry e, 2^(10 (e / 16)) times one plus the powers 2^50, 2^100, 2^150, 2^200 that the bits of e select, times the base point |
| `FourQComb.ColumnPoint` | external/fourq/fourq/eccp2_core.c:427-434 | the looked-up point is the signed multiple of the column |
| `FourQComb.Comb5` | external/fourq/fourq/eccp2_core.c:400-436 | the comb returns the multiple that the digits stand for |
| `FourQComb.ConversionToOdd` | external/fourq/fourq/amd64/fp_x64.h:356-368 | an even scalar becomes odd by adding the group order, without overflow |
| `FourQComb.EccMulFixed` | external/fourq/fourq/eccp2_core.c:383-444 | for every 256-bit k, returns k times the base point, whose order is the group's |
| `Base58.EncodeCapacity` | src/respublica/encode/base58.cpp:112-114 | n * 138 / 100 + 1 base-58 digits hold every n bytes |
| `Base58.DecodeCapacity` | src/respublica/encode/base58.cpp:60-62 | n * 733 / 1000 + 1 bytes hold every n base-58 digits |
| `Base58.Alphabet` | src/respublica/encode/base58.cpp:20-31 | the 58 digits in order, and which characters are none |
| `Base58.Spaces` | src/respublica/encode/base58.cpp:34-37 | the six characters that count as spaces |
| `Base58.NumberAppend` | src/respublica/encode/base58.cpp:118-131 | the value of a digit string, most significant digit first |
| `Base58.SameZeros` | src/respublica/encode/base58.cpp:102-145 | bytes and their text begin with equally many zero bytes and characters '1' |
| `Base58.WordIs` | src/respublica/encode/base58.cpp:46-48 | the word begins after the first spaces and ends before the next one |
| `Base58.Accumulate` | src/respublica/encode/base58.cpp:118-131 | the carry loop multiplies and adds exactly, no carry is left, and the length is that of the significant digits |
| `Base58.ConvertTo58` | src/respublica/encode/base58.cpp:112-133 | the digit buffer holds the same number as the bytes |
| `Base58.EncodeBase58` | src/respublica/encode/base58.cpp:102-145 | the text has the bytes' number and as many leading ones as the bytes have leading zeros, while the buffer size fits an int |
| `Base58.DecodeBase58` | src/respublica/encode/base58.cpp:39-100 | accepts exactly the texts that are one base-58 word between spaces and short enough, and returns the bytes it stands for; reports an invalid character exactly if there is one and what precedes it still fits, and an invalid length otherwise |
| `Base58.RepresentsUnique` | src/respublica/encode/base58.cpp:39-145 | bytes and text determine each other |
| `Base58.BytesRoundTrip` | src/respublica/encode/base58.cpp:39-145 | decoding an encoding returns the same bytes, leading zeros included |
| `Base58.TextRoundTrip` | src/respublica/encode/base58.cpp:39-145 | re-encoding an accepted text without spaces returns the same text |
| `Metering.OverflowTest` | src/respublica/controller/resource_meter.cpp:77-78 | the division before the multiplication rejects exactly the products above 64 bits |
| `Metering.ChargeIs` | src/respublica/controller/resource_meter.cpp:69-133 | a charge in numbers for each resource: refused when the limit or the session does not allow it, else taken from both, at cost times amount |
| `Metering.ChargesBalance` | src/respublica/controller/resource_meter.cpp:69-133 | for every list of uses, refused or not, the session pays exactly the weighted use |
| `Metering.ResourceSession.UseResources` | src/respublica/controller/resource_meter.cpp:15-23 | takes what is there, or refuses and takes nothing |
| `Metering.ResourceMeter.SetResourceLimits` | src/respublica/controller/resource_meter.cpp:50-57 | everything is available again and nothing is on the system's account |
| `Metering.ResourceMeter.UseDiskStorage` | src/respublica/controller/resource_meter.cpp:69-89 | charges meter and session together or neither; charges the system without a session; throws exactly on overflow, and never with limits whose price fits 64 bits |
| `Metering.ResourceMeter.UseNetworkBandwidth` | src/respublica/controller/resource_meter.cpp:91-111 | the same for bandwidth |
| `Metering.ResourceMeter.UseComputeBandwidth` | src/respublica/controller/resource_meter.cpp:113-133 | the same for compute, which may be used up completely |
| `Transactions.LittleRoundTrip` | src/respublica/controller/execution_context.cpp:288-310 | a nonce that is stored little-endian reads back |
| `Transactions.EffectsAt` | src/respublica/controller/execution_context.cpp:468-485 | a list of events leaves in an entry what its last event that names the entry leaves |
| `Transactions.EventsBalance` | src/respublica/controller/execution_context.cpp:468-485 | whatever programs do, the session pays the weighted use |
| `Transactions.FinishedBalances` | src/respublica/controller/execution_context.cpp:136-231 | at the end of a transaction the payer owes the weighted use, at most the limit, failed operations and ignored refusals included |
| `Transactions.RevertedChangesNonceOnly` | src/respublica/controller/execution_context.cpp:167-207 | once its checks are done, a reverted transaction changes the nonce entry and no other |
| `Transactions.RevertedLeaves` | src/respublica/controller/execution_context.cpp:144-207 | a reverted transaction leaves everything but the nonce as it was if and only if every entry that its authority checks name ends, by the last event that names it, with what it had; user accounts' checks name none |
| `Transactions.CheckStays` | src/respublica/controller/execution_context.cpp:144-207 | what the check of a program payer writes stays although the transaction reverts |
| `Transactions.NonceUsedUp` | src/respublica/controller/execution_context.cpp:167-171 | after a receipt the account's nonce is the transaction's, whether it reverted or not |
| `Transactions.ReplayRejected` | src/respublica/controller/execution_context.cpp:167-168 | a transaction is not admissible right after it got its receipt |
| `Transactions.NonceGrows` | src/respublica/controller/execution_context.cpp:167-171 | over every run of transactions and programs that keep off it, an account's nonce grows, modulo 2^64, by the number of times it was taken |
| `Transactions.NonceTakenOnce` | src/respublica/controller/execution_context.cpp:167-171 | within fewer than 2^64 changes, and if programs keep off its nonce, no account takes the same nonce twice, so no transaction is applied twice |
| `Transactions.WalkInOrder` | src/respublica/controller/execution_context.cpp:70-118 | a block that gets its receipt is such a run |
| `TransactionLaws.LastEventStays` | src/respublica/controller/execution_context.cpp:183-203 | after a transaction that is not reverted, an entry holds what event j of operation i put there, or nothing if it removed it, if no later event of that operation and no event of a later one names the entry |
| `TransactionLaws.UnnamedStays` | src/respublica/controller/execution_context.cpp:183-203 | an entry that no event of any operation names stays as it was, but for the nonce |
| `TransactionLaws.ChargedInTurn` | src/respublica/controller/execution_context.cpp:183-203 | event j of operation i is charged after the events of the operations before, if none of those failed |
| `TransactionLaws.NothingElseCharged` | src/respublica/controller/execution_context.cpp:183-203 | nothing is charged beyond the first operation that fails |
| `TransactionLaws.BillIs` | src/respublica/controller/execution_context.cpp:468-485 | a write or removal costs one tick and its size as an unsigned 64-bit number, a spending its ticks, an upload nothing |
| `TransactionLaws.WholeBill` | src/respublica/controller/execution_context.cpp:136-231 | the payer of a receipt is charged for the checks, the nonce entry, the size and the operations that ran, in this order and for nothing else |
| `TransactionLaws.ChecksAre` | src/respublica/controller/execution_context.cpp:138-165 | no check above a limit of 1000000000; else the payer's, and the payee's if the payer's was granted and the payee is not all zeros; one tick each and what the programs do |
| `TransactionLaws.AdmittedExactly` | src/respublica/controller/execution_context.cpp:138-168 | a transaction is let in if and only if limit, payer, payee and nonce are right, and the first that is not decides the error |
| `TransactionLaws.NonceEntry` | src/respublica/controller/execution_context.cpp:288-310 | a nonce is stored as eight bytes, lowest first, in the account's entry; without one it is zero |
| `TransactionLaws.OneByOne` | src/respublica/controller/execution_context.cpp:87-91 | each transaction of a block works on the state and with the resources that the ones before left |
| `TransactionLaws.BlockOutcome` | src/respublica/controller/execution_context.cpp:70-118 | a block has a receipt for every transaction, each telling whether it reverted, or stops at the first transaction without one |
| `TransactionLaws.FailureLeaves` | src/respublica/controller/execution_context.cpp:138-174 | a transaction without a receipt leaves what its checks did, and its nonce if it was let in |
| `TransactionLaws.TotalsAdd` | src/respublica/controller/execution_context.cpp:87-113 | the totals of a block add up its receipts |
| `Transactions.TemporaryNode.Squash` | src/respublica/state_db/temporary_state_node.cpp:20-30 | squashes once, into a parent that is not final; throws otherwise, with every layer as it was |
| `Transactions.ExecutionContext.ApplyEvent` | src/respublica/controller/execution_context.cpp:468-485 | a write or removal takes effect on the view and is charged a tick and its size, whatever the meter answers |
| `Transactions.ExecutionContext.RunOperations` | src/respublica/controller/execution_context.cpp:183-201 | runs and charges the operations up to the first failure |
| `Transactions.ExecutionContext.RunOnChild` | src/respublica/controller/execution_context.cpp:176-207 | the block's view becomes the operations' result if all succeed, and is unchanged otherwise |
| `Transactions.ExecutionContext.CheckAuthority` | src/respublica/controller/execution_context.cpp:487-508 | a check costs a tick and what its program does, which stays done |
| `Transactions.ExecutionContext.Admit` | src/respublica/controller/execution_context.cpp:138-168 | gives the first reason to refuse, in the state and with the charges that the authority checks left, and writes nothing itself |
| `Transactions.ExecutionContext.TakeNonce` | src/respublica/controller/execution_context.cpp:170-174 | writes the nonce even if the charges that follow are refused |
| `Transactions.ExecutionContext.ApplyTransaction` | src/respublica/controller/execution_context.cpp:120-232 | decides exactly between refusal and receipt, payer and payee being users or programs; a receipt means the nonce is written, the operations took effect completely or not at all, and the payer is charged the weighted use, at most the limit; a refusal leaves what the checks wrote, and the nonce if only a charge failed |
| `Transactions.ExecutionContext.ApplyBlock` | src/respublica/controller/execution_context.cpp:70-118 | yields a receipt exactly if the signer is right and every transaction gets one; its totals are the sums over the transactions, within 409600 bytes, 1048576 bytes and 100000000 ticks, and the charges sum to ten, five and one times them; a block that fails leaves the transactions before the failing one applied, and of that one what its checks wrote and possibly its nonce |
| `Coin.TotalWithout` | src/respublica/program/coin.cpp:88-187 | the sum of balances does not depend on the order |
| `Coin.StepConserves` | src/respublica/program/coin.cpp:88-187 | every instruction, with any nested ones, keeps the sum of balances equal to the supply below 2^64, and burning never finds too little supply |
| `Coin.RunConserves` | src/respublica/program/coin.cpp:43-193 | the same over every run |
| `Coin.ConservedFromEmpty` | src/respublica/program/coin.cpp:43-193 | the same from the empty state |
| `Coin.RunConcat` | src/respublica/program/coin.cpp:43-193 | a run is its instructions one after the other |
| `Coin.TransferMoves` | src/respublica/program/coin.cpp:88-124 | on success every account's balance changes by minus the value if it is `from` and plus the value if it is `to`, once checked, and the supply stays; each error is returned exactly in its case and leaves what the check left |
| `Coin.MintCreates` | src/respublica/program/coin.cpp:126-151 | on success only the receiver's balance and the supply grow, both by the value; an overflow is reported exactly when the supply would reach 2^64 |
| `Coin.BurnDestroys` | src/respublica/program/coin.cpp:153-187 | on success only the account's balance and the supply shrink, both by the value, once checked; each error is returned exactly in its case |
| `Coin.SpendsExactly` | src/respublica/program/coin.cpp:88-187 | a transfer or burn lowers the account's balance if and only if the caller owns it or the check returned any value, and balance and amount allow it; it goes through unapproved if and only if the verdict was no and the spend is affordable |
| `Coin.RefusedSpend` | src/respublica/program/coin.cpp:103-106 | with the verdict no, a transfer and a burn of everything still go through |
| `Coin.CoinProgram.Execute` | src/respublica/program/coin.cpp:43-193 | the program with wrapping arithmetic does what the instructions mean; no addition or subtraction wraps |
| `Coin.CoinProgram.Authorize` | src/respublica/program/coin.cpp:103-106 | the caller passes unchecked; anyone else exactly if the check returned a value, whatever the verdict, nested instructions run in either case |
| `Coin.CoinProgram.Move` | src/respublica/program/coin.cpp:108-122 | moves the value between two accounts, or finds too little |
| `Coin.CoinProgram.Create` | src/respublica/program/coin.cpp:126-151 | adds to supply and balance, or finds an overflow |
| `Coin.CoinProgram.Destroy` | src/respublica/program/coin.cpp:168-186 | takes from supply and balance, or finds too little |

## Left out

- SIMD kernels, CPU dispatch and TBB scheduling: the degree is a parameter and `hash_many` is its portable form.
- The BLAKE3 rounds, and the conversions of chaining values between words and bytes: the compression function is arbitrary and chaining values are opaque.
- `blake3_hasher_init_keyed` and `blake3_hasher_init_derive_key`: only the choice of key and flags, which the constructor takes as arguments.
- The byte counts that `state_delta::put` and `remove` return: they are arbitrary numbers in the transaction model.
- `StateDelta.StateDelta.Commit`: takes the root of a layer as an arbitrary function; `StateRoot.CommitNode` puts the Merkle root in.
- `StateDelta.StateDelta.MerkleRoot`: takes that function too; `StateRoot.LayerRoot` computes it.
- `StateRoot.StoredRoot`: assumes that the two lists of leaves do not collide, which no hash function can promise.
- `permanent_state_node::commit` with `delta_index::commit`: the first call resets the backend through which the second reads ids.
- `DeltaIndex.DeltaIndex.Open`: opens a closed index only; `delta_index::reset` opens an open one and leaves the old nodes in it.
- Fork comparators other than first-come: only that one can be chosen.
- `DeltaIndex.DeltaIndex.MakeChild`: takes an indexed parent; a pointer that outlives its node's removal is not modelled, because nodes are named by id.
- `DeltaIndex.DeltaIndex.Clone`: takes an indexed node, for the same reason.
- `DeltaIndex.DeltaIndex.Finalize`: takes an indexed node, for the same reason.
- `DeltaIndex.DeltaIndex.Remove`: takes an indexed node, for the same reason, and states its invariant for an empty whitelist, the only one outside `commit`.
- FourQ field arithmetic, point formulas and the formulas of the endomorphisms: points form an arbitrary abelian group.
- `FourQOrder.Add`: takes its operands as values, because word i is read before it is written where operand and result are one array.
- `FourQWnaf.EccMulDouble`: takes the table of the generator's odd multiples as correct, and treats the eight copies of the digit branch as one loop.
- `FourQComb.EccMulFixed`: takes the fixed-base table as correct, in the sense of `FourQComb.CombTableIs`.
- `Base58.DecodeBase58`: reads a character behind the text as a terminator, as the code assumes.
- Signature checks: the verdict on a user account is an arbitrary value.
- The byte layout of object spaces: keys carry a short prefix in its place.
- Program execution, the WASM engine and its host interface, the call stack and the frame recorder.
- The coin's queries, and the encoding of balances: they change nothing.
- RocksDB, files, logging, hex, serialization, peer-to-peer networking and the command line.
