# Certificate Transparency: a verified model

This project models the Merkle machinery of Google's Certificate Transparency client code, the maps built on it, and four
state machines and codecs around it, and proves that they do what section 2.1 of RFC 6962, section 4 of RFC 5246 and
their own documentation promise.

A hash function is a parameter: any total function with outputs of one positive length. Nothing is assumed about
collisions. Every soundness result ends in "or two different members of this finite set of hashed strings have the same
digest", and the set is written out.

| module | what it models |
|---|---|
| `TreeHashing`, `Levels`, `Rows` | Merkle Tree Hash, PATH and PROOF of RFC 6962, and the same three computed row by row |
| `AuditWalk`, `Verifiers` | what walking up a proof computes; soundness, completeness and alarms of proof checks |
| `PythonVerifier`, `CppVerifier` | the verifier loops of `merkle.py` and `merkle_verifier.cc` |
| `LazyMerkleTree` | the lazily evaluated level arrays of `merkle_tree.cc` |
| `Bits`, `FullSubtrees`, `CppCompactTree`, `PythonCompactTree` | the two compact trees, binary counters of full subtrees |
| `SparseSpec`, `SparseTree` | the sparse Merkle tree with path compression and cached hashes |
| `SequencedData`, `MapSnapshot`, `MapNodes`, `MapProofs`, `VersionedMap` | the versioned map with proofs |
| `VerifiableLog`, `VerifiableBase` | a log with cached hashes, and the map that is replayed from it |
| `TaskProtocol`, `TaskRest`, `TaskTrace` | `util::Task`, as steps at lock granularity; that its executors come to rest; its promises about the steps of a run |
| `Monitor`, `MonitorEvents`, `HonestLog` | which tree heads a monitor trusts; what every reply and event does; what an update against an honest log achieves |
| `EntryProducer` | in-order delivery with many requests in flight |
| `BigEndian`, `TlsSchema`, `TlsLayout`, `TlsMessage` | the schema-driven TLS reader and writer, and where each field lies |
| `CppLists`, `ListLayout`, `CppSct`, `SctLayout`, `CppCodec` | the C++ list and timestamp formats, their bytes by position, and what is refused |

What the model shows about the code, besides that it is right:

- The consistency verifiers do not look at the length of proof nodes. Soundness holds for any lengths. The promise that
  true roots never raise an inconsistency alarm does not: it fails exactly when a first node is taken from the proof and
  has the wrong length (`Verifiers.AlarmExactly`), and for every old size that is not a power of two some proof does that
  (`Verifiers.FalseAlarm`).
- `verify_leaf_hash_inclusion` does not look at the length of the leaf hash that it is given. What it accepts is the leaf
  at that index exactly when that hash is as long as a digest (`Verifiers.InclusionSound`), and in every tree of two
  leaves or more every leaf has a longer hash that is accepted in its place (`Verifiers.FalseInclusion`). The C++ verifier
  and `verify_leaf_inclusion` hash the leaf themselves.
- In the monitor, verified entries are a prefix of the unverified entries exactly in the runs that accept no tree after a
  scan of an abandoned fetch failed behind its last batch (`Monitor.TidyExactly`, `Monitor.RunTidyExactly`), and there
  are runs that do (`Monitor.LateScanLoses`). Verified entries still only grow by appending, by the soundness of
  consistency proofs.
- The monitor starts from a tree head of size 0 whose hash is the empty string, two tree heads of one size must have the
  same hash, and one that passes `verify_sth` has a hash of digest length. So the tree head of an empty log is never
  accepted, whatever its hash (`Monitor.EmptyLogNeverAccepted`).
- `VerifiableLog` caches the hash of a range that ends past the log, and gives it again when the log has grown. A cached
  hash is right exactly when its range ended within the log at the time (`VerifiableLog.AnswerExactly`). A proof leaves
  such a hash behind exactly when one of its ranges reaches across the end of the log before one has no entry at all
  (`VerifiableLog.NotedExactly`). That is never so for 0 < first <= second within the log, but it is for a proof from 5 to
  2 in a log of 7 entries, which fails (`VerifiableLog.ReversedSpoils`).
- A V1 timestamp comes back from the wire without its extensions (`CppSct.V1DropsExtensions`).
- A repeated enum field is written with the limits of the enum and read with those of the field. Reading and writing are
  inverse exactly when both limits allow the same numbers of items, behind length prefixes of the same width if they allow
  any (`TlsSchema.RepeatedEnumExactly`).
- The C++ length prefix is too short for exactly the limits that are powers of 256 (`CppLists.LimitExactly`), and a CHECK
  fails exactly for a length equal to such a limit (`CppLists.FatalExactly`). With a total limit of 1 the empty list is
  read but not written (`CppLists.ListInverse`).
- The header of the sparse tree says that the root of an empty tree is the hash of an empty string; the code returns the
  root of the complete tree of empty leaves, and the model follows the code.

Choices of the model: level arrays are sequences of digests where the C++ code keeps flat strings; integers are unbounded
except where a width is written out; floating-point logarithms are the exact integers they stand for; nodes of the
versioned map are named by their position; a callback, a reply of a server and a restart are steps, taken in any order.

## Model

| member | source | states |
|---|---|---|
| `TreeHashing.SplitUnique` | python/ct/crypto/merkle.py:98-99 | The width at which a list is split is the one power of two k with k < n <= 2k. |
| `Levels.MthLevelUp` | cpp/merkletree/merkle_tree.cc:137-146 | Hashing the nodes of a row in pairs, with a lone last node carried up, keeps the Merkle Tree Hash of RFC 6962. |
| `Levels.PathLevelUp` | cpp/merkletree/merkle_tree.cc:228-248 | PATH of a leaf is its sibling, if it has one, and then PATH of its parent in the row above. |
| `Levels.ProofLevelUp` | cpp/merkletree/merkle_tree.cc:82-90 | PROOF for an even old size is PROOF for half of it in the row above. |
| `Levels.ProofIsPath` | cpp/merkletree/merkle_tree.cc:97-104 | PROOF for an odd old size is the audit path of the last old leaf, after that leaf itself unless it is the first. |
| `Levels.MthByLevel` | python/ct/crypto/in_memory_merkle_tree.py:45-51 | The recursive tree hash is the last row of the row-by-row computation. |
| `Levels.PathByLevel` | python/ct/crypto/in_memory_merkle_tree.py:98-114 | The recursive audit path is the list of siblings met on the way up the rows. |
| `AuditWalk.WalkTakes` | python/ct/crypto/merkle.py:416-440 | A walk up a path succeeds exactly with enough nodes, and takes exactly as many as the index and the size say. |
| `AuditWalk.PathLength` | python/ct/crypto/merkle.py:442-452 | That number is the length of PATH. |
| `AuditWalk.WalkNotDone` | python/ct/crypto/merkle.py:420-423 | Below the root an existing node always has a sibling ahead, so giving up on an exhausted path never rejects a path of the right length. |
| `AuditWalk.WalkComplete` | python/ct/crypto/merkle.py:416-440 | From the true node with the true path, and anything behind it, the walk ends at the root. |
| `AuditWalk.OldWalkComplete` | python/ct/crypto/merkle.py:349-404 | The same path, without the nodes that only the new tree has, leads to the root of the old tree. |
| `AuditWalk.WalkSound` | python/ct/crypto/merkle.py:416-440 | A walk that ends at the root of a tree started at the node of that index with its true path, unless two hashed inputs collide. |
| `AuditWalk.OldWalkSound` | python/ct/crypto/merkle.py:349-404 | A walk that ends at the old root fixes the old last row up to its start, unless two hashed inputs collide. |
| `AuditWalk.MthInjective` | python/ct/crypto/merkle.py:76-105 | Two lists of the same length with the same tree hash are equal, unless two hashed inputs collide. |
| `Verifiers.ConsistencyComplete` | python/ct/crypto/in_memory_merkle_tree.py:60-96 | For all 0 < m < n the recursive proof is accepted for the true roots, and exactly the nodes behind it are left over. |
| `Verifiers.ConsistencySound` | python/ct/crypto/merkle.py:286-414 | For any sizes and any proof: acceptance for the roots of two lists means that the first is a prefix of the second, or two hashed inputs collide. |
| `Verifiers.AlarmExactly` | python/ct/crypto/merkle.py:349-404 | On true roots the verdict is a bad proof, or acceptance with a first node of digest length, or an alarm with one of another length, or two hashed inputs collide. |
| `Verifiers.FalseAlarm` | python/ct/crypto/merkle.py:366-401 | For every list and every old size that is not a power of two, one wrongly split proof raises the alarm on true roots, or two hashed inputs collide. |
| `Verifiers.SizesDecide` | python/ct/crypto/merkle.py:312-337 | For all integers, roots and proofs: a ValueError exactly unless 0 <= m <= n; at one size acceptance for equal roots and an alarm for others, whatever the proof; acceptance from size 0. |
| `Verifiers.SplitViewAlarms` | python/ct/crypto/merkle.py:320-327 | Two different lists of one size raise the alarm with every proof, or two hashed inputs collide. |
| `Verifiers.InclusionExact` | python/ct/crypto/merkle.py:416-452 | A root comes out exactly for paths as long as PATH, whatever the nodes are. |
| `Verifiers.InclusionComplete` | python/ct/crypto/in_memory_merkle_tree.py:98-126 | PATH leads from every leaf to the tree hash. |
| `Verifiers.InclusionSound` | python/ct/crypto/merkle.py:455-494 | For any leaf hash and any path to the root: they are the leaf hash at the index and its PATH exactly when the leaf hash is as long as a digest, or two hashed inputs collide. |
| `Verifiers.FalseInclusion` | python/ct/crypto/merkle.py:455-494 | For every leaf of every tree of two leaves or more, a leaf hash one byte longer is accepted with a first path node one byte shorter. |
| `PythonVerifier.VerifyTreeConsistency` | python/ct/crypto/merkle.py:286-414 | The checks and loops compute the verdict that the theorems above are about, for all sizes including negative ones. |
| `PythonVerifier.Climb` | python/ct/crypto/merkle.py:370-404 | The two loops with one iterator end like one walk that is compared with both roots. |
| `PythonVerifier.RootHashFromAuditPath` | python/ct/crypto/merkle.py:416-440 | The loop with its early exit computes the inclusion root, or none. |
| `PythonVerifier.AuditPathLength` | python/ct/crypto/merkle.py:442-452 | The loop computes the number of nodes that a walk takes. |
| `PythonVerifier.VerifyLeafHashInclusion` | python/ct/crypto/merkle.py:455-494 | A ValueError exactly for an index outside the tree, and acceptance exactly when the path leads to the root. |
| `CppVerifier.VerifyConsistency` | cpp/merkletree/merkle_verifier.cc:68-134 | True exactly when the Python verdict is acceptance with no node left over. |
| `CppVerifier.EmptyProofFails` | cpp/merkletree/merkle_verifier.cc:84-85 | For 0 < m < n an empty proof is never right, so rejecting it at once loses nothing. |
| `CppVerifier.OldRootFixed` | cpp/merkletree/merkle_verifier.cc:97-121 | When the old tree is full its root is not changed by the walk, so the first comparison cannot fail. |
| `CppVerifier.RootFromPath` | cpp/merkletree/merkle_verifier.cc:34-66 | The inclusion root for a leaf number in range and a path of the right length, and the empty string otherwise. |
| `CppVerifier.VerifyPath` | cpp/merkletree/merkle_verifier.cc:25-32 | True exactly for a leaf number in range whose path leads to the root. |
| `Bits.CountBitsSet` | python/ct/crypto/merkle.py:31-37 | The loop that clears lowest bits counts the one bits of the binary expansion. |
| `Bits.ClearLowest` | python/ct/crypto/merkle.py:34-36 | Anding with the number below removes exactly one one bit. |
| `Bits.LowestBitSet` | python/ct/crypto/merkle.py:39-47 | The position of the lowest one bit counted from 1, from `i & -i`, and 0 for 0. |
| `Bits.AndNegated` | python/ct/crypto/merkle.py:42 | In two's complement, anding a number with its negation leaves its lowest one bit alone. |
| `Bits.AndTestsPowerOfTwo` | cpp/merkletree/merkle_tree_math.cc:6-14 | Anding with the number below gives 0 exactly for powers of two. |
| `LazyMerkleTree.HeightStep` | cpp/merkletree/merkle_tree.cc:37-41 | The level count of a tree goes up exactly at a power of two plus one. |
| `FullSubtrees.HeightIsLog` | cpp/merkletree/merkle_tree.cc:37-41 | The level count of n leaves is ceil(log2 n) + 1: the top row spans at least n leaves, and the row below it fewer. |
| `LazyMerkleTree.MerkleTree.constructor` | cpp/merkletree/merkle_tree.cc:15-20 | The empty tree satisfies the invariant: every stored row is the row of the processed leaves, below as many rows as their number needs. |
| `LazyMerkleTree.MerkleTree.AddLeafHash` | cpp/merkletree/merkle_tree.cc:29-44 | Appends one leaf, keeps the invariant and returns the new count. |
| `LazyMerkleTree.MerkleTree.FillParents` | cpp/merkletree/merkle_tree.cc:137-146 | Completes the row above up to the given node, from wherever it stood. |
| `LazyMerkleTree.MerkleTree.UpdateToSnapshot` | cpp/merkletree/merkle_tree.cc:108-155 | Brings every row up to date with the snapshot and returns its tree hash; the leaves stay. |
| `LazyMerkleTree.MerkleTree.RecomputePastSnapshot` | cpp/merkletree/merkle_tree.cc:157-210 | The tree hash of an earlier snapshot, and the last node of any of its rows, from rows that hold later leaves. The current snapshot is only asked for when the top row is one node, as `Root` asserts. |
| `LazyMerkleTree.MerkleTree.Root` | cpp/merkletree/merkle_tree.cc:259-262 | The one node of the top row; every caller meets the assert. |
| `LazyMerkleTree.MerkleTree.RootAtSnapshot` | cpp/merkletree/merkle_tree.cc:50-60 | For every history of calls: the RFC 6962 tree hash of the first leaves, or the empty string past the last leaf. |
| `LazyMerkleTree.MerkleTree.CurrentRoot` | cpp/merkletree/merkle_tree.cc:46-48 | The RFC 6962 tree hash of all leaves. |
| `LazyMerkleTree.MerkleTree.PathFromNodeToRootAtSnapshot` | cpp/merkletree/merkle_tree.cc:212-251 | The siblings of a node on the way up in the rows of the snapshot, and nothing for nodes outside it. |
| `LazyMerkleTree.MerkleTree.PathToRootAtSnapshot` | cpp/merkletree/merkle_tree.cc:66-73 | For every history of calls: PATH of the leaf in the snapshot, or nothing outside it. |
| `LazyMerkleTree.MerkleTree.SnapshotConsistency` | cpp/merkletree/merkle_tree.cc:75-106 | For every history of calls: PROOF between the two snapshots, or nothing for sizes out of order or range. |
| `FullSubtrees.PushIsAppend` | cpp/merkletree/compact_merkle_tree.cc:136-149 | Adding with carries to the full subtrees of a list gives the full subtrees of the list with one more leaf. |
| `FullSubtrees.FoldIsMth` | cpp/merkletree/compact_merkle_tree.cc:155-167 | Folding the full subtrees from the smallest up gives the tree hash. |
| `FullSubtrees.LevelHolds` | cpp/merkletree/compact_merkle_tree.cc:77-90 | Level k is set exactly when bit k of the leaf count is, and then holds the tree hash of exactly those leaves. |
| `FullSubtrees.LevelCountOf` | cpp/merkletree/compact_merkle_tree.cc:126-127 | The number of levels follows the number of rows of a tree with one more leaf. |
| `FullSubtrees.LastPath` | cpp/merkletree/compact_merkle_tree.cc:40-42 | The audit path of the last leaf is the list of full subtrees of the leaves before it. |
| `FullSubtrees.DescendingIsReverse` | python/ct/crypto/merkle.py:123-130 | The Python list of hashes is the C++ levels without the empty ones, largest first. |
| `FullSubtrees.DescendingAppend` | python/ct/crypto/merkle.py:260-263 | Leaves behind a multiple of their own full size only add their own subtrees. |
| `FullSubtrees.DescendingCount` | python/ct/crypto/merkle.py:136-141 | There are as many subtree hashes as one bits in the size. |
| `CppCompactTree.CompactMerkleTree.constructor` | cpp/merkletree/compact_merkle_tree.cc:16-23 | The empty compact tree, with the hash of the empty tree as its root. |
| `CppCompactTree.CompactMerkleTree.FromModel` | cpp/merkletree/compact_merkle_tree.cc:25-101 | Built from a full tree: the same state as adding its leaves one by one, with its asserts proved, and the full tree keeps its leaves. |
| `CppCompactTree.CompactMerkleTree.AgreesWith` | cpp/merkletree/compact_merkle_tree.cc:98-100 | Root, leaf count and level count are those of the full tree. |
| `CppCompactTree.CompactMerkleTree.Fill` | cpp/merkletree/compact_merkle_tree.cc:76-91 | Spreading the audit path over the bits of the size gives the levels before the last leaf and uses up the path. |
| `CppCompactTree.CompactMerkleTree.PushBack` | cpp/merkletree/compact_merkle_tree.cc:136-149 | Leaves the levels below alone and adds with carries from the given level on. |
| `CppCompactTree.CompactMerkleTree.AddLeafHash` | cpp/merkletree/compact_merkle_tree.cc:121-129 | Appends one leaf to the leaves that the levels stand for, and keeps the level count at that of a tree of this size. |
| `CppCompactTree.CompactMerkleTree.CurrentRoot` | cpp/merkletree/compact_merkle_tree.cc:131-169 | The RFC 6962 tree hash of all leaves added so far, cached or not. |
| `CppCompactTree.LevelBit` | cpp/merkletree/compact_merkle_tree.cc:79-89 | A level is empty exactly when the bit of the leaf count is 0. |
| `PythonCompactTree.HashFullIs` | python/ct/crypto/merkle.py:76-113 | The recursion returns the tree hash of the range and its full subtree hashes in descending order, and its asserts hold. |
| `PythonCompactTree.HashFold` | python/ct/crypto/merkle.py:115-120 | The loop folds from the right. |
| `PythonCompactTree.FoldIsRoot` | python/ct/crypto/merkle.py:107-120 | Folding the full subtree hashes gives the tree hash. |
| `PythonCompactTree.CompactMerkleTree.Update` | python/ct/crypto/merkle.py:136-146 | A ValueError, with nothing changed, exactly when the number of hashes is not the number of one bits. |
| `PythonCompactTree.CompactMerkleTree.Load` | python/ct/crypto/merkle.py:148-153 | Loading what stands for a list of leaves gives a tree that stands for it. |
| `PythonCompactTree.CompactMerkleTree.Save` | python/ct/crypto/merkle.py:155-161 | What is saved for the leaves is what `Load` turns back into a tree that stands for them. |
| `PythonCompactTree.CompactMerkleTree.RootHash` | python/ct/crypto/merkle.py:182-188 | The RFC 6962 tree hash of the leaves, cached or not. |
| `PythonCompactTree.CompactMerkleTree.PushSubtree` | python/ct/crypto/merkle.py:190-221 | Appends the leaves exactly when their number is a power of two that is not above the smallest subtree, and otherwise fails with nothing changed. |
| `PythonCompactTree.CompactMerkleTree.PushSubtreeHash` | python/ct/crypto/merkle.py:223-235 | The recursive carry appends the leaves of the subtree, and its asserts hold. |
| `PythonCompactTree.CompactMerkleTree.Append` | python/ct/crypto/merkle.py:237-239 | Appends one leaf; the size check cannot fail. |
| `PythonCompactTree.CompactMerkleTree.Extend` | python/ct/crypto/merkle.py:241-264 | Appends all leaves, however they fall against the subtrees, so extending twice is extending once by both lists. |
| `PythonCompactTree.CompactMerkleTree.Extended` | python/ct/crypto/merkle.py:266-270 | A new tree with the leaves appended; this one stays. |
| `SparseSpec.FullNull` | cpp/merkletree/sparse_merkle_tree.cc:20-33 | The complete tree over an empty range has the null hash of its height. |
| `SparseSpec.FullFrame` | cpp/merkletree/sparse_merkle_tree.cc:118-157 | The hash of a subtree depends only on the content below it. |
| `SparseTree.GetNullHashes` | cpp/merkletree/sparse_merkle_tree.cc:20-33 | Entry i is the hash of an empty complete tree below depth i. |
| `SparseTree.PushDown` | cpp/merkletree/sparse_merkle_tree.cc:73-85 | Pushing a leaf down one level meets no other node, loses nothing and leaves only the way of the new leaf to be done. |
| `SparseTree.SparseMerkleTree.SetLeaf` | cpp/merkletree/sparse_merkle_tree.cc:49-89 | The content changes at this path only, no CHECK fails, and every cached hash that is kept is still right. |
| `SparseTree.SparseMerkleTree.Restructure` | cpp/merkletree/sparse_merkle_tree.cc:73-86 | A clash makes an interior node and goes on one level down, never past the last bit. |
| `SparseTree.SparseMerkleTree.CalculateSubtreeHash` | cpp/merkletree/sparse_merkle_tree.cc:118-157 | The hash of the complete tree over the content below the node, with caches, null hashes and single leaves. |
| `SparseTree.SparseMerkleTree.HashLeafBranch` | cpp/merkletree/sparse_merkle_tree.cc:138-151 | The loop hashes a lone leaf up to its node through null hashes. |
| `SparseTree.SparseMerkleTree.CurrentRoot` | cpp/merkletree/sparse_merkle_tree.cc:160-166 | For every sequence of calls: the root of the complete binary tree whose leaves are the last values set, or empty. |
| `SequencedData.SetThenAt` | python/demo/vdb/verifiable_map.py:32-51 | A value set at a time is in force from then on, and no earlier value changes. |
| `SequencedData.AtAfterLast` | python/demo/vdb/verifiable_map.py:32-37 | From the last entry on the last value stays in force. |
| `MapSnapshot.BranchIsFull` | python/demo/vdb/verifiable_map.py:138-145 | Hashing a lone value up through default hashes gives the hash of the complete tree there. |
| `MapSnapshot.HashIsFull` | python/demo/vdb/verifiable_map.py:131-149 | If every node has the hash that its value or its children give it, every node has the hash of the complete tree over the content below it. |
| `MapSnapshot.ClearShape` | python/demo/vdb/verifiable_map.py:230-234 | Taking a value out of its node removes exactly its key from the content. |
| `MapSnapshot.StoreShape` | python/demo/vdb/verifiable_map.py:257-261 | Storing a value where nothing else is below adds exactly its key to the content, and no other node is touched by it. |
| `MapSnapshot.LinkShape` | python/demo/vdb/verifiable_map.py:243-254 | A new node goes where nothing was, and changes no content. |
| `MapSnapshot.LinkLocal` | python/demo/vdb/verifiable_map.py:94-101 | A new empty node has the default hash that stood for it, so no hash has to change. |
| `MapSnapshot.RedoLocal` | python/demo/vdb/verifiable_map.py:147-149 | Correcting one hash can make only the hash of the parent wrong. |
| `MapNodes.LookChanged` | python/demo/vdb/verifiable_map.py:121-127 | A change at a time changes that one node in the version from then on, and no earlier version. |
| `MapNodes.LookLinked` | python/demo/vdb/verifiable_map.py:115-119 | A node that is linked now is in no earlier version. |
| `MapProofs.TrueProofRoot` | python/demo/vdb/verifiable_map.py:333-341 | The hashes beside a path lead from what the version says about the key, present or absent, to its root. |
| `MapProofs.ProofSound` | python/demo/vdb/verifiable_map.py:333-341 | Any proof, of any length and with entries of any length, that leads from a value to the root shows the value that the version has for the key, or two hashed inputs collide. |
| `MapProofs.CompressProof` | python/demo/vdb/verifiable_map.py:182-195 | The entries stand for the proof with its default hashes blanked out, with no default written out, no empty count and no two counts in a row. |
| `MapProofs.CompressedUnique` | python/demo/vdb/verifiable_map.py:182-195 | Only one compressed list stands for a proof, so the result is the shortest. |
| `MapProofs.DecompressProof` | python/demo/vdb/verifiable_map.py:198-205 | Blanks become the default hash of their level; an IndexError exactly when there is a blank past the last level. |
| `MapProofs.CompressionUndone` | python/demo/vdb/verifiable_map.py:182-205 | Decompression undoes compression exactly when no other entry than a default is the empty string. |
| `MapProofs.RecalcTreeHash` | python/demo/vdb/verifiable_map.py:334-341 | The loop over the reversed pairs computes the root that the decompressed proof leads to. |
| `MapProofs.RecalcComplete` | python/demo/vdb/verifiable_map.py:334-341 | The true proof of a key, with whatever follows it, is recalculated to the root of the version. |
| `MapProofs.RecalcSound` | python/demo/vdb/verifiable_map.py:334-341 | Whatever list of entries recalculates the root of a version, the value is the one that the version has for the key, or two hashed inputs collide. |
| `VersionedMap.VerifiableMap.constructor` | python/demo/vdb/verifiable_map.py:209-213 | The empty map, recorded as version 0. |
| `VersionedMap.BranchHash` | python/demo/vdb/verifiable_map.py:139-145 | The loop computes the hash of a lone value at a depth. |
| `VersionedMap.VerifiableMap.ComputeHash` | python/demo/vdb/verifiable_map.py:131-145 | The hash of a node from its value or its children. |
| `VersionedMap.VerifiableMap.RedoHash` | python/demo/vdb/verifiable_map.py:131-149 | After a change in one node, correcting upwards until a hash stays the same makes all hashes of the version right; earlier versions stay, and no set is refused. |
| `VersionedMap.VerifiableMap.SetBoth` | python/demo/vdb/verifiable_map.py:121-127 | A path and value, or none, take effect in two mutations, with all hashes right afterwards. |
| `VersionedMap.VerifiableMap.AddChild` | python/demo/vdb/verifiable_map.py:243-254 | A new node is linked in one mutation and changes no content and no hash. |
| `VersionedMap.VerifiableMap.Place` | python/demo/vdb/verifiable_map.py:218-261 | The content gains exactly this key with this value, a displaced value is put back further down, and every earlier version is still there. |
| `VersionedMap.VerifiableMap.Descend` | python/demo/vdb/verifiable_map.py:236-255 | One round of the loop stores the value in the node itself or below it. |
| `VersionedMap.VerifiableMap.Put` | python/demo/vdb/verifiable_map.py:264-265 | Sets one key, records the new version, and keeps every recorded version with all it says. |
| `VersionedMap.VerifiableMap.Walk` | python/demo/vdb/verifiable_map.py:284-301 | The walk collects true sibling hashes and ends at the node of the key, at a value of another key, or at a missing link. |
| `VersionedMap.VerifiableMap.Finish` | python/demo/vdb/verifiable_map.py:303-319 | The rest of the proof, below the last node, is the true proof. |
| `VersionedMap.Part` | python/demo/vdb/verifiable_map.py:307-316 | Beside the path of another value the proof is defaults, then the branch of that value, then defaults. |
| `VersionedMap.VerifiableMap.Get` | python/demo/vdb/verifiable_map.py:284-321 | At every recorded version: what the map held for the key then, or the empty string, with a proof that recalculates the root hash of that version. |
| `VersionedMap.VerifiableMap.GetLatest` | python/demo/vdb/verifiable_map.py:269-279 | What the map holds for the key now, or the empty string. |
| `VersionedMap.VerifiableMap.Contents` | python/demo/vdb/verifiable_map.py:269-279 | Stands for all that an `_apply_operation` can read through `get_latest`: what the map holds now, key by key. |
| `VersionedMap.VerifiableMap.TreeHead` | python/demo/vdb/verifiable_map.py:324-331 | At every recorded version: the root of the complete tree over the content then. |
| `VerifiableLog.CarryIsAppend` | python/demo/vdb/verifiable_log.py:37-40 | Joining as often as the leaf number has one bits at its end keeps the stack at the full subtrees of the leaves so far. |
| `VerifiableLog.JoinAll` | python/demo/vdb/verifiable_log.py:39-41 | Joining everything after the last leaf leaves the RFC 6962 tree hash alone on the stack. |
| `VerifiableLog.HashStack` | python/demo/vdb/verifiable_log.py:35-41 | The loops give the tree hash of a range that exists, the first full subtree of one that ends past the log, and an IndexError for one with no entry. |
| `VerifiableLog.SizesDiffer` | python/demo/vdb/verifiable_log.py:31-43 | Lists of different sizes have different tree hashes, or two hashed inputs collide. |
| `VerifiableLog.AnswerExactly` | python/demo/vdb/verifiable_log.py:31-43 | A hash that was cached when the log had n entries is that of the range in the grown log exactly when the range ends within the n entries, or two hashed inputs collide. |
| `VerifiableLog.Half` | python/demo/vdb/verifiable_log.py:53 | The shift by the length of `bin(n - 1)` is the split of RFC 6962 for n >= 2, 1 for n = 1, and past 1 - n for a range that ends before it starts. |
| `VerifiableLog.SubproofReversed` | python/demo/vdb/verifiable_log.py:45-57 | From a larger to a smaller size the recursion ends, and one of its ranges ends before it starts. |
| `VerifiableLog.PathReversed` | python/demo/vdb/verifiable_log.py:59-68 | The same for a path in a tree of no entries. |
| `VerifiableLog.NotedExactly` | python/demo/vdb/verifiable_log.py:25-43 | Hashing a list of ranges up to the first exception leaves no hash past the log in the cache exactly when no range across the end of the log comes before the first range without an entry. |
| `VerifiableLog.ReversedSpoils` | python/demo/vdb/verifiable_log.py:25-29 | In every log of 7 entries a consistency proof from 5 to 2 leaves a hash in the cache that is wrong in the audit path of entry 4 once there are 8, or two hashed inputs collide. |
| `VerifiableLog.SubproofIs` | python/demo/vdb/verifiable_log.py:45-57 | The hashes of the ranges are SUBPROOF of RFC 6962. |
| `VerifiableLog.PathIs` | python/demo/vdb/verifiable_log.py:59-68 | The hashes of the ranges are PATH of RFC 6962. |
| `VerifiableLog.VerifiableLog.CalcMth` | python/demo/vdb/verifiable_log.py:31-43 | For every history of calls: the hash of the range in the log of the time when it was first asked for, which is then cached. |
| `VerifiableLog.VerifiableLog.TreeHead` | python/demo/vdb/verifiable_log.py:15-23 | The tree hash of the first entries, or none for no entries, or an exception exactly past the log, unless a range past the log was hashed before. |
| `VerifiableLog.VerifiableLog.ConsistencyProof` | python/demo/vdb/verifiable_log.py:25-26 | For all sizes: the answers of `_calc_mth` for the ranges of `_subproof`, or an exception exactly if one fails, and what the cache holds afterwards; nothing for equal sizes, an exception from 0 or from a larger size. No hash past the log is left exactly when `NotedExactly` says. For 0 < first <= second within the log this is PROOF, unless a range past the log was hashed before. |
| `VerifiableLog.VerifiableLog.InclusionProof` | python/demo/vdb/verifiable_log.py:28-29 | For all m and n: the answers of `_calc_mth` for the ranges of `_path`, or an exception exactly if one fails, always for n = 0, and what the cache holds afterwards. No hash past the log is left exactly when `NotedExactly` says. For 0 < n within the log this is PATH, unless a range past the log was hashed before. |
| `VerifiableLog.VerifiableLog.GetEntries` | python/demo/vdb/verifiable_log.py:12-13 | The entries from start to end, both included, as far as they exist. |
| `VerifiableBase.ReplayPrefix` | python/demo/vdb/verifiable_base.py:26-34 | More log entries do not change what the first ones lead to. |
| `VerifiableBase.LastPutWins` | python/demo/vdb/verifiable_base.py:26-34 | Of the puts of an entry the last one of a key counts, and keys without a put keep what they had. |
| `VerifiableBase.VerifiableBase.UpdateFromLog` | python/demo/vdb/verifiable_base.py:26-34 | Processes the whole log, with a map version recorded for every log size; what an entry does may depend on all that the map holds. |
| `VerifiableBase.VerifiableBase.Get` | python/demo/vdb/verifiable_base.py:42-45 | A read at log size t is a read of the replay of the first t entries, with a proof that leads to its root; a ValueError exactly past the processed size. |
| `VerifiableBase.VerifiableBase.TreeHead` | python/demo/vdb/verifiable_base.py:50-60 | The root of the replay of the first t entries and the tree head of the log at t, after catching up with the log exactly when that is needed; a ValueError exactly past the log. |
| `VerifiableBase.VerifiableBase.LogConsistency` | python/demo/vdb/verifiable_base.py:65-66 | The map and its versions stay; the proof, and whether a hash past the log is left behind, are those of the log. |
| `TaskProtocol.TryDoneKeeps` | cpp/util/task.cc:207-224 | Going to DONE when prepared and without holds keeps the account of one object. |
| `TaskProtocol.CancelCoreKeeps` | cpp/util/task.cc:34-67 | Cancelling moves every waiting cancel callback to its way to the executor, with one hold each, and never twice. |
| `TaskProtocol.ReturnCoreKeeps` | cpp/util/task.cc:77-108 | Returning keeps the account of one object: cancel callbacks that are not due are dropped, and it is prepared or done. |
| `TaskProtocol.HoldCoreKeeps` | cpp/util/task.cc:111-128 | Adding and removing holds keeps the account; an outstanding hold means that its removal fails no CHECK. |
| `TaskProtocol.WhenCancelledKeeps` | cpp/util/task.cc:149-165 | A new cancel callback waits, is under way, or is dropped, by the state. |
| `TaskProtocol.FinishCancelKeeps` | cpp/util/task.cc:227-230 | A finished cancel callback gives back its hold. |
| `TaskProtocol.DonePathKeeps` | cpp/util/task.cc:233-252 | The way to the done callback goes through all cleanups once. |
| `TaskProtocol.AddChildKeeps` | cpp/util/task.cc:168-190 | A new child is owned and held, and is owed a cancel call if its parent is cancelled or no longer active. |
| `TaskProtocol.FinishChildDoneKeeps` | cpp/util/task.cc:255-277 | A child that is done is found among the children of its parent, leaves, and gives back its hold. |
| `TaskProtocol.DeleteKeeps` | cpp/util/task.cc:28-31 | Deletion from the done callback on keeps all links. |
| `TaskProtocol.StepIsSafe` | cpp/util/task.cc:28-277 | From every state with the invariant, no step fails a CHECK or touches a deleted object, and every step keeps the invariant. |
| `TaskProtocol.RunIsSafe` | cpp/util/task.cc:28-277 | The same over every run, from the empty system. |
| `TaskProtocol.Completion` | cpp/util/task.h:35-47 | Over every run: holds are external holds plus cancel callbacks under way plus live children; the done callback runs at most once and only with none left; a cancel callback runs at most once, only if it is due, and before DONE if it is; cleanups run exactly once before the done callback. |
| `TaskProtocol.Cancellation` | cpp/util/task.cc:34-108 | Over every run with no cancel call pending: a cancelled or no longer active object has no cancel callbacks left, and its children are cancelled or done. |
| `TaskProtocol.NothingLost` | cpp/util/task.h:35-47 | Over every run that ends with idle executors, everything returned and no external hold: every done callback, due cancel callback and cleanup has run exactly once. |
| `TaskRest.InternalStepWork` | cpp/util/task.cc:34-277 | Every step that needs no client leaves strictly less work: cancel calls, callbacks and done paths still to go. |
| `TaskRest.InternalEnds` | cpp/util/task.cc:34-277 | From every state with the invariant, no sequence of steps without clients is longer than the work there is. |
| `TaskRest.RestIsReachable` | cpp/util/task.cc:34-277 | From every state with the invariant, steps without clients lead to idle executors. |
| `TaskRest.ExecutorUnused` | cpp/util/task.h:15-17 | Over every run: once the done callback of a task has started, its executor is handed nothing more and holds nothing of it. |
| `TaskRest.EverythingFinishes` | cpp/util/task.h:35-47 | After every run in which clients have returned everything and hold nothing, whatever order the executors work in, they come to rest with every task done and every done callback, due cancel callback and cleanup run exactly once. |
| `TaskTrace.RunTraced` | cpp/util/task.cc:28-277 | Over every run the state of every task is what its steps say: returned, holds, callbacks given, due and run, children, deletion. |
| `TaskTrace.OneTask` | cpp/util/task.cc:19-252 | A run from creation over return, done callback and deletion, with the state at its end. |
| `TaskTrace.OnlyWhenDue` | cpp/util/task.h:35-47 | Over every run, from its steps: nothing runs twice; a cancel callback runs only if it was given and the task cancelled before its return, a cleanup only if it was given, cleanups and the done callback only after the return. |
| `TaskTrace.DoneComesLast` | cpp/util/task.h:35-47 | Over every run, from its steps: when the done callback starts the task has returned, holds are given back, due cancel callbacks have run to their end, cleanups have run, and all children are finished. |
| `TaskTrace.EverythingRuns` | cpp/util/task.h:35-47 | After every run in which every task has returned and every hold was given back, the executors come to rest within a bound, and then every done callback, every cancel callback of a task cancelled before its return and every cleanup has run exactly once, and no other. |
| `TaskTrace.CancelReaches` | cpp/util/task.cc:34-108 | At rest, a child that is not finished has been cancelled if its parent returned or was cancelled before. |
| `TaskTrace.CancelledForAReason` | cpp/util/task.cc:50-62 | Over every run a parent cancels a child at most once for its own cancellation and at most once for its return, and never otherwise. |
| `TaskTrace.CallsAreTaken` | cpp/util/task.cc:34-165 | Over every run, clients can return, cancel, give callbacks and give back holds until deletion, and add holds and cleanups until the return. |
| `TaskTrace.CreationIsTaken` | cpp/util/task.cc:168-190 | Over every run, roots and children of tasks that have not returned can be created. |
| `TaskTrace.DeletionIsTaken` | cpp/util/task.h:53-55 | A root can be deleted from its done callback on. |
| `TaskTrace.ChecksHold` | cpp/util/task.cc:28-277 | Over every run, at every step: what the CHECKs of the source demand holds, and nothing but the return of its done callback happens to a deleted task. |
| `Monitor.SetPendingKeeps` | python/ct/client/monitor.py:87-101 | Taking a tree head that was proved consistent keeps the invariant and only moves forward. |
| `Monitor.AcceptedTree` | python/ct/client/monitor.py:430-445 | An accepted tree has the size and the hash of the pending tree head, and continues the verified entries, or two hashed inputs collide. |
| `Monitor.VerifyTreeKeeps` | python/ct/client/monitor.py:103-119 | The asserts on installing a tree hold, and a rejected tree is discarded. |
| `Monitor.StepIsSafe` | python/ct/client/monitor.py:61-445 | Every callback, with any reply, keeps the invariant, breaks no assert, and only moves the verified state forward. |
| `Monitor.RunIsSafe` | python/ct/client/monitor.py:61-445 | The same over every run, with failures and restarts, from the first start. |
| `Monitor.VerifiedHead` | python/ct/client/monitor.py:87-119 | Over every run: the verified tree head came in a reply with a good signature, has the size and the hash of the verified tree, which is not empty, and is what the state file holds. |
| `Monitor.SignedInReplies` | python/ct/client/monitor.py:220-224 | Over every run: what counts as a signed tree head came in a reply whose signature and hash length were right. |
| `Monitor.PendingHead` | python/ct/client/monitor.py:87-101 | Over every run: a pending tree head came in a reply with a good signature, is newer and larger than the verified one, and was proved consistent with it. |
| `Monitor.EmptyLogNeverAccepted` | python/ct/client/monitor.py:208-231 | Over every run, whatever its hash, signature and proof: the reply with the tree head of an empty log ends the update with nothing verified and nothing pending by it. |
| `Monitor.RunAdvances` | python/ct/client/monitor.py:61-445 | Between any two moments of a run: timestamps of verified tree heads strictly increase with every change, sizes never shrink, and verified entries only grow by appending, or two inputs hashed during the run collide. |
| `Monitor.RunTidyExactly` | python/ct/client/monitor.py:325-377 | Over every run: verified entries are a prefix of the unverified ones at every moment exactly when no tree is accepted after a scan left behind failed. |
| `Monitor.TidyExactly` | python/ct/client/monitor.py:295-323 | Over every run: accepting a tree keeps that prefix exactly when no scan left behind has failed since its last batch arrived or its verification began. |
| `Monitor.LateScanLoses` | python/ct/client/monitor.py:319-323 | A run in which a scan of an abandoned fetch fails late, and two verified entries are not among the unverified ones. |
| `MonitorEvents.SthVerdictExactly` | python/ct/crypto/verify.py:257-319 | For all pairs of tree heads: a ValueError exactly in the wrong order of time, an alarm for two sizes at one time, a shrinking log or two hashes of one size, and otherwise the verdict about the proof. |
| `MonitorEvents.HeadExactly` | python/ct/client/monitor.py:87-231 | For every idle state, tree head and proof: when a proof is asked for, when a tree head becomes pending, when one of the same size is verified at once, and that otherwise nothing changes. |
| `MonitorEvents.TreeExactly` | python/ct/client/monitor.py:103-119 | For every tree and proof: accepted exactly with the size and the hash of the pending tree head, and otherwise the unverified entries are dropped. |
| `MonitorEvents.FailedScanDrops` | python/ct/client/monitor.py:319-323 | A failed scan leaves no unverified entries, in memory and in the state file. |
| `MonitorEvents.FailureKeeps` | python/ct/client/monitor.py:61-85 | A failed request ends the update and keeps everything; a restart loses nothing but the scans left behind. |
| `MonitorEvents.ScansInSteps` | python/ct/client/monitor.py:361-377 | Over every run: which scans are under way or left behind is what the steps say. |
| `MonitorEvents.ScanBeforeNext` | python/ct/client/monitor.py:361-377 | Over every run: a batch is taken exactly while entries are missing and the fetch ends exactly when none are, and both wait for the last scan. |
| `HonestLog.HonestUpdate` | python/ct/client/monitor.py:452-460 | From any idle state whose entries belong to a log, with a pending tree head or none, entries fetched or lost, and any split into batches: true replies to one update end with the pending tree head, or else the whole log, verified. |
| `HonestLog.HonestRefresh` | python/ct/client/monitor.py:96-101 | With all entries verified, a newer tree head for them becomes the verified one at once, whatever the proof. |
| `HonestLog.TooManyDropped` | python/ct/client/monitor.py:325-377 | More unverified entries than the pending tree head has are dropped by one update, and the next one starts from the verified ones. |
| `EntryProducer.EntryProducer.constructor` | python/ct/client/async_log_client.py:137-158 | Nothing asked for, nothing delivered. |
| `EntryProducer.EntryProducer.Conservation` | python/ct/client/async_log_client.py:200-213 | Stored plus in flight is what has been asked for and not delivered; at most the limit plus two is in flight, and at most the buffer plus that is held at all. |
| `EntryProducer.EntryProducer.WritePending` | python/ct/client/async_log_client.py:200-208 | Hands over exactly the pending entries, once. |
| `EntryProducer.EntryProducer.FillBatches` | python/ct/client/async_log_client.py:294-304 | Asks for the next ranges without a gap, in whole batches except at the end of the range or at the limit, until a limit is reached, and leaves the queue non-empty, so that the blocking get does not wait. |
| `EntryProducer.EntryProducer.Reply` | python/ct/client/async_log_client.py:260-281 | A partial answer to any open request keeps all counters; the last part completes the batch. |
| `EntryProducer.EntryProducer.Produce` | python/ct/client/async_log_client.py:283-312 | For every schedule of partial answers in any order: finishes, with exactly the entries from start to end delivered, once each and in order. |
| `BigEndian.FromTo` | cpp/proto/tls_encoding.h:62-69 | Reading a number back from its bytes gives the number. |
| `BigEndian.ToFrom` | cpp/proto/tls_encoding.h:127-140 | Writing a number read from bytes gives the bytes. |
| `BigEndian.NumberIs` | python/ct/serialization/tls_message.py:49-55 | Bytes are those of a number exactly when the number is read from them. |
| `BigEndian.ByteAt` | cpp/proto/tls_encoding.h:62-69 | Byte i of k is the number divided by 256 to the k - 1 - i, modulo 256. |
| `BigEndian.BytesForHolds` | python/ct/serialization/tls_message.py:187-193 | The number of bytes for a maximum holds every value up to it. |
| `BigEndian.BytesForLeast` | python/ct/serialization/tls_message.py:57-59 | No smaller number of bytes does. |
| `TlsSchema.UintRoundTrip` | python/ct/serialization/tls_message.py:49-55 | A number is read back with any suffix untouched. |
| `TlsSchema.VarRoundTrip` | python/ct/serialization/tls_message.py:76-78 | A string with a length prefix is read back with any suffix untouched. |
| `TlsSchema.FieldsRoundTrip` | python/ct/serialization/tls_message.py:126-153 | For every sound schema, nested, repeated and selected: reading what was written gives the message and leaves any suffix. |
| `TlsSchema.FieldsCanonical` | python/ct/serialization/tls_message.py:126-153 | For every sound schema: writing what was read gives exactly the bytes that were read. |
| `TlsSchema.DecodeInvertsEncode` | python/ct/serialization/tls_message.py:287-299 | For every sound schema, a message is decoded from some bytes exactly when it is encoded as them and agrees with what the target message had filled in. |
| `TlsLayout.FieldAtItsPlace` | python/ct/serialization/tls_message.py:260-285 | For every schema and field: the encoding is the fields before, then the field exactly if it is not skipped and its selector, if any, has its value, then the fields behind. |
| `TlsLayout.UnselectedIsIgnored` | python/ct/serialization/tls_message.py:266-272 | A field that is skipped or not selected does not matter to the encoding, as long as no other field is selected by it. |
| `TlsLayout.UnselectedIsKept` | python/ct/serialization/tls_message.py:133-140 | Decoding leaves a field that is skipped or not selected as it was. |
| `TlsLayout.ValueLayout` | python/ct/serialization/tls_message.py:195-236 | For every type, value and bytes: written as them exactly if the value is within its limits and the bytes are its big-endian number, its fixed bytes, or its length and its bytes. |
| `TlsLayout.ItemsJoin` | python/ct/serialization/tls_message.py:238-258 | Items lie one after the other, in order. |
| `TlsLayout.RepeatedLayout` | python/ct/serialization/tls_message.py:238-258 | A repeated field is the length of its items and the items, with the limits of the enum for enums and of the field otherwise. |
| `TlsSchema.RepeatedEnumExactly` | python/ct/serialization/tls_message.py:101-124 | For every repeated enum field with a writable value: reading and writing are inverse for all items and bytes exactly when the two limits allow the same numbers of items, behind prefixes of the same width if any. |
| `TlsSchema.RepeatedNeedsLimit` | python/ct/serialization/tls_message.py:101-124 | Any other repeated field without a length limit writes the empty list and cannot read it back. |
| `TlsSchema.RepeatedEnumIsLost` | python/ct/serialization/tls_message.py:238-258 | An instance: a repeated enum field that can be read but not written back. |
| `TlsMessage.TlsReader.ReadFixedBytes` | python/ct/serialization/tls_message.py:33-40 | The next bytes, or an error exactly on underrun. |
| `TlsMessage.TlsReader.ReadNumber` | python/ct/serialization/tls_message.py:49-55 | The loop computes the number of the format. |
| `TlsMessage.TlsReader.ReadBoundedNumber` | python/ct/serialization/tls_message.py:57-63 | A number within its bounds, or an error. |
| `TlsMessage.TlsReader.ReadVarBytes` | python/ct/serialization/tls_message.py:76-78 | A string with its length prefix. |
| `TlsMessage.TlsReader.ReadValue` | python/ct/serialization/tls_message.py:65-99 | The value of each type as the format says, errors included. |
| `TlsMessage.TlsReader.ReadToEnd` | python/ct/serialization/tls_message.py:112-124 | The loop reads the items that the format says. |
| `TlsMessage.TlsReader.ReadRepeated` | python/ct/serialization/tls_message.py:101-124 | A repeated field is read through a reader of its own and appended. |
| `TlsMessage.TlsReader.Read` | python/ct/serialization/tls_message.py:126-153 | The loop over the fields reads the message that the format says, and advances by exactly its bytes. |
| `TlsMessage.DecodeMessage` | python/ct/serialization/tls_message.py:155-159 | The decoded message, or an error also when bytes are left. |
| `TlsMessage.TlsWriter.WriteNumber` | python/ct/serialization/tls_message.py:176-185 | The reversed little-endian loop writes the bytes of the format; an error exactly when the value is too large. |
| `TlsMessage.TlsWriter.WriteValue` | python/ct/serialization/tls_message.py:195-236 | The value of each type as the format says, errors included. |
| `TlsMessage.TlsWriter.WriteRepeated` | python/ct/serialization/tls_message.py:238-258 | Items into a writer of their own, then length and bytes, with the limits of the enum for enums. |
| `TlsMessage.TlsWriter.Write` | python/ct/serialization/tls_message.py:260-285 | Appends exactly the bytes of the format for the message. |
| `TlsMessage.EncodeMessage` | python/ct/serialization/tls_message.py:287-291 | The encoded bytes, or an error. |
| `CppLists.LimitExactly` | cpp/proto/tls_encoding.cc:168-175 | The limits whose prefix is too short for them are exactly the powers of 256. |
| `CppLists.PrefixHolds` | cpp/proto/tls_encoding.cc:168-175 | The prefix holds every length up to the limit, except the limit itself if that is a power of 256. |
| `CppLists.SerializedListLength` | cpp/proto/tls_encoding.cc:27-43 | For all limits: 0 when a string or the list is too long, and otherwise the whole length, which is 0 only under a total limit of 1; no subtraction goes below 0. |
| `CppLists.WriteNumber` | cpp/proto/tls_encoding.h:62-69 | The loop from the top byte down appends the big-endian bytes; a failed CHECK exactly when they are too few. |
| `CppLists.WriteVarBytes` | cpp/proto/tls_encoding.cc:125-132 | Appends the prefix and the string, or fails a CHECK exactly when the string is longer than the limit or its length does not fit the prefix. |
| `CppLists.WriteList` | cpp/proto/tls_encoding.cc:134-153 | For all limits: the bytes of the list, the first error in the order of the checks, or a failed CHECK. |
| `CppLists.FatalExactly` | cpp/proto/tls_encoding.cc:134-153 | A CHECK fails exactly for a list that fits and has a string, or a total length, equal to a limit that is a power of 256. |
| `CppLists.ListInverse` | cpp/proto/tls_encoding.cc:134-243 | For all limits, lists and bytes: a list is read from exactly the bytes that it is written as, if and only if this is not the empty list under a total limit of 1 and no bytes. |
| `ListLayout.PrefixLeast` | cpp/proto/tls_encoding.cc:168-175 | The prefix is the shortest with as many values as the limit. |
| `ListLayout.LayoutExactly` | cpp/proto/tls_encoding.cc:134-153 | For all limits and bytes: a list is written as them exactly if no string is empty or too long and they are the total length within its limit and each string behind its length. |
| `ListLayout.FirstBadIs` | cpp/proto/tls_encoding.cc:136-141 | The error is that of the first string that is empty or too long. |
| `ListLayout.RefusedFor` | cpp/proto/tls_encoding.cc:134-153 | Good strings are refused exactly when they do not fit with their prefixes, or when there is nothing to write. |
| `ListLayout.ShortAndLong` | cpp/proto/tls_encoding.cc:222-231 | Every proper prefix of a written list is refused as too short, and every continuation as too long. |
| `ListLayout.BadBody` | cpp/proto/tls_encoding.cc:233-241 | After good strings, a length of 0 is an empty string, and what is no string is a bad encoding. |
| `CppCodec.TlsDeserializer.ReadNumber` | cpp/proto/tls_encoding.h:127-140 | The loop computes the number, and advances by exactly its bytes. |
| `CppCodec.TlsDeserializer.ReadFixedBytes` | cpp/proto/tls_encoding.cc:195-202 | The next bytes, or failure exactly on underrun. |
| `CppCodec.TlsDeserializer.ReadVarBytes` | cpp/proto/tls_encoding.cc:205-220 | For all limits: a string with its length prefix, or failure. |
| `CppCodec.TlsDeserializer.ReadList` | cpp/proto/tls_encoding.cc:222-243 | For all limits: the list of the format, or its error. |
| `CppCodec.TlsDeserializer.ReadSctExtension` | cpp/proto/serializer.cc:420-452 | The extensions of the format, or its error, and the position after them. |
| `CppCodec.CheckSctExtensionsFormat` | cpp/proto/serializer.cc:362-388 | The first thing wrong with the extensions, in the order of the checks. |
| `CppCodec.WriteSctExtension` | cpp/proto/serializer.cc:227-235 | Appends the count and the extensions of the format. |
| `CppSct.FirstWrongExactly` | cpp/proto/serializer.cc:359-388 | Nothing is wrong exactly with small extensions in ascending order of type. |
| `CppSct.SignedBack` | cpp/proto/tls_encoding.cc:155-166 | A signature is read back with any suffix untouched. |
| `CppSct.SignedCanonical` | cpp/proto/tls_encoding.cc:246-266 | Writing a signature that was read gives the bytes that were read. |
| `CppSct.SctBack` | cpp/proto/serializer.cc:258-278 | Reading a written timestamp gives it back, except for the extensions of version 1. |
| `CppSct.V1DropsExtensions` | cpp/proto/serializer.cc:393-415 | The round trip of version 1 is exact exactly without extensions. |
| `CppSct.SctInverse` | cpp/proto/serializer.cc:454-475 | A V2 timestamp is read from exactly the bytes that it is written as. |
| `SctLayout.LayoutExactly` | cpp/proto/serializer.cc:209-255 | For all timestamps and bytes: written as them exactly with a 32-byte key id, allowed extensions and an allowed signature, and with the version at 0, the key id at 1, the time at 33, the extensions at 41 and the signature at the end. |
| `SctLayout.FirstWrongIs` | cpp/proto/serializer.cc:359-388 | The error is that of the first extension that is too long, has too large a type, or is out of order. |
| `SctLayout.RefusedFor` | cpp/proto/serializer.cc:209-255 | What may not be written is refused for its extensions, then its key id, then its algorithms, then the length of its signature. |
| `SctLayout.ShortAndLong` | cpp/proto/serializer.cc:521-532 | Every proper prefix of a written timestamp is refused as too short, and every continuation as too long. |
| `SctLayout.OtherVersions` | cpp/proto/serializer.cc:493-519 | Unsupported exactly for a first byte above 1. |
| `SctLayout.ListRefused` | cpp/proto/serializer.cc:420-452 | A count above 65534 and extensions out of order are refused, each with its error. |
| `SctLayout.SignatureRefused` | cpp/proto/tls_encoding.cc:246-266 | Algorithms above 6 and 3 are refused, in this order, and otherwise only what is too short. |

## Left out

- SHA-256, signatures, certificates, ASN.1 and JSON: foreign code; hashing is a parameter and a signature check is a yes or no in `Monitor`.
- `MutableMerkleTree`: its updates do not keep the invariant of the level arrays.
- `SparseMerkleTree::InclusionProof` is not implemented in the source, and its 64-bit node index is a placeholder there; indexes are unbounded here and the number of path bits is a parameter.
- Base 64 in map and log proofs, and the debug dumps.
- Failed writes of the monitor's state file, overlapping calls of `update`, the database and the reports.
- Producer pause, resume, stop and failure; the entries database.
- Deadlock of the locks in `Task`, the status values, and misuse by clients that the header forbids.
- Default values of protocol buffer fields other than zero, the first enum value and empty.
- Merkle leaves, V1 and V2 tree head inputs and certificate formats of the C++ serializer: sequences of the numbers, strings and lists that are modelled, without a loop or state of their own.
- Thread pools, connection pools, URL fetchers, HTTP clients, SQLite stores, scanners, command-line tools and metrics: plumbing.
- VersionedMap.VerifiableMap.Get: only at times at which a put ended, which are the ones that `VerifiableBase` asks for; between two mutations a node can have a value and no path, and the source fails on it.
- VersionedMap.VerifiableMap.TreeHead: the same times.
- SparseTree.GetNullHashes: the table is computed for the given hasher; the source keeps the table of the first hasher of the process for all.
- TlsMessage.TlsReader.ReadToEnd: where the source loops for ever on an item without bytes, the method returns an error.
- EntryProducer.EntryProducer.Produce: the consumer never fails, and every request is answered in the end.
