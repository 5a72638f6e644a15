# Verified model of the baseline commitment manager and its companions

This project models, in Dafny, the logic of three parts of the repository and proves what they are for.

1. **Commitment manager** (`examples/bri-2/commit-mgr`). Leaves of an on-chain Merkle tree are stored in
   bucketed documents. `updateTree` brings the stored tree up to date from a *frontier*, one saved value per
   level, instead of rebuilding it. Witness paths are read out of the store and folded back to the root, and
   leaves missed while the service was offline are replayed from the chain log.
2. **Positional numerals and MiMC** (`core/privacy`). Schoolbook addition, double-and-add multiplication,
   conversion between bases, field limbs, modular exponentiation, the MiMC cipher and sponge, a recursive
   Merkle fold.
3. **Supplier selection** (`examples/bri-1/base-example`). A window search over calendars, the earliest day
   that suits every category, and an odometer that enumerates all combinations of suppliers.

## How it is built

- `Arithmetic`, `Text`: powers, 32-bit integers of JavaScript, hexadecimal text.
- `Binary`, `NodeIndex`: powers of two, level shifts, frontier slots (with the 32-bit shifts written out), node
  numbering and paths.
- `Hashing`: truncation and hex decoding as in the source; the digest of a byte sequence is a parameter. `Config`
  carries the node length, 27 or 32 bytes.
- `ReferenceTree`: the plain recursion `TreeRoot` that everything is compared with, the same tree addressed from
  the leaves (`NodeValue`), and the same root computed on bytes alone (`ByteRoot`).
- `Store`, `TreeState`: the documents as values, where readers and writers find a cell, and `Consistent`, the
  invariant that fixes root, frontier, nodes and leaves in terms of the reference tree.
- `CommitmentTree`: the class whose methods are the operations of the service; `LeafRange` says what its range read
  finds, with and without gaps. The loop bodies of `updateNodes` are methods of their own (`StoreNode`,
  `HashToSlot`, `AbsorbLeaf`, `HashToRoot`). A read that needs a missing document yields `NoDocument`, where the
  source throws.
- `HashCount`, `Membership`, `ChainReplay`: hash counts, proofs of membership, catching up with the chain.
- `Runs`: a simple service without any data structure (`Ideal`), and the proof that the class follows it through
  new leaves, updates, outages and restarts in any order.
- `Examples`: concrete failing inputs.
- `Digits`, `Conversions`, `Limbs`, `Mimc`: the numeral and MiMC part.
- `Odometer`, `Overlap`, `Window`, `Selection`: supplier selection, the last being the pipeline as a whole.

Arrays with holes are sequences of options (`Sparse`): reading past the end gives nothing, writing extends.
Each service operation is one atomic step on the documents.

## What turned out not to hold, and exactly when it does

- A witness path read from the store is not always accepted by `baseline_verify`. It is accepted when the
  sibling leaf lies in the first bucket (or is absent, or enters a hash as zero does) and the tree is not full or
  values keep 32 bytes; and, unless the hash function itself is broken, only then (`OwnPathAccepted`). The first
  condition comes from `insertLeaf` writing at the node index without the bucket modulus, the second from the
  inner loop of `updateNodes` storing a truncated root. `RejectedOwnProof` and `FullTreeRejectsOwnProof` are
  concrete trees for the two.
- `baseline_verify` checks neither the length nor the sides of a path. What an accepted path proves in general is
  `AcceptedPathBinds`; it proves a leaf only if it has as many steps as the tree has levels.
- Binding is stated without assuming an injective hash, which no function to 27-byte values is: `FindBreach` is
  an explicit search that returns, in the bytes that SHA-256 works on, a collision or a preimage of zero from any
  accepted path that disagrees with the tree.
- `insertLeaf` finds its document exactly if the node index lies in one of the existing documents; the service
  creates only the first, which has room for 25001 - 2^height leaves (`DocumentsReach`).
- The range read returns each stored leaf once if and only if no missing leaf is followed by a stored one of the
  same bucket (`GetLeavesByLeafIndexRange`); otherwise it returns leaves twice (`GapReadsTwice`).
- `getFrontierSlot` loops forever on leaf indices i for which 2^31 divides i + 1, because its powers are
  shifted as 32-bit integers (`SlotLoopStops`). The tree operations therefore stop at 2^31 - 1 leaves.
  `multiplyByNumber` loops forever exactly on factors whose signed 32-bit value is negative, and multiplies with
  that value otherwise (`MultiplicationStops`).
- A restart completes the stored leaves if and only if the service had stopped at a block boundary
  (`RestartCompletes`): the replay starts at the block after the latest stored leaf. What is missed stays missing
  through every new leaf, stop and restart (`LostForGood`), and tracking the tree again, which replays from block
  0, brings all of it back (`TrackRecovers`). `HalfBlockStaysIncomplete` is a concrete loss.
- `merkleHash` terminates if and only if the number of leaves is 2, 4, 8 and so on (`MerkleHashTerminates`).
- The window search never uses the last day of the calendar or of the time window, and a task of length zero
  marks every day (`SuitabilityFinder`).

## Model

| member | source | states |
|---|---|---|
| Binary.RightShiftIsShift | examples/bri-2/commit-mgr/src/merkle-tree/utils.js:14-16 | dividing by a power of two and repeated halving are the same level shift |
| Binary.SlotIsLargestDivisor | examples/bri-2/commit-mgr/src/merkle-tree/utils.js:81-99 | the slot of leaf i is the largest k such that 2^k divides i + 1, in both directions |
| Binary.SlotParity | examples/bri-2/commit-mgr/src/merkle-tree/utils.js:81-99 | below its slot the path of a leaf consists of right children, at the slot it is a left child |
| Binary.ShiftSucc | examples/bri-2/commit-mgr/src/merkle-tree/utils.js:138-175 | one more leaf completes exactly its ancestors up to the slot |
| Binary.SlotInTree | examples/bri-2/commit-mgr/src/merkle-tree/utils.js:138-178 | the slot is at most the height, and equals it exactly for the last leaf of the tree |
| Binary.LoopTestMeaning | examples/bri-2/commit-mgr/src/merkle-tree/utils.js:85-96 | with 32-bit shifts, test number k of the loop succeeds exactly when k + 1 is the slot |
| Binary.SlotLoopStops | examples/bri-2/commit-mgr/src/merkle-tree/utils.js:85-96 | some test succeeds if and only if 2^31 does not divide leafIndex + 1 |
| Binary.GetFrontierSlot | examples/bri-2/commit-mgr/src/merkle-tree/utils.js:82-99 | the loop terminates with the slot on every index on which it can terminate |
| NodeIndex.ParentOfIndex | examples/bri-2/commit-mgr/src/merkle-tree/utils.js:44-47 | parentNodeIndex goes from position p of a level to position p/2 of the next; odd indices are left children |
| NodeIndex.SiblingOfIndex | examples/bri-2/commit-mgr/src/merkle-tree/utils.js:35-42 | siblingNodeIndex is the other child of the same parent; node 0 is its own sibling |
| NodeIndex.IndexInjective | examples/bri-2/commit-mgr/src/merkle-tree/utils.js:25-31 | a node index determines level and position |
| NodeIndex.Locate | examples/bri-2/commit-mgr/src/merkle-tree/utils.js:25-47 | every node index of the tree has a level and a position |
| NodeIndex.GetPathIndices | examples/bri-2/commit-mgr/src/merkle-tree/utils.js:53-64 | the loop collects the ancestors of a node |
| NodeIndex.AncestorsOf | examples/bri-2/commit-mgr/src/merkle-tree/utils.js:53-64 | the ancestors of a node are its level shifts, one per level up to the root |
| NodeIndex.GetSiblingPathIndices | examples/bri-2/commit-mgr/src/merkle-tree/utils.js:68-79 | the sibling of the node, then the sibling of every ancestor |
| NodeIndex.SiblingPathOfLeaf | examples/bri-2/commit-mgr/src/merkle-tree/utils.js:68-79 | a leaf's sibling path has h + 1 entries: the other child at each level, then node 0 |
| Hashing.Config.TailOfTruncate | examples/bri-2/commit-mgr/src/merkle-tree/utils.js:135-154 | truncation is idempotent and invisible to the next hash |
| Hashing.Config.TruncateMeans | examples/bri-2/commit-mgr/src/merkle-tree/utils.js:135-154 | a truncated value is 0x and the last digits of the value, two for each byte kept |
| Hashing.Config.TruncateWord | examples/bri-2/commit-mgr/src/merkle-tree/config.ts:5-19 | a full hash survives truncation if and only if nodes keep 32 bytes |
| Hashing.Config.ZeroMeans | examples/bri-2/commit-mgr/src/merkle-tree/config.ts:6-9 | ZERO is 0x and two digits 0 for each byte of a node, and enters a hash as that many zero bytes |
| Hashing.Config.BytesOfWord | examples/bri-2/commit-mgr/src/merkle-tree/hash.js:34-60 | of a 32-byte word its last bytes enter a hash |
| Hashing.IsWordMeans | examples/bri-2/commit-mgr/src/blockchain/utils.js:89-99 | the values taken are all texts of 0x and 64 hexadecimal characters |
| Hashing.Config.BytesOfTail | examples/bri-2/commit-mgr/src/merkle-tree/hash.js:10-60 | the bytes hashed are those of the value as the source cuts it, strips 0x and decodes it |
| Hashing.Config.BytesLength | examples/bri-2/commit-mgr/src/merkle-tree/hash.js:34-60 | a value contributes at most the configured number of bytes to a hash, and a value of the tree exactly that many |
| ReferenceTree.RootIsTopNode | examples/bri-2/commit-mgr/src/merkle-tree/utils.js:146-207 | the tree addressed from the leaves has the root of the plain recursion, empty subtrees being ZERO |
| ReferenceTree.RootInBytes | examples/bri-2/commit-mgr/src/merkle-tree/utils.js:146-207 | the root, decoded, is the root computed on bytes alone: zero bytes for an empty subtree, otherwise the hash of the last bytes of the left and of the right child |
| ReferenceTree.OneLeafRoot | examples/bri-2/commit-mgr/src/merkle-tree/utils.js:178-207 | the root of one leaf in a tree of height 1, in bytes |
| ReferenceTree.CompleteNodeStable | examples/bri-2/commit-mgr/src/merkle-tree/utils.js:136-175 | a node whose leaves are all present never changes when leaves are appended |
| ReferenceTree.LatestLeftAfterLeaf | examples/bri-2/commit-mgr/src/merkle-tree/utils.js:138-175 | a new leaf changes the latest completed left subtree at its slot level and nowhere else |
| Store.InsertKeepsLeaves | examples/bri-2/commit-mgr/src/merkle-tree/leaves.js:10-40 | inserting the next leaf, or an earlier one again, keeps the leaf cells gap-free and exact |
| Store.InsertKeepsCells | examples/bri-2/commit-mgr/src/merkle-tree/leaves.js:22-32 | a leaf is never written over a node above the leaves, in any bucket |
| Store.DocumentsReach | examples/bri-2/commit-mgr/src/merkle-tree/leaves.js:16-20 | insertLeaf finds its document exactly if the node index lies in one of the existing documents; with one document there is room for BUCKET_SIZE + 1 - 2^h leaves |
| Store.RoomInOneDocument | examples/bri-2/commit-mgr/src/merkle-tree/leaves.js:16-20 | one document takes 8617 leaves at height 14, and all 16 at height 4 |
| Store.WriteInnerKeepsLeaves | examples/bri-2/commit-mgr/src/merkle-tree/utils.js:157-172 | the tree update never overwrites a leaf, in any bucket |
| Store.CellAfterWrite | examples/bri-2/commit-mgr/src/merkle-tree/utils.js:163-172 | writing one node changes exactly that node |
| Store.LeafReadByPosition | examples/bri-2/commit-mgr/src/merkle-tree/index.js:67-88 | a leaf is found by position if and only if it is stored in the first bucket |
| TreeState.HashWithFrontier | examples/bri-2/commit-mgr/src/merkle-tree/utils.js:147-150 | hashing a right child with its frontier slot gives the parent's reference value |
| TreeState.HashWithZero | examples/bri-2/commit-mgr/src/merkle-tree/utils.js:183-187 | hashing the last left child with ZERO gives the parent's reference value |
| TreeState.SlotHoldsLatest | examples/bri-2/commit-mgr/src/merkle-tree/utils.js:138-174 | a frontier slot is written exactly if a left subtree of its level is complete, and holds the last such subtree |
| TreeState.FrontierStep | examples/bri-2/commit-mgr/src/merkle-tree/utils.js:140-174 | storing at the slot moves the frontier from i to i + 1 leaves, each slot holding its latest completed left subtree |
| TreeState.PathStep | examples/bri-2/commit-mgr/src/merkle-tree/utils.js:156-172 | writing the next node of a path keeps every completed node and extends the path |
| TreeState.PathToRoot | examples/bri-2/commit-mgr/src/merkle-tree/utils.js:177-205 | once the last path reaches the root, every occupied node holds its reference value and every other node nothing |
| TreeState.InsertNext | examples/bri-2/commit-mgr/src/merkle-tree/leaves.js:10-40 | inserting the next leaf keeps the document consistent and the recalculated part untouched |
| CommitmentTree.OnlyRightChildrenBelowSlot | examples/bri-2/commit-mgr/src/merkle-tree/utils.js:146-174 | the odd branch of the inner loop is never taken and the slot it reads was written before |
| CommitmentTree.PathAboveSlot | examples/bri-2/commit-mgr/src/merkle-tree/utils.js:178-197 | above the last slot both branches give the parent's reference value, and only node 0 keeps its full hash |
| CommitmentTree.MerkleTree.StoreNode | examples/bri-2/commit-mgr/src/merkle-tree/utils.js:157-172 | one node of a path is stored, in document nodeIndex / 25000 at position nodeIndex % 25000, and nothing else changes |
| CommitmentTree.MerkleTree.HashToSlot | examples/bri-2/commit-mgr/src/merkle-tree/utils.js:146-173 | a leaf is hashed up to its slot in exactly slot hash calls, every node passed being stored with its reference value |
| CommitmentTree.MerkleTree.HashToRoot | examples/bri-2/commit-mgr/src/merkle-tree/utils.js:178-207 | the last path ends in the reference root |
| CommitmentTree.MerkleTree.UpdateNodes | examples/bri-2/commit-mgr/src/merkle-tree/utils.js:102-222 | for every height, leaves present and batch: root, frontier and nodes become those of the plain tree over all leaves that fit; an empty batch leaves no root; the number of hash calls is HashCalls |
| CommitmentTree.MerkleTree.UpdateTree | examples/bri-2/commit-mgr/src/merkle-tree/index.js:97-139 | all stored leaves become accounted for, the document stays consistent, a document that is up to date or has no block number does not change; the root returned is the saved one, or 0x and 64 zeros without a block number |
| CommitmentTree.MerkleTree.InsertLeaf | examples/bri-2/commit-mgr/src/merkle-tree/leaves.js:10-40 | the leaf is written at its node index, in document nodeIndex / 25000, and becomes the latest leaf, nothing else changes; without a document nothing changes at all |
| CommitmentTree.MerkleTree.GetLeafByLeafIndex | examples/bri-2/commit-mgr/src/merkle-tree/leaves.js:47-64 | the stored leaf with the index or none, in a store with or without gaps; no result exactly if its document is missing |
| CommitmentTree.MerkleTree.GetLeavesByLeafIndexRange | examples/bri-2/commit-mgr/src/merkle-tree/leaves.js:73-94 | all stored leaves of the range and no others, across buckets, with or without gaps; each once and ascending if and only if no missing leaf is followed by a stored one of the same bucket; no result exactly if a document of the range is missing |
| LeafRange.MatchingBucket | examples/bri-2/commit-mgr/src/merkle-tree/leaves.js:82-88 | one filter finds the requested leaves of one bucket and no others |
| LeafRange.RangeRound | examples/bri-2/commit-mgr/src/merkle-tree/leaves.js:78-91 | one round keeps all stored leaves below the counter returned, and returns one twice exactly when it passes a gap |
| LeafRange.GapFreeRange | examples/bri-2/commit-mgr/src/merkle-tree/leaves.js:73-94 | without gaps the stored leaves of a range are the slice of the leaves inserted |
| CommitmentTree.MerkleTree.GetSiblingPathByLeafIndex | examples/bri-2/commit-mgr/src/merkle-tree/index.js:55-90 | the stored hashes at the witness indices, ZERO where nothing is stored; no result exactly if a document of these nodes is missing |
| CommitmentTree.MerkleTree.GetPathByLeafIndex | examples/bri-2/commit-mgr/src/merkle-tree/index.js:12-48 | after an update, the stored hashes of all ancestors of the leaf; no result exactly if a document of these nodes is missing |
| Membership.PathRead | examples/bri-2/commit-mgr/src/merkle-tree/index.js:25-47 | these hashes are the reference values, and ZERO above missing leaves |
| Membership.OwnPathReadable | examples/bri-2/commit-mgr/src/merkle-tree/index.js:67-88 | the path of a stored leaf can be read if and only if the document of its sibling leaf exists |
| CommitmentTree.MerkleTree.BaselineVerify | examples/bri-2/commit-mgr/src/rpc-server.ts:334-364 | true exactly when the fold of the path reaches its last hash and that is the updated root |
| Membership.OwnPathAccepted | examples/bri-2/commit-mgr/src/rpc-server.ts:342-358 | proof completeness with its exact condition: length h + 1, ending in node 0, accepted if the sibling is readable and the root whole, and only then unless the hash is broken |
| Membership.AcceptedPathBinds | examples/bri-2/commit-mgr/src/rpc-server.ts:342-358 | proof binding for every accepted path of any length and sides: what its steps reach is the node of the tree that its sides lead to, and every sibling is the tree's, in the bytes hashed, or FindBreach exhibits a collision or a preimage of zero |
| Membership.AcceptedValueIsLeaf | examples/bri-2/commit-mgr/src/rpc-server.ts:345-358 | the case of a leaf: a value accepted with h steps on the sides of leaf i is that leaf (ZERO where there is none), in the bytes hashed, or FindBreach exhibits a breach |
| Membership.RootRead | examples/bri-2/commit-mgr/src/merkle-tree/utils.js:163-207 | the hash stored at node 0 is the root if and only if the tree is not full or nodes keep 32 bytes |
| Examples.FullTreeRejectsOwnProof | examples/bri-2/commit-mgr/src/merkle-tree/utils.js:163-168 | a concrete full tree whose own witness path is rejected |
| Examples.RejectedOwnProof | examples/bri-2/commit-mgr/src/merkle-tree/leaves.js:22-23 | a concrete tree of height 15, built and read by the class, whose own witness path is rejected because the sibling leaf lies in a later bucket |
| Examples.GapReadsTwice | examples/bri-2/commit-mgr/src/merkle-tree/leaves.js:78-91 | a concrete store with a gap from which a leaf is returned twice |
| HashCount.GetNumberOfHashes | examples/bri-2/commit-mgr/src/merkle-tree/utils.js:230-246 | the closed form equals the hash calls of the batch update |
| HashCount.SpreadIsSlotSum | examples/bri-2/commit-mgr/src/merkle-tree/utils.js:239-244 | Legendre's argument: distances of the two paths, summed over levels, are the slots passed, summed over leaves |
| HashCount.HashCallsCountAncestors | examples/bri-2/commit-mgr/src/merkle-tree/utils.js:224-246 | the hash calls are as many as the distinct ancestors of the batch |
| Runs.RunInvariant | examples/bri-2/commit-mgr/src/merkle-tree/index.js:97-139 | along every run of new leaves, updates, outages, restarts and renewed tracking the document is consistent, stores what the simple service stores (the whole log while online), and its root is that of the plain tree over the first leaves of the log |
| Runs.EveryLeafIsTaken | examples/bri-2/commit-mgr/src/blockchain/events.js:32-48 | every leaf of a log that fits is taken, and all leaves up to the last stop are stored, whatever stops at block boundaries, restarts, renewed tracking and updates there are |
| Runs.FeedIsTaken | examples/bri-2/commit-mgr/src/blockchain/events.js:32-48 | fed with a log of any length up to the size of the tree, the service has stored all of it |
| Runs.NewTreeIsFresh | examples/bri-2/commit-mgr/src/rpc-server.ts:267-275 | the document that baseline_track creates is a start of such runs, for every height |
| Runs.StepRepresents | examples/bri-2/commit-mgr/src/blockchain/utils.js:37-102 | each action takes a document that represents the simple service to one that represents its next state |
| Runs.NothingIsForgotten | examples/bri-2/commit-mgr/src/merkle-tree/index.js:97-139 | along a run the log, the stored leaves and the recalculated leaves only grow |
| Runs.Determined | examples/bri-2/commit-mgr/src/merkle-tree/utils.js:207-218 | root, frontier and nodes are determined by the recalculated leaves |
| Runs.SplitDoesNotMatter | examples/bri-2/commit-mgr/src/merkle-tree/index.js:97-139 | two lists of actions with the same leaves, whatever their batches, restarts and outages at block boundaries, end in the same root, frontier and nodes, those of the plain tree over these leaves |
| Runs.Operate | examples/bri-2/commit-mgr/src/merkle-tree/index.js:97-139 | executing any actions on the class ends in a document that represents the state of the simple service after these actions, with its root, by way of a run; from a fresh start exactly the leaves of the log up to the last stop are stored |
| Runs.OperateBoth | examples/bri-2/commit-mgr/src/merkle-tree/index.js:97-139 | two services executing such lists of actions agree on root, frontier and nodes |
| Examples.LastLeafIsTaken | examples/bri-2/commit-mgr/src/blockchain/events.js:32-48 | a tree of height 1 takes and recalculates both its leaves |
| ChainReplay.CheckChainLogs | examples/bri-2/commit-mgr/src/blockchain/utils.js:59-102 | the returned logs are inserted in order: a replay of the chain log from the start block |
| ChainReplay.Restart | examples/bri-2/commit-mgr/src/blockchain/utils.js:37-57 | one tree is replayed from the block after its latest leaf, or entirely if no block is known |
| ChainReplay.RestartCompletes | examples/bri-2/commit-mgr/src/blockchain/utils.js:51-61 | the store equals the whole log after a restart if and only if the service had stopped at a block boundary |
| ChainReplay.ReplayKeepsConsistent | examples/bri-2/commit-mgr/src/blockchain/utils.js:51-102 | a replay that starts no later than the first missing leaf leaves a consistent tree that stores the whole log |
| ChainReplay.FullReplayIsIdempotent | examples/bri-2/commit-mgr/src/blockchain/utils.js:59-102 | replaying everything over a complete store changes neither leaves nor latest leaf |
| ChainReplay.LostForGood | examples/bri-2/commit-mgr/src/blockchain/utils.js:37-102 | a leaf missed by a stop inside a block stays missing through every new leaf, stop and restart |
| ChainReplay.TrackRecovers | examples/bri-2/commit-mgr/src/rpc-server.ts:268-278 | tracking the tree again stores the whole log, whatever was lost in the run before |
| Examples.HalfBlockStaysIncomplete | examples/bri-2/commit-mgr/src/blockchain/utils.js:53-61 | a concrete stop inside a block after which a leaf is missing, for every restart, but not after a full replay |
| Digits.Add | core/privacy/src/utils/conversions.ts:25-39 | the sum is exact, digits are below the base, no leading zero is introduced |
| Digits.MultiplyByNumber | core/privacy/src/utils/conversions.ts:46-70 | the product with the signed 32-bit value of the factor (the factor itself below 2^31) is exact, digits are below the base, no leading zero is introduced; null exactly for negative factors |
| Digits.MultiplicationStops | core/privacy/src/utils/conversions.ts:56-68 | the loop stops if and only if the signed 32-bit value of the factor is not negative |
| Arithmetic.ToInt32Means | core/privacy/src/utils/conversions.ts:59-62 | the signed 32-bit value is the number in range that differs by a multiple of 2^32 |
| Digits.NumeralUnique | core/privacy/src/utils/conversions.ts:81-95 | digits without leading zero are determined by their value |
| Text.DigitOfMeans | core/privacy/src/utils/conversions.ts:14 | a character is read as the place it has in the row of digits, in lower or in upper case |
| Conversions.ParseToDigitsArray | core/privacy/src/utils/conversions.ts:10-21 | the digits of the text from the right, or null if a character is no digit |
| Conversions.ParsedExactly | core/privacy/src/utils/conversions.ts:10-21 | a text is refused exactly if a character is in neither row of the digits of the base |
| Conversions.NumberAppends | core/privacy/src/utils/conversions.ts:10-21 | a further digit on the right multiplies the number by the base and adds the digit |
| Conversions.ConversionIgnoresCase | core/privacy/src/utils/conversions.ts:75-109 | upper-case and lower-case input give the same result |
| Conversions.ConvertBase | core/privacy/src/utils/conversions.ts:75-109 | the canonical numeral of the same number, "0" for zero; null exactly if a character is no digit of the base in lower or upper case |
| Conversions.NumeralOfText | core/privacy/src/utils/conversions.ts:75-109 | the canonical numeral of a text is the text in lower case without leading zeros |
| Conversions.TextOfNumeral | core/privacy/src/utils/conversions.ts:92-108 | the canonical numeral denotes the number |
| Conversions.DigitCharMeans | core/privacy/src/utils/conversions.ts:92-95 | a digit is written as the character at its place in the row of lower-case digits |
| Conversions.LowerMeans | core/privacy/src/utils/conversions.ts:75-109 | the lower-case letter has the place of its upper-case one |
| Conversions.RoundTrip | core/privacy/src/utils/conversions.ts:75-109 | converting keeps the number, and converting back gives the canonical form of the input |
| Limbs.ChunksAreLimbs | core/privacy/src/utils/conversions.ts:291-324 | the padded chunks of a bit text are the base 2^n digits of its number |
| Limbs.ChunkCount | core/privacy/src/utils/conversions.ts:335-341 | a value takes more than k chunks if and only if it is at least 2^(n*k) |
| Limbs.IsHexMeans | core/privacy/src/utils/conversions.ts:149-152 | hexadecimal texts are those of at least one of the characters 0-9, a-f, A-F after an optional 0x |
| Limbs.HexToFieldLimbs | core/privacy/src/utils/conversions.ts:373-407 | the k lowest base 2^n digits as decimal texts; an error exactly for a text that is not hexadecimal in these characters, or for a value with too many limbs when warnings are not silenced |
| Limbs.LimbTextsMean | core/privacy/src/utils/conversions.ts:366-407 | limbs are below 2^n and their weighted sum is the value modulo 2^(n*k), the value itself when it fits |
| Mimc.PowerMod | core/privacy/src/utils/hashes/mimc.ts:18-33 | the remainder of the power |
| Mimc.AddMod | core/privacy/src/utils/hashes/mimc.ts:14-16 | the remainder of the sum |
| Mimc.Mimcpe7 | core/privacy/src/utils/hashes/mimc.ts:42-53 | reducing in every round gives the remainder of the cipher computed without reduction |
| Mimc.CipherFromFront | core/privacy/src/utils/hashes/mimc.ts:42-53 | without rounds the cipher adds the key; a first round hashes the seed, adds it and the key, takes the seventh power, and the rest goes on with the hashed seed |
| Mimc.Mimcpe7mp | core/privacy/src/utils/hashes/mimc.ts:55-62 | the same for the sponge over several inputs |
| Mimc.SpongeFromFront | core/privacy/src/utils/hashes/mimc.ts:55-62 | without inputs the sponge is the key; a first input makes the key of the rest: the key, plus the input, plus its cipher |
| Mimc.MerkleHashTerminates | core/privacy/src/utils/hashes/mimc.ts:89-101 | the recursion ends if and only if the number of leaves is a power of two, at least 2 |
| Mimc.MerkleHashIsBottomUp | core/privacy/src/utils/hashes/mimc.ts:89-101 | the recursion computes the root built level by level |
| Mimc.PairUpAt | core/privacy/src/utils/hashes/mimc.ts:89-101 | neighbours are paired from the left, the left one hashed first |
| Odometer.SuccessorRank | examples/bri-1/base-example/src/utils/utils.ts:86-110 | the next setting has the next rank and is missing exactly at the maximum |
| Odometer.OdometerIncrement | examples/bri-1/base-example/src/utils/utils.ts:86-110 | in place: the next setting, or false at the maximum with all digits but the first cleared |
| Odometer.CartesianAtRank | examples/bri-1/base-example/src/utils/utils.ts:77-84 | the product holds, at the rank of each setting, the combination with entry o[i] of list i at place i, and has as many entries as the product of the sizes |
| Odometer.SettingOfRank | examples/bri-1/base-example/src/utils/utils.ts:59-73 | every entry belongs to a setting |
| Odometer.RankIsLexicographic | examples/bri-1/base-example/src/utils/utils.ts:59-73 | a setting that is smaller at the first difference comes first, so each occurs once |
| Odometer.CombineArrays | examples/bri-1/base-example/src/utils/utils.ts:33-74 | the full Cartesian product in lexicographic order; empty if there is no list or an empty one |
| Overlap.PartitionSuppliers | examples/bri-1/base-example/src/mods/allign/allign.ts:16-49 | the four folders hold the ports, the spares, the technicians and the vessels, in order; an error exactly if a type is unknown |
| Overlap.FolderMembers | examples/bri-1/base-example/src/mods/allign/allign.ts:16-49 | a folder holds a supplier if and only if it was handed in and is of the type |
| Overlap.OfTypeKeepsOrder | examples/bri-1/base-example/src/mods/allign/allign.ts:24-47 | within a folder the order handed in is kept |
| Overlap.PartitionIsWellFiled | examples/bri-1/base-example/src/mods/allign/allign.ts:16-49 | what partitionSuppliers files meets what findOverlappingDay expects |
| Overlap.MarkDays | examples/bri-1/base-example/src/mods/allign/allign.ts:69-89 | the days and categories that occur, nothing listed yet |
| Overlap.FillDay | examples/bri-1/base-example/src/mods/allign/allign.ts:91-132 | under each category exactly the available suppliers, in order |
| Overlap.IdsOnMeans | examples/bri-1/base-example/src/mods/allign/allign.ts:96-129 | an id is listed if and only if a supplier with it is available |
| Overlap.IdsKeepOrder | examples/bri-1/base-example/src/mods/allign/allign.ts:96-129 | the ids of a day are listed in the order of the suppliers |
| Overlap.DayReducer | examples/bri-1/base-example/src/mods/allign/allign.ts:148-167 | exactly the days with the given number of categories |
| Overlap.ViableByCount | examples/bri-1/base-example/src/mods/allign/allign.ts:63-66 | counting categories decides whether every non-empty category is present |
| Overlap.FindOverlappingDay | examples/bri-1/base-example/src/mods/allign/allign.ts:57-146 | the smallest viable day with its available suppliers, or nothing if and only if no day is viable; and the preference data of all days up to the last, later suppliers replacing earlier ones with the same id |
| Overlap.PreferencesMean | examples/bri-1/base-example/src/mods/allign/allign.ts:91-112 | preference data exist for exactly the ids available on some day, and are those of a supplier with that id |
| Overlap.LatestStands | examples/bri-1/base-example/src/mods/allign/allign.ts:91-112 | of several available suppliers with the same id the one with the latest day, then category, then place is recorded |
| Overlap.CreateUniqueSets | examples/bri-1/base-example/src/mods/allign/allign.ts:171-194 | all combinations of the lists of the one day given |
| Overlap.UniqueSetsAreChoices | examples/bri-1/base-example/src/mods/allign/allign.ts:171-194 | the sets built are exactly the choices of one available supplier of each non-empty category |
| Window.SuitabilityFinder | examples/bri-1/base-example/src/mods/avail/avail.ts:80-136 | of the first 30 days exactly those are marked from which the whole task lies inside the time window and the calendar, both without their last day, on free days; every day for a task of length zero, none without a calendar |
| Window.CountMeansStart | examples/bri-1/base-example/src/mods/avail/avail.ts:92-129 | the count reaches the task length exactly where every day of the task is free and inside both windows |
| Selection.SelectSuppliers | examples/bri-1/base-example/src/mods/allign/allign.ts:10-194 | the whole pipeline in terms of the offers: the earliest day on which every type offered has a supplier who can do the whole task, none if and only if there is none; the combinations of those who can start that day, which are exactly the teams of one supplier for each type offered, ports, spares, technicians, vessels; preference data of exactly the ids that can take part; an error exactly for an unknown type |
| Selection.ViableIsCommonStart | examples/bri-1/base-example/src/mods/allign/allign.ts:51-146 | the days that findOverlappingDay accepts are the common starts of the types offered |
| Selection.CombinationsAreTeams | examples/bri-1/base-example/src/mods/allign/allign.ts:169-194 | the combinations of the lists of takers are the teams |
| Selection.TakerIdsKeepOrder | examples/bri-1/base-example/src/mods/allign/allign.ts:96-129 | those who can start are listed in the order of the offers |
| Selection.TechnicianAndVessel | examples/bri-1/base-example/src/mods/allign/allign.ts:171-194 | a technician and a vessel: the only team has both, the technician first |

## Left out

- SHA-256 and keccak: parameters; the digest of bytes is any function to 0x and 64 hexadecimal digits.
- MongoDB, mongoose casting and timing: documents are values, every operation is atomic, log calls are dropped.
- CommitmentTree.MerkleTree.UpdateNodes: the caller's frontier array is updated in place in the source; here the new frontier is a value, which no caller can tell apart because it is stored right after.
- CommitmentTree.MerkleTree.UpdateTree: the trees have fewer than 2^31 leaves, the indices on which getFrontierSlot stops when leaves arrive in order; and stated for gap-free leaves, which every run whose stops fall on block boundaries maintains; on a store with gaps nothing is said about the tree.
- ChainReplay.CheckChainLogs: requires the documents of the logged leaves to exist; otherwise the source throws at the first missing one.
- ChainReplay.LostForGood: its runs have no tree updates, since on a store with gaps nothing is said about them.
- Unhandled JSON-RPC matters: parameter checks, relaying, subscriptions as callbacks, transaction sending and gas.
- Limbs.HexToFieldLimbs: a limb length of zero is excluded; the recursion of splitAndPadBits does not end on it.
- Mimc.PowerMod: non-negative bases and exponents only, as everywhere in the hash.
- mimcHash: its range check and text formatting; merkleHash takes the hash of two values as a parameter.
- Total prices, average reputations and the choice among the unique sets; costs and reputations are only recorded.
- The protocol message codec: its fixed offsets would add only easy members.
- Text helpers such as hexToUtf8 and hexToBytes, element type inference, the ZoKrates provider, file import, the ERP proxy and the messaging providers.
- Numbers are unbounded integers; the source is exact up to 2^53.
