# TreeKEM trees and epochs in Dafny

This project models the core of TreeKEM.js, a research code base that measures the cost
of group key agreement (TreeKEM) over several tree shapes, and proves properties of that
model. The model covers:

- **Epochs** (`src/Epoch.js`, `src/trees/persistParentTree.js`): a forest of versions with
  jump pointers. The forest answers `getAncestor`, `lt`/`ge` and `LCA`. `LinearEpoch` keeps
  one shared epoch per depth. `EpochMap` keeps values keyed by epochs in buckets sorted by
  depth, and finds the deepest stored ancestor of an epoch.
- **Node bookkeeping** (`src/trees/persistChildTree.js`): height, size and leaf count
  computed from the children.
- **The mutable trees of `trees.js`**:
  - a left-balanced binary tree that tombstones ("recycles") removed leaves, reuses them and
    truncates them off the right end;
  - a B-tree that splits on overflow and borrows or merges on underflow.
- **The counting engine `TreeKEM`** (`src/TreeKEM.js`) over those trees: users join, leave
  and refresh their paths. Each user's counters record the PRG, key generation, encryption
  and decryption work this causes. Strategies say what a node's secret becomes.
- **The persistent trees** of `src/trees/`:
  - `LeftTree` and `PerfectTree`: left-balanced and perfect binary trees with removed-leaf
    padding;
  - `BTree`: balanced init, peer split, borrow/merge choice;
  - the LLRB plug-in: maps each 2-3-4 node to cached red-black binary nodes.
- **Leaves**: the depth-bounded region of `src/regions/DepthRegion.js` and the counting
  crypto double of `src/crypto/counter.js`.

Code that updates state in place becomes imperative Dafny. `EpochStore`, `EpochMap`,
`LinearEpochRegistry`, `DepthRegion`, `CounterCrypto`, `TreeKEM` and the LLRB `Mirror` are
classes whose methods change their fields. The loops of the source (`getLowestAncestor`,
`binary_search_last`, `pad`, the climb of `update`, the trace choice of `isomorph`) are
methods with loop invariants. Recursive constructions are functions with lemmas.

Some entities are objects compared by identity in the source: epochs, the nodes of
`trees.js`, and the B-tree and red-black nodes of the LLRB plug-in. These are modelled as
handles (`nat`) into an arena, or as `Ref`s naming a node by its place. Each such module's
header comment says which.

Most methods are proved against a specification function, and the properties the source
promises are stated as lemmas about that function. Examples:

- `LCA` against `Lca`, the deepest common ancestor;
- `EpochMap.Set` against the map of all stored entries;
- `update` against `UpdateOf`, the state after the climb and the blanking;
- `isomorph` against `Mirrors`, the shape of a node's red-black image.

A few methods state their properties directly in their postconditions instead:
`MutableBTrees.Insert` and `MutableBTrees.AddSibling` (validity, the leaves gained, where
the new leaf is placed) and `TreeKEMs.TreeKEM.Init` (validity, the number of users, and that the added users are live
and in the tree while the earlier flags stay).

## Model

| member | source | states |
|---|---|---|
| Utils.Log2 | src/trees/persistParentTree.js:10 | `Math.floor(Math.log2(n))` for n >= 1: the k with 2^k <= n < 2^(k+1) |
| Utils.Log2Unique | src/trees/persistParentTree.js:36 | that k is unique, so the jump chosen by `getAncestor` is determined by the distance |
| Utils.CeilLog2 | src/trees/PerfectTree.js:25 | `Math.ceil(Math.log2(n))`: the least k with n <= 2^k |
| Utils.Range | src/Epoch.js:25 | `range(a, b)`: the b - a integers from a upwards, in order |
| Utils.Replace | src/trees/BTree.js:99-100 | `replace(arr, old, new?)`: the array itself when `old` is absent; otherwise the same length with `new`, one shorter without; no element that was not there or is not `new` |
| Utils.ReplaceAt | src/trees/BTree.js:62 | `replace` on a present element splices `new` (or nothing) in at its first index |
| Utils.ReplaceConcat | src/trees/BTree.js:176 | `replace` on a concatenation acts on the part that holds the element |
| Utils.BinarySearchLast | src/trees/persistParentTree.js:54 | `binary_search_last(n, p)` on a monotone p: r in [-1, n), p holds on [0, r] and fails on (r, n) |
| Epochs.Jumps | src/trees/persistParentTree.js:10 | the number of jump slots of a node at a depth: none at depth 0 |
| Epochs.JumpsIsLog | src/trees/persistParentTree.js:10 | at depth >= 1 the slot count is floor(log2 depth) + 1 |
| Epochs.JumpExists | src/trees/persistParentTree.js:22-23 | slot j exists exactly when 2^j <= depth, i.e. the ancestor 2^j up exists |
| Epochs.Anc | src/trees/persistParentTree.js:31-38 | the ancestor at depth d is at that depth, and strictly older when d is above the node |
| Epochs.AncOfAnc | src/trees/persistParentTree.js:37 | the ancestor at d of the ancestor at k is the ancestor at d |
| Epochs.AncPrefix | src/trees/persistParentTree.js:4-20 | creating epochs changes no existing epoch's ancestors |
| Epochs.StrictAncestorTransitive | src/Epoch.js:9-11 | `lt` is transitive |
| Epochs.StrictAncestorAsymmetric | src/Epoch.js:9-11 | `lt` is irreflexive and asymmetric, and an ancestor was created first |
| Epochs.AncestorsComparable | src/Epoch.js:9-14 | two ancestors-or-self of one epoch are equal or related by `lt` |
| Epochs.ForksIncomparable | src/Epoch.js:9-11 | two distinct epochs of equal depth are not related by `lt` either way and have no common descendant |
| Epochs.CommonAncestorPrefix | src/trees/persistParentTree.js:51-56 | agreeing at depth k means agreeing at every depth above k |
| Epochs.LcaAtCorrect | src/trees/persistParentTree.js:45-56 | for equal depths: a common ancestor exists iff the roots agree, and then `LcaAt` is a common ancestor with no deeper one |
| Epochs.LcaAtSkip | src/trees/persistParentTree.js:54-56 | lifting two epochs to a depth where they still differ keeps their LCA |
| Epochs.LcaCorrect | src/trees/persistParentTree.js:40-57 | `LCA(a, b)`: defined iff a and b share a root, and then a common ancestor with no deeper common ancestor; `LCA(a, a) = a` |
| Epochs.ChildrenBeforeGrows | src/trees/persistParentTree.js:15-19 | a parent's child count strictly grows with each child |
| Epochs.NoChildrenYet | src/trees/persistParentTree.js:19 | a new epoch has no children |
| Epochs.ChildCache | src/trees/persistParentTree.js:10-12 | a child's jump slots: as many as `Jumps(depth)`, only slot 0 filled, with the parent |
| Epochs.NewNodeKeepsCache | src/trees/persistParentTree.js:4-13 | adding an epoch with its initial slots keeps every cached slot equal to the ancestor 2^j up |
| Epochs.JumpTwice | src/trees/persistParentTree.js:27 | two jumps of 2^(j-1) make one jump of 2^j |
| Epochs.CacheJump | src/trees/persistParentTree.js:28 | writing the computed ancestor into slot j keeps the cache invariant |
| Epochs.NewNodeKeepsCounts | src/trees/persistParentTree.js:15-19 | a new epoch takes its parent's child count as index, the parent's count rises by one, its own starts at 0 |
| Epochs.SiblingIndicesDistinct | src/trees/persistParentTree.js:16-17 | two children of one parent have different indices |
| Epochs.DivergesBelow | src/trees/persistParentTree.js:54 | the predicate searched by `binary_search_last` in `LCA` is monotone |
| Epochs.AgreesAbove | src/trees/persistParentTree.js:54 | once the jumps agree they agree for every longer jump |
| Epochs.HintForNext | src/trees/persistParentTree.js:54-56 | the jump hint passed to the recursive call still bounds the divergent jumps |
| Epochs.EpochStore.constructor | src/trees/persistParentTree.js:3-20 | an empty forest |
| Epochs.EpochStore.NewRoot | src/trees/persistParentTree.js:5-7 | a root: depth 0, no jump slots, no index, child count 0 |
| Epochs.EpochStore.Step | src/Epoch.js:5-7 | `step`: a new epoch one deeper, slot 0 the receiver, index the receiver's old child count, which rises by one; the receiver is a strict ancestor of it |
| Epochs.EpochStore.GetJump | src/trees/persistParentTree.js:22-29 | `getJump(j)` for j below the slot count: the ancestor 2^j up, now cached in slot j |
| Epochs.EpochStore.JumpFrom | src/trees/persistParentTree.js:27-28 | the second jump of `getJump` from the midpoint, cached in slot j |
| Epochs.EpochStore.GetAncestor | src/trees/persistParentTree.js:31-38 | `getAncestor(d)` for d <= depth: the receiver at d = depth, else its ancestor at depth d |
| Epochs.EpochStore.Lt | src/Epoch.js:9-11 | `lt(o, n)` iff o is a strict ancestor of n |
| Epochs.EpochStore.Ge | src/Epoch.js:12-14 | `ge(n, o)` iff o = n or `lt(o, n)` |
| Epochs.EpochStore.LCA | src/trees/persistParentTree.js:40-57 | `LCA(a, b, hint)` equals `Lca`; none (the 'common ancestor not found' assertion) exactly when the roots differ |
| Epochs.EpochStore.LCAAtDepth | src/trees/persistParentTree.js:45-56 | the equal-depth part of `LCA` equals `LcaAt` |
| Epochs.EpochStore.LCADescend | src/trees/persistParentTree.js:51-56 | the step after the parents differ: the last divergent jump, then the LCA of the two jumped epochs |
| Epochs.EpochStore.JumpBoth | src/trees/persistParentTree.js:54-56 | both epochs jumped 2^j up, to the same depth |
| Epochs.EpochStore.LastDivergentJump | src/trees/persistParentTree.js:54-55 | the largest jump below n at which the two epochs still differ, or -1 |
| LinearEpochs.LinearEpochRegistry.constructor | src/Epoch.js:20 | no singleton yet |
| LinearEpochs.LinearEpochRegistry.GetSingleton | src/Epoch.js:21-30 | `getSingleton(d)`: the array grows to d + 1 with fresh epochs of their own depths, keeps the existing ones, and returns the one of depth d |
| LinearEpochs.LinearEpochRegistry.NewRoot | src/Epoch.js:32-40 | a root is the singleton of depth 0 |
| LinearEpochs.LinearEpochRegistry.Step | src/Epoch.js:5-7 | `step` is the singleton one deeper |
| LinearEpochs.LinearEpochRegistry.GetAncestor | src/Epoch.js:46-48 | `getAncestor(d)` is the singleton of depth d |
| LinearEpochs.SingletonOrder | src/Epoch.js:50-52 | two singletons are the same iff their depths are; `lt` and `ge` compare depths only |
| LinearEpochs.SharedSingletons | src/Epoch.test.js:41-46 | two fresh roots are identical, so are their steps, and `step().getAncestor(0)` is the root |
| EpochMaps.StoredAppend | src/Epoch.js:58-61 | the entries of two runs of buckets are the union of their entries |
| EpochMaps.StoredKey | src/Epoch.js:93-101 | an epoch can only be stored in the bucket of its own depth |
| EpochMaps.StoredAbsent | src/Epoch.js:96-97 | without a bucket of its depth an epoch is not stored |
| EpochMaps.InsertBucket | src/Epoch.js:70-72 | a new bucket spliced in after index i keeps the buckets sorted and non-empty and adds the one entry |
| EpochMaps.GrowBucket | src/Epoch.js:74-76 | adding to the bucket of the depth keeps the invariant and adds the one entry |
| EpochMaps.DeleteEntry | src/Epoch.js:83-89 | removing an entry, and the bucket when it empties, keeps the invariant and removes only that entry |
| EpochMaps.EpochMap.constructor | src/Epoch.js:59-61 | no bucket, nothing stored |
| EpochMaps.EpochMap.IndexOfDepth | src/Epoch.js:63-65 | `indexOfDepth(d)`: the last bucket at depth <= d, or -1 |
| EpochMaps.EpochMap.Set | src/Epoch.js:67-77 | `set(e, v)` on an absent e: buckets stay sorted, unique and non-empty, and the stored entries gain exactly e -> v |
| EpochMaps.EpochMap.Delete | src/Epoch.js:79-91 | `delete(e)` on a present e: returns its value; the entries lose exactly e, and the invariant holds |
| EpochMaps.EpochMap.Has | src/Epoch.js:93-101 | `has(e)` iff e is stored |
| EpochMaps.EpochMap.GetLowestAncestor | src/Epoch.js:103-115 | the deepest stored ancestor-or-self of e with its value, or none when no ancestor is stored |
| EpochMaps.NoStoredAncestor | src/Epoch.js:106-114 | when the loop finds nothing, no ancestor-or-self is stored |
| EpochMaps.LowestAncestorFound | src/Epoch.js:106-112 | the first hit of the downward loop is the deepest stored ancestor |
| ChildTrees.MaxHeight | src/trees/persistChildTree.js:12 | `Math.max(...heights)`: at least each child's height, and equal to one |
| ChildTrees.Make | src/trees/persistChildTree.js:4-16 | a leaf has height 0, size 1, one leaf; an inner node is one higher than its highest child |
| ChildTrees.MakeBuilt | src/trees/persistChildTree.js:4-16 | built from built children, a node's figures are those of its children |
| ChildTrees.MakeExact | src/trees/persistChildTree.js:12-14 | height = 1 + max child height, size = 1 + sum of sizes, sizeLeaf = sum of leaf counts, recursively |
| ChildTrees.SumOfSizes | src/trees/persistChildTree.js:13 | `sum(sizes, 1)` is one plus the children's sizes |
| ChildTrees.SumOfLeafCounts | src/trees/persistChildTree.js:14 | `sum(sizeLeafs)` is the children's leaf count |
| ChildTrees.LeavesAreTheLeaves | src/trees/persistChildTree.js:21-35 | `getLeaves` yields only leaves, `sizeLeaf` of them |
| ChildTrees.SizeBounds | src/trees/persistChildTree.js:7-15 | 1 <= leaves <= size, and height < size |
| DepthRegions.DepthRegion.constructor | src/regions/DepthRegion.js:7-9 | no leaf has a stored depth |
| DepthRegions.DepthRegion.GetDepth | src/regions/DepthRegion.js:11-13 | the stored depth, or `DepthMax` when none; never above `DepthMax` |
| DepthRegions.DepthRegion.SetDepth | src/regions/DepthRegion.js:14-16 | stores min(depth, DepthMax) and nothing else |
| DepthRegions.DepthRegion.IsInRegion | src/regions/DepthRegion.js:18-30 | true iff one of the first `getDepth(leaf)` nodes of the node's path is on the leaf's path; it changes nothing |
| DepthRegions.NoBudgetNoRegion | src/regions/DepthRegion.js:21-23 | with a depth <= 0 nothing is in the region |
| DepthRegions.WithinDepthMonotone | src/regions/DepthRegion.js:18-30 | a larger budget keeps a node in the region |
| DepthRegions.OwnPathInRegion | src/regions/DepthRegion.js:18-30 | a node on the leaf's path is in the region for any positive budget |
| DepthRegions.WithinDepthPrefix | src/regions/DepthRegion.js:18-30 | within budget d means one of the first d ancestors is on the path |
| CounterCryptos.CounterCrypto.constructor | src/crypto/counter.js:4-6 | all five counters start at 0 |
| CounterCryptos.CounterCrypto.Stat | src/crypto/counter.js:8-10 | `stat` is the object's own counters |
| CounterCryptos.CounterCrypto.Random | src/crypto/counter.js:12-15 | returns 'r' and raises only `random` |
| CounterCryptos.CounterCrypto.PRG | src/crypto/counter.js:17-21 | on seed 'r': k copies of 'r', raising only `PRG` |
| CounterCryptos.CounterCrypto.Gen | src/crypto/counter.js:23-27 | on seed 'r': the pair 'pk', 'sk', raising only `Gen` |
| CounterCryptos.CounterCrypto.Enc | src/crypto/counter.js:28-32 | on 'pk': 'c', raising only `Enc` |
| CounterCryptos.CounterCrypto.Dec | src/crypto/counter.js:33-38 | on 'sk' and 'c': raises only `Dec` |
| CounterCryptos.KeyRoundTrip | src/crypto/counter.js:12-38 | random, Gen, Enc then Dec yield the matching tokens and raise each of the four counters by one |
| Trees.Children | trees.js:34-36 | a leaf has no children, a binary node its two, a B-tree node its list; every child is smaller than its node |
| Trees.LeavesOfAppend | trees.js:137-148 | the leaves of two runs of siblings are the leaves of each in turn |
| Trees.InLeavesOf | trees.js:137-148 | a user is under a run of siblings iff it is under one of them |
| Trees.ChildWith | trees.js:124-136 | the first child that holds a user's leaf |
| Trees.PathTo | trees.js:9-15 | the path from the root down to a user's leaf, empty iff the user is absent; it starts at the root and ends at the leaf |
| Trees.NextOnPath | trees.js:124-136 | the next node of a path is the child holding the leaf, and the path continues from it |
| Trees.PathLinks | trees.js:124-136 | each node of a path is a child of the one before |
| Trees.PathHeights | trees.js:124-136 | heights strictly fall along a path |
| Trees.PathLength | trees.js:124-136 | a path is at most height + 1 long |
| Trees.OtherChildren | src/TreeKEM.js:236-246 | a node's other children: exactly the children that are not the given one |
| Trees.HeightOfChild | trees.js:28 | a child is lower than its node |
| Trees.DistinctCounts | trees.js:124-136 | no user twice iff each occurs at most once |
| MutableLeftTrees.PerfectBinary | trees.js:28 | a perfect tree is binary |
| MutableLeftTrees.LeftBalancedBinary | trees.js:28 | a left-balanced tree is binary |
| MutableLeftTrees.PerfectOfExact | trees.js:46 | where every node's stored `perfect` was computed by `setChildren`, it is the level of perfection |
| MutableLeftTrees.PerfectLeaves | trees.js:28 | a perfect tree of height h has 2^h leaves |
| MutableLeftTrees.LeftBalancedLeaves | trees.js:28 | a left-balanced tree of height h has at most 2^h leaves, and its left child exactly 2^(h-1) of them |
| MutableLeftTrees.SetChildren | trees.js:40-47 | `setChildren` on a perfect left child: the node with those children, perfect iff both children have the same perfect level (`NaN` as none) |
| MutableLeftTrees.SetChildrenExact | trees.js:40-47 | the stored `perfect` stays exact |
| MutableLeftTrees.PerfectLeftBalanced | trees.js:28 | a perfect tree is left-balanced |
| MutableLeftTrees.Append | trees.js:48-58 | `append`: on a perfect node the new node [this, leaf] one higher; otherwise the same node with the leaf appended on the right; the invariant holds and the leaves gain the new one at the end |
| MutableLeftTrees.LastOfBin | trees.js:59-78 | the last leaf of a node is the last leaf of its right child |
| MutableLeftTrees.TruncateLast | trees.js:59-78 | `truncate` on the root: fails ('attempting to remove the last node') only on a lone recycled leaf; cuts exactly the last leaf when it is recycled; hands back the same node iff the last leaf is live; keeps the invariant and never grows |
| MutableLeftTrees.TruncateBelow | trees.js:76-77 | truncating the right child and setting it back keeps the invariant and cuts the last leaf |
| MutableLeftTrees.WithoutTrailing | trees.js:105-117 | the leaves left once every trailing recycled leaf is cut: a prefix, empty iff all are recycled, ending in a live leaf |
| MutableLeftTrees.WithoutTrailingKeeps | trees.js:105-117 | every live leaf survives, no leaf appears, no user twice |
| MutableLeftTrees.RecycledLeaves | trees.js:137-148 | `recycleLeaves(root)`: exactly the recycled leaves under the root |
| MutableLeftTrees.Recycle | trees.js:124-136 | `recycle(hint)`: every recycled leaf but the hint, and only those (their order is `RecycleOrder`) |
| MutableLeftTrees.RecycledInOrder | trees.js:137-148 | `recycleLeaves` yields the recycled leaves in their left-to-right order |
| MutableLeftTrees.RecycleOrder | trees.js:124-148 | `recycle(hint)` yields the recycled leaves nearest level first (a deeper meeting point with the hint's path comes first), and left to right among leaves of the same level |
| MutableLeftTrees.ReplaceLeaf | trees.js:94-102 | the new leaf takes the recycled leaf's slot: shape, height, perfection and invariant unchanged, the leaf list is `replace(leaves, recycled, new)` |
| MutableLeftTrees.Add | trees.js:79-104 | `add(leaf, hint)`: 'greedy' puts the new user in the slot of the first leaf `recycle(hint)` yields, so the leaf list is `replace(leaves, recycle(hint)[0], new)` and the tree keeps its size; otherwise (and always for 'append') the new user is appended last; the invariant holds and only recycled users can leave |
| MutableLeftTrees.ReplacedLeaves | trees.js:94-102 | reusing leaf x keeps the count, adds the new user, and every user other than x stays |
| MutableLeftTrees.CollapseAsWritten | trees.js:109-116 | the truncate loop as written: it goes on only while `truncate()` hands back a different node |
| MutableLeftTrees.RemoveAsWritten | trees.js:105-123 | `remove` as written: the user is recycled; 'keep' returns the root, 'truncate' the result of the loop as written |
| MutableLeftTrees.CollapseAsWrittenLeavesTombstone | trees.js:109-116 | with users 2 and 3 of [[0, 1], [2, 3]] recycled, the loop as written leaves [0, 1, 2], while cutting every trailing recycled leaf leaves [0, 1] |
| MutableLeftTrees.Remove | trees.js:105-123 | `remove` with the loop repeated while the tree changes: 'keep' returns the root; 'truncate' fails iff every leaf is recycled, and otherwise leaves exactly the leaves up to the last live one, keeping the invariant |
| MutableBTrees.ValidHeight | trees.js:153-160 | in a valid B-tree every leaf is at the same depth: the height is the level |
| MutableBTrees.BagIsLeaves | trees.js:153-160 | the users of a tree as a multiset |
| MutableBTrees.Overflow | trees.js:173-178 | the overflow step: within m children the node is rebuilt with them and no callback; past m it keeps exactly its first min children and a new node numbered `next` takes the rest, in order |
| MutableBTrees.OverflowValid | trees.js:169-185 | after the leaf is pushed, the node is either within max or splits into two valid nodes, with exactly the one new user |
| MutableBTrees.OverflowSplits | trees.js:173-178 | a node with m + 1 children splits into min and m + 1 - min valid children |
| MutableBTrees.Insert | trees.js:162-186 | `addSibling` below node t: the node rebuilt or split, keeping its name, with one more user and valid parts; one of them holds a node whose children end with the leaf of x and then the new leaf |
| MutableBTrees.OverflowPlacedLast | trees.js:170-178 | children ending with x's leaf and the new leaf keep them last through a split: the new node takes at least the last two |
| MutableBTrees.PlacedAfterIsParent | trees.js:170-171 | when the new user has one leaf, the placement is at its parent: the node above the new leaf ends its children with x's leaf, then the new one |
| MutableBTrees.AbsorbWell | trees.js:184 | the parent takes the rebuilt or split child and overflows in turn, staying valid with one more user |
| MutableBTrees.LeafAddedValid | trees.js:170-171 | the leaf moves to the end with the new leaf after it |
| MutableBTrees.ChildSplitValid | trees.js:170-171 | a split child is moved to the end of its parent followed by its new sibling |
| MutableBTrees.AddSibling | trees.js:162-186 | `add(leaf, hint)` ('greedy'): a valid B-tree stays valid, gains exactly the new user, and grows by one level at most; for a user new to the tree, its leaf's parent ends its children with the hint's leaf and then the new one |
| MutableBTrees.FirstRich | trees.js:197 | the first child with more than min children, if any |
| MutableBTrees.FirstMergeable | trees.js:207 | the first other child whose children fit with the underfull one's within max, if any |
| MutableBTrees.Refill | trees.js:194-219 | the underfull child borrows the last child of the first child with more than min; otherwise it merges into the first that can take it; the parent keeps or loses one child |
| MutableBTrees.MergeExists | trees.js:218-219 | when no child can lend, a merge partner exists, so the `assert(false)` is unreachable |
| MutableBTrees.BorrowWell | trees.js:198-205 | borrowing keeps every child valid and the users unchanged |
| MutableBTrees.MergeWell | trees.js:208-216 | merging keeps every child valid and the users unchanged |
| MutableBTrees.RefillWell | trees.js:194-219 | the repaired children are valid and hold the same users |
| MutableBTrees.Delete | trees.js:188-217 | `removeSelf` below node t: the node keeps its name, loses exactly the user, and is valid but for being at most one child short |
| MutableBTrees.Settle | trees.js:194-217 | a child short of min is refilled by its parent, which loses at most one child |
| MutableBTrees.SettleWell | trees.js:194-217 | settling keeps the node valid, one child short at most, with exactly the user gone |
| MutableBTrees.RemoveSelf | trees.js:188-226 | `remove(leaf)`: fails ('attempting to delete the last node') iff the tree is a lone leaf; otherwise a valid tree stays valid, loses exactly the user and is lowered by one level at most (a root left with one child hands over to it) |
| MutableBTrees.Collapsed | trees.js:220-224 | a root with one child is replaced by it, one level lower |
| PersistTrees.Binary | src/trees/persistChildTree.js:12-14 | a binary node is one higher than its higher child, and its leaves are its left child's then its right child's |
| PersistTrees.TombstonesConcat | src/trees/LeftTree.js:156 | `isAllRemoved` of two parts together holds iff it holds of each |
| PersistTrees.RepeatAdd | src/trees/PerfectTree.js:36-40 | a run of a copies of a leaf then b copies is a run of a + b copies |
| LeftTrees.Join | src/trees/LeftTree.js:26-39 | `new LeftTree(epoch, [l, r], trace)` with l perfect and r no higher: the invariant holds, the node is one higher than l, its leaves are l's then r's, and it is perfect iff r is perfect and as high as l |
| LeftTrees.PerfectIsFull | src/trees/LeftTree.js:37 | a perfect tree has 2^height leaves |
| LeftTrees.ImperfectIsNotFull | src/trees/LeftTree.js:37 | a tree that is not perfect has fewer than 2^height leaves |
| LeftTrees.InitPerfect | src/trees/LeftTree.js:60-69 | `initPerfect(epoch, h)`: a perfect tree of height h with 2^h live leaves |
| LeftTrees.InitLeft | src/trees/LeftTree.js:45-59 | `initLeft(epoch, n)`: a valid tree of height ceil(log2 n) with n live leaves |
| LeftTrees.InitSplit | src/trees/LeftTree.js:49-58 | n strictly between 2^h and 2^(h+1): a perfect left half of height h and the rest on the right, of height ceil(log2 n) |
| LeftTrees.CeilLog2Exact | src/trees/LeftTree.js:49-50 | with 2^h <= n < 2^(h+1), ceil(log2 n) is h when n = 2^h and h + 1 otherwise |
| LeftTrees.CeilBelow | src/trees/LeftTree.js:49-56 | n <= 2^h implies ceil(log2 n) <= h |
| LeftTrees.Init | src/trees/LeftTree.js:41-44 | `init(n)` for n > 0: a valid tree of n leaves |
| LeftTrees.Append | src/trees/LeftTree.js:71-79 | `append`: the invariant holds, the leaf comes last after the old leaves, the tree grows one level iff it was perfect, and the traces from the new root lead to the leaf |
| LeftTrees.Add | src/trees/LeftTree.js:173-189 | `add` when it appends ('append', or no removed leaf to reuse): the leaf is appended and the invariant holds |
| LeftTrees.Merge | src/trees/LeftTree.js:90-100 | `merge(epoch, roots)`: the roots, paired from the front, make one valid tree whose leaves are those of the roots from the last to the first |
| LeftTrees.MergeStep | src/trees/LeftTree.js:95-98 | replacing the first two roots by their join keeps the roots mergeable and the leaves in the same order |
| LeftTrees.GetRightPerfect | src/trees/LeftTree.js:101-107 | `getRightPerfect` of a tree that is not perfect: a perfect subtree, lower than the tree, whose leaves end the tree's leaves |
| LeftTrees.Trim | src/trees/LeftTree.js:155-171 | the leaves up to the last live one: a prefix, every cut leaf removed, the last kept leaf live |
| LeftTrees.TrimAppend | src/trees/LeftTree.js:162-170 | trimming l + r trims r when r holds a live leaf, else trims l |
| LeftTrees.TrimEmpty | src/trees/LeftTree.js:156-158 | `isAllRemoved` iff trimming leaves nothing |
| LeftTrees.Truncate | src/trees/LeftTree.js:155-171 | `truncate`: null iff every leaf is removed; otherwise a valid tree no higher whose leaves are the old ones trimmed of their removed tail |
| LeftTrees.Tombstone | src/trees/LeftTree.js:198-207 | `super.remove(epoch, leaf)`: leaf k becomes a removed leaf; shape, height, perfection and invariant unchanged |
| LeftTrees.Remove | src/trees/LeftTree.js:191-211 | `remove`: 'truncate' fails iff every other leaf is removed and otherwise leaves the tombstoned leaves trimmed; 'keep' leaves them tombstoned; the invariant holds |
| LeftTrees.RemoveKeepsLive | src/trees/LeftTree.js:191-211 | every other live leaf keeps its place after a removal |
| PerfectTrees.InitPerfect | src/trees/PerfectTree.js:28-42 | `initPerfect(epoch, h, r)` for r <= 2^h: perfect of height h, 2^h - r live leaves then r removed ones |
| PerfectTrees.InitHalves | src/trees/PerfectTree.js:36-41 | the two halves, the right one taking min(r, 2^(h-1)) removed leaves, make the same tree |
| PerfectTrees.HalvesJoin | src/trees/PerfectTree.js:38-39 | the leaves of the two halves line up as live leaves then removed ones |
| PerfectTrees.InitLeft | src/trees/PerfectTree.js:24-27 | `initLeft(epoch, n)`: perfect of height ceil(log2 n), n live leaves padded by removed ones |
| PerfectTrees.Pad | src/trees/PerfectTree.js:44-51 | `pad(epoch, leaf, h)`: perfect of height h, the leaf then 2^h - 1 removed leaves, traces leading to the leaf |
| PerfectTrees.Raise | src/trees/PerfectTree.js:47-48 | one round of the loop keeps those facts one level up |
| PerfectTrees.Append | src/trees/PerfectTree.js:52-56 | `append`: the tree doubles; its leaves are the old ones, the leaf, then removed padding; it is traced to the leaf |
| PerfectTrees.Truncate | src/trees/PerfectTree.js:58-69 | `truncate`: null iff all removed; otherwise perfect, no higher, only removed leaves are cut from the end, and the cutting stops in time: the result holds a live leaf and, when it is not a leaf, so does its right half |
| PerfectTrees.Remove | src/trees/LeftTree.js:191-209 | `remove` inherited: fails iff 'truncate' and every other leaf is removed; otherwise perfect, and only removed leaves are cut from the tombstoned leaves; under 'truncate' the result holds a live leaf, and so does its right half |
| PerfectTrees.Add | src/trees/PerfectTree.js:52-56 | `add` with no removed leaf: the appended tree doubles, the leaf after the old ones |
| PersistBTrees.ValidHeight | src/trees/BTree.js:19-32 | in a tree that meets the constructor's assertions every leaf is at the same level, so the level is the height |
| PersistBTrees.BagIsLeaves | src/trees/BTree.js:19-32 | the users of a tree as a multiset are its leaves |
| PersistBTrees.SizesSum | src/trees/BTree.js:51-53 | the k child sizes `n / k + (i < n % k)` add up to n |
| PersistBTrees.ChildSizeBounds | src/trees/BTree.js:52-53 | with 2 <= k <= n each child gets at least one and fewer than n leaves |
| PersistBTrees.Fanout | src/trees/BTree.js:51 | `k = min(floor(n / M), max)` is at most max and at most n |
| PersistBTrees.InitGivenHeight | src/trees/BTree.js:42-55 | `initGivenHeight`: when it succeeds, a tree of height h over n leaves meeting the constructor's assertions |
| PersistBTrees.InitChildren | src/trees/BTree.js:53 | the children built from i on are valid, k - i of them, with the sizes they were given |
| PersistBTrees.CeilLog | src/trees/BTree.js:39 | `ceil(log n / log max)`: the least h with n <= max^h |
| PersistBTrees.Init | src/trees/BTree.js:34-41 | `init(n)`: when it succeeds, a valid tree of n leaves |
| PersistBTrees.PathDepth | src/trees/BTree.js:19-32 | a path from the root is at most the height long and ends at a leaf only at full depth |
| PersistBTrees.ReorderedKeeps | src/trees/BTree.js:76-79 | moving the middle node to the end keeps the peers and their validity |
| PersistBTrees.Halves | src/trees/BTree.js:80-87 | the full peers split into min that stay and max - min that move, the replaced node among those that move |
| PersistBTrees.PeersFits | src/trees/BTree.js:62-67 | a parent with room takes the sibling at the end: valid, with the sibling's leaves added, traced to it |
| PersistBTrees.PeersSplit | src/trees/BTree.js:68-91 | a full parent splits into two valid nodes holding its leaves and the sibling's, the new one no larger by more than one, holding the replaced node and traced to the sibling |
| PersistBTrees.AddAtWell | src/trees/BTree.js:57-92 | `addSibling` from a node up to the node at a path's head: it is rebuilt or split validly with exactly the sibling's leaves added, traced to the sibling |
| PersistBTrees.UpWell | src/trees/BTree.js:62-91 | handing a rebuilt or split child to its parent keeps those facts one level up |
| PersistBTrees.NewRoot | src/trees/BTree.js:59-60 | a new root over two valid nodes of one level is valid, one level higher, traced to the second |
| PersistBTrees.AddSiblingWell | src/trees/BTree.js:57-92 | `leaf.addSibling(epoch, newLeaf)`: the tree stays valid, gains exactly the new leaf, grows one level at most, and its traces lead to the new leaf |
| PersistBTrees.Add | src/trees/BTree.js:186-199 | `add(epoch, leaf, hint)`: next to the hint ('greedy') or a random leaf; valid, exactly the new leaf added, traced to it |
| PersistBTrees.Classify | src/trees/BTree.js:99-112 | at the root the first part of `removeSelf` always finishes |
| PersistBTrees.ClassifyWell | src/trees/BTree.js:99-113 | a root left with one child hands it over, a root or a node keeping min children is rebuilt, any other is left with min - 1 children; all valid and missing only the removed leaf |
| PersistBTrees.LastFit | src/trees/BTree.js:140-145 | the last sibling other than the parent with room for a merge, or none when no sibling has room |
| PersistBTrees.LastMergeable | src/trees/BTree.js:140-145 | the search loop picks that sibling |
| PersistBTrees.HintedSibling | src/trees/BTree.js:133-138 | the hint's parent, when it is a sibling of the parent, and the hint's index in it |
| PersistBTrees.CousinsWell | src/trees/BTree.js:152-172 | borrowing leaves at least min cousins, moves between one and l - min of them (the hint among them), and keeps their validity and leaves |
| PersistBTrees.BorrowWell | src/trees/BTree.js:152-178 | a borrow makes the grandparent valid again, missing only the removed leaf |
| PersistBTrees.Merge | src/trees/BTree.js:180-183 | at the root a merge always finishes |
| PersistBTrees.MergeWell | src/trees/BTree.js:180-183 | a merge into a sibling with room keeps the grandparent valid (or short in turn), missing only the removed leaf |
| PersistBTrees.RebalanceWell | src/trees/BTree.js:113-183 | the chosen borrow or merge keeps the grandparent valid (or short in turn), missing only the removed leaf |
| PersistBTrees.SettleWell | src/trees/BTree.js:110-183 | putting back a rebuilt child or rebalancing a short one keeps those facts one level up |
| PersistBTrees.DelWell | src/trees/BTree.js:94-184 | `removeSelf` below a node: valid (a root may drop one level) or short by one child, missing exactly the removed leaf |
| PersistBTrees.RemoveWell | src/trees/BTree.js:94-205 | `remove(epoch, leaf, hint)`: fails iff the tree is a lone leaf; otherwise valid, exactly the leaf gone, at most one level lower |
| LLRBTrees.Mirror.constructor | src/trees/LLRBTree.js:78-83 | every B-node starts with `RB`, `RL` and `RR` null, and there are no red-black nodes yet |
| LLRBTrees.Aligned | src/trees/LLRBTree.js:16-65 | `align`: nothing changes when either node is a leaf; a slot of the new node changes only to the old node's cache for the same pair of children, and takes it whenever the old node has one |
| LLRBTrees.AlignSlots | src/trees/LLRBTree.js:20-64 | the switch with its fall-throughs computes `Aligned` |
| LLRBTrees.AlignKeepsCaches | src/trees/LLRBTree.js:16-65 | copying caches between nodes over the same pairs keeps every cache a binary node over its pair |
| LLRBTrees.Mirror.Align | src/trees/LLRBTree.js:16-65 | `align(nodeNew, nodeOld)` on the objects: only nodeNew's three caches change, to `Aligned`, and the caches stay consistent |
| LLRBTrees.CoveredPair | src/trees/LLRBTree.js:20-23 | a slot the old node covers a pair with is the binary node over that pair |
| LLRBTrees.LastAt | src/trees/LLRBTree.js:114-124 | the last child mirror of the epoch other than the traced child, if any |
| LLRBTrees.PickTrace | src/trees/LLRBTree.js:112-128 | the trace index: the traced child when its mirror is of the epoch, else the last child mirror of the epoch; none iff no child mirror is of the epoch |
| LLRBTrees.Mirror.TraceIndex | src/trees/LLRBTree.js:112-128 | the loop over the children computes `PickTrace` |
| LLRBTrees.Mirror.NewCell | src/trees/LLRBTree.js:93-97 | `new this(epoch, children, childTrace)`: one new red-black node with `B` null, no cache changed |
| LLRBTrees.Mirror.StoreRB | src/trees/LLRBTree.js:177-187 | `nodeRB.B = node; node.RB = nodeRB`: only those two fields change, and the traces of the mirror follow the B-node's |
| LLRBTrees.Mirror.Half | src/trees/LLRBTree.js:141-168 | one pair of a 3- or 4-node: the cached pair when there is one (failing the source's assertion when the trace falls in it), else a new binary node over the two child mirrors, cached |
| LLRBTrees.Mirror.BuildPair | src/trees/LLRBTree.js:147-167 | a new pair: a binary node of the epoch over the pair, traced to the trace child or the first child mirror of the epoch, stored in `RL` or `RR` |
| LLRBTrees.Mirror.Shape | src/trees/LLRBTree.js:130-176 | the switch on the arity: a leaf, a binary node, or a node over pairs; the result mirrors the B-node, is of the epoch, and its trace follows; other arities fail |
| LLRBTrees.Mirror.Shape3 | src/trees/LLRBTree.js:139-157 | a 3-node: a binary node over the left pair and the third child mirror |
| LLRBTrees.Mirror.Shape4 | src/trees/LLRBTree.js:139-172 | a 4-node: a binary node over the left and right pairs |
| LLRBTrees.Mirror.Shape4Right | src/trees/LLRBTree.js:158-171 | the right half of a 4-node and its root, traced to the right pair when the trace is there, else to whichever pair was built |
| LLRBTrees.Mirror.Assemble | src/trees/LLRBTree.js:112-187 | once the children are mirrored: the new mirror is stored as `RB`, its `B` is the node, it is of the epoch and its traces follow; nothing else's caches change |
| LLRBTrees.Mirror.MirrorChildren | src/trees/LLRBTree.js:111 | `node.children.map(isomorph)`: the children's `RB` are exactly the returned mirrors; caches of later nodes unchanged |
| LLRBTrees.Mirror.Isomorph | src/trees/LLRBTree.js:105-188 | `isomorph(epoch, node)`: a cached mirror is returned as is, with `B` set; otherwise a new mirror of the epoch whose traces follow the B-node's; caches are only ever filled, never changed; an unknown arity fails |
| LLRBTrees.MirrorFringe | src/trees/LLRBTree.js:105-188 | a mirrored B-node and its mirror have the same leaves in the same order |
| LLRBTrees.CachesKeep | src/trees/LLRBTree.js:105-188 | filling more caches and adding red-black nodes keeps the existing caches consistent |
| KemBroadcast.LiveMembers | src/TreeKEM.js:217-219 | a user is among the live users of a list iff it is in it and not removed |
| KemBroadcast.LiveAppend | src/TreeKEM.js:236-246 | the live users of two lists in turn are those of each |
| KemBroadcast.RemovedMeansAllLeaves | src/TreeKEM.js:155-167 | `setRemoved` marks a node removed iff every leaf below it is |
| KemBroadcast.Reached | src/TreeKEM.js:215-256 | `broadcast`: the users that decrypt are exactly the live leaves below, in order; nothing is counted when `count` is unset |
| KemBroadcast.BroadcastAsWritten | src/TreeKEM.js:236-246 | the loop as written, with `selfSecretGrandUsed` taken from the last child: decryptors are the live leaves |
| KemBroadcast.Broadcast | src/TreeKEM.js:215-256 | the broadcast the model uses, with `selfSecretGrandUsed` set by any child: decryptors are the live leaves |
| KemBroadcast.BroadcastTo | src/TreeKEM.js:215-256 | the recursive procedure with its loop over the children computes `Reach` |
| KemBroadcast.OneEncPerLeaf | src/TreeKEM.js:220-244 | with no secrets kept anywhere, a broadcast costs one encryption per live leaf |
| KemBroadcast.OneEncForFullSecret | src/TreeKEM.js:240-250 | a live node whose secret all children know, with no grandchild secret, costs exactly one encryption |
| KemBroadcast.NothingHandedDown | src/TreeKEM.js:237-255 | a node handed no `secretGrand` never reports using one |
| KemBroadcast.ChildOrderIrrelevant | src/TreeKEM.js:236-253 | in the corrected loop the cost at a node with two children does not depend on their order |
| KemBroadcast.GrandSecretLostAsWritten | src/TreeKEM.js:236-253 | as written, one node with a kept grandchild secret costs 3 or 4 encryptions depending on the order of its children |
| KemBroadcast.GrandSecretCounted | src/TreeKEM.js:236-253 | corrected, that node costs 4 encryptions in either order |
| KemUpdate.SendCounted | src/TreeKEM.js:187 | one broadcast of the copath loop, with `count` set |
| KemUpdate.SweepCopath | src/TreeKEM.js:181-189 | the copath loop skips the node the climb comes from and broadcasts to every other child |
| KemUpdate.SweptIsSweep | src/TreeKEM.js:182-188 | the copath loop decrypts at exactly the live users of the other children |
| KemUpdate.DecryptedOnceMore | src/TreeKEM.js:224-231 | n decryptions then one more are n + 1 |
| KemUpdate.CreditCounts | src/TreeKEM.js:224-231 | each user gets one `dec` per time it receives, with its `dec-prg` and `dec-gen` for the distance to the update node |
| KemUpdate.ClimbPath | src/TreeKEM.js:174-195 | the climb loop from the leaf to the root computes `Climb` |
| KemUpdate.ClimbSender | src/TreeKEM.js:178-180 | the sender pays one PRG step per path node and one key generation per path node below the root |
| KemUpdate.ClimbSecret | src/TreeKEM.js:191-193 | every path node above the leaf ends with `secret = true`, no other node's secret changes |
| KemUpdate.ClimbHeard | src/TreeKEM.js:176-195 | each user's `dec` rises once per time it is among the climb's receivers |
| KemUpdate.CopathsDeliver | src/TreeKEM.js:182-188 | the copath loop delivers to the live users of the other children, whatever the secrets |
| KemUpdate.HeardOnce | src/TreeKEM.js:176-195 | the copaths of a path from a leaf to the root hold every user of the tree but that leaf's, each once |
| KemBlank.Deepest | src/TreeKEM.js:200-206 | the deepest node of a's path that lies on b's path |
| KemBlank.Meet | src/TreeKEM.js:200-206 | the `LCA` climb from a's leaf computes `Deepest` |
| KemBlank.BlankSecret | src/TreeKEM.js:211-213 | after the blanking loop, a node's secret is `[]` iff it is a path node in the range, else unchanged |
| KemBlank.BlankPath | src/TreeKEM.js:211-213 | the blanking loop computes `Blank` |
| KemBlank.From | src/TreeKEM.js:199-211 | the picked node is on b's path |
| KemBlank.UpdateSender | src/TreeKEM.js:168-214 | `update(b, a)`: a pays one PRG step per node of b's path and one key generation per node below the root; the number of users is unchanged |
| KemBlank.UpdateReceivers | src/TreeKEM.js:168-214 | every live user of the tree but a and b decrypts exactly once; a, b, removed users and absent users do not |
| KemBlank.RefreshSecrets | src/TreeKEM.js:191-213 | after `update`, a path node above the leaf is `true` up to the picked node and `[]` below it; other nodes keep their secret |
| KemBlank.MeetIsLowest | src/TreeKEM.js:200-206 | the `LCA` strategy picks the lowest node shared by a's and b's paths |
| KemBlank.UpdateSelf | src/TreeKEM.js:197-198 | under `LCA`, `update(a, a)` blanks nothing: every path node above the leaf ends `true` |
| TreeKEMs.Excluding | src/TreeKEM.js:82 | `filter(c => !gone.includes(c))`: exactly the members not gone, no more of them |
| TreeKEMs.React | src/TreeKEM.js:53-106 | a callback changes secrets only: counters and flags are untouched |
| TreeKEMs.Replay | src/TreeKEM.js:89-133 | replaying callbacks leaves counters and flags as they were |
| TreeKEMs.Pick | src/TreeKEM.js:199-210 | the strategy's node is computed as `From` says |
| TreeKEMs.Refresh | src/TreeKEM.js:168-214 | the body of `update` computes `Updating`: climb with a flagged, unflag, blank below the picked node |
| TreeKEMs.UpdatingKeeps | src/TreeKEM.js:171-196 | `update` keeps the number of users, and every flag when a is live |
| TreeKEMs.GainedOne | src/TreeKEM.js:46-48 | a tree gaining one new user keeps users apart, and holds the old users and the new one |
| TreeKEMs.LostOne | src/TreeKEM.js:95-98 | a tree losing one user keeps users apart and keeps every other user |
| TreeKEMs.TreeKEM.constructor | src/TreeKEM.js:37-40 | one user, 0, whose leaf is the whole tree, zero counters, not removed |
| TreeKEMs.TreeKEM.SetRemoved | src/TreeKEM.js:155-167 | only the user's flag changes |
| TreeKEMs.TreeKEM.Callbacks | src/TreeKEM.js:53-106 | the reactions to the tree's callbacks, in order: the state after is `Replay` |
| TreeKEMs.TreeKEM.BlankAbove | src/TreeKEM.js:71-75 | the loop blanks every ancestor of b's leaf |
| TreeKEMs.TreeKEM.Update | src/TreeKEM.js:168-214 | `update(b, a)`: the state becomes `Updating`, flags and invariant kept |
| TreeKEMs.TreeKEM.Grow | src/TreeKEM.js:69-80 | `root.add`: the invariant holds, b is in, a stays, only recycled users can leave; a B-tree gains exactly b |
| TreeKEMs.TreeKEM.Shrink | src/TreeKEM.js:119-151 | `root.remove`: the invariant holds, a stays, nobody joins; a B-tree loses exactly b, a left tree recycles b |
| TreeKEMs.TreeKEM.Join | src/TreeKEM.js:47-48 | b's leaf with zero counters, not removed, placed by a's |
| TreeKEMs.TreeKEM.Add | src/TreeKEM.js:46-94 | `add(a, b)`: b joins, the invariant holds, the state is `AddOf` |
| TreeKEMs.TreeKEM.SplitThenBlank | src/TreeKEM.js:67-76 | 'async': the split handler at each callback, then every ancestor of b blanked |
| TreeKEMs.TreeKEM.FilterThenUpdate | src/TreeKEM.js:77-92 | 'sync': callbacks filter the children that left, a refreshes b's path, then the split handler runs per callback |
| TreeKEMs.TreeKEM.Flagged | src/TreeKEM.js:98 | `setRemoved(ub)`: b flagged, a still live |
| TreeKEMs.TreeKEM.Remove | src/TreeKEM.js:95-154 | `remove(a, b)`: b flagged, a B-tree loses b and a left tree recycles it (truncation may then cut it), the invariant holds, the state is `RemoveOf` |
| TreeKEMs.TreeKEM.RemoveThenUpdate | src/TreeKEM.js:110-134 | 'remover': blank b's path, remove, a refreshes its path in the new tree, blank the nodes that lost children, handle the merges |
| TreeKEMs.TreeKEM.Detach | src/TreeKEM.js:112-124 | b's path blanked, then the removal: a B-tree loses b, a left tree recycles it |
| TreeKEMs.TreeKEM.Reconcile | src/TreeKEM.js:119-133 | after the removal: filtering callbacks, a's update, blanking, merges |
| TreeKEMs.TreeKEM.UpdateThenRemove | src/TreeKEM.js:135-152 | 'remover-before' and 'removee': the refresh first, then the removal with its callbacks handled at once |
| TreeKEMs.TreeKEM.Excise | src/TreeKEM.js:145-151 | the removal with split callbacks blanking and merge callbacks as the strategy says |
| TreeKEMs.TreeKEM.Prepare | src/TreeKEM.js:137-149 | b's path blanked for 'remover-before', then the refresh |
| TreeKEMs.TreeKEM.Init | src/TreeKEM.js:41-45 | `init(n)`: user 0 adds users until there are n; the invariant holds, every added user is live and in the tree, the earlier flags are unchanged and the earlier live users stay |
| TreeKEMFacts.ShiftedKeepsFirst | src/TreeKEM.js:124-133 | as written, a 'keep' merge under 'remover' lists a child that just joined among those knowing the secret |
| TreeKEMFacts.KeepRestForgetsJoined | src/TreeKEM.js:106 | the 'keep' merge lists exactly the children that were there before and did not just join |
| TreeKEMFacts.BlankedAbove | src/TreeKEM.js:71-75 | the blanking of a path reaches every node above the leaf |
| TreeKEMFacts.AsyncAdd | src/TreeKEM.js:66-76 | 'async' add: nobody's counters change, b joins live, every ancestor of b forgets its secret |
| TreeKEMFacts.SyncAddSender | src/TreeKEM.js:77-92 | 'sync' add: a pays one PRG step per node of b's path and one key generation per node below the root |
| TreeKEMFacts.SyncAddReceivers | src/TreeKEM.js:77-92 | 'sync' add: every other live user decrypts once; a, b and removed users do not |
| TreeKEMFacts.RemoveIsUpdate | src/TreeKEM.js:95-154 | `remove` changes counters and flags exactly as its one `update` does, after flagging b |
| TreeKEMFacts.RemoveSender | src/TreeKEM.js:109-153 | a pays one PRG step per node of the refreshed path: a's new path ('remover'), a's old path ('remover-before'), b's old path ('removee') |
| TreeKEMFacts.RemoveReceivers | src/TreeKEM.js:109-153 | b decrypts nothing; every other live user of the refreshed tree but a decrypts once |
| TreeKEMFacts.RemoveFlags | src/TreeKEM.js:98 | after `remove(a, b)` b is flagged and every other flag is as before |

## Left out

- TreeKEMs.TreeKEM.Add: requires the adder `a` to be a live user whose leaf is in the tree; the source asserts only that `a` indexes `users`, and its later walks up from `users[a]` assume the rest.
- TreeKEMs.TreeKEM.Remove: requires a live remover `a` and a user `b` whose leaves are both in the tree; the source asserts only that both index `users` and differ.
- TreeKEMs.TreeKEM.Update: requires a live sender `a`. The source would also run for a removed sender and clear its flag afterwards; no operation of `TreeKEM` calls it that way.
- TreeKEMs.TreeKEM.Init: requires user 0 live and in the tree, which the constructor establishes.
- Callbacks (`onRemoveChild`, `onAddChild`) are recorded by the trees as a list of events and replayed afterwards in order. The source runs them while the tree is being changed; the model gives each replayed event the state the source would see at that moment.
- Node identities in the mutable trees are numbers drawn from a counter (`next`), not heap objects.
- The mutable trees of `trees.js` are modelled as values, with parent pointers derived from the path to a node. In-place update, aliasing and the stale `parent` pointers of detached nodes are not captured.
- Uniformly random choices are not modelled: the 'random' positions of `trees.js:85-88` and `LeftTree.js:182-186` and `getRandomLeaf` in `persistChildTree.js:36-41`. For the B-trees the leaf picked at random is a parameter (`MutableBTrees.AddSibling`'s `x`, `PersistBTrees.Add`'s `random` path).
- LeftTrees.Add: covers only the adds that append. Reusing a removed leaf through the base class's `add` is not part of this model (the base class is not shown), so a 'greedy' add requires a tree without removed leaves.
- PerfectTrees.Add: the same restriction as `LeftTrees.Add`.
- Floating-point helpers are replaced by integer logarithms: `Math.log2` in the jump count (`Log2`), `Math.ceil(Math.log2 n)` in `PerfectTree.initLeft` (`CeilLog2`), and the `Math.log` ratio in `BTree.init` (`CeilLog`). Near exact powers the floating-point values can differ from these. The `NaN` "not perfect" marker of `trees.js:46` is `None`.
- PersistBTrees.Init: proves what a successful result is (a valid tree over n leaves). It does not prove that the source's assertions never fire for a given n and m.
- PersistBTrees.InitGivenHeight: a fan-out below two is taken as a failed assertion. The source would build a node with no children or one child.
- The persistent base classes `BinaryTree` and `BinarySparseTree` are not part of this model. Nodes are reached by paths of child indices; `getParent`, `replace`, `getPath`, `getCopath`, `setParent` and `getSiblings` become operations on those paths.
- `LeftTree.pop`/`split` (src/trees/LeftTree.js:81-153) and the 'balance' truncation policy built on them are not modelled. They work through the base class's `setParent` and `split`.
- `LeftTree.merge` is modelled as a function on the list of roots, not as the in-place `splice` of `src/trees/LeftTree.js:98`.
- The `setParent` call on a truncated root (src/trees/LeftTree.js:201-203) is not modelled: parents are not stored.
- `LLRBTree.init`/`add`/`remove`/`clearTill` (src/trees/LLRBTree.js:190-230) are not modelled. They call a four-argument `makeBTree` and an `LLRBTreeEnums.remove` that `src/trees/BTree.js` does not define.
- The `decompose` list and `isComponent` flags that `isomorph` sets (src/trees/LLRBTree.js:178-186) are not modelled; nothing in the modelled core reads them.
- `colorPattern`, `info`, `toString` and `testTree` are display code.
- LLRBTrees.Mirror.Isomorph: states when the result is none only for arities other than 0, 2, 3 and 4. The other failed assertions (a trace into a cached pair, a current-epoch child under a node without trace) give none too, but the contract does not characterise those inputs.
- `DepthRegion.isInRegion` receives the node's path as a sequence of node ids, and the recipient's path as a set: `getPath` belongs to the trees' base class. The `depths` WeakMap is a map.
- `CounterCrypto.stat` returns the counters by value; the source returns the live object, so later calls change what a caller holds.
- `Epoch` and the persistent parent tree are modelled as one store of columns (parent, depth, jump cache, index, child count) indexed by epoch handles, not as one heap object per epoch.
- TreeKEMs.TreeKEM.Remove: under the 'truncate' policy it removes from a left tree with the corrected truncation loop (`MutableLeftTrees.Remove`), not the one-cut loop of trees.js:109-116 (first row of "## Findings"). Under 'remover' it replays the merges with the corrected `KeepRest` reaction, not the shifted `onAddChild` arguments of src/TreeKEM.js:131 (third row of "## Findings").
- TreeKEMs.TreeKEM.Shrink: calls the corrected truncation loop `MutableLeftTrees.Remove` for a left tree. A trailing recycled leaf that trees.js:109-116 as written would leave in the tree is cut here.
- TreeKEMs.TreeKEM.RemoveThenUpdate: the merges after the removal use the corrected `KeepRest` reaction. They do not use the shifted arguments of src/TreeKEM.js:131 that `KeepShifted` models, so a newly merged child never lands in the node's secret set.
- TreeKEMs.TreeKEM.Reconcile: replays the merge callbacks with `KeepRest`, the corrected reading of src/TreeKEM.js:131, for the same reason as `RemoveThenUpdate`.
- KemUpdate.SendCounted: broadcasts with the corrected `AnyChild` tally (`KemBroadcast.Broadcast`). src/TreeKEM.js:187 calls the broadcast as written, whose `selfSecretGrandUsed` comes from the last child only (src/TreeKEM.js:239-244, second row of "## Findings"). Where a node keeps a secret for a grandchild, the sender's `enc` count here can be one higher than the source's.
- KemUpdate.SweepCopath: its `enc` sum comes from `SendCounted`, so it carries the same corrected tally.
- KemUpdate.ClimbPath: the sender's `enc` count from the copath loops carries the corrected tally of `SendCounted`. The PRG and key-generation counts and the receivers do not depend on it.
- TreeKEMs.Refresh: computes `Updating`, whose climb uses the corrected tally of `KemUpdate.SendCounted`, so the sender's `enc` count can differ from src/TreeKEM.js:187 as written.
- TreeKEMs.TreeKEM.Update: the new state is `Updating`, so the sender's `enc` count follows the corrected tally of `KemUpdate.SendCounted`.
- TreeKEMs.TreeKEM.Add: under 'sync' the refresh of b's path is `Updating`, so the adder's `enc` count follows the corrected tally of `KemUpdate.SendCounted`.
- TreeKEMs.TreeKEM.FilterThenUpdate: its embedded update follows the corrected tally of `KemUpdate.SendCounted`.
- TreeKEMs.TreeKEM.Remove: every strategy refreshes a path through `Updating`, so the remover's `enc` count follows the corrected tally of `KemUpdate.SendCounted`.
- TreeKEMs.TreeKEM.RemoveThenUpdate: the remover's update follows the corrected tally of `KemUpdate.SendCounted`.
- TreeKEMs.TreeKEM.Reconcile: the update it runs follows the corrected tally of `KemUpdate.SendCounted`.
- TreeKEMs.TreeKEM.UpdateThenRemove: the refresh before the removal follows the corrected tally of `KemUpdate.SendCounted`.
- TreeKEMs.TreeKEM.Prepare: the refresh follows the corrected tally of `KemUpdate.SendCounted`.
- TreeKEMs.TreeKEM.Valid: does not bound the inner node numbers of `tree`, `secret` and `grand` by `next`. A missing entry reads as the empty secret (`KemBroadcast.SecretOf`), so a node made by `add` starts with `secret: []` as at src/TreeKEM.js:69 and :80 only while its new number has no entry; no invariant here proves that.
- The `decompose = [this, leaf]` list that `LeftTree.append` stores on the rebuilt root (src/trees/LeftTree.js:77) is not modelled. Nothing in the modelled core reads it; its reader, the recomposition of the newer engine, is not part of this model.
- `SplayTree`, the benchmark and experiment drivers, the registries (`mod.js`) and the test files are not part of this model.

## Findings

| source | as written | input that shows it | evidently intended | confidence | as-written member | corrected member |
|---|---|---|---|---|---|---|
| trees.js:109-116 | the 'truncate' loop of `remove` stops as soon as `root.truncate()` returns the same object; `truncate` below the root mutates the root in place and returns it, so only one trailing removed leaf is cut | leaves [0, 1, 2, 3] with 2 already recycled, then `remove(3)`: the loop leaves [0, 1, 2] | every trailing removed leaf is cut, leaving [0, 1] | not executed | MutableLeftTrees.CollapseAsWrittenLeavesTombstone | MutableLeftTrees.Remove |
| src/TreeKEM.js:236-253 | `broadcast` keeps in `selfSecretGrandUsed` only the last child's answer, so whether the node's own kept secret was used depends on the order of its children | a node whose secret is kept for user 1 (`GrandExample`), five live users: the encryption count is 3 in one child order and 4 in the other | the kept secret counts if any child used it: 4 in either order | not executed | KemBroadcast.GrandSecretLostAsWritten | KemBroadcast.GrandSecretCounted |
| src/TreeKEM.js:124-133 | the remover's merges call `onAddChild(node, ...children)`, so under the 'keep' handling of line 106 the first merged child becomes the grandparent argument and is dropped from the children | a 'keep' merge under 'remover' with a single merged child c that was not there before: c ends up listed among the children that know the secret | the merged children are added as children, so a newly merged child does not count as knowing the secret | not executed | TreeKEMFacts.ShiftedKeepsFirst | TreeKEMFacts.KeepRestForgetsJoined |
