# HPCToolkit profile core, modelled in Dafny

This project models the core of HPCToolkit's profile handling, in four
parts.

- **Building the calling context tree (CCT).** `Profile::hpcrun_fmt_cct_fread`
  rebuilds the tree from the flat stream of node records in a measurement
  file. The parent lookup, the id checks, node construction (`cct_makeNode`),
  linking and the id-to-node map are modelled in `cct_build.dfy`.
- **Fixing up the tree and the profile.**
  - `cct_tree.dfy` holds the root fix-up (`cct_fixRoot`) and the leaf fix-up
    (`cct_fixLeaves`).
  - `profile.dfy` holds the profile passes over the tree. These are address
    canonicalisation against a load map (`Profile::cct_canonicalize`), the
    rewrite of load-module ids after load maps are merged
    (`Profile::cct_canonicalizePostMerge`), and the metric part of
    `Profile::merge`.
- **Temporal context tree nodes** of the trace analysis (`TCT-Node.hpp`), in
  `tct_node.dfy`. This covers `TCTID` comparison, the child vector of trace
  nodes, the pending iteration of loop nodes and `setDepth` of profile nodes. The accessors
  `getNumChild`, `getChild` and `getNumIteration` (`TCT-Node.hpp:238`, `:242`,
  `:347`) are the functions `NumChild`, `GetChild` and `NumIteration`, through
  which the mutators' contracts are stated.
- **The OpenMP tools layer's region map and node vector**, in `region_map.dfy`
  and `node_vector.dfy`. The region map is a splay tree of region entries
  with reference counts. The node vector is a growable array of context-node
  pointers.

## How the CCT is modelled

The tree is an arena. Node `i` lives in slot `i`, and an empty slot is a
deleted node. A node's children are an ordered list of slot indices. The
record stream lists parents before children, so every child sits in a later
slot than its parent. `Cct.Wf` collects what the source relies on:

- the root is live and is nobody's child;
- only the root may be a Root node;
- children are live and sit in later slots;
- no child is listed twice;
- no node has two parents.

The loading loop is specified by `CctBuild.Load`, a function of the record
sequence that stops at the first rejected record. It is proved against
`CheckAt`, an independent per-record definition of rejection
(`LoadErrorIsFirstFailure`), and against `FinalSlot`, a closed form of the
finished tree in which slot `base + k` holds record `k`'s node with exactly
the records naming it as parent as its children (`LoadShape`). The methods
`LinkRecord` and `ReadCct` are proved to compute `Load`.

Both profile passes walk the slots and rewrite each dynamic (Call or Stmt)
node. They are proved against slot-wise functions (`Canonicalized`,
`PostMerged`). Lemmas then state what those functions do to each node and
that they keep the tree well formed.

Inputs and constants:

- A node record is a value (`CctBuild.Record`). Reading it from the file is
  not modelled.
- `lm_find` is a given function: `CallPathProfile.LoadMap.find` maps an
  address to the index of its module, if any.
- The change list that `LoadMapMgr::merge` returns is a parameter of
  `Profile.Merge`.
- `RETAIN_ID_FOR_TRACE_FLAG` is a parameter (`retainFlag`).
- The null node id `HPCFILE_CSTREE_NODE_ID_NULL` and `LM_id_NULL` are both
  taken as 0.

## Model

| member | source | states |
|---|---|---|
| CctBuild.MapKey | src/lib/prof-juicy/CallPath-Profile.cpp:504 | The `int` key of the id-to-node map is a 32-bit two's-complement value congruent to the 64-bit record id modulo 2^32. |
| CctBuild.CpId | src/lib/prof-juicy/CallPath-Profile.cpp:595 | The id handed to the node always fits the 32-bit `id` parameter of `cct_makeNode`. A nonzero id means the retain-for-trace bit is set in the record id. When it is set, the node gets the record id modulo 2^32, so an id that fits is kept unchanged. With no retain bits at all, every node gets id 0. |
| CctBuild.MakeNode | src/lib/prof-juicy/CallPath-Profile.cpp:669-689 | The built node is a childless Call node with the record's ip, opcode index 0, and exactly `numMetrics` metric values copied in order. |
| CctBuild.Registered | src/lib/prof-juicy/CallPath-Profile.cpp:607 | `std::map::insert` adds the key, keeps every existing binding and binds a new key to the new node. |
| CctBuild.LoadErrorIsFirstFailure | src/lib/prof-juicy/CallPath-Profile.cpp:571-605 | A stream is accepted exactly when no record fails. A record fails when its non-null parent id does not match an earlier record, when its parent id is not below its own id, or when it has no parent after a root exists. A rejected stream reports the first failing record's error. |
| CctBuild.LoadMap | src/lib/prof-juicy/CallPath-Profile.cpp:571-579 | After accepted records, the map holds exactly their keys. Each key names the slot of the first record carrying it. The root is set once any record has been linked. |
| CctBuild.LoadShape | src/lib/prof-juicy/CallPath-Profile.cpp:595-607 | Earlier slots are untouched. Record `k`'s built node sits in its own slot. Its children are exactly the later records whose parent lookup found record `k`, in stream order. |
| CctBuild.LoadWf | src/lib/prof-juicy/CallPath-Profile.cpp:595-605 | Linking accepted records keeps the tree well formed: one root, and children in later slots with one parent each. |
| CctBuild.LoadStopsAtError | src/lib/prof-juicy/CallPath-Profile.cpp:576-583 | Once a record is rejected, the records after it change nothing. |
| CctBuild.LinkRecord | src/lib/prof-juicy/CallPath-Profile.cpp:569-607 | One pass of the loop body leaves the tree, the map and the outcome that one step of `Load` gives. |
| CctBuild.ReadCct | src/lib/prof-juicy/CallPath-Profile.cpp:531-608 | The record loop leaves the tree and the outcome `Load` gives for the whole stream. |
| Cct.SplicePoint | src/lib/prof-juicy/CallPath-Profile.cpp:709-713 | The splice point is a live node. It is the old root's only child exactly when the old root has one child, and the old root itself otherwise. |
| Cct.FixedRootIdempotent | src/lib/prof-juicy/CallPath-Profile.cpp:702-705 | Root fix-up yields a well-formed tree, and fixing it again changes nothing. |
| Cct.FixedRootShape | src/lib/prof-juicy/CallPath-Profile.cpp:707-727 | When the root is not a Root, the new Root takes the old root's place. Its children are exactly the splice point's children, the splice point's slot is freed, and every other slot is untouched. |
| Cct.FixedRootWf | src/lib/prof-juicy/CallPath-Profile.cpp:700-727 | Root fix-up keeps the tree well formed. |
| Cct.Tree.FixRoot | src/lib/prof-juicy/CallPath-Profile.cpp:696-728 | The in-place fix-up moves the splice point's children one by one. It leaves exactly the tree `FixedRoot` describes, and that tree is well formed. |
| Cct.ConvertLeafStep | src/lib/prof-juicy/CallPath-Profile.cpp:750-758 | Converting one childless Call child refines the arena (only kinds and child order change) and keeps the tree well formed. Afterwards that child is no longer a childless Call and has no childless Call below it. |
| Cct.RefinesKeepsWf | src/lib/prof-juicy/CallPath-Profile.cpp:750-758 | Conversions that change only kinds and child order keep the tree well formed. |
| Cct.NoLeafCallMonotone | src/lib/prof-juicy/CallPath-Profile.cpp:743-762 | Converting nodes never creates a childless Call, so a subtree already fixed stays fixed. |
| Cct.Tree.FixChild | src/lib/prof-juicy/CallPath-Profile.cpp:744-761 | One pass of the child loop leaves the child neither a childless Call nor above one. The parent keeps its kind. Nothing outside the parent, the child and the child's descendants changes, and the tree stays well formed. |
| Cct.BelowRefines | src/lib/prof-juicy/CallPath-Profile.cpp:743-762 | Converting nodes keeps every descendant relation, because each node keeps its set of children. |
| Cct.Tree.FixLeaves | src/lib/prof-juicy/CallPath-Profile.cpp:736-763 | Afterwards no proper descendant of the node is a childless Call, and the node itself keeps its kind. Every node keeps all fields except its kind and the order of its children, and the tree stays well formed. Every slot outside the node and its descendants is unchanged, and a null node changes nothing. |
| CallPathProfile.Unrelocated | src/lib/prof-juicy/CallPath-Profile.cpp:624 | The unrelocated address plus the module's relocation is the original address, modulo 2^64. |
| CallPathProfile.CanonicalizedNode | src/lib/prof-juicy/CallPath-Profile.cpp:617-630 | Each dynamic node gets its module's id. Its new ip plus the module's relocation is its old ip. Kind, opcode index, children and metrics are unchanged, and non-dynamic slots are untouched. |
| CallPathProfile.CanonicalizedWf | src/lib/prof-juicy/CallPath-Profile.cpp:617-630 | Canonicalisation keeps a well-formed tree well formed. |
| CallPathProfile.UsedInExists | src/lib/prof-juicy/CallPath-Profile.cpp:629 | A module's used flag is raised exactly when some dynamic node's address lies in that module. |
| CallPathProfile.Profile.Canonicalize | src/lib/prof-juicy/CallPath-Profile.cpp:612-632 | The loop leaves exactly the canonicalised slots and the root unchanged. It sets the used flag on every module some node lies in, and keeps the tree well formed. |
| CallPathProfile.RemappedFirstMatch | src/lib/prof-juicy/CallPath-Profile.cpp:647-653 | A module id becomes the `new_id` of the first change whose `old_id` equals it, and stays as it is when no change matches. |
| CallPathProfile.RemappedIdentity | src/lib/prof-juicy/CallPath-Profile.cpp:647-653 | A change list whose changes all keep their id rewrites nothing. |
| CallPathProfile.FindNewId | src/lib/prof-juicy/CallPath-Profile.cpp:647-653 | The inner scan, which stops at the first match, returns the remapped id. |
| CallPathProfile.PostMergedNode | src/lib/prof-juicy/CallPath-Profile.cpp:640-655 | Only a dynamic node's module id changes, and it changes to its remapped value. |
| CallPathProfile.PostMergedWf | src/lib/prof-juicy/CallPath-Profile.cpp:640-655 | The rewrite keeps a well-formed tree well formed. |
| CallPathProfile.Profile.CanonicalizePostMerge | src/lib/prof-juicy/CallPath-Profile.cpp:635-657 | The loop leaves exactly the rewritten slots and the root unchanged, and keeps the tree well formed. |
| CallPathProfile.Profile.Merge | src/lib/prof-juicy/CallPath-Profile.cpp:125-144 | The merge succeeds exactly when neither profile has structure. It then gives `numMetrics(x) + numMetrics(y)` descriptors, with y's appended after x's in order, and rewrites y's module ids through the merge changes. |
| TctNode.EqualIsIdentity | src/lib/trace-analysis/data/TCT-Node.hpp:94-96 | `TCTID` equality holds exactly when both `id` and `procID` are equal. |
| TctNode.LessIrreflexive | src/lib/trace-analysis/data/TCT-Node.hpp:98-102 | No id is less than itself. |
| TctNode.LessTransitive | src/lib/trace-analysis/data/TCT-Node.hpp:98-102 | `<` is transitive. |
| TctNode.LessTrichotomy | src/lib/trace-analysis/data/TCT-Node.hpp:94-102 | Exactly one of `a < b`, `b < a` and `a == b` holds. |
| TctNode.MapKeyEquivalence | src/lib/trace-analysis/data/TCT-Node.hpp:98-102 | Two ids are the same `std::map` key exactly when they are equal. |
| TctNode.TraceNode.Copy | src/lib/trace-analysis/data/TCT-Node.hpp:229-232 | A copy has the original's id, name, depth and weight, and the same number of children, each the duplicate of the original's child at that position. |
| TctNode.TraceNode.AddChild | src/lib/trace-analysis/data/TCT-Node.hpp:246-248 | `getNumChild` grows by one and `getChild` of the last index is the new child. Earlier children, name, depth and weight are unchanged. |
| TctNode.TraceNode.ReplaceChild | src/lib/trace-analysis/data/TCT-Node.hpp:251-254 | `getChild(idx)` becomes the new child. `getNumChild`, every other child, name, depth and weight are unchanged. |
| TctNode.TraceNode.RemoveChild | src/lib/trace-analysis/data/TCT-Node.hpp:256-260 | Returns the former `getChild(idx)`. `getNumChild` drops by one, the children before `idx` stay in place and those after it move down by one. Name, depth and weight are unchanged. |
| TctNode.LoopNode.PopPendingIteration | src/lib/trace-analysis/data/TCT-Node.hpp:366-370 | Returns the pending iteration and leaves none pending, so the iteration count drops by one exactly when one was pending. |
| TctNode.ProfileNode.SetDepth | src/lib/trace-analysis/data/TCT-Node.hpp:425-429 | Every node reachable through `childMap` gets depth `d` plus its distance from the receiver. Nothing else changes. |
| RegionMap.RegionEntry.New | src/tool/hpcrun/ompt/ompt-region-map.c:52-65 | A new entry has the given region id, device id and call path, `refcnt == 0`, and a fresh empty vector of capacity 32. |
| RegionMap.Splay | src/tool/hpcrun/ompt/ompt-region-map.c:68-73 | Splaying keeps the entries and the search-tree order. It brings the key to the root when present, and otherwise brings its nearest neighbour there. |
| RegionMap.SplayAboveAll | src/tool/hpcrun/ompt/ompt-region-map.c:84-88 | Splaying the left subtree on the root's key brings its maximum to the top with nothing to its right. |
| RegionMap.LinkAbove | src/tool/hpcrun/ompt/ompt-region-map.c:143-146 | Linking the new entry above a larger splayed root gives a search tree with the old entries plus the new one. |
| RegionMap.LinkBelow | src/tool/hpcrun/ompt/ompt-region-map.c:147-150 | Linking the new entry above a smaller splayed root gives a search tree with the old entries plus the new one. |
| RegionMap.Size | src/tool/hpcrun/ompt/ompt-region-map.c:229-238 | The count helper returns the number of entries. |
| RegionMap.SeqLookup | src/tool/hpcrun/ompt/ompt-region-map.c:116-125 | With no vector the result is NULL. Otherwise it is the `id`-th child call path in range and NULL beyond. |
| RegionMap.ChildInsert | src/tool/hpcrun/ompt/ompt-region-map.c:163-168 | With a vector, the call path is appended to it. Without one, nothing happens. |
| RegionMap.Map.Count | src/tool/hpcrun/ompt/ompt-region-map.c:241-245 | `count()` is the number of entries. |
| RegionMap.Map.Lookup | src/tool/hpcrun/ompt/ompt-region-map.c:98-113 | The result is an entry with that key exactly when the key is in the map. The entries, the key set and the search-tree order are kept. |
| RegionMap.Map.Insert | src/tool/hpcrun/ompt/ompt-region-map.c:128-160 | A present key is the fatal case. An absent key makes the new entry the root, adds exactly that key, keeps search-tree order and raises the count by one. The new entry has the given region id, call path and device id, a zero count, and a fresh, valid, empty child vector. |
| RegionMap.Map.DeleteRoot | src/tool/hpcrun/ompt/ompt-region-map.c:76-90 | Removes exactly the root entry and its key, and keeps search-tree order. |
| RegionMap.Map.RefcntUpdate | src/tool/hpcrun/ompt/ompt-region-map.c:172-199 | Returns true exactly when the key is present. It then adds `val` to that entry's count modulo 2^64, and deletes the entry exactly when the count becomes 0. Otherwise the key set is unchanged. |
| NodeVector.Vector.Init | src/tool/hpcrun/ompt/ompt-cct-node-vector.c:30-37 | A new vector has size 0, capacity 32 and no elements. |
| NodeVector.Vector.Reserve | src/tool/hpcrun/ompt/ompt-cct-node-vector.c:40-52 | The elements are preserved. A larger request moves them to a fresh array of that length. The capacity field becomes the request even when it is smaller. |
| NodeVector.Vector.PushBack | src/tool/hpcrun/ompt/ompt-cct-node-vector.c:55-62 | A full vector doubles its capacity first. The node is appended after the earlier elements, and `size <= capacity` is kept. |
| NodeVector.Vector.Get | src/tool/hpcrun/ompt/ompt-cct-node-vector.c:65-73 | In range, the result is the i-th pushed node. Out of range, it is NULL, and nothing is read out of bounds. |
| NodeVector.PushAllThenGet | src/tool/hpcrun/ompt/ompt-cct-node-vector.c:30-73 | After pushing a sequence onto a new vector, `get(i)` returns its i-th element in range and NULL beyond. |

## Left out

- Reading the measurement file is not modelled. This covers `Profile::make`, the `hpcrun_fmt_*_fread` readers, `hpcfile_cstree_node__fread`, stream opening and the `lush_lip_t` payload. Records are an input sequence. A read error (`DIAG_Throw` at `CallPath-Profile.cpp:539-541`) is not modelled.
- The `data->as_info` field that `cct_makeNode` passes to `CCT::Call` (`CallPath-Profile.cpp:685`), the node's LUSH association info, has no field in `Cct.Node`.
- XML and text output, and the `TMSG`/`DIAG_Msg` logging, are not modelled.
- Exceptions become error values. The "Cannot find parent", "Invalid parent" and "Must only have one root node" failures are `BuildError` results. Throwing, and the node left allocated when the root check fails, are not modelled.
- The tree walk of `cct_canonicalize` and `cct_canonicalizePostMerge` uses `ANodeIterator` from the root. The model visits every live slot instead. That is the same set of nodes when every live slot is reachable from the root, which holds for trees built by the loader but is not part of `Cct.Wf`.
- CallPathProfile.Profile.Canonicalize: requires every dynamic node's address to resolve to a module, because the source dereferences `lm_find`'s result unchecked.
- `lm_find`, `LoadMap::compute_relocAmt` and `RealPathMgr` are not modelled. The load map is a given module table with a given lookup function.
- `LoadMapMgr::merge` is not modelled: its change list is a parameter.
- `CCT::Tree::merge` is not modelled: the tree merge at `CallPath-Profile.cpp:150` is not part of `Profile.Merge`.
- CallPathProfile.Profile.Merge: requires `y` to be a different profile. Merging a profile into itself would make the descriptor loop grow its own bound.
- A metric descriptor is reduced to its name. Copying it is a value copy.
- Cct.Tree.FixRoot: reuses the old root's slot for the new Root. This keeps children in later slots than their parents. Memory release (`delete root`) is slot clearing.
- `Link` is not modelled: its body is not part of this model. It is taken throughout to append the node to the end of the parent's child list. The loader (CctBuild.LoadShape, children in record order), the root fix-up (Cct.Tree.FixRoot) and the leaf fix-up rely on this.
- Cct.Tree.FixLeaves: the converted Stmt reuses the Call's slot. Child order is stated only up to permutation.
- CctBuild.MapKey: `std::map<int, …>` is keyed by the id converted to `int`. The model keeps its low 32 bits as a two's-complement value, the usual result of that conversion.
- The loop counter `uint i < num_nodes` and the metric count are unbounded integers. Wrap-around of these counters is not modelled.
- CallPathProfile.Profile.Merge: a profile with structure is reported as `ok == false`, where the source's `DIAG_Assert` (`CallPath-Profile.cpp:128`) aborts. The unchanged profiles after `!ok` belong to the model only.
- RegionMap.Map.Insert: a region id already present is reported as `fatal`, where the source's `assert(0)` (`ompt-region-map.c:154`) aborts. The unchanged map after `fatal` belongs to the model only. Under `NDEBUG` the source falls through to `ompt_region_map_root = entry` and drops the whole old tree; that path is not modelled.
- The spinlock of the region map is not modelled: the map is single-threaded state.
- `REGULAR_SPLAY_TREE` is a macro whose definition is not part of this model. RegionMap.Splay is a move-to-root splay with the contract the callers rely on. Its rotations need not match the macro's.
- The entry accessors `ompt_region_map_entry_refcnt_get`, `callpath_set` and `callpath_get` are plain field reads and writes.
- `hpcrun_malloc` allocation and the missing free in `reserve` are not modelled. NodeVector.Vector.PushBack does not model 64-bit overflow of `capacity * 2`.
- TctNode.LoopNode: `numIteration` and `depth` are unbounded integers. The 32-bit `int` overflow of these fields is not modelled.
- TctNode.ProfileNode.SetDepth: depths are unbounded integers. The 32-bit `int` overflow of `depth+1` (`TCT-Node.hpp:428`) is not modelled.
- TctNode.TraceNode.Copy: each child's `duplicate()` (`TCT-Node.hpp:231`, and the overrides at :276, :292, :312, :333) allocates a fresh node. The model takes `duplicate` as a given pure function on children, so the freshness and the independence of the copies are not stated.
- TctNode.TraceNode: the `const VMA ra` of `TCTANode` (`TCT-Node.hpp:213`), the call-site or loop address, is not modelled, and neither is its copy in the copy constructor. The same holds for `cfgGraph`.
- `TCTDiffScore`, `TCTTime`, `CFGAGraph` and the floating-point parts of the trace nodes are not modelled.
- The declared-only `finalizePendingIteration`, `acceptLoop`, `TCTProfileNode::merge` and `TCTProfileNode::addChild` are not modelled. So is `pushPendingIteration`, which calls `finalizePendingIteration`.
- `TCTLoopNode::addChild` is not modelled: it only reports an error and deletes the child.
- Destructors are not modelled: freeing children is outside the model.
