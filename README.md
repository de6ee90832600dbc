# MathQuill's tree-splice engine, in Dafny

MathQuill keeps a formula as a tree of nodes. Each node has a `parent`, a
left and a right sibling (`node[L]`, `node[R]`) and the two ends of its own
child list (`node.ends[L]`, `node.ends[R]`). An absent link is `0`. Every
change to the tree goes through a `Fragment`, a one-way view over a run of
siblings from `ends[L]` to `ends[R]`:

- `adopt(parent, leftward, rightward)` splices the run into the gap between
  two siblings;
- `disown()` unlinks the run from its parent's child list.

The file header promises that doing all tree changes through these two keeps
the tree well formed. This project models that engine and proves the promise,
together with what each splice does to each field and how the two splices
undo each other.

Modules:

- **`Direction`**: the two sides and their flip.
- **`Nodes`**: node records and the store that holds them by id.
  - `ListOf` is the child-list invariant: following `[R]` from `ends[L]`
    reaches `ends[R]`, `[L]` mirrors `[R]`, and every listed child points
    back at its parent.
  - `WellFormed` and `Consistent` extend that invariant to the whole
    forest and the id counter.
  - `WellFormedGap` is `prayWellFormed`.
- **`Splice`**: the splices as functions on the store. `AdoptLinks` and
  `DisownLinks` say what the store is after a splice. `AdoptSpec` and
  `DisownSpec` describe the same stores field by field, and the model proves
  each of those relations is satisfied by exactly one store.
- **`Forest`**: splices keep the forest well formed, and the round trips.
- **`SpliceWrites`**: the field writes of `adopt` and `disown`, as methods
  and loops, proved to build `AdoptLinks` and `DisownLinks`.
- **`Traversal`**: `eachNode`, `foldNodes`, `bubble` and `postOrder`.
- **`Tree`**: the objects themselves.
  - `Point`.
  - `NodeStore`: every node by id, the global id counter, and the
    per-node operations.
  - `Fragment`: `const` ends and a mutable `disowned` flag.

Node objects live in the store under their ids. A field write `x.f = v` of
the source becomes an update of the record stored under `x`. The store
carries a ghost map `children` holding every node's abstract child list, and
`NodeStore.Valid()` says that the links spell those lists out.

## Model

| member | source | states |
|---|---|---|
| Direction.Opposite | src/tree.js:13-15 | the opposite side is never the side itself |
| Direction.Sign | src/tree.js:14-15 | `L` is encoded as -1 and `R` as 1 |
| Direction.OppositeIsNegation | src/tree.js:13-15 | the encoding of the opposite side is the negated encoding, and flipping twice gives the side back |
| Nodes.IdsRange | src/tree.js:129-130 | the ids a counter at `n` has handed out are exactly 1 to `n` |
| Nodes.IdsNext | src/tree.js:129-130 | the next id is not taken yet, and storing a node under it extends the id range by one |
| Tree.NodeStore.constructor | src/tree.js:128-129 | an empty store with the counter at 0 is consistent |
| Tree.NodeStore.NewNode | src/tree.js:150-169 | the new node takes id counter+1; it is stored with all five structural fields absent; the store stays consistent; the new node is listed under no parent |
| Forest.NewNodeKeepsWellFormed | src/tree.js:156-168 | adding a node with absent links keeps every child list and the forest well formed, and the node is a free root |
| Forest.NewNodeKeepsConsistent | src/tree.js:129-130 | adding node counter+1 as a fresh root keeps the store consistent with the incremented counter |
| Nodes.WellFormedGap | src/tree.js:322-339 | `prayWellFormed`: the parent is present; an absent `leftward` means the parent's left end is `rightward`, a present one has `[R] == rightward` and this parent; symmetrically for `rightward` |
| Forest.GapPosition | src/tree.js:322-339 | in a well-formed forest, a gap that passes `prayWellFormed` with `leftward` absent or listed is a position of the parent's child list: `leftward` is the child before it and `rightward` the child after it, with 0 exactly at the ends |
| Forest.GapAtPosition | src/tree.js:322-339 | conversely, every position of a child list passes `prayWellFormed` |
| Forest.FreeNodeDisownFails | src/tree.js:285-288 | for a node without a parent, neither gap that `disown` checks passes (`a parent is always present`) |
| Tree.Point.Init | src/tree.js:36-40 | sets parent, left and right to the arguments |
| Tree.Point.constructor | src/tree.js:42-44 | a new point holds the three arguments |
| Tree.Point.Copy | src/tree.js:46-48 | a fresh point at the same parent, left and right |
| Tree.Fragment.constructor | src/tree.js:355-373 | the end on side `dir` is `withDir` and the other end is `oppDir`; requires both ends absent or both present with the same parent; the flag starts clear |
| Splice.AdoptLinks | src/tree.js:395-430 | the store after adopting a nonempty run into a gap: the same nodes, each with the fields `AdoptedNode` gives it (the run hung under `p` between `leftward` and `rightward`, the neighbours or the parent's ends pointing at the run's ends) |
| Splice.AdoptLinksRun | src/tree.js:404-427 | after adopt, every run node has parent `p`, consecutive run nodes are linked both ways, the left end's `[L]` is `leftward` and the right end's `[R]` is `rightward` |
| Splice.AdoptLinksFrame | src/tree.js:406-419 | after adopt, `leftward[R]` (or `p.ends[L]`) is the left end and `rightward[L]` (or `p.ends[R]`) the right end; no other field of any node changes |
| Splice.AdoptLinksSpec | src/tree.js:395-430 | `AdoptLinks` satisfies the field-by-field adopt relation |
| Splice.AdoptSpecUnique | src/tree.js:395-430 | any store satisfying the adopt relation is `AdoptLinks`, so the relation fixes every field of every node |
| Splice.DisownLinks | src/tree.js:441-457 | after disown, `leftEnd[L][R]` (or `p.ends[L]`) is `rightEnd[R]` and `rightEnd[R][L]` (or `p.ends[R]`) is `leftEnd[L]`; every other field, including the run's own parent and sibling links, keeps its value |
| Splice.DisownLinksSpec | src/tree.js:441-457 | `DisownLinks` satisfies the field-by-field disown relation |
| Splice.DisownSpecUnique | src/tree.js:441-457 | any store satisfying the disown relation is `DisownLinks` |
| SpliceWrites.WritePrelude | src/tree.js:406-419 | the writes before the walk build the store `Prelude` describes |
| SpliceWrites.WriteVisit | src/tree.js:421-427 | one visit of the walk sets the node's `[L]` and `parent` and its predecessor's `[R]` |
| SpliceWrites.WalkIsWalked | src/tree.js:421-427 | after `i` visits, each node has the fields `Walked` gives it: visited nodes hang under `p` after their predecessor, and `leftward[R]` is the run's first node |
| SpliceWrites.PreludeThenWalk | src/tree.js:404-427 | the prelude followed by the whole walk builds exactly `AdoptLinks` |
| SpliceWrites.WalkRun | src/tree.js:421-427 | the walk loop, whose stop test reads `ends[R][R]` afresh each turn, makes exactly one visit per run node, in order |
| SpliceWrites.DisownWrites | src/tree.js:447-457 | the two conditional writes of `disown` build exactly `DisownLinks` |
| Tree.AdoptOnStore | src/tree.js:404-427 | the adopt writes on a nonempty run build the splice `Adopted` states: the links are `AdoptLinks` and the parent's child list gains the run |
| Tree.DisownOnStore | src/tree.js:441-457 | the disown writes build the splice `Disowned` states: the links are `DisownLinks` and the parent's list loses the slice |
| Forest.AdoptParentList | src/tree.js:404-427 | after adopt, the parent's child list is the old list with the run inserted at the gap |
| Forest.AdoptOtherList | src/tree.js:404-427 | adopt leaves every other parent's child list as it was |
| Forest.AdoptClosed | src/tree.js:404-427 | adopt makes no link point outside the store |
| Forest.AdoptListsRun | src/tree.js:404-427 | after adopt, every run node is listed under `p` |
| Forest.AdoptKeepsWellFormed | src/tree.js:4-6 | adopting a detached run into a checked gap keeps the forest well formed, and the run's nodes end up listed under `p` |
| Forest.AdoptKeepsConsistent | src/tree.js:4-6 | adopt keeps the store consistent with its id counter |
| Forest.SliceBoundariesAreGaps | src/tree.js:442-445 | for a slice of a child list, the left end's parent is `p`, and both gaps that `disown` checks pass, with the slice's true neighbours as `leftEnd[L]` and `rightEnd[R]` |
| Forest.DisownParentList | src/tree.js:447-457 | after disown, the parent's child list is the old list without the slice |
| Forest.DisownOtherList | src/tree.js:447-457 | disown leaves every other parent's child list as it was |
| Forest.DisownClosed | src/tree.js:447-457 | disown makes no link point outside the store |
| Forest.DisownDetachesRun | src/tree.js:447-457 | after disown, no slice node is listed under any parent |
| Forest.DisownKeepsRunLinked | src/tree.js:447-457 | after disown, the slice is still linked left to right from its left end |
| Forest.DisownKeepsWellFormed | src/tree.js:4-6 | disowning a slice keeps the forest well formed, and leaves the slice detached and still linked, ready to be adopted |
| Forest.DisownKeepsConsistent | src/tree.js:4-6 | disown keeps the store consistent with its id counter |
| Forest.DisownedRunMayReturn | src/tree.js:395-460 | a disowned slice meets everything adopt needs to be put back into the gap it left |
| Forest.GapAfterCut | src/tree.js:444-445 | after a cut, the gap between the slice's old neighbours passes `prayWellFormed` |
| Forest.InsertCut | src/tree.js:395-460 | inserting a cut slice back after its old left neighbour gives the original child list |
| Forest.CutInsert | src/tree.js:395-460 | cutting an inserted run back out gives the original child list |
| Forest.RestoreSpec | src/tree.js:395-460 | any store that the disown relation and then the adopt relation allow for a slice and its old gap is the original store |
| Forest.DisownThenAdoptRestores | src/tree.js:395-460 | disowning a slice and re-adopting it at (parent, old `leftEnd[L]`, old `rightEnd[R]`) restores every parent, sibling and `ends` link of every node and the child list |
| Forest.AdoptThenDisownRestores | src/tree.js:395-460 | disowning a run right after adopting it restores the parent's child list and every node outside the run |
| Forest.AdoptRestoresOthers | src/tree.js:395-460 | after adopt and then disown of the same run, every node outside the run is as it was |
| Forest.SecondDisownFails | src/tree.js:285-288 | after a node slice is disowned, disowning its left end again through a new fragment fails the first gap check |
| Forest.StaleGapPassesCheck | src/tree.js:322-339 | a gap between two disowned siblings still passes `prayWellFormed`; adopting a node into it gives the node parent `p` without listing it in any well-formed reading of the result |
| Traversal.UntilStop | src/tree.js:104-112 | the visited part of a walk is a prefix; every node but the last visited answered not-`false`; an early stop happens only right after a `false` |
| Traversal.UntilStopAt | src/tree.js:108-111 | the visited prefix ends exactly at the first node that answered `false`, or covers the whole run |
| Traversal.EachNode | src/tree.js:104-112 | `eachNode` visits the run from `ends[L]` to `ends[R]` left to right, stops right after a `false`, and visits nothing when `ends[L]` is absent |
| Traversal.FoldNodes | src/tree.js:114-123 | `foldNodes` is a left fold over the run, and returns the seed unchanged when `ends[L]` is absent |
| Traversal.FoldLeftAppend | src/tree.js:114-123 | folding a concatenation folds the first part, then continues from its result |
| Traversal.Ancestry | src/tree.js:220-227 | the ancestry starts at the node; each element is the parent of the one before; the last one has no parent |
| Traversal.AncestryBound | src/tree.js:220-227 | the ancestry does not depend on the ghost bound that shows the parent chain ends |
| Tree.NodeStore.Bubble | src/tree.js:220-227 | `bubble` visits the node and then each successive parent until the parent is absent, stopping right after a `false` |
| Traversal.PostOrderChildrenFirst | src/tree.js:229-236 | in `postOrder`'s visiting order every node comes after all of its children, and the node itself comes last |
| Traversal.LeafRanked | src/tree.js:229-236 | a childless node can always be ranked on its own, however the rest of the store is linked, so `postOrder` on it needs nothing more |
| Tree.NodeStore.PostOrder | src/tree.js:229-236 | the recursive walk visits each child subtree in list order, then the node, and never stops early |
| Tree.NodeStore.IsEmpty | src/tree.js:238-240 | both ends are absent exactly when the node has no children |
| Tree.NodeStore.ChildrenWalkable | src/tree.js:262-273 | a node's child list is the run a sibling walk from `ends[L]` to `ends[R]` follows |
| Tree.NodeStore.Children | src/tree.js:262-264 | a fresh fragment whose ends are the node's child-list ends |
| Tree.NodeStore.EachChild | src/tree.js:266-269 | visits the node's children left to right, stopping right after a `false` |
| Tree.NodeStore.FoldChildren | src/tree.js:271-273 | a left fold over the node's children |
| Tree.NodeStore.SpliceIn | src/tree.js:404-427 | the nonempty-run writes of adopt on the store: the store stays valid, and the new links and child lists are the `Adopted` splice |
| Tree.NodeStore.Adopt | src/tree.js:280-283 | adopting one node: the store stays valid, the splice is the one-node `Adopted`, and the node becomes listed |
| Tree.NodeStore.WithDirAdopt | src/tree.js:275-278 | adopting one node into the gap `Gap(dir, withDir, oppDir)` |
| Tree.NodeStore.Disown | src/tree.js:285-288 | disowning a listed node through a fresh fragment: the store stays valid, the splice is the one-node `Disowned`, and the node is no longer listed |
| Tree.Gap | src/tree.js:391-394 | the neighbour on side `dir` is `withDir` and the one on the opposite side is `oppDir` |
| Tree.Fragment.Each | src/tree.js:467-470 | `eachNode` over the fragment's ends |
| Tree.Fragment.Fold | src/tree.js:472-474 | `foldNodes` over the fragment's ends |
| Tree.Fragment.Adopt | src/tree.js:395-430 | clears the flag; for an empty fragment changes no node; otherwise splices the run into the checked gap as `Adopted`, keeps the store valid, and lists every run node under `p` |
| Tree.Fragment.WithDirAdopt | src/tree.js:391-394 | `adopt` with `withDir` as the neighbour on side `dir`, so the arguments are swapped for `R` |
| Tree.Fragment.Disown | src/tree.js:432-460 | for an empty or already disowned fragment, changes nothing, so a second disown of the same fragment is a no-op; otherwise sets the flag, makes the `Disowned` splice, keeps the store valid, and leaves the run detached but still linked |

## Left out

- DOM and jQuery work is not modelled. That covers `insDirOf`/`insAtDirEnd`
  (src/tree.js:25-31), `jQadd`/`jQize` (173-204), the fragment's `jQ`
  accumulation (375-387), and the `jQ.remove()` of both `remove` methods
  (290-293, 462-465). Both `remove` methods are otherwise `disown`, and are
  not modelled apart from it.
- Element-to-node linking (132-148) is not modelled, nor the temporary id
  registry `TempByIdDict` with its timer cleaning (89-102, 163-164). They
  write to browser objects or depend on the host's timer.
- `createDir`/`createLeftOf` (206-214) are not modelled: they depend on
  `jQize` and on a cursor defined elsewhere. `selectChildren` (216-218)
  builds a `Selection`, which is not part of this model.
- `isEmptyParens`, `isEmptySquareBrackets` and `isParentSimpleSubscript`
  (242-311) are not modelled: they depend on `ctrlSeq`, `SupSub` and CSS
  classes. The empty hooks (314-319), `toString` (171) and the command
  registries (484) are not modelled either.
- The constructor's guard against running twice (154) is not modelled: a
  Dafny constructor runs once.
- `pray` failures are modelled as preconditions. A caller that would trip
  an assertion cannot call the member.
- Callbacks are pure function values. A callback cannot change the tree
  while a walk is running. A visit "stops the walk" exactly when the
  source's callback returns `false`. `postOrder`'s callback cannot stop
  the walk, so its effect is modelled as the visiting order.
- `bubble`, `postOrder`, `eachChild`, `adopt`, `disown` and `withDirAdopt`
  return `this` for chaining. The model returns the visiting order or
  nothing instead.
- `prayDirection` is replaced by the two-valued type `Dir`.
- Tree.Fragment.Adopt: requires, beyond the gap check, that the run is
  detached, that it is linked from `ends[L]` to `ends[R]`, and that
  `leftward` is absent or a listed child. The gap check alone also
  accepts stale gaps between disowned nodes. Adopting into such a gap
  gives a node a parent that does not list it (`Forest.StaleGapPassesCheck`),
  so the promise that the tree stays well formed holds only under these
  requirements. Tree.NodeStore.Adopt, Tree.NodeStore.WithDirAdopt,
  Tree.NodeStore.SpliceIn and Tree.Fragment.WithDirAdopt carry the same
  requirements.
- Tree.Fragment.Disown: requires the run to be a slice `i <= j` of its
  parent's current child list. The source's two gap checks accept that
  case. They also accept runs whose ends are stale, and fragments whose
  ends are reversed: disowning the fragment from `d` to `a` over the
  children `[a, b, c, d]` writes `c[R] = b` and `b[L] = c`, leaving `b`
  and `c` linked to each other in a cycle. The slice requirement rules
  both out.
  Tree.NodeStore.Disown likewise requires the node to be listed, which is
  what makes its gap checks pass.
- Tree.NodeStore.Bubble: requires a ghost bound showing that the parent
  chain ends. The source does not keep the parent chains acyclic, and a
  stale parent link of a disowned node may point anywhere.
- Tree.NodeStore.PostOrder: requires a ghost ranking of `n`'s subtree that
  decreases from parent to child, for the same reason. The ranking covers
  only the ranked nodes and their children, so cycles elsewhere in the
  store (a node adopted under itself passes the gap check) do not stop
  the walk of an acyclic subtree. A subtree that itself holds a cycle,
  which the source would walk forever, is not modelled.
- Writes are made to a store value that is then assigned back to the
  store, so two names for one node object cannot disagree. The order of
  writes within a splice is modelled only through the sequence of store
  updates in `SpliceWrites`.
- Tree.NodeStore.NewNode: states the new store through `Forest.Grown`,
  which says that node counter+1 was added with absent links and an empty
  child list.
