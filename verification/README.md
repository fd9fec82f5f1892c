# Verified models of PolarDB for PostgreSQL index and checking code

This project models code of PolarDB for PostgreSQL in Dafny and proves what that code is for:

- **amcheck on B-trees** (the modules whose names begin with `Btree`): the readonly check `bt_index_parent_check` as a
  class whose fields change while it walks pages and levels. On any index at all, with whatever half-dead, half-split
  or deleted pages and corrupt links, what it decides is given exactly by walks along links of unbounded length
  (`BtreeSteps`); when those walks end is proved (`BtreeLoops`, with indexes on which they do not in `BtreeEndless`); and
  a pass means that every page in use the walks met has its keys in order, lies below the next page in use, that above
  each of its pivots lies its child (`BtreeSweep`). Where links lead to blocks, the check passes exactly the *marked
  trees* (`BtreeMarked`, proved in `BtreeMarkedWalk`, `BtreeMarkedCheck` and `BtreeMarkedTree`): trees with unfinished
  splits and deletions, defined by the shape of levels and the keys they repeat, in which a half-split child may be
  followed by siblings without downlinks that repeat the key where the range of the next child begins, across parent
  pages too (`BtreeSplit` has such an index). An index that no interrupted operation has left marks on and that passed is
  a *sound tree* if and only if no page walked over has a zero downlink, and every sound tree passes, as long as leaf
  items carry heap TIDs. Sound trees are defined by the order of keys alone, without the tests the checker uses: every
  level is a doubly linked chain, the downlinks of a level read left to right are the chain below, keys ascend, and high
  keys repeat the separators.
  (*Clean* trees are the same thing in terms of the checker's comparisons, and `BtreeSound` connects the two.) Searches
  are then studied on clean trees: where a search stops, which leaf tuples it finds, and a clean tree with a tuple it
  does not find. The uniqueness check is carried from single pages to whole leaf levels.
- **The Bloom access method** (the modules whose names begin with `Bloom`): the generator and the signatures, build,
  insert, bulk delete, cleanup and scan as a class over blocks that stands for a sequence of rows; then the same
  operations as a state machine of buffer-lock sections, with theorems over every run of every schedule. A backend of that
  machine left to itself ends with exactly the index the sequential operation leaves (`BloomLone`, `BloomLoneInsert`).
- **Truncated GiST keys** of btree_gist for bytea (`GistVarKey`, `GistVarSplit`, `GistVarTree`): search under keys cut
  two bytes past a common prefix, in every tree whose keys come from unions and page splits: it never returns a wrong
  item, and exactly when it loses none is proved, of one split and of whole trees.
- **hstore** (`HstoreFormat`, `HstoreValues`, `HstoreAssign`, `HstoreGist`): reading old-format values by rewriting them in
  place, where the values either format accepts are exactly those written for some pairs, padded or not; subscript
  assignment as a merge into fresh buffers; and signature search.
- **cube** (`Cube`, `CubeOrder`, `CubeGist`, `CubeSplit`): boxes of mixed dimension counts, GiST search and
  nearest-neighbour bounds.
- **amcheck on heaps** (`HeapXid`, `HeapToast`): widening of 32-bit transaction ids and their status, and the chunks of
  toasted values.

`Wrappers`, `Machine` and `Sequences` hold what several of these share: an option type, machine integers, and the
lexicographic order.

Where the C code loops over state, the model is a method with loop invariants; where it computes, a function with lemmas.
Code inside conflict markers is modelled as the side after the `=======` line has it.

## Conventions

- Index attribute values are ranks: an attribute is an integer that stands for its place in the opclass order, with NULL
  placement and DESC included. A truncated attribute is simply absent, and a missing heap TID likewise, so keys are
  compared as sequences with a prefix below its extensions; `BtreeOrder` proves that the comparison code decides that
  order. `image` stands for the bytes of a tuple that are not its key.
- `Pass`, `Corrupt` and `Diverged` are the outcomes of the B-tree check. The original loops that follow links have no
  bound and may go on for ever, so the loops of the model count down `fuel` and answer `Diverged` at zero. With *ample*
  fuel, more than one above the number of blocks, each walk to a child, to the page in use to the right or down to a
  half-dead leaf answers `Diverged` exactly when it never ends (block numbers have 32 bits, so an index has fewer than
  2^32 blocks). The walk along a level can come round over half-dead pages more than once before it ends; it is followed
  to the end with the fuel of `BtreeSteps.SettlesSome`.
- *Plain* means without marks of interrupted operations: no half-dead page, no incomplete split, no root flag below the
  root, except on deleted pages. *Direct* means that no link of a page in use leads to a deleted page, no downlink is
  zero and no right link is the invalid block number.
- A Bloom generator draw of -1, which only the two seeds of `BadSeeds` lead to, sets no bit in the model.
- In `HstoreAssign` the entry words and the string area of the result are two arrays. The string area starts 8 bytes into
  `area`; those 8 bytes are the last entry's words, which are unused exactly when the area is moved down over them.
- Sort routines are arbitrary arrangements, so what is proved of splits holds for any cost. Coordinates are reals.

## False in general, and exactly when true

- The check ends: false, on a level with half-dead pages (`BtreeEndless.HalfDeadNeverEnds`) and also on an index without
  marks (`BtreeEndless.DeletedNeverEnds`). A walk to a child never ends if and only if every block the right links lead
  to is passed over, being out of use, flagged as a root, the right half of a split or the top of a deletion
  (`BtreeCheck.BtreeCheckState.ChildHighKeyCheck`); the walk to the page in use to the right if and only if every block is
  out of use (`BtreeCheck.BtreeCheckState.RightPageKey`); and the whole check if and only if its fate is to
  (`BtreeCheck.CheckEveryLevel`, `BtreeSteps.SettlesSome`). Then right links run in a circle, through a half-dead page or
  over pages passed over (`BtreeLoops.LongWalk`, `BtreeLoops.StraysRound`); on an index without marks, through deleted
  pages (`BtreeLoops.PlainLoops`, `BtreeLoops.DeletedRound`).
- An index passes the check if and only if it is a marked tree: false with a zero downlink (`BtreeGap.ZeroPasses`); true
  where right links and downlinks are block numbers and no internal page in use has a zero downlink
  (`BtreeMarkedTree.MarkedExact`).
- An index without marks that passes the check is in order: false (`BtreeGap.ZeroPasses`: below a zero downlink nothing
  is looked at); true if and only if no page walked over has a zero downlink (`BtreeCheck.CheckEveryLevel`,
  `BtreeVerified.CheckThenDescend`).
- A leaf level whose pages all pass the uniqueness check has no duplicates: false (`BtreeUniqueLevel.BoundaryEscape`);
  true if and only if no page with a visible entry of its last key is followed by another one beyond the first item of
  the next page (`BtreeUniqueLevel.LevelExact`).
- Every leaf tuple of a clean tree can be found from the root: false (`BtreeGap.CousinNotReached`); true of a tuple if
  and only if it is above the high keys of all leaves to its left (`BtreeReach.ReachedIff`), and always when its path
  takes negative infinity downlinks on leftmost pages only.
- Splits of truncated keys keep all items: false (`GistVarSplit.CutSplitLoses`); true of one split if and only if no
  entry escapes (`GistVarSplit.SplitExact`), and of all searches in a tree if and only if no item overshoots a key above
  it (`GistVarTree.SearchExact`).
- An old-format hstore is read with its meaning: false on the fast path (`HstoreFormat.FastPathExample`,
  `HstoreFormat.FastPathChanges`); true if and only if it is not a value of less than 32768 bytes that begins with a null
  whose stored length is at least 32768 (`HstoreValues.UpgradeWritten`).
- Contained-by never prunes a box: false (`CubeGist.ContainedByLoses`); true for all covering keys if and only if the
  query contains zero in each dimension beyond the box's (`CubeGist.ContainedByExact`). The comment at
  `contrib/cube/cube.c:1159` and the code agree that extra dimensions of the first argument are ignored.
- The box comparison is an order: false (`CubeOrder.OrderCycle`, for any two positive dimension counts); true of the
  boxes with given dimension counts if and only if at most one of the counts is positive (`CubeOrder.OrderExact`). Among
  points it is one whatever their counts (`CubeOrder.PointOrderTransitive`).
- Every value gives draws inside the signature: false (`BloomSign.BadHash`); true if and only if its seed is not one of
  two (`BloomSign.ValueDrawsInside`, `BloomRand.BadSeeds`), each of which comes from exactly one hash value per column
  (`BloomSign.SeedReached`). The comment at `contrib/bloom/blutils.c:222` promises more than the code does.

## Model

| member | source | states |
|---|---|---|
| Sequences.LexTotal | contrib/amcheck/verify_nbtree.c:3406-3572 | the key order is total and antisymmetric |
| Sequences.LexTransitive | contrib/amcheck/verify_nbtree.c:3406-3572 | the key order is transitive |
| BtreeOrder.LexByAtts | src/backend/access/nbtree/nbtsearch.c:685-857 | comparing attribute by attribute, then by what follows, is lexicographic comparison even when one side is truncated |
| BtreeOrder.CompareAttsFlip | src/backend/access/nbtree/nbtsearch.c:685-857 | attribute comparison is antisymmetric and separates keys of equal length |
| BtreeOrder.PivotSearchDecides | src/backend/access/nbtree/nbtsearch.c:685-857 | a pivot search key compares with any tuple exactly as the keys are ordered, truncated attributes and heap TID counting as minus infinity |
| BtreeOrder.InvariantLDecides | contrib/amcheck/verify_nbtree.c:3406-3572 | the strict invariant test holds of real items only when the keys are strictly ordered, and conversely for the tuple kinds a page may hold |
| BtreeOrder.GoesRightDecides | src/backend/access/nbtree/nbtsearch.c:238-318 | a search moves right over a separator exactly when the separator is below the search key, with nextkey and backward scans accounted for |
| BtreeOrder.GoesRightDownward | src/backend/access/nbtree/nbtsearch.c:238-318 | a search that passes a key passes every smaller key |
| BtreeShape.ChainDistinct | contrib/amcheck/verify_nbtree.c:884-1069 | a level whose left links agree with its order meets no block twice |
| BtreeShape.ChainUnique | contrib/amcheck/verify_nbtree.c:884-1069 | two right-link chains from one block are the same chain |
| BtreeShape.DownlinkAt | contrib/amcheck/verify_nbtree.c:1593-1608 | position of a page's downlinks in the downlinks of its level |
| BtreeShape.DownlinkSource | contrib/amcheck/verify_nbtree.c:1593-1608 | each place in the downlinks of a level comes from one item of one page |
| BtreeShape.PageAscends | contrib/amcheck/verify_nbtree.c:1811-1888 | neighbour-by-neighbour order on a page orders all its real items |
| BtreeShape.HighKeyBounds | contrib/amcheck/verify_nbtree.c:1811-1848 | the high key bounds every real item of a page |
| BtreeSearch.MoveRight | src/backend/access/nbtree/nbtsearch.c:238-318 | on a clean level ends on the first page, from the start on, whose high key the search does not pass |
| BtreeSearch.BinarySearch | src/backend/access/nbtree/nbtsearch.c:340-446 | finds the one split point of a page between items the search passes and items it does not |
| BtreeSearch.PageMonotone | src/backend/access/nbtree/nbtsearch.c:340-446 | on a page in order, the items a search passes are a prefix |
| BtreeSearch.Search | src/backend/access/nbtree/nbtsearch.c:99-204 | defined on every index; on a clean tree of any height it stops at the one leaf that all leaves to its left are passed for and that is not passed itself |
| BtreeSearch.DescentStops | src/backend/access/nbtree/nbtsearch.c:99-204 | taking the chosen downlink keeps "everything to the left is passed" one level down |
| BtreeSearch.StopsOnce | src/backend/access/nbtree/nbtsearch.c:99-204 | a search has at most one stopping leaf |
| BtreeSearch.RootDescend | contrib/amcheck/verify_nbtree.c:3306-3357 | on a clean tree answers true exactly when the leaf where the search for the tuple stops holds the tuple's key |
| BtreeSearch.LeafHoldsIff | contrib/amcheck/verify_nbtree.c:3306-3357 | equality at the split point decides whether the leaf holds the key anywhere |
| BtreeReach.ReachedIff | contrib/amcheck/verify_nbtree.c:3306-3357 | in a clean tree a search for a leaf tuple stops at its leaf if and only if the tuple is above all high keys to the left |
| BtreeReach.AnchoredAbove | contrib/amcheck/verify_nbtree.c:2639-2789 | on every level, items of a page whose path takes negative infinity downlinks only on leftmost pages are above all high keys to their left |
| BtreeReach.AnchoredReached | contrib/amcheck/verify_nbtree.c:3306-3357 | so a root descent finds every such leaf tuple, at any height |
| BtreeReach.TwoLevelsReached | contrib/amcheck/verify_nbtree.c:3306-3357 | with one root page above the leaves every leaf tuple is found |
| BtreeGap.CousinTower | contrib/amcheck/verify_nbtree.c:2639-2789 | a concrete three-level index is a clean tree |
| BtreeGap.CousinNotReached | contrib/amcheck/verify_nbtree.c:2639-2789 | and a search for one of its leaf tuples stops at another leaf |
| BtreeGap.CousinMissed | contrib/amcheck/verify_nbtree.c:1610-1637 | it has no marks, the check passes it, and bt_rootdescend answers that the tuple is not there |
| BtreeGap.ZeroPasses | contrib/amcheck/verify_nbtree.c:2392-2470 | a concrete index without marks, with a zero downlink on its root and an unsorted leaf, passes the check |
| BtreeLeftmost.PathDistinct | contrib/amcheck/verify_nbtree.c:1243-1295 | the walk over half-dead pages never meets a block twice |
| BtreeLeftmost.PathFits | contrib/amcheck/verify_nbtree.c:1243-1295 | so the walk is no longer than the file, on every page graph |
| BtreeLeftmost.LeftmostIgnoringHalfDead | contrib/amcheck/verify_nbtree.c:1243-1295 | ends on every page graph; true exactly when a mutually linked half-dead chain leads to the left end, an error exactly when it leads to an unreadable block |
| BtreeLeftmost.LeftmostPlain | contrib/amcheck/verify_nbtree.c:1243-1295 | without half-dead pages only a page with no left link is leftmost |
| BtreeCheck.BtreeCheckState.constructor | contrib/amcheck/verify_nbtree.c:560-640 | initial state of a check |
| BtreeCheck.BtreeCheckState.DownlinkMissingCheck | contrib/amcheck/verify_nbtree.c:2804-2970 | on any index passes exactly for roots, right halves of unfinished splits, and internal pages from which first downlinks lead down to a half-dead leaf whose top parent link is the page, and always ends |
| BtreeSteps.DescentFits | contrib/amcheck/verify_nbtree.c:2804-2970 | the way down by first downlinks meets no block twice, although level numbers wrap around |
| BtreeCheck.BtreeCheckState.ChildPageCheck | contrib/amcheck/verify_nbtree.c:2392-2624 | on any index, for every page of the walk: passes exactly when the block is on its level, leftmost if it is the first of all, no sign of a circle, the child looked for or a page that needs no downlink, and its high key repeats the separator that ends its range unless it is rightmost or half split |
| BtreeCheck.BtreeCheckState.ChildHighKeyCheck | contrib/amcheck/verify_nbtree.c:2392-2624 | on any index passes exactly when the right links lead from the last child to the wanted one, or to the end of the level, over blocks that are all passed over, and leaves the state for the next child; goes on for ever exactly when every block they lead to is passed over; on a plain index before a page in use, passes exactly when the wanted child is next and its level and high key are right |
| BtreeSteps.SteadyChild | contrib/amcheck/verify_nbtree.c:2392-2624 | on a plain index the walk is decided by the first block: the child is reached exactly if it comes next |
| BtreeSteps.PassedForever | contrib/amcheck/verify_nbtree.c:2392-2624 | a walk that has passed over more blocks than there are never ends |
| BtreeCheck.BtreeCheckState.ChildCheck | contrib/amcheck/verify_nbtree.c:2639-2789 | on any index passes exactly when the child is readable and reached, not deleted, and its real items are all above the separator |
| BtreeCheck.BtreeCheckState.RightPageKey | contrib/amcheck/verify_nbtree.c:2112-2313 | on any index the first real item of the first page in use to the right, an error exactly when the links to it lead nowhere, and no end exactly when they lead over pages out of use for ever |
| BtreeSound.ItemTest | contrib/amcheck/verify_nbtree.c:1811-1888 | the checks of one item mean that its key is below the next key and within the high key, inclusively on leaves only, and conversely where leaf items have heap TIDs |
| BtreeSound.PageTest | contrib/amcheck/verify_nbtree.c:1811-1888 | the checks of all items of a page mean that its real items ascend strictly as keys and the high key bounds them, and conversely |
| BtreeSound.CrossTest | contrib/amcheck/verify_nbtree.c:1959-2000 | the cross-page check means that the last key of a page is below the first key of the next |
| BtreeSound.ChildTest | contrib/amcheck/verify_nbtree.c:2639-2789 | the child checks mean that the child is one level down, its high key repeats the separator and its keys are above the pivot |
| BtreeSound.CleanMeansSound | contrib/amcheck/verify_nbtree.c:560-767 | clean trees are sound trees, and sound trees whose leaf items have heap TIDs are clean |
| BtreeCheck.BtreeCheckState.LastItemCheck | contrib/amcheck/verify_nbtree.c:1959-2000 | on any index passes exactly when the last item is below the first real item of the first page in use to the right |
| BtreeCheck.BtreeCheckState.TargetPageCheck | contrib/amcheck/verify_nbtree.c:1472-2092 | on any index passes, refuses or goes on for ever exactly as its items do one after the other, and a pass means that the page is in order, below the next page in use, and its children above their pivots; on a plain index it passes exactly when, besides, its downlinks carry on the run of children of the pages to the left |
| BtreeCheck.BtreeCheckState.LevelPageCheck | contrib/amcheck/verify_nbtree.c:884-1069 | on any index passes exactly when level, left link, leftmost place and root flag are right where the walk meets the page, and what TargetPageCheck asks holds; the next level starts at the first downlink of the first page in use |
| BtreeCheck.BtreeCheckState.CheckLevel | contrib/amcheck/verify_nbtree.c:857-1082 | on any index, however it comes out, where no page met is half-dead no block was met twice; it passes or refuses exactly as the walk along the level does, and does not end only if right links run in a circle; a passing level was walked to its end, half-dead pages apart over pages of the level that are in order and linked both ways; on a plain index without zero downlinks on it, it is a clean chain whose downlinks are the complete right-link run of the level below, and a level of a clean tree passes |
| BtreeSweep.TwiceHalfDead | contrib/amcheck/verify_nbtree.c:884-1069 | between two visits of a level walk to one block it met a half-dead page, on any index |
| BtreeSweep.StandsDistinct | contrib/amcheck/verify_nbtree.c:884-1069 | so without half-dead pages the walk meets no block twice and is no longer than the file |
| BtreeCheck.CheckEveryLevel | contrib/amcheck/verify_nbtree.c:560-767 | on any index passes or refuses exactly as its walks do, has not ended with ample fuel only where right links run in a circle over half-dead pages or pages passed over, and with settling fuel only where it never ends; a pass means that every level from the root down was walked to its end over pages in order; a plain index that passes is a clean tree if and only if no page walked over has a zero downlink, a clean one passes, one with a zero downlink at the head of its root passes unseen, and only circles through deleted pages keep the check from ending |
| BtreeSteps.SettlesSome | contrib/amcheck/verify_nbtree.c:560-767 | every check that is not doomed to go on for ever ends, with all fuel from some amount on |
| BtreeLoops.LevelKnown | contrib/amcheck/verify_nbtree.c:857-1082 | a level on which the check has no end within a page has a page, not deleted or the child of a page in use, from which right links never leave pages passed over |
| BtreeLoops.LongWalk | contrib/amcheck/verify_nbtree.c:884-1069 | a level walk longer than the file has come round through a half-dead page |
| BtreeLoops.StraysRound | contrib/amcheck/verify_nbtree.c:2392-2624 | right links that never leave pages passed over run into a circle |
| BtreeLoops.PlainLoops | contrib/amcheck/verify_nbtree.c:560-767 | on a plain index, such links lead through deleted pages at least every other step, and only after a deleted page in the middle of a split through another |
| BtreeLoops.DeletedRound | contrib/amcheck/verify_nbtree.c:560-767 | they run into a circle of deleted pages, where no deleted page was left in the middle of a split |
| BtreeLoops.DirectEnds | contrib/amcheck/verify_nbtree.c:560-767 | on a plain and direct index there are none, so the check ends |
| BtreeEndless.HalfDeadNeverEnds | contrib/amcheck/verify_nbtree.c:884-1069 | an index with two half-dead pages that link to each other, on which the check has not ended with any fuel |
| BtreeEndless.DeletedNeverEnds | contrib/amcheck/verify_nbtree.c:2392-2624 | an index without marks whose first leaf links to deleted pages in a circle, likewise |
| BtreeMarkedWalk.WalkForward | contrib/amcheck/verify_nbtree.c:2392-2624 | on any index, a walk to a child that arrives went along the level below from the last child to the wanted one, or to its end, over pages that are out of use, flagged roots, right halves of splits or tops of deletions and that repeat the key where the child's range begins |
| BtreeMarkedWalk.WalkBack | contrib/amcheck/verify_nbtree.c:2392-2624 | and where the level below is such, the walk arrives |
| BtreeMarkedCheck.LevelForward | contrib/amcheck/verify_nbtree.c:857-1082 | a level walked to its end has its children standing in order along the level below, each where its item says, with every page between accounted for |
| BtreeMarkedCheck.LevelBack | contrib/amcheck/verify_nbtree.c:857-1082 | and a level with its children so is walked to its end |
| BtreeMarkedTree.PassesTower | contrib/amcheck/verify_nbtree.c:560-767 | every index that passes is a marked tree, from the root down to the leaves |
| BtreeMarkedTree.TowerPasses | contrib/amcheck/verify_nbtree.c:560-767 | every marked tree passes, and with ample fuel its check ends |
| BtreeMarkedTree.MarkedExact | contrib/amcheck/verify_nbtree.c:560-767 | the check is bound to pass an index, with whatever half-dead pages, unfinished splits and deletions, if and only if it is a marked tree, a shape defined by levels and keys alone |
| BtreeSplit.CheckMarked | contrib/amcheck/verify_nbtree.c:560-767 | the check passes marked trees and nothing else |
| BtreeSplit.SplitMarked | contrib/amcheck/verify_nbtree.c:2530-2593 | an index whose unfinished split ends at the boundary of two parent pages is a marked tree |
| BtreeSplit.SplitPasses | contrib/amcheck/verify_nbtree.c:2530-2593 | the check passes it exactly if the right half repeats the high key of the parent to the left |
| BtreeCheck.HeadlessNotClean | contrib/amcheck/verify_nbtree.c:2392-2470 | an index whose root begins with a zero downlink is no clean tree |
| BtreeSweep.SweptStands | contrib/amcheck/verify_nbtree.c:857-1082 | so every page met on every level is half-dead, or on its level, in order and linked back |
| BtreeVerified.TowerUnique | contrib/amcheck/verify_nbtree.c:560-767 | an index is a clean tree in one way only |
| BtreeVerified.SweptInOrder | contrib/amcheck/verify_nbtree.c:560-767 | on any index that passed, the keys of each page in use that the walks met ascend, are within its high key, below those of the next page in use, and pivots are below their children's keys |
| BtreeVerified.CheckThenDescend | contrib/amcheck/verify_nbtree.c:1610-1637 | a plain index that passed is a sound tree if and only if no page walked over has a zero downlink, every sound tree passes, where leaf items have heap TIDs; and once passed, bt_rootdescend finds every leaf tuple whose path takes negative infinity downlinks on leftmost pages only |
| BtreeDescent.DescendedTower | contrib/amcheck/verify_nbtree.c:560-767 | levels checked from the root down to the leaves make up a clean tree |
| BtreeWalk.WalkIsChain | contrib/amcheck/verify_nbtree.c:884-1069 | the blocks a level walk visited form a doubly linked chain |
| BtreeDescent.GoalRun | contrib/amcheck/verify_nbtree.c:2392-2624 | in a clean tree the walk along the level below meets each page's children in order |
| BtreeUnique.EntryUniqueCheck | contrib/amcheck/verify_nbtree.c:1144-1235 | reports exactly when a second visible entry of the current key turns up, also within a posting list; otherwise remembers a visible entry and its place exactly when there is one |
| BtreeUnique.PageUniqueCheck | contrib/amcheck/verify_nbtree.c:1896-2063 | passes exactly when no two visible entries of the page and of the first item of the next page share a key without nulls, although the first entry of a key is looked up only when the key repeats |
| BtreeUnique.Grouped | contrib/amcheck/verify_nbtree.c:1896-1940 | on a sorted page equal keys are neighbours |
| BtreeUnique.DuplicateStep | contrib/amcheck/verify_nbtree.c:1896-1940 | a duplicate among n + 1 items is one among n or one the last item completes |
| BtreeUniqueLevel.LevelExact | contrib/amcheck/verify_nbtree.c:1896-2063 | when all pages of a leaf level pass, the level has no duplicate if and only if no page with a visible entry of its last key is followed by another one beyond the first item of the next page |
| BtreeUniqueLevel.LevelUniqueCheck | contrib/amcheck/verify_nbtree.c:1896-2063 | checking page after page reports only real duplicates and misses only those |
| BtreeUniqueLevel.BoundaryEscape | contrib/amcheck/verify_nbtree.c:1896-2063 | two pages that pass and share a visible key |
| BloomRand.Generator.constructor | contrib/bloom/blutils.c:218-222 | the static generator state starts at 0 |
| BloomRand.Generator.MyRand | contrib/bloom/blutils.c:224-249 | the successor of the state, 16807 times it modulo 2^31 - 1 for all states in range, with every intermediate value an int32 |
| BloomRand.StepUndone | contrib/bloom/blutils.c:224-249 | a generator step can be undone |
| BloomRand.StepReached | contrib/bloom/blutils.c:224-249 | and reaches every state: it permutes 1..2^31 - 2 |
| BloomRand.StepInRange | contrib/bloom/blutils.c:224-249 | steps from negative states are in range too, and only 0 leads to 0 |
| BloomRand.BadSeeds | contrib/bloom/blutils.c:251-257 | seeding lands on 0 exactly for 0xFFFFFFFF and 0x80000001 |
| BloomSign.SignValue | contrib/bloom/blutils.c:262-290 | adds to the signature exactly the bits of the column and hash, whatever state the generator was in |
| BloomSign.ValueDrawsAre | contrib/bloom/blutils.c:262-290 | a value has as many draws as its column has bits; the j-th is the state seeded from the hash and 16807 (col + 1) - 1, times the power j + 1 of 16807, modulo 2^31 - 1, less one, modulo the signature length |
| BloomSign.ValueBitsAre | contrib/bloom/blutils.c:262-290 | the bits of a value are its draws that fall inside the signature |
| BloomSign.ValueDrawsInside | contrib/bloom/blutils.c:262-290 | all draws for a value lie in the signature if and only if its seed is not a bad one |
| BloomSign.SeedReached | contrib/bloom/blutils.c:262-290 | in every column each seed, the bad ones too, comes from exactly one hash value |
| BloomSign.BadHash | contrib/bloom/blutils.c:262-290 | a hash value of the first column that sets no bit at all |
| BloomSign.WordsInclude | contrib/bloom/blscan.c:142-151 | the word-by-word test is inclusion of bit sets |
| BloomPages.FormTuple | contrib/bloom/blutils.c:295-314 | the tuple has the row's heap pointer, and its signature a bit exactly if some non-null column of the row draws it |
| BloomPages.ColumnBitsUnion | contrib/bloom/blutils.c:295-314 | the bits of a row are the bits of its non-null columns together |
| BloomPages.KeyBitsUnion | contrib/bloom/blscan.c:87-113 | the bits of a search are the bits of its keys together |
| BloomPages.RowCoversKeys | contrib/bloom/blscan.c:87-113 | a row equal to all scan keys has every bit of the search signature |
| BloomPages.AddItem | contrib/bloom/blutils.c:320-348 | refuses exactly when one more tuple of 6 + 2 length bytes would not fit in the 8160 bytes of a page; otherwise the page gains it at the end |
| BloomPages.EmptyHasRoom | contrib/bloom/blinsert.c:346-360 | adding to an empty page cannot fail |
| BloomPages.Compact | contrib/bloom/blvacuum.c:85-107 | the two-pointer loop leaves exactly the kept tuples, in order, at the front of the page buffer |
| BloomPages.KeptCount | contrib/bloom/blvacuum.c:85-107 | every tuple that is not dead is kept as often as it occurs, every dead one dropped |
| BloomIndex.StoreTuple | contrib/bloom/blinsert.c:242-334 | storing a tuple on a block, initialised again or not, adds it to the index and loses nothing |
| BloomIndex.DeleteHolds | contrib/bloom/blvacuum.c:57-137 | deleting tuples from all blocks is deleting their rows |
| BloomIndex.BloomIndex.constructor | contrib/bloom/bloom.h:108-135 | an index without blocks |
| BloomIndex.ReusableAfter | contrib/bloom/blvacuum.c:119-130 | deletion makes a page reusable exactly if it held tuples and all of them are dead |
| BloomIndex.WithRoomExact | contrib/bloom/blvacuum.c:109-117 | the list of blocks with room has exactly the blocks that hold a tuple and can take another |
| BloomIndex.WithRoomAscends | contrib/bloom/blvacuum.c:109-117 | in block order |
| BloomIndex.BloomIndex.NewBuffer | contrib/bloom/blutils.c:355-396 | a block where nothing lives, taken out of the free space map with only blocks that could not be taken dropped, or the file grown by one page once the map is used up |
| BloomIndex.BloomIndex.TryPage | contrib/bloom/blinsert.c:242-277 | stores the tuple exactly when the page, initialised again if reusable, has room, changes that block only, and indexes exactly its row |
| BloomIndex.BloomIndex.Insert | contrib/bloom/blinsert.c:209-377 | adds exactly the row; the tuple goes to the first listed block from nStart on that has room, every block passed over is full, and otherwise to a reusable or new block that becomes the list; the rest of the list, the free space map and all other blocks stay |
| BloomIndex.BloomIndex.InsertNew | contrib/bloom/blinsert.c:346-376 | adds the row on a new page, which becomes the only listed one |
| BloomIndex.BloomIndex.Build | contrib/bloom/blinsert.c:77-165 | refuses an index with blocks; otherwise indexes exactly the heap's rows and counts them |
| BloomIndex.BloomIndex.FlushCachedPage | contrib/bloom/blinsert.c:46-58 | writes the cached rows to a block where nothing lives |
| BloomIndex.BloomIndex.DeleteFromPage | contrib/bloom/blvacuum.c:68-137 | the page keeps exactly the tuples that are not dead, in order, and is reusable afterwards exactly if it was before or held dead tuples only; counts what went |
| BloomIndex.BloomIndex.DeletePages | contrib/bloom/blvacuum.c:57-137 | vacuums every block, conserves the tuple count, lists exactly the first blocks with a tuple and room for another, and a block is reusable afterwards exactly if it was before or held dead tuples only |
| BloomIndex.BloomIndex.BulkDelete | contrib/bloom/blvacuum.c:33-161 | the surviving rows remain, tuples removed plus tuples left are the tuples before, a block is reusable afterwards exactly if it was before or held dead tuples only, and the list is that of DeletePages, with what lies beyond it unchanged |
| BloomIndex.BloomIndex.CleanPages | contrib/bloom/blvacuum.c:186-210 | the block loop gives exactly the reusable blocks to the free space map, counts them, and counts the tuples of all others |
| BloomIndex.BloomIndex.VacuumCleanup | contrib/bloom/blvacuum.c:168-217 | reports the number of rows and of reusable blocks and gives exactly those blocks to the free space map |
| BloomIndex.BloomIndex.Vacuum | contrib/bloom/blvacuum.c:33-217 | after bulk delete and cleanup the free space map has gained exactly the blocks that were reusable or held dead tuples only, and these are counted |
| BloomScan.SearchSign | contrib/bloom/blscan.c:87-113 | no signature exactly when a key is null; otherwise it has a bit exactly if some key draws it |
| BloomScan.Covers | contrib/bloom/blscan.c:142-151 | the word loop decides inclusion of bits |
| BloomScan.ScanPages | contrib/bloom/blscan.c:119-164 | the bitmap and count are those of the tuples that include the signature, over all blocks |
| BloomScan.FoundCandidates | contrib/bloom/blscan.c:119-164 | those tuples are the rows whose bits include the keys' bits |
| BloomScan.GetBitmap | contrib/bloom/blscan.c:77-168 | a null key finds nothing; otherwise the bitmap is exactly the candidate rows, with every row equal to all keys among them |
| BloomProtocol.AtRestOk | contrib/bloom/bloom.h:108-135 | a valid index with no backend at work satisfies the invariant, so every index the sequential operations leave is a state to start from |
| BloomProtocol.NewBufferStepOk | contrib/bloom/blutils.c:355-396 | offering, locking or skipping a free block, or extending the file, keeps the invariant |
| BloomProtocol.WriteNewOk | contrib/bloom/blinsert.c:346-376 | writing the new page and the list keeps the invariant; what is written is fixed by BloomLoneInsert.LoneInsertEnds |
| BloomProtocol.DeleteStepOk | contrib/bloom/blvacuum.c:57-158 | a section of bulk delete keeps the invariant, free-list rewrite included |
| BloomProtocol.StepOk | contrib/bloom/blinsert.c:242-376 | every step of every backend keeps: nStart <= nEnd <= 2004, listed and free blocks lie in the file, tuples fit their page, deleted pages are empty, locks are held by those who use them |
| BloomRuns.StepEffect | contrib/bloom/blinsert.c:242-376 | a step changes tuples only by one successful insertion, by dropping dead tuples of one block, or not at all |
| BloomRuns.EffectKeeps | contrib/bloom/blinsert.c:255-277 | no reuse of a new or deleted page loses a live tuple |
| BloomRuns.EffectCounts | contrib/bloom/blvacuum.c:85-137 | a step changes the number of copies of a tuple by exactly what it adds and drops |
| BloomRuns.Conservation | contrib/bloom/blinsert.c:242-376 | over every run: copies on pages plus copies dropped equal copies at the start plus insertions that succeeded |
| BloomRuns.TracksStep | contrib/bloom/blscan.c:119-164 | no step of any backend makes a scan lose a tuple, except deleting it unread |
| BloomRuns.ScanFinds | contrib/bloom/blscan.c:119-164 | in every run a scan that ends has found each matching tuple that was on a page when it began, unless a bulk delete dropped it before its page was read |
| BloomRuns.ScanSound | contrib/bloom/blscan.c:119-164 | every pointer a scan reports belonged to a matching tuple on some page during the scan |
| BloomRuns.HolderMoves | contrib/bloom/blinsert.c:283-376 | the backend that holds the metapage never waits |
| BloomRuns.NeverStuck | contrib/bloom/blinsert.c:283-376 | no reachable state is a deadlock |
| BloomListed.ListKept | contrib/bloom/blinsert.c:283-376 | while an insertion holds the metapage no other backend changes the list |
| BloomListed.NoneSkipped | contrib/bloom/blinsert.c:217-334 | over every run: each listed block an insertion has passed over, the first one too, it has itself found full |
| BloomListed.NewOnlyWhenFull | contrib/bloom/blinsert.c:336-346 | over every run: it looks for a new block only when it has found every listed block full |
| BloomLone.LoneDelete | contrib/bloom/blvacuum.c:33-161 | a lone bulk deletion is, after every number of steps, at the block that number says, with the blocks before it vacuumed and listed, and ends with the list written |
| BloomLone.BulkDeleteAlone | contrib/bloom/blvacuum.c:33-161 | a lone backend ends with exactly the pages, list and free space map that sequential bulk deletion leaves |
| BloomLone.LoneClean | contrib/bloom/blvacuum.c:168-217 | a lone cleanup gives the reusable blocks to the free space map one by one |
| BloomLone.VacuumCleanupAlone | contrib/bloom/blvacuum.c:168-217 | and ends with exactly what the sequential cleanup leaves |
| BloomLone.LoneScan | contrib/bloom/blscan.c:119-164 | a lone scan collects the matching tuples block by block |
| BloomLone.GetBitmapAlone | contrib/bloom/blscan.c:77-168 | and ends with exactly the bitmap of the sequential scan |
| BloomLoneInsert.LoneInsert | contrib/bloom/blinsert.c:209-377 | a lone insertion, whatever blocks the free space map offers, is always at one of the places of blinsert with the state that belongs there, and each step brings it nearer to an end |
| BloomLoneInsert.LoneInsertEnds | contrib/bloom/blinsert.c:209-377 | it ends in as many steps as there are listed and free blocks and five more, without trying a block twice: the tuple on the first listed block with room, which the list then begins with, or with all listed blocks full on a free or new block that is the whole list |
| BloomLoneInsert.ReachEnding | contrib/bloom/blinsert.c:209-377 | and each of these endings is reached by some lone run |
| BloomLoneInsert.InsertAlone | contrib/bloom/blinsert.c:209-377 | so some run of a lone backend ends with exactly the pages, nStart, nEnd, list and free space map that sequential insertion leaves |
| GistVarKey.NodeCpLen | contrib/btree_gist/btree_utils_var.c:120-162 | the length of the longest common prefix, for single-byte characters |
| GistVarKey.CpMeans | contrib/btree_gist/btree_utils_var.c:120-162 | that length is a common prefix and the next bytes differ |
| GistVarKey.Union | contrib/btree_gist/btree_utils_var.c:321-357 | the joined bounds, cut two bytes past their common prefix |
| GistVarKey.UnionTight | contrib/btree_gist/btree_utils_var.c:321-357 | its bounds are the outermost of the entries, cut at one place |
| GistVarKey.WiderCovers | contrib/btree_gist/btree_utils_var.c:232-277 | widening bounds keeps every item covered, as far as the uncut bounds agree |
| GistVarKey.TruncateCovers | contrib/btree_gist/btree_utils_var.c:203-228 | cutting keeps the invariant: items are at least the lower bound and at most the upper bound or an extension of a cut one |
| GistVarKey.UnionCovers | contrib/btree_gist/btree_utils_var.c:321-357 | the union covers every item an entry covers |
| GistVarKey.FollowedExactly | contrib/btree_gist/btree_utils_var.c:553-612 | an inner key is followed if and only if some item it may cover would match or, except for not-equal, the query extends one of its bounds |
| GistVarKey.NeverPrunes | contrib/btree_gist/btree_utils_var.c:553-612 | a key is consistent with every query an item it covers satisfies, for all six strategies |
| GistVarSplit.PickSplit | contrib/btree_gist/btree_utils_var.c:457-547 | the halves make up the sorted offsets, half of them left; each key is its half joined and cut at the longer prefix |
| GistVarSplit.SplitExact | contrib/btree_gist/btree_utils_var.c:528-544 | every item a half can stand for is found under its key, for all six strategies, if and only if no entry escapes |
| GistVarSplit.EscapesLost | contrib/btree_gist/btree_utils_var.c:528-544 | an item that an escaping entry covers and the half's key prunes |
| GistVarSplit.LeafSplitSafe | contrib/btree_gist/btree_utils_var.c:528-544 | leaf entries never escape |
| GistVarSplit.CutSplitLoses | contrib/btree_gist/btree_utils_var.c:457-547 | a split of a union of "0" and "abz" with three other entries: the key of its half prunes "abz" |
| GistVarSplit.HalfCoversExact | contrib/btree_gist/btree_utils_var.c:528-544 | the key of a half covers whatever its entries cover if and only if none outgrows it |
| GistVarSplit.LeafStays | contrib/btree_gist/btree_utils_var.c:528-544 | leaf entries outgrow nothing |
| GistVarTree.TreeNearly | contrib/btree_gist/btree_utils_var.c:203-228 | in every tree of unions and splits, each key is at most every item below, and at least as great or in agreement two bytes past its common prefix |
| GistVarTree.NearlyFound | contrib/btree_gist/btree_utils_var.c:553-612 | such a key is consistent with every query an item below satisfies, for all six strategies, if and only if the item does not overshoot it |
| GistVarTree.SearchExact | contrib/btree_gist/btree_utils_var.c:553-612 | all searches in a tree of unions and splits return just the items their operator accepts, as often and in the same order, if and only if no item overshoots a key above it |
| GistVarTree.SearchAtMost | contrib/btree_gist/btree_utils_var.c:553-612 | no search returns an item its operator does not accept, nor one too often |
| GistVarTree.LooseSearch | contrib/btree_gist/btree_utils_var.c:553-612 | in any other tree the search for some item does not return it |
| GistVarTree.CutTreeLoses | contrib/btree_gist/btree_utils_var.c:528-544 | a tree made by a union and a split whose search for the item "abz" returns nothing |
| GistVarTree.SnugTight | contrib/btree_gist/btree_utils_var.c:528-544 | no item overshoots where each key is a union or a half that no entry outgrows |
| GistVarTree.LeafSplitsExact | contrib/btree_gist/btree_utils_var.c:528-544 | so search is exact where only leaf pages were split and other keys are unions |
| HstoreFormat.ValidOldFormat | contrib/hstore/hstore_compat.c:170-229 | accepts exactly the contiguous entries with key lengths in order that fit, and tells exact fits from slack, despite int wrap-around |
| HstoreValues.WrittenOk | contrib/hstore/hstore_compat.c:170-229 | every value the old implementation wrote for pairs with key lengths in order and lengths below 65536 is accepted, with any padding, and read as those pairs |
| HstoreValues.OkWritten | contrib/hstore/hstore_compat.c:170-229 | and every accepted value whose strings are there is one that was written for the pairs it is read as |
| HstoreValues.ValidateWritten | contrib/hstore/hstore_compat.c:170-229 | the answer is 2 for the exact length or no pairs, and 1 for any padding |
| HstoreValues.UpgradeWritten | contrib/hstore/hstore_compat.c:235-347 | upgrading a written value leaves exactly its pairs, with the exact length, if and only if it is not a short value that begins with a null of stored length 32768 or more |
| HstoreFormat.OldPositionsLoop | contrib/hstore/hstore_compat.c:206-218 | entries are contiguous, and the running int position is the true sum modulo 2^32 |
| HstoreFormat.ValidNewFormat | contrib/hstore/hstore_compat.c:118-162 | accepts exactly the entries that can be read as new format |
| HstoreValues.NewWrittenOk | contrib/hstore/hstore_compat.c:118-162 | every value written for keys and values by turns, key lengths in order and no key after the first flagged null, is accepted exactly if its length has room for it, and read as those |
| HstoreValues.NewOkWritten | contrib/hstore/hstore_compat.c:118-162 | and every accepted value whose strings are there is one that was so written |
| HstoreFormat.RewriteEntries | contrib/hstore/hstore_compat.c:316-343 | each pair of words is replaced in place by its two end positions with flags |
| HstoreFormat.ConvertedDecodes | contrib/hstore/hstore_compat.c:316-343 | the rewritten words decode to the same keys, values and nulls |
| HstoreFormat.ConvertedValid | contrib/hstore/hstore_compat.c:316-343 | and pass the new-format test, with the same end of strings |
| HstoreFormat.HStore.Convert | contrib/hstore/hstore_compat.c:312-344 | an accepted old value becomes a valid new one with the same pairs and its exact length |
| HstoreFormat.HStore.Upgrade | contrib/hstore/hstore_compat.c:235-347 | which values are left, flagged, converted or refused, and that conversion preserves the decoded pairs |
| HstoreFormat.FastPathExact | contrib/hstore/hstore_compat.c:250-256 | an old value takes the fast path exactly when it is shorter than 32768 bytes and its first stored value length has the top bit set; then that value is null |
| HstoreFormat.FastPathChanges | contrib/hstore/hstore_compat.c:250-256 | and then its meaning changes |
| HstoreFormat.FastPathExample | contrib/hstore/hstore_compat.c:250-256 | such a value |
| HstoreAssign.MergedUpdates | contrib/hstore/hstore_subs.c:210-251 | merging a pair is updating the map at its key |
| HstoreAssign.MergedAscends | contrib/hstore/hstore_subs.c:210-251 | merging keeps keys strictly ascending by length, then bytes |
| HstoreAssign.Builder.constructor | contrib/hstore/hstore_subs.c:199-208 | empty result buffers |
| HstoreAssign.Builder.Append | contrib/hstore/hstore.h:99-126 | appending a pair's bytes and end positions appends exactly that pair |
| HstoreAssign.Builder.Finalize | contrib/hstore/hstore.h:128-140 | the result is well formed and has the pairs built, also when the string area has to move |
| HstoreAssign.MergeLoop | contrib/hstore/hstore_subs.c:210-251 | the pairs written are the merge |
| HstoreAssign.Assign | contrib/hstore/hstore_subs.c:186-254 | fails exactly when the allocation is too large; otherwise a well-formed value that decodes to the old map updated at the key |
| HstoreAssign.EntryAt | contrib/hstore/hstore.h:23-34 | offsets and lengths of a well-formed value lie end to end in its string area |
| HstoreAssign.WellFormedValid | contrib/hstore/hstore_compat.c:118-162 | a well-formed value passes the new-format test exactly if its length has room for it, padded or not |
| HstoreGist.CompressLeaf | contrib/hstore/hstore_gist.c:147-183 | the signature has the bits of all keys and non-null values and no others |
| HstoreGist.CompressInner | contrib/hstore/hstore_gist.c:184-206 | becomes all-true exactly when all bits are set, and keeps them |
| HstoreGist.UnionKey | contrib/hstore/hstore_gist.c:296-307 | adds exactly the other key's bits in place, or says it is all true |
| HstoreGist.Union | contrib/hstore/hstore_gist.c:309-334 | the least key that includes all entries |
| HstoreGist.Consistent | contrib/hstore/hstore_gist.c:508-611 | true exactly when all bits, or one for exists-any, that the query asks for are set |
| HstoreGist.FollowedExactly | contrib/hstore/hstore_gist.c:508-611 | a signature is followed if and only if some item it may cover would match |
| HstoreGist.NeverPrunes | contrib/hstore/hstore_gist.c:508-611 | a key covering an item is consistent with every query the item matches |
| HstoreGist.SearchExact | contrib/hstore/hstore_gist.c:508-611 | search with pruning and recheck returns exactly the matching items, on every tree |
| HstoreGist.HemDist | contrib/hstore/hstore_gist.c:252-294 | the number of bits in which two keys differ, all-true keys having all bits |
| HstoreGist.PickSeeds | contrib/hstore/hstore_gist.c:398-423 | two different entries, of those before the last a pair farthest apart |
| HstoreGist.Take | contrib/hstore/hstore_gist.c:466-480 | a side's key grows by exactly the entry's bits |
| HstoreGist.PickSplit | contrib/hstore/hstore_gist.c:365-505 | every offset goes to exactly one side, neither side is empty, and each key includes its side |
| Cube.Union | contrib/cube/cube.c:759-817 | in every dimension, missing ones zero, the bounds joined; the same datum twice is returned as it is |
| Cube.JoinsCovers | contrib/cube/cube.c:759-817 | such a box covers both and is the least that does |
| Cube.IsPoint | contrib/cube/cube.c:1541-1562 | all coordinates agree |
| Cube.ContainsV0 | contrib/cube/cube.c:1135-1171 | containment in common dimensions, with extra dimensions of the second box zero |
| Cube.OverlapV0 | contrib/cube/cube.c:1205-1241 | the boxes meet in every dimension, missing ones zero |
| CubeOrder.CmpV0 | contrib/cube/cube.c:947-1026 | lower bounds, then upper bounds of the common dimensions, then those of the extra ones against zero, then dimension counts |
| CubeOrder.OrderMeans | contrib/cube/cube.c:947-1026 | the comparison is zero exactly for equal dimension counts and bounds, and antisymmetric |
| CubeOrder.OrderTransitive | contrib/cube/cube.c:947-1026 | it is transitive among boxes of one dimension count and of none |
| CubeOrder.PointOrderTransitive | contrib/cube/cube.c:947-1026 | and among points of any dimension counts |
| CubeOrder.OrderCycle | contrib/cube/cube.c:947-1026 | but for any two positive dimension counts three boxes form a cycle |
| CubeOrder.OrderExact | contrib/cube/cube.c:947-1026 | over the boxes with given dimension counts it is transitive if and only if at most one of the counts is positive |
| Cube.GapIs | contrib/cube/cube.c:1514-1527 | the one-dimensional distance is the gap of the intervals |
| Cube.Taxicab | contrib/cube/cube.c:1313-1355 | the sum of the gaps over all dimensions of either box |
| Cube.EuclidSquared | contrib/cube/cube.c:1264-1297 | the sum of their squares |
| Cube.Chebyshev | contrib/cube/cube.c:1357-1407 | the largest gap |
| CubeGist.LeafConsistent | contrib/cube/cube.c:690-717 | the operator itself |
| CubeGist.InternalConsistent | contrib/cube/cube.c:719-744 | overlap and contained-by follow a key that overlaps the query, the others one that contains it |
| CubeGist.NeverPrunes | contrib/cube/cube.c:719-744 | a covering key is consistent whenever a box below matches: overlap, same and contains always, contained-by under its side condition |
| CubeGist.ContainedByExact | contrib/cube/cube.c:719-744 | for contained-by the side condition is necessary and sufficient over all covering keys |
| CubeGist.ContainedByLoses | contrib/cube/cube.c:1159-1168 | a box contained-by loses |
| CubeGist.FollowedExactly | contrib/cube/cube.c:719-744 | a key is followed if and only if some box it may cover would match, for contained-by within its side condition; for the same box, would contain the query, which among boxes of the key's dimensions comes to the same |
| CubeGist.TreeCovers | contrib/cube/cube.c:436-461 | a key covers every box below it |
| CubeGist.SearchExact | contrib/cube/cube.c:402-429 | search with pruning returns only matches, and all of them within the side condition |
| CubeGist.DistanceLowerBound | contrib/cube/cube.c:1409-1512 | a key's taxicab, squared Euclidean and Chebyshev distances are at most those of every box below |
| CubeGist.CoordLowerBound | contrib/cube/cube.c:1416-1485 | the coordinate distance of a leaf is the named bound of the operator, that of a key at most that of every box below |
| CubeSplit.UnionAll | contrib/cube/cube.c:436-461 | the least box that covers all entries |
| CubeSplit.Size | contrib/cube/cube.c:921-944 | the product of the extents, zero for points and boxes without dimensions |
| CubeSplit.Inter | contrib/cube/cube.c:833-907 | in every dimension, missing ones zero, exactly the part two boxes have in common, or the gap between them |
| CubeSplit.PickSeeds | contrib/cube/cube.c:557-590 | two different entries, of the pairs without the last one that wastes most volume |
| CubeSplit.PickSplit | contrib/cube/cube.c:522-667 | every offset goes to exactly one side, in order, neither side is empty, and each key covers its side |
| HeapXid.WidenMeans | contrib/amcheck/verify_heapam.c:1880-1917 | a widened normal id is normal, congruent to the id and within 2^31 of the next one unless clamped, which happens in epoch 0 only |
| HeapXid.WidenRoundTrip | contrib/amcheck/verify_heapam.c:1880-1917 | widening undoes truncation for every id within 2^31 of the next one |
| HeapXid.OrderAgrees | src/backend/access/transam/transam.c:314-328 | within a window shorter than 2^31, 64-bit order is 32-bit modular order |
| HeapXid.SpecialFirst | src/backend/access/transam/transam.c:314-328 | the special ids precede all normal ones, in the order of their numbers |
| HeapXid.HeapCheckContext.UpdateCachedXidRange | contrib/amcheck/verify_heapam.c:1922-1934 | the cached oldest id is the 64-bit id whose low half is shared, if it is less than 2^31 before the next |
| HeapXid.HeapCheckContext.GetXidBounds | contrib/amcheck/verify_heapam.c:2014-2053 | which ids are in the future, before the oldest, before the relation's horizon or within bounds, refreshing the cached range exactly when the id is outside it |
| HeapXid.HeapCheckContext.GetXidStatus | contrib/amcheck/verify_heapam.c:2014-2082 | a status exactly for ids within bounds; a normal id that is not cached is aborted exactly if it is not before the commit log's horizon and not current, in progress or committed, current or in progress only if not before the horizon, and committed otherwise; a cached one has the status looked up for it before |
| HeapXid.StaleCacheHarmless | contrib/amcheck/verify_heapam.c:1995-2049 | an id that is valid now is never blamed because of a stale cache less than 2^31 ids old |
| HeapToast.CheckToastTuple | contrib/amcheck/verify_heapam.c:1457-1541 | silent exactly on the expected chunk with the expected size |
| HeapToast.CheckToastedAttribute | contrib/amcheck/verify_heapam.c:1763-1814 | silent exactly on chunks 0 to last, each of its expected size, for every external size |
| HeapToast.SilentMeansComplete | contrib/amcheck/verify_heapam.c:1763-1814 | then the chunk sizes of a value of positive size add up to it and none is empty |
| HeapToast.CutPasses | contrib/amcheck/verify_heapam.c:1457-1541 | conversely full-size chunks and a nonempty rest that add up to the size pass |

## Left out

- The concurrent (not readonly) B-tree check, sibling rechecks and heapallindexed verification, which depend on code outside these files.
- B-tree versions before 4, INCLUDE columns, line pointers and tuple sizes, and posting lists in the tree modules (`BtreeUnique` has them).
- The fast root: searches start at the true root.
- BtreeMarkedTree.MarkedExact: says nothing where an internal page in use has a zero downlink or a right link is the invalid block number; the walk along the children starts afresh there.
- WAL, buffer pins, memory contexts and interrupts: a section that holds one page lock is one step, and an aborted generic WAL record is no change.
- The generic reloptions and validators of bloom; signature lengths and bit counts are parameters, and hash functions arbitrary.
- BloomProtocol.NewBufferStepOk: a block the free space map offers is taken out of it; that the map may lose entries is covered, that it may invent blocks outside the file is not.
- BloomRuns.ScanFinds: a scan that aborts is not required to find anything.
- GistVarTree.SearchExact: keys widened in place by an insertion are unions of the old key and the new entry and are represented by one more level of nesting.
- btree_gist types other than bytea, their leaf-to-node conversions, multi-byte characters, the byte layout of GBT_VARKEY and the penalty function.
- HstoreFormat.HStore.Upgrade: the value has memory for the entries its size word announces; reads past the end of a value are not modelled. The branch that resolves ambiguous values as new format belongs to another build and is not modelled.
- hstorePairs, hstoreFindKey, the text parser and hstore operators other than those the GiST class serves; assignment to a null hstore goes through hstorePairs.
- Cube parsing, construction and enlargement functions, floating-point rounding, NaN and infinities.
- HstoreGist.PickSplit: the sort by cost is any arrangement and the choice of side any function of the two distances and the sizes, since the sides are compared in floating point.
- HeapXid.HeapCheckContext.GetXidStatus: calls that do not ask for the status are GetXidBounds; that a transaction in progress may have ended since it was looked up is not detected by the code either.
- Multixact ranges, tuple header and visibility checks, and the HOT chain checks of verify_heapam.
- dblink, file_fdw, adminpack, basic_archive, auth_delay, auto_explain, fuzzystrmatch and the polar_* extensions.
