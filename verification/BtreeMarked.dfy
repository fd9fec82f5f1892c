/** What an index must look like for the check to pass it, whatever interrupted operations have left in it: levels of
    pages, where the children of a level stand in the level below, and which keys are repeated.  Nothing here refers to
    how the check goes about it. */
module BtreeMarked {
  import opened Wrappers
  import opened BtreePages
  import opened BtreeOrder
  import opened BtreeShape
  import opened BtreeLeftmost
  import opened BtreeWalk

  // ---------------------------------------------------------------- one level

  /** The blocks the right links lead to from the left end of a level to its right end. */
  ghost predicate LevelChain(idx: Index, start: nat, c: seq<nat>) {
    && c != [] && c[0] == start
    && (forall i | 0 <= i < |c| :: c[i] != P_NONE && ReadPage(idx, c[i]).Some?)
    && RightRun(idx, c) && idx.pages[c[|c| - 1]].next == P_NONE
  }

  ghost predicate Dead(idx: Index, c: seq<nat>, i: nat) {
    i < |c| && c[i] in idx.pages && idx.pages[c[i]].halfDead
  }

  /** The first page of the level that is in use. */
  ghost predicate FirstInUse(idx: Index, c: seq<nat>, i: nat) {
    i < |c| && !Dead(idx, c, i) && forall k: nat | k < i :: Dead(idx, c, k)
  }

  /** Page m is the first after page i that is in use. */
  ghost predicate NextInUse(idx: Index, c: seq<nat>, i: nat, m: nat) {
    i < m < |c| && !Dead(idx, c, m) && forall k: nat | i < k < m :: Dead(idx, c, k)
  }

  ghost predicate BelowPage(p: Page, q: Page)
    requires LastItemReal(p)
  {
    FirstRealItem(q).Some? ==> InvariantG(PivotSearchKey(FirstRealItem(q).value), p, p.MaxOffset())
  }

  ghost predicate BelowNext(idx: Index, c: seq<nat>, i: nat)
    requires i < |c| && forall k | 0 <= k < |c| :: c[k] in idx.pages
  {
    LastItemReal(idx.pages[c[i]]) ==>
      forall m: nat | NextInUse(idx, c, i, m) :: BelowPage(idx.pages[c[i]], idx.pages[c[m]])
  }

  /** A page of a level is half-dead and not the last, or in use, in order, linked back to its left neighbour and
      below the next page in use; the first in use is leftmost, and on the top level the root. */
  ghost predicate PageInLevel(idx: Index, level: BtreeLevel, c: seq<nat>, i: nat)
    requires i < |c| && forall k | 0 <= k < |c| :: c[k] in idx.pages
  {
    var p := idx.pages[c[i]];
    && !p.deleted && p.prev != c[i]
    && if p.halfDead then !p.Rightmost() && p.HasItem(P_HIKEY)
       else
         && p.level == level.level && InPage(idx.nkeyatts, p) && BelowNext(idx, c, i)
         && (i > 0 ==> p.prev == c[i - 1])
         && (FirstInUse(idx, c, i) ==> Leftmost(idx, c[i]) && (level.isTrueRootLevel ==> p.root))
  }

  ghost predicate MarkedLevel(idx: Index, level: BtreeLevel, c: seq<nat>) {
    LevelChain(idx, level.leftmost, c) && forall i | 0 <= i < |c| :: PageInLevel(idx, level, c, i)
  }

  // ---------------------------------------------------------------- a level and the one below

  /** A page repeats a key in its high key, unless it is half split or the last of its level. */
  ghost predicate KeyRepeats(q: Page, key: Option<Tuple>) {
    q.incompleteSplit || q.Rightmost() ||
    (q.HasItem(P_HIKEY) && key.Some? && PivotIdentical(q.Item(P_HIKEY), key.value))
  }

  /** A way by first downlinks to a half-dead leaf that names `top` as the top of the subtree being deleted. */
  ghost predicate DeletionPath(idx: Index, top: nat, path: seq<nat>) {
    && |path| >= 2
    && (forall i | 0 < i < |path| :: ReadPage(idx, path[i]).Some?)
    && (forall i | 0 <= i < |path| - 1 :: DownStep(idx, path[i], path[i + 1]))
    && var leaf := idx.pages[path[|path| - 1]];
       && leaf.leaf && leaf.halfDead && !leaf.deleted && !leaf.Rightmost()
       && leaf.HasItem(P_HIKEY) && leaf.Item(P_HIKEY).downlink == top
  }

  /** The first downlink of an internal page leads to the child, and an internal child is one level down. */
  ghost predicate DownStep(idx: Index, a: nat, b: nat) {
    && a in idx.pages && b in idx.pages && !idx.pages[a].leaf && DataCount(idx.pages[a]) > 0
    && DataItem(idx.pages[a], 0).downlink == b
    && (idx.pages[b].leaf || idx.pages[b].level == LevelBelow(idx.pages[a].level))
  }

  /** A page that may stand after another without a downlink: it is out of use, flagged as a root, the right half of an
      unfinished split, or the top of an interrupted deletion. */
  ghost predicate NeedsNone(idx: Index, a: nat, b: nat) {
    && a in idx.pages && b in idx.pages
    && (|| idx.pages[b].Ignore() || idx.pages[b].root || idx.pages[a].incompleteSplit
        || exists path :: DeletionPath(idx, b, path) && path[0] == b)
  }

  ghost predicate Internal(idx: Index, c: seq<nat>, i: nat) {
    i < |c| && c[i] in idx.pages && !idx.pages[c[i]].Ignore() && !idx.pages[c[i]].leaf
  }

  ghost function ItemsOf(idx: Index, c: seq<nat>, i: nat): nat {
    if Internal(idx, c, i) then DataCount(idx.pages[c[i]]) else 0
  }

  /** Where the child before item j of page i stands; -1 if there is none. */
  ghost function Before(pos: seq<seq<nat>>, i: nat, j: nat): int
    requires i < |pos| ==> j <= |pos[i]|
    requires i <= |pos| && (i == |pos| ==> j == 0)
    decreases i, j
  {
    if j > 0 then pos[i][j - 1]
    else if i == 0 then -1
    else Before(pos, i - 1, |pos[i - 1]|)
  }

  /** The key at which the range of item j of page i begins: its own, or the high key of the page to the left. */
  ghost function BeginKey(idx: Index, c: seq<nat>, i: nat, j: nat): Option<Tuple>
    requires i < |c| && c[i] in idx.pages && j < DataCount(idx.pages[c[i]])
  {
    if j > 0 then Some(DataItem(idx.pages[c[i]], j))
    else if i == 0 || c[i - 1] !in idx.pages || !idx.pages[c[i - 1]].HasItem(P_HIKEY) then None
    else Some(idx.pages[c[i - 1]].Item(P_HIKEY))
  }

  /** Page z of the level below has no downlink, needs none, and repeats the key. */
  ghost predicate Between(idx: Index, below: nat, e: seq<nat>, z: int, key: Option<Tuple>)
    requires forall k | 0 <= k < |e| :: e[k] in idx.pages
  {
    && 0 < z < |e| && idx.pages[e[z]].level == below
    && NeedsNone(idx, e[z - 1], e[z]) && KeyRepeats(idx.pages[e[z]], key)
  }

  /** The child of item j of page i stands at y, after the child before it at x, the first at the left end of its
      level: it repeats the key that ends its range, its items are above the key of the item, and the pages between
      need no downlink and repeat the key at which its range begins. */
  ghost predicate ChildStands(idx: Index, below: nat, c: seq<nat>, e: seq<nat>, x: int, i: nat, j: nat, y: nat)
    requires i < |c| && c[i] in idx.pages && j < DataCount(idx.pages[c[i]])
    requires forall k | 0 <= k < |e| :: e[k] in idx.pages
  {
    var p := idx.pages[c[i]];
    && x < y < |e| && (x < 0 ==> y == 0 && Leftmost(idx, e[0]))
    && e[y] == DataItem(p, j).downlink && idx.pages[e[y]].level == below
    && KeyRepeats(idx.pages[e[y]], UpperKey(p, j))
    && (j > 0 ==> BoundsChild(PivotSearchKey(DataItem(p, j)), idx.pages[e[y]]))
    && forall z | x < z < y :: Between(idx, below, e, z, BeginKey(idx, c, i, j))
  }

  /** The pages after x, to the end of the level below, have no key to repeat. */
  ghost predicate RestBetween(idx: Index, below: nat, e: seq<nat>, x: int)
    requires forall k | 0 <= k < |e| :: e[k] in idx.pages
  {
    forall z | x < z < |e| :: Between(idx, below, e, z, None)
  }

  /** `pos` says where in the level below the children of a level stand, in order, with all other pages of that level
      accounted for. */
  ghost predicate ChildrenStand(idx: Index, below: nat, c: seq<nat>, e: seq<nat>, pos: seq<seq<nat>>)
    requires forall k | 0 <= k < |c| :: c[k] in idx.pages
    requires forall k | 0 <= k < |e| :: e[k] in idx.pages
  {
    && |pos| == |c| && (forall i | 0 <= i < |c| :: |pos[i]| == ItemsOf(idx, c, i))
    && (forall i, j | 0 <= i < |c| && 0 <= j < |pos[i]| ::
          ChildStands(idx, below, c, e, Before(pos, i, j), i, j, pos[i][j]))
    && RestBetween(idx, below, e, Before(pos, |c|, 0))
  }

  ghost predicate Below(idx: Index, below: nat, c: seq<nat>, e: seq<nat>) {
    && (forall k | 0 <= k < |c| :: c[k] in idx.pages)
    && (forall k | 0 <= k < |e| :: e[k] in idx.pages)
    && exists pos :: ChildrenStand(idx, below, c, e, pos)
  }

  // ---------------------------------------------------------------- the whole tree

  /** The level `level`, and all levels below it, lowest last. */
  ghost predicate MarkedTower(idx: Index, level: BtreeLevel, levels: seq<seq<nat>>)
    decreases level.level
  {
    && levels != [] && MarkedLevel(idx, level, levels[0])
    && if level.level == 0 then |levels| == 1
       else
         && |levels| > 1 && levels[1] != [] && Below(idx, level.level - 1, levels[0], levels[1])
         && MarkedTower(idx, BtreeLevel(level.level - 1, levels[1][0], false), levels[1..])
  }

  ghost predicate MarkedTree(idx: Index) {
    && ReadPage(idx, BTREE_METAPAGE).Some?
    && (idx.root == P_NONE || exists levels :: MarkedTower(idx, BtreeLevel(idx.rootLevel, idx.root, true), levels))
  }

  /** Right links are block numbers, and no internal page in use has a zero downlink. */
  ghost predicate LinksPresent(idx: Index) {
    && INVALID_BLOCK !in idx.pages
    && (forall b | b in idx.pages :: idx.pages[b].next != INVALID_BLOCK)
    && forall b | b in idx.pages && b != P_NONE && !idx.pages[b].Ignore() && !idx.pages[b].leaf :: NonZero(idx.pages[b])
  }
}
