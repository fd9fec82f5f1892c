/** What a pass of the readonly B-tree check says of any index, whatever interrupted operations and corruption have
    left in it (contrib/amcheck/verify_nbtree.c): every page in use that the level walks meet is in order. */
module BtreeSweep {
  import opened Wrappers
  import opened BtreePages
  import opened BtreeOrder
  import opened BtreeShape
  import opened BtreeLeftmost
  import opened BtreeWalk

  /** The child that a pivot with a key leads to is there, and its items are above the pivot. */
  ghost predicate ChildAbove(idx: Index, p: Page, off: nat)
    requires p.HasItem(off)
  {
    p.leaf || p.NegativeInfinity(off) ||
    (&& ReadPage(idx, p.Item(off).downlink).Some?
     && !idx.pages[p.Item(off).downlink].deleted
     && BoundsChild(PivotSearchKey(p.Item(off)), idx.pages[p.Item(off).downlink]))
  }

  lemma LeafAbove(idx: Index, p: Page, off: nat)
    requires p.HasItem(off) && p.leaf
    ensures ChildAbove(idx, p, off)
  {
  }

  /** The first page in use from a block on, or the last page of its level; none if a link leads nowhere. */
  ghost function RightInUse(idx: Index, blk: nat, n: nat): Option<Page>
    decreases n
  {
    if n == 0 || ReadPage(idx, blk).None? then None
    else
      var p := idx.pages[blk];
      if !p.Ignore() || p.Rightmost() then Some(p) else RightInUse(idx, p.next, n - 1)
  }

  /** The last item of a page is below the first item of the page in use to its right. */
  ghost predicate BelowInUse(idx: Index, p: Page, n: nat)
    requires LastItemReal(p)
  {
    p.Rightmost() ||
    (&& RightInUse(idx, p.next, n).Some?
     && var first := FirstRealItem(RightInUse(idx, p.next, n).value);
        first.Some? ==> InvariantG(PivotSearchKey(first.value), p, p.MaxOffset()))
  }

  ghost predicate LastBelow(idx: Index, p: Page) { LastItemReal(p) ==> exists n: nat :: BelowInUse(idx, p, n) }

  ghost predicate ItemUpright(idx: Index, p: Page, off: nat)
    requires p.FirstDataKey() <= off <= p.MaxOffset()
    requires !p.Rightmost() ==> p.HasItem(P_HIKEY)
  {
    ItemOk(idx.nkeyatts, p, off) && ChildAbove(idx, p, off) && (off == p.MaxOffset() ==> LastBelow(idx, p))
  }

  /** A page in order, below the next page in use, and the children of its real pivots in their places. */
  ghost predicate Upright(idx: Index, p: Page) {
    && InPage(idx.nkeyatts, p) && LastBelow(idx, p)
    && forall off | p.FirstDataKey() <= off <= p.MaxOffset() :: ChildAbove(idx, p, off)
  }

  lemma NoLastItem(idx: Index, p: Page)
    ensures !LastItemReal(p) ==> LastBelow(idx, p)
  {
  }

  lemma ItemsUpright(idx: Index, p: Page)
    requires !p.Rightmost() ==> p.HasItem(P_HIKEY) && AttsOk(idx.nkeyatts, p, P_HIKEY)
    requires forall off | p.FirstDataKey() <= off <= p.MaxOffset() :: ItemUpright(idx, p, off)
    ensures Upright(idx, p)
  {
    hide ItemOk, ChildAbove, AttsOk, LastBelow;
    NoLastItem(idx, p);
    if p.FirstDataKey() <= p.MaxOffset() { assert ItemUpright(idx, p, p.MaxOffset()); }
    forall off | p.FirstDataKey() <= off <= p.MaxOffset() ensures ItemOk(idx.nkeyatts, p, off) {
      assert ItemUpright(idx, p, off);
    }
    forall off | p.FirstDataKey() <= off <= p.MaxOffset() ensures ChildAbove(idx, p, off) {
      assert ItemUpright(idx, p, off);
    }
  }

  /** A page met after `left` on the walk of a level: half-dead, or on the level, upright and linked back. */
  ghost predicate Stands(idx: Index, level: nat, left: nat, blk: nat) {
    && blk != P_NONE && ReadPage(idx, blk).Some? && !idx.pages[blk].deleted
    && var p := idx.pages[blk];
       p.halfDead || (p.level == level && Upright(idx, p) && (left != P_NONE ==> p.prev == left))
  }

  lemma StandsLevel(idx: Index, level: nat, left: nat, blk: nat)
    requires Stands(idx, level, left, blk)
    ensures blk in idx.pages && !idx.pages[blk].deleted && (idx.pages[blk].halfDead || idx.pages[blk].level == level)
  {
  }

  ghost function LeftOnWalk(vs: seq<nat>, k: nat): nat
    requires k <= |vs|
  {
    if k == 0 then P_NONE else vs[k - 1]
  }

  ghost predicate FirstLeftmost(idx: Index, blk: nat) {
    blk in idx.pages && !idx.pages[blk].halfDead ==> Leftmost(idx, blk)
  }

  /** The right links from the left end of the level lead over pages that all stand. */
  ghost predicate LevelStands(idx: Index, level: BtreeLevel, vs: seq<nat>, current: nat) {
    && Trail(idx, level.leftmost, vs, current)
    && (vs != [] ==> FirstLeftmost(idx, vs[0]))
    && forall k | 0 <= k < |vs| :: Stands(idx, level.level, LeftOnWalk(vs, k), vs[k])
  }

  lemma StandsStart(idx: Index, level: BtreeLevel)
    ensures LevelStands(idx, level, [], level.leftmost)
    ensures NextLevel(idx, []) == BtreeLevel(0xFFFF_FFFF, INVALID_BLOCK, false)
  {
  }

  lemma StandsTrail(idx: Index, level: BtreeLevel, vs: seq<nat>, current: nat)
    requires LevelStands(idx, level, vs, current)
    ensures Trail(idx, level.leftmost, vs, current)
  {
  }

  lemma StandsStep(idx: Index, level: BtreeLevel, vs: seq<nat>, current: nat)
    requires LevelStands(idx, level, vs, current) && Stands(idx, level.level, LeftOnWalk(vs, |vs|), current)
    requires vs == [] ==> FirstLeftmost(idx, current)
    ensures LevelStands(idx, level, vs + [current], idx.pages[current].next)
  {
    hide Trail, FirstLeftmost, Upright;
    TrailStep(idx, level.leftmost, vs, current);
    var ws := vs + [current];
    forall k | 0 <= k < |ws| ensures Stands(idx, level.level, LeftOnWalk(ws, k), ws[k]) {
      if k < |vs| { assert Stands(idx, level.level, LeftOnWalk(vs, k), vs[k]); }
    }
  }

  ghost predicate HalfDeadAt(idx: Index, blk: nat) { blk in idx.pages && idx.pages[blk].halfDead }

  /** How a page in use is linked to the left where it is met. */
  lemma StandsLinked(idx: Index, level: BtreeLevel, vs: seq<nat>, current: nat, i: nat)
    requires LevelStands(idx, level, vs, current) && i < |vs| && !HalfDeadAt(idx, vs[i])
    ensures vs[i] in idx.pages && if i == 0 then Leftmost(idx, vs[0]) else idx.pages[vs[i]].prev == vs[i - 1] != P_NONE
  {
    hide Upright, Leftmost, ReadPage, Trail;
    StandsTrail(idx, level, vs, current);
    TrailIn(idx, level.leftmost, vs, current);
    assert Stands(idx, level.level, LeftOnWalk(vs, i), vs[i]);
  }

  /** A block met twice: on the way from the first time to the second there is a half-dead page. */
  lemma {:induction false} TwiceHalfDead(idx: Index, level: BtreeLevel, vs: seq<nat>, current: nat, i: nat, j: nat)
    returns (k: nat)
    requires LevelStands(idx, level, vs, current) && i < j < |vs| && vs[i] == vs[j]
    ensures i <= k < j && HalfDeadAt(idx, vs[k])
  {
    hide LevelStands, HalfDeadAt, Leftmost;
    if HalfDeadAt(idx, vs[i]) {
      k := i;
    } else if HalfDeadAt(idx, vs[j - 1]) {
      k := j - 1;
    } else {
      StandsLinked(idx, level, vs, current, i);
      StandsLinked(idx, level, vs, current, j);
      if i == 0 {
        NotLeftmost(idx, vs[0], vs[j - 1]);
        assert false;
      } else {
        k := TwiceHalfDead(idx, level, vs, current, i - 1, j - 1);
      }
    }
  }

  lemma TrailIn(idx: Index, leftmost: nat, vs: seq<nat>, current: nat)
    requires Trail(idx, leftmost, vs, current)
    ensures forall k | 0 <= k < |vs| :: vs[k] in idx.pages && vs[k] != P_NONE && !idx.pages[vs[k]].deleted
  {
  }

  /** A page with a left neighbour that is not half-dead is not leftmost. */
  lemma NotLeftmost(idx: Index, blk: nat, left: nat)
    requires blk in idx.pages && idx.pages[blk].prev == left != P_NONE && !HalfDeadAt(idx, left)
    ensures !Leftmost(idx, blk)
  {
    forall path | LeftPath(idx, blk, path) ensures LeftOf(idx, path) != P_NONE {
      assert |path| == 1 || LeftStep(idx, blk, path[0], path[0 + 1]);
    }
  }

  ghost predicate Distinct(vs: seq<nat>) { forall i, j | 0 <= i < j < |vs| :: vs[i] != vs[j] }

  ghost predicate NoHalfDead(idx: Index, vs: seq<nat>) { forall k | 0 <= k < |vs| :: !HalfDeadAt(idx, vs[k]) }

  /** Where no page met is half-dead, no block is met twice. */
  lemma StandsDistinct(idx: Index, level: BtreeLevel, vs: seq<nat>, current: nat)
    requires LevelStands(idx, level, vs, current) && NoHalfDead(idx, vs)
    ensures Distinct(vs) && |vs| <= |idx.pages|
  {
    hide Upright, Trail, Leftmost;
    forall i, j | 0 <= i < j < |vs| ensures vs[i] != vs[j] {
      if vs[i] == vs[j] { var k := TwiceHalfDead(idx, level, vs, current, i, j); }
    }
    StandsTrail(idx, level, vs, current);
    TrailIn(idx, level.leftmost, vs, current);
    DistinctFit(vs, idx.pages);
  }

  lemma MetOnce(idx: Index, level: BtreeLevel, vs: seq<nat>, current: nat)
    requires LevelStands(idx, level, vs, current)
    ensures NoHalfDead(idx, vs) ==> Distinct(vs) && |vs| <= |idx.pages|
  {
    if NoHalfDead(idx, vs) { StandsDistinct(idx, level, vs, current); }
  }

  /** Where the walk of the next level begins: at the first downlink of the first page in use. */
  ghost function NextLevel(idx: Index, vs: seq<nat>): BtreeLevel {
    if vs == [] then BtreeLevel(0xFFFF_FFFF, INVALID_BLOCK, false)
    else
      var n, blk := NextLevel(idx, vs[..|vs| - 1]), vs[|vs| - 1];
      if n.leftmost != INVALID_BLOCK || blk !in idx.pages || idx.pages[blk].Ignore() then n
      else FirstNext(idx.pages[blk])
  }

  lemma NextStep(idx: Index, vs: seq<nat>, blk: nat)
    requires blk in idx.pages
    ensures var n := NextLevel(idx, vs);
            NextLevel(idx, vs + [blk]) ==
              if n.leftmost != INVALID_BLOCK || idx.pages[blk].Ignore() then n else FirstNext(idx.pages[blk])
  {
    assert (vs + [blk])[..|vs|] == vs;
  }

  /** The level below those walked, which are listed from the lowest up. */
  ghost function Below(idx: Index, levels: seq<seq<nat>>): BtreeLevel {
    if levels == [] then BtreeLevel(idx.rootLevel, idx.root, true) else NextLevel(idx, levels[0])
  }

  ghost predicate Swept(idx: Index, levels: seq<seq<nat>>) {
    levels == [] ||
    (LevelStands(idx, Below(idx, levels[1..]), levels[0], P_NONE) && Swept(idx, levels[1..]))
  }

  lemma SweptStart(idx: Index)
    ensures Swept(idx, []) && Below(idx, []) == BtreeLevel(idx.rootLevel, idx.root, true)
  {
  }

  lemma SweptStep(idx: Index, levels: seq<seq<nat>>, vs: seq<nat>)
    requires Swept(idx, levels) && LevelStands(idx, Below(idx, levels), vs, P_NONE)
    ensures Swept(idx, [vs] + levels) && Below(idx, [vs] + levels) == NextLevel(idx, vs)
  {
    assert ([vs] + levels)[1..] == levels;
  }

  /** Every level from the root down has been walked to its end. */
  ghost predicate AllSwept(idx: Index) {
    idx.root == P_NONE || exists levels :: Swept(idx, levels) && Below(idx, levels).leftmost == P_NONE
  }

  /** Every page of every level stands. */
  lemma {:induction false} SweptStands(idx: Index, levels: seq<seq<nat>>, i: nat, k: nat)
    requires Swept(idx, levels) && i < |levels| && k < |levels[i]|
    ensures Stands(idx, Below(idx, levels[i + 1..]).level, LeftOnWalk(levels[i], k), levels[i][k])
  {
    hide Stands, Below;
    if i > 0 {
      SweptStands(idx, levels[1..], i - 1, k);
      assert levels[1..][i..] == levels[i + 1..];
    }
  }
}
