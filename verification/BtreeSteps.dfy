/** What the readonly B-tree check decides on any index, step by step (contrib/amcheck/verify_nbtree.c): each walk
    along links is described by the blocks the links lead to, without a bound on their number, so that walks without
    end have their place.  BtreeCheck proves that the code decides just this. */
module BtreeSteps {
  import opened Wrappers
  import opened BtreePages
  import opened BtreeOrder
  import opened BtreeShape
  import opened BtreeLeftmost
  import opened BtreeWalk
  import opened BtreeSweep

  /** What is remembered of the level below the target: the right link of the last child and whether it was half of
      an unfinished split. */
  datatype Place = Place(right: nat, split: bool)

  /** A check goes on from a place, refuses the index, or never ends. */
  datatype Step = Go(place: Place) | Stop | Endless

  const NOWHERE := Place(INVALID_BLOCK, false)

  // ---------------------------------------------------------------- pages without a downlink

  /** The first downlinks from a page lead, level by level, to a half-dead leaf that names the page as the top
      of the subtree being deleted. */
  ghost predicate DeletionTop(idx: Index, top: nat, level: nat, childblk: nat, n: nat)
    decreases n
  {
    && n > 0 && ReadPage(idx, childblk).Some?
    && var c := idx.pages[childblk];
       if c.leaf then
         !c.deleted && c.halfDead && !c.Rightmost() && c.HasItem(P_HIKEY) && c.Item(P_HIKEY).downlink == top
       else
         && c.level == LevelBelow(level) && c.HasItem(c.FirstDataKey())
         && DeletionTop(idx, top, c.level, c.Item(c.FirstDataKey()).downlink, n - 1)
  }

  lemma {:induction false} NoDeletionTop(idx: Index, top: nat, level: nat, childblk: nat, n: nat)
    requires Plain(idx)
    ensures !DeletionTop(idx, top, level, childblk, n)
    decreases n
  {
    if n > 0 && ReadPage(idx, childblk).Some? && idx.pages[childblk].HasItem(idx.pages[childblk].FirstDataKey()) {
      var c := idx.pages[childblk];
      NoDeletionTop(idx, top, c.level, c.Item(c.FirstDataKey()).downlink, n - 1);
    }
  }

  lemma {:induction false} DeletionTopMore(idx: Index, top: nat, level: nat, childblk: nat, n: nat, m: nat)
    requires DeletionTop(idx, top, level, childblk, n) && n <= m
    ensures DeletionTop(idx, top, level, childblk, m)
    decreases n
  {
    var c := idx.pages[childblk];
    if !c.leaf { DeletionTopMore(idx, top, c.level, c.Item(c.FirstDataKey()).downlink, n - 1, m - 1); }
  }

  ghost predicate LeadsToTop(idx: Index, top: nat, level: nat, childblk: nat) {
    exists n: nat :: DeletionTop(idx, top, level, childblk, n)
  }

  ghost predicate TopOfDeletion(idx: Index, blk: nat, p: Page) {
    !p.leaf && DataCount(p) > 0 && LeadsToTop(idx, blk, p.level, DataItem(p, 0).downlink)
  }

  /** One level further down. */
  lemma LeadsOn(idx: Index, top: nat, level: nat, childblk: nat)
    requires ReadPage(idx, childblk).Some? && !idx.pages[childblk].leaf
    requires var c := idx.pages[childblk]; c.level == LevelBelow(level) && c.HasItem(c.FirstDataKey())
    ensures var c := idx.pages[childblk];
            LeadsToTop(idx, top, level, childblk) <==>
            LeadsToTop(idx, top, c.level, c.Item(c.FirstDataKey()).downlink)
  {
    hide PageSane;
    var c := idx.pages[childblk];
    var d := c.Item(c.FirstDataKey()).downlink;
    if n: nat :| DeletionTop(idx, top, level, childblk, n) {
      assert DeletionTop(idx, top, c.level, d, n - 1);
    }
    if n: nat :| DeletionTop(idx, top, c.level, d, n) {
      assert DeletionTop(idx, top, level, childblk, n + 1);
    }
  }

  /** The level n steps down; below level 0 the 32-bit count starts over. */
  function LevelAfter(level: nat, n: nat): int {
    if n <= level then level - n else 0x1_0000_0000 - (n - level)
  }

  lemma LevelHere(level: nat)
    ensures LevelAfter(level, 0) == level
  {
  }

  lemma LevelDown(level: nat, n: nat)
    requires n < 0x1_0000_0000
    ensures LevelAfter(level, n) >= 0 && LevelBelow(LevelAfter(level, n)) == LevelAfter(level, n + 1)
  {
  }

  /** On the way down no block is met twice, as long as there are fewer blocks than levels. */
  lemma DescentFits(idx: Index, level: nat, ds: seq<nat>)
    requires |ds| <= 0x1_0000_0000
    requires forall i | 0 <= i < |ds| :: ds[i] in idx.pages && idx.pages[ds[i]].level == LevelAfter(level, i + 1)
    ensures |ds| <= |idx.pages|
  {
    forall i, j | 0 <= i < j < |ds| ensures ds[i] != ds[j] {
      assert LevelAfter(level, i + 1) != LevelAfter(level, j + 1);
      assert idx.pages[ds[i]].level != idx.pages[ds[j]].level;
    }
    DistinctFit(ds, idx.pages);
  }

  /** More than the number of blocks, and block numbers have 32 bits. */
  predicate Ample(idx: Index, fuel: nat) { fuel > |idx.pages| + 1 && |idx.pages| < 0x1_0000_0000 }

  // ---------------------------------------------------------------- the walk to a child

  /** A page is allowed to have no downlink: it is out of use, a root, the right half of an unfinished split, or
      the top of an interrupted deletion. */
  ghost predicate Excused(idx: Index, blk: nat, split: bool) {
    && blk in idx.pages
    && var p := idx.pages[blk];
       p.Ignore() || p.root || split || TopOfDeletion(idx, blk, p)
  }

  /** The target key that ends the range of a child, counting a key past the last item as the high
      key, and the negative infinity item as the high key of the target's left sibling. */
  function PivotFor(p: Page, low: Option<Tuple>, pivotoff: nat): Option<Tuple> {
    if p.NegativeInfinity(pivotoff) then low
    else if pivotoff > p.MaxOffset() then
      if p.Rightmost() || !p.HasItem(P_HIKEY) then None else Some(p.Item(P_HIKEY))
    else if !p.HasItem(pivotoff) then None
    else Some(p.Item(pivotoff))
  }

  ghost predicate KeyFits(p: Page, low: Option<Tuple>, pivotoff: nat, c: Page) {
    c.incompleteSplit || c.Rightmost() ||
    (c.HasItem(P_HIKEY) && PivotFor(p, low, pivotoff).Some? &&
     PivotIdentical(c.Item(P_HIKEY), PivotFor(p, low, pivotoff).value))
  }

  /** The walk along the child level from the place remembered to the child of one downlink of the target, or to
      the end of the level when the offset is 0. */
  datatype Errand = Errand(target: Page, low: Option<Tuple>, off: nat, place: Place)
  {
    predicate Ok() { off == 0 || target.HasItem(off) }

    function Downlink(): nat
      requires Ok()
    {
      if off == 0 then P_NONE else target.Item(off).downlink
    }

    function Start(): nat
      requires Ok()
    {
      if place.right == INVALID_BLOCK then Downlink() else place.right
    }
  }

  /** A block met on the child level is readable, on its level, and no sign of a circle; the first of all is
      leftmost. */
  ghost predicate LinksFit(idx: Index, level: nat, right: nat, blk: nat, first: bool) {
    && blk != P_NONE && ReadPage(idx, blk).Some?
    && var c := idx.pages[blk];
       && (first && right == INVALID_BLOCK ==> Leftmost(idx, blk))
       && ((c.deleted && !c.fullXid) || c.level == LevelBelow(level))
       && c.prev != blk && (first || blk != right)
  }

  ghost function Met(idx: Index, e: Errand, k: nat): nat
    requires e.Ok()
  {
    RightAt(idx, e.Start(), k)
  }

  /** The block before the k-th was half of an unfinished split. */
  ghost predicate SplitBefore(idx: Index, e: Errand, k: nat)
    requires e.Ok()
  {
    if k == 0 then e.place.right != INVALID_BLOCK && e.place.split
    else Met(idx, e, k - 1) in idx.pages && idx.pages[Met(idx, e, k - 1)].incompleteSplit
  }

  /** The k-th block is not the child looked for, and the walk goes on over it. */
  ghost predicate PassedOver(idx: Index, e: Errand, k: nat)
    requires e.Ok()
  {
    var b := Met(idx, e, k);
    && LinksFit(idx, e.target.level, e.place.right, b, k == 0) && b != e.Downlink()
    && Excused(idx, b, SplitBefore(idx, e, k)) && KeyFits(e.target, e.low, e.off, idx.pages[b])
  }

  /** The k-th block is the child looked for, and as it should be; or it is the end of the level, if that is. */
  ghost predicate Arrives(idx: Index, e: Errand, k: nat)
    requires e.Ok()
  {
    var b := Met(idx, e, k);
    b == e.Downlink() &&
    (b == P_NONE || (&& LinksFit(idx, e.target.level, e.place.right, b, k == 0)
                     && KeyFits(e.target, e.low, e.off + 1, idx.pages[b])))
  }

  ghost predicate ArrivesAfter(idx: Index, e: Errand, k: nat)
    requires e.Ok()
  {
    Arrives(idx, e, k) && forall i | 0 <= i < k :: PassedOver(idx, e, i)
  }

  ghost function PlaceAt(idx: Index, blk: nat): Place {
    if blk == P_NONE || blk !in idx.pages then NOWHERE
    else Place(idx.pages[blk].next, idx.pages[blk].incompleteSplit)
  }

  ghost function ChildWalk(idx: Index, e: Errand): Step
    requires e.Ok()
  {
    if exists k: nat :: ArrivesAfter(idx, e, k) then Go(PlaceAt(idx, e.Downlink()))
    else if forall k: nat :: PassedOver(idx, e, k) then Endless
    else Stop
  }

  /** A block that cannot be read is neither. */
  lemma NotFit(idx: Index, e: Errand, k: nat)
    requires e.Ok()
    ensures var b := Met(idx, e, k);
            b == P_NONE || ReadPage(idx, b).None? ==>
              !PassedOver(idx, e, k) && (Arrives(idx, e, k) <==> b == P_NONE && e.Downlink() == P_NONE)
  {
    hide Excused, KeyFits;
  }

  /** What decides about a block that can be read. */
  lemma Judged(idx: Index, e: Errand, k: nat)
    requires e.Ok() && Met(idx, e, k) != P_NONE && ReadPage(idx, Met(idx, e, k)).Some?
    ensures var b := Met(idx, e, k);
            var fits := && LinksFit(idx, e.target.level, e.place.right, b, k == 0)
                        && (b == e.Downlink() || Excused(idx, b, SplitBefore(idx, e, k)))
                        && KeyFits(e.target, e.low, if b == e.Downlink() then e.off + 1 else e.off, idx.pages[b]);
            && (PassedOver(idx, e, k) <==> fits && b != e.Downlink())
            && (Arrives(idx, e, k) <==> fits && b == e.Downlink())
  {
    hide Excused, KeyFits, LinksFit;
  }

  /** The walk comes to the child. */
  lemma WalkArrives(idx: Index, e: Errand, k: nat)
    requires e.Ok() && ArrivesAfter(idx, e, k)
    ensures ChildWalk(idx, e) == Go(PlaceAt(idx, e.Downlink()))
  {
  }

  /** The walk comes to a block that is neither passed over nor the child. */
  lemma WalkStops(idx: Index, e: Errand, k: nat)
    requires e.Ok() && (forall i | 0 <= i < k :: PassedOver(idx, e, i))
    requires !PassedOver(idx, e, k) && !Arrives(idx, e, k)
    ensures ChildWalk(idx, e) == Stop
  {
    hide LinksFit, Excused, KeyFits, Met;
    forall n: nat ensures !ArrivesAfter(idx, e, n) {
      if n < k { assert PassedOver(idx, e, n); }
    }
  }

  lemma {:induction false} SamePath(idx: Index, s: nat, i: nat, j: nat, m: nat)
    requires RightAt(idx, s, i) == RightAt(idx, s, j)
    ensures RightAt(idx, s, i + m) == RightAt(idx, s, j + m)
  {
    if m > 0 { SamePath(idx, s, i, j, m - 1); }
  }

  /** Right links within the file come back to a block in the end. */
  lemma Comeback(idx: Index, s: nat, n: nat) returns (i: nat, j: nat)
    requires n > |idx.pages| && forall k: nat | k < n :: RightAt(idx, s, k) in idx.pages
    ensures i < j < n && RightAt(idx, s, i) == RightAt(idx, s, j)
  {
    var vs := seq(n, k requires 0 <= k < n => RightAt(idx, s, k));
    if forall a, b | 0 <= a < b < n :: vs[a] != vs[b] {
      DistinctFit(vs, idx.pages);
      assert false;
    }
    i, j :| 0 <= i < j < n && vs[i] == vs[j];
  }

  lemma {:induction false} PassedAgain(idx: Index, e: Errand, i: nat, j: nat, n: nat, k: nat)
    requires e.Ok() && i < j < n - 1 && Met(idx, e, i) == Met(idx, e, j)
    requires forall m: nat | m < n :: PassedOver(idx, e, m)
    ensures PassedOver(idx, e, k)
    decreases k
  {
    hide LinksFit, Excused, KeyFits;
    if k >= n {
      var m: nat := k - (j - i);
      PassedAgain(idx, e, i, j, n, m);
      SamePath(idx, e.Start(), i, j, m - i);
      SamePath(idx, e.Start(), i, j, m - 1 - i);
      assert Met(idx, e, m) == Met(idx, e, k) && Met(idx, e, m - 1) == Met(idx, e, k - 1);
    }
  }

  /** A walk that has passed over more blocks than there are never ends. */
  lemma PassedForever(idx: Index, e: Errand, n: nat)
    requires e.Ok() && n > |idx.pages| + 1 && forall k: nat | k < n :: PassedOver(idx, e, k)
    ensures ChildWalk(idx, e) == Endless
  {
    hide Excused, KeyFits;
    forall k: nat | k < n - 1 ensures RightAt(idx, e.Start(), k) in idx.pages { assert PassedOver(idx, e, k); }
    var i, j := Comeback(idx, e.Start(), n - 1);
    forall k: nat ensures PassedOver(idx, e, k) { PassedAgain(idx, e, i, j, n, k); }
    forall k: nat ensures !ArrivesAfter(idx, e, k) { assert PassedOver(idx, e, k); }
  }

  /** Before a page in use, on an index without marks, the first block decides. */
  ghost predicate SteadyAt(idx: Index, e: Errand)
    requires e.Ok()
  {
    && Plain(idx) && !e.place.split && e.target.level <= idx.rootLevel
    && (e.Start() == P_NONE || NotDeleted(idx, e.Start()))
  }

  lemma SteadyNotOver(idx: Index, e: Errand)
    requires e.Ok() && SteadyAt(idx, e) && 0 < e.target.level
    ensures !PassedOver(idx, e, 0)
  {
    hide Leftmost, KeyFits, ReadPage;
    var b := e.Start();
    assert Met(idx, e, 0) == b;
    if LinksFit(idx, e.target.level, e.place.right, b, true) {
      PlainLinked(idx, b);
      forall n: nat ensures DataCount(idx.pages[b]) > 0 ==>
        !DeletionTop(idx, b, idx.pages[b].level, DataItem(idx.pages[b], 0).downlink, n)
      {
        if DataCount(idx.pages[b]) > 0 {
          NoDeletionTop(idx, b, idx.pages[b].level, DataItem(idx.pages[b], 0).downlink, n);
        }
      }
    }
  }

  /** The child of a downlink is reached exactly if it comes next and its level and high key are right. */
  lemma SteadyChild(idx: Index, e: Errand, j: nat)
    requires e.Ok() && SteadyAt(idx, e) && 0 < e.target.level && !e.target.leaf
    requires j < DataCount(e.target) && e.off == e.target.FirstDataKey() + j && e.Downlink() != P_NONE
    ensures Arrives(idx, e, 0) <==> HighKeyOk(idx, e.target, j) && Continues(idx, e.place.right, e.Downlink())
    ensures ChildWalk(idx, e) == if Arrives(idx, e, 0) then Go(PlaceAt(idx, e.Downlink())) else Stop
    ensures Arrives(idx, e, 0) ==> PlaceAt(idx, e.Downlink()) == Place(idx.pages[e.Downlink()].next, false)
  {
    hide PivotIdentical, PageSane, Leftmost, ReadPage;
    SteadyNotOver(idx, e);
    assert Met(idx, e, 0) == e.Start();
    assert DataItem(e.target, j) == e.target.Item(e.off);
    assert UpperKey(e.target, j) == PivotFor(e.target, e.low, e.off + 1);
    if Arrives(idx, e, 0) { WalkArrives(idx, e, 0); } else { WalkStops(idx, e, 0); }
    var b := e.Downlink();
    if ReadPage(idx, b).Some? && b == e.Start() {
      PlainLinked(idx, b);
      LeftmostIs(idx, b);
    }
  }

  lemma LeftmostIs(idx: Index, b: nat)
    ensures Leftmost(idx, b) <==> exists path :: LeftPath(idx, b, path) && LeftOf(idx, path) == P_NONE
  {
  }

  /** The end of the level is reached exactly if the last child was the last of its level. */
  lemma SteadyEnd(idx: Index, e: Errand)
    requires e.Ok() && SteadyAt(idx, e) && 0 < e.target.level && e.Downlink() == P_NONE
    ensures Arrives(idx, e, 0) <==> e.place.right in {P_NONE, INVALID_BLOCK}
    ensures ChildWalk(idx, e) == if Arrives(idx, e, 0) then Go(NOWHERE) else Stop
  {
    hide LinksFit, Excused, KeyFits;
    SteadyNotOver(idx, e);
    assert Met(idx, e, 0) == e.Start();
    if Arrives(idx, e, 0) { WalkArrives(idx, e, 0); } else { WalkStops(idx, e, 0); }
  }

  /** A downlink to the invalid block number leads nowhere. */
  lemma InvalidStops(idx: Index, e: Errand)
    requires e.Ok() && INVALID_BLOCK !in idx.pages && e.place.right == INVALID_BLOCK == e.Downlink()
    ensures ChildWalk(idx, e) == Stop
  {
    hide Excused, KeyFits;
    assert Met(idx, e, 0) == INVALID_BLOCK;
    NotFit(idx, e, 0);
    WalkStops(idx, e, 0);
  }

  // ---------------------------------------------------------------- the page in use to the right

  /** A page out of use that is not the last of its level. */
  ghost predicate Overlooked(idx: Index, blk: nat) {
    blk != P_NONE && ReadPage(idx, blk).Some? && idx.pages[blk].Ignore() && !idx.pages[blk].Rightmost()
  }

  ghost predicate RightRuns(idx: Index, s: nat) { forall k: nat :: Overlooked(idx, RightAt(idx, s, k)) }

  lemma {:induction false} OverlookedAgain(idx: Index, s: nat, i: nat, j: nat, n: nat, k: nat)
    requires i < j < n && RightAt(idx, s, i) == RightAt(idx, s, j)
    requires forall m: nat | m < n :: Overlooked(idx, RightAt(idx, s, m))
    ensures Overlooked(idx, RightAt(idx, s, k))
    decreases k
  {
    if k >= n {
      OverlookedAgain(idx, s, i, j, n, k - (j - i));
      SamePath(idx, s, i, j, k - j);
    }
  }

  lemma OverlookedForever(idx: Index, s: nat, n: nat)
    requires n > |idx.pages| && forall k: nat | k < n :: Overlooked(idx, RightAt(idx, s, k))
    ensures RightRuns(idx, s)
  {
    var i, j := Comeback(idx, s, n);
    forall k: nat ensures Overlooked(idx, RightAt(idx, s, k)) { OverlookedAgain(idx, s, i, j, n, k); }
  }

  lemma {:induction false} InUseMore(idx: Index, blk: nat, n: nat, m: nat)
    requires RightInUse(idx, blk, n).Some? && n <= m
    ensures RightInUse(idx, blk, m) == RightInUse(idx, blk, n)
    decreases n
  {
    var p := idx.pages[blk];
    if p.Ignore() && !p.Rightmost() { InUseMore(idx, p.next, n - 1, m - 1); }
  }

  lemma {:induction false} RunsNowhere(idx: Index, s: nat, n: nat)
    requires RightRuns(idx, s)
    ensures RightInUse(idx, s, n).None?
    decreases n
  {
    assert Overlooked(idx, RightAt(idx, s, 0));
    if n > 0 {
      forall k: nat ensures Overlooked(idx, RightAt(idx, idx.pages[s].next, k)) {
        RightShift(idx, s, k);
        assert Overlooked(idx, RightAt(idx, s, k + 1));
      }
      RunsNowhere(idx, idx.pages[s].next, n - 1);
    }
  }

  /** Pages out of use that lead to a block that cannot be read lead to no page in use. */
  lemma {:induction false} NoneInUse(idx: Index, s: nat, k: nat)
    requires forall i: nat | i < k :: Overlooked(idx, RightAt(idx, s, i))
    requires ReadPage(idx, RightAt(idx, s, k)).None?
    ensures !RightRuns(idx, s) && forall n :: RightInUse(idx, s, n).None?
    decreases k
  {
    assert !Overlooked(idx, RightAt(idx, s, k));
    if k > 0 {
      assert Overlooked(idx, RightAt(idx, s, 0));
      var t := idx.pages[s].next;
      forall i: nat | i < k - 1 ensures Overlooked(idx, RightAt(idx, t, i)) {
        RightShift(idx, s, i);
        assert Overlooked(idx, RightAt(idx, s, i + 1));
      }
      RightShift(idx, s, k - 1);
      NoneInUse(idx, t, k - 1);
    }
  }

  /** The page in use to the right does not depend on how long one looks for it. */
  lemma InUseOnce(idx: Index, p: Page, m: nat)
    requires LastItemReal(p) && !p.Rightmost()
    ensures RightInUse(idx, p.next, m).Some? ==>
              (LastBelow(idx, p) <==> BelowInUse(idx, p, m)) && !RightRuns(idx, p.next)
    ensures (forall n :: RightInUse(idx, p.next, n).None?) ==> !LastBelow(idx, p)
  {
    hide RightInUse, RightRuns;
    if RightInUse(idx, p.next, m).Some? {
      if RightRuns(idx, p.next) { RunsNowhere(idx, p.next, m); }
      if n: nat :| BelowInUse(idx, p, n) {
        if n <= m { InUseMore(idx, p.next, n, m); } else { InUseMore(idx, p.next, m, n); }
      }
    }
  }

  // ---------------------------------------------------------------- items and pages

  /** The downlink of one item of an internal page. */
  ghost function DownlinkWalk(idx: Index, e: Errand): Step
    requires e.Ok() && e.off > 0
  {
    if e.target.NegativeInfinity(e.off) then ChildWalk(idx, e)
    else if ReadPage(idx, e.Downlink()).None? then Stop
    else if ChildWalk(idx, e).Go? && !ChildAbove(idx, e.target, e.off) then Stop
    else ChildWalk(idx, e)
  }

  ghost function LastWalk(idx: Index, p: Page, place: Place): Step {
    if !p.Rightmost() && RightRuns(idx, p.next) then Endless
    else if !LastBelow(idx, p) then Stop
    else Go(place)
  }

  lemma LastFound(idx: Index, p: Page, n: nat)
    requires LastItemReal(p) && BelowInUse(idx, p, n)
    ensures LastBelow(idx, p)
  {
  }

  /** One data item. */
  ghost function ItemWalk(idx: Index, e: Errand): Step
    requires e.Ok() && e.target.FirstDataKey() <= e.off <= e.target.MaxOffset()
  {
    if !ItemOk(idx.nkeyatts, e.target, e.off) then Stop
    else
      var last := if e.off == e.target.MaxOffset() && !e.target.NegativeInfinity(e.off)
                  then LastWalk(idx, e.target, e.place) else Go(e.place);
      if !last.Go? || e.target.leaf then last else DownlinkWalk(idx, e)
  }

  /** The first n data items of a page. */
  ghost function ItemsWalk(idx: Index, p: Page, low: Option<Tuple>, place: Place, n: nat): Step
    requires n <= DataCount(p)
  {
    if n == 0 then Go(place)
    else
      match ItemsWalk(idx, p, low, place, n - 1)
      case Go(at) => ItemWalk(idx, Errand(p, low, p.FirstDataKey() + n - 1, at))
      case other => other
  }

  lemma {:induction false} ItemsStuck(idx: Index, p: Page, low: Option<Tuple>, place: Place, n: nat, m: nat)
    requires n <= m <= DataCount(p) && !ItemsWalk(idx, p, low, place, n).Go?
    ensures ItemsWalk(idx, p, low, place, m) == ItemsWalk(idx, p, low, place, n)
  {
    hide ItemWalk;
    if n < m { ItemsStuck(idx, p, low, place, n, m - 1); }
  }

  lemma ItemsStart(idx: Index, p: Page, low: Option<Tuple>, place: Place)
    ensures ItemsWalk(idx, p, low, place, 0) == Go(place)
  {
  }

  /** One item further; an item that does not pass decides about the page. */
  lemma ItemsNext(idx: Index, e: Errand, place: Place)
    requires e.Ok() && e.target.FirstDataKey() <= e.off <= e.target.MaxOffset()
    requires ItemsWalk(idx, e.target, e.low, place, e.off - e.target.FirstDataKey()) == Go(e.place)
    ensures ItemsWalk(idx, e.target, e.low, place, e.off - e.target.FirstDataKey() + 1) == ItemWalk(idx, e)
    ensures !ItemWalk(idx, e).Go? ==>
              ItemsWalk(idx, e.target, e.low, place, DataCount(e.target)) == ItemWalk(idx, e)
  {
    hide ItemWalk;
    var n := e.off - e.target.FirstDataKey() + 1;
    assert e == Errand(e.target, e.low, e.target.FirstDataKey() + n - 1, e.place);
    if !ItemsWalk(idx, e.target, e.low, place, n).Go? {
      ItemsStuck(idx, e.target, e.low, place, n, DataCount(e.target));
    }
  }

  /** A page in use. */
  ghost function TargetWalk(idx: Index, p: Page, low: Option<Tuple>, place: Place): Step {
    if !p.Rightmost() && !(p.HasItem(P_HIKEY) && AttsOk(idx.nkeyatts, p, P_HIKEY)) then Stop
    else
      match ItemsWalk(idx, p, low, place, DataCount(p))
      case Go(at) => if p.leaf || !p.Rightmost() then Go(at) else ChildWalk(idx, Errand(p, low, 0, at))
      case other => other
  }

  // ---------------------------------------------------------------- levels

  /** Where the walk along a level is. */
  datatype Spot = Spot(left: nat, current: nat, next: BtreeLevel, low: Option<Tuple>, place: Place)

  datatype Stage = At(spot: Spot) | Broken | Lost

  ghost function LowAfter(p: Page): Option<Tuple> {
    if !p.Rightmost() && p.HasItem(P_HIKEY) then Some(p.Item(P_HIKEY)) else None
  }

  /** The page is linked as it should be where it is met. */
  ghost predicate SpotFits(idx: Index, level: BtreeLevel, s: Spot, p: Page) {
    && (s.next.leftmost == INVALID_BLOCK ==> Leftmost(idx, s.current) && (level.isTrueRootLevel ==> p.root))
    && (s.left != P_NONE ==> p.prev == s.left)
    && p.level == level.level
  }

  ghost predicate NoCircle(s: Spot, p: Page) {
    s.current != s.left && s.current != p.prev && (!p.Rightmost() ==> p.HasItem(P_HIKEY))
  }

  /** One page of a level. */
  ghost function PageWalk(idx: Index, level: BtreeLevel, s: Spot): Stage {
    if ReadPage(idx, s.current).None? then Broken
    else
      var p := idx.pages[s.current];
      if p.deleted || (p.halfDead && (p.Rightmost() || !NoCircle(s, p))) then Broken
      else if p.halfDead then At(Spot(s.current, p.next, s.next, LowAfter(p), s.place))
      else if !SpotFits(idx, level, s, p) then Broken
      else
        match TargetWalk(idx, p, s.low, s.place)
        case Stop => Broken
        case Endless => Lost
        case Go(at) =>
          if !NoCircle(s, p) then Broken
          else
            var next := if s.next.leftmost == INVALID_BLOCK then FirstNext(p) else s.next;
            At(Spot(s.current, p.next, next, LowAfter(p), at))
  }

  /** The cases of a page of a level. */
  lemma VisitCases(idx: Index, level: BtreeLevel, s: Spot)
    ensures ReadPage(idx, s.current).None? ==> PageWalk(idx, level, s) == Broken
    ensures ReadPage(idx, s.current).Some? ==>
              var p := idx.pages[s.current];
              var rest := p.halfDead || SpotFits(idx, level, s, p);
              var step := if p.halfDead then Go(s.place) else TargetWalk(idx, p, s.low, s.place);
              var next := if p.halfDead || s.next.leftmost != INVALID_BLOCK then s.next else FirstNext(p);
              PageWalk(idx, level, s) ==
                if p.deleted || !rest || (p.halfDead && p.Rightmost()) || step == Stop then Broken
                else if step == Endless then Lost
                else if !NoCircle(s, p) then Broken
                else At(Spot(s.current, p.next, next, LowAfter(p), step.place))
  {
    hide TargetWalk, SpotFits, LowAfter, FirstNext, NoCircle, ReadPage;
  }

  ghost function LevelSpot(level: BtreeLevel, low: Option<Tuple>): Spot {
    Spot(P_NONE, level.leftmost, BtreeLevel(0xFFFF_FFFF, INVALID_BLOCK, false), low, NOWHERE)
  }

  /** The first n pages of a level; a walk that has come to the end stays there. */
  ghost function LevelWalk(idx: Index, level: BtreeLevel, n: nat): Stage {
    if n == 0 then At(LevelSpot(level, None))
    else
      match LevelWalk(idx, level, n - 1)
      case At(s) => if s.current == P_NONE then At(s) else PageWalk(idx, level, s)
      case other => other
  }

  ghost predicate GoesOn(idx: Index, level: BtreeLevel, n: nat) {
    LevelWalk(idx, level, n).At? && LevelWalk(idx, level, n).spot.current != P_NONE
  }

  lemma {:induction false} WalkStuck(idx: Index, level: BtreeLevel, n: nat, m: nat)
    requires n <= m && !GoesOn(idx, level, n)
    ensures LevelWalk(idx, level, m) == LevelWalk(idx, level, n)
  {
    hide PageWalk;
    if n < m { WalkStuck(idx, level, n, m - 1); }
  }

  /** How the check of a level comes out. */
  datatype LevelFate = Down(next: BtreeLevel) | Refused | Unending

  ghost function FateOf(idx: Index, level: BtreeLevel): LevelFate {
    if exists n: nat :: !GoesOn(idx, level, n) then
      var n: nat :| !GoesOn(idx, level, n);
      match LevelWalk(idx, level, n)
      case At(s) => Down(s.next)
      case Broken => Refused
      case Lost => Unending
    else Unending
  }

  lemma FateIs(idx: Index, level: BtreeLevel, n: nat)
    requires !GoesOn(idx, level, n)
    ensures FateOf(idx, level) ==
              match LevelWalk(idx, level, n)
              case At(s) => Down(s.next)
              case Broken => Refused
              case Lost => Unending
  {
    hide LevelWalk;
    var m: nat :| !GoesOn(idx, level, m) &&
                  FateOf(idx, level) == match LevelWalk(idx, level, m)
                                        case At(s) => Down(s.next)
                                        case Broken => Refused
                                        case Lost => Unending;
    if n <= m { WalkStuck(idx, level, n, m); } else { WalkStuck(idx, level, m, n); }
  }

  /** How the check of a level and of all below it comes out. */
  datatype Fate = Passes | Refuses | NeverEnds

  ghost function TreeFate(idx: Index, level: BtreeLevel): Fate
    decreases level.level
  {
    match FateOf(idx, level)
    case Refused => Refuses
    case Unending => NeverEnds
    case Down(next) =>
      if next.leftmost == P_NONE then Passes
      else if next.leftmost == INVALID_BLOCK || next.level >= level.level then Refuses
      else TreeFate(idx, next)
  }

  ghost function IndexFate(idx: Index): Fate {
    if ReadPage(idx, BTREE_METAPAGE).None? then Refuses
    else if idx.root == P_NONE then Passes
    else TreeFate(idx, BtreeLevel(idx.rootLevel, idx.root, true))
  }

  // ---------------------------------------------------------------- how long it takes to find out

  /** The check of a level is over after as many pages, unless it goes on for ever within one of them. */
  ghost predicate Settles(idx: Index, level: BtreeLevel, fuel: nat) {
    Ample(idx, fuel) && exists n: nat :: n <= fuel && !GoesOn(idx, level, n)
  }

  ghost predicate TreeSettles(idx: Index, level: BtreeLevel, fuel: nat)
    decreases level.level
  {
    && Settles(idx, level, fuel)
    && match FateOf(idx, level)
       case Down(next) => next.leftmost in {P_NONE, INVALID_BLOCK} || next.level >= level.level ||
                          TreeSettles(idx, next, fuel)
       case _ => true
  }

  ghost predicate IndexSettles(idx: Index, fuel: nat) {
    idx.root == P_NONE || TreeSettles(idx, BtreeLevel(idx.rootLevel, idx.root, true), fuel)
  }

  /** A check that does end settles, and stays settled. */
  lemma {:induction false} TreeSettlesSome(idx: Index, level: BtreeLevel) returns (enough: nat)
    requires TreeFate(idx, level) != NeverEnds && |idx.pages| < 0x1_0000_0000
    ensures forall fuel: nat | fuel >= enough :: TreeSettles(idx, level, fuel)
    decreases level.level
  {
    hide GoesOn, LevelWalk;
    var n: nat :| !GoesOn(idx, level, n);
    enough := if n > |idx.pages| + 2 then n else |idx.pages| + 2;
    forall fuel: nat | fuel >= enough ensures Settles(idx, level, fuel) { }
    var fate := FateOf(idx, level);
    if fate.Down? && fate.next.leftmost !in {P_NONE, INVALID_BLOCK} && fate.next.level < level.level {
      var more := TreeSettlesSome(idx, fate.next);
      enough := if more > enough then more else enough;
    }
  }

  /** So the check ends with enough fuel exactly if it is not doomed to go on for ever. */
  lemma SettlesSome(idx: Index) returns (enough: nat)
    requires IndexFate(idx) != NeverEnds && ReadPage(idx, BTREE_METAPAGE).Some? && |idx.pages| < 0x1_0000_0000
    ensures forall fuel: nat | fuel >= enough :: IndexSettles(idx, fuel)
  {
    enough := 0;
    if idx.root != P_NONE { enough := TreeSettlesSome(idx, BtreeLevel(idx.rootLevel, idx.root, true)); }
  }

  /** What is known of a page of a level that passed. */
  lemma AtFacts(idx: Index, level: BtreeLevel, s: Spot)
    requires PageWalk(idx, level, s).At?
    ensures s.current in idx.pages
    ensures var p, t := idx.pages[s.current], PageWalk(idx, level, s).spot;
            && !p.deleted && (!p.Rightmost() ==> p.HasItem(P_HIKEY))
            && t.left == s.current && t.current == p.next
            && t.low == (if p.Rightmost() then None else Some(p.Item(P_HIKEY)))
            && t.next == if s.next.leftmost != INVALID_BLOCK || p.Ignore() then s.next else FirstNext(p)
  {
    hide TargetWalk, SpotFits, FirstNext, ReadPage;
    VisitCases(idx, level, s);
    if ReadPage(idx, s.current).Some? { ReadLive(idx, s.current); }
  }

  /** The first page of a level that is in use is leftmost. */
  lemma FirstIs(idx: Index, level: BtreeLevel, s: Spot)
    requires PageWalk(idx, level, s).At? && s.next.leftmost == INVALID_BLOCK
    ensures FirstLeftmost(idx, s.current)
  {
    hide TargetWalk, Leftmost;
  }
}
