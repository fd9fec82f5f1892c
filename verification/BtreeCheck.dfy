/** bt_index_parent_check without its optional extras: the readonly walk over every level of a B-tree
    (contrib/amcheck/verify_nbtree.c).  Page links are data read from disk, so some walks never end;
    `fuel` bounds every loop that follows them and a run that exceeds it counts as diverged. */
module BtreeCheck {
  import opened Wrappers
  import opened BtreePages
  import opened BtreeOrder
  import opened BtreeShape
  import opened BtreeLeftmost
  import opened BtreeWalk
  import opened BtreeSweep
  import opened BtreeSteps
  import opened BtreeLoops
  import opened BtreeDescent

  datatype Verdict = Pass | Corrupt(why: string) | Diverged

  /** The verdict is the one the step calls for; only a check with ample fuel must tell a walk without end. */
  ghost predicate Agrees(idx: Index, v: Verdict, fuel: nat, step: Step, place: Place) {
    && (v.Pass? ==> step == Go(place))
    && (v.Corrupt? ==> step == Stop)
    && (v.Diverged? && Ample(idx, fuel) ==> step == Endless)
  }

  ghost predicate Follows(idx: Index, v: Verdict, fuel: nat, stage: Stage, spot: Spot) {
    && (v.Pass? ==> stage == At(spot))
    && (v.Corrupt? ==> stage == Broken)
    && (v.Diverged? && Ample(idx, fuel) ==> stage == Lost)
  }

  class BtreeCheckState {
    const idx: Index
    var target: Page
    var targetblock: nat
    var lowkey: Option<Tuple>
    var prevrightlink: nat
    var previncompletesplit: bool

    constructor (idx: Index)
      ensures this.idx == idx
      ensures prevrightlink == INVALID_BLOCK && !previncompletesplit && lowkey == None
    {
      this.idx := idx;
      target := Page(0, 0, 0, false, false, false, false, false, false, false, false, []);
      targetblock := 0;
      lowkey := None;
      prevrightlink := INVALID_BLOCK;
      previncompletesplit := false;
    }

    /** The target is a page in use. */
    ghost predicate TargetValid()
      reads this
    {
      && targetblock != BTREE_METAPAGE
      && ReadPage(idx, targetblock).Some? && idx.pages[targetblock] == target
      && !target.Ignore()
    }

    function Here(): Place
      reads this`prevrightlink, this`previncompletesplit
    {
      Place(prevrightlink, previncompletesplit)
    }

    function Task(off: nat): Errand
      reads this
    {
      Errand(target, lowkey, off, Here())
    }

    /** The walk along the child level stands before a page in use, on an index without marks. */
    ghost predicate Steady(downlink: nat)
      reads this`prevrightlink, this`previncompletesplit
    {
      && Plain(idx) && !previncompletesplit
      && var b := if prevrightlink == INVALID_BLOCK then downlink else prevrightlink;
         b == P_NONE || NotDeleted(idx, b)
    }

    /** What is remembered of the last child visited. */
    ghost predicate OnRun(before: seq<nat>)
      reads this`prevrightlink
    {
      && ChildRun(idx, before) && prevrightlink == RunEnd(idx, before)
      && (before != [] ==> prevrightlink != INVALID_BLOCK)
    }

    ghost predicate NextLive()
      reads this`target
    {
      target.next == P_NONE || NotDeleted(idx, target.next)
    }

    /** The downlink to look for; none at the end of a level. */
    function Sought(off: nat): nat
      requires off == 0 || target.HasItem(off)
      reads this`target
    {
      if off == 0 then P_NONE else target.Item(off).downlink
    }

    /** bt_downlink_missing_check: a page without a downlink is excused if it is the root, the right
        half of an unfinished split, or the top of an interrupted multi-level deletion. */
    method DownlinkMissingCheck(rightsplit: bool, blk: nat, page: Page, fuel: nat) returns (v: Verdict)
      requires ReadPage(idx, blk) == Some(page) && !page.Ignore() && blk != BTREE_METAPAGE
      ensures v.Pass? <==>
                || page.root || rightsplit
                || (!page.leaf && DeletionTop(idx, blk, page.level, DataItem(page, 0).downlink, fuel))
      ensures Plain(idx) && !page.root && !rightsplit ==> !v.Pass?
      ensures v.Pass? ==> Excused(idx, blk, rightsplit)
      ensures v.Corrupt? ==> !Excused(idx, blk, rightsplit)
      ensures Ample(idx, fuel) ==> !v.Diverged?
    {
      assert !page.leaf ==> DataCount(page) > 0;
      hide PageSane, DeletionTop, LeadsToTop;
      if page.root { return Pass; }
      if rightsplit { return Pass; }
      if page.leaf { return Corrupt("leaf index block lacks downlink"); }
      if Plain(idx) { NoDeletionTop(idx, blk, page.level, DataItem(page, 0).downlink, fuel); }
      v := DescentCheck(blk, page, fuel);
    }

    /** The descent of bt_downlink_missing_check by first downlinks. */
    method DescentCheck(blk: nat, page: Page, fuel: nat) returns (v: Verdict)
      requires !page.leaf && DataCount(page) > 0
      ensures v.Pass? <==> DeletionTop(idx, blk, page.level, DataItem(page, 0).downlink, fuel)
      ensures v.Corrupt? ==> !TopOfDeletion(idx, blk, page)
      ensures Ample(idx, fuel) ==> !v.Diverged?
    {
      hide PageSane, LevelAfter, LevelBelow;
      var level := page.level;
      var childblk := page.Item(page.FirstDataKey()).downlink;
      assert DataItem(page, 0).downlink == childblk;
      ghost var first := childblk;
      ghost var ds: seq<nat> := [];
      LevelHere(page.level);
      var left: nat := fuel;
      while true
        invariant left <= fuel && |ds| == fuel - left
        invariant DeletionTop(idx, blk, page.level, first, fuel) <==> DeletionTop(idx, blk, level, childblk, left)
        invariant LeadsToTop(idx, blk, page.level, first) <==> LeadsToTop(idx, blk, level, childblk)
        invariant Ample(idx, fuel) ==>
                    && |ds| <= |idx.pages| && level == LevelAfter(page.level, |ds|)
                    && forall i | 0 <= i < |ds| ::
                         ds[i] in idx.pages && idx.pages[ds[i]].level == LevelAfter(page.level, i + 1)
        decreases left
      {
        if left == 0 { return Diverged; }
        left := left - 1;
        var child := ReadPage(idx, childblk);
        if child.None? { return Corrupt("unreadable block"); }
        var c := child.value;
        if c.leaf {
          if c.deleted { return Corrupt("downlink to deleted leaf page found"); }
          if c.halfDead && !c.Rightmost() {
            if !c.HasItem(P_HIKEY) { return Corrupt("invalid line pointer storage"); }
            if c.Item(P_HIKEY).downlink == blk { return Pass; }
          }
          return Corrupt("internal index block lacks downlink");
        }
        if c.level != LevelBelow(level) { return Corrupt("downlink is not one level down"); }
        if !c.HasItem(c.FirstDataKey()) { return Corrupt("invalid line pointer storage"); }
        LeadsOn(idx, blk, level, childblk);
        if Ample(idx, fuel) {
          LevelDown(page.level, |ds|);
          DescentFits(idx, page.level, ds + [childblk]);
        }
        ds := ds + [childblk];
        level := c.level;
        childblk := c.Item(c.FirstDataKey()).downlink;
      }
    }

    function PivotAt(pivotoff: nat): Option<Tuple>
      reads this
    {
      PivotFor(target, lowkey, pivotoff)
    }

    /** bt_leftmost_ignoring_half_dead where only truth counts. */
    method IsLeftmost(blkno: nat, page: Page) returns (ok: bool)
      requires ReadPage(idx, blkno) == Some(page) && blkno != P_NONE
      ensures ok <==> Leftmost(idx, blkno)
      ensures Plain(idx) && NotDeleted(idx, blkno) ==> (ok <==> page.prev == P_NONE)
    {
      hide Plain, PageSane, LeftPath, LeftOf, ReadPage;
      ReadLive(idx, blkno);
      var leftmost := LeftmostIgnoringHalfDead(idx, blkno, page);
      if Plain(idx) && NotDeleted(idx, blkno) { PlainLinked(idx, blkno); }
      ok := leftmost == Some(true);
    }

    /** The checks bt_child_highkey_check makes of the links of one page of the child level. */
    method ChildLinksCheck(downlink: nat, blkno: nat, page: Page, first: bool, rightsplit: bool, fuel: nat)
      returns (v: Verdict)
      requires TargetValid() && !target.leaf && target.level <= idx.rootLevel
      requires ReadPage(idx, blkno) == Some(page) && blkno != P_NONE
      ensures blkno == downlink ==> !v.Diverged?
      ensures var fits := && LinksFit(idx, target.level, prevrightlink, blkno, first)
                          && (blkno == downlink || Excused(idx, blkno, rightsplit));
              (v.Pass? ==> fits) && (v.Corrupt? ==> !fits) && (Ample(idx, fuel) ==> !v.Diverged?)
    {
      hide Plain, PageSane, LeftPath, LeftOf, DataItem, DeletionTop, ReadPage, NotDeleted, TopOfDeletion, Leftmost;
      TargetInternal();
      ReadLive(idx, blkno);
      if first && prevrightlink == INVALID_BLOCK {
        var leftmost := IsLeftmost(blkno, page);
        if !leftmost { return Corrupt("the first child is not leftmost of its level"); }
      }
      if (!page.deleted || page.fullXid) && page.level != LevelBelow(target.level) {
        return Corrupt("block found while following rightlinks has invalid level");
      }
      if (!first && blkno == prevrightlink) || blkno == page.prev {
        return Corrupt("circular link chain found");
      }
      if blkno != downlink && !page.Ignore() {
        v := DownlinkMissingCheck(rightsplit, blkno, page, fuel);
        if !v.Pass? { return v; }
      }
      return Pass;
    }

    /** The match of a child's high key with the key that ends its range. */
    method ChildKeyCheck(pivotoff: nat, page: Page) returns (v: Verdict)
      ensures v.Pass? <==>
                page.incompleteSplit || page.Rightmost()
                || (page.HasItem(P_HIKEY) && PivotAt(pivotoff).Some?
                    && PivotIdentical(page.Item(P_HIKEY), PivotAt(pivotoff).value))
      ensures v.Pass? <==> KeyFits(target, lowkey, pivotoff, page)
      ensures !v.Diverged?
    {
      if !page.incompleteSplit && !page.Rightmost() {
        if !page.HasItem(P_HIKEY) { return Corrupt("invalid line pointer storage"); }
        var pivot := PivotAt(pivotoff);
        if pivot.None? { return Corrupt("no key on the target level to match the child high key"); }
        if !PivotIdentical(page.Item(P_HIKEY), pivot.value) {
          return Corrupt("mismatch between parent key and child high key");
        }
      }
      return Pass;
    }

    /** The checks bt_child_highkey_check makes of one page of the child level. */
    method ChildPageCheck(off: nat, downlink: nat, blkno: nat, page: Page, first: bool, rightsplit: bool, fuel: nat)
      returns (v: Verdict)
      requires TargetValid() && !target.leaf && target.level <= idx.rootLevel
      requires ReadPage(idx, blkno) == Some(page) && blkno != P_NONE
      ensures blkno == downlink ==> !v.Diverged?
      ensures var fits := && LinksFit(idx, target.level, prevrightlink, blkno, first)
                          && (blkno == downlink || Excused(idx, blkno, rightsplit))
                          && KeyFits(target, lowkey, if blkno == downlink then off + 1 else off, page);
              (v.Pass? ==> fits) && (v.Corrupt? ==> !fits) && (Ample(idx, fuel) ==> !v.Diverged?)
    {
      hide Plain, PageSane, PivotAt, PivotIdentical, LeftPath, LeftOf, LinksFit, Excused, KeyFits;
      v := ChildLinksCheck(downlink, blkno, page, first, rightsplit, fuel);
      if !v.Pass? { return v; }
      v := ChildKeyCheck(if blkno == downlink then off + 1 else off, page);
    }

    /** The loop of bt_child_highkey_check. */
    method ChildLevelWalk(off: nat, fuel: nat) returns (v: Verdict)
      requires TargetValid() && !target.leaf && target.level <= idx.rootLevel
      requires off == 0 || target.FirstDataKey() <= off <= target.MaxOffset()
      modifies this`prevrightlink, this`previncompletesplit
      ensures Agrees(idx, v, fuel, ChildWalk(idx, old(Task(off))), Here())
      ensures fuel > 0 && Arrives(idx, old(Task(off)), 0) ==> v.Pass?
    {
      hide NotDeleted, PivotIdentical, LinksFit, Excused, KeyFits, ChildWalk, PageSane, PassedOver, Arrives;
      var blkno: nat := prevrightlink;
      var rightsplit := previncompletesplit;
      var first := true;
      var downlink: nat := Sought(off);
      if blkno == INVALID_BLOCK {
        blkno := downlink;
        rightsplit := false;
      }
      ghost var e, k := Task(off), 0;
      var left: nat := fuel;
      while true
        invariant prevrightlink == old(prevrightlink) && previncompletesplit == old(previncompletesplit)
        invariant left <= fuel && k == fuel - left
        invariant blkno == Met(idx, e, k) && first == (k == 0) && rightsplit == SplitBefore(idx, e, k)
        invariant forall i: nat | i < k :: PassedOver(idx, e, i)
        invariant k > 0 ==> !Arrives(idx, e, 0)
        decreases left
      {
        if left == 0 {
          if Ample(idx, fuel) { PassedForever(idx, e, fuel); }
          return Diverged;
        }
        left := left - 1;
        NotFit(idx, e, k);
        if blkno == P_NONE && downlink == P_NONE {
          WalkArrives(idx, e, k);
          prevrightlink := INVALID_BLOCK;
          previncompletesplit := false;
          return Pass;
        }
        if blkno == P_NONE {
          WalkStops(idx, e, k);
          return Corrupt("can't traverse from downlink to downlink");
        }
        var read := ReadPage(idx, blkno);
        if read.None? {
          WalkStops(idx, e, k);
          return Corrupt("unreadable block");
        }
        var page := read.value;
        Judged(idx, e, k);
        v := ChildPageCheck(off, downlink, blkno, page, first, rightsplit, fuel);
        if v.Corrupt? { WalkStops(idx, e, k); }
        if !v.Pass? { return v; }
        rightsplit := page.incompleteSplit;
        if blkno == downlink {
          WalkArrives(idx, e, k);
          prevrightlink := page.next;
          previncompletesplit := rightsplit;
          return Pass;
        }
        blkno := page.next;
        first := false;
        k := k + 1;
      }
    }

    /** bt_child_highkey_check: walk the child level from the last child seen to the one of this
        downlink, or to the end when `off` is 0. */
    method ChildHighKeyCheck(off: nat, fuel: nat) returns (v: Verdict)
      requires TargetValid() && !target.leaf && target.level <= idx.rootLevel
      requires off == 0 || target.FirstDataKey() <= off <= target.MaxOffset()
      modifies this`prevrightlink, this`previncompletesplit
      ensures Agrees(idx, v, fuel, ChildWalk(idx, old(Task(off))), Here())
      ensures old(Steady(Sought(off))) && v.Pass? ==> !previncompletesplit
      ensures old(Steady(Sought(off))) && Sought(off) != P_NONE ==>
                var j := off - target.FirstDataKey();
                var blk := DataItem(target, j).downlink;
                && (v.Pass? ==> HighKeyOk(idx, target, j) && Continues(idx, old(prevrightlink), blk))
                && (fuel > 0 && HighKeyOk(idx, target, j) && Continues(idx, old(prevrightlink), blk) ==> v.Pass?)
                && (v.Pass? ==> prevrightlink == idx.pages[blk].next)
      ensures old(Steady(Sought(off))) && Sought(off) == P_NONE ==>
                && (v.Pass? ==> old(prevrightlink) in {P_NONE, INVALID_BLOCK} && prevrightlink == INVALID_BLOCK)
                && (fuel > 0 && old(prevrightlink) in {P_NONE, INVALID_BLOCK} ==> v.Pass?)
      ensures Plain(idx) && old(prevrightlink) == INVALID_BLOCK == Sought(off) ==> !v.Pass?
    {
      TargetInternal();
      hide PageSane, HighKeyOk, Continues, ChildWalk, Arrives, NotDeleted, ReadPage;
      ghost var e := Task(off);
      if Steady(Sought(off)) {
        if Sought(off) == P_NONE {
          SteadyEnd(idx, e);
        } else {
          SteadyChild(idx, e, off - target.FirstDataKey());
        }
      }
      if Plain(idx) && prevrightlink == INVALID_BLOCK == Sought(off) { InvalidStops(idx, e); }
      v := ChildLevelWalk(off, fuel);
    }

    /** bt_child_check: the child lies above the separator of its downlink. */
    method ChildCheck(off: nat, fuel: nat) returns (v: Verdict)
      requires TargetValid() && !target.leaf && target.level <= idx.rootLevel
      requires target.FirstDataKey() < off <= target.MaxOffset()
      modifies this`prevrightlink, this`previncompletesplit
      ensures Agrees(idx, v, fuel, DownlinkWalk(idx, old(Task(off))), Here())
      ensures v.Pass? ==> ChildAbove(idx, target, off)
      ensures old(Steady(Sought(off))) && v.Pass? ==> !previncompletesplit
      ensures old(Steady(Sought(off))) && Sought(off) != P_NONE ==>
                var j := off - target.FirstDataKey();
                var blk := DataItem(target, j).downlink;
                && (v.Pass? ==> ChildOk(idx, target, j) && Continues(idx, old(prevrightlink), blk))
                && (v.Pass? ==> !idx.pages[blk].deleted && prevrightlink == idx.pages[blk].next)
                && (fuel > 0 && ChildOk(idx, target, j) && ContinuesLive(idx, old(prevrightlink), blk) ==> v.Pass?)
      ensures Plain(idx) && old(prevrightlink) == INVALID_BLOCK == Sought(off) ==> !v.Pass?
    {
      hide PageSane, PivotIdentical, InvariantL, Plain, ChildWalk;
      var key := PivotSearchKey(target.Item(off));
      var childblk := target.Item(off).downlink;
      ghost var j: nat := off - target.FirstDataKey();
      assert DataItem(target, j) == target.Item(off);
      var child := ReadPage(idx, childblk);
      if child.None? { return Corrupt("unreadable block"); }
      var c := child.value;
      v := ChildHighKeyCheck(off, fuel);
      if !v.Pass? { return v; }
      if c.deleted { return Corrupt("downlink to deleted page found"); }
      var o := c.FirstDataKey();
      while o <= c.MaxOffset()
        invariant c.FirstDataKey() <= o
        invariant forall k | c.FirstDataKey() <= k < o && k <= c.MaxOffset() && !c.NegativeInfinity(k) ::
                    InvariantL(key, c, k)
      {
        if !c.NegativeInfinity(o) && !InvariantL(key, c, o) {
          return Corrupt("down-link lower bound invariant violated");
        }
        o := o + 1;
      }
      assert BoundsChild(key, c);
      return Pass;
    }

    lemma TargetInternal()
      requires TargetValid() && !target.leaf
      ensures target.level >= 1 && DataCount(target) > 0
    {
    }

    /** bt_right_page_check_scankey: the first item of the next live page to the right, if any. */
    method RightPageKey(fuel: nat) returns (v: Verdict, key: Option<Tuple>)
      requires TargetValid()
      ensures target.Rightmost() ==> v.Pass? && key.None?
      ensures !target.Rightmost() ==>
                && (v.Pass? <==> RightInUse(idx, target.next, fuel).Some?)
                && (v.Pass? ==> key == FirstRealItem(RightInUse(idx, target.next, fuel).value))
      ensures !target.Rightmost() ==>
                && (v.Diverged? && fuel > |idx.pages| ==> RightRuns(idx, target.next))
                && (RightRuns(idx, target.next) ==> v.Diverged?)
                && (v.Corrupt? ==> !RightRuns(idx, target.next) && forall n :: RightInUse(idx, target.next, n).None?)
      ensures !target.Rightmost() && Plain(idx) && NextLive() ==>
                && (v.Pass? ==> ReadPage(idx, target.next).Some? && key == FirstRealItem(idx.pages[target.next]))
                && (fuel > 0 && ReadPage(idx, target.next).Some? ==> v.Pass?)
                && (fuel > 0 ==> !v.Diverged?)
    {
      key := None;
      if target.Rightmost() { return Pass, None; }
      if RightRuns(idx, target.next) { RunsNowhere(idx, target.next, fuel); }
      var targetnext: nat := target.next;
      var left: nat := fuel;
      ghost var k := 0;
      while true
        invariant left <= fuel && RightInUse(idx, target.next, fuel) == RightInUse(idx, targetnext, left)
        invariant k == fuel - left && targetnext == RightAt(idx, target.next, k) && targetnext != P_NONE
        invariant forall i: nat | i < k :: Overlooked(idx, RightAt(idx, target.next, i))
        invariant Plain(idx) && NextLive() ==> targetnext == target.next && left == fuel
        decreases left
      {
        if left == 0 {
          if fuel > |idx.pages| { OverlookedForever(idx, target.next, fuel); }
          return Diverged, None;
        }
        left := left - 1;
        var read := ReadPage(idx, targetnext);
        if read.None? {
          NoneInUse(idx, target.next, k);
          return Corrupt("unreadable block"), None;
        }
        if Plain(idx) && NextLive() { PlainLinked(idx, targetnext); }
        var right := read.value;
        if !right.Ignore() || right.Rightmost() {
          return Pass, FirstRealItem(right);
        }
        targetnext := right.next;
        k := k + 1;
      }
    }

    /** The checks of one data item that do not look at other pages. */
    method ItemCheck(off: nat) returns (v: Verdict)
      requires TargetValid() && target.FirstDataKey() <= off <= target.MaxOffset()
      requires !target.Rightmost() ==> target.HasItem(P_HIKEY)
      ensures v.Pass? <==> ItemOk(idx.nkeyatts, target, off)
      ensures !v.Diverged?
    {
      if !AttsOk(idx.nkeyatts, target, off) { return Corrupt("wrong number of index tuple attributes"); }
      if target.NegativeInfinity(off) { return Pass; }
      var key := PivotSearchKey(target.Item(off));
      if !target.Rightmost() &&
         !(if target.leaf then InvariantLeq(key, target, P_HIKEY) else InvariantL(key, target, P_HIKEY)) {
        return Corrupt("high key invariant violated");
      }
      if off + 1 <= target.MaxOffset() && !InvariantL(key, target, off + 1) {
        return Corrupt("item order invariant violated");
      }
      return Pass;
    }

    /** The last item against the first item of the page to the right. */
    method LastItemCheck(fuel: nat) returns (v: Verdict)
      requires TargetValid() && LastItemReal(target)
      ensures v.Pass? <==> BelowInUse(idx, target, fuel)
      ensures Agrees(idx, v, fuel, LastWalk(idx, target, Here()), Here())
      ensures Plain(idx) && NextLive() ==>
                && (v.Pass? ==> CrossPage(idx, target)) && (CrossPage(idx, target) && fuel > 0 ==> v.Pass?)
                && (fuel > 0 ==> !v.Diverged?)
    {
      hide RightRuns, RightInUse;
      if !target.Rightmost() { InUseOnce(idx, target, fuel); }
      var rightkey;
      v, rightkey := RightPageKey(fuel);
      if !v.Pass? { return v; }
      if rightkey.Some? && !InvariantG(PivotSearchKey(rightkey.value), target, target.MaxOffset()) {
        return Corrupt("cross page item order invariant violated");
      }
      return Pass;
    }

    /** A zero downlink where a level begins. */
    ghost predicate Skipped(off: nat, before: seq<nat>)
      requires target.HasItem(off)
      reads this`target
    {
      before == [] && target.NegativeInfinity(off) && Sought(off) == P_NONE
    }

    /** The downlink of one item of an internal page. */
    method DownlinkCheck(off: nat, fuel: nat, ghost before: seq<nat>) returns (v: Verdict)
      requires TargetValid() && !target.leaf && target.level <= idx.rootLevel
      requires target.FirstDataKey() <= off <= target.MaxOffset()
      modifies this`prevrightlink, this`previncompletesplit
      ensures Agrees(idx, v, fuel, DownlinkWalk(idx, old(Task(off))), Here())
      ensures v.Pass? ==> ChildAbove(idx, target, off)
      ensures old(Steady(Sought(off))) && v.Pass? ==> !previncompletesplit
      ensures old(Steady(Sought(off)) && OnRun(before)) && Sought(off) != P_NONE ==>
                var j := off - target.FirstDataKey();
                var d := before + [Sought(off)];
                && (v.Pass? ==> ChildOk(idx, target, j) && ChildRun(idx, d) && prevrightlink == RunEnd(idx, d))
                && (fuel > 0 && ChildOk(idx, target, j) && ChildRun(idx, d) ==> v.Pass?)
      ensures old(Steady(Sought(off)) && OnRun(before)) && Skipped(off, before) ==>
                (v.Pass? ==> prevrightlink == INVALID_BLOCK) && (fuel > 0 ==> v.Pass?)
      ensures Plain(idx) && old(prevrightlink) == INVALID_BLOCK == Sought(off) ==> !v.Pass?
    {
      hide PageSane, PivotIdentical, Plain, BoundsChild, ChildRun, UpperKey, ChildWalk;
      ghost var j: nat := off - target.FirstDataKey();
      ghost var blk := Sought(off);
      assert DataItem(target, j).downlink == blk;
      if Steady(blk) && OnRun(before) && blk != P_NONE {
        if blk in idx.pages && !idx.pages[blk].deleted { ContinuesIff(idx, before, blk); }
        NotReadNotRun(idx, before, blk);
        if before == [] { assert prevrightlink == INVALID_BLOCK; }
      }
      if target.NegativeInfinity(off) {
        v := ChildHighKeyCheck(off, fuel);
      } else {
        v := ChildCheck(off, fuel);
      }
    }

    /** What is asked of one data item, the pages around it included. */
    ghost predicate ItemClean(off: nat, before: seq<nat>)
      requires target.FirstDataKey() <= off <= target.MaxOffset()
      reads this`target
    {
      && ItemOk(idx.nkeyatts, target, off)
      && (off == target.MaxOffset() && !target.NegativeInfinity(off) ==> CrossPage(idx, target))
      && (!target.leaf && !Skipped(off, before) ==>
            ChildOk(idx, target, off - target.FirstDataKey()) && ChildRun(idx, before + [Sought(off)]))
    }

    /** The state in which an item can be judged. */
    ghost predicate Ready(off: nat, before: seq<nat>)
      requires target.HasItem(off)
      reads this`target, this`prevrightlink, this`previncompletesplit
    {
      && Plain(idx) && NextLive()
      && (!target.leaf ==>
            Steady(Sought(off)) && OnRun(before) && (Sought(off) != P_NONE || Skipped(off, before)))
    }

    /** The body of the loop of bt_target_page_check. */
    method ItemStep(off: nat, fuel: nat, ghost before: seq<nat>) returns (v: Verdict)
      requires TargetValid() && target.level <= idx.rootLevel
      requires target.FirstDataKey() <= off <= target.MaxOffset()
      requires !target.Rightmost() ==> target.HasItem(P_HIKEY)
      modifies this`prevrightlink, this`previncompletesplit
      ensures target.leaf ==> prevrightlink == old(prevrightlink) && previncompletesplit == old(previncompletesplit)
      ensures Agrees(idx, v, fuel, ItemWalk(idx, old(Task(off))), Here())
      ensures v.Pass? ==> ItemUpright(idx, target, off)
      ensures old(Ready(off, before)) ==>
                (v.Pass? ==> ItemClean(off, before)) && (fuel > 0 && ItemClean(off, before) ==> v.Pass?)
      ensures old(Ready(off, before)) && v.Pass? ==>
                !target.leaf ==>
                  && !previncompletesplit
                  && prevrightlink == RunEnd(idx, if Skipped(off, before) then before else before + [Sought(off)])
      ensures Plain(idx) && !target.leaf && old(prevrightlink) == INVALID_BLOCK == Sought(off) ==> !v.Pass?
    {
      hide PageSane, Plain, ChildRun, ChildOk, CrossPage, ItemOk, NotDeleted, ChildAbove, BelowInUse, LastWalk,
        DownlinkWalk, LastBelow;
      if target.leaf { LeafAbove(idx, target, off); }
      NoLastItem(idx, target);
      v := ItemCheck(off);
      if !v.Pass? { return v; }
      if off == target.MaxOffset() && !target.NegativeInfinity(off) {
        v := LastItemCheck(fuel);
        if !v.Pass? { return v; }
        LastFound(idx, target, fuel);
      }
      if !target.leaf {
        NoRun(idx);
        v := DownlinkCheck(off, fuel, before);
      }
    }

    /** The state in which a page can be judged: no link that matters leads to a deleted page, and no downlink
        is zero unless it is the first of the level. */
    ghost predicate CalmAt(p: Page, before: seq<nat>)
      reads this`prevrightlink, this`previncompletesplit
    {
      && Plain(idx) && (p.next == P_NONE || NotDeleted(idx, p.next))
      && (!p.leaf ==>
            && !previncompletesplit && OnRun(before)
            && (forall j | Skip(p, before) <= j < DataCount(p) :: DataItem(p, j).downlink != P_NONE)
            && (RunAfter(p, before) != [] ==> Alive(idx, RunAfter(p, before)[0])))
    }

    ghost predicate Calm(before: seq<nat>)
      reads this`target, this`prevrightlink, this`previncompletesplit
    {
      CalmAt(target, before)
    }

    /** Part of the way along a page the next item can be judged. */
    lemma CalmReady(before: seq<nat>, run: seq<nat>, n: nat, off: nat)
      requires Plain(idx) && NextLive() && !previncompletesplit && OnRun(run) && !target.leaf
      requires n < DataCount(target) && off == target.FirstDataKey() + n
      requires forall j | Skip(target, before) <= j < DataCount(target) :: DataItem(target, j).downlink != P_NONE
      requires RunAfter(target, before) != [] ==> Alive(idx, RunAfter(target, before)[0])
      requires run == RunSoFar(target, before, n)
      ensures Ready(off, run) && (Skipped(off, run) <==> n < Skip(target, before))
    {
      hide ChildRun, Alive, Plain;
      assert DataItem(target, n) == target.Item(off);
      var d := RunAfter(target, before);
      if run != [] {
        assert run[0] == d[0];
        AliveRun(idx, run);
      } else {
        NoRun(idx);
        if n >= Skip(target, before) {
          assert d[0] == PageDownlinks(target)[n];
          AliveNext(idx, d[0]);
        }
      }
    }

    /** What the loop asks of an item is what the page needs of it. */
    lemma ItemIs(before: seq<nat>, run: seq<nat>, n: nat, off: nat)
      requires n < DataCount(target) && off == target.FirstDataKey() + n && run == RunSoFar(target, before, n)
      requires Skipped(off, run) <==> n < Skip(target, before)
      ensures ItemClean(off, run) <==> ItemGood(idx, target, before, n)
    {
      hide ChildRun, ChildOk, CrossPage, ItemOk;
      assert DataItem(target, n) == target.Item(off);
      RunStep(idx, target, before, n);
    }

    lemma LeafItemIs(before: seq<nat>, n: nat, off: nat)
      requires n < DataCount(target) && off == target.FirstDataKey() + n && target.leaf
      ensures ItemClean(off, before) <==> ItemGood(idx, target, before, n)
    {
      hide ChildRun, ChildOk, CrossPage, ItemOk;
    }

    /** One round of the loop of bt_target_page_check. */
    method ItemRound(off: nat, fuel: nat, ghost before: seq<nat>) returns (v: Verdict)
      requires TargetValid() && target.level <= idx.rootLevel
      requires target.FirstDataKey() <= off <= target.MaxOffset()
      requires !target.Rightmost() ==> target.HasItem(P_HIKEY)
      modifies this`prevrightlink, this`previncompletesplit
      ensures Agrees(idx, v, fuel, ItemWalk(idx, old(Task(off))), Here())
      ensures v.Pass? ==> ItemUpright(idx, target, off)
      ensures target.leaf ==> prevrightlink == old(prevrightlink) && previncompletesplit == old(previncompletesplit)
      ensures old(MidPage(before, off - target.FirstDataKey())) ==>
                var good := ItemGood(idx, target, before, off - target.FirstDataKey());
                && (v.Pass? ==> good && MidPage(before, off - target.FirstDataKey() + 1))
                && (fuel > 0 && good ==> v.Pass?)
      ensures Plain(idx) && !target.leaf && old(prevrightlink) == INVALID_BLOCK == target.Item(off).downlink ==>
                !v.Pass?
    {
      hide PageSane, Plain, ChildRun, ChildOk, ItemOk, ReadPage, NotDeleted, CrossPage, ItemWalk, Alive, RunSoFar,
        RunAfter, Skip, ItemGood, Skipped, ItemClean, Ready, RunEnd, ItemUpright;
      ghost var n: nat := off - target.FirstDataKey();
      ghost var run := RunSoFar(target, before, n);
      ghost var mid := MidPage(before, n);
      if mid {
        if target.leaf {
          LeafReady(off, run);
          LeafItemIs(run, n, off);
          ItemGoodLeaf(idx, target, run, before, n);
        } else {
          CalmReady(before, run, n, off);
          ItemIs(before, run, n, off);
        }
      }
      v := ItemStep(off, fuel, run);
      if mid && v.Pass? && !target.leaf { MidNext(before, run, n, off); }
    }

    /** The state after an item that passed. */
    lemma MidNext(before: seq<nat>, run: seq<nat>, n: nat, off: nat)
      requires n < DataCount(target) && off == target.FirstDataKey() + n && run == RunSoFar(target, before, n)
      requires ItemGood(idx, target, before, n) && ChildRun(idx, run) && !target.leaf
      requires Skipped(off, run) <==> n < Skip(target, before)
      requires RunAfter(target, before) != [] ==> Alive(idx, RunAfter(target, before)[0])
      requires ItemClean(off, run)
      requires prevrightlink == RunEnd(idx, if Skipped(off, run) then run else run + [Sought(off)])
      ensures OnRun(RunSoFar(target, before, n + 1))
    {
      hide ChildRun, ChildOk, CrossPage, ItemOk, Alive, RunEnd;
      assert DataItem(target, n) == target.Item(off);
      RunStep(idx, target, before, n);
      RunLinked(idx, target, before, n + 1);
    }

    lemma LeafReady(off: nat, run: seq<nat>)
      requires target.HasItem(off) && target.leaf && Plain(idx) && NextLive()
      ensures Ready(off, run)
    {
    }

    /** Part of the way along a page in a calm state. */
    ghost predicate MidPage(before: seq<nat>, n: nat)
      requires n <= DataCount(target)
      reads this`target, this`prevrightlink, this`previncompletesplit
    {
      && Plain(idx) && NextLive()
      && (!target.leaf ==>
            && !previncompletesplit && OnRun(RunSoFar(target, before, n))
            && (forall j | Skip(target, before) <= j < DataCount(target) :: DataItem(target, j).downlink != P_NONE)
            && (RunAfter(target, before) != [] ==> Alive(idx, RunAfter(target, before)[0])))
    }

    /** The loop of bt_target_page_check. */
    method ItemLoop(fuel: nat, ghost before: seq<nat>) returns (v: Verdict)
      requires TargetValid() && target.level <= idx.rootLevel
      requires !target.Rightmost() ==> target.HasItem(P_HIKEY)
      modifies this`prevrightlink, this`previncompletesplit
      ensures Agrees(idx, v, fuel, ItemsWalk(idx, target, lowkey, old(Here()), DataCount(target)), Here())
      ensures v.Pass? ==>
                forall off | target.FirstDataKey() <= off <= target.MaxOffset() :: ItemUpright(idx, target, off)
      ensures target.leaf ==> prevrightlink == old(prevrightlink) && previncompletesplit == old(previncompletesplit)
      ensures old(Calm(before)) ==>
                var good := forall n | 0 <= n < DataCount(target) :: ItemGood(idx, target, before, n);
                && (v.Pass? ==> good && MidPage(before, DataCount(target)))
                && (fuel > 0 && good ==> v.Pass?)
      ensures Plain(idx) && !target.leaf && old(prevrightlink) == INVALID_BLOCK == DataItem(target, 0).downlink ==>
                !v.Pass?
    {
      hide PageSane, Plain, ItemGood, MidPage, ReadPage, PageDownlinks, ItemUpright, ItemWalk, ItemsWalk;
      ghost var calm := Calm(before);
      if !target.leaf { TargetInternal(); }
      if calm { CalmMid(before); }
      ItemsStart(idx, target, lowkey, Here());
      var off := target.FirstDataKey();
      while off <= target.MaxOffset()
        invariant target.FirstDataKey() <= off <= target.FirstDataKey() + DataCount(target)
        invariant off == target.FirstDataKey() ==> prevrightlink == old(prevrightlink)
        invariant ItemsWalk(idx, target, lowkey, old(Here()), off - target.FirstDataKey()) == Go(Here())
        invariant forall o | target.FirstDataKey() <= o < off && o <= target.MaxOffset() ::
                    ItemUpright(idx, target, o)
        invariant calm ==> MidPage(before, off - target.FirstDataKey())
        invariant calm ==> forall n | 0 <= n < off - target.FirstDataKey() :: ItemGood(idx, target, before, n)
        invariant target.leaf ==>
                    prevrightlink == old(prevrightlink) && previncompletesplit == old(previncompletesplit)
        invariant Plain(idx) && !target.leaf && old(prevrightlink) == INVALID_BLOCK == DataItem(target, 0).downlink ==>
                    off == target.FirstDataKey()
      {
        ItemsNext(idx, Task(off), old(Here()));
        v := ItemRound(off, fuel, before);
        if !v.Pass? { return v; }
        off := off + 1;
      }
      return Pass;
    }

    lemma CalmMid(before: seq<nat>)
      requires Calm(before)
      ensures MidPage(before, 0)
    {
      RunStarts(target, before);
    }

    /** bt_target_page_check, with the child checks of a readonly caller. */
    method TargetPageCheck(fuel: nat, ghost before: seq<nat>) returns (v: Verdict)
      requires TargetValid() && target.level <= idx.rootLevel
      modifies this`prevrightlink, this`previncompletesplit
      ensures Agrees(idx, v, fuel, TargetWalk(idx, target, lowkey, old(Here())), Here())
      ensures v.Pass? ==> Upright(idx, target)
      ensures target.leaf ==> prevrightlink == old(prevrightlink) && previncompletesplit == old(previncompletesplit)
      ensures old(Calm(before)) ==>
                && (v.Pass? ==> TargetClean(idx, target, before))
                && (fuel > 0 && TargetClean(idx, target, before) ==> v.Pass?)
      ensures old(Calm(before)) && v.Pass? ==> CalmAfter(before)
      ensures Plain(idx) && !target.leaf && old(prevrightlink) == INVALID_BLOCK == FirstNext(target).leftmost ==>
                !v.Pass?
    {
      hide PageSane, Plain, ChildRun, ChildOk, CrossPage, ItemOk, AttsOk, RunAfter, ReadPage, Skip, ItemGood, Alive,
        ItemUpright, Upright, ItemsWalk, ChildWalk;
      if !target.leaf { TargetInternal(); }
      ghost var calm := Calm(before);
      if !target.Rightmost() {
        if !target.HasItem(P_HIKEY) { return Corrupt("invalid line pointer storage"); }
        if !AttsOk(idx.nkeyatts, target, P_HIKEY) {
          return Corrupt("wrong number of high key index tuple attributes");
        }
      }
      if calm { ItemsGood(idx, target, before); }
      v := ItemLoop(fuel, before);
      if !v.Pass? { return v; }
      ItemsUpright(idx, target);
      if calm { MidEnd(before); }
      if !target.leaf && target.Rightmost() {
        v := ChildHighKeyCheck(0, fuel);
      }
    }

    /** At the end of a page the run of children is complete. */
    lemma MidEnd(before: seq<nat>)
      requires MidPage(before, DataCount(target))
      ensures !target.leaf ==> !previncompletesplit && OnRun(RunAfter(target, before)) && Steady(P_NONE)
    {
      hide ChildRun, Alive, Plain, Skip;
      RunComplete(target, before);
      if !target.leaf && RunAfter(target, before) != [] { AliveRun(idx, RunAfter(target, before)); }
    }

    /** What the level walk asks of a page in use: the first must be leftmost, and the root where the
        root belongs; the others must name their left neighbour. */
    ghost predicate PageFits(p: Page, level: BtreeLevel, isFirst: bool, leftcurrent: nat, before: seq<nat>) {
      && p.level == level.level
      && (isFirst ==> p.prev == P_NONE && (level.isTrueRootLevel ==> p.root))
      && (leftcurrent != P_NONE ==> p.prev == leftcurrent)
      && TargetClean(idx, p, before)
    }

    /** Where the walk along the child level is after a page that passed in a calm state. */
    ghost predicate CalmAfter(before: seq<nat>)
      reads this`target, this`prevrightlink, this`previncompletesplit
    {
      !target.leaf ==>
        && !previncompletesplit
        && ChildRun(idx, RunAfter(target, before))
        && prevrightlink == if target.Rightmost() then INVALID_BLOCK else RunEnd(idx, RunAfter(target, before))
    }

    /** The part of the level walk that handles a page in use. */
    method LevelPageCheck(level: BtreeLevel, leftcurrent: nat, next0: BtreeLevel, fuel: nat, ghost before: seq<nat>)
      returns (v: Verdict, next: BtreeLevel)
      requires TargetValid() && level.level <= idx.rootLevel
      modifies this`prevrightlink, this`previncompletesplit
      ensures var fits := SpotFits(idx, level, Spot(leftcurrent, targetblock, next0, lowkey, old(Here())), target);
              var step := TargetWalk(idx, target, lowkey, old(Here()));
              && (v.Pass? ==> fits && step == Go(Here()))
              && (v.Corrupt? ==> !fits || step == Stop)
              && (v.Diverged? && Ample(idx, fuel) ==> fits && step == Endless)
      ensures v.Pass? ==> Upright(idx, target) && (leftcurrent != P_NONE ==> target.prev == leftcurrent)
      ensures v.Pass? ==> target.level == level.level
      ensures target.leaf ==> Here() == old(Here())
      ensures v.Pass? ==> next == if next0.leftmost == INVALID_BLOCK then FirstNext(target) else next0
      ensures Plain(idx) && v.Pass? && next0.leftmost == INVALID_BLOCK == old(prevrightlink) ==>
                next.leftmost != INVALID_BLOCK
      ensures old(Calm(before)) ==>
                var good := PageFits(target, level, next0.leftmost == INVALID_BLOCK, leftcurrent, before);
                (v.Pass? ==> good && CalmAfter(before)) && (good && fuel > 0 ==> v.Pass?)
    {
      hide PageSane, Plain, TargetClean, LeftPath, LeftOf, RunEnd, ChildRun, RunAfter, NotDeleted, Calm, Alive, Upright,
        TargetWalk, Leftmost;
      CalmPlain(before);
      if Plain(idx) { LiveTarget(); }
      if !target.leaf { TargetInternal(); }
      next := next0;
      if next.leftmost == INVALID_BLOCK {
        var leftmost := IsLeftmost(targetblock, target);
        if !leftmost { return Corrupt("block is not leftmost"), next; }
        if level.isTrueRootLevel && !target.root { return Corrupt("block is not true root"), next; }
        if !target.leaf {
          if !target.HasItem(target.FirstDataKey()) { return Corrupt("invalid line pointer storage"), next; }
          next := BtreeLevel(LevelBelow(target.level), target.Item(target.FirstDataKey()).downlink, false);
        } else {
          next := BtreeLevel(0xFFFF_FFFF, P_NONE, false);
        }
      }
      assert next == if next0.leftmost == INVALID_BLOCK then FirstNext(target) else next0;
      if target.prev != leftcurrent && leftcurrent != P_NONE {
        return Corrupt("left link/right link pair not in agreement"), next;
      }
      if level.level != target.level { return Corrupt("leftmost down link is not one level down"), next; }
      v := TargetPageCheck(fuel, before);
    }

    lemma LiveTarget()
      requires TargetValid() && Plain(idx)
      ensures NotDeleted(idx, targetblock)
    {
    }

    lemma CalmPlain(before: seq<nat>)
      ensures Calm(before) ==> Plain(idx)
    {
    }

    /** One page of bt_check_level_from_leftmost. */
    method VisitPage(level: BtreeLevel, leftcurrent: nat, current: nat, next0: BtreeLevel, fuel: nat,
                     ghost before: seq<nat>)
      returns (v: Verdict, next: BtreeLevel)
      requires level.level <= idx.rootLevel && current != P_NONE
      modifies this`target, this`targetblock, this`prevrightlink, this`previncompletesplit
      ensures Follows(idx, v, fuel, PageWalk(idx, level, Spot(leftcurrent, current, next0, lowkey, old(Here()))),
                      Spot(current, target.next, next, LowAfter(target), Here()))
      ensures v.Pass? ==> ReadPage(idx, current) == Some(target) && Stands(idx, level.level, leftcurrent, current)
      ensures target.leaf ==> Here() == old(Here())
      ensures Plain(idx) && v.Pass? && next0.leftmost == INVALID_BLOCK == old(prevrightlink) ==>
                next.leftmost != INVALID_BLOCK
      ensures current in idx.pages && old(CalmAt(idx.pages[current], before)) ==>
                var p := idx.pages[current];
                var good := && ReadPage(idx, current).Some? && !p.deleted && p.prev != current && current != leftcurrent
                            && PageFits(p, level, next0.leftmost == INVALID_BLOCK, leftcurrent, before);
                (v.Pass? ==> good && CalmAfter(before)) && (good && fuel > 0 ==> v.Pass?)
    {
      hide PageSane, Plain, TargetClean, RunEnd, ChildRun, RunAfter, NotDeleted, Alive, Skip, OnRun, Upright,
        TargetWalk, SpotFits, LowAfter, PageWalk, PageFits, CalmAfter, FirstNext, ReadPage;
      next := next0;
      targetblock := current;
      var read := ReadPage(idx, targetblock);
      VisitCases(idx, level, Spot(leftcurrent, current, next0, lowkey, Here()));
      if read.None? { return Corrupt("unreadable block"), next; }
      target := read.value;
      ReadLive(idx, current);
      if Plain(idx) && !target.deleted { PlainLive(idx, current); }
      if target.Ignore() {
        if target.deleted { return Corrupt("downlink or sibling link points to deleted block"), next; }
        if target.Rightmost() { return Corrupt("block fell off the end of index"), next; }
      } else {
        FirstNextBelow(idx, current);
        v, next := LevelPageCheck(level, leftcurrent, next, fuel, before);
        if !v.Pass? { return v, next; }
      }
      if current == leftcurrent || current == target.prev {
        return Corrupt("circular link chain found"), next;
      }
      if !target.Rightmost() && !target.HasItem(P_HIKEY) { return Corrupt("invalid line pointer storage"), next; }
      return Pass, next;
    }

    /** On a fair level the next page is met in a calm state. */
    lemma VisitCalm(level: BtreeLevel, vs: seq<nat>, leftcurrent: nat, current: nat, next: BtreeLevel)
      requires Fair(idx, level.leftmost) && !previncompletesplit
      requires LevelInv(idx, level, vs, leftcurrent, current, next, prevrightlink)
      requires Trail(idx, level.leftmost, vs, current) && current != P_NONE
      requires ReadPage(idx, current).Some? && !idx.pages[current].Ignore() && idx.pages[current].level == level.level
      ensures InFile(idx, vs) && NonZero(idx.pages[current])
      ensures CalmAt(idx.pages[current], Kids(idx, level.level, vs))
    {
      hide Plain, LevelInv, Trail, Clear, Alive, ChildRun, RunAfter, Skip;
      TrailStep(idx, level.leftmost, vs, current);
      var p := idx.pages[current];
      InvCalm(idx, level, vs, leftcurrent, current, next, prevrightlink, p);
      InvFacts(idx, level, vs, leftcurrent, current, next, prevrightlink);
      NothingSkipped(idx, p, Kids(idx, level.level, vs));
    }

    /** Where the walk of a fair level is. */
    ghost predicate Midway(level: BtreeLevel, vs: seq<nat>, leftcurrent: nat, current: nat, next: BtreeLevel)
      reads this`prevrightlink, this`previncompletesplit
    {
      && Fair(idx, level.leftmost) && !previncompletesplit && Trail(idx, level.leftmost, vs, current)
      && LevelInv(idx, level, vs, leftcurrent, current, next, prevrightlink)
    }

    /** At the start of a level that begins with a zero downlink. */
    ghost predicate AtHead(level: BtreeLevel, leftcurrent: nat, current: nat, next: BtreeLevel)
      reads this`prevrightlink, this`previncompletesplit
    {
      && Plain(idx) && Headless(idx, level) && current == level.leftmost && leftcurrent == P_NONE
      && prevrightlink == INVALID_BLOCK == next.leftmost && !previncompletesplit
    }

    lemma HeadNotFair(level: BtreeLevel, leftcurrent: nat, current: nat, next: BtreeLevel)
      requires AtHead(level, leftcurrent, current, next)
      ensures !Fair(idx, level.leftmost)
    {
      hide Fair, Headless;
      HeadlessNotFair(idx, level);
    }

    lemma HeadCalm(level: BtreeLevel, leftcurrent: nat, current: nat, next: BtreeLevel)
      requires AtHead(level, leftcurrent, current, next)
      ensures current in idx.pages && ReadPage(idx, current).Some?
      ensures var p := idx.pages[current];
              && CalmAt(p, []) && !p.Ignore() && p.Rightmost() && p.prev != current
              && PageFits(p, level, true, leftcurrent, [])
    {
      hide Plain, TargetClean, Alive, RunAfter, Skip, ChildRun;
      ReadLive(idx, current);
      HeadlessCalm(idx, level);
      NoRun(idx);
    }

    /** A page of a fair level that passed takes the walk one page further, or to its end. */
    lemma RoundEnd(level: BtreeLevel, vs: seq<nat>, leftcurrent: nat, current: nat, next0: BtreeLevel,
                   next: BtreeLevel, prevright: nat)
      requires Fair(idx, level.leftmost) && Trail(idx, level.leftmost, vs, current)
      requires LevelInv(idx, level, vs, leftcurrent, current, next0, prevright) && InFile(idx, vs)
      requires ReadPage(idx, current) == Some(target) && current != P_NONE && !target.Ignore() && NonZero(target)
      requires PageFits(target, level, vs == [], leftcurrent, Kids(idx, level.level, vs))
      requires next == if vs == [] then FirstNext(target) else next0
      requires target.leaf ==> prevrightlink == prevright && !previncompletesplit
      requires CalmAfter(Kids(idx, level.level, vs))
      ensures if target.Rightmost() then LevelResult(idx, level, vs + [current], next)
              else Midway(level, vs + [current], current, target.next, next)
    {
      hide Plain, Clear, Alive, TargetClean, FirstNext, ChildRun, RunAfter, Trail, LevelResult, Fair;
      ReadLive(idx, current);
      InvFacts(idx, level, vs, leftcurrent, current, next0, prevright);
      InvStep(idx, level, vs, leftcurrent, current, next0, prevright, target, next);
      TrailStep(idx, level.leftmost, vs, current);
    }

    /** What a page of a level does to the walk. */
    method LevelRound(level: BtreeLevel, leftcurrent: nat, current: nat, next0: BtreeLevel, fuel: nat,
                      ghost vs: seq<nat>, ghost goal: seq<nat>)
      returns (v: Verdict, next: BtreeLevel)
      requires level.level <= idx.rootLevel && current != P_NONE
      modifies this`target, this`targetblock, this`prevrightlink, this`previncompletesplit
      ensures Follows(idx, v, fuel, PageWalk(idx, level, Spot(leftcurrent, current, next0, lowkey, old(Here()))),
                      Spot(current, target.next, next, LowAfter(target), Here()))
      ensures v.Pass? ==> ReadPage(idx, current) == Some(target) && Stands(idx, level.level, leftcurrent, current)
      ensures Plain(idx) && v.Pass? && next0.leftmost != INVALID_BLOCK ==> next == next0
      ensures Plain(idx) && v.Pass? && next0.leftmost == INVALID_BLOCK == old(prevrightlink) ==>
                next.leftmost == FirstChild(idx, current) != INVALID_BLOCK
      ensures old(Midway(level, vs, leftcurrent, current, next0)) && v.Pass? ==>
                if target.Rightmost() then LevelResult(idx, level, vs + [current], next)
                else Midway(level, vs + [current], current, target.next, next)
      ensures old(Midway(level, vs, leftcurrent, current, next0)) && LevelGoal(idx, level, goal) &&
              OnGoal(goal, vs, current) && fuel > 0 ==>
                v.Pass? && (!target.Rightmost() ==> OnGoal(goal, vs + [current], target.next))
      ensures old(AtHead(level, leftcurrent, current, next0)) && fuel > 0 ==> v.Pass? && target.Rightmost()
    {
      hide AtHead, PageSane, Plain, LevelGoal, LevelInv, TargetClean, LevelResult, FirstNext, RunEnd, ChildRun,
        RunAfter, Skip, NotDeleted, OnGoal, Trail, Alive, Clear, OnRun, CalmAt, FirstChild, ReadPage, Fair, Kids,
        Stands, PageWalk, LowAfter, CalmAfter;
      ghost var mid := Midway(level, vs, leftcurrent, current, next0);
      ghost var before: seq<nat> := [];
      ghost var here := Spot(leftcurrent, current, next0, lowkey, Here());
      if mid {
        InvFacts(idx, level, vs, leftcurrent, current, next0, prevrightlink);
        FairPlain(idx, level.leftmost);
        InvFirst(idx, level, vs, leftcurrent, current, next0, prevrightlink);
        before := Kids(idx, level.level, vs);
        if LevelGoal(idx, level, goal) && OnGoal(goal, vs, current) { GoalFacts(idx, level, goal, vs, current); }
        if ReadPage(idx, current).Some? {
          ReadLive(idx, current);
          if !idx.pages[current].deleted {
            PlainLive(idx, current);
            if idx.pages[current].level == level.level { VisitCalm(level, vs, leftcurrent, current, next0); }
          }
        }
      }
      if AtHead(level, leftcurrent, current, next0) {
        HeadNotFair(level, leftcurrent, current, next0);
        HeadCalm(level, leftcurrent, current, next0);
      }
      v, next := VisitPage(level, leftcurrent, current, next0, fuel, before);
      if v.Pass? {
        ReadLive(idx, current);
        AtFacts(idx, level, here);
        StandsLevel(idx, level.level, leftcurrent, current);
        if Plain(idx) {
          PlainLive(idx, current);
          FirstNextBelow(idx, current);
        }
        if mid { RoundEnd(level, vs, leftcurrent, current, next0, next, old(prevrightlink)); }
      }
    }

    /** bt_check_level_from_leftmost.  `goal` is any clean level that starts where this one does. */
    method CheckLevel(level: BtreeLevel, fuel: nat, ghost goal: seq<nat>)
      returns (v: Verdict, next: BtreeLevel, ghost vs: seq<nat>)
      requires level.level <= idx.rootLevel && level.leftmost != P_NONE
      modifies this
      ensures v.Pass? ==> next.leftmost in {P_NONE, INVALID_BLOCK} || next.level < level.level
      ensures NoHalfDead(idx, vs) ==> Distinct(vs) && |vs| <= |idx.pages|
      ensures old(lowkey) == None ==>
                && (v.Pass? ==> FateOf(idx, level) == Down(next) && lowkey == None)
                && (v.Corrupt? ==> FateOf(idx, level) == Refused)
                && (v.Diverged? && Settles(idx, level, fuel) ==> FateOf(idx, level) == Unending)
                && (v.Diverged? && Ample(idx, fuel) ==> Loops(idx))
      ensures v.Pass? ==> LevelStands(idx, level, vs, P_NONE) && next == NextLevel(idx, vs)
      ensures Plain(idx) && v.Pass? ==>
                Alive(idx, level.leftmost) && next.leftmost == FirstChild(idx, level.leftmost) != INVALID_BLOCK
      ensures Fair(idx, level.leftmost) && v.Pass? ==> LevelResult(idx, level, vs, next)
      ensures Fair(idx, level.leftmost) && LevelGoal(idx, level, goal) && fuel > |idx.pages| ==> v.Pass?
      ensures Plain(idx) && Headless(idx, level) && fuel > 0 ==> v.Pass?
    {
      hide PageSane, Plain, LevelGoal, LevelInv, LevelResult, OnGoal, Trail, Alive, Headless, FirstChild,
        ReadPage, Fair, Stands, LevelStands, NextLevel, PageWalk, LowAfter, FateOf, Loops, NoHalfDead, Distinct,
        Midlevel;
      var leftcurrent: nat, current: nat := P_NONE, level.leftmost;
      next := BtreeLevel(0xFFFF_FFFF, INVALID_BLOCK, false);
      prevrightlink := INVALID_BLOCK;
      previncompletesplit := false;
      vs := [];
      ghost var plain, fair, bare := Plain(idx), Fair(idx, level.leftmost), lowkey == None;
      ghost var headless := plain && Headless(idx, level);
      InvStart(idx, level, next, goal);
      MidStart(idx, level, lowkey);
      StandsStart(idx, level);
      StandsTrail(idx, level, [], level.leftmost);
      var left: nat := fuel;
      while true
        invariant left <= fuel && |vs| == fuel - left && current != P_NONE
        invariant Midlevel(idx, level, bare, vs, Spot(leftcurrent, current, next, lowkey, Here()))
        invariant plain && vs != [] ==> next.leftmost == FirstChild(idx, level.leftmost) != INVALID_BLOCK
        invariant vs == [] ==>
                    && next.leftmost == INVALID_BLOCK && Here() == NOWHERE
                    && current == level.leftmost && leftcurrent == P_NONE
        invariant fair ==> Midway(level, vs, leftcurrent, current, next)
        invariant fair && LevelGoal(idx, level, goal) ==> OnGoal(goal, vs, current)
        invariant headless ==> vs == []
        decreases left
      {
        if fair { InvFacts(idx, level, vs, leftcurrent, current, next, prevrightlink); }
        ghost var here := Spot(leftcurrent, current, next, lowkey, Here());
        MidOnce(idx, level, bare, vs, here);
        if left == 0 {
          MidLong(idx, level, bare, vs, here);
          return Diverged, next, vs;
        }
        left := left - 1;
        v, next := LevelRound(level, leftcurrent, current, next, fuel, vs, goal);
        if !v.Pass? {
          if bare { MidFails(idx, level, bare, vs, here); }
          return v, next, vs;
        }
        ReadLive(idx, current);
        AtFacts(idx, level, here);
        MidStep(idx, level, bare, vs, here);
        leftcurrent := current;
        current := target.next;
        lowkey := None;
        if !target.Rightmost() { lowkey := Some(target.Item(P_HIKEY)); }
        vs := vs + [leftcurrent];
        if current == P_NONE { break; }
      }
      MidEnds(idx, level, bare, vs, Spot(leftcurrent, current, next, lowkey, Here()));
      lowkey := None;
      v := Pass;
      if plain {
        NoInvalid(idx);
        StandsTrail(idx, level, vs, P_NONE);
        TrailAlive(idx, level.leftmost, vs);
      }
    }
  }

  lemma NoInvalid(idx: Index)
    requires Plain(idx)
    ensures INVALID_BLOCK !in idx.pages
  {
  }

  lemma HeadlessNotFair(idx: Index, level: BtreeLevel)
    requires Headless(idx, level)
    ensures !Fair(idx, level.leftmost)
  {
    assert RightAt(idx, level.leftmost, 0) == level.leftmost;
    assert !NonZeroAt(idx, level.leftmost);
  }

  lemma FairPlain(idx: Index, s: nat)
    requires Fair(idx, s)
    ensures Plain(idx) && INVALID_BLOCK !in idx.pages
  {
  }

  lemma NoRun(idx: Index)
    ensures ChildRun(idx, []) && RunEnd(idx, []) == INVALID_BLOCK
  {
  }

  // ---------------------------------------------------------------- every level

  /** bt_check_every_level.  On any index it decides what the steps of BtreeSteps say, and it ends unless right links
      run in a circle over half-dead pages or over pages that need no downlink.  A pass means that every level was
      walked to its end over pages that stand.  On an index without marks of interrupted operations a pass means a
      clean tree exactly when no page walked over has a zero downlink, a clean tree passes, and only circles through
      deleted pages keep the check from ending. */
  method CheckEveryLevel(idx: Index, fuel: nat) returns (v: Verdict)
    ensures v.Pass? ==> AllSwept(idx)
    ensures Plain(idx) && v.Pass? ==> (CleanTree(idx) <==> NoZeroDownlink(idx))
    ensures Plain(idx) && CleanTree(idx) && fuel > |idx.pages| ==> v.Pass?
    ensures Plain(idx) && HeadlessRoot(idx) && fuel > 0 ==> v.Pass?
    ensures v.Pass? ==> IndexFate(idx) == Passes
    ensures v.Corrupt? ==> IndexFate(idx) == Refuses
    ensures v.Diverged? && IndexSettles(idx, fuel) ==> IndexFate(idx) == NeverEnds
    ensures v.Diverged? && Ample(idx, fuel) ==> Loops(idx)
    ensures Plain(idx) && v.Diverged? && Ample(idx, fuel) ==> StraysDeleted(idx)
  {
    hide Plain, CleanTree, NoZeroDownlink, ReadPage, HeadlessRoot, Walked, AllClear, Descended, GoalAbove,
      LevelStart, Tower, Swept, Below, LevelStands, NextLevel, FateOf, Loops, StraysDeleted;
    MetaRead(idx);
    if ReadPage(idx, BTREE_METAPAGE).None? { return Corrupt("meta page is corrupt"); }
    if idx.root == P_NONE {
      EmptyClean(idx);
      return Pass;
    }
    ghost var goal := TowerOf(idx);
    var state := new BtreeCheckState(idx);
    var current := BtreeLevel(idx.rootLevel, idx.root, true);
    ghost var above: seq<seq<nat>> := [];
    CheckStart(idx, goal);
    SweptStart(idx);
    while current.leftmost != P_NONE
      invariant state.idx == idx && state.lowkey == None
      invariant IndexFate(idx) == if current.leftmost == P_NONE then Passes else TreeFate(idx, current)
      invariant IndexSettles(idx, fuel) && current.leftmost != P_NONE ==> TreeSettles(idx, current, fuel)
      invariant current.leftmost != P_NONE ==> current.level <= idx.rootLevel
      invariant above == [] ==> current == BtreeLevel(idx.rootLevel, idx.root, true)
      invariant Swept(idx, above) && current == Below(idx, above)
      invariant Plain(idx) ==> Walked(idx, above, current)
      invariant Plain(idx) && AllClear(idx) ==> Descended(idx, above, current)
      invariant Plain(idx) && CleanTree(idx) ==> AllClear(idx) && GoalAbove(idx, goal, above)
      invariant Plain(idx) && HeadlessRoot(idx) ==> above == [] || current.leftmost == P_NONE
      decreases if current.leftmost == P_NONE then 0 else current.level + 1
    {
      ghost var vs;
      v, current, vs := LevelOf(state, current, fuel, goal, above);
      if !v.Pass? {
        if Plain(idx) && Loops(idx) { PlainLoops(idx); }
        return v;
      }
      SweptStep(idx, above, vs);
      if current.leftmost == INVALID_BLOCK { return Corrupt("index has no valid pages on level"); }
      above := [vs] + above;
    }
    v := Pass;
    if Plain(idx) { CheckEnd(idx, above, current); }
  }

  /** The level walks so far came to their ends, and the next begins at the first downlink. */
  ghost predicate Walked(idx: Index, above: seq<seq<nat>>, current: BtreeLevel) {
    current.leftmost == LevelStart(idx, |above|) && forall k: nat | k < |above| :: Alive(idx, LevelStart(idx, k))
  }

  /** The levels so far are the upper levels of the clean tree. */
  ghost predicate GoalAbove(idx: Index, goal: seq<seq<nat>>, above: seq<seq<nat>>) {
    Tower(idx, goal) && |above| <= |goal| && above == goal[|goal| - |above|..]
  }

  /** Some levels that make the index a clean tree, if it is one. */
  ghost function TowerOf(idx: Index): (levels: seq<seq<nat>>)
    ensures (exists x :: Tower(idx, x)) ==> Tower(idx, levels)
  {
    if exists x :: Tower(idx, x) then var x :| Tower(idx, x); x else []
  }

  /** One level of the loop of bt_check_every_level. */
  method LevelOf(state: BtreeCheckState, here: BtreeLevel, fuel: nat, ghost goal: seq<seq<nat>>,
                 ghost above: seq<seq<nat>>)
    returns (v: Verdict, next: BtreeLevel, ghost vs: seq<nat>)
    requires here.level <= state.idx.rootLevel && here.leftmost != P_NONE && state.lowkey == None
    modifies state
    ensures v.Pass? ==> next.leftmost in {P_NONE, INVALID_BLOCK} || next.level < here.level
    ensures v.Pass? ==> LevelStands(state.idx, here, vs, P_NONE) && next == NextLevel(state.idx, vs)
    ensures var idx := state.idx;
            && (v.Pass? ==> FateOf(idx, here) == Down(next) && state.lowkey == None)
            && (v.Corrupt? ==> FateOf(idx, here) == Refused)
            && (v.Diverged? && Settles(idx, here, fuel) ==> FateOf(idx, here) == Unending)
            && (v.Diverged? && Ample(idx, fuel) ==> Loops(idx))
    ensures var idx := state.idx;
            && (Plain(idx) && v.Pass? && Walked(idx, above, here) ==>
                  Walked(idx, [vs] + above, next) && next.leftmost != INVALID_BLOCK)
            && (Plain(idx) && AllClear(idx) && v.Pass? && Walked(idx, above, here) && Descended(idx, above, here) ==>
                  Descended(idx, [vs] + above, next))
            && (Plain(idx) && AllClear(idx) && GoalAbove(idx, goal, above) && Walked(idx, above, here) &&
                Descended(idx, above, here) ==>
                  (v.Pass? ==> GoalAbove(idx, goal, [vs] + above)) && (fuel > |idx.pages| ==> v.Pass?))
            && (Plain(idx) && HeadlessRoot(idx) && here == BtreeLevel(idx.rootLevel, idx.root, true) ==>
                  (v.Pass? ==> next.leftmost == P_NONE) && (fuel > 0 ==> v.Pass?))
  {
    hide Plain, ReadPage, FateOf, Loops, Settles, Headless, AllClear, Descended, LevelStart, Tower, Alive, FirstChild,
      LevelGoal, LevelResult, Fair, LevelStands, NextLevel;
    ghost var idx := state.idx;
    ghost var walked := Plain(idx) && Walked(idx, above, here);
    ghost var fair := walked && AllClear(idx) && Descended(idx, above, here);
    ghost var wanted := fair && GoalAbove(idx, goal, above);
    if fair { FairStart(idx, |above|); }
    if wanted { TowerGoal(idx, goal, above, here); }
    if HeadlessRoot(idx) { HeadlessEnds(idx); }
    v, next, vs := state.CheckLevel(here, fuel, if wanted then goal[here.level] else []);
    if v.Pass? {
      if walked { StartsNext(idx, |above|); }
      if fair { DescendFair(idx, above, here, vs, next); }
      if wanted {
        SameLevel(idx, here, vs, next, goal[here.level]);
        GoalSuffix(goal, above, here.level);
      }
    }
  }

  lemma StartsNext(idx: Index, k: nat)
    ensures LevelStart(idx, k + 1) == FirstChild(idx, LevelStart(idx, k))
  {
  }

  lemma MetaRead(idx: Index)
    ensures CleanTree(idx) || HeadlessRoot(idx) ==> ReadPage(idx, BTREE_METAPAGE).Some?
    ensures HeadlessRoot(idx) ==> idx.root != P_NONE
  {
  }

  lemma EmptyClean(idx: Index)
    requires idx.root == P_NONE && ReadPage(idx, BTREE_METAPAGE).Some?
    ensures CleanTree(idx) && NoZeroDownlink(idx)
  {
    EmptyClear(idx);
  }

  lemma CheckStart(idx: Index, goal: seq<seq<nat>>)
    requires idx.root != P_NONE && goal == TowerOf(idx)
    ensures var start := BtreeLevel(idx.rootLevel, idx.root, true);
            && Walked(idx, [], start) && Descended(idx, [], start)
            && (Plain(idx) && CleanTree(idx) ==> AllClear(idx) && GoalAbove(idx, goal, []))
  {
    hide Tower, Plain;
    DescentStart(idx);
    if Plain(idx) && CleanTree(idx) {
      CleanClear(idx, goal);
      TowerLength(idx, goal);
    }
  }

  /** When the leaves are done, the levels make a clean tree exactly if no zero downlink was met. */
  lemma CheckEnd(idx: Index, above: seq<seq<nat>>, current: BtreeLevel)
    requires Plain(idx) && Walked(idx, above, current) && current.leftmost == P_NONE && idx.root != P_NONE
    requires AllClear(idx) ==> Descended(idx, above, current)
    requires ReadPage(idx, BTREE_METAPAGE).Some?
    ensures CleanTree(idx) <==> NoZeroDownlink(idx)
  {
    hide Plain, Tower, Descended, AllClear, NoZeroDownlink, ReadPage;
    if NoZeroDownlink(idx) {
      WalkedClear(idx, |above|);
      DescendedTower(idx, above, current);
    }
    if CleanTree(idx) {
      var levels :| Tower(idx, levels);
      CleanClear(idx, levels);
    }
  }

  lemma DescendFair(idx: Index, above: seq<seq<nat>>, here: BtreeLevel, vs: seq<nat>, next: BtreeLevel)
    requires Plain(idx) && Descended(idx, above, here) && here.leftmost != P_NONE && LevelResult(idx, here, vs, next)
    ensures Descended(idx, [vs] + above, next)
  {
    hide Descended, LevelResult;
    NoInvalid(idx);
    DescendOne(idx, above, here, vs, next);
  }

  lemma EmptyClear(idx: Index)
    requires idx.root == P_NONE
    ensures NoZeroDownlink(idx)
  {
    forall k: nat, n: nat ensures NonZeroAt(idx, RightAt(idx, LevelStart(idx, k), n)) {
      StartsNone(idx, 0, k);
      RightOfNone(idx, n);
    }
  }

  // ---------------------------------------------------------------- zero downlinks

  /** The root is the only page of its level, its first downlink is zero, and the rest of it is in order. */
  ghost predicate HeadlessRoot(idx: Index) {
    ReadPage(idx, BTREE_METAPAGE).Some? && Headless(idx, BtreeLevel(idx.rootLevel, idx.root, true))
  }

  lemma HeadlessEnds(idx: Index)
    requires HeadlessRoot(idx)
    ensures FirstChild(idx, idx.root) == P_NONE
  {
  }

  /** Such an index passes the check and is no clean tree, whatever its leaves hold. */
  lemma HeadlessNotClean(idx: Index)
    requires Plain(idx) && HeadlessRoot(idx)
    ensures !NoZeroDownlink(idx) && !CleanTree(idx)
  {
    hide Tower, Plain;
    assert RightAt(idx, LevelStart(idx, 0), 0) == idx.root;
    assert !NonZeroAt(idx, idx.root);
    if CleanTree(idx) {
      var levels :| Tower(idx, levels);
      CleanClear(idx, levels);
    }
  }
}
