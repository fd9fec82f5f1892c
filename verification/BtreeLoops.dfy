/** Why a check of a B-tree may never end (contrib/amcheck/verify_nbtree.c): right links that run in a circle over pages
    the walks pass over.  Everything here is about the walks of BtreeSteps, on any index. */
module BtreeLoops {
  import opened Wrappers
  import opened BtreePages
  import opened BtreeShape
  import opened BtreeLeftmost
  import opened BtreeWalk
  import opened BtreeSweep
  import opened BtreeSteps

  /** The right links from a block lead back to it. */
  ghost predicate Circle(idx: Index, b: nat, n: nat) {
    n > 0 && b != P_NONE && b in idx.pages && RightAt(idx, b, n) == b
  }

  ghost predicate HalfDeadCircle(idx: Index) {
    exists b: nat, n: nat :: Circle(idx, b, n) && idx.pages[b].halfDead && !idx.pages[b].deleted
  }

  /** A page needs no downlink when it is met after `a`: it is out of use, flagged as a root below the root level, the
      right half of a split, or the top of a deletion. */
  ghost predicate Passable(idx: Index, a: nat, b: nat) {
    && a in idx.pages && b in idx.pages && b != P_NONE
    && var p := idx.pages[b];
       || p.Ignore() || (p.root && p.level < idx.rootLevel)
       || idx.pages[a].incompleteSplit || TopOfDeletion(idx, b, p)
  }

  ghost predicate PassableAt(idx: Index, a: nat, i: nat) {
    Passable(idx, RightAt(idx, a, i), RightAt(idx, a, i + 1))
  }

  /** The right links from a page never leave pages that are passed over. */
  ghost predicate Strays(idx: Index, a: nat) {
    a != P_NONE && a in idx.pages && forall i: nat :: PassableAt(idx, a, i)
  }

  ghost predicate DownlinkTo(idx: Index, b: nat, off: nat, a: nat) {
    && b != BTREE_METAPAGE && b in idx.pages && !idx.pages[b].Ignore() && !idx.pages[b].leaf
    && idx.pages[b].FirstDataKey() <= off <= idx.pages[b].MaxOffset() && idx.pages[b].Item(off).downlink == a
  }

  /** A page that is not deleted, or the child of a page in use. */
  ghost predicate Known(idx: Index, a: nat) {
    && a != P_NONE && a in idx.pages
    && (!idx.pages[a].deleted || exists b: nat, off: nat :: DownlinkTo(idx, b, off, a))
  }

  ghost predicate StraysSomewhere(idx: Index) { exists a: nat :: Known(idx, a) && Strays(idx, a) }

  ghost predicate Loops(idx: Index) { HalfDeadCircle(idx) || StraysSomewhere(idx) }

  // ---------------------------------------------------------------- walks without end stray

  /** A place is nowhere, or to the right of a page that is known. */
  ghost predicate PlaceKnown(idx: Index, place: Place) {
    place.right == INVALID_BLOCK || exists c: nat :: Known(idx, c) && PlaceAt(idx, c) == place
  }

  /** A target page, and a place below it. */
  ghost predicate Sane(idx: Index, blk: nat, e: Errand) {
    && e.Ok() && (e.off == 0 || e.target.FirstDataKey() <= e.off)
    && blk != BTREE_METAPAGE && ReadPage(idx, blk) == Some(e.target) && !e.target.Ignore()
    && !e.target.leaf && e.target.level <= idx.rootLevel && PlaceKnown(idx, e.place)
  }

  lemma ChildPlaceKnown(idx: Index, blk: nat, e: Errand)
    requires Sane(idx, blk, e) && ChildWalk(idx, e).Go?
    ensures PlaceKnown(idx, ChildWalk(idx, e).place)
  {
    hide LinksFit, Excused, KeyFits;
    var c := e.Downlink();
    if c != P_NONE && c in idx.pages {
      assert DownlinkTo(idx, blk, e.off, c);
      assert Known(idx, c);
    }
  }

  lemma PassedPassable(idx: Index, e: Errand, c: nat, k: nat)
    requires e.Ok() && 0 < e.target.level <= idx.rootLevel && e.place.right != INVALID_BLOCK
    requires c != P_NONE && c in idx.pages && PlaceAt(idx, c) == e.place
    requires PassedOver(idx, e, k) && (k > 0 ==> PassedOver(idx, e, k - 1))
    ensures PassableAt(idx, c, k)
  {
    hide Leftmost, KeyFits, TopOfDeletion, ReadPage;
    RightShift(idx, c, k);
    if k > 0 { RightShift(idx, c, k - 1); }
    assert RightOf(idx, c) == e.place.right == e.Start();
  }

  lemma ChildStrays(idx: Index, blk: nat, e: Errand)
    requires Sane(idx, blk, e) && ChildWalk(idx, e) == Endless
    ensures StraysSomewhere(idx)
  {
    hide LinksFit, Excused, KeyFits, PassableAt;
    assert PassedOver(idx, e, 0);
    assert Met(idx, e, 0) == e.Start();
    var c: nat :| Known(idx, c) && PlaceAt(idx, c) == e.place;
    forall k: nat ensures PassableAt(idx, c, k) {
      assert PassedOver(idx, e, k);
      if k > 0 { assert PassedOver(idx, e, k - 1); }
      PassedPassable(idx, e, c, k);
    }
    assert Strays(idx, c);
  }

  lemma RightStrays(idx: Index, blk: nat, p: Page)
    requires blk != BTREE_METAPAGE && ReadPage(idx, blk) == Some(p) && !p.Ignore() && RightRuns(idx, p.next)
    ensures StraysSomewhere(idx)
  {
    forall k: nat ensures PassableAt(idx, blk, k) {
      RightShift(idx, blk, k);
      assert Overlooked(idx, RightAt(idx, p.next, k));
      if k > 0 {
        RightShift(idx, blk, k - 1);
        assert Overlooked(idx, RightAt(idx, p.next, k - 1));
      }
    }
    assert Known(idx, blk) && Strays(idx, blk);
  }

  ghost predicate StepKnown(idx: Index, step: Step) {
    && (step.Go? ==> PlaceKnown(idx, step.place))
    && (step.Endless? ==> StraysSomewhere(idx))
  }

  lemma ItemKnown(idx: Index, blk: nat, e: Errand)
    requires blk != BTREE_METAPAGE && ReadPage(idx, blk) == Some(e.target) && !e.target.Ignore()
    requires e.target.level <= idx.rootLevel && PlaceKnown(idx, e.place)
    requires e.Ok() && e.target.FirstDataKey() <= e.off <= e.target.MaxOffset()
    ensures StepKnown(idx, ItemWalk(idx, e))
  {
    hide ItemOk, LastBelow, ChildAbove, ChildWalk, RightRuns, PlaceKnown, StraysSomewhere, ReadPage;
    if !e.target.Rightmost() && RightRuns(idx, e.target.next) { RightStrays(idx, blk, e.target); }
    if !e.target.leaf {
      if ChildWalk(idx, e).Go? { ChildPlaceKnown(idx, blk, e); }
      if ChildWalk(idx, e) == Endless { ChildStrays(idx, blk, e); }
    }
  }

  lemma {:induction false} ItemsKnown(idx: Index, blk: nat, p: Page, low: Option<Tuple>, place: Place, n: nat)
    requires blk != BTREE_METAPAGE && ReadPage(idx, blk) == Some(p) && !p.Ignore() && p.level <= idx.rootLevel
    requires PlaceKnown(idx, place) && n <= DataCount(p)
    ensures StepKnown(idx, ItemsWalk(idx, p, low, place, n))
  {
    hide ItemWalk, PlaceKnown, StraysSomewhere, ReadPage;
    if n > 0 {
      ItemsKnown(idx, blk, p, low, place, n - 1);
      var before := ItemsWalk(idx, p, low, place, n - 1);
      if before.Go? { ItemKnown(idx, blk, Errand(p, low, p.FirstDataKey() + n - 1, before.place)); }
    }
  }

  lemma TargetKnown(idx: Index, blk: nat, p: Page, low: Option<Tuple>, place: Place)
    requires blk != BTREE_METAPAGE && ReadPage(idx, blk) == Some(p) && !p.Ignore() && p.level <= idx.rootLevel
    requires PlaceKnown(idx, place)
    ensures StepKnown(idx, TargetWalk(idx, p, low, place))
  {
    hide ItemsWalk, PlaceKnown, StraysSomewhere, ReadPage, ChildWalk, AttsOk;
    ItemsKnown(idx, blk, p, low, place, DataCount(p));
    var items := ItemsWalk(idx, p, low, place, DataCount(p));
    if items.Go? && !p.leaf {
      var e := Errand(p, low, 0, items.place);
      if ChildWalk(idx, e).Go? { ChildPlaceKnown(idx, blk, e); }
      if ChildWalk(idx, e) == Endless { ChildStrays(idx, blk, e); }
    }
  }

  /** Whatever the walk along a level comes to, the place below it is known, and only straying loses it. */
  lemma {:induction false} LevelKnown(idx: Index, level: BtreeLevel, n: nat)
    requires level.level <= idx.rootLevel
    ensures var w := LevelWalk(idx, level, n);
            (w.At? ==> PlaceKnown(idx, w.spot.place)) && (w.Lost? ==> StraysSomewhere(idx))
  {
    hide TargetWalk, PlaceKnown, StraysSomewhere, ReadPage, SpotFits, NoCircle, LowAfter, FirstNext;
    if n == 0 {
      Nowhere(idx);
    } else {
      LevelKnown(idx, level, n - 1);
      var w := LevelWalk(idx, level, n - 1);
      if w.At? && w.spot.current != P_NONE && ReadPage(idx, w.spot.current).Some? {
        var p := idx.pages[w.spot.current];
        if !p.Ignore() && SpotFits(idx, level, w.spot, p) {
          SpotLevel(idx, level, w.spot, p);
          TargetKnown(idx, w.spot.current, p, w.spot.low, w.spot.place);
        }
      }
    }
  }

  lemma Nowhere(idx: Index)
    ensures PlaceKnown(idx, NOWHERE)
  {
  }

  lemma SpotLevel(idx: Index, level: BtreeLevel, s: Spot, p: Page)
    requires SpotFits(idx, level, s, p)
    ensures p.level == level.level
  {
  }

  // ---------------------------------------------------------------- long walks along a level

  /** A walk along a level that is longer than the file has come round over a half-dead page. */
  lemma LongWalk(idx: Index, level: BtreeLevel, vs: seq<nat>, current: nat)
    requires LevelStands(idx, level, vs, current) && |vs| > |idx.pages|
    ensures HalfDeadCircle(idx)
  {
    hide LevelStands, Trail;
    StandsTrail(idx, level, vs, current);
    TrailIn(idx, level.leftmost, vs, current);
    if Distinct(vs) { DistinctFit(vs, idx.pages); }
    var i, j :| 0 <= i < j < |vs| && vs[i] == vs[j];
    var k := TwiceHalfDead(idx, level, vs, current, i, j);
    TrailAt(idx, level.leftmost, vs, current, i);
    TrailAt(idx, level.leftmost, vs, current, j);
    TrailAt(idx, level.leftmost, vs, current, k);
    SamePath(idx, level.leftmost, i, j, k - i);
    Onward(idx, level.leftmost, k, j - i);
    assert Circle(idx, vs[k], j - i);
  }

  lemma TrailAt(idx: Index, leftmost: nat, vs: seq<nat>, current: nat, k: nat)
    requires Trail(idx, leftmost, vs, current) && k < |vs|
    ensures RightAt(idx, leftmost, k) == vs[k]
  {
    RunAlive(idx, vs, k);
  }

  lemma {:induction false} Onward(idx: Index, s: nat, k: nat, n: nat)
    ensures RightAt(idx, RightAt(idx, s, k), n) == RightAt(idx, s, k + n)
  {
    if n > 0 { Onward(idx, s, k, n - 1); }
  }

  // ---------------------------------------------------------------- straying

  /** Straying right links run into a circle. */
  lemma StraysRound(idx: Index, a: nat)
    requires Strays(idx, a)
    ensures exists k: nat, n: nat :: Circle(idx, RightAt(idx, a, k), n)
  {
    hide Passable;
    var m := |idx.pages| + 1;
    forall k: nat | k < m ensures RightAt(idx, a, k) in idx.pages { StraysIn(idx, a, k); }
    var i, j := Comeback(idx, a, m);
    StraysIn(idx, a, i);
    Onward(idx, a, i, j - i);
    assert Circle(idx, RightAt(idx, a, i), j - i);
  }

  lemma StraysIn(idx: Index, a: nat, k: nat)
    requires Strays(idx, a)
    ensures RightAt(idx, a, k) in idx.pages && RightAt(idx, a, k) != P_NONE
  {
    if k > 0 { assert PassableAt(idx, a, k - 1); }
  }

  ghost predicate DeletedAt(idx: Index, b: nat) { b in idx.pages && idx.pages[b].deleted }

  /** Of each two blocks in a row, the second is deleted, or the first is, in the middle of a split. */
  ghost predicate DeletedStep(idx: Index, a: nat, i: nat) {
    || DeletedAt(idx, RightAt(idx, a, i + 1))
    || (DeletedAt(idx, RightAt(idx, a, i)) && idx.pages[RightAt(idx, a, i)].incompleteSplit)
  }

  ghost predicate StraysDeleted(idx: Index) {
    exists a: nat :: Known(idx, a) && Strays(idx, a) && forall i: nat :: DeletedStep(idx, a, i)
  }

  /** On an index without marks only circles through deleted pages are left. */
  lemma PlainLoops(idx: Index)
    requires Plain(idx) && Loops(idx)
    ensures StraysDeleted(idx)
  {
    assert !HalfDeadCircle(idx);
    var a: nat :| Known(idx, a) && Strays(idx, a);
    forall i: nat ensures DeletedStep(idx, a, i) {
      StraysIn(idx, a, i);
      StraysIn(idx, a, i + 1);
      assert PassableAt(idx, a, i);
      PlainStep(idx, RightAt(idx, a, i), RightAt(idx, a, i + 1));
    }
  }

  ghost predicate DeletedCircle(idx: Index, b: nat, n: nat) {
    Circle(idx, b, n) && forall i: nat :: DeletedAt(idx, RightAt(idx, b, i))
  }

  /** Where besides no deleted page was left in the middle of a split, the right links run into a circle of deleted
      pages. */
  lemma DeletedRound(idx: Index)
    requires Plain(idx) && Loops(idx)
    requires forall b | b in idx.pages && idx.pages[b].deleted :: !idx.pages[b].incompleteSplit
    ensures exists a: nat, k: nat, n: nat :: Known(idx, a) && DeletedCircle(idx, RightAt(idx, a, k), n)
  {
    hide Plain, Loops, Known, Strays;
    PlainLoops(idx);
    var a: nat :| Known(idx, a) && Strays(idx, a) && forall i: nat :: DeletedStep(idx, a, i);
    StraysRound(idx, a);
    var k: nat, n: nat :| Circle(idx, RightAt(idx, a, k), n);
    var b := RightAt(idx, a, k);
    forall i: nat ensures DeletedAt(idx, RightAt(idx, b, i)) {
      var m := if k + i > 0 then k + i else n;
      Onward(idx, a, k, i);
      Onward(idx, a, k, n);
      assert DeletedStep(idx, a, m - 1);
    }
    assert DeletedCircle(idx, b, n);
  }

  lemma PlainStep(idx: Index, a: nat, b: nat)
    requires Plain(idx) && a != P_NONE && Passable(idx, a, b)
    ensures DeletedAt(idx, b) || (DeletedAt(idx, a) && idx.pages[a].incompleteSplit)
  {
    var p := idx.pages[b];
    if TopOfDeletion(idx, b, p) {
      var n: nat :| DeletionTop(idx, b, p.level, DataItem(p, 0).downlink, n);
      NoDeletionTop(idx, b, p.level, DataItem(p, 0).downlink, n);
    }
  }

  /** Where no link of a page in use leads to a deleted page, every check of an index without marks ends. */
  lemma DirectEnds(idx: Index)
    requires Plain(idx) && Direct(idx)
    ensures !Loops(idx)
  {
    hide Passable, Known, DeletedStep, Plain, Direct;
    if Loops(idx) {
      PlainLoops(idx);
      var a: nat :| Known(idx, a) && Strays(idx, a) && forall i: nat :: DeletedStep(idx, a, i);
      StraysIn(idx, a, 1);
      DirectStays(idx, a);
    }
  }

  lemma DirectStays(idx: Index, a: nat)
    requires Direct(idx) && Known(idx, a) && RightAt(idx, a, 1) != P_NONE
    ensures !DeletedStep(idx, a, 0)
  {
    KnownDirect(idx, a);
    assert RightAt(idx, a, 0) == a && RightAt(idx, a, 1) == idx.pages[a].next;
    assert DirectPage(idx, idx.pages[a]);
  }

  lemma KnownDirect(idx: Index, a: nat)
    requires Direct(idx) && Known(idx, a)
    ensures !idx.pages[a].deleted
  {
    if b: nat, off: nat :| DownlinkTo(idx, b, off, a) {
      var p := idx.pages[b];
      assert DirectPage(idx, p);
      assert off >= p.FirstDataKey() ==> DataItem(p, off - p.FirstDataKey()).downlink == a;
    }
  }

  // ---------------------------------------------------------------- the walk part of the way

  /** On the walk along a level, after the blocks of `vs`; `bare` is whether it began without a low key. */
  ghost predicate Midlevel(idx: Index, level: BtreeLevel, bare: bool, vs: seq<nat>, s: Spot) {
    && LevelStands(idx, level, vs, s.current) && s.left == LeftOnWalk(vs, |vs|) && s.next == NextLevel(idx, vs)
    && (s.next.leftmost in {P_NONE, INVALID_BLOCK} || s.next.level < level.level)
    && (vs == [] ==> s.next.leftmost == INVALID_BLOCK)
    && (bare ==> LevelWalk(idx, level, |vs|) == At(s))
  }

  lemma MidStart(idx: Index, level: BtreeLevel, low: Option<Tuple>)
    ensures Midlevel(idx, level, low == None, [], LevelSpot(level, low))
  {
    StandsStart(idx, level);
  }

  lemma MidStep(idx: Index, level: BtreeLevel, bare: bool, vs: seq<nat>, s: Spot)
    requires Midlevel(idx, level, bare, vs, s) && s.current != P_NONE && PageWalk(idx, level, s).At?
    requires Stands(idx, level.level, s.left, s.current)
    ensures Midlevel(idx, level, bare, vs + [s.current], PageWalk(idx, level, s).spot)
  {
    hide LevelStands, Stands, PageWalk, FirstNext, NextLevel, FirstLeftmost, ReadPage;
    if vs == [] { FirstIs(idx, level, s); }
    AtFacts(idx, level, s);
    StandsStep(idx, level, vs, s.current);
    NextStep(idx, vs, s.current);
    NextBelow(idx, level, s);
    assert LeftOnWalk(vs + [s.current], |vs| + 1) == s.current;
  }

  lemma NextBelow(idx: Index, level: BtreeLevel, s: Spot)
    requires s.current != P_NONE && Stands(idx, level.level, s.left, s.current)
    ensures var p := idx.pages[s.current];
            !p.Ignore() ==> FirstNext(p).leftmost == P_NONE || FirstNext(p).level < level.level
  {
    hide Upright;
    if !idx.pages[s.current].Ignore() { FirstNextBelow(idx, s.current); }
  }

  lemma MidOnce(idx: Index, level: BtreeLevel, bare: bool, vs: seq<nat>, s: Spot)
    requires Midlevel(idx, level, bare, vs, s)
    ensures NoHalfDead(idx, vs) ==> Distinct(vs) && |vs| <= |idx.pages|
  {
    MetOnce(idx, level, vs, s.current);
  }

  /** The fuel has run out on the way. */
  lemma MidLong(idx: Index, level: BtreeLevel, bare: bool, vs: seq<nat>, s: Spot)
    requires Midlevel(idx, level, bare, vs, s) && s.current != P_NONE
    ensures Ample(idx, |vs|) ==> Loops(idx)
    ensures bare ==> !Settles(idx, level, |vs|)
  {
    hide LevelStands, HalfDeadCircle, StraysSomewhere, LevelWalk;
    if Ample(idx, |vs|) { LongWalk(idx, level, vs, s.current); }
    if bare {
      forall n: nat | n <= |vs| ensures GoesOn(idx, level, n) {
        if !GoesOn(idx, level, n) { WalkStuck(idx, level, n, |vs|); }
      }
    }
  }

  /** A page of the level is refused, or its check has no end. */
  lemma MidFails(idx: Index, level: BtreeLevel, bare: bool, vs: seq<nat>, s: Spot)
    requires Midlevel(idx, level, bare, vs, s) && s.current != P_NONE && level.level <= idx.rootLevel && bare
    ensures PageWalk(idx, level, s) == Broken ==> FateOf(idx, level) == Refused
    ensures PageWalk(idx, level, s) == Lost ==> FateOf(idx, level) == Unending && Loops(idx)
  {
    hide LevelStands, NextLevel, FateOf, HalfDeadCircle, StraysSomewhere, PlaceKnown, PageWalk;
    var n := |vs| + 1;
    assert LevelWalk(idx, level, n) == PageWalk(idx, level, s);
    if !GoesOn(idx, level, n) { FateIs(idx, level, n); }
    LevelKnown(idx, level, n);
  }

  lemma MidEnds(idx: Index, level: BtreeLevel, bare: bool, vs: seq<nat>, s: Spot)
    requires Midlevel(idx, level, bare, vs, s) && s.current == P_NONE
    ensures LevelStands(idx, level, vs, P_NONE) && s.next == NextLevel(idx, vs)
    ensures s.next.leftmost in {P_NONE, INVALID_BLOCK} || s.next.level < level.level
    ensures bare ==> FateOf(idx, level) == Down(s.next)
    ensures NoHalfDead(idx, vs) ==> Distinct(vs) && |vs| <= |idx.pages|
  {
    hide LevelStands, NextLevel, FateOf;
    MidOnce(idx, level, bare, vs, s);
    if bare { FateIs(idx, level, |vs|); }
  }
}
