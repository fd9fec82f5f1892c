/** The check (BtreeSteps) passes an index exactly if it looks as BtreeMarked says. */
module BtreeMarkedCheck {
  import opened Wrappers
  import opened BtreePages
  import opened BtreeOrder
  import opened BtreeShape
  import opened BtreeLeftmost
  import opened BtreeWalk
  import opened BtreeSweep
  import opened BtreeSteps
  import opened BtreeLoops
  import opened BtreeMarked
  import opened BtreeMarkedWalk

  // ---------------------------------------------------------------- the items of a page

  /** The j-th item, from the child at x, has its child at y. */
  ghost predicate ItemTo(idx: Index, p: Page, low: Option<Tuple>, e: seq<nat>, x: int, j: nat, y: nat)
    requires j < DataCount(p)
  {
    && y < |e| && WalkTo(idx, Errand(p, low, p.FirstDataKey() + j, PlaceCurOr(idx, e, x)), e, x, y)
    && ChildAbove(idx, p, p.FirstDataKey() + j)
  }

  ghost function PlaceCurOr(idx: Index, e: seq<nat>, x: int): Place { if x < |e| then PlaceCur(idx, e, x) else NOWHERE }

  ghost function Last(x: int, ys: seq<nat>): int { if ys == [] then x else ys[|ys| - 1] }

  /** The first |ys| items, from the child at x, have their children at ys. */
  ghost predicate ItemsTo(idx: Index, p: Page, low: Option<Tuple>, e: seq<nat>, x: int, ys: seq<nat>) {
    |ys| <= DataCount(p) && forall j | 0 <= j < |ys| :: ItemTo(idx, p, low, e, Last(x, ys[..j]), j, ys[j])
  }

  ghost predicate ItemInOrder(idx: Index, p: Page, j: nat)
    requires j < DataCount(p)
  {
    var off := p.FirstDataKey() + j;
    ItemOk(idx.nkeyatts, p, off) && (off == p.MaxOffset() && !p.NegativeInfinity(off) ==> LastBelow(idx, p))
  }

  /** What a walk over the children of a page starts from. */
  ghost predicate Ready(idx: Index, p: Page, e: seq<nat>, x: int) {
    && e != [] && Row(idx, e) && RightLinksValid(idx) && !p.leaf && -1 <= x < |e| && DataCount(p) > 0
    && (x < 0 ==> DataItem(p, 0).downlink == e[0])
    && NonZero(p)
  }

  lemma RunsNotBelow(idx: Index, p: Page)
    requires LastItemReal(p) && !p.Rightmost() && RightRuns(idx, p.next)
    ensures !LastBelow(idx, p)
  {
    forall n: nat ensures !BelowInUse(idx, p, n) { RunsNowhere(idx, p.next, n); }
  }

  /** An item that passes has its child at some place of the level below, and is in order. */
  lemma ItemForward(idx: Index, p: Page, low: Option<Tuple>, e: seq<nat>, x: int, j: nat) returns (y: nat)
    requires Ready(idx, p, e, x) && j < DataCount(p) && (x < 0 ==> j == 0)
    requires ItemWalk(idx, Errand(p, low, p.FirstDataKey() + j, PlaceCur(idx, e, x))).Go?
    ensures ItemTo(idx, p, low, e, x, j, y) && ItemInOrder(idx, p, j)
    ensures ItemWalk(idx, Errand(p, low, p.FirstDataKey() + j, PlaceCur(idx, e, x))) == Go(PlaceCur(idx, e, y))
  {
    hide Row, RightLinksValid, ItemOk, ChildWalk, LastBelow, WalkTo, ChildAbove, RightRuns;
    var er := Errand(p, low, p.FirstDataKey() + j, PlaceCur(idx, e, x));
    assert er.Downlink() == DataItem(p, j).downlink;
    if p.NegativeInfinity(er.off) { FirstAbove(idx, p, er.off); }
    if x < 0 {
      WalkFirst(idx, er, e);
      y := 0;
    } else {
      y := WalkForward(idx, er, e, x);
      WalkEnds(idx, er, e, x, y);
    }
  }

  lemma FirstAbove(idx: Index, p: Page, off: nat)
    requires p.HasItem(off) && p.NegativeInfinity(off)
    ensures ChildAbove(idx, p, off)
  {
  }

  lemma WalkEnds(idx: Index, er: Errand, e: seq<nat>, x: int, y: nat)
    requires er.Ok() && WalkTo(idx, er, e, x, y) && er.Downlink() != P_NONE
    ensures y < |e| && e[y] == er.Downlink()
  {
  }

  /** And an item in order with its child there passes. */
  lemma ItemBack(idx: Index, p: Page, low: Option<Tuple>, e: seq<nat>, x: int, j: nat, y: nat)
    requires Ready(idx, p, e, x) && j < DataCount(p) && (x < 0 ==> j == 0)
    requires ItemTo(idx, p, low, e, x, j, y) && ItemInOrder(idx, p, j)
    ensures ItemWalk(idx, Errand(p, low, p.FirstDataKey() + j, PlaceCur(idx, e, x))) == Go(PlaceCur(idx, e, y))
  {
    hide RightLinksValid, ItemOk, ChildWalk, LastBelow, WalkTo, RightRuns;
    var er := Errand(p, low, p.FirstDataKey() + j, PlaceCur(idx, e, x));
    assert er.Downlink() == DataItem(p, j).downlink;
    WalkEnds(idx, er, e, x, y);
    ChainMember(idx, e[0], e, y);
    if LastItemReal(p) && !p.Rightmost() && RightRuns(idx, p.next) { RunsNotBelow(idx, p); }
    if x < 0 {
      FirstAtZero(idx, er, e, y);
      WalkFirst(idx, er, e);
    } else {
      WalkBack(idx, er, e, x, y);
    }
  }

  lemma FirstAtZero(idx: Index, er: Errand, e: seq<nat>, y: nat)
    requires er.Ok() && WalkTo(idx, er, e, -1, y)
    ensures y == 0
  {
  }

  lemma {:induction false} ItemsForward(idx: Index, p: Page, low: Option<Tuple>, e: seq<nat>, x: int, n: nat)
    returns (ys: seq<nat>)
    requires Ready(idx, p, e, x) && n <= DataCount(p) && ItemsWalk(idx, p, low, PlaceCur(idx, e, x), n).Go?
    ensures |ys| == n && ItemsTo(idx, p, low, e, x, ys) && Last(x, ys) < |e| && (n > 0 ==> Last(x, ys) >= 0)
    ensures ItemsWalk(idx, p, low, PlaceCur(idx, e, x), n) == Go(PlaceCur(idx, e, Last(x, ys)))
    ensures forall j | 0 <= j < n :: ItemInOrder(idx, p, j)
  {
    hide Row, RightLinksValid, ItemWalk, ItemInOrder, ItemTo, NonZero;
    if n == 0 {
      ys := [];
    } else {
      var zs := ItemsForward(idx, p, low, e, x, n - 1);
      var y := ItemForward(idx, p, low, e, Last(x, zs), n - 1);
      ItemToIn(idx, p, low, e, Last(x, zs), n - 1, y);
      ys := zs + [y];
      assert ys[..n - 1] == zs;
      forall j | 0 <= j < n ensures ItemTo(idx, p, low, e, Last(x, ys[..j]), j, ys[j]) {
        if j < n - 1 { assert ys[..j] == zs[..j] && ys[j] == zs[j]; }
      }
    }
  }

  lemma ItemToIn(idx: Index, p: Page, low: Option<Tuple>, e: seq<nat>, x: int, j: nat, y: nat)
    requires j < DataCount(p) && ItemTo(idx, p, low, e, x, j, y)
    ensures y < |e|
  {
  }

  lemma {:induction false} ItemsBack(idx: Index, p: Page, low: Option<Tuple>, e: seq<nat>, x: int, ys: seq<nat>)
    requires Ready(idx, p, e, x) && ItemsTo(idx, p, low, e, x, ys)
    requires forall j | 0 <= j < |ys| :: ItemInOrder(idx, p, j)
    ensures Last(x, ys) < |e| && (ys != [] ==> Last(x, ys) >= 0)
    ensures ItemsWalk(idx, p, low, PlaceCur(idx, e, x), |ys|) == Go(PlaceCur(idx, e, Last(x, ys)))
  {
    hide Row, RightLinksValid, ItemWalk, ItemInOrder, ItemTo, NonZero;
    if ys != [] {
      var n := |ys| - 1;
      var zs := ys[..n];
      forall j | 0 <= j < n ensures ItemTo(idx, p, low, e, Last(x, zs[..j]), j, zs[j]) {
        assert zs[..j] == ys[..j] && zs[j] == ys[j];
      }
      ItemsBack(idx, p, low, e, x, zs);
      ItemToIn(idx, p, low, e, Last(x, zs), n, ys[n]);
      ItemBack(idx, p, low, e, Last(x, zs), n, ys[n]);
    }
  }

  // ---------------------------------------------------------------- a page

  /** The pages after the child at x, to the end of the level. */
  ghost predicate RestTo(idx: Index, p: Page, low: Option<Tuple>, e: seq<nat>, x: int) {
    x < |e| && WalkTo(idx, Errand(p, low, 0, PlaceCur(idx, e, x)), e, x, |e|)
  }

  ghost predicate Ordered(idx: Index, p: Page) {
    && (!p.Rightmost() ==> p.HasItem(P_HIKEY) && AttsOk(idx.nkeyatts, p, P_HIKEY))
    && forall j | 0 <= j < DataCount(p) :: ItemInOrder(idx, p, j)
  }

  ghost function PlacePast(idx: Index, p: Page, e: seq<nat>, x: int): Place
    requires x < |e|
  {
    if p.Rightmost() then NOWHERE else PlaceCur(idx, e, x)
  }

  /** A page that passes: where its children stand, and at the right end of the level what follows them. */
  lemma TargetForward(idx: Index, p: Page, low: Option<Tuple>, e: seq<nat>, x: int) returns (ys: seq<nat>)
    requires Ready(idx, p, e, x) && TargetWalk(idx, p, low, PlaceCur(idx, e, x)).Go?
    ensures |ys| == DataCount(p) && ItemsTo(idx, p, low, e, x, ys) && 0 <= Last(x, ys) < |e| && Ordered(idx, p)
    ensures p.Rightmost() ==> RestTo(idx, p, low, e, Last(x, ys))
    ensures TargetWalk(idx, p, low, PlaceCur(idx, e, x)) == Go(PlacePast(idx, p, e, Last(x, ys)))
  {
    hide Row, RightLinksValid, ItemsWalk, ItemInOrder, ItemsTo, NonZero, ChildWalk, AttsOk, WalkTo;
    ys := ItemsForward(idx, p, low, e, x, DataCount(p));
    if p.Rightmost() {
      var er := Errand(p, low, 0, PlaceCur(idx, e, Last(x, ys)));
      var y := WalkForward(idx, er, e, Last(x, ys));
      EndsPast(idx, er, e, Last(x, ys), y);
    }
  }

  lemma EndsPast(idx: Index, er: Errand, e: seq<nat>, x: int, y: nat)
    requires er.Ok() && WalkTo(idx, er, e, x, y) && er.Downlink() == P_NONE && Row(idx, e)
    ensures y == |e|
  {
    hide ReadPage;
  }

  /** And a page with its children so passes. */
  lemma TargetBack(idx: Index, p: Page, low: Option<Tuple>, e: seq<nat>, x: int, ys: seq<nat>)
    requires Ready(idx, p, e, x) && |ys| == DataCount(p) && ItemsTo(idx, p, low, e, x, ys) && Ordered(idx, p)
    requires p.Rightmost() ==> RestTo(idx, p, low, e, Last(x, ys))
    ensures 0 <= Last(x, ys) < |e|
    ensures TargetWalk(idx, p, low, PlaceCur(idx, e, x)) == Go(PlacePast(idx, p, e, Last(x, ys)))
  {
    hide Row, RightLinksValid, ItemsWalk, ItemInOrder, ItemsTo, NonZero, ChildWalk, AttsOk, WalkTo;
    ItemsBack(idx, p, low, e, x, ys);
    if p.Rightmost() {
      WalkBack(idx, Errand(p, low, 0, PlaceCur(idx, e, Last(x, ys))), e, Last(x, ys), |e|);
    }
  }

  /** A leaf page, which has no children. */
  lemma LeafIs(idx: Index, p: Page, low: Option<Tuple>, place: Place)
    requires p.leaf
    ensures TargetWalk(idx, p, low, place).Go? <==> Ordered(idx, p)
    ensures Ordered(idx, p) ==> TargetWalk(idx, p, low, place) == Go(place)
  {
    hide ItemsWalk, ItemInOrder, AttsOk;
    LeafItemsAre(idx, p, low, place, DataCount(p));
  }

  lemma {:induction false} LeafItemsAre(idx: Index, p: Page, low: Option<Tuple>, place: Place, n: nat)
    requires p.leaf && n <= DataCount(p)
    ensures ItemsWalk(idx, p, low, place, n).Go? <==> forall j | 0 <= j < n :: ItemInOrder(idx, p, j)
    ensures ItemsWalk(idx, p, low, place, n).Go? ==> ItemsWalk(idx, p, low, place, n) == Go(place)
  {
    hide ItemOk, LastBelow, RightRuns, DownlinkWalk, ItemInOrder;
    if n > 0 {
      LeafItemsAre(idx, p, low, place, n - 1);
      LeafItemIs(idx, p, low, place, n - 1);
    }
  }

  lemma LeafItemIs(idx: Index, p: Page, low: Option<Tuple>, place: Place, j: nat)
    requires p.leaf && j < DataCount(p)
    ensures var step := ItemWalk(idx, Errand(p, low, p.FirstDataKey() + j, place));
            (step.Go? <==> ItemInOrder(idx, p, j)) && (step.Go? ==> step == Go(place))
  {
    hide ItemOk, LastBelow, RightRuns, DownlinkWalk;
    if LastItemReal(p) && !p.Rightmost() && RightRuns(idx, p.next) { RunsNotBelow(idx, p); }
  }

  // ---------------------------------------------------------------- the next page in use

  lemma {:induction false} InUseAt(idx: Index, c: seq<nat>, k: nat, m: nat)
    requires k <= m < |c| && LevelChain(idx, c[0], c) && !idx.pages[c[m]].Ignore()
    requires forall z | k <= z < m :: Dead(idx, c, z) && !idx.pages[c[z]].Rightmost()
    ensures RightInUse(idx, c[k], m - k + 1) == Some(idx.pages[c[m]])
    decreases m - k
  {
    hide PageSane;
    ChainMember(idx, c[0], c, k);
    if k < m {
      assert Dead(idx, c, k);
      assert idx.pages[c[k]].next == c[k + 1];
      InUseAt(idx, c, k + 1, m);
    }
  }

  lemma {:induction false} FindNext(idx: Index, c: seq<nat>, i: nat, k: nat) returns (m: nat)
    requires i < k < |c| && !Dead(idx, c, |c| - 1) && forall z: nat | i < z < k :: Dead(idx, c, z)
    ensures NextInUse(idx, c, i, m)
    decreases |c| - k
  {
    if Dead(idx, c, k) { m := FindNext(idx, c, i, k + 1); } else { m := k; }
  }

  /** The first page in use to the right is the next one in use of the level. */
  lemma NextIs(idx: Index, c: seq<nat>, i: nat)
    requires c != [] && LevelChain(idx, c[0], c) && i < |c|
    requires forall k | 0 <= k < |c| :: !idx.pages[c[k]].deleted && (Dead(idx, c, k) ==> !idx.pages[c[k]].Rightmost())
    ensures LastBelow(idx, idx.pages[c[i]]) <==> BelowNext(idx, c, i)
  {
    hide ReadPage, RightInUse;
    var p := idx.pages[c[i]];
    if LastItemReal(p) {
      if i == |c| - 1 {
        assert BelowInUse(idx, p, 0);
      } else {
        assert p.next == c[i + 1] && c[i + 1] != P_NONE;
        var m := FindNext(idx, c, i, i + 1);
        InUseAt(idx, c, i + 1, m);
        InUseOnce(idx, p, m - i);
        assert forall k: nat | NextInUse(idx, c, i, k) :: k == m;
      }
    }
  }

  lemma OrderedIs(idx: Index, c: seq<nat>, i: nat)
    requires c != [] && LevelChain(idx, c[0], c) && i < |c|
    requires forall k | 0 <= k < |c| :: !idx.pages[c[k]].deleted && (Dead(idx, c, k) ==> !idx.pages[c[k]].Rightmost())
    ensures Ordered(idx, idx.pages[c[i]]) <==> InPage(idx.nkeyatts, idx.pages[c[i]]) && BelowNext(idx, c, i)
  {
    hide ReadPage, ItemOk, AttsOk, LastBelow;
    var p := idx.pages[c[i]];
    NextIs(idx, c, i);
    NoLastItem(idx, p);
    if Ordered(idx, p) {
      forall off | p.FirstDataKey() <= off <= p.MaxOffset() ensures ItemOk(idx.nkeyatts, p, off) {
        assert ItemInOrder(idx, p, off - p.FirstDataKey());
      }
      if LastItemReal(p) { assert ItemInOrder(idx, p, DataCount(p) - 1); }
    }
  }

  // ---------------------------------------------------------------- one page of a level

  ghost function LowBefore(idx: Index, c: seq<nat>, i: nat): Option<Tuple>
    requires i <= |c|
  {
    if i == 0 || c[i - 1] !in idx.pages then None else LowAfter(idx.pages[c[i - 1]])
  }

  /** Where the walk is before page i, after the child at x. */
  ghost function SpotOf(idx: Index, c: seq<nat>, e: seq<nat>, i: nat, x: int): Spot
    requires i <= |c| && x < |e|
  {
    Spot(if i == 0 then P_NONE else c[i - 1], if i < |c| then c[i] else P_NONE, NextLevel(idx, c[..i]),
         LowBefore(idx, c, i), if i < |c| then PlaceCur(idx, e, x) else NOWHERE)
  }

  /** What is given: the blocks of the level and of the level below, and links in range. */
  ghost predicate Given(idx: Index, level: BtreeLevel, c: seq<nat>, e: seq<nat>) {
    && LevelChain(idx, level.leftmost, c) && LinksPresent(idx)
    && (level.level > 0 ==> e != [] && Row(idx, e))
    && forall i | 0 <= i < |c| && FirstInUse(idx, c, i) && level.level > 0 ::
         FirstNext(idx.pages[c[i]]).leftmost == e[0]
  }

  /** The child at x is the last before page i. */
  ghost predicate Stage(idx: Index, level: BtreeLevel, c: seq<nat>, e: seq<nat>, i: nat, x: int) {
    && i <= |c| && -1 <= x < |e|
    && (x < 0 <==> level.level == 0 || forall k: nat | k < i :: Dead(idx, c, k))
    && (NextLevel(idx, c[..i]).leftmost == INVALID_BLOCK <==> forall k: nat | k < i :: Dead(idx, c, k))
  }

  /** Page i as it should be, its children at ys. */
  ghost predicate PagePart(idx: Index, level: BtreeLevel, c: seq<nat>, e: seq<nat>, i: nat, x: int, ys: seq<nat>)
    requires i < |c|
  {
    && c[i] in idx.pages
    && var p := idx.pages[c[i]];
       && !p.deleted && p.prev != c[i] && (!p.Rightmost() ==> p.HasItem(P_HIKEY))
       && if p.halfDead then !p.Rightmost() && ys == []
          else
            && p.level == level.level && (i > 0 ==> p.prev == c[i - 1])
            && (FirstInUse(idx, c, i) ==> Leftmost(idx, c[i]) && (level.isTrueRootLevel ==> p.root))
            && Ordered(idx, p) && PageChildren(idx, p, LowBefore(idx, c, i), e, x, ys)
  }

  ghost predicate PageChildren(idx: Index, p: Page, low: Option<Tuple>, e: seq<nat>, x: int, ys: seq<nat>) {
    if p.leaf then ys == []
    else
      && |ys| == DataCount(p) && ItemsTo(idx, p, low, e, x, ys)
      && (p.Rightmost() ==> RestTo(idx, p, low, e, Last(x, ys)))
  }

  /** The facts about page i that its check starts from. */
  lemma PageFacts(idx: Index, level: BtreeLevel, c: seq<nat>, e: seq<nat>, i: nat, x: int)
    requires Given(idx, level, c, e) && Stage(idx, level, c, e, i, x) && i < |c|
    ensures c[i] != P_NONE && c[i] in idx.pages && ReadPage(idx, c[i]).Some? && PageSane(idx.pages[c[i]])
    ensures idx.pages[c[i]].next == if i + 1 < |c| then c[i + 1] else P_NONE
    ensures idx.pages[c[i]].Rightmost() <==> i + 1 == |c|
    ensures i > 0 ==> c[i - 1] != P_NONE && c[i - 1] != c[i]
    ensures SpotOf(idx, c, e, i, x).next.leftmost == INVALID_BLOCK && !idx.pages[c[i]].halfDead <==>
              FirstInUse(idx, c, i)
    ensures var p := idx.pages[c[i]];
            !p.Ignore() && p.level == level.level && !p.leaf ==> Ready(idx, p, e, x)
  {
    hide Row;
    ChainMember(idx, level.leftmost, c, i);
    if i + 1 < |c| { ChainMember(idx, level.leftmost, c, i + 1); }
    if i > 0 {
      ChainMember(idx, level.leftmost, c, i - 1);
      ChainOnce(idx, level.leftmost, c, i - 1, i);
    }
    var p := idx.pages[c[i]];
    if !p.Ignore() && p.level == level.level && !p.leaf && x < 0 { assert FirstInUse(idx, c, i); }
  }

  /** The facts about the stage after page i. */
  lemma StageAfter(idx: Index, level: BtreeLevel, c: seq<nat>, e: seq<nat>, i: nat, x: int, y: int)
    requires Given(idx, level, c, e) && Stage(idx, level, c, e, i, x) && i < |c| && y < |e|
    requires var p := idx.pages[c[i]];
             && !p.deleted && (!p.halfDead ==> p.level == level.level)
             && if p.halfDead || p.leaf then y == x else 0 <= y
    ensures Stage(idx, level, c, e, i + 1, y)
    ensures var n, p := NextLevel(idx, c[..i]), idx.pages[c[i]];
            NextLevel(idx, c[..i + 1]) == if n.leftmost != INVALID_BLOCK || p.Ignore() then n else FirstNext(p)
    ensures LowBefore(idx, c, i + 1) == LowAfter(idx.pages[c[i]])
  {
    hide NextLevel;
    PageFacts(idx, level, c, e, i, x);
    assert c[..i + 1] == c[..i] + [c[i]];
    NextStep(idx, c[..i], c[i]);
    var p := idx.pages[c[i]];
    assert Dead(idx, c, i) <==> p.halfDead;
    if !p.halfDead && !p.leaf && FirstInUse(idx, c, i) { ChainMember(idx, e[0], e, 0); }
  }

  /** The visit of page i, when it passes. */
  lemma PageForward(idx: Index, level: BtreeLevel, c: seq<nat>, e: seq<nat>, i: nat, x: int) returns (ys: seq<nat>)
    requires Given(idx, level, c, e) && Stage(idx, level, c, e, i, x) && i < |c|
    requires PageWalk(idx, level, SpotOf(idx, c, e, i, x)).At?
    ensures PagePart(idx, level, c, e, i, x, ys) && Stage(idx, level, c, e, i + 1, Last(x, ys))
    ensures PageWalk(idx, level, SpotOf(idx, c, e, i, x)) == At(SpotOf(idx, c, e, i + 1, Last(x, ys)))
  {
    hide Given, Stage, TargetWalk, NextLevel, LowAfter, FirstNext, Ordered, ItemsTo, RestTo, ReadPage, Leftmost, Ready,
      FirstInUse;
    StageBounds(idx, level, c, e, i, x);
    var s := SpotOf(idx, c, e, i, x);
    PageFacts(idx, level, c, e, i, x);
    VisitCases(idx, level, s);
    var p := idx.pages[c[i]];
    ys := [];
    if !p.halfDead {
      if p.leaf {
        LeafIs(idx, p, s.low, s.place);
      } else {
        ys := TargetForward(idx, p, s.low, e, x);
      }
    }
    StageAfter(idx, level, c, e, i, x, Last(x, ys));
  }

  lemma StageBounds(idx: Index, level: BtreeLevel, c: seq<nat>, e: seq<nat>, i: nat, x: int)
    requires Stage(idx, level, c, e, i, x)
    ensures i <= |c| && -1 <= x < |e| && (level.level == 0 ==> x == -1)
  {
  }

  /** And when it must pass. */
  lemma PageBack(idx: Index, level: BtreeLevel, c: seq<nat>, e: seq<nat>, i: nat, x: int, ys: seq<nat>)
    requires Given(idx, level, c, e) && Stage(idx, level, c, e, i, x) && i < |c|
    requires PagePart(idx, level, c, e, i, x, ys)
    ensures Last(x, ys) < |e| && Stage(idx, level, c, e, i + 1, Last(x, ys))
    ensures PageWalk(idx, level, SpotOf(idx, c, e, i, x)) == At(SpotOf(idx, c, e, i + 1, Last(x, ys)))
  {
    hide Given, Stage, TargetWalk, NextLevel, LowAfter, FirstNext, Ordered, ItemsTo, RestTo, ReadPage, Leftmost, Ready,
      FirstInUse;
    StageBounds(idx, level, c, e, i, x);
    var s := SpotOf(idx, c, e, i, x);
    PageFacts(idx, level, c, e, i, x);
    VisitCases(idx, level, s);
    var p := idx.pages[c[i]];
    if !p.halfDead {
      if p.leaf {
        LeafIs(idx, p, s.low, s.place);
      } else {
        TargetBack(idx, p, s.low, e, x, ys);
      }
    }
    StageAfter(idx, level, c, e, i, x, Last(x, ys));
  }

  // ---------------------------------------------------------------- a level

  /** Where the last child of the pages so far stands. */
  ghost function Cursor(pos: seq<seq<nat>>): int {
    if pos == [] then -1 else Last(Cursor(pos[..|pos| - 1]), pos[|pos| - 1])
  }

  ghost predicate LevelParts(idx: Index, level: BtreeLevel, c: seq<nat>, e: seq<nat>, pos: seq<seq<nat>>) {
    |pos| <= |c| && forall k | 0 <= k < |pos| :: PagePart(idx, level, c, e, k, Cursor(pos[..k]), pos[k])
  }

  lemma PartsMore(idx: Index, level: BtreeLevel, c: seq<nat>, e: seq<nat>, pos: seq<seq<nat>>, ys: seq<nat>)
    requires |pos| < |c| && LevelParts(idx, level, c, e, pos) && PagePart(idx, level, c, e, |pos|, Cursor(pos), ys)
    ensures LevelParts(idx, level, c, e, pos + [ys]) && Cursor(pos + [ys]) == Last(Cursor(pos), ys)
  {
    hide PagePart;
    var more := pos + [ys];
    assert more[..|pos|] == pos;
    forall k | 0 <= k < |more| ensures PagePart(idx, level, c, e, k, Cursor(more[..k]), more[k]) {
      if k < |pos| { assert more[..k] == pos[..k]; }
    }
  }

  lemma PartsLess(idx: Index, level: BtreeLevel, c: seq<nat>, e: seq<nat>, pos: seq<seq<nat>>)
    requires pos != [] && LevelParts(idx, level, c, e, pos)
    ensures LevelParts(idx, level, c, e, pos[..|pos| - 1])
  {
    hide PagePart;
    var less := pos[..|pos| - 1];
    forall k | 0 <= k < |less| ensures PagePart(idx, level, c, e, k, Cursor(less[..k]), less[k]) {
      assert less[..k] == pos[..k];
    }
  }

  lemma StageStart(idx: Index, level: BtreeLevel, c: seq<nat>, e: seq<nat>)
    requires Given(idx, level, c, e)
    ensures Stage(idx, level, c, e, 0, -1) && LevelWalk(idx, level, 0) == At(SpotOf(idx, c, e, 0, -1))
  {
    assert c[..0] == [];
  }

  /** The first n pages of a level that passes: where their children stand. */
  lemma {:induction false} LevelForward(idx: Index, level: BtreeLevel, c: seq<nat>, e: seq<nat>, n: nat)
    returns (pos: seq<seq<nat>>)
    requires Given(idx, level, c, e) && n <= |c| && LevelWalk(idx, level, n).At?
    ensures |pos| == n && LevelParts(idx, level, c, e, pos) && Stage(idx, level, c, e, n, Cursor(pos))
    ensures LevelWalk(idx, level, n) == At(SpotOf(idx, c, e, n, Cursor(pos)))
  {
    hide Given, Stage, PageWalk, PagePart, NextLevel, LowBefore;
    if n == 0 {
      pos := [];
      StageStart(idx, level, c, e);
    } else {
      var less := LevelForward(idx, level, c, e, n - 1);
      var x := Cursor(less);
      StageBounds(idx, level, c, e, n - 1, x);
      PageFacts(idx, level, c, e, n - 1, x);
      var ys := PageForward(idx, level, c, e, n - 1, x);
      PartsMore(idx, level, c, e, less, ys);
      pos := less + [ys];
    }
  }

  /** And a level with its children so passes. */
  lemma {:induction false} LevelBack(idx: Index, level: BtreeLevel, c: seq<nat>, e: seq<nat>, pos: seq<seq<nat>>)
    requires Given(idx, level, c, e) && LevelParts(idx, level, c, e, pos)
    ensures Stage(idx, level, c, e, |pos|, Cursor(pos))
    ensures LevelWalk(idx, level, |pos|) == At(SpotOf(idx, c, e, |pos|, Cursor(pos)))
  {
    hide Given, Stage, PageWalk, PagePart, NextLevel, LowBefore;
    if pos == [] {
      StageStart(idx, level, c, e);
    } else {
      var n := |pos| - 1;
      PartsLess(idx, level, c, e, pos);
      LevelBack(idx, level, c, e, pos[..n]);
      StageBounds(idx, level, c, e, n, Cursor(pos[..n]));
      PageFacts(idx, level, c, e, n, Cursor(pos[..n]));
      PageBack(idx, level, c, e, n, Cursor(pos[..n]), pos[n]);
    }
  }

  // ---------------------------------------------------------------- in terms of keys

  lemma UpperIs(p: Page, low: Option<Tuple>, j: nat, q: Page)
    requires !p.leaf && j < DataCount(p)
    ensures KeyFits(p, low, p.FirstDataKey() + j + 1, q) <==> KeyRepeats(q, UpperKey(p, j))
  {
    hide PivotIdentical;
  }

  lemma BeginIs(idx: Index, c: seq<nat>, i: nat, j: nat, q: Page)
    requires i < |c| && c[i] in idx.pages && !idx.pages[c[i]].leaf && j < DataCount(idx.pages[c[i]])
    requires i > 0 ==> c[i - 1] in idx.pages && !idx.pages[c[i - 1]].Rightmost()
    ensures KeyFits(idx.pages[c[i]], LowBefore(idx, c, i), idx.pages[c[i]].FirstDataKey() + j, q) <==>
            KeyRepeats(q, BeginKey(idx, c, i, j))
  {
    hide PivotIdentical;
  }

  lemma NoneIs(p: Page, low: Option<Tuple>, q: Page)
    ensures KeyFits(p, low, 0, q) <==> KeyRepeats(q, None)
  {
    hide PivotIdentical;
  }

  /** The child of an item, by links and keys. */
  lemma ItemIs(idx: Index, below: nat, c: seq<nat>, e: seq<nat>, x: int, i: nat, j: nat, y: nat)
    requires e != [] && Row(idx, e) && (forall k | 0 <= k < |e| :: e[k] in idx.pages)
    requires i < |c| && c[i] in idx.pages && !idx.pages[c[i]].leaf && j < DataCount(idx.pages[c[i]])
    requires i > 0 ==> c[i - 1] in idx.pages && !idx.pages[c[i - 1]].Rightmost()
    requires idx.pages[c[i]].level == below + 1
    ensures ItemTo(idx, idx.pages[c[i]], LowBefore(idx, c, i), e, x, j, y) <==>
            ChildStands(idx, below, c, e, x, i, j, y)
  {
    hide KeyFits, KeyRepeats, NeedsNone, Leftmost, BoundsChild, LowBefore, UpperKey, BeginKey;
    var p, low := idx.pages[c[i]], LowBefore(idx, c, i);
    var er := Errand(p, low, p.FirstDataKey() + j, PlaceCurOr(idx, e, x));
    assert DataItem(p, j) == p.Item(er.off) && er.Downlink() == DataItem(p, j).downlink;
    if y < |e| {
      UpperIs(p, low, j, idx.pages[e[y]]);
      ChainMember(idx, e[0], e, y);
    }
    forall z: int ensures GoesOver(idx, er, e, z) <==> Between(idx, below, e, z, BeginKey(idx, c, i, j)) {
      if 0 < z < |e| { BeginIs(idx, c, i, j, idx.pages[e[z]]); }
    }
  }

  lemma RestIs(idx: Index, below: nat, p: Page, low: Option<Tuple>, e: seq<nat>, x: int)
    requires e != [] && Row(idx, e) && (forall k | 0 <= k < |e| :: e[k] in idx.pages)
    requires !p.leaf && p.level == below + 1 && 0 <= x < |e|
    ensures RestTo(idx, p, low, e, x) <==> RestBetween(idx, below, e, x)
  {
    hide KeyFits, KeyRepeats, NeedsNone, Leftmost;
    var er := Errand(p, low, 0, PlaceCur(idx, e, x));
    forall z | 0 < z < |e| ensures GoesOver(idx, er, e, z) <==> Between(idx, below, e, z, None) {
      NoneIs(p, low, idx.pages[e[z]]);
    }
  }
}
