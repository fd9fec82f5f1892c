/** The check passes an index, whatever marks interrupted operations have left in it, if and only if it is a marked
    tree (BtreeMarked). */
module BtreeMarkedTree {
  import opened Wrappers
  import opened BtreePages
  import opened BtreeShape
  import opened BtreeLeftmost
  import opened BtreeWalk
  import opened BtreeSweep
  import opened BtreeSteps
  import opened BtreeMarked
  import opened BtreeMarkedWalk
  import opened BtreeMarkedCheck

  // ---------------------------------------------------------------- a level by its parts

  lemma {:induction false} BeforeIs(pos: seq<seq<nat>>, i: nat, j: nat)
    requires i <= |pos| && (if i == |pos| then j == 0 else j <= |pos[i]|)
    ensures Before(pos, i, j) == if i == |pos| then Cursor(pos) else Last(Cursor(pos[..i]), pos[i][..j])
  {
    if j == 0 && i > 0 {
      BeforeIs(pos, i - 1, |pos[i - 1]|);
      assert pos[i - 1][..|pos[i - 1]|] == pos[i - 1];
      assert pos[..i][..i - 1] == pos[..i - 1];
      if i == |pos| { assert pos[..i] == pos; }
    }
  }

  /** No page is deleted, and the last is not half-dead. */
  ghost predicate Base(idx: Index, c: seq<nat>) {
    && (forall k | 0 <= k < |c| :: c[k] in idx.pages)
    && forall k | 0 <= k < |c| :: !idx.pages[c[k]].deleted && (Dead(idx, c, k) ==> !idx.pages[c[k]].Rightmost())
  }

  /** What the shape asks of page i, and where its children stand. */
  ghost predicate PageShape(idx: Index, level: BtreeLevel, c: seq<nat>, e: seq<nat>, pos: seq<seq<nat>>, i: nat)
    requires i < |c| == |pos| && (forall k | 0 <= k < |c| :: c[k] in idx.pages)
    requires forall k | 0 <= k < |e| :: e[k] in idx.pages
  {
    && PageInLevel(idx, level, c, i) && |pos[i]| == ItemsOf(idx, c, i)
    && (level.level > 0 ==>
          && (forall j | 0 <= j < |pos[i]| ::
                ChildStands(idx, level.level - 1, c, e, Before(pos, i, j), i, j, pos[i][j]))
          && (i == |c| - 1 ==> RestBetween(idx, level.level - 1, e, Before(pos, |c|, 0))))
  }

  lemma InternalIs(idx: Index, level: BtreeLevel, c: seq<nat>, e: seq<nat>, i: nat)
    requires Given(idx, level, c, e) && i < |c| && Base(idx, c)
    requires !idx.pages[c[i]].halfDead ==> idx.pages[c[i]].level == level.level
    ensures ItemsOf(idx, c, i) ==
              if idx.pages[c[i]].halfDead || level.level == 0 then 0 else DataCount(idx.pages[c[i]])
    ensures !idx.pages[c[i]].halfDead ==> (idx.pages[c[i]].leaf <==> level.level == 0)
    ensures !idx.pages[c[i]].halfDead && level.level > 0 ==> DataCount(idx.pages[c[i]]) > 0
    ensures idx.pages[c[i]].Rightmost() <==> i == |c| - 1
    ensures !idx.pages[c[i]].Rightmost() && !idx.pages[c[i]].halfDead && !idx.pages[c[i]].leaf ==>
              idx.pages[c[i]].HasItem(P_HIKEY)
    ensures !idx.pages[c[i]].Rightmost() && idx.pages[c[i]].leaf ==> idx.pages[c[i]].HasItem(P_HIKEY)
  {
    hide Row, LinksPresent;
    ChainMember(idx, level.leftmost, c, i);
    if i + 1 < |c| { ChainMember(idx, level.leftmost, c, i + 1); }
  }

  lemma ItemsAre(idx: Index, level: BtreeLevel, c: seq<nat>, e: seq<nat>, pos: seq<seq<nat>>, i: nat)
    requires Given(idx, level, c, e) && Base(idx, c) && i < |c| == |pos| && level.level > 0
    requires forall k | 0 <= k < |e| :: e[k] in idx.pages
    requires var p := idx.pages[c[i]]; !p.Ignore() && !p.leaf && p.level == level.level && |pos[i]| == DataCount(p) > 0
    ensures ItemsTo(idx, idx.pages[c[i]], LowBefore(idx, c, i), e, Cursor(pos[..i]), pos[i]) <==>
            forall j | 0 <= j < |pos[i]| ::
              ChildStands(idx, level.level - 1, c, e, Before(pos, i, j), i, j, pos[i][j])
  {
    hide ItemTo, ChildStands, LowBefore, Before, Cursor, LinksPresent, Row;
    var p, below, x, ys := idx.pages[c[i]], level.level - 1, Cursor(pos[..i]), pos[i];
    InternalIs(idx, level, c, e, i);
    if i > 0 { NotLast(idx, level, c, e, i - 1); }
    forall j | 0 <= j < |ys|
      ensures ItemTo(idx, p, LowBefore(idx, c, i), e, Last(x, ys[..j]), j, ys[j]) <==>
              ChildStands(idx, below, c, e, Before(pos, i, j), i, j, ys[j])
    {
      BeforeIs(pos, i, j);
      ItemIs(idx, below, c, e, Last(x, ys[..j]), i, j, ys[j]);
    }
  }

  lemma RestAre(idx: Index, level: BtreeLevel, c: seq<nat>, e: seq<nat>, pos: seq<seq<nat>>)
    requires Given(idx, level, c, e) && |c| == |pos| > 0 && level.level > 0
    requires forall k | 0 <= k < |e| :: e[k] in idx.pages
    requires c[|c| - 1] in idx.pages
    requires var p, ys := idx.pages[c[|c| - 1]], pos[|c| - 1];
             && !p.leaf && p.level == level.level && |ys| == DataCount(p) > 0
             && ItemsTo(idx, p, LowBefore(idx, c, |c| - 1), e, Cursor(pos[..|c| - 1]), ys)
    ensures RestTo(idx, idx.pages[c[|c| - 1]], LowBefore(idx, c, |c| - 1), e,
                   Last(Cursor(pos[..|c| - 1]), pos[|c| - 1])) <==>
            RestBetween(idx, level.level - 1, e, Before(pos, |c|, 0))
  {
    hide ItemTo, RestTo, RestBetween, LowBefore, Before, Cursor, LinksPresent, Row;
    var i := |c| - 1;
    var p, low, x, ys := idx.pages[c[i]], LowBefore(idx, c, i), Cursor(pos[..i]), pos[i];
    BeforeIs(pos, |c|, 0);
    CursorLast(pos);
    var n := |ys| - 1;
    assert ItemTo(idx, p, low, e, Last(x, ys[..n]), n, ys[n]);
    ItemToIn(idx, p, low, e, Last(x, ys[..n]), n, ys[n]);
    RestIs(idx, level.level - 1, p, low, e, ys[n]);
  }

  /** The children of page i stand where the walks of the check found them. */
  lemma ChildrenAre(idx: Index, level: BtreeLevel, c: seq<nat>, e: seq<nat>, pos: seq<seq<nat>>, i: nat)
    requires Given(idx, level, c, e) && Base(idx, c) && i < |c| == |pos| && level.level > 0
    requires forall k | 0 <= k < |e| :: e[k] in idx.pages
    requires var p := idx.pages[c[i]]; !p.Ignore() && !p.leaf && p.level == level.level && |pos[i]| == DataCount(p) > 0
    ensures var p := idx.pages[c[i]];
            PageChildren(idx, p, LowBefore(idx, c, i), e, Cursor(pos[..i]), pos[i]) <==>
              && (forall j | 0 <= j < |pos[i]| ::
                    ChildStands(idx, level.level - 1, c, e, Before(pos, i, j), i, j, pos[i][j]))
              && (i == |c| - 1 ==> RestBetween(idx, level.level - 1, e, Before(pos, |c|, 0)))
  {
    hide ItemsTo, RestTo, ChildStands, RestBetween, LowBefore, Before, Cursor, Given, Last;
    var p := idx.pages[c[i]];
    InternalIs(idx, level, c, e, i);
    ItemsAre(idx, level, c, e, pos, i);
    if i == |c| - 1 && ItemsTo(idx, p, LowBefore(idx, c, i), e, Cursor(pos[..i]), pos[i]) {
      RestAre(idx, level, c, e, pos);
    }
  }

  lemma NotLast(idx: Index, level: BtreeLevel, c: seq<nat>, e: seq<nat>, i: nat)
    requires Given(idx, level, c, e) && i + 1 < |c|
    ensures c[i] in idx.pages && !idx.pages[c[i]].Rightmost()
  {
    hide Row, LinksPresent;
    ChainMember(idx, level.leftmost, c, i);
    ChainMember(idx, level.leftmost, c, i + 1);
  }

  lemma CursorLast(pos: seq<seq<nat>>)
    requires pos != [] && pos[|pos| - 1] != []
    ensures Cursor(pos) == var ys := pos[|pos| - 1]; ys[|ys| - 1]
  {
  }

  /** What the check asks of page i is what the shape asks. */
  lemma PageIs(idx: Index, level: BtreeLevel, c: seq<nat>, e: seq<nat>, pos: seq<seq<nat>>, i: nat)
    requires Given(idx, level, c, e) && Base(idx, c) && i < |c| == |pos|
    requires forall k | 0 <= k < |e| :: e[k] in idx.pages
    ensures PagePart(idx, level, c, e, i, Cursor(pos[..i]), pos[i]) <==> PageShape(idx, level, c, e, pos, i)
  {
    hide Ordered, InPage, BelowNext, ChildStands, RestBetween, PageChildren, Leftmost, LowBefore, Before, Cursor,
      FirstInUse, Row, LinksPresent;
    var p := idx.pages[c[i]];
    assert LevelChain(idx, c[0], c);
    OrderedIs(idx, c, i);
    if p.halfDead || p.level == level.level { InternalIs(idx, level, c, e, i); }
    if !p.halfDead && p.level == level.level {
      if p.leaf {
        LeafChildren(idx, p, LowBefore(idx, c, i), e, Cursor(pos[..i]), pos[i]);
      } else if |pos[i]| == DataCount(p) {
        ChildrenAre(idx, level, c, e, pos, i);
      } else {
        CountChildren(idx, p, LowBefore(idx, c, i), e, Cursor(pos[..i]), pos[i]);
      }
    }
  }

  lemma LeafChildren(idx: Index, p: Page, low: Option<Tuple>, e: seq<nat>, x: int, ys: seq<nat>)
    requires p.leaf
    ensures PageChildren(idx, p, low, e, x, ys) <==> ys == []
  {
  }

  lemma CountChildren(idx: Index, p: Page, low: Option<Tuple>, e: seq<nat>, x: int, ys: seq<nat>)
    requires !p.leaf && |ys| != DataCount(p)
    ensures !PageChildren(idx, p, low, e, x, ys)
  {
  }

  lemma PartsBase(idx: Index, level: BtreeLevel, c: seq<nat>, e: seq<nat>, pos: seq<seq<nat>>)
    requires |pos| == |c| && LevelParts(idx, level, c, e, pos)
    ensures Base(idx, c)
  {
    hide PageChildren, Ordered, Leftmost, FirstInUse;
    forall k | 0 <= k < |c|
      ensures c[k] in idx.pages && !idx.pages[c[k]].deleted && (Dead(idx, c, k) ==> !idx.pages[c[k]].Rightmost())
    {
      assert PagePart(idx, level, c, e, k, Cursor(pos[..k]), pos[k]);
    }
  }

  lemma MarkedBase(idx: Index, level: BtreeLevel, c: seq<nat>)
    requires MarkedLevel(idx, level, c)
    ensures Base(idx, c) && c != [] && Row(idx, c)
  {
    hide InPage, BelowNext, Leftmost, FirstInUse;
    forall k | 0 <= k < |c|
      ensures !idx.pages[c[k]].deleted && (Dead(idx, c, k) ==> !idx.pages[c[k]].Rightmost()) &&
              idx.pages[c[k]].prev != c[k]
    {
      assert PageInLevel(idx, level, c, k);
    }
  }

  /** Pages of the right shape make up the shape of the level. */
  lemma ShapesAre(idx: Index, level: BtreeLevel, c: seq<nat>, e: seq<nat>, pos: seq<seq<nat>>)
    requires LevelChain(idx, level.leftmost, c) && |pos| == |c| && (forall k | 0 <= k < |c| :: c[k] in idx.pages)
    requires forall k | 0 <= k < |e| :: e[k] in idx.pages
    requires forall i | 0 <= i < |c| :: PageShape(idx, level, c, e, pos, i)
    ensures MarkedLevel(idx, level, c) && (level.level > 0 ==> ChildrenStand(idx, level.level - 1, c, e, pos))
  {
    hide LevelChain, PageInLevel, ChildStands, RestBetween, Before;
    forall i | 0 <= i < |c| ensures PageInLevel(idx, level, c, i) && |pos[i]| == ItemsOf(idx, c, i) {
      assert PageShape(idx, level, c, e, pos, i);
    }
    if level.level > 0 {
      var below := level.level - 1;
      forall i, j | 0 <= i < |c| && 0 <= j < |pos[i]|
        ensures ChildStands(idx, below, c, e, Before(pos, i, j), i, j, pos[i][j])
      {
        assert PageShape(idx, level, c, e, pos, i);
      }
      ChainSome(idx, level.leftmost, c);
      assert PageShape(idx, level, c, e, pos, |c| - 1);
    }
  }

  lemma ChainSome(idx: Index, start: nat, c: seq<nat>)
    requires LevelChain(idx, start, c)
    ensures c != [] && c[0] == start && forall k | 0 <= k < |c| :: c[k] in idx.pages
  {
  }

  /** All pages of a level pass: the level has the shape. */
  lemma PartsForward(idx: Index, level: BtreeLevel, c: seq<nat>, e: seq<nat>, pos: seq<seq<nat>>)
    requires Given(idx, level, c, e) && |pos| == |c| && (forall k | 0 <= k < |c| :: c[k] in idx.pages)
    requires (forall k | 0 <= k < |e| :: e[k] in idx.pages) && LevelParts(idx, level, c, e, pos)
    ensures MarkedLevel(idx, level, c) && (level.level > 0 ==> ChildrenStand(idx, level.level - 1, c, e, pos))
  {
    hide PagePart, PageShape, MarkedLevel, ChildrenStand, Row, LinksPresent, LevelChain;
    PartsBase(idx, level, c, e, pos);
    forall i | 0 <= i < |c| ensures PageShape(idx, level, c, e, pos, i) {
      assert PagePart(idx, level, c, e, i, Cursor(pos[..i]), pos[i]);
      PageIs(idx, level, c, e, pos, i);
    }
    ShapesAre(idx, level, c, e, pos);
  }

  /** A level has the shape: all its pages pass. */
  lemma PartsBack(idx: Index, level: BtreeLevel, c: seq<nat>, e: seq<nat>, pos: seq<seq<nat>>)
    requires Given(idx, level, c, e) && |pos| == |c| && (forall k | 0 <= k < |c| :: c[k] in idx.pages)
    requires (forall k | 0 <= k < |e| :: e[k] in idx.pages) && MarkedLevel(idx, level, c)
    requires forall i | 0 <= i < |c| :: |pos[i]| == ItemsOf(idx, c, i)
    requires level.level > 0 ==> ChildrenStand(idx, level.level - 1, c, e, pos)
    ensures LevelParts(idx, level, c, e, pos)
  {
    hide PagePart, PageInLevel, ChildStands, RestBetween, Row, LinksPresent, Before, LevelChain;
    MarkedBase(idx, level, c);
    forall i | 0 <= i < |c| ensures PagePart(idx, level, c, e, i, Cursor(pos[..i]), pos[i]) {
      PageIs(idx, level, c, e, pos, i);
    }
  }

  // ---------------------------------------------------------------- what is given of a level

  lemma {:induction false} AtPrefix(idx: Index, level: BtreeLevel, n: nat, m: nat)
    requires LevelWalk(idx, level, n).At? && m <= n
    ensures LevelWalk(idx, level, m).At?
  {
    hide PageWalk;
    if m < n { AtPrefix(idx, level, n - 1, m); }
  }

  /** A walk that came to its end gives the blocks of the level. */
  lemma {:induction false} ChainFrom(idx: Index, level: BtreeLevel, n: nat) returns (c: seq<nat>)
    requires LevelWalk(idx, level, n).At? && level.leftmost != P_NONE
    requires LevelWalk(idx, level, n).spot.current == P_NONE
    ensures LevelChain(idx, level.leftmost, c) && LevelWalk(idx, level, |c|).At?
    ensures LevelWalk(idx, level, n) == LevelWalk(idx, level, |c|)
  {
    hide PageWalk;
    AtPrefix(idx, level, n, n - 1);
    if LevelWalk(idx, level, n - 1).spot.current == P_NONE {
      c := ChainFrom(idx, level, n - 1);
    } else {
      c := seq(n, k requires 0 <= k < n => RightAt(idx, level.leftmost, k));
      forall k | 0 <= k < n
        ensures c[k] != P_NONE && ReadPage(idx, c[k]).Some?
        ensures idx.pages[c[k]].next == if k + 1 < n then c[k + 1] else P_NONE
      {
        WalkMember(idx, level, n, k);
      }
      WalkMember(idx, level, n, n - 1);
    }
  }

  lemma WalkMember(idx: Index, level: BtreeLevel, n: nat, k: nat)
    requires k < n && LevelWalk(idx, level, n).At? && LevelWalk(idx, level, n).spot.current == P_NONE
    requires LevelWalk(idx, level, n - 1).At? && LevelWalk(idx, level, n - 1).spot.current != P_NONE
    ensures var b := RightAt(idx, level.leftmost, k);
            b != P_NONE && ReadPage(idx, b).Some? && idx.pages[b].next == RightAt(idx, level.leftmost, k + 1)
    ensures RightAt(idx, level.leftmost, n) == P_NONE
  {
    hide PageWalk;
    AtPrefix(idx, level, n, k);
    AtPrefix(idx, level, n, k + 1);
    WalkIsAt(idx, level, k);
    WalkIsAt(idx, level, k + 1);
    WalkIsAt(idx, level, n);
    var s := LevelWalk(idx, level, k).spot;
    if s.current == P_NONE {
      WalkStuck(idx, level, k, n - 1);
    } else {
      AtRead(idx, level, s);
      AtFacts(idx, level, s);
    }
  }

  lemma AtRead(idx: Index, level: BtreeLevel, s: Spot)
    requires PageWalk(idx, level, s).At?
    ensures ReadPage(idx, s.current).Some?
  {
    hide TargetWalk, SpotFits, FirstNext, NoCircle, LowAfter;
  }

  /** The walk along a level is where its right links lead. */
  lemma {:induction false} WalkIsAt(idx: Index, level: BtreeLevel, n: nat)
    requires LevelWalk(idx, level, n).At?
    ensures LevelWalk(idx, level, n).spot.current == RightAt(idx, level.leftmost, n)
  {
    hide PageWalk;
    if n > 0 {
      WalkIsAt(idx, level, n - 1);
      var s := LevelWalk(idx, level, n - 1).spot;
      if s.current != P_NONE { AtFacts(idx, level, s); }
    }
  }

  /** The level named next by a walk along the blocks c. */
  lemma {:induction false} NextOfWalk(idx: Index, level: BtreeLevel, c: seq<nat>, n: nat)
    requires LevelChain(idx, level.leftmost, c) && n <= |c| && LevelWalk(idx, level, n).At?
    ensures LevelWalk(idx, level, n).spot.next == NextLevel(idx, c[..n])
    ensures (forall k: nat | k < n :: Dead(idx, c, k)) ==> LevelWalk(idx, level, n).spot.place == NOWHERE
  {
    hide PageWalk, LevelChain, NextLevel;
    if n == 0 {
      assert c[..0] == [];
      StandsStart(idx, level);
    } else {
      AtPrefix(idx, level, n, n - 1);
      NextOfWalk(idx, level, c, n - 1);
      WalkIsAt(idx, level, n - 1);
      ChainAt(idx, level.leftmost, c, n - 1);
      ChainMember(idx, level.leftmost, c, n - 1);
      var s := LevelWalk(idx, level, n - 1).spot;
      AtFacts(idx, level, s);
      assert c[..n] == c[..n - 1] + [c[n - 1]];
      NextStep(idx, c[..n - 1], c[n - 1]);
      if forall k: nat | k < n :: Dead(idx, c, k) {
        assert Dead(idx, c, n - 1);
        DeadKeeps(idx, level, s);
      }
    }
  }

  lemma DeadKeeps(idx: Index, level: BtreeLevel, s: Spot)
    requires PageWalk(idx, level, s).At? && s.current in idx.pages && idx.pages[s.current].halfDead
    ensures PageWalk(idx, level, s).spot.place == s.place && !idx.pages[s.current].Rightmost()
  {
    hide TargetWalk, SpotFits, FirstNext, NoCircle, LowAfter;
  }

  lemma {:induction false} NextStays(idx: Index, c: seq<nat>, i: nat, n: nat)
    requires i <= n <= |c| && NextLevel(idx, c[..i]).leftmost != INVALID_BLOCK
    ensures NextLevel(idx, c[..n]) == NextLevel(idx, c[..i])
  {
    if i < n {
      NextStays(idx, c, i, n - 1);
      assert c[..n][..n - 1] == c[..n - 1];
    }
  }

  /** A page whose first downlink is the invalid block number does not pass at the head of a level. */
  lemma InvalidFails(idx: Index, p: Page, low: Option<Tuple>)
    requires !p.leaf && DataCount(p) > 0 && INVALID_BLOCK !in idx.pages && DataItem(p, 0).downlink == INVALID_BLOCK
    ensures !TargetWalk(idx, p, low, NOWHERE).Go?
  {
    hide ChildWalk, ItemOk, LastWalk, ChildAbove, AttsOk;
    var er := Errand(p, low, p.FirstDataKey(), NOWHERE);
    assert er.Downlink() == INVALID_BLOCK;
    InvalidStops(idx, er);
    assert ItemsWalk(idx, p, low, NOWHERE, 0) == Go(NOWHERE);
    assert ItemsWalk(idx, p, low, NOWHERE, 1) == ItemWalk(idx, er);
    ItemsStuck(idx, p, low, NOWHERE, 1, DataCount(p));
  }

  lemma VisitedInUse(idx: Index, level: BtreeLevel, s: Spot)
    requires PageWalk(idx, level, s).At? && s.current in idx.pages && !idx.pages[s.current].Ignore()
    ensures idx.pages[s.current].level == level.level && TargetWalk(idx, idx.pages[s.current], s.low, s.place).Go?
  {
    hide TargetWalk, Leftmost, FirstNext, NoCircle, LowAfter;
  }

  /** The first page in use of an internal level names the next level. */
  lemma FirstStart(idx: Index, level: BtreeLevel, c: seq<nat>, i: nat)
    requires LevelChain(idx, level.leftmost, c) && LinksPresent(idx) && LevelWalk(idx, level, |c|).At?
    requires FirstInUse(idx, c, i) && level.level > 0
    ensures c[i] in idx.pages && FirstNext(idx.pages[c[i]]).leftmost !in {P_NONE, INVALID_BLOCK}
    ensures NextLevel(idx, c[..|c|]) == FirstNext(idx.pages[c[i]])
    ensures FirstNext(idx.pages[c[i]]) == BtreeLevel(level.level - 1, FirstNext(idx.pages[c[i]]).leftmost, false)
  {
    hide PageWalk, LevelChain, NextLevel, TargetWalk;
    ChainMember(idx, level.leftmost, c, i);
    AtPrefix(idx, level, |c|, i);
    AtPrefix(idx, level, |c|, i + 1);
    WalkIsAt(idx, level, i);
    ChainAt(idx, level.leftmost, c, i);
    NextOfWalk(idx, level, c, i);
    var s, p := LevelWalk(idx, level, i).spot, idx.pages[c[i]];
    AtFacts(idx, level, s);
    VisitedInUse(idx, level, s);
    assert !p.leaf && DataCount(p) > 0;
    if DataItem(p, 0).downlink == INVALID_BLOCK { InvalidFails(idx, p, s.low); }
    NextUntil(idx, c, i);
    assert c[..i + 1] == c[..i] + [c[i]];
    NextStep(idx, c[..i], c[i]);
    NextStays(idx, c, i + 1, |c|);
  }

  lemma {:induction false} NextUntil(idx: Index, c: seq<nat>, i: nat)
    requires i <= |c| && forall k: nat | k < i :: Dead(idx, c, k)
    ensures NextLevel(idx, c[..i]).leftmost == INVALID_BLOCK
  {
    if i > 0 {
      NextUntil(idx, c, i - 1);
      assert Dead(idx, c, i - 1);
      assert c[..i][..i - 1] == c[..i - 1];
    }
  }

  // ---------------------------------------------------------------- the whole tree

  lemma FindFirst(idx: Index, c: seq<nat>, k: nat) returns (i: nat)
    requires k < |c| && !Dead(idx, c, |c| - 1) && forall z: nat | z < k :: Dead(idx, c, z)
    ensures FirstInUse(idx, c, i)
    decreases |c| - k
  {
    if Dead(idx, c, k) { i := FindFirst(idx, c, k + 1); } else { i := k; }
  }

  /** A level that passes: its blocks, and the level it names next. */
  lemma LevelPassed(idx: Index, level: BtreeLevel) returns (c: seq<nat>)
    requires FateOf(idx, level).Down? && level.leftmost != P_NONE
    ensures LevelChain(idx, level.leftmost, c) && LevelWalk(idx, level, |c|).At?
    ensures FateOf(idx, level) == Down(NextLevel(idx, c[..|c|])) && !Dead(idx, c, |c| - 1)
  {
    hide LevelWalk, LevelChain, NextLevel;
    var n: nat :| !GoesOn(idx, level, n) && LevelWalk(idx, level, n).At?;
    c := ChainFrom(idx, level, n);
    NextOfWalk(idx, level, c, |c|);
    FateIs(idx, level, n);
    LastInUse(idx, level, c);
  }

  lemma LastInUse(idx: Index, level: BtreeLevel, c: seq<nat>)
    requires LevelChain(idx, level.leftmost, c) && LevelWalk(idx, level, |c|).At?
    ensures !Dead(idx, c, |c| - 1)
  {
    hide PageWalk;
    var n := |c| - 1;
    AtPrefix(idx, level, |c|, n);
    WalkIsAt(idx, level, n);
    ChainAt(idx, level.leftmost, c, n);
    if Dead(idx, c, n) { DeadKeeps(idx, level, LevelWalk(idx, level, n).spot); }
  }

  lemma LevelShape(idx: Index, level: BtreeLevel, c: seq<nat>, e: seq<nat>)
    requires Given(idx, level, c, e) && LevelWalk(idx, level, |c|).At? && (level.level == 0 ==> e == [])
    ensures MarkedLevel(idx, level, c) && (level.level > 0 ==> BtreeMarked.Below(idx, level.level - 1, c, e))
  {
    hide LevelParts, LinksPresent, MarkedLevel, ChildrenStand;
    var pos := LevelForward(idx, level, c, e, |c|);
    PartsForward(idx, level, c, e, pos);
  }

  /** An index that passes is a marked tree from the given level down. */
  lemma {:induction false} PassesTower(idx: Index, level: BtreeLevel) returns (levels: seq<seq<nat>>)
    requires TreeFate(idx, level) == Passes && LinksPresent(idx) && level.leftmost != P_NONE
    ensures MarkedTower(idx, level, levels)
    decreases level.level
  {
    hide FateOf, LinksPresent, MarkedLevel, LevelChain, NextLevel, LevelWalk, FirstNext, Row, BtreeMarked.Below;
    var c := LevelPassed(idx, level);
    ChainSome(idx, level.leftmost, c);
    if level.level == 0 {
      LevelShape(idx, level, c, []);
      levels := [c];
    } else {
      var i := FindFirst(idx, c, 0);
      FirstStart(idx, level, c, i);
      var next := FateOf(idx, level).next;
      var lower := PassesTower(idx, next);
      var e := lower[0];
      MarkedBase(idx, next, e);
      MarkedStart(idx, next, e);
      forall k | 0 <= k < |c| && FirstInUse(idx, c, k) ensures FirstNext(idx.pages[c[k]]).leftmost == e[0] {
        FirstStart(idx, level, c, k);
      }
      LevelShape(idx, level, c, e);
      levels := [c] + lower;
      assert levels[1..] == lower;
    }
  }

  lemma MarkedStart(idx: Index, level: BtreeLevel, c: seq<nat>)
    requires MarkedLevel(idx, level, c)
    ensures LevelChain(idx, level.leftmost, c) && c != [] && c[0] == level.leftmost
  {
  }

  /** The first child of a level stands at the left end of the level below. */
  lemma FirstChildIs(idx: Index, level: BtreeLevel, c: seq<nat>, e: seq<nat>, pos: seq<seq<nat>>, i: nat)
    requires MarkedLevel(idx, level, c) && level.level > 0 && FirstInUse(idx, c, i)
    requires (forall k | 0 <= k < |c| :: c[k] in idx.pages) && (forall k | 0 <= k < |e| :: e[k] in idx.pages)
    requires ChildrenStand(idx, level.level - 1, c, e, pos)
    ensures e != [] && FirstNext(idx.pages[c[i]]) == BtreeLevel(level.level - 1, e[0], false)
  {
    hide InPage, BelowNext, Leftmost, RestBetween, LevelChain;
    MarkedBase(idx, level, c);
    MarkedStart(idx, level, c);
    ChainMember(idx, level.leftmost, c, i);
    assert PageInLevel(idx, level, c, i);
    assert |pos[i]| > 0;
    NoneBefore(idx, c, pos, i);
    assert ChildStands(idx, level.level - 1, c, e, Before(pos, i, 0), i, 0, pos[i][0]);
  }

  lemma {:induction false} NoneBefore(idx: Index, c: seq<nat>, pos: seq<seq<nat>>, i: nat)
    requires i < |c| == |pos| && (forall k | 0 <= k < |c| :: |pos[k]| == ItemsOf(idx, c, k))
    requires forall k: nat | k < i :: Dead(idx, c, k)
    ensures Before(pos, i, 0) == -1
  {
    if i > 0 {
      assert Dead(idx, c, i - 1) && |pos[i - 1]| == 0;
      NoneBefore(idx, c, pos, i - 1);
    }
  }

  /** A level of the right shape passes and names the next. */
  lemma ShapePasses(idx: Index, level: BtreeLevel, c: seq<nat>, e: seq<nat>, pos: seq<seq<nat>>)
    requires MarkedLevel(idx, level, c) && LinksPresent(idx) && (forall k | 0 <= k < |c| :: c[k] in idx.pages)
    requires (forall k | 0 <= k < |e| :: e[k] in idx.pages) && |pos| == |c|
    requires forall i | 0 <= i < |c| :: |pos[i]| == ItemsOf(idx, c, i)
    requires level.level > 0 ==> e != [] && Row(idx, e) && ChildrenStand(idx, level.level - 1, c, e, pos)
    ensures !GoesOn(idx, level, |c|)
    ensures FateOf(idx, level) ==
              Down(if level.level == 0 then BtreeLevel(0xFFFF_FFFF, P_NONE, false)
                   else BtreeLevel(level.level - 1, e[0], false))
  {
    hide LinksPresent, Row, ChildrenStand, FateOf, LevelWalk, FirstNext, NextLevel, MarkedLevel, LevelParts, LevelChain;
    MarkedStart(idx, level, c);
    MarkedBase(idx, level, c);
    LastLive(idx, level, c);
    var i := FindFirst(idx, c, 0);
    forall k | 0 <= k < |c| && FirstInUse(idx, c, k) && level.level > 0
      ensures FirstNext(idx.pages[c[k]]) == BtreeLevel(level.level - 1, e[0], false)
    {
      FirstChildIs(idx, level, c, e, pos, k);
    }
    var e' := if level.level == 0 then [] else e;
    PartsBack(idx, level, c, e', pos);
    LevelBack(idx, level, c, e', pos);
    assert c[..|c|] == c;
    FateIs(idx, level, |c|);
    NextUntil(idx, c, i);
    assert c[..i + 1] == c[..i] + [c[i]];
    NextStep(idx, c[..i], c[i]);
    FirstNamed(idx, level, c, i);
    if level.level > 0 { ChainFirst(idx, e); }
    PresentBlock(idx);
    NextStays(idx, c, i + 1, |c|);
  }

  lemma LastLive(idx: Index, level: BtreeLevel, c: seq<nat>)
    requires MarkedLevel(idx, level, c)
    ensures !Dead(idx, c, |c| - 1)
  {
    hide InPage, BelowNext, Leftmost, FirstInUse;
    assert PageInLevel(idx, level, c, |c| - 1);
  }

  lemma FirstNamed(idx: Index, level: BtreeLevel, c: seq<nat>, i: nat)
    requires MarkedLevel(idx, level, c) && FirstInUse(idx, c, i)
    ensures c[i] in idx.pages && !idx.pages[c[i]].Ignore()
    ensures level.level == 0 ==> FirstNext(idx.pages[c[i]]) == BtreeLevel(0xFFFF_FFFF, P_NONE, false)
  {
    hide InPage, BelowNext, Leftmost;
    ChainMember(idx, level.leftmost, c, i);
    assert PageInLevel(idx, level, c, i);
  }

  lemma ChainFirst(idx: Index, e: seq<nat>)
    requires e != [] && Row(idx, e)
    ensures e[0] in idx.pages && e[0] != P_NONE
  {
    ChainMember(idx, e[0], e, 0);
  }

  lemma PresentBlock(idx: Index)
    requires LinksPresent(idx)
    ensures INVALID_BLOCK !in idx.pages
  {
  }

  /** With ample fuel no level of a marked tree takes too long. */
  lemma {:induction false} TowerPasses(idx: Index, level: BtreeLevel, levels: seq<seq<nat>>, fuel: nat)
    requires MarkedTower(idx, level, levels) && LinksPresent(idx)
    ensures TreeFate(idx, level) == Passes && (Ample(idx, fuel) ==> TreeSettles(idx, level, fuel))
    decreases level.level
  {
    hide MarkedLevel, LinksPresent, FateOf, GoesOn, ChildrenStand, Row, Ample;
    var c := levels[0];
    MarkedStart(idx, level, c);
    ChainSome(idx, level.leftmost, c);
    ChainFits(idx, level.leftmost, c);
    if level.level == 0 {
      var pos := seq(|c|, k => []);
      forall k | 0 <= k < |c| ensures |pos[k]| == ItemsOf(idx, c, k) { LeafLevel(idx, level, c, k); }
      ShapePasses(idx, level, c, [], pos);
    } else {
      var e, below := levels[1], BtreeLevel(level.level - 1, levels[1][0], false);
      assert levels[1..][0] == e;
      MarkedBase(idx, below, e);
      var pos :| ChildrenStand(idx, level.level - 1, c, e, pos);
      ItemsCounted(idx, level.level - 1, c, e, pos);
      ShapePasses(idx, level, c, e, pos);
      ChainFirst(idx, e);
      PresentBlock(idx);
      TowerPasses(idx, below, levels[1..], fuel);
    }
    SettledAt(idx, level, |c|, fuel);
  }

  lemma ItemsCounted(idx: Index, below: nat, c: seq<nat>, e: seq<nat>, pos: seq<seq<nat>>)
    requires (forall k | 0 <= k < |c| :: c[k] in idx.pages) && (forall k | 0 <= k < |e| :: e[k] in idx.pages)
    requires ChildrenStand(idx, below, c, e, pos)
    ensures |pos| == |c| && forall i | 0 <= i < |c| :: |pos[i]| == ItemsOf(idx, c, i)
  {
  }

  lemma SettledAt(idx: Index, level: BtreeLevel, n: nat, fuel: nat)
    requires !GoesOn(idx, level, n) && n <= |idx.pages|
    ensures Ample(idx, fuel) ==> Settles(idx, level, fuel)
  {
  }

  lemma LeafLevel(idx: Index, level: BtreeLevel, c: seq<nat>, k: nat)
    requires MarkedLevel(idx, level, c) && level.level == 0 && k < |c|
    ensures ItemsOf(idx, c, k) == 0
  {
    hide InPage, BelowNext, Leftmost, FirstInUse;
    ChainMember(idx, level.leftmost, c, k);
    assert PageInLevel(idx, level, c, k);
  }

  lemma ChainFits(idx: Index, start: nat, c: seq<nat>)
    requires LevelChain(idx, start, c)
    ensures |c| <= |idx.pages|
  {
    hide LevelChain;
    forall i, j | 0 <= i < j < |c| ensures c[i] != c[j] { ChainOnce(idx, start, c, i, j); }
    ChainSome(idx, start, c);
    DistinctFit(c, idx.pages);
  }

  /** The check is bound to pass an index if and only if it is a marked tree. */
  lemma MarkedExact(idx: Index)
    requires LinksPresent(idx)
    ensures IndexFate(idx) == Passes <==> MarkedTree(idx)
    ensures MarkedTree(idx) ==> forall fuel: nat | Ample(idx, fuel) :: IndexSettles(idx, fuel)
  {
    hide LinksPresent, MarkedTower, TreeFate, TreeSettles, Ample, ReadPage;
    var top := BtreeLevel(idx.rootLevel, idx.root, true);
    if IndexFate(idx) == Passes && idx.root != P_NONE { var levels := PassesTower(idx, top); }
    if MarkedTree(idx) && idx.root != P_NONE {
      var levels :| MarkedTower(idx, top, levels);
      forall fuel: nat ensures TreeFate(idx, top) == Passes && (Ample(idx, fuel) ==> TreeSettles(idx, top, fuel)) {
        TowerPasses(idx, top, levels, fuel);
      }
      assert Ample(idx, 0) || !Ample(idx, 0);
      TowerPasses(idx, top, levels, 0);
    }
  }
}
