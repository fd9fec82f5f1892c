/** What a pass says of an index with unfinished splits and deletions, and an index that shows the key the check
    compares across the boundary of two parent pages. */
module BtreeSplit {
  import opened Wrappers
  import opened BtreePages
  import opened BtreeOrder
  import opened BtreeShape
  import opened BtreeLeftmost
  import opened BtreeWalk
  import opened BtreeSteps
  import opened BtreeMarked
  import BtreeMarkedWalk
  import opened BtreeMarkedTree
  import opened BtreeCheck
  import opened BtreeGap

  /** The check of an index with links that lead to blocks: a pass means a marked tree, and every marked tree passes. */
  method CheckMarked(idx: Index, fuel: nat) returns (v: Verdict)
    requires LinksPresent(idx)
    ensures v.Pass? ==> MarkedTree(idx)
    ensures MarkedTree(idx) && Ample(idx, fuel) ==> v.Pass?
    ensures v.Corrupt? ==> !MarkedTree(idx)
  {
    hide LinksPresent, MarkedTree, IndexFate, IndexSettles, Ample;
    MarkedExact(idx);
    v := CheckEveryLevel(idx, fuel);
  }

  // ---------------------------------------------------------------- an unfinished split

  /** Three levels.  Leaf 4 was split and its right half, leaf 6, has no downlink yet; it is the last leaf below page 2
      and ends at 50, the high key of page 2, and the leaf after it is the first below page 3. */
  function SplitIndex(last: int): Index {
    Index(map[0 := META,
              1 := Node(0, 0, 2, true, [MinusInfinity(2), Pivot(50, 3)]),
              2 := Node(0, 3, 1, false, [Pivot(50, 0), MinusInfinity(4)]),
              3 := Node(2, 0, 1, false, [MinusInfinity(5)]),
              4 := Node(0, 6, 0, false, [Pivot(30, 0), Row(10, 1)]).(incompleteSplit := true),
              5 := Node(6, 0, 0, false, [Row(60, 3)]),
              6 := Node(4, 5, 0, false, [Pivot(last, 0), Row(40, 2)])],
          1, 2, 1)
  }

  lemma SplitLinks(last: int)
    ensures LinksPresent(SplitIndex(last)) && ReadPage(SplitIndex(last), BTREE_METAPAGE).Some?
  {
    hide PageSane;
    var idx := SplitIndex(last);
    assert idx.pages.Keys == {0, 1, 2, 3, 4, 5, 6};
    assert NonZero(idx.pages[1]) && NonZero(idx.pages[2]) && NonZero(idx.pages[3]);
  }

  lemma SplitChains(last: int)
    ensures var idx := SplitIndex(last);
            LevelChain(idx, 1, [1]) && LevelChain(idx, 2, [2, 3]) && LevelChain(idx, 4, [4, 6, 5])
  {
  }

  lemma SplitLeftmost()
    ensures var idx := SplitIndex(50); Leftmost(idx, 1) && Leftmost(idx, 2) && Leftmost(idx, 4)
  {
    var idx := SplitIndex(50);
    assert LeftPath(idx, 1, [1]) && LeftOf(idx, [1]) == P_NONE;
    assert LeftPath(idx, 2, [2]) && LeftOf(idx, [2]) == P_NONE;
    assert LeftPath(idx, 4, [4]) && LeftOf(idx, [4]) == P_NONE;
  }

  lemma SplitInOrder()
    ensures var p := SplitIndex(50).pages;
            && InPage(1, p[1]) && InPage(1, p[2]) && InPage(1, p[3])
            && InPage(1, p[4]) && InPage(1, p[5]) && InPage(1, p[6])
  {
  }

  lemma SplitNext()
    ensures var p := SplitIndex(50).pages; BelowPage(p[4], p[6]) && BelowPage(p[6], p[5]) && !LastItemReal(p[2])
  {
  }

  lemma SplitLevels()
    ensures var idx := SplitIndex(50);
            && MarkedLevel(idx, BtreeLevel(2, 1, true), [1]) && MarkedLevel(idx, BtreeLevel(1, 2, false), [2, 3])
            && MarkedLevel(idx, BtreeLevel(0, 4, false), [4, 6, 5])
  {
    hide LevelChain, Leftmost, InPage, BelowPage, LastItemReal;
    var idx := SplitIndex(50);
    SplitChains(50);
    SplitLeftmost();
    SplitInOrder();
    SplitNext();
    assert !Dead(idx, [2, 3], 0) && !Dead(idx, [4, 6, 5], 0) && !Dead(idx, [4, 6, 5], 1);
    assert PageInLevel(idx, BtreeLevel(2, 1, true), [1], 0);
    assert PageInLevel(idx, BtreeLevel(1, 2, false), [2, 3], 0);
    assert PageInLevel(idx, BtreeLevel(1, 2, false), [2, 3], 1);
    assert PageInLevel(idx, BtreeLevel(0, 4, false), [4, 6, 5], 0);
    assert PageInLevel(idx, BtreeLevel(0, 4, false), [4, 6, 5], 1);
    assert PageInLevel(idx, BtreeLevel(0, 4, false), [4, 6, 5], 2);
  }

  lemma SplitTop()
    ensures ChildrenStand(SplitIndex(50), 1, [1], [2, 3], [[0, 1]])
  {
    hide Leftmost;
    SplitLeftmost();
    var idx, pos: seq<seq<nat>> := SplitIndex(50), [[0, 1]];
    assert Before(pos, 0, 0) == -1 && Before(pos, 0, 1) == 0 && Before(pos, 1, 0) == 1;
    assert ChildStands(idx, 1, [1], [2, 3], -1, 0, 0, 0);
    assert ChildStands(idx, 1, [1], [2, 3], 0, 0, 1, 1);
  }

  /** The right half repeats the high key of page 2, where the range of the child after it begins. */
  lemma SplitBottom()
    ensures ChildrenStand(SplitIndex(50), 0, [2, 3], [4, 6, 5], [[0], [2]])
  {
    hide Leftmost;
    SplitLeftmost();
    var idx, pos: seq<seq<nat>> := SplitIndex(50), [[0], [2]];
    assert Before(pos, 0, 0) == -1 && Before(pos, 1, 0) == 0 && Before(pos, 2, 0) == 2;
    assert ChildStands(idx, 0, [2, 3], [4, 6, 5], -1, 0, 0, 0);
    assert Between(idx, 0, [4, 6, 5], 1, BeginKey(idx, [2, 3], 1, 0));
    assert ChildStands(idx, 0, [2, 3], [4, 6, 5], 0, 1, 0, 2);
  }

  lemma SplitMarked()
    ensures MarkedTree(SplitIndex(50))
  {
    hide MarkedLevel, ChildrenStand, LinksPresent;
    var idx, levels: seq<seq<nat>> := SplitIndex(50), [[1], [2, 3], [4, 6, 5]];
    SplitLinks(50);
    SplitLevels();
    SplitTop();
    SplitBottom();
    assert levels[1..] == [[2, 3], [4, 6, 5]] && levels[1..][1..] == [[4, 6, 5]];
    assert MarkedTower(idx, BtreeLevel(0, 4, false), [[4, 6, 5]]);
    assert MarkedTower(idx, BtreeLevel(1, 2, false), levels[1..]);
    assert MarkedTower(idx, BtreeLevel(2, 1, true), levels);
  }

  // ---------------------------------------------------------------- the key it must repeat

  /** A level is one chain of blocks. */
  lemma ChainsSame(idx: Index, start: nat, c: seq<nat>, d: seq<nat>)
    requires LevelChain(idx, start, c) && LevelChain(idx, start, d)
    ensures c == d
  {
    hide LevelChain;
    ChainLonger(idx, start, c, d);
    ChainLonger(idx, start, d, c);
    forall k | 0 <= k < |c| ensures c[k] == d[k] {
      BtreeMarkedWalk.ChainAt(idx, start, c, k);
      BtreeMarkedWalk.ChainAt(idx, start, d, k);
    }
  }

  lemma ChainLonger(idx: Index, start: nat, c: seq<nat>, d: seq<nat>)
    requires LevelChain(idx, start, c) && LevelChain(idx, start, d)
    ensures |c| >= |d|
  {
    hide LevelChain;
    if |c| < |d| {
      BtreeMarkedWalk.ChainAt(idx, start, c, |c|);
      BtreeMarkedWalk.ChainAt(idx, start, d, |c|);
      BtreeMarkedWalk.ChainMember(idx, start, d, |c|);
    }
  }

  lemma SplitUpper(last: int, pos: seq<seq<nat>>, e: seq<nat>)
    requires (forall k | 0 <= k < |e| :: e[k] in SplitIndex(last).pages) && e != []
    requires ChildrenStand(SplitIndex(last), 1, [1], e, pos)
    ensures e[0] == 2
  {
    assert ChildStands(SplitIndex(last), 1, [1], e, Before(pos, 0, 0), 0, 0, pos[0][0]);
  }

  lemma SplitLower(last: int, pos: seq<seq<nat>>, e: seq<nat>)
    requires (forall k | 0 <= k < |e| :: e[k] in SplitIndex(last).pages) && e != []
    requires ChildrenStand(SplitIndex(last), 0, [2, 3], e, pos)
    ensures e[0] == 4 && (e == [4, 6, 5] ==> last == 50)
  {
    var idx := SplitIndex(last);
    assert ChildStands(idx, 0, [2, 3], e, Before(pos, 0, 0), 0, 0, pos[0][0]);
    assert ChildStands(idx, 0, [2, 3], e, Before(pos, 1, 0), 1, 0, pos[1][0]);
    if e == [4, 6, 5] { assert Between(idx, 0, e, 1, BeginKey(idx, [2, 3], 1, 0)); }
  }

  lemma SplitOnly(last: int)
    requires MarkedTree(SplitIndex(last))
    ensures last == 50
  {
    hide LevelChain, ChildrenStand, PageInLevel;
    var idx := SplitIndex(last);
    var levels :| MarkedTower(idx, BtreeLevel(2, 1, true), levels);
    SplitChains(last);
    ChainsSame(idx, 1, levels[0], [1]);
    var top :| ChildrenStand(idx, 1, levels[0], levels[1], top);
    SplitUpper(last, top, levels[1]);
    assert levels[1..][0] == levels[1] && levels[1..][1] == levels[2];
    ChainsSame(idx, 2, levels[1], [2, 3]);
    var bottom :| ChildrenStand(idx, 0, levels[1], levels[2], bottom);
    SplitLower(last, bottom, levels[2]);
    assert levels[1..][1..][0] == levels[2];
    ChainsSame(idx, 4, levels[2], [4, 6, 5]);
  }

  /** The check passes the index if and only if the right half ends where the range of page 2 ends. */
  method SplitPasses(last: int, fuel: nat) returns (v: Verdict)
    requires Ample(SplitIndex(last), fuel)
    ensures v.Pass? <==> last == 50
  {
    hide Ample, MarkedTree, LinksPresent;
    SplitLinks(last);
    v := CheckMarked(SplitIndex(last), fuel);
    if v.Pass? { SplitOnly(last); }
    if last == 50 { SplitMarked(); }
  }
}
