/** Indexes that show where the theorems about the check and about searches need their conditions. */
module BtreeGap {
  import opened Wrappers
  import opened BtreePages
  import opened BtreeOrder
  import opened BtreeShape
  import opened BtreeSearch
  import opened BtreeReach
  import opened BtreeWalk
  import opened BtreeCheck

  function Node(prev: nat, next: nat, level: nat, root: bool, items: seq<Tuple>): Page {
    Page(prev, next, level, level == 0, root, false, false, false, false, false, false, items)
  }

  function Pivot(key: int, downlink: nat): Tuple { Tuple(true, [key], None, 0, downlink) }

  function MinusInfinity(downlink: nat): Tuple { Tuple(true, [], None, 0, downlink) }

  function Row(key: int, tid: int): Tuple { Tuple(false, [key], Some(tid), 0, 0) }

  const META := Page(0, 0, 0, false, false, true, false, false, false, false, false, [])

  /** Three levels.  Block 5 is reached only through negative infinity downlinks, so nothing compares
      its row 20 with 50, the high key of its left neighbour. */
  function CousinIndex(): Index {
    Index(map[0 := META,
              1 := Node(0, 0, 2, true, [MinusInfinity(2), Pivot(50, 3)]),
              2 := Node(0, 3, 1, false, [Pivot(50, 0), MinusInfinity(4)]),
              3 := Node(2, 0, 1, false, [MinusInfinity(5)]),
              4 := Node(0, 5, 0, false, [Pivot(50, 0), Row(10, 1)]),
              5 := Node(4, 0, 0, false, [Row(20, 2)])],
          1, 2, 1)
  }

  const COUSIN_LEVELS: seq<seq<nat>> := [[4, 5], [2, 3], [1]]

  lemma CousinRoot()
    ensures PageClean(CousinIndex(), 1)
  {
  }

  lemma CousinInner()
    ensures PageClean(CousinIndex(), 2) && PageClean(CousinIndex(), 3)
  {
  }

  lemma CousinLeaves()
    ensures PageClean(CousinIndex(), 4) && PageClean(CousinIndex(), 5)
  {
  }

  lemma CousinLevels()
    ensures var idx := CousinIndex();
            LevelClean(idx, 0, [4, 5]) && LevelClean(idx, 1, [2, 3]) && LevelClean(idx, 2, [1])
  {
    hide PageClean, InPage, CrossPage, ChildrenOk;
    CousinRoot();
    CousinInner();
    CousinLeaves();
  }

  lemma CousinDownlinks()
    ensures Downlinks(CousinIndex(), [1]) == [2, 3]
    ensures Downlinks(CousinIndex(), [2, 3]) == [4, 5]
  {
    var idx := CousinIndex();
    assert PageDownlinks(idx.pages[1]) == [2, 3];
    assert PageDownlinks(idx.pages[2]) == [4] && PageDownlinks(idx.pages[3]) == [5];
    assert [1][..0] == [] && [2, 3][..1] == [2] && [2][..0] == [];
  }

  lemma CousinTower()
    ensures Tower(CousinIndex(), COUSIN_LEVELS)
  {
    CousinLevels();
    CousinDownlinks();
    hide LevelClean, Downlinks;
    var levels := COUSIN_LEVELS;
    assert levels[0] == [4, 5] && levels[1] == [2, 3] && levels[2] == [1];
  }

  /** A clean index with a leaf tuple that a search from the root does not find. */
  lemma CousinNotReached()
    ensures var idx := CousinIndex();
            && Tower(idx, COUSIN_LEVELS)
            && RealItem(idx.pages[5], 1) && idx.pages[5].Item(1) == Row(20, 2)
            && StopsAt(idx, InsertKey(Row(20, 2)), COUSIN_LEVELS[0], 0)
            && !StopsAt(idx, InsertKey(Row(20, 2)), COUSIN_LEVELS[0], 1)
  {
    CousinTower();
    hide Tower;
    var c := COUSIN_LEVELS[0];
    assert c[0] == 4 && c[1] == 5;
    assert !PassedBy(CousinIndex(), InsertKey(Row(20, 2)), 4);
  }

  lemma CousinFacts()
    ensures var idx := CousinIndex();
            |idx.pages| == 6 && idx.root == 1 && idx.rootLevel == 2 && idx.nkeyatts == 1 && Plain(idx)
    ensures ReadPage(CousinIndex(), BTREE_METAPAGE).Some?
  {
  }

  /** The leaf where the search for the tuple stops does not hold it. */
  ghost predicate MissedIn(idx: Index, t: Tuple, leaves: seq<nat>) {
    forall i: nat, off: nat | StopsAt(idx, InsertKey(t), leaves, i) :: !HoldsKey(idx, leaves[i], off, Key(t))
  }

  lemma CousinNotHeld()
    ensures MissedIn(CousinIndex(), Row(20, 2), COUSIN_LEVELS[0])
  {
    var idx, leaves := CousinIndex(), COUSIN_LEVELS[0];
    CousinNotReached();
    assert Key(Row(20, 2))[0] == 20 && Key(Row(10, 1))[0] == 10;
    forall i: nat, off: nat | StopsAt(idx, InsertKey(Row(20, 2)), leaves, i)
      ensures !HoldsKey(idx, leaves[i], off, Key(Row(20, 2)))
    {
      StopsOnce(idx, InsertKey(Row(20, 2)), leaves, 0, i);
      assert idx.pages[4].FirstDataKey() == 2 && idx.pages[4].Item(2) == Row(10, 1);
    }
  }

  /** The check, and then bt_rootdescend for a tuple, on a clean tree where the search misses it. */
  method CheckThenMiss(idx: Index, t: Tuple, fuel: nat, ghost levels: seq<seq<nat>>)
    returns (v: Verdict, found: Option<bool>)
    requires Plain(idx) && Tower(idx, levels) && ReadPage(idx, BTREE_METAPAGE).Some? && idx.root != P_NONE
    requires |t.atts| == idx.nkeyatts && t.tid.Some? && MissedIn(idx, t, levels[0])
    requires fuel > |idx.pages| && fuel > idx.rootLevel
    ensures v.Pass? && found == Some(false)
  {
    hide Plain, Tower, StopsAt, HoldsKey, ReadPage;
    assert CleanTree(idx);
    v := CheckEveryLevel(idx, fuel);
    found := RootDescend(idx, t, fuel, levels);
  }

  /** The check passes it, and bt_rootdescend misses the tuple. */
  method CousinMissed(fuel: nat) returns (v: Verdict, found: Option<bool>)
    requires fuel > 6
    ensures Plain(CousinIndex()) && v.Pass? && found == Some(false)
  {
    hide Plain, Tower, MissedIn, ReadPage;
    CousinFacts();
    CousinTower();
    CousinNotHeld();
    v, found := CheckThenMiss(CousinIndex(), Row(20, 2), fuel, COUSIN_LEVELS);
  }

  // ---------------------------------------------------------------- a zero downlink

  /** Two levels.  The first downlink of the root is zero, and the rows of leaf 2 are out of order. */
  function ZeroIndex(): Index {
    Index(map[0 := META,
              1 := Node(0, 0, 1, true, [MinusInfinity(0), Pivot(50, 2)]),
              2 := Node(0, 0, 0, false, [Row(90, 1), Row(60, 2)])],
          1, 1, 1)
  }

  lemma ZeroPlain()
    ensures Plain(ZeroIndex())
  {
  }

  lemma ZeroItems()
    ensures InPage(1, ZeroIndex().pages[1]) && CrossPage(ZeroIndex(), ZeroIndex().pages[1])
  {
  }

  lemma ZeroChild()
    ensures ChildOk(ZeroIndex(), ZeroIndex().pages[1], 1)
    ensures ChildRun(ZeroIndex(), [2]) && RunEnd(ZeroIndex(), [2]) == P_NONE
  {
    var p, c := ZeroIndex().pages[1], ZeroIndex().pages[2];
    assert BoundsChild(PivotSearchKey(DataItem(p, 1)), c);
    assert LiveChild(ZeroIndex(), 2);
  }

  lemma ZeroRun()
    ensures var p := ZeroIndex().pages[1]; Skip(p, []) == 1 && RunAfter(p, []) == [2]
  {
    var p := ZeroIndex().pages[1];
    assert PageDownlinks(p) == [0, 2] && [0, 2][1..] == [2];
  }

  lemma ZeroTarget()
    ensures TargetClean(ZeroIndex(), ZeroIndex().pages[1], [])
  {
    hide InPage, CrossPage, ChildOk, ChildRun, Skip, RunAfter;
    ZeroItems();
    ZeroChild();
    ZeroRun();
  }

  lemma ZeroRoot()
    ensures Plain(ZeroIndex()) && HeadlessRoot(ZeroIndex())
  {
    hide TargetClean, Plain;
    ZeroPlain();
    ZeroTarget();
  }

  /** The check passes it, although it is no clean tree: the walk never reaches the leaf. */
  method ZeroPasses(fuel: nat) returns (v: Verdict)
    requires fuel > 0
    ensures v.Pass? && Plain(ZeroIndex()) && !CleanTree(ZeroIndex()) && !InPage(1, ZeroIndex().pages[2])
  {
    hide Plain, HeadlessRoot, CleanTree, NoZeroDownlink;
    ZeroRoot();
    HeadlessNotClean(ZeroIndex());
    v := CheckEveryLevel(ZeroIndex(), fuel);
    OutOfOrder();
  }

  lemma OutOfOrder()
    ensures !InPage(1, ZeroIndex().pages[2])
  {
    var p := ZeroIndex().pages[2];
    assert !InvariantL(PivotSearchKey(p.Item(1)), p, 2);
    assert !ItemOk(1, p, 1);
  }
}
