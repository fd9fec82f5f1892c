/** Indexes on which the check never ends (contrib/amcheck/verify_nbtree.c): right links that run in a circle over pages
    out of use, where the code looks for circles in vain. */
module BtreeEndless {
  import opened Wrappers
  import opened BtreePages
  import opened BtreeOrder
  import opened BtreeShape
  import opened BtreeLeftmost
  import opened BtreeWalk
  import opened BtreeSweep
  import opened BtreeSteps
  import opened BtreeLoops
  import opened BtreeCheck
  import opened BtreeGap

  function HalfDead(prev: nat, next: nat, items: seq<Tuple>): Page {
    Page(prev, next, 0, true, false, false, true, false, false, false, false, items)
  }

  function Deleted(prev: nat, next: nat, items: seq<Tuple>): Page {
    Page(prev, next, 0, true, false, false, false, true, false, false, false, items)
  }

  // ---------------------------------------------------------------- along a level

  /** One level.  The right links of the half-dead blocks 2 and 3 lead to each other. */
  function HalfDeadIndex(): Index {
    Index(map[0 := META,
              1 := Node(0, 2, 0, true, [Pivot(50, 0)]),
              2 := HalfDead(1, 3, [Pivot(60, 0)]),
              3 := HalfDead(2, 2, [Pivot(70, 0)])],
          1, 0, 1)
  }

  const LEAVES := BtreeLevel(0, 1, true)

  lemma FirstLeaf()
    ensures var s := LevelSpot(LEAVES, None);
            PageWalk(HalfDeadIndex(), LEAVES, s) == At(Spot(1, 2, BtreeLevel(0xFFFF_FFFF, P_NONE, false),
                                                           Some(Pivot(50, 0)), NOWHERE))
  {
    var idx, s := HalfDeadIndex(), LevelSpot(LEAVES, None);
    var p := idx.pages[1];
    assert LeftPath(idx, 1, [1]) && LeftOf(idx, [1]) == P_NONE;
    assert DataCount(p) == 0;
    assert TargetWalk(idx, p, None, NOWHERE) == Go(NOWHERE);
    VisitCases(idx, LEAVES, s);
  }

  /** From one half-dead block to the other. */
  lemma HalfDeadStep(s: Spot)
    requires s.current in {2, 3} && s.left != s.current
    ensures var w := PageWalk(HalfDeadIndex(), LEAVES, s);
            w.At? && w.spot.current == 5 - s.current && w.spot.left == s.current
  {
    VisitCases(HalfDeadIndex(), LEAVES, s);
  }

  lemma {:induction false} RoundAndRound(n: nat)
    requires n > 0
    ensures var w := LevelWalk(HalfDeadIndex(), LEAVES, n);
            w.At? && w.spot.current in {2, 3} && w.spot.left != w.spot.current
  {
    hide PageWalk;
    if n == 1 {
      FirstLeaf();
      assert LevelWalk(HalfDeadIndex(), LEAVES, 0) == At(LevelSpot(LEAVES, None));
    } else {
      RoundAndRound(n - 1);
      HalfDeadStep(LevelWalk(HalfDeadIndex(), LEAVES, n - 1).spot);
    }
  }

  lemma HalfDeadFate()
    ensures IndexFate(HalfDeadIndex()) == NeverEnds
  {
    hide LevelWalk;
    assert LevelWalk(HalfDeadIndex(), LEAVES, 0) == At(LevelSpot(LEAVES, None)) by { LevelBegins(); }
    forall n: nat ensures GoesOn(HalfDeadIndex(), LEAVES, n) {
      if n > 0 { RoundAndRound(n); }
    }
  }

  lemma LevelBegins()
    ensures LevelWalk(HalfDeadIndex(), LEAVES, 0) == At(LevelSpot(LEAVES, None))
  {
  }

  /** With any fuel the check is still under way. */
  method HalfDeadNeverEnds(fuel: nat) returns (v: Verdict)
    ensures v.Diverged?
  {
    hide IndexFate;
    HalfDeadFate();
    v := CheckEveryLevel(HalfDeadIndex(), fuel);
  }

  // ---------------------------------------------------------------- along the children

  /** Two levels, without marks.  Between the two children the right links lead to deleted blocks 4, 5 and 6, and
      from 6 back to 5. */
  function DeletedIndex(): Index {
    Index(map[0 := META,
              1 := Node(0, 0, 1, true, [MinusInfinity(2), Pivot(50, 3)]),
              2 := Node(0, 4, 0, false, [Pivot(50, 0), Row(10, 1)]),
              3 := Node(2, 0, 0, false, [Row(60, 2)]),
              4 := Deleted(2, 5, [Pivot(50, 0)]),
              5 := Deleted(4, 6, [Pivot(50, 0)]),
              6 := Deleted(5, 5, [Pivot(50, 0)])],
          1, 1, 1)
  }

  const TOP := BtreeLevel(1, 1, true)

  lemma DeletedPlain()
    ensures Plain(DeletedIndex())
  {
  }

  function Root(): Page { DeletedIndex().pages[1] }

  function FirstErrand(): Errand { Errand(Root(), None, 1, NOWHERE) }

  function SecondErrand(): Errand { Errand(Root(), None, 2, Place(4, false)) }

  lemma FirstChildMet()
    ensures ItemWalk(DeletedIndex(), FirstErrand()) == Go(Place(4, false))
  {
    hide Excused;
    var idx, e := DeletedIndex(), FirstErrand();
    assert LeftPath(idx, 2, [2]) && LeftOf(idx, [2]) == P_NONE;
    assert Met(idx, e, 0) == 2;
    assert Arrives(idx, e, 0);
    WalkArrives(idx, e, 0);
  }

  lemma {:induction false} DeletedMet(k: nat)
    ensures var b := Met(DeletedIndex(), SecondErrand(), k);
            if k == 0 then b == 4 else b == 5 || b == 6
  {
    if k > 0 { DeletedMet(k - 1); }
  }

  lemma DeletedPassed(k: nat)
    ensures PassedOver(DeletedIndex(), SecondErrand(), k)
  {
    hide TopOfDeletion, Leftmost;
    DeletedMet(k);
  }

  lemma SecondEndless()
    ensures ItemWalk(DeletedIndex(), SecondErrand()) == Endless
  {
    hide PassedOver, LinksFit;
    var idx, e := DeletedIndex(), SecondErrand();
    forall k: nat ensures PassedOver(idx, e, k) && !ArrivesAfter(idx, e, k) {
      DeletedPassed(k);
      DeletedMet(k);
    }
    assert BelowInUse(idx, Root(), 0);
    assert ItemOk(1, Root(), 2);
  }

  lemma DeletedTarget()
    ensures TargetWalk(DeletedIndex(), Root(), None, NOWHERE) == Endless
  {
    hide ItemWalk;
    FirstChildMet();
    SecondEndless();
    var idx := DeletedIndex();
    assert ItemsWalk(idx, Root(), None, NOWHERE, 0) == Go(NOWHERE);
    assert ItemsWalk(idx, Root(), None, NOWHERE, 1) == Go(Place(4, false));
    assert ItemsWalk(idx, Root(), None, NOWHERE, 2) == Endless;
    assert DataCount(Root()) == 2;
  }

  lemma DeletedFate()
    ensures IndexFate(DeletedIndex()) == NeverEnds
  {
    hide TargetWalk;
    var idx, s := DeletedIndex(), LevelSpot(TOP, None);
    DeletedTarget();
    assert LeftPath(idx, 1, [1]) && LeftOf(idx, [1]) == P_NONE;
    VisitCases(idx, TOP, s);
    assert LevelWalk(idx, TOP, 0) == At(s);
    assert LevelWalk(idx, TOP, 1) == Lost;
    FateIs(idx, TOP, 1);
  }

  /** With any fuel the check is still under way, although no interrupted operation left a mark. */
  method DeletedNeverEnds(fuel: nat) returns (v: Verdict)
    ensures v.Diverged? && Plain(DeletedIndex())
  {
    hide IndexFate, Plain;
    DeletedPlain();
    DeletedFate();
    v := CheckEveryLevel(DeletedIndex(), fuel);
  }
}
