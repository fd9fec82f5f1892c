/** What a passing check means for the tree and for searches. */
module BtreeVerified {
  import opened Wrappers
  import opened Sequences
  import opened BtreePages
  import opened BtreeOrder
  import opened BtreeShape
  import opened BtreeSweep
  import opened BtreeSearch
  import opened BtreeReach
  import opened BtreeSound
  import opened BtreeCheck

  /** An index is a clean tree in one way only. */
  lemma {:induction false} TowerUnique(idx: Index, x: seq<seq<nat>>, y: seq<seq<nat>>, l: nat)
    requires Tower(idx, x) && Tower(idx, y) && l < |x|
    ensures l < |y| && x[l] == y[l]
    decreases |x| - l
  {
    hide PageClean, Downlinks;
    assert LevelClean(idx, l, x[l]) && LevelClean(idx, l, y[l]);
    if l == idx.rootLevel {
      ChainUnique(idx, x[l], y[l]);
    } else {
      TowerUnique(idx, x, y, l + 1);
      assert x[l + 1 - 1] == Downlinks(idx, x[l + 1]) && y[l + 1 - 1] == Downlinks(idx, y[l + 1]);
    }
  }

  /** The tuple is on leaf i of the tree, at an anchored place. */
  ghost predicate AnchoredTuple(idx: Index, levels: seq<seq<nat>>, i: nat, off: nat, t: Tuple) {
    && Tower(idx, levels) && i < |levels[0]| && RealItem(idx.pages[levels[0][i]], off)
    && idx.pages[levels[0][i]].Item(off) == t && Anchored(idx, levels, 0, i)
  }

  lemma AnchoredFound(idx: Index, levels: seq<seq<nat>>, i: nat, off: nat, t: Tuple)
    requires AnchoredTuple(idx, levels, i, off, t) && t.tid.Some?
    ensures StopsAt(idx, InsertKey(t), levels[0], i) && HoldsKey(idx, levels[0][i], off, Key(t))
  {
    AnchoredReached(idx, levels, i, off);
  }

  /** The check, and then bt_rootdescend for one leaf tuple.  On an index without marks of interrupted operations a
      pass means a sound tree, unless a page walked over has a zero downlink; a sound tree whose leaf items carry heap
      TIDs passes; and in a tree that passed, the descent finds each tuple whose path takes negative infinity downlinks
      only on leftmost pages. */
  method CheckThenDescend(idx: Index, t: Tuple, fuel: nat) returns (v: Verdict, found: Option<bool>)
    requires |t.atts| == idx.nkeyatts && t.tid.Some?
    ensures Plain(idx) && v.Pass? && NoZeroDownlink(idx) ==> SoundTree(idx)
    ensures Plain(idx) && v.Pass? && LeafTids(idx) ==> (SoundTree(idx) <==> NoZeroDownlink(idx))
    ensures Plain(idx) && LeafTids(idx) && SoundTree(idx) && fuel > |idx.pages| ==> v.Pass?
    ensures v.Pass? && fuel > |idx.pages| && fuel > idx.rootLevel ==>
              (exists levels, i: nat, off: nat :: AnchoredTuple(idx, levels, i, off, t)) ==> found == Some(true)
  {
    hide Plain, Tower, SoundTree, NoZeroDownlink, LeafTids, StopsAt, HoldsKey, Anchored;
    CleanMeansSound(idx);
    found := None;
    v := CheckEveryLevel(idx, fuel);
    if !v.Pass? { return; }
    ghost var levels := TowerOf(idx);
    found := RootDescend(idx, t, fuel, levels);
    forall x, i: nat, off: nat | AnchoredTuple(idx, x, i, off, t) && fuel > |idx.pages| && fuel > idx.rootLevel
      ensures found == Some(true)
    {
      AnchoredFound(idx, x, i, off, t);
      RootIsBlock(idx, x);
      SameLeaves(idx, x, levels);
    }
  }

  // ---------------------------------------------------------------- indexes of any kind

  /** The pivot is below every item of its child, if the child is in use and its slots hold what they should. */
  ghost predicate PivotBelow(idx: Index, p: Page, off: nat)
    requires p.HasItem(off)
  {
    var blk := p.Item(off).downlink;
    && ReadPage(idx, blk).Some?
    && var c := idx.pages[blk];
       && !c.deleted
       && (!c.Ignore() && Slots(idx.nkeyatts, c) ==>
             forall o: nat | RealItem(c, o) :: LexLess(KeyAt(p, off), KeyAt(c, o)))
  }

  /** The last item is below the first item of the page in use to the right, under the same proviso. */
  ghost predicate BelowNext(idx: Index, p: Page) {
    LastItemReal(p) && !p.Rightmost() ==>
      exists n: nat ::
        && RightInUse(idx, p.next, n).Some?
        && var q := RightInUse(idx, p.next, n).value;
           !q.Ignore() && Slots(idx.nkeyatts, q) && FirstRealItem(q).Some? ==>
             LexLess(KeyAt(p, p.MaxOffset()), Key(FirstRealItem(q).value))
  }

  ghost predicate KeysInOrder(idx: Index, p: Page) {
    && Slots(idx.nkeyatts, p) && InOrder(p) && BelowNext(idx, p)
    && forall off: nat | RealItem(p, off) && !p.leaf :: PivotBelow(idx, p, off)
  }

  lemma PivotMeans(idx: Index, p: Page, off: nat)
    requires !p.Ignore() && Slots(idx.nkeyatts, p) && RealItem(p, off) && !p.leaf && ChildAbove(idx, p, off)
    ensures PivotBelow(idx, p, off)
  {
    hide InvariantL, LexLess, Key, Slots;
    var c := idx.pages[p.Item(off).downlink];
    if !c.Ignore() && Slots(idx.nkeyatts, c) {
      SlotOk(idx.nkeyatts, p, off);
      forall o: nat | RealItem(c, o) ensures LexLess(KeyAt(p, off), KeyAt(c, o)) {
        StrictTest(idx.nkeyatts, p.Item(off), c, o);
      }
    }
  }

  lemma NextMeans(idx: Index, p: Page)
    requires !p.Ignore() && Slots(idx.nkeyatts, p) && LastBelow(idx, p)
    ensures BelowNext(idx, p)
  {
    hide LexLess, Key, Slots, RightInUse;
    if LastItemReal(p) && !p.Rightmost() {
      var n: nat :| BelowInUse(idx, p, n);
      var q := RightInUse(idx, p.next, n).value;
      if !q.Ignore() && Slots(idx.nkeyatts, q) && FirstRealItem(q).Some? {
        SlotOk(idx.nkeyatts, p, p.MaxOffset());
        FirstRealOk(idx.nkeyatts, q);
        PivotSearchDecides(idx.nkeyatts, FirstRealItem(q).value, p.Item(p.MaxOffset()));
      }
    }
  }

  lemma UprightMeans(idx: Index, p: Page)
    requires !p.Ignore() && Upright(idx, p)
    ensures KeysInOrder(idx, p)
  {
    hide InPage, Slots, InOrder, ChildAbove, PivotBelow, LastBelow, BelowNext;
    PageTest(idx.nkeyatts, p);
    NextMeans(idx, p);
    forall off: nat | RealItem(p, off) && !p.leaf ensures PivotBelow(idx, p, off) { PivotMeans(idx, p, off); }
  }

  /** On any index at all, each page in use that a passing check met has its keys in order. */
  lemma SweptInOrder(idx: Index, levels: seq<seq<nat>>, i: nat, k: nat)
    requires Swept(idx, levels) && i < |levels| && k < |levels[i]|
    ensures levels[i][k] in idx.pages
    ensures var p := idx.pages[levels[i][k]];
            !p.Ignore() ==> p.level == Below(idx, levels[i + 1..]).level && KeysInOrder(idx, p)
  {
    hide Upright, KeysInOrder, Below, Swept;
    SweptStands(idx, levels, i, k);
    var p := idx.pages[levels[i][k]];
    if !p.Ignore() { UprightMeans(idx, p); }
  }

  lemma SameLeaves(idx: Index, x: seq<seq<nat>>, y: seq<seq<nat>>)
    requires Tower(idx, x) && Tower(idx, y)
    ensures |x| > 0 && |y| > 0 && x[0] == y[0]
  {
    TowerUnique(idx, x, y, 0);
  }

  lemma RootIsBlock(idx: Index, levels: seq<seq<nat>>)
    requires Tower(idx, levels)
    ensures idx.root != P_NONE
  {
    assert LevelClean(idx, idx.rootLevel, levels[idx.rootLevel]);
  }
}
