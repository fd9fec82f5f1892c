/** What a sound B-tree is in terms of the order of keys alone.  Keys are compared as sequences, and nothing here
    refers to scan keys or to the checker's comparisons; the tests of the checker are shown to come to the same. */
module BtreeSound {
  import opened Wrappers
  import opened Sequences
  import opened BtreePages
  import opened BtreeOrder
  import opened BtreeShape

  function KeyAt(p: Page, off: nat): seq<int>
    requires p.HasItem(off)
  {
    Key(p.Item(off))
  }

  /** Every slot holds a tuple of its kind: leaf items have all attributes, the first item of an internal page has
      none, pivots have some and keep a heap TID only with all of them. */
  predicate Slots(nkeyatts: nat, p: Page) {
    && (!p.Rightmost() ==> p.HasItem(P_HIKEY) && AttsOk(nkeyatts, p, P_HIKEY))
    && forall off | p.FirstDataKey() <= off <= p.MaxOffset() :: AttsOk(nkeyatts, p, off)
  }

  /** Real items ascend strictly, and the high key bounds them: inclusively on a leaf, strictly above. */
  ghost predicate InOrder(p: Page) {
    && (forall a: nat, b: nat | RealItem(p, a) && RealItem(p, b) && a < b :: LexLess(KeyAt(p, a), KeyAt(p, b)))
    && (forall a: nat | RealItem(p, a) && !p.Rightmost() ::
          p.HasItem(P_HIKEY) &&
          if p.leaf then LexLeq(KeyAt(p, a), KeyAt(p, P_HIKEY)) else LexLess(KeyAt(p, a), KeyAt(p, P_HIKEY)))
  }

  /** The last item is below the first real item of the page to the right. */
  ghost predicate BelowRight(idx: Index, p: Page) {
    LastItemReal(p) && !p.Rightmost() ==>
      && ReadPage(idx, p.next).Some?
      && var first := FirstRealItem(idx.pages[p.next]);
         first.Some? ==> LexLess(KeyAt(p, p.MaxOffset()), Key(first.value))
  }

  /** A child is one level down, its high key repeats the separator that ends its range, and its real items are
      above the separator of its downlink, when the downlink has one. */
  ghost predicate SoundChild(idx: Index, p: Page, j: nat)
    requires j < DataCount(p)
  {
    var blk := DataItem(p, j).downlink;
    && ReadPage(idx, blk).Some?
    && var c := idx.pages[blk];
       && c.level + 1 == p.level
       && (!c.Rightmost() ==>
             && UpperKey(p, j).Some? && c.HasItem(P_HIKEY)
             && PivotIdentical(c.Item(P_HIKEY), UpperKey(p, j).value))
       && (j > 0 ==> forall off: nat | RealItem(c, off) :: LexLess(Key(DataItem(p, j)), KeyAt(c, off)))
  }

  ghost predicate SoundPage(idx: Index, blk: nat) {
    && blk != BTREE_METAPAGE && ReadPage(idx, blk).Some?
    && var p := idx.pages[blk];
       && !p.Ignore() && Slots(idx.nkeyatts, p) && InOrder(p) && BelowRight(idx, p)
       && (!p.leaf ==> forall j | 0 <= j < DataCount(p) :: SoundChild(idx, p, j))
  }

  ghost predicate SoundLevel(idx: Index, level: nat, c: seq<nat>) {
    Chain(idx, c) && forall i | 0 <= i < |c| :: SoundPage(idx, c[i]) && idx.pages[c[i]].level == level
  }

  /** Every level is a doubly linked chain of sound pages, and the downlinks of a level, read left to right, are
      the chain below it. */
  ghost predicate SoundTower(idx: Index, levels: seq<seq<nat>>) {
    && |levels| == idx.rootLevel + 1
    && (forall l | 0 <= l < |levels| :: SoundLevel(idx, l, levels[l]))
    && levels[idx.rootLevel][0] == idx.root && idx.pages[idx.root].root
    && forall l | 0 < l < |levels| :: levels[l - 1] == Downlinks(idx, levels[l])
  }

  ghost predicate SoundTree(idx: Index) {
    ReadPage(idx, BTREE_METAPAGE).Some? && (idx.root == P_NONE || exists levels :: SoundTower(idx, levels))
  }

  /** Leaf items carry a heap TID. */
  predicate HasTids(p: Page) {
    p.leaf ==> forall off | p.FirstDataKey() <= off <= p.MaxOffset() :: p.Item(off).tid.Some?
  }

  ghost predicate LeafTids(idx: Index) { forall b | b in idx.pages :: HasTids(idx.pages[b]) }

  // ---------------------------------------------------------------- the checker's tests say the same

  lemma SlotOk(nkeyatts: nat, p: Page, off: nat)
    requires !p.Ignore() && Slots(nkeyatts, p)
    requires RealItem(p, off) || (off == P_HIKEY && !p.Rightmost())
    ensures p.HasItem(off) && TupleOk(nkeyatts, p.Item(off))
    ensures p.Item(off).pivot == !(p.leaf && off >= p.FirstDataKey())
  {
    assert AttsOk(nkeyatts, p, off);
  }

  /** The strict test between tuples of their kinds decides the order. */
  lemma StrictTest(nkeyatts: nat, u: Tuple, p: Page, off: nat)
    requires !p.Ignore() && Slots(nkeyatts, p) && TupleOk(nkeyatts, u)
    requires RealItem(p, off) || (off == P_HIKEY && !p.Rightmost())
    ensures p.HasItem(off)
    ensures InvariantL(PivotSearchKey(u), p, off) ==> LexLess(Key(u), KeyAt(p, off))
    ensures HasTids(p) ==> (InvariantL(PivotSearchKey(u), p, off) <==> LexLess(Key(u), KeyAt(p, off)))
  {
    SlotOk(nkeyatts, p, off);
    InvariantLDecides(nkeyatts, u, p, off);
  }

  /** What the check of one item means, given that the slots are of their kinds: the item is not above the high key,
      and below the next item. */
  lemma ItemTest(nkeyatts: nat, p: Page, off: nat)
    requires !p.Ignore() && Slots(nkeyatts, p) && RealItem(p, off)
    ensures var ordered := && (!p.Rightmost() ==> if p.leaf then LexLeq(KeyAt(p, off), KeyAt(p, P_HIKEY))
                                                  else LexLess(KeyAt(p, off), KeyAt(p, P_HIKEY)))
                           && (off < p.MaxOffset() ==> LexLess(KeyAt(p, off), KeyAt(p, off + 1)));
            (ItemOk(nkeyatts, p, off) ==> ordered) && (HasTids(p) && ordered ==> ItemOk(nkeyatts, p, off))
  {
    SlotOk(nkeyatts, p, off);
    if !p.Rightmost() {
      SlotOk(nkeyatts, p, P_HIKEY);
      PivotSearchDecides(nkeyatts, p.Item(off), p.Item(P_HIKEY));
      StrictTest(nkeyatts, p.Item(off), p, P_HIKEY);
    }
    if off < p.MaxOffset() { StrictTest(nkeyatts, p.Item(off), p, off + 1); }
  }

  lemma {:induction false} StepsAscend(p: Page, a: nat, b: nat)
    requires RealItem(p, a) && RealItem(p, b) && a < b
    requires forall off: nat | RealItem(p, off) && off < p.MaxOffset() :: StepUp(p, off)
    ensures LexLess(KeyAt(p, a), KeyAt(p, b))
    decreases b
  {
    if a + 1 < b {
      StepsAscend(p, a, b - 1);
      assert StepUp(p, b - 1);
      LexTransitive(KeyAt(p, a), KeyAt(p, b - 1), KeyAt(p, b));
    } else {
      assert StepUp(p, a);
    }
  }

  ghost predicate StepUp(p: Page, off: nat)
    requires RealItem(p, off) && off < p.MaxOffset()
  {
    LexLess(KeyAt(p, off), KeyAt(p, off + 1))
  }

  /** The checks of all items of a page together mean that the page is in order. */
  lemma PageTest(nkeyatts: nat, p: Page)
    requires !p.Ignore()
    ensures InPage(nkeyatts, p) ==> Slots(nkeyatts, p) && InOrder(p)
    ensures HasTids(p) && Slots(nkeyatts, p) && InOrder(p) ==> InPage(nkeyatts, p)
  {
    hide InvariantL, InvariantLeq, LexLess, AttsOk, Key;
    if InPage(nkeyatts, p) {
      forall off | p.FirstDataKey() <= off <= p.MaxOffset() ensures AttsOk(nkeyatts, p, off) {
        assert ItemOk(nkeyatts, p, off);
      }
      forall off: nat | RealItem(p, off)
        ensures off < p.MaxOffset() ==> StepUp(p, off)
        ensures !p.Rightmost() ==>
                  && p.HasItem(P_HIKEY)
                  && if p.leaf then LexLeq(KeyAt(p, off), KeyAt(p, P_HIKEY))
                     else LexLess(KeyAt(p, off), KeyAt(p, P_HIKEY))
      {
        assert ItemOk(nkeyatts, p, off);
        ItemTest(nkeyatts, p, off);
      }
      forall a: nat, b: nat | RealItem(p, a) && RealItem(p, b) && a < b ensures LexLess(KeyAt(p, a), KeyAt(p, b)) {
        StepsAscend(p, a, b);
      }
    }
    if HasTids(p) && Slots(nkeyatts, p) && InOrder(p) {
      forall off | p.FirstDataKey() <= off <= p.MaxOffset() ensures ItemOk(nkeyatts, p, off) {
        if !p.NegativeInfinity(off) { ItemTest(nkeyatts, p, off); }
      }
    }
  }

  lemma FirstRealOk(nkeyatts: nat, p: Page)
    requires !p.Ignore() && Slots(nkeyatts, p) && FirstRealItem(p).Some?
    ensures TupleOk(nkeyatts, FirstRealItem(p).value)
  {
    SlotOk(nkeyatts, p, if p.leaf then p.FirstDataKey() else p.FirstDataKey() + 1);
  }

  lemma CrossTest(idx: Index, p: Page)
    requires !p.Ignore() && Slots(idx.nkeyatts, p)
    requires !p.Rightmost() && ReadPage(idx, p.next).Some? ==>
               !idx.pages[p.next].Ignore() && Slots(idx.nkeyatts, idx.pages[p.next])
    ensures CrossPage(idx, p) <==> BelowRight(idx, p)
  {
    hide Slots, LexLess, Key;
    if LastItemReal(p) && !p.Rightmost() && ReadPage(idx, p.next).Some? {
      var first := FirstRealItem(idx.pages[p.next]);
      if first.Some? {
        SlotOk(idx.nkeyatts, p, p.MaxOffset());
        FirstRealOk(idx.nkeyatts, idx.pages[p.next]);
        PivotSearchDecides(idx.nkeyatts, first.value, p.Item(p.MaxOffset()));
      }
    }
  }

  lemma ChildTest(idx: Index, p: Page, j: nat)
    requires !p.Ignore() && Slots(idx.nkeyatts, p) && !p.leaf && j < DataCount(p)
    requires var blk := DataItem(p, j).downlink;
             ReadPage(idx, blk).Some? ==>
               !idx.pages[blk].Ignore() && Slots(idx.nkeyatts, idx.pages[blk])
    ensures ChildOk(idx, p, j) ==> SoundChild(idx, p, j)
    ensures SoundChild(idx, p, j) && HasTids(idx.pages[DataItem(p, j).downlink]) ==> ChildOk(idx, p, j)
  {
    hide Slots, LexLess, Key, InvariantL, PivotIdentical, UpperKey, HasTids;
    var blk := DataItem(p, j).downlink;
    if ReadPage(idx, blk).Some? && j > 0 {
      var c := idx.pages[blk];
      SlotOk(idx.nkeyatts, p, p.FirstDataKey() + j);
      forall off: nat | RealItem(c, off)
        ensures InvariantL(PivotSearchKey(DataItem(p, j)), c, off) ==> LexLess(Key(DataItem(p, j)), KeyAt(c, off))
        ensures HasTids(c) && LexLess(Key(DataItem(p, j)), KeyAt(c, off)) ==>
                  InvariantL(PivotSearchKey(DataItem(p, j)), c, off)
      {
        StrictTest(idx.nkeyatts, DataItem(p, j), c, off);
      }
    }
  }

  // ---------------------------------------------------------------- whole trees

  ghost predicate SlotsAt(idx: Index, b: nat) {
    ReadPage(idx, b).Some? ==> !idx.pages[b].Ignore() && Slots(idx.nkeyatts, idx.pages[b])
  }

  /** The pages a page is compared with are of their kinds. */
  ghost predicate Around(idx: Index, p: Page) {
    && (!p.Rightmost() ==> SlotsAt(idx, p.next))
    && (!p.leaf ==> forall j | 0 <= j < DataCount(p) :: SlotsAt(idx, DataItem(p, j).downlink))
  }

  lemma PageMeans(idx: Index, blk: nat)
    requires blk in idx.pages && Around(idx, idx.pages[blk])
    ensures PageClean(idx, blk) ==> SoundPage(idx, blk)
    ensures SoundPage(idx, blk) && LeafTids(idx) ==> PageClean(idx, blk)
  {
    hide InPage, Slots, InOrder, CrossPage, BelowRight, ChildOk, SoundChild, HasTids;
    var p := idx.pages[blk];
    if ReadPage(idx, blk).Some? && !p.Ignore() && (PageClean(idx, blk) || SoundPage(idx, blk)) {
      PageTest(idx.nkeyatts, p);
      CrossTest(idx, p);
      forall j | 0 <= j < DataCount(p) && !p.leaf
        ensures ChildOk(idx, p, j) ==> SoundChild(idx, p, j)
        ensures SoundChild(idx, p, j) && LeafTids(idx) ==> ChildOk(idx, p, j)
      {
        ChildTest(idx, p, j);
        SoundChildRead(idx, p, j);
      }
    }
  }

  lemma SoundChildRead(idx: Index, p: Page, j: nat)
    requires j < DataCount(p)
    ensures SoundChild(idx, p, j) ==> DataItem(p, j).downlink in idx.pages
  {
  }

  /** On a level, and below it, every block is of its kind as soon as pages are clean or sound. */
  lemma LevelAround(idx: Index, l: nat, levels: seq<seq<nat>>, i: nat)
    requires l < |levels| && Chain(idx, levels[l]) && i < |levels[l]|
    requires l > 0 ==> levels[l - 1] == Downlinks(idx, levels[l])
    requires !idx.pages[levels[l][i]].leaf ==> l > 0
    requires forall k, n | 0 <= k < |levels| && 0 <= n < |levels[k]| :: SlotsAt(idx, levels[k][n])
    ensures Around(idx, idx.pages[levels[l][i]])
  {
    hide SlotsAt, Downlinks, LeftRun;
    var c := levels[l];
    var p := idx.pages[c[i]];
    if !p.Rightmost() {
      assert i + 1 < |c| && p.next == c[i + 1];
      assert SlotsAt(idx, levels[l][i + 1]);
    }
    if !p.leaf {
      forall j | 0 <= j < DataCount(p) ensures SlotsAt(idx, DataItem(p, j).downlink) {
        DownlinkAt(idx, c, i, j);
        assert SlotsAt(idx, levels[l - 1][|Downlinks(idx, c[..i])| + j]);
      }
    }
  }

  lemma CleanSlots(idx: Index, b: nat)
    ensures PageClean(idx, b) || SoundPage(idx, b) ==> SlotsAt(idx, b)
    ensures PageClean(idx, b) || SoundPage(idx, b) ==>
              b in idx.pages && (idx.pages[b].leaf <==> idx.pages[b].level == 0)
  {
    if PageClean(idx, b) { PageTest(idx.nkeyatts, idx.pages[b]); }
  }

  /** A clean tree is sound, and a sound one is clean if its leaf items carry heap TIDs. */
  lemma TowerMeans(idx: Index, levels: seq<seq<nat>>)
    ensures Tower(idx, levels) ==> SoundTower(idx, levels)
    ensures SoundTower(idx, levels) && LeafTids(idx) ==> Tower(idx, levels)
  {
    hide PageClean, SoundPage, LeafTids, Around, SlotsAt, LeftRun, RightRun, Downlinks;
    if Tower(idx, levels) {
      forall k, n | 0 <= k < |levels| && 0 <= n < |levels[k]| ensures SlotsAt(idx, levels[k][n]) {
        assert LevelClean(idx, k, levels[k]);
        CleanSlots(idx, levels[k][n]);
      }
      forall l | 0 <= l < |levels| ensures SoundLevel(idx, l, levels[l]) {
        assert LevelClean(idx, l, levels[l]);
        forall i | 0 <= i < |levels[l]| ensures SoundPage(idx, levels[l][i]) {
          CleanSlots(idx, levels[l][i]);
          LevelAround(idx, l, levels, i);
          PageMeans(idx, levels[l][i]);
        }
      }
    }
    if SoundTower(idx, levels) && LeafTids(idx) {
      forall k, n | 0 <= k < |levels| && 0 <= n < |levels[k]| ensures SlotsAt(idx, levels[k][n]) {
        assert SoundLevel(idx, k, levels[k]);
        CleanSlots(idx, levels[k][n]);
      }
      forall l | 0 <= l < |levels| ensures LevelClean(idx, l, levels[l]) {
        assert SoundLevel(idx, l, levels[l]);
        forall i | 0 <= i < |levels[l]| ensures PageClean(idx, levels[l][i]) {
          CleanSlots(idx, levels[l][i]);
          LevelAround(idx, l, levels, i);
          PageMeans(idx, levels[l][i]);
        }
      }
    }
  }

  lemma CleanMeansSound(idx: Index)
    ensures CleanTree(idx) ==> SoundTree(idx)
    ensures SoundTree(idx) && LeafTids(idx) ==> CleanTree(idx)
  {
    hide Tower, SoundTower, LeafTids;
    if CleanTree(idx) && idx.root != P_NONE {
      var levels :| Tower(idx, levels);
      TowerMeans(idx, levels);
    }
    if SoundTree(idx) && LeafTids(idx) && idx.root != P_NONE {
      var levels :| SoundTower(idx, levels);
      TowerMeans(idx, levels);
    }
  }
}
