/** Which leaf tuples a search can find on an index that passed the check without rootdescend. */
module BtreeReach {
  import opened Wrappers
  import opened Sequences
  import opened BtreePages
  import opened BtreeOrder
  import opened BtreeShape
  import opened BtreeSearch

  /** The high keys of all pages left of position i are below the key. */
  ghost predicate AboveLeft(idx: Index, c: seq<nat>, i: nat, key: seq<int>) {
    forall k | 0 <= k < i && k < |c| ::
      && c[k] in idx.pages && idx.pages[c[k]].HasItem(P_HIKEY)
      && LexLess(Key(HighKey(idx, c[k])), key)
  }

  /** A search for a leaf tuple stops at the leaf that holds it if and only if the tuple is above the
      high keys of all leaves to the left. */
  lemma ReachedIff(idx: Index, levels: seq<seq<nat>>, i: nat, off: nat)
    requires Tower(idx, levels) && i < |levels[0]| && RealItem(idx.pages[levels[0][i]], off)
    requires idx.pages[levels[0][i]].Item(off).tid.Some?
    ensures var t := idx.pages[levels[0][i]].Item(off);
            StopsAt(idx, InsertKey(t), levels[0], i) <==> AboveLeft(idx, levels[0], i, Key(t))
  {
    var c := levels[0];
    assert LevelClean(idx, 0, c);
    var p := idx.pages[c[i]];
    var t := p.Item(off);
    var key := InsertKey(t);
    assert PageClean(idx, c[i]) && ItemOk(idx.nkeyatts, p, off);
    forall k | 0 <= k < i
      ensures idx.pages[c[k]].HasItem(P_HIKEY)
      ensures PassedBy(idx, key, c[k]) <==> LexLess(Key(HighKey(idx, c[k])), Key(t))
    {
      assert PageClean(idx, c[k]);
      NotRightmost(idx, c, k);
      ItemTupleOk(idx.nkeyatts, idx.pages[c[k]], P_HIKEY);
      GoesRightDecides(idx.nkeyatts, key, HighKey(idx, c[k]));
    }
    if !p.Rightmost() {
      HighKeyBounds(idx.nkeyatts, p, off);
      ItemTupleOk(idx.nkeyatts, p, P_HIKEY);
      GoesRightDecides(idx.nkeyatts, key, p.Item(P_HIKEY));
    }
  }

  /** The path from page i of level l to the top takes a negative infinity downlink only on leftmost
      pages. */
  ghost predicate Anchored(idx: Index, levels: seq<seq<nat>>, l: nat, i: nat)
    requires Tower(idx, levels) && l < |levels| && i < |levels[l]|
    decreases |levels| - l
  {
    || i == 0
    || (&& l + 1 < |levels|
        && var (a, b) := Parent(idx, levels, l, i);
           b > 0 && Anchored(idx, levels, l + 1, a))
  }

  /** The page one level up, and the item on it, whose downlink leads to page i of level l. */
  ghost function Parent(idx: Index, levels: seq<seq<nat>>, l: nat, i: nat): (s: (nat, nat))
    requires Tower(idx, levels) && l + 1 < |levels| && i < |levels[l]|
    ensures s.0 < |levels[l + 1]| && s.1 < DataCount(idx.pages[levels[l + 1][s.0]])
    ensures i == |Downlinks(idx, levels[l + 1][..s.0])| + s.1
  {
    assert LevelClean(idx, l + 1, levels[l + 1]);
    assert levels[l + 1 - 1] == Downlinks(idx, levels[l + 1]);
    DownlinkSource(idx, levels[l + 1], i)
  }

  /** On an anchored page every real item is above all high keys to its left. */
  lemma {:induction false} AnchoredAbove(idx: Index, levels: seq<seq<nat>>, l: nat, i: nat, off: nat)
    requires Tower(idx, levels) && l < |levels| && i < |levels[l]| && Anchored(idx, levels, l, i)
    requires RealItem(idx.pages[levels[l][i]], off)
    ensures AboveLeft(idx, levels[l], i, Key(idx.pages[levels[l][i]].Item(off)))
    decreases |levels| - l
  {
    hide PageClean, Downlinks, RightRun, LeftRun, Matched, InPage, UpperKey, LexLess, AboveLeft;
    if i == 0 {
      AboveNone(idx, levels[l], Key(idx.pages[levels[l][i]].Item(off)));
      return;
    }
    var (a, b) := Parent(idx, levels, l, i);
    var c, below := levels[l + 1], levels[l];
    assert LevelClean(idx, l + 1, c) && LevelClean(idx, l, below);
    var p := idx.pages[c[a]];
    assert PageClean(idx, c[a]);
    AnchoredAbove(idx, levels, l + 1, a, p.FirstDataKey() + b);
    AboveStep(idx, l, c, below, a, b, i, off);
  }

  lemma AboveNone(idx: Index, c: seq<nat>, key: seq<int>)
    ensures AboveLeft(idx, c, 0, key)
  {
  }

  lemma ChildAboveSeparator(idx: Index, p: Page, b: nat, off: nat)
    requires !p.leaf && 0 < b < DataCount(p) && ChildOk(idx, p, b)
    requires !p.Ignore() && InPage(idx.nkeyatts, p)
    requires PageClean(idx, DataItem(p, b).downlink)
    requires RealItem(idx.pages[DataItem(p, b).downlink], off)
    ensures LexLess(Key(DataItem(p, b)), Key(idx.pages[DataItem(p, b).downlink].Item(off)))
  {
    var ch := idx.pages[DataItem(p, b).downlink];
    assert ItemOk(idx.nkeyatts, p, p.FirstDataKey() + b) && ItemOk(idx.nkeyatts, ch, off);
    ItemTupleOk(idx.nkeyatts, p, p.FirstDataKey() + b);
    ItemTupleOk(idx.nkeyatts, ch, off);
    InvariantLDecides(idx.nkeyatts, DataItem(p, b), ch, off);
  }

  /** If the separator of child i is above all high keys left of its page, the child's items are above all
      high keys left of the child. */
  lemma AboveStep(idx: Index, l: nat, c: seq<nat>, below: seq<nat>, a: nat, b: nat, i: nat, off: nat)
    requires LevelClean(idx, l + 1, c) && LevelClean(idx, l, below) && below == Downlinks(idx, c)
    requires a < |c| && 0 < b < DataCount(idx.pages[c[a]]) && i == |Downlinks(idx, c[..a])| + b < |below|
    requires RealItem(idx.pages[below[i]], off)
    requires AboveLeft(idx, c, a, Key(DataItem(idx.pages[c[a]], b)))
    ensures AboveLeft(idx, below, i, Key(idx.pages[below[i]].Item(off)))
  {
    hide PageClean, Downlinks, RightRun, LeftRun, Matched, UpperKey, LexLess, InPage, ChildOk;
    var p := idx.pages[c[a]];
    var t := idx.pages[below[i]].Item(off);
    ChildMatched(idx, l, c, below, a, b);
    CleanPageFacts(idx, c[a]);
    CleanChild(idx, c[a], b);
    ChildAboveSeparator(idx, p, b, off);
    forall k | 0 <= k < i
      ensures below[k] in idx.pages && idx.pages[below[k]].HasItem(P_HIKEY)
      ensures LexLess(Key(HighKey(idx, below[k])), Key(t))
    {
      HighKeyBelow(idx, l, c, below, a, b, k);
      LexLeqLess(Key(HighKey(idx, below[k])), Key(DataItem(p, b)), Key(t));
    }
  }

  /** The high key of an earlier child is at most the separator of a later one. */
  lemma HighKeyBelow(idx: Index, l: nat, c: seq<nat>, below: seq<nat>, a: nat, b: nat, k: nat)
    requires LevelClean(idx, l + 1, c) && LevelClean(idx, l, below) && below == Downlinks(idx, c)
    requires a < |c| && 0 < b < DataCount(idx.pages[c[a]]) && k < |Downlinks(idx, c[..a])| + b < |below|
    requires AboveLeft(idx, c, a, Key(DataItem(idx.pages[c[a]], b)))
    ensures below[k] in idx.pages && idx.pages[below[k]].HasItem(P_HIKEY)
    ensures LexLeq(Key(HighKey(idx, below[k])), Key(DataItem(idx.pages[c[a]], b)))
  {
    hide PageClean, Downlinks, RightRun, LeftRun, Matched, UpperKey, LexLess, AboveLeft;
    var (x, y) := DownlinkSource(idx, c, k);
    DownlinkOrder(idx, c, a, b, x, y);
    ChildMatched(idx, l, c, below, x, y);
    NotRightmost(idx, below, k);
    UpperBelow(idx, l + 1, c, a, b, x, y);
    MatchedKey(idx, idx.pages[c[x]], y, below[k]);
  }

  lemma CleanChild(idx: Index, blk: nat, b: nat)
    requires PageClean(idx, blk) && !idx.pages[blk].leaf && b < DataCount(idx.pages[blk])
    ensures ChildOk(idx, idx.pages[blk], b)
  {
  }

  lemma CleanHighKey(idx: Index, blk: nat)
    requires PageClean(idx, blk)
    ensures !idx.pages[blk].Rightmost() ==> idx.pages[blk].HasItem(P_HIKEY)
  {
  }

  lemma MatchedKey(idx: Index, p: Page, b: nat, blk: nat)
    requires b < DataCount(p) && Matched(idx, p, b, blk) && !idx.pages[blk].Rightmost()
    ensures idx.pages[blk].HasItem(P_HIKEY) && UpperKey(p, b).Some?
    ensures Key(HighKey(idx, blk)) == Key(UpperKey(p, b).value)
  {
    IdenticalGoRight(InsertKey(HighKey(idx, blk)), HighKey(idx, blk), UpperKey(p, b).value);
  }

  /** The key that ends an earlier child's range is at most the separator of a later child, as long
      as that separator is above the high keys to the left of its page. */
  lemma UpperBelow(idx: Index, level: nat, c: seq<nat>, a: nat, b: nat, x: nat, y: nat)
    requires LevelClean(idx, level, c) && level > 0
    requires a < |c| && 0 < b < DataCount(idx.pages[c[a]])
    requires x < a || (x == a && y < b)
    requires y < DataCount(idx.pages[c[x]])
    requires AboveLeft(idx, c, a, Key(DataItem(idx.pages[c[a]], b)))
    ensures UpperKey(idx.pages[c[x]], y).Some?
    ensures LexLeq(Key(UpperKey(idx.pages[c[x]], y).value), Key(DataItem(idx.pages[c[a]], b)))
  {
    hide PageClean, InPage, LexLess, RightRun, LeftRun, Key;
    CleanPageFacts(idx, c[a]);
    CleanPageFacts(idx, c[x]);
    var sep := Key(DataItem(idx.pages[c[a]], b));
    if x == a {
      UpperBelowHere(idx.nkeyatts, idx.pages[c[a]], y, b);
    } else {
      NotRightmost(idx, c, x);
      CleanHighKey(idx, c[x]);
      var high := Key(idx.pages[c[x]].Item(P_HIKEY));
      UpperBelowHigh(idx.nkeyatts, idx.pages[c[x]], y);
      LexLeqLess(Key(UpperKey(idx.pages[c[x]], y).value), high, sep);
      LexTotal(Key(UpperKey(idx.pages[c[x]], y).value), sep);
    }
  }

  lemma UpperBelowHere(nkeyatts: nat, p: Page, y: nat, b: nat)
    requires !p.Ignore() && InPage(nkeyatts, p) && !p.leaf && y < b < DataCount(p)
    ensures UpperKey(p, y).Some? && LexLeq(Key(UpperKey(p, y).value), Key(DataItem(p, b)))
  {
    hide InPage, LexLess, Key;
    if y + 1 < b { PageAscends(nkeyatts, p, p.FirstDataKey() + y + 1, p.FirstDataKey() + b); }
    LexTotal(Key(DataItem(p, y + 1)), Key(DataItem(p, b)));
  }

  lemma UpperBelowHigh(nkeyatts: nat, p: Page, y: nat)
    requires !p.Ignore() && InPage(nkeyatts, p) && !p.leaf && y < DataCount(p)
    requires !p.Rightmost() && p.HasItem(P_HIKEY)
    ensures UpperKey(p, y).Some? && LexLeq(Key(UpperKey(p, y).value), Key(p.Item(P_HIKEY)))
  {
    hide InPage, LexLess, Key;
    if y + 1 < DataCount(p) { HighKeyBounds(nkeyatts, p, p.FirstDataKey() + y + 1); }
    LexTotal(Key(p.Item(P_HIKEY)), Key(p.Item(P_HIKEY)));
  }

  /** Every leaf tuple whose path is anchored is found by a search of its own. */
  lemma AnchoredReached(idx: Index, levels: seq<seq<nat>>, i: nat, off: nat)
    requires Tower(idx, levels) && i < |levels[0]| && RealItem(idx.pages[levels[0][i]], off)
    requires idx.pages[levels[0][i]].Item(off).tid.Some?
    requires Anchored(idx, levels, 0, i)
    ensures StopsAt(idx, InsertKey(idx.pages[levels[0][i]].Item(off)), levels[0], i)
  {
    AnchoredAbove(idx, levels, 0, i, off);
    ReachedIff(idx, levels, i, off);
  }

  /** With a single root page directly above the leaves, or no level above them, nothing is missed. */
  lemma TwoLevelsReached(idx: Index, levels: seq<seq<nat>>, i: nat, off: nat)
    requires Tower(idx, levels) && idx.rootLevel <= 1 && |levels[idx.rootLevel]| == 1
    requires i < |levels[0]| && RealItem(idx.pages[levels[0][i]], off)
    requires idx.pages[levels[0][i]].Item(off).tid.Some?
    ensures StopsAt(idx, InsertKey(idx.pages[levels[0][i]].Item(off)), levels[0], i)
  {
    if i > 0 {
      var c := levels[1];
      assert LevelClean(idx, 1, c);
      var (a, b) := Parent(idx, levels, 0, i);
      assert c[..0] == [];
      assert Anchored(idx, levels, 1, a);
    }
    AnchoredReached(idx, levels, i, off);
  }
}
