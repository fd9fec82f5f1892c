/** Searching a sound B-tree (_bt_search, _bt_moveright, _bt_binsrch).  On every index whose shape is
    clean, the descent from the root stops at the leaf that a walk along the whole leaf chain would
    stop at: the first one whose high key is not to the left of the scan key. */
module BtreeSearch {
  import opened Wrappers
  import opened Sequences
  import opened BtreePages
  import opened BtreeOrder
  import opened BtreeShape
  import opened BtreeLeftmost

  function HighKey(idx: Index, blk: nat): Tuple
    requires blk in idx.pages && idx.pages[blk].HasItem(P_HIKEY)
  {
    idx.pages[blk].Item(P_HIKEY)
  }

  /** The walk along chain c for `key` stops at position i. */
  ghost predicate StopsAt(idx: Index, key: ScanKey, c: seq<nat>, i: nat) {
    && i < |c|
    && (forall k | 0 <= k < i :: PassedBy(idx, key, c[k]))
    && !PassedBy(idx, key, c[i])
  }

  ghost predicate PassedBy(idx: Index, key: ScanKey, blk: nat) {
    && blk in idx.pages
    && !idx.pages[blk].Rightmost()
    && idx.pages[blk].HasItem(P_HIKEY)
    && GoesRight(key, HighKey(idx, blk))
  }

  // ---------------------------------------------------------------- within a level

  /** How following links ends: at a block, with an empty index, with an error, or not within the fuel. */
  datatype Outcome = At(blk: nat) | Empty | Failed | Endless

  /** _bt_moveright, for readers. */
  method MoveRight(idx: Index, key: ScanKey, start: nat, fuel: nat, ghost level: nat, ghost c: seq<nat>,
                   ghost from: nat)
    returns (r: Outcome, ghost i: nat)
    ensures !r.Empty? && (r.At? ==> r.blk in idx.pages && !idx.pages[r.blk].Ignore())
    ensures LevelClean(idx, level, c) && from < |c| && c[from] == start && fuel > |idx.pages| &&
            (forall k | 0 <= k < from :: PassedBy(idx, key, c[k])) ==>
              && r.At? && StopsAt(idx, key, c, i) && r.blk == c[i]
              && (StopsAt(idx, key, c, from) ==> r.blk == start)
  {
    hide PageClean, LeftRun;
    i := from;
    ghost var clean := && LevelClean(idx, level, c) && from < |c| && c[from] == start
                       && forall k | 0 <= k < from :: PassedBy(idx, key, c[k]);
    if clean { ChainFits(idx, c); }
    var blk := start;
    var left := fuel;
    while true
      invariant clean ==> from <= i < |c| && c[i] == blk && fuel - left == i - from
      invariant clean ==> forall k | 0 <= k < i :: PassedBy(idx, key, c[k])
      decreases left
    {
      if left == 0 { return Endless, i; }
      left := left - 1;
      if clean { CleanHigh(idx, blk); }
      if blk !in idx.pages { return Failed, i; }
      var p := idx.pages[blk];
      if p.Rightmost() { break; }
      if !p.HasItem(P_HIKEY) { return Failed, i; }
      if p.Ignore() || Compare(key, p, P_HIKEY) >= (if key.nextkey then 0 else 1) {
        if clean {
          assert PassedBy(idx, key, blk);
          assert idx.pages[c[i]].next == c[i + 1];
        }
        blk, i := p.next, i + 1;
      } else {
        break;
      }
    }
    r := if idx.pages[blk].Ignore() then Failed else At(blk);
  }

  lemma ChainFits(idx: Index, c: seq<nat>)
    requires Chain(idx, c)
    ensures |c| <= |idx.pages|
  {
    hide RightRun;
    forall i, j | 0 <= i < j < |c| ensures c[i] != c[j] { ChainDistinct(idx, c, i, j); }
    DistinctFit(c, idx.pages);
  }

  lemma CleanHigh(idx: Index, blk: nat)
    ensures PageClean(idx, blk) ==>
              blk in idx.pages && !idx.pages[blk].Ignore() &&
              (!idx.pages[blk].Rightmost() ==> idx.pages[blk].HasItem(P_HIKEY))
  {
  }

  /** Every data item before `low` is left of the scan key, none from `low` on is. */
  predicate Splits(key: ScanKey, p: Page, low: nat) {
    && p.FirstDataKey() <= low <= p.MaxOffset() + 1
    && (forall off | p.FirstDataKey() <= off < low :: Compare(key, p, off) >= if key.nextkey then 0 else 1)
    && (forall off | low <= off <= p.MaxOffset() :: Compare(key, p, off) < if key.nextkey then 0 else 1)
  }

  lemma PageMonotone(nkeyatts: nat, key: ScanKey, p: Page, a: nat, b: nat)
    requires !p.Ignore() && InPage(nkeyatts, p) && key.Ok(nkeyatts)
    requires p.FirstDataKey() <= a <= b <= p.MaxOffset()
    ensures Compare(key, p, b) >= (if key.nextkey then 0 else 1) ==>
              Compare(key, p, a) >= if key.nextkey then 0 else 1
  {
    if a < b && !p.NegativeInfinity(a) && GoesRight(key, p.Item(b)) {
      assert ItemOk(nkeyatts, p, a) && ItemOk(nkeyatts, p, b);
      ItemTupleOk(nkeyatts, p, a);
      ItemTupleOk(nkeyatts, p, b);
      PageAscends(nkeyatts, p, a, b);
      LexTotal(Key(p.Item(a)), Key(p.Item(b)));
      GoesRightDownward(nkeyatts, key, p.Item(a), p.Item(b));
    }
  }

  /** _bt_binsrch: on an internal page the last item left of the key, on a leaf the first item that
      is not (or, scanning backward, the item before it). */
  method BinarySearch(nkeyatts: nat, key: ScanKey, p: Page) returns (off: nat)
    ensures DataCount(p) == 0 ==> off == p.FirstDataKey()
    ensures DataCount(p) > 0 ==> off <= p.MaxOffset() + 1 && (!key.backward ==> off >= p.FirstDataKey())
    ensures DataCount(p) > 0 && !p.leaf ==> p.FirstDataKey() <= off <= p.MaxOffset()
    ensures DataCount(p) > 0 && !p.Ignore() && InPage(nkeyatts, p) && key.Ok(nkeyatts) ==>
              Splits(key, p, if p.leaf && !key.backward then off else off + 1)
  {
    var low, high := p.FirstDataKey(), p.MaxOffset();
    if high < low { return low; }
    high := high + 1;
    var cmpval := if key.nextkey then 0 else 1;
    ghost var sorted := !p.Ignore() && InPage(nkeyatts, p) && key.Ok(nkeyatts);
    while high > low
      invariant p.FirstDataKey() <= low <= high <= p.MaxOffset() + 1
      invariant !p.leaf ==> high > p.FirstDataKey()
      invariant sorted ==> forall k | p.FirstDataKey() <= k < low :: Compare(key, p, k) >= cmpval
      invariant sorted ==> forall k | high <= k <= p.MaxOffset() :: Compare(key, p, k) < cmpval
    {
      var mid := low + (high - low) / 2;
      if Compare(key, p, mid) >= cmpval {
        if sorted {
          forall k | p.FirstDataKey() <= k <= mid ensures Compare(key, p, k) >= cmpval {
            PageMonotone(nkeyatts, key, p, k, mid);
          }
        }
        low := mid + 1;
      } else {
        if sorted {
          forall k | mid <= k <= p.MaxOffset() ensures Compare(key, p, k) < cmpval {
            PageMonotone(nkeyatts, key, p, mid, k);
          }
        }
        high := mid;
      }
    }
    if p.leaf {
      if key.backward { return low - 1; }
      return low;
    }
    off := low - 1;
  }

  // ---------------------------------------------------------------- one level down

  /** Downlinks of earlier pages come before those of later pages. */
  lemma DownlinkOrder(idx: Index, c: seq<nat>, i: nat, j: nat, a: nat, b: nat)
    requires forall k | 0 <= k < |c| :: c[k] in idx.pages
    requires i < |c| && j < DataCount(idx.pages[c[i]])
    requires a < |c| && b < DataCount(idx.pages[c[a]])
    ensures |Downlinks(idx, c[..a])| + b < |Downlinks(idx, c[..i])| + j ==> a < i || (a == i && b < j)
  {
    if a > i {
      DownlinkAt(idx, c[..a], i, j);
      assert c[..a][..i] == c[..i];
    }
  }

  /** A page is the child of the b-th item of p, and its high key repeats the key that ends its range. */
  ghost predicate Matched(idx: Index, p: Page, b: nat, blk: nat)
    requires b < DataCount(p)
  {
    && blk == DataItem(p, b).downlink
    && blk in idx.pages
    && (!idx.pages[blk].Rightmost() ==>
          && idx.pages[blk].HasItem(P_HIKEY)
          && TupleOk(idx.nkeyatts, HighKey(idx, blk))
          && UpperKey(p, b).Some?
          && PivotIdentical(HighKey(idx, blk), UpperKey(p, b).value))
  }

  lemma ChildMatched(idx: Index, level: nat, c: seq<nat>, below: seq<nat>, a: nat, b: nat)
    requires LevelClean(idx, level + 1, c) && LevelClean(idx, level, below) && below == Downlinks(idx, c)
    requires a < |c| && b < DataCount(idx.pages[c[a]])
    ensures |Downlinks(idx, c[..a])| + b < |below|
    ensures Matched(idx, idx.pages[c[a]], b, below[|Downlinks(idx, c[..a])| + b])
    ensures below[|Downlinks(idx, c[..a])| + b] == DataItem(idx.pages[c[a]], b).downlink
  {
    hide Downlinks, RightRun, LeftRun, PageClean, UpperKey, PivotIdentical, TupleOk;
    DownlinkAt(idx, c, a, b);
    var blk := below[|Downlinks(idx, c[..a])| + b];
    CleanPageFacts(idx, c[a]);
    CleanMatched(idx, c[a], b, blk);
  }

  lemma CleanMatched(idx: Index, parent: nat, b: nat, blk: nat)
    requires PageClean(idx, parent) && PageClean(idx, blk) && !idx.pages[parent].leaf
    requires b < DataCount(idx.pages[parent]) && blk == DataItem(idx.pages[parent], b).downlink
    ensures Matched(idx, idx.pages[parent], b, blk)
  {
    assert ChildOk(idx, idx.pages[parent], b);
    if !idx.pages[blk].Rightmost() { ItemTupleOk(idx.nkeyatts, idx.pages[blk], P_HIKEY); }
  }

  lemma IdenticalGoRight(key: ScanKey, s: Tuple, t: Tuple)
    requires PivotIdentical(s, t)
    ensures GoesRight(key, s) <==> GoesRight(key, t)
    ensures Key(s) == Key(t)
  {
    var s', t' := s.(downlink := 0), t.(downlink := 0);
    assert s.atts == s'.atts == t.atts && s.tid == s'.tid == t.tid;
  }

  lemma MatchedPassed(idx: Index, key: ScanKey, p: Page, b: nat, blk: nat)
    requires b < DataCount(p) && Matched(idx, p, b, blk)
    ensures !idx.pages[blk].Rightmost() ==> UpperKey(p, b).Some?
    ensures PassedBy(idx, key, blk) <==>
              !idx.pages[blk].Rightmost() && GoesRight(key, UpperKey(p, b).value)
  {
    hide GoesRight;
    if !idx.pages[blk].Rightmost() {
      IdenticalGoRight(key, HighKey(idx, blk), UpperKey(p, b).value);
    }
  }

  /** The child that binary search picks on the page where the walk of a level stops is where the
      walk of the level below stops: below the root, no step to the right is ever needed. */
  lemma DescentStops(idx: Index, key: ScanKey, level: nat, c: seq<nat>, below: seq<nat>, i: nat, j: nat)
    requires key.Ok(idx.nkeyatts)
    requires LevelClean(idx, level + 1, c) && LevelClean(idx, level, below) && below == Downlinks(idx, c)
    requires StopsAt(idx, key, c, i) && j < DataCount(idx.pages[c[i]])
    requires Splits(key, idx.pages[c[i]], idx.pages[c[i]].FirstDataKey() + j + 1)
    ensures |Downlinks(idx, c[..i])| + j < |below|
    ensures below[|Downlinks(idx, c[..i])| + j] == DataItem(idx.pages[c[i]], j).downlink
    ensures StopsAt(idx, key, below, |Downlinks(idx, c[..i])| + j)
  {
    hide PageClean, Matched, PassedBy, Splits, GoesRight, UpperKey, Downlinks, RightRun, LeftRun;
    var p := idx.pages[c[i]];
    var n := |Downlinks(idx, c[..i])| + j;
    ChildMatched(idx, level, c, below, i, j);
    forall k | 0 <= k < n ensures PassedBy(idx, key, below[k]) {
      var (a, b) := DownlinkSource(idx, c, k);
      DownlinkOrder(idx, c, i, j, a, b);
      ChildMatched(idx, level, c, below, a, b);
      NotRightmost(idx, below, k);
      MatchedPassed(idx, key, idx.pages[c[a]], b, below[k]);
      if a == i {
        EarlierItemPassed(key, p, j, b);
      } else {
        EarlierUpperPassed(idx, key, level + 1, c, a, b);
      }
    }
    MatchedPassed(idx, key, p, j, below[n]);
    ChosenUpperNotPassed(idx, key, c[i], j);
  }

  lemma NotRightmost(idx: Index, c: seq<nat>, k: nat)
    requires Chain(idx, c) && k + 1 < |c|
    ensures !idx.pages[c[k]].Rightmost()
  {
    assert idx.pages[c[k]].next == c[k + 1];
  }

  lemma EarlierItemPassed(key: ScanKey, p: Page, j: nat, b: nat)
    requires b < j < DataCount(p) && Splits(key, p, p.FirstDataKey() + j + 1)
    ensures UpperKey(p, b).Some? && GoesRight(key, UpperKey(p, b).value)
  {
    assert Compare(key, p, p.FirstDataKey() + b + 1) >= if key.nextkey then 0 else 1;
  }

  lemma ChosenUpperNotPassed(idx: Index, key: ScanKey, blk: nat, j: nat)
    requires blk in idx.pages && !PassedBy(idx, key, blk) && j < DataCount(idx.pages[blk])
    requires Splits(key, idx.pages[blk], idx.pages[blk].FirstDataKey() + j + 1)
    ensures UpperKey(idx.pages[blk], j).Some? ==> !GoesRight(key, UpperKey(idx.pages[blk], j).value)
  {
    var p := idx.pages[blk];
    if j + 1 < DataCount(p) {
      assert Compare(key, p, p.FirstDataKey() + j + 1) < if key.nextkey then 0 else 1;
    }
  }

  lemma EarlierUpperPassed(idx: Index, key: ScanKey, level: nat, c: seq<nat>, a: nat, b: nat)
    requires key.Ok(idx.nkeyatts) && LevelClean(idx, level, c) && 0 < level
    requires a < |c| && b < DataCount(idx.pages[c[a]]) && PassedBy(idx, key, c[a])
    ensures UpperKey(idx.pages[c[a]], b).Some? && GoesRight(key, UpperKey(idx.pages[c[a]], b).value)
  {
    var p := idx.pages[c[a]];
    assert PageClean(idx, c[a]);
    if b + 1 < DataCount(p) {
      var off := p.FirstDataKey() + b + 1;
      assert ItemOk(idx.nkeyatts, p, off);
      HighKeyBounds(idx.nkeyatts, p, off);
      ItemTupleOk(idx.nkeyatts, p, off);
      ItemTupleOk(idx.nkeyatts, p, P_HIKEY);
      GoesRightDownward(idx.nkeyatts, key, p.Item(off), p.Item(P_HIKEY));
    }
  }

  // ---------------------------------------------------------------- from the root

  lemma CleanPageFacts(idx: Index, blk: nat)
    requires PageClean(idx, blk)
    ensures blk in idx.pages && !idx.pages[blk].Ignore() && InPage(idx.nkeyatts, idx.pages[blk])
    ensures idx.pages[blk].leaf <==> idx.pages[blk].level == 0
    ensures !idx.pages[blk].leaf ==> DataCount(idx.pages[blk]) > 0
  {
  }

  /** _bt_search from the true root, reading. */
  method Search(idx: Index, key: ScanKey, fuel: nat, ghost levels: seq<seq<nat>>) returns (r: Outcome, ghost i: nat)
    requires key.Ok(idx.nkeyatts)
    ensures r.Empty? <==> idx.root == P_NONE
    ensures r.At? ==> r.blk in idx.pages && idx.pages[r.blk].leaf && !idx.pages[r.blk].Ignore()
    ensures idx.root != P_NONE && Tower(idx, levels) && fuel > |idx.pages| && fuel > idx.rootLevel ==>
              r.At? && StopsAt(idx, key, levels[0], i) && r.blk == levels[0][i]
  {
    hide PageClean, PassedBy, Splits, Downlinks, RightRun, LeftRun, InPage, PageSane;
    i := 0;
    if idx.root == P_NONE { return Empty, i; }
    ghost var clean := Tower(idx, levels) && fuel > |idx.pages| && fuel > idx.rootLevel;
    ghost var l: nat := idx.rootLevel;
    var blk := idx.root;
    var left := fuel;
    while true
      invariant clean ==> l < |levels| && i < |levels[l]| && levels[l][i] == blk && fuel - left + l == idx.rootLevel
      invariant clean ==> forall k | 0 <= k < i :: PassedBy(idx, key, levels[l][k])
      decreases left
    {
      if left == 0 { return Endless, i; }
      left := left - 1;
      if clean { assert LevelClean(idx, l, levels[l]); }
      r, i := MoveRight(idx, key, blk, fuel, l, if clean then levels[l] else [], i);
      if !r.At? { return r, i; }
      blk := r.blk;
      if clean { CleanPageFacts(idx, blk); }
      var p := idx.pages[blk];
      if p.leaf { return r, i; }
      if DataCount(p) == 0 { return Failed, i; }
      var off := BinarySearch(idx.nkeyatts, key, p);
      if clean {
        ghost var j := off - p.FirstDataKey();
        assert LevelClean(idx, l - 1, levels[l - 1]);
        DescentStops(idx, key, l - 1, levels[l], levels[l - 1], i, j);
        i, l := |Downlinks(idx, levels[l][..i])| + j, l - 1;
      }
      blk := p.Item(off).downlink;
    }
  }

  /** A walk stops at one position only. */
  lemma StopsOnce(idx: Index, key: ScanKey, c: seq<nat>, i: nat, j: nat)
    requires StopsAt(idx, key, c, i) && StopsAt(idx, key, c, j)
    ensures i == j
  {
  }

  /** bt_rootdescend: can the tuple be found by a search of its own?  None is a search that fails or does not end. */
  method RootDescend(idx: Index, t: Tuple, fuel: nat, ghost levels: seq<seq<nat>>) returns (found: Option<bool>)
    requires |t.atts| == idx.nkeyatts && t.tid.Some?
    ensures idx.root == P_NONE ==> found == Some(false)
    ensures idx.root != P_NONE && Tower(idx, levels) && fuel > |idx.pages| && fuel > idx.rootLevel ==>
              found == Some(exists i: nat, off: nat ::
                              StopsAt(idx, InsertKey(t), levels[0], i) && HoldsKey(idx, levels[0][i], off, Key(t)))
  {
    hide StopsAt, PageClean, LeftRun, RightRun, Downlinks, Splits, InPage;
    var key := InsertKey(t);
    var leaf, i := Search(idx, key, fuel, levels);
    if leaf.Empty? { return Some(false); }
    if !leaf.At? { return None; }
    var p := idx.pages[leaf.blk];
    var off := BinarySearch(idx.nkeyatts, key, p);
    var hit := off <= p.MaxOffset() && DataCount(p) > 0 && Compare(key, p, off) == 0;
    found := Some(hit);
    if idx.root != P_NONE && Tower(idx, levels) && fuel > |idx.pages| && fuel > idx.rootLevel {
      DescendHits(idx, t, levels, i, off);
    }
  }

  /** The slot the descent ends at holds the key exactly when a stopping leaf does. */
  lemma DescendHits(idx: Index, t: Tuple, levels: seq<seq<nat>>, i: nat, off: nat)
    requires Tower(idx, levels) && StopsAt(idx, InsertKey(t), levels[0], i) && levels[0][i] in idx.pages
    requires |t.atts| == idx.nkeyatts && t.tid.Some?
    requires var p := idx.pages[levels[0][i]];
             && p.leaf
             && if DataCount(p) == 0 then off == p.FirstDataKey()
                else !p.Ignore() && InPage(idx.nkeyatts, p) ==> Splits(InsertKey(t), p, off)
    ensures var p := idx.pages[levels[0][i]];
            (off <= p.MaxOffset() && DataCount(p) > 0 && p.HasItem(off) && Compare(InsertKey(t), p, off) == 0) <==>
              exists k: nat, m: nat ::
                StopsAt(idx, InsertKey(t), levels[0], k) && HoldsKey(idx, levels[0][k], m, Key(t))
  {
    hide Downlinks, LeftRun, RightRun, Compare, HoldsKey;
    var key, c := InsertKey(t), levels[0];
    assert LevelClean(idx, 0, c);
    CleanPageFacts(idx, c[i]);
    LeafHoldsIff(idx, t, c[i], off);
    forall k: nat, m: nat | StopsAt(idx, key, c, k) && HoldsKey(idx, c[k], m, Key(t)) ensures k == i {
      StopsOnce(idx, key, c, i, k);
    }
  }

  /** The slot binary search of a leaf ends at holds the key exactly when some slot does. */
  lemma LeafHoldsIff(idx: Index, t: Tuple, blk: nat, off: nat)
    requires PageClean(idx, blk) && idx.pages[blk].leaf
    requires |t.atts| == idx.nkeyatts && t.tid.Some?
    requires if DataCount(idx.pages[blk]) == 0 then off == idx.pages[blk].FirstDataKey()
             else Splits(InsertKey(t), idx.pages[blk], off)
    ensures off <= idx.pages[blk].MaxOffset() && Compare(InsertKey(t), idx.pages[blk], off) == 0 <==>
              exists k: nat :: HoldsKey(idx, blk, k, Key(t))
  {
    var p := idx.pages[blk];
    if off <= p.MaxOffset() {
      assert ItemOk(idx.nkeyatts, p, off);
      EqualDecides(idx.nkeyatts, t, p.Item(off));
      if Compare(InsertKey(t), p, off) == 0 { assert HoldsKey(idx, blk, off, Key(t)); }
    }
    forall k: nat | HoldsKey(idx, blk, k, Key(t))
      ensures off <= p.MaxOffset() && Compare(InsertKey(t), p, off) == 0
    {
      assert ItemOk(idx.nkeyatts, p, k);
      EqualIsFirst(idx.nkeyatts, t, p, off, k);
    }
  }

  /** The data item at `off` of a page has the given key. */
  ghost predicate HoldsKey(idx: Index, blk: nat, off: nat, key: seq<int>) {
    && blk in idx.pages
    && idx.pages[blk].FirstDataKey() <= off <= idx.pages[blk].MaxOffset()
    && Key(idx.pages[blk].Item(off)) == key
  }

  lemma EqualDecides(nkeyatts: nat, t: Tuple, u: Tuple)
    requires |t.atts| == nkeyatts && t.tid.Some? && |u.atts| == nkeyatts
    ensures CompareTuple(InsertKey(t), u) == 0 <==> Key(u) == Key(t)
  {
    CompareAttsFlip(t.atts, u.atts);
    if Key(u) == Key(t) {
      assert u.atts == Key(u)[..nkeyatts] == Key(t)[..nkeyatts] == t.atts;
      assert |Key(u)| == |Key(t)| && Key(u)[nkeyatts] == Key(t)[nkeyatts];
      AttsPrefix(t.atts, u.atts);
    }
  }

  /** The first item that is not left of a key a page holds is the item that holds it. */
  lemma EqualIsFirst(nkeyatts: nat, t: Tuple, p: Page, off: nat, k: nat)
    requires p.leaf && !p.Ignore() && InPage(nkeyatts, p)
    requires |t.atts| == nkeyatts && t.tid.Some?
    requires Splits(InsertKey(t), p, off)
    requires p.FirstDataKey() <= k <= p.MaxOffset() && Key(p.Item(k)) == Key(t)
    ensures off == k
  {
    assert ItemOk(nkeyatts, p, k);
    EqualDecides(nkeyatts, t, p.Item(k));
    assert Compare(InsertKey(t), p, k) == 0;
    if off < k {
      assert ItemOk(nkeyatts, p, off);
      assert Compare(InsertKey(t), p, off) < 1;
      GoesRightDecides(nkeyatts, InsertKey(t), p.Item(off));
      PageAscends(nkeyatts, p, off, k);
    }
  }
}
