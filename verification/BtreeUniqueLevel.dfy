/** The uniqueness check over the whole leaf level.  Each page is checked from a fresh start and sees of the page to
    its right only the first item, so a key that runs over a page boundary can escape; exactly when is proved. */
module BtreeUniqueLevel {
  import opened Wrappers
  import opened Sequences
  import opened BtreePages
  import opened BtreeUnique

  /** The leaf pages from left to right: sorted within pages and across them. */
  ghost predicate LevelSorted(pages: seq<seq<LeafItem>>) {
    && (forall p | 0 <= p < |pages| :: SortedItems(pages[p]))
    && (forall p, i, q, j | 0 <= p < q < |pages| && 0 <= i < |pages[p]| && 0 <= j < |pages[q]| ::
          && LexLeq(pages[p][i].key, pages[q][j].key)
          && (pages[p][i].key == pages[q][j].key ==> pages[p][i].anyNull == pages[q][j].anyNull))
  }

  /** The first item of the page to the right. */
  function RightItem(pages: seq<seq<LeafItem>>, p: nat): Option<LeafItem> {
    if p + 1 < |pages| && pages[p + 1] != [] then Some(pages[p + 1][0]) else None
  }

  ghost predicate VisibleOn(pages: seq<seq<LeafItem>>, visible: set<int>, p: nat, i: nat, a: nat) {
    p < |pages| && VisibleAt(pages[p], visible, i, a)
  }

  /** Two visible entries of the level share a key without nulls. */
  ghost predicate Twice(pages: seq<seq<LeafItem>>, visible: set<int>, p: nat, i: nat, a: nat, q: nat, j: nat, b: nat) {
    && VisibleOn(pages, visible, p, i, a) && VisibleOn(pages, visible, q, j, b)
    && (p < q || (p == q && (i < j || (i == j && a < b))))
    && SameKey(pages[p][i], pages[q][j])
  }

  ghost predicate LevelDuplicate(pages: seq<seq<LeafItem>>, visible: set<int>) {
    exists p: nat, i: nat, a: nat, q: nat, j: nat, b: nat :: Twice(pages, visible, p, i, a, q, j, b)
  }

  ghost predicate PagePasses(pages: seq<seq<LeafItem>>, visible: set<int>, p: nat)
    requires p < |pages|
  {
    !Duplicate(WithRight(pages[p], RightItem(pages, p)), visible)
  }

  /** The page holds a visible entry of its last key. */
  ghost predicate LastKeyVisible(items: seq<LeafItem>, visible: set<int>) {
    items != [] && exists i: nat, a: nat :: VisibleAt(items, visible, i, a) && SameKey(items[i], items[|items| - 1])
  }

  /** A visible entry of the last key of page p lies further right than the first item of the next page. */
  ghost predicate Beyond(pages: seq<seq<LeafItem>>, visible: set<int>, p: nat, q: nat, j: nat, b: nat)
    requires p < |pages| && pages[p] != []
  {
    && p < q && (q > p + 1 || j > 0)
    && VisibleOn(pages, visible, q, j, b) && SameKey(pages[p][|pages[p]| - 1], pages[q][j])
  }

  /** The boundary hides nothing: a page that holds a visible entry of its last key is followed by none further
      right than the one item it is compared with. */
  ghost predicate Quiet(pages: seq<seq<LeafItem>>, visible: set<int>, p: nat)
    requires p < |pages|
  {
    LastKeyVisible(pages[p], visible) ==> forall q: nat, j: nat, b: nat :: !Beyond(pages, visible, p, q, j, b)
  }

  /** A key that two pages share is the last key of the left one. */
  lemma SharedIsLast(pages: seq<seq<LeafItem>>, p: nat, i: nat, q: nat, j: nat)
    requires LevelSorted(pages) && p < q < |pages| && i < |pages[p]| && j < |pages[q]|
    requires SameKey(pages[p][i], pages[q][j])
    ensures var last := pages[p][|pages[p]| - 1];
            SameKey(pages[p][i], last) && SameKey(last, pages[q][j])
  {
    var n := |pages[p]| - 1;
    Ascending(pages[p], i, n);
    LexTotal(pages[p][i].key, pages[p][n].key);
    assert LexLeq(pages[p][n].key, pages[q][j].key);
  }

  /** Entries of one page, or of a page and the first item to its right, are reported. */
  lemma NearReported(pages: seq<seq<LeafItem>>, visible: set<int>, p: nat, i: nat, a: nat, q: nat, j: nat, b: nat)
    requires LevelSorted(pages) && Twice(pages, visible, p, i, a, q, j, b)
    requires p == q || (q == p + 1 && j == 0)
    ensures !PagePasses(pages, visible, p)
  {
    var all := WithRight(pages[p], RightItem(pages, p));
    if p == q {
      assert DuplicateAt(all, visible, i, a, j, b);
    } else {
      SharedIsLast(pages, p, i, q, j);
      assert all == pages[p] + [pages[q][0]];
      assert VisibleAt(all, visible, i, a) && VisibleAt(all, visible, |pages[p]|, b);
      assert DuplicateAt(all, visible, i, a, |pages[p]|, b);
    }
  }

  /** If every page passes, the level is free of duplicates if and only if every boundary is quiet. */
  lemma LevelExact(pages: seq<seq<LeafItem>>, visible: set<int>)
    requires LevelSorted(pages) && forall p | 0 <= p < |pages| :: PagePasses(pages, visible, p)
    ensures !LevelDuplicate(pages, visible) <==> forall p | 0 <= p < |pages| :: Quiet(pages, visible, p)
  {
    hide PagePasses, LevelSorted;
    if LevelDuplicate(pages, visible) {
      var p: nat, i: nat, a: nat, q: nat, j: nat, b: nat :| Twice(pages, visible, p, i, a, q, j, b);
      FarUnquiet(pages, visible, p, i, a, q, j, b);
    }
    forall p | 0 <= p < |pages| && !Quiet(pages, visible, p) ensures LevelDuplicate(pages, visible) {
      var i: nat, a: nat :| VisibleAt(pages[p], visible, i, a) && SameKey(pages[p][i], pages[p][|pages[p]| - 1]);
      var q: nat, j: nat, b: nat :| Beyond(pages, visible, p, q, j, b);
      assert Twice(pages, visible, p, i, a, q, j, b);
    }
  }

  lemma FarUnquiet(pages: seq<seq<LeafItem>>, visible: set<int>, p: nat, i: nat, a: nat, q: nat, j: nat, b: nat)
    requires LevelSorted(pages) && forall k | 0 <= k < |pages| :: PagePasses(pages, visible, k)
    requires Twice(pages, visible, p, i, a, q, j, b)
    ensures p < |pages| && !Quiet(pages, visible, p)
  {
    hide PagePasses, LevelSorted;
    if p == q || (q == p + 1 && j == 0) {
      NearReported(pages, visible, p, i, a, q, j, b);
    } else {
      SharedIsLast(pages, p, i, q, j);
      assert Beyond(pages, visible, p, q, j, b);
    }
  }

  /** The leaf level, page by page: what a pass means for the whole level. */
  method LevelUniqueCheck(pages: seq<seq<LeafItem>>, visible: set<int>) returns (ok: bool)
    requires LevelSorted(pages)
    ensures ok <==> forall p | 0 <= p < |pages| :: PagePasses(pages, visible, p)
    ensures ok ==> (!LevelDuplicate(pages, visible) <==> forall p | 0 <= p < |pages| :: Quiet(pages, visible, p))
    ensures !ok ==> LevelDuplicate(pages, visible)
  {
    hide LevelDuplicate, Duplicate, Quiet;
    var p := 0;
    ok := true;
    while p < |pages|
      invariant 0 <= p <= |pages| && ok && forall k | 0 <= k < p :: PagePasses(pages, visible, k)
    {
      WithRightSorted(pages, p);
      var good := PageUniqueCheck(pages[p], RightItem(pages, p), visible, 1, 2);
      if !good {
        ReportedIsDuplicate(pages, visible, p);
        return false;
      }
      p := p + 1;
    }
    LevelExact(pages, visible);
  }

  lemma WithRightSorted(pages: seq<seq<LeafItem>>, p: nat)
    requires LevelSorted(pages) && p < |pages|
    ensures var right := RightItem(pages, p);
            SortedItems(if right.Some? then pages[p] + [right.value] else pages[p])
  {
    hide LexLess;
    if RightItem(pages, p).Some? {
      var r := pages[p + 1][0];
      var all := pages[p] + [r];
      var n := |pages[p]|;
      assert ItemWf(r);
      forall i | 0 <= i < |all| - 1 ensures LexLeq(all[i].key, all[i + 1].key) {
        if i + 1 < n { assert LexLeq(pages[p][i].key, pages[p][i + 1].key); }
      }
      forall i, j | 0 <= i < |all| && 0 <= j < |all|
        ensures all[i].key == all[j].key ==> all[i].anyNull == all[j].anyNull
      {
        assert i < n ==> all[i] == pages[p][i];
        assert j < n ==> all[j] == pages[p][j];
      }
    }
  }

  lemma ReportedIsDuplicate(pages: seq<seq<LeafItem>>, visible: set<int>, p: nat)
    requires p < |pages| && !PagePasses(pages, visible, p)
    ensures LevelDuplicate(pages, visible)
  {
    var all := WithRight(pages[p], RightItem(pages, p));
    var n := |pages[p]|;
    var i: nat, a: nat, j: nat, b: nat :| DuplicateAt(all, visible, i, a, j, b);
    if j < n {
      assert Twice(pages, visible, p, i, a, p, j, b);
    } else if i < n {
      assert Twice(pages, visible, p, i, a, p + 1, 0, b);
    } else {
      assert Twice(pages, visible, p + 1, 0, a, p + 1, 0, b);
    }
  }

  // ---------------------------------------------------------------- a duplicate that escapes

  function Plain(key: int, tid: int): LeafItem { LeafItem([key], false, false, [tid]) }

  const LEFT: seq<LeafItem> := [Plain(7, 1)]
  const RIGHT: seq<LeafItem> := [Plain(7, 2), Plain(7, 3)]

  /** One key on three items, the second alone on its page boundary and not visible: both pages pass. */
  lemma BoundaryEscape()
    ensures var pages, visible := [LEFT, RIGHT], {1, 3};
            && LevelSorted(pages)
            && PagePasses(pages, visible, 0) && PagePasses(pages, visible, 1)
            && LevelDuplicate(pages, visible) && !Quiet(pages, visible, 0)
  {
    var pages, visible := [LEFT, RIGHT], {1, 3};
    LexTotal([7], [7]);
    EscapeLeft();
    EscapeRight();
    assert VisibleAt(LEFT, visible, 0, 0) && VisibleAt(RIGHT, visible, 1, 0);
    assert Twice(pages, visible, 0, 0, 0, 1, 1, 0);
    assert Beyond(pages, visible, 0, 1, 1, 0);
  }

  lemma EscapeLeft()
    ensures PagePasses([LEFT, RIGHT], {1, 3}, 0)
  {
    var all := WithRight(LEFT, Some(RIGHT[0]));
    assert all == [Plain(7, 1), Plain(7, 2)];
    forall i: nat, a: nat, j: nat, b: nat ensures !DuplicateAt(all, {1, 3}, i, a, j, b) {
      assert !VisibleAt(all, {1, 3}, 1, b);
    }
  }

  lemma EscapeRight()
    ensures PagePasses([LEFT, RIGHT], {1, 3}, 1)
  {
    var all := WithRight(RIGHT, None);
    assert all == RIGHT;
    forall i: nat, a: nat, j: nat, b: nat ensures !DuplicateAt(all, {1, 3}, i, a, j, b) {
      assert !VisibleAt(all, {1, 3}, 0, a);
    }
  }
}
