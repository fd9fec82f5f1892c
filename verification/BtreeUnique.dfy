/** The uniqueness check of amcheck on one leaf page (checkunique): bt_entry_unique_check and the
    part of bt_target_page_check that decides when to call it.  Items whose key appears for the first
    time are not looked up in the heap until an equal key turns up. */
module BtreeUnique {
  import opened Wrappers
  import opened Sequences
  import opened BtreePages
  import opened BtreeOrder

  /** A leaf tuple: its key as ranks, whether some key attribute is null, and its heap TIDs, several
      when the tuple is a posting list. */
  datatype LeafItem = LeafItem(key: seq<int>, anyNull: bool, posting: bool, tids: seq<int>)

  /** Information about the last visible entry with the current key. */
  datatype LastVisible = LastVisible(blkno: nat, offset: nat, postingIndex: int, tid: Option<int>)

  const NO_ENTRY := LastVisible(INVALID_BLOCK, 0, -1, None)

  predicate ItemWf(x: LeafItem) {
    if x.posting then |x.tids| >= 2 else |x.tids| == 1
  }

  predicate SameKey(x: LeafItem, y: LeafItem) { x.key == y.key && !x.anyNull && !y.anyNull }

  /** Keys do not descend, and whether a key has nulls depends on the key alone. */
  predicate SortedItems(items: seq<LeafItem>) {
    && (forall i | 0 <= i < |items| :: ItemWf(items[i]))
    && (forall i | 0 <= i < |items| - 1 :: LexLeq(items[i].key, items[i + 1].key))
    && (forall i, j | 0 <= i < |items| && 0 <= j < |items| ::
          items[i].key == items[j].key ==> items[i].anyNull == items[j].anyNull)
  }

  /** The a-th TID of item i is visible in the heap. */
  predicate VisibleAt(items: seq<LeafItem>, visible: set<int>, i: nat, a: nat) {
    i < |items| && a < |items[i].tids| && items[i].tids[a] in visible
  }

  /** Two visible entries, at different places, share a key without nulls. */
  ghost predicate Duplicate(items: seq<LeafItem>, visible: set<int>) {
    exists i: nat, a: nat, j: nat, b: nat :: DuplicateAt(items, visible, i, a, j, b)
  }

  /** Some entry of an earlier item with the key of item n is visible. */
  ghost predicate SeenBefore(items: seq<LeafItem>, visible: set<int>, n: nat)
    requires n < |items|
  {
    exists i: nat, a: nat :: i < n && VisibleAt(items, visible, i, a) && SameKey(items[i], items[n])
  }

  ghost predicate SeenAt(items: seq<LeafItem>, visible: set<int>, n: nat)
    requires n < |items|
  {
    exists a: nat :: VisibleAt(items, visible, n, a)
  }

  ghost predicate TwiceAt(items: seq<LeafItem>, visible: set<int>, n: nat)
    requires n < |items|
  {
    exists a: nat, b: nat :: a < b && VisibleAt(items, visible, n, a) && VisibleAt(items, visible, n, b)
  }

  /** What is remembered is a visible entry of item n and where it is. */
  predicate Names(items: seq<LeafItem>, visible: set<int>, n: nat, block: nat, offset: nat, v: LastVisible)
    requires n < |items| && ItemWf(items[n])
  {
    var a := if items[n].posting then v.postingIndex else 0;
    && v.blkno == block && v.offset == offset && (!items[n].posting ==> v.postingIndex == -1)
    && 0 <= a < |items[n].tids| && v.tid == Some(items[n].tids[a]) && items[n].tids[a] in visible
  }

  /** bt_entry_unique_check: reports (returns false) when an entry of the tuple is visible and an
      entry with the same key was seen to be visible before. */
  method EntryUniqueCheck(items: seq<LeafItem>, n: nat, visible: set<int>, block: nat, offset: nat, last: LastVisible)
    returns (ok: bool, next: LastVisible)
    requires n < |items| && ItemWf(items[n]) && block != INVALID_BLOCK
    ensures ok <==> !TwiceAt(items, visible, n) && !(last.tid.Some? && SeenAt(items, visible, n))
    ensures ok ==> (next.tid.Some? <==> last.tid.Some? || SeenAt(items, visible, n))
    ensures ok && SeenAt(items, visible, n) ==> Names(items, visible, n, block, offset, next)
    ensures !ok || !SeenAt(items, visible, n) ==> next == last || Names(items, visible, n, block, offset, next)
  {
    var x := items[n];
    next := last;
    if x.posting {
      var i := 0;
      while i < |x.tids|
        invariant 0 <= i <= |x.tids|
        invariant next.tid.Some? <==> last.tid.Some? || exists a: nat :: a < i && VisibleAt(items, visible, n, a)
        invariant next == last || Names(items, visible, n, block, offset, next)
        invariant last.tid.Some? ==> forall a: nat | a < i :: !VisibleAt(items, visible, n, a)
        invariant forall a: nat, b: nat | a < b < i ::
                    !(VisibleAt(items, visible, n, a) && VisibleAt(items, visible, n, b))
      {
        var tid := x.tids[i];
        if tid in visible {
          assert VisibleAt(items, visible, n, i);
          if next.tid.Some? { return false, next; }
          next := LastVisible(block, offset, i, Some(tid));
        }
        i := i + 1;
      }
    } else {
      var tid := x.tids[0];
      if tid in visible {
        assert VisibleAt(items, visible, n, 0);
        if next.tid.Some? { return false, next; }
        next := LastVisible(block, offset, -1, Some(tid));
      }
    }
    ok := true;
  }

  /** Equal keys are adjacent. */
  lemma {:induction false} Grouped(items: seq<LeafItem>, i: nat, k: nat, j: nat)
    requires SortedItems(items) && i <= k <= j < |items| && items[i].key == items[j].key
    ensures items[k].key == items[i].key
  {
    Ascending(items, i, k);
    Ascending(items, k, j);
    LexTotal(items[i].key, items[k].key);
  }

  lemma {:induction false} Ascending(items: seq<LeafItem>, i: nat, j: nat)
    requires SortedItems(items) && i <= j < |items|
    ensures LexLeq(items[i].key, items[j].key)
    decreases j
  {
    LexTotal(items[i].key, items[i].key);
    if i < j {
      Ascending(items, i, j - 1);
      assert LexLeq(items[j - 1].key, items[j - 1 + 1].key);
      LexLeqLeq(items[i].key, items[j - 1].key, items[j].key);
    }
  }

  ghost predicate DuplicateAt(items: seq<LeafItem>, visible: set<int>, i: nat, a: nat, j: nat, b: nat) {
    && VisibleAt(items, visible, i, a) && VisibleAt(items, visible, j, b)
    && (i < j || (i == j && a < b))
    && SameKey(items[i], items[j])
  }

  /** Item n adds a duplicate: two of its own entries, or one of them and an earlier one. */
  ghost predicate AddsDuplicate(items: seq<LeafItem>, visible: set<int>, n: nat)
    requires n < |items|
  {
    || (!items[n].anyNull && TwiceAt(items, visible, n))
    || (SeenBefore(items, visible, n) && SeenAt(items, visible, n))
  }

  lemma DuplicateInLonger(s: seq<LeafItem>, t: seq<LeafItem>, visible: set<int>)
    requires s <= t && Duplicate(s, visible)
    ensures Duplicate(t, visible)
  {
    var i: nat, a: nat, j: nat, b: nat :| DuplicateAt(s, visible, i, a, j, b);
    assert DuplicateAt(t, visible, i, a, j, b);
  }

  lemma AddedIsDuplicate(items: seq<LeafItem>, visible: set<int>, n: nat)
    requires n < |items| && AddsDuplicate(items, visible, n)
    ensures Duplicate(items[..n + 1], visible)
  {
    var t := items[..n + 1];
    if !items[n].anyNull && TwiceAt(items, visible, n) {
      var a: nat, b: nat :| a < b && VisibleAt(items, visible, n, a) && VisibleAt(items, visible, n, b);
      assert DuplicateAt(t, visible, n, a, n, b);
    } else {
      var i: nat, a: nat :| i < n && VisibleAt(items, visible, i, a) && SameKey(items[i], items[n]);
      var b: nat :| VisibleAt(items, visible, n, b);
      assert DuplicateAt(t, visible, i, a, n, b);
    }
  }

  lemma DuplicateIsAdded(items: seq<LeafItem>, visible: set<int>, n: nat)
    requires n < |items| && Duplicate(items[..n + 1], visible)
    ensures Duplicate(items[..n], visible) || AddsDuplicate(items, visible, n)
  {
    var s, t := items[..n], items[..n + 1];
    var i: nat, a: nat, j: nat, b: nat :| DuplicateAt(t, visible, i, a, j, b);
    if j < n {
      assert DuplicateAt(s, visible, i, a, j, b);
    } else {
      assert VisibleAt(items, visible, n, b);
      assert VisibleAt(items, visible, i, a);
    }
  }

  /** A duplicate among the first n + 1 items is one among the first n, or item n adds it. */
  lemma DuplicateStep(items: seq<LeafItem>, visible: set<int>, n: nat)
    requires n < |items|
    ensures Duplicate(items[..n + 1], visible) <==> Duplicate(items[..n], visible) || AddsDuplicate(items, visible, n)
  {
    hide Duplicate, AddsDuplicate;
    if Duplicate(items[..n + 1], visible) { DuplicateIsAdded(items, visible, n); }
    if AddsDuplicate(items, visible, n) { AddedIsDuplicate(items, visible, n); }
    if Duplicate(items[..n], visible) { DuplicateInLonger(items[..n], items[..n + 1], visible); }
  }

  /** What was seen before item n + 1, in terms of item n. */
  lemma SeenStep(items: seq<LeafItem>, visible: set<int>, n: nat)
    requires SortedItems(items) && n + 1 < |items|
    ensures items[n].key != items[n + 1].key || items[n].anyNull ==> !SeenBefore(items, visible, n + 1)
    ensures SameKey(items[n], items[n + 1]) ==>
              (SeenBefore(items, visible, n + 1) <==> SeenBefore(items, visible, n) || SeenAt(items, visible, n))
  {
    if SeenBefore(items, visible, n + 1) {
      var i: nat, a: nat :| i < n + 1 && VisibleAt(items, visible, i, a) && SameKey(items[i], items[n + 1]);
      Grouped(items, i, n, n + 1);
      if i == n { assert VisibleAt(items, visible, n, a); }
    }
    if SameKey(items[n], items[n + 1]) {
      if SeenBefore(items, visible, n) {
        var i: nat, a: nat :| i < n && VisibleAt(items, visible, i, a) && SameKey(items[i], items[n]);
        assert SameKey(items[i], items[n + 1]);
      }
      if SeenAt(items, visible, n) {
        var a: nat :| VisibleAt(items, visible, n, a);
        assert SameKey(items[n], items[n + 1]);
      }
    }
  }

  /** The items of a page, and the first item of the page to the right when it repeats the last key. */
  function WithRight(items: seq<LeafItem>, right: Option<LeafItem>): seq<LeafItem> {
    if items != [] && right.Some? && SameKey(items[|items| - 1], right.value) then items + [right.value] else items
  }

  /** The uniqueness part of bt_target_page_check on a leaf: it passes exactly when no two visible
      entries of the page and of the first item of the page to the right share a key without nulls. */
  method PageUniqueCheck(items: seq<LeafItem>, right: Option<LeafItem>, visible: set<int>, block: nat, rightblock: nat)
    returns (ok: bool)
    requires SortedItems(if right.Some? then items + [right.value] else items)
    requires block != INVALID_BLOCK && rightblock != INVALID_BLOCK
    ensures ok <==> !Duplicate(WithRight(items, right), visible)
  {
    hide Duplicate, SeenBefore, SeenAt, TwiceAt, LexLess;
    SortedPage(items, right);
    var last := NO_ENTRY;
    var n := 0;
    ok := true;
    NothingYet(items, visible);
    while n < |items|
      invariant 0 <= n <= |items|
      invariant !Duplicate(items[..n], visible)
      invariant n < |items| ==> (last.tid.Some? <==> SeenBefore(items, visible, n))
      invariant n == |items| && n > 0 ==> !Duplicate(WithRight(items, right), visible)
      invariant ok
    {
      var x := items[n];
      var checked := false;
      DuplicateStep(items, visible, n);
      if Duplicate(items[..n + 1], visible) { DuplicateInLonger(items[..n + 1], WithRight(items, right), visible); }
      NullsAlone(items, visible, n);
      if !x.anyNull && (x.posting || last.tid.Some?) {
        ok, last := EntryUniqueCheck(items, n, visible, block, n + 1, last);
        if !ok { return; }
        checked := true;
      }
      if n + 1 < |items| {
        SeenStep(items, visible, n);
        if x.key != items[n + 1].key || x.anyNull {
          last := NO_ENTRY;
        } else if !checked {
          ok, last := EntryUniqueCheck(items, n, visible, block, n + 1, last);
          if !ok { return; }
        }
      } else {
        assert items[..n + 1] == items;
        if right.Some? && right.value.key == x.key && !right.value.anyNull {
          RightStep(items, right.value, visible);
          if !checked {
            ok, last := EntryUniqueCheck(items, n, visible, block, n + 1, last);
            if !ok { return; }
          }
          ok, last := EntryUniqueCheck([right.value], 0, visible, rightblock, 1, last);
          if !ok { return; }
        }
      }
      n := n + 1;
    }
  }

  lemma SortedPage(items: seq<LeafItem>, right: Option<LeafItem>)
    requires SortedItems(if right.Some? then items + [right.value] else items)
    ensures SortedItems(items)
    ensures right.Some? ==> ItemWf(right.value)
    ensures right.Some? && items != [] && right.value.key == items[|items| - 1].key ==>
              right.value.anyNull == items[|items| - 1].anyNull
  {
    if right.Some? {
      var all := items + [right.value];
      assert forall i | 0 <= i < |items| :: all[i] == items[i];
      assert all[|items|] == right.value;
    }
  }

  lemma NothingYet(items: seq<LeafItem>, visible: set<int>)
    ensures !Duplicate(items[..0], visible)
    ensures items != [] ==> !SeenBefore(items, visible, 0)
  {
  }

  /** A plain item never holds two entries, and an item with nulls is never seen before. */
  lemma NullsAlone(items: seq<LeafItem>, visible: set<int>, n: nat)
    requires n < |items| && ItemWf(items[n])
    ensures items[n].anyNull ==> !SeenBefore(items, visible, n)
    ensures !items[n].posting ==> !TwiceAt(items, visible, n)
  {
  }

  /** The first item of the right page against this page, when it repeats the last key. */
  lemma RightStep(items: seq<LeafItem>, r: LeafItem, visible: set<int>)
    requires SortedItems(items + [r]) && items != [] && SameKey(items[|items| - 1], r)
    ensures Duplicate(items + [r], visible) <==>
              || Duplicate(items, visible)
              || TwiceAt([r], visible, 0)
              || (SeenAt([r], visible, 0) &&
                  (SeenBefore(items, visible, |items| - 1) || SeenAt(items, visible, |items| - 1)))
  {
    hide Duplicate;
    var n := |items|;
    var all := items + [r];
    DuplicateStep(all, visible, n);
    assert all[..n + 1] == all && all[..n] == items;
    SeenStep(all, visible, n - 1);
    forall a: nat ensures VisibleAt(all, visible, n, a) == VisibleAt([r], visible, 0, a) {}
    forall i: nat, a: nat | i < n ensures VisibleAt(all, visible, i, a) == VisibleAt(items, visible, i, a) {}
    assert all[n] == r && all[n - 1] == items[n - 1];
    assert forall i | 0 <= i < n :: all[i] == items[i];
  }
}
