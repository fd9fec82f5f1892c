/** The walk along the level below a page (BtreeSteps), in terms of the pages of that level (BtreeMarked). */
module BtreeMarkedWalk {
  import opened Wrappers
  import opened BtreePages
  import opened BtreeShape
  import opened BtreeLeftmost
  import opened BtreeWalk
  import opened BtreeSweep
  import opened BtreeSteps
  import opened BtreeLoops
  import opened BtreeMarked

  // ---------------------------------------------------------------- tops of deletions

  /** A page the check takes for the top of a deletion has such a path. */
  lemma {:induction false} TopHasPath(idx: Index, top: nat, a: nat, n: nat) returns (path: seq<nat>)
    requires a in idx.pages && !idx.pages[a].leaf && DataCount(idx.pages[a]) > 0
    requires DeletionTop(idx, top, idx.pages[a].level, DataItem(idx.pages[a], 0).downlink, n)
    ensures DeletionPath(idx, top, path) && path[0] == a
    decreases n
  {
    hide PageSane;
    var b := DataItem(idx.pages[a], 0).downlink;
    if idx.pages[b].leaf {
      path := [a, b];
    } else {
      var rest := TopHasPath(idx, top, b, n - 1);
      path := [a] + rest;
      assert forall i | 0 < i < |path| :: path[i] == rest[i - 1];
      assert DownStep(idx, path[0], path[1]);
    }
  }

  /** And a page with such a path is taken for one. */
  lemma {:induction false} PathHasTop(idx: Index, top: nat, path: seq<nat>)
    requires DeletionPath(idx, top, path)
    ensures path[0] in idx.pages
    ensures var p := idx.pages[path[0]];
            && !p.leaf && DataCount(p) > 0
            && DeletionTop(idx, top, p.level, DataItem(p, 0).downlink, |path| - 1)
  {
    hide PageSane;
    assert DownStep(idx, path[0], path[0 + 1]);
    if |path| > 2 {
      var rest := path[1..];
      forall i | 0 <= i < |rest| - 1 ensures DownStep(idx, rest[i], rest[i + 1]) {
        assert DownStep(idx, path[i + 1], path[i + 1 + 1]);
      }
      PathHasTop(idx, top, rest);
    }
  }

  /** A page needs no downlink exactly if the check excuses it. */
  lemma ExcusedIs(idx: Index, a: nat, b: nat)
    requires a in idx.pages && b in idx.pages
    ensures Excused(idx, b, idx.pages[a].incompleteSplit) <==> NeedsNone(idx, a, b)
  {
    hide DeletionTop, ReadPage;
    var p := idx.pages[b];
    if TopOfDeletion(idx, b, p) {
      var n: nat :| DeletionTop(idx, b, p.level, DataItem(p, 0).downlink, n);
      var path := TopHasPath(idx, b, b, n);
    }
    if path :| DeletionPath(idx, b, path) && path[0] == b { PathHasTop(idx, b, path); }
  }

  // ---------------------------------------------------------------- the level below as a row

  /** The level below: a chain without deleted pages and pages linked to themselves. */
  ghost predicate Row(idx: Index, e: seq<nat>) {
    && e != [] && LevelChain(idx, e[0], e)
    && forall k | 0 <= k < |e| :: !idx.pages[e[k]].deleted && idx.pages[e[k]].prev != e[k]
  }

  /** Following right links goes along the chain and off its end. */
  lemma ChainAt(idx: Index, start: nat, c: seq<nat>, k: nat)
    requires LevelChain(idx, start, c)
    ensures RightAt(idx, start, k) == if k < |c| then c[k] else P_NONE
  {
    hide ReadPage;
    RunAlive(idx, c, k);
  }

  /** No block is on a chain twice. */
  lemma ChainOnce(idx: Index, start: nat, c: seq<nat>, i: nat, j: nat)
    requires LevelChain(idx, start, c) && i < j < |c|
    ensures c[i] != c[j]
  {
    hide LevelChain;
    var m: nat := |c| - j;
    ChainAt(idx, start, c, i);
    ChainAt(idx, start, c, j);
    ChainAt(idx, start, c, i + m);
    ChainAt(idx, start, c, j + m);
    if c[i] == c[j] {
      SamePath(idx, start, i, j, m);
      ChainMember(idx, start, c, i + m);
    }
  }

  lemma ChainMember(idx: Index, start: nat, c: seq<nat>, k: nat)
    requires LevelChain(idx, start, c) && k < |c|
    ensures c[k] != P_NONE && c[k] in idx.pages && ReadPage(idx, c[k]).Some?
  {
  }

  /** What is remembered after the child at x. */
  ghost function PlaceCur(idx: Index, e: seq<nat>, x: int): Place
    requires x < |e|
  {
    if x < 0 then NOWHERE else PlaceAt(idx, e[x])
  }

  ghost predicate RightLinksValid(idx: Index) { forall b | b in idx.pages :: idx.pages[b].next != INVALID_BLOCK }

  lemma PlaceRight(idx: Index, e: seq<nat>, x: nat)
    requires Row(idx, e) && x < |e| && RightLinksValid(idx)
    ensures PlaceCur(idx, e, x).right == (if x + 1 < |e| then e[x + 1] else P_NONE) != INVALID_BLOCK
    ensures e[x] in idx.pages && PlaceCur(idx, e, x).split == idx.pages[e[x]].incompleteSplit
  {
    hide ReadPage;
    ChainMember(idx, e[0], e, x);
  }

  /** The blocks met from there. */
  lemma MetIs(idx: Index, er: Errand, e: seq<nat>, x: nat, k: nat)
    requires er.Ok() && Row(idx, e) && x < |e| && er.place == PlaceCur(idx, e, x) && RightLinksValid(idx)
    ensures Met(idx, er, k) == if x + 1 + k < |e| then e[x + 1 + k] else P_NONE
  {
    hide Row, RightLinksValid;
    PlaceRight(idx, e, x);
    assert LevelChain(idx, e[0], e) by { RowChain(idx, e); }
    ChainAt(idx, e[0], e, x);
    ChainAt(idx, e[0], e, x + 1);
    ChainAt(idx, e[0], e, x + 1 + k);
    Onward(idx, e[0], x + 1, k);
  }

  lemma RowChain(idx: Index, e: seq<nat>)
    requires Row(idx, e)
    ensures LevelChain(idx, e[0], e)
  {
  }

  /** Page z is met and not the child looked for: the walk goes on exactly if it may stand there. */
  ghost predicate GoesOver(idx: Index, er: Errand, e: seq<nat>, z: int) {
    && 0 < z < |e| && e[z] in idx.pages && idx.pages[e[z]].level == LevelBelow(er.target.level)
    && NeedsNone(idx, e[z - 1], e[z]) && KeyFits(er.target, er.low, er.off, idx.pages[e[z]])
  }

  ghost predicate ComesTo(idx: Index, er: Errand, e: seq<nat>, y: int) {
    && 0 <= y < |e| && e[y] in idx.pages && idx.pages[e[y]].level == LevelBelow(er.target.level)
    && KeyFits(er.target, er.low, er.off + 1, idx.pages[e[y]])
  }

  lemma RowFits(idx: Index, er: Errand, e: seq<nat>, x: nat, k: nat)
    requires er.Ok() && Row(idx, e) && x + 1 + k < |e| && er.place == PlaceCur(idx, e, x) && RightLinksValid(idx)
    ensures var b := e[x + 1 + k];
            && b in idx.pages && b != P_NONE && e[x + k] in idx.pages
            && (LinksFit(idx, er.target.level, er.place.right, b, k == 0) <==>
                idx.pages[b].level == LevelBelow(er.target.level))
            && SplitBefore(idx, er, k) == idx.pages[e[x + k]].incompleteSplit
  {
    hide RightLinksValid, ReadPage, Leftmost;
    PlaceRight(idx, e, x);
    ChainMember(idx, e[0], e, x + 1 + k);
    ChainMember(idx, e[0], e, x + k);
    if k > 0 {
      ChainOnce(idx, e[0], e, x + 1, x + 1 + k);
      MetIs(idx, er, e, x, k - 1);
    }
  }

  lemma PassedIs(idx: Index, er: Errand, e: seq<nat>, x: nat, k: nat)
    requires er.Ok() && Row(idx, e) && x < |e| && er.place == PlaceCur(idx, e, x) && RightLinksValid(idx)
    ensures PassedOver(idx, er, k) <==>
              x + 1 + k < |e| && e[x + 1 + k] != er.Downlink() && GoesOver(idx, er, e, x + 1 + k)
  {
    hide Row, RightLinksValid, LinksFit, KeyFits, Excused, NeedsNone;
    MetIs(idx, er, e, x, k);
    if x + 1 + k < |e| {
      RowFits(idx, er, e, x, k);
      ExcusedIs(idx, e[x + k], e[x + 1 + k]);
    } else {
      NotFit(idx, er, k);
    }
  }

  lemma ArrivesIs(idx: Index, er: Errand, e: seq<nat>, x: nat, k: nat)
    requires er.Ok() && Row(idx, e) && x < |e| && er.place == PlaceCur(idx, e, x) && RightLinksValid(idx)
    ensures Arrives(idx, er, k) <==>
              if x + 1 + k < |e| then e[x + 1 + k] == er.Downlink() && ComesTo(idx, er, e, x + 1 + k)
              else er.Downlink() == P_NONE
  {
    hide Row, RightLinksValid, LinksFit, KeyFits;
    MetIs(idx, er, e, x, k);
    if x + 1 + k < |e| {
      RowFits(idx, er, e, x, k);
    } else {
      NotFit(idx, er, k);
    }
  }

  /** Where the walk from the child at x ends, if it arrives. */
  ghost predicate WalkTo(idx: Index, er: Errand, e: seq<nat>, x: int, y: int)
    requires er.Ok()
  {
    && x < y <= |e| && (x < 0 ==> y == 0 && e != [] && Leftmost(idx, e[0]))
    && (if y < |e| then e[y] == er.Downlink() && ComesTo(idx, er, e, y) else er.Downlink() == P_NONE)
    && forall z | x < z < y :: GoesOver(idx, er, e, z)
  }

  ghost function PlaceTo(idx: Index, e: seq<nat>, y: int): Place
    requires y <= |e|
  {
    if y == |e| then NOWHERE else PlaceCur(idx, e, y)
  }

  /** A walk from the child at x that arrives has gone along the level to some place y. */
  lemma WalkForward(idx: Index, er: Errand, e: seq<nat>, x: nat) returns (y: nat)
    requires er.Ok() && Row(idx, e) && x < |e| && er.place == PlaceCur(idx, e, x) && RightLinksValid(idx)
    requires ChildWalk(idx, er).Go?
    ensures WalkTo(idx, er, e, x, y) && ChildWalk(idx, er).place == PlaceTo(idx, e, y)
  {
    hide Row, RightLinksValid, PassedOver, Arrives, GoesOver, ComesTo;
    var k: nat :| ArrivesAfter(idx, er, k);
    ArrivesIs(idx, er, e, x, k);
    y := x + 1 + k;
    forall z | x < z < y ensures z < |e| && GoesOver(idx, er, e, z) {
      assert PassedOver(idx, er, z - x - 1);
      PassedIs(idx, er, e, x, z - x - 1);
    }
    if k > 0 { assert GoesOver(idx, er, e, y - 1); }
    if y < |e| { RowChain(idx, e); ChainMember(idx, e[0], e, y); }
  }

  /** And where the level is such that it may go to y, it arrives there. */
  lemma WalkBack(idx: Index, er: Errand, e: seq<nat>, x: nat, y: nat)
    requires er.Ok() && Row(idx, e) && x < |e| && er.place == PlaceCur(idx, e, x) && RightLinksValid(idx)
    requires WalkTo(idx, er, e, x, y)
    ensures ChildWalk(idx, er) == Go(PlaceTo(idx, e, y))
  {
    hide Row, RightLinksValid, PassedOver, Arrives, GoesOver, ComesTo;
    RowChain(idx, e);
    var k := y - x - 1;
    ArrivesIs(idx, er, e, x, k);
    forall i: nat | i < k ensures PassedOver(idx, er, i) {
      PassedIs(idx, er, e, x, i);
      assert GoesOver(idx, er, e, x + 1 + i);
      if y < |e| { ChainOnce(idx, e[0], e, x + 1 + i, y); } else { ChainMember(idx, e[0], e, x + 1 + i); }
    }
    assert ArrivesAfter(idx, er, k);
    WalkArrives(idx, er, k);
    if y < |e| { ChainMember(idx, e[0], e, y); }
  }

  /** The walk to the first child of a level. */
  lemma WalkFirst(idx: Index, er: Errand, e: seq<nat>)
    requires er.Ok() && Row(idx, e) && er.place == NOWHERE && er.Downlink() == e[0]
    ensures ChildWalk(idx, er).Go? <==> WalkTo(idx, er, e, -1, 0)
    ensures ChildWalk(idx, er).Go? ==> ChildWalk(idx, er).place == PlaceCur(idx, e, 0)
  {
    hide KeyFits, Excused, Leftmost, ReadPage;
    ChainMember(idx, e[0], e, 0);
    assert Met(idx, er, 0) == e[0];
    assert !PassedOver(idx, er, 0);
    if Arrives(idx, er, 0) { WalkArrives(idx, er, 0); } else { WalkStops(idx, er, 0); }
  }
}
