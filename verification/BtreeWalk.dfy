/** What the readonly check of a B-tree has established part of the way: the run of children met below a
    level, the pages of a level walked so far, and the levels descended (contrib/amcheck/verify_nbtree.c). */
module BtreeWalk {
  import opened Wrappers
  import opened BtreePages
  import opened BtreeOrder
  import opened BtreeShape
  import opened BtreeLeftmost

  /** Starting point for verifying a level. */
  datatype BtreeLevel = BtreeLevel(level: nat, leftmost: nat, isTrueRootLevel: bool)

  function LevelBelow(level: nat): nat {
    if level == 0 then 0xFFFF_FFFF else level - 1
  }

  // ---------------------------------------------------------------- children

  /** The child of the j-th item continues the child chain: it is the right neighbour of the child
      before it, or leftmost when there is none. */
  ghost predicate Continues(idx: Index, prevright: nat, blk: nat) {
    && blk in idx.pages
    && idx.pages[blk].prev != blk
    && if prevright == INVALID_BLOCK then idx.pages[blk].prev == P_NONE else prevright == blk
  }

  ghost predicate ContinuesLive(idx: Index, prevright: nat, blk: nat) {
    Continues(idx, prevright, blk) && !idx.pages[blk].deleted
  }

  /** What bt_child_highkey_check demands of the child of the j-th item, apart from the links. */
  ghost predicate HighKeyOk(idx: Index, p: Page, j: nat)
    requires j < DataCount(p)
  {
    var blk := DataItem(p, j).downlink;
    && ReadPage(idx, blk).Some?
    && var c := idx.pages[blk];
       && c.level + 1 == p.level
       && (!c.Rightmost() ==>
             && UpperKey(p, j).Some?
             && c.HasItem(P_HIKEY)
             && PivotIdentical(c.Item(P_HIKEY), UpperKey(p, j).value))
  }

  /** Children visited so far: live blocks, the first without a left neighbour, each naming the next
      as its right neighbour. */
  ghost predicate ChildRun(idx: Index, d: seq<nat>) {
    && (forall k | 0 <= k < |d| :: LiveChild(idx, d[k]))
    && (d != [] ==> idx.pages[d[0]].prev == P_NONE)
    && RightRun(idx, d)
  }

  ghost predicate LiveChild(idx: Index, blk: nat) {
    blk in idx.pages && blk != P_NONE && !idx.pages[blk].deleted && idx.pages[blk].prev != blk
  }

  /** What prevrightlink holds after a run of children. */
  ghost function RunEnd(idx: Index, d: seq<nat>): nat
    requires ChildRun(idx, d)
  {
    if d == [] then INVALID_BLOCK else idx.pages[d[|d| - 1]].next
  }

  lemma ContinuesIff(idx: Index, d: seq<nat>, blk: nat)
    requires ChildRun(idx, d) && blk != P_NONE && blk in idx.pages && !idx.pages[blk].deleted
    requires d != [] ==> RunEnd(idx, d) != INVALID_BLOCK
    ensures Continues(idx, RunEnd(idx, d), blk) <==> ChildRun(idx, d + [blk])
  {
    var e := d + [blk];
    assert forall k | 0 <= k < |d| :: e[k] == d[k];
    assert e[|d|] == blk;
    if d != [] {
      var last := d[|d| - 1];
      assert LiveChild(idx, last);
      if ChildRun(idx, e) { assert idx.pages[e[|d| - 1]].next == e[|d|]; }
    }
  }

  lemma NotReadNotRun(idx: Index, d: seq<nat>, blk: nat)
    ensures ChildRun(idx, d + [blk]) ==> LiveChild(idx, blk)
  {
    var e := d + [blk];
    assert e[|d|] == blk;
  }

  lemma ChildRunPrefix(idx: Index, d: seq<nat>, n: nat)
    requires ChildRun(idx, d) && n <= |d|
    ensures ChildRun(idx, d[..n])
  {
    var e := d[..n];
    assert forall k | 0 <= k < n :: e[k] == d[k];
  }

  /** Where the first child is alive, so is what follows the last. */
  lemma AliveRun(idx: Index, d: seq<nat>)
    requires ChildRun(idx, d) && d != [] && Alive(idx, d[0])
    ensures var e := RunEnd(idx, d);
            e != INVALID_BLOCK && Alive(idx, e) && (e == P_NONE || NotDeleted(idx, e))
  {
    forall i | 0 <= i < |d| ensures d[i] in idx.pages && d[i] != P_NONE { assert LiveChild(idx, d[i]); }
    var n := |d| - 1;
    RunAlive(idx, d, n);
    AliveAfter(idx, d[0], n);
    AliveNext(idx, d[n]);
    AliveNext(idx, RightOf(idx, d[n]));
  }

  /** A run of children that ends is alive. */
  lemma RunEnds(idx: Index, d: seq<nat>)
    requires ChildRun(idx, d) && d != [] && RunEnd(idx, d) == P_NONE && INVALID_BLOCK !in idx.pages
    ensures Alive(idx, d[0])
  {
    forall i | 0 <= i < |d| ensures d[i] in idx.pages && d[i] != P_NONE { assert LiveChild(idx, d[i]); }
    forall n: nat ensures LiveAt(idx, RightAt(idx, d[0], n)) {
      RunAlive(idx, d, n);
      if n < |d| { assert LiveChild(idx, d[n]); }
      if n + 1 < |d| { assert LiveChild(idx, d[n + 1]) && idx.pages[d[n]].next == d[n + 1]; }
    }
  }

  // ---------------------------------------------------------------- one page

  /** A zero downlink is passed over where a level begins, before any child has been met. */
  ghost function Skip(p: Page, before: seq<nat>): nat {
    if before == [] && !p.leaf && DataCount(p) > 0 && DataItem(p, 0).downlink == P_NONE then 1 else 0
  }

  /** The children met once the page is done. */
  ghost function RunAfter(p: Page, before: seq<nat>): seq<nat> { before + PageDownlinks(p)[Skip(p, before)..] }

  /** The children met once the first n items of the page are done. */
  ghost function RunSoFar(p: Page, before: seq<nat>, n: nat): seq<nat>
    requires n <= DataCount(p)
  {
    if n <= Skip(p, before) then before else before + PageDownlinks(p)[Skip(p, before)..n]
  }

  lemma RunStarts(p: Page, before: seq<nat>)
    ensures RunSoFar(p, before, 0) == before
  {
  }

  lemma RunStep(idx: Index, p: Page, before: seq<nat>, n: nat)
    requires n < DataCount(p)
    ensures RunSoFar(p, before, n + 1) ==
              if n < Skip(p, before) then RunSoFar(p, before, n)
              else RunSoFar(p, before, n) + [DataItem(p, n).downlink]
    ensures ChildRun(idx, RunAfter(p, before)) ==> ChildRun(idx, RunSoFar(p, before, n + 1))
  {
    var d := RunAfter(p, before);
    var m := |before| + (if n < Skip(p, before) then 0 else n + 1 - Skip(p, before));
    assert RunSoFar(p, before, n + 1) == d[..m];
    if ChildRun(idx, d) { ChildRunPrefix(idx, d, m); }
  }

  lemma RunComplete(p: Page, before: seq<nat>)
    ensures RunSoFar(p, before, DataCount(p)) == RunAfter(p, before)
  {
  }

  /** A run whose first child is alive does not end at the invalid block number. */
  lemma RunLinked(idx: Index, p: Page, before: seq<nat>, n: nat)
    requires n <= DataCount(p) && ChildRun(idx, RunSoFar(p, before, n))
    requires RunAfter(p, before) != [] ==> Alive(idx, RunAfter(p, before)[0])
    ensures RunSoFar(p, before, n) != [] ==> RunEnd(idx, RunSoFar(p, before, n)) != INVALID_BLOCK
  {
    hide ChildRun, Alive;
    var run := RunSoFar(p, before, n);
    if run != [] {
      assert run[0] == RunAfter(p, before)[0];
      AliveRun(idx, run);
    }
  }

  /** The page and its children are as they should be, and its downlinks carry on the run of
      children that the pages to the left left off at. */
  ghost predicate TargetClean(idx: Index, p: Page, before: seq<nat>) {
    && InPage(idx.nkeyatts, p)
    && CrossPage(idx, p)
    && (!p.leaf ==>
          && (forall j | Skip(p, before) <= j < DataCount(p) :: ChildOk(idx, p, j))
          && RunCarriesOn(idx, p, before))
  }

  ghost predicate RunCarriesOn(idx: Index, p: Page, before: seq<nat>) {
    var d := RunAfter(p, before);
    && ChildRun(idx, d)
    && (p.Rightmost() && d != [] ==> RunEnd(idx, d) == P_NONE)
  }

  /** What the n-th item contributes. */
  ghost predicate ItemGood(idx: Index, p: Page, before: seq<nat>, n: nat)
    requires n < DataCount(p)
  {
    var off := p.FirstDataKey() + n;
    && ItemOk(idx.nkeyatts, p, off)
    && (off == p.MaxOffset() && !p.NegativeInfinity(off) ==> CrossPage(idx, p))
    && (!p.leaf && n >= Skip(p, before) ==> ChildOk(idx, p, n) && RunOkAfter(idx, p, before, n))
  }

  ghost predicate RunOkAfter(idx: Index, p: Page, before: seq<nat>, n: nat)
    requires n < DataCount(p)
  {
    ChildRun(idx, RunSoFar(p, before, n + 1))
  }

  lemma ItemGoodLeaf(idx: Index, p: Page, a: seq<nat>, b: seq<nat>, n: nat)
    requires p.leaf && n < DataCount(p)
    ensures ItemGood(idx, p, a, n) <==> ItemGood(idx, p, b, n)
  {
    hide ItemOk, CrossPage;
  }

  /** All items together make a clean page. */
  lemma ItemsGood(idx: Index, p: Page, before: seq<nat>)
    requires !p.Rightmost() ==> p.HasItem(P_HIKEY) && AttsOk(idx.nkeyatts, p, P_HIKEY)
    requires !p.leaf ==> ChildRun(idx, before)
    ensures (forall n | 0 <= n < DataCount(p) :: ItemGood(idx, p, before, n)) <==>
              && InPage(idx.nkeyatts, p) && CrossPage(idx, p)
              && (!p.leaf ==> (forall j | Skip(p, before) <= j < DataCount(p) :: ChildOk(idx, p, j))
                              && ChildRun(idx, RunAfter(p, before)))
  {
    hide ItemOk, CrossPage, ChildOk, ChildRun, RunSoFar, RunAfter, Skip, AttsOk;
    if forall n | 0 <= n < DataCount(p) :: ItemGood(idx, p, before, n) {
      forall off | p.FirstDataKey() <= off <= p.MaxOffset() ensures ItemOk(idx.nkeyatts, p, off) {
        assert ItemGood(idx, p, before, off - p.FirstDataKey());
      }
      if LastItemReal(p) { assert ItemGood(idx, p, before, DataCount(p) - 1); } else { CrossPageTrivial(idx, p); }
      forall j | Skip(p, before) <= j < DataCount(p) && !p.leaf
        ensures ChildOk(idx, p, j) && RunOkAfter(idx, p, before, j)
      {
        assert ItemGood(idx, p, before, j);
      }
      if !p.leaf { LastRun(idx, p, before); }
    }
    if !p.leaf && ChildRun(idx, RunAfter(p, before)) {
      forall n | 0 <= n < DataCount(p) ensures RunOkAfter(idx, p, before, n) { RunStep(idx, p, before, n); }
    }
  }

  lemma LastRun(idx: Index, p: Page, before: seq<nat>)
    requires ChildRun(idx, before)
    requires forall n | Skip(p, before) <= n < DataCount(p) :: RunOkAfter(idx, p, before, n)
    ensures ChildRun(idx, RunAfter(p, before))
  {
    hide ChildRun;
    RunComplete(p, before);
    if DataCount(p) > Skip(p, before) {
      assert RunOkAfter(idx, p, before, DataCount(p) - 1);
    }
  }

  lemma NothingSkipped(idx: Index, p: Page, before: seq<nat>)
    requires NonZero(p)
    ensures Skip(p, before) == 0 && RunAfter(p, before) == before + PageDownlinks(p)
    ensures TargetClean(idx, p, before) ==> InPage(idx.nkeyatts, p) && CrossPage(idx, p) && ChildrenOk(idx, p)
  {
    assert PageDownlinks(p)[0..] == PageDownlinks(p);
  }

  lemma ReadLive(idx: Index, blk: nat)
    requires ReadPage(idx, blk).Some?
    ensures blk in idx.pages && ReadPage(idx, blk).value == idx.pages[blk]
  {
  }

  lemma PlainLinked(idx: Index, blk: nat)
    requires Plain(idx) && blk != BTREE_METAPAGE && ReadPage(idx, blk).Some? && NotDeleted(idx, blk)
    ensures var p := idx.pages[blk];
            !p.Ignore() && !p.incompleteSplit && (p.root ==> p.level >= idx.rootLevel)
    ensures (exists path :: LeftPath(idx, blk, path) && LeftOf(idx, path) == P_NONE) <==>
              idx.pages[blk].prev == P_NONE
  {
    assert PlainPage(idx, idx.pages[blk]);
    LeftmostPlain(idx, blk);
  }

  lemma PlainLive(idx: Index, blk: nat)
    requires Plain(idx) && blk != BTREE_METAPAGE && ReadPage(idx, blk).Some? && !idx.pages[blk].deleted
    ensures !idx.pages[blk].Ignore()
  {
  }

  lemma CrossPageTrivial(idx: Index, p: Page)
    requires !LastItemReal(p)
    ensures CrossPage(idx, p)
  {
  }

  // ---------------------------------------------------------------- the walk along a level

  ghost function Kids(idx: Index, level: nat, vs: seq<nat>): seq<nat>
    requires forall i | 0 <= i < |vs| :: vs[i] in idx.pages
  {
    if level == 0 then [] else Downlinks(idx, vs)
  }

  ghost predicate InFile(idx: Index, vs: seq<nat>) {
    forall i | 0 <= i < |vs| :: vs[i] in idx.pages && vs[i] != P_NONE
  }

  ghost predicate PagesClean(idx: Index, level: nat, vs: seq<nat>)
    requires InFile(idx, vs)
  {
    forall i | 0 <= i < |vs| :: PageClean(idx, vs[i]) && idx.pages[vs[i]].level == level
  }

  /** The pages of a level visited so far, and the children below them. */
  ghost predicate Walk(idx: Index, level: nat, vs: seq<nat>) {
    && InFile(idx, vs) && PagesClean(idx, level, vs)
    && LeftRun(idx, vs) && RightRun(idx, vs)
    && ChildRun(idx, Kids(idx, level, vs))
  }

  ghost function FirstNext(p: Page): BtreeLevel {
    if p.leaf || DataCount(p) == 0 then BtreeLevel(0xFFFF_FFFF, P_NONE, false)
    else BtreeLevel(LevelBelow(p.level), DataItem(p, 0).downlink, false)
  }

  lemma FirstNextBelow(idx: Index, blk: nat)
    requires ReadPage(idx, blk).Some? && blk != BTREE_METAPAGE && !idx.pages[blk].Ignore()
    ensures FirstNext(idx.pages[blk]).leftmost == P_NONE || FirstNext(idx.pages[blk]).level < idx.pages[blk].level
    ensures FirstNext(idx.pages[blk]).leftmost == FirstChild(idx, blk)
    ensures idx.pages[blk].MaxOffset() > 0 || idx.pages[blk].Rightmost()
  {
  }

  ghost predicate NextOk(idx: Index, level: BtreeLevel, vs: seq<nat>, next: BtreeLevel)
    requires InFile(idx, vs)
  {
    if vs == [] then next.leftmost == INVALID_BLOCK
    else
      && next == FirstNext(idx.pages[vs[0]])
      && (level.isTrueRootLevel ==> idx.pages[vs[0]].root)
  }

  /** How far the walk has come, whatever it found. */
  ghost predicate Trail(idx: Index, leftmost: nat, vs: seq<nat>, current: nat) {
    && InFile(idx, vs) && RightRun(idx, vs)
    && (forall i | 0 <= i < |vs| :: !idx.pages[vs[i]].deleted)
    && if vs == [] then current == leftmost
       else vs[0] == leftmost && current == idx.pages[vs[|vs| - 1]].next
  }

  lemma TrailStep(idx: Index, leftmost: nat, vs: seq<nat>, current: nat)
    requires Trail(idx, leftmost, vs, current)
    requires current in idx.pages && current != P_NONE && !idx.pages[current].deleted
    ensures Trail(idx, leftmost, vs + [current], idx.pages[current].next)
    ensures RightAt(idx, leftmost, |vs|) == current
  {
    var ws := vs + [current];
    assert InFile(idx, ws);
    assert RightRun(idx, ws);
    RunAlive(idx, ws, |vs|);
  }

  /** A walk that comes to an end has met live pages only. */
  lemma TrailAlive(idx: Index, leftmost: nat, vs: seq<nat>)
    requires Trail(idx, leftmost, vs, P_NONE) && vs != [] && INVALID_BLOCK !in idx.pages
    ensures Alive(idx, leftmost)
  {
    forall n: nat ensures LiveAt(idx, RightAt(idx, leftmost, n)) {
      RunAlive(idx, vs, n);
      if n + 1 < |vs| { assert idx.pages[vs[n]].next == vs[n + 1]; }
    }
  }

  ghost predicate LevelInv(idx: Index, level: BtreeLevel, vs: seq<nat>, leftcurrent: nat, current: nat,
                           next: BtreeLevel, prevright: nat)
  {
    && Walk(idx, level.level, vs)
    && NextOk(idx, level, vs, next)
    && prevright == RunEnd(idx, Kids(idx, level.level, vs))
    && if vs == [] then leftcurrent == P_NONE && current == level.leftmost
       else vs[0] == level.leftmost && leftcurrent == vs[|vs| - 1] && current == idx.pages[vs[|vs| - 1]].next
  }

  ghost predicate LevelResult(idx: Index, level: BtreeLevel, vs: seq<nat>, next: BtreeLevel) {
    && LevelClean(idx, level.level, vs) && vs[0] == level.leftmost
    && (level.isTrueRootLevel ==> idx.pages[vs[0]].root)
    && (level.level == 0 ==> next.leftmost == P_NONE)
    && (level.level > 0 ==> next.level == level.level - 1 && !next.isTrueRootLevel &&
                            FullRun(idx, Downlinks(idx, vs), next.leftmost))
  }

  ghost predicate FullRun(idx: Index, d: seq<nat>, first: nat) {
    ChildRun(idx, d) && d != [] && d[0] == first && RunEnd(idx, d) == P_NONE
  }

  /** A clean level with a clean level below it. */
  ghost predicate LevelGoal(idx: Index, level: BtreeLevel, goal: seq<nat>) {
    && LevelClean(idx, level.level, goal) && goal[0] == level.leftmost
    && (level.isTrueRootLevel ==> idx.pages[goal[0]].root)
    && (level.level > 0 ==> LevelClean(idx, level.level - 1, Downlinks(idx, goal)))
  }

  ghost predicate OnGoal(goal: seq<nat>, vs: seq<nat>, current: nat) {
    |vs| < |goal| && vs == goal[..|vs|] && current == goal[|vs|]
  }

  /** What the walk of a level can rely on: its own right links and those of the level below meet no deleted
      page, and its own pages no zero downlink. */
  ghost predicate Fair(idx: Index, s: nat) { Plain(idx) && Clear(idx, s) && Alive(idx, FirstChild(idx, s)) }

  lemma InvStart(idx: Index, level: BtreeLevel, next: BtreeLevel, goal: seq<nat>)
    requires next.leftmost == INVALID_BLOCK
    ensures LevelInv(idx, level, [], P_NONE, level.leftmost, next, INVALID_BLOCK)
    ensures LevelGoal(idx, level, goal) ==> OnGoal(goal, [], level.leftmost)
  {
  }

  lemma InvFacts(idx: Index, level: BtreeLevel, vs: seq<nat>, leftcurrent: nat, current: nat,
                 next: BtreeLevel, prevright: nat)
    requires LevelInv(idx, level, vs, leftcurrent, current, next, prevright)
    ensures InFile(idx, vs) && |vs| <= |idx.pages|
    ensures leftcurrent == if vs == [] then P_NONE else vs[|vs| - 1]
    ensures vs != [] ==> leftcurrent != P_NONE
    ensures ChildRun(idx, Kids(idx, level.level, vs)) && prevright == RunEnd(idx, Kids(idx, level.level, vs))
  {
    hide PagesClean, ChildRun, RightRun, NextOk, Kids;
    forall i, j | 0 <= i < j < |vs| ensures vs[i] != vs[j] { ChainDistinct(idx, vs, i, j); }
    DistinctFit(vs, idx.pages);
  }

  lemma InvFirst(idx: Index, level: BtreeLevel, vs: seq<nat>, leftcurrent: nat, current: nat,
                 next: BtreeLevel, prevright: nat)
    requires LevelInv(idx, level, vs, leftcurrent, current, next, prevright) && INVALID_BLOCK !in idx.pages
    ensures next.leftmost == INVALID_BLOCK <==> vs == []
  {
    hide PageClean, ChildRun, RightRun, LeftRun;
    if vs != [] {
      assert PageClean(idx, vs[0]);
      PageCleanBlock(idx, vs[0]);
    }
  }

  /** The state in which the next page of a fair level is checked. */
  lemma InvCalm(idx: Index, level: BtreeLevel, vs: seq<nat>, leftcurrent: nat, current: nat,
                next: BtreeLevel, prevright: nat, p: Page)
    requires Fair(idx, level.leftmost) && LevelInv(idx, level, vs, leftcurrent, current, next, prevright)
    requires RightAt(idx, level.leftmost, |vs|) == current != P_NONE
    requires current in idx.pages && p == idx.pages[current] && (p.leaf <==> level.level == 0)
    ensures NonZero(p) && (p.next == P_NONE || NotDeleted(idx, p.next))
    ensures var d := RunAfter(p, Kids(idx, level.level, vs));
            !p.leaf && d != [] ==> Alive(idx, d[0])
    ensures Kids(idx, level.level, vs) != [] ==> prevright != INVALID_BLOCK
  {
    hide PageClean, ChildRun, RightRun, LeftRun, Downlinks;
    var s, n := level.leftmost, |vs|;
    assert NonZeroAt(idx, RightAt(idx, s, n));
    AliveAfter(idx, s, n);
    AliveNext(idx, current);
    AliveNext(idx, p.next);
    var k := Kids(idx, level.level, vs);
    NothingSkipped(idx, p, k);
    if vs == [] {
      NoDownlinks(idx);
    } else {
      assert PageClean(idx, vs[0]);
      PageCleanBlock(idx, vs[0]);
      if level.level > 0 {
        FirstDownlink(idx, vs);
        AliveRun(idx, k);
      }
    }
  }

  lemma NoDownlinks(idx: Index)
    ensures Downlinks(idx, []) == []
  {
  }

  /** One page further: the links. */
  lemma RunsOn(idx: Index, vs: seq<nat>, current: nat)
    requires InFile(idx, vs) && LeftRun(idx, vs) && RightRun(idx, vs) && current in idx.pages && current != P_NONE
    requires if vs == [] then idx.pages[current].prev == P_NONE
             else idx.pages[current].prev == vs[|vs| - 1] && idx.pages[vs[|vs| - 1]].next == current
    ensures InFile(idx, vs + [current]) && LeftRun(idx, vs + [current]) && RightRun(idx, vs + [current])
  {
  }

  /** One page further: the children. */
  lemma KidsOn(idx: Index, level: nat, vs: seq<nat>, current: nat)
    requires InFile(idx, vs) && current in idx.pages && current != P_NONE
    ensures InFile(idx, vs + [current])
    ensures Kids(idx, level, vs + [current]) ==
              if level == 0 then [] else Kids(idx, level, vs) + PageDownlinks(idx.pages[current])
  {
    hide PageDownlinks;
    assert (vs + [current])[..|vs|] == vs;
  }

  lemma PagesOn(idx: Index, level: nat, vs: seq<nat>, current: nat)
    requires InFile(idx, vs) && PagesClean(idx, level, vs) && InFile(idx, vs + [current])
    requires PageClean(idx, current) && idx.pages[current].level == level
    ensures PagesClean(idx, level, vs + [current])
  {
    hide PageClean;
  }

  lemma WalkStep(idx: Index, level: nat, vs: seq<nat>, current: nat)
    requires Walk(idx, level, vs) && PageClean(idx, current) && idx.pages[current].level == level
    requires if vs == [] then idx.pages[current].prev == P_NONE
             else idx.pages[current].prev == vs[|vs| - 1] && idx.pages[vs[|vs| - 1]].next == current
    requires level > 0 ==> ChildRun(idx, Kids(idx, level, vs) + PageDownlinks(idx.pages[current]))
    ensures Walk(idx, level, vs + [current])
    ensures level > 0 ==>
              Kids(idx, level, vs + [current]) == Kids(idx, level, vs) + PageDownlinks(idx.pages[current])
  {
    hide PageClean, PagesClean, ChildRun, LeftRun, RightRun, Downlinks, PageDownlinks, Kids, InFile;
    PageCleanBlock(idx, current);
    RunsOn(idx, vs, current);
    KidsOn(idx, level, vs, current);
    PagesOn(idx, level, vs, current);
    if level == 0 { NoKids(idx, vs); }
  }

  lemma NoKids(idx: Index, vs: seq<nat>)
    requires InFile(idx, vs)
    ensures Kids(idx, 0, vs) == []
  {
  }

  lemma PageCleanBlock(idx: Index, blk: nat)
    ensures PageClean(idx, blk) ==> blk in idx.pages && blk != P_NONE && !idx.pages[blk].Ignore()
    ensures PageClean(idx, blk) ==> (idx.pages[blk].leaf <==> idx.pages[blk].level == 0)
    ensures PageClean(idx, blk) && !idx.pages[blk].leaf ==>
              DataCount(idx.pages[blk]) > 0 && DataItem(idx.pages[blk], 0).downlink in idx.pages
  {
    if PageClean(idx, blk) && !idx.pages[blk].leaf { assert ChildOk(idx, idx.pages[blk], 0); }
  }

  /** One page further along a level, or its end. */
  lemma InvStep(idx: Index, level: BtreeLevel, vs: seq<nat>, leftcurrent: nat, current: nat,
                next0: BtreeLevel, prevright: nat, p: Page, next: BtreeLevel)
    requires LevelInv(idx, level, vs, leftcurrent, current, next0, prevright)
    requires ReadPage(idx, current) == Some(p) && current != P_NONE && !p.Ignore() && p.level == level.level
    requires if vs == [] then p.prev == P_NONE && (level.isTrueRootLevel ==> p.root) && next == FirstNext(p)
             else p.prev == leftcurrent && next == next0
    requires NonZero(p) && TargetClean(idx, p, Kids(idx, level.level, vs))
    ensures !p.Rightmost() ==>
              LevelInv(idx, level, vs + [current], current, p.next, next,
                       if p.leaf then prevright else RunEnd(idx, RunAfter(p, Kids(idx, level.level, vs))))
    ensures p.Rightmost() ==> LevelResult(idx, level, vs + [current], next)
  {
    hide InPage, CrossPage, ChildrenOk, ChildRun, Downlinks, RightRun, LeftRun, Skip;
    NothingSkipped(idx, p, Kids(idx, level.level, vs));
    assert PageClean(idx, current);
    assert p.leaf <==> level.level == 0;
    hide PageClean, PageSane;
    WalkStep(idx, level.level, vs, current);
    var ws := vs + [current];
    PageCleanBlock(idx, ws[0]);
    if p.Rightmost() {
      WalkIsChain(idx, level.level, ws);
      if level.level > 0 { FirstDownlink(idx, ws); }
    }
  }

  lemma WalkIsChain(idx: Index, level: nat, vs: seq<nat>)
    requires Walk(idx, level, vs) && vs != [] && idx.pages[vs[|vs| - 1]].next == P_NONE
    ensures LevelClean(idx, level, vs)
  {
    hide PageClean;
  }

  lemma FirstDownlink(idx: Index, c: seq<nat>)
    requires c != [] && forall i | 0 <= i < |c| :: c[i] in idx.pages
    requires DataCount(idx.pages[c[0]]) > 0
    ensures Downlinks(idx, c) != [] && Downlinks(idx, c)[0] == DataItem(idx.pages[c[0]], 0).downlink
  {
    assert c[..0] == [];
    DownlinkAt(idx, c, 0, 0);
  }

  // ---------------------------------------------------------------- a level that begins with a zero downlink

  /** A level of one internal page whose first downlink is zero and whose other downlinks are in order. */
  ghost predicate Headless(idx: Index, level: BtreeLevel) {
    && level.leftmost != P_NONE && ReadPage(idx, level.leftmost).Some?
    && var p := idx.pages[level.leftmost];
       && !p.Ignore() && !p.leaf && p.level == level.level && p.prev == P_NONE && p.next == P_NONE
       && (level.isTrueRootLevel ==> p.root)
       && DataCount(p) > 0 && DataItem(p, 0).downlink == P_NONE && TargetClean(idx, p, [])
  }

  lemma HeadlessCalm(idx: Index, level: BtreeLevel)
    requires Plain(idx) && Headless(idx, level)
    ensures var p := idx.pages[level.leftmost];
            && (forall j | Skip(p, []) <= j < DataCount(p) :: DataItem(p, j).downlink != P_NONE)
            && (RunAfter(p, []) != [] ==> Alive(idx, RunAfter(p, [])[0]))
  {
    hide ChildRun, Alive, RunEnd;
    var p := idx.pages[level.leftmost];
    var d := RunAfter(p, []);
    if d != [] { RunEnds(idx, d); }
    forall j | Skip(p, []) <= j < DataCount(p) ensures DataItem(p, j).downlink != P_NONE {
      assert d[j - Skip(p, [])] == DataItem(p, j).downlink;
      RunMember(idx, d, j - Skip(p, []));
    }
  }

  lemma RunMember(idx: Index, d: seq<nat>, k: nat)
    requires ChildRun(idx, d) && k < |d|
    ensures d[k] in idx.pages && d[k] != P_NONE
  {
    assert LiveChild(idx, d[k]);
  }
}
