/** The readonly check of a B-tree, level by level: what a clean tree gives each level to pass, and how levels
    that passed make up a clean tree. */
module BtreeDescent {
  import opened Wrappers
  import opened BtreePages
  import opened BtreeShape
  import opened BtreeWalk

  // ---------------------------------------------------------------- levels of a clean tree

  /** Every page of a clean level, met in turn, passes its checks. */
  lemma GoalFacts(idx: Index, level: BtreeLevel, goal: seq<nat>, vs: seq<nat>, current: nat)
    requires LevelGoal(idx, level, goal) && OnGoal(goal, vs, current) && InFile(idx, vs)
    ensures ReadPage(idx, current).Some? && current != P_NONE
    ensures var p := idx.pages[current];
            && !p.Ignore() && p.level == level.level && p.prev != current
            && p.prev == (if vs == [] then P_NONE else vs[|vs| - 1])
            && (vs == [] && level.isTrueRootLevel ==> p.root)
            && TargetClean(idx, p, Kids(idx, level.level, vs))
            && (!p.leaf ==> p.HasItem(p.FirstDataKey()))
            && (!p.Rightmost() ==> p.HasItem(P_HIKEY) && OnGoal(goal, vs + [current], p.next))
  {
    var n := |vs|;
    var p := idx.pages[current];
    GoalPage(idx, level, goal, n);
    GoalLinks(idx, level.level, goal, n);
    if n + 1 < |goal| { assert goal[..n + 1] == vs + [current]; }
  }

  lemma GoalLinks(idx: Index, level: nat, goal: seq<nat>, n: nat)
    requires LevelClean(idx, level, goal) && n < |goal|
    ensures var p := idx.pages[goal[n]];
            && p.prev != goal[n] && p.prev == (if n == 0 then P_NONE else goal[n - 1])
            && (n + 1 < |goal| <==> !p.Rightmost()) && (!p.Rightmost() ==> p.next == goal[n + 1])
  {
    hide PageClean;
    if n > 0 {
      assert idx.pages[goal[n - 1 + 1]].prev == goal[n - 1];
      ChainDistinct(idx, goal, n - 1, n);
    }
    if n + 1 < |goal| { assert idx.pages[goal[n]].next == goal[n + 1]; }
  }

  lemma GoalPage(idx: Index, level: BtreeLevel, goal: seq<nat>, n: nat)
    requires LevelGoal(idx, level, goal) && n < |goal|
    ensures ReadPage(idx, goal[n]).Some?
    ensures var p := idx.pages[goal[n]];
            && TargetClean(idx, p, Kids(idx, level.level, goal[..n]))
            && !p.Ignore() && p.level == level.level
            && (!p.leaf ==> p.HasItem(p.FirstDataKey())) && (!p.Rightmost() ==> p.HasItem(P_HIKEY))
  {
    assert PageClean(idx, goal[n]);
    hide RunCarriesOn, Skip;
    var p := idx.pages[goal[n]];
    if level.level > 0 {
      GoalNonZero(idx, level.level, goal, n);
      NothingSkipped(idx, p, Kids(idx, level.level, goal[..n]));
      GoalRun(idx, level.level, goal, n);
    }
  }

  lemma GoalNonZero(idx: Index, level: nat, goal: seq<nat>, n: nat)
    requires LevelClean(idx, level, goal) && level > 0 && LevelClean(idx, level - 1, Downlinks(idx, goal))
    requires n < |goal|
    ensures NonZero(idx.pages[goal[n]])
  {
    hide PageClean, RightRun, LeftRun, Downlinks;
    var p := idx.pages[goal[n]];
    forall j | 0 <= j < DataCount(p) ensures DataItem(p, j).downlink != P_NONE { DownlinkAt(idx, goal, n, j); }
  }

  lemma GoalRun(idx: Index, level: nat, goal: seq<nat>, n: nat)
    requires LevelClean(idx, level, goal) && level > 0 && LevelClean(idx, level - 1, Downlinks(idx, goal))
    requires n < |goal|
    ensures RunCarriesOn(idx, idx.pages[goal[n]], Kids(idx, level, goal[..n]))
  {
    hide PageClean, RunEnd, Downlinks, Skip;
    var d := Downlinks(idx, goal);
    CleanRun(idx, level - 1, d);
    var p := idx.pages[goal[n]];
    PageCleanBlock(idx, goal[n]);
    GoalNonZero(idx, level, goal, n);
    NothingSkipped(idx, p, Kids(idx, level, goal[..n]));
    var m := |Downlinks(idx, goal[..n])| + DataCount(p);
    DownlinksPrefix(idx, goal, n);
    ChildRunPrefix(idx, d, m);
    GoalLinks(idx, level, goal, n);
    if p.Rightmost() { assert goal[..n + 1] == goal; }
  }

  lemma DownlinksPrefix(idx: Index, c: seq<nat>, n: nat)
    requires forall i | 0 <= i < |c| :: c[i] in idx.pages
    requires n < |c| && DataCount(idx.pages[c[n]]) > 0
    ensures var e := Downlinks(idx, c[..n]) + PageDownlinks(idx.pages[c[n]]);
            |e| <= |Downlinks(idx, c)| && e == Downlinks(idx, c)[..|e|] && e == Downlinks(idx, c[..n + 1])
  {
    assert c[..n + 1][..n] == c[..n];
    PrefixOfDownlinks(idx, c, n + 1);
  }

  lemma {:induction false} PrefixOfDownlinks(idx: Index, c: seq<nat>, n: nat)
    requires forall i | 0 <= i < |c| :: c[i] in idx.pages
    requires n <= |c|
    ensures Downlinks(idx, c[..n]) <= Downlinks(idx, c)
  {
    if n < |c| {
      PrefixOfDownlinks(idx, c[..|c| - 1], n);
      assert c[..|c| - 1][..n] == c[..n];
    } else {
      assert c[..n] == c;
    }
  }

  lemma CleanRun(idx: Index, level: nat, d: seq<nat>)
    requires LevelClean(idx, level, d)
    ensures ChildRun(idx, d) && RunEnd(idx, d) == P_NONE
  {
    hide PageClean;
    forall k | 0 <= k < |d| ensures LiveChild(idx, d[k]) {
      PageCleanBlock(idx, d[k]);
      GoalLinks(idx, level, d, k);
    }
  }

  // ---------------------------------------------------------------- levels descended

  /** The levels checked so far, lowest first, and what is known of the one to check next. */
  ghost predicate Descended(idx: Index, above: seq<seq<nat>>, next: BtreeLevel) {
    && |above| <= idx.rootLevel + 1
    && (forall k | 0 <= k < |above| :: LevelClean(idx, idx.rootLevel + 1 - |above| + k, above[k]))
    && (forall k | 0 <= k < |above| - 1 :: above[k] == Downlinks(idx, above[k + 1]))
    && if above == [] then next == BtreeLevel(idx.rootLevel, idx.root, true)
       else
         && above[|above| - 1][0] == idx.root && idx.pages[idx.root].root
         && if |above| == idx.rootLevel + 1 then next.leftmost == P_NONE
            else
              && next.level == idx.rootLevel - |above| && !next.isTrueRootLevel
              && next.leftmost != P_NONE
              && FullRun(idx, Downlinks(idx, above[0]), next.leftmost)
  }

  /** The level to check next starts where the level of a clean tree does. */
  lemma TowerGoal(idx: Index, goal: seq<seq<nat>>, above: seq<seq<nat>>, current: BtreeLevel)
    requires Tower(idx, goal) && Descended(idx, above, current) && current.leftmost != P_NONE
    requires |above| <= |goal| && above == goal[|goal| - |above|..]
    ensures current.level + |above| + 1 == |goal|
    ensures LevelGoal(idx, current, goal[current.level])
  {
    hide LevelClean, Downlinks, ChildRun, RunEnd;
    var l := idx.rootLevel - |above|;
    assert LevelClean(idx, l, goal[l]);
    if l > 0 {
      assert LevelClean(idx, l - 1, goal[l - 1]);
      LevelBlocks(idx, l, goal[l]);
    }
    if above != [] { assert above[0] == goal[l + 1]; }
    LevelBlocks(idx, l, goal[l]);
  }

  lemma GoalSuffix(goal: seq<seq<nat>>, above: seq<seq<nat>>, l: nat)
    requires l + |above| + 1 == |goal| && above == goal[|goal| - |above|..]
    ensures [goal[l]] + above == goal[l..]
  {
  }

  lemma DescentStart(idx: Index)
    ensures Descended(idx, [], BtreeLevel(idx.rootLevel, idx.root, true))
  {
  }

  lemma LevelBlocks(idx: Index, level: nat, c: seq<nat>)
    requires LevelClean(idx, level, c)
    ensures c != [] && forall i | 0 <= i < |c| :: c[i] in idx.pages
  {
  }

  lemma SameLevel(idx: Index, level: BtreeLevel, vs: seq<nat>, next: BtreeLevel, goal: seq<nat>)
    requires LevelResult(idx, level, vs, next) && LevelGoal(idx, level, goal)
    ensures vs == goal
  {
    hide PageClean, LeftRun;
    ChainUnique(idx, vs, goal);
  }

  /** A level that starts where the downlinks above it do is those downlinks. */
  lemma DownlinksAreLevel(idx: Index, level: nat, vs: seq<nat>, d: seq<nat>)
    requires LevelClean(idx, level, vs) && FullRun(idx, d, vs[0])
    ensures vs == d
  {
    hide PageClean, LeftRun;
    forall k | 0 <= k < |d| ensures d[k] in idx.pages && d[k] != P_NONE { assert LiveChild(idx, d[k]); }
    ChainUnique(idx, vs, d);
  }

  lemma RunInFile(idx: Index, d: seq<nat>, first: nat)
    requires FullRun(idx, d, first)
    ensures first in idx.pages && first != P_NONE
  {
    assert LiveChild(idx, d[0]);
  }

  /** A level that passed joins the ones above it. */
  lemma DescendOne(idx: Index, above: seq<seq<nat>>, here: BtreeLevel, vs: seq<nat>, next: BtreeLevel)
    requires Descended(idx, above, here) && here.leftmost != P_NONE && INVALID_BLOCK !in idx.pages
    requires LevelResult(idx, here, vs, next)
    ensures Descended(idx, [vs] + above, next)
    ensures next.leftmost != INVALID_BLOCK
  {
    hide Downlinks, LevelClean, FullRun;
    LevelBlocks(idx, here.level, vs);
    if above != [] {
      assert LevelClean(idx, here.level + 1, above[0]);
      LevelBlocks(idx, here.level + 1, above[0]);
      DownlinksAreLevel(idx, here.level, vs, Downlinks(idx, above[0]));
    }
    if here.level > 0 { RunInFile(idx, Downlinks(idx, vs), next.leftmost); }
    var more := [vs] + above;
    assert forall k | 0 < k < |more| :: more[k] == above[k - 1];
  }

  lemma DescendedTower(idx: Index, above: seq<seq<nat>>, current: BtreeLevel)
    requires Descended(idx, above, current) && current.leftmost == P_NONE && idx.root != P_NONE
    ensures Tower(idx, above)
  {
    hide LevelClean, Downlinks;
    assert LevelClean(idx, idx.rootLevel, above[idx.rootLevel]);
  }

  lemma TowerLength(idx: Index, levels: seq<seq<nat>>)
    requires Tower(idx, levels)
    ensures |levels| == idx.rootLevel + 1
  {
  }

  // ---------------------------------------------------------------- where the levels begin

  /** Every level the check walks meets no deleted page and no zero downlink. */
  ghost predicate AllClear(idx: Index) { forall k: nat :: Clear(idx, LevelStart(idx, k)) }

  lemma {:induction false} StartsNone(idx: Index, k: nat, n: nat)
    requires k <= n && LevelStart(idx, k) == P_NONE
    ensures LevelStart(idx, n) == P_NONE
  {
    if k < n { StartsNone(idx, k, n - 1); }
  }

  lemma FairStart(idx: Index, k: nat)
    requires Plain(idx) && AllClear(idx)
    ensures Fair(idx, LevelStart(idx, k))
  {
    assert Clear(idx, LevelStart(idx, k)) && Clear(idx, LevelStart(idx, k + 1));
  }

  /** Levels that were walked to their end are clear as soon as they have no zero downlink. */
  lemma WalkedClear(idx: Index, n: nat)
    requires NoZeroDownlink(idx) && LevelStart(idx, n) == P_NONE
    requires forall k: nat | k < n :: Alive(idx, LevelStart(idx, k))
    ensures AllClear(idx)
  {
    forall k: nat ensures Clear(idx, LevelStart(idx, k)) {
      if k >= n {
        StartsNone(idx, n, k);
        AliveNone(idx);
      }
    }
  }

  /** The levels of a clean tree begin where the check looks for them. */
  lemma {:induction false} TowerStarts(idx: Index, levels: seq<seq<nat>>, k: nat)
    requires Tower(idx, levels) && k <= idx.rootLevel
    ensures LevelStart(idx, k) == levels[idx.rootLevel - k][0]
  {
    hide PageClean, Downlinks, LeftRun, RightRun;
    if k > 0 {
      TowerStarts(idx, levels, k - 1);
      var l := idx.rootLevel - k + 1;
      assert LevelClean(idx, l, levels[l]);
      PageCleanBlock(idx, levels[l][0]);
      FirstDownlink(idx, levels[l]);
      assert levels[l - 1] == Downlinks(idx, levels[l]);
    }
  }

  lemma TowerEnds(idx: Index, levels: seq<seq<nat>>)
    requires Tower(idx, levels)
    ensures LevelStart(idx, idx.rootLevel + 1) == P_NONE
  {
    hide PageClean, Downlinks, LeftRun, RightRun;
    TowerStarts(idx, levels, idx.rootLevel);
    assert LevelClean(idx, 0, levels[0]);
    PageCleanBlock(idx, levels[0][0]);
  }

  lemma LevelClear(idx: Index, level: nat, c: seq<nat>, n: nat)
    requires Plain(idx) && LevelClean(idx, level, c)
    requires level > 0 ==> LevelClean(idx, level - 1, Downlinks(idx, c))
    ensures LiveAt(idx, RightAt(idx, c[0], n)) && NonZeroAt(idx, RightAt(idx, c[0], n))
  {
    hide PageClean, Downlinks, LeftRun;
    RunAlive(idx, c, n);
    if n < |c| {
      PageCleanBlock(idx, c[n]);
      GoalLinks(idx, level, c, n);
      if level > 0 { GoalNonZero(idx, level, c, n); }
    }
  }

  /** A clean tree is clear: no level meets a deleted page or a zero downlink. */
  lemma CleanClear(idx: Index, levels: seq<seq<nat>>)
    requires Plain(idx) && Tower(idx, levels)
    ensures AllClear(idx) && NoZeroDownlink(idx)
  {
    hide LevelClean, Downlinks, RightAt, LevelStart, LiveAt, NonZeroAt;
    forall k: nat, n: nat
      ensures LiveAt(idx, RightAt(idx, LevelStart(idx, k), n)) && NonZeroAt(idx, RightAt(idx, LevelStart(idx, k), n))
    {
      if k <= idx.rootLevel {
        var l := idx.rootLevel - k;
        TowerStarts(idx, levels, k);
        assert LevelClean(idx, l, levels[l]);
        LevelBlocks(idx, l, levels[l]);
        if l > 0 { assert LevelClean(idx, l - 1, levels[l - 1]) && levels[l - 1] == Downlinks(idx, levels[l]); }
        LevelClear(idx, l, levels[l], n);
      } else {
        TowerEnds(idx, levels);
        StartsNone(idx, idx.rootLevel + 1, k);
        RightOfNone(idx, n);
        NothingAtNone(idx);
      }
    }
  }

  lemma NothingAtNone(idx: Index)
    ensures LiveAt(idx, P_NONE) && NonZeroAt(idx, P_NONE)
  {
  }
}
