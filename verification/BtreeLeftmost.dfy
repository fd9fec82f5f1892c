/** bt_leftmost_ignoring_half_dead: walking left over half-dead pages, on any page graph. */
module BtreeLeftmost {
  import opened Wrappers
  import opened Sequences
  import opened BtreePages

  /** One step to the left: the two blocks name each other as neighbours, and the one reached is
      half-dead and neither the start nor its own neighbour. */
  predicate LeftStep(idx: Index, start: nat, from: nat, reached: nat) {
    && from in idx.pages && idx.pages[from].prev == reached
    && reached != P_NONE && ReadPage(idx, reached).Some?
    && HalfDeadLink(idx.pages[reached], start, from, reached)
  }

  predicate HalfDeadLink(p: Page, start: nat, from: nat, reached: nat) {
    p.halfDead && reached != start && reached != from && p.next == from
  }

  /** A walk to the left from `start`. */
  ghost predicate LeftPath(idx: Index, start: nat, path: seq<nat>) {
    && path != [] && path[0] == start
    && (forall k | 0 <= k < |path| :: path[k] in idx.pages)
    && forall k | 0 <= k < |path| - 1 :: LeftStep(idx, start, path[k], path[k + 1])
  }

  ghost function LeftOf(idx: Index, path: seq<nat>): nat
    requires path != [] && path[|path| - 1] in idx.pages
  {
    idx.pages[path[|path| - 1]].prev
  }

  /** Mutually linked half-dead pages, if any, lead from the block to the left end of its level. */
  ghost predicate Leftmost(idx: Index, blk: nat) {
    exists path :: LeftPath(idx, blk, path) && LeftOf(idx, path) == P_NONE
  }

  /** The walk never meets a block twice, so it ends even when the links form a cycle. */
  lemma {:induction false} PathDistinct(idx: Index, start: nat, path: seq<nat>, i: nat, j: nat)
    requires LeftPath(idx, start, path) && i < j < |path|
    ensures path[i] != path[j]
  {
    assert LeftStep(idx, start, path[j - 1], path[j]);
    if i > 0 {
      assert LeftStep(idx, start, path[i - 1], path[i]);
      PathDistinct(idx, start, path, i - 1, j - 1);
    }
  }

  lemma {:induction false} SubsetSize(a: set<nat>, b: set<nat>)
    requires a <= b
    ensures |a| <= |b|
  {
    if x :| x in a {
      SubsetSize(a - {x}, b - {x});
    }
  }

  lemma {:induction false} DistinctSize(s: seq<nat>)
    requires forall i, j | 0 <= i < j < |s| :: s[i] != s[j]
    ensures |Elements(s)| == |s|
  {
    if s != [] {
      var n := |s| - 1;
      DistinctSize(s[..n]);
      assert Elements(s) == Elements(s[..n]) + {s[n]};
      assert s[n] !in Elements(s[..n]);
    }
  }

  lemma DistinctFit(s: seq<nat>, m: map<nat, Page>)
    requires forall i, j | 0 <= i < j < |s| :: s[i] != s[j]
    requires forall i | 0 <= i < |s| :: s[i] in m
    ensures |s| <= |m|
  {
    DistinctSize(s);
    SubsetSize(Elements(s), m.Keys);
    assert |m.Keys| == |m|;
  }

  lemma PathFits(idx: Index, start: nat, path: seq<nat>)
    requires LeftPath(idx, start, path)
    ensures |path| <= |idx.pages|
  {
    forall i, j | 0 <= i < j < |path| ensures path[i] != path[j] {
      PathDistinct(idx, start, path, i, j);
    }
    DistinctFit(path, idx.pages);
  }

  /** A walk that cannot go on contains every other walk from the same start. */
  lemma {:induction false} PathWithin(idx: Index, start: nat, path: seq<nat>, other: seq<nat>)
    requires LeftPath(idx, start, path) && LeftPath(idx, start, other)
    requires !LeftStep(idx, start, path[|path| - 1], LeftOf(idx, path))
    ensures |other| <= |path| && other == path[..|other|]
    decreases |other|
  {
    var n := |other| - 1;
    if n > 0 {
      PathWithin(idx, start, path, other[..n]);
      assert LeftStep(idx, start, other[n - 1], other[n]);
      assert other[n - 1] == other[..n][n - 1] == path[n - 1];
      if n < |path| {
        assert LeftStep(idx, start, path[n - 1], path[n]);
      }
    }
  }

  /** What another walk finds at its left end, given a walk that cannot go on. */
  lemma OtherEnd(idx: Index, start: nat, path: seq<nat>, other: seq<nat>)
    requires LeftPath(idx, start, path) && LeftPath(idx, start, other)
    requires !LeftStep(idx, start, path[|path| - 1], LeftOf(idx, path))
    ensures || LeftOf(idx, other) == LeftOf(idx, path)
            || (LeftOf(idx, other) != P_NONE && ReadPage(idx, LeftOf(idx, other)).Some?)
  {
    PathWithin(idx, start, path, other);
    var n := |other|;
    if n < |path| {
      assert LeftStep(idx, start, path[n - 1], path[n]);
    }
  }

  /** True exactly when a mutually linked chain of half-dead pages leads to the left end of the
      level; None, an error, exactly when the chain leads to a block that cannot be read. */
  method LeftmostIgnoringHalfDead(idx: Index, start: nat, startPage: Page) returns (r: Option<bool>)
    requires start in idx.pages && idx.pages[start] == startPage
    ensures r == Some(true) <==>
              exists path :: LeftPath(idx, start, path) && LeftOf(idx, path) == P_NONE
    ensures r == None <==> exists path ::
              LeftPath(idx, start, path) && LeftOf(idx, path) != P_NONE && ReadPage(idx, LeftOf(idx, path)).None?
  {
    var reached, reachedFrom := startPage.prev, start;
    var allHalfDead := true;
    ghost var path := [start];
    while reached != P_NONE && allHalfDead
      invariant LeftPath(idx, start, path)
      invariant reachedFrom == path[|path| - 1] && reached == LeftOf(idx, path)
      invariant !allHalfDead ==> reached != P_NONE && ReadPage(idx, reached).Some? &&
                                 !LeftStep(idx, start, reachedFrom, reached)
      decreases |idx.pages| + 1 - |path| + (if allHalfDead then 1 else 0)
    {
      PathFits(idx, start, path);
      var page := ReadPage(idx, reached);
      if page.None? {
        forall other | LeftPath(idx, start, other) ensures LeftOf(idx, other) != P_NONE {
          OtherEnd(idx, start, path, other);
        }
        return None;
      }
      allHalfDead := page.value.halfDead && reached != start && reached != reachedFrom &&
        page.value.next == reachedFrom;
      if allHalfDead {
        path := path + [reached];
        reachedFrom := reached;
        reached := page.value.prev;
      }
    }
    r := Some(allHalfDead);
    forall other | LeftPath(idx, start, other)
      ensures LeftOf(idx, other) == reached || (LeftOf(idx, other) != P_NONE && ReadPage(idx, LeftOf(idx, other)).Some?)
    {
      OtherEnd(idx, start, path, other);
    }
  }

  /** Where no half-dead page exists, only a page without a left neighbour is leftmost. */
  lemma LeftmostPlain(idx: Index, start: nat)
    requires start in idx.pages
    requires idx.pages[start].prev in idx.pages && ReadPage(idx, idx.pages[start].prev).Some? ==>
               !idx.pages[idx.pages[start].prev].halfDead || idx.pages[start].prev == P_NONE
    ensures (exists path :: LeftPath(idx, start, path) && LeftOf(idx, path) == P_NONE) <==>
              idx.pages[start].prev == P_NONE
  {
    if idx.pages[start].prev == P_NONE {
      assert LeftPath(idx, start, [start]) && LeftOf(idx, [start]) == P_NONE;
    } else {
      forall path | LeftPath(idx, start, path) ensures LeftOf(idx, path) != P_NONE {
        assert path[0] == start && (|path| == 1 || LeftStep(idx, start, path[0], path[0 + 1]));
      }
    }
  }
}
