/** What a sound B-tree is: the level chains, how a level names the one below, and the order of the
    keys.  These are the conditions bt_index_parent_check is meant to establish; BtreeCheck proves
    that it does. */
module BtreeShape {
  import opened Wrappers
  import opened Sequences
  import opened BtreePages
  import opened BtreeOrder

  // ---------------------------------------------------------------- one page

  /** A real data item of a page. */
  predicate RealItem(p: Page, off: nat) {
    p.FirstDataKey() <= off <= p.MaxOffset() && !p.NegativeInfinity(off)
  }

  /** Every slot holds the kind of tuple it should, data items ascend, and the high key bounds them:
      inclusively on a leaf, strictly on an internal page. */
  predicate InPage(nkeyatts: nat, p: Page) {
    && (!p.Rightmost() ==> p.HasItem(P_HIKEY) && AttsOk(nkeyatts, p, P_HIKEY))
    && forall off | p.FirstDataKey() <= off <= p.MaxOffset() :: ItemOk(nkeyatts, p, off)
  }

  predicate ItemOk(nkeyatts: nat, p: Page, off: nat)
    requires p.FirstDataKey() <= off <= p.MaxOffset()
  {
    && AttsOk(nkeyatts, p, off)
    && (!p.NegativeInfinity(off) ==>
          var key := PivotSearchKey(p.Item(off));
          && (!p.Rightmost() ==>
                if p.leaf then InvariantLeq(key, p, P_HIKEY) else InvariantL(key, p, P_HIKEY))
          && (off < p.MaxOffset() ==> InvariantL(key, p, off + 1)))
  }

  /** The first item of a page that carries a key, if there is one. */
  function FirstRealItem(p: Page): Option<Tuple> {
    var off := if p.leaf then p.FirstDataKey() else p.FirstDataKey() + 1;
    if off <= p.MaxOffset() then Some(p.Item(off)) else None
  }

  predicate LastItemReal(p: Page) {
    p.FirstDataKey() <= p.MaxOffset() && !p.NegativeInfinity(p.MaxOffset())
  }

  /** The last item is below the first item of the page to the right. */
  predicate CrossPage(idx: Index, p: Page) {
    LastItemReal(p) && !p.Rightmost() ==>
      && ReadPage(idx, p.next).Some?
      && var first := FirstRealItem(idx.pages[p.next]);
         first.Some? ==> InvariantG(PivotSearchKey(first.value), p, p.MaxOffset())
  }

  // ---------------------------------------------------------------- parent and child

  function DataCount(p: Page): nat {
    if p.FirstDataKey() <= p.MaxOffset() then p.MaxOffset() - p.FirstDataKey() + 1 else 0
  }

  /** The j-th data item, counted from 0. */
  function DataItem(p: Page, j: nat): Tuple
    requires j < DataCount(p)
  {
    p.Item(p.FirstDataKey() + j)
  }

  function PageDownlinks(p: Page): (r: seq<nat>)
    ensures |r| == DataCount(p)
    ensures forall j | 0 <= j < |r| :: r[j] == DataItem(p, j).downlink
  {
    seq(DataCount(p), j requires 0 <= j < DataCount(p) => DataItem(p, j).downlink)
  }

  /** The key that ends the range of the j-th child: the next separator, or else the high key. */
  function UpperKey(p: Page, j: nat): Option<Tuple>
    requires j < DataCount(p)
  {
    if j + 1 < DataCount(p) then Some(DataItem(p, j + 1))
    else if p.Rightmost() then None
    else Some(p.Item(P_HIKEY))
  }

  /** A child sits one level down, its high key repeats the separator that ends its range, and its
      items are above the separator of its downlink, when the downlink has one. */
  predicate ChildOk(idx: Index, p: Page, j: nat)
    requires j < DataCount(p)
  {
    var blk := DataItem(p, j).downlink;
    && ReadPage(idx, blk).Some?
    && var c := idx.pages[blk];
       && c.level + 1 == p.level
       && (!c.Rightmost() ==>
             && UpperKey(p, j).Some?
             && c.HasItem(P_HIKEY)
             && PivotIdentical(c.Item(P_HIKEY), UpperKey(p, j).value))
       && (j > 0 ==> BoundsChild(PivotSearchKey(DataItem(p, j)), c))
  }

  predicate BoundsChild(key: ScanKey, c: Page) {
    forall off | c.FirstDataKey() <= off <= c.MaxOffset() && !c.NegativeInfinity(off) ::
      InvariantL(key, c, off)
  }

  predicate ChildrenOk(idx: Index, p: Page) {
    !p.leaf ==> forall j | 0 <= j < DataCount(p) :: ChildOk(idx, p, j)
  }

  // ---------------------------------------------------------------- one level

  predicate PageClean(idx: Index, blk: nat) {
    && blk != BTREE_METAPAGE
    && ReadPage(idx, blk).Some?
    && var p := idx.pages[blk];
       && !p.Ignore()
       && InPage(idx.nkeyatts, p)
       && CrossPage(idx, p)
       && ChildrenOk(idx, p)
  }

  /** Blocks that name each other as neighbours, in both directions, with no neighbour before the
      first or after the last. */
  ghost predicate Chain(idx: Index, c: seq<nat>) {
    && c != []
    && (forall i | 0 <= i < |c| :: c[i] in idx.pages && c[i] != P_NONE)
    && LeftRun(idx, c)
    && RightRun(idx, c)
    && idx.pages[c[|c| - 1]].next == P_NONE
  }

  ghost predicate LeftRun(idx: Index, c: seq<nat>)
    requires forall i | 0 <= i < |c| :: c[i] in idx.pages
  {
    && (c != [] ==> idx.pages[c[0]].prev == P_NONE)
    && forall i | 0 <= i < |c| - 1 :: idx.pages[c[i + 1]].prev == c[i]
  }

  ghost predicate RightRun(idx: Index, c: seq<nat>)
    requires forall i | 0 <= i < |c| :: c[i] in idx.pages
  {
    forall i | 0 <= i < |c| - 1 :: idx.pages[c[i]].next == c[i + 1]
  }

  /** The downlinks of a run of pages, left to right. */
  ghost function Downlinks(idx: Index, c: seq<nat>): seq<nat>
    requires forall i | 0 <= i < |c| :: c[i] in idx.pages
  {
    if c == [] then []
    else Downlinks(idx, c[..|c| - 1]) + PageDownlinks(idx.pages[c[|c| - 1]])
  }

  ghost predicate LevelClean(idx: Index, level: nat, c: seq<nat>) {
    && Chain(idx, c)
    && forall i | 0 <= i < |c| :: PageClean(idx, c[i]) && idx.pages[c[i]].level == level
  }

  // ---------------------------------------------------------------- the whole tree

  /** levels[0] are the leaves; every level is a clean chain, and read left to right the downlinks
      of a level are the chain of the level below, each child once. */
  ghost predicate Tower(idx: Index, levels: seq<seq<nat>>) {
    && |levels| == idx.rootLevel + 1
    && (forall l | 0 <= l < |levels| :: LevelClean(idx, l, levels[l]))
    && levels[idx.rootLevel][0] == idx.root
    && idx.pages[idx.root].root
    && forall l | 0 < l < |levels| :: levels[l - 1] == Downlinks(idx, levels[l])
  }

  ghost predicate CleanTree(idx: Index) {
    && ReadPage(idx, BTREE_METAPAGE).Some?
    && (idx.root == P_NONE || exists levels :: Tower(idx, levels))
  }

  /** No interrupted operation left a mark: no page is half-dead or half-split, and only the top level
      carries the root flag.  Deleted pages may exist. */
  ghost predicate Plain(idx: Index) {
    && INVALID_BLOCK !in idx.pages
    && (BTREE_METAPAGE in idx.pages ==> !idx.pages[BTREE_METAPAGE].halfDead)
    && forall b | b in idx.pages && b != BTREE_METAPAGE && !idx.pages[b].deleted ::
         PlainPage(idx, idx.pages[b])
  }

  predicate PlainPage(idx: Index, p: Page) {
    !p.halfDead && !p.incompleteSplit && (p.root ==> p.level >= idx.rootLevel)
  }

  predicate NotDeleted(idx: Index, blk: nat) {
    blk in idx.pages ==> !idx.pages[blk].deleted
  }

  /** Every link of a live page leads somewhere it may lead: no right link is the invalid block number,
      no downlink is zero, and none leads to a deleted page. */
  ghost predicate Direct(idx: Index) {
    forall b | b in idx.pages && b != BTREE_METAPAGE && !idx.pages[b].deleted :: DirectPage(idx, idx.pages[b])
  }

  predicate DirectPage(idx: Index, p: Page) {
    && p.next != INVALID_BLOCK
    && (p.next != P_NONE ==> NotDeleted(idx, p.next))
    && (!p.leaf ==> forall j | 0 <= j < DataCount(p) ::
          DataItem(p, j).downlink != P_NONE && NotDeleted(idx, DataItem(p, j).downlink))
  }

  // ---------------------------------------------------------------- the levels the check walks

  function RightOf(idx: Index, b: nat): nat {
    if b != P_NONE && b in idx.pages then idx.pages[b].next else P_NONE
  }

  /** The n-th block to the right of s. */
  function RightAt(idx: Index, s: nat, n: nat): nat {
    if n == 0 then s else RightOf(idx, RightAt(idx, s, n - 1))
  }

  function FirstChild(idx: Index, b: nat): nat {
    if b != P_NONE && b in idx.pages && !idx.pages[b].leaf && DataCount(idx.pages[b]) > 0
    then DataItem(idx.pages[b], 0).downlink
    else P_NONE
  }

  /** Where the walk of the k-th level from the top begins: each level begins at the first downlink of
      the first page above it. */
  function LevelStart(idx: Index, k: nat): nat {
    if k == 0 then idx.root else FirstChild(idx, LevelStart(idx, k - 1))
  }

  predicate NonZero(p: Page) { !p.leaf ==> forall j | 0 <= j < DataCount(p) :: DataItem(p, j).downlink != P_NONE }

  predicate NonZeroAt(idx: Index, b: nat) { b != P_NONE && b in idx.pages ==> NonZero(idx.pages[b]) }

  predicate LiveAt(idx: Index, b: nat) {
    b != P_NONE && b in idx.pages ==> !idx.pages[b].deleted && idx.pages[b].next != INVALID_BLOCK
  }

  /** No page that the check walks over has a downlink of zero. */
  ghost predicate NoZeroDownlink(idx: Index) {
    forall k: nat, n: nat :: NonZeroAt(idx, RightAt(idx, LevelStart(idx, k), n))
  }

  /** The right links from s meet no deleted page and no invalid block number. */
  ghost predicate Alive(idx: Index, s: nat) { forall n: nat :: LiveAt(idx, RightAt(idx, s, n)) }

  /** Besides, they meet no zero downlink. */
  ghost predicate Clear(idx: Index, s: nat) {
    Alive(idx, s) && forall n: nat :: NonZeroAt(idx, RightAt(idx, s, n))
  }

  lemma {:induction false} RightShift(idx: Index, s: nat, n: nat)
    ensures RightAt(idx, RightOf(idx, s), n) == RightAt(idx, s, n + 1)
  {
    if n > 0 { RightShift(idx, s, n - 1); }
  }

  lemma AliveNext(idx: Index, s: nat)
    requires Alive(idx, s)
    ensures LiveAt(idx, s) && Alive(idx, RightOf(idx, s))
  {
    assert RightAt(idx, s, 0) == s;
    forall n: nat ensures LiveAt(idx, RightAt(idx, RightOf(idx, s), n)) { RightShift(idx, s, n); }
  }

  lemma {:induction false} AliveAfter(idx: Index, s: nat, n: nat)
    requires Alive(idx, s)
    ensures Alive(idx, RightAt(idx, s, n))
  {
    if n > 0 {
      AliveAfter(idx, s, n - 1);
      AliveNext(idx, RightAt(idx, s, n - 1));
    }
  }

  lemma {:induction false} RightOfNone(idx: Index, n: nat)
    ensures RightAt(idx, P_NONE, n) == P_NONE
  {
    if n > 0 { RightOfNone(idx, n - 1); }
  }

  lemma AliveNone(idx: Index)
    ensures Alive(idx, P_NONE)
  {
    forall n: nat ensures LiveAt(idx, RightAt(idx, P_NONE, n)) { RightOfNone(idx, n); }
  }

  /** A finite run of live pages that ends is alive. */
  lemma {:induction false} RunAlive(idx: Index, vs: seq<nat>, n: nat)
    requires vs != [] && forall i | 0 <= i < |vs| :: vs[i] in idx.pages && vs[i] != P_NONE
    requires RightRun(idx, vs)
    ensures n < |vs| ==> RightAt(idx, vs[0], n) == vs[n]
    ensures n >= |vs| && idx.pages[vs[|vs| - 1]].next == P_NONE ==> RightAt(idx, vs[0], n) == P_NONE
  {
    if n > 0 {
      RunAlive(idx, vs, n - 1);
      if n < |vs| { assert idx.pages[vs[n - 1]].next == vs[n - 1 + 1]; }
    }
  }

  // ---------------------------------------------------------------- facts about chains

  /** A chain never meets a block twice. */
  lemma {:induction false} ChainDistinct(idx: Index, c: seq<nat>, i: nat, j: nat)
    requires forall k | 0 <= k < |c| :: c[k] in idx.pages && c[k] != P_NONE
    requires LeftRun(idx, c)
    requires i < j < |c|
    ensures c[i] != c[j]
  {
    assert idx.pages[c[j]].prev == c[j - 1];
    if i > 0 {
      assert idx.pages[c[i]].prev == c[i - 1];
      ChainDistinct(idx, c, i - 1, j - 1);
    }
  }

  /** Two chains that start at the same block are the same chain. */
  lemma {:induction false} ChainUnique(idx: Index, c: seq<nat>, d: seq<nat>)
    requires forall k | 0 <= k < |c| :: c[k] in idx.pages && c[k] != P_NONE
    requires forall k | 0 <= k < |d| :: d[k] in idx.pages && d[k] != P_NONE
    requires c != [] && d != [] && c[0] == d[0]
    requires RightRun(idx, c) && idx.pages[c[|c| - 1]].next == P_NONE
    requires RightRun(idx, d) && idx.pages[d[|d| - 1]].next == P_NONE
    ensures c == d
  {
    if |c| > 1 { assert idx.pages[c[0]].next == c[1]; }
    if |d| > 1 { assert idx.pages[d[0]].next == d[1]; }
    if |c| > 1 && |d| > 1 {
      ChainUnique(idx, c[1..], d[1..]);
      assert c == [c[0]] + c[1..] && d == [d[0]] + d[1..];
    }
  }

  /** Where the j-th downlink of the i-th page of a level stands among all its downlinks. */
  lemma {:induction false} DownlinkAt(idx: Index, c: seq<nat>, i: nat, j: nat)
    requires forall k | 0 <= k < |c| :: c[k] in idx.pages
    requires i < |c| && j < DataCount(idx.pages[c[i]])
    ensures |Downlinks(idx, c[..i])| + j < |Downlinks(idx, c)|
    ensures Downlinks(idx, c)[|Downlinks(idx, c[..i])| + j] == DataItem(idx.pages[c[i]], j).downlink
    ensures Downlinks(idx, c[..i]) <= Downlinks(idx, c)
    ensures |Downlinks(idx, c[..i])| + DataCount(idx.pages[c[i]]) <= |Downlinks(idx, c)|
    ensures i + 1 < |c| ==> |Downlinks(idx, c[..i + 1])| ==
                              |Downlinks(idx, c[..i])| + DataCount(idx.pages[c[i]])
  {
    var n := |c| - 1;
    if i < n {
      assert c[..n][..i] == c[..i];
      DownlinkAt(idx, c[..n], i, j);
      assert c[..i + 1][..i] == c[..i];
    } else {
      assert c[..n] == c[..i];
    }
  }

  /** Every position among the downlinks of a level belongs to one page and one of its items. */
  ghost function DownlinkSource(idx: Index, c: seq<nat>, k: nat): (s: (nat, nat))
    requires forall n | 0 <= n < |c| :: c[n] in idx.pages
    requires k < |Downlinks(idx, c)|
    ensures s.0 < |c| && s.1 < DataCount(idx.pages[c[s.0]])
    ensures k == |Downlinks(idx, c[..s.0])| + s.1
  {
    var n := |c| - 1;
    if k < |Downlinks(idx, c[..n])| then
      var s := DownlinkSource(idx, c[..n], k);
      assert c[..n][..s.0] == c[..s.0];
      s
    else
      (n, k - |Downlinks(idx, c[..n])|)
  }

  // ---------------------------------------------------------------- order within a page

  lemma ItemTupleOk(nkeyatts: nat, p: Page, off: nat)
    requires p.HasItem(off) && !p.Ignore() && AttsOk(nkeyatts, p, off) && !p.NegativeInfinity(off)
    ensures TupleOk(nkeyatts, p.Item(off))
  {
  }

  /** Real items of a page ascend. */
  lemma {:induction false} PageAscends(nkeyatts: nat, p: Page, a: nat, b: nat)
    requires !p.Ignore() && InPage(nkeyatts, p)
    requires p.FirstDataKey() <= a < b <= p.MaxOffset() && !p.NegativeInfinity(a)
    ensures LexLess(Key(p.Item(a)), Key(p.Item(b)))
    decreases b
  {
    assert ItemOk(nkeyatts, p, a) && ItemOk(nkeyatts, p, b) && ItemOk(nkeyatts, p, b - 1);
    ItemTupleOk(nkeyatts, p, b - 1);
    ItemTupleOk(nkeyatts, p, b);
    InvariantLDecides(nkeyatts, p.Item(b - 1), p, b);
    if a < b - 1 {
      PageAscends(nkeyatts, p, a, b - 1);
      LexTransitive(Key(p.Item(a)), Key(p.Item(b - 1)), Key(p.Item(b)));
    }
  }

  /** The high key bounds the real items of a page. */
  lemma HighKeyBounds(nkeyatts: nat, p: Page, a: nat)
    requires !p.Ignore() && InPage(nkeyatts, p) && !p.Rightmost()
    requires p.FirstDataKey() <= a <= p.MaxOffset() && !p.NegativeInfinity(a)
    ensures LexLeq(Key(p.Item(a)), Key(p.Item(P_HIKEY)))
    ensures !p.leaf ==> LexLess(Key(p.Item(a)), Key(p.Item(P_HIKEY)))
  {
    assert ItemOk(nkeyatts, p, a);
    ItemTupleOk(nkeyatts, p, a);
    ItemTupleOk(nkeyatts, p, P_HIKEY);
    PivotSearchDecides(nkeyatts, p.Item(a), p.Item(P_HIKEY));
    InvariantLDecides(nkeyatts, p.Item(a), p, P_HIKEY);
    LexTotal(Key(p.Item(a)), Key(p.Item(P_HIKEY)));
  }
}
