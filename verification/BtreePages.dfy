/** Pages and tuples of a version 4 ("heapkeyspace") nbtree index, as contrib/amcheck reads them.

    A page keeps its line pointer array: offsets start at 1, and the first slot of every page that
    is not rightmost holds the high key.  An attribute is modelled by its rank in the operator
    class order; `image` stands for the bytes of a tuple that comparison does not look at. */
module BtreePages {
  import opened Wrappers

  const P_NONE: nat := 0
  const BTREE_METAPAGE: nat := 0
  const INVALID_BLOCK: nat := 0xFFFF_FFFF
  const P_HIKEY: nat := 1
  const P_FIRSTKEY: nat := 2
  const MAX_ITEMS_PER_PAGE: nat := 408

  /** `downlink` is the block number in t_tid: the child of a downlink, or the top parent recorded
      in the high key of a half-dead leaf. */
  datatype Tuple = Tuple(pivot: bool, atts: seq<int>, tid: Option<int>, image: int, downlink: nat)

  datatype Page = Page(
    prev: nat, next: nat, level: nat,
    leaf: bool, root: bool, meta: bool, halfDead: bool, deleted: bool,
    incompleteSplit: bool, garbage: bool, fullXid: bool,
    items: seq<Tuple>)
  {
    predicate Rightmost() { next == P_NONE }

    predicate Ignore() { halfDead || deleted }

    function FirstDataKey(): nat {
      if Rightmost() then P_HIKEY else P_FIRSTKEY
    }

    function MaxOffset(): nat { |items| }

    predicate HasItem(off: nat) { 1 <= off <= |items| }

    function Item(off: nat): Tuple
      requires HasItem(off)
    {
      items[off - 1]
    }

    /** The first data item of an internal page compares below every key. */
    predicate NegativeInfinity(off: nat) { !leaf && off == FirstDataKey() }
  }

  /** The whole file: block 0 is the meta page, which names the true root. */
  datatype Index = Index(pages: map<nat, Page>, root: nat, rootLevel: nat, nkeyatts: nat)

  /** Reads a block and applies the sanity checks every page is put through; None is an error. */
  function ReadPage(idx: Index, blk: nat): (r: Option<Page>)
    ensures r.Some? ==> blk in idx.pages && r.value == idx.pages[blk]
    ensures r.Some? && blk != BTREE_METAPAGE ==> PageSane(r.value)
  {
    if blk !in idx.pages then None
    else
      var p := idx.pages[blk];
      if blk == BTREE_METAPAGE then
        if p.meta then Some(p) else None
      else if PageSane(p) then Some(p) else None
  }

  predicate PageSane(p: Page) {
    && !p.meta
    && (!p.deleted || p.fullXid ==> (p.leaf <==> p.level == 0))
    && |p.items| <= MAX_ITEMS_PER_PAGE
    && (!p.leaf && !p.deleted ==> p.MaxOffset() >= p.FirstDataKey())
    && (p.leaf && !p.deleted && !p.Rightmost() ==> p.MaxOffset() >= P_HIKEY)
    && !(!p.leaf && p.halfDead)
    && !(!p.leaf && p.garbage)
    && !(p.fullXid && !p.deleted)
    && !(p.deleted && p.halfDead)
  }

  /** _bt_check_natts for version 4 indexes: what each slot of a page may hold. */
  predicate AttsOk(nkeyatts: nat, p: Page, off: nat)
    requires p.HasItem(off)
  {
    var t := p.Item(off);
    if p.Ignore() then true
    else if p.leaf && off >= p.FirstDataKey() then
      !t.pivot && |t.atts| == nkeyatts
    else if p.NegativeInfinity(off) then
      t.atts == []
    else
      && t.pivot
      && (t.tid.Some? ==> |t.atts| == nkeyatts)
      && 0 < |t.atts| <= nkeyatts
  }

  /** Two pivots that agree in everything but the block number they carry. */
  predicate PivotIdentical(a: Tuple, b: Tuple) {
    a.(downlink := 0) == b.(downlink := 0)
  }
}
