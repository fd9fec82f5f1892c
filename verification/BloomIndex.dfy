/** The Bloom access method run by one process at a time: build, insert, bulk delete, cleanup and scan
    over the blocks of the index (contrib/bloom).  `rows` is the abstract value: the rows that have
    been indexed and not deleted. */
module BloomIndex {
  import opened Wrappers
  import opened BloomRand
  import opened BloomSign
  import opened BloomPages

  // ---------------------------------------------------------------- the tuples of an index

  /** All tuples in block order. */
  ghost function AllTuples(pages: seq<Page>): seq<BloomTuple> {
    if pages == [] then [] else AllTuples(pages[..|pages| - 1]) + Live(pages[|pages| - 1])
  }

  ghost function Occurs(s: seq<BloomTuple>, t: BloomTuple): nat { multiset(s)[t] }

  lemma OccursConcat(a: seq<BloomTuple>, b: seq<BloomTuple>, t: BloomTuple)
    ensures Occurs(a + b, t) == Occurs(a, t) + Occurs(b, t)
  {
  }

  lemma SameTuples(a: seq<BloomTuple>, b: seq<BloomTuple>)
    requires forall t :: Occurs(a, t) == Occurs(b, t)
    ensures multiset(a) == multiset(b)
  {
    forall t: BloomTuple ensures multiset(a)[t] == multiset(b)[t] { assert Occurs(a, t) == Occurs(b, t); }
  }

  lemma {:induction false} UpdatePage(pages: seq<Page>, b: nat, p: Page, t: BloomTuple)
    requires b < |pages|
    ensures Occurs(AllTuples(pages[b := p]), t) + Occurs(Live(pages[b]), t) ==
              Occurs(AllTuples(pages), t) + Occurs(Live(p), t)
  {
    hide Occurs;
    var n := |pages| - 1;
    var after := pages[b := p];
    OccursConcat(AllTuples(pages[..n]), Live(pages[n]), t);
    OccursConcat(AllTuples(after[..n]), Live(after[n]), t);
    if b == n {
      assert after[..n] == pages[..n];
    } else {
      UpdatePage(pages[..n], b, p, t);
      assert after[..n] == pages[..n][b := p];
    }
  }

  lemma ExtendPages(pages: seq<Page>, p: Page)
    ensures AllTuples(pages + [p]) == AllTuples(pages) + Live(p)
  {
    assert (pages + [p])[..|pages|] == pages;
  }

  ghost predicate RowsOk(state: BloomState, rows: seq<Row>) {
    state.Ok() && forall i | 0 <= i < |rows| :: RowOk(state, rows[i])
  }

  ghost function TuplesOf(state: BloomState, rows: seq<Row>): seq<BloomTuple>
    requires RowsOk(state, rows)
  {
    seq(|rows|, i requires 0 <= i < |rows| => TupleOf(state, rows[i]))
  }

  lemma TuplesOfAppend(state: BloomState, rows: seq<Row>, row: Row)
    requires RowsOk(state, rows) && RowOk(state, row)
    ensures RowsOk(state, rows + [row])
    ensures TuplesOf(state, rows + [row]) == TuplesOf(state, rows) + [TupleOf(state, row)]
  {
  }

  lemma TuplesOfEmpty(state: BloomState)
    requires state.Ok()
    ensures TuplesOf(state, []) == []
  {
  }

  /** The rows whose heap pointers are not deleted. */
  ghost function Surviving(rows: seq<Row>, dead: set<nat>): seq<Row> {
    if rows == [] then []
    else
      var n := |rows| - 1;
      Surviving(rows[..n], dead) + if rows[n].heapPtr in dead then [] else [rows[n]]
  }

  /** Deleting tuples is deleting the rows they stand for. */
  lemma {:induction false} SurvivingTuples(state: BloomState, rows: seq<Row>, dead: set<nat>)
    requires RowsOk(state, rows)
    ensures RowsOk(state, Surviving(rows, dead))
    ensures TuplesOf(state, Surviving(rows, dead)) == Kept(TuplesOf(state, rows), dead)
  {
    hide TuplesOf;
    if rows == [] {
      TuplesOfEmpty(state);
    } else {
      var n := |rows| - 1;
      SurvivingTuples(state, rows[..n], dead);
      assert rows[..n] + [rows[n]] == rows;
      TuplesOfAppend(state, rows[..n], rows[n]);
      var t := TupleOf(state, rows[n]);
      KeptConcat(TuplesOf(state, rows[..n]), [t], dead);
      KeptSingle(t, dead);
      assert Surviving(rows[..n], dead) + [] == Surviving(rows[..n], dead);
      if rows[n].heapPtr !in dead { TuplesOfAppend(state, Surviving(rows[..n], dead), rows[n]); }
    }
  }

  lemma KeptSingle(t: BloomTuple, dead: set<nat>)
    ensures Kept([t], dead) == if t.heapPtr in dead then [] else [t]
  {
    assert [t][..0] == [];
  }

  lemma KeptSame(a: seq<BloomTuple>, b: seq<BloomTuple>, dead: set<nat>)
    requires multiset(a) == multiset(b)
    ensures multiset(Kept(a, dead)) == multiset(Kept(b, dead))
  {
    forall t: BloomTuple ensures multiset(Kept(a, dead))[t] == multiset(Kept(b, dead))[t] {
      KeptCount(a, dead, t);
      KeptCount(b, dead, t);
    }
  }

  /** Every block after bulk deletion. */
  ghost function VacuumedPages(pages: seq<Page>, dead: set<nat>): (r: seq<Page>)
    ensures |r| == |pages|
  {
    seq(|pages|, b requires 0 <= b < |pages| => Vacuumed(pages[b], dead))
  }

  lemma {:induction false} VacuumedTuples(pages: seq<Page>, dead: set<nat>)
    requires forall b | 0 <= b < |pages| :: pages[b].DataPage? && pages[b].deleted ==> pages[b].tuples == []
    ensures AllTuples(VacuumedPages(pages, dead)) == Kept(AllTuples(pages), dead)
  {
    if pages != [] {
      var n := |pages| - 1;
      VacuumedTuples(pages[..n], dead);
      assert VacuumedPages(pages, dead)[..n] == VacuumedPages(pages[..n], dead);
      KeptConcat(AllTuples(pages[..n]), Live(pages[n]), dead);
    }
  }

  ghost predicate BlocksOk(opts: Options, pages: seq<Page>) {
    forall b | 1 <= b < |pages| :: PageOk(opts, pages[b])
  }

  /** The tuples on the blocks are those of the rows, each as often. */
  ghost predicate Holds(state: BloomState, pages: seq<Page>, rows: seq<Row>) {
    RowsOk(state, rows) && multiset(AllTuples(pages)) == multiset(TuplesOf(state, rows))
  }

  /** Putting a tuple on a block adds it to the index and takes nothing away, even when the block is
      initialised again on the way. */
  lemma StoreTuple(state: BloomState, pages: seq<Page>, rows: seq<Row>, blk: nat, p: Page, row: Row)
    requires Holds(state, pages, rows) && RowOk(state, row)
    requires blk < |pages| && Live(p) == Live(pages[blk]) + [TupleOf(state, row)]
    ensures Holds(state, pages[blk := p], rows + [row])
  {
    var a, b := AllTuples(pages[blk := p]), TuplesOf(state, rows) + [TupleOf(state, row)];
    TuplesOfAppend(state, rows, row);
    forall t ensures Occurs(a, t) == Occurs(b, t) {
      hide TuplesOf, TupleOf, AllTuples;
      UpdatePage(pages, blk, p, t);
      OccursConcat(Live(pages[blk]), [TupleOf(state, row)], t);
      OccursConcat(TuplesOf(state, rows), [TupleOf(state, row)], t);
    }
    SameTuples(a, b);
  }

  lemma ExtendHolds(state: BloomState, pages: seq<Page>, rows: seq<Row>)
    requires Holds(state, pages, rows)
    ensures Holds(state, pages + [NewPage], rows)
  {
    ExtendPages(pages, NewPage);
    assert AllTuples(pages) + [] == AllTuples(pages);
  }

  lemma DeleteHolds(state: BloomState, pages: seq<Page>, rows: seq<Row>, dead: set<nat>)
    requires Holds(state, pages, rows)
    requires forall b | 0 <= b < |pages| :: pages[b].DataPage? && pages[b].deleted ==> pages[b].tuples == []
    ensures Holds(state, VacuumedPages(pages, dead), Surviving(rows, dead))
  {
    VacuumedTuples(pages, dead);
    SurvivingTuples(state, rows, dead);
    KeptSame(AllTuples(pages), TuplesOf(state, rows), dead);
  }

  /** A block worth listing in notFullPage: it holds a tuple and has room for another. */
  predicate HasRoom(opts: Options, p: Page) {
    Live(p) != [] && FreeSpace(opts, p) >= TupleSize(opts)
  }

  /** The numbers of all such blocks, ascending. */
  ghost function WithRoom(opts: Options, pages: seq<Page>): (r: seq<nat>)
    ensures forall k | 0 <= k < |r| :: r[k] < |pages| && HasRoom(opts, pages[r[k]])
  {
    if pages == [] then []
    else
      var n := |pages| - 1;
      WithRoom(opts, pages[..n]) + if HasRoom(opts, pages[n]) then [n] else []
  }

  /** The tuple does not fit, even if the page is initialised again. */
  predicate Full(opts: Options, p: Page) { FreeSpace(opts, Ready(p)) < TupleSize(opts) }

  /** The tuple was added to block b, which may be new, and nothing else changed. */
  ghost predicate StoredOn(before: seq<Page>, after: seq<Page>, b: nat, t: BloomTuple) {
    && b < |after| && (|after| == |before| || (|after| == |before| + 1 && b == |before|))
    && (forall k | 0 <= k < |before| && k != b :: after[k] == before[k])
    && Live(after[b]) == (if b < |before| then Live(before[b]) else []) + [t]
  }

  /** A block the free space map offered and that may be taken, or the one after the end of the file; of the blocks the
      map offered before, none could be taken. */
  ghost predicate GotBlock(pages: seq<Page>, fsm: set<nat>, blk: nat, rest: set<nat>) {
    && rest <= fsm - {blk}
    && (blk == |pages| || (blk in fsm && blk < |pages| && Reusable(pages[blk])))
    && forall b | b in fsm - {blk} && b !in rest :: b < |pages| && !Reusable(pages[b])
  }

  /** All tuples of a block that has some are dead. */
  ghost predicate AllDead(p: Page, dead: set<nat>) {
    Live(p) != [] && forall t | t in Live(p) :: t.heapPtr in dead
  }

  /** Deletion makes a page reusable if and only if it empties it. */
  lemma ReusableAfter(opts: Options, p: Page, dead: set<nat>)
    requires PageOk(opts, p)
    ensures Reusable(Vacuumed(p, dead)) <==> Reusable(p) || AllDead(p, dead)
  {
    var before, kept := Live(p), Kept(Live(p), dead);
    forall t: BloomTuple ensures multiset(kept)[t] == if t.heapPtr in dead then 0 else multiset(before)[t] {
      KeptCount(before, dead, t);
    }
    if kept != [] {
      assert multiset(kept)[kept[0]] > 0;
      assert kept[0] in before;
    } else {
      forall t | t in before ensures t.heapPtr in dead { assert multiset(before)[t] > 0; }
    }
  }

  lemma PagesReusable(opts: Options, pages: seq<Page>, dead: set<nat>)
    requires BlocksOk(opts, pages)
    ensures forall b | 1 <= b < |pages| ::
              Reusable(VacuumedPages(pages, dead)[b]) <==> Reusable(pages[b]) || AllDead(pages[b], dead)
  {
    hide Reusable, AllDead, PageOk, Vacuumed;
    forall b | 1 <= b < |pages|
      ensures Reusable(VacuumedPages(pages, dead)[b]) <==> Reusable(pages[b]) || AllDead(pages[b], dead)
    {
      ReusableAfter(opts, pages[b], dead);
    }
  }

  ghost function AtMost(s: seq<nat>, n: nat): seq<nat> { if |s| <= n then s else s[..n] }

  ghost function FreeBlocks(pages: seq<Page>): set<nat> {
    set b: nat | 1 <= b < |pages| && Reusable(pages[b])
  }

  /** The blocks that were reusable already and those that hold dead tuples only. */
  ghost function Emptied(pages: seq<Page>, dead: set<nat>): set<nat> {
    set b: nat | 1 <= b < |pages| && (Reusable(pages[b]) || AllDead(pages[b], dead))
  }

  /** The list of blocks with room leaves none out, and a tuple can be added to exactly those among the blocks that hold
      one. */
  lemma {:induction false} WithRoomExact(opts: Options, pages: seq<Page>, b: nat, t: BloomTuple)
    requires b < |pages| && PageOk(opts, pages[b])
    ensures b in WithRoom(opts, pages) <==> Live(pages[b]) != [] && AddItem(opts, Ready(pages[b]), t).Some?
  {
    hide PageOk, FreeSpace;
    var n := |pages| - 1;
    if b == n {
      RoomMeans(opts, pages[b], t);
    } else {
      WithRoomExact(opts, pages[..n], b, t);
    }
  }

  lemma RoomMeans(opts: Options, p: Page, t: BloomTuple)
    requires PageOk(opts, p)
    ensures HasRoom(opts, p) <==> Live(p) != [] && AddItem(opts, Ready(p), t).Some?
  {
  }

  /** It is in block order. */
  lemma {:induction false} WithRoomAscends(opts: Options, pages: seq<Page>, i: nat, j: nat)
    requires i < j < |WithRoom(opts, pages)|
    ensures WithRoom(opts, pages)[i] < WithRoom(opts, pages)[j]
  {
    hide HasRoom;
    var n := |pages| - 1;
    var rest := WithRoom(opts, pages[..n]);
    if j < |rest| { WithRoomAscends(opts, pages[..n], i, j); }
  }

  // ---------------------------------------------------------------- the index

  datatype Stats = Stats(numPages: nat, pagesFree: nat, numIndexTuples: nat)

  class BloomIndex {
    const state: BloomState
    const gen: Generator
    const notFullPage: array<nat>
    var pages: seq<Page>
    var nStart: nat
    var nEnd: nat
    var fsm: set<nat>
    ghost var rows: seq<Row>

    constructor (state: BloomState)
      requires state.Ok()
      ensures this.state == state && pages == [] && fsm == {} && rows == []
      ensures fresh(gen) && fresh(notFullPage) && notFullPage.Length == META_BLOCK_N
    {
      this.state := state;
      gen := new Generator();
      notFullPage := new nat[META_BLOCK_N](i => 0);
      pages, nStart, nEnd, fsm, rows := [], 0, 0, {}, [];
    }

    ghost predicate Valid()
      reads this, notFullPage
    {
      && state.Ok() && notFullPage.Length == META_BLOCK_N
      && |pages| > 0 && pages[0].MetaPage?
      && BlocksOk(state.opts, pages)
      && nStart <= nEnd <= META_BLOCK_N
      && (forall k | 0 <= k < nEnd :: 1 <= notFullPage[k] < |pages|)
      && (forall b | b in fsm :: 1 <= b < |pages|)
      && Holds(state, pages, rows)
    }

    /** BloomNewBuffer: a recycled block, or the file grows by one. */
    method NewBuffer() returns (blk: nat)
      requires |pages| > 0 && forall b | b in fsm :: 1 <= b < |pages|
      modifies this`pages, this`fsm
      ensures 1 <= blk < |pages| && Reusable(pages[blk]) && fsm <= old(fsm)
      ensures GotBlock(old(pages), old(fsm), blk, fsm)
      ensures if blk < |old(pages)| then pages == old(pages) else pages == old(pages) + [NewPage] && fsm == {}
    {
      while fsm != {}
        invariant fsm <= old(fsm) && pages == old(pages)
        invariant forall b | b in old(fsm) - fsm :: !Reusable(pages[b])
        decreases fsm
      {
        blk :| blk in fsm;
        fsm := fsm - {blk};
        if Reusable(pages[blk]) { return; }
      }
      pages := pages + [NewPage];
      blk := |pages| - 1;
    }

    /** One attempt of blinsert to put the tuple on a block. */
    method TryPage(blk: nat, t: BloomTuple, ghost row: Row) returns (ok: bool)
      requires Valid() && 1 <= blk < |pages|
      requires RowOk(state, row) && t == TupleOf(state, row)
      modifies this`pages, this`rows
      ensures Valid() && |pages| == |old(pages)|
      ensures ok <==> !Full(state.opts, old(pages)[blk])
      ensures rows == if ok then old(rows) + [row] else old(rows)
      ensures if ok then StoredOn(old(pages), pages, blk, t) else pages == old(pages)
    {
      hide Holds, TupleOf;
      var page := Ready(pages[blk]);
      var r := AddItem(state.opts, page, t);
      ok := r.Some?;
      if ok {
        StoreTuple(state, pages, rows, blk, r.value, row);
        pages := pages[blk := r.value];
        rows := rows + [row];
      }
    }

    /** blinsert: the tuple goes to the first listed block with room, from which on later insertions look,
        or else to a new one that becomes the list. */
    method Insert(row: Row)
      requires Valid() && RowOk(state, row)
      modifies this, gen, notFullPage
      ensures Valid() && rows == old(rows) + [row]
      ensures nStart < nEnd && StoredOn(old(pages), pages, notFullPage[nStart], TupleOf(state, row))
      ensures || (&& nEnd == old(nEnd) && notFullPage[..] == old(notFullPage[..]) && old(nStart) <= nStart
                  && fsm == old(fsm) && !Full(state.opts, old(pages)[notFullPage[nStart]])
                  && forall k | old(nStart) <= k < nStart :: Full(state.opts, old(pages)[old(notFullPage[k])]))
              || (&& nStart == 0 && nEnd == 1 && notFullPage[1..] == old(notFullPage[1..])
                  && GotBlock(old(pages), old(fsm), notFullPage[0], fsm)
                  && (notFullPage[0] == |old(pages)| ==> fsm == {})
                  && forall k | old(nStart) <= k < old(nEnd) :: Full(state.opts, old(pages)[old(notFullPage[k])]))
    {
      hide Holds, TupleOf, PageOk, FreeSpace, Live, Ready, BlocksOk;
      var t := FormTuple(gen, state, row);
      var blkno := 0;
      var ok := false;
      if nEnd > nStart {
        blkno := notFullPage[nStart];
        ok := TryPage(blkno, t, row);
        if ok { return; }
      }
      var n: nat := nStart;
      if n < nEnd && blkno == notFullPage[n] { n := n + 1; }
      while n < nEnd
        invariant Valid() && nStart <= n <= nEnd && rows == old(rows) && pages == old(pages)
        invariant nStart == old(nStart) && nEnd == old(nEnd) && notFullPage[..] == old(notFullPage[..])
        invariant fsm == old(fsm)
        invariant forall k | nStart <= k < n :: Full(state.opts, pages[notFullPage[k]])
        decreases nEnd - n
      {
        blkno := notFullPage[n];
        ok := TryPage(blkno, t, row);
        if ok {
          nStart := n;
          return;
        }
        n := n + 1;
      }
      InsertNew(t, row);
    }

    /** The end of blinsert: a new page, which becomes the only entry of notFullPage. */
    method InsertNew(t: BloomTuple, ghost row: Row)
      requires Valid() && RowOk(state, row) && t == TupleOf(state, row)
      modifies this, notFullPage
      ensures Valid() && rows == old(rows) + [row]
      ensures nStart == 0 && nEnd == 1 && StoredOn(old(pages), pages, notFullPage[0], t)
      ensures notFullPage[1..] == old(notFullPage[1..]) && GotBlock(old(pages), old(fsm), notFullPage[0], fsm)
      ensures notFullPage[0] == |old(pages)| ==> fsm == {}
    {
      hide Holds, TupleOf, FreeSpace;
      var blk := NewBuffer();
      ExtendHolds(state, old(pages), rows);
      EmptyHasRoom(state.opts, t);
      var r := AddItem(state.opts, EMPTY_PAGE, t);
      assert Live(pages[blk]) == [] && [] + [t] == [t];
      StoreTuple(state, pages, rows, blk, r.value, row);
      pages := pages[blk := r.value];
      rows := rows + [row];
      nStart, nEnd := 0, 1;
      notFullPage[0] := blk;
    }

    /** blbuild: the heap rows go to a cached page that is flushed to a new block when full.  An index
        that has blocks already is refused. */
    method Build(heap: seq<Row>) returns (ok: bool, indtuples: nat)
      requires RowsOk(state, heap) && notFullPage.Length == META_BLOCK_N
      requires |pages| == 0 ==> rows == [] && fsm == {}
      modifies this, gen
      ensures ok <==> old(pages) == []
      ensures ok ==> Valid() && rows == heap && indtuples == |heap| && nStart == nEnd == 0
      ensures !ok ==> pages == old(pages) && rows == old(rows)
    {
      hide Holds, TupleOf, PageOk, FreeSpace;
      indtuples := 0;
      if |pages| != 0 { return false, 0; }
      pages, nStart, nEnd := [MetaPage], 0, 0;
      MetaHolds(state);
      rows := [];
      var cached := EMPTY_PAGE;
      var count := 0;
      ghost var stored: seq<Row> := [];
      RoomOnEmpty(state.opts);
      var i := 0;
      while i < |heap|
        invariant 0 <= i <= |heap| && indtuples == i
        invariant Valid() && rows + stored == heap[..i]
        invariant RowsOk(state, stored) && cached == DataPage(false, TuplesOf(state, stored))
        invariant count == |stored| && PageOk(state.opts, cached)
        invariant nEnd == 0 && fsm == {}
      {
        var t := FormTuple(gen, state, heap[i]);
        var r := AddItem(state.opts, cached, t);
        TuplesOfAppend(state, stored, heap[i]);
        if r.Some? {
          cached := r.value;
          stored := stored + [heap[i]];
          count := count + 1;
        } else {
          FlushCachedPage(cached, stored);
          EmptyHasRoom(state.opts, t);
          r := AddItem(state.opts, EMPTY_PAGE, t);
          TuplesOfAppend(state, [], heap[i]);
          assert [] + [heap[i]] == [heap[i]] && [] + [t] == [t];
          cached := r.value;
          stored := [heap[i]];
          count := 1;
        }
        indtuples := indtuples + 1;
        i := i + 1;
      }
      if count > 0 { FlushCachedPage(cached, stored); }
      ok := true;
    }

    /** flushCachedPage */
    method FlushCachedPage(cached: Page, ghost stored: seq<Row>)
      requires Valid() && PageOk(state.opts, cached) && RowsOk(state, stored)
      requires cached.DataPage? && cached.tuples == TuplesOf(state, stored) && nEnd == 0
      modifies this`pages, this`fsm, this`rows
      ensures Valid() && rows == old(rows) + stored && fsm <= old(fsm)
    {
      hide Holds, TupleOf, TuplesOf;
      var blk := NewBuffer();
      ExtendHolds(state, old(pages), rows);
      StorePage(state, pages, rows, blk, cached, stored);
      pages := pages[blk := cached];
      rows := rows + stored;
    }

    /** blbulkdelete on one block: works on a copy of the page image and writes it back only when some
        tuple was removed. */
    method DeleteFromPage(blk: nat, dead: set<nat>) returns (removed: nat)
      requires 1 <= blk < |pages| && PageOk(state.opts, pages[blk])
      modifies this`pages
      ensures pages == old(pages)[blk := Vacuumed(old(pages)[blk], dead)]
      ensures removed == |Live(old(pages)[blk])| - |Live(pages[blk])|
      ensures Live(pages[blk]) == Kept(Live(old(pages)[blk]), dead)
      ensures Reusable(pages[blk]) <==> Reusable(old(pages)[blk]) || AllDead(old(pages)[blk], dead)
    {
      ReusableAfter(state.opts, pages[blk], dead);
      removed := 0;
      var page := pages[blk];
      if Reusable(page) { return; }
      var n := |page.tuples|;
      var buf := new BloomTuple[n](i requires 0 <= i < n => page.tuples[i]);
      assert buf[..n] == page.tuples;
      var left := Compact(buf, n, dead);
      removed := n - left;
      if removed == 0 {
        KeptFull(page.tuples, dead);
      } else {
        pages := pages[blk := DataPage(left == 0, buf[..left])];
      }
    }

    /** The page loop of blbulkdelete; `notFull` lists the first META_BLOCK_N blocks found with room. */
    method DeletePages(dead: set<nat>) returns (tuplesRemoved: nat, notFull: seq<nat>)
      requires |pages| > 0 && pages[0].MetaPage? && BlocksOk(state.opts, pages)
      modifies this`pages
      ensures pages == VacuumedPages(old(pages), dead) && BlocksOk(state.opts, pages)
      ensures tuplesRemoved + |AllTuples(pages)| == |AllTuples(old(pages))|
      ensures notFull == AtMost(WithRoom(state.opts, pages), META_BLOCK_N)
      ensures forall b | 1 <= b < |pages| ::
                Reusable(pages[b]) <==> Reusable(old(pages)[b]) || AllDead(old(pages)[b], dead)
    {
      hide Vacuumed, VacuumedPages, AllTuples, WithRoom, PageOk;
      ghost var before := pages;
      var npages := |pages|;
      notFull, tuplesRemoved := [], 0;
      VacuumStart(state.opts, before, dead);
      var blk := 1;
      while blk < npages
        invariant 1 <= blk <= npages == |pages| == |before|
        invariant pages == VacuumedPages(before[..blk], dead) + before[blk..]
        invariant BlocksOk(state.opts, pages)
        invariant tuplesRemoved + |AllTuples(VacuumedPages(before[..blk], dead))| == |AllTuples(before[..blk])|
        invariant notFull == AtMost(WithRoom(state.opts, VacuumedPages(before[..blk], dead)), META_BLOCK_N)
      {
        assert pages[blk] == before[blk] by { assert before[blk..][0] == before[blk]; }
        var removed := DeleteFromPage(blk, dead);
        tuplesRemoved := tuplesRemoved + removed;
        VacuumStep(state.opts, before, blk, dead);
        DeleteUnchanged(state.opts, before[blk], dead);
        if !Reusable(pages[blk]) && HasRoom(state.opts, pages[blk]) && |notFull| < META_BLOCK_N {
          notFull := notFull + [blk];
        }
        blk := blk + 1;
      }
      assert before[..npages] == before && before[npages..] == [];
      PagesReusable(state.opts, before, dead);
    }

    /** blbulkdelete */
    method BulkDelete(dead: set<nat>) returns (tuplesRemoved: nat)
      requires Valid()
      modifies this, notFullPage
      ensures Valid()
      ensures rows == Surviving(old(rows), dead)
      ensures pages == VacuumedPages(old(pages), dead)
      ensures AllTuples(pages) == Kept(old(AllTuples(pages)), dead)
      ensures tuplesRemoved + |AllTuples(pages)| == |old(AllTuples(pages))|
      ensures forall b | 1 <= b < |pages| ::
                Reusable(pages[b]) <==> Reusable(old(pages)[b]) || AllDead(old(pages)[b], dead)
      ensures nStart == 0 && notFullPage[..nEnd] == AtMost(WithRoom(state.opts, pages), META_BLOCK_N)
      ensures fsm == old(fsm) && notFullPage[nEnd..] == old(notFullPage[..])[nEnd..]
    {
      hide Holds, Vacuumed, VacuumedPages, AllTuples, WithRoom, Surviving, FreeSpace;
      var notFull: seq<nat>;
      tuplesRemoved, notFull := DeletePages(dead);
      DeleteHolds(state, old(pages), rows, dead);
      VacuumedTuples(old(pages), dead);
      MetaKept(old(pages), dead);
      RoomInFile(state.opts, pages);
      rows := Surviving(rows, dead);
      forall k | 0 <= k < |notFull| { notFullPage[k] := notFull[k]; }
      nStart, nEnd := 0, |notFull|;
      assert notFullPage[..nEnd] == notFull;
    }

    /** The block loop of blvacuumcleanup. */
    method CleanPages() returns (pagesFree: nat, numIndexTuples: nat)
      requires |pages| > 0 && pages[0].MetaPage? && BlocksOk(state.opts, pages)
      modifies this`fsm
      ensures fsm == old(fsm) + FreeBlocks(pages)
      ensures pagesFree == |FreeBlocks(pages)| && numIndexTuples == |AllTuples(pages)|
    {
      hide AllTuples, FreeBlocks, BlocksOk, Reusable;
      pagesFree, numIndexTuples := 0, 0;
      CountStart(pages);
      var npages, blk := |pages|, 1;
      while blk < npages
        invariant 1 <= blk <= npages && numIndexTuples == |AllTuples(pages[..blk])|
        invariant fsm == old(fsm) + FreeBlocks(pages[..blk]) && pagesFree == |FreeBlocks(pages[..blk])|
      {
        CleanedBlock(state.opts, pages, blk, old(fsm));
        if Reusable(pages[blk]) {
          fsm := fsm + {blk};
          pagesFree := pagesFree + 1;
        } else {
          numIndexTuples := numIndexTuples + |pages[blk].tuples|;
        }
        blk := blk + 1;
      }
      assert pages[..npages] == pages;
    }

    /** blvacuumcleanup: counts what lives and gives the reusable blocks to the free space map. */
    method VacuumCleanup() returns (stats: Stats)
      requires Valid()
      modifies this`fsm
      ensures Valid()
      ensures fsm == old(fsm) + FreeBlocks(pages)
      ensures stats == Stats(|pages|, |FreeBlocks(pages)|, |rows|)
    {
      hide Holds, AllTuples, FreeBlocks, BlocksOk;
      var pagesFree, numIndexTuples := CleanPages();
      FreeInFile(pages);
      HoldsCount(state, pages, rows);
      stats := Stats(|pages|, pagesFree, numIndexTuples);
    }

    /** A vacuum of the index: the blocks the free space map gains are those that were reusable before or held dead
        tuples only, and what is removed and what is left are the tuples before. */
    method Vacuum(dead: set<nat>) returns (tuplesRemoved: nat, stats: Stats)
      requires Valid()
      modifies this, notFullPage
      ensures Valid() && rows == Surviving(old(rows), dead)
      ensures fsm == old(fsm) + Emptied(old(pages), dead) && stats.pagesFree == |Emptied(old(pages), dead)|
      ensures stats.numPages == |old(pages)| && tuplesRemoved + stats.numIndexTuples == |old(rows)|
    {
      hide Holds, AllTuples, Surviving, WithRoom, Vacuumed, Reusable, AllDead;
      HoldsCount(state, pages, rows);
      tuplesRemoved := BulkDelete(dead);
      HoldsCount(state, pages, rows);
      assert FreeBlocks(pages) == Emptied(old(pages), dead);
      stats := VacuumCleanup();
    }
  }

  lemma MetaHolds(state: BloomState)
    requires state.Ok()
    ensures Holds(state, [MetaPage], [])
  {
    assert [MetaPage][..0] == [];
  }

  lemma RoomOnEmpty(opts: Options)
    requires opts.Ok()
    ensures PageOk(opts, EMPTY_PAGE)
  {
  }

  /** Writing a page of new tuples over a block where nothing lives. */
  lemma StorePage(state: BloomState, pages: seq<Page>, rows: seq<Row>, blk: nat, p: Page, stored: seq<Row>)
    requires Holds(state, pages, rows) && RowsOk(state, stored)
    requires blk < |pages| && Live(pages[blk]) == [] && Live(p) == TuplesOf(state, stored)
    ensures Holds(state, pages[blk := p], rows + stored)
  {
    hide AllTuples, TuplesOf;
    var a, b := AllTuples(pages[blk := p]), TuplesOf(state, rows) + TuplesOf(state, stored);
    forall t ensures Occurs(a, t) == Occurs(b, t) {
      UpdatePage(pages, blk, p, t);
      OccursConcat(TuplesOf(state, rows), TuplesOf(state, stored), t);
    }
    SameTuples(a, b);
    TuplesOfConcat(state, rows, stored);
  }

  lemma TuplesOfConcat(state: BloomState, rows: seq<Row>, more: seq<Row>)
    requires RowsOk(state, rows) && RowsOk(state, more)
    ensures RowsOk(state, rows + more)
    ensures TuplesOf(state, rows + more) == TuplesOf(state, rows) + TuplesOf(state, more)
  {
    hide TupleOf;
  }

  lemma VacuumStart(opts: Options, pages: seq<Page>, dead: set<nat>)
    requires |pages| > 0 && pages[0].MetaPage?
    ensures pages == VacuumedPages(pages[..1], dead) + pages[1..]
    ensures AllTuples(VacuumedPages(pages[..1], dead)) == AllTuples(pages[..1]) == []
    ensures WithRoom(opts, VacuumedPages(pages[..1], dead)) == []
  {
    assert VacuumedPages(pages[..1], dead) == [MetaPage] == pages[..1];
    assert [MetaPage][..0] == [];
  }

  lemma VacuumStep(opts: Options, pages: seq<Page>, blk: nat, dead: set<nat>)
    requires blk < |pages|
    ensures var a, b := VacuumedPages(pages[..blk], dead), VacuumedPages(pages[..blk + 1], dead);
            && b == a + [Vacuumed(pages[blk], dead)]
            && (a + pages[blk..])[blk := Vacuumed(pages[blk], dead)] == b + pages[blk + 1..]
            && |AllTuples(b)| == |AllTuples(a)| + |Live(Vacuumed(pages[blk], dead))|
            && |AllTuples(pages[..blk + 1])| == |AllTuples(pages[..blk])| + |Live(pages[blk])|
            && WithRoom(opts, b) ==
                 WithRoom(opts, a) + if HasRoom(opts, Vacuumed(pages[blk], dead)) then [blk] else []
  {
    hide Vacuumed, HasRoom, Live;
    var a, b := VacuumedPages(pages[..blk], dead), VacuumedPages(pages[..blk + 1], dead);
    assert b == a + [Vacuumed(pages[blk], dead)];
    assert b[..blk] == a;
    assert pages[..blk + 1][..blk] == pages[..blk];
  }

  /** A page emptied by the deletion is marked deleted and has nothing to list. */
  lemma DeleteUnchanged(opts: Options, p: Page, dead: set<nat>)
    requires PageOk(opts, p)
    ensures PageOk(opts, Vacuumed(p, dead))
    ensures HasRoom(opts, Vacuumed(p, dead)) ==> !Reusable(Vacuumed(p, dead))
  {
    assert |Live(Vacuumed(p, dead))| <= |Live(p)|;
    SmallerFits(|Live(Vacuumed(p, dead))|, |Live(p)|, TupleSize(opts));
  }

  lemma SmallerFits(m: nat, n: nat, size: nat)
    requires m <= n
    ensures m * size <= n * size
  {
  }

  lemma RoomInFile(opts: Options, pages: seq<Page>)
    requires |pages| > 0 && pages[0].MetaPage?
    ensures forall k | 0 <= k < |WithRoom(opts, pages)| :: 1 <= WithRoom(opts, pages)[k] < |pages|
  {
  }

  lemma MetaKept(pages: seq<Page>, dead: set<nat>)
    requires |pages| > 0 && pages[0].MetaPage?
    ensures VacuumedPages(pages, dead)[0].MetaPage?
  {
  }

  lemma CountStart(pages: seq<Page>)
    requires |pages| > 0 && pages[0].MetaPage?
    ensures AllTuples(pages[..1]) == [] && FreeBlocks(pages[..1]) == {}
  {
    assert pages[..1][..0] == [];
  }

  lemma CountStep(pages: seq<Page>, blk: nat)
    requires 1 <= blk < |pages|
    ensures AllTuples(pages[..blk + 1]) == AllTuples(pages[..blk]) + Live(pages[blk])
    ensures FreeBlocks(pages[..blk + 1]) == FreeBlocks(pages[..blk]) + if Reusable(pages[blk]) then {blk} else {}
    ensures blk !in FreeBlocks(pages[..blk])
  {
    hide Reusable;
    ExtendPages(pages[..blk], pages[blk]);
    assert pages[..blk + 1] == pages[..blk] + [pages[blk]];
  }

  /** What the cleanup of one block adds to the counts and to the free space map. */
  lemma CleanedBlock(opts: Options, pages: seq<Page>, blk: nat, fsm: set<nat>)
    requires BlocksOk(opts, pages) && 1 <= blk < |pages|
    ensures Reusable(pages[blk]) || pages[blk].DataPage?
    ensures |AllTuples(pages[..blk + 1])| ==
              |AllTuples(pages[..blk])| + if Reusable(pages[blk]) then 0 else |pages[blk].tuples|
    ensures |FreeBlocks(pages[..blk + 1])| == |FreeBlocks(pages[..blk])| + if Reusable(pages[blk]) then 1 else 0
    ensures fsm + FreeBlocks(pages[..blk + 1]) ==
              if Reusable(pages[blk]) then fsm + FreeBlocks(pages[..blk]) + {blk} else fsm + FreeBlocks(pages[..blk])
  {
    hide AllTuples, FreeBlocks, FreeSpace;
    assert PageOk(opts, pages[blk]);
    CountStep(pages, blk);
  }

  lemma FreeInFile(pages: seq<Page>)
    ensures forall b | b in FreeBlocks(pages) :: 1 <= b < |pages|
  {
  }

  lemma HoldsCount(state: BloomState, pages: seq<Page>, rows: seq<Row>)
    requires Holds(state, pages, rows)
    ensures |AllTuples(pages)| == |rows|
  {
    assert |multiset(AllTuples(pages))| == |multiset(TuplesOf(state, rows))|;
  }
}
