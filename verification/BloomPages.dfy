/** Tuples and pages of a Bloom index, and what single operations do to them
    (contrib/bloom/bloom.h, blutils.c, blvacuum.c). */
module BloomPages {
  import opened Wrappers
  import opened BloomRand
  import opened BloomSign

  // ---------------------------------------------------------------- tuples

  datatype BloomTuple = BloomTuple(heapPtr: nat, sign: seq<Word>)

  /** A table row as the index sees it: a heap pointer and column values, None for null. */
  datatype Row = Row(heapPtr: nat, values: seq<Option<int>>)

  predicate RowOk(state: BloomState, row: Row) { |row.values| == state.nColumns }

  /** The bits of the first n columns of a row. */
  ghost function ColumnBits(state: BloomState, values: seq<Option<int>>, n: nat): set<nat>
    requires state.Ok() && n <= |values| <= INDEX_MAX_KEYS
  {
    if n == 0 then {}
    else ColumnBits(state, values, n - 1) +
         (if values[n - 1].None? then {} else ValueBits(state, n - 1, values[n - 1].value))
  }

  ghost function RowBits(state: BloomState, row: Row): set<nat>
    requires state.Ok() && RowOk(state, row)
  {
    ColumnBits(state, row.values, |row.values|)
  }

  /** The words that hold a set of bits. */
  ghost function WordsOf(bits: set<nat>, length: nat): (sign: seq<Word>)
    ensures |sign| == length
    ensures Bits(sign) == set b | b in bits && b < WORD_BITS * length
  {
    var sign: seq<Word> := seq(length, k requires 0 <= k < length => WordAt(bits, k));
    assert forall b: nat | b < WORD_BITS * length :: sign[b / WORD_BITS][b % WORD_BITS] <==> b in bits by {
      forall b: nat | b < WORD_BITS * length ensures sign[b / WORD_BITS][b % WORD_BITS] <==> b in bits {
        assert WORD_BITS * (b / WORD_BITS) + b % WORD_BITS == b;
      }
    }
    sign
  }

  ghost function WordAt(bits: set<nat>, k: nat): (w: Word)
    ensures forall i | 0 <= i < 16 :: w[i] <==> WORD_BITS * k + i in bits
  {
    seq(16, i requires 0 <= i < 16 => WORD_BITS * k + i in bits)
  }

  /** The tuple that stands for a row. */
  ghost function TupleOf(state: BloomState, row: Row): BloomTuple
    requires state.Ok() && RowOk(state, row)
  {
    BloomTuple(row.heapPtr, WordsOf(RowBits(state, row), state.opts.bloomLength))
  }

  /** A signature is determined by its bits. */
  lemma SignByBits(a: seq<Word>, b: seq<Word>)
    requires |a| == |b| && Bits(a) == Bits(b)
    ensures a == b
  {
    forall k | 0 <= k < |a| ensures a[k] == b[k] {
      forall i | 0 <= i < 16 ensures a[k][i] == b[k][i] {
        var n := WORD_BITS * k + i;
        assert n / WORD_BITS == k && n % WORD_BITS == i;
        assert n in Bits(a) <==> n in Bits(b);
      }
    }
  }

  /** The bits of a row are the bits of its columns that are not null. */
  lemma {:induction false} ColumnBitsUnion(state: BloomState, values: seq<Option<int>>, n: nat, b: nat)
    requires state.Ok() && n <= |values| <= INDEX_MAX_KEYS
    ensures b in ColumnBits(state, values, n) <==>
              exists col: nat | col < n && values[col].Some? :: b in ValueBits(state, col, values[col].value)
  {
    hide ValueBits;
    if n > 0 { ColumnBitsUnion(state, values, n - 1, b); }
  }

  lemma {:induction false} ColumnBitsInside(state: BloomState, values: seq<Option<int>>, n: nat)
    requires state.Ok() && n <= |values| <= INDEX_MAX_KEYS
    ensures forall b | b in ColumnBits(state, values, n) :: b < state.opts.Length()
  {
    hide ValueDraws;
    if n > 0 { ColumnBitsInside(state, values, n - 1); }
  }

  lemma {:induction false} ColumnInRow(state: BloomState, values: seq<Option<int>>, n: nat, col: nat)
    requires state.Ok() && n <= |values| <= INDEX_MAX_KEYS && col < n && values[col].Some?
    ensures ValueBits(state, col, values[col].value) <= ColumnBits(state, values, n)
  {
    hide ValueBits;
    if col < n - 1 { ColumnInRow(state, values, n - 1, col); }
  }

  /** BloomFormTuple */
  method FormTuple(gen: Generator, state: BloomState, row: Row) returns (t: BloomTuple)
    requires state.Ok() && RowOk(state, row)
    modifies gen
    ensures t == TupleOf(state, row) && t.heapPtr == row.heapPtr
    ensures forall b: nat ::
              b in Bits(t.sign) <==>
              exists col: nat | col < |row.values| && row.values[col].Some? ::
                b in ValueBits(state, col, row.values[col].value)
  {
    hide Bits, ValueBits;
    var sign := new Word[state.opts.bloomLength](i => ZERO_WORD);
    NoBits(sign[..]);
    var i := 0;
    while i < state.nColumns
      invariant 0 <= i <= state.nColumns
      invariant Bits(sign[..]) == ColumnBits(state, row.values, i)
    {
      if row.values[i].Some? {
        SignValue(gen, state, sign, row.values[i].value, i);
      }
      i := i + 1;
    }
    t := BloomTuple(row.heapPtr, sign[..]);
    ColumnBitsInside(state, row.values, |row.values|);
    SignByBits(t.sign, TupleOf(state, row).sign);
    forall b: nat { ColumnBitsUnion(state, row.values, |row.values|, b); }
  }

  lemma NoBits(sign: seq<Word>)
    requires forall k | 0 <= k < |sign| :: sign[k] == ZERO_WORD
    ensures Bits(sign) == {}
  {
  }

  // ---------------------------------------------------------------- search keys

  /** One condition of a scan: column = value; None is a null argument. */
  datatype ScanKey = ScanKey(col: nat, value: Option<int>)

  predicate KeysOk(state: BloomState, keys: seq<ScanKey>) {
    forall i | 0 <= i < |keys| :: keys[i].col < state.nColumns
  }

  ghost function KeyBits(state: BloomState, keys: seq<ScanKey>): set<nat>
    requires state.Ok() && KeysOk(state, keys)
  {
    if keys == [] then {}
    else
      var k := keys[|keys| - 1];
      KeyBits(state, keys[..|keys| - 1]) + (if k.value.None? then {} else ValueBits(state, k.col, k.value.value))
  }

  /** The bits of the keys are the bits of those that are not null. */
  lemma {:induction false} KeyBitsUnion(state: BloomState, keys: seq<ScanKey>, b: nat)
    requires state.Ok() && KeysOk(state, keys)
    ensures b in KeyBits(state, keys) <==>
              exists i: nat | i < |keys| && keys[i].value.Some? ::
                b in ValueBits(state, keys[i].col, keys[i].value.value)
  {
    hide ValueBits;
    if keys != [] { KeyBitsUnion(state, keys[..|keys| - 1], b); }
  }

  predicate Satisfies(state: BloomState, row: Row, keys: seq<ScanKey>)
    requires RowOk(state, row) && KeysOk(state, keys)
  {
    forall i | 0 <= i < |keys| :: keys[i].value.Some? && row.values[keys[i].col] == keys[i].value
  }

  /** No false negatives: a row equal to all keys has every bit of the search signature. */
  lemma {:induction false} RowCoversKeys(state: BloomState, row: Row, keys: seq<ScanKey>)
    requires state.Ok() && RowOk(state, row) && KeysOk(state, keys) && Satisfies(state, row, keys)
    ensures KeyBits(state, keys) <= RowBits(state, row)
  {
    if keys != [] {
      RowCoversKeys(state, row, keys[..|keys| - 1]);
      ColumnInRow(state, row.values, |row.values|, keys[|keys| - 1].col);
    }
  }

  // ---------------------------------------------------------------- pages

  datatype Page = NewPage | MetaPage | DataPage(deleted: bool, tuples: seq<BloomTuple>)

  const PAGE_SPACE: nat := 8192 - 24 - 8
  const META_BLOCK_N: nat := 2004

  function TupleSize(opts: Options): nat { 6 + 2 * opts.bloomLength }

  function Live(p: Page): seq<BloomTuple> { if p.DataPage? then p.tuples else [] }

  function FreeSpace(opts: Options, p: Page): int { PAGE_SPACE - |Live(p)| * TupleSize(opts) }

  /** PageIsNew or BloomPageIsDeleted: the page may be taken and initialised again. */
  predicate Reusable(p: Page) { p.NewPage? || (p.DataPage? && p.deleted) }

  const EMPTY_PAGE := DataPage(false, [])

  /** The page an inserter works on: initialised again when nothing lives there. */
  function Ready(p: Page): Page { if Reusable(p) then EMPTY_PAGE else p }

  /** A deleted page is empty, and the tuples of a page fit on it. */
  predicate PageOk(opts: Options, p: Page) {
    !p.MetaPage? && FreeSpace(opts, p) >= 0 && (p.DataPage? && p.deleted ==> p.tuples == [])
  }

  /** BloomPageAddItem */
  function AddItem(opts: Options, p: Page, t: BloomTuple): (r: Option<Page>)
    requires p.DataPage? && !p.deleted
    ensures r.None? <==> (|p.tuples| + 1) * (6 + 2 * opts.bloomLength) > 8192 - 24 - 8
    ensures r.Some? ==> r.value.DataPage? && Live(r.value) == Live(p) + [t] && PageOk(opts, r.value)
  {
    SizeStep(|p.tuples|, TupleSize(opts));
    if FreeSpace(opts, p) < TupleSize(opts) then None
    else
      Some(DataPage(false, p.tuples + [t]))
  }

  lemma SizeStep(n: nat, size: nat)
    ensures (n + 1) * size == n * size + size
  {
  }

  /** An empty page always has room. */
  lemma EmptyHasRoom(opts: Options, t: BloomTuple)
    requires opts.Ok()
    ensures AddItem(opts, EMPTY_PAGE, t) == Some(DataPage(false, [t]))
  {
    assert FreeSpace(opts, EMPTY_PAGE) == PAGE_SPACE;
    assert EMPTY_PAGE.tuples + [t] == [t];
  }

  // ---------------------------------------------------------------- deletion

  /** The tuples bulk deletion keeps, in their order. */
  function Kept(tuples: seq<BloomTuple>, dead: set<nat>): (r: seq<BloomTuple>)
    ensures |r| <= |tuples|
    ensures r == tuples <==> forall k | 0 <= k < |tuples| :: tuples[k].heapPtr !in dead
  {
    if tuples == [] then []
    else
      var n := |tuples| - 1;
      var rest := Kept(tuples[..n], dead);
      assert tuples == tuples[..n] + [tuples[n]];
      if tuples[n].heapPtr in dead then rest else rest + [tuples[n]]
  }

  lemma {:induction false} KeptFull(tuples: seq<BloomTuple>, dead: set<nat>)
    requires |Kept(tuples, dead)| == |tuples|
    ensures Kept(tuples, dead) == tuples
  {
    if tuples != [] {
      var n := |tuples| - 1;
      assert tuples == tuples[..n] + [tuples[n]];
      KeptFull(tuples[..n], dead);
    }
  }

  /** The page after bulk deletion: emptied pages are marked deleted, untouched ones stay. */
  function Vacuumed(p: Page, dead: set<nat>): Page {
    if !p.DataPage? || p.deleted || Kept(p.tuples, dead) == p.tuples then p
    else DataPage(Kept(p.tuples, dead) == [], Kept(p.tuples, dead))
  }

  lemma {:induction false} KeptCount(tuples: seq<BloomTuple>, dead: set<nat>, t: BloomTuple)
    ensures multiset(Kept(tuples, dead))[t] == if t.heapPtr in dead then 0 else multiset(tuples)[t]
  {
    if tuples != [] {
      var n := |tuples| - 1;
      KeptCount(tuples[..n], dead, t);
      assert tuples == tuples[..n] + [tuples[n]];
    }
  }

  lemma {:induction false} KeptConcat(a: seq<BloomTuple>, b: seq<BloomTuple>, dead: set<nat>)
    ensures Kept(a + b, dead) == Kept(a, dead) + Kept(b, dead)
  {
    hide Kept;
    if b == [] {
      KeptNone(b, dead);
      assert a + b == a && b[..0] == b;
    } else {
      var n := |b| - 1;
      KeptConcat(a, b[..n], dead);
      KeptStep(a + b, |a| + n, dead);
      KeptStep(b, n, dead);
      assert (a + b)[..|a| + n] == a + b[..n];
      assert (a + b)[..|a| + n + 1] == a + b && b[..n + 1] == b;
    }
  }

  lemma KeptStep(tuples: seq<BloomTuple>, n: nat, dead: set<nat>)
    requires n < |tuples|
    ensures Kept(tuples[..n + 1], dead) ==
              Kept(tuples[..n], dead) + (if tuples[n].heapPtr in dead then [] else [tuples[n]])
  {
    assert tuples[..n + 1][..n] == tuples[..n];
  }

  lemma KeptNone(tuples: seq<BloomTuple>, dead: set<nat>)
    ensures Kept(tuples[..0], dead) == []
  {
  }

  /** The two-pointer loop of blbulkdelete over the page buffer: kept tuples move down in place. */
  method Compact(buf: array<BloomTuple>, maxoff: nat, dead: set<nat>) returns (left: nat)
    requires maxoff <= buf.Length
    modifies buf
    ensures left <= maxoff
    ensures buf[..left] == Kept(old(buf[..maxoff]), dead)
    ensures buf[maxoff..] == old(buf[maxoff..])
  {
    hide Kept;
    ghost var before := buf[..maxoff];
    KeptNone(before, dead);
    var itup, itupPtr := 0, 0;
    left := maxoff;
    while itup < maxoff
      invariant 0 <= itupPtr <= itup <= maxoff
      invariant left == maxoff - (itup - itupPtr)
      invariant buf[..itupPtr] == Kept(before[..itup], dead)
      invariant forall k | itup <= k < buf.Length :: buf[k] == old(buf[k])
    {
      KeptStep(before, itup, dead);
      ghost var kept := buf[..itupPtr];
      if buf[itup].heapPtr in dead {
        left := left - 1;
      } else {
        if itupPtr != itup { buf[itupPtr] := buf[itup]; }
        itupPtr := itupPtr + 1;
        assert buf[..itupPtr] == kept + [before[itup]];
      }
      itup := itup + 1;
    }
    assert before[..maxoff] == before;
  }
}
