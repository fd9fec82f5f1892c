/** The bitmap scan of the Bloom access method (contrib/bloom/blscan.c). */
module BloomScan {
  import opened Wrappers
  import opened Sequences
  import opened BloomRand
  import opened BloomSign
  import opened BloomPages
  import opened BloomIndex

  /** The heap pointers of the tuples whose signatures include `bits`, in order. */
  ghost function Found(tuples: seq<BloomTuple>, bits: set<nat>): seq<nat> {
    if tuples == [] then []
    else
      var n := |tuples| - 1;
      Found(tuples[..n], bits) + if bits <= Bits(tuples[n].sign) then [tuples[n].heapPtr] else []
  }

  lemma {:induction false} FoundConcat(a: seq<BloomTuple>, b: seq<BloomTuple>, bits: set<nat>)
    ensures Found(a + b, bits) == Found(a, bits) + Found(b, bits)
  {
    if b == [] {
      assert a + b == a;
    } else {
      var n := |b| - 1;
      assert (a + b)[..|a| + n] == a + b[..n];
      FoundConcat(a, b[..n], bits);
    }
  }

  lemma FoundNothing(bits: set<nat>)
    ensures Found([], bits) == []
  {
  }

  lemma FoundStep(tuples: seq<BloomTuple>, n: nat, bits: set<nat>)
    requires n < |tuples|
    ensures Found(tuples[..n + 1], bits) ==
              Found(tuples[..n], bits) + if bits <= Bits(tuples[n].sign) then [tuples[n].heapPtr] else []
  {
    assert tuples[..n + 1][..n] == tuples[..n];
  }

  lemma {:induction false} FoundIff(tuples: seq<BloomTuple>, bits: set<nat>, ptr: nat)
    ensures ptr in Found(tuples, bits) <==> exists t :: t in tuples && t.heapPtr == ptr && bits <= Bits(t.sign)
  {
    hide Bits;
    if tuples != [] {
      var n := |tuples| - 1;
      FoundIff(tuples[..n], bits, ptr);
      assert tuples == tuples[..n] + [tuples[n]];
    }
  }

  ghost predicate SignLengths(tuples: seq<BloomTuple>, length: nat) {
    forall k | 0 <= k < |tuples| :: |tuples[k].sign| == length
  }

  ghost predicate PagesSigned(pages: seq<Page>, length: nat) {
    forall b | 0 <= b < |pages| :: SignLengths(Live(pages[b]), length)
  }

  /** The loop over the scan keys: no signature when some key is null. */
  method SearchSign(gen: Generator, state: BloomState, keys: seq<ScanKey>) returns (r: Option<seq<Word>>)
    requires state.Ok() && KeysOk(state, keys)
    modifies gen
    ensures r.None? <==> exists i | 0 <= i < |keys| :: keys[i].value.None?
    ensures r.Some? ==> |r.value| == state.opts.bloomLength && Bits(r.value) == KeyBits(state, keys)
    ensures r.Some? ==> forall b: nat ::
                          b in Bits(r.value) <==>
                          exists i: nat | i < |keys| :: b in ValueBits(state, keys[i].col, keys[i].value.value)
  {
    hide Bits, ValueBits;
    var sign := new Word[state.opts.bloomLength](i => ZERO_WORD);
    NoBits(sign[..]);
    var i := 0;
    while i < |keys|
      invariant 0 <= i <= |keys| && Bits(sign[..]) == KeyBits(state, keys[..i])
      invariant forall j | 0 <= j < i :: keys[j].value.Some?
    {
      if keys[i].value.None? { return None; }
      SignValue(gen, state, sign, keys[i].value.value, keys[i].col);
      assert keys[..i + 1][..i] == keys[..i];
      i := i + 1;
    }
    assert keys[..i] == keys;
    r := Some(sign[..]);
    forall b: nat { KeyBitsUnion(state, keys, b); }
  }

  /** The word loop of the scan. */
  method Covers(t: BloomTuple, sign: seq<Word>) returns (res: bool)
    requires |t.sign| == |sign|
    ensures res <==> Bits(sign) <= Bits(t.sign)
  {
    WordsInclude(t.sign, sign);
    var i := 0;
    while i < |sign|
      invariant 0 <= i <= |sign| && forall k | 0 <= k < i :: And(t.sign[k], sign[k]) == sign[k]
    {
      if And(t.sign[i], sign[i]) != sign[i] { return false; }
      i := i + 1;
    }
    res := true;
  }

  method ScanPage(tuples: seq<BloomTuple>, sign: seq<Word>) returns (tbm: set<nat>, ntids: nat)
    requires SignLengths(tuples, |sign|)
    ensures tbm == Elements(Found(tuples, Bits(sign))) && ntids == |Found(tuples, Bits(sign))|
  {
    hide Bits, Found;
    tbm, ntids := {}, 0;
    FoundNothing(Bits(sign));
    var offset := 0;
    while offset < |tuples|
      invariant 0 <= offset <= |tuples|
      invariant tbm == Elements(Found(tuples[..offset], Bits(sign)))
      invariant ntids == |Found(tuples[..offset], Bits(sign))|
    {
      var res := Covers(tuples[offset], sign);
      FoundStep(tuples, offset, Bits(sign));
      if res {
        tbm := tbm + {tuples[offset].heapPtr};
        ntids := ntids + 1;
      }
      offset := offset + 1;
    }
    assert tuples[..offset] == tuples;
  }

  /** The block loop of blgetbitmap. */
  method ScanPages(pages: seq<Page>, sign: seq<Word>) returns (tbm: set<nat>, ntids: nat)
    requires |pages| > 0 && pages[0].MetaPage? && PagesSigned(pages, |sign|)
    requires forall b | 0 <= b < |pages| :: Reusable(pages[b]) ==> Live(pages[b]) == []
    requires forall b | 1 <= b < |pages| :: !pages[b].MetaPage?
    ensures tbm == Elements(Found(AllTuples(pages), Bits(sign)))
    ensures ntids == |Found(AllTuples(pages), Bits(sign))|
  {
    hide Bits, Found, AllTuples, Elements, SignLengths;
    tbm, ntids := {}, 0;
    CountStart(pages);
    FoundNothing(Bits(sign));
    ElementsEmpty();
    var blk := 1;
    while blk < |pages|
      invariant 1 <= blk <= |pages|
      invariant tbm == Elements(Found(AllTuples(pages[..blk]), Bits(sign)))
      invariant ntids == |Found(AllTuples(pages[..blk]), Bits(sign))|
    {
      CountStep(pages, blk);
      FoundConcat(AllTuples(pages[..blk]), Live(pages[blk]), Bits(sign));
      ElementsConcat(Found(AllTuples(pages[..blk]), Bits(sign)), Found(Live(pages[blk]), Bits(sign)));
      FoundNothing(Bits(sign));
      if !Reusable(pages[blk]) {
        var t, n := ScanPage(pages[blk].tuples, sign);
        tbm, ntids := tbm + t, ntids + n;
      }
      blk := blk + 1;
    }
    assert pages[..blk] == pages;
  }

  // ---------------------------------------------------------------- what a scan returns

  /** The heap pointers of the rows whose signatures include the search signature. */
  ghost predicate Candidate(state: BloomState, rows: seq<Row>, keys: seq<ScanKey>, ptr: nat)
    requires RowsOk(state, rows) && KeysOk(state, keys)
  {
    exists i | 0 <= i < |rows| :: rows[i].heapPtr == ptr && KeyBits(state, keys) <= RowBits(state, rows[i])
  }

  lemma {:induction false} TupleOnPage(pages: seq<Page>, t: BloomTuple)
    ensures t in AllTuples(pages) <==> exists b | 0 <= b < |pages| :: t in Live(pages[b])
  {
    hide Live;
    if pages != [] {
      var n := |pages| - 1;
      TupleOnPage(pages[..n], t);
      assert forall b | 0 <= b < n :: pages[..n][b] == pages[b];
    }
  }

  lemma HeldTuple(state: BloomState, pages: seq<Page>, rows: seq<Row>, t: BloomTuple)
    requires Holds(state, pages, rows)
    ensures t in AllTuples(pages) <==> exists i | 0 <= i < |rows| :: TupleOf(state, rows[i]) == t
  {
    hide AllTuples, TupleOf;
    var a, b := AllTuples(pages), TuplesOf(state, rows);
    assert t in a <==> t in multiset(a);
    assert t in b <==> t in multiset(b);
    assert forall i | 0 <= i < |rows| :: b[i] == TupleOf(state, rows[i]);
  }

  lemma TupleBits(state: BloomState, row: Row)
    requires state.Ok() && RowOk(state, row)
    ensures |TupleOf(state, row).sign| == state.opts.bloomLength && TupleOf(state, row).heapPtr == row.heapPtr
    ensures Bits(TupleOf(state, row).sign) == RowBits(state, row)
  {
    hide Bits, ColumnBits;
    ColumnBitsInside(state, row.values, |row.values|);
  }

  lemma HeldSigned(state: BloomState, pages: seq<Page>, rows: seq<Row>)
    requires Holds(state, pages, rows)
    ensures PagesSigned(pages, state.opts.bloomLength)
  {
    hide Holds, AllTuples, TupleOf;
    forall b, k | 0 <= b < |pages| && 0 <= k < |Live(pages[b])|
      ensures |Live(pages[b])[k].sign| == state.opts.bloomLength
    {
      var t := Live(pages[b])[k];
      TupleOnPage(pages, t);
      HeldTuple(state, pages, rows, t);
      HeldRows(state, pages, rows);
      var i :| 0 <= i < |rows| && TupleOf(state, rows[i]) == t;
      TupleBits(state, rows[i]);
    }
  }

  lemma HeldRows(state: BloomState, pages: seq<Page>, rows: seq<Row>)
    requires Holds(state, pages, rows)
    ensures RowsOk(state, rows)
  {
  }

  lemma FoundCandidates(state: BloomState, pages: seq<Page>, rows: seq<Row>, keys: seq<ScanKey>, ptr: nat)
    requires Holds(state, pages, rows) && KeysOk(state, keys)
    ensures RowsOk(state, rows)
    ensures ptr in Found(AllTuples(pages), KeyBits(state, keys)) <==> Candidate(state, rows, keys, ptr)
  {
    hide Holds, AllTuples, TupleOf, Found, KeyBits, RowBits, Bits;
    HeldRows(state, pages, rows);
    var bits := KeyBits(state, keys);
    FoundIff(AllTuples(pages), bits, ptr);
    if ptr in Found(AllTuples(pages), bits) {
      var t :| t in AllTuples(pages) && t.heapPtr == ptr && bits <= Bits(t.sign);
      HeldTuple(state, pages, rows, t);
      var i :| 0 <= i < |rows| && TupleOf(state, rows[i]) == t;
      TupleBits(state, rows[i]);
    }
    if Candidate(state, rows, keys, ptr) {
      var i :| 0 <= i < |rows| && rows[i].heapPtr == ptr && bits <= RowBits(state, rows[i]);
      TupleBits(state, rows[i]);
      HeldTuple(state, pages, rows, TupleOf(state, rows[i]));
    }
  }

  /** blgetbitmap: with a null key nothing; otherwise exactly the candidates, and among them every row
      that satisfies the keys. */
  method GetBitmap(index: BloomIndex, keys: seq<ScanKey>) returns (tbm: set<nat>, ntids: nat)
    requires index.Valid() && KeysOk(index.state, keys)
    modifies index.gen
    ensures index.Valid() && unchanged(index)
    ensures (exists i | 0 <= i < |keys| :: keys[i].value.None?) ==> tbm == {} && ntids == 0
    ensures (forall i | 0 <= i < |keys| :: keys[i].value.Some?) ==>
              && ntids == |Found(AllTuples(index.pages), KeyBits(index.state, keys))|
              && forall ptr :: ptr in tbm <==> Candidate(index.state, index.rows, keys, ptr)
    ensures forall i | 0 <= i < |index.rows| && Satisfies(index.state, index.rows[i], keys) ::
              index.rows[i].heapPtr in tbm
  {
    hide Bits, Found, AllTuples, Holds, KeyBits, RowBits;
    HeldRows(index.state, index.pages, index.rows);
    HeldSigned(index.state, index.pages, index.rows);
    var sign := SearchSign(index.gen, index.state, keys);
    if sign.None? { return {}, 0; }
    tbm, ntids := ScanPages(index.pages, sign.value);
    forall ptr ensures ptr in tbm <==> Candidate(index.state, index.rows, keys, ptr) {
      FoundCandidates(index.state, index.pages, index.rows, keys, ptr);
    }
    forall i | 0 <= i < |index.rows| && Satisfies(index.state, index.rows[i], keys)
      ensures Candidate(index.state, index.rows, keys, index.rows[i].heapPtr)
    {
      RowCoversKeys(index.state, index.rows[i], keys);
    }
  }
}
