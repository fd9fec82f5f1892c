/** The order of nbtree keys.  A truncated attribute, or a missing heap TID, stands for minus
    infinity, so keys are compared as sequences in lexicographic order with a proper prefix below
    every extension.  The comparison routines are shown to decide exactly that order. */
module BtreeOrder {
  import opened Wrappers
  import opened Sequences
  import opened BtreePages

  // ---------------------------------------------------------------- keys of tuples

  function TidPart(tid: Option<int>): (r: seq<int>)
    ensures |r| <= 1
  {
    if tid.Some? then [tid.value] else []
  }

  function Key(t: Tuple): seq<int> { t.atts + TidPart(t.tid) }

  /** A tuple that keeps its heap TID only when no key attribute was truncated. */
  predicate TupleOk(nkeyatts: nat, t: Tuple) {
    |t.atts| <= nkeyatts && (t.tid.Some? ==> |t.atts| == nkeyatts)
  }

  /** An insertion scan key: a prefix of the key attributes, and the heap TID when it is set. */
  datatype ScanKey = ScanKey(atts: seq<int>, scantid: Option<int>, nextkey: bool, backward: bool)
  {
    predicate Ok(nkeyatts: nat) {
      && |atts| <= nkeyatts
      && (scantid.Some? ==> |atts| == nkeyatts && !nextkey)
    }

    function Key(): seq<int> { atts + TidPart(scantid) }
  }

  /** bt_mkscankey_pivotsearch */
  function PivotSearchKey(t: Tuple): ScanKey { ScanKey(t.atts, t.tid, false, true) }

  /** _bt_mkscankey */
  function InsertKey(t: Tuple): ScanKey { ScanKey(t.atts, t.tid, false, false) }

  function CompareInt(a: int, b: int): int {
    if a < b then -1 else if a > b then 1 else 0
  }

  /** The attributes both sides have, first difference first. */
  function CompareAtts(a: seq<int>, b: seq<int>): int {
    if a == [] || b == [] then 0
    else if a[0] != b[0] then CompareInt(a[0], b[0])
    else CompareAtts(a[1..], b[1..])
  }

  /** _bt_compare against a tuple that is not the negative infinity item of its page. */
  function CompareTuple(key: ScanKey, t: Tuple): int {
    var r := CompareAtts(key.atts, t.atts);
    if r != 0 then r
    else if |key.atts| > |t.atts| then 1
    else if key.scantid.None? then
      if !key.backward && |key.atts| == |t.atts| && t.tid.None? then 1 else 0
    else if t.tid.None? then 1
    else CompareInt(key.scantid.value, t.tid.value)
  }

  /** _bt_compare */
  function Compare(key: ScanKey, p: Page, off: nat): int
    requires p.HasItem(off)
  {
    if p.NegativeInfinity(off) then 1 else CompareTuple(key, p.Item(off))
  }

  /** invariant_leq_offset */
  predicate InvariantLeq(key: ScanKey, p: Page, off: nat)
    requires p.HasItem(off)
  {
    Compare(key, p, off) <= 0
  }

  /** invariant_g_offset */
  predicate InvariantG(key: ScanKey, p: Page, off: nat)
    requires p.HasItem(off)
  {
    Compare(key, p, off) > 0
  }

  /** invariant_l_offset and invariant_l_nontarget_offset: a tie is broken as if the attributes the
      scan key lacks were minus infinity.  A tuple of the wrong kind for its slot is an error, which
      the callers report like a failed invariant. */
  predicate InvariantL(key: ScanKey, p: Page, off: nat)
    requires p.HasItem(off)
  {
    var cmp := Compare(key, p, off);
    if cmp == 0 then
      var t := p.Item(off);
      var nonpivot := p.leaf && off >= p.FirstDataKey();
      && t.pivot == !nonpivot
      && (nonpivot ==> t.tid.Some?)
      && if |key.atts| == |t.atts| then key.scantid.None? && t.tid.Some?
         else |key.atts| < |t.atts|
    else cmp < 0
  }

  // ---------------------------------------------------------------- comparisons decide the order

  lemma {:induction false} LexByAtts(a: seq<int>, x: seq<int>, b: seq<int>, y: seq<int>)
    requires |a| < |b| ==> x == []
    requires |b| < |a| ==> y == []
    ensures LexLess(a + x, b + y) <==>
              || CompareAtts(a, b) < 0
              || (CompareAtts(a, b) == 0 && (|a| < |b| || (|a| == |b| && LexLess(x, y))))
    decreases |a|
  {
    if a == [] || b == [] {
      assert [] + x == x && [] + y == y;
    } else {
      assert (a + x)[1..] == a[1..] + x && (b + y)[1..] == b[1..] + y;
      if a[0] == b[0] { LexByAtts(a[1..], x, b[1..], y); }
    }
  }

  lemma {:induction false} CompareAttsFlip(a: seq<int>, b: seq<int>)
    ensures CompareAtts(a, b) == -CompareAtts(b, a)
    ensures CompareAtts(a, b) == 0 && |a| == |b| ==> a == b
  {
    if a != [] && b != [] {
      CompareAttsFlip(a[1..], b[1..]);
      if CompareAtts(a, b) == 0 && |a| == |b| {
        assert a == [a[0]] + a[1..] == [b[0]] + b[1..] == b;
      }
    }
  }

  /** The keys amcheck builds compare in key order, with the tie broken towards minus infinity. */
  lemma PivotSearchDecides(nkeyatts: nat, u: Tuple, t: Tuple)
    requires TupleOk(nkeyatts, u) && TupleOk(nkeyatts, t)
    ensures CompareTuple(PivotSearchKey(u), t) > 0 <==> LexLess(Key(t), Key(u))
    ensures CompareTuple(PivotSearchKey(u), t) <= 0 <==> LexLeq(Key(u), Key(t))
  {
    LexByAtts(t.atts, TidPart(t.tid), u.atts, TidPart(u.tid));
    CompareAttsFlip(u.atts, t.atts);
  }

  /** invariant_l_offset is strict order of the keys, truncated ones included; the converse needs
      the tuple to be of the kind its slot calls for. */
  lemma InvariantLDecides(nkeyatts: nat, u: Tuple, p: Page, off: nat)
    requires p.HasItem(off) && !p.NegativeInfinity(off)
    requires TupleOk(nkeyatts, u) && TupleOk(nkeyatts, p.Item(off))
    ensures InvariantL(PivotSearchKey(u), p, off) ==> LexLess(Key(u), Key(p.Item(off)))
    ensures p.Item(off).pivot == !(p.leaf && off >= p.FirstDataKey()) &&
            (!p.Item(off).pivot ==> p.Item(off).tid.Some?) ==>
              (InvariantL(PivotSearchKey(u), p, off) <==> LexLess(Key(u), Key(p.Item(off))))
  {
    var t := p.Item(off);
    LexByAtts(u.atts, TidPart(u.tid), t.atts, TidPart(t.tid));
    CompareAttsFlip(u.atts, t.atts);
  }

  /** The tuple lies left of where the scan key belongs: the test of _bt_moveright and _bt_binsrch. */
  predicate GoesRight(key: ScanKey, t: Tuple) {
    CompareTuple(key, t) >= if key.nextkey then 0 else 1
  }

  /** What GoesRight means on keys, for every kind of scan key. */
  lemma GoesRightDecides(nkeyatts: nat, key: ScanKey, t: Tuple)
    requires key.Ok(nkeyatts) && TupleOk(nkeyatts, t)
    ensures GoesRight(key, t) <==>
              if key.nextkey then LexLess(Key(t), key.Key()) || key.Key() <= Key(t)
              else if key.scantid.Some? || key.backward then LexLess(Key(t), key.Key())
              else LexLeq(Key(t), key.Key())
  {
    LexByAtts(t.atts, TidPart(t.tid), key.atts, TidPart(key.scantid));
    LexByAtts(key.atts, TidPart(key.scantid), t.atts, TidPart(t.tid));
    CompareAttsFlip(key.atts, t.atts);
    LexTotal(Key(t), key.Key());
    if key.nextkey {
      assert key.Key() == key.atts;
      AttsPrefix(key.atts, t.atts);
    }
  }

  lemma {:induction false} AttsPrefix(a: seq<int>, b: seq<int>)
    ensures CompareAtts(a, b) == 0 && |a| <= |b| <==> a <= b
  {
    if a != [] && b != [] {
      AttsPrefix(a[1..], b[1..]);
      if a[0] == b[0] && a[1..] <= b[1..] {
        assert a == [a[0]] + a[1..] && b == [b[0]] + b[1..];
      }
      if a <= b { assert a[1..] <= b[1..]; }
    }
  }

  /** Everything at or below a tuple the search passes is passed as well. */
  lemma GoesRightDownward(nkeyatts: nat, key: ScanKey, s: Tuple, t: Tuple)
    requires key.Ok(nkeyatts) && TupleOk(nkeyatts, s) && TupleOk(nkeyatts, t)
    requires LexLeq(Key(s), Key(t)) && GoesRight(key, t)
    ensures GoesRight(key, s)
  {
    GoesRightDecides(nkeyatts, key, s);
    GoesRightDecides(nkeyatts, key, t);
    if key.nextkey {
      if key.Key() <= Key(t) {
        PrefixCut(key.Key(), Key(s), Key(t));
      } else {
        LexLeqLess(Key(s), Key(t), key.Key());
      }
    } else if key.scantid.Some? || key.backward {
      LexLeqLess(Key(s), Key(t), key.Key());
    } else {
      LexLeqLeq(Key(s), Key(t), key.Key());
    }
  }
}
