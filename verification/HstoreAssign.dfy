/** Assignment to an hstore subscript (contrib/hstore/hstore_subs.c): the new pair is merged into the
    sorted entries of the old value, in freshly allocated entry words and string area, with the macros
    HS_ADDITEM, HS_COPYITEM and HS_FINALIZE of contrib/hstore/hstore.h. */
module HstoreAssign {
  import opened Wrappers
  import opened Machine
  import opened Sequences
  import opened HstoreFormat

  // ---------------------------------------------------------------- values

  /** Keys are ordered by length, then by bytes. */
  predicate KeyLess(a: seq<int>, b: seq<int>) { |a| < |b| || (|a| == |b| && LexLess(a, b)) }

  /** A flagged hstore value: its count, entry words and string area. */
  datatype Value = Value(count: nat, ws: seq<Word>, str: seq<int>)

  predicate Precedes(ps: seq<Pair>, i: nat)
    requires i + 1 < |ps|
  {
    KeyLess(ps[i].key, ps[i + 1].key)
  }

  ghost predicate Ascending(ps: seq<Pair>) { forall i: nat | i + 1 < |ps| :: Precedes(ps, i) }

  /** Entry words that run through the string area without a gap, with no null key. */
  ghost predicate Runs(ws: seq<Word>, n: nat, len: nat) {
    && 2 * n <= |ws| && NewEnd(ws, n) == len
    && (forall k: nat | 0 < k < 2 * n :: NewContinues(ws, k))
    && (forall i: nat | i < n :: !IsNull(ws[2 * i]))
  }

  ghost function Pairs(v: Value): seq<Pair>
    requires 2 * v.count <= |v.ws|
  {
    DecodeNew(v.ws, v.count, v.str)
  }

  ghost predicate WellFormed(v: Value) {
    && v.count < 0x1000_0000 && |v.ws| == 2 * v.count
    && Runs(v.ws, v.count, |v.str|) && (v.count > 0 ==> IsFirst(v.ws[0]))
    && Ascending(Pairs(v))
  }

  // ---------------------------------------------------------------- the merge on pairs

  ghost function Merged(ps: seq<Pair>, p: Pair): seq<Pair> {
    if ps == [] then [p]
    else if KeyLess(ps[0].key, p.key) then [ps[0]] + Merged(ps[1..], p)
    else if ps[0].key == p.key then [p] + ps[1..]
    else [p] + ps
  }

  /** The map an hstore stands for; a null value is kept apart from a missing key. */
  ghost function AsMap(ps: seq<Pair>): map<seq<int>, Option<seq<int>>> {
    if ps == [] then map[] else AsMap(ps[1..])[ps[0].key := ps[0].val]
  }

  /** Merging a pair is updating the map at its key. */
  lemma {:induction false} MergedUpdates(ps: seq<Pair>, p: Pair)
    requires Ascending(ps)
    ensures AsMap(Merged(ps, p)) == AsMap(ps)[p.key := p.val]
  {
    if ps == [] {
      assert [p][1..] == [];
    } else if KeyLess(ps[0].key, p.key) {
      AscendingTail(ps);
      MergedUpdates(ps[1..], p);
      assert Merged(ps, p)[1..] == Merged(ps[1..], p);
      LexTotal(ps[0].key, p.key);
    } else if ps[0].key == p.key {
      assert ([p] + ps[1..])[1..] == ps[1..];
    } else {
      assert ([p] + ps)[1..] == ps;
    }
  }

  lemma AscendingTail(ps: seq<Pair>)
    requires ps != [] && Ascending(ps)
    ensures Ascending(ps[1..])
  {
    forall i: nat | i + 1 < |ps[1..]| ensures Precedes(ps[1..], i) { assert Precedes(ps, i + 1); }
  }

  lemma AscendingCons(p: Pair, ps: seq<Pair>)
    requires Ascending(ps) && (ps != [] ==> KeyLess(p.key, ps[0].key))
    ensures Ascending([p] + ps)
  {
    var m := [p] + ps;
    forall i: nat | i + 1 < |m| ensures Precedes(m, i) {
      if i > 0 { assert Precedes(ps, i - 1); }
    }
  }

  /** Merging keeps the keys strictly ascending. */
  lemma {:induction false} MergedAscends(ps: seq<Pair>, p: Pair)
    requires Ascending(ps)
    ensures Ascending(Merged(ps, p))
    ensures Merged(ps, p) != [] && (Merged(ps, p)[0] == p || (ps != [] && Merged(ps, p)[0] == ps[0]))
  {
    hide Ascending;
    if ps == [] {
      AscendingSingle(p);
    } else {
      AscendingTail(ps);
      LexTotal(ps[0].key, p.key);
      SecondAbove(ps);
      if KeyLess(ps[0].key, p.key) {
        MergedAscends(ps[1..], p);
        AscendingCons(ps[0], Merged(ps[1..], p));
      } else if ps[0].key == p.key {
        AscendingCons(p, ps[1..]);
      } else {
        AscendingCons(p, ps);
      }
    }
  }

  lemma AscendingSingle(p: Pair)
    ensures Ascending([p])
  {
  }

  lemma SecondAbove(ps: seq<Pair>)
    requires Ascending(ps)
    ensures |ps| > 1 ==> KeyLess(ps[0].key, ps[1].key)
  {
    assert |ps| > 1 ==> Precedes(ps, 0);
  }

  // ---------------------------------------------------------------- building a value

  /** Words under construction: no flag on the first one yet. */
  ghost predicate Built(ws: seq<Word>, n: nat, str: seq<int>, pairs: seq<Pair>) {
    && Runs(ws, n, |str|) && (n > 0 ==> !IsFirst(ws[0])) && DecodeNew(ws, n, str) == pairs
  }

  /** More words and more bytes do not change the pairs there are. */
  lemma PairKept(ws: seq<Word>, n: nat, str: seq<int>, ws': seq<Word>, str': seq<int>, i: nat)
    requires Runs(ws, n, |str|) && i < n && |ws'| == |ws| && ws'[..2 * n] == ws[..2 * n] && str <= str'
    ensures NewPair(ws', str', i) == NewPair(ws, str, i)
  {
    hide IsFirst, IsNull, EndPos;
    EndsWithin(ws, n, |str|, 2 * i);
    EndsWithin(ws, n, |str|, 2 * i + 1);
    WordKept(ws, ws', n, 2 * i);
    WordKept(ws, ws', n, 2 * i + 1);
    if i > 0 { WordKept(ws, ws', n, 2 * i - 1); }
    SliceKept(str, str', Off(ws, 2 * i), EndPos(ws[2 * i]));
    SliceKept(str, str', Off(ws, 2 * i + 1), EndPos(ws[2 * i + 1]));
  }

  lemma SliceKept(str: seq<int>, str': seq<int>, from: nat, to: nat)
    requires str <= str' && to <= |str|
    ensures Slice(str', from, to) == Slice(str, from, to)
  {
    assert str == str'[..|str|];
  }

  lemma WordKept(ws: seq<Word>, ws': seq<Word>, n: nat, k: nat)
    requires 2 * n <= |ws| == |ws'| && ws'[..2 * n] == ws[..2 * n] && k < 2 * n
    ensures ws'[k] == ws[k]
  {
    assert ws'[k] == ws'[..2 * n][k];
  }

  /** Appending the two words of a pair, and its bytes, appends the pair. */
  lemma AppendPair(ws: seq<Word>, n: nat, str: seq<int>, pairs: seq<Pair>, ws': seq<Word>, key: seq<int>,
                   val: seq<int>, isnull: bool)
    requires Built(ws, n, str, pairs) && 2 * n + 2 <= |ws| && |str| + |key| + |val| < TWO_30
    requires ws' == ws[2 * n := |str| + |key|]
                      [2 * n + 1 := |str| + |key| + |val| + if isnull then TWO_30 else 0]
    ensures Built(ws', n + 1, str + key + val, pairs + [Pair(key, if isnull then None else Some(val))])
  {
    hide IsFirst, IsNull, EndPos;
    WordFields(|str| + |key|, false, false);
    WordFields(|str| + |key| + |val|, isnull, false);
    var str' := str + key + val;
    assert ws'[..2 * n] == ws[..2 * n];
    assert Runs(ws', n + 1, |str'|) by { RunsOn(ws, n, |str|, ws', |str'|); }
    forall i: nat | i < n ensures NewPair(ws', str', i) == pairs[i] {
      PairKept(ws, n, str, ws', str', i);
      assert DecodeNew(ws, n, str)[i] == NewPair(ws, str, i);
    }
    LastPair(ws', n, str, key, val, isnull);
    assert n > 0 ==> ws'[0] == ws[0];
  }

  lemma RunsOn(ws: seq<Word>, n: nat, len: nat, ws': seq<Word>, len': nat)
    requires Runs(ws, n, len) && |ws'| == |ws| && 2 * n + 2 <= |ws| && ws'[..2 * n] == ws[..2 * n]
    requires len <= EndPos(ws'[2 * n]) <= EndPos(ws'[2 * n + 1]) == len' && !IsNull(ws'[2 * n])
    requires !IsFirst(ws'[2 * n]) && !IsFirst(ws'[2 * n + 1])
    ensures Runs(ws', n + 1, len')
  {
    hide IsFirst, IsNull, EndPos;
    forall k: nat | 0 < k < 2 * (n + 1) ensures NewContinues(ws', k) {
      if k < 2 * n {
        assert NewContinues(ws, k);
        WordKept(ws, ws', n, k);
        WordKept(ws, ws', n, k - 1);
      } else if k == 2 * n {
        WordKept(ws, ws', n, k - 1);
      }
    }
    forall i: nat | i < n + 1 ensures !IsNull(ws'[2 * i]) {
      if i < n { WordKept(ws, ws', n, 2 * i); }
    }
  }

  lemma LastPair(ws: seq<Word>, n: nat, str: seq<int>, key: seq<int>, val: seq<int>, isnull: bool)
    requires Runs(ws, n + 1, |str| + |key| + |val|) && NewEnd(ws, n) == |str| && !IsFirst(ws[0])
    requires EndPos(ws[2 * n]) == |str| + |key| && (IsNull(ws[2 * n + 1]) <==> isnull)
    ensures NewPair(ws, str + key + val, n) == Pair(key, if isnull then None else Some(val))
  {
    hide IsFirst, IsNull, EndPos;
    assert NewContinues(ws, 2 * n + 1) && (n > 0 ==> NewContinues(ws, 2 * n));
    var str' := str + key + val;
    assert str'[|str|..|str| + |key|] == key;
    assert str'[|str| + |key|..|str| + |key| + |val|] == val;
  }

  lemma {:induction false} EndsWithin(ws: seq<Word>, n: nat, len: nat, k: nat)
    requires Runs(ws, n, len) && k < 2 * n
    ensures EndPos(ws[k]) <= len
    decreases 2 * n - k
  {
    if k + 1 < 2 * n {
      assert NewContinues(ws, k + 1);
      EndsWithin(ws, n, len, k + 1);
    }
  }

  /** An hstore under construction.  `area` begins where the string area of a value with one pair fewer
      would begin, so the string area being filled starts 8 bytes into it. */
  class Builder {
    const words: array<Word>
    const area: array<int>
    var n: nat
    var pd: nat
    ghost var pairs: seq<Pair>

    constructor (maxCount: nat, maxBytes: nat)
      ensures Valid() && n == 0 && pd == 0 && pairs == []
      ensures fresh(words) && fresh(area) && words.Length == 2 * maxCount && area.Length == 8 + maxBytes
    {
      words := new Word[2 * maxCount](i => 0);
      area := new int[8 + maxBytes](i => 0);
      n, pd, pairs := 0, 0, [];
    }

    ghost predicate Valid()
      reads this, words, area
    {
      8 + pd <= area.Length && Built(words[..], n, area[8..8 + pd], pairs)
    }

    /** The writes HS_ADDITEM and HS_COPYITEM have in common: the bytes of a key and a value, then the two
        entry words. */
    method Append(key: seq<int>, val: seq<int>, isnull: bool)
      requires Valid() && 2 * n + 2 <= words.Length && 8 + pd + |key| + |val| <= area.Length
      requires pd + |key| + |val| < TWO_30
      modifies this, words, area
      ensures Valid() && n == old(n) + 1 && pd == old(pd) + |key| + |val|
      ensures pairs == old(pairs) + [Pair(key, if isnull then None else Some(val))]
    {
      hide Built, EndPos, IsNull, IsFirst;
      ghost var ws, str := words[..], area[8..8 + pd];
      CopyBytes(area, 8 + pd, key + val);
      assert area[8..8 + pd + |key| + |val|] == str + (key + val) by {
        assert area[8..8 + pd] == str;
        assert area[8 + pd..8 + pd + |key| + |val|] == key + val;
      }
      assert str + (key + val) == str + key + val;
      pd := pd + |key| + |val|;
      WordFields(pd - |val|, false, false);
      WordFields(pd, isnull, false);
      words[2 * n] := (pd - |val|) % TWO_30;
      words[2 * n + 1] := pd % TWO_30 + if isnull then TWO_30 else 0;
      AppendPair(ws, n, str, pairs, words[..], key, val, isnull);
      n := n + 1;
      pairs := pairs + [Pair(key, if isnull then None else Some(val))];
    }

    /** HS_FINALIZE, for room for `room` pairs of which at most one was not used: the string area moves
        down over the unused entry. */
    method Finalize(room: nat) returns (v: Value)
      requires Valid() && words.Length == 2 * room && 1 <= n <= room <= n + 1 && n < 0x1000_0000
      requires Ascending(pairs)
      modifies words, area
      ensures WellFormed(v) && v.count == n && Pairs(v) == pairs && |v.str| == pd
    {
      hide Built, Runs, DecodeNew, Ascending, IsFirst, Pairs;
      ghost var ws, str := words[..], area[8..8 + pd];
      FlagFirst(ws, n, str, pairs);
      words[0] := words[0] + TWO_31;
      var out, text := words[..2 * n], area[8..8 + pd];
      assert out == ws[0 := ws[0] + TWO_31][..2 * n];
      if n != room {
        forall i | 0 <= i < pd { area[i] := area[i + 8]; }
        text := area[..pd];
        assert text == str;
      }
      v := Value(n, out, text);
      Finished(v, pairs);
    }
  }

  lemma Finished(v: Value, pairs: seq<Pair>)
    requires 1 <= v.count < 0x1000_0000 && |v.ws| == 2 * v.count && Runs(v.ws, v.count, |v.str|) && IsFirst(v.ws[0])
    requires DecodeNew(v.ws, v.count, v.str) == pairs && Ascending(pairs)
    ensures WellFormed(v) && Pairs(v) == pairs
  {
  }

  /** Setting the ISFIRST flag completes the words. */
  lemma FlagFirst(ws: seq<Word>, n: nat, str: seq<int>, pairs: seq<Pair>)
    requires Built(ws, n, str, pairs) && n > 0
    ensures ws[0] < TWO_31
    ensures var done := ws[0 := ws[0] + TWO_31][..2 * n];
            Runs(done, n, |str|) && IsFirst(done[0]) && DecodeNew(done, n, str) == pairs
  {
    var done := ws[0 := ws[0] + TWO_31][..2 * n];
    FlagFields(ws[0]);
    assert forall k | 0 < k < 2 * n :: done[k] == ws[k];
    forall k: nat | 0 < k < 2 * n ensures NewContinues(done, k) { assert NewContinues(ws, k); }
    forall i: nat | i < n ensures NewPair(done, str, i) == pairs[i] {
      assert DecodeNew(ws, n, str)[i] == NewPair(ws, str, i);
    }
  }

  lemma FlagFields(w: Word)
    requires !IsFirst(w)
    ensures var f: Word := w + TWO_31; EndPos(f) == EndPos(w) && (IsNull(f) <==> IsNull(w)) && IsFirst(f)
  {
  }

  /** memcpy */
  method CopyBytes(area: array<int>, at: nat, bytes: seq<int>)
    requires at + |bytes| <= area.Length
    modifies area
    ensures area[..at] == old(area[..at]) && area[at..at + |bytes|] == bytes
    ensures area[at + |bytes|..] == old(area[at + |bytes|..])
  {
    forall i | 0 <= i < |bytes| { area[at + i] := bytes[i]; }
  }

  // ---------------------------------------------------------------- the assignment

  /** Where entry s of a well-formed value lies, as the HSE macros compute it. */
  lemma EntryAt(v: Value, s: nat)
    requires WellFormed(v) && s < v.count
    ensures Off(v.ws, 2 * s) == NewEnd(v.ws, s) && Off(v.ws, 2 * s + 1) == EndPos(v.ws[2 * s])
    ensures NewEnd(v.ws, s) <= EndPos(v.ws[2 * s]) <= EndPos(v.ws[2 * s + 1]) == NewEnd(v.ws, s + 1) <= |v.str|
    ensures var from, mid, to := NewEnd(v.ws, s), EndPos(v.ws[2 * s]), EndPos(v.ws[2 * s + 1]);
            Pairs(v)[s] == Pair(v.str[from..mid], if IsNull(v.ws[2 * s + 1]) then None else Some(v.str[mid..to]))
  {
    hide IsFirst, IsNull, EndPos, Ascending;
    EndsWithin(v.ws, v.count, |v.str|, 2 * s + 1);
    assert NewContinues(v.ws, 2 * s + 1) && (s > 0 ==> NewContinues(v.ws, 2 * s));
    assert Pairs(v)[s] == NewPair(v.ws, v.str, s);
  }

  /** A well-formed value passes the validity test for the new format, with the length it has or any padding. */
  lemma WellFormedValid(v: Value, varsize: nat)
    requires WellFormed(v) && v.count > 0
    ensures NewShape(v.ws, v.count) && NewEnd(v.ws, v.count) == |v.str|
    ensures NewOk(v.count, v.ws, varsize) <==> 8 * v.count + 8 + |v.str| <= varsize
  {
    hide EndPos, IsNull, IsFirst, Off;
    forall i: nat | 0 < i < v.count ensures NewKeysOrdered(v.ws, i) {
      EntryAt(v, i - 1);
      EntryAt(v, i);
      assert Precedes(Pairs(v), i - 1);
    }
  }

  /** What the loop has still to write. */
  ghost function Rest(ps: seq<Pair>, s1idx: nat, s2idx: nat, p: Pair): seq<Pair>
    requires s1idx <= |ps|
  {
    if s2idx == 0 then Merged(ps[s1idx..], p) else ps[s1idx..]
  }

  /** The comparison of the loop. */
  function Difference(key: seq<int>, pkey: seq<int>): int {
    if |key| == |pkey| then (if key == pkey then 0 else if LexLess(key, pkey) then -1 else 1)
    else if |key| > |pkey| then 1 else -1
  }

  /** The merge loop. */
  method MergeLoop(hs: Value, key: seq<int>, val: Option<seq<int>>, b: Builder)
    requires WellFormed(hs) && b.Valid() && b.n == 0 && b.pairs == [] && b.pd == 0
    requires b.words.Length == 2 * (hs.count + 1)
    requires 8 + |hs.str| + |key| + (if val.Some? then |val.value| else 0) <= b.area.Length < TWO_30
    modifies b, b.words, b.area
    ensures b.Valid() && b.pairs == Merged(Pairs(hs), Pair(key, val)) && hs.count <= b.n <= hs.count + 1 && b.n >= 1
  {
    hide WellFormed, Merged, Pairs, Rest, Ascending, Built, Off, EndPos, IsNull, NewEnd, Difference;
    ValueFacts(hs);
    var bytes := if val.Some? then val.value else [];
    ghost var ps, p := Pairs(hs), Pair(key, val);
    var s1idx, s2idx := 0, 0;
    RestStart(ps, p);
    while s1idx < hs.count || s2idx < 1
      invariant 0 <= s1idx <= hs.count && 0 <= s2idx <= 1 && b.Valid()
      invariant b.pairs + Rest(ps, s1idx, s2idx, p) == Merged(ps, p)
      invariant s1idx <= b.n <= s1idx + s2idx && s2idx <= b.n
      invariant b.pd <= NewEnd(hs.ws, s1idx) + if s2idx == 1 then |key| + |bytes| else 0
      decreases hs.count - s1idx + 1 - s2idx
    {
      var difference := 1;
      if s1idx < hs.count {
        EntryAt(hs, s1idx);
        difference := if s2idx >= 1 then -1
                      else Difference(hs.str[Off(hs.ws, 2 * s1idx)..EndPos(hs.ws[2 * s1idx])], key);
      }
      EndInside(hs, s1idx);
      RestStep(ps, s1idx, s2idx, p, difference);
      if difference >= 0 {
        b.Append(key, bytes, val.None?);
        s2idx := s2idx + 1;
        if difference == 0 { s1idx := s1idx + 1; }
      } else {
        var from, mid, to := Off(hs.ws, 2 * s1idx), EndPos(hs.ws[2 * s1idx]), EndPos(hs.ws[2 * s1idx + 1]);
        b.Append(hs.str[from..mid], hs.str[mid..to], IsNull(hs.ws[2 * s1idx + 1]));
        s1idx := s1idx + 1;
      }
    }
    RestEnd(ps, p);
  }

  /** hstore_subscript_assign on a value that is not null.  No result stands for the error when the
      allocation exceeds its limit; a null value to assign is `None`. */
  method Assign(hs: Value, key: seq<int>, val: Option<seq<int>>) returns (r: Option<Value>)
    requires WellFormed(hs) && DataSize(hs.count, |hs.str|) < TWO_30
    requires |key| < TWO_30 && (val.Some? ==> |val.value| < TWO_30)
    ensures r.None? <==>
              16 * hs.count + 24 + |hs.str| + |key| + (if val.Some? then |val.value| else 0) >= 0x4000_0000
    ensures r.Some? ==> WellFormed(r.value) && Pairs(r.value) == Merged(Pairs(hs), Pair(key, val))
    ensures r.Some? ==> AsMap(Pairs(r.value)) == AsMap(Pairs(hs))[key := val]
  {
    hide WellFormed, Merged, Pairs, Ascending, Built, AsMap;
    ValueFacts(hs);
    var vsize := ToInt32(AllocSize(hs, key, val));
    if vsize < 0 || vsize >= TWO_30 { return None; }
    var b := new Builder(hs.count + 1, DataSize(hs.count, |hs.str|) + |key| + if val.Some? then |val.value| else 0);
    MergeLoop(hs, key, val, b);
    MergedAscends(Pairs(hs), Pair(key, val));
    MergedUpdates(Pairs(hs), Pair(key, val));
    var v := b.Finalize(hs.count + 1);
    return Some(v);
  }

  /** The size allocated, which does not consider that the key may exist. */
  function AllocSize(hs: Value, key: seq<int>, val: Option<seq<int>>): nat {
    DataSize(hs.count + 1, DataSize(hs.count, |hs.str|) + |key| + if val.Some? then |val.value| else 0)
  }

  lemma EndInside(v: Value, s: nat)
    requires WellFormed(v) && s <= v.count
    ensures NewEnd(v.ws, s) <= |v.str|
  {
    if s > 0 { EntryAt(v, s - 1); }
  }

  lemma ValueFacts(v: Value)
    requires WellFormed(v)
    ensures v.count < 0x1000_0000 && |v.ws| == 2 * v.count && |Pairs(v)| == v.count && Ascending(Pairs(v))
    ensures NewEnd(v.ws, v.count) == |v.str|
  {
  }

  lemma RestStart(ps: seq<Pair>, p: Pair)
    ensures [] + Rest(ps, 0, 0, p) == Merged(ps, p)
  {
    assert ps[0..] == ps;
  }

  lemma RestEnd(ps: seq<Pair>, p: Pair)
    ensures Rest(ps, |ps|, 1, p) == []
  {
  }

  /** One round of the loop writes the first pair that remains. */
  lemma RestStep(ps: seq<Pair>, s1idx: nat, s2idx: nat, p: Pair, difference: int)
    requires s1idx <= |ps| && s2idx <= 1 && (s1idx < |ps| || s2idx < 1)
    requires s1idx == |ps| ==> difference == 1
    requires s1idx < |ps| && s2idx == 1 ==> difference == -1
    requires s1idx < |ps| && s2idx == 0 ==> difference == Difference(ps[s1idx].key, p.key)
    ensures difference < 0 ==>
              s1idx < |ps| && Rest(ps, s1idx, s2idx, p) == [ps[s1idx]] + Rest(ps, s1idx + 1, s2idx, p)
    ensures difference == 0 ==> s1idx < |ps| && s2idx == 0 && Rest(ps, s1idx, 0, p) == [p] + Rest(ps, s1idx + 1, 1, p)
    ensures difference > 0 ==> s2idx == 0 && Rest(ps, s1idx, 0, p) == [p] + Rest(ps, s1idx, 1, p)
  {
    if s1idx < |ps| {
      LexTotal(ps[s1idx].key, p.key);
      assert ps[s1idx..][1..] == ps[s1idx + 1..];
      assert ps[s1idx..] == [ps[s1idx]] + ps[s1idx + 1..];
    }
  }
}
