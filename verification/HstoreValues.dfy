/** Which values the two validity tests accept (contrib/hstore/hstore_compat.c): those that were written for some pairs,
    padded or not; and what becomes of the pairs of an old value. */
module HstoreValues {
  import opened Wrappers
  import opened Machine
  import opened HstoreFormat

  // ---------------------------------------------------------------- what the old implementation wrote

  ghost function ValLen(p: Pair): nat { if p.val.None? then 0 else |p.val.value| }

  ghost function PairBytes(p: Pair): seq<int> { p.key + if p.val.None? then [] else p.val.value }

  /** The strings of the first n pairs, end to end. */
  ghost function Bytes(pairs: seq<Pair>, n: nat): (r: seq<int>)
    requires n <= |pairs|
  {
    if n == 0 then [] else Bytes(pairs, n - 1) + PairBytes(pairs[n - 1])
  }

  /** Pairs the old format has room for: lengths of 16 bits, key lengths in order. */
  ghost predicate OldPairs(pairs: seq<Pair>) {
    && (forall i: nat | i < |pairs| :: |pairs[i].key| < 65536 && ValLen(pairs[i]) < 65536)
    && forall i, j | 0 <= i < j < |pairs| :: |pairs[i].key| <= |pairs[j].key|
  }

  /** Entry i of an old value: the lengths of the key and the value, where a null has any length, the position of the
      strings and the null flag. */
  ghost predicate OldEntry(pairs: seq<Pair>, nulls: seq<nat>, ws: seq<Word>, i: nat)
    requires i < |pairs| == |nulls| && 2 * |pairs| <= |ws|
  {
    var p := pairs[i];
    && nulls[i] < 65536
    && ws[2 * i] == |p.key| + 65536 * (if p.val.None? then nulls[i] else |p.val.value|)
    && ws[2 * i + 1] == 2 * |Bytes(pairs, i)| + if p.val.None? then 1 else 0
  }

  /** The words and the string area the old implementation wrote for the pairs. */
  ghost predicate OldValue(pairs: seq<Pair>, nulls: seq<nat>, ws: seq<Word>, str: seq<int>) {
    && OldPairs(pairs) && |pairs| == |nulls| && 2 * |pairs| <= |ws|
    && (forall i: nat | i < |pairs| :: OldEntry(pairs, nulls, ws, i))
    && Bytes(pairs, |pairs|) <= str
  }

  // ---------------------------------------------------------------- its fields

  lemma KeyWordFields(klen: nat, vlen: nat, w: Word)
    requires klen < 65536 && vlen < 65536 && w == klen + 65536 * vlen
    ensures OldKeyLen(w) == klen && OldValLen(w) == vlen
  {
  }

  lemma PosWordFields(pos: nat, isnull: bool, w: Word)
    requires w == 2 * pos + if isnull then 1 else 0
    ensures OldPos(w) == pos && (OldIsNull(w) <==> isnull)
  {
  }

  lemma EntryFields(pairs: seq<Pair>, nulls: seq<nat>, ws: seq<Word>, str: seq<int>, i: nat)
    requires OldValue(pairs, nulls, ws, str) && i < |pairs|
    ensures OldKeyLen(ws[2 * i]) == |pairs[i].key|
    ensures OldValLen(ws[2 * i]) == if pairs[i].val.None? then nulls[i] else |pairs[i].val.value|
    ensures OldPos(ws[2 * i + 1]) == |Bytes(pairs, i)| && (OldIsNull(ws[2 * i + 1]) <==> pairs[i].val.None?)
    ensures OldLen(ws, i) == |PairBytes(pairs[i])|
  {
    hide Bytes, OldKeyLen, OldValLen, OldPos, OldIsNull;
    assert OldEntry(pairs, nulls, ws, i);
    var p := pairs[i];
    KeyWordFields(|p.key|, if p.val.None? then nulls[i] else |p.val.value|, ws[2 * i]);
    PosWordFields(|Bytes(pairs, i)|, p.val.None?, ws[2 * i + 1]);
  }

  lemma {:induction false} EndIsBytes(pairs: seq<Pair>, nulls: seq<nat>, ws: seq<Word>, str: seq<int>, n: nat)
    requires OldValue(pairs, nulls, ws, str) && n <= |pairs|
    ensures OldEnd(ws, n) == |Bytes(pairs, n)|
  {
    hide OldValue, PairBytes, OldLen;
    ValueSize(pairs, nulls, ws, str);
    if n > 0 {
      EndIsBytes(pairs, nulls, ws, str, n - 1);
      EntryFields(pairs, nulls, ws, str, n - 1);
    }
  }

  lemma ValueSize(pairs: seq<Pair>, nulls: seq<nat>, ws: seq<Word>, str: seq<int>)
    requires OldValue(pairs, nulls, ws, str)
    ensures |pairs| == |nulls| && 2 * |pairs| <= |ws| && OldPairs(pairs) && Bytes(pairs, |pairs|) <= str
  {
  }

  lemma {:induction false} BytesPrefix(pairs: seq<Pair>, m: nat, n: nat)
    requires m <= n <= |pairs|
    ensures Bytes(pairs, m) <= Bytes(pairs, n)
  {
    hide PairBytes;
    if m < n { BytesPrefix(pairs, m, n - 1); }
  }

  /** The strings of a pair stand where its entry says. */
  lemma PairStands(pairs: seq<Pair>, str: seq<int>, i: nat)
    requires i < |pairs| && Bytes(pairs, |pairs|) <= str
    ensures var pos, klen := |Bytes(pairs, i)|, |pairs[i].key|;
            && Slice(str, pos, pos + klen) == pairs[i].key
            && (pairs[i].val.Some? ==>
                  Slice(str, pos + klen, pos + klen + |pairs[i].val.value|) == pairs[i].val.value)
  {
    hide Bytes, Slice;
    var a, p := Bytes(pairs, i), pairs[i];
    BytesPrefix(pairs, i + 1, |pairs|);
    BytesStep(pairs, i);
    if p.val.None? {
      InMiddle(a, p.key, [], str);
    } else {
      InMiddle(a, p.key, p.val.value, str);
      InMiddle(a + p.key, p.val.value, [], str);
    }
  }

  lemma BytesStep(pairs: seq<Pair>, i: nat)
    requires i < |pairs|
    ensures var p := pairs[i];
            Bytes(pairs, i + 1) == Bytes(pairs, i) + p.key + if p.val.None? then [] else p.val.value
  {
  }

  lemma InMiddle(a: seq<int>, b: seq<int>, c: seq<int>, str: seq<int>)
    requires a + b + c <= str
    ensures Slice(str, |a|, |a| + |b|) == b
  {
    assert str[..|a + b + c|] == a + b + c;
    assert (a + b + c)[|a|..|a| + |b|] == b;
  }

  // ---------------------------------------------------------------- accepted exactly

  /** Every value the old implementation wrote is accepted, whatever its padding, and has the pairs. */
  lemma WrittenOk(pairs: seq<Pair>, nulls: seq<nat>, ws: seq<Word>, str: seq<int>, varsize: nat)
    requires OldValue(pairs, nulls, ws, str) && 8 * |pairs| + 8 + |Bytes(pairs, |pairs|)| <= varsize < TWO_30
    ensures OldOk(|pairs|, ws, varsize) && OldEnd(ws, |pairs|) == |Bytes(pairs, |pairs|)|
    ensures DecodeOld(ws, |pairs|, str) == pairs
  {
    hide OldValue, Bytes, OldKeyLen, OldValLen, OldPos, OldIsNull, OldLen, Slice, OldEnd;
    var n := |pairs|;
    ValueSize(pairs, nulls, ws, str);
    EndIsBytes(pairs, nulls, ws, str, n);
    forall i: nat | i + 1 < n ensures OldKeysOrdered(ws, i) {
      EntryFields(pairs, nulls, ws, str, i);
      EntryFields(pairs, nulls, ws, str, i + 1);
    }
    forall i: nat | i < n ensures OldContiguous(ws, i) && OldPair(ws, str, i) == pairs[i] {
      EntryFields(pairs, nulls, ws, str, i);
      EndIsBytes(pairs, nulls, ws, str, i);
      PairStands(pairs, str, i);
    }
  }

  /** The lengths of the strings an accepted value has. */
  lemma DecodedPair(ws: seq<Word>, str: seq<int>, i: nat)
    requires 2 * i + 1 < |ws| && OldPos(ws[2 * i + 1]) + OldLen(ws, i) <= |str|
    ensures var p := OldPair(ws, str, i);
            && |p.key| == OldKeyLen(ws[2 * i]) < 65536 && (p.val.None? <==> OldIsNull(ws[2 * i + 1]))
            && (p.val.Some? ==> |p.val.value| == OldValLen(ws[2 * i]) < 65536)
            && PairBytes(p) == Slice(str, OldPos(ws[2 * i + 1]), OldPos(ws[2 * i + 1]) + OldLen(ws, i))
  {
  }

  lemma {:induction false} DecodedBytes(ws: seq<Word>, count: nat, str: seq<int>, n: nat)
    requires 2 * count <= |ws| && n <= count && OldShape(ws, count) && OldEnd(ws, count) <= |str|
    ensures OldEnd(ws, n) <= |str| && Bytes(DecodeOld(ws, count, str), n) == str[..OldEnd(ws, n)]
  {
    hide OldPair, PairBytes, OldLen, OldPos;
    OldEndMonotone(ws, n, count);
    if n > 0 {
      DecodedBytes(ws, count, str, n - 1);
      ShapeAt(ws, count, n - 1);
      DecodedPair(ws, str, n - 1);
      assert str[..OldEnd(ws, n)] == str[..OldEnd(ws, n - 1)] + str[OldEnd(ws, n - 1)..OldEnd(ws, n)];
    }
  }

  lemma {:induction false} KeysAscend(ws: seq<Word>, count: nat, i: nat, j: nat)
    requires 2 * count <= |ws| && i <= j < count && OldShape(ws, count)
    ensures OldKeyLen(ws[2 * i]) <= OldKeyLen(ws[2 * j])
  {
    hide OldKeyLen, OldContiguous;
    if i < j {
      KeysAscend(ws, count, i, j - 1);
      assert OldKeysOrdered(ws, j - 1);
    }
  }

  lemma EntryWord(w: Word)
    ensures w == OldKeyLen(w) + 65536 * OldValLen(w) && w == 2 * OldPos(w) + (if OldIsNull(w) then 1 else 0)
    ensures OldValLen(w) < 65536
  {
  }

  /** The lengths stored for the values, null or not. */
  ghost function StoredLengths(ws: seq<Word>, count: nat): seq<nat>
    requires 2 * count <= |ws|
  {
    seq(count, i requires 0 <= i < count => OldValLen(ws[2 * i]))
  }

  /** Every accepted value whose strings are there is one that was written, for the pairs it is read as. */
  lemma OkWritten(size: Word, ws: seq<Word>, varsize: nat, str: seq<int>)
    requires OldOk(size, ws, varsize) && size > 0 && OldEnd(ws, size) <= |str|
    ensures OldValue(DecodeOld(ws, size, str), StoredLengths(ws, size), ws, str)
    ensures DataSize(size, |Bytes(DecodeOld(ws, size, str), size)|) <= varsize
  {
    hide OldShape, OldEnd, OldKeyLen, OldValLen, OldPos, OldIsNull, OldLen, Bytes;
    var pairs, nulls := DecodeOld(ws, size, str), StoredLengths(ws, size);
    DecodedBytes(ws, size, str, size);
    forall i: nat | i < size
      ensures OldEntry(pairs, nulls, ws, i)
      ensures |pairs[i].key| == OldKeyLen(ws[2 * i]) < 65536 && ValLen(pairs[i]) < 65536
    {
      ShapeAt(ws, size, i);
      OldEndMonotone(ws, i + 1, size);
      EndStep(ws, i);
      DecodedPair(ws, str, i);
      DecodedBytes(ws, size, str, i);
      EntryWord(ws[2 * i]);
      EntryWord(ws[2 * i + 1]);
    }
    forall i, j | 0 <= i < j < |pairs| ensures |pairs[i].key| <= |pairs[j].key| { KeysAscend(ws, size, i, j); }
  }

  // ---------------------------------------------------------------- the operations

  /** hstoreValidOldFormat on a written value: 2 for an exact length, 1 for any padding; no pairs count as exact. */
  method ValidateWritten(ghost pairs: seq<Pair>, ghost nulls: seq<nat>, size: Word, ws: seq<Word>, ghost str: seq<int>,
                         varsize: nat)
    returns (r: nat)
    requires OldValue(pairs, nulls, ws, str) && size == |pairs|
    requires 8 * |pairs| + 8 + |Bytes(pairs, |pairs|)| <= varsize < TWO_30
    ensures r == if |pairs| == 0 || varsize == 8 * |pairs| + 8 + |Bytes(pairs, |pairs|)| then 2 else 1
  {
    hide OldValue, OldOk, Bytes, OldEnd;
    ValueSize(pairs, nulls, ws, str);
    WrittenOk(pairs, nulls, ws, str, varsize);
    r := ValidOldFormat(size, ws, varsize);
  }

  /** hstoreUpgrade on a written value: the pairs stay, with the exact length, unless a short value begins with a null
      whose stored length has its top bit set. */
  method UpgradeWritten(hs: HStore, ghost pairs: seq<Pair>, ghost nulls: seq<nat>) returns (ok: bool)
    requires OldValue(pairs, nulls, hs.words[..], hs.str) && hs.size == |pairs|
    requires 8 * |pairs| + 8 + |Bytes(pairs, |pairs|)| <= hs.varsize < TWO_30
    modifies hs, hs.words
    ensures ok && hs.size == Flagged(|pairs|)
    ensures 2 * |pairs| <= hs.words.Length
    ensures DecodeNew(hs.words[..], |pairs|, hs.str) == pairs <==>
              !(|pairs| > 0 && pairs[0].val.None? && nulls[0] >= 32768 && old(hs.varsize) < 32768)
    ensures DecodeNew(hs.words[..], |pairs|, hs.str) == pairs ==>
              hs.varsize == 8 * |pairs| + 8 + |Bytes(pairs, |pairs|)|
  {
    hide OldValue, OldOk, NewOk, Bytes, OldEnd, DecodeNew, DecodeOld, NewShape, EndPos;
    ghost var ws, str, varsize := hs.words[..], hs.str, hs.varsize;
    ValueSize(pairs, nulls, ws, str);
    WrittenOk(pairs, nulls, ws, str, varsize);
    WrittenPath(pairs, nulls, ws, str, varsize);
    ok := hs.Upgrade();
  }

  /** When the fast path is taken, and what then becomes of the pairs. */
  lemma WrittenPath(pairs: seq<Pair>, nulls: seq<nat>, ws: seq<Word>, str: seq<int>, varsize: nat)
    requires OldValue(pairs, nulls, ws, str) && 8 * |pairs| + 8 + |Bytes(pairs, |pairs|)| <= varsize < TWO_30
    ensures var n := |pairs|;
            var fast := n > 0 && pairs[0].val.None? && nulls[0] >= 32768 && varsize < 32768;
            && (FastPath(n, ws, varsize) <==> n == 0 || fast)
            && (fast ==> DecodeNew(ws, n, str) != pairs)
            && (n == 0 ==> DecodeNew(ws, n, str) == pairs && |Bytes(pairs, n)| == 0)
  {
    hide OldValue, OldOk, OldEnd, DecodeOld;
    ValueSize(pairs, nulls, ws, str);
    WrittenOk(pairs, nulls, ws, str, varsize);
    if |pairs| > 0 {
      EntryFields(pairs, nulls, ws, str, 0);
      FastPathExact(|pairs|, ws, varsize);
      if FastPath(|pairs|, ws, varsize) { FastPathChanges(|pairs|, ws, varsize, str); }
    }
  }

  // ---------------------------------------------------------------- new values

  /** The first n strings end to end. */
  ghost function Spanned(spans: seq<seq<int>>, n: nat): seq<int>
    requires n <= |spans|
  {
    if n == 0 then [] else Spanned(spans, n - 1) + spans[n - 1]
  }

  /** Word k of a new value: where string k ends, its null flag, and the flag of the first word. */
  ghost predicate NewEntry(spans: seq<seq<int>>, nulls: seq<bool>, ws: seq<Word>, k: nat)
    requires k < |spans| == |nulls| && |spans| <= |ws|
  {
    ws[k] == |Spanned(spans, k + 1)| + (if nulls[k] then TWO_30 else 0) + (if k == 0 then TWO_31 else 0)
  }

  /** The words of keys and values by turns: key lengths in order, no key after the first flagged as null. */
  ghost predicate NewValue(spans: seq<seq<int>>, nulls: seq<bool>, count: nat, ws: seq<Word>, str: seq<int>) {
    && |spans| == |nulls| == 2 * count <= |ws|
    && (forall k: nat | k < |spans| :: NewEntry(spans, nulls, ws, k))
    && (forall i, j | 0 <= i < j < count :: |spans[2 * i]| <= |spans[2 * j]|)
    && (forall i: nat | 0 < i < count :: !nulls[2 * i])
    && |Spanned(spans, |spans|)| < TWO_30 && Spanned(spans, |spans|) <= str
  }

  lemma {:induction false} SpannedPrefix(spans: seq<seq<int>>, m: nat, n: nat)
    requires m <= n <= |spans|
    ensures Spanned(spans, m) <= Spanned(spans, n)
  {
    if m < n { SpannedPrefix(spans, m, n - 1); }
  }

  lemma SpannedStep(spans: seq<seq<int>>, k: nat)
    requires k < |spans|
    ensures Spanned(spans, k + 1) == Spanned(spans, k) + spans[k]
  {
  }

  /** The fields of word k, and the string it stands for. */
  lemma NewFields(spans: seq<seq<int>>, nulls: seq<bool>, count: nat, ws: seq<Word>, str: seq<int>, k: nat)
    requires NewValue(spans, nulls, count, ws, str) && k < 2 * count
    ensures EndPos(ws[k]) == |Spanned(spans, k + 1)| && (IsNull(ws[k]) <==> nulls[k]) && (IsFirst(ws[k]) <==> k == 0)
    ensures |Spanned(spans, k + 1)| == |Spanned(spans, k)| + |spans[k]|
    ensures Slice(str, |Spanned(spans, k)|, |Spanned(spans, k + 1)|) == spans[k]
  {
    hide EndPos, IsNull, IsFirst, Spanned, Slice;
    assert NewEntry(spans, nulls, ws, k);
    SpannedPrefix(spans, k + 1, |spans|);
    SpannedStep(spans, k);
    WordFields(|Spanned(spans, k + 1)|, nulls[k], k == 0);
    InMiddle(Spanned(spans, k), spans[k], [], str);
  }

  lemma NewOff(spans: seq<seq<int>>, nulls: seq<bool>, count: nat, ws: seq<Word>, str: seq<int>, k: nat)
    requires NewValue(spans, nulls, count, ws, str) && k < 2 * count
    ensures Off(ws, k) == |Spanned(spans, k)|
  {
    hide NewValue, EndPos, IsFirst;
    NewCount(spans, nulls, count, ws, str);
    NewFields(spans, nulls, count, ws, str, k);
    if k > 0 { NewFields(spans, nulls, count, ws, str, k - 1); }
  }

  lemma NewCount(spans: seq<seq<int>>, nulls: seq<bool>, count: nat, ws: seq<Word>, str: seq<int>)
    requires NewValue(spans, nulls, count, ws, str)
    ensures |spans| == |nulls| == 2 * count <= |ws|
    ensures forall i, j | 0 <= i < j < count :: |spans[2 * i]| <= |spans[2 * j]|
    ensures forall i: nat | 0 < i < count :: !nulls[2 * i]
  {
  }

  lemma NewWord(spans: seq<seq<int>>, nulls: seq<bool>, count: nat, ws: seq<Word>, str: seq<int>, k: nat)
    requires NewValue(spans, nulls, count, ws, str) && 0 < k < 2 * count
    ensures NewContinues(ws, k)
  {
    hide NewValue, EndPos, IsFirst;
    NewCount(spans, nulls, count, ws, str);
    NewFields(spans, nulls, count, ws, str, k);
    NewFields(spans, nulls, count, ws, str, k - 1);
  }

  lemma NewKeyIs(spans: seq<seq<int>>, nulls: seq<bool>, count: nat, ws: seq<Word>, str: seq<int>, i: nat)
    requires NewValue(spans, nulls, count, ws, str) && i < count
    ensures 2 * i < |ws| && NewKeyLen(ws, i) == |spans[2 * i]| && (IsNull(ws[2 * i]) <==> nulls[2 * i])
    ensures NewPair(ws, str, i) == Pair(spans[2 * i], if nulls[2 * i + 1] then None else Some(spans[2 * i + 1]))
  {
    hide NewValue, EndPos, IsFirst, IsNull, Off, Slice;
    NewCount(spans, nulls, count, ws, str);
    NewFields(spans, nulls, count, ws, str, 2 * i);
    NewFields(spans, nulls, count, ws, str, 2 * i + 1);
    NewOff(spans, nulls, count, ws, str, 2 * i);
    NewOff(spans, nulls, count, ws, str, 2 * i + 1);
  }

  /** Every value written for keys and values by turns is accepted, whatever its padding, and read as those. */
  lemma NewWrittenOk(spans: seq<seq<int>>, nulls: seq<bool>, count: nat, ws: seq<Word>, str: seq<int>, varsize: nat)
    requires NewValue(spans, nulls, count, ws, str) && 0 < count < 0x1000_0000
    ensures 2 * HsCount(count) <= |ws| && NewEnd(ws, count) == |Spanned(spans, 2 * count)|
    ensures NewOk(count, ws, varsize) <==> 8 * count + 8 + |Spanned(spans, 2 * count)| <= varsize
    ensures forall i: nat | i < count ::
              NewPair(ws, str, i) == Pair(spans[2 * i], if nulls[2 * i + 1] then None else Some(spans[2 * i + 1]))
  {
    hide NewValue, EndPos, IsFirst, IsNull, NewKeyLen, NewContinues, NewPair, Spanned;
    NewCount(spans, nulls, count, ws, str);
    NewFields(spans, nulls, count, ws, str, 0);
    NewFields(spans, nulls, count, ws, str, 2 * count - 1);
    forall k: nat | 0 < k < 2 * count ensures NewContinues(ws, k) { NewWord(spans, nulls, count, ws, str, k); }
    forall i: nat | i < count
      ensures NewKeyLen(ws, i) == |spans[2 * i]| && (IsNull(ws[2 * i]) <==> nulls[2 * i])
      ensures NewPair(ws, str, i) == Pair(spans[2 * i], if nulls[2 * i + 1] then None else Some(spans[2 * i + 1]))
    {
      NewKeyIs(spans, nulls, count, ws, str, i);
    }
    assert forall i: nat | 0 < i < count :: NewKeysOrdered(ws, i);
  }

  ghost function SpansOf(ws: seq<Word>, str: seq<int>, n: nat): seq<seq<int>>
    requires n <= |ws|
  {
    seq(n, k requires 0 <= k < n => Slice(str, Off(ws, k), EndPos(ws[k])))
  }

  ghost function NullsOf(ws: seq<Word>, n: nat): seq<bool>
    requires n <= |ws|
  {
    seq(n, k requires 0 <= k < n => IsNull(ws[k]))
  }

  lemma {:induction false} EndsAscend(ws: seq<Word>, count: nat, j: nat, k: nat)
    requires 0 < 2 * count <= |ws| && NewShape(ws, count) && j <= k < 2 * count
    ensures EndPos(ws[j]) <= EndPos(ws[k])
  {
    hide EndPos, IsFirst, NewKeysOrdered;
    if j < k {
      EndsAscend(ws, count, j, k - 1);
      assert NewContinues(ws, k);
    }
  }

  /** The strings of an accepted value lie end to end. */
  lemma {:induction false} SpansTile(ws: seq<Word>, count: nat, str: seq<int>, n: nat)
    requires 0 < 2 * count <= |ws| && NewShape(ws, count) && NewEnd(ws, count) <= |str| && n <= 2 * count
    ensures var end := if n == 0 then 0 else EndPos(ws[n - 1]);
            && end <= |str| && Spanned(SpansOf(ws, str, 2 * count), n) == str[..end]
            && (n < 2 * count ==> Off(ws, n) == end)
  {
    hide EndPos, IsFirst, NewKeysOrdered;
    if n > 0 {
      SpansTile(ws, count, str, n - 1);
      EndsAscend(ws, count, n - 1, 2 * count - 1);
      if n > 1 { assert NewContinues(ws, n - 1); }
      var start := Off(ws, n - 1);
      assert str[..EndPos(ws[n - 1])] == str[..start] + str[start..EndPos(ws[n - 1])];
    }
    if 0 < n < 2 * count { assert NewContinues(ws, n); }
  }

  lemma WordIs(w: Word)
    ensures w == EndPos(w) + (if IsNull(w) then TWO_30 else 0) + (if IsFirst(w) then TWO_31 else 0)
  {
  }

  lemma {:induction false} NewKeysAscend(ws: seq<Word>, count: nat, i: nat, j: nat)
    requires 0 < 2 * count <= |ws| && NewShape(ws, count) && i <= j < count
    ensures NewKeyLen(ws, i) <= NewKeyLen(ws, j)
  {
    hide NewKeyLen, IsFirst, IsNull, NewContinues;
    if i < j {
      NewKeysAscend(ws, count, i, j - 1);
      assert NewKeysOrdered(ws, j);
    }
  }

  lemma FirstFlag(ws: seq<Word>, count: nat, k: nat)
    requires 0 < 2 * count <= |ws| && NewShape(ws, count) && k < 2 * count
    ensures IsFirst(ws[k]) <==> k == 0
  {
    if k > 0 { assert NewContinues(ws, k); }
  }

  /** Every accepted value whose strings are there is one that was written. */
  lemma NewOkWritten(ws: seq<Word>, count: nat, str: seq<int>)
    requires 0 < 2 * count <= |ws| && NewShape(ws, count) && NewEnd(ws, count) <= |str|
    ensures NewValue(SpansOf(ws, str, 2 * count), NullsOf(ws, 2 * count), count, ws, str)
  {
    hide NewShape, IsFirst, IsNull, Spanned, NewContinues;
    var spans, nulls := SpansOf(ws, str, 2 * count), NullsOf(ws, 2 * count);
    SpansTile(ws, count, str, 2 * count);
    forall k: nat | k < 2 * count ensures NewEntry(spans, nulls, ws, k) {
      SpansTile(ws, count, str, k + 1);
      WordIs(ws[k]);
      FirstFlag(ws, count, k);
    }
    forall i: nat | i < count ensures |spans[2 * i]| == NewKeyLen(ws, i) { SpanLength(ws, count, str, 2 * i); }
    forall i, j | 0 <= i < j < count ensures |spans[2 * i]| <= |spans[2 * j]| { NewKeysAscend(ws, count, i, j); }
    forall i: nat | 0 < i < count ensures !nulls[2 * i] { KeyNotNull(ws, count, i); }
  }

  lemma SpanLength(ws: seq<Word>, count: nat, str: seq<int>, k: nat)
    requires 0 < 2 * count <= |ws| && NewShape(ws, count) && NewEnd(ws, count) <= |str| && k < 2 * count
    ensures |SpansOf(ws, str, 2 * count)[k]| == EndPos(ws[k]) - Off(ws, k)
  {
    hide EndPos, IsFirst, NewKeysOrdered, Spanned;
    SpansTile(ws, count, str, k);
    EndsAscend(ws, count, k, 2 * count - 1);
    if k > 0 { assert NewContinues(ws, k); }
  }

  lemma KeyNotNull(ws: seq<Word>, count: nat, i: nat)
    requires 0 < 2 * count <= |ws| && NewShape(ws, count) && 0 < i < count
    ensures !IsNull(ws[2 * i])
  {
    assert NewKeysOrdered(ws, i);
  }
}
