/** Reading hstore values stored by the old contrib/hstore (contrib/hstore/hstore_compat.c).  A value is a
    varlena length, a size word, two 32-bit words per pair and a string area; old and new format differ in
    the meaning of the words, which are rewritten in place.  Words are little-endian. */
module HstoreFormat {
  import opened Wrappers
  import opened Machine

  type Word = w: int | 0 <= w < 0x1_0000_0000

  datatype Pair = Pair(key: seq<int>, val: Option<seq<int>>)

  // ---------------------------------------------------------------- the two entry formats

  /** HOldEntry: keylen and vallen in one word, valisnull and pos in the next. */
  function OldKeyLen(w: Word): nat { w % 65536 }
  function OldValLen(w: Word): nat { w / 65536 }
  predicate OldIsNull(w: Word) { w % 2 == 1 }
  function OldPos(w: Word): nat { w / 2 }

  /** HEntry: the flags and the end position. */
  predicate IsFirst(w: Word) { w >= TWO_31 }
  predicate IsNull(w: Word) { w / TWO_30 % 2 == 1 }
  function EndPos(w: Word): nat { w % TWO_30 }

  /** CALCDATASIZE */
  function DataSize(count: nat, lenstr: nat): nat { 8 * count + 8 + lenstr }

  /** HS_COUNT */
  function HsCount(size: Word): nat { size % 0x1000_0000 }

  /** The bytes from one position to another; none when they are not in the string area. */
  function Slice(str: seq<int>, from: int, to: int): seq<int> {
    if 0 <= from <= to <= |str| then str[from..to] else []
  }

  /** The length of the value of old entry i as it counts for positions. */
  function OldLen(ws: seq<Word>, i: nat): nat
    requires 2 * i + 1 < |ws|
  {
    OldKeyLen(ws[2 * i]) + if OldIsNull(ws[2 * i + 1]) then 0 else OldValLen(ws[2 * i])
  }

  ghost function OldPair(ws: seq<Word>, str: seq<int>, i: nat): Pair
    requires 2 * i + 1 < |ws|
  {
    var pos, klen, vlen := OldPos(ws[2 * i + 1]), OldKeyLen(ws[2 * i]), OldValLen(ws[2 * i]);
    Pair(Slice(str, pos, pos + klen),
         if OldIsNull(ws[2 * i + 1]) then None else Some(Slice(str, pos + klen, pos + klen + vlen)))
  }

  /** HSE_OFF */
  function Off(ws: seq<Word>, k: nat): nat
    requires k < |ws|
  {
    if IsFirst(ws[k]) || k == 0 then 0 else EndPos(ws[k - 1])
  }

  ghost function NewPair(ws: seq<Word>, str: seq<int>, i: nat): Pair
    requires 2 * i + 1 < |ws|
  {
    Pair(Slice(str, Off(ws, 2 * i), EndPos(ws[2 * i])),
         if IsNull(ws[2 * i + 1]) then None else Some(Slice(str, Off(ws, 2 * i + 1), EndPos(ws[2 * i + 1]))))
  }

  ghost function DecodeOld(ws: seq<Word>, count: nat, str: seq<int>): seq<Pair>
    requires 2 * count <= |ws|
  {
    seq(count, i requires 0 <= i < count => OldPair(ws, str, i))
  }

  ghost function DecodeNew(ws: seq<Word>, count: nat, str: seq<int>): seq<Pair>
    requires 2 * count <= |ws|
  {
    seq(count, i requires 0 <= i < count => NewPair(ws, str, i))
  }

  // ---------------------------------------------------------------- old-format validity

  /** Where the strings of the first n old entries end, as a sum. */
  ghost function OldEnd(ws: seq<Word>, n: nat): nat
    requires 2 * n <= |ws|
  {
    if n == 0 then 0 else OldEnd(ws, n - 1) + OldLen(ws, n - 1)
  }

  /** Key lengths do not decrease from entry i to the next. */
  predicate OldKeysOrdered(ws: seq<Word>, i: nat)
    requires 2 * i + 3 < |ws|
  {
    OldKeyLen(ws[2 * i]) <= OldKeyLen(ws[2 * (i + 1)])
  }

  /** Entry i begins where those before it end. */
  ghost predicate OldContiguous(ws: seq<Word>, i: nat)
    requires 2 * i + 1 < |ws|
  {
    OldPos(ws[2 * i + 1]) == OldEnd(ws, i)
  }

  ghost predicate OldShape(ws: seq<Word>, count: nat)
    requires 2 * count <= |ws|
  {
    && (forall i: nat | i + 1 < count :: OldKeysOrdered(ws, i))
    && (forall i: nat | i < count :: OldContiguous(ws, i))
  }

  /** What an old-format value is: contiguous entries with key lengths in order that fit its length. */
  ghost predicate OldOk(size: Word, ws: seq<Word>, varsize: nat) {
    && size <= 0xFFF_FFFF && 2 * size <= |ws|
    && (size > 0 ==> OldShape(ws, size) && DataSize(size, OldEnd(ws, size)) <= varsize)
  }

  lemma {:induction false} OldEndMonotone(ws: seq<Word>, m: nat, n: nat)
    requires m <= n && 2 * n <= |ws|
    ensures OldEnd(ws, m) <= OldEnd(ws, n)
  {
    if m < n { OldEndMonotone(ws, m, n - 1); }
  }

  /** The loop over key lengths. */
  method OldKeysLoop(ws: seq<Word>, count: nat) returns (ok: bool)
    requires 2 * count <= |ws|
    ensures ok <==> forall i: nat | i + 1 < count :: OldKeysOrdered(ws, i)
  {
    var i := 1;
    while i < count
      invariant 1 <= i && (count > 0 ==> i <= count)
      invariant forall j: nat | j + 1 < i && j + 1 < count :: OldKeysOrdered(ws, j)
    {
      if OldKeyLen(ws[2 * i]) < OldKeyLen(ws[2 * (i - 1)]) {
        assert !OldKeysOrdered(ws, i - 1);
        return false;
      }
      i := i + 1;
    }
    return true;
  }

  /** The loop over positions.  The running position is an int and wraps, which the comparison with a
      31-bit position detects at the next entry. */
  method OldPositionsLoop(ws: seq<Word>, count: nat) returns (ok: bool, lastpos: int)
    requires 2 * count <= |ws|
    ensures ok <==> forall i: nat | i < count :: OldContiguous(ws, i)
    ensures ok ==> lastpos == ToInt32(OldEnd(ws, count)) && OldEnd(ws, count) < TWO_31 + 0x2_0000
  {
    hide OldLen, OldPos;
    lastpos := 0;
    var i := 0;
    while i < count
      invariant 0 <= i <= count
      invariant lastpos == ToInt32(OldEnd(ws, i)) && OldEnd(ws, i) < TWO_31 + 0x2_0000
      invariant forall j: nat | j < i :: OldContiguous(ws, j)
    {
      SmallFields(ws, i);
      if OldPos(ws[2 * i + 1]) != lastpos {
        assert !OldContiguous(ws, i);
        return false, 0;
      }
      lastpos := ToInt32(lastpos + OldLen(ws, i));
      i := i + 1;
    }
    return true, lastpos;
  }

  lemma SmallFields(ws: seq<Word>, i: nat)
    requires 2 * i + 1 < |ws|
    ensures OldLen(ws, i) < 0x2_0000 && OldPos(ws[2 * i + 1]) < TWO_31
  {
  }

  /** hstoreValidOldFormat; `ws` holds at least the entries the size word announces. */
  method ValidOldFormat(size: Word, ws: seq<Word>, varsize: nat) returns (r: nat)
    requires varsize < TWO_30 && 2 * HsCount(size) <= |ws|
    ensures r <= 2 && (r != 0 <==> OldOk(size, ws, varsize))
    ensures size == 0 ==> r == 2
    ensures r == 2 && size > 0 ==> DataSize(size, OldEnd(ws, size)) == varsize
    ensures r == 1 ==> DataSize(size, OldEnd(ws, size)) < varsize
  {
    hide OldKeysOrdered, OldLen, OldPos, OldContiguous, ToInt32, ToUint32;
    if size >= TWO_31 { return 0; }
    var count: nat := size;
    if count == 0 { return 2; }
    if count > 0xFFF_FFFF { return 0; }
    if DataSize(count, 0) > varsize { return 0; }
    FirstAtZero(ws);
    if OldPos(ws[1]) != 0 { return 0; }
    var ordered := OldKeysLoop(ws, count);
    if !ordered { return 0; }
    var contiguous, lastpos := OldPositionsLoop(ws, count);
    if !contiguous { return 0; }
    var vsize := ToInt32(8 * count + 8 + lastpos);
    SizeWraps(count, OldEnd(ws, count));
    if ToUint32(vsize) > varsize { return 0; }
    if ToUint32(vsize) != varsize { return 1; }
    return 2;
  }

  lemma FirstAtZero(ws: seq<Word>)
    requires |ws| > 1
    ensures OldContiguous(ws, 0) <==> OldPos(ws[1]) == 0
  {
  }

  /** The size computed in int and compared as unsigned is the true one. */
  lemma SizeWraps(count: nat, end: nat)
    requires count <= 0xFFF_FFFF && end < TWO_31 + 0x2_0000 && DataSize(count, 0) < TWO_30
    ensures ToUint32(ToInt32(8 * count + 8 + ToInt32(end))) == DataSize(count, end)
  {
  }

  // ---------------------------------------------------------------- new-format validity

  /** HSTORE_KEYLEN */
  function NewKeyLen(ws: seq<Word>, i: nat): int
    requires 2 * i < |ws|
  {
    EndPos(ws[2 * i]) - Off(ws, 2 * i)
  }

  /** Word k goes on from the word before it. */
  predicate NewContinues(ws: seq<Word>, k: nat)
    requires 0 < k < |ws|
  {
    !IsFirst(ws[k]) && EndPos(ws[k - 1]) <= EndPos(ws[k])
  }

  predicate NewKeysOrdered(ws: seq<Word>, i: nat)
    requires 0 < i && 2 * i < |ws|
  {
    NewKeyLen(ws, i - 1) <= NewKeyLen(ws, i) && !IsNull(ws[2 * i])
  }

  predicate NewShape(ws: seq<Word>, count: nat)
    requires 0 < 2 * count <= |ws|
  {
    && IsFirst(ws[0])
    && (forall k: nat | 0 < k < 2 * count :: NewContinues(ws, k))
    && (forall i: nat | 0 < i < count :: NewKeysOrdered(ws, i))
  }

  /** Where the strings of a new-format value end. */
  function NewEnd(ws: seq<Word>, count: nat): nat
    requires 2 * count <= |ws|
  {
    if count == 0 then 0 else EndPos(ws[2 * count - 1])
  }

  /** A value without the version flag that can be read as new-format. */
  predicate NewOk(size: Word, ws: seq<Word>, varsize: nat)
    requires 2 * HsCount(size) <= |ws|
  {
    var count := HsCount(size);
    count > 0 ==> NewShape(ws, count) && DataSize(count, NewEnd(ws, count)) <= varsize
  }

  /** hstoreValidNewFormat */
  method ValidNewFormat(size: Word, ws: seq<Word>, varsize: nat) returns (r: nat)
    requires varsize < TWO_30 && 2 * HsCount(size) <= |ws|
    ensures r <= 2
    ensures size < TWO_31 ==> (r != 0 <==> NewOk(size, ws, varsize))
    ensures size >= TWO_31 ==> r == 2
    ensures size < TWO_31 && HsCount(size) > 0 && r == 2 ==>
              DataSize(HsCount(size), NewEnd(ws, HsCount(size))) == varsize
    ensures r == 1 ==> DataSize(HsCount(size), NewEnd(ws, HsCount(size))) < varsize
  {
    hide NewContinues, NewKeysOrdered;
    var count := HsCount(size);
    var buflen := NewEnd(ws, count);
    var vsize := ToInt32(DataSize(count, buflen));
    if size >= TWO_31 { return 2; }
    if count == 0 { return 2; }
    if !IsFirst(ws[0]) { return 0; }
    assert ToUint32(vsize) == DataSize(count, buflen);
    if ToUint32(vsize) > varsize { return 0; }
    var i := 1;
    while i < 2 * count
      invariant 1 <= i <= 2 * count && forall k: nat | 0 < k < i :: NewContinues(ws, k)
    {
      ContinuesMeans(ws, i);
      if IsFirst(ws[i]) || EndPos(ws[i]) < EndPos(ws[i - 1]) { return 0; }
      i := i + 1;
    }
    i := 1;
    while i < count
      invariant 1 <= i <= count && forall k: nat | 0 < k < i :: NewKeysOrdered(ws, k)
    {
      OrderedMeans(ws, i);
      if NewKeyLen(ws, i) < NewKeyLen(ws, i - 1) { return 0; }
      if IsNull(ws[2 * i]) { return 0; }
      i := i + 1;
    }
    return if ToUint32(vsize) != varsize then 1 else 2;
  }

  lemma ContinuesMeans(ws: seq<Word>, k: nat)
    requires 0 < k < |ws|
    ensures NewContinues(ws, k) <==> !IsFirst(ws[k]) && EndPos(ws[k - 1]) <= EndPos(ws[k])
  {
  }

  lemma OrderedMeans(ws: seq<Word>, i: nat)
    requires 0 < i && 2 * i < |ws|
    ensures NewKeysOrdered(ws, i) <==> NewKeyLen(ws, i - 1) <= NewKeyLen(ws, i) && !IsNull(ws[2 * i])
  {
  }

  // ---------------------------------------------------------------- conversion

  /** The words of one rewritten entry; the first key word also gets the ISFIRST flag. */
  function KeyWord(ws: seq<Word>, i: nat): Word
    requires 2 * i + 1 < |ws|
  {
    (OldPos(ws[2 * i + 1]) + OldKeyLen(ws[2 * i])) % TWO_30
  }

  function ValWord(ws: seq<Word>, i: nat): Word
    requires 2 * i + 1 < |ws|
  {
    (OldPos(ws[2 * i + 1]) + OldLen(ws, i)) % TWO_30 + if OldIsNull(ws[2 * i + 1]) then TWO_30 else 0
  }

  /** `to` is `ws` with its first `count` entries rewritten. */
  predicate Converted(ws: seq<Word>, count: nat, to: seq<Word>)
    requires 2 * count <= |ws|
  {
    && |to| == |ws| && to[2 * count..] == ws[2 * count..]
    && forall i: nat | i < count ::
         to[2 * i] == KeyWord(ws, i) + (if i == 0 then TWO_31 else 0) && to[2 * i + 1] == ValWord(ws, i)
  }

  /** The rewritten end positions are those of the old entries; nothing is lost to the mask. */
  lemma ConvertedEnds(ws: seq<Word>, count: nat, to: seq<Word>, i: nat)
    requires 2 * count <= |ws| && i < count && OldShape(ws, count) && OldEnd(ws, count) < TWO_30
    requires Converted(ws, count, to)
    ensures EndPos(to[2 * i]) == OldEnd(ws, i) + OldKeyLen(ws[2 * i])
    ensures EndPos(to[2 * i + 1]) == OldEnd(ws, i + 1)
    ensures (IsFirst(to[2 * i]) <==> i == 0) && !IsFirst(to[2 * i + 1])
    ensures !IsNull(to[2 * i]) && (IsNull(to[2 * i + 1]) <==> OldIsNull(ws[2 * i + 1]))
  {
    hide OldEnd, OldLen, OldPos, OldKeyLen, IsFirst, IsNull, EndPos;
    OldEndMonotone(ws, i + 1, count);
    assert OldContiguous(ws, i);
    EndStep(ws, i);
    WordFields(OldEnd(ws, i) + OldKeyLen(ws[2 * i]), false, i == 0);
    WordFields(OldEnd(ws, i + 1), OldIsNull(ws[2 * i + 1]), false);
  }

  lemma EndStep(ws: seq<Word>, i: nat)
    requires 2 * i + 1 < |ws|
    ensures OldEnd(ws, i + 1) == OldEnd(ws, i) + OldLen(ws, i)
    ensures OldEnd(ws, i) + OldKeyLen(ws[2 * i]) <= OldEnd(ws, i + 1)
  {
  }

  /** A word put together from a position and its flags gives them back. */
  lemma WordFields(pos: nat, isnull: bool, first: bool)
    requires pos < TWO_30
    ensures pos % TWO_30 == pos
    ensures var w: Word := pos + (if isnull then TWO_30 else 0) + (if first then TWO_31 else 0);
            EndPos(w) == pos && (IsNull(w) <==> isnull) && (IsFirst(w) <==> first)
  {
  }

  lemma ConvertedOff(ws: seq<Word>, count: nat, to: seq<Word>, i: nat)
    requires 2 * count <= |ws| && i < count && OldShape(ws, count) && OldEnd(ws, count) < TWO_30
    requires Converted(ws, count, to)
    ensures Off(to, 2 * i) == OldEnd(ws, i) && Off(to, 2 * i + 1) == OldEnd(ws, i) + OldKeyLen(ws[2 * i])
  {
    hide OldShape, Converted, IsFirst, EndPos;
    ConvertedEnds(ws, count, to, i);
    if i > 0 {
      ConvertedEnds(ws, count, to, i - 1);
      assert 2 * i - 1 == 2 * (i - 1) + 1;
    }
  }

  /** The rewritten words decode to the pairs the old words stood for. */
  lemma ConvertedDecodes(size: Word, ws: seq<Word>, varsize: nat, to: seq<Word>, str: seq<int>)
    requires varsize < TWO_30 && OldOk(size, ws, varsize) && size > 0 && Converted(ws, size, to)
    ensures DecodeNew(to, size, str) == DecodeOld(ws, size, str)
  {
    forall i: nat | i < size ensures NewPair(to, str, i) == OldPair(ws, str, i) {
      hide OldShape, Converted, EndPos, IsFirst, IsNull, Off;
      ShapeAt(ws, size, i);
      ConvertedEnds(ws, size, to, i);
      ConvertedOff(ws, size, to, i);
    }
  }

  lemma ShapeAt(ws: seq<Word>, count: nat, i: nat)
    requires 2 * count <= |ws| && i < count && OldShape(ws, count)
    ensures OldPos(ws[2 * i + 1]) == OldEnd(ws, i)
  {
    assert OldContiguous(ws, i);
  }

  lemma ConvertedEntry(ws: seq<Word>, count: nat, to: seq<Word>, i: nat)
    requires 2 * count <= |ws| && i < count && OldShape(ws, count) && OldEnd(ws, count) < TWO_30
    requires Converted(ws, count, to)
    ensures |to| == |ws| && NewContinues(to, 2 * i + 1)
    ensures i > 0 ==> NewContinues(to, 2 * i) && NewKeysOrdered(to, i)
  {
    hide EndPos, IsFirst, IsNull, Off, KeyWord, ValWord, OldLen, OldContiguous;
    LengthKept(ws, count, to);
    ConvertedEnds(ws, count, to, i);
    EndStep(ws, i);
    if i > 0 {
      ConvertedEnds(ws, count, to, i - 1);
      assert 2 * (i - 1) + 1 == 2 * i - 1;
      ConvertedOff(ws, count, to, i);
      ConvertedOff(ws, count, to, i - 1);
      assert OldKeysOrdered(ws, i - 1);
    }
  }

  lemma LengthKept(ws: seq<Word>, count: nat, to: seq<Word>)
    requires 2 * count <= |ws| && Converted(ws, count, to)
    ensures |to| == |ws|
  {
  }

  /** The rewritten words are a valid new-format value of exactly the recomputed length. */
  lemma ConvertedValid(size: Word, ws: seq<Word>, varsize: nat, to: seq<Word>)
    requires varsize < TWO_30 && OldOk(size, ws, varsize) && size > 0 && Converted(ws, size, to)
    ensures NewShape(to, size) && NewEnd(to, size) == OldEnd(ws, size)
  {
    hide Converted, OldShape, EndPos, IsFirst, IsNull, NewContinues, NewKeysOrdered;
    LengthKept(ws, size, to);
    ConvertedEnds(ws, size, to, size - 1);
    ConvertedEnds(ws, size, to, 0);
    forall k: nat | 0 < k < 2 * size ensures NewContinues(to, k) {
      ConvertedEntry(ws, size, to, k / 2);
      assert k == 2 * (k / 2) || k == 2 * (k / 2) + 1;
    }
    forall i: nat | 0 < i < size ensures NewKeysOrdered(to, i) { ConvertedEntry(ws, size, to, i); }
  }

  // ---------------------------------------------------------------- upgrade

  /** HS_SETCOUNT */
  function Flagged(count: nat): Word
    requires count < TWO_31
  {
    count + TWO_31
  }

  /** The branch that trusts the first entry's flag on a short value. */
  predicate FastPath(size: Word, ws: seq<Word>, varsize: nat) {
    size == 0 || (varsize < 32768 && |ws| > 0 && IsFirst(ws[0]))
  }

  class HStore {
    var varsize: nat
    var size: Word
    const words: array<Word>
    const str: seq<int>

    constructor (varsize: nat, size: Word, words: array<Word>, str: seq<int>)
      ensures this.varsize == varsize && this.size == size && this.words == words && this.str == str
    {
      this.varsize, this.size, this.words, this.str := varsize, size, words, str;
    }

    ghost predicate Valid()
      reads this, words
    {
      varsize < TWO_30 && 2 * HsCount(size) <= words.Length && (size > 0 ==> words.Length > 0)
    }

    /** HS_SETCOUNT and HS_FIXSIZE */
    method SetCount(count: nat)
      requires count < 0x1000_0000 && 2 * count <= words.Length
      modifies this
      ensures size == Flagged(count) && varsize == DataSize(count, NewEnd(words[..], count))
    {
      size := Flagged(count);
      varsize := DataSize(count, if count > 0 then EndPos(words[2 * count - 1]) else 0);
    }

    /** The conversion branch of hstoreUpgrade. */
    method Convert()
      requires Valid() && OldOk(size, words[..], varsize) && size > 0
      modifies this, words
      ensures Converted(old(words[..]), old(size), words[..])
      ensures size == Flagged(old(size)) && varsize == DataSize(old(size), OldEnd(old(words[..]), old(size)))
      ensures NewShape(words[..], old(size)) && NewEnd(words[..], old(size)) == OldEnd(old(words[..]), old(size))
      ensures DecodeNew(words[..], old(size), str) == DecodeOld(old(words[..]), old(size), str)
    {
      hide OldShape, NewShape, OldEnd, DecodeOld, DecodeNew, Converted;
      ghost var ws := words[..];
      var count: nat := size;
      RewriteEntries(words, count);
      ConvertedDecodes(size, ws, varsize, words[..], str);
      ConvertedValid(size, ws, varsize, words[..]);
      SetCount(count);
    }

    /** hstoreUpgrade, on a writable copy; false is the error for a value that is valid in neither format. */
    method Upgrade() returns (ok: bool)
      requires Valid()
      modifies this, words
      ensures !ok ==> !OldOk(old(size), old(words[..]), old(varsize)) && !NewOk(old(size), old(words[..]), old(varsize))
      ensures !ok || old(size) >= TWO_31 ==>
                varsize == old(varsize) && size == old(size) && words[..] == old(words[..])
      ensures old(size) >= TWO_31 ==> ok
      ensures ok && old(size) < TWO_31 ==>
                && size == Flagged(HsCount(old(size)))
                && varsize == DataSize(HsCount(size), NewEnd(words[..], HsCount(size)))
      ensures old(size) < TWO_31 && FastPath(old(size), old(words[..]), old(varsize)) ==>
                ok && words[..] == old(words[..])
      ensures old(size) < TWO_31 && !FastPath(old(size), old(words[..]), old(varsize)) &&
              !OldOk(old(size), old(words[..]), old(varsize)) ==>
                words[..] == old(words[..]) && (ok <==> NewOk(old(size), old(words[..]), old(varsize)))
      ensures !FastPath(old(size), old(words[..]), old(varsize)) &&
              OldOk(old(size), old(words[..]), old(varsize)) ==>
                && ok && NewShape(words[..], old(size))
                && varsize == DataSize(old(size), OldEnd(old(words[..]), old(size)))
                && DecodeNew(words[..], old(size), str) == DecodeOld(old(words[..]), old(size), str)
    {
      hide OldOk, NewOk, OldShape, NewShape, OldEnd, DecodeOld, DecodeNew, Converted, DataSize, EndPos;
      OldSmall(size, words[..], varsize);
      if size >= TWO_31 { return true; }
      if size == 0 || (varsize < 32768 && IsFirst(words[0])) {
        SetCount(HsCount(size));
        return true;
      }
      var validNew := ValidNewFormat(size, words[..], varsize);
      var validOld := ValidOldFormat(size, words[..], varsize);
      if validOld == 0 {
        if validNew == 0 { return false; }
        SetCount(HsCount(size));
        return true;
      }
      Convert();
      return true;
    }
  }

  lemma OldSmall(size: Word, ws: seq<Word>, varsize: nat)
    ensures OldOk(size, ws, varsize) ==> size <= 0xFFF_FFFF && HsCount(size) == size
  {
  }

  /** The in-place rewriting loop. */
  method RewriteEntries(words: array<Word>, count: nat)
    requires 0 < 2 * count <= words.Length
    modifies words
    ensures Converted(old(words[..]), count, words[..])
  {
    hide KeyWord, ValWord;
    ghost var ws := words[..];
    var i := 0;
    while i < count
      invariant 0 <= i <= count
      invariant forall j: nat | j < i :: words[2 * j] == KeyWord(ws, j) && words[2 * j + 1] == ValWord(ws, j)
      invariant forall k | 2 * i <= k < |ws| :: words[k] == ws[k]
    {
      var pos, keylen, vallen := OldPos(words[2 * i + 1]), OldKeyLen(words[2 * i]), OldValLen(words[2 * i]);
      var isnull := OldIsNull(words[2 * i + 1]);
      if isnull { vallen := 0; }
      EntryWords(ws, i);
      words[2 * i] := (pos + keylen) % TWO_30;
      words[2 * i + 1] := (pos + keylen + vallen) % TWO_30 + if isnull then TWO_30 else 0;
      i := i + 1;
    }
    KeyWordSmall(ws, 0);
    words[0] := words[0] + TWO_31;
  }

  lemma EntryWords(ws: seq<Word>, i: nat)
    requires 2 * i + 1 < |ws|
    ensures KeyWord(ws, i) == (OldPos(ws[2 * i + 1]) + OldKeyLen(ws[2 * i])) % TWO_30
    ensures var vallen := if OldIsNull(ws[2 * i + 1]) then 0 else OldValLen(ws[2 * i]);
            ValWord(ws, i) == (OldPos(ws[2 * i + 1]) + OldKeyLen(ws[2 * i]) + vallen) % TWO_30
                              + if OldIsNull(ws[2 * i + 1]) then TWO_30 else 0
  {
  }

  lemma KeyWordSmall(ws: seq<Word>, i: nat)
    requires 2 * i + 1 < |ws|
    ensures KeyWord(ws, i) < TWO_30
  {
  }

  // ---------------------------------------------------------------- the fast path on old values

  lemma OldFirst(size: Word, ws: seq<Word>, varsize: nat)
    requires OldOk(size, ws, varsize) && size > 0
    ensures OldPos(ws[1]) == 0 && OldLen(ws, 0) < varsize
  {
    assert OldContiguous(ws, 0);
    OldEndMonotone(ws, 1, size);
  }

  /** An old value takes the fast path exactly when it is short and the stored length of its first value
      has its top bit set; then that value is null, so the length is not used. */
  lemma FastPathExact(size: Word, ws: seq<Word>, varsize: nat)
    requires OldOk(size, ws, varsize) && size > 0
    ensures FastPath(size, ws, varsize) <==> varsize < 32768 && OldValLen(ws[0]) >= 32768
    ensures FastPath(size, ws, varsize) ==> OldIsNull(ws[1])
  {
    OldFirst(size, ws, varsize);
  }

  /** On an old value the fast path always changes the meaning: the first value, null, is read as a string. */
  lemma FastPathChanges(size: Word, ws: seq<Word>, varsize: nat, str: seq<int>)
    requires OldOk(size, ws, varsize) && size > 0 && FastPath(size, ws, varsize)
    ensures DecodeNew(ws, size, str) != DecodeOld(ws, size, str)
  {
    hide OldShape;
    FastPathExact(size, ws, varsize);
    OldFirst(size, ws, varsize);
    assert ws[1] == 1;
    assert DecodeOld(ws, size, str)[0].val.None? && DecodeNew(ws, size, str)[0].val.Some?;
  }

  /** Such a value exists: one pair, key "k", null, with a stored value length of 32768. */
  lemma FastPathExample()
    ensures var ws: seq<Word> := [0x8000_0001, 1];
            OldOk(1, ws, 17) && FastPath(1, ws, 17) && DecodeOld(ws, 1, [107]) == [Pair([107], None)]
  {
    var ws: seq<Word> := [0x8000_0001, 1];
    assert OldEnd(ws, 0) == 0 && OldEnd(ws, 1) == 1;
    assert OldPair(ws, [107], 0) == Pair([107], None);
  }
}
