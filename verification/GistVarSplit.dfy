/** gbt_var_picksplit (contrib/btree_gist/btree_utils_var.c).  Both halves are cut at the longer of their
    two common prefixes, so one half may keep more of its bounds than its own prefix calls for.  That is
    harmless for leaf keys; over keys that were cut before it can lose items, and exactly when is proved. */
module GistVarSplit {
  import opened Sequences
  import opened GistVarKey

  function Chosen(entries: seq<Key>, offsets: seq<nat>): (r: seq<Key>)
    requires forall i | 0 <= i < |offsets| :: offsets[i] < |entries|
    ensures |r| == |offsets| && forall i | 0 <= i < |offsets| :: r[i] == entries[offsets[i]]
  {
    seq(|offsets|, i requires 0 <= i < |offsets| => entries[offsets[i]])
  }

  ghost function PrefixLength(k: Key): nat { Cp(k.lower, k.upper) }

  ghost function Larger(m: nat, n: nat): nat { if m >= n then m else n }

  /** `arr` is the order in which the sort leaves the offsets. */
  method PickSplit(entries: seq<Key>, arr: seq<nat>)
    returns (left: seq<nat>, right: seq<nat>, ldatum: Key, rdatum: Key)
    requires |arr| == |entries| >= 2
    requires forall i | 0 <= i < |arr| :: arr[i] < |entries|
    requires forall i, j | 0 <= i < j < |arr| :: arr[i] != arr[j]
    ensures left + right == arr && |left| == |arr| / 2
    ensures forall i | 0 <= i < |left| :: left[i] < |entries|
    ensures forall i | 0 <= i < |right| :: right[i] < |entries|
    ensures var lk, rk := Joined(Chosen(entries, left)), Joined(Chosen(entries, right));
            var m := Larger(PrefixLength(lk), PrefixLength(rk));
            ldatum == Truncate(lk, m + 1) && rdatum == Truncate(rk, m + 1)
  {
    hide Joined, BinUnion, Chosen, Cp, Truncate;
    left, right := [], [];
    ldatum, rdatum := entries[arr[0]], entries[arr[0]];
    var half := |arr| / 2;
    var i := 0;
    while i < |arr|
      invariant 0 <= i <= |arr|
      invariant left + right == arr[..i] && |left| <= half && (|left| < half ==> right == [])
      invariant i >= half ==> |left| == half
      invariant forall j | 0 <= j < |left| :: left[j] < |entries|
      invariant forall j | 0 <= j < |right| :: right[j] < |entries|
      invariant left != [] ==> ldatum == Joined(Chosen(entries, left))
      invariant right != [] ==> rdatum == Joined(Chosen(entries, right))
    {
      if i + 1 <= half {
        JoinedNext(entries, left, arr[i]);
        ldatum := if left == [] then entries[arr[i]] else BinUnion(ldatum, entries[arr[i]]);
        left := left + [arr[i]];
      } else {
        JoinedNext(entries, right, arr[i]);
        rdatum := if right == [] then entries[arr[i]] else BinUnion(rdatum, entries[arr[i]]);
        right := right + [arr[i]];
      }
      i := i + 1;
    }
    assert arr[..i] == arr;
    var ll := NodeCpLen(ldatum);
    var lr := NodeCpLen(rdatum);
    var m := if ll >= lr then ll else lr;
    ldatum, rdatum := Truncate(ldatum, m + 1), Truncate(rdatum, m + 1);
  }

  lemma JoinedNext(entries: seq<Key>, offsets: seq<nat>, next: nat)
    requires next < |entries| && forall i | 0 <= i < |offsets| :: offsets[i] < |entries|
    ensures var more := Chosen(entries, offsets + [next]);
            Joined(more) == if offsets == [] then entries[next]
                            else BinUnion(Joined(Chosen(entries, offsets)), entries[next])
  {
    var more := Chosen(entries, offsets + [next]);
    assert more[..|offsets|] == Chosen(entries, offsets);
  }

  // ---------------------------------------------------------------- when a half keeps its items

  /** An entry whose upper bound was cut while the half's bound goes on past it with room above. */
  ghost predicate Outgrows(t: Key, e: Key) {
    Open(e) && e.upper < t.upper && exists i | |e.upper| <= i < |t.upper| :: t.upper[i] < 255
  }

  /** An entry whose items can escape a search under the key of its half: it outgrows the key, and the half's
      lower bound is no prefix of its upper bound. */
  ghost predicate Escapes(t: Key, e: Key) { Outgrows(t, e) && !(t.lower <= e.upper) }

  ghost predicate Below(side: seq<Key>, x: Bytes) { exists k | 0 <= k < |side| :: Covers(side[k], x) }

  /** An item that escapes. */
  lemma EscapesLost(t: Key, e: Key) returns (x: Bytes)
    requires Ordered(e) && LexLeq(t.lower, e.lower) && Escapes(t, e)
    ensures Covers(e, x) && !Consistent(t, x, Equal, false)
  {
    var i :| |e.upper| <= i < |t.upper| && t.upper[i] < 255;
    x := t.upper[..i] + [255];
    assert e.upper <= x;
    PrefixLeq(e.upper, x);
    LexLeqLeq(e.lower, e.upper, x);
    LexAt(t.upper, x, i);
    if t.lower <= x && |t.lower| > |e.upper| {
      assert e.upper < t.lower;
      LexLeqLeq(t.lower, e.lower, e.upper);
      ProperPrefixLess(e.upper, t.lower);
    }
    assert t.lower <= x ==> t.lower <= e.upper;
    assert t.upper[i] != x[i];
  }

  lemma {:induction false} LexAt(a: Bytes, b: Bytes, i: nat)
    requires i < |a| && i < |b| && a[..i] == b[..i] && a[i] < b[i]
    ensures LexLess(a, b)
  {
    if i > 0 {
      assert a[0] == a[..i][0] == b[..i][0] == b[0];
      assert a[1..][..i - 1] == a[..i][1..] && b[1..][..i - 1] == b[..i][1..];
      LexAt(a[1..], b[1..], i - 1);
    }
  }

  lemma {:induction false} ProperPrefixLess(p: Bytes, a: Bytes)
    requires p < a
    ensures LexLess(p, a)
  {
    if p != [] { ProperPrefixLess(p[1..], a[1..]); }
  }

  /** Bytes of 255 leave no room above. */
  lemma {:induction false} NoRoomAbove(p: Bytes, u: Bytes, x: Bytes)
    requires p <= u && p <= x && forall i | |p| <= i < |u| :: u[i] == 255
    ensures LexLeq(x, u) || u <= x
  {
    if u != [] && x != [] {
      assert p != [] ==> u[0] == p[0] == x[0];
      if u[0] == x[0] {
        var p' := if p == [] then [] else p[1..];
        NoRoomAbove(p', u[1..], x[1..]);
        if u[1..] <= x[1..] { assert u == [u[0]] + u[1..] && x == [x[0]] + x[1..]; }
      }
    }
  }

  /** Whatever the strategy, a query that accepts the item is consistent with the key. */
  ghost predicate FoundUnder(t: Key, x: Bytes) {
    forall q, s | Op(s, x, q) :: Consistent(t, q, s, false)
  }

  /** An item within the joined bounds extends the cut upper bound or is within it. */
  lemma CutWithin(u: Key, m: nat, x: Bytes)
    requires m >= PrefixLength(u) && LexLeq(x, u.upper)
    ensures var t := Truncate(u, m + 1); LexLeq(x, t.upper) || (t.upper <= x && Open(t))
  {
    hide Cp, LexLess;
    var t := Truncate(u, m + 1);
    TakeCp(u.lower, u.upper, m + 2);
    PrefixCut(t.upper, x, u.upper);
    LexTotal(x, t.upper);
  }

  /** An item beyond them extends the upper bound of its entry, which is at least as long as a cut one. */
  lemma CutBeyond(u: Key, e: Key, m: nat, x: Bytes)
    requires m >= PrefixLength(u) && !LexLeq(x, u.upper) && Covers(e, x) && Ordered(e)
    requires LexLeq(u.lower, e.lower) && LexLeq(e.upper, u.upper)
    ensures e.upper <= u.upper && e.upper <= x && Open(Truncate(u, m + 1))
  {
    hide Cp, LexLess;
    if LexLeq(x, e.upper) { LexLeqLeq(x, e.upper, u.upper); }
    LexTotal(x, u.upper);
    PrefixCut(e.upper, u.upper, x);
    LexTotal(e.upper, u.upper);
    CpBetween(u.lower, e.lower, e.upper);
    LexLeqLeq(u.lower, e.lower, e.upper);
    CpBetween(u.lower, e.upper, u.upper);
    TakeCp(u.lower, u.upper, m + 2);
  }

  /** Without escapes every item of the half is within the cut bounds or extends one of them. */
  lemma StaysNear(side: seq<Key>, m: nat, k: nat, x: Bytes)
    requires k < |side| && Ordered(side[k]) && Covers(side[k], x) && m >= PrefixLength(Joined(side))
    requires !Escapes(Truncate(Joined(side), m + 1), side[k])
    ensures var t := Truncate(Joined(side), m + 1);
            LexLeq(t.lower, x) && (LexLeq(x, t.upper) || t.upper <= x || t.lower <= x)
  {
    hide Cp, LexLess, Joined, Open;
    var u, e := Joined(side), side[k];
    var t := Truncate(u, m + 1);
    JoinedWider(side, k);
    PrefixLeq(t.lower, u.lower);
    LexLeqLeq(t.lower, u.lower, e.lower);
    LexLeqLeq(t.lower, e.lower, x);
    if LexLeq(x, u.upper) {
      CutWithin(u, m, x);
    } else {
      CutBeyond(u, e, m, x);
      if LexLeq(x, e.upper) { LexLeqLeq(x, e.upper, u.upper); }
      if e.upper < t.upper && !(t.lower <= e.upper) { NoRoomAbove(e.upper, t.upper, x); }
    }
  }

  /** Equal cut bounds were equal before the cut, and then all items below are the same. */
  lemma EqualBounds(side: seq<Key>, m: nat, k: nat, x: Bytes)
    requires k < |side| && Ordered(side[k]) && Covers(side[k], x) && m >= PrefixLength(Joined(side))
    requires Truncate(Joined(side), m + 1).lower == Truncate(Joined(side), m + 1).upper
    ensures x == Truncate(Joined(side), m + 1).lower
  {
    var u, e := Joined(side), side[k];
    var t := Truncate(u, m + 1);
    TakeCp(u.lower, u.upper, m + 2);
    CpAtLeast(t.lower, t.upper, |t.lower|);
    CpMeans(u.lower, u.upper);
    assert u.lower == t.lower && u.upper == t.upper;
    JoinedWider(side, k);
    LexLeqLeq(e.lower, e.upper, u.upper);
    LexTotal(e.lower, u.lower);
    LexLeqLeq(u.lower, e.lower, e.upper);
    LexTotal(e.upper, u.upper);
    CpAtLeast(e.lower, e.upper, |e.upper|);
    LexTotal(x, u.upper);
  }

  lemma NearFound(t: Key, x: Bytes, q: Bytes, s: Strategy)
    requires Ordered(t) && LexLeq(t.lower, x) && (LexLeq(x, t.upper) || t.upper <= x || t.lower <= x)
    requires t.lower == t.upper ==> x == t.lower
    requires Op(s, x, q)
    ensures Consistent(t, q, s, false)
  {
    LexTotal(x, q);
    if s.LessEqual? || s.Less? {
      LexLeqLeq(t.lower, x, q);
    } else if s.Greater? || s.GreaterEqual? {
      if LexLeq(x, t.upper) {
        LexLeqLeq(q, x, t.upper);
      } else if t.upper <= x {
        PrefixCut(t.upper, q, x);
        LexTotal(q, t.upper);
      } else {
        PrefixCut(t.lower, q, x);
        LexTotal(q, t.upper);
        if LexLess(q, t.lower) { LexLessLeq(q, t.lower, t.upper); }
      }
    }
  }

  lemma StaysFound(side: seq<Key>, m: nat, k: nat, x: Bytes)
    requires k < |side| && Ordered(side[k]) && Covers(side[k], x) && m >= PrefixLength(Joined(side))
    requires !Escapes(Truncate(Joined(side), m + 1), side[k])
    ensures FoundUnder(Truncate(Joined(side), m + 1), x)
  {
    hide Consistent, Escapes, Covers, Truncate, Joined, Cp;
    var t := Truncate(Joined(side), m + 1);
    StaysNear(side, m, k, x);
    if t.lower == t.upper { EqualBounds(side, m, k, x); }
    CutOrdered(side, m, k);
    forall q, s | Op(s, x, q) ensures Consistent(t, q, s, false) { NearFound(t, x, q, s); }
  }

  lemma CutOrdered(side: seq<Key>, m: nat, k: nat)
    requires k < |side| && Ordered(side[k])
    ensures Ordered(Truncate(Joined(side), m + 1))
  {
    var u, e := Joined(side), side[k];
    JoinedWider(side, k);
    LexLeqLeq(u.lower, e.lower, e.upper);
    LexLeqLeq(u.lower, e.upper, u.upper);
    TakeMonotone(u.lower, u.upper, m + 2);
  }

  /** The exact condition: a search under the key of a half finds every item its entries can stand for,
      whatever the strategy, if and only if no entry of the half escapes. */
  lemma SplitExact(side: seq<Key>, m: nat)
    requires side != [] && m >= PrefixLength(Joined(side))
    requires forall k | 0 <= k < |side| :: Ordered(side[k])
    ensures var t := Truncate(Joined(side), m + 1);
            (forall x | Below(side, x) :: FoundUnder(t, x))
              <==> forall k | 0 <= k < |side| :: !Escapes(t, side[k])
  {
    hide Consistent, Escapes, Covers, Ordered;
    var t := Truncate(Joined(side), m + 1);
    if forall k | 0 <= k < |side| :: !Escapes(t, side[k]) {
      forall x | Below(side, x) ensures FoundUnder(t, x) {
        var k :| 0 <= k < |side| && Covers(side[k], x);
        StaysFound(side, m, k, x);
      }
    } else {
      var k :| 0 <= k < |side| && Escapes(t, side[k]);
      JoinedWider(side, k);
      PrefixLeq(t.lower, Joined(side).lower);
      LexLeqLeq(t.lower, Joined(side).lower, side[k].lower);
      var x := EscapesLost(t, side[k]);
      assert Below(side, x);
      assert Op(Equal, x, x);
    }
  }

  /** Splits of leaf keys lose nothing. */
  lemma LeafSplitSafe(side: seq<Key>, m: nat, k: nat)
    requires k < |side| && side[k].lower == side[k].upper
    ensures !Escapes(Truncate(Joined(side), m + 1), side[k])
  {
    CpMeans(side[k].lower, side[k].upper);
    CpAtLeast(side[k].upper, side[k].upper, |side[k].upper|);
  }

  // ---------------------------------------------------------------- when a half keeps its promise

  /** The key of a half covers what an entry covers unless the entry outgrows it. */
  lemma HalfCovers(side: seq<Key>, m: nat, k: nat, x: Bytes)
    requires k < |side| && Ordered(side[k]) && Covers(side[k], x) && m >= PrefixLength(Joined(side))
    requires !Outgrows(Truncate(Joined(side), m + 1), side[k])
    ensures Covers(Truncate(Joined(side), m + 1), x)
  {
    hide Cp, LexLess, Joined, Open;
    var u, e := Joined(side), side[k];
    var t := Truncate(u, m + 1);
    JoinedWider(side, k);
    PrefixLeq(t.lower, u.lower);
    LexLeqLeq(t.lower, u.lower, e.lower);
    LexLeqLeq(t.lower, e.lower, x);
    if LexLeq(x, u.upper) {
      CutWithin(u, m, x);
    } else {
      CutBeyond(u, e, m, x);
      if LexLeq(x, e.upper) { LexLeqLeq(x, e.upper, u.upper); }
      if e.upper < t.upper { NoRoomAbove(e.upper, t.upper, x); }
    }
  }

  /** An item that an outgrowing entry covers and the key of the half does not. */
  lemma OutgrowsLost(t: Key, e: Key) returns (x: Bytes)
    requires Ordered(e) && Outgrows(t, e)
    ensures Covers(e, x) && !Covers(t, x)
  {
    var i :| |e.upper| <= i < |t.upper| && t.upper[i] < 255;
    x := t.upper[..i] + [255];
    assert e.upper <= x;
    PrefixLeq(e.upper, x);
    LexLeqLeq(e.lower, e.upper, x);
    LexAt(t.upper, x, i);
    LexTotal(t.upper, x);
    assert t.upper[i] != x[i];
  }

  /** The exact condition: the key of a half covers whatever its entries cover if and only if none outgrows it. */
  lemma HalfCoversExact(side: seq<Key>, m: nat)
    requires side != [] && m >= PrefixLength(Joined(side))
    requires forall k | 0 <= k < |side| :: Ordered(side[k])
    ensures var t := Truncate(Joined(side), m + 1);
            (forall x | Below(side, x) :: Covers(t, x)) <==> forall k | 0 <= k < |side| :: !Outgrows(t, side[k])
  {
    hide Outgrows, Covers, Ordered;
    var t := Truncate(Joined(side), m + 1);
    if forall k | 0 <= k < |side| :: !Outgrows(t, side[k]) {
      forall x | Below(side, x) ensures Covers(t, x) {
        var k :| 0 <= k < |side| && Covers(side[k], x);
        HalfCovers(side, m, k, x);
      }
    } else {
      var k :| 0 <= k < |side| && Outgrows(t, side[k]);
      var x := OutgrowsLost(t, side[k]);
      assert Below(side, x);
    }
  }

  /** Leaf keys outgrow nothing. */
  lemma LeafStays(t: Key, e: Key)
    requires e.lower == e.upper
    ensures !Outgrows(t, e)
  {
    CpMeans(e.lower, e.upper);
    CpAtLeast(e.upper, e.upper, |e.upper|);
  }

  // ---------------------------------------------------------------- a split that loses an item

  const ZERO: Bytes := [48]
  const AB: Bytes := [97, 98]
  const ABC: Bytes := [97, 98, 99]
  const ABZ: Bytes := [97, 98, 122]
  const B: Bytes := [98]

  lemma ByteOrder()
    ensures LexLess(ZERO, AB) && LexLess(ZERO, ABC) && LexLess(ZERO, ABZ) && LexLess(AB, ABC) && LexLess(ABC, ABZ)
  {
    LexAt(ZERO, AB, 0);
    LexAt(ZERO, ABC, 0);
    LexAt(ZERO, ABZ, 0);
    LexAt(ABC, ABZ, 2);
    ProperPrefixLess(AB, ABC);
  }

  lemma JoinedPair(a: Key, b: Key)
    ensures Joined([a, b]) == BinUnion(a, b)
  {
    assert [a, b][..1] == [a];
  }

  /** The union of the items "0" and "abz" ends in "ab". */
  lemma CutUnion()
    ensures UnionOf([Key(ZERO, ZERO), Key(ABZ, ABZ)]) == Key(ZERO, AB)
    ensures Ordered(Key(ZERO, AB)) && Covers(Key(ZERO, AB), ABZ)
  {
    ByteOrder();
    JoinedPair(Key(ZERO, ZERO), Key(ABZ, ABZ));
    LexTotal(ZERO, ABZ);
    LexTotal(ZERO, AB);
    assert Cp(ZERO, ABZ) == 0 && Cp(ZERO, AB) == 0;
  }

  /** That key and the item "abc" make the left half; the right half has a longer common prefix, so the left
      key ends in "abc". */
  lemma CutHalves(entries: seq<Key>)
    requires entries == [Key(ZERO, AB), Key(ABC, ABC), Key(B, B), Key(B, B)]
    ensures Chosen(entries, [0, 1]) == [Key(ZERO, AB), Key(ABC, ABC)]
    ensures Joined(Chosen(entries, [0, 1])) == Key(ZERO, ABC)
    ensures Joined(Chosen(entries, [2, 3])) == Key(B, B)
    ensures PrefixLength(Key(ZERO, ABC)) == 0 && PrefixLength(Key(B, B)) == 1
    ensures Truncate(Key(ZERO, ABC), 2) == Key(ZERO, ABC) && !Consistent(Key(ZERO, ABC), ABZ, Equal, false)
  {
    ByteOrder();
    assert Chosen(entries, [0, 1]) == [Key(ZERO, AB), Key(ABC, ABC)];
    assert Chosen(entries, [2, 3]) == [Key(B, B), Key(B, B)];
    JoinedPair(Key(ZERO, AB), Key(ABC, ABC));
    JoinedPair(Key(B, B), Key(B, B));
    LexTotal(ZERO, ABC);
    LexTotal(B, B);
    LexTotal(ABC, ABZ);
    assert Cp(B[1..], B[1..]) == 0;
    assert ABC[2] != ABZ[2];
  }

  /** A split in which an item is lost: the entry covers "abz", the key of the half it lands in prunes it. */
  method CutSplitLoses() returns (entry: Key, left: seq<nat>, ldatum: Key)
    ensures entry == UnionOf([Key(ZERO, ZERO), Key(ABZ, ABZ)]) && Covers(entry, ABZ)
    ensures left == [0, 1] && !Consistent(ldatum, ABZ, Equal, false)
  {
    hide UnionOf, Joined, Chosen, Consistent, Truncate, Covers, PrefixLength;
    entry := Union([Key(ZERO, ZERO), Key(ABZ, ABZ)]);
    CutUnion();
    var entries := [entry, Key(ABC, ABC), Key(B, B), Key(B, B)];
    var arr: seq<nat> := [0, 1, 2, 3];
    var right, rdatum;
    left, right, ldatum, rdatum := PickSplit(entries, arr);
    assert left == arr[..2] && right == arr[2..];
    CutHalves(entries);
  }
}
