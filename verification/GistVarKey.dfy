/** Variable-length keys of the B-tree-like GiST operator classes, for bytea
    (contrib/btree_gist/btree_utils_var.c): keys hold a lower and an upper bound that are cut short two
    bytes past their common prefix, and a search must still reach every item below a key. */
module GistVarKey {
  import opened Sequences

  type Byte = b: int | 0 <= b < 256
  type Bytes = seq<Byte>

  datatype Key = Key(lower: Bytes, upper: Bytes)

  // ---------------------------------------------------------------- common prefixes

  /** The length of the longest common prefix. */
  ghost function Cp(a: Bytes, b: Bytes): nat {
    if a == [] || b == [] || a[0] != b[0] then 0 else 1 + Cp(a[1..], b[1..])
  }

  lemma {:induction false} CpMeans(a: Bytes, b: Bytes)
    ensures Cp(a, b) <= |a| && Cp(a, b) <= |b| && a[..Cp(a, b)] == b[..Cp(a, b)]
    ensures Cp(a, b) < |a| && Cp(a, b) < |b| ==> a[Cp(a, b)] != b[Cp(a, b)]
  {
    if a != [] && b != [] && a[0] == b[0] {
      CpMeans(a[1..], b[1..]);
      var n := Cp(a[1..], b[1..]);
      assert a[..n + 1] == [a[0]] + a[1..][..n] && b[..n + 1] == [b[0]] + b[1..][..n];
    }
  }

  lemma CpAtLeast(a: Bytes, b: Bytes, n: nat)
    requires n <= |a| && n <= |b| && a[..n] == b[..n]
    ensures Cp(a, b) >= n
  {
    CpMeans(a, b);
    assert forall i | 0 <= i < n :: a[i] == a[..n][i] == b[..n][i] == b[i];
  }

  /** Bounds that lie between two others agree at least as far. */
  lemma {:induction false} CpBetween(a: Bytes, b: Bytes, c: Bytes)
    requires LexLeq(a, b) && LexLeq(b, c)
    ensures Cp(a, c) <= Cp(a, b) && Cp(a, c) <= Cp(b, c)
  {
    if a != [] && c != [] && a[0] == c[0] { CpBetween(a[1..], b[1..], c[1..]); }
  }

  lemma {:induction false} PrefixLeq(p: Bytes, a: Bytes)
    requires p <= a
    ensures LexLeq(p, a)
  {
    if p != [] { PrefixLeq(p[1..], a[1..]); }
  }

  function Take(a: Bytes, n: nat): Bytes { if |a| <= n then a else a[..n] }

  lemma {:induction false} TakeMonotone(a: Bytes, b: Bytes, n: nat)
    requires LexLeq(a, b)
    ensures LexLeq(Take(a, n), Take(b, n))
  {
    if n > 0 && a != [] && b != [] && a[0] == b[0] {
      TakeMonotone(a[1..], b[1..], n - 1);
      TakeTail(a, n);
      TakeTail(b, n);
    }
  }

  lemma TakeTail(a: Bytes, n: nat)
    requires a != [] && n > 0
    ensures Take(a, n) != [] && Take(a, n)[0] == a[0] && Take(a, n)[1..] == Take(a[1..], n - 1)
  {
  }

  lemma TakeCp(a: Bytes, b: Bytes, n: nat)
    requires n > Cp(a, b)
    ensures Cp(Take(a, n), Take(b, n)) == Cp(a, b)
  {
    CpMeans(a, b);
    CpMeans(Take(a, n), Take(b, n));
    var c := Cp(a, b);
    assert Take(a, n)[..c] == Take(b, n)[..c];
    CpAtLeast(Take(a, n), Take(b, n), c);
    var d := Cp(Take(a, n), Take(b, n));
    assert a[..d] == Take(a, n)[..d] && b[..d] == Take(b, n)[..d];
    CpAtLeast(a, b, d);
  }

  /** gbt_var_node_cp_len, for single-byte characters. */
  method NodeCpLen(node: Key) returns (len: nat)
    ensures len == Cp(node.lower, node.upper)
  {
    var p1, p2 := node.lower, node.upper;
    var ml := if |p1| < |p2| then |p1| else |p2|;
    CpMeans(p1, p2);
    var i := 0;
    while i < ml
      invariant 0 <= i <= ml && p1[..i] == p2[..i]
    {
      if p1[i] != p2[i] {
        CpAtLeast(p1, p2, i);
        assert forall j | 0 <= j < Cp(p1, p2) :: p1[j] == p1[..Cp(p1, p2)][j] == p2[..Cp(p1, p2)][j];
        return i;
      }
      i := i + 1;
    }
    CpAtLeast(p1, p2, i);
    return ml;
  }

  // ---------------------------------------------------------------- unions

  /** gbt_var_node_truncate */
  function Truncate(node: Key, cpf: nat): Key { Key(Take(node.lower, cpf + 1), Take(node.upper, cpf + 1)) }

  /** gbt_var_bin_union onto an existing key. */
  function BinUnion(u: Key, e: Key): Key {
    Key(if LexLess(e.lower, u.lower) then e.lower else u.lower,
        if LexLess(u.upper, e.upper) then e.upper else u.upper)
  }

  function Joined(entries: seq<Key>): Key
    requires entries != []
  {
    var n := |entries| - 1;
    if n == 0 then entries[0] else BinUnion(Joined(entries[..n]), entries[n])
  }

  /** gbt_var_union */
  method Union(entries: seq<Key>) returns (out: Key)
    requires entries != []
    ensures out == UnionOf(entries)
  {
    out := entries[0];
    var i := 1;
    while i < |entries|
      invariant 1 <= i <= |entries| && out == Joined(entries[..i])
    {
      assert entries[..i + 1][..i] == entries[..i];
      out := BinUnion(out, entries[i]);
      i := i + 1;
    }
    assert entries[..i] == entries;
    var plen := NodeCpLen(out);
    out := Truncate(out, plen + 1);
  }

  ghost function UnionOf(entries: seq<Key>): Key
    requires entries != []
  {
    var u := Joined(entries);
    Truncate(u, Cp(u.lower, u.upper) + 1)
  }

  predicate Ordered(k: Key) { LexLeq(k.lower, k.upper) }

  /** What a stored key promises of an item below it: the item is not below the lower bound, and it is not
      above the upper bound or extends an upper bound that was cut. */
  ghost predicate Covers(k: Key, x: Bytes) {
    LexLeq(k.lower, x) && (LexLeq(x, k.upper) || (k.upper <= x && Open(k)))
  }

  /** The upper bound is long enough to have been cut. */
  ghost predicate Open(k: Key) { |k.upper| >= Cp(k.lower, k.upper) + 2 }

  /** What remains true while bounds are joined and not yet cut. */
  ghost predicate NearlyCovers(k: Key, x: Bytes) {
    LexLeq(k.lower, x) && (LexLeq(x, k.upper) || Cp(x, k.upper) >= Cp(k.lower, k.upper) + 2)
  }

  lemma CoversNearly(k: Key, x: Bytes)
    requires Covers(k, x)
    ensures NearlyCovers(k, x)
  {
    if !LexLeq(x, k.upper) { CpAtLeast(x, k.upper, |k.upper|); }
  }

  lemma WiderCovers(k: Key, w: Key, x: Bytes)
    requires Ordered(k) && NearlyCovers(k, x) && LexLeq(w.lower, k.lower) && LexLeq(k.upper, w.upper)
    ensures Ordered(w) && NearlyCovers(w, x)
  {
    LexLeqLeq(w.lower, k.lower, k.upper);
    LexLeqLeq(w.lower, k.upper, w.upper);
    LexLeqLeq(w.lower, k.lower, x);
    CpBetween(w.lower, k.lower, k.upper);
    CpBetween(w.lower, k.upper, w.upper);
    if LexLeq(x, k.upper) {
      LexLeqLeq(x, k.upper, w.upper);
    } else if !LexLeq(x, w.upper) {
      LexTotal(w.upper, x);
      CpBetween(k.upper, w.upper, x);
      CpSymmetric(x, k.upper);
      CpSymmetric(x, w.upper);
    }
  }

  lemma {:induction false} CpSymmetric(a: Bytes, b: Bytes)
    ensures Cp(a, b) == Cp(b, a)
  {
    if a != [] && b != [] && a[0] == b[0] { CpSymmetric(a[1..], b[1..]); }
  }

  lemma BinUnionWider(u: Key, e: Key)
    ensures var w := BinUnion(u, e);
            LexLeq(w.lower, u.lower) && LexLeq(w.lower, e.lower) && LexLeq(u.upper, w.upper) && LexLeq(e.upper, w.upper)
  {
    LexTotal(u.lower, e.lower);
    LexTotal(u.upper, e.upper);
    LexTotal(u.lower, u.lower);
    LexTotal(u.upper, u.upper);
    LexTotal(e.lower, e.lower);
    LexTotal(e.upper, e.upper);
  }

  lemma {:induction false} JoinedWider(entries: seq<Key>, k: nat)
    requires k < |entries|
    ensures var w := Joined(entries);
            LexLeq(w.lower, entries[k].lower) && LexLeq(entries[k].upper, w.upper)
  {
    var n := |entries| - 1;
    if n == 0 {
      LexTotal(entries[0].lower, entries[0].lower);
      LexTotal(entries[0].upper, entries[0].upper);
    } else {
      var u, w := Joined(entries[..n]), Joined(entries);
      BinUnionWider(u, entries[n]);
      if k < n {
        JoinedWider(entries[..n], k);
        LexLeqLeq(w.lower, u.lower, entries[k].lower);
        LexLeqLeq(entries[k].upper, u.upper, w.upper);
      }
    }
  }

  /** The joined bounds are no wider than the entries: each is a bound of one of them. */
  lemma {:induction false} JoinedTight(entries: seq<Key>) returns (i: nat, j: nat)
    requires entries != []
    ensures i < |entries| && j < |entries| && Joined(entries) == Key(entries[i].lower, entries[j].upper)
  {
    hide LexLess;
    var n := |entries| - 1;
    if n == 0 { return 0, 0; }
    var u, e := Joined(entries[..n]), entries[n];
    i, j := JoinedTight(entries[..n]);
    if LexLess(e.lower, u.lower) { i := n; }
    if LexLess(u.upper, e.upper) { j := n; }
  }

  /** Entry i has the least lower bound and entry j the greatest upper bound. */
  ghost predicate Outermost(entries: seq<Key>, i: nat, j: nat) {
    && i < |entries| && j < |entries|
    && forall k | 0 <= k < |entries| ::
         LexLeq(entries[i].lower, entries[k].lower) && LexLeq(entries[k].upper, entries[j].upper)
  }

  /** A union's bounds are the outermost of the entries, cut two bytes past their common prefix. */
  lemma UnionTight(entries: seq<Key>) returns (i: nat, j: nat)
    requires entries != []
    ensures Outermost(entries, i, j)
    ensures var n := Cp(entries[i].lower, entries[j].upper) + 2;
            UnionOf(entries) == Key(Take(entries[i].lower, n), Take(entries[j].upper, n))
  {
    hide Cp, LexLess, Joined;
    i, j := JoinedTight(entries);
    forall k | 0 <= k < |entries|
      ensures LexLeq(entries[i].lower, entries[k].lower) && LexLeq(entries[k].upper, entries[j].upper)
    {
      JoinedWider(entries, k);
    }
  }

  /** Cutting two bytes past the common prefix restores the promise. */
  lemma TruncateCovers(k: Key, x: Bytes)
    requires Ordered(k) && NearlyCovers(k, x)
    ensures var t := Truncate(k, Cp(k.lower, k.upper) + 1);
            Ordered(t) && Covers(t, x)
  {
    hide Cp, LexLess;
    var c := Cp(k.lower, k.upper);
    var t := Truncate(k, c + 1);
    TakeMonotone(k.lower, k.upper, c + 2);
    TakeCp(k.lower, k.upper, c + 2);
    PrefixLeq(t.lower, k.lower);
    LexLeqLeq(t.lower, k.lower, x);
    CpMeans(x, k.upper);
    if LexLeq(x, k.upper) {
      PrefixCut(t.upper, x, k.upper);
      LexTotal(x, t.upper);
    } else {
      assert x[..c + 2] == x[..Cp(x, k.upper)][..c + 2] == k.upper[..Cp(x, k.upper)][..c + 2] == t.upper;
    }
  }

  /** The union of keys covers whatever one of them covers. */
  lemma UnionCovers(entries: seq<Key>, k: nat, x: Bytes)
    requires k < |entries| && Ordered(entries[k]) && Covers(entries[k], x)
    ensures Ordered(UnionOf(entries)) && Covers(UnionOf(entries), x)
  {
    CoversNearly(entries[k], x);
    JoinedWider(entries, k);
    WiderCovers(entries[k], Joined(entries), x);
    TruncateCovers(Joined(entries), x);
  }

  // ---------------------------------------------------------------- search

  datatype Strategy = LessEqual | Less | Equal | Greater | GreaterEqual | NotEqual

  /** What the operator of a strategy says of an item and the query. */
  predicate Op(s: Strategy, x: Bytes, q: Bytes) {
    match s
    case LessEqual => LexLeq(x, q)
    case Less => LexLess(x, q)
    case Equal => x == q
    case Greater => LexLess(q, x)
    case GreaterEqual => LexLeq(q, x)
    case NotEqual => x != q
  }

  /** gbt_var_consistent */
  predicate Consistent(key: Key, q: Bytes, s: Strategy, isLeaf: bool) {
    var match_ := key.lower <= q || key.upper <= q;
    match s
    case LessEqual => if isLeaf then LexLeq(key.lower, q) else LexLeq(key.lower, q) || match_
    case Less => if isLeaf then LexLess(key.lower, q) else LexLeq(key.lower, q) || match_
    case Equal => if isLeaf then q == key.lower else (LexLeq(key.lower, q) && LexLeq(q, key.upper)) || match_
    case Greater => if isLeaf then LexLess(q, key.upper) else LexLeq(q, key.upper) || match_
    case GreaterEqual => if isLeaf then LexLeq(q, key.upper) else LexLeq(q, key.upper) || match_
    case NotEqual => !(q == key.lower && q == key.upper)
  }

  /** A key never prunes an item it covers, for any of the six strategies. */
  lemma NeverPrunes(k: Key, x: Bytes, q: Bytes, s: Strategy)
    requires Covers(k, x) && Op(s, x, q)
    ensures Consistent(k, q, s, false)
  {
    match s
    case LessEqual => LexLeqLeq(k.lower, x, q);
    case Less => LexTotal(x, q); LexLeqLeq(k.lower, x, q);
    case Equal =>
    case Greater => UpperReached(k, x, q);
    case GreaterEqual => UpperReached(k, x, q);
    case NotEqual =>
      LexTotal(k.lower, x);
      LexTotal(x, k.upper);
      CpMeans(k.lower, k.upper);
      CpAtLeast(k.upper, k.upper, |k.upper|);
  }

  /** An inner key is followed if and only if some item it may cover would match or, except for not-equal, the query
      extends one of its bounds. */
  lemma FollowedExactly(k: Key, q: Bytes, s: Strategy)
    requires Ordered(k)
    ensures Consistent(k, q, s, false) <==>
              (exists x :: Covers(k, x) && Op(s, x, q)) || (!s.NotEqual? && (k.lower <= q || k.upper <= q))
  {
    BoundsCovered(k);
    if x :| Covers(k, x) && Op(s, x, q) { NeverPrunes(k, x, q, s); }
    match s
    case LessEqual => LowerReached(k, q);
    case Less => LowerReached(k, q); LexTotal(k.lower, q);
    case Equal =>
      if LexLeq(k.lower, q) && LexLeq(q, k.upper) { assert Covers(k, q) && Op(Equal, q, q); }
    case Greater => LexTotal(q, k.upper);
    case GreaterEqual =>
    case NotEqual =>
  }

  lemma BoundsCovered(k: Key)
    requires Ordered(k)
    ensures Covers(k, k.lower) && Covers(k, k.upper)
  {
    LexTotal(k.lower, k.lower);
    LexTotal(k.upper, k.upper);
  }

  lemma LowerReached(k: Key, q: Bytes)
    requires Ordered(k)
    ensures k.lower <= q || k.upper <= q ==> LexLeq(k.lower, q)
  {
    if k.lower <= q {
      PrefixLeq(k.lower, q);
    } else if k.upper <= q {
      PrefixLeq(k.upper, q);
      LexLeqLeq(k.lower, k.upper, q);
    }
  }

  /** What is at most an item is at most the upper bound or extends it. */
  lemma UpperReached(k: Key, x: Bytes, q: Bytes)
    requires Covers(k, x) && (LexLeq(q, x) || LexLess(q, x))
    ensures LexLeq(q, k.upper) || k.upper <= q
  {
    LexTotal(q, x);
    if LexLeq(x, k.upper) {
      LexLeqLeq(q, x, k.upper);
    } else {
      PrefixCut(k.upper, q, x);
      LexTotal(q, k.upper);
    }
  }
}
