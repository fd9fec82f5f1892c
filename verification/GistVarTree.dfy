/** Search in whole trees of truncated keys (contrib/btree_gist/btree_utils_var.c).  An inner key is the union of the
    keys below it, or what a split makes of them, which is a union cut further to the right.  No such tree returns a
    wrong item; which trees lose none is proved exactly. */
module GistVarTree {
  import opened Sequences
  import opened GistVarKey
  import opened GistVarSplit

  /** A tree, nested in any way; `cut` is the prefix length at which the bounds of an inner key were cut. */
  datatype Tree = Item(x: Bytes) | Inner(kids: seq<Tree>, cut: nat)

  ghost function Keys(kids: seq<Tree>): (r: seq<Key>)
    ensures |r| == |kids| && forall i | 0 <= i < |kids| :: r[i] == KeyOf(kids[i])
  {
    seq(|kids|, i requires 0 <= i < |kids| => KeyOf(kids[i]))
  }

  ghost function KeyOf(t: Tree): Key {
    match t
    case Item(x) => Key(x, x)
    case Inner(kids, cut) => if kids == [] then Key([], []) else Truncate(Joined(Keys(kids)), cut + 1)
  }

  /** Unions cut at their own prefix length; a half of a split at that of the other half when it is longer. */
  ghost predicate Proper(t: Tree) {
    t.Inner? ==> && t.kids != [] && t.cut >= PrefixLength(Joined(Keys(t.kids)))
                 && forall i | 0 <= i < |t.kids| :: Proper(t.kids[i])
  }

  /** The items of a tree, from left to right. */
  ghost function Items(t: Tree): seq<Bytes> {
    match t
    case Item(x) => [x]
    case Inner(kids, _) => ItemsOf(kids)
  }

  ghost function ItemsOf(kids: seq<Tree>): seq<Bytes> {
    if kids == [] then [] else Items(kids[0]) + ItemsOf(kids[1..])
  }

  /** The GiST search: a subtree is entered when its key is consistent, an item returned likewise. */
  ghost function Search(t: Tree, q: Bytes, s: Strategy): seq<Bytes> {
    if !Consistent(KeyOf(t), q, s, t.Item?) then []
    else
      match t
      case Item(x) => [x]
      case Inner(kids, _) => SearchOf(kids, q, s)
  }

  ghost function SearchOf(kids: seq<Tree>, q: Bytes, s: Strategy): seq<Bytes> {
    if kids == [] then [] else Search(kids[0], q, s) + SearchOf(kids[1..], q, s)
  }

  /** What a search is for: the items the operator accepts. */
  ghost function Accepted(items: seq<Bytes>, q: Bytes, s: Strategy): seq<Bytes> {
    if items == [] then []
    else if Op(s, items[0], q) then [items[0]] + Accepted(items[1..], q, s)
    else Accepted(items[1..], q, s)
  }

  lemma {:induction false} AcceptedConcat(a: seq<Bytes>, b: seq<Bytes>, q: Bytes, s: Strategy)
    ensures Accepted(a + b, q, s) == Accepted(a, q, s) + Accepted(b, q, s)
  {
    hide Op;
    if a == [] {
      assert a + b == b;
    } else {
      AcceptedConcat(a[1..], b, q, s);
      assert (a + b)[1..] == a[1..] + b && (a + b)[0] == a[0];
    }
  }

  lemma {:induction false} AcceptedNone(items: seq<Bytes>, q: Bytes, s: Strategy)
    ensures Accepted(items, q, s) == [] <==> forall x | x in items :: !Op(s, x, q)
  {
    if items != [] {
      AcceptedNone(items[1..], q, s);
      assert items == [items[0]] + items[1..];
    }
  }

  lemma {:induction false} ItemBelow(kids: seq<Tree>, x: Bytes) returns (i: nat)
    requires x in ItemsOf(kids)
    ensures i < |kids| && x in Items(kids[i])
  {
    if x in Items(kids[0]) {
      i := 0;
    } else {
      i := ItemBelow(kids[1..], x);
      i := i + 1;
    }
  }

  // ---------------------------------------------------------------- what every key keeps

  /** Cutting at or past the common prefix keeps what joining keeps. */
  lemma CutNearly(u: Key, m: nat, x: Bytes)
    requires Ordered(u) && NearlyCovers(u, x) && m >= PrefixLength(u)
    ensures Ordered(Truncate(u, m + 1)) && NearlyCovers(Truncate(u, m + 1), x)
  {
    hide Cp, LexLess;
    var t, c := Truncate(u, m + 1), PrefixLength(u);
    TakeMonotone(u.lower, u.upper, m + 2);
    TakeCp(u.lower, u.upper, m + 2);
    PrefixLeq(t.lower, u.lower);
    LexLeqLeq(t.lower, u.lower, x);
    if LexLeq(x, u.upper) {
      CutWithin(u, m, x);
      if t.upper <= x { CpAtLeast(x, t.upper, |t.upper|); }
    } else {
      CpMeans(x, u.upper);
      assert x[..c + 2] == x[..Cp(x, u.upper)][..c + 2] == u.upper[..c + 2] == t.upper[..c + 2];
      CpAtLeast(x, t.upper, c + 2);
    }
  }

  /** In every tree of unions and splits, each key nearly covers the items below it. */
  lemma {:induction false} TreeNearly(t: Tree, x: Bytes)
    requires Proper(t) && x in Items(t)
    ensures Ordered(KeyOf(t)) && NearlyCovers(KeyOf(t), x)
  {
    hide Cp, LexLess, Truncate, Joined;
    match t
    case Item(y) => LexTotal(y, y);
    case Inner(kids, cut) =>
      var i := ItemBelow(kids, x);
      TreeNearly(kids[i], x);
      var keys := Keys(kids);
      JoinedWider(keys, i);
      WiderCovers(keys[i], Joined(keys), x);
      CutNearly(Joined(keys), cut, x);
  }

  /** The item lies beyond the upper bound without extending either bound. */
  ghost predicate Overshoots(k: Key, x: Bytes) { LexLess(k.upper, x) && !(k.upper <= x) && !(k.lower <= x) }

  /** A key that nearly covers an item finds it, whatever the strategy, unless the item overshoots. */
  lemma NearlyFound(k: Key, x: Bytes)
    requires Ordered(k) && NearlyCovers(k, x)
    ensures FoundUnder(k, x) <==> !Overshoots(k, x)
  {
    hide LexLess, Cp;
    LexTotal(k.upper, x);
    if Overshoots(k, x) {
      assert Op(Equal, x, x);
    } else {
      if k.lower == k.upper {
        CpMeans(x, k.upper);
        CpAtLeast(k.upper, k.upper, |k.upper|);
        LexTotal(x, k.upper);
      }
      forall q, s | Op(s, x, q) ensures Consistent(k, q, s, false) { NearFound(k, x, q, s); }
    }
  }

  // ---------------------------------------------------------------- when a search is exact

  /** No item overshoots a key above it. */
  ghost predicate Tight(t: Tree) {
    t.Inner? ==> && (forall x | x in Items(t) :: !Overshoots(KeyOf(t), x))
                 && forall i | 0 <= i < |t.kids| :: Tight(t.kids[i])
  }

  lemma LeafFound(x: Bytes, q: Bytes, s: Strategy)
    ensures Consistent(Key(x, x), q, s, true) <==> Op(s, x, q)
  {
    LexTotal(x, q);
  }

  /** Search in a tight tree returns the items the operator accepts, each as often and in the same order. */
  lemma {:induction false} TightSearch(t: Tree, q: Bytes, s: Strategy)
    requires Proper(t) && Tight(t)
    ensures Search(t, q, s) == Accepted(Items(t), q, s)
  {
    hide Consistent, Op, KeyOf;
    match t
    case Item(x) =>
      ItemKey(x);
      LeafFound(x, q, s);
      assert Items(t)[1..] == [];
    case Inner(kids, _) =>
      if Consistent(KeyOf(t), q, s, false) {
        TightSearchOf(kids, q, s);
      } else {
        forall x | x in Items(t) ensures !Op(s, x, q) {
          TreeNearly(t, x);
          NearlyFound(KeyOf(t), x);
        }
        AcceptedNone(Items(t), q, s);
      }
  }

  lemma ItemKey(x: Bytes)
    ensures KeyOf(Item(x)) == Key(x, x)
  {
  }

  lemma {:induction false} TightSearchOf(kids: seq<Tree>, q: Bytes, s: Strategy)
    requires forall i | 0 <= i < |kids| :: Proper(kids[i]) && Tight(kids[i])
    ensures SearchOf(kids, q, s) == Accepted(ItemsOf(kids), q, s)
  {
    hide Consistent, Op;
    if kids != [] {
      TightSearch(kids[0], q, s);
      TightSearchOf(kids[1..], q, s);
      AcceptedConcat(Items(kids[0]), ItemsOf(kids[1..]), q, s);
    }
  }

  /** No tree returns too much. */
  lemma {:induction false} SearchAtMost(t: Tree, q: Bytes, s: Strategy)
    ensures |Search(t, q, s)| <= |Accepted(Items(t), q, s)|
    ensures forall x | x in Search(t, q, s) :: x in Items(t) && Op(s, x, q)
  {
    hide Consistent, Op, KeyOf;
    match t
    case Item(x) =>
      ItemKey(x);
      LeafFound(x, q, s);
    case Inner(kids, _) => SearchOfAtMost(kids, q, s);
  }

  lemma {:induction false} SearchOfAtMost(kids: seq<Tree>, q: Bytes, s: Strategy)
    ensures |SearchOf(kids, q, s)| <= |Accepted(ItemsOf(kids), q, s)|
    ensures forall x | x in SearchOf(kids, q, s) :: x in ItemsOf(kids) && Op(s, x, q)
  {
    hide Consistent, Op;
    if kids != [] {
      SearchAtMost(kids[0], q, s);
      SearchOfAtMost(kids[1..], q, s);
      AcceptedConcat(Items(kids[0]), ItemsOf(kids[1..]), q, s);
    }
  }

  /** What one subtree loses the others do not make up for. */
  lemma {:induction false} SearchOfLoses(kids: seq<Tree>, q: Bytes, s: Strategy, i: nat)
    requires i < |kids| && |Search(kids[i], q, s)| < |Accepted(Items(kids[i]), q, s)|
    ensures |SearchOf(kids, q, s)| < |Accepted(ItemsOf(kids), q, s)|
  {
    hide Search, Op;
    AcceptedConcat(Items(kids[0]), ItemsOf(kids[1..]), q, s);
    if i == 0 {
      SearchOfAtMost(kids[1..], q, s);
    } else {
      SearchAtMost(kids[0], q, s);
      SearchOfLoses(kids[1..], q, s, i - 1);
    }
  }

  /** In any other tree some item is not returned by the search for it. */
  lemma {:induction false} LooseSearch(t: Tree) returns (x: Bytes)
    requires !Tight(t)
    ensures |Search(t, x, Equal)| < |Accepted(Items(t), x, Equal)|
  {
    if y :| y in Items(t) && Overshoots(KeyOf(t), y) {
      x := y;
      LexTotal(KeyOf(t).upper, x);
      AcceptedNone(Items(t), x, Equal);
    } else {
      var i :| 0 <= i < |t.kids| && !Tight(t.kids[i]);
      x := LooseSearch(t.kids[i]);
      SearchOfLoses(t.kids, x, Equal, i);
    }
  }

  /** The exact condition: every search returns just what its operator accepts if and only if the tree is tight. */
  lemma SearchExact(t: Tree)
    requires Proper(t)
    ensures (forall q, s :: Search(t, q, s) == Accepted(Items(t), q, s)) <==> Tight(t)
  {
    hide Search, Accepted, Tight;
    if Tight(t) {
      forall q, s ensures Search(t, q, s) == Accepted(Items(t), q, s) { TightSearch(t, q, s); }
    } else {
      var x := LooseSearch(t);
      assert Search(t, x, Equal) != Accepted(Items(t), x, Equal);
    }
  }

  /** The left half of GistVarSplit.CutSplitLoses with what is below it: a union of "0" and "abz" beside "abc". */
  const CUT_UNION := Inner([Item(ZERO), Item(ABZ)], 0)
  const CUT_HALF := Inner([CUT_UNION, Item(ABC)], 1)

  lemma PairOf(a: Tree, b: Tree)
    ensures ItemsOf([a, b]) == Items(a) + Items(b) && Keys([a, b]) == [KeyOf(a), KeyOf(b)]
  {
    hide KeyOf, Items;
    assert [a, b][1..] == [b] && [b][1..] == [];
    assert ItemsOf([b]) == Items(b);
  }

  lemma CutUnionKey()
    ensures Proper(CUT_UNION) && KeyOf(CUT_UNION) == Key(ZERO, AB) && Items(CUT_UNION) == [ZERO, ABZ]
  {
    hide Cp;
    PairOf(Item(ZERO), Item(ABZ));
    CutUnion();
    ByteOrder();
    LexTotal(ZERO, ABZ);
    JoinedPair(Key(ZERO, ZERO), Key(ABZ, ABZ));
    CpMeans(ZERO, ABZ);
    assert Cp(ZERO, ABZ) == 0;
  }

  lemma CutHalfKey()
    ensures Proper(CUT_HALF) && KeyOf(CUT_HALF) == Key(ZERO, ABC) && Items(CUT_HALF) == [ZERO, ABZ, ABC]
  {
    hide Cp;
    CutUnionKey();
    PairOf(CUT_UNION, Item(ABC));
    ByteOrder();
    LexTotal(ZERO, ABC);
    JoinedPair(Key(ZERO, AB), Key(ABC, ABC));
    CpMeans(ZERO, ABC);
    assert Cp(ZERO, ABC) == 0;
  }

  /** A tree of unions and splits in which the search for an item returns nothing. */
  lemma CutTreeLoses()
    ensures Proper(CUT_HALF) && !Tight(CUT_HALF)
    ensures ABZ in Items(CUT_HALF) && Search(CUT_HALF, ABZ, Equal) == []
  {
    hide Cp, LexLess, KeyOf, Items, SearchOf, Proper;
    CutHalfKey();
    ByteOrder();
    LexTotal(ABC, ABZ);
    assert ABC[2] != ABZ[2] && ZERO[0] != ABZ[0];
    assert Overshoots(KeyOf(CUT_HALF), ABZ);
  }

  // ---------------------------------------------------------------- seen from the keys alone

  /** Each inner key is a union, or a half that none of its entries outgrows. */
  ghost predicate Snug(t: Tree) {
    t.Inner? ==>
      && t.kids != []
      && (forall i | 0 <= i < |t.kids| :: Snug(t.kids[i]))
      && (|| t.cut == PrefixLength(Joined(Keys(t.kids)))
          || forall i | 0 <= i < |t.kids| :: !Outgrows(KeyOf(t), KeyOf(t.kids[i])))
  }

  lemma {:induction false} SnugCovers(t: Tree, x: Bytes)
    requires Proper(t) && Snug(t) && x in Items(t)
    ensures Covers(KeyOf(t), x)
  {
    hide Cp, LexLess, Truncate, Joined, Outgrows, Covers, NearlyCovers, Ordered;
    match t
    case Item(y) => ItemCovered(y);
    case Inner(kids, cut) =>
      var i := ItemBelow(kids, x);
      SnugCovers(kids[i], x);
      TreeNearly(kids[i], x);
      var keys := Keys(kids);
      if cut == PrefixLength(Joined(keys)) {
        UnionCovers(keys, i, x);
      } else {
        HalfCovers(keys, cut, i, x);
      }
  }

  lemma ItemCovered(x: Bytes)
    ensures Covers(Key(x, x), x)
  {
    LexTotal(x, x);
  }

  lemma {:induction false} SnugTight(t: Tree)
    requires Proper(t) && Snug(t)
    ensures Tight(t)
  {
    hide KeyOf, LexLess, Cp;
    if t.Inner? {
      forall x | x in Items(t) ensures !Overshoots(KeyOf(t), x) {
        SnugCovers(t, x);
        LexTotal(KeyOf(t).upper, x);
      }
      forall i | 0 <= i < |t.kids| ensures Tight(t.kids[i]) { SnugTight(t.kids[i]); }
    }
  }

  /** The halves of splits all lie just above the items. */
  ghost predicate LeafSplitsOnly(t: Tree) {
    t.Inner? ==>
      && t.kids != []
      && (forall i | 0 <= i < |t.kids| :: LeafSplitsOnly(t.kids[i]))
      && (t.cut == PrefixLength(Joined(Keys(t.kids))) || forall i | 0 <= i < |t.kids| :: t.kids[i].Item?)
  }

  lemma {:induction false} LeafSplitsSnug(t: Tree)
    requires LeafSplitsOnly(t)
    ensures Snug(t)
  {
    hide Outgrows, Cp, Joined;
    if t.Inner? {
      forall i | 0 <= i < |t.kids| ensures Snug(t.kids[i]) { LeafSplitsSnug(t.kids[i]); }
      if t.cut != PrefixLength(Joined(Keys(t.kids))) {
        forall i | 0 <= i < |t.kids| ensures !Outgrows(KeyOf(t), KeyOf(t.kids[i])) {
          LeafStays(KeyOf(t), KeyOf(t.kids[i]));
        }
      }
    }
  }

  /** Where only leaf pages were split, and the other inner keys are unions, every search is exact. */
  lemma LeafSplitsExact(t: Tree, q: Bytes, s: Strategy)
    requires Proper(t) && LeafSplitsOnly(t)
    ensures Search(t, q, s) == Accepted(Items(t), q, s)
  {
    LeafSplitsSnug(t);
    SnugTight(t);
    TightSearch(t, q, s);
  }
}
