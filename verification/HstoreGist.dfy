/** Signature keys of hstore's GiST operator class (contrib/hstore/hstore_gist.c).  A signature is modelled
    by its bits; the hash is an arbitrary function. */
module HstoreGist {
  import opened Wrappers
  import opened HstoreFormat

  /** GISTTYPE: a signature, or the flag that stands for all bits. */
  datatype Key = AllTrue | Sign(bits: seq<bool>)

  /** Signature length in bits and hash function. */
  datatype Config = Config(nbits: nat, hash: seq<int> -> nat)
  {
    predicate Ok() { nbits > 0 && nbits % 8 == 0 }

    /** HASHVAL */
    function Bit(s: seq<int>): (b: nat)
      requires Ok()
      ensures b < nbits
    {
      hash(s) % nbits
    }
  }

  predicate KeyOk(c: Config, k: Key) { k.Sign? ==> |k.bits| == c.nbits }

  /** The bit is set in the key. */
  predicate HasBit(k: Key, b: nat) { k.Sign? ==> b < |k.bits| && k.bits[b] }

  /** `k` has every bit of `j`. */
  ghost predicate Includes(c: Config, k: Key, j: Key) { forall b: nat | b < c.nbits && HasBit(j, b) :: HasBit(k, b) }

  // ---------------------------------------------------------------- items

  /** The strings an item is hashed by: keys and non-null values. */
  ghost predicate Hashed(pairs: seq<Pair>, s: seq<int>) {
    exists i | 0 <= i < |pairs| :: pairs[i].key == s || pairs[i].val == Some(s)
  }

  /** The key has the bit of every string of the item, and an exact signature has no other. */
  ghost predicate CoversItem(c: Config, k: Key, pairs: seq<Pair>)
    requires c.Ok()
  {
    forall s | Hashed(pairs, s) :: HasBit(k, c.Bit(s))
  }

  ghost predicate OnlyBits(c: Config, k: Key, pairs: seq<Pair>)
    requires c.Ok()
  {
    forall b: nat | b < c.nbits && HasBit(k, b) :: exists s :: Hashed(pairs, s) && c.Bit(s) == b
  }

  /** ghstore_compress of a leaf value. */
  method CompressLeaf(c: Config, pairs: seq<Pair>) returns (k: Key)
    requires c.Ok()
    ensures KeyOk(c, k) && CoversItem(c, k, pairs) && OnlyBits(c, k, pairs)
  {
    var sign := new bool[c.nbits](i => false);
    var i := 0;
    while i < |pairs|
      invariant 0 <= i <= |pairs|
      invariant CoversItem(c, Sign(sign[..]), pairs[..i]) && OnlyBits(c, Sign(sign[..]), pairs[..i])
    {
      ghost var was := Sign(sign[..]);
      sign[c.Bit(pairs[i].key)] := true;
      if pairs[i].val.Some? { sign[c.Bit(pairs[i].val.value)] := true; }
      HashedStep(c, was, pairs, i, Sign(sign[..]));
      i := i + 1;
    }
    assert pairs[..i] == pairs;
    k := Sign(sign[..]);
  }

  lemma HashedStep(c: Config, was: Key, pairs: seq<Pair>, i: nat, k: Key)
    requires c.Ok() && i < |pairs| && KeyOk(c, was) && KeyOk(c, k) && was.Sign? && k.Sign?
    requires CoversItem(c, was, pairs[..i]) && OnlyBits(c, was, pairs[..i])
    requires forall b: nat | b < c.nbits ::
               k.bits[b] <==> was.bits[b] || b == c.Bit(pairs[i].key)
                              || (pairs[i].val.Some? && b == c.Bit(pairs[i].val.value))
    ensures CoversItem(c, k, pairs[..i + 1]) && OnlyBits(c, k, pairs[..i + 1])
  {
    forall s ensures Hashed(pairs[..i + 1], s) <==>
                       Hashed(pairs[..i], s) || pairs[i].key == s || pairs[i].val == Some(s)
    {
      assert pairs[..i + 1] == pairs[..i] + [pairs[i]];
      assert pairs[..i + 1][i] == pairs[i];
      if Hashed(pairs[..i], s) {
        var j :| 0 <= j < i && (pairs[..i][j].key == s || pairs[..i][j].val == Some(s));
        assert pairs[..i + 1][j] == pairs[..i][j];
      }
    }
    forall b: nat | b < c.nbits && HasBit(k, b) ensures exists s :: Hashed(pairs[..i + 1], s) && c.Bit(s) == b {
      if was.bits[b] {
        assert HasBit(was, b);
        var s :| Hashed(pairs[..i], s) && c.Bit(s) == b;
      } else if b == c.Bit(pairs[i].key) {
        assert Hashed(pairs[..i + 1], pairs[i].key);
      } else {
        assert Hashed(pairs[..i + 1], pairs[i].val.value);
      }
    }
  }

  /** ghstore_compress of an inner key: a full signature becomes the flag. */
  method CompressInner(c: Config, k: Key) returns (r: Key)
    requires c.Ok() && KeyOk(c, k)
    ensures KeyOk(c, r) && Includes(c, r, k) && Includes(c, k, r)
    ensures r.AllTrue? <==> forall b: nat | b < c.nbits :: HasBit(k, b)
  {
    if k.AllTrue? { return k; }
    var i := 0;
    while i < c.nbits
      invariant 0 <= i <= c.nbits && forall b: nat | b < i :: k.bits[b]
    {
      if !k.bits[i] {
        assert !HasBit(k, i);
        return k;
      }
      i := i + 1;
    }
    return AllTrue;
  }

  // ---------------------------------------------------------------- union

  /** unionkey: the bits are added in place, unless the added key is all true. */
  method UnionKey(c: Config, sbase: array<bool>, add: Key) returns (allTrue: bool)
    requires sbase.Length == c.nbits && KeyOk(c, add)
    modifies sbase
    ensures allTrue <==> add.AllTrue?
    ensures allTrue ==> sbase[..] == old(sbase[..])
    ensures !allTrue ==> forall b: nat | b < c.nbits :: sbase[b] <==> old(sbase[b]) || add.bits[b]
  {
    if add.AllTrue? { return true; }
    var i := 0;
    while i < c.nbits
      invariant 0 <= i <= c.nbits
      invariant forall b: nat | b < i :: sbase[b] <==> old(sbase[b]) || add.bits[b]
      invariant forall b: nat | i <= b < c.nbits :: sbase[b] == old(sbase[b])
    {
      sbase[i] := sbase[i] || add.bits[i];
      i := i + 1;
    }
    return false;
  }

  /** ghstore_union: the least key that includes the entries. */
  method Union(c: Config, entries: seq<Key>) returns (r: Key)
    requires c.Ok() && forall i | 0 <= i < |entries| :: KeyOk(c, entries[i])
    ensures KeyOk(c, r) && forall i | 0 <= i < |entries| :: Includes(c, r, entries[i])
    ensures forall b: nat | b < c.nbits && HasBit(r, b) :: exists i | 0 <= i < |entries| :: HasBit(entries[i], b)
  {
    var base := new bool[c.nbits](i => false);
    var i := 0;
    while i < |entries|
      invariant 0 <= i <= |entries|
      invariant forall j | 0 <= j < i :: entries[j].Sign?
      invariant forall b: nat | b < c.nbits :: base[b] <==> exists j | 0 <= j < i :: HasBit(entries[j], b)
    {
      var all := UnionKey(c, base, entries[i]);
      if all { return AllTrue; }
      i := i + 1;
    }
    r := Sign(base[..]);
  }

  // ---------------------------------------------------------------- search

  datatype Query =
    | Contains(pairs: seq<Pair>)
    | Exists(key: seq<int>)
    | ExistsAll(keys: seq<Option<seq<int>>>)
    | ExistsAny(keys: seq<Option<seq<int>>>)

  predicate HasKey(pairs: seq<Pair>, key: seq<int>) { exists i | 0 <= i < |pairs| :: pairs[i].key == key }

  /** What the operators say of an item; null array elements are passed over. */
  predicate Matches(item: seq<Pair>, q: Query) {
    match q
    case Contains(pairs) => forall i | 0 <= i < |pairs| :: pairs[i] in item
    case Exists(key) => HasKey(item, key)
    case ExistsAll(keys) => forall i | 0 <= i < |keys| :: keys[i].Some? ==> HasKey(item, keys[i].value)
    case ExistsAny(keys) => exists i | 0 <= i < |keys| :: keys[i].Some? && HasKey(item, keys[i].value)
  }

  predicate PairBits(c: Config, k: Key, p: Pair)
    requires c.Ok()
  {
    HasBit(k, c.Bit(p.key)) && (p.val.Some? ==> HasBit(k, c.Bit(p.val.value)))
  }

  /** The bits a query asks for are set. */
  predicate BitsFor(c: Config, k: Key, q: Query)
    requires c.Ok()
  {
    match q
    case Contains(pairs) => forall i | 0 <= i < |pairs| :: PairBits(c, k, pairs[i])
    case Exists(key) => HasBit(k, c.Bit(key))
    case ExistsAll(keys) => forall i | 0 <= i < |keys| :: keys[i].Some? ==> HasBit(k, c.Bit(keys[i].value))
    case ExistsAny(keys) => exists i | 0 <= i < |keys| :: keys[i].Some? && HasBit(k, c.Bit(keys[i].value))
  }

  /** ghstore_consistent; all true is consistent with every query. */
  method Consistent(c: Config, k: Key, q: Query) returns (res: bool)
    requires c.Ok() && KeyOk(c, k)
    ensures res <==> k.AllTrue? || BitsFor(c, k, q)
  {
    if k.AllTrue? { return true; }
    res := true;
    var i := 0;
    match q
    case Contains(pairs) =>
      while res && i < |pairs|
        invariant 0 <= i <= |pairs| && (res <==> forall j | 0 <= j < i :: PairBits(c, k, pairs[j]))
        decreases |pairs| - i
      {
        if k.bits[c.Bit(pairs[i].key)] {
          if pairs[i].val.Some? && !k.bits[c.Bit(pairs[i].val.value)] { res := false; }
        } else {
          res := false;
        }
        assert res <==> PairBits(c, k, pairs[i]);
        i := i + 1;
      }
    case Exists(key) => res := k.bits[c.Bit(key)];
    case ExistsAll(keys) =>
      while res && i < |keys|
        invariant 0 <= i <= |keys|
        invariant res <==> forall j | 0 <= j < i :: keys[j].Some? ==> HasBit(k, c.Bit(keys[j].value))
        decreases |keys| - i
      {
        if keys[i].Some? && !k.bits[c.Bit(keys[i].value)] { res := false; }
        i := i + 1;
      }
    case ExistsAny(keys) =>
      res := false;
      while !res && i < |keys|
        invariant 0 <= i <= |keys|
        invariant res <==> exists j | 0 <= j < i :: keys[j].Some? && HasBit(k, c.Bit(keys[j].value))
        decreases |keys| - i
      {
        if keys[i].Some? && k.bits[c.Bit(keys[i].value)] { res := true; }
        i := i + 1;
      }
  }

  lemma KeyHashed(item: seq<Pair>, key: seq<int>)
    requires HasKey(item, key)
    ensures Hashed(item, key)
  {
  }

  /** A key that covers an item is consistent with every query the item matches. */
  lemma NeverPrunes(c: Config, k: Key, item: seq<Pair>, q: Query)
    requires c.Ok() && CoversItem(c, k, item) && Matches(item, q)
    ensures k.AllTrue? || BitsFor(c, k, q)
  {
    hide HasBit;
    match q
    case Contains(pairs) =>
      forall i | 0 <= i < |pairs| ensures PairBits(c, k, pairs[i]) {
        assert pairs[i] in item;
        assert Hashed(item, pairs[i].key);
        if pairs[i].val.Some? { assert Hashed(item, pairs[i].val.value); }
      }
    case Exists(key) => KeyHashed(item, key);
    case ExistsAll(keys) =>
      forall i | 0 <= i < |keys| && keys[i].Some? ensures HasBit(k, c.Bit(keys[i].value)) {
        KeyHashed(item, keys[i].value);
      }
    case ExistsAny(keys) =>
      var i :| 0 <= i < |keys| && keys[i].Some? && HasKey(item, keys[i].value);
      KeyHashed(item, keys[i].value);
  }

  /** An item with the given keys, null array elements left out, and no values. */
  ghost function KeysOnly(keys: seq<Option<seq<int>>>): seq<Pair> {
    if keys == [] then []
    else
      var n := |keys| - 1;
      KeysOnly(keys[..n]) + if keys[n].Some? then [Pair(keys[n].value, None)] else []
  }

  lemma {:induction false} KeysOnlyMeans(keys: seq<Option<seq<int>>>, s: seq<int>)
    ensures HasKey(KeysOnly(keys), s) <==> exists i | 0 <= i < |keys| :: keys[i] == Some(s)
    ensures forall i | 0 <= i < |KeysOnly(keys)| :: KeysOnly(keys)[i].val.None?
  {
    if keys != [] {
      var n := |keys| - 1;
      KeysOnlyMeans(keys[..n], s);
      var rest, item := KeysOnly(keys[..n]), KeysOnly(keys);
      assert forall i | 0 <= i < |rest| :: item[i] == rest[i];
      if keys[n] == Some(s) { assert item[|rest|].key == s; }
    }
  }

  lemma KeysCovered(c: Config, k: Key, keys: seq<Option<seq<int>>>)
    requires c.Ok() && forall i | 0 <= i < |keys| :: keys[i].Some? ==> HasBit(k, c.Bit(keys[i].value))
    ensures CoversItem(c, k, KeysOnly(keys)) && Matches(KeysOnly(keys), ExistsAll(keys))
  {
    hide HasBit;
    var item := KeysOnly(keys);
    forall s | Hashed(item, s) ensures HasBit(k, c.Bit(s)) {
      KeysOnlyMeans(keys, s);
      assert HasKey(item, s);
    }
    forall i | 0 <= i < |keys| && keys[i].Some? ensures HasKey(item, keys[i].value) {
      KeysOnlyMeans(keys, keys[i].value);
    }
  }

  /** A signature is followed if and only if some item it may cover would match. */
  lemma FollowedExactly(c: Config, k: Key, q: Query)
    requires c.Ok() && k.Sign?
    ensures BitsFor(c, k, q) <==> exists item :: CoversItem(c, k, item) && Matches(item, q)
  {
    hide HasBit, KeysOnly;
    if item :| CoversItem(c, k, item) && Matches(item, q) {
      hide CoversItem, Matches, BitsFor;
      NeverPrunes(c, k, item, q);
    }
    if BitsFor(c, k, q) {
      match q
      case Contains(pairs) =>
        forall s | Hashed(pairs, s) ensures HasBit(k, c.Bit(s)) {
          var i :| 0 <= i < |pairs| && (pairs[i].key == s || pairs[i].val == Some(s));
          assert PairBits(c, k, pairs[i]);
        }
        assert CoversItem(c, k, pairs) && Matches(pairs, q);
      case Exists(key) =>
        KeysCovered(c, k, [Some(key)]);
        assert [Some(key)][0] == Some(key);
        assert Matches(KeysOnly([Some(key)]), q);
      case ExistsAll(keys) => KeysCovered(c, k, keys);
      case ExistsAny(keys) =>
        var i :| 0 <= i < |keys| && keys[i].Some? && HasBit(k, c.Bit(keys[i].value));
        KeysCovered(c, k, [keys[i]]);
        assert [keys[i]][0] == keys[i];
        assert Matches(KeysOnly([keys[i]]), q);
    }
  }

  /** A tree as compression, union and split leave it. */
  datatype Tree = Item(key: Key, pairs: seq<Pair>) | Inner(key: Key, kids: seq<Tree>)

  ghost predicate Proper(c: Config, t: Tree)
    requires c.Ok()
  {
    match t
    case Item(key, pairs) => CoversItem(c, key, pairs)
    case Inner(key, kids) => forall i | 0 <= i < |kids| :: Includes(c, key, kids[i].key) && Proper(c, kids[i])
  }

  ghost function Items(t: Tree): set<seq<Pair>> {
    match t
    case Item(key, pairs) => {pairs}
    case Inner(key, kids) => set i, x | 0 <= i < |kids| && x in Items(kids[i]) :: x
  }

  lemma {:induction false} TreeCovers(c: Config, t: Tree, item: seq<Pair>)
    requires c.Ok() && Proper(c, t) && item in Items(t)
    ensures CoversItem(c, t.key, item)
  {
    hide HasBit, Hashed;
    match t
    case Item(key, pairs) =>
    case Inner(key, kids) =>
      var i :| 0 <= i < |kids| && item in Items(kids[i]);
      TreeCovers(c, kids[i], item);
      forall s | Hashed(item, s) ensures HasBit(key, c.Bit(s)) {
        assert HasBit(kids[i].key, c.Bit(s));
        assert Includes(c, key, kids[i].key);
      }
  }

  /** The search; what a leaf key lets through is checked against the item itself. */
  ghost function Search(c: Config, t: Tree, q: Query): set<seq<Pair>>
    requires c.Ok()
  {
    if !(t.key.AllTrue? || BitsFor(c, t.key, q)) then {}
    else
      match t
      case Item(key, pairs) => if Matches(pairs, q) then {pairs} else {}
      case Inner(key, kids) => set i, x | 0 <= i < |kids| && x in Search(c, kids[i], q) :: x
  }

  /** The search returns exactly the items that match, on every tree. */
  lemma {:induction false} SearchExact(c: Config, t: Tree, q: Query, item: seq<Pair>)
    requires c.Ok() && Proper(c, t)
    ensures item in Search(c, t, q) <==> item in Items(t) && Matches(item, q)
  {
    hide BitsFor, CoversItem, Matches, Includes;
    if item in Items(t) && Matches(item, q) {
      TreeCovers(c, t, item);
      NeverPrunes(c, t.key, item, q);
    }
    if t.Inner? {
      forall i | 0 <= i < |t.kids|
        ensures item in Search(c, t.kids[i], q) <==> item in Items(t.kids[i]) && Matches(item, q)
      {
        SearchExact(c, t.kids[i], q, item);
      }
    }
  }

  // ---------------------------------------------------------------- split

  ghost predicate IncludesAll(c: Config, k: Key, entries: seq<Key>, offsets: seq<nat>) {
    forall i | 0 <= i < |offsets| :: offsets[i] < |entries| && Includes(c, k, entries[offsets[i]])
  }

  /** How often an offset was placed. */
  ghost function Times(s: seq<nat>, j: nat): nat { multiset(s)[j] }

  lemma TimesAppend(s: seq<nat>, x: nat)
    ensures forall j: nat :: Times(s + [x], j) == Times(s, j) + if j == x then 1 else 0
  {
  }

  lemma NoTimes()
    ensures forall j: nat :: Times([], j) == 0
  {
  }

  /** The number of bits in which two keys differ. */
  ghost function Differ(a: Key, b: Key, n: nat): nat {
    if n == 0 then 0 else Differ(a, b, n - 1) + if HasBit(a, n - 1) != HasBit(b, n - 1) then 1 else 0
  }

  ghost function CountBits(k: Key, n: nat): nat {
    if n == 0 then 0 else CountBits(k, n - 1) + if HasBit(k, n - 1) then 1 else 0
  }

  lemma {:induction false} DifferFromFull(a: Key, b: Key, n: nat)
    requires a.AllTrue?
    ensures Differ(a, b, n) == Differ(b, a, n) == n - CountBits(b, n)
  {
    if n > 0 { DifferFromFull(a, b, n - 1); }
  }

  /** sizebitvec */
  method SizeBitVec(sign: seq<bool>) returns (size: nat)
    ensures size == CountBits(Sign(sign), |sign|)
  {
    size := 0;
    var i := 0;
    while i < |sign|
      invariant 0 <= i <= |sign| && size == CountBits(Sign(sign), i)
    {
      if sign[i] { size := size + 1; }
      i := i + 1;
    }
  }

  /** hemdist */
  method HemDist(c: Config, a: Key, b: Key) returns (dist: int)
    requires KeyOk(c, a) && KeyOk(c, b)
    ensures dist == Differ(a, b, c.nbits)
  {
    if a.AllTrue? {
      DifferFromFull(a, b, c.nbits);
      if b.AllTrue? {
        DifferFromFull(b, a, c.nbits);
        FullCount(c.nbits);
        return 0;
      }
      var size := SizeBitVec(b.bits);
      return c.nbits - size;
    } else if b.AllTrue? {
      DifferFromFull(b, a, c.nbits);
      var size := SizeBitVec(a.bits);
      return c.nbits - size;
    }
    dist := 0;
    var i := 0;
    while i < c.nbits
      invariant 0 <= i <= c.nbits && dist == Differ(a, b, i)
    {
      if a.bits[i] != b.bits[i] { dist := dist + 1; }
      i := i + 1;
    }
  }

  lemma {:induction false} FullCount(n: nat)
    ensures CountBits(AllTrue, n) == n
  {
    if n > 0 { FullCount(n - 1); }
  }

  /** The seeds: of the entries before the last, a pair that is farthest apart. */
  method PickSeeds(c: Config, entries: seq<Key>) returns (seed1: nat, seed2: nat)
    requires |entries| >= 3 && forall i | 0 <= i < |entries| :: KeyOk(c, entries[i])
    ensures 1 <= seed1 < seed2 < |entries|
    ensures forall k, j | 1 <= k < j < |entries| - 1 ::
              Differ(entries[k], entries[j], c.nbits) <= Differ(entries[seed1], entries[seed2], c.nbits)
  {
    hide Differ, KeyOk;
    var maxoff := |entries| - 2;
    var waste := -1;
    seed1, seed2 := 0, 0;
    var k := 1;
    while k < maxoff
      invariant 1 <= k && Farthest(c, entries, waste, seed1, seed2)
      invariant forall x, y | 1 <= x < y <= maxoff && x < k :: Differ(entries[x], entries[y], c.nbits) <= waste
    {
      var j := k + 1;
      while j <= maxoff
        invariant k < j && Farthest(c, entries, waste, seed1, seed2)
        invariant forall x, y | 1 <= x < y <= maxoff && (x < k || (x == k && y < j)) ::
                    Differ(entries[x], entries[y], c.nbits) <= waste
      {
        var sizeWaste := HemDist(c, entries[k], entries[j]);
        if sizeWaste > waste {
          waste, seed1, seed2 := sizeWaste, k, j;
        }
        j := j + 1;
      }
      k := k + 1;
    }
    if seed1 == 0 || seed2 == 0 { seed1, seed2 := 1, 2; }
  }

  /** No pair was seen yet, or the seeds are a pair at the distance `waste`. */
  ghost predicate Farthest(c: Config, entries: seq<Key>, waste: int, seed1: nat, seed2: nat) {
    || (waste == -1 && seed1 == 0 && seed2 == 0)
    || (1 <= seed1 < seed2 < |entries| && waste == Differ(entries[seed1], entries[seed2], c.nbits))
  }

  /** One side takes an entry: its signature is filled or has the entry's bits added; a side that is all
      true stays so. */
  method Take(c: Config, datum: Key, e: Key) returns (r: Key)
    requires KeyOk(c, datum) && KeyOk(c, e)
    ensures KeyOk(c, r) && Includes(c, r, datum) && Includes(c, r, e)
    ensures forall b: nat | b < c.nbits && HasBit(r, b) :: HasBit(datum, b) || HasBit(e, b)
  {
    if datum.AllTrue? { return datum; }
    if e.AllTrue? { return Sign(seq(c.nbits, i => true)); }
    var union := new bool[c.nbits](i requires 0 <= i < c.nbits => datum.bits[i]);
    var i := 0;
    while i < c.nbits
      invariant 0 <= i <= c.nbits
      invariant forall b: nat | b < i :: union[b] <==> datum.bits[b] || e.bits[b]
      invariant forall b: nat | i <= b < c.nbits :: union[b] == datum.bits[b]
    {
      union[i] := union[i] || e.bits[i];
      i := i + 1;
    }
    return Sign(union[..]);
  }

  /** ghstore_picksplit.  `order` is what the sort by cost leaves, any arrangement of the offsets, and
      `goesLeft` decides from the two distances and the sizes of the sides. */
  method PickSplit(c: Config, entries: seq<Key>, order: seq<nat>, goesLeft: (int, int, nat, nat) -> bool)
    returns (left: seq<nat>, right: seq<nat>, ldatum: Key, rdatum: Key)
    requires c.Ok() && |entries| >= 3 && forall i | 0 <= i < |entries| :: KeyOk(c, entries[i])
    requires forall j: nat :: Times(order, j) == if 1 <= j < |entries| then 1 else 0
    ensures forall j: nat :: Times(left, j) + Times(right, j) == if 1 <= j < |entries| then 1 else 0
    ensures left != [] && right != []
    ensures IncludesAll(c, ldatum, entries, left) && IncludesAll(c, rdatum, entries, right)
  {
    hide Includes, HasBit, Times, KeyOk;
    var seed1, seed2 := PickSeeds(c, entries);
    left, right := [], [];
    ldatum, rdatum := entries[seed1], entries[seed2];
    IncludesSelf(c, ldatum);
    IncludesSelf(c, rdatum);
    NoTimes();
    var k := 0;
    while k < |order|
      invariant 0 <= k <= |order| && KeyOk(c, ldatum) && KeyOk(c, rdatum)
      invariant Includes(c, ldatum, entries[seed1]) && Includes(c, rdatum, entries[seed2])
      invariant IncludesAll(c, ldatum, entries, left) && IncludesAll(c, rdatum, entries, right)
      invariant forall j: nat :: Times(left, j) + Times(right, j) == Times(order[..k], j)
      invariant Times(order[..k], seed1) > 0 ==> left != []
      invariant Times(order[..k], seed2) > 0 ==> right != []
    {
      var j := order[k];
      OrderFacts(order, |entries|, k);
      assert order[..k + 1] == order[..k] + [j];
      TimesAppend(order[..k], j);
      TimesAppend(left, j);
      TimesAppend(right, j);
      if j == seed1 {
        left := left + [j];
        k := k + 1;
        continue;
      } else if j == seed2 {
        right := right + [j];
        k := k + 1;
        continue;
      }
      var sizeAlpha := HemDist(c, ldatum, entries[j]);
      var sizeBeta := HemDist(c, rdatum, entries[j]);
      if goesLeft(sizeAlpha, sizeBeta, |left|, |right|) {
        var d := Take(c, ldatum, entries[j]);
        Grows(c, d, ldatum, entries, left);
        IncludesTransitive(c, d, ldatum, entries[seed1]);
        ldatum, left := d, left + [j];
      } else {
        var d := Take(c, rdatum, entries[j]);
        Grows(c, d, rdatum, entries, right);
        IncludesTransitive(c, d, rdatum, entries[seed2]);
        rdatum, right := d, right + [j];
      }
      k := k + 1;
    }
    assert order[..k] == order;
  }

  lemma OrderFacts(order: seq<nat>, n: nat, k: nat)
    requires forall j: nat :: Times(order, j) == if 1 <= j < n then 1 else 0
    requires k < |order|
    ensures 1 <= order[k] < n
  {
    assert order[k] in multiset(order) && Times(order, order[k]) > 0;
  }

  lemma IncludesSelf(c: Config, k: Key)
    ensures Includes(c, k, k)
  {
  }

  lemma IncludesTransitive(c: Config, a: Key, b: Key, d: Key)
    requires Includes(c, a, b) && Includes(c, b, d)
    ensures Includes(c, a, d)
  {
  }

  lemma Grows(c: Config, d: Key, was: Key, entries: seq<Key>, offsets: seq<nat>)
    requires Includes(c, d, was) && IncludesAll(c, was, entries, offsets)
    ensures IncludesAll(c, d, entries, offsets)
  {
    hide Includes;
    forall i | 0 <= i < |offsets| ensures Includes(c, d, entries[offsets[i]]) {
      IncludesTransitive(c, d, was, entries[offsets[i]]);
    }
  }
}
