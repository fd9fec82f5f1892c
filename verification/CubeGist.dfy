/** The GiST support of cube (contrib/cube/cube.c): keys that bound everything below them, the consistent
    methods, nearest-neighbour distances and the page split. */
module CubeGist {
  import opened Wrappers
  import opened Cube
  import opened CubeOrder

  datatype Strategy = Overlap | SameAs | ContainsBox | ContainedBy

  /** g_cube_leaf_consistent */
  method LeafConsistent(key: NDBox, query: NDBox, s: Strategy) returns (r: bool)
    ensures r <==> LeafMatches(key, query, s)
  {
    match s
    case Overlap => r := OverlapV0(key, query);
    case SameAs =>
      OrderMeans(key, query);
      var c := CmpV0(key, query);
      r := c == 0;
    case ContainsBox => r := ContainsV0(key, query);
    case ContainedBy => r := ContainsV0(query, key);
  }

  /** g_cube_internal_consistent */
  method InternalConsistent(key: NDBox, query: NDBox, s: Strategy) returns (r: bool)
    ensures r <==> InternalMatches(key, query, s)
  {
    match s
    case Overlap => r := OverlapV0(key, query);
    case SameAs => r := ContainsV0(key, query);
    case ContainsBox => r := ContainsV0(key, query);
    case ContainedBy => r := OverlapV0(key, query);
  }

  ghost predicate LeafMatches(key: NDBox, query: NDBox, s: Strategy) {
    match s
    case Overlap => Overlaps(key, query)
    case SameAs => Same(key, query)
    case ContainsBox => Contains(key, query)
    case ContainedBy => Contains(query, key)
  }

  ghost predicate InternalMatches(key: NDBox, query: NDBox, s: Strategy) {
    match s
    case Overlap | ContainedBy => Overlaps(key, query)
    case SameAs | ContainsBox => Contains(key, query)
  }

  // ---------------------------------------------------------------- no pruning

  /** Every dimension the query has beyond the box contains zero. */
  ghost predicate ZeroBeyond(query: NDBox, b: NDBox) {
    forall i: nat | b.dim <= i < query.dim :: query.Lo(i) <= 0.0 <= query.Hi(i)
  }

  lemma OverlapKept(k: NDBox, b: NDBox, q: NDBox)
    requires Covers(k, b) && Overlaps(b, q)
    ensures Overlaps(k, q)
  {
    forall i: nat ensures k.Lo(i) <= q.Hi(i) && q.Lo(i) <= k.Hi(i) {
      assert k.Lo(i) <= b.Lo(i) && b.Hi(i) <= k.Hi(i) && b.Lo(i) <= q.Hi(i) && q.Lo(i) <= b.Hi(i);
    }
  }

  lemma ContainsKept(k: NDBox, b: NDBox, q: NDBox)
    requires Covers(k, b) && Contains(b, q)
    ensures Contains(k, q)
  {
    forall i: nat | i < k.dim && i < q.dim ensures k.Lo(i) <= q.Lo(i) && q.Hi(i) <= k.Hi(i) {
      assert k.Lo(i) <= b.Lo(i) && b.Hi(i) <= k.Hi(i);
    }
  }

  lemma SameKept(k: NDBox, b: NDBox, q: NDBox)
    requires Covers(k, b) && Same(b, q)
    ensures Contains(k, q)
  {
    forall i: nat | i < k.dim && i < q.dim ensures k.Lo(i) <= q.Lo(i) && q.Hi(i) <= k.Hi(i) {
      assert k.Lo(i) <= b.Lo(i) && b.Hi(i) <= k.Hi(i) && b.Lo(i) == q.Lo(i) && b.Hi(i) == q.Hi(i);
    }
  }

  /** A box within the query, with the query's other dimensions around zero, overlaps it. */
  lemma WithinOverlaps(b: NDBox, q: NDBox)
    requires Contains(q, b) && ZeroBeyond(q, b)
    ensures Overlaps(b, q)
  {
    forall i: nat ensures b.Lo(i) <= q.Hi(i) && q.Lo(i) <= b.Hi(i) {
      LoHi(b, i);
      LoHi(q, i);
    }
  }

  /** For contained-by the side condition is exact: whatever key covers the box, an internal key is
      consistent, if and only if the query contains zero in each dimension it has beyond the box. */
  lemma ContainedByExact(b: NDBox, q: NDBox)
    requires Contains(q, b)
    ensures (forall k: NDBox | Covers(k, b) :: InternalMatches(k, q, ContainedBy)) <==> ZeroBeyond(q, b)
  {
    hide Covers, Overlaps;
    if ZeroBeyond(q, b) {
      WithinOverlaps(b, q);
      forall k: NDBox | Covers(k, b) ensures InternalMatches(k, q, ContainedBy) { OverlapKept(k, b, q); }
    } else {
      CoversSelf(b);
      var i: nat :| b.dim <= i < q.dim && !(q.Lo(i) <= 0.0 <= q.Hi(i));
      NotOverlapping(b, q, i);
    }
  }

  lemma NotOverlapping(b: NDBox, q: NDBox, i: nat)
    requires b.Hi(i) < q.Lo(i) || q.Hi(i) < b.Lo(i)
    ensures !Overlaps(b, q)
  {
  }

  /** Contained-by does lose a box: the point (1) lies within the box (0,5),(2,6), and its own key, which has
      one dimension, does not overlap that box. */
  lemma ContainedByLoses()
    ensures var b: NDBox, q: NDBox := Box(1, true, [1.0]), Box(2, false, [0.0, 5.0, 2.0, 6.0]);
            LeafMatches(b, q, ContainedBy) && !InternalMatches(b, q, ContainedBy)
  {
    var b: NDBox, q: NDBox := Box(1, true, [1.0]), Box(2, false, [0.0, 5.0, 2.0, 6.0]);
    assert q.Lo(1) == 5.0 && b.Hi(1) == 0.0;
    NotOverlapping(b, q, 1);
    assert q.Lo(0) == 0.0 && q.Hi(0) == 2.0 && b.Lo(0) == 1.0 && b.Hi(0) == 1.0;
  }

  lemma NeverPrunes(k: NDBox, b: NDBox, q: NDBox, s: Strategy)
    requires Covers(k, b) && LeafMatches(b, q, s) && (s.ContainedBy? ==> ZeroBeyond(q, b))
    ensures InternalMatches(k, q, s)
  {
    hide Covers, Overlaps, Contains, Same, ZeroBeyond;
    match s
    case Overlap => OverlapKept(k, b, q);
    case SameAs => SameKept(k, b, q);
    case ContainsBox => ContainsKept(k, b, q);
    case ContainedBy => WithinOverlaps(b, q); OverlapKept(k, b, q);
  }

  /** What two boxes that overlap share, in the dimensions of the first. */
  function Shared(k: NDBox, q: NDBox): NDBox {
    Box(k.dim, false, seq(2 * k.dim, i requires 0 <= i < 2 * k.dim =>
                            if i < k.dim then Max(k.Lo(i), q.Lo(i)) else Min(k.Hi(i - k.dim), q.Hi(i - k.dim))))
  }

  lemma SharedBounds(k: NDBox, q: NDBox, i: nat)
    requires Overlaps(k, q)
    ensures i < k.dim ==> Shared(k, q).LL(i) == Max(k.Lo(i), q.Lo(i)) && Shared(k, q).UR(i) == Min(k.Hi(i), q.Hi(i))
    ensures i < k.dim ==> Shared(k, q).Lo(i) == Shared(k, q).LL(i) && Shared(k, q).Hi(i) == Shared(k, q).UR(i)
  {
    LoHi(k, i);
    LoHi(q, i);
    assert k.Lo(i) <= q.Hi(i) && q.Lo(i) <= k.Hi(i);
  }

  lemma SharedMatches(k: NDBox, q: NDBox)
    requires Overlaps(k, q)
    ensures Covers(k, Shared(k, q)) && Contains(q, Shared(k, q)) && ZeroBeyond(q, Shared(k, q))
  {
    hide Shared;
    var b := Shared(k, q);
    assert b.dim == k.dim by { SharedDim(k, q); }
    forall i: nat ensures k.Lo(i) <= b.Lo(i) && b.Hi(i) <= k.Hi(i) { SharedBounds(k, q, i); }
    forall i: nat | q.dim <= i < b.dim ensures b.LL(i) == 0.0 && b.UR(i) == 0.0 {
      SharedBounds(k, q, i);
      assert k.Lo(i) <= q.Hi(i) && q.Lo(i) <= k.Hi(i);
    }
    forall i: nat | i < q.dim && i < b.dim ensures q.Lo(i) <= b.Lo(i) && b.Hi(i) <= q.Hi(i) { SharedBounds(k, q, i); }
    forall i: nat | b.dim <= i < q.dim ensures q.Lo(i) <= 0.0 <= q.Hi(i) {
      assert k.Lo(i) <= q.Hi(i) && q.Lo(i) <= k.Hi(i);
    }
  }

  lemma SharedDim(k: NDBox, q: NDBox)
    ensures Shared(k, q).dim == k.dim
  {
  }

  /** A key is followed if and only if some box it may cover would match; for the same box, some box it may cover would
      contain the query, which among boxes with the key's dimensions comes to the same. */
  lemma FollowedExactly(k: NDBox, q: NDBox, s: Strategy)
    ensures !s.SameAs? ==>
              (InternalMatches(k, q, s) <==>
               exists b: NDBox :: Covers(k, b) && LeafMatches(b, q, s) && (s.ContainedBy? ==> ZeroBeyond(q, b)))
    ensures s.SameAs? ==> (InternalMatches(k, q, s) <==> exists b: NDBox :: Covers(k, b) && Contains(b, q))
    ensures s.SameAs? && k.dim == q.dim ==>
              (InternalMatches(k, q, s) <==> exists b: NDBox :: Covers(k, b) && LeafMatches(b, q, s))
  {
    hide Covers, Overlaps, Contains, Same, ZeroBeyond;
    CoversSelf(k);
    if !s.SameAs? {
      if b: NDBox :| Covers(k, b) && LeafMatches(b, q, s) && (s.ContainedBy? ==> ZeroBeyond(q, b)) {
        NeverPrunes(k, b, q, s);
      }
      if InternalMatches(k, q, s) && s.ContainedBy? { SharedMatches(k, q); }
    } else {
      if b: NDBox :| Covers(k, b) && Contains(b, q) { ContainsKept(k, b, q); }
      if k.dim == q.dim {
        if b: NDBox :| Covers(k, b) && LeafMatches(b, q, s) { NeverPrunes(k, b, q, s); }
        if InternalMatches(k, q, s) { EqualDims(k, q); }
      }
    }
  }

  lemma EqualDims(k: NDBox, q: NDBox)
    requires Contains(k, q) && k.dim == q.dim
    ensures Covers(k, q) && Same(q, q)
  {
  }

  // ---------------------------------------------------------------- trees

  /** A tree as unions and splits leave it: the key of an inner page covers the keys of its children. */
  datatype Tree = Item(key: NDBox) | Inner(key: NDBox, kids: seq<Tree>)

  ghost predicate Proper(t: Tree) {
    t.Inner? ==> forall i | 0 <= i < |t.kids| :: Covers(t.key, t.kids[i].key) && Proper(t.kids[i])
  }

  ghost function Items(t: Tree): set<NDBox> {
    match t
    case Item(key) => {key}
    case Inner(key, kids) => set i, b | 0 <= i < |kids| && b in Items(kids[i]) :: b
  }

  lemma {:induction false} TreeCovers(t: Tree, b: NDBox)
    requires Proper(t) && b in Items(t)
    ensures Covers(t.key, b)
  {
    match t
    case Item(key) =>
    case Inner(key, kids) =>
      var i :| 0 <= i < |kids| && b in Items(kids[i]);
      TreeCovers(kids[i], b);
      CoversTransitive(key, kids[i].key, b);
  }

  ghost function Search(t: Tree, q: NDBox, s: Strategy): set<NDBox> {
    match t
    case Item(key) => if LeafMatches(key, q, s) then {key} else {}
    case Inner(key, kids) =>
      if InternalMatches(key, q, s) then set i, b | 0 <= i < |kids| && b in Search(kids[i], q, s) :: b else {}
  }

  /** Search with pruning returns the boxes that match, all of them except, for contained-by, those outside
      the side condition. */
  lemma {:induction false} SearchExact(t: Tree, q: NDBox, s: Strategy, b: NDBox)
    requires Proper(t)
    ensures b in Search(t, q, s) ==> b in Items(t) && LeafMatches(b, q, s)
    ensures b in Items(t) && LeafMatches(b, q, s) && (s.ContainedBy? ==> ZeroBeyond(q, b)) ==> b in Search(t, q, s)
  {
    hide LeafMatches, InternalMatches, Covers, ZeroBeyond;
    match t
    case Item(key) =>
    case Inner(key, kids) =>
      forall i | 0 <= i < |kids|
        ensures b in Search(kids[i], q, s) ==> b in Items(kids[i]) && LeafMatches(b, q, s)
        ensures b in Items(kids[i]) && LeafMatches(b, q, s) && (s.ContainedBy? ==> ZeroBeyond(q, b)) ==>
                  b in Search(kids[i], q, s)
      {
        SearchExact(kids[i], q, s, b);
      }
      if b in Items(t) && LeafMatches(b, q, s) && (s.ContainedBy? ==> ZeroBeyond(q, b)) {
        TreeCovers(t, b);
        NeverPrunes(key, b, q, s);
      }
  }

  // ---------------------------------------------------------------- nearest neighbours

  lemma GapShrinks(k: NDBox, b: NDBox, q: NDBox, i: nat)
    requires Covers(k, b)
    ensures Gap(k, q, i) <= Gap(b, q, i)
  {
    assert k.Lo(i) <= b.Lo(i) && b.Hi(i) <= k.Hi(i);
  }

  lemma {:induction false} SumsShrink(k: NDBox, b: NDBox, q: NDBox, n: nat)
    requires Covers(k, b)
    ensures SumGaps(k, q, n) <= SumGaps(b, q, n)
    ensures SumSquares(k, q, n) <= SumSquares(b, q, n)
    ensures MaxGap(k, q, n) <= MaxGap(b, q, n)
  {
    hide Covers, Gap;
    if n > 0 {
      SumsShrink(k, b, q, n - 1);
      GapShrinks(k, b, q, n - 1);
      SquareMonotone(Gap(k, q, n - 1), Gap(b, q, n - 1));
    }
  }

  lemma SquareMonotone(x: real, y: real)
    requires 0.0 <= x <= y
    ensures x * x <= y * y
  {
    assert x * x <= x * y;
    assert x * y <= y * y;
  }

  /** Dimensions neither box has add nothing. */
  lemma {:induction false} SumsStable(b: NDBox, q: NDBox, n: nat)
    requires n >= MaxNat(b.dim, q.dim)
    ensures SumGaps(b, q, n) == SumGaps(b, q, MaxNat(b.dim, q.dim))
    ensures SumSquares(b, q, n) == SumSquares(b, q, MaxNat(b.dim, q.dim))
    ensures MaxGap(b, q, n) == MaxGap(b, q, MaxNat(b.dim, q.dim))
  {
    if n > MaxNat(b.dim, q.dim) {
      SumsStable(b, q, n - 1);
      GapIs(b, q, n - 1);
      MaxGapPositive(b, q, n - 1);
    }
  }

  lemma {:induction false} MaxGapPositive(b: NDBox, q: NDBox, n: nat)
    ensures MaxGap(b, q, n) >= 0.0
  {
    if n > 0 { MaxGapPositive(b, q, n - 1); }
  }

  /** The distance of a key is a lower bound for every box below it: taxicab, Euclidean (squared) and
      Chebyshev, whatever the dimension counts. */
  lemma DistanceLowerBound(k: NDBox, b: NDBox, q: NDBox)
    requires Covers(k, b)
    ensures SumGaps(k, q, MaxNat(k.dim, q.dim)) <= SumGaps(b, q, MaxNat(b.dim, q.dim))
    ensures SumSquares(k, q, MaxNat(k.dim, q.dim)) <= SumSquares(b, q, MaxNat(b.dim, q.dim))
    ensures MaxGap(k, q, MaxNat(k.dim, q.dim)) <= MaxGap(b, q, MaxNat(b.dim, q.dim))
  {
    SumsShrink(k, b, q, MaxNat(k.dim, q.dim));
    SumsStable(b, q, MaxNat(k.dim, q.dim));
  }

  /** The coordinate strategy of g_cube_distance; coordinate zero is an error.  On a leaf it is the value of
      the operator, cube_coord_llur. */
  function CoordDistance(cube: NDBox, coord: int, isLeaf: bool): Option<real> {
    if coord == 0 then None
    else
      var inverse := coord < 0;
      var c := if inverse then -coord else coord;
      var v :=
        if c <= 2 * cube.dim then
          var index := (c - 1) / 2;
          var upper := (c - 1) % 2 == 1;
          if cube.point then cube.x[index]
          else
            var lo, hi := Min(cube.x[index], cube.x[index + cube.dim]), Max(cube.x[index], cube.x[index + cube.dim]);
            if isLeaf then (if upper then hi else lo) else if inverse then hi else lo
        else 0.0;
      Some(if inverse then -v else v)
  }

  /** The bound a coordinate names: odd ones the lower, even ones the upper bound of a dimension. */
  ghost function Named(b: NDBox, coord: int): real
    requires coord != 0
  {
    var c := if coord < 0 then -coord else coord;
    var v := if c % 2 == 0 then b.Hi((c - 1) / 2) else b.Lo((c - 1) / 2);
    if coord < 0 then -v else v
  }

  /** On a leaf the distance is the named bound; on an inner key it is at most that of every box below. */
  lemma CoordLowerBound(k: NDBox, b: NDBox, coord: int)
    requires Covers(k, b) && coord != 0
    ensures CoordDistance(b, coord, true) == Some(Named(b, coord))
    ensures CoordDistance(k, coord, false).Some? && CoordDistance(k, coord, false).value <= Named(b, coord)
  {
    var c := if coord < 0 then -coord else coord;
    var i: nat := (c - 1) / 2;
    assert k.Lo(i) <= b.Lo(i) && b.Hi(i) <= k.Hi(i);
    LoHi(b, i);
  }
}
