/** n-dimensional boxes (contrib/cube/cube.c, cubedata.h) over the reals.  Boxes of different dimension
    counts are compared as if the shorter one were continued with zeroes. */
module Cube {

  function Min(x: real, y: real): real { if x <= y then x else y }
  function Max(x: real, y: real): real { if x >= y then x else y }
  function MaxNat(x: nat, y: nat): nat { if x >= y then x else y }

  /** NDBOX: lower left coordinates, then upper right ones unless the point flag is set. */
  datatype Box = Box(dim: nat, point: bool, x: seq<real>)
  {
    predicate Ok() { |x| == if point then dim else 2 * dim }

    function LL(i: nat): real
      requires Ok() && i < dim
    {
      x[i]
    }

    function UR(i: nat): real
      requires Ok() && i < dim
    {
      if point then x[i] else x[i + dim]
    }

    /** The bounds of the box in any dimension; corners may be given in either order. */
    function Lo(i: nat): real
      requires Ok()
    {
      if i < dim then Min(LL(i), UR(i)) else 0.0
    }

    function Hi(i: nat): real
      requires Ok()
    {
      if i < dim then Max(LL(i), UR(i)) else 0.0
    }
  }

  type NDBox = b: Box | b.Ok() witness Box(0, true, [])

  // ---------------------------------------------------------------- union

  /** `k` bounds `b` in every dimension. */
  ghost predicate Covers(k: NDBox, b: NDBox) {
    k.dim >= b.dim && forall i: nat :: k.Lo(i) <= b.Lo(i) && b.Hi(i) <= k.Hi(i)
  }

  lemma CoversSelf(b: NDBox)
    ensures Covers(b, b)
  {
  }

  lemma CoversTransitive(a: NDBox, b: NDBox, c: NDBox)
    requires Covers(a, b) && Covers(b, c)
    ensures Covers(a, c)
  {
    forall i: nat ensures a.Lo(i) <= c.Lo(i) && c.Hi(i) <= a.Hi(i) {
      assert a.Lo(i) <= b.Lo(i) && b.Hi(i) <= a.Hi(i) && b.Lo(i) <= c.Lo(i) && c.Hi(i) <= b.Hi(i);
    }
  }

  /** `r` is the least box that bounds `a` and `b`. */
  ghost predicate Joins(r: NDBox, a: NDBox, b: NDBox) {
    && r.dim == MaxNat(a.dim, b.dim)
    && forall i: nat :: r.Lo(i) == Min(a.Lo(i), b.Lo(i)) && r.Hi(i) == Max(a.Hi(i), b.Hi(i))
  }

  lemma JoinsCovers(r: NDBox, a: NDBox, b: NDBox)
    requires Joins(r, a, b)
    ensures Covers(r, a) && Covers(r, b)
    ensures forall k: NDBox | Covers(k, a) && Covers(k, b) :: Covers(k, r)
  {
    forall i: nat
      ensures r.Lo(i) <= a.Lo(i) && a.Hi(i) <= r.Hi(i)
      ensures r.Lo(i) <= b.Lo(i) && b.Hi(i) <= r.Hi(i)
    {
      assert r.Lo(i) == Min(a.Lo(i), b.Lo(i)) && r.Hi(i) == Max(a.Hi(i), b.Hi(i));
    }
    forall k: NDBox | Covers(k, a) && Covers(k, b) ensures Covers(k, r) {
      forall i: nat ensures k.Lo(i) <= r.Lo(i) && r.Hi(i) <= k.Hi(i) {
        assert k.Lo(i) <= a.Lo(i) && k.Lo(i) <= b.Lo(i) && a.Hi(i) <= k.Hi(i) && b.Hi(i) <= k.Hi(i);
        assert r.Lo(i) == Min(a.Lo(i), b.Lo(i)) && r.Hi(i) == Max(a.Hi(i), b.Hi(i));
      }
    }
  }

  /** cube_union_v0; `identical` says that the two arguments are the same datum. */
  method Union(a0: NDBox, b0: NDBox, identical: bool) returns (r: NDBox)
    requires identical ==> a0 == b0
    ensures Joins(r, a0, b0)
    ensures identical ==> r == a0
  {
    if identical { return a0; }
    var a, b := a0, b0;
    if a.dim < b.dim { a, b := b, a; }
    var x := UnionCoords(a, b);
    var out: NDBox := Box(a.dim, false, x);
    var point := IsPoint(out);
    r := if point then Box(a.dim, true, x[..a.dim]) else out;
    assert forall k: nat | k < a.dim :: out.LL(k) == x[k] && out.UR(k) == x[k + a.dim];
    UnionJoins(a, b, x, r);
    JoinsSymmetric(r, a, b);
  }

  /** The bounds of both boxes in dimension k, joined. */
  ghost predicate JoinedAt(a: NDBox, b: NDBox, k: nat, lo: real, hi: real) {
    lo == Min(a.Lo(k), b.Lo(k)) && hi == Max(a.Hi(k), b.Hi(k))
  }

  /** The loops of cube_union_v0, with the longer box first. */
  method UnionCoords(a: NDBox, b: NDBox) returns (r: seq<real>)
    requires b.dim <= a.dim
    ensures |r| == 2 * a.dim && forall k: nat | k < a.dim :: JoinedAt(a, b, k, r[k], r[k + a.dim])
  {
    hide JoinedAt, Min, Max;
    var dim := a.dim;
    var x := new real[2 * dim](i => 0.0);
    var i := 0;
    while i < b.dim
      invariant 0 <= i <= b.dim && forall k: nat | k < i :: JoinedAt(a, b, k, x[k], x[k + dim])
    {
      x[i] := Min(Min(a.LL(i), a.UR(i)), Min(b.LL(i), b.UR(i)));
      x[i + dim] := Max(Max(a.LL(i), a.UR(i)), Max(b.LL(i), b.UR(i)));
      JoinedHere(a, b, i, x[i], x[i + dim]);
      i := i + 1;
    }
    while i < dim
      invariant b.dim <= i <= dim && forall k: nat | k < i :: JoinedAt(a, b, k, x[k], x[k + dim])
    {
      x[i] := Min(0.0, Min(a.LL(i), a.UR(i)));
      x[i + dim] := Max(0.0, Max(a.LL(i), a.UR(i)));
      JoinedHere(a, b, i, x[i], x[i + dim]);
      i := i + 1;
    }
    return x[..];
  }

  lemma JoinedHere(a: NDBox, b: NDBox, i: nat, lo: real, hi: real)
    requires i < a.dim
    requires i < b.dim ==> lo == Min(Min(a.LL(i), a.UR(i)), Min(b.LL(i), b.UR(i)))
                           && hi == Max(Max(a.LL(i), a.UR(i)), Max(b.LL(i), b.UR(i)))
    requires i >= b.dim ==> lo == Min(0.0, Min(a.LL(i), a.UR(i))) && hi == Max(0.0, Max(a.LL(i), a.UR(i)))
    ensures JoinedAt(a, b, i, lo, hi)
  {
  }

  lemma UnionJoins(a: NDBox, b: NDBox, x: seq<real>, r: NDBox)
    requires b.dim <= a.dim && |x| == 2 * a.dim
    requires forall k: nat | k < a.dim :: JoinedAt(a, b, k, x[k], x[k + a.dim])
    requires r == Box(a.dim, false, x) ||
             (r == Box(a.dim, true, x[..a.dim]) && forall k: nat | k < a.dim :: x[k] == x[k + a.dim])
    ensures Joins(r, a, b)
  {
    forall k: nat ensures r.Lo(k) == Min(a.Lo(k), b.Lo(k)) && r.Hi(k) == Max(a.Hi(k), b.Hi(k)) {
      if k < a.dim {
        assert JoinedAt(a, b, k, x[k], x[k + a.dim]);
        LoHi(a, k);
        LoHi(b, k);
      }
    }
  }

  lemma JoinsSymmetric(r: NDBox, a: NDBox, b: NDBox)
    requires Joins(r, a, b)
    ensures Joins(r, b, a)
  {
    forall i: nat ensures r.Lo(i) == Min(b.Lo(i), a.Lo(i)) && r.Hi(i) == Max(b.Hi(i), a.Hi(i)) {
      assert r.Lo(i) == Min(a.Lo(i), b.Lo(i)) && r.Hi(i) == Max(a.Hi(i), b.Hi(i));
    }
  }

  lemma LoHi(b: NDBox, i: nat)
    ensures b.Lo(i) <= b.Hi(i)
  {
  }

  /** cube_is_point_internal */
  method IsPoint(c: NDBox) returns (r: bool)
    ensures r <==> forall i: nat | i < c.dim :: c.LL(i) == c.UR(i)
  {
    if c.point { return true; }
    var i := 0;
    while i < c.dim
      invariant 0 <= i <= c.dim && forall k: nat | k < i :: c.LL(k) == c.UR(k)
    {
      if c.LL(i) != c.UR(i) { return false; }
      i := i + 1;
    }
    return true;
  }

  // ---------------------------------------------------------------- comparisons

  /** What cube_contains_v0 decides: the dimensions `b` has beyond `a` are zero, and in the common ones `a`
      bounds `b`.  Dimensions `a` has beyond `b` do not matter. */
  ghost predicate Contains(a: NDBox, b: NDBox) {
    && (forall i: nat | a.dim <= i < b.dim :: b.LL(i) == 0.0 && b.UR(i) == 0.0)
    && (forall i: nat | i < a.dim && i < b.dim :: a.Lo(i) <= b.Lo(i) && b.Hi(i) <= a.Hi(i))
  }

  /** cube_contains_v0 */
  method ContainsV0(a: NDBox, b: NDBox) returns (r: bool)
    ensures r <==> Contains(a, b)
  {
    var i := a.dim;
    while i < b.dim
      invariant a.dim <= i && (a.dim <= b.dim ==> i <= b.dim)
      invariant forall k: nat | a.dim <= k < i && k < b.dim :: b.LL(k) == 0.0 && b.UR(k) == 0.0
    {
      if b.LL(i) != 0.0 { return false; }
      if b.UR(i) != 0.0 { return false; }
      i := i + 1;
    }
    var n := if a.dim <= b.dim then a.dim else b.dim;
    i := 0;
    while i < n
      invariant 0 <= i <= n && forall k: nat | k < i :: a.Lo(k) <= b.Lo(k) && b.Hi(k) <= a.Hi(k)
    {
      if Min(a.LL(i), a.UR(i)) > Min(b.LL(i), b.UR(i)) {
        assert a.Lo(i) > b.Lo(i);
        return false;
      }
      if Max(a.LL(i), a.UR(i)) < Max(b.LL(i), b.UR(i)) {
        assert a.Hi(i) < b.Hi(i);
        return false;
      }
      i := i + 1;
    }
    return true;
  }

  /** The boxes meet in every dimension, missing ones taken as zero. */
  ghost predicate Overlaps(a: NDBox, b: NDBox) {
    forall i: nat :: a.Lo(i) <= b.Hi(i) && b.Lo(i) <= a.Hi(i)
  }

  /** cube_overlap_v0 */
  method OverlapV0(a0: NDBox, b0: NDBox) returns (r: bool)
    ensures r <==> Overlaps(a0, b0)
  {
    var a, b := a0, b0;
    if a.dim < b.dim { a, b := b, a; }
    var i := 0;
    while i < b.dim
      invariant 0 <= i <= b.dim && forall k: nat | k < i :: a.Lo(k) <= b.Hi(k) && b.Lo(k) <= a.Hi(k)
    {
      if Min(a.LL(i), a.UR(i)) > Max(b.LL(i), b.UR(i)) {
        assert a.Lo(i) > b.Hi(i);
        return false;
      }
      if Max(a.LL(i), a.UR(i)) < Min(b.LL(i), b.UR(i)) {
        assert a.Hi(i) < b.Lo(i);
        return false;
      }
      i := i + 1;
    }
    i := b.dim;
    while i < a.dim
      invariant b.dim <= i <= a.dim && forall k: nat | k < i :: a.Lo(k) <= b.Hi(k) && b.Lo(k) <= a.Hi(k)
    {
      if Min(a.LL(i), a.UR(i)) > 0.0 {
        assert a.Lo(i) > b.Hi(i);
        return false;
      }
      if Max(a.LL(i), a.UR(i)) < 0.0 {
        assert a.Hi(i) < b.Lo(i);
        return false;
      }
      i := i + 1;
    }
    return true;
  }

  // ---------------------------------------------------------------- distances

  /** distance_1D */
  function Distance1D(a1: real, a2: real, b1: real, b2: real): real {
    if a1 <= b1 && a2 <= b1 && a1 <= b2 && a2 <= b2 then Min(b1, b2) - Max(a1, a2)
    else if a1 > b1 && a2 > b1 && a1 > b2 && a2 > b2 then Min(a1, a2) - Max(b1, b2)
    else 0.0
  }

  function Abs(x: real): real { if x < 0.0 then -x else x }

  /** The gap between two boxes in one dimension. */
  ghost function Gap(a: NDBox, b: NDBox, i: nat): (g: real)
    ensures g >= 0.0
  {
    Max(0.0, Max(b.Lo(i) - a.Hi(i), a.Lo(i) - b.Hi(i)))
  }

  lemma GapIs(a: NDBox, b: NDBox, i: nat)
    ensures Gap(a, b, i) == Gap(b, a, i)
    ensures i < a.dim && i < b.dim ==> Distance1D(a.LL(i), a.UR(i), b.LL(i), b.UR(i)) == Gap(a, b, i)
    ensures b.dim <= i < a.dim ==> Distance1D(a.LL(i), a.UR(i), 0.0, 0.0) == Gap(a, b, i)
    ensures i >= a.dim && i >= b.dim ==> Gap(a, b, i) == 0.0
  {
  }

  ghost function SumGaps(a: NDBox, b: NDBox, n: nat): real {
    if n == 0 then 0.0 else SumGaps(a, b, n - 1) + Gap(a, b, n - 1)
  }

  ghost function SumSquares(a: NDBox, b: NDBox, n: nat): real {
    if n == 0 then 0.0 else SumSquares(a, b, n - 1) + Gap(a, b, n - 1) * Gap(a, b, n - 1)
  }

  ghost function MaxGap(a: NDBox, b: NDBox, n: nat): real {
    if n == 0 then 0.0 else Max(MaxGap(a, b, n - 1), Gap(a, b, n - 1))
  }

  /** The term of one dimension, as the three distance functions obtain it after the swap. */
  function Term(a: NDBox, b: NDBox, i: nat): real
    requires i < a.dim && b.dim <= a.dim
  {
    if i < b.dim then Distance1D(a.LL(i), a.UR(i), b.LL(i), b.UR(i)) else Distance1D(a.LL(i), a.UR(i), 0.0, 0.0)
  }

  /** distance_taxicab */
  method Taxicab(a0: NDBox, b0: NDBox) returns (d: real)
    ensures d == SumGaps(a0, b0, MaxNat(a0.dim, b0.dim))
  {
    var a, b := a0, b0;
    if a.dim < b.dim { a, b := b, a; }
    d := 0.0;
    var i := 0;
    while i < a.dim
      invariant 0 <= i <= a.dim && d == SumGaps(a0, b0, i)
    {
      GapIs(a, b, i);
      d := d + Abs(Term(a, b, i));
      i := i + 1;
    }
  }

  /** cube_distance before the square root. */
  method EuclidSquared(a0: NDBox, b0: NDBox) returns (d: real)
    ensures d == SumSquares(a0, b0, MaxNat(a0.dim, b0.dim))
  {
    var a, b := a0, b0;
    if a.dim < b.dim { a, b := b, a; }
    d := 0.0;
    var i := 0;
    while i < a.dim
      invariant 0 <= i <= a.dim && d == SumSquares(a0, b0, i)
    {
      GapIs(a, b, i);
      var t := Term(a, b, i);
      assert t == Gap(a0, b0, i);
      d := d + t * t;
      i := i + 1;
    }
  }

  /** distance_chebyshev */
  method Chebyshev(a0: NDBox, b0: NDBox) returns (d: real)
    ensures d == MaxGap(a0, b0, MaxNat(a0.dim, b0.dim))
  {
    var a, b := a0, b0;
    if a.dim < b.dim { a, b := b, a; }
    d := 0.0;
    var i := 0;
    while i < a.dim
      invariant 0 <= i <= a.dim && d == MaxGap(a0, b0, i)
    {
      GapIs(a, b, i);
      var t := Abs(Term(a, b, i));
      if t > d { d := t; }
      i := i + 1;
    }
  }
}
