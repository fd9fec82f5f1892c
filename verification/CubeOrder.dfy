/** The comparison of boxes (cube_cmp_v0 in contrib/cube/cube.c), and when it is an order. */
module CubeOrder {
  import opened Cube

  function Sign(x: real, y: real): int { if x > y then 1 else if x < y then -1 else 0 }

  function Bound(b: NDBox, i: nat, upper: bool): real { if upper then b.Hi(i) else b.Lo(i) }

  /** The sign of the first difference of lower or upper bounds from one dimension on. */
  ghost function FirstDifference(a: NDBox, b: NDBox, from: nat, until: nat, upper: bool): int
    decreases until - from
  {
    if from >= until then 0
    else if Bound(a, from, upper) != Bound(b, from, upper) then Sign(Bound(a, from, upper), Bound(b, from, upper))
    else FirstDifference(a, b, from + 1, until, upper)
  }

  method CompareBounds(a: NDBox, b: NDBox, from: nat, until: nat, upper: bool) returns (r: int)
    ensures r == FirstDifference(a, b, from, until, upper)
  {
    var i := from;
    while i < until
      invariant from <= i && FirstDifference(a, b, from, until, upper) == FirstDifference(a, b, i, until, upper)
    {
      if Bound(a, i, upper) > Bound(b, i, upper) { return 1; }
      if Bound(a, i, upper) < Bound(b, i, upper) { return -1; }
      i := i + 1;
    }
    return 0;
  }

  ghost function Then(x: int, y: int): int { if x != 0 then x else y }

  /** Lower bounds, then upper bounds of the common dimensions; then those of the extra ones, a missing
      dimension counting as zero; then the dimension counts. */
  ghost function Order(a: NDBox, b: NDBox): int {
    var dim, most := if a.dim <= b.dim then a.dim else b.dim, MaxNat(a.dim, b.dim);
    Then(FirstDifference(a, b, 0, dim, false),
    Then(FirstDifference(a, b, 0, dim, true),
    Then(FirstDifference(a, b, dim, most, false),
    Then(FirstDifference(a, b, dim, most, true),
    Sign(a.dim as real, b.dim as real)))))
  }

  /** cube_cmp_v0; comparing an extra dimension with zero is comparing it with the missing one. */
  method CmpV0(a: NDBox, b: NDBox) returns (r: int)
    ensures r == Order(a, b)
  {
    var dim := if a.dim <= b.dim then a.dim else b.dim;
    r := CompareBounds(a, b, 0, dim, false);
    if r != 0 { return; }
    r := CompareBounds(a, b, 0, dim, true);
    if r != 0 { return; }
    var most := MaxNat(a.dim, b.dim);
    r := CompareBounds(a, b, dim, most, false);
    if r != 0 { return; }
    r := CompareBounds(a, b, dim, most, true);
    if r != 0 { return; }
    if a.dim > b.dim { return 1; }
    if a.dim < b.dim { return -1; }
    return 0;
  }

  /** Boxes with the same dimensions and bounds. */
  ghost predicate Same(a: NDBox, b: NDBox) {
    a.dim == b.dim && forall i: nat :: a.Lo(i) == b.Lo(i) && a.Hi(i) == b.Hi(i)
  }

  lemma {:induction false} NoDifference(a: NDBox, b: NDBox, from: nat, until: nat, upper: bool)
    ensures FirstDifference(a, b, from, until, upper) == 0 <==>
              forall i: nat | from <= i < until :: Bound(a, i, upper) == Bound(b, i, upper)
    ensures FirstDifference(a, b, from, until, upper) == -FirstDifference(b, a, from, until, upper)
    decreases until - from
  {
    hide Bound;
    if from < until { NoDifference(a, b, from + 1, until, upper); }
  }

  /** The comparison is zero exactly for the same box, and antisymmetric, for any dimension counts. */
  lemma OrderMeans(a: NDBox, b: NDBox)
    ensures Order(a, b) == 0 <==> Same(a, b)
    ensures Order(a, b) == -Order(b, a)
  {
    hide FirstDifference;
    var dim, most := if a.dim <= b.dim then a.dim else b.dim, MaxNat(a.dim, b.dim);
    NoDifference(a, b, 0, dim, false);
    NoDifference(a, b, 0, dim, true);
    NoDifference(a, b, dim, most, false);
    NoDifference(a, b, dim, most, true);
    if Order(a, b) == 0 {
      forall i: nat ensures a.Lo(i) == b.Lo(i) && a.Hi(i) == b.Hi(i) {
        if i < most { assert Bound(a, i, false) == Bound(b, i, false) && Bound(a, i, true) == Bound(b, i, true); }
      }
    }
  }

  lemma {:induction false} DifferenceTransitive(a: NDBox, b: NDBox, c: NDBox, from: nat, until: nat, upper: bool)
    requires FirstDifference(a, b, from, until, upper) <= 0 && FirstDifference(b, c, from, until, upper) <= 0
    ensures FirstDifference(a, c, from, until, upper) <= 0
    ensures FirstDifference(a, c, from, until, upper) == 0 ==>
              FirstDifference(a, b, from, until, upper) == 0 && FirstDifference(b, c, from, until, upper) == 0
    decreases until - from
  {
    hide Bound;
    if from < until && Bound(a, from, upper) == Bound(b, from, upper) == Bound(c, from, upper) {
      DifferenceTransitive(a, b, c, from + 1, until, upper);
    }
  }

  /** Among boxes of dimension n or none, bounds are compared up to n, then dimension counts. */
  lemma PaddedOrder(a: NDBox, b: NDBox, n: nat)
    requires a.dim in {0, n} && b.dim in {0, n}
    ensures Order(a, b) == Then(FirstDifference(a, b, 0, n, false),
                           Then(FirstDifference(a, b, 0, n, true), Sign(a.dim as real, b.dim as real)))
  {
    hide FirstDifference;
    NoDifference(a, b, 0, 0, false);
    NoDifference(a, b, 0, 0, true);
    NoDifference(a, b, n, n, false);
    NoDifference(a, b, n, n, true);
    if a.dim == 0 && b.dim == 0 {
      NoDifference(a, b, 0, n, false);
      NoDifference(a, b, 0, n, true);
    }
  }

  /** Among them it is transitive. */
  lemma OrderTransitive(a: NDBox, b: NDBox, c: NDBox, n: nat)
    requires a.dim in {0, n} && b.dim in {0, n} && c.dim in {0, n} && Order(a, b) <= 0 && Order(b, c) <= 0
    ensures Order(a, c) <= 0
  {
    hide FirstDifference, Order;
    PaddedOrder(a, b, n);
    PaddedOrder(b, c, n);
    PaddedOrder(a, c, n);
    DifferenceTransitive(a, b, c, 0, n, false);
    if FirstDifference(a, c, 0, n, false) == 0 {
      DifferenceTransitive(a, b, c, 0, n, true);
    }
  }

  ghost predicate PointLike(b: NDBox) { forall i: nat :: b.Lo(i) == b.Hi(i) }

  lemma {:induction false} DifferenceSplits(a: NDBox, b: NDBox, from: nat, mid: nat, until: nat, upper: bool)
    requires from <= mid <= until
    ensures FirstDifference(a, b, from, until, upper) ==
              Then(FirstDifference(a, b, from, mid, upper), FirstDifference(a, b, mid, until, upper))
    decreases mid - from
  {
    hide Bound;
    if from < mid { DifferenceSplits(a, b, from + 1, mid, until, upper); }
  }

  /** Points compare by their coordinates up to any dimension beyond both, then by dimension count. */
  lemma PointOrder(a: NDBox, b: NDBox, n: nat)
    requires PointLike(a) && PointLike(b) && n >= MaxNat(a.dim, b.dim)
    ensures Order(a, b) == Then(FirstDifference(a, b, 0, n, false), Sign(a.dim as real, b.dim as real))
  {
    hide FirstDifference;
    var dim, most := if a.dim <= b.dim then a.dim else b.dim, MaxNat(a.dim, b.dim);
    PointBounds(a, b, 0, dim);
    PointBounds(a, b, dim, most);
    DifferenceSplits(a, b, 0, dim, most, false);
    DifferenceSplits(a, b, 0, most, n, false);
    NoDifference(a, b, most, n, false);
  }

  lemma {:induction false} PointBounds(a: NDBox, b: NDBox, from: nat, until: nat)
    requires PointLike(a) && PointLike(b)
    ensures FirstDifference(a, b, from, until, true) == FirstDifference(a, b, from, until, false)
    decreases until - from
  {
    if from < until {
      assert a.Lo(from) == a.Hi(from) && b.Lo(from) == b.Hi(from);
      PointBounds(a, b, from + 1, until);
    }
  }

  /** Among points it is a total order whatever their dimension counts. */
  lemma PointOrderTransitive(a: NDBox, b: NDBox, c: NDBox)
    requires PointLike(a) && PointLike(b) && PointLike(c) && Order(a, b) <= 0 && Order(b, c) <= 0
    ensures Order(a, c) <= 0
  {
    hide FirstDifference, Order, PointLike;
    var n := MaxNat(a.dim, MaxNat(b.dim, c.dim));
    PointOrder(a, b, n);
    PointOrder(b, c, n);
    PointOrder(a, c, n);
    DifferenceTransitive(a, b, c, 0, n, false);
  }

  // ---------------------------------------------------------------- when the comparison is an order

  /** A box that is zero except for the upper bound of its first dimension and dimension m. */
  function Spike(n: nat, high: real, m: nat, v: real): NDBox {
    Box(n, false, seq(2 * n, i requires 0 <= i < 2 * n =>
                        if i == m || i == m + n then v else if i == n then high else 0.0))
  }

  lemma SpikeBounds(n: nat, high: real, m: nat, v: real, i: nat)
    requires 1 <= m < n && high >= 0.0 && i < n
    ensures Spike(n, high, m, v).Lo(i) == if i == m then v else 0.0
    ensures Spike(n, high, m, v).Hi(i) == if i == m then v else if i == 0 then high else 0.0
  {
  }

  /** The flat box of m dimensions, with one positive upper bound. */
  function Flat(m: nat, high: real): NDBox {
    Box(m, false, seq(2 * m, i requires 0 <= i < 2 * m => if i == m then high else 0.0))
  }

  lemma FlatBounds(m: nat, high: real, i: nat)
    requires 1 <= m && high >= 0.0 && i < m
    ensures Flat(m, high).Lo(i) == 0.0 && Flat(m, high).Hi(i) == if i == 0 then high else 0.0
  {
  }

  lemma {:induction false} FirstAt(a: NDBox, b: NDBox, from: nat, until: nat, upper: bool, k: nat)
    requires from <= k < until && Bound(a, k, upper) != Bound(b, k, upper)
    requires forall i: nat | from <= i < k :: Bound(a, i, upper) == Bound(b, i, upper)
    ensures FirstDifference(a, b, from, until, upper) == Sign(Bound(a, k, upper), Bound(b, k, upper))
    decreases k - from
  {
    hide Bound;
    if from < k { FirstAt(a, b, from + 1, until, upper, k); }
  }

  /** For any two positive dimension counts there are three boxes, each before the next and the last before the
      first. */
  lemma OrderCycle(m: nat, n: nat)
    requires 1 <= m < n
    ensures var a, b, c := Spike(n, 1.0, m, 5.0), Flat(m, 4.0), Spike(n, 9.0, m, 3.0);
            Order(a, b) < 0 && Order(b, c) < 0 && Order(c, a) < 0
  {
    hide FirstDifference, Spike, Flat;
    var a, b, c := Spike(n, 1.0, m, 5.0), Flat(m, 4.0), Spike(n, 9.0, m, 3.0);
    CycleDims(m, n);
    forall i: nat | i < n
      ensures a.Lo(i) == (if i == m then 5.0 else 0.0) && c.Lo(i) == (if i == m then 3.0 else 0.0)
      ensures i < m ==> b.Lo(i) == 0.0
    {
      SpikeBounds(n, 1.0, m, 5.0, i);
      SpikeBounds(n, 9.0, m, 3.0, i);
      if i < m { FlatBounds(m, 4.0, i); }
    }
    SpikeBounds(n, 1.0, m, 5.0, 0);
    SpikeBounds(n, 9.0, m, 3.0, 0);
    FlatBounds(m, 4.0, 0);
    NoDifference(a, b, 0, m, false);
    NoDifference(b, c, 0, m, false);
    FirstAt(a, b, 0, m, true, 0);
    FirstAt(b, c, 0, m, true, 0);
    FirstAt(c, a, 0, n, false, m);
  }

  lemma CycleDims(m: nat, n: nat)
    ensures Spike(n, 1.0, m, 5.0).dim == Spike(n, 9.0, m, 3.0).dim == n && Flat(m, 4.0).dim == m
  {
  }

  ghost predicate TransitiveOn(dims: set<nat>) {
    forall a: NDBox, b: NDBox, c: NDBox ::
      a.dim in dims && b.dim in dims && c.dim in dims && Order(a, b) <= 0 && Order(b, c) <= 0 ==> Order(a, c) <= 0
  }

  /** Over boxes with the given dimension counts the comparison is an order if and only if at most one of the counts
      is positive. */
  lemma OrderExact(dims: set<nat>)
    ensures TransitiveOn(dims) <==> forall m, n | m in dims && n in dims && m > 0 && n > 0 :: m == n
  {
    hide Order;
    if forall m, n | m in dims && n in dims && m > 0 && n > 0 :: m == n {
      forall a: NDBox, b: NDBox, c: NDBox |
        a.dim in dims && b.dim in dims && c.dim in dims && Order(a, b) <= 0 && Order(b, c) <= 0
        ensures Order(a, c) <= 0
      {
        OrderTransitive(a, b, c, MaxNat(a.dim, MaxNat(b.dim, c.dim)));
      }
    } else {
      var m, n :| m in dims && n in dims && m > 0 && n > 0 && m < n;
      var a, b, c := Spike(n, 1.0, m, 5.0), Flat(m, 4.0), Spike(n, 9.0, m, 3.0);
      CycleDims(m, n);
      OrderCycle(m, n);
      OrderMeans(a, c);
      assert !(Order(a, c) <= 0);
    }
  }
}
