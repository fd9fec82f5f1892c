/** How GiST keys of boxes come about: g_cube_union over an entry vector and g_cube_picksplit
    (contrib/cube/cube.c).  Entry 0 of a split's vector is not used. */
module CubeSplit {
  import opened Cube

  /** g_cube_union; with a single entry it returns no box. */
  method UnionAll(entries: seq<NDBox>) returns (r: NDBox)
    requires |entries| >= 2
    ensures forall k | 0 <= k < |entries| :: Covers(r, entries[k])
    ensures forall c: NDBox | (forall k | 0 <= k < |entries| :: Covers(c, entries[k])) :: Covers(c, r)
  {
    hide Covers, Joins;
    r := entries[0];
    CoversSelf(r);
    var i := 1;
    while i < |entries|
      invariant 1 <= i <= |entries|
      invariant forall k | 0 <= k < i :: Covers(r, entries[k])
      invariant forall c: NDBox | (forall k | 0 <= k < |entries| :: Covers(c, entries[k])) :: Covers(c, r)
    {
      var out := Union(r, entries[i], false);
      JoinsCovers(out, r, entries[i]);
      forall k | 0 <= k < i ensures Covers(out, entries[k]) { CoversTransitive(out, r, entries[k]); }
      r := out;
      i := i + 1;
    }
  }

  /** The key covers the entries at the offsets. */
  ghost predicate CoversAll(k: NDBox, entries: seq<NDBox>, offsets: seq<nat>) {
    forall i | 0 <= i < |offsets| :: offsets[i] < |entries| && Covers(k, entries[offsets[i]])
  }

  ghost predicate Ascends(s: seq<nat>) { forall i, j | 0 <= i < j < |s| :: s[i] < s[j] }

  /** Every offset below n, and no other, is on exactly one side. */
  ghost predicate Splits(left: seq<nat>, right: seq<nat>, n: nat) {
    && Ascends(left) && Ascends(right)
    && (forall i: nat | 1 <= i < n :: i in left <==> i !in right)
    && (forall i | 0 <= i < |left| :: 1 <= left[i] < n)
    && (forall i | 0 <= i < |right| :: 1 <= right[i] < n)
  }

  // ---------------------------------------------------------------- volumes

  /** The product of the extents of the first n dimensions. */
  ghost function Extents(b: NDBox, n: nat): real {
    if n == 0 then 1.0 else Extents(b, n - 1) * (b.Hi(n - 1) - b.Lo(n - 1))
  }

  ghost function Volume(b: NDBox): real { if b.dim == 0 then 0.0 else Extents(b, b.dim) }

  /** rt_cube_size */
  method Size(b: NDBox) returns (r: real)
    ensures r == Volume(b)
  {
    if b.point || b.dim == 0 {
      if b.dim > 0 { NoExtent(b, b.dim); }
      return 0.0;
    }
    r := 1.0;
    var i := 0;
    while i < b.dim
      invariant 0 <= i <= b.dim && r == Extents(b, i)
    {
      assert Abs(b.UR(i) - b.LL(i)) == b.Hi(i) - b.Lo(i);
      r := r * Abs(b.UR(i) - b.LL(i));
      i := i + 1;
    }
  }

  lemma NoExtent(b: NDBox, n: nat)
    requires b.point && 1 <= n <= b.dim
    ensures Extents(b, n) == 0.0
  {
    assert b.Hi(n - 1) == b.Lo(n - 1);
  }

  /** What two boxes have in common in one dimension, or the gap between them when that is nothing. */
  ghost function CommonExtent(a: NDBox, b: NDBox, i: nat): real {
    Abs(Min(a.Hi(i), b.Hi(i)) - Max(a.Lo(i), b.Lo(i)))
  }

  ghost function JointExtent(a: NDBox, b: NDBox, i: nat): real {
    Max(a.Hi(i), b.Hi(i)) - Min(a.Lo(i), b.Lo(i))
  }

  ghost function Common(a: NDBox, b: NDBox, n: nat): real {
    if n == 0 then 1.0 else Common(a, b, n - 1) * CommonExtent(a, b, n - 1)
  }

  ghost function Joint(a: NDBox, b: NDBox, n: nat): real {
    if n == 0 then 1.0 else Joint(a, b, n - 1) * JointExtent(a, b, n - 1)
  }

  /** What putting two boxes on one page wastes: the volume of the least box over both, less what they have in
      common. */
  ghost function Waste(a: NDBox, b: NDBox): real {
    var dim := MaxNat(a.dim, b.dim);
    if dim == 0 then 0.0 else Joint(a, b, dim) - Common(a, b, dim)
  }

  /** Dimension i of `r` is what two boxes have in common there, or the gap between them when that is nothing. */
  ghost predicate Common1D(r: NDBox, a: NDBox, b: NDBox, i: nat) {
    var lo, hi := Max(a.Lo(i), b.Lo(i)), Min(a.Hi(i), b.Hi(i));
    if lo <= hi then r.Lo(i) == lo && r.Hi(i) == hi else r.Lo(i) == hi && r.Hi(i) == lo
  }

  /** The greater lower bound and the lesser upper bound. */
  ghost predicate CommonBounds(a: NDBox, b: NDBox, i: nat, lo: real, hi: real) {
    lo == Max(a.Lo(i), b.Lo(i)) && hi == Min(a.Hi(i), b.Hi(i))
  }

  /** cube_inter; boxes that do not meet give the box between them. */
  method Inter(a0: NDBox, b0: NDBox) returns (r: NDBox)
    ensures r.dim == MaxNat(a0.dim, b0.dim)
    ensures forall i: nat | i < r.dim :: Common1D(r, a0, b0, i)
    ensures forall i: nat | i < r.dim :: r.Hi(i) - r.Lo(i) == CommonExtent(a0, b0, i)
  {
    hide CommonExtent, Common1D, CommonBounds;
    var a, b := a0, b0;
    if a.dim < b.dim { a, b := b, a; }
    var x := InterCoords(a, b);
    var dim := a.dim;
    var out: NDBox := Box(dim, false, x);
    var point := IsPoint(out);
    r := if point then Box(dim, true, x[..dim]) else out;
    forall k: nat | k < dim
      ensures r.Hi(k) - r.Lo(k) == CommonExtent(a0, b0, k) && Common1D(r, a0, b0, k)
    {
      assert out.LL(k) == x[k] && out.UR(k) == x[k + dim];
      CommonIs(r, a, b, k, x[k], x[k + dim]);
    }
  }

  /** The loops of cube_inter, with the longer box first. */
  method InterCoords(a: NDBox, b: NDBox) returns (r: seq<real>)
    requires b.dim <= a.dim
    ensures |r| == 2 * a.dim && forall k: nat | k < a.dim :: CommonBounds(a, b, k, r[k], r[k + a.dim])
  {
    hide CommonBounds, Min, Max;
    var dim := a.dim;
    var x := new real[2 * dim](i => 0.0);
    var i := 0;
    while i < b.dim
      invariant 0 <= i <= b.dim && forall k: nat | k < i :: CommonBounds(a, b, k, x[k], x[k + dim])
    {
      x[i] := Max(Min(a.LL(i), a.UR(i)), Min(b.LL(i), b.UR(i)));
      x[i + dim] := Min(Max(a.LL(i), a.UR(i)), Max(b.LL(i), b.UR(i)));
      CommonHere(a, b, i, x[i], x[i + dim]);
      i := i + 1;
    }
    while i < dim
      invariant b.dim <= i <= dim && forall k: nat | k < i :: CommonBounds(a, b, k, x[k], x[k + dim])
    {
      x[i] := Max(0.0, Min(a.LL(i), a.UR(i)));
      x[i + dim] := Min(0.0, Max(a.LL(i), a.UR(i)));
      CommonHere(a, b, i, x[i], x[i + dim]);
      i := i + 1;
    }
    return x[..];
  }

  lemma CommonHere(a: NDBox, b: NDBox, i: nat, lo: real, hi: real)
    requires i < a.dim
    requires i < b.dim ==> lo == Max(Min(a.LL(i), a.UR(i)), Min(b.LL(i), b.UR(i)))
                           && hi == Min(Max(a.LL(i), a.UR(i)), Max(b.LL(i), b.UR(i)))
    requires i >= b.dim ==> lo == Max(0.0, Min(a.LL(i), a.UR(i))) && hi == Min(0.0, Max(a.LL(i), a.UR(i)))
    ensures CommonBounds(a, b, i, lo, hi)
  {
  }

  lemma CommonIs(r: NDBox, a: NDBox, b: NDBox, i: nat, lo: real, hi: real)
    requires CommonBounds(a, b, i, lo, hi) && r.Lo(i) == Min(lo, hi) && r.Hi(i) == Max(lo, hi)
    ensures Common1D(r, a, b, i) && r.Hi(i) - r.Lo(i) == CommonExtent(a, b, i)
    ensures Common1D(r, b, a, i) && r.Hi(i) - r.Lo(i) == CommonExtent(b, a, i)
  {
  }

  lemma {:induction false} CommonVolume(r: NDBox, a: NDBox, b: NDBox, n: nat)
    requires n <= r.dim && forall i: nat | i < r.dim :: r.Hi(i) - r.Lo(i) == CommonExtent(a, b, i)
    ensures Extents(r, n) == Common(a, b, n)
  {
    hide CommonExtent;
    if n > 0 { CommonVolume(r, a, b, n - 1); }
  }

  lemma JoinedExtent(r: NDBox, a: NDBox, b: NDBox, i: nat)
    requires Joins(r, a, b)
    ensures r.Hi(i) - r.Lo(i) == JointExtent(a, b, i)
  {
    hide Min, Max;
    assert r.Lo(i) == Min(a.Lo(i), b.Lo(i)) && r.Hi(i) == Max(a.Hi(i), b.Hi(i));
  }

  lemma {:induction false} JointVolume(r: NDBox, a: NDBox, b: NDBox, n: nat)
    requires Joins(r, a, b)
    ensures Extents(r, n) == Joint(a, b, n)
  {
    hide Joins, JointExtent;
    if n > 0 {
      JointVolume(r, a, b, n - 1);
      JoinedExtent(r, a, b, n - 1);
    }
  }

  // ---------------------------------------------------------------- splits

  method PairWaste(a: NDBox, b: NDBox) returns (w: real)
    ensures w == Waste(a, b)
  {
    hide Joins, Extents, Common, Joint;
    var union := Union(a, b, false);
    var sizeUnion := Size(union);
    var inter := Inter(a, b);
    var sizeInter := Size(inter);
    w := sizeUnion - sizeInter;
    JointDim(union, a, b);
    JointVolume(union, a, b, union.dim);
    CommonVolume(inter, a, b, inter.dim);
  }

  lemma JointDim(r: NDBox, a: NDBox, b: NDBox)
    requires Joins(r, a, b)
    ensures r.dim == MaxNat(a.dim, b.dim)
  {
  }

  /** The seeds: of the pairs that leave out the last entry, one that wastes most. */
  method PickSeeds(entries: seq<NDBox>) returns (seed1: nat, seed2: nat)
    requires |entries| >= 3
    ensures 1 <= seed1 < seed2 < |entries| && (|entries| > 3 ==> seed2 < |entries| - 1)
    ensures forall i, j | 1 <= i < j < |entries| - 1 ::
              Waste(entries[i], entries[j]) <= Waste(entries[seed1], entries[seed2])
  {
    hide Waste;
    var maxoff := |entries| - 2;
    seed1, seed2 := 1, 2;
    var firsttime, waste := true, 0.0;
    var i := 1;
    while i < maxoff
      invariant 1 <= i && 1 <= seed1 < seed2 < |entries| && (seed2 <= maxoff || maxoff == 1)
      invariant firsttime ==> i == 1
      invariant !firsttime ==> waste == Waste(entries[seed1], entries[seed2])
      invariant forall p, q | 1 <= p < q <= maxoff && p < i :: Waste(entries[p], entries[q]) <= waste
    {
      var j := i + 1;
      while j <= maxoff
        invariant i < j <= maxoff + 1 && 1 <= seed1 < seed2 <= maxoff
        invariant firsttime ==> i == 1 && j == 2
        invariant !firsttime ==> waste == Waste(entries[seed1], entries[seed2])
        invariant forall p, q | 1 <= p < q <= maxoff && (p < i || (p == i && q < j)) ::
                    Waste(entries[p], entries[q]) <= waste
      {
        var sizeWaste := PairWaste(entries[i], entries[j]);
        if sizeWaste > waste || firsttime {
          waste, seed1, seed2, firsttime := sizeWaste, i, j, false;
        }
        j := j + 1;
      }
      i := i + 1;
    }
  }

  /** g_cube_picksplit */
  method PickSplit(entries: seq<NDBox>)
    returns (left: seq<nat>, right: seq<nat>, ldatum: NDBox, rdatum: NDBox)
    requires |entries| >= 3
    ensures Splits(left, right, |entries|) && left != [] && right != []
    ensures CoversAll(ldatum, entries, left) && CoversAll(rdatum, entries, right)
  {
    hide Covers, Joins, Splits;
    var seed1, seed2 := PickSeeds(entries);
    left, right := [], [];
    ldatum := Union(entries[seed1], entries[seed1], true);
    rdatum := Union(entries[seed2], entries[seed2], true);
    CoversSelf(ldatum);
    CoversSelf(rdatum);
    var sizeL := Size(ldatum);
    var sizeR := Size(rdatum);
    NothingSplit();
    var i := 1;
    while i < |entries|
      invariant 1 <= i <= |entries| && Splits(left, right, i)
      invariant Covers(ldatum, entries[seed1]) && Covers(rdatum, entries[seed2])
      invariant CoversAll(ldatum, entries, left) && CoversAll(rdatum, entries, right)
      invariant (i > seed1 ==> left != []) && (i > seed2 ==> right != [])
    {
      SplitsStep(left, right, i);
      if i == seed1 {
        left := left + [i];
      } else if i == seed2 {
        right := right + [i];
      } else {
        var unionL := Union(ldatum, entries[i], false);
        var unionR := Union(rdatum, entries[i], false);
        var sizeA := Size(unionL);
        var sizeB := Size(unionR);
        if sizeA - sizeL < sizeB - sizeR {
          Grows(unionL, ldatum, entries, left, i);
          Grows(unionL, ldatum, entries, [seed1], i);
          ldatum, sizeL, left := unionL, sizeA, left + [i];
        } else {
          Grows(unionR, rdatum, entries, right, i);
          Grows(unionR, rdatum, entries, [seed2], i);
          rdatum, sizeR, right := unionR, sizeB, right + [i];
        }
      }
      i := i + 1;
    }
  }

  lemma NothingSplit()
    ensures Splits([], [], 1)
  {
  }

  lemma SplitsStep(left: seq<nat>, right: seq<nat>, n: nat)
    requires Splits(left, right, n) && n >= 1
    ensures Splits(left + [n], right, n + 1) && Splits(left, right + [n], n + 1)
  {
  }

  lemma Grows(out: NDBox, k: NDBox, entries: seq<NDBox>, offsets: seq<nat>, i: nat)
    requires i < |entries| && Joins(out, k, entries[i]) && CoversAll(k, entries, offsets)
    ensures CoversAll(out, entries, offsets + [i])
    ensures |offsets| == 1 ==> Covers(out, entries[offsets[0]])
  {
    hide Covers, Joins;
    JoinsCovers(out, k, entries[i]);
    forall j | 0 <= j < |offsets| ensures Covers(out, entries[offsets[j]]) {
      CoversTransitive(out, k, entries[offsets[j]]);
    }
  }
}
