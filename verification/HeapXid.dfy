/** Transaction ids in the heap checker (contrib/amcheck/verify_heapam.c): 32-bit ids from tuple headers are
    widened to 64 bits with the help of the next id, judged against a cached range of valid ids, and looked up in
    the commit log. */
module HeapXid {
  import opened Wrappers
  import opened Machine

  /** FirstNormalTransactionId; 0 is invalid, 1 and 2 are the bootstrap and frozen ids. */
  const FIRST_NORMAL: int := 3

  type Xid = x: int | 0 <= x < 0x1_0000_0000
  type FullXid = x: int | 0 <= x < 0x1_0000_0000_0000_0000

  predicate Normal(xid: Xid) { xid >= FIRST_NORMAL }

  /** XidFromFullTransactionId */
  function Low(fxid: FullXid): Xid { fxid % TWO_32 }

  function Epoch(fxid: FullXid): nat { fxid / TWO_32 }

  /** The 32-bit modulo difference between the next id and an id. */
  function Diff(xid: Xid, next: FullXid): int { ToInt32(Low(next) - xid) }

  predicate Clamps(xid: Xid, next: FullXid) { Diff(xid, next) > 0 && next - FIRST_NORMAL < Diff(xid, next) }

  /** FullTransactionIdFromXidAndCtx, in unsigned 64-bit arithmetic. */
  function Widen(xid: Xid, next: FullXid): FullXid {
    if !Normal(xid) then xid
    else if Clamps(xid, next) then FIRST_NORMAL
    else (next - Diff(xid, next)) % TWO_64
  }

  /** TransactionIdPrecedes */
  predicate Precedes(a: Xid, b: Xid) {
    if !Normal(a) || !Normal(b) then a < b else ToInt32(a - b) < 0
  }

  // ---------------------------------------------------------------- widening

  lemma DiffMeans(xid: Xid, next: FullXid)
    ensures -TWO_31 <= Diff(xid, next) < TWO_31
    ensures (next - Diff(xid, next)) % TWO_32 == xid
  {
    var d, m := Diff(xid, next), Low(next) - xid;
    var k := (m + TWO_31) / TWO_32;
    assert d == m - k * TWO_32;
    assert next == Epoch(next) * TWO_32 + Low(next);
    ModUnique(next - d, Epoch(next) + k, xid);
  }

  lemma ModUnique(x: int, q: int, r: int)
    requires x == q * TWO_32 + r && 0 <= r < TWO_32
    ensures x % TWO_32 == r && x / TWO_32 == q
  {
  }

  /** A widened normal id is normal; it is congruent to the id and within 2^31 of the next id unless it had
      to be clamped or would pass the end of 64 bits; and only ids before epoch 0 are clamped. */
  lemma WidenMeans(xid: Xid, next: FullXid)
    requires Normal(xid) && Normal(Low(next))
    ensures Clamps(xid, next) ==> Epoch(next) == 0 && Widen(xid, next) == FIRST_NORMAL
    ensures !Clamps(xid, next) ==> Low(Widen(xid, next)) == xid
    ensures Widen(xid, next) >= FIRST_NORMAL
    ensures !Clamps(xid, next) && next - Diff(xid, next) < TWO_64 ==>
              next - TWO_31 < Widen(xid, next) <= next + TWO_31
  {
    DiffMeans(xid, next);
    var v := next - Diff(xid, next);
    if Clamps(xid, next) {
      assert next < TWO_32;
    } else {
      assert v >= 0;
      ModOfMod(v, xid);
    }
  }

  lemma ModOfMod(v: int, r: Xid)
    requires 0 <= v && v % TWO_32 == r
    ensures v % TWO_64 % TWO_32 == r
  {
    var q := v / TWO_64;
    assert v == q * TWO_64 + v % TWO_64;
    var w := v % TWO_64;
    assert v - w == q * TWO_32 * TWO_32;
    ModUnique(w, v / TWO_32 - q * TWO_32, r);
  }

  /** Widening undoes truncation for every id within 2^31 of the next one. */
  lemma WidenRoundTrip(fxid: FullXid, next: FullXid)
    requires Normal(Low(fxid)) && next - TWO_31 < fxid <= next + TWO_31
    ensures Widen(Low(fxid), next) == fxid
  {
    DiffIs(fxid, next);
  }

  lemma DiffIs(fxid: FullXid, next: FullXid)
    requires next - TWO_31 < fxid <= next + TWO_31
    ensures Diff(Low(fxid), next) == next - fxid
  {
    var d := next - fxid;
    var e := Epoch(next) - Epoch(fxid);
    assert Low(next) - Low(fxid) == d - e * TWO_32;
    ModUnique(d - e * TWO_32 + TWO_31, -e, d + TWO_31);
  }

  /** Within a window shorter than 2^31, 64-bit order is 32-bit modular order. */
  lemma OrderAgrees(a: FullXid, b: FullXid)
    requires Normal(Low(a)) && Normal(Low(b)) && -TWO_31 < a - b < TWO_31
    ensures a < b <==> Precedes(Low(a), Low(b))
  {
    DiffIs(b, a);
  }

  /** The special ids precede all normal ones, in the order of their numbers. */
  lemma SpecialFirst(a: Xid, b: Xid)
    requires !Normal(a)
    ensures Normal(b) ==> Precedes(a, b) && !Precedes(b, a)
    ensures !Normal(b) ==> (Precedes(a, b) <==> a < b)
  {
  }

  // ---------------------------------------------------------------- the checker's range

  datatype Violation = BoundsOk | Invalid | InFuture | PrecedesClusterMin | PrecedesRelMin

  /** What is said of a widened id. */
  function Judge(fxid: FullXid, oldest: FullXid, next: FullXid, relfrozen: FullXid): Violation {
    if next <= fxid then InFuture
    else if fxid < oldest then PrecedesClusterMin
    else if fxid < relfrozen then PrecedesRelMin
    else BoundsOk
  }

  datatype Status = Committed | IsCurrent | InProgress | Aborted

  /** What the transaction manager says of an id when it is asked. */
  datatype Answers = Answers(current: bool, inProgress: bool, committed: bool)

  class HeapCheckContext {
    var nextFxid: FullXid
    var oldestFxid: FullXid
    const relfrozenFxid: FullXid
    var cachedXid: Xid
    var cachedStatus: Status

    /** What has been looked up so far. */
    ghost var seen: set<(Xid, Status)>

    /** The cached status was once looked up for the cached id; at first none is cached. */
    ghost predicate Remembers()
      reads this
    {
      cachedXid != 0 ==> (cachedXid, cachedStatus) in seen
    }

    constructor (next: FullXid, oldest: Xid, relfrozen: FullXid)
      ensures nextFxid == next && oldestFxid == Widen(oldest, next) && relfrozenFxid == relfrozen
      ensures Remembers() && seen == {}
    {
      nextFxid, oldestFxid, relfrozenFxid := next, Widen(oldest, next), relfrozen;
      cachedXid, cachedStatus, seen := 0, Committed, {};
    }

    /** update_cached_xid_range, with the shared variables as arguments: the cached oldest id is the 64-bit id
        whose low half is shared, if that lies less than 2^31 before the next one. */
    method UpdateCachedXidRange(next: FullXid, oldest: Xid)
      modifies this`nextFxid, this`oldestFxid
      ensures nextFxid == next && oldestFxid == Widen(oldest, next)
      ensures forall o: FullXid | Low(o) == oldest && Normal(oldest) && next - TWO_31 < o <= next :: oldestFxid == o
    {
      nextFxid := next;
      oldestFxid := Widen(oldest, nextFxid);
      forall o: FullXid | Low(o) == oldest && Normal(oldest) && next - TWO_31 < o <= next ensures oldestFxid == o {
        WidenRoundTrip(o, next);
      }
    }

    /** The bounds part of get_xid_status; `next` and `oldest` are the shared variables at the time. */
    method GetXidBounds(xid: Xid, next: FullXid, oldest: Xid) returns (v: Violation)
      modifies this`nextFxid, this`oldestFxid
      ensures xid == 0 ==> v == Invalid
      ensures xid == 1 || xid == 2 ==> v == BoundsOk
      ensures xid < FIRST_NORMAL ==> unchanged(this)
      ensures Normal(xid) ==>
                v == Judge(Widen(xid, nextFxid), oldestFxid, nextFxid, relfrozenFxid)
      ensures Normal(xid) ==>
                var fxid := Widen(xid, nextFxid);
                && (v == InFuture <==> fxid >= nextFxid)
                && (v == PrecedesClusterMin <==> fxid < nextFxid && fxid < oldestFxid)
                && (v == PrecedesRelMin <==> oldestFxid <= fxid < nextFxid && fxid < relfrozenFxid)
                && (v == BoundsOk <==> oldestFxid <= fxid < nextFxid && relfrozenFxid <= fxid)
      ensures Normal(xid) ==>
                if old(oldestFxid) <= Widen(xid, old(nextFxid)) < old(nextFxid) then unchanged(this)
                else nextFxid == next && oldestFxid == Widen(oldest, next)
    {
      if xid == 0 { return Invalid; }
      if xid == 1 || xid == 2 { return BoundsOk; }
      var fxid := Widen(xid, nextFxid);
      if !(oldestFxid <= fxid < nextFxid) {
        UpdateCachedXidRange(next, oldest);
        fxid := Widen(xid, nextFxid);
      }
      if nextFxid <= fxid { return InFuture; }
      if fxid < oldestFxid { return PrecedesClusterMin; }
      if fxid < relfrozenFxid { return PrecedesRelMin; }
      return BoundsOk;
    }

    /** get_xid_status when the status is asked for; `oldestClog` is the shared horizon of the commit log, before which
        all is committed.  The status of a normal id is one that was looked up for it, now or before, and it stays
        so. */
    method GetXidStatus(xid: Xid, next: FullXid, oldest: Xid, oldestClog: Xid, a: Answers)
      returns (v: Violation, status: Option<Status>)
      requires Remembers()
      modifies this
      ensures Remembers() && old(seen) <= seen
      ensures status.Some? <==> v == BoundsOk
      ensures xid == 0 ==> v == Invalid
      ensures xid == 1 || xid == 2 ==> v == BoundsOk && status == Some(Committed)
      ensures Normal(xid) ==> v == Judge(Widen(xid, nextFxid), oldestFxid, nextFxid, relfrozenFxid)
      ensures Normal(xid) && v == BoundsOk ==> (xid, status.value) in seen && cachedXid == xid
      ensures Normal(xid) && v == BoundsOk && old(cachedXid) == xid ==>
                status == Some(old(cachedStatus)) && seen == old(seen)
      ensures Normal(xid) && v == BoundsOk && old(cachedXid) != xid ==>
                var before := Widen(xid, nextFxid) < Widen(oldestClog, nextFxid);
                && (status.value == Aborted <==> !before && !a.current && !a.inProgress && !a.committed)
                && (status.value == IsCurrent <==> !before && a.current)
                && (status.value == InProgress <==> !before && !a.current && a.inProgress)
                && (status.value == Committed <==> before || (!a.current && !a.inProgress && a.committed))
                && seen == old(seen) + {(xid, status.value)}
      ensures !(Normal(xid) && v == BoundsOk) ==> seen == old(seen) && cachedXid == old(cachedXid)
    {
      v := GetXidBounds(xid, next, oldest);
      if v != BoundsOk { return v, None; }
      if xid < FIRST_NORMAL { return v, Some(Committed); }
      if xid == cachedXid { return v, Some(cachedStatus); }
      var result := Committed;
      if Widen(oldestClog, nextFxid) <= Widen(xid, nextFxid) {
        if a.current {
          result := IsCurrent;
        } else if a.inProgress {
          result := InProgress;
        } else if !a.committed {
          result := Aborted;
        }
      }
      cachedXid, cachedStatus := xid, result;
      seen := seen + {(xid, result)};
      return v, Some(result);
    }
  }

  /** The range the checker uses after a call: the cached one if the id is in it, else the current one. */
  ghost function UsedNext(xid: Xid, cachedOldest: FullXid, cachedNext: FullXid, next: FullXid): FullXid {
    if cachedOldest <= Widen(xid, cachedNext) < cachedNext then cachedNext else next
  }

  ghost function UsedOldest(xid: Xid, cachedOldest: FullXid, cachedNext: FullXid, oldest: FullXid): FullXid {
    if cachedOldest <= Widen(xid, cachedNext) < cachedNext then cachedOldest else oldest
  }

  /** A stale cache does no harm: an id that is valid now is widened to itself and blamed only for being
      older than the relation's own horizon, as long as the cache is less than 2^31 ids old. */
  lemma StaleCacheHarmless(fxid: FullXid, cachedOldest: FullXid, cachedNext: FullXid, oldest: FullXid,
                           next: FullXid, relfrozen: FullXid)
    requires Normal(Low(fxid)) && oldest <= fxid < next < oldest + TWO_31
    requires cachedOldest <= oldest && cachedNext <= next <= cachedNext + TWO_31
    requires cachedNext < cachedOldest + TWO_31
    ensures var n := UsedNext(Low(fxid), cachedOldest, cachedNext, next);
            var o := UsedOldest(Low(fxid), cachedOldest, cachedNext, oldest);
            && Widen(Low(fxid), n) == fxid
            && Judge(Widen(Low(fxid), n), o, n, relfrozen) == if fxid < relfrozen then PrecedesRelMin else BoundsOk
  {
    WidenRoundTrip(fxid, cachedNext);
    WidenRoundTrip(fxid, next);
  }
}
