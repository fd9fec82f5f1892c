/** What holds of every run of the concurrent Bloom index, whatever the schedule: tuples are conserved,
    reuse of a page loses none, and a scan finds what was there when it began and was not deleted before
    its page was read. */
module BloomRuns {
  import opened BloomSign
  import opened BloomPages
  import opened BloomIndex
  import opened BloomScan
  import opened BloomProtocol

  // ---------------------------------------------------------------- what one step does to the pages

  /** How a step changes the tuples: not at all, by the success of an insertion, or by the section of
      bulk delete that works on block `b`. */
  datatype Effect = Unchanged | Stored(t: BloomTuple) | Dropped(b: nat, dead: set<nat>)

  ghost function EffectOf(s: System, s': System, a: Action): Effect {
    if a.Advance? && a.p in s.procs && a.p in s'.procs then
      var c := s.procs[a.p];
      if c.Delete? && c.blk < c.npages && c.blk !in s.locks then Dropped(c.blk, c.dead)
      else if !c.Inserted? && s'.procs[a.p].Inserted? then Stored(s'.procs[a.p].t)
      else Unchanged
    else Unchanged
  }

  /** The pages differ in one block, which gained `t`. */
  ghost predicate Gains(pages: seq<Page>, pages': seq<Page>, t: BloomTuple) {
    |pages'| == |pages| &&
    exists b | 0 <= b < |pages| :: pages' == pages[b := pages'[b]] && Live(pages'[b]) == Live(pages[b]) + [t]
  }

  lemma InsertEffect(opts: Options, s: System, p: nat, pick: nat)
    requires Inv(opts, s) && p in s.procs
    requires !s.procs[p].Scan? && !s.procs[p].Delete? && !s.procs[p].Clean?
    ensures var s' := InsertStep(opts, s, p, pick);
            && p in s'.procs
            && (!s.procs[p].Inserted? && s'.procs[p].Inserted? ==> Gains(s.pages, s'.pages, s'.procs[p].t))
            && (s.procs[p].Inserted? || !s'.procs[p].Inserted? ==>
                  s'.pages == s.pages || s'.pages == s.pages + [NewPage])
  {
    ProcFacts(s, p);
    var s' := InsertStep(opts, s, p, pick);
    var c := s.procs[p];
    if c.InsertFirst? {
      assert s'.procs[p].Inserted? ==> s'.pages == s.pages[c.blk := s'.pages[c.blk]];
    } else if c.InsertLoop? && c.n < s.nEnd {
      assert s'.procs[p].Inserted? ==> s'.pages == s.pages[s.notFull[c.n] := s'.pages[s.notFull[c.n]]];
    } else if c.InsertGot? {
      assert s'.procs[p].Inserted? ==> s'.pages == s.pages[c.blk := s'.pages[c.blk]];
    }
  }

  ghost predicate HasEffect(pages: seq<Page>, pages': seq<Page>, e: Effect) {
    match e
    case Unchanged => pages' == pages || pages' == pages + [NewPage]
    case Stored(t) => Gains(pages, pages', t)
    case Dropped(b, dead) => b < |pages| && pages' == pages[b := Vacuumed(pages[b], dead)]
  }

  /** Pages change in three ways only: a successful insertion adds its tuple to one block, bulk delete
      drops dead tuples from one block, and the file grows by a new page. */
  lemma StepEffect(opts: Options, s: System, a: Action)
    requires Inv(opts, s)
    ensures HasEffect(s.pages, Step(opts, s, a).pages, EffectOf(s, Step(opts, s, a), a))
  {
    hide InsertStep, Vacuumed, PagesInv, MetaInv, LocksInv, Gains, Found;
    if a.Advance? && a.p in s.procs {
      ProcFacts(s, a.p);
      if !s.procs[a.p].Scan? && !s.procs[a.p].Delete? && !s.procs[a.p].Clean? {
        InsertEffect(opts, s, a.p, a.pick);
      }
    }
  }

  /** A step changes no backend but its own, and a finished one not at all. */
  lemma StepSelf(opts: Options, s: System, a: Action, q: nat)
    requires Inv(opts, s) && (q != a.p || (q in s.procs && s.procs[q].Finished()))
    ensures var s' := Step(opts, s, a);
            (q in s'.procs <==> q in s.procs) && (q in s.procs ==> s'.procs[q] == s.procs[q])
  {
    hide PagesInv, MetaInv, LocksInv, InsertStep, Found, Vacuumed, HasRoom, Reusable;
    if a.Advance? && a.p in s.procs {
      ProcFacts(s, a.p);
      if !s.procs[a.p].Scan? && !s.procs[a.p].Delete? && !s.procs[a.p].Clean? {
        InsertSelf(opts, s, a.p, a.pick, q);
      }
    }
  }

  lemma InsertSelf(opts: Options, s: System, p: nat, pick: nat, q: nat)
    requires Inv(opts, s) && p in s.procs && (q != p || s.procs[q].Finished())
    ensures var s' := InsertStep(opts, s, p, pick);
            (q in s'.procs <==> q in s.procs) && (q in s.procs ==> s'.procs[q] == s.procs[q])
  {
    hide LocksInv, AddItem, Ready, Reusable;
  }

  // ---------------------------------------------------------------- tuples

  /** A live tuple stays on its block unless bulk delete drops it there: no reuse of a page loses one. */
  lemma EffectKeeps(opts: Options, pages: seq<Page>, pages': seq<Page>, e: Effect, b: nat, t: BloomTuple)
    requires HasEffect(pages, pages', e) && b < |pages| && t in Live(pages[b])
    ensures b < |pages'|
    ensures t in Live(pages'[b]) || (e.Dropped? && e.b == b && t.heapPtr in e.dead)
  {
    if e.Dropped? && e.b == b { KeptCount(pages[b].tuples, e.dead, t); }
  }

  ghost function Count(s: System, t: BloomTuple): nat { Occurs(AllTuples(s.pages), t) }

  /** The copies of `t` the step drops, and the one it adds. */
  ghost function DroppedCopies(pages: seq<Page>, e: Effect, t: BloomTuple): nat {
    if e.Dropped? && e.b < |pages| && t.heapPtr in e.dead then Occurs(Live(pages[e.b]), t) else 0
  }

  ghost function AddedCopies(e: Effect, t: BloomTuple): nat { if e == Stored(t) then 1 else 0 }

  lemma EffectCounts(pages: seq<Page>, pages': seq<Page>, e: Effect, t: BloomTuple)
    requires HasEffect(pages, pages', e)
    requires forall b | 0 <= b < |pages| :: pages[b].DataPage? && pages[b].deleted ==> pages[b].tuples == []
    ensures Occurs(AllTuples(pages'), t) + DroppedCopies(pages, e, t) ==
              Occurs(AllTuples(pages), t) + AddedCopies(e, t)
  {
    hide AllTuples, Occurs, Vacuumed, Live;
    match e
    case Unchanged =>
      ExtendPages(pages, NewPage);
      NoTuples();
      assert AllTuples(pages) + [] == AllTuples(pages);
    case Stored(x) =>
      var b :| 0 <= b < |pages| && pages' == pages[b := pages'[b]] && Live(pages'[b]) == Live(pages[b]) + [x];
      UpdatePage(pages, b, pages'[b], t);
      OccursConcat(Live(pages[b]), [x], t);
      OccursSingle(x, t);
    case Dropped(b, dead) =>
      UpdatePage(pages, b, pages'[b], t);
      VacuumedCounts(pages[b], dead, t);
  }

  lemma NoTuples()
    ensures Live(NewPage) == []
  {
  }

  lemma OccursSingle(x: BloomTuple, t: BloomTuple)
    ensures Occurs([x], t) == if x == t then 1 else 0
  {
  }

  lemma VacuumedCounts(p: Page, dead: set<nat>, t: BloomTuple)
    requires p.DataPage? && p.deleted ==> p.tuples == []
    ensures Occurs(Live(Vacuumed(p, dead)), t) == if t.heapPtr in dead then 0 else Occurs(Live(p), t)
  {
    KeptCount(Live(p), dead, t);
  }

  // ---------------------------------------------------------------- runs

  /** The state after a schedule. */
  ghost function After(opts: Options, s: System, sched: seq<Action>): (r: System)
    requires Inv(opts, s)
    ensures Inv(opts, r)
  {
    if sched == [] then s
    else
      var n := |sched| - 1;
      var before := After(opts, s, sched[..n]);
      StepOk(opts, before, sched[n]);
      Step(opts, before, sched[n])
  }

  /** The backends whose insertion of `t` has succeeded. */
  ghost function Inserters(s: System, t: BloomTuple): set<nat> {
    set p | p in s.procs && s.procs[p] == Inserted(t)
  }

  /** The copies of `t` bulk deletes have dropped, each with its heap pointer among the dead. */
  ghost function TotalDropped(opts: Options, s: System, sched: seq<Action>, t: BloomTuple): nat
    requires Inv(opts, s)
  {
    if sched == [] then 0
    else
      var n := |sched| - 1;
      var before := After(opts, s, sched[..n]);
      var e := EffectOf(before, Step(opts, before, sched[n]), sched[n]);
      TotalDropped(opts, s, sched[..n], t) + DroppedCopies(before.pages, e, t)
  }

  lemma InsertersStep(opts: Options, s: System, a: Action, t: BloomTuple)
    requires Inv(opts, s)
    ensures var s' := Step(opts, s, a);
            |Inserters(s', t)| == |Inserters(s, t)| + AddedCopies(EffectOf(s, s', a), t)
  {
    hide Inv, Step;
    var s' := Step(opts, s, a);
    forall q: nat ensures q != a.p ==> (q in Inserters(s', t) <==> q in Inserters(s, t)) {
      if q != a.p { StepSelf(opts, s, a, q); }
    }
    if a.p in s.procs && s.procs[a.p].Finished() { StepSelf(opts, s, a, a.p); }
    NotStored(opts, s, a);
    if EffectOf(s, s', a) == Stored(t) {
      assert Inserters(s', t) == Inserters(s, t) + {a.p};
    } else {
      assert Inserters(s', t) == Inserters(s, t);
    }
  }

  /** Only an advancing insertion becomes an inserter. */
  lemma NotStored(opts: Options, s: System, a: Action)
    requires Inv(opts, s)
    ensures var s' := Step(opts, s, a);
            a.p in s'.procs && s'.procs[a.p].Inserted? ==>
              a.p in s.procs && (s.procs[a.p] == s'.procs[a.p] || EffectOf(s, s', a) == Stored(s'.procs[a.p].t))
  {
    hide PagesInv, MetaInv, LocksInv, InsertStep, Found, Vacuumed, HasRoom, Reusable;
    if a.p in s.procs && s.procs[a.p].Finished() { StepSelf(opts, s, a, a.p); }
  }

  /** Conservation over every run: the copies of a tuple on the pages are those there at the start, plus
      one for each insertion of it that succeeded, less those bulk deletes dropped. */
  lemma {:induction false} Conservation(opts: Options, s: System, sched: seq<Action>, t: BloomTuple)
    requires Inv(opts, s)
    ensures var r := After(opts, s, sched);
            Count(r, t) + TotalDropped(opts, s, sched, t) + |Inserters(s, t)| == Count(s, t) + |Inserters(r, t)|
  {
    hide Inv, Step, EffectOf, AllTuples, Occurs, Inserters;
    if sched != [] {
      var n := |sched| - 1;
      Conservation(opts, s, sched[..n], t);
      var before := After(opts, s, sched[..n]);
      StepEffect(opts, before, sched[n]);
      InsertersStep(opts, before, sched[n], t);
      DeletedEmpty(opts, before);
      EffectCounts(before.pages, Step(opts, before, sched[n]).pages,
                   EffectOf(before, Step(opts, before, sched[n]), sched[n]), t);
    }
  }

  lemma DeletedEmpty(opts: Options, s: System)
    requires Inv(opts, s)
    ensures forall b | 0 <= b < |s.pages| :: s.pages[b].DataPage? && s.pages[b].deleted ==> s.pages[b].tuples == []
  {
  }

  // ---------------------------------------------------------------- scans

  /** Action `i` of the schedule begins the scan of backend `p`. */
  ghost predicate Begins(opts: Options, s: System, sched: seq<Action>, i: nat, p: nat, bits: set<nat>)
    requires Inv(opts, s)
  {
    i < |sched| && sched[i] == StartScan(p, bits) && p !in After(opts, s, sched[..i]).procs
  }

  /** Action `m` is a bulk delete's section on block `b`, with `ptr` among the dead, at a time when the
      scan of `p` has not yet read that block. */
  ghost predicate DroppedUnread(opts: Options, s: System, sched: seq<Action>, m: nat, p: nat, b: nat, ptr: nat)
    requires Inv(opts, s) && m < |sched|
  {
    var before := After(opts, s, sched[..m]);
    Drops(EffectOf(before, Step(opts, before, sched[m]), sched[m]), b, ptr) && Unread(before, p, b)
  }

  /** The scan has found the pointer, or may still find the tuple, or `missed` holds. */
  ghost predicate Tracks(r: System, p: nat, bits: set<nat>, b: nat, t: BloomTuple, missed: bool) {
    && p in r.procs
    && match r.procs[p]
       case Scan(bits', npages, blk, tbm) =>
         && bits' == bits && b < npages <= |r.pages|
         && (missed || if b < blk then t.heapPtr in tbm else t in Live(r.pages[b]))
       case Scanned(tbm) => missed || t.heapPtr in tbm
       case Aborted => true
       case _ => false
  }

  ghost predicate Unread(r: System, p: nat, b: nat) { p in r.procs && r.procs[p].Scan? && r.procs[p].blk <= b }

  ghost predicate Drops(e: Effect, b: nat, ptr: nat) { e.Dropped? && e.b == b && ptr in e.dead }

  /** One step of any backend keeps a scan on track, except when it deletes the tuple unread. */
  lemma TracksStep(opts: Options, s: System, a: Action, p: nat, bits: set<nat>, b: nat, t: BloomTuple, missed: bool)
    requires Inv(opts, s) && bits <= Bits(t.sign) && 1 <= b && Tracks(s, p, bits, b, t, missed)
    ensures var s' := Step(opts, s, a);
            var drops := Drops(EffectOf(s, s', a), b, t.heapPtr) && Unread(s, p, b);
            Tracks(s', p, bits, b, t, missed || drops)
  {
    hide Inv, Step, EffectOf, Found, Bits, Live, HasEffect;
    var s' := Step(opts, s, a);
    if a.p == p && s.procs[p].Scan? {
      OwnStep(opts, s, a, bits, b, t, missed);
    } else {
      StepSelf(opts, s, a, p);
      StepEffect(opts, s, a);
      if s.procs[p].Scan? { FileGrows(s.pages, s'.pages, EffectOf(s, s', a)); }
      if s.procs[p].Scan? && t in Live(s.pages[b]) {
        EffectKeeps(opts, s.pages, s'.pages, EffectOf(s, s', a), b, t);
      }
    }
  }

  lemma FileGrows(pages: seq<Page>, pages': seq<Page>, e: Effect)
    requires HasEffect(pages, pages', e)
    ensures |pages| <= |pages'|
  {
  }

  /** The scan's own step reads the whole of one block. */
  lemma OwnStep(opts: Options, s: System, a: Action, bits: set<nat>, b: nat, t: BloomTuple, missed: bool)
    requires Inv(opts, s) && bits <= Bits(t.sign) && 1 <= b && Tracks(s, a.p, bits, b, t, missed)
    requires s.procs[a.p].Scan?
    ensures Tracks(Step(opts, s, a), a.p, bits, b, t, missed)
  {
    hide PagesInv, MetaInv, LocksInv, ProcsInv, Found, Bits, InsertStep;
    ProcFacts(s, a.p);
    FileStarts(opts, s);
    BlockOk(opts, s, b);
    FoundIff(Live(s.pages[b]), bits, t.heapPtr);
  }

  ghost predicate Missed(opts: Options, s: System, sched: seq<Action>, i: nat, p: nat, b: nat, ptr: nat)
    requires Inv(opts, s)
  {
    exists m | i < m < |sched| :: DroppedUnread(opts, s, sched, m, p, b, ptr)
  }

  /** A scan that ends has found every matching tuple that was on a page when it began, unless a bulk
      delete dropped the tuple before the scan read its page. */
  lemma {:induction false} ScanFinds(opts: Options, s: System, sched: seq<Action>, i: nat, p: nat, bits: set<nat>,
                                     b: nat, t: BloomTuple)
    requires Inv(opts, s) && Begins(opts, s, sched, i, p, bits) && bits <= Bits(t.sign)
    requires 1 <= b < |After(opts, s, sched[..i]).pages| && t in Live(After(opts, s, sched[..i]).pages[b])
    ensures Tracks(After(opts, s, sched), p, bits, b, t, Missed(opts, s, sched, i, p, b, t.heapPtr))
  {
    hide Inv, Step, Live, Bits, EffectOf, Tracks, Drops;
    var n := |sched| - 1;
    var before := After(opts, s, sched[..n]);
    if i == n {
      ScanStarts(opts, before, p, bits, b, t);
      TracksWeaker(Step(opts, before, sched[n]), p, bits, b, t, false, Missed(opts, s, sched, i, p, b, t.heapPtr));
    } else {
      assert sched[..n][..i] == sched[..i];
      ScanFinds(opts, s, sched[..n], i, p, bits, b, t);
      var missed := Missed(opts, s, sched[..n], i, p, b, t.heapPtr);
      TracksStep(opts, before, sched[n], p, bits, b, t, missed);
      var drops := Drops(EffectOf(before, Step(opts, before, sched[n]), sched[n]), b, t.heapPtr)
                   && Unread(before, p, b);
      if missed {
        var m :| i < m < n && DroppedUnread(opts, s, sched[..n], m, p, b, t.heapPtr);
        assert sched[..n][..m] == sched[..m];
        assert DroppedUnread(opts, s, sched, m, p, b, t.heapPtr);
      }
      if drops { assert DroppedUnread(opts, s, sched, n, p, b, t.heapPtr); }
      TracksWeaker(Step(opts, before, sched[n]), p, bits, b, t, missed || drops,
                   Missed(opts, s, sched, i, p, b, t.heapPtr));
    }
  }

  lemma TracksWeaker(r: System, p: nat, bits: set<nat>, b: nat, t: BloomTuple, x: bool, y: bool)
    requires Tracks(r, p, bits, b, t, x) && (x ==> y)
    ensures Tracks(r, p, bits, b, t, y)
  {
  }

  lemma ScanStarts(opts: Options, s: System, p: nat, bits: set<nat>, b: nat, t: BloomTuple)
    requires Inv(opts, s) && p !in s.procs && 1 <= b < |s.pages| && t in Live(s.pages[b])
    ensures Tracks(Step(opts, s, StartScan(p, bits)), p, bits, b, t, false)
  {
  }

  // ---------------------------------------------------------------- a scan reports nothing else

  /** Some page held, just before action `m`, a tuple with this pointer whose signature matches. */
  ghost predicate LiveAt(opts: Options, s: System, sched: seq<Action>, m: nat, bits: set<nat>, ptr: nat)
    requires Inv(opts, s) && m <= |sched|
  {
    exists b, t | 0 <= b < |After(opts, s, sched[..m]).pages| ::
      t in Live(After(opts, s, sched[..m]).pages[b]) && t.heapPtr == ptr && bits <= Bits(t.sign)
  }

  ghost function Bitmap(r: System, p: nat): set<nat> {
    if p in r.procs && (r.procs[p].Scan? || r.procs[p].Scanned?) then r.procs[p].tbm else {}
  }

  ghost predicate StillScan(r: System, p: nat, bits: set<nat>) {
    p in r.procs && (r.procs[p].Scan? ==> r.procs[p].bits == bits) &&
    (r.procs[p].Scan? || r.procs[p].Scanned? || r.procs[p].Aborted?)
  }

  lemma BitmapStep(opts: Options, s: System, a: Action, p: nat, bits: set<nat>, ptr: nat)
    requires Inv(opts, s) && StillScan(s, p, bits)
    ensures StillScan(Step(opts, s, a), p, bits)
    ensures ptr in Bitmap(Step(opts, s, a), p) && ptr !in Bitmap(s, p) ==>
              exists b, t | 0 <= b < |s.pages| ::
                t in Live(s.pages[b]) && t.heapPtr == ptr && bits <= Bits(t.sign)
  {
    hide PagesInv, MetaInv, LocksInv, ProcsInv, Found, Bits, InsertStep;
    if a.p != p || s.procs[p].Finished() {
      StepSelf(opts, s, a, p);
    } else {
      ProcFacts(s, p);
      var c := s.procs[p];
      if c.blk < c.npages { FoundIff(Live(s.pages[c.blk]), bits, ptr); }
    }
  }

  lemma BitmapStarts(opts: Options, s: System, p: nat, bits: set<nat>)
    requires Inv(opts, s) && p !in s.procs
    ensures StillScan(Step(opts, s, StartScan(p, bits)), p, bits) && Bitmap(Step(opts, s, StartScan(p, bits)), p) == {}
  {
  }

  /** Every pointer a scan reports belonged to a matching tuple on some page at some time during the scan. */
  lemma {:induction false} ScanSound(opts: Options, s: System, sched: seq<Action>, i: nat, p: nat, bits: set<nat>,
                                     ptr: nat)
    requires Inv(opts, s) && Begins(opts, s, sched, i, p, bits)
    ensures StillScan(After(opts, s, sched), p, bits)
    ensures ptr in Bitmap(After(opts, s, sched), p) ==>
              exists m | i < m < |sched| :: LiveAt(opts, s, sched, m, bits, ptr)
  {
    hide Inv, Step, Live, Bits, Bitmap, StillScan;
    var n := |sched| - 1;
    var before := After(opts, s, sched[..n]);
    if i == n {
      BitmapStarts(opts, before, p, bits);
    } else {
      assert sched[..n][..i] == sched[..i];
      ScanSound(opts, s, sched[..n], i, p, bits, ptr);
      BitmapStep(opts, before, sched[n], p, bits, ptr);
      if ptr in Bitmap(before, p) {
        var m :| i < m < n && LiveAt(opts, s, sched[..n], m, bits, ptr);
        assert sched[..n][..m] == sched[..m];
        assert LiveAt(opts, s, sched, m, bits, ptr);
      } else if ptr in Bitmap(After(opts, s, sched), p) {
        assert LiveAt(opts, s, sched, n, bits, ptr);
      }
    }
  }

  // ---------------------------------------------------------------- no deadlock

  /** A backend that holds the metapage is never made to wait. */
  lemma HolderMoves(opts: Options, s: System, q: nat)
    requires Inv(opts, s) && q in s.procs && s.procs[q].Holds(0)
    ensures Step(opts, s, Advance(q, 0)).procs[q] != s.procs[q]
  {
    hide PagesInv, Reusable;
    FileStarts(opts, s);
    var c := s.procs[q];
    assert ProcOk(s, q, c);
    if c.InsertLoop? && c.n < s.nEnd {
      var blk := s.notFull[c.n];
      BlockKind(opts, s, blk);
    }
  }

  /** While some operation is unfinished, some backend can go on. */
  lemma NeverStuck(opts: Options, s: System, p: nat)
    requires Inv(opts, s) && p in s.procs && !s.procs[p].Finished()
    ensures exists q | q in s.procs :: Step(opts, s, Advance(q, 0)).procs != s.procs
  {
    hide PagesInv, Reusable, TryBlock, Found, Vacuumed, HasRoom;
    ProcFacts(s, p);
    if Step(opts, s, Advance(p, 0)).procs == s.procs {
      Waits(opts, s, p);
      var b :| b in s.locks;
      var q := s.locks[b];
      ProcFacts(s, q);
      HolderMoves(opts, s, q);
      assert Step(opts, s, Advance(q, 0)).procs != s.procs;
    }
  }

  lemma Waits(opts: Options, s: System, p: nat)
    requires Inv(opts, s) && p in s.procs && !s.procs[p].Finished()
    requires Step(opts, s, Advance(p, 0)).procs == s.procs
    ensures s.locks != map[]
  {
    ProcFacts(s, p);
    if s.procs[p].Holds(0) { HolderMoves(opts, s, p); }
  }
}
