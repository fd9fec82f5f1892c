/** Concurrent Bloom index operations as a state machine whose steps are the sections between buffer-lock
    acquisitions and releases (contrib/bloom/blinsert.c, blscan.c, blvacuum.c, blutils.c).  A section that
    holds the lock of one data page only is one step; the exclusive lock an insertion keeps on the
    metapage, and on a page it is about to initialise, is part of the state. */
module BloomProtocol {
  import opened Wrappers
  import opened Sequences
  import opened BloomSign
  import opened BloomPages
  import opened BloomIndex
  import opened BloomScan

  /** Where one backend is.  A backend runs one operation. */
  datatype Proc =
    | InsertStart(t: BloomTuple)
    | InsertFirst(t: BloomTuple, blk: nat)
    | InsertWait(t: BloomTuple, tried: Option<nat>)
    | InsertLoop(t: BloomTuple, n: nat)
    | InsertNew(t: BloomTuple)
    | InsertGot(t: BloomTuple, blk: nat)
    | Inserted(t: BloomTuple)
    | Scan(bits: set<nat>, npages: nat, blk: nat, tbm: set<nat>)
    | Scanned(tbm: set<nat>)
    | Delete(dead: set<nat>, npages: nat, blk: nat, notFull: seq<nat>)
    | Deleted
    | Clean(npages: nat, blk: nat)
    | Cleaned
    | Aborted
  {
    predicate Finished() { Inserted? || Scanned? || Deleted? || Cleaned? || Aborted? }

    /** The exclusive locks kept between steps. */
    predicate Holds(b: nat) {
      || (b == 0 && (InsertLoop? || InsertNew? || InsertGot?))
      || (InsertGot? && blk == b)
    }
  }

  datatype System = System(pages: seq<Page>, nStart: nat, nEnd: nat, notFull: seq<nat>, fsm: set<nat>,
                           locks: map<nat, nat>, procs: map<nat, Proc>)
  {
    function At(p: nat, proc: Proc): System { this.(procs := procs[p := proc]) }

    function Unlock(p: nat): System { this.(locks := map b | b in locks && locks[b] != p :: locks[b]) }
  }

  datatype Action =
    | StartInsert(p: nat, t: BloomTuple)
    | StartScan(p: nat, bits: set<nat>)
    | StartDelete(p: nat, dead: set<nat>)
    | StartClean(p: nat)
    | Advance(p: nat, pick: nat)
    | Abort(p: nat)

  // ---------------------------------------------------------------- steps

  /** One attempt to put the tuple on a block, and what follows when it does not fit. */
  ghost function TryBlock(opts: Options, s: System, p: nat, t: BloomTuple, blk: nat, stored: System, full: Proc): System
    requires blk < |s.pages| == |stored.pages| && !s.pages[blk].MetaPage?
  {
    var r := AddItem(opts, Ready(s.pages[blk]), t);
    if blk in s.locks then s
    else if r.None? then s.At(p, full)
    else stored.(pages := stored.pages[blk := r.value]).Unlock(p).At(p, Inserted(t))
  }

  ghost function InsertStep(opts: Options, s: System, p: nat, pick: nat): System
    requires Inv(opts, s) && p in s.procs
  {
    match s.procs[p]
    case InsertStart(t) =>
      if 0 in s.locks then s
      else s.At(p, if s.nEnd > s.nStart then InsertFirst(t, s.notFull[s.nStart]) else InsertWait(t, None))
    case InsertFirst(t, blk) => TryBlock(opts, s, p, t, blk, s, InsertWait(t, Some(blk)))
    case InsertWait(t, tried) =>
      if 0 in s.locks then s
      else
        var skip := s.nStart < s.nEnd && tried == Some(s.notFull[s.nStart]);
        s.(locks := s.locks[0 := p]).At(p, InsertLoop(t, if skip then s.nStart + 1 else s.nStart))
    case InsertLoop(t, n) =>
      if n >= s.nEnd then s.At(p, InsertNew(t))
      else TryBlock(opts, s, p, t, s.notFull[n], s.(nStart := n), InsertLoop(t, n + 1))
    case InsertNew(t) => NewBufferStep(s, p, t, pick)
    case InsertGot(t, blk) =>
      var r := AddItem(opts, EMPTY_PAGE, t);
      if r.None? then s.Unlock(p).At(p, Aborted)
      else
        s.(pages := s.pages[blk := r.value], nStart := 0, nEnd := 1, notFull := s.notFull[0 := blk])
         .Unlock(p).At(p, Inserted(t))
    case _ => s
  }

  /** BloomNewBuffer: try the block the free space map offers, or extend the file when it offers none. */
  ghost function NewBufferStep(s: System, p: nat, t: BloomTuple, pick: nat): System {
    if pick in s.fsm then
      var rest := s.(fsm := s.fsm - {pick});
      if pick < |s.pages| && pick !in s.locks && Reusable(s.pages[pick])
      then rest.(locks := s.locks[pick := p]).At(p, InsertGot(t, pick))
      else rest
    else
      s.(pages := s.pages + [NewPage], locks := s.locks[|s.pages| := p]).At(p, InsertGot(t, |s.pages|))
  }

  ghost function ScanStep(s: System, p: nat): System
    requires p in s.procs && s.procs[p].Scan? && s.procs[p].npages <= |s.pages|
  {
    var c := s.procs[p];
    if c.blk >= c.npages then s.At(p, Scanned(c.tbm))
    else if c.blk in s.locks then s
    else
      var page := s.pages[c.blk];
      var hits := if Reusable(page) then [] else Found(Live(page), c.bits);
      s.At(p, Scan(c.bits, c.npages, c.blk + 1, c.tbm + Elements(hits)))
  }

  ghost function DeleteStep(opts: Options, s: System, p: nat): System
    requires p in s.procs && s.procs[p].Delete? && s.procs[p].npages <= |s.pages|
    requires |s.procs[p].notFull| <= |s.notFull|
  {
    var c := s.procs[p];
    if c.blk >= c.npages then
      if 0 in s.locks then s
      else
        s.(nStart := 0, nEnd := |c.notFull|, notFull := c.notFull + s.notFull[|c.notFull|..]).At(p, Deleted)
    else if c.blk in s.locks then s
    else
      var page := Vacuumed(s.pages[c.blk], c.dead);
      var listed := !Reusable(page) && HasRoom(opts, page) && |c.notFull| < META_BLOCK_N;
      s.(pages := s.pages[c.blk := page])
       .At(p, Delete(c.dead, c.npages, c.blk + 1, if listed then c.notFull + [c.blk] else c.notFull))
  }

  ghost function CleanStep(s: System, p: nat): System
    requires p in s.procs && s.procs[p].Clean? && s.procs[p].npages <= |s.pages|
  {
    var c := s.procs[p];
    if c.blk >= c.npages then s.At(p, Cleaned)
    else if c.blk in s.locks then s
    else
      s.(fsm := if Reusable(s.pages[c.blk]) then s.fsm + {c.blk} else s.fsm)
       .At(p, Clean(c.npages, c.blk + 1))
  }

  /** One scheduled action; an action that is not enabled changes nothing.  An aborting backend releases
      its locks and leaves the pages as they are: a page it extended the file by stays new. */
  ghost function Step(opts: Options, s: System, a: Action): System
    requires Inv(opts, s)
  {
    match a
    case StartInsert(p, t) => if p in s.procs then s else s.At(p, InsertStart(t))
    case StartScan(p, bits) => if p in s.procs then s else s.At(p, Scan(bits, |s.pages|, 1, {}))
    case StartDelete(p, dead) => if p in s.procs then s else s.At(p, Delete(dead, |s.pages|, 1, []))
    case StartClean(p) => if p in s.procs then s else s.At(p, Clean(|s.pages|, 1))
    case Abort(p) => if p !in s.procs || s.procs[p].Finished() then s else s.Unlock(p).At(p, Aborted)
    case Advance(p, pick) =>
      if p !in s.procs then s
      else if s.procs[p].Scan? then ScanStep(s, p)
      else if s.procs[p].Delete? then DeleteStep(opts, s, p)
      else if s.procs[p].Clean? then CleanStep(s, p)
      else InsertStep(opts, s, p, pick)
  }

  // ---------------------------------------------------------------- the invariant

  ghost predicate InFile(s: System, blk: nat) { 1 <= blk < |s.pages| }

  ghost predicate PagesInv(opts: Options, pages: seq<Page>) {
    opts.Ok() && |pages| > 0 && pages[0].MetaPage? && BlocksOk(opts, pages)
  }

  ghost predicate MetaInv(s: System) {
    && s.nStart <= s.nEnd <= META_BLOCK_N == |s.notFull|
    && (forall k | 0 <= k < s.nEnd :: InFile(s, s.notFull[k]))
    && (forall b | b in s.fsm :: InFile(s, b))
  }

  /** A lock is held by a backend that is where it holds it. */
  ghost predicate LocksInv(s: System) {
    forall b | b in s.locks :: s.locks[b] in s.procs && s.procs[s.locks[b]].Holds(b)
  }

  ghost predicate Owns(s: System, p: nat, b: nat) { b in s.locks && s.locks[b] == p }

  ghost predicate ProcOk(s: System, p: nat, c: Proc) {
    match c
    case InsertFirst(_, blk) => InFile(s, blk)
    case InsertLoop(_, n) => Owns(s, p, 0) && n <= s.nEnd
    case InsertNew(_) => Owns(s, p, 0)
    case InsertGot(_, blk) => Owns(s, p, 0) && Owns(s, p, blk) && InFile(s, blk) && Reusable(s.pages[blk])
    case Scan(_, npages, blk, _) => 1 <= blk <= npages <= |s.pages|
    case Delete(_, npages, blk, notFull) =>
      && 1 <= blk <= npages <= |s.pages| && |notFull| <= META_BLOCK_N
      && forall k | 0 <= k < |notFull| :: InFile(s, notFull[k])
    case Clean(npages, blk) => 1 <= blk <= npages <= |s.pages|
    case _ => true
  }

  ghost predicate ProcsInv(s: System) { forall p | p in s.procs :: ProcOk(s, p, s.procs[p]) }

  ghost predicate Inv(opts: Options, s: System) {
    PagesInv(opts, s.pages) && MetaInv(s) && LocksInv(s) && ProcsInv(s)
  }

  /** The system as an index stands while no backend is at work. */
  ghost function AtRest(index: BloomIndex): System
    reads index, index.notFullPage
  {
    System(index.pages, index.nStart, index.nEnd, index.notFullPage[..], index.fsm, map[], map[])
  }

  /** Whatever the operations on a single index leave behind is a state to start from. */
  lemma AtRestOk(index: BloomIndex)
    requires index.Valid()
    ensures Inv(index.state.opts, AtRest(index))
  {
    hide BlocksOk, Holds;
    var s := AtRest(index);
    assert forall k | 0 <= k < s.nEnd :: s.notFull[k] == index.notFullPage[k];
  }

  // Each step is a composition of the following changes, and each of them keeps the invariant.

  /** A backend goes on to a point where it holds the locks it has. */
  lemma Moves(opts: Options, s: System, p: nat, c: Proc)
    requires Inv(opts, s) && ProcOk(s, p, c)
    requires forall b: nat | Owns(s, p, b) :: c.Holds(b)
    ensures Inv(opts, s.At(p, c))
  {
    hide PagesInv, Reusable;
    var s' := s.At(p, c);
    forall q | q in s'.procs ensures ProcOk(s', q, s'.procs[q]) {
      if q != p { assert ProcOk(s, q, s.procs[q]); }
    }
    forall b | b in s'.locks ensures s'.locks[b] in s'.procs && s'.procs[s'.locks[b]].Holds(b) {
      assert Owns(s, s.locks[b], b);
    }
  }

  /** A backend finishes and releases all its locks. */
  lemma Releases(opts: Options, s: System, p: nat, c: Proc)
    requires Inv(opts, s) && c.Finished()
    ensures Inv(opts, s.Unlock(p).At(p, c))
  {
    hide PagesInv, Reusable, ProcOk;
    var s' := s.Unlock(p).At(p, c);
    forall q | q in s'.procs ensures ProcOk(s', q, s'.procs[q]) {
      if q != p { OthersKeep(s, p, q, c); } else { FinishedOk(s', p, c); }
    }
  }

  lemma OthersKeep(s: System, p: nat, q: nat, c: Proc)
    requires q in s.procs && q != p && ProcOk(s, q, s.procs[q])
    ensures ProcOk(s.Unlock(p).At(p, c), q, s.procs[q])
  {
    hide Reusable;
  }

  lemma FinishedOk(s: System, p: nat, c: Proc)
    requires c.Finished()
    ensures ProcOk(s, p, c)
  {
  }

  /** A backend takes a free lock. */
  lemma Acquires(opts: Options, s: System, p: nat, b: nat, c: Proc)
    requires Inv(opts, s) && b !in s.locks && ProcOk(s.(locks := s.locks[b := p]), p, c) && c.Holds(b)
    requires forall k: nat | Owns(s, p, k) :: c.Holds(k)
    ensures Inv(opts, s.(locks := s.locks[b := p]).At(p, c))
  {
    hide PagesInv, Reusable;
    var s' := s.(locks := s.locks[b := p]).At(p, c);
    forall q | q in s'.procs ensures ProcOk(s', q, s'.procs[q]) {
      if q != p { assert ProcOk(s, q, s.procs[q]); }
    }
    forall k | k in s'.locks ensures s'.locks[k] in s'.procs && s'.procs[s'.locks[k]].Holds(k) {
      if k != b { assert Owns(s, s.locks[k], k); }
    }
  }

  /** A page nobody has locked between steps is replaced. */
  lemma Writes(opts: Options, s: System, blk: nat, page: Page)
    requires Inv(opts, s) && blk !in s.locks && InFile(s, blk) && PageOk(opts, page)
    ensures Inv(opts, s.(pages := s.pages[blk := page]))
  {
    hide PageOk, Reusable;
    var s' := s.(pages := s.pages[blk := page]);
    forall q | q in s'.procs ensures ProcOk(s', q, s'.procs[q]) { assert ProcOk(s, q, s.procs[q]); }
  }

  lemma Extends(opts: Options, s: System)
    requires Inv(opts, s)
    ensures Inv(opts, s.(pages := s.pages + [NewPage])) && |s.pages| !in s.locks
  {
    hide Reusable;
    var s' := s.(pages := s.pages + [NewPage]);
    forall q | q in s'.procs ensures ProcOk(s', q, s'.procs[q]) { assert ProcOk(s, q, s.procs[q]); }
  }

  /** The metapage is rewritten while no other backend has it locked. */
  lemma SetsMeta(opts: Options, s: System, nStart: nat, nEnd: nat, notFull: seq<nat>)
    requires Inv(opts, s) && nStart <= nEnd <= META_BLOCK_N == |notFull|
    requires 0 !in s.locks || nEnd == s.nEnd
    requires forall k | 0 <= k < nEnd :: InFile(s, notFull[k])
    ensures Inv(opts, s.(nStart := nStart, nEnd := nEnd, notFull := notFull))
  {
    hide PagesInv, Reusable;
    var s' := s.(nStart := nStart, nEnd := nEnd, notFull := notFull);
    forall q | q in s'.procs ensures ProcOk(s', q, s'.procs[q]) { assert ProcOk(s, q, s.procs[q]); }
  }

  lemma SetsFsm(opts: Options, s: System, fsm: set<nat>)
    requires Inv(opts, s) && forall b | b in fsm :: InFile(s, b)
    ensures Inv(opts, s.(fsm := fsm))
  {
    hide PagesInv, Reusable;
    var s' := s.(fsm := fsm);
    forall q | q in s'.procs ensures ProcOk(s', q, s'.procs[q]) { assert ProcOk(s, q, s.procs[q]); }
  }

  /** An attempt to store keeps the invariant, whether or not the tuple fits. */
  lemma TryBlockOk(opts: Options, s: System, p: nat, t: BloomTuple, blk: nat, n: nat, full: Proc)
    requires Inv(opts, s) && p in s.procs && InFile(s, blk) && n <= s.nEnd && ProcOk(s, p, full)
    requires forall b: nat | Owns(s, p, b) :: full.Holds(b)
    ensures !s.pages[blk].MetaPage?
    ensures Inv(opts, TryBlock(opts, s, p, t, blk, s.(nStart := n), full))
  {
    hide MetaInv, LocksInv, ProcsInv, ProcOk, PageOk;
    BlockKind(opts, s, blk);
    var r := AddItem(opts, Ready(s.pages[blk]), t);
    if blk !in s.locks {
      if r.None? {
        Moves(opts, s, p, full);
      } else {
        Writes(opts, s, blk, r.value);
        var w := s.(pages := s.pages[blk := r.value]);
        MetaFacts(w);
        SetsMeta(opts, w, n, w.nEnd, w.notFull);
        Releases(opts, w.(nStart := n), p, Inserted(t));
      }
    }
  }

  lemma BlockKind(opts: Options, s: System, blk: nat)
    requires PagesInv(opts, s.pages) && InFile(s, blk)
    ensures !s.pages[blk].MetaPage?
  {
  }

  lemma MetaFacts(s: System)
    requires MetaInv(s)
    ensures s.nStart <= s.nEnd <= META_BLOCK_N == |s.notFull|
    ensures forall k | 0 <= k < s.nEnd :: InFile(s, s.notFull[k])
    ensures forall b | b in s.fsm :: InFile(s, b)
  {
  }

  lemma InsertStepOk(opts: Options, s: System, p: nat, pick: nat)
    requires Inv(opts, s) && p in s.procs
    ensures Inv(opts, InsertStep(opts, s, p, pick))
  {
    hide PagesInv, MetaInv, ProcsInv, Reusable;
    MetaFacts(s);
    ProcFacts(s, p);
    match s.procs[p]
    case InsertStart(t) =>
      if s.nEnd > s.nStart { Moves(opts, s, p, InsertFirst(t, s.notFull[s.nStart])); }
      else { Moves(opts, s, p, InsertWait(t, None)); }
    case InsertFirst(t, blk) => TryBlockOk(opts, s, p, t, blk, s.nStart, InsertWait(t, Some(blk)));
    case InsertWait(t, tried) =>
      if 0 !in s.locks {
        Acquires(opts, s, p, 0, InsertLoop(t, s.nStart));
        if s.nStart < s.nEnd { Acquires(opts, s, p, 0, InsertLoop(t, s.nStart + 1)); }
      }
    case InsertLoop(t, n) =>
      if n < s.nEnd { TryBlockOk(opts, s, p, t, s.notFull[n], n, InsertLoop(t, n + 1)); }
      else { Moves(opts, s, p, InsertNew(t)); }
    case InsertNew(t) => NewBufferStepOk(opts, s, p, t, pick);
    case InsertGot(t, blk) => WriteNewOk(opts, s, p);
    case _ =>
  }

  lemma ProcFacts(s: System, p: nat)
    requires ProcsInv(s) && p in s.procs
    ensures ProcOk(s, p, s.procs[p])
  {
  }

  lemma NewBufferStepOk(opts: Options, s: System, p: nat, t: BloomTuple, pick: nat)
    requires Inv(opts, s) && p in s.procs && s.procs[p] == InsertNew(t)
    ensures Inv(opts, NewBufferStep(s, p, t, pick))
  {
    hide PagesInv, MetaInv, ProcsInv;
    MetaFacts(s);
    ProcFacts(s, p);
    if pick in s.fsm {
      SetsFsm(opts, s, s.fsm - {pick});
      var rest := s.(fsm := s.fsm - {pick});
      if pick !in s.locks && Reusable(s.pages[pick]) { Acquires(opts, rest, p, pick, InsertGot(t, pick)); }
    } else {
      Extends(opts, s);
      FileStarts(opts, s);
      var more := s.(pages := s.pages + [NewPage]);
      Acquires(opts, more, p, |s.pages|, InsertGot(t, |s.pages|));
    }
  }

  lemma FileStarts(opts: Options, s: System)
    requires PagesInv(opts, s.pages)
    ensures opts.Ok() && |s.pages| > 0 && s.pages[0].MetaPage?
  {
  }

  /** The new page is written and becomes the whole of notFullPage. */
  lemma WriteNewOk(opts: Options, s: System, p: nat)
    requires Inv(opts, s) && p in s.procs && s.procs[p].InsertGot?
    ensures Inv(opts, InsertStep(opts, s, p, 0))
  {
    hide PagesInv, MetaInv, ProcsInv, LocksInv, Reusable, PageOk;
    MetaFacts(s);
    ProcFacts(s, p);
    FileStarts(opts, s);
    var t, blk := s.procs[p].t, s.procs[p].blk;
    EmptyHasRoom(opts, t);
    var r := AddItem(opts, EMPTY_PAGE, t);
    var freed := s.Unlock(p).At(p, Inserted(t));
    Releases(opts, s, p, Inserted(t));
    Writes(opts, freed, blk, r.value);
    var w := freed.(pages := s.pages[blk := r.value]);
    SetsMeta(opts, w, 0, 1, s.notFull[0 := blk]);
  }

  lemma DeleteStepOk(opts: Options, s: System, p: nat)
    requires Inv(opts, s) && p in s.procs && s.procs[p].Delete?
    ensures Inv(opts, DeleteStep(opts, s, p))
  {
    hide PagesInv, MetaInv, ProcsInv, Reusable, PageOk, Vacuumed;
    MetaFacts(s);
    ProcFacts(s, p);
    var c := s.procs[p];
    if c.blk >= c.npages {
      if 0 !in s.locks {
        SetsMeta(opts, s, 0, |c.notFull|, c.notFull + s.notFull[|c.notFull|..]);
        Moves(opts, s.(nStart := 0, nEnd := |c.notFull|, notFull := c.notFull + s.notFull[|c.notFull|..]), p, Deleted);
      }
    } else if c.blk !in s.locks {
      var page := Vacuumed(s.pages[c.blk], c.dead);
      BlockOk(opts, s, c.blk);
      DeleteUnchanged(opts, s.pages[c.blk], c.dead);
      Writes(opts, s, c.blk, page);
      var w := s.(pages := s.pages[c.blk := page]);
      Moves(opts, w, p, Delete(c.dead, c.npages, c.blk + 1, c.notFull));
      if |c.notFull| < META_BLOCK_N {
        Moves(opts, w, p, Delete(c.dead, c.npages, c.blk + 1, c.notFull + [c.blk]));
      }
    }
  }

  lemma BlockOk(opts: Options, s: System, blk: nat)
    requires PagesInv(opts, s.pages) && InFile(s, blk)
    ensures PageOk(opts, s.pages[blk])
  {
  }

  lemma CleanStepOk(opts: Options, s: System, p: nat)
    requires Inv(opts, s) && p in s.procs && s.procs[p].Clean?
    ensures Inv(opts, CleanStep(s, p))
  {
    hide PagesInv, MetaInv, ProcsInv, Reusable;
    MetaFacts(s);
    ProcFacts(s, p);
    var c := s.procs[p];
    if c.blk >= c.npages {
      Moves(opts, s, p, Cleaned);
    } else {
      var fsm := if Reusable(s.pages[c.blk]) then s.fsm + {c.blk} else s.fsm;
      SetsFsm(opts, s, fsm);
      Moves(opts, s.(fsm := fsm), p, Clean(c.npages, c.blk + 1));
    }
  }

  lemma ScanStepOk(opts: Options, s: System, p: nat)
    requires Inv(opts, s) && p in s.procs && s.procs[p].Scan?
    ensures Inv(opts, ScanStep(s, p))
  {
    hide PagesInv, MetaInv, ProcsInv, Reusable, Found, Elements;
    ProcFacts(s, p);
    var c := s.procs[p];
    var s' := ScanStep(s, p);
    if s' != s { Moves(opts, s, p, s'.procs[p]); }
  }

  /** Every step of every backend keeps the invariant. */
  lemma StepOk(opts: Options, s: System, a: Action)
    requires Inv(opts, s)
    ensures Inv(opts, Step(opts, s, a))
  {
    hide InsertStep, DeleteStep, CleanStep, ScanStep, MetaInv, ProcsInv;
    FileStarts(opts, s);
    match a
    case Advance(p, pick) =>
      if p in s.procs {
        ProcFacts(s, p);
        if s.procs[p].Scan? { ScanStepOk(opts, s, p); }
        else if s.procs[p].Delete? { DeleteStepOk(opts, s, p); }
        else if s.procs[p].Clean? { CleanStepOk(opts, s, p); }
        else { InsertStepOk(opts, s, p, pick); }
      }
    case Abort(p) => Releases(opts, s, p, Aborted);
    case _ =>
      var s' := Step(opts, s, a);
      if s' != s { Moves(opts, s, a.p, s'.procs[a.p]); }
  }
}
