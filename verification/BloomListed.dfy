/** In every run of the concurrent Bloom index, whatever the schedule: an insertion looks for a new block only after it
    has itself found full every block on the list (contrib/bloom/blinsert.c). */
module BloomListed {
  import opened Wrappers
  import opened BloomSign
  import opened BloomPages
  import opened BloomIndex
  import opened BloomProtocol
  import opened BloomRuns

  /** The block backend p is about to try. */
  ghost function Trying(s: System, p: nat): Option<nat> {
    if p !in s.procs then None
    else
      match s.procs[p]
      case InsertFirst(_, b) => Some(b)
      case InsertLoop(_, n) => if n < s.nEnd && n < |s.notFull| then Some(s.notFull[n]) else None
      case _ => None
  }

  /** The block that the action lets p try and find full. */
  ghost function FoundFull(opts: Options, s: System, a: Action, p: nat): set<nat> {
    if a.Advance? && a.p == p && Trying(s, p).Some? then
      var b := Trying(s, p).value;
      if b < |s.pages| && b !in s.locks && Full(opts, s.pages[b]) then {b} else {}
    else {}
  }

  /** The blocks p has found full in a run. */
  ghost function FullBy(opts: Options, s: System, sched: seq<Action>, p: nat): set<nat>
    requires Inv(opts, s)
  {
    if sched == [] then {}
    else
      var n := |sched| - 1;
      FullBy(opts, s, sched[..n], p) + FoundFull(opts, After(opts, s, sched[..n]), sched[n], p)
  }

  ghost predicate ListedIn(s: System, n: nat, full: set<nat>) {
    n <= |s.notFull| && forall j | s.nStart <= j < n :: s.notFull[j] in full
  }

  /** What p has found full is what it has passed over on the list. */
  ghost predicate PassedFull(s: System, p: nat, full: set<nat>) {
    p in s.procs ==>
      match s.procs[p]
      case InsertWait(_, tried) => tried.Some? ==> tried.value in full
      case InsertLoop(_, n) => ListedIn(s, n, full)
      case InsertNew(_) => ListedIn(s, s.nEnd, full)
      case InsertGot(_, _) => ListedIn(s, s.nEnd, full)
      case _ => true
  }

  lemma Refuses(opts: Options, p: Page, t: BloomTuple)
    requires !p.MetaPage?
    ensures AddItem(opts, Ready(p), t).None? <==> Full(opts, p)
  {
    SizeStep(|Live(Ready(p))|, TupleSize(opts));
  }

  /** A step of p itself. */
  lemma OwnPassed(opts: Options, s: System, p: nat, pick: nat, full: set<nat>)
    requires Inv(opts, s) && p in s.procs && PassedFull(s, p, full)
    requires !s.procs[p].Scan? && !s.procs[p].Delete? && !s.procs[p].Clean?
    ensures PassedFull(InsertStep(opts, s, p, pick), p, full + FoundFull(opts, s, Advance(p, pick), p))
  {
    hide PagesInv, MetaInv, ProcsInv, LocksInv, Full, AddItem, Ready, Reusable;
    MetaFacts(s);
    ProcFacts(s, p);
    var c := s.procs[p];
    if c.InsertFirst? || (c.InsertLoop? && c.n < s.nEnd) {
      var b := if c.InsertFirst? then c.blk else s.notFull[c.n];
      BlockKind(opts, s, b);
      Refuses(opts, s.pages[b], c.t);
    }
  }

  /** While p holds the metapage no other backend changes the list. */
  lemma ListKept(opts: Options, s: System, a: Action, p: nat)
    requires Inv(opts, s) && Owns(s, p, 0) && a.p != p
    ensures var s' := Step(opts, s, a); s'.nStart == s.nStart && s'.nEnd == s.nEnd && s'.notFull == s.notFull
  {
    hide PagesInv, MetaInv, AddItem, Ready, Reusable, Vacuumed, HasRoom;
    if a.Advance? && a.p in s.procs { ProcFacts(s, a.p); }
  }

  lemma OthersPassed(opts: Options, s: System, a: Action, p: nat, full: set<nat>)
    requires Inv(opts, s) && a.p != p && PassedFull(s, p, full)
    ensures PassedFull(Step(opts, s, a), p, full)
  {
    hide Inv, Step;
    StepSelf(opts, s, a, p);
    if p in s.procs && s.procs[p].Holds(0) {
      HolderOwns(opts, s, p);
      ListKept(opts, s, a, p);
    }
  }

  lemma HolderOwns(opts: Options, s: System, p: nat)
    requires Inv(opts, s) && p in s.procs && s.procs[p].Holds(0)
    ensures Owns(s, p, 0)
  {
    hide PagesInv, MetaInv, LocksInv;
    ProcFacts(s, p);
  }

  lemma StepPassed(opts: Options, s: System, a: Action, p: nat, full: set<nat>)
    requires Inv(opts, s) && PassedFull(s, p, full)
    ensures PassedFull(Step(opts, s, a), p, full + FoundFull(opts, s, a, p))
  {
    hide InsertStep, PagesInv, MetaInv, LocksInv, Full, Vacuumed, HasRoom, Reusable;
    if a.p != p {
      OthersPassed(opts, s, a, p, full);
    } else if a.Advance? && p in s.procs {
      ProcFacts(s, p);
      if !s.procs[p].Scan? && !s.procs[p].Delete? && !s.procs[p].Clean? { OwnPassed(opts, s, p, a.pick, full); }
    }
  }

  /** Over every run: what an insertion has passed over on the list, it has found full. */
  lemma {:induction false} NoneSkipped(opts: Options, s: System, sched: seq<Action>, p: nat)
    requires Inv(opts, s) && p !in s.procs
    ensures PassedFull(After(opts, s, sched), p, FullBy(opts, s, sched, p))
  {
    hide Inv, Step, PassedFull, FoundFull;
    if sched == [] {
      NotThere(s, p);
    } else {
      var n := |sched| - 1;
      NoneSkipped(opts, s, sched[..n], p);
      StepPassed(opts, After(opts, s, sched[..n]), sched[n], p, FullBy(opts, s, sched[..n], p));
    }
  }

  lemma NotThere(s: System, p: nat)
    requires p !in s.procs
    ensures PassedFull(s, p, {})
  {
  }

  /** So it looks for a new block only when it has found every listed block full. */
  lemma NewOnlyWhenFull(opts: Options, s: System, sched: seq<Action>, p: nat, j: nat)
    requires Inv(opts, s) && p !in s.procs
    ensures var r := After(opts, s, sched);
            p in r.procs && (r.procs[p].InsertNew? || r.procs[p].InsertGot?) && r.nStart <= j < r.nEnd ==>
              j < |r.notFull| && r.notFull[j] in FullBy(opts, s, sched, p)
  {
    hide Inv, After, FullBy;
    NoneSkipped(opts, s, sched, p);
  }
}
