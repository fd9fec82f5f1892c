/** One backend with the index to itself: the steps of the concurrent protocol lead from an index at rest to exactly the
    index that the sequential operation leaves (contrib/bloom/blinsert.c, blscan.c, blvacuum.c). */
module BloomLone {
  import opened Wrappers
  import opened Sequences
  import opened BloomSign
  import opened BloomPages
  import opened BloomIndex
  import opened BloomScan
  import opened BloomProtocol
  import opened BloomRuns

  /** No backend is at work. */
  ghost predicate Quiet(s: System) { s.locks == map[] && s.procs == map[] }

  /** The schedule lets only backend p go on. */
  ghost predicate Alone(sched: seq<Action>, p: nat) {
    forall i | 0 <= i < |sched| :: sched[i].Advance? && sched[i].p == p
  }

  /** A run of p begins with its start and goes on one step at a time. */
  lemma LoneSteps(opts: Options, s: System, start: Action, sched: seq<Action>, p: nat)
    requires Inv(opts, s) && Alone(sched, p)
    ensures if sched == [] then After(opts, s, [start] + sched) == Step(opts, s, start)
            else
              var n := |sched| - 1;
              && Alone(sched[..n], p)
              && After(opts, s, [start] + sched) == Step(opts, After(opts, s, [start] + sched[..n]), sched[n])
  {
    hide Inv, Step;
    if sched == [] {
      assert ([start] + sched)[..0] == [];
    } else {
      assert ([start] + sched)[..|sched|] == [start] + sched[..|sched| - 1];
    }
  }

  // ---------------------------------------------------------------- bulk deletion

  ghost function ListedBlocks(opts: Options, pages: seq<Page>): seq<nat> { AtMost(WithRoom(opts, pages), META_BLOCK_N) }

  /** Bulk deletion when the first k blocks are done. */
  ghost function DeletingAt(opts: Options, s: System, p: nat, dead: set<nat>, k: nat): System
    requires k <= |s.pages|
  {
    var done := VacuumedPages(s.pages[..k], dead);
    s.(pages := done + s.pages[k..]).At(p, Delete(dead, |s.pages|, k, ListedBlocks(opts, done)))
  }

  /** What bulk deletion leaves. */
  ghost function DeleteLeaves(opts: Options, s: System, dead: set<nat>): System
    requires |s.notFull| == META_BLOCK_N
  {
    var pages := VacuumedPages(s.pages, dead);
    var listed := ListedBlocks(opts, pages);
    s.(pages := pages, nStart := 0, nEnd := |listed|, notFull := listed + s.notFull[|listed|..])
  }

  lemma DeleteBegins(opts: Options, s: System, p: nat, dead: set<nat>)
    requires Inv(opts, s) && Quiet(s)
    ensures Step(opts, s, StartDelete(p, dead)) == DeletingAt(opts, s, p, dead, 1)
  {
    VacuumStart(opts, s.pages, dead);
  }

  /** One section of bulk deletion on a block that is not locked. */
  lemma DeleteSection(opts: Options, r: System, p: nat, pick: nat)
    requires Inv(opts, r) && p in r.procs && r.procs[p].Delete?
    requires r.procs[p].blk < r.procs[p].npages && r.procs[p].blk !in r.locks
    ensures r.procs[p].blk < |r.pages|
    ensures var c := r.procs[p];
            var page := Vacuumed(r.pages[c.blk], c.dead);
            var listed := if !Reusable(page) && HasRoom(opts, page) && |c.notFull| < META_BLOCK_N
                          then c.notFull + [c.blk] else c.notFull;
            Step(opts, r, Advance(p, pick)) ==
              r.(pages := r.pages[c.blk := page]).At(p, Delete(c.dead, c.npages, c.blk + 1, listed))
  {
    hide Vacuumed, HasRoom, Reusable, PagesInv, MetaInv, LocksInv;
    ProcFacts(r, p);
  }

  lemma DeleteGoesOn(opts: Options, s: System, p: nat, dead: set<nat>, k: nat, pick: nat)
    requires Inv(opts, s) && Quiet(s) && 1 <= k < |s.pages| && Inv(opts, DeletingAt(opts, s, p, dead, k))
    ensures Step(opts, DeletingAt(opts, s, p, dead, k), Advance(p, pick)) == DeletingAt(opts, s, p, dead, k + 1)
  {
    hide Inv, Step, Vacuumed, VacuumedPages, WithRoom, AllTuples, HasRoom, Reusable, AtMost;
    PagesFacts(opts, s);
    var r := DeletingAt(opts, s, p, dead, k);
    VacuumStep(opts, s.pages, k, dead);
    DeleteUnchanged(opts, s.pages[k], dead);
    var a, page := VacuumedPages(s.pages[..k], dead), Vacuumed(s.pages[k], dead);
    assert r.pages[k] == s.pages[k..][0] == s.pages[k];
    AtMostStep(WithRoom(opts, a), k, META_BLOCK_N);
    DeleteSection(opts, r, p, pick);
    var listed := ListedBlocks(opts, VacuumedPages(s.pages[..k + 1], dead));
    SetTwice(r, p, Delete(dead, |s.pages|, k + 1, listed));
  }

  lemma AtMostStep(listed: seq<nat>, k: nat, n: nat)
    ensures AtMost(listed + [k], n) == if |AtMost(listed, n)| < n then AtMost(listed, n) + [k] else AtMost(listed, n)
    ensures AtMost(listed + [], n) == AtMost(listed, n)
  {
    assert listed + [] == listed;
  }

  lemma SetTwice(s: System, p: nat, c: Proc)
    requires s.procs.Keys == {p}
    ensures s.procs[p := c] == map[p := c]
  {
  }

  lemma PagesFacts(opts: Options, s: System)
    requires Inv(opts, s)
    ensures opts.Ok() && |s.pages| > 0 && s.pages[0].MetaPage? && BlocksOk(opts, s.pages)
    ensures s.nStart <= s.nEnd <= META_BLOCK_N == |s.notFull|
    ensures forall k | 0 <= k < s.nEnd :: 1 <= s.notFull[k] < |s.pages|
    ensures forall b | b in s.fsm :: 1 <= b < |s.pages|
  {
  }

  lemma DeleteEnds(opts: Options, s: System, p: nat, dead: set<nat>, pick: nat)
    requires Inv(opts, s) && Quiet(s) && Inv(opts, DeletingAt(opts, s, p, dead, |s.pages|))
    ensures Step(opts, DeletingAt(opts, s, p, dead, |s.pages|), Advance(p, pick)) ==
              DeleteLeaves(opts, s, dead).At(p, Deleted)
  {
    hide Inv, VacuumedPages, WithRoom;
    PagesFacts(opts, s);
    assert s.pages[..|s.pages|] == s.pages && VacuumedPages(s.pages, dead) + [] == VacuumedPages(s.pages, dead);
  }

  /** A lone bulk deletion: block by block, and then the list, whatever else the schedule offers. */
  lemma {:induction false} LoneDelete(opts: Options, s: System, p: nat, dead: set<nat>, sched: seq<Action>)
    requires Inv(opts, s) && Quiet(s) && Alone(sched, p)
    ensures |s.notFull| == META_BLOCK_N
    ensures After(opts, s, [StartDelete(p, dead)] + sched) ==
              if |sched| < |s.pages| then DeletingAt(opts, s, p, dead, |sched| + 1)
              else DeleteLeaves(opts, s, dead).At(p, Deleted)
  {
    hide Inv, Step, DeletingAt, DeleteLeaves;
    PagesFacts(opts, s);
    var start := StartDelete(p, dead);
    LoneSteps(opts, s, start, sched, p);
    if sched == [] {
      DeleteBegins(opts, s, p, dead);
    } else {
      var n := |sched| - 1;
      LoneDelete(opts, s, p, dead, sched[..n]);
      var before := After(opts, s, [start] + sched[..n]);
      if n + 1 < |s.pages| {
        DeleteGoesOn(opts, s, p, dead, n + 1, sched[n].pick);
      } else if n + 1 == |s.pages| {
        DeleteEnds(opts, s, p, dead, sched[n].pick);
      } else {
        Rests(opts, before, p, sched[n].pick);
      }
    }
  }

  lemma Rests(opts: Options, s: System, p: nat, pick: nat)
    requires Inv(opts, s) && p in s.procs && s.procs[p].Finished()
    ensures Step(opts, s, Advance(p, pick)) == s
  {
  }

  /** blbulkdelete and a lone backend leave the same index. */
  method BulkDeleteAlone(index: BloomIndex, dead: set<nat>, ghost p: nat, ghost sched: seq<Action>)
    returns (tuplesRemoved: nat)
    requires index.Valid() && Alone(sched, p) && |sched| >= |index.pages|
    modifies index, index.notFullPage
    ensures Inv(index.state.opts, old(AtRest(index)))
    ensures After(index.state.opts, old(AtRest(index)), [StartDelete(p, dead)] + sched) == AtRest(index).At(p, Deleted)
  {
    hide Inv, After, WithRoom, AllTuples, VacuumedPages, Holds, Surviving;
    AtRestOk(index);
    ghost var s := AtRest(index);
    LoneDelete(index.state.opts, s, p, dead, sched);
    tuplesRemoved := index.BulkDelete(dead);
    assert index.notFullPage[..] == index.notFullPage[..index.nEnd] + index.notFullPage[index.nEnd..];
  }

  // ---------------------------------------------------------------- cleanup

  ghost function CleaningAt(s: System, p: nat, k: nat): System
    requires k <= |s.pages|
  {
    s.(fsm := s.fsm + FreeBlocks(s.pages[..k])).At(p, Clean(|s.pages|, k))
  }

  /** What cleanup leaves. */
  ghost function CleanLeaves(s: System): System { s.(fsm := s.fsm + FreeBlocks(s.pages)) }

  lemma CleanBegins(opts: Options, s: System, p: nat)
    requires Inv(opts, s) && Quiet(s)
    ensures Step(opts, s, StartClean(p)) == CleaningAt(s, p, 1)
  {
    CountStart(s.pages);
  }

  lemma CleanGoesOn(opts: Options, s: System, p: nat, k: nat, pick: nat)
    requires Inv(opts, s) && Quiet(s) && 1 <= k < |s.pages| && Inv(opts, CleaningAt(s, p, k))
    ensures Step(opts, CleaningAt(s, p, k), Advance(p, pick)) == CleaningAt(s, p, k + 1)
  {
    hide Inv, FreeBlocks, AllTuples, Reusable;
    CountStep(s.pages, k);
    SetTwice(CleaningAt(s, p, k), p, Clean(|s.pages|, k + 1));
  }

  lemma CleanEnds(opts: Options, s: System, p: nat, pick: nat)
    requires Inv(opts, s) && Quiet(s) && Inv(opts, CleaningAt(s, p, |s.pages|))
    ensures Step(opts, CleaningAt(s, p, |s.pages|), Advance(p, pick)) == CleanLeaves(s).At(p, Cleaned)
  {
    hide Inv, FreeBlocks;
    assert s.pages[..|s.pages|] == s.pages;
  }

  lemma {:induction false} LoneClean(opts: Options, s: System, p: nat, sched: seq<Action>)
    requires Inv(opts, s) && Quiet(s) && Alone(sched, p)
    ensures After(opts, s, [StartClean(p)] + sched) ==
              if |sched| < |s.pages| then CleaningAt(s, p, |sched| + 1) else CleanLeaves(s).At(p, Cleaned)
  {
    hide Inv, Step, CleaningAt, CleanLeaves;
    PagesFacts(opts, s);
    LoneSteps(opts, s, StartClean(p), sched, p);
    if sched == [] {
      CleanBegins(opts, s, p);
    } else {
      var n := |sched| - 1;
      LoneClean(opts, s, p, sched[..n]);
      if n + 1 < |s.pages| {
        CleanGoesOn(opts, s, p, n + 1, sched[n].pick);
      } else if n + 1 == |s.pages| {
        CleanEnds(opts, s, p, sched[n].pick);
      } else {
        Rests(opts, After(opts, s, [StartClean(p)] + sched[..n]), p, sched[n].pick);
      }
    }
  }

  /** blvacuumcleanup and a lone backend leave the same index. */
  method VacuumCleanupAlone(index: BloomIndex, ghost p: nat, ghost sched: seq<Action>) returns (stats: Stats)
    requires index.Valid() && Alone(sched, p) && |sched| >= |index.pages|
    modifies index`fsm
    ensures Inv(index.state.opts, old(AtRest(index)))
    ensures After(index.state.opts, old(AtRest(index)), [StartClean(p)] + sched) == AtRest(index).At(p, Cleaned)
  {
    hide Inv, After, Holds, FreeBlocks;
    AtRestOk(index);
    ghost var s := AtRest(index);
    LoneClean(index.state.opts, s, p, sched);
    stats := index.VacuumCleanup();
  }

  // ---------------------------------------------------------------- scans

  ghost function FoundUpTo(pages: seq<Page>, bits: set<nat>, k: nat): set<nat>
    requires k <= |pages|
  {
    Elements(Found(AllTuples(pages[..k]), bits))
  }

  ghost function ScanningAt(s: System, p: nat, bits: set<nat>, k: nat): System
    requires k <= |s.pages|
  {
    s.At(p, Scan(bits, |s.pages|, k, FoundUpTo(s.pages, bits, k)))
  }

  lemma FoundMore(opts: Options, pages: seq<Page>, bits: set<nat>, k: nat)
    requires BlocksOk(opts, pages) && 1 <= k < |pages|
    ensures FoundUpTo(pages, bits, k + 1) ==
              FoundUpTo(pages, bits, k) + Elements(if Reusable(pages[k]) then [] else Found(Live(pages[k]), bits))
  {
    hide AllTuples, Found, Elements;
    CountStep(pages, k);
    FoundConcat(AllTuples(pages[..k]), Live(pages[k]), bits);
    ElementsConcat(Found(AllTuples(pages[..k]), bits), Found(Live(pages[k]), bits));
    assert PageOk(opts, pages[k]);
    if Reusable(pages[k]) { FoundNothing(bits); }
  }

  lemma ScanBegins(opts: Options, s: System, p: nat, bits: set<nat>)
    requires Inv(opts, s) && Quiet(s)
    ensures Step(opts, s, StartScan(p, bits)) == ScanningAt(s, p, bits, 1)
  {
    hide Elements, Found;
    CountStart(s.pages);
    FoundNothing(bits);
    ElementsEmpty();
  }

  lemma ScanGoesOn(opts: Options, s: System, p: nat, bits: set<nat>, k: nat, pick: nat)
    requires Inv(opts, s) && Quiet(s) && 1 <= k < |s.pages| && Inv(opts, ScanningAt(s, p, bits, k))
    ensures Step(opts, ScanningAt(s, p, bits, k), Advance(p, pick)) == ScanningAt(s, p, bits, k + 1)
  {
    hide Inv, FoundUpTo, Found, Elements, Reusable;
    PagesFacts(opts, s);
    FoundMore(opts, s.pages, bits, k);
    SetTwice(ScanningAt(s, p, bits, k), p, Scan(bits, |s.pages|, k + 1, FoundUpTo(s.pages, bits, k + 1)));
  }

  lemma {:induction false} LoneScan(opts: Options, s: System, p: nat, bits: set<nat>, sched: seq<Action>)
    requires Inv(opts, s) && Quiet(s) && Alone(sched, p)
    ensures After(opts, s, [StartScan(p, bits)] + sched) ==
              if |sched| < |s.pages| then ScanningAt(s, p, bits, |sched| + 1)
              else s.At(p, Scanned(Elements(Found(AllTuples(s.pages), bits))))
  {
    hide Inv, Step, Found, Elements, AllTuples;
    PagesFacts(opts, s);
    LoneSteps(opts, s, StartScan(p, bits), sched, p);
    if sched == [] {
      ScanBegins(opts, s, p, bits);
    } else {
      var n := |sched| - 1;
      LoneScan(opts, s, p, bits, sched[..n]);
      if n + 1 < |s.pages| {
        ScanGoesOn(opts, s, p, bits, n + 1, sched[n].pick);
      } else if n + 1 == |s.pages| {
        ScanEnds(opts, s, p, bits, sched[n].pick);
      } else {
        Rests(opts, After(opts, s, [StartScan(p, bits)] + sched[..n]), p, sched[n].pick);
      }
    }
  }

  lemma ScanEnds(opts: Options, s: System, p: nat, bits: set<nat>, pick: nat)
    requires Inv(opts, s) && Quiet(s) && Inv(opts, ScanningAt(s, p, bits, |s.pages|))
    ensures Step(opts, ScanningAt(s, p, bits, |s.pages|), Advance(p, pick)) ==
              s.At(p, Scanned(Elements(Found(AllTuples(s.pages), bits))))
  {
    hide Inv, Found, Elements, AllTuples;
    assert s.pages[..|s.pages|] == s.pages;
  }

  /** blgetbitmap and a lone backend report the same bitmap. */
  method GetBitmapAlone(index: BloomIndex, keys: seq<ScanKey>, ghost p: nat, ghost sched: seq<Action>)
    returns (tbm: set<nat>, ntids: nat)
    requires index.Valid() && KeysOk(index.state, keys) && forall i | 0 <= i < |keys| :: keys[i].value.Some?
    requires Alone(sched, p) && |sched| >= |index.pages|
    modifies index.gen
    ensures Inv(index.state.opts, AtRest(index))
    ensures After(index.state.opts, AtRest(index), [StartScan(p, KeyBits(index.state, keys))] + sched) ==
              AtRest(index).At(p, Scanned(tbm))
  {
    hide Inv, After, Holds, Found, Elements, AllTuples, KeyBits, Candidate, Satisfies;
    ghost var s, bits := AtRest(index), KeyBits(index.state, keys);
    tbm, ntids := GetBitmap(index, keys);
    AtRestOk(index);
    LoneScan(index.state.opts, s, p, bits, sched);
    forall ptr ensures ptr in tbm <==> ptr in Elements(Found(AllTuples(index.pages), bits)) {
      FoundCandidates(index.state, index.pages, index.rows, keys, ptr);
      ElementsIff(Found(AllTuples(index.pages), bits), ptr);
    }
    assert tbm == Elements(Found(AllTuples(index.pages), bits));
  }

  lemma ElementsIff(ptrs: seq<nat>, ptr: nat)
    ensures ptr in Elements(ptrs) <==> ptr in ptrs
  {
  }
}
