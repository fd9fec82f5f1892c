/** One insertion with the index to itself: whatever the free space map offers it, it ends, and it leaves what blinsert
    run alone may leave (contrib/bloom/blinsert.c). */
module BloomLoneInsert {
  import opened Wrappers
  import opened BloomSign
  import opened BloomPages
  import opened BloomIndex
  import opened BloomProtocol
  import opened BloomRuns
  import opened BloomLone

  // ---------------------------------------------------------------- what an insertion leaves

  ghost function WithTuple(p: Page, t: BloomTuple): Page { DataPage(false, Live(p) + [t]) }

  ghost predicate FullAt(opts: Options, s: System, k: nat)
    requires k < |s.notFull| && s.notFull[k] < |s.pages|
  {
    Full(opts, s.pages[s.notFull[k]])
  }

  ghost predicate Listed(s: System) {
    s.nStart <= s.nEnd <= |s.notFull| && |s.notFull| > 0 && forall k | 0 <= k < s.nEnd :: s.notFull[k] < |s.pages|
  }

  /** The blocks listed from nStart up to k have no room. */
  ghost predicate FullUpTo(opts: Options, s: System, k: nat) {
    && Listed(s) && s.nStart <= k <= s.nEnd
    && forall j: nat | s.nStart <= j < k :: FullAt(opts, s, j)
  }

  /** The tuple goes to the first listed block with room, and the list begins there. */
  ghost predicate StoredListed(opts: Options, s: System, t: BloomTuple, s': System, k: nat) {
    && FullUpTo(opts, s, k) && k < s.nEnd && !FullAt(opts, s, k)
    && var b := s.notFull[k];
       s' == s.(pages := s.pages[b := WithTuple(s.pages[b], t)], nStart := k)
  }

  /** All listed blocks are full: the tuple goes to a free block or one the file grows by, which becomes the list. */
  ghost predicate StoredNew(opts: Options, s: System, t: BloomTuple, s': System, b: nat) {
    && FullUpTo(opts, s, s.nEnd) && GotBlock(s.pages, s.fsm, b, s'.fsm)
    && var page := DataPage(false, [t]);
       s' == s.(pages := if b < |s.pages| then s.pages[b := page] else s.pages + [page],
                nStart := 0, nEnd := 1, notFull := s.notFull[0 := b], fsm := s'.fsm)
  }

  ghost predicate InsertLeaves(opts: Options, s: System, t: BloomTuple, s': System) {
    (exists k: nat :: StoredListed(opts, s, t, s', k)) || exists b: nat :: StoredNew(opts, s, t, s', b)
  }

  // ---------------------------------------------------------------- where a lone insertion is

  /** Where the insertion of t by p may be after it began at s. */
  ghost predicate Inserting(opts: Options, s: System, t: BloomTuple, p: nat, r: System) {
    && p in r.procs
    && match r.procs[p]
       case InsertStart(x) => x == t && r == s.At(p, InsertStart(t)) && Listed(s)
       case InsertFirst(x, b) =>
         x == t && r == s.At(p, InsertFirst(t, b)) && Listed(s) && s.nStart < s.nEnd && b == s.notFull[s.nStart]
       case InsertWait(x, tried) =>
         && x == t && r == s.At(p, InsertWait(t, tried)) && Listed(s)
         && if s.nStart < s.nEnd then tried == Some(s.notFull[s.nStart]) && FullAt(opts, s, s.nStart) else tried == None
       case InsertLoop(x, n) =>
         && x == t && r == s.(locks := map[0 := p]).At(p, InsertLoop(t, n)) && FullUpTo(opts, s, n)
         && (s.nStart < s.nEnd ==> s.nStart < n)
       case InsertNew(x) =>
         && x == t && r == s.(locks := map[0 := p], fsm := r.fsm).At(p, InsertNew(t)) && FullUpTo(opts, s, s.nEnd)
         && Refused(s, r.fsm)
       case InsertGot(x, b) =>
         && x == t && FullUpTo(opts, s, s.nEnd) && GotBlock(s.pages, s.fsm, b, r.fsm)
         && r == s.(pages := if b < |s.pages| then s.pages else s.pages + [NewPage],
                    locks := map[0 := p, b := p], fsm := r.fsm).At(p, InsertGot(t, b))
       case Inserted(x) =>
         x == t && r.locks == map[] && r.procs == map[p := Inserted(t)] && InsertLeaves(opts, s, t, r.(procs := map[]))
       case _ => false
  }

  /** The blocks that are no longer on offer could not be taken. */
  ghost predicate Refused(s: System, rest: set<nat>) {
    rest <= s.fsm && forall b | b in s.fsm - rest :: b < |s.pages| && !Reusable(s.pages[b])
  }

  /** The steps an insertion still has to take, at most. */
  ghost function StepsLeft(r: System, p: nat): nat
    requires p in r.procs
  {
    var rest := |r.fsm|;
    match r.procs[p]
    case InsertStart(_) => if r.nStart <= r.nEnd then r.nEnd - r.nStart + rest + 5 else 0
    case InsertFirst(_, _) => if r.nStart <= r.nEnd then r.nEnd - r.nStart + rest + 4 else 0
    case InsertWait(_, _) => if r.nStart < r.nEnd then r.nEnd - r.nStart + rest + 3 else rest + 4
    case InsertLoop(_, n) => if n <= r.nEnd then r.nEnd - n + rest + 3 else 0
    case InsertNew(_) => rest + 2
    case InsertGot(_, _) => 1
    case _ => 0
  }

  /** One step: the insertion has one less to take. */
  ghost predicate Nearer(opts: Options, s: System, t: BloomTuple, p: nat, r: System, r': System) {
    && Inserting(opts, s, t, p, r) && Inserting(opts, s, t, p, r')
    && (StepsLeft(r', p) < StepsLeft(r, p) || r'.procs[p] == Inserted(t))
  }

  lemma AddsTuple(opts: Options, p: Page, t: BloomTuple)
    requires PageOk(opts, p)
    ensures var r := AddItem(opts, Ready(p), t);
            (r.None? <==> Full(opts, p)) && (r.Some? ==> r.value == WithTuple(p, t))
  {
  }

  lemma FirstSteps(opts: Options, s: System, t: BloomTuple, p: nat, r: System, pick: nat)
    requires Inv(opts, s) && Quiet(s) && Inv(opts, r) && Inserting(opts, s, t, p, r)
    requires r.procs[p].InsertStart? || r.procs[p].InsertWait?
    ensures Nearer(opts, s, t, p, r, Step(opts, r, Advance(p, pick)))
  {
    hide Inv, FullAt, Reusable;
    SetTwice(r, p, Step(opts, r, Advance(p, pick)).procs[p]);
  }

  /** An attempt on a listed block. */
  lemma ListedStep(opts: Options, s: System, t: BloomTuple, p: nat, r: System, pick: nat)
    requires Inv(opts, s) && Quiet(s) && Inv(opts, r) && Inserting(opts, s, t, p, r)
    requires r.procs[p].InsertFirst? || (r.procs[p].InsertLoop? && r.procs[p].n < s.nEnd)
    ensures Nearer(opts, s, t, p, r, Step(opts, r, Advance(p, pick)))
  {
    hide Inv, Full, Reusable, PageOk, AddItem, WithTuple, Ready, Live;
    PagesFacts(opts, s);
    var c := r.procs[p];
    var k := if c.InsertFirst? then s.nStart else c.n;
    var b := s.notFull[k];
    AddsTuple(opts, s.pages[b], t);
    var r' := Step(opts, r, Advance(p, pick));
    SetTwice(r, p, r'.procs[p]);
    if !FullAt(opts, s, k) { assert StoredListed(opts, s, t, r'.(procs := map[]), k); }
  }

  /** The end of the list, and then the search for a block. */
  lemma NewSteps(opts: Options, s: System, t: BloomTuple, p: nat, r: System, pick: nat)
    requires Inv(opts, s) && Quiet(s) && Inv(opts, r) && Inserting(opts, s, t, p, r)
    requires (r.procs[p].InsertLoop? && r.procs[p].n == s.nEnd) || r.procs[p].InsertNew?
    ensures Nearer(opts, s, t, p, r, Step(opts, r, Advance(p, pick)))
  {
    hide Inv, FullUpTo, Reusable;
    PagesFacts(opts, s);
    var r' := Step(opts, r, Advance(p, pick));
    SetTwice(r, p, r'.procs[p]);
    if r.procs[p].InsertNew? && pick in r.fsm { assert |r.fsm - {pick}| < |r.fsm|; }
  }

  lemma WriteStep(opts: Options, s: System, t: BloomTuple, p: nat, r: System, pick: nat)
    requires Inv(opts, s) && Quiet(s) && Inv(opts, r) && Inserting(opts, s, t, p, r) && r.procs[p].InsertGot?
    ensures Nearer(opts, s, t, p, r, Step(opts, r, Advance(p, pick)))
  {
    hide Inv, FullUpTo, Reusable, AddItem;
    PagesFacts(opts, s);
    EmptyHasRoom(opts, t);
    var r', b := Step(opts, r, Advance(p, pick)), r.procs[p].blk;
    SetTwice(r, p, r'.procs[p]);
    var page := DataPage(false, [t]);
    assert (s.pages + [NewPage])[|s.pages| := page] == s.pages + [page];
    assert StoredNew(opts, s, t, r'.(procs := map[]), b);
  }

  lemma LoneStep(opts: Options, s: System, t: BloomTuple, p: nat, r: System, pick: nat)
    requires Inv(opts, s) && Quiet(s) && Inv(opts, r) && Inserting(opts, s, t, p, r)
    ensures Nearer(opts, s, t, p, r, Step(opts, r, Advance(p, pick)))
  {
    hide Inv, Step, FullAt, InsertLeaves, GotBlock;
    var c := r.procs[p];
    if c.InsertStart? || c.InsertWait? { FirstSteps(opts, s, t, p, r, pick); }
    else if c.InsertFirst? || (c.InsertLoop? && c.n < s.nEnd) { ListedStep(opts, s, t, p, r, pick); }
    else if c.InsertLoop? || c.InsertNew? { NewSteps(opts, s, t, p, r, pick); }
    else if c.InsertGot? { WriteStep(opts, s, t, p, r, pick); }
    else { Rests(opts, r, p, pick); }
  }

  lemma InsertBegins(opts: Options, s: System, t: BloomTuple, p: nat)
    requires Inv(opts, s) && Quiet(s)
    ensures var r := Step(opts, s, StartInsert(p, t));
            Inserting(opts, s, t, p, r) && StepsLeft(r, p) == s.nEnd - s.nStart + |s.fsm| + 5
  {
  }

  /** A lone insertion is always under way to one of its endings, and reaches one after as many steps as there are
      listed and free blocks, and five more: no block is tried twice. */
  lemma {:induction false} LoneInsert(opts: Options, s: System, p: nat, t: BloomTuple, sched: seq<Action>)
    requires Inv(opts, s) && Quiet(s) && Alone(sched, p)
    ensures var r := After(opts, s, [StartInsert(p, t)] + sched);
            && Inserting(opts, s, t, p, r)
            && (r.procs[p] == Inserted(t) || |sched| + StepsLeft(r, p) <= s.nEnd - s.nStart + |s.fsm| + 5)
  {
    hide Inv, Step, Inserting, StepsLeft;
    var start := StartInsert(p, t);
    LoneSteps(opts, s, start, sched, p);
    if sched == [] {
      InsertBegins(opts, s, t, p);
      InsertingFacts(opts, s, t, p, After(opts, s, [start] + sched));
    } else {
      var n := |sched| - 1;
      var before := After(opts, s, [start] + sched[..n]);
      LoneInsert(opts, s, p, t, sched[..n]);
      LoneStep(opts, s, t, p, before, sched[n].pick);
      InsertingFacts(opts, s, t, p, before);
      if before.procs[p] == Inserted(t) { Rests(opts, before, p, sched[n].pick); }
      InsertingFacts(opts, s, t, p, After(opts, s, [start] + sched));
    }
  }

  lemma InsertingFacts(opts: Options, s: System, t: BloomTuple, p: nat, r: System)
    requires Inserting(opts, s, t, p, r)
    ensures p in r.procs && (r.procs[p] == Inserted(t) || StepsLeft(r, p) > 0)
    ensures r.procs[p] == Inserted(t) ==>
              InsertLeaves(opts, s, t, r.(procs := map[])) && r.procs == map[p := Inserted(t)]
  {
    hide InsertLeaves, GotBlock;
  }

  /** Left alone long enough, it ends and leaves what an insertion may leave. */
  lemma LoneInsertEnds(opts: Options, s: System, p: nat, t: BloomTuple, sched: seq<Action>)
    requires Inv(opts, s) && Quiet(s) && Alone(sched, p) && |sched| >= s.nEnd - s.nStart + |s.fsm| + 5
    ensures var r := After(opts, s, [StartInsert(p, t)] + sched);
            exists s' :: InsertLeaves(opts, s, t, s') && Quiet(s') && r == s'.At(p, Inserted(t))
  {
    hide Inv, After, Inserting, StepsLeft, InsertLeaves;
    LoneInsert(opts, s, p, t, sched);
    var r := After(opts, s, [StartInsert(p, t)] + sched);
    InsertingFacts(opts, s, t, p, r);
    InsertedQuiet(opts, s, t, p, r);
    var s' := r.(procs := map[]);
    assert InsertLeaves(opts, s, t, s') && Quiet(s') && r == s'.At(p, Inserted(t));
  }

  lemma InsertedQuiet(opts: Options, s: System, t: BloomTuple, p: nat, r: System)
    requires Inserting(opts, s, t, p, r) && r.procs[p] == Inserted(t)
    ensures r.locks == map[]
  {
    hide InsertLeaves;
  }

  // ---------------------------------------------------------------- every ending is reached

  lemma RunOn(opts: Options, s: System, start: Action, sched: seq<Action>, p: nat, pick: nat)
    requires Inv(opts, s) && Alone(sched, p)
    ensures Alone(sched + [Advance(p, pick)], p)
    ensures After(opts, s, [start] + (sched + [Advance(p, pick)])) ==
              Step(opts, After(opts, s, [start] + sched), Advance(p, pick))
  {
    hide Inv, Step;
    var more := sched + [Advance(p, pick)];
    LoneSteps(opts, s, start, more, p);
    assert more[..|sched|] == sched;
  }

  /** Before it looks for a new block. */
  ghost predicate Early(s: System, p: nat, r: System) {
    && p in r.procs && r.fsm == s.fsm
    && (r.procs[p].InsertStart? || r.procs[p].InsertFirst? || r.procs[p].InsertWait? || r.procs[p].InsertLoop?
        || r.procs[p].InsertNew?)
  }

  lemma EarlyStep(opts: Options, s: System, t: BloomTuple, p: nat, r: System)
    requires Inv(opts, s) && Quiet(s) && Inv(opts, r) && FullUpTo(opts, s, s.nEnd)
    requires Inserting(opts, s, t, p, r) && Early(s, p, r) && !r.procs[p].InsertNew?
    ensures var r' := Step(opts, r, Advance(p, 0)); Nearer(opts, s, t, p, r, r') && Early(s, p, r')
  {
    hide Inv, PageOk, Ready, Live, FreeSpace, Full;
    LoneStep(opts, s, t, p, r, 0);
    PagesFacts(opts, s);
    var c := r.procs[p];
    if c.InsertFirst? || (c.InsertLoop? && c.n < s.nEnd) {
      var k := if c.InsertFirst? then s.nStart else c.n;
      assert FullAt(opts, s, k);
      AddsTuple(opts, s.pages[s.notFull[k]], t);
    }
  }

  lemma ReachNew(opts: Options, s: System, p: nat, t: BloomTuple) returns (sched: seq<Action>)
    requires Inv(opts, s) && Quiet(s) && FullUpTo(opts, s, s.nEnd)
    ensures Alone(sched, p)
    ensures After(opts, s, [StartInsert(p, t)] + sched) == s.(locks := map[0 := p]).At(p, InsertNew(t))
  {
    hide Inv, Step, After, FullUpTo, StepsLeft, Inserting;
    var start := StartInsert(p, t);
    sched := [];
    LoneSteps(opts, s, start, sched, p);
    InsertBegins(opts, s, t, p);
    EarlyStarts(opts, s, t, p);
    var r := After(opts, s, [start] + sched);
    while !r.procs[p].InsertNew?
      invariant Alone(sched, p) && r == After(opts, s, [start] + sched)
      invariant Inserting(opts, s, t, p, r) && Early(s, p, r)
      decreases StepsLeft(r, p)
    {
      EarlyStep(opts, s, t, p, r);
      RunOn(opts, s, start, sched, p, 0);
      sched := sched + [Advance(p, 0)];
      r := After(opts, s, [start] + sched);
    }
    AtNew(opts, s, t, p, r);
  }

  lemma EarlyStarts(opts: Options, s: System, t: BloomTuple, p: nat)
    requires Inv(opts, s) && Quiet(s)
    ensures Early(s, p, Step(opts, s, StartInsert(p, t)))
  {
  }

  lemma AtNew(opts: Options, s: System, t: BloomTuple, p: nat, r: System)
    requires Inserting(opts, s, t, p, r) && Early(s, p, r) && r.procs[p].InsertNew?
    ensures r == s.(locks := map[0 := p]).At(p, InsertNew(t))
  {
  }

  /** While it looks for a block, the free space map offering `rest`. */
  ghost function LooksIn(s: System, p: nat, t: BloomTuple, rest: set<nat>): System {
    s.(locks := map[0 := p], fsm := rest).At(p, InsertNew(t))
  }

  lemma DropStep(opts: Options, s: System, t: BloomTuple, p: nat, rest: set<nat>, pick: nat)
    requires Inv(opts, s) && Quiet(s) && Inv(opts, LooksIn(s, p, t, rest)) && rest <= s.fsm
    requires pick in rest && !Reusable(s.pages[pick])
    ensures Step(opts, LooksIn(s, p, t, rest), Advance(p, pick)) == LooksIn(s, p, t, rest - {pick})
  {
    hide Reusable;
    assert LooksIn(s, p, t, rest).procs[p] == InsertNew(t);
  }

  lemma TakeSteps(opts: Options, s: System, t: BloomTuple, p: nat, rest: set<nat>, b: nat, s': System)
    requires Inv(opts, s) && Quiet(s) && Inv(opts, LooksIn(s, p, t, rest))
    requires rest == s'.fsm + (if b < |s.pages| then {b} else {})
    requires StoredNew(opts, s, t, s', b)
    ensures var r := Step(opts, LooksIn(s, p, t, rest), Advance(p, b));
            Inv(opts, r) && Step(opts, r, Advance(p, 0)) == s'.At(p, Inserted(t))
  {
    hide Inv, FullUpTo, AddItem, Reusable;
    PagesFacts(opts, s);
    EmptyHasRoom(opts, t);
    var l := LooksIn(s, p, t, rest);
    StepOk(opts, l, Advance(p, b));
    var r := Step(opts, l, Advance(p, b));
    assert rest - {b} == s'.fsm;
    assert r.procs == map[p := InsertGot(t, b)];
    var r' := Step(opts, r, Advance(p, 0));
    var page := DataPage(false, [t]);
    assert (s.pages + [NewPage])[|s.pages| := page] == s.pages + [page];
    assert r'.procs == map[p := Inserted(t)];
  }

  lemma ReachStored(opts: Options, s: System, p: nat, t: BloomTuple, s': System, b: nat) returns (sched: seq<Action>)
    requires Inv(opts, s) && Quiet(s) && StoredNew(opts, s, t, s', b)
    ensures Alone(sched, p) && After(opts, s, [StartInsert(p, t)] + sched) == s'.At(p, Inserted(t))
  {
    hide Inv, Step, After, FullUpTo;
    var start, last := StartInsert(p, t), s'.fsm + (if b < |s.pages| then {b} else {});
    sched := ReachNew(opts, s, p, t);
    PagesFacts(opts, s);
    var rest := s.fsm;
    while !(rest <= last)
      invariant Alone(sched, p) && last <= rest <= s.fsm
      invariant After(opts, s, [start] + sched) == LooksIn(s, p, t, rest)
      decreases rest
    {
      var pick :| pick in rest && pick !in last;
      DropStep(opts, s, t, p, rest, pick);
      RunOn(opts, s, start, sched, p, pick);
      sched, rest := sched + [Advance(p, pick)], rest - {pick};
    }
    assert rest == last;
    TakeSteps(opts, s, t, p, rest, b, s');
    RunOn(opts, s, start, sched, p, b);
    sched := sched + [Advance(p, b)];
    RunOn(opts, s, start, sched, p, 0);
    sched := sched + [Advance(p, 0)];
  }

  ghost function Steps(p: nat, n: nat): (sched: seq<Action>)
    ensures |sched| == n && Alone(sched, p)
  {
    seq(n, i => Advance(p, 0))
  }

  /** There is only one first listed block with room. */
  lemma ListedOnly(opts: Options, s: System, t: BloomTuple, k: nat, a: System, b: System)
    requires StoredListed(opts, s, t, a, k) && InsertLeaves(opts, s, t, b)
    ensures a == b
  {
    hide FullAt, WithTuple, GotBlock;
  }

  /** Everything an insertion may leave is what some lone run leaves. */
  lemma ReachEnding(opts: Options, s: System, p: nat, t: BloomTuple, s': System) returns (sched: seq<Action>)
    requires Inv(opts, s) && Quiet(s) && InsertLeaves(opts, s, t, s')
    ensures Alone(sched, p) && After(opts, s, [StartInsert(p, t)] + sched) == s'.At(p, Inserted(t))
  {
    hide Inv, After, StoredListed, StoredNew;
    if k: nat :| StoredListed(opts, s, t, s', k) {
      PagesFacts(opts, s);
      sched := Steps(p, s.nEnd - s.nStart + |s.fsm| + 5);
      LoneInsertEnds(opts, s, p, t, sched);
      var r := After(opts, s, [StartInsert(p, t)] + sched);
      var a :| InsertLeaves(opts, s, t, a) && Quiet(a) && r == a.At(p, Inserted(t));
      ListedOnly(opts, s, t, k, s', a);
    } else {
      var b: nat :| StoredNew(opts, s, t, s', b);
      sched := ReachStored(opts, s, p, t, s', b);
    }
  }

  // ---------------------------------------------------------------- blinsert

  lemma PageWith(opts: Options, p: Page, live: seq<BloomTuple>)
    requires PageOk(opts, p) && Live(p) == live != []
    ensures p == DataPage(false, live)
  {
  }

  /** What blinsert says of the pages fixes them. */
  lemma StoredPages(opts: Options, before: seq<Page>, after: seq<Page>, b: nat, t: BloomTuple)
    requires BlocksOk(opts, after) && StoredOn(before, after, b, t) && 1 <= b
    ensures after == if b < |before| then before[b := WithTuple(before[b], t)] else before + [DataPage(false, [t])]
  {
    hide PageOk;
    assert PageOk(opts, after[b]);
    PageWith(opts, after[b], Live(after[b]));
    assert [] + [t] == [t];
  }

  lemma TakenPage(pages: seq<Page>, opts: Options, fsm: set<nat>, b: nat, rest: set<nat>, t: BloomTuple)
    requires BlocksOk(opts, pages) && GotBlock(pages, fsm, b, rest) && 1 <= b < |pages|
    ensures WithTuple(pages[b], t) == DataPage(false, [t])
  {
    assert PageOk(opts, pages[b]);
    assert [] + [t] == [t];
  }

  /** blinsert and a lone backend: some run of the backend leaves the index that blinsert leaves. */
  method InsertAlone(index: BloomIndex, row: Row, ghost p: nat) returns (ghost sched: seq<Action>)
    requires index.Valid() && RowOk(index.state, row)
    modifies index, index.gen, index.notFullPage
    ensures Inv(index.state.opts, old(AtRest(index))) && Alone(sched, p)
    ensures var t := TupleOf(index.state, row);
            After(index.state.opts, old(AtRest(index)), [StartInsert(p, t)] + sched) == AtRest(index).At(p, Inserted(t))
  {
    hide Inv, After, Holds, TupleOf, Full, BlocksOk, GotBlock, WithTuple;
    AtRestOk(index);
    ghost var opts, s, t := index.state.opts, AtRest(index), TupleOf(index.state, row);
    PagesFacts(opts, s);
    index.Insert(row);
    ghost var s' := AtRest(index);
    ghost var b := index.notFullPage[index.nStart];
    StoredPages(opts, s.pages, s'.pages, b, t);
    assert s.nEnd <= |s.notFull| && forall k | 0 <= k < s.nEnd :: s.notFull[k] == old(index.notFullPage[k]);
    if index.nEnd == s.nEnd && s'.notFull == s.notFull && s'.fsm == s.fsm && s.nStart <= s'.nStart
      && FullUpTo(opts, s, s'.nStart) && !FullAt(opts, s, s'.nStart)
    {
      assert StoredListed(opts, s, t, s', s'.nStart);
    } else {
      if b < |s.pages| { TakenPage(s.pages, opts, s.fsm, b, s'.fsm, t); }
      assert s'.notFull == [b] + index.notFullPage[1..] == s.notFull[0 := b];
      assert StoredNew(opts, s, t, s', b);
    }
    sched := ReachEnding(opts, s, p, t, s');
  }
}
