/** What every interleaving of inserters, vacuums and scans keeps. */
module BloomSafety {
  import opened Optional
  import opened BloomSign
  import opened BloomPages
  import opened BloomProtocol

  // --------------------------------------------------------------- one page changed

  lemma AddToOk(o: Options, p: Page, t: BloomTuple, q: Page)
    requires ValidOptions(o) && PageOk(o, p) && AddTo(o, p, t) == Some(q)
    ensures PageOk(o, q) && q.Data? && !q.deleted
    ensures OnPage(q) == OnPage(p) + multiset{t}
    ensures forall u :: u in Tuples(p) ==> u in Tuples(q)
  {
    var n := |Prepared(p).tuples|;
    assert (n + 1) * TupleSize(o) == n * TupleSize(o) + TupleSize(o);
  }

  lemma VacuumedOk(o: Options, p: Page, dead: set<Tid>)
    requires PageOk(o, p) && !Reusable(p)
    ensures PageOk(o, Vacuumed(p, dead))
    ensures OnPage(Vacuumed(p, dead)) + multiset(Drop(p.tuples, dead)) == OnPage(p)
  {
    KeepAndDrop(p.tuples, dead);
    FewerFit(o, |Keep(p.tuples, dead)|, |p.tuples|);
  }

  lemma FewerFit(o: Options, n: nat, m: nat)
    requires n <= m && Fits(o, m)
    ensures Fits(o, n)
  {
    assert n * TupleSize(o) <= m * TupleSize(o);
  }

  /** A page that nobody has locked may be replaced by any other sound page. */
  lemma PageReplaced(o: Options, s: State, blk: nat, q: Page)
    requires Structure(o, s) && Unlocked(s, blk) && PageOk(o, q)
    ensures Structure(o, s.(pages := s.pages[blk := q]))
  {
    var r := s.(pages := s.pages[blk := q]);
    forall i | 0 <= i < |s.inserters|
      ensures InserterOk(r, i)
    {
      assert InserterOk(s, i);
    }
  }

  /** An inserter that does not hold the metapage may enter any phase, except one
      that needs it. */
  lemma InserterMoved(o: Options, s: State, i: nat, x: Inserter)
    requires Structure(o, s) && i < |s.inserters| && HasMeta(s.inserters[i]) == HasMeta(x)
    requires x.Peeked? ==> 1 <= x.blk < |s.pages|
    requires x.Allocated? ==> 1 <= x.blk < |s.pages| && Reusable(s.pages[x.blk])
    ensures Structure(o, SetInserter(s, i, x))
  {
    var r := SetInserter(s, i, x);
    assert InserterOk(s, i);
    forall j | 0 <= j < |r.inserters|
      ensures InserterOk(r, j)
    {
      assert InserterOk(s, j);
    }
  }

  /** The holder gives the metapage up. */
  lemma MetaReleased(o: Options, s: State, i: nat, x: Inserter)
    requires Structure(o, s) && s.holder == Some(i) && i < |s.inserters| && !HasMeta(x) && !x.Peeked?
    ensures Structure(o, SetInserter(s, i, x).(holder := None))
  {
    var r := SetInserter(s, i, x).(holder := None);
    forall j | 0 <= j < |r.inserters|
      ensures InserterOk(r, j)
    {
      assert InserterOk(s, j);
    }
  }

  lemma MetaTaken(o: Options, s: State, i: nat, x: Inserter)
    requires Structure(o, s) && s.holder.None? && i < |s.inserters| && x.Holding?
    ensures Structure(o, SetInserter(s, i, x).(holder := Some(i)))
  {
    var r := SetInserter(s, i, x).(holder := Some(i));
    forall j | 0 <= j < |r.inserters|
      ensures InserterOk(r, j)
    {
      assert InserterOk(s, j);
    }
  }

  lemma ListReplaced(o: Options, s: State, m: MetaData)
    requires Structure(o, s) && m.nStart <= |m.notFull| && Blocks(|s.pages|, m.notFull)
    ensures Structure(o, s.(meta := m))
  {
    var r := s.(meta := m);
    forall j | 0 <= j < |r.inserters|
      ensures InserterOk(r, j)
    {
      assert InserterOk(s, j);
    }
  }

  lemma PageAppended(o: Options, s: State)
    requires Structure(o, s)
    ensures Structure(o, s.(pages := s.pages + [New]))
  {
    var r := s.(pages := s.pages + [New]);
    forall j | 0 <= j < |r.inserters|
      ensures InserterOk(r, j)
    {
      assert InserterOk(s, j);
    }
  }

  // ---------------------------------------------------------- structure, step by step

  lemma PlacedKeeps(o: Options, s: State, i: nat, blk: nat, p: Page)
    requires Structure(o, s) && i < |s.inserters| && !s.inserters[i].Failed? && !HasMeta(s.inserters[i])
    requires Unlocked(s, blk) && PageOk(o, p)
    ensures Structure(o, Placed(s, i, blk, p))
  {
    var x := Finished(s.inserters[i].tuple);
    InserterMoved(o, s, i, x);
    PageReplaced(o, SetInserter(s, i, x), blk, p);
  }

  /** As above for the inserter that holds the metapage, and rewrites it. */
  lemma PlacedReleases(o: Options, s: State, i: nat, blk: nat, p: Page, m: MetaData)
    requires Structure(o, s) && i < |s.inserters| && HasMeta(s.inserters[i])
    requires 0 < blk < |s.pages| && PageOk(o, p)
    requires s.inserters[i].Holding? ==> Unlocked(s, blk)
    requires m.nStart <= |m.notFull| && Blocks(|s.pages|, m.notFull)
    ensures Structure(o, Placed(s, i, blk, p).(holder := None, meta := m))
  {
    assert InserterOk(s, i);
    var x := Finished(s.inserters[i].tuple);
    var r := SetInserter(s, i, x).(holder := None);
    MetaReleased(o, s, i, x);
    PageReplaced(o, r, blk, p);
    ListReplaced(o, r.(pages := s.pages[blk := p]), m);
  }

  lemma TryFirstKeeps(o: Options, s: State, i: nat)
    requires ValidOptions(o) && Structure(o, s) && DoTryFirst(o, s, i).Some?
    ensures Structure(o, DoTryFirst(o, s, i).value)
  {
    var (t, blk) := (s.inserters[i].tuple, s.inserters[i].blk);
    match AddTo(o, s.pages[blk], t)
    case Some(p) =>
      AddToOk(o, s.pages[blk], t, p);
      PlacedKeeps(o, s, i, blk, p);
    case None =>
      InserterMoved(o, s, i, NeedsMeta(t, Some(blk)));
  }

  lemma TryNextKeeps(o: Options, s: State, i: nat)
    requires ValidOptions(o) && Structure(o, s) && DoTryNext(o, s, i).Some?
    ensures Structure(o, DoTryNext(o, s, i).value)
  {
    var (t, n) := (s.inserters[i].tuple, s.inserters[i].next);
    var blk := s.meta.notFull[n];
    match AddTo(o, s.pages[blk], t)
    case Some(p) =>
      AddToOk(o, s.pages[blk], t, p);
      PlacedReleases(o, s, i, blk, p, s.meta.(nStart := n));
    case None =>
      InserterMoved(o, s, i, Holding(t, n + 1));
  }

  lemma AllocateKeeps(o: Options, s: State, i: nat, blk: nat)
    requires Structure(o, s) && DoAllocate(s, i, blk).Some?
    ensures Structure(o, DoAllocate(s, i, blk).value)
  {
    var x := Allocated(s.inserters[i].tuple, blk);
    if blk == |s.pages| {
      PageAppended(o, s);
      InserterMoved(o, s.(pages := s.pages + [New]), i, x);
    } else {
      InserterMoved(o, s, i, x);
      FreeSpaceChanged(o, SetInserter(s, i, x), s.freeSpace - {blk});
    }
  }

  lemma FreeSpaceChanged(o: Options, s: State, f: set<nat>)
    requires Structure(o, s) && forall b :: b in f ==> 1 <= b < |s.pages|
    ensures Structure(o, s.(freeSpace := f))
  {
    var r := s.(freeSpace := f);
    forall j | 0 <= j < |r.inserters|
      ensures InserterOk(r, j)
    {
      assert InserterOk(s, j);
    }
  }

  lemma FillKeeps(o: Options, s: State, i: nat)
    requires ValidOptions(o) && Structure(o, s) && DoFill(o, s, i).Some?
    ensures Structure(o, DoFill(o, s, i).value)
  {
    var (t, blk) := (s.inserters[i].tuple, s.inserters[i].blk);
    assert InserterOk(s, i);
    var p := AddTo(o, New, t).value;
    AddToOk(o, New, t, p);
    PlacedReleases(o, s, i, blk, p, MetaData(0, [blk]));
  }

  lemma AbandonKeeps(o: Options, s: State, i: nat)
    requires Structure(o, s) && DoAbandon(s, i).Some?
    ensures Structure(o, DoAbandon(s, i).value)
  {
    assert InserterOk(s, i);
    if s.holder == Some(i) {
      MetaReleased(o, s, i, Failed);
    } else {
      InserterMoved(o, s, i, Failed);
    }
  }

  lemma VacuumMoved(o: Options, s: State, v: nat, x: Vacuum)
    requires Structure(o, s) && v < |s.vacuums|
    requires 1 <= x.next && x.npages <= |s.pages| && Blocks(|s.pages|, x.notFull)
    ensures Structure(o, s.(vacuums := s.vacuums[v := x]))
  {
    var r := s.(vacuums := s.vacuums[v := x]);
    forall j | 0 <= j < |r.inserters|
      ensures InserterOk(r, j)
    {
      assert InserterOk(s, j);
    }
  }

  lemma VacuumPageKeeps(o: Options, s: State, v: nat)
    requires Structure(o, s) && DoVacuumPage(o, s, v).Some?
    ensures Structure(o, DoVacuumPage(o, s, v).value)
  {
    var (x, r) := (s.vacuums[v], DoVacuumPage(o, s, v).value);
    var p := s.pages[x.next];
    VacuumMoved(o, s, v, r.vacuums[v]);
    if !Reusable(p) {
      VacuumedOk(o, p, x.dead);
      PageReplaced(o, s.(vacuums := r.vacuums), x.next, Vacuumed(p, x.dead));
      RemovedChanged(o, s.(vacuums := r.vacuums, pages := r.pages), r.removed);
    }
  }

  lemma RemovedChanged(o: Options, s: State, b: Bag)
    requires Structure(o, s)
    ensures Structure(o, s.(removed := b))
  {
    var r := s.(removed := b);
    forall j | 0 <= j < |r.inserters|
      ensures InserterOk(r, j)
    {
      assert InserterOk(s, j);
    }
  }

  /** A process is added, or a scan reads a page. */
  lemma ObserverKeeps(o: Options, s: State, r: State)
    requires Structure(o, s) && r == s.(inserters := r.inserters, vacuums := r.vacuums, scans := r.scans)
    requires ProcessesOk(r)
    ensures Structure(o, r)
  {
  }

  lemma StartKeeps(o: Options, s: State, t: BloomTuple)
    requires Structure(o, s)
    ensures Structure(o, Next(o, s, Start(t)).value)
  {
    var r := s.(inserters := s.inserters + [Formed(t)]);
    forall j | 0 <= j < |r.inserters|
      ensures InserterOk(r, j)
    {
      assert j < |s.inserters| ==> InserterOk(s, j);
    }
    ObserverKeeps(o, s, r);
  }

  lemma ReadersKeep(o: Options, s: State, r: State)
    requires Structure(o, s) && r == s.(vacuums := r.vacuums, scans := r.scans)
    requires forall v :: 0 <= v < |r.vacuums| ==>
               1 <= r.vacuums[v].next && r.vacuums[v].npages <= |s.pages| && Blocks(|s.pages|, r.vacuums[v].notFull)
    requires forall k :: 0 <= k < |r.scans| ==> 1 <= r.scans[k].next && r.scans[k].npages <= |s.pages|
    ensures Structure(o, r)
  {
    forall j | 0 <= j < |r.inserters|
      ensures InserterOk(r, j)
    {
      assert InserterOk(s, j);
    }
  }

  /** Every step keeps the structure. */
  lemma StepKeepsStructure(o: Options, s: State, step: Step)
    requires ValidOptions(o) && Structure(o, s) && Next(o, s, step).Some?
    ensures Structure(o, Next(o, s, step).value)
  {
    match step
    case Start(t) => StartKeeps(o, s, t);
    case Peek(i) => InserterMoved(o, s, i, DoPeek(s, i).value.inserters[i]);
    case TryFirst(i) => TryFirstKeeps(o, s, i);
    case TakeMeta(i) => MetaTaken(o, s, i, DoTakeMeta(s, i).value.inserters[i]);
    case TryNext(i) => TryNextKeeps(o, s, i);
    case Allocate(i, blk) => AllocateKeeps(o, s, i, blk);
    case Fill(i) => FillKeeps(o, s, i);
    case Abandon(i) => AbandonKeeps(o, s, i);
    case StartVacuum(dead) => ReadersKeep(o, s, Next(o, s, step).value);
    case VacuumPage(v) => VacuumPageKeeps(o, s, v);
    case EndVacuum(v) => ListReplaced(o, s, MetaData(0, s.vacuums[v].notFull));
    case Cleanup(blk) => FreeSpaceChanged(o, s, Next(o, s, step).value.freeSpace);
    case StartScan(sign) => ReadersKeep(o, s, Next(o, s, step).value);
    case ScanPage(k) => ReadersKeep(o, s, Next(o, s, step).value);
  }

  // --------------------------------------------------------- conservation, step by step

  /** A step that neither moves a tuple nor finishes an insertion. */
  lemma QuietConserves(built: Bag, s: State, r: State)
    requires Conserved(built, s) && r.pages == s.pages && r.removed == s.removed
    requires Inserted(r) == Inserted(s)
    ensures Conserved(built, r)
  {
  }

  /** An inserter goes from one phase before the end to another. */
  lemma PhaseQuiet(built: Bag, s: State, i: nat, r: State)
    requires Conserved(built, s) && i < |s.inserters| == |r.inserters|
    requires r.pages == s.pages && r.removed == s.removed && r.inserters == s.inserters[i := r.inserters[i]]
    requires !s.inserters[i].Finished? && !r.inserters[i].Finished?
    ensures Conserved(built, r)
  {
    SumChange(Done, s.inserters, i, r.inserters[i]);
    assert Inserted(r) + multiset{} == Inserted(r);
    assert Inserted(s) + multiset{} == Inserted(s);
  }

  /** A tuple is placed on a page by an inserter that thereby finishes. */
  lemma PlacedConserves(built: Bag, s: State, i: nat, blk: nat, p: Page, r: State)
    requires Conserved(built, s) && i < |s.inserters| && blk < |s.pages|
    requires !s.inserters[i].Failed? && !s.inserters[i].Finished?
    requires OnPage(p) == OnPage(s.pages[blk]) + multiset{s.inserters[i].tuple}
    requires r.pages == s.pages[blk := p] && r.inserters == s.inserters[i := Finished(s.inserters[i].tuple)]
    requires r.removed == s.removed
    ensures Conserved(built, r)
  {
    var t := s.inserters[i].tuple;
    SumChange(Done, s.inserters, i, Finished(t));
    assert Inserted(r) + multiset{} == Inserted(r);
    SumChange(OnPage, s.pages, blk, p);
    OneMore(Stored(r), OnPage(s.pages[blk]), multiset{t}, Stored(s));
    assert (Stored(s) + multiset{t}) + s.removed == (Stored(s) + s.removed) + multiset{t};
    assert (built + Inserted(s)) + multiset{t} == built + (Inserted(s) + multiset{t});
  }

  lemma OneMore(a: Bag, p: Bag, t: Bag, b: Bag)
    requires a + p == b + (p + t)
    ensures a == b + t
  {
    forall x: BloomTuple
      ensures a[x] == (b + t)[x]
    {
      assert (a + p)[x] == a[x] + p[x];
    }
  }

  lemma OneLess(a: Bag, p: Bag, d: Bag, b: Bag, q: Bag)
    requires a + p == b + q && q + d == p
    ensures a + d == b
  {
    forall x: BloomTuple
      ensures (a + d)[x] == b[x]
    {
      assert (a + p)[x] == a[x] + p[x];
    }
  }

  lemma StartConserves(built: Bag, s: State, t: BloomTuple)
    requires Conserved(built, s)
    ensures Conserved(built, s.(inserters := s.inserters + [Formed(t)]))
  {
    SumMore(Done, s.inserters, Formed(t));
    assert Inserted(s) + multiset{} == Inserted(s);
  }

  lemma VacuumPageConserves(o: Options, built: Bag, s: State, v: nat)
    requires Structure(o, s) && Conserved(built, s) && DoVacuumPage(o, s, v).Some?
    ensures Conserved(built, DoVacuumPage(o, s, v).value)
  {
    var (x, r) := (s.vacuums[v], DoVacuumPage(o, s, v).value);
    var p := s.pages[x.next];
    if !Reusable(p) {
      var (q, d) := (Vacuumed(p, x.dead), multiset(Drop(p.tuples, x.dead)));
      VacuumedOk(o, p, x.dead);
      SumChange(OnPage, s.pages, x.next, q);
      OneLess(Stored(r), OnPage(p), d, Stored(s), OnPage(q));
      assert (Stored(r) + d) + s.removed == Stored(r) + (s.removed + d);
    }
  }

  lemma TryFirstConserves(o: Options, built: Bag, s: State, i: nat)
    requires ValidOptions(o) && Structure(o, s) && Conserved(built, s) && DoTryFirst(o, s, i).Some?
    ensures Conserved(built, DoTryFirst(o, s, i).value)
  {
    var (t, blk, r) := (s.inserters[i].tuple, s.inserters[i].blk, DoTryFirst(o, s, i).value);
    match AddTo(o, s.pages[blk], t)
    case Some(p) =>
      AddToOk(o, s.pages[blk], t, p);
      PlacedConserves(built, s, i, blk, p, r);
    case None =>
      PhaseQuiet(built, s, i, r);
  }

  lemma TryNextConserves(o: Options, built: Bag, s: State, i: nat)
    requires ValidOptions(o) && Structure(o, s) && Conserved(built, s) && DoTryNext(o, s, i).Some?
    ensures Conserved(built, DoTryNext(o, s, i).value)
  {
    var (t, n, r) := (s.inserters[i].tuple, s.inserters[i].next, DoTryNext(o, s, i).value);
    var blk := s.meta.notFull[n];
    match AddTo(o, s.pages[blk], t)
    case Some(p) =>
      AddToOk(o, s.pages[blk], t, p);
      PlacedConserves(built, s, i, blk, p, r);
    case None =>
      PhaseQuiet(built, s, i, r);
  }

  lemma FillConserves(o: Options, built: Bag, s: State, i: nat)
    requires ValidOptions(o) && Structure(o, s) && Conserved(built, s) && DoFill(o, s, i).Some?
    ensures Conserved(built, DoFill(o, s, i).value)
  {
    var (t, blk) := (s.inserters[i].tuple, s.inserters[i].blk);
    assert InserterOk(s, i);
    var p := AddTo(o, New, t).value;
    AddToOk(o, New, t, p);
    PlacedConserves(built, s, i, blk, p, DoFill(o, s, i).value);
  }

  lemma AllocateConserves(built: Bag, s: State, i: nat, blk: nat)
    requires Conserved(built, s) && DoAllocate(s, i, blk).Some?
    ensures Conserved(built, DoAllocate(s, i, blk).value)
  {
    var r := DoAllocate(s, i, blk).value;
    PhaseQuiet(built, s, i, r.(pages := s.pages));
    SumMore(OnPage, s.pages, New);
    assert Stored(s) + multiset{} == Stored(s);
  }

  /** Every step conserves the tuples. */
  lemma StepConserves(o: Options, built: Bag, s: State, step: Step)
    requires ValidOptions(o) && Structure(o, s) && Conserved(built, s) && Next(o, s, step).Some?
    ensures Conserved(built, Next(o, s, step).value)
  {
    var r := Next(o, s, step).value;
    match step
    case Start(t) => StartConserves(built, s, t);
    case Peek(i) => PhaseQuiet(built, s, i, r);
    case TryFirst(i) => TryFirstConserves(o, built, s, i);
    case TakeMeta(i) => PhaseQuiet(built, s, i, r);
    case TryNext(i) => TryNextConserves(o, built, s, i);
    case Allocate(i, blk) => AllocateConserves(built, s, i, blk);
    case Fill(i) => FillConserves(o, built, s, i);
    case Abandon(i) => PhaseQuiet(built, s, i, r);
    case VacuumPage(v) => VacuumPageConserves(o, built, s, v);
    case _ => QuietConserves(built, s, r);
  }

  // --------------------------------------------------------------------- whole runs

  /** In every state of every run from a sound state, the structure holds and what is
      stored together with what vacuum removed is what was built and inserted. */
  lemma {:induction false} RunSafe(o: Options, built: Bag, s: State, steps: seq<Step>)
    requires ValidOptions(o) && Inv(o, built, s) && Run(o, s, steps).Some?
    ensures Inv(o, built, Run(o, s, steps).value)
  {
    if steps == [] {
    } else {
      var n := |steps| - 1;
      RunSafe(o, built, s, steps[..n]);
      var r := Run(o, s, steps[..n]).value;
      StepKeepsStructure(o, r, steps[n]);
      StepConserves(o, built, r, steps[n]);
    }
  }

  /** The inserter that has taken a block never meets a page too full for its tuple. */
  lemma FreshBlockTakesTuple(o: Options, s: State, i: nat)
    requires ValidOptions(o) && Structure(o, s) && i < |s.inserters| && s.inserters[i].Allocated?
    ensures DoFill(o, s, i).Some?
  {
    FreshPageHasRoom(o);
    assert InserterOk(s, i);
  }
}
