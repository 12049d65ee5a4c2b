/** What a scan that runs beside inserters and vacuums finds. */
module BloomScan {
  import opened Optional
  import opened BloomSign
  import opened BloomPages
  import opened BloomProtocol
  import opened BloomSafety

  /** The step is not a vacuum of a tuple with this heap TID. */
  predicate Spares(s: State, step: Step, tid: Tid) {
    step.VacuumPage? && step.v < |s.vacuums| ==> tid !in s.vacuums[step.v].dead
  }

  predicate On(s: State, b: nat, t: BloomTuple) {
    1 <= b < |s.pages| && t in Tuples(s.pages[b])
  }

  lemma VacuumSpares(o: Options, s: State, v: nat, b: nat, t: BloomTuple)
    requires Structure(o, s) && DoVacuumPage(o, s, v).Some? && On(s, b, t) && t.tid !in s.vacuums[v].dead
    ensures On(DoVacuumPage(o, s, v).value, b, t)
  {
    KeepMeaning(Tuples(s.pages[b]), s.vacuums[v].dead, t);
  }

  /** Tuples never move: one that vacuum spares stays on its page. */
  lemma TupleStays(o: Options, s: State, step: Step, b: nat, t: BloomTuple)
    requires ValidOptions(o) && Structure(o, s) && Next(o, s, step).Some?
    requires On(s, b, t) && Spares(s, step, t.tid)
    ensures On(Next(o, s, step).value, b, t)
  {
    match step
    case TryFirst(i) => TryFirstStays(o, s, i, b, t);
    case TryNext(i) => TryNextStays(o, s, i, b, t);
    case Fill(i) => assert InserterOk(s, i);
    case VacuumPage(v) => VacuumSpares(o, s, v, b, t);
    case _ =>
  }

  lemma TryFirstStays(o: Options, s: State, i: nat, b: nat, t: BloomTuple)
    requires ValidOptions(o) && Structure(o, s) && DoTryFirst(o, s, i).Some? && On(s, b, t)
    ensures On(DoTryFirst(o, s, i).value, b, t)
  {
    var (u, blk) := (s.inserters[i].tuple, s.inserters[i].blk);
    var added := AddTo(o, s.pages[blk], u);
    if added.Some? {
      AddToOk(o, s.pages[blk], u, added.value);
    }
  }

  lemma TryNextStays(o: Options, s: State, i: nat, b: nat, t: BloomTuple)
    requires ValidOptions(o) && Structure(o, s) && DoTryNext(o, s, i).Some? && On(s, b, t)
    ensures On(DoTryNext(o, s, i).value, b, t)
  {
    var (u, blk) := (s.inserters[i].tuple, s.meta.notFull[s.inserters[i].next]);
    var added := AddTo(o, s.pages[blk], u);
    if added.Some? {
      AddToOk(o, s.pages[blk], u, added.value);
    }
  }

  /** No step of the run vacuums a tuple with this heap TID. */
  predicate Spared(o: Options, s: State, steps: seq<Step>, tid: Tid) {
    steps != [] ==>
      var n := |steps| - 1;
      Spared(o, s, steps[..n], tid) && (Run(o, s, steps[..n]).Some? ==> Spares(Run(o, s, steps[..n]).value, steps[n], tid))
  }

  /** The scan will find the tuple on the block: it has found it already, or has yet
      to read the block. */
  predicate WillFind(s: State, k: nat, sign: Words, npages: nat, b: nat, t: BloomTuple) {
    && k < |s.scans| && s.scans[k].sign == sign && s.scans[k].npages == npages
    && On(s, b, t) && (b < s.scans[k].next ==> t.tid in s.scans[k].found)
  }

  lemma StillWillFind(o: Options, s: State, step: Step, k: nat, sign: Words, npages: nat, b: nat, t: BloomTuple)
    requires ValidOptions(o) && Structure(o, s) && Next(o, s, step).Some? && Spares(s, step, t.tid)
    requires WillFind(s, k, sign, npages, b, t) && Matches(sign, t)
    ensures WillFind(Next(o, s, step).value, k, sign, npages, b, t)
  {
    TupleStays(o, s, step, b, t);
    ScansMove(o, s, step, k);
    ReadFinds(o, s, b, sign, t);
  }

  /** Reading a page with the tuple finds it. */
  lemma ReadFinds(o: Options, s: State, b: nat, sign: Words, t: BloomTuple)
    requires Structure(o, s) && On(s, b, t) && Matches(sign, t)
    ensures t.tid in Matching(s.pages[b], sign)
  {
  }

  /** How a step changes a scan. */
  lemma ScansMove(o: Options, s: State, step: Step, k: nat)
    requires Next(o, s, step).Some? && k < |s.scans|
    ensures
      var r := Next(o, s, step).value;
      var x := s.scans[k];
      k < |r.scans| &&
      (r.scans[k] == x ||
       (1 <= x.next < |s.pages| && r.scans[k] == x.(next := x.next + 1, found := x.found + Matching(s.pages[x.next], x.sign)))
       || x.next == 0)
  {
  }

  lemma {:induction false} RunWillFind(o: Options, built: Bag, s: State, steps: seq<Step>,
                                       k: nat, sign: Words, npages: nat, b: nat, t: BloomTuple)
    requires ValidOptions(o) && Inv(o, built, s) && Run(o, s, steps).Some? && Spared(o, s, steps, t.tid)
    requires WillFind(s, k, sign, npages, b, t) && Matches(sign, t)
    ensures WillFind(Run(o, s, steps).value, k, sign, npages, b, t)
  {
    if steps == [] {
    } else {
      var n := |steps| - 1;
      RunWillFind(o, built, s, steps[..n], k, sign, npages, b, t);
      RunSafe(o, built, s, steps[..n]);
      StillWillFind(o, Run(o, s, steps[..n]).value, steps[n], k, sign, npages, b, t);
    }
  }

  lemma {:induction false} StoredSomewhere(pages: seq<Page>, t: BloomTuple) returns (b: nat)
    requires t in Sum(OnPage, pages)
    ensures b < |pages| && t in Tuples(pages[b])
  {
    var n := |pages| - 1;
    if t in Tuples(pages[n]) {
      b := n;
    } else {
      b := StoredSomewhere(pages[..n], t);
    }
  }

  /** The tuple has been built in or inserted more often than removed: it is live, even
      if an equal one was vacuumed before and its heap TID used again. */
  predicate LiveTuple(built: Bag, s: State, t: BloomTuple) {
    (built + Inserted(s))[t] > s.removed[t]
  }

  /** A live tuple is on some page. */
  lemma LiveIsStored(o: Options, built: Bag, s: State, t: BloomTuple) returns (b: nat)
    requires Inv(o, built, s) && LiveTuple(built, s, t)
    ensures On(s, b, t)
  {
    assert (Stored(s) + s.removed)[t] == (built + Inserted(s))[t];
    b := StoredSomewhere(s.pages, t);
  }

  /** No false negatives, whatever runs beside the scan: a tuple that is live when the
      scan starts and that no vacuum removes meanwhile is found if its signature has
      all the bits of the scan's. */
  lemma ScanComplete(o: Options, built: Bag, s: State, sign: Words, steps: seq<Step>, t: BloomTuple)
    requires ValidOptions(o) && Inv(o, built, s) && Matches(sign, t)
    requires LiveTuple(built, s, t)
    requires var r := Next(o, s, StartScan(sign)).value; Run(o, r, steps).Some? && Spared(o, r, steps, t.tid)
    ensures
      var end := Run(o, Next(o, s, StartScan(sign)).value, steps).value;
      |s.scans| < |end.scans| &&
      var scan := end.scans[|s.scans|];
      scan.npages <= scan.next ==> t.tid in scan.found
  {
    var b := LiveIsStored(o, built, s, t);
    var r := Next(o, s, StartScan(sign)).value;
    StepKeepsStructure(o, s, StartScan(sign));
    StepConserves(o, built, s, StartScan(sign));
    RunWillFind(o, built, r, steps, |s.scans|, sign, |s.pages|, b, t);
  }

  /** The same in terms of rows: every row with the hashes that the scan asks for. */
  lemma RowFound(o: Options, built: Bag, s: State, keys: seq<Key>, row: Row, tid: Tid, steps: seq<Step>)
    requires Inv(o, built, s) && ValidRow(o, row) && AllSignable(o, keys) && AllSignable(o, RowKeys(row, |row|))
    requires forall k :: 0 <= k < |keys| ==> row[keys[k].0] == Some(keys[k].1)
    requires var t := BloomTuple(tid, SignOf(o, RowKeys(row, |row|))); LiveTuple(built, s, t)
    requires var r := Next(o, s, StartScan(SignOf(o, keys))).value; Run(o, r, steps).Some? && Spared(o, r, steps, tid)
    ensures
      var end := Run(o, Next(o, s, StartScan(SignOf(o, keys))).value, steps).value;
      |s.scans| < |end.scans| &&
      var scan := end.scans[|s.scans|];
      scan.npages <= scan.next ==> tid in scan.found
  {
    MatchingRowSubset(o, keys, row);
    ScanComplete(o, built, s, SignOf(o, keys), steps, BloomTuple(tid, SignOf(o, RowKeys(row, |row|))));
  }

  // ------------------------------------------------------------------ no strangers

  /** The tuple was built in or its insertion has finished. */
  predicate Known(built: Bag, s: State, t: BloomTuple) {
    t in built || exists i :: 0 <= i < |s.inserters| && s.inserters[i] == Finished(t)
  }

  ghost predicate Justified(built: Bag, s: State, sign: Words, tid: Tid) {
    exists t: BloomTuple :: t.tid == tid && Matches(sign, t) && Known(built, s, t)
  }

  /** Whatever a scan has found belongs to a tuple that matches and was inserted. */
  ghost predicate FoundOk(built: Bag, s: State) {
    forall k, tid :: 0 <= k < |s.scans| && tid in s.scans[k].found ==> Justified(built, s, s.scans[k].sign, tid)
  }

  lemma {:induction false} DoneSomewhere(inserters: seq<Inserter>, t: BloomTuple) returns (i: nat)
    requires t in Sum(Done, inserters)
    ensures i < |inserters| && inserters[i] == Finished(t)
  {
    var n := |inserters| - 1;
    if t in Done(inserters[n]) {
      i := n;
    } else {
      i := DoneSomewhere(inserters[..n], t);
    }
  }

  lemma {:induction false} OnPageInSum(pages: seq<Page>, b: nat, t: BloomTuple)
    requires b < |pages| && t in Tuples(pages[b])
    ensures t in Sum(OnPage, pages)
  {
    if b == |pages| - 1 {
    } else {
      OnPageInSum(pages[..|pages| - 1], b, t);
    }
  }

  /** Every tuple on a page is known. */
  lemma StoredIsKnown(o: Options, built: Bag, s: State, b: nat, t: BloomTuple)
    requires Inv(o, built, s) && b < |s.pages| && t in Tuples(s.pages[b])
    ensures Known(built, s, t)
  {
    OnPageInSum(s.pages, b, t);
    assert t in Stored(s) + s.removed;
    if t !in built {
      var i := DoneSomewhere(s.inserters, t);
    }
  }

  /** A finished insertion stays finished. */
  lemma FinishedStays(o: Options, s: State, step: Step, i: nat)
    requires Next(o, s, step).Some? && i < |s.inserters| && s.inserters[i].Finished?
    ensures i < |Next(o, s, step).value.inserters| && Next(o, s, step).value.inserters[i] == s.inserters[i]
  {
  }

  lemma StillJustified(o: Options, built: Bag, s: State, step: Step, sign: Words, tid: Tid)
    requires Next(o, s, step).Some? && Justified(built, s, sign, tid)
    ensures Justified(built, Next(o, s, step).value, sign, tid)
  {
    var t: BloomTuple :| t.tid == tid && Matches(sign, t) && Known(built, s, t);
    if t !in built {
      var i :| 0 <= i < |s.inserters| && s.inserters[i] == Finished(t);
      FinishedStays(o, s, step, i);
    }
    assert Known(built, Next(o, s, step).value, t);
  }

  lemma MatchingJustified(o: Options, built: Bag, s: State, b: nat, sign: Words, tid: Tid)
    requires Inv(o, built, s) && 1 <= b < |s.pages| && tid in Matching(s.pages[b], sign)
    ensures Justified(built, s, sign, tid)
  {
    var t :| t in Tuples(s.pages[b]) && Matches(sign, t) && t.tid == tid;
    StoredIsKnown(o, built, s, b, t);
  }

  lemma StepFoundOk(o: Options, built: Bag, s: State, step: Step)
    requires Inv(o, built, s) && FoundOk(built, s) && Next(o, s, step).Some?
    ensures FoundOk(built, Next(o, s, step).value)
  {
    var r := Next(o, s, step).value;
    forall k, tid | 0 <= k < |r.scans| && tid in r.scans[k].found
      ensures Justified(built, r, r.scans[k].sign, tid)
    {
      NewlyFound(o, s, step, k, tid);
      var x := s.scans[k];
      if tid !in x.found {
        MatchingJustified(o, built, s, x.next, x.sign, tid);
      }
      StillJustified(o, built, s, step, x.sign, tid);
    }
  }

  /** What a scan has found after a step it had found before, or is on the page read. */
  lemma NewlyFound(o: Options, s: State, step: Step, k: nat, tid: Tid)
    requires Structure(o, s) && Next(o, s, step).Some?
    requires k < |Next(o, s, step).value.scans| && tid in Next(o, s, step).value.scans[k].found
    ensures k < |s.scans| && Next(o, s, step).value.scans[k].sign == s.scans[k].sign
    ensures tid in s.scans[k].found ||
            (1 <= s.scans[k].next < |s.pages| && tid in Matching(s.pages[s.scans[k].next], s.scans[k].sign))
  {
  }

  /** Over every run: a scan returns no TID but those of matching tuples. */
  lemma {:induction false} ScanSound(o: Options, built: Bag, s: State, steps: seq<Step>)
    requires ValidOptions(o) && Inv(o, built, s) && FoundOk(built, s) && Run(o, s, steps).Some?
    ensures FoundOk(built, Run(o, s, steps).value)
  {
    if steps == [] {
    } else {
      var n := |steps| - 1;
      ScanSound(o, built, s, steps[..n]);
      RunSafe(o, built, s, steps[..n]);
      StepFoundOk(o, built, Run(o, s, steps[..n]).value, steps[n]);
    }
  }
}
