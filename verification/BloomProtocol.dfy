/** Concurrent inserters, vacuums and scans of one bloom index, as a state machine.
    A step is what one process does under one buffer lock; the exclusive locks that
    an inserter keeps over several steps, on the metapage and on a block it has just
    taken, are part of the state. */
module BloomProtocol {
  import opened Optional
  import opened BloomSign
  import opened BloomPages

  const LIST_MAX: nat := 2004

  /** The part of the metapage that changes: block numbers of pages believed not to
      be full, of which those before `nStart` are used up. */
  datatype MetaData = MetaData(nStart: nat, notFull: seq<nat>)

  datatype Inserter =
    | Formed(tuple: BloomTuple)
    | Peeked(tuple: BloomTuple, blk: nat)
    | NeedsMeta(tuple: BloomTuple, tried: Option<nat>)
    | Holding(tuple: BloomTuple, next: nat)
    | Allocated(tuple: BloomTuple, blk: nat)
    | Finished(tuple: BloomTuple)
    | Failed

  datatype Vacuum = Vacuum(dead: set<Tid>, next: nat, npages: nat, notFull: seq<nat>)

  datatype Scan = Scan(sign: Words, next: nat, npages: nat, found: set<Tid>)

  datatype State = State(
    pages: seq<Page>,
    meta: MetaData,
    holder: Option<nat>,
    inserters: seq<Inserter>,
    vacuums: seq<Vacuum>,
    scans: seq<Scan>,
    freeSpace: set<nat>,
    removed: multiset<BloomTuple>)

  datatype Step =
    | Start(tuple: BloomTuple)
    | Peek(i: nat)
    | TryFirst(i: nat)
    | TakeMeta(i: nat)
    | TryNext(i: nat)
    | Allocate(i: nat, blk: nat)
    | Fill(i: nat)
    | Abandon(i: nat)
    | StartVacuum(dead: set<Tid>)
    | VacuumPage(v: nat)
    | EndVacuum(v: nat)
    | Cleanup(blk: nat)
    | StartScan(sign: Words)
    | ScanPage(k: nat)

  // ------------------------------------------------------------------ the steps

  predicate HasMeta(x: Inserter) { x.Holding? || x.Allocated? }

  /** The block is locked by the inserter that has just taken it. */
  predicate Locked(s: State, blk: nat) {
    && s.holder.Some? && s.holder.value < |s.inserters|
    && var x := s.inserters[s.holder.value]; x.Allocated? && x.blk == blk
  }

  predicate Unlocked(s: State, blk: nat) {
    0 < blk < |s.pages| && !s.pages[blk].Meta? && !Locked(s, blk)
  }

  function SetInserter(s: State, i: nat, x: Inserter): State
    requires i < |s.inserters|
  {
    s.(inserters := s.inserters[i := x])
  }

  /** The tuple is on the block: the inserter has finished. */
  function Placed(s: State, i: nat, blk: nat, p: Page): State
    requires i < |s.inserters| && !s.inserters[i].Failed? && blk < |s.pages|
  {
    SetInserter(s, i, Finished(s.inserters[i].tuple)).(pages := s.pages[blk := p])
  }

  /** Reads the first entry of the list under a share lock of the metapage. */
  function DoPeek(s: State, i: nat): Option<State> {
    if i < |s.inserters| && s.inserters[i].Formed? && s.holder.None? then
      var t := s.inserters[i].tuple;
      Some(SetInserter(s, i,
        if s.meta.nStart < |s.meta.notFull| then Peeked(t, s.meta.notFull[s.meta.nStart])
        else NeedsMeta(t, None)))
    else None
  }

  /** Tries that block, the metapage being unlocked by now. */
  function DoTryFirst(o: Options, s: State, i: nat): Option<State> {
    if i < |s.inserters| && s.inserters[i].Peeked? && Unlocked(s, s.inserters[i].blk) then
      var (t, blk) := (s.inserters[i].tuple, s.inserters[i].blk);
      match AddTo(o, s.pages[blk], t)
      case Some(p) => Some(Placed(s, i, blk, p))
      case None => Some(SetInserter(s, i, NeedsMeta(t, Some(blk))))
    else None
  }

  /** Locks the metapage; skips the first entry if it is the block tried before. */
  function DoTakeMeta(s: State, i: nat): Option<State> {
    if i < |s.inserters| && s.inserters[i].NeedsMeta? && s.holder.None? then
      var (x, n) := (s.inserters[i], s.meta.nStart);
      var skip := n < |s.meta.notFull| && x.tried == Some(s.meta.notFull[n]);
      Some(SetInserter(s, i, Holding(x.tuple, if skip then n + 1 else n)).(holder := Some(i)))
    else None
  }

  /** Tries the next entry of the list with the metapage locked. */
  function DoTryNext(o: Options, s: State, i: nat): Option<State> {
    if i < |s.inserters| && s.inserters[i].Holding? && s.inserters[i].next < |s.meta.notFull| then
      var (t, n) := (s.inserters[i].tuple, s.inserters[i].next);
      var blk := s.meta.notFull[n];
      if !Unlocked(s, blk) then None
      else
        match AddTo(o, s.pages[blk], t)
        case Some(p) => Some(Placed(s, i, blk, p).(holder := None, meta := s.meta.(nStart := n)))
        case None => Some(SetInserter(s, i, Holding(t, n + 1)))
    else None
  }

  /** `BloomNewBuffer`: a new or deleted block that the free space map offers, or one
      more block. */
  function DoAllocate(s: State, i: nat, blk: nat): Option<State> {
    if i < |s.inserters| && s.inserters[i].Holding? && |s.meta.notFull| <= s.inserters[i].next then
      var r := SetInserter(s, i, Allocated(s.inserters[i].tuple, blk));
      if blk == |s.pages| then
        Some(r.(pages := s.pages + [New]))
      else if blk in s.freeSpace && Unlocked(s, blk) && Reusable(s.pages[blk]) then
        Some(r.(freeSpace := s.freeSpace - {blk}))
      else None
    else None
  }

  predicate Reusable(p: Page) { p.New? || (p.Data? && p.deleted) }

  /** Initialises the block, stores the tuple and makes the block the whole list. */
  function DoFill(o: Options, s: State, i: nat): Option<State> {
    if i < |s.inserters| && s.inserters[i].Allocated? && s.inserters[i].blk < |s.pages| then
      match AddTo(o, New, s.inserters[i].tuple)
      case Some(p) =>
        var blk := s.inserters[i].blk;
        Some(Placed(s, i, blk, p).(holder := None, meta := MetaData(0, [blk])))
      case None => None
    else None
  }

  /** An error ends the insertion and releases its locks; a block added to the file
      stays there, new. */
  function DoAbandon(s: State, i: nat): Option<State> {
    if i < |s.inserters| && !s.inserters[i].Finished? then
      Some(SetInserter(s, i, Failed).(holder := if s.holder == Some(i) then None else s.holder))
    else None
  }

  /** The part of `blbulkdelete` done under the lock of one page. */
  function DoVacuumPage(o: Options, s: State, v: nat): Option<State> {
    if v < |s.vacuums| && s.vacuums[v].next < s.vacuums[v].npages && Unlocked(s, s.vacuums[v].next) then
      var x := s.vacuums[v];
      var (blk, p) := (x.next, s.pages[x.next]);
      if Reusable(p) then
        Some(s.(vacuums := s.vacuums[v := x.(next := blk + 1)]))
      else
        var q := Vacuumed(p, x.dead);
        var keep := |q.tuples| != 0 && Room(o, |q.tuples|) && |x.notFull| < LIST_MAX;
        Some(s.(pages := s.pages[blk := q],
                removed := s.removed + multiset(Drop(p.tuples, x.dead)),
                vacuums := s.vacuums[v := x.(next := blk + 1, notFull := if keep then x.notFull + [blk] else x.notFull)]))
    else None
  }

  /** Replaces the list in the metapage. */
  function DoEndVacuum(s: State, v: nat): Option<State> {
    if v < |s.vacuums| && s.vacuums[v].npages <= s.vacuums[v].next && s.holder.None? then
      Some(s.(meta := MetaData(0, s.vacuums[v].notFull)))
    else None
  }

  /** What `blvacuumcleanup` does with one page. */
  function DoCleanup(s: State, blk: nat): Option<State> {
    if Unlocked(s, blk) then
      Some(if Reusable(s.pages[blk]) then s.(freeSpace := s.freeSpace + {blk}) else s)
    else None
  }

  /** The heap TIDs of the page's tuples whose signature has every bit of the scan's. */
  function Matching(p: Page, sign: Words): set<Tid> {
    if Reusable(p) then {} else set t | t in Tuples(p) && Matches(sign, t) :: t.tid
  }

  predicate Matches(sign: Words, t: BloomTuple) { |t.sign| == |sign| && SubsetWords(sign, t.sign) }

  function DoScanPage(s: State, k: nat): Option<State> {
    if k < |s.scans| && s.scans[k].next < s.scans[k].npages && Unlocked(s, s.scans[k].next) then
      var x := s.scans[k];
      Some(s.(scans := s.scans[k := x.(next := x.next + 1, found := x.found + Matching(s.pages[x.next], x.sign))]))
    else None
  }

  /** The state after a step, if the step can be taken. */
  function Next(o: Options, s: State, step: Step): Option<State> {
    match step
    case Start(t) => Some(s.(inserters := s.inserters + [Formed(t)]))
    case Peek(i) => DoPeek(s, i)
    case TryFirst(i) => DoTryFirst(o, s, i)
    case TakeMeta(i) => DoTakeMeta(s, i)
    case TryNext(i) => DoTryNext(o, s, i)
    case Allocate(i, blk) => DoAllocate(s, i, blk)
    case Fill(i) => DoFill(o, s, i)
    case Abandon(i) => DoAbandon(s, i)
    case StartVacuum(dead) => Some(s.(vacuums := s.vacuums + [Vacuum(dead, 1, |s.pages|, [])]))
    case VacuumPage(v) => DoVacuumPage(o, s, v)
    case EndVacuum(v) => DoEndVacuum(s, v)
    case Cleanup(blk) => DoCleanup(s, blk)
    case StartScan(sign) => Some(s.(scans := s.scans + [Scan(sign, 1, |s.pages|, {})]))
    case ScanPage(k) => DoScanPage(s, k)
  }

  /** The state after a sequence of steps, in any interleaving. */
  function Run(o: Options, s: State, steps: seq<Step>): Option<State> {
    if steps == [] then Some(s)
    else
      match Run(o, s, steps[..|steps| - 1])
      case Some(r) => Next(o, r, steps[|steps| - 1])
      case None => None
  }

  // -------------------------------------------------------------- the invariant

  predicate Fits(o: Options, n: nat) { n * TupleSize(o) <= PAGE_SPACE }

  predicate PageOk(o: Options, p: Page) {
    !p.Meta? && (p.Data? ==> Fits(o, |p.tuples|) && (p.deleted ==> p.tuples == []))
  }

  predicate PagesOk(o: Options, pages: seq<Page>) {
    |pages| >= 1 && pages[0].Meta? && forall b :: 1 <= b < |pages| ==> PageOk(o, pages[b])
  }

  /** Blocks that hold, or may come to hold, tuples. */
  predicate Blocks(n: nat, list: seq<nat>) {
    |list| <= LIST_MAX && forall j :: 0 <= j < |list| ==> 1 <= list[j] < n
  }

  predicate InserterOk(s: State, i: nat)
    requires i < |s.inserters|
  {
    var x := s.inserters[i];
    && (HasMeta(x) <==> s.holder == Some(i))
    && (x.Peeked? ==> 1 <= x.blk < |s.pages|)
    && (x.Allocated? ==> 1 <= x.blk < |s.pages| && Reusable(s.pages[x.blk]))
  }

  predicate ProcessesOk(s: State) {
    && (s.holder.Some? ==> s.holder.value < |s.inserters|)
    && (forall i :: 0 <= i < |s.inserters| ==> InserterOk(s, i))
    && (forall v :: 0 <= v < |s.vacuums| ==>
          1 <= s.vacuums[v].next && s.vacuums[v].npages <= |s.pages| && Blocks(|s.pages|, s.vacuums[v].notFull))
    && (forall k :: 0 <= k < |s.scans| ==> 1 <= s.scans[k].next && s.scans[k].npages <= |s.pages|)
  }

  /** The structure of the index: the metapage is block 0 and nothing else is; every
      block number that a process or the metapage remembers is that of another block. */
  predicate Structure(o: Options, s: State) {
    && PagesOk(o, s.pages)
    && s.meta.nStart <= |s.meta.notFull| && Blocks(|s.pages|, s.meta.notFull)
    && (forall b :: b in s.freeSpace ==> 1 <= b < |s.pages|)
    && ProcessesOk(s)
  }

  // ------------------------------------------------------------------ bookkeeping

  type Bag = multiset<BloomTuple>

  function Sum<T>(f: T -> Bag, s: seq<T>): Bag {
    if s == [] then multiset{} else Sum(f, s[..|s| - 1]) + f(s[|s| - 1])
  }

  lemma SumMore<T>(f: T -> Bag, s: seq<T>, x: T)
    ensures Sum(f, s + [x]) == Sum(f, s) + f(x)
  {
    assert (s + [x])[..|s|] == s;
  }

  lemma Regroup(a: Bag, b: Bag, c: Bag, d: Bag, e: Bag)
    requires a + c == d + e
    ensures (a + b) + c == (d + b) + e
  {
    assert (a + b) + c == (a + c) + b;
  }

  lemma {:induction false} SumChange<T>(f: T -> Bag, s: seq<T>, i: nat, x: T)
    requires i < |s|
    ensures Sum(f, s[i := x]) + f(s[i]) == Sum(f, s) + f(x)
  {
    var n, r := |s| - 1, s[i := x];
    assert Sum(f, r) == Sum(f, r[..n]) + f(r[n]);
    if i == n {
      assert r[..n] == s[..n];
    } else {
      SumChange(f, s[..n], i, x);
      assert r[..n] == s[..n][i := x];
      Regroup(Sum(f, r[..n]), f(s[n]), f(s[i]), Sum(f, s[..n]), f(x));
    }
  }

  const OnPage: Page -> Bag := (p: Page) => multiset(Tuples(p))
  const Done: Inserter -> Bag := (x: Inserter) => if x.Finished? then multiset{x.tuple} else multiset{}

  /** The tuples in the index. */
  function Stored(s: State): Bag { Sum(OnPage, s.pages) }

  /** The tuples whose insertion has finished. */
  function Inserted(s: State): Bag { Sum(Done, s.inserters) }

  /** What was built and inserted is what is there and what vacuum removed. */
  predicate Conserved(built: Bag, s: State) {
    Stored(s) + s.removed == built + Inserted(s)
  }

  predicate Inv(o: Options, built: Bag, s: State) {
    Structure(o, s) && Conserved(built, s)
  }
}
