/** Pages of a bloom index and the operations on one page, as values and in place. */
module BloomPages {
  import opened Optional
  import opened BloomSign

  type Tid = (nat, nat)

  /** Block 0 is the metapage; every other block is new or holds tuples. */
  datatype Page = Meta | New | Data(deleted: bool, tuples: seq<BloomTuple>)

  const PAGE_SPACE: nat := 8160
  const TUPLE_HEADER: nat := 6

  function TupleSize(o: Options): nat { TUPLE_HEADER + 2 * o.bloomLength }

  /** `BloomPageGetFreeSpace` leaves room for one more tuple after `n`. */
  predicate Room(o: Options, n: nat) { PAGE_SPACE - n * TupleSize(o) >= TupleSize(o) }

  function Tuples(p: Page): seq<BloomTuple> {
    if p.Data? then p.tuples else []
  }

  /** A page that an inserter may append to: new and deleted pages are initialised
      first (`BloomInitPage`). */
  function Prepared(p: Page): Page
    requires !p.Meta?
  {
    if p.New? || p.deleted then Data(false, []) else p
  }

  /** `BloomPageAddItem` on the prepared page; nothing if the tuple does not fit. */
  function AddTo(o: Options, p: Page, t: BloomTuple): Option<Page>
    requires !p.Meta?
  {
    var q := Prepared(p);
    if Room(o, |q.tuples|) then Some(Data(false, q.tuples + [t])) else None
  }

  lemma FreshPageHasRoom(o: Options)
    requires ValidOptions(o)
    ensures Room(o, 0)
  {
  }

  /** The tuples whose heap TID is not dead, in order. */
  function Keep(s: seq<BloomTuple>, dead: set<Tid>): seq<BloomTuple> {
    if s == [] then []
    else Keep(s[..|s| - 1], dead) + (if s[|s| - 1].tid in dead then [] else [s[|s| - 1]])
  }

  function Drop(s: seq<BloomTuple>, dead: set<Tid>): seq<BloomTuple> {
    if s == [] then []
    else Drop(s[..|s| - 1], dead) + (if s[|s| - 1].tid in dead then [s[|s| - 1]] else [])
  }

  /** Nothing is lost, copied or reordered apart from the dead tuples. */
  lemma {:induction false} KeepAndDrop(s: seq<BloomTuple>, dead: set<Tid>)
    ensures multiset(Keep(s, dead)) + multiset(Drop(s, dead)) == multiset(s)
    ensures |Keep(s, dead)| + |Drop(s, dead)| == |s|
  {
    if s == [] {
    } else {
      var n := |s| - 1;
      KeepAndDrop(s[..n], dead);
      SplitLast(s);
    }
  }

  lemma SplitLast(s: seq<BloomTuple>)
    requires s != []
    ensures multiset(s) == multiset(s[..|s| - 1]) + multiset{s[|s| - 1]}
  {
    assert s == s[..|s| - 1] + [s[|s| - 1]];
  }

  lemma {:induction false} KeepMeaning(s: seq<BloomTuple>, dead: set<Tid>, t: BloomTuple)
    ensures t in Keep(s, dead) <==> t in s && t.tid !in dead
    ensures t in Drop(s, dead) <==> t in s && t.tid in dead
  {
    if s == [] {
    } else {
      KeepMeaning(s[..|s| - 1], dead, t);
    }
  }

  lemma KeepLength(s: seq<BloomTuple>, dead: set<Tid>)
    ensures |Keep(s, dead)| + |Drop(s, dead)| == |s|
  {
    KeepAndDrop(s, dead);
  }

  lemma KeepMore(s: seq<BloomTuple>, dead: set<Tid>, n: nat)
    requires n < |s|
    ensures Keep(s[..n + 1], dead) == if s[n].tid in dead then Keep(s[..n], dead) else Keep(s[..n], dead) + [s[n]]
  {
    assert s[..n + 1][..n] == s[..n];
  }

  /** What `blbulkdelete` makes of one page: an emptied page is marked deleted. */
  function Vacuumed(p: Page, dead: set<Tid>): Page
    requires p.Data? && !p.deleted
  {
    var kept := Keep(p.tuples, dead);
    Data(|kept| == 0 && |p.tuples| > 0, kept)
  }

  /** A page in a buffer: an array of tuples of which the first `maxoff` are used. */
  class PageBuffer {
    const o: Options
    const data: array<BloomTuple>
    var isNew: bool
    var deleted: bool
    var maxoff: nat

    ghost predicate Valid()
      reads this, data
    {
      && ValidOptions(o) && data.Length == PAGE_SPACE / TupleSize(o)
      && maxoff <= data.Length && (isNew ==> maxoff == 0 && !deleted)
    }

    function Value(): Page
      requires Valid()
      reads this, data
    {
      if isNew then New else Data(deleted, data[..maxoff])
    }

    constructor (o: Options)
      requires ValidOptions(o)
      ensures Valid() && Value() == New && this.o == o && fresh(data)
    {
      this.o := o;
      data := new BloomTuple[PAGE_SPACE / TupleSize(o)];
      isNew, deleted, maxoff := true, false, 0;
    }

    /** `BloomInitPage` with no flags. */
    method Init()
      requires Valid()
      modifies this
      ensures Valid() && Value() == Data(false, [])
    {
      isNew, deleted, maxoff := false, false, 0;
    }

    /** `BloomPageAddItem`. */
    method AddItem(t: BloomTuple) returns (added: bool)
      requires Valid() && !isNew && !deleted
      modifies this, data
      ensures Valid() && !isNew && !deleted
      ensures added <==> Room(o, |old(Value()).tuples|)
      ensures Value().tuples == if added then old(Value()).tuples + [t] else old(Value()).tuples
    {
      RoomIsLength(o, maxoff);
      if PAGE_SPACE - maxoff * TupleSize(o) < TupleSize(o) {
        return false;
      }
      data[maxoff] := t;
      maxoff := maxoff + 1;
      return true;
    }

    /** What `blinsert` does with one page under its lock; a page that has no room is
        left as it was. */
    method TryInsert(t: BloomTuple) returns (added: bool)
      requires Valid()
      modifies this, data
      ensures Valid()
      ensures added <==> AddTo(o, old(Value()), t).Some?
      ensures Value() == if added then AddTo(o, old(Value()), t).value else old(Value())
    {
      FreshPageHasRoom(o);
      if isNew || deleted {
        Init();
      }
      added := AddItem(t);
    }

    /** The part of `blbulkdelete` done on one page: two pointers move over the
        tuples, the second copying what is kept. */
    method Vacuum(dead: set<Tid>) returns (removed: nat)
      requires Valid() && !isNew && !deleted
      modifies this, data
      ensures Valid() && !isNew && Value() == Vacuumed(old(Value()), dead)
      ensures removed == |Drop(old(Value()).tuples, dead)|
    {
      var kept;
      KeepLength(data[..maxoff], dead);
      kept, removed := Compact(data, maxoff, dead);
      maxoff := maxoff - removed;
      if removed > 0 && maxoff == 0 {
        deleted := true;
      }
    }
  }

  /** Two indexes move over the first `end` tuples; what is kept is copied to the
      second one, unless it is there already. */
  method Compact(data: array<BloomTuple>, end: nat, dead: set<Tid>) returns (to: nat, removed: nat)
    requires end <= data.Length
    modifies data
    ensures to + removed == end
    ensures data[..to] == Keep(old(data[..end]), dead)
  {
    ghost var all, kept := data[..end], [];
    var from := 0;
    to, removed := 0, 0;
    while from < end
      invariant 0 <= to <= from <= end && |kept| == to && removed == from - to
      invariant kept == Keep(all[..from], dead)
      invariant forall i :: 0 <= i < to ==> data[i] == kept[i]
      invariant forall i :: from <= i < end ==> data[i] == all[i]
    {
      KeepMore(all, dead, from);
      if data[from].tid in dead {
        removed := removed + 1;
      } else {
        if to != from {
          data[to] := data[from];
        }
        to := to + 1;
        kept := kept + [all[from]];
      }
      from := from + 1;
    }
    assert all[..end] == all;
  }

  lemma RoomIsLength(o: Options, n: nat)
    requires ValidOptions(o) && n <= PAGE_SPACE / TupleSize(o)
    ensures Room(o, n) <==> n < PAGE_SPACE / TupleSize(o)
  {
    var size, len := TupleSize(o), PAGE_SPACE / TupleSize(o);
    assert len * size <= PAGE_SPACE < (len + 1) * size;
    if n < len {
      assert (n + 1) * size <= len * size;
    }
  }
}
