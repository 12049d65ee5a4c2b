/** Building a bloom index: tuples are collected on a cached page, which is appended
    to the file when the next tuple does not fit. */
module BloomBuild {
  import opened Optional
  import opened BloomSign
  import opened BloomPages
  import opened BloomProtocol

  /** The tuples of the pages, in order. */
  function AllTuples(pages: seq<Page>): seq<BloomTuple> {
    if pages == [] then [] else AllTuples(pages[..|pages| - 1]) + Tuples(pages[|pages| - 1])
  }

  predicate Filled(o: Options, p: Page) {
    p.Data? && !p.deleted && p.tuples != [] && Fits(o, |p.tuples|)
  }

  /** What the build writes after the metapage: pages of which all but the last are full. */
  predicate Packed(o: Options, pages: seq<Page>) {
    && (forall b :: 1 <= b < |pages| ==> Filled(o, pages[b]))
    && (forall b :: 1 <= b < |pages| - 1 ==> !Room(o, |Tuples(pages[b])|))
  }

  lemma AllTuplesMore(pages: seq<Page>, p: Page)
    ensures AllTuples(pages + [p]) == AllTuples(pages) + Tuples(p)
  {
    assert (pages + [p])[..|pages|] == pages;
  }

  /** `blbuild`, given the tuples that the heap scan yields. */
  method Build(o: Options, tuples: seq<BloomTuple>) returns (pages: seq<Page>)
    requires ValidOptions(o)
    ensures |pages| >= 1 && pages[0] == Meta
    ensures Packed(o, pages) && AllTuples(pages) == tuples
  {
    pages := [Meta];
    var cache := new PageBuffer(o);
    cache.Init();
    assert AllTuples(pages) == [];
    for i := 0 to |tuples|
      invariant cache.Valid() && cache.o == o && !cache.isNew && !cache.deleted && fresh(cache) && fresh(cache.data)
      invariant FullPages(o, pages)
      invariant Collected(pages, cache.Value().tuples, tuples, i)
      invariant i > 0 ==> cache.maxoff > 0
    {
      ghost var cached := cache.Value().tuples;
      var added := cache.AddItem(tuples[i]);
      if !added {
        FreshPageHasRoom(o);
        CacheFlushed(o, pages, cache.Value(), tuples, i);
        pages := pages + [cache.Value()];
        cache.Init();
        added := cache.AddItem(tuples[i]);
        cached := [];
      }
      CollectMore(pages, cached, tuples, i);
    }
    LastFlushed(o, pages, cache.Value(), tuples);
    if cache.maxoff > 0 {
      pages := pages + [cache.Value()];
    }
  }

  predicate FullPages(o: Options, pages: seq<Page>) {
    && |pages| >= 1 && pages[0] == Meta
    && forall b :: 1 <= b < |pages| ==> Filled(o, pages[b]) && !Room(o, |pages[b].tuples|)
  }

  /** The file and the cached page hold the first `i` tuples. */
  predicate Collected(pages: seq<Page>, cached: seq<BloomTuple>, tuples: seq<BloomTuple>, i: nat)
    requires i <= |tuples|
  {
    AllTuples(pages) + cached == tuples[..i]
  }

  lemma CollectMore(pages: seq<Page>, cached: seq<BloomTuple>, tuples: seq<BloomTuple>, i: nat)
    requires i < |tuples| && Collected(pages, cached, tuples, i)
    ensures Collected(pages, cached + [tuples[i]], tuples, i + 1)
  {
    assert AllTuples(pages) + (cached + [tuples[i]]) == (AllTuples(pages) + cached) + [tuples[i]];
  }

  lemma CacheFlushed(o: Options, pages: seq<Page>, p: Page, tuples: seq<BloomTuple>, i: nat)
    requires ValidOptions(o) && p.Data? && !p.deleted && |p.tuples| <= PAGE_SPACE / TupleSize(o) && !Room(o, |p.tuples|)
    requires i <= |tuples| && FullPages(o, pages) && Collected(pages, p.tuples, tuples, i)
    ensures FullPages(o, pages + [p]) && Collected(pages + [p], [], tuples, i)
  {
    FreshPageHasRoom(o);
    CacheFits(o, |p.tuples|);
    AllTuplesMore(pages, p);
  }

  lemma LastFlushed(o: Options, pages: seq<Page>, p: Page, tuples: seq<BloomTuple>)
    requires ValidOptions(o) && p.Data? && !p.deleted && |p.tuples| <= PAGE_SPACE / TupleSize(o)
    requires FullPages(o, pages) && Collected(pages, p.tuples, tuples, |tuples|)
    ensures
      var all := if |p.tuples| > 0 then pages + [p] else pages;
      Packed(o, all) && AllTuples(all) == tuples
  {
    CacheFits(o, |p.tuples|);
    AllTuplesMore(pages, p);
    assert tuples[..|tuples|] == tuples;
  }

  lemma CacheFits(o: Options, n: nat)
    requires ValidOptions(o) && n <= PAGE_SPACE / TupleSize(o)
    ensures Fits(o, n)
  {
    var len := PAGE_SPACE / TupleSize(o);
    assert len * TupleSize(o) <= PAGE_SPACE;
    assert n * TupleSize(o) <= len * TupleSize(o);
  }

  /** An index just built, with no process at work. */
  function Initial(pages: seq<Page>): State {
    State(pages, MetaData(0, []), None, [], [], [], {}, multiset{})
  }

  lemma {:induction false} SumOfPages(pages: seq<Page>)
    ensures Sum(OnPage, pages) == multiset(AllTuples(pages))
  {
    if pages == [] {
    } else {
      SumOfPages(pages[..|pages| - 1]);
    }
  }

  /** What the build leaves is a sound state from which runs start. */
  lemma BuiltIsSound(o: Options, pages: seq<Page>)
    requires |pages| >= 1 && pages[0] == Meta && Packed(o, pages)
    ensures Inv(o, multiset(AllTuples(pages)), Initial(pages))
  {
    SumOfPages(pages);
    var s := Initial(pages);
    assert Stored(s) + multiset{} == Stored(s);
    assert Inserted(s) == multiset{};
  }
}
