/**
 * The collection cycle: every source of every region is fetched in catalog
 * order, each non-empty region's articles are written in one batch, and one
 * run record with the per-region accounting is appended.
 */
module Collector {
  import opened Normalizer
  import opened Fetcher
  import opened Store

  /** One feed of the catalog. */
  datatype Source = Source(name: string, url: string)

  /** One region of the catalog with its feeds, in catalog order. */
  datatype Region = Region(name: string, sources: seq<Source>)

  /** The outcome of requesting and parsing the feed at each URL during this cycle. */
  type Feeds = string -> FetchOutcome

  /** The number of feeds in the catalog, over all regions. */
  function TotalSources(catalog: seq<Region>): (n: nat)
    ensures forall i :: 0 <= i < |catalog| ==> |catalog[i].sources| <= n
  {
    if catalog == [] then 0
    else TotalSources(catalog[..|catalog| - 1]) + |catalog[|catalog| - 1].sources|
  }

  /** What one source contributes this cycle. */
  function SourceArticles(s: Source, region: string, feeds: Feeds, now: DateTime): (r: seq<Article>)
    requires ValidDateTime(now)
    ensures feeds(s.url).FetchFailed? ==> r == []
    ensures |r| <= MaxEntries
    ensures forall a :: a in r ==> WellFormed(a, s.name, region)
  {
    FetchResultToArticles(feeds(s.url), s.name, region, now)
  }

  /** `region_articles`: the articles of the region's sources, source by source. */
  function RegionArticles(sources: seq<Source>, region: string, feeds: Feeds, now: DateTime): (r: seq<Article>)
    requires ValidDateTime(now)
    ensures |r| <= MaxEntries * |sources|
    ensures forall a :: a in r ==> WellFormed(a, a.source, region)
  {
    if sources == [] then []
    else
      var init := sources[..|sources| - 1];
      RegionArticles(init, region, feeds, now) + SourceArticles(sources[|sources| - 1], region, feeds, now)
  }

  /** `region_ok`: the sources that returned at least one article. */
  function RegionOk(sources: seq<Source>, region: string, feeds: Feeds, now: DateTime): (n: nat)
    requires ValidDateTime(now)
    ensures n <= |sources|
    ensures n == 0 <==> RegionArticles(sources, region, feeds, now) == []
  {
    if sources == [] then 0
    else
      var init := sources[..|sources| - 1];
      RegionOk(init, region, feeds, now) + (if SourceArticles(sources[|sources| - 1], region, feeds, now) != [] then 1 else 0)
  }

  /** The last source's contribution comes after the others'. */
  lemma RegionUnfold(sources: seq<Source>, region: string, feeds: Feeds, now: DateTime)
    requires ValidDateTime(now) && sources != []
    ensures RegionArticles(sources, region, feeds, now)
         == RegionArticles(sources[..|sources| - 1], region, feeds, now) + SourceArticles(sources[|sources| - 1], region, feeds, now)
    ensures RegionOk(sources, region, feeds, now)
         == RegionOk(sources[..|sources| - 1], region, feeds, now) + (if SourceArticles(sources[|sources| - 1], region, feeds, now) != [] then 1 else 0)
  {
  }

  /** Removing the `k`-th source commutes with dropping the last one. */
  lemma RemoveSource(sources: seq<Source>, k: nat)
    requires k < |sources|
    ensures var init, removed := sources[..|sources| - 1], sources[..k] + sources[k + 1..];
      && (k == |sources| - 1 ==> removed == init)
      && (k < |sources| - 1 ==>
            init[k] == sources[k] && removed != []
            && removed[..|removed| - 1] == init[..k] + init[k + 1..]
            && removed[|removed| - 1] == sources[|sources| - 1])
  {
  }

  /** The articles half of `FailedSourceIsolated`. */
  lemma {:induction false} FailedSourceArticles(sources: seq<Source>, k: nat, region: string, feeds: Feeds, now: DateTime)
    requires ValidDateTime(now)
    requires k < |sources| && feeds(sources[k].url).FetchFailed?
    ensures RegionArticles(sources, region, feeds, now) == RegionArticles(sources[..k] + sources[k + 1..], region, feeds, now)
    decreases |sources|
  {
    var init := sources[..|sources| - 1];
    var removed := sources[..k] + sources[k + 1..];
    RegionUnfold(sources, region, feeds, now);
    RemoveSource(sources, k);
    if k < |sources| - 1 {
      FailedSourceArticles(init, k, region, feeds, now);
      RegionUnfold(removed, region, feeds, now);
    }
  }

  /** The answering-sources half of `FailedSourceIsolated`. */
  lemma {:induction false} FailedSourceOk(sources: seq<Source>, k: nat, region: string, feeds: Feeds, now: DateTime)
    requires ValidDateTime(now)
    requires k < |sources| && feeds(sources[k].url).FetchFailed?
    ensures RegionOk(sources, region, feeds, now) == RegionOk(sources[..k] + sources[k + 1..], region, feeds, now)
    decreases |sources|
  {
    var init := sources[..|sources| - 1];
    var removed := sources[..k] + sources[k + 1..];
    RegionUnfold(sources, region, feeds, now);
    RemoveSource(sources, k);
    if k < |sources| - 1 {
      FailedSourceOk(init, k, region, feeds, now);
      RegionUnfold(removed, region, feeds, now);
    }
  }

  /**
   * A source whose request or parse failed leaves its region's articles and
   * answering sources exactly as if it were not in the catalog.
   */
  lemma FailedSourceIsolated(sources: seq<Source>, k: nat, region: string, feeds: Feeds, now: DateTime)
    requires ValidDateTime(now)
    requires k < |sources| && feeds(sources[k].url).FetchFailed?
    ensures RegionArticles(sources, region, feeds, now) == RegionArticles(sources[..k] + sources[k + 1..], region, feeds, now)
    ensures RegionOk(sources, region, feeds, now) == RegionOk(sources[..k] + sources[k + 1..], region, feeds, now)
  {
    FailedSourceArticles(sources, k, region, feeds, now);
    FailedSourceOk(sources, k, region, feeds, now);
  }

  /**
   * Every article of a region comes from one of its sources and carries that
   * source's name, and every article of every source is in the region's batch.
   */
  lemma {:induction false} RegionArticlesOrigin(sources: seq<Source>, region: string, feeds: Feeds, now: DateTime)
    requires ValidDateTime(now)
    ensures forall a :: a in RegionArticles(sources, region, feeds, now) ==>
              exists j :: 0 <= j < |sources| && a in SourceArticles(sources[j], region, feeds, now) && a.source == sources[j].name
    ensures forall j, a :: 0 <= j < |sources| && a in SourceArticles(sources[j], region, feeds, now) ==>
              a in RegionArticles(sources, region, feeds, now)
    decreases |sources|
  {
    if sources != [] {
      var init := sources[..|sources| - 1];
      var last := |sources| - 1;
      RegionArticlesOrigin(init, region, feeds, now);
      assert forall j :: 0 <= j < |init| ==> init[j] == sources[j];
      forall a | a in RegionArticles(sources, region, feeds, now)
        ensures exists j :: 0 <= j < |sources| && a in SourceArticles(sources[j], region, feeds, now) && a.source == sources[j].name
      {
        if a !in RegionArticles(init, region, feeds, now) {
          assert a in SourceArticles(sources[last], region, feeds, now);
        }
      }
    }
  }

  /** The table and the `details` entry after one region was processed. */
  datatype RegionPass = RegionPass(rows: Rows, detail: RegionDetail)

  function CollectRegion(rows: Rows, r: Region, feeds: Feeds, now: DateTime, rejects: Article -> bool): (p: RegionPass)
    requires ValidDateTime(now)
    ensures p.detail.region == r.name && p.detail.sourcesTotal == |r.sources|
    ensures p.detail.sourcesOk == RegionOk(r.sources, r.name, feeds, now)
    ensures p.detail.sourcesOk <= p.detail.sourcesTotal
    ensures p.detail.articlesNouveaux <= p.detail.articlesTotal <= MaxEntries * p.detail.sourcesTotal
    ensures p.detail.articlesTotal == |RegionArticles(r.sources, r.name, feeds, now)|
    ensures p.detail.articlesTotal == 0 ==> p.rows == rows && p.detail.sourcesOk == 0 && p.detail.articlesNouveaux == 0
    ensures p.rows == SavedRows(rows, RegionArticles(r.sources, r.name, feeds, now), rejects)
    ensures p.detail.articlesNouveaux == NewCount(rows, RegionArticles(r.sources, r.name, feeds, now), rejects)
  {
    var articles := RegionArticles(r.sources, r.name, feeds, now);
    if articles == [] then
      RegionPass(rows, RegionDetail(r.name, 0, |r.sources|, 0, 0))
    else
      RegionPass(SavedRows(rows, articles, rejects),
                 RegionDetail(r.name, RegionOk(r.sources, r.name, feeds, now), |r.sources|,
                              NewCount(rows, articles, rejects), |articles|))
  }

  /** The loop state of the cycle after a prefix of the catalog. */
  datatype Pass = Pass(rows: Rows, sourcesOk: nat, nouveaux: nat, details: seq<RegionDetail>)

  function Collected(rows: Rows, regions: seq<Region>, feeds: Feeds, now: DateTime, rejects: Article -> bool): (p: Pass)
    requires ValidDateTime(now)
    ensures |p.details| == |regions|
    decreases |regions|
  {
    if regions == [] then Pass(rows, 0, 0, [])
    else
      var p := Collected(rows, regions[..|regions| - 1], feeds, now, rejects);
      var rp := CollectRegion(p.rows, regions[|regions| - 1], feeds, now, rejects);
      Pass(rp.rows, p.sourcesOk + rp.detail.sourcesOk, p.nouveaux + rp.detail.articlesNouveaux, p.details + [rp.detail])
  }

  /** The run record of a cycle over `catalog` starting from table `rows`. */
  function RunOf(rows: Rows, catalog: seq<Region>, feeds: Feeds, now: DateTime, rejects: Article -> bool): (run: CollectionRun)
    requires ValidDateTime(now)
    ensures |run.details| == |catalog|
  {
    var p := Collected(rows, catalog, feeds, now, rejects);
    CollectionRun(TotalSources(catalog), p.sourcesOk, p.nouveaux, p.details)
  }

  // ---------------------------------------------------------------------
  // Accounting identities
  // ---------------------------------------------------------------------

  function SumOk(ds: seq<RegionDetail>): nat
  {
    if ds == [] then 0 else SumOk(ds[..|ds| - 1]) + ds[|ds| - 1].sourcesOk
  }

  function SumNouveaux(ds: seq<RegionDetail>): nat
  {
    if ds == [] then 0 else SumNouveaux(ds[..|ds| - 1]) + ds[|ds| - 1].articlesNouveaux
  }

  function SumTotal(ds: seq<RegionDetail>): nat
  {
    if ds == [] then 0 else SumTotal(ds[..|ds| - 1]) + ds[|ds| - 1].sourcesTotal
  }

  /** The per-region counts add up to the run's totals. */
  lemma {:induction false} DetailsSumToTotals(rows: Rows, catalog: seq<Region>, feeds: Feeds, now: DateTime, rejects: Article -> bool)
    requires ValidDateTime(now)
    ensures var run := RunOf(rows, catalog, feeds, now, rejects);
      SumOk(run.details) == run.sourcesOk && SumNouveaux(run.details) == run.articlesNouveaux
      && SumTotal(run.details) == run.sourcesTotal
    decreases |catalog|
  {
    if catalog != [] {
      var init := catalog[..|catalog| - 1];
      DetailsSumToTotals(rows, init, feeds, now, rejects);
      var ds := Collected(rows, catalog, feeds, now, rejects).details;
      assert ds[..|ds| - 1] == Collected(rows, init, feeds, now, rejects).details;
    }
  }

  /** Processing one more region continues from the table left by the previous ones. */
  lemma CollectedStep(rows: Rows, regions: seq<Region>, feeds: Feeds, now: DateTime, rejects: Article -> bool, k: nat)
    requires ValidDateTime(now)
    requires k < |regions|
    ensures var p := Collected(rows, regions[..k], feeds, now, rejects);
      var rp := CollectRegion(p.rows, regions[k], feeds, now, rejects);
      Collected(rows, regions[..k + 1], feeds, now, rejects)
        == Pass(rp.rows, p.sourcesOk + rp.detail.sourcesOk, p.nouveaux + rp.detail.articlesNouveaux, p.details + [rp.detail])
  {
    assert regions[..k + 1][..k] == regions[..k];
  }

  /** The `i`-th details entry is the one computed for region `i` from the table the earlier regions left. */
  lemma {:induction false} DetailIsRegionPass(rows: Rows, catalog: seq<Region>, feeds: Feeds, now: DateTime, rejects: Article -> bool, i: nat)
    requires ValidDateTime(now)
    requires i < |catalog|
    ensures Collected(rows, catalog, feeds, now, rejects).details[i]
         == CollectRegion(Collected(rows, catalog[..i], feeds, now, rejects).rows, catalog[i], feeds, now, rejects).detail
    decreases |catalog|
  {
    var init := catalog[..|catalog| - 1];
    if i < |init| {
      DetailIsRegionPass(rows, init, feeds, now, rejects, i);
      assert init[..i] == catalog[..i];
      var ds := Collected(rows, catalog, feeds, now, rejects).details;
      assert ds[..|init|] == Collected(rows, init, feeds, now, rejects).details;
      assert ds[i] == ds[..|init|][i];
    } else {
      assert init == catalog[..i];
    }
  }

  /** Region `i` of the catalog gets the `i`-th details entry, describing exactly that region. */
  lemma DetailOfRegion(rows: Rows, catalog: seq<Region>, feeds: Feeds, now: DateTime, rejects: Article -> bool, i: nat)
    requires ValidDateTime(now)
    requires i < |catalog|
    ensures var d := RunOf(rows, catalog, feeds, now, rejects).details[i];
      d.region == catalog[i].name && d.sourcesTotal == |catalog[i].sources|
      && d.sourcesOk == RegionOk(catalog[i].sources, catalog[i].name, feeds, now)
      && d.articlesTotal == |RegionArticles(catalog[i].sources, catalog[i].name, feeds, now)|
      && d.sourcesOk <= d.sourcesTotal && d.articlesNouveaux <= d.articlesTotal
      && (d.articlesTotal == 0 ==> d.sourcesOk == 0 && d.articlesNouveaux == 0)
  {
    DetailIsRegionPass(rows, catalog, feeds, now, rejects, i);
  }

  /** Only sources that produced articles are counted as ok. */
  lemma SourcesOkBounded(rows: Rows, catalog: seq<Region>, feeds: Feeds, now: DateTime, rejects: Article -> bool)
    requires ValidDateTime(now)
    ensures var run := RunOf(rows, catalog, feeds, now, rejects);
      run.sourcesOk <= run.sourcesTotal
  {
    DetailsSumToTotals(rows, catalog, feeds, now, rejects);
    var ds := RunOf(rows, catalog, feeds, now, rejects).details;
    forall i | 0 <= i < |ds| ensures ds[i].sourcesOk <= ds[i].sourcesTotal {
      DetailOfRegion(rows, catalog, feeds, now, rejects, i);
    }
    SumOkBounded(ds);
  }

  lemma {:induction false} SumOkBounded(ds: seq<RegionDetail>)
    requires forall i :: 0 <= i < |ds| ==> ds[i].sourcesOk <= ds[i].sourcesTotal
    ensures SumOk(ds) <= SumTotal(ds)
    decreases |ds|
  {
    if ds != [] {
      SumOkBounded(ds[..|ds| - 1]);
    }
  }

  /** The cycle only adds rows, and its `articles_nouveaux` is the number of URLs it added. */
  lemma CollectedAddsNewKeys(rows: Rows, catalog: seq<Region>, feeds: Feeds, now: DateTime, rejects: Article -> bool)
    requires ValidDateTime(now)
    requires KeyedByUrl(rows)
    ensures var p := Collected(rows, catalog, feeds, now, rejects);
      KeyedByUrl(p.rows) && Extends(rows, p.rows) && p.nouveaux == |p.rows.Keys - rows.Keys|
  {
    CollectedKeepsRows(rows, catalog, feeds, now, rejects);
    CollectedCountsNewKeys(rows, catalog, feeds, now, rejects);
  }

  lemma {:induction false} CollectedKeepsRows(rows: Rows, catalog: seq<Region>, feeds: Feeds, now: DateTime, rejects: Article -> bool)
    requires ValidDateTime(now)
    requires KeyedByUrl(rows)
    ensures var p := Collected(rows, catalog, feeds, now, rejects);
      KeyedByUrl(p.rows) && Extends(rows, p.rows)
    decreases |catalog|
  {
    if catalog != [] {
      var init := catalog[..|catalog| - 1];
      var p := Collected(rows, init, feeds, now, rejects);
      CollectedKeepsRows(rows, init, feeds, now, rejects);
      var r := catalog[|catalog| - 1];
      SavedRowsExtends(p.rows, RegionArticles(r.sources, r.name, feeds, now), rejects);
    }
  }

  lemma {:induction false} CollectedCountsNewKeys(rows: Rows, catalog: seq<Region>, feeds: Feeds, now: DateTime, rejects: Article -> bool)
    requires ValidDateTime(now)
    ensures var p := Collected(rows, catalog, feeds, now, rejects);
      rows.Keys <= p.rows.Keys && p.nouveaux == |p.rows.Keys - rows.Keys|
    decreases |catalog|
  {
    if catalog != [] {
      var init := catalog[..|catalog| - 1];
      var p := Collected(rows, init, feeds, now, rejects);
      CollectedCountsNewKeys(rows, init, feeds, now, rejects);
      var r := catalog[|catalog| - 1];
      var articles := RegionArticles(r.sources, r.name, feeds, now);
      SavedRowsKeys(p.rows, articles, rejects);
      NewCountIsNewKeys(p.rows, articles, rejects);
      KeysAddUp(rows.Keys, p.rows.Keys, SavedRows(p.rows, articles, rejects).Keys);
    }
  }

  lemma KeysAddUp(k0: set<string>, k1: set<string>, k2: set<string>)
    requires k0 <= k1 <= k2
    ensures |k2 - k0| == |k1 - k0| + |k2 - k1|
  {
    assert k2 - k0 == (k1 - k0) + (k2 - k1);
    assert (k1 - k0) !! (k2 - k1);
  }

  // ---------------------------------------------------------------------
  // A second cycle over unchanged feeds inserts nothing
  // ---------------------------------------------------------------------

  lemma {:induction false} CollectedKeysGrow(rows: Rows, regions: seq<Region>, feeds: Feeds, now: DateTime, rejects: Article -> bool, j: nat)
    requires ValidDateTime(now)
    requires j <= |regions|
    ensures Collected(rows, regions[..j], feeds, now, rejects).rows.Keys <= Collected(rows, regions, feeds, now, rejects).rows.Keys
    decreases |regions|
  {
    if j < |regions| {
      var init := regions[..|regions| - 1];
      assert regions[..j] == init[..j];
      CollectedKeysGrow(rows, init, feeds, now, rejects, j);
      var p := Collected(rows, init, feeds, now, rejects);
      var r := regions[|regions| - 1];
      SavedRowsKeys(p.rows, RegionArticles(r.sources, r.name, feeds, now), rejects);
    } else {
      assert regions[..j] == regions;
    }
  }

  /** After a cycle, every non-failing article of region `k` has its URL stored. */
  lemma RegionArticlesStored(rows: Rows, regions: seq<Region>, feeds: Feeds, now: DateTime, rejects: Article -> bool, k: nat)
    requires ValidDateTime(now)
    requires k < |regions|
    ensures forall a :: a in RegionArticles(regions[k].sources, regions[k].name, feeds, now) ==>
              rejects(a) || a.url in Collected(rows, regions, feeds, now, rejects).rows
  {
    var batch := RegionArticles(regions[k].sources, regions[k].name, feeds, now);
    var before := Collected(rows, regions[..k], feeds, now, rejects).rows;
    CollectedStep(rows, regions, feeds, now, rejects, k);
    SavedRowsKeys(before, batch, rejects);
    CollectedKeysGrow(rows, regions, feeds, now, rejects, k + 1);
    forall a | a in batch && !rejects(a)
      ensures a.url in Collected(rows, regions, feeds, now, rejects).rows
    {
      var i :| 0 <= i < |batch| && batch[i] == a;
      assert a.url in AcceptedUrls(batch, rejects);
    }
  }

  /** A region's articles read at another clock: the same, up to dates taken from the clock. */
  lemma {:induction false} RegionArticlesRedated(sources: seq<Source>, region: string, feeds: Feeds, now: DateTime, now2: DateTime)
    requires ValidDateTime(now) && ValidDateTime(now2)
    ensures AllRedated(RegionArticles(sources, region, feeds, now), RegionArticles(sources, region, feeds, now2), now, now2)
    decreases |sources|
  {
    if sources != [] {
      var init := sources[..|sources| - 1];
      var s := sources[|sources| - 1];
      RegionArticlesRedated(init, region, feeds, now, now2);
      FetchResultRedated(feeds(s.url), s.name, region, now, now2);
      AllRedatedAppend(RegionArticles(init, region, feeds, now), SourceArticles(s, region, feeds, now),
                       RegionArticles(init, region, feeds, now2), SourceArticles(s, region, feeds, now2), now, now2);
    }
  }

  /**
   * The failures of a later cycle cover those of an earlier one: an insert
   * that failed then fails again for the same article, re-dated when its
   * date came from the clock.
   */
  ghost predicate FailsAgain(rejects: Article -> bool, rejects2: Article -> bool, now: DateTime, now2: DateTime)
  {
    forall a, b :: rejects(a) && Redated(a, b, now, now2) ==> rejects2(b)
  }

  /**
   * After a cycle, a second pass over any prefix of the catalog, at any clock
   * reading, adds nothing when what failed before fails again.
   */
  lemma {:induction false} SecondPassIsNoOp(rows: Rows, catalog: seq<Region>, feeds: Feeds, now: DateTime, now2: DateTime,
                                            rejects: Article -> bool, rejects2: Article -> bool, k: nat)
    requires ValidDateTime(now) && ValidDateTime(now2)
    requires FailsAgain(rejects, rejects2, now, now2)
    requires k <= |catalog|
    ensures var once := Collected(rows, catalog, feeds, now, rejects).rows;
      var again := Collected(once, catalog[..k], feeds, now2, rejects2);
      again.rows == once && again.nouveaux == 0
    decreases k
  {
    if k > 0 {
      var once := Collected(rows, catalog, feeds, now, rejects).rows;
      var r := catalog[k - 1];
      CollectedStep(once, catalog, feeds, now2, rejects2, k - 1);
      SecondPassIsNoOp(rows, catalog, feeds, now, now2, rejects, rejects2, k - 1);
      RegionArticlesStored(rows, catalog, feeds, now, rejects, k - 1);
      StoredAtAnyClock(once, r, feeds, now, now2, rejects, rejects2);
      RegionOfStoredIsNoOp(once, r, feeds, now2, rejects2);
    }
  }

  /** What a region's articles left stored or failing, its articles read at another clock leave too. */
  lemma StoredAtAnyClock(rows: Rows, r: Region, feeds: Feeds, now: DateTime, now2: DateTime,
                         rejects: Article -> bool, rejects2: Article -> bool)
    requires ValidDateTime(now) && ValidDateTime(now2)
    requires FailsAgain(rejects, rejects2, now, now2)
    requires forall a :: a in RegionArticles(r.sources, r.name, feeds, now) ==> rejects(a) || a.url in rows
    ensures forall b :: b in RegionArticles(r.sources, r.name, feeds, now2) ==> rejects2(b) || b.url in rows
  {
    var first := RegionArticles(r.sources, r.name, feeds, now);
    var second := RegionArticles(r.sources, r.name, feeds, now2);
    RegionArticlesRedated(r.sources, r.name, feeds, now, now2);
    forall b | b in second
      ensures rejects2(b) || b.url in rows
    {
      var i :| 0 <= i < |second| && second[i] == b;
      assert first[i] in first && Redated(first[i], b, now, now2);
    }
  }

  lemma RegionOfStoredIsNoOp(rows: Rows, r: Region, feeds: Feeds, now: DateTime, rejects: Article -> bool)
    requires ValidDateTime(now)
    requires forall a :: a in RegionArticles(r.sources, r.name, feeds, now) ==> rejects(a) || a.url in rows
    ensures CollectRegion(rows, r, feeds, now, rejects).rows == rows
    ensures CollectRegion(rows, r, feeds, now, rejects).detail.articlesNouveaux == 0
  {
    var batch := RegionArticles(r.sources, r.name, feeds, now);
    assert forall i :: 0 <= i < |batch| ==> batch[i] in batch;
    SaveStoredIsNoOp(rows, batch, rejects);
  }

  /**
   * Running the cycle again over unchanged feeds, at any later clock reading
   * and with any failures that include the earlier ones, reports no new
   * article and leaves the table as it is.
   */
  lemma CollectTwiceInsertsNothing(rows: Rows, catalog: seq<Region>, feeds: Feeds, now: DateTime, now2: DateTime,
                                   rejects: Article -> bool, rejects2: Article -> bool)
    requires ValidDateTime(now) && ValidDateTime(now2)
    requires FailsAgain(rejects, rejects2, now, now2)
    ensures var once := Collected(rows, catalog, feeds, now, rejects).rows;
      Collected(once, catalog, feeds, now2, rejects2).rows == once
      && RunOf(once, catalog, feeds, now2, rejects2).articlesNouveaux == 0
  {
    SecondPassIsNoOp(rows, catalog, feeds, now, now2, rejects, rejects2, |catalog|);
    assert catalog[..|catalog|] == catalog;
  }

  /** In particular, a first cycle in which no insert failed is never followed by a new row. */
  lemma CollectTwiceAnyClock(rows: Rows, catalog: seq<Region>, feeds: Feeds, now: DateTime, now2: DateTime,
                             rejects: Article -> bool, rejects2: Article -> bool)
    requires ValidDateTime(now) && ValidDateTime(now2)
    requires forall a :: !rejects(a)
    ensures var once := Collected(rows, catalog, feeds, now, rejects).rows;
      Collected(once, catalog, feeds, now2, rejects2).rows == once
      && RunOf(once, catalog, feeds, now2, rejects2).articlesNouveaux == 0
  {
    CollectTwiceInsertsNothing(rows, catalog, feeds, now, now2, rejects, rejects2);
  }

  /** With the same clock reading and the same failures, the condition always holds. */
  lemma SameCycleFailsAgain(rejects: Article -> bool, now: DateTime)
    ensures FailsAgain(rejects, rejects, now, now)
  {
    forall a, b | rejects(a) && Redated(a, b, now, now)
      ensures rejects(b)
    {
      assert b == a;
    }
  }

  // ---------------------------------------------------------------------
  // The cycle itself
  // ---------------------------------------------------------------------

  /** The inner loop over one region's sources: the articles gathered and the sources that answered. */
  method FetchRegion(r: Region, feeds: Feeds, now: DateTime) returns (regionArticles: seq<Article>, regionOk: nat)
    requires ValidDateTime(now)
    ensures regionArticles == RegionArticles(r.sources, r.name, feeds, now)
    ensures regionOk == RegionOk(r.sources, r.name, feeds, now)
  {
    regionArticles := [];
    regionOk := 0;
    var sources := r.sources;
    var j := 0;
    while j < |sources|
      invariant 0 <= j <= |sources|
      invariant regionArticles == RegionArticles(sources[..j], r.name, feeds, now)
      invariant regionOk == RegionOk(sources[..j], r.name, feeds, now)
    {
      var source := sources[j];
      ghost var next := sources[..j + 1];
      assert next[..j] == sources[..j] && next[j] == source;
      var articles := FetchRssFeed(feeds(source.url), source.name, r.name, now);
      assert articles == SourceArticles(source, r.name, feeds, now);
      if articles != [] {
        regionOk := regionOk + 1;
        regionArticles := regionArticles + articles;
      }
      j := j + 1;
    }
    assert sources[..j] == sources;
  }

  /**
   * `collect_all_feeds`: fetches every source region by region, writes each
   * non-empty region's articles, appends one run record and returns it.
   * The insert of the run record is the one statement of the cycle that no
   * handler guards: when it fails (`recordFails`) the error reaches the
   * caller (`raised`), no run is appended, and the articles written by the
   * regions stay committed.
   */
  method CollectAllFeeds(db: Database, catalog: seq<Region>, feeds: Feeds, now: DateTime, rejects: Article -> bool,
                         recordFails: bool)
    returns (run: CollectionRun, raised: bool)
    requires db.Valid() && ValidDateTime(now)
    modifies db
    ensures db.Valid()
    ensures run == RunOf(old(db.articles), catalog, feeds, now, rejects)
    ensures db.articles == Collected(old(db.articles), catalog, feeds, now, rejects).rows
    ensures raised == recordFails
    ensures db.runs == if raised then old(db.runs) else old(db.runs) + [run]
  {
    ghost var start := db.articles;
    var totalSources := TotalSources(catalog);
    var sourcesOk := 0;
    var totalNouveaux := 0;
    var details: seq<RegionDetail> := [];
    var i := 0;
    while i < |catalog|
      invariant 0 <= i <= |catalog|
      invariant db.Valid() && db.runs == old(db.runs)
      invariant Collected(start, catalog[..i], feeds, now, rejects)
             == Pass(db.articles, sourcesOk, totalNouveaux, details)
    {
      CollectedStep(start, catalog, feeds, now, rejects, i);
      var region := catalog[i];
      var regionArticles, regionOk := FetchRegion(region, feeds, now);
      sourcesOk := sourcesOk + regionOk;
      if regionArticles != [] {
        var nouveaux := db.SaveArticles(regionArticles, rejects);
        totalNouveaux := totalNouveaux + nouveaux;
        details := details + [RegionDetail(region.name, regionOk, |region.sources|, nouveaux, |regionArticles|)];
      } else {
        details := details + [RegionDetail(region.name, 0, |region.sources|, 0, 0)];
      }
      i := i + 1;
    }
    assert catalog[..i] == catalog;
    run := CollectionRun(totalSources, sourcesOk, totalNouveaux, details);
    raised := db.RecordRun(run, recordFails);
  }
}
