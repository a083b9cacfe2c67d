/** `StatisticsServiceImpl.getStatistics`: one item per configured site, with the site's
    status brought in line with the running tasks first, and the totals over the items. */
module Statistics {
  import opened Basics
  import opened Store
  import opened Orchestrator

  /** `DetailedStatisticsItem`. `statusTime` is in milliseconds. */
  datatype Item = Item(name: string, url: string, status: string, statusTime: int,
                       error: Option<string>, pages: int, lemmas: int)

  /** `TotalStatistics`. */
  datatype Total = Total(sites: int, pages: int, lemmas: int, indexing: bool)

  /** `StatisticsResponse` with its `StatisticsData`. */
  datatype StatisticsResponse = StatisticsResponse(result: bool, total: Total, detailed: seq<Item>)

  /** The error an item reports for a configured site with no row. */
  const SiteNotFoundError: string := "Сайт отсутствует в базе данных"

  /** `updateSiteStatus(site)`: a FAILED site is left alone. An INDEXING site with no
      running task becomes INDEXED, and a site in any other status with a running task
      becomes INDEXING; a changed site is stamped with `now` and saved. */
  function UpdateSiteStatus(db: Db, site: Site, indexing: bool, now: int): (r: (Db, Site))
    ensures site.status == Failed ==> r == (db, site)
    ensures r.1.status == Failed <==> site.status == Failed
    ensures r.1.status != Failed ==> (r.1.status == Indexing <==> indexing)
    ensures r.1 == site || (r.1 == site.(status := r.1.status, statusTime := Some(now)) && r.0 == SaveSite(db, r.1))
    ensures r.1 == site ==> r.0 == db
  {
    if site.status == Failed then (db, site)
    else if site.status == Indexing && !indexing then
      var s := site.(status := Indexed, statusTime := Some(now));
      (SaveSite(db, s), s)
    else if site.status != Indexing && indexing then
      var s := site.(status := Indexing, statusTime := Some(now));
      (SaveSite(db, s), s)
    else (db, site)
  }

  /** `getStatusTime(site)`: the stored time in epoch milliseconds, or the clock when the
      site has no time. */
  function StatusTime(site: Site, nowMillis: int): (r: int)
    ensures site.statusTime.Some? ==> r == site.statusTime.value * 1000
    ensures site.statusTime.None? ==> r == nowMillis
  {
    match site.statusTime
    case Some(t) => t * 1000
    case None => nowMillis
  }

  /** Whether a page belongs to a site row with the given url (`countBySiteUrl`). */
  predicate OnSiteUrl(sites: seq<Site>, url: string, p: Page) {
    match SiteIndex(sites, p.siteId)
    case Some(i) => sites[i].url == url
    case None => false
  }

  /** `createDetailedStatisticsItem(siteConfig)`: the item for one configured site, and
      the tables after `updateSiteStatus` saved the site. */
  function DetailedItem(db: Db, tasks: map<string, bool>, cs: ConfigSite, now: int, nowMillis: int): (r: (Item, Db))
    ensures r.0.name == cs.name && r.0.url == cs.url && r.0.pages >= 0 && r.0.lemmas >= 0
    ensures FindSiteByUrl(db.sites, cs.url).None? ==>
      r == (Item(cs.name, cs.url, "FAILED", nowMillis, Some(SiteNotFoundError), 0, 0), db)
    ensures FindSiteByUrl(db.sites, cs.url).Some? ==>
      var s := UpdateSiteStatus(db, FindSiteByUrl(db.sites, cs.url).value, IsSiteIndexing(tasks, cs.url), now).1;
      r.0.status == StatusName(s.status) &&
      r.0.statusTime == StatusTime(s, nowMillis) &&
      r.0.error == (if s.status == Failed then s.lastError else None) &&
      r.0.pages == Count(r.1.pages, p => OnSiteUrl(r.1.sites, cs.url, p)) &&
      r.0.lemmas == Count(r.1.lemmas, (l: Lemma) => l.siteId == s.id)
  {
    match FindSiteByUrl(db.sites, cs.url)
    case None => (Item(cs.name, cs.url, "FAILED", nowMillis, Some(SiteNotFoundError), 0, 0), db)
    case Some(site) =>
      var u := UpdateSiteStatus(db, site, IsSiteIndexing(tasks, cs.url), now);
      var s := u.1;
      var db1 := u.0;
      (Item(cs.name, cs.url, StatusName(s.status), StatusTime(s, nowMillis),
            if s.status == Failed then s.lastError else None,
            Count(db1.pages, p => OnSiteUrl(db1.sites, cs.url, p)),
            Count(db1.lemmas, (l: Lemma) => l.siteId == s.id)),
       db1)
  }

  /** The items of the configured sites in order, each built on the tables the previous
      one left. */
  function Items(db: Db, tasks: map<string, bool>, config: seq<ConfigSite>, now: int, nowMillis: int): (r: (seq<Item>, Db))
    ensures |r.0| == |config|
    decreases |config|
  {
    if config == [] then ([], db)
    else
      var prev := Items(db, tasks, config[..|config| - 1], now, nowMillis);
      var last := DetailedItem(prev.1, tasks, config[|config| - 1], now, nowMillis);
      (prev.0 + [last.0], last.1)
  }

  function PagesOf(items: seq<Item>): seq<int> {
    seq(|items|, i requires 0 <= i < |items| => items[i].pages)
  }

  function LemmasOf(items: seq<Item>): seq<int> {
    seq(|items|, i requires 0 <= i < |items| => items[i].lemmas)
  }

  /** `getStatistics()`: the site count is the configured count, the flag is the service's,
      the pages and lemmas are the sums over the items, and the result is always true. */
  method GetStatistics(ix: Indexer, config: seq<ConfigSite>, now: int, nowMillis: int)
    returns (resp: StatisticsResponse, db: Db)
    ensures resp.result
    ensures resp.total.sites == |config| && resp.total.indexing == IsIndexingInProgress(ix)
    ensures (resp.detailed, db) == Items(ix.db, ix.tasks, config, now, nowMillis)
    ensures resp.total.pages == Sum(PagesOf(resp.detailed))
    ensures resp.total.lemmas == Sum(LemmasOf(resp.detailed))
  {
    var pages := 0;
    var lemmas := 0;
    var detailed: seq<Item> := [];
    db := ix.db;
    var i := 0;
    while i < |config|
      invariant 0 <= i <= |config|
      invariant (detailed, db) == Items(ix.db, ix.tasks, config[..i], now, nowMillis)
      invariant pages == Sum(PagesOf(detailed)) && lemmas == Sum(LemmasOf(detailed))
    {
      var r := DetailedItem(db, ix.tasks, config[i], now, nowMillis);
      ItemsSnoc(ix.db, ix.tasks, config, now, nowMillis, i);
      TotalsSnoc(detailed, r.0);
      detailed := detailed + [r.0];
      db := r.1;
      pages := pages + r.0.pages;
      lemmas := lemmas + r.0.lemmas;
      i := i + 1;
    }
    assert config[..i] == config;
    resp := StatisticsResponse(true, Total(|config|, pages, lemmas, IsIndexingInProgress(ix)), detailed);
  }

  lemma ItemsSnoc(db: Db, tasks: map<string, bool>, config: seq<ConfigSite>, now: int, nowMillis: int, i: nat)
    requires i < |config|
    ensures var prev := Items(db, tasks, config[..i], now, nowMillis);
      var last := DetailedItem(prev.1, tasks, config[i], now, nowMillis);
      Items(db, tasks, config[..i + 1], now, nowMillis) == (prev.0 + [last.0], last.1)
  {
    assert config[..i + 1][..i] == config[..i];
  }

  lemma TotalsSnoc(items: seq<Item>, x: Item)
    ensures Sum(PagesOf(items + [x])) == Sum(PagesOf(items)) + x.pages
    ensures Sum(LemmasOf(items + [x])) == Sum(LemmasOf(items)) + x.lemmas
  {
    assert PagesOf(items + [x])[..|items|] == PagesOf(items);
    assert LemmasOf(items + [x])[..|items|] == LemmasOf(items);
  }

  // ---------------------------------------------------------------------------------------
  // Properties.

  /** After the update the site's status agrees with the task map: unless it is FAILED, it
      is INDEXING exactly when its task runs. A second update changes nothing. */
  lemma UpdateSiteStatusIsIdempotent(db: Db, site: Site, indexing: bool, now: int, later: int)
    ensures var r := UpdateSiteStatus(db, site, indexing, now);
      UpdateSiteStatus(r.0, r.1, indexing, later) == r
  {
  }

  /** Every item names its configured site, in configuration order. */
  lemma {:induction false} ItemsFollowConfig(db: Db, tasks: map<string, bool>, config: seq<ConfigSite>,
                                             now: int, nowMillis: int, i: nat)
    requires i < |config|
    ensures Items(db, tasks, config, now, nowMillis).0[i].name == config[i].name
    ensures Items(db, tasks, config, now, nowMillis).0[i].url == config[i].url
    decreases |config|
  {
    if i < |config| - 1 {
      ItemsFollowConfig(db, tasks, config[..|config| - 1], now, nowMillis, i);
    }
  }

  /** Only a FAILED item carries an error: the fixed one when the site has no row, the
      site's last error otherwise. */
  lemma ItemErrorOnlyWhenFailed(db: Db, tasks: map<string, bool>, cs: ConfigSite, now: int, nowMillis: int)
    ensures var item := DetailedItem(db, tasks, cs, now, nowMillis).0;
      item.error.Some? ==> item.status == "FAILED"
  {
  }

  /** Every item's page and lemma counts are non-negative. */
  lemma {:induction false} ItemCountsNonNegative(db: Db, tasks: map<string, bool>, config: seq<ConfigSite>,
                                                 now: int, nowMillis: int)
    ensures forall j | 0 <= j < |config| ::
      Items(db, tasks, config, now, nowMillis).0[j].pages >= 0 && Items(db, tasks, config, now, nowMillis).0[j].lemmas >= 0
    decreases |config|
  {
    if config != [] {
      ItemCountsNonNegative(db, tasks, config[..|config| - 1], now, nowMillis);
      var prev := Items(db, tasks, config[..|config| - 1], now, nowMillis);
      var last := DetailedItem(prev.1, tasks, config[|config| - 1], now, nowMillis);
      var items := Items(db, tasks, config, now, nowMillis).0;
      assert items == prev.0 + [last.0];
      forall j | 0 <= j < |items| ensures items[j].pages >= 0 && items[j].lemmas >= 0 {
        if j < |prev.0| {
          assert items[j] == prev.0[j];
        } else {
          assert items[j] == last.0;
        }
      }
    }
  }

  /** The page total is at least the pages of any one item, and so is the lemma total. */
  lemma TotalsCoverEveryItem(ix: Indexer, config: seq<ConfigSite>, now: int, nowMillis: int, i: nat)
    requires i < |config|
    ensures var items := Items(ix.db, ix.tasks, config, now, nowMillis).0;
      Sum(PagesOf(items)) >= items[i].pages && Sum(LemmasOf(items)) >= items[i].lemmas
  {
    var items := Items(ix.db, ix.tasks, config, now, nowMillis).0;
    ItemCountsNonNegative(ix.db, ix.tasks, config, now, nowMillis);
    assert forall j | 0 <= j < |items| :: PagesOf(items)[j] == items[j].pages && LemmasOf(items)[j] == items[j].lemmas;
    SumBoundsEach(PagesOf(items), i);
    SumBoundsEach(LemmasOf(items), i);
  }

  lemma {:induction false} SumBoundsEach(s: seq<int>, i: nat)
    requires i < |s|
    requires forall j | 0 <= j < |s| :: s[j] >= 0
    ensures Sum(s) >= s[i]
    decreases |s|
  {
    if i < |s| - 1 {
      SumBoundsEach(s[..|s| - 1], i);
    } else {
      SumNonNegative(s[..|s| - 1]);
    }
  }

  lemma {:induction false} SumNonNegative(s: seq<int>)
    requires forall j | 0 <= j < |s| :: s[j] >= 0
    ensures Sum(s) >= 0
    decreases |s|
  {
    if s != [] {
      SumNonNegative(s[..|s| - 1]);
    }
  }
}
