/** `IndexingService`: the full-indexing switch, the per-site runs it starts, the map of
    sites being indexed, and the status changes a run and a stop make. The crawl itself is
    a parameter: each run receives what the crawl left behind. */
module Orchestrator {
  import opened Basics
  import opened Store
  import Crawler

  /** The service's state: `indexingInProgress`, the `indexingTasks` map and the tables. */
  datatype Indexer = Indexer(running: bool, tasks: map<string, bool>, db: Db)

  /** The result of a call that may throw `IllegalStateException`. */
  datatype Started = Started(ix: Indexer) | AlreadyRunning(message: string)

  /** What the site's crawl left behind. The run calls a `PageCrawler.startCrawling` that
      `PageCrawler` does not define, so the crawl is a parameter of the run. It returned, with
      the in-memory site object as the tasks left it and the tables after the crawl, or it
      threw an exception with the given message. */
  datatype CrawlEnd = Returned(site: Site, db: Db) | Raised(message: Option<string>, db: Db)

  /** `isIndexingInProgress()` and `checkAndUpdateStatus(message)`: both report the flag. */
  function IsIndexingInProgress(ix: Indexer): (r: bool)
    ensures r <==> ix.running
  {
    ix.running
  }

  function CheckAndUpdateStatus(ix: Indexer, message: string): (r: bool)
    ensures r == IsIndexingInProgress(ix)
  {
    ix.running
  }

  /** `startFullIndexing()`: throws when a run is in progress, else raises the flag. The run
      itself is `PerformIndexing`; `FinishRun` is its `finally`. */
  function StartFullIndexing(ix: Indexer): (r: Started)
    ensures r.AlreadyRunning? <==> ix.running
    ensures r.AlreadyRunning? ==> r.message == "Индексация уже запущена."
    ensures r.Started? ==> r.ix == ix.(running := true)
  {
    if ix.running then AlreadyRunning("Индексация уже запущена.") else Started(ix.(running := true))
  }

  /** The `finally` of the submitted run: the flag drops whatever happened. */
  function FinishRun(ix: Indexer): (r: Indexer)
    ensures !r.running && r.tasks == ix.tasks && r.db == ix.db
  {
    ix.(running := false)
  }

  /** `updateSitesStatusToFailed(message)`: every INDEXING site becomes FAILED with the
      message as its last error and `now` as its time; every other row stays. */
  function UpdateSitesStatusToFailed(db: Db, message: string, now: int): (r: Db)
    ensures |r.sites| == |db.sites|
    ensures forall i | 0 <= i < |db.sites| :: r.sites[i].id == db.sites[i].id && r.sites[i].url == db.sites[i].url
    ensures r.pages == db.pages && r.lemmas == db.lemmas && r.indexes == db.indexes && r.nextId == db.nextId
  {
    db.(sites := seq(|db.sites|, i requires 0 <= i < |db.sites| =>
                   if db.sites[i].status == Indexing
                   then db.sites[i].(status := Failed, lastError := Some(message), statusTime := Some(now))
                   else db.sites[i]))
  }

  /** The message a stop writes into every site that was being indexed. */
  const StopMessage: string := "Индексация остановлена пользователем"

  /** `stopIndexing()`: nothing when no run is in progress; otherwise the flag drops and
      the INDEXING sites are failed with the stop message. */
  function StopIndexing(ix: Indexer, now: int): (r: Indexer)
    ensures !ix.running ==> r == ix
    ensures ix.running ==> !r.running && r.tasks == ix.tasks && r.db == UpdateSitesStatusToFailed(ix.db, StopMessage, now)
  {
    if !ix.running then ix
    else ix.(running := false, db := UpdateSitesStatusToFailed(ix.db, StopMessage, now))
  }

  /** `isConfiguredSite(url)`: the url equals, exactly, the url of a configured site. */
  function IsConfiguredSite(config: seq<ConfigSite>, url: string): (r: bool)
    ensures r <==> exists i | 0 <= i < |config| :: config[i].url == url
    decreases |config|
  {
    if config == [] then false
    else if config[0].url == url then true
    else
      assert forall i | 1 <= i < |config| :: config[i] == config[1..][i - 1];
      IsConfiguredSite(config[1..], url)
  }

  /** `startIndexingForSite`, `stopIndexingForSite` and `isSiteIndexing`. */
  function StartIndexingForSite(tasks: map<string, bool>, url: string): map<string, bool> {
    tasks[url := true]
  }

  function StopIndexingForSite(tasks: map<string, bool>, url: string): map<string, bool> {
    tasks - {url}
  }

  function IsSiteIndexing(tasks: map<string, bool>, url: string): bool {
    if url in tasks then tasks[url] else false
  }

  /** A site is reported as being indexed from the moment its run starts until it ends, and
      the other sites' answers do not change. */
  lemma SiteTaskLifecycle(tasks: map<string, bool>, url: string, other: string)
    requires other != url
    ensures IsSiteIndexing(StartIndexingForSite(tasks, url), url)
    ensures !IsSiteIndexing(StopIndexingForSite(StartIndexingForSite(tasks, url), url), url)
    ensures IsSiteIndexing(StartIndexingForSite(tasks, url), other) == IsSiteIndexing(tasks, other)
    ensures IsSiteIndexing(StopIndexingForSite(tasks, url), other) == IsSiteIndexing(tasks, other)
  {
  }

  /** `updateSiteStatusToIndexed(site)`: a site the crawl failed is left as it is; any
      other becomes INDEXED at `now` and is saved. */
  function UpdateSiteStatusToIndexed(db: Db, site: Site, now: int): (r: Db)
    ensures site.status == Failed ==> r == db
    ensures site.status != Failed ==> r == SaveSite(db, site.(status := Indexed, statusTime := Some(now)))
  {
    if site.status == Failed then db
    else SaveSite(db, site.(status := Indexed, statusTime := Some(now)))
  }

  /** `handleIndexingError(url, e)`: the row `findByUrl` returns becomes FAILED with the
      exception's message and `now`, and is saved; with no such row nothing happens. */
  function HandleIndexingError(db: Db, url: string, message: Option<string>, now: int): (r: Db)
    ensures FindSiteByUrl(db.sites, url).None? ==> r == db
    ensures FindSiteByUrl(db.sites, url).Some? ==>
      r == SaveSite(db, FindSiteByUrl(db.sites, url).value.(status := Failed, lastError := message, statusTime := Some(now)))
  {
    match FindSiteByUrl(db.sites, url)
    case None => db
    case Some(s) => SaveSite(db, s.(status := Failed, lastError := message, statusTime := Some(now)))
  }

  /** The start of one site's run: the url joins the task map, the site's old data is
      deleted and a fresh INDEXING row is saved. Returns the state and the in-memory site
      that the crawl receives. */
  function BeginSite(ix: Indexer, cs: ConfigSite, now: int): (r: (Indexer, Site))
    ensures r.1 == Site(DeleteSiteData(ix.db, cs.url).nextId, cs.url, cs.name, Indexing, Some(now), None)
    ensures r.1 in r.0.db.sites && r.0.db.nextId == ix.db.nextId + 1
    ensures IsSiteIndexing(r.0.tasks, cs.url) && r.0.running == ix.running
  {
    var db1 := DeleteSiteData(ix.db, cs.url);
    var site := Site(db1.nextId, cs.url, cs.name, Indexing, Some(now), None);
    (ix.(tasks := StartIndexingForSite(ix.tasks, cs.url),
         db := SaveSite(db1.(nextId := db1.nextId + 1), site)), site)
  }

  /** The end of one site's run. A crawl that returned marks the site INDEXED only if the
      flag is still up. A crawl that threw is handled by `handleIndexingError`. Either way
      the url leaves the task map. */
  function FinishSite(ix: Indexer, url: string, end: CrawlEnd, now: int): (r: Indexer)
    ensures r.running == ix.running && !IsSiteIndexing(r.tasks, url)
    ensures end.Returned? && ix.running ==> r.db == UpdateSiteStatusToIndexed(end.db, end.site, now)
    ensures end.Returned? && !ix.running ==> r.db == end.db
    ensures end.Raised? ==> r.db == HandleIndexingError(end.db, url, end.message, now)
  {
    var db := match end
      case Returned(site, db) => if ix.running then UpdateSiteStatusToIndexed(db, site, now) else db
      case Raised(message, db) => HandleIndexingError(db, url, message, now);
    ix.(tasks := StopIndexingForSite(ix.tasks, url), db := db)
  }

  /** `performIndexing()` with the site runs taken one after another in list order. Each
      configured site is begun, crawled by `crawl` and finished. */
  function PerformIndexing(ix: Indexer, config: seq<ConfigSite>, sites: seq<ConfigSite>,
                           crawl: (Indexer, Site) -> CrawlEnd, now: int): (r: Indexer)
    ensures r.running == ix.running
    decreases |sites|
  {
    if sites == [] then ix
    else
      var next :=
        if IsConfiguredSite(config, sites[0].url) then
          var begun := BeginSite(ix, sites[0], now);
          FinishSite(begun.0, sites[0].url, crawl(begun.0, begun.1), now)
        else ix;
      PerformIndexing(next, config, sites[1..], crawl, now)
  }

  /** A whole run: start, every configured site in turn, and the `finally`. */
  function FullIndexing(ix: Indexer, config: seq<ConfigSite>, crawl: (Indexer, Site) -> CrawlEnd, now: int): (r: Started)
    ensures r.AlreadyRunning? <==> ix.running
    ensures r.Started? ==> !r.ix.running
  {
    match StartFullIndexing(ix)
    case AlreadyRunning(m) => AlreadyRunning(m)
    case Started(ix1) => Started(FinishRun(PerformIndexing(ix1, config, config, crawl, now)))
  }

  // ---------------------------------------------------------------------------------------
  // Properties.

  /** Every site `performIndexing` iterates over is configured: the skip branch is dead. */
  lemma ConfiguredSitesAreConfigured(config: seq<ConfigSite>, i: nat)
    requires i < |config|
    ensures IsConfiguredSite(config, config[i].url)
  {
  }

  /** A stop fails exactly the sites that were INDEXING, keeps every other row, and leaves
      no INDEXING site behind. */
  lemma StopFailsExactlyTheIndexingSites(ix: Indexer, now: int)
    requires ix.running
    ensures var r := StopIndexing(ix, now);
      (forall i | 0 <= i < |ix.db.sites| ::
         (ix.db.sites[i].status == Indexing ==>
            r.db.sites[i] == ix.db.sites[i].(status := Failed, lastError := Some(StopMessage), statusTime := Some(now))) &&
         (ix.db.sites[i].status != Indexing ==> r.db.sites[i] == ix.db.sites[i])) &&
      (forall i | 0 <= i < |r.db.sites| :: r.db.sites[i].status != Indexing)
  {
  }

  /** A second stop does nothing: the first one already dropped the flag. */
  lemma StopIsIdempotent(ix: Indexer, now: int, later: int)
    ensures StopIndexing(StopIndexing(ix, now), later) == StopIndexing(ix, now)
  {
  }

  /** A start while running is refused and changes nothing, and a start after a finished
      run is accepted. */
  lemma StartRefusedWhileRunning(ix: Indexer)
    ensures StartFullIndexing(ix).Started? ==> StartFullIndexing(StartFullIndexing(ix).ix).AlreadyRunning?
    ensures StartFullIndexing(FinishRun(ix)).Started?
  {
  }

  /** A crawl that returned with its site still INDEXING, while the flag is up, leaves the
      site's row INDEXED at `now`, with every other row kept. */
  lemma ReturnedRunEndsIndexed(ix: Indexer, cs: ConfigSite, db: Db, now: int, later: int)
    requires ix.running
    ensures var begun := BeginSite(ix, cs, now);
      var r := FinishSite(begun.0, cs.url, Returned(begun.1, db), later);
      begun.1.(status := Indexed, statusTime := Some(later)) in r.db.sites &&
      forall x | x in r.db.sites :: x.id == begun.1.id || x in db.sites
  {
  }

  /** A stop after the crawl's last write wins: the row the run began is FAILED with the
      stop message, and the returning crawl does not mark it INDEXED. */
  lemma StopDuringRunLeavesSiteFailed(ix: Indexer, cs: ConfigSite, now: int, stopAt: int, later: int)
    requires ix.running
    ensures var begun := BeginSite(ix, cs, now);
      var stopped := StopIndexing(begun.0, stopAt);
      var r := FinishSite(stopped, cs.url, Returned(begun.1, stopped.db), later);
      begun.1.(status := Failed, lastError := Some(StopMessage), statusTime := Some(stopAt)) in r.db.sites &&
      forall i | 0 <= i < |r.db.sites| :: r.db.sites[i].status != Indexing
  {
    var begun := BeginSite(ix, cs, now);
    var stopped := StopIndexing(begun.0, stopAt);
    var i :| 0 <= i < |begun.0.db.sites| && begun.0.db.sites[i] == begun.1;
    StopFailsExactlyTheIndexingSites(begun.0, stopAt);
    assert stopped.db.sites[i] == begun.1.(status := Failed, lastError := Some(StopMessage), statusTime := Some(stopAt));
  }

  /** A crawl task that stamps the site after the stop undoes it. The task saves its
      in-memory site, which is still INDEXING, over the FAILED row. With the flag down the
      run does not finish the site, so the row the run began ends INDEXING. */
  lemma LateStampUndoesStop(ix: Indexer, cs: ConfigSite, visited: set<string>,
                            now: int, stopAt: int, stampAt: int, later: int)
    requires ix.running
    ensures var begun := BeginSite(ix, cs, now);
      var stopped := StopIndexing(begun.0, stopAt);
      var stamped := Crawler.Touch(Crawler.CrawlState(stopped.db, begun.1, visited), stampAt);
      var r := FinishSite(stopped, cs.url, Returned(stamped.site, stamped.db), later);
      var row := begun.1.(statusTime := Some(stampAt));
      row.status == Indexing && row in r.db.sites &&
      forall x | x in r.db.sites && x.id == begun.1.id :: x == row
  {
  }

  /** A site the crawl failed keeps its FAILED status when the run ends normally. */
  lemma FailedSiteIsNotMarkedIndexed(ix: Indexer, url: string, site: Site, db: Db, now: int)
    requires site.status == Failed
    ensures FinishSite(ix, url, Returned(site, db), now).db == db
  {
  }

  /** A crawl that threw leaves the url's first row FAILED with the exception's message. */
  lemma RaisedRunEndsFailed(ix: Indexer, url: string, message: Option<string>, db: Db, now: int)
    requires FindSiteByUrl(db.sites, url).Some?
    ensures var s := FindSiteByUrl(db.sites, url).value;
      s.(status := Failed, lastError := message, statusTime := Some(now)) in FinishSite(ix, url, Raised(message, db), now).db.sites
  {
  }

  /** After a run no site is left in the task map: every run that began has ended. */
  lemma {:induction false} RunClearsTasks(ix: Indexer, config: seq<ConfigSite>, sites: seq<ConfigSite>,
                                          crawl: (Indexer, Site) -> CrawlEnd, now: int, url: string)
    requires !IsSiteIndexing(ix.tasks, url)
    ensures !IsSiteIndexing(PerformIndexing(ix, config, sites, crawl, now).tasks, url)
    decreases |sites|
  {
    if sites != [] {
      var next :=
        if IsConfiguredSite(config, sites[0].url) then
          var begun := BeginSite(ix, sites[0], now);
          FinishSite(begun.0, sites[0].url, crawl(begun.0, begun.1), now)
        else ix;
      if IsConfiguredSite(config, sites[0].url) && sites[0].url != url {
        var begun := BeginSite(ix, sites[0], now);
        assert IsSiteIndexing(begun.0.tasks, url) == IsSiteIndexing(ix.tasks, url) by {
          SiteTaskLifecycle(ix.tasks, sites[0].url, url);
        }
        SiteTaskLifecycle(begun.0.tasks, sites[0].url, url);
      }
      RunClearsTasks(next, config, sites[1..], crawl, now, url);
    }
  }
}
