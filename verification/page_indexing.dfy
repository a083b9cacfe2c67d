/** `PageIndexingService.indexPage`: re-index one configured site. The service looks the
    url up in the configuration, deletes the site's old data, saves a fresh INDEXING row,
    crawls from the url, and ends the row INDEXED or FAILED. */
module PageIndexing {
  import opened Basics
  import opened Text
  import opened Store
  import opened Urls
  import opened Crawler

  /** What the service keeps between calls: the tables and its `visitedPages` set. */
  datatype Service = Service(db: Db, visited: set<string>)

  /** What `indexPage` returns, with the service after the call. */
  datatype Reindexed = Reindexed(ok: bool, svc: Service)

  /** `getConfigSiteByUrl`: the first configured site whose url equals `url` ignoring case. */
  function GetConfigSiteByUrl(config: seq<ConfigSite>, url: string, cm: CaseMap): (r: Option<ConfigSite>)
    ensures r.Some? ==> exists i | 0 <= i < |config| ::
      config[i] == r.value && EqualsIgnoreCase(config[i].url, url, cm) &&
      forall j | 0 <= j < i :: !EqualsIgnoreCase(config[j].url, url, cm)
    ensures r.None? <==> forall i | 0 <= i < |config| :: !EqualsIgnoreCase(config[i].url, url, cm)
    decreases |config|
  {
    if config == [] then None
    else if EqualsIgnoreCase(config[0].url, url, cm) then
      assert config[0] == config[0];
      Some(config[0])
    else
      var r := GetConfigSiteByUrl(config[1..], url, cm);
      assert forall i | 1 <= i < |config| :: config[i] == config[1..][i - 1];
      if r.Some? then
        var i :| 0 <= i < |config[1..]| && config[1..][i] == r.value && EqualsIgnoreCase(config[1..][i].url, url, cm) &&
                 forall j | 0 <= j < i :: !EqualsIgnoreCase(config[1..][j].url, url, cm);
        assert config[i + 1] == r.value;
        r
      else r
  }

  /** The fresh INDEXING row `indexPage` saves for the url, after the old data is gone. */
  function NewSite(db: Db, url: string, name: string, now: int): Site {
    Site(db.nextId, url, name, Indexing, Some(now), None)
  }

  /** The crawl `indexPage` runs, and the state it starts from. As written the service's
      visited set carries over from earlier calls; corrected, every call starts empty. */
  function StartState(b: Build, svc: Service, url: string, name: string, now: int): CrawlState {
    var db1 := DeleteSiteData(svc.db, url);
    var site := NewSite(db1, url, name, now);
    CrawlState(SaveSite(db1.(nextId := db1.nextId + 1), site), site, if b == Corrected then {} else svc.visited)
  }

  /** `indexPage(baseUrl)`. An unknown url returns false with nothing changed. Otherwise the
      site is crawled from the url. A crawl that returns marks the in-memory site INDEXED
      with no error. A crawl that throws marks it FAILED with the exception's message. The
      site is then saved. `crashMessage` gives the message of each escaping exception. */
  function IndexPage(b: Build, svc: Service, config: seq<ConfigSite>, cm: CaseMap, env: Env,
                     crashMessage: Crash -> Option<string>, baseUrl: string, fuel: nat): Reindexed
  {
    match GetConfigSiteByUrl(config, baseUrl, cm)
    case None => Reindexed(false, svc)
    case Some(cs) =>
      var st := StartState(b, svc, baseUrl, cs.name, env.now);
      match SiteCrawl(ServiceCrawler, b, env, st, [baseUrl], fuel)
      case Finished(st1) =>
        var s := st1.site.(status := Indexed, statusTime := Some(env.now), lastError := None);
        Reindexed(true, Service(SaveSite(st1.db, s), st1.visited))
      case Threw(st1, cause) =>
        var s := st1.site.(status := Failed, statusTime := Some(env.now),
                           lastError := Some("Ошибка индексации: " + ToJava(crashMessage(cause))));
        Reindexed(false, Service(SaveSite(st1.db, s), st1.visited))
  }

  /** A url that no configured site matches leaves the service as it was. */
  lemma UnknownSiteChangesNothing(b: Build, svc: Service, config: seq<ConfigSite>, cm: CaseMap, env: Env,
                                  crashMessage: Crash -> Option<string>, baseUrl: string, fuel: nat)
    requires forall i | 0 <= i < |config| :: !EqualsIgnoreCase(config[i].url, baseUrl, cm)
    ensures IndexPage(b, svc, config, cm, env, crashMessage, baseUrl, fuel) == Reindexed(false, svc)
  {
  }

  /** The row saved at the end has the fresh id, the url and the configured name. It is
      INDEXED with no error exactly when the call returns true. Otherwise it is FAILED with
      the indexing error. Every row that deleting the old data leaves is kept. */
  lemma IndexPageOutcome(b: Build, svc: Service, config: seq<ConfigSite>, cm: CaseMap, env: Env,
                         crashMessage: Crash -> Option<string>, baseUrl: string, fuel: nat)
    requires GetConfigSiteByUrl(config, baseUrl, cm).Some?
    ensures var r := IndexPage(b, svc, config, cm, env, crashMessage, baseUrl, fuel);
      var cs := GetConfigSiteByUrl(config, baseUrl, cm).value;
      exists s | s in r.svc.db.sites ::
        s.id == svc.db.nextId && s.url == baseUrl && s.name == cs.name && s.statusTime == Some(env.now) &&
        (r.ok ==> s.status == Indexed && s.lastError == None) &&
        (!r.ok ==> s.status == Failed && s.lastError.Some? && StartsWith(s.lastError.value, "Ошибка индексации: "))
    ensures var r := IndexPage(b, svc, config, cm, env, crashMessage, baseUrl, fuel);
      forall x | x in DeleteSiteData(svc.db, baseUrl).sites && x.id != svc.db.nextId :: x in r.svc.db.sites
  {
    var cs := GetConfigSiteByUrl(config, baseUrl, cm).value;
    var st := StartState(b, svc, baseUrl, cs.name, env.now);
    var db1 := DeleteSiteData(svc.db, baseUrl);
    DeleteSiteDataRemovesExactlyTheSite(svc.db, baseUrl);
    CrawlGrows(ServiceCrawler, b, env, st, [baseUrl], fuel);
    var out := SiteCrawl(ServiceCrawler, b, env, st, [baseUrl], fuel);
    var r := IndexPage(b, svc, config, cm, env, crashMessage, baseUrl, fuel);
    var s := if out.Finished? then out.st.site.(status := Indexed, statusTime := Some(env.now), lastError := None)
             else out.st.site.(status := Failed, statusTime := Some(env.now),
                               lastError := Some("Ошибка индексации: " + ToJava(crashMessage(out.cause))));
    assert r.svc.db == SaveSite(out.st.db, s);
    assert s in r.svc.db.sites;
    if !r.ok {
      assert s.lastError.value == "Ошибка индексации: " + ToJava(crashMessage(out.cause));
      assert StartsWith(s.lastError.value, "Ошибка индексации: ");
    }
  }

  // ---------------------------------------------------------------------------------------
  // The visited set outlives the call.

  /** As written: a url the service has already visited is re-indexed as an empty site. The
      old pages and lemmas are deleted, the crawl fetches nothing, and the call still returns
      true with the site INDEXED. */
  lemma VisitedUrlReindexesEmpty(svc: Service, config: seq<ConfigSite>, cm: CaseMap, env: Env,
                                 crashMessage: Crash -> Option<string>, baseUrl: string, fuel: nat)
    requires GetConfigSiteByUrl(config, baseUrl, cm).Some?
    requires baseUrl in svc.visited
    ensures var r := IndexPage(AsWritten, svc, config, cm, env, crashMessage, baseUrl, fuel);
      r.ok && r.svc.db.pages == DeleteSiteData(svc.db, baseUrl).pages
  {
    var cs := GetConfigSiteByUrl(config, baseUrl, cm).value;
    var st := StartState(AsWritten, svc, baseUrl, cs.name, env.now);
    VisitedUrlIsSkipped(ServiceCrawler, AsWritten, env, st, baseUrl);
    var step := Task(ServiceCrawler, AsWritten, env);
    if fuel > 0 {
      assert step(st, baseUrl) == Continue(st, []);
      assert Crawl(step, st, [], fuel - 1) == Finished(st);
      assert [baseUrl][1..] == [];
      assert Crawl(step, st, [], fuel) == Finished(st);
    }
    assert SiteCrawl(ServiceCrawler, AsWritten, env, st, [baseUrl], fuel) == Finished(st);
  }

  /** As written: once a call has crawled a url and returned true, the next call for the same
      url deletes what the first one stored and fetches nothing. */
  lemma SecondIndexPageFetchesNothing(svc: Service, config: seq<ConfigSite>, cm: CaseMap, env: Env,
                                      crashMessage: Crash -> Option<string>, baseUrl: string, fuel: nat)
    requires GetConfigSiteByUrl(config, baseUrl, cm).Some?
    requires fuel > 0
    requires IndexPage(AsWritten, svc, config, cm, env, crashMessage, baseUrl, fuel).ok
    ensures var r1 := IndexPage(AsWritten, svc, config, cm, env, crashMessage, baseUrl, fuel);
      var r2 := IndexPage(AsWritten, r1.svc, config, cm, env, crashMessage, baseUrl, fuel);
      r2.ok && r2.svc.db.pages == DeleteSiteData(r1.svc.db, baseUrl).pages
  {
    var cs := GetConfigSiteByUrl(config, baseUrl, cm).value;
    var st := StartState(AsWritten, svc, baseUrl, cs.name, env.now);
    CrawlMarksVisited(ServiceCrawler, AsWritten, env, st, [baseUrl], fuel);
    var r1 := IndexPage(AsWritten, svc, config, cm, env, crashMessage, baseUrl, fuel);
    assert baseUrl in r1.svc.visited;
    VisitedUrlReindexesEmpty(r1.svc, config, cm, env, crashMessage, baseUrl, fuel);
  }

  /** Generated ids are fresh: no page refers to a site id the counter has not handed out. */
  predicate IdsFresh(db: Db) {
    forall i | 0 <= i < |db.pages| :: db.pages[i].siteId < db.nextId
  }

  /** `indexPage` keeps the ids fresh. */
  lemma IndexPageKeepsIdsFresh(b: Build, svc: Service, config: seq<ConfigSite>, cm: CaseMap, env: Env,
                               crashMessage: Crash -> Option<string>, baseUrl: string, fuel: nat)
    requires IdsFresh(svc.db)
    ensures IdsFresh(IndexPage(b, svc, config, cm, env, crashMessage, baseUrl, fuel).svc.db)
  {
    if GetConfigSiteByUrl(config, baseUrl, cm).Some? {
      var cs := GetConfigSiteByUrl(config, baseUrl, cm).value;
      var st := StartState(b, svc, baseUrl, cs.name, env.now);
      DeleteSiteDataRemovesExactlyTheSite(svc.db, baseUrl);
      assert IdsFresh(st.db) by {
        forall i | 0 <= i < |st.db.pages| ensures st.db.pages[i].siteId < st.db.nextId {
          assert st.db.pages[i] in svc.db.pages;
        }
      }
      CrawlGrows(ServiceCrawler, b, env, st, [baseUrl], fuel);
      var out := SiteCrawl(ServiceCrawler, b, env, st, [baseUrl], fuel);
      forall i | 0 <= i < |out.st.db.pages| ensures out.st.db.pages[i].siteId < out.st.db.nextId {
        if i < |st.db.pages| {
          assert out.st.db.pages[i] == st.db.pages[i];
        }
      }
    }
  }

  /** Corrected: every call stores the root page of the site it re-indexes, whatever earlier
      calls visited, as long as the root is an HTML document and not a cart link. */
  lemma CorrectedIndexPageStoresRoot(svc: Service, config: seq<ConfigSite>, cm: CaseMap, env: Env,
                                     crashMessage: Crash -> Option<string>, baseUrl: string, fuel: nat)
    requires GetConfigSiteByUrl(config, baseUrl, cm).Some?
    requires IdsFresh(svc.db)
    requires fuel > 0 && baseUrl != [] && !ShouldSkipUrl(baseUrl)
    requires env.web(baseUrl).Document? && env.web(baseUrl).contentType.Some?
    requires StartsWith(env.web(baseUrl).contentType.value, "text/html")
    ensures var r := IndexPage(Corrected, svc, config, cm, env, crashMessage, baseUrl, fuel);
      exists i | 0 <= i < |r.svc.db.pages| ::
        r.svc.db.pages[i].siteId == svc.db.nextId && r.svc.db.pages[i].path == "" &&
        r.svc.db.pages[i].content == Some(env.web(baseUrl).html)
  {
    var cs := GetConfigSiteByUrl(config, baseUrl, cm).value;
    var st := StartState(Corrected, svc, baseUrl, cs.name, env.now);
    DeleteSiteDataRemovesExactlyTheSite(svc.db, baseUrl);
    forall i | 0 <= i < |st.db.pages| ensures st.db.pages[i].siteId != st.site.id {
      assert st.db.pages[i] in svc.db.pages;
    }
    CorrectedRootIsCrawled(ServiceCrawler, st);
    assert st.site.url == baseUrl;
    var d := env.web(baseUrl);
    StartPageSurvivesCrawl(ServiceCrawler, Corrected, env, st, baseUrl, fuel,
                           |st.db.pages| + |MediaDrafts(d.imgSrcs, d.hrefs, st.site.url)|);
    RootPathIsEmpty(baseUrl);
    var out := SiteCrawl(ServiceCrawler, Corrected, env, st, [baseUrl], fuel);
    var r := IndexPage(Corrected, svc, config, cm, env, crashMessage, baseUrl, fuel);
    assert r.svc.db.pages == out.st.db.pages;
  }
}
