/** The persistent entities of the search engine and the in-memory stand-in for the
    database tables that the Spring Data repositories read and write. */
module Store {
  import opened Basics

  /** `IndexingStatus`. */
  datatype Status = Indexing | Indexed | Failed

  /** `Status.toString()`, as reported by the statistics endpoint. */
  function StatusName(s: Status): string {
    match s
    case Indexing => "INDEXING"
    case Indexed => "INDEXED"
    case Failed => "FAILED"
  }

  /** A crawled site. `statusTime` is a `LocalDateTime`, kept as epoch seconds in UTC. */
  datatype Site = Site(id: nat, url: string, name: string, status: Status,
                       statusTime: Option<int>, lastError: Option<string>)

  /** A stored resource of a site: an HTML page, a media file or a placeholder. */
  datatype Page = Page(id: nat, siteId: nat, path: string, code: int, content: Option<string>)

  /** A page that has been built but not saved yet (`new Page()` before `save`). */
  datatype Draft = Draft(path: string, code: int, content: Option<string>)

  /** A lemma row. Rows are identified by (siteId, text) instead of a generated id. */
  datatype Lemma = Lemma(siteId: nat, text: string, frequency: int)

  /** An inverted-index edge from a page to the lemma row (lemmaSite, lemmaText). */
  datatype IndexEntry = IndexEntry(pageId: nat, lemmaSite: nat, lemmaText: string, rank: int)

  /** All tables. Rows keep insertion order; `nextId` feeds generated ids of sites and pages. */
  datatype Db = Db(sites: seq<Site>, pages: seq<Page>, lemmas: seq<Lemma>,
                   indexes: seq<IndexEntry>, nextId: nat)

  /** One `{name, url}` entry of the configured site list. */
  datatype ConfigSite = ConfigSite(name: string, url: string)

  /** `siteRepository.findByUrl(url)` / `findFirstByUrl(url)`: the first site row with that url. */
  function FindSiteByUrl(sites: seq<Site>, url: string): (r: Option<Site>)
    ensures r.Some? ==> r.value in sites && r.value.url == url
    ensures r.None? <==> forall i | 0 <= i < |sites| :: sites[i].url != url
    decreases |sites|
  {
    if sites == [] then None
    else if sites[0].url == url then Some(sites[0])
    else FindSiteByUrl(sites[1..], url)
  }

  /** Position of the first site row with the given id. */
  function SiteIndex(sites: seq<Site>, id: nat): (r: Option<nat>)
    ensures r.Some? ==> r.value < |sites| && sites[r.value].id == id
    ensures r.None? ==> forall i | 0 <= i < |sites| :: sites[i].id != id
    decreases |sites|
  {
    if sites == [] then None
    else if sites[0].id == id then Some(0)
    else match SiteIndex(sites[1..], id)
      case None => None
      case Some(i) => Some(i + 1)
  }

  /** `siteRepository.save(site)`: JPA merge, which replaces the row with the same id
      or inserts the site when no such row exists. */
  function SaveSite(db: Db, s: Site): (r: Db)
    ensures s in r.sites
    ensures forall x | x in r.sites :: x == s || (x in db.sites && x.id != s.id)
    ensures forall x | x in db.sites && x.id != s.id :: x in r.sites
    ensures r.pages == db.pages && r.lemmas == db.lemmas && r.indexes == db.indexes && r.nextId == db.nextId
  {
    match SiteIndex(db.sites, s.id)
    case Some(k) =>
      var ns := seq(|db.sites|, i requires 0 <= i < |db.sites| =>
                      if db.sites[i].id == s.id then s else db.sites[i]);
      assert ns[k] == s;
      assert forall x | x in db.sites && x.id != s.id :: x in ns by {
        forall x | x in db.sites && x.id != s.id ensures x in ns {
          var i :| 0 <= i < |db.sites| && db.sites[i] == x;
          assert ns[i] == x;
        }
      }
      db.(sites := ns)
    case None =>
      db.(sites := db.sites + [s])
  }

  /** `pageRepository.existsByPath(path)`: a page with that path exists on any site. */
  predicate ExistsByPath(pages: seq<Page>, path: string) {
    exists i | 0 <= i < |pages| :: pages[i].path == path
  }

  /** `pageRepository.existsByPathAndSiteId(path, siteId)`. */
  predicate ExistsByPathAndSite(pages: seq<Page>, path: string, siteId: nat) {
    exists i | 0 <= i < |pages| :: pages[i].path == path && pages[i].siteId == siteId
  }

  /** `pageRepository.save(page)` for a new page: the row gets the next generated id. */
  function InsertPage(db: Db, siteId: nat, d: Draft): (r: Db)
    ensures r.pages == db.pages + [Page(db.nextId, siteId, d.path, d.code, d.content)]
    ensures r.nextId == db.nextId + 1
    ensures r.sites == db.sites && r.lemmas == db.lemmas && r.indexes == db.indexes
  {
    db.(pages := db.pages + [Page(db.nextId, siteId, d.path, d.code, d.content)],
        nextId := db.nextId + 1)
  }

  /** Saves the drafts one after another, in order. */
  function InsertPages(db: Db, siteId: nat, ds: seq<Draft>): (r: Db)
    ensures |r.pages| == |db.pages| + |ds|
    ensures r.pages[..|db.pages|] == db.pages
    ensures forall j | 0 <= j < |ds| ::
      r.pages[|db.pages| + j] == Page(db.nextId + j, siteId, ds[j].path, ds[j].code, ds[j].content)
    ensures r.nextId == db.nextId + |ds|
    ensures r.sites == db.sites && r.lemmas == db.lemmas && r.indexes == db.indexes
    decreases |ds|
  {
    if ds == [] then db else InsertPages(InsertPage(db, siteId, ds[0]), siteId, ds[1..])
  }

  /** Every (site, path) pair names at most one page: the uniqueness the crawler's
      existence checks are meant to keep. */
  ghost predicate PagesUnique(pages: seq<Page>) {
    forall i, j | 0 <= i < j < |pages| ::
      !(pages[i].siteId == pages[j].siteId && pages[i].path == pages[j].path)
  }

  /** Every (site, text) pair names at most one lemma row. */
  ghost predicate LemmasKeyed(t: seq<Lemma>) {
    forall i, j | 0 <= i < j < |t| :: !(t[i].siteId == t[j].siteId && t[i].text == t[j].text)
  }

  /** The site a page belongs to, if the page exists. */
  function PageSite(pages: seq<Page>, pageId: nat): (r: Option<nat>)
    ensures r.Some? ==> exists i | 0 <= i < |pages| :: pages[i].id == pageId && pages[i].siteId == r.value
    ensures r.None? ==> forall i | 0 <= i < |pages| :: pages[i].id != pageId
    decreases |pages|
  {
    if pages == [] then None
    else if pages[0].id == pageId then Some(pages[0].siteId)
    else
      var r := PageSite(pages[1..], pageId);
      assert forall i | 1 <= i < |pages| :: pages[i] == pages[1..][i - 1];
      r
  }

  /** `deleteSiteData(url)` of `IndexingService` and `PageIndexingService`: when a site row
      has that url, delete the index entries of its pages (`i.page.site.id = :siteId`), its
      lemmas, its pages and the row itself; otherwise change nothing. */
  function DeleteSiteData(db: Db, url: string): Db {
    match FindSiteByUrl(db.sites, url)
    case None => db
    case Some(s) =>
      Db(Filter(db.sites, (x: Site) => x.id != s.id),
         Filter(db.pages, (p: Page) => p.siteId != s.id),
         Filter(db.lemmas, (l: Lemma) => l.siteId != s.id),
         Filter(db.indexes, (e: IndexEntry) => PageSite(db.pages, e.pageId) != Some(s.id)),
         db.nextId)
  }

  /** Deleting a site's data removes exactly its rows: every row that remains belongs to
      another site, every row of another site remains, and an unknown url changes nothing. */
  lemma DeleteSiteDataRemovesExactlyTheSite(db: Db, url: string)
    ensures FindSiteByUrl(db.sites, url).None? ==> DeleteSiteData(db, url) == db
    ensures FindSiteByUrl(db.sites, url).Some? ==>
      var id := FindSiteByUrl(db.sites, url).value.id;
      var r := DeleteSiteData(db, url);
      (forall x :: x in r.sites <==> x in db.sites && x.id != id) &&
      (forall p :: p in r.pages <==> p in db.pages && p.siteId != id) &&
      (forall l :: l in r.lemmas <==> l in db.lemmas && l.siteId != id) &&
      (forall e :: e in r.indexes <==> e in db.indexes && PageSite(db.pages, e.pageId) != Some(id)) &&
      r.nextId == db.nextId
  {
  }
}
