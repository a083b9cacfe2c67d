/** One crawl task of the three crawlers (`PageCrawler`, the inner `PageCrawler` of
    `PageIndexingService`, and `IndexPageSite`), and the recursive crawl that `invokeAll`
    runs, taken one task at a time. A task has a guard, a fetch with its outcomes, the media
    and the page it saves, the lemma write and the child links. The module also holds the
    stand-alone link helpers of `PageCrawler`. */
module Crawler {
  import opened Basics
  import opened Text
  import opened Store
  import opened Urls
  import opened Lemmatizer
  import opened IndexWriter

  /** Which of the three tasks runs. */
  datatype Flavor = MainCrawler | ServiceCrawler | SiteTask {
    /** The tokenisation its `lemmatizeText` uses. */
    function Tokens(): Variant {
      if this == MainCrawler then SplitOnNonLetters else StripThenSplit
    }

    /** `PageCrawler` builds a new `visitedPages` set for every task, so the set is always
        empty when `compute` starts. The other two share one set among all tasks of a crawl. */
    predicate SharesVisited() {
      this != MainCrawler
    }
  }

  /** `AsWritten` is the code as it stands. `Corrected` applies the corrections listed under
      the findings: lemma rows kept per site with document frequency, a page-existence check
      per site, and a fresh visited set for each `indexPage` call. */
  datatype Build = AsWritten | Corrected

  /** The `processPageContent` policy a task uses. */
  function Writer(f: Flavor, b: Build): Policy {
    if b == Corrected then PerSitePolicy
    else if f == SiteTask then IndexPageSitePolicy
    else PageCrawlerPolicy
  }

  /** What fetching a url gives, after the politeness sleep:
      - `Document`: the response's content type and status code, the document's HTML, the
        absolute `src` of each `img[src]` element, and the absolute `href` of each `a[href]`
        element, in document order;
      - `LoadFailed`: the `IOException` the fetch throws, with its message;
      - `Interrupted`: the `InterruptedException` the sleep throws, with its message. */
  datatype Fetch =
    | Document(contentType: Option<string>, code: int, html: string,
               imgSrcs: seq<string>, hrefs: seq<string>)
    | LoadFailed(message: Option<string>)
    | Interrupted(message: Option<string>)

  /** The runtime exceptions that escape `compute`:
      - `NullContentType`: `contentType.startsWith` on a null content type;
      - `NullContent`: `Jsoup.parse(null)` on a page that was saved without content. */
  datatype Crash = NullContentType | NullContent

  /** The world a crawl runs in:
      - `web`: the fetch of each url;
      - `textOf`: `Jsoup.parse(content).text()`;
      - `lang`: the lemmatizer's collaborators;
      - `now`: the clock. */
  datatype Env = Env(web: string -> Fetch, textOf: string -> string, lang: TextEnv, now: int)

  /** The tables, the in-memory `Site` object the tasks share, and the visited set. */
  datatype CrawlState = CrawlState(db: Db, site: Site, visited: set<string>)

  /** What one task leaves behind. `Continue` carries the urls of its child tasks; `Crashed`
      carries the exception that escaped. */
  datatype Step = Continue(st: CrawlState, children: seq<string>) | Crashed(st: CrawlState, cause: Crash)

  // ---------------------------------------------------------------------------------------
  // Link helpers.

  /** `markUrlAsVisited`, and equally `visitedPages.add(url)`: the result is true exactly
      when the url was not in the set, and afterwards the url is in the set. */
  function MarkVisited(visited: set<string>, url: string): (r: (bool, set<string>))
    ensures r.0 <==> url !in visited
    ensures r.1 == visited + {url}
  {
    if url in visited then (false, visited) else (true, visited + {url})
  }

  /** Marking is idempotent: a second mark of the same url reports it as seen and leaves
      the set as it is. */
  lemma MarkVisitedTwice(visited: set<string>, url: string)
    ensures var r := MarkVisited(MarkVisited(visited, url).1, url); !r.0 && r.1 == MarkVisited(visited, url).1
  {
  }

  /** `saveMedia(url, type)`: the path relative to the site, code 200, content `TYPE: url`. */
  function MediaDraft(url: string, kind: string, siteUrl: string): Draft {
    Draft(PagePath(url, siteUrl), 200, Some(kind + ": " + url))
  }

  /** The file half of `indexFilesAndImages`. A cleaned link is saved when it names a
      document or an archive. */
  function FileDrafts(hrefs: seq<string>, siteUrl: string): (r: seq<Draft>)
    ensures |r| <= |hrefs|
    ensures forall j | 0 <= j < |r| :: r[j].code == 200
    decreases |hrefs|
  {
    if hrefs == [] then []
    else
      var c := CleanUrl(hrefs[0]);
      (if IsMediaFile(c) then [MediaDraft(c, "FILE", siteUrl)] else []) + FileDrafts(hrefs[1..], siteUrl)
  }

  /** Every file page comes from a link to a document or an archive. */
  lemma {:induction false} FileDraftsComeFromFileLinks(hrefs: seq<string>, siteUrl: string, j: nat)
    requires j < |FileDrafts(hrefs, siteUrl)|
    ensures exists k | 0 <= k < |hrefs| ::
      IsMediaFile(CleanUrl(hrefs[k])) && FileDrafts(hrefs, siteUrl)[j] == MediaDraft(CleanUrl(hrefs[k]), "FILE", siteUrl)
    decreases |hrefs|
  {
    var c := CleanUrl(hrefs[0]);
    var head := if IsMediaFile(c) then [MediaDraft(c, "FILE", siteUrl)] else [];
    var rest := FileDrafts(hrefs[1..], siteUrl);
    assert FileDrafts(hrefs, siteUrl) == head + rest;
    if j < |head| {
      assert IsMediaFile(CleanUrl(hrefs[0]));
    } else {
      FileDraftsComeFromFileLinks(hrefs[1..], siteUrl, j - |head|);
      var k :| 0 <= k < |hrefs[1..]| && IsMediaFile(CleanUrl(hrefs[1..][k]))
               && rest[j - |head|] == MediaDraft(CleanUrl(hrefs[1..][k]), "FILE", siteUrl);
      assert hrefs[k + 1] == hrefs[1..][k];
    }
  }

  /** Every link to a document or an archive gets a file page. */
  lemma {:induction false} FileLinksGetFileDrafts(hrefs: seq<string>, siteUrl: string, k: nat)
    requires k < |hrefs| && IsMediaFile(CleanUrl(hrefs[k]))
    ensures MediaDraft(CleanUrl(hrefs[k]), "FILE", siteUrl) in FileDrafts(hrefs, siteUrl)
    decreases |hrefs|
  {
    var c := CleanUrl(hrefs[0]);
    var head := if IsMediaFile(c) then [MediaDraft(c, "FILE", siteUrl)] else [];
    var rest := FileDrafts(hrefs[1..], siteUrl);
    assert FileDrafts(hrefs, siteUrl) == head + rest;
    if k > 0 {
      assert hrefs[1..][k - 1] == hrefs[k];
      FileLinksGetFileDrafts(hrefs[1..], siteUrl, k - 1);
    }
  }

  /** `indexFilesAndImages`: every image first, then every link to a document or an archive.
      Every media page has code 200. */
  function MediaDrafts(imgSrcs: seq<string>, hrefs: seq<string>, siteUrl: string): (r: seq<Draft>)
    ensures |r| == |imgSrcs| + |FileDrafts(hrefs, siteUrl)|
    ensures forall i | 0 <= i < |imgSrcs| :: r[i] == MediaDraft(CleanUrl(imgSrcs[i]), "IMAGE", siteUrl)
    ensures r[|imgSrcs|..] == FileDrafts(hrefs, siteUrl)
    ensures forall j | 0 <= j < |r| :: r[j].code == 200
  {
    var images := seq(|imgSrcs|, i requires 0 <= i < |imgSrcs| => MediaDraft(CleanUrl(imgSrcs[i]), "IMAGE", siteUrl));
    var files := FileDrafts(hrefs, siteUrl);
    assert (images + files)[|imgSrcs|..] == files;
    images + files
  }

  /** `savePhoneLink(telUrl)`: the text after `tel:` becomes the path of a page with code 0,
      unless the site already has a page with that path. Either way the path is taken
      afterwards. */
  function SavePhoneLink(db: Db, siteId: nat, telUrl: string): (r: Db)
    requires |telUrl| >= 4
    ensures ExistsByPathAndSite(db.pages, telUrl[4..], siteId) ==> r == db
    ensures !ExistsByPathAndSite(db.pages, telUrl[4..], siteId) ==>
      r.pages == db.pages + [Page(db.nextId, siteId, telUrl[4..], 0, Some("Телефонный номер: " + telUrl[4..]))]
    ensures ExistsByPathAndSite(r.pages, telUrl[4..], siteId)
  {
    var phone := telUrl[4..];
    if ExistsByPathAndSite(db.pages, phone, siteId) then db
    else
      var r := InsertPage(db, siteId, Draft(phone, 0, Some("Телефонный номер: " + phone)));
      assert r.pages[|db.pages|].path == phone;
      r
  }

  /** Saving the same phone link twice stores it once. */
  lemma SavePhoneLinkIdempotent(db: Db, siteId: nat, telUrl: string)
    requires |telUrl| >= 4
    ensures SavePhoneLink(SavePhoneLink(db, siteId, telUrl), siteId, telUrl) == SavePhoneLink(db, siteId, telUrl)
  {
  }

  /** `saveJavaScriptLink(jsUrl)`: the whole url becomes the path of a page with code 0,
      unless the site already has a page with that path. Either way the path is taken
      afterwards. */
  function SaveJavaScriptLink(db: Db, siteId: nat, jsUrl: string): (r: Db)
    ensures ExistsByPathAndSite(db.pages, jsUrl, siteId) ==> r == db
    ensures !ExistsByPathAndSite(db.pages, jsUrl, siteId) ==>
      r.pages == db.pages + [Page(db.nextId, siteId, jsUrl, 0, Some("JavaScript ссылка: " + jsUrl))]
    ensures ExistsByPathAndSite(r.pages, jsUrl, siteId)
  {
    if ExistsByPathAndSite(db.pages, jsUrl, siteId) then db
    else
      var r := InsertPage(db, siteId, Draft(jsUrl, 0, Some("JavaScript ссылка: " + jsUrl)));
      assert r.pages[|db.pages|].path == jsUrl;
      r
  }

  /** Saving the same JavaScript link twice stores it once. */
  lemma SaveJavaScriptLinkIdempotent(db: Db, siteId: nat, jsUrl: string)
    ensures SaveJavaScriptLink(SaveJavaScriptLink(db, siteId, jsUrl), siteId, jsUrl) == SaveJavaScriptLink(db, siteId, jsUrl)
  {
  }

  /** Whether `handleResponse` takes its HTML branch. That branch only refetches the page
      and parses it, and stores nothing. */
  predicate IsHtmlResponse(contentType: Option<string>) {
    contentType.Some? && !StartsWith(contentType.value, "image/") && Contains(contentType.value, "text/html")
  }

  /** `handleResponse`: an image or an unknown response is stored under the url's path with
      the response code, unless the site already has a page there. */
  function HandleResponse(db: Db, siteId: nat, path: string, contentType: Option<string>, code: int): (r: Db)
    ensures ExistsByPathAndSite(db.pages, path, siteId) || IsHtmlResponse(contentType) ==> r == db
    ensures !ExistsByPathAndSite(db.pages, path, siteId) && !IsHtmlResponse(contentType) ==>
      |r.pages| == |db.pages| + 1 && r.pages[..|db.pages|] == db.pages &&
      r.pages[|db.pages|].siteId == siteId && r.pages[|db.pages|].path == path &&
      r.pages[|db.pages|].code == code &&
      r.pages[|db.pages|].content ==
        Some(if contentType.Some? && StartsWith(contentType.value, "image/")
             then "Image content: " + contentType.value
             else "Unhandled content type: " + ToJava(contentType))
  {
    if ExistsByPathAndSite(db.pages, path, siteId) then db
    else if contentType.Some? && StartsWith(contentType.value, "image/") then
      InsertPage(db, siteId, Draft(path, code, Some("Image content: " + contentType.value)))
    else if contentType.Some? && Contains(contentType.value, "text/html") then db
    else
      InsertPage(db, siteId, Draft(path, code, Some("Unhandled content type: " + ToJava(contentType))))
  }

  /** A second response for the same path stores nothing more. */
  lemma HandleResponseIdempotent(db: Db, siteId: nat, path: string, contentType: Option<string>, code: int)
    ensures var once := HandleResponse(db, siteId, path, contentType, code);
      HandleResponse(once, siteId, path, contentType, code) == once
  {
    var once := HandleResponse(db, siteId, path, contentType, code);
    if !ExistsByPathAndSite(db.pages, path, siteId) && !IsHtmlResponse(contentType) {
      assert once.pages[|db.pages|].path == path;
    }
  }

  // ---------------------------------------------------------------------------------------
  // One task.

  /** The page-existence part of the guard. As written it is `existsByPath(path)`, which
      looks at the pages of every site; corrected, it looks at the site's own pages. */
  predicate PathTaken(b: Build, pages: seq<Page>, path: string, siteId: nat) {
    if b == AsWritten then ExistsByPath(pages, path) else ExistsByPathAndSite(pages, path, siteId)
  }

  /** The guard, `!visitedPages.add(url) || shouldSkipUrl(url) || existsByPath(...)`: whether
      the task goes on, and the visited set after the `add`, which runs in every case. */
  function Guard(f: Flavor, b: Build, st: CrawlState, url: string): (r: (bool, set<string>))
    ensures r.0 <==> ((!f.SharesVisited() || url !in st.visited) && !ShouldSkipUrl(url)
                     && !PathTaken(b, st.db.pages, PagePath(url, st.site.url), st.site.id))
    ensures r.1 == if f.SharesVisited() then st.visited + {url} else st.visited
  {
    var mark := if f.SharesVisited() then MarkVisited(st.visited, url) else (true, st.visited);
    (mark.0 && !ShouldSkipUrl(url) && !PathTaken(b, st.db.pages, PagePath(url, st.site.url), st.site.id),
     mark.1)
  }

  /** `site.setStatusTime(now); siteRepository.save(site)`. */
  function Touch(st: CrawlState, now: int): (r: CrawlState)
    ensures r.site == st.site.(statusTime := Some(now)) && r.site in r.db.sites
    ensures r.db.pages == st.db.pages && r.db.lemmas == st.db.lemmas
    ensures r.db.indexes == st.db.indexes && r.db.nextId == st.db.nextId && r.visited == st.visited
  {
    var s := st.site.(statusTime := Some(now));
    st.(db := SaveSite(st.db, s), site := s)
  }

  /** `handleException(message, e)`: the site becomes FAILED and is stamped with the time.
      Its last error is the message, the url and the exception's message. The site is saved;
      no page or lemma changes. */
  function HandleException(st: CrawlState, message: string, url: string, error: Option<string>, now: int): (r: CrawlState)
    ensures r.site == st.site.(status := Failed, statusTime := Some(now),
                               lastError := Some(message + " " + url + ": " + ToJava(error)))
    ensures r.site in r.db.sites
    ensures r.db.pages == st.db.pages && r.db.lemmas == st.db.lemmas
    ensures r.db.indexes == st.db.indexes && r.db.nextId == st.db.nextId && r.visited == st.visited
  {
    var s := st.site.(status := Failed, statusTime := Some(now),
                      lastError := Some(message + " " + url + ": " + ToJava(error)));
    st.(db := SaveSite(st.db, s), site := s)
  }

  /** The content a fetched resource is stored with:
      - the HTML for `text/html...`;
      - `FILE: url` for `image/...` and `application/...`;
      - none otherwise. */
  function StoredContent(contentType: string, url: string, html: string): (r: Option<string>)
    ensures r.Some? <==> (StartsWith(contentType, "text/html") || StartsWith(contentType, "image/")
                         || StartsWith(contentType, "application/"))
    ensures r.Some? && !StartsWith(contentType, "text/html") ==> r.value == "FILE: " + url
  {
    if StartsWith(contentType, "text/html") then Some(html)
    else if StartsWith(contentType, "image/") || StartsWith(contentType, "application/") then Some("FILE: " + url)
    else None
  }

  /** `processPageContent(page)` on stored content: the text Jsoup extracts is lemmatized
      and merged into the tables by the flavour's writer. */
  function WritePage(f: Flavor, b: Build, env: Env, db: Db, pageId: nat, siteId: nat, content: string): (r: Db)
    ensures r.sites == db.sites && r.pages == db.pages && r.nextId == db.nextId
  {
    var text := env.textOf(content);
    var counts := Lemmas(f.Tokens(), env.lang, text);
    var keys := LemmaOrder(f.Tokens(), env.lang, text);
    var tb := Merge(Writer(f, b), Tables(db.lemmas, db.indexes), pageId, siteId, keys, counts);
    db.(lemmas := tb.lemmas, indexes := tb.indexes)
  }

  /** One task, `compute()`:
      1. The guard.
      2. The sleep, which may be interrupted.
      3. The time stamp.
      4. The fetch, which may fail.
      5. For HTML, the media pages.
      6. The page itself.
      7. `processPageContent`.
      8. The child urls.
      A failed fetch or an interrupt is handled; a null content type or null content escapes. */
  function Compute(f: Flavor, b: Build, env: Env, st: CrawlState, url: string): Step {
    var guard := Guard(f, b, st, url);
    if !guard.0 then Continue(st.(visited := guard.1), [])
    else Process(f, b, env, st.(visited := guard.1), url)
  }

  /** The task after the guard: the sleep, the time stamp and the fetch. */
  function Process(f: Flavor, b: Build, env: Env, st: CrawlState, url: string): Step {
    match env.web(url)
    case Interrupted(m) => Continue(HandleException(st, "⏳ Поток прерван", url, m, env.now), [])
    case LoadFailed(m) => Continue(HandleException(Touch(st, env.now), "❌ Ошибка при загрузке", url, m, env.now), [])
    case Document(ct, code, html, imgs, hrefs) =>
      if ct.None? then Crashed(Touch(st, env.now), NullContentType)
      else StoreDocument(f, b, env, Touch(st, env.now), url, env.web(url))
  }

  /** A fetched document with a content type: the media pages for HTML, the page, then
      the write of its lemmas, and the child urls. */
  function StoreDocument(f: Flavor, b: Build, env: Env, st: CrawlState, url: string, d: Fetch): Step
    requires d.Document? && d.contentType.Some?
  {
    var media := if StartsWith(d.contentType.value, "text/html") then MediaDrafts(d.imgSrcs, d.hrefs, st.site.url) else [];
    var db1 := InsertPages(st.db, st.site.id, media);
    var content := StoredContent(d.contentType.value, url, d.html);
    var db2 := InsertPage(db1, st.site.id, Draft(PagePath(url, st.site.url), d.code, content));
    if content.None? then Crashed(st.(db := db2), NullContent)
    else
      Continue(st.(db := WritePage(f, b, env, db2, db1.nextId, st.site.id, content.value)),
               ChildLinks(d.hrefs, st.site.url))
  }

  /** How a crawl ends: normally, or with the exception that escaped a task. */
  datatype Outcome = Finished(st: CrawlState) | Threw(st: CrawlState, cause: Crash)

  /** The tasks for `urls`, each followed by its subtree. `invokeAll` is taken in list order;
      the first exception that escapes ends the crawl. `fuel` bounds the depth. The task
      itself is a parameter, so the crawl's invariants are proved once for any task. */
  function Crawl(step: (CrawlState, string) -> Step, st: CrawlState, urls: seq<string>, fuel: nat): Outcome
    decreases fuel, |urls|
  {
    if urls == [] || fuel == 0 then Finished(st)
    else
      match step(st, urls[0])
      case Crashed(st1, cause) => Threw(st1, cause)
      case Continue(st1, children) =>
        match Crawl(step, st1, children, fuel - 1)
        case Threw(st2, cause) => Threw(st2, cause)
        case Finished(st2) => Crawl(step, st2, urls[1..], fuel)
  }

  /** The crawl of one flavour and build. */
  function SiteCrawl(f: Flavor, b: Build, env: Env, st: CrawlState, urls: seq<string>, fuel: nat): Outcome {
    Crawl(Task(f, b, env), st, urls, fuel)
  }

  /** `compute()` of one flavour and build, as the step a crawl repeats. */
  function Task(f: Flavor, b: Build, env: Env): (CrawlState, string) -> Step {
    (s: CrawlState, u: string) => Compute(f, b, env, s, u)
  }

  /** A reflexive, transitive relation that every task keeps holds across a whole crawl. */
  lemma {:induction false} CrawlPreserves(step: (CrawlState, string) -> Step, rel: (CrawlState, CrawlState) -> bool,
                                          st: CrawlState, urls: seq<string>, fuel: nat)
    requires forall s :: rel(s, s)
    requires forall s0, s1, s2 :: rel(s0, s1) && rel(s1, s2) ==> rel(s0, s2)
    requires forall s, u :: rel(s, step(s, u).st)
    ensures rel(st, Crawl(step, st, urls, fuel).st)
    decreases fuel, |urls|
  {
    if urls != [] && fuel != 0 {
      var st1 := step(st, urls[0]).st;
      if step(st, urls[0]).Continue? {
        var sub := Crawl(step, st1, step(st, urls[0]).children, fuel - 1);
        CrawlPreserves(step, rel, st1, step(st, urls[0]).children, fuel - 1);
        if sub.Finished? {
          CrawlPreserves(step, rel, sub.st, urls[1..], fuel);
          assert rel(st1, Crawl(step, sub.st, urls[1..], fuel).st);
        }
      }
    }
  }

  /** When every task marks its url and the visited set only grows, a crawl that finishes
      has marked every url it was given. */
  lemma {:induction false} CrawlMarksAll(step: (CrawlState, string) -> Step, st: CrawlState, urls: seq<string>, fuel: nat)
    requires fuel > 0
    requires forall s: CrawlState, u: string :: s.visited <= step(s, u).st.visited && u in step(s, u).st.visited
    requires Crawl(step, st, urls, fuel).Finished?
    ensures forall u | u in urls :: u in Crawl(step, st, urls, fuel).st.visited
    decreases |urls|
  {
    if urls != [] {
      var st1 := step(st, urls[0]).st;
      var sub := Crawl(step, st1, step(st, urls[0]).children, fuel - 1);
      CrawlPreserves(step, (s0: CrawlState, s1: CrawlState) => s0.visited <= s1.visited, st1, step(st, urls[0]).children, fuel - 1);
      var r := Crawl(step, sub.st, urls[1..], fuel);
      CrawlPreserves(step, (s0: CrawlState, s1: CrawlState) => s0.visited <= s1.visited, sub.st, urls[1..], fuel);
      CrawlMarksAll(step, sub.st, urls[1..], fuel);
      forall u | u in urls ensures u in r.st.visited {
        if u != urls[0] {
          assert u in urls[1..];
        }
      }
    }
  }

  // ---------------------------------------------------------------------------------------
  // What one task does.

  /** A url already in the shared visited set is dropped without touching anything. */
  lemma VisitedUrlIsSkipped(f: Flavor, b: Build, env: Env, st: CrawlState, url: string)
    requires f.SharesVisited() && url in st.visited
    ensures Compute(f, b, env, st, url) == Continue(st, [])
  {
    assert st.visited + {url} == st.visited;
  }

  /** A cart link is never fetched. */
  lemma SkippedUrlIsNotFetched(f: Flavor, b: Build, env: Env, st: CrawlState, url: string)
    requires ShouldSkipUrl(url)
    ensures var r := Compute(f, b, env, st, url);
      r.Continue? && r.children == [] && r.st.db == st.db && r.st.site == st.site
  {
  }

  /** An HTML document that passes the guard is stored as follows:
      - its media pages come first, then the page itself, with its path, its code and its HTML;
      - the site is stamped with the time and keeps its status;
      - the children are the cleaned links under the site url. */
  lemma HtmlPageIsStored(f: Flavor, b: Build, env: Env, st: CrawlState, url: string)
    requires Guard(f, b, st, url).0
    requires env.web(url).Document? && env.web(url).contentType.Some?
    requires StartsWith(env.web(url).contentType.value, "text/html")
    ensures var d := env.web(url);
      var media := MediaDrafts(d.imgSrcs, d.hrefs, st.site.url);
      var r := Compute(f, b, env, st, url);
      var n := |st.db.pages|;
      r.Continue? &&
      r.children == ChildLinks(d.hrefs, st.site.url) &&
      r.st.site == st.site.(statusTime := Some(env.now)) &&
      |r.st.db.pages| == n + |media| + 1 &&
      r.st.db.pages[..n] == st.db.pages &&
      (forall j | 0 <= j < |media| ::
         r.st.db.pages[n + j] == Page(st.db.nextId + j, st.site.id, media[j].path, 200, media[j].content)) &&
      r.st.db.pages[n + |media|] ==
        Page(st.db.nextId + |media|, st.site.id, PagePath(url, st.site.url), d.code, Some(d.html))
  {
    var d := env.web(url);
    var st1 := Touch(st.(visited := Guard(f, b, st, url).1), env.now);
    ComputeReachesStore(f, b, env, st, url);
    StoreDocumentHtml(f, b, env, st1, url, d);
    var media := MediaDrafts(d.imgSrcs, d.hrefs, st1.site.url);
    InsertLayout(st1.db, st1.site.id, media, Draft(PagePath(url, st1.site.url), d.code, Some(d.html)));
  }

  /** A task that passes the guard and fetches a typed document stores it after the time
      stamp. */
  lemma ComputeReachesStore(f: Flavor, b: Build, env: Env, st: CrawlState, url: string)
    requires Guard(f, b, st, url).0
    requires env.web(url).Document? && env.web(url).contentType.Some?
    ensures Compute(f, b, env, st, url)
         == StoreDocument(f, b, env, Touch(st.(visited := Guard(f, b, st, url).1), env.now), url, env.web(url))
  {
  }

  /** The HTML case of `StoreDocument`: the media pages, then the page with its HTML. */
  lemma StoreDocumentHtml(f: Flavor, b: Build, env: Env, st: CrawlState, url: string, d: Fetch)
    requires d.Document? && d.contentType.Some? && StartsWith(d.contentType.value, "text/html")
    ensures StoreDocument(f, b, env, st, url, d).Continue?
    ensures StoreDocument(f, b, env, st, url, d).children == ChildLinks(d.hrefs, st.site.url)
    ensures StoreDocument(f, b, env, st, url, d).st.site == st.site
    ensures StoreDocument(f, b, env, st, url, d).st.db.pages ==
      InsertPage(InsertPages(st.db, st.site.id, MediaDrafts(d.imgSrcs, d.hrefs, st.site.url)),
                 st.site.id, Draft(PagePath(url, st.site.url), d.code, Some(d.html))).pages
  {
    assert StoredContent(d.contentType.value, url, d.html) == Some(d.html);
  }

  /** Saving drafts and then one more page lays the rows out in order after the old ones. */
  lemma InsertLayout(db: Db, siteId: nat, ds: seq<Draft>, d: Draft)
    ensures var r := InsertPage(InsertPages(db, siteId, ds), siteId, d).pages;
      var n := |db.pages|;
      |r| == n + |ds| + 1 && r[..n] == db.pages &&
      (forall j | 0 <= j < |ds| :: r[n + j] == Page(db.nextId + j, siteId, ds[j].path, ds[j].code, ds[j].content)) &&
      r[n + |ds|] == Page(db.nextId + |ds|, siteId, d.path, d.code, d.content)
  {
    var db1 := InsertPages(db, siteId, ds);
    var r := InsertPage(db1, siteId, d).pages;
    assert r == db1.pages + [Page(db1.nextId, siteId, d.path, d.code, d.content)];
    assert r[..|db.pages|] == db1.pages[..|db.pages|];
  }

  /** A failed fetch or an interrupted sleep leaves the site FAILED with the matching message
      and stores no page. */
  lemma FailedFetchFailsSite(f: Flavor, b: Build, env: Env, st: CrawlState, url: string)
    requires Guard(f, b, st, url).0
    requires env.web(url).LoadFailed? || env.web(url).Interrupted?
    ensures var r := Compute(f, b, env, st, url);
      var message := if env.web(url).LoadFailed? then "❌ Ошибка при загрузке" else "⏳ Поток прерван";
      r.Continue? && r.children == [] &&
      r.st.site.status == Failed &&
      r.st.site.lastError == Some(message + " " + url + ": " + ToJava(env.web(url).message)) &&
      r.st.site in r.st.db.sites &&
      r.st.db.pages == st.db.pages && r.st.db.lemmas == st.db.lemmas
  {
  }

  /** A response with a type outside HTML, images and `application/...` is stored without
      content, and the lemma step then throws. */
  lemma UntypedContentCrashes(f: Flavor, b: Build, env: Env, st: CrawlState, url: string)
    requires Guard(f, b, st, url).0
    requires env.web(url).Document? && env.web(url).contentType.Some?
    requires StoredContent(env.web(url).contentType.value, url, env.web(url).html).None?
    ensures var r := Compute(f, b, env, st, url);
      r == Crashed(r.st, NullContent) &&
      r.st.db.pages == st.db.pages + [Page(st.db.nextId, st.site.id, PagePath(url, st.site.url), env.web(url).code, None)]
  {
  }

  // ---------------------------------------------------------------------------------------
  // What a crawl keeps.

  /** The shape every crawl keeps:
      - pages are only appended, and every new page belongs to the crawled site;
      - the site keeps its id, url and name;
      - the visited set and the id counter only grow;
      - every other site row stays as it was. */
  ghost predicate Grows(st0: CrawlState, st1: CrawlState) {
    |st0.db.pages| <= |st1.db.pages| && st1.db.pages[..|st0.db.pages|] == st0.db.pages &&
    (forall j | |st0.db.pages| <= j < |st1.db.pages| :: st1.db.pages[j].siteId == st0.site.id) &&
    st1.site.id == st0.site.id && st1.site.url == st0.site.url && st1.site.name == st0.site.name &&
    st0.visited <= st1.visited && st0.db.nextId <= st1.db.nextId &&
    (forall x | x in st0.db.sites && x.id != st0.site.id :: x in st1.db.sites) &&
    (forall x | x in st1.db.sites :: x.id == st0.site.id || x in st0.db.sites)
  }

  lemma GrowsTrans(st0: CrawlState, st1: CrawlState, st2: CrawlState)
    requires Grows(st0, st1) && Grows(st1, st2)
    ensures Grows(st0, st2)
  {
    assert st2.db.pages[..|st0.db.pages|] == st1.db.pages[..|st0.db.pages|];
    forall j | |st0.db.pages| <= j < |st2.db.pages| ensures st2.db.pages[j].siteId == st0.site.id {
      if j < |st1.db.pages| {
        assert st2.db.pages[j] == st1.db.pages[j];
      }
    }
  }

  lemma TouchGrows(st: CrawlState, now: int)
    ensures Grows(st, Touch(st, now))
  {
    assert Touch(st, now).db.pages[..|st.db.pages|] == st.db.pages;
  }

  lemma HandleExceptionGrows(st: CrawlState, message: string, url: string, error: Option<string>, now: int)
    ensures Grows(st, HandleException(st, message, url, error, now))
  {
    assert HandleException(st, message, url, error, now).db.pages[..|st.db.pages|] == st.db.pages;
  }

  lemma InsertGrows(st: CrawlState, media: seq<Draft>, d: Draft)
    ensures var db1 := InsertPages(st.db, st.site.id, media);
      Grows(st, st.(db := InsertPage(db1, st.site.id, d)))
  {
    var db1 := InsertPages(st.db, st.site.id, media);
    var db2 := InsertPage(db1, st.site.id, d);
    assert db2.pages[..|st.db.pages|] == db1.pages[..|st.db.pages|];
    forall j | |st.db.pages| <= j < |db2.pages| ensures db2.pages[j].siteId == st.site.id {
      if j < |db1.pages| {
        var jj := j - |st.db.pages|;
        assert media[jj] in media;
        assert db1.pages[|st.db.pages| + jj].siteId == st.site.id;
        assert db2.pages[j] == db1.pages[j];
      } else {
        assert db2.pages[j] == Page(db1.nextId, st.site.id, d.path, d.code, d.content);
      }
    }
  }

  /** One task keeps the shape. */
  lemma WritePageGrows(f: Flavor, b: Build, env: Env, st: CrawlState, pageId: nat, content: string)
    ensures Grows(st, st.(db := WritePage(f, b, env, st.db, pageId, st.site.id, content)))
  {
    assert WritePage(f, b, env, st.db, pageId, st.site.id, content).pages[..|st.db.pages|] == st.db.pages;
  }

  lemma StoreDocumentGrows(f: Flavor, b: Build, env: Env, st: CrawlState, url: string, d: Fetch)
    requires d.Document? && d.contentType.Some?
    ensures Grows(st, StoreDocument(f, b, env, st, url, d).st)
  {
    var media := if StartsWith(d.contentType.value, "text/html") then MediaDrafts(d.imgSrcs, d.hrefs, st.site.url) else [];
    var db1 := InsertPages(st.db, st.site.id, media);
    var content := StoredContent(d.contentType.value, url, d.html);
    var dr := Draft(PagePath(url, st.site.url), d.code, content);
    var db2 := InsertPage(db1, st.site.id, dr);
    InsertGrows(st, media, dr);
    if content.Some? {
      WritePageGrows(f, b, env, st.(db := db2), db1.nextId, content.value);
      GrowsTrans(st, st.(db := db2), st.(db := WritePage(f, b, env, db2, db1.nextId, st.site.id, content.value)));
    }
  }

  lemma ProcessGrows(f: Flavor, b: Build, env: Env, st: CrawlState, url: string)
    ensures Grows(st, Process(f, b, env, st, url).st)
  {
    var st1 := Touch(st, env.now);
    TouchGrows(st, env.now);
    match env.web(url)
    case Interrupted(m) =>
      HandleExceptionGrows(st, "⏳ Поток прерван", url, m, env.now);
    case LoadFailed(m) =>
      HandleExceptionGrows(st1, "❌ Ошибка при загрузке", url, m, env.now);
      GrowsTrans(st, st1, HandleException(st1, "❌ Ошибка при загрузке", url, m, env.now));
    case Document(ct, code, html, imgs, hrefs) =>
      if ct.Some? {
        StoreDocumentGrows(f, b, env, st1, url, env.web(url));
        GrowsTrans(st, st1, StoreDocument(f, b, env, st1, url, env.web(url)).st);
      }
  }

  /** One task keeps the shape. */
  lemma ComputeGrows(f: Flavor, b: Build, env: Env, st: CrawlState, url: string)
    ensures Grows(st, Compute(f, b, env, st, url).st)
  {
    var guard := Guard(f, b, st, url);
    var st0 := st.(visited := guard.1);
    assert st0.db.pages[..|st.db.pages|] == st.db.pages;
    assert Grows(st, st0);
    if guard.0 {
      ProcessGrows(f, b, env, st0, url);
      GrowsTrans(st, st0, Process(f, b, env, st0, url).st);
    }
  }

  /** A whole crawl keeps the shape. */
  lemma CrawlGrows(f: Flavor, b: Build, env: Env, st: CrawlState, urls: seq<string>, fuel: nat)
    ensures Grows(st, SiteCrawl(f, b, env, st, urls, fuel).st)
  {
    var step := Task(f, b, env);
    forall s, u ensures Grows(s, step(s, u).st) {
      ComputeGrows(f, b, env, s, u);
    }
    CrawlGrowsAny(step, st, urls, fuel);
  }

  /** Any crawl whose tasks grow the state grows it. */
  lemma CrawlGrowsAny(step: (CrawlState, string) -> Step, st: CrawlState, urls: seq<string>, fuel: nat)
    requires forall s, u :: Grows(s, step(s, u).st)
    ensures Grows(st, Crawl(step, st, urls, fuel).st)
  {
    var rel := (s0: CrawlState, s1: CrawlState) => Grows(s0, s1);
    forall s ensures rel(s, s) {
      assert s.db.pages[..|s.db.pages|] == s.db.pages;
    }
    forall s0, s1, s2 | rel(s0, s1) && rel(s1, s2) ensures rel(s0, s2) {
      GrowsTrans(s0, s1, s2);
    }
    CrawlPreserves(step, rel, st, urls, fuel);
  }

  /** With a shared visited set, a crawl that finishes has marked every url it was given. */
  lemma CrawlMarksVisited(f: Flavor, b: Build, env: Env, st: CrawlState, urls: seq<string>, fuel: nat)
    requires f.SharesVisited() && fuel > 0
    requires SiteCrawl(f, b, env, st, urls, fuel).Finished?
    ensures forall u | u in urls :: u in SiteCrawl(f, b, env, st, urls, fuel).st.visited
  {
    var step := Task(f, b, env);
    forall s: CrawlState, u: string ensures s.visited <= step(s, u).st.visited && u in step(s, u).st.visited {
      ComputeGrows(f, b, env, s, u);
    }
    CrawlMarksAll(step, st, urls, fuel);
  }

  /** A crawl from one url whose task continues ends where the subtree of its children ends. */
  lemma SiteCrawlOfOne(f: Flavor, b: Build, env: Env, st: CrawlState, url: string, fuel: nat)
    requires fuel > 0 && Compute(f, b, env, st, url).Continue?
    ensures SiteCrawl(f, b, env, st, [url], fuel).st
         == SiteCrawl(f, b, env, Compute(f, b, env, st, url).st, Compute(f, b, env, st, url).children, fuel - 1).st
  {
    var step := Task(f, b, env);
    CrawlOfOne(step, st, url, fuel);
  }

  lemma CrawlOfOne(step: (CrawlState, string) -> Step, st: CrawlState, url: string, fuel: nat)
    requires fuel > 0 && step(st, url).Continue?
    ensures Crawl(step, st, [url], fuel).st == Crawl(step, step(st, url).st, step(st, url).children, fuel - 1).st
  {
    assert [url][1..] == [];
  }

  /** A crawl from a url that passes the guard and is an HTML document ends with that page
      stored, whether the rest of the crawl returns or throws. */
  lemma StartPageSurvivesCrawl(f: Flavor, b: Build, env: Env, st: CrawlState, url: string, fuel: nat, k: nat)
    requires fuel > 0 && Guard(f, b, st, url).0
    requires env.web(url).Document? && env.web(url).contentType.Some?
    requires StartsWith(env.web(url).contentType.value, "text/html")
    requires k == |st.db.pages| + |MediaDrafts(env.web(url).imgSrcs, env.web(url).hrefs, st.site.url)|
    ensures var d := env.web(url);
      var out := SiteCrawl(f, b, env, st, [url], fuel).st;
      k < |out.db.pages| &&
      out.db.pages[k] == Page(st.db.nextId + k - |st.db.pages|, st.site.id, PagePath(url, st.site.url), d.code, Some(d.html))
  {
    var d := env.web(url);
    RootPageAt(f, b, env, st, url);
    SiteCrawlKeepsRow(f, b, env, st, url, fuel, k,
                      Page(st.db.nextId + k - |st.db.pages|, st.site.id, PagePath(url, st.site.url), d.code, Some(d.html)));
  }

  lemma SiteCrawlKeepsRow(f: Flavor, b: Build, env: Env, st: CrawlState, url: string, fuel: nat, k: nat, p: Page)
    requires fuel > 0 && Compute(f, b, env, st, url).Continue?
    requires k < |Compute(f, b, env, st, url).st.db.pages| && Compute(f, b, env, st, url).st.db.pages[k] == p
    ensures k < |SiteCrawl(f, b, env, st, [url], fuel).st.db.pages|
    ensures SiteCrawl(f, b, env, st, [url], fuel).st.db.pages[k] == p
  {
    TaskGrows(f, b, env);
    CrawlKeepsRow(Task(f, b, env), st, url, fuel, k, p);
  }

  lemma TaskGrows(f: Flavor, b: Build, env: Env)
    ensures forall s, u :: Grows(s, Task(f, b, env)(s, u).st)
  {
    forall s, u ensures Grows(s, Task(f, b, env)(s, u).st) {
      ComputeGrows(f, b, env, s, u);
    }
  }

  /** A page row the first task of a one-url crawl stores is still there when the crawl
      ends, provided every task grows the state. */
  lemma CrawlKeepsRow(step: (CrawlState, string) -> Step, st: CrawlState, url: string, fuel: nat, k: nat, p: Page)
    requires fuel > 0 && step(st, url).Continue?
    requires forall s, u :: Grows(s, step(s, u).st)
    requires k < |step(st, url).st.db.pages| && step(st, url).st.db.pages[k] == p
    ensures k < |Crawl(step, st, [url], fuel).st.db.pages| && Crawl(step, st, [url], fuel).st.db.pages[k] == p
  {
    CrawlOfOne(step, st, url, fuel);
    CrawlGrowsAny(step, step(st, url).st, step(st, url).children, fuel - 1);
    GrowsKeepsPage(step(st, url).st, Crawl(step, step(st, url).st, step(st, url).children, fuel - 1).st, k, p);
  }

  /** The stored HTML page sits right after the media pages. */
  lemma RootPageAt(f: Flavor, b: Build, env: Env, st: CrawlState, url: string)
    requires Guard(f, b, st, url).0
    requires env.web(url).Document? && env.web(url).contentType.Some?
    requires StartsWith(env.web(url).contentType.value, "text/html")
    ensures var d := env.web(url);
      var m := |MediaDrafts(d.imgSrcs, d.hrefs, st.site.url)|;
      var r := Compute(f, b, env, st, url);
      r.Continue? && |st.db.pages| + m < |r.st.db.pages| &&
      r.st.db.pages[|st.db.pages| + m] ==
        Page(st.db.nextId + m, st.site.id, PagePath(url, st.site.url), d.code, Some(d.html))
  {
    HtmlPageIsStored(f, b, env, st, url);
  }

  /** A state that grows keeps every page row it had, at the same position. */
  lemma GrowsKeepsPage(st0: CrawlState, st1: CrawlState, k: nat, p: Page)
    requires Grows(st0, st1) && k < |st0.db.pages| && st0.db.pages[k] == p
    ensures k < |st1.db.pages| && st1.db.pages[k] == p
  {
    assert st1.db.pages[k] == st1.db.pages[..|st0.db.pages|][k];
  }

  // ---------------------------------------------------------------------------------------
  // Writers that keep lemma rows per site leave the other sites alone.

  /** The lemma table stays keyed by (site, text). Every other site keeps the frequency and
      the presence of each of its lemmas. Index entries are only appended, and the new ones
      point at lemma rows of the crawled site. */
  ghost predicate KeepsOtherSites(db0: Db, db1: Db, site: nat) {
    LemmasKeyed(db1.lemmas) &&
    (forall s: nat, k: string | s != site ::
       FreqOf(db1.lemmas, BySiteAndText, s, k) == FreqOf(db0.lemmas, BySiteAndText, s, k) &&
       (Target(db1.lemmas, BySiteAndText, s, k).Some? <==> Target(db0.lemmas, BySiteAndText, s, k).Some?)) &&
    |db0.indexes| <= |db1.indexes| && db1.indexes[..|db0.indexes|] == db0.indexes &&
    (forall j | |db0.indexes| <= j < |db1.indexes| :: db1.indexes[j].lemmaSite == site)
  }

  lemma KeepsOtherSitesTrans(db0: Db, db1: Db, db2: Db, site: nat)
    requires KeepsOtherSites(db0, db1, site) && KeepsOtherSites(db1, db2, site)
    ensures KeepsOtherSites(db0, db2, site)
  {
    assert db2.indexes[..|db0.indexes|] == db1.indexes[..|db0.indexes|];
    forall j | |db0.indexes| <= j < |db2.indexes| ensures db2.indexes[j].lemmaSite == site {
      if j < |db1.indexes| {
        assert db2.indexes[j] == db1.indexes[j];
      }
    }
  }

  /** A flavour whose writer keeps lemma rows per site and links every lemma. */
  predicate PerSiteWriter(f: Flavor, b: Build) {
    f == SiteTask || b == Corrected
  }

  lemma WritePageKeepsOtherSites(f: Flavor, b: Build, env: Env, db: Db, pageId: nat, siteId: nat, content: string)
    requires PerSiteWriter(f, b)
    requires LemmasKeyed(db.lemmas)
    ensures KeepsOtherSites(db, WritePage(f, b, env, db, pageId, siteId, content), siteId)
  {
    var text := env.textOf(content);
    var counts := Lemmas(f.Tokens(), env.lang, text);
    var keys := LemmaOrder(f.Tokens(), env.lang, text);
    var tb := Tables(db.lemmas, db.indexes);
    var pol := Writer(f, b);
    var r := WritePage(f, b, env, db, pageId, siteId, content);
    forall s: nat, k: string | s != siteId
      ensures FreqOf(r.lemmas, BySiteAndText, s, k) == FreqOf(db.lemmas, BySiteAndText, s, k)
      ensures Target(r.lemmas, BySiteAndText, s, k).Some? <==> Target(db.lemmas, BySiteAndText, s, k).Some?
    {
      MergePerSite(pol, tb, pageId, siteId, keys, counts, s, k);
    }
    MergePerSite(pol, tb, pageId, siteId, keys, counts, siteId, "");
    if b == Corrected {
      PerSiteEntries(tb, pageId, siteId, keys, counts);
    } else {
      IndexPageSiteWriter(tb, pageId, siteId, keys, counts);
    }
  }

  lemma SameLemmasKeepOtherSites(db0: Db, db1: Db, site: nat)
    requires LemmasKeyed(db0.lemmas)
    requires db1.lemmas == db0.lemmas && db1.indexes == db0.indexes
    ensures KeepsOtherSites(db0, db1, site)
  {
  }

  /** One task with a per-site writer leaves the other sites alone. */
  lemma ComputeKeepsOtherSites(f: Flavor, b: Build, env: Env, st: CrawlState, url: string)
    requires PerSiteWriter(f, b)
    requires LemmasKeyed(st.db.lemmas)
    ensures KeepsOtherSites(st.db, Compute(f, b, env, st, url).st.db, st.site.id)
  {
    var r := Compute(f, b, env, st, url);
    var guard := Guard(f, b, st, url);
    if guard.0 && env.web(url).Document? && env.web(url).contentType.Some? {
      var d := env.web(url);
      var st1 := Touch(st.(visited := guard.1), env.now);
      var media := if StartsWith(d.contentType.value, "text/html") then MediaDrafts(d.imgSrcs, d.hrefs, st1.site.url) else [];
      var db1 := InsertPages(st1.db, st1.site.id, media);
      var content := StoredContent(d.contentType.value, url, d.html);
      var db2 := InsertPage(db1, st1.site.id, Draft(PagePath(url, st1.site.url), d.code, content));
      if content.Some? {
        WritePageKeepsOtherSites(f, b, env, db2, db1.nextId, st1.site.id, content.value);
        SameLemmasKeepOtherSites(st.db, db2, st.site.id);
        KeepsOtherSitesTrans(st.db, db2, r.st.db, st.site.id);
      } else {
        SameLemmasKeepOtherSites(st.db, r.st.db, st.site.id);
      }
    } else {
      SameLemmasKeepOtherSites(st.db, r.st.db, st.site.id);
    }
  }

  /** A whole crawl with a per-site writer leaves the other sites' lemmas alone, keeps
      the table of lemmas keyed by (site, text), and only adds index entries of its own site. */
  lemma CrawlKeepsOtherSites(f: Flavor, b: Build, env: Env, st: CrawlState, urls: seq<string>, fuel: nat)
    requires PerSiteWriter(f, b)
    requires LemmasKeyed(st.db.lemmas)
    ensures KeepsOtherSites(st.db, SiteCrawl(f, b, env, st, urls, fuel).st.db, st.site.id)
  {
    var step := Task(f, b, env);
    var rel := (s0: CrawlState, s1: CrawlState) =>
      s1.site.id == s0.site.id && (LemmasKeyed(s0.db.lemmas) ==> KeepsOtherSites(s0.db, s1.db, s0.site.id));
    forall s ensures rel(s, s) {
      if LemmasKeyed(s.db.lemmas) {
        SameLemmasKeepOtherSites(s.db, s.db, s.site.id);
      }
    }
    forall s0, s1, s2 | rel(s0, s1) && rel(s1, s2) ensures rel(s0, s2) {
      if LemmasKeyed(s0.db.lemmas) {
        KeepsOtherSitesTrans(s0.db, s1.db, s2.db, s0.site.id);
      }
    }
    forall s, u ensures rel(s, step(s, u).st) {
      ComputeGrows(f, b, env, s, u);
      if LemmasKeyed(s.db.lemmas) {
        ComputeKeepsOtherSites(f, b, env, s, u);
      }
    }
    CrawlPreserves(step, rel, st, urls, fuel);
  }

  // ---------------------------------------------------------------------------------------
  // The page-existence check.

  /** The root url of a site has the empty path. */
  lemma RootPathIsEmpty(siteUrl: string)
    requires siteUrl != []
    ensures PagePath(siteUrl, siteUrl) == ""
  {
    assert siteUrl + "" == siteUrl;
    PagePathOfSiteUrl(siteUrl, "");
  }

  /** As written, once any site has its root page stored, the root url of every other site
      is dropped by the guard: all roots share the empty path, and `existsByPath` does not
      look at the site. */
  lemma GlobalPathCheckSkipsOtherRoots(f: Flavor, env: Env, st: CrawlState, i: nat)
    requires st.site.url != []
    requires i < |st.db.pages| && st.db.pages[i].path == "" && st.db.pages[i].siteId != st.site.id
    ensures var r := Compute(f, AsWritten, env, st, st.site.url);
      r.Continue? && r.children == [] && r.st.db == st.db && r.st.site == st.site
  {
    RootPathIsEmpty(st.site.url);
    assert ExistsByPath(st.db.pages, PagePath(st.site.url, st.site.url));
  }

  /** Corrected, the guard depends only on the crawled site's own pages. Pages of other
      sites never stop a url. */
  lemma CorrectedGuardIgnoresOtherSites(f: Flavor, st1: CrawlState, st2: CrawlState, url: string)
    requires st1.site == st2.site && st1.visited == st2.visited
    requires forall p :: (p in st1.db.pages && p.siteId == st1.site.id) <==> (p in st2.db.pages && p.siteId == st2.site.id)
    ensures Guard(f, Corrected, st1, url) == Guard(f, Corrected, st2, url)
  {
    var path := PagePath(url, st1.site.url);
    if ExistsByPathAndSite(st1.db.pages, path, st1.site.id) {
      var i :| 0 <= i < |st1.db.pages| && st1.db.pages[i].path == path && st1.db.pages[i].siteId == st1.site.id;
      assert st1.db.pages[i] in st1.db.pages;
      var j :| 0 <= j < |st2.db.pages| && st2.db.pages[j] == st1.db.pages[i];
    }
    if ExistsByPathAndSite(st2.db.pages, path, st2.site.id) {
      var i :| 0 <= i < |st2.db.pages| && st2.db.pages[i].path == path && st2.db.pages[i].siteId == st2.site.id;
      assert st2.db.pages[i] in st2.db.pages;
      var j :| 0 <= j < |st1.db.pages| && st1.db.pages[j] == st2.db.pages[i];
    }
  }

  /** Corrected, the root url of a site with no pages of its own passes the guard whenever
      it is neither seen nor a cart link. */
  lemma CorrectedRootIsCrawled(f: Flavor, st: CrawlState)
    requires forall i | 0 <= i < |st.db.pages| :: st.db.pages[i].siteId != st.site.id
    requires !f.SharesVisited() || st.site.url !in st.visited
    requires !ShouldSkipUrl(st.site.url)
    ensures Guard(f, Corrected, st, st.site.url).0
  {
  }
}
