# Search engine indexer and search service, modelled in Dafny

This project models the core of a Spring Boot search engine. The engine crawls a configured list of
web sites and stores their pages. It lemmatizes each page's text into Russian and English normal
forms, merges the lemma counts into a lemma table and an inverted index, and answers search
queries with ranked, paged results that carry snippets. The model follows the Java code of that
engine:

- `Text` writes out the parts of `java.lang.String` and `java.util.regex` the code relies on:
  `indexOf`, `replace`, `replaceAll("#.*", "")`, where `$` matches, `equalsIgnoreCase`, `trim`.
- `Store` holds the entities (`Site`, `Page`, `Lemma`, `Index`) and an in-memory stand-in for the
  repositories. It also models `deleteSiteData`.
- `Urls` holds the URL helpers the three crawlers share: `cleanUrl`, `shouldSkipUrl`, page paths,
  the media-suffix test and the choice of child links.
- `Lemmatizer` models both `lemmatizeText` variants. One splits on `\P{L}+` and keeps words of two
  or more letters. The other deletes `[^а-яa-z\s]`, splits on `\s+` and keeps words of three or
  more letters.
- `IndexWriter` models the four `processPageContent` writers. They are one merge loop under three
  independent choices:
  - look a lemma up by text alone, or by site and text;
  - add 1 to its frequency, or add its count;
  - link every lemma to the page, or only new ones.

  The module also holds a per-site, document-frequency writer, which the corrections use.
- `Crawler` models one `compute()` task of `PageCrawler`, of the inner crawler of
  `PageIndexingService` and of `IndexPageSite`, and the recursive crawl over child links. It also
  holds the stand-alone link helpers of `PageCrawler`.
- `Orchestrator` models `IndexingService`: the full-indexing flag, the per-site task map, the
  per-site runs, the stop, and the status changes they make.
- `PageIndexing` models `PageIndexingService.indexPage` and `getConfigSiteByUrl`.
- `Statistics` models `StatisticsServiceImpl.getStatistics`.
- `Search` models `SearchServiceImpl.search` with `generateSnippet`, and the `SearchResponse` DTO.

The collaborators the code calls but that lie outside this model are parameters:
- the network fetch (Jsoup `connect().get()`) with its response type and code;
- Jsoup's text extraction;
- the morphology analysers;
- Java's per-character case mappings and the `\p{L}` class;
- the clock;
- what a whole crawl leaves behind, as seen by `IndexingService`;
- the query lemmatizer and the page queries of `PageRepository`;
- the relevance score;
- the `(?i)` highlighting `replaceAll`.

Two builds of the crawler and of `indexPage` exist. `AsWritten` follows the code. `Corrected`
applies the fixes listed under Findings. Each finding is proved of the first build and its fix of
the second.

## Model

| member | source | states |
|---|---|---|
| `Basics.Dedup` | src/main/java/searchengine/services/SearchServiceImpl.java:55-57 | Copying a list through a set leaves no repeats. The copy holds exactly the input's elements and is no longer than the input. |
| `Store.FindSiteByUrl` | src/main/java/searchengine/repository/SiteRepository.java:27 | The site found has the url and is a stored row. No site is found exactly when no row has that url. |
| `Store.SaveSite` | src/main/java/searchengine/services/IndexingService.java:210 | Saving a site makes it a row and replaces only the row with its id. Every row with another id stays. The other tables are unchanged. |
| `Store.InsertPages` | src/main/java/searchengine/services/PageCrawler.java:460-469 | Saving drafts appends one page per draft, in order, with consecutive fresh ids. Earlier rows and the other tables are untouched. |
| `Store.DeleteSiteDataRemovesExactlyTheSite` | src/main/java/searchengine/services/IndexingService.java:180-200 | Deleting a site's data removes exactly the site's row, pages, lemmas and the index entries of its pages. Every row of every other site stays. An unknown url changes nothing. |
| `Text.IndexOf` | src/main/java/searchengine/services/SearchServiceImpl.java:107-110 | `indexOf(pat, from)` answers the least index at or after the clamped start where the pattern occurs. It answers -1 only when there is no such index. |
| `Urls.CleanUrl` | src/main/java/searchengine/services/PageCrawler.java:479-481 | A cleaned url holds no `#` and no `?`. It uses only characters of the input, and a url without markers is unchanged. Without line terminators the result is a prefix that ends where the first marker was. |
| `Urls.CleanUrlIdempotent` | src/main/java/searchengine/services/PageCrawler.java:479-481 | Cleaning a cleaned url changes nothing. |
| `Urls.CleanUrlIsPrefixBeforeMarker` | src/main/java/searchengine/services/PageCrawler.java:479-481 | On a url without line terminators, cleaning keeps exactly the part before the first `#` or `?`. |
| `Urls.ShouldSkipUrl` | src/main/java/searchengine/services/PageCrawler.java:483-485 | A url is skipped exactly when `/basket`, `/cart` or `/checkout` occurs in it somewhere. |
| `Urls.PagePathOfSiteUrl` | src/main/java/searchengine/services/PageCrawler.java:87 | Take a url made of the site url and then a rest that does not contain the site url. Its page path is that rest. |
| `Urls.ChildLinks` | src/main/java/searchengine/services/PageCrawler.java:109-126 | Every child url is a cleaned `href` under the site url that is not a cart link. Every such cleaned `href` is a child. |
| `Urls.ChildLinksInDocumentOrder` | src/main/java/searchengine/services/PageCrawler.java:109-126 | The children keep the page's link order. The children of two runs of links are the first run's children followed by the second's. One link gives its cleaned form when that form is followed, and nothing otherwise. |
| `Lemmatizer.Runs` | src/main/java/searchengine/services/PageCrawler.java:269 | Splitting on separator runs gives non-empty words made only of word characters. Together, in order, they are exactly the text's word characters. |
| `Lemmatizer.FormsOf` | src/main/java/searchengine/services/PageCrawler.java:271-283 | A word that is too short, or that is neither wholly Russian nor wholly English, gives no normal form. |
| `Lemmatizer.LemmaOrder` | src/main/java/searchengine/services/PageCrawler.java:501 | The writer meets each lemma of the page exactly once. |
| `Lemmatizer.BumpAll` | src/main/java/searchengine/services/PageCrawler.java:283-285 | The `getOrDefault(lemma, 0) + 1` loop over a word's forms extends the counts of the earlier forms to the counts of all of them. |
| `Lemmatizer.LemmatizeText` | src/main/java/searchengine/services/PageCrawler.java:263-289 | The loop computes, for every normal form, the number of times the text's accepted words yield it. Every count is at least 1. |
| `Lemmatizer.LemmaKeysAreFormsOfAcceptedWords` | src/main/java/searchengine/services/PageCrawler.java:263-289 | A form is a lemma of the text exactly when some accepted word yields it. |
| `Lemmatizer.LemmaCountsArePairCounts` | src/main/java/searchengine/services/PageCrawler.java:281-285 | A lemma's count is how many times it occurs among the yielded forms, and is at least 1. |
| `Lemmatizer.StrippedWordsAreRussianOrLatinLetters` | src/main/java/searchengine/services/IndexPageSite.java:199-203 | In the variant that strips before splitting, every word holds only `а`-`я` and `a`-`z`. |
| `Lemmatizer.MixedWordYieldsNothing` | src/main/java/searchengine/services/PageCrawler.java:275-280 | A word that mixes Russian and Latin letters gives no normal form. |
| `IndexWriter.MergeIsReference` | src/main/java/searchengine/services/PageCrawler.java:501-525 | The merge loop works on a table that changes as it goes. It ends in the state the reference definition computes from the table before the page, so each lookup finds what it would have found in that table. |
| `IndexWriter.EntriesOfEveryLemma` | src/main/java/searchengine/services/IndexPageSite.java:178-190 | When every lemma is linked, the page gets exactly one index entry per lemma, in order. Each entry has rank = count and points at the row the lemma was merged into. |
| `IndexWriter.EntriesOfNewLemmasOnly` | src/main/java/searchengine/services/IndexingService.java:280-298 | When only new lemmas are linked, the page gets one entry per lemma that had no row, and none for the others. |
| `IndexWriter.MergePerSite` | src/main/java/searchengine/services/IndexPageSite.java:178-190 | Under a per-site lookup, rows of other sites and other texts keep their frequency. Every lemma of the page gains its amount, a lemma new to the site starts from 0, and (site, text) stays a key. |
| `IndexWriter.MergeRaisesEveryKey` | src/main/java/searchengine/services/PageCrawler.java:501-525 | Under any policy, every lemma ends with a row that the same lookup finds, raised by its amount from what it had before. Other rows are untouched, no row moves, and new rows hold the page's lemmas on its site. |
| `IndexWriter.PageCrawlerWriter` | src/main/java/searchengine/services/PageCrawler.java:488-537 | The crawler writer gives one entry per lemma, with rank = count. The row each lemma finds by text, on any site, gains exactly 1. |
| `IndexWriter.IndexingServiceWriter` | src/main/java/searchengine/services/IndexingService.java:258-316 | For a lemma the site already has, the row gains its count and the page gets no entry. A new lemma gets a row with frequency = count and one entry. |
| `IndexWriter.IndexPageSiteWriter` | src/main/java/searchengine/services/IndexPageSite.java:171-193 | Every lemma's row on the page's site gains its count, and every lemma gets exactly one entry on that site. |
| `IndexWriter.PerSiteFrequencyIsDocumentFrequency` | src/main/java/searchengine/services/IndexPageSite.java:178-190 | Corrected writer (per site, +1, every lemma linked), over any sequence of pages: each (site, lemma) that occurs has one row. Its frequency is the number of that site's pages that contain the lemma. |
| `IndexWriter.PerSiteEntries` | src/main/java/searchengine/services/IndexingService.java:280-298 | Corrected writer: a page gets one entry per lemma it holds, pointing at the lemma's row on the page's own site. |
| `IndexWriter.CrossSiteLookupMergesSites` | src/main/java/searchengine/services/PageCrawler.java:507-517 | As written: two pages on different sites that share a lemma raise one row to 2. The second site never gets a row of its own. |
| `IndexWriter.CountBumpCountsOccurrences` | src/main/java/searchengine/services/IndexingService.java:281-285 | As written: one page holding a lemma three times leaves frequency 3, although one page contains it. |
| `IndexWriter.KnownLemmaGetsNoEntry` | src/main/java/searchengine/services/IndexingService.java:281-298 | As written: the second page of a site that contains a known lemma gets no index entry for it. |
| `Crawler.MarkVisited` | src/main/java/searchengine/services/PageCrawler.java:180-189 | Marking reports true exactly when the url was unseen. Afterwards the url is in the set. |
| `Crawler.MarkVisitedTwice` | src/main/java/searchengine/services/PageCrawler.java:180-189 | A second mark reports the url as seen and leaves the set as it is. |
| `Crawler.FileDrafts` | src/main/java/searchengine/services/PageCrawler.java:452-457 | File pages have code 200, and there are no more of them than links. |
| `Crawler.FileDraftsComeFromFileLinks` | src/main/java/searchengine/services/PageCrawler.java:452-457 | Every file page comes from a cleaned link to a document or an archive. |
| `Crawler.FileLinksGetFileDrafts` | src/main/java/searchengine/services/PageCrawler.java:452-457 | Every cleaned link to a document or an archive gets a file page. |
| `Crawler.MediaDrafts` | src/main/java/searchengine/services/PageCrawler.java:443-469 | Media pages are the images in order, then the file pages. All have code 200. |
| `Crawler.SavePhoneLink` | src/main/java/searchengine/services/PageCrawler.java:350-365 | The number after `tel:` is stored as a page with code 0 unless the site already has that path. Either way the path is taken afterwards. |
| `Crawler.SavePhoneLinkIdempotent` | src/main/java/searchengine/services/PageCrawler.java:350-365 | Saving the same phone link twice stores it once. |
| `Crawler.SaveJavaScriptLink` | src/main/java/searchengine/services/PageCrawler.java:367-381 | A `javascript:` url is stored as a page with code 0 unless the site already has that path. Either way the path is taken afterwards. |
| `Crawler.SaveJavaScriptLinkIdempotent` | src/main/java/searchengine/services/PageCrawler.java:367-381 | Saving the same JavaScript link twice stores it once. |
| `Crawler.HandleResponse` | src/main/java/searchengine/services/PageCrawler.java:217-256 | Only a new path with a non-HTML response stores a page. That page has the response code and content chosen by the content type. Otherwise nothing changes. |
| `Crawler.HandleResponseIdempotent` | src/main/java/searchengine/services/PageCrawler.java:217-256 | A second response for the same path stores nothing more. |
| `Crawler.Guard` | src/main/java/searchengine/services/PageCrawler.java:57 | A task goes on exactly when its url is unseen (for a shared set), is not a cart link and its path is not taken. The add to the visited set happens in every case. |
| `Crawler.Touch` | src/main/java/searchengine/services/PageCrawler.java:69-70 | Stamping stores the site with the new time and changes no page, lemma or index. |
| `Crawler.HandleException` | src/main/java/searchengine/services/PageCrawler.java:471-477 | An exception leaves the site FAILED with the time and the message, url and cause as its error. No page, lemma or index changes. |
| `Crawler.StoredContent` | src/main/java/searchengine/services/PageCrawler.java:92-97 | A page gets content exactly for HTML, image and `application/` responses. Content other than HTML is `FILE: url`. |
| `Crawler.WritePage` | src/main/java/searchengine/services/PageCrawler.java:103 | The lemma step changes only the lemma table and the index. |
| `Crawler.CrawlPreserves` | src/main/java/searchengine/services/PageCrawler.java:109-126 | A reflexive, transitive relation that every task keeps holds between the start and the end of a whole crawl. |
| `Crawler.CrawlMarksAll` | src/main/java/searchengine/services/PageCrawler.java:109-126 | If every task marks its url and the visited set only grows, a crawl that finishes has marked every url it was given. |
| `Crawler.VisitedUrlIsSkipped` | src/main/java/searchengine/services/IndexPageSite.java:59 | With a shared visited set, a url already seen is dropped without touching anything. |
| `Crawler.SkippedUrlIsNotFetched` | src/main/java/searchengine/services/PageCrawler.java:57 | A cart link has no children and changes no table and no site. |
| `Crawler.HtmlPageIsStored` | src/main/java/searchengine/services/PageCrawler.java:69-126 | For an HTML document that passes the guard, the media pages come first and then the page with its path, code and HTML. The site is stamped with the time. The children are the chosen links. |
| `Crawler.FailedFetchFailsSite` | src/main/java/searchengine/services/PageCrawler.java:128-133 | A failed fetch or an interrupted sleep leaves the site FAILED with the matching message. It stores no page and has no children. |
| `Crawler.UntypedContentCrashes` | src/main/java/searchengine/services/PageCrawler.java:86-103 | A response type outside HTML, images and `application/` is stored with no content. The lemma step then throws. |
| `Crawler.CrawlGrows` | src/main/java/searchengine/services/PageCrawler.java:55-126 | Across any crawl, pages are only appended and each new one belongs to the crawled site. The site keeps its identity, the visited set and ids only grow, and other site rows stay. |
| `Crawler.CrawlMarksVisited` | src/main/java/searchengine/services/IndexPageSite.java:59-114 | With a shared visited set, a crawl that finishes has marked every url it was given. |
| `Crawler.SiteCrawlOfOne` | src/main/java/searchengine/services/PageCrawler.java:109-126 | A crawl from one url whose task goes on ends where the crawl of its children ends. |
| `Crawler.StartPageSurvivesCrawl` | src/main/java/searchengine/services/PageCrawler.java:86-126 | Take a start url that passes the guard and is an HTML document. Its page is stored and is still there when the crawl ends, whether the crawl returns or throws. |
| `Crawler.CrawlKeepsOtherSites` | src/main/java/searchengine/services/IndexPageSite.java:171-193 | With a per-site writer, a crawl leaves every other site's lemma frequencies alone. The lemma table stays keyed by (site, text), and only entries of the crawled site are added. |
| `Crawler.RootPathIsEmpty` | src/main/java/searchengine/services/PageCrawler.java:87 | The root url of a site has the empty path. |
| `Crawler.GlobalPathCheckSkipsOtherRoots` | src/main/java/searchengine/services/PageCrawler.java:57 | As written: once another site has a page with the empty path, the root url of this site is dropped, with nothing fetched. |
| `Crawler.CorrectedGuardIgnoresOtherSites` | src/main/java/searchengine/services/PageCrawler.java:57 | Corrected: the guard depends only on the crawled site's own pages. |
| `Crawler.CorrectedRootIsCrawled` | src/main/java/searchengine/services/PageCrawler.java:57 | Corrected: a site's root passes the guard when the site has no pages yet, the root is unseen and it is not a cart link. |
| `Orchestrator.IsIndexingInProgress` | src/main/java/searchengine/services/IndexingService.java:57-59 | The answer is the running flag. |
| `Orchestrator.CheckAndUpdateStatus` | src/main/java/searchengine/services/IndexingService.java:249-255 | The answer is the same as `isIndexingInProgress`. |
| `Orchestrator.StartFullIndexing` | src/main/java/searchengine/services/IndexingService.java:61-66 | A start is refused, with the fixed message, exactly when a run is in progress. Otherwise only the flag rises. |
| `Orchestrator.FinishRun` | src/main/java/searchengine/services/IndexingService.java:75-77 | The `finally` of a run drops the flag and changes nothing else. |
| `Orchestrator.UpdateSitesStatusToFailed` | src/main/java/searchengine/services/IndexingService.java:226-235 | Failing the indexing sites keeps every row's id and url and touches no other table. |
| `Orchestrator.StopIndexing` | src/main/java/searchengine/services/IndexingService.java:83-99 | A stop does nothing when no run is in progress. Otherwise it drops the flag and fails the INDEXING sites with the stop message. |
| `Orchestrator.IsConfiguredSite` | src/main/java/searchengine/services/IndexingService.java:167-175 | A url is configured exactly when it equals some configured url. |
| `Orchestrator.SiteTaskLifecycle` | src/main/java/searchengine/services/IndexingService.java:237-247 | A site reports as indexing from the start of its run until its end. Other sites' answers do not change. |
| `Orchestrator.UpdateSiteStatusToIndexed` | src/main/java/searchengine/services/IndexingService.java:202-212 | A FAILED site is left as it is. Any other becomes INDEXED at the time and is saved. |
| `Orchestrator.HandleIndexingError` | src/main/java/searchengine/services/IndexingService.java:215-224 | The url's first row becomes FAILED with the message and the time. With no such row nothing changes. |
| `Orchestrator.BeginSite` | src/main/java/searchengine/services/IndexingService.java:116-124 | A site's run joins the task map and saves a fresh INDEXING row with the next id, after the old data is deleted. |
| `Orchestrator.FinishSite` | src/main/java/searchengine/services/IndexingService.java:137-146 | A run that returned marks the site INDEXED only while the flag is up. A run that threw is handled as an indexing error. Either way the url leaves the task map. |
| `Orchestrator.PerformIndexing` | src/main/java/searchengine/services/IndexingService.java:102-165 | The site runs do not change the flag. |
| `Orchestrator.FullIndexing` | src/main/java/searchengine/services/IndexingService.java:61-81 | A whole run is refused exactly when one is in progress, and an accepted run ends with the flag down. |
| `Orchestrator.ConfiguredSitesAreConfigured` | src/main/java/searchengine/services/IndexingService.java:111-113 | Every site the run iterates over passes `isConfiguredSite`, so the skip branch is dead. |
| `Orchestrator.StopFailsExactlyTheIndexingSites` | src/main/java/searchengine/services/IndexingService.java:226-235 | A stop fails exactly the INDEXING sites with the stop message and the time. Every other row stays, and no INDEXING site is left. |
| `Orchestrator.StopIsIdempotent` | src/main/java/searchengine/services/IndexingService.java:83-99 | A second stop changes nothing. |
| `Orchestrator.StartRefusedWhileRunning` | src/main/java/searchengine/services/IndexingService.java:61-77 | A start right after a start is refused. A start after a finished run is accepted. |
| `Orchestrator.ReturnedRunEndsIndexed` | src/main/java/searchengine/services/IndexingService.java:116-146 | A site run whose crawl returns while the flag is up leaves the new row INDEXED. Every other row comes from the crawl's tables. |
| `Orchestrator.StopDuringRunLeavesSiteFailed` | src/main/java/searchengine/services/IndexingService.java:83-146 | A stop after the crawl's last write wins: the row is FAILED with the stop message and is not marked INDEXED. |
| `Orchestrator.LateStampUndoesStop` | src/main/java/searchengine/services/PageCrawler.java:55-70 | A crawl task that stamps the site after the stop saves the in-memory INDEXING site over the FAILED row. With the flag down the run leaves that row INDEXING, and no row with the site's id is FAILED. |
| `Orchestrator.FailedSiteIsNotMarkedIndexed` | src/main/java/searchengine/services/IndexingService.java:202-206 | A site the crawl failed keeps its FAILED row when its run ends normally. |
| `Orchestrator.RaisedRunEndsFailed` | src/main/java/searchengine/services/IndexingService.java:142-143 | A crawl that threw leaves the url's row FAILED with the exception's message. |
| `Orchestrator.RunClearsTasks` | src/main/java/searchengine/services/IndexingService.java:116-146 | After the runs, no url that was not indexing before is left in the task map. |
| `PageIndexing.GetConfigSiteByUrl` | src/main/java/searchengine/services/PageIndexingService.java:210-215 | The answer is the first configured site whose url equals the given one ignoring case. There is none exactly when no url matches. |
| `PageIndexing.UnknownSiteChangesNothing` | src/main/java/searchengine/services/PageIndexingService.java:140-144 | A url that matches no configured site returns false and changes nothing. |
| `PageIndexing.IndexPageOutcome` | src/main/java/searchengine/services/PageIndexingService.java:135-179 | The row saved has the fresh id, the url and the configured name. It is INDEXED with no error when the call returns true, and FAILED with the indexing error otherwise. Every row that survives the deletion is kept. |
| `PageIndexing.VisitedUrlReindexesEmpty` | src/main/java/searchengine/services/PageIndexingService.java:50 | As written: a url the service has already visited is re-indexed as an empty site. Its old pages are deleted, nothing is fetched, and the call returns true. |
| `PageIndexing.SecondIndexPageFetchesNothing` | src/main/java/searchengine/services/PageIndexingService.java:146-166 | As written: after a successful call, a second call for the same url deletes what the first stored and fetches nothing. |
| `PageIndexing.IndexPageKeepsIdsFresh` | src/main/java/searchengine/services/PageIndexingService.java:146-174 | `indexPage` keeps every page's site id below the id counter. |
| `PageIndexing.CorrectedIndexPageStoresRoot` | src/main/java/searchengine/services/PageIndexingService.java:146-166 | Corrected: every call stores the root page of the site, with its HTML, whatever earlier calls visited. |
| `Statistics.UpdateSiteStatus` | src/main/java/searchengine/services/StatisticsServiceImpl.java:100-121 | A FAILED site is untouched. Otherwise the site ends INDEXING exactly when its task runs, and a changed site is stamped and saved. |
| `Statistics.StatusTime` | src/main/java/searchengine/services/StatisticsServiceImpl.java:125-129 | The status time is the stored time in milliseconds, or the clock when the site has none. |
| `Statistics.DetailedItem` | src/main/java/searchengine/services/StatisticsServiceImpl.java:66-98 | An item names its configured site. A missing row gives FAILED with the fixed error. Otherwise the item reports the updated status and time, an error only when FAILED, and the page and lemma counts of the site. |
| `Statistics.Items` | src/main/java/searchengine/services/StatisticsServiceImpl.java:47-53 | There is one item per configured site. |
| `Statistics.GetStatistics` | src/main/java/searchengine/services/StatisticsServiceImpl.java:38-64 | The response is always a result. The site count is the configured count and the flag is the service's. The page and lemma totals are the sums over the items. |
| `Statistics.UpdateSiteStatusIsIdempotent` | src/main/java/searchengine/services/StatisticsServiceImpl.java:100-121 | A second update with the same task state changes nothing. |
| `Statistics.ItemsFollowConfig` | src/main/java/searchengine/services/StatisticsServiceImpl.java:47-49 | Item i names configured site i. |
| `Statistics.ItemErrorOnlyWhenFailed` | src/main/java/searchengine/services/StatisticsServiceImpl.java:79-92 | Only a FAILED item carries an error. |
| `Statistics.ItemCountsNonNegative` | src/main/java/searchengine/services/StatisticsServiceImpl.java:84-85 | Every item's page and lemma counts are non-negative. |
| `Statistics.TotalsCoverEveryItem` | src/main/java/searchengine/services/StatisticsServiceImpl.java:51-52 | The page total is at least any item's pages, and the same holds for lemmas. |
| `Search.SuccessResponse` | src/main/java/searchengine/dto/search/SearchResponse.java:19-24 | The success constructor carries the list and no error. |
| `Search.ErrorResponse` | src/main/java/searchengine/dto/search/SearchResponse.java:27-32 | The error constructor is not a result, has count 0, no list and the message. |
| `Search.ConstructorsAreDistinguishedByError` | src/main/java/searchengine/dto/search/SearchResponse.java:19-32 | No error response equals a success response. Both constructors build well-formed responses when used as the service uses them. |
| `Search.StripTrailingSlash` | src/main/java/searchengine/services/SearchServiceImpl.java:76 | A slash where `$` matches right after it is removed. With no such slash the url is unchanged. |
| `Search.StripTrailingSlashOnPlainUrl` | src/main/java/searchengine/services/SearchServiceImpl.java:76 | For a url without line terminators, one trailing slash is dropped and nothing else changes. |
| `Search.StripLeadingSlash` | src/main/java/searchengine/services/SearchServiceImpl.java:78 | One leading slash is removed, and nothing else. |
| `Search.Uri` | src/main/java/searchengine/services/SearchServiceImpl.java:78-84 | The uri always starts with a slash. |
| `Search.UriIsRootedPath` | src/main/java/searchengine/services/SearchServiceImpl.java:78-84 | The uri is the path when that starts with a slash, and the path with one slash in front otherwise. |
| `Search.Positions` | src/main/java/searchengine/services/SearchServiceImpl.java:105-112 | The positions are exactly the indices where some lemma occurs, strictly increasing. |
| `Search.CollectPositions` | src/main/java/searchengine/services/SearchServiceImpl.java:105-112 | The loop over the lemmas collects exactly the positions. |
| `Search.OccurrencesOf` | src/main/java/searchengine/services/SearchServiceImpl.java:107-111 | One lemma's `indexOf` chain, cut at the end of the text, finds exactly the lemma's occurrences. |
| `Search.NonEmptyLemmaAdvances` | src/main/java/searchengine/services/SearchServiceImpl.java:107-111 | For a non-empty lemma, each found index lies inside the text and the next search answers -1 or a later index. |
| `Search.EmptyLemmaNeverAdvances` | src/main/java/searchengine/services/SearchServiceImpl.java:107-111 | As written: for an empty lemma the next search from the end answers the end again, so the loop never stops. |
| `Search.Window` | src/main/java/searchengine/services/SearchServiceImpl.java:122-125 | A fragment starts at most 50 characters before the match, and at 0 exactly when the match is within the first 50. It is at most 200 long and ends at 200 characters or at the end of the text. Characters here are Unicode scalar values, not Java's UTF-16 units. |
| `Search.Snippet` | src/main/java/searchengine/services/SearchServiceImpl.java:114-116 | With no match of any lemma the snippet is the placeholder. |
| `Search.SnippetShowsFirstMatches` | src/main/java/searchengine/services/SearchServiceImpl.java:118-132 | The snippet is made of fragments around the first three matches, or all of them if fewer, in text order. No match before the last one shown is skipped. |
| `Search.FirstPositionsAreTheEarliest` | src/main/java/searchengine/services/SearchServiceImpl.java:120-121 | The first n positions hold every match up to the n-th. |
| `Search.PositionsAreTheOccurrences` | src/main/java/searchengine/services/SearchServiceImpl.java:105-112 | An index is a position exactly when some lemma occurs there. |
| `Search.InsertRanked` | src/main/java/searchengine/services/SearchServiceImpl.java:90 | Inserting into a ranked list keeps it ranked and adds exactly the one result. |
| `Search.SortByRelevance` | src/main/java/searchengine/services/SearchServiceImpl.java:90 | The sort is a permutation that puts the most relevant results first. |
| `Search.InsertRankedIsStable` | src/main/java/searchengine/services/SearchServiceImpl.java:90 | Inserting puts the new result after every existing result of the same relevance. |
| `Search.SortIsStable` | src/main/java/searchengine/services/SearchServiceImpl.java:90 | The sort is stable: results of one relevance keep their order. |
| `Search.Paginate` | src/main/java/searchengine/services/SearchServiceImpl.java:91-92 | A page holds at most `limit` results, the ones that start at `offset`, in order. |
| `Search.PagesTile` | src/main/java/searchengine/services/SearchServiceImpl.java:91-92 | Consecutive pages tile the list: paging neither skips nor repeats a result. |
| `Search.Candidates` | src/main/java/searchengine/services/SearchServiceImpl.java:53-58 | The candidates are, without repetitions, the pages of the all-sites query when the site is null or empty, and of the per-site query otherwise. |
| `Search.ResultOf` | src/main/java/searchengine/services/SearchServiceImpl.java:76-88 | A result has a rooted uri, the page's site name and title, and the page's relevance. |
| `Search.Results` | src/main/java/searchengine/services/SearchServiceImpl.java:74-89 | There is one result per candidate page, in order. |
| `Search.SearchPages` | src/main/java/searchengine/services/SearchServiceImpl.java:38-98 | The three error answers come in source order. A negative offset or limit throws, and a candidate without content throws. Otherwise the call answers, with at most `limit` results. Snippets use the `indexOf` chain cut at the end of the text, so an empty lemma does not hang the call as it does in Java. |
| `Search.SearchAnswersAreWellFormed` | src/main/java/searchengine/services/SearchServiceImpl.java:38-98 | Every answer carries a list exactly when it has no error, and its count is the list's length. |
| `Search.SuccessIsRankedPage` | src/main/java/searchengine/services/SearchServiceImpl.java:74-97 | A successful answer is the requested page of all candidates' results, ranked most relevant first. Every candidate appears exactly once in the full ranking. |
| `Search.PageIsRanked` | src/main/java/searchengine/services/SearchServiceImpl.java:90-93 | Any page of a ranked list is ranked. |
| `Search.PagingKeepsErrors` | src/main/java/searchengine/services/SearchServiceImpl.java:38-92 | Non-negative offsets and limits never change whether the call throws, nor which error it answers. |

## Left out

- `IndexingService.java:127` calls a `PageCrawler.startCrawling` that `PageCrawler` does not define, so the crawl of a site run is a parameter of `Orchestrator` (`CrawlEnd`). In the same way, `ApiController.java:108` and `:115` call `isUrlValid` and `indexPage` on `IndexingService`, which defines neither.
- The second half of `PageCrawler` is not modelled: the no-argument `processPageContent`, `processLinks`, `fetchPageContent`, `processFetchedContent` and the `finalizeIndexing` steps. `handleResponse`, `savePhoneLink` and `saveJavaScriptLink` are modelled as stand-alone operations.
- Concurrency: `invokeAll` and the executors are taken in list order, one task at a time. `PerformIndexing` runs the site runs one after another. Interleavings between a crawl and a stop are modelled only at the points the lemmas name.
- `Crawler.Crawl` carries a `fuel` depth bound. A crawl deeper than the bound stops at the bound.
- The network, Jsoup parsing, the morphology analysers and the politeness sleep are parameters. The sleep is modelled only by its possible interrupt.
- `calculateRelevance` and `countByLemma` are a given function from page and lemmas to a real number. Java doubles, `Math.log`, NaN and floating-point rounding are left out. So is `lemmaFrequencyMap`, which only feeds the relevance.
- The `(?i)` highlighting `replaceAll` is a given function. Its regex, built from a lemma, is not modelled.
- `String.toLowerCase` is modelled character by character, so it never changes a string's length. Java's locale-dependent and length-changing mappings are left out.
- `HashSet` and `HashMap` iteration order is taken as first-occurrence order. The writer's contracts hold for any order of distinct keys.
- The statistics totals are unbounded integers, so Java `int` overflow is left out.
- `LocalDateTime` is a whole number of epoch seconds (UTC), and `System.currentTimeMillis` is a parameter.
- Page equality in `new HashSet<>(pages)` is structural equality of the page record.
- `ApiController`, logging, `LemmaProcessor.extractLemmas` and the `PageRepository` query `findPagesByLemmas` are not part of this model. The query lemmatizer and the page queries of the search are parameters. `countBySiteUrl` is modelled by `Statistics.OnSiteUrl`.
- `Orchestrator.PerformIndexing`: states only that the flag is unchanged. What each site run leaves is stated by `BeginSite`, `FinishSite` and the lemmas about them. It runs every site to completion with the flag up. The one-hour `awaitTermination`, followed by `shutdownNow` and the `finally` that drops the flag, is not modelled. A site run still crawling after the hour ends with the flag down and is not marked INDEXED. `FinishSite` states that end for one site, but the run does not produce it.
- `Orchestrator.StopDuringRunLeavesSiteFailed`: holds only for a stop after the crawl's last write. No crawl task reads the flag, so a task that passes its guard after the stop saves its INDEXING site over the FAILED row, and the row ends INDEXING. That case is stated by `Orchestrator.LateStampUndoesStop`. The model does not say which tasks still run after `shutdownNow`.
- `Orchestrator.UpdateSitesStatusToFailed`: its own contract states only what stays. Which rows fail is stated by `StopFailsExactlyTheIndexingSites`.
- `Search.Snippet`: states only the placeholder direction. Its fragments are stated by `SnippetShowsFirstMatches`. A fragment can itself read like the placeholder, so the converse does not hold.
- `Search.SearchPages`: the relevance of each result and the text of the snippet come from given functions, so their values are stated only through `ResultOf`.
- `Statistics.Items`: states only the length. The items' contents are stated by `DetailedItem`, `ItemsFollowConfig` and `ItemCountsNonNegative`.
- `Crawler.WritePage`: states only which tables change. What the writer does to them is stated in `IndexWriter`.
- `Search.Window`: offsets, and the 50 and 200 bounds of the snippet window, count Unicode scalar values, because a Dafny `char` is one. Java's `substring` and `length` count UTF-16 code units. On text with characters outside the Basic Multilingual Plane, such as emoji, the Java window is shorter and can split a surrogate pair, which this model cannot represent.
- `Search.Snippet`: also counts Unicode scalar values, as `Search.Window` does. It uses the `indexOf` chain cut at the end of the text, the corrected build of the last Findings row. So it always returns, where Java's `generateSnippet` never returns for an empty lemma.
- `Search.SearchPages`: answers every valid query because it is built on the cut `indexOf` chain. It does not model that Java's `search` never returns when the query lemmatizer yields an empty lemma. That case is stated only by `Search.EmptyLemmaNeverAdvances`.
- Repository lookups that return a list are taken in insertion order. `IndexWriter.Target` takes the first matching row as the one `findByLemma(text).get(0)` and the other `get(0)` lookups return. Those derived queries have no `ORDER BY`, so the database chooses the row.
- `Store.FindSiteByUrl` and `Store.DeleteSiteData` take the first site row with the url. Spring Data's single-result `findByUrl` throws when two rows share a url. That exception is not modelled, and url uniqueness is not kept as an invariant of the tables.

## Findings

| source | as written | input that shows it | evidently intended | confidence | as-written member | corrected member |
|---|---|---|---|---|---|---|
| src/main/java/searchengine/services/PageCrawler.java:507-517 | `findByLemma(text)` looks a lemma up on every site, and the crawler raises the first row found | two sites whose pages both contain "кот" | one lemma row per (site, text), as `findByLemmaAndSite` and the statistics per site assume | medium, not executed | `IndexWriter.CrossSiteLookupMergesSites` | `IndexWriter.PerSiteFrequencyIsDocumentFrequency` |
| src/main/java/searchengine/services/IndexingService.java:285 | the frequency grows by the page's occurrence count | one page whose text holds "кот" three times | frequency = number of the site's pages containing the lemma | medium, not executed; `IndexingService.processPageContent` has no caller in the source, so this is reachable only through code outside it | `IndexWriter.CountBumpCountsOccurrences` | `IndexWriter.PerSiteFrequencyIsDocumentFrequency` |
| src/main/java/searchengine/services/IndexingService.java:281-298 | an index entry is created only for a lemma new to the site | two pages of one site that both contain "кот"; the second gets no entry | every page gets an entry for every lemma it holds | high, not executed; `IndexingService.processPageContent` has no caller in the source, so this is reachable only through code outside it | `IndexWriter.KnownLemmaGetsNoEntry` | `IndexWriter.PerSiteEntries` |
| src/main/java/searchengine/services/PageCrawler.java:57 | `existsByPath(path)` checks the path on every site, and every root url has the empty path | a second site crawled after the first site's root page is stored | the existence check is per site, as `existsByPathAndSiteId` elsewhere in the class | high, not executed | `Crawler.GlobalPathCheckSkipsOtherRoots` | `Crawler.CorrectedRootIsCrawled` |
| src/main/java/searchengine/services/PageIndexingService.java:50 | the service's `visitedPages` is never cleared between `indexPage` calls | `indexPage(url)` twice for the same url | each call re-crawls the site it just deleted | high, not executed; `PageIndexingService.indexPage` has no caller in the source (the controller calls an `indexPage` that `IndexingService` lacks), so this is reachable only through code outside it | `PageIndexing.SecondIndexPageFetchesNothing` | `PageIndexing.CorrectedIndexPageStoresRoot` |
| src/main/java/searchengine/services/SearchServiceImpl.java:107-111 | the `indexOf` chain restarts at `index + 1` with no bound | a lemma list holding the empty string: `indexOf("", len + 1)` answers `len` forever | the loop stops once the index reaches the end of the text | low (depends on the query lemmatizer ever yielding ""), not executed | `Search.EmptyLemmaNeverAdvances` | `Search.OccurrencesOf` |
