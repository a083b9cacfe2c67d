/** `SearchServiceImpl.search` and the `SearchResponse` it returns: the query's lemmas
    select candidate pages, every distinct page becomes a result with a snippet and a
    relevance, the results are ranked by relevance and one page of them is returned. */
module Search {
  import opened Basics
  import opened Text
  import opened Store

  /** `SearchResult`. `relevance` is a Java `double`, taken here as an exact real. */
  datatype SearchResult = SearchResult(site: string, siteName: string, uri: string,
                                       title: Option<string>, snippet: string, relevance: real)

  /** `SearchResponse`: `data` and `error` are nullable references. */
  datatype SearchResponse = SearchResponse(result: bool, count: int,
                                           data: Option<seq<SearchResult>>, error: Option<string>)

  /** The exceptions `search` can raise instead of answering. */
  datatype Thrown = IllegalArgument | NullPointer

  /** What a call of `search` ends with. */
  datatype Outcome = Answered(response: SearchResponse) | Threw(exception: Thrown)

  /** The collaborators of the search service the model takes as given: the query
      lemmatizer, the two page queries of `PageRepository`, the page's site and title,
      the relevance score, Java's lower-casing of one character, and one
      `replaceAll("(?i)" + lemma, "<b>$0</b>")` that highlights a lemma in a fragment. */
  datatype SearchEnv = SearchEnv(
    extractLemmas: string -> seq<string>,
    pagesByLemmas: seq<string> -> seq<Page>,
    pagesByLemmasOnSite: (seq<string>, string) -> seq<Page>,
    siteOf: Page -> Site,
    titleOf: Page -> Option<string>,
    relevance: (Page, seq<string>) -> real,
    lower: char -> char,
    highlight: (string, string) -> string)

  const EmptyQueryError: string := "❌ Задан пустой поисковый запрос"
  const NoLemmasError: string := "❌ Не удалось обработать запрос"
  const NoResultsError: string := "❌ Нет результатов по вашему запросу."
  const NoMatchSnippet: string := "...Совпадений не найдено..."
  const SnippetLength: int := 200
  const ContextBefore: int := 50
  const MaxFragments: int := 3

  // ---------------------------------------------------------------------------------------
  // The response DTO.

  /** The constructor for a successful answer: no error, the given list. */
  function SuccessResponse(result: bool, count: int, data: seq<SearchResult>): (r: SearchResponse)
    ensures r.result == result && r.count == count && r.data == Some(data) && r.error.None?
  {
    SearchResponse(result, count, Some(data), None)
  }

  /** The constructor for an error: not a result, no items, no list, the message. */
  function ErrorResponse(message: string): (r: SearchResponse)
    ensures !r.result && r.count == 0 && r.data.None? && r.error == Some(message)
  {
    SearchResponse(false, 0, None, Some(message))
  }

  /** The shape every response of `search` has: it carries a list exactly when it carries
      no error, it is a result exactly then, and its count is the list's length. */
  predicate WellFormed(r: SearchResponse) {
    (r.data.Some? <==> r.error.None?)
    && (r.result <==> r.error.None?)
    && (r.data.Some? ==> r.count == |r.data.value|)
    && (r.error.Some? ==> r.count == 0)
  }

  /** The two constructors can never build the same response: a response is an error
      response exactly when it carries an error message. */
  lemma ConstructorsAreDistinguishedByError(m: string, b: bool, c: int, d: seq<SearchResult>)
    ensures ErrorResponse(m) != SuccessResponse(b, c, d)
    ensures WellFormed(ErrorResponse(m))
    ensures WellFormed(SuccessResponse(true, |d|, d))
    ensures !WellFormed(SuccessResponse(false, c, d))
  {
  }

  // ---------------------------------------------------------------------------------------
  // Shaping one page into a result.

  /** `url.replaceAll("/$", "")`: a slash at a position where `$` matches is removed. At
      most one such slash exists. */
  function StripTrailingSlash(s: string): (r: string)
    ensures forall j | 0 <= j < |s| && s[j] == '/' && DollarAt(s, j + 1) :: r == s[..j] + s[j + 1..]
    ensures (forall j | 0 <= j < |s| :: !(s[j] == '/' && DollarAt(s, j + 1))) ==> r == s
  {
    var n := |s|;
    if n >= 1 && s[n - 1] == '/' then s[..n - 1]
    else if n >= 2 && s[n - 2] == '/' && DollarAt(s, n - 1) then s[..n - 2] + s[n - 1..]
    else if n >= 3 && s[n - 3] == '/' && DollarAt(s, n - 2) then s[..n - 3] + s[n - 2..]
    else s
  }

  /** For a url without line terminators the rule is the familiar one: one trailing slash
      is dropped, and nothing else changes. */
  lemma StripTrailingSlashOnPlainUrl(s: string)
    requires NoLineTerminator(s)
    ensures EndsWith(s, "/") ==> StripTrailingSlash(s) + "/" == s
    ensures !EndsWith(s, "/") ==> StripTrailingSlash(s) == s
  {
    var n := |s|;
    if EndsWith(s, "/") {
      assert s[n - 1] == '/' by { assert s[n - 1..] == "/"; }
      assert s[..n - 1] + "/" == s;
    } else {
      if n >= 1 {
        assert s[n - 1..] == [s[n - 1]];
      }
      assert n >= 2 ==> !IsLineTerminator(s[n - 1]);
      assert n >= 3 ==> !(s[n - 2] == '\r');
    }
  }

  /** `path.replaceAll("^/", "")`: one leading slash is removed. */
  function StripLeadingSlash(s: string): (r: string)
    ensures StartsWith(s, "/") ==> "/" + r == s
    ensures !StartsWith(s, "/") ==> r == s
  {
    if |s| > 0 && s[0] == '/' then s[1..] else s
  }

  /** The result's uri, `"/" + pagePath`. */
  function Uri(path: string): (r: string)
    ensures StartsWith(r, "/")
  {
    "/" + StripLeadingSlash(path)
  }

  /** The uri is the stored path itself when that already starts with a slash, and the path
      with a slash put in front otherwise: a path never gains a second slash. */
  lemma UriIsRootedPath(path: string)
    ensures StartsWith(path, "/") ==> Uri(path) == path
    ensures !StartsWith(path, "/") ==> Uri(path) == "/" + path
  {
  }

  // ---------------------------------------------------------------------------------------
  // The snippet.

  /** Some lemma (already lower-cased) occurs in `lc` at index `i`. */
  predicate MatchesAt(lc: string, pats: seq<string>, i: int) {
    exists m | 0 <= m < |pats| :: OccursAt(lc, pats[m], i)
  }

  /** The lower-cased lemmas, `lemma.toLowerCase()` for each. */
  function LowerAll(lemmas: seq<string>, lower: char -> char): (r: seq<string>)
    ensures |r| == |lemmas|
    ensures forall m | 0 <= m < |lemmas| :: r[m] == LowerCase(lemmas[m], lower)
  {
    seq(|lemmas|, m requires 0 <= m < |lemmas| => LowerCase(lemmas[m], lower))
  }

  /** The keys of the `positions` tree map at and after `from`, in key order: every index
      where some lemma occurs, ascending. */
  function Positions(lc: string, pats: seq<string>, from: nat): (r: seq<int>)
    ensures forall i :: i in r <==> from <= i && MatchesAt(lc, pats, i)
    ensures forall a | 0 <= a < |r| :: from <= r[a] <= |lc|
    ensures forall a, b | 0 <= a < b < |r| :: r[a] < r[b]
    decreases |lc| + 1 - from
  {
    if from > |lc| then
      assert forall i | from <= i :: !MatchesAt(lc, pats, i);
      []
    else
      var rest := Positions(lc, pats, from + 1);
      if MatchesAt(lc, pats, from) then
        var r := [from] + rest;
        assert forall i :: i in r <==> i == from || i in rest;
        r
      else rest
  }

  /** The loop of `generateSnippet` that fills `positions`: for each lemma in turn, the
      indices its `indexOf` chain finds are put in. */
  method CollectPositions(lc: string, pats: seq<string>) returns (ps: set<int>)
    ensures forall i :: i in ps <==> i in Positions(lc, pats, 0)
  {
    ps := {};
    var k := 0;
    while k < |pats|
      invariant 0 <= k <= |pats|
      invariant forall i :: i in ps <==> MatchesAt(lc, pats[..k], i)
    {
      var found := OccurrencesOf(lc, pats[k]);
      MatchesAtSnoc(lc, pats, k);
      ps := ps + found;
      k := k + 1;
    }
    assert pats[..k] == pats;
  }

  lemma MatchesAtSnoc(lc: string, pats: seq<string>, k: nat)
    requires k < |pats|
    ensures forall i :: MatchesAt(lc, pats[..k + 1], i) <==> MatchesAt(lc, pats[..k], i) || OccursAt(lc, pats[k], i)
  {
    forall i ensures MatchesAt(lc, pats[..k + 1], i) <==> MatchesAt(lc, pats[..k], i) || OccursAt(lc, pats[k], i) {
      if MatchesAt(lc, pats[..k + 1], i) {
        var m :| 0 <= m < k + 1 && OccursAt(lc, pats[..k + 1][m], i);
        if m < k { assert pats[..k][m] == pats[..k + 1][m]; }
      }
      if OccursAt(lc, pats[k], i) {
        assert pats[..k + 1][k] == pats[k];
      }
      if MatchesAt(lc, pats[..k], i) {
        var m :| 0 <= m < k && OccursAt(lc, pats[..k][m], i);
        assert pats[..k + 1][m] == pats[..k][m];
      }
    }
  }

  /** The `indexOf` chain of one lemma: from index 0, each found index is recorded and the
      search restarts one past it. The chain is cut once the index has reached the end of
      the text; see `EmptyLemmaNeverAdvances` for why. */
  method OccurrencesOf(lc: string, pat: string) returns (found: set<int>)
    ensures forall i :: i in found <==> OccursAt(lc, pat, i)
  {
    found := {};
    var index := IndexOf(lc, pat, 0);
    while index != -1
      invariant index == -1 || (0 <= index && OccursAt(lc, pat, index))
      invariant forall i :: i in found <==> OccursAt(lc, pat, i) && (index == -1 || i < index)
      decreases if index == -1 then 0 else |lc| + 1 - index
    {
      found := found + {index};
      if index < |lc| {
        index := IndexOf(lc, pat, index + 1);
      } else {
        index := -1;
      }
    }
  }

  /** The step of the `indexOf` chain as written: the search restarts one past the last
      index, without a bound. */
  function NextIndex(lc: string, pat: string, index: int): int {
    IndexOf(lc, pat, index + 1)
  }

  /** For a non-empty lemma the chain always moves forward, so the cut in
      `CollectPositions` never fires and the loop is the one written in the service. */
  lemma NonEmptyLemmaAdvances(lc: string, pat: string, index: int)
    requires pat != [] && 0 <= index && OccursAt(lc, pat, index)
    ensures index < |lc|
    ensures NextIndex(lc, pat, index) == -1 || NextIndex(lc, pat, index) > index
  {
  }

  /** For an empty lemma `indexOf("", |lc| + 1)` answers `|lc|`: the chain as written
      reaches `|lc|` and then stays there, so the `while (index != -1)` loop never ends. */
  lemma EmptyLemmaNeverAdvances(lc: string)
    ensures IndexOf(lc, "", 0) == 0
    ensures NextIndex(lc, "", |lc|) == |lc|
  {
    assert OccursAt(lc, "", |lc|);
    assert OccursAt(lc, "", 0);
  }

  /** The text window of a fragment around a match at `p`: it starts at most
      `ContextBefore` characters before `p`, at 0 at the earliest, and runs for
      `SnippetLength` characters or to the end of the text. */
  function Window(content: string, p: int): (r: (int, int))
    requires 0 <= p <= |content|
    ensures 0 <= r.0 <= p <= r.0 + ContextBefore
    ensures (r.0 == 0) == (p <= ContextBefore)
    ensures r.0 <= r.1 <= |content| && r.1 - r.0 <= SnippetLength
    ensures r.1 == |content| || r.1 - r.0 == SnippetLength
  {
    var start := Max(p - ContextBefore, 0);
    (start, Min(start + SnippetLength, |content|))
  }

  /** Every lemma's highlighting applied to a fragment, in lemma order. */
  function Highlight(part: string, lemmas: seq<string>, highlight: (string, string) -> string): string
    decreases |lemmas|
  {
    if lemmas == [] then part else Highlight(highlight(part, lemmas[0]), lemmas[1..], highlight)
  }

  /** The fragments of the snippet for the given match positions, in order. */
  function Fragments(content: string, lemmas: seq<string>, ps: seq<int>, highlight: (string, string) -> string): string
    requires forall i | 0 <= i < |ps| :: 0 <= ps[i] <= |content|
    decreases |ps|
  {
    if ps == [] then []
    else
      var w := Window(content, ps[0]);
      "..." + Highlight(content[w.0..w.1], lemmas, highlight) + "..."
      + Fragments(content, lemmas, ps[1..], highlight)
  }

  /** `generateSnippet(content, lemmas)`: the placeholder when no lemma occurs in the
      lower-cased text, otherwise the fragments around the first `MaxFragments` matches. */
  function Snippet(content: string, lemmas: seq<string>, lower: char -> char,
                   highlight: (string, string) -> string): (r: string)
    ensures Positions(LowerCase(content, lower), LowerAll(lemmas, lower), 0) == [] ==> r == NoMatchSnippet
  {
    var ps := Positions(LowerCase(content, lower), LowerAll(lemmas, lower), 0);
    if ps == [] then NoMatchSnippet
    else Fragments(content, lemmas, ps[..Min(MaxFragments, |ps|)], highlight)
  }

  /** The snippet's fragments are built around the first matches of the lower-cased
      lemmas, in text order, at most `MaxFragments` of them: no match before the last
      one shown is skipped. */
  lemma SnippetShowsFirstMatches(content: string, lemmas: seq<string>, lower: char -> char,
                                 highlight: (string, string) -> string)
    ensures var ps := Positions(LowerCase(content, lower), LowerAll(lemmas, lower), 0);
      ps != [] ==>
        Snippet(content, lemmas, lower, highlight) == Fragments(content, lemmas, ps[..Min(MaxFragments, |ps|)], highlight)
        && |ps[..Min(MaxFragments, |ps|)]| == Min(MaxFragments, |ps|)
        && (forall i | 0 <= i && MatchesAt(LowerCase(content, lower), LowerAll(lemmas, lower), i)
              && i <= ps[Min(MaxFragments, |ps|) - 1] :: i in ps[..Min(MaxFragments, |ps|)])
  {
    var ps := Positions(LowerCase(content, lower), LowerAll(lemmas, lower), 0);
    if ps != [] {
      FirstPositionsAreTheEarliest(LowerCase(content, lower), LowerAll(lemmas, lower), Min(MaxFragments, |ps|));
    }
  }

  /** The first `n` match positions hold every match up to the `n`-th. */
  lemma FirstPositionsAreTheEarliest(lc: string, pats: seq<string>, n: nat)
    requires 0 < n <= |Positions(lc, pats, 0)|
    ensures var ps := Positions(lc, pats, 0);
      forall i | 0 <= i && MatchesAt(lc, pats, i) && i <= ps[n - 1] :: i in ps[..n]
  {
    var ps := Positions(lc, pats, 0);
    forall i | 0 <= i && MatchesAt(lc, pats, i) && i <= ps[n - 1]
      ensures i in ps[..n]
    {
      assert i in ps;
      var j :| 0 <= j < |ps| && ps[j] == i;
      assert j < n;
      assert ps[..n][j] == i;
    }
  }

  /** The collected position set is exactly the set of occurrence indices of any lemma. */
  lemma PositionsAreTheOccurrences(lc: string, pats: seq<string>, i: int)
    ensures i in Positions(lc, pats, 0) <==> exists m | 0 <= m < |pats| :: OccursAt(lc, pats[m], i)
  {
  }

  // ---------------------------------------------------------------------------------------
  // Ranking and paging.

  predicate RankedByRelevance(rs: seq<SearchResult>) {
    forall i, j | 0 <= i < j < |rs| :: rs[i].relevance >= rs[j].relevance
  }

  /** The results with relevance `v`, in their order. */
  function OfRelevance(rs: seq<SearchResult>, v: real): seq<SearchResult>
    decreases |rs|
  {
    if rs == [] then [] else (if rs[0].relevance == v then [rs[0]] else []) + OfRelevance(rs[1..], v)
  }

  lemma {:induction false} OfRelevanceAppend(a: seq<SearchResult>, b: seq<SearchResult>, v: real)
    ensures OfRelevance(a + b, v) == OfRelevance(a, v) + OfRelevance(b, v)
    decreases |a|
  {
    if a == [] {
      assert a + b == b;
    } else {
      assert (a + b)[1..] == a[1..] + b;
      OfRelevanceAppend(a[1..], b, v);
    }
  }

  /** Puts `x` into a ranked list after every result at least as relevant. */
  function InsertRanked(x: SearchResult, s: seq<SearchResult>): (r: seq<SearchResult>)
    requires RankedByRelevance(s)
    ensures RankedByRelevance(r)
    ensures multiset(r) == multiset(s) + multiset{x}
    ensures r[0] == x || (s != [] && r[0] == s[0])
    decreases |s|
  {
    if s == [] then [x]
    else if s[0].relevance >= x.relevance then
      var rest := InsertRanked(x, s[1..]);
      assert s == [s[0]] + s[1..];
      assert s[0].relevance >= rest[0].relevance;
      RankedCons(s[0], rest);
      [s[0]] + rest
    else
      RankedCons(x, s);
      [x] + s
  }

  lemma RankedCons(x: SearchResult, s: seq<SearchResult>)
    requires RankedByRelevance(s) && (s != [] ==> x.relevance >= s[0].relevance)
    ensures RankedByRelevance([x] + s)
  {
    var r := [x] + s;
    forall i, j | 0 <= i < j < |r| ensures r[i].relevance >= r[j].relevance {
      if i == 0 && j > 1 {
        assert s[0].relevance >= s[j - 1].relevance;
      }
    }
  }

  /** `.sorted(comparingDouble(getRelevance).reversed())`: a stable sort, most relevant
      first. */
  function SortByRelevance(rs: seq<SearchResult>): (r: seq<SearchResult>)
    ensures RankedByRelevance(r)
    ensures multiset(r) == multiset(rs)
    decreases |rs|
  {
    if rs == [] then []
    else
      assert rs == rs[..|rs| - 1] + [rs[|rs| - 1]];
      InsertRanked(rs[|rs| - 1], SortByRelevance(rs[..|rs| - 1]))
  }

  lemma {:induction false} InsertRankedIsStable(x: SearchResult, s: seq<SearchResult>, v: real)
    requires RankedByRelevance(s)
    ensures OfRelevance(InsertRanked(x, s), v) == OfRelevance(s, v) + (if x.relevance == v then [x] else [])
    decreases |s|
  {
    var mine := if x.relevance == v then [x] else [];
    if s == [] {
      assert InsertRanked(x, s) == [x] + [];
      OfRelevanceCons(x, [], v);
      assert OfRelevance(InsertRanked(x, s), v) == OfRelevance(s, v) + mine;
    } else if s[0].relevance >= x.relevance {
      var head := if s[0].relevance == v then [s[0]] else [];
      RankedTail(s);
      var rest := InsertRanked(x, s[1..]);
      InsertRankedIsStable(x, s[1..], v);
      assert InsertRanked(x, s) == [s[0]] + rest;
      OfRelevanceCons(s[0], rest, v);
      assert OfRelevance(InsertRanked(x, s), v) == head + (OfRelevance(s[1..], v) + mine);
      assert OfRelevance(s, v) == head + OfRelevance(s[1..], v);
      AppendAssoc(head, OfRelevance(s[1..], v), mine);
    } else {
      assert InsertRanked(x, s) == [x] + s;
      OfRelevanceCons(x, s, v);
      if x.relevance == v {
        NoneBelowHead(s, v);
      }
      assert OfRelevance(InsertRanked(x, s), v) == OfRelevance(s, v) + mine;
    }
  }

  lemma OfRelevanceCons(y: SearchResult, t: seq<SearchResult>, v: real)
    ensures OfRelevance([y] + t, v) == (if y.relevance == v then [y] else []) + OfRelevance(t, v)
  {
    assert ([y] + t)[1..] == t;
  }

  lemma RankedTail(s: seq<SearchResult>)
    requires RankedByRelevance(s) && s != []
    ensures RankedByRelevance(s[1..])
  {
    forall i, j | 0 <= i < j < |s| - 1 ensures s[1..][i].relevance >= s[1..][j].relevance {
      assert s[i + 1].relevance >= s[j + 1].relevance;
    }
  }

  /** A ranked list headed by a result less relevant than `v` holds no result of
      relevance `v`. */
  lemma {:induction false} NoneBelowHead(s: seq<SearchResult>, v: real)
    requires RankedByRelevance(s) && s != [] && s[0].relevance < v
    ensures OfRelevance(s, v) == []
    decreases |s|
  {
    if |s| > 1 {
      assert s[1].relevance <= s[0].relevance;
      RankedTail(s);
      NoneBelowHead(s[1..], v);
    }
  }

  /** The sort is stable: the results of any one relevance keep their relative order. */
  lemma {:induction false} SortIsStable(rs: seq<SearchResult>, v: real)
    ensures OfRelevance(SortByRelevance(rs), v) == OfRelevance(rs, v)
    decreases |rs|
  {
    if rs != [] {
      var init := rs[..|rs| - 1];
      var last := rs[|rs| - 1];
      SortIsStable(init, v);
      InsertRankedIsStable(last, SortByRelevance(init), v);
      SplitLast(rs);
      OfRelevanceAppend(init, [last], v);
    }
  }

  lemma SplitLast<T>(s: seq<T>)
    requires s != []
    ensures s == s[..|s| - 1] + [s[|s| - 1]]
  {
  }

  /** `.skip(offset).limit(limit)` for non-negative arguments. */
  function Paginate(rs: seq<SearchResult>, offset: nat, limit: nat): (r: seq<SearchResult>)
    ensures |r| == Min(limit, Max(0, |rs| - offset))
    ensures forall i | 0 <= i < |r| :: offset + i < |rs| && r[i] == rs[offset + i]
  {
    if offset >= |rs| then [] else rs[offset..][..Min(limit, |rs| - offset)]
  }

  /** Consecutive pages tile the ranked list: the page of `a` results at `offset` followed
      by the page of `b` results right after it is the page of `a + b` results at `offset`,
      so paging neither skips nor repeats a result. */
  lemma PagesTile(rs: seq<SearchResult>, offset: nat, a: nat, b: nat)
    ensures Paginate(rs, offset, a) + Paginate(rs, offset + a, b) == Paginate(rs, offset, a + b)
  {
    var l := Paginate(rs, offset, a);
    var m := Paginate(rs, offset + a, b);
    var r := Paginate(rs, offset, a + b);
    assert |l + m| == |r|;
    forall i | 0 <= i < |r| ensures (l + m)[i] == r[i] {
      if i >= |l| {
        assert (l + m)[i] == m[i - |l|];
      }
    }
  }

  // ---------------------------------------------------------------------------------------
  // The pipeline.

  /** The candidate pages: the repository query for all sites when `site` is null or
      empty, for the given site otherwise, without repetitions (`new HashSet<>(…)`). */
  function Candidates(env: SearchEnv, lemmas: seq<string>, site: Option<string>): (r: seq<Page>)
    ensures Distinct(r)
    ensures site.None? || site.value == [] ==> forall p :: p in r <==> p in env.pagesByLemmas(lemmas)
    ensures site.Some? && site.value != [] ==> forall p :: p in r <==> p in env.pagesByLemmasOnSite(lemmas, site.value)
  {
    if site.None? || site.value == [] then Dedup(env.pagesByLemmas(lemmas))
    else Dedup(env.pagesByLemmasOnSite(lemmas, site.value))
  }

  /** The result built for one page whose content is present. */
  function ResultOf(env: SearchEnv, lemmas: seq<string>, page: Page): (r: SearchResult)
    requires page.content.Some?
    ensures StartsWith(r.uri, "/")
    ensures r.siteName == env.siteOf(page).name && r.title == env.titleOf(page)
    ensures r.relevance == env.relevance(page, lemmas)
  {
    SearchResult(StripTrailingSlash(env.siteOf(page).url), env.siteOf(page).name, Uri(page.path),
                 env.titleOf(page), Snippet(page.content.value, lemmas, env.lower, env.highlight),
                 env.relevance(page, lemmas))
  }

  /** Every page mapped to its result, in candidate order. */
  function Results(env: SearchEnv, lemmas: seq<string>, pages: seq<Page>): (r: seq<SearchResult>)
    requires forall i | 0 <= i < |pages| :: pages[i].content.Some?
    ensures |r| == |pages|
    ensures forall i | 0 <= i < |pages| :: r[i] == ResultOf(env, lemmas, pages[i])
  {
    seq(|pages|, i requires 0 <= i < |pages| => ResultOf(env, lemmas, pages[i]))
  }

  predicate AllHaveContent(pages: seq<Page>) {
    forall i | 0 <= i < |pages| :: pages[i].content.Some?
  }

  /** `search(query, site, offset, limit)`. The three error answers come in source order;
      a negative `offset` or `limit` makes `skip` or `limit` throw before any page is
      looked at, and a page without content makes `generateSnippet` throw. */
  function SearchPages(env: SearchEnv, query: Option<string>, site: Option<string>,
                       offset: int, limit: int): (r: Outcome)
    ensures query.None? || IsBlank(query.value) ==> r == Answered(ErrorResponse(EmptyQueryError))
    ensures query.Some? && !IsBlank(query.value) && env.extractLemmas(query.value) == [] ==>
      r == Answered(ErrorResponse(NoLemmasError))
    ensures query.Some? && !IsBlank(query.value) && env.extractLemmas(query.value) != [] ==>
      (r == Answered(ErrorResponse(NoResultsError)) <==> Candidates(env, env.extractLemmas(query.value), site) == [])
    ensures (query.Some? && !IsBlank(query.value) && env.extractLemmas(query.value) != []
             && Candidates(env, env.extractLemmas(query.value), site) != []) ==>
        (offset < 0 || limit < 0 ==> r == Threw(IllegalArgument))
        && (offset >= 0 && limit >= 0 ==>
              (r == Threw(NullPointer) <==> !AllHaveContent(Candidates(env, env.extractLemmas(query.value), site)))
              && (r.Answered? <==> AllHaveContent(Candidates(env, env.extractLemmas(query.value), site))))
    ensures r.Answered? && r.response.result ==> 0 <= r.response.count <= limit
  {
    if query.None? || IsBlank(query.value) then Answered(ErrorResponse(EmptyQueryError))
    else
      var lemmas := env.extractLemmas(query.value);
      if lemmas == [] then Answered(ErrorResponse(NoLemmasError))
      else
        var pages := Candidates(env, lemmas, site);
        if pages == [] then Answered(ErrorResponse(NoResultsError))
        else if offset < 0 || limit < 0 then Threw(IllegalArgument)
        else if !AllHaveContent(pages) then Threw(NullPointer)
        else
          var results := Paginate(SortByRelevance(Results(env, lemmas, pages)), offset, limit);
          Answered(SuccessResponse(true, |results|, results))
  }

  // ---------------------------------------------------------------------------------------
  // Properties of the pipeline.

  /** Every answer of the service has the DTO's shape: a list and no error on success, an
      error and no list otherwise, and the count is the list's length. */
  lemma SearchAnswersAreWellFormed(env: SearchEnv, query: Option<string>, site: Option<string>,
                                   offset: int, limit: int)
    ensures var r := SearchPages(env, query, site, offset, limit); r.Answered? ==> WellFormed(r.response)
  {
  }

  /** A successful answer is the requested page of the candidate pages' results, ranked
      most relevant first; every candidate appears exactly once in the full ranking. */
  lemma SuccessIsRankedPage(env: SearchEnv, query: Option<string>, site: Option<string>,
                            offset: int, limit: int)
    requires SearchPages(env, query, site, offset, limit).Answered?
    requires SearchPages(env, query, site, offset, limit).response.result
    ensures query.Some? && offset >= 0 && limit >= 0
    ensures var lemmas := env.extractLemmas(query.value);
      var pages := Candidates(env, lemmas, site);
      AllHaveContent(pages) &&
      var ranked := SortByRelevance(Results(env, lemmas, pages));
      |ranked| == |pages| &&
      multiset(ranked) == multiset(Results(env, lemmas, pages)) &&
      RankedByRelevance(ranked) &&
      SearchPages(env, query, site, offset, limit).response.data == Some(Paginate(ranked, offset, limit))
  {
    var lemmas := env.extractLemmas(query.value);
    var pages := Candidates(env, lemmas, site);
    var ranked := SortByRelevance(Results(env, lemmas, pages));
    assert |ranked| == |multiset(ranked)|;
  }

  /** The page of results is itself ranked: a result never precedes a more relevant one. */
  lemma PageIsRanked(rs: seq<SearchResult>, offset: nat, limit: nat)
    requires RankedByRelevance(rs)
    ensures RankedByRelevance(Paginate(rs, offset, limit))
  {
    var r := Paginate(rs, offset, limit);
    forall i, j | 0 <= i < j < |r| ensures r[i].relevance >= r[j].relevance {
      assert r[i] == rs[offset + i] && r[j] == rs[offset + j];
    }
  }

  /** Changing only which page of results is asked for never changes the outcome's kind:
      every offset and limit that are not negative see the same candidates. */
  lemma PagingKeepsErrors(env: SearchEnv, query: Option<string>, site: Option<string>,
                          o1: nat, l1: nat, o2: nat, l2: nat)
    ensures SearchPages(env, query, site, o1, l1).Threw? == SearchPages(env, query, site, o2, l2).Threw?
    ensures SearchPages(env, query, site, o1, l1).Answered? && !SearchPages(env, query, site, o1, l1).response.result
      ==> SearchPages(env, query, site, o1, l1) == SearchPages(env, query, site, o2, l2)
  {
  }
}
