/** The URL helpers the three crawlers share: normalisation, the cart filter, path
    derivation, the media-suffix test and the selection of child links. */
module Urls {
  import opened Basics
  import opened Text

  /** `url.replaceAll("#.*", "").replaceAll("\\?.*", "")`: drops the fragment, then the query. */
  function CleanUrl(url: string): (r: string)
    ensures '#' !in r && '?' !in r
    ensures forall x :: x in r ==> x in url
    ensures '#' !in url && '?' !in url ==> r == url
    ensures NoLineTerminator(url) ==> r <= url && (|r| < |url| ==> url[|r|] == '#' || url[|r|] == '?')
  {
    var noFragment := CutFrom(url, '#');
    var r := CutFrom(noFragment, '?');
    assert NoLineTerminator(url) ==> NoLineTerminator(noFragment) by {
      if NoLineTerminator(url) {
        forall i | 0 <= i < |noFragment| ensures !IsLineTerminator(noFragment[i]) {
          assert noFragment[i] in url;
        }
      }
    }
    r
  }

  /** Cleaning twice gives the same url as cleaning once. */
  lemma CleanUrlIdempotent(url: string)
    ensures CleanUrl(CleanUrl(url)) == CleanUrl(url)
  {
  }

  /** Without line terminators, `CleanUrl` keeps exactly the part before the first `#` or `?`. */
  lemma CleanUrlIsPrefixBeforeMarker(url: string, k: nat)
    requires NoLineTerminator(url)
    requires k <= |url|
    requires forall i | 0 <= i < k :: url[i] != '#' && url[i] != '?'
    requires k == |url| || url[k] == '#' || url[k] == '?'
    ensures CleanUrl(url) == url[..k]
  {
  }

  /** `url.contains("/basket") || url.contains("/cart") || url.contains("/checkout")`. */
  function ShouldSkipUrl(url: string): (r: bool)
    ensures r <==> exists i :: OccursAt(url, "/basket", i) || OccursAt(url, "/cart", i)
                                || OccursAt(url, "/checkout", i)
  {
    Contains(url, "/basket") || Contains(url, "/cart") || Contains(url, "/checkout")
  }

  /** A page path: `url.replace(siteUrl, "")`. */
  function PagePath(url: string, siteUrl: string): string {
    RemoveAll(url, siteUrl)
  }

  lemma {:induction false} RemoveAllAbsent(s: string, pat: string)
    requires !Contains(s, pat)
    ensures RemoveAll(s, pat) == s
    decreases |s|
  {
    if pat != [] && s != [] {
      assert !OccursAt(s, pat, 0);
      OccursShift(s, pat);
      RemoveAllAbsent(s[1..], pat);
    }
  }

  /** A url made of the site url followed by a remainder in which the site url does not
      occur has that remainder as its path. */
  lemma PagePathOfSiteUrl(siteUrl: string, rest: string)
    requires siteUrl != []
    requires !Contains(rest, siteUrl)
    ensures PagePath(siteUrl + rest, siteUrl) == rest
  {
    assert (siteUrl + rest)[|siteUrl|..] == rest;
    RemoveAllAbsent(rest, siteUrl);
  }

  /** `url.matches(".*\\.(pdf|docx|xlsx|zip|rar)$")`. `.` does not match a line terminator
      and `matches` must consume the whole input, so a url holding one never matches. */
  predicate IsMediaFile(url: string) {
    NoLineTerminator(url) &&
    (EndsWith(url, ".pdf") || EndsWith(url, ".docx") || EndsWith(url, ".xlsx")
     || EndsWith(url, ".zip") || EndsWith(url, ".rar"))
  }

  /** Whether a cleaned link is crawled: it lies under the site url and is not a cart link. */
  predicate FollowLink(link: string, siteUrl: string) {
    StartsWith(link, siteUrl) && !ShouldSkipUrl(link)
  }

  /** The child urls of a page: its cleaned `a[href]` targets that start with the site url
      and are not skipped, in document order. */
  function ChildLinks(hrefs: seq<string>, siteUrl: string): (r: seq<string>)
    ensures |r| <= |hrefs|
    ensures forall j | 0 <= j < |r| :: FollowLink(r[j], siteUrl) && '#' !in r[j] && '?' !in r[j]
    ensures forall j | 0 <= j < |r| :: exists k | 0 <= k < |hrefs| :: r[j] == CleanUrl(hrefs[k])
    ensures forall k | 0 <= k < |hrefs| && FollowLink(CleanUrl(hrefs[k]), siteUrl) :: CleanUrl(hrefs[k]) in r
    decreases |hrefs|
  {
    if hrefs == [] then []
    else
      var c := CleanUrl(hrefs[0]);
      var rest := ChildLinks(hrefs[1..], siteUrl);
      assert forall k | 1 <= k < |hrefs| :: hrefs[k] == hrefs[1..][k - 1];
      (if FollowLink(c, siteUrl) then [c] else []) + rest
  }

  /** Document order: the children of two runs of links are the first run's children
      followed by the second's, and one link contributes its cleaned form or nothing. */
  lemma {:induction false} ChildLinksInDocumentOrder(a: seq<string>, b: seq<string>, siteUrl: string)
    ensures ChildLinks(a + b, siteUrl) == ChildLinks(a, siteUrl) + ChildLinks(b, siteUrl)
    ensures |a| == 1 ==>
      ChildLinks(a, siteUrl) == (if FollowLink(CleanUrl(a[0]), siteUrl) then [CleanUrl(a[0])] else [])
    decreases |a|
  {
    if a == [] {
      assert a + b == b;
    } else {
      var head := if FollowLink(CleanUrl(a[0]), siteUrl) then [CleanUrl(a[0])] else [];
      assert (a + b)[0] == a[0] && (a + b)[1..] == a[1..] + b;
      ChildLinksInDocumentOrder(a[1..], b, siteUrl);
      assert ChildLinks(a + b, siteUrl) == head + (ChildLinks(a[1..], siteUrl) + ChildLinks(b, siteUrl));
      AppendAssoc(head, ChildLinks(a[1..], siteUrl), ChildLinks(b, siteUrl));
      if |a| == 1 {
        assert a[1..] == [];
      }
    }
  }
}
