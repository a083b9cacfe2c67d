/** `processPageContent`: merging the lemma counts of one page into the lemma table and the
    index. The four copies in the code base differ in three independent choices, which
    `Policy` names; `Merge` is the loop they share and `Reference` what it computes. */
module IndexWriter {
  import opened Basics
  import opened Store

  /** `findByLemma(text)` (any site) or `findByLemmaAndSite(text, site)`. */
  datatype Lookup = ByText | BySiteAndText
  /** `setFrequency(getFrequency() + 1)` or `+ count`. */
  datatype Bump = ByOne | ByCount
  /** Whether a lemma that already had a row gets an index entry. */
  datatype Link = EveryLemma | NewLemmasOnly

  datatype Policy = Policy(lookup: Lookup, bump: Bump, link: Link)

  /** `PageCrawler.processPageContent` and `PageIndexingService.processPageContent`. */
  const PageCrawlerPolicy := Policy(ByText, ByOne, EveryLemma)
  /** `IndexingService.processPageContent`. */
  const IndexingServicePolicy := Policy(BySiteAndText, ByCount, NewLemmasOnly)
  /** `IndexPageSite.processPageContent`. */
  const IndexPageSitePolicy := Policy(BySiteAndText, ByCount, EveryLemma)
  /** Per-site document frequency: what the lemma table is meant to hold. */
  const PerSitePolicy := Policy(BySiteAndText, ByOne, EveryLemma)

  /** The two tables the writer changes. */
  datatype Tables = Tables(lemmas: seq<Lemma>, indexes: seq<IndexEntry>)

  predicate Matches(lookup: Lookup, row: Lemma, site: nat, k: string) {
    row.text == k && (lookup == ByText || row.siteId == site)
  }

  /** Position of the row the repository call returns: the first matching row. */
  function Target(t: seq<Lemma>, lookup: Lookup, site: nat, k: string): (r: Option<nat>)
    ensures r.Some? ==> r.value < |t| && Matches(lookup, t[r.value], site, k)
    ensures r.Some? ==> forall i | 0 <= i < r.value :: !Matches(lookup, t[i], site, k)
    ensures r.None? <==> forall i | 0 <= i < |t| :: !Matches(lookup, t[i], site, k)
    decreases |t|
  {
    if t == [] then None
    else if Matches(lookup, t[0], site, k) then Some(0)
    else
      var r := Target(t[1..], lookup, site, k);
      assert forall i | 1 <= i < |t| :: t[i] == t[1..][i - 1];
      match r
      case None => None
      case Some(i) => Some(i + 1)
  }

  function Amount(b: Bump, count: nat): nat {
    if b == ByOne then 1 else count
  }

  /** The rows with row `i`'s frequency raised by `d`. */
  function Raise(t: seq<Lemma>, i: nat, d: nat): (r: seq<Lemma>)
    requires i < |t|
    ensures |r| == |t| && r[i].frequency == t[i].frequency + d
    ensures forall j | 0 <= j < |t| && j != i :: r[j] == t[j]
  {
    t[i := t[i].(frequency := t[i].frequency + d)]
  }

  /** One turn of the loop over the lemma map: find the row (or create it with frequency 0),
      raise its frequency and record an index entry with rank = the lemma's count. */
  function MergeOne(pol: Policy, tb: Tables, page: nat, site: nat, k: string, count: nat): Tables {
    match Target(tb.lemmas, pol.lookup, site, k)
    case Some(i) =>
      Tables(Raise(tb.lemmas, i, Amount(pol.bump, count)),
             if pol.link == EveryLemma then tb.indexes + [IndexEntry(page, tb.lemmas[i].siteId, k, count)]
             else tb.indexes)
    case None =>
      Tables(tb.lemmas + [Lemma(site, k, Amount(pol.bump, count))],
             tb.indexes + [IndexEntry(page, site, k, count)])
  }

  /** The loop over the entries of the lemma map of page `page` on site `site`,
      `keys` being the map's iteration order. */
  function Merge(pol: Policy, tb: Tables, page: nat, site: nat, keys: seq<string>,
                 counts: map<string, nat>): Tables
    requires forall k | k in keys :: k in counts
    decreases |keys|
  {
    if keys == [] then tb
    else
      var k := keys[|keys| - 1];
      MergeOne(pol, Merge(pol, tb, page, site, keys[..|keys| - 1], counts), page, site, k, counts[k])
  }

  // ---------------------------------------------------------------------------------------
  // What the loop computes, stated against the table as it was before the page.

  /** The keys of the page that had no row before it. */
  function NewKeys(lookup: Lookup, t0: seq<Lemma>, site: nat, keys: seq<string>): (r: seq<string>)
    ensures forall k :: k in r <==> k in keys && Target(t0, lookup, site, k).None?
    ensures Distinct(keys) ==> Distinct(r)
    decreases |keys|
  {
    if keys == [] then []
    else
      var init := keys[..|keys| - 1];
      var k := keys[|keys| - 1];
      assert keys == init + [k];
      NewKeys(lookup, t0, site, init) + (if Target(t0, lookup, site, k).None? then [k] else [])
  }

  /** The frequency the original row `i` ends with. */
  function Bumped(pol: Policy, t0: seq<Lemma>, site: nat, keys: seq<string>,
                  counts: map<string, nat>, i: nat): int
    requires i < |t0|
    requires forall k | k in keys :: k in counts
  {
    var k := t0[i].text;
    if k in keys && Target(t0, pol.lookup, site, k) == Some(i)
    then t0[i].frequency + Amount(pol.bump, counts[k])
    else t0[i].frequency
  }

  /** The original rows with their new frequencies. */
  function Updated(pol: Policy, t0: seq<Lemma>, site: nat, keys: seq<string>,
                   counts: map<string, nat>): (r: seq<Lemma>)
    requires forall k | k in keys :: k in counts
    ensures |r| == |t0|
    ensures forall i | 0 <= i < |t0| :: r[i].siteId == t0[i].siteId && r[i].text == t0[i].text
  {
    seq(|t0|, i requires 0 <= i < |t0| =>
      t0[i].(frequency := Bumped(pol, t0, site, keys, counts, i)))
  }

  /** The rows created for the page, in key order, all on the page's site. */
  function NewRows(pol: Policy, t0: seq<Lemma>, site: nat, keys: seq<string>,
                   counts: map<string, nat>): (r: seq<Lemma>)
    requires forall k | k in keys :: k in counts
  {
    var nk := NewKeys(pol.lookup, t0, site, keys);
    seq(|nk|, j requires 0 <= j < |nk| => Lemma(site, nk[j], Amount(pol.bump, counts[nk[j]])))
  }

  /** The index entry a key produces, if any. */
  function EntryFor(pol: Policy, t0: seq<Lemma>, page: nat, site: nat, k: string, count: nat)
    : seq<IndexEntry>
  {
    match Target(t0, pol.lookup, site, k)
    case Some(i) => if pol.link == EveryLemma then [IndexEntry(page, t0[i].siteId, k, count)] else []
    case None => [IndexEntry(page, site, k, count)]
  }

  /** The index entries created for the page, in key order. */
  function Entries(pol: Policy, t0: seq<Lemma>, page: nat, site: nat, keys: seq<string>,
                   counts: map<string, nat>): seq<IndexEntry>
    requires forall k | k in keys :: k in counts
    decreases |keys|
  {
    if keys == [] then []
    else
      var k := keys[|keys| - 1];
      Entries(pol, t0, page, site, keys[..|keys| - 1], counts) + EntryFor(pol, t0, page, site, k, counts[k])
  }

  function Reference(pol: Policy, tb: Tables, page: nat, site: nat, keys: seq<string>,
                     counts: map<string, nat>): Tables
    requires forall k | k in keys :: k in counts
  {
    Tables(Updated(pol, tb.lemmas, site, keys, counts) + NewRows(pol, tb.lemmas, site, keys, counts),
           tb.indexes + Entries(pol, tb.lemmas, page, site, keys, counts))
  }

  /** Appending rows and changing frequencies does not move the first match of a key that
      already had one; when it had none, a match can only be among the appended rows. */
  lemma {:induction false} TargetStable(t0: seq<Lemma>, t1: seq<Lemma>, lookup: Lookup, site: nat, k: string)
    requires |t0| <= |t1|
    requires forall i | 0 <= i < |t0| :: t1[i].siteId == t0[i].siteId && t1[i].text == t0[i].text
    ensures Target(t0, lookup, site, k).Some? ==> Target(t1, lookup, site, k) == Target(t0, lookup, site, k)
    ensures Target(t0, lookup, site, k).None? ==>
      (Target(t1, lookup, site, k).None? <==>
         forall j | |t0| <= j < |t1| :: !Matches(lookup, t1[j], site, k))
    decreases |t0|
  {
    if t0 != [] && !Matches(lookup, t0[0], site, k) {
      assert t1[0].siteId == t0[0].siteId && t1[0].text == t0[0].text;
      TargetStable(t0[1..], t1[1..], lookup, site, k);
      assert forall j | |t0| <= j < |t1| :: t1[j] == t1[1..][j - 1];
    } else if t0 != [] {
      assert t1[0].siteId == t0[0].siteId && t1[0].text == t0[0].text;
    }
  }

  lemma NewKeysSnoc(lookup: Lookup, t0: seq<Lemma>, site: nat, keys: seq<string>, k: string)
    ensures NewKeys(lookup, t0, site, keys + [k])
         == NewKeys(lookup, t0, site, keys) + (if Target(t0, lookup, site, k).None? then [k] else [])
  {
    assert (keys + [k])[..|keys + [k]| - 1] == keys;
  }

  /** A key already in the table raises the frequency of its row and of no other. */
  lemma UpdatedStepFound(pol: Policy, t0: seq<Lemma>, site: nat, init: seq<string>, k: string,
                         counts: map<string, nat>, i: nat)
    requires forall k | k in init :: k in counts
    requires k in counts && k !in init
    requires Target(t0, pol.lookup, site, k) == Some(i)
    ensures var up0 := Updated(pol, t0, site, init, counts);
      Updated(pol, t0, site, init + [k], counts) == Raise(up0, i, Amount(pol.bump, counts[k]))
  {
    var up0 := Updated(pol, t0, site, init, counts);
    var up1 := Updated(pol, t0, site, init + [k], counts);
    var want := Raise(up0, i, Amount(pol.bump, counts[k]));
    forall j | 0 <= j < |t0| ensures up1[j] == want[j] {
      BumpedStep(pol, t0, site, init, k, counts, i, j);
    }
    assert |up1| == |want|;
  }

  lemma BumpedStep(pol: Policy, t0: seq<Lemma>, site: nat, init: seq<string>, k: string,
                   counts: map<string, nat>, i: nat, j: nat)
    requires forall k | k in init :: k in counts
    requires k in counts && k !in init
    requires Target(t0, pol.lookup, site, k) == Some(i)
    requires j < |t0|
    ensures Bumped(pol, t0, site, init + [k], counts, j)
         == Bumped(pol, t0, site, init, counts, j) + (if j == i then Amount(pol.bump, counts[k]) else 0)
  {
    var x := t0[j].text;
    assert x in init + [k] <==> x in init || x == k;
    if x == k && j != i {
      assert Target(t0, pol.lookup, site, k) != Some(j);
    }
  }

  /** A key new to the table changes no existing frequency. */
  lemma UpdatedStepNew(pol: Policy, t0: seq<Lemma>, site: nat, init: seq<string>, k: string,
                       counts: map<string, nat>)
    requires forall k | k in init :: k in counts
    requires k in counts
    requires Target(t0, pol.lookup, site, k).None?
    ensures Updated(pol, t0, site, init + [k], counts) == Updated(pol, t0, site, init, counts)
  {
    var up0 := Updated(pol, t0, site, init, counts);
    var up1 := Updated(pol, t0, site, init + [k], counts);
    forall j | 0 <= j < |t0| ensures up1[j] == up0[j] {
      if t0[j].text == k {
        assert Target(t0, pol.lookup, site, k) != Some(j);
      }
    }
  }

  lemma NewRowsStep(pol: Policy, t0: seq<Lemma>, site: nat, init: seq<string>, k: string,
                    counts: map<string, nat>)
    requires forall k | k in init :: k in counts
    requires k in counts
    ensures NewRows(pol, t0, site, init + [k], counts)
         == NewRows(pol, t0, site, init, counts)
            + (if Target(t0, pol.lookup, site, k).None? then [Lemma(site, k, Amount(pol.bump, counts[k]))] else [])
  {
    NewKeysSnoc(pol.lookup, t0, site, init, k);
  }

  /** The rows created so far hold keys of the page, and a key that is not among them does
      not match any of them. */
  lemma NewRowsMiss(pol: Policy, t0: seq<Lemma>, site: nat, init: seq<string>, k: string,
                    counts: map<string, nat>)
    requires forall k | k in init :: k in counts
    requires k !in init
    ensures var nr := NewRows(pol, t0, site, init, counts);
      forall j | 0 <= j < |nr| :: !Matches(pol.lookup, nr[j], site, k)
  {
    var nr := NewRows(pol, t0, site, init, counts);
    forall j | 0 <= j < |nr| ensures !Matches(pol.lookup, nr[j], site, k) {
      assert nr[j].text in NewKeys(pol.lookup, t0, site, init);
    }
  }

  /** The table the reference reaches after `init`: a key not in `init` finds the same row
      in it as in the original table, or, having none there, none at all. */
  lemma ReferenceTarget(pol: Policy, tb: Tables, page: nat, site: nat, init: seq<string>, k: string,
                        counts: map<string, nat>)
    requires forall k | k in init :: k in counts
    requires k !in init
    ensures Target(Reference(pol, tb, page, site, init, counts).lemmas, pol.lookup, site, k)
         == Target(tb.lemmas, pol.lookup, site, k)
  {
    var t0 := tb.lemmas;
    var cur := Reference(pol, tb, page, site, init, counts).lemmas;
    var up0 := Updated(pol, t0, site, init, counts);
    var nr0 := NewRows(pol, t0, site, init, counts);
    assert cur == up0 + nr0;
    NewRowsMiss(pol, t0, site, init, k, counts);
    assert forall j | |t0| <= j < |cur| :: cur[j] == nr0[j - |t0|];
    TargetStable(t0, cur, pol.lookup, site, k);
  }

  /** After a found key, the reference's rows are the earlier ones with that row raised. */
  lemma ReferenceLemmasFound(pol: Policy, t0: seq<Lemma>, site: nat, init: seq<string>, k: string,
                             counts: map<string, nat>, i: nat)
    requires forall k | k in init :: k in counts
    requires k in counts && k !in init
    requires Target(t0, pol.lookup, site, k) == Some(i)
    ensures var up0 := Updated(pol, t0, site, init, counts);
      Updated(pol, t0, site, init + [k], counts) + NewRows(pol, t0, site, init + [k], counts)
        == Raise(up0 + NewRows(pol, t0, site, init, counts), i, Amount(pol.bump, counts[k]))
  {
    var up0 := Updated(pol, t0, site, init, counts);
    var nr0 := NewRows(pol, t0, site, init, counts);
    var d := Amount(pol.bump, counts[k]);
    NewRowsStep(pol, t0, site, init, k, counts);
    assert NewRows(pol, t0, site, init + [k], counts) == nr0;
    UpdatedStepFound(pol, t0, site, init, k, counts, i);
    RaiseInPrefix(up0, nr0, i, d);
  }

  lemma RaiseInPrefix(a: seq<Lemma>, b: seq<Lemma>, i: nat, d: nat)
    requires i < |a|
    ensures Raise(a + b, i, d) == Raise(a, i, d) + b
  {
  }

  lemma ReferenceStepFound(pol: Policy, tb: Tables, page: nat, site: nat, init: seq<string>, k: string,
                           counts: map<string, nat>, i: nat)
    requires forall k | k in init :: k in counts
    requires k in counts && k !in init
    requires Target(tb.lemmas, pol.lookup, site, k) == Some(i)
    ensures Reference(pol, tb, page, site, init + [k], counts).lemmas
         == MergeOne(pol, Reference(pol, tb, page, site, init, counts), page, site, k, counts[k]).lemmas
  {
    var cur := Reference(pol, tb, page, site, init, counts);
    var up0 := Updated(pol, tb.lemmas, site, init, counts);
    var nr0 := NewRows(pol, tb.lemmas, site, init, counts);
    var d := Amount(pol.bump, counts[k]);
    assert cur.lemmas == up0 + nr0;
    ReferenceTarget(pol, tb, page, site, init, k, counts);
    MergeOneFound(pol, cur, page, site, k, counts[k], i);
    assert MergeOne(pol, cur, page, site, k, counts[k]).lemmas == Raise(up0 + nr0, i, d);
    ReferenceLemmasFound(pol, tb.lemmas, site, init, k, counts, i);
    assert Reference(pol, tb, page, site, init + [k], counts).lemmas == Raise(up0 + nr0, i, d);
  }

  lemma MergeOneFound(pol: Policy, tb: Tables, page: nat, site: nat, k: string, count: nat, i: nat)
    requires Target(tb.lemmas, pol.lookup, site, k) == Some(i)
    ensures MergeOne(pol, tb, page, site, k, count).lemmas == Raise(tb.lemmas, i, Amount(pol.bump, count))
  {
  }

  lemma ReferenceStepNew(pol: Policy, tb: Tables, page: nat, site: nat, init: seq<string>, k: string,
                         counts: map<string, nat>)
    requires forall k | k in init :: k in counts
    requires k in counts && k !in init
    requires Target(tb.lemmas, pol.lookup, site, k).None?
    ensures Reference(pol, tb, page, site, init + [k], counts).lemmas
         == MergeOne(pol, Reference(pol, tb, page, site, init, counts), page, site, k, counts[k]).lemmas
  {
    var t0 := tb.lemmas;
    var cur := Reference(pol, tb, page, site, init, counts);
    var up0 := Updated(pol, t0, site, init, counts);
    var nr0 := NewRows(pol, t0, site, init, counts);
    var row := [Lemma(site, k, Amount(pol.bump, counts[k]))];
    ReferenceTarget(pol, tb, page, site, init, k, counts);
    assert MergeOne(pol, cur, page, site, k, counts[k]).lemmas == (up0 + nr0) + row;
    NewRowsStep(pol, t0, site, init, k, counts);
    UpdatedStepNew(pol, t0, site, init, k, counts);
    assert Reference(pol, tb, page, site, init + [k], counts).lemmas == up0 + (nr0 + row);
    AppendAssoc(up0, nr0, row);
  }

  lemma ReferenceStepIndexes(pol: Policy, tb: Tables, page: nat, site: nat, init: seq<string>, k: string,
                             counts: map<string, nat>)
    requires forall k | k in init :: k in counts
    requires k in counts && k !in init
    ensures Reference(pol, tb, page, site, init + [k], counts).indexes
         == MergeOne(pol, Reference(pol, tb, page, site, init, counts), page, site, k, counts[k]).indexes
  {
    var t0 := tb.lemmas;
    var keys := init + [k];
    var cur := Reference(pol, tb, page, site, init, counts);
    var e0 := Entries(pol, t0, page, site, init, counts);
    var one := EntryFor(pol, t0, page, site, k, counts[k]);
    ReferenceTarget(pol, tb, page, site, init, k, counts);
    assert MergeOne(pol, cur, page, site, k, counts[k]).indexes == (tb.indexes + e0) + one by {
      MergeOneIndexes(pol, cur, t0, page, site, k, counts[k]);
    }
    assert keys[..|keys| - 1] == init;
    assert Entries(pol, t0, page, site, keys, counts) == e0 + one;
    AppendAssoc(tb.indexes, e0, one);
  }

  /** The entry one turn of the loop records depends only on which row the key finds, so a
      table that finds the same rows as `t0` records `EntryFor` on `t0`. */
  lemma MergeOneIndexes(pol: Policy, tb: Tables, t0: seq<Lemma>, page: nat, site: nat, k: string, count: nat)
    requires Target(tb.lemmas, pol.lookup, site, k) == Target(t0, pol.lookup, site, k)
    requires forall i | 0 <= i < |t0| && i < |tb.lemmas| :: tb.lemmas[i].siteId == t0[i].siteId
    ensures MergeOne(pol, tb, page, site, k, count).indexes == tb.indexes + EntryFor(pol, t0, page, site, k, count)
  {
  }

  /** One more key: the reference moves exactly as one turn of the loop does. */
  lemma ReferenceStep(pol: Policy, tb: Tables, page: nat, site: nat, init: seq<string>, k: string,
                      counts: map<string, nat>)
    requires forall k | k in init :: k in counts
    requires k in counts && k !in init
    ensures Reference(pol, tb, page, site, init + [k], counts)
         == MergeOne(pol, Reference(pol, tb, page, site, init, counts), page, site, k, counts[k])
  {
    ReferenceStepIndexes(pol, tb, page, site, init, k, counts);
    match Target(tb.lemmas, pol.lookup, site, k)
    case Some(i) => ReferenceStepFound(pol, tb, page, site, init, k, counts, i);
    case None => ReferenceStepNew(pol, tb, page, site, init, k, counts);
  }

  /** The loop, run key by key on the changing table, ends where the reference says: every
      lookup it makes finds what it would have found in the table before the page. */
  lemma {:induction false} MergeIsReference(pol: Policy, tb: Tables, page: nat, site: nat,
                                            keys: seq<string>, counts: map<string, nat>)
    requires forall k | k in keys :: k in counts
    requires Distinct(keys)
    ensures Merge(pol, tb, page, site, keys, counts) == Reference(pol, tb, page, site, keys, counts)
    decreases |keys|
  {
    if keys != [] {
      var init := keys[..|keys| - 1];
      var k := keys[|keys| - 1];
      assert keys == init + [k];
      assert Distinct(init);
      MergeIsReference(pol, tb, page, site, init, counts);
      ReferenceStep(pol, tb, page, site, init, k, counts);
    }
  }

  // ---------------------------------------------------------------------------------------
  // Consequences for the table and the index.

  /** With every lemma linked, the page gets exactly one entry per key, in key order, with
      rank = the key's count, pointing at the row the key was merged into. */
  lemma {:induction false} EntriesOfEveryLemma(pol: Policy, t0: seq<Lemma>, page: nat, site: nat,
                                                keys: seq<string>, counts: map<string, nat>)
    requires forall k | k in keys :: k in counts
    requires pol.link == EveryLemma
    ensures var e := Entries(pol, t0, page, site, keys, counts);
      |e| == |keys| &&
      forall j | 0 <= j < |keys| ::
        e[j].pageId == page && e[j].lemmaText == keys[j] && e[j].rank == counts[keys[j]] &&
        e[j].lemmaSite == RowSite(t0, pol.lookup, site, keys[j])
    decreases |keys|
  {
    if keys != [] {
      var init := keys[..|keys| - 1];
      EntriesOfEveryLemma(pol, t0, page, site, init, counts);
      assert forall j | 0 <= j < |init| :: keys[j] == init[j];
    }
  }

  /** Only lemmas new to the table are linked: one entry per new key, in key order. */
  lemma {:induction false} EntriesOfNewLemmasOnly(pol: Policy, t0: seq<Lemma>, page: nat, site: nat,
                                                   keys: seq<string>, counts: map<string, nat>)
    requires forall k | k in keys :: k in counts
    requires pol.link == NewLemmasOnly
    ensures var e := Entries(pol, t0, page, site, keys, counts);
      var nk := NewKeys(pol.lookup, t0, site, keys);
      |e| == |nk| &&
      forall j | 0 <= j < |nk| :: e[j] == IndexEntry(page, site, nk[j], counts[nk[j]])
    decreases |keys|
  {
    if keys != [] {
      var init := keys[..|keys| - 1];
      EntriesOfNewLemmasOnly(pol, t0, page, site, init, counts);
      NewKeysSnoc(pol.lookup, t0, site, init, keys[|keys| - 1]);
      assert keys == init + [keys[|keys| - 1]];
    }
  }

  /** The site of the row a key is merged into: the found row's, else the page's. */
  function RowSite(t0: seq<Lemma>, lookup: Lookup, site: nat, k: string): nat {
    match Target(t0, lookup, site, k)
    case Some(i) => t0[i].siteId
    case None => site
  }

  /** The shape of the table after a page: the old rows in place with their site and text,
      then one row per new key, on the page's site, in key order. */
  ghost predicate Extends(t0: seq<Lemma>, t1: seq<Lemma>, site: nat, nk: seq<string>) {
    |t1| == |t0| + |nk| &&
    (forall i | 0 <= i < |t0| :: t1[i].siteId == t0[i].siteId && t1[i].text == t0[i].text) &&
    (forall j | 0 <= j < |nk| :: t1[|t0| + j].siteId == site && t1[|t0| + j].text == nk[j])
  }

  /** The reference table has that shape; old rows hold `Bumped`, new rows `Amount`. */
  lemma ReferenceExtends(pol: Policy, t0: seq<Lemma>, site: nat, keys: seq<string>, counts: map<string, nat>)
    requires forall k | k in keys :: k in counts
    ensures var t1 := Updated(pol, t0, site, keys, counts) + NewRows(pol, t0, site, keys, counts);
      var nk := NewKeys(pol.lookup, t0, site, keys);
      Extends(t0, t1, site, nk) &&
      (forall i | 0 <= i < |t0| :: t1[i].frequency == Bumped(pol, t0, site, keys, counts, i)) &&
      (forall j | 0 <= j < |nk| :: t1[|t0| + j].frequency == Amount(pol.bump, counts[nk[j]]))
  {
  }

  /** Where a lookup lands after the page: on the same row when it found one before, else
      on the new row of its key, which exists exactly for a new key looked up on its site. */
  lemma TargetAfter(t0: seq<Lemma>, t1: seq<Lemma>, lookup: Lookup, site: nat, nk: seq<string>,
                    s: nat, k: string)
    requires Extends(t0, t1, site, nk)
    ensures Target(t0, lookup, s, k).Some? ==> Target(t1, lookup, s, k) == Target(t0, lookup, s, k)
    ensures Target(t0, lookup, s, k).None? ==>
      (Target(t1, lookup, s, k).Some? <==> k in nk && (lookup == ByText || s == site))
    ensures Target(t0, lookup, s, k).None? && Target(t1, lookup, s, k).Some? ==>
      |t0| <= Target(t1, lookup, s, k).value && nk[Target(t1, lookup, s, k).value - |t0|] == k
  {
    TargetStable(t0, t1, lookup, s, k);
    if Target(t0, lookup, s, k).None? {
      if k in nk && (lookup == ByText || s == site) {
        var j :| 0 <= j < |nk| && nk[j] == k;
        assert Matches(lookup, t1[|t0| + j], s, k);
      }
      var r := Target(t1, lookup, s, k);
      if r.Some? {
        assert t1[r.value].text == nk[r.value - |t0|];
      }
    }
  }

  /** After the page, every key has a row that the same lookup finds, whose frequency is
      what it found before (0 for none) plus `Amount`. */
  lemma RaisedKey(pol: Policy, t0: seq<Lemma>, site: nat, keys: seq<string>,
                  counts: map<string, nat>, k: string)
    requires forall k | k in keys :: k in counts
    requires k in keys
    ensures var t1 := Updated(pol, t0, site, keys, counts) + NewRows(pol, t0, site, keys, counts);
      Target(t1, pol.lookup, site, k).Some? &&
      FreqOf(t1, pol.lookup, site, k) == FreqOf(t0, pol.lookup, site, k) + Amount(pol.bump, counts[k])
  {
    var t1 := Updated(pol, t0, site, keys, counts) + NewRows(pol, t0, site, keys, counts);
    var nk := NewKeys(pol.lookup, t0, site, keys);
    ReferenceExtends(pol, t0, site, keys, counts);
    TargetAfter(t0, t1, pol.lookup, site, nk, site, k);
  }

  /** After the page, every key has a row that the same lookup finds. */
  lemma EveryKeyHasRow(pol: Policy, tb: Tables, page: nat, site: nat, keys: seq<string>,
                       counts: map<string, nat>, k: string)
    requires forall k | k in keys :: k in counts
    requires Distinct(keys)
    requires k in keys
    ensures Target(Merge(pol, tb, page, site, keys, counts).lemmas, pol.lookup, site, k).Some?
  {
    MergeIsReference(pol, tb, page, site, keys, counts);
    RaisedKey(pol, tb.lemmas, site, keys, counts, k);
  }

  /** The frequency of the row the lookup finds for `k`, or 0 without one. */
  function FreqOf(t: seq<Lemma>, lookup: Lookup, site: nat, k: string): int {
    match Target(t, lookup, site, k)
    case Some(i) => t[i].frequency
    case None => 0
  }

  /** Under a per-site lookup the new rows never collide with each other or with an
      existing row of the same site and text. */
  lemma ReferenceKeyed(pol: Policy, t0: seq<Lemma>, site: nat, keys: seq<string>, counts: map<string, nat>)
    requires forall k | k in keys :: k in counts
    requires Distinct(keys)
    requires pol.lookup == BySiteAndText
    requires LemmasKeyed(t0)
    ensures LemmasKeyed(Updated(pol, t0, site, keys, counts) + NewRows(pol, t0, site, keys, counts))
  {
    var t1 := Updated(pol, t0, site, keys, counts) + NewRows(pol, t0, site, keys, counts);
    var nk := NewKeys(pol.lookup, t0, site, keys);
    ReferenceExtends(pol, t0, site, keys, counts);
    forall i, j | 0 <= i < j < |t1|
      ensures !(t1[i].siteId == t1[j].siteId && t1[i].text == t1[j].text)
    {
      if j < |t0| {
        assert !(t0[i].siteId == t0[j].siteId && t0[i].text == t0[j].text);
      } else if i < |t0| {
        assert nk[j - |t0|] in nk;
        assert !Matches(BySiteAndText, t0[i], site, nk[j - |t0|]);
      } else {
        assert nk[i - |t0|] != nk[j - |t0|];
      }
    }
  }

  /** Per site: the frequency of (s, k) gains `Amount` when the page is on site `s` and
      holds `k`, and (s, k) has a row afterwards exactly when it had one or just got one. */
  lemma ReferenceFreq(pol: Policy, t0: seq<Lemma>, site: nat, keys: seq<string>,
                      counts: map<string, nat>, s: nat, k: string)
    requires forall k | k in keys :: k in counts
    requires pol.lookup == BySiteAndText
    ensures var t1 := Updated(pol, t0, site, keys, counts) + NewRows(pol, t0, site, keys, counts);
      (Target(t1, BySiteAndText, s, k).Some? <==> Target(t0, BySiteAndText, s, k).Some? || (s == site && k in keys)) &&
      FreqOf(t1, BySiteAndText, s, k)
        == FreqOf(t0, BySiteAndText, s, k) + (if s == site && k in keys then Amount(pol.bump, counts[k]) else 0)
  {
    var t1 := Updated(pol, t0, site, keys, counts) + NewRows(pol, t0, site, keys, counts);
    var nk := NewKeys(pol.lookup, t0, site, keys);
    ReferenceExtends(pol, t0, site, keys, counts);
    TargetAfter(t0, t1, BySiteAndText, site, nk, s, k);
    match Target(t0, BySiteAndText, s, k)
    case Some(i) =>
      if s != site {
        assert Target(t0, BySiteAndText, site, k) != Some(i);
      }
    case None =>
  }

  /** One page under a per-site lookup: the rows of other sites and of other texts keep
      their frequency, every key of the page gains `Amount`, a key new to the site starts
      from 0, and (site, text) stays a key of the table. */
  lemma MergePerSite(pol: Policy, tb: Tables, page: nat, site: nat,
                     keys: seq<string>, counts: map<string, nat>, s: nat, k: string)
    requires forall k | k in keys :: k in counts
    requires Distinct(keys)
    requires pol.lookup == BySiteAndText
    requires LemmasKeyed(tb.lemmas)
    ensures var t1 := Merge(pol, tb, page, site, keys, counts).lemmas;
      LemmasKeyed(t1) &&
      FreqOf(t1, BySiteAndText, s, k) == FreqOf(tb.lemmas, BySiteAndText, s, k) + (if s == site && k in keys then Amount(pol.bump, counts[k]) else 0) &&
      (Target(t1, BySiteAndText, s, k).Some? <==>
         Target(tb.lemmas, BySiteAndText, s, k).Some? || (s == site && k in keys))
  {
    MergeIsReference(pol, tb, page, site, keys, counts);
    ReferenceKeyed(pol, tb.lemmas, site, keys, counts);
    ReferenceFreq(pol, tb.lemmas, site, keys, counts, s, k);
  }

  /** For any policy: every key of the page ends with a row that the same lookup finds, whose
      frequency is the one it found before (0 for a new row) plus `Amount`; rows whose text
      is not a key are untouched, no row is removed or moved, and new rows hold keys of the
      page on the page's site. */
  lemma MergeRaisesEveryKey(pol: Policy, tb: Tables, page: nat, site: nat,
                            keys: seq<string>, counts: map<string, nat>)
    requires forall k | k in keys :: k in counts
    requires Distinct(keys)
    ensures var t1 := Merge(pol, tb, page, site, keys, counts).lemmas;
      |tb.lemmas| <= |t1| &&
      (forall k | k in keys ::
         Target(t1, pol.lookup, site, k).Some? &&
         FreqOf(t1, pol.lookup, site, k) == FreqOf(tb.lemmas, pol.lookup, site, k) + Amount(pol.bump, counts[k])) &&
      (forall i | 0 <= i < |tb.lemmas| ::
         t1[i].siteId == tb.lemmas[i].siteId && t1[i].text == tb.lemmas[i].text) &&
      (forall i | 0 <= i < |tb.lemmas| && tb.lemmas[i].text !in keys :: t1[i] == tb.lemmas[i]) &&
      (forall j | |tb.lemmas| <= j < |t1| :: t1[j].siteId == site && t1[j].text in keys)
  {
    MergeIsReference(pol, tb, page, site, keys, counts);
    var t0 := tb.lemmas;
    var t1 := Updated(pol, t0, site, keys, counts) + NewRows(pol, t0, site, keys, counts);
    var nk := NewKeys(pol.lookup, t0, site, keys);
    ReferenceExtends(pol, t0, site, keys, counts);
    forall k | k in keys
      ensures Target(t1, pol.lookup, site, k).Some?
      ensures FreqOf(t1, pol.lookup, site, k) == FreqOf(t0, pol.lookup, site, k) + Amount(pol.bump, counts[k])
    {
      RaisedKey(pol, t0, site, keys, counts, k);
    }
    forall j | |t0| <= j < |t1| ensures t1[j].text in keys {
      assert nk[j - |t0|] in nk;
    }
  }

  // ---------------------------------------------------------------------------------------
  // The four writers.

  /** `PageCrawler` / `PageIndexingService`: one index entry per key, in key order, with
      rank = the key's count; the row each key finds (by text, on any site) or creates gains
      exactly 1, so a new lemma goes from 0 to 1. */
  lemma PageCrawlerWriter(tb: Tables, page: nat, site: nat, keys: seq<string>, counts: map<string, nat>)
    requires forall k | k in keys :: k in counts
    requires Distinct(keys)
    ensures var r := Merge(PageCrawlerPolicy, tb, page, site, keys, counts);
      |r.indexes| == |tb.indexes| + |keys| && r.indexes[..|tb.indexes|] == tb.indexes &&
      (forall j | 0 <= j < |keys| ::
         r.indexes[|tb.indexes| + j].pageId == page && r.indexes[|tb.indexes| + j].lemmaText == keys[j] &&
         r.indexes[|tb.indexes| + j].rank == counts[keys[j]]) &&
      (forall k | k in keys :: FreqOf(r.lemmas, ByText, site, k) == FreqOf(tb.lemmas, ByText, site, k) + 1)
  {
    MergeIsReference(PageCrawlerPolicy, tb, page, site, keys, counts);
    EntriesOfEveryLemma(PageCrawlerPolicy, tb.lemmas, page, site, keys, counts);
    MergeRaisesEveryKey(PageCrawlerPolicy, tb, page, site, keys, counts);
  }

  /** `IndexingService`: a lemma the site already has gains the key's count and gets no index
      entry; a new lemma is created with frequency = count and gets exactly one entry, with
      rank = count. */
  lemma IndexingServiceWriter(tb: Tables, page: nat, site: nat, keys: seq<string>, counts: map<string, nat>)
    requires forall k | k in keys :: k in counts
    requires Distinct(keys)
    ensures var r := Merge(IndexingServicePolicy, tb, page, site, keys, counts);
      var nk := NewKeys(BySiteAndText, tb.lemmas, site, keys);
      r.indexes == tb.indexes + seq(|nk|, j requires 0 <= j < |nk| => IndexEntry(page, site, nk[j], counts[nk[j]])) &&
      (forall k | k in keys ::
         FreqOf(r.lemmas, BySiteAndText, site, k) == FreqOf(tb.lemmas, BySiteAndText, site, k) + counts[k]) &&
      (forall k | k in keys && Target(tb.lemmas, BySiteAndText, site, k).None? ::
         FreqOf(r.lemmas, BySiteAndText, site, k) == counts[k])
  {
    MergeIsReference(IndexingServicePolicy, tb, page, site, keys, counts);
    EntriesOfNewLemmasOnly(IndexingServicePolicy, tb.lemmas, page, site, keys, counts);
    MergeRaisesEveryKey(IndexingServicePolicy, tb, page, site, keys, counts);
    var e := Entries(IndexingServicePolicy, tb.lemmas, page, site, keys, counts);
    var nk := NewKeys(BySiteAndText, tb.lemmas, site, keys);
    var want := seq(|nk|, j requires 0 <= j < |nk| => IndexEntry(page, site, nk[j], counts[nk[j]]));
    assert e == want;
    assert Merge(IndexingServicePolicy, tb, page, site, keys, counts).indexes == tb.indexes + want;
  }

  /** `IndexPageSite`: every key's row on the page's site gains the key's count (a new row
      starts from 0), and every key gets exactly one entry, in key order, with rank = count,
      on the page's site. */
  lemma IndexPageSiteWriter(tb: Tables, page: nat, site: nat, keys: seq<string>, counts: map<string, nat>)
    requires forall k | k in keys :: k in counts
    requires Distinct(keys)
    ensures var r := Merge(IndexPageSitePolicy, tb, page, site, keys, counts);
      r.indexes == tb.indexes + seq(|keys|, j requires 0 <= j < |keys| => IndexEntry(page, site, keys[j], counts[keys[j]])) &&
      (forall k | k in keys ::
         FreqOf(r.lemmas, BySiteAndText, site, k) == FreqOf(tb.lemmas, BySiteAndText, site, k) + counts[k])
  {
    MergeIsReference(IndexPageSitePolicy, tb, page, site, keys, counts);
    EntriesOfEveryLemma(IndexPageSitePolicy, tb.lemmas, page, site, keys, counts);
    MergeRaisesEveryKey(IndexPageSitePolicy, tb, page, site, keys, counts);
    var e := Entries(IndexPageSitePolicy, tb.lemmas, page, site, keys, counts);
    var want := seq(|keys|, j requires 0 <= j < |keys| => IndexEntry(page, site, keys[j], counts[keys[j]]));
    forall j | 0 <= j < |keys| ensures e[j] == want[j] {
      assert RowSite(tb.lemmas, BySiteAndText, site, keys[j]) == site;
    }
    assert e == want;
    assert Merge(IndexPageSitePolicy, tb, page, site, keys, counts).indexes == tb.indexes + want;
  }

  // ---------------------------------------------------------------------------------------
  // Document frequency over a run of pages.

  /** The lemma counts of one page, with their iteration order. */
  datatype PageLemmas = PageLemmas(pageId: nat, siteId: nat, keys: seq<string>, counts: map<string, nat>)

  predicate WellFormed(p: PageLemmas) {
    Distinct(p.keys) && forall k | k in p.keys :: k in p.counts
  }

  /** Pages written one after another. */
  function WriteAll(pol: Policy, tb: Tables, ps: seq<PageLemmas>): Tables
    requires forall j | 0 <= j < |ps| :: WellFormed(ps[j])
    decreases |ps|
  {
    if ps == [] then tb
    else
      var p := ps[|ps| - 1];
      assert WellFormed(p);
      Merge(pol, WriteAll(pol, tb, ps[..|ps| - 1]), p.pageId, p.siteId, p.keys, p.counts)
  }

  /** The number of pages of site `s` that contain `k`. */
  function DocFreq(ps: seq<PageLemmas>, s: nat, k: string): nat
    decreases |ps|
  {
    if ps == [] then 0
    else DocFreq(ps[..|ps| - 1], s, k) + (if ps[|ps| - 1].siteId == s && k in ps[|ps| - 1].keys then 1 else 0)
  }

  /** Written per site with +1, the table ends with one row per (site, lemma) that occurs,
      whose frequency is the number of that site's pages containing the lemma. */
  lemma {:induction false} PerSiteFrequencyIsDocumentFrequency(ps: seq<PageLemmas>, s: nat, k: string)
    requires forall j | 0 <= j < |ps| :: WellFormed(ps[j])
    ensures var t := WriteAll(PerSitePolicy, Tables([], []), ps).lemmas;
      LemmasKeyed(t) && FreqOf(t, BySiteAndText, s, k) == DocFreq(ps, s, k) &&
      (Target(t, BySiteAndText, s, k).Some? <==> DocFreq(ps, s, k) > 0)
    decreases |ps|
  {
    if ps != [] {
      var init := ps[..|ps| - 1];
      var p := ps[|ps| - 1];
      PerSiteFrequencyIsDocumentFrequency(init, s, k);
      MergePerSite(PerSitePolicy, WriteAll(PerSitePolicy, Tables([], []), init),
                   p.pageId, p.siteId, p.keys, p.counts, s, k);
    }
  }

  /** Written per site, a page gets exactly one index entry per lemma it holds, with
      rank = the lemma's count, pointing at that lemma's row on the page's own site. */
  lemma PerSiteEntries(tb: Tables, page: nat, site: nat, keys: seq<string>, counts: map<string, nat>)
    requires forall k | k in keys :: k in counts
    requires Distinct(keys)
    ensures Merge(PerSitePolicy, tb, page, site, keys, counts).indexes
         == tb.indexes + seq(|keys|, j requires 0 <= j < |keys| => IndexEntry(page, site, keys[j], counts[keys[j]]))
  {
    MergeIsReference(PerSitePolicy, tb, page, site, keys, counts);
    EntriesOfEveryLemma(PerSitePolicy, tb.lemmas, page, site, keys, counts);
  }

  // ---------------------------------------------------------------------------------------
  // Where the writers as written part from per-site document frequency.

  /** Two pages containing "кот", one on site 1 and one on site 2. */
  function TwoSites(): seq<PageLemmas> {
    [PageLemmas(1, 1, ["кот"], map["кот" := 1]), PageLemmas(2, 2, ["кот"], map["кот" := 1])]
  }

  /** `PageCrawler` / `PageIndexingService` look the lemma up by text alone: the second page
      raises site 1's row to 2 and site 2 never gets a row of its own. */
  lemma CrossSiteLookupMergesSites()
    ensures WriteAll(PageCrawlerPolicy, Tables([], []), TwoSites())
         == Tables([Lemma(1, "кот", 2)], [IndexEntry(1, 1, "кот", 1), IndexEntry(2, 1, "кот", 1)])
    ensures DocFreq(TwoSites(), 1, "кот") == 1 && DocFreq(TwoSites(), 2, "кот") == 1
    ensures FreqOf(WriteAll(PageCrawlerPolicy, Tables([], []), TwoSites()).lemmas, BySiteAndText, 2, "кот") == 0
  {
    var ps := TwoSites();
    assert ps[..1] == [ps[0]];
    assert ps[..1][..0] == [];
    var keys: seq<string> := ["кот"];
    assert keys[..0] == [];
    var t1 := WriteAll(PageCrawlerPolicy, Tables([], []), ps[..1]);
    assert WriteAll(PageCrawlerPolicy, Tables([], []), ps[..1][..0]) == Tables([], []);
    assert t1 == Merge(PageCrawlerPolicy, Tables([], []), 1, 1, keys, map["кот" := 1]);
    assert t1 == Tables([Lemma(1, "кот", 1)], [IndexEntry(1, 1, "кот", 1)]);
    assert Target(t1.lemmas, ByText, 2, "кот") == Some(0);
  }

  /** A page whose text holds "кот" three times. */
  function Thrice(): seq<PageLemmas> {
    [PageLemmas(1, 1, ["кот"], map["кот" := 3])]
  }

  /** `IndexingService` and `IndexPageSite` add the occurrence count: one page holding
      "кот" three times leaves frequency 3 where one page contains it. */
  lemma CountBumpCountsOccurrences()
    ensures DocFreq(Thrice(), 1, "кот") == 1
    ensures FreqOf(WriteAll(IndexingServicePolicy, Tables([], []), Thrice()).lemmas, BySiteAndText, 1, "кот") == 3
    ensures FreqOf(WriteAll(IndexPageSitePolicy, Tables([], []), Thrice()).lemmas, BySiteAndText, 1, "кот") == 3
  {
    assert Thrice()[..0] == [];
  }

  /** Two pages of site 1 that both contain "кот". */
  function SameSiteTwice(): seq<PageLemmas> {
    [PageLemmas(1, 1, ["кот"], map["кот" := 1]), PageLemmas(2, 1, ["кот"], map["кот" := 1])]
  }

  /** `IndexingService` links only new lemmas: the second page gets no index entry for
      "кот", although it contains it. */
  lemma KnownLemmaGetsNoEntry()
    ensures WriteAll(IndexingServicePolicy, Tables([], []), SameSiteTwice()).indexes
         == [IndexEntry(1, 1, "кот", 1)]
    ensures WriteAll(PerSitePolicy, Tables([], []), SameSiteTwice()).indexes
         == [IndexEntry(1, 1, "кот", 1), IndexEntry(2, 1, "кот", 1)]
  {
    var ps := SameSiteTwice();
    assert ps[..1] == [ps[0]];
    assert ps[..1][..0] == [];
    assert WriteAll(IndexingServicePolicy, Tables([], []), ps[..1]).lemmas == [Lemma(1, "кот", 1)];
    assert WriteAll(PerSitePolicy, Tables([], []), ps[..1]).lemmas == [Lemma(1, "кот", 1)];
  }
}
