/** The crawl of `run_google_patents_scraper` and of its fallback
    `_scrape_google_search`. Every page fetch is replaced by its outcome,
    given as input: either the page, with each selector query already
    evaluated, or an exception raised by `httpx.get`. */
module Crawl {
  import opened Strings
  import opened TextNodes
  import opened Fields
  import opened Links

  /** What `httpx.get` gave for one URL. */
  datatype Fetch<T> = Fetched(page: T) | Failed

  /** The selector results of one patent detail page. */
  datatype DetailPage = DetailPage(
    titleMeta: seq<string>,            // meta[name='DC.title']::attr(content)
    abstractTexts: seq<string>,        // section#abstract ::text
    claimsTexts: seq<string>,          // section#claims ::text
    descriptionTexts: seq<string>,     // #descriptionText ::text, section#description ::text
    inventorTexts: seq<string>,        // text under the dd after the dt containing 'Inventor'
    assigneeTexts: seq<string>,        // text under the dd after the dt containing 'Assignee'
    classificationTexts: seq<string>,  // classification-viewer ::text
    citationRows: seq<seq<string>>,    // span.td ::text of each div.responsive-table div.tr
    events: seq<Event>)                // each div.application-timeline div.event

  /** One `article.result` of the patents search page: its `a#link::attr(href)`,
      its first `a#link::text` and its first `div.abstract::text` (each `""`
      when absent), and what fetching its link gives. */
  datatype Article = Article(href: string, linkText: string, snippet: string, detail: Fetch<DetailPage>)

  /** One `a::attr(href)` of the web search page, and what fetching it gives. */
  datatype SearchLink = SearchLink(url: string, detail: Fetch<DetailPage>)

  /** `PatentInfo`: the eleven text fields of one result. */
  datatype PatentInfo = PatentInfo(
    title: string, abstractText: string, patentId: string, link: string,
    claims: string, description: string, inventor: string, assignee: string,
    classification: string, citations: string, datePublished: string)

  /** A call that returns its value, or one out of which an exception propagates. */
  datatype Outcome<T> = Returned(value: T) | Raised

  // ================================================================ main path

  /** `len(articles[:max_results])`, with Python's slice rules: a negative
      bound counts from the end. */
  function SliceLength(n: nat, maxResults: int): (k: nat)
    ensures k <= n
    ensures 0 <= maxResults ==> k <= maxResults && (k < n ==> k == maxResults)
    ensures maxResults < 0 ==> k + -maxResults >= n && (k > 0 ==> k + -maxResults == n)
  {
    if maxResults >= 0 then (if maxResults < n then maxResults else n)
    else if n + maxResults > 0 then n + maxResults else 0
  }

  /** `if not link: continue` lets the article through. */
  predicate HasLink(a: Article) {
    ResolveLink(a.href) != []
  }

  /** The record the main loop appends for an article that has a link and
      whose detail page was fetched. */
  function MainRecord(a: Article): PatentInfo
    requires a.detail.Fetched?
  {
    var page := a.detail.page;
    var link := ResolveLink(a.href);
    var fullAbstract := Txts(page.abstractTexts);
    PatentInfo(
      title := Strip(a.linkText),
      abstractText := if fullAbstract != [] then fullAbstract else Strip(a.snippet),
      patentId := PatentId(link),
      link := link,
      claims := Txts(page.claimsTexts),
      description := Txts(page.descriptionTexts),
      inventor := Txts(page.inventorTexts),
      assignee := Txts(page.assigneeTexts),
      classification := Txts(page.classificationTexts),
      citations := Join(LineSeparator, CitationLines(page.citationRows)),
      datePublished := Join(EventSeparator, TimelineEntries(page.events)))
  }

  /** The articles the main loop does not skip, in order. */
  function Linked(arts: seq<Article>): (r: seq<Article>)
    ensures |r| <= |arts|
  {
    if arts == [] then []
    else
      var a := arts[|arts| - 1];
      Linked(arts[..|arts| - 1]) + (if HasLink(a) then [a] else [])
  }

  /** `Linked` keeps only articles of its input, and only those with a link. */
  lemma {:induction false} LinkedMembers(arts: seq<Article>)
    ensures forall k :: 0 <= k < |Linked(arts)| ==> Linked(arts)[k] in arts && HasLink(Linked(arts)[k])
  {
    if arts != [] {
      var init := arts[..|arts| - 1];
      LinkedMembers(init);
      forall k | 0 <= k < |Linked(arts)| ensures Linked(arts)[k] in arts && HasLink(Linked(arts)[k]) {
        if k < |Linked(init)| {
          var j :| 0 <= j < |init| && init[j] == Linked(init)[k];
          assert arts[j] == Linked(arts)[k];
        } else {
          assert Linked(arts)[k] == arts[|arts| - 1];
        }
      }
    }
  }

  /** Every article that `Linked` keeps had its detail page fetched. */
  predicate AllFetched(arts: seq<Article>) {
    forall k :: 0 <= k < |arts| ==> arts[k].detail.Fetched?
  }

  /** What the main loop over `arts` gives: an exception if the detail fetch
      of an article with a link raised, otherwise one record per such
      article, in order. */
  function MainPath(arts: seq<Article>): Outcome<seq<PatentInfo>> {
    var ls := Linked(arts);
    if AllFetched(ls) then Returned(MainRecords(ls)) else Raised
  }

  /** The records for `ls`, in order. */
  function MainRecords(ls: seq<Article>): (rs: seq<PatentInfo>)
    requires AllFetched(ls)
    ensures |rs| == |ls|
  {
    if ls == [] then []
    else MainRecords(ls[..|ls| - 1]) + [MainRecord(ls[|ls| - 1])]
  }

  lemma MainRecordsSnoc(ls: seq<Article>, a: Article)
    requires AllFetched(ls) && a.detail.Fetched?
    ensures AllFetched(ls + [a])
    ensures MainRecords(ls + [a]) == MainRecords(ls) + [MainRecord(a)]
  {
    assert (ls + [a])[..|ls|] == ls;
  }

  /** The `k`-th record is the record of the `k`-th article. */
  lemma {:induction false} MainRecordsAt(ls: seq<Article>, k: nat)
    requires AllFetched(ls) && k < |ls|
    ensures MainRecords(ls)[k] == MainRecord(ls[k])
  {
    if k < |ls| - 1 {
      MainRecordsAt(ls[..|ls| - 1], k);
    }
  }

  /** The articles kept from a prefix are a prefix of those kept from the whole. */
  lemma {:induction false} LinkedPrefix(s: seq<Article>, j: nat)
    requires j <= |s|
    ensures Linked(s[..j]) <= Linked(s)
    decreases |s| - j
  {
    if j < |s| {
      var init := s[..|s| - 1];
      assert init[..j] == s[..j];
      LinkedPrefix(init, j);
    } else {
      assert s[..j] == s;
    }
  }

  /** Extending the visited prefix by one article. */
  lemma LinkedStep(s: seq<Article>, i: nat)
    requires i < |s|
    ensures Linked(s[..i + 1]) == Linked(s[..i]) + (if HasLink(s[i]) then [s[i]] else [])
  {
    assert s[..i + 1][..i] == s[..i];
  }

  /** An article with a link sits in `Linked(s)` right after the linked
      articles before it: the records follow article order, one per article
      with a link. */
  lemma LinkedPosition(s: seq<Article>, i: nat)
    requires i < |s| && HasLink(s[i])
    ensures |Linked(s[..i])| < |Linked(s)| && Linked(s)[|Linked(s[..i])|] == s[i]
  {
    LinkedStep(s, i);
    LinkedPrefix(s, i + 1);
  }

  /** Once an exception is raised on a prefix, the whole loop raises. */
  lemma MainPathRaisedPersists(s: seq<Article>, j: nat)
    requires j <= |s| && MainPath(s[..j]) == Raised
    ensures MainPath(s) == Raised
  {
    LinkedPrefix(s, j);
  }

  /** One more iteration of the main loop. */
  lemma MainPathStep(s: seq<Article>, i: nat)
    requires i < |s| && MainPath(s[..i]).Returned?
    ensures MainPath(s[..i + 1]) ==
      if !HasLink(s[i]) then MainPath(s[..i])
      else if s[i].detail.Failed? then Raised
      else Returned(MainPath(s[..i]).value + [MainRecord(s[i])])
  {
    LinkedStep(s, i);
    var ls, ls' := Linked(s[..i]), Linked(s[..i + 1]);
    assert AllFetched(ls);
    if !HasLink(s[i]) {
      assert ls' == ls;
    } else if s[i].detail.Failed? {
      assert ls'[|ls|] == s[i];
      assert !AllFetched(ls');
    } else {
      assert ls' == ls + [s[i]];
      MainRecordsSnoc(ls, s[i]);
    }
  }

  /** The three ways one iteration of the main loop can go. */
  lemma MainPathSkip(s: seq<Article>, i: nat)
    requires i < |s| && MainPath(s[..i]).Returned? && !HasLink(s[i])
    ensures MainPath(s[..i + 1]) == MainPath(s[..i])
  {
    MainPathStep(s, i);
  }

  lemma MainPathAppend(s: seq<Article>, i: nat)
    requires i < |s| && MainPath(s[..i]).Returned? && HasLink(s[i]) && s[i].detail.Fetched?
    ensures MainPath(s[..i + 1]) == Returned(MainPath(s[..i]).value + [MainRecord(s[i])])
  {
    MainPathStep(s, i);
  }

  lemma MainPathRaise(s: seq<Article>, i: nat)
    requires i < |s| && MainPath(s[..i]).Returned? && HasLink(s[i]) && s[i].detail.Failed?
    ensures MainPath(s) == Raised
  {
    MainPathStep(s, i);
    MainPathRaisedPersists(s, i + 1);
  }

  /** The body of the main loop for an article whose detail page was
      fetched: its fields from the search result and the detail page. */
  method ArticleRecord(a: Article) returns (record: PatentInfo)
    requires a.detail.Fetched?
    ensures record == MainRecord(a)
  {
    var page := a.detail.page;
    var title := Strip(a.linkText);
    var snippet := Strip(a.snippet);
    var link := ResolveLink(a.href);
    var patentId := PatentId(link);
    var fullAbstract := Txts(page.abstractTexts);
    if fullAbstract == [] {
      fullAbstract := snippet;
    }
    var citations := BuildCitations(page.citationRows);
    var datePublished := BuildTimeline(page.events);
    record := PatentInfo(
      title := title, abstractText := fullAbstract, patentId := patentId, link := link,
      claims := Txts(page.claimsTexts),
      description := Txts(page.descriptionTexts),
      inventor := Txts(page.inventorTexts),
      assignee := Txts(page.assigneeTexts),
      classification := Txts(page.classificationTexts),
      citations := citations, datePublished := datePublished);
  }

  /** The main loop (`for a in articles[:max_results]`): runs the loop over
      the first `len(articles[:max_results])` articles. */
  method ScrapeArticles(articles: seq<Article>, maxResults: int) returns (r: Outcome<seq<PatentInfo>>)
    ensures r == MainPath(articles[..SliceLength(|articles|, maxResults)])
  {
    var n := SliceLength(|articles|, maxResults);
    r := CrawlArticles(articles[..n]);
  }

  /** The body of the main loop over the sliced articles: skips articles
      without a link, fetches each other article's detail page, and appends
      its record. A fetch that raises ends the whole call. */
  method CrawlArticles(visited: seq<Article>) returns (r: Outcome<seq<PatentInfo>>)
    ensures r == MainPath(visited)
  {
    var results: seq<PatentInfo> := [];
    var i := 0;
    assert visited[..0] == [];
    while i < |visited|
      invariant 0 <= i <= |visited|
      invariant MainPath(visited[..i]) == Returned(results)
    {
      var a := visited[i];
      if ResolveLink(a.href) == [] {
        MainPathSkip(visited, i);
        i := i + 1;
        continue;
      }
      if a.detail.Failed? {
        MainPathRaise(visited, i);
        return Raised;
      }
      var record := ArticleRecord(a);
      MainPathAppend(visited, i);
      results := results + [record];
      i := i + 1;
    }
    assert visited[..i] == visited;
    r := Returned(results);
  }

  // ---------------------------------------------------- main path properties

  /** The main path returns at most `max_results` records when that is not
      negative, and never more than there are articles. */
  lemma MainPathBounded(articles: seq<Article>, maxResults: int)
    requires MainPath(articles[..SliceLength(|articles|, maxResults)]).Returned?
    ensures var rs := MainPath(articles[..SliceLength(|articles|, maxResults)]).value;
      && |rs| <= |articles|
      && (0 <= maxResults ==> |rs| <= maxResults)
      && (maxResults < 0 ==> rs == [] || |rs| + -maxResults <= |articles|)
  {
  }

  /** The main path raises exactly when some article with a link had a
      detail fetch that raised. */
  lemma MainPathRaisedIff(s: seq<Article>)
    ensures MainPath(s) == Raised <==> exists i :: 0 <= i < |s| && HasLink(s[i]) && s[i].detail.Failed?
  {
    if MainPath(s) == Raised {
      var ls := Linked(s);
      var k :| 0 <= k < |ls| && ls[k].detail.Failed?;
      LinkedMembers(s);
      assert ls[k] in s;
    }
    if exists i :: 0 <= i < |s| && HasLink(s[i]) && s[i].detail.Failed? {
      var i :| 0 <= i < |s| && HasLink(s[i]) && s[i].detail.Failed?;
      LinkedPosition(s, i);
    }
  }

  /** Order and count: the record of the `i`-th article with a link is the
      `i`-th record, for every article with a link, and there is no other. */
  lemma MainPathRecordOf(s: seq<Article>, i: nat)
    requires MainPath(s).Returned? && i < |s| && HasLink(s[i])
    ensures s[i].detail.Fetched?
    ensures var rs := MainPath(s).value;
      |Linked(s[..i])| < |rs| && rs[|Linked(s[..i])|] == MainRecord(s[i])
  {
    LinkedPosition(s, i);
    MainRecordsAt(Linked(s), |Linked(s[..i])|);
  }

  /** What a main-path record holds: a non-empty link resolved from the
      href; a patent id that is empty or of the form
      `[A-Z]{2}\d+[A-Z0-9]*`; the detail abstract when it has text, else the
      stripped snippet, so the abstract is empty only when both are blank;
      normalised text fields; and as citations and timeline the per-row
      lines and per-event entries with the blank ones dropped. */
  lemma MainRecordShape(a: Article)
    requires a.detail.Fetched? && HasLink(a)
    ensures var r, page := MainRecord(a), a.detail.page;
      && r.link != [] && r.link == ResolveLink(a.href)
      && (r.patentId == [] || IsPatentId(r.patentId))
      && (r.abstractText == [] <==> (forall i :: 0 <= i < |page.abstractTexts| ==> Blank(page.abstractTexts[i])) && Blank(a.snippet))
      && (!(forall i :: 0 <= i < |page.abstractTexts| ==> Blank(page.abstractTexts[i])) ==> r.abstractText == Txts(page.abstractTexts))
      && ((forall i :: 0 <= i < |page.abstractTexts| ==> Blank(page.abstractTexts[i])) ==> r.abstractText == Strip(a.snippet))
      && r.patentId == PatentId(r.link)
      && Trimmed(r.title) && Trimmed(r.abstractText)
      && Clean(r.claims) && Clean(r.description) && Clean(r.inventor)
      && Clean(r.assignee) && Clean(r.classification)
      && r.citations == Join(LineSeparator, Remove(AllRowLines(page.citationRows), []))
      && r.datePublished == Join(EventSeparator, Remove(AllEventEntries(page.events), DateTitleSeparator))
  {
    var page := a.detail.page;
    TxtsEmptyIff(page.abstractTexts);
    TxtsClean(page.abstractTexts);
    TxtsClean(page.claimsTexts);
    TxtsClean(page.descriptionTexts);
    TxtsClean(page.inventorTexts);
    TxtsClean(page.assigneeTexts);
    TxtsClean(page.classificationTexts);
    KeepsIffNotBlank(a.snippet);
    CitationLinesDropBlankRows(page.citationRows);
    TimelineDropsEmptyEvents(page.events);
  }

  // ============================================================ fallback path

  /** `[l for l in links if "/patent/" in l]` */
  function PatentLinks(ls: seq<SearchLink>): (r: seq<SearchLink>)
    ensures |r| <= |ls|
  {
    if ls == [] then []
    else
      var l := ls[|ls| - 1];
      PatentLinks(ls[..|ls| - 1]) + (if Contains(l.url, PatentMarker) then [l] else [])
  }

  /** `PatentLinks` keeps only links of its input, and only those that
      contain `/patent/`. */
  lemma {:induction false} PatentLinksMembers(ls: seq<SearchLink>)
    ensures forall k :: 0 <= k < |PatentLinks(ls)| ==>
      PatentLinks(ls)[k] in ls && Contains(PatentLinks(ls)[k].url, PatentMarker)
  {
    if ls != [] {
      var init := ls[..|ls| - 1];
      PatentLinksMembers(init);
      forall k | 0 <= k < |PatentLinks(ls)|
        ensures PatentLinks(ls)[k] in ls && Contains(PatentLinks(ls)[k].url, PatentMarker)
      {
        if k < |PatentLinks(init)| {
          var j :| 0 <= j < |init| && init[j] == PatentLinks(init)[k];
          assert ls[j] == PatentLinks(ls)[k];
        } else {
          assert PatentLinks(ls)[k] == ls[|ls| - 1];
        }
      }
    }
  }

  /** Conversely, every href that contains `/patent/` is kept. */
  lemma {:induction false} PatentLinksKeeps(ls: seq<SearchLink>, j: nat)
    requires j < |ls| && Contains(ls[j].url, PatentMarker)
    ensures ls[j] in PatentLinks(ls)
  {
    if j < |ls| - 1 {
      var init := ls[..|ls| - 1];
      assert init[j] == ls[j];
      PatentLinksKeeps(init, j);
    }
  }

  /** The URLs in `ls`: what `seen` holds after visiting them. */
  function Urls(ls: seq<SearchLink>): set<string> {
    if ls == [] then {} else Urls(ls[..|ls| - 1]) + {ls[|ls| - 1].url}
  }

  /** A URL is in `Urls(ls)` exactly when some link of `ls` has it. */
  lemma {:induction false} UrlsIff(ls: seq<SearchLink>, u: string)
    ensures u in Urls(ls) <==> exists j :: 0 <= j < |ls| && ls[j].url == u
  {
    if ls != [] {
      var init := ls[..|ls| - 1];
      UrlsIff(init, u);
      if exists j :: 0 <= j < |init| && init[j].url == u {
        var j :| 0 <= j < |init| && init[j].url == u;
        assert ls[j].url == u;
      }
      if exists j :: 0 <= j < |ls| && ls[j].url == u {
        var j :| 0 <= j < |ls| && ls[j].url == u;
        if j < |init| {
          assert init[j].url == u;
        }
      }
    }
  }

  /** The links the fallback loop fetches when no cap stops it: the first
      occurrence of each URL, when it starts with `http`. */
  function FreshLinks(ls: seq<SearchLink>): (r: seq<SearchLink>)
    ensures |r| <= |ls|
    ensures forall k :: 0 <= k < |r| ==> StartsWith(r[k].url, "http")
  {
    if ls == [] then []
    else
      var init, l := ls[..|ls| - 1], ls[|ls| - 1];
      FreshLinks(init) + (if l.url !in Urls(init) && StartsWith(l.url, "http") then [l] else [])
  }

  /** `FreshLinks` keeps only links of its input. */
  lemma {:induction false} FreshLinksMembers(ls: seq<SearchLink>)
    ensures forall k :: 0 <= k < |FreshLinks(ls)| ==> FreshLinks(ls)[k] in ls && FreshLinks(ls)[k].url in Urls(ls)
  {
    if ls != [] {
      var init := ls[..|ls| - 1];
      FreshLinksMembers(init);
      forall k | 0 <= k < |FreshLinks(ls)| ensures FreshLinks(ls)[k] in ls && FreshLinks(ls)[k].url in Urls(ls) {
        if k < |FreshLinks(init)| {
          var j :| 0 <= j < |init| && init[j] == FreshLinks(init)[k];
          assert ls[j] == FreshLinks(ls)[k];
        } else {
          assert FreshLinks(ls)[k] == ls[|ls| - 1];
        }
      }
    }
  }

  /** Conversely, the URL of every link that starts with `http` is fetched:
      by the link itself when it is the URL's first occurrence, else by that
      first occurrence. */
  lemma {:induction false} FreshLinksFinds(ls: seq<SearchLink>, j: nat)
    requires j < |ls| && StartsWith(ls[j].url, "http")
    ensures exists k :: 0 <= k < |FreshLinks(ls)| && FreshLinks(ls)[k].url == ls[j].url
  {
    var init := ls[..|ls| - 1];
    var u := ls[j].url;
    if j < |ls| - 1 {
      assert init[j] == ls[j];
      FreshLinksFinds(init, j);
      var k :| 0 <= k < |FreshLinks(init)| && FreshLinks(init)[k].url == u;
      assert FreshLinks(ls)[k] == FreshLinks(init)[k];
    } else if u in Urls(init) {
      UrlsIff(init, u);
      var i :| 0 <= i < |init| && init[i].url == u;
      FreshLinksFinds(init, i);
      var k :| 0 <= k < |FreshLinks(init)| && FreshLinks(init)[k].url == u;
      assert FreshLinks(ls)[k] == FreshLinks(init)[k];
    } else {
      assert FreshLinks(ls)[|FreshLinks(init)|] == ls[j];
    }
  }

  /** The first occurrence of an `http` URL is fetched, right after the
      links fetched before it: fetches follow document order. */
  lemma FreshLinksPosition(s: seq<SearchLink>, j: nat)
    requires j < |s| && StartsWith(s[j].url, "http") && s[j].url !in Urls(s[..j])
    ensures |FreshLinks(s[..j])| < |FreshLinks(s)| && FreshLinks(s)[|FreshLinks(s[..j])|] == s[j]
  {
    FreshLinksStep(s, j);
    FreshLinksPrefix(s, j + 1);
  }

  /** `seen` at work: no URL is fetched twice. */
  lemma {:induction false} FreshLinksDistinct(ls: seq<SearchLink>)
    ensures forall k, l :: 0 <= k < l < |FreshLinks(ls)| ==> FreshLinks(ls)[k].url != FreshLinks(ls)[l].url
  {
    if ls != [] {
      var init := ls[..|ls| - 1];
      FreshLinksDistinct(init);
      FreshLinksMembers(init);
      var r, ri := FreshLinks(ls), FreshLinks(init);
      forall k, l | 0 <= k < l < |r| ensures r[k].url != r[l].url {
        if l >= |ri| {
          assert r[k] == ri[k];
          assert r[l] == ls[|ls| - 1];
        } else {
          assert r[k] == ri[k] && r[l] == ri[l];
        }
      }
    }
  }

  /** The number of records after which `len(results) >= max_results` holds:
      the check follows the append, so it is at least one. */
  function Cap(maxResults: int): (c: nat)
    ensures c >= 1 && c >= maxResults && (maxResults >= 1 ==> c == maxResults)
    ensures maxResults < 1 ==> c == 1
  {
    if maxResults >= 1 then maxResults else 1
  }

  /** How many of `candidates` links the loop fetches before the cap stops it. */
  function CapCount(candidates: nat, maxResults: int): (k: nat)
    ensures k <= candidates && k <= Cap(maxResults)
    ensures k < candidates ==> k == Cap(maxResults)
  {
    if candidates < Cap(maxResults) then candidates else Cap(maxResults)
  }

  /** The record the fallback loop appends for a fetched link. */
  function FallbackRecord(l: SearchLink): PatentInfo
    requires l.detail.Fetched?
  {
    var page := l.detail.page;
    PatentInfo(
      title := Txts(page.titleMeta),
      abstractText := Txts(page.abstractTexts),
      patentId := FallbackPatentId(l.url),
      link := l.url,
      claims := Txts(page.claimsTexts),
      description := Txts(page.descriptionTexts),
      inventor := Txts(page.inventorTexts),
      assignee := Txts(page.assigneeTexts),
      classification := Txts(page.classificationTexts),
      citations := FallbackCitations(page.citationRows),
      datePublished := FallbackTimeline(page.events))
  }

  predicate AllLinksFetched(ls: seq<SearchLink>) {
    forall k :: 0 <= k < |ls| ==> ls[k].detail.Fetched?
  }

  /** The records for `chosen`, in order. */
  function FallbackRecords(chosen: seq<SearchLink>): (rs: seq<PatentInfo>)
    requires AllLinksFetched(chosen)
    ensures |rs| == |chosen|
  {
    if chosen == [] then []
    else FallbackRecords(chosen[..|chosen| - 1]) + [FallbackRecord(chosen[|chosen| - 1])]
  }

  /** The `k`-th record is the record of the `k`-th chosen link. */
  lemma {:induction false} FallbackRecordsAt(chosen: seq<SearchLink>, k: nat)
    requires AllLinksFetched(chosen) && k < |chosen|
    ensures FallbackRecords(chosen)[k] == FallbackRecord(chosen[k])
  {
    if k < |chosen| - 1 {
      FallbackRecordsAt(chosen[..|chosen| - 1], k);
    }
  }

  /** What `_scrape_google_search` gives for the hrefs of the search page:
      the first `CapCount` fresh links are fetched, and the call raises if
      one of those fetches does. */
  function FallbackPath(hrefs: seq<SearchLink>, maxResults: int): Outcome<seq<PatentInfo>> {
    var chosen := Chosen(PatentLinks(hrefs), maxResults);
    if AllLinksFetched(chosen) then Returned(FallbackRecords(chosen)) else Raised
  }

  /** The links of `links` that the fallback loop fetches. */
  function Chosen(links: seq<SearchLink>, maxResults: int): seq<SearchLink> {
    var candidates := FreshLinks(links);
    candidates[..CapCount(|candidates|, maxResults)]
  }

  /** The links fetched while visiting a prefix of `links` lead the chosen
      ones, and are all of them once the cap is reached or no link is left. */
  lemma ChosenFrom(links: seq<SearchLink>, i: nat, maxResults: int)
    requires i <= |links|
    requires |FreshLinks(links[..i])| <= Cap(maxResults)
    ensures var done := FreshLinks(links[..i]);
      && done <= Chosen(links, maxResults)
      && (|done| == Cap(maxResults) || i == |links| ==> done == Chosen(links, maxResults))
  {
    FreshLinksPrefix(links, i);
    if i == |links| {
      assert links[..i] == links;
    }
  }

  /** The links fetched from a prefix are a prefix of those fetched from the whole. */
  lemma {:induction false} FreshLinksPrefix(s: seq<SearchLink>, j: nat)
    requires j <= |s|
    ensures FreshLinks(s[..j]) <= FreshLinks(s)
    decreases |s| - j
  {
    if j < |s| {
      var init := s[..|s| - 1];
      assert init[..j] == s[..j];
      FreshLinksPrefix(init, j);
    } else {
      assert s[..j] == s;
    }
  }

  /** Visiting one more link: it joins `seen`, and it is fetched when it is
      new and starts with `http`. */
  lemma FreshLinksStep(s: seq<SearchLink>, i: nat)
    requires i < |s|
    ensures Urls(s[..i + 1]) == Urls(s[..i]) + {s[i].url}
    ensures FreshLinks(s[..i + 1]) == FreshLinks(s[..i]) +
      (if s[i].url !in Urls(s[..i]) && StartsWith(s[i].url, "http") then [s[i]] else [])
  {
    assert s[..i + 1][..i] == s[..i];
    assert s[..i + 1][i] == s[i];
  }

  /** A link already seen, or one that does not start with `http`, is skipped. */
  lemma FreshLinksSkip(s: seq<SearchLink>, i: nat)
    requires i < |s| && (s[i].url in Urls(s[..i]) || !StartsWith(s[i].url, "http"))
    ensures FreshLinks(s[..i + 1]) == FreshLinks(s[..i])
  {
    FreshLinksStep(s, i);
  }

  /** `seen.add(link)` */
  lemma UrlsStep(s: seq<SearchLink>, i: nat)
    requires i < |s|
    ensures Urls(s[..i + 1]) == Urls(s[..i]) + {s[i].url}
  {
    FreshLinksStep(s, i);
  }

  lemma FallbackRecordsSnoc(ls: seq<SearchLink>, l: SearchLink)
    requires AllLinksFetched(ls) && l.detail.Fetched?
    ensures AllLinksFetched(ls + [l])
    ensures FallbackRecords(ls + [l]) == FallbackRecords(ls) + [FallbackRecord(l)]
  {
    assert (ls + [l])[..|ls|] == ls;
  }

  /** How the fallback path ends once the loop has fetched `done`, the fresh
      links among the first `i` patent links: it raises if one of those
      fetches did, and returns their records when the cap is reached or no
      link is left. */
  lemma FallbackPathFrom(hrefs: seq<SearchLink>, i: nat, maxResults: int)
    requires i <= |PatentLinks(hrefs)|
    requires |FreshLinks(PatentLinks(hrefs)[..i])| <= Cap(maxResults)
    ensures var done := FreshLinks(PatentLinks(hrefs)[..i]);
      && (!AllLinksFetched(done) ==> FallbackPath(hrefs, maxResults) == Raised)
      && (AllLinksFetched(done) && (|done| == Cap(maxResults) || i == |PatentLinks(hrefs)|) ==>
            FallbackPath(hrefs, maxResults) == Returned(FallbackRecords(done)))
  {
    var links := PatentLinks(hrefs);
    var done := FreshLinks(links[..i]);
    ChosenFrom(links, i, maxResults);
    if !AllLinksFetched(done) {
      var k :| 0 <= k < |done| && done[k].detail.Failed?;
      assert Chosen(links, maxResults)[k] == done[k];
    }
  }

  /** The fetch of a fresh link raised: so does the fallback path. */
  lemma FallbackRaise(hrefs: seq<SearchLink>, i: nat, maxResults: int)
    requires i < |PatentLinks(hrefs)|
    requires var links := PatentLinks(hrefs);
      && |FreshLinks(links[..i])| < Cap(maxResults)
      && links[i].url !in Urls(links[..i]) && StartsWith(links[i].url, "http")
      && links[i].detail.Failed?
    ensures FallbackPath(hrefs, maxResults) == Raised
  {
    var links := PatentLinks(hrefs);
    FreshLinksStep(links, i);
    var done := FreshLinks(links[..i + 1]);
    assert done[|done| - 1] == links[i];
    FallbackPathFrom(hrefs, i + 1, maxResults);
  }

  /** The fetch of a fresh link succeeded: its record is appended, and the
      fallback path returns the records so far once they reach the cap. */
  lemma FallbackAppend(hrefs: seq<SearchLink>, i: nat, maxResults: int)
    requires i < |PatentLinks(hrefs)|
    requires var links := PatentLinks(hrefs);
      && |FreshLinks(links[..i])| < Cap(maxResults)
      && AllLinksFetched(FreshLinks(links[..i]))
      && links[i].url !in Urls(links[..i]) && StartsWith(links[i].url, "http")
      && links[i].detail.Fetched?
    ensures var links := PatentLinks(hrefs);
      && AllLinksFetched(FreshLinks(links[..i + 1]))
      && FallbackRecords(FreshLinks(links[..i + 1])) ==
           FallbackRecords(FreshLinks(links[..i])) + [FallbackRecord(links[i])]
      && (|FreshLinks(links[..i])| + 1 == Cap(maxResults) ==>
            FallbackPath(hrefs, maxResults) == Returned(FallbackRecords(FreshLinks(links[..i + 1]))))
  {
    var links := PatentLinks(hrefs);
    FreshLinksStep(links, i);
    FallbackRecordsSnoc(FreshLinks(links[..i]), links[i]);
    FallbackPathFrom(hrefs, i + 1, maxResults);
  }

  /** Every link visited without reaching the cap: the path returns the records. */
  lemma FallbackEnd(hrefs: seq<SearchLink>, maxResults: int)
    requires var links := PatentLinks(hrefs);
      && |FreshLinks(links[..|links|])| < Cap(maxResults)
      && AllLinksFetched(FreshLinks(links[..|links|]))
    ensures var links := PatentLinks(hrefs);
      FallbackPath(hrefs, maxResults) == Returned(FallbackRecords(FreshLinks(links[..|links|])))
  {
    FallbackPathFrom(hrefs, |PatentLinks(hrefs)|, maxResults);
  }

  /** The fallback loop: keeps the hrefs that contain `/patent/`, skips
      URLs already seen and URLs that do not start with `http`, fetches each
      other link and appends its record, and stops as soon as
      `len(results) >= max_results`. A fetch that raises ends the whole call. */
  method ScrapeGoogleSearch(hrefs: seq<SearchLink>, maxResults: int) returns (r: Outcome<seq<PatentInfo>>)
    ensures r == FallbackPath(hrefs, maxResults)
  {
    var links := PatentLinks(hrefs);
    var results: seq<PatentInfo> := [];
    var seen: set<string> := {};
    var i := 0;
    while i < |links|
      invariant 0 <= i <= |links|
      invariant seen == Urls(links[..i])
      invariant AllLinksFetched(FreshLinks(links[..i]))
      invariant results == FallbackRecords(FreshLinks(links[..i]))
      invariant |results| < Cap(maxResults)
    {
      var link := links[i];
      if link.url in seen {
        FreshLinksSkip(links, i);
        UrlsStep(links, i);
        i := i + 1;
        continue;
      }
      seen := seen + {link.url};
      UrlsStep(links, i);
      if !StartsWith(link.url, "http") {
        FreshLinksSkip(links, i);
        i := i + 1;
        continue;
      }
      match link.detail {
        case Failed =>
          FallbackRaise(hrefs, i, maxResults);
          return Raised;
        case Fetched(_) =>
          FallbackAppend(hrefs, i, maxResults);
          results := results + [FallbackRecord(link)];
      }
      if |results| >= maxResults {
        break;
      }
      i := i + 1;
    }
    if i == |links| {
      FallbackEnd(hrefs, maxResults);
    }
    r := Returned(results);
  }

  // ------------------------------------------------ fallback path properties

  /** The fallback cap: with `m = max_results`, the path returns
      `min(candidates, max(m, 1))` records, where `candidates` counts the distinct
      `http` links containing `/patent/`; so at most `m` when `m >= 1`, and
      one record when `m <= 0` and some link qualifies. */
  lemma FallbackBounded(hrefs: seq<SearchLink>, maxResults: int)
    requires FallbackPath(hrefs, maxResults).Returned?
    ensures var rs, candidates := FallbackPath(hrefs, maxResults).value, FreshLinks(PatentLinks(hrefs));
      && |rs| <= |candidates|
      && (maxResults >= 1 ==> |rs| <= maxResults)
      && (maxResults <= 0 ==> |rs| <= 1)
      && (|rs| < |candidates| ==> |rs| == (if maxResults >= 1 then maxResults else 1))
  {
  }

  /** Every link the fallback path fetches contains `/patent/`, starts with
      `http`, is one of the hrefs, and is fetched once: the records' links
      are pairwise distinct, and each record's patent id is the segment
      after the link's last `/patent/`. */
  lemma FallbackRecordsLinks(hrefs: seq<SearchLink>, maxResults: int)
    requires FallbackPath(hrefs, maxResults).Returned?
    ensures var rs := FallbackPath(hrefs, maxResults).value;
      && (forall k :: 0 <= k < |rs| ==>
            && Contains(rs[k].link, PatentMarker) && StartsWith(rs[k].link, "http")
            && rs[k].link in Urls(hrefs)
            && rs[k].patentId == FallbackPatentId(rs[k].link))
      && (forall k, l :: 0 <= k < l < |rs| ==> rs[k].link != rs[l].link)
  {
    var candidates := FreshLinks(PatentLinks(hrefs));
    var rs := FallbackPath(hrefs, maxResults).value;
    forall k | 0 <= k < |rs|
      ensures Contains(rs[k].link, PatentMarker) && StartsWith(rs[k].link, "http")
      ensures rs[k].link in Urls(hrefs) && rs[k].patentId == FallbackPatentId(rs[k].link)
    {
      FallbackRecordOf(hrefs, maxResults, k);
      FreshPatentLink(hrefs, k);
    }
    forall k, l | 0 <= k < l < |rs| ensures rs[k].link != rs[l].link {
      FallbackRecordOf(hrefs, maxResults, k);
      FallbackRecordOf(hrefs, maxResults, l);
      FreshLinksDistinct(PatentLinks(hrefs));
    }
  }

  /** The `k`-th fallback record is the record of the `k`-th fresh link. */
  lemma FallbackRecordOf(hrefs: seq<SearchLink>, maxResults: int, k: nat)
    requires FallbackPath(hrefs, maxResults).Returned? && k < |FallbackPath(hrefs, maxResults).value|
    ensures var candidates := FreshLinks(PatentLinks(hrefs));
      && k < |candidates| && candidates[k].detail.Fetched?
      && FallbackPath(hrefs, maxResults).value[k] == FallbackRecord(candidates[k])
  {
    var chosen := Chosen(PatentLinks(hrefs), maxResults);
    FallbackRecordsAt(chosen, k);
  }

  /** The record of a link that is the first occurrence of its `http` URL,
      met before the cap, sits in the fallback result at the number of links
      fetched before it, and comes from that occurrence's own detail page. */
  lemma FallbackRecordAtRank(hrefs: seq<SearchLink>, maxResults: int, j: nat)
    requires FallbackPath(hrefs, maxResults).Returned?
    requires var links := PatentLinks(hrefs);
      && j < |links| && StartsWith(links[j].url, "http") && links[j].url !in Urls(links[..j])
      && |FreshLinks(links[..j])| < Cap(maxResults)
    ensures var links := PatentLinks(hrefs);
      var rs, r := FallbackPath(hrefs, maxResults).value, |FreshLinks(links[..j])|;
      && links[j].detail.Fetched?
      && r < |rs| && rs[r] == FallbackRecord(links[j])
  {
    var links := PatentLinks(hrefs);
    var r := |FreshLinks(links[..j])|;
    FreshLinksPosition(links, j);
    var chosen := Chosen(links, maxResults);
    assert chosen[r] == links[j];
    FallbackRecordsAt(chosen, r);
  }

  /** The `k`-th fresh link is an href that contains `/patent/` and starts
      with `http`. */
  lemma FreshPatentLink(hrefs: seq<SearchLink>, k: nat)
    requires k < |FreshLinks(PatentLinks(hrefs))|
    ensures var c := FreshLinks(PatentLinks(hrefs))[k];
      Contains(c.url, PatentMarker) && StartsWith(c.url, "http") && c.url in Urls(hrefs)
  {
    var links := PatentLinks(hrefs);
    PatentLinksMembers(hrefs);
    FreshLinksMembers(links);
    var j :| 0 <= j < |links| && links[j] == FreshLinks(links)[k];
    var h :| 0 <= h < |hrefs| && hrefs[h] == links[j];
    UrlsIff(hrefs, hrefs[h].url);
  }

  /** What a fallback record holds: the fetched link itself, normalised text
      fields, and one citation line per row and one timeline entry per event,
      blank ones included, where the main path drops them. */
  lemma FallbackRecordShape(l: SearchLink)
    requires l.detail.Fetched?
    ensures var r, page := FallbackRecord(l), l.detail.page;
      && r.link == l.url
      && Clean(r.title) && Clean(r.abstractText) && Clean(r.claims) && Clean(r.description)
      && Clean(r.inventor) && Clean(r.assignee) && Clean(r.classification)
      && r.patentId == FallbackPatentId(l.url)
      && r.citations == Join(LineSeparator, AllRowLines(page.citationRows))
      && |AllRowLines(page.citationRows)| == |page.citationRows|
      && r.datePublished == Join(EventSeparator, AllEventEntries(page.events))
      && |AllEventEntries(page.events)| == |page.events|
      && CitationLines(page.citationRows) == Remove(AllRowLines(page.citationRows), [])
      && TimelineEntries(page.events) == Remove(AllEventEntries(page.events), DateTitleSeparator)
  {
    var page := l.detail.page;
    TxtsClean(page.titleMeta);
    TxtsClean(page.abstractTexts);
    TxtsClean(page.claimsTexts);
    TxtsClean(page.descriptionTexts);
    TxtsClean(page.inventorTexts);
    TxtsClean(page.assigneeTexts);
    TxtsClean(page.classificationTexts);
    CitationLinesDropBlankRows(page.citationRows);
    TimelineDropsEmptyEvents(page.events);
  }

  // ================================================================== the run

  /** `run_google_patents_scraper(query, max_results)` given what fetching
      the patents search page and, when that lists no article, the web
      search page gives. */
  function Scrape(search: Fetch<seq<Article>>, web: Fetch<seq<SearchLink>>, maxResults: int): Outcome<seq<PatentInfo>> {
    match search
    case Failed => Raised
    case Fetched(articles) =>
      if |articles| == 0 then
        match web
        case Failed => Raised
        case Fetched(hrefs) => FallbackPath(hrefs, maxResults)
      else MainPath(articles[..SliceLength(|articles|, maxResults)])
  }

  /** The whole run: the main path when the search page lists articles,
      the fallback path otherwise. */
  method RunGooglePatentsScraper(search: Fetch<seq<Article>>, web: Fetch<seq<SearchLink>>, maxResults: int)
    returns (r: Outcome<seq<PatentInfo>>)
    ensures r == Scrape(search, web, maxResults)
  {
    match search {
      case Failed =>
        return Raised;
      case Fetched(articles) =>
        if |articles| == 0 {
          match web {
            case Failed =>
              return Raised;
            case Fetched(hrefs) =>
              r := ScrapeGoogleSearch(hrefs, maxResults);
          }
        } else {
          r := ScrapeArticles(articles, maxResults);
        }
    }
  }

  /** Bounded cardinality of a run: at most `max_results` records when it is
      at least one. When it is zero, the main path returns none and the
      fallback path at most one; when it is negative, the main path drops
      that many articles from the end and the fallback path returns at most
      one record. */
  lemma ScrapeBounded(search: Fetch<seq<Article>>, web: Fetch<seq<SearchLink>>, maxResults: int)
    requires Scrape(search, web, maxResults).Returned?
    ensures var rs := Scrape(search, web, maxResults).value;
      && (maxResults >= 1 ==> |rs| <= maxResults)
      && (search.Fetched? && search.page == [] ==> |rs| <= Cap(maxResults))
      && (search.Fetched? && search.page != [] ==> |rs| <= |search.page|)
      && (maxResults == 0 && search.Fetched? && search.page != [] ==> rs == [])
      && (maxResults < 0 && search.Fetched? && search.page != [] ==> rs == [] || |rs| + -maxResults <= |search.page|)
  {
    match search
    case Fetched(articles) =>
      if |articles| == 0 {
        FallbackBounded(web.page, maxResults);
      } else {
        MainPathBounded(articles, maxResults);
      }
  }

  /** A run whose patents search lists no article, and whose web search has
      no `http` link containing `/patent/`, returns no record. */
  lemma ScrapeWithoutCandidates(hrefs: seq<SearchLink>, maxResults: int)
    requires forall k :: 0 <= k < |hrefs| ==>
      !Contains(hrefs[k].url, PatentMarker) || !StartsWith(hrefs[k].url, "http")
    ensures Scrape(Fetched([]), Fetched(hrefs), maxResults) == Returned([])
  {
    var links := PatentLinks(hrefs);
    PatentLinksMembers(hrefs);
    forall k | 0 <= k < |links| ensures !StartsWith(links[k].url, "http") {
      var h :| 0 <= h < |hrefs| && hrefs[h] == links[k];
    }
    FreshLinksWithoutHttp(links);
  }

  /** Without an `http` link, the fallback loop fetches nothing. */
  lemma {:induction false} FreshLinksWithoutHttp(ls: seq<SearchLink>)
    requires forall k :: 0 <= k < |ls| ==> !StartsWith(ls[k].url, "http")
    ensures FreshLinks(ls) == []
  {
    if ls != [] {
      FreshLinksWithoutHttp(ls[..|ls| - 1]);
    }
  }
}
