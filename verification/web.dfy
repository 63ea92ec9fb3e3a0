/**
 * The browser-driven adapters of research_harness.py: mapping a scraped page to
 * paper metadata, filtering bioRxiv search hits, parsing general search hits with
 * URL deduplication, and the Google Scholar fallback merge. The browser session is
 * an oracle: every navigation and extraction result is an input.
 */
module Web {
  import opened Wrappers
  import opened Text
  import opened Seqs
  import opened Papers

  // ---- page metadata ----

  /**
   * What the browser produced for a paper page: navigation or extraction failed,
   * the extraction was not an object, or the object's string fields (None for null
   * or missing).
   */
  datatype PageResult =
    | LoadFailed
    | ExtractFailed
    | NotADict
    | Fields(title: Option<string>, authors: Option<string>, date: Option<string>, summary: Option<string>, body: Option<string>)

  /** `(v or "").strip() or None` */
  function StrippedOrNone(v: Option<string>): (r: Option<string>)
    ensures r.Some? ==> r.value != "" && NoEdgeSpace(r.value)
    ensures r.None? <==> !v.Some? || Strip(v.value) == ""
  {
    var t := Strip(v.GetOr(""));
    if t == "" then None else Some(t)
  }

  /** The page's publication date: stripped, at most its first ten characters. */
  function PageDate(v: Option<string>): (r: Option<string>)
    ensures r.Some? ==> r.value != "" && |r.value| <= 10
    ensures r.None? <==> StrippedOrNone(v).None?
  {
    match StrippedOrNone(v)
    case None => None
    case Some(d) => Some(Take(d, 10))
  }

  /** The page's abstract: stripped, at most 12000 characters. */
  function PageAbstract(v: Option<string>): (r: Option<string>)
    ensures r.Some? ==> r.value != "" && |r.value| <= 12000
    ensures r.None? <==> StrippedOrNone(v).None?
  {
    match StrippedOrNone(v)
    case None => None
    case Some(a) => Some(Take(a, 12000))
  }

  /**
   * `_scrape_paper_metadata`: a copy of `p` with date, abstract and full text taken
   * from the page; outside bioRxiv a non-blank title or author list on the page also
   * replaces the paper's. The PDF link is not carried over. Any failure returns `p`.
   */
  function ScrapeMetadata(p: Paper, source: Source, page: PageResult): (r: Paper)
    ensures !page.Fields? ==> r == p
    ensures r.url == p.url && r.journal == p.journal && r.source == p.source
    ensures page.Fields? ==>
              r.pdfUrl.None? && r.publishedDate == PageDate(page.date)
              && r.abstractText == PageAbstract(page.summary) && r.fullText == StrippedOrNone(page.body)
    ensures source == Biorxiv ==> r.title == p.title && r.authors == p.authors
    ensures page.Fields? && source != Biorxiv && Strip(page.title.GetOr("")) != "" ==> r.title == Strip(page.title.value)
    ensures page.Fields? && source != Biorxiv && Strip(page.authors.GetOr("")) != "" ==> r.authors == CommaList(page.authors.value)
    ensures r.title == p.title || NoEdgeSpace(r.title)
  {
    match page
    case Fields(title, authors, date, summary, body) =>
      var t := Strip(title.GetOr(""));
      var a := Strip(authors.GetOr(""));
      var titleOut := if source != Biorxiv && t != "" then t else p.title;
      var authorsOut := if source != Biorxiv && a != "" then CommaList(authors.value) else p.authors;
      Paper(titleOut, authorsOut, p.journal, p.url, p.source, PageDate(date), PageAbstract(summary), StrippedOrNone(body), None)
    case _ => p
  }

  /** Scraping the same page twice gives what scraping it once gave. */
  lemma ScrapeMetadataIdempotent(p: Paper, source: Source, page: PageResult)
    ensures ScrapeMetadata(ScrapeMetadata(p, source, page), source, page) == ScrapeMetadata(p, source, page)
  {
  }

  /**
   * The metadata pass of both browser adapters: the first `maxResults` papers are
   * scraped in place (the i-th visit yields `page(i)`), the rest are left as they are.
   */
  method ScrapeAll(papers: seq<Paper>, source: Source, maxResults: int, page: nat -> PageResult) returns (r: seq<Paper>)
    ensures |r| == |papers|
    ensures forall i :: 0 <= i < |r| ==>
      r[i] == if i < maxResults then ScrapeMetadata(papers[i], source, page(i)) else papers[i]
    ensures forall i :: 0 <= i < |r| ==> r[i].url == papers[i].url && r[i].source == papers[i].source
  {
    r := papers;
    var i := 0;
    while i < |r|
      invariant 0 <= i <= |r| == |papers|
      invariant forall k :: 0 <= k < i ==> r[k] == if k < maxResults then ScrapeMetadata(papers[k], source, page(k)) else papers[k]
      invariant forall k :: i <= k < |r| ==> r[k] == papers[k]
    {
      if i >= maxResults {
        break;
      }
      r := r[i := ScrapeMetadata(r[i], source, page(i))];
      i := i + 1;
    }
  }

  // ---- search hits ----

  /** One element of an extracted result list: not an object, or an object with its string fields. */
  datatype Item = NotADict | Record(title: Option<string>, url: Option<string>, authors: Option<string>)

  /** An extraction result that should be a list. */
  datatype Extracted = NotAList | Items(items: seq<Item>)

  /** The author list of a hit: the comma-separated, stripped, non-empty names. */
  function HitAuthors(authors: Option<string>): (r: seq<string>)
    ensures forall k :: 0 <= k < |r| ==> r[k] != "" && NoEdgeSpace(r[k])
  {
    if Present(authors) then CommaList(authors.value) else []
  }

  /** A bioRxiv hit's link made absolute on `https://www.biorxiv.org`. */
  function BiorxivAbsolute(url: string): (r: string)
    ensures "http" <= r
    ensures "http" <= url ==> r == url
  {
    if "http" <= url then url
    else
      var r := "https://www.biorxiv.org" + (if "/" <= url then url else "/" + url);
      assert r[..4] == "http";
      r
  }

  /** Making a link absolute keeps the mention of biorxiv in it. */
  lemma BiorxivAbsoluteMentions(url: string)
    requires Contains(Lower(url), "biorxiv")
    ensures Contains(Lower(BiorxivAbsolute(url)), "biorxiv")
  {
    var full := BiorxivAbsolute(url);
    if !("http" <= url) {
      var head := full[..|full| - |url|];
      assert full == head + url;
      LowerConcat(head, url);
      ContainsInSuffix(Lower(head), Lower(url), "biorxiv");
    }
  }

  /** A paper every kept bioRxiv hit becomes. */
  predicate IsBiorxivHitPaper(p: Paper) {
    p.title != "" && NoEdgeSpace(p.title) && p.source == Biorxiv && p.journal == "bioRxiv"
    && "http" <= p.url && Contains(Lower(p.url), "biorxiv")
  }

  /** The paper for one bioRxiv hit; None when the title or URL is blank or the URL does not mention biorxiv. */
  function BiorxivHit(item: Item): (r: Option<Paper>)
    ensures r.Some? <==> item.Record? && Strip(item.title.GetOr("")) != "" && Strip(item.url.GetOr("")) != ""
                         && Contains(Lower(Strip(item.url.GetOr(""))), "biorxiv")
    ensures r.Some? ==> IsBiorxivHitPaper(r.value)
    ensures r.Some? ==> r.value == NewPaper(Strip(item.title.GetOr("")), HitAuthors(item.authors), "bioRxiv",
                                            BiorxivAbsolute(Strip(item.url.GetOr(""))), Biorxiv)
  {
    match item
    case NotADict => None
    case Record(t, u, a) =>
      var title := Strip(t.GetOr(""));
      var url := Strip(u.GetOr(""));
      if title == "" || url == "" || !Contains(Lower(url), "biorxiv") then None
      else
        BiorxivAbsoluteMentions(url);
        Some(NewPaper(title, HitAuthors(a), "bioRxiv", BiorxivAbsolute(url), Biorxiv))
  }

  /** The bioRxiv papers of a list of hits, in order. */
  function BiorxivHits(items: seq<Item>): (r: seq<Paper>)
    ensures |r| <= |items|
    decreases |items|
  {
    if items == [] then []
    else
      var h := BiorxivHit(items[|items| - 1]);
      var pre := BiorxivHits(items[..|items| - 1]);
      pre + (if h.Some? then [h.value] else [])
  }

  /** Every usable hit's paper is among the bioRxiv papers of the list. */
  lemma {:induction false} BiorxivHitsKeep(items: seq<Item>, k: nat)
    requires k < |items| && BiorxivHit(items[k]).Some?
    ensures BiorxivHit(items[k]).value in BiorxivHits(items)
    decreases |items|
  {
    if k < |items| - 1 {
      assert items[..|items| - 1][k] == items[k];
      BiorxivHitsKeep(items[..|items| - 1], k);
    }
  }

  /** Every kept hit is a bioRxiv paper with a title and a URL mentioning biorxiv. */
  lemma {:induction false} BiorxivHitsPapers(items: seq<Item>)
    ensures forall k :: 0 <= k < |BiorxivHits(items)| ==> IsBiorxivHitPaper(BiorxivHits(items)[k])
    decreases |items|
  {
    if items != [] {
      var pre := BiorxivHits(items[..|items| - 1]);
      BiorxivHitsPapers(items[..|items| - 1]);
      var h := BiorxivHit(items[|items| - 1]);
      var r := BiorxivHits(items);
      forall k | 0 <= k < |r| ensures IsBiorxivHitPaper(r[k]) {
        if k < |pre| {
          assert r[k] == pre[k];
        }
      }
    }
  }

  lemma BiorxivHitsAt(items: seq<Item>, i: nat)
    requires i < |items|
    ensures BiorxivHits(items[..i + 1]) == BiorxivHits(items[..i]) + (if BiorxivHit(items[i]).Some? then [BiorxivHit(items[i]).value] else [])
  {
    assert items[..i + 1][..i] == items[..i];
  }

  /** The loop over the first `maxResults` hits of the bioRxiv search page. */
  method CollectBiorxiv(result: Extracted, maxResults: int) returns (papers: seq<Paper>)
    ensures result.NotAList? ==> papers == []
    ensures result.Items? ==> papers == BiorxivHits(Take(result.items, maxResults))
    ensures 0 <= maxResults ==> |papers| <= maxResults
    ensures forall k :: 0 <= k < |papers| ==> IsBiorxivHitPaper(papers[k])
  {
    papers := [];
    if result.NotAList? {
      return;
    }
    var items := Take(result.items, maxResults);
    var i := 0;
    while i < |items|
      invariant 0 <= i <= |items|
      invariant papers == BiorxivHits(items[..i])
    {
      BiorxivHitsAt(items, i);
      var h := BiorxivHit(items[i]);
      if h.Some? {
        papers := papers + [h.value];
      }
      i := i + 1;
    }
    assert items[..i] == items;
    BiorxivHitsPapers(items);
  }

  /** `_fetch_biorxiv_stagehand` after the search page: filter the hits, then scrape each paper's page. */
  method BiorxivCandidates(result: Extracted, maxResults: int, page: nat -> PageResult) returns (papers: seq<Paper>)
    ensures 0 <= maxResults ==> |papers| <= maxResults
    ensures forall k :: 0 <= k < |papers| ==> papers[k].source == Biorxiv && papers[k].journal == "bioRxiv"
    ensures forall k :: 0 <= k < |papers| ==> Contains(Lower(papers[k].url), "biorxiv")
  {
    var hits := CollectBiorxiv(result, maxResults);
    papers := ScrapeAll(hits, Biorxiv, maxResults, page);
  }

  /** A general search hit's link made absolute: `https://` in front of it, leading slashes dropped. */
  function SearchAbsolute(url: string): (r: string)
    ensures "http" <= r
    ensures "http" <= url ==> r == url
  {
    if "http" <= url then url
    else
      HttpsPrefixed(LStripChar(url, '/'));
      "https://" + LStripChar(url, '/')
  }

  lemma HttpsPrefixed(rest: string)
    ensures "http" <= "https://" + rest
  {
    assert ("https://" + rest)[..4] == "http";
  }

  /**
   * A search hit that passes `_parse_search_results`' checks: its raw stripped URL
   * and the paper it becomes. None when the title or URL is blank or the URL is
   * shorter than ten characters.
   */
  function SearchHit(item: Item): (r: Option<(string, Paper)>)
    ensures r.Some? <==> item.Record? && Strip(item.title.GetOr("")) != "" && |Strip(item.url.GetOr(""))| >= 10
    ensures r.Some? ==> r.value.0 == Strip(item.url.GetOr("")) && r.value.1.url == SearchAbsolute(r.value.0)
    ensures r.Some? ==> r.value.1 == NewPaper(Strip(item.title.GetOr("")), HitAuthors(item.authors), "",
                                              SearchAbsolute(Strip(item.url.GetOr(""))), Internet)
    ensures r.Some? ==> r.value.1.title != "" && r.value.1.source == Internet && r.value.1.journal == ""
  {
    match item
    case NotADict => None
    case Record(t, u, a) =>
      var title := Strip(t.GetOr(""));
      var url := Strip(u.GetOr(""));
      if title == "" || url == "" || |url| < 10 then None
      else Some((url, NewPaper(title, HitAuthors(a), "", SearchAbsolute(url), Internet)))
  }

  /** Which URL is looked up in the set of URLs already taken. */
  datatype SeenCheck =
    | RawUrl        // the hit's URL as extracted (the code as written)
    | AbsoluteUrl   // the URL the paper is stored under

  /** A paper every parsed search hit becomes. */
  predicate IsSearchPaper(p: Paper) {
    p.title != "" && p.source == Internet && p.journal == "" && "http" <= p.url
  }

  /**
   * The parse loop over `items`: stop at `maxResults` papers, skip unusable hits and
   * hits whose URL (raw or stored, per `check`) is among the URLs already stored.
   */
  function Scan(items: seq<Item>, maxResults: int, check: SeenCheck): (ps: seq<Paper>)
    ensures |ps| <= |items|
    ensures maxResults <= 0 ==> ps == []
    ensures 0 <= maxResults ==> |ps| <= maxResults
    decreases |items|
  {
    if items == [] then []
    else ScanStep(Scan(items[..|items| - 1], maxResults, check), SearchHit(items[|items| - 1]), maxResults, check)
  }

  /** One turn of the parse loop, on the hit the item yields. */
  function ScanStep(ps: seq<Paper>, hit: Option<(string, Paper)>, maxResults: int, check: SeenCheck): (r: seq<Paper>)
    ensures r == ps || (|ps| < maxResults && hit.Some? && r == ps + [hit.value.1])
    ensures check == AbsoluteUrl && r != ps ==> hit.value.1.url !in KeysOf(ps, UrlOf)
  {
    if |ps| >= maxResults || hit.None? then ps
    else
      var key := if check == RawUrl then hit.value.0 else hit.value.1.url;
      if key in KeysOf(ps, UrlOf) then ps else ps + [hit.value.1]
  }

  /** Every parsed paper has a title, source "internet", an empty journal and an absolute URL. */
  lemma {:induction false} ScanPapers(items: seq<Item>, maxResults: int, check: SeenCheck)
    ensures forall k :: 0 <= k < |Scan(items, maxResults, check)| ==> IsSearchPaper(Scan(items, maxResults, check)[k])
    decreases |items|
  {
    if items != [] {
      ScanPapers(items[..|items| - 1], maxResults, check);
    }
  }

  /** Once the cap is reached, later hits change nothing: the loop's `break`. */
  lemma {:induction false} ScanStaysFull(items: seq<Item>, i: nat, maxResults: int, check: SeenCheck)
    requires i <= |items|
    requires |Scan(items[..i], maxResults, check)| >= maxResults
    ensures Scan(items, maxResults, check) == Scan(items[..i], maxResults, check)
    decreases |items| - i
  {
    if i < |items| {
      assert items[..|items| - 1][..i] == items[..i];
      ScanStaysFull(items[..|items| - 1], i, maxResults, check);
    } else {
      assert items[..i] == items;
    }
  }

  /** Appending a paper whose URL is new keeps URLs distinct. */
  lemma AppendDistinct(pre: seq<Paper>, p: Paper)
    requires DistinctUrls(pre)
    requires p.url !in KeysOf(pre, UrlOf)
    ensures DistinctUrls(pre + [p])
  {
    var ps := pre + [p];
    forall i, j | 0 <= i < j < |ps| ensures ps[i].url != ps[j].url {
      if j == |pre| {
        assert UrlOf(pre[i]) in KeysOf(pre, UrlOf);
      } else {
        assert ps[i] == pre[i] && ps[j] == pre[j];
      }
    }
  }

  /** Checking the stored URL, no two parsed papers share a URL. */
  lemma {:induction false} ScanDistinct(items: seq<Item>, maxResults: int)
    ensures DistinctUrls(Scan(items, maxResults, AbsoluteUrl))
    decreases |items|
  {
    if items != [] {
      ScanDistinct(items[..|items| - 1], maxResults);
      var pre := Scan(items[..|items| - 1], maxResults, AbsoluteUrl);
      var hit := SearchHit(items[|items| - 1]);
      if Scan(items, maxResults, AbsoluteUrl) != pre {
        AppendDistinct(pre, hit.value.1);
      }
    }
  }

  /**
   * The code as written checks the raw URL against the stored ones: a scheme-less
   * URL is stored with `https://` in front, so the same hit twice is kept twice.
   */
  lemma RawCheckKeepsDuplicates(item: Item, maxResults: int)
    requires maxResults >= 2 && SearchHit(item).Some? && !("http" <= SearchHit(item).value.0)
    ensures var p := SearchHit(item).value.1;
      Scan([item, item], maxResults, RawUrl) == [p, p]
  {
    var hit := SearchHit(item);
    ScanSnoc([], item, maxResults, RawUrl);
    ScanSnoc([item], item, maxResults, RawUrl);
    RawHitTwice(hit.value.0, hit.value.1, maxResults);
  }

  /** Scanning one more item is one more turn of the loop. */
  lemma ScanSnoc(items: seq<Item>, item: Item, maxResults: int, check: SeenCheck)
    ensures Scan(items + [item], maxResults, check) == ScanStep(Scan(items, maxResults, check), SearchHit(item), maxResults, check)
  {
    assert (items + [item])[..|items|] == items;
  }

  /** The loop's turn `i` as a step of the specification. */
  lemma ScanAt(items: seq<Item>, i: nat, maxResults: int, check: SeenCheck)
    requires i < |items|
    ensures Scan(items[..i + 1], maxResults, check) == ScanStep(Scan(items[..i], maxResults, check), SearchHit(items[i]), maxResults, check)
  {
    assert items[..i + 1] == items[..i] + [items[i]];
    ScanSnoc(items[..i], items[i], maxResults, check);
  }

  /** The same hit twice under the raw check: both copies are kept. */
  lemma RawHitTwice(raw: string, p: Paper, maxResults: int)
    requires maxResults >= 2 && !("http" <= raw) && "http" <= p.url
    ensures ScanStep([], Some((raw, p)), maxResults, RawUrl) == [p]
    ensures ScanStep([p], Some((raw, p)), maxResults, RawUrl) == [p, p]
  {
    assert KeysOf([], UrlOf) == {};
    KeysOfSingleton(p, UrlOf);
    assert raw != p.url;
  }

  /** A hit with a scheme-less URL, as search engines return them. */
  lemma SchemelessHit()
    ensures var r := SearchHit(Record(Some("A paper"), Some("www.example.org/p"), None));
      r.Some? && r.value.0 == "www.example.org/p" && !("http" <= r.value.0)
  {
    var url := "www.example.org/p";
    StripOfStripped(url);
    StripOfStripped("A paper");
    assert url[0] == 'w';
  }

  /**
   * `_parse_search_results`: `check` is the URL looked up in `seen`, `RawUrl` as
   * the code is written, `AbsoluteUrl` as corrected. Either way `seen` holds the
   * stored URLs.
   */
  method ParseSearchResults(result: Extracted, maxResults: int, check: SeenCheck) returns (papers: seq<Paper>)
    ensures result.NotAList? ==> papers == []
    ensures result.Items? ==> papers == Scan(result.items, maxResults, check)
    ensures 0 <= maxResults ==> |papers| <= maxResults
    ensures forall k :: 0 <= k < |papers| ==> IsSearchPaper(papers[k])
    ensures check == AbsoluteUrl ==> DistinctUrls(papers)
  {
    papers := [];
    var seen: set<string> := {};
    if result.NotAList? {
      return;
    }
    var items := result.items;
    var i := 0;
    while i < |items|
      invariant 0 <= i <= |items|
      invariant papers == Scan(items[..i], maxResults, check)
      invariant seen == KeysOf(papers, UrlOf)
    {
      if |papers| >= maxResults {
        ScanStaysFull(items, i, maxResults, check);
        break;
      }
      ParseStep(items, i, maxResults, check, papers, seen);
      var hit := SearchHit(items[i]);
      if hit.Some? {
        var p := hit.value.1;
        var key := if check == RawUrl then hit.value.0 else p.url;
        if key !in seen {
          seen := seen + {p.url};
          papers := papers + [p];
        }
      }
      i := i + 1;
    }
    if i == |items| {
      assert items[..i] == items;
    }
    ScanDistinct(items, maxResults);
    ScanPapers(items, maxResults, check);
  }

  /** One turn of `_parse_search_results`' loop below the cap, with its set of stored URLs. */
  lemma ParseStep(items: seq<Item>, i: nat, maxResults: int, check: SeenCheck, papers: seq<Paper>, seen: set<string>)
    requires i < |items| && papers == Scan(items[..i], maxResults, check) && seen == KeysOf(papers, UrlOf)
    requires |papers| < maxResults
    ensures var hit := SearchHit(items[i]);
      var keep := hit.Some? && (if check == RawUrl then hit.value.0 else hit.value.1.url) !in seen;
      && Scan(items[..i + 1], maxResults, check) == (if keep then papers + [hit.value.1] else papers)
      && (keep ==> KeysOf(papers + [hit.value.1], UrlOf) == seen + {hit.value.1.url})
  {
    ScanAt(items, i, maxResults, check);
    var hit := SearchHit(items[i]);
    if hit.Some? {
      KeysOfAppend(papers, hit.value.1, UrlOf);
    }
  }

  /**
   * When the loop skips an item: at the cap, or when the item is not an object,
   * its stripped title is blank, its stripped URL is shorter than ten characters,
   * or the URL `check` looks up (the raw one as written) is already stored.
   * Otherwise the item's paper is appended.
   */
  lemma ScanSkips(items: seq<Item>, item: Item, maxResults: int, check: SeenCheck)
    ensures var pre := Scan(items, maxResults, check);
      var post := Scan(items + [item], maxResults, check);
      var url := if item.Record? then Strip(item.url.GetOr("")) else "";
      var kept := |pre| < maxResults && item.Record? && Strip(item.title.GetOr("")) != "" && |url| >= 10
                  && (if check == RawUrl then url else SearchAbsolute(url)) !in KeysOf(pre, UrlOf);
      && (!kept ==> post == pre)
      && (kept ==> post == pre + [NewPaper(Strip(item.title.GetOr("")), HitAuthors(item.authors), "",
                                           SearchAbsolute(url), Internet)])
  {
    ScanSnoc(items, item, maxResults, check);
  }

  // ---- Google Scholar fallback ----

  /** Append Scholar papers whose URL is new, until `maxResults` papers are held. */
  function ScholarMerge(base: seq<Paper>, scholar: seq<Paper>, maxResults: int): (r: seq<Paper>)
    ensures base <= r
    ensures |r| <= |base| + |scholar|
    ensures |r| <= if |base| < maxResults then maxResults else |base|
    ensures forall k :: |base| <= k < |r| ==> r[k] in scholar
    decreases |scholar|
  {
    if scholar == [] then base
    else
      var r := ScholarMerge(base, scholar[..|scholar| - 1], maxResults);
      var p := scholar[|scholar| - 1];
      if |r| >= maxResults || p.url in KeysOf(r, UrlOf) then r else r + [p]
  }

  lemma {:induction false} ScholarMergeStaysFull(base: seq<Paper>, scholar: seq<Paper>, i: nat, maxResults: int)
    requires i <= |scholar|
    requires |ScholarMerge(base, scholar[..i], maxResults)| >= maxResults
    ensures ScholarMerge(base, scholar, maxResults) == ScholarMerge(base, scholar[..i], maxResults)
    decreases |scholar| - i
  {
    if i < |scholar| {
      assert scholar[..|scholar| - 1][..i] == scholar[..i];
      ScholarMergeStaysFull(base, scholar[..|scholar| - 1], i, maxResults);
    } else {
      assert scholar[..i] == scholar;
    }
  }

  /** The merge keeps URLs distinct when the Google papers have distinct URLs. */
  lemma {:induction false} ScholarMergeDistinct(base: seq<Paper>, scholar: seq<Paper>, maxResults: int)
    requires DistinctUrls(base)
    ensures DistinctUrls(ScholarMerge(base, scholar, maxResults))
    decreases |scholar|
  {
    if scholar != [] {
      var pre := ScholarMerge(base, scholar[..|scholar| - 1], maxResults);
      ScholarMergeDistinct(base, scholar[..|scholar| - 1], maxResults);
      var p := scholar[|scholar| - 1];
      if !(|pre| >= maxResults || p.url in KeysOf(pre, UrlOf)) {
        AppendDistinct(pre, p);
      }
    }
  }

  /** The fallback loop: the set of taken URLs starts as the Google papers' URLs. */
  method MergeScholar(base: seq<Paper>, scholar: seq<Paper>, maxResults: int) returns (papers: seq<Paper>)
    ensures papers == ScholarMerge(base, scholar, maxResults)
  {
    papers := base;
    var seenUrls := KeysOf(base, UrlOf);
    var i := 0;
    while i < |scholar|
      invariant 0 <= i <= |scholar|
      invariant papers == ScholarMerge(base, scholar[..i], maxResults)
      invariant seenUrls == KeysOf(papers, UrlOf)
    {
      if |papers| >= maxResults {
        ScholarMergeStaysFull(base, scholar, i, maxResults);
        break;
      }
      var p := scholar[i];
      assert scholar[..i + 1][..i] == scholar[..i];
      if p.url !in seenUrls {
        KeysOfAppend(papers, p, UrlOf);
        seenUrls := seenUrls + {p.url};
        papers := papers + [p];
      }
      i := i + 1;
    }
    if i == |scholar| {
      assert scholar[..i] == scholar;
    }
  }

  /**
   * `_fetch_internet_stagehand` after the search pages: Google hits, the Scholar
   * fallback when fewer than two were found, then each paper's page scraped.
   */
  method InternetCandidates(google: Extracted, scholar: Extracted, maxResults: int, check: SeenCheck,
                            page: nat -> PageResult)
    returns (papers: seq<Paper>)
    ensures 0 <= maxResults ==> |papers| <= maxResults
    ensures forall k :: 0 <= k < |papers| ==> papers[k].source == Internet && "http" <= papers[k].url
    ensures check == AbsoluteUrl ==> DistinctUrls(papers)
  {
    var found := ParseSearchResults(google, maxResults, check);
    if |found| < 2 {
      var more := ParseSearchResults(scholar, maxResults, check);
      var merged := MergeScholar(found, more, maxResults);
      if check == AbsoluteUrl {
        ScholarMergeDistinct(found, more, maxResults);
      }
      forall k | |found| <= k < |merged| ensures merged[k].source == Internet && "http" <= merged[k].url {
        var j :| 0 <= j < |more| && more[j] == merged[k];
      }
      found := merged;
    }
    papers := ScrapeAll(found, Internet, maxResults, page);
  }
}
