/**
 * `fetch_arxiv` (research_harness.py): the rate-limit retry loop around the API
 * request and the mapping of each Atom entry of the reply to a `Paper`.
 * The HTTP client is an oracle `reply(attempt)`; the XML is given already parsed.
 */
module Arxiv {
  import opened Wrappers
  import opened Text
  import opened Seqs
  import opened Http
  import opened Papers

  /** One `atom:link`: its `href`, `rel` and `type` attributes. */
  datatype Link = Link(href: Option<string>, rel: Option<string>, mediaType: Option<string>)

  /**
   * One parsed `atom:entry`. Each text field is the element's text, None when the
   * element is missing or has no text.
   */
  datatype Entry = Entry(
    title: Option<string>,
    authorNames: seq<Option<string>>,
    journalRef: Option<string>,
    links: seq<Link>,
    id: Option<string>,
    published: Option<string>,
    updated: Option<string>,
    summary: Option<string>)

  /** What one `requests.get` to the API produced: a response, or a raised connection error. */
  datatype Reply = Response(status: int, entries: seq<Entry>) | ConnectionFailed

  /** How the request phase ends: with the feed, or with the exception `fetch_arxiv` raises. */
  datatype Outcome = Ok(entries: seq<Entry>) | HttpError(status: int) | ConnectionError

  /** The outcome, the back-off waits slept (in seconds) and the number of requests made. */
  datatype Trace = Trace(outcome: Outcome, waits: seq<nat>, requests: nat)

  const Backoff: seq<nat> := [5, 15, 30]

  /** What the reply that ends the loop leads to; a rate-limit status fails `raise_for_status`. */
  function Decide(r: Reply): Outcome {
    match r
    case ConnectionFailed => ConnectionError
    case Response(status, entries) =>
      if IsErrorStatus(status) then HttpError(status) else Ok(entries)
  }

  predicate IsRateLimit(r: Reply) {
    r.Response? && RateLimited(r.status)
  }

  /**
   * The retry loop from attempt `a` on: a rate-limited reply sleeps and retries,
   * up to three requests in all; anything else ends the loop.
   */
  function Retry(reply: nat -> Reply, a: nat): (t: Trace)
    requires a < 3
    ensures 1 <= t.requests <= 3 - a
    decreases 3 - a
  {
    var r := reply(a);
    if IsRateLimit(r) then
      if a == 2 then Trace(HttpError(r.status), [Backoff[a]], 1)
      else
        var rest := Retry(reply, a + 1);
        Trace(rest.outcome, [Backoff[a]] + rest.waits, rest.requests + 1)
    else Trace(Decide(r), [], 1)
  }

  /**
   * What the loop did: every reply before the last one was rate-limited; the last
   * reply decides the outcome; a rate-limited last reply means the attempts ran
   * out; one wait per rate-limited reply, taken in order from 5, 15, 30 seconds.
   */
  lemma {:induction false} RetryShape(reply: nat -> Reply, a: nat)
    requires a < 3
    ensures var t := Retry(reply, a);
      && (forall j :: a <= j < a + t.requests - 1 ==> IsRateLimit(reply(j)))
      && t.outcome == Decide(reply(a + t.requests - 1))
      && (IsRateLimit(reply(a + t.requests - 1)) ==> a + t.requests == 3)
      && |t.waits| == (if IsRateLimit(reply(a + t.requests - 1)) then t.requests else t.requests - 1)
      && t.waits == Backoff[a..a + |t.waits|]
    decreases 3 - a
  {
    if IsRateLimit(reply(a)) && a < 2 {
      RetryShape(reply, a + 1);
      var rest := Retry(reply, a + 1);
      assert Backoff[a..a + 1 + |rest.waits|] == [Backoff[a]] + Backoff[a + 1..a + 1 + |rest.waits|];
    }
  }

  /**
   * Three rate-limited replies in a row end in an HTTP error carrying the last status,
   * after sleeping 5, 15 and 30 seconds; the `RuntimeError` branch is never reached.
   */
  lemma RetryExhausted(reply: nat -> Reply)
    requires IsRateLimit(reply(0)) && IsRateLimit(reply(1)) && IsRateLimit(reply(2))
    ensures Retry(reply, 0) == Trace(HttpError(reply(2).status), [5, 15, 30], 3)
  {
    assert Retry(reply, 1) == Trace(HttpError(reply(2).status), [15, 30], 2);
  }

  /** The request phase succeeds exactly when, after some rate-limited replies, a reply is neither rate-limited nor an error. */
  lemma RetryOk(reply: nat -> Reply)
    ensures Retry(reply, 0).outcome.Ok? <==>
      exists k :: 0 <= k < 3 && (forall j :: 0 <= j < k ==> IsRateLimit(reply(j))) &&
        reply(k).Response? && !IsErrorStatus(reply(k).status)
  {
    RetryShape(reply, 0);
    var t := Retry(reply, 0);
    var last := t.requests - 1;
    forall k | 0 <= k < 3 && (forall j :: 0 <= j < k ==> IsRateLimit(reply(j))) &&
        reply(k).Response? && !IsErrorStatus(reply(k).status)
      ensures t.outcome.Ok?
    {
      assert !IsRateLimit(reply(k));
      assert k <= last ==> k == last;
    }
  }

  /** The request loop of `fetch_arxiv`. */
  method RequestWithRetry(reply: nat -> Reply) returns (t: Trace)
    ensures t == Retry(reply, 0)
  {
    var waits: seq<nat> := [];
    var attempt := 0;
    while attempt < 3
      invariant 0 <= attempt <= 3
      invariant waits == Backoff[..attempt]
      invariant forall j :: 0 <= j < attempt ==> IsRateLimit(reply(j))
      invariant attempt < 3 ==>
        Retry(reply, 0) == Trace(Retry(reply, attempt).outcome, waits + Retry(reply, attempt).waits, attempt + Retry(reply, attempt).requests)
      invariant attempt == 3 ==> Retry(reply, 0) == Trace(HttpError(reply(2).status), waits, 3)
    {
      var r := reply(attempt);
      if IsRateLimit(r) {
        if attempt < 2 {
          var rest := Retry(reply, attempt + 1);
          assert waits + ([Backoff[attempt]] + rest.waits) == (waits + [Backoff[attempt]]) + rest.waits;
        }
        waits := waits + [Backoff[attempt]];
        attempt := attempt + 1;
        continue;
      }
      assert waits + [] == waits;
      return Trace(Decide(r), waits, attempt + 1);
    }
    // every attempt was rate-limited: `raise_for_status` on the last response raises
    t := Trace(HttpError(reply(2).status), waits, 3);
  }

  // ---- entry mapping ----

  /** The link's `href`, stripped. */
  function Href(l: Link): string {
    Strip(l.href.GetOr(""))
  }

  /** A link that supplies the abstract-page URL. */
  predicate IsAlternate(l: Link) {
    Href(l) != "" && l.rel == Some("alternate")
  }

  /** A link that supplies the PDF URL. */
  predicate IsPdf(l: Link) {
    Href(l) != "" && Lower(Strip(l.mediaType.GetOr(""))) == "application/pdf"
  }

  /** The page URL from the links: the first alternate link wins. */
  function AlternateUrl(links: seq<Link>): (u: string)
    ensures u == "" <==> forall j :: 0 <= j < |links| ==> !IsAlternate(links[j])
  {
    match FirstWhere(links, IsAlternate)
    case None => ""
    case Some(k) => Href(links[k])
  }

  /** The PDF URL from the links: the last PDF link wins. */
  function PdfHref(links: seq<Link>): (u: Option<string>)
    ensures u.None? <==> forall j :: 0 <= j < |links| ==> !IsPdf(links[j])
    ensures u.Some? ==> u.value != ""
  {
    match LastWhere(links, IsPdf)
    case None => None
    case Some(k) => Some(Href(links[k]))
  }

  lemma AlternateUrlSnoc(links: seq<Link>, l: Link)
    ensures AlternateUrl(links + [l]) ==
      if AlternateUrl(links) != "" then AlternateUrl(links) else if IsAlternate(l) then Href(l) else ""
  {
    assert (links + [l])[..|links|] == links;
  }

  lemma PdfHrefSnoc(links: seq<Link>, l: Link)
    ensures PdfHref(links + [l]) == if IsPdf(l) then Some(Href(l)) else PdfHref(links)
  {
    assert (links + [l])[..|links|] == links;
  }

  /** The loop over an entry's links. */
  method ScanLinks(links: seq<Link>) returns (url: string, pdfUrl: Option<string>)
    ensures url == AlternateUrl(links)
    ensures pdfUrl == PdfHref(links)
  {
    url := "";
    pdfUrl := None;
    var i := 0;
    while i < |links|
      invariant 0 <= i <= |links|
      invariant url == AlternateUrl(links[..i])
      invariant pdfUrl == PdfHref(links[..i])
    {
      var link := links[i];
      assert links[..i + 1] == links[..i] + [link];
      AlternateUrlSnoc(links[..i], link);
      PdfHrefSnoc(links[..i], link);
      var href := Href(link);
      if href != "" {
        if link.rel == Some("alternate") && url == "" {
          url := href;
        }
        if Lower(Strip(link.mediaType.GetOr(""))) == "application/pdf" {
          pdfUrl := Some(href);
        }
      }
      i := i + 1;
    }
    assert links[..i] == links;
  }

  /** The page URL, falling back to the stripped `atom:id` text. */
  function EntryUrl(altUrl: string, id: Option<string>): (u: string)
    ensures altUrl != "" ==> u == altUrl
  {
    if altUrl != "" then altUrl
    else if Present(id) then Strip(id.value)
    else ""
  }

  /** The title: stripped, newlines turned into spaces. */
  function EntryTitle(title: Option<string>): (t: string)
    ensures '\n' !in t
    ensures t == "" <==> (title.None? || Strip(title.value) == "")
  {
    ReplaceChar(Strip(title.GetOr("")), '\n', ' ')
  }

  /** The stripped text of every author name element that has text. */
  function EntryAuthors(names: seq<Option<string>>): (r: seq<string>)
    ensures |r| <= |names|
    ensures forall k :: 0 <= k < |r| ==> NoEdgeSpace(r[k])
    ensures (forall k :: 0 <= k < |names| ==> Present(names[k])) ==> |r| == |names|
    decreases |names|
  {
    if names == [] then []
    else
      var n := names[|names| - 1];
      EntryAuthors(names[..|names| - 1]) + (if Present(n) then [Strip(n.value)] else [])
  }

  /** The journal reference, or "arXiv" when the entry has none. */
  function EntryJournal(journalRef: Option<string>): (j: string)
    ensures !Present(journalRef) ==> j == "arXiv"
    ensures NoEdgeSpace(j)
  {
    if Present(journalRef) then Strip(journalRef.value) else "arXiv"
  }

  /** The date part of an ISO 8601 timestamp: what precedes the first `T`; None when that is empty. */
  function DatePart(text: Option<string>): (d: Option<string>)
    ensures d.Some? ==> d.value != "" && 'T' !in d.value
    ensures d.Some? ==> Present(text)
  {
    if Present(text) then
      var pieces := Split(Strip(text.value), 'T');
      if pieces[0] == "" then None else Some(pieces[0])
    else None
  }

  /** `atom:published` when it yields a date, else `atom:updated`. */
  function EntryDate(published: Option<string>, updated: Option<string>): (d: Option<string>)
    ensures DatePart(published).Some? ==> d == DatePart(published)
    ensures d.Some? ==> d.value != "" && 'T' !in d.value
  {
    var p := DatePart(published);
    if p.Some? then p else DatePart(updated)
  }

  /** The summary: stripped, newlines turned into spaces, cut to 8000 characters. */
  function EntryAbstract(summary: Option<string>): (a: Option<string>)
    ensures a.None? <==> !Present(summary)
    ensures a.Some? ==> |a.value| <= 8000 && '\n' !in a.value
  {
    if Present(summary) then
      var t := ReplaceChar(Strip(summary.value), '\n', ' ');
      assert Take(t, 8000) <= t;
      Some(Take(t, 8000))
    else None
  }

  /** What every paper `fetch_arxiv` returns satisfies. */
  predicate WellFormedArxivPaper(p: Paper) {
    p.title != "" && '\n' !in p.title && p.url != "" && p.source == Arxiv && p.fullText.None?
    && (p.abstractText.Some? ==> |p.abstractText.value| <= 8000)
    && (p.publishedDate.Some? ==> p.publishedDate.value != "" && 'T' !in p.publishedDate.value)
    && (p.pdfUrl.Some? ==> p.pdfUrl.value != "")
  }

  /** The paper for an entry, once its links have been scanned; None when the title or the URL is empty. */
  function BuildPaper(e: Entry, altUrl: string, pdfUrl: Option<string>): (r: Option<Paper>)
    requires pdfUrl.Some? ==> pdfUrl.value != ""
    ensures r.Some? <==> EntryTitle(e.title) != "" && EntryUrl(altUrl, e.id) != ""
    ensures r.Some? ==> WellFormedArxivPaper(r.value) && r.value.pdfUrl == pdfUrl
  {
    var title := EntryTitle(e.title);
    var url := EntryUrl(altUrl, e.id);
    if title != "" && url != "" then
      Some(Paper(title, EntryAuthors(e.authorNames), EntryJournal(e.journalRef), url, Arxiv,
        EntryDate(e.published, e.updated), EntryAbstract(e.summary), None, pdfUrl))
    else None
  }

  /** The mapping of one entry. */
  function EntryToPaper(e: Entry): Option<Paper> {
    BuildPaper(e, AlternateUrl(e.links), PdfHref(e.links))
  }

  /** The papers of a feed, in feed order; entries without a title or a URL are skipped. */
  function EntryPapers(entries: seq<Entry>): (r: seq<Paper>)
    ensures |r| <= |entries|
    ensures forall k :: 0 <= k < |r| ==> WellFormedArxivPaper(r[k])
    decreases |entries|
  {
    if entries == [] then []
    else
      var e := entries[|entries| - 1];
      var p := EntryToPaper(e);
      EntryPapers(entries[..|entries| - 1]) + (if p.Some? then [p.value] else [])
  }

  /** The mapping keeps feed order: the papers of two feeds in a row are the papers of each, in a row. */
  lemma {:induction false} EntryPapersConcat(a: seq<Entry>, b: seq<Entry>)
    ensures EntryPapers(a + b) == EntryPapers(a) + EntryPapers(b)
    decreases |b|
  {
    if b == [] {
      assert a + b == a;
    } else {
      assert (a + b)[..|a + b| - 1] == a + b[..|b| - 1];
      EntryPapersConcat(a, b[..|b| - 1]);
    }
  }

  /** An entry with a title and an alternate link becomes a paper at that link's address. */
  lemma EntryWithAlternate(e: Entry, k: nat)
    requires k < |e.links| && IsAlternate(e.links[k]) && forall j :: 0 <= j < k ==> !IsAlternate(e.links[j])
    requires e.title.Some? && Strip(e.title.value) != ""
    ensures EntryToPaper(e).Some? && EntryToPaper(e).value.url == Href(e.links[k])
  {
    var f := FirstWhere(e.links, IsAlternate);
    assert f.Some?;
    assert f.value == k by {
      assert f.value <= k;
      assert !(f.value < k);
    }
  }

  /** `fetch_arxiv`: request with retries, then map every entry of the feed. */
  method FetchArxiv(reply: nat -> Reply) returns (t: Trace, papers: seq<Paper>)
    ensures t == Retry(reply, 0)
    ensures t.outcome.Ok? ==> papers == EntryPapers(t.outcome.entries)
    ensures !t.outcome.Ok? ==> papers == []
    ensures forall k :: 0 <= k < |papers| ==> WellFormedArxivPaper(papers[k])
  {
    t := RequestWithRetry(reply);
    papers := [];
    if !t.outcome.Ok? {
      return;
    }
    var entries := t.outcome.entries;
    var i := 0;
    while i < |entries|
      invariant 0 <= i <= |entries|
      invariant papers == EntryPapers(entries[..i])
    {
      var e := entries[i];
      assert entries[..i + 1][..i] == entries[..i];
      var url, pdfUrl := ScanLinks(e.links);
      var p := BuildPaper(e, url, pdfUrl);
      if p.Some? {
        papers := papers + [p.value];
      }
      i := i + 1;
    }
    assert entries[..i] == entries;
  }
}
