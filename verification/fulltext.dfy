/**
 * Full-text enrichment (research_harness.py): download a paper's PDF, extract its
 * text and return a copy of the paper with `full_text` set, or the paper itself
 * when anything goes wrong. The download and the PDF text extraction are oracles.
 */
module FullText {
  import opened Wrappers
  import opened Text
  import opened Http
  import opened Papers
  import opened Urls

  /** What a PDF download produced: a response with its status and body, or a raised request exception. */
  datatype Download = Downloaded(status: int, body: seq<bv8>) | DownloadFailed

  /** A download the fetchers go on with: no error status, and at least 200 bytes. */
  predicate Usable(d: Download) {
    d.Downloaded? && !IsErrorStatus(d.status) && |d.body| >= 200
  }

  /** `r` is `p` with only `full_text` set, to stripped non-empty text. */
  predicate FullTextAdded(p: Paper, r: Paper) {
    r.fullText.Some? && r.fullText.value != "" && NoEdgeSpace(r.fullText.value)
    && r == p.(fullText := r.fullText)
  }

  /** Store extracted text: stripped, and only when something is left. */
  function WithText(p: Paper, text: Option<string>): (r: Paper)
    ensures r == p || FullTextAdded(p, r)
    ensures text.Some? && Strip(text.value) != "" ==> r.fullText == Some(Strip(text.value))
    ensures text.None? || Strip(text.value) == "" ==> r == p
  {
    match text
    case None => p
    case Some(s) =>
      var t := Strip(s);
      if t == "" then p else p.(fullText := Some(t))
  }

  /**
   * The shared tail of both fetchers: download `target`, extract, strip. A response
   * that does not look like a PDF only draws a warning, so it is not a failure here.
   */
  function Enrich(p: Paper, target: string, fetch: string -> Download, extract: seq<bv8> -> Option<string>): (r: Paper)
    ensures !Usable(fetch(target)) ==> r == p
    ensures Usable(fetch(target)) ==> r == WithText(p, extract(fetch(target).body))
  {
    var d := fetch(target);
    if d.DownloadFailed? || IsErrorStatus(d.status) || |d.body| < 200 then p
    else WithText(p, extract(d.body))
  }

  /** The PDF address for an arXiv paper: its own PDF link if set, else derived from the page URL; `http` upgraded. */
  function ArxivPdfTarget(p: Paper): (r: Option<string>)
    ensures r.Some? ==> !("http://" <= r.value)
    ensures !Present(p.pdfUrl) && AbsToPdf(p.url).None? ==> r.None?
    ensures Present(p.pdfUrl) ==> r == Some(UpgradeToHttps(p.pdfUrl.value))
    ensures !Present(p.pdfUrl) && AbsToPdf(p.url).Some? ==> r == Some(UpgradeToHttps(AbsToPdf(p.url).value))
  {
    var u := if Present(p.pdfUrl) then p.pdfUrl else AbsToPdf(p.url);
    match u
    case None => None
    case Some(v) => Some(UpgradeToHttps(v))
  }

  /** A paper with only a clean abstract link is fetched from the matching PDF link. */
  lemma ArxivPdfTargetCanonical(p: Paper, id: string)
    requires CanonicalId(id) && p.url == "https://arxiv.org/abs/" + id && !Present(p.pdfUrl)
    ensures ArxivPdfTarget(p) == Some(PdfLink(id))
  {
    AbsToPdfCanonical(id);
    PdfLinkIsHttps(id);
  }

  /** `_fetch_arxiv_pdf_fulltext` */
  function FetchArxivFullText(p: Paper, fetch: string -> Download, extract: seq<bv8> -> Option<string>): (r: Paper)
    ensures p.source != Arxiv || p.url == "" || ArxivPdfTarget(p).None? ==> r == p
    ensures p.source == Arxiv && p.url != "" && ArxivPdfTarget(p).Some? && !Usable(fetch(ArxivPdfTarget(p).value)) ==> r == p
    ensures r == p || FullTextAdded(p, r)
  {
    if p.source != Arxiv || p.url == "" then p
    else
      match ArxivPdfTarget(p)
      case None => p
      case Some(target) => Enrich(p, target, fetch, extract)
  }

  /** `_fetch_biorxiv_pdf_fulltext` */
  function FetchBiorxivFullText(p: Paper, fetch: string -> Download, extract: seq<bv8> -> Option<string>): (r: Paper)
    ensures p.source != Biorxiv || p.url == "" ==> r == p
    ensures p.source == Biorxiv && p.url != "" && !Usable(fetch(BiorxivPdfUrl(p.url))) ==> r == p
    ensures r == p || FullTextAdded(p, r)
  {
    if p.source != Biorxiv || p.url == "" then p
    else Enrich(p, BiorxivPdfUrl(p.url), fetch, extract)
  }

  /** A bioRxiv paper whose `.full.pdf` yields text gets exactly that text, stripped. */
  lemma BiorxivFullTextSuccess(p: Paper, fetch: string -> Download, extract: seq<bv8> -> Option<string>, text: string)
    requires p.source == Biorxiv && p.url != ""
    requires Usable(fetch(BiorxivPdfUrl(p.url)))
    requires extract(fetch(BiorxivPdfUrl(p.url)).body) == Some(text) && Strip(text) != ""
    ensures FetchBiorxivFullText(p, fetch, extract) == p.(fullText := Some(Strip(text)))
  {
  }

  /** An arXiv paper whose PDF address yields text gets exactly that text, stripped. */
  lemma ArxivFullTextSuccess(p: Paper, fetch: string -> Download, extract: seq<bv8> -> Option<string>,
                             target: string, text: string)
    requires p.source == Arxiv && p.url != "" && ArxivPdfTarget(p) == Some(target)
    requires Usable(fetch(target))
    requires extract(fetch(target).body) == Some(text) && Strip(text) != ""
    ensures FetchArxivFullText(p, fetch, extract) == p.(fullText := Some(Strip(text)))
  {
  }

  /** Enrichment never touches what identifies a paper: URL, source, title. */
  lemma EnrichKeepsIdentity(p: Paper, fetch: string -> Download, extract: seq<bv8> -> Option<string>)
    ensures FetchArxivFullText(p, fetch, extract).url == p.url
    ensures FetchArxivFullText(p, fetch, extract).source == p.source
    ensures FetchBiorxivFullText(p, fetch, extract).url == p.url
    ensures FetchBiorxivFullText(p, fetch, extract).source == p.source
  {
  }
}
