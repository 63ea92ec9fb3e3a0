/**
 * The harness's `Paper` record, the database sanitiser and the serialisation of a
 * paper to the output row (research_harness.py).
 */
module Papers {
  import opened Wrappers
  import opened Json
  import opened Seqs

  /** The adapter a paper came from. */
  datatype Source = Arxiv | Biorxiv | Internet

  datatype Paper = Paper(
    title: string,
    authors: seq<string>,
    journal: string,
    url: string,
    source: Source,
    publishedDate: Option<string>,
    abstractText: Option<string>,
    fullText: Option<string>,
    pdfUrl: Option<string>)

  /** A fresh paper as the adapters build it: the optional fields start as None. */
  function NewPaper(title: string, authors: seq<string>, journal: string, url: string, source: Source): Paper {
    Paper(title, authors, journal, url, source, None, None, None, None)
  }

  /** Python truthiness of an optional string: present and non-empty. */
  predicate Present(o: Option<string>) {
    o.Some? && o.value != ""
  }

  /** The key run_harness deduplicates by. */
  function UrlOf(p: Paper): string {
    p.url
  }

  /** No two papers in `ps` share a URL. */
  predicate DistinctUrls(ps: seq<Paper>) {
    forall i, j :: 0 <= i < j < |ps| ==> ps[i].url != ps[j].url
  }

  /** A character PostgreSQL text accepts: no NUL, and no control character but newline, carriage return and tab. */
  predicate Allowed(c: char) {
    c != '\0' && (c as int >= 32 || c == '\n' || c == '\r' || c == '\t')
  }

  predicate IsClean(s: string) {
    forall i :: 0 <= i < |s| ==> Allowed(s[i])
  }

  /** `_sanitize_for_db` on a string: drop every character that is not allowed. */
  function Sanitize(s: string): (r: string)
    ensures IsClean(r)
    ensures |r| <= |s|
    decreases |s|
  {
    if s == [] then []
    else
      var c := s[|s| - 1];
      Sanitize(s[..|s| - 1]) + (if Allowed(c) then [c] else [])
  }

  /** Every allowed character of the input survives. */
  lemma {:induction false} SanitizeKeepsAllowed(s: string, i: nat)
    requires i < |s| && Allowed(s[i])
    ensures s[i] in Sanitize(s)
    decreases |s|
  {
    if i < |s| - 1 {
      SanitizeKeepsAllowed(s[..|s| - 1], i);
    }
  }

  /** The sanitiser only deletes: its output is a subsequence of its input. */
  lemma {:induction false} SanitizeSubseq(s: string)
    ensures IsSubseq(Sanitize(s), s)
    decreases |s|
  {
    if s != [] {
      var p := s[..|s| - 1];
      SanitizeSubseq(p);
      var r := Sanitize(p);
      if Allowed(s[|s| - 1]) {
        assert (r + [s[|s| - 1]])[..|r|] == r;
      } else {
        assert Sanitize(s) == r;
      }
    }
  }

  /** Clean text passes through unchanged. */
  lemma {:induction false} SanitizeKeepsClean(s: string)
    requires IsClean(s)
    ensures Sanitize(s) == s
    decreases |s|
  {
    if s != [] {
      var p := s[..|s| - 1];
      assert IsClean(p) by {
        forall i | 0 <= i < |p| ensures Allowed(p[i]) { assert p[i] == s[i]; }
      }
      SanitizeKeepsClean(p);
      assert Allowed(s[|s| - 1]);
      assert s == p + [s[|s| - 1]];
    }
  }

  /** Sanitising twice is sanitising once. */
  lemma SanitizeIdempotent(s: string)
    ensures Sanitize(Sanitize(s)) == Sanitize(s)
  {
    SanitizeKeepsClean(Sanitize(s));
  }

  /** `_sanitize_for_db` on `str | None`: None maps to None. */
  function SanitizeOpt(o: Option<string>): (r: Option<string>)
    ensures r.None? <==> o.None?
    ensures r.Some? ==> IsClean(r.value) && |r.value| <= |o.value|
  {
    match o
    case None => None
    case Some(s) => Some(Sanitize(s))
  }

  /** A row value holds no control character a text column would reject. */
  predicate CleanValue(v: Value) {
    match v
    case Str(s) => IsClean(s)
    case List(items) => forall i :: 0 <= i < |items| ==> items[i].Str? ==> IsClean(items[i].s)
    case _ => true
  }

  function OptValue(o: Option<string>): Value {
    match o
    case None => Null
    case Some(s) => Str(s)
  }

  function SanitizedAuthors(authors: seq<string>): (r: seq<Value>)
    ensures |r| == |authors|
    ensures forall i :: 0 <= i < |r| ==> r[i] == Str(Sanitize(authors[i]))
  {
    seq(|authors|, i requires 0 <= i < |authors| => Str(Sanitize(authors[i])))
  }

  /** The columns of a paper row. */
  const Columns: set<string> := {"topic", "paper_name", "paper_authors", "published", "journal", "abstract", "fulltext", "url"}

  /** The value `paper_to_dict` stores under column `c`. */
  function ColumnValue(p: Paper, topic: Option<string>, c: string): Value {
    if c == "topic" then Str(Sanitize(topic.GetOr("")))
    else if c == "paper_name" then Str(Sanitize(p.title))
    else if c == "paper_authors" then List(SanitizedAuthors(p.authors))
    else if c == "published" then OptValue(SanitizeOpt(p.publishedDate))
    else if c == "journal" then Str(Sanitize(p.journal))
    else if c == "abstract" then OptValue(SanitizeOpt(p.abstractText))
    else if c == "fulltext" then OptValue(SanitizeOpt(p.fullText))
    else Str(Sanitize(p.url))
  }

  /**
   * `paper_to_dict(p, topic)`: the output row. Every string is sanitised; an absent
   * optional field becomes null; an absent or empty topic becomes "".
   */
  function PaperToDict(p: Paper, topic: Option<string>): (row: map<string, Value>)
    ensures row.Keys == Columns
    ensures forall c :: c in row ==> CleanValue(row[c])
  {
    ColumnValuesClean(p, topic);
    map c | c in Columns :: ColumnValue(p, topic, c)
  }

  lemma ColumnValuesClean(p: Paper, topic: Option<string>)
    ensures forall c :: CleanValue(ColumnValue(p, topic, c))
  {
  }

  /** A paper whose text is already clean is serialised without loss. */
  lemma PaperToDictLossless(p: Paper, topic: string)
    requires IsClean(p.title) && IsClean(p.url) && IsClean(p.journal) && IsClean(topic)
    requires forall i :: 0 <= i < |p.authors| ==> IsClean(p.authors[i])
    ensures PaperToDict(p, Some(topic))["paper_authors"] == List(seq(|p.authors|, i requires 0 <= i < |p.authors| => Str(p.authors[i])))
    ensures PaperToDict(p, Some(topic))["paper_name"] == Str(p.title)
    ensures PaperToDict(p, Some(topic))["url"] == Str(p.url)
    ensures PaperToDict(p, Some(topic))["journal"] == Str(p.journal)
    ensures PaperToDict(p, Some(topic))["topic"] == Str(topic)
  {
    SanitizeKeepsClean(p.title);
    SanitizeKeepsClean(p.url);
    SanitizeKeepsClean(p.journal);
    SanitizeKeepsClean(topic);
    forall i | 0 <= i < |p.authors| { SanitizeKeepsClean(p.authors[i]); }
    AuthorsUnchanged(p.authors);
  }

  lemma AuthorsUnchanged(authors: seq<string>)
    requires forall i :: 0 <= i < |authors| ==> Sanitize(authors[i]) == authors[i]
    ensures SanitizedAuthors(authors) == seq(|authors|, i requires 0 <= i < |authors| => Str(authors[i]))
  {
  }
}
