/**
 * URL rewriting in research_harness.py: arXiv abstract page to PDF, the bioRxiv
 * `.full.pdf` address and the `http` to `https` upgrade.
 */
module Urls {
  import opened Wrappers
  import opened Text

  /** A character of `[^?#]`: anything but the start of a query or fragment. */
  predicate IsIdChar(c: char) {
    c != '?' && c != '#'
  }

  /**
   * The pattern `arxiv\.org/(?:abs|pdf)/([^?#]+)`, matched case-insensitively,
   * starts at position `i` of `s`.
   */
  predicate MatchAt(s: string, i: nat) {
    i + 14 < |s|
    && (Lower(s[i..i + 14]) == "arxiv.org/abs/" || Lower(s[i..i + 14]) == "arxiv.org/pdf/")
    && IsIdChar(s[i + 14])
  }

  /** Where `re.search` finds the pattern: the leftmost match at or after `from`. */
  function FirstMatch(s: string, from: nat): (r: Option<nat>)
    ensures r.Some? ==> from <= r.value && MatchAt(s, r.value)
    ensures r.Some? ==> forall j :: from <= j < r.value ==> !MatchAt(s, j)
    ensures r.None? ==> forall j :: from <= j ==> !MatchAt(s, j)
    decreases |s| - from
  {
    if from + 14 >= |s| then None
    else if MatchAt(s, from) then Some(from)
    else FirstMatch(s, from + 1)
  }

  /** End of the greedy run `[^?#]+` that starts at `i`. */
  function RunEnd(s: string, i: nat): (e: nat)
    requires i <= |s|
    ensures i <= e <= |s|
    ensures forall k :: i <= k < e ==> IsIdChar(s[k])
    ensures e == |s| || !IsIdChar(s[e])
    decreases |s| - i
  {
    if i < |s| && IsIdChar(s[i]) then RunEnd(s, i + 1) else i
  }

  /** The paper id taken from the captured group: stripped, trailing slashes and `.pdf` removed, stripped again. */
  function PdfId(group: string): (pid: string)
    ensures forall c :: c in pid ==> c in group
  {
    var a := Strip(group);
    var b := RStripChar(a, '/');
    RStripCharPrefix(a, '/');
    assert forall c :: c in b ==> c in a;
    Strip(RemoveAll(b, ".pdf"))
  }

  const PdfBase := "https://arxiv.org/pdf/"

  /** The address `_arxiv_abs_url_to_pdf_url` builds from a paper id. */
  function PdfLink(pid: string): string {
    PdfBase + pid + ".pdf"
  }

  /** A PDF link has the fixed base, the `.pdf` suffix and no query or fragment. */
  predicate IsPdfLink(u: string) {
    |u| > |PdfBase| + 4 && u[..|PdfBase|] == PdfBase && EndsWith(u, ".pdf")
    && forall k :: 0 <= k < |u| ==> IsIdChar(u[k])
  }

  lemma PdfLinkShape(pid: string)
    requires pid != [] && forall c :: c in pid ==> IsIdChar(c)
    ensures IsPdfLink(PdfLink(pid))
  {
    var u := PdfLink(pid);
    assert u == PdfBase + pid + ".pdf";
    forall k | 0 <= k < |u| ensures IsIdChar(u[k]) {
      if k < |PdfBase| {
        assert u[k] == PdfBase[k];
      } else if k < |u| - 4 {
        assert u[k] == pid[k - |PdfBase|];
      } else {
        assert u[k] == ".pdf"[k - |u| + 4];
      }
    }
  }

  /** `_arxiv_abs_url_to_pdf_url`: the canonical PDF address for an arXiv abstract or PDF link. */
  function AbsToPdf(url: string): (r: Option<string>)
    ensures !Contains(url, "arxiv.org") ==> r.None?
    ensures FirstMatch(url, 0).None? ==> r.None?
    ensures r.Some? ==> IsPdfLink(r.value)
  {
    if !Contains(url, "arxiv.org") then None
    else match FirstMatch(url, 0)
      case None => None
      case Some(i) =>
        var group := url[i + 14..RunEnd(url, i + 14)];
        var pid := PdfId(group);
        if pid == [] then None
        else
          assert forall c :: c in group ==> IsIdChar(c);
          PdfLinkShape(pid);
          Some(PdfLink(pid))
  }

  /** A modern or old-style arXiv id as it appears in a clean abstract link. */
  predicate CanonicalId(id: string) {
    id != []
    && (forall k :: 0 <= k < |id| ==> IsIdChar(id[k]))
    && NoEdgeSpace(id)
    && id[|id| - 1] != '/'
    && !Contains(id, ".pdf")
  }

  lemma {:induction false} FirstMatchAt(s: string, from: nat, i: nat)
    requires from <= i && MatchAt(s, i)
    requires forall j :: from <= j < i ==> !MatchAt(s, j)
    ensures FirstMatch(s, from) == Some(i)
    decreases i - from
  {
    if from < i {
      FirstMatchAt(s, from + 1, i);
    }
  }

  lemma {:induction false} RunEndAll(s: string, i: nat)
    requires i <= |s|
    requires forall k :: i <= k < |s| ==> IsIdChar(s[k])
    ensures RunEnd(s, i) == |s|
    decreases |s| - i
  {
    if i < |s| {
      RunEndAll(s, i + 1);
    }
  }

  lemma PdfIdCanonical(id: string)
    requires CanonicalId(id)
    ensures PdfId(id) == id
  {
    StripOfStripped(id);
    RStripCharPrefix(id, '/');
    RemoveAllAbsent(id, ".pdf");
  }

  /** The captured group of a clean link `https://arxiv.org/<kind>/<rest>` is `<rest>`. */
  lemma MatchOfCleanLink(s: string, kind: string, rest: string)
    requires kind == "abs" || kind == "pdf"
    requires rest != [] && forall k :: 0 <= k < |rest| ==> IsIdChar(rest[k])
    requires s == "https://arxiv.org/" + kind + "/" + rest
    ensures Contains(s, "arxiv.org") && FirstMatch(s, 0) == Some(8) && s[22..RunEnd(s, 22)] == rest
  {
    CleanLinkMatchAt(s, kind, rest);
    NoMatchInScheme(s);
    FirstMatchAt(s, 0, 8);
    RunEndAll(s, 22);
  }

  /** The pattern matches a clean link right after `https://`, and its group starts at 22. */
  lemma CleanLinkMatchAt(s: string, kind: string, rest: string)
    requires kind == "abs" || kind == "pdf"
    requires rest != [] && forall k :: 0 <= k < |rest| ==> IsIdChar(rest[k])
    requires s == "https://arxiv.org/" + kind + "/" + rest
    ensures Contains(s, "arxiv.org") && MatchAt(s, 8)
    ensures s[..8] == "https://" && s[22..] == rest
  {
    var head := "https://arxiv.org/" + kind + "/";
    assert |head| == 22;
    assert s[..22] == head && s[22..] == rest;
    assert s[..8] == head[..8];
    assert s[8..17] == head[8..17] == "arxiv.org";
    ContainsAt(s, "arxiv.org", 8);
    assert s[8..22] == head[8..22];
    LowerOfPath(kind);
    assert s[22] == rest[0];
  }

  lemma LowerOfPath(kind: string)
    requires kind == "abs" || kind == "pdf"
    ensures Lower(("https://arxiv.org/" + kind + "/")[8..22]) == "arxiv.org/" + kind + "/"
  {
    var t := "arxiv.org/" + kind + "/";
    var head := "https://arxiv.org/" + kind + "/";
    assert head == "https://" + t;
    assert head[8..22] == t;
    LowerNoCapitals(t);
  }

  /** Nothing in `https://` starts a match: none of its characters folds to `a`. */
  lemma NoMatchInScheme(s: string)
    requires |s| >= 8 && s[..8] == "https://"
    ensures forall j :: 0 <= j < 8 ==> !MatchAt(s, j)
  {
    forall j | 0 <= j < 8 && j + 14 < |s| ensures !MatchAt(s, j) {
      assert s[j] == s[..8][j];
      assert Lower(s[j..j + 14])[0] == LowerChar(s[j]);
    }
  }

  /** A clean abstract link maps to the PDF link of the same id. */
  lemma AbsToPdfCanonical(id: string)
    requires CanonicalId(id)
    ensures AbsToPdf("https://arxiv.org/abs/" + id) == Some(PdfLink(id))
  {
    MatchOfCleanLink("https://arxiv.org/abs/" + id, "abs", id);
    PdfIdCanonical(id);
  }

  /** Removing `t` from `s + t` gives `s` back when `s` never contains `t` and `t`'s first character does not recur in it. */
  lemma {:induction false} RemoveAllSuffix(s: string, t: string)
    requires t != [] && forall k :: 1 <= k < |t| ==> t[k] != t[0]
    requires !Contains(s, t)
    ensures RemoveAll(s + t, t) == s
    decreases |s|
  {
    if s == [] {
      assert t[|t|..] == [];
      assert [] + t == t;
    } else {
      assert !(t <= s + t) by {
        if |s| < |t| {
          assert (s + t)[|s|] == t[0];
        } else {
          assert s[..|t|] == (s + t)[..|t|];
        }
      }
      assert (s + t)[1..] == s[1..] + t;
      RemoveAllSuffix(s[1..], t);
      assert s == [s[0]] + s[1..];
    }
  }

  /** The id extracted from `<id>.pdf` is `<id>`. */
  lemma PdfIdOfPdfGroup(id: string)
    requires CanonicalId(id)
    ensures PdfId(id + ".pdf") == id
  {
    var rest := id + ".pdf";
    assert NoEdgeSpace(rest) by { assert rest[0] == id[0]; }
    StripOfStripped(rest);
    RStripCharPrefix(rest, '/');
    RemoveAllSuffix(id, ".pdf");
    StripOfStripped(id);
  }

  /** A clean PDF link maps to itself: the conversion leaves canonical PDF links alone. */
  lemma PdfLinkFixed(id: string)
    requires CanonicalId(id)
    ensures AbsToPdf(PdfLink(id)) == Some(PdfLink(id))
  {
    var rest := id + ".pdf";
    forall k | 0 <= k < |rest| ensures IsIdChar(rest[k]) {
      if k < |id| { assert rest[k] == id[k]; }
    }
    assert PdfLink(id) == "https://arxiv.org/" + "pdf" + "/" + rest;
    MatchOfCleanLink(PdfLink(id), "pdf", rest);
    PdfIdOfPdfGroup(id);
  }

  /** The `http://` to `https://` upgrade applied before a PDF download. */
  function UpgradeToHttps(u: string): (r: string)
    ensures !("http://" <= r)
    ensures !("http://" <= u) ==> r == u
    ensures "http://" <= u ==> r == "https://" + u[7..]
  {
    if "http://" <= u then
      var r := "https://" + u[7..];
      assert r[4] == 's';
      r
    else u
  }

  /** PDF links are already `https`: the upgrade leaves them alone. */
  lemma PdfLinkIsHttps(pid: string)
    ensures UpgradeToHttps(PdfLink(pid)) == PdfLink(pid)
  {
    var u := PdfLink(pid);
    assert u[4] == 's';
  }

  /** The bioRxiv full-PDF address: the page URL without trailing slashes, plus `.full.pdf`. */
  function BiorxivPdfUrl(url: string): (r: string)
    ensures EndsWith(r, ".full.pdf")
    ensures r == RStripChar(url, '/') + ".full.pdf"
  {
    RStripChar(url, '/') + ".full.pdf"
  }

  /** Trailing slashes on the page URL do not change the PDF address. */
  lemma BiorxivPdfUrlSlash(url: string)
    ensures BiorxivPdfUrl(url + "/") == BiorxivPdfUrl(url)
  {
    assert (url + "/")[..|url|] == url;
  }
}
