/**
 * `run_harness` (research_harness.py): merge the three candidate lists by URL,
 * apply the recency filter, the date sort and the LLM ranker, then fetch full
 * text for the arXiv and bioRxiv papers that are left. The per-source fetchers
 * are modelled in Arxiv and Web; here their results are inputs (a fetcher that
 * raised contributes an empty list, as the source's handlers arrange).
 */
module Harness {
  import opened Wrappers
  import opened Seqs
  import opened Json
  import opened Papers
  import opened FullText
  import opened Fences
  import opened Ranking

  /** The merge loop: the first paper for every non-empty URL, over arXiv, then bioRxiv, then internet. */
  method MergeCandidates(arxiv: seq<Paper>, biorxiv: seq<Paper>, internet: seq<Paper>) returns (all: seq<Paper>)
    ensures all == Unique(arxiv + biorxiv + internet, UrlOf)
  {
    var combined := arxiv + biorxiv + internet;
    var seenUrls: set<string> := {};
    all := [];
    for i := 0 to |combined|
      invariant all == Unique(combined[..i], UrlOf)
      invariant seenUrls == KeysOf(all, UrlOf)
    {
      UniqueStep(combined, i, UrlOf, all, seenUrls);
      var p := combined[i];
      if p.url != "" && p.url !in seenUrls {
        seenUrls := seenUrls + {p.url};
        all := all + [p];
      }
    }
    assert combined[..|combined|] == combined;
  }

  /**
   * What the merge keeps: the input order, the first paper for each URL, every
   * non-empty URL of the input, no empty URL and no URL twice.
   */
  lemma MergeCandidatesProperties(arxiv: seq<Paper>, biorxiv: seq<Paper>, internet: seq<Paper>)
    ensures var all := Unique(arxiv + biorxiv + internet, UrlOf);
      && IsSubseq(all, arxiv + biorxiv + internet)
      && all == FirstOccurrences(arxiv + biorxiv + internet, UrlOf)
      && KeysOf(all, UrlOf) == NonEmptyKeysOf(arxiv + biorxiv + internet, UrlOf)
      && DistinctUrls(all)
      && forall k :: 0 <= k < |all| ==> all[k].url != ""
  {
    var s := arxiv + biorxiv + internet;
    var all := Unique(s, UrlOf);
    UniqueSubseq(s, UrlOf);
    UniqueIsFirstOccurrences(s, UrlOf);
    UniqueKeys(s, UrlOf);
    UniqueDistinct(s, UrlOf);
    forall k | 0 <= k < |all| ensures all[k].url != "" {
      assert UrlOf(all[k]) in KeysOf(all, UrlOf);
    }
  }

  /** Every arXiv paper with a URL is kept: arXiv comes first, so its first paper for a URL wins over the other sources. */
  lemma MergeKeepsArxivFirst(arxiv: seq<Paper>, biorxiv: seq<Paper>, internet: seq<Paper>, j: nat)
    requires j < |arxiv| && IsFirst(arxiv, UrlOf, j)
    ensures arxiv[j] in Unique(arxiv + biorxiv + internet, UrlOf)
  {
    var s := arxiv + biorxiv + internet;
    UniqueIsFirstOccurrences(s, UrlOf);
    assert s[..j + 1] == arxiv[..j + 1];
    assert IsFirst(s, UrlOf, j) by {
      forall k | 0 <= k < j ensures UrlOf(s[k]) != UrlOf(s[j]) {
        assert s[k] == arxiv[k];
      }
    }
    FirstOccurrencesHas(s, UrlOf, j);
  }

  lemma {:induction false} FirstOccurrencesHas<T>(s: seq<T>, key: T -> string, j: nat)
    requires j < |s| && IsFirst(s, key, j)
    ensures s[j] in FirstOccurrences(s, key)
    decreases |s|
  {
    var p := s[..|s| - 1];
    if j < |s| - 1 {
      assert IsFirst(p, key, j) by {
        forall k | 0 <= k < j ensures key(p[k]) != key(p[j]) {
          assert p[k] == s[k];
        }
      }
      FirstOccurrencesHas(p, key, j);
    }
  }

  /** The per-source dispatch of the full-text pass. */
  function FullTextFor(p: Paper, fetch: string -> Download, extract: seq<bv8> -> Option<string>): (r: Paper)
    ensures p.source == Internet ==> r == p
    ensures r == p || FullTextAdded(p, r)
  {
    if p.source == Arxiv then FetchArxivFullText(p, fetch, extract)
    else if p.source == Biorxiv then FetchBiorxivFullText(p, fetch, extract)
    else p
  }

  /** The full-text pass: every entry is replaced in place by its enriched copy. */
  method FullTextPass(papers: seq<Paper>, fetch: string -> Download, extract: seq<bv8> -> Option<string>)
    returns (r: seq<Paper>)
    ensures |r| == |papers|
    ensures forall i :: 0 <= i < |r| ==> r[i] == FullTextFor(papers[i], fetch, extract)
    ensures forall i :: 0 <= i < |r| ==> r[i] == papers[i] || (papers[i].source != Internet && FullTextAdded(papers[i], r[i]))
  {
    r := papers;
    for i := 0 to |r|
      invariant |r| == |papers|
      invariant forall k :: 0 <= k < i ==> r[k] == FullTextFor(papers[k], fetch, extract)
      invariant forall k :: i <= k < |r| ==> r[k] == papers[k]
    {
      var p := r[i];
      if p.source == Arxiv {
        r := r[i := FetchArxivFullText(p, fetch, extract)];
      } else if p.source == Biorxiv {
        r := r[i := FetchBiorxivFullText(p, fetch, extract)];
      }
    }
  }

  /** The list `run_harness` ranks: merged, filtered for recency when a limit is set, newest first. */
  function Candidates(arxiv: seq<Paper>, biorxiv: seq<Paper>, internet: seq<Paper>, maxAgeMonths: int, cutoff: string)
    : seq<Paper>
  {
    ByDate(RecencyFilter(Unique(arxiv + biorxiv + internet, UrlOf), maxAgeMonths, cutoff))
  }

  /**
   * The list `_filter_papers_with_llm` returns inside `run_harness`: the merged
   * candidates, recency-filtered and date-sorted, ranked. `SKIP_BROWSERBASE`
   * empties the bioRxiv and internet lists.
   */
  function Ranked(arxiv: seq<Paper>, biorxiv: seq<Paper>, internet: seq<Paper>, skipBrowserbase: bool,
                  maxAgeMonths: int, cutoff: string, topK: int,
                  apiKey: Option<string>, reply: Option<string>, parse: string -> Option<Value>,
                  scope: OpeningScope): seq<Paper>
  {
    RankWithLlm(Candidates(arxiv, if skipBrowserbase then [] else biorxiv,
                           if skipBrowserbase then [] else internet, maxAgeMonths, cutoff),
                topK, apiKey, reply, parse, scope)
  }

  /** What `run_harness` returns: the ranked list with the full-text pass applied to each entry. */
  function HarnessResult(arxiv: seq<Paper>, biorxiv: seq<Paper>, internet: seq<Paper>, skipBrowserbase: bool,
                         maxAgeMonths: int, cutoff: string, topK: int,
                         apiKey: Option<string>, reply: Option<string>, parse: string -> Option<Value>,
                         scope: OpeningScope, fetch: string -> Download, extract: seq<bv8> -> Option<string>)
    : seq<Paper>
  {
    var ranked := Ranked(arxiv, biorxiv, internet, skipBrowserbase, maxAgeMonths, cutoff, topK, apiKey, reply, parse, scope);
    seq(|ranked|, i requires 0 <= i < |ranked| => FullTextFor(ranked[i], fetch, extract))
  }

  /**
   * `run_harness(prompt, candidate_count, top_k, max_age_months)` after collection:
   * `skipBrowserbase` is SKIP_BROWSERBASE; the LLM ranker's inputs and the PDF
   * oracles are passed through. `scope` is how far the ranker's fence repair
   * reaches: `FirstLine` is the code as written, `AnyLine` the corrected repair.
   */
  method RunHarness(arxiv: seq<Paper>, biorxiv: seq<Paper>, internet: seq<Paper>, skipBrowserbase: bool,
                    maxAgeMonths: int, cutoff: string, topK: int,
                    apiKey: Option<string>, reply: Option<string>, parse: string -> Option<Value>,
                    scope: OpeningScope, fetch: string -> Download, extract: seq<bv8> -> Option<string>)
    returns (result: seq<Paper>)
    ensures result == HarnessResult(arxiv, biorxiv, internet, skipBrowserbase, maxAgeMonths, cutoff, topK,
                                    apiKey, reply, parse, scope, fetch, extract)
  {
    var b := if skipBrowserbase then [] else biorxiv;
    var n := if skipBrowserbase then [] else internet;
    var all := MergeCandidates(arxiv, b, n);
    if maxAgeMonths > 0 {
      all := FilterRecency(all, maxAgeMonths, cutoff);
    }
    all := SortPapersByDate(all);
    all := RankWithLlm(all, topK, apiKey, reply, parse, scope);
    result := FullTextPass(all, fetch, extract);
  }

  /**
   * What `run_harness` returns, for either fence repair: at most `topK` papers
   * (none when `topK` is not positive); entry `i` is the `i`-th ranked paper,
   * unchanged or with its full text added; each ranked paper is a merged
   * candidate with a URL, and with the date limit on it is recent.
   */
  lemma RunHarnessBounds(arxiv: seq<Paper>, biorxiv: seq<Paper>, internet: seq<Paper>, skipBrowserbase: bool,
                         maxAgeMonths: int, cutoff: string, topK: int,
                         apiKey: Option<string>, reply: Option<string>, parse: string -> Option<Value>,
                         scope: OpeningScope, fetch: string -> Download, extract: seq<bv8> -> Option<string>)
    ensures var ranked := Ranked(arxiv, biorxiv, internet, skipBrowserbase, maxAgeMonths, cutoff, topK,
                                 apiKey, reply, parse, scope);
      var r := HarnessResult(arxiv, biorxiv, internet, skipBrowserbase, maxAgeMonths, cutoff, topK,
                             apiKey, reply, parse, scope, fetch, extract);
      var b := if skipBrowserbase then [] else biorxiv;
      var n := if skipBrowserbase then [] else internet;
      && |r| == |ranked|
      && (topK <= 0 ==> r == [])
      && (0 < topK ==> |r| <= topK)
      && forall i :: 0 <= i < |r| ==>
           && (r[i] == ranked[i] || FullTextAdded(ranked[i], r[i]))
           && ranked[i] in Unique(arxiv + b + n, UrlOf)
           && r[i].url != ""
           && (maxAgeMonths > 0 ==> Recent(r[i], cutoff))
  {
    var b := if skipBrowserbase then [] else biorxiv;
    var n := if skipBrowserbase then [] else internet;
    var ranked := Ranked(arxiv, biorxiv, internet, skipBrowserbase, maxAgeMonths, cutoff, topK,
                         apiKey, reply, parse, scope);
    var r := HarnessResult(arxiv, biorxiv, internet, skipBrowserbase, maxAgeMonths, cutoff, topK,
                           apiKey, reply, parse, scope, fetch, extract);
    forall i | 0 <= i < |r|
      ensures ranked[i] in Unique(arxiv + b + n, UrlOf)
      ensures r[i].url != ""
      ensures maxAgeMonths > 0 ==> Recent(r[i], cutoff)
    {
      var p := ranked[i];
      var merged := Unique(arxiv + b + n, UrlOf);
      var recent := RecencyFilter(merged, maxAgeMonths, cutoff);
      ByDateMember(recent, p);
      RecentMember(merged, maxAgeMonths, cutoff, p);
      MergedMember(arxiv, b, n, p);
    }
  }

  lemma ByDateMember(papers: seq<Paper>, p: Paper)
    requires p in ByDate(papers)
    ensures p in papers
  {
    ByDatePermutation(papers);
    assert p in multiset(ByDate(papers));
  }

  lemma RecentMember(papers: seq<Paper>, maxAgeMonths: int, cutoff: string, p: Paper)
    requires p in RecencyFilter(papers, maxAgeMonths, cutoff)
    ensures p in papers
    ensures maxAgeMonths > 0 ==> Recent(p, cutoff)
  {
    if maxAgeMonths > 0 {
      RecencyFilterKeeps(papers, maxAgeMonths, cutoff);
      SubseqMembers(RecencyFilter(papers, maxAgeMonths, cutoff), papers);
    }
  }

  lemma MergedMember(arxiv: seq<Paper>, biorxiv: seq<Paper>, internet: seq<Paper>, p: Paper)
    requires p in Unique(arxiv + biorxiv + internet, UrlOf)
    ensures p.url != ""
  {
    MergeCandidatesProperties(arxiv, biorxiv, internet);
  }
}
