/**
 * Ranking of the candidate list (research_harness.py): the recency filter, the
 * newest-first sort, and the LLM ranker with its fallbacks around the URL list
 * the model replies with. Dates are the ISO strings the adapters store and are
 * compared as strings, as the source does; the clock gives the cutoff, which is
 * a parameter here.
 */
module Ranking {
  import opened Wrappers
  import opened Text
  import opened Seqs
  import opened Sorting
  import opened Json
  import opened Papers
  import opened Fences

  // ---- _filter_recency ----

  /** Kept by the recency filter: no date, or a date string at or after the cutoff. */
  predicate Recent(p: Paper, cutoff: string) {
    !Present(p.publishedDate) || StrGe(p.publishedDate.value, cutoff)
  }

  function RecentFn(cutoff: string): Paper -> bool {
    p => Recent(p, cutoff)
  }

  /** What `_filter_recency` returns: the list itself when the limit is off, else the recent papers in order. */
  function RecencyFilter(papers: seq<Paper>, maxAgeMonths: int, cutoff: string): (r: seq<Paper>)
    ensures |r| <= |papers|
  {
    if maxAgeMonths <= 0 then papers else Filter(papers, RecentFn(cutoff))
  }

  /** `_filter_recency(papers, max_age_months)` with the cutoff date passed in. */
  method FilterRecency(papers: seq<Paper>, maxAgeMonths: int, cutoff: string) returns (kept: seq<Paper>)
    ensures kept == RecencyFilter(papers, maxAgeMonths, cutoff)
  {
    if maxAgeMonths <= 0 {
      return papers;
    }
    kept := [];
    var dropped: seq<Paper> := [];
    for i := 0 to |papers|
      invariant kept == Filter(papers[..i], RecentFn(cutoff))
    {
      RecentStep(papers, i, cutoff);
      var p := papers[i];
      if Present(p.publishedDate) && StrGe(p.publishedDate.value, cutoff) {
        kept := kept + [p];
      } else if Present(p.publishedDate) {
        dropped := dropped + [p];
      } else {
        kept := kept + [p];
      }
    }
    assert papers[..|papers|] == papers;
  }

  lemma RecentStep(papers: seq<Paper>, i: nat, cutoff: string)
    requires i < |papers|
    ensures Filter(papers[..i + 1], RecentFn(cutoff))
      == Filter(papers[..i], RecentFn(cutoff)) + (if Recent(papers[i], cutoff) then [papers[i]] else [])
  {
    FilterStep(papers, i, RecentFn(cutoff));
  }

  /**
   * With the limit on, the result keeps the input order and holds exactly the
   * undated papers and the papers dated at or after the cutoff.
   */
  lemma RecencyFilterKeeps(papers: seq<Paper>, maxAgeMonths: int, cutoff: string)
    requires maxAgeMonths > 0
    ensures IsSubseq(RecencyFilter(papers, maxAgeMonths, cutoff), papers)
    ensures forall p :: p in papers ==> (p in RecencyFilter(papers, maxAgeMonths, cutoff) <==> Recent(p, cutoff))
  {
    FilterSubseq(papers, RecentFn(cutoff));
    forall p | p in papers && Recent(p, cutoff)
      ensures p in RecencyFilter(papers, maxAgeMonths, cutoff)
    {
      FilterKeeps(papers, RecentFn(cutoff), p);
    }
  }

  // ---- _sort_papers_by_date ----

  predicate Dated(p: Paper) {
    Present(p.publishedDate)
  }

  predicate Undated(p: Paper) {
    !Present(p.publishedDate)
  }

  /** The sort key, `p.published_date or ""`. */
  function DateKey(p: Paper): string {
    p.publishedDate.GetOr("")
  }

  /** Dated with date `d`. */
  function DatedOn(d: string): Paper -> bool {
    p => Dated(p) && DateKey(p) == d
  }

  function KeyIs(d: string): Paper -> bool {
    p => DateKey(p) == d
  }

  /** What `_sort_papers_by_date` returns: the dated papers newest first (stably), then the undated ones. */
  function ByDate(papers: seq<Paper>): (r: seq<Paper>)
    ensures |r| == |Filter(papers, Dated)| + |Filter(papers, Undated)|
  {
    SortDesc(Filter(papers, Dated), DateKey, StrGe) + Filter(papers, Undated)
  }

  /** `_sort_papers_by_date(papers)`: partition by date presence, sort the dated part, concatenate. */
  method SortPapersByDate(papers: seq<Paper>) returns (result: seq<Paper>)
    ensures result == ByDate(papers)
  {
    var withDate: seq<Paper> := [];
    var withoutDate: seq<Paper> := [];
    for i := 0 to |papers|
      invariant withDate == Filter(papers[..i], Dated)
      invariant withoutDate == Filter(papers[..i], Undated)
    {
      FilterStep(papers, i, Dated);
      FilterStep(papers, i, Undated);
      var p := papers[i];
      if Present(p.publishedDate) {
        withDate := withDate + [p];
      } else {
        withoutDate := withoutDate + [p];
      }
    }
    assert papers[..|papers|] == papers;
    withDate := SortDesc(withDate, DateKey, StrGe);
    result := withDate + withoutDate;
  }

  /** String `>=` is a total preorder, so the descending sort's guarantees apply. */
  lemma StrGeIsTotalPreorder()
    ensures TotalPreorder(StrGe)
    ensures forall a, b :: StrGe(a, b) && StrGe(b, a) <==> a == b
  {
    StrGeTotalOrder();
    forall a ensures StrGe(a, a) {
      StrLtIrreflexive(a);
    }
  }

  /** The sorted dated part holds only dated papers. */
  lemma SortedPartDated(papers: seq<Paper>)
    ensures forall p :: p in SortDesc(Filter(papers, Dated), DateKey, StrGe) ==> Dated(p)
  {
    var f := Filter(papers, Dated);
    SortDescPermutation(f, DateKey, StrGe);
    forall p | p in SortDesc(f, DateKey, StrGe) ensures Dated(p) {
      assert p in multiset(SortDesc(f, DateKey, StrGe));
      assert p in multiset(f);
    }
  }

  /** Sorting by date neither loses nor adds a paper. */
  lemma ByDatePermutation(papers: seq<Paper>)
    ensures multiset(ByDate(papers)) == multiset(papers)
  {
    SortDescPermutation(Filter(papers, Dated), DateKey, StrGe);
    FilterSplit(papers, Dated, Undated);
  }

  /** The sorted dated part fills the front of the result; the undated part fills the rest. */
  lemma ByDateParts(papers: seq<Paper>)
    ensures forall k :: 0 <= k < |Filter(papers, Dated)| ==> Dated(ByDate(papers)[k])
    ensures forall k :: |Filter(papers, Dated)| <= k < |ByDate(papers)| ==> Undated(ByDate(papers)[k])
  {
    var a := SortDesc(Filter(papers, Dated), DateKey, StrGe);
    var b := Filter(papers, Undated);
    var r := ByDate(papers);
    SortedPartDated(papers);
    forall k | 0 <= k < |a| ensures Dated(r[k]) {
      assert r[k] == a[k];
    }
    forall k | |a| <= k < |r| ensures Undated(r[k]) {
      assert r[k] == b[k - |a|];
    }
  }

  /** Every dated paper comes before every undated one. */
  lemma ByDateDatedFirst(papers: seq<Paper>)
    ensures forall i, j :: 0 <= i < j < |ByDate(papers)| && Dated(ByDate(papers)[j]) ==> Dated(ByDate(papers)[i])
  {
    ByDateParts(papers);
  }

  /** Dated papers are ordered newest first, by string comparison of their dates. */
  lemma ByDateNewestFirst(papers: seq<Paper>)
    ensures forall i, j :: 0 <= i < j < |ByDate(papers)| && Dated(ByDate(papers)[j]) ==>
      Dated(ByDate(papers)[i]) && StrGe(ByDate(papers)[i].publishedDate.value, ByDate(papers)[j].publishedDate.value)
  {
    var a := SortDesc(Filter(papers, Dated), DateKey, StrGe);
    var r := ByDate(papers);
    StrGeIsTotalPreorder();
    SortDescSorted(Filter(papers, Dated), DateKey, StrGe);
    ByDateParts(papers);
    forall i, j | 0 <= i < j < |r| && Dated(r[j])
      ensures Dated(r[i]) && StrGe(r[i].publishedDate.value, r[j].publishedDate.value)
    {
      assert j < |a|;
      assert r[i] == a[i] && r[j] == a[j];
    }
  }

  /** With string `>=`, the elements with a key equivalent to `d` are those whose key is `d`. */
  lemma {:induction false} WithKeyIsFilter(s: seq<Paper>, d: string)
    ensures WithKey(s, DateKey, StrGe, d) == Filter(s, KeyIs(d))
    decreases |s|
  {
    if s != [] {
      StrGeIsTotalPreorder();
      WithKeyIsFilter(s[..|s| - 1], d);
    }
  }

  /** Papers sharing a date keep their input order; so do the undated papers. */
  lemma ByDateStable(papers: seq<Paper>, d: string)
    ensures Filter(ByDate(papers), DatedOn(d)) == Filter(papers, DatedOn(d))
    ensures Filter(ByDate(papers), Undated) == Filter(papers, Undated)
  {
    var f := Filter(papers, Dated);
    var a := SortDesc(f, DateKey, StrGe);
    var b := Filter(papers, Undated);
    SortedPartDated(papers);
    FilterConcat(a, b, DatedOn(d));
    FilterConcat(a, b, Undated);
    FilterNone(b, DatedOn(d));
    FilterNone(a, Undated);
    FilterFilter(papers, Undated, Undated, Undated);
    // the dated part: stability of the sort, read through the key
    FilterExt(a, DatedOn(d), KeyIs(d));
    StrGeIsTotalPreorder();
    SortDescStable(f, DateKey, StrGe, d);
    WithKeyIsFilter(a, d);
    WithKeyIsFilter(f, d);
    FilterFilter(papers, Dated, KeyIs(d), DatedOn(d));
  }

  // ---- _filter_papers_with_llm ----

  /** `[u for u in urls if isinstance(u, str) and u.strip()]` */
  function UrlOrder(items: seq<Value>): (r: seq<string>)
    ensures |r| <= |items|
    ensures forall i :: 0 <= i < |r| ==> Strip(r[i]) != "" && Str(r[i]) in items
    decreases |items|
  {
    if items == [] then []
    else
      var v := items[|items| - 1];
      UrlOrder(items[..|items| - 1]) + (if v.Str? && Strip(v.s) != "" then [v.s] else [])
  }

  /** An item of the reply the ranker uses: a string that is not blank. */
  predicate UsableUrl(v: Value) {
    v.Str? && Strip(v.s) != ""
  }

  /** The URLs are exactly the usable items of the reply, in the reply's order. */
  lemma {:induction false} UrlOrderFollowsReply(items: seq<Value>)
    ensures var kept := Filter(items, UsableUrl);
      |UrlOrder(items)| == |kept| && forall i :: 0 <= i < |kept| ==> kept[i].Str? && UrlOrder(items)[i] == kept[i].s
    decreases |items|
  {
    if items != [] {
      var pre := items[..|items| - 1];
      UrlOrderFollowsReply(pre);
      var kept := Filter(items, UsableUrl);
      var keptPre := Filter(pre, UsableUrl);
      forall i | 0 <= i < |kept| ensures kept[i].Str? && UrlOrder(items)[i] == kept[i].s {
        assert kept[i] in kept;
        if i < |keptPre| {
          assert kept[i] == keptPre[i];
        }
      }
    }
  }

  /** No usable item is dropped: every non-blank string of the reply is among the URLs. */
  lemma {:induction false} UrlOrderKeeps(items: seq<Value>, k: nat)
    requires k < |items| && UsableUrl(items[k])
    ensures items[k].s in UrlOrder(items)
    decreases |items|
  {
    if k < |items| - 1 {
      var pre := items[..|items| - 1];
      assert pre[k] == items[k];
      UrlOrderKeeps(pre, k);
    }
  }

  /** `{p.url: p for p in papers}` */
  function ByUrl(papers: seq<Paper>): (m: map<string, Paper>)
    ensures m.Keys == KeysOf(papers, UrlOf)
    ensures forall u :: u in m ==> m[u] in papers && m[u].url == u
    decreases |papers|
  {
    if papers == [] then map[]
    else
      var p := papers[|papers| - 1];
      KeysOfAppend(papers[..|papers| - 1], p, UrlOf);
      assert papers[..|papers| - 1] + [p] == papers;
      ByUrl(papers[..|papers| - 1])[p.url := p]
  }

  /** Of several papers with one URL, the map holds the last. */
  lemma {:induction false} ByUrlLastWins(papers: seq<Paper>, i: nat)
    requires i < |papers|
    requires forall j :: i < j < |papers| ==> papers[j].url != papers[i].url
    ensures papers[i].url in ByUrl(papers) && ByUrl(papers)[papers[i].url] == papers[i]
    decreases |papers|
  {
    if i < |papers| - 1 {
      ByUrlLastWins(papers[..|papers| - 1], i);
    }
  }

  function KnownIn(m: map<string, Paper>): string -> bool {
    u => u in m
  }

  /** `[by_url[u] for u in url_order if u in by_url]` */
  function Pick(order: seq<string>, m: map<string, Paper>): (r: seq<Paper>)
    ensures |r| <= |order|
    ensures forall i :: 0 <= i < |r| ==> r[i] in m.Values
    decreases |order|
  {
    if order == [] then []
    else
      var u := order[|order| - 1];
      Pick(order[..|order| - 1], m) + (if u in m then [m[u]] else [])
  }

  /** The picked papers follow the reply's order of known URLs, one paper per mention. */
  lemma {:induction false} PickFollowsOrder(order: seq<string>, m: map<string, Paper>)
    ensures |Pick(order, m)| == |Filter(order, KnownIn(m))|
    ensures forall i :: 0 <= i < |Pick(order, m)| ==>
      Filter(order, KnownIn(m))[i] in m && Pick(order, m)[i] == m[Filter(order, KnownIn(m))[i]]
    decreases |order|
  {
    if order != [] {
      PickFollowsOrder(order[..|order| - 1], m);
    }
  }

  /** The ranker's reply as the source repairs and parses it; None when parsing raises or the reply is not a list. */
  function ReplyUrls(reply: string, parse: string -> Option<Value>, scope: OpeningScope): (r: Option<seq<Value>>)
    ensures r.Some? <==> parse(RankerUnfence(reply, scope)).Some? && parse(RankerUnfence(reply, scope)).value.List?
  {
    var v := parse(RankerUnfence(reply, scope));
    if v.Some? && v.value.List? then Some(v.value.items) else None
  }

  /** `[by_url[u] for u in url_order if u in by_url][:top_k]` */
  function Picked(papers: seq<Paper>, items: seq<Value>, topK: int): (r: seq<Paper>)
    ensures 0 <= topK ==> |r| <= topK
    ensures forall p :: p in r ==> p in papers
  {
    var m := ByUrl(papers);
    var r := Take(Pick(UrlOrder(items), m), topK);
    assert forall p :: p in r ==> p in m.Values;
    r
  }

  /**
   * `_filter_papers_with_llm(topic, papers, top_k)` with the environment, the API
   * call and `json.loads` as inputs: `apiKey` is ANTHROPIC_API_KEY, `reply` the
   * reply text (None when the call raises), `parse` the JSON parser (None when it
   * raises). `scope` selects how far the fence repair reaches (see RankerUnfence).
   */
  function RankWithLlm(papers: seq<Paper>, topK: int, apiKey: Option<string>, reply: Option<string>,
                       parse: string -> Option<Value>, scope: OpeningScope): (r: seq<Paper>)
    ensures topK <= 0 ==> r == []
    ensures 0 < topK ==> |r| <= topK
    ensures forall p :: p in r ==> p in papers
    ensures 0 < topK && (Strip(apiKey.GetOr("")) == "" || reply.None?) ==> r == Take(papers, topK)
    ensures 0 < topK && reply.Some? && ReplyUrls(reply.value, parse, scope).None? ==> r == Take(papers, topK)
  {
    if papers == [] || topK <= 0 then
      (if topK > 0 then Take(papers, topK) else [])
    else if Strip(apiKey.GetOr("")) == "" || reply.None? then Take(papers, topK)
    else
      match ReplyUrls(reply.value, parse, scope)
      case None => Take(papers, topK)
      case Some(items) =>
        var filtered := Picked(papers, items, topK);
        if filtered != [] then filtered else Take(papers, topK)
  }

  /**
   * With a key and a reply that parses to a list naming a known URL, the result is
   * the first `topK` papers the reply names, in its order.
   */
  lemma RankWithLlmPicks(papers: seq<Paper>, topK: int, apiKey: string, reply: string,
                         parse: string -> Option<Value>, scope: OpeningScope, items: seq<Value>)
    requires topK > 0 && Strip(apiKey) != ""
    requires ReplyUrls(reply, parse, scope) == Some(items)
    requires Pick(UrlOrder(items), ByUrl(papers)) != []
    ensures RankWithLlm(papers, topK, Some(apiKey), Some(reply), parse, scope)
      == Take(Pick(UrlOrder(items), ByUrl(papers)), topK)
  {
    PickedSome(UrlOrder(items), papers);
  }

  /** A paper picked by URL is one of the papers, so there are some. */
  lemma PickedSome(order: seq<string>, papers: seq<Paper>)
    requires Pick(order, ByUrl(papers)) != []
    ensures papers != []
  {
    var m := ByUrl(papers);
    var p := Pick(order, m)[0];
    var u :| u in m && m[u] == p;
    assert m[u] in papers;
  }

  /** A reply that names no known URL falls back to the first `topK` papers. */
  lemma RankWithLlmNoKnownUrl(papers: seq<Paper>, topK: int, apiKey: Option<string>, reply: string,
                              parse: string -> Option<Value>, scope: OpeningScope, items: seq<Value>)
    requires topK > 0
    requires ReplyUrls(reply, parse, scope) == Some(items)
    requires Pick(UrlOrder(items), ByUrl(papers)) == []
    ensures RankWithLlm(papers, topK, apiKey, Some(reply), parse, scope) == Take(papers, topK)
  {
  }

  lemma UrlOrderTwice(u: string)
    requires Strip(u) != ""
    ensures UrlOrder([Str(u), Str(u)]) == [u, u]
  {
    UrlOrderSnoc([], Str(u));
    UrlOrderSnoc([Str(u)], Str(u));
    assert [] + [Str(u)] == [Str(u)];
    assert [Str(u)] + [Str(u)] == [Str(u), Str(u)];
  }

  lemma UrlOrderSnoc(items: seq<Value>, v: Value)
    ensures UrlOrder(items + [v]) == UrlOrder(items) + (if v.Str? && Strip(v.s) != "" then [v.s] else [])
  {
    assert (items + [v])[..|items|] == items;
  }

  lemma PickTwice(u: string, m: map<string, Paper>)
    requires u in m
    ensures Pick([u, u], m) == [m[u], m[u]]
  {
    assert Pick([u], m) == [m[u]] by {
      assert [u][..0] == [];
    }
    assert [u, u][..1] == [u];
  }

  /** A URL named twice in the reply yields its paper twice: repeated URLs are not removed. */
  lemma RankWithLlmKeepsRepeats(papers: seq<Paper>, topK: int, apiKey: string, reply: string,
                                parse: string -> Option<Value>, scope: OpeningScope, u: string)
    requires topK >= 2 && Strip(apiKey) != "" && Strip(u) != ""
    requires u in KeysOf(papers, UrlOf)
    requires ReplyUrls(reply, parse, scope) == Some([Str(u), Str(u)])
    ensures var r := RankWithLlm(papers, topK, Some(apiKey), Some(reply), parse, scope);
      |r| == 2 && r[0] == r[1] && r[0].url == u
  {
    var m := ByUrl(papers);
    UrlOrderTwice(u);
    PickTwice(u, m);
    RankWithLlmPicks(papers, topK, apiKey, reply, parse, scope, [Str(u), Str(u)]);
  }
}
