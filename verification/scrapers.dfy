/**
 * `run_scraper` (scrapers.py): the Browserbase and Bright Data results are
 * gathered topic by topic, then deduplicated on the stripped, lower-cased
 * `paper_name`. The two searches are oracles, one list of records per topic.
 */
module Scrapers {
  import opened Wrappers
  import opened Json
  import opened Text
  import opened Seqs

  type Record = map<string, Value>

  /** The papers gathered for `topics`, in order: per topic the Browserbase hits, then the Bright Data hits. */
  function Collected(topics: seq<string>, browserbase: string -> seq<Record>, brightdata: string -> seq<Record>)
    : seq<Record>
    decreases |topics|
  {
    if topics == [] then []
    else
      var t := topics[|topics| - 1];
      Collected(topics[..|topics| - 1], browserbase, brightdata) + browserbase(t) + brightdata(t)
  }

  /** Gathering over two runs of topics is gathering over each in turn. */
  lemma {:induction false} CollectedAppend(a: seq<string>, b: seq<string>,
                                           browserbase: string -> seq<Record>, brightdata: string -> seq<Record>)
    ensures Collected(a + b, browserbase, brightdata) == Collected(a, browserbase, brightdata) + Collected(b, browserbase, brightdata)
    decreases |b|
  {
    if b == [] {
      assert a + b == a;
    } else {
      var p := b[..|b| - 1];
      var t := b[|b| - 1];
      var ab := a + b;
      assert ab[..|ab| - 1] == a + p;
      assert ab[|ab| - 1] == t;
      assert Collected(ab, browserbase, brightdata) == Collected(a + p, browserbase, brightdata) + browserbase(t) + brightdata(t);
      assert Collected(b, browserbase, brightdata) == Collected(p, browserbase, brightdata) + browserbase(t) + brightdata(t);
      CollectedAppend(a, p, browserbase, brightdata);
    }
  }

  /** The first topic's hits come first, Browserbase before Bright Data, then those of the remaining topics. */
  lemma CollectedFront(t: string, rest: seq<string>, browserbase: string -> seq<Record>, brightdata: string -> seq<Record>)
    ensures Collected([t] + rest, browserbase, brightdata) == browserbase(t) + brightdata(t) + Collected(rest, browserbase, brightdata)
  {
    CollectedAppend([t], rest, browserbase, brightdata);
    assert [t][..0] == [];
  }

  /** `p.get("paper_name", "")` holds a string, so `.strip()` can be called on it. */
  predicate HasTextTitle(p: Record) {
    "paper_name" in p ==> p["paper_name"].Str?
  }

  /** Every paper's `paper_name`, where present, is a string. */
  predicate TextTitles(s: seq<Record>)
    decreases |s|
  {
    s == [] || (TextTitles(s[..|s| - 1]) && HasTextTitle(s[|s| - 1]))
  }

  lemma {:induction false} TextTitlesEach(s: seq<Record>)
    ensures TextTitles(s) <==> forall k :: 0 <= k < |s| ==> HasTextTitle(s[k])
    decreases |s|
  {
    if s != [] {
      var p := s[..|s| - 1];
      TextTitlesEach(p);
      assert forall k :: 0 <= k < |p| ==> p[k] == s[k];
    }
  }

  /** One paper without a text title spoils the whole run. */
  lemma TitleFails(s: seq<Record>, i: nat)
    requires i < |s| && !HasTextTitle(s[i])
    ensures !TextTitles(s)
  {
    TextTitlesEach(s);
  }

  lemma TextTitlesStep(s: seq<Record>, i: nat)
    requires i < |s|
    ensures TextTitles(s[..i + 1]) <==> TextTitles(s[..i]) && HasTextTitle(s[i])
  {
    assert s[..i + 1][..i] == s[..i];
  }

  /** The deduplication key: the stripped, lower-cased `paper_name`, empty when it is missing. */
  function TitleKey(p: Record): string {
    if "paper_name" in p && p["paper_name"].Str? then Lower(Strip(p["paper_name"].s)) else ""
  }

  /** The key is empty exactly when the title is missing or all whitespace. */
  lemma TitleKeyBlank(p: Record)
    requires HasTextTitle(p)
    ensures TitleKey(p) == "" <==> ("paper_name" !in p || forall i :: 0 <= i < |p["paper_name"].s| ==> IsSpace(p["paper_name"].s[i]))
  {
  }

  /** The gathering loop: `all_papers.extend(bb)` then `all_papers.extend(bd)`, topic by topic. */
  method Gather(topics: seq<string>, browserbase: string -> seq<Record>, brightdata: string -> seq<Record>)
    returns (all: seq<Record>)
    ensures all == Collected(topics, browserbase, brightdata)
  {
    all := [];
    for i := 0 to |topics|
      invariant all == Collected(topics[..i], browserbase, brightdata)
    {
      assert topics[..i + 1][..i] == topics[..i];
      var t := topics[i];
      all := all + browserbase(t);
      all := all + brightdata(t);
    }
    assert topics[..|topics|] == topics;
  }

  /**
   * `run_scraper(topics, per_topic)`: the gathered papers with the first paper
   * for every non-blank title key, in order. A `paper_name` that is not a
   * string makes `.strip()` raise, modelled as `None`.
   */
  method RunScraper(topics: seq<string>, browserbase: string -> seq<Record>, brightdata: string -> seq<Record>)
    returns (r: Option<seq<Record>>)
    ensures r.None? <==> !TextTitles(Collected(topics, browserbase, brightdata))
    ensures r.Some? ==> r.value == Unique(Collected(topics, browserbase, brightdata), TitleKey)
  {
    var all := Gather(topics, browserbase, brightdata);
    var seen: set<string> := {};
    var unique: seq<Record> := [];
    for i := 0 to |all|
      invariant unique == Unique(all[..i], TitleKey)
      invariant seen == KeysOf(unique, TitleKey)
      invariant TextTitles(all[..i])
    {
      var p := all[i];
      if !HasTextTitle(p) {
        TitleFails(all, i);
        return None;
      }
      UniqueStep(all, i, TitleKey, unique, seen);
      TextTitlesStep(all, i);
      var key := TitleKey(p);
      if key != "" && key !in seen {
        seen := seen + {key};
        unique := unique + [p];
      }
    }
    assert all[..|all|] == all;
    return Some(unique);
  }

  /**
   * What the deduplication keeps: an order-preserving subsequence holding the
   * first paper for each title key, every non-blank key of the input, no blank
   * key and no key twice.
   */
  lemma RunScraperProperties(all: seq<Record>)
    ensures var unique := Unique(all, TitleKey);
      && IsSubseq(unique, all)
      && unique == FirstOccurrences(all, TitleKey)
      && KeysOf(unique, TitleKey) == NonEmptyKeysOf(all, TitleKey)
      && (forall i, j :: 0 <= i < j < |unique| ==> TitleKey(unique[i]) != TitleKey(unique[j]))
      && (forall k :: 0 <= k < |unique| ==> TitleKey(unique[k]) != "")
  {
    var unique := Unique(all, TitleKey);
    UniqueSubseq(all, TitleKey);
    UniqueIsFirstOccurrences(all, TitleKey);
    UniqueKeys(all, TitleKey);
    UniqueDistinct(all, TitleKey);
    forall k | 0 <= k < |unique| ensures TitleKey(unique[k]) != "" {
      assert TitleKey(unique[k]) in KeysOf(unique, TitleKey);
    }
  }

  /** A paper whose title is missing or blank is never kept. */
  lemma BlankTitleDropped(all: seq<Record>, p: Record)
    requires "paper_name" !in p || (p["paper_name"].Str? && forall i :: 0 <= i < |p["paper_name"].s| ==> IsSpace(p["paper_name"].s[i]))
    ensures p !in Unique(all, TitleKey)
  {
    RunScraperProperties(all);
    TitleKeyBlank(p);
  }
}
