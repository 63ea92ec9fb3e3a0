/**
 * The glue of pipeline.py: the configuration merge, the rows written to the
 * `papers` and `debates` tables, and the "top 1/multiplier" cut. The Supabase
 * client, the file system, the clock and `json.dumps` are parameters.
 */
module Pipeline {
  import opened Wrappers
  import opened Json
  import opened Seqs
  import opened Sorting
  import opened Agents
  import opened Scrapers

  // ---- configuration ----

  const DefaultTopic := "mechanistic interpretability"

  /** The built-in configuration. */
  const Defaults: map<string, Value> := map["topic" := Str(DefaultTopic), "multiplier" := Int(3)]

  /**
   * `load_config()`: `file` is the object config.json holds, `None` when the
   * file does not exist. The file's values override the defaults key by key.
   */
  function LoadConfig(file: Option<map<string, Value>>): (cfg: map<string, Value>)
    ensures "topic" in cfg && "multiplier" in cfg
    ensures file.Some? ==> forall k :: k in file.value ==> k in cfg && cfg[k] == file.value[k]
    ensures forall k :: k in Defaults && (file.None? || k !in file.value) ==> k in cfg && cfg[k] == Defaults[k]
    ensures forall k :: k in cfg ==> k in Defaults || (file.Some? && k in file.value)
  {
    match file
    case None => Defaults
    case Some(f) => Defaults + f
  }

  // ---- the scrape workflow ----

  /** A row of the `papers` table, one field per column. */
  datatype PaperRow = PaperRow(topic: Value, paperName: Value, paperAuthors: Value, published: Value,
                               summary: Value, journal: Value, fulltext: Value, url: Value)

  /** One scraped paper normalised into the `papers` schema; `firstTopic` is `topics[0]`. */
  function ScrapedRow(p: Record, firstTopic: string): (row: PaperRow)
    ensures row.topic == (if "topic" in p then p["topic"] else Str(firstTopic))
    ensures row.paperName == (if "paper_name" in p then p["paper_name"] else if "title" in p then p["title"] else Str(""))
    ensures row.paperAuthors == (if "paper_authors" in p then p["paper_authors"] else if "authors" in p then p["authors"] else List([]))
    ensures row.published == (if "published" in p then p["published"] else if "date" in p then p["date"] else Null)
    ensures row.summary == (if "summary" in p then p["summary"] else if "abstract" in p then p["abstract"] else Str(""))
    ensures row.journal == (if "journal" in p then p["journal"] else Str(""))
    ensures row.fulltext == (if "fulltext" in p then p["fulltext"] else Str(""))
    ensures row.url == (if "url" in p then p["url"] else Str(""))
  {
    PaperRow(
      Get(p, "topic", Str(firstTopic)),
      Get(p, "paper_name", Get(p, "title", Str(""))),
      Get(p, "paper_authors", Get(p, "authors", List([]))),
      Get(p, "published", Get(p, "date", Null)),
      Get(p, "summary", Get(p, "abstract", Str(""))),
      Get(p, "journal", Str("")),
      Get(p, "fulltext", Str("")),
      Get(p, "url", Str("")))
  }

  /** One row per scraped paper, in order. */
  function ScrapedRows(papers: seq<Record>, firstTopic: string): (rows: seq<PaperRow>)
    ensures |rows| == |papers|
    ensures forall i :: 0 <= i < |rows| ==> rows[i] == ScrapedRow(papers[i], firstTopic)
  {
    seq(|papers|, i requires 0 <= i < |papers| => ScrapedRow(papers[i], firstTopic))
  }

  /** The normalisation loop. */
  method ScrapeRows(papers: seq<Record>, firstTopic: string) returns (rows: seq<PaperRow>)
    ensures rows == ScrapedRows(papers, firstTopic)
  {
    rows := [];
    for i := 0 to |papers|
      invariant |rows| == i
      invariant forall k :: 0 <= k < i ==> rows[k] == ScrapedRow(papers[k], firstTopic)
    {
      rows := rows + [ScrapedRow(papers[i], firstTopic)];
    }
  }

  /** The topics searched: the given ones, or the configured topic alone. */
  function TopicsOr(topics: seq<string>, configTopic: string): (ts: seq<string>)
    ensures ts != []
    ensures topics != [] ==> ts == topics
  {
    if topics == [] then [configTopic] else topics
  }

  /**
   * `scrape_and_store(topics, per_topic)`: `connected` says whether
   * SUPABASE_URL and SUPABASE_KEY are set (the client raises otherwise), and
   * `upsert` is the data the upsert on `paper_name` answers with. `None` is a
   * raised error.
   */
  method ScrapeAndStore(topics: seq<string>, configTopic: string, connected: bool,
                        browserbase: string -> seq<Record>, brightdata: string -> seq<Record>,
                        upsert: seq<PaperRow> -> seq<PaperRow>)
    returns (r: Option<seq<PaperRow>>)
    ensures r.None? <==> !connected || !TextTitles(Collected(TopicsOr(topics, configTopic), browserbase, brightdata))
    ensures r.Some? ==>
      var ts := TopicsOr(topics, configTopic);
      var papers := Unique(Collected(ts, browserbase, brightdata), TitleKey);
      var rows := ScrapedRows(papers, ts[0]);
      r.value == if papers == [] then [] else if upsert(rows) != [] then upsert(rows) else rows
  {
    var ts := TopicsOr(topics, configTopic);
    if !connected {
      return None;
    }
    var scraped := RunScraper(ts, browserbase, brightdata);
    if scraped.None? {
      return None;
    }
    var papers := scraped.value;
    if papers == [] {
      return Some([]);
    }
    var rows := ScrapeRows(papers, ts[0]);
    var data := upsert(rows);
    return Some(if data != [] then data else rows);
  }

  // ---- the debate workflow ----

  /** A row of the `debates` table, one field per column; the JSON columns hold `json.dumps` text. */
  datatype DebateRecord = DebateRecord(paperId: Value, topic: Value, verdict: Value, confidence: Value, oneLiner: Value,
                                       keyStrengths: string, keyRisks: string, suggestedVerticals: string,
                                       followUpQuestions: string, debateLog: string, rawVerdict: string, createdAt: string)

  /** `result.rounds` as the list of dictionaries `run_debate` builds. */
  function LogValue(rounds: seq<Entry>): (v: Value)
    ensures v.List? && |v.items| == |rounds|
  {
    List(seq(|rounds|, i requires 0 <= i < |rounds| =>
      Obj(map["agent" := Str(SpeakerName(rounds[i].agent)), "round" := Int(rounds[i].round),
              "message" := Str(rounds[i].message)])))
  }

  /**
   * The row `store_debate` inserts for a debate whose verdict is an object:
   * `dumps` is `json.dumps` and `now` the current time in ISO format.
   */
  function DebateRow(result: DebateResult, dumps: Value -> string, now: string): (row: DebateRecord)
    requires result.verdict.Obj?
    ensures row.paperId == (if "id" in result.paper then result.paper["id"] else Null)
    ensures row.topic == (if "topic" in result.paper then result.paper["topic"] else Str(""))
    ensures var v := result.verdict.fields;
      && row.verdict == (if "verdict" in v then v["verdict"] else Str("UNCERTAIN"))
      && row.confidence == (if "confidence" in v then v["confidence"] else Real(0.0))
      && row.oneLiner == (if "one_liner" in v then v["one_liner"] else Str(""))
      && row.keyStrengths == dumps(if "key_strengths" in v then v["key_strengths"] else List([]))
      && row.keyRisks == dumps(if "key_risks" in v then v["key_risks"] else List([]))
      && row.suggestedVerticals == dumps(if "suggested_verticals" in v then v["suggested_verticals"] else List([]))
      && row.followUpQuestions == dumps(if "follow_up_questions" in v then v["follow_up_questions"] else List([]))
    ensures row.debateLog == dumps(LogValue(result.rounds))
    ensures row.rawVerdict == result.rawVerdict && row.createdAt == now
  {
    var v := result.verdict.fields;
    DebateRecord(
      Get(result.paper, "id", Null),
      Get(result.paper, "topic", Str("")),
      Get(v, "verdict", Str("UNCERTAIN")),
      Get(v, "confidence", Real(0.0)),
      Get(v, "one_liner", Str("")),
      dumps(Get(v, "key_strengths", List([]))),
      dumps(Get(v, "key_risks", List([]))),
      dumps(Get(v, "suggested_verticals", List([]))),
      dumps(Get(v, "follow_up_questions", List([]))),
      dumps(LogValue(result.rounds)),
      result.rawVerdict,
      now)
  }

  /** `store_debate(sb, result)`: the first row the insert answers with, else the row itself. */
  function StoreDebate(result: DebateResult, dumps: Value -> string, now: string, insert: DebateRecord -> seq<DebateRecord>)
    : (stored: DebateRecord)
    requires result.verdict.Obj?
    ensures insert(DebateRow(result, dumps, now)) == [] ==> stored == DebateRow(result, dumps, now)
    ensures insert(DebateRow(result, dumps, now)) != [] ==> stored == insert(DebateRow(result, dumps, now))[0]
  {
    var row := DebateRow(result, dumps, now);
    var data := insert(row);
    if data != [] then data[0] else row
  }

  // ---- the multiplier cut ----

  /** `math.ceil(n / multiplier)` for a non-zero integer multiplier. */
  function CeilDiv(n: nat, multiplier: int): (q: int)
    requires multiplier != 0
    ensures multiplier < 0 ==> q <= 0
  {
    if multiplier > 0 then (n + multiplier - 1) / multiplier
    else
      assert n / -multiplier >= 0;
      -(n / -multiplier)
  }

  /** With a positive multiplier the quotient is the least `q` with `q * multiplier >= n`. */
  lemma CeilDivLeast(n: nat, multiplier: int)
    requires multiplier > 0
    ensures var q := CeilDiv(n, multiplier);
      q * multiplier >= n && (q - 1) * multiplier < n
  {
    var q := (n + multiplier - 1) / multiplier;
    assert (n + multiplier - 1) == q * multiplier + (n + multiplier - 1) % multiplier;
    assert (q - 1) * multiplier == q * multiplier - multiplier;
  }

  lemma MultipleAtLeast(a: nat, m: int)
    requires m >= 1
    ensures a * m >= a
  {
    assert a * m == a * (m - 1) + a;
  }

  /** `max(1, math.ceil(n / multiplier))`. */
  function TopCount(n: nat, multiplier: int): (top: int)
    requires multiplier != 0
    ensures top >= 1
    ensures multiplier < 0 ==> top == 1
    ensures multiplier > 0 && n >= 1 ==> top <= n
  {
    var q := CeilDiv(n, multiplier);
    if q > 1 then
      (if multiplier > 0 then CeilDivLeast(n, multiplier); MultipleAtLeast(q - 1, multiplier); q else q)
    else 1
  }

  /** With a positive multiplier and `n >= 1` the count is the least one whose multiple covers `n`. */
  lemma TopCountLeast(n: nat, multiplier: int)
    requires multiplier > 0 && n >= 1
    ensures var top := TopCount(n, multiplier);
      top * multiplier >= n && (top == 1 || (top - 1) * multiplier < n)
  {
    CeilDivLeast(n, multiplier);
  }

  /**
   * `get_top_papers` after the query: no rows give no result; otherwise a
   * prefix of `TopCount` rows, between 1 and all of them. `multiplier` is the
   * one in effect after `multiplier or cfg.get("multiplier", 3)`; when it is 0
   * and there are rows, `len(rows) / multiplier` raises, modelled as `None`.
   */
  function GetTopPapers<T>(rows: seq<T>, multiplier: int): (top: Option<seq<T>>)
    ensures top.None? <==> rows != [] && multiplier == 0
    ensures top.Some? ==> top.value <= rows
    ensures rows == [] ==> top == Some([])
    ensures rows != [] && multiplier != 0 ==> 1 <= |top.value| <= |rows| && |top.value| == TopCount(|rows|, multiplier)
  {
    if rows == [] then Some([])
    else if multiplier == 0 then None
    else Some(rows[..TopCount(|rows|, multiplier)])
  }

  /**
   * The cut keeps about `1/multiplier` of the rows: with a positive multiplier,
   * the fewest rows whose multiple covers them all, and one row at least; with
   * a negative one, a single row.
   */
  lemma GetTopPapersFraction<T>(rows: seq<T>, multiplier: int)
    requires multiplier != 0 && rows != []
    ensures var top := GetTopPapers(rows, multiplier).value;
      && (multiplier > 0 ==> |top| * multiplier >= |rows| && (|top| == 1 || (|top| - 1) * multiplier < |rows|))
      && (multiplier < 0 ==> |top| == 1)
  {
    if multiplier > 0 {
      TopCountLeast(|rows|, multiplier);
    }
  }

  /** One entry of `all_results`: the paper, its verdict, the debate log and the stored row. */
  datatype Debated = Debated(paper: Record, verdict: Value, debateLog: seq<Entry>, stored: Option<DebateRecord>)

  /** The sort key `r["verdict"].get("confidence", 0.0)`. */
  function ConfidenceOf(d: Debated): Value {
    if d.verdict.Obj? then Get(d.verdict.fields, "confidence", Real(0.0)) else Real(0.0)
  }

  /** The cut of `run_debate_pipeline`: sorted by confidence, highest first, then the first `TopCount`. */
  function TopResults(results: seq<Debated>, multiplier: int, ge: (Value, Value) -> bool): seq<Debated>
    requires multiplier != 0
  {
    Take(SortDesc(results, ConfidenceOf, ge), TopCount(|results|, multiplier))
  }

  /** The cut keeps the first `TopCount` results of the sort. */
  lemma TopResultsPrefix(results: seq<Debated>, multiplier: int, ge: (Value, Value) -> bool)
    requires multiplier != 0 && results != []
    ensures var sorted := SortDesc(results, ConfidenceOf, ge);
      TopResults(results, multiplier, ge) == sorted[..TopCount(|results|, multiplier)]
  {
    var n := TopCount(|results|, multiplier);
    assert n <= |results|;
  }

  /**
   * The results kept are ordered by non-increasing confidence, come from the
   * debated papers, and none is less confident than a result that was cut.
   */
  lemma TopResultsProperties(results: seq<Debated>, multiplier: int, ge: (Value, Value) -> bool)
    requires multiplier != 0 && TotalPreorder(ge) && results != []
    ensures var top := TopResults(results, multiplier, ge);
      var sorted := SortDesc(results, ConfidenceOf, ge);
      && SortedDesc(top, ConfidenceOf, ge)
      && multiset(top) <= multiset(results)
      && forall i, j :: 0 <= i < |top| <= j < |sorted| ==> ge(ConfidenceOf(top[i]), ConfidenceOf(sorted[j]))
  {
    var sorted := SortDesc(results, ConfidenceOf, ge);
    var n := TopCount(|results|, multiplier);
    TopResultsPrefix(results, multiplier, ge);
    var top := sorted[..n];
    SortDescSorted(results, ConfidenceOf, ge);
    SortDescPermutation(results, ConfidenceOf, ge);
    PrefixFacts(sorted, n, ConfidenceOf, ge);
  }

  /** A prefix of a sorted sequence is sorted, is part of it, and dominates the rest. */
  lemma PrefixFacts<T>(s: seq<T>, n: nat, key: T -> Value, ge: (Value, Value) -> bool)
    requires n <= |s| && SortedDesc(s, key, ge)
    ensures SortedDesc(s[..n], key, ge)
    ensures multiset(s[..n]) <= multiset(s)
    ensures forall i, j :: 0 <= i < n <= j < |s| ==> ge(key(s[..n][i]), key(s[j]))
  {
    assert s == s[..n] + s[n..];
    assert multiset(s) == multiset(s[..n]) + multiset(s[n..]);
  }

  /**
   * One entry of `all_results`: the paper, the verdict and transcript of
   * `run_debate` on it, and, when the verdict is an object, the stored row.
   */
  function DebatedOf(paper: Record, debateRounds: int,
                     respond: (Persona, seq<Message>) -> string, parse: string -> Option<Value>,
                     dumps: Value -> string, now: string, insert: DebateRecord -> seq<DebateRecord>): (d: Debated)
    ensures d.paper == paper && Turns(d.debateLog) == Schedule(debateRounds)
    ensures d.stored.Some? <==> d.verdict.Obj?
  {
    var res := DebateOf(paper, debateRounds, respond, parse);
    DebateSchedule(FormatPaper(paper), debateRounds, respond);
    Debated(paper, res.verdict, res.rounds,
            if res.verdict.Obj? then Some(StoreDebate(res, dumps, now, insert)) else None)
  }

  /** `DebatedOf` as a function of the paper alone, for the loop over the papers. */
  function DebatedWith(debateRounds: int,
                       respond: (Persona, seq<Message>) -> string, parse: string -> Option<Value>,
                       dumps: Value -> string, now: string, insert: DebateRecord -> seq<DebateRecord>): Record -> Debated
  {
    p => DebatedOf(p, debateRounds, respond, parse, dumps, now, insert)
  }

  /** The verdict is an object, so `v.get` does not raise on it. */
  predicate ObjVerdict(d: Debated) {
    d.verdict.Obj?
  }

  /**
   * A loop that appends `f(ps[i])`, `f(ps[i + 1])`, ... to `acc` and stops
   * after the first entry `ok` rejects: `all_results` after the debate loop.
   */
  function TakeThrough<P, D>(ps: seq<P>, i: nat, acc: seq<D>, f: P -> D, ok: D -> bool): seq<D>
    decreases |ps| - i
  {
    if i >= |ps| then acc
    else if ok(f(ps[i])) then TakeThrough(ps, i + 1, acc + [f(ps[i])], f, ok)
    else acc + [f(ps[i])]
  }

  /**
   * What `TakeThrough` collects from the start: entry `k` is `f(ps[k])`, every
   * entry but the last is accepted, and it stops early only at a rejected entry.
   */
  lemma {:induction false} TakeThroughShape<P, D>(ps: seq<P>, i: nat, acc: seq<D>, f: P -> D, ok: D -> bool)
    requires i <= |ps| && |acc| == i
    requires forall k :: 0 <= k < i ==> acc[k] == f(ps[k]) && ok(acc[k])
    ensures var r := TakeThrough(ps, i, acc, f, ok);
      && i <= |r| <= |ps|
      && (forall k :: 0 <= k < |r| ==> r[k] == f(ps[k]))
      && (forall k :: 0 <= k < |r| - 1 ==> ok(r[k]))
      && (|r| < |ps| ==> i < |r| && !ok(r[|r| - 1]))
    decreases |ps| - i
  {
    if i < |ps| {
      var d := f(ps[i]);
      var next := acc + [d];
      assert next[i] == d;
      if ok(d) {
        TakeThroughShape(ps, i + 1, next, f, ok);
      }
    }
  }

  /** From the start, `TakeThrough` stops short of the end only at an entry `ok` rejects. */
  lemma TakeThroughLength<P, D>(ps: seq<P>, f: P -> D, ok: D -> bool)
    ensures var r := TakeThrough(ps, 0, [], f, ok);
      && |r| <= |ps|
      && ((forall k :: 0 <= k < |r| ==> ok(r[k])) ==> |r| == |ps|)
  {
    TakeThroughShape(ps, 0, [], f, ok);
  }

  /** `TakeThrough` takes entry `d` of item `i` and goes on exactly when `ok` accepts it. */
  lemma TakeThroughStep<P, D>(ps: seq<P>, i: nat, acc: seq<D>, d: D, f: P -> D, ok: D -> bool)
    requires i < |ps| && d == f(ps[i])
    ensures TakeThrough(ps, i, acc, f, ok) == if ok(d) then TakeThrough(ps, i + 1, acc + [d], f, ok) else acc + [d]
  {
  }

  /**
   * One pass of the debate loop: the paper is debated and, when the verdict is
   * an object, stored; `ok` is false when `v.get` would raise.
   */
  method DebateOne(paper: Record, debateRounds: int,
                   respond: (Persona, seq<Message>) -> string, parse: string -> Option<Value>,
                   dumps: Value -> string, now: string, insert: DebateRecord -> seq<DebateRecord>)
    returns (d: Debated, ok: bool)
    ensures d == DebatedOf(paper, debateRounds, respond, parse, dumps, now, insert)
    ensures d.paper == paper && Turns(d.debateLog) == Schedule(debateRounds)
    ensures ok <==> d.verdict.Obj?
    ensures !ok ==> d.stored.None?
  {
    var result := RunDebate(paper, debateRounds, respond, parse);
    ok := result.verdict.Obj?;
    if !ok {
      return Debated(paper, result.verdict, result.rounds, None), false;
    }
    var stored := StoreDebate(result, dumps, now, insert);
    d := Debated(paper, result.verdict, result.rounds, Some(stored));
  }

  /**
   * `run_debate_pipeline` after the papers are fetched: each paper is debated
   * and its verdict stored, in order, then the cut is applied. A verdict that is
   * not an object makes `v.get` raise, modelled as `None`; `all` holds the
   * papers debated up to then. With papers to cut, a multiplier of 0 makes
   * `len(all_results) / multiplier` raise, also `None`.
   */
  method RunDebatePipeline(papers: seq<Record>, multiplier: int, debateRounds: int,
                           respond: (Persona, seq<Message>) -> string, parse: string -> Option<Value>,
                           dumps: Value -> string, now: string, insert: DebateRecord -> seq<DebateRecord>,
                           ge: (Value, Value) -> bool)
    returns (r: Option<seq<Debated>>, all: seq<Debated>)
    ensures all == TakeThrough(papers, 0, [], DebatedWith(debateRounds, respond, parse, dumps, now, insert), ObjVerdict)
    ensures |all| <= |papers|
    ensures r.None? <==> (exists i :: 0 <= i < |all| && !all[i].verdict.Obj?) || (papers != [] && multiplier == 0)
    ensures r.Some? ==> |all| == |papers|
    ensures r.Some? && papers == [] ==> r.value == []
    ensures r.Some? && papers != [] ==> multiplier != 0 && r.value == TopResults(all, multiplier, ge)
  {
    var ok;
    all, ok := DebateAll(papers, debateRounds, respond, parse, dumps, now, insert);
    TakeThroughLength(papers, DebatedWith(debateRounds, respond, parse, dumps, now, insert), ObjVerdict);
    if !ok {
      return None, all;
    }
    if papers == [] {
      return Some([]), all;
    }
    var sorted := SortResults(all, ge);
    return GetTopPapers(sorted, multiplier), all;
  }

  /**
   * Entry `i` of `all_results` is paper `i`'s: its debate on the schedule and,
   * when the verdict is an object, its stored row.
   */
  lemma DebatedEntries(papers: seq<Record>, debateRounds: int,
                       respond: (Persona, seq<Message>) -> string, parse: string -> Option<Value>,
                       dumps: Value -> string, now: string, insert: DebateRecord -> seq<DebateRecord>)
    ensures var all := TakeThrough(papers, 0, [], DebatedWith(debateRounds, respond, parse, dumps, now, insert), ObjVerdict);
      forall i :: 0 <= i < |all| ==>
        && i < |papers|
        && all[i] == DebatedOf(papers[i], debateRounds, respond, parse, dumps, now, insert)
        && all[i].paper == papers[i] && Turns(all[i].debateLog) == Schedule(debateRounds)
  {
    TakeThroughShape(papers, 0, [], DebatedWith(debateRounds, respond, parse, dumps, now, insert), ObjVerdict);
  }

  /**
   * The loop `for idx, paper in enumerate(papers, 1)`: the papers are debated
   * in order until one verdict is not an object; `ok` says that none was.
   */
  method DebateAll(papers: seq<Record>, debateRounds: int,
                   respond: (Persona, seq<Message>) -> string, parse: string -> Option<Value>,
                   dumps: Value -> string, now: string, insert: DebateRecord -> seq<DebateRecord>)
    returns (all: seq<Debated>, ok: bool)
    ensures all == TakeThrough(papers, 0, [], DebatedWith(debateRounds, respond, parse, dumps, now, insert), ObjVerdict)
    ensures ok <==> AllObj(all)
  {
    all := [];
    var i := 0;
    while i < |papers|
      invariant i <= |papers| && |all| == i
      invariant TakeThrough(papers, i, all, DebatedWith(debateRounds, respond, parse, dumps, now, insert), ObjVerdict)
             == TakeThrough(papers, 0, [], DebatedWith(debateRounds, respond, parse, dumps, now, insert), ObjVerdict)
      invariant AllObj(all)
    {
      var fine;
      all, fine := DebateNext(papers, i, all, debateRounds, respond, parse, dumps, now, insert);
      if !fine {
        return all, false;
      }
      i := i + 1;
    }
    ok := true;
  }

  /** One pass of the loop on paper `i`, as `TakeThrough` takes it. */
  method DebateNext(papers: seq<Record>, i: nat, all: seq<Debated>, debateRounds: int,
                    respond: (Persona, seq<Message>) -> string, parse: string -> Option<Value>,
                    dumps: Value -> string, now: string, insert: DebateRecord -> seq<DebateRecord>)
    returns (next: seq<Debated>, fine: bool)
    requires i < |papers| && AllObj(all)
    ensures |next| == |all| + 1
    ensures TakeThrough(papers, i, all, DebatedWith(debateRounds, respond, parse, dumps, now, insert), ObjVerdict)
         == if fine then TakeThrough(papers, i + 1, next, DebatedWith(debateRounds, respond, parse, dumps, now, insert), ObjVerdict) else next
    ensures fine <==> AllObj(next)
  {
    var d;
    d, fine := DebateOne(papers[i], debateRounds, respond, parse, dumps, now, insert);
    TakeThroughStep(papers, i, all, d, DebatedWith(debateRounds, respond, parse, dumps, now, insert), ObjVerdict);
    AllObjSnoc(all, d);
    next := all + [d];
  }

  /** Every entry of `all` has an object verdict, so none made `v.get` raise. */
  predicate AllObj(all: seq<Debated>) {
    forall k :: 0 <= k < |all| ==> all[k].verdict.Obj?
  }

  lemma AllObjSnoc(all: seq<Debated>, d: Debated)
    requires AllObj(all)
    ensures AllObj(all + [d]) <==> d.verdict.Obj?
  {
    assert (all + [d])[|all|] == d;
  }

  /** `all_results.sort(key=confidence, reverse=True)`: the stable sort, highest confidence first. */
  method SortResults(results: seq<Debated>, ge: (Value, Value) -> bool) returns (sorted: seq<Debated>)
    ensures sorted == SortDesc(results, ConfidenceOf, ge)
  {
    sorted := [];
    for i := 0 to |results|
      invariant sorted == SortDesc(results[..i], ConfidenceOf, ge)
    {
      assert results[..i + 1][..i] == results[..i];
      sorted := Insert(sorted, results[i], ConfidenceOf, ge);
    }
    assert results[..|results|] == results;
  }
}
