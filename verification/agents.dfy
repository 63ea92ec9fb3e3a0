/**
 * The debate bookkeeping of agents.py: an agent's conversation history, the
 * Scout / Advocate / Skeptic speaking schedule of `run_debate`, the cleanup of
 * the Moderator's verdict, and the prompt block `_format_paper` builds. The
 * Anthropic client is an oracle from (persona, history) to the reply text, and
 * `json.loads` an oracle from text to a parsed value.
 */
module Agents {
  import opened Wrappers
  import opened Json
  import opened Text
  import opened Fences

  // ---- conversations ----

  /** The four system prompts, by the persona they set up. */
  datatype Persona = ScoutPersona | AdvocatePersona | SkepticPersona | ModeratorPersona

  datatype Role = User | Assistant

  /** One `{"role": ..., "content": ...}` entry of a history. */
  datatype Message = Message(role: Role, content: string)

  /** A history built by `say` alone: user and assistant turns alternate, the user first. */
  predicate Alternating(history: seq<Message>) {
    && |history| % 2 == 0
    && forall i :: 0 <= i < |history| ==> history[i].role == (if i % 2 == 0 then User else Assistant)
  }

  /** `Agent`: a fixed persona and the conversation held so far. */
  class Agent {
    const name: string
    const persona: Persona
    var history: seq<Message>

    constructor(name: string, persona: Persona)
      ensures this.name == name && this.persona == persona && history == []
    {
      this.name := name;
      this.persona := persona;
      history := [];
    }

    /**
     * `say(user_message)`: the user turn is appended, the whole history goes to
     * the client, and its reply is appended and returned.
     */
    method Say(userMessage: string, respond: (Persona, seq<Message>) -> string) returns (text: string)
      modifies this
      ensures text == respond(persona, old(history) + [Message(User, userMessage)])
      ensures history == old(history) + [Message(User, userMessage), Message(Assistant, text)]
      ensures Alternating(old(history)) ==> Alternating(history)
    {
      history := history + [Message(User, userMessage)];
      text := respond(persona, history);
      history := history + [Message(Assistant, text)];
    }

    /** `reset()`: the history is emptied. */
    method Reset()
      modifies this
      ensures history == [] && Alternating(history)
    {
      history := [];
    }
  }

  // ---- the speaking schedule ----

  datatype Speaker = Scout | Advocate | Skeptic

  function SpeakerName(s: Speaker): string {
    match s
    case Scout => "Scout"
    case Advocate => "Advocate"
    case Skeptic => "Skeptic"
  }

  /** One `{"agent": ..., "round": ..., "message": ...}` entry of `rounds`. */
  datatype Entry = Entry(agent: Speaker, round: int, message: string)

  /** Who spoke in which round, in order. */
  datatype Turn = Turn(agent: Speaker, round: int)

  function Turns(rounds: seq<Entry>): (r: seq<Turn>)
    ensures |r| == |rounds|
    ensures forall i :: 0 <= i < |r| ==> r[i] == Turn(rounds[i].agent, rounds[i].round)
  {
    seq(|rounds|, i requires 0 <= i < |rounds| => Turn(rounds[i].agent, rounds[i].round))
  }

  lemma TurnsAppend(rounds: seq<Entry>, more: seq<Entry>)
    ensures Turns(rounds + more) == Turns(rounds) + Turns(more)
  {
    var l, r := Turns(rounds + more), Turns(rounds) + Turns(more);
    assert |l| == |r|;
    forall i | 0 <= i < |l| ensures l[i] == r[i] {
      if i < |rounds| {
        assert (rounds + more)[i] == rounds[i];
      } else {
        assert (rounds + more)[i] == more[i - |rounds|];
      }
    }
  }

  /** The turns once `k` full rounds with a Scout reply have been held: the opening, then Advocate, Skeptic, Scout per round. */
  function Opened(k: nat): seq<Turn> {
    if k == 0 then [Turn(Scout, 1)]
    else Opened(k - 1) + [Turn(Advocate, k), Turn(Skeptic, k), Turn(Scout, k + 1)]
  }

  /** The turns of a debate of `numRounds` rounds: the last round has no Scout reply. */
  function Schedule(numRounds: int): seq<Turn> {
    if numRounds <= 0 then [Turn(Scout, 1)]
    else Opened(numRounds - 1) + [Turn(Advocate, numRounds), Turn(Skeptic, numRounds)]
  }

  /** The turns taken once `done` rounds of a `numRounds`-round debate are over. */
  function Progress(done: nat, numRounds: int): seq<Turn> {
    if done >= numRounds then Schedule(numRounds) else Opened(done)
  }

  /** Round `r` adds the Advocate's and the Skeptic's turns and, unless it is the last, the Scout's reply. */
  lemma ProgressStep(r: int, numRounds: int)
    requires 1 <= r <= numRounds
    ensures Progress(r, numRounds)
      == Progress(r - 1, numRounds) + [Turn(Advocate, r), Turn(Skeptic, r)] + (if r == numRounds then [] else [Turn(Scout, r + 1)])
  {
  }

  lemma {:induction false} OpenedAt(k: nat)
    ensures |Opened(k)| == 3 * k + 1
    ensures Opened(k)[0] == Turn(Scout, 1)
    ensures forall r :: 1 <= r <= k ==>
      && Opened(k)[3 * r - 2] == Turn(Advocate, r)
      && Opened(k)[3 * r - 1] == Turn(Skeptic, r)
      && Opened(k)[3 * r] == Turn(Scout, r + 1)
  {
    if k > 0 {
      OpenedAt(k - 1);
      var p := Opened(k - 1);
      assert Opened(k) == p + [Turn(Advocate, k), Turn(Skeptic, k), Turn(Scout, k + 1)];
      forall r | 1 <= r <= k
        ensures Opened(k)[3 * r - 2] == Turn(Advocate, r)
        ensures Opened(k)[3 * r - 1] == Turn(Skeptic, r)
        ensures Opened(k)[3 * r] == Turn(Scout, r + 1)
      {
        if r < k {
          assert 3 * r < |p|;
        }
      }
    }
  }

  /**
   * The schedule, position by position: with `n >= 1` rounds there are `3n`
   * turns, Scout round 1 first; round `r` is Advocate `r` then Skeptic `r`, and a
   * Scout turn labelled `r + 1` follows only when `r < n`, so the last turn is
   * Skeptic `n`. With no rounds only the opening Scout turn is held.
   */
  lemma ScheduleAt(n: int)
    ensures n <= 0 ==> Schedule(n) == [Turn(Scout, 1)]
    ensures n >= 1 ==>
      && |Schedule(n)| == 3 * n
      && Schedule(n)[0] == Turn(Scout, 1)
      && Schedule(n)[3 * n - 1] == Turn(Skeptic, n)
      && (forall r :: 1 <= r <= n ==> Schedule(n)[3 * r - 2] == Turn(Advocate, r) && Schedule(n)[3 * r - 1] == Turn(Skeptic, r))
      && (forall r :: 1 <= r < n ==> Schedule(n)[3 * r] == Turn(Scout, r + 1))
  {
    if n >= 1 {
      OpenedAt(n - 1);
      var p := Opened(n - 1);
      assert Schedule(n) == p + [Turn(Advocate, n), Turn(Skeptic, n)];
      forall r | 1 <= r <= n
        ensures Schedule(n)[3 * r - 2] == Turn(Advocate, r) && Schedule(n)[3 * r - 1] == Turn(Skeptic, r)
      {
        if r < n {
          assert 3 * r - 1 < |p|;
        }
      }
    }
  }

  /** Every Scout turn is labelled 1 to `n` (1 when there are no rounds); Advocate and Skeptic turns 1 to `n`. */
  lemma ScheduleRounds(n: int, i: nat)
    requires i < |Schedule(n)|
    ensures Schedule(n)[i].agent == Scout ==> 1 <= Schedule(n)[i].round <= (if n <= 0 then 1 else n)
    ensures Schedule(n)[i].agent != Scout ==> 1 <= Schedule(n)[i].round <= n
  {
    ScheduleAt(n);
    if n >= 1 {
      var r := i / 3;
      if i % 3 == 0 {
        if r >= 1 {
          assert Schedule(n)[3 * r] == Turn(Scout, r + 1);
        }
      } else if i % 3 == 1 {
        assert Schedule(n)[3 * (r + 1) - 2] == Turn(Advocate, r + 1);
      } else {
        assert Schedule(n)[3 * (r + 1) - 1] == Turn(Skeptic, r + 1);
      }
    }
  }

  // ---- the verdict ----

  /** The keys the Moderator is asked for, each with the variations accepted for it, in the handler's order. */
  const AliasTable: seq<(string, seq<string>)> := [
    ("key_strengths", ["strengths", "key_strength"]),
    ("key_risks", ["risks", "key_risk", "concerns"]),
    ("suggested_verticals", ["verticals", "industries", "sectors"]),
    ("follow_up_questions", ["questions", "follow_ups", "followup_questions"])
  ]

  /** The first of `aliases` that is a key of `m`. */
  function FirstPresent(m: map<string, Value>, aliases: seq<string>): (r: Option<string>)
    ensures r.Some? ==> r.value in aliases && r.value in m
    ensures r.None? ==> forall k :: 0 <= k < |aliases| ==> aliases[k] !in m
  {
    if aliases == [] then None
    else if aliases[0] in m then Some(aliases[0])
    else FirstPresent(m, aliases[1..])
  }

  /** One entry of the alias table: an absent canonical key takes the value of the first alias present, which is removed. */
  function MoveAlias(m: map<string, Value>, canonical: string, aliases: seq<string>): (r: map<string, Value>)
  {
    if canonical in m then m
    else
      match FirstPresent(m, aliases)
      case None => m
      case Some(a) => (m - {a})[canonical := m[a]]
  }

  /** The normalisation loop over the table, entry by entry. */
  function Normalize(m: map<string, Value>, table: seq<(string, seq<string>)>): map<string, Value>
    decreases |table|
  {
    if table == [] then m else Normalize(MoveAlias(m, table[0].0, table[0].1), table[1..])
  }

  /** Every key the table names, canonical key first, entry by entry. */
  function Flat(table: seq<(string, seq<string>)>): seq<string>
    decreases |table|
  {
    if table == [] then [] else [table[0].0] + table[0].1 + Flat(table[1..])
  }

  /** `m` and `r` agree on key `k`. */
  predicate SameAt(m: map<string, Value>, r: map<string, Value>, k: string) {
    (k in m <==> k in r) && (k in m ==> m[k] == r[k])
  }

  /** The normalisation touches only the keys the table names. */
  lemma {:induction false} NormalizeFrame(m: map<string, Value>, table: seq<(string, seq<string>)>, k: string)
    requires k !in Flat(table)
    ensures SameAt(m, Normalize(m, table), k)
    decreases |table|
  {
    if table != [] {
      var next := MoveAlias(m, table[0].0, table[0].1);
      assert Flat(table) == [table[0].0] + table[0].1 + Flat(table[1..]);
      assert k != table[0].0 && k !in table[0].1 && k !in Flat(table[1..]);
      assert SameAt(m, next, k);
      NormalizeFrame(next, table[1..], k);
    }
  }

  /** Two maps that agree on every alias find the same first alias. */
  lemma {:induction false} FirstPresentSame(m: map<string, Value>, n: map<string, Value>, aliases: seq<string>)
    requires forall k :: 0 <= k < |aliases| ==> SameAt(m, n, aliases[k])
    ensures FirstPresent(m, aliases) == FirstPresent(n, aliases)
    decreases |aliases|
  {
    if aliases != [] && aliases[0] !in m {
      FirstPresentSame(m, n, aliases[1..]);
    }
  }

  predicate Distinct(keys: seq<string>) {
    forall i, j :: 0 <= i < j < |keys| ==> keys[i] != keys[j]
  }

  /** No key is named twice in the table. */
  predicate Disjoint(table: seq<(string, seq<string>)>) {
    Distinct(Flat(table))
  }

  /** In a disjoint table, the first entry's keys are distinct and absent from the rest, which is disjoint too. */
  lemma DisjointHead(table: seq<(string, seq<string>)>)
    requires Disjoint(table) && table != []
    ensures table[0].0 !in table[0].1 && table[0].0 !in Flat(table[1..])
    ensures forall a :: a in table[0].1 ==> a !in Flat(table[1..])
    ensures Disjoint(table[1..])
  {
    var c, al, rest := table[0].0, table[0].1, Flat(table[1..]);
    var f := Flat(table);
    assert f == [c] + al + rest;
    forall k | 0 <= k < |al| ensures al[k] != c && al[k] !in rest {
      assert f[1 + k] == al[k] && f[0] != f[1 + k];
      forall m | 0 <= m < |rest| ensures rest[m] != al[k] {
        assert f[1 + |al| + m] == rest[m] && f[1 + k] != f[1 + |al| + m];
      }
    }
    forall m | 0 <= m < |rest| ensures rest[m] != c {
      assert f[1 + |al| + m] == rest[m] && f[0] != f[1 + |al| + m];
    }
    forall i, j | 0 <= i < j < |rest| ensures rest[i] != rest[j] {
      assert f[1 + |al| + i] != f[1 + |al| + j];
    }
  }

  /**
   * What the normalisation does to entry `g` of a disjoint table: a canonical
   * key already present keeps its value; otherwise the first alias present (if
   * any) is moved under the canonical key and removed, and every other alias of
   * the entry keeps its value.
   */
  lemma {:induction false} NormalizeEntry(m: map<string, Value>, table: seq<(string, seq<string>)>, g: nat)
    requires Disjoint(table) && g < |table|
    ensures var r := Normalize(m, table);
      var canonical, aliases := table[g].0, table[g].1;
      && (canonical in m ==> canonical in r && r[canonical] == m[canonical])
      && (canonical !in m && FirstPresent(m, aliases).None? ==> canonical !in r)
      && (canonical !in m && FirstPresent(m, aliases).Some? ==>
            var a := FirstPresent(m, aliases).value;
            canonical in r && r[canonical] == m[a] && a !in r)
      && (forall b :: b in aliases && (canonical in m || FirstPresent(m, aliases) != Some(b)) ==> SameAt(m, r, b))
    decreases |table|
  {
    DisjointHead(table);
    var canonical, aliases := table[0].0, table[0].1;
    var next := MoveAlias(m, canonical, aliases);
    if g == 0 {
      NormalizeFrame(next, table[1..], canonical);
      forall b | b in aliases ensures SameAt(next, Normalize(next, table[1..]), b) {
        NormalizeFrame(next, table[1..], b);
      }
      if canonical !in m && FirstPresent(m, aliases).Some? {
        var a := FirstPresent(m, aliases).value;
        NormalizeFrame(next, table[1..], a);
      }
    } else {
      var c, al := table[g].0, table[g].1;
      assert table[1..][g - 1] == table[g];
      FlatHas(table[1..], g - 1);
      assert SameAt(m, next, c);
      forall k | 0 <= k < |al| ensures SameAt(m, next, al[k]) {
        assert al[k] in Flat(table[1..]);
      }
      FirstPresentSame(m, next, al);
      NormalizeEntry(next, table[1..], g - 1);
    }
  }

  lemma {:induction false} FlatHas(table: seq<(string, seq<string>)>, g: nat)
    requires g < |table|
    ensures table[g].0 in Flat(table)
    ensures forall a :: a in table[g].1 ==> a in Flat(table)
    decreases |table|
  {
    assert Flat(table) == [table[0].0] + table[0].1 + Flat(table[1..]);
    if g > 0 {
      assert table[1..][g - 1] == table[g];
      FlatHas(table[1..], g - 1);
    }
  }

  /** The alias table has no key twice. */
  lemma AliasTableDisjoint()
    ensures Disjoint(AliasTable)
  {
    AliasKeysDistinct();
    AliasTableFlat();
  }

  const AliasKeys: seq<string> := [
    "key_strengths", "strengths", "key_strength",
    "key_risks", "risks", "key_risk", "concerns",
    "suggested_verticals", "verticals", "industries", "sectors",
    "follow_up_questions", "questions", "follow_ups", "followup_questions"]

  lemma AliasTableFlat()
    ensures Flat(AliasTable) == AliasKeys
  {
    assert Flat(AliasTable[4..]) == [];
    assert Flat(AliasTable[3..]) == AliasKeys[11..];
    assert Flat(AliasTable[2..]) == AliasKeys[7..];
    assert Flat(AliasTable[1..]) == AliasKeys[3..];
  }

  lemma AliasKeysDistinct()
    ensures Distinct(AliasKeys)
  {
  }

  /** The normalisation loop, with its inner search and `break`. */
  method NormalizeVerdict(verdict0: map<string, Value>) returns (verdict: map<string, Value>)
    ensures verdict == Normalize(verdict0, AliasTable)
  {
    verdict := verdict0;
    for i := 0 to |AliasTable|
      invariant Normalize(verdict, AliasTable[i..]) == Normalize(verdict0, AliasTable)
    {
      var canonical, aliases := AliasTable[i].0, AliasTable[i].1;
      assert AliasTable[i..][1..] == AliasTable[i + 1..];
      if canonical !in verdict {
        var j := 0;
        while j < |aliases|
          invariant j <= |aliases|
          invariant FirstPresent(verdict, aliases) == FirstPresent(verdict, aliases[j..])
        {
          assert aliases[j..][1..] == aliases[j + 1..];
          if aliases[j] in verdict {
            verdict := (verdict - {aliases[j]})[canonical := verdict[aliases[j]]];
            break;
          }
          j := j + 1;
        }
      }
    }
  }

  /** `{"raw": raw_verdict, "verdict": "UNCERTAIN", "confidence": 0.0}` */
  function Fallback(raw: string): (m: map<string, Value>)
    ensures "verdict" in m && m["verdict"] == Str("UNCERTAIN")
    ensures "confidence" in m && m["confidence"] == Real(0.0)
    ensures "raw" in m && m["raw"] == Str(raw)
  {
    map["raw" := Str(raw), "verdict" := Str("UNCERTAIN"), "confidence" := Real(0.0)]
  }

  /**
   * The verdict `run_debate` keeps for the Moderator's reply `raw`, given what
   * the cleaned text parsed to: the fallback when it did not parse, the aliases
   * normalised in an object, any other value as it is.
   */
  function VerdictFrom(raw: string, parsed: Option<Value>): (v: Value)
    ensures parsed.None? ==> (v.Obj? && "verdict" in v.fields && "confidence" in v.fields && "raw" in v.fields
      && v.fields["verdict"] == Str("UNCERTAIN") && v.fields["confidence"] == Real(0.0) && v.fields["raw"] == Str(raw))
    ensures parsed.Some? && !parsed.value.Obj? ==> v == parsed.value
  {
    match parsed
    case None => Obj(Fallback(raw))
    case Some(Obj(m)) => Obj(Normalize(m, AliasTable))
    case Some(other) => other
  }

  /** The reply is cleaned of a code fence, then parsed. */
  function VerdictOf(raw: string, parse: string -> Option<Value>): Value {
    VerdictFrom(raw, parse(VerdictUnfence(raw)))
  }

  /** Keys the alias table does not name keep their values. */
  lemma AliasFrame(m: map<string, Value>, k: string)
    requires k !in Flat(AliasTable)
    ensures SameAt(m, Normalize(m, AliasTable), k)
  {
    NormalizeFrame(m, AliasTable, k);
  }

  /** Entry `g` of the alias table: a canonical key present wins, else the first alias present is moved under it. */
  lemma AliasEntry(m: map<string, Value>, g: nat)
    requires g < |AliasTable|
    ensures var r := Normalize(m, AliasTable);
      var canonical, aliases := AliasTable[g].0, AliasTable[g].1;
      && (canonical in m ==> canonical in r && r[canonical] == m[canonical])
      && (canonical !in m && FirstPresent(m, aliases).None? ==> canonical !in r)
      && (canonical !in m && FirstPresent(m, aliases).Some? ==>
            canonical in r && r[canonical] == m[FirstPresent(m, aliases).value] && FirstPresent(m, aliases).value !in r)
  {
    AliasTableDisjoint();
    NormalizeEntry(m, AliasTable, g);
  }

  // ---- the paper block ----

  /** The displayed title: `paper_name`, else `title`, else "Unknown". */
  function TitleOf(paper: map<string, Value>): Value {
    Or(Get(paper, "paper_name", Null), Get(paper, "title", Str("Unknown")))
  }

  /** The displayed authors: a list is joined with ", ". */
  function AuthorsOf(paper: map<string, Value>): Value {
    var authors := Or(Get(paper, "paper_authors", Null), Get(paper, "authors", Str("Unknown")));
    if authors.List? then Str(Join(", ", ShowAll(authors.items))) else authors
  }

  function ShowAll(items: seq<Value>): (r: seq<string>)
    ensures |r| == |items|
    ensures forall i :: 0 <= i < |items| ==> r[i] == Show(items[i])
  {
    seq(|items|, i requires 0 <= i < |items| => Show(items[i]))
  }

  /** The optional lines in their fixed order, each with its label and value. */
  function OptionalFields(paper: map<string, Value>): seq<(string, Value)> {
    [ ("**Authors:** ", AuthorsOf(paper)),
      ("**Journal:** ", Get(paper, "journal", Str(""))),
      ("**Published:** ", Or(Get(paper, "published", Null), Get(paper, "date", Str("")))),
      ("**Topic:** ", Get(paper, "topic", Str(""))),
      ("**Summary:** ", Get(paper, "abstract", Str(""))),
      ("**Full Text:**\n", Get(paper, "fulltext", Str(""))),
      ("**URL:** ", Get(paper, "url", Str(""))) ]
  }

  /** The lines of the fields with a truthy value, in order. */
  function ShownLines(fields: seq<(string, Value)>): (r: seq<string>)
    ensures |r| <= |fields|
  {
    if fields == [] then []
    else (if Truthy(fields[0].1) then [fields[0].0 + Show(fields[0].1)] else []) + ShownLines(fields[1..])
  }

  /** `_format_paper(paper)`: the title line, then each optional line whose value is truthy, joined by line breaks. */
  function FormatPaperLines(paper: map<string, Value>): (lines: seq<string>)
    ensures 1 <= |lines| <= 8
    ensures lines[0] == "**Title:** " + Show(TitleOf(paper))
  {
    ["**Title:** " + Show(TitleOf(paper))] + ShownLines(OptionalFields(paper))
  }

  function FormatPaper(paper: map<string, Value>): string {
    Join("\n", FormatPaperLines(paper))
  }

  /** Lines are kept exactly for the truthy fields, in the fields' order. */
  lemma {:induction false} ShownLinesSpec(fields: seq<(string, Value)>, i: nat)
    requires i < |fields|
    ensures Truthy(fields[i].1) <==> |ShownLines(fields[..i + 1])| == |ShownLines(fields[..i])| + 1
    ensures Truthy(fields[i].1) ==> ShownLines(fields[..i + 1]) == ShownLines(fields[..i]) + [fields[i].0 + Show(fields[i].1)]
    ensures ShownLines(fields) == ShownLines(fields[..i]) + ShownLines(fields[i..])
  {
    ShownLinesSplit(fields, i);
    ShownLinesSplit(fields[..i + 1], i);
    assert fields[..i + 1][..i] == fields[..i];
    assert fields[..i + 1][i..] == [fields[i]];
    assert [fields[i]][1..] == [];
  }

  lemma {:induction false} ShownLinesSplit(fields: seq<(string, Value)>, i: nat)
    requires i <= |fields|
    ensures ShownLines(fields) == ShownLines(fields[..i]) + ShownLines(fields[i..])
    decreases i
  {
    if i > 0 {
      ShownLinesSplit(fields[1..], i - 1);
      assert fields[1..][..i - 1] == fields[..i][1..];
      assert fields[1..][i - 1..] == fields[i..];
    }
  }

  /** A paper with no optional value set is shown as its title line alone. */
  lemma FormatPaperTitleOnly(paper: map<string, Value>)
    requires forall k :: 0 <= k < |OptionalFields(paper)| ==> !Truthy(OptionalFields(paper)[k].1)
    ensures FormatPaper(paper) == "**Title:** " + Show(TitleOf(paper))
  {
    var f := OptionalFields(paper);
    assert ShownLines(f[6..]) == [];
    assert ShownLines(f[5..]) == [];
    assert ShownLines(f[4..]) == [];
    assert ShownLines(f[3..]) == [];
    assert ShownLines(f[2..]) == [];
    assert ShownLines(f[1..]) == [];
    assert ShownLines(f) == [];
  }

  // ---- the debate ----

  // The fixed texts of the prompts, kept as constants.
  const OpeningHead := "Analyse this research paper and identify its novelty, impact, and relevance for investors:\n\n"
  const ScoutHead := "The Scout just said:\n\n"
  const ScoutTail := "\n\nBuild on these findings. What are the strongest opportunities here?"
  const SkepticHead := "The Skeptic just raised these concerns:\n\n"
  const SkepticTail := "\n\nRebut these points and reinforce the case for this paper."
  const ChallengeHead := "Scout said:\n"
  const ChallengeMiddle := "\n\nAdvocate added:\n"
  const ChallengeTail := "\n\nChallenge the weakest points. What are the critical risks?"
  const RebuttalHead := "The Skeptic challenged:\n\n"
  const RebuttalTail := "\n\nRespond to the strongest objection and refine your assessment."
  const ModeratorHead := "Here is the full debate transcript about the paper \""
  const ModeratorMiddle := "\":\n\n"
  const ModeratorTail := "\n\nProduce your JSON verdict now."

  /** The Scout's opening prompt on the formatted paper. */
  function OpeningPrompt(paperText: string): string {
    OpeningHead + paperText
  }

  /** The Advocate's prompt: on the Scout's findings in round 1, on the Skeptic's concerns later. */
  function AdvocatePrompt(r: int, lastScout: string, lastSkeptic: string): string {
    if r == 1 then ScoutHead + lastScout + ScoutTail
    else SkepticHead + lastSkeptic + SkepticTail
  }

  /** The Skeptic's prompt on the Scout's last word and the Advocate's reply. */
  function SkepticPrompt(lastScout: string, advocate: string): string {
    ChallengeHead + lastScout + ChallengeMiddle + advocate + ChallengeTail
  }

  /** The Scout's rebuttal prompt on the Skeptic's challenge. */
  function RebuttalPrompt(skeptic: string): string {
    RebuttalHead + skeptic + RebuttalTail
  }

  /** `[{agent} — Round {round}]` and the message, per entry. */
  function TranscriptBlocks(rounds: seq<Entry>): (r: seq<string>)
    ensures |r| == |rounds|
  {
    seq(|rounds|, i requires 0 <= i < |rounds| =>
      "[" + SpeakerName(rounds[i].agent) + " \U{2014} Round " + Show(Int(rounds[i].round)) + "]\n" + rounds[i].message)
  }

  function ModeratorPrompt(paper: map<string, Value>, rounds: seq<Entry>): string {
    ModeratorHead + Show(TitleOf(paper)) + ModeratorMiddle + Join("\n\n", TranscriptBlocks(rounds)) + ModeratorTail
  }

  datatype DebateResult = DebateResult(paper: map<string, Value>, rounds: seq<Entry>, verdict: Value, rawVerdict: string)

  // ---- the debate as a function of the replies ----

  /** A history after `say(prompt)` was answered with `reply`. */
  function Said(history: seq<Message>, prompt: string, reply: string): seq<Message> {
    history + [Message(User, prompt), Message(Assistant, reply)]
  }

  /**
   * The state of `run_debate` between rounds: the histories of the Scout, the
   * Advocate and the Skeptic, the Scout's and the Skeptic's last words, and the
   * transcript so far.
   */
  datatype Talk = Talk(scout: seq<Message>, advocate: seq<Message>, skeptic: seq<Message>,
                       lastScout: string, lastSkeptic: string, rounds: seq<Entry>)

  /**
   * Round `r` from state `t`: the Advocate answers the Scout (round 1) or the
   * Skeptic, the Skeptic answers the Scout and the Advocate, and unless the
   * round is the last the Scout rebuts the Skeptic. Each agent is asked with
   * its own history.
   */
  function RoundStep(t: Talk, r: int, last: bool, respond: (Persona, seq<Message>) -> string): Talk {
    var advPrompt := AdvocatePrompt(r, t.lastScout, t.lastSkeptic);
    var adv := respond(AdvocatePersona, t.advocate + [Message(User, advPrompt)]);
    var skepPrompt := SkepticPrompt(t.lastScout, adv);
    var skep := respond(SkepticPersona, t.skeptic + [Message(User, skepPrompt)]);
    var heard := t.(advocate := Said(t.advocate, advPrompt, adv), skeptic := Said(t.skeptic, skepPrompt, skep),
                    lastSkeptic := skep, rounds := t.rounds + [Entry(Advocate, r, adv), Entry(Skeptic, r, skep)]);
    if last then heard
    else
      var rebPrompt := RebuttalPrompt(skep);
      var reb := respond(ScoutPersona, t.scout + [Message(User, rebPrompt)]);
      heard.(scout := Said(t.scout, rebPrompt, reb), lastScout := reb, rounds := heard.rounds + [Entry(Scout, r + 1, reb)])
  }

  /** Rounds `r` to `numRounds` played from state `t`. */
  function RoundsFrom(t: Talk, r: int, numRounds: int, respond: (Persona, seq<Message>) -> string): Talk
    decreases numRounds + 1 - r
  {
    if r > numRounds then t else RoundsFrom(RoundStep(t, r, r == numRounds, respond), r + 1, numRounds, respond)
  }

  /** The state after the Scout's opening on `paperText`, before round 1. */
  function Opening(paperText: string, respond: (Persona, seq<Message>) -> string): Talk {
    var prompt := OpeningPrompt(paperText);
    var msg := respond(ScoutPersona, [Message(User, prompt)]);
    Talk(Said([], prompt, msg), [], [], msg, "", [Entry(Scout, 1, msg)])
  }

  /** The whole exchange of `run_debate` on the formatted paper `paperText`. */
  function Debate(paperText: string, numRounds: int, respond: (Persona, seq<Message>) -> string): Talk {
    RoundsFrom(Opening(paperText, respond), 1, numRounds, respond)
  }

  /** What `run_debate` returns: the transcript, the Moderator's reply to it and the cleaned verdict. */
  function DebateOf(paper: map<string, Value>, numRounds: int, respond: (Persona, seq<Message>) -> string,
                    parse: string -> Option<Value>): DebateResult
  {
    var rounds := Debate(FormatPaper(paper), numRounds, respond).rounds;
    var raw := respond(ModeratorPersona, [Message(User, ModeratorPrompt(paper, rounds))]);
    DebateResult(paper, rounds, VerdictOf(raw, parse), raw)
  }

  /** A round adds the Advocate's and the Skeptic's entries and, unless it is the last, the Scout's, to the transcript. */
  lemma RoundStepTurns(t: Talk, r: int, last: bool, respond: (Persona, seq<Message>) -> string)
    ensures Turns(RoundStep(t, r, last, respond).rounds)
      == Turns(t.rounds) + [Turn(Advocate, r), Turn(Skeptic, r)] + (if last then [] else [Turn(Scout, r + 1)])
    ensures t.rounds <= RoundStep(t, r, last, respond).rounds
  {
    var u := RoundStep(t, r, last, respond);
    var two := u.rounds[|t.rounds|..|t.rounds| + 2];
    assert t.rounds + two == u.rounds[..|t.rounds| + 2];
    TurnsAppend(t.rounds, two);
    assert Turns(two) == [Turn(Advocate, r), Turn(Skeptic, r)];
    if !last {
      var three := u.rounds[|t.rounds| + 2..];
      assert u.rounds == (t.rounds + two) + three;
      TurnsAppend(t.rounds + two, three);
      assert Turns(three) == [Turn(Scout, r + 1)];
    } else {
      assert u.rounds == t.rounds + two;
    }
  }

  /** Playing the remaining rounds from a state whose transcript follows the schedule completes the schedule, and only appends. */
  lemma {:induction false} RoundsFromSchedule(t: Talk, r: int, numRounds: int, respond: (Persona, seq<Message>) -> string)
    requires 1 <= r && (r <= numRounds + 1 || r == 1)
    requires Turns(t.rounds) == Progress(r - 1, numRounds)
    ensures Turns(RoundsFrom(t, r, numRounds, respond).rounds) == Schedule(numRounds)
    ensures t.rounds <= RoundsFrom(t, r, numRounds, respond).rounds
    decreases numRounds + 1 - r
  {
    if r <= numRounds {
      var u := RoundStep(t, r, r == numRounds, respond);
      RoundStepTurns(t, r, r == numRounds, respond);
      ProgressStep(r, numRounds);
      RoundsFromSchedule(u, r + 1, numRounds, respond);
    }
  }

  /**
   * The transcript of a debate follows the schedule, and it opens with the
   * Scout's reply to the opening prompt on the paper.
   */
  lemma DebateSchedule(paperText: string, numRounds: int, respond: (Persona, seq<Message>) -> string)
    ensures Turns(Debate(paperText, numRounds, respond).rounds) == Schedule(numRounds)
    ensures Debate(paperText, numRounds, respond).rounds[0].message
      == respond(ScoutPersona, [Message(User, OpeningPrompt(paperText))])
  {
    var o := Opening(paperText, respond);
    assert Turns(o.rounds) == [Turn(Scout, 1)] == Progress(0, numRounds);
    RoundsFromSchedule(o, 1, numRounds, respond);
    assert o.rounds[0] == Debate(paperText, numRounds, respond).rounds[0];
  }

  /**
   * Round `r` of the debate on the agents themselves: their histories and the
   * transcript move to the state `RoundStep` describes.
   */
  method Round(scout: Agent, advocate: Agent, skeptic: Agent, r: int, last: bool,
               lastScout: string, lastSkeptic: string, prior: seq<Entry>, respond: (Persona, seq<Message>) -> string)
    returns (rounds: seq<Entry>, scoutNow: string, skepticNow: string)
    requires scout != advocate && scout != skeptic && advocate != skeptic
    requires scout.persona == ScoutPersona && advocate.persona == AdvocatePersona && skeptic.persona == SkepticPersona
    modifies scout, advocate, skeptic
    ensures Talk(scout.history, advocate.history, skeptic.history, scoutNow, skepticNow, rounds)
      == RoundStep(Talk(old(scout.history), old(advocate.history), old(skeptic.history), lastScout, lastSkeptic, prior),
                   r, last, respond)
  {
    var advMsg := advocate.Say(AdvocatePrompt(r, lastScout, lastSkeptic), respond);
    var skepMsg := skeptic.Say(SkepticPrompt(lastScout, advMsg), respond);
    rounds := prior + [Entry(Advocate, r, advMsg), Entry(Skeptic, r, skepMsg)];
    skepticNow, scoutNow := skepMsg, lastScout;
    if !last {
      var rebuttal := scout.Say(RebuttalPrompt(skepMsg), respond);
      rounds := rounds + [Entry(Scout, r + 1, rebuttal)];
      scoutNow := rebuttal;
    }
  }

  /**
   * The loop `for r in range(1, num_rounds + 1)` after the Scout's opening
   * `scoutMsg`: the agents' histories and the transcript end as `RoundsFrom`
   * describes.
   */
  method PlayRounds(scout: Agent, advocate: Agent, skeptic: Agent, numRounds: int, scoutMsg: string,
                    respond: (Persona, seq<Message>) -> string)
    returns (rounds: seq<Entry>)
    requires scout != advocate && scout != skeptic && advocate != skeptic
    requires scout.persona == ScoutPersona && advocate.persona == AdvocatePersona && skeptic.persona == SkepticPersona
    modifies scout, advocate, skeptic
    ensures var done := RoundsFrom(Talk(old(scout.history), old(advocate.history), old(skeptic.history),
                                        scoutMsg, "", [Entry(Scout, 1, scoutMsg)]), 1, numRounds, respond);
      rounds == done.rounds
      && scout.history == done.scout && advocate.history == done.advocate && skeptic.history == done.skeptic
  {
    rounds := [Entry(Scout, 1, scoutMsg)];
    var lastScout := scoutMsg;
    var lastSkeptic := "";

    var r := 1;
    while r <= numRounds
      invariant 1 <= r
      invariant RoundsFrom(Talk(scout.history, advocate.history, skeptic.history, lastScout, lastSkeptic, rounds), r, numRounds, respond)
        == RoundsFrom(Talk(old(scout.history), old(advocate.history), old(skeptic.history),
                           scoutMsg, "", [Entry(Scout, 1, scoutMsg)]), 1, numRounds, respond)
    {
      rounds, lastScout, lastSkeptic := Round(scout, advocate, skeptic, r, r == numRounds, lastScout, lastSkeptic, rounds, respond);
      r := r + 1;
    }
  }

  /**
   * The rounds of `run_debate`: three fresh agents, the Scout's opening on
   * `paperText`, then `PlayRounds`. The transcript is `Debate`'s, so it follows
   * the schedule and opens with the Scout's reply.
   */
  method DebateRounds(paperText: string, numRounds: int, respond: (Persona, seq<Message>) -> string)
    returns (rounds: seq<Entry>)
    ensures rounds == Debate(paperText, numRounds, respond).rounds
    ensures Turns(rounds) == Schedule(numRounds)
    ensures rounds[0].message == respond(ScoutPersona, [Message(User, OpeningPrompt(paperText))])
  {
    var scout := new Agent("Scout", ScoutPersona);
    var advocate := new Agent("Advocate", AdvocatePersona);
    var skeptic := new Agent("Skeptic", SkepticPersona);

    var opening := OpeningPrompt(paperText);
    assert [] + [Message(User, opening)] == [Message(User, opening)];
    var scoutMsg := scout.Say(opening, respond);
    rounds := PlayRounds(scout, advocate, skeptic, numRounds, scoutMsg, respond);
    DebateSchedule(paperText, numRounds, respond);
  }

  /** The Moderator's reply cleaned into the verdict: the fence stripped, parsed, the aliases normalised. */
  method CleanVerdict(rawVerdict: string, parse: string -> Option<Value>) returns (verdict: Value)
    ensures verdict == VerdictOf(rawVerdict, parse)
  {
    var cleaned := VerdictUnfence(rawVerdict);
    match parse(cleaned) {
      case None =>
        verdict := Obj(Fallback(rawVerdict));
      case Some(v) =>
        if v.Obj? {
          var normalized := NormalizeVerdict(v.fields);
          verdict := Obj(normalized);
        } else {
          verdict := v;
        }
    }
  }

  /**
   * `run_debate(paper, num_rounds=...)`: the result is `DebateOf`'s, so the rounds follow `Schedule`, the
   * Scout opens on the formatted paper, the Moderator is shown the title and the
   * transcript, and its reply is cleaned into the verdict.
   */
  method RunDebate(paper: map<string, Value>, numRounds: int, respond: (Persona, seq<Message>) -> string,
                   parse: string -> Option<Value>)
    returns (result: DebateResult)
    ensures result == DebateOf(paper, numRounds, respond, parse)
    ensures result.paper == paper
    ensures Turns(result.rounds) == Schedule(numRounds)
    ensures result.rounds[0].message == respond(ScoutPersona, [Message(User, OpeningPrompt(FormatPaper(paper)))])
    ensures result.rawVerdict == respond(ModeratorPersona, [Message(User, ModeratorPrompt(paper, result.rounds))])
    ensures result.verdict == VerdictOf(result.rawVerdict, parse)
  {
    var rounds := DebateRounds(FormatPaper(paper), numRounds, respond);
    var moderator := new Agent("Moderator", ModeratorPersona);
    var prompt := ModeratorPrompt(paper, rounds);
    assert [] + [Message(User, prompt)] == [Message(User, prompt)];
    var rawVerdict := moderator.Say(prompt, respond);
    var verdict := CleanVerdict(rawVerdict, parse);
    result := DebateResult(paper, rounds, verdict, rawVerdict);
  }
}
