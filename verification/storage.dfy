/**
 * `save_papers_to_supabase` (research_harness.py): write the serialised papers to
 * a table, first as an upsert keyed by URL, switching once to plain inserts when
 * the table has no unique constraint on `url`, and dropping one column per attempt
 * that the table reports missing, for at most five attempts. The Supabase client
 * is an oracle from (attempt, request) to the error text it raised, if any.
 */
module Storage {
  import opened Wrappers
  import opened Text
  import opened Json
  import opened Papers

  type Row = map<string, Value>

  datatype Mode = Upsert | Insert

  /** One write the loop issued: its mode and the columns its rows left out. */
  datatype Request = Request(mode: Mode, skipped: set<string>)

  /** How the save ended: the rows reported written (the return value), and every request issued. */
  datatype Outcome = Outcome(count: nat, succeeded: bool, requests: seq<Request>)

  const MaxRetries: nat := 5

  // ---- configuration ----

  /** `(a or b or "").strip()` over two optional environment values. */
  function EnvKey(serviceRoleKey: Option<string>, plainKey: Option<string>): (k: string)
    ensures Present(serviceRoleKey) ==> k == Strip(serviceRoleKey.value)
    ensures !Present(serviceRoleKey) && Present(plainKey) ==> k == Strip(plainKey.value)
    ensures !Present(serviceRoleKey) && !Present(plainKey) ==> k == ""
  {
    Strip(if Present(serviceRoleKey) then serviceRoleKey.value else if Present(plainKey) then plainKey.value else "")
  }

  // ---- rows ----

  /** `build_rows(skip_columns)`: one serialised paper per input, without the skipped columns. */
  function BuildRows(papers: seq<Paper>, topic: Option<string>, skip: set<string>): (rows: seq<Row>)
    ensures |rows| == |papers|
    ensures forall i :: 0 <= i < |rows| ==> rows[i] == PaperToDict(papers[i], topic) - skip
  {
    seq(|papers|, i requires 0 <= i < |papers| => PaperToDict(papers[i], topic) - skip)
  }

  /** Each row carries exactly the columns that are not skipped, with the serialised values. */
  lemma BuildRowsColumns(papers: seq<Paper>, topic: Option<string>, skip: set<string>)
    ensures forall i :: 0 <= i < |papers| ==> BuildRows(papers, topic, skip)[i].Keys == Columns - skip
    ensures forall i, c :: 0 <= i < |papers| && c in BuildRows(papers, topic, skip)[i] ==>
      BuildRows(papers, topic, skip)[i][c] == PaperToDict(papers[i], topic)[c]
  {
  }

  // ---- reading the error text ----

  /** 42P10, or its message: no unique or exclusion constraint matches the ON CONFLICT target. */
  predicate NoUniqueConstraint(err: string) {
    Contains(err, "42P10") || Contains(Lower(err), "unique or exclusion constraint")
  }

  /** `\w` over ASCII. */
  predicate IsWordChar(c: char) {
    ('a' <= c <= 'z') || ('A' <= c <= 'Z') || ('0' <= c <= '9') || c == '_'
  }

  predicate IsQuote(c: char) {
    c == '\'' || c == '"'
  }

  /** Length of the longest run of word characters at the start of `s`. */
  function WordRun(s: string): (n: nat)
    ensures n <= |s|
    ensures forall i :: 0 <= i < n ==> IsWordChar(s[i])
    ensures n < |s| ==> !IsWordChar(s[n])
    decreases |s|
  {
    if s == [] || !IsWordChar(s[0]) then 0 else 1 + WordRun(s[1..])
  }

  const MissingPrefix: string := "Could not find the "
  const MissingSuffix: string := " column"

  /**
   * The pattern ``Could not find the ['"](\w+)['"] column`` matched at position `i`:
   * the word run is greedy and no quote is a word character, so the only candidate
   * for the group is the whole run.
   */
  function ColumnAt(err: string, i: nat): (r: Option<string>)
    requires i <= |err|
    ensures r.Some? ==> r.value != [] && forall k :: 0 <= k < |r.value| ==> IsWordChar(r.value[k])
  {
    var rest := err[i..];
    if MissingPrefix <= rest && |rest| > |MissingPrefix| && IsQuote(rest[|MissingPrefix|]) then
      var w := rest[|MissingPrefix| + 1..];
      var n := WordRun(w);
      if 0 < n < |w| && IsQuote(w[n]) && MissingSuffix <= w[n + 1..] then Some(w[..n]) else None
    else None
  }

  /** `re.search` of that pattern from position `i`: the leftmost match, if any. */
  function MissingColumnFrom(err: string, i: nat): (r: Option<string>)
    requires i <= |err|
    ensures r.Some? ==> r.value != [] && forall k :: 0 <= k < |r.value| ==> IsWordChar(r.value[k])
    decreases |err| - i
  {
    if ColumnAt(err, i).Some? then ColumnAt(err, i)
    else if i == |err| then None
    else MissingColumnFrom(err, i + 1)
  }

  /** The column a PGRST204 error names, when the message has the shape above. */
  function MissingColumn(err: string): (r: Option<string>)
    ensures r.Some? ==> r.value != [] && forall k :: 0 <= k < |r.value| ==> IsWordChar(r.value[k])
  {
    MissingColumnFrom(err, 0)
  }

  /** The search finds nothing exactly when no position from `i` on has a match. */
  lemma {:induction false} MissingColumnFromNone(err: string, i: nat)
    requires i <= |err|
    ensures MissingColumnFrom(err, i).None? <==> forall j :: i <= j <= |err| ==> ColumnAt(err, j).None?
    decreases |err| - i
  {
    if ColumnAt(err, i).Some? {
      assert MissingColumnFrom(err, i).Some?;
    } else if i == |err| {
      assert MissingColumnFrom(err, i).None?;
      forall j | i <= j <= |err| ensures ColumnAt(err, j).None? {
        assert j == i;
      }
    } else {
      MissingColumnFromNone(err, i + 1);
      assert MissingColumnFrom(err, i) == MissingColumnFrom(err, i + 1);
      if forall j :: i + 1 <= j <= |err| ==> ColumnAt(err, j).None? {
        forall j | i <= j <= |err| ensures ColumnAt(err, j).None? {
          if j > i {
            assert i + 1 <= j <= |err|;
          }
        }
      }
    }
  }

  /** What the search finds is the match at the leftmost position that has one. */
  lemma {:induction false} MissingColumnFromLeftmost(err: string, i: nat)
    requires i <= |err| && MissingColumnFrom(err, i).Some?
    ensures exists j ::
      && i <= j <= |err|
      && ColumnAt(err, j) == MissingColumnFrom(err, i)
      && forall k :: i <= k < j ==> ColumnAt(err, k).None?
    decreases |err| - i
  {
    if ColumnAt(err, i).Some? {
      assert ColumnAt(err, i) == MissingColumnFrom(err, i);
    } else {
      MissingColumnFromLeftmost(err, i + 1);
      var j :|
        && i + 1 <= j <= |err|
        && ColumnAt(err, j) == MissingColumnFrom(err, i + 1)
        && forall k :: i + 1 <= k < j ==> ColumnAt(err, k).None?;
      assert ColumnAt(err, j) == MissingColumnFrom(err, i);
    }
  }

  /** PostgREST's message for an unknown column yields that column. */
  lemma MissingColumnOfMessage(col: string, table: string)
    requires col != [] && forall k :: 0 <= k < |col| ==> IsWordChar(col[k])
    ensures MissingColumn(MissingPrefix + "'" + col + "'" + MissingSuffix + " of '" + table + "' in the schema cache") == Some(col)
  {
    var tail := "'" + MissingSuffix + " of '" + table + "' in the schema cache";
    var err := MissingPrefix + "'" + col + "'" + MissingSuffix + " of '" + table + "' in the schema cache";
    assert err == MissingPrefix + ("'" + (col + tail));
    assert tail[1..] == MissingSuffix + (" of '" + table + "' in the schema cache");
    ColumnAtQuoted(col, tail);
  }

  /** A quoted word right after the prefix, followed by the suffix, is the column found at 0. */
  lemma ColumnAtQuoted(col: string, tail: string)
    requires col != [] && forall k :: 0 <= k < |col| ==> IsWordChar(col[k])
    requires tail != [] && tail[0] == '\'' && MissingSuffix <= tail[1..]
    ensures ColumnAt(MissingPrefix + ("'" + (col + tail)), 0) == Some(col)
  {
    var err := MissingPrefix + ("'" + (col + tail));
    assert err[0..] == err;
    assert err[..|MissingPrefix|] == MissingPrefix;
    assert err[|MissingPrefix|] == '\'';
    var w := err[|MissingPrefix| + 1..];
    assert w == col + tail;
    WordRunOf(col, tail);
    assert w[..|col|] == col;
    assert w[|col| + 1..] == tail[1..];
  }

  lemma {:induction false} WordRunOf(w: string, tail: string)
    requires forall k :: 0 <= k < |w| ==> IsWordChar(w[k])
    requires tail != [] && !IsWordChar(tail[0])
    ensures WordRun(w + tail) == |w|
    decreases |w|
  {
    if w == [] {
      assert (w + tail)[0] == tail[0];
    } else {
      assert (w + tail)[0] == w[0];
      assert (w + tail)[1..] == w[1..] + tail;
      WordRunOf(w[1..], tail);
    }
  }

  // ---- the retry loop ----

  function ModeOf(useUpsert: bool): Mode {
    if useUpsert then Upsert else Insert
  }

  /** What the handler reads in an error: the 42P10 test and the column the pattern names. */
  datatype Reading = Reading(noUniqueConstraint: bool, missingColumn: Option<string>)

  /** The two tests the handler applies to `str(e)`. */
  function ReadError(err: string): (r: Reading)
    ensures r.noUniqueConstraint == NoUniqueConstraint(err)
    ensures r.missingColumn == MissingColumn(err)
  {
    Reading(NoUniqueConstraint(err), MissingColumn(err))
  }

  /** What one attempt leads to: the end of the loop, or another attempt in a new state. */
  datatype Step = Stop(succeeded: bool) | Again(useUpsert: bool, skipped: set<string>)

  /**
   * The handling of one attempt's result: success stops; a constraint error while
   * upserting switches to insert; a missing-column error skips that column; any
   * other error stops. `read` is `ReadError`; the loop's shape does not depend on it.
   */
  function Next(err: Option<string>, read: string -> Reading, useUpsert: bool, skipped: set<string>): (s: Step)
    ensures s.Again? ==> (!useUpsert ==> !s.useUpsert) && skipped <= s.skipped
    ensures s == Stop(true) <==> err.None?
  {
    match err
    case None => Stop(true)
    case Some(e) =>
      if useUpsert && read(e).noUniqueConstraint then Again(false, skipped)
      else
        match read(e).missingColumn
        case Some(col) => Again(useUpsert, skipped + {col})
        case None => Stop(false)
  }

  /**
   * The handler on an error message: a 42P10 while upserting switches to a plain
   * insert of the same columns; otherwise a named missing column is skipped, and
   * any other error ends the save unsuccessfully.
   */
  lemma NextTransitions(err: string, useUpsert: bool, skipped: set<string>)
    ensures useUpsert && NoUniqueConstraint(err) ==> Next(Some(err), ReadError, useUpsert, skipped) == Again(false, skipped)
    ensures !(useUpsert && NoUniqueConstraint(err)) && MissingColumn(err).Some? ==>
              Next(Some(err), ReadError, useUpsert, skipped) == Again(useUpsert, skipped + {MissingColumn(err).value})
    ensures !(useUpsert && NoUniqueConstraint(err)) && MissingColumn(err).None? ==>
              Next(Some(err), ReadError, useUpsert, skipped) == Stop(false)
  {
  }

  /**
   * The attempts from `attempt` on, in state (`useUpsert`, `skipped`): the requests
   * they issue and how the save ends; running out of attempts returns 0.
   * `respond(n, r)` is the error the client raises for attempt `n`, which sends
   * request `r` (its rows are `BuildRows` without `r.skipped`), or None.
   */
  function Attempts(papers: seq<Paper>, respond: (nat, Request) -> Option<string>, read: string -> Reading,
                    attempt: nat, useUpsert: bool, skipped: set<string>): (o: Outcome)
    decreases MaxRetries - attempt
  {
    if attempt >= MaxRetries then Outcome(0, false, [])
    else
      var here := Request(ModeOf(useUpsert), skipped);
      match Next(respond(attempt, here), read, useUpsert, skipped)
      case Stop(ok) => Outcome(if ok then |papers| else 0, ok, [here])
      case Again(u, s) =>
        var rest := Attempts(papers, respond, read, attempt + 1, u, s);
        Outcome(rest.count, rest.succeeded, [here] + rest.requests)
  }

  /**
   * `save_papers_to_supabase(papers, table, topic)`: an unset URL or key, or a
   * missing client library, writes nothing; otherwise the attempts from an upsert
   * of every column. The topic only shapes the rows (see `SaveAttempts`).
   */
  function Save(papers: seq<Paper>, supabaseUrl: Option<string>, serviceRoleKey: Option<string>,
                plainKey: Option<string>, clientInstalled: bool, respond: (nat, Request) -> Option<string>): (o: Outcome)
    ensures o.count == if o.succeeded then |papers| else 0
    ensures |o.requests| <= MaxRetries
    ensures Strip(supabaseUrl.GetOr("")) == "" || EnvKey(serviceRoleKey, plainKey) == "" || !clientInstalled ==> o == Outcome(0, false, [])
  {
    if Strip(supabaseUrl.GetOr("")) == "" || EnvKey(serviceRoleKey, plainKey) == "" || !clientInstalled then Outcome(0, false, [])
    else
      AttemptsShape(papers, respond, ReadError, 0, true, {});
      Attempts(papers, respond, ReadError, 0, true, {})
  }

  /**
   * From attempt `attempt`, at most the attempts that are left are made, the
   * first of them in the current state; the count is the number of papers
   * exactly when the save succeeded.
   */
  lemma {:induction false} AttemptsShape(papers: seq<Paper>, respond: (nat, Request) -> Option<string>, read: string -> Reading,
                                         attempt: nat, useUpsert: bool, skipped: set<string>)
    ensures var o := Attempts(papers, respond, read, attempt, useUpsert, skipped);
      && |o.requests| <= (if attempt < MaxRetries then MaxRetries - attempt else 0)
      && (attempt < MaxRetries ==> |o.requests| >= 1 && o.requests[0] == Request(ModeOf(useUpsert), skipped))
      && o.count == (if o.succeeded then |papers| else 0)
    decreases MaxRetries - attempt
  {
    if attempt < MaxRetries {
      var here := Request(ModeOf(useUpsert), skipped);
      var st := Next(respond(attempt, here), read, useUpsert, skipped);
      if st.Again? {
        AttemptsShape(papers, respond, read, attempt + 1, st.useUpsert, st.skipped);
      }
    }
  }

  /** An outcome with the requests of `log` issued before it. */
  function After(log: seq<Request>, o: Outcome): Outcome {
    o.(requests := log + o.requests)
  }

  lemma AfterAfter(log: seq<Request>, here: Request, o: Outcome)
    ensures After(log, After([here], o)) == After(log + [here], o)
  {
    assert log + ([here] + o.requests) == (log + [here]) + o.requests;
  }

  lemma AfterNothing(o: Outcome)
    ensures After([], o) == o
  {
    assert [] + o.requests == o.requests;
  }

  /** One attempt, unfolded: how the outcome from `attempt` is made of this attempt's request and the rest. */
  lemma AttemptsUnfold(papers: seq<Paper>, respond: (nat, Request) -> Option<string>, read: string -> Reading,
                       attempt: nat, useUpsert: bool, skipped: set<string>)
    ensures attempt >= MaxRetries ==> Attempts(papers, respond, read, attempt, useUpsert, skipped) == Outcome(0, false, [])
    ensures attempt < MaxRetries ==>
      var here := Request(ModeOf(useUpsert), skipped);
      var st := Next(respond(attempt, here), read, useUpsert, skipped);
      && (st.Stop? ==> Attempts(papers, respond, read, attempt, useUpsert, skipped)
                       == Outcome(if st.succeeded then |papers| else 0, st.succeeded, [here]))
      && (st.Again? ==> Attempts(papers, respond, read, attempt, useUpsert, skipped)
                        == After([here], Attempts(papers, respond, read, attempt + 1, st.useUpsert, st.skipped)))
  {
  }

  /** An attempt that is retried, after the requests `log`. */
  lemma StepAgain(papers: seq<Paper>, respond: (nat, Request) -> Option<string>, read: string -> Reading,
                  attempt: nat, useUpsert: bool, skipped: set<string>, log: seq<Request>, u: bool, s: set<string>)
    requires attempt < MaxRetries
    requires Next(respond(attempt, Request(ModeOf(useUpsert), skipped)), read, useUpsert, skipped) == Again(u, s)
    ensures After(log, Attempts(papers, respond, read, attempt, useUpsert, skipped))
      == After(log + [Request(ModeOf(useUpsert), skipped)], Attempts(papers, respond, read, attempt + 1, u, s))
  {
    AttemptsUnfold(papers, respond, read, attempt, useUpsert, skipped);
    AfterAfter(log, Request(ModeOf(useUpsert), skipped), Attempts(papers, respond, read, attempt + 1, u, s));
  }

  /** No attempts left, after the requests `log`. */
  lemma AttemptsDone(papers: seq<Paper>, respond: (nat, Request) -> Option<string>, read: string -> Reading,
                     attempt: nat, useUpsert: bool, skipped: set<string>, log: seq<Request>)
    requires attempt >= MaxRetries
    ensures After(log, Attempts(papers, respond, read, attempt, useUpsert, skipped)) == Outcome(0, false, log)
  {
    assert log + [] == log;
  }

  /** An attempt that ends the loop, after the requests `log`. */
  lemma StepStop(papers: seq<Paper>, respond: (nat, Request) -> Option<string>, read: string -> Reading,
                 attempt: nat, useUpsert: bool, skipped: set<string>, log: seq<Request>, ok: bool)
    requires attempt < MaxRetries
    requires Next(respond(attempt, Request(ModeOf(useUpsert), skipped)), read, useUpsert, skipped) == Stop(ok)
    ensures After(log, Attempts(papers, respond, read, attempt, useUpsert, skipped))
      == Outcome(if ok then |papers| else 0, ok, log + [Request(ModeOf(useUpsert), skipped)])
  {
    AttemptsUnfold(papers, respond, read, attempt, useUpsert, skipped);
  }

  /** The body of the write loop: send the rows, then read the error, if any. */
  method AttemptOnce(papers: seq<Paper>, topic: Option<string>, respond: (nat, Request) -> Option<string>,
                     read: string -> Reading, attempt: nat, useUpsert: bool, skipped: set<string>)
    returns (sent: nat, step: Step)
    ensures sent == |papers|
    ensures step == Next(respond(attempt, Request(ModeOf(useUpsert), skipped)), read, useUpsert, skipped)
  {
    var rows := BuildRows(papers, topic, skipped);
    sent := |rows|;
    var err := respond(attempt, Request(ModeOf(useUpsert), skipped));
    if err.None? {
      return sent, Stop(true);
    }
    var reading := read(err.value);
    if useUpsert && reading.noUniqueConstraint {
      return sent, Again(false, skipped);
    }
    if reading.missingColumn.Some? {
      return sent, Again(useUpsert, skipped + {reading.missingColumn.value});
    }
    return sent, Stop(false);
  }

  /** The write loop: at most five attempts, each one ending the save or changing its state. */
  method SaveLoop(papers: seq<Paper>, topic: Option<string>, respond: (nat, Request) -> Option<string>,
                  read: string -> Reading)
    returns (count: nat, succeeded: bool, requests: seq<Request>)
    ensures Outcome(count, succeeded, requests) == Attempts(papers, respond, read, 0, true, {})
  {
    var skippedColumns: set<string> := {};
    var useUpsert := true;
    requests := [];
    var attempt := 0;
    AfterNothing(Attempts(papers, respond, read, 0, true, {}));
    while attempt < MaxRetries
      invariant attempt <= MaxRetries
      invariant Attempts(papers, respond, read, 0, true, {}) == After(requests, Attempts(papers, respond, read, attempt, useUpsert, skippedColumns))
    {
      var sent, step := AttemptOnce(papers, topic, respond, read, attempt, useUpsert, skippedColumns);
      var here := Request(ModeOf(useUpsert), skippedColumns);
      if step.Stop? {
        StepStop(papers, respond, read, attempt, useUpsert, skippedColumns, requests, step.succeeded);
        return if step.succeeded then sent else 0, step.succeeded, requests + [here];
      }
      StepAgain(papers, respond, read, attempt, useUpsert, skippedColumns, requests, step.useUpsert, step.skipped);
      requests, useUpsert, skippedColumns, attempt := requests + [here], step.useUpsert, step.skipped, attempt + 1;
    }
    AttemptsDone(papers, respond, read, attempt, useUpsert, skippedColumns, requests);
    return 0, false, requests;
  }

  /**
   * `save_papers_to_supabase`: the configuration checks, then the write loop with
   * the handler's two tests on the error text.
   */
  method SavePapers(papers: seq<Paper>, topic: Option<string>, supabaseUrl: Option<string>, serviceRoleKey: Option<string>,
                    plainKey: Option<string>, clientInstalled: bool, respond: (nat, Request) -> Option<string>)
    returns (count: nat, succeeded: bool, requests: seq<Request>)
    ensures Outcome(count, succeeded, requests) == Save(papers, supabaseUrl, serviceRoleKey, plainKey, clientInstalled, respond)
  {
    var url := Strip(supabaseUrl.GetOr(""));
    var key := EnvKey(serviceRoleKey, plainKey);
    if url == "" || key == "" || !clientInstalled {
      return 0, false, [];
    }
    count, succeeded, requests := SaveLoop(papers, topic, respond, ReadError);
  }

  /** `b` may follow `a`: never back from insert to upsert, and no skipped column restored. */
  predicate Follows(a: Request, b: Request) {
    (a.mode == Insert ==> b.mode == Insert) && a.skipped <= b.skipped
  }

  /** Each request follows the one before it. */
  predicate Chain(log: seq<Request>)
    decreases |log|
  {
    |log| <= 1 || (Follows(log[0], log[1]) && Chain(log[1..]))
  }

  /** From any state, the requests issued form a chain. */
  lemma {:induction false} AttemptsChain(papers: seq<Paper>, respond: (nat, Request) -> Option<string>, read: string -> Reading,
                                         attempt: nat, useUpsert: bool, skipped: set<string>)
    ensures Chain(Attempts(papers, respond, read, attempt, useUpsert, skipped).requests)
    decreases MaxRetries - attempt
  {
    AttemptsUnfold(papers, respond, read, attempt, useUpsert, skipped);
    if attempt < MaxRetries {
      var here := Request(ModeOf(useUpsert), skipped);
      var st := Next(respond(attempt, here), read, useUpsert, skipped);
      if st.Again? {
        var rest := Attempts(papers, respond, read, attempt + 1, st.useUpsert, st.skipped);
        AttemptsChain(papers, respond, read, attempt + 1, st.useUpsert, st.skipped);
        var log := [here] + rest.requests;
        assert log[1..] == rest.requests;
        if rest.requests != [] {
          assert Follows(here, rest.requests[0]);
        }
      }
    }
  }

  /** In a chain, every request follows every earlier one. */
  lemma {:induction false} ChainPairwise(log: seq<Request>)
    requires Chain(log)
    ensures forall i, j :: 0 <= i < j < |log| ==> Follows(log[i], log[j])
    decreases |log|
  {
    if |log| > 1 {
      ChainPairwise(log[1..]);
      forall i, j | 0 <= i < j < |log| ensures Follows(log[i], log[j]) {
        if i > 0 {
          assert log[i] == log[1..][i - 1] && log[j] == log[1..][j - 1];
        } else if j > 1 {
          assert log[1] == log[1..][0] && log[j] == log[1..][j - 1];
        }
      }
    }
  }

  /**
   * The attempts from the first issue between one and five requests: an upsert
   * of every column first, then a switch to insert at most once and never back,
   * and a skipped set that only grows; the count is the number of papers exactly
   * when the last request succeeded.
   */
  lemma AttemptsRequests(papers: seq<Paper>, respond: (nat, Request) -> Option<string>, read: string -> Reading)
    ensures var o := Attempts(papers, respond, read, 0, true, {});
      && 1 <= |o.requests| <= MaxRetries
      && o.requests[0] == Request(Upsert, {})
      && (forall i, j :: 0 <= i < j < |o.requests| && o.requests[i].mode == Insert ==> o.requests[j].mode == Insert)
      && (forall i, j :: 0 <= i < j < |o.requests| ==> o.requests[i].skipped <= o.requests[j].skipped)
      && o.count == (if o.succeeded then |papers| else 0)
  {
    AttemptsShape(papers, respond, read, 0, true, {});
    AttemptsChain(papers, respond, read, 0, true, {});
    ChainPairwise(Attempts(papers, respond, read, 0, true, {}).requests);
  }

  /** A configured save with the client installed runs those attempts. */
  lemma SaveRequests(papers: seq<Paper>, supabaseUrl: Option<string>, serviceRoleKey: Option<string>,
                     plainKey: Option<string>, respond: (nat, Request) -> Option<string>)
    requires Strip(supabaseUrl.GetOr("")) != "" && EnvKey(serviceRoleKey, plainKey) != ""
    ensures Save(papers, supabaseUrl, serviceRoleKey, plainKey, true, respond) == Attempts(papers, respond, ReadError, 0, true, {})
    ensures var o := Save(papers, supabaseUrl, serviceRoleKey, plainKey, true, respond);
      && 1 <= |o.requests| <= MaxRetries
      && o.requests[0] == Request(Upsert, {})
  {
    AttemptsRequests(papers, respond, ReadError);
  }

  /**
   * A table that keeps reporting missing columns (for `ReadError`: a message that
   * matches the pattern and is not a 42P10) exhausts the five attempts and gets
   * nothing written.
   */
  lemma {:induction false} MissingColumnsExhaust(papers: seq<Paper>, respond: (nat, Request) -> Option<string>, read: string -> Reading,
                                                 attempt: nat, useUpsert: bool, skipped: set<string>)
    requires attempt <= MaxRetries
    requires forall a, r :: attempt <= a < MaxRetries ==>
      respond(a, r).Some? && !read(respond(a, r).value).noUniqueConstraint && read(respond(a, r).value).missingColumn.Some?
    ensures var o := Attempts(papers, respond, read, attempt, useUpsert, skipped);
      o.count == 0 && !o.succeeded && |o.requests| == MaxRetries - attempt
    decreases MaxRetries - attempt
  {
    AttemptsUnfold(papers, respond, read, attempt, useUpsert, skipped);
    if attempt < MaxRetries {
      var err := respond(attempt, Request(ModeOf(useUpsert), skipped));
      var st := Next(err, read, useUpsert, skipped);
      assert st == Again(useUpsert, skipped + {read(err.value).missingColumn.value});
      MissingColumnsExhaust(papers, respond, read, attempt + 1, st.useUpsert, st.skipped);
    }
  }

  /** An upsert refused for want of a unique constraint is retried once as an insert of the same rows. */
  lemma ConstraintFallsBackToInsert(papers: seq<Paper>, respond: (nat, Request) -> Option<string>)
    requires respond(0, Request(Upsert, {})).Some?
    requires NoUniqueConstraint(respond(0, Request(Upsert, {})).value)
    requires respond(1, Request(Insert, {})).None?
    ensures Attempts(papers, respond, ReadError, 0, true, {}) == Outcome(|papers|, true, [Request(Upsert, {}), Request(Insert, {})])
  {
    AttemptsUnfold(papers, respond, ReadError, 0, true, {});
    AttemptsUnfold(papers, respond, ReadError, 1, false, {});
  }
}
