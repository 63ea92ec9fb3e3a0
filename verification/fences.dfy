/**
 * Removal of the Markdown code fences an LLM sometimes wraps its JSON in, in the
 * two forms the source uses: the ranker's (research_harness.py) and the
 * moderator verdict's (agents.py). Regex `\s` is taken to be `IsSpace`.
 */
module Fences {
  import opened Wrappers
  import opened Text

  const Fence: string := "```"

  /** The optional `json` language tag after an opening fence: `(?:json)?`. */
  function DropJsonTag(s: string): (r: string)
    ensures "json" <= s ==> r == s[4..]
    ensures !("json" <= s) ==> r == s
  {
    if "json" <= s then s[4..] else s
  }

  /** How far back from the first fence the ranker's opening pattern can reach. */
  datatype OpeningScope =
    | FirstLine   // `^.*?` without DOTALL: only text on the fence's own line (the code as written)
    | AnyLine     // any text before the first fence

  /**
   * `re.sub(r"^.*?```(?:json)?\s*", "", t)`: when the first fence is reachable,
   * drop everything up to it, the tag after it and the whitespace that follows.
   */
  function DropOpening(t: string, scope: OpeningScope): (r: string)
    ensures !Contains(t, Fence) ==> r == t
    ensures |r| <= |t|
  {
    var f := Find(t, Fence);
    if f.None? || (scope == FirstLine && '\n' in t[..f.value]) then t
    else LStrip(DropJsonTag(t[f.value + 3..]))
  }

  /**
   * `re.sub(r"\s*```.*$", "", t, flags=re.DOTALL)`: cut `t` at its first fence,
   * together with the whitespace just before it.
   */
  function CutAtFence(t: string): (r: string)
    ensures r <= t
    ensures !Contains(r, Fence)
    ensures !Contains(t, Fence) ==> r == t
  {
    match Find(t, Fence)
    case None => t
    case Some(k) =>
      var r := RStrip(t[..k]);
      NotContainsBeforeFirst(t, Fence, k, |r|);
      assert t[..|r|] == r;
      r
  }

  /** The opening pattern, once it reaches the first fence at `k`. */
  lemma DropOpeningAt(t: string, scope: OpeningScope, k: nat)
    requires Find(t, Fence) == Some(k)
    requires scope == AnyLine || '\n' !in t[..k]
    ensures DropOpening(t, scope) == LStrip(DropJsonTag(t[k + 3..]))
  {
  }

  /** Stripping text that holds no fence yields text that holds no fence. */
  lemma StripKeepsNoFence(s: string)
    requires !Contains(s, Fence)
    ensures !Contains(Strip(s), Fence)
  {
    StripSlice(s);
    NotContainsSlice(s, Fence, |RStrip(s)| - |Strip(s)|, |RStrip(s)|);
  }

  /**
   * `_filter_papers_with_llm`'s repair of the reply text before `json.loads`: strip;
   * if a fence occurs, drop the opening and cut at the closing; strip again.
   */
  function RankerUnfence(text: string, scope: OpeningScope): (r: string)
    ensures NoEdgeSpace(r)
    ensures !Contains(Strip(text), Fence) ==> r == Strip(text)
    ensures Contains(Strip(text), Fence) ==> !Contains(r, Fence)
  {
    var t := Strip(text);
    if !Contains(t, Fence) then t
    else
      var c := CutAtFence(DropOpening(t, scope));
      StripKeepsNoFence(c);
      Strip(c)
  }

  /** The ranker's repair of a stripped reply whose first fence, at `k`, opens `body` and a closing fence. */
  lemma RankerUnfenceAt(s: string, scope: OpeningScope, k: nat, body: string)
    requires Strip(s) == s && Find(s, Fence) == Some(k)
    requires scope == AnyLine || '\n' !in s[..k]
    requires LStrip(DropJsonTag(s[k + 3..])) == body + "\n```"
    requires '`' !in body && NoEdgeSpace(body)
    ensures RankerUnfence(s, scope) == body
  {
    DropOpeningAt(s, scope, k);
    FencedClosing(body);
    StripOfStripped(body);
  }

  /** A body in a `json`-tagged fence, after an optional preamble. */
  function Fenced(preamble: string, body: string): string {
    preamble + (Fence + ("json" + ("\n" + (body + "\n```"))))
  }

  /** The first occurrence of `t` is at `k` when no earlier character could start it. */
  lemma FindAt(s: string, t: string, k: nat)
    requires t != [] && k + |t| <= |s| && s[k..k + |t|] == t
    requires forall j :: 0 <= j < k ==> s[j] != t[0]
    ensures Find(s, t) == Some(k)
  {
    ContainsAt(s, t, k);
    assert s[k..][..|t|] == t;
    var f := Find(s, t).value;
    if k < f {
      FindFirst(s, t, k);
    }
    assert s[f] == t[0];
  }

  lemma LStripNewline(z: string)
    requires z != [] && !IsSpace(z[0])
    ensures LStrip("\n" + z) == z
  {
    assert ("\n" + z)[1..] == z;
  }

  lemma RStripNewline(b: string)
    requires NoEdgeSpace(b)
    ensures RStrip(b + "\n") == b
  {
    assert (b + "\n")[..|b|] == b;
  }

  /** After the opening fence and its tag, the opening pattern leaves the body and the closing fence. */
  lemma FencedRest(body: string)
    requires body != [] && !IsSpace(body[0])
    ensures LStrip(DropJsonTag("json" + ("\n" + (body + "\n```")))) == body + "\n```"
  {
    var z := body + "\n```";
    assert ("json" + ("\n" + z))[4..] == "\n" + z;
    assert z[0] == body[0];
    LStripNewline(z);
  }

  /** The first fence of a fenced body is the one after the preamble. */
  lemma FencedOpening(preamble: string, body: string)
    requires '`' !in preamble
    ensures Find(Fenced(preamble, body), Fence) == Some(|preamble|)
    ensures Fenced(preamble, body)[..|preamble|] == preamble
    ensures Fenced(preamble, body)[|preamble| + 3..] == "json" + ("\n" + (body + "\n```"))
  {
    var s := Fenced(preamble, body);
    var k := |preamble|;
    assert s[k..k + 3] == Fence;
    forall j | 0 <= j < k ensures s[j] != '`' {
      assert s[j] == preamble[j];
    }
    FindAt(s, Fence, k);
  }

  /** Cutting a body followed by a closing fence leaves the body. */
  lemma FencedClosing(body: string)
    requires '`' !in body && NoEdgeSpace(body)
    ensures CutAtFence(body + "\n```") == body
  {
    var s := body + "\n```";
    var k := |body| + 1;
    assert s[k..k + 3] == Fence;
    forall j | 0 <= j < k ensures s[j] != '`' {
      if j < |body| {
        assert s[j] == body[j];
      }
    }
    FindAt(s, Fence, k);
    assert s[..k] == body + "\n";
    RStripNewline(body);
  }

  /** A fenced reply has no edge whitespace when its preamble does not start with any. */
  lemma FencedStripped(preamble: string, body: string)
    requires preamble == [] || !IsSpace(preamble[0])
    ensures Strip(Fenced(preamble, body)) == Fenced(preamble, body)
  {
    var s := Fenced(preamble, body);
    assert s[|s| - 1] == '`';
    if preamble == [] {
      assert s[0] == '`';
    } else {
      assert s[0] == preamble[0];
    }
    StripOfStripped(s);
  }

  /**
   * With the preamble on the fence's own line, or with no preamble, the ranker
   * recovers exactly the fenced body.
   */
  lemma RankerUnfenceSameLine(preamble: string, body: string)
    requires '`' !in preamble && '\n' !in preamble && (preamble == [] || !IsSpace(preamble[0]))
    requires '`' !in body && body != [] && NoEdgeSpace(body)
    ensures RankerUnfence(Fenced(preamble, body), FirstLine) == body
  {
    var s := Fenced(preamble, body);
    var k := |preamble|;
    assert Strip(s) == s by {
      FencedStripped(preamble, body);
    }
    assert Find(s, Fence) == Some(k) && s[..k] == preamble by {
      FencedOpening(preamble, body);
    }
    assert LStrip(DropJsonTag(s[k + 3..])) == body + "\n```" by {
      FencedOpening(preamble, body);
      FencedRest(body);
    }
    RankerUnfenceAt(s, FirstLine, k, body);
  }

  /**
   * As written, a preamble that ends its own line keeps the opening pattern from
   * reaching the fence: the reply is cut to the stripped preamble and the body is lost.
   */
  lemma RankerUnfenceLosesBody(preamble: string, body: string)
    requires '`' !in preamble && '\n' in preamble && !IsSpace(preamble[0])
    ensures RankerUnfence(Fenced(preamble, body), FirstLine) == Strip(preamble)
  {
    var s := Fenced(preamble, body);
    FencedStripped(preamble, body);
    FencedOpening(preamble, body);
    assert DropOpening(s, FirstLine) == s;
    assert CutAtFence(s) == RStrip(preamble);
    StripOfStripped(RStrip(preamble));
  }

  /** Letting the opening pattern reach past line breaks recovers the body whatever the preamble. */
  lemma RankerUnfenceAnyLine(preamble: string, body: string)
    requires '`' !in preamble && (preamble == [] || !IsSpace(preamble[0]))
    requires '`' !in body && body != [] && NoEdgeSpace(body)
    ensures RankerUnfence(Fenced(preamble, body), AnyLine) == body
  {
    var s := Fenced(preamble, body);
    var k := |preamble|;
    assert Strip(s) == s by {
      FencedStripped(preamble, body);
    }
    assert Find(s, Fence) == Some(k) && s[..k] == preamble by {
      FencedOpening(preamble, body);
    }
    assert LStrip(DropJsonTag(s[k + 3..])) == body + "\n```" by {
      FencedOpening(preamble, body);
      FencedRest(body);
    }
    RankerUnfenceAt(s, AnyLine, k, body);
  }

  /** `re.sub(r"```\s*$", "", s)`: a fence followed only by whitespace at the end is removed with it. */
  function DropClosing(s: string): (r: string)
    ensures |r| <= |s|
    ensures r == s || (EndsWith(RStrip(s), Fence) && r == RStrip(s)[..|RStrip(s)| - 3])
  {
    var t := RStrip(s);
    if EndsWith(t, Fence) then t[..|t| - 3] else s
  }

  /**
   * `run_debate`'s cleanup of the moderator reply: strip; only when it then starts
   * with a fence, drop the opening fence with its tag and the closing fence, and strip again.
   */
  function VerdictUnfence(raw: string): (r: string)
    ensures NoEdgeSpace(r)
    ensures !(Fence <= Strip(raw)) ==> r == Strip(raw)
  {
    var cleaned := Strip(raw);
    if !(Fence <= cleaned) then cleaned
    else Strip(DropClosing(LStrip(DropJsonTag(cleaned[3..]))))
  }

  /** A closing fence on its own line is removed, the line break before it kept. */
  lemma DropClosingFence(body: string)
    ensures DropClosing(body + "\n```") == body + "\n"
  {
    var z := body + "\n```";
    assert z[|z| - 1] == '`';
    assert RStrip(z) == z;
    assert z[|z| - 3..] == Fence;
    assert z[..|z| - 3] == body + "\n";
  }

  /** The verdict cleanup of a stripped reply that starts with a fence, step by step. */
  lemma VerdictUnfenceVia(s: string, afterOpen: string, afterClose: string, r: string)
    requires Strip(s) == s && Fence <= s
    requires LStrip(DropJsonTag(s[3..])) == afterOpen && DropClosing(afterOpen) == afterClose && Strip(afterClose) == r
    ensures VerdictUnfence(s) == r
  {
  }

  /** The optional tag of an opening fence followed by a line break is dropped, the line break kept. */
  lemma DropTagLine(tag: string, z: string)
    requires tag == "json" || tag == ""
    ensures DropJsonTag(tag + ("\n" + z)) == "\n" + z
  {
    if tag == "" {
      assert tag + ("\n" + z) == "\n" + z;
      assert ("\n" + z)[0] == '\n';
    } else {
      assert (tag + ("\n" + z))[4..] == "\n" + z;
    }
  }

  /** The verdict's opening fence and tag, and the whitespace after them, are dropped. */
  lemma VerdictOpening(body: string, tag: string)
    requires tag == "json" || tag == ""
    requires body != [] && !IsSpace(body[0])
    ensures var s := Fence + (tag + ("\n" + (body + "\n```")));
      Strip(s) == s && Fence <= s && LStrip(DropJsonTag(s[3..])) == body + "\n```"
  {
    var z := body + "\n```";
    var s := Fence + (tag + ("\n" + z));
    assert Strip(s) == s by {
      assert s[0] == '`' && s[|s| - 1] == '`';
      StripOfStripped(s);
    }
    assert s[3..] == tag + ("\n" + z);
    DropTagLine(tag, z);
    assert z[0] == body[0];
    LStripNewline(z);
  }

  /** A fenced verdict comes back as its body, with or without the `json` tag. */
  lemma VerdictUnfenceFenced(body: string, tag: string)
    requires tag == "json" || tag == ""
    requires body != [] && NoEdgeSpace(body)
    ensures VerdictUnfence(Fence + (tag + ("\n" + (body + "\n```")))) == body
  {
    var z := body + "\n```";
    VerdictOpening(body, tag);
    DropClosingFence(body);
    assert Strip(body + "\n") == body by {
      RStripNewline(body);
      StripOfStripped(body);
    }
    VerdictUnfenceVia(Fence + (tag + ("\n" + z)), z, body + "\n", body);
  }
}
