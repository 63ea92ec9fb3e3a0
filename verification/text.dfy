/** String operations the harness relies on, written out as Python's `str` methods behave. */
module Text {
  import opened Wrappers

  /** Python's `str.isspace()`: the characters `strip()` removes. */
  predicate IsSpace(c: char) {
    c == '\U{9}' || c == '\U{A}' || c == '\U{B}' || c == '\U{C}' || c == '\U{D}'
    || c == '\U{1C}' || c == '\U{1D}' || c == '\U{1E}' || c == '\U{1F}' || c == '\U{20}'
    || c == '\U{85}' || c == '\U{A0}' || c == '\U{1680}' || c == '\U{2000}' || c == '\U{2001}'
    || c == '\U{2002}' || c == '\U{2003}' || c == '\U{2004}' || c == '\U{2005}' || c == '\U{2006}'
    || c == '\U{2007}' || c == '\U{2008}' || c == '\U{2009}' || c == '\U{200A}' || c == '\U{2028}'
    || c == '\U{2029}' || c == '\U{202F}' || c == '\U{205F}' || c == '\U{3000}'
  }

  predicate NoEdgeSpace(s: string) {
    s == [] || (!IsSpace(s[0]) && !IsSpace(s[|s| - 1]))
  }

  /** `s.lstrip()` */
  function LStrip(s: string): (r: string)
    ensures |r| <= |s|
    ensures r == [] || !IsSpace(r[0])
    ensures forall i :: 0 <= i < |s| - |r| ==> IsSpace(s[i])
    decreases |s|
  {
    if s != [] && IsSpace(s[0]) then LStrip(s[1..]) else s
  }

  /** `s.rstrip()` */
  function RStrip(s: string): (r: string)
    ensures |r| <= |s| && forall i :: 0 <= i < |r| ==> r[i] == s[i]
    ensures r == [] || !IsSpace(r[|r| - 1])
    ensures forall i :: |r| <= i < |s| ==> IsSpace(s[i])
    decreases |s|
  {
    if s != [] && IsSpace(s[|s| - 1]) then RStrip(s[..|s| - 1]) else s
  }

  /** `lstrip()` keeps a suffix of its input. */
  lemma {:induction false} LStripSuffix(s: string)
    ensures LStrip(s) == s[|s| - |LStrip(s)|..]
    decreases |s|
  {
    if s != [] && IsSpace(s[0]) {
      LStripSuffix(s[1..]);
    }
  }

  /** `rstrip()` keeps a prefix of its input. */
  lemma RStripPrefix(s: string)
    ensures RStrip(s) == s[..|RStrip(s)|]
  {
    var r := RStrip(s);
    assert forall i :: 0 <= i < |r| ==> r[i] == s[..|r|][i];
  }

  /** `s.strip()`: the slice of `s` left once the whitespace at both ends is gone. */
  function Strip(s: string): (r: string)
    ensures |r| <= |s|
    ensures NoEdgeSpace(r)
    ensures forall c :: c in r ==> c in s
    ensures r == [] <==> forall i :: 0 <= i < |s| ==> IsSpace(s[i])
  {
    var t := RStrip(s);
    StripFacts(s, t, LStrip(t));
    LStrip(t)
  }

  lemma StripFacts(s: string, t: string, r: string)
    requires t == RStrip(s) && r == LStrip(t)
    ensures NoEdgeSpace(r)
    ensures forall c :: c in r ==> c in s
    ensures r == [] <==> forall i :: 0 <= i < |s| ==> IsSpace(s[i])
  {
    LStripSuffix(t);
    RStripPrefix(s);
    assert forall c :: c in r ==> c in t;
    assert forall c :: c in t ==> c in s;
    if r != [] {
      assert r[|r| - 1] == t[|t| - 1];
      assert !IsSpace(r[0]);
    }
  }

  lemma StripOfStripped(s: string)
    requires NoEdgeSpace(s)
    ensures Strip(s) == s
  {
    if s != [] {
      assert RStrip(s) == s;
      assert LStrip(s) == s;
    }
  }

  /** `strip()` keeps a contiguous slice of its input. */
  lemma StripSlice(s: string)
    ensures |Strip(s)| <= |RStrip(s)| <= |s|
    ensures Strip(s) == s[|RStrip(s)| - |Strip(s)|..|RStrip(s)|]
  {
    var t := RStrip(s);
    var r := LStrip(t);
    LStripSuffix(t);
    RStripPrefix(s);
    var n, m := |t|, |r|;
    assert r == t[n - m..];
    assert t[n - m..] == s[..n][n - m..] == s[n - m..n];
  }

  /** `strip()` is idempotent. */
  lemma StripIdempotent(s: string)
    ensures Strip(Strip(s)) == Strip(s)
  {
    StripOfStripped(Strip(s));
  }

  /** `s.rstrip(c)` for a single character `c`. */
  function RStripChar(s: string, c: char): (r: string)
    ensures |r| <= |s| && forall i :: 0 <= i < |r| ==> r[i] == s[i]
    ensures r == [] || r[|r| - 1] != c
    ensures forall i :: |r| <= i < |s| ==> s[i] == c
    decreases |s|
  {
    if s != [] && s[|s| - 1] == c then RStripChar(s[..|s| - 1], c) else s
  }

  /** `rstrip(c)` keeps a prefix of its input, all of it when `s` does not end in `c`. */
  lemma RStripCharPrefix(s: string, c: char)
    ensures RStripChar(s, c) == s[..|RStripChar(s, c)|]
    ensures s == [] || s[|s| - 1] != c ==> RStripChar(s, c) == s
  {
    var r := RStripChar(s, c);
    assert forall i :: 0 <= i < |r| ==> r[i] == s[..|r|][i];
  }

  /** `s.lstrip(c)` for a single character `c`. */
  function LStripChar(s: string, c: char): (r: string)
    ensures |r| <= |s|
    ensures r == [] || r[0] != c
    ensures forall i :: 0 <= i < |s| - |r| ==> s[i] == c
    decreases |s|
  {
    if s != [] && s[0] == c then LStripChar(s[1..], c) else s
  }

  /** `lstrip(c)` keeps a suffix of its input. */
  lemma {:induction false} LStripCharSuffix(s: string, c: char)
    ensures LStripChar(s, c) == s[|s| - |LStripChar(s, c)|..]
    decreases |s|
  {
    if s != [] && s[0] == c {
      LStripCharSuffix(s[1..], c);
    }
  }

  /** ASCII case folding, as `str.lower()` does on ASCII text. */
  function LowerChar(c: char): char {
    if 'A' <= c <= 'Z' then (c as int + 32) as char else c
  }

  function Lower(s: string): (r: string)
    ensures |r| == |s|
    ensures forall i :: 0 <= i < |s| ==> r[i] == LowerChar(s[i])
  {
    seq(|s|, i requires 0 <= i < |s| => LowerChar(s[i]))
  }

  /** Lowering changes nothing in a string without capitals. */
  lemma LowerNoCapitals(s: string)
    requires forall i :: 0 <= i < |s| ==> !('A' <= s[i] <= 'Z')
    ensures Lower(s) == s
  {
  }

  lemma LowerIdempotent(s: string)
    ensures Lower(Lower(s)) == Lower(s)
  {
  }

  /** `t in s` for strings: `t` occurs as a contiguous piece of `s`. */
  predicate Contains(s: string, t: string)
    decreases |s|
  {
    t <= s || (s != [] && Contains(s[1..], t))
  }

  lemma ContainsAt(s: string, t: string, i: nat)
    requires i + |t| <= |s| && s[i..i + |t|] == t
    ensures Contains(s, t)
    decreases i
  {
    if i > 0 {
      assert s[1..][i - 1..i - 1 + |t|] == t;
      ContainsAt(s[1..], t, i - 1);
    }
  }

  lemma ContainsWitness(s: string, t: string) returns (i: nat)
    requires Contains(s, t)
    ensures i + |t| <= |s| && s[i..i + |t|] == t
    decreases |s|
  {
    if t <= s {
      i := 0;
    } else {
      var j := ContainsWitness(s[1..], t);
      i := j + 1;
      assert s[i..i + |t|] == s[1..][j..j + |t|];
    }
  }

  /** An occurrence in the tail is an occurrence in the whole. */
  lemma ContainsInSuffix(a: string, b: string, t: string)
    requires Contains(b, t)
    ensures Contains(a + b, t)
  {
    var i := ContainsWitness(b, t);
    assert (a + b)[|a| + i..|a| + i + |t|] == b[i..i + |t|];
    ContainsAt(a + b, t, |a| + i);
  }

  /** `s.find(t)`: the first index at which `t` occurs, None for Python's -1. */
  function Find(s: string, t: string): (r: Option<nat>)
    ensures r.None? <==> !Contains(s, t)
    ensures r.Some? ==> r.value + |t| <= |s| && s[r.value..r.value + |t|] == t
    decreases |s|
  {
    if t <= s then Some(0)
    else if s == [] then None
    else
      match Find(s[1..], t)
      case None => None
      case Some(k) =>
        assert s[k + 1..k + 1 + |t|] == s[1..][k..k + |t|];
        Some(k + 1)
  }

  /** `t` starts at no index before the one `Find` reports. */
  lemma {:induction false} FindFirst(s: string, t: string, j: nat)
    requires Find(s, t).Some? && j < Find(s, t).value
    ensures !(t <= s[j..])
    decreases |s|
  {
    if j > 0 {
      FindFirst(s[1..], t, j - 1);
      assert s[j..] == s[1..][j - 1..];
    }
  }

  /** Text that does not contain `t` has no slice that does. */
  lemma NotContainsSlice(s: string, t: string, a: nat, b: nat)
    requires a <= b <= |s| && !Contains(s, t)
    ensures !Contains(s[a..b], t)
  {
    if Contains(s[a..b], t) {
      var i := ContainsWitness(s[a..b], t);
      forall j | 0 <= j < |t| ensures s[a + i + j] == t[j] {
        assert s[a..b][i..i + |t|][j] == t[j];
      }
      assert s[a + i..a + i + |t|] == t;
      ContainsAt(s, t, a + i);
    }
  }

  /** Text in which `t` starts at no index does not contain `t`. */
  lemma {:induction false} NotContainsAll(s: string, t: string)
    requires forall i :: 0 <= i <= |s| ==> !(t <= s[i..])
    ensures !Contains(s, t)
    decreases |s|
  {
    assert s[0..] == s;
    if s != [] {
      forall i | 0 <= i <= |s[1..]| ensures !(t <= s[1..][i..]) {
        assert s[1..][i..] == s[i + 1..];
      }
      NotContainsAll(s[1..], t);
    }
  }

  /** Text cut before the first occurrence of `t` is completed does not contain `t`. */
  lemma NotContainsBeforeFirst(s: string, t: string, k: nat, m: nat)
    requires Find(s, t) == Some(k) && m <= k + |t| - 1
    ensures !Contains(s[..m], t)
  {
    forall i | 0 <= i <= |s[..m]| ensures !(t <= s[..m][i..]) {
      assert s[..m][i..] <= s[i..];
      if i < k {
        FindFirst(s, t, i);
      }
    }
    NotContainsAll(s[..m], t);
  }

  lemma LowerConcat(a: string, b: string)
    ensures Lower(a + b) == Lower(a) + Lower(b)
  {
  }

  /** `s.endswith(t)` */
  predicate EndsWith(s: string, t: string) {
    |t| <= |s| && s[|s| - |t|..] == t
  }

  /** `s.replace(a, b)` for single characters. */
  function ReplaceChar(s: string, a: char, b: char): (r: string)
    ensures |r| == |s|
    ensures a != b ==> a !in r
    ensures forall i :: 0 <= i < |s| ==> r[i] == if s[i] == a then b else s[i]
  {
    seq(|s|, i requires 0 <= i < |s| => if s[i] == a then b else s[i])
  }

  /** `s.replace(t, "")`: every non-overlapping occurrence of `t`, scanned left to right, removed. */
  function RemoveAll(s: string, t: string): (r: string)
    requires t != []
    ensures |r| <= |s|
    ensures forall c :: c in r ==> c in s
    decreases |s|
  {
    if |s| < |t| then s
    else if t <= s then RemoveAll(s[|t|..], t)
    else [s[0]] + RemoveAll(s[1..], t)
  }

  /** Removing a pattern from text that never contains it leaves the text alone. */
  lemma RemoveAllAbsent(s: string, t: string)
    requires t != [] && !Contains(s, t)
    ensures RemoveAll(s, t) == s
    decreases |s|
  {
    if |s| >= |t| {
      assert !(t <= s);
      RemoveAllAbsent(s[1..], t);
    }
  }

  /** Position of the first `c` in `s`. */
  function IndexOf(s: string, c: char): (r: nat)
    requires c in s
    ensures r < |s| && s[r] == c && c !in s[..r]
  {
    if s[0] == c then 0 else 1 + IndexOf(s[1..], c)
  }

  /** `s.split(sep)` for a one-character separator. */
  function Split(s: string, sep: char): (r: seq<string>)
    ensures |r| >= 1
    ensures forall k :: 0 <= k < |r| ==> sep !in r[k]
    ensures Join([sep], r) == s
    decreases |s|
  {
    if sep !in s then [s]
    else
      var i := IndexOf(s, sep);
      var rest := Split(s[i + 1..], sep);
      assert s == s[..i] + [sep] + s[i + 1..];
      [s[..i]] + rest
  }

  /** `sep.join(parts)` */
  function Join(sep: string, parts: seq<string>): string
  {
    if parts == [] then ""
    else if |parts| == 1 then parts[0]
    else parts[0] + sep + Join(sep, parts[1..])
  }

  /** The stripped, non-blank pieces of a list of strings. */
  function NonBlankStripped(pieces: seq<string>): (r: seq<string>)
    ensures |r| <= |pieces|
    ensures forall k :: 0 <= k < |r| ==> r[k] != "" && NoEdgeSpace(r[k])
  {
    if pieces == [] then []
    else
      var a := Strip(pieces[0]);
      (if a != "" then [a] else []) + NonBlankStripped(pieces[1..])
  }

  lemma NonBlankStrippedChars(pieces: seq<string>, c: char)
    requires forall k :: 0 <= k < |pieces| ==> c !in pieces[k]
    ensures forall k :: 0 <= k < |NonBlankStripped(pieces)| ==> c !in NonBlankStripped(pieces)[k]
  {
    if pieces != [] {
      NonBlankStrippedChars(pieces[1..], c);
    }
  }

  /**
   * `[a.strip() for a in s.split(",") if a.strip()]`: the author-list parse the
   * harness applies to every comma-separated author string.
   */
  function CommaList(s: string): (r: seq<string>)
    ensures forall k :: 0 <= k < |r| ==> r[k] != "" && NoEdgeSpace(r[k]) && ',' !in r[k]
  {
    var pieces := Split(s, ',');
    NonBlankStrippedChars(pieces, ',');
    NonBlankStripped(pieces)
  }

  /** Python's `<` on strings: lexicographic by code point. */
  predicate StrLt(a: string, b: string)
    decreases |a|
  {
    if a == [] then b != []
    else b != [] && (a[0] < b[0] || (a[0] == b[0] && StrLt(a[1..], b[1..])))
  }

  /** Python's `>=` on strings. */
  predicate StrGe(a: string, b: string) {
    !StrLt(a, b)
  }

  lemma {:induction false} StrLtIrreflexive(a: string)
    ensures !StrLt(a, a)
    decreases |a|
  {
    if a != [] { StrLtIrreflexive(a[1..]); }
  }

  lemma {:induction false} StrLtTransitive(a: string, b: string, c: string)
    requires StrLt(a, b) && StrLt(b, c)
    ensures StrLt(a, c)
    decreases |a|
  {
    if a != [] && a[0] == b[0] && b[0] == c[0] {
      StrLtTransitive(a[1..], b[1..], c[1..]);
    }
  }

  lemma {:induction false} StrLtTrichotomy(a: string, b: string)
    ensures StrLt(a, b) || a == b || StrLt(b, a)
    decreases |a|
  {
    if a != [] && b != [] && a[0] == b[0] {
      StrLtTrichotomy(a[1..], b[1..]);
      if a[1..] == b[1..] {
        assert a == [a[0]] + a[1..] && b == [b[0]] + b[1..];
      }
    }
  }

  /** `>=` on strings is a total order: total, transitive and antisymmetric. */
  lemma StrGeTotalOrder()
    ensures forall a, b :: StrGe(a, b) || StrGe(b, a)
    ensures forall a, b, c :: StrGe(a, b) && StrGe(b, c) ==> StrGe(a, c)
    ensures forall a, b :: StrGe(a, b) && StrGe(b, a) ==> a == b
  {
    forall a, b ensures StrGe(a, b) || StrGe(b, a) {
      if StrLt(a, b) && StrLt(b, a) {
        StrLtTransitive(a, b, a);
        StrLtIrreflexive(a);
      }
    }
    forall a, b, c | StrGe(a, b) && StrGe(b, c) ensures StrGe(a, c) {
      StrLtTrichotomy(a, b);
      StrLtTrichotomy(b, c);
      if StrLt(a, c) {
        if a == b {
        } else if b == c {
        } else {
          StrLtTransitive(b, a, c);
          StrLtTransitive(c, b, a);
          StrLtTransitive(c, a, c);
          StrLtIrreflexive(c);
        }
      }
    }
    forall a, b | StrGe(a, b) && StrGe(b, a) ensures a == b {
      StrLtTrichotomy(a, b);
    }
  }
}
