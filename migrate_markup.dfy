/** scripts/migrate_docs_bilingual.py: the two pure substitution chains,
    `quote_yaml` (a double-quoted YAML scalar) and `normalize_html`
    (self-closing `<br />`). */
module MigrateMarkup {
  import opened Text

  // ---------------------------------------------------------------------------
  // quote_yaml

  /** `value.replace("\\", "\\\\").replace('"', '\\"')`. */
  function EscapeYaml(value: string): string {
    ReplaceAll(ReplaceAll(value, "\\", "\\\\"), "\"", "\\\"")
  }

  function QuoteYaml(value: string): string
  {
    "\"" + EscapeYaml(value) + "\""
  }

  /** The escaping, one character at a time: a backslash or a double quote
      gets a backslash in front, anything else is copied. */
  function EscapeChar(c: char): string {
    if c == '\\' then "\\\\" else if c == '"' then "\\\"" else [c]
  }

  function EscapeChars(s: string): string {
    if s == [] then [] else EscapeChar(s[0]) + EscapeChars(s[1..])
  }

  /** Reading a double-quoted scalar's interior back: a backslash takes the
      next character literally. */
  function Unescape(t: string): string {
    if t == [] then []
    else if |t| >= 2 && t[0] == '\\' then [t[1]] + Unescape(t[2..])
    else [t[0]] + Unescape(t[1..])
  }

  /** Replacing a one-character pattern works piece by piece. */
  lemma {:induction false} ReplaceCharAppend(a: string, b: string, c: char, rep: string)
    ensures ReplaceAll(a + b, [c], rep) == ReplaceAll(a, [c], rep) + ReplaceAll(b, [c], rep)
  {
    if a == [] {
      assert a + b == b;
    } else {
      assert (a + b)[1..] == a[1..] + b;
      assert (a + b)[..1] == a[..1];
      ReplaceCharAppend(a[1..], b, c, rep);
    }
  }

  /** The two chained replacements are the one-character escaping: the
      backslashes the first adds are never touched by the second. */
  lemma {:induction false} EscapeYamlChars(s: string)
    ensures EscapeYaml(s) == EscapeChars(s)
  {
    if s != [] {
      var first := if s[0] == '\\' then "\\\\" else [s[0]];
      assert ReplaceAll(s, "\\", "\\\\") == first + ReplaceAll(s[1..], "\\", "\\\\");
      ReplaceCharAppend(first, ReplaceAll(s[1..], "\\", "\\\\"), '"', "\\\"");
      if s[0] == '\\' {
        assert ReplaceAll("\\\\", "\"", "\\\"") == "\\\\" by {
          assert ReplaceAll("\\", "\"", "\\\"") == "\\";
        }
      } else {
        assert ReplaceAll([s[0]], "\"", "\\\"") == EscapeChar(s[0]) by {
          assert ReplaceAll([], "\"", "\\\"") == [];
        }
      }
      EscapeYamlChars(s[1..]);
    }
  }

  /** Un-escaping the escaped text gives the text back. */
  lemma {:induction false} UnescapeEscapeChars(s: string)
    ensures Unescape(EscapeChars(s)) == s
  {
    if s != [] {
      var rest := EscapeChars(s[1..]);
      assert EscapeChars(s) == EscapeChar(s[0]) + rest;
      if s[0] == '\\' || s[0] == '"' {
        assert (EscapeChar(s[0]) + rest)[2..] == rest;
      } else {
        assert (EscapeChar(s[0]) + rest)[1..] == rest;
      }
      UnescapeEscapeChars(s[1..]);
    }
  }

  /** `quote_yaml` wraps its value in double quotes, and un-escaping what lies
      between them returns the value. */
  lemma QuoteYamlRoundTrip(value: string)
    ensures var r := QuoteYaml(value);
      && |r| >= 2 && r[0] == '"' && r[|r| - 1] == '"'
      && Unescape(r[1..|r| - 1]) == value
  {
    var r := QuoteYaml(value);
    EscapeYamlChars(value);
    assert r[1..|r| - 1] == EscapeYaml(value);
    UnescapeEscapeChars(value);
  }

  /** Every double quote inside the scalar is escaped: it follows a
      backslash that is itself not escaped. */
  lemma {:induction false} EscapedQuotes(s: string, i: nat)
    requires i < |EscapeChars(s)| && EscapeChars(s)[i] == '"'
    ensures i >= 1 && EscapeChars(s)[i - 1] == '\\'
  {
    var rest := EscapeChars(s[1..]);
    var e := EscapeChar(s[0]);
    assert EscapeChars(s) == e + rest;
    if i >= |e| {
      EscapedQuotes(s[1..], i - |e|);
    }
  }

  // ---------------------------------------------------------------------------
  // normalize_html

  const BreakTag := "<br />"

  function NormalizeHtml(text: string): string {
    ReplaceAll(ReplaceAll(text, "<br>", BreakTag), "<br/>", BreakTag)
  }

  /** `c` opens `w` and occurs nowhere else in it. */
  predicate OpensOnly(w: string, c: char) {
    w != [] && w[0] == c && forall i :: 1 <= i < |w| ==> w[i] != c
  }

  /** Neither of `a` and `b` is a prefix of the other. */
  predicate Diverge(a: string, b: string) {
    !StartsWith(a, b) && !StartsWith(b, a)
  }

  /** Two words both starting a text agree on their common length. */
  lemma CommonPrefix(text: string, a: string, b: string)
    ensures StartsWith(text, a) && StartsWith(text, b) ==> !Diverge(a, b)
  {
    if StartsWith(text, a) && StartsWith(text, b) {
      if |a| <= |b| {
        assert b[..|a|] == text[..|a|];
      } else {
        assert a[..|b|] == text[..|b|];
      }
    }
  }

  /** An occurrence in a suffix is an occurrence in the whole. */
  lemma ContainsSuffix(s: string, k: nat, q: string)
    requires k <= |s| && Contains(s[k..], q)
    ensures Contains(s, q)
  {
    var j :| 0 <= j <= |s[k..]| - |q| && OccursAt(s[k..], q, j);
    assert s[k..][j..j + |q|] == s[k + j..k + j + |q|];
    assert OccursAt(s, q, k + j);
  }

  /** Output of a replacement whose replacement text starts with `c`: a
      prefix of the output without `c` was copied from the input. */
  lemma {:induction false} CopiedPrefix(t: string, pat: string, rep: string, c: char, w: string)
    requires pat != [] && rep != [] && rep[0] == c
    requires StartsWith(ReplaceAll(t, pat, rep), w)
    requires forall i :: 0 <= i < |w| ==> w[i] != c
    ensures StartsWith(t, w)
    decreases |t|
  {
    var out := ReplaceAll(t, pat, rep);
    if w != [] && |t| >= |pat| {
      assert out[0] == w[0] != c;
      assert t[..|pat|] != pat;
      assert out == [t[0]] + ReplaceAll(t[1..], pat, rep);
      assert StartsWith(ReplaceAll(t[1..], pat, rep), w[1..]) by {
        assert out[1..|w|] == w[1..];
      }
      CopiedPrefix(t[1..], pat, rep, c, w[1..]);
    }
  }

  /** A word that opens with `c` (found nowhere else in it) and diverges from
      the replacement text can start the output only where the input starts
      with it and the input does not start with the pattern. */
  lemma StartOfOutput(s: string, pat: string, rep: string, c: char, q: string)
    requires pat != [] && OpensOnly(rep, c) && OpensOnly(q, c) && Diverge(rep, q)
    requires StartsWith(ReplaceAll(s, pat, rep), q)
    ensures StartsWith(s, q) && !StartsWith(s, pat)
  {
    var out := ReplaceAll(s, pat, rep);
    CommonPrefix(out, rep, q);
    assert !StartsWith(out, rep);
    assert !StartsWith(s, pat);
    if |s| >= |pat| {
      assert out == [s[0]] + ReplaceAll(s[1..], pat, rep);
      assert StartsWith(ReplaceAll(s[1..], pat, rep), q[1..]) by {
        assert out[1..|q|] == q[1..];
      }
      CopiedPrefix(s[1..], pat, rep, c, q[1..]);
      assert s[..|q|] == [s[0]] + s[1..][..|q| - 1];
    }
  }

  /** Such a word occurs in the output only if it occurred in the input, and
      never when it is the pattern itself. */
  lemma {:induction false} NoNewOccurrence(s: string, pat: string, rep: string, c: char, q: string, i: nat)
    requires pat != [] && OpensOnly(rep, c) && OpensOnly(q, c) && Diverge(rep, q)
    requires OccursAt(ReplaceAll(s, pat, rep), q, i)
    ensures Contains(s, q) && q != pat
    decreases |s|
  {
    var out := ReplaceAll(s, pat, rep);
    if i == 0 {
      assert out[..|q|] == q;
      StartOfOutput(s, pat, rep, c, q);
      assert OccursAt(s, q, 0);
    } else if |s| < |pat| {
      assert OccursAt(s, q, i);
    } else if s[..|pat|] == pat {
      PastReplacement(s, pat, rep, c, q, i);
    } else {
      PastFirstChar(s, pat, rep, c, q, i);
    }
  }

  /** The step of NoNewOccurrence where the input does not start with the
      pattern: its first character is copied, so the word lies in the rest. */
  lemma {:induction false} PastFirstChar(s: string, pat: string, rep: string, c: char, q: string, i: nat)
    requires pat != [] && OpensOnly(rep, c) && OpensOnly(q, c) && Diverge(rep, q)
    requires |s| >= |pat| && s[..|pat|] != pat && i >= 1
    requires OccursAt(ReplaceAll(s, pat, rep), q, i)
    ensures Contains(s, q) && q != pat
    decreases |s|, 0
  {
    var out := ReplaceAll(s, pat, rep);
    var rest := ReplaceAll(s[1..], pat, rep);
    assert out == [s[0]] + rest;
    assert rest[i - 1..i - 1 + |q|] == out[i..i + |q|];
    NoNewOccurrence(s[1..], pat, rep, c, q, i - 1);
    ContainsSuffix(s, 1, q);
  }

  /** The step of NoNewOccurrence where the input starts with the pattern:
      the word cannot start inside the replacement text, so it lies in what
      follows. */
  lemma {:induction false} PastReplacement(s: string, pat: string, rep: string, c: char, q: string, i: nat)
    requires pat != [] && OpensOnly(rep, c) && OpensOnly(q, c) && Diverge(rep, q)
    requires |s| >= |pat| && s[..|pat|] == pat && i >= 1
    requires OccursAt(ReplaceAll(s, pat, rep), q, i)
    ensures Contains(s, q) && q != pat
    decreases |s|, 0
  {
    var out := ReplaceAll(s, pat, rep);
    var rest := ReplaceAll(s[|pat|..], pat, rep);
    assert out == rep + rest;
    assert out[i] == q[0] == c;
    assert i >= |rep|;
    assert rest[i - |rep|..i - |rep| + |q|] == out[i..i + |q|];
    NoNewOccurrence(s[|pat|..], pat, rep, c, q, i - |rep|);
    ContainsSuffix(s, |pat|, q);
  }

  lemma NoNewWord(s: string, pat: string, rep: string, c: char, q: string)
    requires pat != [] && OpensOnly(rep, c) && OpensOnly(q, c) && Diverge(rep, q)
    ensures Contains(ReplaceAll(s, pat, rep), q) ==> Contains(s, q) && q != pat
  {
    if Contains(ReplaceAll(s, pat, rep), q) {
      var i :| 0 <= i <= |ReplaceAll(s, pat, rep)| - |q| && OccursAt(ReplaceAll(s, pat, rep), q, i);
      NoNewOccurrence(s, pat, rep, c, q, i);
    }
  }

  /** normalize_html leaves neither `<br>` nor `<br/>` behind. */
  lemma NormalizeHtmlNoBareBreaks(text: string)
    ensures !Contains(NormalizeHtml(text), "<br>")
    ensures !Contains(NormalizeHtml(text), "<br/>")
  {
    var once := ReplaceAll(text, "<br>", BreakTag);
    assert OpensOnly(BreakTag, '<') && OpensOnly("<br>", '<') && OpensOnly("<br/>", '<');
    assert Diverge(BreakTag, "<br>") by {
      assert BreakTag[..4][3] != "<br>"[3];
    }
    assert Diverge(BreakTag, "<br/>") by {
      assert BreakTag[..5][3] != "<br/>"[3];
    }
    NoNewWord(text, "<br>", BreakTag, '<', "<br>");
    NoNewWord(once, "<br/>", BreakTag, '<', "<br>");
    NoNewWord(once, "<br/>", BreakTag, '<', "<br/>");
  }

  /** normalize_html is idempotent. */
  lemma NormalizeHtmlIdempotent(text: string)
    ensures NormalizeHtml(NormalizeHtml(text)) == NormalizeHtml(text)
  {
    var n := NormalizeHtml(text);
    NormalizeHtmlNoBareBreaks(text);
    ReplaceAbsent(n, "<br>", BreakTag);
    ReplaceAbsent(n, "<br/>", BreakTag);
  }
}
