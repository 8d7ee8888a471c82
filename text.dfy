/** String helpers shared by the models of the site's pages and build scripts:
    the two white-space sets (JavaScript's and Python's), trimming, ASCII
    lower-casing, prefix and suffix tests, joining, Python's `splitlines`,
    substring replacement and decimal conversion. */
module Text {

  /** A character JavaScript's `\s` class and `String.prototype.trim` treat as
      white space (WhiteSpace and LineTerminator of ECMA-262). */
  predicate IsJsSpace(c: char) {
    c == '\t' || c == '\n' || c == '\U{B}' || c == '\U{C}' || c == '\r' || c == ' '
    || c == '\U{A0}' || c == '\U{1680}' || ('\U{2000}' <= c <= '\U{200A}')
    || c == '\U{2028}' || c == '\U{2029}' || c == '\U{202F}' || c == '\U{205F}'
    || c == '\U{3000}' || c == '\U{FEFF}'
  }

  /** A character Python's `str.isspace` accepts, which is what `strip()`,
      `rstrip()` and `split()` with no argument remove. */
  predicate IsPySpace(c: char) {
    ('\t' <= c <= '\r') || ('\U{1C}' <= c <= '\U{1F}') || c == ' ' || c == '\U{85}'
    || c == '\U{A0}' || c == '\U{1680}' || ('\U{2000}' <= c <= '\U{200A}')
    || c == '\U{2028}' || c == '\U{2029}' || c == '\U{202F}' || c == '\U{205F}'
    || c == '\U{3000}'
  }

  /** A line boundary of Python's `str.splitlines` (`\r\n` is one boundary, see SplitLines). */
  predicate IsPyLineBreak(c: char) {
    c == '\n' || c == '\r' || c == '\U{B}' || c == '\U{C}' || ('\U{1C}' <= c <= '\U{1E}')
    || c == '\U{85}' || c == '\U{2028}' || c == '\U{2029}'
  }

  predicate IsDigit(c: char) { '0' <= c <= '9' }

  predicate IsAsciiLower(c: char) { 'a' <= c <= 'z' }

  predicate IsAsciiAlnumLower(c: char) { IsAsciiLower(c) || IsDigit(c) }

  predicate AllChars(s: string, p: char -> bool) {
    forall i :: 0 <= i < |s| ==> p(s[i])
  }

  // ---------------------------------------------------------------------------
  // Trimming

  /** Drops the longest prefix of characters satisfying `drop`. */
  function StripStart(s: string, drop: char -> bool): (r: string)
    ensures |r| <= |s| && r == s[|s| - |r|..]
    ensures r == [] || !drop(r[0])
    ensures forall i :: 0 <= i < |s| - |r| ==> drop(s[i])
  {
    if s != [] && drop(s[0]) then StripStart(s[1..], drop) else s
  }

  /** Drops the longest suffix of characters satisfying `drop`. */
  function StripEnd(s: string, drop: char -> bool): (r: string)
    ensures |r| <= |s| && r == s[..|r|]
    ensures r == [] || !drop(r[|r| - 1])
    ensures forall i :: |r| <= i < |s| ==> drop(s[i])
  {
    if s != [] && drop(s[|s| - 1]) then StripEnd(s[..|s| - 1], drop) else s
  }

  function Strip(s: string, drop: char -> bool): (r: string)
  {
    StripEnd(StripStart(s, drop), drop)
  }

  /** Stripping leaves nothing droppable at either end. */
  lemma StripEnds(s: string, drop: char -> bool)
    ensures var r := Strip(s, drop); r == [] || (!drop(r[0]) && !drop(r[|r| - 1]))
  {
    var a := StripStart(s, drop);
    var r := StripEnd(a, drop);
    if r != [] {
      assert r[0] == a[0];
    }
  }

  /** JavaScript `String.prototype.trimStart`, written out for the one
      character set so that callers do not reason about a function value. */
  function TrimStartJs(s: string): string {
    if s != [] && IsJsSpace(s[0]) then TrimStartJs(s[1..]) else s
  }

  /** JavaScript `String.prototype.trimEnd`. */
  function TrimEndJs(s: string): string {
    if s != [] && IsJsSpace(s[|s| - 1]) then TrimEndJs(s[..|s| - 1]) else s
  }

  /** JavaScript `String.prototype.trim`. */
  function TrimJs(s: string): string { TrimEndJs(TrimStartJs(s)) }

  lemma {:induction false} TrimStartJsStrip(s: string)
    ensures TrimStartJs(s) == StripStart(s, IsJsSpace)
  {
    if s != [] && IsJsSpace(s[0]) {
      TrimStartJsStrip(s[1..]);
    }
  }

  lemma {:induction false} TrimEndJsStrip(s: string)
    ensures TrimEndJs(s) == StripEnd(s, IsJsSpace)
  {
    if s != [] && IsJsSpace(s[|s| - 1]) {
      TrimEndJsStrip(s[..|s| - 1]);
    }
  }

  /** The JavaScript trims are the general strips over JavaScript white space. */
  lemma TrimJsStrip(s: string)
    ensures TrimJs(s) == Strip(s, IsJsSpace)
    ensures TrimStartJs(s) == StripStart(s, IsJsSpace)
  {
    TrimStartJsStrip(s);
    TrimEndJsStrip(TrimStartJs(s));
  }

  /** Neither end of `s` is JavaScript white space. */
  predicate Trimmed(s: string) {
    s == [] || (!IsJsSpace(s[0]) && !IsJsSpace(s[|s| - 1]))
  }

  lemma TrimJsTrimmed(s: string)
    ensures Trimmed(TrimJs(s))
  {
    TrimJsStrip(s);
    StripEnds(s, IsJsSpace);
  }

  /** Stripping keeps a piece of `s`: every character left comes from `s`. */
  lemma StripKeeps(s: string, drop: char -> bool, p: char -> bool)
    requires AllChars(s, p)
    ensures AllChars(Strip(s, drop), p)
  {
    var a := StripStart(s, drop);
    var r := StripEnd(a, drop);
    forall i | 0 <= i < |r|
      ensures p(r[i])
    {
      assert r[i] == a[i] == s[|s| - |a| + i];
    }
  }

  lemma TrimJsChars(s: string, p: char -> bool)
    requires AllChars(s, p)
    ensures AllChars(TrimJs(s), p)
  {
    TrimJsStrip(s);
    StripKeeps(s, IsJsSpace, p);
  }

  /** Python `str.lstrip()` with no argument. */
  function LStripPy(s: string): string {
    if s != [] && IsPySpace(s[0]) then LStripPy(s[1..]) else s
  }

  /** Python `str.rstrip()` with no argument. */
  function RStripPy(s: string): string {
    if s != [] && IsPySpace(s[|s| - 1]) then RStripPy(s[..|s| - 1]) else s
  }

  /** Python `str.strip()` with no argument. */
  function StripPy(s: string): string { RStripPy(LStripPy(s)) }

  lemma {:induction false} LStripPyStrip(s: string)
    ensures LStripPy(s) == StripStart(s, IsPySpace)
  {
    if s != [] && IsPySpace(s[0]) {
      LStripPyStrip(s[1..]);
    }
  }

  lemma {:induction false} RStripPyStrip(s: string)
    ensures RStripPy(s) == StripEnd(s, IsPySpace)
  {
    if s != [] && IsPySpace(s[|s| - 1]) {
      RStripPyStrip(s[..|s| - 1]);
    }
  }

  /** The Python strips are the general strips over Python white space. */
  lemma StripPyStrip(s: string)
    ensures StripPy(s) == Strip(s, IsPySpace)
    ensures LStripPy(s) == StripStart(s, IsPySpace)
    ensures RStripPy(s) == StripEnd(s, IsPySpace)
  {
    LStripPyStrip(s);
    RStripPyStrip(s);
    RStripPyStrip(LStripPy(s));
  }

  /** `lstrip` keeps a suffix that does not start with white space. */
  lemma {:induction false} LStripPyShape(s: string)
    ensures var r := LStripPy(s); |r| <= |s| && r == s[|s| - |r|..] && (r == [] || !IsPySpace(r[0]))
  {
    if s != [] && IsPySpace(s[0]) {
      LStripPyShape(s[1..]);
    }
  }

  /** `rstrip` keeps a prefix that does not end with white space. */
  lemma {:induction false} RStripPyShape(s: string)
    ensures var r := RStripPy(s); |r| <= |s| && r == s[..|r|] && (r == [] || !IsPySpace(r[|r| - 1]))
  {
    if s != [] && IsPySpace(s[|s| - 1]) {
      RStripPyShape(s[..|s| - 1]);
    }
  }

  /** A stripped string is a contiguous piece of the input. */
  lemma StripPyPiece(s: string)
    ensures |StripPy(s)| <= |LStripPy(s)| <= |s|
    ensures var k := |s| - |LStripPy(s)|;
      k + |StripPy(s)| <= |s| && StripPy(s) == s[k..k + |StripPy(s)|]
  {
    var a := LStripPy(s);
    var k := |s| - |a|;
    var r := RStripPy(a);
    LStripPyShape(s);
    RStripPyShape(a);
    assert s[k..][..|r|] == s[k..k + |r|];
  }

  /** A string that neither starts nor ends with whitespace strips to itself. */
  lemma StripPyUnchanged(s: string)
    requires s != [] ==> !IsPySpace(s[0]) && !IsPySpace(s[|s| - 1])
    ensures StripPy(s) == s
  {
  }

  /** `c not in s`. */
  predicate Lacks(s: string, c: char) {
    forall i :: 0 <= i < |s| ==> s[i] != c
  }

  /** Stripping whitespace keeps a character out that was not there. */
  lemma StripPyAvoids(s: string, c: char)
    requires Lacks(s, c)
    ensures Lacks(StripPy(s), c)
  {
    StripPyPiece(s);
    var k := |s| - |LStripPy(s)|;
    var r := StripPy(s);
    forall i | 0 <= i < |r|
      ensures r[i] != c
    {
      assert r[i] == s[k + i];
    }
  }

  lemma StripPyEnds(s: string)
    ensures var t := StripPy(s); t == [] || (!IsPySpace(t[0]) && !IsPySpace(t[|t| - 1]))
  {
    var a := LStripPy(s);
    LStripPyShape(s);
    RStripPyShape(a);
    if RStripPy(a) != [] {
      assert RStripPy(a)[0] == a[0];
    }
  }

  /** Python `str.strip(c)` for a one-character argument. */
  function StripCharPy(s: string, c: char): string {
    StripCharEnd(StripCharStart(s, c), c)
  }

  function StripCharStart(s: string, c: char): (r: string)
    ensures |r| <= |s| && r == s[|s| - |r|..]
    ensures r == [] || r[0] != c
  {
    if s != [] && s[0] == c then StripCharStart(s[1..], c) else s
  }

  function StripCharEnd(s: string, c: char): (r: string)
    ensures |r| <= |s| && r == s[..|r|]
    ensures r == [] || r[|r| - 1] != c
  {
    if s != [] && s[|s| - 1] == c then StripCharEnd(s[..|s| - 1], c) else s
  }

  /** Removing what was stripped again removes nothing. */
  lemma StripIdempotent(s: string, drop: char -> bool)
    ensures Strip(Strip(s, drop), drop) == Strip(s, drop)
  {
    var r := Strip(s, drop);
    StripEnds(s, drop);
    if r != [] {
      assert StripStart(r, drop) == r;
      assert StripEnd(r, drop) == r;
    }
  }

  // ---------------------------------------------------------------------------
  // Case, prefixes, suffixes

  /** ASCII-only lower-casing of one character. */
  function LowerChar(c: char): (d: char)
    ensures 'A' <= c <= 'Z' ==> IsAsciiLower(d)
    ensures !('A' <= c <= 'Z') ==> d == c
  {
    if 'A' <= c <= 'Z' then (c as int + 32) as char else c
  }

  function Lower(s: string): (r: string)
    ensures |r| == |s|
    ensures forall i :: 0 <= i < |s| ==> r[i] == LowerChar(s[i])
  {
    if s == [] then [] else [LowerChar(s[0])] + Lower(s[1..])
  }

  /** Lower-casing commutes with dropping a prefix. */
  lemma LowerDrop(s: string, k: nat)
    requires k <= |s|
    ensures Lower(s)[k..] == Lower(s[k..])
  {
    var a, b := Lower(s)[k..], Lower(s[k..]);
    forall i | 0 <= i < |a|
      ensures a[i] == b[i]
    {
      assert a[i] == Lower(s)[k + i];
      assert s[k..][i] == s[k + i];
    }
  }

  /** A name whose last characters lower-case to a word ends in that word
      once lower-cased. */
  lemma EndsWithLower(name: string, w: string)
    requires |w| <= |name|
    requires forall i :: 0 <= i < |w| ==> LowerChar(name[|name| - |w|..][i]) == w[i]
    ensures EndsWith(Lower(name), w)
  {
    var k := |name| - |w|;
    LowerEach(name[k..], w);
    LowerDrop(name, k);
    EndsWithAt(Lower(name), k, w);
  }

  /** Lower-casing character by character gives `w`. */
  lemma LowerEach(s: string, w: string)
    requires |s| == |w| && forall i :: 0 <= i < |w| ==> LowerChar(s[i]) == w[i]
    ensures Lower(s) == w
  {
  }

  lemma EndsWithAt(s: string, k: nat, w: string)
    requires k == |s| - |w| && s[k..] == w
    ensures EndsWith(s, w)
  {
  }

  predicate StartsWith(s: string, p: string) {
    |p| <= |s| && s[..|p|] == p
  }

  predicate EndsWith(s: string, p: string) {
    |p| <= |s| && s[|s| - |p|..] == p
  }

  /** `sub` occurs in `s` starting at index `i`. */
  predicate OccursAt(s: string, sub: string, i: int) {
    0 <= i && i + |sub| <= |s| && s[i..i + |sub|] == sub
  }

  predicate Contains(s: string, sub: string) {
    exists i :: 0 <= i <= |s| - |sub| && OccursAt(s, sub, i)
  }

  // ---------------------------------------------------------------------------
  // Joining and splitting

  /** Concatenation is associative; stated for any element type so that
      the solver does not look inside the elements. */
  lemma AppendAssoc<T>(a: seq<T>, b: seq<T>, c: seq<T>)
    ensures (a + b) + c == a + (b + c)
  {
  }

  lemma AppendEmpty<T>(a: seq<T>)
    ensures [] + a == a && a + [] == a
  {
  }

  /** A prefix one longer is the prefix and the next element. */
  lemma TakeSnoc<T>(s: seq<T>, i: nat)
    requires i < |s|
    ensures s[..i + 1] == s[..i] + [s[i]]
  {
  }

  /** Python `sep.join(xs)` and JavaScript `xs.join(sep)`. */
  function Join(xs: seq<string>, sep: string): string {
    if xs == [] then "" else if |xs| == 1 then xs[0] else xs[0] + sep + Join(xs[1..], sep)
  }

  lemma {:induction false} JoinSnoc(xs: seq<string>, x: string, sep: string)
    ensures Join(xs + [x], sep) == if xs == [] then x else Join(xs, sep) + sep + x
  {
    if |xs| > 1 {
      assert (xs + [x])[1..] == xs[1..] + [x];
      JoinSnoc(xs[1..], x, sep);
    } else if |xs| == 1 {
      assert (xs + [x])[1..] == [x];
    }
  }

  lemma {:induction false} JoinAppend(a: seq<string>, b: seq<string>, sep: string)
    requires a != [] && b != []
    ensures Join(a + b, sep) == Join(a, sep) + sep + Join(b, sep)
  {
    if |a| == 1 {
      assert (a + b)[1..] == b;
    } else {
      var x, ja, jb := a[0], Join(a[1..], sep), Join(b, sep);
      assert (a + b)[1..] == a[1..] + b;
      JoinAppend(a[1..], b, sep);
      assert Join(a + b, sep) == x + sep + (ja + sep + jb);
      assert Join(a, sep) == x + sep + ja;
      AppendAssoc(x + sep, ja + sep, jb);
      AppendAssoc(x + sep, ja, sep);
    }
  }

  /** JavaScript `s.split(c)` and Python `s.split(c)` for one character `c`. */
  function SplitOn(s: string, c: char): (parts: seq<string>)
    ensures parts != []
  {
    if s == [] then [""]
    else
      var rest := SplitOn(s[1..], c);
      if s[0] == c then [""] + rest else [[s[0]] + rest[0]] + rest[1..]
  }

  lemma {:induction false} SplitOnPrefix(x: string, y: string, c: char)
    requires c !in x
    ensures SplitOn(x + y, c) == [x + SplitOn(y, c)[0]] + SplitOn(y, c)[1..]
  {
    var r := SplitOn(y, c);
    if x == [] {
      assert x + y == y;
      assert x + r[0] == r[0];
      assert r == [r[0]] + r[1..];
    } else {
      assert (x + y)[1..] == x[1..] + y;
      SplitOnPrefix(x[1..], y, c);
      assert [x[0]] + (x[1..] + r[0]) == x + r[0];
    }
  }

  /** Splitting lines joined with `c` gives them back when none holds `c`. */
  lemma {:induction false} SplitJoin(xs: seq<string>, c: char)
    requires xs != []
    requires forall i :: 0 <= i < |xs| ==> c !in xs[i]
    ensures SplitOn(Join(xs, [c]), c) == xs
  {
    if |xs| == 1 {
      SplitOnPrefix(xs[0], "", c);
      assert xs[0] + "" == xs[0];
    } else {
      var rest := Join(xs[1..], [c]);
      SplitJoin(xs[1..], c);
      assert Join(xs, [c]) == xs[0] + ([c] + rest);
      SplitOnPrefix(xs[0], [c] + rest, c);
      assert ([c] + rest)[1..] == rest;
      assert xs[0] + "" == xs[0];
      assert xs == [xs[0]] + xs[1..];
    }
  }

  /** Concatenation of all pieces (`"".join(xs)`). */
  function Concat(xs: seq<string>): string {
    if xs == [] then "" else xs[0] + Concat(xs[1..])
  }

  lemma {:induction false} ConcatAppend(a: seq<string>, b: seq<string>)
    ensures Concat(a + b) == Concat(a) + Concat(b)
  {
    if a == [] {
      assert a + b == b;
    } else {
      assert (a + b)[1..] == a[1..] + b;
      ConcatAppend(a[1..], b);
    }
  }

  /** Joining with the empty separator is concatenation. */
  lemma {:induction false} JoinEmptySep(xs: seq<string>)
    ensures Join(xs, "") == Concat(xs)
  {
    if |xs| == 1 {
      assert Concat(xs) == xs[0] + Concat([]);
    } else if |xs| > 1 {
      JoinEmptySep(xs[1..]);
    }
  }

  lemma {:induction false} ConcatSnoc(xs: seq<string>, x: string)
    ensures Concat(xs + [x]) == Concat(xs) + x
  {
    if xs != [] {
      assert (xs + [x])[1..] == xs[1..] + [x];
      ConcatSnoc(xs[1..], x);
    }
  }

  /** The index of the first Python line boundary in `s`, or `|s|`. */
  function BreakIndex(s: string): (n: nat)
    ensures n <= |s|
    ensures n < |s| ==> IsPyLineBreak(s[n])
    ensures forall i :: 0 <= i < n ==> !IsPyLineBreak(s[i])
  {
    if s == [] || IsPyLineBreak(s[0]) then 0 else 1 + BreakIndex(s[1..])
  }

  /** Python `str.splitlines()`: no line holds a boundary, a final boundary
      does not start an empty last line, `\r\n` counts once. */
  function SplitLines(s: string): (lines: seq<string>)
    ensures forall k :: 0 <= k < |lines| ==> NoLineBreak(lines[k])
    ensures s == [] <==> lines == []
    decreases |s|
  {
    if s == [] then []
    else
      var n := BreakIndex(s);
      if n == |s| then [s]
      else
        var width := if s[n] == '\r' && n + 1 < |s| && s[n + 1] == '\n' then 2 else 1;
        [s[..n]] + SplitLines(s[n + width..])
  }

  predicate NoLineBreak(s: string) {
    forall i :: 0 <= i < |s| ==> !IsPyLineBreak(s[i])
  }

  /** Joining lines with `\n` and splitting again gives the lines back when no
      line holds a boundary and the last line is not empty. */
  lemma {:induction false} SplitJoinLines(lines: seq<string>)
    requires forall k :: 0 <= k < |lines| ==> NoLineBreak(lines[k])
    requires lines == [] || lines[|lines| - 1] != ""
    ensures SplitLines(Join(lines, "\n")) == lines
  {
    if |lines| == 1 {
      var s := lines[0];
      assert BreakIndex(s) == |s|;
    } else if |lines| > 1 {
      var s := Join(lines, "\n");
      var rest := Join(lines[1..], "\n");
      assert s == lines[0] + "\n" + rest;
      BreakIndexOfPrefix(lines[0], "\n" + rest);
      assert s[|lines[0]|] == '\n';
      assert s[..|lines[0]|] == lines[0];
      assert s[|lines[0]| + 1..] == rest;
      SplitJoinLines(lines[1..]);
    }
  }

  lemma {:induction false} BreakIndexOfPrefix(a: string, b: string)
    requires NoLineBreak(a)
    requires b != [] && IsPyLineBreak(b[0])
    ensures BreakIndex(a + b) == |a|
  {
    if a != [] {
      assert (a + b)[1..] == a[1..] + b;
      BreakIndexOfPrefix(a[1..], b);
    } else {
      assert a + b == b;
    }
  }

  // ---------------------------------------------------------------------------
  // Replacement

  /** Python `str.replace(pat, rep)` and JavaScript `replaceAll` for a
      non-empty pattern: left to right, non-overlapping. */
  function ReplaceAll(s: string, pat: string, rep: string): string
    requires pat != []
    decreases |s|
  {
    if |s| < |pat| then s
    else if s[..|pat|] == pat then rep + ReplaceAll(s[|pat|..], pat, rep)
    else [s[0]] + ReplaceAll(s[1..], pat, rep)
  }

  /** Replacing a pattern that does not occur changes nothing. */
  lemma {:induction false} ReplaceAbsent(s: string, pat: string, rep: string)
    requires pat != []
    requires !Contains(s, pat)
    ensures ReplaceAll(s, pat, rep) == s
  {
    if |s| >= |pat| {
      assert !OccursAt(s, pat, 0);
      if !Contains(s[1..], pat) {
        ReplaceAbsent(s[1..], pat, rep);
      } else {
        var i :| 0 <= i <= |s[1..]| - |pat| && OccursAt(s[1..], pat, i);
        assert s[1..][i..i + |pat|] == s[i + 1..i + 1 + |pat|];
        assert OccursAt(s, pat, i + 1);
      }
    }
  }

  /** An occurrence in `[c] + s` is either at its very start or an occurrence in `s`. */
  lemma ContainsPrepend(c: char, s: string, sub: string)
    requires Contains([c] + s, sub)
    ensures OccursAt([c] + s, sub, 0) || Contains(s, sub)
  {
    var i :| 0 <= i <= |[c] + s| - |sub| && OccursAt([c] + s, sub, i);
    if i > 0 {
      assert ([c] + s)[i..i + |sub|] == s[i - 1..i - 1 + |sub|];
      assert OccursAt(s, sub, i - 1);
    }
  }

  // ---------------------------------------------------------------------------
  // Decimal numbers

  function DigitValue(c: char): nat
    requires IsDigit(c)
  {
    c as int - '0' as int
  }

  /** The value of a string of decimal digits (`Number("0042")` is 42). */
  function DecimalValue(s: string): nat
    requires AllChars(s, IsDigit)
  {
    if s == [] then 0 else 10 * DecimalValue(s[..|s| - 1]) + DigitValue(s[|s| - 1])
  }

  /** The decimal spelling of a natural number, as JavaScript prints it. */
  function NatToString(n: nat): (r: string)
    ensures r != [] && AllChars(r, IsDigit)
    ensures DecimalValue(r) == n
    decreases n
  {
    var d := [(n % 10 + '0' as int) as char];
    if n < 10 then d
    else
      var p := NatToString(n / 10);
      assert (p + d)[..|p + d| - 1] == p;
      p + d
  }

  // ---------------------------------------------------------------------------
  // Python's list comprehension with a condition

  /** `[x for x in xs if keep(x)]`: the kept elements, in order. */
  function Filter<T>(xs: seq<T>, keep: T -> bool): seq<T> {
    if xs == [] then [] else (if keep(xs[0]) then [xs[0]] else []) + Filter(xs[1..], keep)
  }

  /** Filtering a list with one more element at the end. */
  lemma {:induction false} FilterSnoc<T>(xs: seq<T>, x: T, keep: T -> bool)
    ensures Filter(xs + [x], keep) == Filter(xs, keep) + (if keep(x) then [x] else [])
  {
    if xs != [] {
      assert (xs + [x])[1..] == xs[1..] + [x];
      FilterSnoc(xs[1..], x, keep);
    } else {
      assert [x][1..] == [];
    }
  }
}
