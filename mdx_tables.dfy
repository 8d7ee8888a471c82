/** scripts/check-mdx-tables.mjs: a line scanner that finds GitHub-style pipe
    tables outside fenced code blocks and reports rows whose column count
    differs from the header's. Reading the content directory and printing
    the report are not part of this model; a file arrives as its text. */
module MdxTables {
  import opened Text
  import opened Wrappers
  import opened Regex

  // ---------------------------------------------------------------------------
  // Splitting the file into lines

  /** The index of the first `\n` in `s`, or `|s|`. */
  function NewlineIndex(s: string): (k: nat)
    ensures k <= |s|
    ensures k < |s| ==> s[k] == '\n'
    ensures forall i :: 0 <= i < k ==> s[i] != '\n'
  {
    if s == [] || s[0] == '\n' then 0 else 1 + NewlineIndex(s[1..])
  }

  /** `source.split(/\r?\n/)`. */
  function SourceLines(s: string): (lines: seq<string>)
    ensures |lines| >= 1
    decreases |s|
  {
    var k := NewlineIndex(s);
    if k == |s| then [s]
    else [if k > 0 && s[k - 1] == '\r' then s[..k - 1] else s[..k]] + SourceLines(s[k + 1..])
  }

  /** Without carriage returns, the lines are the pieces between newlines:
      none holds a newline and joining them with `\n` gives the text back. */
  lemma {:induction false} SourceLinesJoin(s: string)
    requires forall i :: 0 <= i < |s| ==> s[i] != '\r'
    ensures Join(SourceLines(s), "\n") == s
    ensures forall j :: 0 <= j < |SourceLines(s)| ==> '\n' !in SourceLines(s)[j]
    decreases |s|
  {
    var k := NewlineIndex(s);
    if k < |s| {
      var rest := s[k + 1..];
      SourceLinesJoin(rest);
      assert s == s[..k] + "\n" + rest;
      var lines := SourceLines(s);
      assert lines == [s[..k]] + SourceLines(rest);
      assert lines[1..] == SourceLines(rest);
      forall j | 0 <= j < |lines| ensures '\n' !in lines[j] {
        if j > 0 {
          assert lines[j] == SourceLines(rest)[j - 1];
        }
      }
    }
  }

  // ---------------------------------------------------------------------------
  // getFenceMask

  /** An open code fence: its marker character and the length of its run. */
  datatype Fence = Fence(marker: char, size: nat)

  /** The length of the run of `c` starting at `i`. */
  function RunOf(s: string, i: nat, c: char): (n: nat)
    requires i <= |s|
    ensures i + n <= |s|
    ensures forall k :: i <= k < i + n ==> s[k] == c
    ensures i + n < |s| ==> s[i + n] != c
    decreases |s| - i
  {
    if i < |s| && s[i] == c then 1 + RunOf(s, i + 1, c) else 0
  }

  /** A run of `c` that ends where `c` stops is the run RunOf measures. */
  lemma {:induction false} RunOfUnique(s: string, i: nat, c: char, n: nat)
    requires i + n <= |s|
    requires forall k :: i <= k < i + n ==> s[k] == c
    requires i + n == |s| || s[i + n] != c
    ensures RunOf(s, i, c) == n
    decreases n
  {
    if n > 0 {
      RunOfUnique(s, i + 1, c, n - 1);
    }
  }

  /** `line.trim().match(/^(`{3,}|~{3,})/)`: the marker character and the
      length of its whole run. */
  function FenceMarker(line: string): Option<Fence> {
    var t := TrimJs(line);
    if |t| > 0 && (t[0] == '`' || t[0] == '~') && RunOf(t, 0, t[0]) >= 3 then
      Some(Fence(t[0], RunOf(t, 0, t[0])))
    else
      None
  }

  /** A marker is found exactly when the trimmed line starts with three
      backticks or three tildes, and it spans the whole run of that character. */
  lemma FenceMarkerShape(line: string)
    ensures var t, r := TrimJs(line), FenceMarker(line);
      && (r.None? <==> |t| < 3 || !(t[0] == t[1] == t[2] && (t[0] == '`' || t[0] == '~')))
      && (r.Some? ==>
        && (r.value.marker == '`' || r.value.marker == '~') && 3 <= r.value.size <= |t|
        && (forall k :: 0 <= k < r.value.size ==> t[k] == r.value.marker)
        && (r.value.size == |t| || t[r.value.size] != r.value.marker))
  {
    var t := TrimJs(line);
    if |t| >= 3 && t[0] == t[1] == t[2] && (t[0] == '`' || t[0] == '~') {
      assert RunOf(t, 2, t[0]) >= 1;
    }
  }

  /** A fence marker line that ends `f`: same character, a run at least as long. */
  predicate Closes(f: Fence, line: string) {
    var m := FenceMarker(line);
    m.Some? && m.value.marker == f.marker && m.value.size >= f.size
  }

  /** The flag written for a line and the fence open after it, given the
      fence open before it. */
  datatype FenceStep = FenceStep(flag: bool, next: Option<Fence>)

  function Step(open: Option<Fence>, line: string): FenceStep {
    var m := FenceMarker(line);
    if open.Some? && Closes(open.value, line) then FenceStep(true, None)
    else if m.Some? && open.None? then FenceStep(true, m)
    else FenceStep(open.Some?, open)
  }

  /** The fence open before line `n`. */
  function FenceBefore(lines: seq<string>, n: nat): Option<Fence>
    requires n <= |lines|
  {
    if n == 0 then None else Step(FenceBefore(lines, n - 1), lines[n - 1]).next
  }

  /** The flag getFenceMask writes for line `i`. */
  predicate Flagged(lines: seq<string>, i: nat)
    requires i < |lines|
  {
    Step(FenceBefore(lines, i), lines[i]).flag
  }

  /** What getFenceMask computes: one flag per line. */
  function FenceMask(lines: seq<string>): (mask: seq<bool>)
    ensures |mask| == |lines|
  {
    seq(|lines|, i requires 0 <= i < |lines| => Flagged(lines, i))
  }

  lemma FenceMaskOf(lines: seq<string>, flags: seq<bool>)
    requires |flags| == |lines|
    requires forall k :: 0 <= k < |lines| ==> flags[k] == Flagged(lines, k)
    ensures flags == FenceMask(lines)
  {
  }

  /** A line is flagged exactly when a fence is open before it or it is
      itself a fence marker line. */
  lemma FenceMaskFlags(lines: seq<string>, i: nat)
    requires i < |lines|
    ensures FenceMask(lines)[i] <==> FenceBefore(lines, i).Some? || FenceMarker(lines[i]).Some?
  {
  }

  method GetFenceMask(lines: seq<string>) returns (inFence: array<bool>)
    ensures fresh(inFence)
    ensures inFence[..] == FenceMask(lines)
  {
    inFence := new bool[|lines|](_ => false);
    var fence: Option<Fence> := None;
    var index := 0;
    while index < |lines|
      invariant 0 <= index <= |lines| && inFence.Length == |lines|
      invariant fence == FenceBefore(lines, index)
      invariant forall k :: 0 <= k < index ==> inFence[k] == Flagged(lines, k)
      invariant forall k :: index <= k < |lines| ==> !inFence[k]
    {
      ghost var step := Step(fence, lines[index]);
      assert step.next == FenceBefore(lines, index + 1) && step.flag == Flagged(lines, index);
      var m := FenceMarker(lines[index]);
      if m.Some? && fence.Some? && fence.value.marker == m.value.marker && m.value.size >= fence.value.size {
        inFence[index] := true;
        fence := None;
      } else if m.Some? && fence.None? {
        inFence[index] := true;
        fence := m;
      } else if fence.Some? {
        inFence[index] := true;
      }
      assert inFence[index] == step.flag && fence == step.next;
      index := index + 1;
    }
    FenceMaskOf(lines, inFence[..]);
  }

  /** How the open fence changes at one line: a marker line opens a fence
      when none is open, only a closing line ends one, anything else keeps it. */
  lemma FenceTransitions(lines: seq<string>, i: nat)
    requires i < |lines|
    ensures FenceBefore(lines, i).None? ==> FenceBefore(lines, i + 1) == FenceMarker(lines[i])
    ensures FenceBefore(lines, i).Some? ==>
      FenceBefore(lines, i + 1) == if Closes(FenceBefore(lines, i).value, lines[i]) then None else FenceBefore(lines, i)
  {
  }

  /** While no line closes it, a fence stays open. */
  lemma {:induction false} FenceOpenState(lines: seq<string>, i: nat, j: nat, f: Fence)
    requires i <= j <= |lines|
    requires FenceBefore(lines, i) == Some(f)
    requires forall k :: i <= k < j ==> !Closes(f, lines[k])
    ensures FenceBefore(lines, j) == Some(f)
    decreases j - i
  {
    if i < j {
      assert FenceBefore(lines, i + 1) == Some(f);
      FenceOpenState(lines, i + 1, j, f);
    }
  }

  /** ... and every line it covers is flagged; a fence never closed flags
      everything to the end of the file. */
  lemma FenceStaysOpen(lines: seq<string>, i: nat, j: nat, f: Fence)
    requires i <= j <= |lines|
    requires FenceBefore(lines, i) == Some(f)
    requires forall k :: i <= k < j ==> !Closes(f, lines[k])
    ensures FenceBefore(lines, j) == Some(f)
    ensures forall k :: i <= k < j ==> FenceMask(lines)[k]
  {
    FenceOpenState(lines, i, j, f);
    forall k | i <= k < j ensures FenceMask(lines)[k] {
      FenceOpenState(lines, i, k, f);
    }
  }

  /** A fence opened at line `o` and first closed at line `c`: the opener, the
      closer and every line between are flagged, and no fence is open after. */
  lemma FenceSpan(lines: seq<string>, o: nat, c: nat, f: Fence)
    requires o < c < |lines|
    requires FenceBefore(lines, o).None? && FenceMarker(lines[o]) == Some(f)
    requires forall k :: o + 1 <= k < c ==> !Closes(f, lines[k])
    requires Closes(f, lines[c])
    ensures forall k :: o <= k <= c ==> FenceMask(lines)[k]
    ensures FenceBefore(lines, c + 1).None?
  {
    FenceOpensAt(lines, o, f);
    FenceStaysOpen(lines, o + 1, c, f);
    FenceClosesAt(lines, c, f);
    FlaggedRange(FenceMask(lines), o, c);
  }

  /** A range is flagged when both of its ends and everything between are. */
  lemma FlaggedRange(mask: seq<bool>, o: nat, c: nat)
    requires o < c < |mask| && mask[o] && mask[c]
    requires forall k :: o + 1 <= k < c ==> mask[k]
    ensures forall k :: o <= k <= c ==> mask[k]
  {
  }

  /** A marker line with no fence open opens its fence and is flagged. */
  lemma FenceOpensAt(lines: seq<string>, o: nat, f: Fence)
    requires o < |lines| && FenceBefore(lines, o).None? && FenceMarker(lines[o]) == Some(f)
    ensures FenceBefore(lines, o + 1) == Some(f) && FenceMask(lines)[o]
  {
    FenceMaskFlags(lines, o);
  }

  /** A closing line of the open fence closes it and is flagged. */
  lemma FenceClosesAt(lines: seq<string>, c: nat, f: Fence)
    requires c < |lines| && FenceBefore(lines, c) == Some(f) && Closes(f, lines[c])
    ensures FenceBefore(lines, c + 1).None? && FenceMask(lines)[c]
  {
    FenceMaskFlags(lines, c);
  }

  // ---------------------------------------------------------------------------
  // splitRowCells

  /** The row's text: the trimmed line without its one leading `|` and
      without one trailing `|`; nothing when the trimmed line does not start
      with `|`. */
  function RowText(line: string): (r: Option<string>)
    ensures r.None? <==> !StartsWith(TrimJs(line), "|")
    ensures r.Some? ==>
      var t := TrimJs(line);
      t == "|" + r.value + (if |t| >= 2 && t[|t| - 1] == '|' then "|" else "")
  {
    var t := TrimJs(line);
    if !StartsWith(t, "|") then None
    else
      var u := t[1..];
      assert t == "|" + u;
      Some(if EndsWith(u, "|") then u[..|u| - 1] else u)
  }

  /** The new code-span tick count after a backtick run of length `n`: a run
      opens a span when none is open, and closes one only if its length
      equals the opening run's. */
  function Ticks(ticks: nat, n: nat): nat {
    if ticks == 0 then n else if ticks == n then 0 else ticks
  }

  /** The untrimmed cells of `text[i..]`, scanning with the escape flag and
      the open code span's tick count, `current` being the cell in progress. */
  function Scan(text: string, i: nat, escaped: bool, ticks: nat, current: string): (pieces: seq<string>)
    requires i <= |text|
    ensures |pieces| >= 1
    decreases |text| - i
  {
    if i == |text| then [current]
    else if escaped then Scan(text, i + 1, false, ticks, current + [text[i]])
    else if text[i] == '`' then
      var n := RunOf(text, i, '`');
      Scan(text, i + n, false, Ticks(ticks, n), current + text[i..i + n])
    else if text[i] == '\\' && ticks == 0 then Scan(text, i + 1, true, ticks, current + [text[i]])
    else if text[i] == '|' && ticks == 0 then [current] + Scan(text, i + 1, false, ticks, [])
    else Scan(text, i + 1, false, ticks, current + [text[i]])
  }

  function Pieces(text: string): seq<string> {
    Scan(text, 0, false, 0, [])
  }

  function Trims(xs: seq<string>): (r: seq<string>)
    ensures |r| == |xs| && forall i :: 0 <= i < |xs| ==> r[i] == TrimJs(xs[i])
  {
    if xs == [] then [] else [TrimJs(xs[0])] + Trims(xs[1..])
  }

  lemma TrimsSnoc(xs: seq<string>, x: string)
    ensures Trims(xs + [x]) == Trims(xs) + [TrimJs(x)]
  {
    assert Trims(xs + [x]) == Trims(xs) + [TrimJs(x)] by {
      assert forall i :: 0 <= i < |xs| ==> (xs + [x])[i] == xs[i];
    }
  }

  /** What splitRowCells returns. */
  function RowCells(line: string): (r: Option<seq<string>>)
    ensures r.None? <==> !StartsWith(TrimJs(line), "|")
  {
    match RowText(line)
    case None => None
    case Some(text) => Some(Trims(Pieces(text)))
  }

  method SplitRowCells(line: string) returns (cells: Option<seq<string>>)
    ensures cells == RowCells(line)
  {
    var text := TrimJs(line);
    if !(|text| > 0 && text[0] == '|') {
      return None;
    }
    text := text[1..];
    if |text| > 0 && text[|text| - 1] == '|' {
      text := text[..|text| - 1];
    }
    assert RowText(line) == Some(text);
    var out := ScanCells(text);
    return Some(out);
  }

  /** The length of the backtick run at `index`, counted as the loop does. */
  method CountTicks(text: string, index: nat) returns (count: nat)
    requires index < |text| && text[index] == '`'
    ensures count == RunOf(text, index, '`')
  {
    count := 1;
    while index + count < |text| && text[index + count] == '`'
      invariant 1 <= count && index + count <= |text|
      invariant forall k :: index <= k < index + count ==> text[k] == '`'
    {
      count := count + 1;
    }
    RunOfUnique(text, index, '`', count);
  }

  /** The character loop of splitRowCells. */
  method ScanCells(text: string) returns (cells: seq<string>)
    ensures cells == Trims(Pieces(text))
  {
    cells := [];
    ghost var raw: seq<string> := [];
    var current: string := "";
    var escaped := false;
    var ticks: nat := 0;
    var index := 0;
    while index < |text|
      invariant 0 <= index <= |text|
      invariant cells == Trims(raw)
      invariant raw + Scan(text, index, escaped, ticks, current) == Pieces(text)
    {
      var ch := text[index];
      ghost var rest := Scan(text, index, escaped, ticks, current);
      if !Cuts(text, index, escaped, ticks) {
        ScanAdvance(text, index, escaped, ticks, current);
      } else {
        AppendAssoc(raw, [current], Scan(text, index + 1, false, ticks, []));
      }
      if escaped {
        current := current + [ch];
        escaped := false;
        index := index + 1;
        assert Scan(text, index, escaped, ticks, current) == rest;
      } else if ch == '`' {
        var count := CountTicks(text, index);
        ticks := Ticks(ticks, count);
        assert seq(count, _ => '`') == text[index..index + count];
        current := current + seq(count, _ => '`');
        index := index + count;
        assert Scan(text, index, escaped, ticks, current) == rest;
      } else if ch == '\\' && ticks == 0 {
        current := current + [ch];
        escaped := true;
        index := index + 1;
        assert Scan(text, index, escaped, ticks, current) == rest;
      } else if ch == '|' && ticks == 0 {
        TrimsSnoc(raw, current);
        cells := cells + [TrimJs(current)];
        raw := raw + [current];
        current := "";
        index := index + 1;
      } else {
        current := current + [ch];
        index := index + 1;
        assert Scan(text, index, escaped, ticks, current) == rest;
      }
    }
    TrimsSnoc(raw, current);
    cells := cells + [TrimJs(current)];
    raw := raw + [current];
  }

  /** Whether the scan cuts a cell at `i`: an unescaped pipe outside a code span. */
  predicate Cuts(text: string, i: nat, escaped: bool, ticks: nat)
    requires i < |text|
  {
    !escaped && text[i] == '|' && ticks == 0
  }

  /** How many characters one step of the scan takes at `i` when it does not
      cut: a whole backtick run, or one character. */
  function StepLength(text: string, i: nat, escaped: bool): (n: nat)
    requires i < |text|
    ensures 1 <= n && i + n <= |text|
  {
    if !escaped && text[i] == '`' then RunOf(text, i, '`') else 1
  }

  /** One step of the scan that does not cut: the characters taken join the
      cell in progress, and the flags move on as the loop moves them. */
  lemma ScanAdvance(text: string, i: nat, escaped: bool, ticks: nat, current: string)
    requires i < |text| && !Cuts(text, i, escaped, ticks)
    ensures var n := StepLength(text, i, escaped);
      var backticks := !escaped && text[i] == '`';
      && (!backticks ==> n == 1 && text[i..i + n] == [text[i]])
      && Scan(text, i, escaped, ticks, current) ==
        Scan(text, i + n, !escaped && text[i] == '\\' && ticks == 0,
          if backticks then Ticks(ticks, n) else ticks, current + text[i..i + n])
  {
    if escaped || text[i] != '`' {
      assert text[i..i + 1] == [text[i]];
    }
  }

  /** The cells are cut only at pipes: joined with `|` they give back the text. */
  lemma {:induction false} ScanJoin(text: string, i: nat, escaped: bool, ticks: nat, current: string)
    requires i <= |text|
    ensures Join(Scan(text, i, escaped, ticks, current), "|") == current + text[i..]
    decreases |text| - i
  {
    if i < |text| {
      if Cuts(text, i, escaped, ticks) {
        ScanJoin(text, i + 1, false, ticks, []);
        ScanCutJoin(text, i, escaped, ticks, current);
      } else {
        var n := StepLength(text, i, escaped);
        var backticks := !escaped && text[i] == '`';
        ScanAdvance(text, i, escaped, ticks, current);
        ScanJoin(text, i + n, !escaped && text[i] == '\\' && ticks == 0,
          if backticks then Ticks(ticks, n) else ticks, current + text[i..i + n]);
        SplitJoin(text, i, n, current);
      }
    }
  }

  /** A cut puts the pipe back between the cell and the rest. */
  lemma ScanCutJoin(text: string, i: nat, escaped: bool, ticks: nat, current: string)
    requires i < |text| && Cuts(text, i, escaped, ticks)
    requires Join(Scan(text, i + 1, false, ticks, []), "|") == text[i + 1..]
    ensures Join(Scan(text, i, escaped, ticks, current), "|") == current + text[i..]
  {
    var rest := Scan(text, i + 1, false, ticks, []);
    assert Scan(text, i, escaped, ticks, current) == [current] + rest;
    assert ([current] + rest)[1..] == rest;
    assert text[i..] == "|" + text[i + 1..];
  }

  /** Taking `n` characters onto the cell leaves the text as it was. */
  lemma SplitJoin(text: string, i: nat, n: nat, current: string)
    requires i + n <= |text|
    ensures (current + text[i..i + n]) + text[i + n..] == current + text[i..]
  {
    assert text[i..] == text[i..i + n] + text[i + n..];
    AppendAssoc(current, text[i..i + n], text[i + n..]);
  }

  lemma PiecesJoin(text: string)
    ensures Join(Pieces(text), "|") == text
  {
    ScanJoin(text, 0, false, 0, []);
  }

  /** Every cut consumes a pipe: there are at most one more cells than pipes. */
  lemma {:induction false} ScanCount(text: string, i: nat, escaped: bool, ticks: nat, current: string)
    requires i <= |text|
    ensures |Scan(text, i, escaped, ticks, current)| <= 1 + multiset(text[i..])['|']
    decreases |text| - i
  {
    if i < |text| {
      var n := StepLength(text, i, escaped);
      PipesSplit(text, i, n);
      if Cuts(text, i, escaped, ticks) {
        ScanCount(text, i + 1, false, ticks, []);
        assert text[i..i + n] == ['|'];
      } else {
        var backticks := !escaped && text[i] == '`';
        if backticks {
          assert '|' !in text[i..i + n];
        }
        ScanAdvance(text, i, escaped, ticks, current);
        ScanCount(text, i + n, !escaped && text[i] == '\\' && ticks == 0,
          if backticks then Ticks(ticks, n) else ticks, current + text[i..i + n]);
      }
    }
  }

  /** The pipes of `text[i..]` are those of its first `n` characters and
      those after. */
  lemma PipesSplit(text: string, i: nat, n: nat)
    requires i + n <= |text|
    ensures multiset(text[i..])['|'] == multiset(text[i..i + n])['|'] + multiset(text[i + n..])['|']
  {
    assert text[i..] == text[i..i + n] + text[i + n..];
  }

  /** Without backslashes and backticks every pipe cuts: no cell holds a pipe
      and there is exactly one more cell than pipes. */
  lemma {:induction false} ScanPlain(text: string, i: nat, current: string)
    requires i <= |text|
    requires forall k :: i <= k < |text| ==> text[k] != '`' && text[k] != '\\'
    requires '|' !in current
    ensures var pieces := Scan(text, i, false, 0, current);
      && |pieces| == 1 + multiset(text[i..])['|']
      && forall j :: 0 <= j < |pieces| ==> '|' !in pieces[j]
    decreases |text| - i
  {
    if i < |text| {
      assert text[i..] == [text[i]] + text[i + 1..];
      assert multiset(text[i..]) == multiset{text[i]} + multiset(text[i + 1..]);
      if text[i] == '|' {
        ScanPlain(text, i + 1, []);
        var rest := Scan(text, i + 1, false, 0, []);
        assert Scan(text, i, false, 0, current) == [current] + rest;
        forall j | 0 <= j < 1 + |rest| ensures '|' !in ([current] + rest)[j] {
          if j > 0 {
            assert ([current] + rest)[j] == rest[j - 1];
          }
        }
      } else {
        ScanPlain(text, i + 1, current + [text[i]]);
      }
    }
  }

  /** Inside an open code span, up to the next backtick, pipes and
      backslashes are ordinary characters: nothing is cut or escaped. */
  lemma {:induction false} CodeSpanLiteral(text: string, i: nat, j: nat, ticks: nat, current: string)
    requires i <= j <= |text| && ticks > 0
    requires forall k :: i <= k < j ==> text[k] != '`'
    ensures Scan(text, i, false, ticks, current) == Scan(text, j, false, ticks, current + text[i..j])
    decreases j - i
  {
    if i < j {
      CodeSpanLiteral(text, i + 1, j, ticks, current + [text[i]]);
      assert current + [text[i]] + text[i + 1..j] == current + text[i..j];
    } else {
      assert current + text[i..j] == current;
    }
  }

  /** A backtick run closes the open span only when it is exactly as long as
      the run that opened it. */
  lemma TicksClose(ticks: nat, n: nat)
    requires ticks > 0 && n > 0
    ensures Ticks(ticks, n) == 0 <==> n == ticks
    ensures Ticks(ticks, n) != 0 ==> Ticks(ticks, n) == ticks
  {
  }

  // ---------------------------------------------------------------------------
  // isDelimiterRow

  /** `cell.replace(/\s+/g, '')`. */
  function RemoveSpaces(s: string): (r: string)
    ensures forall i :: 0 <= i < |r| ==> !IsJsSpace(r[i])
    ensures forall c :: c in r <==> c in s && !IsJsSpace(c)
  {
    if s == [] then []
    else (if IsJsSpace(s[0]) then [] else [s[0]]) + RemoveSpaces(s[1..])
  }

  /** `/^:?-{3,}:?$/`. */
  const DelimiterPattern: seq<Item> := [
    InputStart, Rep(OneOf(":"), 0, Some(1), true), Rep(OneOf("-"), 3, None, true),
    Rep(OneOf(":"), 0, Some(1), true), InputEnd]

  predicate DelimiterCell(cell: string) {
    Search(DelimiterPattern, RemoveSpaces(cell), 0).Some?
  }

  /** What the pattern accepts, said directly: an optional colon, at least
      three hyphens, an optional colon, and nothing else. */
  predicate DelimiterShape(d: string) {
    var lead := if |d| > 0 && d[0] == ':' then 1 else 0;
    var trail := if |d| > lead && d[|d| - 1] == ':' then 1 else 0;
    lead + 3 + trail <= |d| && forall i :: lead <= i < |d| - trail ==> d[i] == '-'
  }

  lemma DelimiterPatternShape(d: string)
    ensures Search(DelimiterPattern, d, 0).Some? <==> DelimiterShape(d)
  {
    AnchoredSearch(DelimiterPattern, d);
    if Match(DelimiterPattern, d, 0).Some? {
      MatchedDelimiter(d);
    }
    if DelimiterShape(d) {
      DelimiterMatches(d);
    }
  }

  /** What the pattern matches has the shape. */
  lemma MatchedDelimiter(d: string)
    requires Match(DelimiterPattern, d, 0).Some?
    ensures DelimiterShape(d)
  {
    var p := DelimiterPattern;
    MatchSound(p, d, 0);
    var cuts := Match(p, d, 0).value;
    FitsItems(p, d, 0, cuts);
    DelimiterFromFits(d, cuts);
  }

  /** Cuts where every item of the pattern fits give the shape. */
  lemma DelimiterFromFits(d: string, cuts: seq<nat>)
    requires |cuts| == |DelimiterPattern| + 1
    requires forall i :: 0 <= i < |DelimiterPattern| ==> ItemFits(DelimiterPattern[i], d, cuts[i], cuts[i + 1])
    ensures DelimiterShape(d)
  {
    var p := DelimiterPattern;
    assert ItemFits(p[0], d, cuts[0], cuts[1]);
    assert ItemFits(p[1], d, cuts[1], cuts[2]);
    assert ItemFits(p[2], d, cuts[2], cuts[3]);
    assert ItemFits(p[3], d, cuts[3], cuts[4]);
    assert ItemFits(p[4], d, cuts[4], cuts[5]);
    DelimiterCuts(d, cuts[2], cuts[3]);
  }

  lemma DelimiterCuts(d: string, a: nat, b: nat)
    requires a <= 1 && a + 3 <= b <= |d| && b + 1 >= |d|
    requires a == 1 ==> d[0] == ':'
    requires b < |d| ==> d[b] == ':'
    requires forall i :: a <= i < b ==> d[i] == '-'
    ensures DelimiterShape(d)
  {
  }

  /** Everything of the shape is matched. */
  lemma DelimiterMatches(d: string)
    requires DelimiterShape(d)
    ensures Match(DelimiterPattern, d, 0).Some?
  {
    var p := DelimiterPattern;
    var lead := if |d| > 0 && d[0] == ':' then 1 else 0;
    var trail := if |d| > lead && d[|d| - 1] == ':' then 1 else 0;
    var cuts: seq<nat> := [0, 0, lead, |d| - trail, |d|, |d|];
    DelimiterTailFits(d, trail);
    assert cuts[3..] == [|d| - trail, |d|, |d|];
    assert Fits(p[2..], d, lead, cuts[2..]);
    assert Fits(p[1..], d, 0, cuts[1..]);
    assert Fits(p, d, 0, cuts);
    MatchCorrect(p, d, 0, cuts);
  }

  /** The closing colon, if any, and the end of the input. */
  lemma DelimiterTailFits(d: string, trail: nat)
    requires trail <= 1 && trail <= |d| && (trail == 1 ==> d[|d| - 1] == ':')
    ensures Fits(DelimiterPattern[3..], d, |d| - trail, [|d| - trail, |d|, |d|])
  {
    var p := DelimiterPattern;
    assert Fits(p[5..], d, |d|, [|d|]);
    assert Fits(p[4..], d, |d|, [|d|, |d|]);
  }

  /** `isDelimiterRow(line)`. */
  predicate IsDelimiterRow(line: string) {
    var cells := RowCells(line);
    cells.Some? && |cells.value| >= 2 && forall i :: 0 <= i < |cells.value| ==> DelimiterCell(cells.value[i])
  }

  /** A delimiter row has at least two cells, each of which, once its
      whitespace is removed, is an optional colon, three or more hyphens and
      an optional colon. */
  lemma IsDelimiterRowIff(line: string)
    ensures IsDelimiterRow(line) <==>
      && StartsWith(TrimJs(line), "|")
      && |RowCells(line).value| >= 2
      && forall i :: 0 <= i < |RowCells(line).value| ==> DelimiterShape(RemoveSpaces(RowCells(line).value[i]))
  {
    if RowCells(line).Some? {
      var cells := RowCells(line).value;
      forall i | 0 <= i < |cells| ensures DelimiterCell(cells[i]) <==> DelimiterShape(RemoveSpaces(cells[i])) {
        DelimiterPatternShape(RemoveSpaces(cells[i]));
      }
    }
  }

  // ---------------------------------------------------------------------------
  // checkFile

  datatype IssueKind = HeaderDelimiterMismatch | RowColumnMismatch

  /** An issue at a 1-based line: the header's column count and the count
      found on that line. */
  datatype Issue = Issue(line: nat, kind: IssueKind, expected: nat, found: nat)

  function Message(issue: Issue): string {
    "header has " + NatToString(issue.expected) + " columns, "
    + (if issue.kind == HeaderDelimiterMismatch then "delimiter" else "row")
    + " has " + NatToString(issue.found)
  }

  /** What the scan asks of one line: whether its trimmed text starts with
      `|`, whether it is a delimiter row, and its cell count, if it splits. */
  datatype LineInfo = LineInfo(pipe: bool, delimiter: bool, cells: Option<nat>)

  function Info(line: string): LineInfo {
    var t := TrimJs(line);
    var cells := RowCells(t);
    LineInfo(StartsWith(t, "|"), IsDelimiterRow(t), if cells.Some? then Some(|cells.value|) else None)
  }

  function Infos(lines: seq<string>): (r: seq<LineInfo>)
    ensures |r| == |lines| && forall i :: 0 <= i < |lines| ==> r[i] == Info(lines[i])
  {
    if lines == [] then [] else [Info(lines[0])] + Infos(lines[1..])
  }

  /** Lines `index` and `index + 1` are a header and a delimiter row outside
      any fence. */
  predicate StartsTable(info: seq<LineInfo>, mask: seq<bool>, index: nat)
    requires |mask| == |info| && index + 1 < |info|
  {
    && !mask[index] && !mask[index + 1]
    && info[index].pipe && info[index + 1].pipe && info[index + 1].delimiter
    && info[index].cells.Some? && info[index + 1].cells.Some?
  }

  /** Line `row` is not a body row: the end of the file, a fenced line, a line
      not starting with `|`, or another delimiter row. */
  predicate EndsBody(info: seq<LineInfo>, mask: seq<bool>, row: nat)
    requires |mask| == |info| && row <= |info|
  {
    row == |info| || mask[row] || !info[row].pipe || info[row].delimiter || info[row].cells.None?
  }

  /** Where the body that starts at `row` stops. */
  function BodyEnd(info: seq<LineInfo>, mask: seq<bool>, row: nat): (end: nat)
    requires |mask| == |info| && row <= |info|
    ensures row <= end <= |info| && EndsBody(info, mask, end)
    ensures forall r :: row <= r < end ==> !EndsBody(info, mask, r)
    decreases |info| - row
  {
    if EndsBody(info, mask, row) then row else BodyEnd(info, mask, row + 1)
  }

  /** The issues of body rows `lo` to `hi - 1` against the header's count. */
  function RowIssues(info: seq<LineInfo>, mask: seq<bool>, lo: nat, hi: nat, header: nat): seq<Issue>
    requires |mask| == |info| && lo <= hi <= |info|
    requires forall r :: lo <= r < hi ==> !EndsBody(info, mask, r)
    decreases hi - lo
  {
    if lo == hi then []
    else
      assert !EndsBody(info, mask, hi - 1);
      var n := info[hi - 1].cells.value;
      RowIssues(info, mask, lo, hi - 1, header)
      + (if n != header then [Issue(hi, RowColumnMismatch, header, n)] else [])
  }

  /** The issues the scan finds from line `index` on. */
  function Check(info: seq<LineInfo>, mask: seq<bool>, index: nat): seq<Issue>
    requires |mask| == |info|
    decreases |info| - index
  {
    if index + 1 >= |info| then []
    else if !StartsTable(info, mask, index) then Check(info, mask, index + 1)
    else
      var h := info[index].cells.value;
      var d := info[index + 1].cells.value;
      var end := BodyEnd(info, mask, index + 2);
      (if h != d then [Issue(index + 2, HeaderDelimiterMismatch, h, d)] else [])
      + RowIssues(info, mask, index + 2, end, h)
      + Check(info, mask, end)
  }

  /** What checkFile reports for a file's text. */
  function CheckSource(source: string): seq<Issue> {
    var lines := SourceLines(source);
    Check(Infos(lines), FenceMask(lines), 0)
  }

  /** checkFile's scan: every unfenced pair of lines that opens a table has
      its header and delimiter counts compared, then its body rows walked. */
  method CheckFile(source: string) returns (issues: seq<Issue>)
    ensures issues == CheckSource(source)
  {
    var lines := SourceLines(source);
    var fenceMask := GetFenceMask(lines);
    ghost var mask := fenceMask[..];
    ghost var info := Infos(lines);
    issues := [];
    var index := 0;
    while index + 1 < |lines|
      invariant index <= |lines| && fenceMask[..] == mask && |mask| == |info| == |lines|
      invariant issues + Check(info, mask, index) == Check(info, mask, 0)
      decreases |lines| - index
    {
      var next := index + 1;
      if fenceMask[index] || fenceMask[index + 1] {
        CheckSkip(info, mask, index);
      } else {
        var counts := ReadTableStart(lines[index], lines[index + 1]);
        if counts.None? {
          CheckSkip(info, mask, index);
        } else {
          var (h, d) := counts.value;
          var headerIssues: seq<Issue> := [];
          if h != d {
            headerIssues := [Issue(index + 2, HeaderDelimiterMismatch, h, d)];
          }
          var rowIssues;
          next, rowIssues := CheckBody(lines, fenceMask, index + 2, h);
          CheckAtTable(info, mask, index);
          assert Check(info, mask, index) == (headerIssues + rowIssues) + Check(info, mask, next);
          AppendAssoc(issues, headerIssues + rowIssues, Check(info, mask, next));
          issues := issues + (headerIssues + rowIssues);
        }
      }
      index := next;
    }
  }

  /** The test at the head of checkFile's loop: both lines trimmed start with
      `|`, the second is a delimiter row, and both split into cells; the
      result is the two cell counts. */
  method ReadTableStart(header: string, delimiter: string) returns (counts: Option<(nat, nat)>)
    ensures counts.Some? <==>
      && Info(header).pipe && Info(delimiter).pipe && Info(delimiter).delimiter
      && Info(header).cells.Some? && Info(delimiter).cells.Some?
    ensures counts.Some? ==> counts.value == (Info(header).cells.value, Info(delimiter).cells.value)
  {
    var headerLine := TrimJs(header);
    var delimiterLine := TrimJs(delimiter);
    if !StartsWith(headerLine, "|") || !StartsWith(delimiterLine, "|") || !IsDelimiterRow(delimiterLine) {
      return None;
    }
    var headerCells := SplitRowCells(headerLine);
    var delimiterCells := SplitRowCells(delimiterLine);
    if headerCells.None? || delimiterCells.None? {
      return None;
    }
    return Some((|headerCells.value|, |delimiterCells.value|));
  }

  /** Check's step past a line that does not open a table. */
  lemma CheckSkip(info: seq<LineInfo>, mask: seq<bool>, index: nat)
    requires |mask| == |info| && index + 1 < |info| && !StartsTable(info, mask, index)
    ensures Check(info, mask, index) == Check(info, mask, index + 1)
  {
  }

  /** Check's step at a table. */
  lemma CheckAtTable(info: seq<LineInfo>, mask: seq<bool>, index: nat)
    requires |mask| == |info| && index + 1 < |info| && StartsTable(info, mask, index)
    ensures var h, d := info[index].cells.value, info[index + 1].cells.value;
      var end := BodyEnd(info, mask, index + 2);
      Check(info, mask, index)
      == (if h != d then [Issue(index + 2, HeaderDelimiterMismatch, h, d)] else [])
         + RowIssues(info, mask, index + 2, end, h) + Check(info, mask, end)
  {
  }

  /** One turn of checkFile's inner loop: the trimmed line must start with
      `|`, must not be another delimiter row and must split into cells;
      otherwise the loop stops (`None`). */
  method ReadBodyRow(line: string) returns (count: Option<nat>)
    ensures count.None? <==> !Info(line).pipe || Info(line).delimiter || Info(line).cells.None?
    ensures count.Some? ==> count == Info(line).cells
  {
    var rowLine := TrimJs(line);
    if !StartsWith(rowLine, "|") {
      return None;
    }
    if IsDelimiterRow(rowLine) {
      return None;
    }
    var rowCells := SplitRowCells(rowLine);
    if rowCells.None? {
      return None;
    }
    return Some(|rowCells.value|);
  }

  /** The inner loop of checkFile: walks the body rows from `start`, noting
      each whose cell count differs from the header's, up to the first line
      that ends the table. */
  method CheckBody(lines: seq<string>, fenceMask: array<bool>, start: nat, h: nat) returns (rowIndex: nat, rowIssues: seq<Issue>)
    requires fenceMask.Length == |lines| && start <= |lines|
    ensures rowIndex == BodyEnd(Infos(lines), fenceMask[..], start)
    ensures rowIssues == RowIssues(Infos(lines), fenceMask[..], start, rowIndex, h)
  {
    ghost var info := Infos(lines);
    ghost var mask := fenceMask[..];
    ghost var end := BodyEnd(info, mask, start);
    rowIssues := [];
    rowIndex := start;
    while rowIndex < |lines| && !fenceMask[rowIndex]
      invariant start <= rowIndex <= end
      invariant rowIssues == RowIssues(info, mask, start, rowIndex, h)
      decreases |lines| - rowIndex
    {
      var count := ReadBodyRow(lines[rowIndex]);
      assert info[rowIndex] == Info(lines[rowIndex]);
      if count.None? {
        BodyStops(info, mask, start, rowIndex);
        break;
      }
      BodyRow(info, mask, start, rowIndex, h);
      if count.value != h {
        rowIssues := rowIssues + [Issue(rowIndex + 1, RowColumnMismatch, h, count.value)];
      }
      rowIndex := rowIndex + 1;
    }
    if rowIndex == |lines| || fenceMask[rowIndex] {
      BodyStops(info, mask, start, rowIndex);
    }
  }

  /** A row that ends the body at or after `start` is where it ends. */
  lemma BodyStops(info: seq<LineInfo>, mask: seq<bool>, start: nat, row: nat)
    requires |mask| == |info| && start <= row <= |info|
    requires row <= BodyEnd(info, mask, start) && EndsBody(info, mask, row)
    ensures row == BodyEnd(info, mask, start)
  {
  }

  /** A line before the end of the body adds its own issue, if any. */
  lemma BodyRow(info: seq<LineInfo>, mask: seq<bool>, start: nat, row: nat, h: nat)
    requires |mask| == |info| && start <= row < |info| && row <= BodyEnd(info, mask, start)
    requires !mask[row] && info[row].pipe && !info[row].delimiter && info[row].cells.Some?
    ensures row < BodyEnd(info, mask, start)
    ensures var n := info[row].cells.value;
      RowIssues(info, mask, start, row + 1, h)
      == RowIssues(info, mask, start, row, h) + (if n != h then [Issue(row + 1, RowColumnMismatch, h, n)] else [])
  {
    assert !EndsBody(info, mask, row);
  }

  /** Issue `issue` names a line of the file holding an unfenced row that
      starts with `|`, whose cell count is the one found, and that count
      differs from the header's. */
  predicate Flags(info: seq<LineInfo>, mask: seq<bool>, issue: Issue)
    requires |mask| == |info|
  {
    && 1 <= issue.line <= |info|
    && !mask[issue.line - 1]
    && info[issue.line - 1].pipe
    && info[issue.line - 1].cells == Some(issue.found)
    && issue.found != issue.expected
  }

  /** Issues on (1-based) lines `lo` to `hi`, each flagging a real mismatch,
      in strictly increasing line order: the first is on a line from `lo` to
      `hi`, and the others are on lines after it. */
  predicate OrderedIssues(info: seq<LineInfo>, mask: seq<bool>, lo: nat, hi: nat, issues: seq<Issue>)
    requires |mask| == |info|
    decreases |issues|
  {
    issues == [] ||
      (&& lo <= issues[0].line <= hi && Flags(info, mask, issues[0])
       && OrderedIssues(info, mask, issues[0].line + 1, hi, issues[1..]))
  }

  /** An ordered run, spelled out: every issue is on a line from `lo` to `hi`
      and flags a real mismatch, and the lines strictly increase. */
  lemma {:induction false} OrderedIssuesAll(info: seq<LineInfo>, mask: seq<bool>, lo: nat, hi: nat, issues: seq<Issue>)
    requires |mask| == |info| && OrderedIssues(info, mask, lo, hi, issues)
    ensures forall k :: 0 <= k < |issues| ==> lo <= issues[k].line <= hi && Flags(info, mask, issues[k])
    ensures forall k, l :: 0 <= k < l < |issues| ==> issues[k].line < issues[l].line
    decreases |issues|
  {
    if issues != [] {
      var tail := issues[1..];
      OrderedIssuesAll(info, mask, issues[0].line + 1, hi, tail);
      forall k | 0 <= k < |issues|
        ensures lo <= issues[k].line <= hi && Flags(info, mask, issues[k])
      {
        if k > 0 {
          assert issues[k] == tail[k - 1];
        }
      }
      forall k, l | 0 <= k < l < |issues|
        ensures issues[k].line < issues[l].line
      {
        assert issues[l] == tail[l - 1];
        if k > 0 {
          assert issues[k] == tail[k - 1];
        }
      }
    }
  }

  /** What the scan reports from line `index` on is an ordered run of real
      mismatches, on lines after the header line the scan started at. */
  lemma {:induction false} CheckIssues(info: seq<LineInfo>, mask: seq<bool>, index: nat)
    requires |mask| == |info|
    ensures OrderedIssues(info, mask, index + 2, |info|, Check(info, mask, index))
    decreases |info| - index
  {
    if index + 1 < |info| {
      if !StartsTable(info, mask, index) {
        CheckIssues(info, mask, index + 1);
      } else {
        var end := BodyEnd(info, mask, index + 2);
        CheckIssues(info, mask, end);
        TableIssues(info, mask, index);
      }
    }
  }

  /** The step of CheckIssues at a table: its header mismatch, then its body
      rows, then whatever follows the table. */
  lemma TableIssues(info: seq<LineInfo>, mask: seq<bool>, index: nat)
    requires |mask| == |info| && index + 1 < |info| && StartsTable(info, mask, index)
    requires OrderedIssues(info, mask, BodyEnd(info, mask, index + 2) + 2, |info|, Check(info, mask, BodyEnd(info, mask, index + 2)))
    ensures OrderedIssues(info, mask, index + 2, |info|, Check(info, mask, index))
  {
    var h := info[index].cells.value;
    var d := info[index + 1].cells.value;
    var end := BodyEnd(info, mask, index + 2);
    var table := (if h != d then [Issue(index + 2, HeaderDelimiterMismatch, h, d)] else [])
      + RowIssues(info, mask, index + 2, end, h);
    HeaderAndRows(info, mask, index);
    CheckAtTable(info, mask, index);
    IssuesJoin(info, mask, index + 2, end, end + 2, |info|, table, Check(info, mask, end), Check(info, mask, index));
  }

  /** IssuesAppend, for a run already known to be the two joined. */
  lemma IssuesJoin(info: seq<LineInfo>, mask: seq<bool>, lo1: nat, hi1: nat, lo2: nat, hi2: nat, xs: seq<Issue>, ys: seq<Issue>, zs: seq<Issue>)
    requires |mask| == |info| && lo1 <= lo2 && hi1 <= hi2 && hi1 < lo2 && zs == xs + ys
    requires OrderedIssues(info, mask, lo1, hi1, xs) && OrderedIssues(info, mask, lo2, hi2, ys)
    ensures OrderedIssues(info, mask, lo1, hi2, zs)
  {
    IssuesAppend(info, mask, lo1, hi1, lo2, hi2, xs, ys);
  }

  /** The header mismatch and the body rows' issues of one table, in line order. */
  lemma HeaderAndRows(info: seq<LineInfo>, mask: seq<bool>, index: nat)
    requires |mask| == |info| && index + 1 < |info| && StartsTable(info, mask, index)
    ensures var h, d := info[index].cells.value, info[index + 1].cells.value;
      var end := BodyEnd(info, mask, index + 2);
      OrderedIssues(info, mask, index + 2, end,
        (if h != d then [Issue(index + 2, HeaderDelimiterMismatch, h, d)] else [])
        + RowIssues(info, mask, index + 2, end, h))
  {
    var h := info[index].cells.value;
    var d := info[index + 1].cells.value;
    var end := BodyEnd(info, mask, index + 2);
    var head := if h != d then [Issue(index + 2, HeaderDelimiterMismatch, h, d)] else [];
    var rows := RowIssues(info, mask, index + 2, end, h);
    RowIssuesLines(info, mask, index + 2, end, h);
    HeaderIssue(info, mask, index);
    IssuesAppend(info, mask, index + 2, index + 2, index + 3, end, head, rows);
  }

  /** The header mismatch, if any, is reported on the delimiter row's line. */
  lemma HeaderIssue(info: seq<LineInfo>, mask: seq<bool>, index: nat)
    requires |mask| == |info| && index + 1 < |info| && StartsTable(info, mask, index)
    ensures var h, d := info[index].cells.value, info[index + 1].cells.value;
      OrderedIssues(info, mask, index + 2, index + 2, if h != d then [Issue(index + 2, HeaderDelimiterMismatch, h, d)] else [])
  {
  }

  /** Two ordered runs, the first on lines before the second's, join into one. */
  lemma {:induction false} IssuesAppend(info: seq<LineInfo>, mask: seq<bool>, lo1: nat, hi1: nat, lo2: nat, hi2: nat, xs: seq<Issue>, ys: seq<Issue>)
    requires |mask| == |info| && lo1 <= lo2 && hi1 <= hi2 && hi1 < lo2
    requires OrderedIssues(info, mask, lo1, hi1, xs) && OrderedIssues(info, mask, lo2, hi2, ys)
    ensures OrderedIssues(info, mask, lo1, hi2, xs + ys)
    decreases |xs|
  {
    if xs == [] {
      assert xs + ys == ys;
    } else {
      IssuesAppend(info, mask, xs[0].line + 1, hi1, lo2, hi2, xs[1..], ys);
      assert (xs + ys)[1..] == xs[1..] + ys;
    }
  }

  lemma {:induction false} RowIssuesLines(info: seq<LineInfo>, mask: seq<bool>, lo: nat, hi: nat, header: nat)
    requires |mask| == |info| && lo <= hi <= |info|
    requires forall r :: lo <= r < hi ==> !EndsBody(info, mask, r)
    ensures OrderedIssues(info, mask, lo + 1, hi, RowIssues(info, mask, lo, hi, header))
    decreases hi - lo
  {
    if lo < hi {
      RowIssuesLines(info, mask, lo, hi - 1, header);
      assert !EndsBody(info, mask, hi - 1);
      var n := info[hi - 1].cells.value;
      var last := if n != header then [Issue(hi, RowColumnMismatch, header, n)] else [];
      assert RowIssues(info, mask, lo, hi, header) == RowIssues(info, mask, lo, hi - 1, header) + last;
      assert OrderedIssues(info, mask, hi, hi, last);
      IssuesAppend(info, mask, lo + 1, hi - 1, hi, hi, RowIssues(info, mask, lo, hi - 1, header), last);
    }
  }

  /** Every issue checkFile reports is on a line (1-based, never the first)
      outside any code fence, whose trimmed text starts with `|` and splits
      into the number of cells the issue names, which differs from the
      header's; issues come in increasing line order. */
  lemma CheckSourceIssues(source: string)
    ensures var lines, issues := SourceLines(source), CheckSource(source);
      && (forall k :: 0 <= k < |issues| ==>
            && 2 <= issues[k].line <= |lines|
            && !FenceMask(lines)[issues[k].line - 1]
            && StartsWith(TrimJs(lines[issues[k].line - 1]), "|")
            && RowCells(TrimJs(lines[issues[k].line - 1])).Some?
            && |RowCells(TrimJs(lines[issues[k].line - 1])).value| == issues[k].found
            && issues[k].found != issues[k].expected)
      && (forall k, l :: 0 <= k < l < |issues| ==> issues[k].line < issues[l].line)
  {
    var lines := SourceLines(source);
    CheckIssues(Infos(lines), FenceMask(lines), 0);
    OrderedIssuesAll(Infos(lines), FenceMask(lines), 2, |lines|, CheckSource(source));
  }

  /** Only a file with some line whose trimmed text starts with `|` can have
      issues. */
  lemma IssuesNeedPipes(source: string)
    ensures CheckSource(source) != [] ==>
      exists i :: 0 <= i < |SourceLines(source)| && StartsWith(TrimJs(SourceLines(source)[i]), "|")
  {
    var lines := SourceLines(source);
    var issues := CheckSource(source);
    CheckSourceIssues(source);
    if issues != [] {
      var i := issues[0].line - 1;
      assert StartsWith(TrimJs(lines[i]), "|");
    }
  }
}
