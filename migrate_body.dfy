/** scripts/migrate_docs_bilingual.py: the line-by-line rewrites of an MDX
    body — `remove_imports`, `apply_codex_image_italic_rule` and
    `ensure_ads`. Each works on `body.splitlines()` and joins with `\n`. */
module MigrateBody {
  import opened Text

  // ---------------------------------------------------------------------------
  // remove_imports

  /** A line the migration drops: its stripped form starts with one of the
      two component imports the composed header re-adds. */
  predicate IsComponentImport(line: string) {
    var t := StripPy(line);
    StartsWith(t, "import { AdPlaceholder }") || StartsWith(t, "import { Callout }")
  }

  predicate IsBlank(line: string) {
    StripPy(line) == []
  }

  /** The lines the first loop keeps, in order. */
  function KeptLines(lines: seq<string>): seq<string> {
    if lines == [] then []
    else
      var last := lines[|lines| - 1];
      var init := KeptLines(lines[..|lines| - 1]);
      if IsComponentImport(last) then init else init + [last]
  }

  /** The first loop keeps exactly the lines that are not component imports. */
  lemma {:induction false} KeptLinesSpec(lines: seq<string>)
    ensures var r := KeptLines(lines);
      && |r| <= |lines|
      && (forall k :: 0 <= k < |r| ==> !IsComponentImport(r[k]) && r[k] in lines)
      && (forall k :: 0 <= k < |lines| && !IsComponentImport(lines[k]) ==> lines[k] in r)
  {
    if lines != [] {
      var init := lines[..|lines| - 1];
      KeptLinesSpec(init);
      assert forall k :: 0 <= k < |lines| - 1 ==> init[k] == lines[k];
    }
  }

  /** The first loop is the list comprehension that keeps, in order, the
      lines that are not component imports. */
  lemma {:induction false} KeptLinesFilter(lines: seq<string>)
    ensures KeptLines(lines) == Filter(lines, line => !IsComponentImport(line))
  {
    if lines != [] {
      var init := lines[..|lines| - 1];
      KeptLinesFilter(init);
      assert init + [lines[|lines| - 1]] == lines;
      FilterSnoc(init, lines[|lines| - 1], line => !IsComponentImport(line));
    }
  }

  /** The `pop(0)` loop: drops leading blank lines. */
  function DropLeadingBlank(lines: seq<string>): seq<string> {
    if lines != [] && IsBlank(lines[0]) then DropLeadingBlank(lines[1..]) else lines
  }

  /** What the `pop(0)` loop leaves: a suffix that does not start with a
      blank line, everything dropped being blank. */
  lemma {:induction false} DropLeadingBlankSpec(lines: seq<string>)
    ensures var r := DropLeadingBlank(lines);
      && |r| <= |lines| && r == lines[|lines| - |r|..]
      && (r == [] || !IsBlank(r[0]))
      && (forall k :: 0 <= k < |lines| - |r| ==> IsBlank(lines[k]))
  {
    if lines != [] && IsBlank(lines[0]) {
      DropLeadingBlankSpec(lines[1..]);
      var r := DropLeadingBlank(lines);
      assert forall k :: 1 <= k < |lines| - |r| ==> lines[k] == lines[1..][k - 1];
    }
  }

  function RemoveImportsSpec(body: string): string {
    StripPy(Join(DropLeadingBlank(KeptLines(SplitLines(body))), "\n")) + "\n"
  }

  method RemoveImports(body: string) returns (r: string)
    ensures r == RemoveImportsSpec(body)
  {
    var lines := SplitLines(body);
    var kept: seq<string> := [];
    for i := 0 to |lines|
      invariant kept == KeptLines(lines[..i])
    {
      var line := lines[i];
      assert lines[..i + 1][..i] == lines[..i];
      var stripped := StripPy(line);
      if StartsWith(stripped, "import { AdPlaceholder }") {
        continue;
      }
      if StartsWith(stripped, "import { Callout }") {
        continue;
      }
      kept := kept + [line];
    }
    assert lines[..|lines|] == lines;
    ghost var all := kept;
    while kept != [] && StripPy(kept[0]) == []
      invariant DropLeadingBlank(kept) == DropLeadingBlank(all)
      decreases |kept|
    {
      kept := kept[1..];
    }
    r := StripPy(Join(kept, "\n")) + "\n";
  }

  /** The output of remove_imports ends with its one `\n`, and apart from it
      has no white space at either end. */
  lemma RemoveImportsText(body: string)
    ensures var r := RemoveImportsSpec(body);
      && |r| >= 1 && r[|r| - 1] == '\n'
      && (r == "\n" || (!IsPySpace(r[0]) && !IsPySpace(r[|r| - 2])))
  {
    var t := StripPy(Join(DropLeadingBlank(KeptLines(SplitLines(body))), "\n"));
    StripPyEnds(Join(DropLeadingBlank(KeptLines(SplitLines(body))), "\n"));
    assert RemoveImportsSpec(body) == t + "\n";
  }

  /** Every line remove_imports keeps is a line of the body that is not a
      component import, and the first line kept is not blank. */
  lemma RemoveImportsKept(body: string)
    ensures var kept := DropLeadingBlank(KeptLines(SplitLines(body)));
      && (forall k :: 0 <= k < |kept| ==> !IsComponentImport(kept[k]) && kept[k] in SplitLines(body))
      && (kept == [] || !IsBlank(kept[0]))
  {
    var all := KeptLines(SplitLines(body));
    var kept := DropLeadingBlank(all);
    KeptLinesSpec(SplitLines(body));
    DropLeadingBlankSpec(all);
    SuffixKeeps(all, kept, SplitLines(body), IsComponentImport);
  }

  /** A suffix of lines that avoid `bad` and come from `pool` does too. */
  lemma SuffixKeeps(all: seq<string>, kept: seq<string>, pool: seq<string>, bad: string -> bool)
    requires |kept| <= |all| && kept == all[|all| - |kept|..]
    requires forall k :: 0 <= k < |all| ==> !bad(all[k]) && all[k] in pool
    ensures forall k :: 0 <= k < |kept| ==> !bad(kept[k]) && kept[k] in pool
  {
    forall k | 0 <= k < |kept| ensures !bad(kept[k]) && kept[k] in pool {
      assert kept[k] == all[|all| - |kept| + k];
    }
  }

  // ---------------------------------------------------------------------------
  // apply_codex_image_italic_rule

  predicate LooksLikeImageDescription(stripped: string) {
    Contains(stripped, "Image Description") || Contains(stripped, "image description")
    || Contains(stripped, "Codex app showing")
  }

  predicate IsItalic(stripped: string) {
    StartsWith(stripped, "*") && EndsWith(stripped, "*")
  }

  /** One line of the rule: a non-empty image description that is not yet
      wrapped in `*` becomes `*stripped*`; any other line is kept as is. */
  function ItalicLine(line: string): string {
    var stripped := StripPy(line);
    if LooksLikeImageDescription(stripped) && stripped != [] && !IsItalic(stripped)
    then "*" + stripped + "*"
    else line
  }

  function ItalicLines(lines: seq<string>): (r: seq<string>)
    ensures |r| == |lines| && forall k :: 0 <= k < |lines| ==> r[k] == ItalicLine(lines[k])
  {
    if lines == [] then [] else ItalicLines(lines[..|lines| - 1]) + [ItalicLine(lines[|lines| - 1])]
  }

  function ItalicRuleSpec(body: string): string {
    Join(ItalicLines(SplitLines(body)), "\n")
  }

  method ApplyItalicRule(body: string) returns (r: string)
    ensures r == ItalicRuleSpec(body)
  {
    var lines := SplitLines(body);
    var out: seq<string> := [];
    for i := 0 to |lines|
      invariant out == ItalicLines(lines[..i])
    {
      var line := lines[i];
      ItalicLinesSnoc(lines, i);
      var stripped := StripPy(line);
      var looksLikeImageDesc := Contains(stripped, "Image Description") || Contains(stripped, "image description")
        || Contains(stripped, "Codex app showing");
      if looksLikeImageDesc && stripped != [] && !(StartsWith(stripped, "*") && EndsWith(stripped, "*")) {
        out := out + ["*" + stripped + "*"];
      } else {
        out := out + [line];
      }
    }
    assert lines[..|lines|] == lines;
    r := Join(out, "\n");
  }

  lemma ItalicLinesSnoc(lines: seq<string>, i: nat)
    requires i < |lines|
    ensures ItalicLines(lines[..i + 1]) == ItalicLines(lines[..i]) + [ItalicLine(lines[i])]
  {
    assert lines[..i + 1][..i] == lines[..i];
  }

  /** A wrapped line keeps its shape when stripped again. */
  lemma WrappedIsStripped(stripped: string)
    requires stripped != []
    ensures var w := "*" + stripped + "*"; StripPy(w) == w && IsItalic(w)
  {
    var w := "*" + stripped + "*";
    assert LStripPy(w) == w;
    assert RStripPy(w) == w;
  }

  /** The rule changes a line at most once: applying it to its own output
      changes nothing. A line it leaves alone is either not an image
      description, blank, or already italic. */
  lemma ItalicLineIdempotent(line: string)
    ensures ItalicLine(ItalicLine(line)) == ItalicLine(line)
    ensures ItalicLine(line) == line <==>
      !LooksLikeImageDescription(StripPy(line)) || StripPy(line) == [] || IsItalic(StripPy(line))
  {
    var stripped := StripPy(line);
    if LooksLikeImageDescription(stripped) && stripped != [] && !IsItalic(stripped) {
      WrappedIsStripped(stripped);
      StripPyEnds(line);
      var w := "*" + stripped + "*";
      assert |StripPy(w)| == |stripped| + 2;
      assert w != line;
    }
  }

  lemma ItalicLineNoBreak(line: string)
    requires NoLineBreak(line)
    ensures NoLineBreak(ItalicLine(line)) && (line != [] ==> ItalicLine(line) != [])
  {
    WrapNoBreak(line);
  }

  /** Wrapping the stripped line in `*` adds no line boundary. */
  lemma WrapNoBreak(line: string)
    requires NoLineBreak(line)
    ensures NoLineBreak("*" + StripPy(line) + "*")
  {
    var stripped := StripPy(line);
    StripPyPiece(line);
    var k := |line| - |LStripPy(line)|;
    assert forall i :: 0 <= i < |stripped| ==> stripped[i] == line[k + i];
  }

  /** Over a whole body the rule is idempotent as long as the body does not
      end in a blank line: `splitlines` then reads back exactly the lines the
      first pass joined. */
  lemma ItalicRuleIdempotent(body: string)
    requires SplitLines(body) == [] || SplitLines(body)[|SplitLines(body)| - 1] != []
    ensures ItalicRuleSpec(ItalicRuleSpec(body)) == ItalicRuleSpec(body)
  {
    var lines := SplitLines(body);
    var out := ItalicLines(lines);
    forall k | 0 <= k < |out| ensures NoLineBreak(out[k]) {
      ItalicLineNoBreak(lines[k]);
    }
    if lines != [] {
      ItalicLineNoBreak(lines[|lines| - 1]);
    }
    SplitJoinLines(out);
    forall k | 0 <= k < |out| ensures ItalicLine(out[k]) == out[k] {
      ItalicLineIdempotent(lines[k]);
    }
    assert ItalicLines(out) == out;
  }

  /** A body ending in a blank line loses it: the rule is not idempotent on
      `"a\n\n"`, which becomes `"a\n"` and then `"a"`. */
  lemma ItalicRuleDropsTrailingBlank()
    ensures ItalicRuleSpec("a\n\n") == "a\n"
    ensures ItalicRuleSpec("a\n") == "a"
  {
    SplitLinesOfExamples();
    NotImageDescription("a");
    NotImageDescription("");
    assert ItalicLines(["a", ""]) == ["a", ""];
    assert ItalicLines(["a"]) == ["a"];
  }

  lemma SplitLinesOfExamples()
    ensures SplitLines("a\n\n") == ["a", ""]
    ensures SplitLines("a\n") == ["a"]
  {
    assert BreakIndex("\n") == 0;
    assert "\n"[1..] == [];
    assert SplitLines("\n") == [""];
    assert BreakIndex("a\n\n") == 1;
    assert "a\n\n"[..1] == "a" && "a\n\n"[2..] == "\n";
    assert BreakIndex("a\n") == 1;
    assert "a\n"[..1] == "a" && "a\n"[2..] == [];
  }

  lemma NotImageDescription(line: string)
    requires |line| <= 1
    ensures ItalicLine(line) == line
  {
    StripPyPiece(line);
  }

  // ---------------------------------------------------------------------------
  // ensure_ads

  const Ad := "<AdPlaceholder />"

  /** The body when nothing is left after stripping. */
  const EmptyBodyAds := "<AdPlaceholder />\n\n<AdPlaceholder />\n"

  /** `line.strip() == ad`. */
  predicate IsAd(line: string) {
    StripPy(line) == Ad
  }

  /** `line.strip().startswith("#")`. */
  predicate IsHeading(line: string) {
    StartsWith(StripPy(line), "#")
  }

  lemma AdIsAd()
    ensures IsAd(Ad) && !IsAd("")
    ensures IsHeading("") == false && !IsHeading(Ad)
  {
    assert LStripPy(Ad) == Ad;
    assert RStripPy(Ad) == Ad;
    assert Ad[..1] != "#";
  }

  // The repairs only look at which lines are ads and which are headings, so
  // they are stated for any such classification `isAd`, `isHeading`; the
  // source's is `IsAd`, `IsHeading`.

  /** How many lines satisfy `p` (the source's `sum(1 for ...)`). */
  function Count(lines: seq<string>, p: string -> bool): (n: nat)
    ensures n <= |lines|
  {
    if lines == [] then 0 else Count(lines[..|lines| - 1], p) + (if p(lines[|lines| - 1]) then 1 else 0)
  }

  /** Just after the first line satisfying `p`, or the top when there is none. */
  function AfterFirst(lines: seq<string>, p: string -> bool): (at: nat)
    ensures at <= |lines|
  {
    if lines == [] then 0
    else if p(lines[0]) then 1
    else
      var rest := AfterFirst(lines[1..], p);
      if rest == 0 then 0 else rest + 1
  }

  /** What `AfterFirst` finds: the line before it satisfies `p` and no
      earlier line does; at the top, no line does. */
  lemma {:induction false} AfterFirstSpec(lines: seq<string>, p: string -> bool)
    ensures var at := AfterFirst(lines, p);
      && (at > 0 ==> p(lines[at - 1]) && forall k :: 0 <= k < at - 1 ==> !p(lines[k]))
      && (at == 0 ==> forall k :: 0 <= k < |lines| ==> !p(lines[k]))
  {
    if lines != [] && !p(lines[0]) {
      AfterFirstSpec(lines[1..], p);
      var rest := AfterFirst(lines[1..], p);
      assert forall k :: 1 <= k < |lines| ==> lines[k] == lines[1..][k - 1];
    }
  }

  /** `lines.insert(at, "")` then `lines.insert(at + 1, ad)`. */
  function InsertAd(lines: seq<string>, at: nat): (r: seq<string>)
    requires at <= |lines|
    ensures |r| == |lines| + 2
  {
    if at == 0 then ["", Ad] + lines else [lines[0]] + InsertAd(lines[1..], at - 1)
  }

  /** The inserted pair sits at `at`, with the lines before and after it
      unchanged. */
  lemma {:induction false} InsertAdSlices(lines: seq<string>, at: nat)
    requires at <= |lines|
    ensures InsertAd(lines, at) == lines[..at] + ["", Ad] + lines[at..]
  {
    if at > 0 {
      InsertAdSlices(lines[1..], at - 1);
      assert lines[..at] == [lines[0]] + lines[1..][..at - 1];
      assert lines[at..] == lines[1..][at - 1..];
    }
  }

  /** The first repair: a body without any ad gets one after its first
      heading. `count` is the counter the source keeps. */
  function FirstRepair(lines: seq<string>, count: nat, isHeading: string -> bool): seq<string> {
    if count < 1 then InsertAd(lines, AfterFirst(lines, isHeading)) else lines
  }

  /** The second repair: a body whose last line is not an ad gets one
      appended after a blank line. */
  function LastRepair(lines: seq<string>, isAd: string -> bool): seq<string>
    requires lines != []
  {
    if !isAd(lines[|lines| - 1]) then lines + ["", Ad] else lines
  }

  /** The third repair: while the counter is below two, one more ad goes
      after the first heading. */
  function SecondRepair(lines: seq<string>, count: nat, isHeading: string -> bool): seq<string> {
    if count < 2 then InsertAd(lines, AfterFirst(lines, isHeading)) else lines
  }

  /** The three repairs in order, with the counter the source keeps. */
  function Repaired(lines: seq<string>, isAd: string -> bool, isHeading: string -> bool): seq<string>
    requires lines != []
  {
    var count := Count(lines, isAd);
    var first := FirstRepair(lines, count, isHeading);
    var count1 := if count < 1 then count + 1 else count;
    assert first != [];
    var second := LastRepair(first, isAd);
    var count2 := if !isAd(first[|first| - 1]) then count1 + 1 else count1;
    SecondRepair(second, count2, isHeading)
  }

  function RStripAll(lines: seq<string>): (r: seq<string>)
    ensures |r| == |lines| && forall k :: 0 <= k < |lines| ==> r[k] == RStripPy(lines[k])
  {
    if lines == [] then [] else RStripAll(lines[..|lines| - 1]) + [RStripPy(lines[|lines| - 1])]
  }

  function EnsureAdsSpec(body: string): string {
    var lines := RStripAll(SplitLines(StripPy(body)));
    if lines == [] then EmptyBodyAds else StripPy(Join(Repaired(lines, IsAd, IsHeading), "\n")) + "\n"
  }

  method FindInsertionPoint(lines: seq<string>) returns (insertAt: nat)
    ensures insertAt == AfterFirst(lines, IsHeading)
  {
    insertAt := 0;
    var idx := 0;
    while idx < |lines|
      invariant idx <= |lines|
      invariant forall k :: 0 <= k < idx ==> !IsHeading(lines[k])
    {
      if StartsWith(StripPy(lines[idx]), "#") {
        insertAt := idx + 1;
        break;
      }
      idx := idx + 1;
    }
    AfterFirstUnique(lines, IsHeading, insertAt);
  }

  /** The insertion point is determined by its own characterisation. */
  lemma AfterFirstUnique(lines: seq<string>, p: string -> bool, at: nat)
    requires at <= |lines|
    requires at > 0 ==> p(lines[at - 1]) && forall k :: 0 <= k < at - 1 ==> !p(lines[k])
    requires at == 0 ==> forall k :: 0 <= k < |lines| ==> !p(lines[k])
    ensures at == AfterFirst(lines, p)
  {
    var q := AfterFirst(lines, p);
    AfterFirstSpec(lines, p);
    assert at > 0 ==> q > 0 && !(at < q) && !(q < at);
    assert q > 0 ==> at > 0;
  }

  method CountAds(lines: seq<string>) returns (count: nat)
    ensures count == Count(lines, IsAd)
  {
    count := 0;
    for i := 0 to |lines|
      invariant count == Count(lines[..i], IsAd)
    {
      assert lines[..i + 1][..i] == lines[..i];
      if StripPy(lines[i]) == Ad {
        count := count + 1;
      }
    }
    assert lines[..|lines|] == lines;
  }

  method EnsureAds(body: string) returns (r: string)
    ensures r == EnsureAdsSpec(body)
  {
    var lines := RStripAll(SplitLines(StripPy(body)));
    if lines == [] {
      return EmptyBodyAds;
    }
    ghost var stripped := lines;
    var adCount := CountAds(lines);
    lines, adCount := FirstAdRepair(lines, adCount);
    lines, adCount := LastAdRepair(lines, adCount);
    lines := SecondAdRepair(lines, adCount);
    assert lines == Repaired(stripped, IsAd, IsHeading);
    r := StripPy(Join(lines, "\n")) + "\n";
  }

  /** The source's first `if ad_count < 1` block. */
  method FirstAdRepair(lines: seq<string>, adCount: nat) returns (out: seq<string>, count: nat)
    ensures out == FirstRepair(lines, adCount, IsHeading)
    ensures count == if adCount < 1 then adCount + 1 else adCount
  {
    out, count := lines, adCount;
    if adCount < 1 {
      var insertAt := FindInsertionPoint(out);
      out := out[..insertAt] + [""] + out[insertAt..];
      out := out[..insertAt + 1] + [Ad] + out[insertAt + 1..];
      InsertTwice(lines, insertAt);
      count := count + 1;
    }
  }

  /** The source's `if lines[-1].strip() != ad` block. */
  method LastAdRepair(lines: seq<string>, adCount: nat) returns (out: seq<string>, count: nat)
    requires lines != []
    ensures out == LastRepair(lines, IsAd)
    ensures count == if !IsAd(lines[|lines| - 1]) then adCount + 1 else adCount
  {
    out, count := lines, adCount;
    if StripPy(out[|out| - 1]) != Ad {
      out := out + [""];
      out := out + [Ad];
      count := count + 1;
    }
  }

  /** The source's `if ad_count < 2` block. */
  method SecondAdRepair(lines: seq<string>, adCount: nat) returns (out: seq<string>)
    ensures out == SecondRepair(lines, adCount, IsHeading)
  {
    out := lines;
    if adCount < 2 {
      var insertAt := FindInsertionPoint(out);
      out := out[..insertAt] + [""] + out[insertAt..];
      out := out[..insertAt + 1] + [Ad] + out[insertAt + 1..];
      InsertTwice(lines, insertAt);
    }
  }

  /** The source's two `insert` calls put the blank line and the ad in place. */
  lemma InsertTwice(lines: seq<string>, at: nat)
    requires at <= |lines|
    ensures var once := lines[..at] + [""] + lines[at..];
      once[..at + 1] + [Ad] + once[at + 1..] == InsertAd(lines, at)
  {
    var once := lines[..at] + [""] + lines[at..];
    assert once[..at + 1] == lines[..at] + [""];
    assert once[at + 1..] == lines[at..];
    InsertAdSlices(lines, at);
  }

  lemma {:induction false} CountAppend(a: seq<string>, b: seq<string>, p: string -> bool)
    ensures Count(a + b, p) == Count(a, p) + Count(b, p)
    decreases |b|
  {
    if b == [] {
      assert a + b == a;
    } else {
      assert (a + b)[..|a + b| - 1] == a + b[..|b| - 1];
      CountAppend(a, b[..|b| - 1], p);
    }
  }

  /** Inserting the blank-and-ad pair adds exactly one ad. */
  lemma InsertAdCount(lines: seq<string>, at: nat, isAd: string -> bool)
    requires at <= |lines| && isAd(Ad) && !isAd("")
    ensures Count(InsertAd(lines, at), isAd) == Count(lines, isAd) + 1
  {
    InsertAdSlices(lines, at);
    assert lines == lines[..at] + lines[at..];
    CountAppend(lines[..at], lines[at..], isAd);
    CountAppend(lines[..at] + ["", Ad], lines[at..], isAd);
    CountAppend(lines[..at], ["", Ad], isAd);
    assert ["", Ad][..1] == [""];
  }

  /** The first repair leaves at least one ad; the counter is exact. */
  lemma FirstRepairCount(lines: seq<string>, isAd: string -> bool, isHeading: string -> bool)
    requires lines != [] && isAd(Ad) && !isAd("")
    ensures var first := FirstRepair(lines, Count(lines, isAd), isHeading);
      && first != []
      && Count(first, isAd) == (if Count(lines, isAd) < 1 then 1 else Count(lines, isAd))
      && (first[|first| - 1] == Ad || first[|first| - 1] == lines[|lines| - 1])
  {
    if Count(lines, isAd) < 1 {
      var at := AfterFirst(lines, isHeading);
      InsertAdCount(lines, at, isAd);
      var out := InsertAd(lines, at);
      InsertAdSlices(lines, at);
      if at < |lines| {
        assert out[|out| - 1] == lines[|lines| - 1];
      }
    }
  }

  /** The last-line repair leaves an ad at the end; the counter is exact. */
  lemma LastRepairCount(lines: seq<string>, isAd: string -> bool)
    requires lines != [] && isAd(Ad) && !isAd("")
    ensures var second := LastRepair(lines, isAd);
      && isAd(second[|second| - 1])
      && Count(second, isAd) == Count(lines, isAd) + (if isAd(lines[|lines| - 1]) then 0 else 1)
      && (second[|second| - 1] == Ad || second[|second| - 1] == lines[|lines| - 1])
  {
    if !isAd(lines[|lines| - 1]) {
      CountAppend(lines, ["", Ad], isAd);
      assert ["", Ad][..1] == [""];
    }
  }

  /** The third repair leaves two ads when it starts from an exact counter
      and a last line that is an ad, and keeps that last line an ad. */
  lemma SecondRepairCount(lines: seq<string>, count: nat, isAd: string -> bool, isHeading: string -> bool)
    requires isAd(Ad) && !isAd("")
    requires lines != [] && isAd(lines[|lines| - 1]) && count == Count(lines, isAd) && count >= 1
    ensures var out := SecondRepair(lines, count, isHeading);
      && out != [] && Count(out, isAd) >= 2 && isAd(out[|out| - 1])
      && (out[|out| - 1] == Ad || out[|out| - 1] == lines[|lines| - 1])
      && (count >= 2 ==> out == lines)
  {
    if count < 2 {
      var at := AfterFirst(lines, isHeading);
      InsertAdCount(lines, at, isAd);
      var out := InsertAd(lines, at);
      InsertAdSlices(lines, at);
      if at < |lines| {
        assert out[|out| - 1] == lines[|lines| - 1];
      }
    }
  }

  /** After the repairs the lines hold at least two ads and end with one (the
      ad itself or the body's own last line); lines that already had two ads,
      the last at the end, are left as they were. */
  lemma RepairedShape(lines: seq<string>, isAd: string -> bool, isHeading: string -> bool)
    requires lines != [] && isAd(Ad) && !isAd("")
    ensures var out := Repaired(lines, isAd, isHeading);
      && Count(out, isAd) >= 2 && isAd(out[|out| - 1])
      && (out[|out| - 1] == Ad || out[|out| - 1] == lines[|lines| - 1])
      && (Count(lines, isAd) >= 2 && isAd(lines[|lines| - 1]) ==> out == lines)
  {
    var count := Count(lines, isAd);
    FirstRepairCount(lines, isAd, isHeading);
    var first := FirstRepair(lines, count, isHeading);
    LastRepairCount(first, isAd);
    var second := LastRepair(first, isAd);
    var count1 := if count < 1 then count + 1 else count;
    var count2 := if !isAd(first[|first| - 1]) then count1 + 1 else count1;
    SecondRepairCount(second, count2, isAd, isHeading);
  }

  /** A body without any ad gets its first one right after its first heading
      (or at the top), after a blank line, every line before it kept. */
  lemma RepairedFirstAd(lines: seq<string>, isAd: string -> bool, isHeading: string -> bool)
    requires isAd(Ad) && !isAd("") && !isHeading(Ad) && !isHeading("")
    requires lines != [] && Count(lines, isAd) == 0
    ensures var out, at := Repaired(lines, isAd, isHeading), AfterFirst(lines, isHeading);
      at + 1 < |out| && out[..at] == lines[..at] && out[at] == "" && out[at + 1] == Ad
  {
    var at := AfterFirst(lines, isHeading);
    var first := InsertAd(lines, at);
    PairAt(lines, at);
    RepairedNoAds(lines, isAd, isHeading);
    if isAd(first[|first| - 1]) {
      SecondPairAfterFirst(lines, at, isHeading);
    } else {
      ClosingPairAfterFirst(lines, at);
    }
  }

  /** With a second pair after the first heading, the first pair stays where it was. */
  lemma SecondPairAfterFirst(lines: seq<string>, at: nat, isHeading: string -> bool)
    requires !isHeading(Ad) && !isHeading("")
    requires at == AfterFirst(lines, isHeading)
    ensures var first := InsertAd(lines, at); var out := InsertAd(first, AfterFirst(first, isHeading));
      at + 1 < |out| && out[..at] == lines[..at] && out[at] == "" && out[at + 1] == Ad
  {
    var first := InsertAd(lines, at);
    PairAt(lines, at);
    AfterFirstKept(lines, at, isHeading);
    PairAt(first, at);
  }

  /** With the closing pair appended, the first pair stays where it was. */
  lemma ClosingPairAfterFirst(lines: seq<string>, at: nat)
    requires at <= |lines|
    ensures var first := InsertAd(lines, at); var out := first + ["", Ad];
      at + 1 < |out| && out[..at] == lines[..at] && out[at] == "" && out[at + 1] == Ad
  {
    var first := InsertAd(lines, at);
    PairAt(lines, at);
    assert (first + ["", Ad])[..at] == first[..at];
  }

  /** The pair inserted at `at`, with the lines before it kept. */
  lemma PairAt(lines: seq<string>, at: nat)
    requires at <= |lines|
    ensures var r := InsertAd(lines, at);
      at + 1 < |r| && r[..at] == lines[..at] && r[at] == "" && r[at + 1] == Ad
  {
    InsertAdSlices(lines, at);
  }

  /** The repairs of a body without ads: the first pair, then either the
      closing pair or, when the body already ends with an ad, a second pair
      after the first heading. */
  lemma RepairedNoAds(lines: seq<string>, isAd: string -> bool, isHeading: string -> bool)
    requires isAd(Ad) && !isAd("")
    requires lines != [] && Count(lines, isAd) == 0
    ensures var first := InsertAd(lines, AfterFirst(lines, isHeading));
      Repaired(lines, isAd, isHeading) ==
        if isAd(first[|first| - 1]) then InsertAd(first, AfterFirst(first, isHeading)) else first + ["", Ad]
  {
    FirstRepairCount(lines, isAd, isHeading);
  }

  /** The first heading of a body stays the first heading once the pair is
      inserted after it. */
  lemma AfterFirstKept(lines: seq<string>, at: nat, p: string -> bool)
    requires !p(Ad) && !p("")
    requires at == AfterFirst(lines, p)
    ensures AfterFirst(InsertAd(lines, at), p) == at
  {
    var out := InsertAd(lines, at);
    InsertAdSlices(lines, at);
    AfterFirstSpec(lines, p);
    assert forall k :: 0 <= k < at ==> out[k] == lines[k];
    assert forall k :: at + 2 <= k < |out| ==> out[k] == lines[k - 2];
    AfterFirstUnique(out, p, at);
  }

  lemma {:induction false} JoinEndsWithLast(xs: seq<string>, sep: string)
    requires xs != []
    ensures EndsWith(Join(xs, sep), xs[|xs| - 1])
  {
    if |xs| > 1 {
      JoinEndsWithLast(xs[1..], sep);
      var rest := Join(xs[1..], sep);
      var last := xs[|xs| - 1];
      assert Join(xs, sep) == xs[0] + sep + rest;
      assert (xs[0] + sep + rest)[|xs[0] + sep + rest| - |last|..] == rest[|rest| - |last|..];
    }
  }

  /** A text ending with a word that starts and ends outside white space
      still ends with it once stripped. */
  lemma {:induction false} StripKeepsWordEnd(x: string, w: string)
    requires w != [] && !IsPySpace(w[0]) && !IsPySpace(w[|w| - 1]) && EndsWith(x, w)
    ensures EndsWith(StripPy(x), w)
  {
    LStripKeepsWordEnd(x, w);
    var l := LStripPy(x);
    assert RStripPy(l) == l;
  }

  lemma {:induction false} LStripKeepsWordEnd(x: string, w: string)
    requires w != [] && !IsPySpace(w[0]) && EndsWith(x, w)
    ensures EndsWith(LStripPy(x), w)
  {
    if x != [] && IsPySpace(x[0]) {
      assert |x| > |w|;
      assert x[1..][|x| - 1 - |w|..] == x[|x| - |w|..];
      LStripKeepsWordEnd(x[1..], w);
    }
  }

  /** What ensure_ads returns: the fixed text for an empty body; otherwise a
      text ending with `<AdPlaceholder />` and one `\n`, built from lines
      that hold at least two ads. */
  lemma EnsureAdsShape(body: string)
    ensures StripPy(body) == [] ==> EnsureAdsSpec(body) == EmptyBodyAds
    ensures StripPy(body) != [] ==>
      var lines := RStripAll(SplitLines(StripPy(body)));
      && lines != []
      && EnsureAdsSpec(body) == StripPy(Join(Repaired(lines, IsAd, IsHeading), "\n")) + "\n"
      && Count(Repaired(lines, IsAd, IsHeading), IsAd) >= 2
      && EndsWith(EnsureAdsSpec(body), Ad + "\n")
  {
    var raw := SplitLines(StripPy(body));
    var lines := RStripAll(raw);
    if lines != [] {
      RStripPyShape(raw[|raw| - 1]);
      RepairedText(lines);
    }
  }

  /** The text built from the repaired lines ends with the ad and one `\n`
      when the body's last line carries no trailing white space. */
  lemma RepairedText(lines: seq<string>)
    requires lines != []
    requires lines[|lines| - 1] == [] || !IsPySpace(lines[|lines| - 1][|lines[|lines| - 1]| - 1])
    ensures Count(Repaired(lines, IsAd, IsHeading), IsAd) >= 2
    ensures EndsWith(StripPy(Join(Repaired(lines, IsAd, IsHeading), "\n")) + "\n", Ad + "\n")
  {
    AdIsAd();
    if IsAd(lines[|lines| - 1]) {
      CleanAdEnds(lines[|lines| - 1]);
    }
    RepairedLast(lines, IsAd, IsHeading);
    JoinedText(Repaired(lines, IsAd, IsHeading));
  }

  /** The last repaired line ends with the ad, given that the body's last
      line does when it counts as one. */
  lemma RepairedLast(lines: seq<string>, isAd: string -> bool, isHeading: string -> bool)
    requires lines != [] && isAd(Ad) && !isAd("")
    requires isAd(lines[|lines| - 1]) ==> EndsWith(lines[|lines| - 1], Ad)
    ensures var out := Repaired(lines, isAd, isHeading);
      Count(out, isAd) >= 2 && out != [] && EndsWith(out[|out| - 1], Ad)
  {
    RepairedShape(lines, isAd, isHeading);
  }

  /** Lines whose last one ends with the ad join and strip to a text ending
      with the ad. */
  lemma JoinedText(out: seq<string>)
    requires out != [] && EndsWith(out[|out| - 1], Ad)
    ensures EndsWith(StripPy(Join(out, "\n")) + "\n", Ad + "\n")
  {
    JoinEndsWithLast(out, "\n");
    EndsWithTrans(Join(out, "\n"), out[|out| - 1], Ad);
    TextEndsWithAd(Join(out, "\n"));
  }

  /** A text ending with the ad still does so once stripped, and then gets
      its one `\n`. */
  lemma TextEndsWithAd(text: string)
    requires EndsWith(text, Ad)
    ensures EndsWith(StripPy(text) + "\n", Ad + "\n")
  {
    assert Ad[0] == '<' && Ad[|Ad| - 1] == '>';
    StripKeepsWordEnd(text, Ad);
    var r := StripPy(text);
    assert (r + "\n")[|r + "\n"| - |Ad + "\n"|..] == r[|r| - |Ad|..] + "\n";
  }

  /** A line without trailing white space that strips to the ad ends with it. */
  lemma CleanAdEnds(line: string)
    requires IsAd(line) && (line == [] || !IsPySpace(line[|line| - 1]))
    ensures EndsWith(line, Ad)
  {
    AdIsAd();
    LStripPyShape(line);
    var l := LStripPy(line);
    RStripPyShape(l);
    assert l != [];
    assert l[|l| - 1] == line[|line| - 1];
    assert RStripPy(l) == l;
  }

  lemma EndsWithTrans(x: string, y: string, w: string)
    requires EndsWith(x, y) && EndsWith(y, w)
    ensures EndsWith(x, w)
  {
    assert x[|x| - |w|..] == y[|y| - |w|..];
  }
}
