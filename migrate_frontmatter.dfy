/** scripts/migrate_docs_bilingual.py: reading the frontmatter of a source
    document (`parse_frontmatter`) and writing the frontmatter of a migrated
    one (`compose_mdx`). */
module MigrateFrontmatter {
  import opened Text
  import opened Wrappers
  import MigrateMarkup

  // ---------------------------------------------------------------------------
  // parse_frontmatter

  /** The opening fence and the closing fence of `^---\n(.*?)\n---\n?(.*)$`. */
  const Open := "---\n"
  const Close := "\n---"

  /** The first position at or after `from` where the closing fence occurs:
      where the lazy group `(.*?)` stops. */
  function FindClose(s: string, from: nat): (k: Option<nat>)
    ensures k.Some? ==> from <= k.value && OccursAt(s, Close, k.value)
    ensures forall j :: from <= j && (k.None? || j < k.value) ==> !OccursAt(s, Close, j)
    decreases |s| - from
  {
    if |s| < from + |Close| then None
    else if OccursAt(s, Close, from) then Some(from)
    else FindClose(s, from + 1)
  }

  /** The two groups of the match of `^---\n(.*?)\n---\n?(.*)$` under
      `re.DOTALL`, or None when the content does not match. */
  function SplitFrontmatter(content: string): Option<(string, string)> {
    if !StartsWith(content, Open) then None
    else
      match FindClose(content, |Open|)
      case None => None
      case Some(k) =>
        var after := content[k + |Close|..];
        Some((content[|Open|..k], if StartsWith(after, "\n") then after[1..] else after))
  }

  /** The content matches exactly when it opens with `---` and a newline and
      the closing fence follows somewhere; the raw block is then the shortest
      one, and a newline right after the closing fence is consumed. */
  lemma SplitFrontmatterShape(content: string)
    ensures var r := SplitFrontmatter(content);
      && (r.None? <==> !StartsWith(content, Open) || forall j :: |Open| <= j ==> !OccursAt(content, Close, j))
      && (r.Some? ==>
        var (raw, body) := r.value;
        && (content == Open + raw + Close + "\n" + body
            || (content == Open + raw + Close + body && !StartsWith(body, "\n")))
        && forall j :: |Open| <= j < |Open| + |raw| ==> !OccursAt(content, Close, j))
  {
    if StartsWith(content, Open) && FindClose(content, |Open|).Some? {
      var k := FindClose(content, |Open|).value;
      var after := content[k + |Close|..];
      assert content == Open + content[|Open|..k] + Close + after;
      if StartsWith(after, "\n") {
        assert after == "\n" + after[1..];
      }
    }
  }

  /** The index of the first `:` of a line, or its length. */
  function ColonIndex(line: string): (n: nat)
    ensures n <= |line| && (n < |line| ==> line[n] == ':')
    ensures forall i :: 0 <= i < n ==> line[i] != ':'
  {
    if line == [] || line[0] == ':' then 0 else 1 + ColonIndex(line[1..])
  }

  /** `value.strip().strip('"').strip("'")`. */
  function CleanValue(value: string): string {
    StripCharPy(StripCharPy(StripPy(value), '"'), '\'')
  }

  /** What one line of the raw frontmatter contributes: nothing when it has no
      colon, else the stripped text before its first colon and the cleaned
      text after it. */
  function Entry(line: string): Option<(string, string)> {
    var n := ColonIndex(line);
    if n == |line| then None else Some((StripPy(line[..n]), CleanValue(line[n + 1..])))
  }

  /** A line sets a key exactly when it holds a colon. */
  lemma EntryColon(line: string)
    ensures Entry(line).None? <==> Lacks(line, ':')
  {
    var n := ColonIndex(line);
    if n < |line| {
      assert line[n] == ':';
    }
  }

  /** The key a line sets holds no colon. */
  lemma EntryKeyNoColon(line: string)
    requires Entry(line).Some?
    ensures Lacks(Entry(line).value.0, ':')
  {
    var piece := line[..ColonIndex(line)];
    assert Lacks(piece, ':');
    StripPyAvoids(piece, ':');
  }

  /** The dictionary after the loop has seen `lines`, each line read by
      `entry` (the script's reading is `Entry`; the lemmas about the loop hold
      for any reading). */
  function Entries(lines: seq<string>, entry: string -> Option<(string, string)>): map<string, string> {
    if lines == [] then map[]
    else
      var m := Entries(lines[..|lines| - 1], entry);
      match entry(lines[|lines| - 1])
      case None => m
      case Some((key, value)) => m[key := value]
  }

  /** What `parse_frontmatter` returns. */
  function ParsedFrontmatter(content: string): (map<string, string>, string) {
    var split := SplitFrontmatter(content);
    if split.None? then (map[], content)
    else (Entries(SplitLines(split.value.0), Entry), split.value.1)
  }

  method ParseFrontmatter(content: string) returns (frontmatter: map<string, string>, body: string)
    ensures frontmatter == ParsedFrontmatter(content).0
    ensures body == ParsedFrontmatter(content).1
    ensures SplitFrontmatter(content).None? ==> frontmatter == map[] && body == content
  {
    var split := SplitFrontmatter(content);
    if split.None? {
      return map[], content;
    }
    body := split.value.1;
    frontmatter := CollectEntries(SplitLines(split.value.0));
  }

  /** The loop of `parse_frontmatter` over the lines of the raw block. */
  method CollectEntries(lines: seq<string>) returns (frontmatter: map<string, string>)
    ensures frontmatter == Entries(lines, Entry)
  {
    frontmatter := map[];
    for i := 0 to |lines|
      invariant frontmatter == Entries(lines[..i], Entry)
    {
      assert lines[..i + 1][..i] == lines[..i];
      var entry := Entry(lines[i]);
      if entry.None? {
        continue;
      }
      frontmatter := frontmatter[entry.value.0 := entry.value.1];
    }
    assert lines[..|lines|] == lines;
  }

  /** The line sets `key`. */
  predicate Defines(line: string, key: string, entry: string -> Option<(string, string)>) {
    entry(line).Some? && entry(line).value.0 == key
  }

  /** A key is in the dictionary exactly when some line sets it. */
  lemma {:induction false} EntriesKeys(lines: seq<string>, key: string, entry: string -> Option<(string, string)>)
    ensures key in Entries(lines, entry) <==> exists i :: 0 <= i < |lines| && Defines(lines[i], key, entry)
  {
    if lines != [] {
      var n := |lines| - 1;
      var init := lines[..n];
      EntriesKeys(init, key, entry);
      if !Defines(lines[n], key, entry) {
        assert key in Entries(lines, entry) <==> key in Entries(init, entry);
        if key in Entries(init, entry) {
          var i :| 0 <= i < n && Defines(init[i], key, entry);
          assert init[i] == lines[i];
        }
        if exists i :: 0 <= i < |lines| && Defines(lines[i], key, entry) {
          var i :| 0 <= i < |lines| && Defines(lines[i], key, entry);
          assert init[i] == lines[i];
        }
      }
    }
  }

  /** The value of a key is the one from the last line that sets it. */
  lemma {:induction false} EntriesLastWins(lines: seq<string>, key: string, entry: string -> Option<(string, string)>)
    requires key in Entries(lines, entry)
    ensures exists i ::
      && 0 <= i < |lines| && entry(lines[i]) == Some((key, Entries(lines, entry)[key]))
      && forall j :: i < j < |lines| ==> !Defines(lines[j], key, entry)
  {
    var n := |lines| - 1;
    var init := lines[..n];
    if Defines(lines[n], key, entry) {
      assert entry(lines[n]) == Some((key, Entries(lines, entry)[key]));
    } else {
      assert Entries(lines, entry)[key] == Entries(init, entry)[key];
      EntriesLastWins(init, key, entry);
      var i :| 0 <= i < n && entry(init[i]) == Some((key, Entries(init, entry)[key]))
        && forall j :: i < j < n ==> !Defines(init[j], key, entry);
      LastWinsStep(lines, init, i, key, Entries(init, entry)[key], entry);
    }
  }

  /** The last line that sets a key among all but the final line stays the
      last one when the final line does not set it. */
  lemma LastWinsStep(lines: seq<string>, init: seq<string>, i: nat, key: string, v: string,
                     entry: string -> Option<(string, string)>)
    requires i + 1 < |lines| && init == lines[..|lines| - 1] && !Defines(lines[|lines| - 1], key, entry)
    requires entry(init[i]) == Some((key, v))
    requires forall j :: i < j < |init| ==> !Defines(init[j], key, entry)
    ensures entry(lines[i]) == Some((key, v))
    ensures forall j :: i < j < |lines| ==> !Defines(lines[j], key, entry)
  {
    assert init[i] == lines[i];
    forall j | i < j < |lines|
      ensures !Defines(lines[j], key, entry)
    {
      if j < |lines| - 1 {
        assert init[j] == lines[j];
      }
    }
  }

  // ---------------------------------------------------------------------------
  // compose_mdx

  /** The keys `compose_mdx` reads, in the order it reads them. */
  const Keys := ["title", "description", "tool", "slug", "locale"]

  const AdImport := "import { AdPlaceholder } from '@/components/AdPlaceholder'"
  const CalloutImport := "import { Callout } from '@/components/Callout'"

  /** The first of `keys` the dictionary lacks: the one whose lookup raises. */
  function FirstMissing(frontmatter: map<string, string>, keys: seq<string>): (r: Option<nat>)
    ensures r.None? <==> forall i :: 0 <= i < |keys| ==> keys[i] in frontmatter
    ensures r.Some? ==>
      && r.value < |keys| && keys[r.value] !in frontmatter
      && forall i :: 0 <= i < r.value ==> keys[i] in frontmatter
  {
    if keys == [] then None
    else if keys[0] !in frontmatter then Some(0)
    else match FirstMissing(frontmatter, keys[1..])
      case None => None
      case Some(i) => Some(i + 1)
  }

  /** One frontmatter line, `f"{key}: {quote_yaml(value)}"`. */
  function KeyLine(key: string, value: string): string {
    key + ": " + MigrateMarkup.QuoteYaml(value)
  }

  function KeyLines(frontmatter: map<string, string>): seq<string>
    requires forall i :: 0 <= i < |Keys| ==> Keys[i] in frontmatter
  {
    seq(|Keys|, i requires 0 <= i < |Keys| => KeyLine(Keys[i], frontmatter[Keys[i]]))
  }

  /** `compose_mdx`: the frontmatter block and the two imports, then the body;
      a missing key is the `KeyError` the lookup raises. */
  function ComposeMdx(frontmatter: map<string, string>, body: string): Result<string, string> {
    match FirstMissing(frontmatter, Keys)
    case Some(i) => Err(Keys[i])
    case None =>
      Ok(Join(["---"] + KeyLines(frontmatter) + ["---", "", AdImport, CalloutImport, ""], "\n") + body)
  }

  /** Composing fails exactly when a key is missing, and names the first
      missing key in the order the lines are written. */
  lemma ComposeMdxMissing(frontmatter: map<string, string>, body: string)
    ensures var r := ComposeMdx(frontmatter, body);
      && (r.Err? <==> exists i :: 0 <= i < |Keys| && Keys[i] !in frontmatter)
      && (r.Err? ==> exists i ::
        && 0 <= i < |Keys| && r.error == Keys[i] && Keys[i] !in frontmatter
        && forall j :: 0 <= j < i ==> Keys[j] in frontmatter)
  {
  }

  // ---------------------------------------------------------------------------
  // Reading back what compose_mdx wrote

  /** The five keys are distinct non-empty words of lower-case letters. */
  lemma KeysLower()
    ensures forall i :: 0 <= i < |Keys| ==> Keys[i] != [] && AllChars(Keys[i], IsAsciiLower)
    ensures forall i, j :: 0 <= i < j < |Keys| ==> Keys[i] != Keys[j]
  {
  }

  /** A value that survives the quoting and the stripping unchanged: no double
      quote, backslash or line boundary, and no single quote at either end. */
  predicate Plain(v: string) {
    (forall i :: 0 <= i < |v| ==> v[i] != '"' && v[i] != '\\' && !IsPyLineBreak(v[i]))
    && (v == [] || (v[0] != '\'' && v[|v| - 1] != '\''))
  }

  /** What follows the closing fence once `\n?` has taken its newline. */
  const Preamble := "\n" + AdImport + "\n" + CalloutImport + "\n"

  lemma QuotePlain(v: string)
    requires Plain(v)
    ensures MigrateMarkup.QuoteYaml(v) == "\"" + v + "\""
  {
    forall i | 0 <= i <= |v| - 1
      ensures !OccursAt(v, "\\", i) && !OccursAt(v, "\"", i)
    {
      assert v[i..i + 1] == [v[i]];
    }
    ReplaceAbsent(v, "\\", "\\\\");
    ReplaceAbsent(v, "\"", "\\\"");
  }

  /** Stripping a character from both ends of a string it only ends with. */
  lemma StripCharQuoted(v: string, q: char)
    requires forall i :: 0 <= i < |v| ==> v[i] != q
    ensures StripCharPy([q] + v + [q], q) == v
  {
    var s := [q] + v + [q];
    assert s[1..] == v + [q];
    if v == [] {
      assert s == [q, q];
      assert s[1..][1..] == [];
      assert StripCharStart(s, q) == [];
    } else {
      assert StripCharStart(v + [q], q) == v + [q];
      assert (v + [q])[..|v|] == v;
      assert StripCharEnd(v + [q], q) == StripCharEnd(v, q);
    }
  }

  lemma CleanQuoted(v: string)
    requires Plain(v)
    ensures CleanValue(" " + ("\"" + v + "\"")) == v
  {
    var q := "\"" + v + "\"";
    assert (" " + q)[1..] == q;
    assert LStripPy(" " + q) == LStripPy(q) == q;
    assert RStripPy(q) == q;
    StripCharQuoted(v, '"');
    assert q == ['"'] + v + ['"'];
  }

  /** The first colon of a line is the one after a colon-free `key`. */
  lemma {:induction false} ColonAfter(key: string, tail: string)
    requires Lacks(key, ':')
    ensures ColonIndex(key + ([':'] + tail)) == |key|
  {
    if key != [] {
      assert (key + ([':'] + tail))[1..] == key[1..] + ([':'] + tail);
      ColonAfter(key[1..], tail);
    }
  }

  /** A line whose first colon follows `key` sets the stripped `key`. */
  lemma EntryAt(key: string, tail: string)
    requires Lacks(key, ':')
    ensures Entry(key + ([':'] + tail)) == Some((StripPy(key), CleanValue(tail)))
  {
    var line := key + ([':'] + tail);
    ColonAfter(key, tail);
    assert line[..|key|] == key;
    assert line[|key| + 1..] == tail;
  }

  /** A key line is the key, then `:` and the quoted value. */
  lemma KeyLineParts(key: string, v: string)
    requires Plain(v)
    ensures KeyLine(key, v) == key + ([':'] + (" " + ("\"" + v + "\"")))
  {
    var q := "\"" + v + "\"";
    QuotePlain(v);
    AppendAssoc(key, ": ", q);
    assert ": " == [':'] + " ";
    AppendAssoc([':'], " ", q);
  }

  /** A key of lower-case letters is its own stripped form and holds no colon. */
  lemma LowerKey(key: string)
    requires key != [] && AllChars(key, IsAsciiLower)
    ensures StripPy(key) == key && Lacks(key, ':')
  {
    assert IsAsciiLower(key[0]) && IsAsciiLower(key[|key| - 1]);
    StripPyUnchanged(key);
  }

  /** A key line reads back as its key and value. */
  lemma EntryKeyLine(key: string, v: string)
    requires key != [] && AllChars(key, IsAsciiLower) && Plain(v)
    ensures Entry(KeyLine(key, v)) == Some((key, v))
  {
    KeyLineParts(key, v);
    LowerKey(key);
    EntryAt(key, " " + ("\"" + v + "\""));
    CleanQuoted(v);
  }

  lemma KeyLineNoBreak(key: string, v: string)
    requires key != [] && AllChars(key, IsAsciiLower) && Plain(v)
    ensures var line := KeyLine(key, v);
      NoLineBreak(line) && line[0] != '-' && line[|line| - 1] == '"'
  {
    QuotePlain(v);
  }

  /** In lines joined by `\n`, every newline is followed by the first
      character of a line, so by no `-` when no line starts with one. */
  lemma {:induction false} JoinedNewlines(lines: seq<string>, j: nat)
    requires forall k :: 0 <= k < |lines| ==> NoLineBreak(lines[k]) && lines[k] != [] && lines[k][0] != '-'
    requires j < |Join(lines, "\n")|
    ensures Join(lines, "\n")[j] == '\n' ==> j + 1 < |Join(lines, "\n")| && Join(lines, "\n")[j + 1] != '-'
  {
    var s := Join(lines, "\n");
    if |lines| == 1 {
      assert !IsPyLineBreak(lines[0][j]);
    } else {
      var rest := Join(lines[1..], "\n");
      assert s == lines[0] + "\n" + rest;
      if j < |lines[0]| {
        assert s[j] == lines[0][j];
        assert !IsPyLineBreak(lines[0][j]);
      } else if j == |lines[0]| {
        JoinHead(lines[1..]);
        assert s[j + 1] == rest[0];
      } else {
        assert rest[j - |lines[0]| - 1] == s[j];
        JoinedNewlines(lines[1..], j - |lines[0]| - 1);
        if s[j] == '\n' {
          assert s[j + 1] == rest[j - |lines[0]|];
        }
      }
    }
  }

  lemma JoinHead(lines: seq<string>)
    requires lines != [] && lines[0] != []
    ensures Join(lines, "\n") != [] && Join(lines, "\n")[0] == lines[0][0]
  {
  }

  lemma {:induction false} FindCloseAt(s: string, from: nat, k: nat)
    requires from <= k && OccursAt(s, Close, k)
    requires forall j :: from <= j < k ==> !OccursAt(s, Close, j)
    ensures FindClose(s, from) == Some(k)
    decreases k - from
  {
    if from < k {
      FindCloseAt(s, from + 1, k);
    }
  }

  /** The joined list `compose_mdx` builds, for any key lines and imports. */
  lemma JoinComposed(keyLines: seq<string>, a: string, c: string, body: string)
    requires keyLines != []
    ensures Join(["---"] + keyLines + ["---", "", a, c, ""], "\n") + body
      == "---\n" + Join(keyLines, "\n") + "\n---" + "\n" + (("\n" + a + "\n" + c + "\n") + body)
  {
    var tail := ["---", "", a, c, ""];
    var front := ["---"] + keyLines;
    JoinAppend(front, tail, "\n");
    assert ["---"] + keyLines + tail == front + tail;
    assert front[1..] == keyLines;
    var j := Join(keyLines, "\n");
    assert Join(front, "\n") == "---" + "\n" + j;
    var p := "\n" + a + "\n" + c + "\n";
    JoinClosing(a, c);
    calc {
      Join(front + tail, "\n") + body;
      ("---" + "\n" + j) + "\n" + ("---" + "\n" + p) + body;
      "---\n" + j + "\n---" + "\n" + (p + body);
    }
  }

  /** The closing fence, the blank line, the two imports and the final newline. */
  lemma JoinClosing(a: string, c: string)
    ensures Join(["---", "", a, c, ""], "\n") == "---" + "\n" + ("\n" + a + "\n" + c + "\n")
  {
    assert Join([c, ""], "\n") == c + "\n" + "" by {
      assert [c, ""][1..] == [""];
    }
    assert Join([a, c, ""], "\n") == a + "\n" + Join([c, ""], "\n") by {
      assert [a, c, ""][1..] == [c, ""];
    }
    assert Join(["", a, c, ""], "\n") == "" + "\n" + Join([a, c, ""], "\n") by {
      assert ["", a, c, ""][1..] == [a, c, ""];
    }
    assert ["---", "", a, c, ""][1..] == ["", a, c, ""];
  }

  /** The text `compose_mdx` writes, fence by fence. */
  lemma ComposedText(frontmatter: map<string, string>, body: string)
    requires forall i :: 0 <= i < |Keys| ==> Keys[i] in frontmatter
    ensures ComposeMdx(frontmatter, body)
      == Ok(Open + Join(KeyLines(frontmatter), "\n") + Close + "\n" + (Preamble + body))
  {
    JoinComposed(KeyLines(frontmatter), AdImport, CalloutImport, body);
  }

  /** The raw block of a composed document has no closing fence inside it. */
  lemma NoEarlyClose(raw: string, rest: string, lines: seq<string>)
    requires forall k :: 0 <= k < |lines| ==> NoLineBreak(lines[k]) && lines[k] != [] && lines[k][0] != '-'
    requires raw == Join(lines, "\n") && raw != [] && raw[|raw| - 1] != '\n'
    ensures forall j :: |Open| <= j < |Open| + |raw| ==> !OccursAt(Open + raw + rest, Close, j)
  {
    var s := Open + raw + rest;
    forall j | |Open| <= j < |Open| + |raw|
      ensures !OccursAt(s, Close, j)
    {
      assert s[j] == raw[j - |Open|];
      if raw[j - |Open|] == '\n' {
        JoinedNewlines(lines, j - |Open|);
        assert s[j + 1] == raw[j - |Open| + 1];
      }
      NoCloseWhere(s, j);
    }
  }

  /** The closing fence does not start at a character other than a newline,
      nor at a newline followed by anything but `-`. */
  lemma NoCloseWhere(s: string, j: nat)
    requires j < |s| && (s[j] == '\n' ==> j + 1 < |s| && s[j + 1] != '-')
    ensures !OccursAt(s, Close, j)
  {
    assert Close[0] == '\n' && Close[1] == '-';
    if j + |Close| <= |s| {
      assert s[j..j + |Close|][0] == s[j] && s[j..j + |Close|][1] == s[j + 1];
    }
  }

  /** A block of lines that neither start with `-` nor end with a newline,
      between the two fences, is split off exactly. */
  lemma SplitComposed(lines: seq<string>, rest: string)
    requires lines != []
    requires forall k :: 0 <= k < |lines| ==>
      NoLineBreak(lines[k]) && lines[k] != [] && lines[k][0] != '-' && lines[k][|lines[k]| - 1] == '"'
    ensures SplitFrontmatter(Open + Join(lines, "\n") + Close + "\n" + rest) == Some((Join(lines, "\n"), rest))
  {
    var raw := Join(lines, "\n");
    JoinLast(lines);
    var content := Open + raw + Close + "\n" + rest;
    NoEarlyClose(raw, Close + "\n" + rest, lines);
    assert content == Open + raw + (Close + "\n" + rest);
    assert content[|Open| + |raw|..][..|Close|] == Close;
    FindCloseAt(content, |Open|, |Open| + |raw|);
    assert content[|Open|..|Open| + |raw|] == raw;
    assert content[|Open| + |raw| + |Close|..] == "\n" + rest;
  }

  lemma JoinLast(lines: seq<string>)
    requires lines != [] && lines[|lines| - 1] != []
    ensures var s := Join(lines, "\n"); s != [] && s[|s| - 1] == lines[|lines| - 1][|lines[|lines| - 1]| - 1]
  {
    var n := |lines| - 1;
    JoinSnoc(lines[..n], lines[n], "\n");
    assert lines[..n] + [lines[n]] == lines;
  }

  /** Reading back a composed document gives the five values that were
      written, when they are plain, and the body behind the two imports. */
  lemma ComposeParseRoundTrip(frontmatter: map<string, string>, body: string)
    requires forall i :: 0 <= i < |Keys| ==> Keys[i] in frontmatter && Plain(frontmatter[Keys[i]])
    ensures ComposeMdx(frontmatter, body).Ok?
    ensures var parsed := ParsedFrontmatter(ComposeMdx(frontmatter, body).value);
      && parsed.1 == Preamble + body
      && (forall key :: key in parsed.0 <==> key in Keys)
      && forall i :: 0 <= i < |Keys| ==> parsed.0[Keys[i]] == frontmatter[Keys[i]]
  {
    var lines := KeyLines(frontmatter);
    ComposedText(frontmatter, body);
    KeysLower();
    forall k | 0 <= k < |lines|
      ensures NoLineBreak(lines[k]) && lines[k] != [] && lines[k][0] != '-' && lines[k][|lines[k]| - 1] == '"'
    {
      KeyLineNoBreak(Keys[k], frontmatter[Keys[k]]);
    }
    SplitComposed(lines, Preamble + body);
    SplitJoinLines(lines);
    ParsedEntries(frontmatter);
  }

  /** Lines that each set a different key give the dictionary of those
      keys and values. */
  lemma EntriesOfDistinct(lines: seq<string>, keys: seq<string>, values: seq<string>,
                          entry: string -> Option<(string, string)>)
    requires |lines| == |keys| == |values|
    requires forall i, j :: 0 <= i < j < |keys| ==> keys[i] != keys[j]
    requires forall i :: 0 <= i < |lines| ==> entry(lines[i]) == Some((keys[i], values[i]))
    ensures forall key :: key in Entries(lines, entry) <==> key in keys
    ensures forall i :: 0 <= i < |keys| ==> Entries(lines, entry)[keys[i]] == values[i]
  {
    var parsed := Entries(lines, entry);
    forall key
      ensures key in parsed <==> key in keys
      ensures key in parsed ==> exists i :: 0 <= i < |keys| && key == keys[i] && parsed[key] == values[i]
    {
      EntriesKeys(lines, key, entry);
      if key in parsed {
        EntriesLastWins(lines, key, entry);
        var i :| 0 <= i < |lines| && entry(lines[i]) == Some((key, parsed[key]));
        assert key == keys[i] && parsed[key] == values[i];
      }
      if key in keys {
        var i :| 0 <= i < |keys| && keys[i] == key;
        assert Defines(lines[i], key, entry);
      }
    }
  }

  /** The five key lines read back as the dictionary of the five values. */
  lemma ParsedEntries(frontmatter: map<string, string>)
    requires forall i :: 0 <= i < |Keys| ==> Keys[i] in frontmatter && Plain(frontmatter[Keys[i]])
    ensures var parsed := Entries(KeyLines(frontmatter), Entry);
      && (forall key :: key in parsed <==> key in Keys)
      && forall i :: 0 <= i < |Keys| ==> parsed[Keys[i]] == frontmatter[Keys[i]]
  {
    var lines := KeyLines(frontmatter);
    var values := seq(|Keys|, i requires 0 <= i < |Keys| => frontmatter[Keys[i]]);
    KeysLower();
    forall i | 0 <= i < |Keys|
      ensures Entry(lines[i]) == Some((Keys[i], values[i]))
    {
      EntryKeyLine(Keys[i], values[i]);
    }
    EntriesOfDistinct(lines, Keys, values, Entry);
  }
}
