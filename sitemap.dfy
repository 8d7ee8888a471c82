/** scripts/generate-sitemap.mjs: the site's URL set, built from the slug of
    every `.mdx` document of every board and locale, then sorted and written
    as one `<url>` block per URL in the sitemaps.org 0.9 format. */
module Sitemap {
  import opened Text
  import opened Wrappers
  import opened Regex
  import Slug
  import StableSort
  import MigrateFrontmatter
  import opened EntryRoutes

  const SiteUrl := "https://www.aicodinghub.dev"

  /** A documentation board: its directory under `content/` and its route. */
  datatype Board = Board(dir: string, route: string)

  const Boards := [
    Board("claude-code", "claude"), Board("gemini-cli", "gemini"), Board("opencode", "opencode"),
    Board("codex", "codex"), Board("playbook", "playbook")]

  const Locales := ["zh", "en"]

  // ---------------------------------------------------------------------------
  // getSlugFromFrontmatter: the frontmatter block

  const Open := "---\n"
  const Close := "\n---"

  /** `[\s\S]*?` */
  const LazyAny: Item := Rep(AnyChar, 0, None, false)

  /** `/^---\n([\s\S]*?)\n---/`: the group is item 5. */
  const BlockPattern: seq<Item> := [InputStart] + (Lits(Open) + ([LazyAny] + Lits(Close)))

  /** The cuts of a match whose closing fence starts at `k`. */
  function BlockCuts(k: nat): seq<nat> {
    [0] + (Span(0, |Open|) + ([|Open|] + (Span(k, |Close|) + [k + |Close|])))
  }

  /** The closing fence matches exactly where it occurs. */
  lemma CloseMatch(s: string, p: nat)
    requires p <= |s|
    ensures Match(Lits(Close), s, p) == if OccursAt(s, Close, p) then Some(Span(p, |Close|) + [p + |Close|]) else None
  {
    assert Lits(Close) + [] == Lits(Close);
    MatchLits(Close, [], s, p);
  }

  /** Where the closing fence does not occur, it does not match. */
  lemma NoCloseMatch(s: string, lo: nat, hi: nat)
    requires hi <= |s| + 1
    requires forall j :: lo <= j < hi ==> !OccursAt(s, Close, j)
    ensures forall q :: lo <= q < hi ==> Match(Lits(Close), s, q).None?
  {
    forall q | lo <= q < hi
      ensures Match(Lits(Close), s, q).None?
    {
      CloseMatch(s, q);
    }
  }

  /** The lazy group grows one character at a time until the closing fence
      follows it, so it stops at the first fence ... */
  lemma LazyGroupFound(s: string, k: nat)
    requires |Open| <= |s| && MigrateFrontmatter.FindClose(s, |Open|) == Some(k)
    ensures TryUp(Lits(Close), s, |Open|, 0, |s| - |Open|) ==
      Some([|Open|] + (Span(k, |Close|) + [k + |Close|]))
  {
    assert MigrateFrontmatter.Close == Close;
    NoCloseMatch(s, |Open|, k);
    CloseMatch(s, k);
    TryUpAt(Lits(Close), s, |Open|, 0, |s| - |Open|, k - |Open|);
  }

  /** ... and fails when no fence follows. */
  lemma LazyGroupNone(s: string)
    requires |Open| <= |s| && MigrateFrontmatter.FindClose(s, |Open|).None?
    ensures TryUp(Lits(Close), s, |Open|, 0, |s| - |Open|).None?
  {
    assert MigrateFrontmatter.Close == Close;
    NoCloseMatch(s, |Open|, |s| + 1);
    TryUpNone(Lits(Close), s, |Open|, 0, |s| - |Open|);
  }

  /** After the opening fence: the lazy group up to the first closing fence. */
  lemma AfterOpenMatch(s: string)
    requires |Open| <= |s|
    ensures Match([LazyAny] + Lits(Close), s, |Open|) ==
      var k := MigrateFrontmatter.FindClose(s, |Open|);
      if k.None? then None else Some([|Open|] + (Span(k.value, |Close|) + [k.value + |Close|]))
  {
    var rest := [LazyAny] + Lits(Close);
    assert rest[1..] == Lits(Close);
    assert Avail(AnyChar, None, s, |Open|) == |s| - |Open|;
    if MigrateFrontmatter.FindClose(s, |Open|).None? {
      LazyGroupNone(s);
    } else {
      LazyGroupFound(s, MigrateFrontmatter.FindClose(s, |Open|).value);
    }
  }

  /** The block pattern matches exactly when the content opens with the fence
      and a closing fence follows; the match is the first such fence. */
  lemma BlockMatch(s: string)
    ensures Search(BlockPattern, s, 0) ==
      var k := MigrateFrontmatter.FindClose(s, |Open|);
      if !StartsWith(s, Open) || k.None? then None else Some((0, BlockCuts(k.value)))
  {
    AnchoredSearch(BlockPattern, s);
    var rest := [LazyAny] + Lits(Close);
    assert BlockPattern[1..] == Lits(Open) + rest;
    MatchLits(Open, rest, s, 0);
    assert StartsWith(s, Open) <==> OccursAt(s, Open, 0);
    if StartsWith(s, Open) {
      AfterOpenMatch(s);
      var k := MigrateFrontmatter.FindClose(s, |Open|);
      if k.Some? {
        var tail := [|Open|] + (Span(k.value, |Close|) + [k.value + |Close|]);
        PrependCons(0, Span(0, |Open|), Some(tail));
      }
    }
  }

  /** `fileContent.match(/^---\n([\s\S]*?)\n---/)`: the frontmatter text, or
      None when there is no match. */
  function FrontmatterBlock(content: string): Option<string> {
    match Search(BlockPattern, content, 0)
    case None => None
    case Some(m) =>
      BlockMatch(content);
      Some(content[m.1[5]..m.1[6]])
  }

  /** The block is the raw frontmatter the migration script's splitter finds:
      both need the opening fence and a closing one, and both stop at the
      first closing fence. */
  lemma FrontmatterBlockAgrees(content: string)
    ensures var split := MigrateFrontmatter.SplitFrontmatter(content);
      FrontmatterBlock(content) == if split.None? then None else Some(split.value.0)
  {
    BlockMatch(content);
    assert MigrateFrontmatter.Open == Open;
  }

  // ---------------------------------------------------------------------------
  // getSlugFromFrontmatter: the slug line

  /** `\s*` */
  const Spaces: Item := Rep(Space, 0, None, true)

  /** `["']?` */
  const OptQuote: Item := Rep(OneOf(['"', '\'']), 0, Some(1), true)

  predicate IsValueChar(c: char) { c != '"' && c != '\'' && c != '\n' }

  /** `[^"'\n]+` */
  const Value: Item := Rep(NoneOf(['"', '\'', '\n']), 1, None, true)

  /** `/^slug:\s*["']?([^"'\n]+)["']?\s*$/m`: the group is item 8. */
  const SlugPattern: seq<Item> :=
    [LineStart] + (Lits("slug:") + [Spaces, OptQuote, Value, OptQuote, Spaces, LineEnd])

  /** What the lemmas below need of SlugPattern; they are stated for any
      pattern with these items so that the matcher is never unfolded on the
      whole pattern. */
  predicate SlugItems(items: seq<Item>) {
    && |items| == 12 && items[0] == LineStart
    && items[1..] == Lits("slug:") + items[6..]
    && items[8] == Value
  }

  lemma SlugPatternHolds()
    ensures SlugItems(SlugPattern)
  {
    var rest := [Spaces, OptQuote, Value, OptQuote, Spaces, LineEnd];
    assert SlugPattern[1..] == Lits("slug:") + rest;
    assert SlugPattern[6..] == rest;
  }

  /** `slug:` at the start of a line. */
  predicate SlugKeyAt(raw: string, p: nat) {
    AtLineStart(raw, p) && OccursAt(raw, "slug:", p)
  }

  /** A match starts with `slug:` at the start of a line. */
  lemma SlugKey(items: seq<Item>, raw: string, p: nat)
    requires SlugItems(items) && p <= |raw| && Match(items, raw, p).Some?
    ensures SlugKeyAt(raw, p)
  {
    MatchLits("slug:", items[6..], raw, p);
  }

  /** The group of a match is a non-empty run of characters that are neither
      quotes nor newlines. */
  lemma SlugGroup(items: seq<Item>, raw: string, p: nat, cuts: seq<nat>)
    requires SlugItems(items) && p <= |raw| && Match(items, raw, p) == Some(cuts)
    ensures |cuts| == 13 && cuts[0] == p && cuts[8] < cuts[9] <= |raw|
    ensures AllChars(raw[cuts[8]..cuts[9]], IsValueChar)
  {
    MatchSound(items, raw, p);
    FitsShape(items, raw, p, cuts);
    FitsItems(items, raw, p, cuts);
    assert ItemFits(Value, raw, cuts[8], cuts[9]);
    var group := raw[cuts[8]..cuts[9]];
    forall i | 0 <= i < |group|
      ensures IsValueChar(group[i])
    {
      assert group[i] == raw[cuts[8] + i];
      assert InClass(Value.cls, raw[cuts[8] + i]);
    }
  }

  /** What a search for the slug pattern returns. */
  lemma SlugMatch(raw: string, p: nat, cuts: seq<nat>)
    requires Search(SlugPattern, raw, 0) == Some((p, cuts))
    ensures |cuts| == 13 && cuts[0] == p && cuts[8] < cuts[9] <= |raw|
    ensures AllChars(raw[cuts[8]..cuts[9]], IsValueChar)
    ensures SlugKeyAt(raw, p)
  {
    SlugPatternHolds();
    SlugKey(SlugPattern, raw, p);
    SlugGroup(SlugPattern, raw, p, cuts);
  }

  /** `slugMatch ? slugMatch[1].trim() : ''` */
  function SlugLine(raw: string): string {
    match Search(SlugPattern, raw, 0)
    case None => ""
    case Some(m) =>
      SlugMatch(raw, m.0, m.1);
      TrimJs(raw[m.1[8]..m.1[9]])
  }

  /** `getSlugFromFrontmatter(fileContent)` */
  function GetSlugFromFrontmatter(content: string): string {
    match FrontmatterBlock(content)
    case None => ""
    case Some(raw) => SlugLine(raw)
  }

  /** The slug is empty without a frontmatter block or without a `slug:`
      line in it; otherwise it is trimmed and holds no quote and no newline. */
  lemma GetSlugFromFrontmatterSpec(content: string)
    ensures var slug := GetSlugFromFrontmatter(content);
      && (MigrateFrontmatter.SplitFrontmatter(content).None? ==> slug == "")
      && (slug != "" ==> exists p :: SlugKeyAt(FrontmatterBlock(content).value, p))
      && Trimmed(slug)
      && AllChars(slug, IsValueChar)
  {
    FrontmatterBlockAgrees(content);
    var block := FrontmatterBlock(content);
    if block.Some? {
      var raw := block.value;
      var m := Search(SlugPattern, raw, 0);
      if m.Some? {
        SlugMatch(raw, m.value.0, m.value.1);
        var group := raw[m.value.1[8]..m.value.1[9]];
        TrimJsTrimmed(group);
        TrimJsChars(group, IsValueChar);
      }
    }
  }

  // ---------------------------------------------------------------------------
  // getSlugFromFrontmatter: which slug

  predicate IsQuote(c: char) { c == '"' || c == '\'' }

  /** White space that does not end a line. */
  predicate IsBlank(c: char) { IsJsSpace(c) && !IsJsLineTerminator(c) }

  /** A value character that does not end a line either. */
  predicate IsPlainChar(c: char) { IsValueChar(c) && !IsJsLineTerminator(c) }

  /** At `p` the block has a line `slug:`, then the blanks `sp`, an optional
      quote `q1`, the value `v`, an optional quote `q2`, and then the line or
      the block ends; `v` is trimmed and holds no quote and no line
      terminator. `slug: v`, `slug: "v"` and `slug:'v'` are such lines. */
  predicate SlugLineAt(raw: string, p: nat, sp: string, q1: string, v: string, q2: string) {
    && AtLineStart(raw, p)
    && OccursAt(raw, "slug:" + sp + q1 + v + q2, p)
    && (var f := p + 5 + |sp| + |q1| + |v| + |q2|; f == |raw| || (f < |raw| && raw[f] == '\n'))
    && AllChars(sp, IsBlank)
    && |q1| <= 1 && AllChars(q1, IsQuote) && |q2| <= 1 && AllChars(q2, IsQuote)
    && v != "" && Trimmed(v) && AllChars(v, IsPlainChar)
  }

  /** The same line by positions: blanks on `[p + 5, s)`, the quote on
      `[s, b)`, the value on `[b, e)`, the quote on `[e, f)`, then the end. */
  predicate SlugSpans(raw: string, p: nat, s: nat, b: nat, e: nat, f: nat) {
    && p + 5 <= s <= b <= s + 1 && b < e <= f <= e + 1 && f <= |raw|
    && AtLineStart(raw, p) && OccursAt(raw, "slug:", p)
    && (forall i :: p + 5 <= i < s ==> IsBlank(raw[i]))
    && (forall i :: s <= i < b ==> IsQuote(raw[i]))
    && (forall i :: b <= i < e ==> IsPlainChar(raw[i]))
    && !IsJsSpace(raw[b]) && !IsJsSpace(raw[e - 1])
    && (forall i :: e <= i < f ==> IsQuote(raw[i]))
    && (f == |raw| || raw[f] == '\n')
  }

  lemma SlugLineSpans(raw: string, p: nat, sp: string, q1: string, v: string, q2: string)
    requires SlugLineAt(raw, p, sp, q1, v, q2)
    ensures var s := p + 5 + |sp|; var b := s + |q1|; var e := b + |v|;
      SlugSpans(raw, p, s, b, e, e + |q2|) && raw[b..e] == v
  {
    var s := p + 5 + |sp|;
    var b := s + |q1|;
    var e := b + |v|;
    OccursAtSplit(raw, "slug:" + sp + q1 + v, q2, p);
    OccursAtSplit(raw, "slug:" + sp + q1, v, p);
    OccursAtSplit(raw, "slug:" + sp, q1, p);
    OccursAtSplit(raw, "slug:", sp, p);
    OccursAtChars(raw, sp, p + 5);
    OccursAtChars(raw, q1, s);
    OccursAtChars(raw, v, b);
    OccursAtChars(raw, q2, e);
  }

  /** Text occurring at `p` occurs piece by piece. */
  lemma OccursAtSplit(raw: string, x: string, y: string, p: nat)
    requires OccursAt(raw, x + y, p)
    ensures OccursAt(raw, x, p) && OccursAt(raw, y, p + |x|)
  {
    assert raw[p..p + |x|] == raw[p..p + |x| + |y|][..|x|];
    assert raw[p + |x|..p + |x| + |y|] == raw[p..p + |x| + |y|][|x|..];
  }

  /** The characters of a text occurring at `p`. */
  lemma OccursAtChars(raw: string, x: string, p: nat)
    requires OccursAt(raw, x, p)
    ensures forall i :: p <= i < p + |x| ==> raw[i] == x[i - p]
  {
    forall i | p <= i < p + |x| ensures raw[i] == x[i - p] {
      assert raw[p..p + |x|][i - p] == raw[i];
    }
  }

  /** The items of the slug pattern, one by one. */
  predicate SlugItemsAt(items: seq<Item>) {
    && |items| == 12 && items[0] == LineStart
    && (forall k :: 1 <= k < 6 ==> items[k] == Lit("slug:"[k - 1]))
    && items[6] == Spaces && items[7] == OptQuote && items[8] == Value
    && items[9] == OptQuote && items[10] == Spaces && items[11] == LineEnd
  }

  lemma SlugPatternAt()
    ensures SlugItemsAt(SlugPattern) && SlugItems(SlugPattern)
  {
    SlugPatternHolds();
    forall k | 1 <= k < 6 ensures SlugPattern[k] == Lit("slug:"[k - 1]) {
      assert SlugPattern[k] == SlugPattern[1..][k - 1];
    }
  }

  /** The cuts of the slug line at `p`: no blank left over, the quotes as
      written, the value whole. */
  predicate LineCuts(cuts: seq<nat>, p: nat, s: nat, b: nat, e: nat, f: nat) {
    && |cuts| == 13 && cuts[0] == p
    && (forall k :: 1 <= k <= 6 ==> cuts[k] == p + k - 1)
    && cuts[7] == s && cuts[8] == b && cuts[9] == e
    && cuts[10] == f && cuts[11] == f && cuts[12] == f
  }

  /** Such a line fits the pattern with those cuts. */
  lemma SlugSpansFit(items: seq<Item>, raw: string, p: nat, s: nat, b: nat, e: nat, f: nat, cuts: seq<nat>)
    requires SlugItemsAt(items) && SlugSpans(raw, p, s, b, e, f) && LineCuts(cuts, p, s, b, e, f)
    ensures Fits(items, raw, p, cuts)
  {
    KeyFits(items, raw, p, cuts);
    assert ItemFits(items[0], raw, cuts[0], cuts[1]);
    assert ItemFits(items[6], raw, cuts[6], cuts[7]);
    assert ItemFits(items[7], raw, cuts[7], cuts[8]);
    assert ItemFits(items[8], raw, cuts[8], cuts[9]);
    assert ItemFits(items[9], raw, cuts[9], cuts[10]);
    assert ItemFits(items[10], raw, cuts[10], cuts[11]);
    assert ItemFits(items[11], raw, cuts[11], cuts[12]);
    FitsOfItems(items, raw, p, cuts);
  }

  /** The five literal items fit `slug:` one character each. */
  lemma KeyFits(items: seq<Item>, raw: string, p: nat, cuts: seq<nat>)
    requires SlugItemsAt(items) && OccursAt(raw, "slug:", p)
    requires |cuts| == 13 && forall k :: 1 <= k <= 6 ==> cuts[k] == p + k - 1
    ensures forall k :: 1 <= k < 6 ==> ItemFits(items[k], raw, cuts[k], cuts[k + 1])
  {
    forall k | 1 <= k < 6 ensures ItemFits(items[k], raw, cuts[k], cuts[k + 1]) {
      assert raw[p..p + 5][k - 1] == raw[p + k - 1];
    }
  }

  /** What any match of the pattern at `p` says about its cuts. */
  lemma SlugFitsCuts(items: seq<Item>, raw: string, p: nat, cuts: seq<nat>)
    requires SlugItemsAt(items) && Fits(items, raw, p, cuts)
    ensures |cuts| == 13 && cuts[6] == p + 5
    ensures cuts[6] <= cuts[7] <= cuts[8] < cuts[9] <= cuts[10] <= cuts[11] <= |raw|
    ensures forall i :: cuts[6] <= i < cuts[7] ==> IsJsSpace(raw[i])
    ensures cuts[8] <= cuts[7] + 1 && forall i :: cuts[7] <= i < cuts[8] ==> IsQuote(raw[i])
    ensures forall i :: cuts[8] <= i < cuts[9] ==> IsValueChar(raw[i])
    ensures cuts[10] <= cuts[9] + 1 && forall i :: cuts[9] <= i < cuts[10] ==> IsQuote(raw[i])
    ensures forall i :: cuts[10] <= i < cuts[11] ==> IsJsSpace(raw[i])
    ensures AtLineEnd(raw, cuts[11])
  {
    FitsItems(items, raw, p, cuts);
    assert ItemFits(items[0], raw, cuts[0], cuts[1]);
    assert ItemFits(items[1], raw, cuts[1], cuts[2]);
    assert ItemFits(items[2], raw, cuts[2], cuts[3]);
    assert ItemFits(items[3], raw, cuts[3], cuts[4]);
    assert ItemFits(items[4], raw, cuts[4], cuts[5]);
    assert ItemFits(items[5], raw, cuts[5], cuts[6]);
    assert ItemFits(items[6], raw, cuts[6], cuts[7]);
    assert ItemFits(items[7], raw, cuts[7], cuts[8]);
    assert ItemFits(items[8], raw, cuts[8], cuts[9]);
    assert ItemFits(items[9], raw, cuts[9], cuts[10]);
    assert ItemFits(items[10], raw, cuts[10], cuts[11]);
    assert ItemFits(items[11], raw, cuts[11], cuts[12]);
  }

  /** On such a line the cuts of any match end the group where the value
      ends and start it at most at the value, after blanks only. */
  lemma SlugGroupBounds(raw: string, p: nat, s: nat, b: nat, e: nat, f: nat,
                        c7: nat, c8: nat, c9: nat, c10: nat, c11: nat)
    requires SlugSpans(raw, p, s, b, e, f)
    requires p + 5 <= c7 <= c8 < c9 <= c10 <= c11 <= |raw|
    requires forall i :: p + 5 <= i < c7 ==> IsJsSpace(raw[i])
    requires c8 <= c7 + 1 && forall i :: c7 <= i < c8 ==> IsQuote(raw[i])
    requires forall i :: c8 <= i < c9 ==> IsValueChar(raw[i])
    requires c10 <= c9 + 1 && forall i :: c9 <= i < c10 ==> IsQuote(raw[i])
    requires forall i :: c10 <= i < c11 ==> IsJsSpace(raw[i])
    requires AtLineEnd(raw, c11)
    ensures c8 <= b && c9 == e
    ensures forall i :: c8 <= i < b ==> IsJsSpace(raw[i])
  {
    // The line ends nowhere before the value does ...
    assert forall x :: p + 5 <= x < e ==> !AtLineEnd(raw, x);
    assert c11 >= e;
    // ... so the trailing blanks start at its end, right after the group.
    assert !IsJsSpace(raw[e - 1]) && !IsQuote(raw[e - 1]);
    assert c10 >= e;
    assert e == |raw| || !IsValueChar(raw[e]);
    assert c9 == e;
    // The leading blanks stop before the value or its quote ...
    assert !IsJsSpace(raw[s]);
    assert c7 <= s;
    // ... and the group takes no quote, so it starts after the opening one.
    assert IsQuote(raw[c7]) ==> c7 == s && b == s + 1;
    assert c8 <= b;
    assert b == s || !IsValueChar(raw[s]);
    assert b == s || c8 == b;
  }

  lemma SlugGroupSpans(items: seq<Item>, raw: string, p: nat, s: nat, b: nat, e: nat, f: nat, cuts: seq<nat>)
    requires SlugItemsAt(items) && SlugSpans(raw, p, s, b, e, f) && Fits(items, raw, p, cuts)
    ensures |cuts| == 13 && cuts[8] <= b && cuts[9] == e
    ensures forall i :: cuts[8] <= i < b ==> IsJsSpace(raw[i])
  {
    SlugFitsCuts(items, raw, p, cuts);
    SlugGroupBounds(raw, p, s, b, e, f, cuts[7], cuts[8], cuts[9], cuts[10], cuts[11]);
  }

  /** A group of blanks and then the value trims to the value. */
  lemma PaddedGroup(raw: string, c: nat, b: nat, e: nat, v: string)
    requires c <= b <= e <= |raw| && raw[b..e] == v && v != [] && Trimmed(v)
    requires forall i :: c <= i < b ==> IsJsSpace(raw[i])
    ensures TrimJs(raw[c..e]) == v
  {
    var w := raw[c..b];
    assert raw[c..e] == w + v;
    TrimJsPadded(w, v);
  }

  /** White space before a trimmed text is what `trim` removes. */
  lemma {:induction false} TrimJsPadded(w: string, v: string)
    requires AllChars(w, IsJsSpace) && v != [] && Trimmed(v)
    ensures TrimJs(w + v) == v
    decreases |w|
  {
    if w == [] {
      assert w + v == v;
    } else {
      assert (w + v)[1..] == w[1..] + v;
      TrimJsPadded(w[1..], v);
    }
  }

  /** The slug is the value of the first `slug:` line: written plain or
      between quotes, after any blanks, it comes back exactly. */
  lemma SlugLineValue(raw: string, p: nat, sp: string, q1: string, v: string, q2: string)
    requires SlugLineAt(raw, p, sp, q1, v, q2)
    requires forall j :: 0 <= j < p ==> !SlugKeyAt(raw, j)
    ensures SlugLine(raw) == v
  {
    var b := p + 5 + |sp| + |q1|;
    var c := SlugLineSearch(raw, p, sp, q1, v, q2);
    PaddedGroup(raw, c, b, b + |v|, v);
  }

  /** Where the search finds the line: its group runs from `c`, after blanks
      only, to the end of the value. */
  lemma SlugLineSearch(raw: string, p: nat, sp: string, q1: string, v: string, q2: string) returns (c: nat)
    requires SlugLineAt(raw, p, sp, q1, v, q2)
    requires forall j :: 0 <= j < p ==> !SlugKeyAt(raw, j)
    ensures var b := p + 5 + |sp| + |q1|; var m := Search(SlugPattern, raw, 0);
      && m.Some? && |m.value.1| == 13 && m.value.1[8] == c && m.value.1[9] == b + |v|
      && c <= b <= b + |v| <= |raw| && raw[b..b + |v|] == v
      && forall i :: c <= i < b ==> IsJsSpace(raw[i])
  {
    var s := p + 5 + |sp|;
    var b := s + |q1|;
    var e := b + |v|;
    SlugLineSpans(raw, p, sp, q1, v, q2);
    SlugPatternAt();
    var cuts := SlugValueCuts(SlugPattern, raw, p, s, b, e, e + |q2|);
    c := cuts[8];
  }

  /** The search finds the line at `p`, and its group is the value after
      blanks only. */
  lemma SlugValueCuts(items: seq<Item>, raw: string, p: nat, s: nat, b: nat, e: nat, f: nat) returns (cuts: seq<nat>)
    requires SlugItemsAt(items) && SlugItems(items) && SlugSpans(raw, p, s, b, e, f)
    requires forall j :: 0 <= j < p ==> !SlugKeyAt(raw, j)
    ensures Search(items, raw, 0) == Some((p, cuts))
    ensures |cuts| == 13 && cuts[8] <= b && cuts[9] == e
    ensures forall i :: cuts[8] <= i < b ==> IsJsSpace(raw[i])
  {
    cuts := SlugFoundAt(items, raw, p, s, b, e, f);
    MatchSound(items, raw, p);
    SlugGroupSpans(items, raw, p, s, b, e, f, cuts);
  }

  /** The search stops at the first `slug:` line. */
  lemma SlugFoundAt(items: seq<Item>, raw: string, p: nat, s: nat, b: nat, e: nat, f: nat) returns (cuts: seq<nat>)
    requires SlugItemsAt(items) && SlugItems(items) && SlugSpans(raw, p, s, b, e, f)
    requires forall j :: 0 <= j < p ==> !SlugKeyAt(raw, j)
    ensures p <= |raw| && Match(items, raw, p) == Some(cuts)
    ensures Search(items, raw, 0) == Some((p, cuts))
  {
    SlugMatchesAt(items, raw, p, s, b, e, f);
    NoMatchBefore(items, raw, p);
    FirstAt(items, raw, p);
    cuts := Match(items, raw, p).value;
  }

  /** A `slug:` line matches where it starts. */
  lemma SlugMatchesAt(items: seq<Item>, raw: string, p: nat, s: nat, b: nat, e: nat, f: nat)
    requires SlugItemsAt(items) && SlugSpans(raw, p, s, b, e, f)
    ensures p <= |raw| && Match(items, raw, p).Some?
  {
    var line := [p, p, p + 1, p + 2, p + 3, p + 4, p + 5, s, b, e, f, f, f];
    SlugSpansFit(items, raw, p, s, b, e, f, line);
    MatchComplete(items, raw, p, line);
  }

  /** No `slug:` line before `p` means no match before it. */
  lemma NoMatchBefore(items: seq<Item>, raw: string, p: nat)
    requires SlugItems(items) && p <= |raw|
    requires forall j :: 0 <= j < p ==> !SlugKeyAt(raw, j)
    ensures forall j :: 0 <= j < p ==> Match(items, raw, j).None?
  {
    forall j | 0 <= j < p ensures Match(items, raw, j).None? {
      if Match(items, raw, j).Some? {
        SlugKey(items, raw, j);
      }
    }
  }

  /** A match at `p` with none before it is the one found. */
  lemma FirstAt(items: seq<Item>, raw: string, p: nat)
    requires p <= |raw| && Match(items, raw, p).Some?
    requires forall j :: 0 <= j < p ==> Match(items, raw, j).None?
    ensures Search(items, raw, 0) == Some((p, Match(items, raw, p).value))
  {
    var r := Search(items, raw, 0);
    assert r.Some? && r.value.0 <= p;
  }

  /** `getSlugFromFrontmatter` gives the value of the first `slug:` line of
      the frontmatter block, and that value is the document's slug. */
  lemma GetSlugFromFrontmatterValue(content: string, p: nat, sp: string, q1: string, v: string, q2: string)
    requires FrontmatterBlock(content).Some?
    requires SlugLineAt(FrontmatterBlock(content).value, p, sp, q1, v, q2)
    requires forall j :: 0 <= j < p ==> !SlugKeyAt(FrontmatterBlock(content).value, j)
    ensures GetSlugFromFrontmatter(content) == v
    ensures forall name :: DocSlug(MdxFile(name, content)) == v
  {
    SlugLineValue(FrontmatterBlock(content).value, p, sp, q1, v, q2);
  }

  // ---------------------------------------------------------------------------
  // The URL set

  /** A directory entry and the text `readFileSync` gives for it. */
  datatype MdxFile = MdxFile(name: string, content: string)

  /** The content tree: for each existing `content/{dir}/{locale}` directory,
      the files it lists. A pair missing from the map is a missing directory. */
  type Listing = map<(string, string), seq<MdxFile>>

  /** `files.filter((file) => file.endsWith('.mdx'))` */
  function MdxOnly(files: seq<MdxFile>): (r: seq<MdxFile>)
    ensures forall f :: f in r <==> f in files && EndsWith(f.name, ".mdx")
  {
    if files == [] then []
    else (if EndsWith(files[0].name, ".mdx") then [files[0]] else []) + MdxOnly(files[1..])
  }

  /** `frontmatterSlug || toSafeSlug(file)` */
  function DocSlug(f: MdxFile): string {
    var slug := GetSlugFromFrontmatter(f.content);
    if slug != "" then slug else Slug.ToSafeSlug(f.name)
  }

  // The set-building functions take the slug rule as a parameter, so that
  // reasoning about the set never looks inside it; the script's rule is DocSlug.

  /** The URLs the inner loop adds for `files`. */
  function FileUrls(route: string, files: seq<MdxFile>, slugOf: MdxFile -> string): set<string>
    decreases |files|
  {
    if files == [] then {}
    else FileUrls(route, files[..|files| - 1], slugOf) + {DocPath(route, slugOf(files[|files| - 1]))}
  }

  /** The URLs of one board and locale; nothing when the directory is missing. */
  function DirUrls(board: Board, locale: string, listing: Listing, slugOf: MdxFile -> string): set<string> {
    if (board.dir, locale) in listing then FileUrls(board.route, MdxOnly(listing[(board.dir, locale)]), slugOf) else {}
  }

  function LocaleUrls(board: Board, locales: seq<string>, listing: Listing, slugOf: MdxFile -> string): set<string>
    decreases |locales|
  {
    if locales == [] then {}
    else LocaleUrls(board, locales[..|locales| - 1], listing, slugOf) + DirUrls(board, locales[|locales| - 1], listing, slugOf)
  }

  function BoardUrls(boards: seq<Board>, listing: Listing, slugOf: MdxFile -> string): set<string>
    decreases |boards|
  {
    if boards == [] then {}
    else BoardUrls(boards[..|boards| - 1], listing, slugOf) + LocaleUrls(boards[|boards| - 1], Locales, listing, slugOf)
  }

  /** `new Set(['/', '/privacy', '/terms'])` */
  const StaticUrls: set<string> := {"/", "/privacy", "/terms"}

  /** The set the script builds. */
  function SitemapUrls(listing: Listing): set<string> {
    StaticUrls + BoardUrls(Boards, listing, DocSlug)
  }

  /** The inner loop's body: the frontmatter slug, or the safe slug of the
      file name when there is none, under the board's route. */
  method FileUrl(route: string, file: MdxFile) returns (url: string)
    ensures url == DocPath(route, DocSlug(file))
  {
    var slug := GetSlugFromFrontmatter(file.content);
    if slug == "" {
      slug := Slug.ToSafeSlug(file.name);
    }
    url := "/docs/" + route + "/" + slug;
  }

  lemma FileUrlsSnoc(route: string, files: seq<MdxFile>, i: nat, slugOf: MdxFile -> string)
    requires i < |files|
    ensures FileUrls(route, files[..i + 1], slugOf) == FileUrls(route, files[..i], slugOf) + {DocPath(route, slugOf(files[i]))}
  {
    assert files[..i + 1][..i] == files[..i];
  }

  /** Union is associative; stated for any element type so that the solver
      does not look inside the elements. */
  lemma UnionAssoc<T>(a: set<T>, b: set<T>, c: set<T>)
    ensures (a + b) + c == a + (b + c)
  {
  }

  /** Adds the URL of every file of one directory. */
  method AddFileUrls(urls: set<string>, route: string, files: seq<MdxFile>) returns (result: set<string>)
    ensures result == urls + FileUrls(route, files, DocSlug)
  {
    result := urls;
    for i := 0 to |files|
      invariant result == urls + FileUrls(route, files[..i], DocSlug)
    {
      FileUrlsSnoc(route, files, i, DocSlug);
      var url := FileUrl(route, files[i]);
      UnionAssoc(urls, FileUrls(route, files[..i], DocSlug), {url});
      result := result + {url};
    }
    assert files[..|files|] == files;
  }

  /** The loop over the locales of one board; a missing directory is skipped. */
  method AddBoardUrls(urls: set<string>, board: Board, listing: Listing) returns (result: set<string>)
    ensures result == urls + LocaleUrls(board, Locales, listing, DocSlug)
  {
    result := urls;
    for l := 0 to |Locales|
      invariant result == urls + LocaleUrls(board, Locales[..l], listing, DocSlug)
    {
      assert Locales[..l + 1][..l] == Locales[..l];
      var dir := (board.dir, Locales[l]);
      if dir !in listing {
        continue;
      }
      var files := MdxOnly(listing[dir]);
      result := AddFileUrls(result, board.route, files);
    }
    assert Locales[..|Locales|] == Locales;
  }

  /** The loop over the boards. */
  method AddAllBoards(urls: set<string>, boards: seq<Board>, listing: Listing) returns (result: set<string>)
    ensures result == urls + BoardUrls(boards, listing, DocSlug)
  {
    result := urls;
    for b := 0 to |boards|
      invariant result == urls + BoardUrls(boards[..b], listing, DocSlug)
    {
      assert boards[..b + 1][..b] == boards[..b];
      result := AddBoardUrls(result, boards[b], listing);
    }
    assert boards[..|boards|] == boards;
  }

  /** The loop over the boards, from the three fixed pages. */
  method CollectUrls(listing: Listing) returns (urls: set<string>)
    ensures urls == SitemapUrls(listing)
  {
    urls := AddAllBoards(StaticUrls, Boards, listing);
  }

  /** `u` is the URL of an `.mdx` file of an existing directory. */
  predicate FromListing(listing: Listing, u: string, slugOf: MdxFile -> string) {
    exists board, locale, f ::
      && board in Boards && locale in Locales && (board.dir, locale) in listing
      && f in listing[(board.dir, locale)] && EndsWith(f.name, ".mdx")
      && u == DocPath(board.route, slugOf(f))
  }

  lemma {:induction false} FileUrlsMembers(route: string, files: seq<MdxFile>, slugOf: MdxFile -> string, u: string)
    ensures u in FileUrls(route, files, slugOf) <==> exists f :: f in files && u == DocPath(route, slugOf(f))
    decreases |files|
  {
    if files != [] {
      var n := |files| - 1;
      FileUrlsMembers(route, files[..n], slugOf, u);
      assert files == files[..n] + [files[n]];
      if exists f :: f in files && u == DocPath(route, slugOf(f)) {
        var f :| f in files && u == DocPath(route, slugOf(f));
        if f != files[n] {
          assert f in files[..n];
        }
      }
    }
  }

  lemma {:induction false} LocaleUrlsMembers(board: Board, locales: seq<string>, listing: Listing, slugOf: MdxFile -> string, u: string)
    ensures u in LocaleUrls(board, locales, listing, slugOf) <==> exists l :: l in locales && u in DirUrls(board, l, listing, slugOf)
    decreases |locales|
  {
    if locales != [] {
      var n := |locales| - 1;
      LocaleUrlsMembers(board, locales[..n], listing, slugOf, u);
      assert locales == locales[..n] + [locales[n]];
      if exists l :: l in locales && u in DirUrls(board, l, listing, slugOf) {
        var l :| l in locales && u in DirUrls(board, l, listing, slugOf);
        if l != locales[n] {
          assert l in locales[..n];
        }
      }
    }
  }

  lemma {:induction false} BoardUrlsMembers(boards: seq<Board>, listing: Listing, slugOf: MdxFile -> string, u: string)
    ensures u in BoardUrls(boards, listing, slugOf) <==> exists b :: b in boards && u in LocaleUrls(b, Locales, listing, slugOf)
    decreases |boards|
  {
    if boards != [] {
      var n := |boards| - 1;
      BoardUrlsMembers(boards[..n], listing, slugOf, u);
      assert boards == boards[..n] + [boards[n]];
      if exists b :: b in boards && u in LocaleUrls(b, Locales, listing, slugOf) {
        var b :| b in boards && u in LocaleUrls(b, Locales, listing, slugOf);
        if b != boards[n] {
          assert b in boards[..n];
        }
      }
    }
  }

  /** The board-level set holds the URL of every `.mdx` file of every
      existing board and locale directory, and nothing else. */
  lemma BoardUrlsAll(listing: Listing, slugOf: MdxFile -> string, u: string)
    ensures u in BoardUrls(Boards, listing, slugOf) <==> FromListing(listing, u, slugOf)
  {
    BoardUrlsMembers(Boards, listing, slugOf, u);
    if u in BoardUrls(Boards, listing, slugOf) {
      var b :| b in Boards && u in LocaleUrls(b, Locales, listing, slugOf);
      LocaleUrlsMembers(b, Locales, listing, slugOf, u);
      var l :| l in Locales && u in DirUrls(b, l, listing, slugOf);
      var files := listing[(b.dir, l)];
      FileUrlsMembers(b.route, MdxOnly(files), slugOf, u);
      var f :| f in MdxOnly(files) && u == DocPath(b.route, slugOf(f));
      assert f in files && EndsWith(f.name, ".mdx");
    }
    if FromListing(listing, u, slugOf) {
      var b, l, f :|
        && b in Boards && l in Locales && (b.dir, l) in listing
        && f in listing[(b.dir, l)] && EndsWith(f.name, ".mdx")
        && u == DocPath(b.route, slugOf(f));
      FileUrlsMembers(b.route, MdxOnly(listing[(b.dir, l)]), slugOf, u);
      LocaleUrlsMembers(b, Locales, listing, slugOf, u);
    }
  }

  /** The set holds the three fixed pages and the URL of every `.mdx` file of
      every existing board and locale directory, and nothing else: missing
      directories and other files contribute nothing, and files whose slugs
      agree (the zh and en copies of a document) give one URL. */
  lemma SitemapUrlsMembers(listing: Listing, u: string)
    ensures u in SitemapUrls(listing) <==> u in StaticUrls || FromListing(listing, u, DocSlug)
  {
    BoardUrlsAll(listing, DocSlug, u);
  }

  /** A frontmatter slug holds no newline. */
  lemma FrontmatterSlugLine(content: string)
    ensures Lacks(GetSlugFromFrontmatter(content), '\n')
  {
    var slug := GetSlugFromFrontmatter(content);
    GetSlugFromFrontmatterSpec(content);
    forall i | 0 <= i < |slug|
      ensures slug[i] != '\n'
    {
      assert IsValueChar(slug[i]);
    }
  }

  /** A file name's safe slug is never empty and holds no newline. */
  lemma SafeSlugLine(name: string)
    ensures Slug.ToSafeSlug(name) != "" && Lacks(Slug.ToSafeSlug(name), '\n')
  {
    Slug.ToSafeSlugSafe(name);
    SafeSlugHasNoNewline(Slug.ToSafeSlug(name));
  }

  lemma SafeSlugHasNoNewline(s: string)
    requires Slug.IsSafeSlug(s)
    ensures Lacks(s, '\n')
  {
    forall i | 0 <= i < |s|
      ensures s[i] != '\n'
    {
      assert Slug.IsSlugChar(s[i]);
    }
  }

  /** A document's slug is never empty and holds no newline: it is the
      frontmatter slug when there is one, else the file name's safe slug. */
  lemma DocSlugShape(f: MdxFile)
    ensures DocSlug(f) != "" && Lacks(DocSlug(f), '\n')
  {
    if GetSlugFromFrontmatter(f.content) == "" {
      SafeSlugLine(f.name);
    } else {
      FrontmatterSlugLine(f.content);
    }
  }

  // ---------------------------------------------------------------------------
  // Sorting

  /** `[...urls].sort((a, b) => a.localeCompare(b))`, for the order `leq`
      that `localeCompare` stands for. */
  method SortUrls(urls: set<string>, leq: (string, string) -> bool) returns (sorted: seq<string>)
    requires StableSort.TotalPreorder(leq)
    ensures multiset(sorted) == multiset(urls)
    ensures StableSort.Sorted(sorted, leq)
  {
    var listed: seq<string> := [];
    var rest := urls;
    while rest != {}
      invariant multiset(listed) + multiset(rest) == multiset(urls)
      decreases |rest|
    {
      var u :| u in rest;
      listed := listed + [u];
      rest := rest - {u};
    }
    sorted := StableSort.Sort(listed, leq);
    StableSort.SortCorrect(listed, leq);
  }

  lemma CountTwice(s: seq<string>, i: nat, j: nat)
    requires i < j < |s|
    ensures s[i] == s[j] ==> multiset(s)[s[i]] >= 2
  {
    assert s == s[..i] + [s[i]] + s[i + 1..j] + [s[j]] + s[j + 1..];
  }

  /** A list with the multiset of a set holds each URL of the set exactly once. */
  lemma SortedListDistinct(sorted: seq<string>, urls: set<string>)
    requires multiset(sorted) == multiset(urls)
    ensures |sorted| == |urls|
    ensures forall u :: u in sorted <==> u in urls
    ensures forall i, j :: 0 <= i < j < |sorted| ==> sorted[i] != sorted[j]
  {
    assert |multiset(sorted)| == |sorted|;
    forall u
      ensures u in sorted <==> u in urls
    {
      assert u in sorted <==> u in multiset(sorted);
    }
    forall i, j | 0 <= i < j < |sorted|
      ensures sorted[i] != sorted[j]
    {
      CountTwice(sorted, i, j);
    }
  }

  // ---------------------------------------------------------------------------
  // Classification

  /** The number of parts `s.split(c)` gives: one more than the occurrences of `c`. */
  function SplitCount(s: string, c: char): (n: nat)
    ensures n >= 1
  {
    if s == [] then 1 else (if s[0] == c then 1 else 0) + SplitCount(s[1..], c)
  }

  lemma {:induction false} SplitCountAppend(a: string, b: string, c: char)
    ensures SplitCount(a + b, c) == SplitCount(a, c) + SplitCount(b, c) - 1
  {
    if a == [] {
      assert a + b == b;
    } else {
      assert (a + b)[1..] == a[1..] + b;
      SplitCountAppend(a[1..], b, c);
    }
  }

  /** `relativeUrl.startsWith('/docs/') && relativeUrl.split('/').length >= 4` */
  predicate IsDocArticle(url: string) {
    StartsWith(url, "/docs/") && SplitCount(url, '/') >= 4
  }

  function ChangeFreq(url: string): string {
    if url == "/" then "daily" else if IsDocArticle(url) then "weekly" else "monthly"
  }

  function Priority(url: string): string {
    if url == "/" then "1.0" else if IsDocArticle(url) then "0.9" else "0.6"
  }

  /** Every document URL has at least four `/`-separated parts, whatever the
      route and slug. */
  lemma DocPathIsArticle(route: string, slug: string)
    ensures IsDocArticle(DocPath(route, slug))
  {
    var u := DocPath(route, slug);
    SplitCountAppend("/docs/", route, '/');
    SplitCountAppend("/docs/" + route, "/", '/');
    SplitCountAppend("/docs/" + route + "/", slug, '/');
    assert SplitCount("/docs/", '/') == 3;
    assert SplitCount("/", '/') == 2;
    assert u[..|"/docs/"|] == "/docs/";
  }

  lemma NotDocsPrefix(u: string)
    requires |u| >= 6 && u[1] != 'd'
    ensures !StartsWith(u, "/docs/")
  {
    assert u[..6][1] == u[1];
    assert "/docs/"[1] == 'd';
  }

  /** The root is daily at 1.0, every document URL weekly at 0.9, and the
      other fixed pages monthly at 0.6. */
  lemma ClassifySitemapUrls(listing: Listing, u: string)
    requires u in SitemapUrls(listing)
    ensures u == "/" ==> ChangeFreq(u) == "daily" && Priority(u) == "1.0"
    ensures u == "/privacy" || u == "/terms" ==> ChangeFreq(u) == "monthly" && Priority(u) == "0.6"
    ensures u !in StaticUrls ==> ChangeFreq(u) == "weekly" && Priority(u) == "0.9"
  {
    SitemapUrlsMembers(listing, u);
    NotDocsPrefix("/privacy");
    NotDocsPrefix("/terms");
    if u !in StaticUrls {
      var b, l, f :|
        && b in Boards && l in Locales && (b.dir, l) in listing
        && f in listing[(b.dir, l)] && EndsWith(f.name, ".mdx")
        && u == DocPath(b.route, DocSlug(f));
      DocPathIsArticle(b.route, DocSlug(f));
    }
  }

  // ---------------------------------------------------------------------------
  // The document

  /** The six lines of one `<url>` block; `now` is the run's timestamp. */
  function UrlLines(url: string, now: string): seq<string> {
    [ "  <url>",
      "    <loc>" + SiteUrl + url + "</loc>",
      "    <lastmod>" + now + "</lastmod>",
      "    <changefreq>" + ChangeFreq(url) + "</changefreq>",
      "    <priority>" + Priority(url) + "</priority>",
      "  </url>" ]
  }

  function UrlBlock(url: string, now: string): string {
    Join(UrlLines(url, now), "\n")
  }

  /** `sortedUrls.map(...)` */
  function Blocks(urls: seq<string>, now: string): seq<string> {
    if urls == [] then [] else [UrlBlock(urls[0], now)] + Blocks(urls[1..], now)
  }

  const XmlDecl := "<?xml version=\"1.0\" encoding=\"UTF-8\"?>"
  /** The sitemaps.org protocol 0.9 namespace. */
  const SitemapNamespace := "http://www.sitemaps.org/schemas/sitemap/0.9"
  const UrlsetOpen := "<urlset xmlns=\"" + SitemapNamespace + "\">"
  const UrlsetClose := "</urlset>"

  /** The text written to `public/sitemap.xml`: the declaration, the opening
      tag, the blocks, the closing tag and a final newline, one per line. */
  function SitemapXml(urls: seq<string>, now: string): string {
    Join([XmlDecl, UrlsetOpen, Join(Blocks(urls, now), "\n"), UrlsetClose, ""], "\n")
  }

  /** The lines of all blocks, in order. */
  function AllLines(urls: seq<string>, now: string): seq<string> {
    if urls == [] then [] else UrlLines(urls[0], now) + AllLines(urls[1..], now)
  }

  /** Joining joined groups is joining their concatenation. */
  lemma {:induction false} JoinNested(pre: seq<string>, mid: seq<string>, post: seq<string>, sep: string)
    requires mid != []
    ensures Join(pre + [Join(mid, sep)] + post, sep) == Join(pre + mid + post, sep)
    decreases |pre|
  {
    if pre == [] {
      AppendEmpty([Join(mid, sep)]);
      AppendEmpty(mid);
      if post != [] {
        JoinAppend([Join(mid, sep)], post, sep);
        JoinAppend(mid, post, sep);
      } else {
        AppendEmpty(mid);
        AppendEmpty([Join(mid, sep)]);
      }
    } else {
      JoinNested([], mid, post, sep);
      JoinAppend(pre, [Join(mid, sep)] + post, sep);
      JoinAppend(pre, mid + post, sep);
      AppendAssoc(pre, [Join(mid, sep)], post);
      AppendAssoc(pre, mid, post);
      AppendEmpty([Join(mid, sep)]);
      AppendEmpty(mid);
    }
  }

  lemma {:induction false} BlocksJoin(urls: seq<string>, now: string)
    requires urls != []
    ensures Join(Blocks(urls, now), "\n") == Join(AllLines(urls, now), "\n")
  {
    var lines := UrlLines(urls[0], now);
    if |urls| == 1 {
      assert AllLines(urls, now) == lines + [];
      assert lines + [] == lines;
    } else {
      BlocksJoin(urls[1..], now);
      JoinAppend(lines, AllLines(urls[1..], now), "\n");
    }
  }

  /** None of the fixed texts holds a newline. */
  lemma DeclOneLine()
    ensures '\n' !in XmlDecl
  {
  }

  lemma OpenOneLine()
    ensures '\n' !in UrlsetOpen
  {
    assert '\n' !in SitemapNamespace;
  }

  lemma FixedTextsOneLine(url: string)
    ensures '\n' !in XmlDecl && '\n' !in UrlsetOpen && '\n' !in UrlsetClose
    ensures '\n' !in "  <url>" && '\n' !in "  </url>" && '\n' !in SiteUrl
    ensures '\n' !in "    <loc>" && '\n' !in "</loc>" && '\n' !in "    <lastmod>" && '\n' !in "</lastmod>"
    ensures '\n' !in "    <changefreq>" && '\n' !in "</changefreq>" && '\n' !in "    <priority>" && '\n' !in "</priority>"
    ensures '\n' !in ChangeFreq(url) && '\n' !in Priority(url)
  {
    DeclOneLine();
    OpenOneLine();
  }

  lemma UrlLinesNoNewline(url: string, now: string)
    requires '\n' !in url && '\n' !in now
    ensures forall i :: 0 <= i < |UrlLines(url, now)| ==> '\n' !in UrlLines(url, now)[i]
  {
    FixedTextsOneLine(url);
  }

  lemma {:induction false} AllLinesNoNewline(urls: seq<string>, now: string)
    requires forall i :: 0 <= i < |urls| ==> '\n' !in urls[i]
    requires '\n' !in now
    ensures forall i :: 0 <= i < |AllLines(urls, now)| ==> '\n' !in AllLines(urls, now)[i]
  {
    if urls != [] {
      UrlLinesNoNewline(urls[0], now);
      AllLinesNoNewline(urls[1..], now);
    }
  }

  /** Split at newlines, the document is the declaration, the opening tag,
      the six lines of every URL's block in the list's order, the closing tag
      and the empty text after the final newline. */
  lemma SitemapXmlLines(urls: seq<string>, now: string)
    requires urls != []
    requires forall i :: 0 <= i < |urls| ==> '\n' !in urls[i]
    requires '\n' !in now
    ensures SplitOn(SitemapXml(urls, now), '\n') == [XmlDecl, UrlsetOpen] + AllLines(urls, now) + [UrlsetClose, ""]
  {
    var all := AllLines(urls, now);
    var pre, post := [XmlDecl, UrlsetOpen], [UrlsetClose, ""];
    BlocksJoin(urls, now);
    assert [XmlDecl, UrlsetOpen, Join(Blocks(urls, now), "\n"), UrlsetClose, ""] == pre + [Join(all, "\n")] + post;
    JoinNested(pre, all, post, "\n");
    AllLinesNoNewline(urls, now);
    FixedTextsOneLine(urls[0]);
    LinesLack(pre, all, post, '\n');
    SplitJoin(pre + all + post, '\n');
  }

  /** Three runs of lines free of `c` make one. */
  lemma LinesLack(a: seq<string>, b: seq<string>, e: seq<string>, c: char)
    requires forall i :: 0 <= i < |a| ==> c !in a[i]
    requires forall i :: 0 <= i < |b| ==> c !in b[i]
    requires forall i :: 0 <= i < |e| ==> c !in e[i]
    ensures forall i :: 0 <= i < |a + b + e| ==> c !in (a + b + e)[i]
  {
    var lines := a + b + e;
    forall i | 0 <= i < |lines|
      ensures c !in lines[i]
    {
      if i < |a| {
        assert lines[i] == a[i];
      } else if i < |a| + |b| {
        assert lines[i] == b[i - |a|];
      } else {
        assert lines[i] == e[i - |a| - |b|];
      }
    }
  }
}
