/** pages/GeminiDocs.tsx: the Gemini CLI documentation page. File names such
    as `1. Cat - 1.2 Sub - Title_final.mdx` carry the category, sub-category
    and title; the documents are sorted on three keys, bucketed into a
    category / sub-category sidebar tree, and the URL's slug is resolved to
    the document to show. */
module GeminiDocs {
  import opened Text
  import opened Wrappers
  import opened Regex
  import StableSort
  import Collation
  import Slug
  import opened DocsCommon

  // ---------------------------------------------------------------------------
  // parseDocFileMeta

  /** `\s*` */
  const Ws: Item := Rep(Space, 0, None, true)
  /** `\d+` */
  const Digits: Item := Rep(Digit, 1, None, true)
  /** `.+?` */
  const LazyText: Item := Rep(NotLineTerminator, 1, None, false)

  /** `_final.mdx` under the i flag, one item per character. */
  const FinalMdx: seq<Item> := [
    Rep(Caseless('_'), 1, Some(1), true), Rep(Caseless('f'), 1, Some(1), true),
    Rep(Caseless('i'), 1, Some(1), true), Rep(Caseless('n'), 1, Some(1), true),
    Rep(Caseless('a'), 1, Some(1), true), Rep(Caseless('l'), 1, Some(1), true),
    Rep(Caseless('.'), 1, Some(1), true), Rep(Caseless('m'), 1, Some(1), true),
    Rep(Caseless('d'), 1, Some(1), true), Rep(Caseless('x'), 1, Some(1), true)]

  /** `/^\s*(\d+)\.\s*(.+?)\s*-\s*(\d+\.\d+)\s*(.+?)\s*-\s*(.+?)_final\.mdx$/i`.
      Group 1 is item 2, group 2 item 5, group 3 items 9 to 11, group 4 item
      13 and group 5 item 17. */
  const FileMetaPattern: seq<Item> :=
    [InputStart, Ws, Digits, Lit('.'), Ws, LazyText, Ws, Lit('-'), Ws,
     Digits, Lit('.'), Digits, Ws, LazyText, Ws, Lit('-'), Ws, LazyText]
    + FinalMdx + [InputEnd]

  datatype FileMeta = FileMeta(
    categoryOrder: nat, category: string, subOrder: string, subCategory: string, title: string)

  /** What the lemmas below need to know of FileMetaPattern. They are stated
      for any pattern with these items, so that the solver never unfolds the
      matcher on the whole pattern. */
  predicate MetaPattern(items: seq<Item>) {
    && |items| == 29
    && items[0] == InputStart && items[1] == Ws && items[2] == Digits && items[3] == Lit('.')
    && items[9] == Digits && items[10] == Lit('.') && items[11] == Digits
    && items[18..28] == FinalMdx && items[28] == InputEnd
  }

  lemma MetaPatternHolds()
    ensures MetaPattern(FileMetaPattern)
  {
  }

  /** A match has a rising cut before every item. */
  lemma MetaShape(items: seq<Item>, name: string, cuts: seq<nat>)
    requires MetaPattern(items) && Fits(items, name, 0, cuts)
    ensures |cuts| == 30 && cuts[0] == 0
    ensures forall i, j :: 0 <= i <= j < 30 ==> cuts[i] <= cuts[j] <= |name|
  {
    FitsShape(items, name, 0, cuts);
  }

  /** Item `i` of a match matches its own slice. */
  lemma MetaItem(items: seq<Item>, name: string, cuts: seq<nat>, i: nat)
    requires MetaPattern(items) && Fits(items, name, 0, cuts)
    requires i < 29
    ensures |cuts| == 30
    ensures ItemFits(items[i], name, cuts[i], cuts[i + 1])
  {
    FitsItems(items, name, 0, cuts);
  }

  lemma MetaDigitRun(items: seq<Item>, name: string, cuts: seq<nat>, i: nat)
    requires MetaPattern(items) && Fits(items, name, 0, cuts)
    requires i == 2 || i == 9 || i == 11
    ensures |cuts| == 30 && cuts[i] < cuts[i + 1] <= |name|
    ensures forall j :: cuts[i] <= j < cuts[i + 1] ==> IsDigit(name[j])
  {
    MetaItem(items, name, cuts, i);
  }

  lemma MetaDot(items: seq<Item>, name: string, cuts: seq<nat>, i: nat)
    requires MetaPattern(items) && Fits(items, name, 0, cuts)
    requires i == 3 || i == 10
    ensures |cuts| == 30 && cuts[i] < |name| && cuts[i + 1] == cuts[i] + 1
    ensures name[cuts[i]] == '.'
  {
    MetaItem(items, name, cuts, i);
  }

  lemma MetaLeadingSpace(items: seq<Item>, name: string, cuts: seq<nat>)
    requires MetaPattern(items) && Fits(items, name, 0, cuts)
    ensures |cuts| == 30 && cuts[2] <= |name|
    ensures forall j :: 0 <= j < cuts[2] ==> IsJsSpace(name[j])
  {
    MetaItem(items, name, cuts, 0);
    MetaItem(items, name, cuts, 1);
  }

  /** The ten suffix items take one character each and end the name. */
  lemma {:induction false} MetaCutsStep(items: seq<Item>, name: string, cuts: seq<nat>, i: nat)
    requires MetaPattern(items) && Fits(items, name, 0, cuts)
    requires 18 <= i <= 28
    ensures |cuts| == 30 && cuts[i] + 28 - i == |name|
    decreases 28 - i
  {
    MetaItem(items, name, cuts, i);
    if i < 28 {
      assert items[i] == items[18..28][i - 18];
      MetaCutsStep(items, name, cuts, i + 1);
    }
  }

  lemma MetaSuffixChar(items: seq<Item>, name: string, cuts: seq<nat>, i: nat)
    requires MetaPattern(items) && Fits(items, name, 0, cuts)
    requires i < 10
    ensures |name| >= 10 && LowerChar(name[|name| - 10 + i]) == LowerChar("_final.mdx"[i])
  {
    MetaCutsStep(items, name, cuts, 18);
    MetaCutsStep(items, name, cuts, 18 + i);
    MetaItem(items, name, cuts, 18 + i);
    assert items[18 + i] == items[18..28][i];
  }

  lemma SliceAll(s: string, a: nat, b: nat, p: char -> bool)
    requires a <= b <= |s|
    requires forall i :: a <= i < b ==> p(s[i])
    ensures AllChars(s[a..b], p)
  {
  }

  lemma MetaDigits(items: seq<Item>, name: string, cuts: seq<nat>)
    requires MetaPattern(items) && Fits(items, name, 0, cuts)
    ensures |cuts| == 30 && cuts[2] <= cuts[3] <= |name|
    ensures AllChars(name[cuts[2]..cuts[3]], IsDigit)
  {
    MetaDigitRun(items, name, cuts, 2);
    SliceAll(name, cuts[2], cuts[3], IsDigit);
  }

  /** The slices the five groups are taken from lie within the name. */
  lemma MetaGroups(items: seq<Item>, name: string, cuts: seq<nat>)
    requires MetaPattern(items) && Fits(items, name, 0, cuts)
    ensures |cuts| == 30
    ensures cuts[2] <= cuts[3] <= |name| && cuts[5] <= cuts[6] <= |name|
    ensures cuts[9] <= cuts[12] <= |name| && cuts[13] <= cuts[14] <= |name|
    ensures cuts[17] <= cuts[18] <= |name|
  {
    MetaShape(items, name, cuts);
  }

  /** `parseDocFileMeta(fileName)`: null when the pattern does not match, else
      the five groups, the first as a number and the others trimmed. */
  function ParseDocFileMeta(name: string): Option<FileMeta> {
    AnchoredSearch(FileMetaPattern, name);
    match Match(FileMetaPattern, name, 0)
    case None => None
    case Some(cuts) =>
      MatchSound(FileMetaPattern, name, 0);
      MetaPatternHolds();
      MetaDigits(FileMetaPattern, name, cuts);
      MetaGroups(FileMetaPattern, name, cuts);
      Some(FileMeta(
        DecimalValue(name[cuts[2]..cuts[3]]),
        TrimJs(name[cuts[5]..cuts[6]]),
        TrimJs(name[cuts[9]..cuts[12]]),
        TrimJs(name[cuts[13]..cuts[14]]),
        TrimJs(name[cuts[17]..cuts[18]])))
  }

  /** `parseDocFileMeta` matches with `String.prototype.match`, which tries
      every start position; the `^` anchor leaves only position 0. */
  lemma ParseUsesMatch(name: string)
    ensures Search(FileMetaPattern, name, 0).Some? <==> Match(FileMetaPattern, name, 0).Some?
  {
    AnchoredSearch(FileMetaPattern, name);
  }

  /** `\d+\.\d+` */
  predicate IsDottedNumber(s: string) {
    exists k :: 0 < k < |s| - 1 && s[k] == '.' && AllChars(s[..k], IsDigit) && AllChars(s[k + 1..], IsDigit)
  }

  /** The digits that follow the leading white space. */
  function LeadingDigits(name: string): string {
    var t := StripStart(name, IsJsSpace);
    t[..Collation.DigitRun(t)]
  }

  /** The first group is the whole digit run after the leading white space. */
  lemma MetaLeadingDigits(items: seq<Item>, name: string, cuts: seq<nat>)
    requires MetaPattern(items) && Fits(items, name, 0, cuts)
    ensures |cuts| == 30 && cuts[2] <= cuts[3] <= |name|
    ensures name[cuts[2]..cuts[3]] == LeadingDigits(name)
  {
    MetaLeadingSpace(items, name, cuts);
    MetaDigitRun(items, name, cuts, 2);
    MetaDot(items, name, cuts, 3);
    Collation.DigitNotSpace(name[cuts[2]]);
    Collation.DropThenDigits(name, cuts[2], cuts[3], IsJsSpace);
  }

  lemma MetaSubOrder(items: seq<Item>, name: string, cuts: seq<nat>)
    requires MetaPattern(items) && Fits(items, name, 0, cuts)
    ensures |cuts| == 30 && cuts[9] <= cuts[12] <= |name|
    ensures IsDottedNumber(name[cuts[9]..cuts[12]])
    ensures TrimJs(name[cuts[9]..cuts[12]]) == name[cuts[9]..cuts[12]]
  {
    MetaDigitRun(items, name, cuts, 9);
    MetaDot(items, name, cuts, 10);
    MetaDigitRun(items, name, cuts, 11);
    DottedSlice(name, cuts[9], cuts[10], cuts[12]);
  }

  /** Digits, one dot, digits: a dotted number with nothing to trim. */
  lemma DottedSlice(name: string, a: nat, k: nat, b: nat)
    requires a < k < b - 1 && b <= |name|
    requires forall i :: a <= i < k ==> IsDigit(name[i])
    requires name[k] == '.'
    requires forall i :: k < i < b ==> IsDigit(name[i])
    ensures IsDottedNumber(name[a..b])
    ensures TrimJs(name[a..b]) == name[a..b]
  {
    var g := name[a..b];
    var m := k - a;
    assert g[m] == '.';
    assert forall i :: 0 <= i < m ==> g[..m][i] == name[a + i];
    assert AllChars(g[..m], IsDigit);
    assert AllChars(g[m + 1..], IsDigit);
    assert IsDottedNumber(g);
    assert !IsJsSpace(g[0]) && !IsJsSpace(g[|g| - 1]) by {
      assert g[0] == name[a] && g[|g| - 1] == name[b - 1];
    }
    assert TrimStartJs(g) == g;
    assert TrimEndJs(g) == g;
  }

  lemma MetaFinal(items: seq<Item>, name: string, cuts: seq<nat>)
    requires MetaPattern(items) && Fits(items, name, 0, cuts)
    ensures EndsWith(Lower(name), "_final.mdx")
  {
    var w := "_final.mdx";
    MetaSuffixChar(items, name, cuts, 0);
    FinalIsLower();
    var suffix := name[|name| - |w|..];
    forall i | 0 <= i < |w|
      ensures LowerChar(suffix[i]) == w[i]
    {
      MetaSuffixChar(items, name, cuts, i);
      assert suffix[i] == name[|name| - |w| + i];
    }
    EndsWithLower(name, w);
  }

  lemma FinalIsLower()
    ensures forall i :: 0 <= i < |"_final.mdx"| ==> LowerChar("_final.mdx"[i]) == "_final.mdx"[i]
  {
  }

  /** What a match says about the first and third groups. */
  lemma MetaNumbers(items: seq<Item>, name: string, cuts: seq<nat>)
    requires MetaPattern(items) && Fits(items, name, 0, cuts)
    ensures |cuts| == 30 && cuts[2] <= cuts[3] <= |name| && cuts[9] <= cuts[12] <= |name|
    ensures AllChars(LeadingDigits(name), IsDigit)
    ensures name[cuts[2]..cuts[3]] == LeadingDigits(name)
    ensures IsDottedNumber(TrimJs(name[cuts[9]..cuts[12]]))
  {
    MetaDigits(items, name, cuts);
    MetaLeadingDigits(items, name, cuts);
    MetaSubOrder(items, name, cuts);
  }

  /** null exactly when no split of the name fits the pattern. */
  lemma ParseDocFileMetaNone(name: string)
    ensures ParseDocFileMeta(name).None? <==> forall cuts :: !Fits(FileMetaPattern, name, 0, cuts)
  {
    assert ParseDocFileMeta(name).None? <==> Match(FileMetaPattern, name, 0).None?;
    MatchNoneIff(FileMetaPattern, name, 0);
  }

  /** On a match the order is the value of the leading digits, the sub-order
      has the form `\d+\.\d+`, the text fields are trimmed, and the name ends
      in `_final.mdx` in some letter case. */
  lemma ParseDocFileMetaSome(name: string)
    requires ParseDocFileMeta(name).Some?
    ensures var m := ParseDocFileMeta(name).value;
      && AllChars(LeadingDigits(name), IsDigit)
      && m.categoryOrder == DecimalValue(LeadingDigits(name))
      && IsDottedNumber(m.subOrder)
      && Trimmed(m.category) && Trimmed(m.subCategory) && Trimmed(m.title)
      && EndsWith(Lower(name), "_final.mdx")
  {
    var cuts := Match(FileMetaPattern, name, 0).value;
    MatchSound(FileMetaPattern, name, 0);
    MetaPatternHolds();
    MetaGroups(FileMetaPattern, name, cuts);
    MetaNumbers(FileMetaPattern, name, cuts);
    MetaFinal(FileMetaPattern, name, cuts);
    TrimJsTrimmed(name[cuts[5]..cuts[6]]);
    TrimJsTrimmed(name[cuts[13]..cuts[14]]);
    TrimJsTrimmed(name[cuts[17]..cuts[18]]);
  }

  // ---------------------------------------------------------------------------
  // The documents

  datatype GeminiDocItem = GeminiDocItem(
    fileName: string, title: string, description: string, slug: string,
    categoryOrder: nat, category: string, subOrder: string, subCategory: string)

  /** `Number.MAX_SAFE_INTEGER`: the order of a file whose name does not parse. */
  const MaxSafeInteger: nat := 9007199254740991

  function UncategorizedLabel(language: Language): string {
    if language == Zh then "未分类" else "Uncategorized"
  }

  /** One entry of the page's `map`: fields from the parsed name, then the
      frontmatter, then fixed defaults. */
  function BuildItem(m: MdxModule, language: Language): GeminiDocItem {
    var fileName := GetFileName(m.path);
    ItemOf(fileName, FrontmatterOrEmpty(m), ParseDocFileMeta(fileName), language)
  }

  /** The fields of an item, given the file name, its frontmatter and the
      result of parsing the name. */
  function ItemOf(fileName: string, fm: Frontmatter, parsed: Option<FileMeta>, language: Language): GeminiDocItem {
    var other := UncategorizedLabel(language);
    GeminiDocItem(
      fileName,
      if parsed.Some? && parsed.value.title != [] then parsed.value.title else TrimmedOr(fm.title, fileName),
      TrimmedOr(fm.description, ""),
      TrimmedOr(fm.slug, Slug.ToSafeSlug(fileName)),
      if parsed.Some? then parsed.value.categoryOrder else MaxSafeInteger,
      if parsed.Some? then parsed.value.category else other,
      if parsed.Some? then parsed.value.subOrder else "0",
      if parsed.Some? then parsed.value.subCategory else other)
  }

  /** No `-` in the string: true of every sub-order, which keeps the sidebar's
      sub-group keys apart. */
  predicate NoDash(s: string) {
    forall i :: 0 <= i < |s| ==> s[i] != '-'
  }

  lemma DottedNoDash(s: string)
    requires IsDottedNumber(s)
    ensures NoDash(s)
  {
    var k :| 0 < k < |s| - 1 && s[k] == '.' && AllChars(s[..k], IsDigit) && AllChars(s[k + 1..], IsDigit);
    forall i | 0 <= i < |s| ensures s[i] != '-' {
      if i < k {
        assert s[..k][i] == s[i];
      } else if i > k {
        assert s[k + 1..][i - k - 1] == s[i];
      }
    }
  }

  /** How the title, description and slug of an item are resolved. */
  lemma ItemOfText(fileName: string, fm: Frontmatter, parsed: Option<FileMeta>, language: Language)
    ensures var d := ItemOf(fileName, fm, parsed, language);
      && d.fileName == fileName
      && (parsed.Some? && parsed.value.title != [] ==> d.title == parsed.value.title)
      && (parsed.None? || parsed.value.title == [] ==> d.title == TrimmedOr(fm.title, fileName))
      && Trimmed(d.description)
      && (fm.description.None? || TrimJs(fm.description.value) == [] <==> d.description == [])
      && d.slug != []
      && (fm.slug.None? || TrimJs(fm.slug.value) == [] ==> d.slug == Slug.ToSafeSlug(fileName) && Slug.IsSafeSlug(d.slug))
      && (fm.slug.Some? && TrimJs(fm.slug.value) != [] ==> d.slug == TrimJs(fm.slug.value))
  {
    Slug.ToSafeSlugSafe(fileName);
    if fm.description.Some? {
      TrimJsTrimmed(fm.description.value);
    }
  }

  /** A parsed name supplies order and categories, an unparsed one the defaults. */
  lemma ItemOfOrder(fileName: string, fm: Frontmatter, parsed: Option<FileMeta>, language: Language)
    ensures var d := ItemOf(fileName, fm, parsed, language);
      && (parsed.None? ==>
            && d.categoryOrder == MaxSafeInteger && d.subOrder == "0"
            && d.category == UncategorizedLabel(language) && d.subCategory == UncategorizedLabel(language))
      && (parsed.Some? ==>
            && d.categoryOrder == parsed.value.categoryOrder && d.subOrder == parsed.value.subOrder
            && d.category == parsed.value.category && d.subCategory == parsed.value.subCategory)
  {
  }

  /** The title is trimmed text or, failing everything else, the file name. */
  lemma BuildItemTitle(m: MdxModule, language: Language)
    ensures var d := BuildItem(m, language);
      Trimmed(d.title) || d.title == d.fileName
  {
    var fileName := GetFileName(m.path);
    var fm := FrontmatterOrEmpty(m);
    var parsed := ParseDocFileMeta(fileName);
    ItemOfText(fileName, fm, parsed, language);
    if parsed.Some? {
      ParseDocFileMetaSome(fileName);
    }
    if fm.title.Some? {
      TrimJsTrimmed(fm.title.value);
    }
  }

  /** What ParseDocFileMetaSome guarantees of a parse of `fileName`. */
  predicate WellParsed(fileName: string, p: FileMeta) {
    && p.categoryOrder == DecimalValue(LeadingDigits(fileName))
    && IsDottedNumber(p.subOrder) && Trimmed(p.category) && Trimmed(p.subCategory)
  }

  lemma ItemOfWellParsed(fileName: string, fm: Frontmatter, parsed: Option<FileMeta>, language: Language)
    requires parsed.Some? ==> WellParsed(fileName, parsed.value)
    ensures var d := ItemOf(fileName, fm, parsed, language);
      && (parsed.None? ==>
            && d.categoryOrder == MaxSafeInteger && d.subOrder == "0"
            && d.category == UncategorizedLabel(language) && d.subCategory == UncategorizedLabel(language))
      && (parsed.Some? ==>
            && d.categoryOrder == DecimalValue(LeadingDigits(fileName))
            && IsDottedNumber(d.subOrder) && Trimmed(d.category) && Trimmed(d.subCategory))
      && NoDash(d.subOrder)
  {
    ItemOfOrder(fileName, fm, parsed, language);
    if parsed.Some? {
      DottedNoDash(parsed.value.subOrder);
    }
  }

  /** An item's order and categories: from the parsed name when it parses, the
      defaults when it does not; either way the sub-order holds no `-`. */
  lemma BuildItemOrder(m: MdxModule, language: Language)
    ensures var d := BuildItem(m, language);
      var parsed := ParseDocFileMeta(d.fileName);
      && d.fileName == GetFileName(m.path)
      && (parsed.None? ==>
            && d.categoryOrder == MaxSafeInteger && d.subOrder == "0"
            && d.category == UncategorizedLabel(language) && d.subCategory == UncategorizedLabel(language))
      && (parsed.Some? ==>
            && d.categoryOrder == DecimalValue(LeadingDigits(d.fileName))
            && IsDottedNumber(d.subOrder) && Trimmed(d.category) && Trimmed(d.subCategory))
      && NoDash(d.subOrder)
  {
    var fileName := GetFileName(m.path);
    var parsed := ParseDocFileMeta(fileName);
    if parsed.Some? {
      ParseDocFileMetaSome(fileName);
    }
    ItemOfWellParsed(fileName, FrontmatterOrEmpty(m), parsed, language);
  }

  // ---------------------------------------------------------------------------
  // The three-key sort

  /** The page's comparator: category order, then sub-order, then file name,
      the last two under the numeric collation. */
  function DocCompare(a: GeminiDocItem, b: GeminiDocItem): int {
    if a.categoryOrder != b.categoryOrder then a.categoryOrder - b.categoryOrder
    else
      var c := Collation.Compare(a.subOrder, b.subOrder);
      if c != 0 then c else Collation.Compare(a.fileName, b.fileName)
  }

  predicate DocLeq(a: GeminiDocItem, b: GeminiDocItem) {
    DocCompare(a, b) <= 0
  }

  lemma DocLeqTotal(a: GeminiDocItem, b: GeminiDocItem)
    ensures DocLeq(a, b) || DocLeq(b, a)
  {
    Collation.CompareAntisymmetric(a.subOrder, b.subOrder);
    Collation.CompareAntisymmetric(a.fileName, b.fileName);
  }

  lemma DocLeqTransitive(a: GeminiDocItem, b: GeminiDocItem, c: GeminiDocItem)
    requires DocLeq(a, b) && DocLeq(b, c)
    ensures DocLeq(a, c)
  {
    if a.categoryOrder == b.categoryOrder == c.categoryOrder {
      var x, y := Collation.Compare(a.subOrder, b.subOrder), Collation.Compare(b.subOrder, c.subOrder);
      if x == 0 && y == 0 {
        Collation.CompareTiedAlike(a.subOrder, b.subOrder, c.subOrder);
        Collation.CompareTransitive(a.fileName, b.fileName, c.fileName);
      } else {
        Collation.CompareStrictTransitive(a.subOrder, b.subOrder, c.subOrder);
      }
    }
  }

  lemma DocLeqTotalPreorder()
    ensures StableSort.TotalPreorder(DocLeq)
  {
    forall a, b ensures DocLeq(a, b) || DocLeq(b, a) {
      DocLeqTotal(a, b);
    }
    forall a, b, c | DocLeq(a, b) && DocLeq(b, c) ensures DocLeq(a, c) {
      DocLeqTransitive(a, b, c);
    }
  }

  /** `modules.map(...)`. */
  function BuildItems(modules: seq<MdxModule>, language: Language): seq<GeminiDocItem> {
    seq(|modules|, i requires 0 <= i < |modules| => BuildItem(modules[i], language))
  }

  /** The page's `docs`: the items of the chosen module set, sorted. */
  function Docs(language: Language, en: seq<MdxModule>, zh: seq<MdxModule>): seq<GeminiDocItem> {
    StableSort.Sort(BuildItems(SelectModules(language, en, zh), language), DocLeq)
  }

  /** `docs` holds exactly the built items, in comparator order, ties in the
      order of the module set. */
  lemma DocsSorted(language: Language, en: seq<MdxModule>, zh: seq<MdxModule>)
    ensures var items := BuildItems(SelectModules(language, en, zh), language);
      && multiset(Docs(language, en, zh)) == multiset(items)
      && StableSort.Sorted(Docs(language, en, zh), DocLeq)
      && StableSort.Stable(items, Docs(language, en, zh), DocLeq)
  {
    DocLeqTotalPreorder();
    StableSort.SortCorrect(BuildItems(SelectModules(language, en, zh), language), DocLeq);
  }

  /** What sorted by DocLeq means key by key. */
  lemma DocsOrderedByKeys(docs: seq<GeminiDocItem>, i: nat, j: nat)
    requires StableSort.Sorted(docs, DocLeq)
    requires i < j < |docs|
    ensures docs[i].categoryOrder <= docs[j].categoryOrder
    ensures docs[i].categoryOrder == docs[j].categoryOrder ==>
      Collation.Compare(docs[i].subOrder, docs[j].subOrder) <= 0
    ensures (docs[i].categoryOrder == docs[j].categoryOrder
             && Collation.Compare(docs[i].subOrder, docs[j].subOrder) == 0) ==>
      Collation.Compare(docs[i].fileName, docs[j].fileName) <= 0
  {
    assert DocLeq(docs[i], docs[j]);
  }

  // ---------------------------------------------------------------------------
  // Resolving the active document

  function Slugs(docs: seq<GeminiDocItem>): (r: seq<string>)
    ensures |r| == |docs| && forall i :: 0 <= i < |docs| ==> r[i] == docs[i].slug
  {
    if docs == [] then [] else [docs[0].slug] + Slugs(docs[1..])
  }

  /** The page's decision: the empty state, a redirect to `/docs/gemini/` and
      the first document's slug, or the first document with the requested slug. */
  function ResolveActive(docs: seq<GeminiDocItem>, slug: Option<string>): (r: Resolution)
    ensures r == EmptyState <==> docs == []
    ensures r.RedirectTo? <==> docs != [] && (slug.None? || slug.value == [] || forall i :: 0 <= i < |docs| ==> docs[i].slug != slug.value)
    ensures r.RedirectTo? ==> r.path == "/docs/gemini/" + docs[0].slug
    ensures r.Show? ==>
      && r.index < |docs| && slug.Some? && docs[r.index].slug == slug.value
      && forall i :: 0 <= i < r.index ==> docs[i].slug != slug.value
  {
    ResolveCases(Slugs(docs), slug, "gemini");
    Resolve(Slugs(docs), slug, "gemini")
  }
}

