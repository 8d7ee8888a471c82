/** pages/PlaybookDocs.tsx: the AI Playbook page. Unlike the Gemini page it
    never reads metadata out of file names: the documents are sorted by file
    name alone and listed flat in the sidebar. */
module PlaybookDocs {
  import opened Text
  import opened Wrappers
  import StableSort
  import Collation
  import Slug
  import opened DocsCommon

  datatype PlaybookDocItem = PlaybookDocItem(fileName: string, title: string, description: string, slug: string)

  /** One entry of the page's `map`. */
  function BuildItem(m: MdxModule): PlaybookDocItem {
    var fileName := GetFileName(m.path);
    var fm := FrontmatterOrEmpty(m);
    PlaybookDocItem(
      fileName,
      TrimmedOr(fm.title, fileName),
      TrimmedOr(fm.description, ""),
      TrimmedOr(fm.slug, Slug.ToSafeSlug(fileName)))
  }

  /** How an item's fields are resolved: the trimmed frontmatter value when it
      is non-empty, else the file name, the empty string or the derived slug;
      the derived slug is always a safe one. */
  lemma BuildItemFields(m: MdxModule)
    ensures var d, fm := BuildItem(m), FrontmatterOrEmpty(m);
      && d.fileName == GetFileName(m.path)
      && (fm.title.Some? && TrimJs(fm.title.value) != [] ==> d.title == TrimJs(fm.title.value))
      && (fm.title.None? || TrimJs(fm.title.value) == [] ==> d.title == d.fileName)
      && (fm.description.Some? && TrimJs(fm.description.value) != [] ==> d.description == TrimJs(fm.description.value))
      && (fm.description.None? || TrimJs(fm.description.value) == [] ==> d.description == "")
      && (fm.slug.Some? && TrimJs(fm.slug.value) != [] ==> d.slug == TrimJs(fm.slug.value))
      && (fm.slug.None? || TrimJs(fm.slug.value) == [] ==> d.slug == Slug.ToSafeSlug(d.fileName) && Slug.IsSafeSlug(d.slug))
      && d.slug != []
  {
    Slug.ToSafeSlugSafe(GetFileName(m.path));
  }

  /** `modules.map(...)`. */
  function BuildItems(modules: seq<MdxModule>): seq<PlaybookDocItem> {
    seq(|modules|, i requires 0 <= i < |modules| => BuildItem(modules[i]))
  }

  /** The page's comparator: file names under the numeric collation. */
  predicate FileNameLeq(a: PlaybookDocItem, b: PlaybookDocItem) {
    Collation.Leq(a.fileName, b.fileName)
  }

  lemma FileNameLeqTotalPreorder()
    ensures StableSort.TotalPreorder(FileNameLeq)
  {
    Collation.LeqTotalPreorder();
  }

  /** The page's `docs`. */
  function Docs(language: Language, en: seq<MdxModule>, zh: seq<MdxModule>): seq<PlaybookDocItem> {
    StableSort.Sort(BuildItems(SelectModules(language, en, zh)), FileNameLeq)
  }

  /** `docs` holds exactly the items of one language's module set, in file-name
      order, ties in the order of the module set. */
  lemma DocsSorted(language: Language, en: seq<MdxModule>, zh: seq<MdxModule>)
    ensures var modules := SelectModules(language, en, zh);
      && (modules == en || modules == zh)
      && multiset(Docs(language, en, zh)) == multiset(BuildItems(modules))
      && StableSort.Sorted(Docs(language, en, zh), FileNameLeq)
      && StableSort.Stable(BuildItems(modules), Docs(language, en, zh), FileNameLeq)
  {
    FileNameLeqTotalPreorder();
    StableSort.SortCorrect(BuildItems(SelectModules(language, en, zh)), FileNameLeq);
  }

  /** The page is empty only when both languages are. */
  lemma DocsEmpty(language: Language, en: seq<MdxModule>, zh: seq<MdxModule>)
    ensures Docs(language, en, zh) == [] <==> en == [] && zh == []
  {
    var items := BuildItems(SelectModules(language, en, zh));
    StableSort.SortPermutes(items, FileNameLeq);
  }

  function Slugs(docs: seq<PlaybookDocItem>): (r: seq<string>)
    ensures |r| == |docs| && forall i :: 0 <= i < |docs| ==> r[i] == docs[i].slug
  {
    if docs == [] then [] else [docs[0].slug] + Slugs(docs[1..])
  }

  /** The empty state, a redirect to `/docs/playbook/` and the first slug, or
      the first document whose slug is the one requested. */
  function ResolveActive(docs: seq<PlaybookDocItem>, slug: Option<string>): (r: Resolution)
    ensures r == EmptyState <==> docs == []
    ensures r.RedirectTo? <==> docs != [] && (slug.None? || slug.value == [] || forall i :: 0 <= i < |docs| ==> docs[i].slug != slug.value)
    ensures r.RedirectTo? ==> r.path == "/docs/playbook/" + docs[0].slug
    ensures r.Show? ==>
      && r.index < |docs| && slug.Some? && docs[r.index].slug == slug.value
      && forall i :: 0 <= i < r.index ==> docs[i].slug != slug.value
  {
    ResolveCases(Slugs(docs), slug, "playbook");
    Resolve(Slugs(docs), slug, "playbook")
  }

  /** `doc.slug === activeDoc.slug`: whether a sidebar entry is highlighted. */
  predicate IsHighlighted(doc: PlaybookDocItem, active: PlaybookDocItem) {
    doc.slug == active.slug
  }

  /** When a document is shown, the highlighted entries are exactly those
      whose slug is the one in the URL (several, when slugs collide). */
  lemma HighlightMatchesUrl(docs: seq<PlaybookDocItem>, slug: Option<string>, j: nat)
    requires ResolveActive(docs, slug).Show?
    requires j < |docs|
    ensures IsHighlighted(docs[j], docs[ResolveActive(docs, slug).index]) <==> docs[j].slug == slug.value
  {
  }
}
