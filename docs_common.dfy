/** What pages/GeminiDocs.tsx and pages/PlaybookDocs.tsx do alike: pick the
    module set of a language, name a document after the last segment of its
    path, fill a field from frontmatter with a fallback, and resolve the slug
    in the URL to an empty state, a redirect or the document to show. */
module DocsCommon {
  import opened Text
  import opened Wrappers

  datatype Language = En | Zh

  /** The frontmatter fields the pages read; each may be absent. */
  datatype Frontmatter = Frontmatter(title: Option<string>, description: Option<string>, slug: Option<string>)

  /** One entry of `import.meta.glob`: the module's path and its frontmatter,
      if it exports one (the compiled component is not modelled). */
  datatype MdxModule = MdxModule(path: string, frontmatter: Option<Frontmatter>)

  /** The preferred language's module set when it is non-empty, else the other
      language's set, whatever it holds. */
  function SelectModules(language: Language, en: seq<MdxModule>, zh: seq<MdxModule>): (r: seq<MdxModule>)
    ensures r == en || r == zh
    ensures language == Zh ==> r == (if |zh| > 0 then zh else en)
    ensures language == En ==> r == (if |en| > 0 then en else zh)
  {
    var preferred := if language == Zh then zh else en;
    if |preferred| > 0 then preferred
    else if language == Zh then en else zh
  }

  /** `path.split('/').pop() ?? path`: the text after the last `/`. */
  function GetFileName(path: string): (r: string)
    ensures |r| <= |path| && path[|path| - |r|..] == r
    ensures forall i :: 0 <= i < |r| ==> r[i] != '/'
    ensures |r| == |path| || path[|path| - |r| - 1] == '/'
  {
    if path == [] || path[|path| - 1] == '/' then []
    else
      var init := path[..|path| - 1];
      var r := GetFileName(init) + [path[|path| - 1]];
      assert path[|path| - |r|..] == init[|init| - (|r| - 1)..] + [path[|path| - 1]];
      r
  }

  /** `value?.trim() || fallback` for an optional string. */
  function TrimmedOr(value: Option<string>, fallback: string): (r: string)
    ensures value.Some? && TrimJs(value.value) != [] ==> r == TrimJs(value.value)
    ensures value.None? || TrimJs(value.value) == [] ==> r == fallback
  {
    if value.Some? && TrimJs(value.value) != [] then TrimJs(value.value) else fallback
  }

  function FrontmatterOrEmpty(m: MdxModule): Frontmatter {
    if m.frontmatter.Some? then m.frontmatter.value else Frontmatter(None, None, None)
  }

  // ---------------------------------------------------------------------------
  // Resolving the URL's slug

  datatype Resolution =
    | EmptyState           // no documents: the page says so
    | RedirectTo(path: string) // replace the URL
    | Show(index: nat)     // render the document at this index

  /** The index of the first element equal to `x`, or `|xs|`. */
  function FirstIndex(xs: seq<string>, x: string): (i: nat)
    ensures i <= |xs|
    ensures i < |xs| ==> xs[i] == x
    ensures forall j :: 0 <= j < i ==> xs[j] != x
  {
    if xs == [] || xs[0] == x then 0 else 1 + FirstIndex(xs[1..], x)
  }

  /** The page's decision for the slugs of its sorted documents, the route
      parameter and the board's URL segment. */
  function Resolve(slugs: seq<string>, param: Option<string>, board: string): Resolution {
    if |slugs| == 0 then EmptyState
    else if param.None? || param.value == [] || FirstIndex(slugs, param.value) == |slugs| then
      RedirectTo("/docs/" + board + "/" + slugs[0])
    else Show(FirstIndex(slugs, param.value))
  }

  /** The three outcomes and exactly when each happens. */
  lemma ResolveCases(slugs: seq<string>, param: Option<string>, board: string)
    ensures Resolve(slugs, param, board) == EmptyState <==> |slugs| == 0
    ensures Resolve(slugs, param, board).RedirectTo? <==>
      |slugs| > 0 && (param.None? || param.value == [] || param.value !in slugs)
    ensures Resolve(slugs, param, board).RedirectTo? ==>
      Resolve(slugs, param, board).path == "/docs/" + board + "/" + slugs[0]
    ensures Resolve(slugs, param, board).Show? ==>
      var i := Resolve(slugs, param, board).index;
      && param.Some? && i < |slugs| && slugs[i] == param.value
      && forall j :: 0 <= j < i ==> slugs[j] != param.value
  {
    if param.Some? {
      var i := FirstIndex(slugs, param.value);
      if i == |slugs| {
        assert param.value !in slugs;
      } else {
        assert param.value in slugs;
      }
    }
  }

  /** Every sidebar link whose slug equals the shown document's is highlighted,
      and no other: the highlighted items are exactly those carrying the slug
      the URL asked for. */
  lemma HighlightedIffRequested(slugs: seq<string>, param: Option<string>, board: string, j: nat)
    requires Resolve(slugs, param, board).Show?
    requires j < |slugs|
    ensures slugs[j] == slugs[Resolve(slugs, param, board).index] <==> slugs[j] == param.value
  {
    ResolveCases(slugs, param, board);
  }

  // ---------------------------------------------------------------------------
  // The head effect

  /** `docs.find((item) => item.slug === slug) ?? docs[0]`, as an index: the
      document whose title and canonical link the page writes into the head. */
  function ActiveIndex(slugs: seq<string>, param: Option<string>): (r: Option<nat>)
    ensures r.None? <==> slugs == []
    ensures r.Some? ==> r.value < |slugs|
  {
    if slugs == [] then None
    else if param.Some? && FirstIndex(slugs, param.value) < |slugs| then Some(FirstIndex(slugs, param.value))
    else Some(0)
  }

  /** The head describes the document shown; while the page redirects it
      describes the first document, the redirect's target (a route parameter
      that is the empty string can only pick another when some slug is empty). */
  lemma ActiveIndexAgrees(slugs: seq<string>, param: Option<string>, board: string)
    ensures Resolve(slugs, param, board).Show? ==> ActiveIndex(slugs, param) == Some(Resolve(slugs, param, board).index)
    ensures Resolve(slugs, param, board).RedirectTo? && (param.None? || param.value != [] || [] !in slugs) ==>
      ActiveIndex(slugs, param) == Some(0)
    ensures Resolve(slugs, param, board) == EmptyState <==> ActiveIndex(slugs, param).None?
  {
    ResolveCases(slugs, param, board);
    if param.Some? && FirstIndex(slugs, param.value) < |slugs| {
      assert param.value in slugs;
    }
  }

  const SiteOrigin := "https://www.aicodinghub.dev"

  /** `document.title` and the canonical link's `href` for a document. */
  datatype Head = Head(title: string, canonical: string)

  function DocHead(title: string, slug: string, board: string): Head {
    Head(title + " | AI Coding Hub", SiteOrigin + "/docs/" + board + "/" + slug)
  }

  /** When the page redirects, the canonical link already names the page the
      redirect leads to. */
  lemma CanonicalIsRedirectTarget(slugs: seq<string>, titles: seq<string>, param: Option<string>, board: string)
    requires |titles| == |slugs|
    requires Resolve(slugs, param, board).RedirectTo?
    requires param.None? || param.value != [] || [] !in slugs
    ensures ActiveIndex(slugs, param).Some?
    ensures DocHead(titles[ActiveIndex(slugs, param).value], slugs[ActiveIndex(slugs, param).value], board).canonical ==
      SiteOrigin + Resolve(slugs, param, board).path
  {
    ActiveIndexAgrees(slugs, param, board);
    ResolveCases(slugs, param, board);
  }
}
