/** App.tsx: the route table of the site and the dispatch of `/docs/:category`
    to the page of each documentation board. */
module AppRoutes {
  import opened Wrappers
  import opened Text
  import opened EntryRoutes
  import opened UriDecode

  datatype Page = Home | ClaudeDocs | GeminiDocs | OpenCodeDocs | CodexDocs | PlaybookDocs | Privacy | Terms

  /** What a route renders: a page, or `<Navigate to=… replace />`. */
  datatype Element = Render(page: Page) | Navigate(to: string, replace: bool)

  predicate IsBoardPage(p: Page) {
    p in {ClaudeDocs, GeminiDocs, OpenCodeDocs, CodexDocs, PlaybookDocs}
  }

  /** `DocsCategoryRoute`: each board renders its own page; any other
      category is replaced by the claude entry route. */
  function DocsCategoryRoute(category: string): (e: Element)
    ensures category in DocEntryRoutes <==> e.Render?
    ensures e.Render? ==> IsBoardPage(e.page)
    ensures !e.Render? ==> e == Navigate(DocEntryRoutes["claude"], true)
  {
    if category == "claude" then Render(ClaudeDocs)
    else if category == "gemini" then Render(GeminiDocs)
    else if category == "opencode" then Render(OpenCodeDocs)
    else if category == "codex" then Render(CodexDocs)
    else if category == "playbook" then Render(PlaybookDocs)
    else Navigate(DocEntryRoutes["claude"], true)
  }

  /** No two boards share a page. */
  lemma DispatchInjective(a: string, b: string)
    requires DocsCategoryRoute(a).Render? && DocsCategoryRoute(a) == DocsCategoryRoute(b)
    ensures a == b
  {
  }

  // ---------------------------------------------------------------------------
  // Path matching

  /** A segment of a route pattern: a fixed name or a `:param`. */
  datatype Seg = Static(name: string) | Param

  /** The `/`-separated pieces of a path, without the empty pieces that
      trailing slashes leave (the router accepts `/docs/` as `/docs`). */
  function Pieces(path: string): (p: seq<string>)
    ensures p != []
  {
    DropTrailingEmpty(SplitOn(path, '/'))
  }

  function DropTrailingEmpty(p: seq<string>): (q: seq<string>)
    requires p != []
    ensures q != [] && |q| <= |p| && q == p[..|q|]
    ensures |q| > 1 ==> q[|q| - 1] != ""
    ensures forall i :: |q| <= i < |p| ==> p[i] == ""
  {
    if |p| > 1 && p[|p| - 1] == "" then DropTrailingEmpty(p[..|p| - 1]) else p
  }

  /** A fixed name (written in lower case) matches regardless of ASCII
      case; a parameter matches any non-empty piece. */
  predicate SegMatches(seg: Seg, piece: string) {
    match seg
    case Static(name) => Lower(piece) == name
    case Param => piece != ""
  }

  /** The pieces are `""` (the leading `/`) and one piece per segment. */
  predicate PiecesMatch(pattern: seq<Seg>, p: seq<string>) {
    && |p| == |pattern| + 1 && p[0] == ""
    && forall i :: 0 <= i < |pattern| ==> SegMatches(pattern[i], p[i + 1])
  }

  const RootPattern: seq<Seg> := []
  const CategoryPattern: seq<Seg> := [Static("docs"), Param]
  const SlugPattern: seq<Seg> := [Static("docs"), Param, Param]
  const PrivacyPattern: seq<Seg> := [Static("privacy")]
  const TermsPattern: seq<Seg> := [Static("terms")]
  const DocsPattern: seq<Seg> := [Static("docs")]

  /** The patterns of the table other than the catch-all `*`. */
  const Patterns: seq<seq<Seg>> := [RootPattern, CategoryPattern, SlugPattern, PrivacyPattern, TermsPattern, DocsPattern]

  /** The table on the pieces of a path. */
  function RouteOf(p: seq<string>): Element
    requires p != []
  {
    if PiecesMatch(RootPattern, p) then Render(Home)
    else if PiecesMatch(CategoryPattern, p) then DocsCategoryRoute(p[2])
    else if PiecesMatch(SlugPattern, p) then DocsCategoryRoute(p[2])
    else if PiecesMatch(PrivacyPattern, p) then Render(Privacy)
    else if PiecesMatch(TermsPattern, p) then Render(Terms)
    else if PiecesMatch(DocsPattern, p) then Navigate(DocEntryRoutes["claude"], true)
    else Navigate("/", true)
  }

  // ---------------------------------------------------------------------------
  // Percent-decoding

  /** The pieces decoded one by one with `decodeURIComponent`; None when one
      of them is malformed. */
  function DecodePieces(p: seq<string>): (r: Option<seq<string>>)
    ensures r.Some? <==> forall i :: 0 <= i < |p| ==> DecodeUriComponent(p[i]).Some?
    ensures r.Some? ==> |r.value| == |p| && forall i :: 0 <= i < |p| ==> DecodeUriComponent(p[i]) == Some(r.value[i])
  {
    if p == [] then Some([])
    else match (DecodeUriComponent(p[0]), DecodePieces(p[1..]))
      case (Some(d), Some(ds)) => Some([d] + ds)
      case _ => None
  }

  /** The router's `decodePath`: the pieces of the path decoded, or all left
      as they are when one of them is malformed. */
  function RouterPieces(path: string): (p: seq<string>)
    ensures p != [] && |p| == |Pieces(path)|
  {
    match DecodePieces(Pieces(path))
    case Some(d) => d
    case None => Pieces(path)
  }

  /** A piece as the router compares it, were it the only one. */
  function Decoded(s: string): string {
    match DecodeUriComponent(s)
    case Some(d) => d
    case None => s
  }

  /** Pieces that all decode take their decoded values. */
  lemma DecodedPieces(p: seq<string>, q: seq<string>)
    requires |p| == |q| && forall i :: 0 <= i < |p| ==> DecodeUriComponent(p[i]) == Some(q[i])
    ensures DecodePieces(p) == Some(q)
  {
    assert DecodePieces(p).value == q;
  }

  /** When every piece of a path decodes, the router sees the decoded pieces. */
  lemma RouterPiecesDecoded(path: string, q: seq<string>)
    requires |q| == |Pieces(path)|
    requires forall i :: 0 <= i < |q| ==> DecodeUriComponent(Pieces(path)[i]) == Some(q[i])
    ensures RouterPieces(path) == q
  {
    DecodedPieces(Pieces(path), q);
  }

  /** When one piece is malformed, the router sees the pieces as they are. */
  lemma RouterPiecesRaw(path: string, i: nat)
    requires i < |Pieces(path)| && DecodeUriComponent(Pieces(path)[i]).None?
    ensures RouterPieces(path) == Pieces(path)
  {
  }

  /** The `<Routes>` table: the element shown for a location's path. */
  function Route(path: string): Element {
    RouteOf(RouterPieces(path))
  }

  /** A piece with no upper-case letter is its own lower case. */
  lemma LowerUnchanged(s: string)
    requires forall i :: 0 <= i < |s| ==> !('A' <= s[i] <= 'Z')
    ensures Lower(s) == s
  {
  }

  /** No list of pieces matches two patterns of the table, so the router's
      ranking of routes never decides between them and the order of the
      table is immaterial. */
  lemma PatternsExclusive(p: seq<string>, i: nat, j: nat)
    requires i < j < |Patterns|
    ensures !(PiecesMatch(Patterns[i], p) && PiecesMatch(Patterns[j], p))
  {
    if |Patterns[i]| == |Patterns[j]| && |Patterns[i]| > 0 && |p| > 1 {
      assert SegMatches(Patterns[i][0], p[1]) ==> !SegMatches(Patterns[j][0], p[1]);
    }
  }

  lemma DocPathJoin(c: string, slug: string)
    ensures Join(["", "docs", c, slug], "/") == DocPath(c, slug)
    ensures Join(["", "docs", c], "/") == "/docs/" + c
  {
    assert Join([c, slug], "/") == c + "/" + slug;
    assert Join(["docs", c, slug], "/") == "docs" + "/" + (c + "/" + slug);
    assert Join(["docs", c], "/") == "docs" + "/" + c;
    assert "" + "/" + ("docs" + "/" + c) == "/docs/" + c;
  }

  /** The pieces of the path of a document. */
  lemma DocPathPieces(c: string, slug: string)
    requires c != "" && '/' !in c && slug != "" && '/' !in slug
    ensures Pieces(DocPath(c, slug)) == ["", "docs", c, slug]
  {
    DocPathJoin(c, slug);
    SplitJoin(["", "docs", c, slug], '/');
  }

  /** The pieces of the path of a board. */
  lemma CategoryPathPieces(c: string)
    requires c != "" && '/' !in c
    ensures Pieces("/docs/" + c) == ["", "docs", c]
  {
    DocPathJoin(c, "");
    SplitJoin(["", "docs", c], '/');
  }

  lemma DocsDecodes()
    ensures DecodeUriComponent("") == Some("") && DecodeUriComponent("docs") == Some("docs")
  {
    DecodeUnescaped("docs");
  }

  /** The router sees `"", "docs", c` decoded, or as it is when `c` is
      malformed. */
  lemma CategoryPiecesDecoded(c: string)
    requires c != "" && '/' !in c
    ensures RouterPieces("/docs/" + c) == ["", "docs", Decoded(c)]
  {
    CategoryPathPieces(c);
    if DecodeUriComponent(c).Some? {
      DocsDecodes();
      RouterPiecesDecoded("/docs/" + c, ["", "docs", Decoded(c)]);
    } else {
      RouterPiecesRaw("/docs/" + c, 2);
    }
  }

  /** The router sees `"", "docs", c, slug` decoded, or as it is when a
      piece is malformed. */
  lemma DocPiecesDecoded(c: string, slug: string)
    requires c != "" && '/' !in c && slug != "" && '/' !in slug
    ensures RouterPieces(DocPath(c, slug)) ==
      if DecodeUriComponent(c).Some? && DecodeUriComponent(slug).Some? then ["", "docs", Decoded(c), Decoded(slug)]
      else ["", "docs", c, slug]
  {
    DocPathPieces(c, slug);
    if DecodeUriComponent(c).Some? && DecodeUriComponent(slug).Some? {
      DocsDecodes();
      RouterPiecesDecoded(DocPath(c, slug), ["", "docs", Decoded(c), Decoded(slug)]);
    } else if DecodeUriComponent(c).None? {
      RouterPiecesRaw(DocPath(c, slug), 2);
    } else {
      RouterPiecesRaw(DocPath(c, slug), 3);
    }
  }

  /** Pieces of the shape `/docs/:category` go to the dispatch. */
  lemma CategoryShape(p: seq<string>)
    requires |p| == 3 && p[0] == "" && p[1] == "docs" && p[2] != ""
    ensures p != [] && RouteOf(p) == DocsCategoryRoute(p[2])
  {
    LowerUnchanged("docs");
    assert PiecesMatch(CategoryPattern, p);
  }

  /** Pieces of the shape `/docs/:category/:slug` go to the dispatch. */
  lemma SlugShape(p: seq<string>)
    requires |p| == 4 && p[0] == "" && p[1] == "docs" && p[2] != "" && p[3] != ""
    ensures p != [] && RouteOf(p) == DocsCategoryRoute(p[2])
  {
    LowerUnchanged("docs");
    assert PiecesMatch(SlugPattern, p);
  }

  /** `/docs/:category` and `/docs/:category/:slug` go through the same
      dispatch on the category, as decoded; a malformed piece leaves the
      whole path as it is. */
  lemma BothShapesDispatch(c: string, slug: string)
    requires c != "" && '/' !in c && slug != "" && '/' !in slug
    ensures Route("/docs/" + c) == DocsCategoryRoute(Decoded(c))
    ensures Route(DocPath(c, slug)) == DocsCategoryRoute(if DecodeUriComponent(slug).Some? then Decoded(c) else c)
  {
    CategoryPiecesDecoded(c);
    CategoryShape(["", "docs", Decoded(c)]);
    DocPiecesDecoded(c, slug);
    SlugShape(RouterPieces(DocPath(c, slug)));
  }

  /** No board name and no slug of an entry route holds a `%`. */
  lemma EntryUnescaped(k: string)
    requires k in DocEntryRoutes
    ensures '%' !in k && '%' !in EntrySlug(k)
  {
    if k == "claude" {
      assert '%' !in "claude-code-overview";
    } else if k == "gemini" {
      assert '%' !in "quickstart-installation";
    } else if k == "opencode" {
      assert '%' !in "opencode-intro";
    } else if k == "codex" {
      assert '%' !in "authentication";
    } else {
      assert '%' !in "claude-code-token-context-surgery";
    }
  }

  /** Every entry route renders its own board's page: following a nav link
      never redirects. */
  lemma EntryRouteRenders(k: string)
    requires k in DocEntryRoutes
    ensures Route(DocEntryRoutes[k]) == DocsCategoryRoute(k)
    ensures Route(DocEntryRoutes[k]).Render?
  {
    EntryUnescaped(k);
    DecodeUnescaped(k);
    DecodeUnescaped(EntrySlug(k));
    BothShapesDispatch(k, EntrySlug(k));
  }

  lemma EscapedClaude()
    ensures DecodeUriComponent("%63laude") == Some("claude")
  {
    var c, t := "%63laude", "laude";
    assert EscapedByte(c, 0) == Some(0x63);
    assert DecodeEscape(c) == Some(('c', 3));
    assert c[3..] == t;
    DecodeUnescaped(t);
    DecodeStep(c, 'c', 3, t);
    assert ['c'] + t == "claude";
  }

  lemma MalformedZz()
    ensures DecodeUriComponent("%zz").None?
  {
    assert EscapedByte("%zz", 0).None?;
  }

  lemma EscapedPieces()
    ensures '/' !in "%63laude" && '/' !in "%zz" && "%63laude" !in DocEntryRoutes
  {
    assert "%63laude"[0] == '%';
  }

  /** The router decodes before it matches: `/docs/%63laude` is the claude
      board, while a malformed piece such as `%zz` leaves the path as it is,
      so `%63laude` is then no board and the request is redirected. */
  lemma EscapedCategory()
    ensures Route("/docs/" + "%63laude") == Render(ClaudeDocs)
    ensures Route(DocPath("%63laude", "%zz")) == Navigate(DocEntryRoutes["claude"], true)
  {
    var c, z := "%63laude", "%zz";
    EscapedClaude();
    MalformedZz();
    EscapedPieces();
    BothShapesDispatch(c, z);
  }

  lemma DocsPieces()
    ensures Pieces("/docs") == ["", "docs"]
  {
    SplitJoin(["", "docs"], '/');
    assert Join(["", "docs"], "/") == "/docs";
  }

  /** `/docs` redirects to the claude entry route. */
  lemma DocsRedirects()
    ensures Route("/docs") == Navigate(DocEntryRoutes["claude"], true)
  {
    DocsPieces();
    DecodeUnescaped("");
    DecodeUnescaped("docs");
    DecodedPieces(["", "docs"], ["", "docs"]);
    DocsPiecesRoute(["", "docs"]);
  }

  /** The pieces `"", "docs"` match `/docs` and no other pattern. */
  lemma DocsPiecesRoute(p: seq<string>)
    requires p == ["", "docs"]
    ensures RouteOf(p) == Navigate(DocEntryRoutes["claude"], true)
  {
    LowerUnchanged("docs");
    assert Lower(p[1]) == "docs";
    assert !SegMatches(PrivacyPattern[0], p[1]) && !SegMatches(TermsPattern[0], p[1]);
    assert PiecesMatch(DocsPattern, p);
  }

  /** A redirect goes either to the claude entry route or to `/`. */
  lemma RedirectTargets(p: seq<string>)
    requires p != []
    ensures RouteOf(p).Navigate? ==> RouteOf(p).to in {DocEntryRoutes["claude"], "/"}
  {
  }

  /** No pattern of the table other than `*` matches. */
  predicate MatchesNone(p: seq<string>) {
    && !PiecesMatch(RootPattern, p) && !PiecesMatch(CategoryPattern, p) && !PiecesMatch(SlugPattern, p)
    && !PiecesMatch(PrivacyPattern, p) && !PiecesMatch(TermsPattern, p) && !PiecesMatch(DocsPattern, p)
  }

  /** A path goes to `/` exactly when no pattern of the table matches it. */
  lemma UnmatchedGoesHome(p: seq<string>)
    requires p != []
    ensures RouteOf(p) == Navigate("/", true) <==> MatchesNone(p)
  {
    var claude := DocEntryRoutes["claude"];
    assert claude != "/" by {
      assert claude == DocPath("claude", EntrySlug("claude"));
    }
  }

  /** The root renders the home page. */
  lemma RootRendersHome()
    ensures Route("/") == Render(Home)
  {
    assert Pieces("/") == [""] by {
      SplitJoin(["", ""], '/');
      assert Join(["", ""], "/") == "/";
    }
    DecodeUnescaped("");
    DecodedPieces([""], [""]);
    assert PiecesMatch(RootPattern, [""]);
  }

  /** Every redirect lands, one hop later, on a rendered page. */
  lemma RedirectsLand(path: string)
    ensures Route(path).Navigate? ==> Route(Route(path).to).Render?
  {
    RedirectTargets(RouterPieces(path));
    EntryRouteRenders("claude");
    RootRendersHome();
  }
}
