/** components/Layout.tsx: the frame around every page — which board of the
    navigation bar is highlighted, and the theme, language, search and
    mobile-menu state driven by its buttons, the keyboard and navigation. */
module Layout {
  import opened Text
  import opened EntryRoutes

  /** `isDocsCategoryActive`: the path is the board's root or lies under it. */
  predicate IsDocsCategoryActive(pathname: string, category: string) {
    pathname == "/docs/" + category || StartsWith(pathname, "/docs/" + category + "/")
  }

  /** The position of the first `/` in `s`, or `|s|`. */
  function FirstSlash(s: string): (i: nat)
    ensures i <= |s| && '/' !in s[..i]
    ensures i < |s| ==> s[i] == '/'
  {
    if s == [] || s[0] == '/' then 0 else 1 + FirstSlash(s[1..])
  }

  lemma {:induction false} FirstSlashAfter(x: string, y: string)
    requires '/' !in x && (y == "" || y[0] == '/')
    ensures FirstSlash(x + y) == |x|
  {
    if x != [] {
      assert (x + y)[1..] == x[1..] + y;
      FirstSlashAfter(x[1..], y);
    } else {
      assert x + y == y;
    }
  }

  /** The path is `root` or lies under it. */
  predicate AtOrUnder(path: string, root: string) {
    path == root || StartsWith(path, root + "/")
  }

  /** Below a common prefix, a segment free of `/` decides which roots the
      path is at or under. */
  lemma AtOrUnderSegment(pre: string, c: string, d: string, rest: string)
    requires '/' !in c && '/' !in d
    requires rest == "" || rest[0] == '/'
    ensures AtOrUnder(pre + c + rest, pre + d) <==> c == d
  {
    if c == d {
      if rest != "" {
        assert pre + c + rest == (pre + d + "/") + rest[1..];
      }
    }
    if AtOrUnder(pre + c + rest, pre + d) {
      var path := pre + c + rest;
      assert path == pre + (c + rest);
      if path == pre + d {
        assert d + "" == d;
        CancelPrefix(pre, c + rest, d + "");
        SameSegment(c, rest, d, "");
      } else {
        var u := path[|pre + d + "/"|..];
        assert path == pre + d + "/" + u;
        assert pre + d + "/" + u == pre + (d + ("/" + u));
        CancelPrefix(pre, c + rest, d + ("/" + u));
        SameSegment(c, rest, d, "/" + u);
      }
    }
  }

  lemma CancelPrefix(pre: string, x: string, y: string)
    requires pre + x == pre + y
    ensures x == y
  {
    assert x == (pre + x)[|pre|..];
  }

  /** Two ways of writing the same string as a segment free of `/` followed
      by nothing or by `/…` have the same segment. */
  lemma SameSegment(c: string, r1: string, d: string, r2: string)
    requires '/' !in c && '/' !in d
    requires r1 == "" || r1[0] == '/'
    requires r2 == "" || r2[0] == '/'
    requires c + r1 == d + r2
    ensures c == d
  {
    FirstSlashAfter(c, r1);
    FirstSlashAfter(d, r2);
    assert c == (c + r1)[..|c|];
    assert d == (d + r2)[..|d|];
  }

  /** A path under a board activates exactly that board among boards whose
      keys hold no `/`: so `/docs/claudex` does not activate `claude`. */
  lemma ActiveOnlyOwnBoard(c: string, d: string, rest: string)
    requires '/' !in c && '/' !in d
    requires rest == "" || rest[0] == '/'
    ensures IsDocsCategoryActive("/docs/" + c + rest, d) <==> c == d
  {
    AtOrUnderSegment("/docs/", c, d, rest);
  }

  /** Each navigation link targets its board's entry route, which activates
      that board and no other. */
  lemma NavLinkHighlight(k: string, d: string)
    requires k in DocEntryRoutes && d in DocEntryRoutes
    ensures IsDocsCategoryActive(DocEntryRoutes[k], d) <==> k == d
  {
    var slug := EntrySlug(k);
    var _ := EntrySlug(d);
    DocPathSplit(k, slug);
    ActiveOnlyOwnBoard(k, d, "/" + slug);
  }

  lemma DocPathSplit(c: string, slug: string)
    ensures DocPath(c, slug) == "/docs/" + c + ("/" + slug)
  {
  }

  datatype Language = En | Zh

  /** The language button: `en` becomes `zh`, anything else `en`. */
  function Switched(language: Language): (l: Language)
    ensures l != language
  {
    if language == En then Zh else En
  }

  /** Two presses of the language button restore the language. */
  lemma SwitchedTwice(language: Language)
    ensures Switched(Switched(language)) == language
  {
  }

  /** The state of the frame: the four pieces of React state, the current
      location, and the class list of the document root that the theme
      effect keeps in step with `isDark`. */
  class Frame {
    var isDark: bool
    var language: Language
    var isSearchOpen: bool
    var isMobileMenuOpen: bool
    var pathname: string
    var rootClasses: set<string>

    /** The `dark` class is present exactly when the theme is dark. */
    predicate Valid()
      reads this
    {
      "dark" in rootClasses <==> isDark
    }

    /** The first render: dark theme, search and menu closed, and the theme
        effect has run once. */
    constructor(language: Language, pathname: string, rootClasses: set<string>)
      ensures Valid()
      ensures isDark && !isSearchOpen && !isMobileMenuOpen
      ensures this.language == language && this.pathname == pathname
      ensures this.rootClasses == rootClasses + {"dark"}
    {
      isDark := true;
      this.language := language;
      isSearchOpen := false;
      isMobileMenuOpen := false;
      this.pathname := pathname;
      this.rootClasses := rootClasses + {"dark"};
    }

    /** The theme effect: add or remove `dark`, leaving other classes alone. */
    method ApplyTheme()
      modifies this
      ensures Valid()
      ensures rootClasses - {"dark"} == old(rootClasses) - {"dark"}
      ensures isDark == old(isDark) && language == old(language) && pathname == old(pathname)
      ensures isSearchOpen == old(isSearchOpen) && isMobileMenuOpen == old(isMobileMenuOpen)
    {
      if isDark {
        rootClasses := rootClasses + {"dark"};
      } else {
        rootClasses := rootClasses - {"dark"};
      }
    }

    /** The theme button, followed by the theme effect. */
    method ToggleTheme()
      modifies this
      ensures Valid() && isDark == !old(isDark)
      ensures rootClasses - {"dark"} == old(rootClasses) - {"dark"}
      ensures language == old(language) && pathname == old(pathname)
      ensures isSearchOpen == old(isSearchOpen) && isMobileMenuOpen == old(isMobileMenuOpen)
    {
      isDark := !isDark;
      ApplyTheme();
    }

    /** The language button. */
    method ToggleLanguage()
      modifies this
      ensures language == Switched(old(language))
      ensures isDark == old(isDark) && rootClasses == old(rootClasses) && pathname == old(pathname)
      ensures isSearchOpen == old(isSearchOpen) && isMobileMenuOpen == old(isMobileMenuOpen)
    {
      language := Switched(language);
    }

    /** The window `keydown` listener: `k` with Meta or Ctrl opens the search
        and suppresses the browser's default; other keys change nothing. */
    method KeyDown(key: string, metaKey: bool, ctrlKey: bool) returns (preventDefault: bool)
      modifies this
      ensures preventDefault <==> key == "k" && (metaKey || ctrlKey)
      ensures isSearchOpen == (preventDefault || old(isSearchOpen))
      ensures isDark == old(isDark) && language == old(language) && rootClasses == old(rootClasses)
      ensures isMobileMenuOpen == old(isMobileMenuOpen) && pathname == old(pathname)
    {
      preventDefault := false;
      if key == "k" && (metaKey || ctrlKey) {
        preventDefault := true;
        isSearchOpen := true;
      }
    }

    /** Either search button. */
    method OpenSearch()
      modifies this
      ensures isSearchOpen
      ensures isDark == old(isDark) && language == old(language) && rootClasses == old(rootClasses)
      ensures isMobileMenuOpen == old(isMobileMenuOpen) && pathname == old(pathname)
    {
      isSearchOpen := true;
    }

    /** The command palette's `onClose`. */
    method CloseSearch()
      modifies this
      ensures !isSearchOpen
      ensures isDark == old(isDark) && language == old(language) && rootClasses == old(rootClasses)
      ensures isMobileMenuOpen == old(isMobileMenuOpen) && pathname == old(pathname)
    {
      isSearchOpen := false;
    }

    /** The menu button. */
    method ToggleMobileMenu()
      modifies this
      ensures isMobileMenuOpen == !old(isMobileMenuOpen)
      ensures isDark == old(isDark) && language == old(language) && rootClasses == old(rootClasses)
      ensures isSearchOpen == old(isSearchOpen) && pathname == old(pathname)
    {
      isMobileMenuOpen := !isMobileMenuOpen;
    }

    /** A change of location, followed by the effect that closes the menu. */
    method LocationChanged(newPathname: string)
      modifies this
      ensures pathname == newPathname && !isMobileMenuOpen
      ensures isDark == old(isDark) && language == old(language) && rootClasses == old(rootClasses)
      ensures isSearchOpen == old(isSearchOpen)
    {
      pathname := newPathname;
      isMobileMenuOpen := false;
    }

    /** Whether the navigation link of a board is highlighted. */
    predicate NavActive(category: string)
      reads this
    {
      IsDocsCategoryActive(pathname, category)
    }
  }

  /** Following a board's navigation link closes the mobile menu and
      highlights that board and no other. */
  method FollowNavLink(frame: Frame, k: string) returns (highlighted: seq<string>)
    requires k in DocEntryRoutes
    modifies frame
    ensures !frame.isMobileMenuOpen && frame.pathname == DocEntryRoutes[k]
    ensures highlighted == [k]
  {
    frame.LocationChanged(DocEntryRoutes[k]);
    highlighted := [];
    for i := 0 to |Categories|
      invariant highlighted == if k in Categories[..i] then [k] else []
      invariant frame.pathname == DocEntryRoutes[k] && !frame.isMobileMenuOpen
    {
      var d := Categories[i];
      CategoriesAreKeys(d);
      NavLinkHighlight(k, d);
      if frame.NavActive(d) {
        highlighted := highlighted + [d];
      }
    }
    CategoriesAreKeys(k);
    assert Categories[..|Categories|] == Categories;
  }
}
