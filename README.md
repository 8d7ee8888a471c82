# ai-coding-hub, modelled in Dafny

ai-coding-hub is a bilingual (Chinese and English) documentation site for AI
coding tools, built with React and MDX, plus the build scripts that maintain
its content. This project models the logic of that site and its scripts, and
proves properties about it:

- **Docs pages.** The Gemini and Playbook docs pages (`GeminiDocs`,
  `PlaybookDocs`) do the following:
  - pick the module set of the preferred language, or the other language's
    whole set when the preferred one is empty;
  - parse Gemini file names such as `1. Category - 1.2 Sub - Title_final.mdx`
    into metadata;
  - resolve each item's title, slug, description and ordering fields;
  - derive URL slugs (`toSafeSlug`);
  - sort the items stably with numeric collation;
  - build the Gemini sidebar tree (category, then sub-category, then docs);
  - resolve the active document: the empty state, a redirect to the first
    document, or the first document whose slug matches.
- **Routing and layout.**
  - The entry-route table of the five boards (`docEntryRoutes`).
  - The category dispatch and redirects of `App`, on the path as the router
    sees it: split at `/`, each piece percent-decoded with
    `decodeURIComponent`, which is modelled after ECMA-262.
  - The nav highlighting predicate of `Layout`.
  - The theme, language, search and mobile-menu state of `Layout`, as a class.
- **Ads.**
  - The consent state machine over a storage map (`AdConsentContext`).
  - The consent-gated loader that appends scripts to `document.head` at most
    once per id (`AdNetworkLoader`). The head is modelled as a list of
    scripts.
- **Code blocks.** `MdxCodeBlock`: flattening of a React node tree to its
  text, and the copy button's `copied` flag.
- **Sitemap.** `scripts/generate-sitemap.mjs`:
  - reads slugs out of the frontmatter;
  - builds the URL set over a directory listing given as input;
  - sorts the URLs;
  - classifies each URL's change frequency and priority under version 0.9 of
    the sitemaps.org protocol;
  - writes one `<url>` block per URL.
- **MDX table checker.** `scripts/check-mdx-tables.mjs`:
  - the fence mask;
  - the splitting of pipe rows into cells, with backslash escapes and
    backtick code spans;
  - the delimiter-row test;
  - the column-count scan that reports issues with their line numbers.
- **Bilingual migration script.** The text helpers of
  `scripts/migrate_docs_bilingual.py`:
  - `slugify` from its ASCII stage on, and the slug-keep rule of
    `prepare_en_fields`;
  - `parse_frontmatter` and `compose_mdx`;
  - `quote_yaml` and `normalize_html`;
  - `remove_imports` and `apply_codex_image_italic_rule`;
  - `split_translation_chunks` and `ensure_ads`.

The project has one Dafny module per source file. Where the source runs a
loop or mutates an array, map or list, the model does the same in a method.
That method is proved against a specification function, and the properties
are proved as lemmas about that function. The source's objects with state
become classes (`Layout.Frame`, `AdConsent.Provider`, `AdLoader.Document`,
`CodeBlock.CopyButton`).

Several modules are shared:

- `Text` holds JavaScript's `trim` and Python's `strip` over their own
  white-space sets, `splitlines`, `split`, `join` and `replace`.
- `Collation` is the numeric, case-insensitive string order.
- `StableSort` is `Array.prototype.sort`: stable, for any total preorder.
- `Regex` is a backtracking matcher for the part of JavaScript regular
  expressions that the site's patterns use.
- `Slug` holds `toSafeSlug` (written identically in three source files) and
  `slugify`.

## Model

| member | source | states |
|---|---|---|
| EntryRoutes.GetDocEntryRoute | data/docEntryRoutes.ts:9-31 | a known board id gets its own table entry, any other id the claude entry; the result is always one of the table's routes |
| EntryRoutes.CategoriesAreKeys | data/docEntryRoutes.ts:1-7 | the table's keys are exactly the five boards claude, gemini, opencode, codex, playbook |
| EntryRoutes.EntrySlug | data/docEntryRoutes.ts:1-7 | every entry route is `/docs/<board>/<slug>` with a non-empty slug of one segment |
| AdConsent.StatusText | context/AdConsentContext.tsx:24-27 | a decision is stored as `granted` or `denied` |
| AdConsent.ParseStored | context/AdConsentContext.tsx:18-20 | a stored value counts exactly when it is one of the two decision strings, and never stands for `unknown` |
| AdConsent.ParseStatusText | context/AdConsentContext.tsx:17-27 | storing a decision and reading it back gives the same decision |
| AdConsent.GetItem | context/AdConsentContext.tsx:18 | `localStorage.getItem` yields the stored value of a present key and nothing for an absent one |
| AdConsent.Provider.constructor | context/AdConsentContext.tsx:15 | the first render has status `unknown`, whatever is stored |
| AdConsent.Provider.Restore | context/AdConsentContext.tsx:17-22 | the mount effect adopts a stored decision and otherwise keeps the status; storage is untouched; a decided status stays decided |
| AdConsent.Provider.SetConsent | context/AdConsentContext.tsx:24-27 | the decision becomes the status and is stored under `ai-coding-hub-ad-consent-v1`; every other key is kept |
| AdConsent.DecisionSurvivesReload | context/AdConsentContext.tsx:14-27 | a new provider over the storage written by `setConsent` restores the same decision after mounting |
| AdConsent.UseAdConsent | context/AdConsentContext.tsx:40-45 | inside a provider the hook returns the context value; outside it fails with the provider error message |
| AdLoader.ReadEnv | components/AdNetworkLoader.tsx:7-11 | a string variable gives its trimmed value; a missing environment, a missing key or a non-string gives `''` |
| AdLoader.ReadEnvTrimmed | components/AdNetworkLoader.tsx:7-11 | what `readEnv` returns has no white space at either end |
| AdLoader.EncodeUriComponent | components/AdNetworkLoader.tsx:44 | the encoding is at least as long as its input and uses only unreserved characters, `%` and upper-case hex digits |
| AdLoader.EncodeUnreserved | components/AdNetworkLoader.tsx:44 | a client id made only of unreserved characters is inserted into the URL unchanged |
| AdLoader.EncodedStaysInParameter | components/AdNetworkLoader.tsx:44 | the encoded client id holds no `&`, `=`, `#`, `?`, `/` or space, so it cannot break out of the `client` parameter |
| AdLoader.Utf8 | components/AdNetworkLoader.tsx:44 | each character encodes to one to four bytes, each below 256 |
| AdLoader.PercentByte | components/AdNetworkLoader.tsx:44 | a byte becomes `%` followed by two upper-case hex digits |
| AdLoader.PercentBytes | components/AdNetworkLoader.tsx:44 | a byte sequence becomes three characters per byte, all `%` or upper-case hex digits |
| AdLoader.AppendedSpec | components/AdNetworkLoader.tsx:13-30 | `appendScript` does nothing for an empty `src` or an id already present; otherwise it adds exactly one async script with that id at the end; ids stay distinct |
| AdLoader.AppendedIdempotent | components/AdNetworkLoader.tsx:13-16 | appending the same script twice equals appending it once |
| AdLoader.Document.constructor | components/AdNetworkLoader.tsx:29 | the document starts with the given head |
| AdLoader.Document.AppendScript | components/AdNetworkLoader.tsx:13-30 | the head after the call is the head `appendScript` specifies for that id, `src` and attributes |
| AdLoader.Document.RunEffect | components/AdNetworkLoader.tsx:35-53 | the head after the effect is what the status and environment specify |
| AdLoader.NoConsentNoScripts | components/AdNetworkLoader.tsx:36-38 | without a granted status the effect leaves the head alone |
| AdLoader.EffectIdempotent | components/AdNetworkLoader.tsx:35-53 | the effect only appends, adds at most two scripts, keeps ids distinct, and running it again adds nothing |
| AdLoader.AdsenseLoaded | components/AdNetworkLoader.tsx:40-47 | with consent, the AdSense script is present afterwards exactly when a client id is configured or it was already there; a new one carries the encoded client id and `crossorigin="anonymous"` |
| AdLoader.AdsterraLoaded | components/AdNetworkLoader.tsx:49-52 | with consent, the Adsterra script is present afterwards exactly when an `http://` or `https://` URL is configured or it was already there; a newly added one is the last script, loads that URL and has no other attribute |
| AppRoutes.DocsCategoryRoute | App.tsx:17-41 | a category renders a page exactly when it is one of the five boards, and then a board page; any other category is replaced by the claude entry route |
| AppRoutes.DispatchInjective | App.tsx:17-41 | no two categories render the same page |
| AppRoutes.DropTrailingEmpty | App.tsx:50-59 | trailing empty pieces, and only those, are dropped, keeping at least one piece |
| AppRoutes.PatternsExclusive | App.tsx:51-57 | no path matches two patterns of the table, so the order of the routes is immaterial |
| AppRoutes.DecodePieces | App.tsx:50-59 | the pieces decode exactly when each of them does, and then each piece becomes its own decoding |
| AppRoutes.RouterPiecesDecoded | App.tsx:50-59 | when every piece of a path decodes, the route table matches the decoded pieces |
| AppRoutes.RouterPiecesRaw | App.tsx:50-59 | when one piece of a path is malformed, the route table matches the path as it is |
| AppRoutes.DocPathPieces | App.tsx:53 | the path of a document splits into `""`, `docs`, the board and the slug |
| AppRoutes.CategoryPathPieces | App.tsx:52 | the path of a board splits into `""`, `docs` and the board |
| AppRoutes.CategoryPiecesDecoded | App.tsx:52 | the router sees `/docs/<c>` as `""`, `docs` and `c` decoded, or `c` as it is when it is malformed |
| AppRoutes.DocPiecesDecoded | App.tsx:53 | the router sees `/docs/<c>/<slug>` with both pieces decoded, or the whole path as it is when either piece is malformed |
| AppRoutes.CategoryShape | App.tsx:52 | pieces `""`, `docs` and a non-empty category render `DocsCategoryRoute` of that category |
| AppRoutes.SlugShape | App.tsx:53 | pieces `""`, `docs`, a non-empty category and a non-empty slug render `DocsCategoryRoute` of that category |
| AppRoutes.BothShapesDispatch | App.tsx:52-53 | `/docs/:category` and `/docs/:category/:slug` both dispatch on the decoded category; if a piece is malformed, they dispatch on the category as written |
| AppRoutes.EntryUnescaped | data/docEntryRoutes.ts:1-7 | no board name and no slug of an entry route contains `%` |
| AppRoutes.EntryRouteRenders | App.tsx:52-53 | every entry route renders its own board's page without a redirect |
| AppRoutes.EscapedClaude | App.tsx:52 | `%63laude` decodes to `claude` |
| AppRoutes.MalformedZz | App.tsx:53 | `%zz` is malformed |
| AppRoutes.EscapedCategory | App.tsx:52-53 | `/docs/%63laude` renders the claude board; `/docs/%63laude/%zz` keeps its undecoded pieces, so it redirects to the claude entry route |
| AppRoutes.DocsRedirects | App.tsx:57 | `/docs` redirects, replacing history, to the claude entry route |
| AppRoutes.RedirectTargets | App.tsx:40 | a redirect goes either to the claude entry route or to `/` |
| AppRoutes.UnmatchedGoesHome | App.tsx:58 | a path redirects to `/` exactly when no other pattern of the table matches it |
| AppRoutes.RootRendersHome | App.tsx:51 | `/` renders the home page |
| AppRoutes.RedirectsLand | App.tsx:50-59 | every redirect lands, one hop later, on a rendered page |
| UriDecode.HexValue | App.tsx:50-59 | a hexadecimal digit of either case has a value below 16; any other character has none |
| UriDecode.EscapedByte | App.tsx:50-59 | a byte is read only from a `%` followed by two hexadecimal digits, and it is below 256 |
| UriDecode.Continuations | App.tsx:50-59 | the continuation bytes read are as many as asked for and each is of the form `10xxxxxx` |
| UriDecode.DecodeEscape | App.tsx:50-59 | an escape that decodes starts with `%` and spans at least three characters of the piece |
| UriDecode.DecodeUriComponent | App.tsx:50-59 | `decodeURIComponent` never lengthens a piece and maps empty to empty and non-empty to non-empty, so a dynamic segment still matches after decoding |
| UriDecode.DecodeUnescaped | App.tsx:50-59 | a piece without `%` is its own decoding |
| UriDecode.MalformedEscapes | App.tsx:50-59 | decoding throws on a `%` without two hexadecimal digits and on a sequence that starts with a continuation byte |
| UriDecode.OverlongThrows | App.tsx:50-59 | decoding throws on an overlong UTF-8 sequence |
| UriDecode.SurrogateThrows | App.tsx:50-59 | decoding throws on an encoded UTF-16 surrogate |
| UriDecode.BeyondUnicodeThrows | App.tsx:50-59 | decoding throws on a code point beyond U+10FFFF |
| UriDecode.Utf8Spells | components/AdNetworkLoader.tsx:44 | the lead byte of a character's UTF-8 encoding gives the sequence length, the other bytes are continuation bytes, and the payload bits spell the character |
| UriDecode.EscapeOfChar | components/AdNetworkLoader.tsx:44 | the escapes `encodeURIComponent` writes for one character decode to that character, whatever follows |
| UriDecode.DecodeEncode | components/AdNetworkLoader.tsx:44 | `decodeURIComponent` undoes `encodeURIComponent` on every string |
| CodeBlock.ItemTexts | components/MdxCodeBlock.tsx:14 | `children.map(getCodeText)` keeps the number and order of the children |
| CodeBlock.ArrayText | components/MdxCodeBlock.tsx:13-15 | an array's text is its children's texts concatenated in order |
| CodeBlock.ArrayTextAppend | components/MdxCodeBlock.tsx:13-15 | the text of two arrays placed end to end is the first text followed by the second |
| CodeBlock.TextIsLeaves | components/MdxCodeBlock.tsx:8-22 | the flattened text is the concatenation of the string leaves, left to right: nesting never adds, drops or reorders text |
| CodeBlock.LeavesOfText | components/MdxCodeBlock.tsx:13-15 | the same for the children of an array |
| CodeBlock.CodeText | components/MdxCodeBlock.tsx:26 | `codeText` is a prefix of the flattened text, does not end in white space, and only white space was dropped |
| CodeBlock.CopyButton.constructor | components/MdxCodeBlock.tsx:25 | the button starts out not copied, with nothing written to the clipboard |
| CodeBlock.CopyButton.Label | components/MdxCodeBlock.tsx:45 | the label reads `Copied` exactly while the flag is set, and `Copy` otherwise |
| CodeBlock.CopyButton.HandleCopy | components/MdxCodeBlock.tsx:28-34 | an empty code text changes nothing; otherwise the text goes to the clipboard and the flag is set |
| CodeBlock.CopyButton.TimerFires | components/MdxCodeBlock.tsx:35 | the timer clears the flag and leaves the clipboard alone |
| CodeBlock.CopyCycle | components/MdxCodeBlock.tsx:24-46 | a copy of a non-empty text shows `Copied`, then `Copy` after the timer; a block whose text is empty or only white space never shows `Copied` |
| DocsCommon.SelectModules | pages/PlaybookDocs.tsx:61-67 | the preferred language's modules when there are any, else the other language's, whatever they hold |
| DocsCommon.GetFileName | pages/PlaybookDocs.tsx:44 | the file name is the longest suffix of the path without a `/`: it is preceded by `/` or is the whole path |
| DocsCommon.TrimmedOr | pages/PlaybookDocs.tsx:76-78 | a present value that is non-empty after trimming is used trimmed; otherwise the fallback |
| DocsCommon.FirstIndex | pages/PlaybookDocs.tsx:92 | the index of the first equal element, or the length when there is none |
| DocsCommon.ResolveCases | pages/PlaybookDocs.tsx:90-123 | no documents give the empty state; a missing, empty or unknown slug redirects to the first document; otherwise the first document with that slug is shown |
| DocsCommon.HighlightedIffRequested | pages/PlaybookDocs.tsx:133-134 | when a document is shown, a sidebar entry is highlighted exactly when its slug is the one in the URL |
| DocsCommon.ActiveIndex | pages/PlaybookDocs.tsx:92 | the active document exists exactly when there are documents |
| DocsCommon.ActiveIndexAgrees | pages/PlaybookDocs.tsx:92-110 | the head effect describes the document shown; while the page redirects it describes the first document, the redirect target |
| DocsCommon.CanonicalIsRedirectTarget | pages/PlaybookDocs.tsx:99-122 | during a redirect the canonical link already names the page the redirect leads to |
| PlaybookDocs.BuildItemFields | pages/PlaybookDocs.tsx:71-81 | title, description and slug are the trimmed frontmatter values when non-empty, else the file name, `''` and the safe slug of the file name; the slug is never empty |
| PlaybookDocs.FileNameLeqTotalPreorder | pages/PlaybookDocs.tsx:82-87 | the comparator on file names is a total preorder, so the sort is well defined |
| PlaybookDocs.DocsSorted | pages/PlaybookDocs.tsx:69-88 | `docs` is a permutation of the chosen language's items, sorted by file name, ties kept in module order |
| PlaybookDocs.DocsEmpty | pages/PlaybookDocs.tsx:112 | the page is empty exactly when both languages have no documents |
| PlaybookDocs.Slugs | pages/PlaybookDocs.tsx:91-92 | the slugs of the documents, in order |
| PlaybookDocs.ResolveActive | pages/PlaybookDocs.tsx:90-123 | empty state exactly without documents; redirect to `/docs/playbook/<first slug>` exactly when the slug is missing, empty or unknown; otherwise the first document with the requested slug |
| PlaybookDocs.HighlightMatchesUrl | pages/PlaybookDocs.tsx:133-143 | the highlighted entries are exactly those whose slug is the one in the URL |
| GeminiDocs.ParseUsesMatch | pages/GeminiDocs.tsx:64 | because of the `^` anchor, `String.prototype.match` finds a match exactly when one starts at position 0 |
| GeminiDocs.ParseDocFileMetaNone | pages/GeminiDocs.tsx:63-67 | `parseDocFileMeta` returns null exactly when no split of the file name fits the pattern |
| GeminiDocs.ParseDocFileMetaSome | pages/GeminiDocs.tsx:63-75 | on a match, the category order is the value of the leading digits, the sub-order has the form digits-dot-digits, category, sub-category and title are trimmed, and the name ends in `_final.mdx` in any letter case |
| GeminiDocs.MetaNumbers | pages/GeminiDocs.tsx:64-72 | group 1 is the whole digit run after the leading white space, and group 3 is a dotted number |
| GeminiDocs.MetaLeadingDigits | pages/GeminiDocs.tsx:64 | the first group is exactly the digits that follow the leading white space |
| GeminiDocs.MetaFinal | pages/GeminiDocs.tsx:64 | a matched name ends in `_final.mdx`, compared without regard to case |
| GeminiDocs.DottedNoDash | pages/GeminiDocs.tsx:64 | a sub-order of the form digits-dot-digits holds no `-` |
| GeminiDocs.ItemOfText | pages/GeminiDocs.tsx:123-127 | the title is the parsed title if non-empty, else the trimmed frontmatter title, else the file name; the description is trimmed and empty exactly without a frontmatter description; the slug is the trimmed frontmatter slug or the safe slug of the file name, never empty |
| GeminiDocs.ItemOfOrder | pages/GeminiDocs.tsx:128-131 | a parsed name supplies order, category, sub-order and sub-category; an unparsed one gets `Number.MAX_SAFE_INTEGER`, the uncategorized label and `'0'` |
| GeminiDocs.ItemOfWellParsed | pages/GeminiDocs.tsx:128-131 | with a well-formed parse the item's order is the value of the leading digits and its sub-order holds no `-` |
| GeminiDocs.BuildItemTitle | pages/GeminiDocs.tsx:125 | the title is trimmed text or, failing everything else, the file name |
| GeminiDocs.BuildItemOrder | pages/GeminiDocs.tsx:119-134 | an item's order and categories come from its parsed file name when it parses and are the defaults otherwise; the sub-order never holds `-` |
| GeminiDocs.DocLeqTotal | pages/GeminiDocs.tsx:135-150 | any two documents are comparable |
| GeminiDocs.DocLeqTransitive | pages/GeminiDocs.tsx:135-150 | the three-key comparator is transitive |
| GeminiDocs.DocLeqTotalPreorder | pages/GeminiDocs.tsx:135-150 | the comparator is a total preorder, so the sort is well defined |
| GeminiDocs.DocsSorted | pages/GeminiDocs.tsx:117-151 | `docs` is a permutation of the built items, in comparator order, ties kept in module order |
| GeminiDocs.DocsOrderedByKeys | pages/GeminiDocs.tsx:135-150 | in `docs`, category orders never decrease; within a category sub-orders never decrease under the collation; within a sub-order so do file names |
| GeminiDocs.Slugs | pages/GeminiDocs.tsx:195-196 | the slugs of the documents, in order |
| GeminiDocs.ResolveActive | pages/GeminiDocs.tsx:194-227 | empty state exactly without documents; redirect to `/docs/gemini/<first slug>` exactly when the slug is missing, empty or unknown; otherwise the first document with the requested slug |
| GeminiSidebar.FindGroup | pages/GeminiDocs.tsx:157-158 | `categoryMap.has(key)`: the position of the category with that key, or the length when there is none |
| GeminiSidebar.FindSub | pages/GeminiDocs.tsx:169-170 | `subMap.has(key)`: the position of the sub-group with that key, or the length when there is none |
| GeminiSidebar.BucketSnoc | pages/GeminiDocs.tsx:156-178 | one more document is one more step of the `forEach` |
| GeminiSidebar.AddToSubsShape | pages/GeminiDocs.tsx:169-177 | the document is pushed onto the sub-group of its key, created empty at the end when missing; every other sub-group is unchanged |
| GeminiSidebar.AddToSubsDistinct | pages/GeminiDocs.tsx:169-176 | sub-group keys stay distinct, as the keys of a `Map` |
| GeminiSidebar.AddToSubsHolds | pages/GeminiDocs.tsx:169-177 | after a step each sub-group holds exactly the documents read so far with its two keys, in reading order |
| GeminiSidebar.SubsHoldOther | pages/GeminiDocs.tsx:156-178 | reading a document of another category leaves a category's sub-groups as they were |
| GeminiSidebar.AddDocShape | pages/GeminiDocs.tsx:157-177 | the document goes into the category of its key, created empty at the end when missing; every other category is unchanged |
| GeminiSidebar.AddDocDistinct | pages/GeminiDocs.tsx:157-164 | category keys stay distinct |
| GeminiSidebar.AddDocHolds | pages/GeminiDocs.tsx:156-178 | one step of the `forEach` keeps the bucketing invariant |
| GeminiSidebar.BucketHolds | pages/GeminiDocs.tsx:156-178 | after the `forEach`, there is one category per category key and one sub-group per key pair present, each holding exactly the documents with those keys, in order |
| GeminiSidebar.CategoryLeqTotalPreorder | pages/GeminiDocs.tsx:181 | comparing by category order is a total preorder |
| GeminiSidebar.SubLeqTotalPreorder | pages/GeminiDocs.tsx:185-190 | comparing sub-orders under the numeric collation is a total preorder |
| GeminiSidebar.FileDoc | pages/GeminiDocs.tsx:157-177 | one pass of the loop body files the document as the bucketing step specifies |
| GeminiSidebar.BuildSidebar | pages/GeminiDocs.tsx:153-192 | the loop and the two sorts compute exactly the bucketed, sorted sidebar |
| GeminiSidebar.SortSubsHold | pages/GeminiDocs.tsx:185-190 | sorting a category's sub-groups keeps what each holds |
| GeminiSidebar.SortSubGroupsHold | pages/GeminiDocs.tsx:182-191 | sorting the sub-groups of every category keeps the bucketing invariant |
| GeminiSidebar.SortGroupsHold | pages/GeminiDocs.tsx:180-181 | sorting the categories keeps the bucketing invariant |
| GeminiSidebar.SidebarHolds | pages/GeminiDocs.tsx:153-192 | the sidebar has one category per key and one sub-group per key pair, each holding exactly the documents with those keys |
| GeminiSidebar.SidebarPlacesEachDoc | pages/GeminiDocs.tsx:153-192 | every document sits in exactly one category, the one for its order and category, and in exactly one sub-group of it; that sub-group holds exactly the documents with both keys, in their order in `docs` |
| GeminiSidebar.SidebarSorted | pages/GeminiDocs.tsx:180-191 | categories come in ascending order, each category's sub-groups are sorted under the collation, and both sorts are stable: the category sort over the bucketed categories, and each sub-group sort over the sub-groups of the bucketed category it came from, which keeps tied sub-groups in insertion order |
| GeminiSidebar.AddToSubsDocs | pages/GeminiDocs.tsx:177 | a step adds the document to the sub-groups once and removes nothing |
| GeminiSidebar.AddDocDocs | pages/GeminiDocs.tsx:157-177 | a step adds the document to the tree once and removes nothing |
| GeminiSidebar.BucketDocs | pages/GeminiDocs.tsx:156-178 | the buckets hold exactly the documents, with their multiplicities |
| GeminiSidebar.SortSubGroupsDocs | pages/GeminiDocs.tsx:182-191 | sorting the sub-groups neither loses nor duplicates a document |
| GeminiSidebar.SortSubGroupsCons | pages/GeminiDocs.tsx:182-191 | the `.map` handles the first category and then the rest |
| GeminiSidebar.SidebarKeepsDocs | pages/GeminiDocs.tsx:153-192 | the sidebar tree holds every document exactly as often as `docs` does, and nothing else |
| Layout.FirstSlash | components/Layout.tsx:27-28 | the position of the first `/`, with no `/` before it |
| Layout.AtOrUnderSegment | components/Layout.tsx:27-28 | below a common prefix, a path whose next segment has no `/` is at or under a root exactly when the root names the same segment |
| Layout.SameSegment | components/Layout.tsx:27-28 | a string written two ways as a segment without `/` followed by nothing or by `/…` has one segment |
| Layout.ActiveOnlyOwnBoard | components/Layout.tsx:27-28 | a path `/docs/<c>` or `/docs/<c>/…` activates board `d` exactly when `c == d`, so `/docs/claudex` does not activate `claude` |
| Layout.NavLinkHighlight | components/Layout.tsx:81-95 | each board's link targets its entry route, which highlights that board and no other |
| Layout.Switched | components/Layout.tsx:129 | the language button always changes the language |
| Layout.SwitchedTwice | components/Layout.tsx:129 | two presses of the language button restore the language |
| Layout.Frame.constructor | components/Layout.tsx:21-24 | the first render is dark, search and menu closed, and the root carries `dark` |
| Layout.Frame.ApplyTheme | components/Layout.tsx:30-36 | the theme effect makes `dark` present on the root exactly when the theme is dark and leaves the other classes and state alone |
| Layout.Frame.ToggleTheme | components/Layout.tsx:122 | the theme button flips the theme and keeps the root's `dark` class in step |
| Layout.Frame.ToggleLanguage | components/Layout.tsx:128-129 | the language button switches the language and changes nothing else |
| Layout.Frame.KeyDown | components/Layout.tsx:38-47 | `k` with Meta or Ctrl opens the search and prevents the default action; every other key changes nothing |
| Layout.Frame.OpenSearch | components/Layout.tsx:100-116 | either search button opens the search and changes nothing else |
| Layout.Frame.CloseSearch | components/Layout.tsx:230 | the palette's `onClose` closes the search and changes nothing else |
| Layout.Frame.ToggleMobileMenu | components/Layout.tsx:62-67 | the menu button flips the mobile menu and changes nothing else |
| Layout.Frame.LocationChanged | components/Layout.tsx:49-52 | a change of location closes the mobile menu |
| Layout.FollowNavLink | components/Layout.tsx:49-52 | following a board's navigation link closes the mobile menu and, of the five links, highlights exactly that board's |
| Sitemap.BlockMatch | scripts/generate-sitemap.mjs:30 | `/^---\n([\s\S]*?)\n---/` matches exactly when the content opens with `---` and a newline and a closing `\n---` follows; the lazy group stops at the first closing fence |
| Sitemap.LazyGroupFound | scripts/generate-sitemap.mjs:30 | the lazy group grows until the first closing fence follows it |
| Sitemap.LazyGroupNone | scripts/generate-sitemap.mjs:30 | with no closing fence the lazy group finds no match |
| Sitemap.FrontmatterBlockAgrees | scripts/generate-sitemap.mjs:29-33 | the sitemap generator and the migration script find the same raw frontmatter block, or both find none |
| Sitemap.SlugMatch | scripts/generate-sitemap.mjs:35 | a match of the slug pattern starts with `slug:` at the start of a line, and its group is a non-empty run of characters that are neither quotes nor newlines |
| Sitemap.GetSlugFromFrontmatterSpec | scripts/generate-sitemap.mjs:29-37 | no frontmatter block or no `slug:` line gives `''`; a slug found is trimmed and holds no quote and no newline |
| Sitemap.SlugLineValue | scripts/generate-sitemap.mjs:35-36 | for a line `slug:`, then blanks, an optional quote, a trimmed value without quotes or line breaks, and an optional quote up to the end of the line, with no earlier `slug:` line, the slug is exactly that value |
| Sitemap.GetSlugFromFrontmatterValue | scripts/generate-sitemap.mjs:29-37 | a frontmatter block whose first `slug:` line is `slug: v` or `slug: "v"` gives `v`, and `v` is then the document's slug in the sitemap |
| Sitemap.MdxOnly | scripts/generate-sitemap.mjs:49 | exactly the listed files whose names end in `.mdx` are kept |
| Sitemap.FileUrl | scripts/generate-sitemap.mjs:52-56 | the URL of a file is `/docs/<route>/` followed by its frontmatter slug, or its safe slug when there is none |
| Sitemap.FileUrlsSnoc | scripts/generate-sitemap.mjs:51-57 | one more file adds its URL to the set |
| Sitemap.AddFileUrls | scripts/generate-sitemap.mjs:51-57 | the inner loop adds the URL of every file of the directory |
| Sitemap.AddBoardUrls | scripts/generate-sitemap.mjs:42-58 | the locale loop adds the URLs of every existing locale directory of a board and skips missing ones |
| Sitemap.AddAllBoards | scripts/generate-sitemap.mjs:41-59 | the board loop adds the URLs of every board |
| Sitemap.CollectUrls | scripts/generate-sitemap.mjs:39-59 | the URL set is the three fixed pages plus the URLs of all boards |
| Sitemap.FileUrlsMembers | scripts/generate-sitemap.mjs:51-57 | a URL comes from a directory exactly when some file of it has that URL |
| Sitemap.LocaleUrlsMembers | scripts/generate-sitemap.mjs:42-58 | a URL comes from a board exactly when it comes from one of its locale directories |
| Sitemap.BoardUrlsMembers | scripts/generate-sitemap.mjs:41-59 | a URL comes from the boards exactly when it comes from one of them |
| Sitemap.BoardUrlsAll | scripts/generate-sitemap.mjs:41-59 | the board URLs are exactly the URLs of the `.mdx` files of the existing board and locale directories |
| Sitemap.SitemapUrlsMembers | scripts/generate-sitemap.mjs:39-59 | the set holds the three fixed pages and the URL of every `.mdx` file of every existing directory, and nothing else; files with equal slugs give one URL |
| Sitemap.FrontmatterSlugLine | scripts/generate-sitemap.mjs:35-36 | a frontmatter slug holds no newline |
| Sitemap.SafeSlugLine | scripts/generate-sitemap.mjs:22-27 | a file name's safe slug is never empty and holds no newline |
| Sitemap.DocSlugShape | scripts/generate-sitemap.mjs:54-55 | a document's slug is never empty and holds no newline |
| Sitemap.SortUrls | scripts/generate-sitemap.mjs:62 | the sorted list holds exactly the URLs of the set and is in order |
| Sitemap.SortedListDistinct | scripts/generate-sitemap.mjs:62 | the sorted list holds each URL of the set exactly once |
| Sitemap.SplitCount | scripts/generate-sitemap.mjs:68 | `split('/')` gives at least one part |
| Sitemap.SplitCountAppend | scripts/generate-sitemap.mjs:68 | the parts of two joined strings number the sum of their parts less one |
| Sitemap.DocPathIsArticle | scripts/generate-sitemap.mjs:68 | every document URL counts as an article, whatever its route and slug |
| Sitemap.ClassifySitemapUrls | scripts/generate-sitemap.mjs:66-70 | `/` is daily at 1.0, `/privacy` and `/terms` monthly at 0.6, and every document URL weekly at 0.9 |
| Sitemap.BlocksJoin | scripts/generate-sitemap.mjs:64-81 | joining the blocks with newlines gives the lines of all blocks joined with newlines |
| Sitemap.JoinNested | scripts/generate-sitemap.mjs:72-83 | joining a joined group inside a list equals joining the flattened list |
| Sitemap.UrlLinesNoNewline | scripts/generate-sitemap.mjs:72-79 | each of a block's six lines is free of newlines when the URL and the timestamp are |
| Sitemap.AllLinesNoNewline | scripts/generate-sitemap.mjs:64-81 | every line of every block is free of newlines |
| Sitemap.SitemapXmlLines | scripts/generate-sitemap.mjs:64-83 | split at newlines, the document is the XML declaration, the `urlset` tag with the sitemaps.org 0.9 namespace, the six lines of each URL in list order, the closing tag and an empty final line |
| Slug.RunLength | scripts/generate-sitemap.mjs:26 | the length of the leading run of characters of a class, stopping at the first one outside it |
| Slug.ReplaceRuns | scripts/generate-sitemap.mjs:26 | after a `[…]+`-to-one-character substitution, no character of the class remains except the replacement, no two replacements are adjacent, and the result is empty exactly when the input is |
| Slug.CollapseKeepsAlnums | scripts/generate-sitemap.mjs:26 | replacing runs of other characters by `-` keeps every lower-case letter and digit, in order |
| Slug.StripDashesShape | scripts/generate-sitemap.mjs:27 | stripping the edge dashes of a collapsed string leaves a safe slug, or nothing exactly when there was no letter or digit |
| Slug.SlugCoreShape | scripts/generate-sitemap.mjs:26-27 | collapse-then-strip gives a safe slug made of the input's letters and digits, or `''` exactly when there are none |
| Slug.ToSafeSlugSafe | scripts/generate-sitemap.mjs:22-27 | `toSafeSlug` always yields a non-empty slug of `[a-z0-9-]` with no leading, trailing or doubled `-`: the cleaned name's letters and digits, or `doc` |
| Slug.ToSafeSlugFixed | scripts/generate-sitemap.mjs:22-27 | a safe slug is its own slug |
| Slug.ToSafeSlugIdempotent | scripts/generate-sitemap.mjs:22-27 | applying `toSafeSlug` twice equals applying it once |
| Slug.ToSafeSlugDropsFinal | scripts/generate-sitemap.mjs:25 | a trailing `_final.mdx` in any letter case is removed before the slug is formed |
| Slug.ToSafeSlugKeepsMdx | scripts/generate-sitemap.mjs:25-26 | a plain `.mdx` extension is not removed but becomes `-mdx` (`A.mdx` gives `a-mdx`) |
| Slug.AsciiOnly | scripts/migrate_docs_bilingual.py:88 | ASCII encoding with errors ignored keeps only characters below U+0080 |
| Slug.PySlugCoreIsSlugCore | scripts/migrate_docs_bilingual.py:89-91 | the second substitution `-+` to `-` finds nothing to squash, so the Python pipeline equals the shared collapse-and-strip core |
| Slug.SlugifySafe | scripts/migrate_docs_bilingual.py:86-98 | `slugify` yields a safe slug: from the text when it has an ASCII letter or digit, else from the fallback when that has one, else `doc` |
| Slug.PrepareSlugRule | scripts/migrate_docs_bilingual.py:353-357 | a stripped source slug that is non-empty and only `[A-Za-z0-9-]` is kept as it is; otherwise the slug is `slugify(title_en, stem)`, a safe slug |
| Slug.SafeSlugUnstripped | scripts/migrate_docs_bilingual.py:357 | a safe slug has no white space for the final `strip` to remove |
| MigrateMarkup.ReplaceCharAppend | scripts/migrate_docs_bilingual.py:119 | replacing a one-character pattern works piece by piece over a concatenation |
| MigrateMarkup.EscapeYamlChars | scripts/migrate_docs_bilingual.py:119 | the two chained replacements equal escaping each backslash and double quote with a backslash: the second never touches what the first added |
| MigrateMarkup.UnescapeEscapeChars | scripts/migrate_docs_bilingual.py:119 | un-escaping the escaped text gives the text back |
| MigrateMarkup.QuoteYamlRoundTrip | scripts/migrate_docs_bilingual.py:118-120 | `quote_yaml` wraps its value in double quotes, and un-escaping what lies between them returns the value |
| MigrateMarkup.EscapedQuotes | scripts/migrate_docs_bilingual.py:119 | every double quote inside the scalar is preceded by a backslash |
| MigrateMarkup.StartOfOutput | scripts/migrate_docs_bilingual.py:124-125 | a tag that begins the output of a replacement, and diverges from the replacement text, began the input |
| MigrateMarkup.NoNewOccurrence | scripts/migrate_docs_bilingual.py:124-125 | a replacement creates no new occurrence of such a tag, and leaves none of the pattern |
| MigrateMarkup.NoNewWord | scripts/migrate_docs_bilingual.py:124-125 | such a tag occurs in the output only if it occurred in the input and is not the pattern |
| MigrateMarkup.NormalizeHtmlNoBareBreaks | scripts/migrate_docs_bilingual.py:123-126 | `normalize_html` leaves neither `<br>` nor `<br/>` behind |
| MigrateMarkup.NormalizeHtmlIdempotent | scripts/migrate_docs_bilingual.py:123-126 | `normalize_html` applied twice equals applied once |
| MigrateChunks.PairBreak | scripts/migrate_docs_bilingual.py:213 | the first place at or after a position where two newlines follow each other, or the end of the text |
| MigrateChunks.PairBreakFirst | scripts/migrate_docs_bilingual.py:213 | no two newlines follow each other before that place |
| MigrateChunks.RunEnd | scripts/migrate_docs_bilingual.py:213 | the end of the run of newlines starting at a position: what `\n\n+` consumes greedily |
| MigrateChunks.RunEndNewlines | scripts/migrate_docs_bilingual.py:213 | that run holds newlines only |
| MigrateChunks.SplitParagraphs | scripts/migrate_docs_bilingual.py:213 | `re.split(r"(\n\n+)", text)` yields an odd number of pieces |
| MigrateChunks.SplitParagraphsStep | scripts/migrate_docs_bilingual.py:213 | the split cuts off the text before the first break and the whole break, of at least two newlines, and splits the rest |
| MigrateChunks.SplitParagraphsConcat | scripts/migrate_docs_bilingual.py:213 | the pieces of the split concatenate back to the text |
| MigrateChunks.SplitParagraphsShape | scripts/migrate_docs_bilingual.py:213 | the pieces alternate: break-free text, then a run of two or more newlines, then break-free text, and so on |
| MigrateChunks.BreakRun | scripts/migrate_docs_bilingual.py:213 | each captured break is at least two newlines and nothing else |
| MigrateChunks.NoBreakBefore | scripts/migrate_docs_bilingual.py:213 | the text before the first break holds no break |
| MigrateChunks.SplitTranslationChunks | scripts/migrate_docs_bilingual.py:209-228 | the loop, with `current` and `chunks` as its state, computes the greedy packing of the pieces and flushes a non-empty `current` |
| MigrateChunks.PackInvariant | scripts/migrate_docs_bilingual.py:217-223 | what the loop keeps: the emitted chunks followed by `current` are the pieces seen, and every emitted chunk (and `current` when non-empty) is non-empty and fits the limit or is a single piece |
| MigrateChunks.TranslationChunksSpec | scripts/migrate_docs_bilingual.py:209-228 | the chunks concatenate back to the text; a text within the limit is one chunk; otherwise every chunk is non-empty and within the limit unless it is one oversized piece |
| MigrateFrontmatter.FindClose | scripts/migrate_docs_bilingual.py:102 | where the lazy `(.*?)` stops: the first `\n---` at or after a position, or none |
| MigrateFrontmatter.SplitFrontmatterShape | scripts/migrate_docs_bilingual.py:102-106 | the content matches exactly when it starts with `---\n` and a closing fence follows; the raw block is then the shortest, and a newline right after the closing fence is consumed |
| MigrateFrontmatter.ColonIndex | scripts/migrate_docs_bilingual.py:111 | the position of the first colon of a line, or its length |
| MigrateFrontmatter.EntryColon | scripts/migrate_docs_bilingual.py:109-110 | a line sets a key exactly when it holds a colon |
| MigrateFrontmatter.EntryKeyNoColon | scripts/migrate_docs_bilingual.py:111-112 | the key a line sets holds no colon: the split is at the first colon |
| MigrateFrontmatter.ParseFrontmatter | scripts/migrate_docs_bilingual.py:101-115 | returns an empty dictionary and the whole content when the content does not match, else the entries of the raw block's lines and the body |
| MigrateFrontmatter.CollectEntries | scripts/migrate_docs_bilingual.py:108-114 | the loop builds the dictionary that reading the lines one by one, later lines overwriting, gives |
| MigrateFrontmatter.EntriesKeys | scripts/migrate_docs_bilingual.py:108-114 | a key is in the dictionary exactly when some line sets it |
| MigrateFrontmatter.EntriesLastWins | scripts/migrate_docs_bilingual.py:114 | the value of a key is the one from the last line that sets it |
| MigrateFrontmatter.LastWinsStep | scripts/migrate_docs_bilingual.py:114 | a line that does not set the key does not change which line set it last |
| MigrateFrontmatter.FirstMissing | scripts/migrate_docs_bilingual.py:322-328 | the first of the five keys the dictionary lacks, all before it present; none exactly when all five are present |
| MigrateFrontmatter.ComposeMdxMissing | scripts/migrate_docs_bilingual.py:321-335 | `compose_mdx` fails exactly when a key is missing, naming the first missing key in the order of the lines |
| MigrateFrontmatter.KeysLower | scripts/migrate_docs_bilingual.py:324-328 | the five keys are distinct non-empty lower-case words |
| MigrateFrontmatter.QuotePlain | scripts/migrate_docs_bilingual.py:118-120 | a value with no backslash or double quote is quoted without escapes |
| MigrateFrontmatter.StripCharQuoted | scripts/migrate_docs_bilingual.py:113 | `.strip(q)` removes exactly one wrapping `q` from a value that holds no `q` |
| MigrateFrontmatter.CleanQuoted | scripts/migrate_docs_bilingual.py:113 | cleaning the text after the colon of a written key line gives back the plain value |
| MigrateFrontmatter.EntryAt | scripts/migrate_docs_bilingual.py:111-113 | a line whose first colon follows a colon-free key sets the stripped key to the cleaned tail |
| MigrateFrontmatter.KeyLineParts | scripts/migrate_docs_bilingual.py:324-328 | a written key line is the key, a colon, a space and the quoted value |
| MigrateFrontmatter.LowerKey | scripts/migrate_docs_bilingual.py:112 | a lower-case key is its own stripped form and holds no colon |
| MigrateFrontmatter.EntryKeyLine | scripts/migrate_docs_bilingual.py:111-114 | a written key line reads back as its key and value |
| MigrateFrontmatter.KeyLineNoBreak | scripts/migrate_docs_bilingual.py:324-328 | a written key line holds no line boundary, does not start with `-` and ends with a double quote |
| MigrateFrontmatter.JoinComposed | scripts/migrate_docs_bilingual.py:322-335 | the joined lines are the opening fence, the key lines, the closing fence, a newline, then the imports and the body |
| MigrateFrontmatter.ComposedText | scripts/migrate_docs_bilingual.py:321-335 | the text `compose_mdx` writes, fence by fence |
| MigrateFrontmatter.NoEarlyClose | scripts/migrate_docs_bilingual.py:102 | inside the written block no closing fence occurs, so the lazy group cannot stop early |
| MigrateFrontmatter.SplitComposed | scripts/migrate_docs_bilingual.py:102-106 | the written block between the two fences is split off exactly |
| MigrateFrontmatter.ComposeParseRoundTrip | scripts/migrate_docs_bilingual.py:101-115 | reading back what `compose_mdx` wrote gives exactly the five plain values and the body behind the two imports |
| MigrateFrontmatter.EntriesOfDistinct | scripts/migrate_docs_bilingual.py:108-114 | lines that each set a different key give the dictionary of those keys and values |
| MigrateFrontmatter.ParsedEntries | scripts/migrate_docs_bilingual.py:108-114 | the five key lines read back as the dictionary of the five values |
| MigrateBody.KeptLinesSpec | scripts/migrate_docs_bilingual.py:131-138 | every kept line is a line of the input whose stripped form does not start with one of the two component imports, and every such line is kept |
| MigrateBody.KeptLinesFilter | scripts/migrate_docs_bilingual.py:131-138 | the first loop equals the independent list comprehension that keeps, in order and with their repetitions, the lines that are not component imports |
| MigrateBody.DropLeadingBlankSpec | scripts/migrate_docs_bilingual.py:140-141 | the `pop(0)` loop leaves a suffix that does not start with a blank line, everything it dropped being blank |
| MigrateBody.RemoveImports | scripts/migrate_docs_bilingual.py:129-142 | `remove_imports` joins the kept lines, strips the text and adds one newline |
| MigrateBody.RemoveImportsText | scripts/migrate_docs_bilingual.py:142 | the output ends with its one newline and apart from it has no white space at either end |
| MigrateBody.RemoveImportsKept | scripts/migrate_docs_bilingual.py:129-142 | every line kept is a line of the body that is not a component import, and the first one kept is not blank |
| MigrateBody.SuffixKeeps | scripts/migrate_docs_bilingual.py:140-141 | dropping leading lines keeps what holds of every line |
| MigrateBody.ItalicLines | scripts/migrate_docs_bilingual.py:147-162 | the loop rewrites the lines one by one, each by the rule for a single line |
| MigrateBody.ApplyItalicRule | scripts/migrate_docs_bilingual.py:145-163 | `apply_codex_image_italic_rule` joins the rewritten lines with newlines |
| MigrateBody.WrappedIsStripped | scripts/migrate_docs_bilingual.py:159-160 | a stripped line wrapped in `*` is its own stripped form and counts as italic |
| MigrateBody.ItalicLineIdempotent | scripts/migrate_docs_bilingual.py:149-162 | applying the rule to a line twice equals applying it once; it leaves a line alone exactly when the line is not an image description, is blank or is already italic |
| MigrateBody.ItalicRuleIdempotent | scripts/migrate_docs_bilingual.py:145-163 | over a body whose last line is not blank, applying the rule twice equals applying it once |
| MigrateBody.ItalicRuleDropsTrailingBlank | scripts/migrate_docs_bilingual.py:145-163 | a body ending in a blank line loses it, so the rule is not idempotent on `a\n\n` |
| MigrateBody.NotImageDescription | scripts/migrate_docs_bilingual.py:151-158 | a line of at most one character is never rewritten |
| MigrateBody.AdIsAd | scripts/migrate_docs_bilingual.py:291-292 | the ad line counts as an ad and not as a heading; the blank line counts as neither |
| MigrateBody.Count | scripts/migrate_docs_bilingual.py:292 | the number of lines satisfying a test is at most the number of lines |
| MigrateBody.AfterFirstSpec | scripts/migrate_docs_bilingual.py:295-299 | the insertion point is just after the first heading, none before it being one, or the top when there is no heading |
| MigrateBody.InsertAdSlices | scripts/migrate_docs_bilingual.py:300-301 | the two inserts put a blank line and the ad at the insertion point, the lines before and after unchanged |
| MigrateBody.RStripAll | scripts/migrate_docs_bilingual.py:287 | each line has its trailing white space stripped |
| MigrateBody.FindInsertionPoint | scripts/migrate_docs_bilingual.py:295-299 | the `enumerate` loop with its `break` finds the insertion point |
| MigrateBody.CountAds | scripts/migrate_docs_bilingual.py:292 | the loop counts the lines that strip to the ad |
| MigrateBody.EnsureAds | scripts/migrate_docs_bilingual.py:286-318 | `ensure_ads` returns the fixed two-ad text for an empty body, else the repaired lines joined, stripped and given one newline |
| MigrateBody.FirstAdRepair | scripts/migrate_docs_bilingual.py:294-302 | the first block inserts the pair after the first heading when there is no ad, and bumps the counter |
| MigrateBody.LastAdRepair | scripts/migrate_docs_bilingual.py:304-307 | the second block appends a blank line and the ad when the last line is not an ad, and bumps the counter |
| MigrateBody.SecondAdRepair | scripts/migrate_docs_bilingual.py:309-316 | the third block inserts one more pair after the first heading while the counter is below two |
| MigrateBody.InsertAdCount | scripts/migrate_docs_bilingual.py:300-302 | inserting the pair adds exactly one ad |
| MigrateBody.FirstRepairCount | scripts/migrate_docs_bilingual.py:294-302 | after the first block there is at least one ad and the counter is exact |
| MigrateBody.LastRepairCount | scripts/migrate_docs_bilingual.py:304-307 | after the second block the last line is an ad and the counter is exact |
| MigrateBody.SecondRepairCount | scripts/migrate_docs_bilingual.py:309-316 | after the third block there are at least two ads and the last line is still an ad; with two ads already nothing changes |
| MigrateBody.RepairedShape | scripts/migrate_docs_bilingual.py:294-316 | the repaired lines hold at least two ads and end with one; lines that already had two ads, the last at the end, are left as they were |
| MigrateBody.RepairedFirstAd | scripts/migrate_docs_bilingual.py:294-316 | a body without ads gets its first ad right after its first heading (or at the top), after a blank line, every earlier line kept |
| MigrateBody.RepairedNoAds | scripts/migrate_docs_bilingual.py:294-316 | a body without ads gets the first pair, then the closing pair or, when it then ends with an ad, a second pair after the first heading |
| MigrateBody.AfterFirstKept | scripts/migrate_docs_bilingual.py:309-314 | the first heading stays the first heading once a pair has been inserted after it |
| MigrateBody.EnsureAdsShape | scripts/migrate_docs_bilingual.py:286-318 | the result is the fixed text for an empty body; otherwise it is built from lines holding at least two ads and ends with `<AdPlaceholder />` and one newline |
| MigrateBody.RepairedText | scripts/migrate_docs_bilingual.py:316-318 | the joined and stripped repaired lines end with the ad and one newline |
| MigrateBody.RepairedLast | scripts/migrate_docs_bilingual.py:304-316 | the last repaired line ends with the ad |
| MigrateBody.TextEndsWithAd | scripts/migrate_docs_bilingual.py:318 | a text ending with the ad still does after stripping, and then gets its one newline |
| MigrateBody.CleanAdEnds | scripts/migrate_docs_bilingual.py:304 | a line with no trailing white space that strips to the ad ends with it |
| MdxTables.NewlineIndex | scripts/check-mdx-tables.mjs:142 | the first newline of a text, none before it, or the text's length |
| MdxTables.SourceLines | scripts/check-mdx-tables.mjs:142 | `source.split(/\r?\n/)` yields at least one line |
| MdxTables.SourceLinesJoin | scripts/check-mdx-tables.mjs:142 | without carriage returns, the lines hold no newline and joined with newlines give back the text |
| MdxTables.RunOf | scripts/check-mdx-tables.mjs:75-77 | the length of the maximal run of one character starting at a position |
| MdxTables.RunOfUnique | scripts/check-mdx-tables.mjs:16 | a run that stops where the character stops is the run measured |
| MdxTables.FenceMarkerShape | scripts/check-mdx-tables.mjs:15-20 | a marker is found exactly when the trimmed line starts with three backticks or three tildes; it is that character and the whole run of it |
| MdxTables.FenceMaskOf | scripts/check-mdx-tables.mjs:10-41 | flags that agree line by line with the fence rule are the mask |
| MdxTables.FenceMaskFlags | scripts/check-mdx-tables.mjs:18-37 | a line is flagged exactly when a fence is open before it or the line holds a marker |
| MdxTables.GetFenceMask | scripts/check-mdx-tables.mjs:10-41 | `getFenceMask` fills a fresh array, one flag per line, with the mask: the loop carries the open fence |
| MdxTables.FenceTransitions | scripts/check-mdx-tables.mjs:18-37 | with no fence open a marker line opens one; an open fence is closed by a marker of the same character at least as long, and by nothing else |
| MdxTables.FenceOpenState | scripts/check-mdx-tables.mjs:22-37 | while no line closes it, a fence stays open |
| MdxTables.FenceStaysOpen | scripts/check-mdx-tables.mjs:35-37 | every line an open fence covers is flagged |
| MdxTables.FenceSpan | scripts/check-mdx-tables.mjs:18-37 | from the opening marker to the first line that closes it every line is flagged, and no fence is open after it |
| MdxTables.RowText | scripts/check-mdx-tables.mjs:44-56 | nothing unless the trimmed line starts with a pipe; otherwise the trimmed line without that pipe and one trailing pipe |
| MdxTables.Scan | scripts/check-mdx-tables.mjs:63-105 | the scan yields at least one cell |
| MdxTables.Trims | scripts/check-mdx-tables.mjs:97-105 | each cell is trimmed |
| MdxTables.RowCells | scripts/check-mdx-tables.mjs:43-107 | `splitRowCells` returns nothing exactly when the trimmed line does not start with a pipe |
| MdxTables.SplitRowCells | scripts/check-mdx-tables.mjs:43-107 | the method computes the cells of the row |
| MdxTables.CountTicks | scripts/check-mdx-tables.mjs:73-77 | the inner `while` counts the whole backtick run |
| MdxTables.ScanCells | scripts/check-mdx-tables.mjs:58-106 | the character loop, with its escape flag, open tick count and current cell, yields the trimmed cells of the scan |
| MdxTables.ScanAdvance | scripts/check-mdx-tables.mjs:63-102 | a step that does not cut a cell adds the characters it takes to the current cell |
| MdxTables.ScanJoin | scripts/check-mdx-tables.mjs:63-105 | cells are cut only at pipes: joined with pipes they give back the text |
| MdxTables.PiecesJoin | scripts/check-mdx-tables.mjs:58-105 | the untrimmed cells of a row joined with pipes give back its text |
| MdxTables.ScanCount | scripts/check-mdx-tables.mjs:96-99 | every cut consumes a pipe: at most one more cell than pipes |
| MdxTables.ScanPlain | scripts/check-mdx-tables.mjs:96-102 | with no backslash or backtick every pipe cuts: one more cell than pipes, no cell holds a pipe |
| MdxTables.CodeSpanLiteral | scripts/check-mdx-tables.mjs:90-102 | inside an open code span, up to the next backtick, pipes and backslashes are ordinary characters |
| MdxTables.TicksClose | scripts/check-mdx-tables.mjs:79-83 | a backtick run closes an open span exactly when it is as long as the opening run; otherwise the span stays open |
| MdxTables.RemoveSpaces | scripts/check-mdx-tables.mjs:116 | `cell.replace(/\s+/g, '')` keeps exactly the characters that are not white space |
| MdxTables.DelimiterPatternShape | scripts/check-mdx-tables.mjs:116 | `/^:?-{3,}:?$/` matches exactly an optional colon, three or more hyphens and an optional colon |
| MdxTables.MatchedDelimiter | scripts/check-mdx-tables.mjs:116 | what the pattern matches has that shape |
| MdxTables.DelimiterMatches | scripts/check-mdx-tables.mjs:116 | everything of that shape is matched |
| MdxTables.IsDelimiterRowIff | scripts/check-mdx-tables.mjs:109-117 | a delimiter row starts with a pipe, has at least two cells, and each cell, white space removed, has the delimiter shape; and conversely |
| MdxTables.Infos | scripts/check-mdx-tables.mjs:150-151 | each line is classified from its trimmed text |
| MdxTables.BodyEnd | scripts/check-mdx-tables.mjs:178-204 | the first line at or after the start that ends the body: the end of the file, a fenced line, a line not starting with a pipe, a delimiter row, or one that does not split |
| MdxTables.CheckFile | scripts/check-mdx-tables.mjs:139-210 | `checkFile` reports the issues the table scan finds in the file's lines |
| MdxTables.ReadTableStart | scripts/check-mdx-tables.mjs:150-166 | a table starts exactly when both trimmed lines start with a pipe, the second is a delimiter row and both split; the result is their cell counts |
| MdxTables.CheckSkip | scripts/check-mdx-tables.mjs:145-166 | a pair of lines that does not open a table adds nothing and the scan moves one line on |
| MdxTables.CheckAtTable | scripts/check-mdx-tables.mjs:168-206 | at a table the scan reports the header mismatch on the delimiter's line, then the body rows' issues, and resumes where the body ends |
| MdxTables.ReadBodyRow | scripts/check-mdx-tables.mjs:179-193 | a body row is read exactly when its trimmed text starts with a pipe, is not a delimiter row and splits; the result is its cell count |
| MdxTables.CheckBody | scripts/check-mdx-tables.mjs:176-204 | the inner loop stops where the body ends and reports a mismatch for every row before it whose count differs from the header's |
| MdxTables.BodyStops | scripts/check-mdx-tables.mjs:178-193 | the first line that ends the body is where the body ends |
| MdxTables.BodyRow | scripts/check-mdx-tables.mjs:189-203 | a row before the end of the body adds its own mismatch, if any, on its 1-based line |
| MdxTables.CheckIssues | scripts/check-mdx-tables.mjs:145-209 | everything the scan reports from a line on is on a later line, flags a real mismatch, and comes in increasing line order |
| MdxTables.TableIssues | scripts/check-mdx-tables.mjs:168-206 | a table's issues followed by those after its body keep that order |
| MdxTables.HeaderAndRows | scripts/check-mdx-tables.mjs:168-204 | the header mismatch and the body rows' issues of one table come in line order |
| MdxTables.HeaderIssue | scripts/check-mdx-tables.mjs:168-174 | the header mismatch is reported on the delimiter row's line with both counts |
| MdxTables.IssuesAppend | scripts/check-mdx-tables.mjs:169-200 | two ordered runs of issues on successive lines join into one |
| MdxTables.RowIssuesLines | scripts/check-mdx-tables.mjs:195-201 | the body rows' issues are on the rows' own lines, in order |
| MdxTables.CheckSourceIssues | scripts/check-mdx-tables.mjs:139-210 | every issue is on a line, never the first, outside any fence, whose trimmed text starts with a pipe and splits into the count the issue names, which differs from the header's; issues come in increasing line order |
| MdxTables.IssuesNeedPipes | scripts/check-mdx-tables.mjs:139-210 | only a file with a line whose trimmed text starts with a pipe can have issues |
| Collation.DigitRun | pages/GeminiDocs.tsx:139-142 | the maximal run of ASCII digits at the start of a string: what the numeric option reads as one number |
| Collation.TokenCompare | pages/GeminiDocs.tsx:139-142 | two tokens compare as equal exactly when they are the same token; the result is -1, 0 or 1 |
| Collation.KeyCompare | pages/GeminiDocs.tsx:139-142 | the token-by-token comparison of two keys is -1, 0 or 1 |
| Collation.KeyCompareZero | pages/GeminiDocs.tsx:139-142 | two keys compare as equal exactly when they are the same key |
| Collation.KeyCompareAntisymmetric | pages/GeminiDocs.tsx:139-142 | swapping two keys negates the comparison |
| Collation.KeyCompareTransitive | pages/GeminiDocs.tsx:139-142 | the key order is transitive |
| Collation.CompareZero | pages/GeminiDocs.tsx:143-145 | two strings tie exactly when their keys are equal |
| Collation.CompareAntisymmetric | pages/GeminiDocs.tsx:139-149 | `a.localeCompare(b)` is minus `b.localeCompare(a)` |
| Collation.CompareTransitive | pages/GeminiDocs.tsx:139-149 | not-after is transitive |
| Collation.CompareTiedAlike | pages/GeminiDocs.tsx:143-149 | a string tied with another compares like it against every string |
| Collation.CompareStrictTransitive | pages/GeminiDocs.tsx:139-149 | before, then not-after, is before |
| Collation.LeqTotalPreorder | pages/GeminiDocs.tsx:135-150 | the comparator orders all strings totally up to ties, as `Array.prototype.sort` requires of a consistent comparator |
| Collation.KeyOfLower | pages/GeminiDocs.tsx:141 | base sensitivity: lower-casing a string does not change its key |
| Collation.CaseInsensitive | pages/GeminiDocs.tsx:141 | strings compare as their lower-cased forms do |
| Collation.NumericExamples | pages/GeminiDocs.tsx:140 | with the numeric option "2" sorts before "10", "1.2" before "1.10", "Doc2" before "doc10", and "a01" ties with "A1" |
| Regex.Run | pages/GeminiDocs.tsx:64 | the maximal run of characters of a class from a position |
| Regex.Avail | pages/GeminiDocs.tsx:64 | how many repetitions an item can take: the run, capped by its maximum |
| Regex.Search | scripts/generate-sitemap.mjs:35 | a match is found at the first position where one exists; none when no position from the start matches |
| Regex.MatchSound | pages/GeminiDocs.tsx:64 | a match the backtracking matcher reports fits the pattern: every item covers its slice with an allowed number of characters of its class, and the anchors hold |
| Regex.MatchComplete | pages/GeminiDocs.tsx:64 | when any split of the input fits the pattern, the matcher finds one |
| Regex.MatchCorrect | pages/GeminiDocs.tsx:64 | matching succeeds exactly when some split fits, and what it reports fits |
| Regex.MatchNoneIff | pages/GeminiDocs.tsx:64 | `match` returns null exactly when no split fits |
| Regex.GreedyTakesMost | pages/GeminiDocs.tsx:64 | a greedy item takes the most repetitions that let the rest of the pattern match |
| Regex.LazyTakesFewest | pages/GeminiDocs.tsx:64 | a lazy item takes the fewest repetitions that let the rest of the pattern match |
| Regex.MatchLits | scripts/generate-sitemap.mjs:30 | a literal text matches exactly where it occurs, one character per item |
| Regex.AnchoredSearch | scripts/generate-sitemap.mjs:30 | with a leading `^` and no multiline flag, searching is matching at the start |
| StableSort.FirstGreater | pages/GeminiDocs.tsx:135-150 | the first element strictly greater than the one being inserted, all before it being not greater |
| StableSort.TiedWithAppend | pages/GeminiDocs.tsx:135-150 | the elements tied with a value, taken over a concatenation, are those of each part in turn |
| StableSort.InsertPermutes | pages/GeminiDocs.tsx:135-150 | inserting adds exactly the one element |
| StableSort.InsertSorted | pages/GeminiDocs.tsx:135-150 | under a total preorder, inserting into a sorted sequence keeps it sorted |
| StableSort.InsertStable | pages/GeminiDocs.tsx:135-150 | inserting after every element not greater keeps each group of tied elements in input order |
| StableSort.SortPermutes | pages/GeminiDocs.tsx:135-150 | the sort returns a permutation of its input |
| StableSort.SortSorted | pages/GeminiDocs.tsx:135-150 | under a total preorder the sort's output is sorted |
| StableSort.SortStable | pages/GeminiDocs.tsx:135-150 | tied elements keep their input order, as `Array.prototype.sort` has guaranteed since ES2019 |
| StableSort.SortCorrect | pages/GeminiDocs.tsx:135-150 | the sort returns a sorted, stable permutation of its input |
| StableSort.SortKeepsFlatMap | pages/GeminiDocs.tsx:181-189 | sorting groups keeps the multiset of the documents they hold |
| StableSort.SortMembers | pages/GeminiDocs.tsx:135-150 | an element is in the output exactly when it is in the input |
| StableSort.SortKeepsDistinct | pages/GeminiDocs.tsx:181-189 | sorting keeps keys distinct |
| Text.StripStart | components/AdNetworkLoader.tsx:10 | what stripping leading characters leaves: a suffix that does not start with one, everything dropped being one |
| Text.StripEnd | components/AdNetworkLoader.tsx:10 | what stripping trailing characters leaves: a prefix that does not end with one, everything dropped being one |
| Text.StripEnds | components/AdNetworkLoader.tsx:10 | a stripped text is empty or starts and ends with a kept character |
| Text.TrimJsStrip | components/AdNetworkLoader.tsx:10 | `String.prototype.trim` strips ECMAScript white space and line terminators from both ends |
| Text.TrimJsTrimmed | components/AdNetworkLoader.tsx:10 | a trimmed text neither starts nor ends with white space |
| Text.TrimJsChars | components/AdNetworkLoader.tsx:10 | trimming keeps every property that held of every character |
| Text.StripPyStrip | scripts/migrate_docs_bilingual.py:112-113 | Python's `str.strip()`, `lstrip()` and `rstrip()` strip the white space `str.isspace` recognises |
| Text.StripPyEnds | scripts/migrate_docs_bilingual.py:112-113 | the stripped text is empty or neither starts nor ends with white space |
| Text.StripPyUnchanged | scripts/migrate_docs_bilingual.py:112-113 | a text that neither starts nor ends with white space is left as it is |
| Text.StripPyAvoids | scripts/migrate_docs_bilingual.py:112 | stripping adds no character |
| Text.StripIdempotent | scripts/migrate_docs_bilingual.py:112-113 | stripping twice equals stripping once |
| Text.StripCharStart | scripts/migrate_docs_bilingual.py:113 | `strip(q)` from the front leaves a suffix that does not start with `q` |
| Text.StripCharEnd | scripts/migrate_docs_bilingual.py:113 | `strip(q)` from the back leaves a prefix that does not end with `q` |
| Text.Lower | pages/GeminiDocs.tsx:57 | lower-casing maps each character by itself and keeps the length |
| Text.SplitOn | pages/GeminiDocs.tsx:61 | `split` on one character yields at least one piece |
| Text.SplitJoin | pages/GeminiDocs.tsx:61 | splitting a join of pieces without the separator gives back the pieces |
| Text.JoinAppend | scripts/migrate_docs_bilingual.py:142 | joining a concatenation of lists puts the separator between the two joins |
| Text.ConcatAppend | scripts/migrate_docs_bilingual.py:213 | concatenating a concatenation of lists is concatenating each in turn |
| Text.BreakIndex | scripts/migrate_docs_bilingual.py:108 | the first line boundary of a text, none before it, or its length |
| Text.SplitLines | scripts/migrate_docs_bilingual.py:108 | `str.splitlines()` yields lines with no line boundary, and none exactly for the empty text |
| Text.SplitJoinLines | scripts/migrate_docs_bilingual.py:108 | splitting lines joined with newlines gives them back, provided none holds a boundary and the last is not empty |
| Text.ReplaceAbsent | scripts/migrate_docs_bilingual.py:119 | replacing a pattern that does not occur changes nothing |
| Text.NatToString | pages/GeminiDocs.tsx:157 | a number's decimal text is non-empty digits whose value is the number |

## Left out

- File and network I/O are not modelled: directory walks, file reads and writes, and the `content` directory scan. `checkFile` takes a file's text, the sitemap takes a directory listing with file contents, and the migration helpers take strings.
- The translation side of the migration script is left out, because it is network calls plus a cache: `translate_text`, `translate_text_block`, `translate_markdown_body`, `translate_filename_to_zh`, the cache load and save, `process_one_file`, `process_batch` and `main`.
- `protect_tokens` and `restore_tokens` are left out. They are case-insensitive regular-expression searches with no round-trip guarantee: a protected token inside a later match is restored in the wrong order.
- `cjk_ratio` is left out because it uses floating point.
- The Unicode normalisation (NFKD) step of `slugify` is not modelled. `Slug.Slugify` takes text that is already normalised.
- scripts/fix_mdx_format.py is not part of this model. It is a chain of regular-expression substitutions with back-references and lazy multiline patterns.
- The clock is not modelled. The sitemap's `lastmod` timestamp is a parameter.
- React rendering and the DOM are not modelled beyond the state the source updates:
  - `import.meta.glob` and MDX compilation: modules arrive as data.
  - The DOM writes of the `document.title` and canonical-link effects (`querySelector`, `createElement`, `setAttribute`, `appendChild`). The values they write are modelled (DocsCommon.DocHead, DocsCommon.ActiveIndexAgrees, DocsCommon.CanonicalIsRedirectTarget).
  - The clipboard call, and the delay of `setTimeout` (the timer is an explicit `TimerFires` event).
  - Effect scheduling and re-rendering.
- React Router's matcher itself is not modelled. AppRoutes states its behaviour for the app's patterns:
  - The path is split at `/`, and each piece is decoded with `decodeURIComponent`.
  - When any piece is malformed, the whole path is matched undecoded.
  - Static segments match regardless of ASCII letter case, trailing slashes are ignored, and a dynamic segment takes one non-empty piece.
- The router's re-encoding of a decoded `/` as `%2F`, which it turns back into `/` in parameter values, is not modelled. It changes no match against the app's fixed names or board names.
- Router releases that decode the whole path with `decodeURI` and then each parameter a second time are not modelled. The model follows the piece-by-piece decoding described above.
- The internals of LanguageContext are not part of this model. The language is a field of `Layout.Frame`.
- The presentational files are left out: Docs, Home, Privacy and Terms pages; CommandPalette, AdPlaceholder, Callout and CookieConsentBanner components; lib/utils.ts, types.ts, md-content.d.ts and data/docs.ts.
- Collation.Compare: ICU's `localeCompare` for `zh-Hans-CN` with `{ numeric: true, sensitivity: 'base' }` is replaced by an explicit rule. Runs of ASCII digits compare by value, ASCII letters compare case-insensitively, and other characters compare by code point. ICU's ordering of punctuation, accents and CJK characters is not modelled.
- Sitemap.SortUrls: `a.localeCompare(b)` with the default locale is taken as any total preorder over strings, given as a parameter. The URLs are held as a set rather than an insertion-ordered `Set`, so the order of two distinct URLs that the comparator ties is left unspecified, where JavaScript keeps their insertion order.
- Text.Lower: lower-casing is ASCII only. `toLowerCase` and `str.lower` on other letters are not modelled.
- Strings are sequences of Unicode scalar values. JavaScript's UTF-16 code units are not modelled, so a lone surrogate cannot occur, and neither can the `URIError` that `encodeURIComponent` throws on one.
- Regex.Match: only concatenations of repeated single character classes and the `^` and `$` anchors are modelled. The patterns the core uses need nothing more. Alternation, groups inside repetition and back-references are not modelled.
- MigrateBody.ItalicRuleIdempotent: idempotence over a whole body is proved only when the body's last line is not blank. `splitlines` followed by `"\n".join` drops a trailing blank line, so the rule is not idempotent on such a body (see MigrateBody.ItalicRuleDropsTrailingBlank). Line by line it is idempotent without condition (MigrateBody.ItalicLineIdempotent).
- MigrateFrontmatter.ComposeParseRoundTrip: the round trip is proved for plain values only. A plain value has no double quote, backslash or line boundary, and no single quote at either end. `parse_frontmatter` does not undo the escapes of `quote_yaml`, and it strips quotes from the ends of the value.
- GeminiDocs.ParseDocFileMeta: category orders are exact integers. `Number(match[1])` yields a double, whose rounding above 2^53 (two digit runs can then share a category key) and whose `Infinity` for runs of more than about 309 digits (a `NaN` in the comparator) are not modelled.
- GeminiDocs.ParseDocFileMetaSome: states the exact value of the leading digits as the category order, for the reason on the GeminiDocs.ParseDocFileMeta line.
- GeminiDocs.ItemOfWellParsed: states the exact value of the leading digits as the item's order, for the reason on the GeminiDocs.ParseDocFileMeta line.
- AdConsent.GetItem, AdConsent.Provider.Restore, AdConsent.Provider.SetConsent: `localStorage` never fails in the model. In a browser `getItem` and `setItem` can throw (storage blocked, quota exceeded), and the source does not catch this: `setConsent` has then already changed the status while the stored decision stays as it was. That path is not modelled.
- Duplicate slugs are not rejected, as in the source: resolution takes the first document whose slug matches.
