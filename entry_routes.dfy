/** data/docEntryRoutes.ts: the page each documentation board opens on. */
module EntryRoutes {
  import opened Text

  /** The board keys, in the order of the table. */
  const Categories: seq<string> := ["claude", "gemini", "opencode", "codex", "playbook"]

  /** The path of a document of a board. */
  function DocPath(category: string, slug: string): string {
    "/docs/" + category + "/" + slug
  }

  /** `docEntryRoutes`, each path written as its board and slug
      (`DocPath("claude", "claude-code-overview")` is
      `/docs/claude/claude-code-overview`). */
  const DocEntryRoutes: map<string, string> := map[
    "claude" := DocPath("claude", "claude-code-overview"),
    "gemini" := DocPath("gemini", "quickstart-installation"),
    "opencode" := DocPath("opencode", "opencode-intro"),
    "codex" := DocPath("codex", "authentication"),
    "playbook" := DocPath("playbook", "claude-code-token-context-surgery")
  ]

  /** `getDocEntryRoute`: the table entry of a known board, the claude entry
      for any other id; the result is always one of the table's routes. */
  function GetDocEntryRoute(toolId: string): (r: string)
    ensures toolId in DocEntryRoutes ==> r == DocEntryRoutes[toolId]
    ensures toolId !in DocEntryRoutes ==> r == DocEntryRoutes["claude"]
    ensures r in DocEntryRoutes.Values
  {
    if toolId == "claude" then DocEntryRoutes["claude"]
    else if toolId == "gemini" then DocEntryRoutes["gemini"]
    else if toolId == "opencode" then DocEntryRoutes["opencode"]
    else if toolId == "codex" then DocEntryRoutes["codex"]
    else if toolId == "playbook" then DocEntryRoutes["playbook"]
    else DocEntryRoutes["claude"]
  }

  /** The table's keys are exactly the boards. */
  lemma CategoriesAreKeys(k: string)
    ensures k in DocEntryRoutes <==> k in Categories
  {
  }

  /** The slug each entry route ends with: every entry of board `k` is the
      path of a document of `k` whose slug is a single non-empty segment. */
  function EntrySlug(k: string): (slug: string)
    requires k in DocEntryRoutes
    ensures slug != "" && '/' !in slug
    ensures k != "" && '/' !in k
    ensures DocEntryRoutes[k] == DocPath(k, slug)
  {
    if k == "claude" then "claude-code-overview"
    else if k == "gemini" then "quickstart-installation"
    else if k == "opencode" then "opencode-intro"
    else if k == "codex" then "authentication"
    else "claude-code-token-context-surgery"
  }
}
