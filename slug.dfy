/** URL slugs. `toSafeSlug` is written identically in pages/GeminiDocs.tsx,
    pages/PlaybookDocs.tsx and scripts/generate-sitemap.mjs, so it is defined
    once here; `slugify` and the slug-keep rule of `prepare_en_fields` come
    from scripts/migrate_docs_bilingual.py. */
module Slug {
  import opened Text

  predicate IsDash(c: char) { c == '-' }

  predicate IsNotSlugAlnum(c: char) { !IsAsciiAlnumLower(c) }

  predicate IsSlugChar(c: char) { IsAsciiAlnumLower(c) || c == '-' }

  predicate NoDoubleDash(s: string) {
    forall i :: 0 <= i < |s| - 1 ==> !(s[i] == '-' && s[i + 1] == '-')
  }

  /** What both slug functions guarantee: non-empty, only `[a-z0-9-]`, no
      leading, trailing or doubled `-`. */
  predicate IsSafeSlug(s: string) {
    && s != []
    && AllChars(s, IsSlugChar)
    && s[0] != '-' && s[|s| - 1] != '-'
    && NoDoubleDash(s)
  }

  // ---------------------------------------------------------------------------
  // Replacing runs

  /** Length of the run of `inRun` characters at the start of `s`. */
  function RunLength(s: string, inRun: char -> bool): (n: nat)
    ensures n <= |s|
    ensures forall i :: 0 <= i < n ==> inRun(s[i])
    ensures n < |s| ==> !inRun(s[n])
  {
    if s == [] || !inRun(s[0]) then 0 else 1 + RunLength(s[1..], inRun)
  }

  /** `re.sub("[…]+", rep, s)` and `s.replace(/[…]+/g, rep)`: every maximal run
      of `inRun` characters becomes one `rep`. */
  function ReplaceRuns(s: string, inRun: char -> bool, rep: char): (r: string)
    requires inRun(rep)
    ensures forall i :: 0 <= i < |r| ==> r[i] == rep || !inRun(r[i])
    ensures forall i :: 0 <= i < |r| - 1 ==> !(r[i] == rep && r[i + 1] == rep)
    ensures r == [] <==> s == []
    ensures s != [] && !inRun(s[0]) ==> r[0] == s[0]
    ensures s != [] && inRun(s[0]) ==> r[0] == rep
    decreases |s|
  {
    if s == [] then []
    else if !inRun(s[0]) then [s[0]] + ReplaceRuns(s[1..], inRun, rep)
    else
      var n := RunLength(s, inRun);
      [rep] + ReplaceRuns(s[n..], inRun, rep)
  }

  /** `replace(/[^a-z0-9]+/g, '-')`. */
  function Collapse(s: string): string {
    ReplaceRuns(s, IsNotSlugAlnum, '-')
  }

  /** `re.sub(r"-+", "-", s)`. */
  function SquashDashes(s: string): string {
    ReplaceRuns(s, IsDash, '-')
  }

  /** `replace(/^-+|-+$/g, '')` and Python's `strip("-")`. */
  function StripDashes(s: string): string {
    Strip(s, IsDash)
  }

  /** The letters and digits of `s`, in order. */
  function Alnums(s: string): string {
    if s == [] then [] else (if IsAsciiAlnumLower(s[0]) then [s[0]] else []) + Alnums(s[1..])
  }

  lemma {:induction false} AlnumsAppend(a: string, b: string)
    ensures Alnums(a + b) == Alnums(a) + Alnums(b)
  {
    if a != [] {
      assert (a + b)[1..] == a[1..] + b;
      AlnumsAppend(a[1..], b);
    } else {
      assert a + b == b;
    }
  }

  lemma {:induction false} AlnumsNone(s: string)
    requires forall i :: 0 <= i < |s| ==> !IsAsciiAlnumLower(s[i])
    ensures Alnums(s) == []
  {
    if s != [] {
      AlnumsNone(s[1..]);
    }
  }

  /** Collapsing keeps every letter and digit, in order. */
  lemma {:induction false} CollapseKeepsAlnums(s: string)
    ensures Alnums(Collapse(s)) == Alnums(s)
    decreases |s|
  {
    if s != [] {
      if IsAsciiAlnumLower(s[0]) {
        CollapseKeepsAlnums(s[1..]);
      } else {
        var n := RunLength(s, IsNotSlugAlnum);
        CollapseKeepsAlnums(s[n..]);
        assert s == s[..n] + s[n..];
        AlnumsNone(s[..n]);
        AlnumsAppend(s[..n], s[n..]);
        assert Alnums("-") == [];
      }
    }
  }

  /** The shared core: collapse, then strip the dashes at both ends. */
  function SlugCore(s: string): string {
    StripDashes(Collapse(s))
  }

  lemma CollapseShape(s: string)
    ensures AllChars(Collapse(s), IsSlugChar)
    ensures NoDoubleDash(Collapse(s))
  {
  }

  /** Dropping dashes never drops a letter or digit. */
  lemma AlnumsPastDashes(c: string, k: nat)
    requires k <= |c|
    requires forall i :: 0 <= i < k ==> IsDash(c[i])
    ensures Alnums(c[k..]) == Alnums(c)
  {
    assert c == c[..k] + c[k..];
    AlnumsNone(c[..k]);
    AlnumsAppend(c[..k], c[k..]);
  }

  lemma AlnumsBeforeDashes(c: string, k: nat)
    requires k <= |c|
    requires forall i :: k <= i < |c| ==> IsDash(c[i])
    ensures Alnums(c[..k]) == Alnums(c)
  {
    assert c == c[..k] + c[k..];
    AlnumsNone(c[k..]);
    AlnumsAppend(c[..k], c[k..]);
  }

  lemma StripDashesAlnums(c: string)
    ensures Alnums(StripDashes(c)) == Alnums(c)
  {
    var a := StripStart(c, IsDash);
    AlnumsPastDashes(c, |c| - |a|);
    var r := StripEnd(a, IsDash);
    AlnumsBeforeDashes(a, |r|);
  }

  /** A slice of a string of slug characters without doubled dashes is one too. */
  lemma SliceKeepsShape(c: string, i: nat, j: nat)
    requires i <= j <= |c|
    requires AllChars(c, IsSlugChar) && NoDoubleDash(c)
    ensures AllChars(c[i..j], IsSlugChar) && NoDoubleDash(c[i..j])
  {
    var t := c[i..j];
    assert forall m :: 0 <= m < |t| ==> t[m] == c[i + m];
  }

  /** Stripping the edge dashes of a collapsed string leaves a safe slug, or
      nothing when there was no letter or digit. */
  lemma StripDashesShape(c: string)
    requires AllChars(c, IsSlugChar) && NoDoubleDash(c)
    ensures var r := StripDashes(c);
      && (r == [] <==> Alnums(c) == [])
      && (r != [] ==> IsSafeSlug(r))
      && Alnums(r) == Alnums(c)
  {
    StripDashesAlnums(c);
    StripDashesSafe(c);
    var r := StripDashes(c);
    if r != [] {
      assert r == [r[0]] + r[1..];
      AlnumsAppend([r[0]], r[1..]);
    }
  }

  /** What is left after stripping the edge dashes is a safe slug. */
  lemma StripDashesSafe(c: string)
    requires AllChars(c, IsSlugChar) && NoDoubleDash(c)
    ensures StripDashes(c) != [] ==> IsSafeSlug(StripDashes(c)) && IsAsciiAlnumLower(StripDashes(c)[0])
  {
    var a := StripStart(c, IsDash);
    SafeAfterStrip(c, a, StripEnd(a, IsDash));
  }

  /** A middle slice of slug characters that neither starts nor ends with a
      dash is a safe slug starting with a letter or digit. */
  lemma SafeAfterStrip(c: string, a: string, r: string)
    requires AllChars(c, IsSlugChar) && NoDoubleDash(c)
    requires |a| <= |c| && a == c[|c| - |a|..] && (a == [] || !IsDash(a[0]))
    requires |r| <= |a| && r == a[..|r|] && (r == [] || !IsDash(r[|r| - 1]))
    ensures r != [] ==> IsSafeSlug(r) && IsAsciiAlnumLower(r[0])
  {
    if r != [] {
      var k := |c| - |a|;
      assert r == c[k..k + |r|];
      SliceKeepsShape(c, k, k + |r|);
      assert r[0] == a[0];
      assert IsSlugChar(r[0]);
    }
  }

  /** The core is a safe slug made of the input's letters and digits, or empty
      exactly when the input has none. */
  lemma SlugCoreShape(s: string)
    ensures var r := SlugCore(s);
      && (r == [] <==> Alnums(s) == [])
      && (r != [] ==> IsSafeSlug(r))
      && Alnums(r) == Alnums(s)
  {
    CollapseShape(s);
    CollapseKeepsAlnums(s);
    StripDashesShape(Collapse(s));
  }

  // ---------------------------------------------------------------------------
  // toSafeSlug (pages/GeminiDocs.tsx, pages/PlaybookDocs.tsx, scripts/generate-sitemap.mjs)

  /** Lower-cased, with a final `_final.mdx` (any case) cut off. */
  function CleanName(v: string): string {
    var l := Lower(v);
    if EndsWith(l, "_final.mdx") then l[..|l| - 10] else l
  }

  function ToSafeSlug(v: string): string {
    var r := SlugCore(CleanName(v));
    if r == [] then "doc" else r
  }

  /** toSafeSlug always yields a safe slug: the letters and digits of the
      cleaned name, or `"doc"` when there are none. */
  lemma ToSafeSlugSafe(v: string)
    ensures IsSafeSlug(ToSafeSlug(v))
    ensures Alnums(CleanName(v)) == [] ==> ToSafeSlug(v) == "doc"
    ensures Alnums(CleanName(v)) != [] ==> Alnums(ToSafeSlug(v)) == Alnums(CleanName(v))
  {
    SlugCoreShape(CleanName(v));
    DocIsSafe();
  }

  lemma DocIsSafe()
    ensures IsSafeSlug("doc")
  {
    var d := "doc";
    assert AllChars(d, IsSlugChar) && NoDoubleDash(d);
  }

  lemma {:induction false} ReplaceRunsFixed(s: string, inRun: char -> bool, rep: char)
    requires inRun(rep)
    requires forall i :: 0 <= i < |s| ==> s[i] == rep || !inRun(s[i])
    requires forall i :: 0 <= i < |s| - 1 ==> !(s[i] == rep && s[i + 1] == rep)
    ensures ReplaceRuns(s, inRun, rep) == s
    decreases |s|
  {
    if s != [] {
      ReplaceRunsFixed(s[1..], inRun, rep);
      if inRun(s[0]) {
        assert RunLength(s, inRun) == 1 by {
          assert |s| > 1 ==> s[1] != rep;
        }
      }
      assert s == [s[0]] + s[1..];
    }
  }

  /** A safe slug is its own core. */
  lemma SlugCoreFixed(s: string)
    requires IsSafeSlug(s)
    ensures SlugCore(s) == s
  {
    ReplaceRunsFixed(s, IsNotSlugAlnum, '-');
    assert StripStart(s, IsDash) == s;
    assert StripEnd(s, IsDash) == s;
  }

  /** A safe slug is its own slug. */
  lemma ToSafeSlugFixed(s: string)
    requires IsSafeSlug(s)
    ensures ToSafeSlug(s) == s
  {
    SlugCharsLower(s);
    SlugCharsNotFinal(s);
    assert CleanName(s) == s;
    SlugCoreFixed(s);
  }

  /** Slug characters are already lower case. */
  lemma SlugCharsLower(s: string)
    requires AllChars(s, IsSlugChar)
    ensures Lower(s) == s
  {
    forall i | 0 <= i < |s|
      ensures LowerChar(s[i]) == s[i]
    {
      assert IsSlugChar(s[i]);
    }
    LowerEach(s, s);
  }

  /** A text of slug characters has no `_`, so no `_final.mdx` ending. */
  lemma SlugCharsNotFinal(s: string)
    requires AllChars(s, IsSlugChar)
    ensures !EndsWith(s, "_final.mdx")
  {
    if |s| >= 10 {
      var k := |s| - 10;
      assert IsSlugChar(s[k]);
      assert s[k..][0] == s[k];
    }
  }

  /** toSafeSlug is idempotent. */
  lemma ToSafeSlugIdempotent(v: string)
    ensures ToSafeSlug(ToSafeSlug(v)) == ToSafeSlug(v)
  {
    ToSafeSlugSafe(v);
    ToSafeSlugFixed(ToSafeSlug(v));
  }

  lemma LowerAppend(a: string, b: string)
    ensures Lower(a + b) == Lower(a) + Lower(b)
  {
    var w := Lower(a) + Lower(b);
    forall i | 0 <= i < |a + b|
      ensures LowerChar((a + b)[i]) == w[i]
    {
      if i < |a| {
        assert (a + b)[i] == a[i] && w[i] == Lower(a)[i];
      } else {
        assert (a + b)[i] == b[i - |a|] && w[i] == Lower(b)[i - |a|];
      }
    }
    LowerEach(a + b, w);
  }

  /** A trailing `_final.mdx`, in any letter case, is dropped before the slug is formed. */
  lemma ToSafeSlugDropsFinal(stem: string, suffix: string)
    requires Lower(suffix) == "_final.mdx"
    ensures ToSafeSlug(stem + suffix) == var r := SlugCore(Lower(stem)); if r == [] then "doc" else r
  {
    LowerAppend(stem, suffix);
    var l := Lower(stem + suffix);
    assert l[|l| - 10..] == "_final.mdx";
    assert l[..|l| - 10] == Lower(stem);
  }

  lemma CollapseDotMdx()
    ensures Collapse("a.mdx") == "a-mdx"
  {
    assert "a.mdx"[1..] == ".mdx";
    assert RunLength(".mdx", IsNotSlugAlnum) == 1 by {
      assert ".mdx"[1..] == "mdx";
    }
    assert ".mdx"[1..] == "mdx";
    ReplaceRunsFixed("mdx", IsNotSlugAlnum, '-');
  }

  /** A plain `.mdx` extension is kept as `-mdx`. */
  lemma ToSafeSlugKeepsMdx()
    ensures ToSafeSlug("A.mdx") == "a-mdx"
  {
    assert Lower("A.mdx") == "a.mdx";
    assert CleanName("A.mdx") == "a.mdx";
    CollapseDotMdx();
    assert StripStart("a-mdx", IsDash) == "a-mdx";
    assert StripEnd("a-mdx", IsDash) == "a-mdx";
  }

  // ---------------------------------------------------------------------------
  // slugify and the slug-keep rule (scripts/migrate_docs_bilingual.py)

  /** `encode("ascii", "ignore").decode("ascii")`: drops every non-ASCII character. */
  function AsciiOnly(s: string): (r: string)
    ensures forall i :: 0 <= i < |r| ==> r[i] < '\U{80}'
    ensures |r| <= |s|
  {
    if s == [] then []
    else (if s[0] < '\U{80}' then [s[0]] else []) + AsciiOnly(s[1..])
  }

  /** `re.sub("-+", "-", re.sub("[^a-z0-9]+", "-", s.lower())).strip("-")`. */
  function PySlugCore(s: string): string {
    StripDashes(SquashDashes(Collapse(Lower(s))))
  }

  /** The second substitution finds nothing left to squash. */
  lemma PySlugCoreIsSlugCore(s: string)
    ensures PySlugCore(s) == SlugCore(Lower(s))
  {
    var c := Collapse(Lower(s));
    ReplaceRunsFixed(c, IsDash, '-');
  }

  /** `slugify(text, fallback)`, from the NFKD-normalised `text` on. */
  function Slugify(normalized: string, fallback: string): string {
    var a := PySlugCore(AsciiOnly(normalized));
    if a != [] then a
    else
      var f := PySlugCore(fallback);
      if f != [] then f else "doc"
  }

  /** slugify yields a safe slug: from the text if it has an ASCII letter or
      digit, else from the fallback if that has one, else `"doc"`. */
  lemma SlugifySafe(normalized: string, fallback: string)
    ensures IsSafeSlug(Slugify(normalized, fallback))
    ensures var a := Lower(AsciiOnly(normalized));
      Alnums(a) != [] ==> Slugify(normalized, fallback) == SlugCore(a)
    ensures var a, f := Lower(AsciiOnly(normalized)), Lower(fallback);
      Alnums(a) == [] && Alnums(f) != [] ==> Slugify(normalized, fallback) == SlugCore(f)
    ensures var a, f := Lower(AsciiOnly(normalized)), Lower(fallback);
      Alnums(a) == [] && Alnums(f) == [] ==> Slugify(normalized, fallback) == "doc"
  {
    var a := AsciiOnly(normalized);
    PySlugCoreIsSlugCore(a);
    SlugCoreShape(Lower(a));
    if PySlugCore(a) == [] {
      PySlugCoreIsSlugCore(fallback);
      SlugCoreShape(Lower(fallback));
      if PySlugCore(fallback) == [] {
        DocIsSafe();
      }
    }
  }

  predicate IsKeepChar(c: char) {
    ('a' <= c <= 'z') || ('A' <= c <= 'Z') || IsDigit(c) || c == '-'
  }

  /** The slug `prepare_en_fields` settles on: the stripped `slug` entry when it
      is non-empty and only `[A-Za-z0-9-]`, else `slugify(title_en, stem)`;
      then stripped once more. `normalizedTitle` is the NFKD form of the
      English title. */
  function PrepareSlug(frontmatter: map<string, string>, normalizedTitle: string, stem: string): string {
    var slug := StripPy(if "slug" in frontmatter then frontmatter["slug"] else "");
    var chosen := if slug == [] || !AllChars(slug, IsKeepChar) then Slugify(normalizedTitle, stem) else slug;
    StripPy(chosen)
  }

  /** The source slug is kept exactly when it is usable; otherwise the result
      is a safe slug. */
  lemma PrepareSlugRule(frontmatter: map<string, string>, normalizedTitle: string, stem: string)
    ensures var src := StripPy(if "slug" in frontmatter then frontmatter["slug"] else "");
      var r := PrepareSlug(frontmatter, normalizedTitle, stem);
      && (src != [] && AllChars(src, IsKeepChar) ==> r == src)
      && (src == [] || !AllChars(src, IsKeepChar) ==> r == Slugify(normalizedTitle, stem) && IsSafeSlug(r))
  {
    var raw := if "slug" in frontmatter then frontmatter["slug"] else "";
    var src := StripPy(raw);
    StripPyStrip(raw);
    if src != [] && AllChars(src, IsKeepChar) {
      StripPyStrip(src);
      StripIdempotent(raw, IsPySpace);
    } else {
      var g := Slugify(normalizedTitle, stem);
      SlugifySafe(normalizedTitle, stem);
      SafeSlugUnstripped(g);
    }
  }

  /** A safe slug has no white space to strip. */
  lemma SafeSlugUnstripped(g: string)
    requires IsSafeSlug(g)
    ensures StripPy(g) == g
  {
    assert !IsPySpace(g[0]) && !IsPySpace(g[|g| - 1]) by {
      assert IsSlugChar(g[0]) && IsSlugChar(g[|g| - 1]);
    }
    assert LStripPy(g) == g;
    assert RStripPy(g) == g;
  }
}
