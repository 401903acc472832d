/** Component synthesis: `sanitizeClassName`, `buildComponentResult` and the
    per-job summary `processQueue` stores for a finished job. */
module Components {
  import opened Wrappers
  import opened Text
  import opened Css
  import opened Markup

  // ---------- class names ----------

  /** The characters `sanitizeClassName` keeps: `[a-zA-Z0-9\-_]`. */
  predicate IsClassChar(c: char)
  {
    'a' <= c <= 'z' || 'A' <= c <= 'Z' || '0' <= c <= '9' || c == '-' || c == '_'
  }

  predicate IsClassName(s: string)
  {
    forall i :: 0 <= i < |s| ==> IsClassChar(s[i])
  }

  /** `replace(/[^a-zA-Z0-9\-_]/g, "-")`. */
  function Sanitize(s: string): (r: string)
    ensures |r| == |s| && IsClassName(r)
  {
    seq(|s|, i requires 0 <= i < |s| => if IsClassChar(s[i]) then s[i] else '-')
  }

  /** Allowed characters keep their place; every other character becomes `-`. */
  lemma SanitizeKeepsAllowed(s: string, i: nat)
    requires i < |s|
    ensures IsClassChar(s[i]) ==> Sanitize(s)[i] == s[i]
    ensures !IsClassChar(s[i]) ==> Sanitize(s)[i] == '-'
  {
  }

  /** A string that is already a class name is left alone, so sanitizing is
      idempotent. */
  lemma SanitizeClassNameUnchanged(s: string)
    requires IsClassName(s)
    ensures Sanitize(s) == s
  {
  }

  lemma SanitizeIdempotent(s: string)
    ensures Sanitize(Sanitize(s)) == Sanitize(s)
  {
    SanitizeClassNameUnchanged(Sanitize(s));
  }

  lemma SanitizeAppend(a: string, b: string)
    ensures Sanitize(a + b) == Sanitize(a) + Sanitize(b)
  {
  }

  /** `sanitizeClassName(base, idx)`: `${base}-${idx}` made a valid class name. */
  function SanitizeClassName(base: string, idx: nat): string
  {
    Sanitize(base + "-" + Decimal(idx))
  }

  /** The number and the dash before it survive sanitizing untouched. */
  lemma ClassNameSuffix(base: string, idx: nat)
    ensures SanitizeClassName(base, idx) == Sanitize(base) + "-" + Decimal(idx)
    ensures IsClassName(SanitizeClassName(base, idx))
    ensures |SanitizeClassName(base, idx)| == |base| + 1 + |Decimal(idx)|
  {
    var d := Decimal(idx);
    SanitizeAppend(base, "-" + d);
    assert IsClassName("-" + d);
    SanitizeClassNameUnchanged("-" + d);
    assert base + "-" + d == base + ("-" + d);
  }

  /** The text after the last `-` of `s` (all of `s` when it has none). */
  function AfterLastDash(s: string): string
  {
    if s == [] || s[|s| - 1] == '-' then []
    else AfterLastDash(s[..|s| - 1]) + [s[|s| - 1]]
  }

  /** A dash-free suffix written after a dash is read back whole. */
  lemma {:induction false} AfterLastDashOf(a: string, d: string)
    requires '-' !in d
    ensures AfterLastDash(a + "-" + d) == d
    decreases |d|
  {
    var s := a + "-" + d;
    if d != [] {
      var init := d[..|d| - 1];
      assert s[..|s| - 1] == a + "-" + init;
      assert d[|d| - 1] in d;
      assert '-' !in init by {
        assert forall x :: x in init ==> x in d;
      }
      AfterLastDashOf(a, init);
      assert init + [d[|d| - 1]] == d;
    }
  }

  /** The class name of the component at position `idx` of a job. */
  function ComponentClassName(kind: string, idx: nat): string
  {
    SanitizeClassName("gen-" + kind, idx + 1)
  }

  /** Class names are pairwise distinct across a job's components, whatever
      their kinds: the numeric suffix differs. */
  lemma ClassNamesDistinct(kind1: string, idx1: nat, kind2: string, idx2: nat)
    requires idx1 != idx2
    ensures ComponentClassName(kind1, idx1) != ComponentClassName(kind2, idx2)
  {
    var d1, d2 := Decimal(idx1 + 1), Decimal(idx2 + 1);
    ClassNameSuffix("gen-" + kind1, idx1 + 1);
    ClassNameSuffix("gen-" + kind2, idx2 + 1);
    if ComponentClassName(kind1, idx1) == ComponentClassName(kind2, idx2) {
      DecimalHasNoDash(idx1 + 1);
      DecimalHasNoDash(idx2 + 1);
      SameTextAfterDash(Sanitize("gen-" + kind1), d1, Sanitize("gen-" + kind2), d2);
      DecimalInjective(idx1 + 1, idx2 + 1);
    }
  }

  lemma DecimalHasNoDash(n: nat)
    ensures '-' !in Decimal(n)
  {
    var d := Decimal(n);
    assert forall i :: 0 <= i < |d| ==> IsDigit(d[i]);
  }

  /** Equal names with dash-free endings after their last dash have equal
      endings. */
  lemma SameTextAfterDash(a1: string, d1: string, a2: string, d2: string)
    requires '-' !in d1 && '-' !in d2
    requires a1 + "-" + d1 == a2 + "-" + d2
    ensures d1 == d2
  {
    AfterLastDashOf(a1, d1);
    AfterLastDashOf(a2, d2);
  }

  /** Every component class name starts with `gen-`. */
  lemma ComponentClassNamePrefix(kind: string, idx: nat)
    ensures StartsWith(ComponentClassName(kind, idx), "gen-")
  {
    var base := "gen-" + kind;
    ClassNameSuffix(base, idx + 1);
    SanitizeAppend("gen-", kind);
    SanitizeClassNameUnchanged("gen-");
    ConcatEnds("gen-", Sanitize(kind), "-" + Decimal(idx + 1));
    assert Sanitize(base) + "-" + Decimal(idx + 1) == "gen-" + Sanitize(kind) + ("-" + Decimal(idx + 1));
  }

  // ---------- React snippet ----------

  /** A JavaScript identifier made of ASCII letters, digits, `_` and `$`. */
  predicate IsIdentifier(s: string)
  {
    && s != []
    && !IsDigit(s[0])
    && forall i :: 0 <= i < |s| ==>
         'a' <= s[i] <= 'z' || 'A' <= s[i] <= 'Z' || IsDigit(s[i]) || s[i] == '_' || s[i] == '$'
  }

  /** The name of the generated React function: the class name with every `-`
      replaced by `_`. */
  function ReactFunctionName(className: string): string
  {
    ReplaceChar(className, '-', "_")
  }

  /** The generated function name is always a valid identifier. */
  lemma ReactFunctionNameIsIdentifier(kind: string, idx: nat)
    ensures IsIdentifier(ReactFunctionName(ComponentClassName(kind, idx)))
  {
    var cls := ComponentClassName(kind, idx);
    var name := ReactFunctionName(cls);
    ClassNameSuffix("gen-" + kind, idx + 1);
    ComponentClassNamePrefix(kind, idx);
    assert cls == [cls[0]] + cls[1..] && cls[0] == 'g';
    ReplaceCharAppend([cls[0]], cls[1..], '-', "_");
    ReplaceCharSingle(cls[0], '-', "_");
    assert name[0] == 'g';
    forall i | 0 <= i < |name|
      ensures 'a' <= name[i] <= 'z' || 'A' <= name[i] <= 'Z' || IsDigit(name[i]) || name[i] == '_' || name[i] == '$'
    {
      assert name[i] in name;
      assert name[i] != '-';
      if name[i] in cls {
        var j :| 0 <= j < |cls| && cls[j] == name[i];
        assert IsClassChar(cls[j]);
      }
    }
  }

  function ReactHead(name: string): string
  {
    "\nimport React from \"react\";\nimport \"./styles.css\";\n\nexport function " + name + "() {\n  return (\n    "
  }

  const ReactTail: string := "\n  );\n}\n"

  /** The React module text for one component. */
  function ReactSnippet(className: string, htmlSnippet: string): string
  {
    ReactHead(ReactFunctionName(className)) + htmlSnippet + ReactTail
  }

  /** The markup sits unchanged between the fixed head and tail, so it can be
      cut back out of the module text. */
  lemma ReactSnippetEmbedsMarkup(className: string, htmlSnippet: string)
    ensures var r := ReactSnippet(className, htmlSnippet);
      var h := |ReactHead(ReactFunctionName(className))|;
      && StartsWith(r, ReactHead(ReactFunctionName(className)))
      && EndsWith(r, ReactTail)
      && r[h..|r| - |ReactTail|] == htmlSnippet
  {
    var head := ReactHead(ReactFunctionName(className));
    ConcatEnds(head, htmlSnippet, ReactTail);
  }

  // ---------- outerHTML preview ----------

  const PreviewLength: nat := 200

  /** `outerHTML?.slice(0, 200) + (outerHTML?.length > 200 ? "..." : "")`:
      the first 200 characters and `...` when something was cut; a missing
      `outerHTML` gives the text `undefined` (`undefined + ""`). */
  function OuterHtmlPreview(outer: Option<string>): (r: string)
    ensures outer.None? ==> r == "undefined"
    ensures outer.Some? && |outer.value| <= PreviewLength ==> r == outer.value
    ensures outer.Some? && |outer.value| > PreviewLength ==>
      |r| == PreviewLength + 3 && r[..PreviewLength] == outer.value[..PreviewLength] && EndsWith(r, "...")
  {
    match outer
    case None => "undefined"
    case Some(h) =>
      if |h| > PreviewLength then h[..PreviewLength] + "..." else h
  }

  // ---------- buildComponentResult ----------

  /** The artifact record for one captured element. */
  datatype Component = Component(
    index: nat,
    kind: string,
    cleanedHtml: string,
    htmlSnippet: string,
    className: string,
    css: string,
    reactSnippet: string,
    originalOuterHtml: string)

  /** `buildComponentResult(el, idx)`. */
  function BuildComponentResult(el: Descriptor, idx: nat): Component
  {
    var kind := ToLowerAscii(el.tagName);
    var className := ComponentClassName(kind, idx);
    var cleaned := BuildCleanHtml(el);
    var snippet := InjectClass(cleaned, className);
    Component(
      idx + 1, kind, cleaned, snippet, className,
      BuildCssForElement(className, el.computedStyles),
      ReactSnippet(className, snippet),
      OuterHtmlPreview(el.outerHtml))
  }

  /** The ordinal is one-based, the class name is a valid class name carrying
      that ordinal, and the React function is named after it. */
  lemma ComponentNaming(el: Descriptor, idx: nat)
    ensures var c := BuildComponentResult(el, idx);
      && c.index == idx + 1
      && c.kind == ToLowerAscii(el.tagName)
      && IsClassName(c.className)
      && StartsWith(c.className, "gen-")
      && EndsWith(c.className, "-" + Decimal(idx + 1))
      && IsIdentifier(ReactFunctionName(c.className))
  {
    var kind := ToLowerAscii(el.tagName);
    var cls := ComponentClassName(kind, idx);
    ClassNameSuffix("gen-" + kind, idx + 1);
    ComponentClassNamePrefix(kind, idx);
    ReactFunctionNameIsIdentifier(kind, idx);
    ConcatEnds(Sanitize("gen-" + kind), "", "-" + Decimal(idx + 1));
    assert Sanitize("gen-" + kind) + "" + ("-" + Decimal(idx + 1)) == cls;
  }

  /** `snippet` is `cleaned`, which opens with `<kind `, with ` class="cls"`
      inserted right after the tag name; cutting that attribute out again
      gives `cleaned` back. */
  predicate CarriesClass(cleaned: string, kind: string, cls: string, snippet: string)
  {
    var n := 1 + |kind|;
    && StartsWith(cleaned, "<" + kind + " ")
    && snippet == "<" + kind + ClassAttribute(cls) + cleaned[n..]
    && snippet[..n] + snippet[n + |ClassAttribute(cls)|..] == cleaned
  }

  /** For a tag name made of `[a-z0-9-]` (every HTML tag name, lower-cased),
      the snippet is the cleaned markup with ` class="..."` inserted right after
      the tag name, and taking that attribute out again gives the cleaned
      markup back. */
  lemma ComponentSnippetCarriesClass(el: Descriptor, idx: nat)
    requires IsPlainTagName(ToLowerAscii(el.tagName))
    ensures var c := BuildComponentResult(el, idx);
      CarriesClass(c.cleanedHtml, c.kind, c.className, c.htmlSnippet)
  {
    var c := BuildComponentResult(el, idx);
    assert c.htmlSnippet == InjectClass(c.cleanedHtml, c.className);
    assert c.cleanedHtml == BuildCleanHtml(el) && c.kind == ToLowerAscii(el.tagName);
    OpeningCarriesClass(el, c.className);
  }

  lemma OpeningCarriesClass(el: Descriptor, cls: string)
    requires IsPlainTagName(ToLowerAscii(el.tagName))
    ensures var cleaned := BuildCleanHtml(el);
      CarriesClass(cleaned, ToLowerAscii(el.tagName), cls, InjectClass(cleaned, cls))
  {
    var tag := ToLowerAscii(el.tagName);
    assert NoSpace(tag) by {
      assert forall i :: 0 <= i < |tag| ==> IsTagNameChar(tag[i]);
    }
    CleanHtmlOpening(el);
    ClassAfterTagName(BuildCleanHtml(el), tag, cls);
  }

  /** The CSS of a component is never empty: a rule or the placeholder comment. */
  lemma ComponentCssNonEmpty(el: Descriptor, idx: nat)
    ensures BuildComponentResult(el, idx).css != []
  {
    var cls := ComponentClassName(ToLowerAscii(el.tagName), idx);
    var css := BuildCssForElement(cls, el.computedStyles);
    if css != NoStylesComment(cls) {
      assert StartsWith(css, RuleOpen(cls));
    }
  }

  // ---------- the job summary ----------

  /** `raw.map((el, idx) => buildComponentResult(el, idx))`: one component per
      captured element, nothing filtered, deduplicated or capped. */
  function BuildComponents(raw: seq<Descriptor>): (cs: seq<Component>)
    ensures |cs| == |raw|
  {
    seq(|raw|, i requires 0 <= i < |raw| => BuildComponentResult(raw[i], i))
  }

  /** Components keep the capture order, are numbered 1, 2, ... and have
      pairwise distinct class names. */
  lemma ComponentsNumberedAndDistinct(raw: seq<Descriptor>)
    ensures var cs := BuildComponents(raw);
      && (forall i :: 0 <= i < |cs| ==> cs[i].index == i + 1 && cs[i].kind == ToLowerAscii(raw[i].tagName))
      && (forall i, j :: 0 <= i < j < |cs| ==> cs[i].className != cs[j].className)
  {
    var cs := BuildComponents(raw);
    forall i, j | 0 <= i < j < |cs|
      ensures cs[i].className != cs[j].className
    {
      ClassNamesDistinct(ToLowerAscii(raw[i].tagName), i, ToLowerAscii(raw[j].tagName), j);
    }
  }

  /** The `data` of a finished job. `completedAt` is a clock reading in
      milliseconds. */
  datatype Summary = Summary(
    url: string,
    componentCount: nat,
    components: seq<Component>,
    cssFile: string,
    reactFile: string,
    completedAt: nat)

  function CssOf(cs: seq<Component>): (r: seq<string>)
    ensures |r| == |cs| && forall i :: 0 <= i < |cs| ==> r[i] == cs[i].css
  {
    seq(|cs|, i requires 0 <= i < |cs| => cs[i].css)
  }

  function ReactOf(cs: seq<Component>): (r: seq<string>)
    ensures |r| == |cs| && forall i :: 0 <= i < |cs| ==> r[i] == cs[i].reactSnippet
  {
    seq(|cs|, i requires 0 <= i < |cs| => cs[i].reactSnippet)
  }

  /** The summary `processQueue` stores for a successful extraction. */
  function BuildSummary(url: string, raw: seq<Descriptor>, completedAt: nat): Summary
  {
    var cs := BuildComponents(raw);
    Summary(url, |cs|, cs, Join(CssOf(cs), "\n\n"), Join(ReactOf(cs), "\n\n"), completedAt)
  }

  /** The count is the number of captured elements, the CSS file is empty
      exactly when nothing was captured, and the React file is never empty
      once something was. */
  lemma SummaryShape(url: string, raw: seq<Descriptor>, completedAt: nat)
    ensures var s := BuildSummary(url, raw, completedAt);
      && s.url == url
      && s.componentCount == |raw| == |s.components|
      && (s.cssFile == [] <==> raw == [])
      && (s.reactFile == [] <==> raw == [])
  {
    var cs := BuildComponents(raw);
    if |raw| == 1 {
      ComponentCssNonEmpty(raw[0], 0);
      assert cs[0].reactSnippet != [] by {
        assert |ReactTail| > 0;
      }
    }
  }

  /** The two files are the components' CSS rules and React modules joined
      by a blank line: one more component appends a blank line and its own
      rule to the CSS file, and a blank line and its own module to the React
      file. */
  lemma SummaryFilesExtend(cs: seq<Component>, c: Component)
    requires cs != []
    ensures Join(CssOf(cs + [c]), "\n\n") == Join(CssOf(cs), "\n\n") + "\n\n" + c.css
    ensures Join(ReactOf(cs + [c]), "\n\n") == Join(ReactOf(cs), "\n\n") + "\n\n" + c.reactSnippet
  {
    assert CssOf(cs + [c]) == CssOf(cs) + [c.css];
    assert ReactOf(cs + [c]) == ReactOf(cs) + [c.reactSnippet];
    JoinAppend(CssOf(cs), c.css, "\n\n");
    JoinAppend(ReactOf(cs), c.reactSnippet, "\n\n");
  }
}
