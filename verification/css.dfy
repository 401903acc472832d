/** The CSS helpers of the server: the fixed property whitelist,
    `styleObjectToCss` and `buildCssForElement`. A captured style object is a
    map from property name to computed value. */
module Css {
  import opened Wrappers
  import opened Text
  import opened Selection

  /** The only properties that may appear in generated CSS, in emission order. */
  const Whitelist: seq<string> := [
    "display", "position", "top", "left", "right", "bottom",
    "width", "height", "margin", "margin-top", "margin-bottom", "margin-left", "margin-right",
    "padding", "padding-top", "padding-bottom", "padding-left", "padding-right",
    "font-size", "font-weight", "line-height", "color", "background-color",
    "border", "border-radius", "box-shadow", "text-align"
  ]

  /** A value worth emitting: non-empty (JavaScript-truthy) and none of the
      no-op values `auto`, `0px`, `normal`. */
  predicate Significant(v: string)
  {
    v != "" && v != "auto" && v != "0px" && v != "normal"
  }

  /** The value `styleObjectToCss` emits for `prop`, if any: the captured value
      when there is one and it is significant. */
  function StyleValue(style: map<string, string>, prop: string): Option<string>
  {
    if prop in style && Significant(style[prop]) then Some(style[prop]) else None
  }

  /** The declarations `styleObjectToCss` emits. */
  function Declarations(style: map<string, string>): seq<Entry>
  {
    Select(Whitelist, p => StyleValue(style, p))
  }

  lemma DeclarationSound(style: map<string, string>, i: nat)
    requires i < |Declarations(style)|
    ensures Declarations(style)[i].key in Whitelist
    ensures StyleValue(style, Declarations(style)[i].key) == Some(Declarations(style)[i].value)
  {
    SelectSound(Whitelist, p => StyleValue(style, p), i);
  }

  lemma DeclarationsComplete(style: map<string, string>, p: string)
    requires p in Whitelist && StyleValue(style, p).Some?
    ensures p in Keys(Declarations(style))
  {
    SelectComplete(Whitelist, q => StyleValue(style, q));
    var j :| 0 <= j < |Whitelist| && Whitelist[j] == p;
  }

  lemma DeclarationsOrdered(style: map<string, string>)
    ensures IsSubsequence(Keys(Declarations(style)), Whitelist)
  {
    SelectOrdered(Whitelist, q => StyleValue(style, q));
  }

  /** One `prop: value;` line. */
  function Line(d: Entry): string
  {
    d.key + ": " + d.value + ";"
  }

  function Lines(ds: seq<Entry>): (ls: seq<string>)
    ensures |ls| == |ds|
    ensures forall i :: 0 <= i < |ds| ==> ls[i] == Line(ds[i])
  {
    if ds == [] then [] else [Line(ds[0])] + Lines(ds[1..])
  }

  /** `styleObjectToCss`: the declaration lines joined by newlines; empty
      exactly when no whitelisted property carries a significant value. */
  function StyleObjectToCss(style: map<string, string>): (body: string)
    ensures body == [] <==> forall p :: p in Whitelist ==> StyleValue(style, p).None?
  {
    var ds := Declarations(style);
    var ls := Lines(ds);
    assert ds != [] ==> ls[0] != [];
    assert (exists p :: p in Whitelist && StyleValue(style, p).Some?) ==> ds != [] by {
      if exists p :: p in Whitelist && StyleValue(style, p).Some? {
        var p :| p in Whitelist && StyleValue(style, p).Some?;
        DeclarationsComplete(style, p);
      }
    }
    assert ds != [] ==> StyleValue(style, ds[0].key).Some? && ds[0].key in Whitelist by {
      if ds != [] { DeclarationSound(style, 0); }
    }
    Join(ls, "\n")
  }

  /** The comment emitted instead of an empty rule. */
  function NoStylesComment(className: string): string
  {
    "/* no significant styles captured for ." + className + " */"
  }

  /** `buildCssForElement`: the placeholder comment exactly when no
      whitelisted property carries a significant value, otherwise a rule for
      `.className` whose body is the declaration lines. */
  function BuildCssForElement(className: string, style: map<string, string>): (css: string)
    ensures css == NoStylesComment(className) <==> StyleObjectToCss(style) == []
    ensures css != NoStylesComment(className) ==>
      StartsWith(css, RuleOpen(className)) && EndsWith(css, RuleClose)
  {
    var body := StyleObjectToCss(style);
    if body == [] then NoStylesComment(className)
    else
      RuleShape(className, body);
      RuleOpen(className) + body + RuleClose
  }

  /** A rule opens with `.className {` and closes with `}`, so it is never
      the placeholder comment, which opens with `/`. */
  lemma RuleShape(className: string, body: string)
    ensures var css := RuleOpen(className) + body + RuleClose;
      && css != NoStylesComment(className)
      && StartsWith(css, RuleOpen(className)) && EndsWith(css, RuleClose)
  {
    var css := RuleOpen(className) + body + RuleClose;
    assert css[0] == '.' && NoStylesComment(className)[0] == '/';
    ConcatEnds(RuleOpen(className), body, RuleClose);
  }

  /** The placeholder comment replaces the rule exactly when no whitelisted
      property carries a significant value. */
  lemma NoStylesCommentExactly(className: string, style: map<string, string>)
    ensures BuildCssForElement(className, style) == NoStylesComment(className)
        <==> forall p :: p in Whitelist ==> StyleValue(style, p).None?
  {
  }

  function RuleOpen(className: string): string
  {
    "." + className + " {\n"
  }

  const RuleClose: string := "\n}"
}
