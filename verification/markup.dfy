/** The HTML builders of the server: the captured element descriptor,
    `buildCleanHtml`, the class injection `buildComponentResult` applies to the
    cleaned markup, and `escapeHtml`. */
module Markup {
  import opened Wrappers
  import opened Text
  import opened Selection

  /** One captured DOM element. The in-page capture fills in the tag, markup,
      text and the attributes it reads; the model allows any value for every
      field, including `value` and `aria-label`, which that capture never
      sets but `buildCleanHtml` reads. An empty
      string stands for an attribute that is absent, `null` or empty: the
      builders only test these values for JavaScript truthiness.
      `outerHtml` is `None` when the capture carried no markup at all. */
  datatype Descriptor = Descriptor(
    tagName: string,
    outerHtml: Option<string>,
    innerText: string,
    value: string,
    id: string,
    name: string,
    inputType: string,
    placeholder: string,
    src: string,
    href: string,
    alt: string,
    ariaLabel: string,
    computedStyles: map<string, string>)

  /** The attributes `buildCleanHtml` copies, in the order it writes them. */
  const AttributeOrder: seq<string> := ["id", "name", "type", "placeholder", "src", "href", "alt", "aria-label"]

  /** Tags closed as `<tag ... />` instead of `<tag ...>text</tag>`. */
  predicate IsVoidTag(tag: string)
  {
    tag == "input" || tag == "img"
  }

  /** Tags that keep their `type` attribute. */
  predicate TakesType(tag: string)
  {
    tag == "input" || tag == "button"
  }

  function NonEmpty(v: string): Option<string>
  {
    if v == "" then None else Some(v)
  }

  /** The value `buildCleanHtml` writes for attribute `attr` of `node`, if any. */
  function AttributeValue(node: Descriptor, tag: string, attr: string): Option<string>
  {
    if attr == "id" then NonEmpty(node.id)
    else if attr == "name" then NonEmpty(node.name)
    else if attr == "type" then (if TakesType(tag) then NonEmpty(node.inputType) else None)
    else if attr == "placeholder" then NonEmpty(node.placeholder)
    else if attr == "src" then NonEmpty(node.src)
    else if attr == "href" then NonEmpty(node.href)
    else if attr == "alt" then NonEmpty(node.alt)
    else if attr == "aria-label" then NonEmpty(node.ariaLabel)
    else None
  }

  /** The attribute list `buildCleanHtml` builds for `node` rendered as `tag`. */
  function CleanAttributes(node: Descriptor, tag: string): seq<Entry>
  {
    Select(AttributeOrder, a => AttributeValue(node, tag, a))
  }

  /** Attributes appear in the fixed order id, name, type, placeholder, src,
      href, alt, aria-label. */
  lemma CleanAttributesOrdered(node: Descriptor, tag: string)
    ensures IsSubsequence(Keys(CleanAttributes(node, tag)), AttributeOrder)
  {
    SelectOrdered(AttributeOrder, a => AttributeValue(node, tag, a));
  }

  /** An allowlisted attribute is written exactly when the element has a
      usable value for it. */
  lemma CleanAttributesExact(node: Descriptor, tag: string, attr: string)
    requires attr in AttributeOrder
    ensures attr in Keys(CleanAttributes(node, tag)) <==> AttributeValue(node, tag, attr).Some?
  {
    SelectExact(AttributeOrder, a => AttributeValue(node, tag, a), attr);
  }

  /** `type=` is written only for `input` and `button`, and for those exactly
      when the element has a type. */
  lemma TypeOnlyForInputOrButton(node: Descriptor, tag: string)
    ensures "type" in Keys(CleanAttributes(node, tag)) <==> TakesType(tag) && node.inputType != ""
  {
    assert AttributeOrder[2] == "type";
    CleanAttributesExact(node, tag, "type");
  }

  lemma CleanAttributeValue(node: Descriptor, tag: string, i: nat)
    requires i < |CleanAttributes(node, tag)|
    ensures var e := CleanAttributes(node, tag)[i];
      e.key in AttributeOrder && e.value != "" && AttributeValue(node, tag, e.key) == Some(e.value)
  {
    var lookup := a => AttributeValue(node, tag, a);
    SelectSound(AttributeOrder, lookup, i);
    var e := CleanAttributes(node, tag)[i];
    assert lookup(e.key) == AttributeValue(node, tag, e.key);
    ValueNonEmpty(node, tag, e.key);
  }

  lemma ValueNonEmpty(node: Descriptor, tag: string, attr: string)
    ensures AttributeValue(node, tag, attr).Some? ==> AttributeValue(node, tag, attr).value != ""
  {
  }

  /** One `name="value"` pair. */
  function AttributeText(e: Entry): string
  {
    e.key + "=\"" + e.value + "\""
  }

  function AttributeTexts(es: seq<Entry>): seq<string>
  {
    if es == [] then [] else [AttributeText(es[0])] + AttributeTexts(es[1..])
  }

  /** The text content: `innerText`, or `value` when that is empty, trimmed. */
  function TextContent(node: Descriptor): string
  {
    Trim(if node.innerText != "" then node.innerText else node.value)
  }

  /** The opening tag up to and including its attribute list. */
  function OpeningText(tag: string, attrs: string): string
  {
    "<" + tag + " " + attrs
  }

  function ClosingTag(tag: string): string
  {
    "</" + tag + ">"
  }

  /** The markup before whitespace collapsing: `<tag attrs />` for void tags,
      `<tag attrs>text</tag>` otherwise. */
  function RawCleanHtml(tag: string, attrs: string, text: string): string
  {
    if IsVoidTag(tag) then OpeningText(tag, attrs) + " " + "/>"
    else OpeningText(tag, attrs) + ">" + text + ClosingTag(tag)
  }

  /** `buildCleanHtml`: the lower-cased tag, the allowlisted attributes joined
      by single spaces, then either ` />` (trimmed afterwards) or the text and
      the closing tag; every whitespace run becomes one space. */
  function BuildCleanHtml(node: Descriptor): string
  {
    var tag := ToLowerAscii(node.tagName);
    var raw := RawCleanHtml(tag, Join(AttributeTexts(CleanAttributes(node, tag)), " "), TextContent(node));
    if IsVoidTag(tag) then Trim(CollapseSpaces(raw)) else CollapseSpaces(raw)
  }

  /** The cleaned markup never holds two whitespace characters in a row. */
  lemma CleanHtmlNoDoubleSpace(node: Descriptor)
    ensures NoDoubleSpace(BuildCleanHtml(node))
  {
    var tag := ToLowerAscii(node.tagName);
    var raw := RawCleanHtml(tag, Join(AttributeTexts(CleanAttributes(node, tag)), " "), TextContent(node));
    if IsVoidTag(tag) {
      TrimKeepsNoDoubleSpace(CollapseSpaces(raw));
    }
  }

  /** `input` and `img` end in `/>`; every other tag ends with its closing tag
      (for a tag name without whitespace, as every DOM tag name is). */
  lemma CleanHtmlEnding(node: Descriptor)
    ensures var tag := ToLowerAscii(node.tagName);
      && (IsVoidTag(tag) ==> EndsWith(BuildCleanHtml(node), "/>"))
      && (!IsVoidTag(tag) && NoSpace(tag) ==> EndsWith(BuildCleanHtml(node), ClosingTag(tag)))
  {
    var tag := ToLowerAscii(node.tagName);
    var attrs := Join(AttributeTexts(CleanAttributes(node, tag)), " ");
    if IsVoidTag(tag) {
      VoidEnding(tag, attrs);
    } else if NoSpace(tag) {
      RawEnding(tag, attrs, TextContent(node));
    }
  }

  lemma VoidEnding(tag: string, attrs: string)
    requires IsVoidTag(tag)
    ensures EndsWith(Trim(CollapseSpaces(RawCleanHtml(tag, attrs, ""))), "/>")
  {
    var front := OpeningText(tag, attrs) + " ";
    CollapseKeepsVisibleSuffix(front, "/>");
    TrimKeepsVisibleSuffix(CollapseSpaces(front), "/>");
  }

  lemma RawEnding(tag: string, attrs: string, text: string)
    requires !IsVoidTag(tag) && NoSpace(tag)
    ensures EndsWith(CollapseSpaces(RawCleanHtml(tag, attrs, text)), ClosingTag(tag))
  {
    var front := OpeningText(tag, attrs) + ">" + text;
    var close := ClosingTag(tag);
    assert NoSpace(close) by {
      assert forall i :: 2 <= i < |close| - 1 ==> close[i] == tag[i - 2];
    }
    CollapseKeepsVisibleSuffix(front, close);
    ConcatEnds([], CollapseSpaces(front), close);
    assert [] + CollapseSpaces(front) + close == CollapseSpaces(front) + close;
  }

  /** The cleaned markup opens with `<`, the tag name and a space (for a tag
      name without whitespace). */
  lemma CleanHtmlOpening(node: Descriptor)
    ensures var tag := ToLowerAscii(node.tagName);
      NoSpace(tag) ==> StartsWith(BuildCleanHtml(node), "<" + tag + " ")
  {
    var tag := ToLowerAscii(node.tagName);
    var attrs := Join(AttributeTexts(CleanAttributes(node, tag)), " ");
    var text := TextContent(node);
    if NoSpace(tag) {
      RawOpening(tag, attrs, text);
      if IsVoidTag(tag) {
        VoidNeedsNoTrim(tag, attrs);
      }
    }
  }

  lemma RawOpening(tag: string, attrs: string, text: string)
    requires NoSpace(tag)
    ensures StartsWith(CollapseSpaces(RawCleanHtml(tag, attrs, text)), "<" + tag + " ")
  {
    var raw := RawCleanHtml(tag, attrs, text);
    var head := "<" + tag;
    assert NoSpace(head) by {
      assert forall i :: 1 <= i < |head| ==> head[i] == tag[i - 1];
    }
    var opening := OpeningText(tag, attrs);
    assert StartsWith(raw, opening);
    assert raw[..|head|] == opening[..|head|] == head;
    assert raw[|head|] == opening[|head|] == ' ';
    CollapseKeepsVisiblePrefix(raw, head);
  }

  /** Collapsing already leaves the markup of a void tag with no whitespace
      at either end, so the trim changes nothing. */
  lemma VoidNeedsNoTrim(tag: string, attrs: string)
    requires IsVoidTag(tag)
    ensures var c := CollapseSpaces(RawCleanHtml(tag, attrs, ""));
      Trim(c) == c
  {
    var front := OpeningText(tag, attrs) + " ";
    var c := CollapseSpaces(front + "/>");
    CollapseKeepsVisibleSuffix(front, "/>");
    CollapseKeepsVisiblePrefix(front + "/>", "<" + tag);
    assert c[0] == '<' && c[|c| - 1] == '>';
    TrimVisibleEnds(c);
  }

  // ---------- class injection ----------

  /** The characters of the pattern `[a-z0-9-]`. */
  predicate IsTagNameChar(c: char)
  {
    'a' <= c <= 'z' || '0' <= c <= '9' || c == '-'
  }

  /** A tag name the pattern `^<([a-z0-9-]+)` matches in full. */
  predicate IsPlainTagName(tag: string)
  {
    tag != [] && forall i :: 0 <= i < |tag| ==> IsTagNameChar(tag[i])
  }

  /** Length of the longest prefix of `s` made of `[a-z0-9-]` (the greedy `+`). */
  function TagNameRun(s: string): (n: nat)
    ensures n <= |s|
  {
    if s != [] && IsTagNameChar(s[0]) then 1 + TagNameRun(s[1..]) else 0
  }

  /** The attribute text inserted for class `className`. */
  function ClassAttribute(className: string): string
  {
    " class=\"" + className + "\""
  }

  /** `html.replace(/^<([a-z0-9-]+)/, '<$1 class="className"')`, for a class
      name free of `$` (so the replacement text has no special patterns). */
  function InjectClass(html: string, className: string): string
  {
    if html != [] && html[0] == '<' && TagNameRun(html[1..]) > 0 then
      var end := 1 + TagNameRun(html[1..]);
      html[..end] + ClassAttribute(className) + html[end..]
    else html
  }

  lemma {:induction false} TagNameRunOfPrefix(tag: string, s: string)
    requires forall i :: 0 <= i < |tag| ==> IsTagNameChar(tag[i])
    requires |tag| < |s| && s[..|tag|] == tag && !IsTagNameChar(s[|tag|])
    ensures TagNameRun(s) == |tag|
    decreases |tag|
  {
    if tag != [] {
      assert s[0] == tag[0];
      assert s[1..][..|tag| - 1] == tag[1..];
      TagNameRunOfPrefix(tag[1..], s[1..]);
    }
  }

  /** When the markup opens with a plain tag name followed by a space, the
      class attribute lands right after the tag name, and cutting it out again
      gives back the markup. */
  lemma ClassAfterTagName(html: string, tag: string, className: string)
    requires IsPlainTagName(tag) && StartsWith(html, "<" + tag + " ")
    ensures InjectClass(html, className) == "<" + tag + ClassAttribute(className) + html[1 + |tag|..]
    ensures var r := InjectClass(html, className);
      r[..1 + |tag|] + r[1 + |tag| + |ClassAttribute(className)|..] == html
  {
    PlainTagRun(html, tag);
    var r := InjectClass(html, className);
    var n := 1 + |tag|;
    assert r == html[..n] + ClassAttribute(className) + html[n..];
    assert r[..n] == html[..n];
    assert r[n + |ClassAttribute(className)|..] == html[n..];
  }

  /** The greedy tag-name match of markup opening with `<tag ` is `tag`. */
  lemma PlainTagRun(html: string, tag: string)
    requires IsPlainTagName(tag) && StartsWith(html, "<" + tag + " ")
    ensures html != [] && html[0] == '<'
    ensures TagNameRun(html[1..]) == |tag| && html[..1 + |tag|] == "<" + tag
  {
    var s := html[1..];
    var p := "<" + tag + " ";
    assert html[..|p|] == p;
    assert forall i :: 0 <= i < |tag| ==> s[i] == p[i + 1] == tag[i];
    assert s[..|tag|] == tag;
    assert s[|tag|] == ' ';
    TagNameRunOfPrefix(tag, s);
    assert html[..1 + |tag|] == "<" + tag;
  }

  // ---------- escapeHtml ----------

  /** The characters `escapeHtml` replaces, in the order it replaces them, and
      the entity each becomes. */
  const Specials: string := "&<>\"'"
  const Entities: seq<string> := ["&amp;", "&lt;", "&gt;", "&quot;", "&#39;"]

  /** The replacements from number `k` on, applied one after the other. */
  function ReplaceFrom(s: string, k: nat): string
    requires k <= |Specials|
    decreases |Specials| - k
  {
    if k == |Specials| then s
    else ReplaceFrom(ReplaceChar(s, Specials[k], Entities[k]), k + 1)
  }

  /** `escapeHtml`: the chain of global replacements, `&` first. */
  function EscapeHtml(s: string): string
  {
    ReplaceFrom(s, 0)
  }

  /** Escaping of one character: its entity, or the character itself. */
  function EscapeChar(c: char): string
  {
    if c == '&' then "&amp;"
    else if c == '<' then "&lt;"
    else if c == '>' then "&gt;"
    else if c == '"' then "&quot;"
    else if c == '\'' then "&#39;"
    else [c]
  }

  /** Character-by-character escaping: the reference the replacement chain is
      proved equal to. */
  function EscapeChars(s: string): (r: string)
    ensures '<' !in r && '>' !in r && '"' !in r && '\'' !in r
  {
    if s == [] then [] else EscapeChar(s[0]) + EscapeChars(s[1..])
  }

  /** Because `&` is replaced first, no entity the chain writes is escaped a
      second time: the chain escapes each character exactly once. */
  lemma {:induction false} EscapeHtmlCharwise(s: string)
    ensures EscapeHtml(s) == EscapeChars(s)
    decreases |s|
  {
    if s != [] {
      var c := [s[0]];
      var t := s[1..];
      assert s == c + t;
      EscapeHtmlCharwise(t);
      ReplaceFromAppend(c, t, 0);
      EscapeOneChar(s[0]);
    }
  }

  lemma {:induction false} ReplaceFromAppend(a: string, b: string, k: nat)
    requires k <= |Specials|
    ensures ReplaceFrom(a + b, k) == ReplaceFrom(a, k) + ReplaceFrom(b, k)
    decreases |Specials| - k
  {
    if k < |Specials| {
      ReplaceCharAppend(a, b, Specials[k], Entities[k]);
      ReplaceFromAppend(ReplaceChar(a, Specials[k], Entities[k]), ReplaceChar(b, Specials[k], Entities[k]), k + 1);
    }
  }

  /** Text holding none of the remaining special characters passes unchanged. */
  lemma {:induction false} ReplaceFromAbsent(s: string, k: nat)
    requires k <= |Specials|
    requires forall j :: k <= j < |Specials| ==> Specials[j] !in s
    ensures ReplaceFrom(s, k) == s
    decreases |Specials| - k
  {
    if k < |Specials| {
      ReplaceCharAbsent(s, Specials[k], Entities[k]);
      ReplaceFromAbsent(s, k + 1);
    }
  }

  /** Only `&` among the special characters occurs in an entity, and it is
      replaced before any entity is written. */
  lemma EntityHasNoLaterSpecial(j: nat, m: nat)
    requires j < m < |Specials|
    ensures Specials[m] !in Entities[j]
  {
  }

  /** The table pairs each special character with its own entity. */
  lemma EntityOf(k: nat)
    requires k < |Specials|
    ensures EscapeChar(Specials[k]) == Entities[k]
  {
    if k == 0 {
    } else if k == 1 {
    } else if k == 2 {
    } else if k == 3 {
    } else {
    }
  }

  lemma {:induction false} ReplaceFromOne(c: char, k: nat)
    requires k <= |Specials|
    ensures ReplaceFrom([c], k) ==
      if c in Specials[k..] then EscapeChar(c) else [c]
    decreases |Specials| - k
  {
    if k < |Specials| {
      ReplaceCharSingle(c, Specials[k], Entities[k]);
      assert Specials[k..] == [Specials[k]] + Specials[k + 1..];
      if c == Specials[k] {
        forall m | k < m < |Specials| ensures Specials[m] !in Entities[k] {
          EntityHasNoLaterSpecial(k, m);
        }
        ReplaceFromAbsent(Entities[k], k + 1);
        EntityOf(k);
      } else {
        assert c in Specials[k..] <==> c in Specials[k + 1..];
        ReplaceFromOne(c, k + 1);
      }
    }
  }

  lemma EscapeOneChar(c: char)
    ensures EscapeHtml([c]) == EscapeChar(c)
  {
    ReplaceFromOne(c, 0);
  }

  /** Decoding of the five entities `escapeHtml` writes. */
  function Unescape(s: string): string
  {
    if s == [] then []
    else if StartsWith(s, "&amp;") then "&" + Unescape(s[5..])
    else if StartsWith(s, "&lt;") then "<" + Unescape(s[4..])
    else if StartsWith(s, "&gt;") then ">" + Unescape(s[4..])
    else if StartsWith(s, "&quot;") then "\"" + Unescape(s[6..])
    else if StartsWith(s, "&#39;") then "'" + Unescape(s[5..])
    else [s[0]] + Unescape(s[1..])
  }

  /** Escaping loses nothing: decoding the escaped text gives the input back. */
  lemma EscapeRoundTrip(s: string)
    ensures Unescape(EscapeHtml(s)) == s
  {
    EscapeHtmlCharwise(s);
    EscapeCharsRoundTrip(s);
  }

  lemma {:induction false} EscapeCharsRoundTrip(s: string)
    ensures Unescape(EscapeChars(s)) == s
    decreases |s|
  {
    if s != [] {
      EscapeCharsRoundTrip(s[1..]);
      UnescapeEscapedChar(s[0], EscapeChars(s[1..]));
    }
  }

  lemma DiffersAt(s: string, p: string, i: nat)
    requires i < |p| && i < |s| && s[i] != p[i]
    ensures !StartsWith(s, p)
  {
    assert |p| <= |s| ==> s[..|p|][i] == s[i];
  }

  /** Decoding reads one escaped character back off the front. */
  lemma UnescapeEscapedChar(c: char, rest: string)
    ensures Unescape(EscapeChar(c) + rest) == [c] + Unescape(rest)
  {
    var e := EscapeChar(c);
    var u := e + rest;
    assert u[|e|..] == rest;
    assert u[..|e|] == e;
    if c == '&' {
    } else if c == '<' {
      DiffersAt(u, "&amp;", 1);
    } else if c == '>' {
      DiffersAt(u, "&amp;", 1);
      DiffersAt(u, "&lt;", 1);
    } else if c == '"' {
      DiffersAt(u, "&amp;", 1);
      DiffersAt(u, "&lt;", 1);
      DiffersAt(u, "&gt;", 1);
    } else if c == '\'' {
      DiffersAt(u, "&amp;", 1);
      DiffersAt(u, "&lt;", 1);
      DiffersAt(u, "&gt;", 1);
      DiffersAt(u, "&quot;", 1);
    } else {
      assert u[0] == c;
      DiffersAt(u, "&amp;", 0);
      DiffersAt(u, "&lt;", 0);
      DiffersAt(u, "&gt;", 0);
      DiffersAt(u, "&quot;", 0);
      DiffersAt(u, "&#39;", 0);
    }
  }
}
