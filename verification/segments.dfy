/**
 * The inline-segment renderer: paragraph segments to HTML text. Tokens are
 * escaped, attached modifiers become wrapper elements, links become
 * anchors and everything the renderer does not support becomes nothing.
 */
module Segments {
  import opened Wrappers
  import opened Strings
  import opened Slug
  import opened Ast

  // ---------------------------------------------------------------------
  // Tokens

  /** `handle_segment_token` with `encode_minimal` as the encoder. */
  function TokenHtml(t: ParagraphSegmentToken): string {
    match t
    case Whitespace => " "
    case Text(s) => EncodeMinimal(s)
    case Special(c) => EncodeMinimal([c])
    case Escape(c) => [c]
  }

  /** The display form of a token: a space, its text or its character. */
  function TokenText(t: ParagraphSegmentToken): string {
    match t
    case Whitespace => " "
    case Text(s) => s
    case Special(c) => [c]
    case Escape(c) => [c]
  }

  /** The display forms of the tokens, concatenated. */
  function TokensText(ts: seq<ParagraphSegmentToken>): string {
    if ts == [] then [] else TokenText(ts[0]) + TokensText(ts[1..])
  }

  // ---------------------------------------------------------------------
  // Segments

  /** `convert_segments` as a value: the renders of the segments, concatenated. */
  function SegmentsHtml(segs: seq<ParagraphSegment>): string
    decreases segs, 0
  {
    if segs == [] then [] else SegmentHtml(segs[0]) + SegmentsHtml(segs[1..])
  }

  /** `convert_segment`. */
  function SegmentHtml(seg: ParagraphSegment): string
    decreases seg
  {
    match seg
    case Token(t) => TokenHtml(t)
    case AttachedModifier(m, content) => AttachedModifierHtml(m, content)
    case Link(targets, description, filepath) => LinkHtml(targets, description, filepath)
    case Anchor(content) => SegmentsHtml(content)
    case InlineVerbatim(tokens) => "<code>" + EncodeMinimal(TokensText(tokens)) + "</code>"
    case Unsupported => []
  }

  /** `convert_code_segments`: the tokens alone, rendered; every other segment is dropped. */
  function CodeSegments(segs: seq<ParagraphSegment>): string {
    if segs == [] then []
    else (if segs[0].Token? then TokenHtml(segs[0].token) else []) + CodeSegments(segs[1..])
  }

  /** `convert_attached_modifier`. */
  function AttachedModifierHtml(m: char, content: seq<ParagraphSegment>): string
    decreases content, 1
  {
    match m
    case '`' => "<code>" + CodeSegments(content) + "</code>"
    case '*' => "<strong>" + SegmentsHtml(content) + "</strong>"
    case '_' => "<em>" + SegmentsHtml(content) + "</em>"
    case '^' => "<sup>" + SegmentsHtml(content) + "</sup>"
    case ',' => "<sub>" + SegmentsHtml(content) + "</sub>"
    case '-' => "<s>" + SegmentsHtml(content) + "</s>"
    case '!' => "<span class=\"spoiler\">" + SegmentsHtml(content) + "</span>"
    case '$' => "<span class=\"math\">" + SegmentsHtml(content) + "</span>"
    case '&' => "<var>" + SegmentsHtml(content) + "</var>"
    case '/' => "<i>" + SegmentsHtml(content) + "</i>"
    case '=' => "<mark>" + SegmentsHtml(content) + "</mark>"
    case _ => SegmentsHtml(content)
  }

  /** An anchor element, with `target="_blank"` when `blank` holds. */
  function AnchorHtml(href: string, blank: bool, text: string): string {
    "<a href=\"" + href + "\"" + (if blank then " target=\"_blank\"" else "") + ">" + text + "</a>"
  }

  /** The rendered description of a link, if it has one. */
  function DescriptionHtml(description: LinkDescription): Option<string>
    decreases description, 1
  {
    match description
    case NoDescription => None
    case Described(segs) => Some(SegmentsHtml(segs))
  }

  /** `convert_link`: only the first target matters. */
  function LinkHtml(targets: seq<LinkTarget>, description: LinkDescription, filepath: Option<string>): string
    decreases description, 2
  {
    var text := DescriptionHtml(description);
    if targets == [] then []
    else
      match targets[0]
      case Url(url) =>
        var display := if text.Some? then text.value else url;
        var blank := StartsWith(url, "http") && filepath.None?;
        if filepath.Some? then AnchorHtml(EncodeMinimal(filepath.value), blank, EncodeMinimal(display))
        else if StartsWith(url, "http") then AnchorHtml(EncodeMinimal(url), blank, EncodeMinimal(display))
        else if EndsWith(url, ".norg") then AnchorHtml(url[..|url| - 5] + ".html", blank, EncodeMinimal(display))
        else AnchorHtml(EncodeMinimal(url), blank, EncodeMinimal(display))
      case HeadingTarget(_, title) =>
        var display := if text.Some? then text.value else title;
        AnchorHtml("#" + EncodeMinimal(IntoSlug(title)), false, EncodeMinimal(display))
      case _ => []
  }

  /** `convert_segments`: one segment at a time, appended to the result. */
  method ConvertSegments(segs: seq<ParagraphSegment>) returns (result: string)
    ensures result == SegmentsHtml(segs)
  {
    result := [];
    var i := 0;
    while i < |segs|
      invariant 0 <= i <= |segs|
      invariant result == SegmentsHtml(segs[..i])
    {
      SegmentsAppend(segs[..i], [segs[i]]);
      assert segs[..i + 1] == segs[..i] + [segs[i]];
      assert SegmentsHtml([segs[i]]) == SegmentHtml(segs[i]) + SegmentsHtml([]);
      result := result + SegmentHtml(segs[i]);
      i := i + 1;
    }
    assert segs[..i] == segs;
  }

  // ---------------------------------------------------------------------
  // Properties

  /** Rendering distributes over concatenation of segment lists. */
  lemma {:induction false} SegmentsAppend(a: seq<ParagraphSegment>, b: seq<ParagraphSegment>)
    ensures SegmentsHtml(a + b) == SegmentsHtml(a) + SegmentsHtml(b)
  {
    if a == [] {
      assert a + b == b;
    } else {
      assert (a + b)[0] == a[0];
      assert (a + b)[1..] == a[1..] + b;
      SegmentsAppend(a[1..], b);
    }
  }

  /** Every token but an escape is its display text, HTML-encoded. */
  lemma TokenHtmlIsEncodedText(t: ParagraphSegmentToken)
    ensures !t.Escape? ==> TokenHtml(t) == EncodeMinimal(TokenText(t))
    ensures t.Escape? ==> TokenHtml(t) == TokenText(t)
  {
    if t.Whitespace? {
      assert EncodeMinimal(" ") == EncodeChar(' ') + EncodeMinimal([]);
    }
  }

  /** Only an escape token can put a markup character into the output. */
  lemma TokenHtmlMarkupFree(t: ParagraphSegmentToken)
    requires !t.Escape?
    ensures forall i :: 0 <= i < |TokenHtml(t)| ==> !IsMarkup(TokenHtml(t)[i])
  {
    TokenHtmlIsEncodedText(t);
  }

  /** The characters that open, close or quote inside markup. */
  predicate IsMarkup(c: char) {
    c == '<' || c == '>' || c == '"' || c == '\''
  }

  /** The Token segments of a list, in order. */
  function OnlyTokens(segs: seq<ParagraphSegment>): (r: seq<ParagraphSegment>)
    ensures forall k :: 0 <= k < |r| ==> r[k].Token? && r[k] in segs
  {
    if segs == [] then []
    else (if segs[0].Token? then [segs[0]] else []) + OnlyTokens(segs[1..])
  }

  /** Code rendering is ordinary rendering of the Token segments alone. */
  lemma {:induction false} CodeSegmentsKeepsOnlyTokens(segs: seq<ParagraphSegment>)
    ensures CodeSegments(segs) == SegmentsHtml(OnlyTokens(segs))
  {
    if segs != [] {
      CodeSegmentsKeepsOnlyTokens(segs[1..]);
      var head := if segs[0].Token? then [segs[0]] else [];
      SegmentsAppend(head, OnlyTokens(segs[1..]));
      if segs[0].Token? {
        assert SegmentsHtml(head) == SegmentHtml(segs[0]) + SegmentsHtml([]);
      }
    }
  }

  /** The tokens as Token segments. */
  function AsSegments(ts: seq<ParagraphSegmentToken>): (r: seq<ParagraphSegment>)
    ensures |r| == |ts|
    ensures forall k :: 0 <= k < |ts| ==> r[k] == Token(ts[k])
  {
    if ts == [] then [] else [Token(ts[0])] + AsSegments(ts[1..])
  }

  /**
   * Inline verbatim text and a backtick-marked run of the same tokens render
   * alike when none of the tokens is an escape.
   */
  lemma {:induction false} InlineVerbatimMatchesCodeMarker(ts: seq<ParagraphSegmentToken>)
    requires forall k :: 0 <= k < |ts| ==> !ts[k].Escape?
    ensures SegmentHtml(InlineVerbatim(ts)) == AttachedModifierHtml('`', AsSegments(ts))
  {
    CodeOfTokens(ts);
  }

  lemma {:induction false} CodeOfTokens(ts: seq<ParagraphSegmentToken>)
    requires forall k :: 0 <= k < |ts| ==> !ts[k].Escape?
    ensures CodeSegments(AsSegments(ts)) == EncodeMinimal(TokensText(ts))
  {
    if ts != [] {
      CodeOfTokens(ts[1..]);
      assert AsSegments(ts)[1..] == AsSegments(ts[1..]);
      TokenHtmlIsEncodedText(ts[0]);
      EncodeMinimalAppend(TokenText(ts[0]), TokensText(ts[1..]));
    }
  }

  /** Inline verbatim text is one `code` element with no markup character inside it. */
  lemma InlineVerbatimIsPlainCode(ts: seq<ParagraphSegmentToken>)
    ensures var h := SegmentHtml(InlineVerbatim(ts));
      && StartsWith(h, "<code>") && EndsWith(h, "</code>")
      && forall i :: 6 <= i < |h| - 7 ==> !IsMarkup(h[i])
  {
    var inner := EncodeMinimal(TokensText(ts));
    var h := SegmentHtml(InlineVerbatim(ts));
    assert h == "<code>" + inner + "</code>";
    assert h[..6] == "<code>";
    assert h[|h| - 7..] == "</code>";
    forall i | 6 <= i < |h| - 7 ensures !IsMarkup(h[i]) {
      assert h[i] == inner[i - 6];
    }
  }

  // ---------------------------------------------------------------------
  // Attached modifiers

  /** The wrapper element of an emphasis marker: its tag name and class (empty for none). */
  datatype Wrap = Wrap(tag: string, cls: string)

  /** The markers `convert_attached_modifier` wraps through ordinary rendering, and their elements. */
  function Wrapper(m: char): Option<Wrap> {
    if m == '*' then Some(Wrap("strong", ""))
    else if m == '_' then Some(Wrap("em", ""))
    else if m == '^' then Some(Wrap("sup", ""))
    else if m == ',' then Some(Wrap("sub", ""))
    else if m == '-' then Some(Wrap("s", ""))
    else if m == '!' then Some(Wrap("span", "spoiler"))
    else if m == '$' then Some(Wrap("span", "math"))
    else if m == '&' then Some(Wrap("var", ""))
    else if m == '/' then Some(Wrap("i", ""))
    else if m == '=' then Some(Wrap("mark", ""))
    else None
  }

  function OpenTag(w: Wrap): string {
    "<" + w.tag + (if w.cls == [] then [] else " class=\"" + w.cls + "\"") + ">"
  }

  function CloseTag(w: Wrap): string {
    "</" + w.tag + ">"
  }

  /** The backtick marker renders the Token segments alone, inside `code`. */
  lemma {:induction false} CodeMarkerKeepsTokens(content: seq<ParagraphSegment>)
    ensures AttachedModifierHtml('`', content) == "<code>" + SegmentsHtml(OnlyTokens(content)) + "</code>"
  {
    CodeSegmentsKeepsOnlyTokens(content);
  }

  /**
   * Each emphasis marker wraps the rendered content in one balanced element
   * (the closing tag names the opening tag's element); any other marker but
   * the backtick leaves the content unwrapped.
   */
  lemma {:induction false} EmphasisWrapping(m: char, content: seq<ParagraphSegment>)
    requires m != '`'
    ensures Wrapper(m).Some? ==>
      AttachedModifierHtml(m, content) == OpenTag(Wrapper(m).value) + SegmentsHtml(content) + CloseTag(Wrapper(m).value)
    ensures Wrapper(m).None? ==> AttachedModifierHtml(m, content) == SegmentsHtml(content)
  {
    if Wrapper(m).Some? {
      if m == '*' || m == '_' || m == '^' || m == ',' || m == '-' {
        StrongToStruckWrapping(m, content);
      } else if m == '!' || m == '$' {
        SpanWrapping(m, content);
      } else {
        VarToMarkWrapping(m, content);
      }
    }
  }

  /** The bold, emphasis, superscript, subscript and strike-through markers. */
  lemma {:induction false} StrongToStruckWrapping(m: char, content: seq<ParagraphSegment>)
    requires m == '*' || m == '_' || m == '^' || m == ',' || m == '-'
    ensures Wrapper(m).Some?
    ensures AttachedModifierHtml(m, content) == OpenTag(Wrapper(m).value) + SegmentsHtml(content) + CloseTag(Wrapper(m).value)
  {
    if m == '*' {
      assert OpenTag(Wrap("strong", "")) == "<strong>";
      assert CloseTag(Wrap("strong", "")) == "</strong>";
      assert AttachedModifierHtml(m, content) == "<strong>" + SegmentsHtml(content) + "</strong>";
    }
    else if m == '_' {
      assert OpenTag(Wrap("em", "")) == "<em>";
      assert CloseTag(Wrap("em", "")) == "</em>";
      assert AttachedModifierHtml(m, content) == "<em>" + SegmentsHtml(content) + "</em>";
    }
    else if m == '^' {
      assert OpenTag(Wrap("sup", "")) == "<sup>";
      assert CloseTag(Wrap("sup", "")) == "</sup>";
      assert AttachedModifierHtml(m, content) == "<sup>" + SegmentsHtml(content) + "</sup>";
    }
    else if m == ',' {
      assert OpenTag(Wrap("sub", "")) == "<sub>";
      assert CloseTag(Wrap("sub", "")) == "</sub>";
      assert AttachedModifierHtml(m, content) == "<sub>" + SegmentsHtml(content) + "</sub>";
    }
    else if m == '-' {
      assert OpenTag(Wrap("s", "")) == "<s>";
      assert CloseTag(Wrap("s", "")) == "</s>";
      assert AttachedModifierHtml(m, content) == "<s>" + SegmentsHtml(content) + "</s>";
    }
  }

  /** The spoiler and math markers, which wrap in a classed `span`. */
  lemma {:induction false} SpanWrapping(m: char, content: seq<ParagraphSegment>)
    requires m == '!' || m == '$'
    ensures Wrapper(m).Some?
    ensures AttachedModifierHtml(m, content) == OpenTag(Wrapper(m).value) + SegmentsHtml(content) + CloseTag(Wrapper(m).value)
  {
    if m == '!' {
      SpoilerWrapping(content);
    } else {
      MathWrapping(content);
    }
  }

  /** The spoiler marker: a `span` of class `spoiler`. */
  lemma SpoilerWrapping(content: seq<ParagraphSegment>)
    ensures AttachedModifierHtml('!', content) == OpenTag(Wrap("span", "spoiler")) + SegmentsHtml(content) + CloseTag(Wrap("span", "spoiler"))
  {
    assert OpenTag(Wrap("span", "spoiler")) == "<span class=\"spoiler\">";
    assert CloseTag(Wrap("span", "spoiler")) == "</span>";
  }

  /** The math marker: a `span` of class `math`. */
  lemma MathWrapping(content: seq<ParagraphSegment>)
    ensures AttachedModifierHtml('$', content) == OpenTag(Wrap("span", "math")) + SegmentsHtml(content) + CloseTag(Wrap("span", "math"))
  {
    assert OpenTag(Wrap("span", "math")) == "<span class=\"math\">";
    assert CloseTag(Wrap("span", "math")) == "</span>";
  }

  /** The variable, italic and highlight markers. */
  lemma {:induction false} VarToMarkWrapping(m: char, content: seq<ParagraphSegment>)
    requires m == '&' || m == '/' || m == '='
    ensures Wrapper(m).Some?
    ensures AttachedModifierHtml(m, content) == OpenTag(Wrapper(m).value) + SegmentsHtml(content) + CloseTag(Wrapper(m).value)
  {
    if m == '&' {
      assert OpenTag(Wrap("var", "")) == "<var>";
      assert CloseTag(Wrap("var", "")) == "</var>";
      assert AttachedModifierHtml(m, content) == "<var>" + SegmentsHtml(content) + "</var>";
    }
    else if m == '/' {
      assert OpenTag(Wrap("i", "")) == "<i>";
      assert CloseTag(Wrap("i", "")) == "</i>";
      assert AttachedModifierHtml(m, content) == "<i>" + SegmentsHtml(content) + "</i>";
    }
    else if m == '=' {
      assert OpenTag(Wrap("mark", "")) == "<mark>";
      assert CloseTag(Wrap("mark", "")) == "</mark>";
      assert AttachedModifierHtml(m, content) == "<mark>" + SegmentsHtml(content) + "</mark>";
    }
  }

  /** Different markers give different elements. */
  lemma WrapperInjective(m1: char, m2: char)
    requires Wrapper(m1).Some? && Wrapper(m1) == Wrapper(m2)
    ensures m1 == m2
  {
  }

  // ---------------------------------------------------------------------
  // Links

  /** Where a URL link points, in order of precedence: the file path, an `http` URL, a `.norg` URL as `.html`, the URL. */
  function UrlHref(url: string, filepath: Option<string>): string {
    if filepath.Some? then filepath.value
    else if StartsWith(url, "http") then url
    else if EndsWith(url, ".norg") then url[..|url| - 5] + ".html"
    else url
  }

  /** The link text: the rendered description, or else the fallback. */
  function DisplayText(description: LinkDescription, fallback: string): string {
    match DescriptionHtml(description)
    case Some(d) => d
    case None => fallback
  }

  /**
   * A URL link is one anchor. Its href is `UrlHref`, encoded except for a
   * rewritten `.norg` link; it opens in a new tab exactly when the URL
   * starts with `http` and there is no file path, so a rewritten `.norg`
   * link never does; its text is the encoded display text.
   */
  lemma LinkToUrl(url: string, rest: seq<LinkTarget>, description: LinkDescription, filepath: Option<string>)
    ensures var rewritten := filepath.None? && !StartsWith(url, "http") && EndsWith(url, ".norg");
      var blank := StartsWith(url, "http") && filepath.None?;
      && LinkHtml([Url(url)] + rest, description, filepath)
         == AnchorHtml(if rewritten then UrlHref(url, filepath) else EncodeMinimal(UrlHref(url, filepath)),
                       blank, EncodeMinimal(DisplayText(description, url)))
      && (rewritten ==> !blank)
  {
  }

  /**
   * A heading link points at `#` followed by the slug of the heading's
   * debug title; the slug needs no encoding, so it appears as it is.
   */
  lemma LinkToHeading(level: nat, title: string, rest: seq<LinkTarget>, description: LinkDescription, filepath: Option<string>)
    ensures LinkHtml([HeadingTarget(level, title)] + rest, description, filepath)
      == AnchorHtml("#" + IntoSlug(title), false, EncodeMinimal(DisplayText(description, title)))
  {
    SlugNeedsNoEncoding(title);
  }

  /** A slug holds none of the characters `encode_minimal` replaces. */
  lemma SlugNeedsNoEncoding(text: string)
    ensures EncodeMinimal(IntoSlug(text)) == IntoSlug(text)
  {
    var t := IntoSlug(text);
    SlugIsWellFormed(text);
    forall i | 0 <= i < |t| ensures !IsHtmlSpecial(t[i]) {
      assert IsSlugAlphanumeric(t[i]) || t[i] == '-';
    }
    EncodeMinimalSafeText(t);
  }

  /** Links with no target, or whose first target is neither a URL nor a heading, render nothing. */
  lemma LinkUnsupportedTargets(targets: seq<LinkTarget>, description: LinkDescription, filepath: Option<string>)
    requires targets == [] || !(targets[0].Url? || targets[0].HeadingTarget?)
    ensures LinkHtml(targets, description, filepath) == []
  {
  }

  /** Unsupported segments render nothing, so they can be removed without changing the output. */
  lemma {:induction false} UnsupportedRendersNothing(a: seq<ParagraphSegment>, b: seq<ParagraphSegment>)
    ensures SegmentsHtml(a + [Unsupported] + b) == SegmentsHtml(a + b)
  {
    UnsupportedAtEnd(a);
    SegmentsAppend(a + [Unsupported], b);
    SegmentsAppend(a, b);
  }

  lemma {:induction false} UnsupportedAtEnd(a: seq<ParagraphSegment>)
    ensures SegmentsHtml(a + [Unsupported]) == SegmentsHtml(a)
  {
    assert SegmentsHtml([Unsupported]) == SegmentHtml(Unsupported) + SegmentsHtml([]);
    SegmentsAppend(a, [Unsupported]);
  }
}
