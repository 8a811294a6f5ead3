/**
 * The node handlers: the verbatim-tag dispatch with its `@inline`
 * framework checks, the error messages of a failed `@inline`, paragraphs,
 * delimiters, and the assembly of list items (classes, data attributes and
 * todo prefixes).
 */
module Handlers {
  import opened Wrappers
  import opened Strings
  import opened Slug
  import opened Ast
  import opened Segments

  // ---------------------------------------------------------------------
  // Collaborators outside the renderer

  /**
   * The two library calls the code-block renderer makes: dedenting the block
   * and highlighting it for a language (`None` when the highlighter fails).
   */
  datatype Externals = Externals(dedent: string -> string, highlight: (string, string) -> Option<string>)

  // ---------------------------------------------------------------------
  // Inline errors

  /** The frameworks an `@inline` block may name. */
  const InlineFrameworks: seq<string> := ["html", "svelte", "vue"]

  datatype InlineParseErrorKind =
    | MissingFramework
    | InvalidFramework(framework: string)
    | FrameworkMismatch(framework: string, target: string)

  /** A failed `@inline`, with the number of components found before it. */
  datatype InlineParseError = InlineParseError(index: nat, kind: InlineParseErrorKind)

  /** The supported frameworks as the messages list them. */
  function SupportedFrameworks(): (r: string)
    ensures r == Join(InlineFrameworks, ", ")
  {
    assert InlineFrameworks[1..] == ["svelte", "vue"];
    assert InlineFrameworks[1..][1..] == ["vue"];
    "html, svelte, vue"
  }

  /** The opening every message shares; it counts occurrences from one. */
  function ErrorPrefix(index: nat): string {
    "Inline error (inline #" + NatToString(index + 1) + "): "
  }

  /** The closing of the messages about a missing or unknown framework. */
  function SupportedSuffix(): string {
    "Supported frameworks: " + SupportedFrameworks()
  }

  /** The `Display` text of an inline error. */
  function ErrorMessage(e: InlineParseError): string {
    ErrorPrefix(e.index) +
    match e.kind
    case MissingFramework => "missing framework. " + SupportedSuffix()
    case InvalidFramework(f) => "invalid framework \"" + f + "\". " + SupportedSuffix()
    case FrameworkMismatch(f, t) => "@inline " + f + " cannot be used in a " + t + " project"
  }

  /** Every message opens with the one-based occurrence number of the failing `@inline`. */
  lemma ErrorMessageNamesOccurrence(e: InlineParseError)
    ensures StartsWith(ErrorMessage(e), "Inline error (inline #" + NatToString(e.index + 1) + "): ")
  {
    var p := ErrorPrefix(e.index);
    assert ErrorMessage(e)[..|p|] == p;
  }

  /** Exactly the messages about a missing or unknown framework close with the supported frameworks. */
  lemma ErrorMessageListsFrameworks(e: InlineParseError)
    ensures !e.kind.FrameworkMismatch? <==>
      EndsWith(ErrorMessage(e), "Supported frameworks: " + Join(InlineFrameworks, ", "))
  {
    var m := ErrorMessage(e);
    var tail := SupportedSuffix();
    match e.kind
    case MissingFramework =>
      var mid := ErrorPrefix(e.index) + "missing framework. ";
      assert m == mid + tail;
      assert m[|mid|..] == tail;
    case InvalidFramework(f) =>
      var mid := ErrorPrefix(e.index) + "invalid framework \"" + f + "\". ";
      assert m == mid + tail;
      assert m[|mid|..] == tail;
    case FrameworkMismatch(f, t) =>
      MismatchMessageEnd(e.index, f, t);
  }

  /** A mismatch message ends with `project`, not with the framework list. */
  lemma MismatchMessageEnd(index: nat, f: string, t: string)
    ensures !EndsWith(ErrorMessage(InlineParseError(index, FrameworkMismatch(f, t))), SupportedSuffix())
  {
    var m := ErrorMessage(InlineParseError(index, FrameworkMismatch(f, t)));
    var tail := SupportedSuffix();
    assert m[|m| - 1] == 't';
    assert tail[|tail| - 1] == 'e';
  }

  /** The message of a framework mismatch names both frameworks. */
  lemma MismatchMessageNamesBoth(index: nat, f: string, t: string)
    ensures EndsWith(ErrorMessage(InlineParseError(index, FrameworkMismatch(f, t))),
                     "@inline " + f + " cannot be used in a " + t + " project")
  {
  }

  // ---------------------------------------------------------------------
  // Verbatim tags

  /** What a verbatim tag contributes: HTML, an inline component or a CSS block. */
  datatype VerbatimTagResult = VerbatimTagResult(html: Option<string>, inline: Option<InlineComponent>, css: Option<string>)

  function HtmlOnly(html: string): VerbatimTagResult {
    VerbatimTagResult(Some(html), None, None)
  }

  function InlineOnly(c: InlineComponent): VerbatimTagResult {
    VerbatimTagResult(None, Some(c), None)
  }

  function CssOnly(css: string): VerbatimTagResult {
    VerbatimTagResult(None, None, Some(css))
  }

  /** The first parameter, when there is one and it is not empty. */
  function FirstParameter(parameters: seq<string>): Option<string> {
    if parameters != [] && parameters[0] != [] then Some(parameters[0]) else None
  }

  /**
   * The framework of an `@inline` block: its own parameter, else the target
   * framework of the build, else nothing.
   */
  function ResolveFramework(parameters: seq<string>, target: Option<string>): (r: string)
    ensures FirstParameter(parameters).Some? ==> r == parameters[0] && r != []
    ensures FirstParameter(parameters).None? && target.Some? ==> r == target.value
    ensures FirstParameter(parameters).None? && target.None? ==> r == []
  {
    match FirstParameter(parameters)
    case Some(p) => p
    case None => if target.Some? then target.value else ""
  }

  /** The language of a code block: its first parameter, else `text`. */
  function CodeLanguage(parameters: seq<string>): (r: string)
    ensures r != []
    ensures r == "text" <==> FirstParameter(parameters) == None || parameters[0] == "text"
  {
    match FirstParameter(parameters)
    case Some(p) => p
    case None => "text"
  }

  /** Where an image is loaded from: absolute paths and URLs as they are, anything else relative to the page. */
  function ImageSource(path: string): (r: string)
    ensures StartsWith(r, "/") || StartsWith(r, "http") || StartsWith(r, "./")
    ensures EndsWith(r, path)
    ensures r == path <==> StartsWith(path, "/") || StartsWith(path, "http")
  {
    if StartsWith(path, "/") || StartsWith(path, "http") then path
    else
      assert ("./" + path)[2..] == path;
      "./" + path
  }

  /** One highlighted line inside its `span`. */
  function LineSpan(line: string): string {
    "<span class=\"line\">" + line + "</span>"
  }

  function LineSpans(lines: seq<string>): (r: string)
    ensures r == [] <==> lines == []
  {
    if lines == [] then [] else LineSpan(lines[0]) + LineSpans(lines[1..])
  }

  /** `wrap_lines`: every line of the text in its own `span`. */
  function WrapLines(html: string): (r: string)
    ensures r == [] <==> html == []
  {
    LineSpans(Lines(html))
  }

  /** A code block: highlighted when the highlighter succeeds, escaped otherwise. */
  function CodeBlockHtml(ext: Externals, parameters: seq<string>, content: string): string {
    var code := ext.dedent(content);
    var lang := CodeLanguage(parameters);
    match ext.highlight(lang, code)
    case Some(h) => "<pre class=\"arborium lang-" + lang + "\"><code>" + WrapLines(h) + "</code></pre>"
    case None => "<pre><code>" + WrapLines(EncodeMinimal(code)) + "</code></pre>"
  }

  /** An image, when the tag names a path. */
  function ImageHtml(parameters: seq<string>, content: string): Option<VerbatimTagResult> {
    match FirstParameter(parameters)
    case None => None
    case Some(path) =>
      Some(HtmlOnly("<img src=\"" + EncodeMinimal(ImageSource(path)) + "\" alt=\"" + EncodeMinimal(Trim(content)) + "\" />"))
  }

  /** An `@inline` block: a CSS block, an inline component, or the reason it is refused. */
  function InlineTag(parameters: seq<string>, content: string, target: Option<string>)
    : Result<Option<VerbatimTagResult>, InlineParseErrorKind>
  {
    var framework := ResolveFramework(parameters, target);
    if framework == "css" then Ok(Some(CssOnly(content)))
    else if framework == [] then Err(MissingFramework)
    else if framework !in InlineFrameworks then Err(InvalidFramework(framework))
    else if target.Some? && framework != target.value then Err(FrameworkMismatch(framework, target.value))
    else Ok(Some(InlineOnly(InlineComponent(0, framework, content))))
  }

  /** The fallback for every other tag: its escaped content in a `div`. */
  function VerbatimDiv(content: string): string {
    "<div class=\"verbatim\">" + EncodeMinimal(content) + "</div>"
  }

  /** `verbatim_tag_with_embeds`: dispatch on the tag name. */
  function VerbatimTagWithEmbeds(ext: Externals, name: seq<string>, parameters: seq<string>, content: string,
                                 target: Option<string>): (r: Result<Option<VerbatimTagResult>, InlineParseErrorKind>)
    ensures r.Err? ==> name == ["inline"]
    ensures name == ["document", "meta"] ==> r == Ok(None)
  {
    if name == ["code"] then Ok(Some(HtmlOnly(CodeBlockHtml(ext, parameters, content))))
    else if name == ["image"] then Ok(ImageHtml(parameters, content))
    else if name == ["inline"] then InlineTag(parameters, content, target)
    else if name == ["document", "meta"] then Ok(None)
    else Ok(Some(HtmlOnly(VerbatimDiv(content))))
  }

  /** A framework of `css` yields a CSS block whatever the target, and nothing else does. */
  lemma InlineCssIff(ext: Externals, parameters: seq<string>, content: string, target: Option<string>)
    ensures var r := VerbatimTagWithEmbeds(ext, ["inline"], parameters, content, target);
      (r.Ok? && r.value.Some? && r.value.value.css.Some?) <==> ResolveFramework(parameters, target) == "css"
    ensures ResolveFramework(parameters, target) == "css" ==>
      VerbatimTagWithEmbeds(ext, ["inline"], parameters, content, target) == Ok(Some(CssOnly(content)))
  {
  }

  /** No framework at all is the missing-framework error. */
  lemma MissingFrameworkIff(ext: Externals, parameters: seq<string>, content: string, target: Option<string>)
    ensures VerbatimTagWithEmbeds(ext, ["inline"], parameters, content, target) == Err(MissingFramework) <==>
      FirstParameter(parameters).None? && (target.None? || target == Some(""))
  {
  }

  /** A framework outside the supported list (and not `css`) is refused by name. */
  lemma InvalidFrameworkIff(ext: Externals, parameters: seq<string>, content: string, target: Option<string>, f: string)
    ensures VerbatimTagWithEmbeds(ext, ["inline"], parameters, content, target) == Err(InvalidFramework(f)) <==>
      f == ResolveFramework(parameters, target) && f != [] && f != "css" && f !in InlineFrameworks
  {
  }

  /** A supported framework other than the build's target is a mismatch naming both. */
  lemma FrameworkMismatchIff(ext: Externals, parameters: seq<string>, content: string, target: Option<string>,
                             f: string, t: string)
    ensures VerbatimTagWithEmbeds(ext, ["inline"], parameters, content, target) == Err(FrameworkMismatch(f, t)) <==>
      f == ResolveFramework(parameters, target) && f in InlineFrameworks && target == Some(t) && f != t
  {
  }

  /**
   * A supported framework matching the target (or with no target) is
   * accepted as an inline component only: no HTML, no CSS, index 0, the
   * resolved framework and the block's content unchanged.
   */
  lemma InlineAcceptedIff(ext: Externals, parameters: seq<string>, content: string, target: Option<string>, f: string)
    ensures (VerbatimTagWithEmbeds(ext, ["inline"], parameters, content, target) ==
             Ok(Some(VerbatimTagResult(None, Some(InlineComponent(0, f, content)), None)))) <==>
      f == ResolveFramework(parameters, target) && f in InlineFrameworks && (target.None? || target == Some(f))
  {
  }

  /** An image without a path renders nothing; otherwise its source is normalised and escaped. */
  lemma ImageTag(ext: Externals, parameters: seq<string>, content: string, target: Option<string>)
    ensures FirstParameter(parameters).None? ==>
      VerbatimTagWithEmbeds(ext, ["image"], parameters, content, target) == Ok(None)
    ensures FirstParameter(parameters).Some? ==>
      VerbatimTagWithEmbeds(ext, ["image"], parameters, content, target) ==
      Ok(Some(HtmlOnly("<img src=\"" + EncodeMinimal(ImageSource(parameters[0])) + "\" alt=\"" +
                       EncodeMinimal(Trim(content)) + "\" />")))
  {
    assert ["image"] != ["code"] by { assert |"image"| != |"code"|; }
    assert VerbatimTagWithEmbeds(ext, ["image"], parameters, content, target) == Ok(ImageHtml(parameters, content));
  }

  /**
   * A code block always renders as HTML and only as HTML, in a `pre` whose
   * class names the language (defaulting to `text`) when highlighting
   * succeeds.
   */
  lemma CodeTag(ext: Externals, parameters: seq<string>, content: string, target: Option<string>)
    ensures var r := VerbatimTagWithEmbeds(ext, ["code"], parameters, content, target);
      r.Ok? && r.value.Some? && r.value.value.html.Some? && r.value.value.inline.None? && r.value.value.css.None?
    ensures var h := ext.highlight(CodeLanguage(parameters), ext.dedent(content));
      h.Some? ==>
        VerbatimTagWithEmbeds(ext, ["code"], parameters, content, target) ==
        Ok(Some(HtmlOnly("<pre class=\"arborium lang-" + CodeLanguage(parameters) + "\"><code>" + WrapLines(h.value) + "</code></pre>")))
    ensures var h := ext.highlight(CodeLanguage(parameters), ext.dedent(content));
      h.None? ==>
        VerbatimTagWithEmbeds(ext, ["code"], parameters, content, target) ==
        Ok(Some(HtmlOnly("<pre><code>" + WrapLines(EncodeMinimal(ext.dedent(content))) + "</code></pre>")))
  {
  }

  /** A tag the renderer does not know shows its escaped content in a `verbatim` `div`. */
  lemma OtherTag(ext: Externals, name: seq<string>, parameters: seq<string>, content: string, target: Option<string>)
    requires name != ["code"] && name != ["image"] && name != ["inline"] && name != ["document", "meta"]
    ensures VerbatimTagWithEmbeds(ext, name, parameters, content, target) ==
      Ok(Some(HtmlOnly("<div class=\"verbatim\">" + EncodeMinimal(content) + "</div>")))
  {
  }

  /** Metadata blocks render nothing; only `@inline` blocks can fail. */
  lemma MetaTagAndFailures(ext: Externals, name: seq<string>, parameters: seq<string>, content: string,
                           target: Option<string>)
    ensures VerbatimTagWithEmbeds(ext, ["document", "meta"], parameters, content, target) == Ok(None)
    ensures VerbatimTagWithEmbeds(ext, name, parameters, content, target).Err? ==> name == ["inline"]
  {
  }

  // ---------------------------------------------------------------------
  // Paragraphs and delimiters

  /** `paragraph`: the rendered segments in `p`, unless they are blank. */
  function ParagraphHtml(segments: seq<ParagraphSegment>): (r: Option<string>)
    ensures r.None? <==> IsBlank(SegmentsHtml(segments))
    ensures r.Some? ==> StartsWith(r.value, "<p>") && EndsWith(r.value, "</p>")
  {
    var content := SegmentsHtml(segments);
    TrimEmptyIffBlank(content);
    if Trim(content) == [] then None else Some("<p>" + content + "</p>")
  }

  /** `delimiter`: the horizontal rule for each delimiting modifier. */
  function DelimiterHtml(d: DelimiterKind): string {
    match d
    case Weak => "<hr class=\"weak\" />"
    case Strong => "<hr class=\"strong\" />"
    case HorizontalRule => "<hr />"
  }

  /** Every delimiter is a horizontal rule, and different delimiters render differently. */
  lemma DelimiterDistinct(a: DelimiterKind, b: DelimiterKind)
    ensures StartsWith(DelimiterHtml(a), "<hr") && EndsWith(DelimiterHtml(a), " />")
    ensures DelimiterHtml(a) == DelimiterHtml(b) <==> a == b
  {
    if a != b {
      assert |DelimiterHtml(a)| != |DelimiterHtml(b)|;
    }
  }

  // ---------------------------------------------------------------------
  // List items

  /** `todo_html`: the marker shown before a list item for each todo status. */
  function TodoHtml(status: TodoStatus): string {
    match status
    case Undone => "<input type=\"checkbox\" class=\"todo-status todo-undone\" disabled />"
    case Done => "<input type=\"checkbox\" class=\"todo-status todo-done\" checked disabled />"
    case NeedsClarification => "<span class=\"todo-status todo-clarification\">?</span>"
    case Paused => "<span class=\"todo-status todo-paused\">=</span>"
    case Urgent => "<span class=\"todo-status todo-urgent\">!</span>"
    case Pending => "<span class=\"todo-status todo-pending\">-</span>"
    case Canceled => "<span class=\"todo-status todo-canceled\">_</span>"
    case Recurring(_) => "<span class=\"todo-status todo-recurring\">+</span>"
  }

  /** Whether an extension marks a recurring todo. */
  predicate IsRecurring(e: DetachedModifierExtension) {
    e.Todo? && e.status.Recurring?
  }

  /** The classes one extension adds to its list item. */
  function ExtensionClasses(e: DetachedModifierExtension): seq<string> {
    match e
    case Todo(status) => if status.Recurring? then ["todo-recurring"] else []
    case Priority(p) => ["priority-" + IntoSlug(p)]
    case _ => []
  }

  /** The data attributes one extension adds to its list item. */
  function ExtensionAttrs(e: DetachedModifierExtension): seq<string> {
    match e
    case Todo(_) => []
    case Priority(p) => ["data-priority=\"" + EncodeMinimal(p) + "\""]
    case Timestamp(ts) => ["data-timestamp=\"" + EncodeMinimal(ts) + "\""]
    case DueDate(d) => ["data-due=\"" + EncodeMinimal(d) + "\""]
    case StartDate(d) => ["data-start=\"" + EncodeMinimal(d) + "\""]
  }

  /** The todo markers one extension adds to its list item. */
  function ExtensionPrefixes(e: DetachedModifierExtension): seq<string> {
    if e.Todo? then [TodoHtml(e.status)] else []
  }

  /** The classes of a list item, extension by extension. */
  function Classes(exts: seq<DetachedModifierExtension>): seq<string> {
    if exts == [] then [] else Classes(exts[..|exts| - 1]) + ExtensionClasses(exts[|exts| - 1])
  }

  /** The data attributes of a list item, extension by extension. */
  function Attrs(exts: seq<DetachedModifierExtension>): seq<string> {
    if exts == [] then [] else Attrs(exts[..|exts| - 1]) + ExtensionAttrs(exts[|exts| - 1])
  }

  /** The todo markers of a list item, extension by extension. */
  function Prefixes(exts: seq<DetachedModifierExtension>): seq<string> {
    if exts == [] then [] else Prefixes(exts[..|exts| - 1]) + ExtensionPrefixes(exts[|exts| - 1])
  }

  /** The `class` attribute: present only when there are classes. */
  function ClassAttr(classes: seq<string>): string {
    if classes == [] then "" else " class=\"" + Join(classes, " ") + "\""
  }

  /** The data attributes, each preceded by a space. */
  function DataAttrs(attrs: seq<string>): string {
    if attrs == [] then "" else " " + Join(attrs, " ")
  }

  /** The todo markers, separated and followed by a space. */
  function PrefixHtml(prefixes: seq<string>): string {
    if prefixes == [] then "" else Join(prefixes, " ") + " "
  }

  /** The list item `format_list_item` builds. */
  function ListItem(content: string, exts: seq<DetachedModifierExtension>): string {
    "<li" + ClassAttr(Classes(exts)) + DataAttrs(Attrs(exts)) + ">" + PrefixHtml(Prefixes(exts)) + content + "</li>"
  }

  /** `format_list_item`: one pass over the extensions collecting classes, attributes and markers. */
  method FormatListItem(content: string, exts: seq<DetachedModifierExtension>) returns (r: string)
    ensures r == ListItem(content, exts)
  {
    var classes: seq<string> := [];
    var attrs: seq<string> := [];
    var prefixes: seq<string> := [];
    var i := 0;
    while i < |exts|
      invariant 0 <= i <= |exts|
      invariant classes == Classes(exts[..i])
      invariant attrs == Attrs(exts[..i])
      invariant prefixes == Prefixes(exts[..i])
    {
      assert exts[..i + 1][..i] == exts[..i];
      match exts[i] {
        case Todo(status) =>
          if status.Recurring? {
            classes := classes + ["todo-recurring"];
          }
          prefixes := prefixes + [TodoHtml(status)];
        case Priority(p) =>
          classes := classes + ["priority-" + IntoSlug(p)];
          attrs := attrs + ["data-priority=\"" + EncodeMinimal(p) + "\""];
        case Timestamp(ts) =>
          attrs := attrs + ["data-timestamp=\"" + EncodeMinimal(ts) + "\""];
        case DueDate(d) =>
          attrs := attrs + ["data-due=\"" + EncodeMinimal(d) + "\""];
        case StartDate(d) =>
          attrs := attrs + ["data-start=\"" + EncodeMinimal(d) + "\""];
      }
      i := i + 1;
    }
    assert exts[..i] == exts;
    var classAttr := if classes == [] then "" else " class=\"" + Join(classes, " ") + "\"";
    var dataAttrs := if attrs == [] then "" else " " + Join(attrs, " ");
    var prefixHtml := if prefixes == [] then "" else Join(prefixes, " ") + " ";
    r := "<li" + classAttr + dataAttrs + ">" + prefixHtml + content + "</li>";
  }

  /** An extension that gives its list item a class: a recurring todo or a priority. */
  predicate AddsClass(e: DetachedModifierExtension) {
    IsRecurring(e) || e.Priority?
  }

  /** There are classes exactly when some extension adds one. */
  lemma {:induction false} ClassesEmptyIff(exts: seq<DetachedModifierExtension>)
    ensures Classes(exts) == [] <==> forall i :: 0 <= i < |exts| ==> !AddsClass(exts[i])
  {
    if exts != [] {
      var n := |exts| - 1;
      var init := exts[..n];
      ClassesEmptyIff(init);
      assert ExtensionClasses(exts[n]) == [] <==> !AddsClass(exts[n]);
      if forall i :: 0 <= i < |exts| ==> !AddsClass(exts[i]) {
        forall i | 0 <= i < n ensures !AddsClass(init[i]) {
          assert init[i] == exts[i];
        }
      } else {
        var i :| 0 <= i < |exts| && AddsClass(exts[i]);
        if i < n {
          assert init[i] == exts[i];
        }
      }
    }
  }

  /** A list item has a `class` attribute exactly when some extension is a recurring todo or a priority. */
  lemma ClassAttrIff(exts: seq<DetachedModifierExtension>)
    ensures ClassAttr(Classes(exts)) != "" <==> exists i :: 0 <= i < |exts| && AddsClass(exts[i])
  {
    ClassesEmptyIff(exts);
  }

  /** Each extension's classes, attributes and markers appear in the item's, in extension order. */
  lemma {:induction false} ExtensionContributes(exts: seq<DetachedModifierExtension>, i: nat)
    requires i < |exts|
    ensures forall c :: c in ExtensionClasses(exts[i]) ==> c in Classes(exts)
    ensures forall a :: a in ExtensionAttrs(exts[i]) ==> a in Attrs(exts)
    ensures forall p :: p in ExtensionPrefixes(exts[i]) ==> p in Prefixes(exts)
  {
    var init := exts[..|exts| - 1];
    if i < |exts| - 1 {
      assert init[i] == exts[i];
      ExtensionContributes(init, i);
    }
  }

  /** A recurring todo adds the `todo-recurring` class and the recurring marker. */
  lemma RecurringAddsClass(exts: seq<DetachedModifierExtension>, i: nat)
    requires i < |exts| && IsRecurring(exts[i])
    ensures "todo-recurring" in Classes(exts)
    ensures "<span class=\"todo-status todo-recurring\">+</span>" in Prefixes(exts)
  {
    ExtensionContributes(exts, i);
    assert "todo-recurring" in ExtensionClasses(exts[i]);
    assert TodoHtml(exts[i].status) in ExtensionPrefixes(exts[i]);
  }

  /** A priority adds both the slugged `priority-` class and the escaped `data-priority` attribute. */
  lemma PriorityAddsClassAndAttr(exts: seq<DetachedModifierExtension>, i: nat)
    requires i < |exts| && exts[i].Priority?
    ensures "priority-" + IntoSlug(exts[i].priority) in Classes(exts)
    ensures "data-priority=\"" + EncodeMinimal(exts[i].priority) + "\"" in Attrs(exts)
  {
    ExtensionContributes(exts, i);
    assert "priority-" + IntoSlug(exts[i].priority) in ExtensionClasses(exts[i]);
    assert "data-priority=\"" + EncodeMinimal(exts[i].priority) + "\"" in ExtensionAttrs(exts[i]);
  }

  /** The number of todo extensions. */
  function CountTodos(exts: seq<DetachedModifierExtension>): nat {
    if exts == [] then 0 else CountTodos(exts[..|exts| - 1]) + (if exts[|exts| - 1].Todo? then 1 else 0)
  }

  /** There is one marker per todo extension, and markers end with one space before the content. */
  lemma {:induction false} PrefixesPerTodo(exts: seq<DetachedModifierExtension>)
    ensures |Prefixes(exts)| == CountTodos(exts)
    ensures Prefixes(exts) != [] ==> EndsWith(PrefixHtml(Prefixes(exts)), " ")
  {
    if exts != [] {
      PrefixesPerTodo(exts[..|exts| - 1]);
    }
  }

  /** `nestable_modifier`: a list item for paragraph text that is not blank, nothing otherwise. */
  function NestableModifier(text: NorgAstFlat, exts: seq<DetachedModifierExtension>): (r: Option<string>)
    ensures r.Some? <==> text.FlatParagraph? && !IsBlank(SegmentsHtml(text.segments))
    ensures r.Some? ==> r.value == ListItem(SegmentsHtml(text.segments), exts)
  {
    match text
    case FlatParagraph(segments) =>
      var content := SegmentsHtml(segments);
      TrimEmptyIffBlank(content);
      if Trim(content) == [] then None else Some(ListItem(content, exts))
    case FlatOther => None
  }
}
