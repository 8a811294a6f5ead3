/**
 * The code generators' handling of the fragment layout: the HTML comes as
 * fragments, and the `@inline` components belong between them, component
 * `i` after fragment `i`.
 *
 * `EmbedInlines`, `InterleaveHtmlAndInlines` and `AddInlineImports` are the
 * index loops of the generators, each proved against a function of its
 * inputs. The Vue and React outputs are given as their lists of lines;
 * `JSON.stringify` is not part of this model and is a parameter
 * (`Stringify`), and the metadata and table of contents arrive already
 * serialised.
 */
module Generators {
  import opened Wrappers
  import opened Strings
  import opened Ast
  import opened Seqs

  // ---------------------------------------------------------------------
  // embedInlines

  /**
   * The pieces `embedInlines` joins: each fragment, followed by the code
   * of the component at the same position when there is one.
   */
  function EmbedPieces(parts: seq<string>, comps: seq<InlineComponent>): (r: seq<string>)
    ensures |r| == |parts| + (if |parts| <= |comps| then |parts| else |comps|)
  {
    if parts == [] then []
    else
      var n := |parts| - 1;
      EmbedPieces(parts[..n], comps) + [parts[n]] + (if n < |comps| then [comps[n].code] else [])
  }

  /** `embedInlines`: the fragments with the component code spliced in, as one text. */
  method EmbedInlines(htmlParts: seq<string>, comps: seq<InlineComponent>) returns (html: string)
    ensures html == Concat(EmbedPieces(htmlParts, comps))
  {
    var pieces: seq<string> := [];
    var i := 0;
    while i < |htmlParts|
      invariant 0 <= i <= |htmlParts|
      invariant pieces == EmbedPieces(htmlParts[..i], comps)
    {
      TakeSnoc(htmlParts, i);
      assert htmlParts[..i + 1][..i] == htmlParts[..i];
      pieces := pieces + [htmlParts[i]];
      if i < |comps| {
        pieces := pieces + [comps[i].code];
      }
      i := i + 1;
    }
    assert htmlParts[..i] == htmlParts;
    html := Concat(pieces);
  }

  /**
   * With at most one fragment more than components, fragment `i` sits at
   * position `2i` and component `i`'s code right after it, at `2i + 1`.
   */
  lemma {:induction false} EmbedPositions(parts: seq<string>, comps: seq<InlineComponent>)
    requires |parts| <= |comps| + 1
    ensures var r := EmbedPieces(parts, comps);
      (forall i :: 0 <= i < |parts| ==> r[2 * i] == parts[i]) &&
      (forall i :: 0 <= i < |parts| && i < |comps| ==> r[2 * i + 1] == comps[i].code)
  {
    if parts != [] {
      var n := |parts| - 1;
      var front := parts[..n];
      EmbedPositions(front, comps);
      var f := EmbedPieces(front, comps);
      var r := EmbedPieces(parts, comps);
      assert |f| == 2 * n;
      assert r == f + [parts[n]] + (if n < |comps| then [comps[n].code] else []);
      forall i | 0 <= i < |parts| ensures r[2 * i] == parts[i] {
        if i < n { assert r[2 * i] == f[2 * i] && front[i] == parts[i]; }
      }
      forall i | 0 <= i < |parts| && i < |comps| ensures r[2 * i + 1] == comps[i].code {
        if i < n { assert r[2 * i + 1] == f[2 * i + 1]; }
      }
    }
  }

  /** In the layout the renderer produces, one fragment more than components, the pieces alternate fragment and code. */
  lemma EmbedLayout(parts: seq<string>, comps: seq<InlineComponent>)
    requires |parts| == |comps| + 1
    ensures var r := EmbedPieces(parts, comps);
      |r| == 2 * |comps| + 1 &&
      (forall i :: 0 <= i < |parts| ==> r[2 * i] == parts[i]) &&
      (forall i :: 0 <= i < |comps| ==> r[2 * i + 1] == comps[i].code)
  {
    EmbedPositions(parts, comps);
  }

  /** Components beyond the fragments are dropped: adding more changes nothing. */
  lemma {:induction false} EmbedIgnoresLaterComponents(parts: seq<string>, comps: seq<InlineComponent>, extra: seq<InlineComponent>)
    requires |parts| <= |comps|
    ensures EmbedPieces(parts, comps + extra) == EmbedPieces(parts, comps)
  {
    if parts != [] {
      var n := |parts| - 1;
      EmbedIgnoresLaterComponents(parts[..n], comps, extra);
      assert (comps + extra)[n] == comps[n];
    }
  }

  /** Without components the pieces are the fragments themselves. */
  lemma {:induction false} EmbedWithoutComponents(parts: seq<string>)
    ensures EmbedPieces(parts, []) == parts
  {
    if parts != [] {
      var n := |parts| - 1;
      EmbedWithoutComponents(parts[..n]);
      TakeSnoc(parts, n);
    }
  }

  // ---------------------------------------------------------------------
  // interleaveHtmlAndInlines

  /**
   * The lines `interleaveHtmlAndInlines` adds: for each position, the
   * formatted fragment unless it is empty, then the formatted placeholder
   * when a component stands at that position.
   */
  function InterleaveLines(parts: seq<string>, count: nat, formatHtml: (string, nat) -> string,
                           formatInline: nat -> string): (r: seq<string>)
  {
    if parts == [] then []
    else
      var n := |parts| - 1;
      InterleaveLines(parts[..n], count, formatHtml, formatInline)
        + (if parts[n] != "" then [formatHtml(parts[n], n)] else [])
        + (if n < count then [formatInline(n)] else [])
  }

  /** `interleaveHtmlAndInlines`: the interleaved lines pushed after `lines`. */
  method InterleaveHtmlAndInlines(lines: seq<string>, htmlParts: seq<string>, comps: seq<InlineComponent>,
                                  formatHtml: (string, nat) -> string, formatInline: nat -> string)
    returns (out: seq<string>)
    ensures out == lines + InterleaveLines(htmlParts, |comps|, formatHtml, formatInline)
  {
    out := lines;
    var i := 0;
    while i < |htmlParts|
      invariant 0 <= i <= |htmlParts|
      invariant out == lines + InterleaveLines(htmlParts[..i], |comps|, formatHtml, formatInline)
    {
      TakeSnoc(htmlParts, i);
      assert htmlParts[..i + 1][..i] == htmlParts[..i];
      if htmlParts[i] != "" {
        out := out + [formatHtml(htmlParts[i], i)];
      }
      if i < |comps| {
        out := out + [formatInline(i)];
      }
      i := i + 1;
    }
    assert htmlParts[..i] == htmlParts;
  }

  /** The number of non-empty fragments. */
  function NonEmptyCount(parts: seq<string>): (c: nat)
    ensures c <= |parts|
  {
    if parts == [] then 0 else (if parts[|parts| - 1] != "" then 1 else 0) + NonEmptyCount(parts[..|parts| - 1])
  }

  /** One line per non-empty fragment and one placeholder per position that has both a fragment and a component. */
  lemma {:induction false} InterleaveCount(parts: seq<string>, count: nat, formatHtml: (string, nat) -> string,
                                           formatInline: nat -> string)
    ensures |InterleaveLines(parts, count, formatHtml, formatInline)|
         == NonEmptyCount(parts) + (if |parts| <= count then |parts| else count)
  {
    if parts != [] {
      InterleaveCount(parts[..|parts| - 1], count, formatHtml, formatInline);
    }
  }

  /** Every placeholder below both lengths is emitted, even where its fragment is empty. */
  lemma {:induction false} InterleaveKeepsPlaceholders(parts: seq<string>, count: nat, formatHtml: (string, nat) -> string,
                                                       formatInline: nat -> string)
    ensures forall i :: 0 <= i < |parts| && i < count ==> formatInline(i) in InterleaveLines(parts, count, formatHtml, formatInline)
  {
    if parts != [] {
      var n := |parts| - 1;
      InterleaveKeepsPlaceholders(parts[..n], count, formatHtml, formatInline);
      assert |parts[..n]| == n;
    }
  }

  /** With only empty fragments, the lines are exactly the placeholders, in order. */
  lemma {:induction false} InterleaveEmptyParts(parts: seq<string>, count: nat, formatHtml: (string, nat) -> string,
                                                formatInline: nat -> string)
    requires forall k :: 0 <= k < |parts| ==> parts[k] == ""
    ensures var r := InterleaveLines(parts, count, formatHtml, formatInline);
      |r| == (if |parts| <= count then |parts| else count) &&
      forall i :: 0 <= i < |r| ==> r[i] == formatInline(i)
  {
    if parts != [] {
      var n := |parts| - 1;
      assert forall k :: 0 <= k < n ==> parts[..n][k] == parts[k];
      InterleaveEmptyParts(parts[..n], count, formatHtml, formatInline);
    }
  }

  // ---------------------------------------------------------------------
  // addInlineImports

  /** A file path as a template literal writes it: an absent one reads `undefined`. */
  function PathText(filePath: Option<string>): string {
    match filePath
    case Some(p) => p
    case None => "undefined"
  }

  /** The start of the import of component `i`: its local name `Inline<i>`. */
  function ImportHead(indent: string, i: nat): string {
    indent + "import Inline" + NatToString(i) + " from '"
  }

  /** The end of the import of component `i`: the `?inline=<i>` query that selects it. */
  function ImportTail(i: nat): string {
    "?inline=" + NatToString(i) + "';"
  }

  /** The import of component `i` from the module's `?inline=i` view. */
  function ImportLine(indent: string, i: nat, filePath: Option<string>): string {
    ImportHead(indent, i) + PathText(filePath) + ImportTail(i)
  }

  /** The imports of the first `n` components, in order. */
  function ImportLines(n: nat, filePath: Option<string>, indent: string): (r: seq<string>)
    ensures |r| == n
    ensures forall i :: 0 <= i < n ==> r[i] == ImportLine(indent, i, filePath)
  {
    if n == 0 then [] else ImportLines(n - 1, filePath, indent) + [ImportLine(indent, n - 1, filePath)]
  }

  /** `addInlineImports`: one import per component pushed after `lines`. */
  method AddInlineImports(lines: seq<string>, comps: seq<InlineComponent>, filePath: Option<string>, indent: string)
    returns (out: seq<string>)
    ensures out == lines + ImportLines(|comps|, filePath, indent)
  {
    out := lines;
    var i := 0;
    while i < |comps|
      invariant 0 <= i <= |comps|
      invariant out == lines + ImportLines(i, filePath, indent)
    {
      out := out + [ImportLine(indent, i, filePath)];
      i := i + 1;
    }
  }

  /** Import `i` names `Inline<i>` and requests `?inline=<i>`. */
  lemma ImportNamesComponent(n: nat, filePath: Option<string>, indent: string)
    ensures forall i :: 0 <= i < n ==>
      StartsWith(ImportLines(n, filePath, indent)[i], ImportHead(indent, i)) &&
      EndsWith(ImportLines(n, filePath, indent)[i], ImportTail(i))
  {
    forall i | 0 <= i < n
      ensures StartsWith(ImportLines(n, filePath, indent)[i], ImportHead(indent, i))
      ensures EndsWith(ImportLines(n, filePath, indent)[i], ImportTail(i))
    {
      var pre := ImportHead(indent, i);
      var suf := ImportTail(i);
      var line := ImportLine(indent, i, filePath);
      assert line[..|pre|] == pre;
      assert line[|line| - |suf|..] == suf;
    }
  }

  // ---------------------------------------------------------------------
  // generateVue and generateReact

  /** `JSON.stringify` of a string and of an array of strings. */
  datatype Stringify = Stringify(text: string -> string, texts: seq<string> -> string)

  /** What the generators read of a parse result; metadata and table of contents already serialised. */
  datatype GeneratorInput = GeneratorInput(htmlParts: seq<string>, inlineComponents: seq<InlineComponent>,
                                           inlineCss: string, metadataJson: string, tocJson: string)

  /** The style imports: the highlighter theme when there is CSS, the document's own CSS when it has some and a path. */
  function StyleImports(css: string, inlineCss: string, filePath: Option<string>): seq<string> {
    (if css != "" then ["import \"virtual:norg-arborium.css\";"] else []) +
    (if inlineCss != "" && filePath.Some? && filePath.value != "" then ["import 'virtual:norg-css:" + filePath.value + "';"] else [])
  }

  /** The Vue template line of fragment `i`. */
  function VueHtmlLine(part: string, i: nat): string {
    "    <div v-html=\"htmlParts[" + NatToString(i) + "]\"></div>"
  }

  /** The Vue template line of component `i`. */
  function VueInlineLine(i: nat): string {
    "    <Inline" + NatToString(i) + " />"
  }

  /** How the Vue script line holding the HTML begins: the fragment array when there are components. */
  const PartsPrefix: string := "const htmlParts = "
  /** How it begins otherwise: the joined HTML string. */
  const ContentPrefix: string := "const htmlContent = "

  /** The line that hands the HTML to the Vue script: the fragment array when there are components, the joined HTML otherwise. */
  function VueDataLine(input: GeneratorInput, js: Stringify): string {
    if |input.inlineComponents| > 0 then PartsPrefix + js.texts(input.htmlParts) + ";"
    else ContentPrefix + js.text(Concat(input.htmlParts)) + ";"
  }

  /** The Vue template body: one `v-html` div, or a div interleaving fragments and components. */
  function VueTemplateBody(input: GeneratorInput): seq<string> {
    if |input.inlineComponents| == 0 then ["  <div v-html=\"htmlContent\"></div>"]
    else ["  <div>"] + InterleaveLines(input.htmlParts, |input.inlineComponents|, VueHtmlLine, VueInlineLine) + ["  </div>"]
  }

  /** The opening of the Vue component: the exported script, then the setup script's first line. */
  function VueHead(input: GeneratorInput): seq<string> {
    ["<script lang=\"ts\">",
     "export const metadata = " + input.metadataJson + ";",
     "export const toc = " + input.tocJson + ";",
     "</script>",
     "<script setup lang=\"ts\">"]
  }

  /** The close of the setup script and the opening of the template. */
  const VueScriptClose: seq<string> := ["", "defineExpose({ metadata, toc });", "</script>", "", "<template>"]

  /** The lines of the Vue single-file component. */
  function VueLines(input: GeneratorInput, css: string, filePath: Option<string>, js: Stringify): seq<string> {
    VueHead(input)
    + StyleImports(css, input.inlineCss, filePath)
    + ImportLines(|input.inlineComponents|, filePath, "")
    + [VueDataLine(input, js)]
    + VueScriptClose
    + VueTemplateBody(input)
    + ["</template>"]
  }

  /** `generateVue`: the lines pushed in order and joined with newlines. */
  method GenerateVue(input: GeneratorInput, css: string, filePath: Option<string>, js: Stringify) returns (out: string)
    ensures out == Join(VueLines(input, css, filePath, js), "\n")
  {
    var head := VueHead(input);
    var lines := head;
    var theme: seq<string> := [];
    if css != "" {
      theme := ["import \"virtual:norg-arborium.css\";"];
      lines := lines + theme;
    }
    var own: seq<string> := [];
    if input.inlineCss != "" && filePath.Some? && filePath.value != "" {
      own := ["import 'virtual:norg-css:" + filePath.value + "';"];
      lines := lines + own;
    }
    assert lines == head + theme + own;
    AppendAssoc(head, theme, own);
    assert theme + own == StyleImports(css, input.inlineCss, filePath);
    var styled := lines;
    lines := AddInlineImports(lines, input.inlineComponents, filePath, "");
    var data := VueDataLine(input, js);
    if |input.inlineComponents| > 0 {
      lines := lines + [PartsPrefix + js.texts(input.htmlParts) + ";"];
    } else {
      lines := lines + [ContentPrefix + js.text(Concat(input.htmlParts)) + ";"];
    }
    assert lines == styled + ImportLines(|input.inlineComponents|, filePath, "") + [data];
    var script := lines;
    lines := lines + ["", "defineExpose({ metadata, toc });"];
    lines := lines + ["</script>", "", "<template>"];
    AppendAssoc(script, ["", "defineExpose({ metadata, toc });"], ["</script>", "", "<template>"]);
    assert ["", "defineExpose({ metadata, toc });"] + ["</script>", "", "<template>"] == VueScriptClose;
    var prefix := lines;
    if |input.inlineComponents| == 0 {
      lines := lines + ["  <div v-html=\"htmlContent\"></div>"];
    } else {
      lines := lines + ["  <div>"];
      lines := InterleaveHtmlAndInlines(lines, input.htmlParts, input.inlineComponents, VueHtmlLine, VueInlineLine);
      lines := lines + ["  </div>"];
      ghost var between := InterleaveLines(input.htmlParts, |input.inlineComponents|, VueHtmlLine, VueInlineLine);
      AppendAssoc(prefix, ["  <div>"], between);
      AppendAssoc(prefix, ["  <div>"] + between, ["  </div>"]);
    }
    lines := lines + ["</template>"];
    out := Join(lines, "\n");
  }

  /** The lines of the React module; the fragments are joined and the components are not used. */
  function ReactLines(htmlParts: seq<string>, inlineCss: string, metadataJson: string, tocJson: string,
                      css: string, filePath: Option<string>, js: Stringify): seq<string> {
    ["import React from \"react\";"]
    + StyleImports(css, inlineCss, filePath)
    + ["",
       "export const metadata = " + metadataJson + ";",
       "export const toc = " + tocJson + ";",
       "",
       "const htmlContent = " + js.text(Concat(htmlParts)) + ";",
       "",
       "export const Component = () => React.createElement(\"div\", { dangerouslySetInnerHTML: { __html: htmlContent } });",
       "export default Component;"]
  }

  /** `generateReact`: the React lines joined with newlines. */
  function GenerateReact(input: GeneratorInput, css: string, filePath: Option<string>, js: Stringify): string {
    Join(ReactLines(input.htmlParts, input.inlineCss, input.metadataJson, input.tocJson, css, filePath, js), "\n")
  }

  /**
   * The React output reads the fragments only through their concatenation
   * and never reads the components.
   */
  lemma ReactUsesJoinedHtml(a: GeneratorInput, b: GeneratorInput, css: string, filePath: Option<string>, js: Stringify)
    requires Concat(a.htmlParts) == Concat(b.htmlParts)
    requires a.inlineCss == b.inlineCss && a.metadataJson == b.metadataJson && a.tocJson == b.tocJson
    ensures GenerateReact(a, css, filePath, js) == GenerateReact(b, css, filePath, js)
  {
  }

  // ---------------------------------------------------------------------
  // Which form of the HTML the Vue output uses

  /** No line starts with `p`. */
  predicate NoneStartWith(ls: seq<string>, p: string) {
    forall k :: 0 <= k < |ls| ==> !StartsWith(ls[k], p)
  }

  /** A line that differs from `p` at position `i` does not start with `p`. */
  lemma DiffersAt(l: string, p: string, i: nat)
    requires i < |p| && i < |l| && l[i] != p[i]
    ensures !StartsWith(l, p)
  {
  }

  lemma NoneStartWithAppend(a: seq<string>, b: seq<string>, p: string)
    requires NoneStartWith(a, p) && NoneStartWith(b, p)
    ensures NoneStartWith(a + b, p)
  {
    forall k | 0 <= k < |a + b| ensures !StartsWith((a + b)[k], p) {
      if k >= |a| { assert (a + b)[k] == b[k - |a|]; }
    }
  }

  /** Lines that are empty or do not begin with the first character of `p` do not start with `p`. */
  lemma FirstCharRules(ls: seq<string>, p: string)
    requires p != []
    requires forall k :: 0 <= k < |ls| ==> ls[k] == [] || ls[k][0] != p[0]
    ensures NoneStartWith(ls, p)
  {
    forall k | 0 <= k < |ls| ensures !StartsWith(ls[k], p) {
      if ls[k] != [] {
        DiffersAt(ls[k], p, 0);
      }
    }
  }

  /** The style imports never start with `c`, the first letter of both data lines. */
  lemma StylesNotData(css: string, inlineCss: string, filePath: Option<string>, p: string)
    requires p != [] && p[0] == 'c'
    ensures NoneStartWith(StyleImports(css, inlineCss, filePath), p)
  {
    FirstCharRules(StyleImports(css, inlineCss, filePath), p);
  }

  /** The component imports never start with `c`. */
  lemma ImportsNotData(n: nat, filePath: Option<string>, p: string)
    requires p != [] && p[0] == 'c'
    ensures NoneStartWith(ImportLines(n, filePath, ""), p)
  {
    var imports := ImportLines(n, filePath, "");
    forall k | 0 <= k < |imports| ensures imports[k] == [] || imports[k][0] != p[0] {
      ImportLineFirst(k, filePath);
    }
    FirstCharRules(imports, p);
  }

  /** An unindented import begins with the `i` of `import`. */
  lemma ImportLineFirst(k: nat, filePath: Option<string>)
    ensures ImportLine("", k, filePath) != [] && ImportLine("", k, filePath)[0] == 'i'
  {
    var head := ImportHead("", k);
    assert head == "import Inline" + NatToString(k) + " from '";
    assert head[0] == 'i';
    assert ImportLine("", k, filePath) == head + (PathText(filePath) + ImportTail(k));
  }

  /** The template lines never start with `c`. */
  lemma TemplateNotData(input: GeneratorInput, p: string)
    requires p != [] && p[0] == 'c'
    ensures NoneStartWith(VueTemplateBody(input), p)
  {
    var c := |input.inlineComponents|;
    if c > 0 {
      var between := InterleaveLines(input.htmlParts, c, VueHtmlLine, VueInlineLine);
      VueInterleaveIndented(input.htmlParts, c, p);
      FirstCharRules(["  <div>"], p);
      FirstCharRules(["  </div>"], p);
      NoneStartWithAppend(["  <div>"], between, p);
      NoneStartWithAppend(["  <div>"] + between, ["  </div>"], p);
    } else {
      FirstCharRules(VueTemplateBody(input), p);
    }
  }

  /** The fixed lines of the Vue component never start with `c`. */
  lemma FixedNotData(input: GeneratorInput, p: string)
    requires p != [] && p[0] == 'c'
    ensures NoneStartWith(VueHead(input), p)
    ensures NoneStartWith(VueScriptClose, p)
    ensures NoneStartWith(["</template>"], p)
  {
    FirstCharRules(VueHead(input), p);
    FirstCharRules(VueScriptClose, p);
    FirstCharRules(["</template>"], p);
  }

  /** The Vue lines between fragments and components are indented, so none starts with a letter. */
  lemma {:induction false} VueInterleaveIndented(parts: seq<string>, count: nat, p: string)
    requires p != [] && p[0] == 'c'
    ensures NoneStartWith(InterleaveLines(parts, count, VueHtmlLine, VueInlineLine), p)
  {
    if parts != [] {
      var n := |parts| - 1;
      VueInterleaveIndented(parts[..n], count, p);
      var html := if parts[n] != "" then [VueHtmlLine(parts[n], n)] else [];
      var inline := if n < count then [VueInlineLine(n)] else [];
      assert VueHtmlLine(parts[n], n)[0] == ' ';
      assert VueInlineLine(n)[0] == ' ';
      FirstCharRules(html, p);
      FirstCharRules(inline, p);
      var front := InterleaveLines(parts[..n], count, VueHtmlLine, VueInlineLine);
      NoneStartWithAppend(front, html, p);
      NoneStartWithAppend(front + html, inline, p);
    }
  }

  /**
   * The Vue script holds the fragment array exactly when there is a
   * component, and the joined HTML exactly when there is none.
   */
  lemma VueDataForm(input: GeneratorInput, css: string, filePath: Option<string>, js: Stringify)
    ensures var ls := VueLines(input, css, filePath, js);
      (|input.inlineComponents| > 0 <==> !NoneStartWith(ls, PartsPrefix)) &&
      (|input.inlineComponents| == 0 <==> !NoneStartWith(ls, ContentPrefix))
  {
    var head := VueHead(input);
    var styles := StyleImports(css, input.inlineCss, filePath);
    var imports := ImportLines(|input.inlineComponents|, filePath, "");
    var data := VueDataLine(input, js);
    var body := VueTemplateBody(input);
    var before := head + styles + imports;
    var after := VueScriptClose + body + ["</template>"];
    assert VueLines(input, css, filePath, js) == before + [data] + after;
    var other := if |input.inlineComponents| > 0 then ContentPrefix else PartsPrefix;
    OnlyDataLineDiffers(input, css, filePath, js, other);
    DataLineForm(input, js);
    NoneStartWithAppend(before, [data], other);
    NoneStartWithAppend(before + [data], after, other);
    assert (before + [data] + after)[|before|] == data;
  }

  /** Everything but the data line avoids `p`, a prefix beginning with `c`. */
  lemma OnlyDataLineDiffers(input: GeneratorInput, css: string, filePath: Option<string>, js: Stringify, p: string)
    requires p != [] && p[0] == 'c'
    ensures NoneStartWith(VueHead(input) + StyleImports(css, input.inlineCss, filePath)
                          + ImportLines(|input.inlineComponents|, filePath, ""), p)
    ensures NoneStartWith(VueScriptClose + VueTemplateBody(input) + ["</template>"], p)
  {
    var head := VueHead(input);
    var styles := StyleImports(css, input.inlineCss, filePath);
    var imports := ImportLines(|input.inlineComponents|, filePath, "");
    FixedNotData(input, p);
    StylesNotData(css, input.inlineCss, filePath, p);
    ImportsNotData(|input.inlineComponents|, filePath, p);
    TemplateNotData(input, p);
    NoneStartWithAppend(head, styles, p);
    NoneStartWithAppend(head + styles, imports, p);
    NoneStartWithAppend(VueScriptClose, VueTemplateBody(input), p);
    NoneStartWithAppend(VueScriptClose + VueTemplateBody(input), ["</template>"], p);
  }

  /** The data line starts with the prefix of its own form and not with the other. */
  lemma DataLineForm(input: GeneratorInput, js: Stringify)
    ensures var data := VueDataLine(input, js);
      (|input.inlineComponents| > 0 ==> StartsWith(data, PartsPrefix) && !StartsWith(data, ContentPrefix)) &&
      (|input.inlineComponents| == 0 ==> StartsWith(data, ContentPrefix) && !StartsWith(data, PartsPrefix))
  {
    var data := VueDataLine(input, js);
    if |input.inlineComponents| > 0 {
      assert data[..|PartsPrefix|] == PartsPrefix;
      DiffersAt(data, ContentPrefix, 10);
    } else {
      assert data[..|ContentPrefix|] == ContentPrefix;
      DiffersAt(data, PartsPrefix, 10);
    }
  }
}
