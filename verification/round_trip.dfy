/**
 * The end-to-end round trip: the fragments and components the transform
 * returns, spliced back together by `embedInlines`, give the document's
 * HTML with each `@inline` component's code at the place where the
 * component stood.
 */
module RoundTrip {
  import opened Wrappers
  import opened Strings
  import opened Handlers
  import opened Ast
  import opened Html
  import opened Generators

  /** The text the events stand for: the HTML they write, with each component's code in its place. */
  function EmbedOf(es: seq<Event>): string {
    if es == [] then []
    else
      (match es[0]
       case HtmlEvent(h) => h
       case InlineEvent(c) => c.code
       case CssEvent(_) => []) + EmbedOf(es[1..])
  }

  /** The text the state holds so far: the closed fragments with their components' code, then the open fragment. */
  function Embedded(a: Acc): string {
    Concat(EmbedPieces(a.parts, a.components)) + a.current
  }

  /** A component closes the open fragment and places its own code after it. */
  lemma InlineStepEmbeds(a: Acc, c: InlineComponent)
    requires |a.parts| == |a.components|
    ensures Embedded(Step(a, InlineEvent(c))) == Embedded(a) + c.code
  {
    var b := Step(a, InlineEvent(c));
    var n := |a.parts|;
    var numbered := c.(index := U32(|a.components|));
    assert b.parts == a.parts + [a.current];
    assert b.components == a.components + [numbered];
    assert b.parts[..n] == a.parts;
    EmbedIgnoresLaterComponents(a.parts, a.components, [numbered]);
    assert EmbedPieces(b.parts, b.components) == EmbedPieces(a.parts, a.components) + [a.current] + [c.code];
    ConcatAppend(EmbedPieces(a.parts, a.components) + [a.current], [c.code]);
    ConcatAppend(EmbedPieces(a.parts, a.components), [a.current]);
    assert Concat([a.current]) == a.current + Concat([]);
    assert Concat([c.code]) == c.code + Concat([]);
  }

  /** Every event extends the embedded text by its own text, and keeps one fragment per component. */
  lemma {:induction false} ReplayEmbeds(a: Acc, es: seq<Event>)
    requires |a.parts| == |a.components|
    ensures Embedded(Replay(a, es)) == Embedded(a) + EmbedOf(es)
    ensures |Replay(a, es).parts| == |Replay(a, es).components|
    decreases |es|
  {
    if es != [] {
      var b := Step(a, es[0]);
      match es[0] {
        case HtmlEvent(h) =>
          assert Embedded(b) == Embedded(a) + h;
        case InlineEvent(c) =>
          InlineStepEmbeds(a, c);
        case CssEvent(css) =>
          assert Embedded(b) == Embedded(a);
      }
      ReplayEmbeds(b, es[1..]);
    }
  }

  /** Closing the open fragment places it last, with no component after it. */
  lemma FinalizeEmbeds(a: Acc)
    requires |a.parts| == |a.components|
    ensures var r := FinalizeAcc(a);
      Concat(EmbedPieces(r.parts, r.components)) == Embedded(a)
  {
    var r := FinalizeAcc(a);
    assert r.parts[..|a.parts|] == a.parts;
    assert EmbedPieces(r.parts, r.components) == EmbedPieces(a.parts, a.components) + [a.current];
    ConcatAppend(EmbedPieces(a.parts, a.components), [a.current]);
    assert Concat([a.current]) == a.current + Concat([]);
  }

  /**
   * A successful transform, spliced back together by `embedInlines`, is
   * the walk's output with every component's code in its place.
   */
  lemma EmbedRoundTrip(ast: seq<NorgAst>, target: Option<string>, ext: Externals)
    requires TransformSpec(ast, target, ext).Ok?
    ensures var r := TransformSpec(ast, target, ext).value;
      Concat(EmbedPieces(r.parts, r.components)) == EmbedOf(Walk(ast, target, ext).events)
  {
    var es := Walk(ast, target, ext).events;
    ReplayEmbeds(EmptyAcc, es);
    FinalizeEmbeds(Replay(EmptyAcc, es));
    assert Embedded(EmptyAcc) == [];
  }

  /** Without components, the spliced text is just the HTML written. */
  lemma {:induction false} EmbedOfWithoutInlines(es: seq<Event>)
    requires InlinesOf(es) == []
    ensures EmbedOf(es) == HtmlOf(es)
  {
    if es != [] {
      EmbedOfWithoutInlines(es[1..]);
    }
  }

  /**
   * The HTML generator's text: `transform`, then `embedInlines` over its
   * fragments and components, is the walk's output with the components'
   * code in place.
   */
  method RenderEmbedded(ast: seq<NorgAst>, target: Option<string>, ext: Externals) returns (html: Option<string>)
    ensures html.Some? <==> Walk(ast, target, ext).failure.None?
    ensures html.Some? ==> html.value == EmbedOf(Walk(ast, target, ext).events)
  {
    TransformShape(ast, target, ext);
    var r := Transform(ast, target, ext);
    if r.Err? {
      return None;
    }
    var text := EmbedInlines(r.value.parts, r.value.components);
    EmbedRoundTrip(ast, target, ext);
    return Some(text);
  }

  /**
   * The React output depends only on the HTML written: it is the same as
   * for that HTML in one fragment with no components, so no component's
   * code reaches it.
   */
  lemma ReactHtmlOnly(ast: seq<NorgAst>, target: Option<string>, ext: Externals, inlineCss: string,
                      metadataJson: string, tocJson: string, css: string, filePath: Option<string>, js: Stringify)
    requires TransformSpec(ast, target, ext).Ok?
    ensures var r := TransformSpec(ast, target, ext).value;
      GenerateReact(GeneratorInput(r.parts, r.components, inlineCss, metadataJson, tocJson), css, filePath, js)
      == GenerateReact(GeneratorInput([HtmlOf(Walk(ast, target, ext).events)], [], inlineCss, metadataJson, tocJson),
                       css, filePath, js)
  {
    TransformShape(ast, target, ext);
    var r := TransformSpec(ast, target, ext).value;
    var h := HtmlOf(Walk(ast, target, ext).events);
    assert Concat([h]) == h + Concat([]);
    ReactUsesJoinedHtml(GeneratorInput(r.parts, r.components, inlineCss, metadataJson, tocJson),
                        GeneratorInput([h], [], inlineCss, metadataJson, tocJson), css, filePath, js);
  }
}
