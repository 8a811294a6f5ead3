/**
 * The document transform: a walk over the node tree that writes HTML into
 * a fragment buffer, splits the buffer at every `@inline` component and
 * collects CSS blocks on the side.
 *
 * The state is specified by replaying a sequence of events (`Event`) from
 * an accumulator value (`Acc`); the walk is specified by `Walk`, which
 * gives the events the transform produces and the failure, if any, that
 * stops it. The methods of `TransformState` are proved against these.
 */
module Html {
  import opened Wrappers
  import opened Strings
  import opened Slug
  import opened Ast
  import opened Segments
  import opened Handlers
  import opened Seqs

  // ---------------------------------------------------------------------
  // The accumulator and its events

  /** `len() as u32`: a component index truncated to 32 bits. */
  function U32(n: nat): (r: nat)
    ensures r < 0x1_0000_0000
    ensures n < 0x1_0000_0000 ==> r == n
  {
    n % 0x1_0000_0000
  }

  /** One change to the transform state. */
  datatype Event =
    | HtmlEvent(html: string)
    | InlineEvent(component: InlineComponent)
    | CssEvent(css: string)

  /** The four fields of the transform state, as a value. */
  datatype Acc = Acc(parts: seq<string>, current: string, components: seq<InlineComponent>, cssBlocks: seq<string>)

  const EmptyAcc := Acc([], "", [], [])

  /**
   * One event applied: HTML extends the open fragment; a component closes
   * the fragment and is numbered by the components before it; CSS is set
   * aside.
   */
  function Step(a: Acc, e: Event): Acc {
    match e
    case HtmlEvent(h) => a.(current := a.current + h)
    case InlineEvent(c) =>
      a.(parts := a.parts + [a.current], current := "",
         components := a.components + [c.(index := U32(|a.components|))])
    case CssEvent(css) => a.(cssBlocks := a.cssBlocks + [css])
  }

  /** The events applied in order. */
  function Replay(a: Acc, es: seq<Event>): Acc
    decreases |es|
  {
    if es == [] then a else Replay(Step(a, es[0]), es[1..])
  }

  /** The HTML the events write. */
  function HtmlOf(es: seq<Event>): string {
    if es == [] then [] else (if es[0].HtmlEvent? then es[0].html else []) + HtmlOf(es[1..])
  }

  /** The components the events carry. */
  function InlinesOf(es: seq<Event>): seq<InlineComponent> {
    if es == [] then [] else (if es[0].InlineEvent? then [es[0].component] else []) + InlinesOf(es[1..])
  }

  /** The CSS blocks the events carry. */
  function CssOf(es: seq<Event>): seq<string> {
    if es == [] then [] else (if es[0].CssEvent? then [es[0].css] else []) + CssOf(es[1..])
  }

  /** The components renumbered from `start`, as the state numbers them. */
  function Renumber(cs: seq<InlineComponent>, start: nat): (r: seq<InlineComponent>)
    ensures |r| == |cs|
    ensures forall i :: 0 <= i < |r| ==> r[i] == cs[i].(index := U32(start + i))
  {
    if cs == [] then [] else [cs[0].(index := U32(start))] + Renumber(cs[1..], start + 1)
  }

  /** One fragment per component, and every component numbered by its position. */
  predicate WellFormed(a: Acc) {
    |a.parts| == |a.components| &&
    forall i :: 0 <= i < |a.components| ==> a.components[i].index == U32(i)
  }

  lemma {:induction false} HtmlOfAppend(x: seq<Event>, y: seq<Event>)
    ensures HtmlOf(x + y) == HtmlOf(x) + HtmlOf(y)
  {
    if x != [] {
      assert (x + y)[1..] == x[1..] + y;
      HtmlOfAppend(x[1..], y);
    } else {
      assert x + y == y;
    }
  }

  lemma {:induction false} InlinesOfAppend(x: seq<Event>, y: seq<Event>)
    ensures InlinesOf(x + y) == InlinesOf(x) + InlinesOf(y)
  {
    if x != [] {
      assert (x + y)[1..] == x[1..] + y;
      InlinesOfAppend(x[1..], y);
    } else {
      assert x + y == y;
    }
  }

  lemma {:induction false} CssOfAppend(x: seq<Event>, y: seq<Event>)
    ensures CssOf(x + y) == CssOf(x) + CssOf(y)
  {
    if x != [] {
      assert (x + y)[1..] == x[1..] + y;
      CssOfAppend(x[1..], y);
    } else {
      assert x + y == y;
    }
  }

  /** Replaying two runs of events is replaying their concatenation. */
  lemma {:induction false} ReplayAppend(a: Acc, x: seq<Event>, y: seq<Event>)
    ensures Replay(a, x + y) == Replay(Replay(a, x), y)
    decreases |x|
  {
    if x == [] {
      assert x + y == y;
    } else {
      assert (x + y)[0] == x[0];
      assert (x + y)[1..] == x[1..] + y;
      ReplayAppend(Step(a, x[0]), x[1..], y);
    }
  }

  /** Replaying one more event is one more step. */
  lemma ReplaySnoc(a: Acc, x: seq<Event>, e: Event)
    ensures Replay(a, x + [e]) == Step(Replay(a, x), e)
  {
    ReplayAppend(a, x, [e]);
    assert [e][1..] == [];
  }

  /** The fragments grow only with components, and the fragments already closed are never rewritten. */
  lemma {:induction false} ReplayParts(a: Acc, es: seq<Event>)
    ensures var r := Replay(a, es);
      |r.parts| == |a.parts| + |InlinesOf(es)| && r.parts[..|a.parts|] == a.parts
    decreases |es|
  {
    if es != [] {
      var b := Step(a, es[0]);
      ReplayParts(b, es[1..]);
      var r := Replay(a, es);
      assert r.parts[..|b.parts|][..|a.parts|] == r.parts[..|a.parts|];
    }
  }

  /** The components are the ones the events carry, numbered on from those already held. */
  lemma {:induction false} ReplayComponents(a: Acc, es: seq<Event>)
    ensures Replay(a, es).components == a.components + Renumber(InlinesOf(es), |a.components|)
    decreases |es|
  {
    if es != [] {
      var b := Step(a, es[0]);
      ReplayComponents(b, es[1..]);
      if es[0].InlineEvent? {
        var c := es[0].component;
        assert InlinesOf(es) == [c] + InlinesOf(es[1..]);
        assert Renumber(InlinesOf(es), |a.components|)
            == [c.(index := U32(|a.components|))] + Renumber(InlinesOf(es[1..]), |a.components| + 1);
      } else {
        assert InlinesOf(es) == InlinesOf(es[1..]);
      }
    }
  }

  /** CSS blocks are only appended, in event order. */
  lemma {:induction false} ReplayCss(a: Acc, es: seq<Event>)
    ensures Replay(a, es).cssBlocks == a.cssBlocks + CssOf(es)
    decreases |es|
  {
    if es != [] {
      ReplayCss(Step(a, es[0]), es[1..]);
    }
  }

  /** Nothing is lost at a split: the closed fragments and the open one hold all the HTML written, in order. */
  lemma {:induction false} ReplayKeepsHtml(a: Acc, es: seq<Event>)
    ensures var r := Replay(a, es);
      Concat(r.parts) + r.current == Concat(a.parts) + a.current + HtmlOf(es)
    decreases |es|
  {
    if es != [] {
      var b := Step(a, es[0]);
      ReplayKeepsHtml(b, es[1..]);
      match es[0]
      case HtmlEvent(h) =>
      case InlineEvent(c) =>
        ConcatAppend(a.parts, [a.current]);
        assert Concat([a.current]) == a.current + Concat([]);
      case CssEvent(css) =>
    }
  }

  /** Every event keeps the state well formed. */
  lemma ReplayKeepsWellFormed(a: Acc, es: seq<Event>)
    requires WellFormed(a)
    ensures WellFormed(Replay(a, es))
  {
    ReplayParts(a, es);
    ReplayComponents(a, es);
    var r := Replay(a, es);
    forall i | 0 <= i < |r.components|
      ensures r.components[i].index == U32(i)
    {
      if i >= |a.components| {
        assert r.components[i] == Renumber(InlinesOf(es), |a.components|)[i - |a.components|];
      }
    }
  }

  /** What the transform hands back: the fragments, the components and the joined CSS. */
  datatype Rendered = Rendered(parts: seq<string>, components: seq<InlineComponent>, css: string)

  /** `finalize`: close the open fragment and join the CSS blocks with newlines. */
  function FinalizeAcc(a: Acc): (r: Rendered)
    ensures WellFormed(a) ==> |r.parts| == |r.components| + 1
    ensures Concat(r.parts) == Concat(a.parts) + a.current
    ensures r.components == a.components
  {
    ConcatAppend(a.parts, [a.current]);
    assert Concat([a.current]) == a.current + Concat([]);
    Rendered(a.parts + [a.current], a.components, Join(a.cssBlocks, "\n"))
  }

  /** The events of a verbatim result: its component, then its HTML, then its CSS. */
  function VerbatimEvents(r: VerbatimTagResult): seq<Event> {
    (if r.inline.Some? then [InlineEvent(r.inline.value)] else []) +
    (if r.html.Some? then [HtmlEvent(r.html.value)] else []) +
    (if r.css.Some? then [CssEvent(r.css.value)] else [])
  }

  /** A CSS-only result adds one CSS block and touches nothing else. */
  lemma CssNeverSplits(a: Acc, css: string)
    ensures var r := Replay(a, VerbatimEvents(CssOnly(css)));
      r.parts == a.parts && r.current == a.current && r.components == a.components &&
      r.cssBlocks == a.cssBlocks + [css]
  {
    assert VerbatimEvents(CssOnly(css)) == [CssEvent(css)];
    assert Replay(a, [CssEvent(css)]) == Replay(Step(a, CssEvent(css)), []);
  }

  // ---------------------------------------------------------------------
  // The walk

  /** The events of a walk and the error that stopped it, if any. */
  datatype Outcome = Outcome(events: seq<Event>, failure: Option<InlineParseErrorKind>)

  /** Events that happened before an outcome. */
  function Then(prefix: seq<Event>, o: Outcome): Outcome {
    Outcome(prefix + o.events, o.failure)
  }

  predicate IsNestableOf(node: NorgAst, kind: NestableKind) {
    node.NestableDetachedModifier? && node.modifierType == kind
  }

  /** The length of the run of list or quote items of one kind that opens `nodes`. */
  function RunLength(nodes: seq<NorgAst>, kind: NestableKind): (n: nat)
    ensures n <= |nodes|
    ensures forall k :: 0 <= k < n ==> IsNestableOf(nodes[k], kind)
    ensures n < |nodes| ==> !IsNestableOf(nodes[n], kind)
  {
    if nodes != [] && IsNestableOf(nodes[0], kind) then 1 + RunLength(nodes[1..], kind) else 0
  }

  /** One item of a run: its list item, or nothing. */
  function ItemHtml(node: NorgAst): string {
    if node.NestableDetachedModifier? then
      match NestableModifier(node.text, node.extensions)
      case Some(h) => h
      case None => ""
    else ""
  }

  /** The item of every node of a run, in order. */
  function ItemTexts(run: seq<NorgAst>): (r: seq<string>)
    ensures |r| == |run|
    ensures forall k :: 0 <= k < |run| ==> r[k] == ItemHtml(run[k])
  {
    if run == [] then [] else ItemTexts(run[..|run| - 1]) + [ItemHtml(run[|run| - 1])]
  }

  /** The list items of a run, in order (`filter_map` then `collect`). */
  function ItemsHtml(run: seq<NorgAst>): string {
    Concat(ItemTexts(run))
  }

  lemma ItemsHtmlStep(nodes: seq<NorgAst>, i: nat, j: nat)
    requires i <= j < |nodes|
    ensures ItemsHtml(nodes[i..j + 1]) == ItemsHtml(nodes[i..j]) + ItemHtml(nodes[j])
  {
    var run := nodes[i..j + 1];
    assert run[..|run| - 1] == nodes[i..j];
    assert run[|run| - 1] == nodes[j];
    assert ItemTexts(run) == ItemTexts(nodes[i..j]) + [ItemHtml(nodes[j])];
    ConcatAppend(ItemTexts(nodes[i..j]), [ItemHtml(nodes[j])]);
    assert Concat([ItemHtml(nodes[j])]) == ItemHtml(nodes[j]) + Concat([]);
  }

  function ListTag(kind: NestableKind): string {
    match kind
    case UnorderedList => "ul"
    case OrderedList => "ol"
    case Quote => "blockquote"
  }

  function ListHtml(kind: NestableKind, items: string): string {
    "<" + ListTag(kind) + ">" + items + "</" + ListTag(kind) + ">"
  }

  /** The wrapper element of a run, or nothing when no item renders. */
  function RunEvents(run: seq<NorgAst>, kind: NestableKind): seq<Event> {
    var items := ItemsHtml(run);
    if items == [] then [] else [HtmlEvent(ListHtml(kind, items))]
  }

  /** The outcome of a verbatim tag: its events, nothing, or the error that stops the walk. */
  function VerbatimOutcome(ext: Externals, name: seq<string>, parameters: seq<string>, content: string,
                           target: Option<string>): Outcome {
    match VerbatimTagWithEmbeds(ext, name, parameters, content, target)
    case Err(kind) => Outcome([], Some(kind))
    case Ok(None) => Outcome([], None)
    case Ok(Some(result)) => Outcome(VerbatimEvents(result), None)
  }

  /** The event of a paragraph, unless it is blank. */
  function ParagraphEvents(segments: seq<ParagraphSegment>): seq<Event> {
    match ParagraphHtml(segments)
    case Some(h) => [HtmlEvent(h)]
    case None => []
  }

  /** A heading with its slug as `id`. */
  function HeadingHtml(level: nat, titleHtml: string): string {
    "<h" + NatToString(level) + " id=\"" + IntoSlug(titleHtml) + "\">" + titleHtml + "</h" + NatToString(level) + ">"
  }

  /** The paragraphs of a rangeable body, blank ones dropped. */
  function RangeableBody(content: seq<NorgAstFlat>): string {
    if content == [] then ""
    else
      var first :=
        match content[0]
        case FlatParagraph(segments) =>
          var html := SegmentsHtml(segments);
          if Trim(html) == [] then "" else "<p>" + html + "</p>"
        case FlatOther => "";
      first + RangeableBody(content[1..])
  }

  /** `rangeable_modifier`: definitions, footnotes and tables. */
  function RangeableModifier(kind: RangeableKind, title: seq<ParagraphSegment>, content: seq<NorgAstFlat>): string {
    var titleHtml := SegmentsHtml(title);
    var body := RangeableBody(content);
    match kind
    case Definition => "<dl><dt>" + EncodeMinimal(titleHtml) + "</dt><dd>" + body + "</dd></dl>"
    case Footnote =>
      "<aside id=\"footnote-" + EncodeMinimal(IntoSlug(titleHtml)) + "\" class=\"footnote\"><strong>" +
      EncodeMinimal(titleHtml) + "</strong><p>" + body + "</p></aside>"
    case Table => "<table><caption>" + EncodeMinimal(titleHtml) + "</caption><tbody>" + body + "</tbody></table>"
  }

  /**
   * The nodes in order, each maximal run of list or quote items of one kind
   * as one wrapper element (none when no item renders), stopping at the
   * first failure.
   */
  function Walk(nodes: seq<NorgAst>, target: Option<string>, ext: Externals): Outcome
    decreases nodes, 1
  {
    if nodes == [] then Outcome([], None)
    else if nodes[0].NestableDetachedModifier? then
      var n := RunLength(nodes, nodes[0].modifierType);
      Then(RunEvents(nodes[..n], nodes[0].modifierType), Walk(nodes[n..], target, ext))
    else
      var o := WalkNode(nodes[0], target, ext);
      if o.failure.Some? then o else Then(o.events, Walk(nodes[1..], target, ext))
  }

  /** One node outside a list run. */
  function WalkNode(node: NorgAst, target: Option<string>, ext: Externals): Outcome
    decreases node, 0
  {
    match node
    case NestableDetachedModifier(_, _, _, _) => Outcome([], None)
    case VerbatimRangedTag(name, parameters, content) => VerbatimOutcome(ext, name, parameters, content, target)
    case Heading(level, title, content) =>
      Then([HtmlEvent(HeadingHtml(level, SegmentsHtml(title)))], Walk(content, target, ext))
    case Paragraph(segments) =>
      Outcome(ParagraphEvents(segments), None)
    case RangeableDetachedModifier(kind, title, body) =>
      Outcome([HtmlEvent(RangeableModifier(kind, title, body))], None)
    case DelimitingModifier(d) => Outcome([HtmlEvent(DelimiterHtml(d))], None)
    case CarryoverTag => Outcome([], None)
    case RangedTag => Outcome([], None)
    case InfirmTag => Outcome([], None)
  }

  /** What `transform` returns: the finalized state, or the first failure numbered by the components before it. */
  function TransformSpec(ast: seq<NorgAst>, target: Option<string>, ext: Externals): Result<Rendered, InlineParseError> {
    var o := Walk(ast, target, ext);
    match o.failure
    case Some(kind) => Err(InlineParseError(|InlinesOf(o.events)|, kind))
    case None => Ok(FinalizeAcc(Replay(EmptyAcc, o.events)))
  }

  // ---------------------------------------------------------------------
  // The state

  class TransformState {
    var parts: seq<string>
    var currentHtml: string
    var inlineComponents: seq<InlineComponent>
    var cssBlocks: seq<string>
    const targetFramework: Option<string>

    function State(): Acc
      reads this
    {
      Acc(parts, currentHtml, inlineComponents, cssBlocks)
    }

    constructor(target: Option<string>)
      ensures State() == EmptyAcc && targetFramework == target
    {
      parts := [];
      currentHtml := "";
      inlineComponents := [];
      cssBlocks := [];
      targetFramework := target;
    }

    /** `push_inline`: number the component, close the open fragment and keep the component. */
    method PushInline(inline: InlineComponent)
      modifies this
      ensures State() == Step(old(State()), InlineEvent(inline))
    {
      var c := inline.(index := U32(|inlineComponents|));
      parts := parts + [currentHtml];
      currentHtml := "";
      inlineComponents := inlineComponents + [c];
    }

    /** `push_html`: extend the open fragment. */
    method PushHtml(html: string)
      modifies this
      ensures State() == Step(old(State()), HtmlEvent(html))
    {
      currentHtml := currentHtml + html;
    }

    /** `apply_verbatim`: the component first, then the HTML, then the CSS. */
    method ApplyVerbatim(result: VerbatimTagResult)
      modifies this
      ensures State() == Replay(old(State()), VerbatimEvents(result))
    {
      ghost var start := State();
      ghost var done: seq<Event> := [];
      if result.inline.Some? {
        PushInline(result.inline.value);
        ReplaySnoc(start, done, InlineEvent(result.inline.value));
        done := done + [InlineEvent(result.inline.value)];
      }
      if result.html.Some? {
        PushHtml(result.html.value);
        ReplaySnoc(start, done, HtmlEvent(result.html.value));
        done := done + [HtmlEvent(result.html.value)];
      }
      if result.css.Some? {
        cssBlocks := cssBlocks + [result.css.value];
        ReplaySnoc(start, done, CssEvent(result.css.value));
        done := done + [CssEvent(result.css.value)];
      }
      assert done == VerbatimEvents(result);
    }

    /** `finalize`: the fragments with the open one closed, the components and the CSS joined by newlines. */
    method Finalize() returns (r: Rendered)
      ensures r == FinalizeAcc(State())
    {
      r := Rendered(parts + [currentHtml], inlineComponents, Join(cssBlocks, "\n"));
    }

    /** `transform_nodes`: the nodes group by group, list runs wrapped, other nodes one by one. */
    method TransformNodes(nodes: seq<NorgAst>, ext: Externals) returns (r: Result<(), InlineParseError>)
      modifies this
      decreases nodes, 1
      ensures var o := Walk(nodes, targetFramework, ext);
        State() == Replay(old(State()), o.events) &&
        (r.Ok? <==> o.failure.None?) &&
        (r.Err? ==> r.error == InlineParseError(|old(inlineComponents)| + |InlinesOf(o.events)|, o.failure.value))
    {
      ghost var start := State();
      ghost var done: seq<Event> := [];
      var i := 0;
      while i < |nodes|
        invariant 0 <= i <= |nodes|
        invariant State() == Replay(start, done)
        invariant Walk(nodes, targetFramework, ext) == Then(done, Walk(nodes[i..], targetFramework, ext))
        decreases |nodes| - i
      {
        if nodes[i].NestableDetachedModifier? {
          var kind := nodes[i].modifierType;
          var j, items := CollectRun(nodes, i, kind);
          RunStep(start, done, nodes, i, j, kind, targetFramework, ext);
          if items != "" {
            var tag := ListTag(kind);
            PushHtml("<" + tag + ">" + items + "</" + tag + ">");
          }
          done := done + RunEvents(nodes[i..j], kind);
          i := j;
        } else {
          ghost var o := WalkNode(nodes[i], targetFramework, ext);
          var res := TransformNode(nodes[i], ext);
          NodeStep(start, done, nodes, i, targetFramework, ext);
          if res.Err? {
            return res;
          }
          done := done + o.events;
          i := i + 1;
        }
      }
      assert nodes[i..] == [];
      assert Walk(nodes[i..], targetFramework, ext) == Outcome([], None);
      assert done + [] == done;
      r := Ok(());
    }

    /** `transform_node`: one node outside a list run. */
    method TransformNode(node: NorgAst, ext: Externals) returns (r: Result<(), InlineParseError>)
      modifies this
      decreases node, 0
      ensures var o := WalkNode(node, targetFramework, ext);
        State() == Replay(old(State()), o.events) &&
        (r.Ok? <==> o.failure.None?) &&
        (r.Err? ==> r.error == InlineParseError(|old(inlineComponents)| + |InlinesOf(o.events)|, o.failure.value))
    {
      match node {
        case NestableDetachedModifier(_, _, _, _) =>
          r := Ok(());
        case VerbatimRangedTag(name, parameters, content) =>
          var v := VerbatimTagWithEmbeds(ext, name, parameters, content, targetFramework);
          match v {
            case Err(kind) =>
              return Err(InlineParseError(|inlineComponents|, kind));
            case Ok(None) =>
            case Ok(Some(result)) =>
              ApplyVerbatim(result);
          }
          r := Ok(());
        case Heading(level, title, content) =>
          var titleHtml := ConvertSegments(title);
          var h := HeadingHtml(level, titleHtml);
          PushHtml(h);
          ghost var mid := State();
          r := TransformNodes(content, ext);
          ghost var o := Walk(content, targetFramework, ext);
          assert ([HtmlEvent(h)] + o.events)[1..] == o.events;
          assert InlinesOf([HtmlEvent(h)] + o.events) == InlinesOf(o.events);
        case Paragraph(segments) =>
          var p := ParagraphHtml(segments);
          if p.Some? {
            PushHtml(p.value);
          }
          r := Ok(());
        case RangeableDetachedModifier(kind, title, body) =>
          PushHtml(RangeableModifier(kind, title, body));
          r := Ok(());
        case DelimitingModifier(d) =>
          PushHtml(DelimiterHtml(d));
          r := Ok(());
        case CarryoverTag =>
          r := Ok(());
        case RangedTag =>
          r := Ok(());
        case InfirmTag =>
          r := Ok(());
      }
    }
  }

  lemma ThenAppend(x: seq<Event>, y: seq<Event>, o: Outcome)
    ensures Then(x, Then(y, o)) == Then(x + y, o)
  {
  }

  /** The walk from the start of a list run: the run's element, then the walk after it. */
  lemma WalkRunStep(nodes: seq<NorgAst>, i: nat, j: nat, kind: NestableKind, target: Option<string>, ext: Externals)
    requires i < j <= |nodes| && IsNestableOf(nodes[i], kind)
    requires RunLength(nodes[i..], kind) == j - i
    ensures Walk(nodes[i..], target, ext) == Then(RunEvents(nodes[i..j], kind), Walk(nodes[j..], target, ext))
  {
    SliceOfSlice(nodes, i, j);
  }

  /** One list run taken by `transform_nodes`: the walk so far grows by the run's events. */
  lemma RunStep(start: Acc, done: seq<Event>, nodes: seq<NorgAst>, i: nat, j: nat, kind: NestableKind,
                target: Option<string>, ext: Externals)
    requires i < j <= |nodes| && IsNestableOf(nodes[i], kind)
    requires RunLength(nodes[i..], kind) == j - i
    requires Walk(nodes, target, ext) == Then(done, Walk(nodes[i..], target, ext))
    ensures Walk(nodes, target, ext) == Then(done + RunEvents(nodes[i..j], kind), Walk(nodes[j..], target, ext))
    ensures var items := ItemsHtml(nodes[i..j]);
      Replay(start, done + RunEvents(nodes[i..j], kind)) ==
        if items == [] then Replay(start, done) else Step(Replay(start, done), HtmlEvent(ListHtml(kind, items)))
  {
    WalkRunStep(nodes, i, j, kind, target, ext);
    var es := RunEvents(nodes[i..j], kind);
    ThenAppend(done, es, Walk(nodes[j..], target, ext));
    if es == [] {
      assert done + es == done;
    } else {
      ReplaySnoc(start, done, es[0]);
    }
  }

  /** The walk from a node outside a list run: that node, then (unless it failed) the walk after it. */
  lemma WalkNodeStep(nodes: seq<NorgAst>, i: nat, target: Option<string>, ext: Externals)
    requires i < |nodes| && !nodes[i].NestableDetachedModifier?
    ensures var o := WalkNode(nodes[i], target, ext);
      Walk(nodes[i..], target, ext) == if o.failure.Some? then o else Then(o.events, Walk(nodes[i + 1..], target, ext))
  {
    assert nodes[i..][1..] == nodes[i + 1..];
  }

  /** One node taken by `transform_nodes`: the walk so far grows by the node's events, or stops with its failure. */
  lemma NodeStep(start: Acc, done: seq<Event>, nodes: seq<NorgAst>, i: nat, target: Option<string>, ext: Externals)
    requires i < |nodes| && !nodes[i].NestableDetachedModifier?
    requires Walk(nodes, target, ext) == Then(done, Walk(nodes[i..], target, ext))
    ensures var o := WalkNode(nodes[i], target, ext);
      Replay(start, done + o.events) == Replay(Replay(start, done), o.events) &&
      |Replay(start, done).components| + |InlinesOf(o.events)| == |start.components| + |InlinesOf(done + o.events)| &&
      (o.failure.Some? ==> Walk(nodes, target, ext) == Outcome(done + o.events, o.failure)) &&
      (o.failure.None? ==> Walk(nodes, target, ext) == Then(done + o.events, Walk(nodes[i + 1..], target, ext)))
  {
    var o := WalkNode(nodes[i], target, ext);
    WalkNodeStep(nodes, i, target, ext);
    ReplayAppend(start, done, o.events);
    ReplayComponents(start, done);
    InlinesOfAppend(done, o.events);
    if o.failure.None? {
      ThenAppend(done, o.events, Walk(nodes[i + 1..], target, ext));
    }
  }

  /** The run from position `j`: one more than the run after it when `nodes[j]` belongs, otherwise empty. */
  lemma RunLengthAt(nodes: seq<NorgAst>, j: nat, kind: NestableKind)
    requires j <= |nodes|
    ensures j < |nodes| && IsNestableOf(nodes[j], kind) ==> RunLength(nodes[j..], kind) == 1 + RunLength(nodes[j + 1..], kind)
    ensures !(j < |nodes| && IsNestableOf(nodes[j], kind)) ==> RunLength(nodes[j..], kind) == 0
  {
    if j < |nodes| {
      assert nodes[j..][0] == nodes[j];
      assert nodes[j..][1..] == nodes[j + 1..];
    }
  }

  /** The end of the list run that starts at `i`, and its list items. */
  method CollectRun(nodes: seq<NorgAst>, i: nat, kind: NestableKind) returns (j: nat, items: string)
    requires i < |nodes| && IsNestableOf(nodes[i], kind)
    ensures i < j <= |nodes| && j - i == RunLength(nodes[i..], kind)
    ensures items == ItemsHtml(nodes[i..j])
  {
    j := i;
    items := "";
    RunLengthAt(nodes, i, kind);
    while j < |nodes| && IsNestableOf(nodes[j], kind)
      invariant i <= j <= |nodes|
      invariant items == ItemsHtml(nodes[i..j])
      invariant RunLength(nodes[i..], kind) == (j - i) + RunLength(nodes[j..], kind)
    {
      var item := NestableModifier(nodes[j].text, nodes[j].extensions);
      CollectStep(nodes, i, j, kind);
      if item.Some? {
        items := items + item.value;
      }
      j := j + 1;
    }
    RunLengthAt(nodes, j, kind);
  }

  /** One more item of the run: the run is one longer and its items grow by that item's list item, if any. */
  lemma CollectStep(nodes: seq<NorgAst>, i: nat, j: nat, kind: NestableKind)
    requires i <= j < |nodes| && IsNestableOf(nodes[j], kind)
    ensures RunLength(nodes[j..], kind) == 1 + RunLength(nodes[j + 1..], kind)
    ensures ItemsHtml(nodes[i..j + 1]) == ItemsHtml(nodes[i..j]) +
      (match NestableModifier(nodes[j].text, nodes[j].extensions) case Some(h) => h case None => "")
  {
    RunLengthAt(nodes, j, kind);
    ItemsHtmlStep(nodes, i, j);
    assert ItemsHtml(nodes[i..j]) + "" == ItemsHtml(nodes[i..j]);
  }

  /** `transform`: walk the document from an empty state and finalize it. */
  method Transform(ast: seq<NorgAst>, target: Option<string>, ext: Externals) returns (r: Result<Rendered, InlineParseError>)
    ensures r == TransformSpec(ast, target, ext)
    ensures r.Ok? ==> |r.value.parts| == |r.value.components| + 1
    ensures r.Ok? ==> forall i :: 0 <= i < |r.value.components| ==> r.value.components[i].index == U32(i)
  {
    var state := new TransformState(target);
    var res := state.TransformNodes(ast, ext);
    if res.Err? {
      return Err(res.error);
    }
    var rendered := state.Finalize();
    r := Ok(rendered);
    TransformShape(ast, target, ext);
  }

  /**
   * Finalizing the state the events build from empty gives one more
   * fragment than components, the components numbered 0, 1, 2, ... in
   * discovery order, all the HTML written across the fragments and all the
   * CSS blocks joined by newlines.
   */
  lemma FinalizeReplay(es: seq<Event>)
    ensures var r := FinalizeAcc(Replay(EmptyAcc, es));
      |r.parts| == |r.components| + 1 &&
      (forall i :: 0 <= i < |r.components| ==> r.components[i].index == U32(i)) &&
      Concat(r.parts) == HtmlOf(es) &&
      r.components == Renumber(InlinesOf(es), 0) &&
      r.css == Join(CssOf(es), "\n")
  {
    ReplayKeepsWellFormed(EmptyAcc, es);
    ReplayComponents(EmptyAcc, es);
    ReplayCss(EmptyAcc, es);
    assert EmptyAcc.cssBlocks + CssOf(es) == CssOf(es);
    ReplayKeepsHtml(EmptyAcc, es);
  }

  /** A successful transform is the finalized replay of the walk's events; a failed one names the components before the failure. */
  lemma TransformShape(ast: seq<NorgAst>, target: Option<string>, ext: Externals)
    ensures var o := Walk(ast, target, ext);
      TransformSpec(ast, target, ext).Ok? <==> o.failure.None?
    ensures var o := Walk(ast, target, ext);
      TransformSpec(ast, target, ext).Ok? ==>
        var r := TransformSpec(ast, target, ext).value;
        |r.parts| == |r.components| + 1 &&
        (forall i :: 0 <= i < |r.components| ==> r.components[i].index == U32(i)) &&
        Concat(r.parts) == HtmlOf(o.events) &&
        r.components == Renumber(InlinesOf(o.events), 0)
  {
    FinalizeReplay(Walk(ast, target, ext).events);
  }

  // ---------------------------------------------------------------------
  // Properties of the walk

  /** A heading writes its element, with the slug of its rendered title as `id`, before anything of its content. */
  lemma HeadingBeforeChildren(level: nat, title: seq<ParagraphSegment>, content: seq<NorgAst>,
                              target: Option<string>, ext: Externals)
    ensures var o := WalkNode(Heading(level, title, content), target, ext);
      var h := HeadingHtml(level, SegmentsHtml(title));
      o.events == [HtmlEvent(h)] + Walk(content, target, ext).events &&
      o.failure == Walk(content, target, ext).failure &&
      StartsWith(h, "<h" + NatToString(level) + " id=\"" + IntoSlug(SegmentsHtml(title)) + "\">") &&
      IsSlug(IntoSlug(SegmentsHtml(title)))
  {
    var t := SegmentsHtml(title);
    var open := "<h" + NatToString(level) + " id=\"" + IntoSlug(t) + "\">";
    var n := NatToString(level);
    EndsWithAppended(open, t);
    StartsWithAppend(open + t, "</h", open);
    StartsWithAppend(open + t + "</h", n, open);
    StartsWithAppend(open + t + "</h" + n, ">", open);
    SlugIsWellFormed(t);
  }

  /** A list item's HTML is empty exactly when `nestable_modifier` gives nothing for it. */
  lemma ItemHtmlEmptyIff(node: NorgAst)
    requires node.NestableDetachedModifier?
    ensures ItemHtml(node) == "" <==> NestableModifier(node.text, node.extensions).None?
  {
    var m := NestableModifier(node.text, node.extensions);
    if m.Some? {
      assert StartsWith(m.value, "<li");
    }
  }

  /** Whether a node renders as a list item. */
  predicate ItemRenders(node: NorgAst) {
    node.NestableDetachedModifier? && NestableModifier(node.text, node.extensions).Some?
  }

  /** The items of a run are empty exactly when every single item is. */
  lemma ItemsHtmlEmptyIff(run: seq<NorgAst>)
    ensures ItemsHtml(run) == "" <==> forall k :: 0 <= k < |run| ==> ItemHtml(run[k]) == ""
  {
    ConcatEmptyIff(ItemTexts(run));
  }

  /** A run writes nothing exactly when none of its items renders (each is blank or not a paragraph). */
  lemma RunEventsEmptyIff(run: seq<NorgAst>, kind: NestableKind)
    requires forall k :: 0 <= k < |run| ==> IsNestableOf(run[k], kind)
    ensures RunEvents(run, kind) == [] <==> forall k :: 0 <= k < |run| ==> !ItemRenders(run[k])
  {
    ItemsHtmlEmptyIff(run);
    forall k | 0 <= k < |run|
      ensures ItemHtml(run[k]) == "" <==> !ItemRenders(run[k])
    {
      ItemHtmlEmptyIff(run[k]);
    }
  }

  /** A run that is not the whole sequence is unchanged by what follows it. */
  lemma {:induction false} RunLengthAppend(nodes: seq<NorgAst>, rest: seq<NorgAst>, kind: NestableKind)
    requires RunLength(nodes, kind) < |nodes|
    ensures RunLength(nodes + rest, kind) == RunLength(nodes, kind)
  {
    assert (nodes + rest)[0] == nodes[0];
    if IsNestableOf(nodes[0], kind) {
      assert (nodes + rest)[1..] == nodes[1..] + rest;
      RunLengthAppend(nodes[1..], rest, kind);
    }
  }

  /** A failure aborts the walk: nodes after the failing one are never visited. */
  lemma {:induction false} FailureIgnoresRest(nodes: seq<NorgAst>, rest: seq<NorgAst>, target: Option<string>, ext: Externals)
    requires Walk(nodes, target, ext).failure.Some?
    ensures Walk(nodes + rest, target, ext) == Walk(nodes, target, ext)
    decreases |nodes|
  {
    assert nodes[0..] == nodes;
    if nodes[0].NestableDetachedModifier? {
      var kind := nodes[0].modifierType;
      var n := RunLength(nodes, kind);
      WalkRunStep(nodes, 0, n, kind, target, ext);
      FailureIgnoresRest(nodes[n..], rest, target, ext);
      RunFrontAppend(nodes, rest, kind, target, ext);
    } else {
      WalkNodeStep(nodes, 0, target, ext);
      if WalkNode(nodes[0], target, ext).failure.None? {
        FailureIgnoresRest(nodes[1..], rest, target, ext);
      }
      NodeFrontAppend(nodes, rest, target, ext);
    }
  }

  /** A list run that is not the whole sequence opens the extended sequence in the same way. */
  lemma RunFrontAppend(nodes: seq<NorgAst>, rest: seq<NorgAst>, kind: NestableKind, target: Option<string>, ext: Externals)
    requires nodes != [] && IsNestableOf(nodes[0], kind)
    requires RunLength(nodes, kind) < |nodes|
    requires var n := RunLength(nodes, kind);
      Walk(nodes[n..] + rest, target, ext) == Walk(nodes[n..], target, ext)
    ensures Walk(nodes + rest, target, ext) == Walk(nodes, target, ext)
  {
    var all := nodes + rest;
    var n := RunLength(nodes, kind);
    assert all[0] == nodes[0] && nodes[0..] == nodes && all[0..] == all;
    RunLengthAppend(nodes, rest, kind);
    WalkRunStep(nodes, 0, n, kind, target, ext);
    WalkRunStep(all, 0, n, kind, target, ext);
    SliceAppend(nodes, rest, n);
  }


  /** A node outside a list run opens the extended sequence in the same way. */
  lemma NodeFrontAppend(nodes: seq<NorgAst>, rest: seq<NorgAst>, target: Option<string>, ext: Externals)
    requires nodes != [] && !nodes[0].NestableDetachedModifier?
    requires WalkNode(nodes[0], target, ext).failure.None? ==>
      Walk(nodes[1..] + rest, target, ext) == Walk(nodes[1..], target, ext)
    ensures Walk(nodes + rest, target, ext) == Walk(nodes, target, ext)
  {
    var all := nodes + rest;
    assert all[0] == nodes[0] && nodes[0..] == nodes && all[0..] == all;
    WalkNodeStep(nodes, 0, target, ext);
    WalkNodeStep(all, 0, target, ext);
    SliceAppend(nodes, rest, 1);
  }

  /** The paragraphs of a rangeable body as `paragraph` renders them. */
  function BodyParagraphs(content: seq<NorgAstFlat>): seq<string> {
    if content == [] then []
    else
      var first :=
        match content[0]
        case FlatParagraph(segments) => (match ParagraphHtml(segments) case Some(h) => [h] case None => [])
        case FlatOther => [];
      first + BodyParagraphs(content[1..])
  }

  /** A rangeable body is its non-blank paragraphs, each as `paragraph` renders it, and nothing else. */
  lemma {:induction false} RangeableBodyIsParagraphs(content: seq<NorgAstFlat>)
    ensures RangeableBody(content) == Concat(BodyParagraphs(content))
  {
    if content != [] {
      RangeableBodyIsParagraphs(content[1..]);
      var first := BodyParagraphs(content[..1]);
      ConcatAppend(BodyParagraphs([content[0]]), BodyParagraphs(content[1..]));
      assert [content[0]][1..] == [];
      assert BodyParagraphs(content) == BodyParagraphs([content[0]]) + BodyParagraphs(content[1..]);
      match content[0]
      case FlatParagraph(segments) =>
        var html := SegmentsHtml(segments);
        TrimEmptyIffBlank(html);
        if Trim(html) != [] {
          assert Concat(["<p>" + html + "</p>"]) == "<p>" + html + "</p>" + Concat([]);
        }
      case FlatOther =>
    }
  }

  /** A footnote's anchor is `footnote-` followed by the slug of its rendered title, which needs no escaping. */
  lemma FootnoteId(title: seq<ParagraphSegment>, content: seq<NorgAstFlat>)
    ensures StartsWith(RangeableModifier(Footnote, title, content),
                       "<aside id=\"footnote-" + IntoSlug(SegmentsHtml(title)) + "\" class=\"footnote\">")
  {
    var slug := IntoSlug(SegmentsHtml(title));
    SlugNeedsNoEncoding(SegmentsHtml(title));
    var open := "<aside id=\"footnote-" + slug + "\" class=\"footnote\">";
    assert RangeableModifier(Footnote, title, content)[..|open|] == open;
  }

  /** Rangeable titles are escaped twice, as written: a title of plain text shows the text escaped and then escaped again. */
  lemma RangeableTitleEscapedTwice(text: string, content: seq<NorgAstFlat>)
    ensures RangeableModifier(Definition, [Token(Text(text))], content) ==
      "<dl><dt>" + EncodeMinimal(EncodeMinimal(text)) + "</dt><dd>" + RangeableBody(content) + "</dd></dl>"
  {
    var t := [Token(Text(text))];
    assert t[1..] == [];
    assert SegmentHtml(t[0]) == EncodeMinimal(text);
    assert SegmentsHtml(t) == EncodeMinimal(text) + SegmentsHtml([]);
    assert SegmentsHtml(t) == EncodeMinimal(text);
  }

  /** So an `&` in such a title appears as `&amp;amp;`. */
  lemma AmpersandEscapedTwice()
    ensures EncodeMinimal(EncodeMinimal("&")) == "&amp;amp;"
  {
    assert EncodeMinimal("&") == "&amp;";
    EncodeMinimalAppend("&", "amp;");
    assert "&amp;" == "&" + "amp;";
    EncodeMinimalSafeText("amp;");
  }
}
