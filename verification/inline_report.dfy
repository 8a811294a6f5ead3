/**
 * What the error report names when an `@inline css` block comes before a
 * failing `@inline` block: the transform numbers the failure by the
 * components held, and the CSS block yields none.
 */
module InlineReport {
  import opened Wrappers
  import opened Strings
  import opened Handlers
  import opened Ast
  import opened Html
  import opened InlineErrors

  /** A stylesheet block, then a `react` block: `react` is not a framework an inline block may name. */
  const CssThenReactLines: seq<string> := ["@inline css", ".a {}", "@end", "@inline react", "x", "@end"]

  const CssThenReact: string := Join(CssThenReactLines, "\n")

  /** The nodes the parser makes of `CssThenReact`. */
  const CssThenReactTree: seq<NorgAst> :=
    [VerbatimRangedTag(["inline"], ["css"], ".a {}"), VerbatimRangedTag(["inline"], ["react"], "x")]

  /** The CSS block is set aside and the `react` block fails as the first component, index 0. */
  lemma CssThenReactFails(ext: Externals)
    ensures TransformSpec(CssThenReactTree, None, ext) == Err(InlineParseError(0, InvalidFramework("react")))
  {
    assert FirstParameter(["css"]) == Some("css");
    assert FirstParameter(["react"]) == Some("react");
    assert "react" !in InlineFrameworks;
    var first := CssThenReactTree[0];
    var second := CssThenReactTree[1];
    assert WalkNode(first, None, ext) == Outcome([CssEvent(".a {}")], None);
    assert WalkNode(second, None, ext) == Outcome([], Some(InvalidFramework("react")));
    assert CssThenReactTree[1..][1..] == [];
    assert Walk(CssThenReactTree[1..], None, ext) == Outcome([], Some(InvalidFramework("react")));
    var events := [CssEvent(".a {}")];
    assert Walk(CssThenReactTree, None, ext) == Outcome(events + [], Some(InvalidFramework("react")));
    assert events + [] == events;
    assert events[1..] == [];
    assert InlinesOf(events) == [];
  }

  /** The lines of `CssThenReact` are the six lines it was made of. */
  lemma CssThenReactSplits()
    ensures Lines(CssThenReact) == CssThenReactLines
  {
    var ls := CssThenReactLines;
    forall k | 0 <= k < |ls| ensures PlainLine(ls[k]) {
    }
    LinesOfJoin(ls);
  }

  /** The first and fourth lines are block headers. */
  lemma CssThenReactHeaderLines()
    ensures CssThenReactLines[0] == Header("css") && CssThenReactLines[3] == Header("react")
  {
  }

  /** The two headers open an inline block, and only the `react` one a component. */
  lemma CssThenReactHeaders()
    ensures Qualifies(CssThenReactLines[0]) && Qualifies(CssThenReactLines[3])
    ensures !OpensComponent(CssThenReactLines[0], None) && OpensComponent(CssThenReactLines[3], None)
  {
    CssThenReactHeaderLines();
    assert IsWord("css") && IsWord("react");
    HeaderOpensComponent("css", None);
    HeaderOpensComponent("react", None);
    assert FirstParameter(["css"]) == Some("css");
    assert FirstParameter(["react"]) == Some("react");
  }

  /** The other lines are too short to open a block. */
  lemma CssThenReactBodies()
    ensures !Qualifies(CssThenReactLines[1]) && !Qualifies(CssThenReactLines[2])
    ensures !Qualifies(CssThenReactLines[4]) && !Qualifies(CssThenReactLines[5])
  {
    assert !IsWhitespace('.') && !IsWhitespace('@') && !IsWhitespace('x');
  }

  /** Six lines of which the first and fourth open an inline block: the scan as written lists those two. */
  lemma QualifyingOfTwoBlocks(ls: seq<string>)
    requires |ls| == 6 && Qualifies(ls[0]) && Qualifies(ls[3])
    requires !Qualifies(ls[1]) && !Qualifies(ls[2]) && !Qualifies(ls[4]) && !Qualifies(ls[5])
    ensures QualifyingLines(ls) == [ls[0], ls[3]]
  {
    assert ls[..1][..0] == [] && ls[..1][0] == ls[0];
    assert QualifyingLines(ls[..1]) == [ls[0]];
    assert ls[..2][..1] == ls[..1] && ls[..2][1] == ls[1];
    assert QualifyingLines(ls[..2]) == [ls[0]];
    assert ls[..3][..2] == ls[..2] && ls[..3][2] == ls[2];
    assert QualifyingLines(ls[..3]) == [ls[0]];
    assert ls[..4][..3] == ls[..3] && ls[..4][3] == ls[3];
    assert QualifyingLines(ls[..4]) == [ls[0]] + [ls[3]];
    assert ls[..5][..4] == ls[..4] && ls[..5][4] == ls[4];
    assert QualifyingLines(ls[..5]) == [ls[0], ls[3]];
    assert ls[..5] == ls[..|ls| - 1];
  }

  /** The same six lines when only the fourth opens a block that yields a component. */
  lemma ComponentsOfTwoBlocks(ls: seq<string>, target: Option<string>)
    requires |ls| == 6 && !OpensComponent(ls[0], target) && OpensComponent(ls[3], target)
    requires !Qualifies(ls[1]) && !Qualifies(ls[2]) && !Qualifies(ls[4]) && !Qualifies(ls[5])
    ensures ComponentLines(ls, target) == [ls[3]]
  {
    assert !OpensComponent(ls[1], target) && !OpensComponent(ls[2], target);
    assert !OpensComponent(ls[4], target) && !OpensComponent(ls[5], target);
    assert ls[..1][..0] == [] && ls[..1][0] == ls[0];
    assert ComponentLines(ls[..1], target) == [];
    assert ls[..2][..1] == ls[..1] && ls[..2][1] == ls[1];
    assert ComponentLines(ls[..2], target) == [];
    assert ls[..3][..2] == ls[..2] && ls[..3][2] == ls[2];
    assert ComponentLines(ls[..3], target) == [];
    assert ls[..4][..3] == ls[..3] && ls[..4][3] == ls[3];
    assert ComponentLines(ls[..4], target) == [] + [ls[3]];
    assert ls[..5][..4] == ls[..4] && ls[..5][4] == ls[4];
    assert ComponentLines(ls[..5], target) == [ls[3]];
    assert ls[..5] == ls[..|ls| - 1];
  }

  /**
   * The failure of `CssThenReactTree` has index 0. The scan as written
   * counts the CSS block and reports its line; counting only the lines
   * whose block yields a component reports the failing block.
   */
  lemma CssBlockShiftsReport(ext: Externals)
    ensures TransformSpec(CssThenReactTree, None, ext).Err?
    ensures TransformSpec(CssThenReactTree, None, ext).error.index == 0
    ensures InlineLine(CssThenReact, 0) == Some("@inline css")
    ensures ComponentLine(CssThenReact, 0, None) == Some("@inline react")
  {
    CssThenReactFails(ext);
    CssThenReactSplits();
    CssThenReactHeaders();
    CssThenReactBodies();
    CssThenReactHeaderLines();
    QualifyingOfTwoBlocks(CssThenReactLines);
    ComponentsOfTwoBlocks(CssThenReactLines, None);
  }

  /**
   * So the two reports of an error numbered 0, such as the failure of
   * `CssThenReactTree`, differ on `CssThenReact`: `format_inline_error` as
   * written quotes the CSS block's line, the corrected report the failing
   * block's.
   */
  lemma CssBlockReports(err: InlineParseError)
    requires err.index == 0
    ensures InlineErrorText(CssThenReact, err) == Report(err, Some("@inline css"))
    ensures CorrectedErrorText(CssThenReact, err, None) == Report(err, Some("@inline react"))
    ensures InlineErrorText(CssThenReact, err) != CorrectedErrorText(CssThenReact, err, None)
  {
    CssThenReactSplits();
    CssThenReactHeaders();
    CssThenReactBodies();
    CssThenReactHeaderLines();
    QualifyingOfTwoBlocks(CssThenReactLines);
    ComponentsOfTwoBlocks(CssThenReactLines, None);
    ReportLength(err, "@inline css");
    ReportLength(err, "@inline react");
  }
}
