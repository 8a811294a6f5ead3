/**
 * Reporting an `@inline` failure: the error's text, followed by the source
 * line of the failing `@inline` block when it can be found.
 *
 * The renderer reports the `index`-th (from 0) line that opens an `@inline`
 * tag; `QualifyingLines` lists those lines, `FindInlineLine`, its
 * counting loop as written, is proved against it, and `FormatInlineError`
 * builds the report from it. The error's index, however, counts only the
 * components held before the failing block, and an `@inline css` block
 * yields no component; `ComponentLines` and `FindComponentLine` count only
 * the lines whose block yields one, and `FormatInlineErrorCorrected`
 * builds the report from them.
 */
module InlineErrors {
  import opened Wrappers
  import opened Strings
  import opened Handlers
  import opened Seqs

  /** The word that opens an inline block. */
  const InlineTag: string := "@inline"

  /** Text that starts with `@inline` followed by its end or by whitespace. */
  predicate OpensInline(t: string) {
    |t| >= |InlineTag| && t[..|InlineTag|] == InlineTag && (|t| == |InlineTag| || IsWhitespace(t[|InlineTag|]))
  }

  /** A line opens an inline block when it does so after its leading whitespace. */
  predicate Qualifies(line: string) {
    if line != [] && IsWhitespace(line[0]) then Qualifies(line[1..]) else OpensInline(line)
  }

  /** Qualifying is `trim_start` followed by the test for `@inline`. */
  lemma {:induction false} QualifiesAfterTrimStart(line: string)
    ensures Qualifies(line) <==> OpensInline(TrimStart(line))
  {
    if line != [] && IsWhitespace(line[0]) {
      QualifiesAfterTrimStart(line[1..]);
    }
  }

  /** The lines that open an inline block, in order, each as it stands in the text. */
  function QualifyingLines(lines: seq<string>): (q: seq<string>)
    ensures |q| <= |lines|
    ensures forall k :: 0 <= k < |q| ==> Qualifies(q[k]) && q[k] in lines
  {
    if lines == [] then []
    else
      var n := |lines| - 1;
      var front := QualifyingLines(lines[..n]);
      assert forall k :: 0 <= k < |front| ==> front[k] in lines by {
        forall k | 0 <= k < |front| ensures front[k] in lines {
          var j :| 0 <= j < n && lines[..n][j] == front[k];
          assert lines[j] == front[k];
        }
      }
      front + (if Qualifies(lines[n]) then [lines[n]] else [])
  }

  /** A line qualifies exactly when it is kept. */
  lemma {:induction false} QualifyingLinesCount(lines: seq<string>)
    ensures (forall k :: 0 <= k < |lines| ==> !Qualifies(lines[k])) <==> QualifyingLines(lines) == []
  {
    if lines != [] {
      var n := |lines| - 1;
      var front := lines[..n];
      var last := if Qualifies(lines[n]) then [lines[n]] else [];
      assert QualifyingLines(lines) == QualifyingLines(front) + last;
      QualifyingLinesCount(front);
      if forall k :: 0 <= k < |lines| ==> !Qualifies(lines[k]) {
        forall k | 0 <= k < n ensures !Qualifies(front[k]) {
          assert front[k] == lines[k];
        }
        assert QualifyingLines(front) == [];
      } else {
        var k :| 0 <= k < |lines| && Qualifies(lines[k]);
        if k < n {
          assert front[k] == lines[k];
          assert QualifyingLines(front) != [];
        }
      }
    }
  }

  /** Listing the qualifying lines of two runs of lines is listing those of each. */
  lemma {:induction false} QualifyingLinesAppend(a: seq<string>, b: seq<string>)
    ensures QualifyingLines(a + b) == QualifyingLines(a) + QualifyingLines(b)
    decreases |b|
  {
    if b == [] {
      assert a + b == a;
    } else {
      var n := |b| - 1;
      assert (a + b)[..|a| + n] == a + b[..n];
      assert (a + b)[|a| + n] == b[n];
      QualifyingLinesAppend(a, b[..n]);
    }
  }

  /** The line that `find_inline_line` reports for the `index`-th failing block. */
  function InlineLine(content: string, index: nat): (r: Option<string>)
    ensures r.Some? ==> Qualifies(r.value) && r.value in Lines(content)
  {
    var q := QualifyingLines(Lines(content));
    if index < |q| then Some(q[index]) else None
  }

  /**
   * `find_inline_line`: scan the lines, counting those that open an inline
   * block, and return the one whose count is `index`.
   */
  method FindInlineLine(content: string, index: nat) returns (r: Option<string>)
    ensures r == InlineLine(content, index)
    ensures r.None? <==> |QualifyingLines(Lines(content))| <= index
  {
    var lines := Lines(content);
    var count := 0;
    var i := 0;
    while i < |lines|
      invariant 0 <= i <= |lines|
      invariant count == |QualifyingLines(lines[..i])| <= index
    {
      var line := lines[i];
      TakeSnoc(lines, i);
      if Qualifies(line) {
        if count == index {
          QualifyingLinesAppend(lines[..i + 1], lines[i + 1..]);
          assert lines[..i + 1] + lines[i + 1..] == lines;
          assert QualifyingLines(lines)[index] == line;
          return Some(line);
        }
        count := count + 1;
      }
      i := i + 1;
    }
    assert lines[..i] == lines;
    return None;
  }

  /** An `@inline` line counts with or without indentation and a framework name; `@inlinecss` and text before the tag do not. */
  lemma QualifyingExamples()
    ensures Qualifies("@inline")
    ensures Qualifies("  @inline svelte")
    ensures !Qualifies("@inlinecss")
    ensures !Qualifies("text @inline")
  {
    assert !IsWhitespace('@') && !IsWhitespace('t');
    assert OpensInline("@inline");
    var indented := "  @inline svelte";
    assert indented[1..] == " @inline svelte" && indented[2..] == "@inline svelte";
    assert "@inline svelte"[..7] == InlineTag;
    assert Qualifies(indented[1..]);
    assert "@inlinecss"[..7] == InlineTag;
    assert !IsWhitespace('c');
  }

  // ---------------------------------------------------------------------
  // Counting only the blocks that yield a component

  /** The leading run of non-whitespace characters. */
  function WordPrefix(t: string): string {
    if t == [] || IsWhitespace(t[0]) then [] else [t[0]] + WordPrefix(t[1..])
  }

  /** The first whitespace-separated word of a text. */
  function FirstWord(s: string): string {
    if s != [] && IsWhitespace(s[0]) then FirstWord(s[1..]) else WordPrefix(s)
  }

  /** The first parameter of the block a line opens: past its indentation and `@inline`, the first word. */
  function TagParameter(line: string): string {
    if line != [] && IsWhitespace(line[0]) then TagParameter(line[1..])
    else if |line| >= |InlineTag| then FirstWord(line[|InlineTag|..])
    else []
  }

  /** The framework a line's block resolves to: its first parameter, else the target. */
  function LineFramework(line: string, target: Option<string>): string {
    ResolveFramework([TagParameter(line)], target)
  }

  /** A qualifying line whose block yields a component: the framework it resolves to is not `css`. */
  predicate OpensComponent(line: string, target: Option<string>) {
    Qualifies(line) && LineFramework(line, target) != "css"
  }

  /** The lines that open a block yielding a component, in order, each as it stands in the text. */
  function ComponentLines(lines: seq<string>, target: Option<string>): (q: seq<string>)
    ensures |q| <= |lines|
    ensures forall k :: 0 <= k < |q| ==> OpensComponent(q[k], target) && q[k] in lines
  {
    if lines == [] then []
    else
      var n := |lines| - 1;
      var front := ComponentLines(lines[..n], target);
      assert forall k :: 0 <= k < |front| ==> front[k] in lines by {
        forall k | 0 <= k < |front| ensures front[k] in lines {
          var j :| 0 <= j < n && lines[..n][j] == front[k];
          assert lines[j] == front[k];
        }
      }
      front + (if OpensComponent(lines[n], target) then [lines[n]] else [])
  }

  /** Listing the component lines of two runs of lines is listing those of each. */
  lemma {:induction false} ComponentLinesAppend(a: seq<string>, b: seq<string>, target: Option<string>)
    ensures ComponentLines(a + b, target) == ComponentLines(a, target) + ComponentLines(b, target)
    decreases |b|
  {
    if b == [] {
      assert a + b == a;
    } else {
      var n := |b| - 1;
      assert (a + b)[..|a| + n] == a + b[..n];
      assert (a + b)[|a| + n] == b[n];
      ComponentLinesAppend(a, b[..n], target);
    }
  }

  /** The line that opens the block of the `index`-th component. */
  function ComponentLine(content: string, index: nat, target: Option<string>): (r: Option<string>)
    ensures r.Some? ==> OpensComponent(r.value, target) && r.value in Lines(content)
  {
    var q := ComponentLines(Lines(content), target);
    if index < |q| then Some(q[index]) else None
  }

  /** The scan of `find_inline_line`, counting only the lines whose block yields a component. */
  method FindComponentLine(content: string, index: nat, target: Option<string>) returns (r: Option<string>)
    ensures r == ComponentLine(content, index, target)
    ensures r.None? <==> |ComponentLines(Lines(content), target)| <= index
  {
    var lines := Lines(content);
    var count := 0;
    var i := 0;
    while i < |lines|
      invariant 0 <= i <= |lines|
      invariant count == |ComponentLines(lines[..i], target)| <= index
    {
      var line := lines[i];
      TakeSnoc(lines, i);
      if OpensComponent(line, target) {
        if count == index {
          var rest := lines[i + 1..];
          assert lines[..i + 1] + rest == lines;
          ComponentLinesAppend(lines[..i + 1], rest, target);
          assert ComponentLines(lines, target)[index] == line;
          return Some(line);
        }
        count := count + 1;
      }
      i := i + 1;
    }
    assert lines[..i] == lines;
    return None;
  }

  // ---------------------------------------------------------------------
  // Block headers

  /** The opening line of an `@inline` block whose parameter is `p`. */
  function Header(p: string): string {
    InlineTag + " " + p
  }

  /** A parameter as the parser splits them: non-empty and without whitespace. */
  predicate IsWord(p: string) {
    p != [] && forall k :: 0 <= k < |p| ==> !IsWhitespace(p[k])
  }

  /** The opening lines of blocks with parameters `ps`, in order. */
  function Headers(ps: seq<string>): (r: seq<string>)
    ensures |r| == |ps|
  {
    if ps == [] then [] else Headers(ps[..|ps| - 1]) + [Header(ps[|ps| - 1])]
  }

  /** The parameters of the blocks that yield a component, in order. */
  function ComponentParameters(ps: seq<string>, target: Option<string>): (r: seq<string>)
    ensures |r| <= |ps|
  {
    if ps == [] then []
    else
      var n := |ps| - 1;
      ComponentParameters(ps[..n], target) + (if ResolveFramework([ps[n]], target) != "css" then [ps[n]] else [])
  }

  lemma {:induction false} WordPrefixOfWord(p: string)
    requires forall k :: 0 <= k < |p| ==> !IsWhitespace(p[k])
    ensures WordPrefix(p) == p
  {
    if p != [] {
      WordPrefixOfWord(p[1..]);
    }
  }

  /** A header opens an inline block, and yields a component exactly when its parameter does not resolve to `css`. */
  lemma HeaderOpensComponent(p: string, target: Option<string>)
    requires IsWord(p)
    ensures Qualifies(Header(p))
    ensures OpensComponent(Header(p), target) <==> ResolveFramework([p], target) != "css"
  {
    var h := Header(p);
    assert h[0] == '@' && !IsWhitespace('@');
    assert h[..|InlineTag|] == InlineTag;
    assert h[|InlineTag|] == ' ';
    assert OpensInline(h);
    assert h[|InlineTag|..] == " " + p;
    assert (" " + p)[1..] == p;
    assert TagParameter(h) == FirstWord(" " + p) == FirstWord(p);
    WordPrefixOfWord(p);
  }

  /**
   * In a document made of `@inline` blocks, the `k`-th component line is the
   * header of the `k`-th block that yields a component, which is the block
   * an error with index `k` names.
   */
  lemma {:induction false} ComponentLinesOfHeaders(ps: seq<string>, target: Option<string>)
    requires forall k :: 0 <= k < |ps| ==> IsWord(ps[k])
    ensures ComponentLines(Headers(ps), target) == Headers(ComponentParameters(ps, target))
  {
    if ps == [] {
      assert Headers(ps) == [] && ComponentParameters(ps, target) == [];
    } else {
      var n := |ps| - 1;
      var p := ps[n];
      var hs := Headers(ps);
      assert hs[..n] == Headers(ps[..n]);
      assert hs[n] == Header(p);
      ComponentLinesOfHeaders(ps[..n], target);
      HeaderOpensComponent(p, target);
      var front := ComponentParameters(ps[..n], target);
      var lines := ComponentLines(hs[..n], target);
      assert lines == Headers(front);
      if ResolveFramework([p], target) != "css" {
        assert ComponentLines(hs, target) == lines + [Header(p)];
        assert ComponentParameters(ps, target) == front + [p];
        assert (front + [p])[..|front|] == front;
        assert Headers(front + [p]) == Headers(front) + [Header(p)];
      } else {
        assert ComponentLines(hs, target) == lines + [] == lines;
        assert ComponentParameters(ps, target) == front + [] == front;
      }
    }
  }

  // ---------------------------------------------------------------------
  // The report

  /** The error's text, then the given line when there is one. */
  function Report(err: InlineParseError, found: Option<string>): string {
    match found
    case Some(line) => ErrorMessage(err) + ". Offending line: " + line
    case None => ErrorMessage(err)
  }

  /** A report opens with the error's text, which names the occurrence from one, and ends with the line when there is one. */
  lemma ReportOf(err: InlineParseError, found: Option<string>)
    ensures StartsWith(Report(err, found), ErrorMessage(err))
    ensures StartsWith(Report(err, found), "Inline error (inline #" + NatToString(err.index + 1) + "): ")
    ensures found.Some? ==> EndsWith(Report(err, found), ". Offending line: " + found.value)
    ensures Report(err, found) == ErrorMessage(err) <==> found.None?
  {
    ErrorMessageNamesOccurrence(err);
    var m := ErrorMessage(err);
    var prefix := "Inline error (inline #" + NatToString(err.index + 1) + "): ";
    if found.Some? {
      var tail := ". Offending line: " + found.value;
      assert Report(err, found) == m + tail;
      StartsWithAppend(m, tail, prefix);
      EndsWithAppended(m, tail);
    } else {
      assert m[..|m|] == m;
    }
  }

  /** A report that quotes a line is as long as the error's text, the separator and the line. */
  lemma ReportLength(err: InlineParseError, line: string)
    ensures |Report(err, Some(line))| == |ErrorMessage(err)| + |". Offending line: "| + |line|
  {
  }

  /** The report `format_inline_error` builds: the line found by the scan as written. */
  function InlineErrorText(content: string, err: InlineParseError): string {
    Report(err, InlineLine(content, err.index))
  }

  /**
   * `format_inline_error`: the error's text, with the line found by
   * `find_inline_line` appended when there is one.
   */
  method FormatInlineError(content: string, err: InlineParseError) returns (r: string)
    ensures r == InlineErrorText(content, err)
    ensures StartsWith(r, ErrorMessage(err))
    ensures r == ErrorMessage(err) <==> InlineLine(content, err.index).None?
  {
    var base := ErrorMessage(err);
    var line := FindInlineLine(content, err.index);
    if line.Some? {
      r := base + ". Offending line: " + line.value;
      assert r[..|base|] == base;
    } else {
      r := base;
    }
    ReportOf(err, line);
  }

  /** The report names the failing occurrence counting from one, and ends with the line found when there is one. */
  lemma ReportShape(content: string, err: InlineParseError)
    ensures StartsWith(InlineErrorText(content, err), "Inline error (inline #" + NatToString(err.index + 1) + "): ")
    ensures InlineLine(content, err.index).Some? ==>
      EndsWith(InlineErrorText(content, err), ". Offending line: " + InlineLine(content, err.index).value)
  {
    ReportOf(err, InlineLine(content, err.index));
  }

  /** The corrected report: the line found by the scan that counts only component blocks. */
  function CorrectedErrorText(content: string, err: InlineParseError, target: Option<string>): string {
    Report(err, ComponentLine(content, err.index, target))
  }

  /** `format_inline_error` over the corrected scan, which needs the target framework. */
  method FormatInlineErrorCorrected(content: string, err: InlineParseError, target: Option<string>) returns (r: string)
    ensures r == CorrectedErrorText(content, err, target)
    ensures StartsWith(r, ErrorMessage(err))
    ensures r == ErrorMessage(err) <==> ComponentLine(content, err.index, target).None?
  {
    var base := ErrorMessage(err);
    var line := FindComponentLine(content, err.index, target);
    if line.Some? {
      r := base + ". Offending line: " + line.value;
      assert r[..|base|] == base;
    } else {
      r := base;
    }
    ReportOf(err, line);
  }

  /** The corrected report names the failing occurrence and ends with the line of the failing component block when found. */
  lemma CorrectedReportShape(content: string, err: InlineParseError, target: Option<string>)
    ensures StartsWith(CorrectedErrorText(content, err, target), "Inline error (inline #" + NatToString(err.index + 1) + "): ")
    ensures ComponentLine(content, err.index, target).Some? ==>
      EndsWith(CorrectedErrorText(content, err, target), ". Offending line: " + ComponentLine(content, err.index, target).value)
  {
    ReportOf(err, ComponentLine(content, err.index, target));
  }
}
