/**
 * The table of contents: one entry per heading, collected in document
 * order by a walk that descends into heading content only.
 *
 * `TocOf` is the specification; `ExtractTocRecursive` is the loop of the
 * renderer, which pushes entries into a growing list and recurses into
 * each heading's content, and is proved against it.
 */
module Toc {
  import opened Strings
  import opened Slug
  import opened Ast
  import opened Segments
  import opened Seqs

  /** The entry of one heading: its level, its rendered title and the slug of that title. */
  function Entry(level: nat, title: seq<ParagraphSegment>): (e: TocEntry)
    ensures e.level == level && e.title == SegmentsHtml(title)
    ensures e.id == IntoSlug(e.title) && IsSlug(e.id)
  {
    var text := SegmentsHtml(title);
    SlugIsWellFormed(text);
    TocEntry(level, text, IntoSlug(text))
  }

  /** The entries of `nodes` in pre-order: a heading, then the headings of its content. */
  function TocOf(nodes: seq<NorgAst>): (r: seq<TocEntry>)
    ensures nodes == [] ==> r == []
    decreases nodes, 1
  {
    if nodes == [] then [] else NodeToc(nodes[0]) + TocOf(nodes[1..])
  }

  /** The entries of one node; anything but a heading contributes nothing and is not entered. */
  function NodeToc(node: NorgAst): (r: seq<TocEntry>)
    ensures node.Heading? <==> r != []
    decreases node, 0
  {
    match node
    case Heading(level, title, content) => [Entry(level, title)] + TocOf(content)
    case _ => []
  }

  /** The table of contents of two runs of nodes is the first's followed by the second's. */
  lemma {:induction false} TocOfAppend(a: seq<NorgAst>, b: seq<NorgAst>)
    ensures TocOf(a + b) == TocOf(a) + TocOf(b)
  {
    if a == [] {
      assert a + b == b;
    } else {
      assert (a + b)[0] == a[0];
      assert (a + b)[1..] == a[1..] + b;
      TocOfAppend(a[1..], b);
    }
  }

  /** There are no entries exactly when no top-level node is a heading: nothing is found below other nodes. */
  lemma {:induction false} TocEmptyIffNoHeading(nodes: seq<NorgAst>)
    ensures TocOf(nodes) == [] <==> forall k :: 0 <= k < |nodes| ==> !nodes[k].Heading?
  {
    if nodes != [] {
      TocEmptyIffNoHeading(nodes[1..]);
      assert forall k :: 1 <= k < |nodes| ==> nodes[k] == nodes[1..][k - 1];
    }
  }

  /** A heading's entry comes first, copied from the heading, and the entries of its content follow it. */
  lemma HeadingEntryFirst(level: nat, title: seq<ParagraphSegment>, content: seq<NorgAst>, rest: seq<NorgAst>)
    ensures var r := TocOf([Heading(level, title, content)] + rest);
      r[0] == TocEntry(level, SegmentsHtml(title), IntoSlug(SegmentsHtml(title))) &&
      r[1..] == TocOf(content) + TocOf(rest)
  {
    var h := Heading(level, title, content);
    ConsParts(h, rest);
    assert TocOf([h] + rest) == [Entry(level, title)] + (TocOf(content) + TocOf(rest));
    ConsParts(Entry(level, title), TocOf(content) + TocOf(rest));
  }

  /** An entry named by the slug of its title. */
  predicate SlugNamed(e: TocEntry) {
    e.id == IntoSlug(e.title)
  }

  /** Every entry's id is the slug of its title. */
  lemma {:induction false} TocIdsAreSlugs(nodes: seq<NorgAst>)
    ensures forall k :: 0 <= k < |TocOf(nodes)| ==> SlugNamed(TocOf(nodes)[k])
    decreases nodes
  {
    if nodes != [] {
      TocIdsAreSlugs(nodes[1..]);
      var first := NodeToc(nodes[0]);
      var rest := TocOf(nodes[1..]);
      if nodes[0].Heading? {
        TocIdsAreSlugs(nodes[0].content);
        var c := TocOf(nodes[0].content);
        assert first == [Entry(nodes[0].level, nodes[0].title)] + c;
        forall k | 0 <= k < |first| ensures SlugNamed(first[k]) {
          if k > 0 { assert first[k] == c[k - 1]; }
        }
      }
      var r := TocOf(nodes);
      assert r == first + rest;
      forall k | 0 <= k < |r| ensures SlugNamed(r[k]) {
        if k >= |first| { assert r[k] == rest[k - |first|]; } else { assert r[k] == first[k]; }
      }
    }
  }

  /** One more node adds that node's entries. */
  lemma TocStep(ast: seq<NorgAst>, i: nat)
    requires i < |ast|
    ensures TocOf(ast[..i + 1]) == TocOf(ast[..i]) + NodeToc(ast[i])
  {
    TakeSnoc(ast, i);
    TocOfAppend(ast[..i], [ast[i]]);
    ConsParts(ast[i], []);
  }

  /**
   * `extract_toc_recursive`: for each node in order, a heading pushes its
   * entry and then recurses into its content; `toc` is the list pushed to.
   */
  method ExtractTocRecursive(ast: seq<NorgAst>, toc: seq<TocEntry>) returns (out: seq<TocEntry>)
    ensures out == toc + TocOf(ast)
    decreases ast
  {
    out := toc;
    var i := 0;
    while i < |ast|
      invariant 0 <= i <= |ast|
      invariant out == toc + TocOf(ast[..i])
    {
      var node := ast[i];
      TocStep(ast, i);
      match node {
        case Heading(level, title, content) =>
          var text := ConvertSegments(title);
          var id := IntoSlug(text);
          ghost var before := out;
          out := out + [TocEntry(level, text, id)];
          out := ExtractTocRecursive(content, out);
          AppendAssoc(before, [Entry(level, title)], TocOf(content));
          AppendAssoc(toc, TocOf(ast[..i]), NodeToc(node));
        case _ =>
      }
      i := i + 1;
    }
    assert ast[..i] == ast;
  }

  /** `extract_toc`: the entries collected into an empty list. */
  method ExtractToc(ast: seq<NorgAst>) returns (toc: seq<TocEntry>)
    ensures toc == TocOf(ast)
    ensures forall k :: 0 <= k < |toc| ==> toc[k].id == IntoSlug(toc[k].title) && IsSlug(toc[k].id)
  {
    toc := ExtractTocRecursive(ast, []);
    TocIdsAreSlugs(ast);
    forall k | 0 <= k < |toc| ensures toc[k].id == IntoSlug(toc[k].title) && IsSlug(toc[k].id) {
      assert SlugNamed(toc[k]);
      SlugIsWellFormed(toc[k].title);
    }
  }
}
