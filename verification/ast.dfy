/**
 * The shapes of the parsed Norg document that the renderer consumes: the
 * variants of `NorgAST`, `NorgASTFlat`, `ParagraphSegment`,
 * `ParagraphSegmentToken`, `LinkTarget` and the detached-modifier
 * extensions that the match arms of the renderer look at, plus the records
 * the renderer produces (`InlineComponent`, `TocEntry`). Variants the
 * renderer never distinguishes are folded into one catch-all constructor.
 */
module Ast {
  import opened Wrappers

  /** The smallest pieces of paragraph text. */
  datatype ParagraphSegmentToken =
    | Whitespace
    | Text(text: string)
    | Special(ch: char)
    | Escape(ch: char)

  /**
   * Inline content. `Link` keeps the targets, the optional description and
   * the optional file path; `Unsupported` stands for every other variant of
   * the parser's type, which the renderer drops.
   */
  datatype ParagraphSegment =
    | Token(token: ParagraphSegmentToken)
    | AttachedModifier(modifierType: char, content: seq<ParagraphSegment>)
    | Link(targets: seq<LinkTarget>, description: LinkDescription, filepath: Option<string>)
    | Anchor(content: seq<ParagraphSegment>)
    | InlineVerbatim(tokens: seq<ParagraphSegmentToken>)
    | Unsupported

  /** The optional description of a link (its own type, so that recursion into it is seen to terminate). */
  datatype LinkDescription = NoDescription | Described(segments: seq<ParagraphSegment>)

  /**
   * Where a link points. A heading target carries the debug formatting of
   * its title segments, which is the only thing the renderer reads of it.
   */
  datatype LinkTarget =
    | Url(url: string)
    | HeadingTarget(level: nat, debugTitle: string)
    | FootnoteTarget(name: string)
    | DefinitionTarget(name: string)
    | PathTarget
    | TimestampTarget
    | GenericTarget
    | ExtendableTarget
    | WikiTarget

  datatype NestableKind = UnorderedList | OrderedList | Quote

  datatype RangeableKind = Definition | Footnote | Table

  datatype DelimiterKind = Weak | Strong | HorizontalRule

  datatype TodoStatus =
    | Undone
    | Done
    | NeedsClarification
    | Paused
    | Urgent
    | Pending
    | Canceled
    | Recurring(date: Option<string>)

  datatype DetachedModifierExtension =
    | Todo(status: TodoStatus)
    | Priority(priority: string)
    | Timestamp(timestamp: string)
    | DueDate(due: string)
    | StartDate(start: string)

  /** The flat node of list-item text and of rangeable bodies; only paragraphs are rendered. */
  datatype NorgAstFlat =
    | FlatParagraph(segments: seq<ParagraphSegment>)
    | FlatOther

  /** A node of the document tree. */
  datatype NorgAst =
    | Paragraph(segments: seq<ParagraphSegment>)
    | NestableDetachedModifier(modifierType: NestableKind, extensions: seq<DetachedModifierExtension>,
                               text: NorgAstFlat, nested: seq<NorgAst>)
    | RangeableDetachedModifier(rangeableType: RangeableKind, title: seq<ParagraphSegment>, body: seq<NorgAstFlat>)
    | Heading(level: nat, title: seq<ParagraphSegment>, content: seq<NorgAst>)
    | VerbatimRangedTag(name: seq<string>, parameters: seq<string>, tagContent: string)
    | DelimitingModifier(delimiter: DelimiterKind)
    | CarryoverTag
    | RangedTag
    | InfirmTag

  /** An `@inline` block lifted out of the HTML, numbered in discovery order. */
  datatype InlineComponent = InlineComponent(index: nat, framework: string, code: string)

  /** One table-of-contents line. */
  datatype TocEntry = TocEntry(level: nat, title: string, id: string)
}
