# vite-plugin-norg render engine, modelled in Dafny

This project models the render engine of `vite-plugin-norg`. The engine
takes an already parsed Norg document tree and produces four things:

- its HTML;
- the `@inline` components lifted out of that HTML;
- the table of contents;
- the document metadata as JSON.

It also models the part of the code generators that stitches the HTML
fragments and the components back together.

The modules follow the source files:

| module | file | what it holds |
|---|---|---|
| `Ast` | `rust_norg` node types and `types.rs` | The node, segment, link-target and extension shapes the renderer matches on. Variants the renderer never tells apart are folded into one constructor. `InlineComponent` and `TocEntry` are records. |
| `Strings` | Rust `str` and `htmlescape` | `trim_start`/`trim`, `lines`, `starts_with`/`ends_with`, join, and `encode_minimal` as the character-wise escape of `& < > " '`. |
| `Slug` | `src/parser/utils.rs` | `into_slug`, with its output shape, its kept characters, idempotence and the unit-test examples. |
| `Segments` | `src/parser/segments.rs` | The recursive inline renderer: tokens, attached modifiers, links. `convert_segments` is a loop proved against the recursive definition. |
| `Handlers` | `src/parser/ast_handlers.rs` | `verbatim_tag_with_embeds` with its `@inline` framework decision, the `Display` text of inline errors, paragraphs, delimiters, list items (`format_list_item` as a loop) and todo markers. |
| `Html` | `src/parser/html.rs` | `TransformState` as a class whose methods update its four fields. `Walk` is the specification of `transform_nodes`/`transform_node`: the events (HTML, component, CSS) a document produces, and the first failure. |
| `Toc` | `src/parser/toc.rs` | The pre-order collection of headings. The pushing recursion is proved against `TocOf`. |
| `Metadata` | `src/parser/metadata.rs` | The first top-level `document.meta` block, and `meta_to_json`. |
| `InlineErrors` | `src/parser/lib.rs` | `find_inline_line`, a counting loop proved against the list of qualifying lines, and `format_inline_error` built on it, as written. Beside them, a corrected scan that counts only the blocks yielding a component, and the report built on that. |
| `InlineReport` | `src/parser/lib.rs` with `html.rs` | A document whose `@inline css` block precedes a failing block, on which the two scans report different lines. |
| `Generators` | `src/plugin/generators/index.ts` | `embedInlines`, `interleaveHtmlAndInlines` and `addInlineImports` as loops; `generateVue` and `generateReact` as line lists. |
| `GeneratorUtils` | `src/plugin/generators/utils.ts` | `lines`. |
| `RoundTrip` | across the above | The end-to-end statement: the transform followed by `embedInlines` gives the document's HTML with every component's code in its place. |

## Model

| member | source | states |
|---|---|---|
| `Slug.MapChars` | src/parser/utils.rs:3-6 | Each character is lowercased, then kept if alphanumeric and replaced by `-` otherwise, one for one. |
| `Slug.IntoSlug` | src/parser/utils.rs:2-11 | `into_slug` as the map, split, filter and join; its properties are stated by `SlugIsWellFormed`, `SlugKeepsAlphanumerics`, `SlugEmptyIffNoAlphanumeric` and `SlugIdempotent`. |
| `Slug.Split` | src/parser/utils.rs:7 | Splitting at `-` always yields at least one piece. |
| `Slug.NonEmpty` | src/parser/utils.rs:8 | The filter keeps only non-empty pieces, all taken from the input. |
| `Slug.SplitPiecesAlphanumeric` | src/parser/utils.rs:5-7 | After the character map, every piece of the split is made of lowercase alphanumerics. |
| `Slug.JoinIsSlug` | src/parser/utils.rs:8-10 | Joining non-empty alphanumeric pieces with `-` gives no leading, trailing or doubled `-`. |
| `Slug.SlugIsWellFormed` | src/parser/utils.rs:2-11 | The output holds only lowercase alphanumerics and `-`, with no `-` at either end and never `--`. |
| `Slug.SlugKeepsAlphanumerics` | src/parser/utils.rs:2-11 | With the dashes removed, the output is exactly the input's alphanumerics, lowercased, in order. |
| `Slug.SlugEmptyIffNoAlphanumeric` | src/parser/utils.rs:2-11 | The slug is empty exactly when the input has no alphanumeric character. |
| `Slug.SlugOfSlug` | src/parser/utils.rs:2-11 | Text already in slug form is its own slug. |
| `Slug.SlugIdempotent` | src/parser/utils.rs:2-11 | `into_slug(into_slug(x)) == into_slug(x)` for every text. |
| `Slug.SlugExampleHelloWorld` | src/parser/utils.rs:19 | `"Hello World"` gives `"hello-world"`. |
| `Slug.SlugExampleSpecialCharacters` | src/parser/utils.rs:20 | `"Special!@#Characters"` gives `"special-characters"`. |
| `Slug.SlugExampleMultipleSpaces` | src/parser/utils.rs:21 | `"Multiple   Spaces"` gives `"multiple-spaces"`: a run of separators becomes one dash. |
| `Slug.SlugExampleEmpty` | src/parser/utils.rs:22 | The empty text gives the empty slug. |
| `Slug.SlugExamplePunctuation` | src/parser/utils.rs:23 | `"!!!"` gives the empty slug. |
| `Slug.SlugExampleDigits` | src/parser/utils.rs:24 | `"123"` gives `"123"`. |
| `Strings.TrimStart` | src/parser/lib.rs:67 | `trim_start` drops exactly the leading whitespace: the result is a suffix, and it starts with a non-whitespace character or is empty. |
| `Strings.TrimEnd` | src/parser/ast_handlers.rs:179 | Trimming the end drops exactly the trailing whitespace. |
| `Strings.TrimEmptyIffBlank` | src/parser/ast_handlers.rs:179 | `trim().is_empty()` holds exactly when the text is all whitespace. |
| `Strings.Lines` | src/parser/ast_handlers.rs:258 | `lines()` gives no lines for the empty text, and no line holds a `\n`. |
| `Strings.LinesOfJoin` | src/parser/lib.rs:66 | Lines holding no `\n` and no final `\r`, the last non-empty, are what `lines()` gives back from their join by `\n`. |
| `Strings.NatToString` | src/parser/ast_handlers.rs:27 | Decimal rendering: at least one digit, only digits, and a leading `0` only for zero. |
| `Strings.EncodeMinimal` | src/parser/segments.rs:58 | The escaped text holds no `<`, `>`, `"` or `'` and is never shorter than the input. |
| `Strings.EncodeMinimalAppend` | src/parser/segments.rs:58 | Escaping distributes over concatenation. |
| `Strings.EncodeMinimalChangesIffSpecial` | src/parser/segments.rs:58 | Escaping changes the text exactly when it holds one of `& < > " '`. |
| `Segments.TokenHtml` | src/parser/segments.rs:55-62 | `handle_segment_token` with `encode_minimal`; stated by `TokenHtmlIsEncodedText` and `TokenHtmlMarkupFree`. |
| `Segments.SegmentHtml` | src/parser/segments.rs:23-53 | `convert_segment`; stated per segment kind by `TokenHtmlIsEncodedText`, `EmphasisWrapping`, `InlineVerbatimIsPlainCode`, `LinkToUrl`, `LinkToHeading` and `UnsupportedRendersNothing`. |
| `Segments.CodeSegments` | src/parser/segments.rs:13-21 | `convert_code_segments`; stated by `CodeSegmentsKeepsOnlyTokens`. |
| `Segments.AttachedModifierHtml` | src/parser/segments.rs:64-82 | `convert_attached_modifier`; stated by `EmphasisWrapping`, `CodeMarkerKeepsTokens` and `WrapperInjective`. |
| `Segments.LinkHtml` | src/parser/segments.rs:84-171 | `convert_link`; stated by `LinkToUrl`, `LinkToHeading` and `LinkUnsupportedTargets`. |
| `Segments.ConvertSegments` | src/parser/segments.rs:5-11 | The loop's result is the renders of the segments concatenated in order. |
| `Segments.SegmentsAppend` | src/parser/segments.rs:5-11 | Rendering distributes over concatenation of segment lists. |
| `Segments.TokenHtmlIsEncodedText` | src/parser/segments.rs:55-62 | Whitespace renders as a space, text and special characters escaped, an escape character raw. |
| `Segments.TokenHtmlMarkupFree` | src/parser/segments.rs:55-62 | A token other than an escape cannot put `<`, `>`, `"` or `'` into the output. |
| `Segments.OnlyTokens` | src/parser/segments.rs:13-21 | The filter keeps only Token segments, taken from the input. |
| `Segments.CodeSegmentsKeepsOnlyTokens` | src/parser/segments.rs:13-21 | Code rendering is ordinary rendering of the Token segments alone; modifiers and links are dropped. |
| `Segments.CodeMarkerKeepsTokens` | src/parser/segments.rs:66 | The backtick marker wraps the tokens' rendering in `<code>`. |
| `Segments.InlineVerbatimIsPlainCode` | src/parser/segments.rs:41-46 | Inline verbatim is a `<code>` element with no markup character inside. |
| `Segments.InlineVerbatimMatchesCodeMarker` | src/parser/segments.rs:41-46 | Inline verbatim and a backtick run of the same escape-free tokens render alike. |
| `Segments.EmphasisWrapping` | src/parser/segments.rs:64-82 | Every marker but the backtick wraps the content in its one fixed element; an unknown marker leaves the content unwrapped. |
| `Segments.StrongToStruckWrapping` | src/parser/segments.rs:67-71 | `*` `_` `^` `,` `-` give `strong`, `em`, `sup`, `sub` and `s`. |
| `Segments.SpanWrapping` | src/parser/segments.rs:72-76 | `!` and `$` give a `span` with class `spoiler` or `math`. |
| `Segments.VarToMarkWrapping` | src/parser/segments.rs:77-79 | `&` `/` `=` give `var`, `i` and `mark`. |
| `Segments.WrapperInjective` | src/parser/segments.rs:64-82 | Different markers give different wrappers. |
| `Segments.LinkToUrl` | src/parser/segments.rs:89-127 | The href is taken from the file path first, else an `http` URL, else a `.norg` URL rewritten to `.html`, else the URL. It is escaped except for the rewritten form. `target="_blank"` appears exactly for an `http` URL without a file path, so never on a rewritten link. The text is the escaped description, or else the URL. |
| `Segments.LinkToHeading` | src/parser/segments.rs:128-140 | A heading link points at `#` plus the slug of the title text, and shows the escaped description or title. |
| `Segments.SlugNeedsNoEncoding` | src/parser/segments.rs:137 | Escaping a slug leaves it unchanged. |
| `Segments.LinkUnsupportedTargets` | src/parser/segments.rs:141-169 | No target, or a first target other than a URL or a heading, renders nothing. |
| `Segments.UnsupportedRendersNothing` | src/parser/segments.rs:48-51 | An unsupported segment can be removed anywhere without changing the output. |
| `Handlers.SupportedFrameworks` | src/parser/ast_handlers.rs:28 | The list in the messages is the three frameworks joined by `, `. |
| `Handlers.ErrorMessage` | src/parser/ast_handlers.rs:24-43 | The `Display` text of an inline error; stated by `ErrorMessageNamesOccurrence`, `ErrorMessageListsFrameworks`, `MismatchMessageEnd` and `MismatchMessageNamesBoth`. |
| `Handlers.ErrorMessageNamesOccurrence` | src/parser/ast_handlers.rs:27-41 | Every message opens with `Inline error (inline #n): `, where n is the index plus one. |
| `Handlers.ErrorMessageListsFrameworks` | src/parser/ast_handlers.rs:30-41 | Exactly the missing- and invalid-framework messages end with the supported list. |
| `Handlers.MismatchMessageEnd` | src/parser/ast_handlers.rs:38-41 | A mismatch message does not end with the supported list. |
| `Handlers.MismatchMessageNamesBoth` | src/parser/ast_handlers.rs:38-41 | A mismatch message ends by naming the framework and the target. |
| `Handlers.ResolveFramework` | src/parser/ast_handlers.rs:132-137 | The framework is the first parameter if non-empty, else the target, else empty. |
| `Handlers.InlineTag` | src/parser/ast_handlers.rs:131-168 | The `@inline` arm; stated by `InlineCssIff`, `MissingFrameworkIff`, `InvalidFrameworkIff`, `FrameworkMismatchIff` and `InlineAcceptedIff`. |
| `Handlers.CodeLanguage` | src/parser/ast_handlers.rs:100-104 | The language is never empty, and it is `text` exactly when the first parameter is missing, empty or `text`. |
| `Handlers.ImageSource` | src/parser/ast_handlers.rs:120-124 | The source ends with the path. It is unchanged exactly when the path starts with `/` or `http`; otherwise it is `./` plus the path. |
| `Handlers.LineSpans` | src/parser/ast_handlers.rs:258-260 | The spans are empty exactly when there are no lines. |
| `Handlers.WrapLines` | src/parser/ast_handlers.rs:257-261 | The wrapped text is empty exactly when the input is. |
| `Handlers.VerbatimTagWithEmbeds` | src/parser/ast_handlers.rs:91-175 | Only `inline` can fail, and `document.meta` yields nothing. |
| `Handlers.InlineCssIff` | src/parser/ast_handlers.rs:140-142 | A resolved `css` gives exactly the CSS-only result, whatever the target, and nothing else gives CSS. |
| `Handlers.MissingFrameworkIff` | src/parser/ast_handlers.rs:144-146 | `MissingFramework` exactly when there is no first parameter and no non-empty target. |
| `Handlers.InvalidFrameworkIff` | src/parser/ast_handlers.rs:148-152 | `InvalidFramework(f)` exactly when the resolved f is non-empty, not `css` and not in the supported list. |
| `Handlers.FrameworkMismatchIff` | src/parser/ast_handlers.rs:155-162 | `FrameworkMismatch(f, t)` exactly when f is supported, the target is t, and they differ. |
| `Handlers.InlineAcceptedIff` | src/parser/ast_handlers.rs:163-167 | Acceptance happens exactly when f is supported and matches the target or there is none. The result is only a component: index 0, framework f, the content unchanged, no HTML and no CSS. |
| `Handlers.ImageTag` | src/parser/ast_handlers.rs:119-130 | An image without a path yields nothing; otherwise an `img` with the escaped source and the escaped trimmed content. |
| `Handlers.CodeTag` | src/parser/ast_handlers.rs:98-118 | A code block is HTML only. It is highlighted in a `pre` naming the language when the highlighter succeeds, and the escaped dedented code otherwise. |
| `Handlers.OtherTag` | src/parser/ast_handlers.rs:170-173 | Any other tag shows its escaped content in a `verbatim` div. |
| `Handlers.MetaTagAndFailures` | src/parser/ast_handlers.rs:169 | `document.meta` yields `Ok(None)`, and only `inline` can fail. |
| `Handlers.ParagraphHtml` | src/parser/ast_handlers.rs:177-180 | Nothing exactly for blank content; otherwise a `<p>` element. |
| `Handlers.DelimiterHtml` | src/parser/ast_handlers.rs:182-188 | `delimiter`; stated by `DelimiterDistinct`. |
| `Handlers.DelimiterDistinct` | src/parser/ast_handlers.rs:182-188 | Every delimiter is an `<hr ... />`, and different delimiters render differently. |
| `Handlers.TodoHtml` | src/parser/ast_handlers.rs:238-255 | `todo_html`, the marker per todo status; its use is stated by `PrefixesPerTodo` and `ExtensionContributes`. |
| `Handlers.ListItem` | src/parser/ast_handlers.rs:190-236 | The item `format_list_item` builds from the per-extension lists; stated by `FormatListItem`, `ClassesEmptyIff`, `ClassAttrIff`, `ExtensionContributes`, `RecurringAddsClass`, `PriorityAddsClassAndAttr` and `PrefixesPerTodo`. |
| `Handlers.FormatListItem` | src/parser/ast_handlers.rs:190-236 | The loop over extensions collects exactly the per-extension classes, attributes and markers of `ListItem`. |
| `Handlers.ClassesEmptyIff` | src/parser/ast_handlers.rs:195-217 | No classes exactly when no extension is a recurring todo or a priority. |
| `Handlers.ClassAttrIff` | src/parser/ast_handlers.rs:219-223 | The `class` attribute appears exactly when some extension is a recurring todo or a priority. |
| `Handlers.ExtensionContributes` | src/parser/ast_handlers.rs:195-217 | Each extension's classes, attributes and markers appear in the item's lists. |
| `Handlers.RecurringAddsClass` | src/parser/ast_handlers.rs:198-200 | A recurring todo adds the `todo-recurring` class. |
| `Handlers.PriorityAddsClassAndAttr` | src/parser/ast_handlers.rs:203-206 | A priority adds both `priority-<slug>` and `data-priority`. |
| `Handlers.PrefixesPerTodo` | src/parser/ast_handlers.rs:229-233 | There is one marker per todo extension, and the markers end with a single space. |
| `Handlers.NestableModifier` | src/parser/ast_handlers.rs:78-89 | A list item exactly for a paragraph that is not blank, and then it is `format_list_item` of its rendering. |
| `Html.U32` | src/parser/html.rs:17 | The `as u32` index is below 2^32 and equals the count when the count fits. |
| `Html.Renumber` | src/parser/html.rs:16-20 | The components keep their order and the i-th is numbered start + i. |
| `Html.Step` | src/parser/html.rs:16-36 | One event applied to the accumulated fragments, components and CSS; stated by `ReplayParts`, `ReplayComponents`, `ReplayCss`, `ReplayKeepsHtml` and `ReplayKeepsWellFormed`. |
| `Html.Replay` | src/parser/html.rs:16-36 | A list of events applied in order; stated by the same lemmas and by `FinalizeReplay`. |
| `Html.ReplayParts` | src/parser/html.rs:16-24 | Fragments grow only with components, and closed fragments are never rewritten. |
| `Html.ReplayComponents` | src/parser/html.rs:16-20 | The components are those the events carry, numbered on from those already held. |
| `Html.ReplayCss` | src/parser/html.rs:33-35 | CSS blocks are only appended, in event order. |
| `Html.ReplayKeepsHtml` | src/parser/html.rs:18-24 | Nothing is lost at a split: the closed fragments and the open one hold all HTML written, in order. |
| `Html.ReplayKeepsWellFormed` | src/parser/html.rs:16-36 | One fragment per component, with the i-th component numbered i, is preserved by every event. |
| `Html.FinalizeAcc` | src/parser/html.rs:38-42 | Finalizing gives one fragment more than components, the same HTML and the same components. |
| `Html.CssNeverSplits` | src/parser/html.rs:33-35 | A CSS-only result appends one CSS block and changes nothing else. |
| `Html.RunLength` | src/parser/html.rs:58-65 | A run is the maximal prefix of list items of one kind. |
| `Html.Walk` | src/parser/html.rs:57-94 | `transform_nodes` as events and first failure; stated by `WalkRunStep`, `RunLengthAppend`, `FailureIgnoresRest`, `TransformShape` and `TransformNodes`. |
| `Html.WalkNode` | src/parser/html.rs:96-147 | `transform_node` as events and failure; stated by `HeadingBeforeChildren`, `CssNeverSplits` and `TransformNode`. |
| `Html.TransformState.constructor` | src/parser/html.rs:49-52 | A new state is empty and holds the target framework. |
| `Html.TransformState.PushInline` | src/parser/html.rs:16-20 | It numbers the component by the count held, closes the open fragment and keeps the component. |
| `Html.TransformState.PushHtml` | src/parser/html.rs:22-24 | Only the open fragment grows. |
| `Html.TransformState.ApplyVerbatim` | src/parser/html.rs:26-36 | The component, then the HTML, then the CSS of a verbatim result are applied. |
| `Html.TransformState.Finalize` | src/parser/html.rs:38-42 | The fragments with the open one closed, the components, and the CSS blocks joined by newlines. |
| `Html.TransformState.TransformNodes` | src/parser/html.rs:57-94 | The state advances by the walk's events, and the method fails exactly when the walk does, with the index counting the components held. |
| `Html.TransformState.TransformNode` | src/parser/html.rs:96-147 | For one node outside a list run: the state advances by the node's events. A failing verbatim tag returns its error with the index equal to the number of components held before it. |
| `Html.CollectRun` | src/parser/html.rs:67-75 | The end of the run from i and the concatenation of its list items. |
| `Html.Transform` | src/parser/html.rs:45-55 | It returns the finalized walk or the first failure. On success there are N+1 fragments for N components, numbered 0, 1, 2, … |
| `Html.FinalizeReplay` | src/parser/html.rs:38-42 | A finalized walk has N+1 fragments whose concatenation is all HTML written, the components in discovery order, and the CSS blocks joined by newlines. |
| `Html.TransformShape` | src/parser/html.rs:45-55 | The transform succeeds exactly when the walk does not fail. On success the fragments hold all HTML written, with one more fragment than components, and the components come in discovery order numbered 0, 1, 2, … |
| `Html.HeadingBeforeChildren` | src/parser/html.rs:115-125 | A heading writes `<hN id="slug">` before anything of its content, and fails exactly when its content does. |
| `Html.ItemHtmlEmptyIff` | src/parser/html.rs:69-74 | An item contributes nothing exactly when `nestable_modifier` gives nothing. |
| `Html.ItemsHtmlEmptyIff` | src/parser/html.rs:68-77 | The items of a run are empty exactly when each item is. |
| `Html.RunEventsEmptyIff` | src/parser/html.rs:77-84 | A run writes nothing exactly when none of its items renders. |
| `Html.WalkRunStep` | src/parser/html.rs:58-85 | From the start of a maximal run of one kind, the walk emits the run's one wrapper element (or nothing), then continues after the run. |
| `Html.RunLengthAppend` | src/parser/html.rs:58-65 | A run that ends inside the nodes is unchanged by what follows. |
| `Html.FailureIgnoresRest` | src/parser/html.rs:86-90 | A failure aborts the walk, so later nodes are never visited. |
| `Html.RangeableBodyIsParagraphs` | src/parser/html.rs:155-164 | A rangeable body is its non-blank paragraphs, each as `paragraph` renders it. |
| `Html.RangeableModifier` | src/parser/html.rs:149-187 | `rangeable_modifier`; stated by `RangeableBodyIsParagraphs`, `FootnoteId`, `RangeableTitleEscapedTwice` and `AmpersandEscapedTwice`. |
| `Html.FootnoteId` | src/parser/html.rs:172-180 | The footnote id is `footnote-` plus the slug of the rendered title. |
| `Html.RangeableTitleEscapedTwice` | src/parser/html.rs:166-171 | A definition title is escaped once by rendering and again by the format. |
| `Html.AmpersandEscapedTwice` | src/parser/html.rs:169 | So `&` in such a title becomes `&amp;amp;`. |
| `Toc.Entry` | src/parser/toc.rs:21-28 | An entry copies the level, has the rendered title, and its id is the title's slug. |
| `Toc.TocOf` | src/parser/toc.rs:13 | The contents of no nodes are empty. |
| `Toc.NodeToc` | src/parser/toc.rs:14-33 | A node contributes entries exactly when it is a heading. |
| `Toc.TocOfAppend` | src/parser/toc.rs:13 | The contents of `a ++ b` are those of `a` followed by those of `b`. |
| `Toc.TocEmptyIffNoHeading` | src/parser/toc.rs:13-34 | The contents are empty exactly when no top-level node is a heading; nothing is found below other nodes. |
| `Toc.HeadingEntryFirst` | src/parser/toc.rs:24-30 | A heading's entry comes first, then the entries of its content, then those of the rest. |
| `Toc.TocIdsAreSlugs` | src/parser/toc.rs:21-22 | Every entry's id is the slug of its title. |
| `Toc.ExtractTocRecursive` | src/parser/toc.rs:12-35 | Appends exactly the pre-order entries of the nodes to the list it is given. |
| `Toc.ExtractToc` | src/parser/toc.rs:6-10 | The pre-order entries, every id a well-formed slug of its title. |
| `Metadata.ArrayToJson` | src/parser/metadata.rs:26 | An array keeps its length and order, element by element converted. |
| `Metadata.MetaToJson` | src/parser/metadata.rs:19-33 | `meta_to_json`; stated by `NullIff`, `KindKept`, `ArrayToJson`, `EntriesToJson`, `EntriesToJsonValues` and `LaterEntryWins`. |
| `Metadata.EntriesToJson` | src/parser/metadata.rs:27-31 | An object keeps exactly its key set. |
| `Metadata.EntriesToJsonValues` | src/parser/metadata.rs:27-31 | With distinct keys, each key maps to its own value, converted. |
| `Metadata.LaterEntryWins` | src/parser/metadata.rs:28-30 | Collecting into the JSON map, a later entry for a key replaces an earlier one. |
| `Metadata.NullIff` | src/parser/metadata.rs:22-25 | Null exactly for `Invalid`, `Nil`, `EmptyKey` and non-finite numbers. |
| `Metadata.KindKept` | src/parser/metadata.rs:21-32 | Booleans, strings and finite numbers are kept unchanged; arrays and objects keep their kind and shape. |
| `Metadata.FindMetaBlock` | src/parser/metadata.rs:6-13 | A block is found exactly when a top-level node is a `document.meta` tag. |
| `Metadata.FirstMetaBlockWins` | src/parser/metadata.rs:6-13 | The first such node is the one chosen. |
| `Metadata.ExtractMetadata` | src/parser/metadata.rs:5-17 | Null when no top-level node is a metadata block. |
| `Metadata.ExtractFromFirstBlock` | src/parser/metadata.rs:14-16 | The first block decides: a parse failure gives Null, a parsed value is converted. |
| `Metadata.OtherTagsPassedOver` | src/parser/metadata.rs:8-9 | `code` and `document.other` blocks are not metadata. |
| `Metadata.NestedBlockIgnored` | src/parser/metadata.rs:6-13 | A metadata block inside a heading is not found. |
| `InlineErrors.QualifiesAfterTrimStart` | src/parser/lib.rs:67-69 | A line qualifies exactly when, after `trim_start`, it is `@inline` followed by its end or whitespace. |
| `InlineErrors.QualifyingLines` | src/parser/lib.rs:66-69 | The qualifying lines are original lines of the text, in order. |
| `InlineErrors.QualifyingLinesCount` | src/parser/lib.rs:66-69 | None is listed exactly when no line qualifies. |
| `InlineErrors.QualifyingLinesAppend` | src/parser/lib.rs:66-69 | Listing the lines of `a ++ b` is listing those of `a`, then of `b`. |
| `InlineErrors.InlineLine` | src/parser/lib.rs:64-78 | The line reported is a qualifying, untrimmed line of the text. |
| `InlineErrors.FindInlineLine` | src/parser/lib.rs:64-78 | The counting loop returns the index-th qualifying line, and None exactly when at most `index` lines qualify. |
| `InlineErrors.ComponentLines` | src/parser/lib.rs:64-78 | The corrected scan's lines are original lines, in order, each opening a block whose framework, resolved against the target, is not `css`. |
| `InlineErrors.ComponentLinesAppend` | src/parser/lib.rs:64-78 | Listing the component lines of `a ++ b` is listing those of `a`, then of `b`. |
| `InlineErrors.ComponentLine` | src/parser/lib.rs:64-78 | The line reported by the corrected scan is an untrimmed line of the text opening a component block. |
| `InlineErrors.FindComponentLine` | src/parser/lib.rs:64-78 | The corrected counting loop returns the index-th component line, and None exactly when at most `index` lines open a component. |
| `InlineErrors.HeaderOpensComponent` | src/parser/ast_handlers.rs:131-142 | `@inline p` qualifies, and opens a component exactly when `p`, resolved against the target, is not `css`. |
| `InlineErrors.ComponentLinesOfHeaders` | src/parser/html.rs:108-109 | Over block headers, the corrected scan keeps exactly the headers of the non-`css` blocks, the ones that add to the error's index. |
| `InlineErrors.Report` | src/parser/lib.rs:55-62 | The report format: the error's text, then `. Offending line: ` and the line when one is given. Its shape is stated by `ReportOf`. |
| `InlineErrors.ReportOf` | src/parser/lib.rs:55-62 | A report opens with the error's text, naming occurrence index + 1, ends with `. Offending line: ` plus the line when one is given, and equals the error's text exactly when none is. |
| `InlineErrors.InlineErrorText` | src/parser/lib.rs:55-62 | The report over `find_inline_line` as written; `FormatInlineError` is proved against it and `ReportShape` states its shape. |
| `InlineErrors.FormatInlineError` | src/parser/lib.rs:55-62 | With `find_inline_line` as written: the message starts with the error's text and equals it exactly when no line is found. |
| `InlineErrors.ReportShape` | src/parser/lib.rs:55-62 | The report names occurrence index + 1 and ends with `. Offending line: ` plus the line `find_inline_line` finds, when it finds one. |
| `InlineErrors.CorrectedErrorText` | src/parser/lib.rs:55-62 | The report over the corrected scan; `FormatInlineErrorCorrected` is proved against it and `CorrectedReportShape` states its shape. |
| `InlineErrors.FormatInlineErrorCorrected` | src/parser/lib.rs:55-62 | The same report over the corrected scan: it equals the error's text exactly when no component line is found. |
| `InlineErrors.CorrectedReportShape` | src/parser/lib.rs:55-62 | The corrected report names occurrence index + 1 and ends with the line of the failing component block when found. |
| `InlineReport.CssThenReactFails` | src/parser/html.rs:96-147 | A `css` block then a `react` block fail with `InvalidFramework("react")` at index 0. |
| `InlineReport.CssThenReactSplits` | src/parser/lib.rs:66 | The example text splits into its six lines. |
| `InlineReport.QualifyingOfTwoBlocks` | src/parser/lib.rs:64-78 | In six lines of two blocks, the as-written scan counts both headers. |
| `InlineReport.ComponentsOfTwoBlocks` | src/parser/lib.rs:64-78 | In the same lines, the corrected scan counts only the second header. |
| `InlineReport.CssBlockReports` | src/parser/lib.rs:55-78 | For an error numbered 0 on that document, the report as written quotes `@inline css`, the corrected one `@inline react`, and the two differ. |
| `InlineReport.CssBlockShiftsReport` | src/parser/lib.rs:64-78 | On that document the error's index is 0; the as-written scan reports `@inline css`, the corrected one `@inline react`. |
| `InlineErrors.QualifyingExamples` | src/parser/lib.rs:67-69 | `@inline` and an indented `@inline svelte` qualify; `@inlinecss` and `text @inline` do not. |
| `Generators.EmbedPieces` | src/plugin/generators/index.ts:166-173 | One piece per fragment, plus one per fragment that has a component. |
| `Generators.EmbedInlines` | src/plugin/generators/index.ts:166-173 | The loop's result is the pieces joined. |
| `Generators.EmbedPositions` | src/plugin/generators/index.ts:168-171 | Fragment i is at place 2i, and component i's code is at 2i+1 when i is below both counts. |
| `Generators.EmbedLayout` | src/plugin/generators/index.ts:166-173 | With N+1 fragments and N components, each code appears once, in order, between fragment i and fragment i+1. |
| `Generators.EmbedIgnoresLaterComponents` | src/plugin/generators/index.ts:170 | Components beyond the fragments are dropped. |
| `Generators.EmbedWithoutComponents` | src/plugin/generators/index.ts:166-173 | Without components the pieces are the fragments. |
| `Generators.InterleaveLines` | src/plugin/generators/index.ts:175-186 | The interleaved lines: each non-empty fragment formatted, then the placeholder of the component at its index when there is one. `InterleaveCount`, `InterleaveKeepsPlaceholders` and `InterleaveEmptyParts` state its properties. |
| `Generators.InterleaveHtmlAndInlines` | src/plugin/generators/index.ts:175-186 | The loop appends exactly the interleaved lines. |
| `Generators.NonEmptyCount` | src/plugin/generators/index.ts:183 | The non-empty fragments are no more than all of them. |
| `Generators.InterleaveCount` | src/plugin/generators/index.ts:182-185 | One line per non-empty fragment, plus one per index below min(fragments, components). |
| `Generators.InterleaveKeepsPlaceholders` | src/plugin/generators/index.ts:184 | Every placeholder below min(fragments, components) is emitted. |
| `Generators.InterleaveEmptyParts` | src/plugin/generators/index.ts:183-184 | Empty fragments are skipped, so only the placeholders remain, in order. |
| `Generators.ImportLines` | src/plugin/generators/index.ts:161-163 | Exactly n imports, the i-th being the import of component i. |
| `Generators.AddInlineImports` | src/plugin/generators/index.ts:155-164 | The loop appends exactly one import per component. |
| `Generators.ImportNamesComponent` | src/plugin/generators/index.ts:162 | The i-th import binds `Inline<i>` and ends with `?inline=<i>';`. |
| `Generators.GenerateVue` | src/plugin/generators/index.ts:104-146 | The output is the Vue lines joined by newlines. |
| `Generators.VueLines` | src/plugin/generators/index.ts:104-146 | The Vue module as a list of lines; stated by `VueDataForm` and `DataLineForm`. |
| `Generators.VueDataForm` | src/plugin/generators/index.ts:121-125 | The Vue output has a `const htmlParts = ` line exactly when there is a component, and a `const htmlContent = ` line exactly when there is none. |
| `Generators.DataLineForm` | src/plugin/generators/index.ts:121-125 | The data line starts with `const htmlParts = ` and not `const htmlContent = ` exactly when there is a component, and the reverse otherwise. What follows the prefix is not stated. |
| `Generators.ReactUsesJoinedHtml` | src/plugin/generators/index.ts:85 | React output depends on the fragments only through their concatenation. |
| `Generators.GenerateReact` | src/plugin/generators/index.ts:80-102 | The React module; stated by `ReactUsesJoinedHtml` and `RoundTrip.ReactHtmlOnly`. |
| `GeneratorUtils.KeptParts` | src/plugin/generators/utils.ts:2 | The filter keeps only non-empty strings and never adds any. |
| `GeneratorUtils.Lines` | src/plugin/generators/utils.ts:1-2 | `lines`; stated by `LinesEmptyIff`, `DroppedArgumentIgnored` and `KeptArgumentAppended`. |
| `GeneratorUtils.KeptPartsAppend` | src/plugin/generators/utils.ts:2 | Kept arguments stay in their original order. |
| `GeneratorUtils.KeptPartsEmptyIff` | src/plugin/generators/utils.ts:2 | Nothing is kept exactly when every argument is `false`, `null`, `undefined` or empty. |
| `GeneratorUtils.JoinNonEmpty` | src/plugin/generators/utils.ts:2 | Joining pieces whose first is non-empty is non-empty. |
| `GeneratorUtils.LinesEmptyIff` | src/plugin/generators/utils.ts:1-2 | The result is empty exactly when every argument is dropped. |
| `GeneratorUtils.DroppedArgumentIgnored` | src/plugin/generators/utils.ts:1-2 | A dropped argument changes nothing, wherever it stands. |
| `GeneratorUtils.KeptArgumentAppended` | src/plugin/generators/utils.ts:1-2 | A kept argument goes last, after exactly one `\n` when something precedes it. |
| `RoundTrip.ReplayEmbeds` | src/parser/html.rs:16-24 | Each event extends the spliced text by its own text: HTML, or a component's code. |
| `RoundTrip.FinalizeEmbeds` | src/parser/html.rs:38-42 | Closing the open fragment places it last, with no component after it. |
| `RoundTrip.EmbedRoundTrip` | src/plugin/generators/index.ts:166-173 | `embedInlines` over a successful transform gives the walk's HTML with each component's code at its place. |
| `RoundTrip.EmbedOfWithoutInlines` | src/plugin/generators/index.ts:166-173 | Without components the spliced text is just the HTML. |
| `RoundTrip.RenderEmbedded` | src/plugin/generators/index.ts:33 | `transform` then `embedInlines` succeeds exactly when the walk does not fail, and gives the walk's text. |
| `RoundTrip.ReactHtmlOnly` | src/plugin/generators/index.ts:80-102 | The React output of a transform equals that of its HTML in one fragment with no components, so no component's code reaches it. |

## Left out

- Parsing Norg text (`rust_norg::parse_tree`) is not part of this model. The model starts from the parsed tree, and the node types keep only the variants the renderer matches on. `CarryoverTag`, `RangedTag`, `InfirmTag` and unsupported segments carry no fields.
- These collaborators are not part of this model and are passed in as function parameters:
  - `textwrap::dedent` and the arborium highlighter, through `Handlers.Externals`;
  - `parse_metadata`, as `string -> Option<NorgMeta>`;
  - `JSON.stringify`, as `Generators.Stringify`.
- `get_theme_css` is left out: it only looks up a theme in a foreign library.
- The napi/wasm entry points (`parse_norg`, `parse_norg_with_framework`) are left out. They are plumbing around the modelled functions. As written, they also destructure `transform`'s three results into two, and put a `serde_json::Value` into a `Map` field.
- `to_lowercase` and `is_alphanumeric` are modelled on ASCII only. Unicode case mapping and Unicode alphanumerics are not modelled. Whitespace is the Unicode `White_Space` set.
- `eprintln!` warnings are left out: they are diagnostics, and the affected nodes render as nothing, as in the source.
- A heading link's target carries its title already formatted with Rust's `Debug` (`{:?}`); that formatting is not modelled. So the model does not relate a heading link's slug to the heading's own `id`, and in the source they generally differ.
- Link descriptions and rangeable titles are escaped twice, as written. The model keeps this and does not correct it.
- Nested list content (the `nested` children of a list item) is not rendered by the source and is carried but ignored.
- `toc.rs` imports `conv_segs`, which `html.rs` does not define; it is read as `convert_segments`.
- `TocEntry.level` is declared `u32` (`types.rs` line 8), but `toc.rs` line 25 stores `*level as usize` into it, which does not type-check as written. The model reads it as the heading's level, and both are unbounded naturals here, as is the heading level printed by `html.rs`.
- Metadata numbers are floats. A number is either a finite real, kept as a JSON number, or non-finite, which becomes null as `json!` makes it. No float arithmetic is modelled.
- An object's entries are an ordered list, standing for the map's iteration order. The JSON object is a Dafny map.
- The generators' `metadata ?? {}` and `toc ?? []` defaults are left out: metadata and contents arrive already serialised.
- `generateHtml`, `generateSvelte`, `generateMetadata` and the `generateOutput` switch are left out. They are fixed `JSON.stringify` templates. Their use of `embedInlines`, `interleaveHtmlAndInlines` and `addInlineImports` is modelled through those three loops.
- `Generators.StyleImports`: it has no indentation parameter, so the two-space-indented imports of the Svelte generator are not covered.
- `Generators.GenerateReact` is a function, not a loop: the source builds a fixed list of lines.
- Tests that call `slug_from_text` and `convert_ast_to_html_with_toc` use functions that do not exist in the source. The model follows `into_slug` as written.
- `Handlers.LineSpans`, `Handlers.WrapLines`: only emptiness is stated. That each line appears in its own span follows from the definition and is not stated as a separate property.
- `Strings.Lines`: only the absence of `\n` and the empty case are stated. The handling of `\r\n` and of a final newline is given by the definition and not stated as a separate property.
- `Segments.TokenText`: a token's `to_string()`, which inline verbatim uses (`segments.rs` line 44), belongs to `rust_norg` and is not part of this model. It is fixed here as the token's own text, a space for whitespace, and the bare character for a special or an escape character.
- `InlineErrors.FormatInlineErrorCorrected` takes the target framework that `parse_norg_with_framework` holds (`lib.rs` lines 41-45), because the corrected scan resolves each block's framework against it. `InlineErrors.FormatInlineError` follows the source and takes none.
- `InlineErrors.TagParameter`: the first parameter of an `@inline` line is read as the first whitespace-separated word after `@inline`. `rust_norg`'s own parameter parsing is not part of this model.

## Findings

| source | as written | input that shows it | evidently intended | confidence | as-written member | corrected member |
|---|---|---|---|---|---|---|
| src/parser/lib.rs:64-78 | `find_inline_line` counts every line that opens an `@inline` tag, `@inline css` included; but the error's index counts only the components held (`html.rs` lines 108-109), and a `css` block adds none (`ast_handlers.rs` lines 140-142). | `@inline css` / `.a {}` / `@end` / `@inline react` / `x` / `@end`: the error has index 0 and the report quotes `@inline css`. | Count only the lines whose block yields a component, so the report quotes `@inline react`. | not executed | `InlineReport.CssBlockShiftsReport`, `InlineReport.CssBlockReports` | `InlineErrors.FindComponentLine`, `InlineErrors.FormatInlineErrorCorrected` |
