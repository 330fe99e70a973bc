# gdoc2latex in Dafny

gdoc2latex turns a Google Docs document, exported as HTML, into a LaTeX
document and a BibTeX bibliography. The HTML is parsed into a tree of
elements, text nodes and comments. The converter then does four things:

- It reads the document's stylesheet for the selectors that make text bold,
  italic, underlined, superscript, subscript, centred or right-aligned.
- It walks the body. Block elements (headings, paragraphs, lists, tables,
  page breaks, footnote `div`s) become LaTeX blocks, and inline elements
  (spans, links, images, line breaks) become LaTeX text.
- On the way it collects the title, the subtitle, the footnotes and the
  bibliography entries.
- It assembles the document: the `\title`, a start template, the body, a
  `\bibliography` command and an end template.

The repository keeps three generations of the converter, and this project
models all three:

| generation | file | Dafny modules |
|---|---|---|
| current | `src/lib.ts` | `LibText`, `LibSink`, `LibRender`, `LibConvert`, `CiteTidier`, `ForIn` |
| earlier command-line version | `src/index.ts` | `EarlyText`, `EarlyRender`, `EarlyConvert`, with `Version.IndexTs` |
| first script | `gdoc2latex.js` | the same modules, with `Version.LegacyJs` |

All three share these modules:

- `Css`: `getSelector` and `selectorMatches`, identical in all three files.
- `Bibtex`: rewriting a footnote's BibTeX entry. `KeyShape` covers the one
  place where the files' regular expressions differ.
- `Html`: the parsed tree, attribute lookup, and JavaScript truthiness.
- `JsString`: the JavaScript string operations the code relies on, with
  JavaScript's semantics (`indexOf`, `slice` with negative ends, `split`,
  `trim`, `replace` with a string, and the `$` patterns of a replacement
  string, both for a string pattern and for a regular expression with one
  group).
- `Escaping`: what "every `c` is escaped" means, and why a chain of
  replacements keeps it.

The functions come in two shapes:

- **Pure functions.** The walk over the tree is pure: `Latex`/`MapText` and
  `Blocks`/`TextParts` thread an accumulator, `Sink` (current version) or
  `Found` (earlier versions). The accumulator holds what the source's
  closures collect. A thrown exception is an `Err` of `Html.Error`, and
  errors propagate in the source's evaluation order.
- **Classes and loops.** `LibConvert.Converter` and
  `EarlyConvert.Collector` are classes. Their fields are the variables
  `handleElems` closes over (title, subtitle, footnotes, bibliography), and
  their methods update those fields in place. Each method is proved to
  agree with the pure walk. The loops of the source are loops in the
  model: the walk over the body, the rows of a table, the `for..in`
  backpatching of footnotes, and the `while (match)` loop of `citeTidier`.

Calls the model cannot see are parameters of the `LibRender.Foreign`
record:

- `redirectTarget`: the `q` parameter of a Google redirect URL.
- `lineWidth`: an image's pixel width turned into a fraction of the line.

Where the project's prose description and its code disagree, the model
follows the code:

- `citeTidier` writes `\citep{…}` for a parenthesised citation, not
  `\parencite{…}`.
- Text without `\cite{` is not always left unchanged by `citeTidier`. A space
  before `\parencite{` still becomes a tie (`CiteTidier.ParenciteTied`).
  Text without `cite{` is left unchanged (`CiteTidier.NoCiteUnchanged`).
- The current `transformText` escapes only doubled backslashes, as
  `\textbackslash `. It does not escape `$`.
- `src/index.ts` replaces the two characters `Î»`, which is how UTF-8 `λ`
  reads as Latin-1, instead of `λ`. The model uses that pattern as written:
  in that version a real `λ` passes through unchanged
  (`EarlyText.IndexKeepsLetterLambda`).

## Model

| member | source | states |
|---|---|---|
| LibText.GetTextFormatSelectors | src/lib.ts:48-58 | one selector list per format, with exactly one selector for each occurrence of that format's CSS declaration |
| Css.GetSelector | src/lib.ts:60-64 | one selector per occurrence of the declaration; selector i is the text of rule i before its `{`, after the previous rule's `}`; `src/index.ts` lines 54-58: the same extraction in the earlier version; `gdoc2latex.js` lines 18-22: the same extraction in the first script |
| Css.SelectorOf | src/lib.ts:61-63 | the selector contains no `}` and is the tail of the fragment before its last `{` |
| EarlyText.GetTextSelectors | src/index.ts:46-52 | bold, italic and underline lists with one selector per occurrence of their declaration; `gdoc2latex.js` lines 10-16: the same three lists in the first script |
| Html.FindAttr | src/lib.ts:245 | the value of the first attribute with the key; none exactly when no attribute has it |
| Css.SelectorMatches | src/lib.ts:312-328 | `.some` semantics: the result is the outcome of the first selector that does not simply fail to match (a match or a throw), or false when every selector fails to match; so it is an error iff a selector throws before any match, and true iff some selector matches before any throws; `src/index.ts` lines 215-231: the same in the earlier version; `gdoc2latex.js` lines 172-186: the same in the first script |
| Css.ClassMatchesIsToken | src/lib.ts:318 | the four class tests hold exactly when the class occurs as a space-delimited token |
| Css.TokenIsSplitPiece | src/lib.ts:318 | being such a token is the same as being one of the pieces of the class split on spaces |
| Css.ClassSelectorIsTokenMembership | src/lib.ts:315-319 | `.c` never throws and matches iff `c` is a piece of the class attribute split on spaces, a missing class counting as empty |
| Css.TagSelectorIsEquality | src/lib.ts:322-324 | a lower-case selector matches exactly the element of that tag |
| Css.OtherSelectorThrows | src/lib.ts:326 | any other selector throws `Unsupported selector`; an empty list matches nothing |
| LibText.TableShape | src/lib.ts:376-428 | every replacement pattern starts with a special character, and every symbol is one non-ASCII character replaced by math-mode ASCII |
| LibText.TransformTextEscapes | src/lib.ts:382-385 | in the escaped text every `&`, `%`, `#` and `_` is preceded by a backslash |
| LibText.NbspRemoved | src/lib.ts:377 | no non-breaking space survives |
| LibText.TildeRemoved | src/lib.ts:379 | no `~` survives |
| LibText.CaretRemoved | src/lib.ts:380 | no `^` survives |
| LibText.SymbolRemoved | src/lib.ts:388-428 | none of the Greek letters and mathematical symbols survives |
| LibText.TransformTextRemoves | src/lib.ts:376-430 | a character whose replacement and later replacements never write it back is absent from the result |
| LibText.TransformTextClean | src/lib.ts:376-431 | the result holds no backtick, non-breaking space, `~`, `^` or listed symbol |
| LibText.TransformTextPlain | src/lib.ts:376-431 | text without special characters is returned unchanged |
| LibText.SymbolsWriteAscii | src/lib.ts:388-428 | no symbol replacement writes a non-ASCII character back |
| LibText.InlineCodeUnchanged | src/lib.ts:430 | text without backticks is not touched by the inline-code step |
| LibText.LoneBackslashKept | src/lib.ts:378 | a single backslash is not escaped |
| LibText.DoubleBackslashRendered | src/lib.ts:378 | a doubled backslash becomes `\textbackslash ` |
| LibText.InlineCodeRendered | src/lib.ts:430 | text between backticks becomes a `\mintinline{text}` command around the code |
| LibText.InlineCodeRemovesBackticks | src/lib.ts:430 | splitting on backticks leaves none |
| LibText.InlineCodeKeepsEscaped | src/lib.ts:430 | wrapping inline code keeps every escaped character escaped |
| LibText.FencedBlockMarked | src/lib.ts:429 | a fence with a language becomes the block marker carrying that language, then the code |
| LibText.FencesKeepsEscaped | src/lib.ts:429 | marking fences keeps every escaped character escaped |
| LibText.BlockSnippeterAround | src/lib.ts:365-374 | a marked block between texts without a block marker becomes one `minted` environment for its language, closed after its code, and the texts around it are kept as they are; the code may hold anything but a marker, backslashes and braces included |
| LibText.MarkedBlockSnippet | src/lib.ts:365-374 | a marked block on its own becomes a `minted` environment for its language (`math` adds math escapes, no language means `text`), closed after the code |
| LibText.FencedBlockTransformed | src/lib.ts:376-431 | for any table whose patterns start with no letter and which puts in no backtick, escaping then marking fences turns a fenced block into a marked block of its escaped code, language name untouched |
| LibText.CodeBlockRendered | src/lib.ts:365-431 | escaping then snippeting a fenced block whose code has no backtick gives `minted` around the escaped code, whatever characters that code holds; `math` adds math escapes, and no language means `text` |
| LibText.BlockSnippeterUnmarked | src/lib.ts:365-374 | text without a block marker is unchanged |
| EarlyText.LambdaPattern | src/index.ts:245 | the pattern is non-empty and non-ASCII: `Î»` in this version; `gdoc2latex.js` line 200: the pattern is `λ` in the first script |
| EarlyText.TableShape | src/index.ts:233-245 | twelve replacements; all but the lambda are one special ASCII character or nbsp; the second is the backslash |
| EarlyText.TransformTextEscapes | src/index.ts:238-244 | every `&`, `%`, `#`, `_`, `{` and `}` is escaped by a backslash; `gdoc2latex.js` lines 193-199: the same escapes in the first script |
| EarlyText.DollarEscaped | src/index.ts:240 | `$` is escaped whenever the text holds no first character of the lambda pattern, whose replacement writes `$` |
| EarlyText.NbspRemoved | src/index.ts:234 | no non-breaking space survives |
| EarlyText.TildeRemoved | src/index.ts:236 | no `~` survives |
| EarlyText.CaretRemoved | src/index.ts:237 | no `^` survives |
| EarlyText.TransformTextPlain | src/index.ts:233-245 | text without special characters is returned unchanged |
| EarlyText.BackslashRendered | src/index.ts:235 | ordinary text cut by any number of backslashes, single or adjacent, comes out with every backslash replaced by `\textbackslash`, with no space after it; `gdoc2latex.js` line 190: the same in the first script |
| EarlyText.LambdaRendered | gdoc2latex.js:200 | the lambda pattern becomes `$\lambda$` |
| EarlyText.IndexKeepsLetterLambda | src/index.ts:245 | in the earlier version a real `λ` is left as it is |
| Bibtex.EntryHead | src/lib.ts:104 | a match starts with `@` and one or more ASCII letters, and ends at a `{` |
| Bibtex.KeyEnd | src/lib.ts:104 | a key match ends just after a `,` |
| Bibtex.KeyMatchAt | src/lib.ts:104 | a match at p runs from an `@` to a `,` |
| Bibtex.FirstKeyMatch | src/lib.ts:104 | the leftmost match, with no match before it; nothing when there is no match anywhere |
| Bibtex.RewriteKeyOfEntry | src/lib.ts:104 | `@kind{given,rest` becomes `@kind{key',rest` for any given key without a comma, where `key'` is the footnote key with its dollar patterns (`$&`, `$1`, `` $` ``, `$'`, `$$`) expanded against the entry head; a key without `$` goes in as it is; `src/index.ts` line 90: the same rewrite in the earlier version |
| Bibtex.RewriteAlnumKeyOfEntry | gdoc2latex.js:51 | the first script rewrites an alphanumeric key in the same way, dollar patterns included |
| Bibtex.KeyTemplate | src/lib.ts:104 | in the replacement `'@$1{' + key + ','` the `$1` is the entry type and only the key's own dollar patterns are left to expand |
| JsString.Substitute | src/lib.ts:104 | the text a `$`-pattern replacement string stands for: `$1` and `$01` name the group of a pattern with one group, and stay as they are for a string pattern (line 480); `SubstituteDollarFree`: a replacement without `$` is inserted verbatim |
| JsString.SubstituteSnoc | src/lib.ts:104 | a trailing character that is no part of a dollar pattern (such as the `,` after the key) stays at the end |
| Bibtex.AlnumKeyRefusesOtherKeys | gdoc2latex.js:51 | an entry whose key holds another character, such as `:`, is left alone |
| Bibtex.Unmatched | src/lib.ts:104 | without a match the text is unchanged |
| Bibtex.RewriteKeyWithoutEntry | src/lib.ts:104 | text without `@` is unchanged |
| Bibtex.OnlyEntryAtFront | src/lib.ts:104 | with one `@`, at the front, no match starts anywhere else |
| Bibtex.BlankLineLength | src/lib.ts:105 | a blank line is blanks up to and including a newline |
| Bibtex.DropLeavesNoBlankLines | src/lib.ts:105 | after dropping, no line is blank |
| Bibtex.DropKeepsFirstLine | src/lib.ts:105 | a text not starting with a blank line still does not after dropping |
| Bibtex.DropKeepsClean | src/lib.ts:105 | text without blank lines is unchanged |
| Bibtex.DropBlankLinesIdempotent | src/lib.ts:105 | dropping blank lines twice is dropping them once |
| Bibtex.EscapeThenUnescape | src/lib.ts:102-103 | unescaping a brace undoes escaping it, for text without backslashes |
| Bibtex.UnbraceUndoesEscape | src/lib.ts:102-103 | unescaping both braces undoes escaping both |
| LibSink.AddFootnote | src/lib.ts:452-455 | recording a footnote leaves title, subtitle and bibliography alone |
| LibSink.AddFootnoteStores | src/lib.ts:452-455 | the key maps to the content, except `__proto__`, which is not stored; other keys are untouched |
| LibSink.LaterFootnoteWins | src/lib.ts:454 | a footnote recorded twice keeps the later content |
| LibSink.AddFootnoteValid | src/lib.ts:452-455 | the stored keys stay exactly the keys in enumeration order |
| LibSink.BibliographyJoins | src/lib.ts:443-450 | entries added one by one make the entries joined by blank lines; none makes no bibliography |
| LibSink.SecondTitleThrows | src/lib.ts:459-469 | the first title or subtitle is stored; a second throws `Duplicate titles defined` naming both |
| LibSink.SetTitleKeepsRest | src/lib.ts:459-473 | setting one title leaves the other title, footnotes and bibliography unchanged |
| LibRender.PixelWidth | src/lib.ts:209-212 | a width is read iff the text is a decimal number followed by `px` |
| LibRender.Cells | src/lib.ts:134 | each cell is its rendering, or empty when there is none |
| LibRender.MatchFlagsAt | src/lib.ts:283-303 | each format flag is what matching that format's selectors gave |
| LibRender.MatchFlagsErr | src/lib.ts:283-303 | when matching throws, the error is the first format's error, and every earlier format matched without error |
| LibRender.FormatsNest | src/lib.ts:280-306 | the wraps nest in a fixed order: bold innermost, then italic, underline, superscript, subscript, center, right outermost; each is present iff its selectors match |
| LibRender.FormatsThrow | src/lib.ts:283-303 | formatting throws the first selector error |
| LibRender.ChildlessRendersNothing | src/lib.ts:234-236 | in inline mode an element without children renders nothing, except `br` and `img`; lines 81-83: in block mode an element without children renders nothing, except `hr` |
| LibRender.SelfContained | src/lib.ts:193-202 | `br` is a forced line break; `img` without `src` throws |
| LibRender.ImageRendered | src/lib.ts:197-232 | any image with a `src` and no `style`, whatever its other attributes, is a figure of that source a full line wide; its escaped `alt` text is the caption and its `title` the `figure:` label, each only when present and non-empty |
| LibRender.ImageWidth | src/lib.ts:206-218 | a style whose `width:` is `<n>px` for a decimal `n` makes the figure `n`'s share of the line wide |
| LibRender.AnchorCitesFootnote | src/lib.ts:244-249 | a link with id `ftnt_k` is `\cite{k}` |
| LibRender.AnchorMarksFootnote | src/lib.ts:251-257 | a link to `#ftnt_k` is the marker `FOOTNOTE<k>` |
| LibRender.AnchorLinks | src/lib.ts:259-277 | a link to `#x` is a `\hyperref` to label `id:x`; any other link is an `\href` to the escaped address, or to the redirect target when there is one |
| LibRender.InlineFormatted | src/lib.ts:280-306 | a formatted tag renders its children's text inside the wraps its selectors call for |
| LibRender.InlineUnsupported | src/lib.ts:308 | any other tag with text throws `Unsupported tag` |
| LibRender.PageBreak | src/lib.ts:77-79 | an `hr` whose first attribute asks for a page break is `\pagebreak`; an `hr` without attributes throws |
| LibRender.DivFootnote | src/lib.ts:90-115 | a div starting `FOOTNOTE<k>` renders nothing. Its trimmed payload is a bibliography entry keyed `k` when it starts with `@`, and otherwise the footnote for `k` |
| LibRender.DivPlain | src/lib.ts:85-117 | any other div is its children joined by blank lines |
| LibRender.DivLeadingCommentHidesFootnote | src/lib.ts:84-117 | a first child that renders to nothing still adds an empty block, so a div whose second child renders `FOOTNOTE<…` keeps it as text behind a blank line and records no footnote |
| LibRender.ItemsOfPresent | src/lib.ts:121 | each rendered child is one item, in order |
| LibRender.ItemsDropEmpty | src/lib.ts:121 | a child with no text adds no item |
| LibRender.ListRendered | src/lib.ts:120-126 | `ul` is `itemize`, `ol` is `enumerate`, with one item per child, in order |
| LibRender.TableFrame | src/lib.ts:128-140 | a table is sized by its first row and framed by `adjustbox` and `tabular`; one whose rows cannot be read throws |
| LibRender.TableBody | src/lib.ts:133-135 | the body is one line per row, in order: the row's cells, one per child, joined by ` & `, then a line end and a rule |
| LibRender.TableRowThrows | src/lib.ts:133-135 | a row that is not an element makes the table throw |
| LibRender.ClassSelectors | src/lib.ts:142-159 | the title tests never throw and match exactly the `title`/`subtitle` class tokens |
| LibRender.TitleElement | src/lib.ts:152-155 | a `.title` element with text sets the title, or throws when one is already set |
| LibRender.HeadingRendered | src/lib.ts:161-179 | `h1`–`h4` become `\section` … `\subsubsubsection`, labelled `id:` plus the id when there is one |
| LibRender.BlockUnsupported | src/lib.ts:181 | any other tag with text throws, with the tag and its text |
| LibRender.TextPartsErrStays | src/lib.ts:238 | once a child throws, rendering further children keeps that error |
| LibRender.BlocksErrStays | src/lib.ts:86 | the same for block children |
| LibRender.TableRowsErrStays | src/lib.ts:133-135 | the same for table rows |
| LibConvert.Converter.constructor | src/lib.ts:441-458 | a new converter has no title, footnotes or bibliography |
| LibConvert.Converter.AddEntry | src/lib.ts:443-450 | the entry is appended to the bibliography, and nothing else changes |
| LibConvert.Converter.AddFootnoteEntry | src/lib.ts:452-455 | the state is the old state with the footnote recorded |
| LibConvert.Converter.SetTitleOnce | src/lib.ts:459-473 | sets the title as `SetTitle` says, or returns its error and changes nothing |
| LibConvert.Converter.MapToLatex | src/lib.ts:66-182 | the in-place walk returns and stores what the pure `Latex` computes |
| LibConvert.Converter.MapChildren | src/lib.ts:86 | the loop over children agrees with `Blocks` |
| LibConvert.Converter.DivContent | src/lib.ts:90-117 | a div's content is handled as `Div` says |
| LibConvert.Converter.TextBlockOf | src/lib.ts:142-181 | the text blocks are handled as `TextBlock` says |
| LibConvert.TableLatex | src/lib.ts:128-140 | the table built by appending rows equals `Table` |
| LibConvert.RowsLatex | src/lib.ts:133-135 | the row loop equals `TableRows` |
| LibConvert.BackpatchFootnotes | src/lib.ts:479-481 | the `for..in` loop replaces each key's first `\cite{key}` in enumeration order, with the dollar patterns of the footnote expanded |
| LibConvert.BackpatchFirstMark | src/lib.ts:480 | only the first mark of a key is replaced by its footnote, whose `$$`, `$&`, `` $` `` and `$'` are expanded; a footnote without `$` goes in as it is |
| LibConvert.BackpatchCollapsesDollars | src/lib.ts:388-389 | the footnote `αβ`, escaped to `$\alpha$$\beta$`, reaches the body as `$\alpha$\beta$`: `$$` is read as one dollar (lines 480 and 90-113) |
| LibConvert.BackpatchCopiesRest | src/lib.ts:480 | the footnote `α's`, escaped to `$\alpha$'s`, gets the rest of the body spliced in where `$'` stood |
| LibConvert.BackpatchUnmarked | src/lib.ts:479-481 | keys without a mark change nothing |
| LibConvert.Handle | src/lib.ts:433-492 | walk the body and join with newlines; throw `Missing latex` on empty output; backpatch; tidy citations; snippet code blocks |
| LibConvert.JoinIsEmpty | src/lib.ts:475-477 | a newline join is empty iff there is nothing, or one empty part |
| LibConvert.MissingLatexCases | src/lib.ts:475-477 | `Missing latex` is thrown iff the body is empty or is one element rendering nothing |
| LibConvert.HandleElemsThrows | src/lib.ts:475-477 | walk errors propagate; otherwise it throws exactly when the joined text is empty |
| LibConvert.TitleHeaderIsTitleCommand | src/lib.ts:494-508 | the header is always one `\title{…}` command |
| LibConvert.TitleHeaderCases | src/lib.ts:494-508 | a lone title and a lone subtitle both give a bold title; empty counts as absent; neither gives `Document Title` |
| LibConvert.TitleHeaderBoth | src/lib.ts:495-497 | with both, the title in `\Huge` comes before the subtitle in `\Large` |
| LibConvert.BibliographyStem | src/lib.ts:539 | the bibliography is named after the output file without `.tex` |
| LibConvert.Gdoc2LatexLayout | src/lib.ts:510-546 | the document is the title header, the start template, the body, `\bibliography` and the end template, in that order; defaults apply; errors propagate |
| LibConvert.AssembleLayout | src/lib.ts:535-540 | the same layout for an already converted body |
| CiteTidier.CollectCiteKeys | src/lib.ts:343-349 | the `while (match)` loop collects the keys that repeated `exec` finds |
| CiteTidier.ExecOfRun | src/lib.ts:341-349 | on a run of citations, `exec` collects exactly the run's keys |
| CiteTidier.CiteRunOf | src/lib.ts:341 | consecutive `\cite{k}`s form one run with those keys |
| CiteTidier.MergeRun | src/lib.ts:341-351 | two or more adjacent citations become one `\cite{k1,…,kn}` |
| CiteTidier.LoneCiteKept | src/lib.ts:341 | a single citation is kept as it is |
| CiteTidier.MergeCopies | src/lib.ts:341-351 | a prefix without a backslash is copied unchanged by the merge |
| CiteTidier.ParenCite | src/lib.ts:354-356 | `(\cite{k})` becomes `\citep{k}` |
| CiteTidier.CitepCopies | src/lib.ts:354-356 | a prefix without `(` is copied unchanged |
| CiteTidier.SpaceCite | src/lib.ts:359-360 | a space before `\cite{k}` becomes `~` |
| CiteTidier.SpaceParencite | src/lib.ts:359-360 | a space before `\parencite{k}` becomes `~` |
| CiteTidier.TieCopies | src/lib.ts:359-360 | a prefix without spaces is copied unchanged |
| CiteTidier.CitepUntied | src/lib.ts:359-360 | ` \citep{k}` keeps its space |
| CiteTidier.CitepKeepsSpace | src/lib.ts:359-360 | a space before `\citep{` is not tied |
| CiteTidier.NoCiteUnchanged | src/lib.ts:337-363 | text without `cite{` is unchanged by all three passes |
| CiteTidier.SpacedRunTidied | src/lib.ts:337-363 | ` \cite{a}\cite{b}` becomes `~\cite{a,b}` |
| CiteTidier.ParenCiteUntied | src/lib.ts:337-363 | ` (\cite{k})` becomes ` \citep{k}`, keeping its space |
| CiteTidier.ParenciteTied | src/lib.ts:359-360 | ` \parencite{k}` becomes `~\parencite{k}`, even though it has no `\cite{` |
| CiteTidier.CiteTidierNotIdempotent | src/lib.ts:337-363 | tidying is not idempotent: `(\cite{a\cite{b})\cite{c}` (plain keys `a`, `b`, `c`) becomes `\citep{a\cite{b}\cite{c}`, which a second tidying turns into `\citep{a\cite{b,c}` |
| ForIn.Indices | src/lib.ts:479 | the keys enumerated first are all array indices |
| ForIn.Named | src/lib.ts:479 | the remaining keys are not array indices |
| ForIn.SortAscends | src/lib.ts:479 | array-index keys are enumerated in ascending numeric order |
| ForIn.SortPermutes | src/lib.ts:479 | sorting the indices neither adds nor loses keys |
| ForIn.SplitPermutes | src/lib.ts:479 | splitting keys into indices and names neither adds nor loses keys |
| ForIn.InsertPermutes | src/lib.ts:479 | inserting a key into sorted indices adds exactly that key |
| ForIn.ForInPermutes | src/lib.ts:479 | the enumeration visits each stored key exactly as often as it is stored |
| ForIn.ForInIndicesFirst | src/lib.ts:479 | array indices come before all other keys, in ascending order |
| ForIn.ForInInsertionOrder | src/lib.ts:479 | without array indices, keys are visited in insertion order |
| EarlyRender.TextParts | src/index.ts:174 | one rendering per child |
| EarlyRender.Keep | src/index.ts:78 | `filter(notNully)` keeps only non-empty renderings |
| EarlyRender.BlocksNonEmpty | src/index.ts:78 | no kept block rendering is empty |
| EarlyRender.ChildlessRendersNothing | src/index.ts:161-172 | in inline mode comments and elements without children render nothing; lines 65-75: in block mode comments render nothing, and so do childless elements other than `hr` |
| EarlyRender.PageBreak | src/index.ts:69-71 | a page-break `hr` is `\pagebreak`; an `hr` without attributes throws; `gdoc2latex.js` lines 29-31: the same in the first script |
| EarlyRender.FormatsNest | src/index.ts:196-210 | for every combination of matches, the text gets exactly the wraps whose own selector list matches, nested bold innermost, then italic, then underline; `gdoc2latex.js` lines 153-167: the same in the first script |
| EarlyRender.FormatsThrow | src/index.ts:199-207 | formatting throws the first selector error |
| EarlyRender.InlineUnsupported | src/index.ts:212 | any tag other than the formatted ones throws once it has text; `gdoc2latex.js` line 169: the same in the first script |
| EarlyRender.ReferenceCite | src/index.ts:181-185 | a link with id `ftnt_k` is `\cite{k}` |
| EarlyRender.ReferenceMarker | src/index.ts:188-193 | a link to `#ftnt_k` is the marker `REFERENCE<k>` |
| EarlyRender.AnchorReference | src/index.ts:179-194 | a footnote link renders its marker or citation, not its text |
| EarlyRender.ReferenceDiv | src/index.ts:82-96 | a div starting `REFERENCE<k>` renders nothing and adds its rest as an entry keyed `k`; `gdoc2latex.js` lines 43-57: the same in the first script, with the alphanumeric key pattern |
| EarlyRender.DivPlain | src/index.ts:77-99 | any other div is its content |
| EarlyRender.ListRendered | src/index.ts:101-107 | `ul`/`ol` become `itemize`/`enumerate` with one item per child, in order; `gdoc2latex.js` lines 62-68: the same in the first script |
| EarlyRender.TableFrame | src/index.ts:109-121 | a table is framed by `center` and `tabular`, sized by the first row; unreadable rows throw; `gdoc2latex.js` lines 70-82: the same in the first script |
| EarlyRender.TableBody | src/index.ts:114-116 | the body is one line per row, in order: the row's cells, one per child, joined by ` & `, then a line end and a rule; `gdoc2latex.js` lines 75-77: the same in the first script |
| EarlyRender.TableRowThrows | src/index.ts:114-116 | a row that is not an element makes the table throw |
| EarlyRender.TitleElement | src/index.ts:129-132 | `.title` sets the title, or throws a duplicate error naming both values; `gdoc2latex.js` lines 90-93: the first script's duplicate error carries no values |
| EarlyRender.SetTitleOnce | src/index.ts:268-282 | the first title is stored and the second throws; the rest is unchanged; `gdoc2latex.js` lines 218-232: the same in the first script |
| EarlyRender.BlockRendered | src/index.ts:138-158 | headings without labels, `p` as its text, and any other tag throws; `gdoc2latex.js` lines 99-119: the same in the first script |
| EarlyRender.NamedBlockRendered | src/index.ts:138-158 | the same cases for text already rendered |
| EarlyRender.TextPartsErrStays | src/index.ts:174 | once a child throws, the error stays |
| EarlyRender.BlocksErrStays | src/index.ts:78 | the same for block children |
| EarlyRender.TableRowsErrStays | src/index.ts:114-116 | the same for table rows |
| EarlyConvert.Collector.constructor | src/index.ts:255-267 | a new collector has found nothing |
| EarlyConvert.Collector.AddBibliographyEntry | src/index.ts:257-264 | the entry is appended to the bibliography; `gdoc2latex.js` lines 207-214: the same in the first script |
| EarlyConvert.Collector.SetTitleOnce | src/index.ts:268-282 | sets the title as `SetTitle` says, or returns its error and changes nothing |
| EarlyConvert.Collector.MapToLatex | src/index.ts:60-159 | the in-place walk agrees with the pure `Latex`; `gdoc2latex.js` lines 24-120: the same in the first script |
| EarlyConvert.Collector.MapChildren | src/index.ts:78 | the loop over children agrees with `Blocks` |
| EarlyConvert.Collector.DivContent | src/index.ts:82-98 | a div's content is handled as `Div` says |
| EarlyConvert.Collector.TextBlockOf | src/index.ts:123-158 | the text blocks are handled as `TextBlock` says |
| EarlyConvert.TableLatex | src/index.ts:109-121 | the row-appending table equals `Table` |
| EarlyConvert.RowsLatex | src/index.ts:114-116 | the row loop equals `TableRows` |
| EarlyConvert.Handle | src/index.ts:247-296 | the result is `HandleElems`: join with blank lines, then check title, text and bibliography, in that order; `gdoc2latex.js` lines 202-242: the same join with no checks in the first script |
| EarlyConvert.JoinNonEmpty | src/index.ts:284 | joining non-empty blocks is empty iff there are none |
| EarlyConvert.MissingLatexExactly | src/index.ts:284-287 | with a title, `Missing latex` is thrown iff no element renders any text |
| EarlyConvert.TitleCheckedFirst | src/index.ts:286 | a missing title is reported before missing text or bibliography |
| EarlyConvert.HandleElemsChecks | src/index.ts:286-288 | a result always has a title, text and a bibliography; the first script only propagates walk errors |
| EarlyConvert.TitleHeader | src/index.ts:298-304 | a title without subtitle is a bold `\title`; both versions agree once there is a title |
| EarlyConvert.TitleHeaderBoth | src/index.ts:303 | with a subtitle, the bold title comes first, then two line breaks, then the subtitle in `\large` |
| EarlyConvert.LegacyTitleMissing | gdoc2latex.js:245-247 | the first script throws `Missing title` when there is none |
| EarlyConvert.HandledTitleRenders | src/index.ts:286 | whatever the earlier version returns always has a renderable title header |

## Left out

- `he.decode`, the HTML entity decoding at the start of every
  `transformText`, is not modelled. Text reaches the model already decoded.
- The HTML parser (`himalaya.parse`) and the extraction of the stylesheet
  and body from fixed positions of the parse tree are not modelled. The
  model starts from the stylesheet text and the body's elements.
- `URL`/`URLSearchParams` and the image-width arithmetic (`parseFloat`,
  `Math.min`, `toFixed`) are parameters of `LibRender.Foreign`, because
  they are foreign code and floating point.
- `main` in both `src/index.ts` and `gdoc2latex.js`, `src/cli.ts`,
  `src/filesystem.ts` and `checkType` are not modelled, because they are
  file and console I/O and argument checking.
- The `Invalid title type` branch of `setTitle` is not modelled, because
  the title kind is a two-valued datatype and the branch cannot be reached.
- A thrown `Error` is an `Err` value. The model keeps which error is
  thrown and its data, not the exact message text.
- CiteTidier.CiteTidier: no idempotence lemma is stated, because tidying is
  not idempotent: a key `[^}]*` may itself hold `\cite{`, so one pass can
  create a run the next pass merges (`CiteTidier.CiteTidierNotIdempotent`).
- EarlyText.DollarEscaped: the lemma requires that the text holds no first
  character of the lambda pattern. In `src/index.ts` that is `Î`, whose
  replacement writes an unescaped `$`.
