/**
 * The tree walk of the two earlier versions (`mapToLatex` and `mapText` of
 * `src/index.ts` and of `gdoc2latex.js`). They render the same tags as the
 * current version but with three formats only (bold, italic, underline), no
 * line breaks, images or links, headings without labels, and a footnote
 * marked `REFERENCE<k>` whose content always goes to the bibliography. The
 * two differ only in their text escaping, the shape of entry key they
 * rewrite, and the message of a duplicate title.
 */
module EarlyRender {
  import opened Wrappers
  import opened JsString
  import opened Html
  import opened EarlyText
  import Css
  import Bibtex
  import LibSink
  import LibRender

  /** What the closures of `handleElems` collect: the title, the subtitle and the bibliography. */
  datatype Found = Found(title: Option<string>, subtitle: Option<string>, bibtex: Option<string>)

  const Nothing := Found(None, None, None)

  /** `setTitle`: each of the two may be set once; the earliest version's message names no values. */
  function SetTitle(v: Version, s: Found, kind: TitleKind, value: string): Result<Found, Error> {
    var existing := if kind == Title then s.title else s.subtitle;
    if Truthy(existing) then
      Err(if v == IndexTs then DuplicateTitle(kind, existing.value, value) else DuplicateTitleBare(kind))
    else if kind == Title then Ok(s.(title := Some(value)))
    else Ok(s.(subtitle := Some(value)))
  }

  /** `addBibliographyEntry` */
  function AddEntry(s: Found, entry: string): Found {
    s.(bibtex := Some(LibSink.AddBibliographyEntry(s.bibtex, entry)))
  }

  /** The entry-key shape each version's rewrite pattern accepts. */
  function KeyShapeOf(v: Version): Bibtex.KeyShape {
    if v == IndexTs then Bibtex.AnyKey else Bibtex.AlnumKey
  }

  const ReferenceMark := "REFERENCE<"

  // ---------------------------------------------------------------- inline mode

  /**
   * An anchor's rendering when it belongs to a footnote: its mark in the
   * body (id `ftnt_k`) becomes `\cite{k}`, and the back link at the start of
   * the footnote's content (href `#ftnt_k`) becomes the marker `REFERENCE<k>`.
   */
  function Reference(attrs: seq<Attribute>): Option<string> {
    var id := FindAttr(attrs, "id");
    var href := FindAttr(attrs, "href");
    if id.Some? && StartsWith(id.value, "ftnt_") then Some("\\cite{" + id.value[5..] + "}")
    else if href.Some? && StartsWith(href.value, "#ftnt_") then Some(ReferenceMark + href.value[6..] + ">")
    else None
  }

  /** Bold innermost, then italic, then underline, each when one of its selectors matches. */
  function Formats(ts: TextSelectors, attrs: seq<Attribute>, tag: string, s: string): Result<string, Error> {
    var bold :- Css.SelectorMatches(attrs, tag, ts.bold);
    var s1 := LibRender.Wrap(s, bold, "\\textbf{", "}");
    var italic :- Css.SelectorMatches(attrs, tag, ts.italic);
    var s2 := LibRender.Wrap(s1, italic, "\\textit{", "}");
    var underlined :- Css.SelectorMatches(attrs, tag, ts.underlined);
    Ok(LibRender.Wrap(s2, underlined, "\\underline{", "}"))
  }

  /** `mapText`: the inline rendering of a node. */
  function MapText(v: Version, ts: TextSelectors, node: Node): Result<Option<string>, Error>
    decreases node, 1, 0
  {
    match node
    case Text(content) => Ok(Some(TransformText(v, content)))
    case Comment(_) => Ok(None)
    case Element(tag, attrs, cs) =>
      if cs == [] then Ok(None)
      else
        var parts :- TextParts(v, ts, node, |cs|);
        var text := LibRender.Concat(parts);
        if text == "" then Ok(None)
        else if tag == "a" && Reference(attrs).Some? then Ok(Reference(attrs))
        else if LibRender.IsInline(tag) then
          var s :- Formats(ts, attrs, tag, text);
          Ok(Some(s))
        else Err(UnsupportedTag(tag))
  }

  /** The inline renderings of the first `i` children of `parent`, or the first error among them.
      It mirrors `LibRender.TextParts`, over the earlier version's selectors and without the foreign nodes. */
  function TextParts(v: Version, ts: TextSelectors, parent: Node, i: nat): (r: Result<seq<Option<string>>, Error>)
    requires parent.Element? && i <= |parent.children|
    ensures r.Ok? ==> |r.value| == i
    decreases parent, 0, i
  {
    if i == 0 then Ok([])
    else
      var prev :- TextParts(v, ts, parent, i - 1);
      var last :- MapText(v, ts, parent.children[i - 1]);
      Ok(prev + [last])
  }

  // ---------------------------------------------------------------- tables

  function TableHead(columns: nat): string {
    "\\begin{center}\\begin{tabular}{ |" + Repeat("l|", columns) + " }\n  \\hline\n"
  }

  const TableFoot := "\\end{tabular}\\end{center}"

  /** The rows of the table body after the first `i` rows, or the first error among them. */
  function TableRows(v: Version, ts: TextSelectors, rows: seq<Node>, i: nat): Result<string, Error>
    requires i <= |rows|
  {
    if i == 0 then Ok("")
    else
      var prev :- TableRows(v, ts, rows, i - 1);
      var row := rows[i - 1];
      if !row.Element? then Err(TypeError("row.children is undefined"))
      else
        var cells :- TextParts(v, ts, row, |row.children|);
        Ok(prev + LibRender.TableRow(LibRender.Cells(cells)))
  }

  /** A `table` whose first child holds the rows, sized by the first row. */
  function Table(v: Version, ts: TextSelectors, children: seq<Node>): Result<string, Error>
    requires children != []
  {
    if !children[0].Element? then Err(TypeError("rows is undefined"))
    else
      var rows := children[0].children;
      if rows == [] || !rows[0].Element? then Err(TypeError("rows[0].children is undefined"))
      else
        var body :- TableRows(v, ts, rows, |rows|);
        Ok(TableHead(|rows[0].children|) + body + TableFoot)
  }

  // ---------------------------------------------------------------- block mode

  /**
   * A div's joined content: a footnote's content (`REFERENCE<k>` and the
   * rest) is turned into a bibliography entry keyed `k` and the div renders
   * nothing; any other content is the div's rendering.
   */
  function Div(v: Version, content: string, s: Found): (Option<string>, Found) {
    if StartsWith(content, ReferenceMark) then
      var key := Slice(content, |ReferenceMark|, IndexOf(content, ">"));
      var entry := Bibtex.Entry(SliceFrom(content, |ReferenceMark| + 1 + |key|), key, KeyShapeOf(v));
      (None, AddEntry(s, entry))
    else (Some(content), s)
  }

  /** `mapToLatex`: the block rendering of a node, and what the closures collected after it. */
  function Latex(v: Version, ts: TextSelectors, s: Found, node: Node): Result<(Option<string>, Found), Error>
    decreases node, 1, 0
  {
    match node
    case Text(content) => Ok((Some(TransformText(v, content)), s))
    case Comment(_) => Ok((None, s))
    case Element(tag, attrs, cs) =>
      if tag == "hr" && attrs == [] then Err(TypeError("attributes[0] is undefined"))
      else if tag == "hr" && attrs[0].key == "style" && Contains(attrs[0].value, "page-break-before:always") then
        Ok((Some("\\pagebreak"), s))
      else if cs == [] then Ok((None, s))
      else if tag == "div" then
        var blocks :- Blocks(v, ts, s, node, |cs|);
        Ok(Div(v, Join(blocks.0, "\n\n"), blocks.1))
      else if tag == "ul" || tag == "ol" then
        var parts :- TextParts(v, ts, node, |cs|);
        Ok((Some(LibRender.ListEnvironment(if tag == "ul" then "itemize" else "enumerate", parts)), s))
      else if tag == "table" then
        var table :- Table(v, ts, cs);
        Ok((Some(table), s))
      else TextBlock(v, ts, s, node)
  }

  /**
   * The other elements, rendered from their children's text: when there is
   * some, it sets the title or subtitle, becomes a heading or is a
   * paragraph's rendering as it is; any other tag throws.
   */
  function TextBlock(v: Version, ts: TextSelectors, s: Found, node: Node): Result<(Option<string>, Found), Error>
    requires node.Element? && node.children != []
  {
    var tag, attrs := node.tagName, node.attributes;
    var parts :- TextParts(v, ts, node, |node.children|);
    var text := LibRender.Concat(parts);
    if text == "" then Ok((None, s))
    else NamedBlock(v, s, tag, attrs, text)
  }

  /** A block with text: the title, the subtitle, a heading, a paragraph, or an error naming the tag. */
  function NamedBlock(v: Version, s: Found, tag: string, attrs: seq<Attribute>, text: string): Result<(Option<string>, Found), Error> {
    var isTitle :- Css.SelectorMatches(attrs, tag, [".title"]);
    if isTitle then
      var s' :- SetTitle(v, s, Title, text);
      Ok((None, s'))
    else
      var isSubtitle :- Css.SelectorMatches(attrs, tag, [".subtitle"]);
      if isSubtitle then
        var s' :- SetTitle(v, s, Subtitle, text);
        Ok((None, s'))
      else if LibRender.Heading(tag).Some? then
        Ok((Some(LibRender.Section(LibRender.Heading(tag).value, text, None)), s))
      else if tag == "p" then Ok((Some(text), s))
      else Err(UnsupportedTag(tag))
  }

  /**
   * `.map(mapToLatex).filter(notNully)` over the first `i` children of
   * `parent`: the renderings that are not empty, and what was collected
   * after them, or the first error.
   */
  function Blocks(v: Version, ts: TextSelectors, s: Found, parent: Node, i: nat): (r: Result<(seq<string>, Found), Error>)
    requires parent.Element? && i <= |parent.children|
    ensures r.Ok? ==> |r.value.0| <= i
    decreases parent, 0, i
  {
    if i == 0 then Ok(([], s))
    else
      var prev :- Blocks(v, ts, s, parent, i - 1);
      var last :- Latex(v, ts, prev.1, parent.children[i - 1]);
      Ok((Keep(prev.0, last.0), last.1))
  }

  /** `filter(notNully)` on one more rendering: kept only when it is some non-empty text. */
  function Keep(parts: seq<string>, last: Option<string>): (r: seq<string>)
    ensures (forall j :: 0 <= j < |parts| ==> parts[j] != "") ==> forall j :: 0 <= j < |r| ==> r[j] != ""
  {
    parts + (if Truthy(last) then [last.value] else [])
  }

  // ---------------------------------------------------------------- lemmas

  /** The renderings `Blocks` keeps are never empty. */
  lemma {:induction false} BlocksNonEmpty(v: Version, ts: TextSelectors, s: Found, parent: Node, i: nat)
    requires parent.Element? && i <= |parent.children|
    requires Blocks(v, ts, s, parent, i).Ok?
    ensures var parts := Blocks(v, ts, s, parent, i).value.0;
            forall j :: 0 <= j < |parts| ==> parts[j] != ""
    decreases i
  {
    if i > 0 {
      var prev := Blocks(v, ts, s, parent, i - 1);
      BlocksNonEmpty(v, ts, s, parent, i - 1);
    }
  }

  /**
   * In the earliest version a node without children, and so a comment,
   * renders nothing in either mode; only `hr` is looked at first.
   */
  lemma {:induction false} ChildlessRendersNothing(v: Version, ts: TextSelectors, s: Found, tag: string, attrs: seq<Attribute>, c: string)
    ensures MapText(v, ts, Element(tag, attrs, [])) == Ok(None) && MapText(v, ts, Comment(c)) == Ok(None)
    ensures Latex(v, ts, s, Comment(c)) == Ok((None, s))
    ensures tag != "hr" ==> Latex(v, ts, s, Element(tag, attrs, [])) == Ok((None, s))
  {
  }

  /**
   * A page break is an `hr` whose first attribute is a style asking for one;
   * reading the first attribute of an `hr` that has none throws.
   */
  lemma {:induction false} PageBreak(v: Version, ts: TextSelectors, s: Found, attrs: seq<Attribute>, cs: seq<Node>)
    ensures attrs == [] ==> Latex(v, ts, s, Element("hr", attrs, cs)) == Err(TypeError("attributes[0] is undefined"))
    ensures attrs != [] && attrs[0].key == "style" && Contains(attrs[0].value, "page-break-before:always")
            ==> Latex(v, ts, s, Element("hr", attrs, cs)) == Ok((Some("\\pagebreak"), s))
  {
  }

  /**
   * The three wraps nest in the order bold (innermost), italic, underline,
   * each present exactly when its own selector list matches.
   */
  lemma {:induction false} FormatsNest(ts: TextSelectors, attrs: seq<Attribute>, tag: string, s: string, bold: bool, italic: bool, underlined: bool)
    requires Css.SelectorMatches(attrs, tag, ts.bold) == Ok(bold)
    requires Css.SelectorMatches(attrs, tag, ts.italic) == Ok(italic)
    requires Css.SelectorMatches(attrs, tag, ts.underlined) == Ok(underlined)
    ensures var flags := [bold, italic, underlined];
            Formats(ts, attrs, tag, s) == Ok(LibRender.Opening(flags, 3) + s + LibRender.Closing(flags, 3))
  {
    FormatsWrapped(ts, attrs, tag, s, bold, italic, underlined);
    WrapsNest(bold, italic, underlined, s);
  }

  /** The three wraps in turn put the matched openings before the text and their closings after. */
  lemma {:induction false} WrapsNest(bold: bool, italic: bool, underlined: bool, s: string)
    ensures var flags := [bold, italic, underlined];
            LibRender.Wrap(LibRender.Wrap(LibRender.Wrap(s, bold, "\\textbf{", "}"), italic, "\\textit{", "}"), underlined, "\\underline{", "}")
            == LibRender.Opening(flags, 3) + s + LibRender.Closing(flags, 3)
  {
    var flags := [bold, italic, underlined];
    assert LibRender.Openings[..3] == ["\\textbf{", "\\textit{", "\\underline{"];
    assert LibRender.Closings[..3] == ["}", "}", "}"];
    assert LibRender.Opening(flags, 0) + s + LibRender.Closing(flags, 0) == s;
    LibRender.WrapStep(flags, 0, s);
    LibRender.WrapStep(flags, 1, s);
    LibRender.WrapStep(flags, 2, s);
  }

  /** With every selector list deciding, `Formats` is the three wraps in turn. */
  lemma {:induction false} FormatsWrapped(ts: TextSelectors, attrs: seq<Attribute>, tag: string, s: string, bold: bool, italic: bool, underlined: bool)
    requires Css.SelectorMatches(attrs, tag, ts.bold) == Ok(bold)
    requires Css.SelectorMatches(attrs, tag, ts.italic) == Ok(italic)
    requires Css.SelectorMatches(attrs, tag, ts.underlined) == Ok(underlined)
    ensures Formats(ts, attrs, tag, s)
            == Ok(LibRender.Wrap(LibRender.Wrap(LibRender.Wrap(s, bold, "\\textbf{", "}"), italic, "\\textit{", "}"), underlined, "\\underline{", "}"))
  {
  }

  /** A selector list that throws makes the whole chain throw, the first such list first. */
  lemma {:induction false} FormatsThrow(ts: TextSelectors, attrs: seq<Attribute>, tag: string, s: string)
    ensures Css.SelectorMatches(attrs, tag, ts.bold).Err? ==> Formats(ts, attrs, tag, s) == Err(Css.SelectorMatches(attrs, tag, ts.bold).error)
    ensures Css.SelectorMatches(attrs, tag, ts.bold).Ok? && Css.SelectorMatches(attrs, tag, ts.italic).Err?
            ==> Formats(ts, attrs, tag, s) == Err(Css.SelectorMatches(attrs, tag, ts.italic).error)
    ensures Css.SelectorMatches(attrs, tag, ts.bold).Ok? && Css.SelectorMatches(attrs, tag, ts.italic).Ok?
            && Css.SelectorMatches(attrs, tag, ts.underlined).Err?
            ==> Formats(ts, attrs, tag, s) == Err(Css.SelectorMatches(attrs, tag, ts.underlined).error)
  {
  }

  /** In inline mode, a tag outside the formatted ones throws once its children render to some text. */
  lemma {:induction false} InlineUnsupported(v: Version, ts: TextSelectors, tag: string, attrs: seq<Attribute>, cs: seq<Node>)
    requires !LibRender.IsInline(tag) && cs != []
    requires TextParts(v, ts, Element(tag, attrs, cs), |cs|).Ok?
    requires LibRender.Concat(TextParts(v, ts, Element(tag, attrs, cs), |cs|).value) != ""
    ensures MapText(v, ts, Element(tag, attrs, cs)) == Err(UnsupportedTag(tag))
  {
  }

  /** The back link of footnote `k` renders the marker `REFERENCE<k>` in place of its text. */
  lemma {:induction false} ReferenceMarker(attrs: seq<Attribute>, k: string)
    requires FindAttr(attrs, "href") == Some("#ftnt_" + k)
    requires FindAttr(attrs, "id").None? || !StartsWith(FindAttr(attrs, "id").value, "ftnt_")
    ensures Reference(attrs) == Some(ReferenceMark + k + ">")
  {
    assert ("#ftnt_" + k)[6..] == k;
  }

  /** The mark of footnote `k` in the body renders `\cite{k}`. */
  lemma {:induction false} ReferenceCite(attrs: seq<Attribute>, k: string)
    requires FindAttr(attrs, "id") == Some("ftnt_" + k)
    ensures Reference(attrs) == Some("\\cite{" + k + "}")
  {
    assert ("ftnt_" + k)[5..] == k;
  }

  /** An anchor that belongs to a footnote renders as its reference, whatever its formats. */
  lemma {:induction false} AnchorReference(v: Version, ts: TextSelectors, attrs: seq<Attribute>, cs: seq<Node>)
    requires cs != [] && Reference(attrs).Some?
    requires TextParts(v, ts, Element("a", attrs, cs), |cs|).Ok?
    requires LibRender.Concat(TextParts(v, ts, Element("a", attrs, cs), |cs|).value) != ""
    ensures MapText(v, ts, Element("a", attrs, cs)) == Ok(Reference(attrs))
  {
  }

  /**
   * A div whose content is the marker of footnote `k` followed by the rest
   * renders nothing and adds the rest to the bibliography as an entry keyed
   * `k`, whatever the rest holds.
   */
  lemma {:induction false} ReferenceDiv(v: Version, k: string, rest: string, s: Found)
    requires '>' !in k
    ensures Div(v, ReferenceMark + k + ">" + rest, s) == (None, AddEntry(s, Bibtex.Entry(rest, k, KeyShapeOf(v))))
  {
    var content := ReferenceMark + k + ">" + rest;
    var n := |ReferenceMark| + |k|;
    assert content[..|ReferenceMark|] == ReferenceMark;
    assert OccursAt(content, ">", n) by { assert content[n..n + 1] == ">"; }
    forall j | 0 <= j < n ensures !OccursAt(content, ">", j) {
      if j < |ReferenceMark| {
        assert content[j] == ReferenceMark[j];
      } else {
        assert content[j] == k[j - |ReferenceMark|];
      }
      assert content[j..j + 1][0] == content[j];
    }
    IndexOfIs(content, ">", n);
    assert Slice(content, |ReferenceMark|, n) == k by { assert content[|ReferenceMark|..n] == k; }
    assert SliceFrom(content, n + 1) == rest by { assert content[n + 1..] == rest; }
  }

  /** Other content is the div's rendering, and nothing is collected. */
  lemma {:induction false} DivPlain(v: Version, content: string, s: Found)
    requires !StartsWith(content, ReferenceMark)
    ensures Div(v, content, s) == (Some(content), s)
  {
  }

  /** The elements block mode renders from their text. */
  lemma {:induction false} LatexOfTextBlock(v: Version, ts: TextSelectors, s: Found, node: Node)
    requires node.Element? && node.children != [] && node.tagName !in ["hr", "div", "ul", "ol", "table"]
    ensures Latex(v, ts, s, node) == TextBlock(v, ts, s, node)
  {
  }

  /**
   * A block with text and no title class becomes the sectioning command of
   * a heading tag (without a label), the text itself for a paragraph, and
   * an error for any other tag.
   */
  lemma {:induction false} BlockRendered(v: Version, ts: TextSelectors, s: Found, tag: string, attrs: seq<Attribute>, cs: seq<Node>)
    requires tag !in ["hr", "div", "ul", "ol", "table"] && cs != []
    requires !Css.ClassMatches(Css.ClassValue(attrs), "title") && !Css.ClassMatches(Css.ClassValue(attrs), "subtitle")
    requires TextParts(v, ts, Element(tag, attrs, cs), |cs|).Ok?
    requires LibRender.Concat(TextParts(v, ts, Element(tag, attrs, cs), |cs|).value) != ""
    ensures var text := LibRender.Concat(TextParts(v, ts, Element(tag, attrs, cs), |cs|).value);
            var r := Latex(v, ts, s, Element(tag, attrs, cs));
            && (tag == "h1" ==> r == Ok((Some("\\section{" + text + "}"), s)))
            && (tag == "h2" ==> r == Ok((Some("\\subsection{" + text + "}"), s)))
            && (tag == "h3" ==> r == Ok((Some("\\subsubsection{" + text + "}"), s)))
            && (tag == "h4" ==> r == Ok((Some("\\subsubsubsection{" + text + "}"), s)))
            && (tag == "p" ==> r == Ok((Some(text), s)))
            && (tag !in ["p", "h1", "h2", "h3", "h4"] ==> r == Err(UnsupportedTag(tag)))
  {
    var node := Element(tag, attrs, cs);
    var text := LibRender.Concat(TextParts(v, ts, node, |cs|).value);
    LatexOfTextBlock(v, ts, s, node);
    assert TextBlock(v, ts, s, node) == NamedBlock(v, s, tag, attrs, text);
    NamedBlockRendered(v, s, tag, attrs, text);
  }

  lemma {:induction false} NamedBlockRendered(v: Version, s: Found, tag: string, attrs: seq<Attribute>, text: string)
    requires !Css.ClassMatches(Css.ClassValue(attrs), "title") && !Css.ClassMatches(Css.ClassValue(attrs), "subtitle")
    ensures var r := NamedBlock(v, s, tag, attrs, text);
            && (tag == "h1" ==> r == Ok((Some("\\section{" + text + "}"), s)))
            && (tag == "h2" ==> r == Ok((Some("\\subsection{" + text + "}"), s)))
            && (tag == "h3" ==> r == Ok((Some("\\subsubsection{" + text + "}"), s)))
            && (tag == "h4" ==> r == Ok((Some("\\subsubsubsection{" + text + "}"), s)))
            && (tag == "p" ==> r == Ok((Some(text), s)))
            && (tag !in ["p", "h1", "h2", "h3", "h4"] ==> r == Err(UnsupportedTag(tag)))
  {
    LibRender.ClassSelectors(attrs, tag);
    var h := LibRender.Heading(tag);
    if h.Some? {
      var command := h.value;
      assert LibRender.Section(command, text, None) == "\\" + command + "{" + text + "}";
      LibRender.HeadingCommands();
    }
  }

  /**
   * An element of class `title` with text sets the title and renders
   * nothing; when a title is already set it throws, with the two values in
   * the message of `src/index.ts` and without them in `gdoc2latex.js`.
   */
  lemma {:induction false} TitleElement(v: Version, ts: TextSelectors, s: Found, tag: string, attrs: seq<Attribute>, cs: seq<Node>)
    requires tag !in ["hr", "div", "ul", "ol", "table"] && cs != []
    requires Css.ClassMatches(Css.ClassValue(attrs), "title")
    requires TextParts(v, ts, Element(tag, attrs, cs), |cs|).Ok?
    requires LibRender.Concat(TextParts(v, ts, Element(tag, attrs, cs), |cs|).value) != ""
    ensures var text := LibRender.Concat(TextParts(v, ts, Element(tag, attrs, cs), |cs|).value);
            var r := Latex(v, ts, s, Element(tag, attrs, cs));
            && (!Truthy(s.title) ==> r == Ok((None, s.(title := Some(text)))))
            && (Truthy(s.title) && v == IndexTs ==> r == Err(DuplicateTitle(Title, s.title.value, text)))
            && (Truthy(s.title) && v == LegacyJs ==> r == Err(DuplicateTitleBare(Title)))
  {
    var node := Element(tag, attrs, cs);
    var text := LibRender.Concat(TextParts(v, ts, node, |cs|).value);
    LibRender.ClassSelectors(attrs, tag);
    LatexOfTextBlock(v, ts, s, node);
    assert TextBlock(v, ts, s, node) == NamedBlock(v, s, tag, attrs, text);
  }

  /** A title or subtitle can be set once; setting one leaves the other and the bibliography as they were. */
  lemma {:induction false} SetTitleOnce(v: Version, s: Found, kind: TitleKind, first: string, second: string)
    requires !Truthy(if kind == Title then s.title else s.subtitle) && first != ""
    ensures SetTitle(v, s, kind, first).Ok?
    ensures var t := SetTitle(v, s, kind, first).value;
            && t.bibtex == s.bibtex
            && (kind == Title ==> t.title == Some(first) && t.subtitle == s.subtitle)
            && (kind == Subtitle ==> t.subtitle == Some(first) && t.title == s.title)
            && SetTitle(v, t, kind, second).Err?
  {
  }

  /** Once the children's inline renderings hit an error, rendering more children keeps it.
      It mirrors `LibRender.TextPartsErrStays` for this version's `TextParts`. */
  lemma {:induction false} TextPartsErrStays(v: Version, ts: TextSelectors, parent: Node, i: nat, j: nat)
    requires parent.Element? && i <= j <= |parent.children|
    requires TextParts(v, ts, parent, i).Err?
    ensures TextParts(v, ts, parent, j) == TextParts(v, ts, parent, i)
    decreases j
  {
    if i < j {
      TextPartsErrStays(v, ts, parent, i, j - 1);
    }
  }

  /** Once the children's block renderings hit an error, rendering more children keeps it. */
  lemma {:induction false} BlocksErrStays(v: Version, ts: TextSelectors, s: Found, parent: Node, i: nat, j: nat, e: Error)
    requires parent.Element? && i <= j <= |parent.children|
    requires Blocks(v, ts, s, parent, i) == Err(e)
    ensures Blocks(v, ts, s, parent, j) == Err(e)
    decreases j
  {
    if i < j {
      BlocksErrStays(v, ts, s, parent, i, j - 1, e);
    }
  }

  /** Once the rows hit an error, rendering more rows keeps it.
      It mirrors `LibRender.TableRowsErrStays` for this version's `TableRows`. */
  lemma {:induction false} TableRowsErrStays(v: Version, ts: TextSelectors, rows: seq<Node>, i: nat, j: nat)
    requires i <= j <= |rows|
    requires TableRows(v, ts, rows, i).Err?
    ensures TableRows(v, ts, rows, j) == TableRows(v, ts, rows, i)
    decreases j
  {
    if i < j {
      TableRowsErrStays(v, ts, rows, i, j - 1);
    }
  }

  // ---------------------------------------------------------------- lists and tables

  lemma {:induction false} ListLatex(v: Version, ts: TextSelectors, s: Found, tag: string, attrs: seq<Attribute>, cs: seq<Node>)
    requires (tag == "ul" || tag == "ol") && cs != []
    requires TextParts(v, ts, Element(tag, attrs, cs), |cs|).Ok?
    ensures Latex(v, ts, s, Element(tag, attrs, cs))
            == Ok((Some(LibRender.ListEnvironment(if tag == "ul" then "itemize" else "enumerate", TextParts(v, ts, Element(tag, attrs, cs), |cs|).value)), s))
  {
  }

  /**
   * A `ul` is an `itemize` and an `ol` an `enumerate` environment with one
   * item per child that renders to some text, in order.
   */
  lemma {:induction false} ListRendered(v: Version, ts: TextSelectors, s: Found, tag: string, attrs: seq<Attribute>, cs: seq<Node>)
    requires (tag == "ul" || tag == "ol") && cs != []
    requires TextParts(v, ts, Element(tag, attrs, cs), |cs|).Ok?
    requires forall i :: 0 <= i < |cs| ==> Truthy(TextParts(v, ts, Element(tag, attrs, cs), |cs|).value[i])
    ensures var parts := TextParts(v, ts, Element(tag, attrs, cs), |cs|).value;
            var env := if tag == "ul" then "itemize" else "enumerate";
            var items := seq(|cs|, i requires 0 <= i < |cs| => "  \\item " + OrEmpty(parts[i]));
            Latex(v, ts, s, Element(tag, attrs, cs)) == Ok((Some("\\begin{" + env + "}\n" + Join(items, "\n") + "\n\\end{" + env + "}"), s))
  {
    var parts := TextParts(v, ts, Element(tag, attrs, cs), |cs|).value;
    ListLatex(v, ts, s, tag, attrs, cs);
    LibRender.ItemsOfPresent(parts);
    assert LibRender.Items(parts) == seq(|cs|, i requires 0 <= i < |cs| => "  \\item " + OrEmpty(parts[i]));
  }

  /** A row that is not an element makes the whole table throw, unless an earlier row already did.
      It mirrors `LibRender.TableRowThrows` for this version's `TableRows`. */
  lemma {:induction false} TableRowThrows(v: Version, ts: TextSelectors, rows: seq<Node>, k: nat)
    requires k < |rows| && !rows[k].Element? && TableRows(v, ts, rows, k).Ok?
    ensures TableRows(v, ts, rows, |rows|) == Err(TypeError("row.children is undefined"))
  {
    TableRowsErrStays(v, ts, rows, k + 1, |rows|);
  }

  /**
   * A table is a centered `tabular` with as many columns as the first row
   * has cells, holding its rows; a table whose rows cannot be read throws.
   */
  lemma {:induction false} TableFrame(v: Version, ts: TextSelectors, children: seq<Node>)
    requires children != []
    ensures !children[0].Element? ==> Table(v, ts, children) == Err(TypeError("rows is undefined"))
    ensures children[0].Element? && children[0].children == [] ==> Table(v, ts, children) == Err(TypeError("rows[0].children is undefined"))
    ensures children[0].Element? && children[0].children != [] && children[0].children[0].Element?
            && TableRows(v, ts, children[0].children, |children[0].children|).Ok?
            ==> var t := Table(v, ts, children);
                t.Ok? && StartsWith(t.value, TableHead(|children[0].children[0].children|)) && EndsWith(t.value, TableFoot)
  {
    if children[0].Element? && children[0].children != [] && children[0].children[0].Element?
       && TableRows(v, ts, children[0].children, |children[0].children|).Ok? {
      var rows := children[0].children;
      var head, body := TableHead(|rows[0].children|), TableRows(v, ts, rows, |rows|).value;
      var t := head + body + TableFoot;
      assert t[..|head|] == head;
      assert t[|t| - |TableFoot|..] == TableFoot;
    }
  }

  /** A body that renders ends with the line of its last row. */
  lemma TableRowsStep(v: Version, ts: TextSelectors, rows: seq<Node>, i: nat)
    requires 0 < i <= |rows| && TableRows(v, ts, rows, i).Ok?
    ensures TableRows(v, ts, rows, i - 1).Ok?
    ensures rows[i - 1].Element? && TextParts(v, ts, rows[i - 1], |rows[i - 1].children|).Ok?
    ensures TableRows(v, ts, rows, i).value
            == TableRows(v, ts, rows, i - 1).value + LibRender.TableRow(LibRender.Cells(TextParts(v, ts, rows[i - 1], |rows[i - 1].children|).value))
  {
  }

  /**
   * The reference form of one table row: `line` is how the table renders
   * `row`, namely the row's cells, one per child of the row, separated by
   * ` & `, then a line end and a rule. It is spelled out from the cells
   * rather than through `TableRow`, and `TableBody` shows that every line of
   * the table's body has this form.
   */
  predicate RowLine(v: Version, ts: TextSelectors, row: Node, line: string) {
    row.Element? && TextParts(v, ts, row, |row.children|).Ok?
    && var cells := LibRender.Cells(TextParts(v, ts, row, |row.children|).value);
       |cells| == |row.children| && line == "  " + Join(cells, " & ") + " \\\\\n  \\hline\n"
  }

  lemma RowLineOf(v: Version, ts: TextSelectors, row: Node)
    requires row.Element? && TextParts(v, ts, row, |row.children|).Ok?
    ensures RowLine(v, ts, row, LibRender.TableRow(LibRender.Cells(TextParts(v, ts, row, |row.children|).value)))
  {
  }

  /** The table body has one line per row, in order. */
  lemma {:induction false} TableBody(v: Version, ts: TextSelectors, rows: seq<Node>, i: nat) returns (lines: seq<string>)
    requires i <= |rows| && TableRows(v, ts, rows, i).Ok?
    ensures |lines| == i && TableRows(v, ts, rows, i).value == Join(lines, "")
    ensures forall r :: 0 <= r < i ==> RowLine(v, ts, rows[r], lines[r])
    decreases i
  {
    if i == 0 {
      lines := [];
    } else {
      TableRowsStep(v, ts, rows, i);
      var prev := TableBody(v, ts, rows, i - 1);
      var row := rows[i - 1];
      var line := LibRender.TableRow(LibRender.Cells(TextParts(v, ts, row, |row.children|).value));
      lines := prev + [line];
      JoinSnocNoSeparator(prev, line);
      RowLineOf(v, ts, row);
      forall r | 0 <= r < i ensures RowLine(v, ts, rows[r], lines[r]) {
        if r < i - 1 {
          assert lines[r] == prev[r];
        }
      }
    }
  }

}
