/**
 * Rendering of the current version: `mapText` (inline mode) and `mapToLatex`
 * (block mode) of `src/lib.ts`. Each returns a string or nothing, or throws;
 * block mode also reports titles, footnotes and bibliography entries, which
 * here means it takes and returns the accumulator of the conversion.
 */
module LibRender {
  import opened Wrappers
  import opened JsString
  import opened Html
  import Css
  import opened LibText
  import Bibtex
  import opened LibSink

  /** The calls the renderer makes into code outside the model. */
  datatype Foreign = Foreign(
    // `new URLSearchParams(new URL(href).search).get('q')`
    redirectTarget: string -> Option<string>,
    // `Math.min(parseFloat(n) / 600, 1).toFixed(3)` for the number `n` of a pixel width
    lineWidth: string -> string)

  // ---------------------------------------------------------------- images

  predicate IsDigit(c: char) {
    '0' <= c <= '9'
  }

  /** The text of the `width:` declaration in a style: up to the next `;`, trimmed. */
  function WidthText(style: string): string {
    var w := SliceFrom(style, IndexOf(style, "width:"));
    Trim(Slice(w, 6, IndexOf(w, ";")))
  }

  /** `/^\d+\.?\d*$/`: digits, then optionally a point and more digits. */
  predicate IsDecimal(n: string) {
    var d := RunLength(n, 0, IsDigit);
    d > 0 && (d == |n| || (n[d] == '.' && forall i :: d < i < |n| ==> IsDigit(n[i])))
  }

  /** `widthText.match(/^(\d+\.?\d*)px$/)`: the number of a pixel width. */
  function PixelWidth(w: string): (r: Option<string>)
    ensures r.Some? ==> w == r.value + "px" && IsDecimal(r.value)
    ensures r.None? ==> forall n :: IsDecimal(n) ==> w != n + "px"
  {
    if EndsWith(w, "px") && IsDecimal(w[..|w| - 2]) then
      assert w == w[..|w| - 2] + "px";
      Some(w[..|w| - 2])
    else
      assert forall n :: w == n + "px" ==> n == w[..|w| - 2];
      None
  }

  const FigureHead := "\\begin{figure}[h!]\n  \\centering\n  \\includegraphics[width="

  function FigureSource(src: string): string {
    "\\linewidth]{" + src + "}\n"
  }

  /** An `img` as a `figure`: the source is required, the caption and label appear only when non-empty. */
  function Figure(f: Foreign, attrs: seq<Attribute>): Result<string, Error> {
    var src := FindAttr(attrs, "src");
    if src.None? then Err(ImgWithoutSrc)
    else
      var style := FindAttr(attrs, "style");
      var px := if style.Some? then PixelWidth(WidthText(style.value)) else None;
      var width := if px.Some? then f.lineWidth(px.value) else "1";
      var alt := FindAttr(attrs, "alt");
      var title := FindAttr(attrs, "title");
      Ok(FigureHead + width + FigureSource(src.value)
         + (if Truthy(alt) then "  \\caption{" + TransformText(alt.value) + "}\n" else "")
         + (if Truthy(title) then "  \\label{figure:" + title.value + "}\n" else "")
         + "\\end{figure}")
  }

  // ---------------------------------------------------------------- anchors

  /**
   * What an `a` renders to before any format is applied, or nothing when it
   * is neither a footnote mark nor a link (it is then formatted like a span).
   */
  function Anchor(f: Foreign, attrs: seq<Attribute>, text: string): Option<string> {
    var id := FindAttr(attrs, "id");
    var href := FindAttr(attrs, "href");
    if id.Some? && StartsWith(id.value, "ftnt_") then
      Some("\\cite{" + id.value[5..] + "}")
    else if href.Some? && StartsWith(href.value, "#ftnt_") then
      Some("FOOTNOTE<" + href.value[6..] + ">")
    else if href.None? then None
    else if StartsWith(href.value, "#") then
      Some("\\hyperref[id:" + href.value[1..] + "]{" + text + "}")
    else if StartsWith(href.value, "https://www.google.com/url?") && f.redirectTarget(href.value).Some? then
      Some("\\href{" + TransformText(f.redirectTarget(href.value).value) + "}{" + text + "}")
    else
      Some("\\href{" + TransformText(href.value) + "}{" + text + "}")
  }

  // ---------------------------------------------------------------- formats

  /** The tags inline mode formats. */
  predicate IsInline(tag: string) {
    tag in ["p", "span", "sup", "sub", "a", "li", "td"]
  }

  function Wrap(s: string, on: bool, open: string, close: string): string {
    if on then open + s + close else s
  }

  /** The chain of format wraps, each applied when one of its selectors matches the element. */
  function Formats(tfs: TextFormatSelectors, attrs: seq<Attribute>, tag: string, s: string): Result<string, Error> {
    var bold :- Css.SelectorMatches(attrs, tag, tfs.bold);
    var s1 := Wrap(s, bold, "\\textbf{", "}");
    var italic :- Css.SelectorMatches(attrs, tag, tfs.italic);
    var s2 := Wrap(s1, italic, "\\textit{", "}");
    var underlined :- Css.SelectorMatches(attrs, tag, tfs.underlined);
    var s3 := Wrap(s2, underlined, "\\underline{", "}");
    var superscript :- Css.SelectorMatches(attrs, tag, tfs.superscript);
    var s4 := Wrap(s3, superscript, "\\textsuperscript{", "}");
    var subscript :- Css.SelectorMatches(attrs, tag, tfs.subscript);
    var s5 := Wrap(s4, subscript, "\\textsubscript{", "}");
    var center :- Css.SelectorMatches(attrs, tag, tfs.center);
    var s6 := Wrap(s5, center, "{\\centering ", " \\par}");
    var right :- Css.SelectorMatches(attrs, tag, tfs.right);
    Ok(Wrap(s6, right, "{\\raggedleft ", " \\par}"))
  }

  // ---------------------------------------------------------------- inline mode

  /** `mapText`: the inline rendering of a node. */
  function MapText(tfs: TextFormatSelectors, f: Foreign, node: Node): Result<Option<string>, Error>
    decreases node, 1, 0
  {
    match node
    case Text(content) => Ok(Some(TransformText(content)))
    case Comment(_) => Ok(None)
    case Element(tag, attrs, cs) =>
      if tag == "br" then Ok(Some("\\\\~"))
      else if tag == "img" then
        var figure :- Figure(f, attrs);
        Ok(Some(figure))
      else if cs == [] then Ok(None)
      else
        var parts :- TextParts(tfs, f, node, |cs|);
        var text := Concat(parts);
        if text == "" then Ok(None)
        else if tag == "a" && Anchor(f, attrs, text).Some? then Ok(Anchor(f, attrs, text))
        else if IsInline(tag) then
          var s :- Formats(tfs, attrs, tag, text);
          Ok(Some(s))
        else Err(UnsupportedTag(tag))
  }

  /** The inline renderings of the first `i` children of `parent`, or the first error among them. */
  function TextParts(tfs: TextFormatSelectors, f: Foreign, parent: Node, i: nat): (r: Result<seq<Option<string>>, Error>)
    requires parent.Element? && i <= |parent.children|
    ensures r.Ok? ==> |r.value| == i
    decreases parent, 0, i
  {
    if i == 0 then Ok([])
    else
      var prev :- TextParts(tfs, f, parent, i - 1);
      var last :- MapText(tfs, f, parent.children[i - 1]);
      Ok(prev + [last])
  }

  /** `.map(x => x || '').join('')`: the renderings one after another, with nothing for a missing one. */
  function Concat(parts: seq<Option<string>>): string {
    if parts == [] then "" else Concat(parts[..|parts| - 1]) + OrEmpty(parts[|parts| - 1])
  }

  // ---------------------------------------------------------------- block mode

  /** The sectioning command of a heading tag. */
  function Heading(tag: string): Option<string> {
    if tag == "h1" then Some("section")
    else if tag == "h2" then Some("subsection")
    else if tag == "h3" then Some("subsubsection")
    else if tag == "h4" then Some("subsubsubsection")
    else None
  }

  function Section(command: string, text: string, id: Option<string>): string {
    "\\" + command + "{" + text + "}" + (if id.Some? then "\\label{id:" + id.value + "}" else "")
  }

  /** `.filter(notNully).map(t => '  \\item ' + t)` */
  function Items(parts: seq<Option<string>>): seq<string> {
    if parts == [] then []
    else Items(parts[..|parts| - 1]) + (if Truthy(parts[|parts| - 1]) then ["  \\item " + parts[|parts| - 1].value] else [])
  }

  function ListEnvironment(env: string, parts: seq<Option<string>>): string {
    "\\begin{" + env + "}\n" + Join(Items(parts), "\n") + "\n\\end{" + env + "}"
  }

  /** `.map(x => x || '')` */
  function Cells(parts: seq<Option<string>>): (r: seq<string>)
    ensures |r| == |parts|
    ensures forall i :: 0 <= i < |parts| ==> r[i] == OrEmpty(parts[i])
  {
    seq(|parts|, i requires 0 <= i < |parts| => OrEmpty(parts[i]))
  }

  /** The `tabular` header: one left-aligned column per cell of the first row. */
  function TableHead(columns: nat): string {
    "\\begin{adjustbox}{center}\\begin{tabular}{ |" + Repeat("l|", columns) + " }\n  \\hline\n"
  }

  const TableFoot := "\\end{tabular}\\end{adjustbox}\\\\"

  /** One table row: its cells separated by ` & `, then a line end and a rule. */
  function TableRow(cells: seq<string>): string {
    "  " + Join(cells, " & ") + " \\\\\n  \\hline\n"
  }

  /** The rows of the table body after the first `i` rows, or the first error among them. */
  function TableRows(tfs: TextFormatSelectors, f: Foreign, rows: seq<Node>, i: nat): Result<string, Error>
    requires i <= |rows|
  {
    if i == 0 then Ok("")
    else
      var prev :- TableRows(tfs, f, rows, i - 1);
      var row := rows[i - 1];
      if !row.Element? then Err(TypeError("row.children is undefined"))
      else
        var cells :- TextParts(tfs, f, row, |row.children|);
        Ok(prev + TableRow(Cells(cells)))
  }

  /**
   * A `table` whose first child holds the rows; reading the rows or the first
   * row's cells from anything but an element throws.
   */
  function Table(tfs: TextFormatSelectors, f: Foreign, children: seq<Node>): Result<string, Error>
    requires children != []
  {
    if !children[0].Element? then Err(TypeError("rows is undefined"))
    else
      var rows := children[0].children;
      if rows == [] || !rows[0].Element? then Err(TypeError("rows[0].children is undefined"))
      else
        var body :- TableRows(tfs, f, rows, |rows|);
        Ok(TableHead(|rows[0].children|) + body + TableFoot)
  }

  const FootnoteMark := "FOOTNOTE<"

  /**
   * The content of a `div`: a footnote's payload goes to the bibliography when
   * it is a BibTeX entry and to the footnotes otherwise, and then the div
   * renders nothing; any other content is the div's rendering.
   */
  function Div(content: string, s: Sink): Result<(Option<string>, Sink), Error> {
    if StartsWith(content, FootnoteMark) then
      var key := Slice(content, |FootnoteMark|, IndexOf(content, ">"));
      var payload := Trim(SliceFrom(content, |FootnoteMark| + 1 + |key|));
      if StartsWith(payload, "@") then
        Ok((None, s.(bibtex := Some(AddBibliographyEntry(s.bibtex, Bibtex.Entry(payload, key, Bibtex.AnyKey))))))
      else
        Ok((None, AddFootnote(s, key, payload)))
    else Ok((Some(content), s))
  }

  /** `mapToLatex`: the block rendering of a node, and the accumulator after it. */
  function Latex(tfs: TextFormatSelectors, f: Foreign, s: Sink, node: Node): Result<(Option<string>, Sink), Error>
    decreases node, 1, 0
  {
    match node
    case Text(content) => Ok((Some(TransformText(content)), s))
    case Comment(_) => Ok((None, s))
    case Element(tag, attrs, cs) =>
      if tag == "hr" && attrs == [] then Err(TypeError("attributes[0] is undefined"))
      else if tag == "hr" && attrs[0].key == "style" && Contains(attrs[0].value, "page-break-before:always") then
        Ok((Some("\\pagebreak"), s))
      else if cs == [] then Ok((None, s))
      else if tag == "div" then
        var blocks :- Blocks(tfs, f, s, node, |cs|);
        Div(Join(blocks.0, "\n\n"), blocks.1)
      else if tag == "ul" || tag == "ol" then
        var parts :- TextParts(tfs, f, node, |cs|);
        Ok((Some(ListEnvironment(if tag == "ul" then "itemize" else "enumerate", parts)), s))
      else if tag == "table" then
        var table :- Table(tfs, f, cs);
        Ok((Some(table), s))
      else TextBlock(tfs, f, s, node)
  }

  /**
   * The block elements rendered from their children's inline text: a plain
   * paragraph is rendered as in inline mode; otherwise a non-empty text sets
   * the title or subtitle or becomes a heading, and any other tag throws.
   */
  function TextBlock(tfs: TextFormatSelectors, f: Foreign, s: Sink, node: Node): Result<(Option<string>, Sink), Error>
    requires node.Element? && node.children != []
  {
    var tag, attrs := node.tagName, node.attributes;
    var titleClass :- if tag == "p" then Css.SelectorMatches(attrs, tag, [".title", ".subtitle"]) else Ok(false);
    if tag == "p" && !titleClass then
      var text :- MapText(tfs, f, node);
      Ok((text, s))
    else
      var parts :- TextParts(tfs, f, node, |node.children|);
      var text := Concat(parts);
      if text == "" then Ok((None, s))
      else NamedBlock(s, tag, attrs, text)
  }

  /** A block with text: the title, the subtitle, a heading, or an error naming the tag and its text. */
  function NamedBlock(s: Sink, tag: string, attrs: seq<Attribute>, text: string): Result<(Option<string>, Sink), Error> {
    var isTitle :- Css.SelectorMatches(attrs, tag, [".title"]);
    if isTitle then
      var s' :- SetTitle(s, Title, text);
      Ok((None, s'))
    else
      var isSubtitle :- Css.SelectorMatches(attrs, tag, [".subtitle"]);
      if isSubtitle then
        var s' :- SetTitle(s, Subtitle, text);
        Ok((None, s'))
      else if Heading(tag).Some? then
        Ok((Some(Section(Heading(tag).value, text, FindAttr(attrs, "id"))), s))
      else Err(UnsupportedTagWithContent(tag, text))
  }

  /**
   * The block renderings of the first `i` children of `parent` (a missing one
   * as `''`) and the accumulator after them, or the first error among them.
   */
  function Blocks(tfs: TextFormatSelectors, f: Foreign, s: Sink, parent: Node, i: nat): (r: Result<(seq<string>, Sink), Error>)
    requires parent.Element? && i <= |parent.children|
    ensures r.Ok? ==> |r.value.0| == i
    decreases parent, 0, i
  {
    if i == 0 then Ok(([], s))
    else
      var prev :- Blocks(tfs, f, s, parent, i - 1);
      var last :- Latex(tfs, f, prev.1, parent.children[i - 1]);
      Ok((prev.0 + [OrEmpty(last.0)], last.1))
  }

  // ---------------------------------------------------------------- the wrap order

  /** The seven formats' selector lists, innermost format first. */
  function FormatSelectors(tfs: TextFormatSelectors): seq<seq<string>> {
    [tfs.bold, tfs.italic, tfs.underlined, tfs.superscript, tfs.subscript, tfs.center, tfs.right]
  }

  /** What each format puts before and after the text, innermost format first. */
  const Openings: seq<string> :=
    ["\\textbf{", "\\textit{", "\\underline{", "\\textsuperscript{", "\\textsubscript{", "{\\centering ", "{\\raggedleft "]
  const Closings: seq<string> := ["}", "}", "}", "}", "}", " \\par}", " \\par}"]

  /** What matching each selector list against the element gives, list by list. */
  function Outcomes(attrs: seq<Attribute>, tag: string, lists: seq<seq<string>>): seq<Result<bool, Error>> {
    seq(|lists|, j requires 0 <= j < |lists| => Css.SelectorMatches(attrs, tag, lists[j]))
  }

  /** The values of the first `k` outcomes, or the error of the first of them that is one. */
  function Flags(outcomes: seq<Result<bool, Error>>, k: nat): (r: Result<seq<bool>, Error>)
    requires k <= |outcomes|
    ensures r.Ok? ==> |r.value| == k
  {
    if k == 0 then Ok([])
    else
      var prev :- Flags(outcomes, k - 1);
      var m :- outcomes[k - 1];
      Ok(prev + [m])
  }

  /** Which of the first `k` selector lists match, or the error of the first list that throws. */
  function MatchFlags(attrs: seq<Attribute>, tag: string, lists: seq<seq<string>>, k: nat): Result<seq<bool>, Error>
    requires k <= |lists|
  {
    Flags(Outcomes(attrs, tag, lists), k)
  }

  /** The openings of the matched formats among the first `k`, outermost first. */
  function Opening(flags: seq<bool>, k: nat): string
    requires k <= |flags| && k <= |Openings|
  {
    if k == 0 then "" else (if flags[k - 1] then Openings[k - 1] else "") + Opening(flags, k - 1)
  }

  /** The closings of the matched formats among the first `k`, innermost first. */
  function Closing(flags: seq<bool>, k: nat): string
    requires k <= |flags| && k <= |Closings|
  {
    if k == 0 then "" else Closing(flags, k - 1) + (if flags[k - 1] then Closings[k - 1] else "")
  }

  lemma {:induction false} FlagsAt(outcomes: seq<Result<bool, Error>>, k: nat, j: nat)
    requires j < k <= |outcomes| && Flags(outcomes, k).Ok?
    ensures outcomes[j] == Ok(Flags(outcomes, k).value[j])
    decreases k
  {
    if j < k - 1 {
      FlagsAt(outcomes, k - 1, j);
    }
  }

  lemma {:induction false} FlagsErr(outcomes: seq<Result<bool, Error>>, k: nat) returns (j: nat)
    requires k <= |outcomes| && Flags(outcomes, k).Err?
    ensures j < k && outcomes[j] == Err(Flags(outcomes, k).error)
    ensures forall i :: 0 <= i < j ==> outcomes[i].Ok?
  {
    if Flags(outcomes, k - 1).Err? {
      j := FlagsErr(outcomes, k - 1);
    } else {
      forall i | 0 <= i < k - 1 ensures outcomes[i].Ok? {
        FlagsAt(outcomes, k - 1, i);
      }
      j := k - 1;
    }
  }

  /** A list's flag is what matching it gave. */
  lemma {:induction false} MatchFlagsAt(attrs: seq<Attribute>, tag: string, lists: seq<seq<string>>, k: nat, j: nat)
    requires j < k <= |lists| && MatchFlags(attrs, tag, lists, k).Ok?
    ensures Css.SelectorMatches(attrs, tag, lists[j]) == Ok(MatchFlags(attrs, tag, lists, k).value[j])
  {
    FlagsAt(Outcomes(attrs, tag, lists), k, j);
  }

  /** When the flags are an error, it is the error of the first list that throws. */
  lemma {:induction false} MatchFlagsErr(attrs: seq<Attribute>, tag: string, lists: seq<seq<string>>, k: nat) returns (j: nat)
    requires k <= |lists| && MatchFlags(attrs, tag, lists, k).Err?
    ensures j < k && Css.SelectorMatches(attrs, tag, lists[j]) == Err(MatchFlags(attrs, tag, lists, k).error)
    ensures forall i :: 0 <= i < j ==> Css.SelectorMatches(attrs, tag, lists[i]).Ok?
  {
    var outcomes := Outcomes(attrs, tag, lists);
    j := FlagsErr(outcomes, k);
    forall i | 0 <= i < j ensures Css.SelectorMatches(attrs, tag, lists[i]).Ok? {
      assert outcomes[i].Ok?;
    }
  }

  /** One more wrap adds the next format's opening outside and its closing after. */
  lemma {:induction false} WrapStep(flags: seq<bool>, k: nat, s: string)
    requires k < |flags| && k < |Openings|
    ensures Wrap(Opening(flags, k) + s + Closing(flags, k), flags[k], Openings[k], Closings[k])
            == Opening(flags, k + 1) + s + Closing(flags, k + 1)
  {
    var a, b := Opening(flags, k), Closing(flags, k);
    if flags[k] {
      Nest(Openings[k], a, s, b, Closings[k]);
    } else {
      assert Opening(flags, k + 1) == a;
      assert Closing(flags, k + 1) == b;
    }
  }

  lemma {:induction false} Nest(o: string, a: string, s: string, b: string, c: string)
    ensures o + (a + s + b) + c == (o + a) + s + (b + c)
  {
  }

  /**
   * The wraps nest in the fixed order bold (innermost), italic, underline,
   * superscript, subscript, center, right (outermost), each present exactly
   * when its selectors match.
   */
  lemma {:induction false} FormatsNest(tfs: TextFormatSelectors, attrs: seq<Attribute>, tag: string, s: string)
    requires MatchFlags(attrs, tag, FormatSelectors(tfs), 7).Ok?
    ensures var flags := MatchFlags(attrs, tag, FormatSelectors(tfs), 7).value;
            Formats(tfs, attrs, tag, s) == Ok(Opening(flags, 7) + s + Closing(flags, 7))
  {
    var lists := FormatSelectors(tfs);
    var fl := MatchFlags(attrs, tag, lists, 7).value;
    MatchFlagsAt(attrs, tag, lists, 7, 0);
    MatchFlagsAt(attrs, tag, lists, 7, 1);
    MatchFlagsAt(attrs, tag, lists, 7, 2);
    MatchFlagsAt(attrs, tag, lists, 7, 3);
    MatchFlagsAt(attrs, tag, lists, 7, 4);
    MatchFlagsAt(attrs, tag, lists, 7, 5);
    MatchFlagsAt(attrs, tag, lists, 7, 6);
    assert lists[0] == tfs.bold && lists[1] == tfs.italic && lists[2] == tfs.underlined;
    assert lists[3] == tfs.superscript && lists[4] == tfs.subscript && lists[5] == tfs.center && lists[6] == tfs.right;
    FormatsWrap(tfs, attrs, tag, s, fl);
    WrapsNest(fl, s);
  }

  /** With every selector list matching as `fl` says, the chain is the seven wraps. */
  lemma {:induction false} FormatsWrap(tfs: TextFormatSelectors, attrs: seq<Attribute>, tag: string, s: string, fl: seq<bool>)
    requires |fl| == 7
    requires Css.SelectorMatches(attrs, tag, tfs.bold) == Ok(fl[0])
    requires Css.SelectorMatches(attrs, tag, tfs.italic) == Ok(fl[1])
    requires Css.SelectorMatches(attrs, tag, tfs.underlined) == Ok(fl[2])
    requires Css.SelectorMatches(attrs, tag, tfs.superscript) == Ok(fl[3])
    requires Css.SelectorMatches(attrs, tag, tfs.subscript) == Ok(fl[4])
    requires Css.SelectorMatches(attrs, tag, tfs.center) == Ok(fl[5])
    requires Css.SelectorMatches(attrs, tag, tfs.right) == Ok(fl[6])
    ensures Formats(tfs, attrs, tag, s) == Ok(Wraps(fl, s))
  {
  }

  /** The seven wraps applied one after the other, as the flags say. */
  function Wraps(fl: seq<bool>, s: string): string
    requires |fl| == 7
  {
    var s1 := Wrap(s, fl[0], "\\textbf{", "}");
    var s2 := Wrap(s1, fl[1], "\\textit{", "}");
    var s3 := Wrap(s2, fl[2], "\\underline{", "}");
    var s4 := Wrap(s3, fl[3], "\\textsuperscript{", "}");
    var s5 := Wrap(s4, fl[4], "\\textsubscript{", "}");
    var s6 := Wrap(s5, fl[5], "{\\centering ", " \\par}");
    Wrap(s6, fl[6], "{\\raggedleft ", " \\par}")
  }

  lemma {:induction false} WrapsNest(fl: seq<bool>, s: string)
    requires |fl| == 7
    ensures Wraps(fl, s) == Opening(fl, 7) + s + Closing(fl, 7)
  {
    assert Opening(fl, 0) + s + Closing(fl, 0) == s;
    WrapStep(fl, 0, s);
    WrapStep(fl, 1, s);
    WrapStep(fl, 2, s);
    WrapStep(fl, 3, s);
    WrapStep(fl, 4, s);
    WrapStep(fl, 5, s);
    WrapStep(fl, 6, s);
  }

  /** A selector that throws makes the whole chain throw, with the first such error. */
  lemma {:induction false} FormatsThrow(tfs: TextFormatSelectors, attrs: seq<Attribute>, tag: string, s: string)
    requires MatchFlags(attrs, tag, FormatSelectors(tfs), 7).Err?
    ensures Formats(tfs, attrs, tag, s) == Err(MatchFlags(attrs, tag, FormatSelectors(tfs), 7).error)
  {
    var lists := FormatSelectors(tfs);
    var j := MatchFlagsErr(attrs, tag, lists, 7);
    var e := MatchFlags(attrs, tag, lists, 7).error;
    assert lists[0] == tfs.bold && lists[1] == tfs.italic && lists[2] == tfs.underlined;
    assert lists[3] == tfs.superscript && lists[4] == tfs.subscript && lists[5] == tfs.center && lists[6] == tfs.right;
    if j == 0 {
      assert Css.SelectorMatches(attrs, tag, tfs.bold) == Err(e);
    } else if j == 1 {
      assert Css.SelectorMatches(attrs, tag, tfs.italic) == Err(e);
    } else if j == 2 {
      assert Css.SelectorMatches(attrs, tag, tfs.underlined) == Err(e);
    } else if j == 3 {
      assert Css.SelectorMatches(attrs, tag, tfs.superscript) == Err(e);
    } else if j == 4 {
      assert Css.SelectorMatches(attrs, tag, tfs.subscript) == Err(e);
    } else if j == 5 {
      assert Css.SelectorMatches(attrs, tag, tfs.center) == Err(e);
    } else {
      assert Css.SelectorMatches(attrs, tag, tfs.right) == Err(e);
    }
  }

  // ---------------------------------------------------------------- what each mode renders

  /** An element without children renders nothing, except the self-contained `br`, `img` and `hr`. */
  lemma {:induction false} ChildlessRendersNothing(tfs: TextFormatSelectors, f: Foreign, s: Sink, tag: string, attrs: seq<Attribute>)
    ensures tag != "br" && tag != "img" ==> MapText(tfs, f, Element(tag, attrs, [])) == Ok(None)
    ensures tag != "hr" ==> Latex(tfs, f, s, Element(tag, attrs, [])) == Ok((None, s))
  {
  }

  /** In inline mode, a tag other than the formatted ones, `br` and `img` throws once its children render to some text. */
  lemma {:induction false} InlineUnsupported(tfs: TextFormatSelectors, f: Foreign, tag: string, attrs: seq<Attribute>, cs: seq<Node>)
    requires tag != "br" && tag != "img" && !IsInline(tag) && cs != []
    requires TextParts(tfs, f, Element(tag, attrs, cs), |cs|).Ok?
    requires Concat(TextParts(tfs, f, Element(tag, attrs, cs), |cs|).value) != ""
    ensures MapText(tfs, f, Element(tag, attrs, cs)) == Err(UnsupportedTag(tag))
  {
  }

  /** In inline mode, a formatted tag renders its children's text inside the wraps its selectors call for. */
  lemma {:induction false} InlineFormatted(tfs: TextFormatSelectors, f: Foreign, tag: string, attrs: seq<Attribute>, cs: seq<Node>)
    requires IsInline(tag) && tag != "a" && cs != []
    requires TextParts(tfs, f, Element(tag, attrs, cs), |cs|).Ok?
    requires Concat(TextParts(tfs, f, Element(tag, attrs, cs), |cs|).value) != ""
    requires MatchFlags(attrs, tag, FormatSelectors(tfs), 7).Ok?
    ensures var text := Concat(TextParts(tfs, f, Element(tag, attrs, cs), |cs|).value);
            var flags := MatchFlags(attrs, tag, FormatSelectors(tfs), 7).value;
            MapText(tfs, f, Element(tag, attrs, cs)) == Ok(Some(Opening(flags, 7) + text + Closing(flags, 7)))
  {
    var text := Concat(TextParts(tfs, f, Element(tag, attrs, cs), |cs|).value);
    FormatsNest(tfs, attrs, tag, text);
    InlineText(tfs, f, tag, attrs, cs);
  }

  /** A formatted tag with text renders as the format chain over that text. */
  lemma {:induction false} InlineText(tfs: TextFormatSelectors, f: Foreign, tag: string, attrs: seq<Attribute>, cs: seq<Node>)
    requires IsInline(tag) && tag != "a" && cs != []
    requires TextParts(tfs, f, Element(tag, attrs, cs), |cs|).Ok?
    requires Concat(TextParts(tfs, f, Element(tag, attrs, cs), |cs|).value) != ""
    requires Formats(tfs, attrs, tag, Concat(TextParts(tfs, f, Element(tag, attrs, cs), |cs|).value)).Ok?
    ensures var text := Concat(TextParts(tfs, f, Element(tag, attrs, cs), |cs|).value);
            MapText(tfs, f, Element(tag, attrs, cs)) == Ok(Some(Formats(tfs, attrs, tag, text).value))
  {
    assert tag != "br" && tag != "img";
  }

  /**
   * In block mode, an element with text that is not a title, subtitle or
   * heading, nor one of the tags block mode handles itself, throws.
   */
  lemma {:induction false} BlockUnsupported(tfs: TextFormatSelectors, f: Foreign, s: Sink, tag: string, attrs: seq<Attribute>, cs: seq<Node>)
    requires tag !in ["hr", "div", "ul", "ol", "table", "p", "h1", "h2", "h3", "h4"] && cs != []
    requires !Css.ClassMatches(Css.ClassValue(attrs), "title") && !Css.ClassMatches(Css.ClassValue(attrs), "subtitle")
    requires TextParts(tfs, f, Element(tag, attrs, cs), |cs|).Ok?
    requires Concat(TextParts(tfs, f, Element(tag, attrs, cs), |cs|).value) != ""
    ensures var text := Concat(TextParts(tfs, f, Element(tag, attrs, cs), |cs|).value);
            Latex(tfs, f, s, Element(tag, attrs, cs)) == Err(UnsupportedTagWithContent(tag, text))
  {
    var node := Element(tag, attrs, cs);
    var text := Concat(TextParts(tfs, f, node, |cs|).value);
    LatexOfTextBlock(tfs, f, s, node);
    TextBlockNamed(tfs, f, s, node);
    NamedBlockUnsupported(s, tag, attrs, text);
  }

  /** Text under a tag that is neither a heading nor of class `title` or `subtitle` throws. */
  lemma {:induction false} NamedBlockUnsupported(s: Sink, tag: string, attrs: seq<Attribute>, text: string)
    requires tag !in ["h1", "h2", "h3", "h4"]
    requires !Css.ClassMatches(Css.ClassValue(attrs), "title") && !Css.ClassMatches(Css.ClassValue(attrs), "subtitle")
    ensures NamedBlock(s, tag, attrs, text) == Err(UnsupportedTagWithContent(tag, text))
  {
    ClassSelectors(attrs, tag);
    assert Heading(tag) == None;
  }

  /** Outside a plain paragraph, an element with text is rendered by its name and classes. */
  lemma {:induction false} TextBlockNamed(tfs: TextFormatSelectors, f: Foreign, s: Sink, node: Node)
    requires node.Element? && node.children != [] && node.tagName != "p"
    requires TextParts(tfs, f, node, |node.children|).Ok?
    requires Concat(TextParts(tfs, f, node, |node.children|).value) != ""
    ensures TextBlock(tfs, f, s, node)
            == NamedBlock(s, node.tagName, node.attributes, Concat(TextParts(tfs, f, node, |node.children|).value))
  {
  }

  /** Elements with children and none of the tags block mode treats apart are rendered from their text. */
  lemma {:induction false} LatexOfTextBlock(tfs: TextFormatSelectors, f: Foreign, s: Sink, node: Node)
    requires node.Element? && node.children != [] && node.tagName !in ["hr", "div", "ul", "ol", "table"]
    ensures Latex(tfs, f, s, node) == TextBlock(tfs, f, s, node)
  {
  }

  /** The class selectors block mode tests never throw: they test the class attribute's tokens. */
  lemma {:induction false} ClassSelectors(attrs: seq<Attribute>, tag: string)
    ensures var title := Css.ClassMatches(Css.ClassValue(attrs), "title");
            var subtitle := Css.ClassMatches(Css.ClassValue(attrs), "subtitle");
            && Css.SelectorMatches(attrs, tag, [".title"]) == Ok(title)
            && Css.SelectorMatches(attrs, tag, [".subtitle"]) == Ok(subtitle)
            && Css.SelectorMatches(attrs, tag, [".title", ".subtitle"]) == Ok(title || subtitle)
  {
    assert StartsWith(".title", ".") && ".title"[1..] == "title";
    assert StartsWith(".subtitle", ".") && ".subtitle"[1..] == "subtitle";
    assert [".title", ".subtitle"][1..] == [".subtitle"];
  }

  /** An element of class `title` with text sets the title (once) and renders nothing. */
  lemma {:induction false} TitleElement(tfs: TextFormatSelectors, f: Foreign, s: Sink, tag: string, attrs: seq<Attribute>, cs: seq<Node>)
    requires tag !in ["hr", "div", "ul", "ol", "table"] && cs != []
    requires Css.ClassMatches(Css.ClassValue(attrs), "title")
    requires TextParts(tfs, f, Element(tag, attrs, cs), |cs|).Ok?
    requires Concat(TextParts(tfs, f, Element(tag, attrs, cs), |cs|).value) != ""
    ensures var text := Concat(TextParts(tfs, f, Element(tag, attrs, cs), |cs|).value);
            var r := Latex(tfs, f, s, Element(tag, attrs, cs));
            && (Truthy(s.title) ==> r == Err(DuplicateTitle(Title, s.title.value, text)))
            && (!Truthy(s.title) ==> r == Ok((None, s.(title := Some(text)))))
  {
    var node := Element(tag, attrs, cs);
    var text := Concat(TextParts(tfs, f, node, |cs|).value);
    ClassSelectors(attrs, tag);
    LatexOfTextBlock(tfs, f, s, node);
    assert TextBlock(tfs, f, s, node) == NamedBlock(s, tag, attrs, text);
    TitleBlock(s, tag, attrs, text);
  }

  lemma {:induction false} TitleBlock(s: Sink, tag: string, attrs: seq<Attribute>, text: string)
    requires Css.ClassMatches(Css.ClassValue(attrs), "title")
    ensures NamedBlock(s, tag, attrs, text) == (var r := SetTitle(s, Title, text); if r.Ok? then Ok((None, r.value)) else Err(r.error))
  {
    ClassSelectors(attrs, tag);
  }

  /** A heading renders as its sectioning command, labelled with its `id` when it has one. */
  lemma {:induction false} HeadingRendered(tfs: TextFormatSelectors, f: Foreign, s: Sink, tag: string, attrs: seq<Attribute>, cs: seq<Node>)
    requires tag in ["h1", "h2", "h3", "h4"] && cs != []
    requires !Css.ClassMatches(Css.ClassValue(attrs), "title") && !Css.ClassMatches(Css.ClassValue(attrs), "subtitle")
    requires TextParts(tfs, f, Element(tag, attrs, cs), |cs|).Ok?
    requires Concat(TextParts(tfs, f, Element(tag, attrs, cs), |cs|).value) != ""
    ensures var text := Concat(TextParts(tfs, f, Element(tag, attrs, cs), |cs|).value);
            var id := FindAttr(attrs, "id");
            var tail := if id.Some? then "\\label{id:" + id.value + "}" else "";
            var r := Latex(tfs, f, s, Element(tag, attrs, cs));
            && (tag == "h1" ==> r == Ok((Some("\\section{" + text + "}" + tail), s)))
            && (tag == "h2" ==> r == Ok((Some("\\subsection{" + text + "}" + tail), s)))
            && (tag == "h3" ==> r == Ok((Some("\\subsubsection{" + text + "}" + tail), s)))
            && (tag == "h4" ==> r == Ok((Some("\\subsubsubsection{" + text + "}" + tail), s)))
  {
    var node := Element(tag, attrs, cs);
    var text := Concat(TextParts(tfs, f, node, |cs|).value);
    LatexOfTextBlock(tfs, f, s, node);
    TextBlockNamed(tfs, f, s, node);
    HeadingBlock(s, tag, attrs, text);
  }

  lemma {:induction false} HeadingBlock(s: Sink, tag: string, attrs: seq<Attribute>, text: string)
    requires tag in ["h1", "h2", "h3", "h4"]
    requires !Css.ClassMatches(Css.ClassValue(attrs), "title") && !Css.ClassMatches(Css.ClassValue(attrs), "subtitle")
    ensures var id := FindAttr(attrs, "id");
            var tail := if id.Some? then "\\label{id:" + id.value + "}" else "";
            var r := NamedBlock(s, tag, attrs, text);
            && (tag == "h1" ==> r == Ok((Some("\\section{" + text + "}" + tail), s)))
            && (tag == "h2" ==> r == Ok((Some("\\subsection{" + text + "}" + tail), s)))
            && (tag == "h3" ==> r == Ok((Some("\\subsubsection{" + text + "}" + tail), s)))
            && (tag == "h4" ==> r == Ok((Some("\\subsubsubsection{" + text + "}" + tail), s)))
  {
    ClassSelectors(attrs, tag);
    assert NamedBlock(s, tag, attrs, text) == Ok((Some(Section(Heading(tag).value, text, FindAttr(attrs, "id"))), s));
    HeadingCommands();
  }

  lemma HeadingCommands()
    ensures "\\" + "section" + "{" == "\\section{"
    ensures "\\" + "subsection" + "{" == "\\subsection{"
    ensures "\\" + "subsubsection" + "{" == "\\subsubsection{"
    ensures "\\" + "subsubsubsection" + "{" == "\\subsubsubsection{"
  {
  }

  // ---------------------------------------------------------------- footnotes

  /** An anchor to footnote `k` renders the mark `FOOTNOTE<k>` and nothing of its own text. */
  lemma {:induction false} AnchorMarksFootnote(f: Foreign, attrs: seq<Attribute>, text: string, k: string)
    requires FindAttr(attrs, "href") == Some("#ftnt_" + k)
    requires FindAttr(attrs, "id").None? || !StartsWith(FindAttr(attrs, "id").value, "ftnt_")
    ensures Anchor(f, attrs, text) == Some(FootnoteMark + k + ">")
  {
    assert ("#ftnt_" + k)[6..] == k;
  }

  /** An anchor with id `ftnt_k`, the footnote's mark in the body, renders `\cite{k}`. */
  lemma {:induction false} AnchorCitesFootnote(f: Foreign, attrs: seq<Attribute>, text: string, k: string)
    requires FindAttr(attrs, "id") == Some("ftnt_" + k)
    ensures Anchor(f, attrs, text) == Some("\\cite{" + k + "}")
  {
    assert ("ftnt_" + k)[5..] == k;
  }

  /**
   * A div whose content is a footnote mark for `k` followed by the payload
   * renders nothing: a trimmed payload starting with `@` is added to the
   * bibliography as an entry keyed `k`, any other is stored as footnote `k`.
   */
  lemma {:induction false} DivFootnote(k: string, rest: string, s: Sink)
    requires '>' !in k
    ensures var payload := Trim(rest);
            Div(FootnoteMark + k + ">" + rest, s) == Ok((None,
              if StartsWith(payload, "@")
              then s.(bibtex := Some(AddBibliographyEntry(s.bibtex, Bibtex.Entry(payload, k, Bibtex.AnyKey))))
              else AddFootnote(s, k, payload)))
  {
    var content := FootnoteMark + k + ">" + rest;
    var n := |FootnoteMark| + |k|;
    assert content[..|FootnoteMark|] == FootnoteMark;
    assert content[n] == '>';
    assert OccursAt(content, ">", n) by { assert content[n..n + 1] == ">"; }
    forall j | 0 <= j < n ensures !OccursAt(content, ">", j) {
      if j < |FootnoteMark| {
        assert content[j] == FootnoteMark[j];
      } else {
        assert content[j] == k[j - |FootnoteMark|];
      }
      assert content[j..j + 1][0] == content[j];
    }
    IndexOfIs(content, ">", n);
    assert Slice(content, |FootnoteMark|, n) == k by { assert content[|FootnoteMark|..n] == k; }
    assert SliceFrom(content, n + 1) == rest by { assert content[n + 1..] == rest; }
  }

  /** Content that does not start with the mark is the div's rendering. */
  lemma {:induction false} DivPlain(content: string, s: Sink)
    requires !StartsWith(content, FootnoteMark)
    ensures Div(content, s) == Ok((Some(content), s))
  {
  }

  /**
   * A div whose first child renders to nothing still gives that child an
   * empty block, so the joined content starts with the blank line and a
   * footnote mark after it is not recognised: the div keeps the mark as text
   * and the accumulator gains no footnote.
   */
  lemma {:induction false} DivLeadingCommentHidesFootnote(tfs: TextFormatSelectors, f: Foreign, s: Sink, attrs: seq<Attribute>,
                                                          c: string, second: Node, rest: string, s1: Sink)
    requires Latex(tfs, f, s, second) == Ok((Some(FootnoteMark + rest), s1))
    ensures Latex(tfs, f, s, Element("div", attrs, [Comment(c), second]))
            == Ok((Some("\n\n" + FootnoteMark + rest), s1))
  {
    var node := Element("div", attrs, [Comment(c), second]);
    var content := "\n\n" + FootnoteMark + rest;
    assert node.children[0] == Comment(c) && node.children[1] == second;
    assert Blocks(tfs, f, s, node, 1) == Ok(([""], s)) by {
      assert Blocks(tfs, f, s, node, 0) == Ok(([], s));
      assert Latex(tfs, f, s, Comment(c)) == Ok((None, s));
      assert [] + [OrEmpty(None)] == [""];
    }
    assert Blocks(tfs, f, s, node, 2) == Ok((["", FootnoteMark + rest], s1)) by {
      assert [""] + [OrEmpty(Some(FootnoteMark + rest))] == ["", FootnoteMark + rest];
    }
    assert Join(["", FootnoteMark + rest], "\n\n") == content by {
      JoinCons("", [FootnoteMark + rest], "\n\n");
    }
    assert !StartsWith(content, FootnoteMark) by {
      assert content[0] != FootnoteMark[0];
    }
    DivPlain(content, s1);
  }

  // ---------------------------------------------------------------- images, links, lists and tables

  /** An image without a `src` throws; a line break renders the same whatever it holds. */
  lemma {:induction false} SelfContained(tfs: TextFormatSelectors, f: Foreign, attrs: seq<Attribute>, cs: seq<Node>)
    ensures FindAttr(attrs, "src").None? ==> MapText(tfs, f, Element("img", attrs, cs)) == Err(ImgWithoutSrc)
    ensures MapText(tfs, f, Element("br", attrs, cs)) == Ok(Some("\\\\~"))
  {
  }

  /**
   * An image with a source and no style is a figure a full line wide of that
   * source; the escaped `alt` text is its caption and the `title` its label,
   * each only when present and non-empty.
   */
  lemma {:induction false} ImageRendered(tfs: TextFormatSelectors, f: Foreign, attrs: seq<Attribute>, cs: seq<Node>, src: string)
    requires FindAttr(attrs, "src") == Some(src) && FindAttr(attrs, "style").None?
    ensures var alt, title := FindAttr(attrs, "alt"), FindAttr(attrs, "title");
            MapText(tfs, f, Element("img", attrs, cs))
            == Ok(Some(FigureHead + "1" + FigureSource(src)
                       + (if alt.Some? && alt.value != "" then "  \\caption{" + TransformText(alt.value) + "}\n" else "")
                       + (if title.Some? && title.value != "" then "  \\label{figure:" + title.value + "}\n" else "")
                       + "\\end{figure}"))
  {
    ImageIsFigure(tfs, f, attrs, cs);
  }

  /**
   * The `width:` of an image's style, when it is a number of pixels, sets
   * the figure's width to that number's share of the line.
   */
  lemma {:induction false} ImageWidth(tfs: TextFormatSelectors, f: Foreign, attrs: seq<Attribute>, cs: seq<Node>,
                                      src: string, style: string, n: string)
    requires FindAttr(attrs, "src") == Some(src) && FindAttr(attrs, "style") == Some(style)
    requires WidthText(style) == n + "px" && IsDecimal(n)
    ensures MapText(tfs, f, Element("img", attrs, cs)).Ok?
    ensures var r := MapText(tfs, f, Element("img", attrs, cs)).value;
            r.Some? && StartsWith(r.value, FigureHead + f.lineWidth(n) + FigureSource(src))
  {
    FigureOfPixels(f, attrs, src, style, n);
    ImageIsFigure(tfs, f, attrs, cs);
  }

  lemma ImageIsFigure(tfs: TextFormatSelectors, f: Foreign, attrs: seq<Attribute>, cs: seq<Node>)
    requires Figure(f, attrs).Ok?
    ensures MapText(tfs, f, Element("img", attrs, cs)) == Ok(Some(Figure(f, attrs).value))
  {
  }

  lemma FigureOfPixels(f: Foreign, attrs: seq<Attribute>, src: string, style: string, n: string)
    requires FindAttr(attrs, "src") == Some(src) && FindAttr(attrs, "style") == Some(style)
    requires WidthText(style) == n + "px" && IsDecimal(n)
    ensures Figure(f, attrs).Ok? && StartsWith(Figure(f, attrs).value, FigureHead + f.lineWidth(n) + FigureSource(src))
  {
    PixelWidthOf(n);
    var alt, title := FindAttr(attrs, "alt"), FindAttr(attrs, "title");
    var head := FigureHead + f.lineWidth(n) + FigureSource(src);
    var cap := if Truthy(alt) then "  \\caption{" + TransformText(alt.value) + "}\n" else "";
    var lab := if Truthy(title) then "  \\label{figure:" + title.value + "}\n" else "";
    assert Figure(f, attrs).value == head + cap + lab + "\\end{figure}";
    StartsWithConcat(head, cap, lab, "\\end{figure}");
  }

  lemma StartsWithConcat(p: string, x: string, y: string, z: string)
    ensures StartsWith(p + x + y + z, p)
  {
    assert (p + x + y + z)[..|p|] == p;
  }

  /** The number read from a pixel width is the one written. */
  lemma PixelWidthOf(n: string)
    requires IsDecimal(n)
    ensures PixelWidth(n + "px") == Some(n)
  {
    var w := n + "px";
    assert w[..|w| - 2] == n;
  }

  /**
   * A link that is not a footnote's: to a place in the document it becomes a
   * `\hyperref` to that place's label, to anywhere else an `\href` to the
   * escaped address, which for a search-engine redirect is its target when
   * one can be read from it.
   */
  lemma {:induction false} AnchorLinks(f: Foreign, attrs: seq<Attribute>, text: string, target: string)
    requires FindAttr(attrs, "id").None? && FindAttr(attrs, "href") == Some(target)
    requires !StartsWith(target, "#ftnt_")
    ensures StartsWith(target, "#") ==> Anchor(f, attrs, text) == Some("\\hyperref[id:" + target[1..] + "]{" + text + "}")
    ensures !StartsWith(target, "#") ==>
              var address := if StartsWith(target, "https://www.google.com/url?") && f.redirectTarget(target).Some?
                             then f.redirectTarget(target).value else target;
              Anchor(f, attrs, text) == Some("\\href{" + TransformText(address) + "}{" + text + "}")
  {
  }

  /** `.filter(notNully).map(t => '  \\item ' + t)` keeps every rendering that has text, in order. */
  lemma {:induction false} ItemsOfPresent(parts: seq<Option<string>>)
    requires forall i :: 0 <= i < |parts| ==> Truthy(parts[i])
    ensures |Items(parts)| == |parts|
    ensures forall i :: 0 <= i < |parts| ==> Items(parts)[i] == "  \\item " + OrEmpty(parts[i])
    decreases |parts|
  {
    if parts != [] {
      ItemsOfPresent(parts[..|parts| - 1]);
    }
  }

  /** ... and drops a rendering that is missing or empty. */
  lemma {:induction false} ItemsDropEmpty(parts: seq<Option<string>>, p: Option<string>)
    requires !Truthy(p)
    ensures Items(parts + [p]) == Items(parts)
  {
    assert (parts + [p])[..|parts|] == parts;
  }

  /**
   * A `ul` is an `itemize` and an `ol` an `enumerate` environment with one
   * item per child that renders to some text, in order.
   */
  lemma {:induction false} ListRendered(tfs: TextFormatSelectors, f: Foreign, s: Sink, tag: string, attrs: seq<Attribute>, cs: seq<Node>)
    requires (tag == "ul" || tag == "ol") && cs != []
    requires TextParts(tfs, f, Element(tag, attrs, cs), |cs|).Ok?
    requires forall i :: 0 <= i < |cs| ==> Truthy(TextParts(tfs, f, Element(tag, attrs, cs), |cs|).value[i])
    ensures var parts := TextParts(tfs, f, Element(tag, attrs, cs), |cs|).value;
            var env := if tag == "ul" then "itemize" else "enumerate";
            var items := seq(|cs|, i requires 0 <= i < |cs| => "  \\item " + OrEmpty(parts[i]));
            Latex(tfs, f, s, Element(tag, attrs, cs)) == Ok((Some("\\begin{" + env + "}\n" + Join(items, "\n") + "\n\\end{" + env + "}"), s))
  {
    var parts := TextParts(tfs, f, Element(tag, attrs, cs), |cs|).value;
    var env := if tag == "ul" then "itemize" else "enumerate";
    ListLatex(tfs, f, s, tag, attrs, cs);
    ItemsOfPresent(parts);
    assert Items(parts) == seq(|cs|, i requires 0 <= i < |cs| => "  \\item " + OrEmpty(parts[i]));
  }

  lemma {:induction false} ListLatex(tfs: TextFormatSelectors, f: Foreign, s: Sink, tag: string, attrs: seq<Attribute>, cs: seq<Node>)
    requires (tag == "ul" || tag == "ol") && cs != []
    requires TextParts(tfs, f, Element(tag, attrs, cs), |cs|).Ok?
    ensures Latex(tfs, f, s, Element(tag, attrs, cs))
            == Ok((Some(ListEnvironment(if tag == "ul" then "itemize" else "enumerate", TextParts(tfs, f, Element(tag, attrs, cs), |cs|).value)), s))
  {
  }

  /**
   * An `hr` is a page break when its first attribute is a style asking for
   * one; reading the first attribute of an `hr` that has none throws.
   */
  lemma {:induction false} PageBreak(tfs: TextFormatSelectors, f: Foreign, s: Sink, attrs: seq<Attribute>, cs: seq<Node>)
    ensures attrs == [] ==> Latex(tfs, f, s, Element("hr", attrs, cs)) == Err(TypeError("attributes[0] is undefined"))
    ensures attrs != [] && attrs[0].key == "style" && Contains(attrs[0].value, "page-break-before:always")
            ==> Latex(tfs, f, s, Element("hr", attrs, cs)) == Ok((Some("\\pagebreak"), s))
  {
  }

  /** A row that is not an element makes the whole table throw, unless an earlier row already did. */
  lemma {:induction false} TableRowThrows(tfs: TextFormatSelectors, f: Foreign, rows: seq<Node>, k: nat)
    requires k < |rows| && !rows[k].Element? && TableRows(tfs, f, rows, k).Ok?
    ensures TableRows(tfs, f, rows, |rows|) == Err(TypeError("row.children is undefined"))
  {
    TableRowsErrStays(tfs, f, rows, k + 1, |rows|);
  }

  /**
   * A table is its header, with as many columns as the first row has
   * cells, then its rows, then its footer; a table whose rows cannot be
   * read throws.
   */
  lemma {:induction false} TableFrame(tfs: TextFormatSelectors, f: Foreign, children: seq<Node>)
    requires children != []
    ensures !children[0].Element? ==> Table(tfs, f, children) == Err(TypeError("rows is undefined"))
    ensures children[0].Element? && children[0].children == [] ==> Table(tfs, f, children) == Err(TypeError("rows[0].children is undefined"))
    ensures children[0].Element? && children[0].children != [] && children[0].children[0].Element?
            && TableRows(tfs, f, children[0].children, |children[0].children|).Ok?
            ==> var t := Table(tfs, f, children);
                t.Ok? && StartsWith(t.value, TableHead(|children[0].children[0].children|)) && EndsWith(t.value, TableFoot)
  {
    if children[0].Element? && children[0].children != [] && children[0].children[0].Element?
       && TableRows(tfs, f, children[0].children, |children[0].children|).Ok? {
      var rows := children[0].children;
      var head, body := TableHead(|rows[0].children|), TableRows(tfs, f, rows, |rows|).value;
      var t := head + body + TableFoot;
      assert t[..|head|] == head;
      assert t[|t| - |TableFoot|..] == TableFoot;
    }
  }

  /** A body that renders ends with the line of its last row. */
  lemma TableRowsStep(tfs: TextFormatSelectors, f: Foreign, rows: seq<Node>, i: nat)
    requires 0 < i <= |rows| && TableRows(tfs, f, rows, i).Ok?
    ensures TableRows(tfs, f, rows, i - 1).Ok?
    ensures rows[i - 1].Element? && TextParts(tfs, f, rows[i - 1], |rows[i - 1].children|).Ok?
    ensures TableRows(tfs, f, rows, i).value
            == TableRows(tfs, f, rows, i - 1).value + TableRow(Cells(TextParts(tfs, f, rows[i - 1], |rows[i - 1].children|).value))
  {
  }

  /**
   * The reference form of one table row: `line` is how the table renders
   * `row`, namely the row's cells, one per child of the row, separated by
   * ` & `, then a line end and a rule. It is spelled out from the cells
   * rather than through `TableRow`, and `TableBody` shows that every line of
   * the table's body has this form.
   */
  predicate RowLine(tfs: TextFormatSelectors, f: Foreign, row: Node, line: string) {
    row.Element? && TextParts(tfs, f, row, |row.children|).Ok?
    && var cells := Cells(TextParts(tfs, f, row, |row.children|).value);
       |cells| == |row.children| && line == "  " + Join(cells, " & ") + " \\\\\n  \\hline\n"
  }

  lemma RowLineOf(tfs: TextFormatSelectors, f: Foreign, row: Node)
    requires row.Element? && TextParts(tfs, f, row, |row.children|).Ok?
    ensures RowLine(tfs, f, row, TableRow(Cells(TextParts(tfs, f, row, |row.children|).value)))
  {
  }

  /** The table body has one line per row, in order. */
  lemma {:induction false} TableBody(tfs: TextFormatSelectors, f: Foreign, rows: seq<Node>, i: nat) returns (lines: seq<string>)
    requires i <= |rows| && TableRows(tfs, f, rows, i).Ok?
    ensures |lines| == i && TableRows(tfs, f, rows, i).value == Join(lines, "")
    ensures forall r :: 0 <= r < i ==> RowLine(tfs, f, rows[r], lines[r])
    decreases i
  {
    if i == 0 {
      lines := [];
    } else {
      TableRowsStep(tfs, f, rows, i);
      var prev := TableBody(tfs, f, rows, i - 1);
      var row := rows[i - 1];
      var line := TableRow(Cells(TextParts(tfs, f, row, |row.children|).value));
      lines := prev + [line];
      JoinSnocNoSeparator(prev, line);
      RowLineOf(tfs, f, row);
      forall r | 0 <= r < i ensures RowLine(tfs, f, rows[r], lines[r]) {
        if r < i - 1 {
          assert lines[r] == prev[r];
        }
      }
    }
  }


  // ---------------------------------------------------------------- errors come first

  /** Once the children's inline renderings hit an error, rendering more children keeps it. */
  lemma {:induction false} TextPartsErrStays(tfs: TextFormatSelectors, f: Foreign, parent: Node, i: nat, j: nat)
    requires parent.Element? && i <= j <= |parent.children|
    requires TextParts(tfs, f, parent, i).Err?
    ensures TextParts(tfs, f, parent, j) == TextParts(tfs, f, parent, i)
    decreases j
  {
    if i < j {
      TextPartsErrStays(tfs, f, parent, i, j - 1);
    }
  }

  /** Once the children's block renderings hit an error, rendering more children keeps it. */
  lemma {:induction false} BlocksErrStays(tfs: TextFormatSelectors, f: Foreign, s: Sink, parent: Node, i: nat, j: nat)
    requires parent.Element? && i <= j <= |parent.children|
    requires Blocks(tfs, f, s, parent, i).Err?
    ensures Blocks(tfs, f, s, parent, j) == Blocks(tfs, f, s, parent, i)
    decreases j
  {
    if i < j {
      BlocksErrStays(tfs, f, s, parent, i, j - 1);
    }
  }

  /** Once the rows hit an error, rendering more rows keeps it. */
  lemma {:induction false} TableRowsErrStays(tfs: TextFormatSelectors, f: Foreign, rows: seq<Node>, i: nat, j: nat)
    requires i <= j <= |rows|
    requires TableRows(tfs, f, rows, i).Err?
    ensures TableRows(tfs, f, rows, j) == TableRows(tfs, f, rows, i)
    decreases j
  {
    if i < j {
      TableRowsErrStays(tfs, f, rows, i, j - 1);
    }
  }
}
