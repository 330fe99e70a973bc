/**
 * The conversion of the two earlier versions (`handleElems` and
 * `generateLatexTitle` of `src/index.ts` and of `gdoc2latex.js`): the body's
 * elements are rendered one after another while closures collect the title,
 * the subtitle and the bibliography; the renderings that are not empty are
 * joined by blank lines. `src/index.ts` then insists on a title, a body and
 * a bibliography; `gdoc2latex.js` checks only for the title, when it writes
 * the header.
 */
module EarlyConvert {
  import opened Wrappers
  import opened JsString
  import opened Html
  import opened EarlyText
  import opened EarlyRender
  import Css
  import Bibtex
  import LibSink
  import LibRender
  import LibConvert

  /**
   * A block rendering as the conversion sees it: the text and what was
   * collected after it, or the error. `LibConvert.Agrees` over this
   * version's `Found` in place of the `Sink`.
   */
  predicate Agrees<T(==)>(r: Result<T, Error>, spec: Result<(T, Found), Error>, now: Found) {
    match spec
    case Ok(v) => r == Ok(v.0) && now == v.1
    case Err(e) => r == Err(e)
  }

  /** The variables the closures of `handleElems` share, and the renderer that reports to them. */
  class Collector {
    const version: Version
    var title: Option<string>
    var subtitle: Option<string>
    var bibtex: Option<string>

    function State(): Found
      reads this
    {
      Found(title, subtitle, bibtex)
    }

    constructor (v: Version)
      ensures version == v && State() == Nothing
    {
      version := v;
      title, subtitle, bibtex := None, None, None;
    }

    /** `addBibliographyEntry` */
    method AddBibliographyEntry(entry: string)
      modifies this
      ensures State() == AddEntry(old(State()), entry)
    {
      if Truthy(bibtex) {
        bibtex := Some(bibtex.value + "\n\n" + entry);
      } else {
        bibtex := Some(entry);
      }
    }

    /** `setTitle` */
    method SetTitleOnce(kind: TitleKind, value: string) returns (r: Result<(), Error>)
      modifies this
      ensures var spec := SetTitle(version, old(State()), kind, value);
              && (spec.Ok? ==> r.Ok? && State() == spec.value)
              && (spec.Err? ==> r == Err(spec.error) && State() == old(State()))
    {
      if kind == Title {
        if Truthy(title) {
          return Err(if version == IndexTs then DuplicateTitle(Title, title.value, value) else DuplicateTitleBare(Title));
        }
        title := Some(value);
      } else {
        if Truthy(subtitle) {
          return Err(if version == IndexTs then DuplicateTitle(Subtitle, subtitle.value, value) else DuplicateTitleBare(Subtitle));
        }
        subtitle := Some(value);
      }
      return Ok(());
    }

    /** `mapToLatex`, reporting titles and bibliography entries to this object. */
    method MapToLatex(ts: TextSelectors, node: Node) returns (r: Result<Option<string>, Error>)
      modifies this
      ensures Agrees(r, Latex(version, ts, old(State()), node), State())
      decreases node, 1
    {
      match node
      case Text(content) =>
        return Ok(Some(TransformText(version, content)));
      case Comment(_) =>
        return Ok(None);
      case Element(tag, attrs, cs) =>
        if tag == "hr" && attrs == [] {
          return Err(TypeError("attributes[0] is undefined"));
        } else if tag == "hr" && attrs[0].key == "style" && Contains(attrs[0].value, "page-break-before:always") {
          return Ok(Some("\\pagebreak"));
        } else if cs == [] {
          return Ok(None);
        } else if tag == "div" {
          var parts := MapChildren(ts, node);
          if parts.Err? {
            return Err(parts.error);
          }
          r := DivContent(Join(parts.value, "\n\n"));
        } else if tag == "ul" || tag == "ol" {
          var parts := TextParts(version, ts, node, |cs|);
          if parts.Err? {
            return Err(parts.error);
          }
          return Ok(Some(LibRender.ListEnvironment(if tag == "ul" then "itemize" else "enumerate", parts.value)));
        } else if tag == "table" {
          var table := TableLatex(version, ts, cs);
          if table.Err? {
            return Err(table.error);
          }
          return Ok(Some(table.value));
        } else {
          r := TextBlockOf(ts, node);
        }
    }

    /** `.map(mapToLatex).filter(notNully)` over `parent`'s children, in order. */
    method MapChildren(ts: TextSelectors, parent: Node) returns (r: Result<seq<string>, Error>)
      requires parent.Element?
      modifies this
      ensures Agrees(r, Blocks(version, ts, old(State()), parent, |parent.children|), State())
      decreases parent, 0
    {
      var parts: seq<string> := [];
      for i := 0 to |parent.children|
        invariant Blocks(version, ts, old(State()), parent, i) == Ok((parts, State()))
      {
        ghost var kept := parts;
        var part := MapToLatex(ts, parent.children[i]);
        if part.Err? {
          assert Blocks(version, ts, old(State()), parent, i + 1) == Err(part.error);
          BlocksErrStays(version, ts, old(State()), parent, i + 1, |parent.children|, part.error);
          return Err(part.error);
        }
        assert Blocks(version, ts, old(State()), parent, i + 1) == Ok((Keep(parts, part.value), State()));
        if Truthy(part.value) {
          parts := parts + [part.value.value];
        }
        assert parts == Keep(kept, part.value);
      }
      return Ok(parts);
    }

    /** A div's joined content: a footnote's content goes to the bibliography and renders nothing. */
    method DivContent(content: string) returns (r: Result<Option<string>, Error>)
      modifies this
      ensures Agrees(r, Ok(Div(version, content, old(State()))), State())
    {
      if !StartsWith(content, ReferenceMark) {
        return Ok(Some(content));
      }
      var key := Slice(content, |ReferenceMark|, IndexOf(content, ">"));
      AddBibliographyEntry(Bibtex.Entry(SliceFrom(content, |ReferenceMark| + 1 + |key|), key, KeyShapeOf(version)));
      return Ok(None);
    }

    /** Titles, headings and paragraphs, rendered from their children's inline text. */
    method TextBlockOf(ts: TextSelectors, node: Node) returns (r: Result<Option<string>, Error>)
      requires node.Element? && node.children != []
      modifies this
      ensures Agrees(r, TextBlock(version, ts, old(State()), node), State())
    {
      var tag, attrs := node.tagName, node.attributes;
      var parts := TextParts(version, ts, node, |node.children|);
      if parts.Err? {
        return Err(parts.error);
      }
      var text := LibRender.Concat(parts.value);
      if text == "" {
        return Ok(None);
      }
      var isTitle := Css.SelectorMatches(attrs, tag, [".title"]);
      if isTitle.Err? {
        return Err(isTitle.error);
      }
      if isTitle.value {
        var outcome := SetTitleOnce(Title, text);
        if outcome.Err? {
          return Err(outcome.error);
        }
        return Ok(None);
      }
      var isSubtitle := Css.SelectorMatches(attrs, tag, [".subtitle"]);
      if isSubtitle.Err? {
        return Err(isSubtitle.error);
      }
      if isSubtitle.value {
        var outcome := SetTitleOnce(Subtitle, text);
        if outcome.Err? {
          return Err(outcome.error);
        }
        return Ok(None);
      }
      if LibRender.Heading(tag).Some? {
        return Ok(Some(LibRender.Section(LibRender.Heading(tag).value, text, None)));
      }
      if tag == "p" {
        return Ok(Some(text));
      }
      return Err(UnsupportedTag(tag));
    }
  }

  /**
   * The table branch: a header sized by the first row, then each row
   * appended in turn. `LibConvert.TableLatex` with this version's renderer.
   */
  method TableLatex(v: Version, ts: TextSelectors, children: seq<Node>) returns (r: Result<string, Error>)
    requires children != []
    ensures r == EarlyRender.Table(v, ts, children)
  {
    if !children[0].Element? {
      return Err(TypeError("rows is undefined"));
    }
    var rows := children[0].children;
    if rows == [] || !rows[0].Element? {
      return Err(TypeError("rows[0].children is undefined"));
    }
    var body := RowsLatex(v, ts, rows);
    if body.Err? {
      return Err(body.error);
    }
    return Ok(TableHead(|rows[0].children|) + body.value + TableFoot);
  }

  /**
   * The loop over the rows: each adds its cells joined by `&`, or the first
   * that cannot be read throws. `LibConvert.RowsLatex` with this version's
   * renderer.
   */
  method RowsLatex(v: Version, ts: TextSelectors, rows: seq<Node>) returns (r: Result<string, Error>)
    ensures r == TableRows(v, ts, rows, |rows|)
  {
    var latex := "";
    for i := 0 to |rows|
      invariant TableRows(v, ts, rows, i) == Ok(latex)
    {
      var row := rows[i];
      if !row.Element? {
        assert TableRows(v, ts, rows, i + 1) == Err(TypeError("row.children is undefined"));
        TableRowsErrStays(v, ts, rows, i + 1, |rows|);
        return Err(TypeError("row.children is undefined"));
      }
      var cells := TextParts(v, ts, row, |row.children|);
      if cells.Err? {
        assert TableRows(v, ts, rows, i + 1) == Err(cells.error);
        TableRowsErrStays(v, ts, rows, i + 1, |rows|);
        return Err(cells.error);
      }
      latex := latex + LibRender.TableRow(LibRender.Cells(cells.value));
    }
    return Ok(latex);
  }

  /** What `handleElems` returns. */
  datatype Gathered = Gathered(title: Option<string>, subtitle: Option<string>, latex: string, bibtex: Option<string>)

  /** `handleElems`: the renderings of the body's elements joined by blank lines, and what was collected. */
  function HandleElems(v: Version, ts: TextSelectors, elems: seq<Node>): Result<Gathered, Error> {
    var walked :- Blocks(v, ts, Nothing, LibConvert.Body(elems), |elems|);
    var latex := Join(walked.0, "\n\n");
    var s := walked.1;
    if v == IndexTs && !Truthy(s.title) then Err(MissingTitle)
    else if v == IndexTs && latex == "" then Err(MissingLatex)
    else if v == IndexTs && !Truthy(s.bibtex) then Err(MissingBibtex)
    else Ok(Gathered(s.title, s.subtitle, latex, s.bibtex))
  }

  /** `handleElems` with the closures over the variables of a fresh collector. */
  method Handle(v: Version, ts: TextSelectors, elems: seq<Node>) returns (r: Result<Gathered, Error>)
    ensures r == HandleElems(v, ts, elems)
  {
    var acc := new Collector(v);
    var parts := acc.MapChildren(ts, LibConvert.Body(elems));
    if parts.Err? {
      return Err(parts.error);
    }
    var latex := Join(parts.value, "\n\n");
    if v == IndexTs {
      if !Truthy(acc.title) {
        return Err(MissingTitle);
      }
      if latex == "" {
        return Err(MissingLatex);
      }
      if !Truthy(acc.bibtex) {
        return Err(MissingBibtex);
      }
    }
    return Ok(Gathered(acc.title, acc.subtitle, latex, acc.bibtex));
  }

  /**
   * `generateLatexTitle`: the title in bold, or the title in bold over the
   * subtitle in large type. The earliest version throws without a title;
   * `src/index.ts` is only ever given one, by `handleElems`. `OrEmpty`
   * prints an absent title as "" where JavaScript would print `undefined`;
   * after that check an absent title cannot reach this function.
   */
  function GenerateLatexTitle(v: Version, title: Option<string>, subtitle: Option<string>): Result<string, Error> {
    if v == LegacyJs && !Truthy(title) then Err(MissingTitle)
    else if !Truthy(subtitle) then Ok("\\title{\\textbf{" + OrEmpty(title) + "}}")
    else Ok("\\title{%\n  \\textbf{" + OrEmpty(title) + "}\n  \\linebreak \\linebreak\n  \\large{" + subtitle.value + "}\n}")
  }

  // ---------------------------------------------------------------- lemmas

  /** `join` of texts that are all non-empty is empty only when there are none. */
  lemma JoinNonEmpty(ps: seq<string>, sep: string)
    requires forall j :: 0 <= j < |ps| ==> ps[j] != ""
    ensures Join(ps, sep) == "" <==> ps == []
  {
    if |ps| > 1 {
      assert |Join(ps, sep)| >= |ps[0]|;
    }
  }

  /**
   * Unlike the current version, `src/index.ts` throws `Missing latex`
   * exactly when no element renders any text: empty renderings are dropped
   * before the join.
   */
  lemma MissingLatexExactly(ts: TextSelectors, elems: seq<Node>)
    requires Blocks(IndexTs, ts, Nothing, LibConvert.Body(elems), |elems|).Ok?
    requires Truthy(Blocks(IndexTs, ts, Nothing, LibConvert.Body(elems), |elems|).value.1.title)
    ensures var walked := Blocks(IndexTs, ts, Nothing, LibConvert.Body(elems), |elems|).value;
            HandleElems(IndexTs, ts, elems) == Err(MissingLatex) <==> walked.0 == []
  {
    var walked := Blocks(IndexTs, ts, Nothing, LibConvert.Body(elems), |elems|).value;
    BlocksNonEmpty(IndexTs, ts, Nothing, LibConvert.Body(elems), |elems|);
    JoinNonEmpty(walked.0, "\n\n");
  }

  /**
   * What `src/index.ts` hands on always has a title, a body and a
   * bibliography; the earliest version hands on whatever was collected, and
   * throws only while rendering.
   */
  lemma HandleElemsChecks(v: Version, ts: TextSelectors, elems: seq<Node>)
    ensures var r := HandleElems(v, ts, elems);
            && (v == IndexTs && r.Ok? ==> Truthy(r.value.title) && r.value.latex != "" && Truthy(r.value.bibtex))
            && (v == LegacyJs ==> (r.Ok? <==> Blocks(v, ts, Nothing, LibConvert.Body(elems), |elems|).Ok?))
  {
  }

  /** The first check of `src/index.ts` is the title: without one it throws `Missing title`, whatever else is missing. */
  lemma TitleCheckedFirst(ts: TextSelectors, elems: seq<Node>)
    requires Blocks(IndexTs, ts, Nothing, LibConvert.Body(elems), |elems|).Ok?
    requires !Truthy(Blocks(IndexTs, ts, Nothing, LibConvert.Body(elems), |elems|).value.1.title)
    ensures HandleElems(IndexTs, ts, elems) == Err(MissingTitle)
  {
  }

  /**
   * The header is one `\title{..}` command; without a subtitle it is the
   * title in bold, and the two versions agree whenever there is a title.
   */
  lemma TitleHeader(v: Version, t: string, subtitle: Option<string>)
    requires t != ""
    ensures GenerateLatexTitle(v, Some(t), subtitle).Ok?
    ensures GenerateLatexTitle(v, Some(t), subtitle) == GenerateLatexTitle(IndexTs, Some(t), subtitle)
    ensures var r := GenerateLatexTitle(v, Some(t), subtitle).value;
            StartsWith(r, "\\title{") && EndsWith(r, "}")
    ensures !Truthy(subtitle) ==> GenerateLatexTitle(v, Some(t), subtitle) == Ok("\\title{\\textbf{" + t + "}}")
  {
    var r := GenerateLatexTitle(v, Some(t), subtitle).value;
    assert r[..7] == "\\title{";
    assert r[|r| - 1..] == "}";
  }

  /** With a subtitle, the title in bold comes first, then two line breaks, then the subtitle. */
  lemma TitleHeaderBoth(v: Version, t: string, st: string)
    requires t != "" && st != ""
    ensures var r := GenerateLatexTitle(v, Some(t), Some(st));
            var i := |"\\title{%\n  \\textbf{"|;
            var j := i + |t| + |"}\n  \\linebreak \\linebreak\n  \\large{"|;
            && r.Ok? && OccursAt(r.value, t, i) && OccursAt(r.value, st, j) && i + |t| < j
  {
    var r := GenerateLatexTitle(v, Some(t), Some(st)).value;
    var i := |"\\title{%\n  \\textbf{"|;
    var j := i + |t| + |"}\n  \\linebreak \\linebreak\n  \\large{"|;
    assert r[i..i + |t|] == t;
    assert r[j..j + |st|] == st;
  }

  /** The earliest version throws `Missing title` when no title was set, or an empty one. */
  lemma LegacyTitleMissing(title: Option<string>, subtitle: Option<string>)
    requires !Truthy(title)
    ensures GenerateLatexTitle(LegacyJs, title, subtitle) == Err(MissingTitle)
  {
  }

  /** A title that `src/index.ts` accepted always gives a header. */
  lemma HandledTitleRenders(ts: TextSelectors, elems: seq<Node>)
    requires HandleElems(IndexTs, ts, elems).Ok?
    ensures var g := HandleElems(IndexTs, ts, elems).value;
            GenerateLatexTitle(IndexTs, g.title, g.subtitle).Ok?
            && GenerateLatexTitle(IndexTs, g.title, g.subtitle) == GenerateLatexTitle(LegacyJs, g.title, g.subtitle)
  {
  }
}
