/**
 * The conversion of the current version (`handleElems`, `generateLatexTitle`
 * and the assembly in `gdoc2latex` of `src/lib.ts`): the body's elements are
 * rendered one after another into an accumulator object, the footnote marks
 * are backpatched, the citations tidied and the code blocks expanded.
 */
module LibConvert {
  import opened Wrappers
  import opened JsString
  import opened Html
  import opened LibText
  import opened LibSink
  import opened LibRender
  import opened ForIn
  import CiteTidier
  import Css
  import Bibtex

  /** A block rendering as the conversion sees it: the text and the accumulator after it, or the error. */
  predicate Agrees<T(==)>(r: Result<T, Error>, spec: Result<(T, Sink), Error>, now: Sink) {
    match spec
    case Ok(v) => r == Ok(v.0) && now == v.1
    case Err(e) => r == Err(e)
  }

  /** The accumulator the closures of `handleElems` share, and the renderer that reports to it. */
  class Converter {
    var title: Option<string>
    var subtitle: Option<string>
    var footnotes: map<string, string>
    var keys: seq<string>
    var bibtex: Option<string>

    function State(): Sink
      reads this
    {
      Sink(title, subtitle, footnotes, keys, bibtex)
    }

    constructor ()
      ensures State() == Fresh
    {
      title, subtitle, footnotes, keys, bibtex := None, None, map[], [], None;
    }

    /** `addBibliographyEntry` */
    method AddEntry(entry: string)
      requires Valid(State())
      modifies this
      ensures Valid(State())
      ensures State() == old(State()).(bibtex := Some(AddBibliographyEntry(old(bibtex), entry)))
    {
      if Truthy(bibtex) {
        bibtex := Some(bibtex.value + "\n\n" + entry);
      } else {
        bibtex := Some(entry);
      }
    }

    /** `addFootnoteEntry`: `footnotes[key] = content` on a plain object. */
    method AddFootnoteEntry(key: string, content: string)
      requires Valid(State())
      modifies this
      ensures Valid(State())
      ensures State() == AddFootnote(old(State()), key, content)
    {
      AddFootnoteValid(State(), key, content);
      if key != ProtoKey {
        if key !in footnotes {
          keys := keys + [key];
        }
        footnotes := footnotes[key := content];
      }
    }

    /** `setTitle` */
    method SetTitleOnce(kind: TitleKind, value: string) returns (r: Result<(), Error>)
      requires Valid(State())
      modifies this
      ensures Valid(State())
      ensures var spec := SetTitle(old(State()), kind, value);
              && (spec.Ok? ==> r.Ok? && State() == spec.value)
              && (spec.Err? ==> r == Err(spec.error) && State() == old(State()))
    {
      if kind == Title {
        if Truthy(title) {
          return Err(DuplicateTitle(Title, title.value, value));
        }
        title := Some(value);
      } else {
        if Truthy(subtitle) {
          return Err(DuplicateTitle(Subtitle, subtitle.value, value));
        }
        subtitle := Some(value);
      }
      return Ok(());
    }

    /** `mapToLatex`, reporting titles, footnotes and bibliography entries to this object. */
    method MapToLatex(tfs: TextFormatSelectors, f: Foreign, node: Node) returns (r: Result<Option<string>, Error>)
      requires Valid(State())
      modifies this
      ensures Valid(State())
      ensures Agrees(r, Latex(tfs, f, old(State()), node), State())
      decreases node, 1
    {
      match node
      case Text(content) =>
        return Ok(Some(TransformText(content)));
      case Comment(_) =>
        return Ok(None);
      case Element(tag, attrs, cs) =>
        if tag == "hr" && attrs == [] {
          return Err(TypeError("attributes[0] is undefined"));
        } else if tag == "hr" && attrs[0].key == "style" && Contains(attrs[0].value, "page-break-before:always") {
          return Ok(Some("\\pagebreak"));
        } else if cs == [] {
          return Ok(None);
        } else if tag == "div" {
          var parts := MapChildren(tfs, f, node);
          if parts.Err? {
            return Err(parts.error);
          }
          r := DivContent(Join(parts.value, "\n\n"));
        } else if tag == "ul" || tag == "ol" {
          var parts := TextParts(tfs, f, node, |cs|);
          if parts.Err? {
            return Err(parts.error);
          }
          return Ok(Some(ListEnvironment(if tag == "ul" then "itemize" else "enumerate", parts.value)));
        } else if tag == "table" {
          var table := TableLatex(tfs, f, cs);
          if table.Err? {
            return Err(table.error);
          }
          return Ok(Some(table.value));
        } else {
          r := TextBlockOf(tfs, f, node);
        }
    }

    /** The block renderings of `parent`'s children, in order, a missing one as `''`. */
    method MapChildren(tfs: TextFormatSelectors, f: Foreign, parent: Node) returns (r: Result<seq<string>, Error>)
      requires parent.Element?
      requires Valid(State())
      modifies this
      ensures Valid(State())
      ensures Agrees(r, Blocks(tfs, f, old(State()), parent, |parent.children|), State())
      decreases parent, 0
    {
      var parts: seq<string> := [];
      for i := 0 to |parent.children|
        invariant Valid(State())
        invariant Blocks(tfs, f, old(State()), parent, i) == Ok((parts, State()))
      {
        var part := MapToLatex(tfs, f, parent.children[i]);
        if part.Err? {
          BlocksErrStays(tfs, f, old(State()), parent, i + 1, |parent.children|);
          return Err(part.error);
        }
        parts := parts + [OrEmpty(part.value)];
      }
      return Ok(parts);
    }

    /** A div's joined content: a footnote is reported and renders nothing, anything else is the rendering. */
    method DivContent(content: string) returns (r: Result<Option<string>, Error>)
      requires Valid(State())
      modifies this
      ensures Valid(State())
      ensures Agrees(r, Div(content, old(State())), State())
    {
      if !StartsWith(content, FootnoteMark) {
        return Ok(Some(content));
      }
      var key := Slice(content, |FootnoteMark|, IndexOf(content, ">"));
      var payload := Trim(SliceFrom(content, |FootnoteMark| + 1 + |key|));
      if StartsWith(payload, "@") {
        AddEntry(Bibtex.Entry(payload, key, Bibtex.AnyKey));
      } else {
        AddFootnoteEntry(key, payload);
      }
      return Ok(None);
    }

    /** Paragraphs, titles and headings, rendered from their children's inline text. */
    method TextBlockOf(tfs: TextFormatSelectors, f: Foreign, node: Node) returns (r: Result<Option<string>, Error>)
      requires node.Element? && node.children != []
      requires Valid(State())
      modifies this
      ensures Valid(State())
      ensures Agrees(r, TextBlock(tfs, f, old(State()), node), State())
    {
      var tag, attrs := node.tagName, node.attributes;
      if tag == "p" {
        var titleClass := Css.SelectorMatches(attrs, tag, [".title", ".subtitle"]);
        if titleClass.Err? {
          return Err(titleClass.error);
        }
        if !titleClass.value {
          var text := MapText(tfs, f, node);
          if text.Err? {
            return Err(text.error);
          }
          return Ok(text.value);
        }
      }
      var parts := TextParts(tfs, f, node, |node.children|);
      if parts.Err? {
        return Err(parts.error);
      }
      var text := Concat(parts.value);
      if text == "" {
        return Ok(None);
      }
      var isTitle := Css.SelectorMatches(attrs, tag, [".title"]);
      if isTitle.Err? {
        return Err(isTitle.error);
      }
      if isTitle.value {
        var outcome := SetTitleOnce(Title, text);
        if outcome.Err? {
          return Err(outcome.error);
        }
        return Ok(None);
      }
      var isSubtitle := Css.SelectorMatches(attrs, tag, [".subtitle"]);
      if isSubtitle.Err? {
        return Err(isSubtitle.error);
      }
      if isSubtitle.value {
        var outcome := SetTitleOnce(Subtitle, text);
        if outcome.Err? {
          return Err(outcome.error);
        }
        return Ok(None);
      }
      if Heading(tag).Some? {
        return Ok(Some(Section(Heading(tag).value, text, FindAttr(attrs, "id"))));
      }
      return Err(UnsupportedTagWithContent(tag, text));
    }
  }

  /** The table branch: a header sized by the first row, then each row appended in turn. */
  method TableLatex(tfs: TextFormatSelectors, f: Foreign, children: seq<Node>) returns (r: Result<string, Error>)
    requires children != []
    ensures r == LibRender.Table(tfs, f, children)
  {
    if !children[0].Element? {
      return Err(TypeError("rows is undefined"));
    }
    var rows := children[0].children;
    if rows == [] || !rows[0].Element? {
      return Err(TypeError("rows[0].children is undefined"));
    }
    var body := RowsLatex(tfs, f, rows);
    if body.Err? {
      return Err(body.error);
    }
    return Ok(TableHead(|rows[0].children|) + body.value + TableFoot);
  }

  /** The loop over the rows: each adds its cells joined by `&`, or the first that cannot be read throws. */
  method RowsLatex(tfs: TextFormatSelectors, f: Foreign, rows: seq<Node>) returns (r: Result<string, Error>)
    ensures r == TableRows(tfs, f, rows, |rows|)
  {
    var latex := "";
    for i := 0 to |rows|
      invariant TableRows(tfs, f, rows, i) == Ok(latex)
    {
      var row := rows[i];
      if !row.Element? {
        assert TableRows(tfs, f, rows, i + 1) == Err(TypeError("row.children is undefined"));
        TableRowsErrStays(tfs, f, rows, i + 1, |rows|);
        return Err(TypeError("row.children is undefined"));
      }
      var cells := TextParts(tfs, f, row, |row.children|);
      if cells.Err? {
        assert TableRows(tfs, f, rows, i + 1) == Err(cells.error);
        TableRowsErrStays(tfs, f, rows, i + 1, |rows|);
        return Err(cells.error);
      }
      latex := latex + TableRow(Cells(cells.value));
    }
    return Ok(latex);
  }

  /** `'\\cite{' + key + '}'`: the in-text mark of footnote `key`. */
  function CiteOf(key: string): string {
    "\\cite{" + key + "}"
  }

  function FootnoteOf(payload: string): string {
    "\\footnote{" + payload + "}"
  }

  /** `footnotes[key]`, which a `for..in` over the object always finds. */
  function Payload(footnotes: map<string, string>, key: string): string {
    if key in footnotes then footnotes[key] else "undefined"
  }

  /** The body after replacing, key by key in `order`, the first mark of each footnote by the footnote. */
  function Backpatch(latex: string, order: seq<string>, footnotes: map<string, string>): string {
    if order == [] then latex
    else
      var key := order[|order| - 1];
      ReplaceFirst(Backpatch(latex, order[..|order| - 1], footnotes), CiteOf(key), FootnoteOf(Payload(footnotes, key)))
  }

  /** What `handleElems` returns. */
  datatype Converted = Converted(title: Option<string>, subtitle: Option<string>, latex: string, bibtex: Option<string>)

  /** The body element whose children are the document's elements. */
  function Body(elems: seq<Node>): Node {
    Element("body", [], elems)
  }

  /** `handleElems`, as a function of the elements and the format selectors. */
  function HandleElems(tfs: TextFormatSelectors, f: Foreign, elems: seq<Node>): Result<Converted, Error> {
    var walked :- Blocks(tfs, f, Fresh, Body(elems), |elems|);
    var latex := Join(walked.0, "\n");
    if latex == "" then Err(MissingLatex)
    else
      var s := walked.1;
      var patched := Backpatch(latex, ForInOrder(s.keys), s.footnotes);
      Ok(Converted(s.title, s.subtitle, BlockSnippeter(CiteTidier.CiteTidier(patched)), s.bibtex))
  }

  /** The `for..in` loop that replaces, footnote by footnote, the first mark with the footnote. */
  method BackpatchFootnotes(body: string, order: seq<string>, footnotes: map<string, string>) returns (latex: string)
    requires forall k :: k in multiset(order) ==> k in footnotes
    ensures latex == Backpatch(body, order, footnotes)
  {
    latex := body;
    for i := 0 to |order|
      invariant latex == Backpatch(body, order[..i], footnotes)
    {
      assert order[..i + 1][..i] == order[..i];
      assert order[i] in multiset(order);
      latex := ReplaceFirst(latex, CiteOf(order[i]), FootnoteOf(footnotes[order[i]]));
    }
    assert order[..|order|] == order;
  }

  /** `handleElems`: render, check the body, backpatch the footnotes, tidy the citations, expand the code blocks. */
  method Handle(tfs: TextFormatSelectors, f: Foreign, elems: seq<Node>) returns (r: Result<Converted, Error>)
    ensures r == HandleElems(tfs, f, elems)
  {
    var acc := new Converter();
    var parts := acc.MapChildren(tfs, f, Body(elems));
    if parts.Err? {
      return Err(parts.error);
    }
    var latex := Join(parts.value, "\n");
    if latex == "" {
      return Err(MissingLatex);
    }
    ForInPermutes(acc.keys);
    latex := BackpatchFootnotes(latex, ForInOrder(acc.keys), acc.footnotes);
    latex := CiteTidier.CiteTidier(latex);
    latex := BlockSnippeter(latex);
    return Ok(Converted(acc.title, acc.subtitle, latex, acc.bibtex));
  }

  // ---------------------------------------------------------------- the title header

  /** `generateLatexTitle`: both in two sizes, one of them in bold, or a placeholder. */
  function GenerateLatexTitle(title: Option<string>, subtitle: Option<string>): string {
    if Truthy(title) && Truthy(subtitle) then
      "\\title{%\n  \\Huge{" + title.value + "}\n  \\\\\n  \\Large{" + subtitle.value + "}\n}"
    else if Truthy(title) then "\\title{\\textbf{" + title.value + "}}"
    else if Truthy(subtitle) then "\\title{\\textbf{" + subtitle.value + "}}"
    else "\\title{\\textbf{Document Title}}"
  }

  /** The header is always one `\title{..}` command. */
  lemma TitleHeaderIsTitleCommand(title: Option<string>, subtitle: Option<string>)
    ensures StartsWith(GenerateLatexTitle(title, subtitle), "\\title{")
    ensures EndsWith(GenerateLatexTitle(title, subtitle), "}")
  {
    var r := GenerateLatexTitle(title, subtitle);
    assert r[..7] == "\\title{";
    assert r[|r| - 1..] == "}";
  }

  /**
   * A lone title and a lone subtitle are shown alike, in bold; an empty one
   * counts as absent; and with neither the header is that of a document
   * titled `Document Title`.
   */
  lemma TitleHeaderCases(x: string)
    requires x != ""
    ensures GenerateLatexTitle(Some(x), None) == GenerateLatexTitle(None, Some(x)) == "\\title{\\textbf{" + x + "}}"
    ensures GenerateLatexTitle(Some(x), Some("")) == GenerateLatexTitle(Some(x), None)
    ensures GenerateLatexTitle(Some(""), Some(x)) == GenerateLatexTitle(None, Some(x))
    ensures GenerateLatexTitle(None, None) == GenerateLatexTitle(Some("Document Title"), None)
  {
  }

  /** With both, the title comes first in large type, a line break, then the subtitle. */
  lemma TitleHeaderBoth(t: string, st: string)
    requires t != "" && st != ""
    ensures var r := GenerateLatexTitle(Some(t), Some(st));
            var i := |"\\title{%\n  \\Huge{"|;
            var j := i + |t| + |"}\n  \\\\\n  \\Large{"|;
            && OccursAt(r, t, i) && OccursAt(r, st, j) && i + |t| < j
  {
    var r := GenerateLatexTitle(Some(t), Some(st));
    var i := |"\\title{%\n  \\Huge{"|;
    var j := i + |t| + |"}\n  \\\\\n  \\Large{"|;
    assert r[i..i + |t|] == t;
    assert r[j..j + |st|] == st;
  }

  // ---------------------------------------------------------------- the assembled document

  datatype Options = Options(outputFile: Option<string>, templateStart: Option<string>, templateEnd: Option<string>)

  datatype Output = Output(latex: string, bibtex: Option<string>)

  /** `options.x || fallback` */
  function OrDefault(o: Option<string>, fallback: string): string {
    if Truthy(o) then o.value else fallback
  }

  /**
   * `gdoc2latex` once the page is parsed: `css` is the text of the page's
   * style element and `elems` the children of its body; `start` and `end`
   * are the default templates.
   */
  function Gdoc2Latex(css: string, elems: seq<Node>, f: Foreign, options: Options, start: string, end: string): Result<Output, Error> {
    var converted :- HandleElems(GetTextFormatSelectors(css), f, elems);
    Ok(Assemble(converted, options, start, end))
  }

  /** The document around a converted body, with the options' templates and file name or their defaults. */
  function Assemble(converted: Converted, options: Options, start: string, end: string): Output {
    var templateStart := OrDefault(options.templateStart, start);
    var templateEnd := OrDefault(options.templateEnd, end);
    var outputFile := OrDefault(options.outputFile, "index.tex");
    Output(
      GenerateLatexTitle(converted.title, converted.subtitle) + "\n"
      + templateStart
      + "\n" + converted.latex
      + "\n\n\\bibliography{" + Slice(outputFile, 0, -4) + "}\n\n"
      + templateEnd,
      converted.bibtex)
  }

  /** `slice(0, -4)` takes the `.tex` extension off the output file's name. */
  lemma BibliographyStem(stem: string)
    ensures Slice(stem + ".tex", 0, -4) == stem
  {
    assert (stem + ".tex")[0..|stem|] == stem;
  }

  /**
   * The document is the title header, the start template, the body, the
   * bibliography command naming the output file without its `.tex`
   * (`index` by default), and the end template; the bibliography is passed
   * on as collected. The conversion throws exactly when `handleElems` does.
   */
  lemma Gdoc2LatexLayout(css: string, elems: seq<Node>, f: Foreign, options: Options, start: string, end: string, stem: string)
    requires options.outputFile == Some(stem + ".tex") || (options.outputFile == None && stem == "index")
    ensures var converted := HandleElems(GetTextFormatSelectors(css), f, elems);
            var r := Gdoc2Latex(css, elems, f, options, start, end);
            && (converted.Err? ==> r == Err(converted.error))
            && (converted.Ok? ==>
                 && r.Ok? && r.value.bibtex == converted.value.bibtex
                 && r.value.latex == GenerateLatexTitle(converted.value.title, converted.value.subtitle) + "\n"
                                     + OrDefault(options.templateStart, start) + "\n" + converted.value.latex
                                     + "\n\n\\bibliography{" + stem + "}\n\n" + OrDefault(options.templateEnd, end))
  {
    var converted := HandleElems(GetTextFormatSelectors(css), f, elems);
    if converted.Ok? {
      AssembleLayout(converted.value, options, start, end, stem);
    }
  }

  lemma AssembleLayout(c: Converted, options: Options, start: string, end: string, stem: string)
    requires options.outputFile == Some(stem + ".tex") || (options.outputFile == None && stem == "index")
    ensures Assemble(c, options, start, end)
            == Output(GenerateLatexTitle(c.title, c.subtitle) + "\n"
                      + OrDefault(options.templateStart, start) + "\n" + c.latex
                      + "\n\n\\bibliography{" + stem + "}\n\n" + OrDefault(options.templateEnd, end),
                      c.bibtex)
  {
    BibliographyStem(stem);
  }

  // ---------------------------------------------------------------- handleElems

  /** `join('\n')` is empty only for no parts or a single empty one. */
  lemma JoinIsEmpty(ps: seq<string>, sep: string)
    requires sep != ""
    ensures Join(ps, sep) == "" <==> |ps| == 0 || (|ps| == 1 && ps[0] == "")
  {
    if |ps| > 1 {
      assert |Join(ps, sep)| >= |sep|;
    }
  }

  /**
   * The conversion throws `Missing latex` only when the body has no element
   * or a single one that renders nothing: two empty elements already give a
   * line break.
   */
  lemma MissingLatexCases(tfs: TextFormatSelectors, f: Foreign, elems: seq<Node>)
    requires Blocks(tfs, f, Fresh, Body(elems), |elems|).Ok?
    ensures var parts := Blocks(tfs, f, Fresh, Body(elems), |elems|).value.0;
            HandleElems(tfs, f, elems) == Err(MissingLatex) <==> |elems| == 0 || (|elems| == 1 && parts[0] == "")
  {
    JoinIsEmpty(Blocks(tfs, f, Fresh, Body(elems), |elems|).value.0, "\n");
  }

  /** The conversion throws exactly when rendering an element throws, or for an empty body. */
  lemma HandleElemsThrows(tfs: TextFormatSelectors, f: Foreign, elems: seq<Node>)
    ensures var walked := Blocks(tfs, f, Fresh, Body(elems), |elems|);
            && (walked.Err? ==> HandleElems(tfs, f, elems) == Err(walked.error))
            && (walked.Ok? ==> (HandleElems(tfs, f, elems).Err? <==> Join(walked.value.0, "\n") == ""))
  {
  }

  /**
   * Backpatching a footnote replaces its first mark in the body, and only
   * that one: later marks of the same footnote stay. The footnote goes in
   * with its dollar patterns expanded, so a footnote without a dollar sign
   * goes in as it is.
   */
  lemma BackpatchFirstMark(a: string, key: string, b: string, footnotes: map<string, string>)
    requires forall j :: 0 <= j < |a| ==> !OccursAt(a + CiteOf(key) + b, CiteOf(key), j)
    ensures Backpatch(a + CiteOf(key) + b, [key], footnotes)
            == a + Substitute(FootnoteOf(Payload(footnotes, key)), CiteOf(key), a, b, None) + b
    ensures '$' !in Payload(footnotes, key) ==>
              Backpatch(a + CiteOf(key) + b, [key], footnotes) == a + FootnoteOf(Payload(footnotes, key)) + b
  {
    var body := a + CiteOf(key) + b;
    assert body[|a|..|a| + |CiteOf(key)|] == CiteOf(key);
    IndexOfIs(body, CiteOf(key), |a|);
    assert [key][..0] == [];
    assert body[..|a|] == a;
    assert body[|a| + |CiteOf(key)|..] == b;
    var payload := Payload(footnotes, key);
    if '$' !in payload {
      assert '$' !in FootnoteOf(payload);
      SubstituteDollarFree(FootnoteOf(payload), CiteOf(key), a, b, None);
    }
  }

  /**
   * The footnote `αβ`, escaped to `$\alpha$$\beta$`, loses a dollar sign on
   * the way in: `$$` is the pattern of one dollar, so the body gets the broken
   * formula `$\alpha$\beta$`.
   */
  lemma BackpatchCollapsesDollars(a: string, key: string, b: string, footnotes: map<string, string>)
    requires forall j :: 0 <= j < |a| ==> !OccursAt(a + CiteOf(key) + b, CiteOf(key), j)
    requires Payload(footnotes, key) == "$\\alpha$$\\beta$"
    ensures Backpatch(a + CiteOf(key) + b, [key], footnotes) == a + "\\footnote{$\\alpha$\\beta$}" + b
  {
    BackpatchFirstMark(a, key, b, footnotes);
    assert FootnoteOf(Payload(footnotes, key)) == "\\footnote{" + "$\\alpha$$\\beta$}";
    CollapsedDollars(CiteOf(key), a, b);
  }

  lemma CollapsedDollars(m: string, a: string, b: string)
    ensures Substitute("\\footnote{" + "$\\alpha$$\\beta$}", m, a, b, None) == "\\footnote{$\\alpha$\\beta$}"
  {
    var g: Option<string> := None;
    var u, v := "\\alpha", "\\beta";
    calc {
      Substitute("\\footnote{" + ("$" + (u + ("$$" + (v + ("$" + "}"))))), m, a, b, g);
      { SubstituteDollarFreeFront("\\footnote{", "$" + (u + ("$$" + (v + ("$" + "}")))), m, a, b, g); }
      "\\footnote{" + Substitute("$" + (u + ("$$" + (v + ("$" + "}")))), m, a, b, g);
      { DollarBeforeOther(u + ("$$" + (v + ("$" + "}"))), m, a, b, g); }
      "\\footnote{" + ("$" + Substitute(u + ("$$" + (v + ("$" + "}"))), m, a, b, g));
      { SubstituteDollarFreeFront(u, "$$" + (v + ("$" + "}")), m, a, b, g); }
      "\\footnote{" + ("$" + (u + Substitute("$$" + (v + ("$" + "}")), m, a, b, g)));
      { DoubleDollar(v + ("$" + "}"), m, a, b, g); }
      "\\footnote{" + ("$" + (u + ("$" + Substitute(v + ("$" + "}"), m, a, b, g))));
      { SubstituteDollarFreeFront(v, "$" + "}", m, a, b, g); }
      "\\footnote{" + ("$" + (u + ("$" + (v + Substitute("$" + "}", m, a, b, g)))));
      { DollarBeforeOther("}", m, a, b, g); SubstituteDollarFree("}", m, a, b, g); }
      "\\footnote{" + ("$" + (u + ("$" + (v + ("$" + "}")))));
    }
    assert "\\footnote{" + "$\\alpha$$\\beta$}" == "\\footnote{" + ("$" + (u + ("$$" + (v + ("$" + "}")))));
    assert "\\footnote{$\\alpha$\\beta$}" == "\\footnote{" + ("$" + (u + ("$" + (v + ("$" + "}")))));
  }

  /**
   * The footnote `α's`, escaped to `$\alpha$'s`, holds the pattern `$'`,
   * which stands for the rest of the body: everything after the mark is
   * copied into the footnote.
   */
  lemma BackpatchCopiesRest(a: string, key: string, b: string, footnotes: map<string, string>)
    requires forall j :: 0 <= j < |a| ==> !OccursAt(a + CiteOf(key) + b, CiteOf(key), j)
    requires Payload(footnotes, key) == "$\\alpha$'s"
    ensures Backpatch(a + CiteOf(key) + b, [key], footnotes) == a + "\\footnote{$\\alpha" + b + "s}" + b
  {
    BackpatchFirstMark(a, key, b, footnotes);
    assert FootnoteOf(Payload(footnotes, key)) == "\\footnote{" + "$\\alpha$'s}";
    CopiedRest(CiteOf(key), a, b);
  }

  lemma CopiedRest(m: string, a: string, b: string)
    ensures Substitute("\\footnote{" + "$\\alpha$'s}", m, a, b, None) == "\\footnote{$\\alpha" + b + "s}"
  {
    var g := None;
    calc {
      Substitute("\\footnote{" + "$\\alpha$'s}", m, a, b, g);
      { SubstituteDollarFreeFront("\\footnote{", "$\\alpha$'s}", m, a, b, g); }
      "\\footnote{" + Substitute("$\\alpha$'s}", m, a, b, g);
      { assert "$\\alpha$'s}"[1..] == "\\alpha" + "$'s}";
        SubstituteDollarFreeFront("\\alpha", "$'s}", m, a, b, g); }
      "\\footnote{" + ("$" + ("\\alpha" + Substitute("$'s}", m, a, b, g)));
      { assert "$'s}"[2..] == "s}";
        SubstituteDollarFree("s}", m, a, b, g); }
      "\\footnote{" + ("$" + ("\\alpha" + (b + "s}")));
      "\\footnote{$\\alpha" + b + "s}";
    }
  }

  /** A body with no mark of any footnote is not changed by backpatching. */
  lemma {:induction false} BackpatchUnmarked(latex: string, order: seq<string>, footnotes: map<string, string>)
    requires forall i :: 0 <= i < |order| ==> IndexOf(latex, CiteOf(order[i])) < 0
    ensures Backpatch(latex, order, footnotes) == latex
  {
    if order != [] {
      BackpatchUnmarked(latex, order[..|order| - 1], footnotes);
    }
  }
}
