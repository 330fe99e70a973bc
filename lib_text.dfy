/**
 * The text escaping of the current version (`transformText` in `src/lib.ts`),
 * the code markup it produces, and `blockSnippeter`, which turns the block
 * markers into `minted` environments once the whole document is assembled.
 */
module LibText {
  import opened JsString
  import opened Escaping
  import Css

  /** The seven selector lists, one per text format the converter knows. */
  datatype TextFormatSelectors = TextFormatSelectors(
    bold: seq<string>, italic: seq<string>, underlined: seq<string>,
    superscript: seq<string>, subscript: seq<string>, center: seq<string>, right: seq<string>)

  /** The selectors of the CSS rules that set each text format. */
  function GetTextFormatSelectors(css: string): (r: TextFormatSelectors)
    ensures |r.bold| == Occurrences(css, "font-weight:700")
    ensures |r.italic| == Occurrences(css, "font-style:italic")
    ensures |r.underlined| == Occurrences(css, "text-decoration:underline")
    ensures |r.superscript| == Occurrences(css, "vertical-align:super")
    ensures |r.subscript| == Occurrences(css, "vertical-align:sub")
    ensures |r.center| == Occurrences(css, "text-align:center")
    ensures |r.right| == Occurrences(css, "text-align:right")
  {
    TextFormatSelectors(
      Css.GetSelector(css, "font-weight:700"),
      Css.GetSelector(css, "font-style:italic"),
      Css.GetSelector(css, "text-decoration:underline"),
      Css.GetSelector(css, "vertical-align:super"),
      Css.GetSelector(css, "vertical-align:sub"),
      Css.GetSelector(css, "text-align:center"),
      Css.GetSelector(css, "text-align:right"))
  }

  /** Non-breaking spaces, doubled backslashes, tildes, carets and the apostrophe entity. */
  const Prelude: seq<(string, string)> := [
      ("\U{A0}", " "),
      ("\\\\", "\\textbackslash "),
      ("~", "\\textasciitilde "),
      ("^", "\\textasciicircum "),
      ("&#39;", "'")]

  /** The characters LaTeX reserves, each escaped by a backslash. */
  const Reserved: seq<(string, string)> := [
      ("&", "\\&"),
      ("%", "\\%"),
      ("#", "\\#"),
      ("_", "\\_"),
      ("{", "\\{"),
      ("}", "\\}")]

  /** Greek letters and mathematical symbols, each set in math mode, in four runs. */
  const Symbols1: seq<(string, string)> := [
      ("\U{3B1}", "$\\alpha$"),
      ("\U{3B2}", "$\\beta$"),
      ("\U{3B3}", "$\\gamma$"),
      ("\U{3B4}", "$\\delta$"),
      ("\U{3B5}", "$\\epsilon$"),
      ("\U{3B6}", "$\\zeta$"),
      ("\U{3B7}", "$\\eta$"),
      ("\U{3B8}", "$\\theta$"),
      ("\U{3B9}", "$\\iota$"),
      ("\U{3BA}", "$\\kappa$"),
      ("\U{3BB}", "$\\lambda$")]

  const Symbols2: seq<(string, string)> := [
      ("\U{3BC}", "$\\mu$"),
      ("\U{3BD}", "$\\nu$"),
      ("\U{3BE}", "$\\xi$"),
      ("\U{3BF}", "$\\o$"),
      ("\U{3C0}", "$\\pi$"),
      ("\U{3C1}", "$\\rho$"),
      ("\U{3C3}", "$\\sigma$"),
      ("\U{3C2}", "$\\varsigma$"),
      ("\U{3C4}", "$\\tau$"),
      ("\U{3C5}", "$\\upsilon$")]

  const Symbols3: seq<(string, string)> := [
      ("\U{3C6}", "$\\phi$"),
      ("\U{3C7}", "$\\chi$"),
      ("\U{3C8}", "$\\psi$"),
      ("\U{3C9}", "$\\omega$"),
      ("\U{230A}", "$\\lfloor$"),
      ("\U{230B}", "$\\rfloor$"),
      ("\U{2308}", "$\\lceil$"),
      ("\U{2309}", "$\\rceil$"),
      ("\U{2200}", "$\\forall$"),
      ("\U{2203}", "$\\exists$")]

  const Symbols4: seq<(string, string)> := [
      ("\U{221E}", "$\\infty$"),
      ("\U{2205}", "$\\varnothing$"),
      ("\U{2229}", "$\\cap$"),
      ("\U{222A}", "$\\cup$"),
      ("\U{2282}", "$\\subset$"),
      ("\U{2286}", "$\\subseteq$"),
      ("\U{2283}", "$\\supset$"),
      ("\U{2287}", "$\\supseteq$"),
      ("\U{22A5}", "$\\bot$"),
      ("\U{22A4}", "$\\top$")]

  const Symbols: seq<(string, string)> := Symbols1 + Symbols2 + Symbols3 + Symbols4

  /** The replacements in the order they are applied. */
  const Table: seq<(string, string)> := Prelude + Reserved + Symbols

  /** A replacement made of letters, dollars and backslashes only. */
  predicate MathText(r: string) {
    forall j :: 0 <= j < |r| ==> IsAsciiLetter(r[j]) || r[j] == '$' || r[j] == '\\'
  }

  lemma SymbolPatterns()
    ensures forall i :: 0 <= i < |Symbols| ==> |Symbols[i].0| == 1 && Symbols[i].0[0] > '\U{7E}'
  {
  }

  lemma MathRun1() ensures forall i :: 0 <= i < |Symbols1| ==> MathText(Symbols1[i].1) {}
  lemma MathRun2() ensures forall i :: 0 <= i < |Symbols2| ==> MathText(Symbols2[i].1) {}
  lemma MathRun3() ensures forall i :: 0 <= i < |Symbols3| ==> MathText(Symbols3[i].1) {}
  lemma MathRun4() ensures forall i :: 0 <= i < |Symbols4| ==> MathText(Symbols4[i].1) {}

  lemma SymbolReplacements()
    ensures forall i :: 0 <= i < |Symbols| ==> MathText(Symbols[i].1)
  {
    MathRun1(); MathRun2(); MathRun3(); MathRun4();
    forall i | 0 <= i < |Symbols| ensures MathText(Symbols[i].1) {
      var n1, n2, n3 := |Symbols1|, |Symbols1| + |Symbols2|, |Symbols1| + |Symbols2| + |Symbols3|;
      if i < n1 { assert Symbols[i] == Symbols1[i]; }
      else if i < n2 { assert Symbols[i] == Symbols2[i - n1]; }
      else if i < n3 { assert Symbols[i] == Symbols3[i - n2]; }
      else { assert Symbols[i] == Symbols4[i - n3]; }
    }
  }

  lemma TableShape()
    ensures ValidTable(Table)
    ensures forall i :: 0 <= i < |Table| ==> !Ordinary(Table[i].0[0]) && Table[i].0[0] != '`'
    ensures forall i :: 0 <= i < |Table| && i != 1 ==> Table[i].0[0] != '\\'
    ensures forall i :: |Prelude| + |Reserved| <= i < |Table| ==>
              |Table[i].0| == 1 && Table[i].0[0] > '\U{7E}' && MathText(Table[i].1)
  {
    SymbolPatterns();
    SymbolReplacements();
    var n := |Prelude| + |Reserved|;
    forall i | n <= i < |Table| ensures Table[i] == Symbols[i - n] {}
    forall i | 0 <= i < n ensures Table[i] == (Prelude + Reserved)[i] {}
  }

  /** The marker that code fences become until `blockSnippeter` runs. */
  const BlockMarker := "\\blocksnippet{"

  /**
   * `.replace(/```([a-zA-Z]*)/g, '\\blocksnippet{$1}')`. The regular
   * expression takes the run of letters after each fence, and the search for
   * the next fence resumes after them; as letters hold no backtick, the
   * fences it finds are the pieces of a split at "```".
   */
  function Fences(s: string): string {
    var ps := Split(s, "```");
    ps[0] + MarkFences(ps[1..])
  }

  /** Each piece after a fence, with its leading letters wrapped as the marker's argument. */
  function MarkFences(ps: seq<string>): string {
    if ps == [] then ""
    else
      var n := RunLength(ps[0], 0, IsAsciiLetter);
      BlockMarker + ps[0][..n] + "}" + ps[0][n..] + MarkFences(ps[1..])
  }

  /** `.split(/`/g).map((s, i) => i % 2 == 0 ? s : mintinline(s)).join('')` */
  function InlineCode(s: string): string {
    AlternateInline(Split(s, "`"), false)
  }

  function Mintinline(code: string): string {
    "\\mintinline{text}{|" + code + "|}"
  }

  /** The pieces concatenated, every other one (starting with the second) set as inline code. */
  function AlternateInline(ps: seq<string>, odd: bool): string {
    if ps == [] then ""
    else (if odd then Mintinline(ps[0]) else ps[0]) + AlternateInline(ps[1..], !odd)
  }

  /** `transformText` after the HTML entities are decoded. */
  function TransformText(text: string): string {
    InlineCode(Fences(ReplaceEach(text, Table)))
  }

  /** `blockSnippeter`: every other piece between block markers becomes a `minted` environment. */
  function BlockSnippeter(latex: string): string {
    AlternateBlocks(Split(latex, BlockMarker), false)
  }

  function AlternateBlocks(ps: seq<string>, odd: bool): string {
    if ps == [] then ""
    else (if odd then Minted(ps[0]) else ps[0]) + AlternateBlocks(ps[1..], !odd)
  }

  /** The opening of the `minted` environment for a block in language `lang`. */
  function MintedOpen(lang: string): string {
    "\\begin{minted}[breaklines" + (if lang == "math" then ",escapeinside=||,mathescape=true" else "") + "]{"
    + (if lang != "" && lang != "math" then lang else "text") + "}"
  }

  /**
   * A piece after a block marker: its leading letters name the language, the
   * character after them (the marker's closing brace) is dropped, and the
   * environment is left open up to that brace, which the next marker's
   * piece supplies.
   */
  function Minted(piece: string): string {
    var lang := piece[..RunLength(piece, 0, IsAsciiLetter)];
    MintedOpen(lang) + SliceFrom(piece, |lang| + 1) + "\\end{minted"
  }

  lemma {:induction false} MarkFencesKeepsAbsent(ps: seq<string>, c: char)
    requires c !in BlockMarker && c != '}'
    requires forall j :: 0 <= j < |ps| ==> c !in ps[j]
    ensures c !in MarkFences(ps)
    decreases |ps|
  {
    if ps != [] {
      MarkFencesKeepsAbsent(ps[1..], c);
      var n := RunLength(ps[0], 0, IsAsciiLetter);
      assert c !in ps[0][..n] && c !in ps[0][n..];
    }
  }

  lemma FencesKeepsAbsent(s: string, c: char)
    requires c !in s && c !in BlockMarker && c != '}'
    ensures c !in Fences(s)
  {
    var ps := Split(s, "```");
    SplitKeepsAbsent(s, "```", c);
    MarkFencesKeepsAbsent(ps[1..], c);
  }

  lemma {:induction false} AlternateInlineKeepsAbsent(ps: seq<string>, odd: bool, c: char)
    requires c !in Mintinline("")
    requires forall j :: 0 <= j < |ps| ==> c !in ps[j]
    ensures c !in AlternateInline(ps, odd)
    decreases |ps|
  {
    if ps != [] {
      AlternateInlineKeepsAbsent(ps[1..], !odd, c);
    }
  }

  lemma InlineCodeKeepsAbsent(s: string, c: char)
    requires c !in s && c !in Mintinline("")
    ensures c !in InlineCode(s)
  {
    SplitKeepsAbsent(s, "`", c);
    AlternateInlineKeepsAbsent(Split(s, "`"), false, c);
  }

  /** Inline code takes every backtick away. */
  lemma InlineCodeRemovesBackticks(s: string)
    ensures '`' !in InlineCode(s)
  {
    SplitRemovesChar(s, '`');
    AlternateInlineKeepsAbsent(Split(s, "`"), false, '`');
  }

  lemma {:induction false} MarkFencesKeepsEscaped(ps: seq<string>, c: char)
    requires !IsAsciiLetter(c) && c !in BlockMarker && c != '}'
    requires forall j :: 0 <= j < |ps| ==> Escaped(ps[j], c)
    ensures Escaped(MarkFences(ps), c)
    decreases |ps|
  {
    if ps != [] {
      MarkFencesKeepsEscaped(ps[1..], c);
      var n := RunLength(ps[0], 0, IsAsciiLetter);
      EscapedAbsent(BlockMarker + ps[0][..n] + "}", c);
      EscapedSuffix(ps[0], n, c);
      EscapedConcat(BlockMarker + ps[0][..n] + "}", ps[0][n..], c);
      EscapedConcat(BlockMarker + ps[0][..n] + "}" + ps[0][n..], MarkFences(ps[1..]), c);
    }
  }

  lemma FencesKeepsEscaped(s: string, c: char)
    requires Escaped(s, c) && !IsAsciiLetter(c) && c !in BlockMarker && c != '}'
    ensures Escaped(Fences(s), c)
  {
    var ps := Split(s, "```");
    EscapedSplit(s, "```", c);
    MarkFencesKeepsEscaped(ps[1..], c);
    EscapedConcat(ps[0], MarkFences(ps[1..]), c);
  }

  lemma {:induction false} AlternateInlineKeepsEscaped(ps: seq<string>, odd: bool, c: char)
    requires c !in Mintinline("")
    requires forall j :: 0 <= j < |ps| ==> Escaped(ps[j], c)
    ensures Escaped(AlternateInline(ps, odd), c)
    decreases |ps|
  {
    if ps != [] {
      AlternateInlineKeepsEscaped(ps[1..], !odd, c);
      if odd {
        EscapedAbsent("\\mintinline{text}{|", c);
        EscapedAbsent("|}", c);
        EscapedConcat("\\mintinline{text}{|", ps[0], c);
        EscapedConcat("\\mintinline{text}{|" + ps[0], "|}", c);
      }
      EscapedConcat(if odd then Mintinline(ps[0]) else ps[0], AlternateInline(ps[1..], !odd), c);
    }
  }

  lemma InlineCodeKeepsEscaped(s: string, c: char)
    requires Escaped(s, c) && c !in Mintinline("")
    ensures Escaped(InlineCode(s), c)
  {
    EscapedSplit(s, "`", c);
    AlternateInlineKeepsEscaped(Split(s, "`"), false, c);
  }

  /** Where the table escapes `c`, with every later entry keeping it escaped. */
  lemma ReservedEntry(c: char) returns (k: nat)
    requires c in "&%#_"
    ensures k < |Table| && Table[k] == ([c], ['\\', c])
    ensures forall i :: k < i < |Table| ==> KeepsEscaped(Table[i], c)
  {
    k := if c == '&' then 5 else if c == '%' then 6 else if c == '#' then 7 else 8;
    SymbolsKeepEscaped(c);
    forall i | k < i < |Prelude| + |Reserved| ensures KeepsEscaped(Table[i], c) {
      assert Table[i] == Reserved[i - |Prelude|];
    }
  }

  lemma SymbolsKeepEscaped(c: char)
    requires c in "&%#_"
    ensures forall i :: |Prelude| + |Reserved| <= i < |Table| ==> KeepsEscaped(Table[i], c)
  {
    TableShape();
    forall i | |Prelude| + |Reserved| <= i < |Table| ensures KeepsEscaped(Table[i], c) {
      assert MathText(Table[i].1);
      EscapedAbsent(Table[i].1, c);
    }
  }

  /**
   * Each of the reserved characters `&`, `%`, `#` and `_` comes out preceded
   * by a backslash, wherever it stood in the text.
   */
  lemma TransformTextEscapes(text: string, c: char)
    requires c in "&%#_"
    ensures Escaped(TransformText(text), c)
  {
    TableShape();
    var k := ReservedEntry(c);
    ReplaceEachEscapes(text, Table, k, c);
    FencesKeepsEscaped(ReplaceEach(text, Table), c);
    InlineCodeKeepsEscaped(Fences(ReplaceEach(text, Table)), c);
  }

  /** A character the chain replaces at entry `k` and no later replacement writes is absent from the result. */
  lemma TransformTextRemoves(text: string, k: nat, c: char)
    requires k < |Table| && Table[k].0 == [c] && c != '}' && c !in BlockMarker && c !in Mintinline("")
    requires forall i :: k <= i < |Table| ==> c !in Table[i].1
    ensures c !in TransformText(text)
  {
    TableShape();
    ReplaceEachRemoves(text, Table, k, c);
    FencesKeepsAbsent(ReplaceEach(text, Table), c);
    InlineCodeKeepsAbsent(Fences(ReplaceEach(text, Table)), c);
  }

  /** No replacement from the symbol run on writes a character outside ASCII. */
  lemma SymbolsWriteAscii(c: char)
    requires c > '\U{7E}'
    ensures forall j :: |Prelude| + |Reserved| <= j < |Table| ==> c !in Table[j].1
  {
    TableShape();
    forall j | |Prelude| + |Reserved| <= j < |Table| ensures c !in Table[j].1 {
      assert MathText(Table[j].1);
    }
  }

  lemma SymbolRemoved(text: string, i: nat)
    requires |Prelude| + |Reserved| <= i < |Table|
    ensures Table[i].0[0] !in TransformText(text)
  {
    TableShape();
    var c := Table[i].0[0];
    assert Table[i].0 == [c];
    SymbolsWriteAscii(c);
    TransformTextRemoves(text, i, c);
  }

  /** A character no replacement from entry `k` on writes is missing from the output once entry `k` removed it. */
  lemma PreludeEntryRemoves(text: string, k: nat, c: char)
    requires k < |Prelude| && Table[k].0 == [c]
    requires !IsAsciiLetter(c) && c != '$' && c != '\\' && c != '}' && c !in BlockMarker && c !in Mintinline("")
    requires forall j :: k <= j < |Prelude| + |Reserved| ==> c !in Table[j].1
    ensures c !in TransformText(text)
  {
    TableShape();
    forall j | |Prelude| + |Reserved| <= j < |Table| ensures c !in Table[j].1 {
      assert MathText(Table[j].1);
    }
    TransformTextRemoves(text, k, c);
  }

  lemma NbspRemoved(text: string) ensures '\U{A0}' !in TransformText(text) {
    PreludeEntryRemoves(text, 0, '\U{A0}');
  }

  lemma TildeRemoved(text: string) ensures '~' !in TransformText(text) {
    PreludeEntryRemoves(text, 2, '~');
  }

  lemma CaretRemoved(text: string) ensures '^' !in TransformText(text) {
    PreludeEntryRemoves(text, 3, '^');
  }

  /**
   * No backtick, non-breaking space, tilde or caret, and none of the Greek
   * letters and symbols the table knows, is left in the output.
   */
  lemma TransformTextClean(text: string)
    ensures '`' !in TransformText(text)
    ensures '\U{A0}' !in TransformText(text) && '~' !in TransformText(text) && '^' !in TransformText(text)
    ensures forall i :: |Prelude| + |Reserved| <= i < |Table| ==> Table[i].0 != [] && Table[i].0[0] !in TransformText(text)
  {
    TableShape();
    InlineCodeRemovesBackticks(Fences(ReplaceEach(text, Table)));
    NbspRemoved(text);
    TildeRemoved(text);
    CaretRemoved(text);
    forall i | |Prelude| + |Reserved| <= i < |Table| ensures Table[i].0 != [] && Table[i].0[0] !in TransformText(text) {
      SymbolRemoved(text, i);
    }
  }

  /** No pattern of the table starts with an ordinary character or a backtick. */
  lemma TableMisses(s: string, except: char)
    requires PlainBut(s, except)
    requires except == '`' || except == '\\'
    ensures forall i :: 0 <= i < |Table| && i != 1 ==> IndexOf(s, Table[i].0) < 0
  {
    forall i | 0 <= i < |Table| && i != 1 ensures IndexOf(s, Table[i].0) < 0 {
      var p := TablePattern(i);
      LacksSpecial(s, p[0], except);
      FirstAbsent(s, p);
    }
  }

  /** Ordinary characters, backticks and the one character `except`. */
  predicate PlainBut(s: string, except: char) {
    forall j :: 0 <= j < |s| ==> Ordinary(s[j]) || s[j] == '`' || s[j] == except
  }

  lemma LacksSpecial(s: string, c: char, except: char)
    requires PlainBut(s, except)
    requires !Ordinary(c) && c != '`' && c != except
    ensures c !in s
  {
  }

  lemma InlineCodeUnchanged(s: string)
    requires '`' !in s
    ensures InlineCode(s) == s
  {
    SplitWhole(s, "`");
    assert [s][1..] == [];
    assert AlternateInline([s], false) == s + AlternateInline([], true);
  }

  /** Text without a backtick holds no code markup, and the code steps leave it alone. */
  lemma Unfenced(s: string)
    requires '`' !in s
    ensures InlineCode(Fences(s)) == s
  {
    SplitWhole(s, "```");
    assert [s][1..] == [];
    assert s + "" == s;
    assert Fences(s) == s;
    InlineCodeUnchanged(s);
  }

  /** Ordinary text comes out exactly as it went in. */
  lemma TransformTextPlain(s: string)
    requires OrdinaryText(s)
    ensures TransformText(s) == s
  {
    TableShape();
    TableMisses(s, '`');
    assert IndexOf(s, Table[1].0) < 0 by { FirstAbsent(s, Table[1].0); }
    ReplaceEachUnchanged(s, Table);
    Unfenced(s);
  }

  /** A single backslash is not one the table matches: it is kept as it is. */
  lemma LoneBackslashKept(a: string, b: string)
    requires OrdinaryText(a) && OrdinaryText(b)
    ensures TransformText(a + "\\" + b) == a + "\\" + b
  {
    var s := a + "\\" + b;
    TableShape();
    BackslashWords();
    PlainAround(a, "\\", b, '\\');
    TableMisses(s, '\\');
    forall j | 0 <= j && j + 2 <= |s| ensures !OccursAt(s, "\\\\", j) {
      if j < |a| {
        assert s[j] == a[j];
      } else if j == |a| {
        assert s[j + 1] == b[0];
      } else {
        assert s[j] == b[j - |a| - 1];
      }
    }
    ReplaceEachUnchanged(s, Table);
    Unfenced(s);
  }

  /** A doubled backslash becomes the `\textbackslash` command followed by a space. */
  lemma DoubleBackslashRendered(a: string, b: string)
    requires OrdinaryText(a) && OrdinaryText(b)
    ensures TransformText(a + "\\\\" + b) == a + "\\textbackslash " + b
  {
    var s := a + "\\\\" + b;
    var s' := a + "\\textbackslash " + b;
    TableShape();
    BackslashWords();
    PlainAround(a, "\\\\", b, '\\');
    TableMisses(s, '\\');
    FirstAbsent(b, "\\\\");
    ReplaceSingle(a, "\\\\", b, "\\textbackslash ");
    PlainAround(a, "\\textbackslash ", b, '\\');
    TableMisses(s', '\\');
    ReplaceEachOnly(s, Table, 1, s');
    Unfenced(s');
  }

  /** The command that a doubled backslash becomes adds no special character but backslashes. */
  /** Ordinary text around a piece made of ordinary characters and `except`. */
  lemma PlainAround(a: string, w: string, b: string, except: char)
    requires OrdinaryText(a) && OrdinaryText(b) && PlainBut(w, except)
    ensures PlainBut(a + w + b, except)
  {
    var s := a + w + b;
    forall j | 0 <= j < |s| ensures Ordinary(s[j]) || s[j] == '`' || s[j] == except {
      if j < |a| {
        assert s[j] == a[j];
      } else if j < |a| + |w| {
        assert s[j] == w[j - |a|];
      } else {
        assert s[j] == b[j - |a| - |w|];
      }
    }
  }

  /** The command that a doubled backslash becomes adds no special character but a backslash. */
  lemma BackslashWords()
    ensures PlainBut("\\", '\\') && PlainBut("\\\\", '\\') && PlainBut("\\textbackslash ", '\\')
  {
    var w := "\\textbackslash ";
    assert forall j :: 1 <= j < |w| ==> Ordinary(w[j]);
  }

  /** Ordinary characters and backticks. */
  predicate Untouched(s: string) {
    forall j :: 0 <= j < |s| ==> Ordinary(s[j]) || s[j] == '`'
  }

  lemma UntouchedConcat(a: string, b: string)
    requires Untouched(a) && Untouched(b)
    ensures Untouched(a + b)
  {
    forall j | |a| <= j < |a + b| ensures Ordinary((a + b)[j]) || (a + b)[j] == '`' {
      assert (a + b)[j] == b[j - |a|];
    }
  }

  /** Text of ordinary characters and backticks is not touched by the table. */
  lemma TableKeeps(s: string)
    requires Untouched(s)
    ensures ReplaceEach(s, Table) == s
  {
    TableShape();
    TableMissesAll(s);
    ReplaceEachUnchanged(s, Table);
  }

  lemma TableMissesAll(s: string)
    requires Untouched(s)
    ensures forall i :: 0 <= i < |Table| ==> IndexOf(s, Table[i].0) < 0
  {
    forall i | 0 <= i < |Table| ensures IndexOf(s, Table[i].0) < 0 {
      var p := TablePattern(i);
      UntouchedLacks(s, p[0]);
      FirstAbsent(s, p);
    }
  }

  lemma TablePattern(i: nat) returns (p: string)
    requires i < |Table|
    ensures p == Table[i].0 && |p| > 0 && !Ordinary(p[0]) && p[0] != '`'
    ensures i != 1 ==> p[0] != '\\'
  {
    TableShape();
    p := Table[i].0;
  }

  lemma UntouchedLacks(s: string, c: char)
    requires Untouched(s)
    requires !Ordinary(c) && c != '`'
    ensures c !in s
  {
  }

  /** Splitting `d + x + d + z` at `d`, where `x` and `z` lack the first character of `d`. */
  lemma SplitAround(d: string, x: string, z: string)
    requires |d| > 0 && d[0] !in x && d[0] !in z
    ensures Split(d + x + d + z, d) == ["", x, z]
  {
    var rest := x + d + z;
    assert Split(rest, d) == [x, z] by {
      SplitWhole(z, d);
      SplitAfter(x, d, z);
    }
    AppendAssoc(d, x, d);
    AppendAssoc(d, x + d, z);
    assert "" + d == d;
    SplitAfter("", d, rest);
  }

  lemma InlineOfThree(code: string)
    ensures AlternateInline(["", code, ""], false) == Mintinline(code)
  {
    assert [""][1..] == [] && [code, ""][1..] == [""] && ["", code, ""][1..] == [code, ""];
    assert AlternateInline([""], false) == "";
    assert AlternateInline([code, ""], true) == Mintinline(code) + AlternateInline([""], false);
  }

  /** Text between two single backticks becomes inline code. */
  lemma InlineCodeRendered(code: string)
    requires OrdinaryText(code)
    ensures TransformText("`" + code + "`") == Mintinline(code)
  {
    var s := "`" + code + "`";
    TableKeeps(s);
    forall j | 0 <= j && j + 3 <= |s| ensures !OccursAt(s, "```", j) {
      assert s[j + 1] == code[j] && s[j..j + 3][1] == s[j + 1];
    }
    assert Split(s, "```") == [s];
    assert Fences(s) == s + MarkFences([]);
    SplitAround("`", code, "");
    assert "`" + code + "`" + "" == s;
    assert s + "" == s;
    InlineOfThree(code);
  }

  /** What a fenced block in language `lang` becomes before `blockSnippeter` runs. */
  function MarkedBlock(lang: string, code: string): string {
    BlockMarker + (lang + "}" + code) + BlockMarker + "}"
  }

  lemma FenceMarks(lang: string, code: string)
    requires forall j :: 0 <= j < |lang| ==> IsAsciiLetter(lang[j])
    requires code == [] || !IsAsciiLetter(code[0])
    ensures MarkFences([lang + code, ""]) == MarkedBlock(lang, code)
  {
    var x := lang + code;
    RunLengthIs(x, 0, |lang|, IsAsciiLetter);
    assert x[..|lang|] == lang && x[|lang|..] == code;
    assert [x, ""][1..] == [""];
    EmptyFence();
  }

  /** The empty piece after a closing fence is an empty marker. */
  lemma EmptyFence()
    ensures MarkFences([""]) == BlockMarker + "}"
  {
    RunLengthIs("", 0, 0, IsAsciiLetter);
    assert [""][1..] == [];
    assert MarkFences([""]) == BlockMarker + "" + "}" + "" + MarkFences([]);
  }

  /** The characters of a fenced block with a language name and ordinary code. */
  lemma FencedBlockUntouched(lang: string, code: string)
    requires forall j :: 0 <= j < |lang| ==> IsAsciiLetter(lang[j])
    requires OrdinaryText(code)
    ensures Untouched("```" + (lang + code) + "```")
  {
    assert Untouched("```");
    assert Untouched(lang);
    UntouchedConcat(lang, code);
    UntouchedConcat("```", lang + code);
    UntouchedConcat("```" + (lang + code), "```");
  }

  /** A fenced block, after the text escaping: its language between a marker and a brace, and a second marker closing it. */
  lemma FencedBlockMarked(lang: string, code: string)
    requires forall j :: 0 <= j < |lang| ==> IsAsciiLetter(lang[j])
    requires OrdinaryText(code) && (code == [] || !IsAsciiLetter(code[0]))
    ensures TransformText("```" + (lang + code) + "```") == MarkedBlock(lang, code)
  {
    var x := lang + code;
    var s := "```" + x + "```";
    FencedBlockUntouched(lang, code);
    TableKeeps(s);
    assert '`' !in code by {
      assert forall j :: 0 <= j < |code| ==> Ordinary(code[j]);
    }
    FencesOfBlock(lang, code);
    MarkedBlockNoBacktick(lang, code);
    InlineCodeUnchanged(MarkedBlock(lang, code));
  }

  lemma MarkedBlockNoBacktick(lang: string, code: string)
    requires forall j :: 0 <= j < |lang| ==> IsAsciiLetter(lang[j])
    requires '`' !in code
    ensures '`' !in MarkedBlock(lang, code)
  {
    assert '`' !in BlockMarker;
    assert '`' !in lang + "}" + code;
  }

  lemma FencesOfBlock(lang: string, code: string)
    requires forall j :: 0 <= j < |lang| ==> IsAsciiLetter(lang[j])
    requires '`' !in code && (code == [] || !IsAsciiLetter(code[0]))
    ensures Fences("```" + (lang + code) + "```") == MarkedBlock(lang, code)
  {
    var x := lang + code;
    var s := "```" + x + "```";
    assert '`' !in x;
    SplitAround("```", x, "");
    assert s + "" == s;
    FenceMarks(lang, code);
    var m := MarkedBlock(lang, code);
    assert Fences(s) == "" + m;
    assert "" + m == m;
  }

  lemma MintedOf(lang: string, code: string)
    requires forall j :: 0 <= j < |lang| ==> IsAsciiLetter(lang[j])
    ensures Minted(lang + "}" + code) == MintedOpen(lang) + code + "\\end{minted"
  {
    var y := lang + "}" + code;
    RunLengthIs(y, 0, |lang|, IsAsciiLetter);
    assert y[..|lang|] == lang && y[|lang| + 1..] == code;
  }

  /** The marker's backslash is its only one, so two markers never overlap. */
  lemma MarkerHeadUnique()
    ensures |BlockMarker| > 0 && BlockMarker[0] !in BlockMarker[1..]
  {
  }

  /** Three marker-free pieces joined by two markers split back into those pieces. */
  lemma SplitAtMarkers(a: string, y: string, w: string)
    requires !Contains(a, BlockMarker) && !Contains(y, BlockMarker) && !Contains(w, BlockMarker)
    ensures Split(a + BlockMarker + y + BlockMarker + w, BlockMarker) == [a, y, w]
  {
    MarkerHeadUnique();
    SplitWholeFree(w, BlockMarker);
    SplitAfterFree(y, BlockMarker, w);
    SplitAfterFree(a, BlockMarker, y + BlockMarker + w);
    assert a + BlockMarker + y + BlockMarker + w == a + BlockMarker + (y + BlockMarker + w);
  }

  lemma AlternateOfThree(a: string, y: string, w: string)
    ensures AlternateBlocks([a, y, w], false) == a + Minted(y) + w
  {
    assert [a, y, w][1..] == [y, w] && [y, w][1..] == [w] && [w][1..] == [];
    assert AlternateBlocks([w], false) == w;
    assert AlternateBlocks([y, w], true) == Minted(y) + w;
  }

  /** The language and code of a marked block, and what follows its closing marker, hold no marker. */
  lemma MarkedPiecesFree(lang: string, code: string, b: string)
    requires forall j :: 0 <= j < |lang| ==> IsAsciiLetter(lang[j])
    requires !Contains(code, BlockMarker) && !Contains(b, BlockMarker)
    ensures !Contains(lang + "}" + code, BlockMarker) && !Contains("}" + b, BlockMarker)
  {
    assert '\\' !in lang + "}";
    ContainsAfterFree(lang + "}", code, BlockMarker);
    ContainsAfterFree("}", b, BlockMarker);
  }

  /**
   * A marked block inside text that holds no other marker becomes one
   * `minted` environment, and the text around it is kept as it is.
   */
  lemma BlockSnippeterAround(a: string, lang: string, code: string, b: string)
    requires forall j :: 0 <= j < |lang| ==> IsAsciiLetter(lang[j])
    requires !Contains(a, BlockMarker) && !Contains(code, BlockMarker) && !Contains(b, BlockMarker)
    ensures BlockSnippeter(a + MarkedBlock(lang, code) + b) == a + MintedOpen(lang) + code + "\\end{minted}" + b
  {
    var y, w := lang + "}" + code, "}" + b;
    var open := MintedOpen(lang);
    calc {
      BlockSnippeter(a + MarkedBlock(lang, code) + b);
      { MarkedBlockAround(a, lang, code, b); }
      AlternateBlocks(Split(a + BlockMarker + y + BlockMarker + w, BlockMarker), false);
      { MarkedPiecesFree(lang, code, b); SplitAtMarkers(a, y, w); }
      AlternateBlocks([a, y, w], false);
      { AlternateOfThree(a, y, w); }
      a + Minted(y) + w;
      { MintedOf(lang, code); }
      a + (open + code + "\\end{minted") + ("}" + b);
      { ClosingBrace(a, open, code, b); }
      a + open + code + "\\end{minted}" + b;
    }
  }

  lemma MarkedBlockAround(a: string, lang: string, code: string, b: string)
    ensures a + MarkedBlock(lang, code) + b == a + BlockMarker + (lang + "}" + code) + BlockMarker + ("}" + b)
  {
  }

  lemma ClosingBrace(a: string, open: string, code: string, b: string)
    ensures a + (open + code + "\\end{minted") + ("}" + b) == a + open + code + "\\end{minted}" + b
  {
  }

  /** The marked block becomes one `minted` environment. */
  lemma MarkedBlockSnippet(lang: string, code: string)
    requires forall j :: 0 <= j < |lang| ==> IsAsciiLetter(lang[j])
    requires !Contains(code, BlockMarker)
    ensures BlockSnippeter(MarkedBlock(lang, code)) == MintedOpen(lang) + code + "\\end{minted}"
  {
    BlockSnippeterAround("", lang, code, "");
    assert "" + MarkedBlock(lang, code) + "" == MarkedBlock(lang, code);
    assert "" + MintedOpen(lang) + code + "\\end{minted}" + "" == MintedOpen(lang) + code + "\\end{minted}";
  }

  /** No pattern or replacement of the escaping table holds a backtick. */
  lemma TableBacktickFree()
    ensures forall i :: 0 <= i < |Table| ==> '`' !in Table[i].0 && '`' !in Table[i].1
  {
    TableShape();
    PlainBacktickFree();
    var n := |Prelude| + |Reserved|;
    forall i | 0 <= i < |Table| ensures '`' !in Table[i].0 && '`' !in Table[i].1 {
      if i < n {
        assert Table[i] == (Prelude + Reserved)[i];
      } else {
        MathTextNoBacktick(Table[i].1);
      }
    }
  }

  lemma PlainBacktickFree()
    ensures forall i :: 0 <= i < |Prelude + Reserved| ==>
              '`' !in (Prelude + Reserved)[i].0 && '`' !in (Prelude + Reserved)[i].1
  {
  }

  lemma MathTextNoBacktick(r: string)
    requires MathText(r)
    ensures '`' !in r
  {
    assert forall j :: 0 <= j < |r| ==> r[j] != '`';
  }

  /**
   * A replacement table that leaves fenced blocks recognisable: no pattern
   * starts with a letter, and no pattern or replacement holds a backtick.
   */
  predicate FenceSafe(t: seq<(string, string)>) {
    ValidTable(t) &&
    forall i :: 0 <= i < |t| ==> !IsAsciiLetter(t[i].0[0]) && '`' !in t[i].0 && '`' !in t[i].1
  }

  lemma TableFenceSafe()
    ensures FenceSafe(Table)
  {
    TableShape();
    TableBacktickFree();
  }

  /** A fence-safe table leaves the fences and the language name of a block alone. */
  lemma AroundFences(lang: string, code: string, t: seq<(string, string)>)
    requires forall j :: 0 <= j < |lang| ==> IsAsciiLetter(lang[j])
    requires FenceSafe(t)
    ensures ReplaceEach("```" + (lang + code) + "```", t) == "```" + (lang + ReplaceEach(code, t)) + "```"
  {
    var x, z := "```" + lang, "```";
    forall i | 0 <= i < |t| ensures t[i].0[0] !in x {
      var c := t[i].0[0];
      assert c in t[i].0 && !IsAsciiLetter(c);
      forall j | 0 <= j < |x| ensures x[j] != c {
        if j >= 3 {
          assert x[j] == lang[j - 3];
        }
      }
    }
    forall i, j | 0 <= i < |t| && 0 <= j < |z| ensures z[j] !in t[i].0 {
      assert z[j] == '`';
    }
    ReplaceEachAround(x, code, z, t);
    FenceRegroup(lang, code);
    FenceRegroup(lang, ReplaceEach(code, t));
  }

  lemma FenceRegroup(lang: string, code: string)
    ensures "```" + (lang + code) + "```" == ("```" + lang) + code + "```"
  {
  }

  /** Escaping and fence marking turn a fenced block into a marked block of its escaped code. */
  lemma FencedBlockTransformed(lang: string, code: string, t: seq<(string, string)>)
    requires forall j :: 0 <= j < |lang| ==> IsAsciiLetter(lang[j])
    requires FenceSafe(t) && '`' !in code
    requires ReplaceEach(code, t) == [] || !IsAsciiLetter(ReplaceEach(code, t)[0])
    ensures InlineCode(Fences(ReplaceEach("```" + (lang + code) + "```", t))) == MarkedBlock(lang, ReplaceEach(code, t))
  {
    var e := ReplaceEach(code, t);
    ReplaceEachKeepsAbsent(code, t, '`');
    calc {
      InlineCode(Fences(ReplaceEach("```" + (lang + code) + "```", t)));
      { AroundFences(lang, code, t); }
      InlineCode(Fences("```" + (lang + e) + "```"));
      { FencesOfBlock(lang, e); }
      InlineCode(MarkedBlock(lang, e));
      { MarkedBlockNoBacktick(lang, e); InlineCodeUnchanged(MarkedBlock(lang, e)); }
      MarkedBlock(lang, e);
    }
  }

  /**
   * A fenced code block of the document, in a language named by letters (or
   * none, which means plain text), becomes a `minted` environment holding
   * its code as the text escaping leaves it.
   */
  lemma CodeBlockRendered(lang: string, code: string)
    requires forall j :: 0 <= j < |lang| ==> IsAsciiLetter(lang[j])
    requires '`' !in code
    requires var e := ReplaceEach(code, Table); (e == [] || !IsAsciiLetter(e[0])) && !Contains(e, BlockMarker)
    ensures BlockSnippeter(TransformText("```" + (lang + code) + "```"))
            == MintedOpen(lang) + ReplaceEach(code, Table) + "\\end{minted}"
  {
    TableFenceSafe();
    FencedBlockTransformed(lang, code, Table);
    MarkedBlockSnippet(lang, ReplaceEach(code, Table));
  }

  /** Text without a block marker passes through `blockSnippeter` unchanged. */
  lemma BlockSnippeterUnmarked(s: string)
    requires !Contains(s, BlockMarker)
    ensures BlockSnippeter(s) == s
  {
    assert Split(s, BlockMarker) == [s];
    assert [s][1..] == [];
    assert AlternateBlocks([s], false) == s + AlternateBlocks([], true);
  }
}
