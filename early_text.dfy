/**
 * The text escaping of the two earlier versions of the converter: the
 * command-line script `src/index.ts` and the original `gdoc2latex.js`. They
 * share one table, which escapes every backslash and dollar sign, knows a
 * single Greek letter and produces no code markup; they differ only in how
 * that letter is spelled in the pattern.
 */
module EarlyText {
  import opened JsString
  import opened Escaping
  import Css

  /** The two earlier versions. */
  datatype Version = IndexTs | LegacyJs

  /** The three selector lists the earlier versions know. */
  datatype TextSelectors = TextSelectors(bold: seq<string>, italic: seq<string>, underlined: seq<string>)

  /** `getTextFormatSelectors` in `src/index.ts`, `getTextSelectors` in `gdoc2latex.js`. */
  function GetTextSelectors(css: string): (r: TextSelectors)
    ensures |r.bold| == Occurrences(css, "font-weight:700")
    ensures |r.italic| == Occurrences(css, "font-style:italic")
    ensures |r.underlined| == Occurrences(css, "text-decoration:underline")
  {
    TextSelectors(
      Css.GetSelector(css, "font-weight:700"),
      Css.GetSelector(css, "font-style:italic"),
      Css.GetSelector(css, "text-decoration:underline"))
  }

  /**
   * The pattern meant to find the letter lambda. The script's source holds
   * the two characters `Î»`, the UTF-8 bytes of `λ` read as Latin-1, so it
   * finds those two characters and not the letter; the original script
   * finds the letter.
   */
  function LambdaPattern(v: Version): (r: string)
    ensures |r| > 0 && forall j :: 0 <= j < |r| ==> r[j] > '\U{7E}' && r[j] != '\U{A0}'
  {
    match v
    case IndexTs => "\U{CE}\U{BB}"
    case LegacyJs => "\U{3BB}"
  }

  /** The replacements in the order they are applied. */
  function Table(v: Version): seq<(string, string)> {
    if v == IndexTs then IndexTable else LegacyTable
  }

  const IndexTable := Replacements(LambdaPattern(IndexTs))
  const LegacyTable := Replacements(LambdaPattern(LegacyJs))

  /** The table, given the pattern of the letter lambda. */
  function Replacements(lambda: string): seq<(string, string)> {
    [("\U{A0}", " "),
     ("\\", "\\textbackslash"),
     ("~", "\\textasciitilde"),
     ("^", "\\textasciicircum"),
     ("&", "\\&"),
     ("%", "\\%"),
     ("$", "\\$"),
     ("#", "\\#"),
     ("_", "\\_"),
     ("{", "\\{"),
     ("}", "\\}"),
     (lambda, "$\\lambda$")]
  }

  /** `transformText` after the HTML entities are decoded. */
  function TransformText(v: Version, text: string): string {
    ReplaceEach(text, Table(v))
  }

  /** Printable ASCII. */
  predicate Ascii(s: string) {
    forall j :: 0 <= j < |s| ==> '\U{20}' <= s[j] <= '\U{7E}'
  }

  lemma TableShape(v: Version)
    ensures |Table(v)| == 12 && ValidTable(Table(v))
    ensures forall i :: 0 <= i < 12 ==> !Ordinary(Table(v)[i].0[0]) && Ascii(Table(v)[i].1)
    ensures forall i :: 0 <= i < 12 && i != 1 ==> Table(v)[i].0[0] != '\\'
    ensures forall i :: 0 <= i < 11 ==> |Table(v)[i].0| == 1 && (Table(v)[i].0[0] <= '\U{7E}' || Table(v)[i].0[0] == '\U{A0}')
    ensures Table(v)[1] == ("\\", "\\textbackslash") && Table(v)[11] == (LambdaPattern(v), "$\\lambda$")
  {
    assert Table(v) == Replacements(LambdaPattern(v));
    ReplacementsShape(LambdaPattern(v));
  }

  lemma ReplacementsShape(l: string)
    requires |l| > 0 && forall j :: 0 <= j < |l| ==> l[j] > '\U{7E}' && l[j] != '\U{A0}'
    ensures var t := Replacements(l);
            && |t| == 12 && ValidTable(t)
            && (forall i :: 0 <= i < 12 ==> !Ordinary(t[i].0[0]) && Ascii(t[i].1))
            && (forall i :: 0 <= i < 12 && i != 1 ==> t[i].0[0] != '\\')
            && (forall i :: 0 <= i < 11 ==> |t[i].0| == 1 && (t[i].0[0] <= '\U{7E}' || t[i].0[0] == '\U{A0}'))
            && t[1] == ("\\", "\\textbackslash") && t[11] == (l, "$\\lambda$")
  {
    var t := Replacements(l);
    forall i | 0 <= i < 12 ensures |t[i].0| > 0 && !Ordinary(t[i].0[0]) && Ascii(t[i].1) {
      ReplacementShape(l, i);
    }
    forall i | 0 <= i < 11 ensures |t[i].0| == 1 && (t[i].0[0] <= '\U{7E}' || t[i].0[0] == '\U{A0}') {
      ReplacementShape(l, i);
    }
  }

  /** Entry `i` of the table: a pattern starting with a special character, an ASCII replacement. */
  lemma ReplacementShape(l: string, i: nat)
    requires |l| > 0 && forall j :: 0 <= j < |l| ==> l[j] > '\U{7E}' && l[j] != '\U{A0}'
    requires i < 12
    ensures var e := Replacements(l)[i];
            && |e.0| > 0 && !Ordinary(e.0[0]) && Ascii(e.1) && (i != 1 ==> e.0[0] != '\\')
            && (i < 11 ==> |e.0| == 1 && (e.0[0] <= '\U{7E}' || e.0[0] == '\U{A0}'))
  {
  }

  /**
   * Each of `&`, `%`, `#`, `_`, `{` and `}` comes out preceded by a
   * backslash, wherever it stood in the text.
   */
  lemma TransformTextEscapes(v: Version, text: string, c: char)
    requires c in "&%#_{}"
    ensures Escaped(TransformText(v, text), c)
  {
    var l := LambdaPattern(v);
    var t := Table(v);
    assert t == Replacements(l);
    var k := if c == '&' then 4 else if c == '%' then 5 else if c == '#' then 7
             else if c == '_' then 8 else if c == '{' then 9 else 10;
    ReplacementsKeepEscaped(l, c, k);
    ReplaceEachEscapes(text, t, k, c);
  }

  /** Past the entry that escapes `c`, no replacement writes a bare `c` or matches a backslash. */
  lemma ReplacementsKeepEscaped(l: string, c: char, k: nat)
    requires |l| > 0 && forall j :: 0 <= j < |l| ==> l[j] > '\U{7E}'
    requires c in "&%#_{}"
    requires k == if c == '&' then 4 else if c == '%' then 5 else if c == '#' then 7
                  else if c == '_' then 8 else if c == '{' then 9 else 10
    ensures var t := Replacements(l);
            && |t| == 12 && ValidTable(t) && t[k] == ([c], ['\\', c])
            && forall i :: k < i < |t| ==> KeepsEscaped(t[i], c)
  {
    var t := Replacements(l);
    forall i | k < i < |t| ensures KeepsEscaped(t[i], c) {
      assert c !in t[i].1;
      EscapedAbsent(t[i].1, c);
      if i == 11 {
        assert '\\' !in l;
      }
    }
  }

  /**
   * The dollar signs of the text are escaped too, as long as the text does
   * not hold the lambda pattern, whose replacement brings dollars of its own.
   */
  lemma DollarEscaped(v: Version, text: string)
    requires LambdaPattern(v)[0] !in text
    ensures Escaped(TransformText(v, text), '$')
  {
    var l := LambdaPattern(v);
    var t := Table(v);
    assert t == Replacements(l);
    var u := ReplaceEach(text, t[..11]);
    DollarEscapedBeforeLambda(l, text);
    ReplaceEachSplit(text, t, 11);
    LastStepKeeps(u, l, t[11..]);
  }

  /** A last replacement whose pattern does not occur changes nothing. */
  lemma LastStepKeeps(u: string, l: string, rest: seq<(string, string)>)
    requires |l| > 0 && l[0] !in u && rest == [(l, "$\\lambda$")]
    ensures ReplaceEach(u, rest) == u
  {
    FirstAbsent(u, l);
    assert ReplaceEach(u, rest) == ReplaceEach(ReplaceAll(u, l, "$\\lambda$"), []);
    ReplaceAllNoMatch(u, l, "$\\lambda$");
  }

  /** The first eleven replacements escape the dollars and bring no lambda pattern in. */
  lemma DollarEscapedBeforeLambda(l: string, text: string)
    requires |l| > 0 && forall j :: 0 <= j < |l| ==> l[j] > '\U{7E}' && l[j] != '\U{A0}'
    requires l[0] !in text
    ensures var t := Replacements(l);
            && |t| == 12 && t[11..] == [(l, "$\\lambda$")]
            && var u := ReplaceEach(text, t[..11]);
               Escaped(u, '$') && l[0] !in u
  {
    var head := Replacements(l)[..11];
    assert ValidTable(head) && head[6] == ("$", "\\$");
    forall i | 6 < i < 11 ensures KeepsEscaped(head[i], '$') {
      assert '$' !in head[i].1;
      EscapedAbsent(head[i].1, '$');
    }
    ReplaceEachEscapes(text, head, 6, '$');
    forall i | 0 <= i < 11 ensures l[0] !in head[i].1 {
      ReplacementShape(l, i);
    }
    ReplaceEachKeepsAbsent(text, head, l[0]);
  }

  lemma NbspRemoved(v: Version, text: string)
    ensures '\U{A0}' !in TransformText(v, text)
  {
    TableShape(v);
    ReplaceEachRemoves(text, Table(v), 0, '\U{A0}');
  }

  lemma TildeRemoved(v: Version, text: string)
    ensures '~' !in TransformText(v, text)
  {
    TableShape(v);
    ReplaceEachRemoves(text, Table(v), 2, '~');
  }

  lemma CaretRemoved(v: Version, text: string)
    ensures '^' !in TransformText(v, text)
  {
    TableShape(v);
    ReplaceEachRemoves(text, Table(v), 3, '^');
  }

  /** Ordinary text comes out exactly as it went in. */
  lemma TransformTextPlain(v: Version, s: string)
    requires OrdinaryText(s)
    ensures TransformText(v, s) == s
  {
    TableShape(v);
    forall i | 0 <= i < 12 ensures IndexOf(s, Table(v)[i].0) < 0 {
      FirstAbsent(s, Table(v)[i].0);
    }
    ReplaceEachUnchanged(s, Table(v));
  }

  /**
   * Every backslash becomes the `\textbackslash` command, with no space after
   * it: ordinary text cut by any number of backslashes, single or adjacent,
   * comes out with each of them replaced.
   */
  lemma BackslashRendered(v: Version, parts: seq<string>)
    requires parts != [] && forall i :: 0 <= i < |parts| ==> OrdinaryText(parts[i])
    ensures TransformText(v, Join(parts, "\\")) == Join(parts, "\\textbackslash")
  {
    TableShape(v);
    BackslashOnly(Table(v), parts);
  }

  /**
   * For any chain whose second entry turns a backslash into the command and
   * whose other patterns start with a special character other than a
   * backslash, the chain does what that entry does.
   */
  lemma BackslashOnly(t: seq<(string, string)>, parts: seq<string>)
    requires |t| == 12 && ValidTable(t) && t[1] == ("\\", "\\textbackslash")
    requires forall i :: 0 <= i < 12 ==> !Ordinary(t[i].0[0])
    requires forall i :: 0 <= i < 12 && i != 1 ==> t[i].0[0] != '\\'
    requires parts != [] && forall i :: 0 <= i < |parts| ==> OrdinaryText(parts[i])
    ensures ReplaceEach(Join(parts, "\\"), t) == Join(parts, "\\textbackslash")
  {
    var s := Join(parts, "\\");
    var s' := Join(parts, "\\textbackslash");
    JoinLacks(parts, "\\", t[0].0[0]);
    FirstAbsent(s, t[0].0);
    JoinSplit(parts, "\\");
    forall i | 1 < i < 12 ensures IndexOf(s', t[i].0) < 0 {
      var c := t[i].0[0];
      CommandWordAbsent(c);
      JoinLacks(parts, "\\textbackslash", c);
      FirstAbsent(s', t[i].0);
    }
    ReplaceEachOnly(s, t, 1, s');
  }

  /** Ordinary pieces joined by a separator that lacks `c` lack a special character `c`. */
  lemma JoinLacks(parts: seq<string>, sep: string, c: char)
    requires !Ordinary(c) && c !in sep
    requires forall i :: 0 <= i < |parts| ==> OrdinaryText(parts[i])
    ensures c !in Join(parts, sep)
  {
    forall j | 0 <= j < |parts| ensures c !in parts[j] {
      assert OrdinaryText(parts[j]);
    }
    JoinKeepsAbsent(parts, sep, c);
  }

  /** The command that stands for a backslash holds no special character but the backslash. */
  lemma CommandWordAbsent(c: char)
    requires !Ordinary(c) && c != '\\'
    ensures c !in "\\textbackslash"
  {
    var w := "\\textbackslash";
    forall j | 1 <= j < |w| ensures Ordinary(w[j]) { }
  }

  /** The lambda pattern is set as the math-mode letter. */
  lemma LambdaRendered(v: Version, a: string, b: string)
    requires OrdinaryText(a) && OrdinaryText(b)
    ensures TransformText(v, a + LambdaPattern(v) + b) == a + "$\\lambda$" + b
  {
    var l := LambdaPattern(v);
    var s := a + l + b;
    TableShape(v);
    var t := Table(v);
    forall i | 0 <= i < 11 ensures IndexOf(s, t[i].0) < 0 {
      FirstAbsent(s, t[i].0);
    }
    FirstAbsent(b, l);
    ReplaceSingle(a, l, b, "$\\lambda$");
    ReplaceEachOnly(s, t, 11, a + "$\\lambda$" + b);
  }

  /**
   * The script in `src/index.ts` leaves a real lambda as it is: its pattern
   * is the two-character misspelling.
   */
  lemma IndexKeepsLetterLambda(a: string, b: string)
    requires OrdinaryText(a) && OrdinaryText(b)
    ensures TransformText(IndexTs, a + "\U{3BB}" + b) == a + "\U{3BB}" + b
  {
    var s := a + "\U{3BB}" + b;
    TableShape(IndexTs);
    var t := Table(IndexTs);
    forall i | 0 <= i < 12 ensures IndexOf(s, t[i].0) < 0 {
      FirstAbsent(s, t[i].0);
    }
    ReplaceEachUnchanged(s, t);
  }
}
