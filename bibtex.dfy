/**
 * Turning a footnote's text into a BibTeX entry: the braces the text escaping
 * put in are taken out again, the entry key is replaced by the footnote's key,
 * blank lines are removed and the result is trimmed. Shared by the three
 * versions of the converter, which differ only in the shape of key the
 * rewrite accepts.
 */
module Bibtex {
  import opened Wrappers
  import opened JsString

  predicate IsAsciiAlnum(c: char) {
    IsAsciiLetter(c) || ('0' <= c <= '9')
  }

  /** `s.replace(/\\{/g, '{').replace(/\\}/g, '}')` */
  function Unbrace(s: string): string {
    ReplaceAll(ReplaceAll(s, "\\{", "{"), "\\}", "}")
  }

  /** Which key the entry-key pattern accepts between `{` and `,`. */
  datatype KeyShape =
      /** `\s*[^,]+\s*,`: any non-empty text up to the first comma (src/lib.ts, src/index.ts) */
    | AnyKey
      /** `\s*[a-zA-Z0-9]+\s*,`: one alphanumeric word between optional white space (gdoc2latex.js) */
    | AlnumKey

  /**
   * The head `@TYPE\s*{` of an entry at `p`: the end of the type's letters and
   * the index of the brace. The lazy `+?` ends up taking the whole run of
   * letters, since only a non-letter can be followed by white space and a brace.
   */
  function EntryHead(s: string, p: nat): (r: Option<(nat, nat)>)
    ensures r.Some? ==> p < |s| && s[p] == '@' && p + 1 < r.value.0 <= r.value.1 < |s| && s[r.value.1] == '{'
    ensures r.Some? ==> forall j :: p < j < r.value.0 ==> IsAsciiLetter(s[j])
  {
    if !(p < |s| && s[p] == '@') then None
    else
      var a := p + 1 + RunLength(s, p + 1, IsAsciiLetter);
      var b := a + RunLength(s, a, IsJsSpace);
      if a == p + 1 || b >= |s| || s[b] != '{' then None else Some((a, b))
  }

  /** The index just past the comma that ends the key starting at `q`, for each key shape. */
  function KeyEnd(s: string, q: nat, shape: KeyShape): (r: Option<nat>)
    requires q <= |s|
    ensures r.Some? ==> q < r.value <= |s| && s[r.value - 1] == ','
  {
    match shape
    case AnyKey =>
      var c := IndexOf(s[q..], ",");
      if c <= 0 then None
      else
        assert s[q + c] == s[q..][c..c + 1][0];
        Some(q + c + 1)
    case AlnumKey =>
      var k0 := q + RunLength(s, q, IsJsSpace);
      var k1 := k0 + RunLength(s, k0, IsAsciiAlnum);
      var e := k1 + RunLength(s, k1, IsJsSpace);
      if k1 == k0 || e >= |s| || s[e] != ',' then None else Some(e + 1)
  }

  /**
   * Where the pattern `@([a-zA-Z]+?)\s*{\s*KEY\s*,` matches when tried at `p`:
   * the entry type and the index just past the comma.
   */
  function KeyMatchAt(s: string, p: nat, shape: KeyShape): (r: Option<(string, nat)>)
    ensures r.Some? ==> p < r.value.1 <= |s| && s[p] == '@' && s[r.value.1 - 1] == ','
  {
    match EntryHead(s, p)
    case None => None
    case Some((a, b)) =>
      match KeyEnd(s, b + 1, shape)
      case None => None
      case Some(e) => Some((s[p + 1..a], e))
  }

  /** The leftmost position at or after `from` where the entry-key pattern matches. */
  function FirstKeyMatch(s: string, from: nat, shape: KeyShape): (r: Option<(nat, string, nat)>)
    requires from <= |s|
    ensures r.Some? ==> from <= r.value.0 && KeyMatchAt(s, r.value.0, shape) == Some((r.value.1, r.value.2))
    ensures r.Some? ==> forall p :: from <= p < r.value.0 ==> KeyMatchAt(s, p, shape).None?
    ensures r.None? ==> forall p :: from <= p <= |s| ==> KeyMatchAt(s, p, shape).None?
    decreases |s| - from
  {
    var m := KeyMatchAt(s, from, shape);
    if m.Some? then Some((from, m.value.0, m.value.1))
    else if from == |s| then None
    else FirstKeyMatch(s, from + 1, shape)
  }

  /**
   * `s.replace(KEY_PATTERN, '@$1{' + key + ',')`: only the first match is
   * rewritten, and the dollar patterns of the replacement string, those in
   * the key included, are expanded.
   */
  function RewriteKey(s: string, key: string, shape: KeyShape): string {
    match FirstKeyMatch(s, 0, shape)
    case None => s
    case Some((p, kind, end)) => s[..p] + Substitute("@$1{" + key + ",", s[p..end], s[..p], s[end..], Some(kind)) + s[end..]
  }

  /** The replacement string's own `$1` is the entry type; the key's patterns are expanded where they stand. */
  lemma KeyTemplate(key: string, matched: string, before: string, after: string, kind: string)
    ensures Substitute("@$1{" + key + ",", matched, before, after, Some(kind))
            == "@" + kind + "{" + Substitute(key, matched, before, after, Some(kind)) + ","
  {
    var t := "@$1{" + key + ",";
    var u, w := "$1{" + key + ",", "{" + key + ",";
    assert t[1..] == u && u[2..] == w && w[1..] == key + [','];
    calc {
      Substitute(t, matched, before, after, Some(kind));
      "@" + Substitute(u, matched, before, after, Some(kind));
      "@" + (kind + Substitute(w, matched, before, after, Some(kind)));
      "@" + (kind + ("{" + Substitute(key + [','], matched, before, after, Some(kind))));
      { SubstituteSnoc(key, ',', matched, before, after, Some(kind)); }
      "@" + (kind + ("{" + (Substitute(key, matched, before, after, Some(kind)) + ",")));
      "@" + kind + "{" + Substitute(key, matched, before, after, Some(kind)) + ",";
    }
  }

  /** The length of a blank line `[ \t]*\n` at the front of `s`, if there is one. */
  function BlankLineLength(s: string): (r: Option<nat>)
    ensures r.Some? ==> 0 < r.value <= |s| && s[r.value - 1] == '\n'
  {
    if s == [] then None
    else if s[0] == '\n' then Some(1)
    else if s[0] == ' ' || s[0] == '\t' then
      match BlankLineLength(s[1..])
      case None => None
      case Some(k) => Some(k + 1)
    else None
  }

  /**
   * `s.replace(/(^[ \t]*\n)/gm, '')` on the rest `s` of the input, where `atLineStart`
   * says whether `^` matches at its front (the start of the input, or just after a
   * line terminator of the input).
   */
  function DropBlankLinesFrom(s: string, atLineStart: bool): string
    decreases |s|
  {
    if s == [] then []
    else if atLineStart && BlankLineLength(s).Some? then
      DropBlankLinesFrom(s[BlankLineLength(s).value..], true)
    else [s[0]] + DropBlankLinesFrom(s[1..], IsLineTerminator(s[0]))
  }

  function DropBlankLines(s: string): string {
    DropBlankLinesFrom(s, true)
  }

  /** No line of `s` that `^` can start (from `atLineStart` on) is blank. */
  predicate NoBlankLines(s: string, atLineStart: bool)
    decreases |s|
  {
    s == [] || ((atLineStart ==> BlankLineLength(s).None?) && NoBlankLines(s[1..], IsLineTerminator(s[0])))
  }

  /** The full treatment of a footnote that holds a BibTeX entry, keyed by the footnote's key. */
  function Entry(payload: string, key: string, shape: KeyShape): string {
    Trim(DropBlankLines(RewriteKey(Unbrace(payload), key, shape)))
  }

  /** A text that does not start with a blank line keeps not starting with one after the scan. */
  lemma {:induction false} DropKeepsFirstLine(s: string)
    requires BlankLineLength(s).None?
    ensures BlankLineLength(DropBlankLinesFrom(s, false)).None?
    decreases |s|
  {
    if s != [] && (s[0] == ' ' || s[0] == '\t') {
      DropKeepsFirstLine(s[1..]);
    }
  }

  /** After the scan no line is blank. */
  lemma {:induction false} DropLeavesNoBlankLines(s: string, atLineStart: bool)
    ensures NoBlankLines(DropBlankLinesFrom(s, atLineStart), atLineStart)
    decreases |s|
  {
    if s == [] {
    } else if atLineStart && BlankLineLength(s).Some? {
      DropLeavesNoBlankLines(s[BlankLineLength(s).value..], true);
    } else {
      DropLeavesNoBlankLines(s[1..], IsLineTerminator(s[0]));
      var r := DropBlankLinesFrom(s, atLineStart);
      assert r == [s[0]] + DropBlankLinesFrom(s[1..], IsLineTerminator(s[0]));
      assert r[1..] == DropBlankLinesFrom(s[1..], IsLineTerminator(s[0]));
      if atLineStart && (s[0] == ' ' || s[0] == '\t') {
        DropKeepsFirstLine(s[1..]);
      }
    }
  }

  /** A text without blank lines is left as it is. */
  lemma {:induction false} DropKeepsClean(s: string, atLineStart: bool)
    requires NoBlankLines(s, atLineStart)
    ensures DropBlankLinesFrom(s, atLineStart) == s
    decreases |s|
  {
    if s != [] {
      DropKeepsClean(s[1..], IsLineTerminator(s[0]));
    }
  }

  /** Removing blank lines twice removes nothing more. */
  lemma DropBlankLinesIdempotent(s: string)
    ensures DropBlankLines(DropBlankLines(s)) == DropBlankLines(s)
  {
    DropLeavesNoBlankLines(s, true);
    DropKeepsClean(DropBlankLines(s), true);
  }

  /**
   * Splitting a join at its own separator gives the pieces back when no piece
   * holds the separator's first character.
   */
  lemma {:induction false} SplitOfJoin(ps: seq<string>, sep: string)
    requires |sep| > 0 && |ps| > 0
    requires forall i :: 0 <= i < |ps| ==> sep[0] !in ps[i]
    ensures Split(Join(ps, sep), sep) == ps
    decreases |ps|
  {
    if |ps| == 1 {
      SplitWhole(ps[0], sep);
    } else {
      SplitOfJoin(ps[1..], sep);
      SplitAfter(ps[0], sep, Join(ps[1..], sep));
    }
  }

  /**
   * Escaping a character with a backslash and then unescaping it gives back the
   * text, when the text holds no backslash of its own.
   */
  lemma EscapeThenUnescape(s: string, c: char)
    requires '\\' !in s && c != '\\'
    ensures ReplaceAll(ReplaceAll(s, [c], ['\\', c]), ['\\', c], [c]) == s
  {
    var ps := Split(s, [c]);
    SplitKeepsAbsent(s, [c], '\\');
    SplitOfJoin(ps, ['\\', c]);
    SplitJoin(s, [c]);
  }

  /** The brace escaping every text node goes through (`{` to `\{`, then `}` to `\}`). */
  function EscapeBraces(s: string): string {
    ReplaceAll(ReplaceAll(s, "{", "\\{"), "}", "\\}")
  }

  /** What the brace escaping makes of one character. */
  function EscapedUnit(c: char): string {
    if c == '{' then "\\{" else if c == '}' then "\\}" else [c]
  }

  lemma EscapeCons(c: char, t: string)
    ensures EscapeBraces([c] + t) == EscapedUnit(c) + EscapeBraces(t)
  {
    var e1 := ReplaceAll(t, "{", "\\{");
    if c == '{' {
      ReplaceAllFront("{", t, "\\{");
      PrefixFree("\\{", e1, "}");
      ReplaceAllPrefix("\\{", e1, "}", "\\}");
    } else if c == '}' {
      PrefixFree([c], t, "{");
      ReplaceAllPrefix([c], t, "{", "\\{");
      ReplaceAllFront("}", e1, "\\}");
    } else {
      PrefixFree([c], t, "{");
      ReplaceAllPrefix([c], t, "{", "\\{");
      PrefixFree([c], e1, "}");
      ReplaceAllPrefix([c], e1, "}", "\\}");
    }
  }

  lemma UnbraceCons(c: char, y: string)
    requires c != '\\'
    ensures Unbrace(EscapedUnit(c) + y) == [c] + Unbrace(y)
  {
    var d1 := ReplaceAll(y, "\\{", "{");
    if c == '{' {
      ReplaceAllFront("\\{", y, "{");
      PrefixFree("{", d1, "\\}");
      ReplaceAllPrefix("{", d1, "\\}", "}");
    } else if c == '}' {
      UnbraceClosing(y);
    } else {
      PrefixFree([c], y, "\\{");
      ReplaceAllPrefix([c], y, "\\{", "{");
      PrefixFree([c], d1, "\\}");
      ReplaceAllPrefix([c], d1, "\\}", "}");
    }
  }

  lemma UnbraceClosing(y: string)
    ensures Unbrace("\\}" + y) == "}" + Unbrace(y)
  {
    var w := "\\}" + y;
    assert w[0] == '\\' && w[1] == '}';
    assert !OccursAt(w, "\\{", 0) && !OccursAt(w, "\\{", 1);
    ReplaceAllPrefix("\\}", y, "\\{", "{");
    ReplaceAllFront("\\}", ReplaceAll(y, "\\{", "{"), "}");
  }

  /** The brace unescaping undoes the brace escaping, for a text free of backslashes. */
  lemma {:induction false} UnbraceUndoesEscape(s: string)
    requires '\\' !in s
    ensures Unbrace(EscapeBraces(s)) == s
    decreases |s|
  {
    if s != [] {
      assert s == [s[0]] + s[1..];
      UnbraceUndoesEscape(s[1..]);
      EscapeCons(s[0], s[1..]);
      UnbraceCons(s[0], EscapeBraces(s[1..]));
    }
  }

  /**
   * An entry `@TYPE{KEY,` whose key is free of commas gets the footnote's key
   * in place of its own, with the key's dollar patterns expanded against the
   * entry head; a key without a dollar sign is put in as it is.
   */
  lemma RewriteKeyOfEntry(kind: string, given: string, rest: string, key: string)
    requires |kind| > 0 && forall j :: 0 <= j < |kind| ==> IsAsciiLetter(kind[j])
    requires |given| > 0 && ',' !in given
    ensures var head := "@" + kind + "{" + given + ",";
            RewriteKey(head + rest, key, AnyKey) == "@" + kind + "{" + Substitute(key, head, "", rest, Some(kind)) + "," + rest
    ensures '$' !in key ==> RewriteKey("@" + kind + "{" + given + "," + rest, key, AnyKey) == "@" + kind + "{" + key + "," + rest
  {
    var tail := given + "," + rest;
    var s := "@" + kind + "{" + tail;
    EntryHeadOf(kind, tail);
    assert s == "@" + kind + "{" + given + "," + rest;
    var q := |kind| + 2;
    assert s[q..] == tail;
    AnyKeyAfter(s, q, given, rest);
    var e := q + |given| + 1;
    RewriteAtFront(s, |kind| + 1, key, AnyKey, e);
    assert s[..e] == "@" + kind + "{" + given + ",";
    if '$' !in key {
      SubstituteDollarFree(key, s[..e], "", rest, Some(kind));
    }
  }

  lemma AnyKeyAfter(s: string, q: nat, given: string, rest: string)
    requires q <= |s| && s[q..] == given + "," + rest
    requires |given| > 0 && ',' !in given
    ensures KeyEnd(s, q, AnyKey) == Some(q + |given| + 1) && s[q + |given| + 1..] == rest
  {
    assert s[q..] == given + ("," + rest);
    PrefixFree(given, "," + rest, ",");
    IndexOfIs(s[q..], ",", |given|);
    assert s[q + |given| + 1..] == s[q..][|given| + 1..];
  }

  /** The head of an entry `@TYPE{` at the front. */
  lemma EntryHeadOf(kind: string, tail: string)
    requires |kind| > 0 && forall j :: 0 <= j < |kind| ==> IsAsciiLetter(kind[j])
    ensures var s := "@" + kind + "{" + tail;
            EntryHead(s, 0) == Some((|kind| + 1, |kind| + 1)) && s[1..|kind| + 1] == kind
  {
    var s := "@" + kind + "{" + tail;
    RunLengthIs(s, 1, |kind|, IsAsciiLetter);
    RunLengthIs(s, |kind| + 1, 0, IsJsSpace);
  }

  lemma AlnumKeyEnd(s: string, q: nat, n: nat)
    requires 0 < n && q + n < |s| && s[q + n] == ','
    requires forall j :: q <= j < q + n ==> IsAsciiAlnum(s[j])
    ensures KeyEnd(s, q, AlnumKey) == Some(q + n + 1)
  {
    RunLengthIs(s, q, 0, IsJsSpace);
    RunLengthIs(s, q, n, IsAsciiAlnum);
    RunLengthIs(s, q + n, 0, IsJsSpace);
  }

  lemma AlnumKeyEndFails(s: string, q: nat, i: nat)
    requires q + i < |s| && !IsAsciiAlnum(s[q + i]) && !IsJsSpace(s[q + i])
    requires forall j :: q <= j <= q + i ==> s[j] != ','
    ensures KeyEnd(s, q, AlnumKey).None?
  {
    var k0 := q + RunLength(s, q, IsJsSpace);
    var k1 := k0 + RunLength(s, k0, IsAsciiAlnum);
    var e := k1 + RunLength(s, k1, IsJsSpace);
    assert e <= q + i;
  }

  /** When the pattern matches at the front, the front entry's key is the one rewritten. */
  lemma RewriteAtFront(s: string, a: nat, key: string, shape: KeyShape, e: nat)
    requires EntryHead(s, 0) == Some((a, a)) && KeyEnd(s, a + 1, shape) == Some(e)
    ensures RewriteKey(s, key, shape) == "@" + s[1..a] + "{" + Substitute(key, s[..e], "", s[e..], Some(s[1..a])) + "," + s[e..]
  {
    var kind, t := s[1..a], "@$1{" + key + ",";
    var sub := Substitute(key, s[..e], "", s[e..], Some(kind));
    calc {
      RewriteKey(s, key, shape);
      { MatchAtFront(s, a, shape, e); }
      s[..0] + Substitute(t, s[0..e], s[..0], s[e..], Some(kind)) + s[e..];
      { assert s[..0] == "" && s[0..e] == s[..e]; }
      "" + Substitute(t, s[..e], "", s[e..], Some(kind)) + s[e..];
      { KeyTemplate(key, s[..e], "", s[e..], kind); }
      "" + ("@" + kind + "{" + sub + ",") + s[e..];
      "@" + kind + "{" + sub + "," + s[e..];
    }
  }

  lemma MatchAtFront(s: string, a: nat, shape: KeyShape, e: nat)
    requires EntryHead(s, 0) == Some((a, a)) && KeyEnd(s, a + 1, shape) == Some(e)
    ensures FirstKeyMatch(s, 0, shape) == Some((0, s[1..a], e))
  {
    assert KeyMatchAt(s, 0, shape) == Some((s[1..a], e));
  }

  /** The earliest version rewrites an entry whose key is one alphanumeric word, in the same way. */
  lemma RewriteAlnumKeyOfEntry(kind: string, given: string, rest: string, key: string)
    requires |kind| > 0 && forall j :: 0 <= j < |kind| ==> IsAsciiLetter(kind[j])
    requires |given| > 0 && forall j :: 0 <= j < |given| ==> IsAsciiAlnum(given[j])
    ensures var head := "@" + kind + "{" + given + ",";
            RewriteKey(head + rest, key, AlnumKey) == "@" + kind + "{" + Substitute(key, head, "", rest, Some(kind)) + "," + rest
    ensures '$' !in key ==> RewriteKey("@" + kind + "{" + given + "," + rest, key, AlnumKey) == "@" + kind + "{" + key + "," + rest
  {
    var tail := given + "," + rest;
    var s := "@" + kind + "{" + tail;
    EntryHeadOf(kind, tail);
    assert s == "@" + kind + "{" + given + "," + rest;
    var q := |kind| + 2;
    assert s[q..] == tail;
    AlnumKeyAfter(s, q, given, rest);
    var e := q + |given| + 1;
    RewriteAtFront(s, |kind| + 1, key, AlnumKey, e);
    assert s[..e] == "@" + kind + "{" + given + ",";
    if '$' !in key {
      SubstituteDollarFree(key, s[..e], "", rest, Some(kind));
    }
  }

  lemma AlnumKeyAfter(s: string, q: nat, given: string, rest: string)
    requires q <= |s| && s[q..] == given + "," + rest
    requires |given| > 0 && forall j :: 0 <= j < |given| ==> IsAsciiAlnum(given[j])
    ensures KeyEnd(s, q, AlnumKey) == Some(q + |given| + 1) && s[q + |given| + 1..] == rest
  {
    forall j | q <= j < q + |given| ensures IsAsciiAlnum(s[j]) {
      assert s[j] == s[q..][j - q] == given[j - q];
    }
    assert s[q + |given|] == s[q..][|given|] == ',';
    AlnumKeyEnd(s, q, |given|);
    assert s[q + |given| + 1..] == s[q..][|given| + 1..];
  }

  /**
   * ... and leaves alone an entry whose key holds anything else, such as the
   * `:` of `doe:2020`, when it is the only entry in the text.
   */
  lemma AlnumKeyRefusesOtherKeys(kind: string, given: string, rest: string, key: string, i: nat)
    requires |kind| > 0 && forall j :: 0 <= j < |kind| ==> IsAsciiLetter(kind[j])
    requires ',' !in given && i < |given| && !IsAsciiAlnum(given[i]) && !IsJsSpace(given[i])
    requires '@' !in kind + given + rest
    ensures RewriteKey("@" + kind + "{" + given + "," + rest, key, AlnumKey) == "@" + kind + "{" + given + "," + rest
  {
    var tail := given + "," + rest;
    EntryHeadOf(kind, tail);
    var s := "@" + kind + "{" + given + "," + rest;
    assert s == "@" + kind + "{" + tail;
    assert s[|kind| + 2..] == tail;
    assert s[1..] == kind + "{" + given + "," + rest;
    RefuseAt(s, |kind| + 1, given, rest, key, i);
  }

  lemma RefuseAt(s: string, a: nat, given: string, rest: string, key: string, i: nat)
    requires EntryHead(s, 0) == Some((a, a)) && s[a + 1..] == given + "," + rest && '@' !in s[1..]
    requires ',' !in given && i < |given| && !IsAsciiAlnum(given[i]) && !IsJsSpace(given[i])
    ensures RewriteKey(s, key, AlnumKey) == s
  {
    NoAlnumMatch(s, a, given, rest, i);
    Unmatched(s, key, AlnumKey);
  }

  lemma NoAlnumMatch(s: string, a: nat, given: string, rest: string, i: nat)
    requires EntryHead(s, 0) == Some((a, a)) && s[a + 1..] == given + "," + rest && '@' !in s[1..]
    requires ',' !in given && i < |given| && !IsAsciiAlnum(given[i]) && !IsJsSpace(given[i])
    ensures forall p :: 0 <= p <= |s| ==> KeyMatchAt(s, p, AlnumKey).None?
  {
    NoAlnumKeyAfter(s, a + 1, given, rest, i);
    NoMatchAtFront(s, a, AlnumKey);
    OnlyEntryAtFront(s, AlnumKey);
  }

  /** Where the pattern matches nowhere, the text is left as it is. */
  lemma Unmatched(s: string, key: string, shape: KeyShape)
    requires forall p :: 0 <= p <= |s| ==> KeyMatchAt(s, p, shape).None?
    ensures RewriteKey(s, key, shape) == s
  {
  }

  lemma NoMatchAtFront(s: string, a: nat, shape: KeyShape)
    requires EntryHead(s, 0) == Some((a, a)) && a + 1 <= |s| && KeyEnd(s, a + 1, shape).None?
    ensures KeyMatchAt(s, 0, shape).None?
  {
  }

  lemma NoAlnumKeyAfter(s: string, q: nat, given: string, rest: string, i: nat)
    requires q <= |s| && s[q..] == given + "," + rest
    requires ',' !in given && i < |given| && !IsAsciiAlnum(given[i]) && !IsJsSpace(given[i])
    ensures KeyEnd(s, q, AlnumKey).None?
  {
    forall j | q <= j <= q + i ensures s[j] != ',' {
      assert s[j] == s[q..][j - q] == given[j - q];
    }
    assert s[q + i] == s[q..][i] == given[i];
    AlnumKeyEndFails(s, q, i);
  }

  /** With no `@` after the front, the pattern can match only at the front. */
  lemma OnlyEntryAtFront(s: string, shape: KeyShape)
    requires |s| > 0 && '@' !in s[1..]
    ensures forall p :: 0 < p <= |s| ==> KeyMatchAt(s, p, shape).None?
  {
    forall p | 0 < p < |s| ensures s[p] != '@' {
      assert s[p] == s[1..][p - 1];
    }
  }

  /** A text with no `@` has no entry head, and is left as it is. */
  lemma RewriteKeyWithoutEntry(s: string, key: string, shape: KeyShape)
    requires '@' !in s
    ensures RewriteKey(s, key, shape) == s
  {
    forall p | 0 <= p <= |s| ensures KeyMatchAt(s, p, shape).None? {
    }
    Unmatched(s, key, shape);
  }
}
