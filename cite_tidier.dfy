/**
 * `citeTidier` of `src/lib.ts`: three global regular-expression passes over the
 * assembled LaTeX body.
 *
 *  1. `/(\\cite{([^}]*)}){2,}/g`: a run of two or more adjacent citations becomes
 *     one `\cite{k1,..,kn}`; the keys are collected by a `while (match)` loop.
 *  2. `/\(\\cite{([^}]*)}\)/g`: a citation in parentheses becomes `\citep{k}`.
 *  3. `/ \\(paren)?cite{[^}]*}/g`: the space before a citation becomes `~`.
 *
 * A global replace tries a match at every position from the left; after a match
 * it resumes at the end of the match, otherwise it copies one character. Each
 * pass below is written in that shape, one position at a time. `[^}]*` followed
 * by `}` can only stop at the first `}`, so a group is the text up to the first
 * closing brace, and none of the patterns has any other choice to backtrack on.
 */
module CiteTidier {
  import opened Wrappers
  import opened JsString

  const CiteOpen := "\\cite{"
  const ParenciteOpen := "\\parencite{"

  /** The index of the first `}` in `t` at or after `i`. */
  function CloseBrace(t: string, i: nat): (r: Option<nat>)
    requires i <= |t|
    ensures r.Some? ==> i <= r.value < |t|
    decreases |t| - i
  {
    if i == |t| then None
    else if t[i] == '}' then Some(i)
    else CloseBrace(t, i + 1)
  }

  /**
   * `open` followed by `[^}]*}` at the front of `t`: the group's contents and the
   * number of characters the match takes.
   */
  function Braced(t: string, open: string): (r: Option<(string, nat)>)
    ensures r.Some? ==> |open| < r.value.1 <= |t|
  {
    if StartsWith(t, open) then
      match CloseBrace(t, |open|)
      case Some(c) => Some((t[|open|..c], c + 1))
      case None => None
    else None
  }

  /** `\cite{[^}]*}` at the front of `t`. */
  function CiteAtFront(t: string): Option<(string, nat)> {
    Braced(t, CiteOpen)
  }

  /** The first closing brace at or after `i` is at `c`. */
  lemma {:induction false} CloseBraceAt(t: string, i: nat, c: nat)
    requires i <= c < |t| && t[c] == '}'
    requires forall j :: i <= j < c ==> t[j] != '}'
    ensures CloseBrace(t, i) == Some(c)
    decreases c - i
  {
    if i < c {
      CloseBraceAt(t, i + 1, c);
    }
  }

  /** Cutting `t` short does not create a closing brace. */
  lemma {:induction false} CloseBraceNonePrefix(t: string, i: nat, j: nat)
    requires i <= j <= |t| && CloseBrace(t, i).None?
    ensures CloseBrace(t[..j], i).None?
    decreases j - i
  {
    if i < j {
      assert t[..j][i] == t[i];
      CloseBraceNonePrefix(t, i + 1, j);
    }
  }

  lemma {:induction false} BracedOf(open: string, k: string, rest: string)
    requires '}' !in k
    ensures Braced(open + k + "}" + rest, open) == Some((k, |open| + |k| + 1))
  {
    var t := open + k + "}" + rest;
    var c := |open| + |k|;
    assert t[..|open|] == open;
    assert t[|open|..c] == k;
    forall j | |open| <= j < c ensures t[j] != '}' {
      assert t[j] == k[j - |open|];
    }
    CloseBraceAt(t, |open|, c);
  }

  lemma {:induction false} BracedPrefix(t: string, open: string, j: nat)
    requires Braced(t, open).Some? && Braced(t, open).value.1 <= j <= |t|
    ensures Braced(t[..j], open) == Braced(t, open)
  {
    var (k, n) := Braced(t, open).value;
    var c := CloseBrace(t, |open|).value;
    assert c == n - 1 && t[c] == '}' by { CloseBraceFound(t, |open|); }
    assert t[..j][c] == '}';
    forall i | |open| <= i < c ensures t[..j][i] != '}' {
      CloseBraceFound(t, |open|);
    }
    assert t[..j][..|open|] == t[..|open|];
    assert t[..j][|open|..c] == t[|open|..c];
    CloseBraceAt(t[..j], |open|, c);
  }

  /** What `CloseBrace` finds is a closing brace with none before it. */
  lemma {:induction false} CloseBraceFound(t: string, i: nat)
    requires i <= |t| && CloseBrace(t, i).Some?
    ensures t[CloseBrace(t, i).value] == '}'
    ensures forall j :: i <= j < CloseBrace(t, i).value ==> t[j] != '}'
    decreases |t| - i
  {
    if t[i] != '}' {
      CloseBraceFound(t, i + 1);
    }
  }

  lemma {:induction false} BracedNonePrefix(t: string, open: string, j: nat)
    requires Braced(t, open).None? && j <= |t|
    ensures Braced(t[..j], open).None?
  {
    if StartsWith(t[..j], open) {
      assert t[..j][..|open|] == t[..|open|];
      CloseBraceNonePrefix(t, |open|, j);
    }
  }

  /** The run of adjacent citations at the front of `t`: its keys and its length. */
  function CiteRun(t: string): (r: (seq<string>, nat))
    ensures |r.0| <= r.1 <= |t|
    decreases |t|
  {
    match CiteAtFront(t)
    case None => ([], 0)
    case Some((k, n)) =>
      var (ks, m) := CiteRun(t[n..]);
      ([k] + ks, n + m)
  }

  /** No citation starts at position `p` of `v`. */
  predicate NoCiteAt(v: string, p: nat)
    requires p <= |v|
  {
    CiteAtFront(v[p..]).None?
  }

  /**
   * `citationRegex.exec(v)` with `lastIndex` at `i`: the leftmost citation
   * starting at or after `i`, as its position, its key and the index after it.
   */
  function NextCite(v: string, i: nat): (r: Option<(nat, string, nat)>)
    ensures r.Some? ==> i <= r.value.0 < r.value.2 <= |v|
    decreases |v| - i
  {
    if i >= |v| then None
    else
      match CiteAtFront(v[i..])
      case Some((k, n)) => Some((i, k, i + n))
      case None => NextCite(v, i + 1)
  }

  /** The keys the `while (match)` loop collects from `v`, resuming at `i`. */
  function ExecKeys(v: string, i: nat): seq<string>
    decreases |v| - i
  {
    match NextCite(v, i)
    case None => []
    case Some((_, k, e)) => [k] + ExecKeys(v, e)
  }

  /** The callback of the first pass: push the key of every match until `exec` fails. */
  method CollectCiteKeys(v: string) returns (refs: seq<string>)
    ensures refs == ExecKeys(v, 0)
  {
    refs := [];
    var last := 0;
    var m := NextCite(v, last);
    while m.Some?
      invariant m == NextCite(v, last)
      invariant refs + ExecKeys(v, last) == ExecKeys(v, 0)
      decreases |v| - last
    {
      refs := refs + [m.value.1];
      last := m.value.2;
      m := NextCite(v, last);
    }
  }

  /** On a text made only of a run of citations, the loop collects exactly the run's keys. */
  lemma {:induction false} ExecCovered(v: string, i: nat)
    requires i <= |v| && CiteRun(v[i..]).1 == |v| - i
    ensures ExecKeys(v, i) == CiteRun(v[i..]).0
    decreases |v| - i
  {
    if CiteAtFront(v[i..]).Some? {
      var k := CiteAtFront(v[i..]).value.0;
      var n := CiteAtFront(v[i..]).value.1;
      var rest := CiteRun(v[i + n..]);
      CiteRunAtIndex(v, i);
      assert CiteRun(v[i..]) == ([k] + rest.0, n + rest.1);
      assert rest.1 == |v| - (i + n);
      ExecCovered(v, i + n);
      ExecStep(v, i);
      assert ExecKeys(v, i) == [k] + rest.0;
    } else {
      CiteRunNone(v[i..]);
      ExecAtEnd(v);
    }
  }

  lemma {:induction false} CiteRunAtIndex(v: string, i: nat)
    requires i <= |v| && CiteAtFront(v[i..]).Some?
    ensures var (k, n) := CiteAtFront(v[i..]).value;
            CiteRun(v[i..]) == ([k] + CiteRun(v[i + n..]).0, n + CiteRun(v[i + n..]).1)
  {
    var n := CiteAtFront(v[i..]).value.1;
    CiteRunAt(v[i..]);
    assert v[i..][n..] == v[i + n..];
  }

  /** No citation starts at a character other than a backslash. */
  lemma {:induction false} NoCiteAtBackslashFree(t: string)
    requires t != [] && t[0] != '\\'
    ensures CiteAtFront(t).None?
  {
  }

  lemma {:induction false} CiteRunNone(u: string)
    requires CiteAtFront(u).None?
    ensures CiteRun(u) == ([], 0)
  {
  }

  lemma {:induction false} ExecAtEnd(v: string)
    ensures ExecKeys(v, |v|) == []
  {
    assert NextCite(v, |v|).None?;
  }

  lemma {:induction false} ExecStep(v: string, i: nat)
    requires i <= |v| && CiteAtFront(v[i..]).Some?
    ensures ExecKeys(v, i) == [CiteAtFront(v[i..]).value.0] + ExecKeys(v, i + CiteAtFront(v[i..]).value.1)
  {
  }

  lemma {:induction false} CiteRunAt(u: string)
    requires CiteAtFront(u).Some?
    ensures CiteRun(u) == ([CiteAtFront(u).value.0] + CiteRun(u[CiteAtFront(u).value.1..]).0,
                           CiteAtFront(u).value.1 + CiteRun(u[CiteAtFront(u).value.1..]).1)
  {
  }

  /** Cutting the text after the run does not change the run. */
  lemma {:induction false} RunPrefix(t: string, j: nat)
    requires CiteRun(t).1 <= j <= |t|
    ensures CiteRun(t[..j]) == CiteRun(t)
    decreases |t|
  {
    match CiteAtFront(t)
    case None =>
      BracedNonePrefix(t, CiteOpen, j);
    case Some((k, n)) =>
      BracedPrefix(t, CiteOpen, j);
      assert t[..j][n..] == t[n..][..j - n];
      RunPrefix(t[n..], j - n);
  }

  /** The matched run `v` handed to the callback yields the run's keys, in order. */
  lemma {:induction false} ExecOfRun(t: string)
    ensures ExecKeys(t[..CiteRun(t).1], 0) == CiteRun(t).0
  {
    var m := CiteRun(t).1;
    RunPrefix(t, m);
    assert t[..m][0..] == t[..m];
    ExecCovered(t[..m], 0);
  }

  /**
   * Pass 1: merge every run of two or more citations. The callback gets the
   * matched run `t[..m]` and collects its keys with `CollectCiteKeys`; by
   * `ExecOfRun` those are the run's keys `ks`, which are used here directly.
   */
  function MergeCites(t: string): string
    decreases |t|
  {
    if t == [] then []
    else
      var (ks, m) := CiteRun(t);
      if |ks| >= 2 then CiteOpen + Join(ks, ",") + "}" + MergeCites(t[m..])
      else t[..1] + MergeCites(t[1..])
  }

  /** `(\cite{[^}]*})` at the front of `t`: the key and the length of the match. */
  function ParenCiteAtFront(t: string): (r: Option<(string, nat)>)
    ensures r.Some? ==> r.value.1 <= |t|
  {
    if t != [] && t[0] == '(' then
      match CiteAtFront(t[1..])
      case Some((k, n)) => if n + 1 < |t| && t[n + 1] == ')' then Some((k, n + 2)) else None
      case None => None
    else None
  }

  /**
   * Pass 2: a parenthesised citation becomes `\citep`. The callback re-matches
   * the matched text and reads its group; in that text the match is at the front,
   * so the group is the key found here.
   */
  function CitepParens(t: string): string
    decreases |t|
  {
    if t == [] then []
    else
      match ParenCiteAtFront(t)
      case Some((k, n)) => "\\citep{" + k + "}" + CitepParens(t[n..])
      case None => t[..1] + CitepParens(t[1..])
  }

  /**
   * What follows the space in ` \\(paren)?cite{[^}]*}`: the greedy optional group
   * tries `paren` first, then the plain command. The length of the match after the space.
   */
  function SpacedCite(u: string): (r: Option<nat>)
    ensures r.Some? ==> 0 < r.value <= |u|
  {
    match Braced(u, ParenciteOpen)
    case Some((_, n)) => Some(n)
    case None =>
      match CiteAtFront(u)
      case Some((_, n)) => Some(n)
      case None => None
  }

  /** Pass 3: a space before `\cite{..}` or `\parencite{..}` becomes a tie. */
  function TieSpaces(t: string): string
    decreases |t|
  {
    if t == [] then []
    else if t[0] == ' ' && SpacedCite(t[1..]).Some? then
      var n := SpacedCite(t[1..]).value;
      "~" + t[1..n + 1] + TieSpaces(t[n + 1..])
    else t[..1] + TieSpaces(t[1..])
  }

  function CiteTidier(latex: string): string {
    TieSpaces(CitepParens(MergeCites(latex)))
  }

  function Cite(k: string): string {
    CiteOpen + k + "}"
  }

  /** Adjacent citations of the keys `ks`. */
  function Cites(ks: seq<string>): string {
    if ks == [] then [] else Cite(ks[0]) + Cites(ks[1..])
  }

  predicate KeysWithout(ks: seq<string>, c: char) {
    forall i :: 0 <= i < |ks| ==> c !in ks[i]
  }

  /** A citation at the front extends the run that follows it. */
  lemma {:induction false} CiteRunStep(k: string, tail: string)
    requires '}' !in k
    ensures CiteRun(Cite(k) + tail) == ([k] + CiteRun(tail).0, |Cite(k)| + CiteRun(tail).1)
  {
    var t := Cite(k) + tail;
    BracedOf(CiteOpen, k, tail);
    assert t[|Cite(k)|..] == tail;
  }

  lemma {:induction false} KeysWithoutTail(ks: seq<string>, c: char)
    requires ks != [] && KeysWithout(ks, c)
    ensures c !in ks[0] && KeysWithout(ks[1..], c)
  {
    assert forall i :: 0 <= i < |ks[1..]| ==> ks[1..][i] == ks[i + 1];
  }

  /** Adjacent citations followed by text that does not begin another one form one run. */
  lemma {:induction false} CiteRunOf(ks: seq<string>, rest: string)
    requires KeysWithout(ks, '}') && CiteAtFront(rest).None?
    ensures CiteRun(Cites(ks) + rest) == (ks, |Cites(ks)|)
  {
    if ks == [] {
      assert Cites(ks) + rest == rest;
    } else {
      KeysWithoutTail(ks, '}');
      assert Cites(ks) + rest == Cite(ks[0]) + (Cites(ks[1..]) + rest);
      CiteRunStep(ks[0], Cites(ks[1..]) + rest);
      CiteRunOf(ks[1..], rest);
      assert [ks[0]] + ks[1..] == ks;
    }
  }

  /** A run of two or more citations is merged into one, with its keys in order. */
  lemma {:induction false} MergeRun(ks: seq<string>, rest: string)
    requires |ks| >= 2 && KeysWithout(ks, '}') && CiteAtFront(rest).None?
    ensures MergeCites(Cites(ks) + rest) == CiteOpen + Join(ks, ",") + "}" + MergeCites(rest)
  {
    var t := Cites(ks) + rest;
    CiteRunOf(ks, rest);
    var m := |Cites(ks)|;
    assert t[m..] == rest;
    assert t != [] by { assert |Cite(ks[0])| > 0; }
  }

  /** Pass 1 copies text without a backslash. */
  lemma {:induction false} MergeCopies(a: string, rest: string)
    requires '\\' !in a
    ensures MergeCites(a + rest) == a + MergeCites(rest)
  {
    if a == [] {
      assert a + rest == rest;
    } else {
      var t := a + rest;
      NoCiteAtBackslashFree(t);
      CiteRunNone(t);
      MergeNoRun(t);
      assert t[1..] == a[1..] + rest;
      MergeCopies(a[1..], rest);
      assert t[..1] + a[1..] == a;
    }
  }

  lemma {:induction false} MergeNoRun(t: string)
    requires t != [] && |CiteRun(t).0| < 2
    ensures MergeCites(t) == t[..1] + MergeCites(t[1..])
  {
  }

  /** Pass 1 copies a stretch of `t` without a backslash. */
  lemma {:induction false} MergeCopiesSlice(t: string, i: nat, n: nat)
    requires i <= n <= |t| && forall j :: i <= j < n ==> t[j] != '\\'
    ensures MergeCites(t[i..]) == t[i..n] + MergeCites(t[n..])
    decreases n - i
  {
    if i < n {
      var u := t[i..];
      assert u[0] == t[i];
      assert CiteAtFront(u).None?;
      assert u[1..] == t[i + 1..];
      MergeCopiesSlice(t, i + 1, n);
      assert t[i..n] == u[..1] + t[i + 1..n];
    }
  }

  /** Where no run of two starts, pass 1 copies up to the next backslash. */
  lemma {:induction false} MergeKeepsFront(t: string, n: nat)
    requires 0 < n <= |t| && |CiteRun(t).0| < 2 && forall j :: 1 <= j < n ==> t[j] != '\\'
    ensures MergeCites(t) == t[..n] + MergeCites(t[n..])
  {
    MergeNoRun(t);
    MergeCopiesSlice(t, 1, n);
    Splice(t[..1], t[1..n], MergeCites(t), MergeCites(t[1..]), MergeCites(t[n..]));
    assert t[..1] + t[1..n] == t[..n];
  }

  /** A citation that is not followed by another is left as it is. */
  lemma {:induction false} LoneCiteKept(k: string, rest: string)
    requires '}' !in k && '\\' !in k && CiteAtFront(rest).None?
    ensures MergeCites(Cite(k) + rest) == Cite(k) + MergeCites(rest)
  {
    var t := Cite(k) + rest;
    var n := |Cite(k)|;
    CiteRunStep(k, rest);
    assert t[1..n] == "cite{" + k + "}";
    MergeKeepsFront(t, n);
    assert t[..n] == Cite(k) && t[n..] == rest;
  }

  /** A parenthesised citation becomes `\citep` with the same key. */
  lemma {:induction false} ParenCite(k: string, rest: string)
    requires '}' !in k
    ensures CitepParens("(" + Cite(k) + ")" + rest) == "\\citep{" + k + "}" + CitepParens(rest)
  {
    var t := "(" + Cite(k) + ")" + rest;
    assert t[1..] == CiteOpen + k + "}" + (")" + rest);
    BracedOf(CiteOpen, k, ")" + rest);
    var n := |CiteOpen| + |k| + 1;
    assert t[n + 1] == ')';
    assert t[n + 2..] == rest;
  }

  /** Pass 2 copies text without an opening parenthesis. */
  lemma {:induction false} CitepCopies(a: string, rest: string)
    requires '(' !in a
    ensures CitepParens(a + rest) == a + CitepParens(rest)
  {
    if a == [] {
      assert a + rest == rest;
    } else {
      var t := a + rest;
      assert t[0] == a[0];
      assert t[1..] == a[1..] + rest;
      CitepCopies(a[1..], rest);
      assert t[..1] + a[1..] == a;
    }
  }

  /** A space before a citation becomes a tie. */
  lemma {:induction false} SpaceCite(k: string, rest: string)
    requires '}' !in k
    ensures TieSpaces(" " + Cite(k) + rest) == "~" + Cite(k) + TieSpaces(rest)
  {
    var t := " " + Cite(k) + rest;
    var u := t[1..];
    assert u == CiteOpen + k + "}" + rest;
    assert u[1] == 'c';
    assert !StartsWith(u, ParenciteOpen) by { assert ParenciteOpen[1] == 'p'; }
    BracedOf(CiteOpen, k, rest);
    var n := |CiteOpen| + |k| + 1;
    assert SpacedCite(u) == Some(n);
    assert t[1..n + 1] == Cite(k);
    assert t[n + 1..] == rest;
  }

  /** A space before a `\parencite` becomes a tie too. */
  lemma {:induction false} SpaceParencite(k: string, rest: string)
    requires '}' !in k
    ensures TieSpaces(" " + ParenciteOpen + k + "}" + rest) == "~" + ParenciteOpen + k + "}" + TieSpaces(rest)
  {
    var t := " " + ParenciteOpen + k + "}" + rest;
    var u := t[1..];
    assert u == ParenciteOpen + k + "}" + rest;
    BracedOf(ParenciteOpen, k, rest);
    var n := |ParenciteOpen| + |k| + 1;
    assert SpacedCite(u) == Some(n);
    assert t[1..n + 1] == ParenciteOpen + k + "}";
    assert t[n + 1..] == rest;
  }

  /** Pass 3 copies text without a space. */
  lemma {:induction false} TieCopies(a: string, rest: string)
    requires ' ' !in a
    ensures TieSpaces(a + rest) == a + TieSpaces(rest)
  {
    if a == [] {
      assert a + rest == rest;
    } else {
      var t := a + rest;
      assert t[0] == a[0];
      assert t[1..] == a[1..] + rest;
      TieCopies(a[1..], rest);
      assert t[..1] + a[1..] == a;
    }
  }

  /** The `\citep` that pass 2 writes is not matched by pass 3: its space stays. */
  lemma {:induction false} CitepKeepsSpace(r: string)
    ensures TieSpaces(" \\citep{" + r) == " \\citep{" + TieSpaces(r)
  {
    var t := " \\citep{" + r;
    var u := t[1..];
    assert u == "\\citep{" + r;
    assert !StartsWith(u, ParenciteOpen) by { assert u[1] != ParenciteOpen[1]; }
    assert !StartsWith(u, CiteOpen) by { assert u[5] != CiteOpen[5]; }
    assert SpacedCite(u).None?;
    TieCopies("\\citep{", r);
  }

  lemma {:induction false} CiteAtFrontOccurs(t: string)
    requires CiteAtFront(t).Some?
    ensures OccursAt(t, "cite{", 1)
  {
    assert t[..|CiteOpen|] == CiteOpen;
    assert t[1..6] == CiteOpen[1..];
  }

  lemma {:induction false} MergeIdentity(t: string)
    requires !Contains(t, "cite{")
    ensures MergeCites(t) == t
    decreases |t|
  {
    if t != [] {
      if CiteAtFront(t).Some? {
        CiteAtFrontOccurs(t);
        assert false;
      }
      OccursShift(t, "cite{");
      MergeIdentity(t[1..]);
      assert t[..1] + t[1..] == t;
    }
  }

  lemma {:induction false} CitepIdentity(t: string)
    requires !Contains(t, "cite{")
    ensures CitepParens(t) == t
    decreases |t|
  {
    if t != [] {
      if ParenCiteAtFront(t).Some? {
        CiteAtFrontOccurs(t[1..]);
        OccursShift(t, "cite{");
        assert false;
      }
      OccursShift(t, "cite{");
      CitepIdentity(t[1..]);
      assert t[..1] + t[1..] == t;
    }
  }

  lemma {:induction false} TieIdentity(t: string)
    requires !Contains(t, "cite{")
    ensures TieSpaces(t) == t
    decreases |t|
  {
    if t != [] {
      OccursShift(t, "cite{");
      if t[0] == ' ' && SpacedCite(t[1..]).Some? {
        var u := t[1..];
        if Braced(u, ParenciteOpen).Some? {
          assert u[6..11] == ParenciteOpen[6..];
          assert OccursAt(u, "cite{", 6);
        } else {
          CiteAtFrontOccurs(u);
        }
        assert false;
      }
      TieIdentity(t[1..]);
      assert t[..1] + t[1..] == t;
    }
  }

  /** Text in which `cite{` never occurs passes through unchanged. */
  lemma {:induction false} NoCiteUnchanged(s: string)
    requires !Contains(s, "cite{")
    ensures CiteTidier(s) == s
  {
    MergeIdentity(s);
    CitepIdentity(s);
    TieIdentity(s);
  }

  lemma {:induction false} SpacedRunMerged(ks: seq<string>)
    requires |ks| >= 2 && KeysWithout(ks, '}')
    ensures MergeCites(" " + Cites(ks)) == " " + Cite(Join(ks, ","))
  {
    MergeCopies(" ", Cites(ks));
    assert Cites(ks) + "" == Cites(ks);
    MergeRun(ks, "");
    assert MergeCites("") == "";
  }

  lemma {:induction false} CiteCitepFree(j: string)
    requires '(' !in j
    ensures CitepParens(" " + Cite(j)) == " " + Cite(j)
  {
    var m := " " + Cite(j);
    CitepCopies(m, "");
    assert m + "" == m;
  }

  lemma {:induction false} CiteTied(j: string)
    requires '}' !in j
    ensures TieSpaces(" " + Cite(j)) == "~" + Cite(j)
  {
    SpaceCite(j, "");
    assert " " + Cite(j) + "" == " " + Cite(j);
  }

  /** A space before a run of citations: one merged citation, tied to the word before. */
  lemma {:induction false} SpacedRunTidied(ks: seq<string>)
    requires |ks| >= 2 && KeysWithout(ks, '}') && KeysWithout(ks, '(')
    ensures CiteTidier(" " + Cites(ks)) == "~" + Cite(Join(ks, ","))
  {
    var j := Join(ks, ",");
    SpacedRunMerged(ks);
    JoinKeepsAbsent(ks, ",", '(');
    CiteCitepFree(j);
    JoinKeepsAbsent(ks, ",", '}');
    CiteTied(j);
  }

  lemma {:induction false} ParenMerged(k: string)
    requires '}' !in k && '\\' !in k
    ensures MergeCites(" (" + Cite(k) + ")") == " (" + Cite(k) + ")"
  {
    MergeCopies(")", "");
    assert ")" + "" == ")";
    LoneCiteKept(k, ")");
    MergeCopies(" (", Cite(k) + ")");
    assert " (" + Cite(k) + ")" == " (" + (Cite(k) + ")");
  }

  lemma {:induction false} ParenCiteped(k: string)
    requires '}' !in k
    ensures CitepParens(" (" + Cite(k) + ")") == " \\citep{" + k + "}"
  {
    var x := "(" + Cite(k) + ")";
    var c := "\\citep{" + k + "}";
    ParenCite(k, "");
    assert CitepParens("") == "";
    assert x + "" == x && c + "" == c;
    CitepCopiesTo(" ", x, c);
    ParenShapes(k);
  }

  lemma {:induction false} ParenShapes(k: string)
    ensures " (" + Cite(k) + ")" == " " + ("(" + Cite(k) + ")")
    ensures " " + ("\\citep{" + k + "}") == " \\citep{" + k + "}"
  {
  }

  lemma {:induction false} CitepCopiesTo(a: string, x: string, y: string)
    requires '(' !in a && CitepParens(x) == y
    ensures CitepParens(a + x) == a + y
  {
    CitepCopies(a, x);
  }

  lemma {:induction false} CitepUntied(k: string)
    requires ' ' !in k
    ensures TieSpaces(" \\citep{" + k + "}") == " \\citep{" + k + "}"
  {
    CitepKeepsSpace(k + "}");
    TieCopies(k + "}", "");
    assert (k + "}") + "" == k + "}";
    assert " \\citep{" + k + "}" == " \\citep{" + (k + "}");
  }

  /** A parenthesised citation after a space becomes `\citep` and keeps its space. */
  lemma {:induction false} ParenCiteUntied(k: string)
    requires '}' !in k && '\\' !in k && ' ' !in k
    ensures CiteTidier(" (" + Cite(k) + ")") == " \\citep{" + k + "}"
  {
    ParenMerged(k);
    ParenCiteped(k);
    CitepUntied(k);
  }

  /** A backslash not followed by `c` does not begin a citation. */
  lemma {:induction false} NotCiteOpen(u: string)
    requires |u| >= 2 && u[1] != 'c'
    ensures CiteAtFront(u).None?
  {
    assert CiteOpen[1] == 'c';
  }

  /** A backslash that does not begin a citation, followed by text without one, is copied. */
  lemma {:induction false} LoneBackslashCopied(u: string)
    requires |u| >= 2 && u[1] != 'c' && '\\' !in u[1..]
    ensures MergeCites(u) == u
  {
    NotCiteOpen(u);
    CiteRunNone(u);
    MergeNoRun(u);
    MergeCopies(u[1..], "");
    assert u[1..] + "" == u[1..];
    assert u[..1] + u[1..] == u;
  }

  lemma {:induction false} MergeCopiesTo(a: string, x: string, y: string)
    requires '\\' !in a && MergeCites(x) == y
    ensures MergeCites(a + x) == a + y
  {
    MergeCopies(a, x);
  }

  lemma {:induction false} ParenciteShape(k: string)
    requires '\\' !in k
    ensures var u := ParenciteOpen + k + "}"; |u| >= 2 && u[1] != 'c' && '\\' !in u[1..]
  {
    var u := ParenciteOpen + k + "}";
    assert u[1..] == ParenciteOpen[1..] + k + "}";
  }

  lemma {:induction false} ParenciteMerged(k: string)
    requires '\\' !in k
    ensures MergeCites(" " + ParenciteOpen + k + "}") == " " + ParenciteOpen + k + "}"
  {
    var u := ParenciteOpen + k + "}";
    assert " " + ParenciteOpen + k + "}" == " " + u;
    ParenciteShape(k);
    LoneBackslashCopied(u);
    MergeCopiesTo(" ", u, u);
  }

  /** A `\parencite` after a space is tied, although the text contains no `\cite{`. */
  lemma {:induction false} ParenciteTied(k: string)
    requires '}' !in k && '\\' !in k && '(' !in k
    ensures CiteTidier(" " + ParenciteOpen + k + "}") == "~" + ParenciteOpen + k + "}"
  {
    var s := " " + ParenciteOpen + k + "}";
    ParenciteMerged(k);
    CitepCopies(s, "");
    assert s + "" == s;
    SpaceParencite(k, "");
    assert ("~" + ParenciteOpen + k + "}") + "" == "~" + ParenciteOpen + k + "}";
  }

  // ---------------------------------------------------------------- a key holding a citation

  /** Keys made of plain characters: no backslash, brace, parenthesis or space. */
  predicate PlainKey(k: string) {
    '\\' !in k && '}' !in k && '(' !in k && ' ' !in k
  }

  /**
   * The text `(\cite{a\cite{b})\cite{c}`: a parenthesised citation whose key,
   * read up to the first `}`, holds the start of another citation.
   */
  function NestedKeyText(a: string, b: string, c: string): string {
    "(" + Cite(a + CiteOpen + b) + ")" + Cite(c)
  }

  /**
   * Tidying is not idempotent. The first run turns the parenthesised
   * citation into `\citep{a\cite{b}`, which leaves `\cite{b}` next to
   * `\cite{c}`; only the second run merges those two.
   */
  lemma {:induction false} CiteTidierNotIdempotent(a: string, b: string, c: string)
    requires PlainKey(a) && PlainKey(b) && PlainKey(c)
    ensures CiteTidier(NestedKeyText(a, b, c)) == "\\citep{" + a + Cite(b) + Cite(c)
    ensures CiteTidier(CiteTidier(NestedKeyText(a, b, c))) == "\\citep{" + a + Cite(b + "," + c)
    ensures CiteTidier(CiteTidier(NestedKeyText(a, b, c))) != CiteTidier(NestedKeyText(a, b, c))
  {
    var x := NestedKeyText(a, b, c);
    var y := "\\citep{" + a + Cite(b) + Cite(c);
    var z := "\\citep{" + a + Cite(b + "," + c);
    calc {
      CiteTidier(x);
      TieSpaces(CitepParens(MergeCites(x)));
      { NestedKeyMerged(a, b, c); }
      TieSpaces(CitepParens(x));
      { NestedKeyCiteped(a, b, c); }
      TieSpaces(y);
      { PlainTied(y); }
      y;
    }
    calc {
      CiteTidier(y);
      TieSpaces(CitepParens(MergeCites(y)));
      { CitepRunMerged(a, b, c); }
      TieSpaces(CitepParens(z));
      { PlainCiteped(z); }
      TieSpaces(z);
      { PlainTied(z); }
      z;
    }
    assert |y| == |z| + 6;
  }

  /** `\cite{a\cite{b}` is `\cite{a` followed by the citation of `b`. */
  lemma {:induction false} NestedCite(a: string, b: string)
    ensures Cite(a + CiteOpen + b) == (CiteOpen + a) + Cite(b)
  {
  }

  /** Pass 1 finds no run of two in the text: the first citation is followed by `)`. */
  lemma {:induction false} NestedKeyMerged(a: string, b: string, c: string)
    requires PlainKey(a) && PlainKey(b) && PlainKey(c)
    ensures MergeCites(NestedKeyText(a, b, c)) == NestedKeyText(a, b, c)
  {
    var t := Cite(a + CiteOpen + b) + (")" + Cite(c));
    NestedKeyInnerKept(a, b, c);
    MergeCopies("(", t);
    calc {
      NestedKeyText(a, b, c);
      ("(" + Cite(a + CiteOpen + b) + ")") + Cite(c);
      { AppendAssoc("(" + Cite(a + CiteOpen + b), ")", Cite(c)); }
      ("(" + Cite(a + CiteOpen + b)) + (")" + Cite(c));
      { AppendAssoc("(", Cite(a + CiteOpen + b), ")" + Cite(c)); }
      "(" + t;
    }
  }

  /** Behind the `(`, pass 1 leaves the nested citation and the one after it alone. */
  lemma {:induction false} NestedKeyInnerKept(a: string, b: string, c: string)
    requires PlainKey(a) && PlainKey(b) && PlainKey(c)
    ensures var t := Cite(a + CiteOpen + b) + (")" + Cite(c));
            MergeCites(t) == t
  {
    var tail := ")" + Cite(c);
    var t := Cite(a + CiteOpen + b) + tail;
    calc {
      MergeCites(t);
      { NestedKeyFront(a, b, tail); }
      (CiteOpen + a) + MergeCites(Cite(b) + tail);
      { InnerCitesKept(b, c); }
      (CiteOpen + a) + (Cite(b) + tail);
      { NestedCite(a, b); }
      t;
    }
  }

  /** At the outer citation, whose key holds a backslash, pass 1 copies `\cite{a`. */
  lemma {:induction false} NestedKeyFront(a: string, b: string, tail: string)
    requires PlainKey(a) && PlainKey(b) && |tail| > 0 && tail[0] == ')'
    ensures MergeCites(Cite(a + CiteOpen + b) + tail) == (CiteOpen + a) + MergeCites(Cite(b) + tail)
  {
    var k := a + CiteOpen + b;
    var t := Cite(k) + tail;
    var n := |CiteOpen| + |a|;
    assert '}' !in k;
    CiteRunStep(k, tail);
    assert CiteAtFront(tail).None?;
    CiteRunNone(tail);
    NestedCite(a, b);
    assert t == (CiteOpen + a) + (Cite(b) + tail);
    assert t[1..n] == "cite{" + a;
    MergeKeepsFront(t, n);
    assert t[..n] == CiteOpen + a;
    assert t[n..] == Cite(b) + tail;
  }

  /** `\cite{b})\cite{c}` has no run of two and passes pass 1 unchanged. */
  lemma {:induction false} InnerCitesKept(b: string, c: string)
    requires PlainKey(b) && PlainKey(c)
    ensures MergeCites(Cite(b) + (")" + Cite(c))) == Cite(b) + (")" + Cite(c))
  {
    var tail := ")" + Cite(c);
    assert CiteAtFront(tail).None?;
    LoneCiteKept(b, tail);
    MergeCopies(")", Cite(c));
    assert CiteAtFront("").None?;
    LoneCiteKept(c, "");
    assert Cite(c) + "" == Cite(c);
    assert MergeCites("") == "";
  }

  /** On the second run, pass 1 copies `\citep{a` and merges the two citations after it. */
  lemma {:induction false} CitepRunMerged(a: string, b: string, c: string)
    requires PlainKey(a) && PlainKey(b) && PlainKey(c)
    ensures MergeCites("\\citep{" + a + Cite(b) + Cite(c)) == "\\citep{" + a + Cite(b + "," + c)
  {
    var y := "\\citep{" + a + (Cite(b) + Cite(c));
    var n := 7 + |a|;
    var ks := [b, c];
    assert y[5] == 'p';
    assert CiteAtFront(y).None?;
    CiteRunNone(y);
    assert y[1..n] == "citep{" + a;
    TwoCites(b, c);
    assert KeysWithout(ks, '}');
    calc {
      MergeCites("\\citep{" + a + Cite(b) + Cite(c));
      { assert "\\citep{" + a + Cite(b) + Cite(c) == y; }
      MergeCites(y);
      { MergeKeepsFront(y, n); }
      y[..n] + MergeCites(y[n..]);
      { assert y[..n] == "\\citep{" + a && y[n..] == Cites(ks) + ""; }
      ("\\citep{" + a) + MergeCites(Cites(ks) + "");
      { MergeRun(ks, ""); }
      ("\\citep{" + a) + (CiteOpen + Join(ks, ",") + "}" + MergeCites(""));
      { assert MergeCites("") == ""; }
      "\\citep{" + a + Cite(b + "," + c);
    }
  }

  lemma {:induction false} TwoCites(b: string, c: string)
    ensures Cites([b, c]) == Cite(b) + Cite(c)
    ensures Join([b, c], ",") == b + "," + c
  {
    var ks := [b, c];
    assert ks[1..] == [c] && [c][1..] == [];
    assert Cites([c]) == Cite(c) + Cites([]);
    assert Cites([]) == [];
  }

  /** Pass 2 reads the key up to the first `}`, so the inner `\cite{b` goes into the `\citep`. */
  lemma {:induction false} NestedKeyCiteped(a: string, b: string, c: string)
    requires PlainKey(a) && PlainKey(b) && PlainKey(c)
    ensures CitepParens(NestedKeyText(a, b, c)) == "\\citep{" + a + Cite(b) + Cite(c)
  {
    var k := a + CiteOpen + b;
    assert '}' !in k;
    ParenCite(k, Cite(c));
    PlainCiteped(Cite(c));
    calc {
      "\\citep{" + k + "}";
      { AppendAssoc("\\citep{", a + CiteOpen, b); AppendAssoc("\\citep{", a, CiteOpen); }
      ("\\citep{" + a) + CiteOpen + b + "}";
      { AppendAssoc("\\citep{" + a, CiteOpen, b); AppendAssoc("\\citep{" + a, CiteOpen + b, "}"); }
      "\\citep{" + a + Cite(b);
    }
  }

  /** Text without `(` passes pass 2 unchanged. */
  lemma {:induction false} PlainCiteped(t: string)
    requires '(' !in t
    ensures CitepParens(t) == t
  {
    CitepCopies(t, "");
    assert t + "" == t;
    assert CitepParens("") == "";
  }

  /** Text without a space passes pass 3 unchanged. */
  lemma {:induction false} PlainTied(t: string)
    requires ' ' !in t
    ensures TieSpaces(t) == t
  {
    TieCopies(t, "");
    assert t + "" == t;
    assert TieSpaces("") == "";
  }
}
