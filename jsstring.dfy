/**
 * The JavaScript string operations the converter is built from, with the
 * semantics of the ECMAScript built-ins (`slice` with negative offsets,
 * `indexOf`, `lastIndexOf`, `split` and `join` with a literal separator,
 * `replace` with a literal pattern, `trim`).
 */
module JsString {
  import opened Wrappers

  predicate StartsWith(s: string, p: string) {
    |p| <= |s| && s[..|p|] == p
  }

  predicate EndsWith(s: string, p: string) {
    |p| <= |s| && s[|s| - |p|..] == p
  }

  /** `p` occurs in `s` starting at index `i`. */
  predicate OccursAt(s: string, p: string, i: int) {
    0 <= i && i + |p| <= |s| && s[i..i + |p|] == p
  }

  /** `s.includes(p)` */
  predicate Contains(s: string, p: string) {
    exists i :: 0 <= i <= |s| && OccursAt(s, p, i)
  }

  /** `s.indexOf(p)`: the first occurrence of `p`, or -1. */
  function IndexOf(s: string, p: string): (r: int)
    ensures r >= 0 ==> OccursAt(s, p, r) && forall j :: 0 <= j < r ==> !OccursAt(s, p, j)
    ensures r < 0 ==> r == -1 && forall j :: !OccursAt(s, p, j)
    decreases |s|
  {
    if |s| < |p| then -1
    else if s[..|p|] == p then 0
    else
      var k := IndexOf(s[1..], p);
      OccursShift(s, p);
      if k < 0 then -1 else k + 1
  }

  /** An occurrence in `s[1..]` is an occurrence in `s` one position further on. */
  lemma OccursShift(s: string, p: string)
    requires |s| > 0
    ensures forall j :: OccursAt(s[1..], p, j) ==> OccursAt(s, p, j + 1)
    ensures forall j :: 1 <= j && OccursAt(s, p, j) ==> OccursAt(s[1..], p, j - 1)
  {
    forall j | OccursAt(s[1..], p, j) ensures OccursAt(s, p, j + 1) {
      assert s[1..][j..j + |p|] == s[j + 1..j + 1 + |p|];
    }
    forall j | 1 <= j && OccursAt(s, p, j) ensures OccursAt(s[1..], p, j - 1) {
      assert s[1..][j - 1..j - 1 + |p|] == s[j..j + |p|];
    }
  }

  /** `s.lastIndexOf(c)` for a one-character argument. */
  function LastIndexOf(s: string, c: char): (r: int)
    ensures -1 <= r < |s|
    ensures r >= 0 ==> s[r] == c
    ensures forall j :: r < j < |s| ==> s[j] != c
  {
    if s == [] then -1
    else if s[|s| - 1] == c then |s| - 1
    else LastIndexOf(s[..|s| - 1], c)
  }

  /** How `slice` turns a possibly negative argument into an index of a string of length `n`. */
  function SliceIndex(i: int, n: nat): (r: nat)
    ensures r <= n
    ensures 0 <= i <= n ==> r == i
    ensures -(n as int) <= i < 0 ==> r as int == n as int + i
  {
    if i < 0 then (if n + i < 0 then 0 else n + i)
    else if i > n then n
    else i
  }

  /** `s.slice(start, end)` */
  function Slice(s: string, start: int, end: int): (r: string)
    ensures |r| <= |s|
    ensures 0 <= start <= end <= |s| ==> r == s[start..end]
  {
    var a := SliceIndex(start, |s|);
    var b := SliceIndex(end, |s|);
    if a < b then s[a..b] else []
  }

  /** `s.slice(start)` */
  function SliceFrom(s: string, start: int): (r: string)
    ensures 0 <= start <= |s| ==> r == s[start..]
  {
    Slice(s, start, |s|)
  }

  /** `s.repeat(n)` */
  function Repeat(s: string, n: nat): (r: string)
    ensures |r| == n * |s|
  {
    if n == 0 then [] else s + Repeat(s, n - 1)
  }

  /** `array.join(sep)` */
  function Join(ps: seq<string>, sep: string): string {
    if |ps| == 0 then []
    else if |ps| == 1 then ps[0]
    else ps[0] + sep + Join(ps[1..], sep)
  }

  /** `s.split(sep)` for a non-empty literal separator: leftmost, non-overlapping occurrences. */
  function Split(s: string, sep: string): (r: seq<string>)
    requires |sep| > 0
    ensures |r| > 0
    decreases |s|
  {
    var i := IndexOf(s, sep);
    if i < 0 then [s] else [s[..i]] + Split(s[i + |sep|..], sep)
  }

  /**
   * Reference count of the occurrences of `p` that a left-to-right scan
   * finds without overlap.
   */
  function Occurrences(s: string, p: string): nat
    requires |p| > 0
    decreases |s|
  {
    if |s| < |p| then 0
    else if s[..|p|] == p then 1 + Occurrences(s[|p|..], p)
    else Occurrences(s[1..], p)
  }

  /**
   * `s.replace(/pat/g, rep)` for a literal pattern and a replacement in which
   * no dollar sign starts a pattern (as in every table entry of the
   * converter, such as `$\lambda$`): every occurrence is replaced, as
   * `s.split(pat).join(rep)` does.
   */
  function ReplaceAll(s: string, pat: string, rep: string): string
    requires |pat| > 0
  {
    Join(Split(s, pat), rep)
  }

  /**
   * `s.replace(pat, rep)` with a string pattern: only the first occurrence is
   * replaced, and the dollar patterns of `rep` are expanded.
   */
  function ReplaceFirst(s: string, pat: string, rep: string): (r: string)
    ensures IndexOf(s, pat) < 0 ==> r == s
    ensures IndexOf(s, pat) >= 0 ==>
              var i := IndexOf(s, pat);
              r == s[..i] + Substitute(rep, pat, s[..i], s[i + |pat|..], None) + s[i + |pat|..]
  {
    var i := IndexOf(s, pat);
    if i < 0 then s else s[..i] + Substitute(rep, pat, s[..i], s[i + |pat|..], None) + s[i + |pat|..]
  }

  /**
   * The text that replaces a match, given the replacement string `rep` of
   * `s.replace(pattern, rep)`: `$$` stands for a dollar sign, `$&` for the
   * match, `` $` `` for the text before it and `$'` for the text after it.
   * `group` is the capture of a regular expression with exactly one capturing
   * group and no named groups, which `$1` and `$01` stand for; it is `None`
   * for a string pattern, which captures nothing, and then those stay as they
   * are. Any other dollar sign stays as it is too. (The two-digit reference
   * `$1d` names no group and is read as `$1` followed by the digit, as
   * GetSubstitution in section 22.1.3.19.1 of ECMAScript 2023 specifies.)
   */
  function Substitute(rep: string, matched: string, before: string, after: string, group: Option<string>): string
    decreases |rep|
  {
    if rep == [] then ""
    else if rep[0] != '$' || |rep| == 1 then [rep[0]] + Substitute(rep[1..], matched, before, after, group)
    else if rep[1] == '$' then "$" + Substitute(rep[2..], matched, before, after, group)
    else if rep[1] == '&' then matched + Substitute(rep[2..], matched, before, after, group)
    else if rep[1] == '`' then before + Substitute(rep[2..], matched, before, after, group)
    else if rep[1] == '\'' then after + Substitute(rep[2..], matched, before, after, group)
    else if rep[1] == '1' && group.Some? then group.value + Substitute(rep[2..], matched, before, after, group)
    else if rep[1] == '0' && |rep| > 2 && rep[2] == '1' && group.Some? then group.value + Substitute(rep[3..], matched, before, after, group)
    else "$" + Substitute(rep[1..], matched, before, after, group)
  }

  /** A replacement string without a dollar sign is inserted as it is. */
  lemma {:induction false} SubstituteDollarFree(rep: string, matched: string, before: string, after: string, group: Option<string>)
    requires '$' !in rep
    ensures Substitute(rep, matched, before, after, group) == rep
    decreases |rep|
  {
    if rep != [] {
      assert '$' !in rep[1..];
      SubstituteDollarFree(rep[1..], matched, before, after, group);
    }
  }

  /** A dollar-free front of the replacement string is inserted as it is. */
  lemma {:induction false} SubstituteDollarFreeFront(p: string, rep: string, matched: string, before: string, after: string, group: Option<string>)
    requires '$' !in p
    ensures Substitute(p + rep, matched, before, after, group) == p + Substitute(rep, matched, before, after, group)
    decreases |p|
  {
    if p != [] {
      assert (p + rep)[0] == p[0] && (p + rep)[1..] == p[1..] + rep;
      assert '$' !in p[1..];
      SubstituteDollarFreeFront(p[1..], rep, matched, before, after, group);
      assert p == [p[0]] + p[1..];
    } else {
      assert p + rep == rep;
    }
  }

  /** A dollar sign followed by a character that starts no pattern stays as it is. */
  lemma DollarBeforeOther(x: string, matched: string, before: string, after: string, group: Option<string>)
    requires |x| > 0 && x[0] !in "$&`'01"
    ensures Substitute("$" + x, matched, before, after, group) == "$" + Substitute(x, matched, before, after, group)
  {
    assert ("$" + x)[1..] == x;
  }

  /** `$$` stands for one dollar sign. */
  lemma DoubleDollar(x: string, matched: string, before: string, after: string, group: Option<string>)
    ensures Substitute("$$" + x, matched, before, after, group) == "$" + Substitute(x, matched, before, after, group)
  {
    assert ("$$" + x)[2..] == x;
  }

  /**
   * A character that can neither start nor finish a dollar pattern, put at
   * the end, stays at the end.
   */
  lemma {:induction false} SubstituteSnoc(rep: string, c: char, matched: string, before: string, after: string, group: Option<string>)
    requires c !in "$&`'1"
    ensures Substitute(rep + [c], matched, before, after, group) == Substitute(rep, matched, before, after, group) + [c]
    decreases |rep|, 1
  {
    var r := rep + [c];
    if rep == [] {
      assert r == [c];
    } else if rep[0] != '$' || |rep| == 1 {
      assert r[1..] == rep[1..] + [c];
      if |rep| > 1 {
        SubstituteSnoc(rep[1..], c, matched, before, after, group);
      } else {
        assert rep[1..] == [] && r[1..] == [c] && [c][1..] == [];
        assert Substitute([c], matched, before, after, group) == [c];
      }
    } else {
      SubstituteSnocDollar(rep, c, matched, before, after, group);
    }
  }

  lemma {:induction false} SubstituteSnocDollar(rep: string, c: char, matched: string, before: string, after: string, group: Option<string>)
    requires c !in "$&`'1" && |rep| > 1 && rep[0] == '$'
    ensures Substitute(rep + [c], matched, before, after, group) == Substitute(rep, matched, before, after, group) + [c]
    decreases |rep|, 0
  {
    var r := rep + [c];
    assert r[0] == '$' && r[1] == rep[1] && |r| > 2;
    if rep[1] == '0' && |rep| == 2 {
      assert rep == ['$', '0'] && r == ['$', '0', c];
      SubstituteDollarZero(c, matched, before, after, group);
    } else if rep[1] == '0' && rep[2] == '1' && group.Some? {
      assert r[2] == '1' && r[3..] == rep[3..] + [c];
      SubstituteSnoc(rep[3..], c, matched, before, after, group);
    } else if rep[1] in "$&`'" || (rep[1] == '1' && group.Some?) {
      assert r[2..] == rep[2..] + [c];
      SubstituteSnoc(rep[2..], c, matched, before, after, group);
    } else {
      assert r[1..] == rep[1..] + [c];
      assert rep[1] == '0' ==> r[2] != '1' || group.None?;
      assert Substitute(r, matched, before, after, group) == "$" + Substitute(r[1..], matched, before, after, group);
      assert Substitute(rep, matched, before, after, group) == "$" + Substitute(rep[1..], matched, before, after, group);
      SubstituteSnoc(rep[1..], c, matched, before, after, group);
    }
  }

  lemma SubstituteDollarZero(c: char, matched: string, before: string, after: string, group: Option<string>)
    requires c !in "$&`'1"
    ensures Substitute(['$', '0', c], matched, before, after, group) == Substitute(['$', '0'], matched, before, after, group) + [c]
  {
    var r := ['$', '0', c];
    assert r[1..] == ['0', c] && ['0', c][1..] == [c] && [c][1..] == [];
    assert ['$', '0'][1..] == ['0'] && ['0'][1..] == [];
    assert Substitute([c], matched, before, after, group) == [c];
    assert Substitute(['0', c], matched, before, after, group) == ['0', c];
    assert Substitute(['0'], matched, before, after, group) == ['0'];
  }

  /** White space and line terminators as `trim` and the regular-expression class `\s` define them. */
  predicate IsJsSpace(c: char) {
    c == '\t' || c == '\n' || c == '\U{B}' || c == '\U{C}' || c == '\r' || c == ' '
    || c == '\U{A0}' || c == '\U{1680}' || ('\U{2000}' <= c <= '\U{200A}')
    || c == '\U{2028}' || c == '\U{2029}' || c == '\U{202F}' || c == '\U{205F}'
    || c == '\U{3000}' || c == '\U{FEFF}'
  }

  /** A line terminator, after which `^` matches in a multiline regular expression. */
  predicate IsLineTerminator(c: char) {
    c == '\n' || c == '\r' || c == '\U{2028}' || c == '\U{2029}'
  }

  predicate IsAsciiLetter(c: char) {
    ('a' <= c <= 'z') || ('A' <= c <= 'Z')
  }

  /** The length of the run of characters satisfying `f` that starts at `i`. */
  function RunLength(s: string, i: nat, f: char -> bool): (r: nat)
    requires i <= |s|
    ensures i + r <= |s|
    ensures forall j :: i <= j < i + r ==> f(s[j])
    ensures i + r < |s| ==> !f(s[i + r])
    decreases |s| - i
  {
    if i < |s| && f(s[i]) then 1 + RunLength(s, i + 1, f) else 0
  }

  /** A run that ends where `f` first fails has exactly that length. */
  lemma {:induction false} RunLengthIs(s: string, i: nat, n: nat, f: char -> bool)
    requires i + n <= |s|
    requires forall j :: i <= j < i + n ==> f(s[j])
    requires i + n == |s| || !f(s[i + n])
    ensures RunLength(s, i, f) == n
    decreases n
  {
    if n > 0 {
      RunLengthIs(s, i + 1, n - 1, f);
    }
  }

  function TrimStart(s: string): (r: string)
    ensures r == [] || !IsJsSpace(r[0])
    ensures exists k :: 0 <= k <= |s| && r == s[k..] && forall j :: 0 <= j < k ==> IsJsSpace(s[j])
  {
    if s != [] && IsJsSpace(s[0]) then
      var r := TrimStart(s[1..]);
      var k :| 0 <= k <= |s[1..]| && r == s[1..][k..] && forall j :: 0 <= j < k ==> IsJsSpace(s[1..][j]);
      assert r == s[k + 1..];
      r
    else
      assert s == s[0..];
      s
  }

  function TrimEnd(s: string): (r: string)
    ensures r == [] || !IsJsSpace(r[|r| - 1])
    ensures exists k :: 0 <= k <= |s| && r == s[..k] && forall j :: k <= j < |s| ==> IsJsSpace(s[j])
  {
    if s != [] && IsJsSpace(s[|s| - 1]) then
      var r := TrimEnd(s[..|s| - 1]);
      var k :| 0 <= k <= |s| - 1 && r == s[..|s| - 1][..k] && forall j :: k <= j < |s| - 1 ==> IsJsSpace(s[j]);
      assert r == s[..k];
      r
    else
      assert s == s[..|s|];
      s
  }

  /** `s.trim()`: no leading or trailing white space, and nothing else removed. */
  function Trim(s: string): (r: string)
    ensures r == [] || (!IsJsSpace(r[0]) && !IsJsSpace(r[|r| - 1]))
  {
    var t := TrimStart(s);
    var r := TrimEnd(t);
    assert r != [] ==> r[0] == t[0];
    r
  }

  /** Splitting and joining again with the same separator gives back the string. */
  lemma {:induction false} SplitJoin(s: string, sep: string)
    requires |sep| > 0
    ensures Join(Split(s, sep), sep) == s
    decreases |s|
  {
    var i := IndexOf(s, sep);
    if i >= 0 {
      var rest := s[i + |sep|..];
      var tail := Split(rest, sep);
      SplitJoin(rest, sep);
      assert Split(s, sep) == [s[..i]] + tail;
      assert ([s[..i]] + tail)[1..] == tail;
      assert Join(Split(s, sep), sep) == s[..i] + sep + rest;
      assert s[i..i + |sep|] == sep;
      assert s == s[..i] + s[i..i + |sep|] + rest;
    }
  }

  /** No piece of a split contains the separator. */
  lemma {:induction false} SplitPiecesFree(s: string, sep: string)
    requires |sep| > 0
    ensures forall j :: 0 <= j < |Split(s, sep)| ==> !Contains(Split(s, sep)[j], sep)
    decreases |s|
  {
    var i := IndexOf(s, sep);
    if i >= 0 {
      var rest := s[i + |sep|..];
      SplitPiecesFree(rest, sep);
      var ps := Split(s, sep);
      assert ps == [s[..i]] + Split(rest, sep);
      if Contains(s[..i], sep) {
        var k :| 0 <= k <= i && OccursAt(s[..i], sep, k);
        assert s[..i][k..k + |sep|] == s[k..k + |sep|];
        assert OccursAt(s, sep, k);
        assert false;
      }
      forall j | 0 <= j < |ps| ensures !Contains(ps[j], sep) {
        if j > 0 {
          assert ps[j] == Split(rest, sep)[j - 1];
        }
      }
    }
  }

  /** Skipping a prefix with no occurrence of `p` does not change the count. */
  lemma {:induction false} OccurrencesSkip(s: string, p: string, i: nat)
    requires |p| > 0 && i <= |s|
    requires forall j :: 0 <= j < i ==> !OccursAt(s, p, j)
    ensures Occurrences(s, p) == Occurrences(s[i..], p)
    decreases i
  {
    if i > 0 && |s| >= |p| {
      assert !OccursAt(s, p, 0);
      OccursShift(s, p);
      OccurrencesSkip(s[1..], p, i - 1);
      assert s[1..][i - 1..] == s[i..];
    } else if i > 0 {
      assert s[i..] == [] || |s[i..]| < |p|;
    }
  }

  /** `split` yields one piece more than there are occurrences of the separator. */
  lemma {:induction false} SplitCount(s: string, sep: string)
    requires |sep| > 0
    ensures |Split(s, sep)| == Occurrences(s, sep) + 1
    decreases |s|
  {
    var i := IndexOf(s, sep);
    if i >= 0 {
      OccurrencesSkip(s, sep, i);
      assert s[i..][..|sep|] == sep;
      assert s[i..][|sep|..] == s[i + |sep|..];
      SplitCount(s[i + |sep|..], sep);
    } else {
      OccurrencesSkip(s, sep, |s|);
    }
  }

  /** A character absent from the string is absent from every piece of its split. */
  lemma {:induction false} SplitKeepsAbsent(s: string, sep: string, c: char)
    requires |sep| > 0 && c !in s
    ensures forall j :: 0 <= j < |Split(s, sep)| ==> c !in Split(s, sep)[j]
    decreases |s|
  {
    var i := IndexOf(s, sep);
    if i >= 0 {
      var rest := s[i + |sep|..];
      SplitKeepsAbsent(rest, sep, c);
      var ps := Split(s, sep);
      assert ps == [s[..i]] + Split(rest, sep);
      forall j | 0 <= j < |ps| ensures c !in ps[j] {
        if j > 0 {
          assert ps[j] == Split(rest, sep)[j - 1];
        }
      }
    }
  }

  /** Joining strings that lack a character with a separator that lacks it gives a string that lacks it. */
  lemma {:induction false} JoinKeepsAbsent(ps: seq<string>, sep: string, c: char)
    requires c !in sep && forall j :: 0 <= j < |ps| ==> c !in ps[j]
    ensures c !in Join(ps, sep)
    decreases |ps|
  {
    if |ps| > 1 {
      JoinKeepsAbsent(ps[1..], sep, c);
    }
  }

  /** A one-character separator does not survive in any piece. */
  lemma SplitRemovesChar(s: string, c: char)
    ensures forall j :: 0 <= j < |Split(s, [c])| ==> c !in Split(s, [c])[j]
  {
    SplitPiecesFree(s, [c]);
    forall j | 0 <= j < |Split(s, [c])| ensures c !in Split(s, [c])[j] {
      var p := Split(s, [c])[j];
      if c in p {
        var k :| 0 <= k < |p| && p[k] == c;
        assert OccursAt(p, [c], k);
      }
    }
  }

  /** Replacing a one-character pattern by text without it leaves none of it. */
  lemma ReplaceAllRemoves(s: string, c: char, rep: string)
    requires c !in rep
    ensures c !in ReplaceAll(s, [c], rep)
  {
    SplitRemovesChar(s, c);
    JoinKeepsAbsent(Split(s, [c]), rep, c);
  }

  /** A replacement introduces no character that neither the string nor the replacement holds. */
  lemma ReplaceAllKeepsAbsent(s: string, pat: string, rep: string, c: char)
    requires |pat| > 0 && c !in s && c !in rep
    ensures c !in ReplaceAll(s, pat, rep)
  {
    SplitKeepsAbsent(s, pat, c);
    JoinKeepsAbsent(Split(s, pat), rep, c);
  }

  /** Without an occurrence of the pattern a replacement changes nothing. */
  lemma ReplaceAllNoMatch(s: string, pat: string, rep: string)
    requires |pat| > 0 && IndexOf(s, pat) < 0
    ensures ReplaceAll(s, pat, rep) == s
  {
  }

  /** The first occurrence is the one with no occurrence before it. */
  lemma IndexOfIs(s: string, p: string, i: nat)
    requires OccursAt(s, p, i) && forall j :: 0 <= j < i ==> !OccursAt(s, p, j)
    ensures IndexOf(s, p) == i
  {
  }

  /** Past the prefix `a`, occurrences in `a + x` are the occurrences in `x`, shifted. */
  lemma OccursPastPrefix(a: string, x: string, pat: string, j: int)
    requires |a| <= j
    ensures OccursAt(a + x, pat, j) <==> OccursAt(x, pat, j - |a|)
  {
    if j + |pat| <= |a + x| {
      assert (a + x)[j..j + |pat|] == x[j - |a|..j - |a| + |pat|];
    }
  }

  /** With no occurrence starting in the prefix `a`, the first occurrence in `a + x` is the first one in `x`. */
  lemma IndexOfAfterPrefix(a: string, x: string, pat: string)
    requires |pat| > 0
    requires forall j :: 0 <= j < |a| ==> !OccursAt(a + x, pat, j)
    ensures IndexOf(a + x, pat) == (if IndexOf(x, pat) < 0 then -1 else |a| + IndexOf(x, pat))
  {
    var s := a + x;
    var k := IndexOf(x, pat);
    if k >= 0 {
      forall j | |a| <= j < |a| + k ensures !OccursAt(s, pat, j) {
        OccursPastPrefix(a, x, pat, j);
      }
      OccursPastPrefix(a, x, pat, |a| + k);
      IndexOfIs(s, pat, |a| + k);
    } else {
      var r := IndexOf(s, pat);
      if r >= 0 {
        OccursPastPrefix(a, x, pat, r);
        assert false;
      }
    }
  }

  /** Joining one more piece adds the separator and that piece at the end. */
  lemma {:induction false} JoinSnoc(ps: seq<string>, p: string, sep: string)
    requires ps != []
    ensures Join(ps + [p], sep) == Join(ps, sep) + sep + p
    decreases |ps|
  {
    if |ps| > 1 {
      assert (ps + [p])[1..] == ps[1..] + [p];
      JoinSnoc(ps[1..], p, sep);
    } else {
      assert ps + [p] == [ps[0], p];
    }
  }

  /** Joining without a separator: one more piece is appended as it is. */
  lemma JoinSnocNoSeparator(ps: seq<string>, p: string)
    ensures Join(ps + [p], "") == Join(ps, "") + p
  {
    if ps == [] {
      assert ps + [p] == [p];
    } else {
      JoinSnoc(ps, p, "");
    }
  }

  lemma JoinCons(p: string, rest: seq<string>, sep: string)
    requires |rest| > 0
    ensures Join([p] + rest, sep) == p + sep + Join(rest, sep)
  {
    assert ([p] + rest)[1..] == rest;
  }

  /** The first piece of a split, and the split of what follows the first occurrence. */
  lemma SplitAt(s: string, sep: string, i: nat)
    requires |sep| > 0 && IndexOf(s, sep) == i
    ensures Split(s, sep) == [s[..i]] + Split(s[i + |sep|..], sep)
  {
  }

  /**
   * A prefix in which no occurrence of the pattern starts is copied through a
   * global replacement unchanged.
   */
  lemma ReplaceAllPrefix(a: string, x: string, pat: string, rep: string)
    requires |pat| > 0
    requires forall j :: 0 <= j < |a| ==> !OccursAt(a + x, pat, j)
    ensures ReplaceAll(a + x, pat, rep) == a + ReplaceAll(x, pat, rep)
  {
    IndexOfAfterPrefix(a, x, pat);
    var k := IndexOf(x, pat);
    if k >= 0 {
      ReplaceAllPrefixHit(a, x, pat, rep, k);
    } else {
      ReplaceAllNoMatch(a + x, pat, rep);
      ReplaceAllNoMatch(x, pat, rep);
    }
  }

  lemma ReplaceAllPrefixHit(a: string, x: string, pat: string, rep: string, k: nat)
    requires |pat| > 0 && IndexOf(x, pat) == k && IndexOf(a + x, pat) == |a| + k
    ensures ReplaceAll(a + x, pat, rep) == a + ReplaceAll(x, pat, rep)
  {
    var s := a + x;
    var i := |a| + k;
    var post := x[k + |pat|..];
    var tail := rep + Join(Split(post, pat), rep);
    calc {
      ReplaceAll(s, pat, rep);
      { SlicesOfConcat(a, x, k, |pat|);
        ReplaceAllAt(s, pat, rep, i, a + x[..k], post); }
      (a + x[..k]) + tail;
      { AppendAssoc(a, x[..k], tail); }
      a + (x[..k] + tail);
      { ReplaceAllAt(x, pat, rep, k, x[..k], post); }
      a + ReplaceAll(x, pat, rep);
    }
  }

  /** The first occurrence is replaced, and the text after it is treated on its own. */
  lemma ReplaceAllAt(s: string, pat: string, rep: string, i: nat, pre: string, post: string)
    requires |pat| > 0 && IndexOf(s, pat) == i && i + |pat| <= |s|
    requires s[..i] == pre && s[i + |pat|..] == post
    ensures ReplaceAll(s, pat, rep) == pre + (rep + Join(Split(post, pat), rep))
  {
    SplitAt(s, pat, i);
    JoinCons(pre, Split(post, pat), rep);
  }

  lemma SlicesOfConcat(a: string, x: string, k: nat, n: nat)
    requires k + n <= |x|
    ensures (a + x)[..|a| + k] == a + x[..k] && (a + x)[|a| + k + n..] == x[k + n..]
  {
  }

  lemma AppendAssoc(p: string, q: string, r: string)
    ensures (p + q) + r == p + (q + r)
  {
  }

  /** An occurrence at the very front is replaced, and the rest is treated on its own. */
  lemma ReplaceAllFront(pat: string, x: string, rep: string)
    requires |pat| > 0
    ensures ReplaceAll(pat + x, pat, rep) == rep + ReplaceAll(x, pat, rep)
  {
    var s := pat + x;
    assert s[..|pat|] == pat;
    IndexOfIs(s, pat, 0);
    assert s[|pat|..] == x;
    assert Split(s, pat) == [[]] + Split(x, pat);
  }

  /** No occurrence starts inside a prefix that lacks the pattern's first character. */
  lemma PrefixFree(a: string, x: string, pat: string)
    requires |pat| > 0 && pat[0] !in a
    ensures forall j :: 0 <= j < |a| ==> !OccursAt(a + x, pat, j)
  {
    forall j | 0 <= j < |a| && j + |pat| <= |a + x| ensures !OccursAt(a + x, pat, j) {
      assert (a + x)[j..j + |pat|][0] == a[j];
    }
  }
  /** Splitting at a separator whose first character `a` lacks: the first piece is `a`. */
  lemma SplitAfter(a: string, sep: string, b: string)
    requires |sep| > 0 && sep[0] !in a
    ensures Split(a + sep + b, sep) == [a] + Split(b, sep)
  {
    var s := a + (sep + b);
    assert s == a + sep + b;
    assert s[|a|..|a| + |sep|] == sep;
    PrefixFree(a, sep + b, sep);
    IndexOfIs(s, sep, |a|);
    SplitAt(s, sep, |a|);
    assert s[..|a|] == a;
    assert s[|a| + |sep|..] == b;
  }

  /** Joining pieces that lack the separator's first character and splitting again gives the pieces back. */
  lemma {:induction false} JoinSplit(ps: seq<string>, sep: string)
    requires |sep| > 0 && ps != []
    requires forall j :: 0 <= j < |ps| ==> sep[0] !in ps[j]
    ensures Split(Join(ps, sep), sep) == ps
    decreases |ps|
  {
    if |ps| == 1 {
      SplitWhole(ps[0], sep);
    } else {
      JoinSplit(ps[1..], sep);
      SplitAfter(ps[0], sep, Join(ps[1..], sep));
      assert ps == [ps[0]] + ps[1..];
    }
  }

  /** A string that lacks the separator's first character is one piece. */
  lemma SplitWhole(a: string, sep: string)
    requires |sep| > 0 && sep[0] !in a
    ensures Split(a, sep) == [a]
  {
    PrefixFree(a, [], sep);
    assert a + [] == a;
  }

  /** A pattern whose first character the string lacks does not occur in it. */
  lemma FirstAbsent(s: string, pat: string)
    requires |pat| > 0 && pat[0] !in s
    ensures IndexOf(s, pat) < 0
  {
    PrefixFree(s, [], pat);
    assert s + [] == s;
  }

  /** One occurrence of `pat`, with none before it and none after, is the only one replaced. */
  lemma ReplaceSingle(a: string, pat: string, b: string, rep: string)
    requires |pat| > 0 && pat[0] !in a && IndexOf(b, pat) < 0
    ensures ReplaceAll(a + pat + b, pat, rep) == a + rep + b
  {
    SplitAfter(a, pat, b);
    assert Split(b, pat) == [b];
    var ps := [a] + Split(b, pat);
    assert ps == [a, b];
    JoinCons(a, [b], rep);
  }

  /** Re-associates `x == a + (b + z)`. */
  lemma Splice(a: string, b: string, x: string, y: string, z: string)
    requires x == a + y && y == b + z
    ensures x == (a + b) + z
  {
  }

  /**
   * A separator whose first character occurs nowhere else in it cannot
   * straddle the boundary in `a + sep + b`, so an `a` without it holds no
   * occurrence.
   */
  lemma NoStraddle(a: string, sep: string, b: string)
    requires |sep| > 0 && sep[0] !in sep[1..] && !Contains(a, sep)
    ensures forall j :: 0 <= j < |a| ==> !OccursAt(a + sep + b, sep, j)
  {
    var s := a + sep + b;
    forall j | 0 <= j < |a| ensures !OccursAt(s, sep, j) {
      if j + |sep| <= |a| {
        assert !OccursAt(a, sep, j);
        assert s[j..j + |sep|] == a[j..j + |sep|];
      } else {
        var k := |a| - j;
        assert s[|a|] == sep[0];
        assert sep[k] != sep[0] by {
          assert sep[k] == sep[1..][k - 1];
        }
        assert j + |sep| <= |s| ==> s[j..j + |sep|][k] == s[|a|];
      }
    }
  }

  /** Splitting at such a separator, after a piece that does not contain it. */
  lemma SplitAfterFree(a: string, sep: string, b: string)
    requires |sep| > 0 && sep[0] !in sep[1..] && !Contains(a, sep)
    ensures Split(a + sep + b, sep) == [a] + Split(b, sep)
  {
    var s := a + (sep + b);
    assert s == a + sep + b;
    assert s[|a|..|a| + |sep|] == sep;
    NoStraddle(a, sep, b);
    IndexOfIs(s, sep, |a|);
    SplitAt(s, sep, |a|);
    assert s[..|a|] == a;
    assert s[|a| + |sep|..] == b;
  }

  /** A string that does not contain the separator is one piece. */
  lemma SplitWholeFree(a: string, sep: string)
    requires |sep| > 0 && !Contains(a, sep)
    ensures Split(a, sep) == [a]
  {
  }

  /** A pattern none of whose characters is in `z` occurs in `y + z` exactly where it occurs in `y`. */
  lemma OccursBeforeSuffix(y: string, z: string, pat: string, j: int)
    requires |pat| > 0
    requires forall i :: 0 <= i < |z| ==> z[i] !in pat
    ensures OccursAt(y + z, pat, j) <==> OccursAt(y, pat, j)
  {
    var s := y + z;
    if 0 <= j && j + |pat| <= |y| {
      assert s[j..j + |pat|] == y[j..j + |pat|];
    } else if 0 <= j && j + |pat| <= |s| {
      var m := if j < |y| then |y| else j;
      assert s[j..j + |pat|][m - j] == s[m] == z[m - |y|];
      assert z[m - |y|] !in pat;
    }
  }

  /** Such a pattern first occurs in `y + z` where it first occurs in `y`. */
  lemma IndexOfSuffix(y: string, z: string, pat: string)
    requires |pat| > 0
    requires forall j :: 0 <= j < |z| ==> z[j] !in pat
    ensures IndexOf(y + z, pat) == IndexOf(y, pat)
  {
    var s := y + z;
    var k, m := IndexOf(y, pat), IndexOf(s, pat);
    if k >= 0 {
      OccursBeforeSuffix(y, z, pat, k);
      forall j | 0 <= j < k ensures !OccursAt(s, pat, j) {
        OccursBeforeSuffix(y, z, pat, j);
      }
      IndexOfIs(s, pat, k);
    } else if m >= 0 {
      OccursBeforeSuffix(y, z, pat, m);
    }
  }

  /** A pattern none of whose characters is in `z` is replaced in `y + z` as in `y`. */
  lemma {:induction false} ReplaceAllSuffix(y: string, z: string, pat: string, rep: string)
    requires |pat| > 0
    requires forall j :: 0 <= j < |z| ==> z[j] !in pat
    ensures ReplaceAll(y + z, pat, rep) == ReplaceAll(y, pat, rep) + z
    decreases |y|
  {
    var s := y + z;
    IndexOfSuffix(y, z, pat);
    var k := IndexOf(y, pat);
    if k < 0 {
      ReplaceAllNoMatch(s, pat, rep);
      ReplaceAllNoMatch(y, pat, rep);
    } else {
      var y' := y[k + |pat|..];
      ReplaceAllSuffix(y', z, pat, rep);
      SplitAt(s, pat, k);
      SplitAt(y, pat, k);
      assert s[..k] == y[..k];
      assert s[k + |pat|..] == y' + z;
      JoinCons(y[..k], Split(y' + z, pat), rep);
      JoinCons(y[..k], Split(y', pat), rep);
    }
  }

  /** A prefix without the pattern's first character adds no occurrence to a string without the pattern. */
  lemma ContainsAfterFree(u: string, v: string, pat: string)
    requires |pat| > 0 && pat[0] !in u && !Contains(v, pat)
    ensures !Contains(u + v, pat)
  {
    PrefixFree(u, v, pat);
    forall j | |u| <= j <= |u + v| ensures !OccursAt(u + v, pat, j) {
      OccursPastPrefix(u, v, pat, j);
    }
  }
}
