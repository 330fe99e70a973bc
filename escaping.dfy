/**
 * Escaping by chains of global replacements: what it means for a reserved
 * character to be escaped, and which replacements keep it so.
 */
module Escaping {
  import opened JsString

  /** Every occurrence of `c` in `s` is immediately preceded by a backslash. */
  predicate Escaped(s: string, c: char) {
    forall i :: 0 <= i < |s| && s[i] == c ==> 0 < i && s[i - 1] == '\\'
  }

  lemma EscapedConcat(a: string, b: string, c: char)
    requires Escaped(a, c) && Escaped(b, c)
    ensures Escaped(a + b, c)
  {
    var ab := a + b;
    forall i | 0 <= i < |ab| && ab[i] == c ensures 0 < i && ab[i - 1] == '\\' {
      if i >= |a| {
        assert b[i - |a|] == c;
      }
    }
  }

  lemma {:induction false} EscapedJoin(ps: seq<string>, sep: string, c: char)
    requires Escaped(sep, c) && forall j :: 0 <= j < |ps| ==> Escaped(ps[j], c)
    ensures Escaped(Join(ps, sep), c)
    decreases |ps|
  {
    if |ps| > 1 {
      EscapedJoin(ps[1..], sep, c);
      EscapedConcat(ps[0], sep, c);
      EscapedConcat(ps[0] + sep, Join(ps[1..], sep), c);
    }
  }

  lemma EscapedAbsent(s: string, c: char)
    requires c !in s
    ensures Escaped(s, c)
  {
  }

  lemma EscapedPrefix(s: string, k: nat, c: char)
    requires Escaped(s, c) && k <= |s|
    ensures Escaped(s[..k], c)
  {
  }

  /** A suffix that does not start right after a backslash stays escaped. */
  lemma EscapedSuffix(s: string, k: nat, c: char)
    requires Escaped(s, c) && k <= |s|
    requires k == 0 || s[k - 1] != '\\'
    ensures Escaped(s[k..], c)
  {
    var t := s[k..];
    forall i | 0 <= i < |t| && t[i] == c ensures 0 < i && t[i - 1] == '\\' {
      assert s[k + i] == c;
    }
  }

  /** The pieces of an escaped string split at a separator free of backslashes are escaped. */
  lemma {:induction false} EscapedSplit(s: string, sep: string, c: char)
    requires |sep| > 0 && '\\' !in sep && Escaped(s, c)
    ensures forall j :: 0 <= j < |Split(s, sep)| ==> Escaped(Split(s, sep)[j], c)
    decreases |s|
  {
    var i := IndexOf(s, sep);
    if i >= 0 {
      var k := i + |sep|;
      assert s[k - 1] == sep[|sep| - 1];
      EscapedSuffix(s, k, c);
      EscapedPrefix(s, i, c);
      EscapedSplit(s[k..], sep, c);
      var ps := Split(s, sep);
      assert ps == [s[..i]] + Split(s[k..], sep);
      forall j | 0 <= j < |ps| ensures Escaped(ps[j], c) {
        if j > 0 {
          assert ps[j] == Split(s[k..], sep)[j - 1];
        }
      }
    }
  }

  /** Replacing a backslash-free pattern by escaped text keeps `c` escaped. */
  lemma EscapedReplaceAll(s: string, pat: string, rep: string, c: char)
    requires |pat| > 0 && '\\' !in pat && Escaped(s, c) && Escaped(rep, c)
    ensures Escaped(ReplaceAll(s, pat, rep), c)
  {
    EscapedSplit(s, pat, c);
    EscapedJoin(Split(s, pat), rep, c);
  }

  /** Replacing every `c` by a backslash and `c` escapes `c`. */
  lemma EscapeChar(s: string, c: char)
    requires c != '\\'
    ensures Escaped(ReplaceAll(s, [c], ['\\', c]), c)
  {
    SplitRemovesChar(s, c);
    EscapedJoin(Split(s, [c]), ['\\', c], c);
  }

  /** A replacement table: each pattern is a non-empty literal. */
  predicate ValidTable(t: seq<(string, string)>) {
    forall i :: 0 <= i < |t| ==> |t[i].0| > 0
  }

  /** The table's replacements applied one after another, each globally, as a chain of `.replace(/p/g, r)` calls. */
  function ReplaceEach(s: string, t: seq<(string, string)>): string
    requires ValidTable(t)
    decreases |t|
  {
    if t == [] then s else ReplaceEach(ReplaceAll(s, t[0].0, t[0].1), t[1..])
  }

  /** Entry `e` keeps an escaped `c` escaped. */
  predicate KeepsEscaped(e: (string, string), c: char) {
    '\\' !in e.0 && Escaped(e.1, c)
  }

  lemma {:induction false} ReplaceEachKeepsEscaped(s: string, t: seq<(string, string)>, c: char)
    requires ValidTable(t) && Escaped(s, c)
    requires forall i :: 0 <= i < |t| ==> KeepsEscaped(t[i], c)
    ensures Escaped(ReplaceEach(s, t), c)
    decreases |t|
  {
    if t != [] {
      EscapedReplaceAll(s, t[0].0, t[0].1, c);
      ReplaceEachKeepsEscaped(ReplaceAll(s, t[0].0, t[0].1), t[1..], c);
    }
  }

  /** If entry `k` escapes `c` and every later entry keeps it escaped, the chain's result has `c` escaped. */
  lemma {:induction false} ReplaceEachEscapes(s: string, t: seq<(string, string)>, k: nat, c: char)
    requires ValidTable(t) && k < |t| && c != '\\'
    requires t[k] == ([c], ['\\', c])
    requires forall i :: k < i < |t| ==> KeepsEscaped(t[i], c)
    ensures Escaped(ReplaceEach(s, t), c)
    decreases k
  {
    var s' := ReplaceAll(s, t[0].0, t[0].1);
    if k == 0 {
      EscapeChar(s, c);
      ReplaceEachKeepsEscaped(s', t[1..], c);
    } else {
      ReplaceEachEscapes(s', t[1..], k - 1, c);
    }
  }

  lemma {:induction false} ReplaceEachKeepsAbsent(s: string, t: seq<(string, string)>, c: char)
    requires ValidTable(t) && c !in s
    requires forall i :: 0 <= i < |t| ==> c !in t[i].1
    ensures c !in ReplaceEach(s, t)
    decreases |t|
  {
    if t != [] {
      ReplaceAllKeepsAbsent(s, t[0].0, t[0].1, c);
      ReplaceEachKeepsAbsent(ReplaceAll(s, t[0].0, t[0].1), t[1..], c);
    }
  }

  /** If entry `k` replaces `c` and no replacement from `k` on contains `c`, the chain's result has no `c`. */
  lemma {:induction false} ReplaceEachRemoves(s: string, t: seq<(string, string)>, k: nat, c: char)
    requires ValidTable(t) && k < |t| && t[k].0 == [c]
    requires forall i :: k <= i < |t| ==> c !in t[i].1
    ensures c !in ReplaceEach(s, t)
    decreases k
  {
    var s' := ReplaceAll(s, t[0].0, t[0].1);
    if k == 0 {
      ReplaceAllRemoves(s, c, t[0].1);
      ReplaceEachKeepsAbsent(s', t[1..], c);
    } else {
      ReplaceEachRemoves(s', t[1..], k - 1, c);
    }
  }

  /**
   * A printable ASCII character, or a line feed, that none of the three text
   * escapings touches and that does not delimit code.
   */
  predicate Ordinary(c: char) {
    ('\U{20}' <= c <= '\U{7E}' || c == '\n') && c !in "\\~^&%$#_{}`"
  }

  predicate OrdinaryText(s: string) {
    forall j :: 0 <= j < |s| ==> Ordinary(s[j])
  }

  /** A chain none of whose patterns occurs leaves the text as it is. */
  lemma {:induction false} ReplaceEachUnchanged(s: string, t: seq<(string, string)>)
    requires ValidTable(t)
    requires forall i :: 0 <= i < |t| ==> IndexOf(s, t[i].0) < 0
    ensures ReplaceEach(s, t) == s
    decreases |t|
  {
    if t != [] {
      ReplaceAllNoMatch(s, t[0].0, t[0].1);
      ReplaceEachUnchanged(s, t[1..]);
    }
  }

  /**
   * When only entry `k` of the chain finds its pattern, turning `s` into
   * `s'`, and no later pattern occurs in `s'`, the chain gives `s'`.
   */
  lemma {:induction false} ReplaceEachOnly(s: string, t: seq<(string, string)>, k: nat, s': string)
    requires ValidTable(t) && k < |t|
    requires forall i :: 0 <= i < k ==> IndexOf(s, t[i].0) < 0
    requires ReplaceAll(s, t[k].0, t[k].1) == s'
    requires forall i :: k < i < |t| ==> IndexOf(s', t[i].0) < 0
    ensures ReplaceEach(s, t) == s'
    decreases k
  {
    if k == 0 {
      ReplaceEachUnchanged(s', t[1..]);
    } else {
      ReplaceAllNoMatch(s, t[0].0, t[0].1);
      ReplaceEachOnly(s, t[1..], k - 1, s');
    }
  }

  /** Applying a chain is applying its first `k` entries, then the rest. */
  lemma {:induction false} ReplaceEachSplit(s: string, t: seq<(string, string)>, k: nat)
    requires ValidTable(t) && k <= |t|
    ensures ValidTable(t[..k]) && ValidTable(t[k..])
    ensures ReplaceEach(s, t) == ReplaceEach(ReplaceEach(s, t[..k]), t[k..])
    decreases k
  {
    if k == 0 {
      assert t[k..] == t;
    } else {
      ReplaceEachSplit(ReplaceAll(s, t[0].0, t[0].1), t[1..], k - 1);
      assert t[1..][..k - 1] == t[..k][1..];
      assert t[1..][k - 1..] == t[k..];
    }
  }

  /**
   * Text between a prefix that lacks every pattern's first character and a
   * suffix none of whose characters is in any pattern is replaced on its own.
   */
  lemma {:induction false} ReplaceEachAround(x: string, y: string, z: string, t: seq<(string, string)>)
    requires ValidTable(t)
    requires forall i :: 0 <= i < |t| ==> t[i].0[0] !in x
    requires forall i, j :: 0 <= i < |t| && 0 <= j < |z| ==> z[j] !in t[i].0
    ensures ReplaceEach(x + y + z, t) == x + ReplaceEach(y, t) + z
    decreases |t|
  {
    if t != [] {
      var p, r := t[0].0, t[0].1;
      PrefixFree(x, y + z, p);
      ReplaceAllPrefix(x, y + z, p, r);
      ReplaceAllSuffix(y, z, p, r);
      assert x + y + z == x + (y + z);
      var y' := ReplaceAll(y, p, r);
      assert ReplaceAll(x + y + z, p, r) == x + y' + z;
      ReplaceEachAround(x, y', z, t[1..]);
    }
  }
}
