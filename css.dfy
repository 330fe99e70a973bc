/**
 * Reading class selectors out of the exported stylesheet text, and matching
 * selectors against an element. The three versions of the converter share
 * these two routines word for word.
 */
module Css {
  import opened Wrappers
  import opened JsString
  import opened Html

  /**
   * The selector a stylesheet fragment ends with: the text after the last `}`
   * that comes before the fragment's last `{`.
   */
  function SelectorOf(fragment: string): (r: string)
    ensures '}' !in r
    ensures var open := LastIndexOf(fragment, '{');
            open >= 0 ==> EndsWith(fragment[..open], r)
                          && (|r| < open ==> fragment[open - |r| - 1] == '}')
  {
    var nf := Slice(fragment, 0, LastIndexOf(fragment, '{'));
    var close := LastIndexOf(nf, '}');
    var r := SliceFrom(nf, close + 1);
    assert r == nf[close + 1..];
    assert forall k :: 0 <= k < |r| ==> r[k] == nf[close + 1 + k];
    r
  }

  /**
   * `getSelector(css, declaration)`: one selector for every occurrence of the
   * declaration text, the i-th taken from the text between occurrence i-1 and
   * occurrence i.
   */
  function GetSelector(css: string, declaration: string): (r: seq<string>)
    requires |declaration| > 0
    ensures |r| == Occurrences(css, declaration) && |r| + 1 == |Split(css, declaration)|
    ensures forall i :: 0 <= i < |r| ==> '}' !in r[i]
    ensures forall i :: 0 <= i < |r| ==> r[i] == SelectorOf(Split(css, declaration)[i])
  {
    var fragments := Split(css, declaration);
    SplitCount(css, declaration);
    seq(|fragments| - 1, i requires 0 <= i < |fragments| - 1 => SelectorOf(fragments[i]))
  }

  /** The element's `class` attribute, or `''` when it has none. */
  function ClassValue(attrs: seq<Attribute>): string {
    var c := FindAttr(attrs, "class");
    if c.Some? then c.value else ""
  }

  /** The four textual tests a class selector `.c` makes of the class attribute. */
  predicate ClassMatches(value: string, c: string) {
    value == c || StartsWith(value, c + " ") || EndsWith(value, " " + c) || Contains(value, " " + c + " ")
  }

  /** Reference definition: `c` stands in `value` bounded on each side by a space or an end. */
  predicate IsToken(value: string, c: string) {
    exists i :: 0 <= i <= |value| && TokenAt(value, c, i)
  }

  /** `c` occurs at `i` with a space or an end on each side. */
  predicate TokenAt(value: string, c: string, i: int) {
    OccursAt(value, c, i)
    && (i == 0 || value[i - 1] == ' ')
    && (i + |c| == |value| || value[i + |c|] == ' ')
  }

  /** One selector against one element; only class and lower-case tag selectors are supported. */
  function MatchOne(attrs: seq<Attribute>, tag: string, s: string): Result<bool, Error> {
    if StartsWith(s, ".") then Ok(ClassMatches(ClassValue(attrs), s[1..]))
    else if |s| > 0 && 'a' <= s[0] <= 'z' then Ok(s == tag)
    else Err(UnsupportedSelector(s))
  }

  /**
   * `selectorMatches(elem, selectors)`: `selectors.some(...)`, which stops at the
   * first selector that matches and throws at the first unsupported one it reaches.
   */
  function SelectorMatches(attrs: seq<Attribute>, tag: string, selectors: seq<string>): (r: Result<bool, Error>)
    ensures r == Ok(true) ==> exists i :: 0 <= i < |selectors| && MatchOne(attrs, tag, selectors[i]) == Ok(true)
    ensures r.Err? ==> exists i :: 0 <= i < |selectors| && MatchOne(attrs, tag, selectors[i]).Err?
    ensures (forall i :: 0 <= i < |selectors| ==> MatchOne(attrs, tag, selectors[i]) == Ok(false)) ==> r == Ok(false)
    ensures (exists i :: 0 <= i < |selectors| && MatchOne(attrs, tag, selectors[i]) == Ok(true)
                         && forall j :: 0 <= j < i ==> MatchOne(attrs, tag, selectors[j]).Ok?) ==> r == Ok(true)
    ensures r == Ok(false) ==> forall i :: 0 <= i < |selectors| ==> MatchOne(attrs, tag, selectors[i]) == Ok(false)
    ensures r != Ok(false) ==> exists i :: 0 <= i < |selectors| && r == MatchOne(attrs, tag, selectors[i])
                                           && forall j :: 0 <= j < i ==> MatchOne(attrs, tag, selectors[j]) == Ok(false)
  {
    if selectors == [] then Ok(false)
    else
      var first := MatchOne(attrs, tag, selectors[0]);
      var rest := SelectorMatches(attrs, tag, selectors[1..]);
      assert forall i :: 1 <= i < |selectors| ==> selectors[i] == selectors[1..][i - 1];
      if first.Err? then Err(first.error)
      else if first.value then Ok(true)
      else
        assert (exists i :: 0 <= i < |selectors| && MatchOne(attrs, tag, selectors[i]) == Ok(true)
                  && forall j :: 0 <= j < i ==> MatchOne(attrs, tag, selectors[j]).Ok?)
               ==> (exists i :: 0 <= i < |selectors[1..]| && MatchOne(attrs, tag, selectors[1..][i]) == Ok(true)
                      && forall j :: 0 <= j < i ==> MatchOne(attrs, tag, selectors[1..][j]).Ok?) by {
          if exists i :: 0 <= i < |selectors| && MatchOne(attrs, tag, selectors[i]) == Ok(true)
                         && forall j :: 0 <= j < i ==> MatchOne(attrs, tag, selectors[j]).Ok? {
            var i :| 0 <= i < |selectors| && MatchOne(attrs, tag, selectors[i]) == Ok(true)
                     && forall j :: 0 <= j < i ==> MatchOne(attrs, tag, selectors[j]).Ok?;
            assert i > 0;
            assert forall j :: 0 <= j < i - 1 ==> selectors[1..][j] == selectors[j + 1];
          }
        }
        rest
  }

  /** The class attribute's four tests amount to `c` standing in it as a space-delimited token. */
  lemma ClassMatchesIsToken(value: string, c: string)
    ensures ClassMatches(value, c) <==> IsToken(value, c)
  {
    if value == c {
      assert TokenAt(value, c, 0);
    } else if StartsWith(value, c + " ") {
      assert value[..|c|] == (c + " ")[..|c|];
      assert value[|c|] == (c + " ")[|c|];
      assert TokenAt(value, c, 0);
    } else if EndsWith(value, " " + c) {
      var i := |value| - |c|;
      assert value[i..] == (" " + c)[1..];
      assert value[i - 1] == (" " + c)[0];
      assert TokenAt(value, c, i);
    } else if Contains(value, " " + c + " ") {
      var w := " " + c + " ";
      var k :| 0 <= k <= |value| && OccursAt(value, w, k);
      assert value[k..k + |w|] == w;
      assert value[k] == w[0] == ' ';
      assert value[k + 1 + |c|] == w[|c| + 1] == ' ';
      assert forall j :: 0 <= j < |c| ==> value[k + 1 + j] == w[1 + j] == c[j];
      assert value[k + 1..k + 1 + |c|] == c;
      assert TokenAt(value, c, k + 1);
    } else if IsToken(value, c) {
      var i :| 0 <= i <= |value| && TokenAt(value, c, i);
      TokenAtMatches(value, c, i);
    }
  }

  lemma TokenAtMatches(value: string, c: string, i: int)
    requires TokenAt(value, c, i)
    ensures ClassMatches(value, c)
  {
    if i == 0 && i + |c| == |value| {
      assert value == value[0..|c|];
    } else if i == 0 {
      assert value[..|c| + 1] == c + " ";
    } else if i + |c| == |value| {
      assert value[|value| - |c| - 1..] == " " + c;
    } else {
      assert value[i - 1..i - 1 + |c| + 2] == " " + c + " ";
      assert OccursAt(value, " " + c + " ", i - 1);
    }
  }

  /** In a string without spaces, the only token is the whole string. */
  lemma TokenWithoutSpaces(value: string, c: string)
    requires ' ' !in value
    ensures IsToken(value, c) <==> c == value
  {
    if IsToken(value, c) {
      var p :| 0 <= p <= |value| && TokenAt(value, c, p);
      assert p == 0 && p + |c| == |value|;
      assert value == value[p..p + |c|];
    }
    if c == value {
      assert TokenAt(value, c, 0);
    }
  }

  /** A token that starts at the front ends at the first space `i`. */
  lemma TokenAtFront(value: string, c: string, i: nat)
    requires i < |value| && value[i] == ' ' && forall j :: 0 <= j < i ==> value[j] != ' '
    requires ' ' !in c
    ensures TokenAt(value, c, 0) <==> c == value[..i]
  {
    if TokenAt(value, c, 0) {
      assert |c| == i;
    }
  }

  /** A token after the first space `i` is a token of the rest, and conversely. */
  lemma TokenAfterFront(value: string, c: string, i: nat)
    requires i < |value| && value[i] == ' ' && forall j :: 0 <= j < i ==> value[j] != ' '
    ensures (exists p :: 1 <= p <= |value| && TokenAt(value, c, p)) <==> IsToken(value[i + 1..], c)
  {
    var rest := value[i + 1..];
    if exists p :: 1 <= p <= |value| && TokenAt(value, c, p) {
      var p :| 1 <= p <= |value| && TokenAt(value, c, p);
      TokenInRest(value, c, i, p);
    }
    if IsToken(rest, c) {
      var q :| 0 <= q <= |rest| && TokenAt(rest, c, q);
      TokenFromRest(value, c, i, q);
    }
  }

  lemma TokenInRest(value: string, c: string, i: nat, p: nat)
    requires i < |value| && value[i] == ' ' && forall j :: 0 <= j < i ==> value[j] != ' '
    requires 1 <= p <= |value| && TokenAt(value, c, p)
    ensures IsToken(value[i + 1..], c)
  {
    var rest := value[i + 1..];
    var q := p - i - 1;
    assert 0 <= q <= |rest|;
    assert rest[q..q + |c|] == value[p..p + |c|];
    assert q == 0 || rest[q - 1] == value[p - 1];
    assert q + |c| == |rest| || rest[q + |c|] == value[p + |c|];
    assert TokenAt(rest, c, q);
  }

  lemma TokenFromRest(value: string, c: string, i: nat, q: nat)
    requires i < |value| && value[i] == ' '
    requires q <= |value[i + 1..]| && TokenAt(value[i + 1..], c, q)
    ensures TokenAt(value, c, q + i + 1)
  {
    var rest := value[i + 1..];
    var p := q + i + 1;
    assert value[p..p + |c|] == rest[q..q + |c|];
    assert p + |c| == |value| || value[p + |c|] == rest[q + |c|];
  }

  /** For a class name without spaces, being a token is being one of the pieces of `value.split(' ')`. */
  lemma {:induction false} TokenIsSplitPiece(value: string, c: string)
    requires ' ' !in c
    ensures IsToken(value, c) <==> c in Split(value, " ")
    decreases |value|
  {
    var i := IndexOf(value, " ");
    if i < 0 {
      if ' ' in value {
        var k :| 0 <= k < |value| && value[k] == ' ';
        assert OccursAt(value, " ", k);
      }
      TokenWithoutSpaces(value, c);
    } else {
      var rest := value[i + 1..];
      assert value[i..i + 1] == " ";
      forall j | 0 <= j < i ensures value[j] != ' ' {
        assert !OccursAt(value, " ", j);
        assert value[j..j + 1] == [value[j]];
      }
      TokenIsSplitPiece(rest, c);
      TokenAtFront(value, c, i);
      TokenAfterFront(value, c, i);
      assert Split(value, " ") == [value[..i]] + Split(rest, " ");
    }
  }

  /**
   * A class selector `.c` (with `c` free of spaces) matches exactly when `c` is one of
   * the space-separated tokens of the class attribute; a missing attribute counts as `''`.
   */
  lemma ClassSelectorIsTokenMembership(attrs: seq<Attribute>, tag: string, c: string)
    requires ' ' !in c
    ensures SelectorMatches(attrs, tag, ["." + c]).Ok?
    ensures SelectorMatches(attrs, tag, ["." + c]).value <==> c in Split(ClassValue(attrs), " ")
  {
    assert StartsWith("." + c, ".") && ("." + c)[1..] == c;
    ClassMatchesIsToken(ClassValue(attrs), c);
    TokenIsSplitPiece(ClassValue(attrs), c);
  }

  /** A selector with a lower-case initial matches exactly the element of that tag name. */
  lemma TagSelectorIsEquality(attrs: seq<Attribute>, tag: string, s: string)
    requires |s| > 0 && 'a' <= s[0] <= 'z'
    ensures SelectorMatches(attrs, tag, [s]) == Ok(s == tag)
  {
  }

  /** Any other selector shape throws, and an empty selector list never matches. */
  lemma OtherSelectorThrows(attrs: seq<Attribute>, tag: string, s: string)
    requires !StartsWith(s, ".") && !(|s| > 0 && 'a' <= s[0] <= 'z')
    ensures SelectorMatches(attrs, tag, [s]) == Err(UnsupportedSelector(s))
    ensures SelectorMatches(attrs, tag, []) == Ok(false)
  {
  }
}
