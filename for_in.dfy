/**
 * The order in which a `for..in` loop visits the keys of a plain object used
 * as a dictionary: the keys that are array indices come first, in ascending
 * numeric order, then the other keys in the order they were first added
 * (OrdinaryOwnPropertyKeys, section 10.1.11.1 of ECMAScript 2022).
 */
module ForIn {

  predicate IsDigit(c: char) {
    '0' <= c <= '9'
  }

  /** The number a decimal digit string denotes. */
  function Value(s: string): nat {
    if s == [] then 0
    else Value(s[..|s| - 1]) * 10 + (if IsDigit(s[|s| - 1]) then s[|s| - 1] as int - '0' as int else 0)
  }

  /** A canonical decimal numeral (no sign, no leading zero) below 2^32 - 1. */
  predicate IsArrayIndex(k: string) {
    && |k| > 0
    && (forall i :: 0 <= i < |k| ==> IsDigit(k[i]))
    && (k[0] != '0' || |k| == 1)
    && Value(k) < 0xFFFF_FFFF
  }

  /** The array-index keys, in insertion order. */
  function Indices(ks: seq<string>): (r: seq<string>)
    ensures forall i :: 0 <= i < |r| ==> IsArrayIndex(r[i])
  {
    if ks == [] then []
    else if IsArrayIndex(ks[0]) then [ks[0]] + Indices(ks[1..])
    else Indices(ks[1..])
  }

  /** The other keys, in insertion order. */
  function Named(ks: seq<string>): (r: seq<string>)
    ensures forall i :: 0 <= i < |r| ==> !IsArrayIndex(r[i])
  {
    if ks == [] then []
    else if IsArrayIndex(ks[0]) then Named(ks[1..])
    else [ks[0]] + Named(ks[1..])
  }

  predicate Ascending(ks: seq<string>) {
    forall i, j :: 0 <= i < j < |ks| ==> Value(ks[i]) <= Value(ks[j])
  }

  function Insert(k: string, ks: seq<string>): seq<string> {
    if ks == [] || Value(k) <= Value(ks[0]) then [k] + ks
    else [ks[0]] + Insert(k, ks[1..])
  }

  function Sort(ks: seq<string>): seq<string> {
    if ks == [] then [] else Insert(ks[0], Sort(ks[1..]))
  }

  /** The visiting order of `for (const k in obj)`, given the keys in insertion order. */
  function ForInOrder(keys: seq<string>): seq<string> {
    Sort(Indices(keys)) + Named(keys)
  }

  lemma {:induction false} InsertPermutes(k: string, ks: seq<string>)
    ensures multiset(Insert(k, ks)) == multiset([k] + ks)
  {
    if ks != [] && Value(k) > Value(ks[0]) {
      InsertPermutes(k, ks[1..]);
      assert ks == [ks[0]] + ks[1..];
    }
  }

  lemma {:induction false} InsertKeepsAscending(k: string, ks: seq<string>)
    requires Ascending(ks)
    ensures Ascending(Insert(k, ks))
  {
    if ks != [] && Value(k) > Value(ks[0]) {
      InsertKeepsAscending(k, ks[1..]);
      InsertPermutes(k, ks[1..]);
      var r := Insert(k, ks[1..]);
      forall j | 0 <= j < |r| ensures Value(ks[0]) <= Value(r[j]) {
        assert r[j] in multiset([k] + ks[1..]);
        if r[j] != k {
          assert r[j] in ks[1..];
          var m :| 0 <= m < |ks[1..]| && ks[1..][m] == r[j];
          assert ks[m + 1] == r[j];
        }
      }
    }
  }

  lemma {:induction false} SortPermutes(ks: seq<string>)
    ensures multiset(Sort(ks)) == multiset(ks)
  {
    if ks != [] {
      SortPermutes(ks[1..]);
      InsertPermutes(ks[0], Sort(ks[1..]));
      assert ks == [ks[0]] + ks[1..];
    }
  }

  lemma {:induction false} SortAscends(ks: seq<string>)
    ensures Ascending(Sort(ks))
  {
    if ks != [] {
      SortAscends(ks[1..]);
      InsertKeepsAscending(ks[0], Sort(ks[1..]));
    }
  }

  lemma {:induction false} SplitPermutes(ks: seq<string>)
    ensures multiset(Indices(ks)) + multiset(Named(ks)) == multiset(ks)
  {
    if ks != [] {
      SplitPermutes(ks[1..]);
      assert ks == [ks[0]] + ks[1..];
    }
  }

  /** Every key is visited exactly as often as it was added. */
  lemma ForInPermutes(keys: seq<string>)
    ensures multiset(ForInOrder(keys)) == multiset(keys)
  {
    SortPermutes(Indices(keys));
    SplitPermutes(keys);
  }

  /** Array-index keys come before all other keys, and in ascending numeric order among themselves. */
  lemma ForInIndicesFirst(keys: seq<string>)
    ensures var r := ForInOrder(keys);
            forall i, j :: 0 <= i < j < |r| && IsArrayIndex(r[j]) ==> IsArrayIndex(r[i]) && Value(r[i]) <= Value(r[j])
  {
    var s := Sort(Indices(keys));
    SortAscends(Indices(keys));
    SortPermutes(Indices(keys));
    forall i | 0 <= i < |s| ensures IsArrayIndex(s[i]) {
      assert s[i] in multiset(Indices(keys));
    }
  }

  lemma {:induction false} NoIndices(keys: seq<string>)
    requires forall i :: 0 <= i < |keys| ==> !IsArrayIndex(keys[i])
    ensures Indices(keys) == [] && Named(keys) == keys
  {
    if keys != [] {
      NoIndices(keys[1..]);
      assert keys == [keys[0]] + keys[1..];
    }
  }

  /** Without array-index keys, the loop visits the keys in insertion order. */
  lemma ForInInsertionOrder(keys: seq<string>)
    requires forall i :: 0 <= i < |keys| ==> !IsArrayIndex(keys[i])
    ensures ForInOrder(keys) == keys
  {
    NoIndices(keys);
  }
}
