/** Small sequence vocabulary shared by the model: an Option type, first occurrence,
    "unique in order of first appearance" (pandas `Series.unique()`, and the key order
    of a Python dict that only ever gains keys), and lexicographic string order. */
module Seqs {

  datatype Option<+T> = None | Some(value: T)

  /** No element occurs twice. */
  predicate Distinct<T(==)>(s: seq<T>) {
    forall i, j :: 0 <= i < j < |s| ==> s[i] != s[j]
  }

  /** Index of the first occurrence of `x` in `s`. */
  function FirstIndex<T(==)>(s: seq<T>, x: T): (k: nat)
    requires x in s
    ensures k < |s| && s[k] == x
    ensures forall j :: 0 <= j < k ==> s[j] != x
  {
    if s[0] == x then 0 else 1 + FirstIndex(s[1..], x)
  }

  /** Each value of `s` once, in the order in which it first appears in `s`. */
  function Unique<T(==)>(s: seq<T>): (r: seq<T>)
    ensures forall i :: 0 <= i < |r| ==> r[i] in s
    ensures forall i :: 0 <= i < |s| ==> s[i] in r
    ensures Distinct(r)
    ensures |r| <= |s|
  {
    if s == [] then []
    else
      var r0 := Unique(s[..|s| - 1]);
      if s[|s| - 1] in r0 then r0 else r0 + [s[|s| - 1]]
  }

  /** Extending the prefix of `b` taken after `a` by one element. */
  lemma AppendPrefixSnoc<T>(a: seq<T>, b: seq<T>, i: nat)
    requires i < |b|
    ensures a + b[..i + 1] == (a + b[..i]) + [b[i]]
  {
    assert b[..i + 1] == b[..i] + [b[i]];
  }

  lemma FirstIndexOfPrefix<T>(s: seq<T>, t: seq<T>, x: T)
    requires x in s
    ensures x in s + t && FirstIndex(s + t, x) == FirstIndex(s, x)
  {
    var k := FirstIndex(s, x);
    assert (s + t)[k] == x;
  }

  lemma FirstIndexOfDistinct<T>(s: seq<T>, i: nat)
    requires Distinct(s) && i < |s|
    ensures FirstIndex(s, s[i]) == i
  {
  }

  /** Unique lists values in the order of their first occurrences in the input. */
  lemma {:induction false} UniqueOrder<T>(s: seq<T>, i: nat, j: nat)
    requires i < j < |Unique(s)|
    ensures FirstIndex(s, Unique(s)[i]) < FirstIndex(s, Unique(s)[j])
  {
    var n := |s|;
    var s0 := s[..n - 1];
    assert s == s0 + [s[n - 1]];
    var r0 := Unique(s0);
    var r := Unique(s);
    if s[n - 1] in r0 {
      UniqueOrder(s0, i, j);
      FirstIndexOfPrefix(s0, [s[n - 1]], r[i]);
      FirstIndexOfPrefix(s0, [s[n - 1]], r[j]);
    } else {
      FirstIndexOfPrefix(s0, [s[n - 1]], r[i]);
      if j < |r0| {
        UniqueOrder(s0, i, j);
        FirstIndexOfPrefix(s0, [s[n - 1]], r[j]);
      } else {
        assert r[j] == s[n - 1] && r[j] !in s0;
      }
    }
  }

  /** Growing the input only appends to Unique: earlier values keep their places. */
  lemma {:induction false} UniqueExtends<T>(s: seq<T>, t: seq<T>)
    ensures |Unique(s)| <= |Unique(s + t)|
    ensures Unique(s + t)[..|Unique(s)|] == Unique(s)
    decreases |t|
  {
    if t == [] {
      assert s + t == s;
    } else {
      var t0 := t[..|t| - 1];
      UniqueExtends(s, t0);
      assert (s + t)[..|s + t| - 1] == s + t0;
    }
  }

  /** Lexicographic order on strings, by code point (Python's `<=` on `str`). */
  predicate LexLe(a: string, b: string) {
    if a == [] then true
    else if b == [] then false
    else if a[0] != b[0] then a[0] < b[0]
    else LexLe(a[1..], b[1..])
  }

  lemma {:induction false} LexLeReflexive(a: string)
    ensures LexLe(a, a)
  {
    if a != [] {
      LexLeReflexive(a[1..]);
    }
  }

  lemma {:induction false} LexLeAntisymmetric(a: string, b: string)
    requires LexLe(a, b) && LexLe(b, a)
    ensures a == b
  {
    if a != [] && b != [] {
      LexLeAntisymmetric(a[1..], b[1..]);
      assert a == [a[0]] + a[1..] && b == [b[0]] + b[1..];
    }
  }
}
