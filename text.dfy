/** The string operations the chat pipeline of risiko3.py relies on, with Python's meaning:
    `str.isspace` (which is also what `\s` matches in a `str` pattern), `str.strip()`,
    the ASCII digits, substring search (`in`, `str.contains(..., regex=False)`) and
    `str.replace`. */
module Text {

  /** Python's `str.isspace` / regex `\s` on `str`: the characters of bidirectional class
      WS, B or S, or of category Zs. */
  predicate IsSpace(c: char) {
    || ('\U{9}' <= c <= '\U{D}') || ('\U{1C}' <= c <= '\U{20}')
    || c == '\U{85}' || c == '\U{A0}' || c == '\U{1680}' || ('\U{2000}' <= c <= '\U{200A}')
    || c == '\U{2028}' || c == '\U{2029}' || c == '\U{202F}' || c == '\U{205F}' || c == '\U{3000}'
  }

  /** Regex `\d`, restricted to the ASCII digits. */
  predicate IsDigit(c: char) {
    '0' <= c <= '9'
  }

  /** The first index at or after `from` holding `c`, or `|s|` when there is none. */
  function FindChar(s: string, c: char, from: nat): (k: nat)
    requires from <= |s|
    ensures from <= k <= |s|
    ensures k < |s| ==> s[k] == c
    decreases |s| - from
  {
    if from == |s| || s[from] == c then from else FindChar(s, c, from + 1)
  }

  /** The index `FindChar` returns is the first occurrence of `c` at or after `from`. */
  lemma {:induction false} FindCharFirst(s: string, c: char, from: nat)
    requires from <= |s|
    ensures forall j :: from <= j < FindChar(s, c, from) ==> s[j] != c
    decreases |s| - from
  {
    if from < |s| && s[from] != c {
      FindCharFirst(s, c, from + 1);
    }
  }

  /** `s.lstrip()`: drops the leading whitespace. */
  function LStrip(s: string): (r: string)
    ensures |r| <= |s| && r == s[|s| - |r|..]
    ensures forall i :: 0 <= i < |s| - |r| ==> IsSpace(s[i])
    ensures r == [] || !IsSpace(r[0])
  {
    if s == [] || !IsSpace(s[0]) then s else LStrip(s[1..])
  }

  /** `s.rstrip()`: drops the trailing whitespace. */
  function RStrip(s: string): (r: string)
    ensures |r| <= |s| && r == s[..|r|]
    ensures forall i :: |r| <= i < |s| ==> IsSpace(s[i])
    ensures r == [] || !IsSpace(r[|r| - 1])
  {
    if s == [] || !IsSpace(s[|s| - 1]) then s else RStrip(s[..|s| - 1])
  }

  /** `r` is the infix of `s` that starts at `a`, with only whitespace around it. */
  ghost predicate Trims(s: string, r: string, a: nat) {
    && a + |r| <= |s| && r == s[a..a + |r|]
    && (forall i :: 0 <= i < a ==> IsSpace(s[i]))
    && (forall i :: a + |r| <= i < |s| ==> IsSpace(s[i]))
  }

  /** `s.strip()`: the longest infix of `s` that neither starts nor ends with whitespace,
      everything around it being whitespace. */
  function Strip(s: string): (r: string)
    ensures exists a: nat :: Trims(s, r, a)
    ensures r == [] || (!IsSpace(r[0]) && !IsSpace(r[|r| - 1]))
  {
    var l := LStrip(s);
    var r := RStrip(l);
    var a := |s| - |l|;
    StripPieces(s);
    assert Trims(s, r, a);
    assert r != [] ==> r[0] == l[0];
    r
  }

  lemma StripPieces(s: string)
    ensures Trims(s, RStrip(LStrip(s)), |s| - |LStrip(s)|)
  {
    var l := LStrip(s);
    var r := RStrip(l);
    var a := |s| - |l|;
    InfixOfSuffix(s, l, r, a);
    SpacesOfSuffix(s, l, |r|, a);
  }

  lemma InfixOfSuffix(s: string, l: string, r: string, a: nat)
    requires a <= |s| && l == s[a..] && |r| <= |l| && r == l[..|r|]
    ensures r == s[a..a + |r|]
  {
  }

  lemma SpacesOfSuffix(s: string, l: string, n: nat, a: nat)
    requires a <= |s| && l == s[a..] && n <= |l|
    requires forall i :: n <= i < |l| ==> IsSpace(l[i])
    ensures forall i :: a + n <= i < |s| ==> IsSpace(s[i])
  {
    forall i | a + n <= i < |s|
      ensures IsSpace(s[i])
    {
      assert s[i] == l[i - a];
    }
  }

  /** Stripping a stripped string changes nothing. */
  lemma StripIdempotent(s: string)
    ensures Strip(Strip(s)) == Strip(s)
  {
    var r := Strip(s);
    if r != [] {
      assert LStrip(r) == r;
      assert RStrip(r) == r;
    }
  }

  /** A string with no whitespace at either end is its own strip. */
  lemma StripOfTrimmed(s: string)
    requires s == [] || (!IsSpace(s[0]) && !IsSpace(s[|s| - 1]))
    ensures Strip(s) == s
  {
  }

  /** `pat` occurs in `s` at index `i`. */
  predicate OccursAt(s: string, pat: string, i: nat) {
    i + |pat| <= |s| && s[i..i + |pat|] == pat
  }

  /** `pat in s`. */
  function Contains(s: string, pat: string): (b: bool)
    ensures b <==> exists i: nat :: OccursAt(s, pat, i)
  {
    if OccursAt(s, pat, 0) then true
    else if s == [] then false
    else
      var b := Contains(s[1..], pat);
      assert forall i: nat :: OccursAt(s[1..], pat, i) <==> OccursAt(s, pat, i + 1) by {
        forall i: nat ensures OccursAt(s[1..], pat, i) <==> OccursAt(s, pat, i + 1) {
          OccursShift(s, pat, i);
        }
      }
      assert b <== exists i: nat :: OccursAt(s, pat, i) by {
        if exists i: nat :: OccursAt(s, pat, i) {
          var i: nat :| OccursAt(s, pat, i);
          assert i > 0;
          assert OccursAt(s[1..], pat, i - 1);
        }
      }
      b
  }

  /** A pattern longer than the text does not occur in it. */
  lemma LongerNotContained(s: string, pat: string)
    requires |s| < |pat|
    ensures !Contains(s, pat)
  {
  }

  /** A pattern as long as the text occurs in it only when it is the text. */
  lemma SameLengthContained(s: string, pat: string)
    requires |s| == |pat|
    ensures Contains(s, pat) <==> s == pat
  {
    if Contains(s, pat) {
      var i: nat :| OccursAt(s, pat, i);
      assert s[0..|pat|] == s;
    }
  }

  /** An occurrence in a part is an occurrence in the whole. */
  lemma ContainsInfix(a: string, b: string, c: string, pat: string)
    requires Contains(b, pat)
    ensures Contains(a + b + c, pat)
  {
    var i: nat :| OccursAt(b, pat, i);
    assert (a + b + c)[|a| + i..|a| + i + |pat|] == b[i..i + |pat|];
    assert OccursAt(a + b + c, pat, |a| + i);
  }

  /** `s.replace(pat, rep)`: every occurrence of `pat`, taken left to right without overlap,
      becomes `rep`; an empty `pat` puts `rep` before every character and at the end. */
  function ReplaceAll(s: string, pat: string, rep: string): (r: string)
    ensures pat != [] && !Contains(s, pat) ==> r == s
  {
    if pat == [] then
      (if s == [] then rep else rep + [s[0]] + ReplaceAll(s[1..], pat, rep))
    else if |s| < |pat| then s
    else if s[..|pat|] == pat then
      assert OccursAt(s, pat, 0);
      rep + ReplaceAll(s[|pat|..], pat, rep)
    else
      var r := ReplaceAll(s[1..], pat, rep);
      assert !Contains(s, pat) ==> !Contains(s[1..], pat) by {
        if Contains(s[1..], pat) {
          ContainsInfix([s[0]], s[1..], [], pat);
          assert [s[0]] + s[1..] + [] == s;
        }
      }
      [s[0]] + r
  }

  lemma OccursShift(s: string, pat: string, i: nat)
    requires s != []
    ensures OccursAt(s[1..], pat, i) <==> OccursAt(s, pat, i + 1)
  {
    if i + 1 + |pat| <= |s| {
      assert s[1..][i..i + |pat|] == s[i + 1..i + 1 + |pat|];
    }
  }

  /** Where `pat` does not occur, the first character passes through unchanged. */
  lemma ReplaceSkip(s: string, pat: string, rep: string)
    requires pat != [] && s != [] && !OccursAt(s, pat, 0)
    ensures ReplaceAll(s, pat, rep) == [s[0]] + ReplaceAll(s[1..], pat, rep)
  {
    if |s| < |pat| {
      assert !Contains(s[1..], pat);
      assert s == [s[0]] + s[1..];
    }
  }

  /** Where `pat` occurs, it becomes `rep`. */
  lemma ReplaceHit(s: string, pat: string, rep: string)
    requires pat != [] && OccursAt(s, pat, 0)
    ensures ReplaceAll(s, pat, rep) == rep + ReplaceAll(s[|pat|..], pat, rep)
  {
  }

  /** Text before the first occurrence passes through unchanged, the occurrence becomes
      `rep`, and replacing resumes right after it. */
  lemma {:induction false} ReplaceAtFirst(a: string, b: string, pat: string, rep: string)
    requires pat != []
    requires forall i: nat :: i < |a| ==> !OccursAt(a + pat + b, pat, i)
    ensures ReplaceAll(a + pat + b, pat, rep) == a + rep + ReplaceAll(b, pat, rep)
  {
    var s := a + pat + b;
    if a == [] {
      assert s == pat + b && s[|pat|..] == b;
      ReplaceHit(s, pat, rep);
    } else {
      var s1 := a[1..] + pat + b;
      assert s[1..] == s1;
      forall i: nat | i < |a[1..]|
        ensures !OccursAt(s1, pat, i)
      {
        OccursShift(s, pat, i);
      }
      ReplaceAtFirst(a[1..], b, pat, rep);
      ReplaceSkip(s, pat, rep);
      var tail := ReplaceAll(b, pat, rep);
      calc {
        ReplaceAll(s, pat, rep);
        [s[0]] + ReplaceAll(s1, pat, rep);
        [a[0]] + (a[1..] + rep + tail);
        { SeqAssoc(a, rep, tail); }
        a + rep + tail;
      }
    }
  }

  lemma SeqAssoc(a: string, rep: string, tail: string)
    requires a != []
    ensures [a[0]] + (a[1..] + rep + tail) == a + rep + tail
  {
    assert [a[0]] + a[1..] == a;
  }

  /** Replacing a whole string that is exactly the pattern yields the replacement. */
  lemma ReplaceWhole(pat: string, rep: string)
    requires pat != []
    ensures ReplaceAll(pat, pat, rep) == rep
  {
    assert pat[|pat|..] == [];
  }
}
