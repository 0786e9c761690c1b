/** From chat messages to located sightings (risiko3.py lines 67-82): a message is a
    sighting when its text contains the poop emoji; its location is the text of the next
    message when that message comes from the same user and looks like a shared position;
    the coordinates are the first `lat,lon` pair in that text, and rows without one are
    dropped. */
module Locations {
  import opened Seqs
  import opened Text
  import opened Chat

  /** U+1F4A9, the emoji the sightings are marked with. */
  const Poop: string := "\U{1F4A9}"

  /** Line 67: `str.contains('💩', regex=False)`. */
  predicate IsPoop(content: string) {
    Contains(content, Poop)
  }

  /** Line 71: `str.contains(r'Posizione:|maps')`. */
  predicate IsLocation(content: string) {
    Contains(content, "Posizione:") || Contains(content, "maps")
  }

  /** A message with its `Location` column. */
  datatype Row = Row(msg: Message, location: Option<string>)

  /** The location column for a message followed by `next`. */
  function LocationFrom(msg: Message, next: Message): Option<string> {
    if IsLocation(next.content) && next.user == msg.user then Some(next.content) else None
  }

  /** Lines 70-74: every message, paired with the text of the message after it when that
      one is from the same user and mentions a position; the last message has no
      successor (`shift(-1)` gives NaN there) and gets no location. */
  function PairLocations(msgs: seq<Message>): (rows: seq<Row>)
    ensures |rows| == |msgs|
    ensures forall i {:trigger rows[i]} :: 0 <= i < |msgs| ==> rows[i].msg == msgs[i]
    ensures forall i {:trigger rows[i]} :: 0 <= i < |msgs| ==>
      (rows[i].location.Some? <==>
        i + 1 < |msgs| && msgs[i + 1].user == msgs[i].user && IsLocation(msgs[i + 1].content))
    ensures forall i {:trigger rows[i]} :: 0 <= i < |msgs| - 1 && rows[i].location.Some? ==> rows[i].location.value == msgs[i + 1].content
  {
    if |msgs| == 0 then []
    else if |msgs| == 1 then [Row(msgs[0], None)]
    else [Row(msgs[0], LocationFrom(msgs[0], msgs[1]))] + PairLocations(msgs[1..])
  }

  /** Line 75: the rows whose message contains the emoji, in their order. */
  function FilterPoop(rows: seq<Row>): (kept: seq<Row>)
    ensures forall r :: r in kept <==> r in rows && IsPoop(r.msg.content)
    ensures |kept| <= |rows|
  {
    if rows == [] then []
    else
      var last := rows[|rows| - 1];
      FilterPoop(rows[..|rows| - 1]) + (if IsPoop(last.msg.content) then [last] else [])
  }

  /** Filtering keeps the order of rows: filtering a concatenation concatenates the results. */
  lemma {:induction false} FilterPoopAppend(a: seq<Row>, b: seq<Row>)
    ensures FilterPoop(a + b) == FilterPoop(a) + FilterPoop(b)
    decreases |b|
  {
    if b == [] {
      assert a + b == a;
    } else {
      var b0 := b[..|b| - 1];
      assert (a + b)[..|a + b| - 1] == a + b0;
      FilterPoopAppend(a, b0);
    }
  }

  /** Filtering twice is filtering once. */
  lemma {:induction false} FilterPoopIdempotent(rows: seq<Row>)
    ensures FilterPoop(FilterPoop(rows)) == FilterPoop(rows)
  {
    if rows != [] {
      var last := rows[|rows| - 1];
      var front := FilterPoop(rows[..|rows| - 1]);
      var tail := if IsPoop(last.msg.content) then [last] else [];
      FilterPoopIdempotent(rows[..|rows| - 1]);
      FilterPoopAppend(front, tail);
      if IsPoop(last.msg.content) {
        assert FilterPoop(tail) == FilterPoop([]) + [last];
      }
    }
  }

  // ----- coordinates: `re.search(r'(-?\d+\.\d+),\s*(-?\d+\.\d+)', str(text))` -----

  /** The first index at or after `from` that is not an ASCII digit. */
  function DigitsEnd(s: string, from: nat): (k: nat)
    requires from <= |s|
    ensures from <= k <= |s|
    ensures k == |s| || !IsDigit(s[k])
    decreases |s| - from
  {
    if from == |s| || !IsDigit(s[from]) then from else DigitsEnd(s, from + 1)
  }

  /** Everything DigitsEnd skips is a digit. */
  lemma {:induction false} DigitsEndSkips(s: string, from: nat)
    requires from <= |s|
    ensures DigitsIn(s, from, DigitsEnd(s, from))
    decreases |s| - from
  {
    if from < |s| && IsDigit(s[from]) {
      DigitsEndSkips(s, from + 1);
    }
  }

  /** The first index at or after `from` that is not whitespace. */
  function SpacesEnd(s: string, from: nat): (k: nat)
    requires from <= |s|
    ensures from <= k <= |s|
    ensures k == |s| || !IsSpace(s[k])
    decreases |s| - from
  {
    if from == |s| || !IsSpace(s[from]) then from else SpacesEnd(s, from + 1)
  }

  /** Everything SpacesEnd skips is whitespace. */
  lemma {:induction false} SpacesEndSkips(s: string, from: nat)
    requires from <= |s|
    ensures forall j :: from <= j < SpacesEnd(s, from) ==> IsSpace(s[j])
    decreases |s| - from
  {
    if from < |s| && IsSpace(s[from]) {
      SpacesEndSkips(s, from + 1);
    }
  }

  /** `s[a..b]` is made of ASCII digits. */
  predicate DigitsIn(s: string, a: nat, b: nat) {
    a <= b <= |s| && forall x :: a <= x < b ==> IsDigit(s[x])
  }

  /** Where the digits of a number starting at `i` begin: after an optional minus sign. */
  function DigitsStart(s: string, i: nat): nat {
    if i < |s| && s[i] == '-' then i + 1 else i
  }

  /** `-?\d+\.\d+` matches `s[i..k]`, with its decimal point at `d`. */
  predicate DecimalWith(s: string, i: nat, d: nat, k: nat) {
    var j := DigitsStart(s, i);
    j < d && d + 1 < k <= |s| && s[d] == '.' && DigitsIn(s, j, d) && DigitsIn(s, d + 1, k)
  }

  /** `-?\d+\.\d+` matches `s[i..k]`. */
  ghost predicate DecimalAt(s: string, i: nat, k: nat) {
    exists d: nat :: DecimalWith(s, i, d, k)
  }

  /** `-?\d+\.\d+` at `i`, taken as long as it goes: the index where it ends. */
  function NumberAt(s: string, i: nat): (k: Option<nat>)
    requires i <= |s|
    ensures k.Some? ==> i < k.value <= |s|
  {
    var j := DigitsStart(s, i);
    var d := DigitsEnd(s, j);
    if d == j || d >= |s| || s[d] != '.' then None
    else
      var k := DigitsEnd(s, d + 1);
      if k == d + 1 then None else Some(k)
  }

  /** What NumberAt finds is a decimal, and the longest one. */
  lemma NumberAtSound(s: string, i: nat)
    requires i <= |s| && NumberAt(s, i).Some?
    ensures DecimalAt(s, i, NumberAt(s, i).value)
    ensures NumberAt(s, i).value == |s| || !IsDigit(s[NumberAt(s, i).value])
  {
    var j := DigitsStart(s, i);
    DigitsEndSkips(s, j);
    DigitsEndSkips(s, DigitsEnd(s, j) + 1);
    assert DecimalWith(s, i, DigitsEnd(s, j), NumberAt(s, i).value);
  }

  /** Any decimal at `i` makes NumberAt succeed, reaching at least as far; a decimal that
      cannot be extended is exactly the one it finds. */
  lemma NumberAtComplete(s: string, i: nat, d: nat, k: nat)
    requires i <= |s| && DecimalWith(s, i, d, k)
    ensures NumberAt(s, i).Some? && k <= NumberAt(s, i).value
    ensures k == |s| || !IsDigit(s[k]) ==> NumberAt(s, i) == Some(k)
  {
    DigitsEndSkips(s, DigitsStart(s, i));
    DigitsEndSkips(s, d + 1);
    assert DigitsEnd(s, DigitsStart(s, i)) == d;
  }

  /** A decimal cannot start with whitespace. */
  lemma DecimalStart(s: string, i: nat, d: nat, k: nat)
    requires DecimalWith(s, i, d, k)
    ensures i < |s| && !IsSpace(s[i])
  {
    var j := DigitsStart(s, i);
    assert IsDigit(s[j]);
  }

  /** A run of whitespace ends at the first character that is not one. */
  lemma SpacesEndAt(s: string, from: nat, q: nat)
    requires from <= q < |s| && !IsSpace(s[q])
    requires forall x :: from <= x < q ==> IsSpace(s[x])
    ensures SpacesEnd(s, from) == q
  {
    SpacesEndSkips(s, from);
  }

  /** `(-?\d+\.\d+),\s*(-?\d+\.\d+)` matches at `i` with the first group `s[i..m]`, the comma
      at `m`, whitespace up to `q` and the second group `s[q..r]`. */
  ghost predicate CoordsPattern(s: string, i: nat, m: nat, q: nat, r: nat) {
    && DecimalAt(s, i, m)
    && m < |s| && s[m] == ','
    && m + 1 <= q <= |s|
    && (forall x :: m + 1 <= x < q ==> IsSpace(s[x]))
    && DecimalAt(s, q, r)
  }

  /** The match of the coordinates pattern at `i`, as the regex engine finds it: both numbers
      and the whitespace run taken greedily. Backtracking cannot give another match, because
      each part must be followed by a character the part cannot hold. */
  function CoordsAt(s: string, i: nat): (g: Option<(nat, nat, nat)>)
    requires i <= |s|
    ensures g.Some? ==> i < g.value.0 < g.value.1 <= g.value.2 <= |s|
  {
    match NumberAt(s, i)
    case None => None
    case Some(m) =>
      if m == |s| || s[m] != ',' then None
      else
        var q := SpacesEnd(s, m + 1);
        match NumberAt(s, q)
        case None => None
        case Some(r) => Some((m, q, r))
  }

  /** What CoordsAt finds is a match of the pattern, with the second number as long as it goes. */
  lemma CoordsAtSound(s: string, i: nat)
    requires i <= |s| && CoordsAt(s, i).Some?
    ensures CoordsPattern(s, i, CoordsAt(s, i).value.0, CoordsAt(s, i).value.1, CoordsAt(s, i).value.2)
    ensures CoordsAt(s, i).value.2 == |s| || !IsDigit(s[CoordsAt(s, i).value.2])
  {
    var m := NumberAt(s, i).value;
    NumberAtSound(s, i);
    var q := SpacesEnd(s, m + 1);
    SpacesEndSkips(s, m + 1);
    NumberAtSound(s, q);
  }

  /** Wherever the pattern matches, CoordsAt finds a match. */
  lemma CoordsAtComplete(s: string, i: nat, m: nat, q: nat, r: nat)
    requires i <= |s| && CoordsPattern(s, i, m, q, r)
    ensures CoordsAt(s, i).Some?
  {
    var d1: nat :| DecimalWith(s, i, d1, m);
    NumberAtComplete(s, i, d1, m);
    var d2: nat :| DecimalWith(s, q, d2, r);
    DecimalStart(s, q, d2, r);
    SpacesEndAt(s, m + 1, q);
    NumberAtComplete(s, q, d2, r);
  }

  /** The first index at or after `from` whose entry is present, or `|a|` when none is. */
  function FirstSome<T>(a: seq<Option<T>>, from: nat): (k: nat)
    requires from <= |a|
    ensures from <= k <= |a|
    ensures k < |a| ==> a[k].Some?
    ensures forall j :: from <= j < k ==> a[j].None?
    decreases |a| - from
  {
    if from == |a| || a[from].Some? then from else FirstSome(a, from + 1)
  }

  /** The outcome of trying the pattern at every position of `s`, the end included. */
  function Attempts(s: string): (a: seq<Option<(nat, nat, nat)>>)
    ensures |a| == |s| + 1
    ensures forall j :: 0 <= j <= |s| ==> a[j] == CoordsAt(s, j)
  {
    seq(|s| + 1, j requires 0 <= j <= |s| => CoordsAt(s, j))
  }

  /** `re.search`: the match at the leftmost position where the pattern matches, as that
      position followed by what CoordsAt finds there. */
  function SearchCoords(s: string): (g: Option<(nat, nat, nat, nat)>)
    ensures g.Some? ==> g.value.0 <= |s| && Attempts(s)[g.value.0] == Some((g.value.1, g.value.2, g.value.3))
    ensures g.Some? ==> forall j :: 0 <= j < g.value.0 ==> Attempts(s)[j].None?
    ensures g.None? ==> forall j :: 0 <= j <= |s| ==> Attempts(s)[j].None?
  {
    var attempts := Attempts(s);
    var k := FirstSome(attempts, 0);
    if k == |attempts| then None
    else Some((k, attempts[k].value.0, attempts[k].value.1, attempts[k].value.2))
  }

  /** The match SearchCoords reports is a match of the pattern at the leftmost position
      where the pattern matches; when it reports none, the pattern matches nowhere. */
  lemma SearchCoordsMeaning(s: string)
    ensures SearchCoords(s).Some? ==>
      var g := SearchCoords(s).value;
      && CoordsPattern(s, g.0, g.1, g.2, g.3)
      && forall j: nat, m: nat, q: nat, r: nat :: j < g.0 ==> !CoordsPattern(s, j, m, q, r)
    ensures SearchCoords(s).None? ==> forall j: nat, m: nat, q: nat, r: nat :: j <= |s| ==> !CoordsPattern(s, j, m, q, r)
  {
    forall j: nat, m: nat, q: nat, r: nat | j <= |s| && CoordsPattern(s, j, m, q, r)
      ensures CoordsAt(s, j).Some?
    {
      CoordsAtComplete(s, j, m, q, r);
    }
    if SearchCoords(s).Some? {
      CoordsAtSound(s, SearchCoords(s).value.0);
    }
  }

  // ----- `float(...)` of a matched group -----

  function Pow10(n: nat): (p: nat)
    ensures p >= 1
  {
    if n == 0 then 1 else 10 * Pow10(n - 1)
  }

  /** The value of the ASCII digits `s[a..b]`. */
  function DigitsValue(s: string, a: nat, b: nat): (v: nat)
    requires DigitsIn(s, a, b)
    ensures v < Pow10(b - a)
    decreases b - a
  {
    if a == b then 0
    else
      var v0 := DigitsValue(s, a, b - 1);
      var digit := s[b - 1] as int - '0' as int;
      assert 0 <= digit <= 9;
      assert v0 * 10 + digit < Pow10(b - a) by {
        assert v0 + 1 <= Pow10(b - 1 - a);
        assert (v0 + 1) * 10 <= Pow10(b - 1 - a) * 10;
      }
      v0 * 10 + digit
  }

  /** The index of the first non-digit after the sign: the decimal point, when a decimal
      starts at `i`. */
  function PointOf(s: string, i: nat): (d: nat)
    requires i <= |s|
    ensures DigitsIn(s, DigitsStart(s, i), d)
  {
    DigitsEndSkips(s, DigitsStart(s, i));
    DigitsEnd(s, DigitsStart(s, i))
  }

  /** A decimal has one place for its point: the first non-digit after the sign. */
  lemma DecimalPoint(s: string, i: nat, d: nat, k: nat)
    requires DecimalWith(s, i, d, k)
    ensures PointOf(s, i) == d
  {
  }

  /** A whole string of the form `-?\d+\.\d+`. */
  ghost predicate IsDecimalText(t: string) {
    DecimalAt(t, 0, |t|)
  }

  /** A number as `float` reads it from its text, kept exact: a sign, the value of the
      integer digits, and the value and count of the fraction digits. Binary rounding is
      not modelled. */
  datatype Decimal = Decimal(negative: bool, whole: nat, fraction: nat, places: nat)

  /** The real number a decimal denotes. */
  ghost function RealValue(x: Decimal): real {
    var magnitude := x.whole as real + x.fraction as real / Pow10(x.places) as real;
    if x.negative then -magnitude else magnitude
  }

  /** The whole part of a decimal is its integer digits: its value lies within one of them,
      on the side of its sign. */
  lemma WholePart(x: Decimal)
    requires x.fraction < Pow10(x.places)
    ensures !x.negative ==> x.whole as real <= RealValue(x) < x.whole as real + 1.0
    ensures x.negative ==> -(x.whole as real) - 1.0 < RealValue(x) <= -(x.whole as real)
  {
    FractionBelowOne(x.fraction, Pow10(x.places));
  }

  /** `float(...)` of the number that `-?\d+\.\d+` matched in `s[i..k]`: the sign, the digits
      before the point, and the digits after it up to `k`. */
  function DecimalValue(s: string, i: nat, k: nat): (x: Decimal)
    requires i <= k <= |s|
    ensures x.negative <==> i < |s| && s[i] == '-'
    ensures x.whole == DigitsValue(s, DigitsStart(s, i), PointOf(s, i))
    ensures x.fraction < Pow10(x.places)
  {
    var d := PointOf(s, i);
    var whole := DigitsValue(s, DigitsStart(s, i), d);
    var negative := i < |s| && s[i] == '-';
    if d < k then
      var e := FractionEnd(s, d, k);
      Decimal(negative, whole, DigitsValue(s, d + 1, e), e - d - 1)
    else
      Decimal(negative, whole, 0, 0)
  }

  /** The end of the fraction digits after the point at `d`, within `s[..k]`. */
  function FractionEnd(s: string, d: nat, k: nat): (e: nat)
    requires d < k <= |s|
    ensures d + 1 <= e <= k && DigitsIn(s, d + 1, e)
  {
    var e := DigitsEnd(s, d + 1);
    DigitsEndSkips(s, d + 1);
    if e < k then e else k
  }

  lemma FractionBelowOne(f: nat, p: nat)
    requires f < p
    ensures 0.0 <= f as real / p as real < 1.0
  {
  }

  /** `str(text)`: a missing location prints as "None". */
  function LocationText(loc: Option<string>): string {
    if loc.Some? then loc.value else "None"
  }

  /** Lines 77-79, `get_coords`: the two numbers of the leftmost `lat,lon` pair in the text,
      or nothing (NaN, NaN) when the pattern matches nowhere. */
  function GetCoords(loc: Option<string>): (c: Option<(Decimal, Decimal)>)
    ensures c.None? <==> SearchCoords(LocationText(loc)).None?
  {
    var t := LocationText(loc);
    match SearchCoords(t)
    case None => None
    case Some((i, m, q, r)) => Some((DecimalValue(t, i, m), DecimalValue(t, q, r)))
  }

  /** A text without digits holds no coordinates. */
  lemma NoDigitNoCoords(s: string)
    requires forall x :: 0 <= x < |s| ==> !IsDigit(s[x])
    ensures SearchCoords(s).None?
  {
    forall j | 0 <= j <= |s|
      ensures CoordsAt(s, j).None?
    {
      assert PointOf(s, j) == DigitsStart(s, j);
    }
  }

  /** A row with no location has no coordinates: "None" holds no digit. */
  lemma NoLocationNoCoords()
    ensures GetCoords(None) == None
  {
    NoDigitNoCoords(LocationText(None));
  }

  /** Digits read the same wherever they are copied. */
  lemma {:induction false} DigitsValueShift(s: string, t: string, o: nat, a: nat, b: nat)
    requires DigitsIn(t, a, b) && o + b <= |s|
    requires forall x :: a <= x < b ==> s[o + x] == t[x]
    ensures DigitsIn(s, o + a, o + b) && DigitsValue(s, o + a, o + b) == DigitsValue(t, a, b)
    decreases b - a
  {
    forall x | o + a <= x < o + b
      ensures IsDigit(s[x])
    {
      assert s[o + (x - o)] == t[x - o];
    }
    if a < b {
      DigitsValueShift(s, t, o, a, b - 1);
    }
  }

  /** A decimal text copied into `s` at `o` is a decimal there, with its point moved along. */
  lemma DecimalAtShift(s: string, o: nat, k: nat, t: string)
    requires IsDecimalText(t) && k == o + |t| <= |s| && s[o..k] == t
    ensures DecimalAt(s, o, k)
    ensures PointOf(s, o) == o + PointOf(t, 0)
  {
    var d: nat :| DecimalWith(t, 0, d, |t|);
    var j := DigitsStart(t, 0);
    CopiedAt(s, o, k, t);
    assert DigitsStart(s, o) == o + j;
    DigitsValueShift(s, t, o, j, d);
    DigitsValueShift(s, t, o, d + 1, |t|);
    assert s[o + d] == t[d];
    assert DecimalWith(s, o, o + d, k);
    DecimalPoint(s, o, o + d, k);
    DecimalPoint(t, 0, d, |t|);
  }

  lemma CopiedAt(s: string, o: nat, k: nat, t: string)
    requires k == o + |t| <= |s| && s[o..k] == t
    ensures forall x :: 0 <= x < |t| ==> s[o + x] == t[x]
  {
    forall x | 0 <= x < |t|
      ensures s[o + x] == t[x]
    {
      assert s[o..k][x] == t[x];
    }
  }

  /** The value of a matched decimal, part by part. */
  lemma DecimalValueOf(s: string, i: nat, d: nat, k: nat)
    requires DecimalWith(s, i, d, k)
    ensures DecimalValue(s, i, k) == Decimal(s[i] == '-', DigitsValue(s, DigitsStart(s, i), d), DigitsValue(s, d + 1, k), k - d - 1)
  {
    DecimalPoint(s, i, d, k);
    assert FractionEnd(s, d, k) == k;
  }

  /** A decimal text copied into `s` at `o` has the same value there. */
  lemma DecimalValueShift(s: string, o: nat, k: nat, t: string)
    requires IsDecimalText(t) && k == o + |t| <= |s| && s[o..k] == t
    ensures DecimalValue(s, o, k) == DecimalValue(t, 0, |t|)
  {
    var d: nat :| DecimalWith(t, 0, d, |t|);
    CopiedAt(s, o, k, t);
    var j := DigitsStart(t, 0);
    assert DigitsStart(s, o) == o + j;
    DigitsValueShift(s, t, o, j, d);
    DigitsValueShift(s, t, o, d + 1, |t|);
    assert s[o + d] == t[d];
    assert DecimalWith(s, o, o + d, k);
    SameDecimal(s, o, k, t, d);
  }

  /** Two decimals with the same sign, digits and number of fraction places have the same value. */
  lemma SameDecimal(s: string, o: nat, k: nat, t: string, d: nat)
    requires DecimalWith(s, o, o + d, k) && DecimalWith(t, 0, d, |t|)
    requires s[o] == t[0] && k - o == |t|
    requires DigitsValue(s, DigitsStart(s, o), o + d) == DigitsValue(t, DigitsStart(t, 0), d)
    requires DigitsValue(s, o + d + 1, k) == DigitsValue(t, d + 1, |t|)
    ensures DecimalValue(s, o, k) == DecimalValue(t, 0, |t|)
  {
    DecimalValueOf(s, o, o + d, k);
    DecimalValueOf(t, 0, d, |t|);
  }

  /** No match can start before `i` when no digit comes before `i` and no minus sign
      right before it. */
  lemma NoCoordsBefore(s: string, i: nat)
    requires i <= |s|
    requires forall x :: 0 <= x < i ==> !IsDigit(s[x])
    requires i == 0 || s[i - 1] != '-'
    ensures forall j :: 0 <= j < i ==> CoordsAt(s, j).None?
  {
    forall j | 0 <= j < i
      ensures CoordsAt(s, j).None?
    {
      assert DigitsStart(s, j) < i;
      assert PointOf(s, j) == DigitsStart(s, j);
    }
  }

  /** Two decimals joined by a comma and whitespace, the second one not going on with a
      digit, are what CoordsAt finds at the start of the first. */
  lemma CoordsAtExact(s: string, i: nat, m: nat, q: nat, r: nat)
    requires i <= |s| && CoordsPattern(s, i, m, q, r)
    requires r == |s| || !IsDigit(s[r])
    ensures CoordsAt(s, i) == Some((m, q, r))
  {
    var d1: nat :| DecimalWith(s, i, d1, m);
    NumberAtComplete(s, i, d1, m);
    var d2: nat :| DecimalWith(s, q, d2, r);
    DecimalStart(s, q, d2, r);
    SpacesEndAt(s, m + 1, q);
    NumberAtComplete(s, q, d2, r);
    CoordsAtParts(s, i, m, q, r);
  }

  lemma CoordsAtParts(s: string, i: nat, m: nat, q: nat, r: nat)
    requires i <= |s| && NumberAt(s, i) == Some(m) && m < |s| && s[m] == ','
    requires SpacesEnd(s, m + 1) == q && NumberAt(s, q) == Some(r)
    ensures CoordsAt(s, i) == Some((m, q, r))
  {
  }

  /** The search reports the first position with a match. */
  lemma SearchFinds(s: string, i: nat, g: (nat, nat, nat))
    requires i <= |s| && CoordsAt(s, i) == Some(g)
    requires forall j :: 0 <= j < i ==> CoordsAt(s, j).None?
    ensures SearchCoords(s) == Some((i, g.0, g.1, g.2))
  {
    var a := Attempts(s);
    assert a[i] == Some(g);
    assert forall j :: 0 <= j < i ==> a[j].None?;
    FirstSomeAt(a, i);
  }

  lemma FirstSomeAt<T>(a: seq<Option<T>>, i: nat)
    requires i < |a| && a[i].Some? && forall j :: 0 <= j < i ==> a[j].None?
    ensures FirstSome(a, 0) == i
  {
  }

  /** GetCoords reads the two numbers of the match the search reports. */
  lemma GetCoordsOfSearch(t: string, i: nat, m: nat, q: nat, r: nat)
    requires SearchCoords(t) == Some((i, m, q, r))
    ensures GetCoords(Some(t)) == Some((DecimalValue(t, i, m), DecimalValue(t, q, r)))
  {
  }

  /** The search reports the first match when no digit comes before it and no minus sign
      right before it. */
  lemma SearchOfLayout(s: string, i: nat, m: nat, q: nat, r: nat)
    requires i <= |s| && CoordsPattern(s, i, m, q, r)
    requires r == |s| || !IsDigit(s[r])
    requires forall x :: 0 <= x < i ==> !IsDigit(s[x])
    requires i == 0 || s[i - 1] != '-'
    ensures SearchCoords(s) == Some((i, m, q, r))
  {
    NoCoordsBefore(s, i);
    CoordsAtExact(s, i, m, q, r);
    SearchFinds(s, i, (m, q, r));
  }

  /** GetCoords reads the first match when no digit comes before it and no minus sign
      right before it. */
  lemma CoordsOfPattern(s: string, i: nat, m: nat, q: nat, r: nat)
    requires i <= |s| && CoordsPattern(s, i, m, q, r)
    requires r == |s| || !IsDigit(s[r])
    requires forall x :: 0 <= x < i ==> !IsDigit(s[x])
    requires i == 0 || s[i - 1] != '-'
    ensures GetCoords(Some(s)) == Some((DecimalValue(s, i, m), DecimalValue(s, q, r)))
  {
    SearchOfLayout(s, i, m, q, r);
    GetCoordsOfSearch(s, i, m, q, r);
  }

  /** `s` is `pre`, `lat`, a comma, `sp`, `lon` and `post` in a row, `lat` spanning `i..m`
      and `lon` spanning `q..r`. */
  ghost predicate Layout(s: string, pre: string, lat: string, sp: string, lon: string, post: string,
                         i: nat, m: nat, q: nat, r: nat) {
    && i == |pre| && m == i + |lat| && q == m + 1 + |sp| && r == q + |lon| && |s| == r + |post|
    && s[..i] == pre && s[i..m] == lat && s[m] == ',' && s[m + 1..q] == sp && s[q..r] == lon && s[r..] == post
  }

  /** The pieces of a shared position text sit where they were put. */
  lemma PositionTextLayout(s: string, pre: string, lat: string, sp: string, lon: string, post: string,
                           i: nat, m: nat, q: nat, r: nat)
    requires s == pre + lat + "," + sp + lon + post
    requires i == |pre| && m == i + |lat| && q == m + 1 + |sp| && r == q + |lon|
    ensures Layout(s, pre, lat, sp, lon, post, i, m, q, r)
  {
  }

  /** A text laid out as `pre`, `lat`, a comma, `sp`, `lon`, `post` matches the coordinates
      pattern at the end of `pre`, with the two decimals as its groups, and nothing before
      it can start a match. */
  lemma LayoutPattern(s: string, pre: string, lat: string, sp: string, lon: string, post: string,
                      i: nat, m: nat, q: nat, r: nat)
    requires forall x :: 0 <= x < |pre| ==> !IsDigit(pre[x])
    requires pre == [] || pre[|pre| - 1] != '-'
    requires IsDecimalText(lat) && IsDecimalText(lon)
    requires forall x :: 0 <= x < |sp| ==> IsSpace(sp[x])
    requires post == [] || !IsDigit(post[0])
    requires Layout(s, pre, lat, sp, lon, post, i, m, q, r)
    ensures CoordsPattern(s, i, m, q, r)
    ensures r == |s| || !IsDigit(s[r])
    ensures forall x :: 0 <= x < i ==> !IsDigit(s[x])
    ensures i == 0 || s[i - 1] != '-'
  {
    assert forall x :: 0 <= x < i ==> s[x] == s[..i][x];
    assert forall x :: m + 1 <= x < q ==> s[x] == s[m + 1..q][x - m - 1];
    assert r < |s| ==> s[r] == s[r..][0];
    DecimalAtShift(s, i, m, lat);
    DecimalAtShift(s, q, r, lon);
  }

  /** The two decimals of such a text have the values of `lat` and `lon`. */
  lemma LayoutValues(s: string, pre: string, lat: string, sp: string, lon: string, post: string,
                     i: nat, m: nat, q: nat, r: nat)
    requires IsDecimalText(lat) && IsDecimalText(lon)
    requires Layout(s, pre, lat, sp, lon, post, i, m, q, r)
    ensures DecimalValue(s, i, m) == DecimalValue(lat, 0, |lat|)
    ensures DecimalValue(s, q, r) == DecimalValue(lon, 0, |lon|)
  {
    DecimalValueShift(s, i, m, lat);
    DecimalValueShift(s, q, r, lon);
  }

  /** Lines 77-79 on a shared position: the text `pre + lat + "," + sp + lon + post`, where
      `pre` holds no digit and does not end in a minus sign, `sp` is whitespace and `post`
      does not go on with a digit, yields exactly the two numbers it was written with. */
  lemma CoordsOfLocationText(pre: string, lat: string, sp: string, lon: string, post: string)
    requires forall x :: 0 <= x < |pre| ==> !IsDigit(pre[x])
    requires pre == [] || pre[|pre| - 1] != '-'
    requires IsDecimalText(lat) && IsDecimalText(lon)
    requires forall x :: 0 <= x < |sp| ==> IsSpace(sp[x])
    requires post == [] || !IsDigit(post[0])
    ensures GetCoords(Some(pre + lat + "," + sp + lon + post)) == Some((DecimalValue(lat, 0, |lat|), DecimalValue(lon, 0, |lon|)))
  {
    var s := pre + lat + "," + sp + lon + post;
    var i := |pre|;
    var m := i + |lat|;
    var q := m + 1 + |sp|;
    var r := q + |lon|;
    PositionTextLayout(s, pre, lat, sp, lon, post, i, m, q, r);
    LayoutPattern(s, pre, lat, sp, lon, post, i, m, q, r);
    CoordsOfPattern(s, i, m, q, r);
    LayoutValues(s, pre, lat, sp, lon, post, i, m, q, r);
  }

  /** A sighting: the emoji message and the coordinates of its location. */
  datatype Sighting = Sighting(msg: Message, lat: Decimal, lon: Decimal)

  /** A row with its `Latitude`/`Longitude` pair, absent when they are NaN. */
  type Tagged = (Row, Option<(Decimal, Decimal)>)

  /** Line 81: `df['Location'].apply(get_coords)`, one pair per row. */
  function WithCoords(rows: seq<Row>): (tagged: seq<Tagged>)
    ensures |tagged| == |rows|
    ensures forall i :: 0 <= i < |rows| ==> tagged[i] == (rows[i], GetCoords(rows[i].location))
  {
    seq(|rows|, i requires 0 <= i < |rows| => (rows[i], GetCoords(rows[i].location)))
  }

  /** Line 82: `dropna(subset=['Latitude', 'Longitude'])`: the rows that have both numbers,
      in their order, as sightings. */
  function DropNa(tagged: seq<Tagged>): (out: seq<Sighting>)
    ensures forall k :: 0 <= k < |out| ==> exists i :: 0 <= i < |tagged| && tagged[i].1 == Some((out[k].lat, out[k].lon)) && tagged[i].0.msg == out[k].msg
    ensures |out| <= |tagged|
  {
    if tagged == [] then []
    else
      var front := tagged[..|tagged| - 1];
      var last := tagged[|tagged| - 1];
      DropNa(front) + (if last.1.Some? then [Sighting(last.0.msg, last.1.value.0, last.1.value.1)] else [])
  }

  /** Every row that has both numbers survives `dropna`. */
  lemma {:induction false} DropNaComplete(tagged: seq<Tagged>, i: nat)
    requires i < |tagged| && tagged[i].1.Some?
    ensures Sighting(tagged[i].0.msg, tagged[i].1.value.0, tagged[i].1.value.1) in DropNa(tagged)
  {
    if i < |tagged| - 1 {
      DropNaComplete(tagged[..|tagged| - 1], i);
    }
  }

  /** Dropping rows keeps the order of the rest. */
  lemma {:induction false} DropNaAppend(a: seq<Tagged>, b: seq<Tagged>)
    ensures DropNa(a + b) == DropNa(a) + DropNa(b)
    decreases |b|
  {
    if b == [] {
      assert a + b == a;
    } else {
      var b0 := b[..|b| - 1];
      assert (a + b)[..|a + b| - 1] == a + b0;
      DropNaAppend(a, b0);
    }
  }

  /** Lines 81-82 together: the rows whose location holds coordinates, with them. */
  function Located(rows: seq<Row>): (out: seq<Sighting>)
    ensures forall k :: 0 <= k < |out| ==> exists i :: 0 <= i < |rows| && GetCoords(rows[i].location) == Some((out[k].lat, out[k].lon)) && rows[i].msg == out[k].msg
  {
    DropNa(WithCoords(rows))
  }

  /** Every row whose location holds coordinates gives a sighting. */
  lemma LocatedComplete(rows: seq<Row>, i: nat)
    requires i < |rows| && GetCoords(rows[i].location).Some?
    ensures Sighting(rows[i].msg, GetCoords(rows[i].location).value.0, GetCoords(rows[i].location).value.1) in Located(rows)
  {
    DropNaComplete(WithCoords(rows), i);
  }

  /** Every sighting comes from a row that was paired with a location message. */
  lemma SightingsHaveLocations(rows: seq<Row>, k: nat)
    requires k < |Located(rows)|
    ensures exists i :: 0 <= i < |rows| && rows[i].location.Some? && rows[i].msg == Located(rows)[k].msg
  {
    var i :| 0 <= i < |rows| && GetCoords(rows[i].location) == Some((Located(rows)[k].lat, Located(rows)[k].lon)) && rows[i].msg == Located(rows)[k].msg;
    if rows[i].location.None? {
      NoLocationNoCoords();
    }
  }

  /** Lines 67-82 together: the sightings of a chat's messages. */
  function Sightings(msgs: seq<Message>): seq<Sighting> {
    Located(FilterPoop(PairLocations(msgs)))
  }

  /** Message `i` reports sighting `sg`: it holds the emoji, the next message is a position
      shared by the same user, and `sg` is the message with that position's coordinates. */
  ghost predicate ReportedAt(msgs: seq<Message>, i: nat, sg: Sighting) {
    && i + 1 < |msgs|
    && msgs[i] == sg.msg
    && IsPoop(msgs[i].content)
    && msgs[i + 1].user == msgs[i].user
    && IsLocation(msgs[i + 1].content)
    && GetCoords(Some(msgs[i + 1].content)) == Some((sg.lat, sg.lon))
  }

  /** An emoji message followed by a position shared by the same user gives a sighting at
      the coordinates of that position. */
  lemma PoopThenPosition(msgs: seq<Message>, i: nat, sg: Sighting)
    requires ReportedAt(msgs, i, sg)
    ensures sg in Sightings(msgs)
  {
    var rows := PairLocations(msgs);
    var kept := FilterPoop(rows);
    assert rows[i] == Row(msgs[i], Some(msgs[i + 1].content));
    assert rows[i] in kept;
    var k :| 0 <= k < |kept| && kept[k] == rows[i];
    LocatedComplete(kept, k);
  }

  /** Row `i` carries a location whose coordinates are those of `sg`. */
  ghost predicate LocatedAt(rows: seq<Row>, i: nat, sg: Sighting) {
    && i < |rows|
    && rows[i].msg == sg.msg
    && rows[i].location.Some?
    && GetCoords(rows[i].location) == Some((sg.lat, sg.lon))
  }

  lemma LocatedOrigin(rows: seq<Row>, sg: Sighting)
    requires sg in Located(rows)
    ensures exists i :: LocatedAt(rows, i, sg)
  {
    var out := Located(rows);
    var k :| 0 <= k < |out| && out[k] == sg;
    var i :| 0 <= i < |rows| && GetCoords(rows[i].location) == Some((out[k].lat, out[k].lon)) && rows[i].msg == out[k].msg;
    NoLocationNoCoords();
    assert LocatedAt(rows, i, sg);
  }

  /** Row `r` is message `i` paired with the position shared right after it. */
  ghost predicate PairedAt(msgs: seq<Message>, i: nat, r: Row) {
    && i + 1 < |msgs|
    && msgs[i] == r.msg
    && msgs[i + 1].user == msgs[i].user
    && IsLocation(msgs[i + 1].content)
    && r.location == Some(msgs[i + 1].content)
  }

  lemma KeptOrigin(msgs: seq<Message>, r: Row)
    requires r in FilterPoop(PairLocations(msgs)) && r.location.Some?
    ensures IsPoop(r.msg.content)
    ensures exists i :: PairedAt(msgs, i, r)
  {
    var rows := PairLocations(msgs);
    var i :| 0 <= i < |rows| && rows[i] == r;
    assert PairedAt(msgs, i, r);
  }

  /** A kept row located at `sg`'s coordinates is the report of some message. */
  lemma KeptRowReports(msgs: seq<Message>, sg: Sighting, r: Row)
    requires r in FilterPoop(PairLocations(msgs))
    requires r.location.Some? && GetCoords(r.location) == Some((sg.lat, sg.lon)) && r.msg == sg.msg
    ensures exists i :: ReportedAt(msgs, i, sg)
  {
    KeptOrigin(msgs, r);
    var i :| PairedAt(msgs, i, r);
    assert ReportedAt(msgs, i, sg);
  }

  /** A kept row located at `sg`'s coordinates makes some message report `sg`. */
  lemma KeptRowsReport(msgs: seq<Message>, sg: Sighting)
    ensures (exists x: nat :: LocatedAt(FilterPoop(PairLocations(msgs)), x, sg)) ==> exists i :: ReportedAt(msgs, i, sg)
  {
    var kept := FilterPoop(PairLocations(msgs));
    if x: nat :| LocatedAt(kept, x, sg) {
      KeptRowReports(msgs, sg, kept[x]);
    }
  }

  /** Every sighting is reported by some message. */
  lemma SightingOrigin(msgs: seq<Message>, sg: Sighting)
    requires sg in Sightings(msgs)
    ensures exists i :: ReportedAt(msgs, i, sg)
  {
    LocatedOrigin(FilterPoop(PairLocations(msgs)), sg);
    KeptRowsReport(msgs, sg);
  }
}
