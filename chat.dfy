/** Reading the exported chat in risiko3.py (lines 63-64): every line of the form
    `[dd/mm/yy, hh:mm:ss] user: text` becomes a message. The pattern is applied with
    `re.findall` in MULTILINE mode, so `^` matches at the start of the text and after every
    newline, and `$` at the end of the text and before every newline. */
module Chat {
  import opened Seqs
  import opened Text

  /** The four groups of one match, before stripping. */
  datatype Groups = Groups(date: string, time: string, user: string, text: string)

  /** The outcome of trying the pattern at one index: no match, or the groups of the match
      and the index where it ends. */
  datatype Found = NoMatch | Match(groups: Groups, end: nat)

  /** A row of the frame built from the matches: user and text stripped. */
  datatype Message = Message(date: string, time: string, user: string, content: string)

  /** Where `^` matches in MULTILINE mode. */
  predicate LineStart(s: string, i: nat) {
    i == 0 || (0 < i <= |s| && s[i - 1] == '\n')
  }

  /** `\d{2}<sep>\d{2}<sep>\d{2}` as a string of its own. */
  predicate Shaped(t: string, sep: char) {
    |t| == 8 && ShapedAt(t, 0, sep)
  }

  /** `\d{2}<sep>\d{2}<sep>\d{2}` at index `k` of `s`. */
  predicate ShapedAt(s: string, k: nat, sep: char) {
    && k + 8 <= |s| && s[k + 2] == sep && s[k + 5] == sep
    && IsDigit(s[k]) && IsDigit(s[k + 1]) && IsDigit(s[k + 3]) && IsDigit(s[k + 4]) && IsDigit(s[k + 6]) && IsDigit(s[k + 7])
  }

  /** `\[(\d{2}/\d{2}/\d{2}),\s(\d{2}:\d{2}:\d{2})\]\s` at the start of `t`: 21 characters. */
  predicate Header(t: string) {
    && 21 <= |t| && t[0] == '[' && ShapedAt(t, 1, '/') && t[9] == ','
    && IsSpace(t[10]) && ShapedAt(t, 11, ':') && t[19] == ']' && IsSpace(t[20])
  }

  /** The pattern matches at `i` with groups `g` and ends at `e`: `^` holds at `i`, and the
      rest of the pattern matches the text from `i` on. */
  ghost predicate Matches(s: string, i: nat, g: Groups, e: nat) {
    LineStart(s, i) && i <= e && MatchesHere(s[i..], g, e - i)
  }

  /** The pattern after `^` matches at the start of `t` and ends at `n`: the header, then
      `([^:]+)` (the user, which may span lines), `:`, one whitespace character, and
      `(.*)$` (the text, up to the end of its line). */
  ghost predicate MatchesHere(t: string, g: Groups, n: nat) {
    HeadMatches(t, g) && UserMatches(t, g) && TextMatches(t, 23 + |g.user|, g.text, n)
  }

  /** `\[(date),\s(time)\]\s` at the start of `t`. */
  ghost predicate HeadMatches(t: string, g: Groups) {
    Header(t) && g.date == t[1..9] && g.time == t[11..19]
  }

  /** `([^:]+):\s` after the header. */
  ghost predicate UserMatches(t: string, g: Groups) {
    var p := 21 + |g.user|;
    && g.user != [] && p + 1 < |t| && g.user == t[21..p] && ':' !in g.user
    && t[p] == ':' && IsSpace(t[p + 1])
  }

  /** `(.*)$` from `from`, ending at `e`. */
  ghost predicate TextMatches(s: string, from: nat, text: string, e: nat) {
    && e == from + |text| && e <= |s| && text == s[from..e] && '\n' !in text
    && (e == |s| || s[e] == '\n')
  }

  /** The match of the pattern at `i`, if any, with the index where it ends. Only `^` looks
      at the text before `i`. */
  function MatchAt(s: string, i: nat): (m: Found)
    ensures m.Match? ==> i < m.end <= |s|
  {
    if !LineStart(s, i) then NoMatch
    else match MatchHere(s[i..])
      case NoMatch => NoMatch
      case Match(g, n) => Match(g, i + n)
  }

  /** The fixed-width part of the pattern, one character class per position: `d` is `\d`,
      `_` is `\s`, and every other character stands for itself. */
  const HeaderPattern: string := "[dd/dd/dd,_dd:dd:dd]_"

  predicate Fits(c: char, pc: char) {
    if pc == 'd' then IsDigit(c) else if pc == '_' then IsSpace(c) else c == pc
  }

  /** The match of the pattern after `^` at the start of `t`. */
  function MatchHere(t: string): (m: Found)
    ensures m.Match? ==> 0 < m.end <= |t|
  {
    MatchFrom(t, 0)
  }

  /** The engine checks the 21 header positions one by one from `k` on, then goes on after
      the header. */
  function MatchFrom(t: string, k: nat): (m: Found)
    requires k <= 21 && k <= |t|
    ensures m.Match? ==> 21 < m.end <= |t|
    decreases |t| - k
  {
    if k == 21 then AfterHeader(t)
    else if k < |t| && Fits(t[k], HeaderPattern[k]) then MatchFrom(t, k + 1)
    else NoMatch
  }

  /** After the header, the user runs to the first colon, which must be followed by
      whitespace, and the text to the end of its line. */
  function AfterHeader(t: string): (m: Found)
    requires 21 <= |t|
    ensures m.Match? ==> 21 < m.end <= |t|
  {
    var p := FindChar(t, ':', 21);
    if p == 21 || p + 1 >= |t| || !IsSpace(t[p + 1]) then NoMatch
    else
      var e := FindChar(t, '\n', p + 2);
      Match(Groups(t[1..9], t[11..19], t[21..p], t[p + 2..e]), e)
  }

  /** Stepping through the header positions is the same as checking the header at once. */
  lemma MatchHereHeader(t: string)
    ensures MatchHere(t) == if Header(t) then AfterHeader(t) else NoMatch
  {
    MatchFromRest(t, 0);
    if 21 <= |t| {
      HeaderFits(t);
    }
  }

  lemma {:induction false} MatchFromRest(t: string, k: nat)
    requires k <= 21 && k <= |t|
    ensures MatchFrom(t, k) ==
      if 21 <= |t| && forall m :: k <= m < 21 ==> Fits(t[m], HeaderPattern[m]) then AfterHeader(t) else NoMatch
    decreases |t| - k
  {
    if k < 21 && k < |t| && Fits(t[k], HeaderPattern[k]) {
      MatchFromRest(t, k + 1);
    }
  }

  lemma HeaderFits(t: string)
    requires 21 <= |t|
    ensures Header(t) <==> forall m :: 0 <= m < 21 ==> Fits(t[m], HeaderPattern[m])
  {
    var hp := HeaderPattern;
    assert hp[0] == '[' && hp[1] == 'd' && hp[2] == 'd' && hp[3] == '/' && hp[4] == 'd' && hp[5] == 'd' && hp[6] == '/';
    assert hp[7] == 'd' && hp[8] == 'd' && hp[9] == ',' && hp[10] == '_' && hp[11] == 'd' && hp[12] == 'd' && hp[13] == ':';
    assert hp[14] == 'd' && hp[15] == 'd' && hp[16] == ':' && hp[17] == 'd' && hp[18] == 'd' && hp[19] == ']' && hp[20] == '_';
  }

  /** MatchAt finds the match of the pattern at `i` exactly when there is one. The pattern
      admits at most one match at a given index: `[^:]+` must stop at the first colon and
      `.*` must run to the end of the line. */
  lemma MatchAtMeaning(s: string, i: nat)
    ensures forall g, e: nat :: Matches(s, i, g, e) <==> MatchAt(s, i) == Match(g, e)
  {
    MatchAtSound(s, i);
    forall g, e: nat | Matches(s, i, g, e) ensures MatchAt(s, i) == Match(g, e) {
      MatchAtComplete(s, i, g, e);
    }
  }

  lemma MatchAtSound(s: string, i: nat)
    ensures MatchAt(s, i).Match? ==> Matches(s, i, MatchAt(s, i).groups, MatchAt(s, i).end)
  {
    if LineStart(s, i) {
      MatchHereSound(s[i..]);
    }
  }

  lemma MatchAtComplete(s: string, i: nat, g: Groups, e: nat)
    requires Matches(s, i, g, e)
    ensures MatchAt(s, i) == Match(g, e)
  {
    MatchHereComplete(s[i..], g, e - i);
  }

  lemma MatchHereSound(t: string)
    ensures MatchHere(t).Match? ==> MatchesHere(t, MatchHere(t).groups, MatchHere(t).end)
  {
    MatchHereHeader(t);
    if Header(t) {
      var p := FindChar(t, ':', 21);
      if !(p == 21 || p + 1 >= |t| || !IsSpace(t[p + 1])) {
        OnlyMatch(t, p, FindChar(t, '\n', p + 2));
      }
    }
  }

  lemma MatchHereComplete(t: string, g: Groups, n: nat)
    requires MatchesHere(t, g, n)
    ensures MatchHere(t) == Match(g, n)
  {
    MatchHereHeader(t);
    var p := FindChar(t, ':', 21);
    if p == 21 || p + 1 >= |t| || !IsSpace(t[p + 1]) {
      NoMatchPastColon(t, p);
    } else {
      OnlyMatch(t, p, FindChar(t, '\n', p + 2));
    }
  }

  lemma NoMatchPastColon(t: string, p: nat)
    requires Header(t) && p == FindChar(t, ':', 21)
    requires p == 21 || p + 1 >= |t| || !IsSpace(t[p + 1])
    ensures forall g, n: nat :: !MatchesHere(t, g, n)
  {
    FindCharFirst(t, ':', 21);
    forall g, n: nat | MatchesHere(t, g, n) ensures false {
      FirstColon(t, g, n, p);
    }
  }

  lemma OnlyMatch(t: string, p: nat, e: nat)
    requires Header(t) && p == FindChar(t, ':', 21)
    requires p != 21 && p + 1 < |t| && IsSpace(t[p + 1])
    requires e == FindChar(t, '\n', p + 2)
    ensures MatchesHere(t, Groups(t[1..9], t[11..19], t[21..p], t[p + 2..e]), e)
    ensures forall g', n': nat :: MatchesHere(t, g', n') ==> g' == Groups(t[1..9], t[11..19], t[21..p], t[p + 2..e]) && n' == e
  {
    var g := Groups(t[1..9], t[11..19], t[21..p], t[p + 2..e]);
    FindCharFirst(t, ':', 21);
    FindCharFirst(t, '\n', p + 2);
    assert forall j :: 0 <= j < |g.user| ==> g.user[j] == t[21 + j];
    assert forall j :: 0 <= j < |g.text| ==> g.text[j] == t[p + 2 + j];
    forall g', n': nat | MatchesHere(t, g', n') ensures g' == g && n' == e {
      FirstColon(t, g', n', p);
      LineEndOf(t, p + 2, g'.text, n', e);
    }
  }

  /** In a match, the user group ends at the first colon after the header. */
  lemma FirstColon(t: string, g: Groups, n: nat, p: nat)
    requires MatchesHere(t, g, n)
    requires 21 <= p <= |t| && (p < |t| ==> t[p] == ':')
    requires forall j :: 21 <= j < p ==> t[j] != ':'
    ensures p == 21 + |g.user|
  {
  }

  /** The text group runs to the first newline. */
  lemma LineEndOf(s: string, from: nat, text: string, e: nat, k: nat)
    requires e == from + |text| && e <= |s| && text == s[from..e] && '\n' !in text
    requires e == |s| || s[e] == '\n'
    requires from <= k <= |s| && (k < |s| ==> s[k] == '\n')
    requires forall j :: from <= j < k ==> s[j] != '\n'
    ensures k == e
  {
  }

  /** `re.findall(pattern, s, re.MULTILINE)` from index `pos`: try each index in turn; after
      a match, resume where it ended. */
  function FindAll(s: string, pos: nat): (gs: seq<Groups>)
    ensures pos >= |s| ==> gs == []
    decreases |s| - pos
  {
    if pos >= |s| then []
    else match MatchAt(s, pos)
      case Match(g, e) => [g] + FindAll(s, e)
      case NoMatch => FindAll(s, pos + 1)
  }

  /** Every match has a `dd/dd/dd` date, a `dd:dd:dd` time, a non-empty user without a colon
      and a text without a line break: the groups the export format can write. */
  lemma {:induction false} FindAllWellFormed(s: string, pos: nat)
    ensures forall g | g in FindAll(s, pos) :: WellFormed(g)
    decreases |s| - pos
  {
    if pos < |s| {
      var m := MatchAt(s, pos);
      if m.Match? {
        MatchAtSound(s, pos);
        FindAllWellFormed(s, m.end);
        FindAllStep(s, pos, m.groups, m.end);
      } else {
        FindAllWellFormed(s, pos + 1);
      }
    }
  }

  /** Line 64: the frame's rows, user and text stripped. */
  function ParseChat(chat: string): (msgs: seq<Message>)
    ensures |msgs| == |FindAll(chat, 0)|
    ensures forall k :: 0 <= k < |msgs| ==>
      && msgs[k].date == FindAll(chat, 0)[k].date && msgs[k].time == FindAll(chat, 0)[k].time
      && Trimmed(FindAll(chat, 0)[k].user, msgs[k].user) && Trimmed(FindAll(chat, 0)[k].text, msgs[k].content)
  {
    var gs := FindAll(chat, 0);
    var msgs := seq(|gs|, k requires 0 <= k < |gs| => Message(gs[k].date, gs[k].time, Strip(gs[k].user), Strip(gs[k].text)));
    assert forall k :: 0 <= k < |msgs| ==> Trimmed(gs[k].user, msgs[k].user) && Trimmed(gs[k].text, msgs[k].content) by {
      forall k | 0 <= k < |msgs| ensures Trimmed(gs[k].user, msgs[k].user) && Trimmed(gs[k].text, msgs[k].content) {
        StripTrims(gs[k].user);
        StripTrims(gs[k].text);
      }
    }
    msgs
  }

  lemma StripTrims(s: string)
    ensures Trimmed(s, Strip(s))
  {
  }

  /** `r` is `s` with its surrounding whitespace removed. */
  ghost predicate Trimmed(s: string, r: string) {
    (exists a: nat :: Trims(s, r, a)) && (r == [] || (!IsSpace(r[0]) && !IsSpace(r[|r| - 1])))
  }

  // ----- the inverse: writing lines in the export format -----

  /** A line as the export writes it: `[date, time] user: text`. */
  function FormatLine(g: Groups): string {
    HeaderText(g.date, g.time) + g.user + ": " + g.text
  }

  function HeaderText(date: string, time: string): string {
    "[" + date + ", " + time + "] "
  }

  /** Groups the export can write and the pattern can read back. */
  predicate WellFormed(g: Groups) {
    Shaped(g.date, '/') && Shaped(g.time, ':') && g.user != [] && ':' !in g.user && '\n' !in g.text
  }

  /** Lines joined by newlines. */
  function JoinLines(gs: seq<Groups>): string {
    if gs == [] then []
    else if |gs| == 1 then FormatLine(gs[0])
    else FormatLine(gs[0]) + "\n" + JoinLines(gs[1..])
  }

  /** Matching does not look back past the start of the line, so text before a line
      boundary does not change what matches after it. */
  lemma MatchAtShift(p: string, q: string, j: nat)
    requires p == [] || p[|p| - 1] == '\n'
    ensures MatchAt(q, j).NoMatch? ==> MatchAt(p + q, |p| + j).NoMatch?
    ensures MatchAt(q, j).Match? ==>
      MatchAt(p + q, |p| + j) == Match(MatchAt(q, j).groups, |p| + MatchAt(q, j).end)
  {
    var s := p + q;
    if j <= |q| {
      assert s[|p| + j..] == q[j..];
      if j > 0 {
        assert s[|p| + j - 1] == q[j - 1];
      } else if p != [] {
        assert s[|p| - 1] == p[|p| - 1];
      }
    }
  }

  /** Scanning after a line boundary finds the same matches as scanning the text after it. */
  lemma FindAllShift(p: string, q: string, j: nat)
    requires p == [] || p[|p| - 1] == '\n'
    ensures FindAll(p + q, |p| + j) == FindAll(q, j)
  {
    if j <= |q| {
      var s := p + q;
      assert s[|p| + j..] == q[j..];
      if j > 0 {
        assert s[|p| + j - 1] == q[j - 1];
      } else if p != [] {
        assert s[|p| - 1] == p[|p| - 1];
      }
      FindAllSuffix(s, |p| + j, q, j);
    }
  }

  /** The scan from an index depends only on the text from there on and on whether `^`
      holds there. */
  lemma {:induction false} FindAllSuffix(s: string, i: nat, t: string, j: nat)
    requires i <= |s| && j <= |t| && s[i..] == t[j..] && (LineStart(s, i) <==> LineStart(t, j))
    ensures FindAll(s, i) == FindAll(t, j)
    decreases |t| - j
  {
    if j < |t| {
      var n, found := FindAllSuffixStep(s, i, t, j);
      FindAllSuffix(s, i + n, t, j + n);
    }
  }

  /** One step of two scans over the same remaining text: both report the same groups and
      move on by the same amount. */
  lemma FindAllSuffixStep(s: string, i: nat, t: string, j: nat) returns (n: nat, found: seq<Groups>)
    requires i <= |s| && j < |t| && s[i..] == t[j..] && (LineStart(s, i) <==> LineStart(t, j))
    ensures 0 < n <= |t| - j && s[i + n..] == t[j + n..] && (LineStart(s, i + n) <==> LineStart(t, j + n))
    ensures FindAll(t, j) == found + FindAll(t, j + n)
    ensures FindAll(s, i) == found + FindAll(s, i + n)
  {
    assert |s| - i == |t| - j;
    var m := MatchAt(t, j);
    if m.Match? {
      n, found := m.end - j, [m.groups];
      assert MatchAt(s, i) == Match(m.groups, i + n);
      FindAllStep(t, j, m.groups, m.end);
      FindAllStep(s, i, m.groups, i + n);
    } else {
      n, found := 1, [];
      FindAllNoMatch(t, j);
      FindAllNoMatch(s, i);
    }
    SuffixAdvance(s, i, t, j, n);
  }

  lemma SuffixAdvance(s: string, i: nat, t: string, j: nat, n: nat)
    requires i <= |s| && j <= |t| && s[i..] == t[j..] && 0 < n <= |t| - j
    ensures s[i + n..] == t[j + n..] && (LineStart(s, i + n) <==> LineStart(t, j + n))
  {
    assert s[i + n..] == s[i..][n..];
    assert t[j + n..] == t[j..][n..];
    assert s[i + n - 1] == s[i..][n - 1];
    assert t[j + n - 1] == t[j..][n - 1];
  }

  lemma Infix(a: string, b: string, c: string)
    ensures (a + b + c)[|a|..|a| + |b|] == b
  {
  }

  lemma PrefixSlice(a: string, b: string, x: nat, y: nat)
    requires x <= y <= |a|
    ensures (a + b)[x..y] == a[x..y]
  {
  }

  lemma FormattedHead(g: Groups, rest: string)
    requires WellFormed(g)
    ensures HeadMatches(FormatLine(g) + rest, g)
  {
    var h := HeaderText(g.date, g.time);
    var s := FormatLine(g) + rest;
    assert s == h + (g.user + ": " + g.text + rest);
    HeaderTextShape(g.date, g.time);
    PrefixSlice(h, g.user + ": " + g.text + rest, 1, 9);
    PrefixSlice(h, g.user + ": " + g.text + rest, 11, 19);
    PrefixSlice(h, g.user + ": " + g.text + rest, 1, 9);
  }

  lemma HeaderTextShape(date: string, time: string)
    requires |date| == 8 && |time| == 8
    ensures var h := HeaderText(date, time);
      && |h| == 21 && h[0] == '[' && h[9] == ',' && h[10] == ' ' && h[19] == ']' && h[20] == ' '
      && h[1..9] == date && h[11..19] == time
  {
    var h := HeaderText(date, time);
    Infix("[", date, ", " + time + "] ");
    assert h == "[" + date + (", " + time + "] ");
    Infix("[" + date + ", ", time, "] ");
  }

  lemma FormattedUser(g: Groups, rest: string)
    requires WellFormed(g)
    ensures UserMatches(FormatLine(g) + rest, g)
  {
    var h := HeaderText(g.date, g.time);
    var s := FormatLine(g) + rest;
    HeaderTextShape(g.date, g.time);
    assert s == h + g.user + (": " + g.text + rest);
    Infix(h, g.user, ": " + g.text + rest);
    var p := 21 + |g.user|;
    assert s == (h + g.user) + ": " + (g.text + rest);
    assert s[p] == ':' && s[p + 1] == ' ';
  }

  lemma FormattedText(g: Groups, rest: string)
    requires WellFormed(g) && (rest == [] || rest[0] == '\n')
    ensures TextMatches(FormatLine(g) + rest, 23 + |g.user|, g.text, |FormatLine(g)|)
  {
    var h := HeaderText(g.date, g.time);
    var s := FormatLine(g) + rest;
    HeaderTextShape(g.date, g.time);
    var front := h + g.user + ": ";
    assert s == front + g.text + rest;
    Infix(front, g.text, rest);
    assert rest != [] ==> s[|FormatLine(g)|] == rest[0];
  }

  /** A well-formed line followed by a line break (or by nothing) reads back as itself. */
  lemma MatchFormatted(g: Groups, rest: string)
    requires WellFormed(g) && (rest == [] || rest[0] == '\n')
    ensures MatchAt(FormatLine(g) + rest, 0) == Match(g, |FormatLine(g)|)
  {
    FormattedHead(g, rest);
    FormattedUser(g, rest);
    FormattedText(g, rest);
    var s := FormatLine(g) + rest;
    assert s[0..] == s;
    MatchAtComplete(s, 0, g, |FormatLine(g)|);
  }

  /** The last character of a formatted line is never a line break. */
  lemma FormattedLineEnd(g: Groups)
    requires WellFormed(g)
    ensures |FormatLine(g)| > 0 && FormatLine(g)[|FormatLine(g)| - 1] != '\n'
  {
    var line := FormatLine(g);
    var head := HeaderText(g.date, g.time) + g.user + ": ";
    assert line == head + g.text;
    if g.text != [] {
      assert line[|line| - 1] == g.text[|g.text| - 1];
    }
  }

  lemma FindAllStep(s: string, pos: nat, g: Groups, e: nat)
    requires pos < |s| && MatchAt(s, pos) == Match(g, e)
    ensures FindAll(s, pos) == [g] + FindAll(s, e)
  {
  }

  lemma FindAllNoMatch(s: string, pos: nat)
    requires pos < |s| && MatchAt(s, pos).NoMatch?
    ensures FindAll(s, pos) == FindAll(s, pos + 1)
  {
  }

  lemma FindAllSkip(s: string, pos: nat)
    requires pos < |s| && !LineStart(s, pos)
    ensures FindAll(s, pos) == FindAll(s, pos + 1)
  {
  }

  /** After a match that ends at a line break, scanning resumes at the next line. */
  lemma ResumeAfter(s: string, n: nat, g: Groups, rest: string)
    requires 0 < n < |s| && s[n - 1] != '\n' && s[n] == '\n' && s[n + 1..] == rest
    requires MatchAt(s, 0) == Match(g, n)
    ensures FindAll(s, 0) == [g] + FindAll(rest, 0)
  {
    FindAllStep(s, 0, g, n);
    FindAllSkip(s, n);
    assert rest[0..] == rest;
    FindAllSuffix(s, n + 1, rest, 0);
  }

  lemma FindAllAfterLine(g: Groups, rest: string)
    requires WellFormed(g)
    ensures FindAll(FormatLine(g) + "\n" + rest, 0) == [g] + FindAll(rest, 0)
  {
    var line := FormatLine(g);
    var s := line + "\n" + rest;
    MatchFormatted(g, "\n" + rest);
    FormattedLineEnd(g);
    assert s == line + ("\n" + rest);
    assert s[|line| - 1] == line[|line| - 1];
    assert s[|line| + 1..] == rest;
    ResumeAfter(s, |line|, g, rest);
  }

  /** Reading lines written in the export format gives back exactly those lines. */
  lemma {:induction false} ParseJoin(gs: seq<Groups>)
    requires forall k :: 0 <= k < |gs| ==> WellFormed(gs[k])
    ensures FindAll(JoinLines(gs), 0) == gs
  {
    if |gs| == 1 {
      MatchFormatted(gs[0], []);
      assert FormatLine(gs[0]) + [] == FormatLine(gs[0]);
    } else if |gs| > 1 {
      FindAllAfterLine(gs[0], JoinLines(gs[1..]));
      ParseJoin(gs[1..]);
      assert gs == [gs[0]] + gs[1..];
    }
  }
}
