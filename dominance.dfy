/** The meaning of the dominance fold of main.py (repeated in risiko3.py): the events it
    has consumed after each minute of the timeline, the country tallies and user totals
    those events produce, and the facts the replayed timeline relies on. The loop itself
    is `Timeline.BuildTimeline`; these functions are what it is proved against. */
module Dominance {
  import opened Seqs
  import opened Tally
  import Geo

  /** One row of the sorted frame: its minute key (`'%Y-%m-%d %H:%M'`), user, country
      label and coordinates. */
  datatype Event = Event(minute: string, user: string, country: string, lat: real, lon: real)

  type Tallies = map<string, Contenders>

  /** The rows are in ascending order of their minute keys. */
  ghost predicate Sorted(es: seq<Event>) {
    forall i, j :: 0 <= i <= j < |es| ==> LexLe(es[i].minute, es[j].minute)
  }

  // ----- the timeline and its slices -----

  function Minutes(es: seq<Event>): (ms: seq<string>)
    ensures |ms| == |es|
    ensures forall i :: 0 <= i < |es| ==> ms[i] == es[i].minute
  {
    if es == [] then [] else Minutes(es[..|es| - 1]) + [es[|es| - 1].minute]
  }

  /** `timeline_dates`: the distinct minute keys, in order of first appearance. */
  function TimelineOf(es: seq<Event>): seq<string> {
    Unique(Minutes(es))
  }

  /** `current_slice`: the rows of minute `t`, in frame order. */
  function Slice(es: seq<Event>, t: string): (r: seq<Event>)
    ensures forall e | e in r :: e in es && e.minute == t
  {
    if es == [] then []
    else Slice(es[..|es| - 1], t) + (if es[|es| - 1].minute == t then [es[|es| - 1]] else [])
  }

  /** The rows consumed by the slices of the minutes `ts`, taken in that order. */
  ghost function Batches(es: seq<Event>, ts: seq<string>): seq<Event> {
    if ts == [] then [] else Batches(es, ts[..|ts| - 1]) + Slice(es, ts[|ts| - 1])
  }

  /** The rows consumed after the first `k` steps of the timeline. */
  ghost function Processed(es: seq<Event>, k: nat): seq<Event>
    requires k <= |TimelineOf(es)|
  {
    Batches(es, TimelineOf(es)[..k])
  }

  /** Step `k` of the timeline consumes the slice of the `k`-th minute. */
  lemma ProcessedStep(es: seq<Event>, k: nat)
    requires k < |TimelineOf(es)|
    ensures TimelineOf(es)[..k + 1] == TimelineOf(es)[..k] + [TimelineOf(es)[k]]
    ensures Processed(es, k + 1) == Processed(es, k) + Slice(es, TimelineOf(es)[k])
  {
    var tl := TimelineOf(es);
    assert tl[..k + 1][..k] == tl[..k];
  }

  // ----- counts -----

  /** `unique_users`, as a set. */
  function UserSet(es: seq<Event>): set<string> {
    set e | e in es :: e.user
  }

  ghost function UserCount(es: seq<Event>, u: string): nat {
    if es == [] then 0
    else UserCount(es[..|es| - 1], u) + (if es[|es| - 1].user == u then 1 else 0)
  }

  ghost function UserCountryCount(es: seq<Event>, u: string, c: string): nat {
    if es == [] then 0
    else UserCountryCount(es[..|es| - 1], u, c) + (if es[|es| - 1].user == u && es[|es| - 1].country == c then 1 else 0)
  }

  /** The users of the rows located in `c`, one per row, in row order. */
  ghost function CountryUsers(es: seq<Event>, c: string): seq<string> {
    if es == [] then []
    else CountryUsers(es[..|es| - 1], c) + (if es[|es| - 1].country == c then [es[|es| - 1].user] else [])
  }

  /** Rows of user `u` whose minute is one of `ts`. */
  ghost function UserCountIn(es: seq<Event>, u: string, ts: seq<string>): nat {
    if es == [] then 0
    else UserCountIn(es[..|es| - 1], u, ts) + (if es[|es| - 1].user == u && es[|es| - 1].minute in ts then 1 else 0)
  }

  /** Rows of user `u` whose minute key is at most `t`. */
  ghost function UserCountUpTo(es: seq<Event>, u: string, t: string): nat {
    if es == [] then 0
    else UserCountUpTo(es[..|es| - 1], u, t) + (if es[|es| - 1].user == u && LexLe(es[|es| - 1].minute, t) then 1 else 0)
  }

  /** `user_counts_accum` after consuming `es`: every user of `users`, zero counts included. */
  ghost function Totals(users: set<string>, es: seq<Event>): map<string, nat> {
    map u | u in users :: UserCount(es, u)
  }

  // ----- the country tallies -----

  /** Lines 47-49 of the fold: a row located somewhere other than "Unknown" gives its user one
      more point in that country, creating the country's tally on first use. */
  function Record(m: Tallies, e: Event): Tallies {
    if e.country == Geo.Unknown then m
    else m[e.country := Bump(if e.country in m then m[e.country] else [], e.user)]
  }

  /** `geo_dominance_accum` after consuming `es`. */
  ghost function TalliesOf(es: seq<Event>): Tallies {
    if es == [] then map[] else Record(TalliesOf(es[..|es| - 1]), es[|es| - 1])
  }

  /** The dominance snapshot of `es`: the tallied countries, each with its leader's colour. */
  ghost predicate IsDominanceSnapshot(snapshot: map<string, string>, es: seq<Event>, colour: string -> string) {
    && snapshot.Keys == TalliesOf(es).Keys
    && forall c | c in snapshot :: |TalliesOf(es)[c]| > 0 && snapshot[c] == colour(Leader(TalliesOf(es)[c]))
  }

  // ----- lemmas: counting -----

  /** One more row adds one to its own user's total and changes no other total. */
  lemma TotalsSnoc(users: set<string>, es: seq<Event>, e: Event)
    requires e.user in users
    ensures Totals(users, es + [e]) == Totals(users, es)[e.user := Totals(users, es)[e.user] + 1]
  {
    assert (es + [e])[..|es|] == es;
  }

  /** One more row is recorded on top of the tallies of the rows before it. */
  lemma TalliesSnoc(es: seq<Event>, e: Event)
    ensures TalliesOf(es + [e]) == Record(TalliesOf(es), e)
  {
    assert (es + [e])[..|es|] == es;
  }


  lemma {:induction false} UserCountAppend(a: seq<Event>, b: seq<Event>, u: string)
    ensures UserCount(a + b, u) == UserCount(a, u) + UserCount(b, u)
    decreases |b|
  {
    if b != [] {
      assert (a + b)[..|a + b| - 1] == a + b[..|b| - 1];
      UserCountAppend(a, b[..|b| - 1], u);
    } else {
      assert a + b == a;
    }
  }

  lemma {:induction false} UserCountryCountAppend(a: seq<Event>, b: seq<Event>, u: string, c: string)
    ensures UserCountryCount(a + b, u, c) == UserCountryCount(a, u, c) + UserCountryCount(b, u, c)
    decreases |b|
  {
    if b != [] {
      assert (a + b)[..|a + b| - 1] == a + b[..|b| - 1];
      UserCountryCountAppend(a, b[..|b| - 1], u, c);
    } else {
      assert a + b == a;
    }
  }

  lemma {:induction false} CountryUsersAppend(a: seq<Event>, b: seq<Event>, c: string)
    ensures CountryUsers(a + b, c) == CountryUsers(a, c) + CountryUsers(b, c)
    decreases |b|
  {
    if b != [] {
      assert (a + b)[..|a + b| - 1] == a + b[..|b| - 1];
      CountryUsersAppend(a, b[..|b| - 1], c);
    } else {
      assert a + b == a;
    }
  }

  /** A user has points in a country exactly when one of its rows is located there. */
  lemma {:induction false} CountryUsersHasUser(es: seq<Event>, u: string, c: string)
    ensures UserCountryCount(es, u, c) > 0 <==> u in CountryUsers(es, c)
  {
    if es != [] {
      CountryUsersHasUser(es[..|es| - 1], u, c);
    }
  }

  /** The mask keeps every row of the minute: none is dropped. */
  lemma {:induction false} SliceComplete(es: seq<Event>, t: string)
    ensures forall i | 0 <= i < |es| && es[i].minute == t :: es[i] in Slice(es, t)
  {
    if es != [] {
      var es0 := es[..|es| - 1];
      SliceComplete(es0, t);
      forall i | 0 <= i < |es| - 1 && es[i].minute == t
        ensures es[i] in Slice(es, t)
      {
        assert es0[i] == es[i];
      }
    }
  }

  /** The mask keeps frame order: the slice of a concatenation is the slice of the first
      part followed by the slice of the second. */
  lemma {:induction false} SliceAppend(a: seq<Event>, b: seq<Event>, t: string)
    ensures Slice(a + b, t) == Slice(a, t) + Slice(b, t)
    decreases |b|
  {
    if b != [] {
      var b0 := b[..|b| - 1];
      assert (a + b)[..|a + b| - 1] == a + b0;
      assert (a + b)[|a + b| - 1] == b[|b| - 1];
      SliceAppend(a, b0, t);
    } else {
      assert a + b == a;
    }
  }

  lemma {:induction false} SliceUserCount(es: seq<Event>, t: string, u: string)
    ensures UserCount(Slice(es, t), u) == UserCountIn(es, u, [t])
  {
    if es != [] {
      var es0 := es[..|es| - 1];
      var e := es[|es| - 1];
      SliceUserCount(es0, t, u);
      UserCountAppend(Slice(es0, t), if e.minute == t then [e] else [], u);
      if e.minute == t {
        assert UserCount([e], u) == UserCount([], u) + (if e.user == u then 1 else 0) by {
          assert [e][..0] == [];
        }
      }
    }
  }

  lemma {:induction false} UserCountInSnoc(es: seq<Event>, u: string, ts: seq<string>, t: string)
    requires t !in ts
    ensures UserCountIn(es, u, ts + [t]) == UserCountIn(es, u, ts) + UserCountIn(es, u, [t])
  {
    if es != [] {
      UserCountInSnoc(es[..|es| - 1], u, ts, t);
    }
  }

  /** Consuming the slices of distinct minutes counts each row of those minutes once. */
  lemma {:induction false} BatchesUserCount(es: seq<Event>, ts: seq<string>, u: string)
    requires Distinct(ts)
    ensures UserCount(Batches(es, ts), u) == UserCountIn(es, u, ts)
  {
    if ts == [] {
      UserCountInNone(es, u);
    } else {
      var ts0 := ts[..|ts| - 1];
      var t := ts[|ts| - 1];
      assert ts == ts0 + [t];
      BatchesUserCount(es, ts0, u);
      UserCountAppend(Batches(es, ts0), Slice(es, t), u);
      SliceUserCount(es, t, u);
      UserCountInSnoc(es, u, ts0, t);
    }
  }

  lemma {:induction false} UserCountInNone(es: seq<Event>, u: string)
    ensures UserCountIn(es, u, []) == 0
  {
    if es != [] {
      UserCountInNone(es[..|es| - 1], u);
    }
  }

  /** The slices of `ts1 + ts2` are those of `ts1` followed by those of `ts2`. */
  lemma {:induction false} BatchesAppend(es: seq<Event>, ts1: seq<string>, ts2: seq<string>)
    ensures Batches(es, ts1 + ts2) == Batches(es, ts1) + Batches(es, ts2)
    decreases |ts2|
  {
    if ts2 == [] {
      assert ts1 + ts2 == ts1;
    } else {
      var ts20 := ts2[..|ts2| - 1];
      var t := ts2[|ts2| - 1];
      var ts := ts1 + ts2;
      assert ts[..|ts| - 1] == ts1 + ts20 && ts[|ts| - 1] == t;
      calc {
        Batches(es, ts);
        Batches(es, ts1 + ts20) + Slice(es, t);
        { BatchesAppend(es, ts1, ts20); }
        (Batches(es, ts1) + Batches(es, ts20)) + Slice(es, t);
        Batches(es, ts1) + (Batches(es, ts20) + Slice(es, t));
        Batches(es, ts1) + Batches(es, ts2);
      }
    }
  }

  // ----- lemmas: the tallies -----

  /** What tallies `m` hold after consuming `es`: exactly the countries other than "Unknown"
      that some row is located in; for each, the users of its rows in order of their first
      row there, with their numbers of rows there. */
  ghost predicate Describes(m: Tallies, es: seq<Event>) {
    && KeysMatch(m, es)
    && (forall c | c in m :: TallyMatches(m[c], es, c))
  }

  ghost predicate KeysMatch(m: Tallies, es: seq<Event>) {
    forall c :: c in m <==> c != Geo.Unknown && CountryUsers(es, c) != []
  }

  ghost predicate TallyMatches(t: Contenders, es: seq<Event>, c: string) {
    && Valid(t) && |t| > 0 && Users(t) == Unique(CountryUsers(es, c))
    && forall u :: Get(t, u) == UserCountryCount(es, u, c)
  }

  lemma CountsSnoc(es: seq<Event>, e: Event)
    ensures forall c :: CountryUsers(es + [e], c) == CountryUsers(es, c) + (if e.country == c then [e.user] else [])
    ensures forall c, u ::
      UserCountryCount(es + [e], u, c) == UserCountryCount(es, u, c) + (if e.user == u && e.country == c then 1 else 0)
  {
    assert (es + [e])[..|es|] == es;
  }

  /** Bumping a country's tally for one more row of that country keeps it matching. */
  lemma BumpMatches(t0: Contenders, es: seq<Event>, e: Event)
    requires Valid(t0) && Users(t0) == Unique(CountryUsers(es, e.country))
    requires forall u :: Get(t0, u) == UserCountryCount(es, u, e.country)
    ensures TallyMatches(Bump(t0, e.user), es + [e], e.country)
  {
    BumpValid(t0, e.user);
    BumpUsers(t0, es, e);
    BumpCounts(t0, es, e);
  }

  lemma BumpUsers(t0: Contenders, es: seq<Event>, e: Event)
    requires Users(t0) == Unique(CountryUsers(es, e.country))
    ensures Users(Bump(t0, e.user)) == Unique(CountryUsers(es + [e], e.country))
    ensures |Bump(t0, e.user)| > 0
  {
    var cu0 := CountryUsers(es, e.country);
    var cu := CountryUsers(es + [e], e.country);
    assert cu == cu0 + [e.user] by {
      CountsSnoc(es, e);
    }
    assert cu[..|cu| - 1] == cu0;
    assert e.user in Users(Bump(t0, e.user));
  }

  lemma BumpCounts(t0: Contenders, es: seq<Event>, e: Event)
    requires forall u :: Get(t0, u) == UserCountryCount(es, u, e.country)
    ensures forall u :: Get(Bump(t0, e.user), u) == UserCountryCount(es + [e], u, e.country)
  {
    CountsSnoc(es, e);
  }

  /** The tally a country has before its next row: its entry, or a fresh empty dict. */
  lemma TallyBefore(m: Tallies, es: seq<Event>, c: string)
    requires Describes(m, es) && c != Geo.Unknown
    ensures var t0 := if c in m then m[c] else [];
      Valid(t0) && Users(t0) == Unique(CountryUsers(es, c)) &&
      forall u :: Get(t0, u) == UserCountryCount(es, u, c)
  {
    if c in m {
      assert TallyMatches(m[c], es, c);
    } else {
      assert CountryUsers(es, c) == [];
      forall u ensures UserCountryCount(es, u, c) == 0 {
        CountryUsersHasUser(es, u, c);
      }
    }
  }

  lemma RecordStepHere(m: Tallies, es: seq<Event>, e: Event)
    requires Describes(m, es) && e.country != Geo.Unknown
    ensures TallyMatches(Record(m, e)[e.country], es + [e], e.country)
  {
    TallyBefore(m, es, e.country);
    BumpMatches(if e.country in m then m[e.country] else [], es, e);
  }

  lemma RecordStepElsewhere(m: Tallies, es: seq<Event>, e: Event, c: string)
    requires Describes(m, es) && c in m && c != e.country
    ensures c in Record(m, e) && TallyMatches(Record(m, e)[c], es + [e], c)
  {
    CountsSnoc(es, e);
    assert Record(m, e)[c] == m[c];
    assert CountryUsers(es + [e], c) == CountryUsers(es, c);
    assert TallyMatches(m[c], es, c);
  }

  lemma RecordStepKeys(m: Tallies, es: seq<Event>, e: Event)
    requires KeysMatch(m, es)
    ensures KeysMatch(Record(m, e), es + [e])
  {
    CountsSnoc(es, e);
  }

  lemma RecordStep(m: Tallies, es: seq<Event>, e: Event)
    requires Describes(m, es)
    ensures Describes(Record(m, e), es + [e])
  {
    var m' := Record(m, e);
    RecordStepKeys(m, es, e);
    forall c | c in m'
      ensures TallyMatches(m'[c], es + [e], c)
    {
      if c == e.country {
        RecordStepHere(m, es, e);
      } else {
        RecordStepElsewhere(m, es, e, c);
      }
    }
  }

  lemma {:induction false} TalliesOfMeaning(es: seq<Event>)
    ensures Describes(TalliesOf(es), es)
  {
    if es != [] {
      var es0 := es[..|es| - 1];
      TalliesOfMeaning(es0);
      assert es == es0 + [es[|es| - 1]];
      RecordStep(TalliesOf(es0), es0, es[|es| - 1]);
    }
  }

  /** "Unknown" never becomes a key of the tallies, so no snapshot colours it. */
  lemma {:induction false} UnknownNeverTallied(es: seq<Event>)
    ensures Geo.Unknown !in TalliesOf(es)
  {
    TalliesOfMeaning(es);
  }

  /** Consuming more rows never removes a country, lowers a count or reorders the contenders:
      earlier contenders keep their places and newcomers are appended. */
  lemma TalliesGrow(a: seq<Event>, b: seq<Event>, c: string)
    requires c in TalliesOf(a)
    ensures c in TalliesOf(a + b)
    ensures forall u :: Get(TalliesOf(a)[c], u) <= Get(TalliesOf(a + b)[c], u)
    ensures |Users(TalliesOf(a)[c])| <= |Users(TalliesOf(a + b)[c])|
    ensures Users(TalliesOf(a + b)[c])[..|Users(TalliesOf(a)[c])|] == Users(TalliesOf(a)[c])
  {
    var ma, mab := TalliesOf(a), TalliesOf(a + b);
    TalliesOfMeaning(a);
    TalliesOfMeaning(a + b);
    CountryUsersAppend(a, b, c);
    assert KeysMatch(mab, a + b);
    assert c in mab;
    TallyGrows(ma[c], mab[c], a, b, c);
  }

  lemma TallyGrows(ta: Contenders, tab: Contenders, a: seq<Event>, b: seq<Event>, c: string)
    requires TallyMatches(ta, a, c) && TallyMatches(tab, a + b, c)
    ensures forall u :: Get(ta, u) <= Get(tab, u)
    ensures |Users(ta)| <= |Users(tab)| && Users(tab)[..|Users(ta)|] == Users(ta)
  {
    forall u ensures Get(ta, u) <= Get(tab, u) {
      UserCountryCountAppend(a, b, u, c);
    }
    CountryUsersAppend(a, b, c);
    UniqueExtends(CountryUsers(a, c), CountryUsers(b, c));
  }

  /** Every tally holds at least one contender, so `max` over it never sees an empty dict. */
  lemma TalliesNonEmpty(es: seq<Event>)
    ensures forall c | c in TalliesOf(es) :: |TalliesOf(es)[c]| > 0
  {
    TalliesOfMeaning(es);
    forall c | c in TalliesOf(es) ensures |TalliesOf(es)[c]| > 0 {
      assert TallyMatches(TalliesOf(es)[c], es, c);
    }
  }

  /** The leader of a country has at least as many rows there as anyone, and among users
      tied with it, its first row in that country came first. */
  lemma {:induction false} LeaderIsArgmax(es: seq<Event>, c: string)
    requires c in TalliesOf(es)
    ensures |TalliesOf(es)[c]| > 0
    ensures Leader(TalliesOf(es)[c]) in CountryUsers(es, c)
    ensures forall v :: UserCountryCount(es, v, c) <= UserCountryCount(es, Leader(TalliesOf(es)[c]), c)
    ensures forall v ::
      (v != Leader(TalliesOf(es)[c]) && UserCountryCount(es, v, c) == UserCountryCount(es, Leader(TalliesOf(es)[c]), c)) ==>
        v in CountryUsers(es, c) &&
        FirstIndex(CountryUsers(es, c), Leader(TalliesOf(es)[c])) < FirstIndex(CountryUsers(es, c), v)
  {
    TalliesOfMeaning(es);
    var t := TalliesOf(es)[c];
    var w := Leader(t);
    var cu := CountryUsers(es, c);
    LeaderIsFirstMaximum(t);
    forall v | v != w && UserCountryCount(es, v, c) == UserCountryCount(es, w, c)
      ensures v in cu && FirstIndex(cu, w) < FirstIndex(cu, v)
    {
      var us := Users(t);
      var i := FirstIndex(us, w);
      var j := FirstIndex(us, v);
      UniqueOrder(cu, i, j);
    }
  }

  // ----- lemmas: the timeline -----

  /** With the rows sorted, the timeline lists strictly increasing minute keys. */
  lemma {:induction false} TimelineAscending(es: seq<Event>)
    requires Sorted(es)
    ensures Distinct(TimelineOf(es))
    ensures forall i, j :: 0 <= i < j < |TimelineOf(es)| ==>
      LexLe(TimelineOf(es)[i], TimelineOf(es)[j]) && TimelineOf(es)[i] != TimelineOf(es)[j]
  {
    var ms := Minutes(es);
    var tl := TimelineOf(es);
    forall i, j | 0 <= i < j < |tl|
      ensures LexLe(tl[i], tl[j])
    {
      UniqueOrder(ms, i, j);
    }
  }

  /** With the rows sorted, a row's minute is among the first `k + 1` timeline entries
      exactly when its key is at most the `k`-th. */
  lemma InPrefixIffAtMost(es: seq<Event>, k: nat, m: string)
    requires Sorted(es) && k < |TimelineOf(es)| && m in Minutes(es)
    ensures m in TimelineOf(es)[..k + 1] <==> LexLe(m, TimelineOf(es)[k])
  {
    var tl := TimelineOf(es);
    TimelineAscending(es);
    var j := FirstIndex(tl, m);
    if j <= k {
      if j == k {
        LexLeReflexive(m);
      }
      assert tl[..k + 1][j] == m;
    } else if LexLe(m, tl[k]) {
      LexLeAntisymmetric(m, tl[k]);
    }
  }

  lemma {:induction false} CountsAgree(p: seq<Event>, u: string, ts: seq<string>, t: string)
    requires forall i :: 0 <= i < |p| ==> (p[i].minute in ts <==> LexLe(p[i].minute, t))
    ensures UserCountIn(p, u, ts) == UserCountUpTo(p, u, t)
  {
    if p != [] {
      CountsAgree(p[..|p| - 1], u, ts, t);
    }
  }

  /** The totals snapshot of step `k` gives every user the number of its rows whose minute
      key is at most the `k`-th timeline entry. */
  lemma TotalsArePrefixCounts(es: seq<Event>, k: nat, u: string)
    requires Sorted(es) && k < |TimelineOf(es)|
    ensures UserCount(Processed(es, k + 1), u) == UserCountUpTo(es, u, TimelineOf(es)[k])
  {
    var tl := TimelineOf(es);
    BatchesUserCount(es, tl[..k + 1], u);
    forall i | 0 <= i < |es|
      ensures es[i].minute in tl[..k + 1] <==> LexLe(es[i].minute, tl[k])
    {
      assert Minutes(es)[i] == es[i].minute;
      InPrefixIffAtMost(es, k, es[i].minute);
    }
    CountsAgree(es, u, tl[..k + 1], tl[k]);
  }

  /** Later snapshots never lose a country or a point: the tallies and totals after step `j`
      are bounded by those after any later step `k`. */
  lemma SnapshotsGrow(es: seq<Event>, j: nat, k: nat)
    requires j <= k <= |TimelineOf(es)|
    ensures forall c | c in TalliesOf(Processed(es, j)) :: c in TalliesOf(Processed(es, k))
    ensures forall c, u | c in TalliesOf(Processed(es, j)) ::
      Get(TalliesOf(Processed(es, j))[c], u) <= Get(TalliesOf(Processed(es, k))[c], u)
    ensures forall u :: UserCount(Processed(es, j), u) <= UserCount(Processed(es, k), u)
  {
    var tl := TimelineOf(es);
    assert tl[..k] == tl[..j] + tl[j..k];
    BatchesAppend(es, tl[..j], tl[j..k]);
    var rest := Batches(es, tl[j..k]);
    forall c | c in TalliesOf(Processed(es, j))
      ensures c in TalliesOf(Processed(es, k))
      ensures forall u :: Get(TalliesOf(Processed(es, j))[c], u) <= Get(TalliesOf(Processed(es, k))[c], u)
    {
      TalliesGrow(Processed(es, j), rest, c);
    }
    forall u ensures UserCount(Processed(es, j), u) <= UserCount(Processed(es, k), u) {
      UserCountAppend(Processed(es, j), rest, u);
    }
  }
}
