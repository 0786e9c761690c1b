/** The timeline loop of main.py (lines 29-73; risiko3.py lines 128-175 are the same loop):
    for each minute of the sorted frame, consume that minute's rows into the running totals
    and country tallies, then store the colour of each country's leader, a copy of the
    totals and the minute's markers under that minute's key. */
module Timeline {
  import opened Seqs
  import opened Tally
  import opened Dominance
  import opened Config
  import Geo

  /** One entry of `features_slice` (the HTML popup is not modelled). */
  datatype Marker = Marker(lat: real, lon: real, user: string, hexColour: string, safeClass: string)

  /** The marker of one row: its position, its user, the user's marker colour and the user's
      name made safe for a CSS class. */
  function MarkerOf(e: Event): (m: Marker)
    ensures m.lat == e.lat && m.lon == e.lon && m.user == e.user
    ensures m.hexColour in PastelHexMap.Values
    ensures e.user in UserConfig ==> m.hexColour == PastelHexMap[UserConfig[e.user]]
    ensures |m.safeClass| == |e.user|
    ensures forall c | c in m.safeClass :: IsAsciiAlnum(c) || c == '_'
    ensures m.hexColour == MarkerColour(e.user) && m.safeClass == SanitizeClassName(e.user)
  {
    SanitizedAlphabet(e.user);
    Marker(e.lat, e.lon, e.user, MarkerColour(e.user), SanitizeClassName(e.user))
  }

  /** Lines 47-49 for one row: unless its country is "Unknown", create the country's dict
      when it is missing and add one to the row's user there. */
  method RecordRow(acc0: Tallies, e: Event) returns (acc: Tallies)
    ensures acc == Record(acc0, e)
  {
    acc := acc0;
    var u, c := e.user, e.country;
    if c != Geo.Unknown {
      if c !in acc {
        acc := acc[c := []];
      }
      acc := acc[c := Bump(acc[c], u)];
    }
  }

  /** Lines 42-49: each row of the slice adds one to its user's total and, unless its
      country is "Unknown", one to its user's tally in that country. Starting from the
      state after `done`, the result is the state after `done + slice`. */
  method TallySlice(ghost done: seq<Event>, users: set<string>, acc0: Tallies, counts0: map<string, nat>, slice: seq<Event>)
    returns (acc: Tallies, counts: map<string, nat>)
    requires acc0 == TalliesOf(done) && counts0 == Totals(users, done)
    requires forall e | e in slice :: e.user in users
    ensures acc == TalliesOf(done + slice)
    ensures counts == Totals(users, done + slice)
  {
    acc, counts := acc0, counts0;
    assert done + slice[..0] == done;
    for i := 0 to |slice|
      invariant acc == TalliesOf(done + slice[..i])
      invariant counts == Totals(users, done + slice[..i])
    {
      ghost var before := done + slice[..i];
      var e := slice[i];
      AppendPrefixSnoc(done, slice, i);
      assert e in slice;
      TotalsSnoc(users, before, e);
      TalliesSnoc(before, e);
      counts := counts[e.user := counts[e.user] + 1];
      acc := RecordRow(acc, e);
    }
    assert slice[..|slice|] == slice;
  }

  /** Lines 52-56: every tallied country gets the colour of the user `max` picks there. */
  method ColourCountries(acc: Tallies) returns (colours: map<string, string>)
    requires forall c | c in acc :: |acc[c]| > 0
    ensures colours.Keys == acc.Keys
    ensures forall c | c in colours :: colours[c] == WinnerColour(Leader(acc[c]))
  {
    colours := map[];
    var rest := acc.Keys;
    while rest != {}
      invariant rest <= acc.Keys
      invariant colours.Keys == acc.Keys - rest
      invariant forall c | c in colours :: colours[c] == WinnerColour(Leader(acc[c]))
      decreases rest
    {
      var country :| country in rest;
      var contenders := acc[country];
      var winner := contenders[Winner(contenders)].user;
      colours := colours[country := WinnerColour(winner)];
      rest := rest - {country};
    }
  }

  /** Lines 62-72: one marker per row of the slice, in row order. */
  method MarkersOf(slice: seq<Event>) returns (features: seq<Marker>)
    ensures |features| == |slice|
    ensures forall i :: 0 <= i < |slice| ==> features[i] == MarkerOf(slice[i])
  {
    features := [];
    for i := 0 to |slice|
      invariant |features| == i
      invariant forall j :: 0 <= j < i ==> features[j] == MarkerOf(slice[j])
    {
      features := features + [MarkerOf(slice[i])];
    }
  }

  /** After `k` steps, the first `k` minutes of the timeline are stored with the dominance
      colours and the totals of the rows consumed by then. */
  ghost predicate SnapshotsStored(events: seq<Event>, timeline: seq<string>, users: set<string>,
                                  dom: map<string, map<string, string>>, tot: map<string, map<string, nat>>, k: nat)
    requires timeline == TimelineOf(events) && k <= |timeline|
  {
    forall j :: 0 <= j < k ==> StoredAt(events, timeline, users, dom, tot, j)
  }

  /** The `j`-th minute is stored with the colours and the totals after its slice. */
  ghost predicate StoredAt(events: seq<Event>, timeline: seq<string>, users: set<string>,
                           dom: map<string, map<string, string>>, tot: map<string, map<string, nat>>, j: nat)
    requires timeline == TimelineOf(events) && j < |timeline|
  {
    && timeline[j] in dom && timeline[j] in tot
    && IsDominanceSnapshot(dom[timeline[j]], Processed(events, j + 1), WinnerColour)
    && tot[timeline[j]] == Totals(users, Processed(events, j + 1))
  }

  /** Every stored minute holds one marker per row of that minute, in row order. */
  ghost predicate MarkersStored(events: seq<Event>, data: map<string, seq<Marker>>) {
    forall t | t in data ::
      |data[t]| == |Slice(events, t)| &&
      forall i :: 0 <= i < |Slice(events, t)| ==> data[t][i] == MarkerOf(Slice(events, t)[i])
  }

  lemma SnapshotsStore(events: seq<Event>, timeline: seq<string>, users: set<string>,
                       dom: map<string, map<string, string>>, tot: map<string, map<string, nat>>, k: nat,
                       colours: map<string, string>, counts: map<string, nat>)
    requires timeline == TimelineOf(events) && k < |timeline|
    requires SnapshotsStored(events, timeline, users, dom, tot, k)
    requires IsDominanceSnapshot(colours, Processed(events, k + 1), WinnerColour)
    requires counts == Totals(users, Processed(events, k + 1))
    ensures SnapshotsStored(events, timeline, users, dom[timeline[k] := colours], tot[timeline[k] := counts], k + 1)
  {
    var t := timeline[k];
    var dom', tot' := dom[t := colours], tot[t := counts];
    forall j | 0 <= j < k + 1
      ensures StoredAt(events, timeline, users, dom', tot', j)
    {
      if j < k {
        assert timeline[j] != t by {
          assert Distinct(timeline);
        }
        StoredAtKept(events, timeline, users, dom, tot, j, t, colours, counts);
      }
    }
  }

  /** Storing under another minute leaves the `j`-th minute's entries as they were. */
  lemma StoredAtKept(events: seq<Event>, timeline: seq<string>, users: set<string>,
                     dom: map<string, map<string, string>>, tot: map<string, map<string, nat>>, j: nat,
                     t: string, colours: map<string, string>, counts: map<string, nat>)
    requires timeline == TimelineOf(events) && j < |timeline| && timeline[j] != t
    requires StoredAt(events, timeline, users, dom, tot, j)
    ensures StoredAt(events, timeline, users, dom[t := colours], tot[t := counts], j)
  {
    assert dom[t := colours][timeline[j]] == dom[timeline[j]];
    assert tot[t := counts][timeline[j]] == tot[timeline[j]];
  }

  lemma SnapshotsStoredAll(events: seq<Event>, timeline: seq<string>, users: set<string>,
                           dom: map<string, map<string, string>>, tot: map<string, map<string, nat>>)
    requires timeline == TimelineOf(events)
    requires SnapshotsStored(events, timeline, users, dom, tot, |timeline|)
    ensures forall k :: 0 <= k < |timeline| ==>
      timeline[k] in dom && IsDominanceSnapshot(dom[timeline[k]], Processed(events, k + 1), WinnerColour)
    ensures forall k :: 0 <= k < |timeline| ==>
      timeline[k] in tot && tot[timeline[k]] == Totals(users, Processed(events, k + 1))
  {
    forall k | 0 <= k < |timeline|
      ensures timeline[k] in dom && IsDominanceSnapshot(dom[timeline[k]], Processed(events, k + 1), WinnerColour)
      ensures timeline[k] in tot && tot[timeline[k]] == Totals(users, Processed(events, k + 1))
    {
      assert StoredAt(events, timeline, users, dom, tot, k);
    }
  }

  /** The colours ColourCountries picks for the tallies of `es` are the dominance snapshot
      of `es`. */
  lemma ColoursAreSnapshot(es: seq<Event>, acc: Tallies, colours: map<string, string>)
    requires acc == TalliesOf(es)
    requires forall c | c in acc :: |acc[c]| > 0
    requires colours.Keys == acc.Keys
    requires forall c | c in colours :: colours[c] == WinnerColour(Leader(acc[c]))
    ensures IsDominanceSnapshot(colours, es, WinnerColour)
  {
  }

  /** The keys of `m` are exactly the minutes of `ts`. */
  ghost predicate KeyedBy<V>(m: map<string, V>, ts: seq<string>) {
    forall t :: t in m <==> t in ts
  }

  lemma KeyedByAll<V>(m: map<string, V>, ts: seq<string>)
    requires KeyedBy(m, ts[..|ts|])
    ensures forall t :: t in m <==> t in ts
  {
    assert ts[..|ts|] == ts;
  }

  /** Before the first minute nothing is consumed: no country is tallied and every user's
      total is zero. */
  lemma NothingProcessed(events: seq<Event>, users: set<string>)
    ensures TalliesOf(Processed(events, 0)) == map[]
    ensures Totals(users, Processed(events, 0)) == map u | u in users :: 0
  {
    assert TimelineOf(events)[..0] == [];
  }

  lemma KeyedByStep<V>(m: map<string, V>, ts: seq<string>, t: string, v: V)
    requires KeyedBy(m, ts)
    ensures KeyedBy(m[t := v], ts + [t])
  {
  }

  lemma MarkersStore(events: seq<Event>, data: map<string, seq<Marker>>, t: string, features: seq<Marker>)
    requires MarkersStored(events, data)
    requires |features| == |Slice(events, t)|
    requires forall i :: 0 <= i < |Slice(events, t)| ==> features[i] == MarkerOf(Slice(events, t)[i])
    ensures MarkersStored(events, data[t := features])
  {
  }

  /** One pass of the loop of lines 38-73, for the `k`-th minute of the timeline: consume
      its slice, then store the dominance colours, the totals and the markers under it. */
  method StepMinute(events: seq<Event>, timeline: seq<string>, users: set<string>, k: nat,
                    acc0: Tallies, counts0: map<string, nat>, dom0: map<string, map<string, string>>,
                    tot0: map<string, map<string, nat>>, data0: map<string, seq<Marker>>)
    returns (acc: Tallies, counts: map<string, nat>, dom: map<string, map<string, string>>,
             tot: map<string, map<string, nat>>, data: map<string, seq<Marker>>)
    requires timeline == TimelineOf(events) && k < |timeline| && users == UserSet(events)
    requires acc0 == TalliesOf(Processed(events, k))
    requires counts0 == Totals(users, Processed(events, k))
    requires KeyedBy(dom0, timeline[..k]) && KeyedBy(tot0, timeline[..k]) && KeyedBy(data0, timeline[..k])
    requires SnapshotsStored(events, timeline, users, dom0, tot0, k)
    requires MarkersStored(events, data0)
    ensures acc == TalliesOf(Processed(events, k + 1))
    ensures counts == Totals(users, Processed(events, k + 1))
    ensures KeyedBy(dom, timeline[..k + 1]) && KeyedBy(tot, timeline[..k + 1]) && KeyedBy(data, timeline[..k + 1])
    ensures SnapshotsStored(events, timeline, users, dom, tot, k + 1)
    ensures MarkersStored(events, data)
  {
    var t := timeline[k];
    var slice := Slice(events, t);
    ProcessedStep(events, k);
    acc, counts := TallySlice(Processed(events, k), users, acc0, counts0, slice);
    TalliesNonEmpty(Processed(events, k + 1));
    var colours := ColourCountries(acc);
    ColoursAreSnapshot(Processed(events, k + 1), acc, colours);
    SnapshotsStore(events, timeline, users, dom0, tot0, k, colours, counts);
    KeyedByStep(dom0, timeline[..k], t, colours);
    KeyedByStep(tot0, timeline[..k], t, counts);
    dom, tot := dom0[t := colours], tot0[t := counts];
    var features := MarkersOf(slice);
    MarkersStore(events, data0, t, features);
    KeyedByStep(data0, timeline[..k], t, features);
    data := data0[t := features];
  }

  /** Lines 29-73. `events` are the rows in sorted order. Each minute of the timeline is
      stored with the dominance colours, the totals and the markers after consuming the
      slices of that minute and of every earlier one. */
  method BuildTimeline(events: seq<Event>)
    returns (timeline: seq<string>, dominanceByTime: map<string, map<string, string>>,
             userTotalsByTime: map<string, map<string, nat>>, dataByTime: map<string, seq<Marker>>)
    ensures timeline == TimelineOf(events)
    ensures forall t :: t in dominanceByTime <==> t in timeline
    ensures forall t :: t in userTotalsByTime <==> t in timeline
    ensures forall t :: t in dataByTime <==> t in timeline
    ensures forall k :: 0 <= k < |timeline| ==>
      IsDominanceSnapshot(dominanceByTime[timeline[k]], Processed(events, k + 1), WinnerColour)
    ensures forall k :: 0 <= k < |timeline| ==>
      userTotalsByTime[timeline[k]] == Totals(UserSet(events), Processed(events, k + 1))
    ensures forall t | t in dataByTime ::
      |dataByTime[t]| == |Slice(events, t)| &&
      forall i :: 0 <= i < |Slice(events, t)| ==> dataByTime[t][i] == MarkerOf(Slice(events, t)[i])
  {
    timeline := TimelineOf(events);
    var users := UserSet(events);
    dominanceByTime, userTotalsByTime, dataByTime := map[], map[], map[];
    var acc: Tallies := map[];
    var counts: map<string, nat> := map u | u in users :: 0;
    NothingProcessed(events, users);
    for k := 0 to |timeline|
      invariant acc == TalliesOf(Processed(events, k))
      invariant counts == Totals(users, Processed(events, k))
      invariant KeyedBy(dominanceByTime, timeline[..k])
      invariant KeyedBy(userTotalsByTime, timeline[..k])
      invariant KeyedBy(dataByTime, timeline[..k])
      invariant SnapshotsStored(events, timeline, users, dominanceByTime, userTotalsByTime, k)
      invariant MarkersStored(events, dataByTime)
    {
      acc, counts, dominanceByTime, userTotalsByTime, dataByTime :=
        StepMinute(events, timeline, users, k, acc, counts, dominanceByTime, userTotalsByTime, dataByTime);
    }
    KeyedByAll(dominanceByTime, timeline);
    KeyedByAll(userTotalsByTime, timeline);
    KeyedByAll(dataByTime, timeline);
    SnapshotsStoredAll(events, timeline, users, dominanceByTime, userTotalsByTime);
  }

  /** Line 82: the legend colour of every user. */
  function LegendColours(users: set<string>): (colours: map<string, string>)
    ensures colours.Keys == users
    ensures forall u | u in colours && u in UserConfig :: colours[u] == PastelHexMap[UserConfig[u]]
    ensures forall u | u in colours && u !in UserConfig :: colours[u] == "gray"
  {
    map u | u in users :: LegendColour(u)
  }
}
