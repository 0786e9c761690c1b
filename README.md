# ShitGram core, modelled in Dafny

ShitGram reads an exported group chat and finds every message that carries the poop emoji
and is followed by a shared position from the same user. It takes the coordinates of that
position, names the country they fall in, and replays the sightings minute by minute. At
each minute it records:

- who "dominates" each country, i.e. has the most sightings there;
- each user's running total;
- the markers to draw.

This project models that core and proves what it promises.

| module (file) | what it models |
|---|---|
| `Seqs` (seqs.dfy) | `Option`; first occurrence; pandas `unique()` (first-appearance order); Python string order |
| `Config` (config.dfy) | `PASTEL_HEX_MAP`, `USER_CONFIG`, the three colour look-ups with their different fall-backs, `sanitize_class_name` |
| `Geo` (geo.dfy) | `GeoEngine` (a class: `_prepare_polygons` appends to its field, `get_country` reads it); the same loop and lookup written at the top level of risiko3.py |
| `Text` (text.dfy) | `str.isspace`/`\s`, `str.strip()`, substring search, `str.replace` (left to right, non-overlapping, empty pattern included) |
| `Chat` (chat.dfy) | the chat-line regular expression under `re.findall` with `re.MULTILINE`, and the stripped rows built from its matches |
| `Locations` (locations.dfy) | the location pairing by `shift(-1)`, the emoji filter, `get_coords` (the coordinates regex under `re.search`, then `float`), `dropna` |
| `Aliases` (aliases.dfy) | `user_mapping` and the loop of `str.replace` calls over the `User` column |
| `Tally` (tally.dfy) | one country's insertion-ordered dict of contenders, its `get`/increment, and `max(contenders, key=contenders.get)` |
| `Dominance` (dominance.dfy) | the meaning of the timeline fold: slices, prefix counts, tallies as a fold over events, and their properties |
| `Timeline` (timeline.dfy) | the timeline loop itself (main.py and its copy in risiko3.py) as methods with loop invariants, proved against `Dominance` |

Modelling choices:

- Contenders keep insertion order, so `max` resolves ties exactly as Python does: the
  contender that entered the country's dict first wins.
- The outer dicts are Dafny maps. Their order only affects the key order of the JSON text.
- The containment test of shapely is a function parameter `contains`.
- Coordinates are exact decimals (sign, integer digits, fraction digits). The timeline
  events carry `real` positions.
- A regex match is characterised twice: by a predicate that states the pattern, and by a
  scanning function. Lemmas prove the two agree, including leftmost-match and
  longest-match behaviour.

## Model

| member | source | states |
|---|---|---|
| Config.ConfiguredColoursAreKnown | config.py:6-23 | every colour name in `USER_CONFIG` is a key of `PASTEL_HEX_MAP` |
| Config.WinnerColour | main.py:55 | a listed user gets the hex code of its configured colour, anyone else `#333`; the result is always `#333` or a hex code of the table |
| Config.MarkerColour | main.py:65 | a listed user gets its hex code; anyone else falls back through the name `gray` to `#BDBDBD`; the result is always a hex code of the table |
| Config.LegendColour | main.py:82 | a listed user gets its hex code, anyone else the CSS name `gray` |
| Config.SanitizeClassName | config.py:33-34 | same length as the input; ASCII letters and digits kept in place; every other character becomes `_` (risiko3.py:49 is the same function) |
| Config.SanitizedAlphabet | config.py:34 | the output holds only `[a-zA-Z0-9_]` |
| Config.SanitizeIdempotent | config.py:33-34 | sanitising twice equals sanitising once |
| Geo.FeatureName | geo_engine.py:33 | `ADMIN` when present, else `NAME` when present, else "Unknown"; always a property value or "Unknown" |
| Geo.GeoEngine.constructor | geo_engine.py:9-13 | after construction there is one entry per feature, in feature order, each named by `FeatureName` |
| Geo.GeoEngine.PreparePolygons | geo_engine.py:29-34 | appends exactly one entry per feature, in feature order, and keeps the entries already there |
| Geo.GeoEngine.GetCountry | geo_engine.py:36-41 | reads the entries without changing them; returns the name of the first entry whose polygon contains `Point(lon, lat)`, or "Unknown" when none does; the result is always some entry's name or "Unknown" |
| Geo.PreparePolygons | risiko3.py:108-112 | the top-level loop builds one entry per feature, in feature order |
| Geo.RegionOf | geo_engine.py:33-34 | the entry built for a feature: its name (`ADMIN`, else `NAME`, else `Unknown`, i.e. `FeatureName`) paired with its geometry |
| Geo.LocateCountry | risiko3.py:114-118 | the first containing entry wins, with the lat/lon swap into `Point(lon, lat)`; no containing entry gives "Unknown"; the result is always some entry's name or "Unknown" |
| Geo.AssignCountries | risiko3.py:121 | one country per row, in row order, each given by `get_country` and so an entry's name or "Unknown" (main.py:25 does the same) |
| Text.IsSpace | risiko3.py:63 | `\s` in a `str` pattern: the Unicode whitespace characters that `str.isspace` accepts |
| Text.IsDigit | risiko3.py:63 | `\d`, taken as the ASCII digits `0`-`9` (see Left out) |
| Chat.LineStart | risiko3.py:63 | where `^` matches under MULTILINE: the start of the text or just after a newline |
| Text.FindChar | risiko3.py:63 | an index at or after `from` that holds the character, or the end of the text |
| Text.FindCharFirst | risiko3.py:63 | no index between `from` and the one FindChar returns holds the character, so it is the first occurrence (how `[^:]+` and `.*$` end) |
| Text.Strip | risiko3.py:64 | `strip()`: the result is an infix with only whitespace around it, and it neither starts nor ends with whitespace |
| Text.StripIdempotent | risiko3.py:64 | stripping a stripped text changes nothing |
| Text.StripOfTrimmed | risiko3.py:64 | a text with no whitespace at either end is its own strip |
| Text.Contains | risiko3.py:67 | substring search holds exactly when the pattern occurs at some index |
| Text.ContainsInfix | risiko3.py:71 | an occurrence in a part of a text is an occurrence in the whole text |
| Text.ReplaceAll | risiko3.py:90 | `replace` leaves a text without occurrences of a non-empty pattern unchanged |
| Text.ReplaceAtFirst | risiko3.py:90 | text before the first occurrence passes through, the occurrence becomes the replacement, and replacing resumes right after it |
| Text.ReplaceWhole | risiko3.py:90 | a text that is exactly the pattern becomes the replacement |
| Chat.MatchAt | risiko3.py:63 | a match at an index ends after it, within the text |
| Chat.MatchHereHeader | risiko3.py:63 | checking the 21 header positions one by one, each against its character class, succeeds exactly when the header `\[dd/dd/dd,\sdd:dd:dd\]\s` is there |
| Chat.MatchAtMeaning | risiko3.py:63 | the scanner reports groups and end exactly when the chat-line pattern matches there with them, so the match at an index is unique |
| Chat.MatchAtShift | risiko3.py:63 | text before a line boundary does not change what matches after it |
| Chat.FindAllWellFormed | risiko3.py:63 | every match has a `dd/dd/dd` date, a `dd:dd:dd` time, a non-empty user without `:` and a text without a line break |
| Chat.FindAllSuffix | risiko3.py:63 | the scan from an index depends only on the text from there on and on whether `^` holds there |
| Chat.FindAllShift | risiko3.py:63 | scanning after a line boundary finds the same matches as scanning that suffix alone |
| Chat.FindAll | risiko3.py:63 | `re.findall` with MULTILINE from an index: try each index in turn and resume where a match ends; nothing is found from the end of the text on (its meaning is stated by the FindAll lemmas) |
| Chat.ParseChat | risiko3.py:63-64 | one row per match, in match order, with date and time as matched and user and text stripped of surrounding whitespace |
| Chat.MatchFormatted | risiko3.py:63 | a well-formed `[date, time] user: text` line, followed by a line break or by nothing, matches with exactly its own groups |
| Chat.ParseJoin | risiko3.py:63-64 | reading well-formed lines joined by line breaks gives back exactly those lines |
| Locations.IsPoop | risiko3.py:67 | a message is flagged exactly when the emoji occurs in its text as a literal substring |
| Locations.IsLocation | risiko3.py:71 | a message counts as a location exactly when its text contains `Posizione:` or `maps` |
| Locations.LocationFrom | risiko3.py:70-74 | a row's location is the next message's text when that message is from the same user and counts as a location, and none otherwise |
| Locations.PairLocations | risiko3.py:70-74 | one row per message, in order; a message gets a location exactly when the next message exists, is from the same user and mentions `Posizione:` or `maps`, and that location is the next message's text; the last message gets none |
| Locations.FilterPoop | risiko3.py:75 | a row is kept exactly when it was a row and its message contains the emoji |
| Locations.FilterPoopAppend | risiko3.py:75 | filtering a concatenation concatenates the filtered parts, so order is kept |
| Locations.FilterPoopIdempotent | risiko3.py:67-75 | filtering twice is filtering once |
| Locations.DigitsEndSkips | risiko3.py:78 | a `\d+` run taken greedily: every character skipped is a digit |
| Locations.SpacesEndSkips | risiko3.py:78 | a `\s*` run taken greedily: every character skipped is whitespace |
| Locations.NumberAt | risiko3.py:78 | a number match at an index ends after that index, within the text |
| Locations.NumberAtSound | risiko3.py:78 | what is found is a `-?\d+\.\d+` match, and it cannot be extended by a digit |
| Locations.NumberAtComplete | risiko3.py:78 | any `-?\d+\.\d+` match at the index is found, and one that cannot be extended is exactly the one found |
| Locations.CoordsAt | risiko3.py:78 | a match at an index places the comma, the second number and its end in order within the text |
| Locations.CoordsAtSound | risiko3.py:78 | what is found at an index is a match of `(-?\d+\.\d+),\s*(-?\d+\.\d+)` there |
| Locations.CoordsAtComplete | risiko3.py:78 | wherever the pattern matches, the scanner finds a match |
| Locations.CoordsAtExact | risiko3.py:78 | a match whose parts are maximal is exactly the one the scanner reports |
| Locations.SearchCoords | risiko3.py:78 | the reported position is the first where an attempt succeeds; no attempt succeeds when nothing is reported |
| Locations.SearchCoordsMeaning | risiko3.py:78 | `re.search`: the reported match is a match of the pattern and no earlier position has one; with no report, the pattern matches nowhere |
| Locations.DigitsValue | risiko3.py:79 | the value of `n` digits is below `10^n` |
| Locations.DecimalValue | risiko3.py:79 | `float` of a matched group: negative exactly when it starts with `-`, whole part equal to the value of the integer digits, fraction below one unit of its places |
| Locations.WholePart | risiko3.py:79 | the real value of a decimal lies within one of its integer digits, on the side of its sign |
| Locations.LocationText | risiko3.py:78 | defined as `str(text)`: the location's text, or "None" for a row without one |
| Locations.GetCoords | risiko3.py:77-79 | the pair is absent (NaN, NaN) exactly when the pattern matches nowhere in `str(text)` |
| Locations.GetCoordsOfSearch | risiko3.py:77-79 | the pair holds the values of the two groups of the leftmost match |
| Locations.NoDigitNoCoords | risiko3.py:77-79 | a text without digits yields no coordinates |
| Locations.NoLocationNoCoords | risiko3.py:77-79 | a missing location (`str(None)` is "None") yields no coordinates |
| Locations.CoordsOfLocationText | risiko3.py:77-79 | round trip: `pre + lat + "," + spaces + lon + post` (no digit and no trailing minus sign in `pre`, no leading digit in `post`) yields exactly the two numbers it was written with |
| Locations.WithCoords | risiko3.py:81 | one coordinate pair per row, in order, each given by `get_coords` of the row's location |
| Locations.DropNa | risiko3.py:82 | every surviving sighting comes from a row with both numbers, and there are no more sightings than rows |
| Locations.DropNaComplete | risiko3.py:82 | every row with both numbers survives as a sighting |
| Locations.DropNaAppend | risiko3.py:82 | `dropna` of a concatenation is the concatenation of the parts, so row order is kept |
| Locations.Located | risiko3.py:81-82 | every sighting has the coordinates `get_coords` finds in some row's location, and that row's message |
| Locations.Sightings | risiko3.py:67-82 | defined as the pipeline in source order: pair each message with the next one's location, keep the emoji rows, then keep those whose location yields coordinates (its meaning is stated by SightingOrigin and PoopThenPosition) |
| Locations.LocatedComplete | risiko3.py:81-82 | every row whose location yields coordinates gives a sighting with them |
| Locations.LocatedOrigin | risiko3.py:81-82 | every sighting comes from a row that has a location, with those coordinates |
| Locations.SightingsHaveLocations | risiko3.py:70-82 | every sighting comes from a row paired with a location |
| Locations.KeptOrigin | risiko3.py:70-75 | a kept row with a location holds the emoji, and its message is followed by a position shared by the same user |
| Locations.PoopThenPosition | risiko3.py:67-82 | an emoji message followed by a same-user position with coordinates gives a sighting at those coordinates, even when the position message has no emoji itself |
| Locations.SightingOrigin | risiko3.py:67-82 | conversely, every sighting is such an emoji message with the coordinates of the position that follows it |
| Aliases.ApplyAliases | risiko3.py:90 | a name in which no key occurs comes through unchanged |
| Aliases.AliasUsers | risiko3.py:90 | the loop rewrites the whole column once per pair, in mapping order; each name ends up as the sequence of replacements applied to it |
| Aliases.RenamedStays | risiko3.py:85-90 | a key that no earlier key occurs in becomes its short name, and stays so when no later key occurs in that short name |
| Aliases.KeyBecomesValue | risiko3.py:85-90 | for any mapping, a key that its pair renames cleanly comes out of the whole fold as its short name |
| Aliases.FirstKeyRenamed | risiko3.py:85-90 | with the real `user_mapping`, "cosimobicci" comes out of all ten replacements as "Cosimo" |
| Aliases.ShortNamesAreConfigured | risiko3.py:85-89 | every short name of the mapping is a user listed in `USER_CONFIG` |
| Tally.Get | main.py:49 | `get(u, 0)` is 0 for a user not in the dict |
| Tally.GetAt | main.py:49 | with distinct users, `get` finds each entry's own count |
| Tally.Bump | main.py:48-49 | the user's count rises by one, every other count is unchanged; a known user keeps its place, a new one is appended |
| Tally.BumpValid | main.py:48-49 | users stay distinct and every count stays positive |
| Tally.Winner | main.py:54 | `max` picks an index whose count no contender exceeds, and every earlier contender has a strictly smaller count |
| Tally.LeaderIsFirstMaximum | main.py:53-54 | the leader's count is at least everyone's, and any other user tied with it was inserted later |
| Tally.LeaderBeats | main.py:54 | a listed user has a count no larger than the one `max` picks; a different user with an equal count stands after it in insertion order |
| Tally.Leader | main.py:54 | the user that `max(contenders, key=contenders.get)` returns: the one at the index Winner picks; LeaderIsFirstMaximum states its meaning |
| Dominance.Minutes | main.py:30 | one minute key per row, in row order: the `strftime` column the timeline is drawn from |
| Dominance.UserSet | main.py:19 | the set of users with at least one row (`unique()`; the sort order is not used by the fold) |
| Dominance.TimelineOf | main.py:30 | defined as the distinct minute keys in order of first appearance (`unique()` keeps that order) |
| Seqs.Unique | main.py:30 | every output value occurs in the input, every input value occurs in the output, no value twice, and the output is no longer than the input |
| Dominance.Slice | main.py:39 | a slice holds only rows of its minute |
| Dominance.SliceComplete | main.py:39 | the mask drops no row of its minute |
| Dominance.SliceAppend | main.py:39 | the mask keeps frame order: the slice of a concatenation is the two slices in turn |
| Dominance.Totals | main.py:36-44 | defined as the map from each user to its number of rows (the reference for `user_counts_accum`) |
| Dominance.Record | main.py:46-49 | defined as: a row in "Unknown" changes nothing, any other row bumps its user in its country, creating the country's tally when missing |
| Dominance.TalliesOf | main.py:35-49 | defined as Record applied to the rows in order, starting from no tallies (the reference for `geo_dominance_accum`) |
| Dominance.ProcessedStep | main.py:38-39 | step `k` of the timeline consumes exactly the slice of the `k`-th minute |
| Dominance.TalliesOfMeaning | main.py:42-49 | the tallies hold exactly the countries other than "Unknown" with some row. Each country lists the users of its rows in first-row order, with their row counts there |
| Dominance.UnknownNeverTallied | main.py:47-49 | "Unknown" is never a key of the tallies |
| Dominance.TalliesGrow | main.py:48-49 | more rows never remove a country, lower a count or reorder contenders: earlier contenders keep their places |
| Dominance.TalliesNonEmpty | main.py:53-54 | every tally has a contender, so `max` never sees an empty dict |
| Dominance.LeaderIsArgmax | main.py:53-54 | a country's leader has a row there, at least as many rows there as anyone, and on a tie its first row there came first |
| Dominance.BatchesUserCount | main.py:38-45 | consuming the slices of distinct minutes counts each row of those minutes exactly once |
| Dominance.TimelineAscending | main.py:29-30 | with sorted rows, the timeline is duplicate-free and strictly ascending |
| Dominance.InPrefixIffAtMost | main.py:29-39 | with sorted rows, a minute is among the first `k+1` timeline entries exactly when it is at most the `k`-th |
| Dominance.TotalsArePrefixCounts | main.py:42-45 | after step `k`, each user's total is the number of its rows with minute at most the `k`-th |
| Dominance.SnapshotsGrow | main.py:35-59 | later snapshots keep every country and never lower a tally or a total |
| Timeline.MarkerOf | main.py:63-72 | a marker has the row's position and user. Its colour is MarkerColour of the user: the table entry of a listed user, `#BDBDBD` (through `gray`) otherwise. Its class is SanitizeClassName of the user, the same length and over `[a-zA-Z0-9_]` |
| Timeline.RecordRow | main.py:46-49 | the in-place update of the tallies for one row gives exactly Record of the row |
| Timeline.TallySlice | main.py:42-49 | consuming a slice turns the tallies and totals of the rows before into those of the rows before plus the slice |
| Timeline.ColourCountries | main.py:52-56 | exactly the tallied countries are coloured, each with the winner colour of its `max` contender |
| Timeline.StepMinute | main.py:38-73 | one pass for the `k`-th minute: the tallies and totals go from the rows of the first `k` minutes to those of the first `k + 1`. The minute becomes a key of all three outputs, and the stored entries of every earlier minute stay correct |
| Timeline.SnapshotsStore | main.py:58-59 | storing the colours and totals of minute `k` keeps the entries of every earlier minute, since the minutes are distinct |
| Timeline.NothingProcessed | main.py:35-36 | before the first minute no country is tallied and every user's total is zero |
| Timeline.MarkersOf | main.py:62-73 | one marker per row of the slice, in slice order |
| Timeline.BuildTimeline | main.py:29-73 | the timeline is the distinct minutes in order. Each minute has one dominance, one totals and one marker entry, and no other keys exist. After step `k`, dominance is the leader colouring of the tallies and totals are per-user counts, over the rows consumed by then. Markers match the minute's slice. risiko3.py:128-175 repeats the same loop |
| Timeline.LegendColours | main.py:82 | every user gets its legend colour: a listed user its hex code, anyone else `gray` |

## Left out

Out of scope:

- File and network input: reading `_chat.txt`, downloading and caching the GeoJSON (`_load_geojson`), `data_loader`. The chat text and the features are parameters.
- shapely's `shape`, `prep` and `contains`: polygons are an abstract type, and containment is a function parameter.
- pandas date parsing (`to_datetime` with `errors='coerce'`), `strftime` and `sort_values`:
  - events come with their minute keys already formatted;
  - that they are sorted is a precondition;
  - rows whose timestamp fails to parse are not modelled.
- `json.dumps`, popups, HTML, JavaScript, folium and `create_map`: snapshots stay maps and sequences.
- `print`, `warnings` and `exit`.

Weaker than the source, by member:

- Timeline.BuildTimeline: `unique_users` is the set of event users. Its sorted order only affects output order.
- Timeline.BuildTimeline: the popup string of a marker is left out.
- Chat.ParseChat: when no line matches, the source builds a frame without a `Date_Str` column and line 66 stops with a KeyError. The model instead gives no rows, and the timeline is then empty.
- Locations.Sightings: when no parsed message contains the emoji, the frame is empty at line 81 and assigning the two coordinate columns from an empty `apply(pd.Series)` stops with a ValueError. The model instead gives no sightings.
- Locations.DecimalValue: `float` rounding to binary is not modelled. Numbers stay exact decimals.
- Text.IsDigit: `\d` here matches only ASCII digits. Python also matches other Unicode decimal digits, and `float` accepts them.
- Locations.Sightings: the link from sightings to timeline events is not modelled. That link is attaching a country and a minute key, and converting the exact decimals to the real coordinates of events.
- Geo.FeatureName: properties are text-valued. A GeoJSON `null` value is not modelled.
- The `AWARDS_CONFIG` table is not modelled. Nothing in the modelled core reads it.
