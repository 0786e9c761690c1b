/** The colour tables and the CSS class-name sanitiser of config.py (repeated verbatim in
    risiko3.py). `USER_CONFIG` maps a user to `{'color': name}`; since every inner dict
    has exactly that one key, it is kept here as a map from user to colour name. */
module Config {

  /** `PASTEL_HEX_MAP`: colour name to hex code. */
  const PastelHexMap: map<string, string> := map[
    "beige" := "#FFF0B5", "magenta" := "#FF66FF", "purple" := "#DA70D6",
    "green" := "#76E076", "red" := "#FF6B6B", "pink" := "#FFB6C1",
    "orange" := "#FFB347", "brown" := "#E0A96D", "yellow" := "#FFF176",
    "cyan" := "#4DD0E1", "blue" := "#6495ED", "darkred" := "#EF5350",
    "cadetblue" := "#80DEEA", "darkgreen" := "#66BB6A", "darkblue" := "#5C6BC0",
    "gray" := "#BDBDBD", "black" := "#757575", "lightgray" := "#E0E0E0"
  ]

  /** `USER_CONFIG`: display name to colour name. */
  const UserConfig: map<string, string> := map[
    "Cosimo" := "cadetblue", "Riccardo" := "magenta",
    "Mariam" := "purple", "Tommaso" := "green",
    "Armando" := "red", "Stefano" := "pink",
    "Leo" := "orange", "Francesca" := "yellow",
    "Cava" := "cyan", "Luca" := "blue",
    "Asia" := "darkred",
    "DEFAULT" := "gray"
  ]

  /** Every colour a configured user is given has a hex code. */
  lemma ConfiguredColoursAreKnown()
    ensures forall u | u in UserConfig :: UserConfig[u] in PastelHexMap
  {
  }

  /** Colour of a country won by `user`:
      `PASTEL_HEX_MAP.get(USER_CONFIG.get(user, {}).get('color'), '#333')`. */
  function WinnerColour(user: string): (hex: string)
    ensures user in UserConfig ==> hex == PastelHexMap[UserConfig[user]]
    ensures user !in UserConfig ==> hex == "#333"
    ensures hex == "#333" || hex in PastelHexMap.Values
  {
    ConfiguredColoursAreKnown();
    if user in UserConfig && UserConfig[user] in PastelHexMap then PastelHexMap[UserConfig[user]]
    else "#333"
  }

  /** Colour of a marker of `user`:
      `PASTEL_HEX_MAP.get(USER_CONFIG.get(user, {}).get('color', 'gray'), 'gray')`.
      An unlisted user falls back to the colour name "gray", whose hex code is "#BDBDBD". */
  function MarkerColour(user: string): (hex: string)
    ensures user in UserConfig ==> hex == PastelHexMap[UserConfig[user]]
    ensures user !in UserConfig ==> hex == "#BDBDBD"
    ensures hex in PastelHexMap.Values
  {
    ConfiguredColoursAreKnown();
    var name := if user in UserConfig then UserConfig[user] else "gray";
    if name in PastelHexMap then PastelHexMap[name] else "gray"
  }

  /** Colour of `user` in the legend data:
      `PASTEL_HEX_MAP.get(USER_CONFIG.get(u, {}).get('color'), 'gray')`. Unlike the two
      above, an unlisted user gets the CSS colour name "gray" rather than a hex code. */
  function LegendColour(user: string): (colour: string)
    ensures user in UserConfig ==> colour == PastelHexMap[UserConfig[user]]
    ensures user !in UserConfig ==> colour == "gray"
  {
    ConfiguredColoursAreKnown();
    if user in UserConfig && UserConfig[user] in PastelHexMap then PastelHexMap[UserConfig[user]]
    else "gray"
  }

  /** The characters `[a-zA-Z0-9]`: ASCII letters and digits only. */
  predicate IsAsciiAlnum(c: char) {
    ('a' <= c <= 'z') || ('A' <= c <= 'Z') || ('0' <= c <= '9')
  }

  /** `re.sub(r'[^a-zA-Z0-9]', '_', name)`: every character outside `[a-zA-Z0-9]` becomes `_`. */
  function SanitizeClassName(name: string): (r: string)
    ensures |r| == |name|
    ensures forall i :: 0 <= i < |name| && IsAsciiAlnum(name[i]) ==> r[i] == name[i]
    ensures forall i :: 0 <= i < |name| && !IsAsciiAlnum(name[i]) ==> r[i] == '_'
  {
    if name == [] then []
    else [if IsAsciiAlnum(name[0]) then name[0] else '_'] + SanitizeClassName(name[1..])
  }

  /** A sanitised name only holds letters, digits and underscores. */
  lemma SanitizedAlphabet(name: string)
    ensures forall c | c in SanitizeClassName(name) :: IsAsciiAlnum(c) || c == '_'
  {
    var r := SanitizeClassName(name);
    forall c | c in r
      ensures IsAsciiAlnum(c) || c == '_'
    {
      var i :| 0 <= i < |r| && r[i] == c;
    }
  }

  /** Sanitising twice is the same as sanitising once. */
  lemma SanitizeIdempotent(name: string)
    ensures SanitizeClassName(SanitizeClassName(name)) == SanitizeClassName(name)
  {
    var r := SanitizeClassName(name);
    var rr := SanitizeClassName(r);
    assert forall i | 0 <= i < |r| :: rr[i] == r[i];
  }
}
