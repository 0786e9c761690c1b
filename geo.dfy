/** The region index of geo_engine.py (and its copy at the top level of risiko3.py):
    named polygons built from GeoJSON features, and a first-match point lookup.
    Geometry stays abstract: a polygon is a value of a type parameter `G`, and shapely's
    prepared `contains` test is the function parameter `contains`. */
module Geo {

  /** The label of a point no polygon contains, and of a feature with no name. */
  const Unknown: string := "Unknown"

  /** A shapely `Point(x, y)`; the engine builds it as `Point(lon, lat)`. */
  datatype Point = Point(x: real, y: real)

  /** A GeoJSON feature: its geometry and its (string-valued) properties. */
  datatype Feature<G> = Feature(geometry: G, properties: map<string, string>)

  /** An entry of `countries_polys`: `{'name': name, 'poly': prep(geom)}`. */
  datatype Region<G> = Region(name: string, poly: G)

  /** `props.get('ADMIN', props.get('NAME', 'Unknown'))`. */
  function FeatureName(props: map<string, string>): (name: string)
    ensures "ADMIN" in props ==> name == props["ADMIN"]
    ensures "ADMIN" !in props ==> name == if "NAME" in props then props["NAME"] else Unknown
    ensures name in props.Values || name == Unknown
  {
    if "ADMIN" in props then props["ADMIN"]
    else if "NAME" in props then props["NAME"]
    else Unknown
  }

  /** The entry built for one feature: its name and its geometry. */
  function RegionOf<G>(f: Feature<G>): Region<G> {
    Region(FeatureName(f.properties), f.geometry)
  }

  /** The loop of risiko3.py that fills the list `countries_polys`, one entry per feature. */
  method PreparePolygons<G>(features: seq<Feature<G>>) returns (polys: seq<Region<G>>)
    ensures |polys| == |features|
    ensures forall i :: 0 <= i < |features| ==> polys[i] == RegionOf(features[i])
  {
    polys := [];
    for i := 0 to |features|
      invariant |polys| == i
      invariant forall j :: 0 <= j < i ==> polys[j] == RegionOf(features[j])
    {
      polys := polys + [RegionOf(features[i])];
    }
  }

  /** Entry `k` is the first of `polys` whose polygon contains `p`. */
  ghost predicate FirstContaining<G>(polys: seq<Region<G>>, contains: (G, Point) -> bool, p: Point, k: int) {
    && 0 <= k < |polys|
    && contains(polys[k].poly, p)
    && forall j :: 0 <= j < k ==> !contains(polys[j].poly, p)
  }

  /** risiko3.py's `get_country(lat, lon)`: the name of the first entry whose polygon contains
      `Point(lon, lat)`, or "Unknown" when none does. */
  function LocateCountry<G>(polys: seq<Region<G>>, contains: (G, Point) -> bool, lat: real, lon: real): (name: string)
    ensures forall k :: FirstContaining(polys, contains, Point(lon, lat), k) ==> name == polys[k].name
    ensures (forall i :: 0 <= i < |polys| ==> !contains(polys[i].poly, Point(lon, lat))) ==> name == Unknown
    ensures name == Unknown || exists i :: 0 <= i < |polys| && polys[i].name == name
  {
    if polys == [] then Unknown
    else if contains(polys[0].poly, Point(lon, lat)) then polys[0].name
    else
      var r := LocateCountry(polys[1..], contains, lat, lon);
      assert forall k :: FirstContaining(polys, contains, Point(lon, lat), k) ==>
        FirstContaining(polys[1..], contains, Point(lon, lat), k - 1);
      r
  }

  /** `df.apply(lambda row: get_country(row['Latitude'], row['Longitude']), axis=1)`:
      one label per (latitude, longitude) row, in row order. */
  function AssignCountries<G>(polys: seq<Region<G>>, contains: (G, Point) -> bool, points: seq<(real, real)>): (countries: seq<string>)
    ensures |countries| == |points|
    ensures forall i :: 0 <= i < |points| ==> countries[i] == LocateCountry(polys, contains, points[i].0, points[i].1)
    ensures forall i :: 0 <= i < |points| ==>
      countries[i] == Unknown || exists j :: 0 <= j < |polys| && polys[j].name == countries[i]
  {
    seq(|points|, i requires 0 <= i < |points| => LocateCountry(polys, contains, points[i].0, points[i].1))
  }

  /** `GeoEngine`: the loaded GeoJSON features and the list of named polygons. */
  class GeoEngine<G> {
    var geoData: seq<Feature<G>>
    var countriesPolys: seq<Region<G>>
    const contains: (G, Point) -> bool

    /** `__init__`, after `_load_geojson` has produced `geoData`. */
    constructor (geoData: seq<Feature<G>>, contains: (G, Point) -> bool)
      ensures this.geoData == geoData && this.contains == contains
      ensures |countriesPolys| == |geoData|
      ensures forall i :: 0 <= i < |geoData| ==> countriesPolys[i] == RegionOf(geoData[i])
    {
      this.geoData := geoData;
      this.contains := contains;
      countriesPolys := [];
      new;
      PreparePolygons();
    }

    /** `_prepare_polygons`: appends one entry per feature, in feature order. */
    method PreparePolygons()
      modifies this`countriesPolys
      ensures |countriesPolys| == old(|countriesPolys|) + |geoData|
      ensures countriesPolys[..old(|countriesPolys|)] == old(countriesPolys)
      ensures forall i :: 0 <= i < |geoData| ==> countriesPolys[old(|countriesPolys|) + i] == RegionOf(geoData[i])
    {
      var n := |countriesPolys|;
      for i := 0 to |geoData|
        invariant |countriesPolys| == n + i
        invariant countriesPolys[..n] == old(countriesPolys)
        invariant forall j :: 0 <= j < i ==> countriesPolys[n + j] == RegionOf(geoData[j])
      {
        countriesPolys := countriesPolys + [RegionOf(geoData[i])];
      }
    }

    /** `get_country(lat, lon)`: reads the entries, changes nothing. */
    function GetCountry(lat: real, lon: real): (name: string)
      reads this
      ensures forall k :: FirstContaining(countriesPolys, contains, Point(lon, lat), k) ==> name == countriesPolys[k].name
      ensures (forall i :: 0 <= i < |countriesPolys| ==> !contains(countriesPolys[i].poly, Point(lon, lat))) ==> name == Unknown
      ensures name == Unknown || exists i :: 0 <= i < |countriesPolys| && countriesPolys[i].name == name
    {
      LocateCountry(countriesPolys, contains, lat, lon)
    }
  }
}
