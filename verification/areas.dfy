/** Which SAMBA transect a track belongs to (`find_area`) and the waypoint
    table of the transects (`mission_WP`) of glider_transec_cmd.py. */
module Areas {
  import opened Wrappers
  import opened Sequences
  import opened Tracks

  /** The transects of the waypoint table. */
  datatype Area = Samba01 | Samba02 | Samba03 | Samba04 | Samba05

  /** The key under which an area is stored in the waypoint table. */
  function Key(a: Area): string
  {
    match a
    case Samba01 => "SAMBA_01"
    case Samba02 => "SAMBA_02"
    case Samba03 => "SAMBA_03"
    case Samba04 => "SAMBA_04"
    case Samba05 => "SAMBA_05"
  }

  /** A reference line: waypoint names and their longitudes and latitudes as
      parallel lists. */
  datatype Transect = Transect(names: seq<string>, lon: seq<real>, lat: seq<real>)

  /** Parallel lists of one length, and at least two waypoints to draw a line. */
  predicate WellFormedTransect(t: Transect)
  {
    |t.names| == |t.lon| == |t.lat| >= 2
  }

  /** The waypoint table `mission_WP`. */
  const MissionWaypoints: map<string, Transect> := map[
    "SAMBA_01" := Transect(["K11", "K6", "K14", "K13_7500", "K11"],
                           [11.3301, 11.0436, 10.8630, 11.1833, 11.3301],
                           [57.8032, 58.1167, 58.1038, 57.7939, 57.8032]),
    "SAMBA_02" := Transect(["B2", "B4"],
                           [15.9833, 16.3514],
                           [55.2500, 55.5707]),
    "SAMBA_03" := Transect(["G8", "G2", "G4"],
                           [19.9293, 19.9617, 19.7847],
                           [58.1474, 58.2551, 58.5162]),
    "SAMBA_04" := Transect(["L1", "L2", "L3"],
                           [18.9567, 18.8812, 18.2013],
                           [58.1620, 58.4443, 58.5913]),
    "SAMBA_05" := Transect(["A1", "A2"],
                           [19.6948, 19.3669],
                           [60.0003, 60.1165])]

  /** The table holds exactly the five area keys, each with a well-formed line. */
  lemma MissionWaypointsWellFormed()
    ensures MissionWaypoints.Keys == set a: Area | true :: Key(a)
    ensures forall a: Area :: Key(a) in MissionWaypoints && WellFormedTransect(MissionWaypoints[Key(a)])
  {
    var keys := set a: Area | true :: Key(a);
    assert Key(Samba01) in keys && Key(Samba02) in keys && Key(Samba03) in keys;
    assert Key(Samba04) in keys && Key(Samba05) in keys;
  }

  /** Distinct areas have distinct keys. */
  lemma KeyInjective(a: Area, b: Area)
    ensures Key(a) == Key(b) <==> a == b
  {
    if a != b {
      assert Key(a)[7] != Key(b)[7];
    }
  }

  /** The decision table of `find_area`, written region by region: one answer per
      disjoint part of the plane. */
  function AreaTable(lon: real, lat: real): Option<Area>
  {
    if lat > 60.0 then Some(Samba05)
    else if lat < 56.0 then Some(Samba02)
    else if lon < 14.0 then Some(Samba01)
    else if lat == 56.0 || lat == 60.0 then None
    else if lon > 19.0 then Some(Samba03)
    else if 16.0 < lon < 19.0 then Some(Samba04)
    else None
  }

  /** `find_area` on the mean position: the threshold tests run in source order and
      a later match overwrites an earlier one; `None` is the source's `[]`. */
  function ClassifyMean(lon: real, lat: real): (r: Option<Area>)
    ensures r == AreaTable(lon, lat)
    ensures lat > 60.0 ==> r == Some(Samba05)
    ensures lat < 56.0 ==> r == Some(Samba02)
    ensures 56.0 <= lat <= 60.0 && lon < 14.0 ==> r == Some(Samba01)
    ensures 56.0 < lat < 60.0 && lon > 19.0 ==> r == Some(Samba03)
    ensures 56.0 < lat < 60.0 && 16.0 < lon < 19.0 ==> r == Some(Samba04)
    ensures r == None <==> 56.0 <= lat <= 60.0 && lon >= 14.0
                           && !(56.0 < lat < 60.0 && (lon > 19.0 || 16.0 < lon < 19.0))
  {
    var area := None;
    var area := if lon < 14.0 then Some(Samba01) else area;
    var area := if lat < 56.0 then Some(Samba02) else area;
    var area :=
      if 56.0 < lat < 60.0 then
        var inner := if lon > 19.0 then Some(Samba03) else area;
        if 16.0 < lon && lon < 19.0 then Some(Samba04) else inner
      else area;
    if lat > 60.0 then Some(Samba05) else area
  }

  /** Mean longitude and latitude of a track; pandas gives NaN for an empty
      track, against which every threshold test is false. */
  function MeanPosition(t: seq<TrackPoint>): Option<(real, real)>
  {
    if |t| == 0 then None else Some((Mean(Lons(t)), Mean(Lats(t))))
  }

  /** `find_area(ds)`. */
  function FindArea(t: seq<TrackPoint>): (r: Option<Area>)
    ensures |t| == 0 ==> r == None
    ensures |t| > 0 ==> r == AreaTable(Mean(Lons(t)), Mean(Lats(t)))
  {
    match MeanPosition(t)
    case None => None
    case Some((lon, lat)) => ClassifyMean(lon, lat)
  }

  /** The track can be classified: the precondition under which the table lookup
      `mission_WP[st_area]` succeeds. */
  predicate Classifiable(t: seq<TrackPoint>)
  {
    |t| > 0 && AreaTable(Mean(Lons(t)), Mean(Lats(t))).Some?
  }

  datatype Fault = Unclassified

  /** `mission_WP[st_area]`: a transect for every area, a failure for the sentinel. */
  function Lookup(area: Option<Area>): (r: Result<Transect, Fault>)
    ensures r.Success? <==> area.Some?
    ensures r.Success? ==> WellFormedTransect(r.value)
    ensures r.Success? ==> Key(area.value) in MissionWaypoints && r.value == MissionWaypoints[Key(area.value)]
  {
    MissionWaypointsWellFormed();
    match area
    case None => Failure(Unclassified)
    case Some(a) => Success(MissionWaypoints[Key(a)])
  }

  /** The lookup of a classified track never fails, and only a classified
      track's lookup succeeds. */
  lemma LookupSafe(t: seq<TrackPoint>)
    ensures Lookup(FindArea(t)).Success? <==> Classifiable(t)
  {
  }

  /** The line `LineString(zip(lon, lat))` of a transect, as (lon, lat) vertices. */
  function Line(tr: Transect): (l: seq<(real, real)>)
    requires |tr.lon| == |tr.lat|
    ensures |l| == |tr.lon|
    ensures forall i :: 0 <= i < |l| ==> l[i] == (tr.lon[i], tr.lat[i])
  {
    seq(|tr.lon|, i requires 0 <= i < |tr.lon| => (tr.lon[i], tr.lat[i]))
  }

  /** A point east of 14 degrees inside the 56-60 degree band but between the
      SAMBA_01 and SAMBA_04 boxes is left unclassified, as are the band edges. */
  lemma UnclassifiedExamples()
    ensures ClassifyMean(15.0, 58.0) == None
    ensures ClassifyMean(19.0, 58.0) == None
    ensures ClassifyMean(17.0, 56.0) == None
    ensures ClassifyMean(13.0, 60.0) == Some(Samba01)
  {
  }
}
