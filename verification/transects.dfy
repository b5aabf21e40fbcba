/** Which recent dive cycles lie off the transect corridor (`find_if_on_transect`
    of glider_transec_cmd.py). The projection, buffering, containment and
    distance computations of the GIS library are an abstract oracle. */
module Transects {
  import opened Wrappers
  import opened Sequences
  import opened Tracks
  import opened Areas

  /** The buffered transect line as the GIS library sees it: whether a
      (lon, lat) centroid lies inside, and its distance in metres from it. */
  datatype Corridor = Corridor(contains: (real, real) -> bool, distance: (real, real) -> real)

  /** Distances are never negative. */
  ghost predicate ValidCorridor(k: Corridor)
  {
    forall lon: real, lat: real :: k.distance(lon, lat) >= 0.0
  }

  /** A centroid inside the buffer is at distance zero from it. */
  ghost predicate ConsistentCorridor(k: Corridor)
  {
    forall lon: real, lat: real :: k.contains(lon, lat) ==> k.distance(lon, lat) == 0.0
  }

  /** Reprojection and buffering of a reference line by a margin in metres. */
  type Buffer = (seq<(real, real)>, int) -> Corridor

  /** The cycles whose centroid the corridor contains (`sjoin(..., 'contains').index_right`). */
  function ContainedCycles(g: seq<CycleSummary>, k: Corridor): set<int>
  {
    set s | s in g && k.contains(s.lon, s.lat) :: s.cycle
  }

  /** The centroid of cycle `c` of the window lies inside the corridor. */
  predicate CentroidInside(w: seq<TrackPoint>, c: int, k: Corridor)
    requires c in Cycles(w)
  {
    k.contains(Summarize(w, c).lon, Summarize(w, c).lat)
  }

  lemma ContainedCyclesSpec(w: seq<TrackPoint>, k: Corridor)
    ensures forall c :: c in ContainedCycles(GroupByCycle(w), k) <==> c in Cycles(w) && CentroidInside(w, c, k)
  {
    var g := GroupByCycle(w);
    forall c | c in Cycles(w) && CentroidInside(w, c, k)
      ensures c in ContainedCycles(g, k)
    {
      var i :| 0 <= i < |g| && g[i].cycle == c;
      assert g[i] in g;
    }
  }

  /** `cycles_off`: the distinct cycles of the window, in first-appearance order,
      whose centroid the corridor does not contain. */
  function OffCycles(w: seq<TrackPoint>, k: Corridor): (off: seq<int>)
    ensures forall c :: c in off <==> c in Cycles(w) && !CentroidInside(w, c, k)
    ensures forall c :: c in off ==> c !in ContainedCycles(GroupByCycle(w), k)
    ensures InFirstAppearanceOrder(off, Cycles(w))
    ensures NoDuplicates(off)
  {
    ContainedCyclesSpec(w, k);
    var off := Without(Distinct(Cycles(w)), ContainedCycles(GroupByCycle(w), k));
    DistinctOrder(Cycles(w));
    WithoutKeepsOrder(Distinct(Cycles(w)), ContainedCycles(GroupByCycle(w), k), Cycles(w));
    OrderedHasNoDuplicates(off, Cycles(w));
    off
  }

  /** An empty window reports no cycle off the transect. */
  lemma EmptyWindowNothingOff(w: seq<TrackPoint>, k: Corridor)
    requires |w| == 0
    ensures OffCycles(w, k) == []
  {
  }

  /** When every centroid lies inside the corridor, nothing is off the transect. */
  lemma AllInsideNothingOff(w: seq<TrackPoint>, k: Corridor)
    requires forall c :: c in Cycles(w) ==> CentroidInside(w, c, k)
    ensures OffCycles(w, k) == []
  {
    HeadIsMember(OffCycles(w, k));
  }

  /** The distance of every centroid from the corridor, in group order
      (`geo_glider.geometry.apply(lambda g: buffer_df.distance(g))`). */
  function Distances(g: seq<CycleSummary>, k: Corridor): (ds: seq<(int, real)>)
    ensures |ds| == |g|
    ensures forall i :: 0 <= i < |g| ==> ds[i] == (g[i].cycle, k.distance(g[i].lon, g[i].lat))
  {
    seq(|g|, i requires 0 <= i < |g| => (g[i].cycle, k.distance(g[i].lon, g[i].lat)))
  }

  /** What `find_if_on_transect` hands back, with the area it classified. */
  datatype Evaluation = Evaluation(area: Area, cyclesOff: seq<int>, distances: seq<(int, real)>)

  /** The corridor around an area's reference line. */
  function CorridorOf(area: Area, buffLim: int, buffer: Buffer): Corridor
  {
    MissionWaypointsWellFormed();
    buffer(Line(MissionWaypoints[Key(area)]), buffLim)
  }

  /** `find_if_on_transect(ds, buff_lim, time_lim)` evaluated at time `now`;
      it fails exactly when the track cannot be classified. */
  function FindIfOnTransect(t: seq<TrackPoint>, now: int, timeLim: int, buffLim: int, buffer: Buffer)
    : (r: Result<Evaluation, Fault>)
    ensures r.Success? <==> Classifiable(t)
    ensures r.Success? ==> Some(r.value.area) == FindArea(t)
    ensures r.Success? ==>
      var w := Window(t, now, timeLim);
      var k := CorridorOf(r.value.area, buffLim, buffer);
      && (forall c :: c in r.value.cyclesOff <==> c in Cycles(w) && !CentroidInside(w, c, k))
      && InFirstAppearanceOrder(r.value.cyclesOff, Cycles(w))
      && |r.value.distances| == |Distinct(Cycles(w))|
  {
    match Lookup(FindArea(t))
    case Failure(f) => Failure(f)
    case Success(_) =>
      var area := FindArea(t).value;
      var k := CorridorOf(area, buffLim, buffer);
      var w := Window(t, now, timeLim);
      var g := GroupByCycle(w);
      Success(Evaluation(area, OffCycles(w, k), Distances(g, k)))
  }

  /** Entry `i` of the distances is the `i`-th distinct windowed cycle, paired
      with the corridor distance of that cycle's centroid. */
  lemma FindIfOnTransectDistances(t: seq<TrackPoint>, now: int, timeLim: int, buffLim: int, buffer: Buffer)
    requires Classifiable(t)
    ensures var r := FindIfOnTransect(t, now, timeLim, buffLim, buffer);
      var w := Window(t, now, timeLim);
      var k := CorridorOf(r.value.area, buffLim, buffer);
      var cs := Distinct(Cycles(w));
      && |r.value.distances| == |cs|
      && forall i :: 0 <= i < |cs| ==>
           && cs[i] in Cycles(w)
           && r.value.distances[i] == (cs[i], k.distance(Summarize(w, cs[i]).lon, Summarize(w, cs[i]).lat))
  {
    var w := Window(t, now, timeLim);
    var g := GroupByCycle(w);
    var k := CorridorOf(FindArea(t).value, buffLim, buffer);
    assert FindIfOnTransect(t, now, timeLim, buffLim, buffer).value.distances == Distances(g, k);
  }
}
