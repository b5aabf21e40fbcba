/** Glider tracks: the position reports recovered from a command log, the
    trailing time window, and the per-cycle centroids (`groupby('cycle').mean()`)
    of glider_transec_cmd.py. */
module Tracks {
  import opened Sequences
  import Coordinates

  const SecondsPerHour: int := 3600

  /** One `$SEAMRS` report as the log parser delivers it: time in seconds,
      dive cycle, and packed (`ddmm.mmm`) longitude and latitude. */
  datatype RawReport = RawReport(time: int, cycle: int, packedLon: real, packedLat: real)

  /** One position of the glider in decimal degrees. */
  datatype TrackPoint = TrackPoint(time: int, cycle: int, lon: real, lat: real)

  /** Centroid of the positions of one dive cycle. */
  datatype CycleSummary = CycleSummary(cycle: int, lon: real, lat: real)

  /** The row `load_cmd` builds from one report: both coordinates through `dd_coord`. */
  function Normalize(r: RawReport): TrackPoint
  {
    TrackPoint(r.time, r.cycle, Coordinates.DdCoord(r.packedLon), Coordinates.DdCoord(r.packedLat))
  }

  /** The report a track point was read from, coordinates re-packed. */
  function Denormalize(p: TrackPoint): RawReport
  {
    RawReport(p.time, p.cycle, Coordinates.ToPacked(p.lon), Coordinates.ToPacked(p.lat))
  }

  /** A report is recovered from its track point exactly when both packed
      coordinates are well formed. */
  lemma NormalizeRoundTrip(r: RawReport)
    ensures Denormalize(Normalize(r)) == r
        <==> Coordinates.WellFormed(r.packedLon) && Coordinates.WellFormed(r.packedLat)
  {
    Coordinates.ToPackedOfDdCoord(r.packedLon);
    Coordinates.ToPackedOfDdCoord(r.packedLat);
  }

  /** Every track point is recovered from its re-packed report. */
  lemma DenormalizeRoundTrip(p: TrackPoint)
    ensures Normalize(Denormalize(p)) == p
  {
    Coordinates.DdCoordOfToPacked(p.lon);
    Coordinates.DdCoordOfToPacked(p.lat);
  }

  /** The whole track `load_cmd` returns, one point per report, in log order:
      time and cycle unchanged, both coordinates in decimal degrees. */
  function LoadTrack(rs: seq<RawReport>): (t: seq<TrackPoint>)
    ensures |t| == |rs|
    ensures forall i :: 0 <= i < |rs| ==> t[i].time == rs[i].time && t[i].cycle == rs[i].cycle
    ensures forall i :: 0 <= i < |rs| ==>
              t[i].lon == Coordinates.DdCoord(rs[i].packedLon) && t[i].lat == Coordinates.DdCoord(rs[i].packedLat)
  {
    seq(|rs|, i requires 0 <= i < |rs| => Normalize(rs[i]))
  }

  /** The reports are recovered from the loaded track exactly when every packed
      coordinate in them is well formed. */
  lemma LoadTrackRoundTrip(rs: seq<RawReport>)
    ensures (forall i :: 0 <= i < |rs| ==> Denormalize(LoadTrack(rs)[i]) == rs[i])
        <==> forall i :: 0 <= i < |rs| ==>
               Coordinates.WellFormed(rs[i].packedLon) && Coordinates.WellFormed(rs[i].packedLat)
  {
    var t := LoadTrack(rs);
    forall i | 0 <= i < |rs|
      ensures Denormalize(t[i]) == rs[i]
          <==> Coordinates.WellFormed(rs[i].packedLon) && Coordinates.WellFormed(rs[i].packedLat)
    {
      assert t[i] == Normalize(rs[i]);
      NormalizeRoundTrip(rs[i]);
    }
  }

  /** The cycle column of a track. */
  function Cycles(t: seq<TrackPoint>): (cs: seq<int>)
    ensures |cs| == |t|
    ensures forall i :: 0 <= i < |t| ==> cs[i] == t[i].cycle
  {
    seq(|t|, i requires 0 <= i < |t| => t[i].cycle)
  }

  function Lons(t: seq<TrackPoint>): (xs: seq<real>)
    ensures |xs| == |t|
    ensures forall i :: 0 <= i < |t| ==> xs[i] == t[i].lon
  {
    seq(|t|, i requires 0 <= i < |t| => t[i].lon)
  }

  function Lats(t: seq<TrackPoint>): (xs: seq<real>)
    ensures |xs| == |t|
    ensures forall i :: 0 <= i < |t| ==> xs[i] == t[i].lat
  {
    seq(|t|, i requires 0 <= i < |t| => t[i].lat)
  }

  predicate NonDecreasing(cs: seq<int>)
  {
    forall i, j :: 0 <= i <= j < |cs| ==> cs[i] <= cs[j]
  }

  /** A point is recent when it is strictly newer than `now - hours`. */
  predicate Recent(p: TrackPoint, now: int, hours: int)
  {
    p.time > now - hours * SecondsPerHour
  }

  /** The rows of the track newer than `now - hours`, in track order
      (`ds.where(ds.time > now - timedelta(hours=time_lim)).dropna()`). */
  function Window(t: seq<TrackPoint>, now: int, hours: int): (w: seq<TrackPoint>)
    ensures forall p :: p in w <==> p in t && Recent(p, now, hours)
    ensures forall p :: multiset(w)[p] == if Recent(p, now, hours) then multiset(t)[p] else 0
    ensures |w| <= |t|
  {
    if |t| == 0 then []
    else
      var init := t[..|t| - 1];
      assert t == init + [t[|t| - 1]];
      var w := Window(init, now, hours);
      if Recent(t[|t| - 1], now, hours) then w + [t[|t| - 1]] else w
  }

  /** The window keeps track order: windowing a concatenation windows each part
      and concatenates the results. */
  lemma {:induction false} WindowAppend(a: seq<TrackPoint>, b: seq<TrackPoint>, now: int, hours: int)
    ensures Window(a + b, now, hours) == Window(a, now, hours) + Window(b, now, hours)
  {
    if |b| > 0 {
      var init, last := b[..|b| - 1], b[|b| - 1];
      assert b == init + [last];
      assert a + b == (a + init) + [last];
      WindowAppend(a, init, now, hours);
      WindowSnoc(a + init, last, now, hours);
      WindowSnoc(init, last, now, hours);
    } else {
      assert a + b == a;
    }
  }

  /** Appending one point to a track appends it to the window exactly when it
      is recent. */
  lemma WindowSnoc(t: seq<TrackPoint>, p: TrackPoint, now: int, hours: int)
    ensures Window(t + [p], now, hours) == Window(t, now, hours) + (if Recent(p, now, hours) then [p] else [])
  {
    assert (t + [p])[..|t|] == t;
  }

  /** The window keeps a non-decreasing cycle column non-decreasing. */
  lemma {:induction false} WindowKeepsCycleOrder(t: seq<TrackPoint>, now: int, hours: int)
    requires NonDecreasing(Cycles(t))
    ensures NonDecreasing(Cycles(Window(t, now, hours)))
  {
    if |t| > 0 {
      var init := t[..|t| - 1];
      assert t == init + [t[|t| - 1]];
      assert forall i :: 0 <= i < |init| ==> Cycles(init)[i] == Cycles(t)[i];
      WindowKeepsCycleOrder(init, now, hours);
      var w := Window(init, now, hours);
      if Recent(t[|t| - 1], now, hours) {
        var w' := w + [t[|t| - 1]];
        forall i, j | 0 <= i <= j < |w'|
          ensures Cycles(w')[i] <= Cycles(w')[j]
        {
          if j == |w| && i < |w| {
            assert w'[i] in init;
            var k :| 0 <= k < |init| && init[k] == w'[i];
            assert Cycles(t)[k] <= Cycles(t)[|t| - 1];
          } else if j < |w| {
            assert Cycles(w')[i] == Cycles(w)[i] && Cycles(w')[j] == Cycles(w)[j];
          }
        }
      }
    }
  }

  /** The rows of one dive cycle, in track order. */
  function PointsOf(t: seq<TrackPoint>, c: int): (ps: seq<TrackPoint>)
    ensures forall p :: p in ps <==> p in t && p.cycle == c
    ensures forall p :: multiset(ps)[p] == if p.cycle == c then multiset(t)[p] else 0
  {
    if |t| == 0 then []
    else
      var init := t[..|t| - 1];
      assert t == init + [t[|t| - 1]];
      var ps := PointsOf(init, c);
      if t[|t| - 1].cycle == c then ps + [t[|t| - 1]] else ps
  }

  lemma PointsOfNonEmpty(t: seq<TrackPoint>, c: int)
    requires c in Cycles(t)
    ensures |PointsOf(t, c)| > 0
  {
    var i :| 0 <= i < |t| && Cycles(t)[i] == c;
    assert t[i] in PointsOf(t, c);
  }

  /** The centroid of cycle `c`: the mean longitude and latitude of its rows. */
  function Summarize(t: seq<TrackPoint>, c: int): (s: CycleSummary)
    requires c in Cycles(t)
    ensures s.cycle == c
  {
    PointsOfNonEmpty(t, c);
    var ps := PointsOf(t, c);
    CycleSummary(c, Mean(Lons(ps)), Mean(Lats(ps)))
  }

  /** One centroid per distinct cycle, in first-appearance order
      (`sub_glider.groupby('cycle').mean()`). */
  function GroupByCycle(t: seq<TrackPoint>): (g: seq<CycleSummary>)
    ensures |g| == |Distinct(Cycles(t))|
    ensures forall i :: 0 <= i < |g| ==> g[i].cycle == Distinct(Cycles(t))[i]
    ensures forall i :: 0 <= i < |g| ==> g[i].cycle in Cycles(t) && g[i] == Summarize(t, g[i].cycle)
    ensures forall i, j :: 0 <= i < j < |g| ==> g[i].cycle != g[j].cycle
    ensures forall c :: c in Cycles(t) ==> exists i :: 0 <= i < |g| && g[i].cycle == c
  {
    var d := Distinct(Cycles(t));
    assert forall i :: 0 <= i < |d| ==> d[i] in Cycles(t);
    seq(|d|, i requires 0 <= i < |d| => Summarize(t, d[i]))
  }

  /** Each centroid lies between the least and greatest longitude, and the least
      and greatest latitude, that its cycle's rows report. */
  lemma SummaryWithinCycleBounds(t: seq<TrackPoint>, c: int)
    requires c in Cycles(t)
    ensures |PointsOf(t, c)| > 0
    ensures Min(Lons(PointsOf(t, c))) <= Summarize(t, c).lon <= Max(Lons(PointsOf(t, c)))
    ensures Min(Lats(PointsOf(t, c))) <= Summarize(t, c).lat <= Max(Lats(PointsOf(t, c)))
  {
    PointsOfNonEmpty(t, c);
    MeanBetweenMinMax(Lons(PointsOf(t, c)));
    MeanBetweenMinMax(Lats(PointsOf(t, c)));
  }

  /** When the track's cycles never decrease (dive cycles are sequential), the
      first-appearance order of the centroids is ascending numeric order. That
      matches the order of pandas' `groupby` on the text cycle ids only while
      all ids have the same number of digits. */
  lemma GroupsAscending(t: seq<TrackPoint>, now: int, hours: int)
    requires NonDecreasing(Cycles(t))
    ensures forall i, j :: 0 <= i < j < |GroupByCycle(Window(t, now, hours))| ==>
              GroupByCycle(Window(t, now, hours))[i].cycle < GroupByCycle(Window(t, now, hours))[j].cycle
  {
    var w := Window(t, now, hours);
    WindowKeepsCycleOrder(t, now, hours);
    DistinctOrder(Cycles(w));
    OrderedOfSortedIsAscending(Distinct(Cycles(w)), Cycles(w));
  }

  /** A track of one recent point has that point as its window and as the
      centroid of its cycle. */
  lemma SinglePointCentroid(p: TrackPoint, now: int, hours: int)
    requires Recent(p, now, hours)
    ensures Window([p], now, hours) == [p]
    ensures Cycles([p]) == [p.cycle]
    ensures Summarize([p], p.cycle) == CycleSummary(p.cycle, p.lon, p.lat)
  {
    WindowSnoc([], p, now, hours);
    assert [] + [p] == [p];
    SingleCentroid(p);
  }

  /** The centroid of the cycle of a one-point track is that point. */
  lemma SingleCentroid(p: TrackPoint)
    ensures p.cycle in Cycles([p])
    ensures Summarize([p], p.cycle) == CycleSummary(p.cycle, p.lon, p.lat)
  {
    assert Cycles([p])[0] == p.cycle;
    PointsOfOne(p);
    assert Lons([p]) == [p.lon] && Lats([p]) == [p.lat];
    MeanOfOne(p.lon);
    MeanOfOne(p.lat);
  }

  /** The only point of a one-point track is the only row of its cycle. */
  lemma PointsOfOne(p: TrackPoint)
    ensures PointsOf([p], p.cycle) == [p]
  {
    assert [p][..0] == [];
  }
}
