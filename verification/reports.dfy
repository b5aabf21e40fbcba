/** The main loop of glider_transec_cmd.py: one evaluation per active mission,
    the table of off-transect gliders, the alert messages and the decision to
    mail them. Rendering of numpy arrays and the mail transport are parameters. */
module Reports {
  import opened Wrappers
  import opened Sequences
  import opened Tracks
  import opened Areas
  import opened Transects

  /** `buff_lim` and `time_lim` the main loop passes to `find_if_on_transect`. */
  const BufferMeters: int := 1500
  const WindowHours: int := 8

  /** Length of the log-file suffix `.com.raw.log`, cut from the path. */
  const LogSuffixLength: nat := 12
  /** Length of the glider/mission identifier kept from what remains. */
  const IdLength: nat := 9

  const Subject: string := "Glider-transect-alert"

  // ---------------------------------------------------------------------------
  // Python string slicing with non-negative bounds and with negative bounds

  /** `s[a:b]` for `a, b >= 0`: bounds past the end are clamped. */
  function Slice(s: string, a: nat, b: nat): (r: string)
    ensures |r| <= |s| && (a < b ==> |r| <= b - a) && (b <= a ==> r == [])
    ensures a < b && b <= |s| ==> |r| == b - a
    ensures forall k :: 0 <= k < |r| ==> a + k < |s| && r[k] == s[a + k]
    ensures forall c :: c in r ==> c in s
  {
    var hi := if b < |s| then b else |s|;
    if a < hi then s[a..hi] else []
  }

  /** `s[:-n]` for `n > 0`: everything but the last `n` characters. */
  function DropLast(s: string, n: nat): (r: string)
    requires n > 0
    ensures |r| == if |s| >= n then |s| - n else 0
    ensures r <= s
  {
    if |s| >= n then s[..|s| - n] else []
  }

  /** `s[-n:]` for `n > 0`: the last `n` characters, or all of a shorter string. */
  function TakeLast(s: string, n: nat): (r: string)
    requires n > 0
    ensures |r| == if |s| >= n then n else |s|
    ensures forall k :: 0 <= k < |r| ==> r[k] == s[|s| - |r| + k]
  {
    if |s| >= n then s[|s| - n..] else s
  }

  /** `str(path)[:-12][-9:]`: the glider and mission identifier in the log path. */
  function GliderId(path: string): string
  {
    TakeLast(DropLast(path, LogSuffixLength), IdLength)
  }

  /** The identifier has at most nine characters and is the stretch of the path
      that ends twelve characters before its end. */
  lemma GliderIdSpec(path: string)
    ensures |GliderId(path)| <= IdLength
    ensures |path| >= LogSuffixLength + IdLength ==> |GliderId(path)| == IdLength
    ensures |path| < LogSuffixLength ==> GliderId(path) == []
    ensures |path| >= LogSuffixLength ==> |GliderId(path)| <= |path| - LogSuffixLength
    ensures |path| >= LogSuffixLength ==>
              GliderId(path) == path[|path| - LogSuffixLength - |GliderId(path)|..|path| - LogSuffixLength]
  {
    if |path| >= LogSuffixLength {
      var e := |path| - LogSuffixLength;
      var d := path[..e];
      assert DropLast(path, LogSuffixLength) == d;
      var n := if e >= IdLength then IdLength else e;
      assert TakeLast(d, IdLength) == d[e - n..];
      assert d[e - n..] == path[e - n..e];
    }
  }

  /** A log named `<stem>.com.raw.log` with a nine-character stem yields that stem. */
  lemma {:induction false} GliderIdOfLogName(dir: string, stem: string)
    requires |stem| == IdLength
    ensures GliderId(dir + stem + ".com.raw.log") == stem
  {
    var path := dir + stem + ".com.raw.log";
    assert DropLast(path, LogSuffixLength) == dir + stem;
    assert TakeLast(dir + stem, IdLength) == (dir + stem)[|dir|..];
    assert (dir + stem)[|dir|..] == stem;
  }

  // ---------------------------------------------------------------------------
  // np.round(distance, 0)

  /** Rounds to the nearest integer, ties to the even neighbour (numpy's rule). */
  function RoundHalfEven(x: real): (n: int)
    ensures x - 0.5 <= n as real <= x + 0.5
    ensures (n as real == x - 0.5 || n as real == x + 0.5) ==> n % 2 == 0
  {
    var f := x.Floor;
    var frac := x - f as real;
    if frac < 0.5 then f
    else if frac > 0.5 then f + 1
    else if f % 2 == 0 then f
    else f + 1
  }

  /** Every entry of `r` is a non-zero entry of `ds`, rounded, and every
      non-zero entry of `ds` appears in `r` rounded. */
  predicate RoundedNonZero(ds: seq<(int, real)>, r: seq<(int, int)>)
  {
    && (forall i :: 0 <= i < |r| ==>
          exists j :: 0 <= j < |ds| && ds[j].1 != 0.0 && r[i] == (ds[j].0, RoundHalfEven(ds[j].1)))
    && (forall j :: 0 <= j < |ds| && ds[j].1 != 0.0 ==> (ds[j].0, RoundHalfEven(ds[j].1)) in r)
  }

  /** `np.round(dist_tra.where(dist_tra != 0).dropna(), 0)`: zero distances are
      dropped, the rest rounded, in their original order. */
  function ReportedDistances(ds: seq<(int, real)>): (r: seq<(int, int)>)
    ensures |r| <= |ds|
    ensures RoundedNonZero(ds, r)
  {
    if |ds| == 0 then []
    else
      var init := ds[..|ds| - 1];
      var last := ds[|ds| - 1];
      assert forall j :: 0 <= j < |init| ==> init[j] == ds[j];
      var r := ReportedDistances(init);
      if last.1 != 0.0 then r + [(last.0, RoundHalfEven(last.1))] else r
  }

  /** Zero distances are dropped and the rest kept in their original order:
      reporting a concatenation reports each part. */
  lemma {:induction false} ReportedDistancesAppend(a: seq<(int, real)>, b: seq<(int, real)>)
    ensures ReportedDistances(a + b) == ReportedDistances(a) + ReportedDistances(b)
  {
    if |b| > 0 {
      var init, last := b[..|b| - 1], b[|b| - 1];
      assert b == init + [last];
      assert a + b == (a + init) + [last];
      ReportedDistancesAppend(a, init);
      ReportedDistancesSnoc(a + init, last);
      ReportedDistancesSnoc(init, last);
    } else {
      assert a + b == a;
    }
  }

  /** One more distance is reported, rounded, exactly when it is not zero. */
  lemma ReportedDistancesSnoc(ds: seq<(int, real)>, d: (int, real))
    ensures ReportedDistances(ds + [d])
         == ReportedDistances(ds) + (if d.1 != 0.0 then [(d.0, RoundHalfEven(d.1))] else [])
  {
    assert (ds + [d])[..|ds|] == ds;
  }

  /** Metres of each reported distance (`row.distance.values`). */
  function Meters(ds: seq<(int, int)>): (ms: seq<int>)
    ensures |ms| == |ds|
    ensures forall i :: 0 <= i < |ds| ==> ms[i] == ds[i].1
  {
    seq(|ds|, i requires 0 <= i < |ds| => ds[i].1)
  }

  // ---------------------------------------------------------------------------
  // The table of off-transect gliders

  /** One active mission: the path of its command log and the `$SEAMRS` reports
      read from it. */
  datatype Mission = Mission(path: string, log: seq<RawReport>)

  /** What `find_if_on_transect` made of one mission, with the mission's log path. */
  datatype Outcome = Outcome(path: string, result: Result<Evaluation, Fault>)

  /** One row of `off_glider`. */
  datatype Row = Row(glider: string, cyclesOff: seq<int>, area: Area, distances: seq<(int, int)>)

  /** `act1 = load_cmd(...)` followed by
      `find_if_on_transect(act1, buff_lim=1500, time_lim=8)` for one mission. */
  function Evaluate(m: Mission, now: int, buffer: Buffer): (o: Outcome)
    ensures o.path == m.path
    ensures o.result.Failure? <==> !Classifiable(LoadTrack(m.log))
    ensures o.result.Success? ==> Some(o.result.value.area) == FindArea(LoadTrack(m.log))
  {
    Outcome(m.path, FindIfOnTransect(LoadTrack(m.log), now, WindowHours, BufferMeters, buffer))
  }

  /** The evaluations of all active missions, in mission order. */
  function EvaluateAll(ms: seq<Mission>, now: int, buffer: Buffer): (os: seq<Outcome>)
    ensures |os| == |ms|
    ensures forall i :: 0 <= i < |ms| ==> os[i] == Evaluate(ms[i], now, buffer)
  {
    seq(|ms|, i requires 0 <= i < |ms| => Evaluate(ms[i], now, buffer))
  }

  /** The mission was classified and has at least one cycle off the transect
      (`len(glid_off) != 0`). */
  predicate Flagged(o: Outcome)
  {
    o.result.Success? && |o.result.value.cyclesOff| > 0
  }

  /** The row the loop writes for a flagged mission. */
  function RowOf(o: Outcome): (row: Row)
    requires Flagged(o)
    ensures |row.cyclesOff| > 0 && |row.glider| <= IdLength
    ensures row.area == o.result.value.area && row.cyclesOff == o.result.value.cyclesOff
    ensures '\n' !in o.path ==> '\n' !in row.glider
  {
    GliderIdSpec(o.path);
    var e := o.result.value;
    Row(GliderId(o.path), e.cyclesOff, e.area, ReportedDistances(e.distances))
  }

  /** A row's glider id is the stretch of the log path that ends twelve
      characters before its end, nine characters long for any real log name,
      and its distances are the evaluation's non-zero distances, rounded. */
  lemma RowContents(o: Outcome)
    requires Flagged(o)
    ensures |o.path| < LogSuffixLength ==> RowOf(o).glider == []
    ensures |o.path| >= LogSuffixLength ==> |RowOf(o).glider| <= |o.path| - LogSuffixLength
    ensures |o.path| >= LogSuffixLength ==>
              RowOf(o).glider == o.path[|o.path| - LogSuffixLength - |RowOf(o).glider|..|o.path| - LogSuffixLength]
    ensures |o.path| >= LogSuffixLength + IdLength ==> |RowOf(o).glider| == IdLength
    ensures RoundedNonZero(o.result.value.distances, RowOf(o).distances)
  {
    GliderIdSpec(o.path);
  }

  /** The loop as written: an unclassified mission aborts the whole run
      (`mission_WP[[]]` raises), so no row survives. */
  function RunAsWritten(os: seq<Outcome>): (r: Result<seq<Row>, Fault>)
    ensures r.Failure? <==> exists i :: 0 <= i < |os| && os[i].result.Failure?
  {
    if |os| == 0 then Success([])
    else
      var init := os[..|os| - 1];
      var o := os[|os| - 1];
      assert forall i :: 0 <= i < |init| ==> init[i] == os[i];
      match RunAsWritten(init)
      case Failure(f) => Failure(f)
      case Success(rows) =>
        match o.result
        case Failure(f) => Failure(f)
        case Success(e) =>
          if |e.cyclesOff| != 0 then Success(rows + [RowOf(o)]) else Success(rows)
  }

  /** Whenever the loop as written completes, it produces exactly the rows of the
      corrected loop. */
  lemma {:induction false} RunAsWrittenAgrees(os: seq<Outcome>)
    ensures RunAsWritten(os).Success? ==> RunAsWritten(os).value == Run(os)
  {
    if |os| > 0 {
      var init := os[..|os| - 1];
      assert forall i :: 0 <= i < |init| ==> init[i] == os[i];
      RunAsWrittenAgrees(init);
    }
  }

  /** The loop with the crash removed: an unclassified mission is skipped and the
      others are still reported. One row per flagged mission, in mission order. */
  function Run(os: seq<Outcome>): (rows: seq<Row>)
    ensures |rows| <= |os|
  {
    if |os| == 0 then []
    else
      var rows := Run(os[..|os| - 1]);
      var o := os[|os| - 1];
      if Flagged(o) then rows + [RowOf(o)] else rows
  }

  /** A row is in the table exactly when it is the row of a flagged mission. */
  lemma {:induction false} RunMembers(os: seq<Outcome>)
    ensures forall row :: row in Run(os) ==> exists i :: 0 <= i < |os| && Flagged(os[i]) && row == RowOf(os[i])
    ensures forall i :: 0 <= i < |os| && Flagged(os[i]) ==> RowOf(os[i]) in Run(os)
  {
    if |os| > 0 {
      var init, o := os[..|os| - 1], os[|os| - 1];
      RunMembers(init);
      var rows := Run(init);
      assert os == init + [o];
      RunSnoc(init, o);
      forall row | row in Run(os)
        ensures exists i :: 0 <= i < |os| && Flagged(os[i]) && row == RowOf(os[i])
      {
        if row in rows {
          var i :| 0 <= i < |init| && Flagged(init[i]) && row == RowOf(init[i]);
          assert os[i] == init[i];
        } else {
          assert Flagged(os[|os| - 1]) && row == RowOf(os[|os| - 1]);
        }
      }
      forall i | 0 <= i < |os| && Flagged(os[i])
        ensures RowOf(os[i]) in Run(os)
      {
        if i < |init| {
          assert os[i] == init[i];
        }
      }
    }
  }

  /** One more mission adds its row exactly when it is flagged. */
  lemma RunSnoc(os: seq<Outcome>, o: Outcome)
    ensures Run(os + [o]) == Run(os) + (if Flagged(o) then [RowOf(o)] else [])
  {
    assert (os + [o])[..|os|] == os;
  }

  /** Every row names a glider and lists at least one off cycle, and the table
      is empty exactly when no mission is flagged. */
  lemma RunRows(os: seq<Outcome>)
    ensures forall row :: row in Run(os) ==> |row.cyclesOff| > 0 && |row.glider| <= IdLength
    ensures |Run(os)| == 0 <==> forall i :: 0 <= i < |os| ==> !Flagged(os[i])
  {
    RunMembers(os);
    var rows := Run(os);
    if |rows| > 0 {
      assert rows[0] in rows;
    }
  }

  /** Missions are reported independently of each other: the rows of two batches
      of missions are the rows of the first followed by those of the second. */
  lemma {:induction false} RunCompositional(a: seq<Outcome>, b: seq<Outcome>)
    ensures Run(a + b) == Run(a) + Run(b)
  {
    if |b| > 0 {
      var init := b[..|b| - 1];
      assert (a + b)[..|a + b| - 1] == a + init;
      assert (a + b)[|a + b| - 1] == b[|b| - 1];
      RunCompositional(a, init);
    } else {
      assert a + b == a;
    }
  }

  /** An unclassified mission leaves the corrected run's rows unchanged but makes
      the run as written fail, whatever missions come before it. */
  lemma UnclassifiedMissionAbortsRun(os: seq<Outcome>, m: Mission, now: int, buffer: Buffer)
    requires !Classifiable(LoadTrack(m.log))
    ensures RunAsWritten(os + [Evaluate(m, now, buffer)]).Failure?
    ensures Run(os + [Evaluate(m, now, buffer)]) == Run(os)
  {
    var all := os + [Evaluate(m, now, buffer)];
    assert all[|all| - 1] == Evaluate(m, now, buffer);
    assert all[..|all| - 1] == os;
  }

  /** A flagged glider followed by an unclassified one: the run as written
      reports nothing, the corrected run reports the flagged glider.
      `FirstMissionFlagged` and `SecondMissionUnclassified` give a concrete pair. */
  lemma CrashLosesAlert(m1: Mission, m2: Mission, now: int, buffer: Buffer)
    requires Flagged(Evaluate(m1, now, buffer))
    requires !Classifiable(LoadTrack(m2.log))
    ensures RunAsWritten([Evaluate(m1, now, buffer), Evaluate(m2, now, buffer)]).Failure?
    ensures Run([Evaluate(m1, now, buffer), Evaluate(m2, now, buffer)]) == [RowOf(Evaluate(m1, now, buffer))]
  {
    FlaggedThenFailed(Evaluate(m1, now, buffer), Evaluate(m2, now, buffer));
  }

  /** The outcome-level core of `CrashLosesAlert`. */
  lemma FlaggedThenFailed(o1: Outcome, o2: Outcome)
    requires Flagged(o1)
    requires o2.result.Failure?
    ensures RunAsWritten([o1, o2]).Failure?
    ensures Run([o1, o2]) == [RowOf(o1)]
  {
    assert [o1, o2][..1] == [o1];
    assert [o1, o2][1].result.Failure?;
    SingleFlaggedRun(o1);
  }

  lemma SingleFlaggedRun(o: Outcome)
    requires Flagged(o)
    ensures Run([o]) == [RowOf(o)]
  {
    assert [o][..0] == [];
  }

  /** The concrete lost alert: a glider off its SAMBA_01 line followed by a
      glider that matches no area. */
  lemma LostAlertExample(buffer: Buffer)
    requires forall l: seq<(real, real)>, b: int :: !buffer(l, b).contains(11.0, 58.0)
    ensures Flagged(Evaluate(FlaggedMission, 0, buffer))
    ensures RunAsWritten([Evaluate(FlaggedMission, 0, buffer), Evaluate(UnclassifiedMission, 0, buffer)]).Failure?
    ensures Run([Evaluate(FlaggedMission, 0, buffer), Evaluate(UnclassifiedMission, 0, buffer)])
              == [RowOf(Evaluate(FlaggedMission, 0, buffer))]
  {
    FirstMissionFlagged(buffer);
    SecondMissionUnclassified();
    CrashLosesAlert(FlaggedMission, UnclassifiedMission, 0, buffer);
  }

  /** A glider whose one report puts it at 11 E, 58 N (packed 1100.0, 5800.0). */
  const FlaggedMission: Mission := Mission("sea069.34.com.raw.log", [RawReport(0, 1, 1100.0, 5800.0)])

  /** A glider whose one report puts it at 15 E, 58 N (packed 1500.0, 5800.0). */
  const UnclassifiedMission: Mission := Mission("sea066.12.com.raw.log", [RawReport(0, 1, 1500.0, 5800.0)])

  /** Whole degrees packed with zero minutes read back as those degrees. */
  lemma WholeDegrees(d: int)
    ensures Coordinates.DdCoord(100.0 * d as real) == d as real
  {
    Coordinates.DdCoordOfPacked(d, 0.0);
  }

  /** The second glider of `CrashLosesAlert` matches no area. */
  lemma SecondMissionUnclassified()
    ensures LoadTrack(UnclassifiedMission.log) == [TrackPoint(0, 1, 15.0, 58.0)]
    ensures !Classifiable(LoadTrack(UnclassifiedMission.log))
  {
    WholeDegrees(15);
    WholeDegrees(58);
    var t2 := [TrackPoint(0, 1, 15.0, 58.0)];
    assert LoadTrack(UnclassifiedMission.log) == t2;
    assert Lons(t2) == [15.0] && Lats(t2) == [58.0];
    assert Mean([15.0]) == 15.0 && Mean([58.0]) == 58.0;
  }

  /** The first glider of `CrashLosesAlert` is classified SAMBA_01 and flagged. */
  lemma FirstMissionFlagged(buffer: Buffer)
    requires forall l: seq<(real, real)>, b: int :: !buffer(l, b).contains(11.0, 58.0)
    ensures LoadTrack(FlaggedMission.log) == [TrackPoint(0, 1, 11.0, 58.0)]
    ensures Flagged(Evaluate(FlaggedMission, 0, buffer))
  {
    WholeDegrees(11);
    WholeDegrees(58);
    var t1 := [TrackPoint(0, 1, 11.0, 58.0)];
    assert LoadTrack(FlaggedMission.log) == t1;
    OffTrackFlagged(t1[0], buffer);
  }

  /** A one-point track at 11 E, 58 N lies in SAMBA_01, and its only cycle is
      off any corridor that does not contain that point. */
  lemma OffTrackFlagged(p: TrackPoint, buffer: Buffer)
    requires p == TrackPoint(0, 1, 11.0, 58.0)
    requires forall l: seq<(real, real)>, b: int :: !buffer(l, b).contains(11.0, 58.0)
    ensures FindIfOnTransect([p], 0, WindowHours, BufferMeters, buffer).Success?
    ensures FindIfOnTransect([p], 0, WindowHours, BufferMeters, buffer).value.area == Samba01
    ensures 1 in FindIfOnTransect([p], 0, WindowHours, BufferMeters, buffer).value.cyclesOff
  {
    SinglePointCentroid(p, 0, WindowHours);
    assert Mean(Lons([p])) == 11.0 && Mean(Lats([p])) == 58.0;
    assert FindArea([p]) == Some(Samba01);
    assert !CentroidInside([p], 1, CorridorOf(Samba01, BufferMeters, buffer));
  }

  /** Under a sound geometry oracle every reported distance belongs to a cycle
      reported off the transect and is a non-negative whole number of metres.
      It can be 0: a non-zero distance below half a metre survives the zero
      filter and is then rounded to 0. */
  lemma ReportedDistancesAreOff(m: Mission, now: int, buffer: Buffer)
    requires Flagged(Evaluate(m, now, buffer))
    requires ValidCorridor(CorridorOf(Evaluate(m, now, buffer).result.value.area, BufferMeters, buffer))
    requires ConsistentCorridor(CorridorOf(Evaluate(m, now, buffer).result.value.area, BufferMeters, buffer))
    ensures forall d :: d in RowOf(Evaluate(m, now, buffer)).distances ==>
              d.0 in RowOf(Evaluate(m, now, buffer)).cyclesOff && d.1 >= 0
  {
    var e := Evaluate(m, now, buffer).result.value;
    var k := CorridorOf(e.area, BufferMeters, buffer);
    var w := Window(LoadTrack(m.log), now, WindowHours);
    var g := GroupByCycle(w);
    assert e.distances == Distances(g, k);
    var r := ReportedDistances(e.distances);
    forall d | d in r
      ensures d.0 in e.cyclesOff && d.1 >= 0
    {
      var i :| 0 <= i < |r| && r[i] == d;
      var j :| 0 <= j < |e.distances| && e.distances[j].1 != 0.0 && r[i] == (e.distances[j].0, RoundHalfEven(e.distances[j].1));
      assert e.distances[j] == (g[j].cycle, k.distance(g[j].lon, g[j].lat));
      assert !k.contains(g[j].lon, g[j].lat);
      assert g[j] == Summarize(w, g[j].cycle);
      assert k.distance(g[j].lon, g[j].lat) >= 0.0;
    }
  }

  // ---------------------------------------------------------------------------
  // Messages and dispatch

  /** How numpy prints the arrays of dive numbers and of metres. */
  datatype Render = Render(dives: seq<int> -> string, meters: seq<int> -> string)

  /** The alert line for one row. It opens with "The glider SEA", and it holds a
      line break exactly when one of the two pieces of the glider id or one of
      the rendered arrays does. */
  function Format(row: Row, render: Render): (msg: string)
    ensures "The glider SEA" <= msg
    ensures '\n' in msg <==>
              || '\n' in Slice(row.glider, 3, 6) || '\n' in Slice(row.glider, 7, 10)
              || '\n' in render.dives(row.cyclesOff) || '\n' in render.meters(Meters(row.distances))
  {
    var g1, g2 := Slice(row.glider, 3, 6), Slice(row.glider, 7, 10);
    var dives, meters := render.dives(row.cyclesOff), render.meters(Meters(row.distances));
    var w1, w2, w3, w4, w5 := "The glider SEA", "_M", " is off the transect at dives ", " at a distance ", " m ";
    assert '\n' !in w1 && '\n' !in w2 && '\n' !in w3 && '\n' !in w4 && '\n' !in w5;
    w1 + g1 + w2 + g2 + w3 + dives + w4 + meters + w5
  }

  /** A log `sea<nnn>.<mm>.com.raw.log` produces a message that names the glider
      `SEA<nnn>_M<mm>`. */
  lemma MessageNamesGlider(dir: string, serial: string, mission: string, row: Row, render: Render)
    requires |serial| == 3 && |mission| == 2
    requires row.glider == GliderId(dir + "sea" + serial + "." + mission + ".com.raw.log")
    ensures Format(row, render) == "The glider SEA" + serial + "_M" + mission
              + " is off the transect at dives " + render.dives(row.cyclesOff)
              + " at a distance " + render.meters(Meters(row.distances)) + " m "
  {
    var stem := "sea" + serial + "." + mission;
    assert dir + "sea" + serial + "." + mission + ".com.raw.log" == dir + stem + ".com.raw.log";
    GliderIdOfLogName(dir, stem);
    StemParts(serial, mission);
  }

  /** The serial and mission number sit at positions 3-5 and 7-8 of the stem. */
  lemma StemParts(serial: string, mission: string)
    requires |serial| == 3 && |mission| == 2
    ensures Slice("sea" + serial + "." + mission, 3, 6) == serial
    ensures Slice("sea" + serial + "." + mission, 7, 10) == mission
  {
    var stem := "sea" + serial + "." + mission;
    assert |stem| == 9;
    assert forall k :: 0 <= k < 3 ==> stem[3 + k] == serial[k];
    assert forall k :: 0 <= k < 2 ==> stem[7 + k] == mission[k];
    assert Slice(stem, 3, 6) == stem[3..6];
    assert Slice(stem, 7, 10) == stem[7..9];
  }

  function Messages(rows: seq<Row>, render: Render): (ms: seq<string>)
    ensures |ms| == |rows|
    ensures forall i :: 0 <= i < |rows| ==> ms[i] == Format(rows[i], render)
  {
    seq(|rows|, i requires 0 <= i < |rows| => Format(rows[i], render))
  }

  /** `'\n'.join(final_text)`: no text for no messages, otherwise the first
      message comes first, and when no message holds a line break of its own
      the text holds one exactly when there are several messages. */
  function Join(ms: seq<string>): (s: string)
    ensures |ms| == 0 ==> s == ""
    ensures |ms| > 0 ==> ms[0] <= s
    ensures (forall i :: 0 <= i < |ms| ==> '\n' !in ms[i]) ==> ('\n' in s <==> |ms| > 1)
  {
    if |ms| == 0 then ""
    else if |ms| == 1 then ms[0]
    else ms[0] + "\n" + Join(ms[1..])
  }

  /** Position of the first line break of a text. */
  function LineEnd(s: string): (i: nat)
    requires '\n' in s
    ensures i < |s| && s[i] == '\n'
    ensures '\n' !in s[..i]
  {
    if s[0] == '\n' then 0
    else
      assert s == [s[0]] + s[1..];
      var i := LineEnd(s[1..]);
      assert s[..i + 1] == [s[0]] + s[1..][..i];
      i + 1
  }

  /** `text.split('\n')`. */
  function Split(s: string): (parts: seq<string>)
    ensures |parts| > 0
    decreases |s|
  {
    if '\n' in s then
      var i := LineEnd(s);
      [s[..i]] + Split(s[i + 1..])
    else [s]
  }

  lemma FirstLine(m: string, rest: string)
    requires '\n' !in m
    ensures '\n' in m + "\n" + rest
    ensures LineEnd(m + "\n" + rest) == |m|
    ensures (m + "\n" + rest)[..|m|] == m && (m + "\n" + rest)[|m| + 1..] == rest
  {
    var s := m + "\n" + rest;
    assert s[|m|] == '\n';
    assert s[..|m|] == m;
    var i := LineEnd(s);
    assert forall j :: 0 <= j < |m| ==> s[j] == m[j];
  }

  /** Splitting the joined text at line breaks recovers the messages, provided
      no message holds a line break of its own. */
  lemma {:induction false} SplitJoin(ms: seq<string>)
    requires |ms| > 0
    requires forall i :: 0 <= i < |ms| ==> '\n' !in ms[i]
    ensures Split(Join(ms)) == ms
  {
    if |ms| > 1 {
      var rest := Join(ms[1..]);
      var s := ms[0] + "\n" + rest;
      assert Join(ms) == s;
      FirstLine(ms[0], rest);
      assert Split(s) == [ms[0]] + Split(rest);
      SplitJoin(ms[1..]);
      assert ms == [ms[0]] + ms[1..];
    } else {
      assert Join(ms) == ms[0];
    }
  }

  /** One mail handed to the `send_mail.sh` collaborator. */
  datatype Mail = Mail(text: string, subject: string, recipient: string)

  /** The same joined text goes to every recipient, and nothing is sent when
      there are no messages. */
  function Dispatch(ms: seq<string>, recipients: seq<string>): (mails: seq<Mail>)
    ensures |ms| == 0 ==> mails == []
    ensures |ms| > 0 ==> |mails| == |recipients|
    ensures forall i :: 0 <= i < |mails| ==>
              mails[i] == Mail(Join(ms), Subject, recipients[i])
  {
    if |ms| == 0 then []
    else seq(|recipients|, i requires 0 <= i < |recipients| => Mail(Join(ms), Subject, recipients[i]))
  }

  /** The mails one run sends. */
  function Alerts(os: seq<Outcome>, render: Render, recipients: seq<string>): seq<Mail>
  {
    Dispatch(Messages(Run(os), render), recipients)
  }

  /** A run mails every recipient exactly when some mission is flagged; nothing
      is sent otherwise. */
  lemma AlertsIffFlagged(os: seq<Outcome>, render: Render, recipients: seq<string>)
    ensures |Alerts(os, render, recipients)| > 0
        <==> |recipients| > 0 && exists i :: 0 <= i < |os| && Flagged(os[i])
    ensures forall mail :: mail in Alerts(os, render, recipients) ==>
              mail.subject == Subject && mail.recipient in recipients
  {
    RunRows(os);
  }

  /** Each mail carries one line per flagged mission: splitting its text at line
      breaks gives back the messages, when neither the rendered arrays nor the
      log paths contain a line break. */
  lemma AlertTextSplits(os: seq<Outcome>, render: Render, recipients: seq<string>)
    requires forall s: seq<int> :: '\n' !in render.dives(s) && '\n' !in render.meters(s)
    requires forall i :: 0 <= i < |os| ==> '\n' !in os[i].path
    ensures forall mail :: mail in Alerts(os, render, recipients) ==>
              Split(mail.text) == Messages(Run(os), render)
  {
    var ms := Messages(Run(os), render);
    MessagesHaveNoLineBreaks(os, render);
    if |ms| > 0 {
      SplitJoin(ms);
    }
  }

  /** No alert line holds a line break when neither the rendered arrays nor the
      log paths do. */
  lemma MessagesHaveNoLineBreaks(os: seq<Outcome>, render: Render)
    requires forall s: seq<int> :: '\n' !in render.dives(s) && '\n' !in render.meters(s)
    requires forall i :: 0 <= i < |os| ==> '\n' !in os[i].path
    ensures forall i :: 0 <= i < |Run(os)| ==> '\n' !in Messages(Run(os), render)[i]
  {
    var rows := Run(os);
    RunMembers(os);
    forall k | 0 <= k < |rows|
      ensures '\n' !in Format(rows[k], render)
    {
      var row := rows[k];
      assert row in rows;
      var i :| 0 <= i < |os| && Flagged(os[i]) && row == RowOf(os[i]);
      assert '\n' !in row.glider;
    }
  }

}
