# Glider transect alert: a Dafny model

This project models the decision logic of `glider_transec_cmd.py`. That script runs periodically and checks the SeaExplorer gliders of the SAMBA monitoring programme. Each active glider's command log yields its recent `$SEAMRS` position reports. The script assigns the glider to one of five SAMBA transects by its mean position. It then keeps the reports of the last 8 hours and averages them per dive cycle. Any cycle whose centroid lies outside a 1500 m buffer around the transect line is off the transect, and for every glider with such a cycle a line of text is mailed to the operators.

The model has seven modules, one file each:

- `Wrappers` (`wrappers.dfy`): `Option` and `Result`.
- `Sequences` (`sequences.dfy`): sums, means and extrema. Also `Distinct`, which de-duplicates in first-appearance order like pandas' `unique()`, and `Without`, which removes elements while keeping order like `r[np.isin(r, out) == False]`.
- `Coordinates` (`coordinates.dfy`): `dd_coord`, which converts packed `ddmm.mmm` values to decimal degrees, and its inverse.
- `Tracks` (`tracks.dfy`): reports and track points, the trailing time window, and the per-cycle centroids of `groupby('cycle').mean()`.
- `Areas` (`areas.dfy`): the `mission_WP` waypoint table and the `find_area` threshold chain. An unclassified track comes back as `None`, which stands for the source's `[]` sentinel.
- `Transects` (`transects.dfy`): `find_if_on_transect`. The GIS library (reprojection to EPSG:3006, buffering, `sjoin(contains)`, `distance`) is an abstract `Corridor` oracle that answers `contains(lon, lat)` and `distance(lon, lat)`. Callers supply it through a `Buffer` function of the transect line and the margin. The proofs cover how the script combines the oracle's answers: which cycles count as off, in what order, and which distance belongs to which cycle.
- `Reports` (`reports.dfy`): the main loop. It builds the table of off-transect gliders, drops zero distances, rounds the rest half-to-even, and slices the glider id out of the log path. It then formats one message per flagged glider, joins them with `'\n'`, and builds one mail per recipient, only when there is at least one message.

The distance list covers every windowed cycle's centroid. Entries exactly 0 are removed afterwards, so an off cycle lying on the buffer boundary keeps no distance. The rest are rounded to whole metres, so a cycle less than half a metre outside the buffer is reported at a distance of 0 m.

The script keeps no state between runs. Every run re-evaluates every active mission and mails every flagged glider again.

## Model

| member | source | states |
|---|---|---|
| Coordinates.DdCoord | glider_transec_cmd.py:66-70 | `dd_coord(x)` lies in [x // 100, x // 100 + 100/60) |
| Coordinates.Minutes | glider_transec_cmd.py:67-68 | the minute part `x - 100*(x//100)` lies in [0, 100) and, with the floored degrees, adds back up to `x` |
| Coordinates.DdCoordOfPacked | glider_transec_cmd.py:66-70 | for integer `d` and `0 <= m < 100`, `dd_coord(100*d + m) == d + m/60` |
| Coordinates.FloorOfDdCoord | glider_transec_cmd.py:66-70 | when the minute part is below 60, the integer part of the result is `x // 100` |
| Coordinates.DdCoordMonotone | glider_transec_cmd.py:66-70 | `dd_coord` is non-decreasing over well-formed packed values |
| Coordinates.MalformedNotMonotone | glider_transec_cmd.py:66-70 | without the minute < 60 condition, monotonicity fails: `dd_coord(99) > dd_coord(100)` |
| Coordinates.ToPacked | glider_transec_cmd.py:66-70 | re-packing a decimal-degree value gives a well-formed packed value with the same whole degrees |
| Coordinates.DdCoordOfToPacked | glider_transec_cmd.py:66-70 | converting a re-packed value gives back the decimal degrees |
| Coordinates.ToPackedOfDdCoord | glider_transec_cmd.py:66-70 | a packed value survives conversion and re-packing exactly when its minute part is below 60 |
| Tracks.NormalizeRoundTrip | glider_transec_cmd.py:72-75 | a report is recovered from its track point iff both of its packed coordinates are well formed |
| Tracks.DenormalizeRoundTrip | glider_transec_cmd.py:72-75 | every track point is recovered from its re-packed report |
| Tracks.LoadTrack | glider_transec_cmd.py:72-75 | one point per report in log order, time and cycle unchanged, each coordinate converted by `dd_coord` |
| Tracks.LoadTrackRoundTrip | glider_transec_cmd.py:72-75 | re-packing the loaded track gives back every report exactly when all packed coordinates have a minute part below 60 |
| Tracks.Window | glider_transec_cmd.py:133 | a row is in the window iff it is in the track and strictly newer than `now - time_lim` hours, and each recent row appears as often as in the track; `WindowAppend` fixes that the window keeps track order |
| Tracks.WindowAppend | glider_transec_cmd.py:133 | the window keeps track order: windowing `a + b` gives the window of `a` followed by the window of `b` |
| Tracks.WindowSnoc | glider_transec_cmd.py:133 | one more report joins the end of the window exactly when it is recent |
| Tracks.WindowKeepsCycleOrder | glider_transec_cmd.py:133 | windowing keeps a non-decreasing cycle column non-decreasing |
| Tracks.GroupByCycle | glider_transec_cmd.py:134 | exactly one centroid per distinct windowed cycle, no cycle twice, each the mean of that cycle's rows |
| Tracks.SummaryWithinCycleBounds | glider_transec_cmd.py:134 | each centroid lies between its cycle's least and greatest longitude, and likewise for latitude |
| Tracks.GroupsAscending | glider_transec_cmd.py:134 | for non-decreasing cycles, first-appearance order is ascending numeric order |
| Sequences.MeanBounds | glider_transec_cmd.py:134 | a mean of values in [lo, hi] lies in [lo, hi] |
| Sequences.Distinct | glider_transec_cmd.py:141 | `unique()` keeps every value once and only the values present |
| Sequences.DistinctOrder | glider_transec_cmd.py:141 | `unique()` lists the values in the order of their first appearance |
| Sequences.WithoutKeepsOrder | glider_transec_cmd.py:143 | removing the contained cycles keeps first-appearance order |
| Areas.ClassifyMean | glider_transec_cmd.py:82-97 | the overriding chain equals the region table: lat > 60 gives SAMBA_05 and lat < 56 gives SAMBA_02 for any lon; otherwise lon < 14 gives SAMBA_01; strictly inside the band, lon > 19 gives SAMBA_03 and 16 < lon < 19 gives SAMBA_04; every other point gives no area |
| Areas.UnclassifiedExamples | glider_transec_cmd.py:86-96 | (15, 58), (19, 58) and (17, 56) are unclassified, and (13, 60) is SAMBA_01 |
| Areas.FindArea | glider_transec_cmd.py:82-97 | an empty track (NaN mean) is unclassified; otherwise the mean position is classified by the region table |
| Areas.MissionWaypointsWellFormed | glider_transec_cmd.py:100-120 | the table's keys are exactly the five area keys, and each entry has name, lon and lat lists of one length, at least 2 |
| Areas.Lookup | glider_transec_cmd.py:127 | `mission_WP[st_area]` succeeds iff an area was found, and then yields that area's well-formed entry |
| Areas.LookupSafe | glider_transec_cmd.py:125-127 | the lookup at line 127 is safe exactly for classifiable tracks |
| Areas.KeyInjective | glider_transec_cmd.py:100-120 | distinct areas have distinct table keys |
| Transects.ContainedCyclesSpec | glider_transec_cmd.py:138-140 | a cycle is in `cycle_on` iff it is a windowed cycle whose centroid the buffer contains |
| Transects.OffCycles | glider_transec_cmd.py:140-143 | `cycles_off` holds exactly the windowed cycles whose centroid is not contained; it is disjoint from `cycle_on`, has no duplicates and keeps first-appearance order |
| Transects.EmptyWindowNothingOff | glider_transec_cmd.py:133-143 | an empty window reports no off cycle |
| Transects.AllInsideNothingOff | glider_transec_cmd.py:138-143 | if every centroid is contained, no cycle is off |
| Transects.Distances | glider_transec_cmd.py:142 | one entry per centroid, in group order: the centroid's cycle and the oracle distance of its position |
| Transects.FindIfOnTransect | glider_transec_cmd.py:123-144 | succeeds iff the track is classifiable; its off cycles are the uncontained windowed cycles in first-appearance order, and it gives one distance per windowed cycle |
| Transects.FindIfOnTransectDistances | glider_transec_cmd.py:133-142 | distance `i` is the `i`-th distinct windowed cycle paired with the oracle distance of that cycle's centroid |
| Reports.GliderIdSpec | glider_transec_cmd.py:156 | `str(path)[:-12][-9:]` has at most 9 characters, exactly 9 for paths of 21 or more, and is the stretch ending 12 characters before the path's end |
| Reports.GliderIdOfLogName | glider_transec_cmd.py:40 | a log `<dir><stem>.com.raw.log` with a nine-character stem yields that stem |
| Reports.MessageNamesGlider | glider_transec_cmd.py:167 | a log `sea<nnn>.<mm>.com.raw.log` produces a message naming the glider `SEA<nnn>_M<mm>` |
| Reports.RoundHalfEven | glider_transec_cmd.py:159 | rounds to within 1/2, and a tie goes to the even integer |
| Reports.ReportedDistances | glider_transec_cmd.py:159 | each kept entry comes from a non-zero distance, rounded, and every non-zero distance is kept |
| Reports.ReportedDistancesAppend | glider_transec_cmd.py:159 | the filter keeps order and multiplicity: the reported distances of `a + b` are those of `a` followed by those of `b` |
| Reports.ReportedDistancesSnoc | glider_transec_cmd.py:159 | one more distance is appended, rounded half-to-even, exactly when it is not zero |
| Reports.ReportedDistancesAreOff | glider_transec_cmd.py:142-159 | under a sound oracle, every reported distance belongs to an off cycle and is at least 0 m; it can be 0 m, because a non-zero distance below half a metre rounds to 0 |
| Reports.Evaluate | glider_transec_cmd.py:152-153 | loads the mission's reports and evaluates them; fails iff the loaded track is unclassifiable, and otherwise carries the area `find_area` gives |
| Reports.RowOf | glider_transec_cmd.py:155-159 | a row's off-cycle list is non-empty and is the evaluation's, its glider id has at most 9 characters, and its area is the classified one |
| Reports.RowContents | glider_transec_cmd.py:156-159 | the glider id is the stretch of the path ending 12 characters before its end, 9 long for paths of 21 or more; every distance is a non-zero distance of the evaluation, rounded half-to-even, and every such distance occurs (order and multiplicity come from `ReportedDistancesAppend`) |
| Reports.Run | glider_transec_cmd.py:150-160 | the table has at most one row per mission |
| Reports.RunSnoc | glider_transec_cmd.py:155-159 | one more mission adds its row at the end of the table exactly when it is flagged |
| Reports.RunMembers | glider_transec_cmd.py:150-160 | every classified glider with a non-empty `cycles_off` gets its row, and every row comes from such a glider |
| Reports.RunRows | glider_transec_cmd.py:155-160 | every row lists at least one off cycle and a glider id of at most 9 characters; the table left by `dropna` is empty iff no glider is flagged |
| Reports.RunCompositional | glider_transec_cmd.py:150-160 | missions are reported independently: the rows of `a + b` are the rows of `a` followed by those of `b` |
| Reports.RunAsWritten | glider_transec_cmd.py:125-160 | the loop as written fails iff some active mission is unclassified |
| Reports.RunAsWrittenAgrees | glider_transec_cmd.py:150-160 | when the loop as written completes, its rows are exactly those of the corrected loop |
| Reports.UnclassifiedMissionAbortsRun | glider_transec_cmd.py:125-127 | one unclassified mission makes the loop as written fail, whatever came before; the corrected loop just skips it |
| Reports.CrashLosesAlert | glider_transec_cmd.py:125-160 | a flagged glider followed by an unclassified one: no rows as written, one row when corrected |
| Reports.LostAlertExample | glider_transec_cmd.py:125-160 | for the gliders at (11 E, 58 N) and (15 E, 58 N), the loop as written fails and the corrected loop reports the first glider |
| Reports.FirstMissionFlagged | glider_transec_cmd.py:133-155 | a log with one report packed as (1100.0, 5800.0) loads as (11 E, 58 N), and outside the corridor it is classified SAMBA_01 and flagged |
| Reports.SecondMissionUnclassified | glider_transec_cmd.py:82-97 | a log with one report packed as (1500.0, 5800.0) loads as (15 E, 58 N) and is unclassified |
| Reports.Format | glider_transec_cmd.py:167 | the message opens with "The glider SEA" and holds a line break iff a glider-id piece or a rendered array does |
| Reports.Join | glider_transec_cmd.py:170 | no text for no messages; the text starts with the first message; when no message holds a line break, the text holds one iff there are several messages |
| Reports.SplitJoin | glider_transec_cmd.py:170 | splitting the `'\n'`-joined text at line breaks gives back the messages, when none contains a line break |
| Reports.Dispatch | glider_transec_cmd.py:173-178 | nothing is sent when there are no messages; otherwise each recipient gets one mail with the joined text and the alert subject |
| Reports.AlertsIffFlagged | glider_transec_cmd.py:163-178 | mail is sent iff there is a recipient and at least one flagged glider |
| Reports.AlertTextSplits | glider_transec_cmd.py:163-170 | provided the rendered arrays and the log paths contain no line break, each mail's text splits into exactly one line per row of the table |

## Left out

- Mission discovery (glider_transec_cmd.py:37-47) is left out because it is filesystem I/O. This covers the `glob` over the samba share, `max` over mission directories and the 24-hour freshness scan. The model starts from the list of active missions.
- CSV reading, day-first date parsing and the `$SEAMRS` column splitting in `load_cmd` (glider_transec_cmd.py:49-64) are left out as parsing plumbing. The model takes their output as a sequence of `RawReport(time, cycle, packedLon, packedLat)`, with times in integer seconds. A report with only one of its two coordinates makes `load_cmd` raise (its columns get different lengths) and ends the run; that is not modelled.
- Reprojection, buffering, `sjoin` and `distance` (glider_transec_cmd.py:127-142) are left out as floating-point GIS computations. They are the abstract `Corridor` oracle. Its two assumed laws are stated as predicates and required only where used: distances are non-negative, and a contained centroid is at distance 0.
- Floating-point arithmetic is idealised as exact reals throughout. This affects `dd_coord`, means, comparisons and rounding.
- Cycle ids are text in the source: the cycle column is field 3 of the split `$SEAMRS` line (glider_transec_cmd.py:57) and is never converted. The model uses integers. Membership tests such as `np.isin` give the same answers either way.
- Tracks.GroupByCycle: groups are listed in first-appearance order. pandas lists them in sorted key order, and for text keys that is lexicographic order, so "100" comes before "99". `Tracks.GroupsAscending` proves that first-appearance order is ascending numeric order when cycles never decrease along the track. That matches pandas only while the window's cycle ids all have the same number of digits. Only the order of the printed distance array can differ.
- Transects.FindIfOnTransect: the source's default `time_lim=40` is not modelled, because the window is a parameter and the main loop always passes 8 hours.
- Areas.FindArea: the NaN mean of an empty track is modelled as "unclassified". NaN compares false against every threshold, so the chain never assigns an area.
- Printing numpy arrays inside the message is left out as foreign formatting. The `Render` parameter supplies it.
- Mail dispatch through `subprocess.check_call` is left out as an external process. `Dispatch` returns the mails that would be sent. The two fixed recipients of the source are a `recipients` parameter.
- Writing `offglider_table.csv` (line 161), logging, `print` and `tqdm` are left out as output side effects.
- Reports.AlertTextSplits: holds only when no rendered array contains a line break. numpy's `str()` wraps an array at its default line width of 75 characters, so a glider with a long `cycles_off` or distance array produces a message that spans several lines. The wrapping itself is part of the `Render` parameter and is not modelled.

## Findings

| source | as written | input that shows it | evidently intended | confidence | as-written member | corrected member |
|---|---|---|---|---|---|---|
| glider_transec_cmd.py:125-127 | for a mean position outside every area, `find_area` returns `[]`; `mission_WP[[]]` then raises an uncaught `TypeError`, which ends the whole run before any alert is mailed | two active gliders: one off its SAMBA_01 line at (11 E, 58 N), one with mean position (15 E, 58 N) | skip the unclassified glider and still alert for the others | high (not executed) | Reports.CrashLosesAlert | Reports.Run |

`Reports.RunAsWritten` models the crash, and `Reports.UnclassifiedMissionAbortsRun` shows that a single unclassified mission causes it. `Reports.CrashLosesAlert` shows the lost alert for any such pair, and `Reports.LostAlertExample` builds it concretely from `Reports.FirstMissionFlagged` and `Reports.SecondMissionUnclassified`. `Reports.Run` is the corrected loop that the message and dispatch functions use. `Reports.RunMembers` states that every flagged glider gets a row. `Reports.RunAsWrittenAgrees` shows that the two loops agree whenever the original completes.
