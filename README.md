# Heatwave detection core, in Dafny

This project models the decision logic of the heat-server API (`gee_utils.py`). That logic has five parts:

- normalization of the rows that the Earth Engine region query returns;
- the single-location detector over the last 30 daily temperatures;
- the per-year statistics of the history endpoint;
- the history's year loop, where one failing year does not stop the others;
- the set-once `_ee_initialized` flag that gates both queries.

The remote calls are not modelled. A query is its outcome: the rows it returned, or the text of the exception it raised (`Rows.Fetch`). The history query is a function from year to outcome. Each initialization attempt succeeds or fails according to an oracle `succeeds`. Whether `utcfromtimestamp` accepts a timestamp is an oracle `inRange` on seconds. The current year is a parameter `endYear`.

Modules:

- `Common`: the constants `TEMP_THRESHOLD` (35.0), `DURATION_DAYS` (3) and the 30-day window, and the strict comparison `Above`.
- `Runs`: specification functions. `HasRun(s, k)` holds when `s` has k consecutive values strictly above the threshold. `TrailingRun` is the detector's counter, `CountAbove` counts hot days, and `MaxRun` is the longest run. The lemmas connect them.
- `Rows`: cells (a number or None), rows, and the two normalization loops. The status path also converts field 0 to a date. The history path reads only field 4.
- `Detector`: the trailing-window loop with its early exit, proved equal to `HasRun` on the last `min(30, n)` values, plus several fixed example series.
- `YearlyHistory`: the statistics loop, the mean, one year's entry, and the `History` specification of the report.
- `Service`: class `EeSession` holding the flag. It has `Initialize`, `IsInitialized`, `GetHeatwaveStatus` and `GetHeatwaveHistory`.

Three behaviours of the code that are easy to miss:

- In `get_heatwave_status`, the region query `getRegion(...).getInfo()` (gee_utils.py:108) is not inside a `try`, so its exception reaches the caller. The model returns `StatusRaised` there. The history query, by contrast, catches it per year (gee_utils.py:182-190).
- The history loop (gee_utils.py:192-199) never reads field 0, so every row with a temperature is kept there. Only the status loop divides field 0 by 1000 and drops the rows for which that raises. `Rows.StatusRefinesHistory` states the relation between the two paths.
- `years` is any integer. For `years <= 0`, `range(start_year, end_year + 1)` is empty (gee_utils.py:166-171) and the report is an empty list. The model has no precondition on `years`.

A region row holds the image id, longitude, latitude, time in milliseconds and then the selected band; that is why the band `temperature_2m` is read at field 4 (gee_utils.py:101, 115). Field 0 of a data row is therefore the image id, a string. The model writes a cell it never reads as a number as `Null`: `row[0]/1000` raises for a string and for None alike, so the status loop drops the row in both cases. See "## Findings".

## Model

| member | source | states |
|---|---|---|
| Runs.TrailingRun | gee_utils.py:124-131 | the counter is the length of the block of hot values ending the input: those values are all strictly above 35.0, and the value just before them is not |
| Runs.CountAbove | gee_utils.py:203-208 | the number of hot days never exceeds the number of values |
| Runs.MaxRun | gee_utils.py:204-213 | the running maximum is at least the current run and at most the number of values |
| Runs.HasRunSnoc | gee_utils.py:124-131 | after one more value, a run of k exists iff one existed before or the counter has reached k |
| Runs.MaxRunIsLongest | gee_utils.py:204-213 | `longest` is the length of the longest block of hot values: a run of that length exists and no longer one does |
| Runs.MaxRunAtMostCount | gee_utils.py:203-213 | the longest run never exceeds the count of hot days |
| Runs.CountAboveExtremes | gee_utils.py:203-208 | the count is 0 iff no value is hot, and equals the length iff every value is hot, where hot is `Common.Above`, the strict `temp > 35.0` |
| Runs.CoolDaySplitsRuns | gee_utils.py:130-131 | a value that is not above the threshold resets the run: a run of k in `a + [c] + b` lies wholly in `a` or wholly in `b` |
| Rows.Body | gee_utils.py:112 | `rows[1:]` is every row after the header, and is empty for an empty result |
| Rows.Temperatures | gee_utils.py:111-119 | normalization never yields more values than there are rows |
| Rows.NormalizeStatusRows | gee_utils.py:111-119 | the status loop appends field 4 of exactly the rows it keeps (`Keeps`: field 0 is a number whose date converts, and field 4 exists and is not None), in row order |
| Rows.NormalizeHistoryRows | gee_utils.py:192-199 | the history loop appends field 4 of exactly the rows it keeps (`Keeps` on the history path: field 4 exists and is not None), in row order |
| Rows.TemperaturesAppend | gee_utils.py:192-199 | order is kept: normalizing `a + b` gives the values of `a` followed by those of `b` |
| Rows.DroppedRowInvisible | gee_utils.py:113-119 | a dropped row (too short, None in field 4, or a failed timestamp) leaves no trace in the output |
| Rows.AllKept | gee_utils.py:192-199 | when every row is kept, the output has one value per row, namely that row's field 4 |
| Rows.OneNullRowDropped | gee_utils.py:194-197 | one None-valued row among kept rows gives an output exactly one shorter than the non-header rows |
| Rows.TemperaturesMembers | gee_utils.py:192-199 | a value is in the output iff some kept row carries it in field 4 |
| Rows.StatusRefinesHistory | gee_utils.py:113-117 | whatever field holds the timestamp, the status series is never longer than the history series of the same rows, and equals it when every timestamp converts |
| Rows.StatusDropsRegionRows | gee_utils.py:112-119 | as written, on rows in the region layout (image id in field 0) the status loop drops every row, because `row[0]/1000` raises, and its series is empty |
| Rows.RegionStatusMatchesHistory | gee_utils.py:112-119 | with the time read from field 3, every region row whose date converts is kept: the status series equals the history series, with one value per row when every temperature is present |
| Detector.Window | gee_utils.py:124 | `values[-30:]` is the suffix of length `min(30, n)` |
| Detector.DetectHeatwave | gee_utils.py:122-131 | the result is true iff the last `min(30, n)` values hold 3 consecutive values strictly above 35.0. It is false for fewer than 3 values. The loop stops right after the value that completes the first such run |
| Detector.OlderValuesIgnored | gee_utils.py:124 | values earlier than the last 30 never change the answer |
| Detector.ShortSeriesNoHeatwave | gee_utils.py:122-129 | fewer than 3 values, the empty series included, give no heatwave |
| Detector.ThreeHotDays | gee_utils.py:124-129 | [36, 36, 36] is a heatwave |
| Detector.ThresholdIsNotHot | gee_utils.py:125 | three days at exactly 35.0 are not a heatwave |
| Detector.ResetThenHeatwave | gee_utils.py:124-131 | [36, 36, 34, 36, 36, 36] is a heatwave |
| Detector.ResetNoHeatwave | gee_utils.py:124-131 | [36, 36, 34, 36, 36] is not a heatwave |
| Detector.StopsAtThirdValue | gee_utils.py:126-129 | the detector loop on [36, 36, 36] reports true and has examined exactly three values when it stops |
| YearlyHistory.Mean | gee_utils.py:215-217 | the mean is None exactly when there are no values |
| YearlyHistory.MeanTimesCount | gee_utils.py:217 | for a non-empty list, the mean times the number of values is their sum (`Sum`, the model of `sum(values)`) |
| YearlyHistory.MeanBetween | gee_utils.py:217 | the mean of values between lo and hi lies between lo and hi |
| YearlyHistory.StatsOfSummarizes | gee_utils.py:219-225 | `StatsOf`, the dict a year's loop appends, has `days_above_threshold` equal to the hot-day count and `longest_run` equal to the longest run, with `0 <= longest_run <= days_above_threshold <= samples == len(values)`. `mean_temp_c` is None iff `samples == 0` |
| YearlyHistory.SummarizeYear | gee_utils.py:203-225 | the statistics loop computes exactly that entry |
| YearlyHistory.YearEntry | gee_utils.py:182-225 | each entry carries its year. It is an error entry iff that year's fetch failed, and the error text is "Failed to fetch data: " followed by the exception |
| YearlyHistory.YearEntryOfRows | gee_utils.py:192-225 | a year whose fetch succeeded gets the statistics of its normalized rows: hot-day count, longest run, the bounds between the fields, and a mean that is None iff there are no samples |
| YearlyHistory.SummarizeFetch | gee_utils.py:182-225 | the year loop's body computes that entry |
| YearlyHistory.SummarizeYears | gee_utils.py:168-227 | the year loop issues one query per year from the start year on, in ascending order, and builds exactly `History` |
| YearlyHistory.History | gee_utils.py:166-171 | the report has `years` entries, or none when `years <= 0` |
| YearlyHistory.HistoryAt | gee_utils.py:171-227 | entry i is the entry of year `end_year - years + 1 + i`, computed from that year's fetch alone |
| YearlyHistory.HistoryYears | gee_utils.py:171 | the years of the report rise by one from the start year, so the list is strictly ascending |
| YearlyHistory.HistoryIsolation | gee_utils.py:182-190 | changing one year's fetch outcome, for example to a failure, changes no other year's entry |
| Service.KeyPath | gee_utils.py:35 | a key path exists iff one of the three sources is set, and the explicit argument takes precedence |
| Service.TriedPlan | gee_utils.py:34-78 | case by case: a successful service-account attempt is the only attempt; otherwise the default attempt follows, and the interactive attempt follows only when forced and the default failed |
| Service.Plan | gee_utils.py:34-78 | the default attempt is always planned. The service-account attempt is planned iff a key path exists, and the interactive attempt iff `force_auth`. No attempt appears twice |
| Service.TriedIsFirstSuccess | gee_utils.py:36-78 | `Tried`, the attempts made, is a prefix of the plan, and every attempt before the last one failed. Some planned attempt succeeds iff the last one made succeeded. When none succeeds, the whole plan was tried |
| Service.EeSession.constructor | gee_utils.py:14 | the flag starts unset |
| Service.EeSession.IsInitialized | gee_utils.py:141-143 | returns the flag |
| Service.EeSession.Initialize | gee_utils.py:30-78 | once the flag is set, the call returns true, makes no attempt, and the flag stays set. Otherwise it makes the attempts of `Tried` in order. It returns true iff the last attempt succeeded, and it returns true iff it leaves the flag set |
| Service.EeSession.GetHeatwaveStatus | gee_utils.py:86-138 | with the flag unset it returns the not-initialized record (error, message, location) and issues no query. With the flag set it returns the detector's answer on the normalized rows, with threshold 35.0 and duration 3, or the query's exception. As written, on a region result (image id in field 0) it never reports a heatwave |
| Service.RegionRowsNeverHeatwave | gee_utils.py:108-131 | as written, a region result gives no heatwave whatever its temperatures |
| Service.HotRegionMissed | gee_utils.py:108-131 | as written, three region rows at 36.0 on consecutive days give no heatwave |
| Service.HotRegionFound | gee_utils.py:108-131 | with the time read from field 3, the same three rows are a heatwave once their dates convert |
| Service.EeSession.GetHeatwaveHistory | gee_utils.py:146-227 | with the flag unset it returns one top-level error record and issues no query. With the flag set it queries each year from `end_year - years + 1` to `end_year` once, in ascending order, and its report is `History`, whose last entry is `end_year` |
| Service.InitializeTwice | gee_utils.py:30-32 | a second initialization after a successful one returns true without any attempt |

## Left out

- Earth Engine itself (`ee.Geometry.Point`, `ImageCollection`, `filterDate`, `select`, the remote Kelvin-to-Celsius `subtract(273.15)`, `getRegion().getInfo()`): these are foreign calls. Each query is replaced by its outcome.
- Credential handling in `initialize_ee` (loading the service-account file, the OAuth scopes, `ee.Initialize`, `ee.Authenticate`, the `project` argument): these are foreign calls. Only the order of the attempts and which outcome sets the flag are modelled.
- Environment variables: they are parameters, with the empty string standing for unset.
- `datetime.date.today()`: the current year is the parameter `endYear`.
- `utcfromtimestamp`: it is the oracle `inRange`. The parsed date is never read after normalization, so the status series keeps only the temperatures.
- Floating point: temperatures and the mean are exact reals. The rounding of `sum(values) / len(values)` is not modelled.
- Text cells: a cell is a number or `Null`. A string cell that the code only divides, such as the image id in field 0, behaves like None there and is written `Null`. A text temperature in field 4 would pass the None test and make the comparison with 35.0 raise; that is not modelled.
- Exceptions other than a failing region query: for example, an error while building the image collection is not modelled.
- The global nature of `_ee_initialized` and any concurrent access to it: the flag is a field of one session object.
- `app.py` (Flask routes, request parsing, the JSON location file), `test_init.py` and `tmp_test_post.py`: these are HTTP and file plumbing and network smoke scripts.
- Diagnostic logging: initialization failures are reported only as `false`.

## Findings

| source | as written | input that shows it | evidently intended | confidence | as-written member | corrected member |
|---|---|---|---|---|---|---|
| gee_utils.py:114 | the status loop converts `row[0]/1000` into a date, but field 0 of a region row is the image id; the division raises on every row, every row is dropped, and `heatwave` is always false | a region result whose data rows are `[id, 151.2, -33.9, 1735689600000, 36.0]` and the next two days at 36.0 | read the time from field 3, where the region query puts it (`row[3]/1000`), so that rows with a temperature are kept | not executed; medium, since the row layout follows from the band read at field 4 | Rows.StatusDropsRegionRows, Service.RegionRowsNeverHeatwave, Service.HotRegionMissed | Rows.RegionStatusMatchesHistory, Service.HotRegionFound |

`Service.EeSession.GetHeatwaveStatus` and `Rows.NormalizeStatusRows` keep field 0, since they model the function as it stands. The corrected status path is `StatusPath(REGION_TIME_FIELD, inRange)`.
