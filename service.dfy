/**
 * The process-wide initialization flag as the state of a session object, the
 * ordered credential attempts of initialization, and the two queries that
 * check the flag before touching the remote service.
 */
module Service {
  import opened Common
  import opened Runs
  import opened Rows
  import opened Detector
  import opened YearlyHistory

  /** The initialization methods, in the order they are tried. */
  datatype Attempt = ServiceAccount | DefaultCredentials | InteractiveAuth

  const NOT_INITIALIZED_ERROR: string := "Earth Engine not initialized"
  const NOT_INITIALIZED_MESSAGE: string :=
    "Authenticate Earth Engine on this machine (run `python -c \"import ee; ee.Authenticate()\"`) or set EE_SERVICE_ACCOUNT_JSON/GOOGLE_APPLICATION_CREDENTIALS to a service account JSON and restart the app."

  /** The key path: the explicit argument, else the first of the two environment variables that is
      set. Python's `or` skips None and the empty string alike; "" stands for both here. */
  function KeyPath(serviceAccountKey: string, envServiceAccountJson: string, envGoogleCredentials: string): (p: string)
    ensures p != "" <==> serviceAccountKey != "" || envServiceAccountJson != "" || envGoogleCredentials != ""
    ensures p in {serviceAccountKey, envServiceAccountJson, envGoogleCredentials}
    ensures serviceAccountKey != "" ==> p == serviceAccountKey
  {
    if serviceAccountKey != "" then serviceAccountKey
    else if envServiceAccountJson != "" then envServiceAccountJson
    else envGoogleCredentials
  }

  /** The attempts initialization may make, in order: the service account only when a key path
      is known, then the default credentials, then interactive authentication only when forced. */
  function Plan(hasKey: bool, forceAuth: bool): (plan: seq<Attempt>)
    ensures DefaultCredentials in plan
    ensures ServiceAccount in plan <==> hasKey
    ensures InteractiveAuth in plan <==> forceAuth
    ensures forall i, j :: 0 <= i < j < |plan| ==> plan[i] != plan[j]
  {
    (if hasKey then [ServiceAccount] else []) + [DefaultCredentials] + (if forceAuth then [InteractiveAuth] else [])
  }

  /** The attempts made when each attempt `a` succeeds iff `succeeds(a)`: the plan up to and
      including the first success, or the whole plan when none succeeds. */
  function Tried(plan: seq<Attempt>, succeeds: Attempt -> bool): (attempts: seq<Attempt>) {
    if plan == [] then []
    else if succeeds(plan[0]) then [plan[0]]
    else [plan[0]] + Tried(plan[1..], succeeds)
  }

  /** First success wins: the attempts made are a prefix of the plan, all but the last failed,
      the last succeeded iff some planned attempt would, and without a success the whole plan ran. */
  lemma {:induction false} TriedIsFirstSuccess(plan: seq<Attempt>, succeeds: Attempt -> bool)
    ensures Tried(plan, succeeds) <= plan
    ensures forall j :: 0 <= j < |Tried(plan, succeeds)| - 1 ==> !succeeds(Tried(plan, succeeds)[j])
    ensures (exists j :: 0 <= j < |plan| && succeeds(plan[j])) <==>
              Tried(plan, succeeds) != [] && succeeds(Tried(plan, succeeds)[|Tried(plan, succeeds)| - 1])
    ensures !(Tried(plan, succeeds) != [] && succeeds(Tried(plan, succeeds)[|Tried(plan, succeeds)| - 1])) ==>
              Tried(plan, succeeds) == plan
  {
    if plan != [] && !succeeds(plan[0]) {
      TriedIsFirstSuccess(plan[1..], succeeds);
      if exists j :: 0 <= j < |plan| && succeeds(plan[j]) {
        var j :| 0 <= j < |plan| && succeeds(plan[j]);
        assert plan[1..][j - 1] == plan[j];
      }
    }
  }

  /** The attempts after the service account: the default credentials, then interactive
      authentication only when forced and the default failed. */
  lemma {:induction false} TriedAfterKey(forceAuth: bool, succeeds: Attempt -> bool)
    ensures Tried(Plan(false, forceAuth), succeeds) ==
              if succeeds(DefaultCredentials) || !forceAuth then [DefaultCredentials]
              else [DefaultCredentials, InteractiveAuth]
  {
    var plan := Plan(false, forceAuth);
    assert plan[0] == DefaultCredentials;
    if forceAuth {
      assert plan[1..] == [InteractiveAuth];
      assert Tried([InteractiveAuth], succeeds) == [InteractiveAuth] + Tried([], succeeds);
    } else {
      assert plan[1..] == [];
    }
  }

  /** The attempts initialization makes, case by case. */
  lemma {:induction false} TriedPlan(hasKey: bool, forceAuth: bool, succeeds: Attempt -> bool)
    ensures Tried(Plan(hasKey, forceAuth), succeeds) ==
              if hasKey && succeeds(ServiceAccount) then [ServiceAccount]
              else (if hasKey then [ServiceAccount] else [])
                   + (if succeeds(DefaultCredentials) || !forceAuth then [DefaultCredentials]
                      else [DefaultCredentials, InteractiveAuth])
  {
    TriedAfterKey(forceAuth, succeeds);
    if hasKey {
      var plan := Plan(hasKey, forceAuth);
      assert plan[0] == ServiceAccount && plan[1..] == Plan(false, forceAuth);
    }
  }

  /** Result of the single-location query. */
  datatype StatusReport =
    | StatusNotInitialized(error: string, message: string, lat: real, lon: real)
    | StatusRaised(message: string)
    | HeatwaveStatus(lat: real, lon: real, heatwave: bool, threshold: real, durationDays: nat)

  /** Result of the history query: one top-level error, or the list of year entries. */
  datatype HistoryReport =
    | HistoryNotInitialized(error: string, message: string)
    | Summaries(entries: seq<YearSummary>)

  /** The client state of the remote service: the `_ee_initialized` flag. */
  class EeSession {
    var initialized: bool

    /** Module load: the flag starts unset. */
    constructor ()
      ensures !initialized
    {
      initialized := false;
    }

    /** `ee_is_initialized`. */
    method IsInitialized() returns (b: bool)
      ensures b == initialized
    {
      b := initialized;
    }

    /** `initialize_ee`. The outcome of each attempt (loading the key and initializing with it,
        initializing with ambient credentials, authenticating and initializing) is the oracle
        `succeeds`; `attempts` records the attempts made, in order. */
    method Initialize(forceAuth: bool, serviceAccountKey: string, envServiceAccountJson: string,
                      envGoogleCredentials: string, succeeds: Attempt -> bool)
      returns (ok: bool, ghost attempts: seq<Attempt>)
      modifies this
      ensures ok == initialized
      ensures old(initialized) ==> initialized && attempts == []
      ensures !old(initialized) ==>
                attempts == Tried(Plan(KeyPath(serviceAccountKey, envServiceAccountJson, envGoogleCredentials) != "", forceAuth), succeeds)
      ensures !old(initialized) ==> (ok <==> attempts != [] && succeeds(attempts[|attempts| - 1]))
    {
      attempts := [];
      if initialized {
        ok := true;
        return;
      }
      var keyPath := KeyPath(serviceAccountKey, envServiceAccountJson, envGoogleCredentials);
      TriedPlan(keyPath != "", forceAuth, succeeds);
      if keyPath != "" {
        attempts := attempts + [ServiceAccount];
        if succeeds(ServiceAccount) {
          initialized := true;
          ok := true;
          return;
        }
      }
      attempts := attempts + [DefaultCredentials];
      if succeeds(DefaultCredentials) {
        initialized := true;
        ok := true;
        return;
      }
      if forceAuth {
        attempts := attempts + [InteractiveAuth];
        if succeeds(InteractiveAuth) {
          initialized := true;
          ok := true;
          return;
        }
      }
      ok := false;
    }

    /** `get_heatwave_status`. `fetch` is the outcome of the region query for this location;
        `fetched` says whether the query was issued. A failing query is not caught here: the
        exception reaches the caller, modelled as StatusRaised. */
    method GetHeatwaveStatus(lat: real, lon: real, fetch: Fetch, inRange: real -> bool)
      returns (r: StatusReport, ghost fetched: bool)
      ensures fetched == initialized
      ensures !initialized ==> r == StatusNotInitialized(NOT_INITIALIZED_ERROR, NOT_INITIALIZED_MESSAGE, lat, lon)
      ensures initialized && fetch.FetchFailed? ==> r == StatusRaised(fetch.message)
      ensures initialized && fetch.Fetched? ==>
                r == HeatwaveStatus(lat, lon, Heatwave(Temperatures(Body(fetch.rows), StatusPath(TIME_FIELD, inRange))),
                                    TEMP_THRESHOLD, DURATION_DAYS)
      ensures initialized && fetch.Fetched? && RegionRows(Body(fetch.rows)) ==> r.HeatwaveStatus? && !r.heatwave
    {
      if !initialized {
        r := StatusNotInitialized(NOT_INITIALIZED_ERROR, NOT_INITIALIZED_MESSAGE, lat, lon);
        fetched := false;
        return;
      }
      fetched := true;
      match fetch
      case FetchFailed(message) =>
        r := StatusRaised(message);
      case Fetched(temps) =>
        var values := NormalizeStatusRows(temps, inRange);
        if RegionRows(Body(temps)) {
          RegionRowsNeverHeatwave(temps, inRange);
        }
        var detected, _ := DetectHeatwave(values);
        r := HeatwaveStatus(lat, lon, detected, TEMP_THRESHOLD, DURATION_DAYS);
    }

    /** `get_heatwave_history` for the `years` calendar years ending at `endYear` (today's year in
        the source). `fetch(y)` is the outcome of year y's query; `queried` lists the years whose
        query was issued, in order. */
    method GetHeatwaveHistory(years: int, endYear: int, fetch: int -> Fetch)
      returns (r: HistoryReport, ghost queried: seq<int>)
      ensures !initialized ==> r == HistoryNotInitialized(NOT_INITIALIZED_ERROR, NOT_INITIALIZED_MESSAGE) && queried == []
      ensures initialized ==> r == Summaries(History(endYear - years + 1, years, fetch))
      ensures initialized ==> |queried| == (if years > 0 then years else 0)
      ensures initialized ==> forall i :: 0 <= i < |queried| ==> queried[i] == endYear - years + 1 + i
      ensures initialized && years > 0 ==> r.entries[|r.entries| - 1].year == endYear
    {
      queried := [];
      if !initialized {
        r := HistoryNotInitialized(NOT_INITIALIZED_ERROR, NOT_INITIALIZED_MESSAGE);
        return;
      }
      var startYear := endYear - years + 1;
      // len(range(start_year, end_year + 1))
      var count := if years > 0 then years else 0;
      var summaries;
      summaries, queried := SummarizeYears(startYear, count, fetch);
      r := Summaries(summaries);
      if years > 0 {
        HistoryAt(startYear, years, fetch, years - 1);
      }
    }
  }

  /** As written, a region result never reports a heatwave, whatever its temperatures. */
  lemma {:induction false} RegionRowsNeverHeatwave(rows: seq<Row>, inRange: real -> bool)
    requires RegionRows(Body(rows))
    ensures !Heatwave(Temperatures(Body(rows), StatusPath(TIME_FIELD, inRange)))
  {
    StatusDropsRegionRows(Body(rows), inRange);
  }

  /** A data row of the region query for one day: image id, longitude, latitude, time, temperature. */
  function RegionDay(ms: real, temp: real): (r: Row)
    ensures RegionRow(r) && HasTemp(r) && TempOf(r) == temp && r.cells[REGION_TIME_FIELD] == Num(ms)
  {
    Row([Null, Num(151.2), Num(-33.9), Num(ms), Num(temp)])
  }

  /** A region result for three consecutive days at 36.0, from 2025-01-01, after its header. */
  const HOT_REGION: seq<Row> :=
    [Row([Null, Null, Null, Null, Null]),
     RegionDay(1735689600000.0, 36.0), RegionDay(1735776000000.0, 36.0), RegionDay(1735862400000.0, 36.0)]

  /** As written, three region rows above the threshold still give no heatwave: the status loop
      drops every row, since field 0 is the image id and not the time. */
  lemma HotRegionMissed(inRange: real -> bool)
    ensures !Heatwave(Temperatures(Body(HOT_REGION), StatusPath(TIME_FIELD, inRange)))
  {
    StatusDropsRegionRows(Body(HOT_REGION), inRange);
  }

  /** Reading the time from field 3, the same rows are a heatwave once their dates convert. */
  lemma HotRegionFound(inRange: real -> bool)
    requires inRange(1735689600.0) && inRange(1735776000.0) && inRange(1735862400.0)
    ensures Heatwave(Temperatures(Body(HOT_REGION), StatusPath(REGION_TIME_FIELD, inRange)))
  {
    var body := Body(HOT_REGION);
    assert body == [RegionDay(1735689600000.0, 36.0), RegionDay(1735776000000.0, 36.0), RegionDay(1735862400000.0, 36.0)];
    RegionStatusMatchesHistory(body, inRange);
    AllKept(body, HistoryPath);
    var vs := Temperatures(body, StatusPath(REGION_TIME_FIELD, inRange));
    assert vs == [36.0, 36.0, 36.0];
    assert RunAt(vs, 0, DURATION_DAYS);
  }

  /** Initializing twice: the second call succeeds whenever the first did, and makes no attempt. */
  method InitializeTwice(forceAuth: bool, serviceAccountKey: string, envServiceAccountJson: string,
                         envGoogleCredentials: string, succeeds: Attempt -> bool)
    returns (first: bool, second: bool, ghost secondAttempts: seq<Attempt>)
    ensures first <==> exists a :: a in Plan(KeyPath(serviceAccountKey, envServiceAccountJson, envGoogleCredentials) != "", forceAuth) && succeeds(a)
    ensures first ==> second && secondAttempts == []
  {
    TriedIsFirstSuccess(Plan(KeyPath(serviceAccountKey, envServiceAccountJson, envGoogleCredentials) != "", forceAuth), succeeds);
    var session := new EeSession();
    ghost var firstAttempts;
    first, firstAttempts := session.Initialize(forceAuth, serviceAccountKey, envServiceAccountJson, envGoogleCredentials, succeeds);
    second, secondAttempts := session.Initialize(forceAuth, serviceAccountKey, envServiceAccountJson, envGoogleCredentials, succeeds);
  }
}
