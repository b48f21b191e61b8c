/**
 * Per-year statistics of the history report and the report's year list.
 */
module YearlyHistory {
  import opened Common
  import opened Runs
  import opened Rows

  /** One entry of the history report: the statistics of a year, or the error of its fetch. */
  datatype YearSummary =
    | YearStats(year: int, daysAboveThreshold: nat, longestRun: nat, meanTempC: Option<real>, samples: nat)
    | YearError(year: int, error: string)

  /** Prefix of the error text recorded for a year whose fetch raised. */
  const FETCH_ERROR_PREFIX: string := "Failed to fetch data: "

  /** `sum(values)` over exact reals. */
  function Sum(s: seq<real>): (total: real) {
    if s == [] then 0.0 else Sum(s[..|s| - 1]) + s[|s| - 1]
  }

  /** `sum(values) / len(values)`, or None for an empty list. */
  function Mean(s: seq<real>): (m: Option<real>)
    ensures m.None? <==> |s| == 0
  {
    if |s| == 0 then None else Some(Sum(s) / (|s| as real))
  }

  /** The mean times the number of values is their sum. */
  lemma {:induction false} MeanTimesCount(s: seq<real>)
    requires |s| > 0
    ensures Mean(s).value * (|s| as real) == Sum(s)
  {
  }

  /** The sum of values between lo and hi lies between |s|*lo and |s|*hi. */
  lemma {:induction false} SumBetween(s: seq<real>, lo: real, hi: real)
    requires forall j :: 0 <= j < |s| ==> lo <= s[j] <= hi
    ensures (|s| as real) * lo <= Sum(s) <= (|s| as real) * hi
  {
    if s != [] {
      SumBetween(s[..|s| - 1], lo, hi);
    }
  }

  /** The mean of values between lo and hi lies between lo and hi. */
  lemma {:induction false} MeanBetween(s: seq<real>, lo: real, hi: real)
    requires |s| > 0
    requires forall j :: 0 <= j < |s| ==> lo <= s[j] <= hi
    ensures lo <= Mean(s).value <= hi
  {
    SumBetween(s, lo, hi);
  }

  /** The summary of a year whose fetch succeeded with these normalized values. */
  ghost function StatsOf(year: int, values: seq<real>): (summary: YearSummary) {
    YearStats(year, CountAbove(values), MaxRun(values), Mean(values), |values|)
  }

  /** What a year's statistics say about its values: the hot-day count, the longest run (one of
      that length exists and none longer), the bounds between the fields, and a mean that is
      None exactly when there are no samples. */
  lemma {:induction false} StatsOfSummarizes(year: int, values: seq<real>)
    ensures StatsOf(year, values).year == year && StatsOf(year, values).samples == |values|
    ensures StatsOf(year, values).daysAboveThreshold == CountAbove(values)
    ensures HasRun(values, StatsOf(year, values).longestRun) && !HasRun(values, StatsOf(year, values).longestRun + 1)
    ensures StatsOf(year, values).longestRun <= StatsOf(year, values).daysAboveThreshold <= StatsOf(year, values).samples
    ensures StatsOf(year, values).meanTempC.None? <==> StatsOf(year, values).samples == 0
  {
    var e := StatsOf(year, values);
    assert e == YearStats(year, CountAbove(values), MaxRun(values), Mean(values), |values|);
    MaxRunIsLongest(values);
    MaxRunAtMostCount(values);
  }

  /** The stats loop over one year's values, with the mean and the sample count. */
  method SummarizeYear(year: int, values: seq<real>) returns (s: YearSummary)
    ensures s == StatsOf(year, values)
    ensures HasRun(values, s.longestRun) && !HasRun(values, s.longestRun + 1)
    ensures s.longestRun <= s.daysAboveThreshold <= s.samples == |values|
  {
    var daysAbove, longest, current := 0, 0, 0;
    for i := 0 to |values|
      invariant daysAbove == CountAbove(values[..i])
      invariant current == TrailingRun(values[..i])
      invariant longest == MaxRun(values[..i])
    {
      var t := values[i];
      assert values[..i + 1][..i] == values[..i];
      if Above(t) {
        daysAbove := daysAbove + 1;
        current := current + 1;
        if current > longest {
          longest := current;
        }
      } else {
        current := 0;
      }
    }
    assert values[..|values|] == values;
    StatsOfSummarizes(year, values);
    var meanTemp := Mean(values);
    s := YearStats(year, daysAbove, longest, meanTemp, |values|);
  }

  /** The entry for one year: its fetch error, or the statistics of its normalized rows. */
  ghost function YearEntry(year: int, f: Fetch): (e: YearSummary)
    ensures e.year == year
    ensures e.YearError? <==> f.FetchFailed?
    ensures f.FetchFailed? ==> e.error == FETCH_ERROR_PREFIX + f.message
  {
    match f
    case FetchFailed(message) => YearError(year, FETCH_ERROR_PREFIX + message)
    case Fetched(rows) => StatsOf(year, Temperatures(Body(rows), HistoryPath))
  }

  /** A year whose fetch succeeded carries the statistics of its normalized rows. */
  lemma {:induction false} YearEntryOfRows(year: int, rows: seq<Row>)
    ensures YearEntry(year, Fetched(rows)).YearStats?
    ensures YearEntry(year, Fetched(rows)).samples == |Temperatures(Body(rows), HistoryPath)|
    ensures YearEntry(year, Fetched(rows)).daysAboveThreshold == CountAbove(Temperatures(Body(rows), HistoryPath))
    ensures var e := YearEntry(year, Fetched(rows));
            HasRun(Temperatures(Body(rows), HistoryPath), e.longestRun)
            && !HasRun(Temperatures(Body(rows), HistoryPath), e.longestRun + 1)
            && e.longestRun <= e.daysAboveThreshold <= e.samples
            && (e.meanTempC.None? <==> e.samples == 0)
  {
    StatsOfSummarizes(year, Temperatures(Body(rows), HistoryPath));
  }

  /** The body of the year loop: record the fetch error, or normalize the rows and summarize them. */
  method SummarizeFetch(year: int, f: Fetch) returns (e: YearSummary)
    ensures e == YearEntry(year, f)
  {
    match f
    case FetchFailed(message) =>
      e := YearError(year, FETCH_ERROR_PREFIX + message);
    case Fetched(rows) =>
      var values := NormalizeHistoryRows(rows);
      e := SummarizeYear(year, values);
  }

  /** The year loop: one entry per year from startYear on, in ascending order. `queried` lists the
      years whose query was issued. */
  method SummarizeYears(startYear: int, count: nat, fetch: int -> Fetch)
    returns (summaries: seq<YearSummary>, ghost queried: seq<int>)
    ensures summaries == History(startYear, count, fetch)
    ensures |queried| == count && forall k :: 0 <= k < count ==> queried[k] == startYear + k
  {
    summaries := [];
    queried := [];
    for i := 0 to count
      invariant summaries == History(startYear, i, fetch)
      invariant |queried| == i && forall k :: 0 <= k < i ==> queried[k] == startYear + k
    {
      var year := startYear + i;
      queried := queried + [year];
      var entry := SummarizeFetch(year, fetch(year));
      HistorySnoc(startYear, i, fetch);
      assert History(startYear, i + 1, fetch) == summaries + [entry];
      summaries := summaries + [entry];
    }
  }

  /** The report for the n years from startYear on, built by appending one entry per year. */
  ghost function History(startYear: int, n: int, fetch: int -> Fetch): (h: seq<YearSummary>)
    ensures |h| == if n > 0 then n else 0
    decreases n
  {
    if n <= 0 then []
    else History(startYear, n - 1, fetch) + [YearEntry(startYear + n - 1, fetch(startYear + n - 1))]
  }

  /** Appending the next year's entry extends the report by one year. */
  lemma {:induction false} HistorySnoc(startYear: int, n: nat, fetch: int -> Fetch)
    ensures History(startYear, n + 1, fetch) == History(startYear, n, fetch) + [YearEntry(startYear + n, fetch(startYear + n))]
  {
  }

  /** Entry i is the entry of year startYear + i, computed from that year's fetch alone. */
  lemma {:induction false} HistoryAt(startYear: int, n: int, fetch: int -> Fetch, i: int)
    requires 0 <= i < n
    ensures History(startYear, n, fetch)[i] == YearEntry(startYear + i, fetch(startYear + i))
    decreases n
  {
    if i < n - 1 {
      HistoryAt(startYear, n - 1, fetch, i);
      HistoryPrefixAt(startYear, n, fetch, i);
    } else {
      HistoryLast(startYear, n, fetch);
    }
  }

  /** The last entry is the entry of the last year. */
  lemma {:induction false} HistoryLast(startYear: int, n: int, fetch: int -> Fetch)
    requires n > 0
    ensures History(startYear, n, fetch)[n - 1] == YearEntry(startYear + n - 1, fetch(startYear + n - 1))
  {
    var prefix := History(startYear, n - 1, fetch);
    var last := YearEntry(startYear + n - 1, fetch(startYear + n - 1));
    assert History(startYear, n, fetch) == prefix + [last];
    assert |prefix| == n - 1;
  }

  /** The entries before the last one are those of the shorter report. */
  lemma {:induction false} HistoryPrefixAt(startYear: int, n: int, fetch: int -> Fetch, i: int)
    requires 0 <= i < n - 1
    ensures History(startYear, n, fetch)[i] == History(startYear, n - 1, fetch)[i]
  {
  }

  /** The years of the report run from startYear up by one, so they are strictly ascending. */
  lemma {:induction false} HistoryYears(startYear: int, n: int, fetch: int -> Fetch)
    ensures forall i :: 0 <= i < |History(startYear, n, fetch)| ==> History(startYear, n, fetch)[i].year == startYear + i
    ensures forall i, j :: 0 <= i < j < |History(startYear, n, fetch)| ==>
              History(startYear, n, fetch)[i].year < History(startYear, n, fetch)[j].year
  {
    forall i | 0 <= i < |History(startYear, n, fetch)|
      ensures History(startYear, n, fetch)[i].year == startYear + i
    {
      HistoryAt(startYear, n, fetch, i);
    }
  }

  /** Failure isolation: changing what one year's fetch returns changes no other year's entry. */
  lemma {:induction false} HistoryIsolation(startYear: int, n: int, f: int -> Fetch, g: int -> Fetch, year: int)
    requires forall y :: y != year ==> f(y) == g(y)
    ensures |History(startYear, n, f)| == |History(startYear, n, g)|
    ensures forall i :: 0 <= i < |History(startYear, n, f)| && startYear + i != year ==>
              History(startYear, n, f)[i] == History(startYear, n, g)[i]
  {
    forall i | 0 <= i < |History(startYear, n, f)| && startYear + i != year
      ensures History(startYear, n, f)[i] == History(startYear, n, g)[i]
    {
      HistoryAt(startYear, n, f, i);
      HistoryAt(startYear, n, g, i);
    }
  }
}
