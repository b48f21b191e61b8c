/**
 * The single-location detector: scan the last WINDOW_DAYS values with a
 * counter of consecutive hot days and stop as soon as it reaches DURATION_DAYS.
 */
module Detector {
  import opened Common
  import opened Runs

  /** `values[-30:]`: the last WINDOW_DAYS values, or all of them when there are fewer. */
  function Window(values: seq<real>): (w: seq<real>)
    ensures |w| == if |values| < WINDOW_DAYS then |values| else WINDOW_DAYS
    ensures w == values[|values| - |w|..]
  {
    if |values| <= WINDOW_DAYS then values else values[|values| - WINDOW_DAYS..]
  }

  /** What the detector decides: the window holds DURATION_DAYS consecutive hot values. */
  ghost predicate Heatwave(values: seq<real>) {
    HasRun(Window(values), DURATION_DAYS)
  }

  /** The detector loop. `examined` counts the window values the loop looked at before it stopped. */
  method DetectHeatwave(values: seq<real>) returns (detected: bool, ghost examined: nat)
    ensures detected == Heatwave(values)
    ensures |values| < DURATION_DAYS ==> !detected
    ensures examined <= |Window(values)|
    ensures detected ==> HasRun(Window(values)[..examined], DURATION_DAYS)
                         && !HasRun(Window(values)[..examined - 1], DURATION_DAYS)
    ensures !detected ==> examined == |Window(values)|
  {
    var window := Window(values);
    detected := false;
    examined := 0;
    var count := 0;
    var i := 0;
    while i < |window|
      invariant 0 <= i <= |window|
      invariant !detected
      invariant count == TrailingRun(window[..i]) && count < DURATION_DAYS
      invariant !HasRun(window[..i], DURATION_DAYS)
    {
      var temp := window[i];
      assert window[..i + 1] == window[..i] + [temp];
      HasRunSnoc(window[..i], temp, DURATION_DAYS);
      if Above(temp) {
        count := count + 1;
        if count >= DURATION_DAYS {
          detected := true;
          examined := i + 1;
          HasRunPrefix(window, i + 1, DURATION_DAYS);
          break;
        }
      } else {
        count := 0;
      }
      i := i + 1;
    }
    if !detected {
      examined := i;
    }
    assert window[..|window|] == window;
  }

  /** Only the last WINDOW_DAYS values matter: anything older never changes the answer. */
  lemma {:induction false} OlderValuesIgnored(older: seq<real>, recent: seq<real>)
    requires |recent| >= WINDOW_DAYS
    ensures Heatwave(older + recent) == Heatwave(recent)
  {
    var s := older + recent;
    assert s[|s| - WINDOW_DAYS..] == recent[|recent| - WINDOW_DAYS..];
  }

  /** Fewer than DURATION_DAYS values, the empty series included, never make a heatwave. */
  lemma {:induction false} ShortSeriesNoHeatwave(values: seq<real>)
    requires |values| < DURATION_DAYS
    ensures !Heatwave(values)
  {
  }

  /** Three hot days in a row are a heatwave. */
  lemma ThreeHotDays()
    ensures Heatwave([36.0, 36.0, 36.0])
  {
    assert RunAt([36.0, 36.0, 36.0], 0, 3);
  }

  /** A value equal to the threshold is not hot: three days at 35.0 are no heatwave. */
  lemma ThresholdIsNotHot()
    ensures !Heatwave([35.0, 35.0, 35.0])
  {
    CoolDaySplitsRuns([35.0, 35.0], 35.0, [], DURATION_DAYS);
    assert [35.0, 35.0] + [35.0] + [] == [35.0, 35.0, 35.0];
  }

  /** A cool day resets the run, and a later run of three still counts. */
  lemma ResetThenHeatwave()
    ensures Heatwave([36.0, 36.0, 34.0, 36.0, 36.0, 36.0])
  {
    assert RunAt([36.0, 36.0, 34.0, 36.0, 36.0, 36.0], 3, 3);
  }

  /** A cool day resets the run, and two hot days after it are not enough. */
  lemma ResetNoHeatwave()
    ensures !Heatwave([36.0, 36.0, 34.0, 36.0, 36.0])
  {
    CoolDaySplitsRuns([36.0, 36.0], 34.0, [36.0, 36.0], DURATION_DAYS);
    assert [36.0, 36.0] + [34.0] + [36.0, 36.0] == [36.0, 36.0, 34.0, 36.0, 36.0];
  }

  /** On [36, 36, 36] the loop reports true, and it stops right after the third value. */
  method StopsAtThirdValue() returns (detected: bool, ghost examined: nat)
    ensures detected && examined == 3
  {
    ThreeHotDays();
    detected, examined := DetectHeatwave([36.0, 36.0, 36.0]);
  }
}
