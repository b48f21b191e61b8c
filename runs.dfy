/**
 * Specification functions about runs of hot days in a temperature series:
 * the run-length predicate, the trailing run the detector's counter tracks,
 * the count of hot days and the longest run.
 */
module Runs {
  import opened Common

  /** The k values of s starting at index i are all strictly above the threshold. */
  ghost predicate RunAt(s: seq<real>, i: nat, k: nat)
    requires i + k <= |s|
  {
    forall j :: i <= j < i + k ==> Above(s[j])
  }

  /** s contains k consecutive values strictly above the threshold. */
  ghost predicate HasRun(s: seq<real>, k: nat) {
    exists i: nat :: i + k <= |s| && RunAt(s, i, k)
  }

  /** Length of the block of hot values that ends s (the detector's `count`, the stats' `current`). */
  function TrailingRun(s: seq<real>): (n: nat)
    ensures n <= |s|
    ensures forall j :: |s| - n <= j < |s| ==> Above(s[j])
    ensures n < |s| ==> !Above(s[|s| - 1 - n])
  {
    if s == [] then 0
    else if Above(s[|s| - 1]) then TrailingRun(s[..|s| - 1]) + 1
    else 0
  }

  /** Number of values strictly above the threshold. */
  function CountAbove(s: seq<real>): (n: nat)
    ensures n <= |s|
  {
    if s == [] then 0
    else CountAbove(s[..|s| - 1]) + (if Above(s[|s| - 1]) then 1 else 0)
  }

  /** Longest run so far, extended one value at a time as the stats loop does. */
  function MaxRun(s: seq<real>): (n: nat)
    ensures TrailingRun(s) <= n <= |s|
  {
    if s == [] then 0
    else Max(MaxRun(s[..|s| - 1]), TrailingRun(s))
  }

  /** A run in a prefix is a run in the whole sequence. */
  lemma {:induction false} HasRunPrefix(s: seq<real>, m: nat, k: nat)
    requires m <= |s| && HasRun(s[..m], k)
    ensures HasRun(s, k)
  {
    var i: nat :| i + k <= m && RunAt(s[..m], i, k);
    assert RunAt(s, i, k);
  }

  /** A run of k contains a run of every shorter length. */
  lemma {:induction false} HasRunShorter(s: seq<real>, j: nat, k: nat)
    requires j <= k && HasRun(s, k)
    ensures HasRun(s, j)
  {
    var i: nat :| i + k <= |s| && RunAt(s, i, k);
    assert RunAt(s, i, j);
  }

  /** Without a run of j there is no longer run either. */
  lemma {:induction false} NoLongerRun(s: seq<real>, j: nat, k: nat)
    requires j <= k && !HasRun(s, j)
    ensures !HasRun(s, k)
  {
    if HasRun(s, k) {
      HasRunShorter(s, j, k);
    }
  }

  /** If the last m values are hot, the trailing run is at least m. */
  lemma {:induction false} TrailingRunAtLeast(s: seq<real>, m: nat)
    requires m <= |s|
    requires forall j :: |s| - m <= j < |s| ==> Above(s[j])
    ensures TrailingRun(s) >= m
  {
  }

  /** One more value: a run of k now exists iff one existed before or the trailing run reached k. */
  lemma {:induction false} HasRunSnoc(s: seq<real>, x: real, k: nat)
    requires k >= 1
    ensures HasRun(s + [x], k) <==> HasRun(s, k) || TrailingRun(s + [x]) >= k
  {
    var t := s + [x];
    if HasRun(t, k) {
      var i: nat :| i + k <= |t| && RunAt(t, i, k);
      if i + k <= |s| {
        assert forall j :: i <= j < i + k ==> t[j] == s[j];
        assert RunAt(s, i, k);
      } else {
        TrailingRunAtLeast(t, k);
      }
    }
    if HasRun(s, k) {
      var i: nat :| i + k <= |s| && RunAt(s, i, k);
      assert RunAt(t, i, k);
    }
    if TrailingRun(t) >= k {
      assert RunAt(t, |t| - k, k);
    }
  }

  /** A run as long as MaxRun exists. */
  lemma {:induction false} MaxRunExists(s: seq<real>)
    ensures HasRun(s, MaxRun(s))
  {
    if s == [] {
      assert RunAt(s, 0, 0);
    } else {
      var p := s[..|s| - 1];
      var t := TrailingRun(s);
      if MaxRun(s) == MaxRun(p) {
        MaxRunExists(p);
        HasRunPrefix(s, |p|, MaxRun(p));
      } else {
        assert RunAt(s, |s| - t, t);
      }
    }
  }

  /** No run is longer than MaxRun. */
  lemma {:induction false} NoRunLongerThanMaxRun(s: seq<real>)
    ensures !HasRun(s, MaxRun(s) + 1)
  {
    if s != [] {
      var p := s[..|s| - 1];
      var m := MaxRun(s);
      assert s == p + [s[|s| - 1]];
      NoRunLongerThanMaxRun(p);
      NoLongerRun(p, MaxRun(p) + 1, m + 1);
      HasRunSnoc(p, s[|s| - 1], m + 1);
    }
  }

  /** MaxRun is the longest run: a run of that length exists and none longer does. */
  lemma {:induction false} MaxRunIsLongest(s: seq<real>)
    ensures HasRun(s, MaxRun(s))
    ensures !HasRun(s, MaxRun(s) + 1)
  {
    MaxRunExists(s);
    NoRunLongerThanMaxRun(s);
  }

  /** The trailing run consists of hot values, so it never exceeds their count. */
  lemma {:induction false} TrailingRunAtMostCount(s: seq<real>)
    ensures TrailingRun(s) <= CountAbove(s)
  {
    if s != [] {
      TrailingRunAtMostCount(s[..|s| - 1]);
    }
  }

  /** The longest run never exceeds the number of hot values. */
  lemma {:induction false} MaxRunAtMostCount(s: seq<real>)
    ensures MaxRun(s) <= CountAbove(s)
  {
    if s != [] {
      MaxRunAtMostCount(s[..|s| - 1]);
      TrailingRunAtMostCount(s);
    }
  }

  /** No day is hot exactly when the count is zero; every day is hot exactly when it is |s|. */
  lemma {:induction false} CountAboveExtremes(s: seq<real>)
    ensures CountAbove(s) == 0 <==> forall j :: 0 <= j < |s| ==> !Above(s[j])
    ensures CountAbove(s) == |s| <==> forall j :: 0 <= j < |s| ==> Above(s[j])
  {
    if s != [] {
      var p := s[..|s| - 1];
      CountAboveExtremes(p);
      assert forall j :: 0 <= j < |p| ==> p[j] == s[j];
    }
  }

  /** A day that is not hot splits every run: no run of k crosses it. */
  lemma {:induction false} CoolDaySplitsRuns(a: seq<real>, c: real, b: seq<real>, k: nat)
    requires !Above(c) && k >= 1
    ensures HasRun(a + [c] + b, k) <==> HasRun(a, k) || HasRun(b, k)
  {
    var s := a + [c] + b;
    assert s[|a|] == c;
    if HasRun(s, k) {
      var i: nat :| i + k <= |s| && RunAt(s, i, k);
      if i + k <= |a| {
        assert forall j :: i <= j < i + k ==> s[j] == a[j];
        assert RunAt(a, i, k);
      } else if i > |a| {
        assert forall j :: i - |a| - 1 <= j < i - |a| - 1 + k ==> b[j] == s[j + |a| + 1];
        assert RunAt(b, i - |a| - 1, k);
      }
    }
    if HasRun(a, k) {
      var i: nat :| i + k <= |a| && RunAt(a, i, k);
      assert RunAt(s, i, k);
    }
    if HasRun(b, k) {
      var i: nat :| i + k <= |b| && RunAt(b, i, k);
      assert RunAt(s, |a| + 1 + i, k);
    }
  }
}
