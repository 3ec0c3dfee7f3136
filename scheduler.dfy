/** What `downloadAssets` (lib/preload.js) reports through `nativeBridgeForResourceDownload`,
    as a state machine over the outcomes of the downloads it starts, in order.

    The loop starts one download per manifest entry, checking the cancel flag before each.
    Every tenth started download closes a group, which is awaited as a whole: when all its
    downloads succeeded the counter advances by ten and progress is reported, otherwise
    `onError` is called and the run ends. A trailing group of fewer than ten downloads is
    never awaited. JavaScript runs the loop without interruption between awaits, so the
    cancel flag can only change from the moment a group's await begins until the next entry
    is checked: while the downloads are pending, or synchronously inside the `onProgress`
    or `onError` report that follows them. `cancelAt == Some(g)` says that
    `downloadCancel()` is called in that window for the group after `g` completed groups,
    whether that group succeeds or fails; after a failure the flag stays set for later
    runs. */
module Scheduler {
  import opened Wrappers

  /** `groupSize` */
  const GroupSize: nat := 10

  datatype Report = Progress(percent: real) | Complete | Error

  /** `(now / total) * 100`, computed exactly: a percentage, which is 100 exactly when
      every entry is counted. */
  function Percent(now: nat, total: nat): (p: real)
    requires total > 0
    ensures 0.0 <= p
    ensures now <= total ==> p <= 100.0
    ensures p == 100.0 <==> now == total
  {
    (now as real / total as real) * 100.0
  }

  /** The loop's variables: the counter `now`, the outcomes of the current `group`, the
      cancel flag, whether a group failed (the run returned), and the reports so far. */
  datatype State = State(now: nat, group: seq<bool>, cancelled: bool, failed: bool, reports: seq<Report>)

  function Start(cancelled: bool): State {
    State(0, [], cancelled, false, [])
  }

  /** The loop goes on to the next entry, if there is one. */
  predicate Running(s: State) {
    !s.cancelled && !s.failed
  }

  /** One started download with outcome `ok`, and the await of the group it completes. */
  function Step(s: State, total: nat, cancelAt: Option<nat>, ok: bool): State
    requires total > 0
  {
    var group := s.group + [ok];
    if |group| % GroupSize != 0 then s.(group := group)
    else if false !in group then
      var now := s.now + GroupSize;
      s.(now := now, group := [], cancelled := s.cancelled || cancelAt == Some(s.now / GroupSize),
         reports := s.reports + [Progress(Percent(now, total))])
    else
      s.(group := group, cancelled := s.cancelled || cancelAt == Some(s.now / GroupSize),
         failed := true, reports := s.reports + [Error])
  }

  /** The state after the downloads whose outcomes are `results` were started. */
  function Replay(total: nat, cancelled: bool, cancelAt: Option<nat>, results: seq<bool>): State
    requires |results| <= total
    decreases |results|
  {
    if results == [] then Start(cancelled)
    else Step(Replay(total, cancelled, cancelAt, results[..|results| - 1]), total, cancelAt, results[|results| - 1])
  }

  /** Each of the downloads was started while the loop was running. */
  predicate Scheduled(total: nat, cancelled: bool, cancelAt: Option<nat>, results: seq<bool>) {
    |results| <= total &&
    forall j | 0 <= j < |results| :: Running(Replay(total, cancelled, cancelAt, results[..j]))
  }

  /** The loop has ended: every entry was visited, or the flag was set, or a group failed. */
  predicate Finished(total: nat, cancelled: bool, cancelAt: Option<nat>, results: seq<bool>)
    requires |results| <= total
  {
    |results| == total || !Running(Replay(total, cancelled, cancelAt, results))
  }

  /** All reports of a run that ended in state `s`: `onComplete` follows the loop unless a
      group failure returned early. */
  function Reports(s: State): seq<Report> {
    if s.failed then s.reports else s.reports + [Complete]
  }

  /** The progress reports after `k` awaited groups: 10, 20, ... out of `total`, in percent. */
  function Progresses(k: nat, total: nat): (r: seq<Report>)
    requires k == 0 || total > 0
    ensures |r| == k
  {
    seq(k, j requires 0 <= j < k => Progress(Percent(GroupSize * (j + 1), total)))
  }

  lemma ProgressesSnoc(k: nat, total: nat)
    requires total > 0
    ensures Progresses(k + 1, total) == Progresses(k, total) + [Progress(Percent(GroupSize * (k + 1), total))]
  {
  }

  /** Starting one more download from a running state keeps the run scheduled. */
  lemma ScheduledExtend(total: nat, cancelled: bool, cancelAt: Option<nat>, results: seq<bool>, ok: bool)
    requires Scheduled(total, cancelled, cancelAt, results)
    requires |results| < total && Running(Replay(total, cancelled, cancelAt, results))
    ensures Scheduled(total, cancelled, cancelAt, results + [ok])
    ensures Replay(total, cancelled, cancelAt, results + [ok]) == Step(Replay(total, cancelled, cancelAt, results), total, cancelAt, ok)
  {
    var r := results + [ok];
    assert r[..|results|] == results;
    forall j | 0 <= j < |r| ensures Running(Replay(total, cancelled, cancelAt, r[..j])) {
      if j < |results| {
        assert r[..j] == results[..j];
      }
    }
  }

  lemma ScheduledPrefix(total: nat, cancelled: bool, cancelAt: Option<nat>, results: seq<bool>, n: nat)
    requires Scheduled(total, cancelled, cancelAt, results)
    requires n <= |results|
    ensures Scheduled(total, cancelled, cancelAt, results[..n])
  {
    forall j | 0 <= j < n ensures Running(Replay(total, cancelled, cancelAt, results[..n][..j])) {
      assert results[..n][..j] == results[..j];
    }
  }

  /** What holds after any scheduled sequence of downloads: the counter is the number of
      downloads in awaited groups, all of which succeeded; the current group holds the rest;
      one progress report was made per awaited group and an error report only for a full
      group that failed; the flag is set exactly when it was set initially or was set
      during an await that has happened. */
  predicate Inv(total: nat, cancelled: bool, cancelAt: Option<nat>, results: seq<bool>, s: State) {
    && s.now % GroupSize == 0 && s.now <= |results| <= total
    && s.group == results[s.now..]
    && (forall k | 0 <= k < s.now :: results[k])
    && (!s.failed ==> |s.group| < GroupSize && s.reports == Progresses(s.now / GroupSize, total))
    && (s.failed ==> |s.group| == GroupSize && false in s.group &&
                     s.reports == Progresses(s.now / GroupSize, total) + [Error])
    && s.cancelled == (cancelled || (cancelAt.Some? && cancelAt.value < s.now / GroupSize + (if s.failed then 1 else 0)))
  }

  /** One more download started from a running state keeps `Inv`. */
  lemma InvStep(total: nat, cancelled: bool, cancelAt: Option<nat>, p: seq<bool>, s: State, ok: bool)
    requires Inv(total, cancelled, cancelAt, p, s) && Running(s) && |p| < total
    ensures Inv(total, cancelled, cancelAt, p + [ok], Step(s, total, cancelAt, ok))
  {
    var results := p + [ok];
    var group := s.group + [ok];
    assert group == results[s.now..] by {
      assert results[s.now..] == p[s.now..] + [ok];
    }
    assert forall k | 0 <= k < s.now :: results[k] by {
      forall k | 0 <= k < s.now ensures results[k] {
        assert results[k] == p[k];
      }
    }
    if |group| % GroupSize == 0 && false !in group {
      InvAdvance(total, cancelled, cancelAt, results, s);
    } else if |group| % GroupSize == 0 {
      InvFail(total, cancelled, cancelAt, results, s);
    }
  }

  /** The await of a full group holding a failed download keeps `Inv`: the run is marked
      failed with its error report, and a cancel made during that await is kept. */
  lemma InvFail(total: nat, cancelled: bool, cancelAt: Option<nat>, results: seq<bool>, s: State)
    requires |results| <= total && 0 < total
    requires s.now % GroupSize == 0 && s.now < |results|
    requires s.group + [results[|results| - 1]] == results[s.now..]
    requires forall k | 0 <= k < s.now :: results[k]
    requires |s.group| < GroupSize && s.reports == Progresses(s.now / GroupSize, total)
    requires s.cancelled == (cancelled || (cancelAt.Some? && cancelAt.value < s.now / GroupSize))
    requires !s.cancelled && !s.failed
    requires |results[s.now..]| % GroupSize == 0 && false in results[s.now..]
    ensures Inv(total, cancelled, cancelAt, results, Step(s, total, cancelAt, results[|results| - 1]))
  {
    assert |results[s.now..]| == GroupSize;
  }

  /** The await of a full group of successful downloads keeps `Inv`. */
  lemma InvAdvance(total: nat, cancelled: bool, cancelAt: Option<nat>, results: seq<bool>, s: State)
    requires |results| <= total && 0 < total
    requires s.now % GroupSize == 0 && s.now < |results|
    requires s.group + [results[|results| - 1]] == results[s.now..]
    requires forall k | 0 <= k < s.now :: results[k]
    requires |s.group| < GroupSize && s.reports == Progresses(s.now / GroupSize, total)
    requires s.cancelled == (cancelled || (cancelAt.Some? && cancelAt.value < s.now / GroupSize))
    requires !s.cancelled && !s.failed
    requires |results[s.now..]| % GroupSize == 0 && false !in results[s.now..]
    ensures Inv(total, cancelled, cancelAt, results, Step(s, total, cancelAt, results[|results| - 1]))
  {
    var group := results[s.now..];
    var now := s.now + GroupSize;
    assert |group| == GroupSize;
    forall k | 0 <= k < now ensures results[k] {
      if k >= s.now {
        assert results[k] == group[k - s.now];
      }
    }
    ProgressesSnoc(s.now / GroupSize, total);
    assert now / GroupSize == s.now / GroupSize + 1;
  }

  lemma {:induction false} ReplayInvariant(total: nat, cancelled: bool, cancelAt: Option<nat>, results: seq<bool>)
    requires Scheduled(total, cancelled, cancelAt, results)
    ensures Inv(total, cancelled, cancelAt, results, Replay(total, cancelled, cancelAt, results))
    decreases |results|
  {
    if results != [] {
      var n := |results| - 1;
      var p, ok := results[..n], results[n];
      var s := Replay(total, cancelled, cancelAt, p);
      assert Scheduled(total, cancelled, cancelAt, p) && Running(s) by {
        ScheduledPrefix(total, cancelled, cancelAt, results, n);
        assert results[..n] == p;
      }
      ReplayInvariant(total, cancelled, cancelAt, p);
      assert results == p + [ok];
      InvStep(total, cancelled, cancelAt, p, s, ok);
    }
  }

  /** Progress values strictly increase. */
  lemma ProgressesIncrease(k: nat, total: nat)
    requires k == 0 || total > 0
    ensures forall i, j :: 0 <= i < j < k ==> Progresses(k, total)[i].percent < Progresses(k, total)[j].percent
  {
    forall i, j | 0 <= i < j < k
      ensures Progresses(k, total)[i].percent < Progresses(k, total)[j].percent
    {
      DivIncreases((GroupSize * (i + 1)) as real, (GroupSize * (j + 1)) as real, total as real);
    }
  }

  lemma DivIncreases(a: real, b: real, t: real)
    requires a < b && t > 0.0
    ensures a / t < b / t
  {
    var inv := 1.0 / t;
    assert inv > 0.0;
    assert a / t == a * inv && b / t == b * inv;
    assert (b - a) * inv > 0.0;
  }

  lemma GroupCount(q: nat, r: nat)
    requires r < GroupSize
    ensures (GroupSize * q + r) / GroupSize == q
    ensures (GroupSize * q + r) / GroupSize * GroupSize == GroupSize * q
  {
  }

  /** The counter stands for the full groups started, less the failed one if any; a group
      failed exactly when some download of a full group failed. */
  lemma FullGroups(total: nat, cancelled: bool, cancelAt: Option<nat>, results: seq<bool>)
    requires Scheduled(total, cancelled, cancelAt, results)
    ensures var s := Replay(total, cancelled, cancelAt, results);
      var full := |results| / GroupSize * GroupSize;
      && s.now == (if s.failed then full - GroupSize else full)
      && (s.failed <==> false in results[..full])
  {
    ReplayInvariant(total, cancelled, cancelAt, results);
    GroupsOfInv(total, cancelled, cancelAt, results, Replay(total, cancelled, cancelAt, results));
  }

  lemma GroupsOfInv(total: nat, cancelled: bool, cancelAt: Option<nat>, results: seq<bool>, s: State)
    requires Inv(total, cancelled, cancelAt, results, s)
    ensures var full := |results| / GroupSize * GroupSize;
      && s.now == (if s.failed then full - GroupSize else full)
      && (s.failed <==> false in results[..full])
  {
    var q := s.now / GroupSize;
    var full := |results| / GroupSize * GroupSize;
    assert s.now == GroupSize * q;
    if s.failed {
      assert full == s.now + GroupSize by {
        GroupCount(q + 1, 0);
        assert |results| == GroupSize * (q + 1) + 0;
      }
      var k :| 0 <= k < |s.group| && !s.group[k];
      assert results[..full][s.now + k] == s.group[k];
    } else {
      assert full == s.now by {
        GroupCount(q, |s.group|);
        assert |results| == GroupSize * q + |s.group|;
      }
      forall k | 0 <= k < full ensures results[..full][k] {
        assert results[k];
      }
    }
  }

  /** The reports of a finished run: one progress report per awaited group, then exactly one
      of `onError` (exactly when some full group held a failed download) or `onComplete`
      (otherwise, whether or not the run was cancelled). */
  lemma RunReports(total: nat, cancelled: bool, cancelAt: Option<nat>, results: seq<bool>)
    requires Scheduled(total, cancelled, cancelAt, results)
    requires Finished(total, cancelled, cancelAt, results)
    ensures var s := Replay(total, cancelled, cancelAt, results);
      var failed := false in results[..|results| / GroupSize * GroupSize];
      && Reports(s) == Progresses(s.now / GroupSize, total) + [if failed then Error else Complete]
      && |Reports(s)| == |results| / GroupSize + (if failed then 0 else 1)
      && (!failed ==> |results| == total || s.cancelled)
  {
    ReplayInvariant(total, cancelled, cancelAt, results);
    FullGroups(total, cancelled, cancelAt, results);
  }

  /** With the flag set before the run (`skip_download`, or an earlier `downloadCancel()`),
      no download starts and `onComplete` is still called. */
  lemma CancelledBeforeStart(total: nat, cancelAt: Option<nat>, results: seq<bool>)
    requires Scheduled(total, true, cancelAt, results)
    ensures results == []
    ensures Reports(Replay(total, true, cancelAt, results)) == [Complete]
  {
    assert results[..0] == [];
  }

  /** Once `downloadCancel()` is called during the await of group `g + 1`, no download beyond
      that group starts. */
  lemma {:induction false} CancelStopsScheduling(total: nat, cancelled: bool, g: nat, results: seq<bool>)
    requires Scheduled(total, cancelled, Some(g), results)
    ensures |results| <= GroupSize * (g + 1)
  {
    var j := GroupSize * (g + 1);
    if |results| > j {
      ScheduledPrefix(total, cancelled, Some(g), results, j);
      ReplayInvariant(total, cancelled, Some(g), results[..j]);
      assert false;
    }
  }

  /** A `downloadCancel()` made while a failing group is awaited, or from its `onError`
      report, is not lost: the run ends with the flag set, so later runs start cancelled. */
  lemma CancelDuringFailedGroup(total: nat, cancelled: bool, g: nat, results: seq<bool>)
    requires Scheduled(total, cancelled, Some(g), results)
    requires Replay(total, cancelled, Some(g), results).failed
    requires Replay(total, cancelled, Some(g), results).now == GroupSize * g
    ensures Replay(total, cancelled, Some(g), results).cancelled
  {
    ReplayInvariant(total, cancelled, Some(g), results);
  }

  lemma DivSelf(t: real)
    requires t > 0.0
    ensures t / t == 1.0
  {
  }

  /** A run that is never cancelled and whose groups all succeed visits every entry and
      reports progress for every full group but not for the trailing partial one; when the
      entries fill whole groups, the last report before `onComplete` is 100%. */
  lemma UncancelledRun(total: nat, results: seq<bool>)
    requires Scheduled(total, false, None, results)
    requires Finished(total, false, None, results)
    requires false !in results
    ensures |results| == total
    ensures Reports(Replay(total, false, None, results)) == Progresses(total / GroupSize, total) + [Complete]
    ensures total > 0 && total % GroupSize == 0 ==> Progresses(total / GroupSize, total)[total / GroupSize - 1] == Progress(100.0)
  {
    ReplayInvariant(total, false, None, results);
    FullGroups(total, false, None, results);
    var s := Replay(total, false, None, results);
    assert false !in results[..|results| / GroupSize * GroupSize];
    if total > 0 && total % GroupSize == 0 {
      assert GroupSize * (total / GroupSize - 1 + 1) == total;
      DivSelf(total as real);
    }
  }
}
