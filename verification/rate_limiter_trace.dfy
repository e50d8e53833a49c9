/**
 Repeated admission checks, and what the limiter promises across them: with
 a clock that does not go backwards it admits a request exactly when fewer
 than `maxRequests` admitted requests fall in the window ending at that
 request, and a burst inside one window is admitted up to the quota and
 denied after it.
 */
module RateLimiterTrace {
  import opened RateLimiter

  /** The answers of a run of checks for one user, in order, and that user's list after it. */
  datatype UserTrace = UserTrace(answers: seq<bool>, kept: seq<Time>)

  /** The answers of a run of checks, in order, and the whole table after it. */
  datatype Trace = Trace(answers: seq<bool>, log: RequestLog)

  /** Checks at the clock readings `times`, one after another, against the stored list `h`. */
  function RunUser(h: seq<Time>, times: seq<Time>, limits: Limits): (r: UserTrace)
    requires limits.Valid()
    ensures |r.answers| == |times|
    decreases |times|
  {
    if |times| == 0 then UserTrace([], h)
    else
      var prev := RunUser(h, times[..|times| - 1], limits);
      var c := Admit(prev.kept, times[|times| - 1], limits);
      UserTrace(prev.answers + [c.allowed], c.kept)
  }

  /** Checks for `user` at the clock readings `times`, one after another, against the table. */
  function Run(log: RequestLog, user: string, times: seq<Time>, limits: Limits): (r: Trace)
    requires limits.Valid()
    ensures |r.answers| == |times|
    decreases |times|
  {
    if |times| == 0 then Trace([], log)
    else
      var prev := Run(log, user, times[..|times| - 1], limits);
      var d := Allow(prev.log, user, times[|times| - 1], limits);
      Trace(prev.answers + [d.allowed], d.log)
  }

  /** The clock readings of the admitted requests, in order. */
  function Admitted(times: seq<Time>, answers: seq<bool>): (r: seq<Time>)
    requires |times| == |answers|
    ensures |r| <= |times|
    decreases |times|
  {
    if |times| == 0 then []
    else
      var n := |times| - 1;
      Admitted(times[..n], answers[..n]) + (if answers[n] then [times[n]] else [])
  }

  /**
   Repeated checks for one user against the table behave as the same checks
   against that user's stored list alone, and leave every other user's
   entry as it was.
   */
  lemma {:induction false} RunIsPerUser(log: RequestLog, user: string, times: seq<Time>, limits: Limits)
    requires limits.Valid()
    ensures Run(log, user, times, limits).answers == RunUser(History(log, user), times, limits).answers
    ensures History(Run(log, user, times, limits).log, user) == RunUser(History(log, user), times, limits).kept
    ensures forall u :: u != user ==> History(Run(log, user, times, limits).log, u) == History(log, u)
    decreases |times|
  {
    if |times| > 0 {
      var prefix := times[..|times| - 1];
      var now := times[|times| - 1];
      RunIsPerUser(log, user, prefix, limits);
      var prev := Run(log, user, prefix, limits);
      forall u | u != user
        ensures History(Run(log, user, times, limits).log, u) == History(log, u)
      {
        CheckLeavesOthers(prev.log, user, now, u, limits);
      }
    }
  }

  /**
   Exact sliding-window bookkeeping. Starting from no history and a clock
   that never goes backwards, after any run of checks the stored list is
   exactly the admitted requests inside the window ending at the last
   reading, and there are at most `maxRequests` of them.
   */
  lemma {:induction false} RunKeepsAdmittedInWindow(times: seq<Time>, limits: Limits)
    requires limits.Valid()
    requires |times| > 0 && Sorted(times)
    ensures RunUser([], times, limits).kept
         == Prune(Admitted(times, RunUser([], times, limits).answers), times[|times| - 1] - limits.window)
    ensures |RunUser([], times, limits).kept| <= limits.maxRequests
    decreases |times|
  {
    var n := |times|;
    var now := times[n - 1];
    var prefix := times[..n - 1];
    var prev := RunUser([], prefix, limits);
    var admitted := Admitted(prefix, prev.answers);
    var cutoff := if n > 1 then times[n - 2] - limits.window else now - limits.window;
    if n > 1 {
      SortedPrefix(times, n - 1);
      RunKeepsAdmittedInWindow(prefix, limits);
    }
    SlidingWindowStep(prev.kept, now, limits, admitted, cutoff);
    AdmittedLast(times, prev.answers, Admit(prev.kept, now, limits).allowed);
  }

  /**
   Exact sliding-window admission. Starting from no history and a clock that
   never goes backwards, the last request of a run is admitted exactly when
   fewer than `maxRequests` of the earlier admitted requests lie inside the
   window ending at it.
   */
  lemma RunAdmitsByWindowCount(times: seq<Time>, limits: Limits)
    requires limits.Valid()
    requires |times| > 0 && Sorted(times)
    ensures var n := |times|;
            var answers := RunUser([], times, limits).answers;
            var earlier := Admitted(times[..n - 1], answers[..n - 1]);
            answers[n - 1] <==> |Prune(earlier, times[n - 1] - limits.window)| < limits.maxRequests
  {
    var n := |times|;
    var now := times[n - 1];
    var prefix := times[..n - 1];
    var prev := RunUser([], prefix, limits);
    var admitted := Admitted(prefix, prev.answers);
    var cutoff := if n > 1 then times[n - 2] - limits.window else now - limits.window;
    if n > 1 {
      SortedPrefix(times, n - 1);
      RunKeepsAdmittedInWindow(prefix, limits);
    }
    SlidingWindowStep(prev.kept, now, limits, admitted, cutoff);
    var answers := RunUser([], times, limits).answers;
    assert answers == prev.answers + [Admit(prev.kept, now, limits).allowed];
    assert answers[..n - 1] == prev.answers;
  }

  /** A prefix of a list that never goes backwards never goes backwards. */
  lemma SortedPrefix(s: seq<Time>, k: nat)
    requires Sorted(s) && k <= |s|
    ensures Sorted(s[..k])
  {
    var p := s[..k];
    forall i, j | 0 <= i < j < |p|
      ensures p[i] <= p[j]
    {
      assert p[i] == s[i] && p[j] == s[j];
    }
  }

  /** The admitted readings grow by the last reading exactly when it was admitted. */
  lemma AdmittedLast(times: seq<Time>, answers: seq<bool>, last: bool)
    requires |times| == |answers| + 1
    ensures Admitted(times, answers + [last])
         == if last then Admitted(times[..|answers|], answers) + [times[|answers|]]
            else Admitted(times[..|answers|], answers)
  {
    assert (answers + [last])[..|answers|] == answers;
    var base := Admitted(times[..|answers|], answers);
    assert base + [] == base;
  }

  /**
   A burst of checks from no history, all at clock readings in one
   window-long interval `(hi - window, hi]`, in any order: the first
   `maxRequests` are admitted and every later one is denied, and the stored
   list is the admitted readings.
   */
  lemma {:induction false} BurstWithinWindow(times: seq<Time>, limits: Limits, hi: Time)
    requires limits.Valid()
    requires forall i :: 0 <= i < |times| ==> hi - limits.window < times[i] <= hi
    ensures forall i :: 0 <= i < |times| ==> RunUser([], times, limits).answers[i] == (i < limits.maxRequests)
    ensures RunUser([], times, limits).kept
         == times[..if |times| < limits.maxRequests then |times| else limits.maxRequests]
    decreases |times|
  {
    var n := |times|;
    if n > 0 {
      var prefix := times[..n - 1];
      var now := times[n - 1];
      BurstWithinWindow(prefix, limits, hi);
      var prev := RunUser([], prefix, limits);
      var k := if n - 1 < limits.maxRequests then n - 1 else limits.maxRequests;
      assert prev.kept == times[..k];
      BurstStep(prev.kept, now, limits, hi);
      if n - 1 < limits.maxRequests {
        TakeOneMore(times, n - 1);
      }
    } else {
      assert times[..0] == [];
    }
  }

  /** Taking one more element of a sequence appends that element. */
  lemma TakeOneMore(s: seq<Time>, k: nat)
    requires k < |s|
    ensures s[..k] + [s[k]] == s[..k + 1]
  {
  }

  /**
   One check inside a burst: when every stored reading lies after
   `hi - window` and `now` is no later than `hi`, nothing is pruned, so the
   check admits exactly when the stored list is below the quota.
   */
  lemma BurstStep(h: seq<Time>, now: Time, limits: Limits, hi: Time)
    requires limits.Valid()
    requires forall i :: 0 <= i < |h| ==> hi - limits.window < h[i]
    requires now <= hi
    ensures Admit(h, now, limits).allowed == (|h| < limits.maxRequests)
    ensures Admit(h, now, limits).kept == if |h| < limits.maxRequests then h + [now] else h
  {
    PruneKeepsAll(h, now - limits.window);
  }

  /**
   The gateway's configuration (a 60 second window, 5 requests): six checks
   for one user within one second are admitted five times and then denied.
   */
  lemma SixCallsWithinOneSecond()
    ensures Run(map[], "u1", [0.0, 0.2, 0.4, 0.6, 0.8, 1.0], Default).answers
         == [true, true, true, true, true, false]
  {
    var times := [0.0, 0.2, 0.4, 0.6, 0.8, 1.0];
    assert Default.window == 60.0 && Default.maxRequests == 5;
    forall i | 0 <= i < |times|
      ensures 1.0 - Default.window < times[i] <= 1.0
    {
      assert 0.0 <= times[i] <= 1.0;
    }
    RunIsPerUser(map[], "u1", times, Default);
    BurstWithinWindow(times, Default, 1.0);
    var answers := RunUser([], times, Default).answers;
    assert answers[0] && answers[1] && answers[2] && answers[3] && answers[4] && !answers[5];
  }
}
