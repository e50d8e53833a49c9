/**
 The sliding-window rate limiter of the gateway.

 For every user id the limiter keeps the timestamps of that user's admitted
 requests. A check first forgets every timestamp at or before
 `now - window`, then denies if `maxRequests` or more timestamps remain, and
 otherwise records `now` and admits. The process-wide table of the source is
 threaded through explicitly as a `RequestLog` value, and the clock reading
 is an argument.
 */
module RateLimiter {

  /** A reading of the limiter's clock, in seconds. */
  type Time = real

  /** user id -> timestamps of that user's admitted requests, in arrival order */
  type RequestLog = map<string, seq<Time>>

  /** Length of the trailing window, in seconds. */
  const WindowSize: real := 60.0

  /** Number of requests admitted per window. */
  const MaxRequests: nat := 5

  /** The limiter's configuration. */
  datatype Limits = Limits(window: real, maxRequests: nat) {
    predicate Valid() {
      window > 0.0 && maxRequests > 0
    }
  }

  /** The configuration the gateway runs with. */
  const Default: Limits := Limits(WindowSize, MaxRequests)

  /** The answer of one admission check and the checked user's list after it. */
  datatype Check = Check(allowed: bool, kept: seq<Time>)

  /** The answer of one admission check and the whole table after it. */
  datatype Decision = Decision(allowed: bool, log: RequestLog)

  /** The timestamps stored for `user`; a user never seen has none. */
  function History(log: RequestLog, user: string): seq<Time> {
    if user in log then log[user] else []
  }

  /** Every timestamp of `s` lies strictly after `cutoff`. */
  ghost predicate AllAfter(s: seq<Time>, cutoff: Time) {
    forall i :: 0 <= i < |s| ==> s[i] > cutoff
  }

  /** The timestamps of `s` never go backwards. */
  ghost predicate Sorted(s: seq<Time>) {
    forall i, j :: 0 <= i < j < |s| ==> s[i] <= s[j]
  }

  /** `a` is obtained from `b` by deleting elements, keeping the rest in order. */
  ghost predicate IsSubsequence(a: seq<Time>, b: seq<Time>)
    decreases |b|
  {
    || |a| == 0
    || (&& |b| > 0
        && ((a[0] == b[0] && IsSubsequence(a[1..], b[1..])) || IsSubsequence(a, b[1..])))
  }

  /** No user stores more than `max` timestamps. */
  ghost predicate WithinQuota(log: RequestLog, max: nat) {
    forall u :: u in log ==> |log[u]| <= max
  }

  /**
   The timestamps of `s` strictly after `cutoff`, in their original order:
   exactly the ones later than the cutoff, each as often as in `s`.
   */
  function Prune(s: seq<Time>, cutoff: Time): (r: seq<Time>)
    ensures AllAfter(r, cutoff)
    ensures forall x :: multiset(r)[x] == if x > cutoff then multiset(s)[x] else 0
    ensures IsSubsequence(r, s)
    ensures |r| <= |s|
  {
    if |s| == 0 then []
    else
      assert s == [s[0]] + s[1..];
      if s[0] > cutoff then [s[0]] + Prune(s[1..], cutoff)
      else Prune(s[1..], cutoff)
  }

  /**
   One admission check against a user's stored list `h` at clock reading
   `now`: the list is pruned in every case, and `now` is added to it only
   when the request is admitted.
   */
  function Admit(h: seq<Time>, now: Time, limits: Limits): (c: Check)
    requires limits.Valid()
    ensures c.allowed <==> |Prune(h, now - limits.window)| < limits.maxRequests
    ensures !c.allowed ==> c.kept == Prune(h, now - limits.window)
    ensures c.allowed ==> c.kept == Prune(h, now - limits.window) + [now]
    ensures c.allowed ==> |c.kept| == |Prune(h, now - limits.window)| + 1
    ensures AllAfter(c.kept, now - limits.window)
    ensures c.allowed ==> |c.kept| <= limits.maxRequests
  {
    var kept := Prune(h, now - limits.window);
    if |kept| >= limits.maxRequests then Check(false, kept)
    else Check(true, kept + [now])
  }

  /**
   One admission check for `user` against the whole table. The user's entry
   is created if absent and replaced by the outcome of `Admit` on its stored
   list; no other user's entry is created, removed or changed.
   */
  function Allow(log: RequestLog, user: string, now: Time, limits: Limits): (d: Decision)
    requires limits.Valid()
    ensures user in d.log
    ensures forall u :: u != user ==> (u in d.log <==> u in log)
    ensures forall u :: u in log && u != user ==> d.log[u] == log[u]
    ensures d.allowed == Admit(History(log, user), now, limits).allowed
    ensures d.log[user] == Admit(History(log, user), now, limits).kept
  {
    var c := Admit(History(log, user), now, limits);
    Decision(c.allowed, log[user := c.kept])
  }

  /** A user with no stored timestamps is admitted, and then has exactly `now`. */
  lemma FirstCallAllowed(log: RequestLog, user: string, now: Time, limits: Limits)
    requires limits.Valid()
    requires History(log, user) == []
    ensures Allow(log, user, now, limits).allowed
    ensures Allow(log, user, now, limits).log[user] == [now]
  {
  }

  /** Pruning removes nothing when every timestamp is after the cutoff. */
  lemma {:induction false} PruneKeepsAll(s: seq<Time>, cutoff: Time)
    requires AllAfter(s, cutoff)
    ensures Prune(s, cutoff) == s
    decreases |s|
  {
    if |s| > 0 {
      PruneKeepsAll(s[1..], cutoff);
    }
  }

  /** Pruning removes at least one timestamp when one is at or before the cutoff. */
  lemma {:induction false} PruneDropsExpired(s: seq<Time>, cutoff: Time, i: nat)
    requires i < |s| && s[i] <= cutoff
    ensures |Prune(s, cutoff)| < |s|
    decreases |s|
  {
    if i > 0 {
      PruneDropsExpired(s[1..], cutoff, i - 1);
    }
  }

  /** Pruning with a cutoff, then with a later one, is pruning with the later one. */
  lemma {:induction false} PruneTwice(s: seq<Time>, c1: Time, c2: Time)
    requires c1 <= c2
    ensures Prune(Prune(s, c1), c2) == Prune(s, c2)
    decreases |s|
  {
    if |s| > 0 {
      PruneTwice(s[1..], c1, c2);
      if s[0] > c1 {
        assert ([s[0]] + Prune(s[1..], c1))[1..] == Prune(s[1..], c1);
      }
    }
  }

  /** Pruning a concatenation prunes each part. */
  lemma {:induction false} PruneAppend(a: seq<Time>, b: seq<Time>, cutoff: Time)
    ensures Prune(a + b, cutoff) == Prune(a, cutoff) + Prune(b, cutoff)
    decreases |a|
  {
    if |a| > 0 {
      PruneAppend(a[1..], b, cutoff);
      assert (a + b)[1..] == a[1..] + b;
    } else {
      assert a + b == b;
    }
  }

  /** Every timestamp kept by pruning comes from the list and is after the cutoff. */
  lemma {:induction false} PruneMember(s: seq<Time>, cutoff: Time, x: Time)
    requires x in Prune(s, cutoff)
    ensures x in s && x > cutoff
    decreases |s|
  {
    if s[0] > cutoff && x == s[0] {
    } else {
      PruneMember(s[1..], cutoff, x);
    }
  }

  /** A timestamp no later than every entry of a sorted list may go in front of it. */
  lemma SortedCons(x: Time, s: seq<Time>)
    requires Sorted(s)
    requires forall j :: 0 <= j < |s| ==> x <= s[j]
    ensures Sorted([x] + s)
  {
    var r := [x] + s;
    forall i, j | 0 <= i < j < |r|
      ensures r[i] <= r[j]
    {
      assert r[j] == s[j - 1];
      if i > 0 {
        assert r[i] == s[i - 1];
      }
    }
  }

  /** A timestamp no earlier than every entry of a sorted list may go behind it. */
  lemma SortedSnoc(s: seq<Time>, x: Time)
    requires Sorted(s)
    requires forall j :: 0 <= j < |s| ==> s[j] <= x
    ensures Sorted(s + [x])
  {
    var r := s + [x];
    forall i, j | 0 <= i < j < |r|
      ensures r[i] <= r[j]
    {
      assert r[i] == s[i];
      if j < |s| {
        assert r[j] == s[j];
      }
    }
  }

  /** Pruning a list that never goes backwards gives a list that never goes backwards. */
  lemma {:induction false} PruneSorted(s: seq<Time>, cutoff: Time)
    requires Sorted(s)
    ensures Sorted(Prune(s, cutoff))
    decreases |s|
  {
    if |s| > 0 {
      var p := Prune(s[1..], cutoff);
      PruneSorted(s[1..], cutoff);
      if s[0] > cutoff {
        forall j | 0 <= j < |p|
          ensures s[0] <= p[j]
        {
          PruneMember(s[1..], cutoff, p[j]);
          var k :| 0 <= k < |s[1..]| && s[1..][k] == p[j];
          assert s[k + 1] == p[j];
        }
        SortedCons(s[0], p);
      }
    }
  }

  /**
   On a list that never goes backwards, pruning drops a prefix: what remains
   is the newest part of the list.
   */
  lemma {:induction false} PruneIsSuffix(s: seq<Time>, cutoff: Time)
    requires Sorted(s)
    ensures exists k :: 0 <= k <= |s| && Prune(s, cutoff) == s[k..]
    decreases |s|
  {
    if |s| == 0 {
      assert Prune(s, cutoff) == s[0..];
    } else if s[0] > cutoff {
      PruneKeepsAll(s, cutoff);
      assert Prune(s, cutoff) == s[0..];
    } else {
      PruneIsSuffix(s[1..], cutoff);
      var k :| 0 <= k <= |s[1..]| && Prune(s[1..], cutoff) == s[1..][k..];
      assert s[1..][k..] == s[k + 1..];
    }
  }

  /**
   A list that respects the quota and holds a timestamp that has left the
   window is admitted again.
   */
  lemma AdmitsAgainAfterWindow(h: seq<Time>, now: Time, limits: Limits, i: nat)
    requires limits.Valid()
    requires |h| <= limits.maxRequests
    requires i < |h| && h[i] <= now - limits.window
    ensures Admit(h, now, limits).allowed
  {
    PruneDropsExpired(h, now - limits.window, i);
  }

  /** No check ever lets a user's list exceed the quota. */
  lemma AllowPreservesQuota(log: RequestLog, user: string, now: Time, limits: Limits)
    requires limits.Valid()
    requires WithinQuota(log, limits.maxRequests)
    ensures WithinQuota(Allow(log, user, now, limits).log, limits.maxRequests)
  {
    var d := Allow(log, user, now, limits);
    forall u | u in d.log
      ensures |d.log[u]| <= limits.maxRequests
    {
      if u == user && !d.allowed {
        assert |d.log[u]| <= |History(log, user)|;
      }
    }
  }

  /**
   While the clock does not go backwards, every user's list stays in
   non-decreasing time order.
   */
  lemma AllowKeepsOrder(log: RequestLog, user: string, now: Time, limits: Limits)
    requires limits.Valid()
    requires forall u :: u in log ==> Sorted(log[u])
    requires forall i :: 0 <= i < |History(log, user)| ==> History(log, user)[i] <= now
    ensures forall u :: u in Allow(log, user, now, limits).log ==> Sorted(Allow(log, user, now, limits).log[u])
  {
    var h := History(log, user);
    var kept := Prune(h, now - limits.window);
    PruneSorted(h, now - limits.window);
    forall j | 0 <= j < |kept|
      ensures kept[j] <= now
    {
      PruneMember(h, now - limits.window, kept[j]);
    }
    SortedSnoc(kept, now);
  }

  /**
   Checks for two different users commute: each gets the same answer and the
   table ends up the same whichever comes first.
   */
  lemma ChecksOfDifferentUsersCommute(log: RequestLog, u: string, tu: Time, v: string, tv: Time, limits: Limits)
    requires limits.Valid()
    requires u != v
    ensures Allow(Allow(log, u, tu, limits).log, v, tv, limits).allowed == Allow(log, v, tv, limits).allowed
    ensures Allow(Allow(log, v, tv, limits).log, u, tu, limits).allowed == Allow(log, u, tu, limits).allowed
    ensures Allow(Allow(log, u, tu, limits).log, v, tv, limits).log
         == Allow(Allow(log, v, tv, limits).log, u, tu, limits).log
  {
    var cu := Admit(History(log, u), tu, limits);
    var cv := Admit(History(log, v), tv, limits);
    CheckLeavesOthers(log, u, tu, v, limits);
    CheckLeavesOthers(log, v, tv, u, limits);
    assert log[u := cu.kept][v := cv.kept] == log[v := cv.kept][u := cu.kept];
  }

  /** A check for one user leaves what every other user has stored as it was. */
  lemma CheckLeavesOthers(log: RequestLog, user: string, now: Time, other: string, limits: Limits)
    requires limits.Valid()
    requires other != user
    ensures History(Allow(log, user, now, limits).log, other) == History(log, other)
  {
  }

  /**
   The decision reflects every request ever admitted, not only the stored
   list. If the stored list `h` is the admitted timestamps pruned at an
   earlier cutoff, and at most `maxRequests` of them, then the request at
   `now` is admitted exactly when fewer than `maxRequests` admitted requests
   fall in the window ending at `now`; afterwards the same relation holds at
   the new cutoff, again with at most `maxRequests` timestamps.
   */
  lemma SlidingWindowStep(h: seq<Time>, now: Time, limits: Limits, admitted: seq<Time>, cutoff: Time)
    requires limits.Valid()
    requires h == Prune(admitted, cutoff)
    requires |h| <= limits.maxRequests
    requires cutoff <= now - limits.window
    ensures Admit(h, now, limits).allowed <==> |Prune(admitted, now - limits.window)| < limits.maxRequests
    ensures var c := Admit(h, now, limits);
            var admitted' := if c.allowed then admitted + [now] else admitted;
            && c.kept == Prune(admitted', now - limits.window)
            && |c.kept| <= limits.maxRequests
  {
    var c := now - limits.window;
    PruneTwice(admitted, cutoff, c);
    PruneAppend(admitted, [now], c);
    assert Prune([now], c) == [now];
  }
}
