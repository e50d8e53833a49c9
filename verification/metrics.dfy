/**
 The gateway's in-memory metrics registry: named counters that start at zero
 the first time they are incremented and only ever go up, and a snapshot
 that copies them. The process-wide counter table of the source is threaded
 through explicitly as a `Counters` value.
 */
module Metrics {

  /** counter name -> count; a name that was never incremented is absent */
  type Counters = map<string, nat>

  /** A snapshot taken from the registry, and the registry after taking it. */
  datatype Reading = Reading(view: Counters, registry: Counters)

  /** The value of counter `name`; an absent counter reads as zero. */
  function Count(m: Counters, name: string): nat {
    if name in m then m[name] else 0
  }

  /**
   Adds one to counter `name`, creating it at zero first if it is absent.
   No other counter is created, removed or changed.
   */
  function Inc(m: Counters, name: string): (r: Counters)
    ensures r.Keys == m.Keys + {name}
    ensures name in r && r[name] == Count(m, name) + 1
    ensures forall k :: k in m && k != name ==> r[k] == m[k]
  {
    m[name := Count(m, name) + 1]
  }

  /**
   A copy of every counter; taking it leaves the registry as it was.
   */
  function Snapshot(m: Counters): (r: Reading)
    ensures r.view.Keys == m.Keys
    ensures forall k :: k in r.view ==> r.view[k] == m[k]
    ensures r.registry == m
  {
    Reading(map k | k in m :: m[k], m)
  }

  /** Increments for each name of `names`, in order. */
  function IncAll(m: Counters, names: seq<string>): (r: Counters)
    ensures r.Keys == m.Keys + set i | 0 <= i < |names| :: names[i]
    decreases |names|
  {
    if |names| == 0 then m
    else IncAll(Inc(m, names[0]), names[1..])
  }

  /** The first increment of a counter leaves it at one. */
  lemma IncFromAbsent(m: Counters, name: string)
    requires name !in m
    ensures Inc(m, name)[name] == 1
  {
  }

  /** Counters never go down: no counter reads lower after an increment. */
  lemma IncMonotone(m: Counters, name: string)
    ensures forall k :: Count(m, k) <= Count(Inc(m, name), k)
    ensures forall k :: k != name ==> Count(Inc(m, name), k) == Count(m, k)
  {
  }

  /**
   Exact counting: after a sequence of increments every counter has gone up
   by exactly the number of times its name occurs in the sequence.
   */
  lemma {:induction false} IncAllCounts(m: Counters, names: seq<string>)
    ensures forall k :: Count(IncAll(m, names), k) == Count(m, k) + multiset(names)[k]
    decreases |names|
  {
    if |names| > 0 {
      IncAllCounts(Inc(m, names[0]), names[1..]);
      assert names == [names[0]] + names[1..];
      assert multiset(names) == multiset{names[0]} + multiset(names[1..]);
    }
  }

  /** The order of increments does not matter: only how often each name occurs. */
  lemma IncAllOrderIrrelevant(m: Counters, a: seq<string>, b: seq<string>)
    requires multiset(a) == multiset(b)
    ensures IncAll(m, a) == IncAll(m, b)
  {
    IncAllCounts(m, a);
    IncAllCounts(m, b);
    var ra := IncAll(m, a);
    var rb := IncAll(m, b);
    forall k | k in ra
      ensures k in rb && ra[k] == rb[k]
    {
      assert Count(ra, k) == Count(rb, k);
      if k !in m {
        assert k in multiset(a);
        assert k in b;
        var i :| 0 <= i < |b| && b[i] == k;
      }
    }
    forall k | k in rb
      ensures k in ra
    {
      if k !in m {
        assert k in multiset(b);
        assert k in a;
        var i :| 0 <= i < |a| && a[i] == k;
      }
    }
  }

  /** Two snapshots with no increment between them are equal. */
  lemma SnapshotTwice(m: Counters)
    ensures Snapshot(Snapshot(m).registry).view == Snapshot(m).view
  {
  }

  /**
   A snapshot is a copy, not a live view: an increment after it changes the
   registry but not the snapshot already taken.
   */
  lemma SnapshotIsACopy(m: Counters, name: string)
    ensures var s := Snapshot(m);
            var m' := Inc(s.registry, name);
            && Count(m', name) == Count(s.view, name) + 1
            && forall k :: k != name ==> Count(m', k) == Count(s.view, k)
  {
  }
}
