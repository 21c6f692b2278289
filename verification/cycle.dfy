/**
 One collection cycle: every configured target is read once, the reads finish in
 some order, and each finished read is applied to the `last_block_height` gauge
 vector as it arrives. A success sets the target's series; a failure changes nothing.
 */
module Cycle {
  import opened Wrappers
  import opened Int64
  import opened Json
  import opened Targets
  import opened Fetchers

  /** The label values of one series: network, app, component, source label. */
  type Series = (string, string, string, string)

  /** The gauge vector: the current value of every series set so far. */
  type Gauges = map<Series, i64>

  /** What one finished read hands to the drain loop. */
  type Outcome = Result<Target, MError>

  function SeriesOf(t: Target): Series
  {
    (t.network, t.app, t.component, t.sourceLabel)
  }

  /** The outcome is a success that carries a reading for series `s`. */
  predicate Writes(o: Outcome, s: Series)
  {
    o.Ok? && o.value.result.Some? && SeriesOf(o.value) == s
  }

  /** One turn of the drain loop: a reading overwrites its own series and no other;
      an error, or a success without a reading, leaves the gauges as they were. */
  function Apply(g: Gauges, o: Outcome): (r: Gauges)
    ensures forall s :: !Writes(o, s) ==> (s in r <==> s in g) && (s in g ==> r[s] == g[s])
    ensures o.Ok? && o.value.result.Some? ==>
      SeriesOf(o.value) in r && r[SeriesOf(o.value)] == o.value.result.value
    ensures o.Err? ==> r == g
  {
    match o
    case Ok(t) => if t.result.Some? then g[SeriesOf(t) := t.result.value] else g
    case Err(_) => g
  }

  /** The outcomes applied one after the other, first to last. */
  function ApplyAll(g: Gauges, outs: seq<Outcome>): Gauges
    decreases |outs|
  {
    if |outs| == 0 then g else Apply(ApplyAll(g, outs[..|outs| - 1]), outs[|outs| - 1])
  }

  /** The drain loop of `main`, one outcome per turn as the reads complete. */
  method Drain(g: Gauges, outs: seq<Outcome>) returns (r: Gauges)
    ensures r == ApplyAll(g, outs)
  {
    r := g;
    var i := 0;
    while i < |outs|
      invariant 0 <= i <= |outs|
      invariant r == ApplyAll(g, outs[..i])
    {
      assert outs[..i + 1][..i] == outs[..i];
      r := Apply(r, outs[i]);
      i := i + 1;
    }
    assert outs[..|outs|] == outs;
  }

  /** A series that no outcome writes keeps its value, or stays absent. */
  lemma {:induction false} ApplyAllUntouched(g: Gauges, outs: seq<Outcome>, s: Series)
    requires forall k :: 0 <= k < |outs| ==> !Writes(outs[k], s)
    ensures s in ApplyAll(g, outs) <==> s in g
    ensures s in g ==> ApplyAll(g, outs)[s] == g[s]
    decreases |outs|
  {
    if |outs| > 0 {
      var prefix := outs[..|outs| - 1];
      assert forall k :: 0 <= k < |prefix| ==> prefix[k] == outs[k];
      ApplyAllUntouched(g, prefix, s);
    }
  }

  /** Last write wins: a series holds the reading of the last outcome that wrote it. */
  lemma {:induction false} ApplyAllLastWrite(g: Gauges, outs: seq<Outcome>, s: Series, k: nat)
    requires k < |outs| && Writes(outs[k], s)
    requires forall j :: k < j < |outs| ==> !Writes(outs[j], s)
    ensures s in ApplyAll(g, outs) && ApplyAll(g, outs)[s] == outs[k].value.result.value
    decreases |outs|
  {
    if k < |outs| - 1 {
      var prefix := outs[..|outs| - 1];
      assert forall j :: 0 <= j < |prefix| ==> prefix[j] == outs[j];
      ApplyAllLastWrite(g, prefix, s, k);
    }
  }

  /** `order` lists every index below `n` exactly once: the order in which the
      concurrently running reads of `n` targets complete. */
  predicate IsArrivalOrder(order: seq<nat>, n: nat)
  {
    && |order| == n
    && (forall k :: 0 <= k < n ==> order[k] < n)
    && (forall j, k :: 0 <= j < k < n ==> order[j] != order[k])
  }

  /** `n` distinct indices below `n` are all of them. */
  lemma {:induction false} ArrivalOrderCoversAll(order: seq<nat>, n: nat)
    requires IsArrivalOrder(order, n)
    ensures forall i :: 0 <= i < n ==> i in order
    decreases n
  {
    if n > 0 {
      // Drop the last arrival x and rename n - 1 to x in what remains:
      // n - 1 distinct indices below n - 1.
      var x := order[n - 1];
      var rest := seq(n - 1, k requires 0 <= k < n - 1 => if order[k] == n - 1 then x else order[k]);
      assert IsArrivalOrder(rest, n - 1) by {
        forall k | 0 <= k < n - 1 ensures rest[k] < n - 1 {
          assert order[k] != x;
        }
        forall j, k | 0 <= j < k < n - 1 ensures rest[j] != rest[k] {
          assert order[j] != order[k] && order[j] != x && order[k] != x;
        }
      }
      ArrivalOrderCoversAll(rest, n - 1);
      forall i | 0 <= i < n ensures i in order {
        if i == x {
          assert order[n - 1] == i;
        } else if i == n - 1 {
          assert x in rest;
          var k :| 0 <= k < n - 1 && rest[k] == x;
          assert order[k] == n - 1;
        } else {
          assert i in rest;
          var k :| 0 <= k < n - 1 && rest[k] == i;
          assert order[k] == i;
        }
      }
    }
  }

  /** The inputs of one cycle fit together: one observation per target, each the
      kind its target's reader performs, and a completion order of the targets. */
  predicate CycleInputs(targets: seq<Target>, obs: seq<Observation>, order: seq<nat>)
  {
    && |obs| == |targets|
    && (forall i :: 0 <= i < |targets| ==> Ready(targets[i], obs[i]))
    && IsArrivalOrder(order, |targets|)
  }

  /** The outcomes of the cycle's reads, in the order they complete. */
  function Arrivals(targets: seq<Target>, obs: seq<Observation>, order: seq<nat>): (outs: seq<Outcome>)
    requires CycleInputs(targets, obs, order)
    ensures |outs| == |targets|
  {
    seq(|order|, k requires 0 <= k < |order| => EmitTarget(targets[order[k]], obs[order[k]]))
  }

  /** Every target contributes exactly one outcome: its own read's. */
  lemma EveryTargetArrivesOnce(targets: seq<Target>, obs: seq<Observation>, order: seq<nat>, i: nat)
    requires CycleInputs(targets, obs, order) && i < |targets|
    ensures exists k :: (0 <= k < |targets| && order[k] == i
      && Arrivals(targets, obs, order)[k] == EmitTarget(targets[i], obs[i]))
    ensures forall j, k :: 0 <= j < |targets| && 0 <= k < |targets| && order[j] == i && order[k] == i ==> j == k
  {
    ArrivalOrderCoversAll(order, |targets|);
    assert i in order;
    var k :| 0 <= k < |order| && order[k] == i;
    assert Arrivals(targets, obs, order)[k] == EmitTarget(targets[i], obs[i]);
  }

  /** The `k`-th arrival writes exactly its target's series, when its read succeeded. */
  lemma ArrivalWrites(targets: seq<Target>, obs: seq<Observation>, order: seq<nat>, k: nat, s: Series)
    requires CycleInputs(targets, obs, order) && k < |targets|
    ensures var t, o := targets[order[k]], obs[order[k]];
      Writes(Arrivals(targets, obs, order)[k], s) <==> Fetch(t, o).Ok? && SeriesOf(t) == s
    ensures var t, o := targets[order[k]], obs[order[k]];
      Fetch(t, o).Ok? ==> Arrivals(targets, obs, order)[k].value.result == Some(Fetch(t, o).value)
  {
  }

  /** One pass of the collection loop: all targets read, outcomes applied as they arrive. */
  function RunCycle(g: Gauges, targets: seq<Target>, obs: seq<Observation>, order: seq<nat>): Gauges
    requires CycleInputs(targets, obs, order)
  {
    ApplyAll(g, Arrivals(targets, obs, order))
  }

  /** `main`'s loop body as a method: launch the reads, then drain their outcomes. */
  method CollectOnce(g: Gauges, targets: seq<Target>, obs: seq<Observation>, order: seq<nat>)
    returns (r: Gauges)
    requires CycleInputs(targets, obs, order)
    ensures r == RunCycle(g, targets, obs, order)
  {
    var outs := Arrivals(targets, obs, order);
    r := Drain(g, outs);
  }

  /** Failure isolation: a series whose targets all failed keeps its previous value. */
  lemma CycleKeepsFailedSeries(g: Gauges, targets: seq<Target>, obs: seq<Observation>, order: seq<nat>, s: Series)
    requires CycleInputs(targets, obs, order)
    requires forall i :: 0 <= i < |targets| && SeriesOf(targets[i]) == s ==> Fetch(targets[i], obs[i]).Err?
    ensures s in RunCycle(g, targets, obs, order) <==> s in g
    ensures s in g ==> RunCycle(g, targets, obs, order)[s] == g[s]
  {
    var outs := Arrivals(targets, obs, order);
    forall k | 0 <= k < |outs| ensures !Writes(outs[k], s) {
      ArrivalWrites(targets, obs, order, k, s);
    }
    ApplyAllUntouched(g, outs, s);
  }

  /** No two targets publish to the same series. */
  predicate DistinctSeries(targets: seq<Target>)
  {
    forall i, j :: 0 <= i < j < |targets| ==> SeriesOf(targets[i]) != SeriesOf(targets[j])
  }

  /** With distinct series, every successful read ends up in its series, whatever
      the order of completion. */
  lemma CycleSetsEveryReading(g: Gauges, targets: seq<Target>, obs: seq<Observation>, order: seq<nat>, i: nat)
    requires CycleInputs(targets, obs, order) && DistinctSeries(targets)
    requires i < |targets| && Fetch(targets[i], obs[i]).Ok?
    ensures var r := RunCycle(g, targets, obs, order);
      SeriesOf(targets[i]) in r && r[SeriesOf(targets[i])] == Fetch(targets[i], obs[i]).value
  {
    var outs := Arrivals(targets, obs, order);
    var s := SeriesOf(targets[i]);
    EveryTargetArrivesOnce(targets, obs, order, i);
    var k :| 0 <= k < |targets| && order[k] == i;
    ArrivalWrites(targets, obs, order, k, s);
    forall j | k < j < |outs| ensures !Writes(outs[j], s) {
      ArrivalWrites(targets, obs, order, j, s);
      assert order[j] != i;
      if order[j] < i {
        assert SeriesOf(targets[order[j]]) != s;
      } else {
        assert SeriesOf(targets[i]) != SeriesOf(targets[order[j]]);
      }
    }
    ApplyAllLastWrite(g, outs, s, k);
  }

  /** With distinct series, the order in which reads complete does not matter. */
  lemma CycleOrderIrrelevant(g: Gauges, targets: seq<Target>, obs: seq<Observation>, order1: seq<nat>, order2: seq<nat>)
    requires CycleInputs(targets, obs, order1) && CycleInputs(targets, obs, order2)
    requires DistinctSeries(targets)
    ensures RunCycle(g, targets, obs, order1) == RunCycle(g, targets, obs, order2)
  {
    var r1 := RunCycle(g, targets, obs, order1);
    var r2 := RunCycle(g, targets, obs, order2);
    forall s: Series ensures (s in r1 <==> s in r2) && (s in r1 ==> r1[s] == r2[s]) {
      if i :| 0 <= i < |targets| && SeriesOf(targets[i]) == s && Fetch(targets[i], obs[i]).Ok? {
        CycleSetsEveryReading(g, targets, obs, order1, i);
        CycleSetsEveryReading(g, targets, obs, order2, i);
      } else {
        CycleKeepsFailedSeries(g, targets, obs, order1, s);
        CycleKeepsFailedSeries(g, targets, obs, order2, s);
      }
    }
  }

  /** A chain node whose reply carries block number `0x3e8` (offset 0) and a
      dictionary whose reply carries height 500, under distinct labels: after one
      cycle from empty gauges, exactly their two series exist, at 1000 and 500. */
  lemma TwoTargetScenario(node: Target, dict: Target, order: seq<nat>)
    requires node.kind == ChainNode && node.blockLabel.Some? && node.blockLabelOffset == Some(0)
    requires dict.kind == DictEntry
    requires SeriesOf(node) != SeriesOf(dict)
    requires IsArrivalOrder(order, 2)
    ensures var obs := [HttpReply(Decoded(Nest(NUMBER_PATH, Str("0x3e8")))),
                        HttpReply(Decoded(Nest(HEIGHT_PATH, Int(500))))];
      && CycleInputs([node, dict], obs, order)
      && RunCycle(map[], [node, dict], obs, order) == map[SeriesOf(node) := 1000, SeriesOf(dict) := 500]
  {
    var targets := [node, dict];
    var obs := [HttpReply(Decoded(Nest(NUMBER_PATH, Str("0x3e8")))),
                HttpReply(Decoded(Nest(HEIGHT_PATH, Int(500))))];
    NodeHeightThousand();
    GraphqlHeightOfNest(500);
    assert Fetch(node, obs[0]) == Ok(1000);
    assert Fetch(dict, obs[1]) == Ok(500);
    assert CycleInputs(targets, obs, order);
    var r := RunCycle(map[], targets, obs, order);
    CycleSetsEveryReading(map[], targets, obs, order, 0);
    CycleSetsEveryReading(map[], targets, obs, order, 1);
    forall s: Series | s != SeriesOf(node) && s != SeriesOf(dict) ensures s !in r {
      CycleKeepsFailedSeries(map[], targets, obs, order, s);
    }
  }
}
