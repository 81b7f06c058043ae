/**
 * The health monitor (monitor_loop, poe_monitor.py:85-107): each poll
 * cycle reads every camera, probes it, advances its count of consecutive
 * failures and power-cycles its switch port when the count reaches
 * FAIL_THRESHOLD, then writes the count back.
 *
 * Probe results (ping_host, poe_monitor.py:52-55) are an input: one
 * boolean per visited row, true when the camera answered.
 */
module Monitor {
  import opened Config
  import opened Snmp
  import opened Cameras

  /** The count to write back, and whether the camera's port was power-cycled. */
  datatype Step = Step(failCount: int, powerCycle: bool)

  /** One camera's visit: its stored count and its probe result decide the step (poe_monitor.py:93-101). */
  function Transition(failCount: int, reachable: bool): (s: Step)
    ensures reachable ==> s == Step(0, false)
    ensures !reachable && failCount + 1 < FAIL_THRESHOLD ==> s == Step(failCount + 1, false)
    ensures !reachable && failCount + 1 >= FAIL_THRESHOLD ==> s == Step(0, true)
    ensures CountInRange(failCount) ==> CountInRange(s.failCount)
  {
    if reachable then Step(0, false)
    else if failCount + 1 >= FAIL_THRESHOLD then Step(0, true)
    else Step(failCount + 1, false)
  }

  // ---------------------------------------------------------------
  // One camera across successive cycles
  // ---------------------------------------------------------------

  /** A camera's count after a series of visits, and how many power cycles they issued. */
  datatype History = History(failCount: int, powerCycles: nat)

  function Run(failCount: int, probes: seq<bool>): History
    decreases |probes|
  {
    if |probes| == 0 then History(failCount, 0)
    else
      var s := Transition(failCount, probes[0]);
      var rest := Run(s.failCount, probes[1..]);
      History(rest.failCount, rest.powerCycles + (if s.powerCycle then 1 else 0))
  }

  function Failures(n: nat): (probes: seq<bool>)
    ensures |probes| == n && forall i :: 0 <= i < n ==> !probes[i]
  {
    seq(n, _ => false)
  }

  function FailedProbes(probes: seq<bool>): (n: nat)
    ensures n <= |probes|
  {
    if |probes| == 0 then 0 else (if probes[0] then 0 else 1) + FailedProbes(probes[1..])
  }

  /** Visits split at any point compose. */
  lemma {:induction false} RunAppend(failCount: int, p: seq<bool>, q: seq<bool>)
    ensures var h := Run(failCount, p);
            var h' := Run(h.failCount, q);
            Run(failCount, p + q) == History(h'.failCount, h.powerCycles + h'.powerCycles)
    decreases |p|
  {
    if |p| > 0 {
      assert (p + q)[1..] == p[1..] + q;
      RunAppend(Transition(failCount, p[0]).failCount, p[1..], q);
    } else {
      assert p + q == q;
    }
  }

  /**
   * n consecutive failures from a count k in range leave the count at
   * (k + n) mod FAIL_THRESHOLD and issue (k + n) div FAIL_THRESHOLD power cycles.
   */
  lemma {:induction false} FailureStreak(k: int, n: nat)
    requires CountInRange(k)
    ensures Run(k, Failures(n)) == History((k + n) % FAIL_THRESHOLD, (k + n) / FAIL_THRESHOLD)
    decreases n
  {
    if n > 0 {
      assert Failures(n)[1..] == Failures(n - 1);
      FailureStreak(Transition(k, false).failCount, n - 1);
    }
  }

  /** From a healthy camera, FAIL_THRESHOLD consecutive failures issue exactly one power cycle and leave it at 0. */
  lemma ThresholdFailuresCycleOnce()
    ensures Run(0, Failures(FAIL_THRESHOLD as nat)) == History(0, 1)
  {
    FailureStreak(0, FAIL_THRESHOLD as nat);
  }

  /** From a healthy camera, fewer than FAIL_THRESHOLD failures issue no power cycle. */
  lemma FewerFailuresNoCycle(n: nat)
    requires n < FAIL_THRESHOLD
    ensures Run(0, Failures(n)) == History(n, 0)
  {
    FailureStreak(0, n);
  }

  /** A successful probe resets the count whatever came before, and issues no power cycle of its own. */
  lemma SuccessResets(failCount: int, probes: seq<bool>)
    ensures Run(failCount, probes + [true]) == History(0, Run(failCount, probes).powerCycles)
  {
    RunAppend(failCount, probes, [true]);
  }

  /**
   * A count that starts in [0, FAIL_THRESHOLD) stays there, and every
   * power cycle is paid for by FAIL_THRESHOLD failed probes: a camera is
   * never power-cycled more often than its failures allow.
   */
  lemma {:induction false} RunBounded(failCount: int, probes: seq<bool>)
    requires CountInRange(failCount)
    ensures CountInRange(Run(failCount, probes).failCount)
    ensures FAIL_THRESHOLD * Run(failCount, probes).powerCycles + Run(failCount, probes).failCount
            <= failCount + FailedProbes(probes)
    decreases |probes|
  {
    if |probes| > 0 {
      RunBounded(Transition(failCount, probes[0]).failCount, probes[1..]);
    }
  }

  // ---------------------------------------------------------------
  // One poll cycle over a snapshot of the table
  // ---------------------------------------------------------------

  /** The UPDATE a visit issues: the row's id and the count to store. */
  datatype Write = Write(id: int, failCount: int)

  function Visit(row: Row, reachable: bool): Write
  {
    Write(row.id, Transition(row.camera.failCount, reachable).failCount)
  }

  /** The UPDATEs of one cycle, one per snapshot row, in snapshot order. */
  function CycleWrites(snapshot: seq<Row>, probes: seq<bool>): (writes: seq<Write>)
    requires |probes| == |snapshot|
    ensures |writes| == |snapshot|
  {
    if |snapshot| == 0 then []
    else
      var n := |snapshot| - 1;
      CycleWrites(snapshot[..n], probes[..n]) + [Visit(snapshot[n], probes[n])]
  }

  /** The ports power-cycled during one cycle, in the order the cycles happen. */
  function CyclePorts(snapshot: seq<Row>, probes: seq<bool>): (ports: seq<int>)
    requires |probes| == |snapshot|
    ensures |ports| <= |snapshot|
  {
    if |snapshot| == 0 then []
    else
      var n := |snapshot| - 1;
      CyclePorts(snapshot[..n], probes[..n])
        + (if Transition(snapshot[n].camera.failCount, probes[n]).powerCycle then [snapshot[n].camera.portIndex] else [])
  }

  /** The table after a sequence of UPDATEs, applied in order. */
  function ApplyWrites(rows: map<int, Camera>, writes: seq<Write>): map<int, Camera>
  {
    if |writes| == 0 then rows
    else
      var n := |writes| - 1;
      Updated(ApplyWrites(rows, writes[..n]), writes[n].id, writes[n].failCount)
  }

  lemma ApplyWritesSnoc(rows: map<int, Camera>, writes: seq<Write>, last: Write)
    ensures ApplyWrites(rows, writes + [last]) == Updated(ApplyWrites(rows, writes), last.id, last.failCount)
  {
    assert (writes + [last])[..|writes|] == writes;
  }

  /** Every snapshot row is visited exactly once, in order, and its write is that row's transition. */
  lemma {:induction false} CycleWritesVisitEach(snapshot: seq<Row>, probes: seq<bool>)
    requires |probes| == |snapshot|
    ensures forall k :: 0 <= k < |snapshot| ==>
      CycleWrites(snapshot, probes)[k]
        == Write(snapshot[k].id, Transition(snapshot[k].camera.failCount, probes[k]).failCount)
  {
    if |snapshot| > 0 {
      var n := |snapshot| - 1;
      CycleWritesVisitEach(snapshot[..n], probes[..n]);
    }
  }

  /**
   * A port is power-cycled in a cycle if and only if it belongs to a row
   * whose probe failed with a count that reached FAIL_THRESHOLD.
   */
  lemma {:induction false} CyclePortsExact(snapshot: seq<Row>, probes: seq<bool>)
    requires |probes| == |snapshot|
    ensures forall port :: port in CyclePorts(snapshot, probes) <==>
      exists k :: 0 <= k < |snapshot| && snapshot[k].camera.portIndex == port
        && !probes[k] && snapshot[k].camera.failCount + 1 >= FAIL_THRESHOLD
  {
    if |snapshot| > 0 {
      var n := |snapshot| - 1;
      CyclePortsExact(snapshot[..n], probes[..n]);
      forall port | (exists k :: 0 <= k < |snapshot| && snapshot[k].camera.portIndex == port
                       && !probes[k] && snapshot[k].camera.failCount + 1 >= FAIL_THRESHOLD)
        ensures port in CyclePorts(snapshot, probes)
      {
        var k :| 0 <= k < |snapshot| && snapshot[k].camera.portIndex == port
          && !probes[k] && snapshot[k].camera.failCount + 1 >= FAIL_THRESHOLD;
        if k < n {
          assert snapshot[..n][k] == snapshot[k] && probes[..n][k] == probes[k];
        }
      }
    }
  }

  /** When every camera answers, no port is touched. */
  lemma {:induction false} AllReachableNoCycle(snapshot: seq<Row>, probes: seq<bool>)
    requires |probes| == |snapshot|
    requires forall k :: 0 <= k < |probes| ==> probes[k]
    ensures CyclePorts(snapshot, probes) == []
  {
    if |snapshot| > 0 {
      var n := |snapshot| - 1;
      AllReachableNoCycle(snapshot[..n], probes[..n]);
    }
  }

  ghost predicate DistinctIds(writes: seq<Write>) {
    forall i, j :: 0 <= i < j < |writes| ==> writes[i].id != writes[j].id
  }

  /**
   * UPDATEs keep the set of rows and every field but fail_count; a row
   * written once ends with the value written, and a row not written is
   * untouched.
   */
  lemma {:induction false} ApplyWritesEffect(rows: map<int, Camera>, writes: seq<Write>)
    requires DistinctIds(writes)
    ensures var after := ApplyWrites(rows, writes);
      && after.Keys == rows.Keys
      && (forall id :: id in rows ==> after[id] == rows[id].(failCount := after[id].failCount))
      && (forall k :: 0 <= k < |writes| && writes[k].id in rows ==> after[writes[k].id].failCount == writes[k].failCount)
      && (forall id :: id in rows && (forall k :: 0 <= k < |writes| ==> writes[k].id != id) ==> after[id] == rows[id])
  {
    if |writes| > 0 {
      var n := |writes| - 1;
      ApplyWritesEffect(rows, writes[..n]);
      var before := ApplyWrites(rows, writes[..n]);
      forall k | 0 <= k < |writes| && writes[k].id in rows
        ensures ApplyWrites(rows, writes)[writes[k].id].failCount == writes[k].failCount
      {
        if k < n {
          assert writes[..n][k] == writes[k];
        }
      }
      forall id | id in rows && (forall k :: 0 <= k < |writes| ==> writes[k].id != id)
        ensures ApplyWrites(rows, writes)[id] == rows[id]
      {
        assert forall k :: 0 <= k < n ==> writes[..n][k].id != id;
      }
    }
  }

  /** The table after one full cycle over its own snapshot. */
  function Poll(rows: map<int, Camera>, hi: int, probes: seq<bool>): map<int, Camera>
    requires |probes| == |Listing(rows, hi)|
  {
    ApplyWrites(rows, CycleWrites(Listing(rows, hi), probes))
  }

  /**
   * After a cycle with no concurrent change, the table has the same rows;
   * each row keeps its name, address and port, and its count is the
   * transition of its stored count under its own probe result.
   */
  lemma CycleEffect(rows: map<int, Camera>, hi: int, probes: seq<bool>)
    requires forall id :: id in rows ==> 1 <= id < hi
    requires |probes| == |Listing(rows, hi)|
    ensures var snapshot, after := Listing(rows, hi), Poll(rows, hi, probes);
      && after.Keys == rows.Keys
      && (forall id :: id in rows ==> after[id] == rows[id].(failCount := after[id].failCount))
      && (forall k :: 0 <= k < |snapshot| ==>
            && snapshot[k].id in after
            && after[snapshot[k].id].failCount == Transition(snapshot[k].camera.failCount, probes[k]).failCount)
  {
    var snapshot := Listing(rows, hi);
    var writes := CycleWrites(snapshot, probes);
    ListingExact(rows, hi);
    CycleWritesVisitEach(snapshot, probes);
    assert DistinctIds(writes) by {
      forall i, j | 0 <= i < j < |writes| ensures writes[i].id != writes[j].id {
        assert snapshot[i].id < snapshot[j].id;
      }
    }
    ApplyWritesEffect(rows, writes);
    forall k | 0 <= k < |snapshot|
      ensures Poll(rows, hi, probes)[snapshot[k].id].failCount
              == Transition(snapshot[k].camera.failCount, probes[k]).failCount
    {
      assert writes[k].id == snapshot[k].id;
    }
  }

  /** A cycle keeps every stored count in [0, FAIL_THRESHOLD). */
  lemma CyclePreservesRange(rows: map<int, Camera>, hi: int, probes: seq<bool>)
    requires forall id :: id in rows ==> 1 <= id < hi
    requires |probes| == |Listing(rows, hi)|
    requires AllCountsInRange(rows)
    ensures AllCountsInRange(Poll(rows, hi, probes))
  {
    var snapshot, after := Listing(rows, hi), Poll(rows, hi, probes);
    CycleEffect(rows, hi, probes);
    ListingExact(rows, hi);
    forall id | id in after ensures CountInRange(after[id].failCount) {
      var k :| 0 <= k < |snapshot| && snapshot[k].id == id;
      assert rows[id] == snapshot[k].camera;
    }
  }

  /**
   * Two cameras, whatever their names, addresses and ports: the first has
   * failed twice and fails again, the second has failed once and answers.
   * The first camera's port is power-cycled once, and both counts return
   * to 0.
   */
  lemma TwoCameraScenario(gate: Camera, yard: Camera)
    requires gate.failCount == 2 && yard.failCount == 1
    ensures var rows := map[1 := gate, 2 := yard];
      && Listing(rows, 3) == [Row(1, gate), Row(2, yard)]
      && Poll(rows, 3, [false, true]) == map[1 := gate.(failCount := 0), 2 := yard.(failCount := 0)]
      && CyclePorts(Listing(rows, 3), [false, true]) == [gate.portIndex]
  {
    ScenarioListing(gate, yard);
    ScenarioVisits(gate, yard);
    ScenarioWrites(gate, yard);
  }

  /** The scenario's table lists both rows, in id order. */
  lemma ScenarioListing(gate: Camera, yard: Camera)
    ensures Listing(map[1 := gate, 2 := yard], 3) == [Row(1, gate), Row(2, yard)]
  {
    var rows := map[1 := gate, 2 := yard];
    assert Listing(rows, 1) == [];
    assert Listing(rows, 2) == [Row(1, gate)];
  }

  /** The scenario's visits: two writes of 0, and one power cycle of the first port. */
  lemma ScenarioVisits(gate: Camera, yard: Camera)
    requires gate.failCount == 2 && yard.failCount == 1
    ensures CycleWrites([Row(1, gate), Row(2, yard)], [false, true]) == [Write(1, 0), Write(2, 0)]
    ensures CyclePorts([Row(1, gate), Row(2, yard)], [false, true]) == [gate.portIndex]
  {
    var snapshot, probes := [Row(1, gate), Row(2, yard)], [false, true];
    assert snapshot[..1] == [Row(1, gate)] && probes[..1] == [false];
    assert CycleWrites([Row(1, gate)], [false]) == [Write(1, 0)];
    assert CyclePorts([Row(1, gate)], [false]) == [gate.portIndex];
  }

  /** The scenario's writes set both counts to 0. */
  lemma ScenarioWrites(gate: Camera, yard: Camera)
    ensures ApplyWrites(map[1 := gate, 2 := yard], [Write(1, 0), Write(2, 0)])
            == map[1 := gate.(failCount := 0), 2 := yard.(failCount := 0)]
  {
    var rows := map[1 := gate, 2 := yard];
    var writes := [Write(1, 0), Write(2, 0)];
    assert writes[..1] == [Write(1, 0)];
    var half := rows[1 := gate.(failCount := 0)];
    assert ApplyWrites(rows, [Write(1, 0)]) == half;
  }

  // ---------------------------------------------------------------
  // Deletes that happen while a cycle runs
  // ---------------------------------------------------------------

  /**
   * The cycle's UPDATEs with rows deleted between them: deletes[i] is the
   * set of ids the web UI's delete route removed just before the i-th
   * UPDATE (poe_monitor.py:316-322).
   */
  function ApplyInterleaved(rows: map<int, Camera>, writes: seq<Write>, deletes: seq<set<int>>): map<int, Camera>
    requires |deletes| == |writes|
  {
    if |writes| == 0 then rows
    else
      var n := |writes| - 1;
      Updated(ApplyInterleaved(rows, writes[..n], deletes[..n]) - deletes[n], writes[n].id, writes[n].failCount)
  }

  function AllDeleted(deletes: seq<set<int>>): set<int>
  {
    if |deletes| == 0 then {} else AllDeleted(deletes[..|deletes| - 1]) + deletes[|deletes| - 1]
  }

  /**
   * Deleting rows while a cycle runs is the same as deleting them after
   * it: the UPDATEs of deleted ids are silently dropped and no deleted row
   * comes back. The switch is unaffected: a row deleted after the snapshot
   * is still probed, and its port is still power-cycled when its probe
   * fails at the threshold, because CyclePorts depends only on the
   * snapshot and the probes.
   */
  lemma {:induction false} InterleavedDeletes(rows: map<int, Camera>, writes: seq<Write>, deletes: seq<set<int>>)
    requires |deletes| == |writes|
    ensures ApplyInterleaved(rows, writes, deletes) == ApplyWrites(rows, writes) - AllDeleted(deletes)
  {
    if |writes| > 0 {
      var n := |writes| - 1;
      var gone := AllDeleted(deletes[..n]);
      InterleavedDeletes(rows, writes[..n], deletes[..n]);
      var mid := ApplyWrites(rows, writes[..n]);
      assert (mid - gone) - deletes[n] == mid - (gone + deletes[n]);
      UpdateDeleteCommute(mid, gone + deletes[n], writes[n].id, writes[n].failCount);
    }
  }

  /** Extending the visited prefix of a snapshot by one row adds that row's write. */
  lemma WritesStep(snapshot: seq<Row>, probes: seq<bool>, i: nat)
    requires |probes| == |snapshot| && i < |snapshot|
    ensures CycleWrites(snapshot[..i + 1], probes[..i + 1])
            == CycleWrites(snapshot[..i], probes[..i]) + [Visit(snapshot[i], probes[i])]
  {
    assert snapshot[..i + 1][..i] == snapshot[..i] && probes[..i + 1][..i] == probes[..i];
  }

  /** What one more visit adds to a cycle's writes. */
  lemma WritesAdvance(rows0: map<int, Camera>, snapshot: seq<Row>, probes: seq<bool>, i: nat, rows: map<int, Camera>)
    requires |probes| == |snapshot| && i < |snapshot|
    requires rows == Updated(ApplyWrites(rows0, CycleWrites(snapshot[..i], probes[..i])),
                             snapshot[i].id, Transition(snapshot[i].camera.failCount, probes[i]).failCount)
    ensures rows == ApplyWrites(rows0, CycleWrites(snapshot[..i + 1], probes[..i + 1]))
  {
    WritesStep(snapshot, probes, i);
    ApplyWritesSnoc(rows0, CycleWrites(snapshot[..i], probes[..i]), Visit(snapshot[i], probes[i]));
  }

  /** What one more visit adds to the list of power-cycled ports. */
  lemma CycledAdvance(cycled0: seq<int>, snapshot: seq<Row>, probes: seq<bool>, i: nat, before: seq<int>, after: seq<int>)
    requires |probes| == |snapshot| && i < |snapshot|
    requires before == cycled0 + CyclePorts(snapshot[..i], probes[..i])
    requires after == before + if Transition(snapshot[i].camera.failCount, probes[i]).powerCycle
                               then [snapshot[i].camera.portIndex] else []
    ensures after == cycled0 + CyclePorts(snapshot[..i + 1], probes[..i + 1])
  {
    assert snapshot[..i + 1][..i] == snapshot[..i] && probes[..i + 1][..i] == probes[..i];
    var ports := CyclePorts(snapshot[..i], probes[..i]);
    var extra := after[|before|..];
    assert after == before + extra;
    assert CyclePorts(snapshot[..i + 1], probes[..i + 1]) == ports + extra;
    assert (cycled0 + ports) + extra == cycled0 + (ports + extra);
  }

  // ---------------------------------------------------------------
  // The loop itself
  // ---------------------------------------------------------------

  /**
   * The body of monitor_loop's inner loop for one row (poe_monitor.py:93-103):
   * take the probe result, advance the count, power-cycle the row's port
   * when the count reaches FAIL_THRESHOLD, and write the count back.
   */
  method VisitRow(table: CameraTable, switch: PortController, row: Row, reachable: bool)
    requires table.Valid() && switch.Valid()
    modifies table, switch
    ensures table.Valid() && switch.Valid() && table.nextId == old(table.nextId)
    ensures table.rows == Updated(old(table.rows), row.id, Transition(row.camera.failCount, reachable).failCount)
    ensures switch.log == old(switch.log)
      + (if Transition(row.camera.failCount, reachable).powerCycle then PowerCycleEvents(row.camera.portIndex) else [])
    ensures switch.cycled == old(switch.cycled)
      + (if Transition(row.camera.failCount, reachable).powerCycle then [row.camera.portIndex] else [])
  {
    var failCount := row.camera.failCount;
    if reachable {
      failCount := 0;
    } else {
      failCount := failCount + 1;
      if failCount >= FAIL_THRESHOLD {
        switch.PowerCycle(row.camera.portIndex);
        failCount := 0;
      }
    }
    table.SetFailCount(row.id, failCount);
  }

  /**
   * The inner loop of monitor_loop (poe_monitor.py:92-103): visit each row
   * of a snapshot once, in order, with the probe result given for it.
   */
  method VisitAll(table: CameraTable, switch: PortController, snapshot: seq<Row>, probes: seq<bool>)
    requires table.Valid() && switch.Valid() && |probes| == |snapshot|
    modifies table, switch
    ensures table.Valid() && switch.Valid() && table.nextId == old(table.nextId)
    ensures table.rows == ApplyWrites(old(table.rows), CycleWrites(snapshot, probes))
    ensures switch.log == old(switch.log) + PowerCycles(CyclePorts(snapshot, probes))
    ensures switch.cycled == old(switch.cycled) + CyclePorts(snapshot, probes)
  {
    ghost var rows0, cycled0 := table.rows, switch.cycled;
    var i := 0;
    assert CycleWrites(snapshot[..i], probes[..i]) == [] && CyclePorts(snapshot[..i], probes[..i]) == [];
    while i < |snapshot|
      invariant 0 <= i <= |snapshot|
      invariant table.Valid() && switch.Valid() && table.nextId == old(table.nextId)
      invariant table.rows == ApplyWrites(rows0, CycleWrites(snapshot[..i], probes[..i]))
      invariant switch.cycled == cycled0 + CyclePorts(snapshot[..i], probes[..i])
    {
      ghost var cycledBefore := switch.cycled;
      VisitRow(table, switch, snapshot[i], probes[i]);
      WritesAdvance(rows0, snapshot, probes, i, table.rows);
      CycledAdvance(cycled0, snapshot, probes, i, cycledBefore, switch.cycled);
      i := i + 1;
    }
    assert snapshot[..i] == snapshot && probes[..i] == probes;
    PowerCyclesAppend(cycled0, CyclePorts(snapshot, probes));
  }

  /**
   * One iteration of monitor_loop's outer loop (poe_monitor.py:87-105):
   * snapshot the table, then visit each row once, in listing order.
   */
  method PollCycle(table: CameraTable, switch: PortController, probes: seq<bool>) returns (snapshot: seq<Row>)
    requires table.Valid() && switch.Valid()
    requires |probes| == |Listing(table.rows, table.nextId)|
    modifies table, switch
    ensures table.Valid() && switch.Valid()
    ensures snapshot == Listing(old(table.rows), old(table.nextId)) && table.nextId == old(table.nextId)
    ensures table.rows == ApplyWrites(old(table.rows), CycleWrites(snapshot, probes))
    ensures table.rows == Poll(old(table.rows), old(table.nextId), probes)
    ensures AllCountsInRange(old(table.rows)) ==> AllCountsInRange(table.rows)
    ensures switch.log == old(switch.log) + PowerCycles(CyclePorts(snapshot, probes))
    ensures switch.cycled == old(switch.cycled) + CyclePorts(snapshot, probes)
  {
    snapshot := table.List();
    VisitAll(table, switch, snapshot, probes);
    if AllCountsInRange(old(table.rows)) {
      CyclePreservesRange(old(table.rows), old(table.nextId), probes);
    }
  }
}
