/**
 * The port controller: SNMP SET requests that switch PoE on a port on or
 * off (set_poe_state, poe_monitor.py:57-76) and the off-wait-on recovery
 * sequence built from them (power_cycle, poe_monitor.py:78-82).
 *
 * The network is not modelled: each request is recorded as an event in a
 * log, in the order the program issues it, and the off-time wait is an
 * event marker rather than elapsed time.
 */
module Snmp {
  import opened Wrappers
  import opened Config
  import Decimal

  /**
   * pethPsePortAdminEnable of the Power Ethernet MIB (section 5 of RFC 3621),
   * followed by the dot that precedes the instance index. The MIB indexes
   * this object by group and port; the program appends the port only.
   */
  const ADMIN_ENABLE_PREFIX: string := "1.3.6.1.2.1.105.1.1.1.3."

  /** true(1) of pethPsePortAdminEnable: power enabled. */
  const POE_ON: int := 1
  /** false(2) of pethPsePortAdminEnable: power disabled. */
  const POE_OFF: int := 2

  /** Target object identifier for a port (poe_monitor.py:58). */
  function PortOid(port: int): (oid: string)
    ensures |oid| > |ADMIN_ENABLE_PREFIX| && oid[..|ADMIN_ENABLE_PREFIX|] == ADMIN_ENABLE_PREFIX
  {
    ADMIN_ENABLE_PREFIX + Decimal.IntToString(port)
  }

  /** The port an object identifier addresses, if it is an admin-enable OID. */
  function OidPort(oid: string): (r: Option<int>)
    ensures r.Some? ==> |oid| > |ADMIN_ENABLE_PREFIX| && oid[..|ADMIN_ENABLE_PREFIX|] == ADMIN_ENABLE_PREFIX
  {
    var n := |ADMIN_ENABLE_PREFIX|;
    if |oid| >= n && oid[..n] == ADMIN_ENABLE_PREFIX then Decimal.ParseInt(oid[n..]) else None
  }

  /** The OID of a port names that port and no other. */
  lemma PortOidRoundTrip(port: int)
    ensures OidPort(PortOid(port)) == Some(port)
  {
    var digits := Decimal.IntToString(port);
    assert PortOid(port)[|ADMIN_ENABLE_PREFIX|..] == digits;
    Decimal.IntRoundTrip(port);
  }

  /** Two ports share an OID only if they are the same port. */
  lemma PortOidInjective(p: int, q: int)
    ensures PortOid(p) == PortOid(q) <==> p == q
  {
    if PortOid(p) == PortOid(q) {
      PortOidRoundTrip(p);
      PortOidRoundTrip(q);
    }
  }

  /** The word the program logs for a state value (poe_monitor.py:76). */
  function StateWord(state: int): (w: string)
    ensures w == "ON" || w == "OFF"
    ensures w == "ON" <==> state == POE_ON
  {
    if state == 1 then "ON" else "OFF"
  }

  /**
   * What the controller does, in order: an SNMP SET of one integer value
   * to the admin-enable object of a port, or a wait.
   */
  datatype Event = SnmpSet(port: int, value: int) | Sleep(seconds: nat)

  /** The object identifier a SET event goes to on the wire. */
  function RequestOid(e: Event): string
    requires e.SnmpSet?
  {
    PortOid(e.port)
  }

  /** The three steps of power_cycle for one port (poe_monitor.py:80-82). */
  function PowerCycleEvents(port: int): seq<Event>
  {
    [SnmpSet(port, POE_OFF), Sleep(POE_OFF_TIME), SnmpSet(port, POE_ON)]
  }

  /**
   * A power cycle sends exactly two SETs, both to the given port: OFF
   * first, reported as "OFF", then ON, reported as "ON", with one wait of
   * POE_OFF_TIME between them.
   */
  lemma PowerCycleShape(port: int)
    ensures var evs := PowerCycleEvents(port);
      && |evs| == 3
      && (forall i :: 0 <= i < |evs| ==> (evs[i].SnmpSet? <==> i != 1))
      && OidPort(RequestOid(evs[0])) == Some(port) && evs[0].value == POE_OFF && StateWord(evs[0].value) == "OFF"
      && evs[1] == Sleep(POE_OFF_TIME)
      && OidPort(RequestOid(evs[2])) == Some(port) && evs[2].value == POE_ON && StateWord(evs[2].value) == "ON"
  {
    PortOidRoundTrip(port);
  }

  /** The logs of several power cycles, run one after another. */
  function PowerCycles(ports: seq<int>): (log: seq<Event>)
    ensures |log| == 3 * |ports|
  {
    if |ports| == 0 then [] else PowerCycles(ports[..|ports| - 1]) + PowerCycleEvents(ports[|ports| - 1])
  }

  /** Power cycles run back to back: the log of a + b is the log of a, then the log of b. */
  lemma {:induction false} PowerCyclesAppend(a: seq<int>, b: seq<int>)
    ensures PowerCycles(a + b) == PowerCycles(a) + PowerCycles(b)
  {
    if |b| == 0 {
      assert a + b == a;
    } else {
      var init := b[..|b| - 1];
      assert (a + b)[..|a + b| - 1] == a + init;
      PowerCyclesAppend(a, init);
    }
  }

  /** The event is a SET carrying this value. */
  predicate Sets(e: Event, value: int) {
    e.SnmpSet? && e.value == value
  }

  /** An ON request at position j comes right after an OFF to the same port and a full off-time wait. */
  ghost predicate OnAfterOff(log: seq<Event>, j: int)
    requires 0 <= j < |log| && log[j].SnmpSet?
  {
    2 <= j && log[j - 2] == SnmpSet(log[j].port, POE_OFF) && log[j - 1] == Sleep(POE_OFF_TIME)
  }

  /** An OFF request at position j is followed by a full off-time wait and an ON to the same port. */
  ghost predicate OffThenOn(log: seq<Event>, j: int)
    requires 0 <= j < |log| && log[j].SnmpSet?
  {
    j + 2 < |log| && log[j + 1] == Sleep(POE_OFF_TIME) && log[j + 2] == SnmpSet(log[j].port, POE_ON)
  }

  /**
   * The program never requests ON for a port except as the end of an
   * off-wait-on sequence, and never requests OFF without requesting ON
   * after the wait. Whether each request reaches the switch is not
   * recorded.
   */
  ghost predicate Paired(log: seq<Event>)
  {
    && (forall j :: 0 <= j < |log| && Sets(log[j], POE_ON) ==> OnAfterOff(log, j))
    && (forall j :: 0 <= j < |log| && Sets(log[j], POE_OFF) ==> OffThenOn(log, j))
  }

  /** Appending one power cycle keeps a paired log paired. */
  lemma PairedAppend(log: seq<Event>, port: int)
    requires Paired(log)
    ensures Paired(log + PowerCycleEvents(port))
  {
    var ext := log + PowerCycleEvents(port);
    var n := |log|;
    forall j | 0 <= j < |ext| && Sets(ext[j], POE_ON)
      ensures OnAfterOff(ext, j)
    {
      if j < n {
        assert log[j] == ext[j];
        assert OnAfterOff(log, j);
      } else {
        assert j == n + 2;
      }
    }
    forall j | 0 <= j < |ext| && Sets(ext[j], POE_OFF)
      ensures OffThenOn(ext, j)
    {
      if j < n {
        assert log[j] == ext[j];
        assert OffThenOn(log, j);
      } else {
        assert j == n;
      }
    }
  }

  /** Any run of power cycles yields a paired log. */
  lemma {:induction false} PowerCyclesPaired(ports: seq<int>)
    ensures Paired(PowerCycles(ports))
  {
    if |ports| > 0 {
      var init := ports[..|ports| - 1];
      PowerCyclesPaired(init);
      PairedAppend(PowerCycles(init), ports[|ports| - 1]);
    }
  }

  /** The k-th triple of a run of power cycles is OFF, wait, ON for the k-th port. */
  lemma {:induction false} PowerCyclesAt(ports: seq<int>, k: nat)
    requires k < |ports|
    ensures PowerCycles(ports)[3 * k] == SnmpSet(ports[k], POE_OFF)
    ensures PowerCycles(ports)[3 * k + 1] == Sleep(POE_OFF_TIME)
    ensures PowerCycles(ports)[3 * k + 2] == SnmpSet(ports[k], POE_ON)
  {
    var init := ports[..|ports| - 1];
    var front, last := PowerCycles(init), PowerCycleEvents(ports[|ports| - 1]);
    assert PowerCycles(ports) == front + last;
    if k < |init| {
      PowerCyclesAt(init, k);
      assert ports[k] == init[k];
    }
  }

  /**
   * The switch as the program addresses it: the SET requests the program
   * sends, in order, and the waits between them. A request that fails is
   * recorded like one that succeeds.
   */
  class PortController {
    var log: seq<Event>
    /** The ports power-cycled so far, in order. */
    ghost var cycled: seq<int>

    /** The log is made of whole power cycles, one per entry of cycled. */
    ghost predicate Valid()
      reads this
    {
      log == PowerCycles(cycled)
    }

    constructor ()
      ensures Valid() && log == [] && cycled == []
    {
      log := [];
      cycled := [];
    }

    /**
     * One SNMP SET of pethPsePortAdminEnable for a port (poe_monitor.py:57-76).
     * The state value is sent unchanged. Transport and agent errors are only
     * logged by the program, so every call has the same effect on the model.
     */
    method SetPoeState(port: int, state: int)
      modifies this
      ensures log == old(log) + [SnmpSet(port, state)] && cycled == old(cycled)
      ensures RequestOid(log[|log| - 1]) == PortOid(port)
    {
      log := log + [SnmpSet(port, state)];
    }

    /** Power the port off, wait POE_OFF_TIME, power it on (poe_monitor.py:78-82). */
    method PowerCycle(port: int)
      requires Valid()
      modifies this
      ensures Valid() && cycled == old(cycled) + [port]
      ensures log == old(log) + PowerCycleEvents(port)
    {
      SetPoeState(port, POE_OFF);
      log := log + [Sleep(POE_OFF_TIME)];
      SetPoeState(port, POE_ON);
      assert (cycled + [port])[..|cycled|] == cycled;
      cycled := cycled + [port];
    }
  }
}
