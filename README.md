# PoE camera monitor — Dafny model

This project models the health monitor of `poe_monitor.py`. The monitor watches
network cameras powered by a PoE switch. Every poll cycle it reads the
`cameras` table, pings each camera, and counts consecutive failed pings in the
row's `fail_count`. When the count reaches `FAIL_THRESHOLD` (3), it
power-cycles the camera's switch port over SNMP: PoE off, a wait of
`POE_OFF_TIME`, PoE on. Then it stores the count back. A web form adds and
deletes cameras in the same table while the monitor runs.

Modules, one per component:

- `Config` (`config.dfy`): the program's constants.
- `Decimal` (`decimal.dfy`): Python's rendering of an `int` in decimal, and a parser that inverts it.
- `Snmp` (`snmp.dfy`): the object identifier of a port; the SET and wait events; the `PortController` class, whose `log` holds the SET requests the program sends and the waits between them, in order.
- `Cameras` (`cameras.dfy`): the table as the `CameraTable` class, a `map` from id to record updated in place; the listing order of a SELECT.
- `Monitor` (`monitor.dfy`): the per-camera transition; one camera over many visits (`Run`); one poll cycle, as specification functions and as the imperative `PollCycle` loop.

The stored count and the probe result decide each camera's step. A successful
ping writes 0. A failed ping writes the old count plus one. If that sum is at
least `FAIL_THRESHOLD`, the port is power-cycled and 0 is written. A count that
starts in `[0, FAIL_THRESHOLD)` stays there. From 0, n consecutive failures
give `n / 3` power cycles and leave the count at `n % 3`.

The OID is `1.3.6.1.2.1.105.1.1.1.3.` followed by the port in decimal. That
prefix is `pethPsePortAdminEnable` of the Power Ethernet MIB (section 5 of
RFC 3621), with true(1) for enable and false(2) for disable. The MIB indexes
this object by group and port. The program appends only the port, and the
model does the same.

Consequences of the code worth noting:

- `fail_count` is written on every visit (poe_monitor.py:103), including a success when the count is already 0.
- The power cycle fires when the new count is `>= FAIL_THRESHOLD` (poe_monitor.py:99), and the count is then reset to 0. A stored count that starts in `[0, FAIL_THRESHOLD - 1]` therefore stays there.
- An UPDATE of an id that is no longer in the table changes nothing and reports nothing.

## Model

| member | source | states |
|---|---|---|
| `Decimal.NatRoundTrip` | poe_monitor.py:58 | the digits written for a non-negative integer have that integer as their value |
| `Decimal.UnsignedRoundTrip` | poe_monitor.py:58 | the digits written for a non-negative integer read back as that integer |
| `Decimal.IntRoundTrip` | poe_monitor.py:58 | the decimal text the f-string makes of a port index parses back to the same integer, negatives included (the text round-trips; a negative port still gives no valid OID, see `Snmp.PortController.SetPoeState` under Left out) |
| `Decimal.IntToStringInjective` | poe_monitor.py:58 | two port indexes get the same decimal text if and only if they are equal |
| `Snmp.PortOid` | poe_monitor.py:58 | the OID of a port starts with the `pethPsePortAdminEnable` prefix and has more after it |
| `Snmp.PortOidRoundTrip` | poe_monitor.py:58 | the OID sent for port p names port p: stripping the prefix and reading the rest gives p |
| `Snmp.PortOidInjective` | poe_monitor.py:58 | two ports get the same OID if and only if they are the same port |
| `Snmp.StateWord` | poe_monitor.py:76 | the logged word is "ON" or "OFF"; only the value 1 is reported as ON |
| `Snmp.PortController.SetPoeState` | poe_monitor.py:57-76 | one SET of the port's OID carrying the state value unchanged is appended to the log; errors change nothing |
| `Snmp.PortController.PowerCycle` | poe_monitor.py:78-82 | the log grows by OFF to the port's OID, a wait of POE_OFF_TIME, then ON to the same OID; the controller invariant is kept |
| `Snmp.PowerCycleShape` | poe_monitor.py:78-82 | a power cycle sends exactly two SETs, both to port p: value 2 reported OFF first, value 1 reported ON last, one POE_OFF_TIME wait between |
| `Snmp.PowerCyclesPaired` | poe_monitor.py:78-82 | in any run of power cycles every ON comes right after an OFF to the same OID and a full wait, and every OFF is followed by a wait and an ON |
| `Snmp.PowerCyclesAppend` | poe_monitor.py:78-82 | power cycles run back to back: the log of ports a then b is the log of a followed by the log of b |
| `Snmp.PowerCyclesAt` | poe_monitor.py:78-82 | in a run of power cycles, positions 3k, 3k+1 and 3k+2 hold OFF to the k-th port, the off-time wait, and ON to the same port |
| `Cameras.CameraTable.constructor` | poe_monitor.py:28-41 | on first start, with a new database file, the table is empty and its first id will be 1 |
| `Cameras.ListingSound` | poe_monitor.py:43-49 | every listed row is a stored row, with its stored record |
| `Cameras.ListingAscending` | poe_monitor.py:43-49 | listed ids strictly ascend, so no row is listed twice |
| `Cameras.ListingComplete` | poe_monitor.py:43-49 | every stored row is listed |
| `Cameras.ListingExact` | poe_monitor.py:43-49 | a listing holds every row of the table exactly once, ids strictly ascending, each with its stored record |
| `Cameras.CameraTable.List` | poe_monitor.py:89-90 | the snapshot holds every row of the table exactly once, ids strictly ascending, each with its stored record |
| `Cameras.CameraTable.Add` | poe_monitor.py:305-313 | the new row gets an id never used before, its name, address and port, and `fail_count` 0; no other row changes |
| `Cameras.CameraTable.Delete` | poe_monitor.py:317-322 | exactly the given id is removed; removing a missing id changes nothing |
| `Cameras.CameraTable.SetFailCount` | poe_monitor.py:103 | only the given row's `fail_count` changes; an id that is gone leaves the table unchanged |
| `Cameras.UpdateDeleteCommute` | poe_monitor.py:103 | an UPDATE and a DELETE commute, so an UPDATE never brings back a deleted row |
| `Monitor.Transition` | poe_monitor.py:93-101 | success: write 0, no power cycle; failure below threshold: write prior+1, no power cycle; failure reaching threshold: power cycle, write 0; a count in range stays in range |
| `Monitor.RunAppend` | poe_monitor.py:92-103 | a camera's visits split at any point compose: counts chain, power cycles add up |
| `Monitor.FailureStreak` | poe_monitor.py:93-101 | n consecutive failures from count k in range leave `(k+n) % 3` and issue `(k+n) / 3` power cycles |
| `Monitor.ThresholdFailuresCycleOnce` | poe_monitor.py:97-101 | from 0, exactly FAIL_THRESHOLD failures issue exactly one power cycle and leave the count 0 |
| `Monitor.FewerFailuresNoCycle` | poe_monitor.py:97-99 | from 0, fewer than FAIL_THRESHOLD failures issue no power cycle and leave the count equal to the failures |
| `Monitor.SuccessResets` | poe_monitor.py:93-95 | a success after any history leaves the count 0 and adds no power cycle |
| `Monitor.RunBounded` | poe_monitor.py:93-103 | a count starting in range stays in range, and each power cycle is paid for by FAIL_THRESHOLD failed probes |
| `Monitor.CycleWritesVisitEach` | poe_monitor.py:92-103 | a cycle writes once per snapshot row, in snapshot order, to that row's id, the transition of that row's count |
| `Monitor.CyclePortsExact` | poe_monitor.py:99-100 | a port is power-cycled in a cycle if and only if a snapshot row on that port failed its probe with prior+1 >= FAIL_THRESHOLD |
| `Monitor.AllReachableNoCycle` | poe_monitor.py:93-95 | when every camera answers, no port is touched |
| `Monitor.TwoCameraScenario` | poe_monitor.py:92-103 | for any two cameras with ids 1 and 2 and counts 2 and 1, a failure then a success: both are listed in id order, only the first camera's port is power-cycled, once, and both counts end at 0 |
| `Monitor.ApplyWritesEffect` | poe_monitor.py:103 | UPDATEs keep the set of rows and every field but `fail_count`; a written row holds its written value and an unwritten row is untouched |
| `Monitor.CycleEffect` | poe_monitor.py:89-103 | after a cycle the table has the same ids, names, addresses and ports, and each listed row's count is its own transition |
| `Monitor.CyclePreservesRange` | poe_monitor.py:89-103 | if every stored count is in `[0, FAIL_THRESHOLD)` before a cycle, every stored count is in it after |
| `Monitor.InterleavedDeletes` | poe_monitor.py:103 | rows deleted between the snapshot and the UPDATEs end as if deleted after the cycle: their UPDATEs are dropped silently and none comes back; the power cycles are those of the snapshot, deleted rows included |
| `Monitor.VisitRow` | poe_monitor.py:93-103 | one row's visit writes its transition to its id and appends one power cycle of its port exactly when the transition calls for one |
| `Monitor.VisitAll` | poe_monitor.py:92-103 | visiting each snapshot row once, in order, leaves the table as the snapshot's writes make it and appends one power cycle per triggering row, in order |
| `Monitor.PollCycle` | poe_monitor.py:87-105 | a cycle snapshots the listing, visits each row once in order, leaves the table as the cycle's writes make it, keeps counts in range, and logs one power cycle per triggering row, in order |

## Left out

- `ping_host` (poe_monitor.py:52-55) runs an external `ping`. Its results are an input sequence, one boolean per visited row.
- The SNMP transport and engine (poe_monitor.py:61-75) are network I/O. Only the SET request (OID and value) is kept. Agent and transport errors are only printed, never change control flow, and so have no counterpart.
- The SET's target is left out: the agent address `SWITCH_IP` (192.168.1.10), UDP port 161 and the community `COMMUNITY` (poe_monitor.py:18-19, 61). Each event records only the port and the value. The wait between cycles, `PING_INTERVAL` (poe_monitor.py:20), is also left out.
- `asyncio.sleep` (poe_monitor.py:81, 107) is real time. The off-time wait is a `Sleep` event in the log. The wait between cycles is not modelled, because only one cycle is.
- The endless `while True` (poe_monitor.py:86) is modelled as one cycle, `PollCycle`. One camera across many cycles is `Run`.
- Threads and the Flask/asyncio split (poe_monitor.py:326-336) are concurrency. Deletes during a cycle are modelled on values in `InterleavedDeletes`, not inside `PollCycle`'s loop. Inserts during a cycle are not modelled.
- sqlite connections, transactions and locking (poe_monitor.py:28-49, 87-106) are left out. Each UPDATE takes effect at once; the single commit per cycle (line 105) is not modelled.
- Without ORDER BY, the listing order of a SELECT is sqlite's rowid order. The model takes it to be ascending id.
- AUTOINCREMENT ids are unbounded integers. sqlite's failure when ids run out is not modelled.
- The Flask routes, the HTML template and `render_template_string` (poe_monitor.py:110-302) are UI.
- Form parsing and type coercion of `port_index` (poe_monitor.py:310) are left out. The port is an integer in the model; text that sqlite keeps as TEXT is not represented.
- `print` logging is left out, except the ON/OFF word of poe_monitor.py:76.
- Snmp.PortController.SetPoeState: does not model whether a SET reached the switch or took effect. A failed request (poe_monitor.py:71-74) is only printed. `power_cycle` still waits and sends ON (poe_monitor.py:80-82), and `monitor_loop` still resets the count to 0 (poe_monitor.py:101), even when the ON request failed and the port stays unpowered. The log and `Paired` describe the requests sent, not the switch's port state.
- Snmp.PortController.SetPoeState: a port outside 0..4294967295 gives no valid OID. Each sub-identifier after a dot must lie in that range (section 3.5 of RFC 2578). The form stores `port_index` without a range check (poe_monitor.py:310), so such a port can reach `PortOid`: a negative port yields text like `...1.3.-5`. How the SNMP library's `ObjectIdentity` treats that text is not modelled; it may raise an exception and end `monitor_loop`. The model records the SET like any other.
- Monitor.InterleavedDeletes: allows a DELETE between any two UPDATEs of a cycle, which is more orderings than sqlite permits. The cycle's first UPDATE opens a write transaction that lasts until the commit at poe_monitor.py:105, possibly across a power cycle. A concurrent `delete` (poe_monitor.py:320) waits for the lock or fails with "database is locked" until then. Since the lemma covers a superset of the real orderings, its conclusion still holds for the real ones.
