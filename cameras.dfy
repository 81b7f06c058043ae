/**
 * The cameras table (poe_monitor.py:31-38): rows keyed by an
 * auto-increment id, holding a name, the address to probe, the switch
 * port that powers the camera, and the count of consecutive failed probes.
 * The sqlite database is modelled as an in-memory map.
 */
module Cameras {
  import opened Config

  datatype Camera = Camera(name: string, targetIp: string, portIndex: int, failCount: int)

  /** One row of a SELECT over the table: the id and the stored record. */
  datatype Row = Row(id: int, camera: Camera)

  /**
   * The rows whose ids lie in [1, hi), in ascending id order: the order in
   * which sqlite returns a rowid table read without ORDER BY.
   */
  function Listing(rows: map<int, Camera>, hi: int): seq<Row>
    decreases hi
  {
    if hi <= 1 then []
    else Listing(rows, hi - 1) + (if hi - 1 in rows then [Row(hi - 1, rows[hi - 1])] else [])
  }

  /** Every listed row is a stored row with an id in [1, hi). */
  lemma {:induction false} ListingSound(rows: map<int, Camera>, hi: int)
    ensures forall i :: 0 <= i < |Listing(rows, hi)| ==>
      var r := Listing(rows, hi)[i]; 1 <= r.id < hi && r.id in rows && rows[r.id] == r.camera
    decreases hi
  {
    if hi > 1 {
      ListingSound(rows, hi - 1);
      var front := Listing(rows, hi - 1);
      assert forall i :: 0 <= i < |front| ==> Listing(rows, hi)[i] == front[i];
    }
  }

  /** Listed ids strictly ascend, so no row is listed twice. */
  lemma {:induction false} ListingAscending(rows: map<int, Camera>, hi: int)
    ensures forall i, j :: 0 <= i < j < |Listing(rows, hi)| ==> Listing(rows, hi)[i].id < Listing(rows, hi)[j].id
    decreases hi
  {
    if hi > 1 {
      ListingAscending(rows, hi - 1);
      ListingSound(rows, hi - 1);
      var front := Listing(rows, hi - 1);
      assert forall i :: 0 <= i < |front| ==> Listing(rows, hi)[i] == front[i];
    }
  }

  /** Every stored row with an id in [1, hi) is listed. */
  lemma {:induction false} ListingComplete(rows: map<int, Camera>, hi: int, id: int)
    requires id in rows && 1 <= id < hi
    ensures exists i :: 0 <= i < |Listing(rows, hi)| && Listing(rows, hi)[i].id == id
    decreases hi
  {
    var front := Listing(rows, hi - 1);
    if id < hi - 1 {
      ListingComplete(rows, hi - 1, id);
      var i :| 0 <= i < |front| && front[i].id == id;
      assert Listing(rows, hi)[i] == front[i];
    } else {
      assert Listing(rows, hi)[|front|].id == id;
    }
  }

  /** The snapshot holds exactly the rows of the table, each once, in ascending id order. */
  ghost predicate ListsExactly(snapshot: seq<Row>, rows: map<int, Camera>, hi: int)
  {
    && (forall i :: 0 <= i < |snapshot| ==>
          1 <= snapshot[i].id < hi && snapshot[i].id in rows && rows[snapshot[i].id] == snapshot[i].camera)
    && (forall i, j :: 0 <= i < j < |snapshot| ==> snapshot[i].id < snapshot[j].id)
    && (forall id :: id in rows && 1 <= id < hi ==> exists i :: 0 <= i < |snapshot| && snapshot[i].id == id)
  }

  lemma ListingExact(rows: map<int, Camera>, hi: int)
    ensures ListsExactly(Listing(rows, hi), rows, hi)
  {
    ListingSound(rows, hi);
    ListingAscending(rows, hi);
    forall id | id in rows && 1 <= id < hi
      ensures exists i :: 0 <= i < |Listing(rows, hi)| && Listing(rows, hi)[i].id == id
    {
      ListingComplete(rows, hi, id);
    }
  }

  /** The table after `UPDATE cameras SET fail_count=? WHERE id=?`: a missing id matches no row. */
  function Updated(rows: map<int, Camera>, id: int, failCount: int): map<int, Camera>
  {
    if id in rows then rows[id := rows[id].(failCount := failCount)] else rows
  }

  /** An update and a delete of any ids commute; in particular an update never revives a deleted row. */
  lemma UpdateDeleteCommute(rows: map<int, Camera>, gone: set<int>, id: int, failCount: int)
    ensures Updated(rows - gone, id, failCount) == Updated(rows, id, failCount) - gone
  {
    var left, right := Updated(rows - gone, id, failCount), Updated(rows, id, failCount) - gone;
    assert left.Keys == right.Keys;
    forall k | k in left ensures left[k] == right[k] {
    }
  }

  predicate CountInRange(failCount: int) {
    0 <= failCount < FAIL_THRESHOLD
  }

  ghost predicate AllCountsInRange(rows: map<int, Camera>) {
    forall id :: id in rows ==> CountInRange(rows[id].failCount)
  }

  /** The cameras table of the database file. */
  class CameraTable {
    var rows: map<int, Camera>
    /** One past the largest id ever handed out (AUTOINCREMENT never reuses an id). */
    var nextId: int

    ghost predicate Valid()
      reads this
    {
      1 <= nextId && forall id :: id in rows ==> 1 <= id < nextId
    }

    /**
     * The table on first start, when init_db creates a new database file
     * (poe_monitor.py:28-41). On an existing file the rows and the
     * AUTOINCREMENT counter are kept; every operation here accepts any
     * valid table, so that case needs no constructor of its own.
     */
    constructor ()
      ensures Valid() && rows == map[] && nextId == 1
    {
      rows := map[];
      nextId := 1;
    }

    /**
     * Every row, in listing order (get_cameras, poe_monitor.py:43-49, and
     * the SELECT of monitor_loop, poe_monitor.py:89-90).
     */
    method List() returns (snapshot: seq<Row>)
      requires Valid()
      ensures snapshot == Listing(rows, nextId)
      ensures ListsExactly(snapshot, rows, nextId)
    {
      snapshot := Listing(rows, nextId);
      ListingExact(rows, nextId);
    }

    /**
     * INSERT of a new camera (add, poe_monitor.py:305-313): it gets an id
     * never used before and fail_count takes its column default, 0.
     */
    method Add(name: string, targetIp: string, portIndex: int) returns (id: int)
      requires Valid()
      modifies this
      ensures Valid()
      ensures id == old(nextId) && id !in old(rows) && nextId == id + 1
      ensures rows == old(rows)[id := Camera(name, targetIp, portIndex, 0)]
    {
      id := nextId;
      rows := rows[id := Camera(name, targetIp, portIndex, 0)];
      nextId := nextId + 1;
    }

    /** DELETE of one id (delete, poe_monitor.py:317-322); a missing id deletes nothing. */
    method Delete(id: int)
      requires Valid()
      modifies this
      ensures Valid() && nextId == old(nextId)
      ensures rows == old(rows) - {id}
    {
      rows := rows - {id};
    }

    /** UPDATE of one row's fail_count (poe_monitor.py:103); a missing id changes nothing. */
    method SetFailCount(id: int, failCount: int)
      requires Valid()
      modifies this
      ensures Valid() && nextId == old(nextId)
      ensures rows == Updated(old(rows), id, failCount)
      ensures id !in old(rows) ==> rows == old(rows)
      ensures id in old(rows) ==> rows.Keys == old(rows).Keys && rows[id] == old(rows)[id].(failCount := failCount)
      ensures forall k :: k in old(rows) && k != id ==> rows[k] == old(rows)[k]
    {
      rows := Updated(rows, id, failCount);
    }
  }
}
