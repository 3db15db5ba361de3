/**
 * The record store: the `processed_ids` table, kept as a sequence of rows in id order with the
 * autoincrement counter beside it.  SQLite, the schema text and `datetime.now()` are abstracted:
 * the table lives in memory and the timestamp is a parameter.
 */
module RecordStore {
  import opened Wrappers

  /** One row of `processed_ids`; `processedAt` is NULL (None) until the row is marked done. */
  datatype Row = Row(
    id: nat,
    pdfFilename: string,
    municipality: string,
    township: string,
    schemeName: string,
    unit: string,
    size: string,
    name: string,
    identifier: string,
    status: string,
    processedAt: Option<string>)

  const Pending: string := "pending"
  const Done: string := "done"

  /**
   * `SELECT * FROM processed_ids WHERE pdf_filename=?`, with `AND status=?` when a status is
   * given: the rows that pass, in table order.
   */
  function Select(rows: seq<Row>, file: string, status: Option<string>): (r: seq<Row>)
    ensures |r| <= |rows|
    ensures forall x :: x in r <==> x in rows && x.pdfFilename == file && (status.Some? ==> x.status == status.value)
  {
    if rows == [] then []
    else
      var rest := Select(rows[1..], file, status);
      var x := rows[0];
      assert forall y :: y in rows <==> y == x || y in rows[1..];
      if x.pdfFilename == file && (status.Some? ==> x.status == status.value) then [x] + rest else rest
  }

  /** A row appended to the table shows up at the end of every query it passes, and nowhere else. */
  lemma {:induction false} SelectAppend(rows: seq<Row>, x: Row, file: string, status: Option<string>)
    ensures Select(rows + [x], file, status) ==
            Select(rows, file, status) +
            (if x.pdfFilename == file && (status.Some? ==> x.status == status.value) then [x] else [])
  {
    if rows != [] {
      assert (rows + [x])[1..] == rows[1..] + [x];
      SelectAppend(rows[1..], x, file, status);
    }
  }

  /** The status queries are the all-records query of the same file, filtered by status. */
  lemma {:induction false} SelectByStatus(rows: seq<Row>, file: string, status: string)
    ensures Select(rows, file, Some(status)) == Select(Select(rows, file, None), file, Some(status))
  {
    if rows != [] {
      SelectByStatus(rows[1..], file, status);
    }
  }

  /** `processed_at` as `update_status` writes it: the given time for 'done', NULL otherwise. */
  function Stamp(status: string, now: string): (r: Option<string>)
    ensures r.Some? <==> status == Done
    ensures r.Some? ==> r.value == now
  {
    if status == Done then Some(now) else None
  }

  /** One row after `update_status` reached it: new status and processed_at, every other column kept. */
  function Updated(x: Row, status: string, now: string): (r: Row)
    ensures r.status == status
    ensures r.processedAt == Stamp(status, now)
    ensures r.id == x.id && r.pdfFilename == x.pdfFilename && r.municipality == x.municipality
    ensures r.township == x.township && r.schemeName == x.schemeName && r.unit == x.unit
    ensures r.size == x.size && r.name == x.name && r.identifier == x.identifier
  {
    x.(status := status, processedAt := Stamp(status, now))
  }

  /** What `update_status(id, ...)` does to row `x`. */
  function UpdateRow(x: Row, id: int, status: string, now: string): Row
  {
    if x.id == id then Updated(x, status, now) else x
  }

  /**
   * `UPDATE processed_ids SET status=?, processed_at=? WHERE id=?` applied to the rows: the table
   * keeps its length and order, the rows with that id are updated, the others are untouched.
   */
  function ApplyUpdate(rows: seq<Row>, id: int, status: string, now: string): (r: seq<Row>)
    ensures |r| == |rows|
    ensures forall k :: 0 <= k < |rows| ==> r[k].id == rows[k].id
    ensures forall k :: 0 <= k < |rows| && rows[k].id != id ==> r[k] == rows[k]
    ensures forall k :: 0 <= k < |rows| && rows[k].id == id ==> r[k] == Updated(rows[k], status, now)
  {
    if rows == [] then []
    else [UpdateRow(rows[0], id, status, now)] + ApplyUpdate(rows[1..], id, status, now)
  }

  /** An id no row carries changes nothing. */
  lemma UpdateUnknownId(rows: seq<Row>, id: int, status: string, now: string)
    requires forall x :: x in rows ==> x.id != id
    ensures ApplyUpdate(rows, id, status, now) == rows
  {
    var r := ApplyUpdate(rows, id, status, now);
    forall k | 0 <= k < |rows| ensures r[k] == rows[k] {
      assert rows[k] in rows;
    }
  }

  /**
   * Setting the same status twice keeps only the second call's effect: in particular a row marked
   * 'done' again gets the later timestamp.
   */
  lemma UpdateTwice(rows: seq<Row>, id: int, status: string, t1: string, t2: string)
    ensures ApplyUpdate(ApplyUpdate(rows, id, status, t1), id, status, t2) == ApplyUpdate(rows, id, status, t2)
  {
    var a := ApplyUpdate(ApplyUpdate(rows, id, status, t1), id, status, t2);
    var b := ApplyUpdate(rows, id, status, t2);
    forall k | 0 <= k < |rows| ensures a[k] == b[k] {
      if rows[k].id == id {
        UpdatedTwice(rows[k], status, t1, t2);
      }
    }
  }

  lemma UpdatedTwice(x: Row, status: string, t1: string, t2: string)
    ensures Updated(Updated(x, status, t1), status, t2) == Updated(x, status, t2)
  {
  }

  /** Ids strictly increase along the table and stay below the next id the counter hands out. */
  ghost predicate IdsBelow(rows: seq<Row>, next: nat)
  {
    && (forall k :: 0 <= k < |rows| ==> 1 <= rows[k].id < next)
    && (forall i, j :: 0 <= i < j < |rows| ==> rows[i].id < rows[j].id)
  }

  /** Ids increase along the table, so no two rows share one. */
  lemma IdsUnique(rows: seq<Row>, next: nat)
    requires IdsBelow(rows, next)
    ensures forall i, j :: 0 <= i < |rows| && 0 <= j < |rows| && rows[i].id == rows[j].id ==> i == j
  {
  }

  /** The `processed_ids` table. */
  class RecordTable {
    var rows: seq<Row>
    /** The id AUTOINCREMENT assigns to the next inserted row. */
    var nextId: nat

    ghost predicate Valid()
      reads this
    {
      1 <= nextId && IdsBelow(rows, nextId)
    }

    /** `init_db` on a fresh database: an empty table. */
    constructor()
      ensures Valid() && rows == [] && nextId == 1
    {
      rows := [];
      nextId := 1;
    }

    /**
     * `insert_record`: appends one row with a fresh id greater than every earlier one, the given
     * fields, the given status ('pending' when omitted) and no processed_at.
     */
    method InsertRecord(pdfFilename: string, municipality: string, township: string, schemeName: string,
                        unit: string, size: string, name: string, identifier: string,
                        status: string := Pending)
      returns (id: nat)
      requires Valid()
      modifies this
      ensures Valid()
      ensures id == old(nextId) && nextId == id + 1
      ensures forall x :: x in old(rows) ==> x.id < id
      ensures rows == old(rows) + [Row(id, pdfFilename, municipality, township, schemeName,
                                       unit, size, name, identifier, status, None)]
    {
      id := nextId;
      rows := rows + [Row(id, pdfFilename, municipality, township, schemeName,
                          unit, size, name, identifier, status, None)];
      nextId := nextId + 1;
    }

    /**
     * `update_status`: every row with the given id gets the new status, and processed_at is
     * stamped with `now` exactly when the status is 'done' (cleared otherwise); no other row changes.
     */
    method UpdateStatus(recordId: int, status: string, now: string)
      requires Valid()
      modifies this
      ensures Valid() && nextId == old(nextId)
      ensures rows == ApplyUpdate(old(rows), recordId, status, now)
    {
      var k := 0;
      while k < |rows|
        invariant 0 <= k <= |rows| == |old(rows)| && nextId == old(nextId)
        invariant forall i :: 0 <= i < k ==> rows[i] == UpdateRow(old(rows)[i], recordId, status, now)
        invariant forall i :: k <= i < |rows| ==> rows[i] == old(rows)[i]
      {
        if rows[k].id == recordId {
          rows := rows[k := Updated(rows[k], status, now)];
        }
        k := k + 1;
      }
      ghost var expected := ApplyUpdate(old(rows), recordId, status, now);
      assert forall i :: 0 <= i < |rows| ==> rows[i] == expected[i];
      assert rows == expected;
    }

    /** `get_pending_ids`: the rows of the file whose status is 'pending'. */
    function GetPendingIds(file: string): (r: seq<Row>)
      reads this
      ensures forall x :: x in r <==> x in rows && x.pdfFilename == file && x.status == Pending
    {
      Select(rows, file, Some(Pending))
    }

    /** `get_done_ids`: the rows of the file whose status is 'done'. */
    function GetDoneIds(file: string): (r: seq<Row>)
      reads this
      ensures forall x :: x in r <==> x in rows && x.pdfFilename == file && x.status == Done
    {
      Select(rows, file, Some(Done))
    }

    /** `get_all_records`: every row of the file, whatever its status. */
    function GetAllRecords(file: string): (r: seq<Row>)
      reads this
      ensures forall x :: x in r <==> x in rows && x.pdfFilename == file
    {
      Select(rows, file, None)
    }
  }
}
