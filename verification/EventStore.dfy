/**
 The server's append-only event log: insertion with deduplication, reads, and the
 canonical-event validation every submitted event passes first.
 */
module EventStore {
  import opened Results
  import opened Domain

  /** A stored event and the position the server gave it. */
  datatype Row = Row(event: Event, serverSeq: nat)

  /** The table, and the last value drawn from its identity column. */
  datatype Log = Log(rows: seq<Row>, identity: nat)

  datatype AppendResult = AppendResult(device: int, seqNo: int, serverSeq: nat, wasDuplicate: bool)

  const EMPTY_LOG := Log([], 0)

  predicate Stored(rows: seq<Row>, k: Key) {
    exists i :: 0 <= i < |rows| && rows[i].event.Id() == k
  }

  /** The row with this identity, scanning from the end. */
  function Find(rows: seq<Row>, k: Key): (row: Row)
    requires Stored(rows, k)
    ensures row in rows && row.event.Id() == k
  {
    var last := rows[|rows| - 1];
    if last.event.Id() == k then last else Find(rows[..|rows| - 1], k)
  }

  /** The device's highest stored `seq`, or -1. */
  function MaxSeq(rows: seq<Row>, device: int): int {
    if rows == [] then -1 else
    var front, last := rows[..|rows| - 1], rows[|rows| - 1];
    if last.event.device == device then Max(MaxSeq(front, device), last.event.seqNo)
    else MaxSeq(front, device)
  }

  function Max(a: int, b: int): int {
    if a >= b then a else b
  }

  function MaxServerSeq(rows: seq<Row>): nat {
    if rows == [] then 0 else
    var front := MaxServerSeq(rows[..|rows| - 1]);
    if front >= rows[|rows| - 1].serverSeq then front else rows[|rows| - 1].serverSeq
  }

  /** Rows above a watermark, in order. */
  function ReadSince(rows: seq<Row>, since: nat): seq<Row> {
    if rows == [] then []
    else (if rows[0].serverSeq > since then [rows[0]] else []) + ReadSince(rows[1..], since)
  }

  /** Insert unless the identity is taken.  A conflicting insert draws an identity value too. */
  function Append(l: Log, e: Event): (Log, AppendResult) {
    if Stored(l.rows, e.Id()) then
      (l.(identity := l.identity + 1), AppendResult(e.device, e.seqNo, Find(l.rows, e.Id()).serverSeq, true))
    else
      (Log(l.rows + [Row(e, l.identity + 1)], l.identity + 1),
       AppendResult(e.device, e.seqNo, l.identity + 1, false))
  }

  // ------------------------------------------------------------ the log invariant

  /** `server_seq` climbs with the table, and never passes the identity column. */
  ghost predicate Positioned(l: Log) {
    && (forall i, j :: 0 <= i < j < |l.rows| ==> l.rows[i].serverSeq < l.rows[j].serverSeq)
    && (forall i :: 0 <= i < |l.rows| ==> 0 < l.rows[i].serverSeq <= l.identity)
  }

  /** Within a device, later rows have strictly larger `seq`; so identities are unique. */
  ghost predicate DeviceOrdered(rows: seq<Row>) {
    && (forall i, j :: 0 <= i < j < |rows| && rows[i].event.device == rows[j].event.device ==>
          rows[i].event.seqNo < rows[j].event.seqNo)
    && (forall i :: 0 <= i < |rows| ==> rows[i].event.seqNo >= 0)
  }

  ghost predicate WellFormed(l: Log) {
    Positioned(l) && DeviceOrdered(l.rows)
  }

  lemma {:induction false} MaxSeqBounds(rows: seq<Row>, device: int)
    ensures MaxSeq(rows, device) >= -1
    ensures forall i :: 0 <= i < |rows| && rows[i].event.device == device ==>
              rows[i].event.seqNo <= MaxSeq(rows, device)
    ensures MaxSeq(rows, device) >= 0 ==> Stored(rows, Key(device, MaxSeq(rows, device)))
  {
    if rows == [] {
    } else {
      var front := rows[..|rows| - 1];
      MaxSeqBounds(front, device);
      if MaxSeq(front, device) >= 0 {
        var i :| 0 <= i < |front| && front[i].event.Id() == Key(device, MaxSeq(front, device));
        assert rows[i].event.Id() == Key(device, MaxSeq(front, device));
      }
      assert rows[|rows| - 1].event.Id() == Key(rows[|rows| - 1].event.device, rows[|rows| - 1].event.seqNo);
    }
  }

  lemma MaxSeqSnoc(rows: seq<Row>, row: Row, device: int)
    ensures MaxSeq(rows + [row], device) ==
            if row.event.device == device then Max(MaxSeq(rows, device), row.event.seqNo) else MaxSeq(rows, device)
  {
    assert (rows + [row])[..|rows|] == rows;
  }

  /** An insert at or above the device's maximum keeps the log in order. */
  lemma AppendKeepsOrder(l: Log, e: Event)
    requires WellFormed(l) && e.seqNo >= 0 && e.seqNo >= MaxSeq(l.rows, e.device)
    ensures WellFormed(Append(l, e).0)
    ensures l.rows <= Append(l, e).0.rows
    ensures Append(l, e).1.wasDuplicate <==> e.seqNo == MaxSeq(l.rows, e.device)
    ensures forall d :: MaxSeq(Append(l, e).0.rows, d) ==
              if d == e.device then e.seqNo else MaxSeq(l.rows, d)
    ensures Stored(Append(l, e).0.rows, e.Id())
  {
    StoredIffAtMax(l, e);
    if !Stored(l.rows, e.Id()) {
      SnocKeepsOrder(l, Row(e, l.identity + 1));
      forall d ensures MaxSeq(Append(l, e).0.rows, d) == if d == e.device then e.seqNo else MaxSeq(l.rows, d) {
        MaxSeqSnoc(l.rows, Row(e, l.identity + 1), d);
      }
    }
  }

  lemma StoredIffAtMax(l: Log, e: Event)
    requires WellFormed(l) && e.seqNo >= 0 && e.seqNo >= MaxSeq(l.rows, e.device)
    ensures Stored(l.rows, e.Id()) <==> e.seqNo == MaxSeq(l.rows, e.device)
  {
    MaxSeqBounds(l.rows, e.device);
    assert Key(e.device, e.seqNo) == e.Id();
    if Stored(l.rows, e.Id()) {
      var i :| 0 <= i < |l.rows| && l.rows[i].event.Id() == e.Id();
      assert l.rows[i].event.device == e.device;
    }
  }

  lemma SnocKeepsOrder(l: Log, row: Row)
    requires WellFormed(l) && row.serverSeq == l.identity + 1
    requires row.event.seqNo >= 0 && row.event.seqNo > MaxSeq(l.rows, row.event.device)
    ensures WellFormed(Log(l.rows + [row], l.identity + 1)) && Stored(l.rows + [row], row.event.Id())
  {
    MaxSeqBounds(l.rows, row.event.device);
    hide MaxSeq;
    assert (l.rows + [row])[|l.rows|].event.Id() == row.event.Id();
  }

  /** The row found for an identity is the only one. */
  lemma FindUnique(rows: seq<Row>, row: Row)
    requires DeviceOrdered(rows) && row in rows
    ensures Stored(rows, row.event.Id()) && Find(rows, row.event.Id()) == row
  {
    var i :| 0 <= i < |rows| && rows[i] == row;
    assert rows[i].event.Id() == row.event.Id();
    var found := Find(rows, row.event.Id());
    var j :| 0 <= j < |rows| && rows[j] == found;
    assert rows[i].event.device == rows[j].event.device && rows[i].event.seqNo == rows[j].event.seqNo;
  }

  /** A new identity is stored under the next position; a known one is answered with the position of the row that has it. */
  lemma AppendReports(l: Log, e: Event)
    requires WellFormed(l)
    ensures var (l', r) := Append(l, e);
            && r.device == e.device && r.seqNo == e.seqNo
            && l'.identity == l.identity + 1
            && (forall row :: row in l.rows && row.event.device == e.device && row.event.seqNo == e.seqNo ==>
                  r.wasDuplicate && r.serverSeq == row.serverSeq && l'.rows == l.rows)
            && ((forall row :: row in l.rows ==> row.event.device != e.device || row.event.seqNo != e.seqNo) ==>
                  !r.wasDuplicate && r.serverSeq == l'.identity && l'.rows == l.rows + [Row(e, r.serverSeq)])
  {
    forall row | row in l.rows && row.event.device == e.device && row.event.seqNo == e.seqNo
      ensures Stored(l.rows, e.Id()) && Find(l.rows, e.Id()) == row
    {
      FindUnique(l.rows, row);
    }
    hide Find;
    if Stored(l.rows, e.Id()) {
      var i :| 0 <= i < |l.rows| && l.rows[i].event.Id() == e.Id();
      assert l.rows[i] in l.rows;
    }
  }

  // ------------------------------------------------------- canonical validation

  const CURRENT_SCHEMA_VERSION := 1

  /** The per-type payload models. */
  predicate PayloadOk(p: Payload) {
    match p
    case IncidentDeclared(_) => true
    case GridGenerated(rows, cols) => 1 <= rows <= MAX_CELLS && 1 <= cols <= MAX_CELLS && rows * cols <= MAX_CELLS
    case TeamRegistered(team, callsign, agency) =>
      0 <= team <= MAX_TEAM_ID && |callsign| >= 1 && 0 <= agency <= MAX_AGENCY_ID
    case DeviceEnrolled(device) => 0 <= device <= MAX_DEVICE_ID
    case AssignmentIssued(id, team, cells) =>
      id >= 0 && 0 <= team <= MAX_TEAM_ID && cells != [] && forall c :: c in cells ==> 0 <= c <= MAX_CELL_INDEX
    case AssignmentRevoked(id) => id >= 0
    case CellStatusReported(cell, _) => 0 <= cell <= MAX_CELL_INDEX
    case SurvivorReported(cell, persons, _, _, lat, lon) =>
      && 0 <= cell <= MAX_CELL_INDEX && 0 <= persons <= 63
      && (lat.Some? ==> RelCoordOk(lat.value)) && (lon.Some? ==> RelCoordOk(lon.value))
    case ResourceDeltaReported(item, qty) => 0 <= item <= 255 && -128 <= qty <= 127
    case PositionReported(lat, lon, cell) =>
      RelCoordOk(lat) && RelCoordOk(lon) && (cell.Some? ==> 0 <= cell.value <= MAX_CELL_INDEX)
    case TeamStatusReported(_) => true
  }

  predicate RelCoordOk(v: int) {
    -32768 <= v <= 32767
  }

  /** `entity_id` names the subject the payload describes. */
  function ExpectedEntity(e: Event): int {
    match e.payload
    case IncidentDeclared(_) => e.incident
    case GridGenerated(_, _) => e.incident
    case TeamRegistered(team, _, _) => team
    case DeviceEnrolled(device) => device
    case AssignmentIssued(id, _, _) => id
    case AssignmentRevoked(id) => id
    case CellStatusReported(cell, _) => cell
    case SurvivorReported(_, _, _, _, _, _) => 0
    case ResourceDeltaReported(item, _) => item
    case PositionReported(_, _, _) => e.team
    case TeamStatusReported(_) => e.team
  }

  predicate Canonical(e: Event) {
    && 0 <= e.device <= MAX_DEVICE_ID && 0 <= e.seqNo <= MAX_SEQ
    && e.entityId >= 0 && e.entityId == ExpectedEntity(e) && PayloadOk(e.payload)
    && 0 <= e.responder <= MAX_RESPONDER_ID && 0 <= e.team <= MAX_TEAM_ID
    && 0 <= e.agency <= MAX_AGENCY_ID && e.incident >= 0 && e.schema >= 1
  }

  // -------------------------------------------------------------- server authorship

  /** The event the server writes for a commander's action: device 0, next `seq`. */
  function Authored(l: Log, draft: Event): Event {
    draft.(device := SERVER_DEVICE_ID, seqNo := Max(MaxSeq(l.rows, SERVER_DEVICE_ID), 0) + 1,
           schema := CURRENT_SCHEMA_VERSION)
  }

  /** Author and append one event; none when it fails validation (for one, past the last `seq`). */
  function Author(l: Log, draft: Event): Option<Log> {
    if Canonical(Authored(l, draft)) then Some(Append(l, Authored(l, draft)).0) else None
  }

  /** The server's event carries the commander's values under device 0, the next `seq`, from 1, and schema 1. */
  lemma AuthoredFields(l: Log, draft: Event)
    ensures var e := Authored(l, draft);
            && e.device == 0 && e.schema == 1 && e.seqNo >= 1
            && (forall i :: 0 <= i < |l.rows| && l.rows[i].event.device == 0 ==> l.rows[i].event.seqNo < e.seqNo)
            && (e.seqNo == 1 || exists i :: 0 <= i < |l.rows| && l.rows[i].event.Id() == Key(0, e.seqNo - 1))
            && e.payload == draft.payload && e.entityId == draft.entityId && e.tDev == draft.tDev
            && e.responder == draft.responder && e.team == draft.team && e.agency == draft.agency && e.incident == draft.incident
  {
    MaxSeqBounds(l.rows, 0);
    hide MaxSeq;
  }

  lemma AuthoredIsAboveAll(l: Log, draft: Event)
    ensures Authored(l, draft).device == SERVER_DEVICE_ID
    ensures Authored(l, draft).seqNo > MaxSeq(l.rows, SERVER_DEVICE_ID) && Authored(l, draft).seqNo >= 1
  {
    hide MaxSeq;
  }

  /** An authored event is always new, and keeps the log in order. */
  lemma AuthorInserts(l: Log, draft: Event)
    requires WellFormed(l) && Author(l, draft).Some?
    ensures Author(l, draft).value == Log(l.rows + [Row(Authored(l, draft), l.identity + 1)], l.identity + 1)
    ensures WellFormed(Author(l, draft).value)
    ensures forall d :: MaxSeq(Author(l, draft).value.rows, d) >= MaxSeq(l.rows, d)
    ensures forall d :: d != SERVER_DEVICE_ID ==> MaxSeq(Author(l, draft).value.rows, d) == MaxSeq(l.rows, d)
  {
    hide MaxSeq, Canonical, WellFormed, Authored, Stored;
    AuthoredIsAboveAll(l, draft);
    AppendKeepsOrder(l, Authored(l, draft));
    StoredIffAtMax(l, Authored(l, draft));
  }
}
