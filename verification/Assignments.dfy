/**
 Issuing and revoking assignments.  Ids are drawn from the log itself, a revocation is
 filed under the incident of what it revokes, and so, as long as nobody else writes
 assignment events, no revocation is filed away from its issuance.
 */
module Assignments {
  import opened Results
  import opened Domain
  import opened Sorting
  import opened EventStore
  import opened Ingestion
  import opened Folds
  import opened Scoping
  import Coverage
  import Projections

  const COMMANDER_RESPONDER_ID := 1
  const COMMANDER_TEAM_ID := 0
  const COMMANDER_AGENCY_ID := 1

  datatype Held = Held(cell: int, team: int)

  datatype IssueOutcome =
    | CellOutOfRange(cell: int)
    | InvalidIssue
    | Issued(assignmentId: int, serverSeq: nat, alreadyHeld: seq<Held>)

  datatype RevokeOutcome = UnknownAssignment | InvalidRevocation | Revoked(serverSeq: nat)

  // ------------------------------------------------------------ reading the log

  function FactOf(row: Row): Fact {
    Fact(row.event, Some(row.serverSeq))
  }

  function FactsOf(rows: seq<Row>): (s: seq<Fact>)
    ensures |s| == |rows| && forall i :: 0 <= i < |s| ==> s[i] == FactOf(rows[i])
  {
    seq(|rows|, i requires 0 <= i < |rows| => FactOf(rows[i]))
  }

  /** The table already holds its facts in fold order. */
  lemma LogIsOrdered(l: Log)
    requires WellFormed(l)
    ensures Ordered(FactsOf(l.rows)) == FactsOf(l.rows)
  {
    assert TotalPreorder(FactLe);
    SortRecovers(FactLe, FactsOf(l.rows), FactsOf(l.rows));
  }

  predicate Issues(e: Event, aid: int) {
    e.payload.AssignmentIssued? && e.payload.assignmentId == aid
  }

  function HighestAssignmentId(rows: seq<Row>): int {
    if rows == [] then 0 else
    var front, e := HighestAssignmentId(rows[..|rows| - 1]), rows[|rows| - 1].event;
    if e.payload.AssignmentIssued? then Max(front, e.entityId) else front
  }

  function NextAssignmentId(rows: seq<Row>): int {
    HighestAssignmentId(rows) + 1
  }

  /** The first issuance of an assignment, scanning from the start. */
  function FirstIssue(rows: seq<Row>, aid: int): (r: Option<Event>)
    ensures r.Some? ==> Issues(r.value, aid)
  {
    if rows == [] then None
    else if Issues(rows[0].event, aid) then Some(rows[0].event)
    else FirstIssue(rows[1..], aid)
  }

  predicate BadCell(cell: int) {
    !(0 <= cell <= MAX_CELL_INDEX)
  }

  function FirstBadCell(cells: seq<int>): Option<int> {
    if cells == [] then None
    else if BadCell(cells[0]) then Some(cells[0])
    else FirstBadCell(cells[1..])
  }

  /** The other teams now holding the cells, cell by cell as asked. */
  function HeldByOthers(holders: map<Cell, AssignmentState>, incident: int, team: int, cells: seq<int>): seq<Held> {
    if cells == [] then [] else
    var front, c := HeldByOthers(holders, incident, team, cells[..|cells| - 1]), cells[|cells| - 1];
    if HolderOf(holders, Cell(incident, c)).Some? && HolderOf(holders, Cell(incident, c)) != Some(team) then
      front + [Held(c, HolderOf(holders, Cell(incident, c)).value)]
    else front
  }

  function HolderOf(holders: map<Cell, AssignmentState>, c: Cell): Option<int> {
    if c in holders then holders[c].team else None
  }

  function Holding(rows: seq<Row>): map<Cell, AssignmentState> {
    AssignFold(Ordered(FactsOf(rows))).out
  }

  // -------------------------------------------------------------- the operations

  /** What the commander's event carries; device, `seq` and schema are set on authoring. */
  function Draft(payload: Payload, entityId: int, incident: int, tDev: int): Event {
    Event(SERVER_DEVICE_ID, 0, payload, entityId, tDev, COMMANDER_RESPONDER_ID, COMMANDER_TEAM_ID,
          COMMANDER_AGENCY_ID, incident, CURRENT_SCHEMA_VERSION)
  }

  function IssueDraft(rows: seq<Row>, incident: int, team: int, cells: seq<int>, tDev: int): Event {
    var aid := NextAssignmentId(rows);
    Draft(AssignmentIssued(aid, team, cells), aid, incident, tDev)
  }

  function Issue(l: Log, incident: int, team: int, cells: seq<int>, tDev: int): (Log, IssueOutcome) {
    if FirstBadCell(cells).Some? then (l, CellOutOfRange(FirstBadCell(cells).value)) else
    var draft := IssueDraft(l.rows, incident, team, cells, tDev);
    if Author(l, draft).None? then (l, InvalidIssue) else
    (Author(l, draft).value,
     Issued(NextAssignmentId(l.rows), l.identity + 1, HeldByOthers(Holding(l.rows), incident, team, cells)))
  }

  function Revoke(l: Log, aid: int, tDev: int): (Log, RevokeOutcome) {
    var issued := FirstIssue(l.rows, aid);
    if issued.None? then (l, UnknownAssignment) else
    var draft := Draft(AssignmentRevoked(aid), aid, issued.value.incident, tDev);
    if Author(l, draft).None? then (l, InvalidRevocation) else (Author(l, draft).value, Revoked(l.identity + 1))
  }

  lemma {:induction false} BadCellMeaning(cells: seq<int>)
    ensures FirstBadCell(cells).Some? <==> exists c :: c in cells && BadCell(c)
    ensures FirstBadCell(cells).Some? ==> FirstBadCell(cells).value in cells
  {
    if cells == [] {
    } else {
      BadCellMeaning(cells[1..]);
      assert forall c :: c in cells <==> c == cells[0] || c in cells[1..];
    }
  }

  method IssueAssignment(server: Server, incident: int, team: int, cells: seq<int>, tDev: int)
      returns (outcome: IssueOutcome)
    requires WellFormed(server.log)
    modifies server
    ensures WellFormed(server.log)
    ensures (server.log, outcome) == Issue(old(server.log), incident, team, cells, tDev)
  {
    hide WellFormed, Author, AssignFold, Ordered, HolderOf, Authored, Append;
    assert cells[0..] == cells;
    for i := 0 to |cells|
      invariant FirstBadCell(cells) == FirstBadCell(cells[i..])
    {
      if BadCell(cells[i]) {
        return CellOutOfRange(cells[i]);
      }
      assert cells[i..][1..] == cells[i + 1..];
    }
    var holders := FoldAssignmentState(FactsOf(server.log.rows));
    var alreadyHeld: seq<Held> := [];
    for i := 0 to |cells|
      invariant alreadyHeld == HeldByOthers(holders, incident, team, cells[..i])
    {
      assert cells[..i + 1][..i] == cells[..i];
      var holder := HolderOf(holders, Cell(incident, cells[i]));
      if holder.Some? && holder != Some(team) {
        alreadyHeld := alreadyHeld + [Held(cells[i], holder.value)];
      }
    }
    assert cells[..|cells|] == cells;
    var aid := NextAssignmentId(server.log.rows);
    var result := server.AuthorEvent(Draft(AssignmentIssued(aid, team, cells), aid, incident, tDev));
    if result.None? {
      return InvalidIssue;
    }
    AuthoredPosition(old(server.log), Draft(AssignmentIssued(aid, team, cells), aid, incident, tDev));
    outcome := Issued(aid, result.value.serverSeq, alreadyHeld);
  }

  /** An authored event is new, so it takes the next position. */
  lemma AuthoredPosition(l: Log, draft: Event)
    requires WellFormed(l) && Author(l, draft).Some?
    ensures Append(l, Authored(l, draft)).1.serverSeq == l.identity + 1
  {
    AppendKeepsOrder(l, Authored(l, draft));
  }

  method RevokeAssignment(server: Server, aid: int, tDev: int) returns (outcome: RevokeOutcome)
    requires WellFormed(server.log)
    modifies server
    ensures WellFormed(server.log)
    ensures (server.log, outcome) == Revoke(old(server.log), aid, tDev)
  {
    hide WellFormed, Author, Authored, Append;
    var rows := server.log.rows;
    var issued: seq<Event> := [];
    assert rows[0..] == rows;
    for i := 0 to |rows|
      invariant FirstIssue(rows, aid) == if issued == [] then FirstIssue(rows[i..], aid) else Some(issued[0])
    {
      assert rows[i..][1..] == rows[i + 1..];
      if Issues(rows[i].event, aid) {
        issued := issued + [rows[i].event];
      }
    }
    if issued == [] {
      return UnknownAssignment;
    }
    var draft := Draft(AssignmentRevoked(aid), aid, issued[0].incident, tDev);
    var result := server.AuthorEvent(draft);
    if result.None? {
      return InvalidRevocation;
    }
    AuthoredPosition(old(server.log), draft);
    outcome := Revoked(result.value.serverSeq);
  }

  // ------------------------------------------------------- what issuing reports

  lemma {:induction false} HeldByOthersExact(holders: map<Cell, AssignmentState>, incident: int, team: int, cells: seq<int>,
                                             h: Held)
    ensures h in HeldByOthers(holders, incident, team, cells) <==>
            h.cell in cells && HolderOf(holders, Cell(incident, h.cell)) == Some(h.team) && h.team != team
  {
    hide HolderOf;
    if cells == [] {
    } else {
      var front, c := cells[..|cells| - 1], cells[|cells| - 1];
      HeldByOthersExact(holders, incident, team, front, h);
      assert cells == front + [c];
      assert h.cell in cells <==> h.cell in front || h.cell == c;
    }
  }

  /** Row `i` issued the cell to `team`, and nothing touched the cell since. */
  ghost predicate HeldSince(rows: seq<Row>, i: int, c: Cell, team: int) {
    && 0 <= i < |rows| && LastTouch(FactsOf(rows), i, c)
    && rows[i].event.payload.AssignmentIssued? && rows[i].event.payload.holder == team
  }

  lemma HolderMeaning(l: Log, c: Cell, team: int)
    requires WellFormed(l)
    ensures HolderOf(Holding(l.rows), c) == Some(team) <==> exists i :: HeldSince(l.rows, i, c, team)
  {
    LogIsOrdered(l);
    AssignFoldIsLastTouch(FactsOf(l.rows), c);
    SomeLastTouch(FactsOf(l.rows), c);
    hide Ordered, AssignFold, LastTouch, Touches, WellFormed;
    if c in Holding(l.rows) {
      var i :| LastTouch(FactsOf(l.rows), i, c);
      LastTouchInRange(FactsOf(l.rows), i, c);
      if Holding(l.rows)[c].team == Some(team) {
        assert HeldSince(l.rows, i, c, team);
      }
    }
  }

  /** A collision is reported exactly when the last touch on the cell gave it to another team. */
  lemma CollisionsSurfaceExactly(l: Log, incident: int, team: int, cells: seq<int>, tDev: int, h: Held)
    requires WellFormed(l)
    ensures var outcome := Issue(l, incident, team, cells, tDev).1;
            outcome.Issued? ==>
              (h in outcome.alreadyHeld <==>
                 h.cell in cells && h.team != team && exists i :: HeldSince(l.rows, i, Cell(incident, h.cell), h.team))
  {
    HeldByOthersExact(Holding(l.rows), incident, team, cells, h);
    HolderMeaning(l, Cell(incident, h.cell), h.team);
    hide Holding, HeldByOthers, Author, HeldSince, WellFormed;
  }

  // ------------------------------------------------------------- the log invariant

  predicate Revokes(e: Event, aid: int) {
    e.payload.AssignmentRevoked? && e.payload.assignmentId == aid
  }

  predicate NoAssignment(p: Payload) {
    !p.AssignmentIssued? && !p.AssignmentRevoked?
  }

  /** Row `i` issued the assignment row `j` revokes, under the same incident. */
  ghost predicate RevokesEarlier(rows: seq<Row>, i: int, j: int, aid: int) {
    0 <= i < j < |rows| && Issues(rows[i].event, aid) && rows[i].event.incident == rows[j].event.incident
  }

  ghost predicate IdsUsedOnce(rows: seq<Row>) {
    forall i, j, aid :: 0 <= i < j < |rows| && Issues(rows[i].event, aid) ==> !Issues(rows[j].event, aid)
  }

  ghost predicate RevocationsMatch(rows: seq<Row>) {
    forall j, aid :: 0 <= j < |rows| && Revokes(rows[j].event, aid) ==> exists i :: RevokesEarlier(rows, i, j, aid)
  }

  ghost predicate IdsAreEntities(rows: seq<Row>) {
    forall i :: 0 <= i < |rows| && rows[i].event.payload.AssignmentIssued? ==>
      rows[i].event.entityId == rows[i].event.payload.assignmentId
  }

  /** Every id issued once; every revocation after its issuance and under its incident. */
  ghost predicate Managed(rows: seq<Row>) {
    IdsUsedOnce(rows) && RevocationsMatch(rows) && IdsAreEntities(rows)
  }

  /** In a managed log every revocation is filed with the issuance it revokes, so snapshots are restrictions. */
  lemma ManagedMeansWellFiled(rows: seq<Row>)
    requires Managed(rows)
    ensures forall m :: !Misfiled(FactsOf(rows), m)
  {
    var s := FactsOf(rows);
    forall m ensures !Misfiled(s, m) {
      if Misfiled(s, m) {
        var aid := s[m].event.payload.assignmentId;
        var j :| LastIssue(s, m, aid, j) && s[j].event.incident != s[m].event.incident;
        assert Revokes(rows[m].event, aid);
        var i :| RevokesEarlier(rows, i, m, aid);
        OnlyIssue(rows, i, j, aid);
      }
    }
  }

  lemma OnlyIssue(rows: seq<Row>, i: int, j: int, aid: int)
    requires IdsUsedOnce(rows) && 0 <= i < |rows| && 0 <= j < |rows|
    requires Issues(rows[i].event, aid) && Issues(rows[j].event, aid)
    ensures i == j
  {
  }

  lemma {:induction false} HighestBounds(rows: seq<Row>)
    ensures forall i :: 0 <= i < |rows| && rows[i].event.payload.AssignmentIssued? ==>
              rows[i].event.entityId <= HighestAssignmentId(rows)
  {
    if rows == [] {
    } else {
      HighestBounds(rows[..|rows| - 1]);
      assert forall i :: 0 <= i < |rows| - 1 ==> rows[..|rows| - 1][i] == rows[i];
    }
  }

  /** The next id belongs to no earlier issuance. */
  lemma NextIdIsFresh(rows: seq<Row>)
    requires IdsAreEntities(rows)
    ensures forall i :: 0 <= i < |rows| ==> !Issues(rows[i].event, NextAssignmentId(rows))
  {
    HighestBounds(rows);
  }

  /** One above the highest id issued, or 1. */
  lemma {:induction false} NextIdExact(rows: seq<Row>)
    ensures forall i :: 0 <= i < |rows| && rows[i].event.payload.AssignmentIssued? ==>
              rows[i].event.entityId < NextAssignmentId(rows)
    ensures NextAssignmentId(rows) == 1 ||
            exists i :: 0 <= i < |rows| && rows[i].event.payload.AssignmentIssued?
                        && rows[i].event.entityId + 1 == NextAssignmentId(rows)
  {
    HighestBounds(rows);
    if rows == [] {
    } else {
      var front := rows[..|rows| - 1];
      NextIdExact(front);
      if NextAssignmentId(rows) == NextAssignmentId(front) && NextAssignmentId(rows) != 1 {
        var i :| 0 <= i < |front| && front[i].event.payload.AssignmentIssued?
                 && front[i].event.entityId + 1 == NextAssignmentId(front);
        assert rows[i] == front[i];
      }
    }
  }

  /** The row an issuance adds, field by field. */
  lemma IssuedRow(l: Log, incident: int, team: int, cells: seq<int>, tDev: int)
    requires WellFormed(l) && Issue(l, incident, team, cells, tDev).1.Issued?
    ensures var (l', outcome) := Issue(l, incident, team, cells, tDev);
            var e := l'.rows[|l'.rows| - 1].event;
            && |l'.rows| == |l.rows| + 1 && l.rows <= l'.rows
            && l'.rows[|l.rows|].serverSeq == outcome.serverSeq == l.identity + 1 == l'.identity
            && outcome.assignmentId == NextAssignmentId(l.rows)
            && e.payload == AssignmentIssued(outcome.assignmentId, team, cells)
            && e.entityId == outcome.assignmentId && e.incident == incident && e.tDev == tDev
            && e.device == 0 && e.responder == 1 && e.team == 0 && e.agency == 1 && e.schema == 1
  {
    var draft := IssueDraft(l.rows, incident, team, cells, tDev);
    AuthorInserts(l, draft);
    AuthoredFields(l, draft);
    hide Author, WellFormed, HeldByOthers, FirstBadCell, Authored, NextAssignmentId, Holding;
  }

  /** The row a revocation adds: filed under the incident of the first issuance of the id. */
  lemma RevokedRow(l: Log, aid: int, tDev: int)
    requires WellFormed(l) && Revoke(l, aid, tDev).1.Revoked?
    ensures var (l', outcome) := Revoke(l, aid, tDev);
            var e := l'.rows[|l'.rows| - 1].event;
            && |l'.rows| == |l.rows| + 1 && l.rows <= l'.rows
            && l'.rows[|l.rows|].serverSeq == outcome.serverSeq == l.identity + 1 == l'.identity
            && e.payload == AssignmentRevoked(aid) && e.entityId == aid && e.tDev == tDev
            && e.device == 0 && e.responder == 1 && e.team == 0 && e.agency == 1 && e.schema == 1
            && exists i :: 0 <= i < |l.rows| && Issues(l.rows[i].event, aid) && l.rows[i].event.incident == e.incident
                           && forall j :: 0 <= j < i ==> !Issues(l.rows[j].event, aid)
  {
    FirstIssueExact(l.rows, aid);
    var draft := Draft(AssignmentRevoked(aid), aid, FirstIssue(l.rows, aid).value.incident, tDev);
    AuthorInserts(l, draft);
    AuthoredFields(l, draft);
    hide Author, WellFormed, FirstIssue, Authored;
  }

  /** Issuing is refused at the first cell out of range, and only then before validation. */
  lemma RefusedCell(l: Log, incident: int, team: int, cells: seq<int>, tDev: int)
    ensures var (l', outcome) := Issue(l, incident, team, cells, tDev);
            && (outcome.CellOutOfRange? <==> exists c :: c in cells && !(0 <= c <= 8190))
            && (!outcome.Issued? ==> l' == l)
            && (outcome.CellOutOfRange? ==> exists i :: 0 <= i < |cells| && cells[i] == outcome.cell && !(0 <= outcome.cell <= 8190)
                                              && forall j :: 0 <= j < i ==> 0 <= cells[j] <= 8190)
  {
    FirstBadExact(cells);
    BadCellMeaning(cells);
    hide Author, HeldByOthers, Holding, FirstBadCell, NextAssignmentId;
  }

  lemma {:induction false} FirstBadExact(cells: seq<int>)
    ensures FirstBadCell(cells).None? <==> forall i :: 0 <= i < |cells| ==> 0 <= cells[i] <= 8190
    ensures FirstBadCell(cells).Some? ==>
              exists i :: 0 <= i < |cells| && cells[i] == FirstBadCell(cells).value && !(0 <= cells[i] <= 8190)
                          && forall j :: 0 <= j < i ==> 0 <= cells[j] <= 8190
  {
    if cells == [] {
    } else if !BadCell(cells[0]) {
      FirstBadExact(cells[1..]);
      assert forall i :: 0 < i < |cells| ==> cells[i] == cells[1..][i - 1];
      if FirstBadCell(cells).Some? {
        var i :| 0 <= i < |cells[1..]| && cells[1..][i] == FirstBadCell(cells).value && !(0 <= cells[1..][i] <= 8190)
                 && forall j :: 0 <= j < i ==> 0 <= cells[1..][j] <= 8190;
        assert cells[i + 1] == cells[1..][i];
      }
    }
  }

  lemma EarlierRevocations(rows: seq<Row>, row: Row)
    requires RevocationsMatch(rows)
    ensures forall j, aid :: 0 <= j < |rows| && Revokes((rows + [row])[j].event, aid) ==>
              exists i :: RevokesEarlier(rows + [row], i, j, aid)
  {
    forall j, aid | 0 <= j < |rows| && Revokes((rows + [row])[j].event, aid)
      ensures exists i :: RevokesEarlier(rows + [row], i, j, aid)
    {
      assert Revokes(rows[j].event, aid);
      var i :| RevokesEarlier(rows, i, j, aid);
      assert RevokesEarlier(rows + [row], i, j, aid);
    }
  }

  lemma QuietRowKeepsManaged(rows: seq<Row>, row: Row)
    requires Managed(rows) && NoAssignment(row.event.payload)
    ensures Managed(rows + [row])
  {
    EarlierRevocations(rows, row);
  }

  lemma IssueRowKeepsManaged(rows: seq<Row>, row: Row)
    requires Managed(rows) && Issues(row.event, NextAssignmentId(rows)) && row.event.entityId == NextAssignmentId(rows)
    ensures Managed(rows + [row])
  {
    EarlierRevocations(rows, row);
    NextIdIsFresh(rows);
    hide NextAssignmentId;
  }

  lemma {:induction false} FirstIssueExact(rows: seq<Row>, aid: int)
    ensures FirstIssue(rows, aid).Some? ==>
              exists i :: 0 <= i < |rows| && Issues(rows[i].event, aid) && rows[i].event == FirstIssue(rows, aid).value
                          && forall j :: 0 <= j < i ==> !Issues(rows[j].event, aid)
    ensures FirstIssue(rows, aid).None? ==> forall i :: 0 <= i < |rows| ==> !Issues(rows[i].event, aid)
  {
    if rows != [] && !Issues(rows[0].event, aid) {
      FirstIssueExact(rows[1..], aid);
      if FirstIssue(rows, aid).Some? {
        var i :| 0 <= i < |rows[1..]| && Issues(rows[1..][i].event, aid) && rows[1..][i].event == FirstIssue(rows, aid).value
                 && forall j :: 0 <= j < i ==> !Issues(rows[1..][j].event, aid);
        assert forall j :: 0 < j <= i ==> rows[j] == rows[1..][j - 1];
        assert rows[i + 1].event == FirstIssue(rows, aid).value;
      }
      assert forall i :: 0 < i < |rows| ==> rows[i] == rows[1..][i - 1];
    }
  }

  lemma RevokeRowKeepsManaged(rows: seq<Row>, row: Row, aid: int)
    requires Managed(rows) && Revokes(row.event, aid)
    requires FirstIssue(rows, aid).Some? && row.event.incident == FirstIssue(rows, aid).value.incident
    ensures Managed(rows + [row])
  {
    EarlierRevocations(rows, row);
    FirstIssueExact(rows, aid);
    var i :| 0 <= i < |rows| && Issues(rows[i].event, aid) && rows[i].event == FirstIssue(rows, aid).value;
    assert RevokesEarlier(rows + [row], i, |rows|, aid);
  }

  // ----------------------------------------------------------- runs of the desk

  datatype DeskOp =
    | IssueOp(incident: int, team: int, cells: seq<int>, tDev: int)
    | RevokeOp(aid: int, tDev: int)
    | OtherOp(op: Op)

  /** Everything else the server does brings no assignment event. */
  predicate Quiet(op: DeskOp) {
    match op
    case OtherOp(IngestOp(raws, _)) => forall raw :: raw in raws && raw.Candidate? ==> NoAssignment(raw.event.payload)
    case OtherOp(AuthorOp(draft)) => NoAssignment(draft.payload)
    case _ => true
  }

  function PerformDesk(l: Log, op: DeskOp): Log {
    match op
    case IssueOp(incident, team, cells, tDev) => Issue(l, incident, team, cells, tDev).0
    case RevokeOp(aid, tDev) => Revoke(l, aid, tDev).0
    case OtherOp(o) => Perform(l, o)
  }

  function RunDesk(l: Log, ops: seq<DeskOp>): Log
    decreases ops
  {
    if ops == [] then l else RunDesk(PerformDesk(l, ops[0]), ops[1..])
  }

  lemma {:induction false} QuietIngestKeepsManaged(l: Log, raws: seq<Raw>, caller: Option<Caller>)
    requires WellFormed(l) && Managed(l.rows)
    requires forall raw :: raw in raws && raw.Candidate? ==> NoAssignment(raw.event.payload)
    ensures Managed(Ingest(l, raws, caller).0.rows)
    decreases raws
  {
    hide Managed, WellFormed, Judge;
    if raws == [] {
    } else {
      assert raws[0] in raws;
      QuietJudgeKeepsManaged(l, raws[0], caller);
      JudgeKeepsOrder(l, raws[0], caller);
      QuietIngestKeepsManaged(Judge(l, raws[0], caller).0, raws[1..], caller);
    }
  }

  lemma QuietJudgeKeepsManaged(l: Log, raw: Raw, caller: Option<Caller>)
    requires Managed(l.rows) && (raw.Candidate? ==> NoAssignment(raw.event.payload))
    ensures Managed(Judge(l, raw, caller).0.rows)
  {
    hide Managed, MaxSeq, Stored, NoAssignment, Canonical;
    if Eligible(raw, caller) {
      QuietRowKeepsManaged(l.rows, Row(raw.event, l.identity + 1));
    }
  }

  lemma AuthoredRow(l: Log, draft: Event)
    requires WellFormed(l) && Author(l, draft).Some?
    ensures WellFormed(Author(l, draft).value)
    ensures exists row :: Author(l, draft).value.rows == l.rows + [row] && row.event.payload == draft.payload
              && row.event.entityId == draft.entityId && row.event.incident == draft.incident
  {
    AuthorInserts(l, draft);
    var row := Row(Authored(l, draft), l.identity + 1);
    assert Author(l, draft).value.rows == l.rows + [row];
  }

  lemma DeskStepKeepsManaged(l: Log, op: DeskOp)
    requires WellFormed(l) && Managed(l.rows) && Quiet(op)
    ensures WellFormed(PerformDesk(l, op)) && Managed(PerformDesk(l, op).rows)
  {
    hide Managed, WellFormed, Author, Ingest, NextAssignmentId, FirstIssue, FirstBadCell, HeldByOthers, NoAssignment;
    match op
    case IssueOp(incident, team, cells, tDev) =>
      var draft := IssueDraft(l.rows, incident, team, cells, tDev);
      if Author(l, draft).Some? {
        AuthoredRow(l, draft);
        var row :| Author(l, draft).value.rows == l.rows + [row] && row.event.payload == draft.payload
                     && row.event.entityId == draft.entityId && row.event.incident == draft.incident;
        IssueRowKeepsManaged(l.rows, row);
      }
    case RevokeOp(aid, tDev) =>
      if FirstIssue(l.rows, aid).Some? {
        var draft := Draft(AssignmentRevoked(aid), aid, FirstIssue(l.rows, aid).value.incident, tDev);
        if Author(l, draft).Some? {
          AuthoredRow(l, draft);
          var row :| Author(l, draft).value.rows == l.rows + [row] && row.event.payload == draft.payload
                       && row.event.entityId == draft.entityId && row.event.incident == draft.incident;
          RevokeRowKeepsManaged(l.rows, row, aid);
        }
      }
    case OtherOp(o) =>
      PerformKeepsOrder(l, o);
      match o {
        case IngestOp(raws, caller) => QuietIngestKeepsManaged(l, raws, caller);
        case AuthorOp(draft) =>
          if Author(l, draft).Some? {
            AuthoredRow(l, draft);
            var row :| Author(l, draft).value.rows == l.rows + [row] && row.event.payload == draft.payload
                         && row.event.entityId == draft.entityId && row.event.incident == draft.incident;
            QuietRowKeepsManaged(l.rows, row);
          }
        case Burn(_) =>
      }
  }

  /** Whatever the desk does, ids stay unique and revocations stay with their incident. */
  lemma {:induction false} DeskRunKeepsManaged(l: Log, ops: seq<DeskOp>)
    requires WellFormed(l) && Managed(l.rows) && forall op :: op in ops ==> Quiet(op)
    ensures WellFormed(RunDesk(l, ops)) && Managed(RunDesk(l, ops).rows)
    decreases ops
  {
    hide Managed, WellFormed, PerformDesk, Quiet;
    if ops == [] {
    } else {
      DeskStepKeepsManaged(l, ops[0]);
      DeskRunKeepsManaged(PerformDesk(l, ops[0]), ops[1..]);
    }
  }

  /** So in every run from an empty log, each incident's snapshot restricts the whole. */
  lemma SnapshotsOfEveryRun(ops: seq<DeskOp>, incident: int)
    requires forall op :: op in ops ==> Quiet(op)
    ensures var events := FactsOf(RunDesk(EMPTY_LOG, ops).rows);
            var whole, part := Projections.AllOf(events), Projections.AllOf(Only(events, incident));
            && part.cells == Within(whole.cells, incident)
            && part.assignments == Within(whole.assignments, incident)
            && part.duplicates == Within(whole.duplicates, incident)
            && SameLine(part.coverage, whole.coverage, incident)
  {
    DeskRunKeepsManaged(EMPTY_LOG, ops);
    hide Managed, RunDesk, Projections.AllOf, Only, Within, Misfiled, Projections.Committed, Ordered, WellFormed;
    var l := RunDesk(EMPTY_LOG, ops);
    ManagedMeansWellFiled(l.rows);
    LogIsOrdered(l);
    LogIsCommitted(l);
    WellFiledIsClean(FactsOf(l.rows), incident);
    Projections.SnapshotIsRestriction(FactsOf(l.rows), incident);
  }

  lemma LogIsCommitted(l: Log)
    requires WellFormed(l)
    ensures Projections.Committed(FactsOf(l.rows)) && Climbing(FactsOf(l.rows))
  {
  }

  /**
   The condition on the rest of the server matters.  Parsing lets a field device submit a
   revocation under its own incident; the log takes it, the whole log frees the cells of
   the assignment, and the snapshot of their incident does not change: it still shows who
   held them.
   */
  lemma FieldRevocationIsLost(l: Log, e: Event, j: int, aid: int, c: Cell)
    requires WellFormed(l) && Canonical(e) && e.schema == CURRENT_SCHEMA_VERSION && Revokes(e, aid)
    requires e.seqNo > MaxSeq(l.rows, e.device)
    requires LastIssue(FactsOf(l.rows), |l.rows|, aid, j) && l.rows[j].event.incident != e.incident
    requires c in IssuedCells(l.rows[j].event)
    ensures var l' := Ingest(l, [Candidate(e)], Some(Caller(Field, e.device, Some(e.incident)))).0;
            && l'.rows == l.rows + [Row(e, l.identity + 1)]
            && HolderOf(Holding(l'.rows), c) == None
            && AssignFold(Only(FactsOf(l'.rows), c.incident)) == AssignFold(Only(FactsOf(l.rows), c.incident))
            && !AgreeOn(FactsOf(l'.rows), c)
  {
    hide Canonical, WellFormed, MaxSeq, Ingest, AssignFold, Only, IssuedCells, LastIssue, AgreeOn, Holding;
    var caller := Some(Caller(Field, e.device, Some(e.incident)));
    OwnRevocationEligible(e, aid);
    NewEventAppended(l, e, caller);
    IngestOne(l, Candidate(e), caller);
    MaxSeqBounds(l.rows, e.device);
    RevocationFrees(l, Row(e, l.identity + 1), j, aid, c);
  }

  lemma RevocationFrees(l: Log, row: Row, j: int, aid: int, c: Cell)
    requires WellFormed(l) && row.serverSeq == l.identity + 1 && Revokes(row.event, aid)
    requires row.event.seqNo > MaxSeq(l.rows, row.event.device) && row.event.seqNo >= 0
    requires LastIssue(FactsOf(l.rows), |l.rows|, aid, j) && l.rows[j].event.incident != row.event.incident
    requires c in IssuedCells(l.rows[j].event)
    ensures var rows := l.rows + [row];
            && HolderOf(Holding(rows), c) == None
            && AssignFold(Only(FactsOf(rows), c.incident)) == AssignFold(Only(FactsOf(l.rows), c.incident))
            && !AgreeOn(FactsOf(rows), c)
  {
    hide MaxSeq, AssignFold, Only, IssuedCells, AgreeOn, WellFormed, Ordered, Climbing;
    var rows := l.rows + [row];
    var s, m := FactsOf(rows), |l.rows|;
    SnocKeepsOrder(l, row);
    LogIsCommitted(Log(rows, l.identity + 1));
    LastIssueCarries(l.rows, row, aid, j);
    Coverage.IssuedCellsMembers(l.rows[j].event, c);
    assert s[m] == FactOf(row) && s[..m] == FactsOf(l.rows);
    OnlyLast(s, c.incident);
    MisfiledLastDisagrees(s, m, j, aid, c);
    LastRevocationFrees(s, j, aid, c);
    HoldingAfter(l, row);
    FoldOneMore(l.rows, row);
  }

  lemma LastIssueCarries(rows: seq<Row>, row: Row, aid: int, j: int)
    requires LastIssue(FactsOf(rows), |rows|, aid, j)
    ensures LastIssue(FactsOf(rows + [row]), |rows|, aid, j) && FactsOf(rows + [row])[j].event == rows[j].event
  {
    assert FactsOf(rows + [row])[..|rows|] == FactsOf(rows);
    LastIssueInPrefix(FactsOf(rows + [row]), |rows|, |rows|, aid, j);
  }

  /** The fold of a log ending in a revocation frees the cells of what it revokes. */
  lemma LastRevocationFrees(s: seq<Fact>, j: int, aid: int, c: Cell)
    requires s != [] && Revokes(s[|s| - 1].event, aid) && LastIssue(s, |s| - 1, aid, j) && c in IssuedCells(s[j].event)
    ensures HolderOf(AssignFold(s).out, c) == None
  {
    hide AssignFold, IssuedCells, LastIssue;
    assert Touches(s, |s| - 1, c);
    assert LastTouch(s, |s| - 1, c);
    AssignFoldIsLastTouch(s, c);
  }

  lemma OwnRevocationEligible(e: Event, aid: int)
    requires Canonical(e) && e.schema == CURRENT_SCHEMA_VERSION && Revokes(e, aid)
    ensures Eligible(Candidate(e), Some(Caller(Field, e.device, Some(e.incident))))
  {
    hide Canonical;
  }

  lemma NewEventAppended(l: Log, e: Event, caller: Option<Caller>)
    requires WellFormed(l) && Eligible(Candidate(e), caller) && e.seqNo > MaxSeq(l.rows, e.device)
    ensures Judge(l, Candidate(e), caller).0 == Log(l.rows + [Row(e, l.identity + 1)], l.identity + 1)
  {
    EligibleIsCanonical(Candidate(e), caller);
    StoredIffAtMax(l, e);
    hide MaxSeq, Refusal, Canonical, WellFormed, Stored;
  }

  lemma IngestOne(l: Log, raw: Raw, caller: Option<Caller>)
    ensures Ingest(l, [raw], caller).0 == Judge(l, raw, caller).0
  {
    hide Judge;
    assert Ingest(l, [raw], caller).0 == Ingest(Judge(l, raw, caller).0, [raw][1..], caller).0;
  }

  // --------------------------------------------------------- what an operation does

  lemma HoldingAfter(l: Log, row: Row)
    requires WellFormed(l) && WellFormed(Log(l.rows + [row], row.serverSeq))
    ensures Holding(l.rows + [row]) == AssignStep(AssignFold(FactsOf(l.rows)), FactOf(row)).out
    ensures Holding(l.rows) == AssignFold(FactsOf(l.rows)).out
  {
    hide *;
    LogIsOrdered(l);
    LogIsOrdered(Log(l.rows + [row], row.serverSeq));
    HoldingOrdered(l.rows);
    HoldingOrdered(l.rows + [row]);
    FoldOneMore(l.rows, row);
  }

  lemma HoldingOrdered(rows: seq<Row>)
    requires Ordered(FactsOf(rows)) == FactsOf(rows)
    ensures Holding(rows) == AssignFold(FactsOf(rows)).out
  {
  }

  lemma FoldOneMore(rows: seq<Row>, row: Row)
    ensures AssignFold(FactsOf(rows + [row])) == AssignStep(AssignFold(FactsOf(rows)), FactOf(row))
  {
    hide AssignStep, FactOf;
    assert FactsOf(rows + [row])[..|rows|] == FactsOf(rows);
  }

  /** Issuing gives the team every cell asked for, whoever held it, and moves nothing else. */
  lemma IssueTakesEffect(l: Log, incident: int, team: int, cells: seq<int>, tDev: int, c: Cell)
    requires WellFormed(l) && Issue(l, incident, team, cells, tDev).1.Issued?
    ensures var l' := Issue(l, incident, team, cells, tDev).0;
            HolderOf(Holding(l'.rows), c) ==
            if c.incident == incident && c.index in cells then Some(team) else HolderOf(Holding(l.rows), c)
  {
    var draft := IssueDraft(l.rows, incident, team, cells, tDev);
    AuthorInserts(l, draft);
    var row := Row(Authored(l, draft), l.identity + 1);
    hide WellFormed, Author, AssignFold, Ordered, MaxSeq, Canonical, HeldByOthers, FirstBadCell;
    HoldingAfter(l, row);
    Coverage.IssuedCellsMembers(row.event, c);
    FoldStepOnCell(AssignFold(FactsOf(l.rows)), FactOf(row), c);
  }

  /**
   Revoking frees every cell of the issuance, including a cell since issued again under
   another assignment, and moves nothing else.
   */
  lemma RevokeTakesEffect(l: Log, aid: int, tDev: int, c: Cell)
    requires WellFormed(l) && Managed(l.rows) && Revoke(l, aid, tDev).1.Revoked?
    ensures var l' := Revoke(l, aid, tDev).0;
            HolderOf(Holding(l'.rows), c) ==
            if c in IssuedCells(FirstIssue(l.rows, aid).value) then None else HolderOf(Holding(l.rows), c)
  {
    var draft := Draft(AssignmentRevoked(aid), aid, FirstIssue(l.rows, aid).value.incident, tDev);
    AuthorInserts(l, draft);
    var row := Row(Authored(l, draft), l.identity + 1);
    hide WellFormed, Author, AssignFold, Ordered, MaxSeq, Canonical, FirstIssue, Managed;
    HoldingAfter(l, row);
    RememberedIsFirst(l.rows, aid);
    FoldStepOnCell(AssignFold(FactsOf(l.rows)), FactOf(row), c);
  }

  lemma RememberedIsFirst(rows: seq<Row>, aid: int)
    requires Managed(rows) && FirstIssue(rows, aid).Some?
    ensures CellsOf(AssignFold(FactsOf(rows)), aid) == IssuedCells(FirstIssue(rows, aid).value)
  {
    var s := FactsOf(rows);
    FirstIssueExact(rows, aid);
    var i :| 0 <= i < |rows| && Issues(rows[i].event, aid) && rows[i].event == FirstIssue(rows, aid).value;
    assert LastIssue(s, |s|, aid, i);
    CellsOfIsLastIssue(s, aid);
    hide AssignFold, IssuedCells;
    var j :| LastIssue(s, |s|, aid, j) && AssignFold(s).cellsOf[aid] == IssuedCells(s[j].event);
    LastIssueUnique(s, |s|, aid, i, j);
  }
}
