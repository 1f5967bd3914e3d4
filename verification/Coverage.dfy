/**
 Coverage metrics: cells counted by status against the size of the published grid.
 The five counts add up to the grid exactly while no more cells are reported or held than it has.
 */
module Coverage {
  import opened Results
  import opened Domain
  import opened Sorting
  import opened Latest
  import opened Folds
  import opened EventStore
  import opened Ingestion

  type Counts = map<int, map<ShownStatus, nat>>

  datatype Metrics = Metrics(incident: int, total: nat, searched: nat, inProgress: nat, needsResearch: nat,
                             held: nat, unsearched: nat)

  /** Size of the last grid generated for each incident. */
  function GridTotals(s: seq<Fact>): map<int, nat> {
    if s == [] then map[] else
    var front, f := GridTotals(s[..|s| - 1]), s[|s| - 1];
    if f.event.payload.GridGenerated? then front[f.event.incident := f.event.payload.rows * f.event.payload.cols]
    else front
  }

  function TotalFor(s: seq<Fact>, incident: int): nat {
    if incident in GridTotals(s) then GridTotals(s)[incident] else 0
  }

  function Showing(states: map<Cell, CellState>, cells: set<Cell>, incident: int, status: ShownStatus): set<Cell> {
    set c | c in cells && c in states && c.incident == incident && states[c].status == status
  }

  function TouchedIn(states: map<Cell, CellState>, incident: int): set<Cell> {
    set c | c in states && c.incident == incident
  }

  function MetricsFor(s: seq<Fact>, incident: int): Metrics {
    var states := CellFold(s);
    var searched := |Showing(states, states.Keys, incident, Reported(Searched))|;
    var inProgress := |Showing(states, states.Keys, incident, Reported(InProgress))|;
    var needs := |Showing(states, states.Keys, incident, Reported(NeedsResearch))|;
    var held := |Showing(states, states.Keys, incident, Assigned)|;
    var total, counted := TotalFor(s, incident), searched + inProgress + needs + held;
    Metrics(incident, total, searched, inProgress, needs, held, if total > counted then total - counted else 0)
  }

  /** Incidents with a grid or with a touched cell. */
  function Incidents(s: seq<Fact>): set<int> {
    GridTotals(s).Keys + set c | c in CellFold(s) :: c.incident
  }

  function CoverageFold(s: seq<Fact>): map<int, Metrics> {
    map i | i in Incidents(s) :: MetricsFor(s, i)
  }

  // ---------------------------------------------------------------- the loops

  function Count(counts: Counts, incident: int, status: ShownStatus): nat {
    if incident in counts && status in counts[incident] then counts[incident][status] else 0
  }

  lemma ShowingNext(states: map<Cell, CellState>, done: set<Cell>, c: Cell, incident: int, status: ShownStatus)
    requires c in states && c !in done
    ensures |Showing(states, done + {c}, incident, status)| ==
            |Showing(states, done, incident, status)| +
            if c.incident == incident && states[c].status == status then 1 else 0
  {
    if c.incident == incident && states[c].status == status {
      assert Showing(states, done + {c}, incident, status) == Showing(states, done, incident, status) + {c};
    } else {
      assert Showing(states, done + {c}, incident, status) == Showing(states, done, incident, status);
    }
  }

  method CountStates(states: map<Cell, CellState>) returns (counts: Counts)
    ensures counts.Keys == set c | c in states :: c.incident
    ensures forall i, st :: Count(counts, i, st) == |Showing(states, states.Keys, i, st)|
  {
    counts := map[];
    var todo := states.Keys;
    ghost var done: set<Cell> := {};
    while todo != {}
      invariant todo !! done && todo + done == states.Keys
      invariant counts.Keys == set c | c in done :: c.incident
      invariant forall i, st :: Count(counts, i, st) == |Showing(states, done, i, st)|
      decreases todo
    {
      var c :| c in todo;
      var st := states[c].status;
      ghost var before := counts;
      var row := if c.incident in counts then counts[c.incident] else map[];
      counts := counts[c.incident := row[st := (if st in row then row[st] else 0) + 1]];
      forall i, s ensures Count(counts, i, s) == |Showing(states, done + {c}, i, s)| {
        ShowingNext(states, done, c, i, s);
        assert Count(before, i, s) == |Showing(states, done, i, s)|;
      }
      todo, done := todo - {c}, done + {c};
    }
    assert done == states.Keys;
  }

  method FoldCoverageMetrics(events: seq<Fact>) returns (out: map<int, Metrics>)
    ensures out == CoverageFold(Ordered(events))
  {
    var ordered := Ordered(events);
    var gridTotal: map<int, nat> := map[];
    for i := 0 to |ordered|
      invariant gridTotal == GridTotals(ordered[..i])
    {
      assert ordered[..i + 1][..i] == ordered[..i];
      var f := ordered[i];
      if f.event.payload.GridGenerated? {
        gridTotal := gridTotal[f.event.incident := f.event.payload.rows * f.event.payload.cols];
      }
    }
    assert ordered[..|ordered|] == ordered;
    var states := FoldCellState(events);
    var counts := CountStates(states);
    out := Summarise(ordered, gridTotal, states, counts);
  }

  /** The last loop: one line per incident. */
  method Summarise(ghost s: seq<Fact>, gridTotal: map<int, nat>, ghost states: map<Cell, CellState>, counts: Counts)
    returns (out: map<int, Metrics>)
    requires gridTotal == GridTotals(s) && states == CellFold(s)
    requires counts.Keys == set c | c in states :: c.incident
    requires forall i, st :: Count(counts, i, st) == |Showing(states, states.Keys, i, st)|
    ensures out == CoverageFold(s)
  {
    hide CellFold, GridTotals, Showing, Count;
    out := map[];
    var todo := gridTotal.Keys + counts.Keys;
    while todo != {}
      invariant todo <= Incidents(s) && out.Keys == Incidents(s) - todo
      invariant forall i :: i in out ==> out[i] == MetricsFor(s, i)
      decreases todo
    {
      ghost var some := Pick(todo);
      var i :| i in todo;
      var total := if i in gridTotal then gridTotal[i] else 0;
      var searched := Count(counts, i, Reported(Searched));
      var inProgress := Count(counts, i, Reported(InProgress));
      var needs := Count(counts, i, Reported(NeedsResearch));
      var held := Count(counts, i, Assigned);
      var counted := searched + inProgress + needs + held;
      out := out[i := Metrics(i, total, searched, inProgress, needs, held, if total > counted then total - counted else 0)];
      todo := todo - {i};
    }
  }

  // ------------------------------------------------------- the counts, one by one

  /** The last report on the cell says so. */
  ghost predicate LastSays(s: seq<Fact>, c: Cell, status: CellStatus) {
    exists i :: 0 <= i < |s| && LastReport(s, i, c) && s[i].event.payload == CellStatusReported(c.index, status)
  }

  /** Nobody reported the cell, and the last assignment event touching it is an issuance. */
  ghost predicate HeldOnly(s: seq<Fact>, c: Cell) {
    HeldIn(s, c) && !AnyOf(s, OnCell(c))
  }

  lemma ShowsReport(s: seq<Fact>, c: Cell, status: CellStatus)
    ensures c in CellFold(s) && CellFold(s)[c].status == Reported(status) <==> LastSays(s, c, status)
  {
    CellFoldMeaning(s, c);
    LastExists(s, OnCell(c));
    CellShown(s, c);
    LatestIsLastReport(s, c);
    hide CellFold, LatestReports, HeldIn, AnyOf, LastTouch, Touches, AssignFold;
    forall i | LastReport(s, i, c) ensures 0 <= i < |s| && ReportsOn(s[i], c) {
    }
    if c in CellFold(s) && CellFold(s)[c].status == Reported(status) {
      assert AnyOf(s, OnCell(c));
      var i :| LastOf(s, OnCell(c), i);
      assert LastReport(s, i, c);
    }
  }

  lemma ShowsHolder(s: seq<Fact>, c: Cell)
    ensures c in CellFold(s) && CellFold(s)[c].status == Assigned <==> HeldOnly(s, c)
  {
    CellShown(s, c);
    LatestIsLastReport(s, c);
    hide CellFold, LatestReports, HeldIn, AnyOf, AssignFold;
  }

  lemma ShowingReported(s: seq<Fact>, incident: int, status: CellStatus, cells: set<Cell>)
    requires forall c :: c in cells <==> c.incident == incident && LastSays(s, c, status)
    ensures Showing(CellFold(s), CellFold(s).Keys, incident, Reported(status)) == cells
  {
    hide CellFold, LastSays;
    forall c ensures c in Showing(CellFold(s), CellFold(s).Keys, incident, Reported(status)) <==> c in cells {
      ShowsReport(s, c, status);
    }
  }

  lemma ShowingHeld(s: seq<Fact>, incident: int, cells: set<Cell>)
    requires forall c :: c in cells <==> c.incident == incident && HeldOnly(s, c)
    ensures Showing(CellFold(s), CellFold(s).Keys, incident, Assigned) == cells
  {
    hide CellFold, HeldOnly;
    forall c ensures c in Showing(CellFold(s), CellFold(s).Keys, incident, Assigned) <==> c in cells {
      ShowsHolder(s, c);
    }
  }

  /** Event `i` generates a grid of so many cells. */
  ghost predicate GridSize(s: seq<Fact>, i: int, total: nat) {
    && 0 <= i < |s|
    && match s[i].event.payload case GridGenerated(rows, cols) => total == rows * cols case _ => false
  }

  /**
   Each count by itself: cells whose last report says searched, in progress or needs-research,
   unreported cells held, the size of the last grid, and what is left of it.
   */
  lemma CountsExact(s: seq<Fact>, incident: int, searched: set<Cell>, inProgress: set<Cell>, needs: set<Cell>,
                    held: set<Cell>)
    requires forall c :: c in searched <==> c.incident == incident && LastSays(s, c, Searched)
    requires forall c :: c in inProgress <==> c.incident == incident && LastSays(s, c, InProgress)
    requires forall c :: c in needs <==> c.incident == incident && LastSays(s, c, NeedsResearch)
    requires forall c :: c in held <==> c.incident == incident && HeldOnly(s, c)
    ensures incident in CoverageFold(s) <==>
            AnyOf(s, GridOf(incident)) || searched + inProgress + needs + held != {}
    ensures incident in CoverageFold(s) ==>
              var m := CoverageFold(s)[incident];
              && m.incident == incident && m.searched == |searched| && m.inProgress == |inProgress|
              && m.needsResearch == |needs| && m.held == |held|
              && (forall i :: LastOf(s, GridOf(incident), i) ==> GridSize(s, i, m.total))
              && (!AnyOf(s, GridOf(incident)) ==> m.total == 0)
              && m.unsearched == if |searched| + |inProgress| + |needs| + |held| > m.total then 0
                                 else m.total - (|searched| + |inProgress| + |needs| + |held|)
  {
    ShowingReported(s, incident, Searched, searched);
    ShowingReported(s, incident, InProgress, inProgress);
    ShowingReported(s, incident, NeedsResearch, needs);
    ShowingHeld(s, incident, held);
    TotalIsLastGrid(s, incident);
    LastExists(s, GridOf(incident));
    GridsAreGrids(s, incident);
    hide CellFold, GridTotals, LastSays, HeldOnly, Showing, AnyOf, LastOf;
    LineIff(s, incident, searched, inProgress, needs, held);
  }

  lemma GridsAreGrids(s: seq<Fact>, incident: int)
    ensures forall i :: LastOf(s, GridOf(incident), i) ==> 0 <= i < |s| && s[i].event.payload.GridGenerated?
  {
  }

  lemma LineIff(s: seq<Fact>, incident: int, searched: set<Cell>, inProgress: set<Cell>, needs: set<Cell>, held: set<Cell>)
    requires var states := CellFold(s);
             && searched == Showing(states, states.Keys, incident, Reported(Searched))
             && inProgress == Showing(states, states.Keys, incident, Reported(InProgress))
             && needs == Showing(states, states.Keys, incident, Reported(NeedsResearch))
             && held == Showing(states, states.Keys, incident, Assigned)
    ensures incident in Incidents(s) <==> incident in GridTotals(s) || searched + inProgress + needs + held != {}
  {
    hide CellFold, GridTotals;
    var states := CellFold(s);
    forall c | c in states && c.incident == incident ensures c in searched + inProgress + needs + held {
      match states[c].status
      case Assigned =>
      case Reported(st) => match st case Searched => case InProgress => case NeedsResearch =>
    }
    if searched + inProgress + needs + held != {} {
      var c :| c in searched + inProgress + needs + held;
      assert c in states && c.incident == incident;
    }
  }

  // ------------------------------------------------------------- conservation

  function FourCounts(m: Metrics): nat {
    m.searched + m.inProgress + m.needsResearch + m.held
  }

  /** Every touched cell is counted under exactly one status. */
  lemma TouchedAreCounted(s: seq<Fact>, incident: int)
    ensures FourCounts(MetricsFor(s, incident)) == |TouchedIn(CellFold(s), incident)|
  {
    hide CellFold;
    var states := CellFold(s);
    var a := Showing(states, states.Keys, incident, Reported(Searched));
    var b := Showing(states, states.Keys, incident, Reported(InProgress));
    var c := Showing(states, states.Keys, incident, Reported(NeedsResearch));
    var d := Showing(states, states.Keys, incident, Assigned);
    forall x ensures x in TouchedIn(states, incident) <==> x in a + b + c + d {
      if x in states {
        match states[x].status
        case Assigned =>
        case Reported(st) => match st case Searched => case InProgress => case NeedsResearch =>
      }
    }
    assert TouchedIn(states, incident) == a + b + c + d;
    assert a !! b && (a + b) !! c && (a + b + c) !! d;
  }

  /**
   The five counts sum to the grid exactly when no more cells of the incident are marked,
   by a report or by a live issuance, than the grid has; beyond that they sum to the cells.
   */
  lemma CountsSumToGridIff(s: seq<Fact>, incident: int, marked: set<Cell>)
    requires forall c :: c in marked <==> c.incident == incident && Marked(s, c)
    ensures var m := MetricsFor(s, incident);
            && FourCounts(m) == |marked|
            && (FourCounts(m) + m.unsearched == m.total <==> |marked| <= TotalFor(s, incident))
            && (|marked| > TotalFor(s, incident) ==> m.unsearched == 0)
  {
    TouchedAreCounted(s, incident);
    hide CellFold, Marked, TotalFor;
    forall c ensures c in marked <==> c in TouchedIn(CellFold(s), incident) {
      ShownIffMarked(s, c);
    }
    assert marked == TouchedIn(CellFold(s), incident);
  }

  /** A 1 x 1 grid and two reports, each a valid event: a reported cell is not held against the grid. */
  function OverfullLog(): (s: seq<Fact>)
    ensures |s| == 3
  {
    [Fact(Event(0, 1, GridGenerated(1, 1), 1, 0, 1, 0, 1, 1, 1), Some(1)),
     Fact(Event(7, 1, CellStatusReported(0, Searched), 0, 0, 1, 1, 1, 1, 1), Some(2)),
     Fact(Event(7, 2, CellStatusReported(1, Searched), 1, 0, 1, 1, 1, 1, 1), Some(3))]
  }

  lemma CountsCanExceedTheGrid()
    ensures forall f :: f in OverfullLog() ==> Canonical(f.event)
    ensures MetricsFor(OverfullLog(), 1).total == 1
    ensures FourCounts(MetricsFor(OverfullLog(), 1)) == 2 && MetricsFor(OverfullLog(), 1).unsearched == 0
  {
    hide *;
    OverfullValid();
    OverfullTotal();
    var s, marked := OverfullLog(), {Cell(1, 0), Cell(1, 1)};
    forall c ensures c in marked <==> c.incident == 1 && Marked(s, c) {
      OverfullMarked(c);
    }
    assert |marked| == 2;
    CountsSumToGridIff(s, 1, marked);
    TotalIsTotal(s);
  }

  lemma OverfullValid()
    ensures forall f :: f in OverfullLog() ==> Canonical(f.event)
  {
    hide TotalFor, MetricsFor, Marked;
    var s := OverfullLog();
    assert Canonical(s[0].event) && Canonical(s[1].event) && Canonical(s[2].event);
  }

  /** The server stores that log: it authors the grid, and the phone's two reports are accepted. */
  lemma OverfullIsStored()
    ensures var s := OverfullLog();
            var grid := Author(EMPTY_LOG, s[0].event);
            var reports := [Candidate(s[1].event), Candidate(s[2].event)];
            && grid.Some?
            && Ingest(grid.value, reports, Some(Caller(Field, 7, Some(1)))).0.rows ==
               seq(3, i requires 0 <= i < 3 => Row(s[i].event, i + 1))
            && forall i :: 0 <= i < 3 ==> s[i].serverSeq == Some(i + 1)
  {
    var s, caller := OverfullLog(), Some(Caller(Field, 7, Some(1)));
    var reports := [Candidate(s[1].event), Candidate(s[2].event)];
    OverfullAuthored();
    OverfullAccepted();
    assert reports[1..] == [reports[1]] && reports[1..][1..] == [];
    hide OverfullLog, Author, Judge;
    var grid := Author(EMPTY_LOG, s[0].event).value;
    var next := Judge(grid, reports[0], caller).0;
    assert Ingest(next, reports[1..], caller).0 == Judge(next, reports[1], caller).0;
    assert Ingest(grid, reports, caller).0 == Ingest(next, reports[1..], caller).0;
  }

  lemma OverfullAuthored()
    ensures Author(EMPTY_LOG, OverfullLog()[0].event) == Some(Log([Row(OverfullLog()[0].event, 1)], 1))
  {
    OverfullValid();
    hide Canonical;
    var e := OverfullLog()[0].event;
    assert OverfullLog()[0] in OverfullLog();
    assert Authored(EMPTY_LOG, e) == e;
    assert EMPTY_LOG.rows + [Row(e, 1)] == [Row(e, 1)];
  }

  lemma OverfullAccepted()
    ensures var s, caller := OverfullLog(), Some(Caller(Field, 7, Some(1)));
            var rows := seq(3, i requires 0 <= i < 3 => Row(s[i].event, i + 1));
            && Judge(Log([Row(s[0].event, 1)], 1), Candidate(s[1].event), caller).0 == Log(rows[..2], 2)
            && Judge(Log(rows[..2], 2), Candidate(s[2].event), caller).0 == Log(rows, 3)
  {
    OverfullValid();
    hide Canonical;
    var s, caller := OverfullLog(), Some(Caller(Field, 7, Some(1)));
    var a, b, c := Row(s[0].event, 1), Row(s[1].event, 2), Row(s[2].event, 3);
    var rows := seq(3, i requires 0 <= i < 3 => Row(s[i].event, i + 1));
    assert s[1] in s && s[2] in s;
    assert [a][..0] == [] && MaxSeq([a], 7) == -1;
    assert [a, b][..1] == [a] && [a, b][1] == b && b.event.device == 7;
    assert MaxSeq([a, b][..1], 7) == -1 && MaxSeq([a, b], 7) == 1;
    assert Refusal(Candidate(s[1].event), caller).None? && Refusal(Candidate(s[2].event), caller).None?;
    StoredNext(Log([a], 1), s[1].event, caller);
    assert [a] + [b] == rows[..2] == [a, b];
    StoredNext(Log([a, b], 2), s[2].event, caller);
    assert [a, b] + [c] == rows;
  }

  /** An eligible event above its device's maximum becomes the next row. */
  lemma StoredNext(l: Log, e: Event, caller: Option<Caller>)
    requires Eligible(Candidate(e), caller) && e.seqNo > MaxSeq(l.rows, e.device)
    ensures Judge(l, Candidate(e), caller).0 == Log(l.rows + [Row(e, l.identity + 1)], l.identity + 1)
  {
    hide Refusal;
    MaxSeqBounds(l.rows, e.device);
  }

  lemma TotalIsTotal(s: seq<Fact>)
    ensures MetricsFor(s, 1).total == TotalFor(s, 1)
  {
  }

  lemma OverfullTotal()
    ensures TotalFor(OverfullLog(), 1) == 1
  {
    var s := OverfullLog();
    assert s[..2][..1] == [s[0]] && s[..2][1] == s[1] && [s[0]][..0] == [];
    assert GridTotals([s[0]]) == map[1 := 1];
    assert GridTotals(s[..2]) == GridTotals(s[..2][..1]);
    assert GridTotals(s) == GridTotals(s[..2]);
  }

  lemma OverfullMarked(c: Cell)
    ensures Marked(OverfullLog(), c) <==> c == Cell(1, 0) || c == Cell(1, 1)
  {
    var s := OverfullLog();
    assert OnCell(Cell(1, 0))(s[1]) && OnCell(Cell(1, 1))(s[2]);
    assert forall i :: !Touches(s, i, c);
    if AnyOf(s, OnCell(c)) {
      var i :| 0 <= i < |s| && OnCell(c)(s[i]);
    }
  }

  /** The incident's reports and issuances all name cells of its grid. */
  ghost predicate InsideGrid(s: seq<Fact>, incident: int) {
    forall f :: f in s && f.event.incident == incident ==>
      match f.event.payload
      case CellStatusReported(cell, _) => 0 <= cell < TotalFor(s, incident)
      case AssignmentIssued(_, _, cells) => forall c :: c in cells ==> 0 <= c < TotalFor(s, incident)
      case _ => true
  }

  lemma IssuedCellsMembers(e: Event, c: Cell)
    requires e.payload.AssignmentIssued?
    ensures c in IssuedCells(e) <==> c.incident == e.incident && c.index in e.payload.cellIds
  {
    if c.incident == e.incident && c.index in e.payload.cellIds {
      var i :| 0 <= i < |e.payload.cellIds| && e.payload.cellIds[i] == c.index;
      assert IssuedCells(e)[i] == c;
    }
  }

  /** A cell with a state was named by a report or an issuance of its own incident. */
  lemma StateComesFromAnEvent(s: seq<Fact>, c: Cell)
    requires c in CellFold(s)
    ensures exists f :: f in s && f.event.incident == c.incident &&
              (ReportsOn(f, c) || (f.event.payload.AssignmentIssued? && c in IssuedCells(f.event)))
  {
    LatestReportsKeyed(s);
    LatestIsLastReport(s, c);
    AssignFoldIsLastTouch(s, c);
    if c in LatestReports(s) {
      var i :| 0 <= i < |s| && OnCell(c)(s[i]);
      assert s[i] in s && ReportsOn(s[i], c);
    } else {
      var i :| Touches(s, i, c);
      NamedByIssue(s, i, c);
    }
  }

  lemma NamedByIssue(s: seq<Fact>, i: int, c: Cell)
    requires Touches(s, i, c)
    ensures exists f :: f in s && f.event.incident == c.incident && f.event.payload.AssignmentIssued? && c in IssuedCells(f.event)
  {
    if s[i].event.payload.AssignmentIssued? {
      IssuedCellsMembers(s[i].event, c);
    } else {
      var j :| LastIssue(s, i, s[i].event.payload.assignmentId, j) && c in IssuedCells(s[j].event);
      IssuedCellsMembers(s[j].event, c);
      assert s[j] in s;
    }
  }

  lemma {:induction false} IndicesBelow(cells: set<Cell>, incident: int, n: nat)
    requires forall c :: c in cells ==> c.incident == incident && 0 <= c.index < n
    ensures |cells| <= n
    decreases n
  {
    if n == 0 {
      assert cells == {};
    } else {
      var last := Cell(incident, n - 1);
      IndicesBelow(cells - {last}, incident, n - 1);
      assert last !in cells ==> cells == cells - {last};
    }
  }

  /** With every named cell on the grid the counts are conserved and the clamp never fires. */
  lemma CoverageConserved(s: seq<Fact>, incident: int)
    requires InsideGrid(s, incident)
    ensures var m := MetricsFor(s, incident);
            FourCounts(m) + m.unsearched == m.total == TotalFor(s, incident) && FourCounts(m) <= m.total
  {
    var touched := TouchedIn(CellFold(s), incident);
    forall c | c in touched ensures c.incident == incident && 0 <= c.index < TotalFor(s, incident) {
      TouchedInsideGrid(s, incident, c);
    }
    IndicesBelow(touched, incident, TotalFor(s, incident));
    TouchedAreCounted(s, incident);
  }

  lemma TouchedInsideGrid(s: seq<Fact>, incident: int, c: Cell)
    requires InsideGrid(s, incident) && c in CellFold(s) && c.incident == incident
    ensures 0 <= c.index < TotalFor(s, incident)
  {
    StateComesFromAnEvent(s, c);
    hide TotalFor, CellFold, IssuedCells;
    var f :| f in s && f.event.incident == c.incident &&
             (ReportsOn(f, c) || (f.event.payload.AssignmentIssued? && c in IssuedCells(f.event)));
    if f.event.payload.AssignmentIssued? {
      IssuedCellsMembers(f.event, c);
    }
  }

  function GridOf(incident: int): Fact -> bool {
    (f: Fact) => f.event.payload.GridGenerated? && f.event.incident == incident
  }

  /** The grid that counts is the last one generated, whatever came before. */
  lemma {:induction false} TotalIsLastGrid(s: seq<Fact>, incident: int)
    ensures incident in GridTotals(s) <==> AnyOf(s, GridOf(incident))
    ensures forall i :: LastOf(s, GridOf(incident), i) ==>
              TotalFor(s, incident) == s[i].event.payload.rows * s[i].event.payload.cols
  {
    if s == [] {
    } else {
      TotalIsLastGrid(s[..|s| - 1], incident);
      OneMore(s, GridOf(incident));
      hide LastOf, AnyOf;
    }
  }
}
