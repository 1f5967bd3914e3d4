/**
 The read-time folds: assignments, cell status and duplicate search.  Each loop over
 dictionaries is tied to a step-by-step fold, and the fold to what a reader would say
 the result is.
 */
module Folds {
  import opened Results
  import opened Domain
  import opened Sorting
  import opened Latest

  /** A canonical event with the position the server gave it, if any yet. */
  datatype Fact = Fact(event: Event, serverSeq: Option<nat>)

  function SeqOrZero(f: Fact): nat {
    if f.serverSeq.Some? then f.serverSeq.value else 0
  }

  /** Ascending `server_seq`, uncommitted last, then by identity. */
  predicate FactLe(a: Fact, b: Fact) {
    if a.serverSeq.None? != b.serverSeq.None? then a.serverSeq.Some?
    else if SeqOrZero(a) != SeqOrZero(b) then SeqOrZero(a) < SeqOrZero(b)
    else if a.event.device != b.event.device then a.event.device < b.event.device
    else a.event.seqNo <= b.event.seqNo
  }

  function Ordered(events: seq<Fact>): seq<Fact> {
    Sort(FactLe, events)
  }

  /** The log is a set keyed by identity: no two different facts share `(device_id, seq)`. */
  ghost predicate DistinctIds(events: seq<Fact>) {
    forall a, b :: a in events && b in events && a.event.Id() == b.event.Id() ==> a == b
  }

  /** Any arrangement of the same facts is ordered the same way. */
  lemma OrderedIgnoresArrangement(a: seq<Fact>, b: seq<Fact>)
    requires DistinctIds(a) && multiset(a) == multiset(b)
    ensures Ordered(a) == Ordered(b)
  {
    assert TotalPreorder(FactLe);
    forall x, y | x in a && y in a && FactLe(x, y) && FactLe(y, x) ensures x == y {
      assert x.event.Id() == y.event.Id();
    }
    SortIgnoresOrder(FactLe, a, b);
  }

  /** Committed events first, by position; then, or where positions tie, by device and `seq`. */
  ghost predicate ComesFirst(a: Fact, b: Fact) {
    match (a.serverSeq, b.serverSeq)
    case (Some(m), Some(n)) => m < n || (m == n && BeforeById(a.event, b.event))
    case (Some(_), None) => true
    case (None, Some(_)) => false
    case (None, None) => BeforeById(a.event, b.event)
  }

  ghost predicate BeforeById(a: Event, b: Event) {
    a.device < b.device || (a.device == b.device && a.seqNo <= b.seqNo)
  }

  /** The canonical order is an arrangement of the events in that order. */
  lemma OrderedExact(events: seq<Fact>)
    ensures multiset(Ordered(events)) == multiset(events)
    ensures forall i, j :: 0 <= i < j < |events| ==>
              |Ordered(events)| == |events| && ComesFirst(Ordered(events)[i], Ordered(events)[j])
  {
    assert TotalPreorder(FactLe);
    SortSorts(FactLe, events);
    SameMembers(events, Ordered(events));
    hide Sort;
    forall i, j | 0 <= i < j < |events| ensures ComesFirst(Ordered(events)[i], Ordered(events)[j]) {
      assert FactLe(Ordered(events)[i], Ordered(events)[j]);
    }
  }

  datatype Cell = Cell(incident: int, index: int)

  // ------------------------------------------------------------- assignments

  datatype AssignmentState = AssignmentState(cell: Cell, team: Option<int>, assignmentId: int, lastServerSeq: nat)

  /** The loop's two dictionaries. */
  datatype Holders = Holders(cellsOf: map<int, seq<Cell>>, out: map<Cell, AssignmentState>)

  const NO_HOLDERS := Holders(map[], map[])

  function IssuedCells(e: Event): (s: seq<Cell>)
    requires e.payload.AssignmentIssued?
    ensures |s| == |e.payload.cellIds|
  {
    seq(|e.payload.cellIds|, i requires 0 <= i < |e.payload.cellIds| => Cell(e.incident, e.payload.cellIds[i]))
  }

  /** What an assignment event makes of one cell it touches. */
  function StateAfter(f: Fact, cell: Cell): AssignmentState
    requires f.event.payload.AssignmentIssued? || f.event.payload.AssignmentRevoked?
  {
    AssignmentState(cell, if f.event.payload.AssignmentIssued? then Some(f.event.payload.holder) else None,
                    f.event.payload.assignmentId, SeqOrZero(f))
  }

  function SetCells(out: map<Cell, AssignmentState>, f: Fact, cells: seq<Cell>): map<Cell, AssignmentState>
    requires f.event.payload.AssignmentIssued? || f.event.payload.AssignmentRevoked?
  {
    out + map c | c in cells :: StateAfter(f, c)
  }

  function CellsOf(h: Holders, aid: int): seq<Cell> {
    if aid in h.cellsOf then h.cellsOf[aid] else []
  }

  function AssignStep(h: Holders, f: Fact): Holders {
    match f.event.payload
    case AssignmentIssued(aid, _, _) =>
      Holders(h.cellsOf[aid := IssuedCells(f.event)], SetCells(h.out, f, IssuedCells(f.event)))
    case AssignmentRevoked(aid) => h.(out := SetCells(h.out, f, CellsOf(h, aid)))
    case _ => h
  }

  function AssignFold(s: seq<Fact>): Holders {
    if s == [] then NO_HOLDERS else AssignStep(AssignFold(s[..|s| - 1]), s[|s| - 1])
  }

  lemma AssignFoldNext(s: seq<Fact>, i: nat)
    requires i < |s|
    ensures AssignFold(s[..i + 1]) == AssignStep(AssignFold(s[..i]), s[i])
  {
    assert s[..i + 1][..i] == s[..i];
  }

  method FoldAssignmentState(events: seq<Fact>) returns (out: map<Cell, AssignmentState>)
    ensures out == AssignFold(Ordered(events)).out
  {
    var ordered := Ordered(events);
    var cellsOf: map<int, seq<Cell>> := map[];
    out := map[];
    for i := 0 to |ordered|
      invariant AssignFold(ordered[..i]) == Holders(cellsOf, out)
    {
      var f := ordered[i];
      AssignFoldNext(ordered, i);
      hide AssignFold, Ordered;
      match f.event.payload {
        case AssignmentIssued(aid, team, _) =>
          var keys := IssuedCells(f.event);
          cellsOf := cellsOf[aid := keys];
          out := AssignCells(out, f, keys);
        case AssignmentRevoked(aid) =>
          out := AssignCells(out, f, if aid in cellsOf then cellsOf[aid] else []);
        case _ =>
      }
    }
    assert ordered[..|ordered|] == ordered;
  }

  /** The inner loop: one dictionary entry per cell. */
  method AssignCells(before: map<Cell, AssignmentState>, f: Fact, cells: seq<Cell>) returns (out: map<Cell, AssignmentState>)
    requires f.event.payload.AssignmentIssued? || f.event.payload.AssignmentRevoked?
    ensures out == SetCells(before, f, cells)
  {
    out := before;
    for i := 0 to |cells|
      invariant out == SetCells(before, f, cells[..i])
    {
      assert cells[..i + 1] == cells[..i] + [cells[i]];
      out := out[cells[i] := StateAfter(f, cells[i])];
    }
    assert cells[..|cells|] == cells;
  }

  // ----------------------------------- what the assignment fold means

  /** Event `j` is the last issue of `aid` before position `i`. */
  ghost predicate LastIssue(s: seq<Fact>, i: int, aid: int, j: int) {
    && 0 <= j < i <= |s| && s[j].event.payload.AssignmentIssued? && s[j].event.payload.assignmentId == aid
    && forall m :: j < m < i ==> !(s[m].event.payload.AssignmentIssued? && s[m].event.payload.assignmentId == aid)
  }

  /** An issue touches its cells; a revocation touches the cells of the issuance it revokes. */
  ghost predicate Touches(s: seq<Fact>, i: int, c: Cell) {
    && 0 <= i < |s|
    && match s[i].event.payload
       case AssignmentIssued(_, _, _) => c in IssuedCells(s[i].event)
       case AssignmentRevoked(aid) => exists j :: LastIssue(s, i, aid, j) && c in IssuedCells(s[j].event)
       case _ => false
  }

  ghost predicate LastTouch(s: seq<Fact>, i: int, c: Cell) {
    Touches(s, i, c) && forall m :: i < m < |s| ==> !Touches(s, m, c)
  }

  lemma LastIssueInPrefix(s: seq<Fact>, n: nat, i: int, aid: int, j: int)
    requires i <= n <= |s|
    ensures LastIssue(s, i, aid, j) <==> LastIssue(s[..n], i, aid, j)
  {
  }

  lemma TouchesInPrefix(s: seq<Fact>, n: nat, i: int, c: Cell)
    requires i < n <= |s|
    ensures Touches(s, i, c) <==> Touches(s[..n], i, c)
  {
    hide LastIssue;
    if 0 <= i && s[i].event.payload.AssignmentRevoked? {
      forall j ensures LastIssue(s, i, s[i].event.payload.assignmentId, j) <==>
                       LastIssue(s[..n], i, s[i].event.payload.assignmentId, j)
      {
        LastIssueInPrefix(s, n, i, s[i].event.payload.assignmentId, j);
      }
      forall j | LastIssue(s, i, s[i].event.payload.assignmentId, j)
        ensures 0 <= j < i && s[j].event.payload.AssignmentIssued?
      {
        LastIssueIsIssue(s, i, s[i].event.payload.assignmentId, j);
      }
    }
  }

  lemma LastIssueIsIssue(s: seq<Fact>, i: int, aid: int, j: int)
    requires LastIssue(s, i, aid, j)
    ensures 0 <= j < i <= |s| && s[j].event.payload.AssignmentIssued?
  {
  }

  /** The first dictionary remembers the last issuance of every id. */
  lemma {:induction false} CellsOfIsLastIssue(s: seq<Fact>, aid: int)
    ensures aid in AssignFold(s).cellsOf ==>
              exists j :: LastIssue(s, |s|, aid, j) && AssignFold(s).cellsOf[aid] == IssuedCells(s[j].event)
    ensures aid !in AssignFold(s).cellsOf ==> forall j :: !LastIssue(s, |s|, aid, j)
  {
    if s == [] {
    } else {
      var n := |s| - 1;
      var front, f := s[..n], s[n];
      CellsOfIsLastIssue(front, aid);
      if f.event.payload.AssignmentIssued? && f.event.payload.assignmentId == aid {
        assert LastIssue(s, |s|, aid, n);
      } else {
        assert AssignFold(s).cellsOf.Keys - {aid} == AssignFold(s).cellsOf.Keys - {aid};
        forall j ensures LastIssue(s, |s|, aid, j) <==> LastIssue(front, n, aid, j) {
          assert 0 <= j < n ==> front[j] == s[j];
        }
      }
    }
  }

  /** Two last issuances are the same one. */
  lemma LastIssueUnique(s: seq<Fact>, i: int, aid: int, j: int, j': int)
    requires LastIssue(s, i, aid, j) && LastIssue(s, i, aid, j')
    ensures j == j'
  {
  }

  /** The last step touches exactly the cells it writes. */
  lemma LastStepTouches(s: seq<Fact>, c: Cell)
    requires s != []
    ensures var n := |s| - 1;
            var h := AssignFold(s[..n]);
            Touches(s, n, c) <==>
              match s[n].event.payload
              case AssignmentIssued(_, _, _) => c in IssuedCells(s[n].event)
              case AssignmentRevoked(aid) => c in CellsOf(h, aid)
              case _ => false
  {
    var n := |s| - 1;
    if s[n].event.payload.AssignmentRevoked? {
      var aid := s[n].event.payload.assignmentId;
      CellsOfIsLastIssue(s[..n], aid);
      hide AssignFold;
      forall j ensures LastIssue(s, n, aid, j) <==> LastIssue(s[..n], n, aid, j) {
        assert 0 <= j < n ==> s[..n][j] == s[j];
      }
    }
  }

  lemma LastTouchStep(s: seq<Fact>, c: Cell)
    requires s != []
    ensures var n := |s| - 1;
            && ((exists i :: Touches(s, i, c)) <==> Touches(s, n, c) || exists i :: Touches(s[..n], i, c))
            && (Touches(s, n, c) ==> forall i :: LastTouch(s, i, c) <==> i == n)
            && (!Touches(s, n, c) ==> forall i :: LastTouch(s, i, c) ==> LastTouch(s[..n], i, c) && s[..n][i] == s[i])
  {
    var n := |s| - 1;
    forall i | i < n ensures Touches(s, i, c) <==> Touches(s[..n], i, c) {
      TouchesInPrefix(s, n, i, c);
    }
    forall i | Touches(s[..n], i, c) ensures 0 <= i < n {
      TouchesInRange(s[..n], i, c);
    }
    forall i | Touches(s, i, c) ensures 0 <= i <= n {
      TouchesInRange(s, i, c);
    }
  }

  lemma LastTouchInRange(s: seq<Fact>, i: int, c: Cell)
    requires LastTouch(s, i, c)
    ensures 0 <= i < |s| && (s[i].event.payload.AssignmentIssued? || s[i].event.payload.AssignmentRevoked?)
  {
    TouchesInRange(s, i, c);
  }

  lemma {:induction false} AssignFoldState(s: seq<Fact>, c: Cell)
    ensures c in AssignFold(s).out <==> exists i :: Touches(s, i, c)
    ensures forall i :: LastTouch(s, i, c) ==> c in AssignFold(s).out && AssignFold(s).out[c] == StateAfter(s[i], c)
  {
    hide Touches, LastTouch, AssignStep, StateAfter;
    if s == [] {
      NothingTouched(c);
    } else {
      var front, f := s[..|s| - 1], s[|s| - 1];
      AssignFoldState(front, c);
      LastStepTouches(s, c);
      LastTouchStep(s, c);
      FoldStepOnCell(AssignFold(front), f, c);
      assert AssignFold(s) == AssignStep(AssignFold(front), f);
    }
  }

  /**
   Per cell, the fold holds the team, or none, of the last issue or revocation touching it,
   under its id and position, and has no entry for a cell that none ever touched.
   */
  lemma AssignFoldIsLastTouch(s: seq<Fact>, c: Cell)
    ensures c in AssignFold(s).out <==> exists i :: Touches(s, i, c)
    ensures forall i :: LastTouch(s, i, c) ==>
              && c in AssignFold(s).out && 0 <= i < |s|
              && var held := AssignFold(s).out[c];
                 && held.cell == c && held.lastServerSeq == (if s[i].serverSeq.Some? then s[i].serverSeq.value else 0)
                 && match s[i].event.payload
                    case AssignmentIssued(aid, team, _) => held.team == Some(team) && held.assignmentId == aid
                    case AssignmentRevoked(aid) => held.team == None && held.assignmentId == aid
                    case _ => false
  {
    AssignFoldState(s, c);
    hide AssignFold, Touches, LastTouch;
    forall i | LastTouch(s, i, c)
      ensures 0 <= i < |s| && (s[i].event.payload.AssignmentIssued? || s[i].event.payload.AssignmentRevoked?)
    {
      LastTouchInRange(s, i, c);
    }
  }

  lemma NothingTouched(c: Cell)
    ensures forall i :: !Touches([], i, c) && !LastTouch([], i, c)
  {
  }

  lemma TouchesInRange(s: seq<Fact>, i: int, c: Cell)
    requires Touches(s, i, c)
    ensures 0 <= i < |s| && (s[i].event.payload.AssignmentIssued? || s[i].event.payload.AssignmentRevoked?)
  {
  }

  /** A cell that was touched was touched last, once. */
  lemma SomeLastTouch(s: seq<Fact>, c: Cell)
    ensures (exists i :: Touches(s, i, c)) <==> exists i :: LastTouch(s, i, c)
    ensures forall i, j :: LastTouch(s, i, c) && LastTouch(s, j, c) ==> i == j
  {
    hide Touches;
    if i :| Touches(s, i, c) {
      TouchesInRange(s, i, c);
      var _ := LastTouchFrom(s, i, c);
    }
    forall i, j | LastTouch(s, i, c) && LastTouch(s, j, c) ensures i == j {
      TouchesInRange(s, i, c);
      TouchesInRange(s, j, c);
    }
  }

  lemma LastTouchFrom(s: seq<Fact>, i: int, c: Cell) returns (j: int)
    requires 0 <= i < |s| && Touches(s, i, c)
    ensures LastTouch(s, j, c)
    decreases |s| - i
  {
    hide Touches;
    if m :| i < m < |s| && Touches(s, m, c) {
      j := LastTouchFrom(s, m, c);
    } else {
      j := i;
    }
  }

  lemma FoldStepOnCell(h: Holders, f: Fact, c: Cell)
    ensures var touched := match f.event.payload
                           case AssignmentIssued(_, _, _) => c in IssuedCells(f.event)
                           case AssignmentRevoked(aid) => c in CellsOf(h, aid)
                           case _ => false;
            && (touched ==> c in AssignStep(h, f).out && AssignStep(h, f).out[c] == StateAfter(f, c))
            && (!touched ==> (c in AssignStep(h, f).out <==> c in h.out))
            && (!touched && c in h.out ==> AssignStep(h, f).out[c] == h.out[c])
  {
  }

  // ------------------------------------------------------------- cell status

  datatype ShownStatus = Reported(status: CellStatus) | Assigned

  datatype CellState = CellState(cell: Cell, status: ShownStatus, team: int, lastServerSeq: Option<nat>)

  predicate ReportsOn(f: Fact, c: Cell) {
    f.event.payload.CellStatusReported? && Cell(f.event.incident, f.event.payload.cellIndex) == c
  }

  /** The latest report on each cell, in log order. */
  function LatestReports(s: seq<Fact>): map<Cell, Fact> {
    if s == [] then map[] else
    var f := s[|s| - 1];
    var front := LatestReports(s[..|s| - 1]);
    if f.event.payload.CellStatusReported? then front[Cell(f.event.incident, f.event.payload.cellIndex) := f] else front
  }

  function FromReport(f: Fact): CellState
    requires f.event.payload.CellStatusReported?
  {
    CellState(Cell(f.event.incident, f.event.payload.cellIndex), Reported(f.event.payload.status), f.event.team, f.serverSeq)
  }

  function FromHolder(a: AssignmentState): CellState
    requires a.team.Some?
  {
    CellState(a.cell, Assigned, a.team.value, Some(a.lastServerSeq))
  }

  ghost predicate KeyedReports(latest: map<Cell, Fact>) {
    forall c :: c in latest ==> ReportsOn(latest[c], c)
  }

  /** Reports win; a live holder shows only where nothing was reported. */
  function CellStates(latest: map<Cell, Fact>, holders: map<Cell, AssignmentState>): map<Cell, CellState>
    requires KeyedReports(latest)
  {
    (map c | c in holders && holders[c].team.Some? :: FromHolder(holders[c])) + (map c | c in latest :: FromReport(latest[c]))
  }

  lemma {:induction false} LatestReportsKeyed(s: seq<Fact>)
    ensures KeyedReports(LatestReports(s))
  {
    if s == [] {
    } else {
      LatestReportsKeyed(s[..|s| - 1]);
    }
  }

  function CellFold(s: seq<Fact>): map<Cell, CellState> {
    LatestReportsKeyed(s);
    CellStates(LatestReports(s), AssignFold(s).out)
  }

  method FoldCellState(events: seq<Fact>) returns (out: map<Cell, CellState>)
    ensures out == CellFold(Ordered(events))
  {
    var holders := FoldAssignmentState(events);
    var ordered := Ordered(events);
    var latest: map<Cell, Fact> := map[];
    for i := 0 to |ordered|
      invariant latest == LatestReports(ordered[..i])
    {
      var f := ordered[i];
      assert ordered[..i + 1][..i] == ordered[..i];
      if f.event.payload.CellStatusReported? {
        latest := latest[Cell(f.event.incident, f.event.payload.cellIndex) := f];
      }
    }
    assert ordered[..|ordered|] == ordered;
    LatestReportsKeyed(ordered);
    out := MergeStates(latest, holders);
  }

  /** The two loops over dictionaries: reports first, then holders of unreported cells. */
  method MergeStates(latest: map<Cell, Fact>, holders: map<Cell, AssignmentState>) returns (out: map<Cell, CellState>)
    requires KeyedReports(latest)
    ensures out == CellStates(latest, holders)
  {
    hide FromReport, FromHolder;
    out := map[];
    var todo := latest.Keys;
    while todo != {}
      invariant todo <= latest.Keys
      invariant out.Keys == latest.Keys - todo
      invariant forall c :: c in out ==> out[c] == FromReport(latest[c])
      decreases todo
    {
      var c :| c in todo;
      out := out[c := FromReport(latest[c])];
      todo := todo - {c};
    }
    var rest := holders.Keys;
    while rest != {}
      invariant rest <= holders.Keys
      invariant forall c :: c in out <==> c in latest || (c in holders && c !in rest && holders[c].team.Some?)
      invariant forall c :: c in latest ==> out[c] == FromReport(latest[c])
      invariant forall c :: c in out && c !in latest ==> out[c] == FromHolder(holders[c])
      decreases rest
    {
      var c :| c in rest;
      if c !in out && holders[c].team.Some? {
        out := out[c := FromHolder(holders[c])];
      }
      rest := rest - {c};
    }
  }

  function OnCell(c: Cell): Fact -> bool {
    (f: Fact) => ReportsOn(f, c)
  }

  ghost predicate LastReport(s: seq<Fact>, i: int, c: Cell) {
    LastOf(s, OnCell(c), i)
  }

  lemma {:induction false} LatestIsLastReport(s: seq<Fact>, c: Cell)
    ensures c in LatestReports(s) <==> AnyOf(s, OnCell(c))
    ensures forall i :: LastReport(s, i, c) ==> c in LatestReports(s) && LatestReports(s)[c] == s[i]
  {
    if s == [] {
    } else {
      LatestIsLastReport(s[..|s| - 1], c);
      OneMore(s, OnCell(c));
      hide LastOf, AnyOf;
    }
  }

  /**
   A cell shows its last report; failing that ASSIGNED, with the holder, exactly when the last
   assignment event touching it is an issue; failing that nothing.
   */
  lemma CellFoldMeaning(s: seq<Fact>, c: Cell)
    ensures forall i :: LastReport(s, i, c) ==>
              && c in CellFold(s) && 0 <= i < |s| && s[i].event.payload.CellStatusReported?
              && CellFold(s)[c].cell == c && CellFold(s)[c].status == Reported(s[i].event.payload.status)
              && CellFold(s)[c].team == s[i].event.team && CellFold(s)[c].lastServerSeq == s[i].serverSeq
    ensures !AnyOf(s, OnCell(c)) ==>
              forall t :: LastTouch(s, t, c) ==>
                && 0 <= t < |s|
                && (c in CellFold(s) <==> s[t].event.payload.AssignmentIssued?)
                && (c in CellFold(s) ==>
                      && CellFold(s)[c].cell == c && CellFold(s)[c].status == Assigned
                      && CellFold(s)[c].team == s[t].event.payload.holder
                      && CellFold(s)[c].lastServerSeq == Some(if s[t].serverSeq.Some? then s[t].serverSeq.value else 0))
    ensures !AnyOf(s, OnCell(c)) && (forall t :: !Touches(s, t, c)) ==> c !in CellFold(s)
  {
    LatestReportsKeyed(s);
    LatestIsLastReport(s, c);
    AssignFoldIsLastTouch(s, c);
    hide LatestReports, AssignFold, Touches, LastTouch;
    forall t | LastTouch(s, t, c)
      ensures 0 <= t < |s| && (s[t].event.payload.AssignmentIssued? || s[t].event.payload.AssignmentRevoked?)
    {
      LastTouchInRange(s, t, c);
    }
  }

  /** The last event touching the cell gave it to a team. */
  ghost predicate HeldIn(s: seq<Fact>, c: Cell) {
    exists i :: LastTouch(s, i, c) && s[i].event.payload.AssignmentIssued?
  }

  lemma HeldMeaning(s: seq<Fact>, c: Cell)
    ensures HeldIn(s, c) <==> c in AssignFold(s).out && AssignFold(s).out[c].team.Some?
  {
    AssignFoldIsLastTouch(s, c);
    SomeLastTouch(s, c);
    hide AssignFold, Touches, LastTouch;
    if c in AssignFold(s).out {
      var i :| LastTouch(s, i, c);
      LastTouchInRange(s, i, c);
    }
    forall i | LastTouch(s, i, c)
      ensures 0 <= i < |s| && (s[i].event.payload.AssignmentIssued? || s[i].event.payload.AssignmentRevoked?)
    {
      LastTouchInRange(s, i, c);
    }
  }

  /** What a fold shows of one cell. */
  lemma CellShown(s: seq<Fact>, c: Cell)
    ensures c in LatestReports(s) ==> c in CellFold(s) && LatestReports(s)[c].event.payload.CellStatusReported?
                                      && CellFold(s)[c] == FromReport(LatestReports(s)[c])
    ensures c !in LatestReports(s) ==> (c in CellFold(s) <==> HeldIn(s, c))
    ensures c !in LatestReports(s) && HeldIn(s, c) ==>
              && c in AssignFold(s).out && AssignFold(s).out[c].team.Some?
              && CellFold(s)[c] == FromHolder(AssignFold(s).out[c])
  {
    LatestReportsKeyed(s);
    HeldMeaning(s, c);
    hide LatestReports, AssignFold, HeldIn;
  }

  /** The cell was reported on, or the last event touching it gave it to a team. */
  ghost predicate Marked(s: seq<Fact>, c: Cell) {
    AnyOf(s, OnCell(c)) || HeldIn(s, c)
  }

  lemma ShownIffMarked(s: seq<Fact>, c: Cell)
    ensures c in CellFold(s) <==> Marked(s, c)
  {
    CellShown(s, c);
    LatestIsLastReport(s, c);
    hide CellFold, LatestReports, AnyOf, HeldIn;
  }
}
