/**
 Everything derived from a set of events in one pass, and the two laws of the whole:
 it does not depend on how the events are arranged, and restricting the log to an
 incident restricts the projections keyed by incident.
 */
module Projections {
  import opened Results
  import opened Domain
  import opened Sorting
  import opened Latest
  import opened Folds
  import opened FoldSets
  import opened Coverage
  import opened Scoping

  // ------------------------------------------------------------ team positions

  datatype TeamPosition = TeamPosition(team: int, lat: int, lon: int, lastServerSeq: nat)

  function PositionFrom(f: Fact): TeamPosition
    requires f.event.payload.PositionReported?
  {
    TeamPosition(f.event.team, f.event.payload.lat, f.event.payload.lon, SeqOrZero(f))
  }

  function PositionFold(s: seq<Fact>): map<int, TeamPosition> {
    if s == [] then map[] else
    var front, f := PositionFold(s[..|s| - 1]), s[|s| - 1];
    if f.event.payload.PositionReported? then front[f.event.team := PositionFrom(f)] else front
  }

  method FoldTeamPosition(events: seq<Fact>) returns (out: map<int, TeamPosition>)
    ensures out == PositionFold(Ordered(events))
  {
    var ordered := Ordered(events);
    out := map[];
    for i := 0 to |ordered|
      invariant out == PositionFold(ordered[..i])
    {
      assert ordered[..i + 1][..i] == ordered[..i];
      var f := ordered[i];
      if f.event.payload.PositionReported? {
        out := out[f.event.team := PositionFrom(f)];
      }
    }
    assert ordered[..|ordered|] == ordered;
  }

  function Locates(team: int): Fact -> bool {
    (f: Fact) => f.event.payload.PositionReported? && f.event.team == team
  }

  /** A team is where its last position report in log order put it, and carries that report's position in the log. */
  lemma {:induction false} PositionIsLastReport(s: seq<Fact>, team: int)
    ensures team in PositionFold(s) <==> AnyOf(s, Locates(team))
    ensures forall i :: LastOf(s, Locates(team), i) ==>
              && team in PositionFold(s) && 0 <= i < |s|
              && var at := PositionFold(s)[team];
                 && at.team == team && at.lastServerSeq == (if s[i].serverSeq.Some? then s[i].serverSeq.value else 0)
                 && match s[i].event.payload
                    case PositionReported(lat, lon, _) => at.lat == lat && at.lon == lon
                    case _ => false
  {
    if s == [] {
    } else {
      PositionIsLastReport(s[..|s| - 1], team);
      OneMore(s, Locates(team));
      hide LastOf, AnyOf;
    }
  }

  // ---------------------------------------------------------- survivor reports

  datatype SurvivorRecord = SurvivorRecord(key: Key, incident: int, cell: int, persons: int, status: SurvivorStatus,
                                           triage: Option<Triage>, team: int, agency: int, serverSeq: Option<nat>)

  predicate IsSurvivor(f: Fact) {
    f.event.payload.SurvivorReported?
  }

  function RecordOf(f: Fact): SurvivorRecord
    requires IsSurvivor(f)
  {
    var p := f.event.payload;
    SurvivorRecord(f.event.Id(), f.event.incident, p.cellIndex, p.personCount, p.survivorStatus, p.triage,
                   f.event.team, f.event.agency, f.serverSeq)
  }

  function SurvivorFold(s: seq<Fact>): seq<SurvivorRecord> {
    if s == [] then [] else
    var front, f := SurvivorFold(s[..|s| - 1]), s[|s| - 1];
    if IsSurvivor(f) then front + [RecordOf(f)] else front
  }

  method FoldSurvivorReports(events: seq<Fact>) returns (out: seq<SurvivorRecord>)
    ensures out == SurvivorFold(Ordered(events))
  {
    var ordered := Ordered(events);
    out := [];
    for i := 0 to |ordered|
      invariant out == SurvivorFold(ordered[..i])
    {
      assert ordered[..i + 1][..i] == ordered[..i];
      if IsSurvivor(ordered[i]) {
        out := out + [RecordOf(ordered[i])];
      }
    }
    assert ordered[..|ordered|] == ordered;
  }

  /** The record of a survivor report, field by field. */
  ghost predicate Records(r: SurvivorRecord, f: Fact) {
    && r.key == Key(f.event.device, f.event.seqNo) && r.incident == f.event.incident
    && r.team == f.event.team && r.agency == f.event.agency && r.serverSeq == f.serverSeq
    && match f.event.payload
       case SurvivorReported(cell, persons, status, triage, _, _) =>
         r.cell == cell && r.persons == persons && r.status == status && r.triage == triage
       case _ => false
  }

  lemma RecordsItself(f: Fact)
    ensures IsSurvivor(f) ==> Records(RecordOf(f), f)
  {
  }

  /** The full set: one record per report, in log order, none merged and none dropped. */
  lemma {:induction false} SurvivorsNeverSuppressed(s: seq<Fact>)
    ensures var reports := Where(IsSurvivor, s);
            && |SurvivorFold(s)| == |reports|
            && forall j :: 0 <= j < |reports| ==> Records(SurvivorFold(s)[j], reports[j])
    ensures forall f :: f in Where(IsSurvivor, s) <==> f in s && f.event.payload.SurvivorReported?
  {
    WhereMembers(IsSurvivor, s);
    if s == [] {
    } else {
      var front, f := s[..|s| - 1], s[|s| - 1];
      SurvivorsNeverSuppressed(front);
      assert s == front + [f];
      WhereConcat(IsSurvivor, front, [f]);
      assert [f][1..] == [];
      RecordsItself(f);
      hide RecordOf, Records;
      assert SurvivorFold(s) == if IsSurvivor(f) then SurvivorFold(front) + [RecordOf(f)] else SurvivorFold(front);
    }
  }

  // ------------------------------------------------------------------ all of it

  datatype Projection = Projection(
    cells: map<Cell, CellState>, duplicates: map<Cell, set<int>>, assignments: map<Cell, AssignmentState>,
    teams: map<int, TeamState>, positions: map<int, TeamPosition>, stock: map<StockKey, int>,
    survivors: seq<SurvivorRecord>, coverage: map<int, Metrics>)

  function AllOf(events: seq<Fact>): Projection {
    var s := Ordered(events);
    Projection(CellFold(s), DuplicateFold(events), AssignFold(s).out, TeamFold(s), PositionFold(s), StockFold(events),
               SurvivorFold(s), CoverageFold(s))
  }

  method FoldAll(events: seq<Fact>) returns (p: Projection)
    ensures p == AllOf(events)
  {
    var cells := FoldCellState(events);
    var duplicates := FoldDuplicateSearch(events);
    var assignments := FoldAssignmentState(events);
    var teams := FoldTeamState(events);
    var positions := FoldTeamPosition(events);
    var stock := FoldResourceStock(events);
    var survivors := FoldSurvivorReports(events);
    var coverage := FoldCoverageMetrics(events);
    p := Projection(cells, duplicates, assignments, teams, positions, stock, survivors, coverage);
  }

  /** Convergence: two arrangements of one log give every reader the same eight projections. */
  lemma AllIgnoresArrangement(a: seq<Fact>, b: seq<Fact>)
    requires DistinctIds(a) && multiset(a) == multiset(b)
    ensures AllOf(a) == AllOf(b)
  {
    OrderedIgnoresArrangement(a, b);
    DuplicateIgnoresArrangement(a, b);
    StockIgnoresArrangement(a, b);
    hide Ordered, DuplicateFold, StockFold, CellFold, AssignFold, TeamFold, PositionFold, SurvivorFold, CoverageFold;
  }

  /** Committed facts, no two at one position. */
  ghost predicate Committed(events: seq<Fact>) {
    && (forall i :: 0 <= i < |events| ==> events[i].serverSeq.Some?)
    && (forall i, j :: 0 <= i < j < |events| ==> SeqOrZero(events[i]) != SeqOrZero(events[j]))
  }

  lemma CommittedClimbs(events: seq<Fact>)
    requires Committed(events)
    ensures Climbing(Ordered(events))
  {
    var s := Ordered(events);
    assert TotalPreorder(FactLe);
    SortSorts(FactLe, events);
    SameMembers(s, events);
    hide Sort;
    forall i, j | 0 <= i < j < |s| ensures SeqOrZero(s[i]) < SeqOrZero(s[j]) {
      assert s[i] in events && s[j] in events;
      OnceEach(events, s[i]);
      if s[i] == s[j] {
        RepeatsCount(s, i, j);
      }
      assert FactLe(s[i], s[j]);
    }
  }

  /**
   A snapshot shows what the whole log's projections say about its incident.  For
   assignments and for cell states, if and only if the incident is clean; for duplicate
   search always; for coverage, if and only if both hold as many unreported cells.
   */
  lemma SnapshotIsRestriction(events: seq<Fact>, incident: int)
    requires Committed(events)
    ensures var whole, part := AllOf(events), AllOf(Only(events, incident));
            && (part.assignments == Within(whole.assignments, incident) <==> CleanFor(Ordered(events), incident))
            && (part.cells == Within(whole.cells, incident) <==> CellsCleanFor(Ordered(events), incident))
            && part.duplicates == Within(whole.duplicates, incident)
            && (SameLine(part.coverage, whole.coverage, incident) <==>
                  var s := Ordered(events);
                  |HeldUnreported(s, s, incident)| == |HeldUnreported(s, Blind(s, incident), incident)|)
            && (CellsCleanFor(Ordered(events), incident) ==> SameLine(part.coverage, whole.coverage, incident))
  {
    hide CellFold, DuplicateFold, AssignFold, TeamFold, PositionFold, StockFold, SurvivorFold, CoverageFold, Ordered, Only,
      CleanFor, CellsCleanFor, Climbing, Within, HeldUnreported, Blind;
    CommittedClimbs(events);
    OrderedOnly(events, incident);
    AssignmentsScopedIff(Ordered(events), incident);
    CellsScopedIff(Ordered(events), incident);
    DuplicatesScoped(events, incident);
    CoverageScopedIff(Ordered(events), incident);
    if CellsCleanFor(Ordered(events), incident) {
      CoverageScoped(Ordered(events), incident);
    }
  }
}
