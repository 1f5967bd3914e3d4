/**
 The folds that need no order: duplicate search, a set-cardinality predicate, and
 stock, a sum; and the fold of team status, which does need order.
 */
module FoldSets {
  import opened Results
  import opened Domain
  import opened Sorting
  import opened Latest
  import opened Folds

  // --------------------------------------------------------- duplicate search

  /** The event reports the cell SEARCHED by the team. */
  predicate SearchedBy(f: Fact, c: Cell, team: int) {
    f.event.incident == c.incident && f.event.payload == CellStatusReported(c.index, Searched) && f.event.team == team
  }

  /** The loop's dictionary: every team that reported a cell SEARCHED. */
  function Searchers(events: seq<Fact>): map<Cell, set<int>> {
    if events == [] then map[] else
    var front, f := Searchers(events[..|events| - 1]), events[|events| - 1];
    if f.event.payload.CellStatusReported? && f.event.payload.status == Searched then
      var c := Cell(f.event.incident, f.event.payload.cellIndex);
      front[c := (if c in front then front[c] else {}) + {f.event.team}]
    else front
  }

  function DuplicateFold(events: seq<Fact>): map<Cell, set<int>> {
    map c | c in Searchers(events) && |Searchers(events)[c]| >= 2 :: Searchers(events)[c]
  }

  method FoldDuplicateSearch(events: seq<Fact>) returns (out: map<Cell, set<int>>)
    ensures out == DuplicateFold(events)
  {
    var teams: map<Cell, set<int>> := map[];
    for i := 0 to |events|
      invariant teams == Searchers(events[..i])
    {
      var f := events[i];
      assert events[..i + 1][..i] == events[..i];
      if f.event.payload.CellStatusReported? && f.event.payload.status == Searched {
        var c := Cell(f.event.incident, f.event.payload.cellIndex);
        if c !in teams {
          teams := teams[c := {}];
        }
        teams := teams[c := teams[c] + {f.event.team}];
      }
    }
    assert events[..|events|] == events;
    out := map c | c in teams && |teams[c]| >= 2 :: teams[c];
  }

  /** Some event reports the cell searched by this team. */
  ghost predicate TeamSearched(events: seq<Fact>, c: Cell, team: int) {
    exists i :: 0 <= i < |events| && SearchedBy(events[i], c, team)
  }

  lemma {:induction false} SearchersExact(events: seq<Fact>, c: Cell, team: int)
    ensures c in Searchers(events) && team in Searchers(events)[c] <==> TeamSearched(events, c, team)
    ensures c in Searchers(events) ==> Searchers(events)[c] != {}
  {
    if events == [] {
    } else {
      var n := |events| - 1;
      SearchersExact(events[..n], c, team);
      assert forall i :: 0 <= i < n ==> events[..n][i] == events[i];
    }
  }

  /** A cell is flagged with exactly the teams that reported it searched, when there are two or more. */
  lemma DuplicateFoldMeaning(events: seq<Fact>, c: Cell)
    ensures c in DuplicateFold(events) <==>
            exists a, b :: TeamSearched(events, c, a) && TeamSearched(events, c, b) && a != b
    ensures c in DuplicateFold(events) ==>
              forall team :: team in DuplicateFold(events)[c] <==> TeamSearched(events, c, team)
  {
    forall team ensures c in Searchers(events) && team in Searchers(events)[c] <==> TeamSearched(events, c, team) {
      SearchersExact(events, c, team);
    }
    hide Searchers, TeamSearched;
    if c in Searchers(events) {
      TwoOrMore(Searchers(events)[c]);
    } else {
      assert forall team :: !TeamSearched(events, c, team);
    }
  }

  lemma TwoOrMore(s: set<int>)
    ensures |s| >= 2 <==> exists a, b :: a in s && b in s && a != b
  {
    if a, b :| a in s && b in s && a != b {
      SubsetSize({a, b}, s);
    } else if s != {} {
      var a := Pick(s);
      assert s != {a} ==> s - {a} != {};
      if s != {a} {
        var b := Pick(s - {a});
        assert false;
      }
    }
  }

  lemma {:induction false} SubsetSize<T>(a: set<T>, b: set<T>)
    requires a <= b
    ensures |a| <= |b|
    decreases a
  {
    if a == {} {
    } else {
      var x :| x in a;
      SubsetSize(a - {x}, b - {x});
    }
  }

  lemma TeamSearchedIgnoresArrangement(a: seq<Fact>, b: seq<Fact>, c: Cell, team: int)
    requires multiset(a) == multiset(b) && TeamSearched(a, c, team)
    ensures TeamSearched(b, c, team)
  {
    SameMembers(a, b);
    var i :| 0 <= i < |a| && SearchedBy(a[i], c, team);
    assert a[i] in b;
  }

  lemma DuplicateIgnoresArrangement(a: seq<Fact>, b: seq<Fact>)
    requires multiset(a) == multiset(b)
    ensures DuplicateFold(a) == DuplicateFold(b)
  {
    hide Searchers, TeamSearched;
    forall c ensures c in Searchers(a) <==> c in Searchers(b)
             ensures c in Searchers(a) ==> Searchers(a)[c] == Searchers(b)[c]
    {
      forall team ensures c in Searchers(a) && team in Searchers(a)[c] <==>
                          c in Searchers(b) && team in Searchers(b)[c]
      {
        SearchersExact(a, c, team);
        SearchersExact(b, c, team);
        if TeamSearched(a, c, team) { TeamSearchedIgnoresArrangement(a, b, c, team); }
        if TeamSearched(b, c, team) { TeamSearchedIgnoresArrangement(b, a, c, team); }
      }
      SearchersExact(a, c, 0);
      SearchersExact(b, c, 0);
      SameOrBothAbsent(Searchers(a), Searchers(b), c);
    }
    assert Searchers(a) == Searchers(b);
  }

  lemma SameOrBothAbsent(m: map<Cell, set<int>>, n: map<Cell, set<int>>, c: Cell)
    requires c in m ==> m[c] != {}
    requires c in n ==> n[c] != {}
    requires forall team :: c in m && team in m[c] <==> c in n && team in n[c]
    ensures c in m <==> c in n
    ensures c in m ==> m[c] == n[c]
  {
    if c in m {
      var team := Pick(m[c]);
      assert team in n[c];
      assert forall t :: t in m[c] <==> t in n[c];
    }
    if c in n {
      var team := Pick(n[c]);
      assert team in m[c];
    }
  }

  // ------------------------------------------------------------------- stock

  datatype StockKey = StockKey(team: int, item: int)

  function KeyOfDelta(f: Fact): StockKey
    requires f.event.payload.ResourceDeltaReported?
  {
    StockKey(f.event.team, f.event.payload.itemId)
  }

  /** What one event adds to one total. */
  function Contribution(f: Fact, k: StockKey): int {
    if f.event.payload.ResourceDeltaReported? && KeyOfDelta(f) == k then f.event.payload.qtyDelta else 0
  }

  function Total(events: seq<Fact>, k: StockKey): int {
    if events == [] then 0 else Total(events[..|events| - 1], k) + Contribution(events[|events| - 1], k)
  }

  function StockKeys(events: seq<Fact>): set<StockKey> {
    set f | f in events && f.event.payload.ResourceDeltaReported? :: KeyOfDelta(f)
  }

  /** Stock on hand: the sum of all signed deltas, unclamped. */
  function StockFold(events: seq<Fact>): map<StockKey, int> {
    map k | k in StockKeys(events) :: Total(events, k)
  }

  method FoldResourceStock(events: seq<Fact>) returns (totals: map<StockKey, int>)
    ensures totals == StockFold(events)
  {
    totals := map[];
    for i := 0 to |events|
      invariant totals.Keys == StockKeys(events[..i])
      invariant forall k :: (if k in totals then totals[k] else 0) == Total(events[..i], k)
    {
      var f := events[i];
      assert events[..i + 1] == events[..i] + [f];
      assert events[..i + 1][..i] == events[..i];
      if f.event.payload.ResourceDeltaReported? {
        var k := KeyOfDelta(f);
        totals := totals[k := (if k in totals then totals[k] else 0) + f.event.payload.qtyDelta];
      }
    }
    assert events[..|events|] == events;
  }

  lemma {:induction false} TotalConcat(a: seq<Fact>, b: seq<Fact>, k: StockKey)
    ensures Total(a + b, k) == Total(a, k) + Total(b, k)
  {
    if b == [] {
      assert a + b == a;
    } else {
      TotalConcat(a, b[..|b| - 1], k);
      assert (a + b)[..|a + b| - 1] == a + b[..|b| - 1];
    }
  }

  lemma TotalWithout(b: seq<Fact>, i: nat, k: StockKey)
    requires i < |b|
    ensures Total(b, k) == Total(b[..i] + b[i + 1..], k) + Contribution(b[i], k)
    ensures multiset(b[..i] + b[i + 1..]) == multiset(b) - multiset([b[i]])
  {
    assert b == b[..i] + [b[i]] + b[i + 1..];
    hide Contribution;
    TotalConcat(b[..i], b[i + 1..], k);
    TotalConcat(b[..i], [b[i]], k);
    TotalConcat(b[..i] + [b[i]], b[i + 1..], k);
    assert [b[i]][..0] == [];
    assert Total([b[i]], k) == Contribution(b[i], k);
  }

  lemma FrontWithout(a: seq<Fact>)
    requires a != []
    ensures multiset(a[..|a| - 1]) == multiset(a) - multiset([a[|a| - 1]])
  {
    assert a == a[..|a| - 1] + [a[|a| - 1]];
  }

  /** The order of arrival does not matter to a total. */
  lemma {:induction false} TotalIgnoresArrangement(a: seq<Fact>, b: seq<Fact>, k: StockKey)
    requires multiset(a) == multiset(b)
    ensures Total(a, k) == Total(b, k)
    decreases |a|
  {
    hide Contribution;
    SameMembers(a, b);
    if a == [] {
    } else {
      var n := |a| - 1;
      var i := PlaceOf(b, a[n]);
      TotalWithout(b, i, k);
      FrontWithout(a);
      TotalIgnoresArrangement(a[..n], b[..i] + b[i + 1..], k);
    }
  }

  lemma PlaceOf(b: seq<Fact>, f: Fact) returns (i: nat)
    requires f in b
    ensures i < |b| && b[i] == f
  {
    i :| i < |b| && b[i] == f;
  }

  lemma StockIgnoresArrangement(a: seq<Fact>, b: seq<Fact>)
    requires multiset(a) == multiset(b)
    ensures StockFold(a) == StockFold(b)
  {
    SameMembers(a, b);
    assert StockKeys(a) == StockKeys(b);
    forall k { TotalIgnoresArrangement(a, b, k); }
  }

  /** Merging two disjoint logs adds their stock, total by total. */
  lemma StockOfUnion(a: seq<Fact>, b: seq<Fact>, k: StockKey)
    ensures k in StockFold(a + b) <==> k in StockFold(a) || k in StockFold(b)
    ensures k in StockFold(a + b) ==>
              StockFold(a + b)[k] ==
              (if k in StockFold(a) then StockFold(a)[k] else 0) + (if k in StockFold(b) then StockFold(b)[k] else 0)
  {
    TotalConcat(a, b, k);
    assert StockKeys(a + b) == StockKeys(a) + StockKeys(b);
    NoDeltasNoTotal(a, k);
    NoDeltasNoTotal(b, k);
  }

  /** Each delta adds its quantity to the total of its own team and item, and to no other. */
  lemma StockAddsOne(events: seq<Fact>, f: Fact, team: int, item: int)
    ensures var before, after, k := StockFold(events), StockFold(events + [f]), StockKey(team, item);
            match f.event.payload
            case ResourceDeltaReported(i, qty) =>
              if f.event.team == team && i == item
              then k in after && after[k] == (if k in before then before[k] else 0) + qty
              else (k in after <==> k in before) && (k in after ==> after[k] == before[k])
            case _ => (k in after <==> k in before) && (k in after ==> after[k] == before[k])
  {
    var k := StockKey(team, item);
    assert (events + [f])[..|events|] == events;
    NoDeltasNoTotal(events, k);
    assert StockKeys(events + [f]) == StockKeys(events) + (if f.event.payload.ResourceDeltaReported? then {KeyOfDelta(f)} else {});
    assert Total(events + [f], k) == Total(events, k) + Contribution(f, k);
  }

  lemma EmptyStock()
    ensures StockFold([]) == map[]
  {
  }

  lemma {:induction false} NoDeltasNoTotal(events: seq<Fact>, k: StockKey)
    ensures k !in StockKeys(events) ==> Total(events, k) == 0
  {
    if events == [] {
    } else {
      var n := |events| - 1;
      NoDeltasNoTotal(events[..n], k);
      assert forall f :: f in events[..n] ==> f in events;
      assert events[n] in events;
    }
  }

  // ------------------------------------------------------------- team status

  datatype TeamState = TeamState(team: int, callsign: Option<string>, agency: Option<int>,
                                 status: Option<TeamStatus>, lastServerSeq: Option<nat>)

  function BlankTeam(team: int): TeamState {
    TeamState(team, None, None, None, None)
  }

  function TeamStep(out: map<int, TeamState>, f: Fact): map<int, TeamState> {
    match f.event.payload
    case TeamRegistered(team, callsign, agency) =>
      var status := if team in out then out[team].status else None;
      out[team := TeamState(team, Some(callsign), Some(agency), status, f.serverSeq)]
    case TeamStatusReported(status) =>
      var team := f.event.team;
      var prev := if team in out then out[team] else BlankTeam(team);
      out[team := TeamState(team, prev.callsign, prev.agency, Some(status), f.serverSeq)]
    case _ => out
  }

  function TeamFold(s: seq<Fact>): map<int, TeamState> {
    if s == [] then map[] else TeamStep(TeamFold(s[..|s| - 1]), s[|s| - 1])
  }

  method FoldTeamState(events: seq<Fact>) returns (out: map<int, TeamState>)
    ensures out == TeamFold(Ordered(events))
  {
    var ordered := Ordered(events);
    out := map[];
    for i := 0 to |ordered|
      invariant out == TeamFold(ordered[..i])
    {
      assert ordered[..i + 1][..i] == ordered[..i];
      var f := ordered[i];
      assert TeamFold(ordered[..i + 1]) == TeamStep(out, f);
      hide TeamFold, Ordered;
      match f.event.payload {
        case TeamRegistered(team, callsign, agency) =>
          var status := None;
          if team in out {
            status := out[team].status;
          }
          out := out[team := TeamState(team, Some(callsign), Some(agency), status, f.serverSeq)];
        case TeamStatusReported(status) =>
          var prev := BlankTeam(f.event.team);
          if f.event.team in out {
            prev := out[f.event.team];
          }
          out := out[f.event.team := TeamState(f.event.team, prev.callsign, prev.agency, Some(status), f.serverSeq)];
        case _ =>
      }
    }
    assert ordered[..|ordered|] == ordered;
  }

  function Registers(team: int): Fact -> bool {
    (f: Fact) => f.event.payload.TeamRegistered? && f.event.payload.registeredTeam == team
  }

  function GivesStatus(team: int): Fact -> bool {
    (f: Fact) => f.event.payload.TeamStatusReported? && f.event.team == team
  }

  lemma {:induction false} TeamKnownIff(s: seq<Fact>, team: int)
    ensures team in TeamFold(s) <==> AnyOf(s, Registers(team)) || AnyOf(s, GivesStatus(team))
  {
    if s == [] {
    } else {
      TeamKnownIff(s[..|s| - 1], team);
      OneMore(s, Registers(team));
      OneMore(s, GivesStatus(team));
      hide LastOf, AnyOf;
    }
  }

  function CallsignOf(s: seq<Fact>, team: int): (Option<string>, Option<int>) {
    if team in TeamFold(s) then (TeamFold(s)[team].callsign, TeamFold(s)[team].agency) else (None, None)
  }

  function StatusOf(s: seq<Fact>, team: int): Option<TeamStatus> {
    if team in TeamFold(s) then TeamFold(s)[team].status else None
  }

  /** Callsign and agency come from the last registration, whatever status reports surround it. */
  lemma {:induction false} CallsignFromLastRegistration(s: seq<Fact>, team: int)
    ensures forall i :: LastOf(s, Registers(team), i) ==>
              CallsignOf(s, team) == (Some(s[i].event.payload.callsign), Some(s[i].event.payload.registeredAgency))
    ensures !AnyOf(s, Registers(team)) ==> CallsignOf(s, team) == (None, None)
  {
    if s == [] {
    } else {
      CallsignFromLastRegistration(s[..|s| - 1], team);
      OneMore(s, Registers(team));
      hide LastOf, AnyOf;
    }
  }

  lemma StatusStep(s: seq<Fact>, team: int)
    requires s != []
    ensures var f := s[|s| - 1];
            StatusOf(s, team) == if GivesStatus(team)(f) then Some(f.event.payload.teamStatus) else StatusOf(s[..|s| - 1], team)
  {
  }

  /** Status comes from the last status report, whatever registrations surround it. */
  lemma {:induction false} StatusFromLastReport(s: seq<Fact>, team: int)
    ensures forall i :: LastOf(s, GivesStatus(team), i) ==> StatusOf(s, team) == Some(s[i].event.payload.teamStatus)
    ensures !AnyOf(s, GivesStatus(team)) ==> StatusOf(s, team) == None
  {
    if s == [] {
    } else {
      hide LastOf, AnyOf, StatusOf;
      StatusFromLastReport(s[..|s| - 1], team);
      OneMore(s, GivesStatus(team));
      StatusStep(s, team);
    }
  }

  /** The event says something about the team. */
  function Concerns(team: int): Fact -> bool {
    (f: Fact) => (f.event.payload.TeamRegistered? && f.event.payload.registeredTeam == team)
                 || (f.event.payload.TeamStatusReported? && f.event.team == team)
  }

  /** A team's entry is under its own number, and carries the position of the last event about it. */
  lemma {:induction false} TeamSeqFromLastEvent(s: seq<Fact>, team: int)
    ensures team in TeamFold(s) <==> AnyOf(s, Concerns(team))
    ensures forall i :: LastOf(s, Concerns(team), i) ==>
              team in TeamFold(s) && TeamFold(s)[team].team == team && TeamFold(s)[team].lastServerSeq == s[i].serverSeq
  {
    if s == [] {
    } else {
      var front, f := s[..|s| - 1], s[|s| - 1];
      TeamSeqFromLastEvent(front, team);
      OneMore(s, Concerns(team));
      hide LastOf, AnyOf;
    }
  }
}
