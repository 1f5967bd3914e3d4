/**
 A snapshot folds one incident's events only.  Sorting commutes with that selection, and
 so does duplicate search; assignments and cell states do exactly as long as no
 revocation filed under another incident than its issuance was the last to reach a cell.
 */
module Scoping {
  import opened Results
  import opened Domain
  import opened Sorting
  import opened Folds
  import opened Latest
  import opened FoldSets
  import opened Coverage

  function FiledUnder(incident: int): Fact -> bool {
    (f: Fact) => f.event.incident == incident
  }

  /** The events a snapshot of one incident reads. */
  function Only(s: seq<Fact>, incident: int): seq<Fact> {
    Where(FiledUnder(incident), s)
  }

  lemma OnlyLast(s: seq<Fact>, incident: int)
    requires s != []
    ensures var front, f := Only(s[..|s| - 1], incident), s[|s| - 1];
            Only(s, incident) == if f.event.incident == incident then front + [f] else front
  {
    var front, f := s[..|s| - 1], s[|s| - 1];
    assert s == front + [f];
    WhereConcat(FiledUnder(incident), front, [f]);
    assert [f][1..] == [];
  }

  /** Selecting one incident before ordering or after gives the same list. */
  lemma OrderedOnly(s: seq<Fact>, incident: int)
    ensures Ordered(Only(s, incident)) == Only(Ordered(s), incident)
  {
    assert TotalPreorder(FactLe);
    SortWhere(FactLe, FiledUnder(incident), s);
  }

  // ------------------------------------------------------------- assignments

  function Within<T>(m: map<Cell, T>, incident: int): map<Cell, T> {
    map c | c in m && c.incident == incident :: m[c]
  }

  /** A fact that says nothing about assignments. */
  const NOTHING := Fact(Event(0, 0, TeamStatusReported(Active), 0, 0, 0, 0, 0, 0, 0), None)

  /** The log as a snapshot of one incident sees it, position by position. */
  function Blind(s: seq<Fact>, incident: int): (t: seq<Fact>)
    ensures |t| == |s|
  {
    seq(|s|, i requires 0 <= i < |s| => if s[i].event.incident == incident then s[i] else NOTHING)
  }

  lemma {:induction false} BlindFold(s: seq<Fact>, incident: int)
    ensures AssignFold(Only(s, incident)) == AssignFold(Blind(s, incident))
  {
    if s == [] {
      assert Blind(s, incident) == [] && Only(s, incident) == [];
    } else {
      var front, f := s[..|s| - 1], s[|s| - 1];
      BlindFold(front, incident);
      OnlyLast(s, incident);
      BlindLast(s, incident);
      hide Only, Blind, AssignFold;
      FoldSnoc(Only(front, incident), f);
      FoldSnoc(Blind(front, incident), f);
      FoldSnoc(Blind(front, incident), NOTHING);
    }
  }

  lemma BlindLast(s: seq<Fact>, incident: int)
    requires s != []
    ensures var front, f := s[..|s| - 1], s[|s| - 1];
            Blind(s, incident) == Blind(front, incident) + [if f.event.incident == incident then f else NOTHING]
  {
  }

  lemma FoldSnoc(s: seq<Fact>, f: Fact)
    ensures AssignFold(s + [f]) == AssignStep(AssignFold(s), f)
  {
    hide AssignStep;
    assert (s + [f])[..|s|] == s;
  }

  /** The event touches the cell in the view of the cell's own incident. */
  ghost predicate Seen(s: seq<Fact>, m: int, c: Cell) {
    Touches(Blind(s, c.incident), m, c)
  }

  /** A revocation whose id was last issued under another incident. */
  ghost predicate Misfiled(s: seq<Fact>, m: int) {
    && 0 <= m < |s| && s[m].event.payload.AssignmentRevoked?
    && exists j :: LastIssue(s, m, s[m].event.payload.assignmentId, j) && s[j].event.incident != s[m].event.incident
  }

  /** The last event to reach the cell, in the whole log or in the view of its incident. */
  ghost predicate LastReach(s: seq<Fact>, m: int, c: Cell) {
    && (Touches(s, m, c) || Seen(s, m, c))
    && forall n :: m < n < |s| ==> !Touches(s, n, c) && !Seen(s, n, c)
  }

  /** The last event to reach the cell is no misfiled revocation. */
  ghost predicate CleanAt(s: seq<Fact>, c: Cell) {
    forall m :: LastReach(s, m, c) ==> !Misfiled(s, m)
  }

  /** The snapshot of the cell's incident and the whole log say the same of the cell. */
  ghost predicate AgreeOn(s: seq<Fact>, c: Cell) {
    var whole, part := AssignFold(s).out, AssignFold(Only(s, c.incident)).out;
    (c in whole <==> c in part) && (c in whole ==> whole[c] == part[c])
  }

  /** Positions of a committed log climb. */
  ghost predicate Climbing(s: seq<Fact>) {
    forall i, j :: 0 <= i < j < |s| ==> SeqOrZero(s[i]) < SeqOrZero(s[j])
  }

  // ------------------------------------------------ who reaches a cell in both views

  lemma IssueReachesBoth(s: seq<Fact>, m: int, c: Cell)
    requires 0 <= m < |s| && s[m].event.payload.AssignmentIssued?
    ensures Touches(s, m, c) <==> Seen(s, m, c)
    ensures !Misfiled(s, m)
  {
    IssuedCellsMembers(s[m].event, c);
  }

  /** The last issue of an id, if filed under the incident, is the last one its view has. */
  lemma LastIssueInView(s: seq<Fact>, incident: int, m: int, aid: int, j: int)
    requires LastIssue(s, m, aid, j) && s[j].event.incident == incident
    ensures LastIssue(Blind(s, incident), m, aid, j) && Blind(s, incident)[j] == s[j]
  {
  }

  lemma LastIssueOfView(s: seq<Fact>, incident: int, m: int, aid: int, j: int, k: int)
    requires LastIssue(s, m, aid, j) && LastIssue(Blind(s, incident), m, aid, k)
    ensures s[k].event.incident == incident && Blind(s, incident)[k] == s[k]
    ensures s[j].event.incident == incident ==> k == j
  {
    if s[j].event.incident == incident {
      LastIssueInView(s, incident, m, aid, j);
    }
  }

  lemma ViewHasIssue(s: seq<Fact>, incident: int, m: int, aid: int, k: int) returns (j: int)
    requires LastIssue(Blind(s, incident), m, aid, k)
    ensures LastIssue(s, m, aid, j)
  {
    j := LastIssueFrom(s, m, aid, k);
  }

  lemma LastIssueFrom(s: seq<Fact>, m: int, aid: int, k: int) returns (j: int)
    requires 0 <= k < m <= |s| && s[k].event.payload.AssignmentIssued? && s[k].event.payload.assignmentId == aid
    ensures LastIssue(s, m, aid, j)
    decreases m - k
  {
    if n :| k < n < m && s[n].event.payload.AssignmentIssued? && s[n].event.payload.assignmentId == aid {
      j := LastIssueFrom(s, m, aid, n);
    } else {
      j := k;
    }
  }

  lemma RevocationReaches(s: seq<Fact>, m: int, c: Cell, j: int)
    requires 0 <= m < |s| && s[m].event.payload.AssignmentRevoked? && LastIssue(s, m, s[m].event.payload.assignmentId, j)
    ensures Touches(s, m, c) <==> c in IssuedCells(s[j].event)
    ensures Misfiled(s, m) <==> s[j].event.incident != s[m].event.incident
    ensures !Misfiled(s, m) ==> (Touches(s, m, c) <==> Seen(s, m, c))
    ensures Misfiled(s, m) ==> !(Touches(s, m, c) && Seen(s, m, c))
  {
    var aid, t := s[m].event.payload.assignmentId, Blind(s, c.incident);
    hide IssuedCells, LastIssue, Blind;
    forall k | LastIssue(s, m, aid, k) ensures k == j {
      LastIssueUnique(s, m, aid, k, j);
    }
    LastIssueIsIssue(s, m, aid, j);
    IssuedCellsMembers(s[j].event, c);
    BlindAt(s, c.incident, m);
    if s[j].event.incident == c.incident {
      LastIssueInView(s, c.incident, m, aid, j);
      forall k | LastIssue(t, m, aid, k) ensures k == j {
        LastIssueOfView(s, c.incident, m, aid, j, k);
      }
    }
  }

  lemma BlindAt(s: seq<Fact>, incident: int, m: int)
    requires 0 <= m < |s|
    ensures Blind(s, incident)[m] == if s[m].event.incident == incident then s[m] else NOTHING
  {
  }

  /** An event that reaches a cell in either view reaches it in both exactly when it is not misfiled. */
  lemma ReachesBothIff(s: seq<Fact>, m: int, c: Cell)
    requires Touches(s, m, c) || Seen(s, m, c)
    ensures (Touches(s, m, c) && Seen(s, m, c)) <==> !Misfiled(s, m)
    ensures Seen(s, m, c) ==> 0 <= m < |s| && Blind(s, c.incident)[m] == s[m]
  {
    SeenIsFiled(s, m, c);
    hide Touches, Seen, Misfiled, IssuedCells;
    if s[m].event.payload.AssignmentIssued? {
      IssueReachesBoth(s, m, c);
    } else {
      var j := ReachingRevocation(s, m, c);
      RevocationReaches(s, m, c, j);
    }
  }

  lemma SeenIsFiled(s: seq<Fact>, m: int, c: Cell)
    requires Touches(s, m, c) || Seen(s, m, c)
    ensures 0 <= m < |s| && (s[m].event.payload.AssignmentIssued? || s[m].event.payload.AssignmentRevoked?)
    ensures Seen(s, m, c) ==> Blind(s, c.incident)[m] == s[m]
  {
    hide LastIssue, IssuedCells;
  }

  lemma ReachingRevocation(s: seq<Fact>, m: int, c: Cell) returns (j: int)
    requires (Touches(s, m, c) || Seen(s, m, c)) && 0 <= m < |s| && s[m].event.payload.AssignmentRevoked?
    ensures LastIssue(s, m, s[m].event.payload.assignmentId, j)
  {
    hide IssuedCells, LastIssue;
    var aid := s[m].event.payload.assignmentId;
    if Touches(s, m, c) {
      j :| LastIssue(s, m, aid, j);
    } else {
      BlindAt(s, c.incident, m);
      var k :| LastIssue(Blind(s, c.incident), m, aid, k);
      j := ViewHasIssue(s, c.incident, m, aid, k);
    }
  }

  // ------------------------------------------------------------- the exact condition

  /** What the snapshot holds of a cell is what the last event it sees left. */
  lemma SnapshotIsLastSeen(s: seq<Fact>, c: Cell)
    ensures var part := AssignFold(Only(s, c.incident)).out;
            && (c in part <==> exists m :: Seen(s, m, c))
            && (forall m :: Seen(s, m, c) && (forall n :: m < n < |s| ==> !Seen(s, n, c)) ==>
                  c in part && 0 <= m < |s| && Blind(s, c.incident)[m] == s[m]
                  && (s[m].event.payload.AssignmentIssued? || s[m].event.payload.AssignmentRevoked?)
                  && part[c] == StateAfter(s[m], c))
  {
    var t := Blind(s, c.incident);
    BlindFold(s, c.incident);
    AssignFoldState(t, c);
    hide AssignFold, Only, Touches, StateAfter, Blind;
    assert |t| == |s| && forall m :: Seen(s, m, c) <==> Touches(t, m, c);
    forall m | Seen(s, m, c) && (forall n :: m < n < |s| ==> !Seen(s, n, c))
      ensures LastTouch(t, m, c) && 0 <= m < |s| && t[m] == s[m]
              && (s[m].event.payload.AssignmentIssued? || s[m].event.payload.AssignmentRevoked?)
    {
      SeenIsFiled(s, m, c);
    }
  }

  lemma SomeLastReach(s: seq<Fact>, m: int, c: Cell) returns (n: int)
    requires Touches(s, m, c) || Seen(s, m, c)
    ensures m <= n && LastReach(s, n, c)
    decreases |s| - m
  {
    SeenIsFiled(s, m, c);
    hide Touches, Seen;
    if k :| m < k < |s| && (Touches(s, k, c) || Seen(s, k, c)) {
      n := SomeLastReach(s, k, c);
    } else {
      n := m;
    }
  }

  /**
   The snapshot and the whole log agree on a cell if and only if the last event to reach
   it is no revocation of an id last issued under another incident.
   */
  lemma SnapshotAgreesIff(s: seq<Fact>, c: Cell)
    requires Climbing(s)
    ensures AgreeOn(s, c) <==> CleanAt(s, c)
  {
    AssignFoldState(s, c);
    SnapshotIsLastSeen(s, c);
    hide AssignFold, Only, Touches, Seen, Misfiled, StateAfter, SeqOrZero, Climbing;
    if m :| LastReach(s, m, c) {
      ReachesBothIff(s, m, c);
      SeenIsFiled(s, m, c);
      if Misfiled(s, m) {
        LastsDiffer(s, m, c);
      } else {
        assert LastTouch(s, m, c);
        forall n | LastReach(s, n, c) ensures n == m {
          SeenIsFiled(s, n, c);
        }
      }
    } else {
      forall m ensures !Touches(s, m, c) && !Seen(s, m, c) {
        if Touches(s, m, c) || Seen(s, m, c) {
          var n := SomeLastReach(s, m, c);
        }
      }
    }
  }

  /** A misfiled last event is the last in one view only, and positions tell the views apart. */
  lemma LastsDiffer(s: seq<Fact>, m: int, c: Cell)
    requires Climbing(s) && LastReach(s, m, c) && Misfiled(s, m)
    ensures !AgreeOn(s, c)
    ensures var whole, part := AssignFold(s).out, AssignFold(Only(s, c.incident)).out;
            c in whole && c in part ==> whole[c].lastServerSeq != part[c].lastServerSeq
  {
    AssignFoldState(s, c);
    SnapshotIsLastSeen(s, c);
    ReachesBothIff(s, m, c);
    hide AssignFold, Only, Touches, Seen, Misfiled, Climbing;
    SeenIsFiled(s, m, c);
    if Touches(s, m, c) {
      assert LastTouch(s, m, c);
      if c in AssignFold(Only(s, c.incident)).out {
        EarlierSeen(s, m, c);
      }
    } else if c in AssignFold(s).out {
      EarlierTouch(s, m, c);
    }
  }

  lemma EarlierSeen(s: seq<Fact>, m: int, c: Cell)
    requires Climbing(s) && 0 <= m < |s| && !Seen(s, m, c) && forall n :: m < n < |s| ==> !Seen(s, n, c)
    requires c in AssignFold(Only(s, c.incident)).out
    ensures AssignFold(Only(s, c.incident)).out[c].lastServerSeq < SeqOrZero(s[m])
  {
    SnapshotIsLastSeen(s, c);
    hide AssignFold, Only, Seen, SeqOrZero;
    var k :| Seen(s, k, c);
    var n := LastSeenFrom(s, k, c);
    SeenIsFiled(s, n, c);
    assert n < m;
  }

  lemma EarlierTouch(s: seq<Fact>, m: int, c: Cell)
    requires Climbing(s) && 0 <= m < |s| && !Touches(s, m, c) && forall n :: m < n < |s| ==> !Touches(s, n, c)
    requires c in AssignFold(s).out
    ensures AssignFold(s).out[c].lastServerSeq < SeqOrZero(s[m])
  {
    AssignFoldState(s, c);
    SomeLastTouch(s, c);
    hide AssignFold, Touches, SeqOrZero;
    var n :| LastTouch(s, n, c);
    LastTouchInRange(s, n, c);
    assert n < m;
  }

  lemma LastSeenFrom(s: seq<Fact>, m: int, c: Cell) returns (n: int)
    requires Seen(s, m, c)
    ensures Seen(s, n, c) && forall k :: n < k < |s| ==> !Seen(s, k, c)
    decreases |s| - m
  {
    SeenIsFiled(s, m, c);
    hide Seen;
    if k :| m < k < |s| && Seen(s, k, c) {
      n := LastSeenFrom(s, k, c);
    } else {
      n := m;
    }
  }

  /** A misfiled revocation in last position makes the two views differ on what it revokes. */
  lemma MisfiledLastDisagrees(s: seq<Fact>, m: int, j: int, aid: int, c: Cell)
    requires Climbing(s) && m == |s| - 1 && m >= 0
    requires s[m].event.payload.AssignmentRevoked? && s[m].event.payload.assignmentId == aid
    requires LastIssue(s, m, aid, j) && s[j].event.incident != s[m].event.incident && c in IssuedCells(s[j].event)
    ensures !AgreeOn(s, c)
  {
    RevocationReaches(s, m, c, j);
    hide Climbing, AgreeOn, IssuedCells, LastIssue, Seen, Touches, Misfiled;
    assert LastReach(s, m, c);
    LastsDiffer(s, m, c);
  }

  /** Every issuance names a cell, as payload validation demands. */
  ghost predicate NamesCells(s: seq<Fact>) {
    forall i :: 0 <= i < |s| && s[i].event.payload.AssignmentIssued? ==> s[i].event.payload.cellIds != []
  }

  lemma MisfiledInPrefix(s: seq<Fact>, n: nat, m: int)
    requires m < n <= |s|
    ensures Misfiled(s[..n], m) <==> Misfiled(s, m)
  {
    if 0 <= m && s[m].event.payload.AssignmentRevoked? {
      var aid := s[m].event.payload.assignmentId;
      forall j ensures LastIssue(s, m, aid, j) <==> LastIssue(s[..n], m, aid, j) {
        LastIssueInPrefix(s, n, m, aid, j);
      }
    }
  }

  /**
   At every point of a committed log and for every cell the snapshots tell what the whole
   log tells, if and only if no revocation is misfiled.  The server could check that when
   a revocation arrives.
   */
  lemma EverySnapshotAgreesIff(s: seq<Fact>)
    requires Climbing(s) && NamesCells(s)
    ensures (forall n: nat, c :: n <= |s| ==> AgreeOn(s[..n], c)) <==> forall m :: !Misfiled(s, m)
  {
    hide AgreeOn, Climbing;
    if m :| Misfiled(s, m) {
      var aid, n := s[m].event.payload.assignmentId, m + 1;
      var j :| LastIssue(s, m, aid, j) && s[j].event.incident != s[m].event.incident;
      LastIssueInPrefix(s, n, m, aid, j);
      ClimbingPrefix(s, n);
      assert s[..n][m] == s[m] && s[..n][j] == s[j];
      var c := IssuedCells(s[j].event)[0];
      MisfiledLastDisagrees(s[..n], m, j, aid, c);
      assert !AgreeOn(s[..n], c);
    } else {
      forall n: nat, c | n <= |s| ensures AgreeOn(s[..n], c) {
        ClimbingPrefix(s, n);
        forall m ensures !Misfiled(s[..n], m) {
          if m < n { MisfiledInPrefix(s, n, m); }
        }
        SnapshotAgreesIff(s[..n], c);
      }
    }
  }

  lemma ClimbingPrefix(s: seq<Fact>, n: nat)
    requires Climbing(s) && n <= |s|
    ensures Climbing(s[..n])
  {
  }

  // ------------------------------------------------------------- whole snapshots

  /** No cell of the incident was last reached by a misfiled revocation. */
  ghost predicate CleanFor(s: seq<Fact>, incident: int) {
    forall c: Cell :: c.incident == incident ==> CleanAt(s, c)
  }

  lemma WellFiledIsClean(s: seq<Fact>, incident: int)
    requires forall m :: !Misfiled(s, m)
    ensures CleanFor(s, incident)
  {
  }

  lemma SnapshotKeepsToIncident(s: seq<Fact>, incident: int, c: Cell)
    requires c in AssignFold(Only(s, incident)).out
    ensures c.incident == incident
  {
    var t := Blind(s, incident);
    BlindFold(s, incident);
    AssignFoldState(t, c);
    hide AssignFold, Only;
    var m :| Touches(t, m, c);
    NamedByIssue(t, m, c);
    hide Touches;
    var f :| f in t && f.event.incident == c.incident && f.event.payload.AssignmentIssued? && c in IssuedCells(f.event);
    var i :| 0 <= i < |t| && t[i] == f;
  }

  /** The snapshot's assignments are the whole log's, restricted, exactly when the incident is clean. */
  lemma AssignmentsScopedIff(s: seq<Fact>, incident: int)
    requires Climbing(s)
    ensures AssignFold(Only(s, incident)).out == Within(AssignFold(s).out, incident) <==> CleanFor(s, incident)
  {
    hide AssignFold, Only, CleanAt, Climbing;
    forall c: Cell | c.incident == incident ensures AgreeOn(s, c) <==> CleanAt(s, c) {
      SnapshotAgreesIff(s, c);
    }
    forall c | c in AssignFold(Only(s, incident)).out ensures c.incident == incident {
      SnapshotKeepsToIncident(s, incident, c);
    }
    if AssignFold(Only(s, incident)).out == Within(AssignFold(s).out, incident) {
      forall c: Cell | c.incident == incident ensures AgreeOn(s, c) {
        assert c in Within(AssignFold(s).out, incident) <==> c in AssignFold(s).out;
      }
    }
    if CleanFor(s, incident) {
      AgreementIsRestriction(s, incident);
    }
  }

  lemma AgreementIsRestriction(s: seq<Fact>, incident: int)
    requires forall c: Cell :: c.incident == incident ==> AgreeOn(s, c)
    requires forall c :: c in AssignFold(Only(s, incident)).out ==> c.incident == incident
    ensures AssignFold(Only(s, incident)).out == Within(AssignFold(s).out, incident)
  {
    hide AssignFold, Only;
    forall c: Cell | c.incident == incident ensures AgreeOn(s, c) {
    }
  }

  // ----------------------------------------------------------- the other folds

  lemma {:induction false} ReportsScoped(s: seq<Fact>, incident: int)
    ensures LatestReports(Only(s, incident)) == Within(LatestReports(s), incident)
  {
    if s == [] {
      assert Within(LatestReports(s), incident) == map[];
    } else {
      var part := Only(s[..|s| - 1], incident);
      ReportsScoped(s[..|s| - 1], incident);
      OnlyLast(s, incident);
      hide Only;
      assert (part + [s[|s| - 1]])[..|part|] == part;
    }
  }

  /** The snapshot and the whole log show the same of the cell. */
  ghost predicate CellAgrees(s: seq<Fact>, c: Cell) {
    var whole, part := CellFold(s), CellFold(Only(s, c.incident));
    (c in whole <==> c in part) && (c in whole ==> whole[c] == part[c])
  }

  /** A report hides every assignment; otherwise the views agree, or neither shows a holder. */
  ghost predicate CellCleanAt(s: seq<Fact>, c: Cell) {
    AnyOf(s, OnCell(c)) || CleanAt(s, c) || (!HeldIn(s, c) && !HeldIn(Blind(s, c.incident), c))
  }

  /** Exact for cell states too. */
  lemma CellSnapshotAgreesIff(s: seq<Fact>, c: Cell)
    requires Climbing(s)
    ensures CellAgrees(s, c) <==> CellCleanAt(s, c)
  {
    hide CellFold, AssignFold, Only, LatestReports, HeldIn, Climbing, CleanAt, AnyOf, FromReport;
    var part := Only(s, c.incident);
    CellShown(s, c);
    CellShown(part, c);
    ReportsScoped(s, c.incident);
    LatestIsLastReport(s, c);
    BlindFold(s, c.incident);
    HeldMeaning(Blind(s, c.incident), c);
    HeldMeaning(s, c);
    HeldMeaning(part, c);
    SnapshotAgreesIff(s, c);
    if c in LatestReports(s) {
      assert c in LatestReports(part) && LatestReports(part)[c] == LatestReports(s)[c];
    } else {
      assert c !in LatestReports(part);
      if !CleanAt(s, c) {
        DirtyDiffers(s, c);
      }
    }
  }

  lemma DirtyDiffers(s: seq<Fact>, c: Cell)
    requires Climbing(s) && !CleanAt(s, c)
    ensures var whole, part := AssignFold(s).out, AssignFold(Only(s, c.incident)).out;
            c in whole && c in part ==> whole[c].lastServerSeq != part[c].lastServerSeq
  {
    hide LastReach, Misfiled, Climbing, AssignFold, Only, AgreeOn;
    var m :| LastReach(s, m, c) && Misfiled(s, m);
    LastsDiffer(s, m, c);
  }

  ghost predicate CellsCleanFor(s: seq<Fact>, incident: int) {
    forall c: Cell :: c.incident == incident ==> CellCleanAt(s, c)
  }

  /** The snapshot's cell states are the whole log's, restricted, under exactly that condition. */
  lemma CellsScopedIff(s: seq<Fact>, incident: int)
    requires Climbing(s)
    ensures CellFold(Only(s, incident)) == Within(CellFold(s), incident) <==> CellsCleanFor(s, incident)
  {
    hide CellFold, Only, CellCleanAt, Climbing;
    forall c: Cell | c.incident == incident ensures CellAgrees(s, c) <==> CellCleanAt(s, c) {
      CellSnapshotAgreesIff(s, c);
    }
    forall c | c in CellFold(Only(s, incident)) ensures c.incident == incident {
      CellSnapshotKeepsToIncident(s, incident, c);
    }
    if CellFold(Only(s, incident)) == Within(CellFold(s), incident) {
      forall c: Cell | c.incident == incident ensures CellAgrees(s, c) {
        assert c in Within(CellFold(s), incident) <==> c in CellFold(s);
      }
    }
    if CellsCleanFor(s, incident) {
      CellAgreementIsRestriction(s, incident);
    }
  }

  lemma CellAgreementIsRestriction(s: seq<Fact>, incident: int)
    requires forall c: Cell :: c.incident == incident ==> CellAgrees(s, c)
    requires forall c :: c in CellFold(Only(s, incident)) ==> c.incident == incident
    ensures CellFold(Only(s, incident)) == Within(CellFold(s), incident)
  {
    hide CellFold, Only;
    forall c: Cell | c.incident == incident ensures CellAgrees(s, c) {
    }
  }

  lemma CellSnapshotKeepsToIncident(s: seq<Fact>, incident: int, c: Cell)
    requires c in CellFold(Only(s, incident))
    ensures c.incident == incident
  {
    CellShown(Only(s, incident), c);
    ReportsScoped(s, incident);
    hide CellFold, Only, LatestReports, AssignFold;
    if c !in LatestReports(Only(s, incident)) {
      SnapshotKeepsToIncident(s, incident, c);
    }
  }

  lemma {:induction false} SearchersScoped(s: seq<Fact>, incident: int)
    ensures Searchers(Only(s, incident)) == Within(Searchers(s), incident)
  {
    if s == [] {
      assert Within(Searchers(s), incident) == map[];
    } else {
      var part := Only(s[..|s| - 1], incident);
      SearchersScoped(s[..|s| - 1], incident);
      OnlyLast(s, incident);
      hide Only;
      assert (part + [s[|s| - 1]])[..|part|] == part;
    }
  }

  lemma DuplicatesScoped(s: seq<Fact>, incident: int)
    ensures DuplicateFold(Only(s, incident)) == Within(DuplicateFold(s), incident)
  {
    SearchersScoped(s, incident);
    hide Only, Searchers;
  }

  lemma {:induction false} GridsScoped(s: seq<Fact>, incident: int)
    ensures TotalFor(Only(s, incident), incident) == TotalFor(s, incident)
    ensures GridTotals(Only(s, incident)).Keys == GridTotals(s).Keys * {incident}
  {
    if s == [] {
    } else {
      var part := Only(s[..|s| - 1], incident);
      GridsScoped(s[..|s| - 1], incident);
      OnlyLast(s, incident);
      hide Only;
      assert (part + [s[|s| - 1]])[..|part|] == part;
    }
  }

  lemma ShowingWithin(states: map<Cell, CellState>, incident: int, st: ShownStatus)
    ensures var part := Within(states, incident);
            Showing(part, part.Keys, incident, st) == Showing(states, states.Keys, incident, st)
  {
  }

  // ------------------------------------------------------------- coverage

  /** Cells nobody reported, whose last event in the view gives them to a team. */
  ghost function HeldUnreported(s: seq<Fact>, view: seq<Fact>, incident: int): set<Cell> {
    set c | c in AssignFold(view).out && c.incident == incident && HeldIn(view, c) && !AnyOf(s, OnCell(c))
  }

  lemma HeldUnreportedMeaning(s: seq<Fact>, view: seq<Fact>, incident: int)
    ensures forall c :: c in HeldUnreported(s, view, incident) <==>
                          c.incident == incident && HeldIn(view, c) && !AnyOf(s, OnCell(c))
  {
    hide AssignFold, HeldIn, AnyOf;
    forall c ensures HeldIn(view, c) ==> c in AssignFold(view).out {
      HeldMeaning(view, c);
    }
  }

  /** The snapshot's coverage is the incident's line of the whole log's coverage. */
  predicate SameLine(part: map<int, Metrics>, whole: map<int, Metrics>, incident: int) {
    part.Keys == whole.Keys * {incident} && (incident in part ==> part[incident] == whole[incident])
  }

  ghost predicate AnyReportIn(s: seq<Fact>, incident: int) {
    exists c :: c in LatestReports(s) && c.incident == incident
  }

  /** How a cell is shown: as reported, or else held, or not at all. */
  lemma ShownAs(s: seq<Fact>, c: Cell)
    ensures c in LatestReports(s) ==> && LatestReports(s)[c].event.payload.CellStatusReported?
                                      && c in CellFold(s) && CellFold(s)[c] == FromReport(LatestReports(s)[c])
                                      && CellFold(s)[c].status != Assigned
    ensures c !in LatestReports(s) ==> (c in CellFold(s) <==> HeldIn(s, c))
    ensures c !in LatestReports(s) && c in CellFold(s) ==> CellFold(s)[c].status == Assigned
    ensures c in LatestReports(s) <==> AnyOf(s, OnCell(c))
  {
    CellShown(s, c);
    LatestIsLastReport(s, c);
    hide CellFold, LatestReports, AssignFold, HeldIn, AnyOf;
  }

  lemma AssignedAreHeld(s: seq<Fact>, incident: int)
    ensures Showing(CellFold(s), CellFold(s).Keys, incident, Assigned) == HeldUnreported(s, s, incident)
  {
    HeldUnreportedMeaning(s, s, incident);
    hide CellFold, LatestReports, HeldIn, AnyOf, HeldUnreported;
    forall c
      ensures c in Showing(CellFold(s), CellFold(s).Keys, incident, Assigned) <==> c in HeldUnreported(s, s, incident)
    {
      ShownAs(s, c);
    }
  }

  /** The snapshot holds what the view of the incident holds, and reports are the same in both. */
  lemma HeldInSnapshot(s: seq<Fact>, incident: int)
    ensures var part := Only(s, incident);
            HeldUnreported(part, part, incident) == HeldUnreported(s, Blind(s, incident), incident)
  {
    var part, view := Only(s, incident), Blind(s, incident);
    HeldUnreportedMeaning(part, part, incident);
    HeldUnreportedMeaning(s, view, incident);
    BlindFold(s, incident);
    ReportsScoped(s, incident);
    hide Only, Blind, CellFold, LatestReports, HeldIn, AnyOf, HeldUnreported, AssignFold;
    forall c: Cell
      ensures c in HeldUnreported(part, part, incident) <==> c in HeldUnreported(s, view, incident)
    {
      HeldMeaning(part, c);
      HeldMeaning(view, c);
      ShownAs(part, c);
      ShownAs(s, c);
    }
  }

  lemma ReportedScoped(s: seq<Fact>, incident: int, st: ShownStatus)
    requires st != Assigned
    ensures var whole, part := CellFold(s), CellFold(Only(s, incident));
            Showing(part, part.Keys, incident, st) == Showing(whole, whole.Keys, incident, st)
  {
    var whole, part := CellFold(s), CellFold(Only(s, incident));
    ReportsScoped(s, incident);
    hide Only, CellFold, LatestReports, HeldIn, AnyOf, FromReport;
    forall c: Cell ensures c in Showing(part, part.Keys, incident, st) <==> c in Showing(whole, whole.Keys, incident, st) {
      ShownAs(Only(s, incident), c);
      ShownAs(s, c);
    }
  }

  /** The lines differ in what is held, and in nothing that does not follow from it. */
  lemma LinesDifferInHeld(s: seq<Fact>, incident: int)
    ensures var whole, part := MetricsFor(s, incident), MetricsFor(Only(s, incident), incident);
            && whole.held == |HeldUnreported(s, s, incident)|
            && part.held == |HeldUnreported(s, Blind(s, incident), incident)|
            && (whole.held == part.held ==> whole == part)
  {
    GridsScoped(s, incident);
    AssignedAreHeld(s, incident);
    AssignedAreHeld(Only(s, incident), incident);
    HeldInSnapshot(s, incident);
    ReportedScoped(s, incident, Reported(Searched));
    ReportedScoped(s, incident, Reported(InProgress));
    ReportedScoped(s, incident, Reported(NeedsResearch));
    hide Only, Blind, CellFold, TotalFor, Showing, HeldUnreported;
  }

  /** When an incident has a line at all. */
  lemma HasLineIff(s: seq<Fact>, incident: int)
    ensures incident in Incidents(s) <==>
            incident in GridTotals(s) || AnyReportIn(s, incident) || HeldUnreported(s, s, incident) != {}
  {
    HeldUnreportedMeaning(s, s, incident);
    hide CellFold, LatestReports, HeldIn, AnyOf, HeldUnreported, GridTotals;
    forall c: Cell ensures c in CellFold(s) && c.incident == incident <==>
      (c in LatestReports(s) && c.incident == incident) || c in HeldUnreported(s, s, incident)
    {
      ShownAs(s, c);
    }
    if HeldUnreported(s, s, incident) != {} {
      var c :| c in HeldUnreported(s, s, incident);
      assert c in CellFold(s) && c.incident == incident;
    }
    if AnyReportIn(s, incident) {
      var c :| c in LatestReports(s) && c.incident == incident;
      assert c in CellFold(s) && c.incident == incident;
    }
  }

  lemma SnapshotHasLineIff(s: seq<Fact>, incident: int)
    ensures Incidents(Only(s, incident)) <= {incident}
    ensures incident in Incidents(Only(s, incident)) <==>
            incident in GridTotals(s) || AnyReportIn(s, incident) || HeldUnreported(s, Blind(s, incident), incident) != {}
  {
    HasLineIff(Only(s, incident), incident);
    HeldInSnapshot(s, incident);
    GridsScoped(s, incident);
    ReportsScoped(s, incident);
    hide Only, Blind, CellFold, LatestReports, HeldUnreported, GridTotals;
    forall c | c in CellFold(Only(s, incident)) ensures c.incident == incident {
      CellSnapshotKeepsToIncident(s, incident, c);
    }
    assert AnyReportIn(Only(s, incident), incident) <==> AnyReportIn(s, incident) by {
      assert LatestReports(Only(s, incident)) == Within(LatestReports(s), incident);
    }
  }

  /**
   The snapshot's coverage is the whole log's line if and only if as many unreported cells
   are held in the incident's own view as in the whole log.
   */
  lemma CoverageScopedIff(s: seq<Fact>, incident: int)
    ensures SameLine(CoverageFold(Only(s, incident)), CoverageFold(s), incident) <==>
            |HeldUnreported(s, s, incident)| == |HeldUnreported(s, Blind(s, incident), incident)|
  {
    HasLineIff(s, incident);
    SnapshotHasLineIff(s, incident);
    LinesDifferInHeld(s, incident);
    hide Only, Blind, Incidents, MetricsFor, HeldUnreported, GridTotals, AnyReportIn;
    var whole, part := CoverageFold(s), CoverageFold(Only(s, incident));
    var a, b := HeldUnreported(s, s, incident), HeldUnreported(s, Blind(s, incident), incident);
    if |a| == |b| {
      assert a == {} <==> b == {};
      assert part.Keys == whole.Keys * {incident};
    } else {
      assert a != {} || b != {};
      assert incident in part <==> incident in Incidents(Only(s, incident));
    }
  }

  /** In particular where the cell states agree. */
  lemma CoverageScoped(s: seq<Fact>, incident: int)
    requires Climbing(s) && CellsCleanFor(s, incident)
    ensures SameLine(CoverageFold(Only(s, incident)), CoverageFold(s), incident)
  {
    hide Only, CoverageFold, CellsCleanFor, CellFold, Climbing, HeldUnreported;
    CellsScopedIff(s, incident);
    CoverageScopedIff(s, incident);
    AssignedAreHeld(s, incident);
    AssignedAreHeld(Only(s, incident), incident);
    HeldInSnapshot(s, incident);
    ShowingWithin(CellFold(s), incident, Assigned);
  }
}
