/** Delta paging over the event log. */
module Queries {
  import opened Results
  import opened EventStore

  const MAX_PAGE := 1000

  datatype DeltaPage = DeltaPage(events: seq<Row>, nextSince: nat, hasMore: bool, currentServerSeq: nat)

  function Matching(rows: seq<Row>, keep: Row -> bool): seq<Row> {
    if rows == [] then [] else (if keep(rows[0]) then [rows[0]] else []) + Matching(rows[1..], keep)
  }

  /** The page a query describes: the first `limit` matching rows above the cursor. */
  function PageOf(rows: seq<Row>, since: nat, limit: nat, keep: Row -> bool): DeltaPage {
    var all := Matching(ReadSince(rows, since), keep);
    var page := if |all| > limit then all[..limit] else all;
    DeltaPage(page, if page != [] then page[|page| - 1].serverSeq else since, |all| > limit, MaxServerSeq(rows))
  }

  /**
   The entity-history branch reads every match; the other asks the table for one row
   more than the page.  Both give the same page.
   */
  method Delta(rows: seq<Row>, since: nat, limit: int, keep: Row -> bool, entityHistory: bool)
      returns (r: Option<DeltaPage>)
    ensures r == if 1 <= limit <= 1_000 then Some(PageOf(rows, since, limit, keep)) else None
  {
    if limit < 1 || limit > MAX_PAGE {
      return None;
    }
    var all := Matching(ReadSince(rows, since), keep);
    var events := all;
    if !entityHistory && |all| > limit + 1 {
      events := all[..limit + 1];
    }
    var hasMore := |events| > limit;
    var page := if |events| > limit then events[..limit] else events;
    assert |all| > limit ==> page == all[..limit];
    r := Some(DeltaPage(page, if page != [] then page[|page| - 1].serverSeq else since, hasMore, MaxServerSeq(rows)));
  }

  ghost predicate Ascending(rows: seq<Row>) {
    forall i, j :: 0 <= i < j < |rows| ==> rows[i].serverSeq < rows[j].serverSeq
  }

  lemma FirstIsBelowRest(rows: seq<Row>)
    requires Ascending(rows) && rows != []
    ensures Ascending(rows[1..]) && forall row :: row in rows[1..] ==> rows[0].serverSeq < row.serverSeq
  {
    forall row | row in rows[1..] ensures rows[0].serverSeq < row.serverSeq {
      var j :| 0 <= j < |rows[1..]| && rows[1..][j] == row;
      assert rows[j + 1] == row;
    }
  }

  lemma InFront(row: Row, rest: seq<Row>)
    requires Ascending(rest)
    ensures (forall r :: r in rest ==> row.serverSeq < r.serverSeq) ==> Ascending([row] + rest)
    ensures [] + rest == rest
  {
  }

  lemma {:induction false} ReadSinceExact(rows: seq<Row>, since: nat)
    requires Ascending(rows)
    ensures Ascending(ReadSince(rows, since))
    ensures forall row :: row in ReadSince(rows, since) <==> row in rows && row.serverSeq > since
  {
    if rows == [] {
    } else {
      FirstIsBelowRest(rows);
      ReadSinceExact(rows[1..], since);
      hide Ascending;
      InFront(rows[0], ReadSince(rows[1..], since));
      assert forall row :: row in rows <==> row == rows[0] || row in rows[1..];
    }
  }

  lemma {:induction false} MatchingExact(rows: seq<Row>, keep: Row -> bool)
    requires Ascending(rows)
    ensures Ascending(Matching(rows, keep))
    ensures forall row :: row in Matching(rows, keep) <==> row in rows && keep(row)
  {
    if rows == [] {
    } else {
      FirstIsBelowRest(rows);
      MatchingExact(rows[1..], keep);
      hide Ascending;
      InFront(rows[0], Matching(rows[1..], keep));
      assert forall row :: row in rows <==> row == rows[0] || row in rows[1..];
    }
  }

  lemma {:induction false} MaxServerSeqExact(rows: seq<Row>)
    ensures forall row :: row in rows ==> row.serverSeq <= MaxServerSeq(rows)
    ensures rows != [] ==> exists row :: row in rows && row.serverSeq == MaxServerSeq(rows)
  {
    if rows == [] {
    } else {
      var front, last := rows[..|rows| - 1], rows[|rows| - 1];
      MaxServerSeqExact(front);
      assert rows == front + [last];
      assert last in rows;
      if front == [] {
        assert MaxServerSeq(front) == 0;
      } else {
        var top :| top in front && top.serverSeq == MaxServerSeq(front);
        assert top in rows;
      }
    }
  }

  /**
   A page is a complete window: it holds exactly the matching rows after the cursor up
   to its own next cursor, and when it says there is no more, no match lies beyond.
   */
  lemma PageIsAWindow(rows: seq<Row>, since: nat, limit: nat, keep: Row -> bool)
    requires Ascending(rows) && limit >= 1
    ensures var page := PageOf(rows, since, limit, keep);
            && since <= page.nextSince
            && (page.nextSince == since || page.nextSince <= MaxServerSeq(rows))
            && (forall row :: row in page.events <==>
                  row in rows && keep(row) && since < row.serverSeq <= page.nextSince)
            && (!page.hasMore ==> forall row :: row in rows && keep(row) && row.serverSeq > since ==>
                                    row.serverSeq <= page.nextSince)
            && (page.hasMore ==> |page.events| == limit)
  {
    hide Ascending, MaxServerSeq, Matching, ReadSince;
    var all := Matching(ReadSince(rows, since), keep);
    MatchesAbove(rows, since, keep);
    if all != [] {
      PrefixIsAWindow(all, if |all| > limit then limit else |all|);
      assert |all| <= limit ==> all[..|all|] == all;
    }
  }

  /** A page's rows climb, its next cursor is its last row's position, and it reports the highest position of the table. */
  lemma PageFields(rows: seq<Row>, since: nat, limit: nat, keep: Row -> bool)
    requires Ascending(rows)
    ensures var page := PageOf(rows, since, limit, keep);
            && Ascending(page.events)
            && page.nextSince == (if page.events == [] then since else page.events[|page.events| - 1].serverSeq)
            && (forall row :: row in rows ==> row.serverSeq <= page.currentServerSeq)
            && (if rows == [] then page.currentServerSeq == 0
                else exists row :: row in rows && row.serverSeq == page.currentServerSeq)
  {
    MaxServerSeqExact(rows);
    assert rows == [] ==> MaxServerSeq(rows) == 0;
    MatchesAbove(rows, since, keep);
    PrefixAscends(Matching(ReadSince(rows, since), keep), limit);
    hide Ascending, MaxServerSeq, Matching, ReadSince;
  }

  lemma PrefixAscends(all: seq<Row>, n: nat)
    ensures Ascending(all) && |all| > n ==> Ascending(all[..n])
  {
  }

  /** The matches strictly between two positions. */
  function MatchesBetween(rows: seq<Row>, since: nat, position: nat, keep: Row -> bool): seq<Row> {
    Matching(ReadSince(rows, since), Below(keep, position))
  }

  function Below(keep: Row -> bool, position: nat): Row -> bool {
    (row: Row) => keep(row) && row.serverSeq < position
  }

  ghost predicate MatchAfter(rows: seq<Row>, position: nat, keep: Row -> bool) {
    exists row :: row in rows && keep(row) && row.serverSeq > position
  }

  /** A page passes over a row it hides exactly when a match follows and fewer than the limit precede it. */
  lemma PagePassesOverIff(rows: seq<Row>, since: nat, limit: nat, keep: Row -> bool, hidden: Row)
    requires Ascending(rows) && limit >= 1 && hidden in rows && !keep(hidden) && hidden.serverSeq > since
    ensures hidden.serverSeq <= PageOf(rows, since, limit, keep).nextSince <==>
            |MatchesBetween(rows, since, hidden.serverSeq, keep)| < limit && MatchAfter(rows, hidden.serverSeq, keep)
  {
    hide Matching, ReadSince, Ascending, Below;
    var all := Matching(ReadSince(rows, since), keep);
    MatchesAbove(rows, since, keep);
    ReadSinceExact(rows, since);
    var n := MatchesAreAPrefix(ReadSince(rows, since), hidden.serverSeq, keep);
    NoMatchAt(rows, hidden, keep);
    MatchAfterIff(rows, all, hidden.serverSeq, since, keep, n);
    if all != [] {
      var last := (if |all| > limit then limit else |all|) - 1;
      assert all[last] in all;
      assert |all| > limit ==> all[..limit][limit - 1] == all[last];
    }
  }

  /** A match lies beyond the position exactly when not all of them are below it. */
  lemma MatchAfterIff(rows: seq<Row>, all: seq<Row>, position: nat, since: nat, keep: Row -> bool, n: nat)
    requires n <= |all| && position > since
    requires forall row :: row in all <==> row in rows && keep(row) && row.serverSeq > since
    requires forall row :: row in rows && keep(row) ==> row.serverSeq != position
    requires forall i :: 0 <= i < n ==> all[i].serverSeq < position
    requires forall i :: n <= i < |all| ==> all[i].serverSeq >= position
    ensures MatchAfter(rows, position, keep) <==> n < |all|
  {
    if n < |all| {
      assert all[n] in all;
    }
    if row :| row in rows && keep(row) && row.serverSeq > position {
      assert row in all;
    }
  }

  lemma NoMatchAt(rows: seq<Row>, hidden: Row, keep: Row -> bool)
    requires Ascending(rows) && hidden in rows && !keep(hidden)
    ensures forall row :: row in rows && keep(row) ==> row.serverSeq != hidden.serverSeq
  {
    forall row | row in rows && keep(row) ensures row.serverSeq != hidden.serverSeq {
      var i :| 0 <= i < |rows| && rows[i] == row;
      var j :| 0 <= j < |rows| && rows[j] == hidden;
    }
  }

  /** The matches below a position are the first ones. */
  lemma {:induction false} MatchesAreAPrefix(rows: seq<Row>, position: nat, keep: Row -> bool) returns (n: nat)
    requires Ascending(rows)
    ensures var all := Matching(rows, keep);
            && n == |Matching(rows, Below(keep, position))| && n <= |all|
            && (forall i :: 0 <= i < n ==> all[i].serverSeq < position)
            && (forall i :: n <= i < |all| ==> all[i].serverSeq >= position)
  {
    if rows == [] {
      n := 0;
    } else {
      FirstIsBelowRest(rows);
      hide Ascending;
      var rest := MatchesAreAPrefix(rows[1..], position, keep);
      var all := Matching(rows[1..], keep);
      n := rest + if keep(rows[0]) && rows[0].serverSeq < position then 1 else 0;
      if rows[0].serverSeq >= position {
        RestIsAbove(rows, keep, position);
        assert all != [] ==> all[0] in all && all[0].serverSeq >= position;
        assert rest == 0;
      }
      assert Matching(rows, keep) == (if keep(rows[0]) then [rows[0]] else []) + all;
      assert |Matching(rows, Below(keep, position))| == n;
      hide Matching, Below;
      if keep(rows[0]) {
        assert forall i :: 0 < i <= |all| ==> ([rows[0]] + all)[i] == all[i - 1];
      } else {
        assert [] + all == all;
      }
    }
  }

  lemma RestIsAbove(rows: seq<Row>, keep: Row -> bool, position: nat)
    requires Ascending(rows) && rows != [] && rows[0].serverSeq >= position
    ensures forall row :: row in Matching(rows[1..], keep) ==> row.serverSeq >= position
  {
    FirstIsBelowRest(rows);
    MatchingExact(rows[1..], keep);
  }

  lemma MatchesAbove(rows: seq<Row>, since: nat, keep: Row -> bool)
    requires Ascending(rows)
    ensures var all := Matching(ReadSince(rows, since), keep);
            && Ascending(all)
            && (forall row :: row in all <==> row in rows && keep(row) && row.serverSeq > since)
            && (forall row :: row in all ==> row.serverSeq <= MaxServerSeq(rows))
  {
    hide Ascending, Matching, ReadSince, MaxServerSeq;
    ReadSinceExact(rows, since);
    MatchingExact(ReadSince(rows, since), keep);
    MaxServerSeqExact(rows);
  }

  lemma PrefixIsAWindow(all: seq<Row>, n: nat)
    requires Ascending(all) && 1 <= n <= |all|
    ensures forall row :: row in all[..n] <==> row in all && row.serverSeq <= all[n - 1].serverSeq
    ensures all[n - 1] in all
  {
    forall row | row in all && row.serverSeq <= all[n - 1].serverSeq ensures row in all[..n] {
      var i :| 0 <= i < |all| && all[i] == row;
      assert all[..n][i] == row;
    }
  }
}
