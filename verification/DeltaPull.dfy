/**
 Downlink catch-up, pages taken through a filter, and a run that strands a report.
 */
module DeltaPull {
  import opened Results
  import opened Domain
  import opened EventStore
  import opened Ingestion
  import opened FieldStore
  import opened Queries
  import opened SyncProtocol
  import opened SyncSafety
  import opened OutboxEngine
  import SyncEngine

  /** The whole log is in the phone's local log. */
  ghost predicate HasAll(p: Phone, rows: seq<Row>) {
    forall row :: row in rows ==> row.event.Id() in p.events
  }

  ghost predicate CoveredTo(p: Phone, rows: seq<Row>) {
    forall row :: row in rows && row.serverSeq <= Watermark(p) ==> row.event.Id() in p.events
  }

  /** How many server events are still above the watermark. */
  function Behind(p: Phone, rows: seq<Row>): nat {
    |ReadSince(rows, Watermark(p))|
  }

  lemma {:induction false} FewerAbove(rows: seq<Row>, low: nat, high: nat)
    requires low <= high
    ensures |ReadSince(rows, high)| <= |ReadSince(rows, low)|
    ensures (exists row :: row in rows && low < row.serverSeq <= high) ==>
              |ReadSince(rows, high)| < |ReadSince(rows, low)|
  {
    if rows == [] {
    } else {
      FewerAbove(rows[1..], low, high);
      assert forall row :: row in rows <==> row == rows[0] || row in rows[1..];
    }
  }

  lemma {:induction false} ReceiveAllHasThem(p: Phone, rows: seq<Row>)
    ensures forall k :: k in p.events ==> k in ReceiveAll(p, rows).events
    ensures forall row :: row in rows ==> row.event.Id() in ReceiveAll(p, rows).events
    ensures ReceiveAll(p, rows).watermark == p.watermark
    decreases rows
  {
    if rows == [] {
    } else {
      ReceiveAllHasThem(Receive(p, rows[0]), rows[1..]);
    }
  }

  /** Applying the next page keeps the coverage, and gets strictly closer while there is more. */
  lemma PageMakesProgress(p: Phone, rows: seq<Row>, limit: nat)
    requires Ascending(rows) && CoveredTo(p, rows) && limit >= 1
    ensures var page := PageOf(rows, Watermark(p), limit, Everything);
            var p' := FieldStore.ApplyPage(p, page.events, page.nextSince);
            && CoveredTo(p', rows)
            && (page.hasMore ==> Behind(p', rows) < Behind(p, rows))
            && (!page.hasMore ==> HasAll(p', rows))
            && Watermark(p') == page.nextSince
  {
    var since := Watermark(p);
    var page := PageOf(rows, since, limit, Everything);
    PageIsAWindow(rows, since, limit, Everything);
    assert forall row: Row :: Everything(row);
    hide PageOf, ReceiveAll, Ascending;
    ReceiveAllHasThem(p, page.events);
    FewerAbove(rows, since, page.nextSince);
    if page.hasMore {
      assert page.events[0] in page.events;
    }
  }

  /**
   Fetch and apply until the server reports no more, against a log that stands still:
   the pull terminates and the phone then holds the whole log.
   */
  method PullAll(phone: FieldDatabase, rows: seq<Row>, limit: int) returns (pages: nat)
    requires Ascending(rows) && CoveredTo(phone.db, rows) && 1 <= limit <= MAX_PAGE
    modifies phone
    ensures HasAll(phone.db, rows) && CoveredTo(phone.db, rows)
    ensures Watermark(phone.db) >= MaxServerSeq(rows)
    ensures pages <= Behind(old(phone.db), rows) + 1
  {
    pages := 0;
    var hasMore := true;
    ghost var start := Behind(phone.db, rows);
    while hasMore
      invariant CoveredTo(phone.db, rows)
      invariant !hasMore ==> HasAll(phone.db, rows) && Watermark(phone.db) >= MaxServerSeq(rows)
      invariant hasMore ==> pages + Behind(phone.db, rows) <= start
      invariant pages <= start + 1
      decreases hasMore, Behind(phone.db, rows)
    {
      PageMakesProgress(phone.db, rows, limit);
      PageIsAWindow(rows, Watermark(phone.db), limit, Everything);
      MaxServerSeqExact(rows);
      assert forall row: Row :: Everything(row);
      hide PageOf, FieldStore.ApplyPage, ReadSince, Ascending, CoveredTo, HasAll, MaxServerSeq;
      var r := Delta(rows, Watermark(phone.db), limit, Everything, false);
      var page := r.value;
      var _ := phone.ApplyDeltaPage(page.events, page.nextSince);
      hasMore := page.hasMore;
      pages := pages + 1;
    }
  }

  /**
   What the endpoint's filters would mean for a watermark.  A page taken through `keep`
   keeps everything at or below it local exactly when every hidden row is local already,
   or has the limit's worth of matches before it, or has no match after it.
   */
  lemma FilteredPageKeepsCoverageIff(p: Phone, rows: seq<Row>, limit: nat, keep: Row -> bool)
    requires Ascending(rows) && DeviceOrdered(rows) && CoveredTo(p, rows) && limit >= 1
    ensures var page := PageOf(rows, Watermark(p), limit, keep);
            CoveredTo(FieldStore.ApplyPage(p, page.events, page.nextSince), rows) <==>
            forall row :: row in rows && !keep(row) && row.serverSeq > Watermark(p) ==>
              || row.event.Id() in p.events
              || |MatchesBetween(rows, Watermark(p), row.serverSeq, keep)| >= limit
              || !MatchAfter(rows, row.serverSeq, keep)
  {
    var since := Watermark(p);
    var page := PageOf(rows, since, limit, keep);
    hide PageOf, ReceiveAll, Ascending, DeviceOrdered, MatchesBetween, MatchAfter, FieldStore.ApplyPage;
    CoverageAfterPage(p, rows, limit, keep);
    forall row | row in rows && !keep(row) && row.serverSeq > since
      ensures row.serverSeq <= page.nextSince <==>
              |MatchesBetween(rows, since, row.serverSeq, keep)| < limit && MatchAfter(rows, row.serverSeq, keep)
    {
      PagePassesOverIff(rows, since, limit, keep, row);
    }
  }

  lemma CoverageAfterPage(p: Phone, rows: seq<Row>, limit: nat, keep: Row -> bool)
    requires Ascending(rows) && DeviceOrdered(rows) && CoveredTo(p, rows) && limit >= 1
    ensures var page := PageOf(rows, Watermark(p), limit, keep);
            CoveredTo(FieldStore.ApplyPage(p, page.events, page.nextSince), rows) <==>
            forall row :: row in rows && !keep(row) && Watermark(p) < row.serverSeq <= page.nextSince ==>
              row.event.Id() in p.events
  {
    var since := Watermark(p);
    var page := PageOf(rows, since, limit, keep);
    PageIsAWindow(rows, since, limit, keep);
    ReceiveAllHasThem(p, page.events);
    var p' := FieldStore.ApplyPage(p, page.events, page.nextSince);
    forall row | row in rows && !keep(row) && row.event.Id() in p'.events ensures row.event.Id() in p.events {
      if row.event.Id() !in p.events {
        ReceivedComesFromPage(p, page.events, row.event.Id());
        var shown :| shown in page.events && shown.event.Id() == row.event.Id();
        FindUnique(rows, shown);
        FindUnique(rows, row);
      }
    }
    hide PageOf, ReceiveAll, Ascending, DeviceOrdered;
  }

  /** A page of one team status moves the watermark past the survivor report it hides. */
  lemma FilteredPageHidesAReport()
    ensures var report := Row(CriticalEvent(), 1);
            var status := Row(RoutineEvent(), 2);
            var keep := (row: Row) => row.event.payload.TeamStatusReported?;
            var page := PageOf([report, status], 0, 1, keep);
            && page.events == [status] && page.nextSince == 2
            && Key(DEVICE, 2) !in FieldStore.ApplyPage(NEW_PHONE, page.events, page.nextSince).events
  {
    var report, status := Row(CriticalEvent(), 1), Row(RoutineEvent(), 2);
    var keep := (row: Row) => row.event.payload.TeamStatusReported?;
    var rows := [report, status];
    assert rows[1..] == [status] && [status][1..] == [];
    assert ReadSince([], 0) == [] && ReadSince([status], 0) == [status];
    assert ReadSince(rows, 0) == [report] + ReadSince([status], 0);
    assert ReadSince(rows, 0) == rows;
    assert Matching([status], keep) == [status];
    assert Matching(rows, keep) == [status];
    assert ReceiveAll(NEW_PHONE, [status]) == Receive(NEW_PHONE, status);
  }

  lemma {:induction false} ReceivedComesFromPage(p: Phone, rows: seq<Row>, k: Key)
    requires k in ReceiveAll(p, rows).events && k !in p.events
    ensures exists row :: row in rows && row.event.Id() == k
    decreases rows
  {
    if rows != [] && rows[0].event.Id() != k {
      ReceivedComesFromPage(Receive(p, rows[0]), rows[1..], k);
      var row :| row in rows[1..] && row.event.Id() == k;
      assert row in rows;
    } else if rows != [] {
      assert rows[0] in rows;
    }
  }

  // ------------------------------------------------------- a stranded report

  const ROUTINE_DRAFT := Event(0, 0, TeamStatusReported(Active), 1, 0, 1, 1, 1, 1, 1)
  const CRITICAL_DRAFT := Event(0, 0, SurvivorReported(5, 1, Trapped, None, None, None), 0, 0, 1, 1, 1, 1, 1)
  const DEVICE := 7
  const ROUTINE_KEY := Key(DEVICE, 1)
  const CRITICAL_KEY := Key(DEVICE, 2)

  function RoutineEvent(): Event {
    ROUTINE_DRAFT.(device := DEVICE, seqNo := 1)
  }

  function CriticalEvent(): Event {
    CRITICAL_DRAFT.(device := DEVICE, seqNo := 2)
  }

  /** Author a routine report, then a survivor report, both offline. */
  function Queued(): World {
    RunWorld(Init({DEVICE}), [AuthorStep(DEVICE, ROUTINE_DRAFT, 0), AuthorStep(DEVICE, CRITICAL_DRAFT, 10)])
  }

  function QueuedPhone(): Phone {
    Phone(map[ROUTINE_KEY := LocalEvent(RoutineEvent(), None), CRITICAL_KEY := LocalEvent(CriticalEvent(), None)],
          map[ROUTINE_KEY := OutboxRow(PENDING, false, 0, None, None, 0, None),
              CRITICAL_KEY := OutboxRow(PENDING, true, 0, None, None, 10, None)],
          map[DEVICE := 3], None)
  }

  lemma QueuedIs()
    ensures Queued() == World(EMPTY_LOG, map[DEVICE := QueuedPhone()], {}, {}, {}, {})
  {
    var steps := [AuthorStep(DEVICE, ROUTINE_DRAFT, 0), AuthorStep(DEVICE, CRITICAL_DRAFT, 10)];
    var w0 := Init({DEVICE});
    assert w0.phones == map[DEVICE := NEW_PHONE];
    var w1 := Next(w0, steps[0]);
    var w2 := Next(w1, steps[1]);
    assert w1.phones[DEVICE].counters == map[DEVICE := 2];
    assert w2.phones[DEVICE] == QueuedPhone();
    assert steps[1..][1..] == [];
    assert RunWorld(w0, steps) == RunWorld(w1, steps[1..]) == RunWorld(w2, steps[1..][1..]) == w2;
  }

  /** The drain takes both, the survivor report first. */
  lemma SurvivorDrainsFirst()
    ensures NextBatch(QueuedPhone(), 0, 50, [CRITICAL_KEY, ROUTINE_KEY])
  {
    var p := QueuedPhone();
    assert p.outbox.Keys == {ROUTINE_KEY, CRITICAL_KEY};
  }

  const DRAIN := [CRITICAL_KEY, ROUTINE_KEY]

  function Drained(t: Timing): World {
    QueuedIs();
    RunWorld(Queued(), SyncEngine.PassSteps(Queued(), DEVICE, DRAIN, 1, None, t))
  }

  /**
   One pass over HTTPS without loss: the survivor report is acknowledged, the older routine
   report that followed it in the same request is REJECTED, and no continuation ever gets
   it onto the server.
   */
  lemma CriticalFirstStrandsRoutine(t: Timing)
    ensures DEVICE in Drained(t).phones
    ensures InState(Drained(t).phones[DEVICE], CRITICAL_KEY, ACKED)
    ensures InState(Drained(t).phones[DEVICE], ROUTINE_KEY, REJECTED)
    ensures forall more :: !Stored(RunWorld(Drained(t), more).server.rows, ROUTINE_KEY)
  {
    QueuedIs();
    QueuedReachable();
    DrainIsSelected();
    DrainVerdicts();
    hide SyncEngine.PassSteps, RunWorld, Ingest, Eligible, EligibleMax, Inv, Queued, QueuedPhone;
    SyncEngine.LossFreePassSettles(Queued(), DEVICE, DRAIN, 1, None, t, 0);
    SyncEngine.LossFreePassSettles(Queued(), DEVICE, DRAIN, 1, None, t, 1);
    SyncEngine.PassIsARun(Queued(), DEVICE, DRAIN, 1, None, t);
    forall more ensures !Stored(RunWorld(Drained(t), more).server.rows, ROUTINE_KEY) {
      var ops := ServerPartIsARun(Drained(t), more);
      StrandedForever(ops);
    }
  }

  lemma QueuedReachable()
    ensures Inv(Queued())
  {
    ReachableOk({DEVICE}, [AuthorStep(DEVICE, ROUTINE_DRAFT, 0), AuthorStep(DEVICE, CRITICAL_DRAFT, 10)]);
  }

  lemma DrainIsSelected()
    ensures SyncEngine.Selected(QueuedPhone(), DRAIN)
    ensures EventsFor(QueuedPhone(), DRAIN) == [CriticalEvent(), RoutineEvent()]
  {
    assert DRAIN[1..] == [ROUTINE_KEY] && [ROUTINE_KEY][1..] == [];
    assert EventsFor(QueuedPhone(), [ROUTINE_KEY]) == [RoutineEvent()] + EventsFor(QueuedPhone(), []);
  }

  /** The server's side of the pass: the first event in, the second below the device's maximum. */
  lemma DrainVerdicts()
    ensures var raws, caller := Candidates([CriticalEvent(), RoutineEvent()]), FieldCaller(DEVICE, None);
            && Eligible(raws[0], caller) && Eligible(raws[1], caller)
            && MaxSeq([], DEVICE) == -1 && EligibleMax(raws[..0], caller, DEVICE) == -1 && EligibleMax(raws[..1], caller, DEVICE) == 2
            && Ingest(EMPTY_LOG, raws, caller).0 == Log([Row(CriticalEvent(), 1)], 1)
  {
    var raws, caller := Candidates([CriticalEvent(), RoutineEvent()]), FieldCaller(DEVICE, None);
    assert raws == [Candidate(CriticalEvent()), Candidate(RoutineEvent())];
    assert raws[1..] == [raws[1]] && raws[1..][1..] == [] && raws[..1] == [raws[0]] && raws[..1][1..] == [];
    assert Eligible(raws[0], caller) && Eligible(raws[1], caller);
    assert Judge(EMPTY_LOG, raws[0], caller).0 == Append(EMPTY_LOG, CriticalEvent()).0;
    OneRow();
    var l := Log([Row(CriticalEvent(), 1)], 1);
    assert Append(EMPTY_LOG, CriticalEvent()).0 == l;
    assert Judge(l, raws[1], caller).0 == l;
    assert Ingest(l, raws[1..], caller).0 == Ingest(Judge(l, raws[1], caller).0, [], caller).0;
  }

  lemma OneRow()
    ensures MaxSeq([Row(CriticalEvent(), 1)], DEVICE) == 2
  {
    assert [Row(CriticalEvent(), 1)][..0] == [];
  }

  lemma StrandedForever(ops: seq<Op>)
    ensures !Stored(Run(Log([Row(CriticalEvent(), 1)], 1), ops).rows, ROUTINE_KEY)
  {
    var l := Log([Row(CriticalEvent(), 1)], 1);
    OneRow();
    NeverStored(l, RoutineEvent(), ops);
  }
}
