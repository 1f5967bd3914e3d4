/**
 A waiting row without an SMS form that has the lowest `seq` of its pass sets the base of the
 batch.  Once every report that waits is more than 63 events past it, nothing can be sent
 over SMS, pass after pass, until enough CRITICAL rows wait to push the row out of the trim.
 */
module BlockedQueue {
  import opened BitStrings
  import opened Results
  import opened Domain
  import opened Wire
  import opened Sorting
  import opened FieldStore
  import opened Transport
  import opened OutboxEngine
  import opened SmsBatchEncoder
  import opened SmsTrim
  import opened SyncProtocol
  import opened SmsUplink
  import SyncEngine

  /** Not yet settled: waiting or in flight. */
  predicate Unsettled(p: Phone, k: Key) {
    InState(p, k, PENDING) || InState(p, k, IN_FLIGHT)
  }

  /** Counting from `f`, this row has no form. */
  predicate NoFormFrom(p: Phone, k: Key, f: Key)
    requires k in p.events
  {
    !p.events[k].event.payload.SmsEligible() || k.seqNo > f.seqNo + MAX_SEQ_DELTA
  }

  /** A row's tier is its event's. */
  ghost predicate Tiered(p: Phone) {
    forall k :: k in p.outbox && k in p.events ==> p.outbox[k].critical == p.events[k].event.payload.Critical()
  }

  /** `f` waits and is due; it is the oldest of the ROUTINE rows, has the lowest `seq`, and reaches no report. */
  ghost predicate Blocked(p: Phone, d: int, f: Key, now: int) {
    && LocalOk(d, p) && Tiered(p)
    && Sendable(p, f, now) && f in p.events && !p.events[f].event.payload.SmsEligible()
    && (forall k :: Unsettled(p, k) && k in p.events && k != f ==>
          && k.seqNo > f.seqNo && NoFormFrom(p, k, f)
          && (p.outbox[k].critical || p.outbox[k].firstQueuedAt >= p.outbox[f].firstQueuedAt))
    && NextSeq(p, d) > f.seqNo + MAX_SEQ_DELTA
  }

  function CriticalWaiting(p: Phone, now: int): set<Key> {
    set k | k in p.outbox && Sendable(p, k, now) && p.outbox[k].critical
  }

  /** How many rows a pass keeps at most: those selected, then trimmed. */
  function Room(limit: nat): nat {
    if limit < TRIM then limit else TRIM
  }

  // -------------------------------------------------- where the trim cuts the drain

  lemma {:induction false} DistinctSize(keys: seq<Key>, s: set<Key>)
    requires Distinct(keys) && forall k :: k in keys ==> k in s
    ensures |keys| <= |s|
  {
    if keys == [] {
    } else {
      assert forall i, j :: 0 <= i < j < |keys[1..]| ==> keys[1..][i] != keys[1..][j];
      assert keys[0] !in keys[1..];
      DistinctSize(keys[1..], s - {keys[0]});
    }
  }

  lemma {:induction false} CoveredSize(s: set<Key>, keys: seq<Key>)
    requires forall k :: k in s ==> k in keys
    ensures |s| <= |keys|
  {
    if keys == [] {
      assert s == {};
    } else {
      var rest := s - {keys[0]};
      CoveredSize(rest, keys[1..]);
      assert s <= rest + {keys[0]};
      assert |s| <= |rest + {keys[0]}| <= |rest| + 1;
    }
  }

  /** Only CRITICAL rows drain before the oldest ROUTINE row. */
  lemma BeforeOldest(p: Phone, d: int, f: Key, now: int, k: Key)
    requires Blocked(p, d, f, now) && Sendable(p, k, now) && k != f && DrainsBefore(p, k, f)
    ensures p.outbox[k].critical
  {
    assert Unsettled(p, k) && k in p.events;
  }

  /** With fewer CRITICAL rows waiting than a pass keeps, the row is among those kept. */
  lemma FewCriticalKeepIt(p: Phone, d: int, f: Key, now: int, limit: nat, rows: seq<Key>)
    requires Blocked(p, d, f, now) && NextBatch(p, now, limit, rows)
    requires |CriticalWaiting(p, now)| < Room(limit)
    ensures f in Fit(rows, MAX_BATCH_BYTES)
  {
    FitKeepsFirst(rows);
    hide Blocked, Fit, Sendable, DrainsBefore;
    var waiting := CriticalWaiting(p, now);
    FIsThere(p, d, f, now, limit, rows);
    var j :| 0 <= j < |rows| && rows[j] == f;
    forall k | k in rows[..j] ensures k in waiting {
      var i :| 0 <= i < j && rows[i] == k;
      assert rows[i] in rows;
      InOutbox(p, k, now);
      BeforeOldest(p, d, f, now, k);
    }
    DistinctSize(rows[..j], waiting);
    assert |rows| > TRIM ==> rows[..TRIM][j] == f;
  }

  lemma InOutbox(p: Phone, k: Key, now: int)
    requires Sendable(p, k, now)
    ensures k in p.outbox
  {
  }

  lemma FIsThere(p: Phone, d: int, f: Key, now: int, limit: nat, rows: seq<Key>)
    requires Blocked(p, d, f, now) && NextBatch(p, now, limit, rows)
    requires |CriticalWaiting(p, now)| < Room(limit)
    ensures f in rows
  {
    assert Sendable(p, f, now);
    InOutbox(p, f, now);
    hide Blocked, Sendable, DrainsBefore;
    if f !in rows {
      forall k | k in rows ensures k in CriticalWaiting(p, now) {
        InOutbox(p, k, now);
        BeforeOldest(p, d, f, now, k);
      }
      DistinctSize(rows, CriticalWaiting(p, now));
    }
  }

  /** With as many of them waiting, all rows kept are CRITICAL. */
  lemma ManyCriticalFillIt(p: Phone, now: int, limit: nat, rows: seq<Key>)
    requires NextBatch(p, now, limit, rows)
    requires |CriticalWaiting(p, now)| >= Room(limit)
    ensures |Fit(rows, MAX_BATCH_BYTES)| == Room(limit)
    ensures forall k :: k in Fit(rows, MAX_BATCH_BYTES) ==> k in CriticalWaiting(p, now)
  {
    FitKeepsFirst(rows);
    hide Fit, Sendable, DrainsBefore;
    var waiting := CriticalWaiting(p, now);
    if |rows| < Room(limit) {
      CoveredSize(waiting, rows);
    }
    forall i | 0 <= i < Room(limit) ensures rows[i] in waiting {
      assert rows[i] in rows;
      InOutbox(p, rows[i], now);
      if !p.outbox[rows[i]].critical {
        forall c | c in waiting ensures c in rows[..i] {
          CriticalGoesFirst(p, now, limit, rows, c, i);
        }
        CoveredSize(waiting, rows[..i]);
      }
    }
  }

  // ----------------------------------------------------------- what can be packed

  lemma {:induction false} LoadHas(rows: seq<Key>, log: map<Key, Event>, k: Key)
    requires k in rows && k in log
    ensures Loaded(k, log[k]) in Load(rows, log)
  {
    if rows[0] == k {
    } else {
      LoadHas(rows[1..], log, k);
    }
  }

  lemma OrderedHas(rows: seq<Key>, log: map<Key, Event>)
    ensures Sorted(SeqLe, Ordered(rows, log))
    ensures forall k :: k in rows && k in log ==> Loaded(k, log[k]) in Ordered(rows, log)
    ensures forall x :: x in Ordered(rows, log) ==> x.row in rows && x.row in log && x.ev == log[x.row]
  {
    assert TotalPreorder(SeqLe);
    SortSorts(SeqLe, Load(rows, log));
    SameMembers(Load(rows, log), Ordered(rows, log));
    hide Load, Sort;
    forall k | k in rows && k in log ensures Loaded(k, log[k]) in Ordered(rows, log) {
      LoadHas(rows, log, k);
    }
  }

  /** Counting from the row, nothing has a form. */
  lemma NothingReached(p: Phone, d: int, f: Key, now: int, k: Key, incidentStart: int)
    requires Blocked(p, d, f, now) && Unsettled(p, k) && k in p.events
    ensures ToWire(p.events[k].event, BaseOf(p.events[f].event, incidentStart)).None?
    ensures k != f ==> p.events[k].event.seqNo > p.events[f].event.seqNo
  {
    assert p.events[k].event.Id() == k && p.events[f].event.Id() == f;
  }

  /** Any list of unsettled rows that holds the row packs to nothing. */
  lemma OldRowBlocksSurvivor(p: Phone, d: int, f: Key, now: int, rows: seq<Key>, incidentStart: int)
    requires Blocked(p, d, f, now) && f in rows && forall k :: k in rows ==> Unsettled(p, k)
    ensures var ordered := Ordered(rows, LocalLog(p));
            ordered != [] && Chosen(ordered, incidentStart).wire == [] && !Packable(ordered, incidentStart)
  {
    var log, ordered := LocalLog(p), Ordered(rows, LocalLog(p));
    OrderedHas(rows, log);
    assert f in p.events;
    hide Ordered, Blocked, ToWire, Select, Unsettled, BaseOf;
    assert Loaded(f, log[f]) in ordered;
    var j :| 0 <= j < |ordered| && ordered[j] == Loaded(f, log[f]);
    assert j > 0 ==> SeqLe(ordered[0], ordered[j]);
    assert ordered[0] in ordered;
    NothingReached(p, d, f, now, ordered[0].row, incidentStart);
    assert ordered[0] == Loaded(f, log[f]);
    forall x | x in ordered ensures ToWire(x.ev, BaseOf(ordered[0].ev, incidentStart)).None? {
      NothingReached(p, d, f, now, x.row, incidentStart);
    }
    SelectNonEmptyIff(ordered, BaseOf(ordered[0].ev, incidentStart));
  }

  /** A list of CRITICAL rows that do not predate the incident packs at least the first of them. */
  lemma CriticalPacks(p: Phone, d: int, rows: seq<Key>, incidentStart: int)
    requires LocalOk(d, p) && Tiered(p) && rows != []
    requires forall k :: k in rows ==> k in p.outbox && p.outbox[k].critical
    requires forall k :: k in rows && k in p.events ==> Seconds(p.events[k].event.tDev) >= incidentStart
    ensures var ordered := Ordered(rows, LocalLog(p)); ordered != [] && Chosen(ordered, incidentStart).wire != []
  {
    var log, ordered := LocalLog(p), Ordered(rows, LocalLog(p));
    OrderedHas(rows, log);
    hide Ordered, Select, Seconds;
    assert rows[0] in rows && rows[0] in log;
    var first := ordered[0];
    assert first in ordered && first.row in rows;
    assert first.ev.payload.Critical();
    assert ToWire(first.ev, BaseOf(first.ev, incidentStart)).Some?;
    SelectNonEmptyIff(ordered, BaseOf(first.ev, incidentStart));
  }

  /**
   A blocked phone packs nothing if and only if fewer CRITICAL rows wait than a pass keeps, 22
   with the default limit (none of them from before the incident); and whatever waits,
   untrimmed it would pack nothing: the trim can also help.
   */
  lemma BlockedUntil(p: Phone, d: int, f: Key, now: int, limit: nat, rows: seq<Key>, incidentStart: int)
    requires Blocked(p, d, f, now) && NextBatch(p, now, limit, rows) && limit >= 1
    requires forall k :: k in CriticalWaiting(p, now) && k in p.events ==> Seconds(p.events[k].event.tDev) >= incidentStart
    ensures var kept, all := Ordered(Fit(rows, MAX_BATCH_BYTES), LocalLog(p)), Ordered(rows, LocalLog(p));
            && kept != [] && all != []
            && (Chosen(kept, incidentStart).wire == [] <==> |CriticalWaiting(p, now)| < Room(limit))
            && (f in rows ==> Chosen(all, incidentStart).wire == [])
  {
    FitKeepsFirst(rows);
    RowsUnsettled(p, now, limit, rows);
    assert LocalOk(d, p) && Tiered(p);
    hide Blocked, Fit, Select, Ordered, Unsettled, NextBatch, LocalOk, Tiered;
    if |CriticalWaiting(p, now)| < Room(limit) {
      FewCriticalKeepIt(p, d, f, now, limit, rows);
      OldRowBlocksSurvivor(p, d, f, now, Fit(rows, MAX_BATCH_BYTES), incidentStart);
    } else {
      ManyCriticalFillIt(p, now, limit, rows);
      CriticalPacks(p, d, Fit(rows, MAX_BATCH_BYTES), incidentStart);
    }
    if f in rows {
      OldRowBlocksSurvivor(p, d, f, now, rows, incidentStart);
    }
    PickedFirst(rows, LocalLog(p));
  }

  lemma RowsUnsettled(p: Phone, now: int, limit: nat, rows: seq<Key>)
    requires NextBatch(p, now, limit, rows)
    ensures Distinct(rows) && forall k :: k in rows ==> Unsettled(p, k)
  {
    hide DrainsBefore;
  }

  // ----------------------------------------------------------------- pass after pass

  /** While fewer CRITICAL rows wait than a pass keeps, a pass over SMS raises an exception, if it does not find nothing to do. */
  lemma BlockedPassThrows(p: Phone, d: int, f: Key, now: int, limit: nat, available: bool, incidentStart: int,
                          secret: Option<seq<Octet>>, batchRef: int, at: int, draws: map<Key, Draw>, r: SmsResult, p': Phone)
    requires Blocked(p, d, f, now) && |CriticalWaiting(p, now)| < Room(limit)
    requires SmsPass(p, now, limit, available, incidentStart, secret, batchRef, at, draws, r, p')
    ensures p' == p && r == if available && CriticalWaiting(p, now) != {} then Threw else Idle
  {
    hide Blocked, Ordered, Packable, SyncEngine.AfterSend, SyncEngine.Decides, CriticalWaiting;
    var c :| SyncEngine.Decides(p, now, limit, [SmsCapabilities(available)], SyncEngine.Sms, c)
             && SmsEnds(p, c, available, incidentStart, secret, batchRef, at, draws, r, p');
    BlockedDecision(p, d, f, now, limit, available, incidentStart, c);
  }

  /** What such a pass decides: a batch exactly when a CRITICAL row waits and SMS is available, and one that cannot be packed. */
  lemma BlockedDecision(p: Phone, d: int, f: Key, now: int, limit: nat, available: bool, incidentStart: int,
                        c: SyncEngine.Chosen)
    requires Blocked(p, d, f, now) && |CriticalWaiting(p, now)| < Room(limit)
    requires SyncEngine.Decides(p, now, limit, [SmsCapabilities(available)], SyncEngine.Sms, c)
    ensures c.Batch? <==> available && CriticalWaiting(p, now) != {}
    ensures c.Batch? ==> !Packable(Ordered(c.rows, LocalLog(p)), incidentStart)
  {
    hide Blocked, Ordered, Packable, NextBatch, Fit, CriticalWaiting;
    var transports := [SmsCapabilities(available)];
    var rows, picked :| NextBatch(p, now, limit, rows) && Picks(transports, SyncEngine.HasCritical(p, rows), picked)
                        && SyncEngine.Outcome(rows, picked, SyncEngine.Sms, c);
    FewCriticalKeepIt(p, d, f, now, limit, rows);
    FitOfRows(rows);
    CriticalSelected(p, d, f, now, limit, rows);
    RowsUnsettled(p, now, limit, rows);
    OldRowBlocksSurvivor(p, d, f, now, Fit(rows, MAX_BATCH_BYTES), incidentStart);
    OnlySms(available, SyncEngine.HasCritical(p, rows), picked);
    hide SyncEngine.HasCritical, SyncEngine.FitFor, Unsettled, Picks;
  }

  /** With SMS alone it is picked for a CRITICAL batch while available, and never for a ROUTINE one. */
  lemma OnlySms(available: bool, critical: bool, picked: Option<Capabilities>)
    requires Picks([SmsCapabilities(available)], critical, picked)
    ensures picked == if available && critical then Some(SmsCapabilities(available)) else None
  {
    assert Usable([SmsCapabilities(available)][0], critical) <==> available && critical;
  }

  lemma FitOfRows(rows: seq<Key>)
    ensures forall k :: k in Fit(rows, MAX_BATCH_BYTES) ==> k in rows
    ensures SyncEngine.FitFor(SyncEngine.Sms, rows, MAX_BATCH_BYTES) == Fit(rows, MAX_BATCH_BYTES)
  {
    FitKeepsFirst(rows);
  }

  /** The select brings a CRITICAL row exactly when one waits. */
  lemma CriticalSelected(p: Phone, d: int, f: Key, now: int, limit: nat, rows: seq<Key>)
    requires Blocked(p, d, f, now) && NextBatch(p, now, limit, rows) && f in rows
    ensures SyncEngine.HasCritical(p, rows) <==> CriticalWaiting(p, now) != {}
  {
    assert f in p.outbox && !p.outbox[f].critical;
    hide Blocked, DrainsBefore, Sendable;
    if c :| c in CriticalWaiting(p, now) {
      var j :| 0 <= j < |rows| && rows[j] == f;
      CriticalGoesFirst(p, now, limit, rows, c, j);
    }
    if k :| k in rows && k in p.outbox && p.outbox[k].critical {
      assert k in CriticalWaiting(p, now);
    }
  }

  /** What the phone does while it only has SMS. */
  datatype OfflineStep =
    | Write(draft: Event, written: int)
    | Try(now: int, limit: nat, available: bool, incidentStart: int, secret: Option<seq<Octet>>, batchRef: int, at: int,
          draws: map<Key, Draw>, result: SmsResult)
    | Restart

  function Written(p: Phone, d: int, draft: Event, at: int): Phone {
    if AppendAuthored(p, d, draft, at).Some? then AppendAuthored(p, d, draft, at).value else p
  }

  ghost predicate Moves(p: Phone, d: int, step: OfflineStep, p': Phone) {
    match step
    case Write(draft, at) => p' == Written(p, d, draft, at)
    case Try(now, limit, available, start, secret, batchRef, at, draws, r) =>
      SmsPass(p, now, limit, available, start, secret, batchRef, at, draws, r, p')
    case Restart => p' == Reclaim(p)
  }

  ghost predicate Trace(d: int, states: seq<Phone>, steps: seq<OfflineStep>) {
    |states| == |steps| + 1 && forall i :: 0 <= i < |steps| ==> Moves(states[i], d, steps[i], states[i + 1])
  }

  /** Writing adds one waiting row under the next `seq`, of its event's tier, and changes no other. */
  lemma WritingAddsARow(p: Phone, d: int, draft: Event, at: int)
    requires LocalOk(d, p) && Tiered(p)
    ensures var p', k, e := Written(p, d, draft, at), Key(d, NextSeq(p, d)), draft.(device := d, seqNo := NextSeq(p, d));
            && LocalOk(d, p') && Tiered(p') && NextSeq(p', d) == NextSeq(p, d) + 1
            && k !in p.events && k !in p.outbox
            && p'.events == p.events[k := LocalEvent(e, None)]
            && p'.outbox == p.outbox[k := OutboxRow(PENDING, e.payload.Critical(), 0, None, None, at, None)]
  {
  }

  lemma WritingKeepsBlocked(p: Phone, d: int, f: Key, now: int, draft: Event, at: int)
    requires Blocked(p, d, f, now) && at >= p.outbox[f].firstQueuedAt
    ensures var p' := Written(p, d, draft, at);
            Blocked(p', d, f, now) && f in p'.outbox && p'.outbox[f] == p.outbox[f]
  {
    hide LocalOk, Tiered, Written;
    WritingAddsARow(p, d, draft, at);
  }

  lemma RestartKeepsBlocked(p: Phone, d: int, f: Key, now: int)
    requires Blocked(p, d, f, now)
    ensures var p' := Reclaim(p); Blocked(p', d, f, now) && f in p'.outbox && p'.outbox[f] == p.outbox[f]
  {
    assert forall k :: Unsettled(Reclaim(p), k) ==> Unsettled(p, k);
  }

  lemma BlockedLater(p: Phone, d: int, f: Key, now: int, later: int)
    requires Blocked(p, d, f, now) && now <= later
    ensures Blocked(p, d, f, later)
  {
  }

  /** The clock never shows a time before the row was queued, or, in a pass, before it was due. */
  ghost predicate InTime(step: OfflineStep, queuedAt: int, due: int) {
    match step
    case Write(_, at) => at >= queuedAt
    case Try(now, _, _, _, _, _, _, _, _) => now >= due
    case Restart => true
  }

  ghost predicate FewCritical(p: Phone, step: OfflineStep) {
    step.Try? ==> |CriticalWaiting(p, step.now)| < Room(step.limit)
  }

  ghost predicate SendsNothing(p: Phone, step: OfflineStep, p': Phone) {
    step.Try? ==> p' == p && step.result == if step.available && CriticalWaiting(p, step.now) != {} then Threw else Idle
  }

  ghost predicate AllInTime(steps: seq<OfflineStep>, queuedAt: int, due: int) {
    forall i :: 0 <= i < |steps| ==> InTime(steps[i], queuedAt, due)
  }

  ghost predicate AlwaysFewCritical(states: seq<Phone>, steps: seq<OfflineStep>)
    requires |states| == |steps| + 1
  {
    forall i :: 0 <= i < |steps| ==> FewCritical(states[i], steps[i])
  }

  lemma TraceTail(d: int, states: seq<Phone>, steps: seq<OfflineStep>, queuedAt: int, due: int)
    requires Trace(d, states, steps) && steps != []
    requires AllInTime(steps, queuedAt, due) && AlwaysFewCritical(states, steps)
    ensures Moves(states[0], d, steps[0], states[1]) && InTime(steps[0], queuedAt, due) && FewCritical(states[0], steps[0])
    ensures Trace(d, states[1..], steps[1..])
    ensures AllInTime(steps[1..], queuedAt, due) && AlwaysFewCritical(states[1..], steps[1..])
  {
    hide Moves, InTime, FewCritical;
    var states', steps' := states[1..], steps[1..];
    assert forall i :: 0 <= i < |steps'| ==> steps'[i] == steps[i + 1];
    assert forall i :: 0 <= i < |states'| ==> states'[i] == states[i + 1];
    forall i | 0 <= i < |steps'| ensures Moves(states'[i], d, steps'[i], states'[i + 1]) {
      assert Moves(states[i + 1], d, steps[i + 1], states[i + 1 + 1]);
    }
  }

  /**
   However the phone goes on writing, restarting and trying, as long as fewer CRITICAL rows
   wait at each try than it keeps, every try that has something CRITICAL to send raises an
   exception and changes nothing.
   */
  lemma {:induction false} BlockedForAsLong(d: int, states: seq<Phone>, steps: seq<OfflineStep>, f: Key, due: int, i: nat)
    requires Trace(d, states, steps) && Blocked(states[0], d, f, due) && f in states[0].outbox
    requires AllInTime(steps, states[0].outbox[f].firstQueuedAt, due) && AlwaysFewCritical(states, steps)
    requires i < |steps|
    ensures SendsNothing(states[i], steps[i], states[i + 1])
    ensures Blocked(states[i + 1], d, f, due)
    decreases |steps|
  {
    hide Moves, Blocked, InTime, FewCritical, SendsNothing, Trace, AllInTime, AlwaysFewCritical;
    TraceLength(d, states, steps);
    TraceTail(d, states, steps, states[0].outbox[f].firstQueuedAt, due);
    StepKeepsBlocked(states[0], d, steps[0], states[1], f, due);
    if i == 0 {
    } else {
      BlockedForAsLong(d, states[1..], steps[1..], f, due, i - 1);
    }
  }

  lemma TraceLength(d: int, states: seq<Phone>, steps: seq<OfflineStep>)
    requires Trace(d, states, steps)
    ensures |states| == |steps| + 1
  {
  }

  lemma StepKeepsBlocked(p: Phone, d: int, step: OfflineStep, p': Phone, f: Key, due: int)
    requires Moves(p, d, step, p') && Blocked(p, d, f, due)
    requires InTime(step, p.outbox[f].firstQueuedAt, due) && FewCritical(p, step)
    ensures SendsNothing(p, step, p')
    ensures Blocked(p', d, f, due) && f in p'.outbox && p'.outbox[f].firstQueuedAt == p.outbox[f].firstQueuedAt
  {
    assert f in p.outbox;
    hide Blocked, SmsPass;
    match step
    case Write(draft, at) => WritingKeepsBlocked(p, d, f, due, draft, at);
    case Try(now, limit, available, start, secret, batchRef, at, draws, r) =>
      BlockedLater(p, d, f, due, now);
      BlockedPassThrows(p, d, f, now, limit, available, start, secret, batchRef, at, draws, r, p');
    case Restart => RestartKeepsBlocked(p, d, f, due);
  }

  // ----------------------------------------------------------- how a phone gets there

  /** A new phone that has written `n` position fixes and reached nobody. */
  function AfterFixes(d: int, fix: Event, n: nat): Phone {
    if n == 0 then NEW_PHONE else Written(AfterFixes(d, fix, n - 1), d, fix, n)
  }

  ghost predicate OnlyFixes(p: Phone, d: int, n: nat) {
    && LocalOk(d, p) && Tiered(p) && NextSeq(p, d) == n + 1
    && (forall k :: k in p.outbox <==> k.device == d && 1 <= k.seqNo <= n)
    && (forall k :: k in p.outbox && k in p.events ==>
          && p.outbox[k] == OutboxRow(PENDING, false, 0, None, None, k.seqNo, None)
          && p.events[k].event.payload.PositionReported?)
  }

  lemma {:induction false} FixesPileUp(d: int, fix: Event, n: nat)
    requires fix.payload.PositionReported? && d != SERVER_DEVICE_ID
    ensures OnlyFixes(AfterFixes(d, fix, n), d, n)
  {
    if n == 0 {
    } else {
      FixesPileUp(d, fix, n - 1);
      hide AfterFixes;
      OneMoreFix(AfterFixes(d, fix, n - 1), d, fix, n);
    }
  }

  lemma OneMoreFix(p: Phone, d: int, fix: Event, n: nat)
    requires fix.payload.PositionReported? && n >= 1 && OnlyFixes(p, d, n - 1)
    ensures OnlyFixes(Written(p, d, fix, n), d, n)
  {
    hide LocalOk, Tiered, Written;
    WritingAddsARow(p, d, fix, n);
  }

  /**
   A phone that wrote 64 or more position fixes offline and then a survivor report cannot
   send it: the report waits and is due, and a pass over SMS with the default limit raises
   an exception and changes nothing.
   */
  lemma FixesThenSurvivor(d: int, fix: Event, report: Event, n: nat, written: int, now: int, limit: nat, incidentStart: int,
                          secret: Option<seq<Octet>>, batchRef: int, at: int, draws: map<Key, Draw>, r: SmsResult, p': Phone)
    requires fix.payload.PositionReported? && report.payload.SurvivorReported? && d != SERVER_DEVICE_ID
    requires n > MAX_SEQ_DELTA && written >= 1 && limit >= 2
    requires var p := Written(AfterFixes(d, fix, n), d, report, written);
             SmsPass(p, now, limit, true, incidentStart, secret, batchRef, at, draws, r, p')
    ensures var p := Written(AfterFixes(d, fix, n), d, report, written);
            && Sendable(p, Key(d, n + 1), now) && p.outbox[Key(d, n + 1)].critical
            && r == Threw && p' == p
            && Blocked(p, d, Key(d, 1), now)
  {
    var p0 := AfterFixes(d, fix, n);
    FixesPileUp(d, fix, n);
    FixesBlock(p0, d, n, now);
    hide AfterFixes, Blocked, SmsPass;
    OneCritical(p0, d, report, n, written, now);
    WritingKeepsBlocked(p0, d, Key(d, 1), now, report, written);
    BlockedPassThrows(Written(p0, d, report, written), d, Key(d, 1), now, limit, true, incidentStart, secret, batchRef, at,
                      draws, r, p');
  }

  lemma FixesBlock(p: Phone, d: int, n: nat, now: int)
    requires OnlyFixes(p, d, n) && n > MAX_SEQ_DELTA
    ensures Blocked(p, d, Key(d, 1), now)
    ensures Key(d, 1) in p.outbox && p.outbox[Key(d, 1)].firstQueuedAt == 1
  {
  }

  lemma OneCritical(p: Phone, d: int, report: Event, n: nat, written: int, now: int)
    requires OnlyFixes(p, d, n) && report.payload.SurvivorReported?
    ensures var p' := Written(p, d, report, written); CriticalWaiting(p', now) == {Key(d, n + 1)}
  {
    hide LocalOk, Tiered, Written;
    WritingAddsARow(p, d, report, written);
  }
}
