/**
 The phone's database: local event log, outbox, `seq` counters and downlink watermark,
 with the guarded updates that move an outbox row.
 */
module FieldStore {
  import opened Results
  import opened Domain
  import opened EventStore
  import opened Sorting

  datatype OutboxState = PENDING | IN_FLIGHT | ACKED | REJECTED

  datatype OutboxRow = OutboxRow(state: OutboxState, critical: bool, attemptCount: nat, nextAttemptAt: Option<int>,
                                 batchRef: Option<int>, firstQueuedAt: int, rejectedCode: Option<string>)

  /** An event in the local log; `serverSeq` is unknown until the server sends it back. */
  datatype LocalEvent = LocalEvent(event: Event, serverSeq: Option<nat>)

  datatype Phone = Phone(events: map<Key, LocalEvent>, outbox: map<Key, OutboxRow>, counters: map<int, int>,
                         watermark: Option<nat>)

  const NEW_PHONE := Phone(map[], map[], map[], None)
  const FIRST_SEQ := 1
  const UNSYNCED := 0

  // -------------------------------------------------------------- authoring

  function NextSeq(p: Phone, device: int): int {
    if device in p.counters then p.counters[device] else FIRST_SEQ
  }

  /** Counter, event and outbox row together; none when the `seq` is already used. */
  function AppendAuthored(p: Phone, device: int, draft: Event, now: int): Option<Phone> {
    var n := NextSeq(p, device);
    var e := draft.(device := device, seqNo := n);
    if e.Id() in p.events then None
    else Some(p.(counters := p.counters[device := n + 1],
                 events := p.events[e.Id() := LocalEvent(e, None)],
                 outbox := if e.Id() in p.outbox then p.outbox
                           else p.outbox[e.Id() := OutboxRow(PENDING, e.payload.Critical(), 0, None, None, now, None)]))
  }

  // -------------------------------------------------------- outbox transitions

  function InState(p: Phone, k: Key, s: OutboxState): bool {
    k in p.outbox && p.outbox[k].state == s
  }

  function SetRow(p: Phone, k: Key, row: OutboxRow): Phone {
    p.(outbox := p.outbox[k := row])
  }

  function MarkInFlight(p: Phone, k: Key, batchRef: int): Phone {
    if InState(p, k, PENDING) then SetRow(p, k, p.outbox[k].(state := IN_FLIGHT, batchRef := Some(batchRef))) else p
  }

  function MarkAcked(p: Phone, k: Key): Phone {
    if InState(p, k, IN_FLIGHT) then SetRow(p, k, p.outbox[k].(state := ACKED)) else p
  }

  /** A failed delivery: one more attempt, and a persisted time before the next. */
  function ReturnToPending(p: Phone, k: Key, nextAttemptAt: int): Phone {
    if InState(p, k, IN_FLIGHT)
    then SetRow(p, k, p.outbox[k].(state := PENDING, attemptCount := p.outbox[k].attemptCount + 1,
                                   nextAttemptAt := Some(nextAttemptAt), batchRef := None))
    else p
  }

  function MarkRejected(p: Phone, k: Key, code: string): Phone {
    if InState(p, k, IN_FLIGHT)
    then SetRow(p, k, p.outbox[k].(state := REJECTED, batchRef := None, rejectedCode := Some(code))) else p
  }

  /** After a restart: back to PENDING, attempts and backoff exactly as persisted. */
  function Reclaim(p: Phone): Phone {
    p.(outbox := map k | k in p.outbox :: if p.outbox[k].state == IN_FLIGHT
                                          then p.outbox[k].(state := PENDING, batchRef := None) else p.outbox[k])
  }

  function PruneAcked(p: Phone): Phone {
    p.(outbox := map k | k in p.outbox && p.outbox[k].state != ACKED :: p.outbox[k])
  }

  // ------------------------------------------------------------ batch transitions

  /** One per-event answer of the server; a retryable refusal carries the time drawn for it. */
  datatype Answer = Accept(key: Key) | Retry(key: Key, nextAttemptAt: int) | Reject(key: Key, code: string)

  function ApplyAnswer(p: Phone, a: Answer): Phone {
    match a
    case Accept(k) => MarkAcked(p, k)
    case Retry(k, at) => ReturnToPending(p, k, at)
    case Reject(k, code) => MarkRejected(p, k, code)
  }

  function ApplyAnswers(p: Phone, answers: seq<Answer>): Phone
    decreases answers
  {
    if answers == [] then p else ApplyAnswers(ApplyAnswer(p, answers[0]), answers[1..])
  }

  function MarkBatch(p: Phone, keys: seq<Key>, batchRef: int): Phone
    decreases keys
  {
    if keys == [] then p else MarkBatch(MarkInFlight(p, keys[0], batchRef), keys[1..], batchRef)
  }

  /** A request-level failure sends every row of the batch back, and rejects none. */
  function FailureAnswers(keys: seq<Key>, nextAttemptAt: seq<int>): seq<Answer>
    requires |keys| == |nextAttemptAt|
  {
    seq(|keys|, i requires 0 <= i < |keys| => Retry(keys[i], nextAttemptAt[i]))
  }

  // ----------------------------------------------------------------- downlink

  function Watermark(p: Phone): nat {
    if p.watermark.Some? then p.watermark.value else UNSYNCED
  }

  /** `INSERT ... ON CONFLICT IGNORE` of one received event. */
  function Receive(p: Phone, row: Row): Phone {
    if row.event.Id() in p.events then p
    else p.(events := p.events[row.event.Id() := LocalEvent(row.event, Some(row.serverSeq))])
  }

  function ReceiveAll(p: Phone, rows: seq<Row>): Phone
    decreases rows
  {
    if rows == [] then p else ReceiveAll(Receive(p, rows[0]), rows[1..])
  }

  function AdvanceTo(p: Phone, serverSeq: nat): Phone {
    p.(watermark := Some(if serverSeq > Watermark(p) then serverSeq else Watermark(p)))
  }

  /** The page and the watermark in one commit. */
  function ApplyPage(p: Phone, rows: seq<Row>, nextSince: nat): Phone {
    AdvanceTo(ReceiveAll(p, rows), nextSince)
  }

  // ---------------------------------------------------------------- selection

  predicate Sendable(p: Phone, k: Key, now: int) {
    InState(p, k, PENDING) && (p.outbox[k].nextAttemptAt.Some? ==> p.outbox[k].nextAttemptAt.value <= now)
  }

  /** CRITICAL first, then oldest queued, then lowest `seq`. */
  predicate DrainsBefore(p: Phone, a: Key, b: Key) {
    && a in p.outbox && b in p.outbox
    && var x, y := p.outbox[a], p.outbox[b];
    if x.critical != y.critical then x.critical
    else if x.firstQueuedAt != y.firstQueuedAt then x.firstQueuedAt < y.firstQueuedAt
    else a.seqNo <= b.seqNo
  }

  /** What the ordered, limited SELECT over the outbox may return. */
  ghost predicate NextBatch(p: Phone, now: int, limit: nat, keys: seq<Key>) {
    && |keys| <= limit
    && (forall k :: k in keys ==> Sendable(p, k, now))
    && (forall i, j :: 0 <= i < j < |keys| ==> keys[i] != keys[j] && DrainsBefore(p, keys[i], keys[j]))
    && (forall k :: k in p.outbox && Sendable(p, k, now) && k !in keys ==>
          |keys| == limit && forall t :: t in keys ==> DrainsBefore(p, t, k))
  }

  /** A row with its key, as the SELECT sees it. */
  datatype Queued = Queued(key: Key, row: OutboxRow)

  predicate QueuedLe(a: Queued, b: Queued) {
    if a.row.critical != b.row.critical then a.row.critical
    else if a.row.firstQueuedAt != b.row.firstQueuedAt then a.row.firstQueuedAt < b.row.firstQueuedAt
    else a.key.seqNo <= b.key.seqNo
  }

  function KeysOf(s: seq<Queued>): (keys: seq<Key>)
    ensures |keys| == |s| && forall i :: 0 <= i < |s| ==> keys[i] == s[i].key
  {
    seq(|s|, i requires 0 <= i < |s| => s[i].key)
  }

  /** Each sendable row once. */
  ghost predicate Lists(p: Phone, now: int, s: seq<Queued>) {
    && (forall i :: 0 <= i < |s| ==> Sendable(p, s[i].key, now) && s[i].row == p.outbox[s[i].key])
    && (forall i, j :: 0 <= i < j < |s| ==> s[i].key != s[j].key)
    && (forall k :: k in p.outbox && Sendable(p, k, now) ==> exists i :: 0 <= i < |s| && s[i].key == k)
  }

  /** Sorting the waiting rows and taking the first ones is what the SELECT asks for. */
  lemma SortedIsNextBatch(p: Phone, now: int, limit: nat, waiting: seq<Queued>)
    requires Lists(p, now, waiting)
    ensures var s := Sort(QueuedLe, waiting);
            NextBatch(p, now, limit, KeysOf(if |s| <= limit then s else s[..limit]))
  {
    var s := Sort(QueuedLe, waiting);
    assert TotalPreorder(QueuedLe);
    SortSorts(QueuedLe, waiting);
    SameMembers(s, waiting);
    hide Sort, Sendable, TotalPreorder;
    forall i, j | 0 <= i < j < |s| ensures s[i].key != s[j].key {
      DistinctAfterSort(s, waiting, i, j);
    }
    forall i | 0 <= i < |s| ensures Sendable(p, s[i].key, now) && s[i].row == p.outbox[s[i].key] {
      assert s[i] in waiting;
    }
    forall k | k in p.outbox && Sendable(p, k, now) ensures exists i :: 0 <= i < |s| && s[i].key == k {
      var i :| 0 <= i < |waiting| && waiting[i].key == k;
      assert waiting[i] in s;
    }
    PrefixIsNextBatch(p, now, limit, s);
  }

  lemma DistinctAfterSort(s: seq<Queued>, waiting: seq<Queued>, i: nat, j: nat)
    requires multiset(s) == multiset(waiting) && i < j < |s|
    requires forall a, b :: 0 <= a < b < |waiting| ==> waiting[a].key != waiting[b].key
    requires forall a, b :: 0 <= a < |waiting| && 0 <= b < |waiting| && waiting[a].key == waiting[b].key ==> waiting[a] == waiting[b]
    ensures s[i].key != s[j].key
  {
    SameMembers(s, waiting);
    OnceEach(waiting, s[i]);
    assert s[i] in waiting && s[j] in waiting;
    if s[i] == s[j] {
      RepeatsCount(s, i, j);
    }
  }

  lemma InDrainOrder(p: Phone, now: int, a: Queued, b: Queued)
    requires Sendable(p, a.key, now) && Sendable(p, b.key, now)
    requires a.row == p.outbox[a.key] && b.row == p.outbox[b.key] && QueuedLe(a, b)
    ensures DrainsBefore(p, a.key, b.key)
  {
  }

  lemma PrefixIsNextBatch(p: Phone, now: int, limit: nat, s: seq<Queued>)
    requires Lists(p, now, s) && Sorted(QueuedLe, s)
    ensures NextBatch(p, now, limit, KeysOf(if |s| <= limit then s else s[..limit]))
  {
    hide QueuedLe, DrainsBefore, Sendable;
    var keys := KeysOf(if |s| <= limit then s else s[..limit]);
    forall i, j | 0 <= i < j < |s| ensures DrainsBefore(p, s[i].key, s[j].key) {
      InDrainOrder(p, now, s[i], s[j]);
    }
    forall k, t | k in p.outbox && Sendable(p, k, now) && k !in keys && t in keys ensures DrainsBefore(p, t, k) {
      var i :| 0 <= i < |s| && s[i].key == k;
      var j :| 0 <= j < |keys| && keys[j] == t;
      assert keys[j] == s[j].key;
    }
    forall k | k in p.outbox && Sendable(p, k, now) && k !in keys ensures |keys| == limit {
      var i :| 0 <= i < |s| && s[i].key == k;
    }
  }

  // ---------------------------------------------------------- laws of the SELECT

  /** A waiting CRITICAL row is in every batch that holds a ROUTINE row, and before it. */
  lemma CriticalGoesFirst(p: Phone, now: int, limit: nat, keys: seq<Key>, c: Key, j: nat)
    requires NextBatch(p, now, limit, keys) && Sendable(p, c, now) && p.outbox[c].critical
    requires j < |keys| && keys[j] in p.outbox && !p.outbox[keys[j]].critical
    ensures exists i :: 0 <= i < j && keys[i] == c
  {
    assert keys[j] in keys;
    if c in keys {
      var i :| 0 <= i < |keys| && keys[i] == c;
      assert i > j ==> DrainsBefore(p, keys[j], keys[i]);
    }
  }

  /** On a phone's own rows the SELECT leaves nothing open: two answers to it are the same. */
  lemma NextBatchUnique(p: Phone, now: int, limit: nat, a: seq<Key>, b: seq<Key>)
    requires forall k, m :: k in p.outbox && m in p.outbox ==> k.device == m.device
    requires NextBatch(p, now, limit, a) && NextBatch(p, now, limit, b)
    ensures a == b
  {
    SamePrefix(p, now, limit, a, b, if |a| <= |b| then |a| else |b|);
    if |a| <= |b| {
      NoLonger(p, now, limit, a, b);
    } else {
      NoLonger(p, now, limit, b, a);
    }
  }

  lemma NoLonger(p: Phone, now: int, limit: nat, a: seq<Key>, b: seq<Key>)
    requires NextBatch(p, now, limit, a) && NextBatch(p, now, limit, b) && |a| <= |b| && b[..|a|] == a[..|a|]
    ensures a == b
  {
    hide DrainsBefore;
    assert a == a[..|a|] && b == b[..|b|];
    if |a| < |b| {
      NextIsNew(a, b);
    }
  }

  lemma NextIsNew(a: seq<Key>, b: seq<Key>)
    requires |a| < |b| && b[..|a|] == a[..|a|] && forall i, j :: 0 <= i < j < |b| ==> b[i] != b[j]
    ensures b[|a|] in b && b[|a|] !in a
  {
    assert forall i :: 0 <= i < |a| ==> a[i] == b[..|a|][i] == b[i];
  }

  lemma {:induction false} SamePrefix(p: Phone, now: int, limit: nat, a: seq<Key>, b: seq<Key>, n: nat)
    requires forall k, m :: k in p.outbox && m in p.outbox ==> k.device == m.device
    requires NextBatch(p, now, limit, a) && NextBatch(p, now, limit, b) && n <= |a| && n <= |b|
    ensures a[..n] == b[..n]
    decreases n
  {
    if n == 0 {
    } else {
      var i := n - 1;
      SamePrefix(p, now, limit, a, b, i);
      NotLater(p, now, limit, a, b, i);
      NotLater(p, now, limit, b, a, i);
      assert a[i] in a && b[i] in b;
      assert a[i].seqNo == b[i].seqNo;
      assert a[..n] == a[..i] + [a[i]] && b[..n] == b[..i] + [b[i]];
    }
  }

  /** After equal prefixes the next row of one answer is not after the next row of the other. */
  lemma NotLater(p: Phone, now: int, limit: nat, a: seq<Key>, b: seq<Key>, i: nat)
    requires NextBatch(p, now, limit, a) && NextBatch(p, now, limit, b) && i < |a| && i < |b| && a[..i] == b[..i]
    ensures DrainsBefore(p, a[i], b[i])
  {
    assert a[i] in a && b[i] in b;
    if b[i] in a {
      assert forall m :: 0 <= m < i ==> a[m] == a[..i][m] == b[..i][m] == b[m];
      var j :| 0 <= j < |a| && a[j] == b[i];
    }
  }

  // ------------------------------------------------------- row by row, field by field

  /** What authoring adds: the next `seq`, the event as written, a fresh waiting row of its tier. */
  lemma AuthoredEntry(p: Phone, device: int, draft: Event, now: int)
    ensures var n := if device in p.counters then p.counters[device] else 1;
            var k, after := Key(device, n), AppendAuthored(p, device, draft, now);
            if k in p.events then after.None?
            else
              && after.Some?
              && after.value.counters == p.counters[device := n + 1] && after.value.watermark == p.watermark
              && after.value.events == p.events[k := LocalEvent(draft.(device := device, seqNo := n), None)]
              && (k in p.outbox ==> after.value.outbox == p.outbox)
              && (k !in p.outbox ==>
                    after.value.outbox ==
                    p.outbox[k := OutboxRow(PENDING, draft.payload.SurvivorReported?, 0, None, None, now, None)])
  {
  }

  /** What each transition does to its row when the guard holds, and that otherwise nothing happens. */
  lemma RowTransitions(p: Phone, k: Key, batchRef: int, at: int, code: string)
    ensures var to, acked, back, rejected :=
              MarkInFlight(p, k, batchRef), MarkAcked(p, k), ReturnToPending(p, k, at), MarkRejected(p, k, code);
            && (if k in p.outbox && p.outbox[k].state == PENDING
                then to == p.(outbox := p.outbox[k := p.outbox[k].(state := IN_FLIGHT, batchRef := Some(batchRef))])
                else to == p)
            && (if k in p.outbox && p.outbox[k].state == IN_FLIGHT then
                  var row := p.outbox[k];
                  && acked == p.(outbox := p.outbox[k := row.(state := ACKED)])
                  && back == p.(outbox := p.outbox[k := row.(state := PENDING, attemptCount := row.attemptCount + 1,
                                                             nextAttemptAt := Some(at), batchRef := None)])
                  && rejected == p.(outbox := p.outbox[k := row.(state := REJECTED, batchRef := None, rejectedCode := Some(code))])
                else acked == p && back == p && rejected == p)
  {
  }

  /** A restart returns every in-flight row with its attempts and time; pruning removes the ACKED rows and no other. */
  lemma ReclaimAndPruneExact(p: Phone, k: Key)
    ensures k in Reclaim(p).outbox <==> k in p.outbox
    ensures k in p.outbox ==>
              var row := p.outbox[k];
              Reclaim(p).outbox[k] == if row.state == IN_FLIGHT then row.(state := PENDING, batchRef := None) else row
    ensures k in PruneAcked(p).outbox <==> k in p.outbox && p.outbox[k].state != ACKED
    ensures k in PruneAcked(p).outbox ==> PruneAcked(p).outbox[k] == p.outbox[k]
    ensures Reclaim(p).events == PruneAcked(p).events == p.events
    ensures Reclaim(p).counters == PruneAcked(p).counters == p.counters
    ensures Reclaim(p).watermark == PruneAcked(p).watermark == p.watermark
  {
  }

  /** The first row of a page with this identity. */
  ghost predicate FirstWith(rows: seq<Row>, k: Key, i: int) {
    0 <= i < |rows| && rows[i].event.Id() == k && forall j :: 0 <= j < i ==> rows[j].event.Id() != k
  }

  lemma {:induction false} ReceivedExact(p: Phone, rows: seq<Row>, k: Key)
    ensures var p' := ReceiveAll(p, rows);
            && p'.outbox == p.outbox && p'.counters == p.counters && p'.watermark == p.watermark
            && (k in p.events ==> k in p'.events && p'.events[k] == p.events[k])
            && (k !in p.events ==> (k in p'.events <==> exists i :: 0 <= i < |rows| && rows[i].event.Id() == k))
            && (k !in p.events ==> forall i :: FirstWith(rows, k, i) ==>
                  k in p'.events && p'.events[k] == LocalEvent(rows[i].event, Some(rows[i].serverSeq)))
    decreases rows
  {
    if rows == [] {
    } else {
      ReceivedExact(Receive(p, rows[0]), rows[1..], k);
      assert forall i :: 0 <= i < |rows| - 1 ==> rows[1..][i] == rows[i + 1];
      assert forall i :: 0 < i < |rows| ==> rows[i] == rows[1..][i - 1];
      forall i | FirstWith(rows, k, i) && i > 0 ensures FirstWith(rows[1..], k, i - 1) {
      }
    }
  }

  /** A page leaves known events as they were, adds each other one once with its position, and never moves the watermark back. */
  lemma PageExact(p: Phone, rows: seq<Row>, nextSince: nat, k: Key)
    ensures var p' := ApplyPage(p, rows, nextSince);
            && p'.outbox == p.outbox && p'.counters == p.counters
            && p'.watermark == Some(if p.watermark.Some? && p.watermark.value > nextSince then p.watermark.value else nextSince)
            && (k in p.events ==> k in p'.events && p'.events[k] == p.events[k])
            && (k !in p.events ==> (k in p'.events <==> exists i :: 0 <= i < |rows| && rows[i].event.Id() == k))
            && (k !in p.events ==> forall i :: FirstWith(rows, k, i) ==>
                  k in p'.events && p'.events[k] == LocalEvent(rows[i].event, Some(rows[i].serverSeq)))
  {
    ReceivedExact(p, rows, k);
    hide ReceiveAll, FirstWith;
  }

  // ------------------------------------------------------ counting rows in flight

  function InFlight(p: Phone): set<Key> {
    set k | k in p.outbox && p.outbox[k].state == IN_FLIGHT
  }

  lemma OneRowLeavesFlight(p: Phone, a: Answer)
    ensures InFlight(ApplyAnswer(p, a)) == InFlight(p) - {a.key}
    ensures |InFlight(ApplyAnswer(p, a))| == |InFlight(p)| - (if InState(p, a.key, IN_FLIGHT) then 1 else 0)
  {
    var after := InFlight(ApplyAnswer(p, a));
    assert after == InFlight(p) - {a.key};
    if !InState(p, a.key, IN_FLIGHT) {
      assert after == InFlight(p);
    }
  }

  lemma OneRowTakesOff(p: Phone, k: Key, batchRef: int)
    ensures |InFlight(MarkInFlight(p, k, batchRef))| == |InFlight(p)| + (if InState(p, k, PENDING) then 1 else 0)
  {
    var after := InFlight(MarkInFlight(p, k, batchRef));
    if InState(p, k, PENDING) {
      assert after == InFlight(p) + {k};
    } else {
      assert after == InFlight(p);
    }
  }

  // ------------------------------------------------------------ the database

  class FieldDatabase {
    var db: Phone

    constructor ()
      ensures db == NEW_PHONE
    {
      db := NEW_PHONE;
    }

    /** One transaction: advance the counter, insert the event, queue it. */
    method Append(device: int, draft: Event, now: int) returns (r: Option<int>)
      modifies this
      ensures r.Some? <==> AppendAuthored(old(db), device, draft, now).Some?
      ensures r.Some? ==> db == AppendAuthored(old(db), device, draft, now).value && r.value == NextSeq(old(db), device)
      ensures r.None? ==> db == old(db)
    {
      var counters := db.counters;
      if device !in counters {
        counters := counters[device := FIRST_SEQ];
      }
      var n := counters[device];
      counters := counters[device := n + 1];
      var e := draft.(device := device, seqNo := n);
      if e.Id() in db.events {
        return None;
      }
      var outbox := db.outbox;
      if e.Id() !in outbox {
        outbox := outbox[e.Id() := OutboxRow(PENDING, e.payload.Critical(), 0, None, None, now, None)];
      }
      db := db.(counters := counters, events := db.events[e.Id() := LocalEvent(e, None)], outbox := outbox);
      r := Some(n);
    }

    /** The ordered, limited SELECT over the waiting rows. */
    method NextSendable(now: int, limit: nat) returns (keys: seq<Key>)
      ensures NextBatch(db, now, limit, keys)
    {
      var waiting: seq<Queued> := [];
      var todo := db.outbox.Keys;
      while todo != {}
        invariant todo <= db.outbox.Keys
        invariant forall i :: 0 <= i < |waiting| ==>
                    waiting[i].key !in todo && Sendable(db, waiting[i].key, now) && waiting[i].row == db.outbox[waiting[i].key]
        invariant forall i, j :: 0 <= i < j < |waiting| ==> waiting[i].key != waiting[j].key
        invariant forall k :: k in db.outbox && k !in todo && Sendable(db, k, now) ==>
                    exists i :: 0 <= i < |waiting| && waiting[i].key == k
        decreases todo
      {
        ghost var before := waiting;
        var k :| k in todo;
        if Sendable(db, k, now) {
          waiting := waiting + [Queued(k, db.outbox[k])];
          assert waiting[|before|].key == k;
        }
        assert forall i :: 0 <= i < |before| ==> waiting[i] == before[i];
        todo := todo - {k};
      }
      SortedIsNextBatch(db, now, limit, waiting);
      var sorted := Sort(QueuedLe, waiting);
      keys := KeysOf(if |sorted| <= limit then sorted else sorted[..limit]);
    }

    /** Counts the rows that took off: exactly the growth of the in-flight set. */
    method MarkBatchInFlight(keys: seq<Key>, batchRef: int) returns (n: nat)
      modifies this
      ensures db == MarkBatch(old(db), keys, batchRef)
      ensures |InFlight(db)| == |InFlight(old(db))| + n
    {
      n := 0;
      ghost var start := db;
      for i := 0 to |keys|
        invariant MarkBatch(db, keys[i..], batchRef) == MarkBatch(start, keys, batchRef)
        invariant |InFlight(db)| == |InFlight(start)| + n
      {
        assert keys[i..][0] == keys[i] && keys[i..][1..] == keys[i + 1..];
        OneRowTakesOff(db, keys[i], batchRef);
        if InState(db, keys[i], PENDING) {
          n := n + 1;
        }
        db := MarkInFlight(db, keys[i], batchRef);
      }
      assert keys[|keys|..] == [];
    }

    /** Counts the rows that went back; none is rejected, whatever the status was. */
    method ApplyRequestFailure(keys: seq<Key>, nextAttemptAt: seq<int>) returns (n: nat)
      requires |keys| == |nextAttemptAt|
      modifies this
      ensures db == ApplyAnswers(old(db), FailureAnswers(keys, nextAttemptAt))
      ensures |InFlight(db)| + n == |InFlight(old(db))|
    {
      n := 0;
      ghost var start, answers := db, FailureAnswers(keys, nextAttemptAt);
      for i := 0 to |keys|
        invariant ApplyAnswers(db, answers[i..]) == ApplyAnswers(start, answers)
        invariant |InFlight(db)| + n == |InFlight(start)|
      {
        assert answers[i..][0] == answers[i] && answers[i..][1..] == answers[i + 1..];
        OneRowLeavesFlight(db, answers[i]);
        if InState(db, keys[i], IN_FLIGHT) {
          n := n + 1;
        }
        db := ReturnToPending(db, keys[i], nextAttemptAt[i]);
      }
      assert answers[|keys|..] == [];
    }

    /**
     Applies a `200` verdict: acceptances first, then refusals.  The three counters
     together are exactly the rows that left the in-flight set.
     */
    method ApplyVerdict(accepted: seq<Key>, rejected: seq<Answer>) returns (acked: nat, requeued: nat, refused: nat)
      requires forall a :: a in rejected ==> !a.Accept?
      modifies this
      ensures db == ApplyAnswers(ApplyAnswers(old(db), Acceptances(accepted)), rejected)
      ensures |InFlight(db)| + acked + requeued + refused == |InFlight(old(db))|
    {
      acked, requeued, refused := 0, 0, 0;
      ghost var start, acceptances := db, Acceptances(accepted);
      for i := 0 to |accepted|
        invariant ApplyAnswers(db, acceptances[i..]) == ApplyAnswers(start, acceptances)
        invariant |InFlight(db)| + acked == |InFlight(start)|
      {
        assert acceptances[i..][0] == acceptances[i] && acceptances[i..][1..] == acceptances[i + 1..];
        OneRowLeavesFlight(db, acceptances[i]);
        if InState(db, accepted[i], IN_FLIGHT) {
          acked := acked + 1;
        }
        db := MarkAcked(db, accepted[i]);
      }
      assert acceptances[|accepted|..] == [];
      ghost var middle := db;
      for i := 0 to |rejected|
        invariant ApplyAnswers(db, rejected[i..]) == ApplyAnswers(middle, rejected)
        invariant |InFlight(db)| + acked + requeued + refused == |InFlight(start)|
      {
        assert rejected[i..][0] == rejected[i] && rejected[i..][1..] == rejected[i + 1..];
        OneRowLeavesFlight(db, rejected[i]);
        match rejected[i] {
          case Retry(k, at) =>
            if InState(db, k, IN_FLIGHT) {
              requeued := requeued + 1;
            }
            db := ReturnToPending(db, k, at);
          case Reject(k, code) =>
            if InState(db, k, IN_FLIGHT) {
              refused := refused + 1;
            }
            db := MarkRejected(db, k, code);
        }
      }
      assert rejected[|rejected|..] == [];
    }

    method RecoverAfterRestart() returns (n: nat)
      modifies this
      ensures db == Reclaim(old(db)) && InFlight(db) == {} && n == |InFlight(old(db))|
    {
      n := |InFlight(db)|;
      db := Reclaim(db);
    }

    /** Events and watermark commit together; counts the events that were new. */
    method ApplyDeltaPage(rows: seq<Row>, nextSince: nat) returns (inserted: nat)
      modifies this
      ensures db == ApplyPage(old(db), rows, nextSince)
      ensures |db.events| == |old(db).events| + inserted
    {
      inserted := 0;
      ghost var start := db;
      for i := 0 to |rows|
        invariant ReceiveAll(db, rows[i..]) == ReceiveAll(start, rows)
        invariant |db.events| == |start.events| + inserted
        invariant db.watermark == start.watermark
      {
        assert rows[i..][0] == rows[i] && rows[i..][1..] == rows[i + 1..];
        if rows[i].event.Id() !in db.events {
          inserted := inserted + 1;
        }
        db := Receive(db, rows[i]);
      }
      assert rows[|rows|..] == [];
      db := AdvanceTo(db, nextSince);
    }
  }

  function Acceptances(keys: seq<Key>): (s: seq<Answer>)
    ensures |s| == |keys|
  {
    seq(|keys|, i requires 0 <= i < |keys| => Accept(keys[i]))
  }
}
