/**
 One uplink pass of the phone: select, pick a transport, trim, send, mark, apply.  The
 pass is a run of the protocol, and the fate of every row it sent follows from what the
 transport reported: exactly, from what the server's log held.
 */
module SyncEngine {
  import opened Results
  import opened Domain
  import opened EventStore
  import opened Ingestion
  import opened FieldStore
  import opened Transport
  import opened Backoff
  import opened OutboxEngine
  import opened SyncProtocol
  import opened SyncSafety
  import SmsBatchEncoder

  datatype Encoder = Json | Sms

  const ENVELOPE_OVERHEAD_BYTES := 128
  const ESTIMATED_EVENT_BYTES := 320

  /** The rows an encoder keeps: always the first ones. */
  function FitFor(encoder: Encoder, rows: seq<Key>, maxBatchBytes: nat): (kept: seq<Key>)
    ensures kept <= rows
  {
    match encoder
    case Sms => SmsBatchEncoder.Fit(rows, maxBatchBytes)
    case Json =>
      var budget := maxBatchBytes - ENVELOPE_OVERHEAD_BYTES;
      if rows == [] || budget <= 0 then []
      else
        var fits := budget / ESTIMATED_EVENT_BYTES;
        var n := if fits <= 0 then 1 else fits;
        if |rows| <= n then rows else rows[..n]
  }

  /** What each encoder keeps: 320 bytes an event behind 128 of envelope, or 35 bits an event behind 157, 31 at most. */
  lemma FitExact(encoder: Encoder, rows: seq<Key>, maxBatchBytes: nat)
    ensures var n := match encoder
                     case Json => if maxBatchBytes <= 128 then 0 else if maxBatchBytes < 448 then 1 else (maxBatchBytes - 128) / 320
                     case Sms => if maxBatchBytes < 20 then 0 else if maxBatchBytes >= 156 then 31 else (8 * maxBatchBytes - 157) / 35;
            FitFor(encoder, rows, maxBatchBytes) == if |rows| <= n then rows else rows[..n]
  {
  }

  datatype SendOutcome = RequestFailed | Evaluated(accepted: seq<Key>, rejected: seq<Refused>)

  /** The database after a batch was sent, marked and answered. */
  function AfterSend(p: Phone, batch: seq<Key>, batchRef: int, outcome: SendOutcome, t: Timing): Phone {
    var marked := MarkBatch(p, batch, batchRef);
    match outcome
    case RequestFailed => FailAll(marked, p, batch, t)
    case Evaluated(accepted, rejected) => Settle(marked, p, batch, accepted, rejected, t)
  }

  // ------------------------------------------------------------------- the pass

  datatype Chosen =
    | NothingToSend
    | NoTransport
    | Batch(rows: seq<Key>, via: Capabilities)

  /** What the pass decides, from the rows selected and the transport picked, before it encodes anything. */
  predicate Outcome(rows: seq<Key>, picked: Option<Capabilities>, encoder: Encoder, c: Chosen) {
    if rows == [] then c == NothingToSend
    else if picked.None? then c == NoTransport
    else
      var kept := FitFor(encoder, rows, picked.value.maxBatchBytes);
      c == if kept == [] then NothingToSend else Batch(kept, picked.value)
  }

  ghost predicate Decides(p: Phone, now: int, limit: nat, transports: seq<Capabilities>, encoder: Encoder, c: Chosen) {
    exists rows, picked ::
      NextBatch(p, now, limit, rows) && Picks(transports, HasCritical(p, rows), picked) && Outcome(rows, picked, encoder, c)
  }

  predicate HasCritical(p: Phone, rows: seq<Key>) {
    exists k :: k in rows && k in p.outbox && p.outbox[k].critical
  }

  method Choose(phone: FieldDatabase, now: int, limit: nat, transports: seq<Capabilities>, encoder: Encoder)
      returns (c: Chosen)
    ensures Decides(phone.db, now, limit, transports, encoder, c)
  {
    var rows := phone.NextSendable(now, limit);
    var picked := SelectTransport(transports, HasCritical(phone.db, rows));
    if rows == [] {
      c := NothingToSend;
    } else if picked.None? {
      c := NoTransport;
    } else {
      var kept := FitFor(encoder, rows, picked.value.maxBatchBytes);
      c := if kept == [] then NothingToSend else Batch(kept, picked.value);
    }
    assert Outcome(rows, picked, encoder, c);
  }

  /** Marks the batch and applies what the transport reported of it. */
  method Finish(phone: FieldDatabase, batch: seq<Key>, batchRef: int, outcome: SendOutcome, t: Timing)
      returns (returned: nat, acked: nat, refused: nat)
    modifies phone
    ensures phone.db == AfterSend(old(phone.db), batch, batchRef, outcome, t)
    ensures |InFlight(MarkBatch(old(phone.db), batch, batchRef))| == |InFlight(phone.db)| + returned + acked + refused
    ensures outcome.RequestFailed? ==> acked == refused == 0
  {
    returned, acked, refused := 0, 0, 0;
    ghost var before := phone.db;
    var selected := phone.db;
    var _ := phone.MarkBatchInFlight(batch, batchRef);
    match outcome {
      case RequestFailed =>
        returned := phone.ApplyRequestFailure(batch, NextTimes(selected, batch, t));
      case Evaluated(accepted, rejected) =>
        acked, returned, refused := phone.ApplyVerdict(accepted, RefusalAnswers(selected, batch, rejected, t));
    }
  }

  datatype DrainResult =
    | Idle(why: Chosen)
    | Threw
    | Drained(batch: seq<Key>, returned: nat, acked: nat, refused: nat)

  /**
   One pass.  `encodes` says whether the encoder raised no exception, `outcome` what the
   transport reported, `at` and `draws` the clock and the random draws when it is applied;
   an exception leaves before anything is marked.
   */
  method DrainOnce(phone: FieldDatabase, now: int, limit: nat, transports: seq<Capabilities>, encoder: Encoder,
                   encodes: bool, batchRef: int, outcome: SendOutcome, at: int, draws: map<Key, Draw>)
      returns (r: DrainResult)
    modifies phone
    ensures exists c :: Decides(old(phone.db), now, limit, transports, encoder, c) &&
              if !c.Batch? then r == Idle(c) && phone.db == old(phone.db)
              else if !encodes then r == Threw && phone.db == old(phone.db)
              else r.Drained? && r.batch == c.rows &&
                   phone.db == AfterSend(old(phone.db), c.rows, batchRef, outcome, Timing(at, c.via, draws))
    ensures r.Drained? ==>
              |InFlight(MarkBatch(old(phone.db), r.batch, batchRef))| ==
              |InFlight(phone.db)| + r.returned + r.acked + r.refused
  {
    var c := Choose(phone, now, limit, transports, encoder);
    if !c.Batch? {
      return Idle(c);
    }
    if !encodes {
      return Threw;
    }
    var returned, acked, refused := Finish(phone, c.rows, batchRef, outcome, Timing(at, c.via, draws));
    r := Drained(c.rows, returned, acked, refused);
  }

  // ----------------------------------------------------- what the select gives

  /** Pending and distinct. */
  ghost predicate Selected(p: Phone, keys: seq<Key>) {
    && (forall k :: k in keys ==> InState(p, k, PENDING))
    && (forall i, j :: 0 <= i < j < |keys| ==> keys[i] != keys[j])
  }

  /** Every batch a pass sends is pending and distinct, and over a slow metered link it starts with a CRITICAL row. */
  lemma BatchIsSelected(p: Phone, now: int, limit: nat, transports: seq<Capabilities>, encoder: Encoder, c: Chosen)
    requires Decides(p, now, limit, transports, encoder, c) && c.Batch?
    ensures Selected(p, c.rows) && |c.rows| <= limit
    ensures MeteredAndVerySlow(c.via) ==> c.rows[0] in p.outbox && p.outbox[c.rows[0]].critical
  {
    var rows, picked :|
      NextBatch(p, now, limit, rows) && Picks(transports, HasCritical(p, rows), picked) && Outcome(rows, picked, encoder, c);
    hide FitFor, DrainsBefore;
    assert rows[0] == c.rows[0] && rows[0] in rows;
    if MeteredAndVerySlow(c.via) && !p.outbox[rows[0]].critical {
      var k :| k in rows && k in p.outbox && p.outbox[k].critical;
      CriticalGoesFirst(p, now, limit, rows, k, 0);
    }
  }

  // ------------------------------------------------------------ a row's fate

  /** A row selected for the batch, as it is in flight. */
  function Marked(row: OutboxRow, batchRef: int): OutboxRow {
    row.(state := IN_FLIGHT, batchRef := Some(batchRef))
  }

  lemma {:induction false} MarkedRow(p: Phone, keys: seq<Key>, batchRef: int, k: Key)
    requires k in p.outbox
    ensures var p' := MarkBatch(p, keys, batchRef);
            && k in p'.outbox
            && p'.outbox[k] == if k in keys && p.outbox[k].state == PENDING then Marked(p.outbox[k], batchRef) else p.outbox[k]
    decreases keys
  {
    if keys == [] {
    } else {
      MarkedRow(MarkInFlight(p, keys[0], batchRef), keys[1..], batchRef, k);
    }
  }

  /**
   A failed request: every row of the batch waits again, packed by the encoder or left out,
   with one attempt more and the time the policy drew; every other row is untouched.
   */
  lemma FailedPassReturnsAll(p: Phone, batch: seq<Key>, batchRef: int, t: Timing, k: Key)
    requires k in p.outbox
    ensures var p' := AfterSend(p, batch, batchRef, RequestFailed, t);
            && k in p'.outbox
            && (k in batch && p.outbox[k].state == PENDING ==> p'.outbox[k] == Returned(p.outbox[k], NextTime(p, batch, k, t)))
            && (k !in batch ==> p'.outbox[k] == p.outbox[k])
  {
    hide MarkBatch, FailAll, NextTime;
    MarkedRow(p, batch, batchRef, k);
    FailAllReturns(MarkBatch(p, batch, batchRef), p, batch, t, k);
  }

  /**
   An evaluated request: a row of the batch is acknowledged if accepted; otherwise it waits,
   on schedule, or is given up, as a refusal's flag says; unmentioned it stays in flight.
   */
  lemma FateOfSentRow(p: Phone, batch: seq<Key>, batchRef: int, accepted: seq<Key>, rejected: seq<Refused>, t: Timing,
                      k: Key)
    requires InState(p, k, PENDING) && k in batch
    ensures var p' := AfterSend(p, batch, batchRef, Evaluated(accepted, rejected), t);
            var sent := Marked(p.outbox[k], batchRef);
            && k in p'.outbox
            && (k in accepted ==> p'.outbox[k] == sent.(state := ACKED))
            && (k !in accepted ==>
                  if exists r :: r in rejected && r.key == k
                  then exists r :: r in rejected && r.key == k && p'.outbox[k] ==
                         if r.retryable then Returned(sent, NextTime(p, batch, k, t))
                         else sent.(state := REJECTED, batchRef := None, rejectedCode := Some(r.code))
                  else p'.outbox[k] == sent)
  {
    hide MarkBatch, Settle, NextTime;
    MarkedRow(p, batch, batchRef, k);
    SettleDecides(MarkBatch(p, batch, batchRef), p, batch, accepted, rejected, t, k);
  }

  /** Whichever way a row of the batch goes back, it waits the documented delay for its attempts, a fifth either way. */
  lemma ReturnedRowWaits(p: Phone, batch: seq<Key>, batchRef: int, outcome: SendOutcome, t: Timing, k: Key)
    requires InState(p, k, PENDING) && k in batch
    ensures var p' := AfterSend(p, batch, batchRef, outcome, t);
            var row := p.outbox[k];
            InState(p', k, PENDING) ==>
              && p'.outbox[k].attemptCount == row.attemptCount + 1 && p'.outbox[k].nextAttemptAt.Some?
              && WaitInTable(p'.outbox[k].nextAttemptAt.value - t.now, t.capabilities, row.critical, row.attemptCount)
  {
    hide AfterSend, NextTime, WaitInTable;
    WaitIsDocumented(p, batch, k, t);
    match outcome
    case RequestFailed => FailedPassReturnsAll(p, batch, batchRef, t, k);
    case Evaluated(accepted, rejected) => FateOfSentRow(p, batch, batchRef, accepted, rejected, t, k);
  }

  /**
   A row that an older pass left in flight and this verdict refuses for now goes back too,
   but with the first ROUTINE delay, whatever its own priority and attempts.
   */
  lemma StrangerWaitsAsNew(p: Phone, batch: seq<Key>, batchRef: int, accepted: seq<Key>, rejected: seq<Refused>, t: Timing,
                           k: Key)
    requires InState(p, k, IN_FLIGHT) && k !in batch && k !in accepted
    requires (exists r :: r in rejected && r.key == k) && forall r :: r in rejected && r.key == k ==> r.retryable
    ensures var p' := AfterSend(p, batch, batchRef, Evaluated(accepted, rejected), t);
            && InState(p', k, PENDING) && p'.outbox[k].attemptCount == p.outbox[k].attemptCount + 1
            && p'.outbox[k].nextAttemptAt.Some?
            && var wait := p'.outbox[k].nextAttemptAt.value - t.now;
               if t.capabilities.cost == Metered && t.capabilities.latency == VerySlow then 48_000 <= wait <= 72_000
               else 1_600 <= wait <= 2_400
  {
    hide MarkBatch, Settle, NextTime;
    MarkedRow(p, batch, batchRef, k);
    SettleDecides(MarkBatch(p, batch, batchRef), p, batch, accepted, rejected, t, k);
    WaitIsDocumented(p, batch, k, t);
  }

  // -------------------------------------------------- the pass as a protocol run

  /** An evaluated pass: the send comes before the marking. */
  function PassSteps(w: World, d: int, batch: seq<Key>, batchRef: int, incident: Option<int>, t: Timing): seq<Step>
    requires d in w.phones
  {
    var request := Request(d, EventsFor(w.phones[d], batch), false);
    var verdicts := Ingest(w.server, Candidates(request.events), FieldCaller(d, incident)).1;
    [SendStep(d, batch), IngestStep(request, incident), MarkStep(d, batch, batchRef),
     DeliverStep(Reply(d, verdicts), batch, t)]
  }

  /** A pass whose request failed after the transport took it. */
  function FailedSteps(d: int, batch: seq<Key>, batchRef: int, t: Timing): seq<Step> {
    [SendStep(d, batch), MarkStep(d, batch, batchRef), FailStep(d, batch, t)]
  }

  lemma RunFour(w: World, steps: seq<Step>)
    requires |steps| == 4
    ensures RunWorld(w, steps) == Next(Next(Next(Next(w, steps[0]), steps[1]), steps[2]), steps[3])
  {
    hide Next;
    var w1 := Next(w, steps[0]);
    RunThree(w1, steps[1..]);
    assert steps[1..][0] == steps[1] && steps[1..][1] == steps[2] && steps[1..][2] == steps[3];
  }

  lemma RunThree(w: World, steps: seq<Step>)
    requires |steps| == 3
    ensures RunWorld(w, steps) == Next(Next(Next(w, steps[0]), steps[1]), steps[2])
  {
    hide Next;
    var w1 := Next(w, steps[0]);
    var w2 := Next(w1, steps[1]);
    var w3 := Next(w2, steps[2]);
    assert steps[1..][0] == steps[1] && steps[1..][1..] == steps[2..];
    assert steps[2..][0] == steps[2] && steps[2..][1..] == [];
    assert RunWorld(w, steps) == RunWorld(w1, steps[1..]) == RunWorld(w2, steps[2..]) == RunWorld(w3, []) == w3;
  }

  /** Marking leaves what the backoff of a row depends on as it was. */
  lemma MarkKeepsTimes(p: Phone, batch: seq<Key>, batchRef: int, keys: seq<Key>, t: Timing)
    ensures NextTimes(MarkBatch(p, batch, batchRef), keys, t) == NextTimes(p, keys, t)
    ensures forall k :: NextTime(MarkBatch(p, batch, batchRef), keys, k, t) == NextTime(p, keys, k, t)
  {
    var q := MarkBatch(p, batch, batchRef);
    forall k ensures NextTime(q, keys, k, t) == NextTime(p, keys, k, t) {
      MarkKeepsKeys(p, batch, batchRef);
      hide MarkBatch, NextAttemptAt;
      assert k in q.outbox <==> k in p.outbox;
      if k in p.outbox {
        MarkedRow(p, batch, batchRef, k);
      }
    }
  }

  lemma SettleAtMarked(p: Phone, batch: seq<Key>, batchRef: int, accepted: seq<Key>, rejected: seq<Refused>, t: Timing)
    ensures var q := MarkBatch(p, batch, batchRef);
            Settle(q, q, batch, accepted, rejected, t) == Settle(q, p, batch, accepted, rejected, t)
  {
    MarkKeepsTimes(p, batch, batchRef, batch, t);
    hide MarkBatch, NextTime, ApplyAnswers;
    var q := MarkBatch(p, batch, batchRef);
    assert RefusalAnswers(q, batch, rejected, t) == RefusalAnswers(p, batch, rejected, t);
  }

  /** Refinement: an evaluated pass without loss is a run of the protocol, on the phone and on the server. */
  lemma PassIsARun(w: World, d: int, batch: seq<Key>, batchRef: int, incident: Option<int>, t: Timing)
    requires d in w.phones && forall k :: k in batch ==> InState(w.phones[d], k, PENDING)
    ensures var (log, vs) := Ingest(w.server, Candidates(EventsFor(w.phones[d], batch)), FieldCaller(d, incident));
            var w' := RunWorld(w, PassSteps(w, d, batch, batchRef, incident, t));
            && d in w'.phones && w'.server == log
            && w'.phones[d] == AfterSend(w.phones[d], batch, batchRef,
                                         Evaluated(AcceptedKeys(AcceptedOf(vs)), RefusedKeys(RejectedOf(vs))), t)
  {
    var steps := PassSteps(w, d, batch, batchRef, incident, t);
    RunFour(w, steps);
    var (log, vs) := Ingest(w.server, Candidates(EventsFor(w.phones[d], batch)), FieldCaller(d, incident));
    hide Ingest, MarkBatch, Settle, AcceptedKeys, RefusedKeys, EventsFor, Candidates, InState;
    SettleAtMarked(w.phones[d], batch, batchRef, AcceptedKeys(AcceptedOf(vs)), RefusedKeys(RejectedOf(vs)), t);
  }

  /** Refinement: a failed pass is a run of the protocol in which the server may yet ingest what was sent. */
  lemma FailedPassIsARun(w: World, d: int, batch: seq<Key>, batchRef: int, t: Timing)
    requires d in w.phones && forall k :: k in batch ==> InState(w.phones[d], k, PENDING)
    ensures var w' := RunWorld(w, FailedSteps(d, batch, batchRef, t));
            && d in w'.phones && w'.server == w.server
            && w'.phones[d] == AfterSend(w.phones[d], batch, batchRef, RequestFailed, t)
            && Request(d, EventsFor(w.phones[d], batch), false) in w'.requests
  {
    RunThree(w, FailedSteps(d, batch, batchRef, t));
    MarkKeepsTimes(w.phones[d], batch, batchRef, batch, t);
    hide MarkBatch, NextTimes, ApplyAnswers, EventsFor, InState;
  }

  // ------------------------------------------------------ a pass against the server

  lemma {:induction false} EventsForAll(p: Phone, keys: seq<Key>)
    requires forall k :: k in keys ==> k in p.events
    ensures |EventsFor(p, keys)| == |keys|
    ensures forall i :: 0 <= i < |keys| ==> EventsFor(p, keys)[i] == p.events[keys[i]].event
  {
    if keys == [] {
    } else {
      EventsForAll(p, keys[1..]);
      var first, rest := p.events[keys[0]].event, EventsFor(p, keys[1..]);
      assert keys[0] in keys && EventsFor(p, keys) == [first] + rest;
      hide EventsFor;
      forall i | 0 < i < |keys| ensures ([first] + rest)[i] == p.events[keys[i]].event {
        assert keys[1..][i - 1] == keys[i];
      }
    }
  }

  /** A verdict carries the identity of the event it is about, and is never a transient one. */
  ghost predicate Names(v: Verdict, k: Key) {
    match v
    case Accepted(r) => Key(r.device, r.seqNo) == k
    case Rejected(d, s, code) => d == Some(k.device) && s == Some(k.seqNo) && !Retryable(code)
  }

  lemma JudgeNames(l: Log, e: Event, caller: Option<Caller>)
    ensures Names(Judge(l, Candidate(e), caller).1, e.Id())
  {
    hide Canonical, MaxSeq, Stored;
  }

  lemma {:induction false} VerdictsName(l: Log, es: seq<Event>, caller: Option<Caller>, i: nat)
    requires i < |es|
    ensures Names(Ingest(l, Candidates(es), caller).1[i], es[i].Id())
    decreases i
  {
    var raws := Candidates(es);
    var (l1, v) := Judge(l, raws[0], caller);
    JudgeNames(l, es[0], caller);
    hide Judge, Names;
    assert raws[1..] == Candidates(es[1..]);
    var rest := Ingest(l1, raws[1..], caller).1;
    assert Ingest(l, raws, caller).1 == [v] + rest;
    hide Ingest, Candidates;
    if i == 0 {
    } else {
      VerdictsName(l1, es[1..], caller, i - 1);
    }
  }

  lemma {:induction false} AcceptedKeysExact(vs: seq<Verdict>, k: Key)
    ensures k in AcceptedKeys(AcceptedOf(vs)) <==>
            exists j :: 0 <= j < |vs| && vs[j].Accepted? && Key(vs[j].result.device, vs[j].result.seqNo) == k
  {
    if vs == [] {
    } else {
      AcceptedKeysExact(vs[1..], k);
      assert vs[0].Accepted? ==> AcceptedOf(vs) == [vs[0]] + AcceptedOf(vs[1..]) && AcceptedOf(vs)[1..] == AcceptedOf(vs[1..]);
      assert !vs[0].Accepted? ==> AcceptedOf(vs) == AcceptedOf(vs[1..]);
      assert forall j :: 0 < j < |vs| ==> vs[j] == vs[1..][j - 1];
      if j :| 0 <= j < |vs| && vs[j].Accepted? && Key(vs[j].result.device, vs[j].result.seqNo) == k {
        assert j > 0 ==> vs[1..][j - 1] == vs[j];
      }
    }
  }

  /** A refusal about an event, among those of a reply. */
  ghost predicate RefusedAs(v: Verdict, r: Refused) {
    v.Rejected? && v.device == Some(r.key.device) && v.seqNo == Some(r.key.seqNo) && r.retryable == Retryable(v.code)
  }

  lemma {:induction false} RefusedKeysSound(vs: seq<Verdict>, r: Refused)
    requires r in RefusedKeys(vs)
    ensures exists v :: v in vs && RefusedAs(v, r)
  {
    if r in RefusedKeys(vs[1..]) {
      RefusedKeysSound(vs[1..], r);
      var v :| v in vs[1..] && RefusedAs(v, r);
      assert v in vs;
    } else {
      assert vs[0] in vs && RefusedAs(vs[0], r);
    }
  }

  lemma {:induction false} RefusedKeysComplete(vs: seq<Verdict>, v: Verdict, k: Key)
    requires v in vs && v.Rejected? && v.device == Some(k.device) && v.seqNo == Some(k.seqNo)
    ensures exists r :: r in RefusedKeys(vs) && r.key == k
  {
    if v == vs[0] {
      assert RefusedKeys(vs)[0].key == k && RefusedKeys(vs)[0] in RefusedKeys(vs);
    } else {
      assert v in vs[1..];
      RefusedKeysComplete(vs[1..], v, k);
      var r :| r in RefusedKeys(vs[1..]) && r.key == k;
      assert r in RefusedKeys(vs);
    }
  }

  lemma {:induction false} RejectedOfExact(vs: seq<Verdict>)
    ensures forall v :: v in RejectedOf(vs) <==> v in vs && v.Rejected?
  {
    if vs == [] {
    } else {
      RejectedOfExact(vs[1..]);
      assert forall v :: v in vs <==> v == vs[0] || v in vs[1..];
    }
  }

  /** What a refusal is called in a reply, and that only an outage is worth a retry. */
  lemma RefusalOnTheWire(d: int, s: int, code: RejectionCode)
    ensures RefusedKeys([Rejected(Some(d), Some(s), code)]) ==
            [Refused(Key(d, s),
                     match code
                     case UnknownType => "UNKNOWN_TYPE"
                     case UnsupportedSchema => "UNSUPPORTED_SCHEMA"
                     case InvalidPayload => "INVALID_PAYLOAD"
                     case UnknownCell => "UNKNOWN_CELL"
                     case SeqNotMonotonic => "SEQ_NOT_MONOTONIC"
                     case AttributionMismatch => "ATTRIBUTION_MISMATCH"
                     case WrongIncident => "WRONG_INCIDENT"
                     case TypeNotPermitted => "TYPE_NOT_PERMITTED"
                     case Unavailable => "UNAVAILABLE",
                     code == Unavailable)]
  {
  }

  /** With one verdict a row, each row gets what its own verdict says. */
  lemma VerdictDecides(p: Phone, batch: seq<Key>, batchRef: int, vs: seq<Verdict>, t: Timing, i: nat)
    requires |vs| == |batch| && i < |batch| && Selected(p, batch)
    requires forall j :: 0 <= j < |batch| ==> Names(vs[j], batch[j])
    ensures var p' := AfterSend(p, batch, batchRef, Evaluated(AcceptedKeys(AcceptedOf(vs)), RefusedKeys(RejectedOf(vs))), t);
            InState(p', batch[i], if vs[i].Accepted? then ACKED else REJECTED)
  {
    hide AfterSend, NextTime, AcceptedKeys, RefusedKeys, AcceptedOf, RejectedOf;
    var k, accepted, rejected := batch[i], AcceptedKeys(AcceptedOf(vs)), RefusedKeys(RejectedOf(vs));
    AcceptedKeysExact(vs, k);
    FateOfSentRow(p, batch, batchRef, accepted, rejected, t, k);
    if vs[i].Accepted? {
      assert Names(vs[i], batch[i]);
    } else {
      assert k !in accepted by {
        assert forall j :: 0 <= j < |vs| && j != i ==> batch[j] != k;
      }
      RefusalsOfRow(vs, batch, i);
    }
  }

  lemma RefusalsOfRow(vs: seq<Verdict>, batch: seq<Key>, i: nat)
    requires |vs| == |batch| && i < |batch| && vs[i].Rejected?
    requires forall j :: 0 <= j < |batch| ==> Names(vs[j], batch[j])
    ensures exists r :: r in RefusedKeys(RejectedOf(vs)) && r.key == batch[i]
    ensures forall r :: r in RefusedKeys(RejectedOf(vs)) ==> !r.retryable
  {
    hide RefusedKeys;
    RejectedOfExact(vs);
    assert Names(vs[i], batch[i]) && vs[i] in vs;
    RefusedKeysComplete(RejectedOf(vs), vs[i], batch[i]);
    forall r | r in RefusedKeys(RejectedOf(vs)) ensures !r.retryable {
      RefusedKeysSound(RejectedOf(vs), r);
      var v :| v in RejectedOf(vs) && RefusedAs(v, r);
      var j :| 0 <= j < |vs| && vs[j] == v;
      assert Names(vs[j], batch[j]);
    }
  }

  lemma RowsHaveEvents(w: World, d: int, keys: seq<Key>)
    requires Inv(w) && d in w.phones && Selected(w.phones[d], keys)
    ensures var p := w.phones[d]; forall k :: k in keys ==> k in p.events && p.events[k].event.Id() == k && k.device == d
  {
    assert PhoneOk(d, w.phones[d], w.server, w.relayed);
    hide UplinkOk, AuthorshipOk, DownlinkOk, RequestOk, ReplyOk, PageOk;
  }

  /**
   A pass over HTTPS that loses no message: a row ends ACKED if its event is eligible and
   its `seq` is at least everything the server had from the device and every eligible `seq`
   drained before it, and REJECTED otherwise.  No row of the batch is left waiting.
   */
  lemma LossFreePassSettles(w: World, d: int, batch: seq<Key>, batchRef: int, incident: Option<int>, t: Timing, i: nat)
    requires Inv(w) && d in w.phones && Selected(w.phones[d], batch) && i < |batch|
    ensures var p, k := w.phones[d], batch[i];
            var raws := Candidates(EventsFor(p, batch));
            var w' := RunWorld(w, PassSteps(w, d, batch, batchRef, incident, t));
            && |raws| == |batch| && d in w'.phones
            && InState(w'.phones[d], k,
                 if Eligible(raws[i], FieldCaller(d, incident)) && k.seqNo >= MaxSeq(w.server.rows, d)
                    && k.seqNo >= EligibleMax(raws[..i], FieldCaller(d, incident), d)
                 then ACKED else REJECTED)
  {
    hide Inv, Ingest, Judge, AfterSend, EventsFor, Eligible, EligibleMax, MaxSeq, RunWorld, PassSteps, Names, AcceptedKeys,
      RefusedKeys, AcceptedOf, RejectedOf;
    var p, k, caller := w.phones[d], batch[i], FieldCaller(d, incident);
    RowsHaveEvents(w, d, batch);
    EventsForAll(p, batch);
    LogOfInv(w);
    var es := EventsFor(p, batch);
    var raws := Candidates(es);
    PassIsARun(w, d, batch, batchRef, incident, t);
    AcceptedIff(w.server, raws, caller, i);
    forall j | 0 <= j < |batch| ensures Names(Ingest(w.server, raws, caller).1[j], batch[j]) {
      VerdictsName(w.server, es, caller, j);
    }
    VerdictDecides(p, batch, batchRef, Ingest(w.server, raws, caller).1, t, i);
  }
}
