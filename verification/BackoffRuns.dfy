/**
 Backoff over whole runs: the time persisted with a waiting row is the one the policy drew
 at its last failed delivery, whatever happened since, so the row waits accordingly.
 */
module BackoffRuns {
  import opened Results
  import opened Domain
  import opened FieldStore
  import opened Backoff
  import opened Ingestion
  import opened OutboxEngine
  import opened SyncProtocol
  import opened SyncSafety

  /** When a step applies answers, and over which transport. */
  function TimingOf(step: Step): Option<Timing> {
    match step
    case DeliverStep(_, _, t) => Some(t)
    case FailStep(_, _, t) => Some(t)
    case _ => None
  }

  /** The timing of the last failed delivery of a row in a run, or `last` if there is none. */
  function LastFailure(w: World, steps: seq<Step>, d: int, k: Key, last: Option<Timing>): Option<Timing>
    decreases steps
  {
    if steps == [] then last
    else LastFailure(Next(w, steps[0]), steps[1..], d, k,
                     if FailedDelivery(w, steps[0], d, k) then TimingOf(steps[0]) else last)
  }

  /** The row's persisted time is what the policy drew at its last failure. */
  predicate OnSchedule(k: Key, row: OutboxRow, last: Option<Timing>) {
    if row.attemptCount == 0 then row.nextAttemptAt == None
    else last.Some? &&
         row.nextAttemptAt == Some(NextAttemptAt(last.value.now, last.value.capabilities, row.critical,
                                                 row.attemptCount - 1, DrawFor(last.value, k)))
  }

  // ------------------------------------------------------------------ one step

  lemma {:induction false} MarkKeepsSchedule(p: Phone, keys: seq<Key>, batchRef: int, k: Key)
    requires k in p.outbox
    ensures var p' := MarkBatch(p, keys, batchRef);
            && k in p'.outbox
            && p'.outbox[k] == p.outbox[k].(state := p'.outbox[k].state, batchRef := p'.outbox[k].batchRef)
            && (p'.outbox[k].state == p.outbox[k].state || (InState(p, k, PENDING) && InState(p', k, IN_FLIGHT)))
    decreases keys
  {
    if keys == [] {
    } else {
      MarkKeepsSchedule(MarkInFlight(p, keys[0], batchRef), keys[1..], batchRef, k);
    }
  }

  /** A reply never sends a row back: no refusal of the server is transient. */
  lemma ReplyKeepsSchedule(p: Phone, batch: seq<Key>, vs: seq<Verdict>, t: Timing, k: Key)
    requires k in p.outbox && forall v :: v in vs && v.Rejected? ==> !Retryable(v.code)
    ensures var p' := AfterReply(p, batch, vs, t);
            && k in p'.outbox
            && p'.outbox[k].attemptCount == p.outbox[k].attemptCount && p'.outbox[k].critical == p.outbox[k].critical
            && p'.outbox[k].nextAttemptAt == p.outbox[k].nextAttemptAt
            && !(InState(p, k, IN_FLIGHT) && InState(p', k, PENDING))
  {
    hide Settle, AcceptedKeys, RefusedKeys;
    var accepted, rejected := AcceptedKeys(AcceptedOf(vs)), RefusedKeys(RejectedOf(vs));
    AcceptedOfSubset(vs);
    NothingTransient(RejectedOf(vs));
    if p.outbox[k].state == IN_FLIGHT {
      SettleDecides(p, p, batch, accepted, rejected, t, k);
    } else {
      SettleLeavesSettled(p, p, batch, accepted, rejected, t, k);
    }
  }

  lemma {:induction false} NothingTransient(vs: seq<Verdict>)
    requires forall v :: v in vs && v.Rejected? ==> !Retryable(v.code)
    ensures forall r :: r in RefusedKeys(vs) ==> !r.retryable
  {
    if vs == [] {
    } else {
      assert vs[0] in vs;
      assert forall v :: v in vs[1..] ==> v in vs;
      NothingTransient(vs[1..]);
    }
  }

  predicate SameSchedule(a: OutboxRow, b: OutboxRow) {
    a.attemptCount == b.attemptCount && a.critical == b.critical && a.nextAttemptAt == b.nextAttemptAt
  }

  /** A step moves the schedule of a row only by failing its delivery, and then by the policy. */
  lemma StepOnRow(w: World, step: Step, d: int, k: Key)
    requires d in w.phones && k in w.phones[d].outbox
    requires step.DeliverStep? ==> forall v :: v in step.reply.verdicts && v.Rejected? ==> !Retryable(v.code)
    ensures var p, w' := w.phones[d], Next(w, step);
            && d in w'.phones
            && (k in w'.phones[d].outbox ==>
                  if FailedDelivery(w, step, d, k)
                  then step.FailStep? && k in step.batch &&
                       w'.phones[d].outbox[k] == Returned(p.outbox[k], NextTime(p, step.batch, k, step.timing))
                  else SameSchedule(p.outbox[k], w'.phones[d].outbox[k]))
  {
    hide Ingest, Perform, AfterReply, FailAll, MarkBatch, ReceiveAll, EventsFor, NextTime, AppendAuthored;
    var p := w.phones[d];
    match step
    case AuthorStep(_, draft, now) => AuthorLeavesOldRows(p, d, draft, now, k);
    case MarkStep(_, keys, batchRef) => MarkKeepsSchedule(p, keys, batchRef, k);
    case DeliverStep(reply, batch, t) => ReplyKeepsSchedule(p, batch, reply.verdicts, t, k);
    case FailStep(_, batch, t) => FailAllReturns(p, p, batch, t, k);
    case PageStep(g) => ReceiveLeavesOutbox(p, g.events);
    case _ =>
  }

  lemma AuthorLeavesOldRows(p: Phone, d: int, draft: Event, now: int, k: Key)
    requires k in p.outbox
    ensures AppendAuthored(p, d, draft, now).Some? ==>
              var p' := AppendAuthored(p, d, draft, now).value; k in p'.outbox && p'.outbox[k] == p.outbox[k]
  {
  }

  lemma StepKeepsSchedule(w: World, step: Step, d: int, k: Key, last: Option<Timing>)
    requires Inv(w) && d in w.phones && k in w.phones[d].outbox && OnSchedule(k, w.phones[d].outbox[k], last)
    ensures var w' := Next(w, step);
            && d in w'.phones
            && (k in w'.phones[d].outbox ==>
                  OnSchedule(k, w'.phones[d].outbox[k], if FailedDelivery(w, step, d, k) then TimingOf(step) else last))
  {
    hide Next, Inv, FailedDelivery, NextAttemptAt;
    if step.DeliverStep? && step.reply !in w.replies {
      LostReplyDoesNothing(w, step, d, k);
    } else {
      RepliesNotTransient(w, step);
      StepOnRow(w, step, d, k);
    }
  }

  lemma RepliesNotTransient(w: World, step: Step)
    requires Inv(w) && (step.DeliverStep? ==> step.reply in w.replies)
    ensures step.DeliverStep? ==> forall v :: v in step.reply.verdicts && v.Rejected? ==> !Retryable(v.code)
  {
    hide PhoneOk, RequestOk, PageOk;
    if step.DeliverStep? {
      assert ReplyOk(step.reply, w.server.rows);
    }
  }

  lemma LostReplyDoesNothing(w: World, step: Step, d: int, k: Key)
    requires step.DeliverStep? && step.reply !in w.replies
    ensures Next(w, step) == w && !FailedDelivery(w, step, d, k)
  {
  }

  // ----------------------------------------------------------------- every run

  lemma {:induction false} RunKeepsSchedule(w: World, steps: seq<Step>, d: int, k: Key, last: Option<Timing>)
    requires Inv(w) && d in w.phones
    requires k in w.phones[d].outbox ==> OnSchedule(k, w.phones[d].outbox[k], last)
    ensures var w' := RunWorld(w, steps);
            && d in w'.phones
            && (k in w'.phones[d].outbox ==> OnSchedule(k, w'.phones[d].outbox[k], LastFailure(w, steps, d, k, last)))
    decreases steps
  {
    if steps == [] {
    } else {
      hide Next, Inv, FailedDelivery, OnSchedule;
      NextKeepsInv(w, steps[0]);
      var last' := if FailedDelivery(w, steps[0], d, k) then TimingOf(steps[0]) else last;
      if k in w.phones[d].outbox {
        StepKeepsSchedule(w, steps[0], d, k, last);
      } else {
        NewRowIsFresh(w, steps[0], d, k);
        FreshIsOnSchedule(Next(w, steps[0]).phones[d], k, last');
      }
      RunKeepsSchedule(Next(w, steps[0]), steps[1..], d, k, last');
    }
  }

  lemma FreshIsOnSchedule(p: Phone, k: Key, last: Option<Timing>)
    requires k in p.outbox ==> p.outbox[k].attemptCount == 0 && p.outbox[k].nextAttemptAt == None
    ensures k in p.outbox ==> OnSchedule(k, p.outbox[k], last)
  {
  }

  /** Whether the row is sendable at `later`, when it last failed at `t` with `attempt` failures before. */
  predicate WaitsFor(p: Phone, k: Key, t: Timing, attempt: nat, later: int)
    requires k in p.outbox
  {
    var waited := later - t.now;
    var due := Due(t.capabilities, p.outbox[k].critical, attempt);
    if NoWait(t.capabilities, p.outbox[k].critical, attempt) then Sendable(p, k, later) <==> waited >= 0
    else (5 * waited < 4 * due ==> !Sendable(p, k, later)) && (5 * waited >= 6 * due ==> Sendable(p, k, later))
  }

  /**
   In every run, a waiting row with no failed delivery is sendable; one with `n` of them is
   not sendable before four fifths of the documented delay for attempt `n - 1` after its
   last failed delivery, and is sendable after six fifths; in the collapsed band it is
   sendable at once.  Restarts, lost and repeated messages change none of this.
   */
  lemma BackoffOverRuns(devices: set<int>, steps: seq<Step>, d: int, k: Key, later: int)
    requires SERVER_DEVICE_ID !in devices
    requires var w := RunWorld(Init(devices), steps); d in w.phones && InState(w.phones[d], k, PENDING)
    ensures var p := RunWorld(Init(devices), steps).phones[d];
            var n := FailedDeliveries(Init(devices), steps, d, k);
            var last := LastFailure(Init(devices), steps, d, k, None);
            && p.outbox[k].attemptCount == n
            && (n == 0 ==> Sendable(p, k, later))
            && (n > 0 ==> last.Some? && WaitsFor(p, k, last.value, n - 1, later))
  {
    InitOk(devices);
    DevicesStay(Init(devices), steps, d);
    RunKeepsSchedule(Init(devices), steps, d, k, None);
    AttemptsCountFailures(Init(devices), steps, d, k);
    hide RunWorld, FailedDeliveries, LastFailure, NextAttemptAt, Due, NoWait, Inv;
    var row := RunWorld(Init(devices), steps).phones[d].outbox[k];
    var last := LastFailure(Init(devices), steps, d, k, None);
    if row.attemptCount > 0 {
      NextAttemptInTable(last.value.now, last.value.capabilities, row.critical, row.attemptCount - 1, DrawFor(last.value, k));
    }
  }

  /** Steps add and remove no phone. */
  lemma {:induction false} DevicesStay(w: World, steps: seq<Step>, d: int)
    requires d in RunWorld(w, steps).phones
    ensures d in w.phones
    decreases steps
  {
    if steps == [] {
    } else {
      hide Ingest, Perform, AfterReply, FailAll, MarkBatch, ReceiveAll, EventsFor, AppendAuthored;
      DevicesStay(Next(w, steps[0]), steps[1..], d);
    }
  }
}
