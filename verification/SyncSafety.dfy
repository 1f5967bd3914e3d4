/**
 What the invariant of the transition system means for a responder's reports: nothing
 acknowledged is missing, nothing is invented, what can be lost and when, and what a
 delta pull guarantees.
 */
module SyncSafety {
  import opened Results
  import opened Domain
  import opened EventStore
  import opened Ingestion
  import opened FieldStore
  import opened Queries
  import opened OutboxEngine
  import opened SyncProtocol

  /** The uplink and downlink guarantees of one phone, spelled out. */
  ghost predicate PhoneIsSafe(d: int, p: Phone, w: World) {
    && (forall k :: InState(p, k, ACKED) ==> k in p.events && Holds(w.server.rows, w.relayed, p.events[k].event))
    && (forall k :: k in p.events && k.device == d ==>
          k in p.outbox || Holds(w.server.rows, w.relayed, p.events[k].event))
    && (forall row :: row in w.server.rows && row.event.device == d ==>
          row.event.Id() in p.events && Matches(w.relayed, p.events[row.event.Id()].event, row.event))
    && (forall row :: row in w.server.rows && row.serverSeq <= Watermark(p) ==> row.event.Id() in p.events)
  }

  /**
   In every reachable state: an acknowledged event is on the server; an own event is queued
   or on the server; the server has nothing of a device it did not author; everything at
   or below the watermark is local.  Content is identical, or the same report where the
   event was ever relayed by SMS.
   */
  lemma EveryRunIsSafe(devices: set<int>, steps: seq<Step>)
    requires SERVER_DEVICE_ID !in devices
    ensures var w := RunWorld(Init(devices), steps);
            forall d :: d in w.phones ==> PhoneIsSafe(d, w.phones[d], w)
  {
    ReachableOk(devices, steps);
    var w := RunWorld(Init(devices), steps);
    hide RunWorld, Holds, Matches, WellFormed, PhoneOk, PhoneIsSafe, RequestOk, ReplyOk, PageOk;
    forall d | d in w.phones ensures PhoneIsSafe(d, w.phones[d], w) {
      PhoneOkMeans(d, w.phones[d], w);
    }
  }

  lemma PhoneOkMeans(d: int, p: Phone, w: World)
    requires PhoneOk(d, p, w.server, w.relayed)
    ensures PhoneIsSafe(d, p, w)
  {
    hide Holds, Matches;
  }

  /** Nothing is ever relayed in a run without SMS, so there content is identical. */
  lemma {:induction false} NothingRelayed(w: World, steps: seq<Step>)
    requires forall step :: step in steps ==> !step.RelayStep?
    ensures RunWorld(w, steps).relayed == w.relayed
    decreases steps
  {
    if steps == [] {
    } else {
      hide Ingest, Perform, MarkBatch, FailAll, AfterReply, PageOf, EventsFor, FieldStore.ApplyPage, AppendAuthored;
      assert steps[0] in steps;
      NothingRelayed(Next(w, steps[0]), steps[1..]);
    }
  }

  /** Two phones that both know an identity have the same report, and the same event if it never went by SMS. */
  lemma LogsAgree(devices: set<int>, steps: seq<Step>, a: int, b: int, k: Key)
    requires SERVER_DEVICE_ID !in devices
    requires var w := RunWorld(Init(devices), steps);
             a in w.phones && b in w.phones && k in w.phones[a].events && k in w.phones[b].events
    ensures var w := RunWorld(Init(devices), steps);
            var e, f := w.phones[a].events[k].event, w.phones[b].events[k].event;
            SameReport(e, f) && (k !in w.relayed ==> e == f)
  {
    ReachableOk(devices, steps);
    var w := RunWorld(Init(devices), steps);
    hide RunWorld, ReplyOk, RequestOk, PageOk, DownlinkOk, Holds;
    assert PhoneOk(a, w.phones[a], w.server, w.relayed) && PhoneOk(b, w.phones[b], w.server, w.relayed);
    if a != b {
      var e, f := w.phones[a].events[k].event, w.phones[b].events[k].event;
      KnownContent(a, w.phones[a], w.server, w.relayed, k);
      KnownContent(b, w.phones[b], w.server, w.relayed, k);
      hide PhoneOk;
      if k.device == a {
        OwnContent(a, w.phones[a], w.server.rows, w.relayed, f);
      } else if k.device == b {
        OwnContent(b, w.phones[b], w.server.rows, w.relayed, e);
      } else {
        SameRow(w.server.rows, e, f);
      }
    }
  }

  lemma KnownContent(d: int, p: Phone, l: Log, relayed: set<Key>, k: Key)
    requires PhoneOk(d, p, l, relayed) && k in p.events
    ensures p.events[k].event.Id() == k && AuthorshipOk(d, p, l.rows, relayed)
    ensures k.device == d || Holds(l.rows, {}, p.events[k].event)
  {
    hide Holds;
  }

  lemma OwnContent(d: int, p: Phone, rows: seq<Row>, relayed: set<Key>, e: Event)
    requires AuthorshipOk(d, p, rows, relayed) && Holds(rows, {}, e) && e.device == d
    ensures e.Id() in p.events && Matches(relayed, p.events[e.Id()].event, e)
  {
  }

  lemma SameRow(rows: seq<Row>, e: Event, f: Event)
    requires DeviceOrdered(rows) && Holds(rows, {}, e) && Holds(rows, {}, f) && e.Id() == f.Id()
    ensures e == f
  {
    var i :| 0 <= i < |rows| && rows[i].event == e;
    var j :| 0 <= j < |rows| && rows[j].event == f;
  }

  // ------------------------------------------------------------ settled outbox rows

  lemma {:induction false} MarkLeavesOtherRows(p: Phone, keys: seq<Key>, batchRef: int, k: Key)
    requires k in p.outbox && p.outbox[k].state != PENDING
    ensures k in MarkBatch(p, keys, batchRef).outbox && MarkBatch(p, keys, batchRef).outbox[k] == p.outbox[k]
    decreases keys
  {
    if keys == [] {
    } else {
      MarkLeavesOtherRows(MarkInFlight(p, keys[0], batchRef), keys[1..], batchRef, k);
    }
  }

  lemma {:induction false} ReceiveLeavesOutbox(p: Phone, rows: seq<Row>)
    ensures ReceiveAll(p, rows).outbox == p.outbox
    decreases rows
  {
    if rows == [] {
    } else {
      ReceiveLeavesOutbox(Receive(p, rows[0]), rows[1..]);
    }
  }

  /** REJECTED is final: no step changes such a row, or removes it. */
  lemma RejectedIsFinal(w: World, step: Step, d: int, k: Key)
    requires d in w.phones && InState(w.phones[d], k, REJECTED)
    ensures d in Next(w, step).phones && k in Next(w, step).phones[d].outbox
    ensures Next(w, step).phones[d].outbox[k] == w.phones[d].outbox[k]
  {
    hide Ingest, Perform, AfterReply, FailAll, MarkBatch, ReceiveAll, PageOf, EventsFor;
    var p := w.phones[d];
    match step
    case MarkStep(_, keys, batchRef) => MarkLeavesOtherRows(p, keys, batchRef, k);
    case DeliverStep(reply, batch, t) => DeliveredLeavesSettled(p, batch, reply.verdicts, t, k);
    case FailStep(_, batch, t) => FailAllReturns(p, p, batch, t, k);
    case PageStep(g) => ReceiveLeavesOutbox(p, g.events);
    case _ =>
  }

  lemma {:induction false} RejectedForever(w: World, steps: seq<Step>, d: int, k: Key)
    requires d in w.phones && InState(w.phones[d], k, REJECTED)
    ensures d in RunWorld(w, steps).phones && InState(RunWorld(w, steps).phones[d], k, REJECTED)
    decreases steps
  {
    hide Next;
    if steps == [] {
    } else {
      RejectedIsFinal(w, steps[0], d, k);
      RejectedForever(Next(w, steps[0]), steps[1..], d, k);
    }
  }

  /** Delivered: acknowledged, or acknowledged and pruned since. */
  predicate Delivered(p: Phone, k: Key) {
    k in p.events && (k in p.outbox ==> p.outbox[k].state == ACKED)
  }

  /** ACKED is left only by pruning, and a pruned row never comes back. */
  lemma AckedIsFinal(w: World, step: Step, d: int, k: Key)
    requires d in w.phones && Delivered(w.phones[d], k)
    ensures d in Next(w, step).phones && Delivered(Next(w, step).phones[d], k)
    ensures k in w.phones[d].outbox && k !in Next(w, step).phones[d].outbox ==> step == PruneStep(d)
  {
    hide Ingest, Perform, AfterReply, FailAll, MarkBatch, ReceiveAll, PageOf, EventsFor;
    var p := w.phones[d];
    match step
    case MarkStep(_, keys, batchRef) => MarkKeepsDelivered(p, keys, batchRef, k);
    case DeliverStep(reply, batch, t) =>
      DeliveredKeepsKeys(p, batch, reply.verdicts, t);
      if k in p.outbox { DeliveredLeavesSettled(p, batch, reply.verdicts, t, k); }
    case FailStep(_, batch, t) =>
      FailAllKeepsKeys(p, batch, t);
      if k in p.outbox { FailAllReturns(p, p, batch, t, k); }
    case PageStep(g) => ReceiveKeepsDelivered(p, g.events, k);
    case _ =>
  }

  lemma {:induction false} MarkKeepsDelivered(p: Phone, keys: seq<Key>, batchRef: int, k: Key)
    requires Delivered(p, k)
    ensures var p' := MarkBatch(p, keys, batchRef); Delivered(p', k) && (k in p.outbox <==> k in p'.outbox)
    decreases keys
  {
    if keys == [] {
    } else {
      MarkKeepsDelivered(MarkInFlight(p, keys[0], batchRef), keys[1..], batchRef, k);
    }
  }

  lemma {:induction false} ReceiveKeepsDelivered(p: Phone, rows: seq<Row>, k: Key)
    requires Delivered(p, k)
    ensures Delivered(ReceiveAll(p, rows), k) && ReceiveAll(p, rows).outbox == p.outbox
    decreases rows
  {
    if rows == [] {
    } else {
      ReceiveKeepsDelivered(Receive(p, rows[0]), rows[1..], k);
    }
  }

  lemma {:induction false} DeliveredForever(w: World, steps: seq<Step>, d: int, k: Key)
    requires d in w.phones && Delivered(w.phones[d], k)
    ensures d in RunWorld(w, steps).phones && Delivered(RunWorld(w, steps).phones[d], k)
    decreases steps
  {
    hide Next, Delivered;
    if steps == [] {
    } else {
      AckedIsFinal(w, steps[0], d, k);
      DeliveredForever(Next(w, steps[0]), steps[1..], d, k);
    }
  }

  // ------------------------------------------------------ attempts count failures

  function Attempts(w: World, d: int, k: Key): nat {
    if d in w.phones && k in w.phones[d].outbox then w.phones[d].outbox[k].attemptCount else 0
  }

  /** A delivery failed: an in-flight row went back, other than by a restart. */
  predicate FailedDelivery(w: World, step: Step, d: int, k: Key) {
    && d in w.phones && InState(w.phones[d], k, IN_FLIGHT)
    && d in Next(w, step).phones && InState(Next(w, step).phones[d], k, PENDING)
    && step != CrashStep(d)
  }

  function FailedDeliveries(w: World, steps: seq<Step>, d: int, k: Key): nat
    decreases steps
  {
    if steps == [] then 0
    else (if FailedDelivery(w, steps[0], d, k) then 1 else 0) + FailedDeliveries(Next(w, steps[0]), steps[1..], d, k)
  }

  /** A delivered reply returns a row at most once, and only a row in flight. */
  lemma DeliveredCountsOnce(p: Phone, batch: seq<Key>, vs: seq<Verdict>, t: Timing, k: Key)
    requires k in p.outbox
    ensures var p' := AfterReply(p, batch, vs, t);
            && k in p'.outbox
            && p'.outbox[k].attemptCount == p.outbox[k].attemptCount +
                 (if InState(p, k, IN_FLIGHT) && InState(p', k, PENDING) then 1 else 0)
  {
    hide Settle, AcceptedKeys, RefusedKeys;
    var accepted, rejected := AcceptedKeys(AcceptedOf(vs)), RefusedKeys(RejectedOf(vs));
    if p.outbox[k].state == IN_FLIGHT {
      SettleDecides(p, p, batch, accepted, rejected, t, k);
    } else {
      SettleLeavesSettled(p, p, batch, accepted, rejected, t, k);
    }
  }

  lemma {:induction false} MarkCountsNothing(p: Phone, keys: seq<Key>, batchRef: int, k: Key)
    requires k in p.outbox
    ensures var p' := MarkBatch(p, keys, batchRef);
            && k in p'.outbox && p'.outbox[k].attemptCount == p.outbox[k].attemptCount
            && (InState(p, k, IN_FLIGHT) ==> InState(p', k, IN_FLIGHT))
    decreases keys
  {
    if keys == [] {
    } else {
      MarkCountsNothing(MarkInFlight(p, keys[0], batchRef), keys[1..], batchRef, k);
    }
  }

  lemma StepCounts(w: World, step: Step, d: int, k: Key)
    requires d in w.phones && k in w.phones[d].outbox
    ensures d in Next(w, step).phones
    ensures k in Next(w, step).phones[d].outbox ==>
              Attempts(Next(w, step), d, k) == Attempts(w, d, k) + (if FailedDelivery(w, step, d, k) then 1 else 0)
    ensures k !in Next(w, step).phones[d].outbox ==> !FailedDelivery(w, step, d, k)
  {
    hide Ingest, Perform, AfterReply, FailAll, MarkBatch, ReceiveAll, PageOf, EventsFor;
    var p := w.phones[d];
    match step
    case MarkStep(_, keys, batchRef) => MarkCountsNothing(p, keys, batchRef, k);
    case DeliverStep(reply, batch, t) => DeliveredCountsOnce(p, batch, reply.verdicts, t, k);
    case FailStep(_, batch, t) => FailAllReturns(p, p, batch, t, k);
    case PageStep(g) => ReceiveLeavesOutbox(p, g.events);
    case _ =>
  }

  /** A row only ever enters the outbox when its event is authored: pending, never attempted. */
  lemma NewRowIsFresh(w: World, step: Step, d: int, k: Key)
    requires d in w.phones && k !in w.phones[d].outbox
    ensures d in Next(w, step).phones
    ensures var p := Next(w, step).phones[d];
            k in p.outbox ==> p.outbox[k].state == PENDING && p.outbox[k].attemptCount == 0 && p.outbox[k].nextAttemptAt == None
  {
    hide Ingest, Perform, AfterReply, FailAll, MarkBatch, ReceiveAll, PageOf, EventsFor;
    var p := w.phones[d];
    match step
    case MarkStep(_, keys, batchRef) => MarkKeepsKeys(p, keys, batchRef);
    case DeliverStep(reply, batch, t) => DeliveredKeepsKeys(p, batch, reply.verdicts, t);
    case FailStep(_, batch, t) => FailAllKeepsKeys(p, batch, t);
    case PageStep(g) => ReceiveLeavesOutbox(p, g.events);
    case _ =>
  }

  /** Over any run, `attempt_count` is the number of failed deliveries; restarts consume none. */
  lemma {:induction false} AttemptsCountFailures(w: World, steps: seq<Step>, d: int, k: Key)
    requires Inv(w) && d in w.phones
    requires d in RunWorld(w, steps).phones && k in RunWorld(w, steps).phones[d].outbox
    ensures Attempts(RunWorld(w, steps), d, k) == Attempts(w, d, k) + FailedDeliveries(w, steps, d, k)
    decreases steps
  {
    if steps == [] {
    } else {
      hide Next, Inv, FailedDelivery;
      var w1 := Next(w, steps[0]);
      NextKeepsInv(w, steps[0]);
      if k in w.phones[d].outbox {
        StepCounts(w, steps[0], d, k);
        if k !in w1.phones[d].outbox {
          PrunedStaysPruned(w, steps[0], steps[1..], d, k);
        } else {
          AttemptsCountFailures(w1, steps[1..], d, k);
        }
      } else {
        NewRowIsFresh(w, steps[0], d, k);
        NotInFlightNotFailed(w, steps[0], d, k);
        AttemptsCountFailures(w1, steps[1..], d, k);
      }
    }
  }

  lemma NotInFlightNotFailed(w: World, step: Step, d: int, k: Key)
    requires d in w.phones && k !in w.phones[d].outbox
    ensures !FailedDelivery(w, step, d, k)
  {
  }

  /** A row that leaves the outbox was delivered, so it is not in the outbox later. */
  lemma PrunedStaysPruned(w: World, step: Step, steps: seq<Step>, d: int, k: Key)
    requires Inv(w) && d in w.phones && k in w.phones[d].outbox
    requires d in Next(w, step).phones && k !in Next(w, step).phones[d].outbox
    ensures d in RunWorld(Next(w, step), steps).phones && k !in RunWorld(Next(w, step), steps).phones[d].outbox
  {
    assert PhoneOk(d, w.phones[d], w.server, w.relayed);
    LeavesKeepEvent(w, step, d, k);
    AbsentStaysAbsent(Next(w, step), steps, d, k);
  }

  lemma LeavesKeepEvent(w: World, step: Step, d: int, k: Key)
    requires d in w.phones && k in w.phones[d].events
    ensures d in Next(w, step).phones && k in Next(w, step).phones[d].events
  {
    hide Ingest, Perform, AfterReply, FailAll, MarkBatch, ReceiveAll, PageOf, EventsFor;
    var p := w.phones[d];
    match step
    case MarkStep(_, keys, batchRef) => MarkBatchMoves(p, keys, batchRef, w.server.rows, w.relayed);
    case DeliverStep(reply, batch, t) => DeliveredKeepsKeys(p, batch, reply.verdicts, t);
    case FailStep(_, batch, t) => FailAllKeepsKeys(p, batch, t);
    case PageStep(g) => ReceiveKeepsEvents(p, g.events);
    case _ =>
  }

  lemma {:induction false} AnswersKeepKeys(p: Phone, answers: seq<Answer>)
    ensures ApplyAnswers(p, answers).events == p.events
    ensures ApplyAnswers(p, answers).outbox.Keys == p.outbox.Keys
    decreases answers
  {
    if answers == [] {
    } else {
      AnswersKeepKeys(ApplyAnswer(p, answers[0]), answers[1..]);
    }
  }

  lemma DeliveredKeepsKeys(p: Phone, batch: seq<Key>, vs: seq<Verdict>, t: Timing)
    ensures AfterReply(p, batch, vs, t).events == p.events && AfterReply(p, batch, vs, t).outbox.Keys == p.outbox.Keys
  {
    hide ApplyAnswers, AcceptedKeys, RefusedKeys, NextTime;
    var accepted, rejected := AcceptedKeys(AcceptedOf(vs)), RefusedKeys(RejectedOf(vs));
    AnswersKeepKeys(p, Acceptances(accepted));
    AnswersKeepKeys(ApplyAnswers(p, Acceptances(accepted)), RefusalAnswers(p, batch, rejected, t));
  }

  lemma DeliveredLeavesSettled(p: Phone, batch: seq<Key>, vs: seq<Verdict>, t: Timing, k: Key)
    requires k in p.outbox && p.outbox[k].state != IN_FLIGHT
    ensures k in AfterReply(p, batch, vs, t).outbox && AfterReply(p, batch, vs, t).outbox[k] == p.outbox[k]
  {
    hide Settle, AcceptedKeys, RefusedKeys;
    SettleLeavesSettled(p, p, batch, AcceptedKeys(AcceptedOf(vs)), RefusedKeys(RejectedOf(vs)), t, k);
  }

  lemma FailAllKeepsKeys(p: Phone, batch: seq<Key>, t: Timing)
    ensures FailAll(p, p, batch, t).events == p.events && FailAll(p, p, batch, t).outbox.Keys == p.outbox.Keys
  {
    hide ApplyAnswers, NextTime;
    AnswersKeepKeys(p, FailureAnswers(batch, NextTimes(p, batch, t)));
  }

  lemma {:induction false} MarkKeepsKeys(p: Phone, keys: seq<Key>, batchRef: int)
    ensures MarkBatch(p, keys, batchRef).outbox.Keys == p.outbox.Keys
    decreases keys
  {
    if keys == [] {
    } else {
      MarkKeepsKeys(MarkInFlight(p, keys[0], batchRef), keys[1..], batchRef);
    }
  }

  lemma {:induction false} ReceiveKeepsEvents(p: Phone, rows: seq<Row>)
    ensures forall k :: k in p.events ==> k in ReceiveAll(p, rows).events
    decreases rows
  {
    if rows == [] {
    } else {
      ReceiveKeepsEvents(Receive(p, rows[0]), rows[1..]);
    }
  }

  lemma {:induction false} AbsentStaysAbsent(w: World, steps: seq<Step>, d: int, k: Key)
    requires d in w.phones && k in w.phones[d].events && k !in w.phones[d].outbox
    ensures d in RunWorld(w, steps).phones && k !in RunWorld(w, steps).phones[d].outbox
    decreases steps
  {
    hide Next;
    if steps == [] {
    } else {
      StepAddsNoOldRow(w, steps[0], d, k);
      LeavesKeepEvent(w, steps[0], d, k);
      AbsentStaysAbsent(Next(w, steps[0]), steps[1..], d, k);
    }
  }

  lemma StepAddsNoOldRow(w: World, step: Step, d: int, k: Key)
    requires d in w.phones && k in w.phones[d].events && k !in w.phones[d].outbox
    ensures d in Next(w, step).phones && k !in Next(w, step).phones[d].outbox
  {
    hide Ingest, Perform, AfterReply, FailAll, MarkBatch, ReceiveAll, PageOf, EventsFor;
    var p := w.phones[d];
    match step
    case MarkStep(_, keys, batchRef) => MarkKeepsKeys(p, keys, batchRef);
    case DeliverStep(reply, batch, t) => DeliveredKeepsKeys(p, batch, reply.verdicts, t);
    case FailStep(_, batch, t) => FailAllKeepsKeys(p, batch, t);
    case PageStep(g) => ReceiveLeavesOutbox(p, g.events);
    case _ =>
  }

  // ------------------------------------------------------------- what can be lost

  /** The server's part of any run is a run of the server. */
  lemma {:induction false} ServerPartIsARun(w: World, steps: seq<Step>) returns (ops: seq<Op>)
    ensures RunWorld(w, steps).server == Run(w.server, ops)
    decreases steps
  {
    if steps == [] {
      ops := [];
    } else {
      hide Ingest, Author, AfterReply, FailAll, MarkBatch, PageOf, EventsFor, ReceiveAll;
      var rest := ServerPartIsARun(Next(w, steps[0]), steps[1..]);
      var op := match steps[0]
        case IngestStep(request, incident) =>
          if request !in w.requests then Burn(0)
          else IngestOp(Candidates(request.events),
                        if request.relayed then GatewayCaller(incident) else FieldCaller(request.device, incident))
        case ServerAuthorStep(draft) => AuthorOp(draft)
        case BurnStep(n) => Burn(n)
        case _ => Burn(0);
      assert Next(w, steps[0]).server == Perform(w.server, op);
      ops := [op] + rest;
      assert ops[0] == op && ops[1..] == rest;
    }
  }

  /**
   A queued event that the server does not hold can still reach it, by some continuation
   of the run, if and only if its `seq` is above everything the server has from its
   device.  Below that, it is lost to the server for good.
   */
  lemma DeliverableIff(w: World, d: int, k: Key)
    requires Inv(w) && d in w.phones && InState(w.phones[d], k, PENDING)
    requires k in w.phones[d].events && !Stored(w.server.rows, k)
    requires Eligible(Candidate(w.phones[d].events[k].event), FieldCaller(d, None))
    ensures k.seqNo > MaxSeq(w.server.rows, d) <==>
            exists steps :: Stored(RunWorld(w, steps).server.rows, k)
  {
    PendingIsOwn(w, d, k);
    EligibleSeq(w.phones[d].events[k].event, FieldCaller(d, None));
    hide *;
    if k.seqNo > MaxSeq(w.server.rows, d) {
      SendOneAndIngest(w, d, k);
    } else {
      NeverArrives(w, k, w.phones[d].events[k].event);
    }
  }

  lemma EligibleSeq(e: Event, caller: Option<Caller>)
    requires Eligible(Candidate(e), caller)
    ensures e.Id().seqNo >= 0
  {
    EligibleIsCanonical(Candidate(e), caller);
  }

  lemma PendingIsOwn(w: World, d: int, k: Key)
    requires Inv(w) && d in w.phones && InState(w.phones[d], k, PENDING) && k in w.phones[d].events
    ensures w.phones[d].events[k].event.Id() == k && k.device == d && WellFormed(w.server)
  {
    assert PhoneOk(d, w.phones[d], w.server, w.relayed);
    hide UplinkOk, AuthorshipOk, DownlinkOk, RequestOk, ReplyOk, PageOk, WellFormed;
  }

  lemma NeverArrives(w: World, k: Key, e: Event)
    requires WellFormed(w.server) && e.Id() == k && !Stored(w.server.rows, k) && 0 <= k.seqNo <= MaxSeq(w.server.rows, k.device)
    ensures forall steps :: !Stored(RunWorld(w, steps).server.rows, k)
  {
    BelowMax(w.server.rows, k);
    hide WellFormed, RunWorld, MaxSeq, Run, Stored;
    forall steps ensures !Stored(RunWorld(w, steps).server.rows, k) {
      var ops := ServerPartIsARun(w, steps);
      NeverStored(w.server, e, ops);
    }
  }

  lemma BelowMax(rows: seq<Row>, k: Key)
    requires !Stored(rows, k) && 0 <= k.seqNo <= MaxSeq(rows, k.device)
    ensures k.seqNo < MaxSeq(rows, k.device)
  {
    MaxSeqBounds(rows, k.device);
    assert Key(k.device, k.seqNo) == k;
    hide MaxSeq;
  }

  lemma SendOneAndIngest(w: World, d: int, k: Key)
    requires WellFormed(w.server) && d in w.phones && InState(w.phones[d], k, PENDING) && k in w.phones[d].events
    requires w.phones[d].events[k].event.Id() == k && k.device == d && k.seqNo > MaxSeq(w.server.rows, d)
    requires Eligible(Candidate(w.phones[d].events[k].event), FieldCaller(d, None))
    ensures exists steps :: Stored(RunWorld(w, steps).server.rows, k)
  {
    var p := w.phones[d];
    var e := p.events[k].event;
    assert [k][1..] == [];
    assert EventsFor(p, [k][1..]) == [];
    assert EventsFor(p, [k]) == [e];
    var request := Request(d, [e], false);
    var steps := [SendStep(d, [k]), IngestStep(request, None)];
    var w1 := Next(w, steps[0]);
    assert w1 == w.(requests := w.requests + {request});
    StoredByOneIngest(w.server, e, FieldCaller(d, None));
    hide Eligible, Refusal, MaxSeq, WellFormed, EventsFor, Ingest;
    assert Candidates([e]) == [Candidate(e)];
    var op := IngestOp([Candidate(e)], FieldCaller(d, None));
    assert Run(w.server, [op]) == Perform(w.server, op) by {
      assert [op][1..] == [];
    }
    var w2 := Next(w1, steps[1]);
    assert w2.server == Perform(w.server, op);
    assert steps[1..][1..] == [];
    assert RunWorld(w, steps) == RunWorld(w1, steps[1..]) == RunWorld(w2, steps[1..][1..]) == w2;
    assert Stored(RunWorld(w, steps).server.rows, k);
  }

  // ----------------------------------------------------- what single steps achieve

  /** A restart leaves nothing in flight, and every row its attempts and time; it changes nothing else. */
  lemma CrashExact(w: World, d: int, k: Key)
    requires d in w.phones
    ensures var w' := Next(w, CrashStep(d));
            && w' == w.(phones := w'.phones) && w'.phones.Keys == w.phones.Keys
            && (forall e :: e in w.phones && e != d ==> w'.phones[e] == w.phones[e])
            && var p, p' := w.phones[d], w'.phones[d];
               && p' == p.(outbox := p'.outbox) && (k in p'.outbox <==> k in p.outbox)
               && (k in p.outbox ==>
                     && p'.outbox[k].state == (if p.outbox[k].state == IN_FLIGHT then PENDING else p.outbox[k].state)
                     && p'.outbox[k].attemptCount == p.outbox[k].attemptCount
                     && p'.outbox[k].nextAttemptAt == p.outbox[k].nextAttemptAt
                     && p'.outbox[k].critical == p.outbox[k].critical
                     && p'.outbox[k].firstQueuedAt == p.outbox[k].firstQueuedAt)
  {
  }

  /** Pruning drops the acknowledged rows from the outbox, never an event, and nothing else. */
  lemma PruneExact(w: World, d: int, k: Key)
    requires d in w.phones
    ensures var w' := Next(w, PruneStep(d));
            && w' == w.(phones := w'.phones) && w'.phones.Keys == w.phones.Keys
            && (forall e :: e in w.phones && e != d ==> w'.phones[e] == w.phones[e])
            && var p, p' := w.phones[d], w'.phones[d];
               && p' == p.(outbox := p'.outbox)
               && (k in p'.outbox <==> k in p.outbox && p.outbox[k].state != ACKED)
               && (k in p'.outbox ==> p'.outbox[k] == p.outbox[k])
  {
  }

  /** A page fetched and applied without delay: the phone holds every row up to its new watermark that it had not seen. */
  lemma FetchThenPage(w: World, d: int, limit: nat)
    requires d in w.phones && limit >= 1 && Ascending(w.server.rows)
    ensures var p := w.phones[d];
            var page := PageOf(w.server.rows, Watermark(p), limit, Everything);
            var w1 := Next(w, FetchStep(d, limit));
            var w2 := Next(w1, PageStep(Page(d, Watermark(p), page.events, page.nextSince)));
            && w1.phones == w.phones && w2.server == w.server && w2.requests == w.requests && w2.replies == w.replies
            && d in w2.phones && Watermark(w2.phones[d]) == page.nextSince
            && w2.phones[d].outbox == p.outbox
            && (forall row :: row in w.server.rows && Watermark(p) < row.serverSeq <= page.nextSince ==>
                  row.event.Id() in w2.phones[d].events)
  {
    var p := w.phones[d];
    var page := PageOf(w.server.rows, Watermark(p), limit, Everything);
    PageIsAWindow(w.server.rows, Watermark(p), limit, Everything);
    forall row | row in page.events ensures row.event.Id() in FieldStore.ApplyPage(p, page.events, page.nextSince).events {
      PageExact(p, page.events, page.nextSince, row.event.Id());
      var i :| 0 <= i < |page.events| && page.events[i] == row;
      assert page.events[i].event.Id() == row.event.Id();
    }
    PageExact(p, page.events, page.nextSince, Key(0, 0));
    hide PageOf, ReceiveAll, Ascending;
  }

  /** A phone's request adds rows of that phone alone, and of the incident it is bound to. */
  lemma IngestStepInScope(w: World, request: Request, incident: Option<int>, i: nat)
    requires request in w.requests
    requires |w.server.rows| <= i < |Next(w, IngestStep(request, incident)).server.rows|
    ensures var e := Next(w, IngestStep(request, incident)).server.rows[i].event;
            && (!request.relayed ==> e.device == request.device)
            && (incident.Some? ==> e.incident == incident.value)
  {
    hide Ingest;
    AddedRowsInScope(w.server, Candidates(request.events),
                     if request.relayed then GatewayCaller(incident) else FieldCaller(request.device, incident), i);
  }

  /** A report relayed by SMS is stored under its author's identity, though another device submits it. */
  lemma RelayedReportArrives(w: World, d: int, e: Event, incident: Option<int>)
    requires d in w.phones && CanRelay(w.phones[d], [e]) && WellFormed(w.server)
    requires Canonical(e) && e.schema == 1 && (incident.Some? ==> e.incident == incident.value)
    requires forall row :: row in w.server.rows && row.event.device == e.device ==> row.event.seqNo < e.seqNo
    ensures var w' := RunWorld(w, [RelayStep(d, [e]), IngestStep(Request(d, [e], true), incident)]);
            exists row :: row in w'.server.rows && row.event == e
  {
    hide Ingest, Canonical, MaxSeq, WellFormed, CanRelay;
    var steps := [RelayStep(d, [e]), IngestStep(Request(d, [e], true), incident)];
    var w1 := Next(w, steps[0]);
    assert steps[1..][0] == steps[1] && steps[1..][1..] == [];
    assert RunWorld(w, steps) == RunWorld(w1, steps[1..]) == RunWorld(Next(w1, steps[1]), []) == Next(w1, steps[1]);
    assert Candidates([e]) == [Candidate(e)];
    RelayedIsJudged(w.server, e, incident);
  }

  lemma RelayedIsJudged(l: Log, e: Event, incident: Option<int>)
    requires WellFormed(l) && Canonical(e) && e.schema == 1 && (incident.Some? ==> e.incident == incident.value)
    requires !exists row :: row in l.rows && row.event.device == e.device && row.event.seqNo > e.seqNo
    requires forall row :: row in l.rows && row.event.device == e.device ==> row.event.seqNo < e.seqNo
    ensures exists row :: row in Ingest(l, [Candidate(e)], GatewayCaller(incident)).0.rows && row.event == e
  {
    JudgedCode(l, Candidate(e), GatewayCaller(incident));
    AboveIff(l.rows, e);
    AppendReports(l, e);
    hide Canonical, MaxSeq, WellFormed, Refusal, Append;
    assert [Candidate(e)][1..] == [];
    assert Ingest(l, [Candidate(e)], GatewayCaller(incident)).0 == Judge(l, Candidate(e), GatewayCaller(incident)).0;
    var l' := Append(l, e).0;
    assert l'.rows[|l.rows|] in l'.rows && l'.rows[|l.rows|].event == e;
  }
}
