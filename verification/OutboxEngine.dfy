/**
 How a pass turns what the transport reported into answers for its rows: the delivery
 verdicts of the server, and the time the backoff policy draws for each retry.
 */
module OutboxEngine {
  import opened Results
  import opened Domain
  import opened FieldStore
  import opened Transport
  import opened Backoff

  /** One refused event of a `200` verdict. */
  datatype Refused = Refused(key: Key, code: string, retryable: bool)

  type Draw = u: real | 0.0 <= u < 1.0 witness 0.0

  /** When answers are applied, over which transport, and the random draw for each row. */
  datatype Timing = Timing(now: int, capabilities: Capabilities, draws: map<Key, Draw>)

  function DrawFor(t: Timing, k: Key): Draw {
    if k in t.draws then t.draws[k] else 0.0
  }

  /** Priority and attempts of a row of the batch; a row outside it counts as new and ROUTINE. */
  function NextTime(p: Phone, batch: seq<Key>, k: Key, t: Timing): int {
    if k in batch && k in p.outbox
    then NextAttemptAt(t.now, t.capabilities, p.outbox[k].critical, p.outbox[k].attemptCount, DrawFor(t, k))
    else NextAttemptAt(t.now, t.capabilities, false, 0, DrawFor(t, k))
  }

  function NextTimes(p: Phone, batch: seq<Key>, t: Timing): (s: seq<int>)
    ensures |s| == |batch|
  {
    seq(|batch|, i requires 0 <= i < |batch| => NextTime(p, batch, batch[i], t))
  }

  /** Only `retryable` decides between waiting and giving up. */
  function RefusalAnswers(p: Phone, batch: seq<Key>, rejected: seq<Refused>, t: Timing): (s: seq<Answer>)
    ensures |s| == |rejected| && forall a :: a in s ==> !a.Accept?
  {
    seq(|rejected|, i requires 0 <= i < |rejected| =>
        if rejected[i].retryable then Retry(rejected[i].key, NextTime(p, batch, rejected[i].key, t))
        else Reject(rejected[i].key, rejected[i].code))
  }

  /** A verdict applied to `q`: acceptances, then refusals timed by the rows as selected in `p`. */
  function Settle(q: Phone, p: Phone, batch: seq<Key>, accepted: seq<Key>, rejected: seq<Refused>, t: Timing): Phone {
    ApplyAnswers(ApplyAnswers(q, Acceptances(accepted)), RefusalAnswers(p, batch, rejected, t))
  }

  /** A failed request: every row of the batch goes back, timed by the rows as selected in `p`. */
  function FailAll(q: Phone, p: Phone, batch: seq<Key>, t: Timing): Phone {
    ApplyAnswers(q, FailureAnswers(batch, NextTimes(p, batch, t)))
  }

  // ------------------------------------------------------------ one row's fate

  lemma {:induction false} SettledRowStays(p: Phone, answers: seq<Answer>, k: Key)
    requires k in p.outbox && p.outbox[k].state != IN_FLIGHT
    ensures k in ApplyAnswers(p, answers).outbox && ApplyAnswers(p, answers).outbox[k] == p.outbox[k]
    decreases answers
  {
    if answers == [] {
    } else {
      SettledRowStays(ApplyAnswer(p, answers[0]), answers[1..], k);
    }
  }

  /** What an answer makes of an in-flight row. */
  function Answered(row: OutboxRow, a: Answer): OutboxRow {
    match a
    case Accept(_) => row.(state := ACKED)
    case Retry(_, at) =>
      row.(state := PENDING, attemptCount := row.attemptCount + 1, nextAttemptAt := Some(at), batchRef := None)
    case Reject(_, code) => row.(state := REJECTED, batchRef := None, rejectedCode := Some(code))
  }

  /** An in-flight row becomes what the first answer about it says; later ones change nothing. */
  lemma {:induction false} FirstAnswerDecides(p: Phone, answers: seq<Answer>, k: Key) returns (a: Answer)
    requires InState(p, k, IN_FLIGHT)
    requires exists b :: b in answers && b.key == k
    ensures a in answers && a.key == k
    ensures k in ApplyAnswers(p, answers).outbox && ApplyAnswers(p, answers).outbox[k] == Answered(p.outbox[k], a)
    decreases answers
  {
    var p1 := ApplyAnswer(p, answers[0]);
    if answers[0].key == k {
      a := answers[0];
      SettledRowStays(p1, answers[1..], k);
    } else {
      var b :| b in answers && b.key == k;
      assert b in answers[1..];
      a := FirstAnswerDecides(p1, answers[1..], k);
    }
  }

  lemma {:induction false} UnmentionedRowStays(p: Phone, answers: seq<Answer>, k: Key)
    requires k in p.outbox && forall a :: a in answers ==> a.key != k
    ensures k in ApplyAnswers(p, answers).outbox && ApplyAnswers(p, answers).outbox[k] == p.outbox[k]
    decreases answers
  {
    if answers == [] {
    } else {
      assert forall a :: a in answers[1..] ==> a in answers;
      UnmentionedRowStays(ApplyAnswer(p, answers[0]), answers[1..], k);
    }
  }

  /** The row after a return to PENDING with the time the policy draws for it. */
  function Returned(row: OutboxRow, at: int): OutboxRow {
    row.(state := PENDING, attemptCount := row.attemptCount + 1, nextAttemptAt := Some(at), batchRef := None)
  }

  /** A failed request returns each in-flight row of the batch once, and leaves every other row alone. */
  lemma FailAllReturns(q: Phone, p: Phone, batch: seq<Key>, t: Timing, k: Key)
    requires k in q.outbox
    ensures var q' := FailAll(q, p, batch, t);
            && k in q'.outbox
            && q'.outbox[k] == if k in batch && q.outbox[k].state == IN_FLIGHT
                               then Returned(q.outbox[k], NextTime(p, batch, k, t)) else q.outbox[k]
  {
    hide ApplyAnswers, NextTime;
    var answers := FailureAnswers(batch, NextTimes(p, batch, t));
    if q.outbox[k].state != IN_FLIGHT {
      SettledRowStays(q, answers, k);
    } else if k in batch {
      var i :| 0 <= i < |batch| && batch[i] == k;
      assert answers[i] in answers && answers[i].key == k;
      var a := FirstAnswerDecides(q, answers, k);
    } else {
      UnmentionedRowStays(q, answers, k);
    }
  }

  /**
   A verdict on an in-flight row: acknowledged if accepted; otherwise what one of its
   refusals says, waiting or given up by its flag; untouched if not mentioned.
   */
  lemma SettleDecides(q: Phone, p: Phone, batch: seq<Key>, accepted: seq<Key>, rejected: seq<Refused>, t: Timing, k: Key)
    requires InState(q, k, IN_FLIGHT)
    ensures var q' := Settle(q, p, batch, accepted, rejected, t);
            && k in q'.outbox
            && (k in accepted ==> q'.outbox[k] == q.outbox[k].(state := ACKED))
            && (k !in accepted ==>
                  if exists r :: r in rejected && r.key == k
                  then exists r :: r in rejected && r.key == k && q'.outbox[k] ==
                         if r.retryable then Returned(q.outbox[k], NextTime(p, batch, k, t))
                         else q.outbox[k].(state := REJECTED, batchRef := None, rejectedCode := Some(r.code))
                  else q'.outbox[k] == q.outbox[k])
  {
    hide ApplyAnswers, NextTime;
    var acceptances, refusals := Acceptances(accepted), RefusalAnswers(p, batch, rejected, t);
    var middle := ApplyAnswers(q, acceptances);
    if k in accepted {
      var i :| 0 <= i < |accepted| && accepted[i] == k;
      assert acceptances[i] in acceptances && acceptances[i].key == k;
      var a := FirstAnswerDecides(q, acceptances, k);
      SettledRowStays(middle, refusals, k);
    } else {
      UnmentionedRowStays(q, acceptances, k);
      if r :| r in rejected && r.key == k {
        var i :| 0 <= i < |rejected| && rejected[i] == r;
        assert refusals[i] in refusals && refusals[i].key == k;
        var a := FirstAnswerDecides(middle, refusals, k);
        var j :| 0 <= j < |refusals| && refusals[j] == a;
        assert rejected[j] in rejected && rejected[j].key == k;
      } else {
        UnmentionedRowStays(middle, refusals, k);
      }
    }
  }

  /** A settled row keeps what it is whatever the verdict says of it. */
  lemma SettleLeavesSettled(q: Phone, p: Phone, batch: seq<Key>, accepted: seq<Key>, rejected: seq<Refused>, t: Timing,
                            k: Key)
    requires k in q.outbox && q.outbox[k].state != IN_FLIGHT
    ensures var q' := Settle(q, p, batch, accepted, rejected, t); k in q'.outbox && q'.outbox[k] == q.outbox[k]
  {
    hide ApplyAnswers;
    SettledRowStays(q, Acceptances(accepted), k);
    SettledRowStays(ApplyAnswers(q, Acceptances(accepted)), RefusalAnswers(p, batch, rejected, t), k);
  }

  /**
   The time a row waits: the documented delay for its attempts, a fifth either way; now
   itself in the collapsed band; and for a row named by the verdict but outside the
   batch, the first ROUTINE delay whatever its own attempts and priority.
   */
  lemma WaitIsDocumented(p: Phone, batch: seq<Key>, k: Key, t: Timing)
    ensures var wait := NextTime(p, batch, k, t) - t.now;
            if k in batch && k in p.outbox then WaitInTable(wait, t.capabilities, p.outbox[k].critical, p.outbox[k].attemptCount)
            else WaitInTable(wait, t.capabilities, false, 0)
  {
    hide NextAttemptAt, WaitInTable;
    if k in batch && k in p.outbox {
      NextAttemptInTable(t.now, t.capabilities, p.outbox[k].critical, p.outbox[k].attemptCount, DrawFor(t, k));
    } else {
      NextAttemptInTable(t.now, t.capabilities, false, 0, DrawFor(t, k));
    }
  }

  /** The exact time: from the row's own tier and attempts and its own random draw, or as a new ROUTINE row's. */
  lemma NextTimeExact(p: Phone, batch: seq<Key>, k: Key, t: Timing)
    requires k in t.draws
    ensures var wait := NextTime(p, batch, k, t) - t.now;
            var known := k in batch && k in p.outbox;
            var critical, n := known && p.outbox[k].critical, if known then p.outbox[k].attemptCount else 0;
            if NoWait(t.capabilities, critical, n) then wait == 0 else Swung(wait, Due(t.capabilities, critical, n), t.draws[k])
  {
    hide NextAttemptAt, Swung, Due, NoWait;
    if k in batch && k in p.outbox {
      NextAttemptExact(t.now, t.capabilities, p.outbox[k].critical, p.outbox[k].attemptCount, t.draws[k]);
    } else {
      NextAttemptExact(t.now, t.capabilities, false, 0, t.draws[k]);
    }
  }
}
