/**
 One uplink pass over SMS.  The transport never has a verdict to report: even a message it
 handed over counts as a failed request, so every row of the pass waits again at once,
 packed or left out, while the gateway may still relay what was sent.
 */
module SmsUplink {
  import opened BitStrings
  import opened Results
  import opened Domain
  import opened EventStore
  import opened Wire
  import opened Sorting
  import opened FieldStore
  import opened Transport
  import opened OutboxEngine
  import opened SmsBatchEncoder
  import opened BatchMac
  import opened SyncProtocol
  import SyncEngine

  /** What the SMS transport declares. */
  function SmsCapabilities(available: bool): Capabilities {
    Capabilities(MAX_BATCH_BYTES, true, VerySlow, Metered, available)
  }

  /** SMS carries 120 bytes, is for CRITICAL batches alone, and ranks below every transport that is free or faster. */
  lemma SmsComesLast(available: bool, c: Capabilities)
    ensures SmsCapabilities(available).maxBatchBytes == 120
    ensures Usable(SmsCapabilities(available), true) == available && !Usable(SmsCapabilities(available), false)
    ensures c.cost == Free || c.latency == Fast ==> Rank(c) > Rank(SmsCapabilities(available))
    ensures c.cost == Metered && c.latency == VerySlow ==>
              Rank(SmsCapabilities(available)) == Rank(c) + (if c.supportsDownlink then 0 else 1)
  {
  }

  function LocalLog(p: Phone): map<Key, Event> {
    map k | k in p.events :: p.events[k].event
  }

  datatype SmsResult =
    | Idle
    | Threw
    | Sent(batch: seq<Key>, packed: Packed)

  /** What a pass over SMS reports and leaves once it has decided what to send. */
  ghost predicate SmsEnds(p: Phone, c: SyncEngine.Chosen, available: bool, incidentStart: int, secret: Option<seq<Octet>>,
                          batchRef: int, at: int, draws: map<Key, Draw>, r: SmsResult, p': Phone)
  {
    if !c.Batch? then r == Idle && p' == p
    else if secret.None? || secret.value == [] || !Packable(Ordered(c.rows, LocalLog(p)), incidentStart)
    then r == Threw && p' == p
    else r.Sent? && r.batch == c.rows &&
         p' == SyncEngine.AfterSend(p, c.rows, batchRef, SyncEngine.RequestFailed,
                                    Timing(at, SmsCapabilities(available), draws))
  }

  ghost predicate SmsPass(p: Phone, now: int, limit: nat, available: bool, incidentStart: int, secret: Option<seq<Octet>>,
                          batchRef: int, at: int, draws: map<Key, Draw>, r: SmsResult, p': Phone)
  {
    exists c :: SyncEngine.Decides(p, now, limit, [SmsCapabilities(available)], SyncEngine.Sms, c) &&
      SmsEnds(p, c, available, incidentStart, secret, batchRef, at, draws, r, p')
  }

  /** A pass with SMS as the only transport: packing either raises an exception or yields the message. */
  method DrainOverSms(phone: FieldDatabase, now: int, limit: nat, available: bool, incidentStart: int,
                      secret: Option<seq<Octet>>, hmac: (seq<Octet>, seq<Octet>) -> Tag, batchId: int, batchRef: int,
                      at: int, draws: map<Key, Draw>) returns (r: SmsResult)
    requires 0 <= batchId <= MAX_BATCH_ID
    modifies phone
    ensures SmsPass(old(phone.db), now, limit, available, incidentStart, secret, batchRef, at, draws, r, phone.db)
    ensures !r.Sent? ==> phone.db == old(phone.db)
    ensures r.Sent? ==>
              && SyncEngine.Selected(old(phone.db), r.batch)
              && r.batch != [] && r.batch[0] in old(phone.db).outbox && old(phone.db).outbox[r.batch[0]].critical
              && Packable(Ordered(r.batch, LocalLog(old(phone.db))), incidentStart)
              && phone.db == SyncEngine.AfterSend(old(phone.db), r.batch, batchRef, SyncEngine.RequestFailed,
                                                  Timing(at, SmsCapabilities(available), draws))
              && (forall k :: k in r.packed.included ==> k in r.batch)
              && (forall x :: x in r.packed.excluded ==> x.row in r.batch)
  {
    hide Packable, Ordered, SmsEnds, SyncEngine.AfterSend, SyncEngine.Decides, DrainsBefore, Sendable;
    ghost var before := phone.db;
    var c := SyncEngine.Choose(phone, now, limit, [SmsCapabilities(available)], SyncEngine.Sms);
    if c.Batch? {
      SyncEngine.BatchIsSelected(before, now, limit, [SmsCapabilities(available)], SyncEngine.Sms, c);
      ViaSms(before, now, limit, available, c);
    }
    r := SendChosen(phone, c, available, incidentStart, secret, hmac, batchId, batchRef, at, draws);
    EndsMean(before, c, available, incidentStart, secret, batchRef, at, draws, r, phone.db);
  }

  lemma EndsMean(p: Phone, c: SyncEngine.Chosen, available: bool, incidentStart: int, secret: Option<seq<Octet>>, batchRef: int,
                 at: int, draws: map<Key, Draw>, r: SmsResult, p': Phone)
    requires SmsEnds(p, c, available, incidentStart, secret, batchRef, at, draws, r, p')
    ensures !r.Sent? ==> p' == p
    ensures r.Sent? ==>
              && c.Batch? && r.batch == c.rows && Packable(Ordered(c.rows, LocalLog(p)), incidentStart)
              && p' == SyncEngine.AfterSend(p, c.rows, batchRef, SyncEngine.RequestFailed,
                                            Timing(at, SmsCapabilities(available), draws))
  {
    hide Packable, Ordered, SyncEngine.AfterSend;
  }

  /** Packing, and that it reports no row but those given. */
  method PackFromRows(rows: seq<Key>, log: map<Key, Event>, incidentStart: int, secret: Option<seq<Octet>>,
                      hmac: (seq<Octet>, seq<Octet>) -> Tag, batchId: int) returns (r: Result<Packed>)
    requires 0 <= batchId <= MAX_BATCH_ID
    ensures r.Ok? <==> secret.Some? && secret.value != [] && Packable(Ordered(rows, log), incidentStart)
    ensures r.Ok? ==> (forall k :: k in r.value.included ==> k in rows) && forall x :: x in r.value.excluded ==> x.row in rows
  {
    hide Packable, Ordered, Chosen;
    r := PackRows(rows, log, incidentStart, secret, hmac, batchId);
    if r.Ok? {
      PackedComesFromRows(rows, log, incidentStart, r.value);
    }
  }

  /** The rest of the pass: pack, hand over, mark, and take the failure the transport reports. */
  method SendChosen(phone: FieldDatabase, c: SyncEngine.Chosen, available: bool, incidentStart: int,
                    secret: Option<seq<Octet>>, hmac: (seq<Octet>, seq<Octet>) -> Tag, batchId: int, batchRef: int,
                    at: int, draws: map<Key, Draw>) returns (r: SmsResult)
    requires 0 <= batchId <= MAX_BATCH_ID && (c.Batch? ==> c.via == SmsCapabilities(available))
    modifies phone
    ensures SmsEnds(old(phone.db), c, available, incidentStart, secret, batchRef, at, draws, r, phone.db)
    ensures r.Sent? ==> c.Batch? && (forall k :: k in r.packed.included ==> k in c.rows)
                                 && (forall x :: x in r.packed.excluded ==> x.row in c.rows)
  {
    hide Packable, Ordered, Chosen, SyncEngine.AfterSend;
    if !c.Batch? {
      return Idle;
    }
    var packed := PackFromRows(c.rows, LocalLog(phone.db), incidentStart, secret, hmac, batchId);
    if packed.Err? {
      return Threw;
    }
    var _, _, _ := SyncEngine.Finish(phone, c.rows, batchRef, SyncEngine.RequestFailed, Timing(at, c.via, draws));
    r := Sent(c.rows, packed.value);
  }

  lemma ViaSms(p: Phone, now: int, limit: nat, available: bool, c: SyncEngine.Chosen)
    requires SyncEngine.Decides(p, now, limit, [SmsCapabilities(available)], SyncEngine.Sms, c) && c.Batch?
    ensures c.via == SmsCapabilities(available) && c.rows != []
  {
    hide SyncEngine.FitFor, NextBatch;
  }

  /** Every row the packer reports, included or left out, is a row of the batch. */
  lemma PackedComesFromRows(rows: seq<Key>, log: map<Key, Event>, incidentStart: int, packed: Packed)
    requires Packable(Ordered(rows, log), incidentStart)
    requires var c := Chosen(Ordered(rows, log), incidentStart);
             && |packed.included| == |c.included|
             && (forall i :: 0 <= i < |c.included| ==> packed.included[i] == c.included[i].row)
             && |packed.excluded| == |c.excluded|
             && (forall i :: 0 <= i < |c.excluded| ==> packed.excluded[i] == Excluded(c.excluded[i].0.row, c.excluded[i].1))
    ensures forall k :: k in packed.included ==> k in rows
    ensures forall x :: x in packed.excluded ==> x.row in rows
  {
    var ordered := Ordered(rows, log);
    SelectWellChosen(ordered, BaseOf(ordered[0].ev, incidentStart));
    SameMembers(ordered, Load(rows, log));
    hide Select, Ordered, Packable, RightlyExcluded, UsedBits, ToWire;
    var c := Chosen(ordered, incidentStart);
    forall x: Loaded | x in c.included || x in ExcludedRows(c.excluded) ensures x.row in rows {
      assert x in multiset(c.included) + multiset(ExcludedRows(c.excluded));
      assert x in multiset(ordered);
    }
    forall k | k in packed.included ensures k in rows {
      var i :| 0 <= i < |packed.included| && packed.included[i] == k;
      assert c.included[i] in c.included;
    }
    forall x | x in packed.excluded ensures x.row in rows {
      var i :| 0 <= i < |packed.excluded| && packed.excluded[i] == x;
      assert ExcludedRows(c.excluded)[i] in ExcludedRows(c.excluded);
    }
  }

  /**
   After a pass over SMS every row of it is pending again, packed or left out, with one
   attempt more and the next time the policy draws; a row that was only trimmed is as before.
   */
  lemma SmsPassReturnsAll(p: Phone, batch: seq<Key>, batchRef: int, t: Timing, k: Key)
    requires SyncEngine.Selected(p, batch) && k in p.outbox
    ensures var p' := SyncEngine.AfterSend(p, batch, batchRef, SyncEngine.RequestFailed, t);
            && k in p'.outbox
            && p'.outbox[k] == if k in batch then Returned(p.outbox[k], NextTime(p, batch, k, t)) else p.outbox[k]
  {
    hide SyncEngine.AfterSend, NextTime;
    SyncEngine.FailedPassReturnsAll(p, batch, batchRef, t, k);
  }

  // ---------------------------------------------------- what the gateway relays

  /** A relayed event as the server receives it; the subject follows from the payload. */
  function AsEvent(r: Relayed): Event {
    var e := Event(r.device, r.seqNo, r.payload, 0, 1_000 * r.tSec, r.responder, r.team, r.agency, r.incident, r.schema);
    e.(entityId := ExpectedEntity(e))
  }

  /** The events a gateway relays of a packed batch. */
  function GatewayEvents(ordered: seq<Loaded>, incidentStart: int): (s: seq<Event>)
    requires ordered != []
    ensures |s| == |Chosen(ordered, incidentStart).wire|
  {
    var relayed := Relay(ChosenHeader(ordered, incidentStart), Chosen(ordered, incidentStart).wire, incidentStart);
    seq(|relayed|, i requires 0 <= i < |relayed| => AsEvent(relayed[i]))
  }

  lemma WholeSeconds(n: int)
    ensures Seconds(1_000 * n) == n
  {
  }

  /** Each relayed event is the report of a pending row: only attribution and fractions of a second change. */
  lemma RelayedAreReports(w: World, d: int, batch: seq<Key>, incidentStart: int)
    requires Inv(w) && d in w.phones && SyncEngine.Selected(w.phones[d], batch)
    requires Packable(Ordered(batch, LocalLog(w.phones[d])), incidentStart)
    ensures CanRelay(w.phones[d], GatewayEvents(Ordered(batch, LocalLog(w.phones[d])), incidentStart))
  {
    var p := w.phones[d];
    var ordered := Ordered(batch, LocalLog(p));
    SyncEngine.RowsHaveEvents(w, d, batch);
    IncludedAscend(batch, LocalLog(p), incidentStart);
    FirstIsOwn(p, d, batch);
    hide Packable, Ordered, Inv;
    var c := Chosen(ordered, incidentStart);
    var events := GatewayEvents(ordered, incidentStart);
    forall e | e in events
      ensures InState(p, e.Id(), PENDING) && e.Id() in p.events && SameReport(p.events[e.Id()].event, e)
    {
      var i :| 0 <= i < |events| && events[i] == e;
      SelectWellChosen(ordered, BaseOf(ordered[0].ev, incidentStart));
      RelayedEventsAreTheIncluded(ordered, incidentStart, i);
      assert c.included[i] in c.included;
      WholeSeconds(Seconds(c.included[i].ev.tDev));
    }
  }

  lemma FirstIsOwn(p: Phone, d: int, batch: seq<Key>)
    requires forall k :: k in batch ==> k in p.events && p.events[k].event.Id() == k && k.device == d
    requires Ordered(batch, LocalLog(p)) != []
    ensures Ordered(batch, LocalLog(p))[0].ev.device == d
  {
    var ordered := Ordered(batch, LocalLog(p));
    SameMembers(ordered, Load(batch, LocalLog(p)));
    hide Ordered;
    assert ordered[0] in ordered;
  }

  /** Refinement: the pass is a run of the protocol, after which the server may ingest what the gateway relays. */
  lemma SmsPassIsARun(w: World, d: int, batch: seq<Key>, batchRef: int, incidentStart: int, t: Timing)
    requires Inv(w) && d in w.phones && SyncEngine.Selected(w.phones[d], batch)
    requires Packable(Ordered(batch, LocalLog(w.phones[d])), incidentStart)
    ensures var events := GatewayEvents(Ordered(batch, LocalLog(w.phones[d])), incidentStart);
            var w' := RunWorld(w, [RelayStep(d, events), MarkStep(d, batch, batchRef), FailStep(d, batch, t)]);
            && d in w'.phones && w'.server == w.server
            && w'.phones[d] == SyncEngine.AfterSend(w.phones[d], batch, batchRef, SyncEngine.RequestFailed, t)
            && Request(d, events, true) in w'.requests
  {
    hide Ordered, Chosen, Inv, GatewayEvents, CanRelay, NextTimes, ApplyAnswers, MarkBatch, RunWorld, ValidEvents, ValidHeader;
    RelayedAreReports(w, d, batch, incidentStart);
    RelaySteps(w, d, GatewayEvents(Ordered(batch, LocalLog(w.phones[d])), incidentStart), batch, batchRef, t);
  }

  lemma RelaySteps(w: World, d: int, events: seq<Event>, batch: seq<Key>, batchRef: int, t: Timing)
    requires d in w.phones && CanRelay(w.phones[d], events)
    ensures var w' := RunWorld(w, [RelayStep(d, events), MarkStep(d, batch, batchRef), FailStep(d, batch, t)]);
            && d in w'.phones && w'.server == w.server
            && w'.phones[d] == SyncEngine.AfterSend(w.phones[d], batch, batchRef, SyncEngine.RequestFailed, t)
            && Request(d, events, true) in w'.requests
  {
    hide CanRelay, NextTimes, ApplyAnswers, MarkBatch, RunWorld;
    SyncEngine.RunThree(w, [RelayStep(d, events), MarkStep(d, batch, batchRef), FailStep(d, batch, t)]);
    SyncEngine.MarkKeepsTimes(w.phones[d], batch, batchRef, batch, t);
  }
}
