/**
 The whole system as a transition system: phones that author, send, crash and prune; a
 gateway that relays SMS batches; a server that ingests any request ever sent; a network
 that loses, delays and repeats requests, replies and pages.  Safety is proved for every
 finite run.
 */
module SyncProtocol {
  import opened Results
  import opened Domain
  import opened EventStore
  import opened Ingestion
  import opened FieldStore
  import opened Queries
  import opened OutboxEngine

  /** The events of one device, submitted by itself or relayed by a gateway. */
  datatype Request = Request(device: int, events: seq<Event>, relayed: bool)

  /** The verdicts of one request, on their way back. */
  datatype Reply = Reply(device: int, verdicts: seq<Verdict>)

  datatype Page = Page(device: int, since: nat, events: seq<Row>, nextSince: nat)

  /**
   Messages are never removed: any of them may be delivered late, twice or never.
   `relayed` remembers what ever went by SMS.
   */
  datatype World = World(server: Log, phones: map<int, Phone>, requests: set<Request>, replies: set<Reply>,
                         pages: set<Page>, relayed: set<Key>)

  datatype Step =
    | AuthorStep(device: int, draft: Event, now: int)
    | SendStep(device: int, keys: seq<Key>)
    | RelayStep(device: int, events: seq<Event>)
    | MarkStep(device: int, keys: seq<Key>, batchRef: int)
    | IngestStep(request: Request, incident: Option<int>)
    | DeliverStep(reply: Reply, batch: seq<Key>, timing: Timing)
    | FailStep(device: int, batch: seq<Key>, timing: Timing)
    | CrashStep(device: int)
    | PruneStep(device: int)
    | ServerAuthorStep(draft: Event)
    | BurnStep(n: nat)
    | FetchStep(device: int, limit: nat)
    | PageStep(page: Page)

  function Init(devices: set<int>): World {
    World(EMPTY_LOG, map d | d in devices :: NEW_PHONE, {}, {}, {}, {})
  }

  // ------------------------------------------------------------------- the steps

  /** The events of the rows handed to the transport. */
  function EventsFor(p: Phone, keys: seq<Key>): (es: seq<Event>)
    ensures forall e :: e in es ==> exists k :: k in keys && k in p.events && e == p.events[k].event
  {
    if keys == [] then []
    else (if keys[0] in p.events then [p.events[keys[0]].event] else []) + EventsFor(p, keys[1..])
  }

  function Candidates(es: seq<Event>): seq<Raw> {
    seq(|es|, i requires 0 <= i < |es| => Candidate(es[i]))
  }

  function CodeName(code: RejectionCode): string {
    match code
    case UnknownType => "UNKNOWN_TYPE"
    case UnsupportedSchema => "UNSUPPORTED_SCHEMA"
    case InvalidPayload => "INVALID_PAYLOAD"
    case UnknownCell => "UNKNOWN_CELL"
    case SeqNotMonotonic => "SEQ_NOT_MONOTONIC"
    case AttributionMismatch => "ATTRIBUTION_MISMATCH"
    case WrongIncident => "WRONG_INCIDENT"
    case TypeNotPermitted => "TYPE_NOT_PERMITTED"
    case Unavailable => "UNAVAILABLE"
  }

  /** The accepted list of a reply. */
  function AcceptedKeys(vs: seq<Verdict>): seq<Key> {
    if vs == [] then []
    else (if vs[0].Accepted? then [Key(vs[0].result.device, vs[0].result.seqNo)] else []) + AcceptedKeys(vs[1..])
  }

  /** The rejected list of a reply, as far as it names an event. */
  function RefusedKeys(vs: seq<Verdict>): seq<Refused> {
    if vs == [] then []
    else (if vs[0].Rejected? && vs[0].device.Some? && vs[0].seqNo.Some?
          then [Refused(Key(vs[0].device.value, vs[0].seqNo.value), CodeName(vs[0].code), Retryable(vs[0].code))]
          else []) + RefusedKeys(vs[1..])
  }

  predicate Everything(row: Row) {
    true
  }

  function SetPhone(w: World, device: int, p: Phone): World {
    w.(phones := w.phones[device := p])
  }

  function FieldCaller(device: int, incident: Option<int>): Option<Caller> {
    Some(Caller(Field, device, incident))
  }

  function GatewayCaller(incident: Option<int>): Option<Caller> {
    Some(Caller(Gateway, SERVER_DEVICE_ID, incident))
  }

  /** What an SMS batch preserves of an event: all but fractions of a second and attribution. */
  predicate SameReport(e: Event, f: Event) {
    e.Id() == f.Id() && e.payload == f.payload && e.responder == f.responder && Seconds(e.tDev) == Seconds(f.tDev)
  }

  predicate CanRelay(p: Phone, events: seq<Event>) {
    forall e :: e in events ==>
      InState(p, e.Id(), PENDING) && e.Id() in p.events && SameReport(p.events[e.Id()].event, e)
  }

  function Ids(events: seq<Event>): set<Key> {
    set e | e in events :: e.Id()
  }

  /** A reply applied to the phone it is for. */
  function AfterReply(p: Phone, batch: seq<Key>, vs: seq<Verdict>, t: Timing): Phone {
    Settle(p, p, batch, AcceptedKeys(AcceptedOf(vs)), RefusedKeys(RejectedOf(vs)), t)
  }

  /** One step; a step whose guard fails changes nothing. */
  function Next(w: World, step: Step): World {
    match step
    case AuthorStep(d, draft, now) =>
      if d in w.phones && AppendAuthored(w.phones[d], d, draft, now).Some?
      then SetPhone(w, d, AppendAuthored(w.phones[d], d, draft, now).value) else w
    case SendStep(d, keys) =>
      if d in w.phones && forall k :: k in keys ==> InState(w.phones[d], k, PENDING)
      then w.(requests := w.requests + {Request(d, EventsFor(w.phones[d], keys), false)}) else w
    case RelayStep(d, events) =>
      if d in w.phones && CanRelay(w.phones[d], events)
      then w.(requests := w.requests + {Request(d, events, true)}, relayed := w.relayed + Ids(events)) else w
    case MarkStep(d, keys, batchRef) =>
      if d in w.phones then SetPhone(w, d, MarkBatch(w.phones[d], keys, batchRef)) else w
    case IngestStep(request, incident) =>
      if request !in w.requests then w
      else if request.relayed then
        // The verdicts go to the gateway; nothing in a reply to a device names them.
        w.(server := Ingest(w.server, Candidates(request.events), GatewayCaller(incident)).0)
      else
        var (log, verdicts) := Ingest(w.server, Candidates(request.events), FieldCaller(request.device, incident));
        w.(server := log, replies := w.replies + {Reply(request.device, verdicts)})
    case DeliverStep(reply, batch, timing) =>
      if reply in w.replies && reply.device in w.phones
      then SetPhone(w, reply.device, AfterReply(w.phones[reply.device], batch, reply.verdicts, timing)) else w
    case FailStep(d, batch, timing) =>
      if d in w.phones then SetPhone(w, d, FailAll(w.phones[d], w.phones[d], batch, timing)) else w
    case CrashStep(d) =>
      if d in w.phones then SetPhone(w, d, Reclaim(w.phones[d])) else w
    case PruneStep(d) =>
      if d in w.phones then SetPhone(w, d, PruneAcked(w.phones[d])) else w
    case ServerAuthorStep(draft) => w.(server := Perform(w.server, AuthorOp(draft)))
    case BurnStep(n) => w.(server := Perform(w.server, Burn(n)))
    case FetchStep(d, limit) =>
      if d in w.phones && limit >= 1 then
        var since := Watermark(w.phones[d]);
        var page := PageOf(w.server.rows, since, limit, Everything);
        w.(pages := w.pages + {Page(d, since, page.events, page.nextSince)})
      else w
    case PageStep(page) =>
      if page in w.pages && page.device in w.phones
      then SetPhone(w, page.device, FieldStore.ApplyPage(w.phones[page.device], page.events, page.nextSince)) else w
  }

  function RunWorld(w: World, steps: seq<Step>): World
    decreases steps
  {
    if steps == [] then w else RunWorld(Next(w, steps[0]), steps[1..])
  }

  // -------------------------------------------------------------- the invariant

  /** `f` is the event itself or, if it was ever relayed, the same report. */
  ghost predicate Matches(relayed: set<Key>, e: Event, f: Event) {
    e == f || (e.Id() in relayed && SameReport(e, f))
  }

  /** The server holds this event. */
  ghost predicate Holds(rows: seq<Row>, relayed: set<Key>, e: Event) {
    exists i :: 0 <= i < |rows| && Matches(relayed, e, rows[i].event)
  }

  /** The local log is keyed by identity; outbox rows are for own events, all below the counter. */
  ghost predicate LocalOk(d: int, p: Phone) {
    && (forall k :: k in p.events ==> p.events[k].event.Id() == k)
    && (forall k :: k in p.outbox ==> k.device == d && k in p.events)
    && (forall k :: k in p.events && k.device == d ==> k.seqNo < NextSeq(p, d))
    && d != SERVER_DEVICE_ID
  }

  /** What an ACKED row, a row-less own event and a foreign event each guarantee about the server. */
  ghost predicate UplinkOk(d: int, p: Phone, rows: seq<Row>, relayed: set<Key>) {
    && (forall k :: k in p.outbox && k in p.events && p.outbox[k].state == ACKED ==> Holds(rows, relayed, p.events[k].event))
    && (forall k :: k in p.events && k !in p.outbox ==> Holds(rows, relayed, p.events[k].event))
    && (forall k :: k in p.events && k.device != d ==> Holds(rows, {}, p.events[k].event))
  }

  /** The server has nothing of this device that the device did not author. */
  ghost predicate AuthorshipOk(d: int, p: Phone, rows: seq<Row>, relayed: set<Key>) {
    forall i :: 0 <= i < |rows| && rows[i].event.device == d ==>
      rows[i].event.Id() in p.events && Matches(relayed, p.events[rows[i].event.Id()].event, rows[i].event)
  }

  /** Everything at or below the watermark is in the local log. */
  ghost predicate DownlinkOk(p: Phone, l: Log) {
    && Watermark(p) <= l.identity
    && forall i :: 0 <= i < |l.rows| && l.rows[i].serverSeq <= Watermark(p) ==> l.rows[i].event.Id() in p.events
  }

  ghost predicate PhoneOk(d: int, p: Phone, l: Log, relayed: set<Key>) {
    LocalOk(d, p) && UplinkOk(d, p, l.rows, relayed) && AuthorshipOk(d, p, l.rows, relayed) && DownlinkOk(p, l)
  }

  ghost predicate RequestOk(r: Request, phones: map<int, Phone>, relayed: set<Key>) {
    && r.device in phones
    && forall e :: e in r.events ==>
         && e.device == r.device && e.Id() in phones[r.device].events
         && Matches(if r.relayed then relayed else {}, phones[r.device].events[e.Id()].event, e)
  }

  ghost predicate ReplyOk(r: Reply, rows: seq<Row>) {
    && (forall v :: v in r.verdicts && v.Accepted? ==>
          v.result.device == r.device && Stored(rows, Key(v.result.device, v.result.seqNo)))
    && (forall v :: v in r.verdicts && v.Rejected? ==> !Retryable(v.code))
  }

  /** A page is a complete window of the log, starting no later than the phone's watermark. */
  ghost predicate PageOk(g: Page, l: Log, phones: map<int, Phone>) {
    && g.device in phones && g.since <= Watermark(phones[g.device])
    && g.nextSince <= l.identity
    && (forall row :: row in g.events ==> row in l.rows)
    && (forall row :: row in l.rows && g.since < row.serverSeq <= g.nextSince ==> row in g.events)
  }

  ghost predicate Inv(w: World) {
    && WellFormed(w.server)
    && (forall i :: 0 <= i < |w.server.rows| && w.server.rows[i].event.device != SERVER_DEVICE_ID ==>
          w.server.rows[i].event.device in w.phones)
    && (forall d :: d in w.phones ==> PhoneOk(d, w.phones[d], w.server, w.relayed))
    && (forall r :: r in w.requests ==> RequestOk(r, w.phones, w.relayed))
    && (forall r :: r in w.replies ==> ReplyOk(r, w.server.rows))
    && (forall g :: g in w.pages ==> PageOk(g, w.server, w.phones))
  }

  // --------------------------------------------------------- the log only grows

  /** New rows come after all drawn identity values. */
  ghost predicate Grows(l: Log, l': Log) {
    && l.rows <= l'.rows && l.identity <= l'.identity
    && forall i :: |l.rows| <= i < |l'.rows| ==> l'.rows[i].serverSeq > l.identity
  }

  lemma GrowsTransitive(a: Log, b: Log, c: Log)
    requires Grows(a, b) && Grows(b, c)
    ensures Grows(a, c)
  {
    forall i | |a.rows| <= i < |c.rows| ensures c.rows[i].serverSeq > a.identity {
      assert i < |b.rows| ==> c.rows[i] == b.rows[i];
    }
  }

  lemma JudgeGrows(l: Log, raw: Raw, caller: Option<Caller>)
    ensures Grows(l, Judge(l, raw, caller).0)
  {
    hide Refusal, MaxSeq;
  }

  /** Every row ingestion adds is an eligible event of the batch. */
  lemma {:induction false} IngestGrows(l: Log, raws: seq<Raw>, caller: Option<Caller>)
    ensures var l' := Ingest(l, raws, caller).0;
            && Grows(l, l')
            && forall i :: |l.rows| <= i < |l'.rows| ==>
                 Candidate(l'.rows[i].event) in raws && Eligible(Candidate(l'.rows[i].event), caller)
    decreases raws
  {
    if raws == [] {
    } else {
      var l1 := Judge(l, raws[0], caller).0;
      JudgeGrows(l, raws[0], caller);
      JudgeAddsOnlyIt(l, raws[0], caller);
      hide Judge, Eligible, Refusal;
      IngestGrows(l1, raws[1..], caller);
      var l' := Ingest(l1, raws[1..], caller).0;
      GrowsTransitive(l, l1, l');
      forall i | |l.rows| <= i < |l'.rows|
        ensures Candidate(l'.rows[i].event) in raws && Eligible(Candidate(l'.rows[i].event), caller)
      {
        if i < |l1.rows| {
          assert l'.rows[i] == l1.rows[i];
        } else {
          assert Candidate(l'.rows[i].event) in raws[1..];
        }
      }
    }
  }

  lemma JudgeAddsOnlyIt(l: Log, raw: Raw, caller: Option<Caller>)
    ensures var l1 := Judge(l, raw, caller).0;
            forall i :: |l.rows| <= i < |l1.rows| ==> Candidate(l1.rows[i].event) == raw && Eligible(raw, caller)
  {
    hide MaxSeq, Refusal, Canonical;
    if Eligible(raw, caller) {
      EligibleIsCanonical(raw, caller);
      assert forall i :: |l.rows| <= i < |Append(l, raw.event).0.rows| ==>
               Append(l, raw.event).0.rows[i].event == raw.event;
    }
  }

  /** Every acceptance names an event the server now stores, of the caller's own device; no refusal is transient. */
  lemma {:induction false} AcceptedAreStored(l: Log, raws: seq<Raw>, device: int, incident: Option<int>)
    requires WellFormed(l)
    ensures var (l', vs) := Ingest(l, raws, FieldCaller(device, incident));
            && (forall v :: v in vs && v.Accepted? ==>
                  v.result.device == device && Stored(l'.rows, Key(v.result.device, v.result.seqNo)))
            && (forall v :: v in vs && v.Rejected? ==> !Retryable(v.code))
    decreases raws
  {
    if raws == [] {
    } else {
      var caller := FieldCaller(device, incident);
      var (l1, v1) := Judge(l, raws[0], caller);
      JudgeAccepts(l, raws[0], device, incident);
      JudgeKeepsOrder(l, raws[0], caller);
      UnknownCellNeverRaised(l, raws[0], caller);
      hide Judge, WellFormed, MaxSeq, Refusal;
      AcceptedAreStored(l1, raws[1..], device, incident);
      IngestKeepsOrder(l1, raws[1..], caller);
      if v1.Accepted? {
        StoredStays(l1.rows, Ingest(l1, raws[1..], caller).0.rows, Key(v1.result.device, v1.result.seqNo));
      }
    }
  }

  lemma StoredStays(rows: seq<Row>, rows': seq<Row>, k: Key)
    requires rows <= rows' && Stored(rows, k)
    ensures Stored(rows', k)
  {
    var i :| 0 <= i < |rows| && rows[i].event.Id() == k;
    assert rows'[i].event.Id() == k;
  }

  lemma JudgeAccepts(l: Log, raw: Raw, device: int, incident: Option<int>)
    requires WellFormed(l)
    ensures var (l1, v) := Judge(l, raw, FieldCaller(device, incident));
            v.Accepted? ==> v.result.device == device && Stored(l1.rows, Key(v.result.device, v.result.seqNo))
  {
    var (l1, v) := Judge(l, raw, FieldCaller(device, incident));
    if v.Accepted? {
      EligibleIsCanonical(raw, FieldCaller(device, incident));
      AppendKeepsOrder(l, raw.event);
    }
  }

  lemma HoldsStays(rows: seq<Row>, rows': seq<Row>, relayed: set<Key>)
    requires rows <= rows'
    ensures forall e :: Holds(rows, relayed, e) ==> Holds(rows', relayed, e)
  {
    hide Matches;
    forall e | Holds(rows, relayed, e) ensures Holds(rows', relayed, e) {
      var i :| 0 <= i < |rows| && Matches(relayed, e, rows[i].event);
      assert Matches(relayed, e, rows'[i].event);
    }
  }

  /** A phone stays consistent when the server grows, if the new rows of its device are its own. */
  lemma PhoneOkWhenServerGrows(d: int, p: Phone, l: Log, l': Log, relayed: set<Key>)
    requires PhoneOk(d, p, l, relayed) && Grows(l, l')
    requires forall i :: |l.rows| <= i < |l'.rows| && l'.rows[i].event.device == d ==>
               l'.rows[i].event.Id() in p.events &&
               Matches(relayed, p.events[l'.rows[i].event.Id()].event, l'.rows[i].event)
    ensures PhoneOk(d, p, l', relayed)
  {
    HoldsStays(l.rows, l'.rows, relayed);
    HoldsStays(l.rows, l'.rows, {});
    hide Holds, Matches;
    forall i | 0 <= i < |l'.rows| && l'.rows[i].event.device == d
      ensures l'.rows[i].event.Id() in p.events &&
              Matches(relayed, p.events[l'.rows[i].event.Id()].event, l'.rows[i].event)
    {
      assert i < |l.rows| ==> l'.rows[i] == l.rows[i];
    }
    forall i | 0 <= i < |l'.rows| && l'.rows[i].serverSeq <= Watermark(p) ensures l'.rows[i].event.Id() in p.events {
      assert i < |l.rows| ==> l'.rows[i] == l.rows[i];
    }
  }

  lemma MessagesOkWhenServerGrows(w: World, l': Log)
    requires Inv(w) && Grows(w.server, l') && Positioned(l')
    ensures forall r :: r in w.replies ==> ReplyOk(r, l'.rows)
    ensures forall g :: g in w.pages ==> PageOk(g, l', w.phones)
  {
    forall r | r in w.replies ensures ReplyOk(r, l'.rows) {
      forall v | v in r.verdicts && v.Accepted? ensures Stored(l'.rows, Key(v.result.device, v.result.seqNo)) {
        StoredStays(w.server.rows, l'.rows, Key(v.result.device, v.result.seqNo));
      }
    }
    forall g | g in w.pages ensures PageOk(g, l', w.phones) {
      forall row | row in l'.rows && g.since < row.serverSeq <= g.nextSince ensures row in g.events {
        var i :| 0 <= i < |l'.rows| && l'.rows[i] == row;
        assert i < |w.server.rows|;
        assert w.server.rows[i] == row;
      }
    }
  }

  // ------------------------------------------------------ steps of the server

  /** The invariant survives growth of the log by rows whose devices hold them. */
  lemma ServerGrowthKeepsInv(w: World, l': Log)
    requires Inv(w) && Grows(w.server, l') && WellFormed(l')
    requires forall i :: |w.server.rows| <= i < |l'.rows| && l'.rows[i].event.device != SERVER_DEVICE_ID ==>
               AuthoredBy(w, l'.rows[i].event)
    ensures Inv(w.(server := l'))
  {
    MessagesOkWhenServerGrows(w, l');
    hide PageOk, ReplyOk, RequestOk, Matches;
    forall d | d in w.phones ensures PhoneOk(d, w.phones[d], l', w.relayed) {
      assert PhoneOk(d, w.phones[d], w.server, w.relayed);
      PhoneOkWhenServerGrows(d, w.phones[d], w.server, l', w.relayed);
    }
    forall i | 0 <= i < |l'.rows| && l'.rows[i].event.device != SERVER_DEVICE_ID
      ensures l'.rows[i].event.device in w.phones
    {
      assert i < |w.server.rows| ==> l'.rows[i] == w.server.rows[i];
    }
  }

  /** The device named by the event has it in its own log. */
  ghost predicate AuthoredBy(w: World, e: Event) {
    && e.device in w.phones && e.Id() in w.phones[e.device].events
    && Matches(w.relayed, w.phones[e.device].events[e.Id()].event, e)
  }

  lemma RequestIsAuthored(w: World, request: Request, e: Event)
    requires Inv(w) && request in w.requests && e in request.events
    ensures AuthoredBy(w, e) && e.device == request.device
  {
    assert RequestOk(request, w.phones, w.relayed);
  }

  /** Whoever submits a request, the log it leads to keeps the invariant. */
  lemma IngestionKeepsInv(w: World, request: Request, caller: Option<Caller>)
    requires Inv(w) && request in w.requests
    ensures Inv(w.(server := Ingest(w.server, Candidates(request.events), caller).0))
  {
    hide PhoneOk, MaxSeq, WellFormed, Refusal, ReplyOk, PageOk, Matches, RequestOk, AuthoredBy;
    var raws := Candidates(request.events);
    var l' := Ingest(w.server, raws, caller).0;
    IngestKeepsOrder(w.server, raws, caller);
    IngestGrows(w.server, raws, caller);
    forall i | |w.server.rows| <= i < |l'.rows| ensures AuthoredBy(w, l'.rows[i].event) {
      var j :| 0 <= j < |raws| && raws[j] == Candidate(l'.rows[i].event);
      assert request.events[j] == l'.rows[i].event;
      RequestIsAuthored(w, request, l'.rows[i].event);
    }
    ServerGrowthKeepsInv(w, l');
  }

  lemma IngestStepKeepsInv(w: World, request: Request, incident: Option<int>)
    requires Inv(w) && request in w.requests
    ensures Inv(Next(w, IngestStep(request, incident)))
  {
    hide Inv, Ingest, Candidates, WellFormed, ReplyOk;
    if request.relayed {
      IngestionKeepsInv(w, request, GatewayCaller(incident));
    } else {
      var caller := FieldCaller(request.device, incident);
      IngestionKeepsInv(w, request, caller);
      LogOfInv(w);
      AcceptedAreStored(w.server, Candidates(request.events), request.device, incident);
      var (l', verdicts) := Ingest(w.server, Candidates(request.events), caller);
      NewReplyOk(Reply(request.device, verdicts), l'.rows);
      NewReplyKeepsInv(w.(server := l'), Reply(request.device, verdicts));
    }
  }

  lemma LogOfInv(w: World)
    requires Inv(w)
    ensures WellFormed(w.server)
  {
  }

  lemma NewReplyKeepsInv(w: World, r: Reply)
    requires Inv(w) && ReplyOk(r, w.server.rows)
    ensures Inv(w.(replies := w.replies + {r}))
  {
    hide WellFormed, ReplyOk, RequestOk, PhoneOk, PageOk;
  }

  lemma NewReplyOk(r: Reply, rows: seq<Row>)
    requires forall v :: v in r.verdicts && v.Accepted? ==>
               v.result.device == r.device && Stored(rows, Key(v.result.device, v.result.seqNo))
    requires forall v :: v in r.verdicts && v.Rejected? ==> !Retryable(v.code)
    ensures ReplyOk(r, rows)
  {
  }

  lemma ServerOpKeepsInv(w: World, op: Op)
    requires Inv(w) && !op.IngestOp?
    ensures Inv(w.(server := Perform(w.server, op)))
  {
    var l' := Perform(w.server, op);
    PerformKeepsOrder(w.server, op);
    if op.AuthorOp? && Author(w.server, op.draft).Some? {
      AuthorInserts(w.server, op.draft);
    }
    assert Grows(w.server, l');
    assert forall i :: |w.server.rows| <= i < |l'.rows| ==> l'.rows[i].event.device == SERVER_DEVICE_ID;
    ServerGrowthKeepsInv(w, l');
  }

  // ------------------------------------------------------- steps of a phone

  /** Replacing one phone: what messages and the other phones rely on must not shrink. */
  lemma PhoneStepKeepsInv(w: World, d: int, p: Phone)
    requires Inv(w) && d in w.phones
    requires PhoneOk(d, p, w.server, w.relayed)
    requires Watermark(p) >= Watermark(w.phones[d])
    requires forall k :: k in w.phones[d].events ==> k in p.events && p.events[k] == w.phones[d].events[k]
    ensures Inv(SetPhone(w, d, p))
  {
    hide PhoneOk, WellFormed, ReplyOk, Matches;
    var w' := SetPhone(w, d, p);
    forall r | r in w'.requests ensures RequestOk(r, w'.phones, w'.relayed) {
      assert RequestOk(r, w.phones, w.relayed);
    }
    forall g | g in w'.pages ensures PageOk(g, w'.server, w'.phones) {
      assert PageOk(g, w.server, w.phones);
    }
  }

  /** The counter is above every own `seq`, so allocation never collides. */
  lemma AuthoredPhoneOk(d: int, p: Phone, draft: Event, now: int, l: Log, relayed: set<Key>)
    requires PhoneOk(d, p, l, relayed)
    ensures AppendAuthored(p, d, draft, now).Some?
    ensures PhoneOk(d, AppendAuthored(p, d, draft, now).value, l, relayed)
  {
    hide Holds, WellFormed, Matches;
    var e := draft.(device := d, seqNo := NextSeq(p, d));
    assert e.Id() !in p.events;
    var p' := AppendAuthored(p, d, draft, now).value;
    NewEventKeepsUplink(d, p, p', e.Id(), l.rows, relayed);
  }

  lemma AuthorStepKeepsInv(w: World, d: int, draft: Event, now: int)
    requires Inv(w) && d in w.phones
    ensures AppendAuthored(w.phones[d], d, draft, now).Some?
    ensures Inv(SetPhone(w, d, AppendAuthored(w.phones[d], d, draft, now).value))
  {
    var p := w.phones[d];
    AuthoredPhoneOk(d, p, draft, now, w.server, w.relayed);
    hide Inv, PhoneOk;
    PhoneStepKeepsInv(w, d, AppendAuthored(p, d, draft, now).value);
  }

  lemma NewEventKeepsUplink(d: int, p: Phone, p': Phone, k: Key, rows: seq<Row>, relayed: set<Key>)
    requires UplinkOk(d, p, rows, relayed)
    requires p'.events.Keys == p.events.Keys + {k} && p'.outbox.Keys == p.outbox.Keys + {k}
    requires k.device == d && k !in p.events && k !in p.outbox && p'.outbox[k].state == PENDING
    requires forall x :: x in p.events ==> p'.events[x] == p.events[x]
    requires forall x :: x in p.outbox ==> p'.outbox[x] == p.outbox[x]
    ensures UplinkOk(d, p', rows, relayed)
  {
    hide Holds;
  }

  /** An outbox update that touches no event, adds no row, and acknowledges only what is held. */
  ghost predicate OutboxMove(p: Phone, p': Phone, rows: seq<Row>, relayed: set<Key>) {
    && p'.events == p.events && p'.counters == p.counters && p'.watermark == p.watermark
    && p'.outbox.Keys <= p.outbox.Keys
    && (forall k :: k in p'.outbox && p'.outbox[k].state == ACKED && k in p.events ==>
          p.outbox[k].state == ACKED || Holds(rows, relayed, p.events[k].event))
    && (forall k :: k in p.outbox && k !in p'.outbox && k in p.events ==>
          p.outbox[k].state == ACKED || Holds(rows, relayed, p.events[k].event))
  }

  lemma OutboxMovePhoneOk(d: int, p: Phone, p': Phone, l: Log, relayed: set<Key>)
    requires PhoneOk(d, p, l, relayed) && OutboxMove(p, p', l.rows, relayed)
    ensures PhoneOk(d, p', l, relayed)
  {
    hide Holds, Matches;
  }

  lemma OutboxMoveKeepsInv(w: World, d: int, p': Phone)
    requires Inv(w) && d in w.phones && OutboxMove(w.phones[d], p', w.server.rows, w.relayed)
    ensures Inv(SetPhone(w, d, p'))
  {
    hide LocalOk, UplinkOk, AuthorshipOk, DownlinkOk, Holds, WellFormed, RequestOk, ReplyOk, PageOk;
    OutboxMovePhoneOk(d, w.phones[d], p', w.server, w.relayed);
    PhoneStepKeepsInv(w, d, p');
  }

  lemma OutboxMoveTransitive(a: Phone, b: Phone, c: Phone, rows: seq<Row>, relayed: set<Key>)
    requires OutboxMove(a, b, rows, relayed) && OutboxMove(b, c, rows, relayed)
    ensures OutboxMove(a, c, rows, relayed)
  {
    hide Holds;
  }

  lemma {:induction false} MarkBatchMoves(p: Phone, keys: seq<Key>, batchRef: int, rows: seq<Row>, relayed: set<Key>)
    ensures OutboxMove(p, MarkBatch(p, keys, batchRef), rows, relayed)
    decreases keys
  {
    hide Holds;
    if keys == [] {
    } else {
      var p1 := MarkInFlight(p, keys[0], batchRef);
      MarkBatchMoves(p1, keys[1..], batchRef, rows, relayed);
    }
  }

  /** Every acceptance among the answers names an event the server holds with the phone's content. */
  ghost predicate AnswersOk(p: Phone, answers: seq<Answer>, rows: seq<Row>, relayed: set<Key>) {
    forall a :: a in answers && a.Accept? && a.key in p.events ==> Holds(rows, relayed, p.events[a.key].event)
  }

  lemma {:induction false} AnswersMove(p: Phone, answers: seq<Answer>, rows: seq<Row>, relayed: set<Key>)
    requires AnswersOk(p, answers, rows, relayed)
    ensures OutboxMove(p, ApplyAnswers(p, answers), rows, relayed)
    decreases answers
  {
    hide Holds, ApplyAnswer, OutboxMove;
    if answers == [] {
      NoMove(p, rows, relayed);
    } else {
      assert answers[0] in answers;
      var p1 := ApplyAnswer(p, answers[0]);
      AnswerMoves(p, answers[0], rows, relayed);
      AnswersMove(p1, answers[1..], rows, relayed);
      OutboxMoveTransitive(p, p1, ApplyAnswers(p, answers), rows, relayed);
    }
  }

  lemma NoMove(p: Phone, rows: seq<Row>, relayed: set<Key>)
    ensures OutboxMove(p, p, rows, relayed)
  {
  }

  lemma AnswerMoves(p: Phone, a: Answer, rows: seq<Row>, relayed: set<Key>)
    requires a.Accept? && a.key in p.events ==> Holds(rows, relayed, p.events[a.key].event)
    ensures OutboxMove(p, ApplyAnswer(p, a), rows, relayed) && ApplyAnswer(p, a).events == p.events
  {
    hide Holds;
  }

  lemma {:induction false} AcceptancesComeFromVerdicts(vs: seq<Verdict>)
    ensures forall k :: k in AcceptedKeys(vs) ==>
              exists v :: v in vs && v.Accepted? && k == Key(v.result.device, v.result.seqNo)
  {
    if vs == [] {
    } else {
      AcceptancesComeFromVerdicts(vs[1..]);
      forall k | k in AcceptedKeys(vs)
        ensures exists v :: v in vs && v.Accepted? && k == Key(v.result.device, v.result.seqNo)
      {
        if k in AcceptedKeys(vs[1..]) {
          var v :| v in vs[1..] && v.Accepted? && k == Key(v.result.device, v.result.seqNo);
          assert v in vs;
        } else {
          assert vs[0] in vs;
        }
      }
    }
  }

  lemma {:induction false} AcceptedOfSubset(vs: seq<Verdict>)
    ensures forall v :: v in AcceptedOf(vs) || v in RejectedOf(vs) ==> v in vs
  {
    if vs == [] {
    } else {
      AcceptedOfSubset(vs[1..]);
    }
  }

  /** An event stored under an own key is the phone's own event. */
  lemma StoredIsOwn(d: int, p: Phone, rows: seq<Row>, relayed: set<Key>, k: Key)
    requires LocalOk(d, p) && AuthorshipOk(d, p, rows, relayed) && Stored(rows, k) && k.device == d
    ensures k in p.events && Holds(rows, relayed, p.events[k].event)
  {
    var i :| 0 <= i < |rows| && rows[i].event.Id() == k;
    assert rows[i].event.device == d;
  }

  lemma DeliverStepKeepsInv(w: World, reply: Reply, batch: seq<Key>, t: Timing)
    requires Inv(w) && reply in w.replies && reply.device in w.phones
    ensures Inv(SetPhone(w, reply.device, AfterReply(w.phones[reply.device], batch, reply.verdicts, t)))
  {
    var d, p := reply.device, w.phones[reply.device];
    AcceptedAreHeld(w, reply);
    hide *;
    DeliveredMoves(p, batch, reply.verdicts, t, w.server.rows, w.relayed);
    OutboxMoveKeepsInv(w, d, AfterReply(p, batch, reply.verdicts, t));
  }

  lemma AcceptedAreHeld(w: World, reply: Reply)
    requires Inv(w) && reply in w.replies && reply.device in w.phones
    ensures var p := w.phones[reply.device];
            forall k :: k in AcceptedKeys(AcceptedOf(reply.verdicts)) && k in p.events ==>
              Holds(w.server.rows, w.relayed, p.events[k].event)
  {
    var d, p, vs := reply.device, w.phones[reply.device], reply.verdicts;
    assert PhoneOk(d, p, w.server, w.relayed) && ReplyOk(reply, w.server.rows);
    hide Inv, Holds, Matches, UplinkOk, DownlinkOk;
    AcceptancesComeFromVerdicts(AcceptedOf(vs));
    AcceptedOfSubset(vs);
    forall k | k in AcceptedKeys(AcceptedOf(vs)) ensures k in p.events && Holds(w.server.rows, w.relayed, p.events[k].event) {
      var v :| v in AcceptedOf(vs) && v.Accepted? && k == Key(v.result.device, v.result.seqNo);
      assert v in vs;
      StoredIsOwn(d, p, w.server.rows, w.relayed, k);
    }
  }

  /** A delivered reply moves rows, and acknowledges only what the server holds. */
  lemma DeliveredMoves(p: Phone, batch: seq<Key>, vs: seq<Verdict>, t: Timing, rows: seq<Row>, relayed: set<Key>)
    requires forall k :: k in AcceptedKeys(AcceptedOf(vs)) && k in p.events ==> Holds(rows, relayed, p.events[k].event)
    ensures OutboxMove(p, AfterReply(p, batch, vs, t), rows, relayed)
  {
    hide Holds, OutboxMove, AcceptedKeys, RefusedKeys, AcceptedOf, RejectedOf, NextTime, ApplyAnswers;
    var accepted := AcceptedKeys(AcceptedOf(vs));
    var middle := ApplyAnswers(p, Acceptances(accepted));
    forall a | a in Acceptances(accepted) && a.Accept? ensures a.key in accepted {
      var i :| 0 <= i < |accepted| && Acceptances(accepted)[i] == a;
    }
    AnswersMove(p, Acceptances(accepted), rows, relayed);
    AnswersMove(middle, RefusalAnswers(p, batch, RefusedKeys(RejectedOf(vs)), t), rows, relayed);
    OutboxMoveTransitive(p, middle, AfterReply(p, batch, vs, t), rows, relayed);
  }

  lemma SendStepKeepsInv(w: World, d: int, keys: seq<Key>)
    requires Inv(w) && d in w.phones && forall k :: k in keys ==> InState(w.phones[d], k, PENDING)
    ensures Inv(w.(requests := w.requests + {Request(d, EventsFor(w.phones[d], keys), false)}))
  {
    var p := w.phones[d];
    assert PhoneOk(d, p, w.server, w.relayed);
    hide WellFormed, ReplyOk, PageOk, UplinkOk, DownlinkOk, AuthorshipOk, Inv;
    var r := Request(d, EventsFor(p, keys), false);
    forall e | e in r.events ensures e.device == d && e.Id() in p.events && p.events[e.Id()].event == e {
      var k :| k in keys && k in p.events && e == p.events[k].event;
      assert k in p.outbox;
    }
    NewRequestKeepsInv(w, r);
  }

  lemma NewRequestKeepsInv(w: World, r: Request)
    requires Inv(w) && RequestOk(r, w.phones, w.relayed)
    ensures Inv(w.(requests := w.requests + {r}))
  {
    hide WellFormed, ReplyOk, RequestOk, PhoneOk, PageOk;
  }

  /** Remembering more relayed events only relaxes what is claimed of them. */
  lemma RelayedGrows(w: World, more: set<Key>)
    requires Inv(w)
    ensures Inv(w.(relayed := w.relayed + more))
  {
    var relayed := w.relayed + more;
    MatchesGrows(w.relayed, relayed);
    hide WellFormed, ReplyOk, PageOk, LocalOk, DownlinkOk, Matches;
    HoldsGrows(w.server.rows, w.relayed, relayed);
    hide Holds;
    forall d | d in w.phones ensures PhoneOk(d, w.phones[d], w.server, relayed) {
      assert PhoneOk(d, w.phones[d], w.server, w.relayed);
    }
    forall r | r in w.requests ensures RequestOk(r, w.phones, relayed) {
      assert RequestOk(r, w.phones, w.relayed);
    }
  }

  lemma MatchesGrows(a: set<Key>, b: set<Key>)
    requires a <= b
    ensures forall e, f :: Matches(a, e, f) ==> Matches(b, e, f)
  {
  }

  lemma HoldsGrows(rows: seq<Row>, a: set<Key>, b: set<Key>)
    requires a <= b
    ensures forall e :: Holds(rows, a, e) ==> Holds(rows, b, e)
  {
  }

  /** A relayed batch carries the same reports as the rows it was packed from. */
  lemma RelayStepKeepsInv(w: World, d: int, events: seq<Event>)
    requires Inv(w) && d in w.phones && CanRelay(w.phones[d], events)
    ensures Inv(w.(requests := w.requests + {Request(d, events, true)}, relayed := w.relayed + Ids(events)))
  {
    var p := w.phones[d];
    assert PhoneOk(d, p, w.server, w.relayed);
    RelayedGrows(w, Ids(events));
    hide Inv, WellFormed, ReplyOk, PageOk, UplinkOk, DownlinkOk, AuthorshipOk;
    var r := Request(d, events, true);
    forall e | e in events
      ensures e.device == d && e.Id() in p.events && Matches(w.relayed + Ids(events), p.events[e.Id()].event, e)
    {
      assert e.Id() in Ids(events);
      assert InState(p, e.Id(), PENDING);
    }
    NewRequestKeepsInv(w.(relayed := w.relayed + Ids(events)), r);
  }

  lemma FetchStepKeepsInv(w: World, d: int, limit: nat)
    requires Inv(w) && d in w.phones && limit >= 1
    ensures Inv(Next(w, FetchStep(d, limit)))
  {
    hide *;
    PhoneOfInv(w, d);
    FreshPageOk(d, w.phones[d], w.server, limit, w.phones, w.relayed);
    var page := PageOf(w.server.rows, Watermark(w.phones[d]), limit, Everything);
    NewPageKeepsInv(w, Page(d, Watermark(w.phones[d]), page.events, page.nextSince));
    FetchStepSends(w, d, limit);
  }

  lemma PhoneOfInv(w: World, d: int)
    requires Inv(w) && d in w.phones
    ensures WellFormed(w.server) && PhoneOk(d, w.phones[d], w.server, w.relayed)
  {
    hide WellFormed, PhoneOk, RequestOk, ReplyOk, PageOk;
  }

  lemma FetchStepSends(w: World, d: int, limit: nat)
    requires d in w.phones && limit >= 1
    ensures var page := PageOf(w.server.rows, Watermark(w.phones[d]), limit, Everything);
            Next(w, FetchStep(d, limit)) ==
            w.(pages := w.pages + {Page(d, Watermark(w.phones[d]), page.events, page.nextSince)})
  {
    hide PageOf, Watermark;
  }

  lemma NewPageKeepsInv(w: World, g: Page)
    requires Inv(w) && PageOk(g, w.server, w.phones)
    ensures Inv(w.(pages := w.pages + {g}))
  {
    hide WellFormed, ReplyOk, RequestOk, PhoneOk, PageOk;
  }

  lemma FreshPageOk(d: int, p: Phone, l: Log, limit: nat, phones: map<int, Phone>, relayed: set<Key>)
    requires WellFormed(l) && d in phones && p == phones[d] && PhoneOk(d, p, l, relayed) && limit >= 1
    ensures var page := PageOf(l.rows, Watermark(p), limit, Everything);
            PageOk(Page(d, Watermark(p), page.events, page.nextSince), l, phones)
  {
    hide PageOf, LocalOk, UplinkOk, AuthorshipOk;
    PageIsAWindow(l.rows, Watermark(p), limit, Everything);
    MaxServerSeqBelowIdentity(l);
    assert forall row: Row :: Everything(row);
  }

  lemma MaxServerSeqBelowIdentity(l: Log)
    requires Positioned(l)
    ensures MaxServerSeq(l.rows) <= l.identity
  {
    MaxServerSeqExact(l.rows);
    if l.rows != [] {
      var row :| row in l.rows && row.serverSeq == MaxServerSeq(l.rows);
      var i :| 0 <= i < |l.rows| && l.rows[i] == row;
    }
  }

  /** Receiving a page of genuine log rows keeps the phone consistent. */
  lemma {:induction false} ReceiveAllKeeps(d: int, p: Phone, rows: seq<Row>, l: Log, relayed: set<Key>)
    requires LocalOk(d, p) && UplinkOk(d, p, l.rows, relayed) && AuthorshipOk(d, p, l.rows, relayed)
    requires forall row :: row in rows ==> row in l.rows
    ensures var p' := ReceiveAll(p, rows);
            && LocalOk(d, p') && UplinkOk(d, p', l.rows, relayed) && AuthorshipOk(d, p', l.rows, relayed)
            && p'.watermark == p.watermark
            && (forall k :: k in p.events ==> k in p'.events && p'.events[k] == p.events[k])
            && (forall row :: row in rows ==> row.event.Id() in p'.events)
    decreases rows
  {
    if rows == [] {
    } else {
      assert rows[0] in rows;
      ReceiveKeeps(d, p, rows[0], l, relayed);
      hide LocalOk, UplinkOk, AuthorshipOk, Receive;
      ReceiveAllKeeps(d, Receive(p, rows[0]), rows[1..], l, relayed);
    }
  }

  lemma ReceiveKeeps(d: int, p: Phone, row: Row, l: Log, relayed: set<Key>)
    requires LocalOk(d, p) && UplinkOk(d, p, l.rows, relayed) && AuthorshipOk(d, p, l.rows, relayed) && row in l.rows
    ensures var p' := Receive(p, row);
            && LocalOk(d, p') && UplinkOk(d, p', l.rows, relayed) && AuthorshipOk(d, p', l.rows, relayed)
            && p'.watermark == p.watermark && row.event.Id() in p'.events
            && (forall k :: k in p.events ==> k in p'.events && p'.events[k] == p.events[k])
  {
    hide LocalOk, UplinkOk, AuthorshipOk, Holds;
    ForeignUnlessKnown(d, p, row, l, relayed);
    ReceiveKeepsUplink(d, p, row, l, relayed);
    ReceiveKeepsAuthorship(d, p, row, l, relayed);
  }

  /** The server returns nothing of this device that the device does not hold. */
  lemma ForeignUnlessKnown(d: int, p: Phone, row: Row, l: Log, relayed: set<Key>)
    requires LocalOk(d, p) && AuthorshipOk(d, p, l.rows, relayed) && row in l.rows
    ensures row.event.device == d ==> row.event.Id() in p.events
    ensures LocalOk(d, Receive(p, row))
  {
    hide Matches;
    var i :| 0 <= i < |l.rows| && l.rows[i] == row;
  }

  lemma ReceiveKeepsUplink(d: int, p: Phone, row: Row, l: Log, relayed: set<Key>)
    requires UplinkOk(d, p, l.rows, relayed) && row in l.rows
    ensures UplinkOk(d, Receive(p, row), l.rows, relayed)
  {
    var i :| 0 <= i < |l.rows| && l.rows[i] == row;
    assert Matches({}, row.event, l.rows[i].event) && Matches(relayed, row.event, l.rows[i].event);
    assert Holds(l.rows, {}, row.event) && Holds(l.rows, relayed, row.event);
    hide Holds, Matches;
  }

  lemma ReceiveKeepsAuthorship(d: int, p: Phone, row: Row, l: Log, relayed: set<Key>)
    requires AuthorshipOk(d, p, l.rows, relayed)
    ensures AuthorshipOk(d, Receive(p, row), l.rows, relayed)
  {
    hide Matches;
  }

  lemma PagePhoneOk(d: int, p: Phone, g: Page, l: Log, phones: map<int, Phone>, relayed: set<Key>)
    requires PhoneOk(d, p, l, relayed) && PageOk(g, l, phones) && g.since <= Watermark(p)
    ensures var p' := FieldStore.ApplyPage(p, g.events, g.nextSince);
            && PhoneOk(d, p', l, relayed) && Watermark(p') >= Watermark(p)
            && forall k :: k in p.events ==> k in p'.events && p'.events[k] == p.events[k]
  {
    hide LocalOk, UplinkOk, AuthorshipOk, DownlinkOk, ReceiveAll;
    ReceiveAllKeeps(d, p, g.events, l, relayed);
    var p1 := ReceiveAll(p, g.events);
    AdvanceKeepsRest(d, p1, g.nextSince, l.rows, relayed);
    WindowCoversAdvance(p, p1, g, l);
  }

  lemma PageStepKeepsInv(w: World, g: Page)
    requires Inv(w) && g in w.pages && g.device in w.phones
    ensures Inv(Next(w, PageStep(g)))
  {
    hide PhoneOk, WellFormed, RequestOk, ReplyOk, FieldStore.ApplyPage;
    assert PageOk(g, w.server, w.phones);
    PagePhoneOk(g.device, w.phones[g.device], g, w.server, w.phones, w.relayed);
    PhoneStepKeepsInv(w, g.device, FieldStore.ApplyPage(w.phones[g.device], g.events, g.nextSince));
  }

  /** A window that starts at or below the watermark fills the gap up to its own end. */
  lemma WindowCoversAdvance(p: Phone, p1: Phone, g: Page, l: Log)
    requires DownlinkOk(p, l) && p1.watermark == p.watermark
    requires g.since <= Watermark(p) && g.nextSince <= l.identity
    requires forall row :: row in l.rows && g.since < row.serverSeq <= g.nextSince ==> row in g.events
    requires forall k :: k in p.events ==> k in p1.events
    requires forall row :: row in g.events ==> row.event.Id() in p1.events
    ensures DownlinkOk(AdvanceTo(p1, g.nextSince), l)
  {
    var p' := AdvanceTo(p1, g.nextSince);
    forall i | 0 <= i < |l.rows| && l.rows[i].serverSeq <= Watermark(p') ensures l.rows[i].event.Id() in p'.events {
      if l.rows[i].serverSeq > Watermark(p) {
        assert l.rows[i] in l.rows;
        assert l.rows[i] in g.events;
      }
    }
  }

  lemma AdvanceKeepsRest(d: int, p: Phone, n: nat, rows: seq<Row>, relayed: set<Key>)
    requires LocalOk(d, p) && UplinkOk(d, p, rows, relayed) && AuthorshipOk(d, p, rows, relayed)
    ensures LocalOk(d, AdvanceTo(p, n)) && UplinkOk(d, AdvanceTo(p, n), rows, relayed) && AuthorshipOk(d, AdvanceTo(p, n), rows, relayed)
  {
  }

  // -------------------------------------------------------------- every run

  lemma NextKeepsInv(w: World, step: Step)
    requires Inv(w)
    ensures Inv(Next(w, step))
  {
    hide Inv, Ingest, Perform, ApplyAnswers, MarkBatch, ReceiveAll, Reclaim, PruneAcked, OutboxMove, AnswersOk;
    match step
    case AuthorStep(d, draft, now) =>
      if d in w.phones { AuthorStepKeepsInv(w, d, draft, now); }
    case SendStep(d, keys) =>
      if d in w.phones && forall k :: k in keys ==> InState(w.phones[d], k, PENDING) {
        SendStepKeepsInv(w, d, keys);
      }
    case RelayStep(d, events) =>
      if d in w.phones && CanRelay(w.phones[d], events) { RelayStepKeepsInv(w, d, events); }
    case MarkStep(d, keys, batchRef) =>
      if d in w.phones {
        MarkBatchMoves(w.phones[d], keys, batchRef, w.server.rows, w.relayed);
        OutboxMoveKeepsInv(w, d, MarkBatch(w.phones[d], keys, batchRef));
      }
    case IngestStep(request, incident) =>
      if request in w.requests { IngestStepKeepsInv(w, request, incident); }
    case DeliverStep(reply, batch, timing) =>
      if reply in w.replies && reply.device in w.phones { DeliverStepKeepsInv(w, reply, batch, timing); }
    case FailStep(d, batch, timing) =>
      if d in w.phones {
        FailureMoves(w.phones[d], batch, timing, w.server.rows, w.relayed);
        OutboxMoveKeepsInv(w, d, FailAll(w.phones[d], w.phones[d], batch, timing));
      }
    case CrashStep(d) =>
      if d in w.phones {
        RestartMoves(w.phones[d], w.server.rows, w.relayed);
        OutboxMoveKeepsInv(w, d, Reclaim(w.phones[d]));
      }
    case PruneStep(d) =>
      if d in w.phones {
        PruneMoves(w.phones[d], w.server.rows, w.relayed);
        OutboxMoveKeepsInv(w, d, PruneAcked(w.phones[d]));
      }
    case ServerAuthorStep(draft) => ServerOpKeepsInv(w, AuthorOp(draft));
    case BurnStep(n) => ServerOpKeepsInv(w, Burn(n));
    case FetchStep(d, limit) =>
      if d in w.phones && limit >= 1 { FetchStepKeepsInv(w, d, limit); }
    case PageStep(g) =>
      if g in w.pages && g.device in w.phones { PageStepKeepsInv(w, g); }
  }

  lemma FailureMoves(p: Phone, batch: seq<Key>, t: Timing, rows: seq<Row>, relayed: set<Key>)
    ensures OutboxMove(p, FailAll(p, p, batch, t), rows, relayed)
  {
    hide ApplyAnswers, OutboxMove, NextTime;
    AnswersMove(p, FailureAnswers(batch, NextTimes(p, batch, t)), rows, relayed);
  }

  lemma RestartMoves(p: Phone, rows: seq<Row>, relayed: set<Key>)
    ensures OutboxMove(p, Reclaim(p), rows, relayed)
  {
  }

  lemma PruneMoves(p: Phone, rows: seq<Row>, relayed: set<Key>)
    ensures OutboxMove(p, PruneAcked(p), rows, relayed)
  {
  }

  lemma {:induction false} RunKeepsInv(w: World, steps: seq<Step>)
    requires Inv(w)
    ensures Inv(RunWorld(w, steps))
    decreases steps
  {
    hide Inv, Next;
    if steps == [] {
    } else {
      NextKeepsInv(w, steps[0]);
      RunKeepsInv(Next(w, steps[0]), steps[1..]);
    }
  }

  lemma InitOk(devices: set<int>)
    requires SERVER_DEVICE_ID !in devices
    ensures Inv(Init(devices))
  {
  }

  /** Every state any run can reach satisfies the invariant. */
  lemma ReachableOk(devices: set<int>, steps: seq<Step>)
    requires SERVER_DEVICE_ID !in devices
    ensures Inv(RunWorld(Init(devices), steps))
  {
    InitOk(devices);
    RunKeepsInv(Init(devices), steps);
  }
}
