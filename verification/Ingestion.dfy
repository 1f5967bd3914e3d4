/**
 Batch ingestion: one verdict per event, partial acceptance, monotone `seq` per device.
 The loop keeps a cache of each device's highest `seq`; the specification has none.
 */
module Ingestion {
  import opened Results
  import opened Domain
  import opened EventStore

  datatype RejectionCode = UnknownType | UnsupportedSchema | InvalidPayload | UnknownCell | SeqNotMonotonic
                         | AttributionMismatch | WrongIncident | TypeNotPermitted | Unavailable

  /** Only a transient failure is worth retrying. */
  predicate Retryable(code: RejectionCode) {
    code == Unavailable
  }

  /** The codes parsing raises. */
  type ParseCode = c: RejectionCode | c == UnknownType || c == UnsupportedSchema || c == InvalidPayload
    witness UnknownType

  /** One element of a submitted batch: not even the shape of an event, or a candidate. */
  datatype Raw = Garbage(device: Option<int>, seqNo: Option<int>, code: ParseCode) | Candidate(event: Event)

  datatype Role = Field | Gateway | OtherRole

  datatype Caller = Caller(role: Role, deviceId: int, incidentId: Option<int>)

  datatype Verdict =
    | Accepted(result: AppendResult)
    | Rejected(device: Option<int>, seqNo: Option<int>, code: RejectionCode)

  function Refuse(e: Event, code: RejectionCode): Verdict {
    Rejected(Some(e.device), Some(e.seqNo), code)
  }

  /** Why parsing fails, if it does. */
  function ParseFailure(raw: Raw): Option<RejectionCode> {
    match raw
    case Garbage(_, _, code) => Some(code)
    case Candidate(e) =>
      if e.schema > CURRENT_SCHEMA_VERSION then Some(UnsupportedSchema)
      else if !Canonical(e) then Some(InvalidPayload)
      else None
  }

  predicate MayPermanentlyReject(code: RejectionCode, critical: bool) {
    if critical && code == UnknownCell then false else !Retryable(code)
  }

  /** The first check an event fails that does not look at the log. */
  function Refusal(raw: Raw, caller: Option<Caller>): Option<Verdict> {
    match raw
    case Garbage(d, s, code) => Some(Rejected(d, s, code))
    case Candidate(e) =>
      if ParseFailure(raw).Some? then Some(Refuse(e, ParseFailure(raw).value))
      else if e.payload.ReportedCell().Some? && e.payload.ReportedCell().value > MAX_CELL_INDEX
              && MayPermanentlyReject(UnknownCell, e.payload.Critical())
      then Some(Refuse(e, UnknownCell))
      else if caller.Some? && caller.value.role == Field && e.device != caller.value.deviceId
      then Some(Refuse(e, AttributionMismatch))
      else if caller.Some? && caller.value.incidentId.Some? && e.incident != caller.value.incidentId.value
      then Some(Refuse(e, WrongIncident))
      else None
  }

  predicate Eligible(raw: Raw, caller: Option<Caller>) {
    Refusal(raw, caller).None?
  }

  lemma EligibleIsCanonical(raw: Raw, caller: Option<Caller>)
    requires Eligible(raw, caller)
    ensures raw.Candidate? && Canonical(raw.event)
  {
  }

  /**
   Payload validation already bounds the cell, so no event is refused for an unknown cell;
   and no verdict is a transient one.
   */
  lemma UnknownCellNeverRaised(l: Log, raw: Raw, caller: Option<Caller>)
    ensures var v := Judge(l, raw, caller).1;
            v.Rejected? ==> v.code != UnknownCell && v.code != Unavailable
  {
    hide Canonical, MaxSeq, Append;
    if raw.Candidate? && Canonical(raw.event) {
      CanonicalCellInRange(raw.event);
    }
  }

  lemma CanonicalCellInRange(e: Event)
    requires Canonical(e)
    ensures e.payload.ReportedCell().Some? ==> 0 <= e.payload.ReportedCell().value <= MAX_CELL_INDEX
  {
  }

  /** One event against the log. */
  function Judge(l: Log, raw: Raw, caller: Option<Caller>): (Log, Verdict) {
    if Refusal(raw, caller).Some? then (l, Refusal(raw, caller).value)
    else if raw.event.seqNo < MaxSeq(l.rows, raw.event.device) then (l, Refuse(raw.event, SeqNotMonotonic))
    else
      var (l', result) := Append(l, raw.event);
      (l', Accepted(result))
  }

  function Ingest(l: Log, raws: seq<Raw>, caller: Option<Caller>): (r: (Log, seq<Verdict>))
    ensures |r.1| == |raws|
    decreases raws
  {
    if raws == [] then (l, []) else
    var (l1, v) := Judge(l, raws[0], caller);
    var (l2, vs) := Ingest(l1, raws[1..], caller);
    (l2, [v] + vs)
  }

  function AcceptedOf(vs: seq<Verdict>): seq<Verdict> {
    if vs == [] then [] else (if vs[0].Accepted? then [vs[0]] else []) + AcceptedOf(vs[1..])
  }

  function RejectedOf(vs: seq<Verdict>): seq<Verdict> {
    if vs == [] then [] else (if vs[0].Rejected? then [vs[0]] else []) + RejectedOf(vs[1..])
  }

  // ------------------------------------------------------------------- the loop

  class Server {
    var log: Log

    constructor ()
      ensures log == EMPTY_LOG
    {
      log := EMPTY_LOG;
    }

    /** Idempotent on `(device_id, seq)`. */
    method AppendEvent(e: Event) returns (result: AppendResult)
      modifies this
      ensures (log, result) == Append(old(log), e)
    {
      var inserted := !Stored(log.rows, e.Id());
      log := log.(identity := log.identity + 1);
      if inserted {
        log := log.(rows := log.rows + [Row(e, log.identity)]);
        result := AppendResult(e.device, e.seqNo, log.identity, false);
      } else {
        result := AppendResult(e.device, e.seqNo, Find(log.rows, e.Id()).serverSeq, true);
      }
    }

    method IngestBatch(events: seq<Raw>, caller: Option<Caller>)
        returns (accepted: seq<Verdict>, rejected: seq<Verdict>, serverSeqHigh: nat)
      requires WellFormed(log)
      modifies this
      ensures WellFormed(log)
      ensures log == Ingest(old(log), events, caller).0
      ensures accepted == AcceptedOf(Ingest(old(log), events, caller).1)
      ensures rejected == RejectedOf(Ingest(old(log), events, caller).1)
      ensures serverSeqHigh == MaxServerSeq(log.rows)
    {
      hide Ingest, AcceptedOf, RejectedOf, MaxSeq, Judge, WellFormed;
      accepted, rejected := [], [];
      var highest: map<int, int> := map[];
      ghost var all := Ingest(log, events, caller);
      assert events[0..] == events;
      for i := 0 to |events|
        invariant WellFormed(log)
        invariant forall d :: d in highest ==> highest[d] == MaxSeq(log.rows, d)
        invariant all.0 == Ingest(log, events[i..], caller).0
        invariant AcceptedOf(all.1) == accepted + AcceptedOf(Ingest(log, events[i..], caller).1)
        invariant RejectedOf(all.1) == rejected + RejectedOf(Ingest(log, events[i..], caller).1)
      {
        var raw := events[i];
        assert events[i..] == [raw] + events[i + 1..];
        IngestFirst(log, raw, events[i + 1..], caller);
        var verdict;
        verdict, highest := IngestOne(raw, caller, highest);
        if verdict.Accepted? {
          accepted := accepted + [verdict];
        } else {
          rejected := rejected + [verdict];
        }
      }
      assert events[|events|..] == [];
      IngestNone(log, caller);
      serverSeqHigh := MaxServerSeq(log.rows);
    }

    /** One turn of the loop, with the cache of each device's highest `seq`. */
    method IngestOne(raw: Raw, caller: Option<Caller>, before: map<int, int>) returns (verdict: Verdict, highest: map<int, int>)
      requires WellFormed(log)
      requires forall d :: d in before ==> before[d] == MaxSeq(log.rows, d)
      modifies this
      ensures WellFormed(log)
      ensures (log, verdict) == Judge(old(log), raw, caller)
      ensures forall d :: d in highest ==> highest[d] == MaxSeq(log.rows, d)
    {
      hide MaxSeq, Append, WellFormed, Refusal, Canonical;
      highest := before;
      JudgeKeepsOrder(log, raw, caller);
      var refusal := Refusal(raw, caller);
      if refusal.Some? {
        return refusal.value, highest;
      }
      EligibleIsCanonical(raw, caller);
      var e := raw.event;
      if e.device !in highest {
        highest := highest[e.device := MaxSeq(log.rows, e.device)];
      }
      var previous := highest[e.device];
      if e.seqNo < previous {
        return Refuse(e, SeqNotMonotonic), highest;
      }
      var result := AppendEvent(e);
      highest := highest[e.device := if previous >= e.seqNo then previous else e.seqNo];
      verdict := Accepted(result);
    }

    /** A commander's action becomes an event of device 0. */
    method AuthorEvent(draft: Event) returns (result: Option<AppendResult>)
      requires WellFormed(log)
      modifies this
      ensures WellFormed(log)
      ensures result.Some? <==> Author(old(log), draft).Some?
      ensures log == if result.Some? then Author(old(log), draft).value else old(log)
      ensures result.Some? ==> result.value == Append(old(log), Authored(old(log), draft)).1
    {
      var e := Authored(log, draft);
      if !Canonical(e) {
        return None;
      }
      AuthorInserts(log, draft);
      var appended := AppendEvent(e);
      result := Some(appended);
    }
  }

  lemma IngestNone(l: Log, caller: Option<Caller>)
    ensures Ingest(l, [], caller) == (l, []) && AcceptedOf([]) == [] && RejectedOf([]) == []
  {
  }

  lemma IngestFirst(l: Log, raw: Raw, rest: seq<Raw>, caller: Option<Caller>)
    ensures var (l1, v) := Judge(l, raw, caller);
            && Ingest(l, [raw] + rest, caller).0 == Ingest(l1, rest, caller).0
            && AcceptedOf(Ingest(l, [raw] + rest, caller).1) ==
               (if v.Accepted? then [v] else []) + AcceptedOf(Ingest(l1, rest, caller).1)
            && RejectedOf(Ingest(l, [raw] + rest, caller).1) ==
               (if v.Rejected? then [v] else []) + RejectedOf(Ingest(l1, rest, caller).1)
  {
    var (l1, v) := Judge(l, raw, caller);
    var vs := Ingest(l1, rest, caller).1;
    assert ([raw] + rest)[1..] == rest;
    assert ([v] + vs)[1..] == vs;
  }

  // ----------------------------------------------------------------- properties

  lemma JudgeKeepsOrder(l: Log, raw: Raw, caller: Option<Caller>)
    requires WellFormed(l)
    ensures WellFormed(Judge(l, raw, caller).0)
    ensures l.rows <= Judge(l, raw, caller).0.rows
    ensures forall d :: MaxSeq(Judge(l, raw, caller).0.rows, d) ==
              if Eligible(raw, caller) && d == raw.event.device then Max(MaxSeq(l.rows, d), raw.event.seqNo)
              else MaxSeq(l.rows, d)
  {
    if Eligible(raw, caller) {
      EligibleIsCanonical(raw, caller);
      hide MaxSeq, Append, Canonical, Refusal;
      if raw.event.seqNo >= MaxSeq(l.rows, raw.event.device) {
        AppendKeepsOrder(l, raw.event);
      }
    }
  }

  /** The highest `seq` a device submits among eligible events, or -1. */
  function EligibleMax(raws: seq<Raw>, caller: Option<Caller>, device: int): int {
    if raws == [] then -1 else
    var rest := EligibleMax(raws[1..], caller, device);
    if Eligible(raws[0], caller) && raws[0].event.device == device then Max(raws[0].event.seqNo, rest) else rest
  }

  /** Ingestion only appends, in order, and raises each device's maximum to what was submitted. */
  lemma {:induction false} IngestKeepsOrder(l: Log, raws: seq<Raw>, caller: Option<Caller>)
    requires WellFormed(l)
    ensures var l' := Ingest(l, raws, caller).0;
            && WellFormed(l') && l.rows <= l'.rows
            && forall d :: MaxSeq(l'.rows, d) == Max(MaxSeq(l.rows, d), EligibleMax(raws, caller, d))
    decreases raws
  {
    if raws == [] {
      forall d ensures MaxSeq(l.rows, d) == Max(MaxSeq(l.rows, d), -1) {
        MaxSeqBounds(l.rows, d);
      }
    } else {
      JudgeKeepsOrder(l, raws[0], caller);
      hide WellFormed, Judge, MaxSeq, Eligible;
      IngestKeepsOrder(Judge(l, raws[0], caller).0, raws[1..], caller);
    }
  }

  /** One batch or two: same log, and the verdicts one after the other. */
  lemma {:induction false} IngestConcat(l: Log, xs: seq<Raw>, ys: seq<Raw>, caller: Option<Caller>)
    ensures var (l1, v1) := Ingest(l, xs, caller);
            var (l2, v2) := Ingest(l1, ys, caller);
            Ingest(l, xs + ys, caller) == (l2, v1 + v2)
    decreases xs
  {
    hide Judge;
    if xs == [] {
      assert xs + ys == ys;
      assert [] + Ingest(l, ys, caller).1 == Ingest(l, ys, caller).1;
    } else {
      var (l1, v) := Judge(l, xs[0], caller);
      IngestConcat(l1, xs[1..], ys, caller);
      assert (xs + ys)[1..] == xs[1..] + ys;
      var (l2, vs) := Ingest(l1, xs[1..], caller);
      var ws := Ingest(l2, ys, caller).1;
      assert [v] + (vs + ws) == [v] + vs + ws;
    }
  }

  /**
   Exact acceptance: an event is accepted if and only if it is eligible and its `seq`
   is at least the device's stored maximum and every earlier eligible `seq` in the batch.
   */
  lemma AcceptedIff(l: Log, raws: seq<Raw>, caller: Option<Caller>, i: nat)
    requires WellFormed(l) && i < |raws|
    ensures Ingest(l, raws, caller).1[i].Accepted? <==>
            && Eligible(raws[i], caller)
            && raws[i].event.seqNo >= MaxSeq(l.rows, raws[i].event.device)
            && raws[i].event.seqNo >= EligibleMax(raws[..i], caller, raws[i].event.device)
  {
    assert raws == raws[..i] + raws[i..];
    IngestConcat(l, raws[..i], raws[i..], caller);
    IngestKeepsOrder(l, raws[..i], caller);
  }

  // --------------------------------------------- what a batch may do, by its own fields

  lemma JudgedRow(l: Log, raw: Raw, caller: Option<Caller>)
    ensures var (l', v) := Judge(l, raw, caller);
            && (l'.rows == l.rows || (raw.Candidate? && l'.rows == l.rows + [Row(raw.event, l.identity + 1)] && v.Accepted?))
            && (v.Accepted? ==> raw.Candidate? && InScope(raw.event, caller) && raw.event.schema <= 1 && Canonical(raw.event))
  {
    hide Canonical, MaxSeq, Stored;
  }

  /** A phone writes as itself, and whoever is bound to an incident writes in it. */
  predicate InScope(e: Event, caller: Option<Caller>) {
    && (caller.Some? && caller.value.role == Field ==> e.device == caller.value.deviceId)
    && (caller.Some? && caller.value.incidentId.Some? ==> e.incident == caller.value.incidentId.value)
  }

  /** Whatever is submitted, every row added is a submitted, valid event of the caller's own device and incident. */
  lemma {:induction false} AddedRowsInScope(l: Log, raws: seq<Raw>, caller: Option<Caller>, i: nat)
    requires |l.rows| <= i < |Ingest(l, raws, caller).0.rows|
    ensures var e := Ingest(l, raws, caller).0.rows[i].event;
            && Candidate(e) in raws && e.schema <= 1 && Canonical(e)
            && (caller.Some? && caller.value.role == Field ==> e.device == caller.value.deviceId)
            && (caller.Some? && caller.value.incidentId.Some? ==> e.incident == caller.value.incidentId.value)
    decreases raws
  {
    hide Judge, Canonical;
    if raws == [] {
    } else {
      JudgedRow(l, raws[0], caller);
      var l1 := Judge(l, raws[0], caller).0;
      IngestOnlyAppends(l1, raws[1..], caller);
      if i >= |l1.rows| {
        AddedRowsInScope(l1, raws[1..], caller, i);
      }
    }
  }

  lemma {:induction false} IngestOnlyAppends(l: Log, raws: seq<Raw>, caller: Option<Caller>)
    ensures l.rows <= Ingest(l, raws, caller).0.rows
    decreases raws
  {
    hide Judge;
    if raws == [] {
    } else {
      JudgedRow(l, raws[0], caller);
      IngestOnlyAppends(Judge(l, raws[0], caller).0, raws[1..], caller);
    }
  }

  lemma JudgedCode(l: Log, raw: Raw, caller: Option<Caller>)
    ensures var v := Judge(l, raw, caller).1;
            match raw
            case Garbage(d, s, code) => v == Rejected(d, s, code)
            case Candidate(e) =>
              if e.schema > 1 then v == Rejected(Some(e.device), Some(e.seqNo), UnsupportedSchema)
              else if !Canonical(e) then v == Rejected(Some(e.device), Some(e.seqNo), InvalidPayload)
              else if caller.Some? && caller.value.role == Field && e.device != caller.value.deviceId
              then v == Rejected(Some(e.device), Some(e.seqNo), AttributionMismatch)
              else if caller.Some? && caller.value.incidentId.Some? && e.incident != caller.value.incidentId.value
              then v == Rejected(Some(e.device), Some(e.seqNo), WrongIncident)
              else if e.seqNo < MaxSeq(l.rows, e.device) then v == Rejected(Some(e.device), Some(e.seqNo), SeqNotMonotonic)
              else v.Accepted?
  {
    hide Canonical, MaxSeq, Stored;
    if raw.Candidate? && Canonical(raw.event) {
      CanonicalCellInRange(raw.event);
    }
  }

  /**
   The verdict of each event: malformed, of an unknown schema, invalid, of another device, of
   another incident, in that order; and past these only the device's highest `seq` decides,
   stored or accepted earlier in the batch.
   */
  lemma VerdictExact(l: Log, raws: seq<Raw>, caller: Option<Caller>, i: nat)
    requires i < |raws|
    ensures var v := Ingest(l, raws, caller).1[i];
            var before := Ingest(l, raws[..i], caller).0;
            match raws[i]
            case Garbage(d, s, code) => v == Rejected(d, s, code)
            case Candidate(e) =>
              if e.schema > 1 then v == Rejected(Some(e.device), Some(e.seqNo), UnsupportedSchema)
              else if !Canonical(e) then v == Rejected(Some(e.device), Some(e.seqNo), InvalidPayload)
              else if caller.Some? && caller.value.role == Field && e.device != caller.value.deviceId
              then v == Rejected(Some(e.device), Some(e.seqNo), AttributionMismatch)
              else if caller.Some? && caller.value.incidentId.Some? && e.incident != caller.value.incidentId.value
              then v == Rejected(Some(e.device), Some(e.seqNo), WrongIncident)
              else if exists row :: row in before.rows && row.event.device == e.device && row.event.seqNo > e.seqNo
              then v == Rejected(Some(e.device), Some(e.seqNo), SeqNotMonotonic)
              else v.Accepted?
  {
    var before := Ingest(l, raws[..i], caller).0;
    VerdictAt(l, raws, caller, i);
    JudgedCode(before, raws[i], caller);
    if raws[i].Candidate? && Canonical(raws[i].event) {
      AboveIff(before.rows, raws[i].event);
    }
    hide Judge, Ingest, Canonical, MaxSeq;
  }

  lemma VerdictAt(l: Log, raws: seq<Raw>, caller: Option<Caller>, i: nat)
    requires i < |raws|
    ensures Ingest(l, raws, caller).1[i] == Judge(Ingest(l, raws[..i], caller).0, raws[i], caller).1
  {
    hide Judge;
    assert raws == raws[..i] + raws[i..];
    IngestConcat(l, raws[..i], raws[i..], caller);
  }

  lemma AboveIff(rows: seq<Row>, e: Event)
    requires Canonical(e)
    ensures e.seqNo < MaxSeq(rows, e.device) <==>
            exists row :: row in rows && row.event.device == e.device && row.event.seqNo > e.seqNo
  {
    MaxSeqBounds(rows, e.device);
    assert e.seqNo >= 0;
    hide MaxSeq, Canonical;
    if e.seqNo < MaxSeq(rows, e.device) {
      var i :| 0 <= i < |rows| && rows[i].event.Id() == Key(e.device, MaxSeq(rows, e.device));
      assert rows[i] in rows;
    }
    if row :| row in rows && row.event.device == e.device && row.event.seqNo > e.seqNo {
      var i :| 0 <= i < |rows| && rows[i] == row;
    }
  }

  /** The first event of a device, from a caller without bounds: accepted exactly when every field is in range. */
  lemma FirstEventAcceptedIff(e: Event)
    ensures Ingest(EMPTY_LOG, [Candidate(e)], None).1[0].Accepted? <==>
            && 0 <= e.device <= 4095 && 0 <= e.seqNo <= 1_048_575 && e.incident >= 0 && e.schema == 1
            && 0 <= e.responder <= 1023 && 0 <= e.team <= 255 && 0 <= e.agency <= 15
            && e.entityId >= 0
            && match e.payload
               case IncidentDeclared(_) => e.entityId == e.incident
               case GridGenerated(rows, cols) =>
                 e.entityId == e.incident && 1 <= rows <= 8191 && 1 <= cols <= 8191 && rows * cols <= 8191
               case TeamRegistered(team, callsign, agency) =>
                 e.entityId == team && 0 <= team <= 255 && callsign != "" && 0 <= agency <= 15
               case DeviceEnrolled(device) => e.entityId == device && 0 <= device <= 4095
               case AssignmentIssued(id, team, cells) =>
                 e.entityId == id && 0 <= team <= 255 && cells != [] && forall c :: c in cells ==> 0 <= c <= 8190
               case AssignmentRevoked(id) => e.entityId == id
               case CellStatusReported(cell, _) => e.entityId == cell && 0 <= cell <= 8190
               case SurvivorReported(cell, persons, _, _, lat, lon) =>
                 && e.entityId == 0 && 0 <= cell <= 8190 && 0 <= persons <= 63
                 && (lat.Some? ==> -32_768 <= lat.value <= 32_767) && (lon.Some? ==> -32_768 <= lon.value <= 32_767)
               case ResourceDeltaReported(item, qty) => e.entityId == item && 0 <= item <= 255 && -128 <= qty <= 127
               case PositionReported(lat, lon, cell) =>
                 && e.entityId == e.team && -32_768 <= lat <= 32_767 && -32_768 <= lon <= 32_767
                 && (cell.Some? ==> 0 <= cell.value <= 8190)
               case TeamStatusReported(_) => e.entityId == e.team
  {
    VerdictExact(EMPTY_LOG, [Candidate(e)], None, 0);
    hide Ingest;
    assert [Candidate(e)][..0] == [];
    IngestNone(EMPTY_LOG, None);
  }

  /** The events whose verdict was acceptance. */
  function Survivors(l: Log, raws: seq<Raw>, caller: Option<Caller>): seq<Raw>
    decreases raws
  {
    if raws == [] then [] else
    var (l1, v) := Judge(l, raws[0], caller);
    (if v.Accepted? then [raws[0]] else []) + Survivors(l1, raws[1..], caller)
  }

  /** Rejected events leave no trace: without them the log and the acceptances are the same. */
  lemma {:induction false} RejectedEventsAreInert(l: Log, raws: seq<Raw>, caller: Option<Caller>)
    ensures var kept := Survivors(l, raws, caller);
            && Ingest(l, kept, caller).0 == Ingest(l, raws, caller).0
            && Ingest(l, kept, caller).1 == AcceptedOf(Ingest(l, raws, caller).1)
    decreases raws
  {
    hide Append, MaxSeq, Refusal;
    if raws == [] {
    } else {
      var (l1, v) := Judge(l, raws[0], caller);
      RejectedEventsAreInert(l1, raws[1..], caller);
      var kept := Survivors(l, raws, caller);
      var vs := Ingest(l1, raws[1..], caller).1;
      assert ([v] + vs)[1..] == vs;
      if v.Accepted? {
        assert kept[1..] == Survivors(l1, raws[1..], caller);
        assert kept[0] == raws[0];
      } else {
        assert kept == Survivors(l1, raws[1..], caller) && l1 == l;
      }
    }
  }

  // ------------------------------------------------------------- runs of the server

  /** What can happen to the log; a rolled-back transaction only burns identity values. */
  datatype Op = IngestOp(raws: seq<Raw>, caller: Option<Caller>) | AuthorOp(draft: Event) | Burn(n: nat)

  function Perform(l: Log, op: Op): Log {
    match op
    case IngestOp(raws, caller) => Ingest(l, raws, caller).0
    case AuthorOp(draft) => if Author(l, draft).Some? then Author(l, draft).value else l
    case Burn(n) => l.(identity := l.identity + n)
  }

  function Run(l: Log, ops: seq<Op>): Log
    decreases ops
  {
    if ops == [] then l else Run(Perform(l, ops[0]), ops[1..])
  }

  lemma PerformKeepsOrder(l: Log, op: Op)
    requires WellFormed(l)
    ensures WellFormed(Perform(l, op)) && l.rows <= Perform(l, op).rows
    ensures forall d :: MaxSeq(l.rows, d) <= MaxSeq(Perform(l, op).rows, d)
  {
    hide MaxSeq, Ingest, Author;
    match op
    case IngestOp(raws, caller) => IngestKeepsOrder(l, raws, caller);
    case AuthorOp(draft) =>
      if Author(l, draft).Some? {
        AuthorInserts(l, draft);
      }
    case Burn(n) =>
  }

  /**
   Order invariant: from an empty log, every run leaves one row per identity, climbing
   `server_seq`, and within each device climbing `seq`; and the log only grows.
   */
  lemma {:induction false} RunKeepsOrder(l: Log, ops: seq<Op>)
    requires WellFormed(l)
    ensures WellFormed(Run(l, ops)) && l.rows <= Run(l, ops).rows
    ensures forall d :: MaxSeq(l.rows, d) <= MaxSeq(Run(l, ops).rows, d)
    decreases ops
  {
    hide MaxSeq, Perform, WellFormed;
    if ops == [] {
    } else {
      PerformKeepsOrder(l, ops[0]);
      RunKeepsOrder(Perform(l, ops[0]), ops[1..]);
    }
  }

  /** Every eligible event of the batch is at or below its device's maximum. */
  ghost predicate Settled(l: Log, raws: seq<Raw>, caller: Option<Caller>) {
    forall raw :: raw in raws && Eligible(raw, caller) ==> raw.event.seqNo <= MaxSeq(l.rows, raw.event.device)
  }

  lemma {:induction false} SettledIngestAddsNothing(l: Log, raws: seq<Raw>, caller: Option<Caller>)
    requires WellFormed(l) && Settled(l, raws, caller)
    ensures Ingest(l, raws, caller).0.rows == l.rows && WellFormed(Ingest(l, raws, caller).0)
    decreases raws
  {
    if raws == [] {
    } else {
      var raw := raws[0];
      assert raw in raws;
      if Eligible(raw, caller) {
        EligibleIsCanonical(raw, caller);
        AppendAtMaxIsDuplicate(l, raw.event);
      }
      JudgeKeepsOrder(l, raw, caller);
      hide Refusal, MaxSeq, WellFormed, Append;
      SettledIngestAddsNothing(Judge(l, raw, caller).0, raws[1..], caller);
    }
  }

  lemma AppendAtMaxIsDuplicate(l: Log, e: Event)
    requires WellFormed(l) && 0 <= e.seqNo <= MaxSeq(l.rows, e.device)
    ensures e.seqNo == MaxSeq(l.rows, e.device) ==> Append(l, e).0.rows == l.rows
  {
    MaxSeqBounds(l.rows, e.device);
  }

  lemma {:induction false} EligibleMaxCovers(raws: seq<Raw>, caller: Option<Caller>, raw: Raw)
    requires raw in raws && Eligible(raw, caller)
    ensures raw.event.seqNo <= EligibleMax(raws, caller, raw.event.device)
  {
    if raw != raws[0] {
      assert raw in raws[1..];
      EligibleMaxCovers(raws[1..], caller, raw);
    }
  }

  /**
   Replay idempotence: a request already processed, submitted again after anything
   else has happened, adds no row, whatever verdicts it now gets.
   */
  lemma ReplayAddsNothing(l: Log, raws: seq<Raw>, caller: Option<Caller>, between: seq<Op>)
    requires WellFormed(l)
    ensures var later := Run(Ingest(l, raws, caller).0, between);
            Ingest(later, raws, caller).0.rows == later.rows
  {
    var l1 := Ingest(l, raws, caller).0;
    IngestKeepsOrder(l, raws, caller);
    RunKeepsOrder(l1, between);
    var later := Run(l1, between);
    forall raw | raw in raws && Eligible(raw, caller)
      ensures raw.event.seqNo <= MaxSeq(later.rows, raw.event.device)
    {
      EligibleMaxCovers(raws, caller, raw);
    }
    SettledIngestAddsNothing(later, raws, caller);
  }

  /**
   What becomes of an event that is not stored yet: it can still be stored, by some
   run, if and only if its `seq` is above its device's maximum.  The comments claim
   that sending again is always safe; draining CRITICAL first makes it lossy.
   */
  lemma StorableIff(l: Log, e: Event, caller: Option<Caller>)
    requires WellFormed(l) && !Stored(l.rows, e.Id()) && Eligible(Candidate(e), caller)
    ensures e.seqNo > MaxSeq(l.rows, e.device) <==>
            exists ops :: Stored(Run(l, ops).rows, e.Id())
  {
    MaxSeqBounds(l.rows, e.device);
    EligibleIsCanonical(Candidate(e), caller);
    if e.seqNo > MaxSeq(l.rows, e.device) {
      StoredByOneIngest(l, e, caller);
    } else {
      forall ops ensures !Stored(Run(l, ops).rows, e.Id()) {
        NeverStored(l, e, ops);
      }
    }
  }

  lemma StoredByOneIngest(l: Log, e: Event, caller: Option<Caller>)
    requires WellFormed(l) && Eligible(Candidate(e), caller) && e.seqNo > MaxSeq(l.rows, e.device)
    ensures Stored(Run(l, [IngestOp([Candidate(e)], caller)]).rows, e.Id())
  {
    EligibleIsCanonical(Candidate(e), caller);
    AppendKeepsOrder(l, e);
    hide Append, Refusal, Canonical, WellFormed, MaxSeq;
    var raws := [Candidate(e)];
    assert Ingest(l, raws, caller).0 == Ingest(Judge(l, raws[0], caller).0, raws[1..], caller).0;
    assert Ingest(l, raws, caller).0 == Append(l, e).0;
    var ops := [IngestOp(raws, caller)];
    assert Run(l, ops) == Run(Perform(l, ops[0]), ops[1..]);
  }

  lemma NeverStored(l: Log, e: Event, ops: seq<Op>)
    requires WellFormed(l) && !Stored(l.rows, e.Id()) && e.seqNo < MaxSeq(l.rows, e.device)
    ensures !Stored(Run(l, ops).rows, e.Id())
  {
    MaxSeqBounds(l.rows, e.device);
    RunKeepsOrder(l, ops);
    var rows := Run(l, ops).rows;
    hide MaxSeq, Run;
    forall i | 0 <= i < |rows| ensures rows[i].event.Id() != e.Id() {
      if i < |l.rows| {
        assert rows[i] == l.rows[i];
      } else if l.rows != [] && MaxSeq(l.rows, e.device) >= 0 {
        var top :| 0 <= top < |l.rows| && l.rows[top].event.Id() == Key(e.device, MaxSeq(l.rows, e.device));
        assert rows[top] == l.rows[top];
      }
    }
  }
}
