/**
 The server's encoder: the second implementation of the layout, which re-packs a
 relayed batch to recompute its MAC.  It checks field widths only.
 */
module BackendWire {
  import opened BitStrings
  import opened Results
  import opened Domain
  import opened BitIo
  import opened Wire
  import SmsCodec

  /** One event as the server hands it to the encoder; the type may have no layout. */
  datatype PackedEvent = PackedEvent(seqDelta: int, tDelta: int, responderId: int, payload: Payload)

  predicate AllEligible(es: seq<PackedEvent>) {
    forall e :: e in es ==> e.payload.SmsEligible()
  }

  function AsWire(es: seq<PackedEvent>): (ws: seq<WireEvent>)
    requires AllEligible(es)
    ensures |ws| == |es|
  {
    seq(|es|, i requires 0 <= i < |es| =>
        WireEvent(es[i].seqDelta, es[i].tDelta, es[i].responderId, es[i].payload))
  }

  function Lift(ws: seq<WireEvent>): (es: seq<PackedEvent>)
    ensures AllEligible(es) && AsWire(es) == ws
  {
    seq(|ws|, i requires 0 <= i < |ws| =>
        PackedEvent(ws[i].seqDelta, ws[i].tDelta, ws[i].responderId, ws[i].payload))
  }

  /** What the server's encoder accepts. */
  predicate Accepts(h: BatchHeader, es: seq<PackedEvent>) {
    && |es| == h.eventCount && HeaderFits(h)
    && AllEligible(es) && EventsFit(AsWire(es), -1)
  }

  method PackHeader(w: ListBitWriter, h: BatchHeader) returns (r: Result<()>)
    requires w.Valid()
    modifies w
    ensures w.Valid()
    ensures r == if HeaderFits(h) then Ok(()) else Err(Encoding)
    ensures r.Ok? ==> w.Contents() == old(w.Contents()) + EncodedHeader(h, [])
  {
    if HeaderFits(h) {
      SmsCodec.HeaderAppended(w.Contents(), h);
    }
    hide ListBitWriter.Valid, ListBitWriter.Contents, Pow2, EncodedHeader, Fits, ToBits;
    var _ :- w.Write(h.protoVersion, PROTO_VERSION_BITS);
    var _ :- w.Write(h.deviceId, DEVICE_ID_BITS);
    var _ :- w.Write(h.teamId, TEAM_ID_BITS);
    var _ :- w.Write(h.agencyId, AGENCY_ID_BITS);
    var _ :- w.Write(h.incidentId, INCIDENT_ID_BITS);
    var _ :- w.Write(h.schemaVersion, SCHEMA_VERSION_BITS);
    var _ :- w.Write(h.baseSeq, BASE_SEQ_BITS);
    var _ :- w.Write(h.baseT, BASE_T_BITS);
    var _ :- w.Write(h.eventCount, EVENT_COUNT_BITS);
    r := Ok(());
  }

  method PackSurvivor(w: ListBitWriter, p: SmsPayload) returns (r: Result<()>)
    requires w.Valid() && p.SurvivorReported?
    modifies w
    ensures w.Valid()
    ensures r == if PayloadFits(p) then Ok(()) else Err(Encoding)
    ensures r.Ok? ==> w.Contents() == old(w.Contents()) + PutPayload(p, [])
  {
    var mask := PresenceMask(p.triage.Some?, p.relLat.Some?, p.relLon.Some?);
    Widths();
    if PayloadFits(p) {
      SmsCodec.SurvivorAppended(w.Contents(), p, mask);
    }
    hide ListBitWriter.Valid, ListBitWriter.Contents, Pow2, PutPayload, ToBits, PutOptions, FitsSigned, PresenceMask;
    var _ := w.Write(mask, PRESENCE_MASK_BITS);
    var _ :- w.Write(p.cellIndex, CELL_INDEX_BITS);
    var _ :- w.Write(p.personCount, PERSON_COUNT_BITS);
    var _ :- w.Write(SurvivorStatusCode(p.survivorStatus), SURVIVOR_STATUS_BITS);
    var options := PackOptions(w, p);
    r := options;
  }

  method PackOptions(w: ListBitWriter, p: SmsPayload) returns (r: Result<()>)
    requires w.Valid() && p.SurvivorReported?
    modifies w
    ensures w.Valid()
    ensures r == if (p.relLat.Some? ==> FitsSigned(p.relLat.value, REL_COORD_BITS))
                    && (p.relLon.Some? ==> FitsSigned(p.relLon.value, REL_COORD_BITS))
                 then Ok(()) else Err(Encoding)
    ensures r.Ok? ==> w.Contents() == old(w.Contents()) + PutOptions(p.triage, p.relLat, p.relLon, [])
  {
    Widths();
    SmsCodec.Appended();
    hide ListBitWriter.Valid, ListBitWriter.Contents, Pow2, ToBits;
    ghost var before := w.Contents();
    if p.triage.Some? {
      var _ := w.Write(TriageCode(p.triage.value), TRIAGE_BITS);
    }
    if p.relLat.Some? {
      var _ :- w.WriteSigned(p.relLat.value, REL_COORD_BITS);
    }
    if p.relLon.Some? {
      var _ :- w.WriteSigned(p.relLon.value, REL_COORD_BITS);
    }
    assert w.Contents() + [] == before + PutOptions(p.triage, p.relLat, p.relLon, []);
    r := Ok(());
  }

  method PackPayload(w: ListBitWriter, p: SmsPayload) returns (r: Result<()>)
    requires w.Valid()
    modifies w
    ensures w.Valid()
    ensures r == if PayloadFits(p) then Ok(()) else Err(Encoding)
    ensures r.Ok? ==> w.Contents() == old(w.Contents()) + PutPayload(p, [])
  {
    if p.SurvivorReported? {
      r := PackSurvivor(w, p);
      return;
    }
    Widths();
    SmsCodec.Appended();
    hide ListBitWriter.Valid, ListBitWriter.Contents, Pow2, ToBits;
    ghost var before := w.Contents();
    match p {
      case CellStatusReported(cell, status) =>
        var _ :- w.Write(cell, CELL_INDEX_BITS);
        var _ := w.Write(CellStatusCode(status), STATUS_BITS);
      case ResourceDeltaReported(item, qty) =>
        var _ :- w.Write(item, ITEM_ID_BITS);
        var _ :- w.WriteSigned(qty, QTY_DELTA_BITS);
      case TeamStatusReported(status) =>
        var _ := w.Write(TeamStatusCode(status), TEAM_STATUS_BITS);
    }
    assert w.Contents() + [] == before + PutPayload(p, []);
    r := Ok(());
  }

  method PackEvent(w: ListBitWriter, e: PackedEvent) returns (r: Result<()>)
    requires w.Valid()
    modifies w
    ensures w.Valid()
    ensures r == if e.payload.SmsEligible() && EventFits(WireEvent(e.seqDelta, e.tDelta, e.responderId, e.payload))
                 then Ok(()) else Err(Encoding)
    ensures r.Ok? ==> w.Contents() == old(w.Contents()) +
                        EncodedEvent(WireEvent(e.seqDelta, e.tDelta, e.responderId, e.payload), [])
  {
    if !e.payload.SmsEligible() {
      return Err(Encoding);
    }
    ghost var we := WireEvent(e.seqDelta, e.tDelta, e.responderId, e.payload);
    if EventFits(we) {
      SmsCodec.EventAppended(w.Contents(), we);
    }
    Widths();
    hide ListBitWriter.Valid, ListBitWriter.Contents, Pow2, ToBits, PutPayload, PayloadFits, EncodedEvent;
    var _ := w.Write(e.payload.TypeCode(), EVT_TYPE_BITS);
    var _ :- w.Write(e.seqDelta, SEQ_DELTA_BITS);
    var _ :- w.Write(e.tDelta, T_DELTA_BITS);
    var _ :- PackPayload(w, e.payload);
    var _ :- w.Write(e.responderId, RESPONDER_ID_BITS);
    r := Ok(());
  }

  /** `header || events`, in the order given. */
  method EncodePayload(header: BatchHeader, events: seq<PackedEvent>) returns (r: Result<seq<Octet>>)
    ensures r.Ok? <==> Accepts(header, events)
    ensures r.Ok? ==> r.value == Pack(PayloadBits(header, AsWire(events)))
    ensures r.Err? ==> r.error == Encoding
  {
    hide ListBitWriter.Valid, ListBitWriter.Contents, EncodedHeader, HeaderFits, EncodedEvent, EventFits;
    if |events| != header.eventCount {
      return Err(Encoding);
    }
    var w := new ListBitWriter();
    var _ :- PackHeader(w, header);
    ghost var before := w.Contents();
    var last := -1;
    for i := 0 to |events|
      invariant w.Valid()
      invariant AllEligible(events[..i])
      invariant forall e :: e in AsWire(events[..i]) ==> EventFits(e)
      invariant AllEligible(events) ==> (EventsFit(AsWire(events), -1) <==> EventsFit(AsWire(events)[i..], last))
      invariant w.Contents() == before + EncodedEvents(AsWire(events[..i]), [])
    {
      var e := events[i];
      ghost var we := if e.payload.SmsEligible() then WireEvent(e.seqDelta, e.tDelta, e.responderId, e.payload)
                      else WireEvent(0, 0, 0, TeamStatusReported(Active));
      assert AllEligible(events) ==> AsWire(events)[i..] == [we] + AsWire(events)[i + 1..];
      if e.seqDelta <= last {
        return Err(Encoding);
      }
      last := e.seqDelta;
      var packed := PackEvent(w, e);
      if packed.Err? {
        return packed.PropagateFailure();
      }
      assert events[..i + 1] == events[..i] + [e];
      assert AsWire(events[..i + 1]) == AsWire(events[..i]) + [we];
      SmsCodec.EncodedEventsSnoc(AsWire(events[..i]), we);
    }
    assert events[..|events|] == events;
    SmsCodec.PayloadAppended(header, AsWire(events));
    var bytes := w.ToBytes();
    r := Ok(bytes);
  }

  /**
   The phone's encoder accepts exactly the batches that the server's accepts, that
   are not empty, and that name no reserved cell; and then both give the same bytes,
   since each gives `Pack(PayloadBits(h, ws))`.
   */
  lemma PhoneAcceptsIffServerDoes(h: BatchHeader, ws: seq<WireEvent>)
    ensures ValidHeader(h, |ws|) && ValidEvents(ws, -1) <==>
            Accepts(h, Lift(ws)) && ws != [] && forall e :: e in ws ==> !ReservedCell(e.payload)
  {
    ValidHeaderIff(h, |ws|);
    ValidEventsIff(ws, -1);
  }

  /** The agreement, on the two methods themselves. */
  method EncodeOnBothSides(h: BatchHeader, ws: seq<WireEvent>) returns (phone: Result<seq<Octet>>, server: Result<seq<Octet>>)
    ensures phone.Ok? ==> server == phone
    ensures server.Ok? && phone.Err? ==> ws == [] || exists e :: e in ws && ReservedCell(e.payload)
  {
    phone := SmsCodec.EncodePayload(h, ws);
    server := EncodePayload(h, Lift(ws));
    PhoneAcceptsIffServerDoes(h, ws);
  }
}
