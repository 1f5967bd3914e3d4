/**
 The phone's codec: encoding drives the bit writer, decoding drives the bit reader.
 Each method is tied to the bit layout and the parse of the wire format.
 */
module SmsCodec {
  import opened BitStrings
  import opened Results
  import opened Domain
  import opened BitIo
  import opened Wire
  import opened WireParse
  import opened WireLayout

  lemma Appended()
    ensures forall c: BitString, v: int, w: nat, t: BitString {:trigger c + Put(v, w, t)} ::
              Fits(v, w) ==> c + Put(v, w, t) == c + ToBits(v, w) + t
  {
  }

  // ------------------------------------------------------------------ encode

  lemma HeaderAppended(c: BitString, h: BatchHeader)
    requires HeaderFits(h)
    ensures c + EncodedHeader(h, []) ==
            c + ToBits(h.protoVersion, PROTO_VERSION_BITS) + ToBits(h.deviceId, DEVICE_ID_BITS)
            + ToBits(h.teamId, TEAM_ID_BITS) + ToBits(h.agencyId, AGENCY_ID_BITS)
            + ToBits(h.incidentId, INCIDENT_ID_BITS) + ToBits(h.schemaVersion, SCHEMA_VERSION_BITS)
            + ToBits(h.baseSeq, BASE_SEQ_BITS) + ToBits(h.baseT, BASE_T_BITS)
            + ToBits(h.eventCount, EVENT_COUNT_BITS)
  {
    hide ToBits, Pow2;
  }

  method WriteHeader(w: BitWriter, h: BatchHeader)
    requires w.Valid() && HeaderFits(h)
    modifies w.Repr
    ensures w.Valid() && fresh(w.Repr - old(w.Repr))
    ensures w.Contents() == old(w.Contents()) + EncodedHeader(h, [])
  {
    hide BitWriter.Valid, BitWriter.Contents, ToBits, Pow2, EncodedHeader, Fits, Unpack, Put;
    HeaderAppended(w.Contents(), h);
    w.WriteFitting(h.protoVersion, PROTO_VERSION_BITS);
    w.WriteFitting(h.deviceId, DEVICE_ID_BITS);
    w.WriteFitting(h.teamId, TEAM_ID_BITS);
    w.WriteFitting(h.agencyId, AGENCY_ID_BITS);
    w.WriteFitting(h.incidentId, INCIDENT_ID_BITS);
    WriteRestOfHeader(w, h);
  }

  method WriteRestOfHeader(w: BitWriter, h: BatchHeader)
    requires w.Valid() && HeaderFits(h)
    modifies w.Repr
    ensures w.Valid() && fresh(w.Repr - old(w.Repr))
    ensures w.Contents() ==
            old(w.Contents()) + ToBits(h.schemaVersion, SCHEMA_VERSION_BITS) + ToBits(h.baseSeq, BASE_SEQ_BITS)
            + ToBits(h.baseT, BASE_T_BITS) + ToBits(h.eventCount, EVENT_COUNT_BITS)
  {
    hide BitWriter.Valid, BitWriter.Contents, ToBits, Pow2, Fits, Unpack;
    w.WriteFitting(h.schemaVersion, SCHEMA_VERSION_BITS);
    w.WriteFitting(h.baseSeq, BASE_SEQ_BITS);
    w.WriteFitting(h.baseT, BASE_T_BITS);
    w.WriteFitting(h.eventCount, EVENT_COUNT_BITS);
  }

  lemma EventAppended(c: BitString, e: WireEvent)
    requires EventFits(e)
    ensures Fits(e.payload.TypeCode(), EVT_TYPE_BITS)
    ensures c + EncodedEvent(e, []) ==
            c + ToBits(e.payload.TypeCode(), EVT_TYPE_BITS) + ToBits(e.seqDelta, SEQ_DELTA_BITS)
            + ToBits(e.tDelta, T_DELTA_BITS) + PutPayload(e.payload, []) + ToBits(e.responderId, RESPONDER_ID_BITS)
  {
    hide PutPayload, ToBits, Pow2, PayloadFits;
    Widths();
    var tail := Put(e.responderId, RESPONDER_ID_BITS, []);
    PayloadThen(e.payload, [], tail);
    assert [] + tail == tail;
  }

  /** Refuses an event that a validator refuses; after that no field can overflow. */
  method WriteEvent(w: BitWriter, e: WireEvent) returns (r: Result<()>)
    requires w.Valid()
    modifies w.Repr
    ensures w.Valid() && fresh(w.Repr - old(w.Repr))
    ensures r == if ValidEvent(e) then Ok(()) else Err(Encoding)
    ensures r.Ok? ==> EventFits(e) && w.Contents() == old(w.Contents()) + EncodedEvent(e, [])
  {
    hide BitWriter.Valid, BitWriter.Contents, ToBits, Pow2, PutPayload, EncodedEvent, ValidEvent, PayloadFits;
    hide ReservedCell, Put;
    if !ValidEvent(e) {
      return Err(Encoding);
    }
    ValidEventIff(e);
    EventAppended(w.Contents(), e);
    w.WriteFitting(e.payload.TypeCode(), EVT_TYPE_BITS);
    w.WriteFitting(e.seqDelta, SEQ_DELTA_BITS);
    w.WriteFitting(e.tDelta, T_DELTA_BITS);
    WritePayload(w, e.payload);
    w.WriteFitting(e.responderId, RESPONDER_ID_BITS);
    r := Ok(());
  }

  method WritePayload(w: BitWriter, p: SmsPayload)
    requires w.Valid() && PayloadFits(p)
    modifies w.Repr
    ensures w.Valid() && fresh(w.Repr - old(w.Repr))
    ensures w.Contents() == old(w.Contents()) + PutPayload(p, [])
  {
    Widths();
    Appended();
    ghost var before := w.Contents();
    match p {
      case CellStatusReported(cell, status) =>
        w.WriteFitting(cell, CELL_INDEX_BITS);
        w.WriteFitting(CellStatusCode(status), STATUS_BITS);
      case ResourceDeltaReported(item, qty) =>
        w.WriteFitting(item, ITEM_ID_BITS);
        var _ := w.WriteSigned(qty, QTY_DELTA_BITS);
      case TeamStatusReported(status) =>
        w.WriteFitting(TeamStatusCode(status), TEAM_STATUS_BITS);
      case SurvivorReported(cell, persons, status, triage, relLat, relLon) =>
        WriteSurvivor(w, p);
    }
    assert w.Contents() + [] == w.Contents();
  }

  lemma SurvivorAppended(c: BitString, p: SmsPayload, mask: int)
    requires p.SurvivorReported? && PayloadFits(p)
    requires mask == PresenceMask(p.triage.Some?, p.relLat.Some?, p.relLon.Some?)
    ensures Fits(mask, PRESENCE_MASK_BITS)
    ensures Fits(SurvivorStatusCode(p.survivorStatus), SURVIVOR_STATUS_BITS)
    ensures c + PutPayload(p, []) ==
            c + ToBits(mask, PRESENCE_MASK_BITS) + ToBits(p.cellIndex, CELL_INDEX_BITS)
            + ToBits(p.personCount, PERSON_COUNT_BITS)
            + ToBits(SurvivorStatusCode(p.survivorStatus), SURVIVOR_STATUS_BITS)
            + PutOptions(p.triage, p.relLat, p.relLon, [])
  {
    hide ToBits, PutOptions, Pow2;
    Widths();
  }

  method WriteSurvivor(w: BitWriter, p: SmsPayload)
    requires w.Valid() && p.SurvivorReported? && PayloadFits(p)
    modifies w.Repr
    ensures w.Valid() && fresh(w.Repr - old(w.Repr))
    ensures w.Contents() == old(w.Contents()) + PutPayload(p, [])
  {
    hide BitWriter.Valid, BitWriter.Contents, ToBits, Pow2, PutPayload, PutOptions, Put;
    var mask := 0;
    if p.triage.Some? { mask := mask + 4; }
    if p.relLat.Some? { mask := mask + 2; }
    if p.relLon.Some? { mask := mask + 1; }
    SurvivorAppended(w.Contents(), p, mask);
    w.WriteFitting(mask, PRESENCE_MASK_BITS);
    w.WriteFitting(p.cellIndex, CELL_INDEX_BITS);
    w.WriteFitting(p.personCount, PERSON_COUNT_BITS);
    w.WriteFitting(SurvivorStatusCode(p.survivorStatus), SURVIVOR_STATUS_BITS);
    WriteOptions(w, p);
  }

  method WriteOptions(w: BitWriter, p: SmsPayload)
    requires w.Valid() && p.SurvivorReported? && PayloadFits(p)
    modifies w.Repr
    ensures w.Valid() && fresh(w.Repr - old(w.Repr))
    ensures w.Contents() == old(w.Contents()) + PutOptions(p.triage, p.relLat, p.relLon, [])
  {
    Widths();
    Appended();
    ghost var before := w.Contents();
    if p.triage.Some? {
      w.WriteFitting(TriageCode(p.triage.value), TRIAGE_BITS);
    }
    if p.relLat.Some? {
      var _ := w.WriteSigned(p.relLat.value, REL_COORD_BITS);
    }
    if p.relLon.Some? {
      var _ := w.WriteSigned(p.relLon.value, REL_COORD_BITS);
    }
    assert w.Contents() + [] == before + PutOptions(p.triage, p.relLat, p.relLon, []);
  }

  /** The events in order, refusing the first one whose `seq_delta` does not climb. */
  method WriteEvents(w: BitWriter, events: seq<WireEvent>) returns (r: Result<()>)
    requires w.Valid()
    modifies w.Repr
    ensures w.Valid() && fresh(w.Repr - old(w.Repr))
    ensures r == if ValidEvents(events, -1) then Ok(()) else Err(Encoding)
    ensures r.Ok? ==> forall e :: e in events ==> EventFits(e)
    ensures r.Ok? ==> w.Contents() == old(w.Contents()) + EncodedEvents(events, [])
  {
    hide ValidEvent, EncodedEvent, EventFits;
    ghost var before := w.Contents();
    var lastSeqDelta := -1;
    for i := 0 to |events|
      invariant w.Valid() && fresh(w.Repr - old(w.Repr))
      invariant ValidEvents(events, -1) <==> ValidEvents(events[i..], lastSeqDelta)
      invariant forall e :: e in events[..i] ==> EventFits(e)
      invariant w.Contents() == before + EncodedEvents(events[..i], [])
    {
      var e := events[i];
      assert events[i..][0] == e && events[i..][1..] == events[i + 1..];
      if e.seqDelta <= lastSeqDelta {
        return Err(Encoding);
      }
      lastSeqDelta := e.seqDelta;
      ghost var soFar := w.Contents();
      var written := WriteEvent(w, e);
      if written.Err? {
        return written;
      }
      EncodedEventsSnoc(events[..i], e);
      assert events[..i + 1] == events[..i] + [e];
    }
    assert events[..|events|] == events;
    r := Ok(());
  }

  lemma {:induction false} EncodedEventsSnoc(es: seq<WireEvent>, e: WireEvent)
    requires EventFits(e) && forall x :: x in es ==> EventFits(x)
    ensures EncodedEvents(es + [e], []) == EncodedEvents(es, []) + EncodedEvent(e, [])
  {
    hide EncodedEvent, EventFits;
    if es == [] {
      assert EncodedEvents([e][1..], []) == [];
    } else {
      EncodedEventsSnoc(es[1..], e);
      assert (es + [e])[1..] == es[1..] + [e];
      EventThen(es[0], EncodedEvents(es[1..], []), EncodedEvent(e, []));
    }
  }

  /** Header and events: exactly the byte sequence the MAC covers. */
  method EncodePayload(header: BatchHeader, events: seq<WireEvent>) returns (r: Result<seq<Octet>>)
    ensures r.Ok? <==> ValidHeader(header, |events|) && ValidEvents(events, -1)
    ensures r.Ok? ==> HeaderFits(header) && EventsFit(events, -1)
    ensures r.Ok? ==> r.value == Pack(PayloadBits(header, events))
    ensures r.Ok? ==> PayloadLayout(r.value, header, events)
    ensures r.Err? ==> r.error == Encoding
  {
    hide PayloadLayout, HeaderAt, EventsAt, PaddedAfter;
    hide BitWriter.Valid, BitWriter.Contents, EncodedHeader, EncodedEvents, EventsFit, HeaderFits;
    hide ValidEvents, ValidHeader, EventFits, ReservedCell;
    if !ValidHeader(header, |events|) {
      return Err(Encoding);
    }
    ValidHeaderIff(header, |events|);
    ValidEventsIff(events, -1);
    var w := new BitWriter();
    WriteHeader(w, header);
    var _ :- WriteEvents(w, events);
    PayloadAppended(header, events);
    var bytes := w.ToByteArray();
    PayloadIsLaidOut(header, events);
    r := Ok(bytes);
  }

  lemma PayloadAppended(h: BatchHeader, es: seq<WireEvent>)
    requires HeaderFits(h) && EventsFit(es, -1)
    ensures forall e :: e in es ==> EventFits(e)
    ensures PayloadBits(h, es) == [] + EncodedHeader(h, []) + EncodedEvents(es, [])
  {
    hide EncodedHeader, EncodedEvents;
    EventsFitAll(es, -1);
    var events := EncodedEvents(es, []);
    HeaderThen(h, [], events);
    assert [] + events == events;
  }

  /** The complete transport blob. */
  method EncodeBatch(framing: Framing, header: BatchHeader, events: seq<WireEvent>)
      returns (r: Result<seq<Octet>>)
    ensures var b := WireBatch(framing, header, events);
            if |framing.mac| != MAC_BYTES then r == Err(IllegalArgument)
            else if ValidBatch(b) && FitsBudget(events) then r == Ok(Blob(b)) && BatchLayout(r.value, b)
            else r == Err(Encoding)
  {
    hide BatchLayout, FramingAt, HeaderAt, EventsAt, PaddedAfter;
    if |framing.mac| != MAC_BYTES {
      return Err(IllegalArgument);
    }
    if !ValidFraming(framing) {
      return Err(Encoding);
    }
    if !ValidHeader(header, |events|) {
      return Err(Encoding);
    }
    ghost var b := WireBatch(framing, header, events);
    ValidHeaderIff(header, |events|);
    ValidFramingFits(framing);
    var w := new BitWriter();
    WriteFraming(w, framing);
    WriteHeader(w, header);
    var _ :- WriteEvents(w, events);
    ValidBatchFits(b);
    BatchBitsAppended(b);
    var out := w.ToByteArray();
    BatchSizeExact(b);
    if |out| > MAX_BATCH_BYTES {
      return Err(Encoding);
    }
    BatchIsLaidOut(b);
    r := Ok(out);
  }

  lemma BatchBitsAppended(b: WireBatch)
    requires FramingFits(b.framing) && HeaderFits(b.header) && EventsFit(b.events, -1)
    ensures forall e :: e in b.events ==> EventFits(e)
    ensures BatchBits(b) == [] + EncodedFraming(b.framing, []) + EncodedHeader(b.header, []) + EncodedEvents(b.events, [])
  {
    hide EncodedFraming, EncodedHeader, EncodedEvents;
    EventsFitAll(b.events, -1);
    var events := EncodedEvents(b.events, []);
    var payload := PayloadBits(b.header, b.events);
    HeaderThen(b.header, [], events);
    FramingThen(b.framing, [], payload);
    assert [] + events == events && [] + payload == payload;
  }

  method WriteFraming(w: BitWriter, f: Framing)
    requires w.Valid() && FramingFits(f)
    modifies w.Repr
    ensures w.Valid() && fresh(w.Repr - old(w.Repr))
    ensures w.Contents() == old(w.Contents()) + EncodedFraming(f, [])
  {
    Widths();
    Appended();
    ghost var before := w.Contents();
    w.WriteFitting(f.batchId, BATCH_ID_BITS);
    w.WriteFitting(f.partIndex, PART_INDEX_BITS);
    w.WriteFitting(f.partTotal, PART_TOTAL_BITS);
    w.WriteFitting(f.originDeviceId, ORIGIN_DEVICE_ID_BITS);
    ghost var fixed := w.Contents();
    assert fixed + EncodedBytes(f.mac, []) == before + EncodedFraming(f, []);
    for i := 0 to |f.mac|
      invariant w.Valid() && fresh(w.Repr - old(w.Repr))
      invariant w.Contents() + EncodedBytes(f.mac[i..], []) == fixed + EncodedBytes(f.mac, [])
    {
      assert f.mac[i..][0] == f.mac[i] && f.mac[i..][1..] == f.mac[i + 1..];
      w.WriteFitting(f.mac[i], 8);
    }
    assert w.Contents() + [] == w.Contents();
  }

  // ------------------------------------------------------------------ decode

  /** A reading method did what the parse says: same value and rest, or same error. */
  ghost predicate Agrees<T>(r: Result<T>, rest: BitString, p: Parse<T>) {
    match p
    case Got(v, s) => r == Ok(v) && rest == s
    case Bad(e) => r == Err(e)
  }

  /** `readInt` on a field of the wire format. */
  method ReadField(reader: BitReader, bits: nat) returns (r: Result<int>)
    requires reader.Valid() && 1 <= bits <= 31
    modifies reader
    ensures reader.Valid()
    ensures Agrees(r, reader.Remaining(), Take(old(reader.Remaining()), bits))
  {
    r := reader.ReadInt(bits);
  }

  method ReadCell(reader: BitReader) returns (r: Result<int>)
    requires reader.Valid()
    modifies reader
    ensures reader.Valid()
    ensures Agrees(r, reader.Remaining(), TakeCell(old(reader.Remaining())))
  {
    var v :- ReadField(reader, CELL_INDEX_BITS);
    if v > MAX_CELL_INDEX {
      return Err(Decoding);
    }
    r := Ok(v);
  }

  method ReadTriage(reader: BitReader, present: bool) returns (r: Result<Option<Triage>>)
    requires reader.Valid()
    modifies reader
    ensures reader.Valid()
    ensures Agrees(r, reader.Remaining(), TakeTriage(present, old(reader.Remaining())))
  {
    if !present {
      return Ok(None);
    }
    var c :- ReadField(reader, TRIAGE_BITS);
    var t :- TriageOf(c);
    r := Ok(Some(t));
  }

  method ReadCoord(reader: BitReader, present: bool) returns (r: Result<Option<int>>)
    requires reader.Valid()
    modifies reader
    ensures reader.Valid()
    ensures Agrees(r, reader.Remaining(), TakeCoord(present, old(reader.Remaining())))
  {
    if !present {
      return Ok(None);
    }
    var v :- reader.ReadSigned(REL_COORD_BITS);
    r := Ok(Some(v));
  }

  method ReadSurvivor(reader: BitReader, mask: int) returns (r: Result<SmsPayload>)
    requires reader.Valid()
    modifies reader
    ensures reader.Valid()
    ensures Agrees(r, reader.Remaining(), ParseSurvivor(mask, old(reader.Remaining())))
  {
    hide TakeCell, TakeTriage, TakeCoord, BitReader.Remaining, FromBits, Pow2, SurvivorStatusOf;
    var cellIndex :- ReadCell(reader);
    var personCount :- ReadField(reader, PERSON_COUNT_BITS);
    var c :- ReadField(reader, SURVIVOR_STATUS_BITS);
    var survivorStatus :- SurvivorStatusOf(c);
    var triage :- ReadTriage(reader, mask / 4 % 2 == 1);
    var relLat :- ReadCoord(reader, mask / 2 % 2 == 1);
    var relLon :- ReadCoord(reader, mask % 2 == 1);
    r := Ok(SurvivorReported(cellIndex, personCount, survivorStatus, triage, relLat, relLon));
  }

  method ReadPayload(reader: BitReader, code: int) returns (r: Result<SmsPayload>)
    requires reader.Valid()
    modifies reader
    ensures reader.Valid()
    ensures Agrees(r, reader.Remaining(), ParsePayload(code, old(reader.Remaining())))
  {
    hide TakeCell, ParseSurvivor, BitReader.Remaining, FromBits, Pow2, CellStatusOf, TeamStatusOf, SignExtend;
    if code == 7 {
      var cellIndex :- ReadCell(reader);
      var c :- ReadField(reader, STATUS_BITS);
      var status :- CellStatusOf(c);
      r := Ok(CellStatusReported(cellIndex, status));
    } else if code == 9 {
      var itemId :- ReadField(reader, ITEM_ID_BITS);
      var qtyDelta :- reader.ReadSigned(QTY_DELTA_BITS);
      r := Ok(ResourceDeltaReported(itemId, qtyDelta));
    } else if code == 11 {
      var c :- ReadField(reader, TEAM_STATUS_BITS);
      var status :- TeamStatusOf(c);
      r := Ok(TeamStatusReported(status));
    } else if code == 8 {
      var mask :- ReadField(reader, PRESENCE_MASK_BITS);
      r := ReadSurvivor(reader, mask);
    } else {
      r := Err(Decoding);
    }
  }

  method ReadEvent(reader: BitReader) returns (r: Result<WireEvent>)
    requires reader.Valid()
    modifies reader
    ensures reader.Valid()
    ensures Agrees(r, reader.Remaining(), ParseEvent(old(reader.Remaining())))
  {
    hide ParsePayload, BitReader.Remaining, FromBits, Pow2;
    var code :- ReadField(reader, EVT_TYPE_BITS);
    var seqDelta :- ReadField(reader, SEQ_DELTA_BITS);
    var tDelta :- ReadField(reader, T_DELTA_BITS);
    var payload :- ReadPayload(reader, code);
    var responderId :- ReadField(reader, RESPONDER_ID_BITS);
    r := Ok(WireEvent(seqDelta, tDelta, responderId, payload));
  }

  method ReadHeader(reader: BitReader) returns (r: Result<BatchHeader>)
    requires reader.Valid()
    modifies reader
    ensures reader.Valid()
    ensures Agrees(r, reader.Remaining(), ParseHeader(old(reader.Remaining())))
  {
    hide BitReader.Remaining, BitReader.Valid, Pow2, FromBits;
    var proto :- ReadField(reader, PROTO_VERSION_BITS);
    var device :- ReadField(reader, DEVICE_ID_BITS);
    var team :- ReadField(reader, TEAM_ID_BITS);
    var agency :- ReadField(reader, AGENCY_ID_BITS);
    var incident :- ReadField(reader, INCIDENT_ID_BITS);
    var schema :- ReadField(reader, SCHEMA_VERSION_BITS);
    var baseSeq :- reader.Read(BASE_SEQ_BITS);
    var baseT :- reader.Read(BASE_T_BITS);
    var count :- ReadField(reader, EVENT_COUNT_BITS);
    if proto != PROTO_VERSION {
      return Err(Decoding);
    }
    if count == 0 {
      return Err(Decoding);
    }
    r := Ok(BatchHeader(proto, device, team, agency, incident, schema, baseSeq, baseT, count));
  }

  /** What is left of a parse after the first events have been read. */
  ghost function Resumed(p: Parse<seq<WireEvent>>, done: seq<WireEvent>): Parse<seq<WireEvent>> {
    match p case Got(es, s) => Got(done + es, s) case Bad(e) => Bad(e)
  }

  method ReadEvents(reader: BitReader, count: nat) returns (r: Result<seq<WireEvent>>)
    requires reader.Valid()
    modifies reader
    ensures reader.Valid()
    ensures Agrees(r, reader.Remaining(), ParseEvents(old(reader.Remaining()), count, -1))
  {
    hide ParseEvent, BitReader.Remaining;
    ghost var all := ParseEvents(reader.Remaining(), count, -1);
    var events := [];
    var lastSeqDelta := -1;
    if all.Got? {
      assert [] + all.value == all.value;
    }
    for i := 0 to count
      invariant reader.Valid()
      invariant all == Resumed(ParseEvents(reader.Remaining(), count - i, lastSeqDelta), events)
    {
      var e :- ReadEvent(reader);
      if e.seqDelta <= lastSeqDelta {
        return Err(Decoding);
      }
      lastSeqDelta := e.seqDelta;
      ghost var done, next := events, ParseEvents(reader.Remaining(), count - i - 1, e.seqDelta);
      if next.Got? {
        assert done + ([e] + next.value) == done + [e] + next.value;
      }
      events := events + [e];
    }
    assert events + [] == events;
    r := Ok(events);
  }

  /** Header, events and the padding check, from the reader's position on. */
  method ReadPayloadBits(reader: BitReader) returns (r: Result<(BatchHeader, seq<WireEvent>)>)
    requires reader.Valid()
    modifies reader
    ensures r == ParsePayloadBits(old(reader.Remaining()))
  {
    hide ParseHeader, ParseEvents, BitReader.Remaining, IsPadding;
    var header :- ReadHeader(reader);
    var count := if header.eventCount > 0 then header.eventCount else 0;
    var events :- ReadEvents(reader, count);
    var _ :- reader.RequireOnlyZeroPaddingLeft();
    r := Ok((header, events));
  }

  method DecodePayload(bytes: seq<Octet>) returns (r: Result<(BatchHeader, seq<WireEvent>)>)
    ensures r == DecodedPayload(bytes)
  {
    var reader := new BitReader(bytes);
    r := ReadPayloadBits(reader);
  }

  method ReadFraming(reader: BitReader) returns (r: Result<Framing>)
    requires reader.Valid()
    modifies reader
    ensures reader.Valid()
    ensures Agrees(r, reader.Remaining(), ParseFraming(old(reader.Remaining())))
  {
    hide BitReader.Remaining, FromBits, Pow2, ValidFraming, ParseBytes;
    var batchId :- ReadField(reader, BATCH_ID_BITS);
    var partIndex :- ReadField(reader, PART_INDEX_BITS);
    var partTotal :- ReadField(reader, PART_TOTAL_BITS);
    var originDeviceId :- ReadField(reader, ORIGIN_DEVICE_ID_BITS);
    var mac :- ReadBytes(reader, MAC_BYTES);
    var framing := Framing(batchId, partIndex, partTotal, originDeviceId, mac);
    if !ValidFraming(framing) {
      return Err(Encoding);
    }
    r := Ok(framing);
  }

  method ReadBytes(reader: BitReader, count: nat) returns (r: Result<seq<Octet>>)
    requires reader.Valid()
    modifies reader
    ensures reader.Valid()
    ensures Agrees(r, reader.Remaining(), ParseBytes(old(reader.Remaining()), count))
  {
    hide BitReader.Remaining, FromBits;
    ghost var all := ParseBytes(reader.Remaining(), count);
    var bytes: seq<Octet> := [];
    if all.Got? {
      assert [] + all.value == all.value;
    }
    for i := 0 to count
      invariant reader.Valid()
      invariant var rest := ParseBytes(reader.Remaining(), count - i);
                all == if rest.Got? then Got(bytes + rest.value, rest.rest) else rest
    {
      Widths();
      var b :- ReadField(reader, 8);
      ghost var done, next := bytes, ParseBytes(reader.Remaining(), count - i - 1);
      if next.Got? {
        assert done + ([b] + next.value) == done + [b] + next.value;
      }
      bytes := bytes + [b];
    }
    assert bytes + [] == bytes;
    r := Ok(bytes);
  }

  /** The exact inverse of `EncodeBatch`, by `WireParse.DecodesIffEncodes`. */
  method DecodeBatch(bytes: seq<Octet>) returns (r: Result<WireBatch>)
    ensures r == DecodedBatch(bytes)
  {
    if |bytes| > MAX_BATCH_BYTES {
      return Err(Decoding);
    }
    hide ParseFraming, ParsePayloadBits;
    var reader := new BitReader(bytes);
    var framing :- ReadFraming(reader);
    var payload :- ReadPayloadBits(reader);
    r := Ok(WireBatch(framing, payload.0, payload.1));
  }
}
