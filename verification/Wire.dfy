/**
 The SMS wire format: widths and bounds, the batch model, the bit layout, and the
 reading of a bit string back into a batch.
 */
module Wire {
  import opened BitStrings
  import opened Results
  import opened Domain
  import opened BitIo

  // ---------------------------------------------------------------- limits

  const BATCH_ID_BITS := 16
  const PART_INDEX_BITS := 4
  const PART_TOTAL_BITS := 4
  const ORIGIN_DEVICE_ID_BITS := 12
  const MAC_BYTES := 4

  const PROTO_VERSION_BITS := 4
  const DEVICE_ID_BITS := 12
  const TEAM_ID_BITS := 8
  const AGENCY_ID_BITS := 4
  const INCIDENT_ID_BITS := 12
  const SCHEMA_VERSION_BITS := 4
  const BASE_SEQ_BITS := 20
  const BASE_T_BITS := 20
  const EVENT_COUNT_BITS := 5

  const EVT_TYPE_BITS := 4
  const SEQ_DELTA_BITS := 6
  const T_DELTA_BITS := 12
  const EVENT_PREFIX_BITS := EVT_TYPE_BITS + SEQ_DELTA_BITS + T_DELTA_BITS

  const CELL_INDEX_BITS := 13
  const STATUS_BITS := 3
  const RESPONDER_ID_BITS := 10
  const PERSON_COUNT_BITS := 6
  const SURVIVOR_STATUS_BITS := 3
  const TRIAGE_BITS := 3
  const TEAM_STATUS_BITS := 3
  const ITEM_ID_BITS := 8
  const QTY_DELTA_BITS := 8
  const REL_COORD_BITS := 16
  const PRESENCE_MASK_BITS := 3

  const MAX_BATCH_BYTES := 120
  const FIXED_OVERHEAD_BITS := 157

  const MAX_PERSON_COUNT := 63
  const MAX_ITEM_ID := 255
  const MIN_QTY_DELTA := -128
  const MAX_QTY_DELTA := 127
  const MIN_REL_COORD := -32768
  const MAX_REL_COORD := 32767
  const MAX_SEQ_DELTA := 63
  const MAX_T_DELTA := 4095
  const MAX_BASE_T := 1_048_575
  const MAX_EVENT_COUNT := 31
  const MAX_INCIDENT_ID := 4095
  const MAX_SCHEMA_VERSION := 15
  const MAX_PROTO_VERSION := 15
  const MAX_BATCH_ID := 65535
  const MAX_PART := 15
  const PROTO_VERSION := 1

  lemma Widths()
    ensures Pow2(2) == 4 && Pow2(3) == 8 && Pow2(4) == 16 && Pow2(5) == 32 && Pow2(6) == 64
    ensures Pow2(7) == 128 && Pow2(8) == 256 && Pow2(10) == 1024 && Pow2(12) == 4096
    ensures Pow2(13) == 8192 && Pow2(15) == 32768 && Pow2(16) == 65536 && Pow2(20) == 1_048_576
  {
    assert Pow2(5) == 32;
    assert Pow2(10) == 1024;
    assert Pow2(15) == 32768;
  }

  // ----------------------------------------------------------------- model

  datatype BatchHeader = BatchHeader(protoVersion: int, deviceId: int, teamId: int, agencyId: int,
                                     incidentId: int, schemaVersion: int, baseSeq: int, baseT: int,
                                     eventCount: int)

  datatype Framing = Framing(batchId: int, partIndex: int, partTotal: int, originDeviceId: int,
                             mac: seq<Octet>)

  datatype WireEvent = WireEvent(seqDelta: int, tDelta: int, responderId: int, payload: SmsPayload)

  datatype WireBatch = WireBatch(framing: Framing, header: BatchHeader, events: seq<WireEvent>)

  function CellStatusCode(s: CellStatus): int {
    match s case InProgress => 0 case Searched => 1 case NeedsResearch => 2
  }

  function CellStatusOf(c: int): Result<CellStatus> {
    if c == 0 then Ok(InProgress) else if c == 1 then Ok(Searched)
    else if c == 2 then Ok(NeedsResearch) else Err(Decoding)
  }

  function SurvivorStatusCode(s: SurvivorStatus): int {
    match s case Trapped => 0 case Accessible => 1 case Extricated => 2 case Deceased => 3
  }

  function SurvivorStatusOf(c: int): Result<SurvivorStatus> {
    if c == 0 then Ok(Trapped) else if c == 1 then Ok(Accessible)
    else if c == 2 then Ok(Extricated) else if c == 3 then Ok(Deceased) else Err(Decoding)
  }

  function TriageCode(t: Triage): int {
    match t case Red => 0 case Yellow => 1 case Green => 2 case Black => 3
  }

  function TriageOf(c: int): Result<Triage> {
    if c == 0 then Ok(Red) else if c == 1 then Ok(Yellow)
    else if c == 2 then Ok(Green) else if c == 3 then Ok(Black) else Err(Decoding)
  }

  function TeamStatusCode(s: TeamStatus): int {
    match s case Active => 0 case Standby => 1 case OutOfService => 2
  }

  function TeamStatusOf(c: int): Result<TeamStatus> {
    if c == 0 then Ok(Active) else if c == 1 then Ok(Standby)
    else if c == 2 then Ok(OutOfService) else Err(Decoding)
  }

  /** Presence mask of the optional survivor fields: triage, rel_lat, rel_lon. */
  function PresenceMask(triage: bool, relLat: bool, relLon: bool): (mask: int)
    ensures 0 <= mask < 8
  {
    (if triage then 4 else 0) + (if relLat then 2 else 0) + (if relLon then 1 else 0)
  }

  // ------------------------------------------------- what the fields can hold

  predicate PayloadFits(p: SmsPayload) {
    match p
    case CellStatusReported(cell, _) => Fits(cell, CELL_INDEX_BITS)
    case ResourceDeltaReported(item, qty) => Fits(item, ITEM_ID_BITS) && FitsSigned(qty, QTY_DELTA_BITS)
    case TeamStatusReported(_) => true
    case SurvivorReported(cell, persons, _, _, relLat, relLon) =>
      && Fits(cell, CELL_INDEX_BITS) && Fits(persons, PERSON_COUNT_BITS)
      && (relLat.Some? ==> FitsSigned(relLat.value, REL_COORD_BITS))
      && (relLon.Some? ==> FitsSigned(relLon.value, REL_COORD_BITS))
  }

  predicate EventFits(e: WireEvent) {
    && Fits(e.seqDelta, SEQ_DELTA_BITS) && Fits(e.tDelta, T_DELTA_BITS)
    && Fits(e.responderId, RESPONDER_ID_BITS) && PayloadFits(e.payload)
  }

  predicate HeaderFits(h: BatchHeader) {
    && Fits(h.protoVersion, PROTO_VERSION_BITS) && Fits(h.deviceId, DEVICE_ID_BITS)
    && Fits(h.teamId, TEAM_ID_BITS) && Fits(h.agencyId, AGENCY_ID_BITS)
    && Fits(h.incidentId, INCIDENT_ID_BITS) && Fits(h.schemaVersion, SCHEMA_VERSION_BITS)
    && Fits(h.baseSeq, BASE_SEQ_BITS) && Fits(h.baseT, BASE_T_BITS)
    && Fits(h.eventCount, EVENT_COUNT_BITS)
  }

  predicate FramingFits(f: Framing) {
    && Fits(f.batchId, BATCH_ID_BITS) && Fits(f.partIndex, PART_INDEX_BITS)
    && Fits(f.partTotal, PART_TOTAL_BITS) && Fits(f.originDeviceId, ORIGIN_DEVICE_ID_BITS)
    && |f.mac| == MAC_BYTES
  }

  /** Every event fits and `seq_delta` climbs strictly from above `last`. */
  predicate EventsFit(es: seq<WireEvent>, last: int) {
    es != [] ==>
      && EventFits(es[0]) && last < es[0].seqDelta
      && EventsFit(es[1..], es[0].seqDelta)
  }

  // ------------------------------------------------------------ the layout

  function PutSigned(v: int, w: nat, rest: BitString): BitString
    requires w > 0 && FitsSigned(v, w)
  {
    Put(Complement(v, w), w, rest)
  }

  function PutTriage(t: Option<Triage>, rest: BitString): BitString {
    Widths();
    if t.Some? then Put(TriageCode(t.value), TRIAGE_BITS, rest) else rest
  }

  function PutCoord(c: Option<int>, rest: BitString): BitString
    requires c.Some? ==> FitsSigned(c.value, REL_COORD_BITS)
  {
    if c.Some? then PutSigned(c.value, REL_COORD_BITS, rest) else rest
  }

  /** The optional fields that are present, in mask order, in front of `tail`. */
  function PutOptions(triage: Option<Triage>, relLat: Option<int>, relLon: Option<int>,
                      tail: BitString): BitString
    requires relLat.Some? ==> FitsSigned(relLat.value, REL_COORD_BITS)
    requires relLon.Some? ==> FitsSigned(relLon.value, REL_COORD_BITS)
  {
    PutTriage(triage, PutCoord(relLat, PutCoord(relLon, tail)))
  }

  /** The bits of a survivor report after its presence mask, in front of `tail`. */
  function PutSurvivor(p: SmsPayload, tail: BitString): BitString
    requires p.SurvivorReported? && PayloadFits(p)
  {
    Widths();
    Put(p.cellIndex, CELL_INDEX_BITS,
        Put(p.personCount, PERSON_COUNT_BITS,
            Put(SurvivorStatusCode(p.survivorStatus), SURVIVOR_STATUS_BITS,
                PutOptions(p.triage, p.relLat, p.relLon, tail))))
  }

  /** The bits of a payload, in front of `tail`. */
  function PutPayload(p: SmsPayload, tail: BitString): BitString
    requires PayloadFits(p)
  {
    Widths();
    match p
    case CellStatusReported(cell, status) =>
      Put(cell, CELL_INDEX_BITS, Put(CellStatusCode(status), STATUS_BITS, tail))
    case ResourceDeltaReported(item, qty) =>
      Put(item, ITEM_ID_BITS, PutSigned(qty, QTY_DELTA_BITS, tail))
    case TeamStatusReported(status) =>
      Put(TeamStatusCode(status), TEAM_STATUS_BITS, tail)
    case SurvivorReported(_, _, _, _, _, _) =>
      Put(PresenceMask(p.triage.Some?, p.relLat.Some?, p.relLon.Some?), PRESENCE_MASK_BITS,
          PutSurvivor(p, tail))
  }

  /** The bits of one event, in front of `rest`. */
  function EncodedEvent(e: WireEvent, rest: BitString): BitString
    requires EventFits(e)
  {
    Widths();
    Put(e.payload.TypeCode(), EVT_TYPE_BITS,
        Put(e.seqDelta, SEQ_DELTA_BITS,
            Put(e.tDelta, T_DELTA_BITS,
                PutPayload(e.payload, Put(e.responderId, RESPONDER_ID_BITS, rest)))))
  }

  function EncodedEvents(es: seq<WireEvent>, rest: BitString): BitString
    requires forall e :: e in es ==> EventFits(e)
  {
    if es == [] then rest else EncodedEvent(es[0], EncodedEvents(es[1..], rest))
  }

  function EncodedHeader(h: BatchHeader, rest: BitString): BitString
    requires HeaderFits(h)
  {
    Put(h.protoVersion, PROTO_VERSION_BITS,
        Put(h.deviceId, DEVICE_ID_BITS,
            Put(h.teamId, TEAM_ID_BITS,
                Put(h.agencyId, AGENCY_ID_BITS,
                    Put(h.incidentId, INCIDENT_ID_BITS,
                        Put(h.schemaVersion, SCHEMA_VERSION_BITS,
                            Put(h.baseSeq, BASE_SEQ_BITS,
                                Put(h.baseT, BASE_T_BITS,
                                    Put(h.eventCount, EVENT_COUNT_BITS, rest)))))))))
  }

  function EncodedBytes(bytes: seq<Octet>, rest: BitString): BitString {
    Widths();
    if bytes == [] then rest else Put(bytes[0], 8, EncodedBytes(bytes[1..], rest))
  }

  function EncodedFraming(f: Framing, rest: BitString): BitString
    requires FramingFits(f)
  {
    Put(f.batchId, BATCH_ID_BITS,
        Put(f.partIndex, PART_INDEX_BITS,
            Put(f.partTotal, PART_TOTAL_BITS,
                Put(f.originDeviceId, ORIGIN_DEVICE_ID_BITS, EncodedBytes(f.mac, rest)))))
  }

  lemma {:induction false} EventsFitAll(es: seq<WireEvent>, last: int)
    requires EventsFit(es, last)
    ensures forall e :: e in es ==> EventFits(e)
  {
    if es == [] {
    } else {
      EventsFitAll(es[1..], es[0].seqDelta);
    }
  }

  // ------------------------------------------- what follows an encoding stays put

  lemma PutThenAll()
    ensures forall v: int, w: nat, rest: BitString, pad: BitString {:trigger Put(v, w, rest) + pad} ::
              Fits(v, w) ==> Put(v, w, rest) + pad == Put(v, w, rest + pad)
  {
  }

  lemma OptionsThen(triage: Option<Triage>, relLat: Option<int>, relLon: Option<int>,
                    tail: BitString, pad: BitString)
    requires relLat.Some? ==> FitsSigned(relLat.value, REL_COORD_BITS)
    requires relLon.Some? ==> FitsSigned(relLon.value, REL_COORD_BITS)
    ensures PutOptions(triage, relLat, relLon, tail) + pad == PutOptions(triage, relLat, relLon, tail + pad)
  {
    Widths();
    PutThenAll();
  }

  lemma PayloadThen(p: SmsPayload, tail: BitString, pad: BitString)
    requires PayloadFits(p)
    ensures PutPayload(p, tail) + pad == PutPayload(p, tail + pad)
  {
    hide PutSurvivor;
    Widths();
    PutThenAll();
    if p.SurvivorReported? {
      SurvivorThen(p, tail, pad);
    }
  }

  lemma SurvivorThen(p: SmsPayload, tail: BitString, pad: BitString)
    requires p.SurvivorReported? && PayloadFits(p)
    ensures PutSurvivor(p, tail) + pad == PutSurvivor(p, tail + pad)
  {
    hide PutOptions;
    Widths();
    PutThenAll();
    OptionsThen(p.triage, p.relLat, p.relLon, tail, pad);
  }

  lemma EventThen(e: WireEvent, rest: BitString, pad: BitString)
    requires EventFits(e)
    ensures EncodedEvent(e, rest) + pad == EncodedEvent(e, rest + pad)
  {
    Widths();
    PutThenAll();
    PayloadThen(e.payload, Put(e.responderId, RESPONDER_ID_BITS, rest), pad);
    hide PutPayload;
  }

  lemma {:induction false} EventsThen(es: seq<WireEvent>, rest: BitString, pad: BitString)
    requires forall e :: e in es ==> EventFits(e)
    ensures EncodedEvents(es, rest) + pad == EncodedEvents(es, rest + pad)
  {
    hide EncodedEvent, EventFits;
    if es == [] {
    } else {
      EventsThen(es[1..], rest, pad);
      EventThen(es[0], EncodedEvents(es[1..], rest), pad);
    }
  }

  lemma HeaderThen(h: BatchHeader, rest: BitString, pad: BitString)
    requires HeaderFits(h)
    ensures EncodedHeader(h, rest) + pad == EncodedHeader(h, rest + pad)
  {
    PutThenAll();
  }

  lemma {:induction false} BytesThen(bytes: seq<Octet>, rest: BitString, pad: BitString)
    ensures EncodedBytes(bytes, rest) + pad == EncodedBytes(bytes, rest + pad)
  {
    if bytes == [] {
    } else {
      Widths();
      BytesThen(bytes[1..], rest, pad);
      PutThenAll();
    }
  }

  lemma FramingThen(f: Framing, rest: BitString, pad: BitString)
    requires FramingFits(f)
    ensures EncodedFraming(f, rest) + pad == EncodedFraming(f, rest + pad)
  {
    PutThenAll();
    BytesThen(f.mac, rest, pad);
  }

  /** Header and events: the byte sequence the MAC covers. */
  function PayloadBits(h: BatchHeader, es: seq<WireEvent>): BitString
    requires HeaderFits(h) && EventsFit(es, -1)
  {
    EventsFitAll(es, -1);
    EncodedHeader(h, EncodedEvents(es, []))
  }

  function BatchBits(b: WireBatch): BitString
    requires FramingFits(b.framing) && HeaderFits(b.header) && EventsFit(b.events, -1)
  {
    EncodedFraming(b.framing, PayloadBits(b.header, b.events))
  }

  // ----------------------------------------------------- the phone's validators

  predicate ValidFraming(f: Framing) {
    && 0 <= f.batchId <= MAX_BATCH_ID
    && 1 <= f.partIndex <= MAX_PART && 1 <= f.partTotal <= MAX_PART
    && f.partTotal == 1 && f.partIndex == 1
    && 0 <= f.originDeviceId <= MAX_DEVICE_ID
  }

  predicate ValidHeader(h: BatchHeader, actualCount: nat) {
    && 0 <= h.protoVersion <= MAX_PROTO_VERSION && 0 <= h.deviceId <= MAX_DEVICE_ID
    && 0 <= h.teamId <= MAX_TEAM_ID && 0 <= h.agencyId <= MAX_AGENCY_ID
    && 0 <= h.incidentId <= MAX_INCIDENT_ID && 0 <= h.schemaVersion <= MAX_SCHEMA_VERSION
    && 0 <= h.baseSeq <= MAX_SEQ && 0 <= h.baseT <= MAX_BASE_T
    && 1 <= h.eventCount <= MAX_EVENT_COUNT && h.eventCount == actualCount
  }

  predicate ValidEvent(e: WireEvent) {
    && 0 <= e.seqDelta <= MAX_SEQ_DELTA && 0 <= e.tDelta <= MAX_T_DELTA
    && 0 <= e.responderId <= MAX_RESPONDER_ID
    && match e.payload
       case CellStatusReported(cell, _) => 0 <= cell <= MAX_CELL_INDEX
       case ResourceDeltaReported(item, qty) =>
         0 <= item <= MAX_ITEM_ID && MIN_QTY_DELTA <= qty <= MAX_QTY_DELTA
       case TeamStatusReported(_) => true
       case SurvivorReported(cell, persons, _, _, relLat, relLon) =>
         && 0 <= cell <= MAX_CELL_INDEX && 0 <= persons <= MAX_PERSON_COUNT
         && (relLat.Some? ==> MIN_REL_COORD <= relLat.value <= MAX_REL_COORD)
         && (relLon.Some? ==> MIN_REL_COORD <= relLon.value <= MAX_REL_COORD)
  }

  predicate ValidEvents(es: seq<WireEvent>, last: int) {
    es != [] ==>
      && ValidEvent(es[0]) && last < es[0].seqDelta
      && ValidEvents(es[1..], es[0].seqDelta)
  }

  /** `cell_index` 8191 fits the field but is never allocated. */
  predicate ReservedCell(p: Payload) {
    (p.CellStatusReported? || p.SurvivorReported?) && p.cellIndex == MAX_CELL_INDEX + 1
  }

  lemma ValidEventIff(e: WireEvent)
    ensures ValidEvent(e) <==> EventFits(e) && !ReservedCell(e.payload)
  {
    Widths();
  }

  lemma {:induction false} ValidEventsIff(es: seq<WireEvent>, last: int)
    ensures ValidEvents(es, last) <==>
            EventsFit(es, last) && forall e :: e in es ==> !ReservedCell(e.payload)
  {
    if es == [] {
    } else {
      ValidEventIff(es[0]);
      ValidEventsIff(es[1..], es[0].seqDelta);
      assert es == [es[0]] + es[1..];
    }
  }

  /** Every bound the phone checks is exactly what the field width can carry. */
  lemma ValidHeaderIff(h: BatchHeader, n: nat)
    ensures ValidHeader(h, n) <==> HeaderFits(h) && h.eventCount >= 1 && h.eventCount == n
  {
    Widths();
  }

  lemma ValidFramingFits(f: Framing)
    requires ValidFraming(f) && |f.mac| == MAC_BYTES
    ensures FramingFits(f)
  {
    Widths();
  }

  predicate ValidBatch(b: WireBatch) {
    && |b.framing.mac| == MAC_BYTES && ValidFraming(b.framing)
    && ValidHeader(b.header, |b.events|) && ValidEvents(b.events, -1)
  }

  lemma ValidBatchFits(b: WireBatch)
    requires ValidBatch(b)
    ensures FramingFits(b.framing) && HeaderFits(b.header) && EventsFit(b.events, -1)
  {
    ValidFramingFits(b.framing);
    ValidHeaderIff(b.header, |b.events|);
    ValidEventsIff(b.events, -1);
  }

  /** The transport blob of a valid batch: framing, header, events, padding. */
  function Blob(b: WireBatch): seq<Octet>
    requires ValidBatch(b)
  {
    ValidBatchFits(b);
    Pack(BatchBits(b))
  }

  // ------------------------------------------------------------------ sizes

  /** Predicted size of one event, without encoding it. */
  function EventBits(e: WireEvent): nat {
    EVENT_PREFIX_BITS +
    match e.payload
    case CellStatusReported(_, _) => CELL_INDEX_BITS + STATUS_BITS + RESPONDER_ID_BITS
    case ResourceDeltaReported(_, _) => ITEM_ID_BITS + QTY_DELTA_BITS + RESPONDER_ID_BITS
    case TeamStatusReported(_) => TEAM_STATUS_BITS + RESPONDER_ID_BITS
    case SurvivorReported(_, _, _, triage, relLat, relLon) =>
      PRESENCE_MASK_BITS + CELL_INDEX_BITS + PERSON_COUNT_BITS + SURVIVOR_STATUS_BITS +
      (if triage.Some? then TRIAGE_BITS else 0) +
      (if relLat.Some? then REL_COORD_BITS else 0) +
      (if relLon.Some? then REL_COORD_BITS else 0) +
      RESPONDER_ID_BITS
  }

  function SumEventBits(es: seq<WireEvent>): nat {
    if es == [] then 0 else EventBits(es[0]) + SumEventBits(es[1..])
  }

  function BatchBytes(es: seq<WireEvent>): nat {
    (FIXED_OVERHEAD_BITS + SumEventBits(es) + 7) / 8
  }

  predicate FitsBudget(es: seq<WireEvent>) {
    BatchBytes(es) <= MAX_BATCH_BYTES
  }

  lemma EventSizeExact(e: WireEvent, rest: BitString)
    requires EventFits(e)
    ensures |EncodedEvent(e, rest)| == EventBits(e) + |rest|
  {
  }

  lemma {:induction false} EventsSizeExact(es: seq<WireEvent>, rest: BitString)
    requires forall e :: e in es ==> EventFits(e)
    ensures |EncodedEvents(es, rest)| == SumEventBits(es) + |rest|
  {
    if es == [] {
    } else {
      EventsSizeExact(es[1..], rest);
      EventSizeExact(es[0], EncodedEvents(es[1..], rest));
    }
  }

  lemma BytesSizeExact(bytes: seq<Octet>, rest: BitString)
    ensures |EncodedBytes(bytes, rest)| == 8 * |bytes| + |rest|
  {
  }

  /** The predicted size of a batch is its encoded length, byte for byte. */
  lemma BatchSizeExact(b: WireBatch)
    requires ValidBatch(b)
    ensures |Blob(b)| == BatchBytes(b.events)
  {
    ValidBatchFits(b);
    EventsFitAll(b.events, -1);
    EventsSizeExact(b.events, []);
    BytesSizeExact(b.framing.mac, PayloadBits(b.header, b.events));
  }
}
