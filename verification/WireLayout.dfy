/**
 The wire format bit by bit, as the format's own tables print it: which slice of an encoded
 batch holds which field, in numbers alone.  Both codecs are proved to produce it.
 */
module WireLayout {
  import opened BitStrings
  import opened Results
  import opened Domain
  import opened BitIo
  import opened Wire
  import opened WireParse

  // --------------------------------------------------------------- the tables

  /** The nine header fields, 89 bits from offset `o`. */
  ghost predicate HeaderAt(s: BitString, o: nat, h: BatchHeader) {
    && o + 89 <= |s|
    && FromBits(s[o..o + 4]) == h.protoVersion
    && FromBits(s[o + 4..o + 16]) == h.deviceId
    && FromBits(s[o + 16..o + 24]) == h.teamId
    && FromBits(s[o + 24..o + 28]) == h.agencyId
    && FromBits(s[o + 28..o + 40]) == h.incidentId
    && FromBits(s[o + 40..o + 44]) == h.schemaVersion
    && FromBits(s[o + 44..o + 64]) == h.baseSeq
    && FromBits(s[o + 64..o + 84]) == h.baseT
    && FromBits(s[o + 84..o + 89]) == h.eventCount
  }

  /** The framing, the first 68 bits: four numbers and the four bytes of the MAC. */
  ghost predicate FramingAt(s: BitString, f: Framing) {
    && 68 <= |s| && |f.mac| == 4
    && FromBits(s[0..16]) == f.batchId
    && FromBits(s[16..20]) == f.partIndex
    && FromBits(s[20..24]) == f.partTotal
    && FromBits(s[24..36]) == f.originDeviceId
    && FromBits(s[36..44]) == f.mac[0] && FromBits(s[44..52]) == f.mac[1]
    && FromBits(s[52..60]) == f.mac[2] && FromBits(s[60..68]) == f.mac[3]
  }

  /** Bits of one event on the wire. */
  function Length(p: SmsPayload): nat {
    match p
    case CellStatusReported(_, _) => 48
    case ResourceDeltaReported(_, _) => 48
    case TeamStatusReported(_) => 35
    case SurvivorReported(_, _, _, triage, lat, lon) =>
      57 + (if triage.Some? then 3 else 0) + (if lat.Some? then 16 else 0) + (if lon.Some? then 16 else 0)
  }

  function Raw8(v: int): int {
    if v < 0 then v + 256 else v
  }

  function Raw16(v: int): int {
    if v < 0 then v + 65_536 else v
  }

  /** One event from offset `o`: four bits of type, six and twelve of delta, the payload, ten of responder. */
  ghost predicate EventAt(s: BitString, o: nat, e: WireEvent) {
    && o + Length(e.payload) <= |s|
    && FromBits(s[o + 4..o + 10]) == e.seqDelta
    && FromBits(s[o + 10..o + 22]) == e.tDelta
    && FromBits(s[o + Length(e.payload) - 10..o + Length(e.payload)]) == e.responderId
    && PayloadAt(s, o, e.payload)
  }

  /** Type and payload of the event that starts at `o`. */
  ghost predicate PayloadAt(s: BitString, o: nat, p: SmsPayload)
    requires o + Length(p) <= |s|
  {
    match p
    case CellStatusReported(cell, status) =>
      && FromBits(s[o..o + 4]) == 7
      && FromBits(s[o + 22..o + 35]) == cell
      && FromBits(s[o + 35..o + 38]) == (match status case InProgress => 0 case Searched => 1 case NeedsResearch => 2)
    case ResourceDeltaReported(item, qty) =>
      && FromBits(s[o..o + 4]) == 9
      && FromBits(s[o + 22..o + 30]) == item
      && FromBits(s[o + 30..o + 38]) == Raw8(qty)
    case TeamStatusReported(status) =>
      && FromBits(s[o..o + 4]) == 11
      && FromBits(s[o + 22..o + 25]) == (match status case Active => 0 case Standby => 1 case OutOfService => 2)
    case SurvivorReported(cell, persons, status, triage, lat, lon) =>
      && FromBits(s[o..o + 4]) == 8
      && FromBits(s[o + 22..o + 25]) ==
         (if triage.Some? then 4 else 0) + (if lat.Some? then 2 else 0) + (if lon.Some? then 1 else 0)
      && FromBits(s[o + 25..o + 38]) == cell
      && FromBits(s[o + 38..o + 44]) == persons
      && FromBits(s[o + 44..o + 47]) ==
         (match status case Trapped => 0 case Accessible => 1 case Extricated => 2 case Deceased => 3)
      && OptionsAt(s, o + 47, triage, lat, lon)
  }

  /** The optional fields of a survivor report that are present, one behind the other. */
  ghost predicate OptionsAt(s: BitString, o: nat, triage: Option<Triage>, lat: Option<int>, lon: Option<int>) {
    var a := o + if triage.Some? then 3 else 0;
    var b := a + if lat.Some? then 16 else 0;
    var c := b + if lon.Some? then 16 else 0;
    && c <= |s|
    && (triage.Some? ==> FromBits(s[o..o + 3]) == (match triage.value case Red => 0 case Yellow => 1 case Green => 2 case Black => 3))
    && (lat.Some? ==> FromBits(s[a..a + 16]) == Raw16(lat.value))
    && (lon.Some? ==> FromBits(s[b..b + 16]) == Raw16(lon.value))
  }

  /** The events one behind the other. */
  ghost predicate EventsAt(s: BitString, o: nat, es: seq<WireEvent>)
    decreases es
  {
    es != [] ==> EventAt(s, o, es[0]) && EventsAt(s, o + Length(es[0].payload), es[1..])
  }

  function TotalLength(es: seq<WireEvent>): nat {
    if es == [] then 0 else Length(es[0].payload) + TotalLength(es[1..])
  }

  /** Whole bytes: the message, and zero bits to the next byte boundary. */
  ghost predicate PaddedAfter(s: BitString, bits: nat) {
    bits <= |s| < bits + 8 && |s| % 8 == 0 && forall i :: bits <= i < |s| ==> !s[i]
  }

  /** Header and events: what the MAC covers. */
  ghost predicate PayloadLayout(bytes: seq<Octet>, h: BatchHeader, es: seq<WireEvent>) {
    var s := Unpack(bytes);
    HeaderAt(s, 0, h) && EventsAt(s, 89, es) && PaddedAfter(s, 89 + TotalLength(es))
  }

  /** The whole message. */
  ghost predicate BatchLayout(bytes: seq<Octet>, b: WireBatch) {
    var s := Unpack(bytes);
    && FramingAt(s, b.framing) && HeaderAt(s, 68, b.header) && EventsAt(s, 157, b.events)
    && PaddedAfter(s, 157 + TotalLength(b.events))
  }

  // ------------------------------------------------------------- field by field

  /** A field put at an offset is read back there, and what follows it starts behind it. */
  lemma FieldAt(s: BitString, o: nat, v: int, w: nat, rest: BitString)
    requires o <= |s| && Fits(v, w) && s[o..] == Put(v, w, rest)
    ensures o + w <= |s| && FromBits(s[o..o + w]) == v && s[o + w..] == rest
  {
    TakePut(v, w, rest);
    assert s[o..][..w] == s[o..o + w] && s[o..][w..] == s[o + w..];
    FromBitsToBits(v, w);
    assert Put(v, w, rest)[..w] == ToBits(v, w) && Put(v, w, rest)[w..] == rest;
  }

  lemma SignedFieldAt(s: BitString, o: nat, v: int, w: nat, rest: BitString)
    requires o <= |s| && w > 0 && FitsSigned(v, w) && s[o..] == PutSigned(v, w, rest)
    ensures o + w <= |s| && FromBits(s[o..o + w]) == (if v < 0 then v + Pow2(w) else v) && s[o + w..] == rest
  {
    FieldAt(s, o, Complement(v, w), w, rest);
  }

  lemma TriageAt(s: BitString, o: nat, t: Option<Triage>, rest: BitString)
    requires o <= |s| && s[o..] == PutTriage(t, rest)
    ensures var a := o + if t.Some? then 3 else 0;
            && a <= |s| && s[a..] == rest
            && (t.Some? ==> FromBits(s[o..o + 3]) == (match t.value case Red => 0 case Yellow => 1 case Green => 2 case Black => 3))
  {
    Widths();
    if t.Some? {
      FieldAt(s, o, TriageCode(t.value), TRIAGE_BITS, rest);
    }
  }

  lemma CoordAt(s: BitString, o: nat, c: Option<int>, rest: BitString)
    requires c.Some? ==> FitsSigned(c.value, REL_COORD_BITS)
    requires o <= |s| && s[o..] == PutCoord(c, rest)
    ensures var a := o + if c.Some? then 16 else 0;
            && a <= |s| && s[a..] == rest
            && (c.Some? ==> FromBits(s[o..o + 16]) == Raw16(c.value))
  {
    Widths();
    if c.Some? {
      SignedFieldAt(s, o, c.value, REL_COORD_BITS, rest);
    }
  }

  lemma OptionsLaid(s: BitString, o: nat, triage: Option<Triage>, lat: Option<int>, lon: Option<int>, rest: BitString)
    requires lat.Some? ==> FitsSigned(lat.value, REL_COORD_BITS)
    requires lon.Some? ==> FitsSigned(lon.value, REL_COORD_BITS)
    requires o <= |s| && s[o..] == PutOptions(triage, lat, lon, rest)
    ensures OptionsAt(s, o, triage, lat, lon)
    ensures var c := o + (if triage.Some? then 3 else 0) + (if lat.Some? then 16 else 0) + (if lon.Some? then 16 else 0);
            c <= |s| && s[c..] == rest
  {
    hide PutTriage, PutCoord, Raw16, FromBits;
    TriageAt(s, o, triage, PutCoord(lat, PutCoord(lon, rest)));
    var a := o + if triage.Some? then 3 else 0;
    CoordAt(s, a, lat, PutCoord(lon, rest));
    CoordAt(s, a + if lat.Some? then 16 else 0, lon, rest);
  }

  // -------------------------------------------------------------------- events

  /** The payloads, of an event that starts at `o`. */
  lemma CellStatusLaid(s: BitString, o: nat, p: SmsPayload, tail: BitString)
    requires p.CellStatusReported? && PayloadFits(p) && o + 22 <= |s| && s[o + 22..] == PutPayload(p, tail)
    ensures o + 38 <= |s| && s[o + 38..] == tail
    ensures FromBits(s[o + 22..o + 35]) == p.cellIndex
    ensures FromBits(s[o + 35..o + 38]) == match p.status case InProgress => 0 case Searched => 1 case NeedsResearch => 2
  {
    Widths();
    hide Put, FromBits;
    FieldAt(s, o + 22, p.cellIndex, CELL_INDEX_BITS, Put(CellStatusCode(p.status), STATUS_BITS, tail));
    FieldAt(s, o + 35, CellStatusCode(p.status), STATUS_BITS, tail);
  }

  lemma ResourceDeltaLaid(s: BitString, o: nat, p: SmsPayload, tail: BitString)
    requires p.ResourceDeltaReported? && PayloadFits(p) && o + 22 <= |s| && s[o + 22..] == PutPayload(p, tail)
    ensures o + 38 <= |s| && s[o + 38..] == tail
    ensures FromBits(s[o + 22..o + 30]) == p.itemId && FromBits(s[o + 30..o + 38]) == Raw8(p.qtyDelta)
  {
    Widths();
    hide Put, PutSigned, FromBits;
    FieldAt(s, o + 22, p.itemId, ITEM_ID_BITS, PutSigned(p.qtyDelta, QTY_DELTA_BITS, tail));
    SignedFieldAt(s, o + 30, p.qtyDelta, QTY_DELTA_BITS, tail);
  }

  lemma TeamStatusLaid(s: BitString, o: nat, p: SmsPayload, tail: BitString)
    requires p.TeamStatusReported? && PayloadFits(p) && o + 22 <= |s| && s[o + 22..] == PutPayload(p, tail)
    ensures o + 25 <= |s| && s[o + 25..] == tail
    ensures FromBits(s[o + 22..o + 25]) == match p.teamStatus case Active => 0 case Standby => 1 case OutOfService => 2
  {
    Widths();
    hide Put, FromBits;
    FieldAt(s, o + 22, TeamStatusCode(p.teamStatus), TEAM_STATUS_BITS, tail);
  }

  lemma SurvivorLaid(s: BitString, o: nat, p: SmsPayload, tail: BitString)
    requires p.SurvivorReported? && PayloadFits(p) && o + 22 <= |s| && s[o + 22..] == PutPayload(p, tail)
    ensures var n := o + Length(p) - 10; n <= |s| && s[n..] == tail
    ensures FromBits(s[o + 22..o + 25]) ==
            (if p.triage.Some? then 4 else 0) + (if p.relLat.Some? then 2 else 0) + (if p.relLon.Some? then 1 else 0)
    ensures FromBits(s[o + 25..o + 38]) == p.cellIndex && FromBits(s[o + 38..o + 44]) == p.personCount
    ensures FromBits(s[o + 44..o + 47]) ==
            match p.survivorStatus case Trapped => 0 case Accessible => 1 case Extricated => 2 case Deceased => 3
    ensures OptionsAt(s, o + 47, p.triage, p.relLat, p.relLon)
  {
    Widths();
    hide Put, FromBits, PutOptions, OptionsAt;
    var options := PutOptions(p.triage, p.relLat, p.relLon, tail);
    var status := Put(SurvivorStatusCode(p.survivorStatus), SURVIVOR_STATUS_BITS, options);
    var persons := Put(p.personCount, PERSON_COUNT_BITS, status);
    FieldAt(s, o + 22, PresenceMask(p.triage.Some?, p.relLat.Some?, p.relLon.Some?), PRESENCE_MASK_BITS,
            Put(p.cellIndex, CELL_INDEX_BITS, persons));
    FieldAt(s, o + 25, p.cellIndex, CELL_INDEX_BITS, persons);
    FieldAt(s, o + 38, p.personCount, PERSON_COUNT_BITS, status);
    FieldAt(s, o + 44, SurvivorStatusCode(p.survivorStatus), SURVIVOR_STATUS_BITS, options);
    OptionsLaid(s, o + 47, p.triage, p.relLat, p.relLon, tail);
  }

  /** The type in front of the payload. */
  function TypeNumber(p: SmsPayload): int {
    match p
    case CellStatusReported(_, _) => 7
    case SurvivorReported(_, _, _, _, _, _) => 8
    case ResourceDeltaReported(_, _) => 9
    case TeamStatusReported(_) => 11
  }

  lemma PrefixLaid(s: BitString, o: nat, e: WireEvent, rest: BitString)
    requires EventFits(e) && o <= |s| && s[o..] == EncodedEvent(e, rest)
    ensures o + 22 <= |s| && s[o + 22..] == PutPayload(e.payload, Put(e.responderId, RESPONDER_ID_BITS, rest))
    ensures FromBits(s[o..o + 4]) == TypeNumber(e.payload)
    ensures FromBits(s[o + 4..o + 10]) == e.seqDelta && FromBits(s[o + 10..o + 22]) == e.tDelta
  {
    Widths();
    hide Put, FromBits, PutPayload;
    var payload := PutPayload(e.payload, Put(e.responderId, RESPONDER_ID_BITS, rest));
    var t := Put(e.tDelta, T_DELTA_BITS, payload);
    FieldAt(s, o, e.payload.TypeCode(), EVT_TYPE_BITS, Put(e.seqDelta, SEQ_DELTA_BITS, t));
    FieldAt(s, o + 4, e.seqDelta, SEQ_DELTA_BITS, t);
    FieldAt(s, o + 10, e.tDelta, T_DELTA_BITS, payload);
  }

  lemma PayloadLaid(s: BitString, o: nat, p: SmsPayload, tail: BitString)
    requires PayloadFits(p) && o + 22 <= |s| && s[o + 22..] == PutPayload(p, tail) && |tail| >= 10
    ensures var n := o + Length(p) - 10; n <= |s| && s[n..] == tail
    ensures FromBits(s[o..o + 4]) == TypeNumber(p) ==> o + Length(p) <= |s| && PayloadAt(s, o, p)
  {
    hide PutPayload, FromBits, OptionsAt, Raw8, PayloadFits;
    match p {
      case CellStatusReported(_, _) => CellStatusLaid(s, o, p, tail);
      case ResourceDeltaReported(_, _) => ResourceDeltaLaid(s, o, p, tail);
      case TeamStatusReported(_) => TeamStatusLaid(s, o, p, tail);
      case SurvivorReported(_, _, _, _, _, _) => SurvivorLaid(s, o, p, tail);
    }
  }

  lemma EventLaid(s: BitString, o: nat, e: WireEvent, rest: BitString)
    requires EventFits(e) && o <= |s| && s[o..] == EncodedEvent(e, rest)
    ensures EventAt(s, o, e)
    ensures s[o + Length(e.payload)..] == rest
  {
    PrefixLaid(s, o, e, rest);
    hide EncodedEvent, Put, PutPayload, FromBits, PayloadAt, Length, TypeNumber;
    PayloadLaid(s, o, e.payload, Put(e.responderId, RESPONDER_ID_BITS, rest));
    LengthAtLeast(e.payload);
    FieldAt(s, o + Length(e.payload) - 10, e.responderId, RESPONDER_ID_BITS, rest);
  }

  lemma LengthAtLeast(p: SmsPayload)
    ensures Length(p) >= 35
  {
  }

  lemma {:induction false} EventsLaid(s: BitString, o: nat, es: seq<WireEvent>, rest: BitString)
    requires forall e :: e in es ==> EventFits(e)
    requires o <= |s| && s[o..] == EncodedEvents(es, rest)
    ensures EventsAt(s, o, es)
    ensures o + TotalLength(es) <= |s| && s[o + TotalLength(es)..] == rest
    decreases es
  {
    hide EncodedEvent, EventAt, EventFits, Length;
    if es == [] {
    } else {
      EventLaid(s, o, es[0], EncodedEvents(es[1..], rest));
      EventInside(s, o, es[0]);
      EventsLaid(s, o + Length(es[0].payload), es[1..], rest);
    }
  }

  lemma EventInside(s: BitString, o: nat, e: WireEvent)
    requires EventAt(s, o, e)
    ensures o + Length(e.payload) <= |s|
  {
  }

  lemma HeaderLaid(s: BitString, o: nat, h: BatchHeader, rest: BitString)
    requires HeaderFits(h) && o <= |s| && s[o..] == EncodedHeader(h, rest)
    ensures HeaderAt(s, o, h) && s[o + 89..] == rest
  {
    hide Put, FromBits;
    var count := Put(h.eventCount, EVENT_COUNT_BITS, rest);
    var baseT := Put(h.baseT, BASE_T_BITS, count);
    var baseSeq := Put(h.baseSeq, BASE_SEQ_BITS, baseT);
    var schema := Put(h.schemaVersion, SCHEMA_VERSION_BITS, baseSeq);
    var incident := Put(h.incidentId, INCIDENT_ID_BITS, schema);
    var agency := Put(h.agencyId, AGENCY_ID_BITS, incident);
    var team := Put(h.teamId, TEAM_ID_BITS, agency);
    var device := Put(h.deviceId, DEVICE_ID_BITS, team);
    FieldAt(s, o, h.protoVersion, PROTO_VERSION_BITS, device);
    FieldAt(s, o + 4, h.deviceId, DEVICE_ID_BITS, team);
    FieldAt(s, o + 16, h.teamId, TEAM_ID_BITS, agency);
    FieldAt(s, o + 24, h.agencyId, AGENCY_ID_BITS, incident);
    FieldAt(s, o + 28, h.incidentId, INCIDENT_ID_BITS, schema);
    FieldAt(s, o + 40, h.schemaVersion, SCHEMA_VERSION_BITS, baseSeq);
    FieldAt(s, o + 44, h.baseSeq, BASE_SEQ_BITS, baseT);
    FieldAt(s, o + 64, h.baseT, BASE_T_BITS, count);
    FieldAt(s, o + 84, h.eventCount, EVENT_COUNT_BITS, rest);
  }

  lemma FramingLaid(s: BitString, f: Framing, rest: BitString)
    requires FramingFits(f) && s == EncodedFraming(f, rest)
    ensures FramingAt(s, f) && s[68..] == rest
  {
    Widths();
    hide Put, FromBits, EncodedBytes;
    assert s[0..] == s;
    var mac := EncodedBytes(f.mac, rest);
    var origin := Put(f.originDeviceId, ORIGIN_DEVICE_ID_BITS, mac);
    var total := Put(f.partTotal, PART_TOTAL_BITS, origin);
    FieldAt(s, 0, f.batchId, BATCH_ID_BITS, Put(f.partIndex, PART_INDEX_BITS, total));
    FieldAt(s, 16, f.partIndex, PART_INDEX_BITS, total);
    FieldAt(s, 20, f.partTotal, PART_TOTAL_BITS, origin);
    FieldAt(s, 24, f.originDeviceId, ORIGIN_DEVICE_ID_BITS, mac);
    MacLaid(s, 36, f.mac, rest);
  }

  lemma MacLaid(s: BitString, o: nat, mac: seq<Octet>, rest: BitString)
    requires |mac| == 4 && o <= |s| && s[o..] == EncodedBytes(mac, rest)
    ensures o + 32 <= |s| && s[o + 32..] == rest
    ensures FromBits(s[o..o + 8]) == mac[0] && FromBits(s[o + 8..o + 16]) == mac[1]
    ensures FromBits(s[o + 16..o + 24]) == mac[2] && FromBits(s[o + 24..o + 32]) == mac[3]
  {
    Widths();
    hide Put, FromBits;
    assert mac[1..][0] == mac[1] && mac[1..][1..] == mac[2..] && mac[2..][0] == mac[2];
    assert mac[2..][1..] == mac[3..] && mac[3..][0] == mac[3] && mac[3..][1..] == [];
    FieldAt(s, o, mac[0], 8, EncodedBytes(mac[1..], rest));
    FieldAt(s, o + 8, mac[1], 8, EncodedBytes(mac[2..], rest));
    FieldAt(s, o + 16, mac[2], 8, EncodedBytes(mac[3..], rest));
    FieldAt(s, o + 24, mac[3], 8, EncodedBytes([], rest));
  }

  // ------------------------------------------------------------ whole messages

  lemma HeaderAndEventsLaid(s: BitString, o: nat, h: BatchHeader, es: seq<WireEvent>, pad: BitString)
    requires HeaderFits(h) && forall e :: e in es ==> EventFits(e)
    requires o <= |s| && s[o..] == EncodedHeader(h, EncodedEvents(es, pad))
    ensures HeaderAt(s, o, h) && EventsAt(s, o + 89, es) && |s| == o + 89 + TotalLength(es) + |pad|
  {
    hide EncodedHeader, EncodedEvents, HeaderFits, EventFits, EventsAt, TotalLength;
    HeaderLaid(s, o, h, EncodedEvents(es, pad));
    EventsLaid(s, o + 89, es, pad);
  }

  /** The bytes of a bit string, unpacked again: the bits and less than a byte of padding. */
  lemma Unpacked(bytes: seq<Octet>, bits: BitString) returns (pad: BitString)
    requires bytes == Pack(bits)
    ensures Unpack(bytes) == bits + pad && IsPadding(pad) && |Unpack(bytes)| % 8 == 0
  {
    PackedIsPadded(bits);
    pad := Unpack(bytes)[|bits|..];
  }

  lemma PaddedBits(bits: BitString, pad: BitString, s: BitString, n: nat)
    requires s == bits + pad && IsPadding(pad) && |s| == n + |pad| && |s| % 8 == 0
    ensures PaddedAfter(s, n)
  {
    assert forall i :: n <= i < |s| ==> s[i] == pad[i - n];
  }

  lemma PayloadEncoding(h: BatchHeader, es: seq<WireEvent>, pad: BitString)
    requires HeaderFits(h) && EventsFit(es, -1) && forall e :: e in es ==> EventFits(e)
    ensures PayloadBits(h, es) + pad == EncodedHeader(h, EncodedEvents(es, pad))
  {
    hide EncodedHeader, EncodedEvents, EventsFit, EventFits, HeaderFits;
    HeaderThen(h, EncodedEvents(es, []), pad);
    EventsThen(es, [], pad);
    assert [] + pad == pad;
  }

  lemma AllOf(s: BitString)
    ensures s[0..] == s
  {
  }

  lemma FromStart(s: BitString, h: BatchHeader, es: seq<WireEvent>, pad: BitString)
    requires HeaderFits(h) && forall e :: e in es ==> EventFits(e)
    requires s == EncodedHeader(h, EncodedEvents(es, pad))
    ensures HeaderAt(s, 0, h) && EventsAt(s, 89, es) && |s| == 89 + TotalLength(es) + |pad|
  {
    hide *;
    AllOf(s);
    HeaderAndEventsLaid(s, 0, h, es, pad);
  }

  lemma PayloadBitsLaid(s: BitString, h: BatchHeader, es: seq<WireEvent>, pad: BitString)
    requires HeaderFits(h) && EventsFit(es, -1)
    requires s == PayloadBits(h, es) + pad && IsPadding(pad) && |s| % 8 == 0
    ensures HeaderAt(s, 0, h) && EventsAt(s, 89, es) && PaddedAfter(s, 89 + TotalLength(es))
  {
    hide *;
    EventsFitAll(es, -1);
    PayloadEncoding(h, es, pad);
    FromStart(s, h, es, pad);
    PaddedBits(PayloadBits(h, es), pad, s, 89 + TotalLength(es));
  }

  /** What the MAC covers has exactly the printed layout. */
  lemma PayloadIsLaidOut(h: BatchHeader, es: seq<WireEvent>)
    requires HeaderFits(h) && EventsFit(es, -1)
    ensures PayloadLayout(Pack(PayloadBits(h, es)), h, es)
  {
    hide Pack, PayloadBits, HeaderAt, EventsAt, HeaderFits, EventsFit, TotalLength, IsPadding, PaddedAfter;
    var bytes := Pack(PayloadBits(h, es));
    var pad := Unpacked(bytes, PayloadBits(h, es));
    PayloadBitsLaid(Unpack(bytes), h, es, pad);
  }

  lemma BatchEncoding(b: WireBatch, pad: BitString)
    requires FramingFits(b.framing) && HeaderFits(b.header) && EventsFit(b.events, -1)
    requires forall e :: e in b.events ==> EventFits(e)
    ensures BatchBits(b) + pad == EncodedFraming(b.framing, EncodedHeader(b.header, EncodedEvents(b.events, pad)))
  {
    hide EncodedFraming, EncodedHeader, EncodedEvents, EventsFit, EventFits, FramingFits, HeaderFits;
    FramingThen(b.framing, PayloadBits(b.header, b.events), pad);
    HeaderThen(b.header, EncodedEvents(b.events, []), pad);
    EventsThen(b.events, [], pad);
    assert [] + pad == pad;
  }

  lemma BatchBitsLaid(s: BitString, b: WireBatch, pad: BitString)
    requires FramingFits(b.framing) && HeaderFits(b.header) && EventsFit(b.events, -1)
    requires s == BatchBits(b) + pad && IsPadding(pad) && |s| % 8 == 0
    ensures FramingAt(s, b.framing) && HeaderAt(s, 68, b.header) && EventsAt(s, 157, b.events)
    ensures PaddedAfter(s, 157 + TotalLength(b.events))
  {
    hide *;
    EventsFitAll(b.events, -1);
    BatchEncoding(b, pad);
    FramingLaid(s, b.framing, EncodedHeader(b.header, EncodedEvents(b.events, pad)));
    FramingInside(s, b.framing);
    HeaderAndEventsLaid(s, 68, b.header, b.events, pad);
    PaddedBits(BatchBits(b), pad, s, 157 + TotalLength(b.events));
  }

  lemma PackedBatchIsLaidOut(bytes: seq<Octet>, b: WireBatch)
    requires FramingFits(b.framing) && HeaderFits(b.header) && EventsFit(b.events, -1) && bytes == Pack(BatchBits(b))
    ensures BatchLayout(bytes, b)
  {
    hide Pack, FramingAt, HeaderAt, EventsAt, TotalLength, IsPadding, HeaderFits, EventsFit, FramingFits, BatchBits, PaddedAfter;
    var pad := Unpacked(bytes, BatchBits(b));
    BatchBitsLaid(Unpack(bytes), b, pad);
  }

  /** And so has the whole message. */
  lemma BatchIsLaidOut(b: WireBatch)
    requires ValidBatch(b)
    ensures BatchLayout(Blob(b), b)
  {
    hide *;
    ValidBatchFits(b);
    BlobPacksBits(b);
    PackedBatchIsLaidOut(Blob(b), b);
  }

  lemma BlobPacksBits(b: WireBatch)
    requires ValidBatch(b) && FramingFits(b.framing) && HeaderFits(b.header) && EventsFit(b.events, -1)
    ensures Blob(b) == Pack(BatchBits(b))
  {
  }

  lemma FramingInside(s: BitString, f: Framing)
    requires FramingAt(s, f)
    ensures 68 <= |s|
  {
  }

  // ------------------------------------------------------------- what is accepted

  /** The ranges of the format, in numbers. */
  predicate EventInRange(e: WireEvent) {
    && 0 <= e.seqDelta <= 63 && 0 <= e.tDelta <= 4095 && 0 <= e.responderId <= 1023
    && match e.payload
       case CellStatusReported(cell, _) => 0 <= cell <= 8190
       case ResourceDeltaReported(item, qty) => 0 <= item <= 255 && -128 <= qty <= 127
       case TeamStatusReported(_) => true
       case SurvivorReported(cell, persons, _, _, lat, lon) =>
         && 0 <= cell <= 8190 && 0 <= persons <= 63
         && (lat.Some? ==> -32_768 <= lat.value <= 32_767) && (lon.Some? ==> -32_768 <= lon.value <= 32_767)
  }

  predicate HeaderInRange(h: BatchHeader) {
    && 0 <= h.protoVersion <= 15 && 0 <= h.deviceId <= 4095 && 0 <= h.teamId <= 255 && 0 <= h.agencyId <= 15
    && 0 <= h.incidentId <= 4095 && 0 <= h.schemaVersion <= 15
    && 0 <= h.baseSeq <= 1_048_575 && 0 <= h.baseT <= 1_048_575 && 1 <= h.eventCount <= 31
  }

  /** The phone encodes a payload exactly when all is in range, counted right and climbing. */
  lemma {:induction false} EventsAcceptedIff(es: seq<WireEvent>, last: int)
    ensures ValidEvents(es, last) <==>
            && (forall i :: 0 <= i < |es| ==> EventInRange(es[i]) && last < es[i].seqDelta)
            && (forall i, j :: 0 <= i < j < |es| ==> es[i].seqDelta < es[j].seqDelta)
  {
    if es == [] {
    } else {
      var rest := es[1..];
      EventsAcceptedIff(rest, es[0].seqDelta);
      assert ValidEvent(es[0]) <==> EventInRange(es[0]);
      hide ValidEvent, EventInRange;
      assert forall i :: 0 < i < |es| ==> es[i] == rest[i - 1];
      assert forall i :: 0 <= i < |rest| ==> rest[i] == es[i + 1];
    }
  }

  lemma HeaderAcceptedIff(h: BatchHeader, n: nat)
    ensures ValidHeader(h, n) <==> HeaderInRange(h) && h.eventCount == n
  {
  }

  /** A message can be sent exactly when it is in range, climbing, a single part of protocol 1 and at most 120 bytes. */
  lemma BatchAcceptedIff(b: WireBatch)
    ensures Transportable(b) <==>
            && |b.framing.mac| == 4 && 0 <= b.framing.batchId <= 65_535 && 0 <= b.framing.originDeviceId <= 4095
            && b.framing.partIndex == 1 && b.framing.partTotal == 1
            && HeaderInRange(b.header) && b.header.protoVersion == 1 && b.header.eventCount == |b.events|
            && (forall i :: 0 <= i < |b.events| ==> EventInRange(b.events[i]))
            && (forall i, j :: 0 <= i < j < |b.events| ==> b.events[i].seqDelta < b.events[j].seqDelta)
            && 157 + TotalLength(b.events) <= 960
  {
    EventsAcceptedIff(b.events, -1);
    HeaderAcceptedIff(b.header, |b.events|);
    SizesAgree(b.events);
    hide ValidEvents, ValidHeader, SumEventBits, HeaderInRange;
    assert (forall i :: 0 <= i < |b.events| ==> EventInRange(b.events[i])) ==>
      forall i :: 0 <= i < |b.events| ==> -1 < b.events[i].seqDelta;
  }

  /** The table of sizes the packer predicts with is the layout's. */
  lemma {:induction false} SizesAgree(es: seq<WireEvent>)
    ensures SumEventBits(es) == TotalLength(es)
  {
    if es == [] {
    } else {
      SizesAgree(es[1..]);
      assert EventBits(es[0]) == Length(es[0].payload);
    }
  }

  // ------------------------------------------------------- which exception is raised

  /** Taking a field: the next `w` bits, or the decoding exception when they are not there. */
  lemma TakeExact(s: BitString, o: nat, w: nat)
    requires o <= |s|
    ensures Take(s[o..], w) == if o + w <= |s| then Got(FromBits(s[o..o + w]), s[o + w..]) else Bad(Decoding)
  {
    if o + w <= |s| {
      assert s[o..][..w] == s[o..o + w] && s[o..][w..] == s[o + w..];
    }
  }

  lemma {:induction false} ParsedBytes(s: BitString, n: nat)
    ensures ParseBytes(s, n).Got? <==> 8 * n <= |s|
    ensures ParseBytes(s, n).Got? ==> ParseBytes(s, n).rest == s[8 * n..] && |ParseBytes(s, n).value| == n
    ensures ParseBytes(s, n).Bad? ==> ParseBytes(s, n) == Bad(Decoding)
    decreases n
  {
    if n == 0 {
      assert s[0..] == s;
    } else if |s| >= 8 {
      ParsedBytes(s[8..], n - 1);
      assert 8 * n <= |s| ==> s[8..][8 * (n - 1)..] == s[8 * n..];
    }
  }

  /** Framing is refused for bits that are missing, or for parts other than 1 of 1, and each has its exception. */
  lemma FramingParsed(s: BitString)
    ensures |s| < 68 ==> ParseFraming(s) == Bad(Decoding)
    ensures |s| >= 68 ==>
              if FromBits(s[16..20]) == 1 && FromBits(s[20..24]) == 1 then ParseFraming(s).Got? && ParseFraming(s).rest == s[68..]
              else ParseFraming(s) == Bad(Encoding)
  {
    Widths();
    hide Take, FromBits, ParseBytes;
    AllOf(s);
    TakeExact(s, 0, 16);
    if |s| >= 16 { TakeExact(s, 16, 4); }
    if |s| >= 20 { TakeExact(s, 20, 4); }
    if |s| >= 24 { TakeExact(s, 24, 12); }
    if |s| >= 36 {
      ParsedBytes(s[36..], 4);
      assert |s| >= 68 ==> s[36..][32..] == s[68..];
    }
  }

  lemma EventParsed(s: BitString)
    ensures ParseEvent(s).Bad? ==> ParseEvent(s) == Bad(Decoding)
  {
    PayloadParsed(7, s);
    hide FromBits, ParsePayload;
    forall code, rest ensures ParsePayload(code, rest).Bad? ==> ParsePayload(code, rest) == Bad(Decoding) {
      PayloadParsed(code, rest);
    }
  }

  lemma PayloadParsed(code: int, s: BitString)
    ensures ParsePayload(code, s).Bad? ==> ParsePayload(code, s) == Bad(Decoding)
  {
    hide FromBits;
  }

  lemma {:induction false} EventsParsed(s: BitString, n: nat, last: int)
    ensures ParseEvents(s, n, last).Bad? ==> ParseEvents(s, n, last) == Bad(Decoding)
    decreases n
  {
    hide ParseEvent;
    if n == 0 {
    } else {
      EventParsed(s);
      if ParseEvent(s).Got? {
        EventsParsed(ParseEvent(s).rest, n - 1, ParseEvent(s).value.seqDelta);
      }
    }
  }

  lemma HeaderParsed(s: BitString)
    ensures ParseHeader(s).Bad? ==> ParseHeader(s) == Bad(Decoding)
  {
    hide FromBits;
  }

  /**
   A message is refused with the encoding exception exactly when its framing is there and says
   anything but part 1 of 1; every other refusal raises the decoding exception.
   */
  lemma DecodeErrorExact(bytes: seq<Octet>)
    ensures var s, r := Unpack(bytes), DecodedBatch(bytes);
            r.Err? ==>
              if 9 <= |bytes| <= 120 && !(FromBits(s[16..20]) == 1 && FromBits(s[20..24]) == 1)
              then r.error == Encoding else r.error == Decoding
    ensures var s := Unpack(bytes);
            9 <= |bytes| <= 120 && !(FromBits(s[16..20]) == 1 && FromBits(s[20..24]) == 1) ==> DecodedBatch(bytes).Err?
  {
    var s := Unpack(bytes);
    hide Unpack, FromBits, ParseFraming, ParseHeader, ParseEvents;
    FramingParsed(s);
    if ParseFraming(s).Got? {
      var rest := ParseFraming(s).rest;
      HeaderParsed(rest);
      if ParseHeader(rest).Got? {
        var h := ParseHeader(rest).value;
        EventsParsed(ParseHeader(rest).rest, if h.eventCount > 0 then h.eventCount else 0, -1);
      }
    }
  }
}
