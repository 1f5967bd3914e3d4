/**
 Reading a bit string as a batch, and the main result about the format: a byte
 string decodes to a batch exactly when it is the encoding of that batch.
 */
module WireParse {
  import opened BitStrings
  import opened Results
  import opened Domain
  import opened BitIo
  import opened Wire

  /** A value and the bits after it, or the exception raised on the way. */
  datatype Parse<+T> = Got(value: T, rest: BitString) | Bad(error: WireError) {

    predicate IsFailure() {
      Bad?
    }

    function PropagateFailure<U>(): (r: Parse<U>)
      requires Bad?
    {
      Bad(error)
    }

    function Extract(): (T, BitString)
      requires Got?
    {
      (value, rest)
    }
  }

  function Check<T>(r: Result<T>, rest: BitString): Parse<T> {
    match r case Ok(v) => Got(v, rest) case Err(e) => Bad(e)
  }

  function Take(s: BitString, w: nat): Parse<nat> {
    if |s| < w then Bad(Decoding) else Got(FromBits(s[..w]), s[w..])
  }

  function TakeOctet(s: BitString): Parse<Octet> {
    Widths();
    if |s| < 8 then Bad(Decoding) else Got(FromBits(s[..8]), s[8..])
  }

  function TakeSigned(s: BitString, w: nat): Parse<int>
    requires w > 0
  {
    if |s| < w then Bad(Decoding) else Got(SignExtend(FromBits(s[..w]), w), s[w..])
  }

  function TakeCell(s: BitString): Parse<nat> {
    var (v, s) :- Take(s, CELL_INDEX_BITS);
    if v > MAX_CELL_INDEX then Bad(Decoding) else Got(v, s)
  }

  function TakeTriage(present: bool, s: BitString): Parse<Option<Triage>> {
    if !present then Got(None, s) else
    var (c, s) :- Take(s, TRIAGE_BITS);
    var (t, s) :- Check(TriageOf(c), s);
    Got(Some(t), s)
  }

  function TakeCoord(present: bool, s: BitString): Parse<Option<int>> {
    if !present then Got(None, s) else
    var (v, s) :- TakeSigned(s, REL_COORD_BITS);
    Got(Some(v), s)
  }

  function ParseEvent(s: BitString): Parse<WireEvent> {
    var (code, s) :- Take(s, EVT_TYPE_BITS);
    var (seqDelta, s) :- Take(s, SEQ_DELTA_BITS);
    var (tDelta, s) :- Take(s, T_DELTA_BITS);
    var (payload, s) :- ParsePayload(code, s);
    var (responder, s) :- Take(s, RESPONDER_ID_BITS);
    Got(WireEvent(seqDelta, tDelta, responder, payload), s)
  }

  function ParsePayload(code: int, s: BitString): Parse<SmsPayload> {
    if code == 7 then ParseCellStatus(s)
    else if code == 9 then ParseResourceDelta(s)
    else if code == 11 then ParseTeamStatus(s)
    else if code == 8 then
      var (mask, s) :- Take(s, PRESENCE_MASK_BITS);
      ParseSurvivor(mask, s)
    else Bad(Decoding)
  }

  function ParseCellStatus(s: BitString): Parse<SmsPayload> {
    var (cell, s) :- TakeCell(s);
    var (c, s) :- Take(s, STATUS_BITS);
    var (status, s) :- Check(CellStatusOf(c), s);
    Got(CellStatusReported(cell, status), s)
  }

  function ParseResourceDelta(s: BitString): Parse<SmsPayload> {
    var (item, s) :- Take(s, ITEM_ID_BITS);
    var (qty, s) :- TakeSigned(s, QTY_DELTA_BITS);
    Got(ResourceDeltaReported(item, qty), s)
  }

  function ParseTeamStatus(s: BitString): Parse<SmsPayload> {
    var (c, s) :- Take(s, TEAM_STATUS_BITS);
    var (status, s) :- Check(TeamStatusOf(c), s);
    Got(TeamStatusReported(status), s)
  }

  function ParseSurvivor(mask: int, s: BitString): Parse<SmsPayload> {
    var (cell, s) :- TakeCell(s);
    var (persons, s) :- Take(s, PERSON_COUNT_BITS);
    var (c, s) :- Take(s, SURVIVOR_STATUS_BITS);
    var (status, s) :- Check(SurvivorStatusOf(c), s);
    var (options, s) :- TakeOptions(mask, s);
    Got(SurvivorReported(cell, persons, status, options.0, options.1, options.2), s)
  }

  /** The fields whose mask bit is set, in the order triage, rel_lat, rel_lon. */
  function TakeOptions(mask: int, s: BitString): Parse<(Option<Triage>, Option<int>, Option<int>)> {
    var (triage, s) :- TakeTriage(mask / 4 % 2 == 1, s);
    var (relLat, s) :- TakeCoord(mask / 2 % 2 == 1, s);
    var (relLon, s) :- TakeCoord(mask % 2 == 1, s);
    Got((triage, relLat, relLon), s)
  }

  /** `n` events, each with a `seq_delta` above the one before. */
  function ParseEvents(s: BitString, n: nat, last: int): Parse<seq<WireEvent>>
    decreases n
  {
    hide ParseEvent;
    if n == 0 then Got([], s) else
    var (e, s) :- ParseEvent(s);
    if e.seqDelta <= last then Bad(Decoding) else
    var (es, s) :- ParseEvents(s, n - 1, e.seqDelta);
    Got([e] + es, s)
  }

  function ParseHeader(s: BitString): Parse<BatchHeader> {
    var (proto, s) :- Take(s, PROTO_VERSION_BITS);
    var (device, s) :- Take(s, DEVICE_ID_BITS);
    var (team, s) :- Take(s, TEAM_ID_BITS);
    var (agency, s) :- Take(s, AGENCY_ID_BITS);
    var (incident, s) :- Take(s, INCIDENT_ID_BITS);
    var (schema, s) :- Take(s, SCHEMA_VERSION_BITS);
    var (baseSeq, s) :- Take(s, BASE_SEQ_BITS);
    var (baseT, s) :- Take(s, BASE_T_BITS);
    var (count, s) :- Take(s, EVENT_COUNT_BITS);
    if proto != PROTO_VERSION || count == 0 then Bad(Decoding) else
    Got(BatchHeader(proto, device, team, agency, incident, schema, baseSeq, baseT, count), s)
  }

  function ParseBytes(s: BitString, n: nat): Parse<seq<Octet>> {
    if n == 0 then Got([], s) else
    var (b, s) :- TakeOctet(s);
    var (bs, s) :- ParseBytes(s, n - 1);
    Got([b] + bs, s)
  }

  /** A bad part number raises the encoding exception even here. */
  function ParseFraming(s: BitString): Parse<Framing> {
    var (batchId, s) :- Take(s, BATCH_ID_BITS);
    var (partIndex, s) :- Take(s, PART_INDEX_BITS);
    var (partTotal, s) :- Take(s, PART_TOTAL_BITS);
    var (origin, s) :- Take(s, ORIGIN_DEVICE_ID_BITS);
    var (mac, s) :- ParseBytes(s, MAC_BYTES);
    var f := Framing(batchId, partIndex, partTotal, origin, mac);
    if !ValidFraming(f) then Bad(Encoding) else Got(f, s)
  }

  /** Header, events and nothing but padding: the MAC'd byte sequence. */
  function ParsePayloadBits(s: BitString): Result<(BatchHeader, seq<WireEvent>)> {
    match ParseHeader(s)
    case Bad(e) => Err(e)
    case Got(h, s) =>
      match ParseEvents(s, if h.eventCount > 0 then h.eventCount else 0, -1)
      case Bad(e) => Err(e)
      case Got(es, s) => if IsPadding(s) then Ok((h, es)) else Err(Decoding)
  }

  function DecodedPayload(bytes: seq<Octet>): Result<(BatchHeader, seq<WireEvent>)> {
    ParsePayloadBits(Unpack(bytes))
  }

  function DecodedBatch(bytes: seq<Octet>): Result<WireBatch> {
    if |bytes| > MAX_BATCH_BYTES then Err(Decoding) else
    match ParseFraming(Unpack(bytes))
    case Bad(e) => Err(e)
    case Got(f, s) =>
      match ParsePayloadBits(s)
      case Err(e) => Err(e)
      case Ok((h, es)) => Ok(WireBatch(f, h, es))
  }

  // ------------------------------------------------------------ field by field

  lemma TakePut(v: int, w: nat, rest: BitString)
    requires Fits(v, w)
    ensures Take(Put(v, w, rest), w) == Got(v, rest)
  {
    FromBitsToBits(v, w);
    assert Put(v, w, rest)[..w] == ToBits(v, w);
  }

  lemma PutTake(s: BitString, w: nat)
    requires |s| >= w
    ensures Fits(FromBits(s[..w]), w)
    ensures s == Put(FromBits(s[..w]), w, s[w..])
  {
    ToBitsFromBits(s[..w]);
  }

  lemma PutTaken(s: BitString, w: nat)
    requires Take(s, w).Got?
    ensures Fits(Take(s, w).value, w) && s == Put(Take(s, w).value, w, Take(s, w).rest)
  {
    PutTake(s, w);
  }

  /** Every field that was put is taken back, whatever follows. */
  lemma TakePutAll()
    ensures forall v: int, w: nat, rest: BitString {:trigger Put(v, w, rest)} ::
              Fits(v, w) ==> Take(Put(v, w, rest), w) == Got(v, rest)
  {
    forall v: int, w: nat, rest: BitString | Fits(v, w) {
      TakePut(v, w, rest);
    }
  }

  lemma TakePutSigned(v: int, w: nat, rest: BitString)
    requires w > 0 && FitsSigned(v, w)
    ensures TakeSigned(PutSigned(v, w, rest), w) == Got(v, rest)
  {
    TakePut(Complement(v, w), w, rest);
  }

  /** Every field that was taken is put back. */
  lemma PutTakeAll()
    ensures forall s: BitString, w: nat {:trigger Take(s, w)} :: Take(s, w).Got? ==>
              Fits(Take(s, w).value, w) && s == Put(Take(s, w).value, w, Take(s, w).rest)
  {
    forall s: BitString, w: nat | Take(s, w).Got? {
      PutTake(s, w);
    }
  }

  lemma PutTakeSigned(s: BitString, w: nat)
    requires w > 0 && |s| >= w
    ensures var v := TakeSigned(s, w).value; FitsSigned(v, w) && s == PutSigned(v, w, s[w..])
  {
    PutTake(s, w);
  }

  // ----------------------------------------------------- encode, then decode

  lemma EventRoundTrip(e: WireEvent, rest: BitString)
    requires ValidEvent(e)
    ensures EventFits(e) && ParseEvent(EncodedEvent(e, rest)) == Got(e, rest)
  {
    ValidEventIff(e);
    hide ParsePayload, PutPayload;
    Widths();
    TakePutAll();
    PayloadRoundTrip(e.payload, Put(e.responderId, RESPONDER_ID_BITS, rest));
  }

  lemma PayloadRoundTrip(p: SmsPayload, tail: BitString)
    requires PayloadFits(p) && !ReservedCell(p)
    ensures ParsePayload(p.TypeCode(), PutPayload(p, tail)) == Got(p, tail)
  {
    hide ParsePayload, PutPayload, PayloadFits, ReservedCell;
    match p
    case CellStatusReported(_, _) => CellStatusRoundTrip(p, tail);
    case ResourceDeltaReported(_, _) => ResourceDeltaRoundTrip(p, tail);
    case TeamStatusReported(_) => TeamStatusRoundTrip(p, tail);
    case SurvivorReported(_, _, _, _, _, _) => SurvivorWithMaskRoundTrip(p, tail);
  }

  lemma CellStatusRoundTrip(p: SmsPayload, tail: BitString)
    requires p.CellStatusReported? && PayloadFits(p) && !ReservedCell(p)
    ensures ParsePayload(p.TypeCode(), PutPayload(p, tail)) == Got(p, tail)
  {
    hide ParseSurvivor, ParseResourceDelta, ParseTeamStatus, PutSurvivor, PutSigned;
    Widths();
    TakePutAll();
  }

  lemma ResourceDeltaRoundTrip(p: SmsPayload, tail: BitString)
    requires p.ResourceDeltaReported? && PayloadFits(p)
    ensures ParsePayload(p.TypeCode(), PutPayload(p, tail)) == Got(p, tail)
  {
    hide ParseSurvivor, ParseCellStatus, ParseTeamStatus, PutSurvivor, PutSigned, TakeSigned;
    Widths();
    TakePutAll();
    TakePutSigned(p.qtyDelta, QTY_DELTA_BITS, tail);
  }

  lemma TeamStatusRoundTrip(p: SmsPayload, tail: BitString)
    requires p.TeamStatusReported? && PayloadFits(p)
    ensures ParsePayload(p.TypeCode(), PutPayload(p, tail)) == Got(p, tail)
  {
    hide ParseSurvivor, ParseCellStatus, ParseResourceDelta, PutSurvivor, PutSigned;
    Widths();
    TakePutAll();
  }

  lemma SurvivorWithMaskRoundTrip(p: SmsPayload, tail: BitString)
    requires p.SurvivorReported? && PayloadFits(p) && !ReservedCell(p)
    ensures ParsePayload(p.TypeCode(), PutPayload(p, tail)) == Got(p, tail)
  {
    hide ParseSurvivor, ParseCellStatus, ParseResourceDelta, ParseTeamStatus, PutSurvivor, PutSigned;
    Widths();
    TakePutAll();
    SurvivorRoundTrip(p, tail);
  }

  lemma SurvivorRoundTrip(p: SmsPayload, tail: BitString)
    requires p.SurvivorReported? && PayloadFits(p) && !ReservedCell(p)
    ensures ParseSurvivor(PresenceMask(p.triage.Some?, p.relLat.Some?, p.relLon.Some?), PutSurvivor(p, tail)) ==
            Got(p, tail)
  {
    hide PutOptions, TakeOptions, PresenceMask;
    Widths();
    OptionsRoundTrip(p.triage, p.relLat, p.relLon, tail);
    TakePutAll();
  }

  lemma OptionsRoundTrip(triage: Option<Triage>, relLat: Option<int>, relLon: Option<int>, tail: BitString)
    requires relLat.Some? ==> FitsSigned(relLat.value, REL_COORD_BITS)
    requires relLon.Some? ==> FitsSigned(relLon.value, REL_COORD_BITS)
    ensures TakeOptions(PresenceMask(triage.Some?, relLat.Some?, relLon.Some?),
                        PutOptions(triage, relLat, relLon, tail)) == Got((triage, relLat, relLon), tail)
  {
    hide PutTriage, PutCoord, TakeTriage, TakeCoord;
    CoordRoundTrip(relLon, tail);
    CoordRoundTrip(relLat, PutCoord(relLon, tail));
    TriageRoundTrip(triage, PutCoord(relLat, PutCoord(relLon, tail)));
  }

  lemma CoordRoundTrip(c: Option<int>, rest: BitString)
    requires c.Some? ==> FitsSigned(c.value, REL_COORD_BITS)
    ensures TakeCoord(c.Some?, PutCoord(c, rest)) == Got(c, rest)
  {
    if c.Some? {
      TakePutSigned(c.value, REL_COORD_BITS, rest);
    }
  }

  lemma TriageRoundTrip(t: Option<Triage>, rest: BitString)
    ensures TakeTriage(t.Some?, PutTriage(t, rest)) == Got(t, rest)
  {
    Widths();
    TakePutAll();
  }

  lemma {:induction false} EventsRoundTrip(es: seq<WireEvent>, last: int, rest: BitString)
    requires ValidEvents(es, last)
    ensures forall e :: e in es ==> EventFits(e)
    ensures ParseEvents(EncodedEvents(es, rest), |es|, last) == Got(es, rest)
  {
    hide EncodedEvent, ParseEvent, EventFits, ValidEvent, ReservedCell;
    ValidEventsIff(es, last);
    EventsFitAll(es, last);
    if es == [] {
    } else {
      EventsRoundTrip(es[1..], es[0].seqDelta, rest);
      EventRoundTrip(es[0], EncodedEvents(es[1..], rest));
      assert [es[0]] + es[1..] == es;
    }
  }

  lemma HeaderRoundTrip(h: BatchHeader, rest: BitString)
    requires HeaderFits(h) && h.protoVersion == PROTO_VERSION && h.eventCount >= 1
    ensures ParseHeader(EncodedHeader(h, rest)) == Got(h, rest)
  {
    TakePutAll();
  }

  lemma {:induction false} BytesRoundTrip(bytes: seq<Octet>, rest: BitString)
    ensures ParseBytes(EncodedBytes(bytes, rest), |bytes|) == Got(bytes, rest)
  {
    Widths();
    if bytes == [] {
    } else {
      TakePut(bytes[0], 8, EncodedBytes(bytes[1..], rest));
      BytesRoundTrip(bytes[1..], rest);
      assert [bytes[0]] + bytes[1..] == bytes;
    }
  }

  lemma FramingRoundTrip(f: Framing, rest: BitString)
    requires FramingFits(f) && ValidFraming(f)
    ensures ParseFraming(EncodedFraming(f, rest)) == Got(f, rest)
  {
    TakePutAll();
    BytesRoundTrip(f.mac, rest);
  }

  // ----------------------------------------------------- decode, then encode

  lemma EventCanonical(s: BitString)
    requires ParseEvent(s).Got?
    ensures var e := ParseEvent(s).value;
            ValidEvent(e) && EventFits(e) && s == EncodedEvent(e, ParseEvent(s).rest)
  {
    var e := ParseEvent(s).value;
    ValidEventIff(e);
    hide ParsePayload, PutPayload, ValidEvent;
    Widths();
    PutTakeAll();
    PayloadCanonical(Take(s, EVT_TYPE_BITS).value,
                     Take(Take(Take(s, EVT_TYPE_BITS).rest, SEQ_DELTA_BITS).rest, T_DELTA_BITS).rest);
  }

  lemma PayloadCanonical(code: int, s: BitString)
    requires ParsePayload(code, s).Got?
    ensures var p, rest := ParsePayload(code, s).value, ParsePayload(code, s).rest;
            p.TypeCode() == code && PayloadFits(p) && !ReservedCell(p) && s == PutPayload(p, rest)
  {
    hide ParseSurvivor, PutSurvivor, ParseCellStatus, ParseResourceDelta, ParseTeamStatus;
    if code == 7 {
      CellStatusCanonical(s);
    } else if code == 9 {
      ResourceDeltaCanonical(s);
    } else if code == 11 {
      TeamStatusCanonical(s);
    } else {
      Widths();
      PutTake(s, PRESENCE_MASK_BITS);
      SurvivorCanonical(Take(s, PRESENCE_MASK_BITS).value, Take(s, PRESENCE_MASK_BITS).rest);
    }
  }

  lemma CellStatusCanonical(s: BitString)
    requires ParseCellStatus(s).Got?
    ensures var p, rest := ParseCellStatus(s).value, ParseCellStatus(s).rest;
            p.CellStatusReported? && PayloadFits(p) && !ReservedCell(p) && s == PutPayload(p, rest)
  {
    Widths();
    PutTakeAll();
  }

  lemma ResourceDeltaCanonical(s: BitString)
    requires ParseResourceDelta(s).Got?
    ensures var p, rest := ParseResourceDelta(s).value, ParseResourceDelta(s).rest;
            p.ResourceDeltaReported? && PayloadFits(p) && s == PutPayload(p, rest)
  {
    Widths();
    PutTakeAll();
    PutTakeSigned(Take(s, ITEM_ID_BITS).rest, QTY_DELTA_BITS);
  }

  lemma TeamStatusCanonical(s: BitString)
    requires ParseTeamStatus(s).Got?
    ensures var p, rest := ParseTeamStatus(s).value, ParseTeamStatus(s).rest;
            p.TeamStatusReported? && s == PutPayload(p, rest)
  {
    Widths();
    PutTakeAll();
  }

  lemma SurvivorCanonical(mask: nat, s: BitString)
    requires mask < 8 && ParseSurvivor(mask, s).Got?
    ensures var p, rest := ParseSurvivor(mask, s).value, ParseSurvivor(mask, s).rest;
            && p.SurvivorReported? && PayloadFits(p) && !ReservedCell(p)
            && PresenceMask(p.triage.Some?, p.relLat.Some?, p.relLon.Some?) == mask
            && s == PutSurvivor(p, rest)
  {
    hide PutOptions, TakeOptions, PresenceMask, Put, Take;
    Widths();
    var cell := Take(s, CELL_INDEX_BITS);
    var persons := Take(cell.rest, PERSON_COUNT_BITS);
    var status := Take(persons.rest, SURVIVOR_STATUS_BITS);
    PutTaken(s, CELL_INDEX_BITS);
    PutTaken(cell.rest, PERSON_COUNT_BITS);
    PutTaken(persons.rest, SURVIVOR_STATUS_BITS);
    OptionsCanonical(mask, status.rest);
  }

  lemma OptionsCanonical(mask: nat, s: BitString)
    requires mask < 8 && TakeOptions(mask, s).Got?
    ensures var (triage, lat, lon) := TakeOptions(mask, s).value;
            && (lat.Some? ==> FitsSigned(lat.value, REL_COORD_BITS))
            && (lon.Some? ==> FitsSigned(lon.value, REL_COORD_BITS))
            && PresenceMask(triage.Some?, lat.Some?, lon.Some?) == mask
            && s == PutOptions(triage, lat, lon, TakeOptions(mask, s).rest)
  {
    hide PutTriage, PutCoord, TakeTriage, TakeCoord;
    var triage := TakeTriage(mask / 4 % 2 == 1, s);
    var lat := TakeCoord(mask / 2 % 2 == 1, triage.rest);
    TriageCanonical(mask / 4 % 2 == 1, s);
    CoordCanonical(mask / 2 % 2 == 1, triage.rest);
    CoordCanonical(mask % 2 == 1, lat.rest);
  }

  lemma TriageCanonical(present: bool, s: BitString)
    requires TakeTriage(present, s).Got?
    ensures var t := TakeTriage(present, s).value;
            t.Some? == present && s == PutTriage(t, TakeTriage(present, s).rest)
  {
    Widths();
    PutTakeAll();
  }

  lemma CoordCanonical(present: bool, s: BitString)
    requires TakeCoord(present, s).Got?
    ensures var c := TakeCoord(present, s).value;
            && c.Some? == present && (c.Some? ==> FitsSigned(c.value, REL_COORD_BITS))
            && s == PutCoord(c, TakeCoord(present, s).rest)
  {
    if present {
      PutTakeSigned(s, REL_COORD_BITS);
    }
  }

  lemma {:induction false} EventsCanonical(s: BitString, n: nat, last: int)
    requires ParseEvents(s, n, last).Got?
    ensures var es := ParseEvents(s, n, last).value;
            && |es| == n && ValidEvents(es, last) && (forall e :: e in es ==> EventFits(e))
            && s == EncodedEvents(es, ParseEvents(s, n, last).rest)
    decreases n
  {
    hide ParseEvent, EncodedEvent, EventFits, ValidEvent;
    if n == 0 {
    } else {
      var e, rest := ParseEvent(s).value, ParseEvent(s).rest;
      EventCanonical(s);
      EventsCanonical(rest, n - 1, e.seqDelta);
      assert ParseEvents(s, n, last).value == [e] + ParseEvents(rest, n - 1, e.seqDelta).value;
    }
  }

  lemma HeaderCanonical(s: BitString)
    requires ParseHeader(s).Got?
    ensures var h := ParseHeader(s).value;
            && h.protoVersion == PROTO_VERSION && h.eventCount >= 1 && HeaderFits(h)
            && s == EncodedHeader(h, ParseHeader(s).rest)
  {
    hide Take, Put, Fits;
    var a := Take(s, PROTO_VERSION_BITS);
    var b := Take(a.rest, DEVICE_ID_BITS);
    var c := Take(b.rest, TEAM_ID_BITS);
    var d := Take(c.rest, AGENCY_ID_BITS);
    var e := Take(d.rest, INCIDENT_ID_BITS);
    var f := Take(e.rest, SCHEMA_VERSION_BITS);
    var g := Take(f.rest, BASE_SEQ_BITS);
    var i := Take(g.rest, BASE_T_BITS);
    PutTaken(s, PROTO_VERSION_BITS);
    PutTaken(a.rest, DEVICE_ID_BITS);
    PutTaken(b.rest, TEAM_ID_BITS);
    PutTaken(c.rest, AGENCY_ID_BITS);
    PutTaken(d.rest, INCIDENT_ID_BITS);
    PutTaken(e.rest, SCHEMA_VERSION_BITS);
    PutTaken(f.rest, BASE_SEQ_BITS);
    PutTaken(g.rest, BASE_T_BITS);
    PutTaken(i.rest, EVENT_COUNT_BITS);
  }

  lemma {:induction false} BytesCanonical(s: BitString, n: nat)
    requires ParseBytes(s, n).Got?
    ensures var bytes := ParseBytes(s, n).value;
            |bytes| == n && s == EncodedBytes(bytes, ParseBytes(s, n).rest)
    decreases n
  {
    Widths();
    if n == 0 {
    } else {
      PutTake(s, 8);
      BytesCanonical(s[8..], n - 1);
      assert ParseBytes(s, n).value[1..] == ParseBytes(s[8..], n - 1).value;
    }
  }

  lemma FramingCanonical(s: BitString)
    requires ParseFraming(s).Got?
    ensures var f := ParseFraming(s).value;
            ValidFraming(f) && FramingFits(f) && s == EncodedFraming(f, ParseFraming(s).rest)
  {
    PutTakeAll();
    var a := Take(s, BATCH_ID_BITS);
    var b := Take(a.rest, PART_INDEX_BITS);
    var c := Take(b.rest, PART_TOTAL_BITS);
    var d := Take(c.rest, ORIGIN_DEVICE_ID_BITS);
    BytesCanonical(d.rest, MAC_BYTES);
  }

  // ------------------------------------------------------------- the bijection

  /** Batches of the protocol version the decoder speaks, within the transport budget. */
  predicate Transportable(b: WireBatch) {
    ValidBatch(b) && b.header.protoVersion == PROTO_VERSION && FitsBudget(b.events)
  }

  /**
   The codec is a bijection: a byte string decodes to `b` exactly when `b` is
   transportable and the byte string is its encoding.  Right to left, decoding undoes
   encoding; left to right, every accepted byte string is the canonical one.
   */
  lemma DecodesIffEncodes(bytes: seq<Octet>, b: WireBatch)
    ensures DecodedBatch(bytes) == Ok(b) <==> Transportable(b) && bytes == Blob(b)
  {
    if Transportable(b) && bytes == Blob(b) {
      EncodeThenDecode(b);
    }
    if DecodedBatch(bytes) == Ok(b) {
      DecodeThenEncode(bytes);
    }
  }

  lemma EncodeThenDecode(b: WireBatch)
    requires Transportable(b)
    ensures DecodedBatch(Blob(b)) == Ok(b)
  {
    hide ParseFraming, EncodedFraming, EncodedHeader, ParseHeader, ValidEvents, EncodedEvents, ValidHeader;
    ValidBatchFits(b);
    ValidHeaderIff(b.header, |b.events|);
    var bits := BatchBits(b);
    BatchSizeExact(b);
    PackedIsPadded(bits);
    var pad := Unpack(Blob(b))[|bits|..];
    assert Unpack(Blob(b)) == bits + pad;
    BatchBitsThen(b, pad);
    FramingRoundTrip(b.framing, PayloadWith(b.header, b.events, pad));
    PayloadRoundTripThen(b.header, b.events, pad);
  }

  /** The payload followed by further bits. */
  function PayloadWith(h: BatchHeader, es: seq<WireEvent>, pad: BitString): BitString
    requires HeaderFits(h) && EventsFit(es, -1)
  {
    EventsFitAll(es, -1);
    EncodedHeader(h, EncodedEvents(es, pad))
  }

  lemma PayloadRoundTripThen(h: BatchHeader, es: seq<WireEvent>, pad: BitString)
    requires ValidHeader(h, |es|) && h.protoVersion == PROTO_VERSION && ValidEvents(es, -1)
    requires IsPadding(pad)
    ensures HeaderFits(h) && EventsFit(es, -1)
    ensures ParsePayloadBits(PayloadWith(h, es, pad)) == Ok((h, es))
  {
    ValidHeaderIff(h, |es|);
    ValidEventsIff(es, -1);
    hide EncodedHeader, ParseHeader, ParseEvents, EncodedEvents;
    EventsFitAll(es, -1);
    HeaderRoundTrip(h, EncodedEvents(es, pad));
    EventsRoundTrip(es, -1, pad);
  }

  lemma DecodeThenEncode(bytes: seq<Octet>)
    requires DecodedBatch(bytes).Ok?
    ensures var b := DecodedBatch(bytes).value; Transportable(b) && bytes == Blob(b)
  {
    hide ParseFraming, EncodedFraming, EncodedHeader, ParseHeader, ParseEvents, EncodedEvents;
    hide ValidEvents, EventsFit, ValidHeader, HeaderFits;
    var b := DecodedBatch(bytes).value;
    var u := Unpack(bytes);
    var afterFraming := ParseFraming(u).rest;
    var pad := PayloadBitsCanonical(afterFraming);
    FramingCanonical(u);
    ValidHeaderIff(b.header, |b.events|);
    BatchBitsThen(b, pad);
    var bits := BatchBits(b);
    assert u == bits + pad;
    assert u[|bits|..] == pad;
    PaddedIsPacked(bytes, bits);
    BatchSizeExact(b);
  }

  lemma PayloadBitsCanonical(s: BitString) returns (pad: BitString)
    requires ParsePayloadBits(s).Ok?
    ensures IsPadding(pad)
    ensures var (h, es) := ParsePayloadBits(s).value;
            && HeaderFits(h) && h.protoVersion == PROTO_VERSION && h.eventCount >= 1
            && h.eventCount == |es| && ValidEvents(es, -1) && EventsFit(es, -1)
            && s == PayloadWith(h, es, pad)
  {
    hide EncodedHeader, ParseHeader, ParseEvents, EncodedEvents, ValidEvents, EventsFit;
    var (h, es) := ParsePayloadBits(s).value;
    var afterHeader := ParseHeader(s).rest;
    HeaderCanonical(s);
    EventsCanonical(afterHeader, h.eventCount, -1);
    ValidEventsIff(es, -1);
    EventsFitAll(es, -1);
    pad := ParseEvents(afterHeader, h.eventCount, -1).rest;
  }

  lemma BatchBitsThen(b: WireBatch, pad: BitString)
    requires FramingFits(b.framing) && HeaderFits(b.header) && EventsFit(b.events, -1)
    ensures BatchBits(b) + pad == EncodedFraming(b.framing, PayloadWith(b.header, b.events, pad))
  {
    hide EncodedFraming;
    PayloadBitsThen(b.header, b.events, pad);
    FramingThen(b.framing, PayloadBits(b.header, b.events), pad);
  }

  lemma PayloadBitsThen(h: BatchHeader, es: seq<WireEvent>, pad: BitString)
    requires HeaderFits(h) && EventsFit(es, -1)
    ensures PayloadBits(h, es) + pad == PayloadWith(h, es, pad)
  {
    hide EncodedHeader, EncodedEvents, HeaderFits, EventsFit, EventFits;
    EventsFitAll(es, -1);
    HeaderThen(h, EncodedEvents(es, []), pad);
    EventsThen(es, [], pad);
    assert [] + pad == pad;
  }

  /** Decoding only the MAC'd bytes undoes their encoding as well. */
  lemma PayloadEncodeThenDecode(h: BatchHeader, es: seq<WireEvent>)
    requires ValidHeader(h, |es|) && h.protoVersion == PROTO_VERSION && ValidEvents(es, -1)
    ensures HeaderFits(h) && EventsFit(es, -1)
    ensures DecodedPayload(Pack(PayloadBits(h, es))) == Ok((h, es))
  {
    hide EncodedHeader, ParseHeader, ParseEvents, EncodedEvents;
    ValidHeaderIff(h, |es|);
    ValidEventsIff(es, -1);
    var bits := PayloadBits(h, es);
    PackedIsPadded(bits);
    var pad := Unpack(Pack(bits))[|bits|..];
    assert Unpack(Pack(bits)) == bits + pad;
    PayloadBitsThen(h, es, pad);
    PayloadRoundTripThen(h, es, pad);
  }
}
