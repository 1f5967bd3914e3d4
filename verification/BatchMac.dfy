/**
 The server's check of a relayed batch: rebuild, from decoded events, the bytes the
 device's MAC covered.  The main result says exactly when the rebuilding succeeds.
 */
module BatchMac {
  import opened BitStrings
  import opened Results
  import opened Domain
  import opened Wire
  import opened WireParse
  import opened Sorting
  import opened SmsBatchEncoder
  import BackendWire
  import SmsCodec

  /** An event as the gateway relays it, with its time in whole seconds. */
  datatype Relayed = Relayed(device: int, seqNo: int, payload: Payload, tSec: int, responder: int,
                             team: int, agency: int, incident: int, schema: int)

  predicate RelayedLe(a: Relayed, b: Relayed) {
    a.seqNo <= b.seqNo
  }

  /** What a gateway makes of a decoded batch: absolute values, attribution from the header. */
  function Relay(h: BatchHeader, es: seq<WireEvent>, incidentStart: int): (s: seq<Relayed>)
    ensures |s| == |es|
  {
    seq(|es|, i requires 0 <= i < |es| =>
        Relayed(h.deviceId, h.baseSeq + es[i].seqDelta, es[i].payload, incidentStart + h.baseT + es[i].tDelta,
                es[i].responderId, h.teamId, h.agencyId, h.incidentId, h.schemaVersion))
  }

  function RebuiltHeader(ordered: seq<Relayed>, started: int): BatchHeader
    requires ordered != []
  {
    var first := ordered[0];
    BatchHeader(1, first.device, first.team, first.agency, first.incident, first.schema,
                first.seqNo, first.tSec - started, |ordered|)
  }

  function RebuiltEvents(ordered: seq<Relayed>, started: int): (s: seq<BackendWire.PackedEvent>)
    requires ordered != []
    ensures |s| == |ordered|
  {
    var baseSeq, baseT := ordered[0].seqNo, ordered[0].tSec - started;
    seq(|ordered|, i requires 0 <= i < |ordered| =>
        BackendWire.PackedEvent(ordered[i].seqNo - baseSeq, ordered[i].tSec - started - baseT,
                                ordered[i].responder, ordered[i].payload))
  }

  function BySeq(events: seq<Relayed>): (s: seq<Relayed>)
    ensures multiset(s) == multiset(events) && |s| == |events|
  {
    SameMembers(events, Sort(RelayedLe, events));
    Sort(RelayedLe, events)
  }

  /** The bytes rebuilt from relayed events, or none when the batch is refused before its MAC is compared. */
  function Rebuilt(events: seq<Relayed>, started: int): Option<seq<Octet>>
    requires events != []
  {
    var ordered := BySeq(events);
    var h, es := RebuiltHeader(ordered, started), RebuiltEvents(ordered, started);
    if h.baseT < 0 || !BackendWire.Accepts(h, es) then None
    else Some(Pack(PayloadBits(h, BackendWire.AsWire(es))))
  }

  /**
   Verification of a batch from a gateway; any other role passes.  `secrets` and
   `started` stand for the credential table and the incident's declared start.
   */
  method VerifyGatewayBatch(gateway: bool, presented: Option<seq<Octet>>, events: seq<Relayed>,
                            originDeviceId: Option<int>, secrets: map<int, seq<Octet>>, started: map<int, int>,
                            hmac: (seq<Octet>, seq<Octet>) -> Tag) returns (verified: bool)
    ensures !gateway ==> verified
    ensures gateway && (presented.None? || events == []) ==> !verified
    ensures gateway && presented.Some? && events != [] ==>
              var origin := if originDeviceId.Some? then originDeviceId.value else events[0].device;
              var incident := BySeq(events)[0].incident;
              (verified <==>
                && origin in secrets && secrets[origin] != []
                && incident in started
                && Rebuilt(events, started[incident]).Some?
                && presented.value == hmac(secrets[origin], Rebuilt(events, started[incident]).value))
  {
    hide Rebuilt, BySeq;
    if !gateway {
      return true;
    }
    if presented.None? || presented.value == [] {
      return false;
    }
    if events == [] {
      return false;
    }
    var origin := if originDeviceId.Some? then originDeviceId.value else events[0].device;
    if origin !in secrets || secrets[origin] == [] {
      return false;
    }
    var ordered := BySeq(events);
    var first := ordered[0];
    if first.incident !in started {
      return false;
    }
    var payload := Rebuild(events, started[first.incident]);
    if payload.None? {
      return false;
    }
    verified := |presented.value| == MAC_BYTES && hmac(secrets[origin], payload.value) == presented.value;
  }

  /** Header and deltas from the lowest `seq` on, packed again by the server's encoder. */
  method Rebuild(events: seq<Relayed>, started: int) returns (payload: Option<seq<Octet>>)
    requires events != []
    ensures payload == Rebuilt(events, started)
  {
    hide BackendWire.Accepts, BySeq, HeaderFits, EventsFit;
    var ordered := BySeq(events);
    var first := ordered[0];
    var baseSeq := first.seqNo;
    var baseT := first.tSec - started;
    if baseT < 0 {
      return None;
    }
    var header := BatchHeader(1, first.device, first.team, first.agency, first.incident, first.schema,
                              baseSeq, baseT, |ordered|);
    var packedEvents: seq<BackendWire.PackedEvent> := [];
    for i := 0 to |ordered|
      invariant packedEvents == RebuiltEvents(ordered, started)[..i]
    {
      var e := ordered[i];
      packedEvents := packedEvents +
        [BackendWire.PackedEvent(e.seqNo - baseSeq, (e.tSec - started) - baseT, e.responder, e.payload)];
    }
    assert packedEvents == RebuiltEvents(ordered, started);
    var encoded := BackendWire.EncodePayload(header, packedEvents);
    if encoded.Err? {
      return None;
    }
    payload := Some(encoded.value);
  }

  // ------------------------------------------------------- when both sides agree

  predicate ValidPayload(h: BatchHeader, es: seq<WireEvent>) {
    ValidHeader(h, |es|) && h.protoVersion == PROTO_VERSION && ValidEvents(es, -1)
  }

  /** The bytes the device's MAC covers, for a payload it can send. */
  function DeviceInput(h: BatchHeader, es: seq<WireEvent>): seq<Octet>
    requires ValidPayload(h, es)
  {
    ValidHeaderIff(h, |es|);
    ValidEventsIff(es, -1);
    Pack(PayloadBits(h, es))
  }

  lemma {:induction false} ValidEventsClimb(es: seq<WireEvent>, last: int)
    requires ValidEvents(es, last)
    ensures forall i :: 0 <= i < |es| ==> ValidEvent(es[i]) && last < es[i].seqDelta
    ensures forall i, j :: 0 <= i < j < |es| ==> es[i].seqDelta < es[j].seqDelta
  {
    hide ValidEvent;
    if es == [] {
    } else {
      ValidEventsClimb(es[1..], es[0].seqDelta);
      forall i | 0 <= i < |es| ensures ValidEvent(es[i]) && last < es[i].seqDelta {
        assert i > 0 ==> es[i] == es[1..][i - 1];
      }
      forall i, j | 0 <= i < j < |es| ensures es[i].seqDelta < es[j].seqDelta {
        assert es[j] == es[1..][j - 1];
        assert i > 0 ==> es[i] == es[1..][i - 1];
      }
    }
  }

  /** However the relayed events are arranged, sorting them recovers the batch order. */
  lemma RelayOrder(h: BatchHeader, es: seq<WireEvent>, incidentStart: int, relayed: seq<Relayed>)
    requires ValidEvents(es, -1)
    requires multiset(relayed) == multiset(Relay(h, es, incidentStart))
    ensures Sort(RelayedLe, relayed) == Relay(h, es, incidentStart)
  {
    ValidEventsClimb(es, -1);
    hide ValidEvents, ValidEvent;
    var r := Relay(h, es, incidentStart);
    assert Sorted(RelayedLe, r);
    forall a, b | a in r && b in r && RelayedLe(a, b) && RelayedLe(b, a) ensures a == b {
      var i :| 0 <= i < |r| && r[i] == a;
      var j :| 0 <= j < |r| && r[j] == b;
      assert es[i].seqDelta == es[j].seqDelta;
    }
    assert TotalPreorder(RelayedLe);
    SortRecovers(RelayedLe, r, relayed);
  }

  /** The rebuilt header and deltas, when the relayed events are in batch order. */
  lemma RebuiltFromRelay(h: BatchHeader, es: seq<WireEvent>, incidentStart: int)
    requires ValidPayload(h, es)
    ensures var r := Relay(h, es, incidentStart);
            var zero := es[0].seqDelta == 0 && es[0].tDelta == 0;
            && (zero <==> RebuiltHeader(r, incidentStart) == h)
            && (zero ==> RebuiltEvents(r, incidentStart) == BackendWire.Lift(es))
  {
    var r := Relay(h, es, incidentStart);
    assert r[0].seqNo == h.baseSeq + es[0].seqDelta;
    assert r[0].tSec - incidentStart == h.baseT + es[0].tDelta;
    hide ValidEvents;
    if es[0].seqDelta == 0 && es[0].tDelta == 0 {
      forall i | 0 <= i < |es|
        ensures RebuiltEvents(r, incidentStart)[i] == BackendWire.Lift(es)[i]
      {
      }
    }
  }

  /**
   For every payload a device can send, the server rebuilds the device's MAC input
   from the relayed events exactly when the first packed event has both deltas zero.
   */
  lemma RebuiltIffFirstIsBase(h: BatchHeader, es: seq<WireEvent>, incidentStart: int, relayed: seq<Relayed>)
    requires ValidPayload(h, es)
    requires multiset(relayed) == multiset(Relay(h, es, incidentStart))
    ensures relayed != []
    ensures Rebuilt(relayed, incidentStart) == Some(DeviceInput(h, es)) <==>
            es[0].seqDelta == 0 && es[0].tDelta == 0
  {
    var r := Relay(h, es, incidentStart);
    SameMembers(relayed, r);
    RelayOrder(h, es, incidentStart, relayed);
    RebuiltFromRelay(h, es, incidentStart);
    if es[0].seqDelta == 0 && es[0].tDelta == 0 {
      BackendWire.PhoneAcceptsIffServerDoes(h, es);
    } else if Rebuilt(relayed, incidentStart) == Some(DeviceInput(h, es)) {
      var h', es' := RebuiltHeader(r, incidentStart), BackendWire.AsWire(RebuiltEvents(r, incidentStart));
      RebuiltIsValid(h, es, incidentStart);
      PayloadEncodeThenDecode(h, es);
      PayloadEncodeThenDecode(h', es');
      assert false;
    }
  }

  /** What the server accepts of a rebuilt batch, the phone would have accepted too. */
  lemma RebuiltIsValid(h: BatchHeader, es: seq<WireEvent>, incidentStart: int)
    requires ValidPayload(h, es)
    requires var r := Relay(h, es, incidentStart);
             BackendWire.Accepts(RebuiltHeader(r, incidentStart), RebuiltEvents(r, incidentStart))
    ensures var r := Relay(h, es, incidentStart);
            ValidPayload(RebuiltHeader(r, incidentStart), BackendWire.AsWire(RebuiltEvents(r, incidentStart)))
  {
    var r := Relay(h, es, incidentStart);
    var h', ws := RebuiltHeader(r, incidentStart), BackendWire.AsWire(RebuiltEvents(r, incidentStart));
    ValidEventsIff(es, -1);
    forall e | e in ws ensures !ReservedCell(e.payload) {
      var i :| 0 <= i < |ws| && ws[i] == e;
      assert e.payload == es[i].payload && es[i] in es;
    }
    ValidEventsIff(ws, -1);
    ValidHeaderIff(h', |ws|);
  }

  // ------------------------------------------------------------- packed batches

  /** The rows come from one device's outbox: one row per `seq`. */
  ghost predicate OneDevice(ordered: seq<Loaded>) {
    forall a, b :: a in ordered && b in ordered && a.ev.seqNo == b.ev.seqNo ==> a == b
  }

  /** The condition a caller can check before packing. */
  predicate BaseIsPackable(first: Event, incidentStart: int) {
    first.payload.SmsEligible() && Seconds(first.tDev) >= incidentStart
  }

  /** The first candidate is included exactly when it can be represented at all. */
  lemma {:induction false} FirstIncluded(ordered: seq<Loaded>, base: Base)
    requires ordered != []
    ensures var c := Select(ordered, base);
            ToWire(ordered[0].ev, base).Some? ==>
              c.included != [] && c.included[0] == ordered[0] && |c.wire| == |c.included|
  {
    hide ToWire, EventBits;
    var front := ordered[..|ordered| - 1];
    SelectWellChosen(front, base);
    if |ordered| == 1 {
      assert front == [];
      assert SumEventBits([]) == 0;
      OneEventFits(ToWire(ordered[0].ev, base));
    } else {
      FirstIncluded(front, base);
    }
  }

  lemma FirstDeltasZero(ordered: seq<Loaded>, incidentStart: int)
    requires ordered != [] && Sorted(SeqLe, ordered) && OneDevice(ordered)
    requires Chosen(ordered, incidentStart).wire != []
    ensures var w := Chosen(ordered, incidentStart).wire[0];
            w.seqDelta == 0 && w.tDelta == 0 <==> BaseIsPackable(ordered[0].ev, incidentStart)
    ensures BaseIsPackable(ordered[0].ev, incidentStart) <==>
            ordered[0] in Chosen(ordered, incidentStart).included
  {
    var first := ordered[0].ev;
    var base := BaseOf(first, incidentStart);
    var c := Chosen(ordered, incidentStart);
    SelectWellChosen(ordered, base);
    SelectKeepsOrder(ordered, base);
    SubsequenceSorted(SeqLe, c.included, ordered);
    FirstIncluded(ordered, base);
    assert ToWire(first, base).Some? <==> BaseIsPackable(first, incidentStart);
    assert c.included[0] in c.included;
    if ordered[0] in c.included {
      var i :| 0 <= i < |c.included| && c.included[i] == ordered[0];
      assert ToWire(c.included[i].ev, base).Some?;
    }
  }

  /**
   A batch packed from one device's rows: the server rebuilds the device's MAC input
   if and only if the lowest-`seq` loaded event could itself be packed, that is, has
   an SMS layout and does not predate the incident.
   */
  lemma ServerRebuildsMacInputIff(ordered: seq<Loaded>, incidentStart: int, relayed: seq<Relayed>)
    requires Packable(ordered, incidentStart) && Sorted(SeqLe, ordered) && OneDevice(ordered)
    requires multiset(relayed) ==
             multiset(Relay(ChosenHeader(ordered, incidentStart), Chosen(ordered, incidentStart).wire, incidentStart))
    ensures relayed != []
    ensures Rebuilt(relayed, incidentStart) == Some(MacInput(ordered, incidentStart)) <==>
            BaseIsPackable(ordered[0].ev, incidentStart)
  {
    var h, es := ChosenHeader(ordered, incidentStart), Chosen(ordered, incidentStart).wire;
    FirstDeltasZero(ordered, incidentStart);
    RebuiltIffFirstIsBase(h, es, incidentStart, relayed);
  }

  /** A relayed event carries its author's values, but the first event's attribution. */
  lemma RelayedEventsAreTheIncluded(ordered: seq<Loaded>, incidentStart: int, i: nat)
    requires Packable(ordered, incidentStart) && i < |Chosen(ordered, incidentStart).included|
    ensures var c := Chosen(ordered, incidentStart);
            var ev, first := c.included[i].ev, ordered[0].ev;
            && |Relay(ChosenHeader(ordered, incidentStart), c.wire, incidentStart)| == |c.included|
            && Relay(ChosenHeader(ordered, incidentStart), c.wire, incidentStart)[i] ==
               Relayed(first.device, ev.seqNo, ev.payload, Seconds(ev.tDev), ev.responder,
                       first.team, first.agency, first.incident, first.schema)
  {
    SelectWellChosen(ordered, BaseOf(ordered[0].ev, incidentStart));
    hide Select;
    var c := Chosen(ordered, incidentStart);
    assert ToWire(c.included[i].ev, BaseOf(ordered[0].ev, incidentStart)) == Some(c.wire[i]);
  }

  /** The whole path: pack on the phone, decode at the gateway, verify on the server. */
  method PackRelayVerify(rows: seq<Key>, log: map<Key, Event>, incidentStart: int, secret: Option<seq<Octet>>,
                         hmac: (seq<Octet>, seq<Octet>) -> Tag, batchId: int,
                         secrets: map<int, seq<Octet>>, started: map<int, int>)
      returns (packed: Result<Packed>, verified: bool)
    requires 0 <= batchId <= MAX_BATCH_ID
    ensures packed.Ok? ==>
              var ordered := Ordered(rows, log);
              ordered != [] &&
              var first := ordered[0].ev;
              (OneDevice(ordered) && BaseIsPackable(first, incidentStart) &&
               first.device in secrets && Some(secrets[first.device]) == secret &&
               first.incident in started && started[first.incident] == incidentStart
               ==> verified)
  {
    hide Sort, Load, Rebuilt, DecodedBatch, Select, ValidEvents, ValidHeader, HeaderFits, EventsFit, WellChosen;
    packed := PackRows(rows, log, incidentStart, secret, hmac, batchId);
    verified := false;
    if packed.Ok? {
      var batch := SmsCodec.DecodeBatch(packed.value.blob);
      var b := batch.value;
      var relayed := Relay(b.header, b.events, incidentStart);
      verified := VerifyGatewayBatch(true, Some(b.framing.mac), relayed, Some(b.framing.originDeviceId),
                                     secrets, started, hmac);
      ghost var ordered := Ordered(rows, log);
      if OneDevice(ordered) && BaseIsPackable(ordered[0].ev, incidentStart) {
        assert TotalPreorder(SeqLe);
        SortSorts(SeqLe, Load(rows, log));
        ServerRebuildsMacInputIff(ordered, incidentStart, relayed);
        RelayOrder(b.header, b.events, incidentStart, relayed);
      }
    }
  }

  /** A position fix queued before a survivor report, which is what makes the queue go by SMS. */
  function FixThenReport(): (s: seq<Loaded>)
    ensures |s| == 2
  {
    [Loaded(Key(5, 1), Event(5, 1, PositionReported(0, 0, None), 1, 0, 1, 1, 1, 1, 1)),
     Loaded(Key(5, 2), Event(5, 2, SurvivorReported(5, 1, Trapped, None, None, None), 0, 0, 1, 1, 1, 1, 1))]
  }

  lemma FixThenReportChoice()
    ensures Chosen(FixThenReport(), 0).wire == [WireEvent(1, 0, 1, SurvivorReported(5, 1, Trapped, None, None, None))]
  {
    var s := FixThenReport();
    var x, y := s[0], s[1];
    var base := BaseOf(x.ev, 0);
    assert ToWire(x.ev, base) == None;
    assert ToWire(y.ev, base) == Some(WireEvent(1, 0, 1, SurvivorReported(5, 1, Trapped, None, None, None)));
    SelectPair(x, y, base);
    assert s == [x, y];
  }

  lemma SelectPair(x: Loaded, y: Loaded, base: Base)
    requires ToWire(x.ev, base).None? && ToWire(y.ev, base).Some?
    ensures Select([x, y], base).wire == [ToWire(y.ev, base).value]
  {
    hide ToWire;
    assert [x, y][..1] == [x] && [x][..0] == [];
    assert Select([], base) == Choice([], [], []);
    assert SumEventBits([]) == 0;
    assert Select([x], base) == Consider(Select([], base), x, base);
    assert Select([x, y], base) == Consider(Select([x], base), y, base);
  }

  /** The blob is built, but the server cannot rebuild its MAC input. */
  lemma PositionFixFirstBreaksTheMac()
    ensures Packable(FixThenReport(), 0)
    ensures var relayed := Relay(ChosenHeader(FixThenReport(), 0), Chosen(FixThenReport(), 0).wire, 0);
            relayed != [] && Rebuilt(relayed, 0) != Some(MacInput(FixThenReport(), 0))
  {
    var s := FixThenReport();
    FixThenReportChoice();
    hide Select, Rebuilt, MacInput;
    var es := Chosen(s, 0).wire;
    assert ValidEvents(es[1..], 1);
    ServerRebuildsMacInputIff(s, 0, Relay(ChosenHeader(s, 0), es, 0));
  }
}
