/**
 Choosing which outbox rows go into one SMS batch, and building the blob.
 */
module SmsBatchEncoder {
  import opened BitStrings
  import opened Results
  import opened Domain
  import opened Wire
  import opened WireParse
  import opened WireLayout
  import opened Sorting
  import SmsCodec

  /** The leading four bytes of an HMAC. */
  type Tag = s: seq<Octet> | |s| == MAC_BYTES witness [0, 0, 0, 0]

  datatype Reason = BatchFull | NotRepresentable | NoRoom

  datatype Excluded = Excluded(row: Key, reason: Reason)

  datatype Packed = Packed(blob: seq<Octet>, included: seq<Key>, excluded: seq<Excluded>)

  /** An outbox row with its event from the local log. */
  datatype Loaded = Loaded(row: Key, ev: Event)

  const MIN_EVENT_BITS := 35
  const BUDGET_BITS := MAX_BATCH_BYTES * 8

  /** The rows whose event is in the local log. */
  function Load(rows: seq<Key>, log: map<Key, Event>): (s: seq<Loaded>)
    ensures forall x :: x in s ==> x.row in log && x.ev == log[x.row] && x.row in rows
  {
    if rows == [] then []
    else (if rows[0] in log then [Loaded(rows[0], log[rows[0]])] else []) + Load(rows[1..], log)
  }

  predicate SeqLe(a: Loaded, b: Loaded) {
    a.ev.seqNo <= b.ev.seqNo
  }

  function BaseT(first: Event, incidentStart: int): int {
    var t := Seconds(first.tDev) - incidentStart;
    if t >= 0 then t else 0
  }

  /** Where a batch starts counting from: its first loaded event. */
  datatype Base = Base(seqNo: int, t: int, incidentStart: int)

  function BaseOf(first: Event, incidentStart: int): Base {
    Base(first.seqNo, BaseT(first, incidentStart), incidentStart)
  }

  /** The wire form of an event, or none when a delta or the type has no representation. */
  function ToWire(ev: Event, base: Base): Option<WireEvent> {
    var sd := ev.seqNo - base.seqNo;
    var td := Seconds(ev.tDev) - base.incidentStart - base.t;
    if 0 <= sd <= MAX_SEQ_DELTA && 0 <= td <= MAX_T_DELTA && ev.payload.SmsEligible()
    then Some(WireEvent(sd, td, ev.responder, ev.payload)) else None
  }

  // ------------------------------------------------------------ the selection

  datatype Choice = Choice(wire: seq<WireEvent>, included: seq<Loaded>, excluded: seq<(Loaded, Reason)>)

  function UsedBits(wire: seq<WireEvent>): nat {
    FIXED_OVERHEAD_BITS + SumEventBits(wire)
  }

  /** One row of the greedy pass. */
  function Consider(c: Choice, x: Loaded, base: Base): Choice {
    if |c.wire| >= MAX_EVENT_COUNT then c.(excluded := c.excluded + [(x, BatchFull)]) else
    match ToWire(x.ev, base)
    case None => c.(excluded := c.excluded + [(x, NotRepresentable)])
    case Some(we) =>
      if UsedBits(c.wire) + EventBits(we) > BUDGET_BITS then c.(excluded := c.excluded + [(x, NoRoom)])
      else Choice(c.wire + [we], c.included + [x], c.excluded)
  }

  lemma OneEventFits(we: Option<WireEvent>)
    ensures we.Some? ==> FIXED_OVERHEAD_BITS + EventBits(we.value) <= BUDGET_BITS
  {
  }

  function Select(ordered: seq<Loaded>, base: Base): Choice {
    if ordered == [] then Choice([], [], [])
    else Consider(Select(ordered[..|ordered| - 1], base), ordered[|ordered| - 1], base)
  }

  function ExcludedRows(xs: seq<(Loaded, Reason)>): (s: seq<Loaded>)
    ensures |s| == |xs|
  {
    seq(|xs|, i requires 0 <= i < |xs| => xs[i].0)
  }

  lemma {:induction false} SumSnoc(es: seq<WireEvent>, e: WireEvent)
    ensures SumEventBits(es + [e]) == SumEventBits(es) + EventBits(e)
  {
    if es != [] {
      SumSnoc(es[1..], e);
      assert (es + [e])[1..] == es[1..] + [e];
    } else {
      assert [e][1..] == [];
    }
  }

  lemma {:induction false} SumAtLeast(es: seq<WireEvent>)
    ensures SumEventBits(es) >= MIN_EVENT_BITS * |es|
  {
    if es == [] {
    } else {
      SumAtLeast(es[1..]);
    }
  }

  /** No batch within the budget has more than 22 events, so the 5-bit count never binds. */
  lemma BudgetBoundsCount(es: seq<WireEvent>)
    requires UsedBits(es) <= BUDGET_BITS
    ensures |es| <= 22 < MAX_EVENT_COUNT
  {
    SumAtLeast(es);
  }

  /** Why a row was left out, and that the reason still stands for the final batch. */
  ghost predicate RightlyExcluded(x: (Loaded, Reason), wire: seq<WireEvent>, base: Base) {
    match x.1
    case BatchFull => false
    case NotRepresentable => ToWire(x.0.ev, base).None?
    case NoRoom => ToWire(x.0.ev, base).Some? &&
                   UsedBits(wire) + EventBits(ToWire(x.0.ev, base).value) > BUDGET_BITS
  }

  /** Everything the greedy pass guarantees about its result. */
  ghost predicate WellChosen(c: Choice, ordered: seq<Loaded>, base: Base) {
    && UsedBits(c.wire) <= BUDGET_BITS
    && |c.wire| == |c.included|
    && (forall i :: 0 <= i < |c.wire| ==> ToWire(c.included[i].ev, base) == Some(c.wire[i]))
    && multiset(ordered) == multiset(c.included) + multiset(ExcludedRows(c.excluded))
    && (forall x :: x in c.excluded ==> RightlyExcluded(x, c.wire, base))
  }

  /**
   Included and excluded rows partition the candidates; the budget holds; a row left
   out for space still would not fit at the end; the count limit is never the reason.
   */
  lemma {:induction false} SelectWellChosen(ordered: seq<Loaded>, base: Base)
    ensures WellChosen(Select(ordered, base), ordered, base)
  {
    hide ToWire, EventBits, WellChosen, Consider;
    if ordered == [] {
      EmptyWellChosen(base);
    } else {
      var front, x := ordered[..|ordered| - 1], ordered[|ordered| - 1];
      SelectWellChosen(front, base);
      ConsiderWellChosen(Select(front, base), front, x, base);
      assert ordered == front + [x];
    }
  }

  lemma EmptyWellChosen(base: Base)
    ensures WellChosen(Choice([], [], []), [], base)
  {
    assert SumEventBits([]) == 0;
  }

  lemma ConsiderWellChosen(c: Choice, front: seq<Loaded>, x: Loaded, base: Base)
    requires WellChosen(c, front, base)
    ensures WellChosen(Consider(c, x, base), front + [x], base)
  {
    hide ToWire, EventBits, SumEventBits;
    BudgetBoundsCount(c.wire);
    match ToWire(x.ev, base)
    case None =>
      LeaveOut(c, front, (x, NotRepresentable), base);
    case Some(we) =>
      if UsedBits(c.wire) + EventBits(we) > BUDGET_BITS {
        LeaveOut(c, front, (x, NoRoom), base);
      } else {
        SumSnoc(c.wire, we);
        TakeIn(c, front, x, we, base);
      }
  }

  lemma LeaveOut(c: Choice, front: seq<Loaded>, x: (Loaded, Reason), base: Base)
    requires WellChosen(c, front, base) && RightlyExcluded(x, c.wire, base)
    ensures WellChosen(c.(excluded := c.excluded + [x]), front + [x.0], base)
  {
    hide ToWire, EventBits, SumEventBits, RightlyExcluded;
    ExcludedSnoc(c.excluded, x);
  }

  lemma TakeIn(c: Choice, front: seq<Loaded>, x: Loaded, we: WireEvent, base: Base)
    requires WellChosen(c, front, base) && ToWire(x.ev, base) == Some(we)
    requires UsedBits(c.wire) <= UsedBits(c.wire + [we]) <= BUDGET_BITS
    ensures WellChosen(Choice(c.wire + [we], c.included + [x], c.excluded), front + [x], base)
  {
    hide ToWire, EventBits, SumEventBits;
  }

  lemma ExcludedSnoc(xs: seq<(Loaded, Reason)>, x: (Loaded, Reason))
    ensures ExcludedRows(xs + [x]) == ExcludedRows(xs) + [x.0]
  {
  }

  ghost predicate Subsequence<T>(a: seq<T>, b: seq<T>) {
    if a == [] then true
    else if b == [] then false
    else if a[|a| - 1] == b[|b| - 1] && Subsequence(a[..|a| - 1], b[..|b| - 1]) then true
    else Subsequence(a, b[..|b| - 1])
  }

  /** Nothing is reordered: the included rows keep the order of the candidates. */
  lemma {:induction false} SelectKeepsOrder(ordered: seq<Loaded>, base: Base)
    ensures Subsequence(Select(ordered, base).included, ordered)
  {
    if ordered == [] {
    } else {
      var front, x := ordered[..|ordered| - 1], ordered[|ordered| - 1];
      SelectKeepsOrder(front, base);
      var inc := Select(front, base).included;
      assert (inc + [x])[..|inc|] == inc;
    }
  }

  lemma {:induction false} SubsequenceSorted<T>(le: (T, T) -> bool, a: seq<T>, b: seq<T>)
    requires Subsequence(a, b) && Sorted(le, b)
    ensures Sorted(le, a) && forall x :: x in a ==> x in b
    decreases |b|
  {
    if a != [] && b != [] {
      var a', b' := a[..|a| - 1], b[..|b| - 1];
      if a[|a| - 1] == b[|b| - 1] && Subsequence(a', b') {
        SubsequenceSorted(le, a', b');
        forall i | 0 <= i < |a'| ensures le(a[i], a[|a| - 1]) {
          assert a'[i] in b';
          var j :| 0 <= j < |b'| && b'[j] == a[i];
        }
        forall i, j | 0 <= i < j < |a'| ensures le(a[i], a[j]) {
          assert le(a'[i], a'[j]);
        }
        forall x | x in a ensures x in b {
          assert x in a' || x == a[|a| - 1];
        }
      } else {
        SubsequenceSorted(le, a, b');
      }
    }
  }

  /** When an event has a form counting from the first one, and what it is. */
  lemma FormExact(ev: Event, first: Event, incidentStart: int)
    ensures var from := if Seconds(first.tDev) >= incidentStart then Seconds(first.tDev) else incidentStart;
            ToWire(ev, BaseOf(first, incidentStart)) ==
            if first.seqNo <= ev.seqNo <= first.seqNo + 63 && from <= Seconds(ev.tDev) <= from + 4095
               && (ev.payload.CellStatusReported? || ev.payload.SurvivorReported? || ev.payload.ResourceDeltaReported?
                   || ev.payload.TeamStatusReported?)
            then Some(WireEvent(ev.seqNo - first.seqNo, Seconds(ev.tDev) - from, ev.responder, ev.payload)) else None
  {
    hide Seconds;
  }

  // ------------------------------------------------------------------- packing

  /** The batch a successful `Pack` builds. */
  function HeaderFor(first: Event, base: Base, count: nat): BatchHeader {
    BatchHeader(PROTO_VERSION, first.device, first.team, first.agency, first.incident, first.schema,
                base.seqNo, base.t, count)
  }

  function Ordered(rows: seq<Key>, log: map<Key, Event>): seq<Loaded> {
    Sort(SeqLe, Load(rows, log))
  }

  /** The selection `Pack` makes among the loaded rows; its first row fixes the base. */
  function Chosen(ordered: seq<Loaded>, incidentStart: int): Choice
    requires ordered != []
  {
    Select(ordered, BaseOf(ordered[0].ev, incidentStart))
  }

  function ChosenHeader(ordered: seq<Loaded>, incidentStart: int): BatchHeader
    requires ordered != []
  {
    HeaderFor(ordered[0].ev, BaseOf(ordered[0].ev, incidentStart), |Chosen(ordered, incidentStart).wire|)
  }

  /** When `Pack` gives a blob: every other case raises an exception. */
  predicate Packable(ordered: seq<Loaded>, incidentStart: int) {
    && ordered != []
    && BaseT(ordered[0].ev, incidentStart) <= MAX_BASE_T
    && var c := Chosen(ordered, incidentStart);
       c.wire != [] && ValidHeader(ChosenHeader(ordered, incidentStart), |c.wire|) && ValidEvents(c.wire, -1)
  }

  /** The message of a packed queue: attribution, lowest `seq` and start from its first row, then the included events. */
  lemma MessageExact(ordered: seq<Loaded>, incidentStart: int)
    requires ordered != []
    ensures var first, c, h := ordered[0].ev, Chosen(ordered, incidentStart), ChosenHeader(ordered, incidentStart);
            var from := if Seconds(first.tDev) >= incidentStart then Seconds(first.tDev) else incidentStart;
            && h.protoVersion == 1 && h.deviceId == first.device && h.teamId == first.team && h.agencyId == first.agency
            && h.incidentId == first.incident && h.schemaVersion == first.schema && h.baseSeq == first.seqNo
            && h.baseT == from - incidentStart && h.eventCount == |c.included| == |c.wire|
            && (forall i :: 0 <= i < |c.wire| ==>
                  var ev := c.included[i].ev;
                  && c.wire[i].seqDelta == ev.seqNo - first.seqNo && c.wire[i].tDelta == Seconds(ev.tDev) - from
                  && c.wire[i].responderId == ev.responder && c.wire[i].payload == ev.payload)
  {
    var c := Chosen(ordered, incidentStart);
    SelectWellChosen(ordered, BaseOf(ordered[0].ev, incidentStart));
    forall i | 0 <= i < |c.wire|
      ensures ToWire(c.included[i].ev, BaseOf(ordered[0].ev, incidentStart)) == Some(c.wire[i])
    {
    }
    forall i | 0 <= i < |c.wire| {
      FormExact(c.included[i].ev, ordered[0].ev, incidentStart);
    }
    hide Select, ToWire, WellChosen, Seconds;
  }

  function FramingFor(batchId: int, device: int, tag: Tag): Framing {
    Framing(batchId, 1, 1, device, tag)
  }

  /** The bytes the device's MAC covers. */
  function MacInput(ordered: seq<Loaded>, incidentStart: int): seq<Octet>
    requires Packable(ordered, incidentStart)
  {
    var c := Chosen(ordered, incidentStart);
    ValidHeaderIff(ChosenHeader(ordered, incidentStart), |c.wire|);
    ValidEventsIff(c.wire, -1);
    Pack(PayloadBits(ChosenHeader(ordered, incidentStart), c.wire))
  }

  /** What is packed climbs by `seq`, and is what the rows' own events in the local log are. */
  lemma IncludedAscend(rows: seq<Key>, log: map<Key, Event>, incidentStart: int)
    requires Ordered(rows, log) != []
    ensures var included := Chosen(Ordered(rows, log), incidentStart).included;
            && Sorted(SeqLe, included)
            && forall x :: x in included ==> x.row in rows && x.row in log && x.ev == log[x.row]
  {
    var ordered := Ordered(rows, log);
    assert TotalPreorder(SeqLe);
    SortSorts(SeqLe, Load(rows, log));
    SameMembers(ordered, Load(rows, log));
    SelectKeepsOrder(ordered, BaseOf(ordered[0].ev, incidentStart));
    hide Select, Subsequence, Sort;
    SubsequenceSorted(SeqLe, Chosen(ordered, incidentStart).included, ordered);
  }

  method PackRows(rows: seq<Key>, log: map<Key, Event>, incidentStart: int, secret: Option<seq<Octet>>,
                  hmac: (seq<Octet>, seq<Octet>) -> Tag, batchId: int) returns (r: Result<Packed>)
    requires 0 <= batchId <= MAX_BATCH_ID
    ensures r.Ok? <==> secret.Some? && secret.value != [] && Packable(Ordered(rows, log), incidentStart)
    ensures r.Ok? ==>
              var ordered := Ordered(rows, log);
              var c := Chosen(ordered, incidentStart);
              && DecodedBatch(r.value.blob) ==
                 Ok(WireBatch(FramingFor(batchId, ordered[0].ev.device, hmac(secret.value, MacInput(ordered, incidentStart))),
                              ChosenHeader(ordered, incidentStart), c.wire))
              && |r.value.blob| <= MAX_BATCH_BYTES
              && |r.value.included| == |c.included|
              && (forall i :: 0 <= i < |c.included| ==> r.value.included[i] == c.included[i].row)
              && |r.value.excluded| == |c.excluded|
              && (forall i :: 0 <= i < |c.excluded| ==>
                    r.value.excluded[i] == Excluded(c.excluded[i].0.row, c.excluded[i].1))
  {
    hide Select, ValidEvents, ValidHeader, SumEventBits, DecodedBatch, Sort, Load, ToWire, HeaderFits, EventsFit, PayloadLayout;
    if secret.None? {
      return Err(Encoding);
    }
    var loaded := Load(rows, log);
    SameMembers(loaded, Sort(SeqLe, loaded));
    if loaded == [] {
      return Err(Encoding);
    }
    var ordered := Sort(SeqLe, loaded);
    var first := ordered[0].ev;
    var baseSeq := first.seqNo;
    var baseT := BaseT(first, incidentStart);
    if baseT > MAX_BASE_T {
      return Err(Encoding);
    }
    var included, excluded, wire := SelectRows(ordered, Base(baseSeq, baseT, incidentStart));
    if wire == [] {
      return Err(Encoding);
    }
    var header := BatchHeader(PROTO_VERSION, first.device, first.team, first.agency, first.incident,
                              first.schema, baseSeq, baseT, |wire|);
    SelectWellChosen(ordered, Base(baseSeq, baseT, incidentStart));
    var macInput :- SmsCodec.EncodePayload(header, wire);
    if secret.value == [] {
      return Err(IllegalArgument);
    }
    var mac := hmac(secret.value, macInput);
    var framing := Framing(batchId, 1, 1, first.device, mac);
    var blob := BuildBlob(framing, header, wire);
    r := Ok(Packed(blob, included, excluded));
  }

  /** The last step: the batch was chosen to fit, so encoding it cannot fail. */
  method BuildBlob(f: Framing, h: BatchHeader, wire: seq<WireEvent>) returns (blob: seq<Octet>)
    requires ValidHeader(h, |wire|) && h.protoVersion == PROTO_VERSION && ValidEvents(wire, -1)
    requires |f.mac| == MAC_BYTES && f.partIndex == f.partTotal == 1 && 0 <= f.batchId <= MAX_BATCH_ID
    requires f.originDeviceId == h.deviceId && UsedBits(wire) <= BUDGET_BITS
    ensures DecodedBatch(blob) == Ok(WireBatch(f, h, wire)) && |blob| <= MAX_BATCH_BYTES
  {
    hide ValidEvents, SumEventBits, DecodedBatch, Blob, EventBits, ValidHeader, BatchLayout;
    ChosenIsTransportable(f, h, wire);
    var encoded := SmsCodec.EncodeBatch(f, h, wire);
    blob := encoded.value;
    DecodesIffEncodes(blob, WireBatch(f, h, wire));
    BatchSizeExact(WireBatch(f, h, wire));
  }

  lemma ChosenIsTransportable(f: Framing, h: BatchHeader, wire: seq<WireEvent>)
    requires ValidHeader(h, |wire|) && h.protoVersion == PROTO_VERSION && ValidEvents(wire, -1)
    requires |f.mac| == MAC_BYTES && f.partIndex == f.partTotal == 1 && 0 <= f.batchId <= MAX_BATCH_ID
    requires f.originDeviceId == h.deviceId && UsedBits(wire) <= BUDGET_BITS
    ensures Transportable(WireBatch(f, h, wire))
  {
  }

  /** The greedy pass over the rows in order. */
  method SelectRows(ordered: seq<Loaded>, base: Base)
      returns (included: seq<Key>, excluded: seq<Excluded>, wire: seq<WireEvent>)
    ensures var c := Select(ordered, base);
            && wire == c.wire
            && |included| == |c.included|
            && (forall k :: 0 <= k < |included| ==> included[k] == c.included[k].row)
            && |excluded| == |c.excluded|
            && (forall k :: 0 <= k < |excluded| ==> excluded[k] == Excluded(c.excluded[k].0.row, c.excluded[k].1))
  {
    included, excluded, wire := [], [], [];
    var usedBits := FIXED_OVERHEAD_BITS;
    for i := 0 to |ordered|
      invariant usedBits == UsedBits(wire)
      invariant wire == Select(ordered[..i], base).wire
      invariant |included| == |Select(ordered[..i], base).included|
      invariant |excluded| == |Select(ordered[..i], base).excluded|
      invariant forall k :: 0 <= k < |included| ==> included[k] == Select(ordered[..i], base).included[k].row
      invariant forall k :: 0 <= k < |excluded| ==>
                  excluded[k] == Excluded(Select(ordered[..i], base).excluded[k].0.row,
                                          Select(ordered[..i], base).excluded[k].1)
    {
      var x := ordered[i];
      ghost var before := Select(ordered[..i], base);
      assert ordered[..i + 1][..i] == ordered[..i];
      assert Select(ordered[..i + 1], base) == Consider(before, x, base);
      hide Select, EventBits, ToWire;
      if |wire| >= MAX_EVENT_COUNT {
        excluded := excluded + [Excluded(x.row, BatchFull)];
      } else {
        var we := ToWire(x.ev, base);
        if we.None? {
          excluded := excluded + [Excluded(x.row, NotRepresentable)];
        } else {
          var cost := EventBits(we.value);
          if usedBits + cost > MAX_BATCH_BYTES * 8 {
            excluded := excluded + [Excluded(x.row, NoRoom)];
          } else {
            SumSnoc(wire, we.value);
            usedBits := usedBits + cost;
            wire := wire + [we.value];
            included := included + [x.row];
          }
        }
      }
    }
    assert ordered[..|ordered|] == ordered;
  }

  /** The cheap trim applied before packing. */
  function Fit(rows: seq<Key>, maxBatchBytes: nat): seq<Key> {
    var capacityBits := maxBatchBytes * 8 - FIXED_OVERHEAD_BITS;
    if rows == [] || capacityBits <= 0 then []
    else
      var maxByBits := capacityBits / MIN_EVENT_BITS;
      var n := if maxByBits < MAX_EVENT_COUNT then maxByBits else MAX_EVENT_COUNT;
      if |rows| <= n then rows else rows[..n]
  }

  /** No batch in budget is longer than the trim; which rows the trim keeps is another matter. */
  lemma NoBatchOutgrowsFit(rows: seq<Key>, es: seq<WireEvent>)
    requires FitsBudget(es) && |es| <= |rows|
    ensures |es| <= |Fit(rows, MAX_BATCH_BYTES)|
  {
    SumAtLeast(es);
  }
}
