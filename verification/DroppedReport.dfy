/**
 A queue on a phone whose trim drops a report the batch had room for.  The survivor report
 is the newest of its rows and drains first, so the trim keeps no prefix of the `seq` order.
 */
module DroppedReport {
  import opened Results
  import opened Domain
  import opened Wire
  import opened Sorting
  import opened FieldStore
  import opened SmsBatchEncoder
  import opened SmsTrim

  const DEVICE := 7
  const FIXES := 21
  const STATUS := 22
  const SURVIVOR := 23

  /** 21 position fixes, then a team status, then a survivor report. */
  function QueuedEvent(i: int): Event {
    var payload := if i == SURVIVOR then SurvivorReported(5, 1, Trapped, None, None, None)
                   else if i == STATUS then TeamStatusReported(Active) else PositionReported(0, 0, None);
    Event(DEVICE, i, payload, if i == SURVIVOR then 0 else 1, 1_000 * i, 1, 1, 1, 1, 1)
  }

  /** The drain order: the survivor report, then the others as they were queued. */
  function QueuedRows(): (rows: seq<Key>)
    ensures |rows| == SURVIVOR && rows[0] == Key(DEVICE, SURVIVOR)
    ensures forall i :: 1 <= i < SURVIVOR ==> rows[i] == Key(DEVICE, i)
  {
    seq(SURVIVOR, i => Key(DEVICE, if i == 0 then SURVIVOR else i))
  }

  function QueuedLog(): map<Key, Event> {
    map i | 1 <= i <= SURVIVOR :: Key(DEVICE, i) := QueuedEvent(i)
  }

  function QueuedPhone(): Phone {
    Phone(map i | 1 <= i <= SURVIVOR :: Key(DEVICE, i) := LocalEvent(QueuedEvent(i), None),
          map i | 1 <= i <= SURVIVOR :: Key(DEVICE, i) := OutboxRow(PENDING, i == SURVIVOR, 0, None, None, i, None),
          map[DEVICE := SURVIVOR + 1], None)
  }

  // ------------------------------------------------------------- the select

  /** They are what the SELECT with its default limit returns. */
  lemma QueuedIsNextBatch()
    ensures NextBatch(QueuedPhone(), 0, 50, QueuedRows())
  {
    hide QueuedPhone, QueuedRows, Sendable, DrainsBefore, NextBatch;
    QueuedOutbox();
    QueuedAllWait();
    QueuedAllDrain();
    AllIsNextBatch(QueuedPhone(), 0, 50, QueuedRows());
  }

  lemma QueuedAllWait()
    ensures forall i :: 0 <= i < SURVIVOR ==> Sendable(QueuedPhone(), QueuedRows()[i], 0)
  {
    hide QueuedPhone, QueuedRows, Sendable;
    forall i | 0 <= i < SURVIVOR ensures Sendable(QueuedPhone(), QueuedRows()[i], 0) {
      QueuedRowWaits(if i == 0 then SURVIVOR else i);
    }
  }

  lemma QueuedAllDrain()
    ensures forall i, j :: 0 <= i < j < SURVIVOR ==>
              QueuedRows()[i] != QueuedRows()[j] && DrainsBefore(QueuedPhone(), QueuedRows()[i], QueuedRows()[j])
  {
    hide QueuedPhone, QueuedRows, DrainsBefore;
    forall i, j | 0 <= i < j < SURVIVOR
      ensures QueuedRows()[i] != QueuedRows()[j] && DrainsBefore(QueuedPhone(), QueuedRows()[i], QueuedRows()[j])
    {
      QueuedDrains(if i == 0 then SURVIVOR else i, j);
    }
  }

  lemma AllIsNextBatch(p: Phone, now: int, limit: nat, keys: seq<Key>)
    requires |keys| <= limit
    requires forall i :: 0 <= i < |keys| ==> Sendable(p, keys[i], now)
    requires forall i, j :: 0 <= i < j < |keys| ==> keys[i] != keys[j] && DrainsBefore(p, keys[i], keys[j])
    requires forall k :: k in p.outbox ==> k in keys
    ensures NextBatch(p, now, limit, keys)
  {
    hide Sendable, DrainsBefore;
  }

  lemma QueuedOutbox()
    ensures forall k :: k in QueuedPhone().outbox ==> k in QueuedRows()
  {
    hide QueuedRows;
    forall k | k in QueuedPhone().outbox ensures k in QueuedRows() {
      assert QueuedRows()[if k.seqNo == SURVIVOR then 0 else k.seqNo] == k;
    }
  }

  lemma QueuedRowWaits(i: int)
    requires 1 <= i <= SURVIVOR
    ensures Sendable(QueuedPhone(), Key(DEVICE, i), 0)
  {
  }

  lemma QueuedDrains(i: int, j: int)
    requires i == SURVIVOR || 1 <= i < j
    requires 1 <= j < SURVIVOR
    ensures DrainsBefore(QueuedPhone(), Key(DEVICE, i), Key(DEVICE, j))
  {
  }

  // ---------------------------------------------------------- loading and order

  function QueuedLoaded(i: int): Loaded {
    Loaded(Key(DEVICE, i), QueuedEvent(i))
  }

  /** The fixes, in `seq` order. */
  function Fixes(): (s: seq<Loaded>)
    ensures |s| == FIXES && forall i :: 0 <= i < FIXES ==> s[i] == QueuedLoaded(i + 1)
  {
    seq(FIXES, i => QueuedLoaded(i + 1))
  }

  lemma {:induction false} LoadsAs(rows: seq<Key>, log: map<Key, Event>, s: seq<Loaded>)
    requires |s| == |rows| && forall i :: 0 <= i < |rows| ==> rows[i] in log && s[i] == Loaded(rows[i], log[rows[i]])
    ensures Load(rows, log) == s
  {
    if rows == [] {
    } else {
      LoadsAs(rows[1..], log, s[1..]);
      assert rows == [rows[0]] + rows[1..] && s == [s[0]] + s[1..];
      LoadCons(rows[0], rows[1..], log);
    }
  }

  lemma QueuedLogHas()
    ensures forall i :: 1 <= i <= SURVIVOR ==> Key(DEVICE, i) in QueuedLog() && QueuedLog()[Key(DEVICE, i)] == QueuedEvent(i)
  {
    hide QueuedEvent;
  }

  /** The queue, its rows loaded in drain order. */
  function QueuedDrain(): (s: seq<Loaded>)
    ensures |s| == SURVIVOR && s[0] == QueuedLoaded(SURVIVOR)
    ensures forall i :: 1 <= i < SURVIVOR ==> s[i] == QueuedLoaded(i)
  {
    seq(SURVIVOR, i => QueuedLoaded(if i == 0 then SURVIVOR else i))
  }

  lemma QueuedRowLoads(i: int)
    requires 0 <= i < SURVIVOR
    ensures var k := QueuedRows()[i]; k in QueuedLog() && QueuedDrain()[i] == Loaded(k, QueuedLog()[k])
  {
    hide QueuedEvent, QueuedRows, QueuedLog, QueuedDrain;
    QueuedLogHas();
  }

  lemma QueuedLoads()
    ensures Load(QueuedRows(), QueuedLog()) == QueuedDrain()
    ensures Load(QueuedRows()[..TRIM], QueuedLog()) == QueuedDrain()[..TRIM]
  {
    hide QueuedRows, QueuedLog, QueuedDrain, Load;
    forall i | 0 <= i < SURVIVOR
      ensures QueuedRows()[i] in QueuedLog() && QueuedDrain()[i] == Loaded(QueuedRows()[i], QueuedLog()[QueuedRows()[i]])
    {
      QueuedRowLoads(i);
    }
    LoadsAs(QueuedRows(), QueuedLog(), QueuedDrain());
    LoadsAs(QueuedRows()[..TRIM], QueuedLog(), QueuedDrain()[..TRIM]);
  }

  lemma DrainParts()
    ensures QueuedDrain() == [QueuedLoaded(SURVIVOR)] + Fixes() + [QueuedLoaded(STATUS)]
    ensures QueuedDrain()[..TRIM] == [QueuedLoaded(SURVIVOR)] + Fixes()
  {
    hide QueuedLoaded, Fixes, QueuedDrain;
  }

  lemma StrictlyAscends(s: seq<Loaded>)
    requires forall i, j :: 0 <= i < j < |s| ==> s[i].ev.seqNo < s[j].ev.seqNo
    ensures Sorted(SeqLe, s) && NoTies(SeqLe, s)
  {
  }

  lemma QueuedSeqs()
    ensures forall i :: QueuedLoaded(i).ev.seqNo == i
  {
  }

  /** A row moved from the end of an ascending list to its front is sorted back. */
  lemma SortsBack(s: seq<Loaded>, x: Loaded)
    requires forall i, j :: 0 <= i < j < |s| ==> s[i].ev.seqNo < s[j].ev.seqNo
    requires forall y :: y in s ==> y.ev.seqNo < x.ev.seqNo
    ensures Sort(SeqLe, [x] + s) == s + [x]
  {
    assert TotalPreorder(SeqLe);
    StrictlyAscends(s + [x]);
    hide Sort, SeqLe, Sorted, NoTies, TotalPreorder;
    SortRecovers(SeqLe, s + [x], [x] + s);
  }

  lemma FixesAscend()
    ensures var s := Fixes() + [QueuedLoaded(STATUS)];
            && (forall i, j :: 0 <= i < j < |s| ==> s[i].ev.seqNo < s[j].ev.seqNo)
            && (forall i, j :: 0 <= i < j < FIXES ==> Fixes()[i].ev.seqNo < Fixes()[j].ev.seqNo)
            && (forall y :: y in s ==> y.ev.seqNo < SURVIVOR)
            && (forall y :: y in Fixes() ==> y.ev.seqNo < SURVIVOR)
  {
    hide QueuedLoaded, Fixes;
    QueuedSeqs();
    var s := Fixes() + [QueuedLoaded(STATUS)];
    assert forall i :: 0 <= i < |s| ==> s[i] == QueuedLoaded(i + 1);
  }

  /** All of them in `seq` order, and those the trim keeps: the status, last but one, is missing. */
  lemma QueuedInOrder()
    ensures Ordered(QueuedRows(), QueuedLog()) == Fixes() + [QueuedLoaded(STATUS)] + [QueuedLoaded(SURVIVOR)]
    ensures Ordered(Fit(QueuedRows(), MAX_BATCH_BYTES), QueuedLog()) == Fixes() + [QueuedLoaded(SURVIVOR)]
  {
    hide QueuedEvent, QueuedLoaded, QueuedRows, QueuedLog, Load, Sort, Fit, Fixes, QueuedDrain, SeqLe;
    FitKeepsFirst(QueuedRows());
    QueuedLoads();
    DrainParts();
    DrainSorts();
  }

  lemma DrainSorts()
    ensures Sort(SeqLe, [QueuedLoaded(SURVIVOR)] + Fixes() + [QueuedLoaded(STATUS)]) ==
            Fixes() + [QueuedLoaded(STATUS)] + [QueuedLoaded(SURVIVOR)]
    ensures Sort(SeqLe, [QueuedLoaded(SURVIVOR)] + Fixes()) == Fixes() + [QueuedLoaded(SURVIVOR)]
  {
    hide QueuedLoaded, Sort, Fixes, SeqLe;
    QueuedSeqs();
    FixesAscend();
    var x, status := QueuedLoaded(SURVIVOR), [QueuedLoaded(STATUS)];
    assert [x] + Fixes() + status == [x] + (Fixes() + status);
    SortsBack(Fixes() + status, x);
    SortsBack(Fixes(), x);
  }

  // ----------------------------------------------------------- what is packed

  /** What the two reports pack to, counting from the first fix. */
  const STATUS_WIRE := WireEvent(21, 21, 1, TeamStatusReported(Active))
  const SURVIVOR_WIRE := WireEvent(22, 22, 1, SurvivorReported(5, 1, Trapped, None, None, None))

  lemma QueuedForms(i: int)
    requires 1 <= i <= SURVIVOR
    ensures ToWire(QueuedEvent(i), BaseOf(QueuedEvent(1), 0)) ==
            if i == SURVIVOR then Some(SURVIVOR_WIRE) else if i == STATUS then Some(STATUS_WIRE) else None
  {
  }

  lemma WireSizes()
    ensures UsedBits([]) == 157 && EventBits(SURVIVOR_WIRE) == 57 && EventBits(STATUS_WIRE) == 35
    ensures UsedBits([STATUS_WIRE]) == 192 && UsedBits([STATUS_WIRE, SURVIVOR_WIRE]) == 249
  {
    assert SumEventBits([]) == 0;
    SumSnoc([], STATUS_WIRE);
    SumSnoc([STATUS_WIRE], SURVIVOR_WIRE);
    assert [] + [STATUS_WIRE] == [STATUS_WIRE] && [STATUS_WIRE] + [SURVIVOR_WIRE] == [STATUS_WIRE, SURVIVOR_WIRE];
  }

  lemma FixesPackToNothing()
    ensures Select(Fixes(), BaseOf(QueuedEvent(1), 0)).wire == []
  {
    hide QueuedEvent, ToWire, Select, BaseOf, Fixes;
    forall x | x in Fixes() ensures ToWire(x.ev, BaseOf(QueuedEvent(1), 0)).None? {
      var i :| 0 <= i < FIXES && Fixes()[i] == x;
      QueuedForms(i + 1);
    }
    SelectNonEmptyIff(Fixes(), BaseOf(QueuedEvent(1), 0));
  }

  lemma QueuedSelection()
    ensures var base := BaseOf(QueuedEvent(1), 0);
            && Select(Fixes() + [QueuedLoaded(SURVIVOR)], base).wire == [SURVIVOR_WIRE]
            && Select(Fixes() + [QueuedLoaded(STATUS)] + [QueuedLoaded(SURVIVOR)], base).wire == [STATUS_WIRE, SURVIVOR_WIRE]
  {
    hide QueuedEvent, ToWire, Select, UsedBits, BaseOf, Fixes, EventBits;
    var base := BaseOf(QueuedEvent(1), 0);
    FixesPackToNothing();
    WireSizes();
    QueuedForms(STATUS);
    QueuedForms(SURVIVOR);
    SelectSnoc(Fixes(), QueuedLoaded(SURVIVOR), base);
    SelectSnoc(Fixes(), QueuedLoaded(STATUS), base);
    SelectSnoc(Fixes() + [QueuedLoaded(STATUS)], QueuedLoaded(SURVIVOR), base);
    assert [] + [STATUS_WIRE] == [STATUS_WIRE] && [STATUS_WIRE] + [SURVIVOR_WIRE] == [STATUS_WIRE, SURVIVOR_WIRE];
    assert [] + [SURVIVOR_WIRE] == [SURVIVOR_WIRE];
  }

  /**
   The trim drops the team status although the batch has more than 700 bits to spare:
   untrimmed, the same queue packs both reports.  Both count from the same fix.
   */
  lemma TrimDropsAReport()
    ensures var rows := QueuedRows();
            var all, kept := Ordered(rows, QueuedLog()), Ordered(Fit(rows, MAX_BATCH_BYTES), QueuedLog());
            && kept != [] && all != [] && kept[0] == all[0]
            && Chosen(kept, 0).wire == [SURVIVOR_WIRE]
            && Chosen(all, 0).wire == [STATUS_WIRE, SURVIVOR_WIRE]
            && UsedBits([STATUS_WIRE, SURVIVOR_WIRE]) + 700 <= BUDGET_BITS
  {
    hide Ordered, QueuedEvent, Select, QueuedLog, UsedBits, Fit, BaseOf;
    QueuedInOrder();
    QueuedSelection();
    WireSizes();
    assert (Fixes() + [QueuedLoaded(SURVIVOR)])[0] == Fixes()[0] == QueuedLoaded(1);
    assert (Fixes() + [QueuedLoaded(STATUS)] + [QueuedLoaded(SURVIVOR)])[0] == QueuedLoaded(1);
  }
}
