/**
 What the trim before packing costs.  It keeps the first 22 rows of the drain order
 before anyone knows which of them have an SMS form, and the packer then measures every
 row from the lowest `seq` among them.
 */
module SmsTrim {
  import opened Results
  import opened Domain
  import opened Wire
  import opened WireLayout
  import opened Sorting
  import opened SmsBatchEncoder

  const TRIM := 22

  lemma FitKeepsFirst(rows: seq<Key>)
    ensures Fit(rows, MAX_BATCH_BYTES) == if |rows| <= TRIM then rows else rows[..TRIM]
  {
    assert (MAX_BATCH_BYTES * 8 - FIXED_OVERHEAD_BITS) / MIN_EVENT_BITS == TRIM;
  }

  // ----------------------------------------------------- when anything is packed

  lemma {:induction false} SelectNonEmptyIff(ordered: seq<Loaded>, base: Base)
    ensures Select(ordered, base).wire != [] <==> exists x :: x in ordered && ToWire(x.ev, base).Some?
  {
    hide ToWire;
    if ordered == [] {
    } else {
      var front, x := ordered[..|ordered| - 1], ordered[|ordered| - 1];
      SelectNonEmptyIff(front, base);
      assert ordered == front + [x];
      hide EventBits;
      OneEventFits(ToWire(x.ev, base));
      ConsiderNeverShrinks(Select(front, base), x, base);
    }
  }

  lemma ConsiderNeverShrinks(c: Choice, x: Loaded, base: Base)
    ensures Consider(c, x, base).wire == c.wire ||
            (ToWire(x.ev, base).Some? && Consider(c, x, base).wire == c.wire + [ToWire(x.ev, base).value])
    ensures (c.wire == [] && ToWire(x.ev, base).Some?
             && FIXED_OVERHEAD_BITS + EventBits(ToWire(x.ev, base).value) <= BUDGET_BITS) ==>
              Consider(c, x, base).wire != []
  {
    hide ToWire, EventBits;
    assert SumEventBits([]) == 0;
  }

  /**
   The trimmed queue gives a batch exactly when one of its loaded rows can be represented
   counting from the lowest `seq` among them; otherwise packing raises an exception.
   */
  lemma TrimmedQueuePacksIff(rows: seq<Key>, log: map<Key, Event>, incidentStart: int)
    ensures var kept := Ordered(if |rows| <= TRIM then rows else rows[..TRIM], log);
            Ordered(Fit(rows, MAX_BATCH_BYTES), log) == kept &&
            (kept != [] ==>
               (Chosen(kept, incidentStart).wire != [] <==>
                  exists x :: x in kept && ToWire(x.ev, BaseOf(kept[0].ev, incidentStart)).Some?))
  {
    FitKeepsFirst(rows);
    var kept := Ordered(Fit(rows, MAX_BATCH_BYTES), log);
    hide Ordered, Select, ToWire;
    if kept != [] {
      SelectNonEmptyIff(kept, BaseOf(kept[0].ev, incidentStart));
    }
  }

  /** A trimmed queue of which no row can be represented gives no batch, whatever follows it. */
  lemma NothingPackable(rows: seq<Key>, log: map<Key, Event>, incidentStart: int)
    requires var kept := Ordered(Fit(rows, MAX_BATCH_BYTES), log);
             kept != [] && forall x :: x in kept ==> ToWire(x.ev, BaseOf(kept[0].ev, incidentStart)).None?
    ensures !Packable(Ordered(Fit(rows, MAX_BATCH_BYTES), log), incidentStart)
  {
    TrimmedQueuePacksIff(rows, log, incidentStart);
    hide Ordered, Select, ToWire;
  }

  // ----------------------------------------------------------- what the trim costs

  /** The row has a form and would fit beside what is packed. */
  predicate FitsBeside(x: Loaded, wire: seq<WireEvent>, base: Base) {
    ToWire(x.ev, base).Some? && UsedBits(wire) + EventBits(ToWire(x.ev, base).value) <= BUDGET_BITS
  }

  lemma ConsiderTakesIff(c: Choice, x: Loaded, base: Base)
    requires UsedBits(c.wire) <= BUDGET_BITS
    ensures Consider(c, x, base).wire == if FitsBeside(x, c.wire, base) then c.wire + [ToWire(x.ev, base).value] else c.wire
    ensures Consider(c, x, base).included == if FitsBeside(x, c.wire, base) then c.included + [x] else c.included
  {
    hide ToWire, EventBits, SumEventBits;
    BudgetBoundsCount(c.wire);
  }

  lemma SelectSnoc(front: seq<Loaded>, x: Loaded, base: Base)
    ensures var c := Select(front, base);
            && UsedBits(c.wire) <= BUDGET_BITS
            && Select(front + [x], base).wire ==
               (if FitsBeside(x, c.wire, base) then c.wire + [ToWire(x.ev, base).value] else c.wire)
            && Select(front + [x], base).included == if FitsBeside(x, c.wire, base) then c.included + [x] else c.included
  {
    SelectWellChosen(front, base);
    assert (front + [x])[..|front|] == front;
    assert Select(front + [x], base) == Consider(Select(front, base), x, base);
    hide Select, FitsBeside, Consider, ToWire, SumEventBits;
    ConsiderTakesIff(Select(front, base), x, base);
  }

  function KeptBy(rows: seq<Key>): Loaded -> bool {
    (x: Loaded) => x.row in rows
  }

  lemma {:induction false} LoadConcat(a: seq<Key>, b: seq<Key>, log: map<Key, Event>)
    ensures Load(a + b, log) == Load(a, log) + Load(b, log)
  {
    if a == [] {
      assert a + b == b;
    } else {
      hide *;
      var k, rest := a[0], a[1..];
      LoadConcat(rest, b, log);
      assert a == [k] + rest && a + b == [k] + (rest + b);
      LoadCons(k, rest, log);
      LoadCons(k, rest + b, log);
      Associative(Load([k], log), Load(rest, log), Load(b, log));
    }
  }

  lemma LoadCons(k: Key, rows: seq<Key>, log: map<Key, Event>)
    ensures Load([k] + rows, log) == Load([k], log) + Load(rows, log)
  {
    assert ([k] + rows)[1..] == rows && [k][1..] == [];
  }

  lemma Associative<T>(a: seq<T>, b: seq<T>, c: seq<T>)
    ensures a + (b + c) == (a + b) + c
  {
  }

  lemma {:induction false} WhereAll<T>(keep: T -> bool, s: seq<T>)
    requires forall x :: x in s ==> keep(x)
    ensures Where(keep, s) == s
  {
    if s == [] {
    } else {
      WhereAll(keep, s[1..]);
    }
  }

  lemma {:induction false} WhereNone<T>(keep: T -> bool, s: seq<T>)
    requires forall x :: x in s ==> !keep(x)
    ensures Where(keep, s) == []
  {
    if s == [] {
    } else {
      WhereNone(keep, s[1..]);
    }
  }

  ghost predicate AllIn<T>(a: seq<T>, b: seq<T>) {
    forall x :: x in a ==> x in b
  }

  ghost predicate Distinct<T>(s: seq<T>) {
    forall i, j :: 0 <= i < j < |s| ==> s[i] != s[j]
  }

  lemma HalvesDisjoint<T>(a: seq<T>, b: seq<T>)
    requires Distinct(a + b)
    ensures forall x :: x in b ==> x !in a
  {
    forall x | x in b ensures x !in a {
      var j :| 0 <= j < |b| && b[j] == x;
      assert (a + b)[|a| + j] == x;
      assert forall i :: 0 <= i < |a| ==> (a + b)[i] == a[i];
    }
  }

  lemma LoadKept(a: seq<Key>, b: seq<Key>, log: map<Key, Event>)
    requires Distinct(a + b)
    ensures Load(a, log) == Where(KeptBy(a), Load(a + b, log))
  {
    hide Load, Where;
    LoadConcat(a, b, log);
    WhereConcat(KeptBy(a), Load(a, log), Load(b, log));
    WhereAll(KeptBy(a), Load(a, log));
    HalvesDisjoint(a, b);
    WhereNone(KeptBy(a), Load(b, log));
  }

  /** Trimming the drain order picks rows out of the `seq` order; in general it does not cut it. */
  lemma TrimPicks(rows: seq<Key>, log: map<Key, Event>)
    requires Distinct(rows)
    ensures var fit := Fit(rows, MAX_BATCH_BYTES);
            Ordered(fit, log) == Where(KeptBy(fit), Ordered(rows, log))
  {
    FitKeepsFirst(rows);
    hide Load, Where, Fit, Sort;
    var fit := Fit(rows, MAX_BATCH_BYTES);
    var rest := if |rows| <= TRIM then [] else rows[TRIM..];
    assert fit + rest == rows;
    LoadKept(fit, rest, log);
    assert TotalPreorder(SeqLe);
    SortWhere(SeqLe, KeptBy(fit), Load(rows, log));
  }

  lemma {:induction false} LoadDistinct(rows: seq<Key>, log: map<Key, Event>)
    requires Distinct(rows)
    ensures Distinct(Load(rows, log))
  {
    if rows == [] {
    } else {
      assert forall i, j :: 0 <= i < j < |rows[1..]| ==> rows[1..][i] != rows[1..][j];
      LoadDistinct(rows[1..], log);
      assert forall x :: x in Load(rows[1..], log) ==> x.row in rows[1..];
      assert rows[0] !in rows[1..];
    }
  }

  lemma OrderedDistinct(rows: seq<Key>, log: map<Key, Event>)
    requires Distinct(rows)
    ensures Distinct(Ordered(rows, log))
  {
    LoadDistinct(rows, log);
    var loaded, ordered := Load(rows, log), Ordered(rows, log);
    hide Load, Sort;
    forall i, j | 0 <= i < j < |ordered| ensures ordered[i] != ordered[j] {
      OnceEach(loaded, ordered[i]);
      if ordered[i] == ordered[j] {
        RepeatsCount(ordered, i, j);
      }
    }
  }

  // ------------------------------------------- two selections among the same rows

  /** Does the pass over the picked rows take the `i`-th row, if it is one of them? */
  ghost predicate TakesAt(keep: Loaded -> bool, s: seq<Loaded>, base: Base, i: nat)
    requires i < |s|
  {
    keep(s[i]) && FitsBeside(s[i], Select(Where(keep, s[..i]), base).wire, base)
  }

  lemma PickSnoc(keep: Loaded -> bool, s: seq<Loaded>)
    requires s != []
    ensures var front, x := s[..|s| - 1], s[|s| - 1];
            Where(keep, s) == if keep(x) then Where(keep, front) + [x] else Where(keep, front)
  {
    var front, x := s[..|s| - 1], s[|s| - 1];
    assert s == front + [x];
    WhereConcat(keep, front, [x]);
    assert [x][1..] == [];
  }

  lemma TakesLast(keep: Loaded -> bool, s: seq<Loaded>, base: Base)
    requires s != []
    ensures var front, x, n := s[..|s| - 1], s[|s| - 1], |s| - 1;
            var before, after := Select(Where(keep, front), base), Select(Where(keep, s), base);
            && UsedBits(before.wire) <= BUDGET_BITS
            && after.wire == (if TakesAt(keep, s, base, n) then before.wire + [ToWire(x.ev, base).value] else before.wire)
            && after.included == if TakesAt(keep, s, base, n) then before.included + [x] else before.included
  {
    PickSnoc(keep, s);
    hide Where, Select, FitsBeside, ToWire, UsedBits;
    SelectSnoc(Where(keep, s[..|s| - 1]), s[|s| - 1], base);
  }

  lemma GrowsByPicked(keep: Loaded -> bool, s: seq<Loaded>, base: Base)
    requires s != []
    ensures var x := s[|s| - 1];
            var before, after := Select(Where(keep, s[..|s| - 1]), base).included, Select(Where(keep, s), base).included;
            after == before || (after == before + [x] && keep(x))
  {
    TakesLast(keep, s, base);
    hide Where, Select, FitsBeside;
  }

  lemma NothingPicked(keep: Loaded -> bool, base: Base)
    ensures Select(Where(keep, []), base).included == []
  {
  }

  lemma {:induction false} IncludedArePicked(keep: Loaded -> bool, s: seq<Loaded>, base: Base)
    ensures forall x :: x in Select(Where(keep, s), base).included ==> x in s && keep(x)
  {
    hide *;
    if s == [] {
      NothingPicked(keep, base);
    } else {
      var front, x := s[..|s| - 1], s[|s| - 1];
      IncludedArePicked(keep, front, base);
      GrowsByPicked(keep, s, base);
      assert s == front + [x];
      PickedStays(keep, front, x, Select(Where(keep, front), base).included, Select(Where(keep, s), base).included);
    }
  }

  lemma PickedStays(keep: Loaded -> bool, front: seq<Loaded>, x: Loaded, before: seq<Loaded>, after: seq<Loaded>)
    requires forall y :: y in before ==> y in front && keep(y)
    requires after == before || (after == before + [x] && keep(x))
    ensures forall y :: y in after ==> y in front + [x] && keep(y)
  {
  }

  /** A row is in the batch exactly when it is picked and fits beside what was packed before its turn. */
  lemma {:induction false} InBatchIff(keep: Loaded -> bool, s: seq<Loaded>, base: Base, i: nat)
    requires Distinct(s) && i < |s|
    ensures s[i] in Select(Where(keep, s), base).included <==> TakesAt(keep, s, base, i)
    decreases |s|
  {
    var front, x := s[..|s| - 1], s[|s| - 1];
    assert s == front + [x];
    TakesLast(keep, s, base);
    IncludedArePicked(keep, front, base);
    hide Where, Select, FitsBeside, ToWire;
    if i == |s| - 1 {
      assert x !in front;
    } else {
      assert front[i] == s[i] && front[..i] == s[..i];
      InBatchIff(keep, front, base, i);
    }
  }

  /** The size of an event does not depend on what its deltas count from. */
  lemma SameBits(ev: Event, a: Base, b: Base)
    requires ToWire(ev, a).Some? && ToWire(ev, b).Some?
    ensures EventBits(ToWire(ev, a).value) == EventBits(ToWire(ev, b).value)
  {
  }

  /** At their turns the two passes decide alike, judged by what the pass over the picked rows holds by then. */
  ghost predicate AlikeAt(keep: Loaded -> bool, s: seq<Loaded>, base: Base, moved: Base, i: nat)
    requires i < |s|
  {
    FitsBeside(s[i], Select(Where(keep, s[..i]), moved).wire, base) <==> TakesAt(keep, s, moved, i)
  }

  lemma {:induction false} SameBatchIff(keep: Loaded -> bool, s: seq<Loaded>, base: Base, moved: Base)
    requires Distinct(s)
    ensures Select(Where(keep, s), moved).included == Select(s, base).included <==>
            forall i :: 0 <= i < |s| ==> AlikeAt(keep, s, base, moved, i)
    ensures Select(Where(keep, s), moved).included == Select(s, base).included ==>
              UsedBits(Select(Where(keep, s), moved).wire) == UsedBits(Select(s, base).wire)
  {
    if s == [] {
    } else {
      var front, x := s[..|s| - 1], s[|s| - 1];
      assert s == front + [x];
      SameBatchIff(keep, front, base, moved);
      AlikeCarries(keep, s, base, moved);
      TakesLast(keep, s, moved);
      SelectSnoc(front, x, base);
      IncludedArePicked(keep, front, moved);
      SelectKeepsMembers(front, base);
      assert x !in front;
      var a, b := Select(Where(keep, front), moved), Select(front, base);
      var p, q := TakesAt(keep, s, moved, |front|), FitsBeside(x, b.wire, base);
      SameBitsFit(x, a.wire, b.wire, base);
      SameAfter(a.included, b.included, x, p, q);
      hide Where, Select, ToWire, EventBits, SumEventBits, TakesAt;
      if a.included == b.included && p && q {
        BothTake(a.wire, b.wire, x.ev, moved, base);
      }
    }
  }

  lemma SameBitsFit(x: Loaded, a: seq<WireEvent>, b: seq<WireEvent>, base: Base)
    ensures UsedBits(a) == UsedBits(b) ==> (FitsBeside(x, a, base) <==> FitsBeside(x, b, base))
  {
    hide ToWire, SumEventBits, EventBits;
  }

  lemma SameAfter<T>(a: seq<T>, b: seq<T>, x: T, p: bool, q: bool)
    requires x !in a && x !in b
    ensures (if p then a + [x] else a) == (if q then b + [x] else b) <==> a == b && (p <==> q)
  {
    assert (a + [x])[..|a|] == a && (b + [x])[..|b|] == b;
    assert (a + [x])[|a|] == x && (b + [x])[|b|] == x;
    assert x in a + [x] && x in b + [x];
  }

  lemma BothTake(a: seq<WireEvent>, b: seq<WireEvent>, ev: Event, moved: Base, base: Base)
    requires UsedBits(a) == UsedBits(b) && ToWire(ev, moved).Some? && ToWire(ev, base).Some?
    ensures UsedBits(a + [ToWire(ev, moved).value]) == UsedBits(b + [ToWire(ev, base).value])
  {
    SameBits(ev, moved, base);
    SumSnoc(a, ToWire(ev, moved).value);
    SumSnoc(b, ToWire(ev, base).value);
    hide ToWire, EventBits, SumEventBits;
  }

  lemma AlikeCarries(keep: Loaded -> bool, s: seq<Loaded>, base: Base, moved: Base)
    requires s != []
    ensures var front := s[..|s| - 1];
            (forall i :: 0 <= i < |s| ==> AlikeAt(keep, s, base, moved, i)) <==>
            (forall i :: 0 <= i < |front| ==> AlikeAt(keep, front, base, moved, i)) && AlikeAt(keep, s, base, moved, |s| - 1)
  {
    var front := s[..|s| - 1];
    hide Where, Select, FitsBeside;
    forall i | 0 <= i < |front| ensures AlikeAt(keep, front, base, moved, i) <==> AlikeAt(keep, s, base, moved, i) {
      assert front[i] == s[i] && front[..i] == s[..i];
    }
  }

  lemma SelectKeepsMembers(s: seq<Loaded>, base: Base)
    ensures forall x :: x in Select(s, base).included ==> x in s
  {
    WhereAll((x: Loaded) => true, s);
    IncludedArePicked((x: Loaded) => true, s, base);
  }

  lemma {:induction false} AllPickedSame(keep: Loaded -> bool, s: seq<Loaded>, base: Base)
    requires Distinct(s) && forall x :: x in Select(s, base).included ==> keep(x)
    ensures Select(Where(keep, s), base).included == Select(s, base).included
  {
    if s == [] {
    } else {
      var front, x := s[..|s| - 1], s[|s| - 1];
      assert s == front + [x];
      SelectSnoc(front, x, base);
      AllPickedSame(keep, front, base);
      SameBatchIff(keep, front, base, base);
      TakesLast(keep, s, base);
      var a, b := Select(Where(keep, front), base), Select(front, base);
      SameBitsFit(x, a.wire, b.wire, base);
      hide Where, Select, ToWire, EventBits, SumEventBits;
    }
  }

  /**
   The greedy pass by the printed sizes: a row is packed exactly when it has a form and fits
   the 960 bits behind 157 of overhead and the events packed before its turn.
   */
  lemma PackedExact(s: seq<Loaded>, base: Base, i: nat)
    requires Distinct(s) && i < |s|
    ensures s[i] in Select(s, base).included <==>
            && ToWire(s[i].ev, base).Some?
            && 157 + TotalLength(Select(s[..i], base).wire) + Length(ToWire(s[i].ev, base).value.payload) <= 960
  {
    InWholeBatchIff(s, base, i);
    SizesAgree(Select(s[..i], base).wire);
    hide Select, ToWire, SumEventBits, TotalLength;
    if ToWire(s[i].ev, base).Some? {
      SizeOfOne(ToWire(s[i].ev, base).value);
    }
    hide EventBits, Length;
  }

  lemma SizeOfOne(e: WireEvent)
    ensures EventBits(e) == Length(e.payload)
  {
  }

  // ------------------------------------------------------------ the trim, exactly

  lemma PickedFirst(rows: seq<Key>, log: map<Key, Event>)
    requires Distinct(rows)
    ensures var all, kept := Ordered(rows, log), Ordered(Fit(rows, MAX_BATCH_BYTES), log);
            && (kept != [] ==> all != [])
            && (all != [] && all[0].row in Fit(rows, MAX_BATCH_BYTES) ==> kept != [] && kept[0] == all[0])
            && forall x :: x in kept <==> x in all && x.row in Fit(rows, MAX_BATCH_BYTES)
  {
    var all, fit := Ordered(rows, log), Fit(rows, MAX_BATCH_BYTES);
    TrimPicks(rows, log);
    hide Ordered, Fit;
    WhereMembers(KeptBy(fit), all);
  }

  /**
   The trim leaves the batch as it was if and only if, row by row in `seq` order, a row
   fits beside what the trimmed batch holds by then, counting from the lowest `seq` of all
   rows, exactly when it was kept and fits counting from the lowest `seq` kept.
   */
  lemma TrimKeepsTheBatchIff(rows: seq<Key>, log: map<Key, Event>, incidentStart: int)
    requires Distinct(rows)
    ensures var fit := Fit(rows, MAX_BATCH_BYTES);
            var all, kept := Ordered(rows, log), Ordered(fit, log);
            kept != [] ==>
              && all != []
              && var base, moved := BaseOf(all[0].ev, incidentStart), BaseOf(kept[0].ev, incidentStart);
                 Chosen(kept, incidentStart).included == Chosen(all, incidentStart).included <==>
                 forall i :: 0 <= i < |all| ==> AlikeAt(KeptBy(fit), all, base, moved, i)
  {
    var fit := Fit(rows, MAX_BATCH_BYTES);
    var all, kept := Ordered(rows, log), Ordered(fit, log);
    PickedFirst(rows, log);
    TrimPicks(rows, log);
    OrderedDistinct(rows, log);
    hide Ordered, Fit, Select, Where, AlikeAt;
    if kept != [] {
      SameBatchIff(KeptBy(fit), all, BaseOf(all[0].ev, incidentStart), BaseOf(kept[0].ev, incidentStart));
    }
  }

  /** What fits beside the whole batch at its turn was picked, and fits beside the picked batch at its turn. */
  ghost predicate TakesWhatever(keep: Loaded -> bool, s: seq<Loaded>, base: Base, moved: Base) {
    forall i :: 0 <= i < |s| && FitsBeside(s[i], Select(s[..i], base).wire, base) ==> TakesAt(keep, s, moved, i)
  }

  /** The trim loses no report if and only if every row the whole queue packs at its turn the trimmed one packs too. */
  lemma TrimLosesNothingIff(rows: seq<Key>, log: map<Key, Event>, incidentStart: int)
    requires Distinct(rows)
    ensures var fit := Fit(rows, MAX_BATCH_BYTES);
            var all, kept := Ordered(rows, log), Ordered(fit, log);
            kept != [] ==>
              && all != []
              && var base, moved := BaseOf(all[0].ev, incidentStart), BaseOf(kept[0].ev, incidentStart);
                 AllIn(Chosen(all, incidentStart).included, Chosen(kept, incidentStart).included) <==>
                 TakesWhatever(KeptBy(fit), all, base, moved)
  {
    var fit := Fit(rows, MAX_BATCH_BYTES);
    var all, kept := Ordered(rows, log), Ordered(fit, log);
    PickedFirst(rows, log);
    TrimPicks(rows, log);
    OrderedDistinct(rows, log);
    hide Ordered, Fit, Select, Where, TakesWhatever, BaseOf, Distinct, AllIn;
    if kept != [] {
      LosesNothingIff(KeptBy(fit), all, BaseOf(all[0].ev, incidentStart), BaseOf(kept[0].ev, incidentStart));
    }
  }

  lemma LosesNothingIff(keep: Loaded -> bool, s: seq<Loaded>, base: Base, moved: Base)
    requires Distinct(s)
    ensures AllIn(Select(s, base).included, Select(Where(keep, s), moved).included) <==> TakesWhatever(keep, s, base, moved)
  {
    hide Select, Where, TakesAt, FitsBeside, Distinct;
    forall i | 0 <= i < |s|
      ensures s[i] in Select(s, base).included <==> FitsBeside(s[i], Select(s[..i], base).wire, base)
    {
      InWholeBatchIff(s, base, i);
    }
    forall i | 0 <= i < |s|
      ensures s[i] in Select(Where(keep, s), moved).included <==> TakesAt(keep, s, moved, i)
    {
      InBatchIff(keep, s, moved, i);
    }
    SelectKeepsMembers(s, base);
    MembersByIndex(s, Select(s, base).included, Select(Where(keep, s), moved).included);
  }

  lemma MembersByIndex<T>(s: seq<T>, a: seq<T>, b: seq<T>)
    requires AllIn(a, s)
    ensures AllIn(a, b) <==> forall i :: 0 <= i < |s| && s[i] in a ==> s[i] in b
  {
  }

  lemma InWholeBatchIff(s: seq<Loaded>, base: Base, i: nat)
    requires Distinct(s) && i < |s|
    ensures s[i] in Select(s, base).included <==> FitsBeside(s[i], Select(s[..i], base).wire, base)
  {
    var keep := (x: Loaded) => true;
    InBatchIff(keep, s, base, i);
    WhereAll(keep, s);
    WhereAll(keep, s[..i]);
    hide Select, Where, FitsBeside;
  }

  /**
   Counting from one base, the trim costs nothing if and only if no trimmed row fits, at its
   place in `seq` order, beside what the kept rows pack by then; and if and only if all that
   the whole queue packs was kept.
   */
  lemma TrimCostsNothingIff(rows: seq<Key>, log: map<Key, Event>, base: Base)
    requires Distinct(rows)
    ensures var fit := Fit(rows, MAX_BATCH_BYTES);
            var all, kept := Ordered(rows, log), Ordered(fit, log);
            && (Select(kept, base).included == Select(all, base).included <==>
                forall i :: 0 <= i < |all| && all[i].row !in fit ==>
                  !FitsBeside(all[i], Select(Where(KeptBy(fit), all[..i]), base).wire, base))
            && (Select(kept, base).included == Select(all, base).included <==>
                forall x :: x in Select(all, base).included ==> x.row in fit)
  {
    var fit := Fit(rows, MAX_BATCH_BYTES);
    var all := Ordered(rows, log);
    TrimPicks(rows, log);
    OrderedDistinct(rows, log);
    hide Ordered, Fit, Select, Where, FitsBeside, Distinct;
    CostsNothingIff(KeptBy(fit), all, base);
  }

  lemma CostsNothingIff(keep: Loaded -> bool, s: seq<Loaded>, base: Base)
    requires Distinct(s)
    ensures Select(Where(keep, s), base).included == Select(s, base).included <==>
            forall i :: 0 <= i < |s| && !keep(s[i]) ==> !FitsBeside(s[i], Select(Where(keep, s[..i]), base).wire, base)
    ensures Select(Where(keep, s), base).included == Select(s, base).included <==>
            forall x :: x in Select(s, base).included ==> keep(x)
  {
    hide Select, Where, FitsBeside, Distinct;
    SameBatchIff(keep, s, base, base);
    IncludedArePicked(keep, s, base);
    forall i | 0 <= i < |s|
      ensures AlikeAt(keep, s, base, base, i) <==>
              (!keep(s[i]) ==> !FitsBeside(s[i], Select(Where(keep, s[..i]), base).wire, base))
    {
    }
    if forall x :: x in Select(s, base).included ==> keep(x) {
      AllPickedSame(keep, s, base);
    }
  }

  // -------------------------------------------------------- when the base moves

  /** Along `seq` the device's clock does not run back by a whole second. */
  ghost predicate ClockClimbs(s: seq<Loaded>) {
    forall i, j :: 0 <= i <= j < |s| ==> Seconds(s[i].ev.tDev) <= Seconds(s[j].ev.tDev)
  }

  /** The event lies beyond the reach of the deltas from the first one. */
  predicate TooFar(ev: Event, first: Event, incidentStart: int) {
    ev.seqNo > first.seqNo + MAX_SEQ_DELTA || Seconds(ev.tDev) > incidentStart + BaseT(first, incidentStart) + MAX_T_DELTA
  }

  /** With a later first row a form is never lost; it is gained by what was too far from the earlier one. */
  lemma LaterBaseIff(ev: Event, first: Event, later: Event, incidentStart: int)
    requires first.seqNo <= later.seqNo <= ev.seqNo
    requires Seconds(first.tDev) <= Seconds(later.tDev) <= Seconds(ev.tDev)
    ensures var base, moved := BaseOf(first, incidentStart), BaseOf(later, incidentStart);
            && (ToWire(ev, base).Some? ==> ToWire(ev, moved).Some?)
            && (ToWire(ev, moved).Some? ==> (ToWire(ev, base).None? <==> TooFar(ev, first, incidentStart)))
  {
  }

  /** A picked row that fits from the later base was not too far from the first; a row not picked does not fit from the first. */
  ghost predicate MovedAlikeAt(keep: Loaded -> bool, s: seq<Loaded>, first: Event, later: Event, incidentStart: int, i: nat)
    requires i < |s|
  {
    var wire := Select(Where(keep, s[..i]), BaseOf(later, incidentStart)).wire;
    if keep(s[i]) then FitsBeside(s[i], wire, BaseOf(later, incidentStart)) ==> !TooFar(s[i].ev, first, incidentStart)
    else !FitsBeside(s[i], wire, BaseOf(first, incidentStart))
  }

  /**
   With a clock that climbs, also where the trim drops the lowest `seq` and the base moves:
   the batch is the same if and only if no trimmed row fits counting from the old base, and
   no kept row that fits counting from the new one was too far from the old.
   */
  lemma TrimMovesTheBaseIff(rows: seq<Key>, log: map<Key, Event>, incidentStart: int)
    requires Distinct(rows) && ClockClimbs(Ordered(rows, log))
    ensures var fit := Fit(rows, MAX_BATCH_BYTES);
            var all, kept := Ordered(rows, log), Ordered(fit, log);
            kept != [] ==>
              && all != []
              && (Chosen(kept, incidentStart).included == Chosen(all, incidentStart).included <==>
                  forall i :: 0 <= i < |all| ==>
                    MovedAlikeAt(KeptBy(fit), all, all[0].ev, kept[0].ev, incidentStart, i))
  {
    var fit := Fit(rows, MAX_BATCH_BYTES);
    var all, kept := Ordered(rows, log), Ordered(fit, log);
    PickedFirst(rows, log);
    TrimKeepsTheBatchIff(rows, log, incidentStart);
    InSeqOrder(rows, log);
    hide Ordered, Fit, Select, Where, BaseOf, MovedAlikeAt, AlikeAt, ClockClimbs, Distinct;
    if kept != [] {
      forall i | 0 <= i < |all|
        ensures AlikeAt(KeptBy(fit), all, BaseOf(all[0].ev, incidentStart), BaseOf(kept[0].ev, incidentStart), i) <==>
                MovedAlikeAt(KeptBy(fit), all, all[0].ev, kept[0].ev, incidentStart, i)
      {
        assert all[i].row in fit ==> all[i] in kept;
        AlikeIff(KeptBy(fit), all, all[0].ev, kept[0].ev, incidentStart, i);
      }
    }
  }

  lemma AlikeIff(keep: Loaded -> bool, s: seq<Loaded>, first: Event, later: Event, incidentStart: int, i: nat)
    requires i < |s|
    requires keep(s[i]) ==> first.seqNo <= later.seqNo <= s[i].ev.seqNo
    requires keep(s[i]) ==> Seconds(first.tDev) <= Seconds(later.tDev) <= Seconds(s[i].ev.tDev)
    ensures AlikeAt(keep, s, BaseOf(first, incidentStart), BaseOf(later, incidentStart), i) <==>
            MovedAlikeAt(keep, s, first, later, incidentStart, i)
  {
    hide Select, Where, BaseOf, FitsBeside, TooFar, Seconds;
    if keep(s[i]) {
      FitsFromEither(s[i], first, later, incidentStart);
    }
  }

  /** A row that may have a form from either base fits from the old one if it fits from the new and is not too far. */
  lemma FitsFromEither(x: Loaded, first: Event, later: Event, incidentStart: int)
    requires first.seqNo <= later.seqNo <= x.ev.seqNo
    requires Seconds(first.tDev) <= Seconds(later.tDev) <= Seconds(x.ev.tDev)
    ensures forall wire ::
              FitsBeside(x, wire, BaseOf(first, incidentStart)) <==>
              FitsBeside(x, wire, BaseOf(later, incidentStart)) && !TooFar(x.ev, first, incidentStart)
  {
    var base, moved := BaseOf(first, incidentStart), BaseOf(later, incidentStart);
    LaterBaseIff(x.ev, first, later, incidentStart);
    if ToWire(x.ev, base).Some? {
      SameBits(x.ev, base, moved);
    }
    assert ToWire(x.ev, base).Some? ==> !TooFar(x.ev, first, incidentStart);
    hide BaseOf, ToWire, SumEventBits, EventBits;
  }

  lemma {:induction false} FirstPicked<T>(keep: T -> bool, s: seq<T>) returns (j: nat)
    requires Where(keep, s) != []
    ensures j < |s| && s[j] == Where(keep, s)[0] && forall i :: 0 <= i < j ==> !keep(s[i])
  {
    if keep(s[0]) {
      j := 0;
    } else {
      var rest := FirstPicked(keep, s[1..]);
      j := rest + 1;
    }
  }

  /** The first kept row is the first in `seq` order of those kept, and no earlier than the first of all. */
  lemma InSeqOrder(rows: seq<Key>, log: map<Key, Event>)
    requires Distinct(rows) && ClockClimbs(Ordered(rows, log))
    ensures var all, kept := Ordered(rows, log), Ordered(Fit(rows, MAX_BATCH_BYTES), log);
            forall x :: x in kept ==>
              && all != []
              && all[0].ev.seqNo <= kept[0].ev.seqNo <= x.ev.seqNo
              && Seconds(all[0].ev.tDev) <= Seconds(kept[0].ev.tDev) <= Seconds(x.ev.tDev)
  {
    hide Fit, Where, Sort, Load, Distinct, ClockClimbs;
    var fit := Fit(rows, MAX_BATCH_BYTES);
    assert TotalPreorder(SeqLe);
    SortSorts(SeqLe, Load(rows, log));
    TrimPicks(rows, log);
    PickedInOrder(KeptBy(fit), Ordered(rows, log));
    WhereMembers(KeptBy(fit), Ordered(rows, log));
  }

  lemma PickedInOrder(keep: Loaded -> bool, s: seq<Loaded>)
    requires Sorted(SeqLe, s) && ClockClimbs(s)
    ensures forall x :: x in s && keep(x) ==>
              && Where(keep, s) != []
              && var first := Where(keep, s)[0];
                 && s[0].ev.seqNo <= first.ev.seqNo <= x.ev.seqNo
                 && Seconds(s[0].ev.tDev) <= Seconds(first.ev.tDev) <= Seconds(x.ev.tDev)
  {
    hide Where, Sorted, ClockClimbs, Seconds;
    WhereMembers(keep, s);
    forall x | x in s && keep(x)
      ensures Where(keep, s) != []
      ensures s[0].ev.seqNo <= Where(keep, s)[0].ev.seqNo <= x.ev.seqNo
      ensures Seconds(s[0].ev.tDev) <= Seconds(Where(keep, s)[0].ev.tDev) <= Seconds(x.ev.tDev)
    {
      var i :| 0 <= i < |s| && s[i] == x;
      assert x in Where(keep, s);
      var j := FirstPicked(keep, s);
      assert j <= i;
      ByPosition(s, 0, j);
      ByPosition(s, j, i);
    }
  }

  lemma ByPosition(s: seq<Loaded>, i: nat, j: nat)
    requires Sorted(SeqLe, s) && ClockClimbs(s) && i <= j < |s|
    ensures s[i].ev.seqNo <= s[j].ev.seqNo && Seconds(s[i].ev.tDev) <= Seconds(s[j].ev.tDev)
  {
    assert i < j ==> SeqLe(s[i], s[j]);
  }
}
