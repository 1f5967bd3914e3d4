/** What a transport declares, and the fixed rule that picks one by those values alone. */
module Transport {
  import opened Results

  datatype CostClass = Free | Metered
  datatype LatencyClass = Fast | Slow | VerySlow

  datatype Capabilities = Capabilities(maxBatchBytes: nat, supportsDownlink: bool, latency: LatencyClass,
                                       cost: CostClass, available: bool)

  /** The paths ROUTINE traffic must never take. */
  predicate MeteredAndVerySlow(c: Capabilities) {
    c.cost == Metered && c.latency == VerySlow
  }

  predicate FreeAndFast(c: Capabilities) {
    c.cost == Free && c.latency == Fast
  }

  function Rank(c: Capabilities): nat {
    (if c.cost == Free then 4 else 0)
    + (match c.latency case Fast => 3 case Slow => 2 case VerySlow => 1)
    + (if c.supportsDownlink then 1 else 0)
  }

  predicate Usable(c: Capabilities, critical: bool) {
    c.available && (MeteredAndVerySlow(c) ==> critical)
  }

  /** By declared values alone: what may carry a batch, and what is taken before all others. */
  lemma UsableIff(c: Capabilities, critical: bool)
    ensures Usable(c, critical) <==> c.available && (critical || c.cost == Free || c.latency != VerySlow)
    ensures FreeAndFast(c) <==> c.cost == Free && c.latency == Fast
  {
  }

  /** What `Rank` prefers: any free transport, then the faster, where one step of latency weighs as much as a downlink. */
  lemma RankOrder(a: Capabilities, b: Capabilities)
    ensures a.cost == Free && b.cost == Metered ==> Rank(a) > Rank(b)
    ensures a.cost == b.cost && a.latency == b.latency && a.supportsDownlink && !b.supportsDownlink ==> Rank(a) == Rank(b) + 1
    ensures a.cost == b.cost && a.supportsDownlink == b.supportsDownlink && a.latency == b.latency ==> Rank(a) == Rank(b)
    ensures a.cost == b.cost && a.supportsDownlink == b.supportsDownlink && a.latency == Fast && b.latency == Slow ==>
              Rank(a) == Rank(b) + 1
    ensures a.cost == b.cost && a.supportsDownlink == b.supportsDownlink && a.latency == Slow && b.latency == VerySlow ==>
              Rank(a) == Rank(b) + 1
  {
  }

  predicate AnyFreeAndFast(transports: seq<Capabilities>) {
    exists i :: 0 <= i < |transports| && transports[i].available && FreeAndFast(transports[i])
  }

  /** The first available free and fast transport; failing that the first of the highest usable ones. */
  ghost predicate FirstPick(transports: seq<Capabilities>, critical: bool, i: int) {
    && 0 <= i < |transports| && Usable(transports[i], critical)
    && if AnyFreeAndFast(transports)
       then FreeAndFast(transports[i]) && forall j :: 0 <= j < i ==> !(transports[j].available && FreeAndFast(transports[j]))
       else forall j :: 0 <= j < |transports| && Usable(transports[j], critical) ==>
              if j < i then Rank(transports[j]) < Rank(transports[i]) else Rank(transports[j]) <= Rank(transports[i])
  }

  ghost predicate Picks(transports: seq<Capabilities>, critical: bool, r: Option<Capabilities>) {
    match r
    case None => forall i :: 0 <= i < |transports| ==> !Usable(transports[i], critical)
    case Some(best) => exists i :: FirstPick(transports, critical, i) && best == transports[i]
  }

  method SelectTransport(transports: seq<Capabilities>, critical: bool) returns (r: Option<Capabilities>)
    ensures Picks(transports, critical, r)
  {
    for i := 0 to |transports|
      invariant forall j :: 0 <= j < i ==> !(transports[j].available && FreeAndFast(transports[j]))
    {
      if transports[i].available && FreeAndFast(transports[i]) {
        assert FirstPick(transports, critical, i);
        return Some(transports[i]);
      }
    }
    r := None;
    ghost var best := -1;
    for i := 0 to |transports|
      invariant r.None? ==> forall j :: 0 <= j < i ==> !Usable(transports[j], critical)
      invariant r.Some? ==> 0 <= best < i && r.value == transports[best] && Usable(r.value, critical)
      invariant r.Some? ==> forall j :: 0 <= j < i && Usable(transports[j], critical) ==>
                  if j < best then Rank(transports[j]) < Rank(r.value) else Rank(transports[j]) <= Rank(r.value)
    {
      var c := transports[i];
      if Usable(c, critical) && (r.None? || Rank(c) > Rank(r.value)) {
        r := Some(c);
        best := i;
      }
    }
    assert r.Some? ==> FirstPick(transports, critical, best);
  }
}
