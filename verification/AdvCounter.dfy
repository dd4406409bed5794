/**
 The batch counter of banner requests: counting, taking a batch, and putting a
 failed batch back, and what is conserved over every interleaving of them.
 */
module AdvCounter {
  const MAX: int := 0x7FFF_FFFF_FFFF_FFFF
  const MIN: int := -0x8000_0000_0000_0000

  type Counts = map<string, int>

  /** Addition of 64-bit integers that stops at the bounds. */
  function SaturatingAdd(a: int, b: int): int {
    if a + b > MAX then MAX else if a + b < MIN then MIN else a + b
  }

  function Get(counts: Counts, path: string): int {
    if path in counts then counts[path] else 0
  }

  function Counted(counts: Counts, path: string): Counts {
    counts[path := SaturatingAdd(Get(counts, path), 1)]
  }

  function Merged(counts: Counts, batch: Counts): (m: Counts)
    ensures forall path :: Get(m, path) == if path in batch then SaturatingAdd(Get(counts, path), batch[path]) else Get(counts, path)
  {
    map path | path in counts.Keys + batch.Keys ::
      if path in batch then SaturatingAdd(Get(counts, path), batch[path]) else counts[path]
  }

  class Counter {
    var counters: Counts

    constructor ()
      ensures counters == map[]
    {
      counters := map[];
    }

    method Count(path: string)
      modifies this
      ensures counters == Counted(old(counters), path)
    {
      var counter := Get(counters, path);
      counters := counters[path := SaturatingAdd(counter, 1)];
    }

    method Take() returns (batch: Counts)
      modifies this
      ensures batch == old(counters) && counters == map[]
    {
      batch := counters;
      counters := map[];
    }

    /** The batch is merged entry by entry, in whatever order its map yields them. */
    method Restore(failed: Counts)
      modifies this
      ensures counters == Merged(old(counters), failed)
    {
      var todo := failed.Keys;
      ghost var before := counters;
      assert counters == Merged(before, Without(failed, todo));
      while todo != {}
        invariant todo <= failed.Keys
        invariant counters == Merged(before, Without(failed, todo))
        decreases todo
      {
        var path :| path in todo;
        RestoreStep(before, failed, todo, path);
        counters := counters[path := SaturatingAdd(Get(counters, path), failed[path])];
        todo := todo - {path};
      }
      assert Without(failed, {}) == failed;
    }
  }

  function Without(batch: Counts, paths: set<string>): Counts {
    map path | path in batch && path !in paths :: batch[path]
  }

  lemma RestoreStep(before: Counts, failed: Counts, todo: set<string>, path: string)
    requires path in todo && todo <= failed.Keys
    ensures
      var counters := Merged(before, Without(failed, todo));
      counters[path := SaturatingAdd(Get(counters, path), failed[path])] == Merged(before, Without(failed, todo - {path}))
  {
    var counters := Merged(before, Without(failed, todo));
    var next := counters[path := SaturatingAdd(Get(counters, path), failed[path])];
    var goal := Merged(before, Without(failed, todo - {path}));
    assert next.Keys == goal.Keys;
    forall p | p in next ensures next[p] == goal[p] {
    }
  }

  // ---------------------------------------------------------------- flushing

  /** Requests count; a flush takes the counters and later commits its batch or, when that fails, restores it. */
  datatype Event = Count(path: string) | Take | Commit(flight: nat) | Restore(flight: nat)

  /**
   The counter, the batches in flight, what the database holds, and how many
   requests were counted; the last two are exact.
   */
  datatype State = State(memory: Counts, flights: seq<Counts>, committed: Counts, counted: Counts)

  const START := State(map[], [], map[], map[])

  function Drop(flights: seq<Counts>, k: nat): seq<Counts>
    requires k < |flights|
  {
    flights[..k] + flights[k + 1..]
  }

  function Sum(counts: Counts, batch: Counts): (s: Counts)
    ensures forall path :: Get(s, path) == Get(counts, path) + Get(batch, path)
  {
    map path | path in counts.Keys + batch.Keys :: Get(counts, path) + Get(batch, path)
  }

  /** One event; one that names no batch in flight does nothing. */
  function Step(s: State, e: Event): State {
    match e
    case Count(path) => s.(memory := Counted(s.memory, path), counted := s.counted[path := Get(s.counted, path) + 1])
    case Take => s.(memory := map[], flights := s.flights + [s.memory])
    case Commit(k) =>
      if k >= |s.flights| then s
      else s.(flights := Drop(s.flights, k), committed := Sum(s.committed, s.flights[k]))
    case Restore(k) =>
      if k >= |s.flights| then s
      else s.(flights := Drop(s.flights, k), memory := Merged(s.memory, s.flights[k]))
  }

  /** The state after the events, in order. */
  function Run(events: seq<Event>): State {
    if events == [] then START else Step(Run(events[..|events| - 1]), events[|events| - 1])
  }

  function InFlight(flights: seq<Counts>, path: string): int {
    if flights == [] then 0 else Get(flights[0], path) + InFlight(flights[1..], path)
  }

  /** All requests for `path` that are accounted for somewhere. */
  function Total(s: State, path: string): int {
    Get(s.memory, path) + InFlight(s.flights, path) + Get(s.committed, path)
  }

  /** Every counter is a natural number of 64-bit integer range. */
  ghost predicate InRange(counts: Counts) { forall path :: 0 <= Get(counts, path) <= MAX }

  ghost predicate FlightsInRange(flights: seq<Counts>) {
    flights == [] || (InRange(flights[0]) && FlightsInRange(flights[1..]))
  }

  /** How much the step adds beyond the maximum at `path`. */
  function Overflow(s: State, e: Event, path: string): int {
    match e
    case Count(p) => if p == path then Beyond(Get(s.memory, path) + 1) else 0
    case Restore(k) => if k < |s.flights| then Beyond(Get(s.memory, path) + Get(s.flights[k], path)) else 0
    case _ => 0
  }

  function Beyond(n: int): nat { if n > MAX then n - MAX else 0 }

  lemma {:induction false} FlightsPush(flights: seq<Counts>, batch: Counts, path: string)
    ensures InFlight(flights + [batch], path) == InFlight(flights, path) + Get(batch, path)
    ensures FlightsInRange(flights) && InRange(batch) ==> FlightsInRange(flights + [batch])
    decreases |flights|
  {
    if flights == [] {
      assert flights + [batch] == [batch] && [batch][1..] == [];
    } else {
      FlightsPush(flights[1..], batch, path);
      assert (flights + [batch])[1..] == flights[1..] + [batch];
    }
  }

  lemma {:induction false} FlightsDrop(flights: seq<Counts>, k: nat, path: string)
    requires k < |flights|
    ensures InFlight(Drop(flights, k), path) == InFlight(flights, path) - Get(flights[k], path)
    ensures FlightsInRange(flights) ==> FlightsInRange(Drop(flights, k)) && InRange(flights[k])
    decreases |flights|
  {
    if k == 0 {
      assert Drop(flights, 0) == flights[1..];
    } else {
      FlightsDrop(flights[1..], k - 1, path);
      assert Drop(flights, k)[1..] == Drop(flights[1..], k - 1);
    }
  }

  ghost predicate StateInRange(s: State) { InRange(s.memory) && FlightsInRange(s.flights) }

  lemma StepStaysInRange(s: State, e: Event)
    requires StateInRange(s)
    ensures StateInRange(Step(s, e))
  {
    match e
    case Take =>
      FlightsPush(s.flights, s.memory, "");
    case Commit(k) =>
      if k < |s.flights| {
        FlightsDrop(s.flights, k, "");
      }
    case Restore(k) =>
      if k < |s.flights| {
        FlightsDrop(s.flights, k, "");
        MergedInRange(s.memory, s.flights[k]);
      }
    case Count(p) =>
      CountedInRange(s.memory, p);
  }

  lemma CountedInRange(counts: Counts, p: string)
    requires InRange(counts)
    ensures InRange(Counted(counts, p))
  {
    assert 0 <= Get(counts, p) <= MAX;
    forall path ensures 0 <= Get(Counted(counts, p), path) <= MAX {
      assert 0 <= Get(counts, path) <= MAX;
    }
  }

  lemma MergedInRange(counts: Counts, batch: Counts)
    requires InRange(counts) && InRange(batch)
    ensures InRange(Merged(counts, batch))
  {
    forall path ensures 0 <= Get(Merged(counts, batch), path) <= MAX {
      assert 0 <= Get(counts, path) <= MAX && 0 <= Get(batch, path) <= MAX;
    }
  }

  /** What a step loses at a path is exactly what it adds beyond the maximum. */
  lemma StepLoses(s: State, e: Event, path: string)
    requires StateInRange(s)
    ensures Lost(Step(s, e), path) == Lost(s, path) + Overflow(s, e, path)
  {
    match e
    case Take =>
      FlightsPush(s.flights, s.memory, path);
    case Commit(k) =>
      if k < |s.flights| {
        FlightsDrop(s.flights, k, path);
      }
    case Restore(k) =>
      if k < |s.flights| {
        FlightsDrop(s.flights, k, path);
        assert 0 <= Get(s.memory, path) <= MAX && 0 <= Get(s.flights[k], path) <= MAX;
      }
    case Count(_) =>
      assert 0 <= Get(s.memory, path) <= MAX;
  }

  /** Requests counted but neither in memory, in flight nor committed. */
  function Lost(s: State, path: string): int { Get(s.counted, path) - Total(s, path) }

  /** No addition of the run went beyond the maximum at `path`. */
  ghost predicate NeverSaturates(events: seq<Event>, path: string)
    decreases |events|
  {
    events == [] ||
    (var before := events[..|events| - 1];
     NeverSaturates(before, path) && Overflow(Run(before), events[|before|], path) == 0)
  }

  /**
   Over every interleaving of counts, takes, commits and restores, nothing is
   ever counted twice, and nothing is lost exactly as long as no addition saturates.
   */
  lemma {:induction false} ConservedIff(events: seq<Event>, path: string)
    ensures StateInRange(Run(events))
    ensures Total(Run(events), path) <= Get(Run(events).counted, path)
    ensures Total(Run(events), path) == Get(Run(events).counted, path) <==> NeverSaturates(events, path)
    decreases |events|
  {
    if events != [] {
      var before := events[..|events| - 1];
      ConservedIff(before, path);
      StepStaysInRange(Run(before), events[|before|]);
      StepLoses(Run(before), events[|before|], path);
    }
  }

  lemma {:induction false} FlightsNatural(flights: seq<Counts>, k: nat, path: string)
    requires FlightsInRange(flights)
    ensures InFlight(flights, path) >= 0 && (k < |flights| ==> Get(flights[k], path) <= InFlight(flights, path))
    decreases |flights|
  {
    if flights != [] {
      FlightsNatural(flights[1..], if k == 0 then 0 else k - 1, path);
    }
  }

  /** Committed counts never decrease, and stay natural. */
  lemma {:induction false} CommittedGrows(events: seq<Event>, path: string)
    requires events != []
    ensures 0 <= Get(Run(events[..|events| - 1]).committed, path) <= Get(Run(events).committed, path)
    decreases |events|
  {
    var before := events[..|events| - 1];
    var s := Run(before);
    if before != [] {
      CommittedGrows(before, path);
    }
    ConservedIff(before, path);
    match events[|before|]
    case Commit(k) =>
      if k < |s.flights| {
        FlightsDrop(s.flights, k, path);
      }
    case _ =>
  }

  /** The number of requests for `path` among the events. */
  function Requests(events: seq<Event>, path: string): nat {
    if events == [] then 0
    else Requests(events[..|events| - 1], path) + if events[|events| - 1] == Count(path) then 1 else 0
  }

  lemma {:induction false} CountedIsRequests(events: seq<Event>, path: string)
    ensures Get(Run(events).counted, path) == Requests(events, path)
    decreases |events|
  {
    if events != [] {
      CountedIsRequests(events[..|events| - 1], path);
    }
  }

  /** Up to the 64-bit maximum of requests nothing is lost: memory, flights and database add up to all of them. */
  lemma {:induction false} ConservedBelowMaximum(events: seq<Event>, path: string)
    requires Requests(events, path) <= MAX
    ensures Total(Run(events), path) == Requests(events, path)
    decreases |events|
  {
    CountedIsRequests(events, path);
    ConservedIff(events, path);
    if events != [] {
      var before := events[..|events| - 1];
      var s := Run(before);
      ConservedBelowMaximum(before, path);
      ConservedIff(before, path);
      StepLoses(s, events[|before|], path);
      CountedIsRequests(before, path);
      CommittedNatural(before, path);
      match events[|before|] {
        case Count(_) =>
          FlightsNatural(s.flights, 0, path);
        case Restore(k) =>
          FlightsNatural(s.flights, k, path);
        case _ =>
      }
    }
  }

  lemma CommittedNatural(events: seq<Event>, path: string)
    ensures Get(Run(events).committed, path) >= 0
  {
    if events != [] {
      CommittedGrows(events, path);
    }
  }
}
