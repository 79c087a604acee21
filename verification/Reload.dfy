/**
  Hot reload against requests in flight: one reloader task and any number of requests, each step
  one load or store of a shared cell. Loads and stores are sequentially consistent.

  A generation is a configuration together with the whitelist built from it; generation 0 is the
  one the daemon started with, and generation n the n-th one loaded successfully after that. A
  cell holds the number of the generation whose value it holds.
 */
module Reload {
  datatype Reloader =
    | Idle     // waiting for SIGHUP
    | Ready    // a new configuration and whitelist are loaded, nothing stored
    | Half     // the new whitelist is stored, the configuration not yet

  /** What a request has read so far. */
  datatype Progress =
    | One(config: nat)
    | Two(config: nat, whitelist: nat)
    | Three(config: nat, whitelist: nat, configAgain: nat)

  datatype System = System(reloader: Reloader, config: nat, whitelist: nat, requests: map<nat, Progress>)

  datatype Event =
    | ReloadFails              // loading the configuration or the whitelist fails
    | ReloadLoads              // both load
    | StoreWhitelist
    | StoreConfig
    | ReadConfig(id: nat)      // should_skip starts
    | ReadWhitelist(id: nat)   // no early exemption: should_skip goes on
    | ReadConfigAgain(id: nat) // not exempt: handle_request goes on
    | Finish(id: nat)          // the request is answered, at whatever point

  const START: System := System(Idle, 0, 0, map[])

  /** Steps a task is not about to take change nothing. */
  function Step(s: System, e: Event): System {
    match e
    case ReloadFails => s
    case ReloadLoads => if s.reloader == Idle then s.(reloader := Ready) else s
    case StoreWhitelist =>
      if s.reloader == Ready then s.(reloader := Half, whitelist := s.whitelist + 1) else s
    case StoreConfig =>
      if s.reloader == Half then s.(reloader := Idle, config := s.config + 1) else s
    case ReadConfig(id) =>
      if id in s.requests then s else s.(requests := s.requests[id := One(s.config)])
    case ReadWhitelist(id) =>
      if id in s.requests && s.requests[id].One?
      then s.(requests := s.requests[id := Two(s.requests[id].config, s.whitelist)]) else s
    case ReadConfigAgain(id) =>
      if id in s.requests && s.requests[id].Two?
      then s.(requests := s.requests[id := Three(s.requests[id].config, s.requests[id].whitelist, s.config)]) else s
    case Finish(id) => s.(requests := s.requests - {id})
  }

  function Run(s: System, events: seq<Event>): System
    decreases events
  {
    if events == [] then s else Run(Step(s, events[0]), events[1..])
  }

  lemma {:induction false} RunAppend(s: System, a: seq<Event>, b: seq<Event>)
    ensures Run(s, a + b) == Run(Run(s, a), b)
    decreases a
  {
    if a == [] {
      assert a + b == b;
    } else {
      RunAppend(Step(s, a[0]), a[1..], b);
      assert (a + b)[1..] == a[1..] + b;
    }
  }

  /** The cells and tasks as objects change them, one atomic step at a time. */
  class AppState {
    var config: nat
    var whitelist: nat
    var reloader: Reloader
    var requests: map<nat, Progress>

    constructor ()
      ensures View() == START
    {
      config, whitelist, reloader, requests := 0, 0, Idle, map[];
    }

    function View(): System
      reads this
    {
      System(reloader, config, whitelist, requests)
    }

    /** Any interleaving of the reloader's loop with the requests' reads. */
    method Interleave(events: seq<Event>)
      modifies this
      ensures View() == Run(old(View()), events)
    {
      ghost var start := View();
      var i := 0;
      assert events[..0] == [];
      while i < |events|
        invariant 0 <= i <= |events|
        invariant View() == Run(start, events[..i])
      {
        assert events[..i + 1] == events[..i] + [events[i]];
        RunAppend(start, events[..i], [events[i]]);
        assert Run(View(), [events[i]]) == Step(View(), events[i]);
        match events[i] {
          case ReloadFails =>
          case ReloadLoads => if reloader == Idle { reloader := Ready; }
          case StoreWhitelist => if reloader == Ready { whitelist := whitelist + 1; reloader := Half; }
          case StoreConfig => if reloader == Half { config := config + 1; reloader := Idle; }
          case ReadConfig(id) =>
            if id !in requests { requests := requests[id := One(config)]; }
          case ReadWhitelist(id) =>
            if id in requests && requests[id].One? {
              requests := requests[id := Two(requests[id].config, whitelist)];
            }
          case ReadConfigAgain(id) =>
            if id in requests && requests[id].Two? {
              requests := requests[id := Three(requests[id].config, requests[id].whitelist, config)];
            }
          case Finish(id) => requests := requests - {id};
        }
        i := i + 1;
      }
      assert events[..i] == events;
    }
  }

  // ---------- what a request can see ----------

  /** The triples of generations a request may have read. */
  ghost predicate Possible(config: nat, whitelist: nat, configAgain: nat) {
    config <= whitelist && config <= configAgain && whitelist <= configAgain + 1
  }

  ghost predicate Consistent(s: System, p: Progress) {
    match p
    case One(c) => c <= s.config
    case Two(c, w) => c <= s.config && c <= w <= s.config + 1
    case Three(c, w, d) => d <= s.config && Possible(c, w, d)
  }

  ghost predicate Inv(s: System) {
    && s.whitelist == s.config + (if s.reloader == Half then 1 else 0)
    && forall id <- s.requests :: Consistent(s, s.requests[id])
  }

  lemma StepKeepsInv(s: System, e: Event)
    requires Inv(s)
    ensures Inv(Step(s, e))
  {
  }

  lemma {:induction false} RunKeepsInv(s: System, events: seq<Event>)
    requires Inv(s)
    ensures Inv(Run(s, events))
    decreases events
  {
    if events != [] {
      StepKeepsInv(s, events[0]);
      RunKeepsInv(Step(s, events[0]), events[1..]);
    }
  }

  /** The request that takes a step, if it is one of a request. */
  function Actor(e: Event): (ids: set<nat>) {
    match e
    case ReadConfig(id) => {id}
    case ReadWhitelist(id) => {id}
    case ReadConfigAgain(id) => {id}
    case Finish(id) => {id}
    case _ => {}
  }

  /** A request is touched by its own steps only, moves no cell, and is gone when it is answered. */
  lemma OwnSteps(s: System, e: Event, id: nat)
    ensures id !in Actor(e) ==>
              && (id in Step(s, e).requests <==> id in s.requests)
              && (id in s.requests ==> Step(s, e).requests[id] == s.requests[id])
    ensures Actor(e) != {} ==> Step(s, e).(requests := s.requests) == s
    ensures e == Finish(id) ==> id !in Step(s, e).requests
  {
  }

  /** Every interleaving: the cells differ by at most one generation, and so do a request's reads. */
  lemma EveryInterleaving(events: seq<Event>, id: nat)
    ensures var s := Run(START, events);
            && s.config <= s.whitelist <= s.config + 1
            && (s.reloader != Half ==> s.config == s.whitelist)
            && (id in s.requests && s.requests[id].Three? ==>
                  var r := s.requests[id];
                  Possible(r.config, r.whitelist, r.configAgain) && r.configAgain <= s.config)
  {
    RunKeepsInv(START, events);
  }

  /** How many loads of configuration and whitelist succeed. */
  function Loads(s: System, events: seq<Event>): nat
    decreases events
  {
    if events == [] then 0
    else (if events[0] == ReloadLoads && s.reloader == Idle then 1 else 0) + Loads(Step(s, events[0]), events[1..])
  }

  /** The loads whose whitelist, and whose configuration, is not stored yet. */
  function Unstored(reloader: Reloader): (nat, nat) {
    match reloader case Idle => (0, 0) case Ready => (1, 1) case Half => (0, 1)
  }

  lemma {:induction false} LoadsStored(s: System, events: seq<Event>)
    ensures var t := Run(s, events);
            && t.whitelist + Unstored(t.reloader).0 == s.whitelist + Unstored(s.reloader).0 + Loads(s, events)
            && t.config + Unstored(t.reloader).1 == s.config + Unstored(s.reloader).1 + Loads(s, events)
    decreases events
  {
    if events != [] {
      LoadsStored(Step(s, events[0]), events[1..]);
    }
  }

  /** Both cells count exactly the successful loads that were stored; failed ones store nothing. */
  lemma CellsCountLoads(events: seq<Event>)
    ensures var s := Run(START, events);
            && s.whitelist == Loads(START, events) - (if s.reloader == Ready then 1 else 0)
            && s.config == Loads(START, events) - (if s.reloader == Idle then 0 else 1)
  {
    LoadsStored(START, events);
  }

  // ---------- and every such triple can be seen ----------

  function Cycles(n: nat): seq<Event> {
    if n == 0 then [] else [ReloadLoads, StoreWhitelist, StoreConfig] + Cycles(n - 1)
  }

  lemma {:induction false} RunCycles(s: System, n: nat)
    requires s.reloader == Idle
    ensures Run(s, Cycles(n)) == s.(config := s.config + n, whitelist := s.whitelist + n)
    decreases n
  {
    if n > 0 {
      var next := s.(config := s.config + 1, whitelist := s.whitelist + 1);
      RunAppend(s, [ReloadLoads, StoreWhitelist, StoreConfig], Cycles(n - 1));
      OneCycle(s);
      RunCycles(next, n - 1);
    }
  }

  lemma OneCycle(s: System)
    requires s.reloader == Idle
    ensures Run(s, [ReloadLoads, StoreWhitelist, StoreConfig])
        == s.(config := s.config + 1, whitelist := s.whitelist + 1)
  {
    var a := Step(s, ReloadLoads);
    var b := Step(a, StoreWhitelist);
    assert Run(s, [ReloadLoads, StoreWhitelist, StoreConfig]) == Run(a, [StoreWhitelist, StoreConfig]);
    assert Run(a, [StoreWhitelist, StoreConfig]) == Run(b, [StoreConfig]);
    assert Run(b, [StoreConfig]) == Step(b, StoreConfig);
  }

  /** The interleaving in which request `id` reads these three generations. */
  function Witness(id: nat, c: nat, w: nat, d: nat): seq<Event>
    requires Possible(c, w, d)
  {
    Cycles(c) + [ReadConfig(id)] + Middle(id, c, w, d) + [ReadConfigAgain(id)]
  }

  /** What happens between the two configuration reads. */
  function Middle(id: nat, c: nat, w: nat, d: nat): seq<Event>
    requires Possible(c, w, d)
  {
    if w <= d then Cycles(w - c) + [ReadWhitelist(id)] + Cycles(d - w)
    else Cycles(d - c) + [ReloadLoads] + [StoreWhitelist] + [ReadWhitelist(id)]
  }

  lemma RunThen(s: System, a: seq<Event>, e: Event)
    ensures Run(s, a + [e]) == Step(Run(s, a), e)
  {
    RunAppend(s, a, [e]);
    assert Run(Run(s, a), [e]) == Step(Run(s, a), e);
  }

  lemma WitnessRuns(id: nat, c: nat, w: nat, d: nat)
    requires Possible(c, w, d)
    ensures var s := Run(START, Witness(id, c, w, d)); id in s.requests && s.requests[id] == Three(c, w, d)
  {
    var first := Cycles(c) + [ReadConfig(id)];
    RunCycles(START, c);
    RunThen(START, Cycles(c), ReadConfig(id));
    var s1 := System(Idle, c, c, map[id := One(c)]);
    assert Run(START, first) == s1;
    var middle := Middle(id, c, w, d);
    if w <= d { LaterWhitelist(id, c, w, d, s1); } else { HalfWhitelist(id, c, w, d, s1); }
    RunAppend(START, first, middle);
    RunThen(START, first + middle, ReadConfigAgain(id));
    assert Witness(id, c, w, d) == first + middle + [ReadConfigAgain(id)];
  }

  lemma LaterWhitelist(id: nat, c: nat, w: nat, d: nat, s: System)
    requires Possible(c, w, d) && w <= d && s == System(Idle, c, c, map[id := One(c)])
    ensures var t := Run(s, Middle(id, c, w, d)); t.requests == map[id := Two(c, w)] && t.config == d
  {
    assert map[id := One(c)][id := Two(c, w)] == map[id := Two(c, w)];
    RunCycles(s, w - c);
    RunThen(s, Cycles(w - c), ReadWhitelist(id));
    RunAppend(s, Cycles(w - c) + [ReadWhitelist(id)], Cycles(d - w));
    RunCycles(System(Idle, w, w, map[id := Two(c, w)]), d - w);
  }

  lemma HalfWhitelist(id: nat, c: nat, w: nat, d: nat, s: System)
    requires Possible(c, w, d) && w > d && s == System(Idle, c, c, map[id := One(c)])
    ensures var t := Run(s, Middle(id, c, w, d)); t.requests == map[id := Two(c, w)] && t.config == d
  {
    assert map[id := One(c)][id := Two(c, w)] == map[id := Two(c, w)];
    RunCycles(s, d - c);
    RunThen(s, Cycles(d - c), ReloadLoads);
    RunThen(s, Cycles(d - c) + [ReloadLoads], StoreWhitelist);
    RunThen(s, Cycles(d - c) + [ReloadLoads] + [StoreWhitelist], ReadWhitelist(id));
  }

  /** Exactly the possible triples are read by some request in some interleaving. */
  lemma ExactlyPossible(id: nat, c: nat, w: nat, d: nat)
    ensures Possible(c, w, d)
       <==> exists events :: var s := Run(START, events); id in s.requests && s.requests[id] == Three(c, w, d)
  {
    if Possible(c, w, d) {
      WitnessRuns(id, c, w, d);
    }
    forall events | (var s := Run(START, events); id in s.requests && s.requests[id] == Three(c, w, d))
      ensures Possible(c, w, d)
    {
      EveryInterleaving(events, id);
    }
  }

  // ---------- when the reads agree ----------

  /** The state when event `i` happens. */
  function At(events: seq<Event>, i: nat): System
    requires i <= |events|
  {
    Run(START, events[..i])
  }

  /** Request `id` has read `p` at events `i`, `j` and `k`, as far as it got. */
  ghost predicate ReadAt(events: seq<Event>, id: nat, p: Progress, i: nat, j: nat, k: nat) {
    && i < |events| && events[i] == ReadConfig(id) && p.config == At(events, i).config
    && (!p.One? ==> i < j < |events| && events[j] == ReadWhitelist(id) && p.whitelist == At(events, j).whitelist)
    && (p.Three? ==> j < k < |events| && events[k] == ReadConfigAgain(id) && p.configAgain == At(events, k).config)
  }

  /** Whatever a request has read was in the cells when it read it. */
  lemma {:induction false} ReadsHappened(events: seq<Event>, id: nat) returns (i: nat, j: nat, k: nat)
    requires id in Run(START, events).requests
    ensures ReadAt(events, id, Run(START, events).requests[id], i, j, k)
    decreases |events|
  {
    var n := |events| - 1;
    var before, e := events[..n], events[n];
    var s := Run(START, before);
    assert events == before + [e];
    RunThen(START, before, e);
    if id in s.requests {
      i, j, k := ReadsHappened(before, id);
      EarlierReads(events, n, id, s.requests[id], i, j, k);
      if e == ReadWhitelist(id) && s.requests[id].One? { j := n; }
      if e == ReadConfigAgain(id) && s.requests[id].Two? { k := n; }
    } else {
      i, j, k := n, 0, 0;
    }
  }

  /** Reads in the first `n` events are reads. */
  lemma EarlierReads(events: seq<Event>, n: nat, id: nat, p: Progress, i: nat, j: nat, k: nat)
    requires n <= |events| && ReadAt(events[..n], id, p, i, j, k)
    ensures ReadAt(events, id, p, i, j, k)
  {
    forall m | 0 <= m <= n ensures At(events[..n], m) == At(events, m) {
      assert events[..n][..m] == events[..m];
    }
  }

  lemma {:induction false} ConfigGrows(s: System, events: seq<Event>)
    ensures Run(s, events).config >= s.config
    decreases events
  {
    if events != [] {
      ConfigGrows(Step(s, events[0]), events[1..]);
    }
  }

  lemma ConfigGrowsBetween(events: seq<Event>, i: nat, j: nat)
    requires i <= j <= |events|
    ensures At(events, i).config <= At(events, j).config
  {
    assert events[..j] == events[..i] + events[i..j];
    RunAppend(START, events[..i], events[i..j]);
    ConfigGrows(At(events, i), events[i..j]);
  }

  /**
    The three reads of a request are of one generation exactly when the configuration cell is the
    same at both configuration reads and the reloader is not between its two stores at the
    whitelist read.
   */
  lemma AgreeExactly(events: seq<Event>, id: nat, p: Progress, i: nat, j: nat, k: nat)
    requires p.Three? && ReadAt(events, id, p, i, j, k)
    ensures p.config == p.whitelist == p.configAgain
       <==> At(events, i).config == At(events, k).config && At(events, j).reloader != Half
  {
    RunKeepsInv(START, events[..j]);
    ConfigGrowsBetween(events, i, j);
    ConfigGrowsBetween(events, j, k);
  }
}
