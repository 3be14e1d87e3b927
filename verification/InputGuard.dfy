/** The menu's guard against a controller that sends bursts of button edges: at most twelve
    are let through in any second, and a burst suspends the controller until it is quiet. */
module InputGuard {

  const BURST_LIMIT := 12
  const BURST_WINDOW := 1000
  const QUIET_RESET := 1000

  predicate Ascending(times: seq<int>) {
    (forall i, j :: 0 <= i <= j < |times| ==> times[i] <= times[j]) == true
  }

  /** Any thirteen in a row span a whole window. */
  predicate Spread(times: seq<int>) {
    (forall i :: 0 <= i && i + 12 < |times| ==> times[i + 12] - times[i] >= 1000) == true
  }

  predicate NoneAfter(times: seq<int>, now: int) {
    (forall i :: 0 <= i < |times| ==> times[i] <= now) == true
  }

  /** How many lie in the window that starts at `from`. */
  function InWindow(times: seq<int>, from: int): nat {
    if times == [] then 0
    else
      var last := times[|times| - 1];
      InWindow(times[..|times| - 1], from) + (if from <= last < from + 1000 then 1 else 0)
  }

  /** So no window, wherever it starts, holds more than the limit. */
  lemma {:induction false} WindowsHold(times: seq<int>, from: int)
    requires Ascending(times) && Spread(times)
    ensures InWindow(times, from) <= 12
  {
    var n := |times|;
    if n > 0 {
      if times[n - 1] >= from + BURST_WINDOW || n <= BURST_LIMIT {
        WindowsHold(times[..n - 1], from);
        AtMostAll(times, from);
      } else if times[n - 1] >= from {
        AtMostLast(times, from, n - BURST_LIMIT);
      } else {
        NoneIn(times, from);
      }
    }
  }

  lemma {:induction false} AtMostAll(times: seq<int>, from: int)
    ensures InWindow(times, from) <= |times|
  {
    if times != [] {
      AtMostAll(times[..|times| - 1], from);
    }
  }

  lemma {:induction false} NoneIn(times: seq<int>, from: int)
    requires forall i :: 0 <= i < |times| ==> times[i] < from
    ensures InWindow(times, from) == 0
  {
    if times != [] {
      NoneIn(times[..|times| - 1], from);
    }
  }

  /** If all before position k are too early, at most the rest count. */
  lemma {:induction false} LaterOnly(times: seq<int>, from: int, k: nat)
    requires k <= |times| && forall i :: 0 <= i < k ==> times[i] < from
    ensures InWindow(times, from) <= |times| - k
  {
    if |times| == k {
      NoneIn(times, from);
    } else {
      LaterOnly(times[..|times| - 1], from, k);
    }
  }

  lemma AtMostLast(times: seq<int>, from: int, k: nat)
    requires Ascending(times) && Spread(times) && k == |times| - BURST_LIMIT
    requires from <= times[|times| - 1] < from + BURST_WINDOW
    ensures InWindow(times, from) <= BURST_LIMIT
  {
    if k > 0 {
      assert times[|times| - 1] - times[k - 1] >= BURST_WINDOW by {
        assert k - 1 + BURST_LIMIT == |times| - 1;
      }
    }
    LaterOnly(times, from, k);
  }

  /** The recent ones among ascending times are the last ones. */
  lemma {:induction false} RecentAre(times: seq<int>, now: int, recent: nat)
    requires Ascending(times) && recent <= |times| && NoneAfter(times, now)
    requires forall i :: 0 <= i < |times| - recent ==> times[i] <= now - BURST_WINDOW
    requires forall i :: |times| - recent <= i < |times| ==> times[i] > now - BURST_WINDOW
    ensures InWindow(times, now - BURST_WINDOW + 1) == recent
  {
    var from := now - BURST_WINDOW + 1;
    if recent == 0 {
      NoneIn(times, from);
    } else {
      RecentAre(times[..|times| - 1], now, recent - 1);
    }
  }

  /** The remembered times are the last accepted, and all others are a window ago. */
  ghost predicate Remembers(edgeTimes: seq<int>, accepted: seq<int>, now: int) {
    (&& |edgeTimes| <= BURST_LIMIT && |edgeTimes| <= |accepted|
     && edgeTimes == accepted[|accepted| - |edgeTimes|..]
     && forall i :: 0 <= i < |accepted| - |edgeTimes| ==> accepted[i] <= now - BURST_WINDOW) == true
  }

  lemma Forgets(edgeTimes: seq<int>, accepted: seq<int>, now: int)
    requires Remembers(edgeTimes, accepted, now) && edgeTimes != [] && now - edgeTimes[0] >= BURST_WINDOW
    ensures Remembers(edgeTimes[1..], accepted, now)
  {
  }

  /** The remembered times are those of the last window, and one more below the limit keeps
      the accepted edges spread. */
  lemma Admits(edgeTimes: seq<int>, accepted: seq<int>, now: int)
    requires Ascending(accepted) && Spread(accepted) && Remembers(edgeTimes, accepted, now)
    requires NoneAfter(accepted, now)
    requires edgeTimes != [] ==> now - edgeTimes[0] < BURST_WINDOW
    ensures InWindow(accepted, now - BURST_WINDOW + 1) == |edgeTimes|
    ensures Ascending(accepted + [now]) && NoneAfter(accepted + [now], now)
    ensures |edgeTimes| < BURST_LIMIT ==>
      Spread(accepted + [now]) && Remembers(edgeTimes + [now], accepted + [now], now)
  {
    assert edgeTimes != [] ==> edgeTimes[0] == accepted[|accepted| - |edgeTimes|];
    RecentAre(accepted, now, |edgeTimes|);
    OneMore(accepted, now);
    if |edgeTimes| < BURST_LIMIT {
      OneMoreSpread(edgeTimes, accepted, now);
      OneMoreRemembered(edgeTimes, accepted, now);
    }
  }

  lemma OneMore(accepted: seq<int>, now: int)
    requires Ascending(accepted) && NoneAfter(accepted, now)
    ensures Ascending(accepted + [now]) && NoneAfter(accepted + [now], now)
  {
  }

  lemma OneMoreSpread(edgeTimes: seq<int>, accepted: seq<int>, now: int)
    requires Spread(accepted) && Remembers(edgeTimes, accepted, now) && |edgeTimes| < BURST_LIMIT
    ensures Spread(accepted + [now])
  {
  }

  lemma OneMoreRemembered(edgeTimes: seq<int>, accepted: seq<int>, now: int)
    requires Remembers(edgeTimes, accepted, now) && |edgeTimes| < BURST_LIMIT
    ensures Remembers(edgeTimes + [now], accepted + [now], now)
  {
  }

  // ------------------------------------------------------------ what the guard means

  datatype Event = Edge(at: int) | Check(at: int)

  /** Whether it is suspended, the time of the last edge, and of all the edges let through. */
  datatype Guard = Guard(suspended: bool, lastEdgeAt: int, accepted: seq<int>)

  /** An edge passes unless the guard is suspended or twelve have passed in the last second;
      a suspended guard recovers at a check a second after the last edge, passed or not. */
  function Stepped(g: Guard, e: Event): Guard {
    match e
    case Edge(at) =>
      if !g.suspended && InWindow(g.accepted, at - BURST_WINDOW + 1) < BURST_LIMIT
      then Guard(false, at, g.accepted + [at])
      else Guard(true, at, g.accepted)
    case Check(at) =>
      if g.suspended && at - g.lastEdgeAt >= QUIET_RESET then Guard(false, -1, g.accepted) else g
  }

  function Passed(g: Guard, events: seq<Event>): Guard {
    if events == [] then g else Stepped(Passed(g, events[..|events| - 1]), events[|events| - 1])
  }

  /** Events come in the order of their times, none before the clock. */
  ghost predicate InOrder(clock: int, events: seq<Event>) {
    (&& (forall i :: 0 <= i < |events| ==> events[i].at >= clock)
     && (forall i, j :: 0 <= i <= j < |events| ==> events[i].at <= events[j].at)) == true
  }

  function Clock(clock: int, events: seq<Event>): int {
    if events == [] then clock else events[|events| - 1].at
  }

  lemma PassedNext(g: Guard, clock: int, events: seq<Event>)
    requires events != []
    ensures var n := |events| - 1;
      Passed(g, events) == Stepped(Passed(g, events[..n]), events[n]) && Clock(clock, events) == events[n].at
  {
  }

  lemma NothingPassed(g: Guard, clock: int)
    ensures Passed(g, []) == g && Clock(clock, []) == clock
  {
  }

  lemma OrderedFirst(clock: int, events: seq<Event>, n: nat)
    requires InOrder(clock, events) && n < |events|
    ensures InOrder(clock, events[..n]) && clock <= Clock(clock, events[..n]) <= events[n].at
  {
  }

  ghost predicate Bounded(g: Guard, clock: int) {
    Ascending(g.accepted) && Spread(g.accepted) && NoneAfter(g.accepted, clock)
  }

  /** If the last k lie in the window, it holds as many. */
  lemma {:induction false} AtLeastLast(times: seq<int>, from: int, k: nat)
    requires k <= |times| && forall i :: |times| - k <= i < |times| ==> from <= times[i] < from + BURST_WINDOW
    ensures InWindow(times, from) >= k
  {
    if k > 0 {
      AtLeastLast(times[..|times| - 1], from, k - 1);
    }
  }

  /** One more edge keeps the accepted ones spread exactly if the last second has room. */
  lemma RoomMeansSpread(times: seq<int>, now: int)
    requires Ascending(times) && Spread(times) && NoneAfter(times, now)
    ensures InWindow(times, now - BURST_WINDOW + 1) < BURST_LIMIT <==> Spread(times + [now])
  {
    var n, from := |times|, now - BURST_WINDOW + 1;
    if n < BURST_LIMIT {
      AtMostAll(times, from);
    } else if times[n - BURST_LIMIT] >= from {
      AtLeastLast(times, from, BURST_LIMIT);
      assert !Spread(times + [now]) by {
        var i := n - BURST_LIMIT;
        assert (times + [now])[i + BURST_LIMIT] == now && (times + [now])[i] == times[i];
      }
    } else {
      LaterOnly(times, from, n - BURST_LIMIT + 1);
    }
  }

  lemma SteppedBounded(g: Guard, clock: int, e: Event)
    requires Bounded(g, clock) && clock <= e.at
    ensures Bounded(Stepped(g, e), e.at)
  {
    LaterClock(g.accepted, clock, e.at);
    RoomMeansSpread(g.accepted, e.at);
    OneMore(g.accepted, e.at);
  }

  lemma {:induction false} PassedBounded(g: Guard, clock: int, events: seq<Event>)
    requires Bounded(g, clock) && InOrder(clock, events)
    ensures Bounded(Passed(g, events), Clock(clock, events))
  {
    hide *;
    if events == [] {
      NothingPassed(g, clock);
    } else {
      var n := |events| - 1;
      OrderedFirst(clock, events, n);
      PassedBounded(g, clock, events[..n]);
      PassedNext(g, clock, events);
      SteppedBounded(Passed(g, events[..n]), Clock(clock, events[..n]), events[n]);
    }
  }

  lemma LaterClock(times: seq<int>, now: int, later: int)
    requires NoneAfter(times, now) && now <= later
    ensures NoneAfter(times, later)
  {
  }

  /** After any run of edges and checks no second, wherever it starts, holds more than twelve
      of the edges let through. */
  lemma BurstsHeld(g: Guard, clock: int, events: seq<Event>, from: int)
    requires Bounded(g, clock) && InOrder(clock, events)
    ensures InWindow(Passed(g, events).accepted, from) <= 12
  {
    PassedBounded(g, clock, events);
    WindowsHold(Passed(g, events).accepted, from);
  }

  const FRESH := Guard(false, -1, [])

  /** The times of all the edges. */
  function EdgesOf(events: seq<Event>): seq<int> {
    if events == [] then []
    else
      var last := events[|events| - 1];
      EdgesOf(events[..|events| - 1]) + (if last.Edge? then [last.at] else [])
  }

  lemma {:induction false} EdgesInOrder(clock: int, events: seq<Event>)
    requires InOrder(clock, events)
    ensures Ascending(EdgesOf(events)) && NoneAfter(EdgesOf(events), Clock(clock, events))
  {
    if events != [] {
      var n := |events| - 1;
      OrderedFirst(clock, events, n);
      EdgesInOrder(clock, events[..n]);
      LaterClock(EdgesOf(events[..n]), Clock(clock, events[..n]), events[n].at);
      OneMore(EdgesOf(events[..n]), events[n].at);
    }
  }

  lemma SpreadFirst(times: seq<int>, at: int)
    requires Spread(times + [at])
    ensures Spread(times)
  {
    forall i | 0 <= i && i + BURST_LIMIT < |times| ensures times[i + BURST_LIMIT] - times[i] >= BURST_WINDOW {
      assert (times + [at])[i + BURST_LIMIT] == times[i + BURST_LIMIT] && (times + [at])[i] == times[i];
    }
  }

  lemma NoEdges()
    ensures EdgesOf([]) == [] && Passed(FRESH, []).accepted == [] && !Passed(FRESH, []).suspended
  {
  }

  lemma EdgesNext(events: seq<Event>)
    requires events != []
    ensures var n := |events| - 1;
      EdgesOf(events) == if events[n].Edge? then EdgesOf(events[..n]) + [events[n].at] else EdgesOf(events[..n])
  {
    assert EdgesOf(events[..|events| - 1]) + [] == EdgesOf(events[..|events| - 1]);
  }

  lemma SteadyStep(g: Guard, e: Event)
    requires !g.suspended && Ascending(g.accepted) && Spread(g.accepted) && NoneAfter(g.accepted, e.at)
    requires e.Edge? ==> Spread(g.accepted + [e.at])
    ensures !Stepped(g, e).suspended
    ensures Stepped(g, e).accepted == if e.Edge? then g.accepted + [e.at] else g.accepted
  {
    RoomMeansSpread(g.accepted, e.at);
  }

  lemma {:induction false} SteadyPasses(clock: int, events: seq<Event>)
    requires InOrder(clock, events) && Spread(EdgesOf(events))
    ensures Passed(FRESH, events).accepted == EdgesOf(events) && !Passed(FRESH, events).suspended
  {
    hide *;
    if events == [] {
      NoEdges();
    } else {
      var n := |events| - 1;
      var times, at := EdgesOf(events[..n]), events[n].at;
      EdgesNext(events);
      OrderedFirst(clock, events, n);
      EdgesInOrder(clock, events[..n]);
      LaterClock(times, Clock(clock, events[..n]), at);
      if events[n].Edge? {
        SpreadFirst(times, at);
      }
      SteadyPasses(clock, events[..n]);
      PassedNext(FRESH, clock, events);
      SteadyStep(Passed(FRESH, events[..n]), events[n]);
    }
  }

  /** A new guard lets every edge of a run through exactly if no thirteen of them in a row come
      within a second: whoever plays no faster is never cut off. */
  lemma AllPassExactly(clock: int, events: seq<Event>)
    requires InOrder(clock, events)
    ensures Passed(FRESH, events).accepted == EdgesOf(events) <==> Spread(EdgesOf(events))
  {
    assert Bounded(FRESH, clock);
    PassedBounded(FRESH, clock, events);
    if Spread(EdgesOf(events)) {
      SteadyPasses(clock, events);
    }
  }

  class MenuControllerInputGuard {
    var edgeTimes: seq<int>
    var suspended: bool
    var lastEdgeAt: int
    /** Times of all the edges let through, and of the last event. */
    ghost var accepted: seq<int>
    ghost var clock: int

    ghost predicate Valid()
      reads this
    {
      && 0 <= clock && Ascending(accepted) && Spread(accepted)
      && NoneAfter(accepted, clock)
      && (suspended ==> 0 <= lastEdgeAt <= clock && NoneAfter(accepted, lastEdgeAt))
      && (!suspended ==> Remembers(edgeTimes, accepted, clock))
    }

    ghost function State(): Guard
      reads this
    {
      Guard(suspended, lastEdgeAt, accepted)
    }

    constructor ()
      ensures State() == FRESH
      ensures Valid() && accepted == [] && clock == 0 && !suspended
    {
      edgeTimes, suspended, lastEdgeAt, accepted, clock := [], false, -1, [], 0;
    }

    /** accept_edge: an edge passes unless the guard is suspended or the twelve allowed in the
        last second have passed already. */
    method AcceptEdge(now: int) returns (ok: bool)
      requires Valid() && now >= clock
      modifies this
      ensures Valid() && clock == now && lastEdgeAt == now
      ensures ok <==> !old(suspended) && InWindow(old(accepted), now - 999) < 12
      ensures accepted == if ok then old(accepted) + [now] else old(accepted)
      ensures suspended <==> !ok
    {
      LaterClock(accepted, clock, now);
      lastEdgeAt, clock := now, now;
      if suspended { return false; }
      ok := TakeEdge(now);
    }

    method TakeEdge(now: int) returns (ok: bool)
      requires !suspended && 0 <= now && Ascending(accepted) && Spread(accepted) && NoneAfter(accepted, now)
      requires Remembers(edgeTimes, accepted, now) && clock == lastEdgeAt == now
      modifies `edgeTimes, `accepted, `suspended
      ensures Valid() && suspended == !ok
      ensures ok <==> InWindow(old(accepted), now - BURST_WINDOW + 1) < BURST_LIMIT
      ensures accepted == if ok then old(accepted) + [now] else old(accepted)
    {
      hide Ascending, Spread, NoneAfter, Remembers, InWindow;
      Purge(now);
      Admits(edgeTimes, accepted, now);
      edgeTimes := edgeTimes + [now];
      if |edgeTimes| <= BURST_LIMIT {
        accepted := accepted + [now];
        return true;
      }
      suspended := true;
      ok := false;
    }

    /** Forgets the times that are a window ago. */
    method Purge(now: int)
      requires Remembers(edgeTimes, accepted, now)
      modifies this`edgeTimes
      ensures Remembers(edgeTimes, accepted, now) && (edgeTimes != [] ==> now - edgeTimes[0] < BURST_WINDOW)
    {
      while |edgeTimes| > 0 && now - edgeTimes[0] >= BURST_WINDOW
        invariant Remembers(edgeTimes, accepted, now)
        decreases |edgeTimes|
      {
        Forgets(edgeTimes, accepted, now);
        edgeTimes := edgeTimes[1..];
      }
    }

    /** recover_if_quiet: a suspended guard recovers at a check a second or more after the last
        edge, let through or not, and at no earlier one. */
    method RecoverIfQuiet(now: int) returns (recovered: bool)
      requires Valid() && now >= clock
      modifies this
      ensures Valid() && clock == now && accepted == old(accepted)
      ensures recovered <==> old(suspended) && now - old(lastEdgeAt) >= 1000
      ensures suspended <==> old(suspended) && !recovered
      ensures lastEdgeAt == if recovered then -1 else old(lastEdgeAt)
    {
      clock := now;
      if !suspended || lastEdgeAt < 0 || now - lastEdgeAt < QUIET_RESET { return false; }
      edgeTimes, suspended, lastEdgeAt := [], false, -1;
      recovered := true;
    }

    method Handle(e: Event)
      requires Valid() && e.at >= clock
      modifies this
      ensures Valid() && State() == Stepped(old(State()), e) && clock == e.at
    {
      match e
      case Edge(at) => var _ := AcceptEdge(at);
      case Check(at) => var _ := RecoverIfQuiet(at);
    }

    /** Any run of edges and checks. */
    method Run(events: seq<Event>)
      requires Valid() && InOrder(clock, events)
      modifies this
      ensures Valid() && State() == Passed(old(State()), events) && clock == Clock(old(clock), events)
      ensures forall from :: InWindow(accepted, from) <= BURST_LIMIT
    {
      ghost var g, start := State(), clock;
      for i := 0 to |events|
        invariant Valid() && State() == Passed(g, events[..i]) && clock == Clock(start, events[..i])
      {
        assert events[..i + 1][..i] == events[..i];
        OrderedFirst(start, events, i);
        Handle(events[i]);
      }
      assert events[..|events|] == events;
      forall from ensures InWindow(accepted, from) <= BURST_LIMIT {
        WindowsHold(accepted, from);
      }
    }
  }
}
