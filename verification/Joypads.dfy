/** Which connected gamepad is which player. A scan opens the gamepads that are not in use, puts
    them in the order of their USB ports and gives them to players: first each its old player by
    the remembered port, then to players never used, then to players whose gamepad is gone; the
    rest are closed again. */
module Joypads {

  import opened Basics
  import Sorting

  const PLAYERS := 2

  /** A player's gamepad, or a candidate: fd is -1 for none. */
  datatype Device = Device(fd: int, path: seq<byte>, port: seq<byte>)

  const NO_DEVICE := Device(-1, [], [])

  predicate Connected(d: Device) { d.fd >= 0 }

  // -------------------------------------------------------------- the phases

  /** First candidate left that stands at a port. */
  function AtPort(c: seq<Device>, port: seq<byte>, i: nat): (r: nat)
    requires i <= |c|
    ensures i <= r <= |c| && (r < |c| ==> Connected(c[r]) && c[r].port == port)
    ensures forall k :: i <= k < r ==> !(Connected(c[k]) && c[k].port == port)
    decreases |c| - i
  {
    if i == |c| || (Connected(c[i]) && c[i].port == port) then i else AtPort(c, port, i + 1)
  }

  /** First candidate left. */
  function Left(c: seq<Device>, i: nat): (r: nat)
    requires i <= |c|
    ensures i <= r <= |c| && (r < |c| ==> Connected(c[r])) && forall k :: i <= k < r ==> !Connected(c[k])
    decreases |c| - i
  {
    if i == |c| || Connected(c[i]) then i else Left(c, i + 1)
  }

  /** First player without a gamepad. */
  function Free(s: seq<Device>, p: nat): (r: nat)
    requires p <= |s|
    ensures p <= r <= |s| && (r < |s| ==> !Connected(s[r])) && forall k :: p <= k < r ==> Connected(s[k])
    decreases |s| - p
  {
    if p == |s| || !Connected(s[p]) then p else Free(s, p + 1)
  }

  /** Players and candidates. */
  datatype Seats = Seats(players: seq<Device>, candidates: seq<Device>) {
    /** Candidate i becomes player p's gamepad. */
    function Attach(p: nat, i: nat): Seats
      requires p < |players| && i < |candidates|
    {
      Seats(players[p := candidates[i]], candidates[i := candidates[i].(fd := -1)])
    }

    /** Back to the old player, if the port matches. */
    function Return(p: nat): Seats
      requires p < |players|
    {
      if Connected(players[p]) || players[p].port == [] then this
      else
        var i := AtPort(candidates, players[p].port, 0);
        if i < |candidates| then Attach(p, i) else this
    }

    /** To a player that never had one. */
    function Fill(p: nat): Seats
      requires p < |players|
    {
      if Connected(players[p]) || players[p].port != [] then this
      else
        var i := Left(candidates, 0);
        if i < |candidates| then Attach(p, i) else this
    }

    /** A moved gamepad takes the first free seat. */
    function Reseat(i: nat): Seats
      requires i < |candidates|
    {
      if !Connected(candidates[i]) then this
      else
        var p := Free(players, 0);
        if p < |players| then Attach(p, i) else this
    }

    function ReturnFrom(p: nat): Seats
      requires p <= |players|
      decreases |players| - p
    {
      if p == |players| then this else Return(p).ReturnFrom(p + 1)
    }

    function FillFrom(p: nat): Seats
      requires p <= |players|
      decreases |players| - p
    {
      if p == |players| then this else Fill(p).FillFrom(p + 1)
    }

    function ReseatFrom(i: nat): Seats
      requires i <= |candidates|
      decreases |candidates| - i
    {
      if i == |candidates| then this else Reseat(i).ReseatFrom(i + 1)
    }

    function Scanned(): Seats {
      ReturnFrom(0).FillFrom(0).ReseatFrom(0)
    }

    /** Players and candidates of a kind. */
    function Total(has: Device -> bool): nat {
      Count(players, has) + Count(candidates, has)
    }
  }

  // ------------------------------------------------------------------ counting

  function Count(s: seq<Device>, has: Device -> bool): nat {
    if s == [] then 0 else Count(s[..|s| - 1], has) + (if has(s[|s| - 1]) then 1 else 0)
  }

  lemma {:induction false} CountUpdate(s: seq<Device>, i: nat, d: Device, has: Device -> bool)
    requires i < |s|
    ensures Count(s[i := d], has) == Count(s, has) - (if has(s[i]) then 1 else 0) + (if has(d) then 1 else 0)
  {
    var n, s' := |s| - 1, s[i := d];
    if i < n {
      CountUpdate(s[..n], i, d, has);
      assert s'[..n] == s[..n][i := d];
    } else {
      assert s'[..n] == s[..n];
    }
  }

  lemma {:induction false} CountSome(s: seq<Device>, i: nat, has: Device -> bool)
    requires i < |s| && has(s[i])
    ensures Count(s, has) > 0
  {
    if i < |s| - 1 {
      CountSome(s[..|s| - 1], i, has);
    }
  }

  lemma {:induction false} CountNone(s: seq<Device>, has: Device -> bool)
    requires forall k :: 0 <= k < |s| ==> !has(s[k])
    ensures Count(s, has) == 0
  {
    if s != [] {
      CountNone(s[..|s| - 1], has);
    }
  }

  lemma {:induction false} CountTwo(s: seq<Device>, i: nat, j: nat, has: Device -> bool)
    requires i < j < |s| && has(s[i]) && has(s[j])
    ensures Count(s, has) > 1
  {
    if j < |s| - 1 {
      CountTwo(s[..|s| - 1], i, j, has);
    } else {
      CountSome(s[..|s| - 1], i, has);
    }
  }

  lemma {:induction false} CountOne(s: seq<Device>, has: Device -> bool)
    requires forall i, j :: 0 <= i < j < |s| ==> !(has(s[i]) && has(s[j]))
    ensures Count(s, has) <= 1
  {
    if s != [] {
      var n := |s| - 1;
      assert forall k :: 0 <= k < n ==> s[..n][k] == s[k];
      if has(s[n]) {
        CountNone(s[..n], has);
      } else {
        CountOne(s[..n], has);
      }
    }
  }

  function WithFd(fd: int): Device -> bool { (d: Device) => d.fd == fd }

  function OnPath(path: seq<byte>): Device -> bool { (d: Device) => Connected(d) && d.path == path }

  // ------------------------------------------------------------ no device lost

  /** Every open descriptor belongs to exactly one player or candidate. */
  ghost predicate Owned(s: Seats, open: set<int>) {
    (&& (forall fd :: fd in open ==> fd >= 0)
     && (forall fd :: fd >= 0 ==> s.Total(WithFd(fd)) == if fd in open then 1 else 0)) == true
  }

  /** No device is open twice. */
  ghost predicate SinglePaths(s: Seats) {
    (forall path :: s.Total(OnPath(path)) <= 1) == true
  }

  /** What no step of a scan changes: how many seats there are, whoever is connected, and how
      often a descriptor or a device occurs. */
  ghost predicate Keeps(s: Seats, t: Seats) {
    && |t.players| == |s.players| && |t.candidates| == |s.candidates|
    && (forall p :: 0 <= p < |s.players| && Connected(s.players[p]) ==> t.players[p] == s.players[p])
    && (forall fd :: fd >= 0 ==> t.Total(WithFd(fd)) == s.Total(WithFd(fd)))
    && (forall path :: t.Total(OnPath(path)) == s.Total(OnPath(path)))
  }

  lemma AttachCounts(s: Seats, p: nat, i: nat, has: Device -> bool)
    requires p < |s.players| && i < |s.candidates|
    requires !has(s.players[p]) && !has(s.candidates[i].(fd := -1))
    ensures s.Attach(p, i).Total(has) == s.Total(has)
  {
    CountUpdate(s.players, p, s.candidates[i], has);
    CountUpdate(s.candidates, i, s.candidates[i].(fd := -1), has);
  }

  /** attach_candidate gives a player who has none the gamepad and takes it from the candidates:
      nobody else's changes, and no descriptor and no device is lost or doubled. */
  lemma AttachKeeps(s: Seats, p: nat, i: nat)
    requires p < |s.players| && i < |s.candidates| && !Connected(s.players[p]) && Connected(s.candidates[i])
    ensures Keeps(s, s.Attach(p, i))
  {
    forall fd | fd >= 0 ensures s.Attach(p, i).Total(WithFd(fd)) == s.Total(WithFd(fd)) {
      AttachCounts(s, p, i, WithFd(fd));
    }
    forall path ensures s.Attach(p, i).Total(OnPath(path)) == s.Total(OnPath(path)) {
      AttachCounts(s, p, i, OnPath(path));
    }
  }

  lemma {:induction false} ReturnKeeps(s: Seats, p: nat)
    requires p <= |s.players|
    ensures Keeps(s, s.ReturnFrom(p))
    decreases |s.players| - p
  {
    if p < |s.players| {
      var t := s.Return(p);
      if t != s {
        AttachKeeps(s, p, AtPort(s.candidates, s.players[p].port, 0));
      }
      ReturnKeeps(t, p + 1);
    }
  }

  lemma {:induction false} FillKeeps(s: Seats, p: nat)
    requires p <= |s.players|
    ensures Keeps(s, s.FillFrom(p))
    decreases |s.players| - p
  {
    if p < |s.players| {
      var t := s.Fill(p);
      if t != s {
        AttachKeeps(s, p, Left(s.candidates, 0));
      }
      FillKeeps(t, p + 1);
    }
  }

  lemma {:induction false} ReseatKeeps(s: Seats, i: nat)
    requires i <= |s.candidates|
    ensures Keeps(s, s.ReseatFrom(i))
    decreases |s.candidates| - i
  {
    if i < |s.candidates| {
      var t := s.Reseat(i);
      if t != s {
        AttachKeeps(s, Free(s.players, 0), i);
      }
      ReseatKeeps(t, i + 1);
    }
  }

  /** A scan moves no connected player and loses or doubles no device. */
  lemma ScanKeeps(s: Seats)
    ensures Keeps(s, s.Scanned())
  {
    var returned := s.ReturnFrom(0);
    ReturnKeeps(s, 0);
    var filled := returned.FillFrom(0);
    FillKeeps(returned, 0);
    ReseatKeeps(filled, 0);
  }

  // --------------------------------------------------- no device turned away

  predicate AllSeated(players: seq<Device>) {
    forall p :: 0 <= p < |players| ==> Connected(players[p])
  }

  lemma {:induction false} ReseatSeats(s: Seats, i: nat)
    requires i <= |s.candidates|
    requires forall j :: 0 <= j < i && Connected(s.candidates[j]) ==> AllSeated(s.players)
    ensures var t := s.ReseatFrom(i);
      |t.candidates| == |s.candidates|
      && forall j :: 0 <= j < |t.candidates| && Connected(t.candidates[j]) ==> AllSeated(t.players)
    decreases |s.candidates| - i
  {
    if i < |s.candidates| {
      var t := s.Reseat(i);
      if Connected(s.candidates[i]) && t == s {
        assert AllSeated(s.players);
      }
      ReseatSeats(t, i + 1);
    }
  }

  /** No gamepad is closed while a player has none. */
  lemma NoneTurnedAway(s: Seats, j: nat)
    requires j < |s.Scanned().candidates| && Connected(s.Scanned().candidates[j])
    ensures AllSeated(s.Scanned().players)
  {
    ReseatSeats(s.ReturnFrom(0).FillFrom(0), 0);
  }

  // -------------------------------------------------- players find their ports

  predicate Waits(d: Device, port: seq<byte>) { !Connected(d) && d.port == port }

  predicate Stands(d: Device, port: seq<byte>) { Connected(d) && d.port == port }

  function StandsAt(port: seq<byte>): Device -> bool { (d: Device) => Stands(d, port) }

  /** Candidates that stand at a port. */
  function Arrivals(c: seq<Device>, port: seq<byte>): nat { Count(c, StandsAt(port)) }

  /** Players from p to q who wait for a gamepad at a port. */
  function Waiting(players: seq<Device>, port: seq<byte>, p: nat, q: nat): nat
    requires p <= q <= |players|
  {
    if p == q then 0
    else Waiting(players, port, p, q - 1) + (if Waits(players[q - 1], port) then 1 else 0)
  }

  lemma FewerArrivals(c: seq<Device>, port: seq<byte>, i: nat)
    requires i < |c| && Connected(c[i])
    ensures Arrivals(c[i := c[i].(fd := -1)], port) == Arrivals(c, port) - (if c[i].port == port then 1 else 0)
  {
    CountUpdate(c, i, c[i].(fd := -1), StandsAt(port));
  }

  lemma ArrivalFound(c: seq<Device>, port: seq<byte>)
    ensures AtPort(c, port, 0) < |c| <==> Arrivals(c, port) > 0
  {
    var i := AtPort(c, port, 0);
    if i < |c| {
      CountSome(c, i, StandsAt(port));
    } else {
      CountNone(c, StandsAt(port));
    }
  }

  /** One player's turn takes at most one arrival, and only for a player waiting there. */
  lemma ReturnTakes(s: Seats, p: nat, port: seq<byte>)
    requires p < |s.players| && port != []
    ensures var t := s.Return(p);
      && |t.players| == |s.players| && |t.candidates| == |s.candidates|
      && (forall q :: 0 <= q < |s.players| && q != p ==> t.players[q] == s.players[q])
      && Arrivals(t.candidates, port)
         == Arrivals(s.candidates, port)
            - (if Waits(s.players[p], port) && Arrivals(s.candidates, port) > 0 then 1 else 0)
      && (Waits(s.players[p], port) ==>
            (Stands(t.players[p], port) <==> Arrivals(s.candidates, port) > 0)
            && (Arrivals(s.candidates, port) == 0 ==> t == s))
  {
    var d := s.players[p];
    if !Connected(d) && d.port != [] {
      var i := AtPort(s.candidates, d.port, 0);
      ArrivalFound(s.candidates, port);
      if i < |s.candidates| {
        FewerArrivals(s.candidates, port, i);
      }
    }
  }

  lemma {:induction false} SameWaiting(a: seq<Device>, b: seq<Device>, port: seq<byte>, p: nat, q: nat)
    requires p <= q <= |a| && |a| == |b| && forall k :: p <= k < q ==> a[k] == b[k]
    ensures Waiting(a, port, p, q) == Waiting(b, port, p, q)
  {
    if p < q {
      SameWaiting(a, b, port, p, q - 1);
    }
  }

  lemma {:induction false} WaitingFrom(players: seq<Device>, port: seq<byte>, p: nat, q: nat)
    requires p < q <= |players|
    ensures Waiting(players, port, p, q)
         == (if Waits(players[p], port) then 1 else 0) + Waiting(players, port, p + 1, q)
  {
    if p + 1 < q {
      WaitingFrom(players, port, p, q - 1);
    }
  }

  /** A waiting player gets a gamepad at the old port back exactly if more have arrived there
      than players before wait there; and otherwise none is left over there. */
  lemma {:induction false} Returns(s: Seats, p: nat, q: nat, port: seq<byte>)
    requires p <= q < |s.players| && port != [] && Waits(s.players[q], port)
    ensures var t := s.ReturnFrom(p);
      && |t.players| == |s.players|
      && (Stands(t.players[q], port) <==> Arrivals(s.candidates, port) > Waiting(s.players, port, p, q))
      && (!Stands(t.players[q], port) ==> t.players[q] == s.players[q] && Arrivals(t.candidates, port) == 0)
    decreases q - p
  {
    var u := s.Return(p);
    ReturnTakes(s, p, port);
    if p < q {
      WaitingFrom(s.players, port, p, q);
      SameWaiting(s.players, u.players, port, p + 1, q);
      Returns(u, p + 1, q, port);
    } else {
      ReturnKeeps(u, p + 1);
      if !Stands(u.players[q], port) {
        StaysAway(u, p + 1, q, port);
      }
    }
  }

  lemma {:induction false} StaysAway(s: Seats, p: nat, q: nat, port: seq<byte>)
    requires q < p <= |s.players| && port != [] && Arrivals(s.candidates, port) == 0
    ensures var t := s.ReturnFrom(p);
      |t.players| == |s.players| && t.players[q] == s.players[q] && Arrivals(t.candidates, port) == 0
    decreases |s.players| - p
  {
    if p < |s.players| {
      ReturnTakes(s, p, port);
      StaysAway(s.Return(p), p + 1, q, port);
    }
  }

  /** Who has no gamepad at a port that nothing arrived at gets none there. */
  ghost predicate NotAt(s: Seats, q: nat, port: seq<byte>) {
    q < |s.players| && Arrivals(s.candidates, port) == 0 && !Stands(s.players[q], port)
  }

  lemma AttachNotAt(s: Seats, p: nat, i: nat, q: nat, port: seq<byte>)
    requires p < |s.players| && i < |s.candidates| && Connected(s.candidates[i]) && NotAt(s, q, port)
    ensures NotAt(s.Attach(p, i), q, port)
  {
    FewerArrivals(s.candidates, port, i);
    if s.candidates[i].port == port {
      CountSome(s.candidates, i, StandsAt(port));
    }
  }

  lemma {:induction false} FillNotAt(s: Seats, p: nat, q: nat, port: seq<byte>)
    requires p <= |s.players| && NotAt(s, q, port)
    ensures NotAt(s.FillFrom(p), q, port)
    decreases |s.players| - p
  {
    if p < |s.players| {
      if s.Fill(p) != s {
        AttachNotAt(s, p, Left(s.candidates, 0), q, port);
      }
      FillNotAt(s.Fill(p), p + 1, q, port);
    }
  }

  lemma {:induction false} ReseatNotAt(s: Seats, i: nat, q: nat, port: seq<byte>)
    requires i <= |s.candidates| && NotAt(s, q, port)
    ensures NotAt(s.ReseatFrom(i), q, port)
    decreases |s.candidates| - i
  {
    if i < |s.candidates| {
      if s.Reseat(i) != s {
        AttachNotAt(s, Free(s.players, 0), i, q, port);
      }
      ReseatNotAt(s.Reseat(i), i + 1, q, port);
    }
  }

  /** After a whole scan a player who lost the gamepad at a port has one there again exactly if
      more arrived there than players before were waiting for one there. */
  lemma FindsOldPort(s: Seats, q: nat, port: seq<byte>)
    requires q < |s.players| && port != [] && Waits(s.players[q], port)
    ensures |s.Scanned().players| == |s.players|
    ensures Stands(s.Scanned().players[q], port)
       <==> Arrivals(s.candidates, port) > Waiting(s.players, port, 0, q)
  {
    var returned := s.ReturnFrom(0);
    var filled := returned.FillFrom(0);
    ScanKeeps(s);
    Returns(s, 0, q, port);
    FillKeeps(returned, 0);
    ReseatKeeps(filled, 0);
    if !Stands(returned.players[q], port) {
      FillNotAt(returned, 0, q, port);
      ReseatNotAt(filled, 0, q, port);
    }
  }

  // ---------------------------------------------------------------- first scan

  predicate Unused(d: Device) { !Connected(d) && d.port == [] }

  /** Players nobody has used yet get the candidates in order. */
  lemma {:induction false} FillsInOrder(s: Seats, p: nat)
    requires p <= |s.players|
    requires forall q :: p <= q < |s.players| ==> Unused(s.players[q])
    requires forall k :: 0 <= k < |s.candidates| ==> (Connected(s.candidates[k]) <==> p <= k)
    ensures var t := s.FillFrom(p);
      && |t.players| == |s.players|
      && (forall q :: 0 <= q < p ==> t.players[q] == s.players[q])
      && (forall q :: p <= q < |s.players| && q < |s.candidates| ==> t.players[q] == s.candidates[q])
    decreases |s.players| - p
  {
    if p < |s.players| {
      if p < |s.candidates| {
        var left := Left(s.candidates, 0);
        assert left < |s.candidates| ==> Connected(s.candidates[left]);
        assert Connected(s.candidates[p]);
        FillsInOrder(s.Fill(p), p + 1);
      } else {
        assert Left(s.candidates, 0) == |s.candidates|;
        FillsInOrder(s.Fill(p), p + 1);
      }
    }
  }

  lemma {:induction false} NobodyReturns(s: Seats, p: nat)
    requires p <= |s.players| && forall q :: 0 <= q < |s.players| ==> Unused(s.players[q])
    ensures s.ReturnFrom(p) == s
    decreases |s.players| - p
  {
    if p < |s.players| {
      NobodyReturns(s, p + 1);
    }
  }

  /** At the first scan player k gets the k-th candidate. */
  lemma FirstScan(s: Seats, q: nat)
    requires q < |s.players| && q < |s.candidates|
    requires forall p :: 0 <= p < |s.players| ==> Unused(s.players[p])
    requires forall k :: 0 <= k < |s.candidates| ==> Connected(s.candidates[k])
    ensures q < |s.Scanned().players| && s.Scanned().players[q] == s.candidates[q]
  {
    NobodyReturns(s, 0);
    FillsInOrder(s, 0);
    ReseatKeeps(s.FillFrom(0), 0);
  }

  // ----------------------------------------------------------- the order of the ports

  /** candidate_order. */
  predicate Before(a: Device, b: Device) {
    if a.port != b.port then TextLess(a.port, b.port) else TextLess(a.path, b.path)
  }

  lemma BeforeOrder(a: Device, b: Device)
    ensures !(Before(a, b) && Before(b, a))
    ensures !Before(a, b) && !Before(b, a) ==> a.port == b.port && a.path == b.path
  {
    TextOrder(a.port, b.port);
    TextOrder(a.path, b.path);
  }

  lemma BeforeTransitive(a: Device, b: Device, c: Device)
    requires !Before(b, a) && !Before(c, b)
    ensures !Before(c, a)
  {
    TextOrder(a.port, b.port);
    TextOrder(b.port, c.port);
    TextOrder(a.port, c.port);
    TextTransitive(a.port, b.port, c.port);
    if a.port == b.port == c.port {
      TextTransitive(a.path, b.path, c.path);
    }
  }

  const PORT_ORDER := (a: Device, b: Device) => Before(a, b)

  lemma PortOrderIsOrder()
    ensures Sorting.IsOrder(PORT_ORDER)
  {
    forall a, b ensures !(PORT_ORDER(a, b) && PORT_ORDER(b, a)) {
      BeforeOrder(a, b);
    }
    forall a, b, c | !PORT_ORDER(b, a) && !PORT_ORDER(c, b) ensures !PORT_ORDER(c, a) {
      BeforeTransitive(a, b, c);
    }
  }

  predicate InPortOrder(c: seq<Device>) {
    (forall i, j :: 0 <= i < j < |c| ==> !Before(c[j], c[i])) == true
  }

  /** The candidates, sorted. */
  function Ordered(c: seq<Device>): (r: seq<Device>)
    ensures |r| == |c|
  {
    Sorting.StableSort(c, PORT_ORDER)
  }

  function Weight(has: Device -> bool): Device -> nat { d => if has(d) then 1 else 0 }

  lemma {:induction false} CountIsSum(c: seq<Device>, has: Device -> bool)
    ensures Count(c, has) == Sorting.Sum(c, Weight(has))
  {
    if c != [] {
      CountIsSum(c[..|c| - 1], has);
    }
  }

  /** Sorting loses and doubles none. */
  lemma OrderedCounts(c: seq<Device>, has: Device -> bool)
    ensures Count(Ordered(c), has) == Count(c, has)
  {
    CountIsSum(c, has);
    CountIsSum(Ordered(c), has);
    Sorting.SortSum(c, PORT_ORDER, Weight(has));
  }

  lemma OrderedHolds(c: seq<Device>, x: Device)
    ensures x in Ordered(c) <==> x in c
  {
    Sorting.SortHolds(c, PORT_ORDER, x);
  }

  lemma OrderedIsInOrder(c: seq<Device>)
    ensures InPortOrder(Ordered(c))
  {
    PortOrderIsOrder();
    Sorting.SortOrders(c, PORT_ORDER);
    var r := Ordered(c);
    forall i, j | 0 <= i < j < |r| ensures !Before(r[j], r[i]) {
      assert !PORT_ORDER(r[j], r[i]);
    }
  }

  // -------------------------------------------------------------------- discovery

  /** An event device: the descriptor that opening it gives, if any, whether it is a gamepad of
      the kind supported, and the port it says it stands at. */
  datatype Node = Node(path: seq<byte>, fd: int, gamepad: bool, port: seq<byte>)

  /** path_is_open. */
  predicate PathOpen(players: seq<Device>, path: seq<byte>) {
    exists p :: 0 <= p < |players| && Connected(players[p]) && players[p].path == path
  }

  predicate Usable(players: seq<Device>, n: Node) { !PathOpen(players, n.path) && n.fd >= 0 && n.gamepad }

  /** A device that does not say where it stands stands at its own path. */
  function CandidateOf(n: Node): Device { Device(n.fd, n.path, if n.port == [] then n.path else n.port) }

  /** The devices of the first so many nodes that become candidates. */
  function Found(players: seq<Device>, nodes: seq<Node>): (c: seq<Device>)
    ensures forall k :: 0 <= k < |c| ==> Connected(c[k])
  {
    if nodes == [] then []
    else
      var n := nodes[|nodes| - 1];
      Found(players, nodes[..|nodes| - 1]) + (if Usable(players, n) then [CandidateOf(n)] else [])
  }

  /** A directory lists no name twice. */
  predicate Listing(nodes: seq<Node>) {
    forall i, j :: 0 <= i < j < |nodes| ==> nodes[i].path != nodes[j].path
  }

  lemma {:induction false} FoundNotOpen(players: seq<Device>, nodes: seq<Node>, path: seq<byte>)
    requires PathOpen(players, path) || forall k :: 0 <= k < |nodes| ==> nodes[k].path != path
    ensures Count(Found(players, nodes), OnPath(path)) == 0
  {
    if nodes != [] {
      FoundNotOpen(players, nodes[..|nodes| - 1], path);
      CountAppend(Found(players, nodes[..|nodes| - 1]), CandidateOf(nodes[|nodes| - 1]), OnPath(path));
    }
  }

  lemma CountAppend(c: seq<Device>, d: Device, has: Device -> bool)
    ensures Count(c + [d], has) == Count(c, has) + (if has(d) then 1 else 0)
    ensures Count(c + [], has) == Count(c, has)
  {
    assert (c + [d])[..|c|] == c && c + [] == c;
  }

  lemma {:induction false} FoundOnce(players: seq<Device>, nodes: seq<Node>, path: seq<byte>)
    requires Listing(nodes)
    ensures Count(Found(players, nodes), OnPath(path)) <= 1
  {
    if nodes != [] {
      var n := |nodes| - 1;
      FoundOnce(players, nodes[..n], path);
      CountAppend(Found(players, nodes[..n]), CandidateOf(nodes[n]), OnPath(path));
      if nodes[n].path == path {
        FoundNotOpen(players, nodes[..n], path);
      }
    }
  }

  // ------------------------------------------------------- scans and disconnects

  /** One scan of a directory. */
  function AfterScan(players: seq<Device>, nodes: seq<Node>): seq<Device> {
    Seats(players, Ordered(Found(players, nodes))).Scanned().players
  }

  function Closed(d: Device, remember: bool): Device { Device(-1, [], if remember then d.port else []) }

  datatype Event = Scan(nodes: seq<Node>) | Close(player: nat, remember: bool)

  function After(players: seq<Device>, e: Event): seq<Device> {
    match e
    case Scan(nodes) => AfterScan(players, nodes)
    case Close(player, remember) =>
      if player < |players| then players[player := Closed(players[player], remember)] else players
  }

  function AfterAll(players: seq<Device>, events: seq<Event>): seq<Device> {
    if events == [] then players
    else After(AfterAll(players, events[..|events| - 1]), events[|events| - 1])
  }

  /** No device is the gamepad of two players. */
  predicate OwnDevices(players: seq<Device>) {
    forall p, q :: 0 <= p < q < |players| && Connected(players[p]) && Connected(players[q]) ==>
      players[p].path != players[q].path
  }

  lemma OwnMeansSingle(players: seq<Device>, path: seq<byte>)
    requires OwnDevices(players)
    ensures Count(players, OnPath(path)) <= 1
    ensures !PathOpen(players, path) ==> Count(players, OnPath(path)) == 0
  {
    CountOne(players, OnPath(path));
    if !PathOpen(players, path) {
      CountNone(players, OnPath(path));
    }
  }

  lemma ScanSingle(players: seq<Device>, nodes: seq<Node>)
    requires OwnDevices(players) && Listing(nodes)
    ensures SinglePaths(Seats(players, Ordered(Found(players, nodes))))
  {
    var s := Seats(players, Ordered(Found(players, nodes)));
    forall path ensures s.Total(OnPath(path)) <= 1 {
      OrderedCounts(Found(players, nodes), OnPath(path));
      OwnMeansSingle(players, path);
      if PathOpen(players, path) {
        FoundNotOpen(players, nodes, path);
      } else {
        FoundOnce(players, nodes, path);
      }
    }
  }

  lemma ScanOwn(players: seq<Device>, nodes: seq<Node>)
    requires OwnDevices(players) && Listing(nodes)
    ensures |AfterScan(players, nodes)| == |players| && OwnDevices(AfterScan(players, nodes))
  {
    var s := Seats(players, Ordered(Found(players, nodes)));
    ScanSingle(players, nodes);
    ScanKeeps(s);
    var t := s.Scanned();
    forall p, q | 0 <= p < q < |t.players| && Connected(t.players[p]) && Connected(t.players[q])
      ensures t.players[p].path != t.players[q].path
    {
      var path := t.players[p].path;
      assert t.Total(OnPath(path)) == s.Total(OnPath(path)) <= 1;
      if t.players[q].path == path {
        CountTwo(t.players, p, q, OnPath(path));
      }
    }
  }

  /** After any series of scans and disconnects no device is the gamepad of two players. */
  lemma {:induction false} OnePlayerADevice(players: seq<Device>, events: seq<Event>)
    requires OwnDevices(players) && forall i :: 0 <= i < |events| && events[i].Scan? ==> Listing(events[i].nodes)
    ensures |AfterAll(players, events)| == |players| && OwnDevices(AfterAll(players, events))
  {
    if events != [] {
      var n := |events| - 1;
      hide OwnDevices, Listing;
      OnePlayerADevice(players, events[..n]);
      if events[n].Scan? {
        ScanOwn(AfterAll(players, events[..n]), events[n].nodes);
      }
    }
  }

  lemma FirstGets(players: seq<Device>, nodes: seq<Node>, p: nat)
    requires forall q :: 0 <= q < |players| ==> Unused(players[q])
    requires p < |players| && p < |Found(players, nodes)|
    ensures var now := AfterScan(players, nodes);
      |now| == |players| && now[p] == Ordered(Found(players, nodes))[p] && now[p] in Found(players, nodes)
  {
    var c := Ordered(Found(players, nodes));
    ScanKeeps(Seats(players, c));
    forall k | 0 <= k < |c| ensures Connected(c[k]) && c[k] in Found(players, nodes) {
      OrderedHolds(Found(players, nodes), c[k]);
      assert c[k] in c;
    }
    FirstScan(Seats(players, c), p);
  }

  /** The first scan gives the players gamepads it found, in the order of their ports, and at one
      port in that of their paths. */
  lemma FirstScanInOrder(players: seq<Device>, nodes: seq<Node>, p: nat, q: nat)
    requires forall r :: 0 <= r < |players| ==> Unused(players[r])
    requires p < q < |players| && q < |Found(players, nodes)|
    ensures var now := AfterScan(players, nodes);
      && |now| == |players| && now[p] in Found(players, nodes) && now[q] in Found(players, nodes)
      && !TextLess(now[q].port, now[p].port)
      && (now[q].port == now[p].port ==> !TextLess(now[q].path, now[p].path))
  {
    FirstGets(players, nodes, p);
    FirstGets(players, nodes, q);
    OrderedIsInOrder(Found(players, nodes));
    var now := AfterScan(players, nodes);
    TextOrder(now[p].port, now[q].port);
  }

  /** And no gamepad left over comes before one that found a player. */
  lemma FirstScanTakesFirst(players: seq<Device>, nodes: seq<Node>, p: nat, d: Device)
    requires forall r :: 0 <= r < |players| ==> Unused(players[r])
    requires p < |players| && p < |Found(players, nodes)| && d in Found(players, nodes)
    ensures var now := AfterScan(players, nodes);
      |now| == |players| && (d !in now ==> !Before(d, now[p]))
  {
    var now, c := AfterScan(players, nodes), Ordered(Found(players, nodes));
    OrderedHolds(Found(players, nodes), d);
    OrderedIsInOrder(Found(players, nodes));
    var k :| 0 <= k < |c| && c[k] == d;
    FirstGets(players, nodes, p);
    if k < p {
      FirstGets(players, nodes, k);
    }
    BeforeOrder(d, now[p]);
  }

  // --------------------------------------------------------------- what a scan gives

  /** The players and candidates after some were attached: who changed has a candidate's gamepad, and a
      candidate that is gone is a player's. */
  ghost predicate Given(s: Seats, t: Seats) {
    && |t.players| == |s.players| && |t.candidates| == |s.candidates|
    && (forall p :: 0 <= p < |s.players| ==>
          t.players[p] == s.players[p] || (Connected(t.players[p]) && t.players[p] in s.candidates))
    && (forall k :: 0 <= k < |s.candidates| && Connected(t.candidates[k]) ==> t.candidates[k] == s.candidates[k])
    && (forall k :: 0 <= k < |s.candidates| && Connected(s.candidates[k]) && !Connected(t.candidates[k]) ==>
          s.candidates[k] in t.players)
  }

  lemma AttachGives(s: Seats, t: Seats, p: nat, i: nat)
    requires Given(s, t) && p < |t.players| && i < |t.candidates|
    requires !Connected(t.players[p]) && Connected(t.candidates[i])
    ensures Given(s, t.Attach(p, i))
  {
    var u := t.Attach(p, i);
    assert u.players[p] == s.candidates[i];
    forall k | 0 <= k < |s.candidates| && Connected(s.candidates[k]) && !Connected(u.candidates[k])
      ensures s.candidates[k] in u.players
    {
      if k != i {
        var q :| 0 <= q < |t.players| && t.players[q] == s.candidates[k];
        assert u.players[q] == s.candidates[k];
      }
    }
  }

  lemma {:induction false} ReturnGives(s: Seats, t: Seats, p: nat)
    requires Given(s, t) && p <= |t.players|
    ensures Given(s, t.ReturnFrom(p))
    decreases |t.players| - p
  {
    hide Given;
    if p < |t.players| {
      var u := t.Return(p);
      if u != t {
        AttachGives(s, t, p, AtPort(t.candidates, t.players[p].port, 0));
      }
      ReturnGives(s, u, p + 1);
    }
  }

  lemma {:induction false} FillGives(s: Seats, t: Seats, p: nat)
    requires Given(s, t) && p <= |t.players|
    ensures Given(s, t.FillFrom(p))
    decreases |t.players| - p
  {
    hide Given;
    if p < |t.players| {
      var u := t.Fill(p);
      if u != t {
        AttachGives(s, t, p, Left(t.candidates, 0));
      }
      FillGives(s, u, p + 1);
    }
  }

  lemma {:induction false} ReseatGives(s: Seats, t: Seats, i: nat)
    requires Given(s, t) && i <= |t.candidates|
    ensures Given(s, t.ReseatFrom(i))
    decreases |t.candidates| - i
  {
    hide Given;
    if i < |t.candidates| {
      var u := t.Reseat(i);
      if u != t {
        AttachGives(s, t, Free(t.players, 0), i);
      }
      ReseatGives(s, u, i + 1);
    }
  }

  lemma ScanGives(s: Seats)
    ensures Given(s, s.Scanned())
  {
    ReturnGives(s, s, 0);
    FillGives(s, s.ReturnFrom(0), 0);
    ReseatGives(s, s.ReturnFrom(0).FillFrom(0), 0);
  }

  /** A node of the directory that a player could get: a supported gamepad that opens and is nobody's. */
  ghost predicate IsFree(players: seq<Device>, n: Node) {
    n.gamepad && n.fd >= 0 && forall p :: 0 <= p < |players| && players[p].fd >= 0 ==> players[p].path != n.path
  }

  /** The gamepad of that node, at the port the node names or else at its own path. */
  predicate IsOf(d: Device, n: Node) {
    d.fd == n.fd && d.path == n.path && (if n.port != [] then d.port == n.port else d.port == n.path)
  }

  lemma {:induction false} FoundIsFree(players: seq<Device>, nodes: seq<Node>, d: Device)
    ensures d in Found(players, nodes)
       <==> exists i :: 0 <= i < |nodes| && IsFree(players, nodes[i]) && IsOf(d, nodes[i])
  {
    if nodes != [] {
      var n := |nodes| - 1;
      FoundIsFree(players, nodes[..n], d);
      UsableIsFree(players, nodes[n], d);
      hide IsFree, IsOf, Usable;
      if i :| 0 <= i < n && IsFree(players, nodes[..n][i]) && IsOf(d, nodes[..n][i]) {
        assert nodes[..n][i] == nodes[i];
      }
    }
  }

  lemma UsableIsFree(players: seq<Device>, n: Node, d: Device)
    ensures Usable(players, n) <==> IsFree(players, n)
    ensures d == CandidateOf(n) <==> IsOf(d, n)
  {
  }

  /** After a scan a connected player has the same gamepad as before; another has none, with the same port to
      come back to, or one that the scan found, and its port is remembered. */
  lemma PlayersGetFree(players: seq<Device>, nodes: seq<Node>, p: nat)
    requires p < |players|
    ensures var now := AfterScan(players, nodes);
      && |now| == |players|
      && (Connected(players[p]) ==> now[p] == players[p])
      && (!Connected(players[p]) ==>
            || now[p] == players[p]
            || exists i :: 0 <= i < |nodes| && IsFree(players, nodes[i]) && IsOf(now[p], nodes[i]))
  {
    var s := Seats(players, Ordered(Found(players, nodes)));
    ScanKeeps(s);
    ScanGives(s);
    hide Seats.Scanned, IsFree, IsOf, Ordered;
    if s.Scanned().players[p] != players[p] {
      OrderedHolds(Found(players, nodes), s.Scanned().players[p]);
      FoundIsFree(players, nodes, s.Scanned().players[p]);
    }
  }

  /** And every gamepad the scan found is a player's then, unless all players have one. */
  lemma FreeGetsPlayer(players: seq<Device>, nodes: seq<Node>, i: nat)
    requires i < |nodes| && IsFree(players, nodes[i])
    ensures var now := AfterScan(players, nodes);
      (exists p :: 0 <= p < |now| && IsOf(now[p], nodes[i])) || AllSeated(now)
  {
    var d, c := CandidateOf(nodes[i]), Ordered(Found(players, nodes));
    var s := Seats(players, c);
    UsableIsFree(players, nodes[i], d);
    FoundIsFree(players, nodes, d);
    OrderedHolds(Found(players, nodes), d);
    ScanGives(s);
    var k :| 0 <= k < |c| && c[k] == d;
    if Connected(s.Scanned().candidates[k]) {
      NoneTurnedAway(s, k);
    } else {
      assert d in s.Scanned().players;
      var p :| 0 <= p < |s.Scanned().players| && s.Scanned().players[p] == d;
    }
  }

  /** A player whose gamepad is gone for a moment has the one at the same port after the next scan, exactly if
      that scan finds more gamepads there than players before wait for one there. */
  lemma ComesBack(players: seq<Device>, q: nat, nodes: seq<Node>)
    requires q < |players| && Connected(players[q]) && players[q].port != []
    ensures var gone, port := After(players, Close(q, true)), players[q].port;
      && |gone| == |players| == |After(gone, Scan(nodes))|
      && (Stands(After(gone, Scan(nodes))[q], port)
          <==> Arrivals(Found(gone, nodes), port) > Waiting(players, port, 0, q))
  {
    var gone, port := After(players, Close(q, true)), players[q].port;
    var s := Seats(gone, Ordered(Found(gone, nodes)));
    ScanKeeps(s);
    FindsOldPort(s, q, port);
    OrderedCounts(Found(gone, nodes), StandsAt(port));
    SameWaiting(gone, players, port, 0, q);
  }

  // ---------------------------------------------------------------- the players

  class Gamepads {
    const slots: array<Device>
    /** Every descriptor of an event device this program holds open. */
    ghost var open: set<int>

    ghost predicate Valid()
      reads this, slots
    {
      slots.Length == PLAYERS && Owned(Seats(slots[..], []), open)
    }

    constructor ()
      ensures Valid() && fresh(slots) && open == {} && forall p :: 0 <= p < PLAYERS ==> Unused(slots[p])
    {
      slots := new Device[PLAYERS](_ => NO_DEVICE);
      open := {};
      new;
      forall fd | fd >= 0 ensures Count(slots[..], WithFd(fd)) == 0 {
        CountNone(slots[..], WithFd(fd));
      }
    }

    /** close_gamepad: the player's gamepad is gone; its port is remembered or forgotten. */
    method CloseGamepad(player: nat, remember: bool)
      requires Valid() && player < PLAYERS
      modifies this, slots
      ensures Valid() && open == old(open) - {old(slots[player].fd)}
      ensures slots[..] == After(old(slots[..]), Close(player, remember))
    {
      ghost var before := slots[..];
      slots[player] := Device(-1, [], if remember then slots[player].port else []);
      open := open - {before[player].fd};
      assert slots[..] == before[player := slots[player]];
      CloseOwned(before, player, slots[player], old(open));
    }

    lemma CloseOwned(players: seq<Device>, p: nat, d: Device, held: set<int>)
      requires p < |players| && !Connected(d) && Owned(Seats(players, []), held)
      ensures Owned(Seats(players[p := d], []), held - {players[p].fd})
    {
      forall fd | fd >= 0
        ensures Count(players[p := d], WithFd(fd)) == if fd in held - {players[p].fd} then 1 else 0
      {
        CountUpdate(players, p, d, WithFd(fd));
        assert Count([], WithFd(fd)) == 0;
        assert Seats(players, []).Total(WithFd(fd)) == Count(players, WithFd(fd));
        if players[p].fd == fd {
          CountSome(players, p, WithFd(fd));
        }
      }
    }

    ghost function Now(candidates: array<Device>): Seats
      reads slots, candidates
    {
      Seats(slots[..], candidates[..])
    }

    method AttachCandidate(player: nat, candidates: array<Device>, i: nat)
      requires slots != candidates && player < slots.Length && i < candidates.Length
      modifies slots, candidates
      ensures Now(candidates) == old(Now(candidates)).Attach(player, i)
    {
      slots[player] := candidates[i];
      candidates[i] := candidates[i].(fd := -1);
    }

    method FindAtPort(candidates: array<Device>, port: seq<byte>) returns (index: nat)
      ensures index == AtPort(candidates[..], port, 0)
    {
      index := 0;
      while index < candidates.Length && !(Connected(candidates[index]) && candidates[index].port == port)
        invariant index <= candidates.Length
        invariant AtPort(candidates[..], port, index) == AtPort(candidates[..], port, 0)
      {
        index := index + 1;
      }
    }

    method FindLeft(candidates: array<Device>) returns (index: nat)
      ensures index == Left(candidates[..], 0)
    {
      index := 0;
      while index < candidates.Length && !Connected(candidates[index])
        invariant index <= candidates.Length && Left(candidates[..], index) == Left(candidates[..], 0)
      {
        index := index + 1;
      }
    }

    method FindFree() returns (player: nat)
      ensures player == Free(slots[..], 0)
    {
      player := 0;
      while player < slots.Length && Connected(slots[player])
        invariant player <= slots.Length && Free(slots[..], player) == Free(slots[..], 0)
      {
        player := player + 1;
      }
    }

    method ReturnPlayers(candidates: array<Device>)
      requires slots != candidates
      modifies slots, candidates
      ensures Now(candidates) == old(Now(candidates)).ReturnFrom(0)
    {
      for player := 0 to slots.Length
        invariant Now(candidates).ReturnFrom(player) == old(Now(candidates)).ReturnFrom(0)
      {
        if !Connected(slots[player]) && slots[player].port != [] {
          var index := FindAtPort(candidates, slots[player].port);
          if index < candidates.Length {
            AttachCandidate(player, candidates, index);
          }
        }
      }
    }

    method FillUnused(candidates: array<Device>)
      requires slots != candidates
      modifies slots, candidates
      ensures Now(candidates) == old(Now(candidates)).FillFrom(0)
    {
      for player := 0 to slots.Length
        invariant Now(candidates).FillFrom(player) == old(Now(candidates)).FillFrom(0)
      {
        if !Connected(slots[player]) && slots[player].port == [] {
          var index := FindLeft(candidates);
          if index < candidates.Length {
            AttachCandidate(player, candidates, index);
          }
        }
      }
    }

    method ReseatMoved(candidates: array<Device>)
      requires slots != candidates
      modifies slots, candidates
      ensures Now(candidates) == old(Now(candidates)).ReseatFrom(0)
    {
      for index := 0 to candidates.Length
        invariant Now(candidates).ReseatFrom(index) == old(Now(candidates)).ReseatFrom(0)
      {
        if Connected(candidates[index]) {
          var player := FindFree();
          if player < slots.Length {
            AttachCandidate(player, candidates, index);
          }
        }
      }
    }

    method IsOpen(path: seq<byte>) returns (inUse: bool)
      ensures inUse <==> PathOpen(slots[..], path)
    {
      inUse := false;
      for player := 0 to slots.Length
        invariant inUse <==> PathOpen(slots[..player], path)
      {
        assert slots[..player + 1] == slots[..player] + [slots[player]];
        if Connected(slots[player]) && slots[player].path == path {
          assert slots[..player + 1][player].path == path;
          return true;
        }
      }
      assert slots[..slots.Length] == slots[..];
    }

    /** The first part of scan_gamepads: open the devices that are not in use, and close again
        what is not a gamepad. */
    method Discover(nodes: seq<Node>) returns (found: seq<Device>)
      ensures found == Found(slots[..], nodes)
    {
      found := [];
      for i := 0 to |nodes|
        invariant found == Found(slots[..], nodes[..i])
      {
        assert nodes[..i + 1][..i] == nodes[..i];
        var inUse := IsOpen(nodes[i].path);
        if !inUse && nodes[i].fd >= 0 && nodes[i].gamepad {
          var port := if nodes[i].port == [] then nodes[i].path else nodes[i].port;
          found := found + [Device(nodes[i].fd, nodes[i].path, port)];
        }
      }
      assert nodes[..|nodes|] == nodes;
    }

    /** scan_gamepads: afterwards the descriptors open are those of the players, and the others
        have been closed. */
    method ScanGamepads(nodes: seq<Node>, ghost held: set<int>) returns (closed: seq<int>)
      requires Valid() && Owned(Seats(slots[..], Found(slots[..], nodes)), held)
      modifies this, slots
      ensures Valid() && slots[..] == After(old(slots[..]), Scan(nodes))
      ensures forall fd :: fd in held <==> fd in open || fd in closed
      ensures forall fd :: fd in closed ==> fd !in open
      ensures closed != [] ==> AllSeated(slots[..])
    {
      var found := Discover(nodes);
      var sorted := Ordered(found);
      var candidates := new Device[|sorted|](i requires 0 <= i < |sorted| => sorted[i]);
      assert candidates[..] == sorted;
      ghost var start := Now(candidates);
      OrderedOwned(slots[..], found, held);
      ReturnPlayers(candidates);
      FillUnused(candidates);
      ReseatMoved(candidates);
      ScanKeeps(start);
      ReseatSeats(start.ReturnFrom(0).FillFrom(0), 0);
      closed := CloseRest(candidates);
      open := set fd | fd in held && fd !in closed;
      RestClosed(Now(candidates), held, closed, open);
    }

    method CloseRest(candidates: array<Device>) returns (closed: seq<int>)
      ensures closed == Rest(candidates[..], candidates.Length)
    {
      closed := [];
      for index := 0 to candidates.Length
        invariant closed == Rest(candidates[..], index)
      {
        if Connected(candidates[index]) {
          closed := closed + [candidates[index].fd];
        }
      }
    }
  }

  /** The descriptors of the first n candidates that are left. */
  function Rest(c: seq<Device>, n: nat): seq<int>
    requires n <= |c|
  {
    if n == 0 then [] else Rest(c, n - 1) + (if Connected(c[n - 1]) then [c[n - 1].fd] else [])
  }

  lemma {:induction false} InRest(c: seq<Device>, n: nat, fd: int)
    requires n <= |c|
    ensures fd in Rest(c, n) <==> fd >= 0 && exists i :: 0 <= i < n && c[i].fd == fd
  {
    if n > 0 {
      InRest(c, n - 1, fd);
    }
  }

  lemma OrderedOwned(players: seq<Device>, c: seq<Device>, held: set<int>)
    requires Owned(Seats(players, c), held)
    ensures Owned(Seats(players, Ordered(c)), held)
  {
    forall fd | fd >= 0
      ensures Seats(players, Ordered(c)).Total(WithFd(fd)) == Seats(players, c).Total(WithFd(fd))
    {
      OrderedCounts(c, WithFd(fd));
    }
  }

  lemma RestClosed(s: Seats, held: set<int>, closed: seq<int>, open: set<int>)
    requires Owned(s, held) && closed == Rest(s.candidates, |s.candidates|)
    requires open == set fd | fd in held && fd !in closed
    ensures Owned(Seats(s.players, []), open)
    ensures forall fd :: fd in closed ==> fd in held
    ensures closed != [] ==> exists i :: 0 <= i < |s.candidates| && Connected(s.candidates[i])
  {
    var n := |s.candidates|;
    forall fd
      ensures fd >= 0 ==> Seats(s.players, []).Total(WithFd(fd)) == if fd in open then 1 else 0
      ensures fd in closed ==> fd in held
    {
      InRest(s.candidates, n, fd);
      assert fd >= 0 ==> s.Total(WithFd(fd)) == Count(s.players, WithFd(fd)) + Count(s.candidates, WithFd(fd));
      if fd in closed {
        var i :| 0 <= i < n && s.candidates[i].fd == fd;
        CountSome(s.candidates, i, WithFd(fd));
      } else if fd >= 0 {
        CountNone(s.candidates, WithFd(fd));
      }
    }
    if closed != [] {
      InRest(s.candidates, n, closed[0]);
    }
  }
}
