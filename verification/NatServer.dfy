/** The NAT simulator: a translation table for routes and, per translation, the set of
    destinations that may answer. The history of what was sent decides what is let in. */
module NatServer {
  import opened Bytes
  import opened NatAddress

  datatype BindResult = Bound | InUse | Refused
  datatype Translation = Translated(address: Addr) | NoFreePort | BindFailed

  /** A packet that left through the external address `via`. */
  datatype Sent = Sent(route: Route, via: Addr)

  // ------------------------------------------------------------- port loop

  function PortAt(start: Port, i: nat): Port { (start + i) % 0x1_0000 }

  /** The port loop from its `i`-th round on. */
  function ChoosePort(used: set<Addr>, bind: Addr -> BindResult, ip: Ip, start: Port, i: nat): Translation
    requires i <= 0x1_0000
    decreases 0x1_0000 - i
  {
    if i == 0x1_0000 then NoFreePort
    else
      var a := Addr(ip, PortAt(start, i));
      if a in used || bind(a).InUse? then ChoosePort(used, bind, ip, start, i + 1)
      else if bind(a).Refused? then BindFailed
      else Translated(a)
  }

  predicate Taken(used: set<Addr>, bind: Addr -> BindResult, a: Addr) {
    a in used || bind(a).InUse?
  }

  /** The loop settles on the first port, counted cyclically from the source port, that is
      neither translated already nor in use, and reports what binding it came to. */
  lemma {:induction false} ChoosePortIsFirst(used: set<Addr>, bind: Addr -> BindResult, ip: Ip, start: Port, i: nat)
    returns (k: nat)
    requires i <= 0x1_0000
    ensures i <= k <= 0x1_0000
    ensures forall j :: i <= j < k ==> Taken(used, bind, Addr(ip, PortAt(start, j)))
    ensures k < 0x1_0000 ==> !Taken(used, bind, Addr(ip, PortAt(start, k)))
    ensures ChoosePort(used, bind, ip, start, i) ==
      if k == 0x1_0000 then NoFreePort
      else if bind(Addr(ip, PortAt(start, k))).Refused? then BindFailed
      else Translated(Addr(ip, PortAt(start, k)))
    decreases 0x1_0000 - i
  {
    if i == 0x1_0000 || !Taken(used, bind, Addr(ip, PortAt(start, i))) {
      k := i;
    } else {
      k := ChoosePortIsFirst(used, bind, ip, start, i + 1);
    }
  }

  /** Every port is tried, and only once, in the 65536 rounds. */
  lemma EveryPortOnce(start: Port, p: Port)
    ensures exists i :: 0 <= i < 0x1_0000 && PortAt(start, i) == p
    ensures forall i, j :: 0 <= i < j < 0x1_0000 ==> PortAt(start, i) != PortAt(start, j)
  {
    var i := if p >= start then p - start else p + 0x1_0000 - start;
    assert PortAt(start, i) == p;
  }

  /** The loop gives up exactly when no port of the external address is free. */
  lemma NoFreePortIff(used: set<Addr>, bind: Addr -> BindResult, ip: Ip, start: Port)
    ensures ChoosePort(used, bind, ip, start, 0).NoFreePort?
      <==> forall p: Port :: Taken(used, bind, Addr(ip, p))
  {
    var k := ChoosePortIsFirst(used, bind, ip, start, 0);
    if k == 0x1_0000 {
      forall p: Port ensures Taken(used, bind, Addr(ip, p)) {
        EveryPortOnce(start, p);
        var i :| 0 <= i < 0x1_0000 && PortAt(start, i) == p;
      }
    }
  }

  /** Going up from `start`, and on from 0 behind the last port, `q` comes before `p`. */
  predicate Earlier(start: Port, q: Port, p: Port) {
    if start <= p then start <= q < p else start <= q || q < p
  }

  /** The first port, going up from the source's own, that is not taken, or none at all. */
  predicate Placement(used: set<Addr>, bind: Addr -> BindResult, ip: Ip, start: Port, r: Translation) {
    match r
    case Translated(a) => a.ip == ip && bind(a).Bound? && IsFirst(used, bind, ip, start, a.port)
    case BindFailed => exists p: Port :: bind(Addr(ip, p)).Refused? && IsFirst(used, bind, ip, start, p)
    case NoFreePort => forall p: Port :: Taken(used, bind, Addr(ip, p))
  }

  predicate IsFirst(used: set<Addr>, bind: Addr -> BindResult, ip: Ip, start: Port, p: Port) {
    !Taken(used, bind, Addr(ip, p)) && forall q: Port :: Earlier(start, q, p) ==> Taken(used, bind, Addr(ip, q))
  }

  lemma EarlierIsBefore(start: Port, q: Port, k: nat)
    requires k < 0x1_0000 && Earlier(start, q, PortAt(start, k))
    ensures exists j :: 0 <= j < k && PortAt(start, j) == q
  {
    var j := if q >= start then q - start else q + 0x1_0000 - start;
    assert PortAt(start, j) == q;
  }

  lemma OneFirst(used: set<Addr>, bind: Addr -> BindResult, ip: Ip, start: Port, p: Port, q: Port)
    requires IsFirst(used, bind, ip, start, p) && IsFirst(used, bind, ip, start, q)
    ensures p == q
  {
    assert p != q ==> Earlier(start, p, q) || Earlier(start, q, p);
  }

  /** What the port loop comes to, without its rounds: exactly that. */
  lemma PlacementIff(used: set<Addr>, bind: Addr -> BindResult, ip: Ip, start: Port, r: Translation)
    ensures r == ChoosePort(used, bind, ip, start, 0) <==> Placement(used, bind, ip, start, r)
  {
    var k := ChoosePortIsFirst(used, bind, ip, start, 0);
    NoFreePortIff(used, bind, ip, start);
    if k < 0x1_0000 {
      var p := PortAt(start, k);
      forall q: Port | Earlier(start, q, p) ensures Taken(used, bind, Addr(ip, q)) {
        EarlierIsBefore(start, q, k);
      }
      assert IsFirst(used, bind, ip, start, p);
      forall q: Port | IsFirst(used, bind, ip, start, q) ensures q == p {
        OneFirst(used, bind, ip, start, p, q);
      }
    }
  }

  /** The source keeps its port if it is free. */
  lemma OwnPortFirst(used: set<Addr>, bind: Addr -> BindResult, ip: Ip, start: Port)
    requires Addr(ip, start) !in used && bind(Addr(ip, start)).Bound?
    ensures Placement(used, bind, ip, start, Translated(Addr(ip, start)))
    ensures forall r :: Placement(used, bind, ip, start, r) ==> r == Translated(Addr(ip, start))
  {
    assert IsFirst(used, bind, ip, start, start);
    forall r | Placement(used, bind, ip, start, r) ensures r == Translated(Addr(ip, start)) {
      PlacementIff(used, bind, ip, start, r);
      PlacementIff(used, bind, ip, start, Translated(Addr(ip, start)));
    }
  }

  // ---------------------------------------------------------------- server

  /** Seen from outside, translations are in one-to-one correspondence with route classes:
      the same class always leaves through the same address, different ones never do. */
  predicate OneToOne(t: NatType, history: seq<Sent>) {
    forall i, j :: 0 <= i < |history| && 0 <= j < |history| ==>
      (SameClass(t, history[i].route, history[j].route) <==> history[i].via == history[j].via)
  }

  /** Some packet was sent through `local` to a destination that stands for `remote`. */
  predicate Invited(t: NatType, history: seq<Sent>, local: Addr, remote: Addr) {
    exists i :: 0 <= i < |history| && history[i].via == local && Agrees(t, history[i].route.destination, remote)
  }

  /** `std::set::find` under AddrCmp */
  predicate Listed(t: NatType, whitelist: set<Addr>, a: Addr) {
    exists w :: w in whitelist && SameFilter(t, w, a)
  }

  function Allow(t: NatType, whitelist: set<Addr>, a: Addr): set<Addr> {
    if Listed(t, whitelist, a) then whitelist else whitelist + {a}
  }

  predicate WasSent(history: seq<Sent>, via: Addr, dest: Addr) {
    exists i :: 0 <= i < |history| && history[i].via == via && history[i].route.destination == dest
  }

  predicate Kept(t: NatType, routes: map<Addr, Route>, lists: map<Addr, set<Addr>>, s: Sent) {
    && s.via in routes && s.via in lists
    && SameClass(t, routes[s.via], s.route)
    && Listed(t, lists[s.via], s.route.destination)
  }

  /** Translations and whitelists, by external address, record what was sent: every packet
      has its translation and its destination listed, and nothing else is listed. */
  predicate Recorded(t: NatType, routes: map<Addr, Route>, lists: map<Addr, set<Addr>>, history: seq<Sent>) {
    && routes.Keys == lists.Keys
    && (forall i :: 0 <= i < |history| ==> Kept(t, routes, lists, history[i]))
    && (forall a, w :: a in lists && w in lists[a] ==> WasSent(history, a, w))
  }

  predicate OnePerClass(t: NatType, routes: map<Addr, Route>) {
    forall a, b :: a in routes && b in routes && SameClass(t, routes[a], routes[b]) ==> a == b
  }

  /** No translation serves this route yet. */
  predicate NewClass(t: NatType, routes: map<Addr, Route>, route: Route) {
    forall a :: a in routes ==> !SameClass(t, routes[a], route)
  }

  function Vias(history: seq<Sent>): set<Addr> {
    set s | s in history :: s.via
  }

  /** No packet of this route class has been sent yet. */
  predicate Unseen(t: NatType, history: seq<Sent>, route: Route) {
    forall s :: s in history ==> !SameClass(t, s.route, route)
  }

  lemma NewIsUnseen(t: NatType, routes: map<Addr, Route>, lists: map<Addr, set<Addr>>, history: seq<Sent>, route: Route)
    requires Recorded(t, routes, lists, history) && routes.Keys == Vias(history)
    ensures NewClass(t, routes, route) <==> Unseen(t, history, route)
  {
    if Unseen(t, history, route) {
      forall a | a in routes ensures !SameClass(t, routes[a], route) {
        var s :| s in history && s.via == a;
        var i :| 0 <= i < |history| && history[i] == s;
        assert Kept(t, routes, lists, history[i]);
      }
    }
    if NewClass(t, routes, route) {
      forall s | s in history ensures !SameClass(t, s.route, route) {
        var i :| 0 <= i < |history| && history[i] == s;
        assert Kept(t, routes, lists, history[i]);
      }
    }
  }

  lemma RecordsAreOneToOne(t: NatType, routes: map<Addr, Route>, lists: map<Addr, set<Addr>>, history: seq<Sent>)
    requires Recorded(t, routes, lists, history) && OnePerClass(t, routes)
    ensures OneToOne(t, history)
  {
    forall i, j | 0 <= i < |history| && 0 <= j < |history|
      ensures SameClass(t, history[i].route, history[j].route) <==> history[i].via == history[j].via
    {
      assert Kept(t, routes, lists, history[i]) && Kept(t, routes, lists, history[j]);
    }
  }

  lemma AgreesIsEquivalence(t: NatType, a: Addr, b: Addr, c: Addr)
    ensures Agrees(t, a, a) && (Agrees(t, a, b) ==> Agrees(t, b, a))
    ensures Agrees(t, a, b) && Agrees(t, b, c) ==> Agrees(t, a, c)
  {
    match t {
      case OpenCone =>
      case AddrRestricted =>
      case PortRestricted =>
      case Symmetric =>
    }
  }

  /** The filter lets an address in exactly when history says that it was invited. */
  lemma FilterFollowsHistory(t: NatType, routes: map<Addr, Route>, lists: map<Addr, set<Addr>>, history: seq<Sent>,
                             local: Addr, remote: Addr)
    requires Recorded(t, routes, lists, history) && local in lists
    ensures Listed(t, lists[local], remote) <==> Invited(t, history, local, remote)
  {
    hide SameFilter, Agrees, SameClass;
    if Listed(t, lists[local], remote) {
      var w :| w in lists[local] && SameFilter(t, w, remote);
      FilterKeysAgree(t, w, remote);
      assert WasSent(history, local, w);
    }
    if Invited(t, history, local, remote) {
      var i :| 0 <= i < |history| && history[i].via == local && Agrees(t, history[i].route.destination, remote);
      var dest := history[i].route.destination;
      assert Kept(t, routes, lists, history[i]);
      var w :| w in lists[local] && SameFilter(t, w, dest);
      FilterKeysAgree(t, w, dest);
      FilterKeysAgree(t, w, remote);
      AgreesIsEquivalence(t, w, dest, remote);
    }
  }

  lemma AllowLists(t: NatType, whitelist: set<Addr>, a: Addr)
    ensures Listed(t, Allow(t, whitelist, a), a)
    ensures forall b :: Listed(t, whitelist, b) ==> Listed(t, Allow(t, whitelist, a), b)
  {
    hide SameFilter;
    FilterKeysAgree(t, a, a);
    AgreesIsEquivalence(t, a, a, a);
    if !Listed(t, whitelist, a) {
      assert a in Allow(t, whitelist, a);
      forall b | Listed(t, whitelist, b) ensures Listed(t, Allow(t, whitelist, a), b) {
        var w :| w in whitelist && SameFilter(t, w, b);
        assert w in Allow(t, whitelist, a);
      }
    }
  }

  lemma SendingKeepsRecord(t: NatType, routes: map<Addr, Route>, lists: map<Addr, set<Addr>>, history: seq<Sent>, s: Sent)
    requires Recorded(t, routes, lists, history)
    requires s.via in routes && SameClass(t, routes[s.via], s.route)
    ensures Recorded(t, routes, lists[s.via := Allow(t, lists[s.via], s.route.destination)], history + [s])
  {
    hide SameFilter, SameClass, Listed;
    var lists' := lists[s.via := Allow(t, lists[s.via], s.route.destination)];
    var history' := history + [s];
    AllowLists(t, lists[s.via], s.route.destination);
    forall i | 0 <= i < |history'| ensures Kept(t, routes, lists', history'[i]) {
      if i < |history| {
        assert Kept(t, routes, lists, history[i]);
      }
    }
    forall a, w | a in lists' && w in lists'[a] ensures WasSent(history', a, w) {
      if w in lists[a] {
        assert WasSent(history, a, w);
        var i :| 0 <= i < |history| && history[i].via == a && history[i].route.destination == w;
        assert history'[i] == history[i];
      } else {
        assert history'[|history|] == s;
      }
    }
  }

  lemma TranslatingKeepsRecord(t: NatType, routes: map<Addr, Route>, lists: map<Addr, set<Addr>>, history: seq<Sent>,
                               a: Addr, route: Route)
    requires Recorded(t, routes, lists, history) && OnePerClass(t, routes)
    requires a !in routes && forall b :: b in routes ==> !SameClass(t, routes[b], route)
    ensures Recorded(t, routes[a := route], lists[a := {}], history) && OnePerClass(t, routes[a := route])
  {
    forall i | 0 <= i < |history| ensures Kept(t, routes[a := route], lists[a := {}], history[i]) {
      assert Kept(t, routes, lists, history[i]);
    }
  }

  class TransEntry {
    const route: Route
    const socket: Addr
    var whitelist: set<Addr>

    constructor (route: Route, socket: Addr)
      ensures this.route == route && this.socket == socket && whitelist == {}
    {
      this.route, this.socket, whitelist := route, socket, {};
    }

    /** `std::set::insert` under AddrCmp: an address that is listed already is not added. */
    method Insert(t: NatType, a: Addr)
      modifies this
      ensures whitelist == Allow(t, old(whitelist), a)
    {
      if !Listed(t, whitelist, a) {
        whitelist := whitelist + {a};
      }
    }
  }

  class NATServer {
    const kind: NatType
    const externalIp: Ip
    var intMap: map<Route, TransEntry>
    var extMap: map<Addr, TransEntry>
    ghost var history: seq<Sent>

    /** The two maps hold the same entries, each under its route and its socket address. */
    ghost predicate Matched()
      reads this
    {
      && (forall r :: r in intMap ==> intMap[r].route == r && intMap[r].socket in extMap && extMap[intMap[r].socket] == intMap[r])
      && (forall a :: a in extMap ==> extMap[a].socket == a && extMap[a].route in intMap && intMap[extMap[a].route] == extMap[a])
    }

    ghost function Routes(): map<Addr, Route>
      reads this
    {
      map a | a in extMap :: extMap[a].route
    }

    ghost function Lists(): map<Addr, set<Addr>>
      reads this, extMap.Values
    {
      map a | a in extMap :: extMap[a].whitelist
    }

    ghost predicate Valid()
      reads this, extMap.Values
    {
      Matched() && OnePerClass(kind, Routes()) && Recorded(kind, Routes(), Lists(), history)
    }

    constructor (kind: NatType, externalIp: Ip)
      ensures Valid() && history == [] && this.kind == kind && this.externalIp == externalIp && intMap == map[] && extMap == map[]
    {
      this.kind, this.externalIp := kind, externalIp;
      intMap, extMap, history := map[], map[], [];
    }

    method Translate(route: Route, bind: Addr -> BindResult) returns (result: Translation)
      requires Valid() && forall a :: a in extMap ==> !SameClass(kind, extMap[a].route, route)
      modifies this`intMap, this`extMap
      ensures Valid() && fresh(extMap.Values - old(extMap.Values))
      ensures result == ChoosePort(old(extMap).Keys, bind, externalIp, route.source.port, 0)
      ensures Placement(old(extMap).Keys, bind, externalIp, route.source.port, result)
      ensures result.Translated? ==>
        && result.address in extMap && fresh(extMap[result.address]) && extMap[result.address].route == route
        && extMap.Keys == old(extMap.Keys) + {result.address}
      ensures !result.Translated? ==> intMap == old(intMap) && extMap == old(extMap)
    {
      hide Placement;
      PlacementIff(extMap.Keys, bind, externalIp, route.source.port,
                   ChoosePort(extMap.Keys, bind, externalIp, route.source.port, 0));
      var i: nat := 0;
      while i < 0x1_0000
        invariant i <= 0x1_0000
        invariant ChoosePort(extMap.Keys, bind, externalIp, route.source.port, 0)
               == ChoosePort(extMap.Keys, bind, externalIp, route.source.port, i)
      {
        var a := Addr(externalIp, PortAt(route.source.port, i));
        if a !in extMap {
          var bound := bind(a);
          if !bound.InUse? {
            if bound.Refused? {
              return BindFailed;
            }
            var entry := new TransEntry(route, a);
            Enter(route, a, entry);
            return Translated(a);
          }
        }
        i := i + 1;
      }
      return NoFreePort;
    }

    method Enter(route: Route, a: Addr, entry: TransEntry)
      requires Valid() && a !in extMap && forall b :: b in extMap ==> !SameClass(kind, extMap[b].route, route)
      requires entry.route == route && entry.socket == a && entry.whitelist == {}
      modifies this`intMap, this`extMap
      ensures Valid() && extMap == old(extMap)[a := entry]
    {
      hide Recorded, OnePerClass, SameClass;
      RouteLessIsStrictWeak(kind, route, route, route);
      RouteKeysAreClasses(kind, route, route);
      assert route !in intMap;
      TranslatingKeepsRecord(kind, Routes(), Lists(), history, a, route);
      ghost var routes, lists := Routes()[a := route], Lists()[a := {}];
      assert forall b :: b in extMap ==> extMap[b].route != route;
      intMap := intMap[route := entry];
      extMap := extMap[a := entry];
      assert Routes() == routes && Lists() == lists;
    }

    /** The translation of `route`, made anew if there is none yet. */
    method FindOrTranslate(route: Route, bind: Addr -> BindResult) returns (entry: TransEntry?, result: Translation)
      requires Valid()
      modifies this`intMap, this`extMap
      ensures Valid() && fresh(extMap.Values - old(extMap.Values))
      ensures result.Translated? <==> entry != null
      ensures result.Translated? ==>
        && result.address in extMap && extMap[result.address] == entry && SameClass(kind, entry.route, route)
        && (entry in old(extMap.Values) || fresh(entry))
        && extMap.Keys == old(extMap.Keys) + {result.address}
      ensures NewClass(kind, old(Routes()), route) ==> Placement(old(extMap.Keys), bind, externalIp, route.source.port, result)
      ensures !result.Translated? ==>
        intMap == old(intMap) && extMap == old(extMap) && NewClass(kind, Routes(), route)
    {
      if exists r :: r in intMap && SameKey(kind, r, route) {
        var r :| r in intMap && SameKey(kind, r, route);
        RouteKeysAreClasses(kind, r, route);
        entry := intMap[r];
        assert SameClass(kind, Routes()[entry.socket], route);
        return entry, Translated(entry.socket);
      }
      forall a | a in extMap ensures !SameClass(kind, extMap[a].route, route) {
        RouteKeysAreClasses(kind, extMap[a].route, route);
      }
      result := Translate(route, bind);
      if result.Translated? {
        entry := extMap[result.address];
      } else {
        entry := null;
      }
    }

    /** A packet from inside: the destination is read off the wire, may answer from now on,
        and gets the payload from the translated address. Without a translation the NAT
        gives up: it could not bind, or no port of its external address is free. */
    method OnInternalPacket(packet: seq<Byte>, source: Addr, bind: Addr -> BindResult)
      returns (result: Translation, to: Addr, payload: seq<Byte>)
      requires Valid() && |packet| >= ADDR_SIZE
      modifies this`intMap, this`extMap, this`history, extMap.Values
      ensures Valid() && fresh(extMap.Values - old(extMap.Values))
      ensures to == ReadAddr(packet) && packet == packet[..ADDR_SIZE] + payload
      ensures result.Translated? ==>
        history == old(history) + [Sent(Route(source, to), result.address)] && extMap.Keys == old(extMap.Keys) + {result.address}
      ensures NewClass(kind, old(Routes()), Route(source, to)) ==>
        Placement(old(extMap.Keys), bind, externalIp, source.port, result)
      ensures !result.Translated? ==>
        history == old(history) && extMap == old(extMap) && NewClass(kind, Routes(), Route(source, to))
    {
      to, payload := ReadAddr(packet), packet[ADDR_SIZE..];
      var route := Route(source, to);
      var entry;
      entry, result := FindOrTranslate(route, bind);
      if result.Translated? {
        AllowBack(entry, Sent(route, result.address));
      }
    }

    method AllowBack(entry: TransEntry, s: Sent)
      requires Valid() && s.via in extMap && extMap[s.via] == entry && SameClass(kind, entry.route, s.route)
      modifies this`history, entry
      ensures Valid() && history == old(history) + [s] && unchanged(this`extMap)
    {
      hide Recorded, OnePerClass, SameClass, Allow;
      ghost var lists := Lists()[s.via := Allow(kind, Lists()[s.via], s.route.destination)];
      SendingKeepsRecord(kind, Routes(), Lists(), history, s);
      entry.Insert(kind, s.route.destination);
      history := history + [s];
      assert Lists() == lists;
    }

    /** A packet from outside on the socket bound to `local`: dropped, or handed to the
        internal host behind the remote address that it came from. */
    method OnExternalPacket(packet: seq<Byte>, remote: Addr, local: Addr) returns (forwarded: bool, to: Addr, data: seq<Byte>)
      requires Valid() && local in extMap
      ensures forwarded <==> Invited(kind, history, local, remote)
      ensures forwarded ==> forall i :: 0 <= i < |history| && history[i].via == local ==> history[i].route.source == to
      ensures forwarded ==> |data| >= ADDR_SIZE && ReadAddr(data) == remote && data[ADDR_SIZE..] == packet
    {
      var entry := extMap[local];
      to, data := entry.route.source, [];
      FilterFollowsHistory(kind, Routes(), Lists(), history, local, remote);
      if !Listed(kind, entry.whitelist, remote) {
        return false, to, data;
      }
      data := WriteAddr(remote) + packet;
      AddrReadsBack(remote, packet);
      forall i | 0 <= i < |history| && history[i].via == local ensures history[i].route.source == to {
        assert Kept(kind, Routes(), Lists(), history[i]);
      }
      return true, to, data;
    }
  }

  // ------------------------------------------------------------------ runs

  datatype Input =
    | Internal(packet: seq<Byte>, source: Addr, bind: Addr -> BindResult)
    | External(payload: seq<Byte>, remote: Addr, local: Addr)

  datatype Output =
    | Out(via: Addr, to: Addr, data: seq<Byte>)
    | Forward(host: Addr, data: seq<Byte>)
    | Dropped
    | Stopped

  predicate Legal(i: Input) {
    i.Internal? ==> |i.packet| >= ADDR_SIZE
  }

  /** Step `j` of a run sent a packet of `host` through `local`. */
  predicate SentThrough(inputs: seq<Input>, outputs: seq<Output>, j: nat, local: Addr)
    requires |outputs| <= |inputs|
  {
    j < |outputs| && inputs[j].Internal? && outputs[j].Out? && outputs[j].via == local
  }

  /** Before step `k`, something was sent through `local` to an address that stands for `remote`. */
  predicate InvitedBefore(t: NatType, inputs: seq<Input>, outputs: seq<Output>, k: nat, local: Addr, remote: Addr)
    requires k <= |outputs| <= |inputs|
  {
    exists j :: 0 <= j < k && SentThrough(inputs, outputs, j, local) && Agrees(t, outputs[j].to, remote)
  }

  predicate CorrectExternal(t: NatType, inputs: seq<Input>, outputs: seq<Output>, k: nat)
    requires k < |outputs| <= |inputs| && inputs[k].External?
  {
    var i, o := inputs[k], outputs[k];
    && (o.Forward? <==> InvitedBefore(t, inputs, outputs, k, i.local, i.remote))
    && (o.Forward? || o.Dropped?)
    && (o.Forward? ==>
          && |o.data| >= ADDR_SIZE && ReadAddr(o.data) == i.remote && o.data[ADDR_SIZE..] == i.payload
          && forall j :: 0 <= j < k && SentThrough(inputs, outputs, j, i.local) ==> inputs[j].source == o.host)
  }

  predicate CorrectInternal(t: NatType, inputs: seq<Input>, outputs: seq<Output>, k: nat)
    requires k < |outputs| <= |inputs| && inputs[k].Internal?
  {
    var i, o := inputs[k], outputs[k];
    && (o.Stopped? || o.Out?)
    && (o.Out? ==> Legal(i) && o.to == ReadAddr(i.packet) && o.data == i.packet[ADDR_SIZE..])
    && (o.Out? ==> forall j :: 0 <= j < k && inputs[j].Internal? && outputs[j].Out? ==>
          (SameClass(t, Route(inputs[j].source, outputs[j].to), Route(i.source, o.to)) <==> outputs[j].via == o.via))
  }

  predicate Correct(t: NatType, inputs: seq<Input>, outputs: seq<Output>, k: nat)
    requires k < |outputs| <= |inputs|
  {
    if inputs[k].External? then CorrectExternal(t, inputs, outputs, k) else CorrectInternal(t, inputs, outputs, k)
  }

  /** A new route class gets the first free port, or stops the NAT for want of one; a known
      class is never refused. */
  predicate Placed(t: NatType, ip: Ip, inputs: seq<Input>, outputs: seq<Output>, k: nat)
    requires k < |outputs| <= |inputs|
  {
    inputs[k].Internal? && Legal(inputs[k]) ==>
      var i, h := inputs[k], History(inputs, outputs[..k]);
      if Unseen(t, h, Route(i.source, ReadAddr(i.packet))) then
        if outputs[k].Out? then Placement(Vias(h), i.bind, ip, i.source.port, Translated(outputs[k].via))
        else
          && outputs[k].Stopped?
          && (Placement(Vias(h), i.bind, ip, i.source.port, NoFreePort) || Placement(Vias(h), i.bind, ip, i.source.port, BindFailed))
      else outputs[k].Out?
  }

  /** The packets that a run has sent out, in order. */
  function History(inputs: seq<Input>, outputs: seq<Output>): seq<Sent>
    requires |outputs| <= |inputs|
    decreases |outputs|
  {
    if outputs == [] then []
    else
      var n := |outputs| - 1;
      History(inputs, outputs[..n])
      + if inputs[n].Internal? && outputs[n].Out? then [Sent(Route(inputs[n].source, outputs[n].to), outputs[n].via)] else []
  }

  lemma {:induction false} HistoryHolds(inputs: seq<Input>, outputs: seq<Output>, s: Sent)
    requires |outputs| <= |inputs|
    ensures s in History(inputs, outputs) <==>
      exists j :: 0 <= j < |outputs| && SentThrough(inputs, outputs, j, s.via) && s.route == Route(inputs[j].source, outputs[j].to)
    decreases |outputs|
  {
    if outputs != [] {
      var n := |outputs| - 1;
      HistoryHolds(inputs, outputs[..n], s);
      if s in History(inputs, outputs) {
        if s in History(inputs, outputs[..n]) {
          var j :| 0 <= j < n && SentThrough(inputs, outputs[..n], j, s.via) && s.route == Route(inputs[j].source, outputs[..n][j].to);
          assert SentThrough(inputs, outputs, j, s.via);
        } else {
          assert SentThrough(inputs, outputs, n, s.via);
        }
      }
      if j :| 0 <= j < |outputs| && SentThrough(inputs, outputs, j, s.via) && s.route == Route(inputs[j].source, outputs[j].to) {
        if j < n {
          assert SentThrough(inputs, outputs[..n], j, s.via) && outputs[..n][j] == outputs[j];
        }
      }
    }
  }

  lemma InvitedIffBefore(t: NatType, inputs: seq<Input>, outputs: seq<Output>, local: Addr, remote: Addr)
    requires |outputs| <= |inputs|
    ensures Invited(t, History(inputs, outputs), local, remote)
      <==> InvitedBefore(t, inputs, outputs, |outputs|, local, remote)
  {
    hide Agrees;
    var h := History(inputs, outputs);
    if Invited(t, h, local, remote) {
      var i :| 0 <= i < |h| && h[i].via == local && Agrees(t, h[i].route.destination, remote);
      HistoryHolds(inputs, outputs, h[i]);
    }
    if InvitedBefore(t, inputs, outputs, |outputs|, local, remote) {
      var j :| 0 <= j < |outputs| && SentThrough(inputs, outputs, j, local) && Agrees(t, outputs[j].to, remote);
      var s := Sent(Route(inputs[j].source, outputs[j].to), local);
      HistoryHolds(inputs, outputs, s);
      assert s in h;
    }
  }

  lemma CorrectStays(t: NatType, inputs: seq<Input>, outputs: seq<Output>, o: Output, k: nat)
    requires k < |outputs| < |inputs| && Correct(t, inputs, outputs, k)
    ensures Correct(t, inputs, outputs + [o], k)
  {
    hide Agrees, SameClass;
    var more := outputs + [o];
    assert forall j :: 0 <= j < |outputs| ==> more[j] == outputs[j];
    if inputs[k].External? {
      var local, remote := inputs[k].local, inputs[k].remote;
      assert forall j: nat :: j < k ==> (SentThrough(inputs, more, j, local) <==> SentThrough(inputs, outputs, j, local));
      assert InvitedBefore(t, inputs, more, k, local, remote) <==> InvitedBefore(t, inputs, outputs, k, local, remote);
    }
  }

  lemma PlacedStays(t: NatType, ip: Ip, inputs: seq<Input>, outputs: seq<Output>, o: Output, k: nat)
    requires k < |outputs| < |inputs| && Placed(t, ip, inputs, outputs, k)
    ensures Placed(t, ip, inputs, outputs + [o], k)
  {
    assert (outputs + [o])[..k] == outputs[..k] && (outputs + [o])[k] == outputs[k];
  }

  lemma ForwardIsCorrect(t: NatType, inputs: seq<Input>, outputs: seq<Output>, o: Output)
    requires |outputs| < |inputs| && inputs[|outputs|].External?
    requires var i := inputs[|outputs|];
      var h := History(inputs, outputs);
      && (o.Forward? || o.Dropped?)
      && (o.Forward? <==> Invited(t, h, i.local, i.remote))
      && (o.Forward? ==> forall j :: 0 <= j < |h| && h[j].via == i.local ==> h[j].route.source == o.host)
      && (o.Forward? ==> |o.data| >= ADDR_SIZE && ReadAddr(o.data) == i.remote && o.data[ADDR_SIZE..] == i.payload)
    ensures Correct(t, inputs, outputs + [o], |outputs|)
  {
    hide Agrees, ReadAddr;
    var k, more := |outputs|, outputs + [o];
    var i, h := inputs[k], History(inputs, outputs);
    InvitedIffBefore(t, inputs, outputs, i.local, i.remote);
    assert forall j: nat :: j < k ==> (SentThrough(inputs, more, j, i.local) <==> SentThrough(inputs, outputs, j, i.local));
    assert InvitedBefore(t, inputs, more, k, i.local, i.remote) <==> InvitedBefore(t, inputs, outputs, k, i.local, i.remote);
    if o.Forward? {
      forall j | 0 <= j < k && SentThrough(inputs, more, j, i.local) ensures inputs[j].source == o.host {
        var s := Sent(Route(inputs[j].source, outputs[j].to), i.local);
        HistoryHolds(inputs, outputs, s);
        assert s in h;
      }
    }
  }

  lemma SendIsCorrect(t: NatType, inputs: seq<Input>, outputs: seq<Output>, o: Output)
    requires |outputs| < |inputs| && inputs[|outputs|].Internal? && Legal(inputs[|outputs|]) && o.Out?
    requires var i := inputs[|outputs|];
      o.to == ReadAddr(i.packet) && o.data == i.packet[ADDR_SIZE..]
    requires OneToOne(t, History(inputs, outputs + [o]))
    ensures Correct(t, inputs, outputs + [o], |outputs|)
  {
    hide SameClass, ReadAddr;
    var k, more := |outputs|, outputs + [o];
    var h := History(inputs, more);
    forall j | 0 <= j < k && inputs[j].Internal? && more[j].Out?
      ensures SameClass(t, Route(inputs[j].source, more[j].to), Route(inputs[k].source, o.to)) <==> more[j].via == o.via
    {
      var s, u := Sent(Route(inputs[j].source, more[j].to), more[j].via), Sent(Route(inputs[k].source, o.to), o.via);
      HistoryHolds(inputs, more, s);
      HistoryHolds(inputs, more, u);
      assert SentThrough(inputs, more, j, s.via) && SentThrough(inputs, more, k, u.via);
      assert s in h && u in h;
    }
  }

  lemma ViasGrow(history: seq<Sent>, s: Sent)
    ensures Vias(history + [s]) == Vias(history) + {s.via}
  {
    assert forall u :: u in history + [s] <==> u in history || u == s;
  }

  ghost predicate InStep(server: NATServer, inputs: seq<Input>, outputs: seq<Output>)
    requires |outputs| <= |inputs|
    reads server, server.extMap.Values
  {
    server.Valid() && server.history == History(inputs, outputs) && server.extMap.Keys == Vias(server.history)
  }

  method StepInternal(server: NATServer, input: Input, ghost inputs: seq<Input>, ghost outputs: seq<Output>) returns (o: Output)
    requires |outputs| < |inputs| && inputs[|outputs|] == input && Legal(input) && input.Internal?
    requires InStep(server, inputs, outputs)
    modifies server, server.extMap.Values
    ensures InStep(server, inputs, outputs + [o])
    ensures fresh(server.extMap.Values - old(server.extMap.Values))
    ensures Correct(server.kind, inputs, outputs + [o], |outputs|)
    ensures Placed(server.kind, server.externalIp, inputs, outputs + [o], |outputs|)
  {
    hide Recorded, OnePerClass, ReadAddr, Agrees, SameClass, Invited, OneToOne, Correct, NewClass, Unseen, Vias, Placement, Placed;
    ghost var kind, h := server.kind, server.history;
    assert forall x: Output :: (outputs + [x])[..|outputs|] == outputs;
    NewIsUnseen(kind, server.Routes(), server.Lists(), h, Route(input.source, ReadAddr(input.packet)));
    var result, to, payload := server.OnInternalPacket(input.packet, input.source, input.bind);
    if result.Translated? {
      o := Out(result.address, to, payload);
      ViasGrow(h, Sent(Route(input.source, to), o.via));
      assert input.packet[ADDR_SIZE..] == payload;
      RecordedSend(kind, server.Routes(), server.Lists(), inputs, outputs, o);
    } else {
      o := Stopped;
      StopIsCorrect(kind, inputs, outputs);
    }
    IsPlaced(kind, server.externalIp, inputs, outputs, o, result);
  }

  lemma RecordedSend(t: NatType, routes: map<Addr, Route>, lists: map<Addr, set<Addr>>, inputs: seq<Input>, outputs: seq<Output>, o: Output)
    requires |outputs| < |inputs| && inputs[|outputs|].Internal? && Legal(inputs[|outputs|]) && o.Out?
    requires var i := inputs[|outputs|];
      o.to == ReadAddr(i.packet) && o.data == i.packet[ADDR_SIZE..]
    requires OnePerClass(t, routes)
    requires Recorded(t, routes, lists, History(inputs, outputs) + [Sent(Route(inputs[|outputs|].source, o.to), o.via)])
    ensures Correct(t, inputs, outputs + [o], |outputs|)
    ensures History(inputs, outputs + [o]) == History(inputs, outputs) + [Sent(Route(inputs[|outputs|].source, o.to), o.via)]
  {
    hide Recorded, OnePerClass, ReadAddr, OneToOne, Correct;
    assert (outputs + [o])[..|outputs|] == outputs;
    RecordsAreOneToOne(t, routes, lists, History(inputs, outputs + [o]));
    SendIsCorrect(t, inputs, outputs, o);
  }

  lemma IsPlaced(t: NatType, ip: Ip, inputs: seq<Input>, outputs: seq<Output>, o: Output, r: Translation)
    requires |outputs| < |inputs| && inputs[|outputs|].Internal? && Legal(inputs[|outputs|])
    requires if r.Translated? then o.Out? && o.via == r.address else o.Stopped?
    requires var i, h := inputs[|outputs|], History(inputs, outputs);
      if Unseen(t, h, Route(i.source, ReadAddr(i.packet))) then Placement(Vias(h), i.bind, ip, i.source.port, r) else o.Out?
    ensures Placed(t, ip, inputs, outputs + [o], |outputs|)
  {
    hide Placement, ReadAddr, Unseen, Vias;
    assert (outputs + [o])[..|outputs|] == outputs;
  }

  method StepExternal(server: NATServer, input: Input, ghost inputs: seq<Input>, ghost outputs: seq<Output>) returns (o: Output)
    requires |outputs| < |inputs| && inputs[|outputs|] == input && input.External?
    requires InStep(server, inputs, outputs)
    ensures InStep(server, inputs, outputs + [o])
    ensures Correct(server.kind, inputs, outputs + [o], |outputs|)
    ensures Placed(server.kind, server.externalIp, inputs, outputs + [o], |outputs|)
  {
    hide Recorded, OnePerClass, ReadAddr, Agrees, SameClass, Invited, Correct;
    ghost var kind := server.kind;
    assert forall x: Output :: (outputs + [x])[..|outputs|] == outputs;
    if input.local !in server.extMap {
      o := Dropped;
      NobodyInvited(kind, server.Routes(), server.Lists(), server.history, input.local, input.remote);
    } else {
      var forwarded, host, data := server.OnExternalPacket(input.payload, input.remote, input.local);
      o := if forwarded then Forward(host, data) else Dropped;
    }
    ForwardIsCorrect(kind, inputs, outputs, o);
  }

  lemma StopIsCorrect(t: NatType, inputs: seq<Input>, outputs: seq<Output>)
    requires |outputs| < |inputs| && inputs[|outputs|].Internal?
    ensures Correct(t, inputs, outputs + [Stopped], |outputs|)
  {
  }

  lemma NobodyInvited(t: NatType, routes: map<Addr, Route>, lists: map<Addr, set<Addr>>, history: seq<Sent>,
                      local: Addr, remote: Addr)
    requires Recorded(t, routes, lists, history) && local !in routes
    ensures !Invited(t, history, local, remote)
  {
  }

  /** Whole runs: an external packet reaches an internal host, unaltered and marked with its
      origin, if and only if that host had sent through the same external address to a
      destination that agrees in the filtered fields; and external addresses stand for
      route classes one to one. The run ends early only if a translation cannot be made. */
  method Run(kind: NatType, externalIp: Ip, inputs: seq<Input>) returns (outputs: seq<Output>)
    requires forall i :: 0 <= i < |inputs| ==> Legal(inputs[i])
    ensures |outputs| <= |inputs|
    ensures forall k :: 0 <= k < |outputs| ==> Correct(kind, inputs, outputs, k) && Placed(kind, externalIp, inputs, outputs, k)
    ensures |outputs| < |inputs| ==> outputs != [] && outputs[|outputs| - 1].Stopped?
  {
    hide Correct, Placed, OneToOne, Agrees, ReadAddr, Recorded, OnePerClass;
    var server := new NATServer(kind, externalIp);
    outputs := [];
    while |outputs| < |inputs|
      invariant |outputs| <= |inputs| && fresh(server) && fresh(server.extMap.Values)
      invariant InStep(server, inputs, outputs) && server.kind == kind && server.externalIp == externalIp
      invariant forall k :: 0 <= k < |outputs| ==> Correct(kind, inputs, outputs, k) && Placed(kind, externalIp, inputs, outputs, k)
    {
      var input, o := inputs[|outputs|], Dropped;
      if input.Internal? {
        o := StepInternal(server, input, inputs, outputs);
      } else {
        o := StepExternal(server, input, inputs, outputs);
      }
      forall k | 0 <= k < |outputs|
        ensures Correct(kind, inputs, outputs + [o], k) && Placed(kind, externalIp, inputs, outputs + [o], k)
      {
        CorrectStays(kind, inputs, outputs, o, k);
        PlacedStays(kind, externalIp, inputs, outputs, o, k);
      }
      outputs := outputs + [o];
      if o.Stopped? {
        return;
      }
    }
  }
}
