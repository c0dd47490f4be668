/** Addresses, NAT types and the orders by which the NAT's containers compare. */
module NatAddress {
  import opened Bytes

  type Ip = Word
  type Port = n: nat | n < 0x1_0000

  datatype Addr = Addr(ip: Ip, port: Port)
  datatype Route = Route(source: Addr, destination: Addr)

  datatype NatType = OpenCone | AddrRestricted | PortRestricted | Symmetric {
    predicate IsSymmetric() { Symmetric? }
    predicate FiltersIP() { !OpenCone? }
    predicate FiltersPort() { PortRestricted? || Symmetric? }
  }

  /** `SocketAddress::operator<` on resolved addresses. */
  predicate AddrLess(a: Addr, b: Addr) {
    if a.ip < b.ip then true
    else if b.ip < a.ip then false
    else a.port < b.port
  }

  /** `RouteCmp` */
  predicate RouteLess(t: NatType, r: Route, s: Route) {
    if AddrLess(r.source, s.source) then true
    else if AddrLess(s.source, r.source) then false
    else if t.IsSymmetric() && AddrLess(r.destination, s.destination) then true
    else if t.IsSymmetric() && AddrLess(s.destination, r.destination) then false
    else false
  }

  /** `AddrCmp` */
  predicate FilterLess(t: NatType, a: Addr, b: Addr) {
    if t.FiltersIP() && a.ip < b.ip then true
    else if t.FiltersIP() && b.ip < a.ip then false
    else if t.FiltersPort() && a.port < b.port then true
    else if t.FiltersPort() && b.port < a.port then false
    else false
  }

  /** What `std::map` and `std::set` take for the same key. */
  predicate SameKey(t: NatType, r: Route, s: Route) {
    !RouteLess(t, r, s) && !RouteLess(t, s, r)
  }

  predicate SameFilter(t: NatType, a: Addr, b: Addr) {
    !FilterLess(t, a, b) && !FilterLess(t, b, a)
  }

  /** Routes that share a translation: by source in a cone NAT (RFC 3489, section 5), by source and
      destination in a symmetric one. */
  predicate SameClass(t: NatType, r: Route, s: Route) {
    r.source == s.source && (t.Symmetric? ==> r.destination == s.destination)
  }

  /** A remote address passes for `a` if it agrees in the fields that this type filters. */
  predicate Agrees(t: NatType, a: Addr, b: Addr) {
    match t
    case OpenCone => true
    case AddrRestricted => a.ip == b.ip
    case PortRestricted => a == b
    case Symmetric => a == b
  }

  lemma RouteKeysAreClasses(t: NatType, r: Route, s: Route)
    ensures SameKey(t, r, s) <==> SameClass(t, r, s)
  {
    if SameKey(t, r, s) {
      assert r.source.ip == s.source.ip && r.source.port == s.source.port;
    }
  }

  lemma FilterKeysAgree(t: NatType, a: Addr, b: Addr)
    ensures SameFilter(t, a, b) <==> Agrees(t, a, b)
  {
    match t {
      case OpenCone =>
      case AddrRestricted =>
      case PortRestricted =>
      case Symmetric =>
    }
  }

  /** Both comparators are strict weak orders, as the containers demand. */
  lemma RouteLessIsStrictWeak(t: NatType, r: Route, s: Route, u: Route)
    ensures !RouteLess(t, r, r)
    ensures RouteLess(t, r, s) && RouteLess(t, s, u) ==> RouteLess(t, r, u)
    ensures SameKey(t, r, s) && SameKey(t, s, u) ==> SameKey(t, r, u)
  {
    RouteKeysAreClasses(t, r, s);
    RouteKeysAreClasses(t, s, u);
    RouteKeysAreClasses(t, r, u);
  }

  lemma FilterLessIsStrictWeak(t: NatType, a: Addr, b: Addr, c: Addr)
    ensures !FilterLess(t, a, a)
    ensures FilterLess(t, a, b) && FilterLess(t, b, c) ==> FilterLess(t, a, c)
    ensures SameFilter(t, a, b) && SameFilter(t, b, c) ==> SameFilter(t, a, c)
  {
    FilterKeysAgree(t, a, b);
    FilterKeysAgree(t, b, c);
    FilterKeysAgree(t, a, c);
  }

  // ------------------------------------------------------------------ wire

  const ADDR_SIZE: nat := 6

  /** `SocketAddress::Write_`: address and port as they lie in a little-endian memory. */
  function WriteAddr(a: Addr): (s: seq<Byte>)
    ensures |s| == ADDR_SIZE
  {
    [a.ip % 0x100, a.ip / 0x100 % 0x100, a.ip / 0x1_0000 % 0x100, a.ip / 0x100_0000, a.port % 0x100, a.port / 0x100]
  }

  function ReadAddr(s: seq<Byte>): Addr
    requires |s| >= ADDR_SIZE
  {
    var b0: int, b1: int, b2: int, b3: int, p0: int, p1: int := s[0], s[1], s[2], s[3], s[4], s[5];
    Addr(b0 + 0x100 * b1 + 0x1_0000 * b2 + 0x100_0000 * b3, p0 + 0x100 * p1)
  }

  lemma AddrReadsBack(a: Addr, payload: seq<Byte>)
    ensures ReadAddr(WriteAddr(a) + payload) == a
    ensures (WriteAddr(a) + payload)[ADDR_SIZE..] == payload
  {
    var w := WriteAddr(a) + payload;
    FourBytes(a.ip);
    assert w[0] == a.ip % 0x100 && w[1] == a.ip / 0x100 % 0x100 && w[2] == a.ip / 0x1_0000 % 0x100 && w[3] == a.ip / 0x100_0000;
    assert w[4] == a.port % 0x100 && w[5] == a.port / 0x100;
  }

  /** The bytes of an address, lowest first, and of its port behind it. */
  lemma LowByteFirst()
    ensures WriteAddr(Addr(0x0A0B_0C0D, 0x1234)) == [0x0D, 0x0C, 0x0B, 0x0A, 0x34, 0x12]
  {
  }

  lemma FourBytes(n: nat)
    ensures n == n % 0x100 + 0x100 * (n / 0x100 % 0x100) + 0x1_0000 * (n / 0x1_0000 % 0x100) + 0x100_0000 * (n / 0x100_0000)
  {
    assert n / 0x1_0000 == n / 0x100 / 0x100 && n / 0x100_0000 == n / 0x1_0000 / 0x100;
  }
}
