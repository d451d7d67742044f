/**
 * The address and route-record types the listener consumes: `std::net::Ipv4Addr`,
 * `std::net::IpAddr` and the `Route` / `RouteChange` records of the `net_route` crate.
 * Only the fields the listener reads are modelled.
 */
module Net {
  import opened Wrappers

  /** Rust `u8` and `u32`, as bounded integers. */
  type U8 = x: int | 0 <= x < 0x100
  type U32 = x: int | 0 <= x < 0x1_0000_0000

  /** An IPv4 address as its four octets, most significant first. */
  datatype Ipv4Addr = Ipv4Addr(a: bv8, b: bv8, c: bv8, d: bv8)

  /** `u32::from(Ipv4Addr)`: the big-endian value of the octets. */
  function ToBits(x: Ipv4Addr): bv32
  {
    (x.a as bv32 << 24) | (x.b as bv32 << 16) | (x.c as bv32 << 8) | (x.d as bv32)
  }

  /** `Ipv4Addr::from(u32)`: the octets of a host-order value, most significant first. */
  function FromBits(u: bv32): Ipv4Addr
  {
    Ipv4Addr((u >> 24) as bv8, ((u >> 16) & 0xFF) as bv8, ((u >> 8) & 0xFF) as bv8, (u & 0xFF) as bv8)
  }

  lemma FromBitsToBits(x: Ipv4Addr)
    ensures FromBits(ToBits(x)) == x
  {
  }

  lemma ToBitsFromBits(u: bv32)
    ensures ToBits(FromBits(u)) == u
  {
  }

  /** The unspecified address 0.0.0.0. */
  const Unspecified: Ipv4Addr := Ipv4Addr(0, 0, 0, 0)

  /** `Ipv4Addr::is_unspecified`: the address as a `u32` is zero. */
  predicate IsUnspecified(x: Ipv4Addr)
  {
    ToBits(x) == 0
  }

  lemma IsUnspecifiedIff(x: Ipv4Addr)
    ensures IsUnspecified(x) <==> x == Unspecified
  {
  }

  /** `std::net::IpAddr`; the content of an IPv6 address plays no part here. */
  datatype IpAddr = V4(v4: Ipv4Addr) | V6(segments: seq<bv16>)

  /** A route record as reported by the operating system (`net_route::Route`). */
  datatype Route = Route(destination: IpAddr, prefix: U8, gateway: Option<IpAddr>, ifindex: Option<U32>)

  /** A routing-table change notification (`net_route::RouteChange`). */
  datatype RouteChange = Add(route: Route) | Delete(route: Route) | Change(route: Route)
}
