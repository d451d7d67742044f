/**
 * `route_warp`: the filter the listener applies to every route record, both
 * to the record carried by a change notification and to every record of the
 * full list. It keeps IPv4 routes of the watched interface that have a usable
 * IPv4 gateway and turns them into table entries.
 */
module Warp {
  import opened Wrappers
  import opened Net
  import opened Mask
  import opened Entries

  /** The record passes every test `route_warp` makes before it computes the mask. */
  predicate Eligible(r: Route, ifIndex: U32)
  {
    r.ifindex == Some(ifIndex) && r.destination.V4? &&
    r.gateway.Some? && r.gateway.value.V4? && !IsUnspecified(r.gateway.value.v4)
  }

  /**
   * What `route_warp` demands of its caller: on the accepting path it calls
   * `prefix_to_mask`, whose `32 - prefix` underflows above 32. Records it
   * rejects may carry any prefix.
   */
  predicate PrefixInRange(r: Route, ifIndex: U32)
  {
    Eligible(r, ifIndex) ==> r.prefix <= 32
  }

  /**
   * `route_warp`. Rejects a record of another interface or without one, an
   * IPv6 destination, a missing or IPv6 gateway, and the gateway 0.0.0.0;
   * accepts every other record, returning its destination unmasked, the mask
   * of its prefix and its gateway.
   */
  function RouteWarp(r: Route, ifIndex: U32): (w: Option<Entry>)
    requires PrefixInRange(r, ifIndex)
    ensures r.ifindex != Some(ifIndex) ==> w == None
    ensures r.destination.V6? ==> w == None
    ensures r.gateway.None? || r.gateway.value.V6? ==> w == None
    ensures r.gateway == Some(V4(Unspecified)) ==> w == None
    ensures (r.ifindex == Some(ifIndex) && r.destination.V4? && r.gateway.Some? &&
             r.gateway.value.V4? && r.gateway.value.v4 != Unspecified) ==> w.Some?
    ensures w.Some? ==> (r.destination.V4? && r.prefix <= 32 &&
                         w.value == Entry(ToBits(r.destination.v4), PrefixToMask(r.prefix), w.value.gateway) &&
                         r.gateway == Some(V4(w.value.gateway)) && w.value.gateway != Unspecified)
  {
    if r.ifindex.Some? then
      var index := r.ifindex.value;
      if index == ifIndex then
        match r.destination
        case V4(dest) =>
          if r.gateway.Some? then
            match r.gateway.value
            case V4(gateway) =>
              if !IsUnspecified(gateway) then
                IsUnspecifiedIff(gateway);
                var mask := PrefixToMask(r.prefix);
                Some(Entry(ToBits(dest), mask, gateway))
              else None
            case V6(_) => None
          else None
        case V6(_) => None
      else None
    else None
  }

  /** `route_warp` accepts exactly the eligible records. */
  lemma RouteWarpAccepts(r: Route, ifIndex: U32)
    requires PrefixInRange(r, ifIndex)
    ensures RouteWarp(r, ifIndex).Some? <==> Eligible(r, ifIndex)
  {
    if r.gateway.Some? && r.gateway.value.V4? {
      IsUnspecifiedIff(r.gateway.value.v4);
    }
  }
}
