/**
 * The body of the listener loop in `route_listen`: for each change
 * notification it filters the carried route through `route_warp`; only if that
 * accepts does it ask the operating system for the full route list, filter
 * every record of it the same way, and hand the result to
 * `ExternalRoute::update`. A failed list query leaves the table as it is.
 *
 * The notification stream and the list query are inputs here: an `Event`
 * carries the notification together with the answer the list query gives if
 * it is issued while that notification is handled.
 */
module Listener {
  import opened Wrappers
  import opened Net
  import opened Entries
  import opened RouteTable
  import opened Warp

  /** The `std::io::Error` a failed list query reports. */
  datatype ListError = ListError(message: string)

  datatype Event = Event(change: RouteChange, list: Result<seq<Route>, ListError>)

  /** What handling one notification did: the table afterwards and whether the list was queried. */
  datatype Step = Step(table: seq<Entry>, queried: bool)

  /** Every record `route_warp` is applied to while handling `ev` keeps the prefix range it demands. */
  predicate EventInRange(ev: Event, ifIndex: U32)
  {
    PrefixInRange(ev.change.route, ifIndex) &&
    (Eligible(ev.change.route, ifIndex) && ev.list.Ok? ==> forall r <- ev.list.value :: PrefixInRange(r, ifIndex))
  }

  /** The routes collected from a full list: `route_warp` of each record, rejections dropped, list order kept. */
  function AcceptedRoutes(list: seq<Route>, ifIndex: U32): seq<Entry>
    requires forall r <- list :: PrefixInRange(r, ifIndex)
  {
    if list == [] then []
    else
      (match RouteWarp(list[0], ifIndex) case Some(e) => [e] case None => []) +
      AcceptedRoutes(list[1..], ifIndex)
  }

  /** Collecting from two lists one after the other is collecting from their concatenation. */
  lemma {:induction false} AcceptedRoutesConcat(a: seq<Route>, b: seq<Route>, ifIndex: U32)
    requires forall r <- a :: PrefixInRange(r, ifIndex)
    requires forall r <- b :: PrefixInRange(r, ifIndex)
    ensures AcceptedRoutes(a + b, ifIndex) == AcceptedRoutes(a, ifIndex) + AcceptedRoutes(b, ifIndex)
  {
    if a == [] {
      assert a + b == b;
    } else {
      assert (a + b)[0] == a[0] && (a + b)[1..] == a[1..] + b;
      AcceptedRoutesConcat(a[1..], b, ifIndex);
    }
  }

  /** Every collected route is `route_warp` of an eligible record of the list. */
  lemma {:induction false} AcceptedRoutesSound(list: seq<Route>, ifIndex: U32, e: Entry) returns (i: nat)
    requires forall r <- list :: PrefixInRange(r, ifIndex)
    requires e in AcceptedRoutes(list, ifIndex)
    ensures i < |list| && Eligible(list[i], ifIndex) && RouteWarp(list[i], ifIndex) == Some(e)
  {
    RouteWarpAccepts(list[0], ifIndex);
    if RouteWarp(list[0], ifIndex) == Some(e) {
      i := 0;
    } else {
      var k := AcceptedRoutesSound(list[1..], ifIndex, e);
      i := k + 1;
    }
  }

  /** Every eligible record of the list is collected. */
  lemma {:induction false} AcceptedRoutesComplete(list: seq<Route>, ifIndex: U32, i: nat)
    requires forall r <- list :: PrefixInRange(r, ifIndex)
    requires i < |list| && Eligible(list[i], ifIndex)
    ensures RouteWarp(list[i], ifIndex).Some? && RouteWarp(list[i], ifIndex).value in AcceptedRoutes(list, ifIndex)
  {
    RouteWarpAccepts(list[i], ifIndex);
    if i > 0 {
      AcceptedRoutesComplete(list[1..], ifIndex, i - 1);
    }
  }

  /** The loop in `route_listen` that pushes every accepted record of the full list onto `routes`. */
  method CollectRoutes(list: seq<Route>, ifIndex: U32) returns (routes: seq<Entry>)
    requires forall r <- list :: PrefixInRange(r, ifIndex)
    ensures routes == AcceptedRoutes(list, ifIndex)
  {
    routes := [];
    for i := 0 to |list|
      invariant routes == AcceptedRoutes(list[..i], ifIndex)
    {
      assert list[..i + 1] == list[..i] + [list[i]];
      AcceptedRoutesConcat(list[..i], [list[i]], ifIndex);
      match RouteWarp(list[i], ifIndex) {
        case Some(route) =>
          routes := routes + [route];
        case None =>
      }
    }
    assert list[..|list|] == list;
  }

  /**
   * One turn of the listener loop, as a function of the table before it. The
   * list is consulted only when the notification's route is eligible; only a
   * successful query changes the table, and then to the snapshot of the
   * routes collected from the list.
   */
  function ResyncStep(table: seq<Entry>, ifIndex: U32, ev: Event): (s: Step)
    requires EventInRange(ev, ifIndex)
    ensures s.queried <==> Eligible(ev.change.route, ifIndex)
    ensures s.table != table ==> s.queried && ev.list.Ok?
    ensures s.queried && ev.list.Ok? ==> s.table == Snapshot(AcceptedRoutes(ev.list.value, ifIndex))
  {
    RouteWarpAccepts(ev.change.route, ifIndex);
    if RouteWarp(ev.change.route, ifIndex).None? then Step(table, false)
    else
      match ev.list
      case Err(_) => Step(table, true)
      case Ok(list) => Step(Snapshot(AcceptedRoutes(list, ifIndex)), true)
  }

  /** A notification that `route_warp` rejects is handled without looking at the list at all. */
  lemma ResyncIgnoresList(table: seq<Entry>, ifIndex: U32, ev: Event, other: Result<seq<Route>, ListError>)
    requires PrefixInRange(ev.change.route, ifIndex) && !Eligible(ev.change.route, ifIndex)
    ensures ResyncStep(table, ifIndex, ev) == ResyncStep(table, ifIndex, ev.(list := other)) == Step(table, false)
  {
  }

  /** The shape of a table the listener maintains: normalised, and no gateway is 0.0.0.0. */
  predicate Tracked(t: seq<Entry>)
  {
    Normalised(t) && forall e <- t :: e.gateway != Unspecified
  }

  /**
   * Every entry of a table installed by a resync comes from an eligible record
   * of the list: same mask and gateway, the record's destination masked.
   */
  lemma ResyncEntryOrigin(table: seq<Entry>, ifIndex: U32, ev: Event, e: Entry) returns (j: nat)
    requires EventInRange(ev, ifIndex) && ev.list.Ok? && Eligible(ev.change.route, ifIndex)
    requires e in ResyncStep(table, ifIndex, ev).table
    ensures j < |ev.list.value| && Eligible(ev.list.value[j], ifIndex)
    ensures e == Masked(RouteWarp(ev.list.value[j], ifIndex).value)
  {
    var list := ev.list.value;
    var accepted := AcceptedRoutes(list, ifIndex);
    var i := SnapshotFrom(accepted, e);
    j := AcceptedRoutesSound(list, ifIndex, accepted[i]);
  }

  /** Handling a notification keeps the table tracked. */
  lemma ResyncKeepsTracked(table: seq<Entry>, ifIndex: U32, ev: Event)
    requires EventInRange(ev, ifIndex) && Tracked(table)
    ensures Tracked(ResyncStep(table, ifIndex, ev).table)
  {
    var s := ResyncStep(table, ifIndex, ev);
    if s.queried && ev.list.Ok? {
      SnapshotNormalised(AcceptedRoutes(ev.list.value, ifIndex));
      forall e <- s.table
        ensures e.gateway != Unspecified
      {
        var j := ResyncEntryOrigin(table, ifIndex, ev, e);
      }
    }
  }

  /**
   * The body of the `while let` loop in `route_listen`, for one notification,
   * run against the shared table. It returns whether the list was queried.
   */
  method HandleChange(external: ExternalRoute, ifIndex: U32, ev: Event) returns (queried: bool)
    requires EventInRange(ev, ifIndex) && external.Valid()
    modifies external
    ensures external.Valid()
    ensures Step(external.table, queried) == ResyncStep(old(external.table), ifIndex, ev)
  {
    var route := match ev.change
      case Add(route) => route
      case Delete(route) => route
      case Change(route) => route;
    if RouteWarp(route, ifIndex).None? {
      return false;
    }
    match ev.list {
      case Ok(list) =>
        var routes := CollectRoutes(list, ifIndex);
        external.Update(routes);
      case Err(_) =>
    }
    return true;
  }

  /** The table after handling `events` in order, starting from `table`. */
  function Replay(table: seq<Entry>, ifIndex: U32, events: seq<Event>): seq<Entry>
    requires forall ev <- events :: EventInRange(ev, ifIndex)
    decreases events
  {
    if events == [] then table
    else Replay(ResyncStep(table, ifIndex, events[0]).table, ifIndex, events[1..])
  }

  /** How many of `events` make the listener query the full list. */
  function Queries(events: seq<Event>, ifIndex: U32): nat
  {
    if events == [] then 0
    else (if Eligible(events[0].change.route, ifIndex) then 1 else 0) + Queries(events[1..], ifIndex)
  }

  /** Every table the listener produces, from the empty one on, is tracked. */
  lemma {:induction false} ReplayKeepsTracked(table: seq<Entry>, ifIndex: U32, events: seq<Event>)
    requires forall ev <- events :: EventInRange(ev, ifIndex)
    requires Tracked(table)
    ensures Tracked(Replay(table, ifIndex, events))
    decreases events
  {
    if events != [] {
      ResyncKeepsTracked(table, ifIndex, events[0]);
      ReplayKeepsTracked(ResyncStep(table, ifIndex, events[0]).table, ifIndex, events[1..]);
    }
  }

  /** Notifications that `route_warp` rejects cause no query and leave the table alone. */
  lemma {:induction false} ReplayIdle(table: seq<Entry>, ifIndex: U32, events: seq<Event>)
    requires forall ev <- events :: EventInRange(ev, ifIndex) && !Eligible(ev.change.route, ifIndex)
    ensures Queries(events, ifIndex) == 0
    ensures Replay(table, ifIndex, events) == table
  {
    if events != [] {
      ReplayIdle(table, ifIndex, events[1..]);
    }
  }

  /** The `while let` loop over a finite stretch of the notification stream. */
  method Listen(external: ExternalRoute, ifIndex: U32, events: seq<Event>) returns (queries: nat)
    requires forall ev <- events :: EventInRange(ev, ifIndex)
    requires external.Valid()
    modifies external
    ensures external.Valid()
    ensures external.table == Replay(old(external.table), ifIndex, events)
    ensures queries == Queries(events, ifIndex)
  {
    queries := 0;
    for i := 0 to |events|
      invariant external.Valid()
      invariant Replay(old(external.table), ifIndex, events) == Replay(external.table, ifIndex, events[i..])
      invariant queries + Queries(events[i..], ifIndex) == Queries(events, ifIndex)
    {
      assert events[i..][1..] == events[i + 1..];
      var queried := HandleChange(external, ifIndex, events[i]);
      if queried {
        queries := queries + 1;
      }
    }
  }
}
