# Route-table mirror of the NetLink route listener

This project models the core of `src/route_listen.rs`, the part of NetLink that
keeps an in-memory copy of one network interface's IPv4 routes and answers
"which gateway gets a packet for this address?".

- `route_warp` filters an operating-system route record against the watched
  interface and turns it into a `(destination, mask, gateway)` entry
  (`Warp.RouteWarp`).
- `prefix_to_mask` turns a CIDR prefix length into a contiguous netmask, as in
  section 3.1 of RFC 4632 (`Mask.PrefixToMask`).
- `ExternalRoute` holds the table (`RouteTable.ExternalRoute`). `update` masks
  every destination in place, sorts the entries stably into descending order
  of destination and swaps the result in. `route` returns the gateway of the
  first stored entry with `mask & ip == dest`.
- The body of the listener loop handles one change notification
  (`Listener.ResyncStep`, run against the shared table by
  `Listener.HandleChange`). If `route_warp` rejects the notification's route,
  nothing happens and the full list is not queried. If the list query fails,
  the table stays as it is. Otherwise the table becomes `update` of the
  accepted records of the list, in list order.

Modules: `Wrappers` (Option, Result), `Net` (`Ipv4Addr`, `IpAddr`, the
`net_route` records), `Mask`, `Entries` (the specification functions of the
table: masking, the stable sort, first-match lookup), `RouteTable`, `Warp`,
`Listener`, and `Scenarios` (worked lookups on concrete tables).

IPv4 addresses are four `bv8` octets. Their `u32` value (`Net.ToBits`) is the
big-endian `bv32`. Destinations and masks are `bv32`, so `&` is the source's
bitwise and. The sort compares destinations as unsigned numbers (`Entries.Key`),
as `u32::cmp` does. The sort itself is the library call `sort_by`. It has no
loop in the source, so it is modelled by `Entries.SortByDestDesc`, a stable
insertion sort on sequences. Its order, permutation and stability are proved.

The code's lookup is first match in descending-destination order, not
longest-prefix match. `Scenarios.FirstMatchIsNotLongestPrefix` shows a table
where the two differ.

The log line of an accepted notification (src/route_listen.rs:23) prints the
destination unmasked, as `route_warp` returns it. Logging is not modelled.

## Model

| member | source | states |
|---|---|---|
| `Net.FromBitsToBits` | src/route_listen.rs:57 | Converting an address to its `u32` and back gives the same address, so the big-endian conversion loses nothing. |
| `Net.ToBitsFromBits` | src/route_listen.rs:23 | Converting a `u32` to an address and back gives the same number. |
| `Net.IsUnspecifiedIff` | src/route_listen.rs:55 | `is_unspecified` holds exactly for 0.0.0.0. |
| `Mask.PrefixToMask` | src/route_listen.rs:71-78 | For a prefix of at most 32, bit `i` of the mask is set exactly when `i >= 32 - prefix`. So exactly the top `prefix` bits are set, and prefix 0 gives mask 0. |
| `Mask.MaskCountOnes` | src/route_listen.rs:24 | `count_ones` of the mask is the prefix length, which the log line relies on. |
| `Entries.MaskedFixed` | src/route_listen.rs:91-93 | An entry is unchanged by masking exactly when its destination has no bits outside its mask. |
| `Entries.MaskedCanonical` | src/route_listen.rs:91-93 | A masked entry has no destination bits outside its mask. Masking it again changes nothing. An entry is unchanged by masking exactly when it is already canonical. |
| `Entries.MaskAllShape` | src/route_listen.rs:91-93 | The masking loop keeps length, masks, gateways and order. It replaces each destination by `mask & dest`. |
| `Entries.MaskAllIdempotent` | src/route_listen.rs:91-93 | Masking a whole table twice is the same as masking it once. |
| `Entries.SortPermutes` | src/route_listen.rs:94 | The sort is a permutation of its input. |
| `Entries.SortSorted` | src/route_listen.rs:94 | The sort output is non-increasing by destination. |
| `Entries.SortStable` | src/route_listen.rs:94 | For every destination, the entries carrying it keep their input order, because `sort_by` is stable. |
| `Entries.SortOfSorted` | src/route_listen.rs:94 | A table already in descending order comes out of the sort unchanged. |
| `Entries.FirstMatchAt` | src/route_listen.rs:106-110 | If entry `i` matches and no earlier entry matches, the lookup answer is entry `i`'s gateway. |
| `Entries.FirstMatchNone` | src/route_listen.rs:102-111 | The lookup gives no route exactly when no entry matches, and in particular on an empty table. |
| `Entries.FirstMatchSome` | src/route_listen.rs:106-110 | Every answer is the gateway of a matching entry that has no matching entry before it. |
| `RouteTable.SnapshotPermutes` | src/route_listen.rs:90-97 | The installed table is a permutation of the input with each destination masked, and it has the input's length. |
| `RouteTable.SnapshotFrom` | src/route_listen.rs:90-97 | Each installed entry has the mask and gateway of some input entry, and that input entry's destination masked. |
| `RouteTable.SnapshotNormalised` | src/route_listen.rs:90-97 | Whatever the input, the installed table is sorted by descending destination, and every destination equals `dest & mask`. |
| `RouteTable.SnapshotStable` | src/route_listen.rs:94 | Installed entries with equal masked destinations keep their input order. |
| `RouteTable.SnapshotOfNormalised` | src/route_listen.rs:90-97 | Calling `update` with a table that is already normalised installs that same table. |
| `RouteTable.ExternalRoute.constructor` | src/route_listen.rs:85-89 | `new` starts with an empty table, which is normalised. |
| `RouteTable.ExternalRoute.Update` | src/route_listen.rs:90-98 | The masking loop runs over an array. The new table is the snapshot of the argument alone, so the old contents are discarded. The table stays normalised. |
| `RouteTable.ExternalRoute.Route` | src/route_listen.rs:100-112 | The answer is the first-match lookup of the address's `u32` in the stored table. The table is not changed. |
| `Warp.RouteWarp` | src/route_listen.rs:47-70 | It returns None for a missing or different interface index, an IPv6 destination, a missing or IPv6 gateway, and the gateway 0.0.0.0. It returns Some for every other record. The result holds the unmasked destination, `prefix_to_mask` of the prefix, and the record's gateway, which is not 0.0.0.0. |
| `Warp.RouteWarpAccepts` | src/route_listen.rs:47-70 | `route_warp` accepts exactly the eligible records. |
| `Listener.AcceptedRoutesConcat` | src/route_listen.rs:31-36 | Collecting from a concatenation of two lists is collecting from each list in turn, so list order is kept. |
| `Listener.AcceptedRoutesSound` | src/route_listen.rs:31-36 | Every collected route is `route_warp` of an eligible record of the list. |
| `Listener.AcceptedRoutesComplete` | src/route_listen.rs:31-36 | Every eligible record of the list is collected. |
| `Listener.CollectRoutes` | src/route_listen.rs:31-36 | The push loop returns exactly the accepted routes of the list, in list order. |
| `Listener.ResyncStep` | src/route_listen.rs:14-42 | The list is queried exactly when the notification's route is eligible. Only a successful query changes the table, and it then becomes the snapshot of the routes collected from the list. |
| `Listener.ResyncIgnoresList` | src/route_listen.rs:20-28 | For a notification that `route_warp` rejects, the outcome does not depend on the list answer: no query and no change. |
| `Listener.ResyncEntryOrigin` | src/route_listen.rs:29-37 | Every entry installed by a resync comes from an eligible record of the list: same mask and gateway, with the record's destination masked. |
| `Listener.ResyncKeepsTracked` | src/route_listen.rs:14-42 | Handling one notification keeps the table sorted, keeps every destination masked, and never lets in the gateway 0.0.0.0. |
| `Listener.HandleChange` | src/route_listen.rs:15-42 | The loop body, run on the shared table, leaves the table and the query flag that `ResyncStep` gives. |
| `Listener.ReplayKeepsTracked` | src/route_listen.rs:14-43 | Every table produced by a run of notifications, starting from a tracked one such as the empty table, is tracked. |
| `Listener.ReplayIdle` | src/route_listen.rs:20-28 | A run of notifications that are all rejected issues no list query and leaves the table unchanged. |
| `Listener.Listen` | src/route_listen.rs:14-43 | The loop over a finite stretch of notifications leaves the table that replaying them gives, and counts one query per eligible notification. |
| `Scenarios.TwoSubnets` | src/route_listen.rs:100-112 | 10.0.0.0/24 via .1 and 10.0.1.0/24 via .2: 10.0.0.5 goes to .1, 10.0.1.9 goes to .2, 192.168.0.1 has no route. The mask of /24 is 0xFFFFFF00. |
| `Scenarios.EmptyTable` | src/route_listen.rs:102-104 | An empty table answers no route. |
| `Scenarios.DefaultRouteLast` | src/route_listen.rs:94 | The default route sorts after 10.0.0.0/24, so 10.0.0.5 uses the /24 and 8.8.8.8 falls back to the default route. |
| `Scenarios.FirstMatchIsNotLongestPrefix` | src/route_listen.rs:94 | 10.0.0.0/8 listed before 10.0.0.0/24 stays first after the stable sort. So 10.0.0.5 goes to the /8 gateway although the /24 also matches. |

## Left out

- The `tokio::spawn` task, the `net_route::Handle` subscription and the `handle.list()` query (src/route_listen.rs:7-14, 29, 44-45) are asynchronous OS I/O. Each notification and the answer its list query would give are inputs (`Listener.Event`). A failed `Handle::new` at start-up is not modelled.
- The notification stream is unbounded. `Listener.Listen` runs over a finite sequence of notifications.
- The `Arc<Mutex<..>>` around the table (src/route_listen.rs:82, 96, 101) exists for concurrency. The table is one field of a class, and assigning it in one step stands for the swap under the lock. Interleavings of readers and the writer are not modelled.
- `log::info!` and `log::warn!` (src/route_listen.rs:21-25, 40) are observability only. The prefix a log line prints is covered by `Mask.MaskCountOnes`.
- `Warp.RouteWarp` requires that a record reaching `prefix_to_mask` has a prefix of at most 32. Above that, `32 - prefix` on `u8` panics in a debug build and gives a wrapped shift in a release build. The operating system does not report IPv4 routes with such prefixes.
- `net_route::Route` fields other than destination, prefix, gateway and interface index are not read by the listener and are not modelled.
- `sort_by` is modelled as a function on sequences, not as an in-place algorithm on the vector. Only the masking loop of `update` runs over an array.
- No longest-prefix-match property is claimed, because the descending-destination order does not guarantee it.
- src/config.rs (configuration deserialisation) and src/ipc/http/server.rs (HTTP status endpoint) are not part of this model.
