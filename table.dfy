/**
 * `ExternalRoute`: the route table shared between the listener, which
 * replaces it wholesale, and the callers of `route`, which read it. The
 * `Arc<Mutex<..>>` around the vector becomes a single field that `Update`
 * reassigns in one step.
 */
module RouteTable {
  import opened Wrappers
  import opened Net
  import opened Entries

  /** The table `update` installs for `routes`: destinations masked, then sorted stably by descending destination. */
  function Snapshot(routes: seq<Entry>): seq<Entry>
  {
    SortByDestDesc(MaskAll(routes))
  }

  /** The shape every installed table has: sorted by descending destination, every destination masked. */
  predicate Normalised(t: seq<Entry>)
  {
    SortedDesc(t) && forall e <- t :: Canonical(e)
  }

  /** The table holds the input's entries, each with its destination masked, and nothing else. */
  lemma SnapshotPermutes(routes: seq<Entry>)
    ensures multiset(Snapshot(routes)) == multiset(MaskAll(routes))
    ensures |Snapshot(routes)| == |routes|
  {
    SortPermutes(MaskAll(routes));
    MaskAllShape(routes);
    calc {
      |Snapshot(routes)|;
      |multiset(Snapshot(routes))|;
      |multiset(MaskAll(routes))|;
      |MaskAll(routes)|;
    }
  }

  /** Every stored entry is the masked form of an input entry: same mask and gateway, destination `dest & mask`. */
  lemma SnapshotFrom(routes: seq<Entry>, e: Entry) returns (i: nat)
    requires e in Snapshot(routes)
    ensures i < |routes| && e == Entry(routes[i].mask & routes[i].dest, routes[i].mask, routes[i].gateway)
  {
    SnapshotPermutes(routes);
    assert e in multiset(MaskAll(routes));
    MaskAllShape(routes);
    var k :| 0 <= k < |MaskAll(routes)| && MaskAll(routes)[k] == e;
    i := k;
  }

  /** The installed table is normalised, whatever the input. */
  lemma SnapshotNormalised(routes: seq<Entry>)
    ensures Normalised(Snapshot(routes))
  {
    SortSorted(MaskAll(routes));
    forall e <- Snapshot(routes)
      ensures Canonical(e)
    {
      var i := SnapshotFrom(routes, e);
      MaskedCanonical(routes[i]);
    }
  }

  /** Entries with the same masked destination keep their input order (`sort_by` is stable). */
  lemma SnapshotStable(routes: seq<Entry>, k: bv32)
    ensures WithDest(Snapshot(routes), k) == WithDest(MaskAll(routes), k)
  {
    SortStable(MaskAll(routes), k);
  }

  /** Installing the snapshot of a normalised table again changes nothing. */
  lemma {:induction false} SnapshotOfNormalised(t: seq<Entry>)
    requires Normalised(t)
    ensures Snapshot(t) == t
  {
    MaskAllShape(t);
    assert MaskAll(t) == t by {
      forall i | 0 <= i < |t|
        ensures MaskAll(t)[i] == t[i]
      {
        MaskedCanonical(t[i]);
      }
    }
    SortOfSorted(t);
  }

  class ExternalRoute {
    var table: seq<Entry>

    ghost predicate Valid()
      reads this
    {
      Normalised(table)
    }

    /** `ExternalRoute::new`: an empty table. */
    constructor ()
      ensures table == [] && Valid()
    {
      table := [];
    }

    /**
     * `ExternalRoute::update`: masks every destination of `routes` in place,
     * sorts stably by descending destination, and swaps the result in. The
     * new table depends on `routes` alone.
     */
    method Update(routes: seq<Entry>)
      modifies this
      ensures table == Snapshot(routes) && Valid()
    {
      var a := new Entry[|routes|](i requires 0 <= i < |routes| => routes[i]);
      for i := 0 to a.Length
        invariant forall j :: 0 <= j < i ==> a[j] == Masked(routes[j])
        invariant forall j :: i <= j < a.Length ==> a[j] == routes[j]
      {
        a[i] := a[i].(dest := a[i].mask & a[i].dest);
      }
      MaskAllShape(routes);
      assert a[..] == MaskAll(routes);
      var sorted := SortByDestDesc(a[..]);
      SnapshotNormalised(routes);
      table := sorted;
    }

    /** `ExternalRoute::route`: the gateway of the first stored entry whose network holds `ip`. */
    method Route(ip: Ipv4Addr) returns (r: Option<Ipv4Addr>)
      ensures r == FirstMatch(table, ToBits(ip))
    {
      if |table| == 0 {
        return None;
      }
      var x := ToBits(ip);
      for i := 0 to |table|
        invariant forall j :: 0 <= j < i ==> !Matches(table[j], x)
      {
        if Matches(table[i], x) {
          FirstMatchAt(table, x, i);
          return Some(table[i].gateway);
        }
      }
      FirstMatchNone(table, x);
      return None;
    }
  }
}
