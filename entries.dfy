/**
 * The entries of the route table, `(u32, u32, Ipv4Addr)` in the source: the
 * destination, the mask and the gateway. This module holds the functions
 * that specify `ExternalRoute::update` and `ExternalRoute::route`:
 * normalisation, the stable descending sort `sort_by` performs, and the
 * first-match lookup.
 */
module Entries {
  import opened Wrappers
  import opened Net

  datatype Entry = Entry(dest: bv32, mask: bv32, gateway: Ipv4Addr)

  /** The entry with its destination masked, as the loop at the top of `update` leaves it. */
  function Masked(e: Entry): Entry
  {
    e.(dest := e.mask & e.dest)
  }

  /** A destination with no bits outside its mask. */
  predicate Canonical(e: Entry)
  {
    e.dest & e.mask == e.dest
  }

  /** An entry is left alone by masking exactly when it is already canonical. */
  lemma MaskedFixed(e: Entry)
    ensures Masked(e) == e <==> Canonical(e)
  {
  }

  lemma MaskedCanonical(e: Entry)
    ensures Canonical(Masked(e)) && Masked(Masked(e)) == Masked(e)
    ensures Masked(e) == e <==> Canonical(e)
  {
    MaskedFixed(e);
  }

  /** Every entry of `s` masked, in the same order. */
  function MaskAll(s: seq<Entry>): seq<Entry>
  {
    if s == [] then [] else [Masked(s[0])] + MaskAll(s[1..])
  }

  lemma {:induction false} MaskAllAt(s: seq<Entry>, i: nat)
    requires i < |s|
    ensures |MaskAll(s)| == |s| && MaskAll(s)[i] == Masked(s[i])
  {
    if i > 0 {
      MaskAllAt(s[1..], i - 1);
    } else if |s| > 1 {
      MaskAllAt(s[1..], 0);
    }
  }

  /** Masking keeps every mask and gateway and clears the destination bits outside the mask. */
  lemma MaskAllShape(s: seq<Entry>)
    ensures |MaskAll(s)| == |s|
    ensures forall i :: 0 <= i < |s| ==>
      MaskAll(s)[i] == Entry(s[i].mask & s[i].dest, s[i].mask, s[i].gateway)
  {
    if s != [] {
      MaskAllAt(s, 0);
    }
    forall i | 0 <= i < |s|
      ensures MaskAll(s)[i] == Entry(s[i].mask & s[i].dest, s[i].mask, s[i].gateway)
    {
      MaskAllAt(s, i);
    }
  }

  /** Masking twice is masking once. */
  lemma MaskAllIdempotent(s: seq<Entry>)
    ensures MaskAll(MaskAll(s)) == MaskAll(s)
  {
    MaskAllShape(s);
    MaskAllShape(MaskAll(s));
  }

  /** The destination as an unsigned number: the order `u32::cmp` compares by. */
  function Key(e: Entry): int
  {
    e.dest as int
  }

  /** Non-increasing by destination: the order `update` stores. */
  predicate SortedDesc(s: seq<Entry>)
  {
    forall i, j :: 0 <= i < j < |s| ==> Key(s[j]) <= Key(s[i])
  }

  /**
   * `e` placed in front of the first entry of `s` whose destination is not
   * greater than its own: it goes after every greater destination and before
   * every equal one.
   */
  function InsertDesc(e: Entry, s: seq<Entry>): seq<Entry>
  {
    if s == [] then [e]
    else if Key(s[0]) <= Key(e) then [e] + s
    else [s[0]] + InsertDesc(e, s[1..])
  }

  /**
   * `sort_by(|(d1, _, _), (d2, _, _)| d2.cmp(d1))`: a stable sort into
   * descending order of destination. It is written here as an insertion sort,
   * which is stable because an entry is inserted before the entries of equal
   * destination that follow it in the input.
   */
  function SortByDestDesc(s: seq<Entry>): seq<Entry>
  {
    if s == [] then [] else InsertDesc(s[0], SortByDestDesc(s[1..]))
  }

  lemma {:induction false} InsertDescPermutes(e: Entry, s: seq<Entry>)
    ensures multiset(InsertDesc(e, s)) == multiset(s) + multiset{e}
  {
    if s != [] && Key(s[0]) > Key(e) {
      InsertDescPermutes(e, s[1..]);
      assert s == [s[0]] + s[1..];
    }
  }

  /** Every entry of `InsertDesc(e, s)` is `e` or an entry of `s`. */
  lemma {:induction false} InsertDescFrom(e: Entry, s: seq<Entry>, x: Entry)
    requires x in InsertDesc(e, s)
    ensures x == e || x in s
  {
    if s != [] && Key(s[0]) > Key(e) && x != s[0] {
      InsertDescFrom(e, s[1..], x);
    }
  }

  lemma {:induction false} InsertDescSorted(e: Entry, s: seq<Entry>)
    requires SortedDesc(s)
    ensures SortedDesc(InsertDesc(e, s))
  {
    if s == [] {
    } else if Key(s[0]) <= Key(e) {
      var r := [e] + s;
      forall i, j | 0 <= i < j < |r|
        ensures Key(r[j]) <= Key(r[i])
      {
        if i > 0 {
          assert r[i] == s[i - 1] && r[j] == s[j - 1];
        } else {
          assert r[j] == s[j - 1];
        }
      }
    } else {
      var t := s[1..];
      var rest := InsertDesc(e, t);
      InsertDescSorted(e, t);
      var r := [s[0]] + rest;
      assert r == InsertDesc(e, s);
      forall i, j | 0 <= i < j < |r|
        ensures Key(r[j]) <= Key(r[i])
      {
        assert r[j] == rest[j - 1];
        if i > 0 {
          assert r[i] == rest[i - 1];
        } else {
          InsertDescFrom(e, t, rest[j - 1]);
        }
      }
    }
  }

  /** The sorted table is a permutation of its input. */
  lemma {:induction false} SortPermutes(s: seq<Entry>)
    ensures multiset(SortByDestDesc(s)) == multiset(s)
  {
    if s != [] {
      SortPermutes(s[1..]);
      InsertDescPermutes(s[0], SortByDestDesc(s[1..]));
      assert s == [s[0]] + s[1..];
    }
  }

  /** The sorted table is in non-increasing order of destination. */
  lemma {:induction false} SortSorted(s: seq<Entry>)
    ensures SortedDesc(SortByDestDesc(s))
  {
    if s != [] {
      SortSorted(s[1..]);
      InsertDescSorted(s[0], SortByDestDesc(s[1..]));
    }
  }

  /** A table already in order is left as it is. */
  lemma {:induction false} SortOfSorted(s: seq<Entry>)
    requires SortedDesc(s)
    ensures SortByDestDesc(s) == s
  {
    if s != [] {
      assert SortedDesc(s[1..]) by {
        forall i, j | 0 <= i < j < |s| - 1
          ensures Key(s[1..][j]) <= Key(s[1..][i])
        {
          assert s[1..][j] == s[j + 1] && s[1..][i] == s[i + 1];
        }
      }
      SortOfSorted(s[1..]);
      if |s| > 1 {
        assert Key(s[1]) <= Key(s[0]);
      }
      assert [s[0]] + s[1..] == s;
    }
  }

  /** The entries of `s` whose destination is `k`, in their order in `s`. */
  function WithDest(s: seq<Entry>, k: bv32): seq<Entry>
  {
    if s == [] then []
    else (if s[0].dest == k then [s[0]] else []) + WithDest(s[1..], k)
  }

  lemma {:induction false} InsertDescWithDest(e: Entry, s: seq<Entry>, k: bv32)
    ensures WithDest(InsertDesc(e, s), k) == (if e.dest == k then [e] else []) + WithDest(s, k)
  {
    if s == [] {
      assert WithDest([e], k) == (if e.dest == k then [e] else []) + WithDest([], k);
    } else if Key(s[0]) <= Key(e) {
      WithDestCons(e, s, k);
    } else {
      var rest := InsertDesc(e, s[1..]);
      InsertDescWithDest(e, s[1..], k);
      WithDestCons(s[0], rest, k);
      WithDestCons(s[0], s[1..], k);
      assert [s[0]] + s[1..] == s;
    }
  }

  lemma WithDestCons(x: Entry, s: seq<Entry>, k: bv32)
    ensures WithDest([x] + s, k) == (if x.dest == k then [x] else []) + WithDest(s, k)
  {
    assert ([x] + s)[1..] == s;
  }

  /**
   * Stability: for every destination, the entries carrying it appear in the
   * sorted table in the order they had in the input.
   */
  lemma {:induction false} SortStable(s: seq<Entry>, k: bv32)
    ensures WithDest(SortByDestDesc(s), k) == WithDest(s, k)
  {
    if s != [] {
      SortStable(s[1..], k);
      InsertDescWithDest(s[0], SortByDestDesc(s[1..]), k);
    }
  }

  /** The test `route` applies to each stored entry: `mask & ip == dest`. */
  predicate Matches(e: Entry, ip: bv32)
  {
    e.mask & ip == e.dest
  }

  /** The gateway of the first entry of `t` that matches `ip`, in stored order. */
  function FirstMatch(t: seq<Entry>, ip: bv32): Option<Ipv4Addr>
  {
    if t == [] then None
    else if Matches(t[0], ip) then Some(t[0].gateway)
    else FirstMatch(t[1..], ip)
  }

  /** The entry at `i` matches and none before it does: its gateway is the answer. */
  lemma {:induction false} FirstMatchAt(t: seq<Entry>, ip: bv32, i: nat)
    requires i < |t| && Matches(t[i], ip)
    requires forall j :: 0 <= j < i ==> !Matches(t[j], ip)
    ensures FirstMatch(t, ip) == Some(t[i].gateway)
  {
    if i > 0 {
      assert !Matches(t[0], ip);
      FirstMatchAt(t[1..], ip, i - 1);
    }
  }

  /** There is no answer exactly when no entry matches. */
  lemma {:induction false} FirstMatchNone(t: seq<Entry>, ip: bv32)
    ensures FirstMatch(t, ip) == None <==> forall i :: 0 <= i < |t| ==> !Matches(t[i], ip)
  {
    if t != [] {
      FirstMatchNone(t[1..], ip);
      if !Matches(t[0], ip) {
        assert forall i :: 1 <= i < |t| ==> t[i] == t[1..][i - 1];
      }
    }
  }

  /** An answer is the gateway of a matching entry with no match before it. */
  lemma {:induction false} FirstMatchSome(t: seq<Entry>, ip: bv32) returns (i: nat)
    requires FirstMatch(t, ip).Some?
    ensures i < |t| && Matches(t[i], ip) && FirstMatch(t, ip) == Some(t[i].gateway)
    ensures forall j :: 0 <= j < i ==> !Matches(t[j], ip)
  {
    if Matches(t[0], ip) {
      i := 0;
    } else {
      var k := FirstMatchSome(t[1..], ip);
      i := k + 1;
      forall j | 0 <= j < i
        ensures !Matches(t[j], ip)
      {
        if j > 0 {
          assert t[j] == t[1..][j - 1];
        }
      }
    }
  }
}
