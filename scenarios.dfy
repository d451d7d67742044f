/**
 * Worked lookups on installed tables: two disjoint subnets, an empty table,
 * a default route behind a more specific one, and two overlapping routes with
 * the same masked destination, where the first match is not the longest prefix.
 */
module Scenarios {
  import opened Wrappers
  import opened Net
  import opened Mask
  import opened Entries
  import opened RouteTable

  const Gw1: Ipv4Addr := Ipv4Addr(192, 168, 1, 1)
  const Gw2: Ipv4Addr := Ipv4Addr(192, 168, 1, 2)

  /** The snapshot of two already-masked routes whose destinations are in descending order. */
  lemma SnapshotOfTwo(a: Entry, b: Entry)
    requires Canonical(a) && Canonical(b) && Key(b) <= Key(a)
    ensures Snapshot([a, b]) == [a, b]
  {
    assert Normalised([a, b]);
    SnapshotOfNormalised([a, b]);
  }

  /** Two entries whose destinations ascend come out swapped. */
  lemma SortSwapsTwo(a: Entry, b: Entry)
    requires Key(a) < Key(b)
    ensures SortByDestDesc([a, b]) == [b, a]
  {
    assert [a, b][1..] == [b] && [b][1..] == [];
    calc {
      SortByDestDesc([a, b]);
      InsertDesc(a, SortByDestDesc([b]));
      { assert SortByDestDesc([b]) == InsertDesc(b, SortByDestDesc([])) == [b]; }
      InsertDesc(a, [b]);
      [b] + InsertDesc(a, []);
      [b, a];
    }
  }

  lemma TwoSubnets()
    ensures PrefixToMask(24) == 0xFFFF_FF00
    ensures
      var t := Snapshot([Entry(0x0A00_0000, 0xFFFF_FF00, Gw1), Entry(0x0A00_0100, 0xFFFF_FF00, Gw2)]);
      FirstMatch(t, ToBits(Ipv4Addr(10, 0, 0, 5))) == Some(Gw1) &&
      FirstMatch(t, ToBits(Ipv4Addr(10, 0, 1, 9))) == Some(Gw2) &&
      FirstMatch(t, ToBits(Ipv4Addr(192, 168, 0, 1))) == None
  {
    assert PrefixToMask(24) == (!(0 as bv32)) << 8;
    var a, b := Entry(0x0A00_0000, 0xFFFF_FF00, Gw1), Entry(0x0A00_0100, 0xFFFF_FF00, Gw2);
    var t := SortByDestDesc(MaskAll([a, b]));
    assert MaskAll([a, b]) == [a, b] by {
      MaskAllShape([a, b]);
    }
    SortSwapsTwo(a, b);
    assert ToBits(Ipv4Addr(10, 0, 0, 5)) == 0x0A00_0005;
    assert ToBits(Ipv4Addr(10, 0, 1, 9)) == 0x0A00_0109;
    assert ToBits(Ipv4Addr(192, 168, 0, 1)) == 0xC0A8_0001;
    assert t[1..] == [a] && [a][1..] == [];
    assert FirstMatch([a], 0xC0A8_0001) == None;
  }

  lemma EmptyTable(ip: Ipv4Addr)
    ensures FirstMatch(Snapshot([]), ToBits(ip)) == None
  {
  }

  /** The default route sorts last because its destination 0.0.0.0 is the smallest. */
  lemma DefaultRouteLast()
    ensures
      var t := Snapshot([Entry(0, 0, Gw1), Entry(0x0A00_0000, 0xFFFF_FF00, Gw2)]);
      FirstMatch(t, ToBits(Ipv4Addr(10, 0, 0, 5))) == Some(Gw2) &&
      FirstMatch(t, ToBits(Ipv4Addr(8, 8, 8, 8))) == Some(Gw1)
  {
    var a, b := Entry(0, 0, Gw1), Entry(0x0A00_0000, 0xFFFF_FF00, Gw2);
    var t := SortByDestDesc(MaskAll([a, b]));
    assert MaskAll([a, b]) == [a, b] by {
      MaskAllShape([a, b]);
    }
    SortSwapsTwo(a, b);
    assert ToBits(Ipv4Addr(10, 0, 0, 5)) == 0x0A00_0005;
    assert ToBits(Ipv4Addr(8, 8, 8, 8)) == 0x0808_0808;
    assert t[1..] == [a];
  }

  /**
   * 10.0.0.0/8 listed before 10.0.0.0/24: both mask to 10.0.0.0, the stable
   * sort keeps the /8 first, and 10.0.0.5 is sent to its gateway although the
   * /24 also holds it.
   */
  lemma FirstMatchIsNotLongestPrefix()
    ensures
      var t := Snapshot([Entry(0x0A00_0000, 0xFF00_0000, Gw1), Entry(0x0A00_0000, 0xFFFF_FF00, Gw2)]);
      |t| == 2 && Matches(t[1], ToBits(Ipv4Addr(10, 0, 0, 5))) && t[1].gateway == Gw2 &&
      FirstMatch(t, ToBits(Ipv4Addr(10, 0, 0, 5))) == Some(Gw1)
  {
    var a, b := Entry(0x0A00_0000, 0xFF00_0000, Gw1), Entry(0x0A00_0000, 0xFFFF_FF00, Gw2);
    MaskAllShape([a, b]);
    assert MaskAll([a, b]) == [a, b];
    SnapshotOfTwo(a, b);
    assert ToBits(Ipv4Addr(10, 0, 0, 5)) == 0x0A00_0005;
  }
}
