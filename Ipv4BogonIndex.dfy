/** The fixed table of reserved ("bogon") IPv4 blocks, built once and then
    only read (src/IpLookup/Storage/InMemory/Ipv4BogonIndex.cs). */
module Ipv4BogonIndex {
  import opened Common
  import opened IpConverter
  import I = IpInfo
  import IL = IntervalList

  /** One reserved block: its network address, prefix length and description. */
  datatype NetworkInfo = NetworkInfo(address: Address, subnetMask: Byte, description: string) {
    /** The key of the network address; for IPv4 it fits in 32 bits, so the
        `(uint)` cast below loses nothing. */
    function IpUInt64(): (key: UInt64)
      ensures IsIpv4(address) ==> key < 0x1_0000_0000 && key % 0x1_0000_0000 == key
    {
      IpAddressToUInt64(address)
    }

    /** The last address of the block; `(uint)` keeps the low 32 bits of the
        key. For an IPv4 network address aligned to its prefix the result is
        the block's last key, at or after the network address. */
    function SubnettedIpUInt64(): (last: UInt64)
      requires subnetMask != 0
      ensures IsIpv4(address) && subnetMask <= 32 && IpUInt64() % Pow2(32 - subnetMask) == 0 ==>
                IpUInt64() <= last == IpUInt64() + Pow2(32 - subnetMask) - 1
    {
      var ip := IpUInt64() % 0x1_0000_0000;
      if IsIpv4(address) && subnetMask <= 32 && ip % Pow2(32 - subnetMask) == 0 then
        SubnettedIpIsLastOfBlock(ip, subnetMask);
        SubnettedIp(ip, subnetMask)
      else
        SubnettedIp(ip, subnetMask)
    }
  }

  const BogonNetworks: seq<NetworkInfo> := [
    NetworkInfo([0, 0, 0, 0], 8, "\"This\" network"),
    NetworkInfo([10, 0, 0, 0], 8, "Private-use networks"),
    NetworkInfo([100, 64, 0, 0], 10, "Carrier-grade NAT"),
    NetworkInfo([127, 0, 0, 0], 8, "Loopback"),
    NetworkInfo([169, 254, 0, 0], 16, "Link local"),
    NetworkInfo([172, 16, 0, 0], 12, "Private-use networks"),
    NetworkInfo([192, 0, 0, 0], 24, "IETF protocol assignments"),
    NetworkInfo([192, 0, 2, 0], 24, "TEST-NET-1"),
    NetworkInfo([192, 168, 0, 0], 16, "Private-use networks"),
    NetworkInfo([198, 18, 0, 0], 15, "Network interconnect device benchmark testing"),
    NetworkInfo([198, 51, 100, 0], 24, "TEST-NET-2"),
    NetworkInfo([203, 0, 113, 0], 24, "TEST-NET-3"),
    NetworkInfo([224, 0, 0, 0], 4, "Multicast"),
    NetworkInfo([240, 0, 0, 0], 4, "Reserved for future use")
  ]

  /** What `Populate` adds for one network. */
  function Entry(network: NetworkInfo): IL.Interval<I.IpInfo>
    requires network.subnetMask != 0
  {
    IL.Interval(network.IpUInt64(), network.SubnettedIpUInt64(), I.FromDescription(network.description))
  }

  /** The intervals `Populate` adds, in table order. */
  function BogonIntervals(): (intervals: seq<IL.Interval<I.IpInfo>>)
    ensures |intervals| == |BogonNetworks|
    ensures forall i :: 0 <= i < |BogonNetworks| ==> intervals[i] == Entry(BogonNetworks[i])
  {
    seq(|BogonNetworks|, i requires 0 <= i < |BogonNetworks| => Entry(BogonNetworks[i]))
  }

  lemma Pow2Table()
    ensures Pow2(4) == 0x10 && Pow2(8) == 0x100 && Pow2(16) == 0x1_0000 && Pow2(17) == 0x2_0000
    ensures Pow2(20) == 0x10_0000 && Pow2(22) == 0x40_0000 && Pow2(24) == 0x100_0000
    ensures Pow2(28) == 0x1000_0000
  {
    Pow2Add(8, 8);
    Pow2Add(16, 4);
    Pow2Add(16, 6);
    Pow2Add(16, 8);
    Pow2Add(8, 4);
    Pow2Add(16, 12);
  }

  const BogonStarts: seq<int> := [0x0000_0000, 0x0A00_0000, 0x6440_0000, 0x7F00_0000, 0xA9FE_0000, 0xAC10_0000, 0xC000_0000,
                                   0xC000_0200, 0xC0A8_0000, 0xC612_0000, 0xC633_6400, 0xCB00_7100, 0xE000_0000, 0xF000_0000]
  const BogonEnds: seq<int> := [0x00FF_FFFF, 0x0AFF_FFFF, 0x647F_FFFF, 0x7FFF_FFFF, 0xA9FE_FFFF, 0xAC1F_FFFF, 0xC000_00FF,
                                 0xC000_02FF, 0xC0A8_FFFF, 0xC613_FFFF, 0xC633_64FF, 0xCB00_71FF, 0xEFFF_FFFF, 0xFFFF_FFFF]

  /** The key range of one block, from its address bytes and prefix length. */
  lemma BlockKeys(network: NetworkInfo, start: int, end: int)
    requires IsIpv4(network.address) && 1 <= network.subnetMask <= 32
    requires start == (network.address[0] as int) * 0x100_0000 + (network.address[1] as int) * 0x1_0000
                      + (network.address[2] as int) * 0x100 + network.address[3]
    requires end == start + Pow2(32 - network.subnetMask) - 1 < 0x1_0000_0000
    ensures Entry(network).start == start && Entry(network).end == end
  {
    Ipv4KeyFormula(network.address);
  }

  lemma EntryKeys(i: nat)
    requires i < |BogonNetworks|
    ensures Entry(BogonNetworks[i]).start == BogonStarts[i]
    ensures Entry(BogonNetworks[i]).end == BogonEnds[i]
  {
    Pow2Table();
    match i
    case 0 => BlockKeys(BogonNetworks[0], BogonStarts[0], BogonEnds[0]);
    case 1 => BlockKeys(BogonNetworks[1], BogonStarts[1], BogonEnds[1]);
    case 2 => BlockKeys(BogonNetworks[2], BogonStarts[2], BogonEnds[2]);
    case 3 => BlockKeys(BogonNetworks[3], BogonStarts[3], BogonEnds[3]);
    case 4 => BlockKeys(BogonNetworks[4], BogonStarts[4], BogonEnds[4]);
    case 5 => BlockKeys(BogonNetworks[5], BogonStarts[5], BogonEnds[5]);
    case 6 => BlockKeys(BogonNetworks[6], BogonStarts[6], BogonEnds[6]);
    case 7 => BlockKeys(BogonNetworks[7], BogonStarts[7], BogonEnds[7]);
    case 8 => BlockKeys(BogonNetworks[8], BogonStarts[8], BogonEnds[8]);
    case 9 => BlockKeys(BogonNetworks[9], BogonStarts[9], BogonEnds[9]);
    case 10 => BlockKeys(BogonNetworks[10], BogonStarts[10], BogonEnds[10]);
    case 11 => BlockKeys(BogonNetworks[11], BogonStarts[11], BogonEnds[11]);
    case 12 => BlockKeys(BogonNetworks[12], BogonStarts[12], BogonEnds[12]);
    case 13 => BlockKeys(BogonNetworks[13], BogonStarts[13], BogonEnds[13]);
  }

  /** The key range of every block. */
  lemma BogonKeys()
    ensures |BogonIntervals()| == 14
    ensures forall i :: 0 <= i < 14 ==> BogonIntervals()[i].start == BogonStarts[i] && BogonIntervals()[i].end == BogonEnds[i]
  {
    forall i | 0 <= i < 14
      ensures BogonIntervals()[i].start == BogonStarts[i] && BogonIntervals()[i].end == BogonEnds[i]
    {
      EntryKeys(i);
    }
  }

  /** Every prefix length in the table lies in 1..32. */
  lemma EntryMask(i: nat)
    requires i < |BogonNetworks|
    ensures 1 <= BogonNetworks[i].subnetMask <= 32
  {
  }

  lemma TableGaps(i: nat)
    requires i < 14
    ensures BogonStarts[i] <= BogonEnds[i]
    ensures i < 13 ==> BogonEnds[i] < BogonStarts[i + 1]
  {
  }

  /** Each block is well formed and ends before the next one starts. */
  lemma EntryChained(i: nat)
    requires i < |BogonNetworks|
    ensures BogonIntervals()[i].start <= BogonIntervals()[i].end
    ensures i + 1 < |BogonNetworks| ==> BogonIntervals()[i].end < BogonIntervals()[i + 1].start
  {
    EntryKeys(i);
    if i + 1 < |BogonNetworks| {
      EntryKeys(i + 1);
    }
    TableGaps(i);
  }

  /** Consecutive blocks leave a gap, so the table is disjoint and its
      starts strictly increase. */
  lemma BogonIntervalsDisjoint()
    ensures IL.ChainedStrictly(BogonIntervals())
    ensures IL.Disjoint(BogonIntervals()) && IL.StrictlyIncreasing(IL.Starts(BogonIntervals()))
  {
    var intervals := BogonIntervals();
    forall i | 0 <= i < |intervals|
      ensures intervals[i].start <= intervals[i].end
      ensures i < |intervals| - 1 ==> intervals[i].end < intervals[i + 1].start
    {
      EntryChained(i);
    }
    IL.DisjointFromNeighbours(intervals);
  }

  lemma PrefixStep<T>(s: seq<T>, i: nat)
    requires i < |s|
    ensures s[..i] + [s[i]] == s[..i + 1]
  {
  }

  /** A key is bogon when the table's lookup finds it. */
  predicate IsBogonKey(key: int) {
    IL.Lookup(BogonIntervals(), key).Some?
  }

  /** A key is bogon exactly when it lies in one of the fourteen blocks. */
  lemma BogonKeyIff(key: int)
    ensures IsBogonKey(key) <==> exists i :: 0 <= i < |BogonNetworks| && BogonStarts[i] <= key <= BogonEnds[i]
  {
    BogonIntervalsDisjoint();
    BogonKeys();
    IL.LookupHitsCoveredKeys(BogonIntervals(), key);
  }

  /** A key inside block `i` finds that block's description. */
  lemma BlockIsBogon(i: nat, key: int)
    requires i < |BogonNetworks| && BogonStarts[i] <= key <= BogonEnds[i]
    ensures IL.Lookup(BogonIntervals(), key) == Some(I.FromDescription(BogonNetworks[i].description))
  {
    BogonIntervalsDisjoint();
    BogonKeys();
    IL.LookupFindsCoveringInterval(BogonIntervals(), key, i);
  }

  lemma EntryDescribed(i: nat)
    requires i < |BogonNetworks|
    ensures |BogonNetworks[i].description| > 0
  {
  }

  /** What a hit returns: a non-empty description and nothing else. */
  lemma BogonHitIsDescriptionOnly(key: int)
    requires IsBogonKey(key)
    ensures var info := IL.Lookup(BogonIntervals(), key).value;
            && info.description.Some? && |info.description.value| > 0
            && info.City() == "" && info.Region() == "" && info.Country() == ""
            && info.latitude == 0 && info.longitude == 0
  {
    var info := IL.Lookup(BogonIntervals(), key).value;
    var i :| 0 <= i < |BogonIntervals()| && BogonIntervals()[i].Covers(key) && info == BogonIntervals()[i].value;
    EntryDescribed(i);
  }

  /** A key strictly between block `i` and block `i + 1` is not bogon. */
  lemma GapIsNotBogon(i: nat, key: int)
    requires i + 1 < |BogonNetworks| && BogonEnds[i] < key < BogonStarts[i + 1]
    ensures !IsBogonKey(key)
  {
    var intervals := BogonIntervals();
    BogonIntervalsDisjoint();
    BogonKeys();
    BogonKeyIff(key);
  }

  const ThisNetworkHost: Address := [0, 0, 0, 1]
  const PrivateHost: Address := [10, 0, 1, 0]
  const TopButOne: Address := [255, 255, 255, 254]
  const Top: Address := [255, 255, 255, 255]
  const PublicResolver: Address := [8, 8, 8, 8]

  /** An IPv4 address whose number lies in block `i` is bogon. */
  lemma AddressInBlock(address: Address, i: nat)
    requires IsIpv4(address) && i < |BogonNetworks|
    requires BogonStarts[i] <= (address[0] as int) * 0x100_0000 + (address[1] as int) * 0x1_0000
                                 + (address[2] as int) * 0x100 + address[3] <= BogonEnds[i]
    ensures IsBogonKey(IpAddressToUInt64(address))
  {
    Ipv4KeyFormula(address);
    BlockIsBogon(i, IpAddressToUInt64(address));
  }

  /** The network address of every block is bogon. */
  lemma NetworkAddressesAreBogon()
    ensures forall i :: 0 <= i < |BogonNetworks| ==> IsBogonKey(IpAddressToUInt64(BogonNetworks[i].address))
  {
    forall i | 0 <= i < |BogonNetworks|
      ensures IsBogonKey(IpAddressToUInt64(BogonNetworks[i].address))
    {
      EntryKeys(i);
      TableGaps(i);
      BlockIsBogon(i, BogonStarts[i]);
    }
  }

  /** A host address inside the first block is bogon. */
  lemma ThisNetworkHostIsBogon()
    ensures IsBogonKey(IpAddressToUInt64(ThisNetworkHost))
  {
    AddressInBlock(ThisNetworkHost, 0);
  }

  /** A host address inside a private-use block is bogon. */
  lemma PrivateHostIsBogon()
    ensures IsBogonKey(IpAddressToUInt64(PrivateHost))
  {
    AddressInBlock(PrivateHost, 1);
  }

  /** The two highest addresses fall in the last block (`SubnettedIp`
      reaches 255.255.255.255 without wrapping). */
  lemma TopAddressesAreBogon()
    ensures IsBogonKey(IpAddressToUInt64(TopButOne))
    ensures IsBogonKey(IpAddressToUInt64(Top))
  {
    AddressInBlock(TopButOne, 13);
    AddressInBlock(Top, 13);
  }

  /** A public resolver's address is not bogon. */
  lemma PublicAddressIsNotBogon()
    ensures !IsBogonKey(IpAddressToUInt64(PublicResolver))
  {
    Ipv4KeyFormula(PublicResolver);
    GapIsNotBogon(0, 0x0808_0808);
  }

  /** The table is keyed by IPv4 numbers, but an IPv6 address whose first
      eight bytes are zero (the loopback `::1`, an IPv4-mapped `::ffff:a.b.c.d`)
      gets key 0 and so finds the `"This" network` block. */
  lemma Ipv6LoopbackFindsThisNetwork()
    ensures IL.Lookup(BogonIntervals(), IpAddressToUInt64(Ipv6Loopback)) == Some(I.FromDescription("\"This\" network"))
  {
    BigEndianOfZeros(Ipv6Loopback[..8]);
    BlockIsBogon(0, 0);
  }

  const Ipv6Loopback: Address := [0, 0, 0, 0, 0, 0, 0, 0, 0, 0, 0, 0, 0, 0, 0, 1]

  /** The index itself: a static table in the source, one object here. */
  class Ipv4BogonIndex {
    const ipInfoByInterval: IL.IntervalList<I.IpInfo>

    /** After the static constructor the list holds exactly the table. */
    ghost predicate Valid()
      reads this, ipInfoByInterval
    {
      && ipInfoByInterval.Valid()
      && ipInfoByInterval.Intervals() == BogonIntervals()
    }

    /** One range per table entry. */
    function RangeCount(): (c: nat)
      reads this, ipInfoByInterval
      ensures Valid() ==> c == |BogonNetworks|
    {
      ipInfoByInterval.Count()
    }

    /** The static constructor: an empty list of capacity 20, then `Populate`. */
    constructor()
      ensures Valid() && RangeCount() == 14 && fresh(ipInfoByInterval)
    {
      ipInfoByInterval := new IL.IntervalList(20);
      new;
      Populate();
      BogonKeys();
    }

    /** `Populate`: every table entry is added in order, and every add is accepted. */
    method Populate()
      requires ipInfoByInterval.Valid() && ipInfoByInterval.Intervals() == []
      modifies ipInfoByInterval
      ensures Valid()
    {
      var intervals := BogonIntervals();
      BogonIntervalsDisjoint();
      for i := 0 to |BogonNetworks|
        invariant ipInfoByInterval.Valid()
        invariant ipInfoByInterval.Intervals() == intervals[..i]
      {
        EntryMask(i);
        var network := BogonNetworks[i];
        var startIp := network.IpUInt64();
        var endIp := network.SubnettedIpUInt64();
        var ipInfo := I.FromDescription(network.description);
        assert IL.Interval(startIp, endIp, ipInfo) == intervals[i];
        IL.PrefixAcceptsNext(ipInfoByInterval, intervals, i);
        var r := ipInfoByInterval.Add(startIp, endIp, ipInfo);
        assert r.Pass?;
        PrefixStep(intervals, i);
      }
      assert intervals[..|BogonNetworks|] == intervals;
    }

    /** `TryGetValue`: the table's lookup at the address's key. */
    method TryGetValue(ip: Address) returns (r: Option<I.IpInfo>)
      requires Valid()
      ensures r == IL.Lookup(BogonIntervals(), IpAddressToUInt64(ip))
      ensures r.Some? <==> IsBogonKey(IpAddressToUInt64(ip))
    {
      var ipAddressInt := IpAddressToUInt64(ip);
      BogonIntervalsDisjoint();
      assert ipInfoByInterval.starts == IL.Starts(ipInfoByInterval.Intervals());
      r := ipInfoByInterval.TryGetValue(ipAddressInt);
    }
  }
}
