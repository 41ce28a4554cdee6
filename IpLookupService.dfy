/** The service in front of the index (src/IpLookup/Lookup/IpLookupService.cs):
    it refuses to store ranges that start at a bogon address and answers
    lookups from the main index first, then from the bogon table. */
module IpLookupService {
  import opened Common
  import opened IpConverter
  import I = IpInfo
  import IL = IntervalList
  import X = IpIndex
  import B = Ipv4BogonIndex

  /** Some range stored in `contents` covers `key`. */
  ghost predicate Covered(contents: seq<IL.Interval<X.InfoRecord>>, key: int) {
    exists i :: 0 <= i < |contents| && contents[i].Covers(key)
  }

  /** No stored range starts at a bogon address: what `Add` keeps when
      every insert goes through the service. */
  ghost predicate NoBogonStarts(contents: seq<IL.Interval<X.InfoRecord>>) {
    forall i :: 0 <= i < |contents| ==> !B.IsBogonKey(contents[i].start)
  }

  /** Forwarding a range whose start is not bogon, the only kind `Add`
      forwards, keeps `NoBogonStarts` whether the index accepts it (and
      appends it) or refuses it (and stays as it was). */
  lemma ForwardedRangeKeepsNoBogonStarts(contents: seq<IL.Interval<X.InfoRecord>>, contents': seq<IL.Interval<X.InfoRecord>>,
                                         next: IL.Interval<X.InfoRecord>, accepted: bool)
    requires !B.IsBogonKey(next.start)
    requires contents' == if accepted then contents + [next] else contents
    ensures NoBogonStarts(contents) ==> NoBogonStarts(contents')
  {
    if accepted && NoBogonStarts(contents) {
      forall i | 0 <= i < |contents'|
        ensures !B.IsBogonKey(contents'[i].start)
      {
        if i < |contents| {
          assert contents'[i] == contents[i];
        }
      }
    }
  }

  /** The service holds the injected index; the bogon table, a static class
      in the source, is passed to each operation that consults it. */
  class IpLookupService {
    const ipIndex: X.IpIndex

    ghost predicate Valid()
      reads this, ipIndex, ipIndex.infoKeyByIpRange, ipIndex.ipInfoRecords
    {
      ipIndex.Valid()
    }

    /** The primary constructor (the logger is not modelled). */
    constructor(ipIndex: X.IpIndex)
      requires ipIndex.Valid()
      ensures Valid() && this.ipIndex == ipIndex
    {
      this.ipIndex := ipIndex;
    }

    /** `IsBogonIp`: the bogon table knows the address. */
    static method IsBogonIp(bogons: B.Ipv4BogonIndex, ipAddress: Address) returns (ok: bool)
      requires bogons.Valid()
      ensures ok == B.IsBogonKey(IpAddressToUInt64(ipAddress))
    {
      var value := bogons.TryGetValue(ipAddress);
      ok := value.Some?;
    }

    /** `Add`: a range whose START is bogon is dropped without error (the
        source logs a warning); anything else goes to the index unchanged,
        and the index's outcome is the service's. */
    method Add(bogons: B.Ipv4BogonIndex, rangeStart: Address, rangeEnd: Address, ipInfo: I.IpInfo)
      returns (r: Outcome<Exception>)
      requires Valid() && bogons.Valid()
      modifies ipIndex, ipIndex.infoKeyByIpRange, ipIndex.ipInfoRecords
      ensures Valid()
      ensures B.IsBogonKey(IpAddressToUInt64(rangeStart)) ==>
                r == Pass && unchanged(ipIndex, ipIndex.infoKeyByIpRange, ipIndex.ipInfoRecords)
      ensures !B.IsBogonKey(IpAddressToUInt64(rangeStart)) ==>
                r == old(ipIndex.ValidateAddRequest(IpAddressToUInt64(rangeStart), IpAddressToUInt64(rangeEnd)))
      ensures r.Fail? ==> unchanged(ipIndex, ipIndex.infoKeyByIpRange, ipIndex.ipInfoRecords)
      ensures !B.IsBogonKey(IpAddressToUInt64(rangeStart)) && r.Pass? ==>
                ipIndex.Contents() == old(ipIndex.Contents())
                  + [IL.Interval(IpAddressToUInt64(rangeStart), IpAddressToUInt64(rangeEnd), X.RecordOf(ipInfo))]
      ensures NoBogonStarts(old(ipIndex.Contents())) ==> NoBogonStarts(ipIndex.Contents())
    {
      var bogon := IsBogonIp(bogons, rangeStart);
      r := AddClassified(bogon, rangeStart, rangeEnd, ipInfo);
    }

    /** The rest of `Add` once the start has been classified: a bogon start
        returns at once, any other range is forwarded. */
    method AddClassified(bogon: bool, rangeStart: Address, rangeEnd: Address, ipInfo: I.IpInfo)
      returns (r: Outcome<Exception>)
      requires Valid() && bogon == B.IsBogonKey(IpAddressToUInt64(rangeStart))
      modifies ipIndex, ipIndex.infoKeyByIpRange, ipIndex.ipInfoRecords
      ensures Valid()
      ensures bogon ==> r == Pass && unchanged(ipIndex, ipIndex.infoKeyByIpRange, ipIndex.ipInfoRecords)
      ensures !bogon ==>
                r == old(ipIndex.ValidateAddRequest(IpAddressToUInt64(rangeStart), IpAddressToUInt64(rangeEnd)))
      ensures r.Fail? ==> unchanged(ipIndex, ipIndex.infoKeyByIpRange, ipIndex.ipInfoRecords)
      ensures !bogon && r.Pass? ==>
                ipIndex.Contents() == old(ipIndex.Contents())
                  + [IL.Interval(IpAddressToUInt64(rangeStart), IpAddressToUInt64(rangeEnd), X.RecordOf(ipInfo))]
      ensures NoBogonStarts(old(ipIndex.Contents())) ==> NoBogonStarts(ipIndex.Contents())
    {
      if bogon {
        return Pass;
      }
      r := Forward(rangeStart, rangeEnd, ipInfo);
    }

    /** The last step of `Add`: a range with a non-bogon start is handed to
        the index, whose outcome and effect are the service's. */
    method Forward(rangeStart: Address, rangeEnd: Address, ipInfo: I.IpInfo) returns (r: Outcome<Exception>)
      requires Valid() && !B.IsBogonKey(IpAddressToUInt64(rangeStart))
      modifies ipIndex, ipIndex.infoKeyByIpRange, ipIndex.ipInfoRecords
      ensures Valid()
      ensures r == old(ipIndex.ValidateAddRequest(IpAddressToUInt64(rangeStart), IpAddressToUInt64(rangeEnd)))
      ensures r.Fail? ==> unchanged(ipIndex, ipIndex.infoKeyByIpRange, ipIndex.ipInfoRecords)
      ensures r.Pass? ==>
                ipIndex.Contents() == old(ipIndex.Contents())
                  + [IL.Interval(IpAddressToUInt64(rangeStart), IpAddressToUInt64(rangeEnd), X.RecordOf(ipInfo))]
      ensures NoBogonStarts(old(ipIndex.Contents())) ==> NoBogonStarts(ipIndex.Contents())
    {
      ghost var contents := ipIndex.Contents();
      r := ipIndex.Add(rangeStart, rangeEnd, ipInfo);
      ghost var next := IL.Interval(IpAddressToUInt64(rangeStart), IpAddressToUInt64(rangeEnd), X.RecordOf(ipInfo));
      ForwardedRangeKeepsNoBogonStarts(contents, ipIndex.Contents(), next, r.Pass?);
    }

    /** `TryGetValue`: the main index wins; only when no stored range covers
        the address is the bogon table asked. */
    method TryGetValue(bogons: B.Ipv4BogonIndex, ipAddress: Address) returns (r: Option<I.IpInfo>)
      requires Valid() && bogons.Valid()
      ensures forall i :: 0 <= i < |ipIndex.Contents()| && ipIndex.Contents()[i].Covers(IpAddressToUInt64(ipAddress)) ==>
                r == Some(ipIndex.Contents()[i].value.ToIpInfo())
      ensures !Covered(ipIndex.Contents(), IpAddressToUInt64(ipAddress)) ==>
                r == IL.Lookup(B.BogonIntervals(), IpAddressToUInt64(ipAddress))
      ensures r.None? <==>
                !Covered(ipIndex.Contents(), IpAddressToUInt64(ipAddress)) && !B.IsBogonKey(IpAddressToUInt64(ipAddress))
    {
      r := ipIndex.TryGetValue(ipAddress);
      if r.Some? {
        return;
      }
      r := bogons.TryGetValue(ipAddress);
    }
  }

  /** Only the start of a range is checked: a range from 9.255.255.255 to
      10.0.0.5 is passed on to the index although its end is a private-use
      address, while a range starting at 10.0.0.5 is dropped. */
  lemma OnlyTheStartIsChecked()
    ensures !B.IsBogonKey(IpAddressToUInt64(LastBeforePrivate))
    ensures B.IsBogonKey(IpAddressToUInt64(PrivateUse))
  {
    Ipv4KeyFormula(LastBeforePrivate);
    B.GapIsNotBogon(0, 0x09FF_FFFF);
    Ipv4KeyFormula(PrivateUse);
    B.AddressInBlock(PrivateUse, 1);
  }

  const LastBeforePrivate: Address := [9, 255, 255, 255]
  const PrivateUse: Address := [10, 0, 0, 5]
}
