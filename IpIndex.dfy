/** The main address index: ranges map to a key into a column of
    deduplicated records (src/IpLookup/Storage/InMemory/IpIndex.cs). */
module IpIndex {
  import opened Common
  import opened IpConverter
  import I = IpInfo
  import IL = IntervalList
  import MC = MemoryColumn

  /** `InfoRecord`: the part of an `IpInfo` the index stores. The
      description is not kept. */
  datatype InfoRecord = InfoRecord(cityRegionCountry: I.PackedTriple, latitude: I.Float32, longitude: I.Float32) {
    /** The `IpInfo` rebuilt by an object initializer with no constructor
        call, so its description is null. */
    function ToIpInfo(): I.IpInfo {
      I.IpInfo(None, cityRegionCountry, latitude, longitude)
    }
  }

  function RecordOf(info: I.IpInfo): InfoRecord {
    InfoRecord(info.cityRegionCountry, info.latitude, info.longitude)
  }

  /** Storing an `IpInfo` and reading it back keeps city, region, country and
      coordinates, and the description comes back null. */
  lemma InfoRecordRoundTrip(info: I.IpInfo)
    ensures var back := RecordOf(info).ToIpInfo();
            && back.description == None
            && back.City() == info.City() && back.Region() == info.Region() && back.Country() == info.Country()
            && back.latitude == info.latitude && back.longitude == info.longitude
  {
  }

  /** Two `IpInfo` values share a record exactly when city, region, country,
      latitude and longitude agree (the description plays no part). */
  lemma SameRecordIffSameFields(a: I.IpInfo, b: I.IpInfo)
    ensures RecordOf(a) == RecordOf(b) <==>
              && a.City() == b.City() && a.Region() == b.Region() && a.Country() == b.Country()
              && a.latitude == b.latitude && a.longitude == b.longitude
  {
    var ca, cb := a.cityRegionCountry, b.cityRegionCountry;
    if ca.City() == cb.City() && ca.Region() == cb.Region() && ca.Country() == cb.Country() {
      I.PackedTripleDeterminedByFields(ca, cb);
    }
  }

  /** The stored ranges with each record key replaced by its record. */
  function Resolve(ranges: seq<IL.Interval<nat>>, records: seq<InfoRecord>): (r: seq<IL.Interval<InfoRecord>>)
    requires forall i :: 0 <= i < |ranges| ==> ranges[i].value < |records|
    ensures |r| == |ranges|
    ensures forall i :: 0 <= i < |ranges| ==>
              r[i] == IL.Interval(ranges[i].start, ranges[i].end, records[ranges[i].value])
  {
    seq(|ranges|, i requires 0 <= i < |ranges| => IL.Interval(ranges[i].start, ranges[i].end, records[ranges[i].value]))
  }

  /** Storing more records and one more range extends the resolved view by
      that one range. */
  lemma ResolveAppend(ranges: seq<IL.Interval<nat>>, records: seq<InfoRecord>,
                      records': seq<InfoRecord>, next: IL.Interval<nat>)
    requires forall i :: 0 <= i < |ranges| ==> ranges[i].value < |records|
    requires records <= records' && next.value < |records'|
    ensures forall i :: 0 <= i < |ranges + [next]| ==> (ranges + [next])[i].value < |records'|
    ensures Resolve(ranges + [next], records')
         == Resolve(ranges, records) + [IL.Interval(next.start, next.end, records'[next.value])]
  {
    assert forall i :: 0 <= i < |ranges| ==> records'[ranges[i].value] == records[ranges[i].value];
  }

  /** Some range holds record key `k`. */
  ghost predicate Referenced(ranges: seq<IL.Interval<nat>>, k: int) {
    exists i :: 0 <= i < |ranges| && ranges[i].value == k
  }

  /** How the ranges and the record column fit together: every range points
      at a stored record and every record is used; the ranges are disjoint
      and never start at key 0. */
  ghost predicate Consistent(ranges: seq<IL.Interval<nat>>, recordCount: nat) {
    && (forall i :: 0 <= i < |ranges| ==> ranges[i].value < recordCount)
    && (forall k :: 0 <= k < recordCount ==> Referenced(ranges, k))
    && IL.Disjoint(ranges)
    && (|ranges| > 0 ==> ranges[0].start > 0)
  }

  /** Appending a range past the last one, pointing at an existing record or
      at a record stored just now, keeps the two consistent. */
  lemma ConsistentAppend(ranges: seq<IL.Interval<nat>>, recordCount: nat, next: IL.Interval<nat>, recordCount': nat)
    requires Consistent(ranges, recordCount)
    requires 0 < next.start <= next.end
    requires |ranges| > 0 ==> ranges[|ranges| - 1].end < next.start
    requires recordCount' == recordCount || (recordCount' == recordCount + 1 && next.value == recordCount)
    requires next.value < recordCount'
    ensures Consistent(ranges + [next], recordCount')
  {
    var ranges' := ranges + [next];
    IL.DisjointAppend(ranges, next);
    forall k | 0 <= k < recordCount'
      ensures Referenced(ranges', k)
    {
      if k < recordCount {
        assert Referenced(ranges, k);
        var i :| 0 <= i < |ranges| && ranges[i].value == k;
        assert ranges'[i].value == k;
      } else {
        assert ranges'[|ranges|].value == k;
      }
    }
  }

  class IpIndex {
    const infoKeyByIpRange: IL.IntervalList<nat>
    const ipInfoRecords: MC.MemoryColumn<InfoRecord>
    var lastIp: Option<UInt64>

    /** The ranges and records are consistent; `_lastIp` is the end of the
        last range, or null before the first one. */
    ghost predicate Valid()
      reads this, infoKeyByIpRange, ipInfoRecords
    {
      && infoKeyByIpRange.Valid()
      && ipInfoRecords.Valid()
      && Consistent(infoKeyByIpRange.Intervals(), ipInfoRecords.Count())
      && lastIp == (if infoKeyByIpRange.Count() == 0 then None else Some(infoKeyByIpRange.lastKey))
    }

    /** The ranges added so far, each with the record it resolves to. */
    ghost function Contents(): seq<IL.Interval<InfoRecord>>
      reads this, infoKeyByIpRange, ipInfoRecords
      requires Valid()
    {
      Resolve(infoKeyByIpRange.Intervals(), ipInfoRecords.items)
    }

    /** No records are stored exactly when no ranges are: every record is
        referenced by some range, and every range refers to a record. */
    function InfoCount(): (c: nat)
      reads this, infoKeyByIpRange, ipInfoRecords
      ensures Valid() ==> (c == 0 <==> Contents() == [])
    {
      assert Valid() && ipInfoRecords.Count() > 0 ==> Referenced(infoKeyByIpRange.Intervals(), 0);
      assert Valid() && |infoKeyByIpRange.Intervals()| > 0 ==>
               infoKeyByIpRange.Intervals()[0].value < ipInfoRecords.Count();
      ipInfoRecords.Count()
    }

    /** The number of stored ranges. */
    function RangeCount(): (c: nat)
      reads this, infoKeyByIpRange, ipInfoRecords
      ensures Valid() ==> c == |Contents()|
    {
      infoKeyByIpRange.Count()
    }

    constructor()
      ensures Valid() && Contents() == [] && InfoCount() == 0 && lastIp == None
      ensures fresh(infoKeyByIpRange) && fresh(ipInfoRecords)
    {
      infoKeyByIpRange := new IL.IntervalList(4000000);
      ipInfoRecords := new MC.MemoryColumn(400000);
      lastIp := None;
    }

    /** `ValidateAddRequest`: the start must lie after the last end (0 when
        nothing was added), checked first; then the range must not be
        inverted. A range starting at key 0 is therefore always refused. */
    function ValidateAddRequest(startIp: UInt64, endIp: UInt64): (r: Outcome<Exception>)
      reads this
      ensures r.Pass? <==> lastIp.GetOr(0) < startIp <= endIp
      ensures startIp <= lastIp.GetOr(0) ==>
                r == Fail(InvalidOperationException("IP ranges must be sorted in ascending order"))
      ensures r.Fail? && r.error.ArgumentException? ==> lastIp.GetOr(0) < startIp
    {
      if startIp <= lastIp.GetOr(0) then
        Fail(InvalidOperationException("IP ranges must be sorted in ascending order"))
      else if startIp > endIp then
        Fail(ArgumentException("The IP range end must be greater than the start"))
      else
        Pass
    }

    /** `Add`: validate before touching anything, then store the record
        (reusing an equal one) and append the range. */
    method Add(rangeStart: Address, rangeEnd: Address, ipInfo: I.IpInfo) returns (r: Outcome<Exception>)
      requires Valid()
      modifies this, infoKeyByIpRange, ipInfoRecords
      ensures Valid()
      ensures r == old(ValidateAddRequest(IpAddressToUInt64(rangeStart), IpAddressToUInt64(rangeEnd)))
      ensures r.Fail? ==> unchanged(this, infoKeyByIpRange, ipInfoRecords)
      ensures r.Pass? ==>
                Contents() == old(Contents())
                              + [IL.Interval(IpAddressToUInt64(rangeStart), IpAddressToUInt64(rangeEnd), RecordOf(ipInfo))]
      ensures r.Pass? ==> RangeCount() == old(RangeCount()) + 1 && lastIp == Some(IpAddressToUInt64(rangeEnd))
      ensures r.Pass? ==>
                InfoCount() == old(InfoCount()) + (if RecordOf(ipInfo) in old(ipInfoRecords.items) then 0 else 1)
    {
      var startIp := IpAddressToUInt64(rangeStart);
      var endIp := IpAddressToUInt64(rangeEnd);
      r := ValidateAddRequest(startIp, endIp);
      if r.Fail? {
        return;
      }
      ghost var oldContents := Contents();
      ghost var oldItems := ipInfoRecords.items;
      ghost var oldRanges := infoKeyByIpRange.Intervals();
      ListAcceptsValidatedAdd(this, startIp, endIp);

      var infoRecord := RecordOf(ipInfo);
      var key := ipInfoRecords.Add(infoRecord);
      var added := infoKeyByIpRange.Add(startIp, endIp, key);
      lastIp := Some(endIp);

      ghost var next := IL.Interval(startIp, endIp, key);
      assert infoKeyByIpRange.Intervals() == oldRanges + [next];
      ConsistentAppend(oldRanges, |oldItems|, next, ipInfoRecords.Count());
      ResolveAppend(oldRanges, oldItems, ipInfoRecords.items, next);
    }

    /** `TryGetValue`: the information of the range that covers the address's
        key, rebuilt from its record; `None` when no range covers it. */
    method TryGetValue(ip: Address) returns (r: Option<I.IpInfo>)
      requires Valid()
      ensures r.Some? <==> exists i :: 0 <= i < |Contents()| && Contents()[i].Covers(IpAddressToUInt64(ip))
      ensures forall i :: 0 <= i < |Contents()| && Contents()[i].Covers(IpAddressToUInt64(ip)) ==>
                r == Some(Contents()[i].value.ToIpInfo())
      ensures r.Some? ==> r.value.description == None
    {
      var ipAddressInt := IpAddressToUInt64(ip);
      var found := infoKeyByIpRange.TryGetValue(ipAddressInt);
      ghost var ranges := infoKeyByIpRange.Intervals();
      ghost var contents := Contents();
      assert forall i :: 0 <= i < |ranges| ==>
               (contents[i].Covers(ipAddressInt) <==> ranges[i].Covers(ipAddressInt));
      if found.None? {
        return None;
      }
      var record := ipInfoRecords.Get(found.value);
      r := Some(record.ToIpInfo());
      ghost var i :| 0 <= i < |ranges| && ranges[i].Covers(ipAddressInt) && found.value == infoKeyByIpRange.values[i];
      assert contents[i].value == record;
      forall j | 0 <= j < |contents| && contents[j].Covers(ipAddressInt)
        ensures j == i
      {
        IL.DisjointCoverIsUnique(ranges, ipAddressInt, i, j);
      }
    }
  }

  /** Once the index's own check passes, the interval list's weaker check
      (touching ranges allowed, no check on an empty list) passes too, so the
      inner `Add` cannot throw. */
  lemma ListAcceptsValidatedAdd(index: IpIndex, startIp: UInt64, endIp: UInt64)
    requires index.Valid()
    ensures index.ValidateAddRequest(startIp, endIp).Pass? ==>
              index.infoKeyByIpRange.ValidateAddRequest(startIp, endIp).Pass?
  {
  }

  /** `InfoCount` is the number of distinct records among the stored ranges,
      however many ranges share them. */
  lemma InfoCountIsDistinctRecords(index: IpIndex)
    requires index.Valid()
    ensures index.InfoCount() == |set i | 0 <= i < |index.Contents()| :: index.Contents()[i].value|
  {
    var contents := index.Contents();
    var items := index.ipInfoRecords.items;
    var ranges := index.infoKeyByIpRange.Intervals();
    var used := set i | 0 <= i < |contents| :: contents[i].value;
    forall x | x in MC.ItemSet(items)
      ensures x in used
    {
      var k :| 0 <= k < |items| && items[k] == x;
      assert Referenced(ranges, k);
      var i :| 0 <= i < |ranges| && ranges[i].value == k;
      assert contents[i].value == x;
    }
    MC.StoredItemsAreDistinct(index.ipInfoRecords);
    MC.DistinctItemCount(items);
    assert used == MC.ItemSet(items);
  }
}
