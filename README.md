# ip-lookup: a verified model of the in-memory range store

This project models the in-memory IP range store of `ip-lookup`, a service
that answers "what city, region and country belong to this address?". It
also proves properties of that model.

The model covers:
- the address-to-key conversion (`IpConverter`);
- the append-only interval list with its binary-search lookup (`IntervalList`);
- the deduplicating record column (`MemoryColumn`);
- the packed city/region/country string and `IpInfo` (`IpInfo`);
- the index that composes the interval list and the record column (`IpIndex`);
- the fixed table of fourteen reserved IPv4 blocks, the "bogons" (`Ipv4BogonIndex`);
- the lookup service that filters and falls back on that table (`IpLookupService`).

Each source file is one module. `Common` holds the shared pieces:
- bounded integer types;
- `Option`;
- `Outcome`, which carries the source's exceptions as values.

Objects whose fields the source updates are classes:
- `IntervalList`: three `seq` fields and `lastKey`;
- `MemoryColumn`: a `seq`, a `map` and the key counter;
- `IpIndex`: its two stores and `lastIp`;
- `Ipv4BogonIndex`;
- `IpLookupService`.

Each mutating method states the new state and keeps a `Valid()` invariant. Value types are datatypes: `IpInfo`, `CityRegionCountry`, `InfoRecord` and `NetworkInfo`.

What is modelled, and how:
- **Addresses** are 4-byte or 16-byte sequences.
- **Descriptions** are `Option<string>`: `None` stands for C#'s null, which is what an `IpInfo` rebuilt from a stored record carries.
- **Latitude and longitude** are 32-bit patterns that are only compared for equality.
- **Lookups.** A lookup that would return `false` with a `default` out value returns `None`.
- **Exceptions.** A thrown exception is a `Fail` outcome. It has the source's exception kind and message.
- **Reference definitions:**
  - `IntervalList.Lookup`, built on `IntervalList.LastAtOrBefore`, gives the predecessor-then-end-check lookup. The binary search is proved against it.
  - `IpIndex.IpIndex.Contents` is the list of stored ranges, each resolved to its record.
  - `Ipv4BogonIndex.BogonIntervals` is the bogon table as a list of intervals.

Three behaviours of the code are easy to misread:
- **Touching intervals.** `IntervalList` accepts a start equal to the previous end. It rejects only a start below the previous end. `IpIndex` is stricter and requires the start to exceed the previous end.
- **Check order.** `IpIndex` checks the ordering first, with `InvalidOperationException`. Only then does it check for an inverted range, with `ArgumentException`.
- **Field lengths.** The packed string's guard is an unchecked `Debug.Assert(len <= 65536)` followed by a 16-bit cast. It is not a recoverable error. See "Findings" below.

IPv6 keys use only the first eight bytes of the address. An IPv6 address whose first eight bytes are zero therefore gets key 0. That is the key of 0.0.0.0, so the IPv4 bogon table classifies it: `::1` gets the `"This" network` description. `Ipv4BogonIndex.Ipv6LoopbackFindsThisNetwork` records this.

## Model

| member | source | states |
|---|---|---|
| IpConverter.ReadUInt32BigEndian | src/IpLookup/Utilities/IpConverter.cs:29 | the first four bytes read as a big-endian number, which fits in 32 bits |
| IpConverter.ReadUInt64BigEndian | src/IpLookup/Utilities/IpConverter.cs:30 | the first eight bytes read as a big-endian number, which fits in 64 bits |
| IpConverter.BigEndian | src/IpLookup/Utilities/IpConverter.cs:29-30 | the big-endian value of n bytes is below 256^n, so a 4-byte read fits in 32 bits and an 8-byte read in 64 |
| IpConverter.IpAddressToUInt64 | src/IpLookup/Utilities/IpConverter.cs:18-32 | an IPv4 key is below 2^32; a 16-byte address's key is the big-endian value of its first eight bytes |
| IpConverter.BigEndianOrder | src/IpLookup/Utilities/IpConverter.cs:27-31 | byte-wise lexicographic order of equal-length byte strings is exactly numeric order of their big-endian values |
| IpConverter.BigEndianInjective | src/IpLookup/Utilities/IpConverter.cs:27-31 | equal-length byte strings have equal big-endian values exactly when they are equal |
| IpConverter.BigEndianOfZeros | src/IpLookup/Utilities/IpConverter.cs:30 | all-zero bytes read as 0 |
| IpConverter.Ipv4KeyFormula | src/IpLookup/Utilities/IpConverter.cs:29 | the key of b0.b1.b2.b3 is b0·2^24 + b1·2^16 + b2·2^8 + b3 |
| IpConverter.Ipv4KeyOrderAndIdentity | src/IpLookup/Utilities/IpConverter.cs:29 | the IPv4 conversion preserves lexicographic address order and is injective |
| IpConverter.Ipv6KeyIsPrefix | src/IpLookup/Utilities/IpConverter.cs:30 | two IPv6 addresses get the same key exactly when their first eight bytes agree |
| IpConverter.Ipv6KeysCollide | src/IpLookup/Utilities/IpConverter.cs:30 | 2001:db8::1 and 2001:db8::2 are different addresses with the same key |
| IpConverter.SubnettedIp | src/IpLookup/Utilities/IpConverter.cs:51-55 | mask 32 returns the address itself; a mask above 32 (power truncated to 0) returns the address minus one, wrapping 0 to 2^32-1 |
| IpConverter.SubnettedIpIsLastOfBlock | src/IpLookup/Utilities/IpConverter.cs:53 | for a network address of a /m block (1 ≤ m ≤ 32) the result is address + 2^(32-m) - 1: no wrap-around, not below the address, same block, all host bits set |
| IpConverter.SubnettedIpWraps | src/IpLookup/Utilities/IpConverter.cs:53 | for masks 1..32 the result is address + 2^(32-m) - 1 when that fits in 32 bits, and that sum minus 2^32 (below the address) otherwise |
| IntervalList.DisjointCoverIsUnique | src/IpLookup/Storage/InMemory/DataStructures/IntervalList.cs:53-65 | in a strictly separated list at most one interval covers a key |
| IntervalList.DisjointFromNeighbours | src/IpLookup/Storage/InMemory/DataStructures/IntervalList.cs:38-51 | if every interval is well formed and ends before the next starts, all pairs are separated and the starts strictly increase |
| IntervalList.DisjointAppend | src/IpLookup/Storage/InMemory/DataStructures/IntervalList.cs:14-23 | appending a well-formed interval that starts after the last end keeps the list strictly separated |
| IntervalList.LastAtOrBefore | src/IpLookup/Storage/InMemory/DataStructures/IntervalList.cs:67-84 | the position of the last interval whose start is at most the key, -1 when none; every later start exceeds the key |
| IntervalList.Lookup | src/IpLookup/Storage/InMemory/DataStructures/IntervalList.cs:53-65 | a hit returns the value of an interval that covers the key |
| IntervalList.LookupHitsCoveredKeys | src/IpLookup/Storage/InMemory/DataStructures/IntervalList.cs:53-65 | on an ordered list (touching allowed) the lookup hits exactly the keys some interval covers |
| IntervalList.LookupFindsCoveringInterval | src/IpLookup/Storage/InMemory/DataStructures/IntervalList.cs:53-65 | on a strictly separated list the lookup of any key an interval covers returns that interval's value, zero-length intervals included |
| IntervalList.LookupExactStart | src/IpLookup/Storage/InMemory/DataStructures/IntervalList.cs:69-71 | on an ordered list with distinct starts, looking up a stored start returns that interval's value |
| IntervalList.BinarySearch | src/IpLookup/Storage/InMemory/DataStructures/IntervalList.cs:69 | on sorted keys: a non-negative result is a position holding the value; a negative result is the complement of the insertion point (all keys before it smaller, all from it larger) |
| IntervalList.FindLowerThanOrEqualIndex | src/IpLookup/Storage/InMemory/DataStructures/IntervalList.cs:67-84 | -1 exactly when every key exceeds the value; otherwise a position whose key is at most the value and is either equal to it or the last such |
| IntervalList.IntervalList.constructor | src/IpLookup/Storage/InMemory/DataStructures/IntervalList.cs:3-10 | a new list is empty and valid |
| IntervalList.IntervalList.Count | src/IpLookup/Storage/InMemory/DataStructures/IntervalList.cs:12 | the number of stored intervals |
| IntervalList.IntervalList.ValidateAddRequest | src/IpLookup/Storage/InMemory/DataStructures/IntervalList.cs:38-51 | passes exactly when start ≤ end and the list is empty or the last end is at most start (touching accepted); failures are ArgumentExceptions, the inverted range with its own message |
| IntervalList.IntervalList.Add | src/IpLookup/Storage/InMemory/DataStructures/IntervalList.cs:14-23 | the outcome is the validation's; a failure changes nothing; a success appends one interval to each of the three lists and sets the last key to end; the order invariant is kept |
| IntervalList.IntervalList.FindIntervalIndex | src/IpLookup/Storage/InMemory/DataStructures/IntervalList.cs:53-65 | -1 exactly when the reference lookup misses; otherwise a covering interval, and the reference predecessor when starts are distinct |
| IntervalList.IntervalList.TryGetValue | src/IpLookup/Storage/InMemory/DataStructures/IntervalList.cs:25-36 | hits exactly when some interval covers the key and returns a covering interval's value; equals the reference lookup when starts are distinct |
| IntervalList.AcceptedAddKeepsOrder | src/IpLookup/Storage/InMemory/DataStructures/IntervalList.cs:38-51 | validation passes exactly when appending the interval keeps the list ordered |
| IntervalList.PrefixAcceptsNext | src/IpLookup/Storage/InMemory/DataStructures/IntervalList.cs:38-51 | a list holding a prefix of a strictly chained sequence accepts the sequence's next interval |
| MemoryColumn.MemoryColumn.constructor | src/IpLookup/Storage/InMemory/DataStructures/MemoryColumn.cs:3-7 | a new column is empty and valid |
| MemoryColumn.MemoryColumn.Count | src/IpLookup/Storage/InMemory/DataStructures/MemoryColumn.cs:9 | the number of items is the next key to hand out, and every key handed out is below it |
| MemoryColumn.MemoryColumn.Get | src/IpLookup/Storage/InMemory/DataStructures/MemoryColumn.cs:11-14 | the item at position id is the one whose key is id |
| MemoryColumn.MemoryColumn.Add | src/IpLookup/Storage/InMemory/DataStructures/MemoryColumn.cs:16-25 | a stored item returns its key and changes nothing; a new item is appended under key = old count; Get of the returned key is the item; existing keys never change; key counter = item count |
| MemoryColumn.StoredItemsAreDistinct | src/IpLookup/Storage/InMemory/DataStructures/MemoryColumn.cs:5-7 | the item list never holds an item twice |
| MemoryColumn.DistinctItemCount | src/IpLookup/Storage/InMemory/DataStructures/MemoryColumn.cs:9 | for a duplicate-free list, Count is the number of distinct items |
| IpInfo.CityRegionCountryAsWritten | src/IpLookup/Lookup/IpInfo.cs:80-89 | the constructor as written, with the 16-bit casts: the fields round-trip when both lengths are below 65536 |
| IpInfo.AsWrittenLosesFullLengthCity | src/IpLookup/Lookup/IpInfo.cs:82-87 | a city of exactly 65536 characters passes the assertion but reads back as the empty string |
| IpInfo.Pack | src/IpLookup/Lookup/IpInfo.cs:76-89 | for lengths below 65536 the buffer is the concatenation and City, Region and Country return exactly the arguments |
| IpInfo.PackInjective | src/IpLookup/Lookup/IpInfo.cs:80-89 | two packed values are equal exactly when their triples are equal |
| IpInfo.PackedTripleDeterminedByFields | src/IpLookup/Lookup/IpInfo.cs:70-78 | packed values with the same city, region and country are equal |
| IpInfo.DifferentSplitsDiffer | src/IpLookup/Lookup/IpInfo.cs:70-74 | the same buffer split differently ("ab"+"c" versus "a"+"bc") gives unequal values |
| IpInfo.FromCityRegionCountry | src/IpLookup/Lookup/IpInfo.cs:54-57 | built with the constructor as written (lengths up to 256·256 accepted): description "" (the property initializer runs), zero coordinates; below 65536 it is the corrected packing and city, region and country read back as given; a city of exactly 65536 characters reads back as "" |
| IpInfo.CityRegionCountry.City | src/IpLookup/Lookup/IpInfo.cs:76 | the city is the first cityLength characters of the buffer |
| IpInfo.CityRegionCountry.Region | src/IpLookup/Lookup/IpInfo.cs:77 | the region has regionLength characters and follows the city in the buffer |
| IpInfo.CityRegionCountry.Country | src/IpLookup/Lookup/IpInfo.cs:78 | the country is the rest: city, region and country together are exactly the buffer |
| IpInfo.IpInfo.City | src/IpLookup/Lookup/IpInfo.cs:20 | the IpInfo's city is its packed triple's city, a prefix of the buffer |
| IpInfo.IpInfo.Region | src/IpLookup/Lookup/IpInfo.cs:25 | the IpInfo's region is its packed triple's region, following the city |
| IpInfo.IpInfo.Country | src/IpLookup/Lookup/IpInfo.cs:30 | the IpInfo's city, region and country spell its packed triple's buffer |
| IpInfo.FromDescription | src/IpLookup/Lookup/IpInfo.cs:63-67 | the description is kept; city, region and country are empty; zero coordinates |
| IpIndex.RecordOf | src/IpLookup/Storage/InMemory/IpIndex.cs:88-93 | the record keeps the packed triple and the coordinates of an IpInfo; its round trip is InfoRecordRoundTrip |
| IpIndex.InfoRecord.ToIpInfo | src/IpLookup/Storage/InMemory/IpIndex.cs:99-107 | the object initializer without a constructor: an IpInfo with the record's triple and coordinates and a null description (`None`), because the `= ""` property initializer only runs in constructors; its round trip is InfoRecordRoundTrip |
| IpIndex.InfoRecordRoundTrip | src/IpLookup/Storage/InMemory/IpIndex.cs:88-107 | storing an IpInfo as a record and reading it back keeps city, region, country and coordinates; the description comes back null (`None`), whatever it was |
| IpIndex.SameRecordIffSameFields | src/IpLookup/Storage/InMemory/IpIndex.cs:78-93 | two IpInfos share a record exactly when city, region, country, latitude and longitude agree |
| IpIndex.ConsistentAppend | src/IpLookup/Storage/InMemory/IpIndex.cs:38-43 | appending a range past the last end, pointing at an existing or just-stored record, keeps ranges and records consistent |
| IpIndex.IpIndex.constructor | src/IpLookup/Storage/InMemory/IpIndex.cs:14-29 | a new index has no ranges, no records and no last address |
| IpIndex.IpIndex.InfoCount | src/IpLookup/Storage/InMemory/IpIndex.cs:24 | no records are stored exactly when no ranges are |
| IpIndex.IpIndex.RangeCount | src/IpLookup/Storage/InMemory/IpIndex.cs:27 | the number of stored ranges |
| IpIndex.IpIndex.ValidateAddRequest | src/IpLookup/Storage/InMemory/IpIndex.cs:63-76 | passes exactly when (last end, or 0) < start ≤ end; a start not above the last end fails with InvalidOperationException, checked first; an ArgumentException implies the ordering check passed |
| IpIndex.IpIndex.Add | src/IpLookup/Storage/InMemory/IpIndex.cs:32-44 | the outcome is the validation's; a failure changes nothing; a success appends exactly the range with its record, RangeCount grows by 1, InfoCount by 1 only for a new record, and the last address becomes end |
| IpIndex.IpIndex.TryGetValue | src/IpLookup/Storage/InMemory/IpIndex.cs:47-61 | hits exactly when a stored range covers the key, then returns that range's record as an IpInfo whose description is null (`None`) |
| IpIndex.ListAcceptsValidatedAdd | src/IpLookup/Storage/InMemory/IpIndex.cs:36-41 | once the index's check passes, the interval list's weaker check passes too |
| IpIndex.InfoCountIsDistinctRecords | src/IpLookup/Storage/InMemory/IpIndex.cs:24 | InfoCount is the number of distinct records among the stored ranges |
| Ipv4BogonIndex.NetworkInfo.IpUInt64 | src/IpLookup/Storage/InMemory/Ipv4BogonIndex.cs:91-92 | the key of the network address; for IPv4 below 2^32, so the later `(uint)` cast keeps it |
| Ipv4BogonIndex.NetworkInfo.SubnettedIpUInt64 | src/IpLookup/Storage/InMemory/Ipv4BogonIndex.cs:94-95 | for an IPv4 network address aligned to a prefix of 1..32 bits, the block's last key, at or after the network address |
| Ipv4BogonIndex.Entry | src/IpLookup/Storage/InMemory/Ipv4BogonIndex.cs:72-77 | the interval Populate adds for one network: from its key to its last key, with a description-only IpInfo |
| Ipv4BogonIndex.BogonIntervals | src/IpLookup/Storage/InMemory/Ipv4BogonIndex.cs:68-79 | the intervals Populate adds, one per table entry in table order |
| Ipv4BogonIndex.EntryKeys | src/IpLookup/Storage/InMemory/Ipv4BogonIndex.cs:91-95 | each table entry's key range, network address to SubnettedIp of it |
| Ipv4BogonIndex.BogonKeys | src/IpLookup/Storage/InMemory/Ipv4BogonIndex.cs:17-34 | the fourteen entries span 0x00000000-0x00FFFFFF, …, 0xF0000000-0xFFFFFFFF |
| Ipv4BogonIndex.EntryMask | src/IpLookup/Storage/InMemory/Ipv4BogonIndex.cs:20-33 | every prefix length in the table is between 1 and 32 |
| Ipv4BogonIndex.EntryChained | src/IpLookup/Storage/InMemory/Ipv4BogonIndex.cs:17-34 | each entry is well formed and ends before the next one starts |
| Ipv4BogonIndex.BogonIntervalsDisjoint | src/IpLookup/Storage/InMemory/Ipv4BogonIndex.cs:17-34 | the table is strictly chained, hence separated with increasing starts |
| Ipv4BogonIndex.BogonKeyIff | src/IpLookup/Storage/InMemory/Ipv4BogonIndex.cs:61-66 | a key is bogon exactly when it lies in one of the fourteen blocks |
| Ipv4BogonIndex.BlockIsBogon | src/IpLookup/Storage/InMemory/Ipv4BogonIndex.cs:61-66 | any key in block i finds block i's description |
| Ipv4BogonIndex.BogonHitIsDescriptionOnly | src/IpLookup/Storage/InMemory/Ipv4BogonIndex.cs:75 | every hit has a non-empty description, empty city, region and country, and zero coordinates |
| Ipv4BogonIndex.GapIsNotBogon | src/IpLookup/Storage/InMemory/Ipv4BogonIndex.cs:61-66 | a key strictly between two consecutive blocks is not bogon |
| Ipv4BogonIndex.AddressInBlock | src/IpLookup/Storage/InMemory/Ipv4BogonIndex.cs:61-66 | an IPv4 address whose number lies in a block is bogon |
| Ipv4BogonIndex.NetworkAddressesAreBogon | test/IpLookup.Tests/Ipv4BogonIndexTests.cs:21-51 | the network address of every table entry is bogon |
| Ipv4BogonIndex.ThisNetworkHostIsBogon | test/IpLookup.Tests/Ipv4BogonIndexTests.cs:23 | 0.0.0.1 is bogon |
| Ipv4BogonIndex.PrivateHostIsBogon | test/IpLookup.Tests/Ipv4BogonIndexTests.cs:25 | 10.0.1.0 is bogon |
| Ipv4BogonIndex.TopAddressesAreBogon | test/IpLookup.Tests/Ipv4BogonIndexTests.cs:38-39 | 255.255.255.254 and 255.255.255.255 are bogon |
| Ipv4BogonIndex.PublicAddressIsNotBogon | test/IpLookup.Tests/Ipv4BogonIndexTests.cs:53-64 | 8.8.8.8 is not bogon |
| Ipv4BogonIndex.Ipv6LoopbackFindsThisNetwork | src/IpLookup/Storage/InMemory/Ipv4BogonIndex.cs:61-66 | the IPv6 loopback ::1 gets key 0 and finds the "This" network block |
| Ipv4BogonIndex.Ipv4BogonIndex.RangeCount | src/IpLookup/Storage/InMemory/Ipv4BogonIndex.cs:43 | one range per table entry |
| Ipv4BogonIndex.Ipv4BogonIndex.constructor | src/IpLookup/Storage/InMemory/Ipv4BogonIndex.cs:43-48 | after the static constructor the list holds exactly the table, so RangeCount is 14 |
| Ipv4BogonIndex.Ipv4BogonIndex.Populate | src/IpLookup/Storage/InMemory/Ipv4BogonIndex.cs:68-79 | every entry is added in order, no add fails, and the list ends up holding exactly the table |
| Ipv4BogonIndex.Ipv4BogonIndex.TryGetValue | src/IpLookup/Storage/InMemory/Ipv4BogonIndex.cs:61-66 | the table's reference lookup at the address's key; a hit exactly when the key is bogon |
| IpLookupService.IpLookupService.constructor | src/IpLookup/Lookup/IpLookupService.cs:13-14 | the service wraps the given valid index |
| IpLookupService.IpLookupService.IsBogonIp | src/IpLookup/Lookup/IpLookupService.cs:46-50 | true exactly when the bogon table knows the address's key |
| IpLookupService.IpLookupService.Add | src/IpLookup/Lookup/IpLookupService.cs:17-27 | a bogon start gives success with the index unchanged; any other start gives the index's own outcome and effect, failures changing nothing; if no stored range started at a bogon address before, none does after |
| IpLookupService.IpLookupService.AddClassified | src/IpLookup/Lookup/IpLookupService.cs:19-26 | once the start is classified: a bogon start gives success with the index unchanged, any other range gets the index's outcome and effect, and every stored start stays non-bogon |
| IpLookupService.IpLookupService.Forward | src/IpLookup/Lookup/IpLookupService.cs:26 | a range with a non-bogon start gets the index's outcome and effect, and keeps every stored start non-bogon |
| IpLookupService.IpLookupService.TryGetValue | src/IpLookup/Lookup/IpLookupService.cs:30-39 | a covering range in the main index wins, even for a bogon address; otherwise the result is the bogon table's lookup; a miss exactly when neither knows the key |
| IpLookupService.ForwardedRangeKeepsNoBogonStarts | src/IpLookup/Lookup/IpLookupService.cs:19-26 | forwarding a range with a non-bogon start, accepted (appended) or refused (no change), keeps every stored start non-bogon |
| IpLookupService.OnlyTheStartIsChecked | src/IpLookup/Lookup/IpLookupService.cs:19 | 9.255.255.255 is not bogon while 10.0.0.5 is, so a range between them is forwarded, but a range starting at 10.0.0.5 is dropped |

## Left out

- `IPAddress.Parse`, `TryWriteBytes` and the string overload of `IpAddressToUInt64`: addresses are given as their 4 or 16 bytes. The `Debug.Assert`s on the byte count are implied by the `Address` type.
- Generic `TKey : IComparable`: both uses in the core are `ulong`, so keys are integers below 2^64.
- Float semantics of latitude and longitude: they are 32-bit patterns compared bit for bit. C#'s `float.Equals` treats +0 and -0 as equal and every NaN as equal. Record deduplication can therefore merge records that the model keeps apart.
- IpConverter.SubnettedIp: mask 0 is excluded by a precondition. There `Math.Pow` gives 2^32, and its conversion to `uint` is out of range and platform dependent. No caller passes 0.
- IpConverter.SubnettedIp: its contract covers masks 32 and above only. Masks 1 to 31 are stated by `SubnettedIpIsLastOfBlock` and `SubnettedIpWraps`.
- IpInfo.CityRegionCountryAsWritten: lengths above 65536 are excluded. The Debug-build assertion forbids them, and a Release build would keep only the low 16 bits.
- IpInfo.FromCityRegionCountry: lengths above 65536 are excluded, as for `CityRegionCountryAsWritten`, whose packing it uses.
- Strings: a Dafny `string` stands for the sequence of UTF-16 code units of a C# string, so its length is `string.Length`, the quantity that the `Debug.Assert`s and `(ushort)` casts in `IpInfo.cs` measure. Dafny's characters are Unicode scalar values, so this holds only for text inside the Basic Multilingual Plane. Text with code points above U+FFFF, which C# stores as two code units each, is not modelled: for such text the model's lengths are smaller than the source's.
- IpInfo.FromDescription: the argument is always a string; a null description passed to the C# constructor is not modelled, and the only caller passes literals from the bogon table.
- Integer widths of the counters: `Count` (`int`/`long`) and the `MemoryColumn` key counter (`int`, which would overflow after 2^31 distinct records) are unbounded.
- Capacity hints (`IpCountHint`, `DistinctInfoCountHint`, the bogon list's 20): they only size the backing lists and have no behaviour.
- IntervalList.IntervalList.FindIntervalIndex: when two intervals share a start (a zero-length interval followed by a touching one), `List.BinarySearch` may return either. The contract then promises only some covering interval, not which one.
- IntervalList.IntervalList.TryGetValue: for the same reason, with shared starts it returns the value of some covering interval, not a specific one.
- Logging: the warning `IpLookupService.Add` logs for a dropped bogon range is not modelled.
- The `IIpIndex` and `IIpLookupService` interfaces: the service holds the concrete `IpIndex`.
- Static state: the bogon table is a static class built by a static constructor. Here it is an object built once and passed to the service's operations. Thread-safety of the one-time initialisation and of concurrent readers is not modelled.
- Import, download, HTTP endpoints, configuration and the hosted import task are I/O around the core and are not part of this model.

## Findings

| source | as written | input that shows it | evidently intended | confidence | as-written member | corrected member |
|---|---|---|---|---|---|---|
| src/IpLookup/Lookup/IpInfo.cs:82-88 | `Debug.Assert(city.Length <= 256 * 256)`, then `CityLength = (ushort)city.Length` | a city of exactly 65536 characters: the assertion holds, the cast gives 0, and `City` returns "" while the city's text moves into `Region`/`Country` | lengths up to 65535, the largest a `ushort` holds, so that City, Region and Country return the constructor's arguments | not executed | IpInfo.AsWrittenLosesFullLengthCity | IpInfo.Pack |
