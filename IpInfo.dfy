/** The information returned for an address, and the packed city/region/country
    string it keeps (src/IpLookup/Lookup/IpInfo.cs). */
module IpInfo {
  import opened Common

  /** A C# `float` latitude or longitude, kept as its 32-bit pattern: the core
      only stores, compares and returns these values. */
  type Float32 = bv32

  /** City, region and country in one string, with the lengths of the first
      two; the country is the rest of the string. */
  datatype CityRegionCountry = CityRegionCountry(data: string, cityLength: UInt16, regionLength: UInt16) {
    /** The offsets of the accessors lie inside `data`. */
    predicate Valid() {
      cityLength + regionLength <= |data|
    }

    /** The city is the first `cityLength` characters of the buffer. */
    function City(): (city: string)
      requires Valid()
      ensures |city| == cityLength as int && city <= data
    {
      data[..cityLength]
    }

    /** The region follows the city in the buffer. */
    function Region(): (region: string)
      requires Valid()
      ensures |region| == regionLength as int && City() + region <= data
    {
      data[cityLength..cityLength + regionLength]
    }

    /** The country is the rest: the three fields together are the buffer. */
    function Country(): (country: string)
      requires Valid()
      ensures City() + Region() + country == data
    {
      data[cityLength + regionLength..]
    }
  }

  type PackedTriple = c: CityRegionCountry | c.Valid() witness CityRegionCountry("", 0, 0)

  /** The constructor as written: it asserts each length is at most 256 * 256
      and then casts the length to `ushort`, which keeps it modulo 2^16. Below
      the `ushort` range the accessors give the arguments back. */
  function CityRegionCountryAsWritten(city: string, region: string, country: string): (c: PackedTriple)
    requires |city| <= 256 * 256 && |region| <= 256 * 256
    ensures |city| < 0x1_0000 && |region| < 0x1_0000 ==>
              c.City() == city && c.Region() == region && c.Country() == country
  {
    var data := city + region + country;
    assert data[..|city|] == city;
    assert data[|city|..|city| + |region|] == region;
    assert data[|city| + |region|..] == country;
    CityRegionCountry(data, |city| % 0x1_0000, |region| % 0x1_0000)
  }

  /** A city of exactly 256 * 256 characters passes the assertion, but its
      length is stored as 0: the packed value forgets the city and reads it
      back as the start of the region. */
  lemma AsWrittenLosesFullLengthCity(city: string, region: string, country: string)
    requires |city| == 256 * 256 && |region| <= 256 * 256
    ensures var c := CityRegionCountryAsWritten(city, region, country);
            c.City() == "" && c.City() != city
  {
  }

  /** The constructor with the bound the format needs: city and region each
      fit in a `ushort` length. One string holds the three fields, and the
      accessors give back exactly the arguments. */
  function Pack(city: string, region: string, country: string): (c: PackedTriple)
    requires |city| < 0x1_0000 && |region| < 0x1_0000
    ensures |c.data| == |city| + |region| + |country|
    ensures c.City() == city && c.Region() == region && c.Country() == country
  {
    var data := city + region + country;
    assert data[..|city|] == city;
    assert data[|city|..|city| + |region|] == region;
    assert data[|city| + |region|..] == country;
    CityRegionCountry(data, |city|, |region|)
  }

  /** Packed values are equal exactly when their three fields are: the same
      concatenation split differently gives a different value. */
  lemma PackInjective(city1: string, region1: string, country1: string,
                      city2: string, region2: string, country2: string)
    requires |city1| < 0x1_0000 && |region1| < 0x1_0000
    requires |city2| < 0x1_0000 && |region2| < 0x1_0000
    ensures Pack(city1, region1, country1) == Pack(city2, region2, country2)
        <==> city1 == city2 && region1 == region2 && country1 == country2
  {
  }

  /** A packed value is determined by what its accessors return. */
  lemma PackedTripleDeterminedByFields(c1: PackedTriple, c2: PackedTriple)
    requires c1.City() == c2.City() && c1.Region() == c2.Region() && c1.Country() == c2.Country()
    ensures c1 == c2
  {
    assert c1.data == c1.City() + c1.Region() + c1.Country();
    assert c2.data == c2.City() + c2.Region() + c2.Country();
  }

  /** "ab" + "c" + "" and "a" + "bc" + "" share their buffer but not their value. */
  lemma DifferentSplitsDiffer()
    ensures Pack("ab", "c", "").data == Pack("a", "bc", "").data
    ensures Pack("ab", "c", "") != Pack("a", "bc", "")
  {
    assert Pack("ab", "c", "").City() == "ab";
  }

  /** What the lookup returns: either a city/region/country with coordinates,
      or (for reserved ranges) a description with empty fields. `None` is a
      null description: the constructors set it ("" by default), but an
      object initializer without a constructor starts from the default
      struct and leaves it null. */
  datatype IpInfo = IpInfo(description: Option<string>, cityRegionCountry: PackedTriple,
                           latitude: Float32, longitude: Float32) {
    /** The accessors read the packed triple; together they spell its buffer. */
    function City(): (city: string)
      ensures city <= cityRegionCountry.data
    {
      cityRegionCountry.City()
    }

    function Region(): (region: string)
      ensures City() + region <= cityRegionCountry.data
    {
      cityRegionCountry.Region()
    }

    function Country(): (country: string)
      ensures City() + Region() + country == cityRegionCountry.data
    {
      cityRegionCountry.Country()
    }
  }

  /** `IpInfo(city, region, country)`: no description, coordinates at their
      default 0 until an initializer sets them. It builds the packed triple
      with the constructor as written, so below the `ushort` range it is the
      corrected `Pack`, and a city of exactly 256 * 256 characters is lost. */
  function FromCityRegionCountry(city: string, region: string, country: string): (info: IpInfo)
    requires |city| <= 256 * 256 && |region| <= 256 * 256
    ensures info.description == Some("")
    ensures info.latitude == 0 && info.longitude == 0
    ensures |city| < 0x1_0000 && |region| < 0x1_0000 ==>
              && info.cityRegionCountry == Pack(city, region, country)
              && info.City() == city && info.Region() == region && info.Country() == country
    ensures |city| == 256 * 256 ==> info.City() == ""
  {
    IpInfo(Some(""), CityRegionCountryAsWritten(city, region, country), 0, 0)
  }

  /** `IpInfo(description)`: the description, and empty city, region and country. */
  function FromDescription(description: string): (info: IpInfo)
    ensures info.description == Some(description)
    ensures info.City() == "" && info.Region() == "" && info.Country() == ""
    ensures info.latitude == 0 && info.longitude == 0
  {
    IpInfo(Some(description), Pack("", "", ""), 0, 0)
  }
}
