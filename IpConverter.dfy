/** Conversion of network addresses to the integer keys used by every
    interval lookup, and the last address of an IPv4 block
    (src/IpLookup/Utilities/IpConverter.cs). */
module IpConverter {
  import opened Common

  /** A network address as the bytes `IPAddress.TryWriteBytes` produces:
      4 bytes for IPv4 (family InterNetwork), 16 bytes otherwise. */
  type Address = bytes: seq<Byte> | |bytes| == 4 || |bytes| == 16 witness [0, 0, 0, 0]

  predicate IsIpv4(address: Address) {
    |address| == 4
  }

  function Pow256(n: nat): (p: nat)
    ensures p >= 1
  {
    if n == 0 then 1 else 256 * Pow256(n - 1)
  }

  function Pow2(n: nat): (p: nat)
    ensures p >= 1
  {
    if n == 0 then 1 else 2 * Pow2(n - 1)
  }

  lemma MulLe(a: int, b: int, p: nat)
    requires a <= b
    ensures a * p <= b * p
  {
  }

  /** A smaller leading digit wins whatever the lower digits are. */
  lemma LessByLeadingDigit(x: nat, y: nat, rx: nat, ry: nat, p: nat)
    requires x < y && rx < p
    ensures x * p + rx < y * p + ry
  {
    MulLe(x + 1, y, p);
    assert (x + 1) * p == x * p + p;
  }

  /** The unsigned integer whose big-endian bytes are `bytes`. */
  function BigEndian(bytes: seq<Byte>): (n: nat)
    ensures n < Pow256(|bytes|)
  {
    if bytes == [] then 0
    else
      var p := Pow256(|bytes| - 1);
      var rest := BigEndian(bytes[1..]);
      MulLe(bytes[0], 255, p);
      bytes[0] * p + rest
  }

  lemma {:induction false} BigEndianOfZeros(bytes: seq<Byte>)
    requires forall i :: 0 <= i < |bytes| ==> bytes[i] == 0
    ensures BigEndian(bytes) == 0
  {
    if bytes != [] {
      BigEndianOfZeros(bytes[1..]);
    }
  }

  /** `BinaryPrimitives.ReadUInt32BigEndian`: the first four bytes. */
  function ReadUInt32BigEndian(bytes: seq<Byte>): (n: UInt32)
    requires |bytes| >= 4
    ensures n == BigEndian(bytes[..4])
  {
    BigEndian(bytes[..4])
  }

  /** `BinaryPrimitives.ReadUInt64BigEndian`: the first eight bytes. */
  function ReadUInt64BigEndian(bytes: seq<Byte>): (n: UInt64)
    requires |bytes| >= 8
    ensures n == BigEndian(bytes[..8])
  {
    assert Pow256(8) == 0x1_0000_0000_0000_0000;
    BigEndian(bytes[..8])
  }

  /** `IpAddressToUInt64`: an IPv4 address is read as a big-endian 32-bit
      integer, any other address as the big-endian 64-bit integer of its
      first eight bytes only. */
  function IpAddressToUInt64(address: Address): (key: UInt64)
    ensures IsIpv4(address) ==> key < 0x1_0000_0000
    ensures !IsIpv4(address) ==> key == BigEndian(address[..8])
  {
    if IsIpv4(address) then ReadUInt32BigEndian(address) else ReadUInt64BigEndian(address)
  }

  /** Lexicographic order of two byte strings of equal length. */
  predicate LexLess(a: seq<Byte>, b: seq<Byte>)
    requires |a| == |b|
  {
    |a| > 0 && (a[0] < b[0] || (a[0] == b[0] && LexLess(a[1..], b[1..])))
  }

  /** Big-endian reading preserves and reflects lexicographic byte order. */
  lemma {:induction false} BigEndianOrder(a: seq<Byte>, b: seq<Byte>)
    requires |a| == |b|
    ensures LexLess(a, b) <==> BigEndian(a) < BigEndian(b)
  {
    if |a| > 0 {
      var p := Pow256(|a| - 1);
      var ra, rb := BigEndian(a[1..]), BigEndian(b[1..]);
      assert BigEndian(a) == a[0] * p + ra;
      assert BigEndian(b) == b[0] * p + rb;
      if a[0] < b[0] {
        LessByLeadingDigit(a[0], b[0], ra, rb, p);
      } else if b[0] < a[0] {
        LessByLeadingDigit(b[0], a[0], rb, ra, p);
      } else {
        BigEndianOrder(a[1..], b[1..]);
      }
    }
  }

  /** Distinct byte strings of equal length have distinct big-endian values. */
  lemma {:induction false} BigEndianInjective(a: seq<Byte>, b: seq<Byte>)
    requires |a| == |b|
    ensures BigEndian(a) == BigEndian(b) <==> a == b
  {
    if |a| > 0 && BigEndian(a) == BigEndian(b) {
      BigEndianOrder(a, b);
      BigEndianOrder(b, a);
      if a[0] == b[0] {
        var p := Pow256(|a| - 1);
        assert BigEndian(a) == a[0] * p + BigEndian(a[1..]);
        assert BigEndian(b) == b[0] * p + BigEndian(b[1..]);
        BigEndianInjective(a[1..], b[1..]);
        assert a == [a[0]] + a[1..] && b == [b[0]] + b[1..];
      }
    }
  }

  /** The key of an IPv4 address b0.b1.b2.b3 is b0*2^24 + b1*2^16 + b2*2^8 + b3. */
  lemma Ipv4KeyFormula(address: Address)
    requires IsIpv4(address)
    ensures IpAddressToUInt64(address)
         == (address[0] as int) * 0x100_0000 + (address[1] as int) * 0x1_0000
            + (address[2] as int) * 0x100 + address[3]
  {
    var a := address;
    assert a[..4] == a;
    assert a[1..][1..][1..][1..] == [];
    assert BigEndian(a[1..][1..][1..]) == a[3];
    assert BigEndian(a[1..][1..]) == (a[2] as int) * 0x100 + a[3];
    assert BigEndian(a[1..]) == (a[1] as int) * 0x1_0000 + (a[2] as int) * 0x100 + a[3];
  }

  /** IPv4 keys are ordered like the addresses and identify them. */
  lemma Ipv4KeyOrderAndIdentity(a: Address, b: Address)
    requires IsIpv4(a) && IsIpv4(b)
    ensures LexLess(a, b) <==> IpAddressToUInt64(a) < IpAddressToUInt64(b)
    ensures IpAddressToUInt64(a) == IpAddressToUInt64(b) <==> a == b
  {
    assert a[..4] == a && b[..4] == b;
    BigEndianOrder(a, b);
    BigEndianInjective(a, b);
  }

  /** Two 16-byte addresses share a key exactly when their first eight bytes
      agree: the last eight bytes are discarded. */
  lemma Ipv6KeyIsPrefix(a: Address, b: Address)
    requires !IsIpv4(a) && !IsIpv4(b)
    ensures IpAddressToUInt64(a) == IpAddressToUInt64(b) <==> a[..8] == b[..8]
  {
    BigEndianInjective(a[..8], b[..8]);
  }

  /** 2001:db8::1 and 2001:db8::2 are different addresses with the same key. */
  lemma Ipv6KeysCollide()
    ensures var a: Address := [0x20, 0x01, 0x0d, 0xb8, 0, 0, 0, 0, 0, 0, 0, 0, 0, 0, 0, 1];
            var b: Address := [0x20, 0x01, 0x0d, 0xb8, 0, 0, 0, 0, 0, 0, 0, 0, 0, 0, 0, 2];
            a != b && IpAddressToUInt64(a) == IpAddressToUInt64(b)
  {
    var a: Address := [0x20, 0x01, 0x0d, 0xb8, 0, 0, 0, 0, 0, 0, 0, 0, 0, 0, 0, 1];
    var b: Address := [0x20, 0x01, 0x0d, 0xb8, 0, 0, 0, 0, 0, 0, 0, 0, 0, 0, 0, 2];
    assert a[15] != b[15];
    assert a[..8] == b[..8];
  }

  /** `SubnettedIp`: `ip + (uint)Math.Pow(2, 32 - subnetMask) - 1` in unchecked
      32-bit arithmetic. For a mask above 32 the power is a fraction that the
      cast truncates to 0. */
  function SubnettedIp(ip: UInt32, subnetMask: Byte): (r: UInt32)
    requires subnetMask != 0
    ensures subnetMask == 32 ==> r == ip
    ensures 32 < subnetMask ==> r == (if ip == 0 then 0xFFFF_FFFF else ip - 1)
  {
    var hostCount := if subnetMask <= 32 then Pow2(32 - subnetMask) else 0;
    (ip + hostCount - 1) % 0x1_0000_0000
  }

  lemma {:induction false} Pow2Add(m: nat, n: nat)
    ensures Pow2(m + n) == Pow2(m) * Pow2(n)
  {
    if m > 0 {
      Pow2Add(m - 1, n);
      assert Pow2(m + n) == 2 * Pow2(m - 1 + n);
    }
  }

  lemma Pow2Of32()
    ensures Pow2(32) == 0x1_0000_0000
  {
    assert Pow2(8) == 0x100;
    Pow2Add(8, 8);
    Pow2Add(16, 16);
  }

  lemma DivModUnique(x: int, h: int, q: int, rem: int)
    requires h > 0 && 0 <= rem < h && x == q * h + rem
    ensures x / h == q && x % h == rem
  {
    var q', rem' := x / h, x % h;
    assert x == q' * h + rem';
    if q' < q {
      MulLe(q' + 1, q, h);
    } else if q < q' {
      MulLe(q + 1, q', h);
    }
  }

  /** Adding one block less one to a multiple of the block size stays in
      the block, below any bound that is a multiple of the block size. */
  lemma LastOfBlock(ip: nat, h: nat, blocks: nat)
    requires h > 0 && ip % h == 0 && ip < blocks * h
    ensures ip + h <= blocks * h
    ensures (ip + h - 1) / h == ip / h && (ip + h - 1) % h == h - 1
  {
    var q := ip / h;
    assert ip == q * h;
    if blocks < q + 1 {
      MulLe(blocks, q, h);
      assert false;
    }
    MulLe(q + 1, blocks, h);
    assert (q + 1) * h == q * h + h;
    DivModUnique(ip + h - 1, h, q, h - 1);
  }

  /** For a network address of a /m block (its low 32-m bits are zero),
      `SubnettedIp` sets exactly those bits: the result is the last address
      of the block, it does not wrap, and it stays in the same block. */
  lemma SubnettedIpIsLastOfBlock(ip: UInt32, subnetMask: Byte)
    requires 1 <= subnetMask <= 32
    requires ip % Pow2(32 - subnetMask) == 0
    ensures var h := Pow2(32 - subnetMask);
            var r := SubnettedIp(ip, subnetMask);
            r == ip + h - 1 && ip <= r && r / h == ip / h && r % h == h - 1
  {
    var h := Pow2(32 - subnetMask);
    var blocks := Pow2(subnetMask);
    Pow2Add(subnetMask, 32 - subnetMask);
    Pow2Of32();
    assert blocks * h == 0x1_0000_0000;
    LastOfBlock(ip, h, blocks);
    var sum := ip + h - 1;
    assert 0 <= sum < 0x1_0000_0000;
    assert sum % 0x1_0000_0000 == sum;
  }

  /** For masks 1..32 the sum is taken modulo 2^32: it is `ip + 2^(32-m) - 1`
      when that fits in 32 bits and wraps around otherwise (an unaligned
      `ip` near the top of the space). */
  lemma SubnettedIpWraps(ip: UInt32, subnetMask: Byte)
    requires 1 <= subnetMask <= 32
    ensures var sum := ip + Pow2(32 - subnetMask) - 1;
            var r := SubnettedIp(ip, subnetMask);
            && (sum < 0x1_0000_0000 ==> r == sum)
            && (sum >= 0x1_0000_0000 ==> r == sum - 0x1_0000_0000 && r < ip)
  {
    var h := Pow2(32 - subnetMask);
    Pow2Add(subnetMask, 32 - subnetMask);
    Pow2Of32();
    MulLe(1, Pow2(subnetMask), h);
  }
}
