/**
 * `IPv4Interface` and its subnet enumeration `addressesOnSubnet(ignoringMine:)`:
 * every address from `mask & ip` up to, but not including, `mask & ip + ~mask`,
 * keeping the valid ones and, on request, dropping the interface's own address.
 */
module Interface {

  import opened Bits
  import opened Wrappers
  import opened Address
  import opened Collections

  /** A network interface of the machine: its address, its netmask and its BSD name. */
  datatype IPv4Interface = IPv4Interface(address: IPv4Address, netmask: IPv4Address, name: string)

  /** The order in which subnet addresses are listed: their decimal representation. */
  function Key(a: IPv4Address): int
  {
    DecimalRepresentation(a) as int
  }

  /** `firstIP = decimalMask & decimalIP`. */
  function FirstIP(i: IPv4Interface): UInt32
  {
    And(DecimalRepresentation(i.netmask), DecimalRepresentation(i.address))
  }

  /** `count = ~decimalMask`. */
  function Count(i: IPv4Interface): UInt32
  {
    Not(DecimalRepresentation(i.netmask))
  }

  /**
   * `(0..<count).map { IPv4Address(decimal: $0 + firstIP) }`, the sequence that
   * `compactMap` then compacts. The conversion to UInt32 is Swift's trapping `+`.
   */
  function Generated(i: IPv4Interface): seq<Option<IPv4Address>>
  {
    var first, count := FirstIP(i) as int, Count(i) as int;
    seq(count, k requires 0 <= k < count => FromDecimal((k + first) as UInt32))
  }

  /** The test of the `ignoringMine` re-filter: a decimal different from the interface's own. */
  function NotMine(i: IPv4Interface): IPv4Address -> bool
  {
    a => DecimalRepresentation(a) != DecimalRepresentation(i.address)
  }

  /** `addressesOnSubnet(ignoringMine:)`. */
  function AddressesOnSubnet(i: IPv4Interface, ignoringMine: bool): (r: seq<IPv4Address>)
    ensures |r| <= Count(i) as int
    ensures DecimalRepresentation(i.netmask) == UINT32_MAX as UInt32 ==> r == []
  {
    var ips := Filter(Compact(Generated(i)), IsValid);
    if ignoringMine then Filter(ips, NotMine(i)) else ips
  }

  // ---------------------------------------------------------------------------
  // Properties

  /**
   * No offset overflows: `first + count` fits in a UInt32, and every offset k
   * produces an address, the one whose decimal is `first + k`.
   */
  lemma GeneratedDecimals(i: IPv4Interface)
    ensures FirstIP(i) as int + Count(i) as int <= UINT32_MAX
    ensures forall k :: 0 <= k < |Generated(i)| ==>
      Generated(i)[k].Some? && Key(Generated(i)[k].value) == FirstIP(i) as int + k
  {
    var g := Generated(i);
    forall k | 0 <= k < |g|
      ensures g[k].Some? && Key(g[k].value) == FirstIP(i) as int + k
    {
      FromDecimalRoundTrip((k + FirstIP(i) as int) as UInt32);
    }
  }

  /** An address is generated exactly when its decimal lies in the half-open range [first, first + count). */
  lemma InGenerated(i: IPv4Interface, x: IPv4Address)
    ensures Some(x) in Generated(i) <==> FirstIP(i) as int <= Key(x) < FirstIP(i) as int + Count(i) as int
  {
    var g := Generated(i);
    var first := FirstIP(i) as int;
    GeneratedDecimals(i);
    if Some(x) in g {
      var k :| 0 <= k < |g| && g[k] == Some(x);
    }
    if first <= Key(x) < first + Count(i) as int {
      var k := Key(x) - first;
      DecimalInjective(g[k].value, x);
      assert g[k] == Some(x);
    }
  }

  /**
   * Subnet membership: the result holds exactly the valid addresses whose decimal
   * lies in [first, first + count), without the interface's own address when
   * ignoringMine is set. In particular the value first + count is never listed.
   */
  lemma SubnetMembers(i: IPv4Interface, ignoringMine: bool, x: IPv4Address)
    ensures x in AddressesOnSubnet(i, ignoringMine) <==>
      && IsValid(x)
      && FirstIP(i) as int <= Key(x) < FirstIP(i) as int + Count(i) as int
      && (ignoringMine ==> x != i.address)
  {
    InGenerated(i, x);
    if Key(x) == Key(i.address) {
      DecimalInjective(x, i.address);
    }
  }

  /** Every listed address has a last octet between 1 and 254, and none is the value first + count. */
  lemma SubnetLowOctets(i: IPv4Interface, ignoringMine: bool)
    ensures forall x :: x in AddressesOnSubnet(i, ignoringMine) ==>
      0 < x.rawValue[3] < 255 && Key(x) != FirstIP(i) as int + Count(i) as int
  {
    forall x | x in AddressesOnSubnet(i, ignoringMine)
      ensures 0 < x.rawValue[3] < 255 && Key(x) != FirstIP(i) as int + Count(i) as int
    {
      SubnetMembers(i, ignoringMine, x);
      IsValidIffLastOctet(x);
    }
  }

  /** The result is strictly ascending by decimal, hence free of duplicates. */
  lemma SubnetAscending(i: IPv4Interface, ignoringMine: bool)
    ensures StrictlyAscending(AddressesOnSubnet(i, ignoringMine), Key)
  {
    var g := Generated(i);
    GeneratedDecimals(i);
    CompactAllSome(g);
    var c := Compact(g);
    assert StrictlyAscending(c, Key) by {
      forall j, k | 0 <= j < k < |c| ensures Key(c[j]) < Key(c[k]) {
        assert c[j] == g[j].value && c[k] == g[k].value;
      }
    }
    FilterKeepsOrder(c, IsValid, Key);
    FilterKeepsOrder(Filter(c, IsValid), NotMine(i), Key);
  }

  /**
   * `ignoringMine: true` lists what `ignoringMine: false` lists, minus the
   * interface's own address where it occurs, all else kept in order.
   */
  lemma SubnetIgnoringMine(i: IPv4Interface)
    ensures i.address !in AddressesOnSubnet(i, false) ==>
      AddressesOnSubnet(i, true) == AddressesOnSubnet(i, false)
    ensures forall k :: 0 <= k < |AddressesOnSubnet(i, false)| && AddressesOnSubnet(i, false)[k] == i.address ==>
      AddressesOnSubnet(i, true) == AddressesOnSubnet(i, false)[..k] + AddressesOnSubnet(i, false)[k + 1..]
  {
    var all := AddressesOnSubnet(i, false);
    assert AddressesOnSubnet(i, true) == Filter(all, NotMine(i));
    if i.address !in all {
      forall k | 0 <= k < |all| ensures NotMine(i)(all[k]) {
        if Key(all[k]) == Key(i.address) {
          DecimalInjective(all[k], i.address);
        }
      }
      FilterKeepsAll(all, NotMine(i));
    }
    forall k | 0 <= k < |all| && all[k] == i.address
      ensures Filter(all, NotMine(i)) == all[..k] + all[k + 1..]
    {
      SubnetAscending(i, false);
      assert forall j :: 0 <= j < |all| && j != k ==> Key(all[j]) != Key(all[k]);
      FilterDropsOne(all, NotMine(i), k);
    }
  }

  /**
   * For a contiguous prefix mask of p bits, a listed address is a valid address
   * of the interface's own network (`x & mask == address & mask`) other than the
   * broadcast address, and every such address is listed.
   */
  lemma SubnetOfPrefix(i: IPv4Interface, p: nat, ignoringMine: bool, x: IPv4Address)
    requires p <= 32 && DecimalRepresentation(i.netmask) == PrefixMask(p)
    ensures x in AddressesOnSubnet(i, ignoringMine) <==>
      && IsValid(x)
      && And(PrefixMask(p), DecimalRepresentation(x)) == And(PrefixMask(p), DecimalRepresentation(i.address))
      && Key(x) != FirstIP(i) as int + Count(i) as int
      && (ignoringMine ==> x != i.address)
  {
    SubnetMembers(i, ignoringMine, x);
    PrefixMaskRange(DecimalRepresentation(i.address), DecimalRepresentation(x), p);
  }

  // ---------------------------------------------------------------------------
  // A worked example

  /** The interface 192.168.1.10 with netmask 255.255.255.0. */
  function HomeInterface(): IPv4Interface
  {
    IPv4Interface(Dotted(192, 168, 1, 10), Dotted(255, 255, 255, 0), "en0")
  }

  /** The last octets 1 .. 254 without 10, in order. */
  function HomeOctet(k: int): Byte
    requires 0 <= k < 253
  {
    (if k < 9 then k + 1 else k + 2) as Byte
  }

  /** For 192.168.1.10/24 the network starts at 192.168.1.0 and spans 255 values. */
  lemma HomeRange()
    ensures FirstIP(HomeInterface()) as int == 3232235776
    ensures Count(HomeInterface()) as int == 255
  {
    var i := HomeInterface();
    assert DecimalRepresentation(i.address) as int == 3232235786;
    assert DecimalRepresentation(i.netmask) as int == 4294967040;
    Pow2Of32();
    assert Pow2(8) == 256;
    AndPrefixMask(DecimalRepresentation(i.address), 24, 12625921, 10);
  }

  /** The addresses 192.168.1.1 through 192.168.1.254 except .10, in order. */
  function HomeExpected(): seq<IPv4Address>
  {
    seq(253, k requires 0 <= k < 253 => Dotted(192, 168, 1, HomeOctet(k)))
  }

  /** 192.168.1.10/24, ignoring its own address, lists 192.168.1.1 through 192.168.1.254 except .10. */
  lemma HomeSubnet()
    ensures AddressesOnSubnet(HomeInterface(), true) == HomeExpected()
  {
    var r := AddressesOnSubnet(HomeInterface(), true);
    HomeSameAddresses();
    HomeExpectedAscending();
    SubnetAscending(HomeInterface(), true);
    AscendingUnique(r, HomeExpected(), Key);
  }

  /** The listed and the expected addresses are the same set. */
  lemma HomeSameAddresses()
    ensures forall x :: x in AddressesOnSubnet(HomeInterface(), true) <==> x in HomeExpected()
  {
    forall x ensures x in AddressesOnSubnet(HomeInterface(), true) <==> x in HomeExpected() {
      if x in AddressesOnSubnet(HomeInterface(), true) {
        HomeListed(x);
      }
      if x in HomeExpected() {
        HomeExpectedListed(x);
      }
    }
  }

  /** The expected addresses ascend. */
  lemma HomeExpectedAscending()
    ensures StrictlyAscending(HomeExpected(), Key)
  {
    HomeKeys();
  }

  /** The decimal of the k-th expected address. */
  lemma HomeKeys()
    ensures forall k :: 0 <= k < 253 ==> Key(HomeExpected()[k]) == 3232235776 + HomeOctet(k) as int
  {
  }

  /** Every expected address is listed. */
  lemma HomeExpectedListed(x: IPv4Address)
    requires x in HomeExpected()
    ensures x in AddressesOnSubnet(HomeInterface(), true)
  {
    var i := HomeInterface();
    HomeRange();
    HomeKeys();
    SubnetMembers(i, true, x);
    IsValidIffLastOctet(x);
    var k :| 0 <= k < 253 && HomeExpected()[k] == x;
    assert x.rawValue[3] != i.address.rawValue[3];
  }

  /** Every listed address is expected. */
  lemma HomeListed(x: IPv4Address)
    requires x in AddressesOnSubnet(HomeInterface(), true)
    ensures x in HomeExpected()
  {
    var i := HomeInterface();
    HomeRange();
    SubnetMembers(i, true, x);
    IsValidIffLastOctet(x);
    var o := Key(x) - 3232235776;
    HomeLowOctet(x);
    var k := if o < 10 then o - 1 else o - 2;
    HomeKeys();
    DecimalInjective(x, HomeExpected()[k]);
  }

  /** On 192.168.1.0/24 the last octet is the offset from the network address. */
  lemma HomeLowOctet(x: IPv4Address)
    requires 3232235776 <= Key(x) < 3232235776 + 256
    ensures x.rawValue[3] as int == Key(x) - 3232235776
  {
    LowByteIsLastOctet(x);
    AndLowByte(DecimalRepresentation(x));
    OffsetInHomeNetwork(Key(x));
  }

  lemma OffsetInHomeNetwork(d: int)
    requires 3232235776 <= d < 3232235776 + 256
    ensures d % 256 == d - 3232235776
  {
    DivModUnique(d, 256, 12625921, d - 3232235776);
  }
}
