/**
 * The `IPv4Address` extension of Disco: the big-endian `UInt32` view of the
 * four raw address bytes (`decimalRepresentation`), the failable initialiser
 * from such a value (`init?(decimal:)`) and the `isValid` test on the low octet.
 */
module Address {

  import opened Bits
  import opened Wrappers

  /** The raw value of an IPv4 address: exactly four bytes, in network order. */
  type RawValue = s: seq<Byte> | |s| == 4 witness [0, 0, 0, 0]

  datatype IPv4Address = IPv4Address(rawValue: RawValue)

  /** The dotted-quad address b0.b1.b2.b3. */
  function Dotted(b0: Byte, b1: Byte, b2: Byte, b3: Byte): IPv4Address
  {
    IPv4Address([b0, b1, b2, b3])
  }

  /**
   * The Network framework's `IPv4Address(_ rawValue: Data)`, which yields an
   * address exactly when it is given four bytes.
   */
  function FromRawValue(data: seq<Byte>): (r: Option<IPv4Address>)
    ensures r.Some? <==> |data| == 4
    ensures r.Some? ==> r.value.rawValue == data
  {
    if |data| == 4 then Some(IPv4Address(data)) else None
  }

  /** `decimalRepresentation`: the four raw bytes read as a big-endian `UInt32`. */
  function DecimalRepresentation(a: IPv4Address): UInt32
  {
    var b := a.rawValue;
    (b[0] as int * 0x100_0000 + b[1] as int * 0x1_0000 + b[2] as int * 0x100 + b[3] as int) as UInt32
  }

  /** The memory image of `decimal.bigEndian`: the four bytes of d, most significant first. */
  function BigEndianBytes(d: UInt32): seq<Byte>
  {
    var x := d as int;
    [(x / 0x100_0000) as Byte, (x / 0x1_0000 % 0x100) as Byte, (x / 0x100 % 0x100) as Byte, (x % 0x100) as Byte]
  }

  /** `init?(decimal:)`: the address whose raw value is the big-endian image of d. */
  function FromDecimal(d: UInt32): Option<IPv4Address>
  {
    FromRawValue(BigEndianBytes(d))
  }

  /** `isValid`: the low octet is neither 0 (network) nor 255 (broadcast). */
  predicate IsValid(a: IPv4Address)
  {
    var low := And(DecimalRepresentation(a), 0xFF);
    low > 0 && low < 255
  }

  // ---------------------------------------------------------------------------
  // Properties

  /** Every UInt32 becomes an address, and reading that address back gives the same UInt32. */
  lemma FromDecimalRoundTrip(d: UInt32)
    ensures FromDecimal(d).Some?
    ensures DecimalRepresentation(FromDecimal(d).value) == d
  {
    var x := d as int;
    var q0, q1, q2 := x / 0x100, x / 0x1_0000, x / 0x100_0000;
    assert x == q0 * 0x100 + x % 0x100;
    assert q0 == q1 * 0x100 + q0 % 0x100 by {
      DivModUnique(x, 0x1_0000, q0 / 0x100, (q0 % 0x100) * 0x100 + x % 0x100);
    }
    assert q1 == q2 * 0x100 + q1 % 0x100 by {
      DivModUnique(x, 0x100_0000, q1 / 0x100, (q1 % 0x100) * 0x1_0000 + (q0 % 0x100) * 0x100 + x % 0x100);
    }
  }

  /** Going from an address to its UInt32 and back gives the same four bytes. */
  lemma DecimalRoundTrip(a: IPv4Address)
    ensures FromDecimal(DecimalRepresentation(a)) == Some(a)
  {
    var b := a.rawValue;
    var x := DecimalRepresentation(a) as int;
    DivModUnique(x, 0x100_0000, b[0] as int, b[1] as int * 0x1_0000 + b[2] as int * 0x100 + b[3] as int);
    DivModUnique(x, 0x1_0000, b[0] as int * 0x100 + b[1] as int, b[2] as int * 0x100 + b[3] as int);
    DivModUnique(x, 0x100, b[0] as int * 0x1_0000 + b[1] as int * 0x100 + b[2] as int, b[3] as int);
    DivModUnique(b[0] as int * 0x100 + b[1] as int, 0x100, b[0] as int, b[1] as int);
    DivModUnique(b[0] as int * 0x1_0000 + b[1] as int * 0x100 + b[2] as int, 0x100,
                 b[0] as int * 0x100 + b[1] as int, b[2] as int);
    assert BigEndianBytes(DecimalRepresentation(a)) == b;
  }

  /** Two addresses with the same UInt32 are the same address. */
  lemma DecimalInjective(a: IPv4Address, b: IPv4Address)
    requires DecimalRepresentation(a) == DecimalRepresentation(b)
    ensures a == b
  {
    DecimalRoundTrip(a);
    DecimalRoundTrip(b);
  }

  /** The low byte of the UInt32 is the last dotted octet. */
  lemma LowByteIsLastOctet(a: IPv4Address)
    ensures And(DecimalRepresentation(a), 0xFF) as int == a.rawValue[3] as int
  {
    var b := a.rawValue;
    AndLowByte(DecimalRepresentation(a));
    DivModUnique(DecimalRepresentation(a) as int, 0x100,
                 b[0] as int * 0x1_0000 + b[1] as int * 0x100 + b[2] as int, b[3] as int);
  }

  /** An address is valid exactly when its last dotted octet lies strictly between 0 and 255. */
  lemma IsValidIffLastOctet(a: IPv4Address)
    ensures IsValid(a) <==> 0 < a.rawValue[3] < 255
  {
    LowByteIsLastOctet(a);
  }

  /** Validity depends on the last octet alone: x.y.z.0 and x.y.z.255 are invalid whatever x, y, z are. */
  lemma IsValidOnlyLastOctet(a: IPv4Address, b: IPv4Address)
    requires a.rawValue[3] == b.rawValue[3]
    ensures IsValid(a) == IsValid(b)
    ensures a.rawValue[3] == 0 || a.rawValue[3] == 255 ==> !IsValid(a)
  {
    IsValidIffLastOctet(a);
    IsValidIffLastOctet(b);
  }
}
