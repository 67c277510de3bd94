/** Conversions between `Status` and the unsigned integer widths that carry
    it on the wire: a cast of the discriminant in one direction, a lookup
    with the ConvertIntError fallback in the other, for u16, u32, u64 and
    u128 alike. */
module StatusConversions {
  import opened StatusCode

  newtype u16 = x: int | 0 <= x < 0x1_0000
  newtype u32 = x: int | 0 <= x < 0x1_0000_0000
  newtype u64 = x: int | 0 <= x < 0x1_0000_0000_0000_0000
  newtype u128 = x: int | 0 <= x < 0x1_0000_0000_0000_0000_0000_0000_0000_0000

  /** An `as` cast of a non-negative integer to an unsigned type with
      `modulus` values keeps the low bits, that is, reduces modulo `modulus`. */
  function Truncate(d: nat, modulus: nat): (r: nat)
    requires modulus > 0
    ensures r < modulus
    ensures d < modulus ==> r == d
  {
    d % modulus
  }

  /** `u16::from(s)`: the discriminant cast to u16, which loses nothing and
      decodes back to `s`. */
  function ToU16(s: Status): (r: u16)
    ensures r as int == Discriminant(s)
    ensures FromU16(r) == s
  {
    RoundTrip(s);
    Truncate(Discriminant(s), 0x1_0000) as u16
  }

  /** `u32::from(s)`: the discriminant cast to u32. */
  function ToU32(s: Status): (r: u32)
    ensures r as int == Discriminant(s)
    ensures FromU32(r) == s
  {
    RoundTrip(s);
    Truncate(Discriminant(s), 0x1_0000_0000) as u32
  }

  /** `u64::from(s)`: the discriminant cast to u64. */
  function ToU64(s: Status): (r: u64)
    ensures r as int == Discriminant(s)
    ensures FromU64(r) == s
  {
    RoundTrip(s);
    Truncate(Discriminant(s), 0x1_0000_0000_0000_0000) as u64
  }

  /** `u128::from(s)`: the discriminant cast to u128. */
  function ToU128(s: Status): (r: u128)
    ensures r as int == Discriminant(s)
    ensures FromU128(r) == s
  {
    RoundTrip(s);
    Truncate(Discriminant(s), 0x1_0000_0000_0000_0000_0000_0000_0000_0000) as u128
  }

  /** `Status::from(v)` for a u16: the variant whose discriminant is `v`, or
      ConvertIntError when there is none. */
  function FromU16(v: u16): (r: Status)
    ensures IsDiscriminant(v as int) ==> Discriminant(r) == v as int
    ensures !IsDiscriminant(v as int) ==> r == ConvertIntError
  {
    DecodeSpec(v as int);
    Decode(v as int)
  }

  /** `Status::from(v)` for a u32. */
  function FromU32(v: u32): (r: Status)
    ensures IsDiscriminant(v as int) ==> Discriminant(r) == v as int
    ensures !IsDiscriminant(v as int) ==> r == ConvertIntError
  {
    DecodeSpec(v as int);
    Decode(v as int)
  }

  /** `Status::from(v)` for a u64. */
  function FromU64(v: u64): (r: Status)
    ensures IsDiscriminant(v as int) ==> Discriminant(r) == v as int
    ensures !IsDiscriminant(v as int) ==> r == ConvertIntError
  {
    DecodeSpec(v as int);
    Decode(v as int)
  }

  /** `Status::from(v)` for a u128. */
  function FromU128(v: u128): (r: Status)
    ensures IsDiscriminant(v as int) ==> Discriminant(r) == v as int
    ensures !IsDiscriminant(v as int) ==> r == ConvertIntError
  {
    DecodeSpec(v as int);
    Decode(v as int)
  }

  /** Every variant, converted to any width and back, is itself. */
  lemma RoundTripAllWidths(s: Status)
    ensures FromU16(ToU16(s)) == s
    ensures FromU32(ToU32(s)) == s
    ensures FromU64(ToU64(s)) == s
    ensures FromU128(ToU128(s)) == s
  {
  }

  /** Encoding gives the same number at every width. */
  lemma EncodeWidthIndependent(s: Status)
    ensures ToU16(s) as int == ToU32(s) as int == ToU64(s) as int == ToU128(s) as int
  {
  }

  /** A number decodes to the same variant whichever width carries it:
      the u16, u32 and u64 forms of a u128 that fits them decode as it does. */
  lemma DecodeWidthIndependent(v: u128)
    ensures v < 0x1_0000_0000_0000_0000 ==> FromU64(v as u64) == FromU128(v)
    ensures v < 0x1_0000_0000 ==> FromU32(v as u32) == FromU128(v)
    ensures v < 0x1_0000 ==> FromU16(v as u16) == FromU128(v)
  {
  }

  /** Encoding is one-to-one at every width. */
  lemma EncodeInjective(a: Status, b: Status)
    ensures ToU16(a) == ToU16(b) ==> a == b
    ensures ToU32(a) == ToU32(b) ==> a == b
    ensures ToU64(a) == ToU64(b) ==> a == b
    ensures ToU128(a) == ToU128(b) ==> a == b
  {
  }

  /** Every variant is the decoding of some u16 (and so of some integer of
      every wider width): decoding is onto. */
  lemma FromU16Surjective(s: Status)
    ensures exists v: u16 :: FromU16(v) == s
  {
    assert FromU16(ToU16(s)) == s;
  }

  /** Any number outside 0, 1, 100..117 and 200 decodes to ConvertIntError,
      at every width. */
  lemma FallbackAllWidths(v: u128)
    requires v != 0 && v != 1 && v != CONSENSUS_BASE as u128
    requires !(CONTROLLER_BASE as u128 <= v <= CONTROLLER_BASE as u128 + 17)
    ensures FromU128(v) == ConvertIntError
    ensures v < 0x1_0000_0000_0000_0000 ==> FromU64(v as u64) == ConvertIntError
    ensures v < 0x1_0000_0000 ==> FromU32(v as u32) == ConvertIntError
    ensures v < 0x1_0000 ==> FromU16(v as u16) == ConvertIntError
  {
  }

  /** The numbers the crate's unit test uses: BannedNode is 101 as a
      u32, 102 as a u64 is NoProvideAddress, 65535 as a u16 is
      ConvertIntError. */
  lemma KnownValues()
    ensures ToU32(BannedNode) == 101
    ensures FromU64(102) == NoProvideAddress
    ensures FromU16(65535) == ConvertIntError
  {
  }
}
