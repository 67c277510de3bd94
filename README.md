# status_code in Dafny

A model of the `Status` response-status type of the cita-cloud
`status_code` crate. `Status` is a closed enumeration of 21 variants. Each
variant has a fixed numeric discriminant. The discriminants fall into
bands: generic outcomes from 0, controller errors from 100, consensus
errors from 200. A status crosses the wire as a bare unsigned integer of
16, 32, 64 or 128 bits. Encoding casts the discriminant. Decoding looks
the integer up among the discriminants and falls back to
`ConvertIntError` when nothing matches, so it never fails. Display prints
the variant's identifier.

- `status.dfy`, module `StatusCode`: the `Status` datatype, its
  discriminants (`Discriminant`), the declaration-order table `Variants`,
  the first-match lookup `Find` that the derived `FromPrimitive` performs,
  the width-free decoder `Decode`, the rendering `Display`, and the
  lemmas about them.
- `conversions.dfy`, module `StatusConversions`: the `u16`, `u32`, `u64`
  and `u128` newtypes, the four `From<Status>` casts (`ToU16` … `ToU128`)
  and the four `From<uN> for Status` decoders (`FromU16` … `FromU128`),
  with round-trip, width-independence, fallback and injectivity lemmas.

The declaration itself is kept as data. `Variants` lists the 21 variants
in the order src/lib.rs:19-66 declares them. `ExplicitlyNumbered` picks out
the three that carry an explicit `= value`: `Success` (src/lib.rs:21),
`MisbehaveNode` (src/lib.rs:27) and `ProposlProofError` (src/lib.rs:65).
`NumberingRule` and `ControllerBand` state the numbering over these two.

The Rust `as` cast to an unsigned type keeps the low bits. `Truncate`
models it explicitly. The cast functions then prove that it never loses
anything: every discriminant is at most 200.

## Model

| member | source | states |
|---|---|---|
| `StatusCode.Discriminant` | src/lib.rs:19-66 | every discriminant is at most 200; 0 is Success's alone, 1 is ConvertIntError's alone, 200 is ProposlProofError's alone |
| `StatusCode.NumberingRule` | src/lib.rs:19-66 | Success is 0, MisbehaveNode is 100, ProposlProofError is 200, and every variant without an explicit value is its predecessor's discriminant plus one |
| `StatusCode.ControllerBand` | src/lib.rs:25-61 | the 18 controller variants, in declaration order, carry exactly 100..117 |
| `StatusCode.VariantsComplete` | src/lib.rs:19-66 | the declaration-order table holds every variant, 21 entries |
| `StatusCode.AdjacentAscendingIsAscending` | src/lib.rs:19-66 | a table whose neighbours increase increases between any two entries |
| `StatusCode.VariantsAscending` | src/lib.rs:19-66 | discriminants strictly increase in declaration order |
| `StatusCode.DiscriminantInjective` | src/lib.rs:19-66 | distinct variants have distinct discriminants |
| `StatusCode.DiscriminantValues` | src/lib.rs:19-66 | an integer is some variant's discriminant iff it is 0, 1, one of 100..117, or 200 |
| `StatusCode.Find` | src/lib.rs:95 | the lookup returns the first entry of the table carrying the sought value, or nothing when no entry carries it |
| `StatusCode.FindOwnDiscriminant` | src/lib.rs:95 | in any table of variants, looking up an entry's discriminant finds that entry |
| `StatusCode.Decode` | src/lib.rs:94-97 | the decoded variant carries the input value, or is ConvertIntError |
| `StatusCode.RoundTrip` | src/lib.rs:76-105 | decoding a variant's discriminant gives back that variant |
| `StatusCode.DecodeSpec` | src/lib.rs:94-97 | a known discriminant decodes to the variant that carries it; any other integer decodes to ConvertIntError |
| `StatusCode.Fallback` | src/lib.rs:94-97 | every integer other than 0, 1, 100..117 and 200 decodes to ConvertIntError |
| `StatusCode.DecodeSurjective` | src/lib.rs:95-96 | every variant is the decoding of some integer of at most 200 |
| `StatusCode.Display` | src/lib.rs:68-72 | the rendering is a non-empty identifier starting with an upper-case letter |
| `StatusCode.DisplayInjective` | src/lib.rs:68-72 | different variants render as different strings |
| `StatusConversions.Truncate` | src/lib.rs:80 | a cast yields a value below the target's modulus, and the value itself when it fits |
| `StatusConversions.ToU16` | src/lib.rs:76-86 | the u16 cast keeps the exact discriminant and decodes back to the variant |
| `StatusConversions.ToU32` | src/lib.rs:76-87 | the u32 cast keeps the exact discriminant and decodes back to the variant |
| `StatusConversions.ToU64` | src/lib.rs:76-88 | the u64 cast keeps the exact discriminant and decodes back to the variant |
| `StatusConversions.ToU128` | src/lib.rs:76-89 | the u128 cast keeps the exact discriminant and decodes back to the variant |
| `StatusConversions.FromU16` | src/lib.rs:91-102 | a known discriminant decodes to its variant, anything else to ConvertIntError |
| `StatusConversions.FromU32` | src/lib.rs:91-103 | a known discriminant decodes to its variant, anything else to ConvertIntError |
| `StatusConversions.FromU64` | src/lib.rs:91-104 | a known discriminant decodes to its variant, anything else to ConvertIntError |
| `StatusConversions.FromU128` | src/lib.rs:91-105 | a known discriminant decodes to its variant, anything else to ConvertIntError |
| `StatusConversions.RoundTripAllWidths` | src/lib.rs:76-105 | every variant survives the trip to each width and back |
| `StatusConversions.EncodeWidthIndependent` | src/lib.rs:86-89 | the encoded number is the same at all four widths |
| `StatusConversions.DecodeWidthIndependent` | src/lib.rs:102-105 | a number decodes to the same variant as a u16, u32, u64 or u128, whichever of them can hold it |
| `StatusConversions.EncodeInjective` | src/lib.rs:76-89 | encoding to u16, u32, u64 and u128 is one-to-one |
| `StatusConversions.FromU16Surjective` | src/lib.rs:95-96 | every variant is the decoding of some u16 |
| `StatusConversions.FallbackAllWidths` | src/lib.rs:94-105 | a number other than 0, 1, 100..117 and 200 decodes to ConvertIntError at every width that holds it |
| `StatusConversions.KnownValues` | src/lib.rs:111-121 | BannedNode encodes to 101 as a u32, 102 as a u64 decodes to NoProvideAddress, 65535 as a u16 decodes to ConvertIntError |

## Left out

- `impl std::error::Error for Status` (src/lib.rs:74): a marker implementation with no behaviour.
- The derived `Debug`, `Clone`, `Copy`, `Eq` and `PartialEq`: Dafny datatype equality and value semantics stand in for them. The rendering `Display` writes is the variant's identifier, which is what the derived `Debug` prints.
- The `std::fmt::Formatter` plumbing of `Display::fmt`: only the resulting string is modelled, not the formatter or its `fmt::Result`.
- The `num_derive::FromPrimitive` expansion is modelled by what it computes, a first-match lookup over the variants (`Find`), not by its generated code.
- FromU128: the library's `from_u128` narrows to u64 before its lookup; the model looks the u128 value up directly. The results agree, because no discriminant reaches 2^64 and both paths then yield ConvertIntError.
- A success-check helper, conversions to a wire-message wrapper type, and the later crypto, network, executor and storage bands are not in `src/lib.rs` and are not part of this model.
