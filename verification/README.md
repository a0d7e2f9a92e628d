# swift-bindgen core, modelled in Dafny

This project models the pure core of the Rust bindings to the Swift runtime:

- `StaticString`, Swift's compile-time string. It holds either a pointer to NUL-terminated UTF-8 or one Unicode scalar held inline. The model covers its constructors, `to_str*`, `with_str*`, equality, ordering and hashing.
- `UnicodeScalar`, a wrapper around `char`, and the UTF-8 encoding of section 3 of RFC 3629 that `char::encode_utf8` performs.
- `MetadataKind`, the `u32` tag of a Swift metadata record. The model covers its flag bits, the fifteen named kinds and the predicates over them.
- `demangle_into` and `demangle`, which demangle a symbol into a reusable byte buffer. The foreign `swift_demangle` is a function-valued parameter, specified by its doc comment.
- The `extern` declarations of the value-witness tables of Swift's built-in types. The model covers the `VALUE_WITNESS_SYM!`, `builtins!` and `vectors!` macros and the 63 declarations they produce: 21 scalar lines and 42 vector lines (six element types by seven lane counts).

Modules:

- `Primitives`: bytes, `i8`, `u32` truncation, `Option`/`Result`, `Ordering`, and the lexicographic byte order that Rust's `str` and `[u8]` use for `Ord`.
- `Utf8`: the encoder, the single-character decoder, and their round trips, injectivity and order preservation.
- `Unicode`: `UnicodeScalar`.
- `StaticStrings`: `StaticString`. A value is its three fields (`start_ptr_or_data`, `utf8_code_unit_count`, `flags`) plus a fourth, model-only field: the static bytes the pointer refers to, so reads through the pointer are bounds-checked.
- `MetadataKinds`: `MetadataKind`, over `bv32`.
- `Demangling`: `Vec<u8>` as contents plus capacity, `Vec::reserve`, `swift_demangle`, `demangle_into` and `demangle`.
- `BuiltinWitnesses`: the link names, doc strings and tables of builtin.rs.

Where the source disagrees with what its own comments, its callers or the Swift runtime evidently intend, the as-written behaviour is modelled and exhibited, and so is the corrected one (see "## Findings").

## Model

| member | source | states |
|---|---|---|
| Primitives.TruncU32 | swift/src/string.rs:293 | `x as u32` keeps the low 32 bits: the one value below 2^32 that differs from `x` by a multiple of 2^32, so values already in range are unchanged |
| Primitives.CmpInt | swift/src/string.rs:127-130 | `u32::cmp` answers Less, Equal or Greater exactly when the first integer is smaller, equal or larger |
| Primitives.LexCmpEqualIff | swift/src/string.rs:134 | `str::cmp` returns Equal exactly when the two byte strings are identical |
| Primitives.LexCmpAntisymmetric | swift/src/string.rs:134 | swapping the operands of `str::cmp` reverses the result |
| Primitives.LexCmpLessIff | swift/src/string.rs:134 | `str::cmp` returns Less exactly when the first string is a proper prefix of the second or is smaller at the first differing byte |
| Utf8.Encode | swift/src/string.rs:294-296 | `encode_utf8` produces 1 to 4 bytes (the length RFC 3629 assigns), every byte after the first is a continuation byte, and only U+0000 encodes to a zero byte |
| Utf8.Decode | swift/src/string.rs:320 | reading one UTF-8 character back accepts only RFC 3629 well-formed characters and yields a scalar value |
| Utf8.DecodeEncode | swift/src/string.rs:294-296 | decoding an encoded scalar gives the scalar back |
| Utf8.EncodeDecode | swift/src/string.rs:294-296 | every well-formed character is the encoding of the scalar it decodes to |
| Utf8.EncodeInjective | swift/src/string.rs:294-296 | two scalars have the same encoding exactly when they are equal |
| Utf8.EncodePreservesOrder | swift/src/string.rs:123-134 | the byte order of two encodings is the order of the scalars, which makes the both-scalar shortcut of `cmp` agree with the text order |
| Utf8.LeadOctetRange | swift/src/string.rs:294-296 | the first byte of an encoding falls in the lead-byte range RFC 3629 gives for its length |
| Unicode.FromChar | swift/src/unicode.rs:16-18 | `from_char` gives a scalar whose `value()` is the char's code point |
| Unicode.IntoChar | swift/src/unicode.rs:22-24 | `into_char` is undone by `from_char` |
| Unicode.Value | swift/src/unicode.rs:33-35 | `value()` fits a `u32` and is a Unicode scalar value |
| Unicode.IntoFromChar | swift/src/unicode.rs:13-25 | `into_char(from_char(c))` is `c` |
| Unicode.ValueIsScalar | swift/src/unicode.rs:33-35 | `value()` never exceeds U+10FFFF and is never a surrogate |
| Unicode.ValueSurjective | swift/src/unicode.rs:33-35 | every Unicode scalar value is the `value()` of some scalar |
| Unicode.IsAsciiIff | swift/src/unicode.rs:42-44 | `is_ascii` holds exactly when the value is at most 0x7F |
| Unicode.CmpIsValueOrder | swift/src/unicode.rs:7-11 | the derived order and equality are those of `value()` |
| Unicode.IsAsciiIffOneOctet | swift/src/unicode.rs:42-44 | a scalar is ASCII exactly when its UTF-8 form is one byte |
| StaticStrings.ScalarIn | swift/src/string.rs:293-294 | the scalar read from `utf8_code_unit_count` (as at line 293) or from `start_ptr_or_data` (as at lines 74-75) is the low 32 bits of that field, and the field itself when it is below 2^32 |
| StaticStrings.FlagsMeaning | swift/src/string.rs:336-345 | flags 0 and 2 mean pointer form, flags 1, 3 and -1 mean scalar form, and bit 1 marks ASCII |
| StaticStrings.FromStrUnchecked | swift/src/string.rs:180-186 | the result uses the pointer form, is not marked ASCII, and points at the slice with its length as count |
| StaticStrings.FromAsciiUnchecked | swift/src/string.rs:224-230 | the result uses the pointer form, is marked ASCII, and points at the slice with its length as count |
| StaticStrings.FromStr | swift/src/string.rs:156-165 | succeeds exactly for a NUL-terminated slice with no interior NUL, and the result is marked ASCII exactly when every byte is ASCII |
| StaticStrings.FromAscii | swift/src/string.rs:203-212 | succeeds exactly for a NUL-terminated all-ASCII slice with no interior NUL, and the result is marked ASCII |
| StaticStrings.ToStrUnchecked | swift/src/string.rs:250-254 | returns `count` bytes that are a prefix of the static slice |
| StaticStrings.ToStrWithNulUnchecked | swift/src/string.rs:274-278 | returns `count + 1` bytes of the static slice, which extend `to_str_unchecked` by one byte |
| StaticStrings.ToStr | swift/src/string.rs:235-241 | returns text exactly in the pointer form, and that text is the first `count` bytes |
| StaticStrings.ToStrWithNul | swift/src/string.rs:259-265 | returns text exactly in the pointer form, and that text is `to_str` plus one more byte |
| StaticStrings.WithStrReading | swift/src/string.rs:286-298 | `with_str` hands over `to_str` in the pointer form, and otherwise 1 to 4 bytes that decode to the stored scalar |
| StaticStrings.WithStrWithNulReading | swift/src/string.rs:306-322 | `with_str_with_nul` hands over the `with_str` text plus one byte, and in the scalar form that byte is NUL, the total is at most 5 bytes, and the text has an interior NUL only for U+0000 |
| StaticStrings.WithStr | swift/src/string.rs:286-298 | as written, the scalar form hands over the encoding of `utf8_code_unit_count as u32` |
| StaticStrings.WithStrWithNul | swift/src/string.rs:306-322 | as written, the `with_str` text plus one byte; in the scalar form that byte is NUL and the text has an interior NUL only when the count's low 32 bits are 0; in the pointer form the byte is whatever the slice holds after `count` bytes |
| StaticStrings.FromAsciiWithStr | swift/src/string.rs:188-201 | the doc example: `with_str` on a `from_ascii` value yields exactly the bytes it was built from, and the value is ASCII |
| StaticStrings.EqReading | swift/src/string.rs:42-84 | two scalar-form values are equal when their data words agree as `u32`, and otherwise when their `with_str` texts are equal |
| StaticStrings.CmpReading | swift/src/string.rs:93-136 | two scalar-form values compare by their data words as `u32`, and otherwise by the byte order of their `with_str` texts |
| StaticStrings.Eq | swift/src/string.rs:42-84 | two pointer-form values are equal exactly when `to_str` agrees |
| StaticStrings.Cmp | swift/src/string.rs:93-136 | two pointer-form values compare as their `to_str` byte strings |
| StaticStrings.PartialCmp | swift/src/string.rs:86-91 | `partial_cmp` is always `Some(cmp)`, so it returns Equal exactly when `eq` holds, and between pointer-form values returns Less exactly when the first text sorts lexicographically before the second |
| StaticStrings.EqIffCmpEqual | swift/src/string.rs:42-136 | `eq` holds exactly when `cmp` returns Equal, in every combination of forms |
| StaticStrings.CmpAntisymmetric | swift/src/string.rs:93-136 | swapping the operands of `cmp` reverses the result |
| StaticStrings.PointerCmpIsLexicographic | swift/src/string.rs:105-106 | between pointer-form values, `cmp` is Less exactly when the first text sorts lexicographically before the second, and Equal exactly when the texts are identical |
| StaticStrings.HashReading | swift/src/string.rs:138-144 | `hash` feeds the text followed by the 0xFF terminator that `str::hash` writes: in the pointer form `to_str` plus 0xFF, in the scalar form bytes that decode to the scalar read from the field, plus 0xFF |
| StaticStrings.Hash | swift/src/string.rs:138-144 | as written, the hashed bytes end in 0xFF and are `to_str` in the pointer form, and otherwise decode to the low 32 bits of the count |
| StaticStrings.HashPointerContents | swift/src/string.rs:140-142 | pointer-form values with the same text hash alike, whatever their addresses or flags |
| StaticStrings.HashAgreesWithEqUnlessBothScalar | swift/src/string.rs:138-144 | as written, equal values hash alike whenever at least one of them uses the pointer form |
| StaticStrings.HashDisagreesWithEqBothScalar | swift/src/string.rs:72-79 | as written, two scalar-form values whose data words agree but whose counts differ as `u32` are `eq` yet hash differently, which breaks the rule that equal values hash alike |
| StaticStrings.HashDisagreesWithEqExample | swift/src/string.rs:138-144 | as written, scalar-form values with data word 0x61 and counts 0x61 and 0x62 are `eq` but hash as `[0x61, 0xFF]` and `[0x62, 0xFF]` |
| StaticStrings.ConstructedCountIncludesNul | swift/src/string.rs:156-165 | as written, a constructed value's `with_str` text still ends in the NUL terminator, and `to_str_with_nul` would read past the slice |
| StaticStrings.UncheckedCountIncludesNul | swift/src/string.rs:180-230 | as written, both unchecked constructors give a count whose `count + 1` read overruns the slice |
| StaticStrings.CountedIntended | swift/src/string.rs:180-186 | a count that excludes the terminator makes `to_str` the text without its NUL and `to_str_with_nul` the whole slice |
| StaticStrings.FromStrIntended | swift/src/string.rs:156-165 | corrected `from_str`: the same acceptance and ASCII flag, and `with_str` is the text without its NUL while `with_str_with_nul` is the whole slice |
| StaticStrings.FromAsciiIntended | swift/src/string.rs:203-212 | corrected `from_ascii`: the same acceptance, and the same `with_str`/`with_str_with_nul` texts as corrected `from_str` |
| StaticStrings.IntendedDropsDocNul | swift/src/string.rs:188-201 | the corrected count no longer meets the `from_ascii` doc example: `with_str` yields the slice without its final NUL |
| StaticStrings.SwiftScalarString | swift/src/string.rs:327-330 | Swift's scalar-form layout: the scalar sits in the data word, the count is 0, and the ASCII bit is set exactly for scalars below 0x80 |
| StaticStrings.SwiftPointerString | swift/src/string.rs:327-330 | Swift's pointer-form layout of the same text: `to_str` is the scalar's encoding and the NUL is readable |
| StaticStrings.ScalarReadFromCount | swift/src/string.rs:286-298 | as written, `with_str` of a Swift-layout scalar gives a lone NUL, the value is unequal to the pointer form of the same text, and it sorts before it |
| StaticStrings.CmpDisagreesWithText | swift/src/string.rs:123-131 | as written, `cmp` orders the scalar forms of "a" and "b" although `with_str` gives them the same text |
| StaticStrings.WithStrIntended | swift/src/string.rs:286-298 | corrected `with_str`: the scalar form hands over the encoding of the data word |
| StaticStrings.EqIntended | swift/src/string.rs:42-84 | corrected `eq`: on pointer-form values it is equality of `to_str` |
| StaticStrings.CmpIntended | swift/src/string.rs:93-136 | corrected `cmp`: on pointer-form values it is the byte order of `to_str` |
| StaticStrings.HashIntended | swift/src/string.rs:138-144 | corrected `hash`: the bytes end in 0xFF and are `to_str` in the pointer form, and otherwise decode to the low 32 bits of the data word |
| StaticStrings.EqIntendedIsSameText | swift/src/string.rs:42-84 | corrected, two values are equal exactly when they spell the same text, in every combination of forms |
| StaticStrings.HashIntendedAgreesWithEq | swift/src/string.rs:138-144 | corrected, equal values always hash alike |
| StaticStrings.CmpIntendedIsTextOrder | swift/src/string.rs:93-136 | corrected, `cmp` is the byte order of the texts in every combination of forms |
| StaticStrings.IntendedScalarMatchesPointer | swift/src/string.rs:42-136 | corrected, the Swift-layout scalar and pointer forms of one text are equal and compare Equal |
| MetadataKinds.ToIsaPtr | swift-sys/src/metadata/kind.rs:49-55 | `to_isa_ptr` is null exactly when the kind is not an isa pointer, and otherwise the raw value, above 0x7FF |
| MetadataKinds.IsTypeIsBit10Clear | swift-sys/src/metadata/kind.rs:21-23 | `is_type` holds exactly when bit 10 is clear, i.e. the value modulo 0x800 is below 0x400 |
| MetadataKinds.NamedKindsThatAreTypes | swift-sys/src/metadata/kind.rs:85-179 | of the named kinds, exactly those built without the non-type flag are types |
| MetadataKinds.IsaPtrBound | swift-sys/src/metadata/kind.rs:43-45 | `is_isa_ptr` is the unsigned comparison with 0x7FF, and no named kind is an isa pointer |
| MetadataKinds.NominalTypeIff | swift-sys/src/metadata/kind.rs:28-30 | `is_nominal_type` holds for exactly the values 0x000, 0x200, 0x201 and 0x202, i.e. class, struct, enum and optional |
| MetadataKinds.IsRecognisesOwnConstant | swift-sys/src/metadata/kind.rs:77-79 | each generated `is_X` accepts its own constant |
| MetadataKinds.RuntimePrivateConstants | swift-sys/src/metadata/kind.rs:37-39 | `is_runtime_private` holds of exactly the named kinds built with the runtime-private flag |
| MetadataKinds.NamedKindsCollide | swift-sys/src/metadata/kind.rs:118-155 | as written, OPAQUE equals METATYPE, TUPLE equals OBJC_CLASS_WRAPPER and FUNCTION equals EXISTENTIAL_METATYPE |
| MetadataKinds.IntendedKindsDistinct | swift-sys/src/metadata/kind.rs:85-179 | with flag 0x100 the fifteen constants are pairwise distinct, and each `is_X` accepts its own constant and no other |
| MetadataKinds.IntendedRuntimePrivateConstants | swift-sys/src/metadata/kind.rs:37-39 | with flag 0x100, `is_runtime_private` still picks out exactly the kinds built with the flag |
| Demangling.Reserve | swift-rt/src/sym.rs:58 | `Vec::reserve(n)` keeps the contents, leaves room for `n` more bytes after the length, never shrinks, and is a no-op when that room already exists |
| Demangling.SwiftDemangle | swift-sys/src/sym.rs:9-40 | `swift_demangle` returns non-null exactly for a mangled name, sets the size to the demangled length, and writes a prefix of the name that fits the buffer |
| Demangling.ReserveAsWritten | swift-rt/src/sym.rs:57-59 | the reservation as written keeps the contents and the buffer valid |
| Demangling.AsWrittenReserveFallsShort | swift-rt/src/sym.rs:57-66 | as written, the capacity falls short of `old_len + demangled_len` exactly when the spare capacity is below the demangled length and either covers half of it (nothing grows) or is non-zero while twice the capacity and 8 both stay below the total (growth short by the spare capacity) |
| Demangling.AsWrittenReserveExample | swift-rt/src/sym.rs:57-66 | as written, a 10-byte buffer holding 5 bytes is left unchanged for an 8-byte name (13 bytes set in 10), and a 10-byte buffer holding 9 bytes gets `reserve(99)` for a 100-byte name and grows to 108 (109 bytes set in 108) |
| Demangling.AsWrittenReserveFromFull | swift-rt/src/sym.rs:20-27 | with no spare capacity, as in `demangle`'s fresh buffer, the reservation as written equals the corrected one |
| Demangling.ReserveIntended | swift-rt/src/sym.rs:57-59 | corrected reservation: room for the whole name after the contents, and the capacity changes only when the spare capacity was short |
| Demangling.DemangleInto | swift-rt/src/sym.rs:34-79 | with the reservation corrected to `reserve(demangled_len)`: fails exactly for an unmangled symbol and then leaves the buffer alone; otherwise it appends the demangled name after the old contents, returns exactly that name, and grows only when the spare capacity was short |
| Demangling.Demangle | swift-rt/src/sym.rs:20-27 | fails exactly for an unmangled symbol, and otherwise returns the whole demangled name |
| BuiltinWitnesses.ValueWitnessSym | swift-sys/src/metadata/value_witness/builtin.rs:11-15 | the symbol is four bytes longer than the type mangling, and reading the mangling back out of it gives that mangling |
| BuiltinWitnesses.SymOfValueWitness | swift-sys/src/metadata/value_witness/builtin.rs:11-15 | a symbol is accepted exactly when it has the `$s` prefix and the `WV` suffix |
| BuiltinWitnesses.ValueWitnessSymRoundTrip | swift-sys/src/metadata/value_witness/builtin.rs:11-15 | every accepted symbol is `VALUE_WITNESS_SYM!` of the mangling read from it |
| BuiltinWitnesses.ValueWitnessSymInjective | swift-sys/src/metadata/value_witness/builtin.rs:11-15 | two manglings give the same symbol exactly when they are equal |
| BuiltinWitnesses.DocBuiltin | swift-sys/src/metadata/value_witness/builtin.rs:24 | a doc string it accepts is "Table for `Builtin." + the name it returns + "`." |
| BuiltinWitnesses.Declare | swift-sys/src/metadata/value_witness/builtin.rs:18-35 | a declaration keeps the Rust name, its link name encodes the line's mangling, and its doc string names the line's builtin |
| BuiltinWitnesses.VectorLine | swift-sys/src/metadata/value_witness/builtin.rs:38-45 | a vector's mangling is the element mangling, then "Bv", then the lane count |
| BuiltinWitnesses.ExpandVectors | swift-sys/src/metadata/value_witness/builtin.rs:38-45 | `vectors!` turns each vector line, in order, into a `builtins!` line with the same Rust name whose mangling starts with the element mangling and ends with the lane count |
| BuiltinWitnesses.Builtins | swift-sys/src/metadata/value_witness/builtin.rs:18-35 | `builtins!` declares one static per line, in order, keeping the Rust name; the line's mangling can be read back out of the link name and its builtin out of the doc string |
| BuiltinWitnesses.TableSizes | swift-sys/src/metadata/value_witness/builtin.rs:47-122 | 21 scalar lines, 42 vector lines, 63 declarations |
| BuiltinWitnesses.VectorAt | swift-sys/src/metadata/value_witness/builtin.rs:74-122 | vector line `i` has element type `i / 7` and lane count `i % 7` |
| BuiltinWitnesses.VectorElementsAreScalars | swift-sys/src/metadata/value_witness/builtin.rs:74-122 | the six vector element types are the scalar lines I8, I16, I32, I64, F32 and F64 |
| BuiltinWitnesses.VectorSymInjective | swift-sys/src/metadata/value_witness/builtin.rs:41 | when the element mangling ends in its only `_` and the lane count has none, a vector mangling determines both its parts |
| BuiltinWitnesses.ScalarSymsDistinct | swift-sys/src/metadata/value_witness/builtin.rs:47-72 | the 21 scalar manglings are pairwise distinct |
| BuiltinWitnesses.ScalarSymsAreBuiltin | swift-sys/src/metadata/value_witness/builtin.rs:47-72 | every scalar mangling starts with `B`, the prefix of a `Builtin.` type, and none contains `v` |
| BuiltinWitnesses.VectorPartsDistinct | swift-sys/src/metadata/value_witness/builtin.rs:74-122 | the element manglings are pairwise distinct, start with `B` and end in their only `_`; the lane counts are pairwise distinct and contain no `_` |
| BuiltinWitnesses.VectorSymsDistinct | swift-sys/src/metadata/value_witness/builtin.rs:74-122 | no two vector lines share a mangling |
| BuiltinWitnesses.VectorSymHasV | swift-sys/src/metadata/value_witness/builtin.rs:41 | every vector mangling contains `v` |
| BuiltinWitnesses.VectorLinesShape | swift-sys/src/metadata/value_witness/builtin.rs:38-45 | every mangling `vectors!` produces starts with `B` and contains `v` |
| BuiltinWitnesses.VectorLinesDistinct | swift-sys/src/metadata/value_witness/builtin.rs:38-45 | the 42 lines `vectors!` produces have pairwise distinct manglings, each starting with `B` and containing `v` |
| BuiltinWitnesses.ConcatSymsDistinct | swift-sys/src/metadata/value_witness/builtin.rs:47-122 | appending lines whose manglings all contain `v` to distinct lines whose manglings never do keeps every mangling distinct |
| BuiltinWitnesses.LineSymsDistinct | swift-sys/src/metadata/value_witness/builtin.rs:47-122 | no two of the 63 lines share a mangling, and every mangling starts with `B` |
| BuiltinWitnesses.BuiltinsKeepSymsApart | swift-sys/src/metadata/value_witness/builtin.rs:18-35 | two declarations share a link name exactly when their lines share a mangling |
| BuiltinWitnesses.LinkNamesDistinct | swift-sys/src/metadata/value_witness/builtin.rs:11-122 | the 63 `extern` statics bind 63 distinct symbols |
| BuiltinWitnesses.LinkNamesWellFormed | swift-sys/src/metadata/value_witness/builtin.rs:11-122 | every link name has the form `$sB...WV` and every doc string names a `Builtin.` type |
| BuiltinWitnesses.VectorDocNamesElement | swift-sys/src/metadata/value_witness/builtin.rs:38-45 | a vector's doc string names `Builtin.Vec<size>x<element>` for a scalar element type, and its mangling extends that element's mangling |

## Left out

- The other files of the crates: heap objects and reference counting, `obj.rs`, the value-witness table dispatch, the pointer wrappers, `object`, `ty`, `primitive` and `sync`. They are thin `extern "C"` calls into the Swift runtime, or marker types.
- `Debug`, `Display` and `From<StaticString> for String`. Each hands the `with_str` text to a formatter or an allocator; `WithStr` models that text.
- `with_str` and `with_str_with_nul` take a closure; the model returns the bytes the closure would receive.
- `Hash` is modelled as the byte string fed to the hasher, not as a hasher state.
- `StaticString`'s `Send`/`Sync` impls, `#[repr(C)]`, and the pointer/`usize` layout: the data word is an unbounded `nat`, and only its `as u32` truncation is modelled.
- UTF-8 validity of the bytes behind a `&'static str` is not modelled. `from_str_unchecked`'s input is any byte slice, and `to_str_unchecked` (string.rs:250-254), which rebuilds the text with `from_utf8_unchecked`, returns those bytes unchecked.
- A scalar-form value whose scalar field, as `u32`, is not a Unicode scalar value: `with_str`, `eq`, `cmp` and `hash` pass it to `char::from_u32_unchecked` (string.rs:294), which is undefined behaviour, so `WithStrDefined` and `CmpDefined` exclude it.
- Demangling.SwiftDemangle: models the behaviour its doc comment promises (truncate to the buffer, report the needed size). It leaves out the real runtime's NUL terminator and the fake non-null pointer `1` of the probing call. The runtime's source is not part of this model.
- Demangling.DemangleInto: models `demangle_into` with the reservation corrected to `reserve(demangled_len)` (see "## Findings"), so it does not model the as-written overrun at sym.rs:57-59; `ReserveAsWritten` and `AsWrittenReserveFallsShort` model that. `Vec`'s allocation, reallocation and pointer arithmetic are abstracted to contents plus capacity. `Vec::reserve`'s growth amount follows the standard library's amortized rule (twice the capacity, at least the request, at least 8), which the source does not rely on.
- `DemangleError`'s `Display` and `Error` impls, which only format a constant message.
- `MetadataKind`'s derived `Debug`/`Hash` impls and its doc attributes, and `UnicodeScalar`'s derived `Debug`/`Hash` impls. Each derived `Hash` feeds the hasher the single field, which the model's equality already determines.
- The `#[doc]` and `#[link_name]` attributes are modelled as strings in `BuiltinWitnesses.Decl`, and the `extern` statics themselves (the tables the Swift runtime exports) are not modelled. That the Rust names are distinct is left to the Rust compiler and not proved.

## Findings

| source | as written | input that shows it | evidently intended | confidence | as-written member | corrected member |
|---|---|---|---|---|---|---|
| swift/src/string.rs:180-186 | the constructors store `s.len()`, which counts the NUL terminator, as `utf8_code_unit_count` | `from_ascii(b"Hello Swift!\0")`: `with_str` yields 13 bytes ending in NUL, and `to_str_with_nul` reads 14 bytes of a 13-byte slice | the count of code units before the terminator, as Swift's `utf8CodeUnitCount`, the `with_str` doc ("excluding the null terminator") and the `count + 1` of `to_str_with_nul_unchecked` say. The evidence conflicts: the `from_ascii` doc example (string.rs:188-201) expects `with_str` to yield the bytes including the NUL, which the corrected count breaks (`IntendedDropsDocNul`). The other possible fix keeps the count and makes `to_str_with_nul` read `count` bytes | not executed | StaticStrings.ConstructedCountIncludesNul | StaticStrings.FromStrIntended |
| swift/src/string.rs:293 | `with_str`, `with_str_with_nul`, and the mixed-form paths of `eq`/`cmp` read the scalar from `utf8_code_unit_count`, while the both-scalar path reads `start_ptr_or_data` | a scalar-form value holding U+0061 in the Swift layout (data word 0x61, count 0): `with_str` yields `[0]`, it is unequal to the pointer-form "a", and `cmp` orders it before it | read the scalar from `start_ptr_or_data`, where Swift stores it and where the both-scalar path already reads it. As written, `Hash` also disagrees with `Eq` on two scalar-form values: data words 0x61 and 0x61 with counts 0x61 and 0x62 are `eq` but hash as `[0x61, 0xFF]` and `[0x62, 0xFF]` (`HashDisagreesWithEqBothScalar`) | not executed | StaticStrings.ScalarReadFromCount | StaticStrings.EqIntendedIsSameText |
| swift-sys/src/metadata/kind.rs:12 | `RUNTIME_PRIVATE_FLAG` is written as decimal `100` (0x64) | OPAQUE = 0 \| 100 \| 0x200 = 0x264 = 4 \| 100 \| 0x200 = METATYPE, so `is_metatype` is true of OPAQUE | 0x100, the value of `MetadataKindIsRuntimePrivate` in Swift's `MetadataKind.def` | not executed | MetadataKinds.NamedKindsCollide | MetadataKinds.IntendedKindsDistinct |
| swift-rt/src/sym.rs:57-59 | `buffer.reserve(demangled_len - rem_capacity)`, but `reserve` counts from the length, not from the capacity | a buffer of capacity 10 holding 5 bytes and a demangled length of 8: `reserve(3)` does nothing, then `set_len(13)` exceeds the capacity of 10 | `reserve(demangled_len)`, which leaves room for the whole name after the old contents. The shortfall also occurs when the buffer grows: capacity 10, 9 bytes, a 100-byte name reserves 99 and grows to 108 < 109 | not executed | Demangling.AsWrittenReserveFallsShort | Demangling.DemangleInto |
