/**
  `StaticString` (swift/src/string.rs): Swift's compile-time string, which is
  either a pointer to NUL-terminated UTF-8 (flag bit 0 clear) or a single
  Unicode scalar held inline (flag bit 0 set). Flag bit 1 records that the
  text is ASCII.

  A value is modelled by its three fields (`start_ptr_or_data`,
  `utf8_code_unit_count`, `flags`) plus the static byte slice the pointer
  refers to, so that reads through the pointer can be bounds-checked.
 */
module StaticStrings {
  import opened Primitives
  import Utf8

  /** A `&'static [u8]` (or `&'static str`): its start address and contents. */
  datatype StaticSlice = StaticSlice(addr: nat, bytes: seq<byte>)

  datatype StaticString = StaticString(
    storage: seq<byte>,       // the static bytes `start_ptr_or_data` points at
    startPtrOrData: nat,      // raw word: an address, or the scalar in Swift's layout
    utf8CodeUnitCount: nat,   // `usize`
    flags: int8)

  /** Which field a scalar-representation value's scalar is read from. */
  datatype ScalarField = CountField | DataField

  /** `char::from_u32_unchecked(field as u32)`. */
  function ScalarIn(s: StaticString, field: ScalarField): (v: nat)
    ensures v < U32_MODULUS
    ensures field == CountField ==> (s.utf8CodeUnitCount - v) % U32_MODULUS == 0
    ensures field == DataField ==> (s.startPtrOrData - v) % U32_MODULUS == 0
    ensures field == CountField && s.utf8CodeUnitCount < U32_MODULUS ==> v == s.utf8CodeUnitCount
    ensures field == DataField && s.startPtrOrData < U32_MODULUS ==> v == s.startPtrOrData
  {
    match field
    case CountField => TruncU32(s.utf8CodeUnitCount)
    case DataField => TruncU32(s.startPtrOrData)
  }

  // ---------------------------------------------------------------- flags

  /** `has_ptr_repr`: `flags & 1 == 0`. */
  predicate HasPtrRepr(s: StaticString)
  {
    !Bit(s.flags as int, 0)
  }

  /** `is_ascii`: `flags & 2 != 0`. */
  predicate IsAscii(s: StaticString)
  {
    Bit(s.flags as int, 1)
  }

  /** The four flag values Swift uses, decoded. */
  lemma FlagsMeaning(s: StaticString)
    ensures s.flags == 0 ==> HasPtrRepr(s) && !IsAscii(s)
    ensures s.flags == 2 ==> HasPtrRepr(s) && IsAscii(s)
    ensures s.flags == 1 ==> !HasPtrRepr(s) && !IsAscii(s)
    ensures s.flags == 3 ==> !HasPtrRepr(s) && IsAscii(s)
    ensures s.flags == -1 ==> !HasPtrRepr(s) && IsAscii(s)
  {
  }

  // --------------------------------------------------------- constructors

  /** `CStr::from_bytes_with_nul(s).is_ok()`: the last byte, and only it, is NUL. */
  predicate IsNulTerminated(s: seq<byte>)
  {
    |s| > 0 && s[|s| - 1] == 0 && 0 !in s[..|s| - 1]
  }

  /** `<[u8]>::is_ascii`. */
  predicate AllAscii(s: seq<byte>)
  {
    forall i :: 0 <= i < |s| ==> s[i] < 0x80
  }

  /** `from_str_unchecked`: pointer representation, not marked ASCII. */
  function FromStrUnchecked(s: StaticSlice): (r: StaticString)
    ensures HasPtrRepr(r) && !IsAscii(r)
    ensures r.storage == s.bytes && r.startPtrOrData == s.addr
    ensures r.utf8CodeUnitCount == |s.bytes|
  {
    StaticString(s.bytes, s.addr, |s.bytes|, 0)
  }

  /** `from_ascii_unchecked`: pointer representation, marked ASCII. */
  function FromAsciiUnchecked(s: StaticSlice): (r: StaticString)
    ensures HasPtrRepr(r) && IsAscii(r)
    ensures r.storage == s.bytes && r.startPtrOrData == s.addr
    ensures r.utf8CodeUnitCount == |s.bytes|
  {
    StaticString(s.bytes, s.addr, |s.bytes|, 2)
  }

  /** `from_str`: rejects input that is not NUL-terminated or has an interior
      NUL, and otherwise marks the result ASCII exactly when it is. */
  function FromStr(s: StaticSlice): (r: Option<StaticString>)
    ensures r.Some? <==> IsNulTerminated(s.bytes)
    ensures r.Some? ==> HasPtrRepr(r.value) && (IsAscii(r.value) <==> AllAscii(s.bytes))
    ensures r.Some? ==> r.value.storage == s.bytes && r.value.utf8CodeUnitCount == |s.bytes|
  {
    if !IsNulTerminated(s.bytes) then None
    else if AllAscii(s.bytes) then Some(FromAsciiUnchecked(s))
    else Some(FromStrUnchecked(s))
  }

  /** `from_ascii`: rejects input that is not NUL-terminated, has an interior
      NUL, or has a byte outside ASCII. */
  function FromAscii(s: StaticSlice): (r: Option<StaticString>)
    ensures r.Some? <==> IsNulTerminated(s.bytes) && AllAscii(s.bytes)
    ensures r.Some? ==> HasPtrRepr(r.value) && IsAscii(r.value)
    ensures r.Some? ==> r.value.storage == s.bytes && r.value.utf8CodeUnitCount == |s.bytes|
  {
    if !IsNulTerminated(s.bytes) then None
    else if AllAscii(s.bytes) then Some(FromAsciiUnchecked(s))
    else None
  }

  // ------------------------------------------------------------- to_str*

  /** The pointer representation's `count` bytes lie inside the static slice. */
  predicate Readable(s: StaticString)
  {
    HasPtrRepr(s) ==> s.utf8CodeUnitCount <= |s.storage|
  }

  /** The pointer representation's `count + 1` bytes lie inside the static slice. */
  predicate ReadableWithNul(s: StaticString)
  {
    HasPtrRepr(s) ==> s.utf8CodeUnitCount + 1 <= |s.storage|
  }

  /** `to_str_unchecked`: the `count` bytes at the pointer. */
  function ToStrUnchecked(s: StaticString): (r: seq<byte>)
    requires s.utf8CodeUnitCount <= |s.storage|
    ensures |r| == s.utf8CodeUnitCount
    ensures r <= s.storage
  {
    s.storage[..s.utf8CodeUnitCount]
  }

  /** `to_str_with_nul_unchecked`: the `count + 1` bytes at the pointer. */
  function ToStrWithNulUnchecked(s: StaticString): (r: seq<byte>)
    requires s.utf8CodeUnitCount + 1 <= |s.storage|
    ensures |r| == s.utf8CodeUnitCount + 1
    ensures r <= s.storage
    ensures r[..|r| - 1] == ToStrUnchecked(s)
  {
    s.storage[..s.utf8CodeUnitCount + 1]
  }

  /** `to_str`. */
  function ToStr(s: StaticString): (r: Option<seq<byte>>)
    requires Readable(s)
    ensures r.Some? <==> HasPtrRepr(s)
    ensures r.Some? ==> |r.value| == s.utf8CodeUnitCount && r.value <= s.storage
  {
    if HasPtrRepr(s) then Some(ToStrUnchecked(s)) else None
  }

  /** `to_str_with_nul`. */
  function ToStrWithNul(s: StaticString): (r: Option<seq<byte>>)
    requires ReadableWithNul(s)
    ensures r.Some? <==> HasPtrRepr(s)
    ensures r.Some? ==> |r.value| == s.utf8CodeUnitCount + 1 && r.value <= s.storage
    ensures r.Some? ==> r.value[..|r.value| - 1] == ToStr(s).value
  {
    if HasPtrRepr(s) then Some(ToStrWithNulUnchecked(s)) else None
  }

  // ------------------------------------------------------------ with_str*

  /** What `with_str` needs to be defined when its scalar is read from `field`:
      the pointer bytes are in bounds, or the field holds a scalar value
      (`from_u32_unchecked` is undefined otherwise). */
  predicate WithStrDefined(s: StaticString, field: ScalarField)
  {
    if HasPtrRepr(s) then s.utf8CodeUnitCount <= |s.storage|
    else Utf8.IsScalarValue(ScalarIn(s, field))
  }

  predicate WithStrWithNulDefined(s: StaticString, field: ScalarField)
  {
    if HasPtrRepr(s) then s.utf8CodeUnitCount + 1 <= |s.storage|
    else Utf8.IsScalarValue(ScalarIn(s, field))
  }

  /** The bytes `with_str` hands its closure, the scalar being read from `field`. */
  function WithStrReading(s: StaticString, field: ScalarField): (r: seq<byte>)
    requires WithStrDefined(s, field)
    ensures HasPtrRepr(s) ==> Some(r) == ToStr(s)
    ensures !HasPtrRepr(s) ==> Utf8.Decode(r) == Some(ScalarIn(s, field))
    ensures !HasPtrRepr(s) ==> 1 <= |r| <= 4
  {
    if HasPtrRepr(s) then ToStrUnchecked(s)
    else
      Utf8.DecodeEncode(ScalarIn(s, field));
      Utf8.Encode(ScalarIn(s, field))
  }

  /** The bytes `with_str_with_nul` hands its closure. */
  function WithStrWithNulReading(s: StaticString, field: ScalarField): (r: seq<byte>)
    requires WithStrWithNulDefined(s, field)
    ensures |r| >= 1 && r[..|r| - 1] == WithStrReading(s, field)
    ensures HasPtrRepr(s) ==> Some(r) == ToStrWithNul(s)
    ensures !HasPtrRepr(s) ==> r[|r| - 1] == 0 && |r| <= 5
    ensures !HasPtrRepr(s) ==> (0 in r[..|r| - 1] <==> ScalarIn(s, field) == 0)
  {
    if HasPtrRepr(s) then ToStrWithNulUnchecked(s)
    else
      var enc := Utf8.Encode(ScalarIn(s, field));
      assert (enc + [0])[..|enc|] == enc;
      enc + [0]
  }

  /** `with_str` as written: the scalar is read from `utf8_code_unit_count`. */
  function WithStr(s: StaticString): (r: seq<byte>)
    requires WithStrDefined(s, CountField)
    ensures HasPtrRepr(s) ==> Some(r) == ToStr(s)
    ensures !HasPtrRepr(s) ==> Utf8.Decode(r) == Some(TruncU32(s.utf8CodeUnitCount))
  {
    WithStrReading(s, CountField)
  }

  /** `with_str_with_nul` as written. */
  function WithStrWithNul(s: StaticString): (r: seq<byte>)
    requires WithStrWithNulDefined(s, CountField)
    ensures |r| >= 1 && r[..|r| - 1] == WithStr(s)
    ensures !HasPtrRepr(s) ==> r[|r| - 1] == 0
    ensures !HasPtrRepr(s) ==> (0 in r[..|r| - 1] <==> TruncU32(s.utf8CodeUnitCount) == 0)
  {
    WithStrWithNulReading(s, CountField)
  }

  /** The doc example of `from_ascii`: `with_str` yields the very bytes the
      value was built from. */
  lemma FromAsciiWithStr(s: StaticSlice)
    requires FromAscii(s).Some?
    ensures WithStr(FromAscii(s).value) == s.bytes
    ensures IsAscii(FromAscii(s).value)
  {
  }

  // ------------------------------------------------- equality and ordering

  /** What `eq`/`cmp` need: reads in bounds, and on the mixed-representation
      path the scalar read from `field` must be a scalar value. The
      both-scalar path reads nothing through a pointer. */
  predicate CmpDefined(a: StaticString, b: StaticString, field: ScalarField)
  {
    if HasPtrRepr(a) == HasPtrRepr(b) then Readable(a) && Readable(b)
    else WithStrDefined(a, field) && WithStrDefined(b, field)
  }

  /** `PartialEq::eq`, with the mixed path reading the scalar from `field`. */
  function EqReading(a: StaticString, b: StaticString, field: ScalarField): (r: bool)
    requires CmpDefined(a, b, field)
    ensures !HasPtrRepr(a) && !HasPtrRepr(b) ==>
              (r <==> ScalarIn(a, DataField) == ScalarIn(b, DataField))
    ensures HasPtrRepr(a) || HasPtrRepr(b) ==>
              (r <==> WithStrReading(a, field) == WithStrReading(b, field))
  {
    if HasPtrRepr(a) && HasPtrRepr(b) then ToStrUnchecked(a) == ToStrUnchecked(b)
    else if HasPtrRepr(a) then ToStrUnchecked(a) == Utf8.Encode(ScalarIn(b, field))
    else if HasPtrRepr(b) then Utf8.Encode(ScalarIn(a, field)) == ToStrUnchecked(b)
    else TruncU32(a.startPtrOrData) == TruncU32(b.startPtrOrData)
  }

  /** `Ord::cmp`, with the mixed path reading the scalar from `field`. */
  function CmpReading(a: StaticString, b: StaticString, field: ScalarField): (r: Ordering)
    requires CmpDefined(a, b, field)
    ensures !HasPtrRepr(a) && !HasPtrRepr(b) ==>
              r == CmpInt(ScalarIn(a, DataField), ScalarIn(b, DataField))
    ensures HasPtrRepr(a) || HasPtrRepr(b) ==>
              r == LexCmp(WithStrReading(a, field), WithStrReading(b, field))
  {
    if HasPtrRepr(a) && HasPtrRepr(b) then LexCmp(ToStrUnchecked(a), ToStrUnchecked(b))
    else if HasPtrRepr(a) then LexCmp(ToStrUnchecked(a), Utf8.Encode(ScalarIn(b, field)))
    else if HasPtrRepr(b) then LexCmp(Utf8.Encode(ScalarIn(a, field)), ToStrUnchecked(b))
    else CmpInt(TruncU32(a.startPtrOrData), TruncU32(b.startPtrOrData))
  }

  /** `eq` as written. */
  function Eq(a: StaticString, b: StaticString): (r: bool)
    requires CmpDefined(a, b, CountField)
    ensures HasPtrRepr(a) && HasPtrRepr(b) ==> (r <==> ToStr(a) == ToStr(b))
  {
    EqReading(a, b, CountField)
  }

  /** `cmp` as written. */
  function Cmp(a: StaticString, b: StaticString): (r: Ordering)
    requires CmpDefined(a, b, CountField)
    ensures HasPtrRepr(a) && HasPtrRepr(b) ==> r == LexCmp(ToStr(a).value, ToStr(b).value)
  {
    CmpReading(a, b, CountField)
  }

  /** `partial_cmp` is total, and consistent with `eq` as `PartialOrd`
      requires: `Equal` exactly for equal values. */
  function PartialCmp(a: StaticString, b: StaticString): (r: Option<Ordering>)
    requires CmpDefined(a, b, CountField)
    ensures r.Some? && r.value == Cmp(a, b)
    ensures r.value == Equal <==> Eq(a, b)
    ensures HasPtrRepr(a) && HasPtrRepr(b) ==>
              (r.value == Less <==> LexLess(ToStr(a).value, ToStr(b).value))
  {
    EqIffCmpEqual(a, b, CountField);
    if HasPtrRepr(a) && HasPtrRepr(b) then
      LexCmpLessIff(ToStr(a).value, ToStr(b).value);
      Some(Cmp(a, b))
    else
      Some(Cmp(a, b))
  }

  /** Whichever field the mixed path reads, equality is `cmp` returning `Equal`. */
  lemma {:induction false} EqIffCmpEqual(a: StaticString, b: StaticString, field: ScalarField)
    requires CmpDefined(a, b, field)
    ensures EqReading(a, b, field) <==> CmpReading(a, b, field) == Equal
  {
    if HasPtrRepr(a) || HasPtrRepr(b) {
      LexCmpEqualIff(WithStrReading(a, field), WithStrReading(b, field));
    }
  }

  /** `cmp` is antisymmetric: swapping the operands reverses the result. */
  lemma {:induction false} CmpAntisymmetric(a: StaticString, b: StaticString, field: ScalarField)
    requires CmpDefined(a, b, field)
    ensures CmpDefined(b, a, field)
    ensures CmpReading(b, a, field) == CmpReading(a, b, field).Reverse()
  {
    if HasPtrRepr(a) || HasPtrRepr(b) {
      LexCmpAntisymmetric(WithStrReading(a, field), WithStrReading(b, field));
    }
  }

  /** Between two pointer-representation values, `cmp` is `Less` exactly when
      the first one's bytes sort strictly before the second's. */
  lemma PointerCmpIsLexicographic(a: StaticString, b: StaticString)
    requires HasPtrRepr(a) && HasPtrRepr(b) && Readable(a) && Readable(b)
    ensures Cmp(a, b) == Less <==> LexLess(ToStr(a).value, ToStr(b).value)
    ensures Cmp(a, b) == Equal <==> ToStr(a).value == ToStr(b).value
  {
    LexCmpLessIff(ToStr(a).value, ToStr(b).value);
    LexCmpEqualIff(ToStr(a).value, ToStr(b).value);
  }

  // ---------------------------------------------------------------- hash

  /** The bytes `Hash::hash` feeds the hasher: `str::hash` writes the text and
      then the terminator byte 0xFF. */
  function HashReading(s: StaticString, field: ScalarField): (r: seq<byte>)
    requires WithStrDefined(s, field)
    ensures |r| >= 1 && r[|r| - 1] == 0xFF
    ensures r[..|r| - 1] == WithStrReading(s, field)
    ensures HasPtrRepr(s) ==> r == ToStr(s).value + [0xFF]
    ensures !HasPtrRepr(s) ==> Utf8.Decode(r[..|r| - 1]) == Some(ScalarIn(s, field))
  {
    var text := WithStrReading(s, field);
    assert (text + [0xFF])[..|text|] == text;
    text + [0xFF]
  }

  /** `hash` as written. */
  function Hash(s: StaticString): (r: seq<byte>)
    requires WithStrDefined(s, CountField)
    ensures |r| >= 1 && r[|r| - 1] == 0xFF
    ensures r[..|r| - 1] == WithStr(s)
    ensures HasPtrRepr(s) ==> r == ToStr(s).value + [0xFF]
    ensures !HasPtrRepr(s) ==> Utf8.Decode(r[..|r| - 1]) == Some(TruncU32(s.utf8CodeUnitCount))
  {
    HashReading(s, CountField)
  }

  /** Two pointer-representation values with the same contents feed the hasher
      the same bytes, whatever their addresses or flags. */
  lemma HashPointerContents(a: StaticString, b: StaticString)
    requires HasPtrRepr(a) && HasPtrRepr(b) && Readable(a) && Readable(b)
    requires ToStr(a) == ToStr(b)
    ensures Hash(a) == Hash(b)
  {
  }

  /** As written, `Hash` agrees with `Eq` whenever at least one operand uses
      the pointer representation. */
  lemma HashAgreesWithEqUnlessBothScalar(a: StaticString, b: StaticString)
    requires WithStrDefined(a, CountField) && WithStrDefined(b, CountField)
    requires HasPtrRepr(a) || HasPtrRepr(b)
    requires Eq(a, b)
    ensures Hash(a) == Hash(b)
  {
  }

  /** As written, `Hash` breaks `Hash`'s rule that equal values hash alike
      when both operands use the scalar form: `eq` compares the data words,
      while `hash` encodes the scalar read from the count. */
  lemma HashDisagreesWithEqBothScalar(a: StaticString, b: StaticString)
    requires !HasPtrRepr(a) && !HasPtrRepr(b)
    requires WithStrDefined(a, CountField) && WithStrDefined(b, CountField)
    requires ScalarIn(a, DataField) == ScalarIn(b, DataField)
    requires ScalarIn(a, CountField) != ScalarIn(b, CountField)
    ensures Eq(a, b) && Hash(a) != Hash(b)
  {
  }

  /** A concrete pair: both data words hold U+0061, the counts 0x61 and 0x62. */
  lemma HashDisagreesWithEqExample()
    ensures var a, b := StaticString([], 0x61, 0x61, 1), StaticString([], 0x61, 0x62, 1);
      Eq(a, b) && Hash(a) == [0x61, 0xFF] && Hash(b) == [0x62, 0xFF]
  {
    assert Utf8.Encode(0x61) == [0x61];
    assert Utf8.Encode(0x62) == [0x62];
  }

  // ------------------------------------------- the NUL stored in the count

  /** Every constructor stores `s.len()`, which counts the trailing NUL: the
      text `with_str` yields ends in that NUL, and `to_str_with_nul`, which
      reads `count + 1` bytes, would read one byte past the slice. */
  lemma ConstructedCountIncludesNul(s: StaticSlice)
    requires FromStr(s).Some?
    ensures !ReadableWithNul(FromStr(s).value)
    ensures var text := WithStr(FromStr(s).value);
      text == s.bytes && text[|text| - 1] == 0
  {
  }

  lemma UncheckedCountIncludesNul(s: StaticSlice)
    ensures !ReadableWithNul(FromStrUnchecked(s))
    ensures !ReadableWithNul(FromAsciiUnchecked(s))
  {
  }

  /** The count Swift expects: the code units before the NUL terminator. */
  function CountedIntended(s: StaticSlice, flags: int8): (r: StaticString)
    requires IsNulTerminated(s.bytes)
    requires flags == 0 || flags == 2
    ensures HasPtrRepr(r) && ReadableWithNul(r)
    ensures ToStr(r) == Some(s.bytes[..|s.bytes| - 1]) && 0 !in ToStr(r).value
    ensures ToStrWithNul(r) == Some(s.bytes)
  {
    assert s.bytes[..|s.bytes|] == s.bytes;
    StaticString(s.bytes, s.addr, |s.bytes| - 1, flags)
  }

  /** `from_str` storing the count without the terminator. */
  function FromStrIntended(s: StaticSlice): (r: Option<StaticString>)
    ensures r.Some? <==> IsNulTerminated(s.bytes)
    ensures r.Some? ==> HasPtrRepr(r.value) && (IsAscii(r.value) <==> AllAscii(s.bytes))
    ensures r.Some? ==> ReadableWithNul(r.value)
    ensures r.Some? ==> WithStrWithNul(r.value) == s.bytes
    ensures r.Some? ==> WithStr(r.value) == s.bytes[..|s.bytes| - 1]
  {
    if !IsNulTerminated(s.bytes) then None
    else if AllAscii(s.bytes) then Some(CountedIntended(s, 2))
    else Some(CountedIntended(s, 0))
  }

  /** `from_ascii` storing the count without the terminator. */
  function FromAsciiIntended(s: StaticSlice): (r: Option<StaticString>)
    ensures r.Some? <==> IsNulTerminated(s.bytes) && AllAscii(s.bytes)
    ensures r.Some? ==> HasPtrRepr(r.value) && IsAscii(r.value)
    ensures r.Some? ==> ReadableWithNul(r.value)
    ensures r.Some? ==> WithStrWithNul(r.value) == s.bytes
    ensures r.Some? ==> WithStr(r.value) == s.bytes[..|s.bytes| - 1]
  {
    if IsNulTerminated(s.bytes) && AllAscii(s.bytes) then Some(CountedIntended(s, 2)) else None
  }

  /** The corrected count gives up the doc example of `from_ascii`, whose
      `with_str` text includes the NUL: it yields one byte fewer. */
  lemma IntendedDropsDocNul(s: StaticSlice)
    requires FromAsciiIntended(s).Some?
    ensures WithStr(FromAsciiIntended(s).value) != s.bytes
    ensures WithStr(FromAsciiIntended(s).value) + [0] == s.bytes
  {
    assert s.bytes == s.bytes[..|s.bytes| - 1] + [0];
  }

  // ------------------------------------------ where the scalar is stored

  /** Swift's layout of a scalar-representation value (`init(unicodeScalar:)`
      in the Swift standard library): the scalar in `start_ptr_or_data`, a
      zero count, flag bit 0 set and flag bit 1 set for an ASCII scalar. */
  function SwiftScalarString(v: int): (s: StaticString)
    requires Utf8.IsScalarValue(v)
    ensures !HasPtrRepr(s) && (IsAscii(s) <==> v < 0x80)
    ensures ScalarIn(s, DataField) == v && ScalarIn(s, CountField) == 0
  {
    StaticString([], v, 0, if v < 0x80 then 3 else 1)
  }

  /** Swift's layout of a pointer-representation value holding the same text:
      the count excludes the NUL terminator. */
  function SwiftPointerString(v: int, addr: nat): (s: StaticString)
    requires Utf8.IsScalarValue(v)
    ensures HasPtrRepr(s) && ReadableWithNul(s)
    ensures ToStr(s) == Some(Utf8.Encode(v))
  {
    var text := Utf8.Encode(v);
    assert (text + [0])[..|text|] == text;
    StaticString(text + [0], addr, |text|, if v < 0x80 then 2 else 0)
  }

  /** As written, `with_str`, `eq` and `cmp` read the scalar from
      `utf8_code_unit_count`. For a scalar stored the way Swift stores it,
      `with_str` yields a lone NUL, and the value is not equal to the pointer
      value holding the same text. */
  lemma ScalarReadFromCount(v: int, addr: nat)
    requires Utf8.IsScalarValue(v) && v != 0
    ensures WithStr(SwiftScalarString(v)) == [0] != Utf8.Encode(v)
    ensures !Eq(SwiftScalarString(v), SwiftPointerString(v, addr))
    ensures Cmp(SwiftScalarString(v), SwiftPointerString(v, addr)) == Less
  {
    var enc := Utf8.Encode(v);
    assert Utf8.Encode(0) == [0];
    assert enc != [0] by {
      Utf8.EncodeInjective(v, 0);
    }
    assert enc[0] in enc;
  }

  /** As written, `cmp` can order two scalar values that `with_str` shows as
      the same text. */
  lemma CmpDisagreesWithText()
    ensures var a, b := SwiftScalarString(0x61), SwiftScalarString(0x62);
      Cmp(a, b) == Less && WithStr(a) == WithStr(b)
  {
    assert Utf8.Encode(0) == [0];
  }

  /** `with_str` reading the scalar from `start_ptr_or_data`. */
  function WithStrIntended(s: StaticString): (r: seq<byte>)
    requires WithStrDefined(s, DataField)
    ensures HasPtrRepr(s) ==> Some(r) == ToStr(s)
    ensures !HasPtrRepr(s) ==> Utf8.Decode(r) == Some(TruncU32(s.startPtrOrData))
  {
    WithStrReading(s, DataField)
  }

  /** `eq` reading the scalar from `start_ptr_or_data` on every path. */
  function EqIntended(a: StaticString, b: StaticString): (r: bool)
    requires CmpDefined(a, b, DataField)
    ensures HasPtrRepr(a) && HasPtrRepr(b) ==> (r <==> ToStr(a) == ToStr(b))
  {
    EqReading(a, b, DataField)
  }

  /** `cmp` reading the scalar from `start_ptr_or_data` on every path. */
  function CmpIntended(a: StaticString, b: StaticString): (r: Ordering)
    requires CmpDefined(a, b, DataField)
    ensures HasPtrRepr(a) && HasPtrRepr(b) ==> r == LexCmp(ToStr(a).value, ToStr(b).value)
  {
    CmpReading(a, b, DataField)
  }

  /** `hash` reading the scalar from `start_ptr_or_data`. */
  function HashIntended(s: StaticString): (r: seq<byte>)
    requires WithStrDefined(s, DataField)
    ensures |r| >= 1 && r[|r| - 1] == 0xFF
    ensures r[..|r| - 1] == WithStrIntended(s)
    ensures HasPtrRepr(s) ==> r == ToStr(s).value + [0xFF]
    ensures !HasPtrRepr(s) ==> Utf8.Decode(r[..|r| - 1]) == Some(TruncU32(s.startPtrOrData))
  {
    HashReading(s, DataField)
  }

  /** Corrected, two values are equal exactly when they spell the same text,
      whatever their representations. */
  lemma EqIntendedIsSameText(a: StaticString, b: StaticString)
    requires WithStrDefined(a, DataField) && WithStrDefined(b, DataField)
    ensures EqIntended(a, b) <==> WithStrIntended(a) == WithStrIntended(b)
  {
    if !HasPtrRepr(a) && !HasPtrRepr(b) {
      Utf8.EncodeInjective(ScalarIn(a, DataField), ScalarIn(b, DataField));
    }
  }

  /** Corrected, equal values hash alike (the contract of `Hash` with `Eq`). */
  lemma HashIntendedAgreesWithEq(a: StaticString, b: StaticString)
    requires WithStrDefined(a, DataField) && WithStrDefined(b, DataField)
    requires EqIntended(a, b)
    ensures HashIntended(a) == HashIntended(b)
  {
    EqIntendedIsSameText(a, b);
  }

  /** Corrected, `cmp` is the byte order of the text in every combination of
      representations; the both-scalar shortcut is sound because UTF-8
      preserves code point order. */
  lemma CmpIntendedIsTextOrder(a: StaticString, b: StaticString)
    requires WithStrDefined(a, DataField) && WithStrDefined(b, DataField)
    ensures CmpIntended(a, b) == LexCmp(WithStrIntended(a), WithStrIntended(b))
  {
    if !HasPtrRepr(a) && !HasPtrRepr(b) {
      Utf8.EncodePreservesOrder(ScalarIn(a, DataField), ScalarIn(b, DataField));
    }
  }

  /** Corrected, the Swift-layout scalar and pointer values of one text compare equal. */
  lemma IntendedScalarMatchesPointer(v: int, addr: nat)
    requires Utf8.IsScalarValue(v)
    ensures WithStrIntended(SwiftScalarString(v)) == Utf8.Encode(v)
    ensures EqIntended(SwiftScalarString(v), SwiftPointerString(v, addr))
    ensures CmpIntended(SwiftScalarString(v), SwiftPointerString(v, addr)) == Equal
  {
    LexCmpEqualIff(Utf8.Encode(v), Utf8.Encode(v));
  }
}
