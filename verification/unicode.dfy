/**
  `UnicodeScalar` (swift/src/unicode.rs): a transparent wrapper around a Rust
  `char` with derived equality and ordering. Dafny's `char` is likewise a
  Unicode scalar value, so the wrapper holds one directly.
 */
module Unicode {
  import opened Primitives
  import Utf8

  datatype UnicodeScalar = UnicodeScalar(ch: char)

  /** `UnicodeScalar::from_char`. */
  function FromChar(c: char): (u: UnicodeScalar)
    ensures Value(u) == c as int
  {
    UnicodeScalar(c)
  }

  /** `UnicodeScalar::into_char`. */
  function IntoChar(u: UnicodeScalar): (c: char)
    ensures FromChar(c) == u
  {
    u.ch
  }

  /** `UnicodeScalar::value`: the code point as a `u32`. */
  function Value(u: UnicodeScalar): (v: nat)
    ensures v < U32_MODULUS
    ensures Utf8.IsScalarValue(v)
  {
    u.ch as nat
  }

  /** `UnicodeScalar::is_ascii`, which defers to `char::is_ascii`: the character
      sorts below U+0080. */
  predicate IsAscii(u: UnicodeScalar)
  {
    u.ch < '\U{0080}'
  }

  /** The derived `Ord`: compares the wrapped `char`s. */
  function Cmp(a: UnicodeScalar, b: UnicodeScalar): (r: Ordering)
  {
    if a.ch < b.ch then Less else if a.ch == b.ch then Equal else Greater
  }

  /** `into_char` undoes `from_char`. */
  lemma IntoFromChar(c: char)
    ensures IntoChar(FromChar(c)) == c
  {
  }

  /** Every `char` is a scalar value, and every scalar value is reached by `value()`. */
  lemma ValueIsScalar(u: UnicodeScalar)
    ensures Value(u) <= 0x10FFFF
    ensures !(0xD800 <= Value(u) <= 0xDFFF)
  {
  }

  lemma ValueSurjective(v: int)
    requires Utf8.IsScalarValue(v)
    ensures exists u :: Value(u) == v
  {
    assert Value(UnicodeScalar(v as char)) == v;
  }

  lemma IsAsciiIff(u: UnicodeScalar)
    ensures IsAscii(u) <==> Value(u) <= 0x7F
  {
  }

  /** The derived ordering and equality coincide with those of `value()`. */
  lemma CmpIsValueOrder(a: UnicodeScalar, b: UnicodeScalar)
    ensures Cmp(a, b) == CmpInt(Value(a), Value(b))
    ensures a == b <==> Value(a) == Value(b)
  {
  }

  /** The ASCII scalars are exactly those whose UTF-8 form is one octet. */
  lemma IsAsciiIffOneOctet(u: UnicodeScalar)
    ensures IsAscii(u) <==> |Utf8.Encode(Value(u))| == 1
  {
  }
}
