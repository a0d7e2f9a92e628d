/**
  UTF-8 encoding of a single Unicode scalar value, as defined in section 3 of
  RFC 3629 and as performed by Rust's `char::encode_utf8`, together with the
  matching single-scalar decoder.
 */
module Utf8 {
  import opened Primitives

  /** A Unicode scalar value: a code point that is not a surrogate. */
  predicate IsScalarValue(v: int)
  {
    0 <= v <= 0x10FFFF && !(0xD800 <= v <= 0xDFFF)
  }

  predicate IsContinuation(b: byte)
  {
    0x80 <= b <= 0xBF
  }

  /** Number of octets RFC 3629 assigns to a scalar value (the table in section 3). */
  function EncodedLength(v: int): (n: nat)
    requires IsScalarValue(v)
  {
    if v < 0x80 then 1 else if v < 0x800 then 2 else if v < 0x10000 then 3 else 4
  }

  /** `char::encode_utf8`: the scalar's bits are spread over a lead octet and
      zero to three continuation octets of six bits each. */
  function Encode(v: int): (r: seq<byte>)
    requires IsScalarValue(v)
    ensures |r| == EncodedLength(v)
    ensures 1 <= |r| <= 4
    ensures forall i :: 1 <= i < |r| ==> IsContinuation(r[i])
    ensures 0 in r <==> v == 0
  {
    if v < 0x80 then
      [v as byte]
    else if v < 0x800 then
      [(0xC0 + v / 0x40) as byte, (0x80 + v % 0x40) as byte]
    else if v < 0x10000 then
      [(0xE0 + v / 0x1000) as byte, (0x80 + (v / 0x40) % 0x40) as byte, (0x80 + v % 0x40) as byte]
    else
      [(0xF0 + v / 0x40000) as byte, (0x80 + (v / 0x1000) % 0x40) as byte,
       (0x80 + (v / 0x40) % 0x40) as byte, (0x80 + v % 0x40) as byte]
  }

  /** Decodes a byte string that must hold exactly one well-formed UTF-8
      character (the `UTF8-char` rule of section 4 of RFC 3629): overlong
      forms, surrogates and values above U+10FFFF are rejected. */
  function Decode(s: seq<byte>): (r: Option<int>)
    ensures r.Some? ==> IsScalarValue(r.value)
  {
    if |s| == 1 && s[0] < 0x80 then
      Some(s[0] as int)
    else if |s| == 2 && 0xC2 <= s[0] <= 0xDF && IsContinuation(s[1]) then
      Some((s[0] as int - 0xC0) * 0x40 + (s[1] as int - 0x80))
    else if |s| == 3 && 0xE0 <= s[0] <= 0xEF && IsContinuation(s[1]) && IsContinuation(s[2]) then
      var v := (s[0] as int - 0xE0) * 0x1000 + (s[1] as int - 0x80) * 0x40 + (s[2] as int - 0x80);
      if 0x800 <= v && !(0xD800 <= v <= 0xDFFF) then Some(v) else None
    else if |s| == 4 && 0xF0 <= s[0] <= 0xF4 && IsContinuation(s[1]) && IsContinuation(s[2])
                     && IsContinuation(s[3]) then
      var v := (s[0] as int - 0xF0) * 0x40000 + (s[1] as int - 0x80) * 0x1000
               + (s[2] as int - 0x80) * 0x40 + (s[3] as int - 0x80);
      if 0x10000 <= v <= 0x10FFFF then Some(v) else None
    else
      None
  }

  /** Decoding undoes encoding. */
  lemma DecodeEncode(v: int)
    requires IsScalarValue(v)
    ensures Decode(Encode(v)) == Some(v)
  {
    if v < 0x80 {
    } else if v < 0x800 {
      DecodeEncode2(v);
    } else if v < 0x10000 {
      DecodeEncode3(v);
    } else {
      DecodeEncode4(v);
    }
  }

  lemma DecodeEncode2(v: int)
    requires 0x80 <= v < 0x800
    ensures Decode(Encode(v)) == Some(v)
  {
    SixBitDigits(v);
  }

  lemma DecodeEncode3(v: int)
    requires IsScalarValue(v) && 0x800 <= v < 0x10000
    ensures Decode(Encode(v)) == Some(v)
  {
    SixBitDigits(v);
    SixBitDigits(v / 0x40);
    assert v / 0x40 / 0x40 == v / 0x1000;
  }

  lemma DecodeEncode4(v: int)
    requires IsScalarValue(v) && 0x10000 <= v
    ensures Decode(Encode(v)) == Some(v)
  {
    SixBitDigits(v);
    SixBitDigits(v / 0x40);
    SixBitDigits(v / 0x1000);
    assert v / 0x40 / 0x40 == v / 0x1000;
    assert v / 0x1000 / 0x40 == v / 0x40000;
  }

  /** Encoding undoes decoding: the encoder hits every well-formed character. */
  lemma EncodeDecode(s: seq<byte>)
    requires Decode(s).Some?
    ensures Encode(Decode(s).value) == s
  {
    var v := Decode(s).value;
    if |s| == 1 {
    } else if |s| == 2 {
      Digits2(s[0] as int - 0xC0, s[1] as int - 0x80);
    } else if |s| == 3 {
      Digits3(s[0] as int - 0xE0, s[1] as int - 0x80, s[2] as int - 0x80);
    } else {
      Digits4(s[0] as int - 0xF0, s[1] as int - 0x80, s[2] as int - 0x80, s[3] as int - 0x80);
    }
  }

  lemma SixBitDigits(v: int)
    requires 0 <= v
    ensures v == (v / 0x40) * 0x40 + v % 0x40
  {
  }

  lemma Digits2(a: int, b: int)
    requires 0 <= b < 0x40 && 0 <= a
    ensures (a * 0x40 + b) / 0x40 == a && (a * 0x40 + b) % 0x40 == b
  {
  }

  lemma Digits3(a: int, b: int, c: int)
    requires 0 <= a && 0 <= b < 0x40 && 0 <= c < 0x40
    ensures var v := a * 0x1000 + b * 0x40 + c;
      v / 0x1000 == a && (v / 0x40) % 0x40 == b && v % 0x40 == c
  {
    Digits2(a * 0x40 + b, c);
    Digits2(a, b);
  }

  lemma Digits4(a: int, b: int, c: int, d: int)
    requires 0 <= a && 0 <= b < 0x40 && 0 <= c < 0x40 && 0 <= d < 0x40
    ensures var v := a * 0x40000 + b * 0x1000 + c * 0x40 + d;
      v / 0x40000 == a && (v / 0x1000) % 0x40 == b && (v / 0x40) % 0x40 == c && v % 0x40 == d
  {
    Digits3(a * 0x40 + b, c, d);
    Digits2(a, b);
    var v := a * 0x40000 + b * 0x1000 + c * 0x40 + d;
    assert v / 0x1000 == a * 0x40 + b;
  }

  /** Distinct scalars have distinct encodings. */
  lemma EncodeInjective(v: int, w: int)
    requires IsScalarValue(v) && IsScalarValue(w)
    ensures Encode(v) == Encode(w) <==> v == w
  {
    if Encode(v) == Encode(w) {
      DecodeEncode(v);
      DecodeEncode(w);
    }
  }

  // ------------------------------------------------------ order preservation

  function Pow64(n: nat): (r: nat)
    ensures r >= 1
  {
    if n == 0 then 1 else 0x40 * Pow64(n - 1)
  }

  /** The number spelled by a run of continuation octets, six bits per octet,
      most significant first. */
  function ContValue(t: seq<byte>): (r: int)
    requires forall i :: 0 <= i < |t| ==> IsContinuation(t[i])
  {
    if |t| == 0 then 0 else (t[0] as int - 0x80) * Pow64(|t| - 1) + ContValue(t[1..])
  }

  lemma {:induction false} ContValueBound(t: seq<byte>)
    requires forall i :: 0 <= i < |t| ==> IsContinuation(t[i])
    ensures 0 <= ContValue(t) < Pow64(|t|)
  {
    if |t| > 0 {
      ContValueBound(t[1..]);
      var p := Pow64(|t| - 1);
      var d := t[0] as int - 0x80;
      assert ContValue(t) == d * p + ContValue(t[1..]);
      assert Pow64(|t|) == 0x40 * p;
      MulMonotone(d, 0x3F, p);
    }
  }

  /** Over continuation octets of one length, byte order is numeric order. */
  lemma {:induction false} ContOrder(t: seq<byte>, u: seq<byte>)
    requires |t| == |u|
    requires forall i :: 0 <= i < |t| ==> IsContinuation(t[i])
    requires forall i :: 0 <= i < |u| ==> IsContinuation(u[i])
    ensures LexCmp(t, u) == CmpInt(ContValue(t), ContValue(u))
  {
    if |t| > 0 {
      var p := Pow64(|t| - 1);
      var d, e := t[0] as int - 0x80, u[0] as int - 0x80;
      var r, s := ContValue(t[1..]), ContValue(u[1..]);
      assert ContValue(t) == d * p + r;
      assert ContValue(u) == e * p + s;
      ContValueBound(t[1..]);
      ContValueBound(u[1..]);
      if d == e {
        ContOrder(t[1..], u[1..]);
      } else if d < e {
        DigitOrder(d, e, p, r, s);
      } else {
        DigitOrder(e, d, p, s, r);
      }
    }
  }

  /** A smaller leading digit wins, whatever the lower digits are. */
  lemma DigitOrder(d: int, e: int, p: int, r: int, s: int)
    requires d < e && 0 <= r < p && 0 <= s < p
    ensures d * p + r < e * p + s
  {
    var k := e - d;
    assert e * p == d * p + k * p;
    MulAtLeast(k, p);
  }

  lemma MulMonotone(a: int, b: int, p: int)
    requires 0 <= a <= b && 0 <= p
    ensures 0 <= a * p <= b * p
  {
    if a < b {
      MulAtLeast(b - a, p);
      assert b * p == a * p + (b - a) * p;
    }
    if a > 0 {
      MulAtLeast(a, p);
    }
  }

  lemma {:induction false} MulAtLeast(k: int, p: int)
    requires k >= 1 && p >= 0
    ensures k * p >= p
    decreases k
  {
    if k > 1 {
      MulAtLeast(k - 1, p);
      assert k * p == (k - 1) * p + p;
    }
  }

  /** The lead octet of an encoding: its marker bits, then the quotient of the
      scalar by the weight of the continuation octets; those carry the rest. */
  function LeadBase(n: nat): (b: int)
  {
    if n == 1 then 0 else if n == 2 then 0xC0 else if n == 3 then 0xE0 else 0xF0
  }

  lemma EncodeSplit(v: int)
    requires IsScalarValue(v)
    ensures var x, n := Encode(v), EncodedLength(v);
      && x[0] as int == LeadBase(n) + v / Pow64(n - 1)
      && ContValue(x[1..]) == v % Pow64(n - 1)
  {
    var x := Encode(v);
    if v < 0x80 {
    } else if v < 0x800 {
      assert Pow64(1) == 0x40;
      ContValue1(x[1..]);
    } else if v < 0x10000 {
      assert Pow64(2) == 0x1000 by { assert Pow64(1) == 0x40; }
      ContValue2(x[1..]);
      Digits3(v / 0x1000, (v / 0x40) % 0x40, v % 0x40);
      Recompose3(v);
    } else {
      assert Pow64(3) == 0x40000 by { assert Pow64(2) == 0x1000 by { assert Pow64(1) == 0x40; } }
      ContValue3(x[1..]);
      Recompose4(v);
    }
  }

  lemma ContValue1(t: seq<byte>)
    requires |t| == 1 && IsContinuation(t[0])
    ensures ContValue(t) == t[0] as int - 0x80
  {
    assert ContValue(t[1..]) == 0;
  }

  lemma ContValue2(t: seq<byte>)
    requires |t| == 2 && IsContinuation(t[0]) && IsContinuation(t[1])
    ensures ContValue(t) == (t[0] as int - 0x80) * 0x40 + (t[1] as int - 0x80)
  {
    ContValue1(t[1..]);
    assert Pow64(1) == 0x40;
  }

  lemma ContValue3(t: seq<byte>)
    requires |t| == 3 && IsContinuation(t[0]) && IsContinuation(t[1]) && IsContinuation(t[2])
    ensures ContValue(t) == (t[0] as int - 0x80) * 0x1000 + (t[1] as int - 0x80) * 0x40
                            + (t[2] as int - 0x80)
  {
    ContValue2(t[1..]);
    assert Pow64(2) == 0x1000 by { assert Pow64(1) == 0x40; }
  }

  /** The low twelve bits of `v` are its two lowest six-bit digits. */
  lemma Recompose3(v: int)
    requires 0 <= v
    ensures v % 0x1000 == ((v / 0x40) % 0x40) * 0x40 + v % 0x40
  {
    var q, low := v / 0x1000, v % 0x1000;
    assert v == q * 0x1000 + low;
    SixBitDigits(low);
    var a, b := q * 0x40 + low / 0x40, low % 0x40;
    assert a * 0x40 + b == v;
    Digits2(a, b);
    Digits2(q, low / 0x40);
  }

  /** The low eighteen bits of `v` are its three lowest six-bit digits. */
  lemma Recompose4(v: int)
    requires 0 <= v
    ensures v % 0x40000 == ((v / 0x1000) % 0x40) * 0x1000 + ((v / 0x40) % 0x40) * 0x40 + v % 0x40
  {
    var q := v / 0x40000;
    var low := v % 0x40000;
    assert v == q * 0x40000 + low;
    Recompose3(low);
    var b, c, d := low / 0x1000, (low / 0x40) % 0x40, low % 0x40;
    assert low == b * 0x1000 + c * 0x40 + d;
    Digits4(q, b, c, d);
  }

  /** Section 1 of RFC 3629 notes that byte-wise comparison of UTF-8 strings
      sorts them in code point order: for single scalars, `LexCmp` of the
      encodings is the comparison of the scalars. */
  lemma EncodePreservesOrder(v: int, w: int)
    requires IsScalarValue(v) && IsScalarValue(w)
    ensures LexCmp(Encode(v), Encode(w)) == CmpInt(v, w)
  {
    if EncodedLength(v) == EncodedLength(w) {
      SameLengthOrder(v, w);
    } else {
      LeadOctetRange(v);
      LeadOctetRange(w);
      LexCmpStep(Encode(v), Encode(w));
    }
  }

  /** Two encodings of one length: the lead octets compare the high digits,
      and on a tie the continuation octets compare the rest. */
  lemma SameLengthOrder(v: int, w: int)
    requires IsScalarValue(v) && IsScalarValue(w)
    requires EncodedLength(v) == EncodedLength(w)
    ensures LexCmp(Encode(v), Encode(w)) == CmpInt(v, w)
  {
    var x, y := Encode(v), Encode(w);
    EncodeSplit(v);
    EncodeSplit(w);
    DigitsOrder(x, y, v, w, Pow64(EncodedLength(v) - 1));
  }

  /** Byte strings that spell `v` and `w` as a lead digit over `p` followed by
      continuation octets for the remainder compare as `v` and `w` do. */
  lemma DigitsOrder(x: seq<byte>, y: seq<byte>, v: int, w: int, p: int)
    requires |x| == |y| > 0 && p >= 1 && v >= 0 && w >= 0
    requires forall i :: 1 <= i < |x| ==> IsContinuation(x[i])
    requires forall i :: 1 <= i < |y| ==> IsContinuation(y[i])
    requires x[0] as int - y[0] as int == v / p - w / p
    requires ContValue(x[1..]) == v % p && ContValue(y[1..]) == w % p
    ensures LexCmp(x, y) == CmpInt(v, w)
  {
    LexCmpStep(x, y);
    var qv, qw, rv, rw := v / p, w / p, v % p, w % p;
    DivMod(v, p);
    DivMod(w, p);
    if qv == qw {
      ContOrder(x[1..], y[1..]);
    } else if qv < qw {
      DigitOrder(qv, qw, p, rv, rw);
    } else {
      DigitOrder(qw, qv, p, rw, rv);
    }
  }

  lemma DivMod(v: int, p: int)
    requires p >= 1
    ensures v == (v / p) * p + v % p && 0 <= v % p < p
  {
  }

  /** One step of `LexCmp` on non-empty operands. */
  lemma LexCmpStep(a: seq<byte>, b: seq<byte>)
    requires |a| > 0 && |b| > 0
    ensures a[0] != b[0] ==> LexCmp(a, b) == CmpInt(a[0] as int, b[0] as int)
    ensures a[0] == b[0] ==> LexCmp(a, b) == LexCmp(a[1..], b[1..])
  {
  }

  /** The lead-octet ranges of the table in section 4 of RFC 3629: they are
      disjoint and increase with the length of the encoding. */
  lemma LeadOctetRange(v: int)
    requires IsScalarValue(v)
    ensures var x := Encode(v);
      && (EncodedLength(v) == 1 ==> x[0] < 0x80)
      && (EncodedLength(v) == 2 ==> 0xC2 <= x[0] <= 0xDF)
      && (EncodedLength(v) == 3 ==> 0xE0 <= x[0] <= 0xEF)
      && (EncodedLength(v) == 4 ==> 0xF0 <= x[0] <= 0xF4)
  {
  }
}
