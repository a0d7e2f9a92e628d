/**
  Machine-level vocabulary shared by the model: bytes, fixed-width integers,
  `Option`, `Ordering`, and the lexicographic byte order that Rust's `str`
  and `[u8]` implement for `Ord`.
 */
module Primitives {

  newtype byte = x: int | 0 <= x < 0x100

  /** Rust's `i8`. */
  newtype int8 = x: int | -0x80 <= x < 0x80

  const U32_MODULUS: int := 0x1_0000_0000

  /** `x as u32` for a non-negative machine word: keeps the low 32 bits, the
      one value below 2^32 that differs from `x` by a multiple of 2^32. */
  function TruncU32(x: nat): (r: nat)
    ensures r < U32_MODULUS
    ensures (x - r) % U32_MODULUS == 0
    ensures x < U32_MODULUS ==> r == x
  {
    x % U32_MODULUS
  }

  /** Bit `k` of a two's-complement integer (`(x >> k) & 1`). Dafny's `/` and `%`
      are Euclidean, which for a positive divisor is floor division, i.e. an
      arithmetic shift. */
  function Bit(x: int, k: nat): (b: bool)
  {
    (x / Pow2(k)) % 2 == 1
  }

  function Pow2(k: nat): (r: nat)
    ensures r >= 1
  {
    if k == 0 then 1 else 2 * Pow2(k - 1)
  }

  datatype Option<+T> = None | Some(value: T)

  datatype Result<+T, +E> = Ok(value: T) | Err(error: E)

  function Max(a: int, b: int): (m: int)
    ensures m >= a && m >= b && (m == a || m == b)
  {
    if a >= b then a else b
  }

  /** `core::cmp::Ordering`. */
  datatype Ordering = Less | Equal | Greater {
    function Reverse(): (r: Ordering)
      ensures (r == Equal) <==> (this == Equal)
    {
      match this
      case Less => Greater
      case Equal => Equal
      case Greater => Less
    }
  }

  /** `Ord::cmp` on integers. */
  function CmpInt(a: int, b: int): (r: Ordering)
    ensures r == Less <==> a < b
    ensures r == Equal <==> a == b
    ensures r == Greater <==> a > b
  {
    if a < b then Less else if a == b then Equal else Greater
  }

  /** `Ord::cmp` on byte slices (and on `str`, which compares its bytes):
      the first differing byte decides, and a proper prefix is smaller. */
  function LexCmp(a: seq<byte>, b: seq<byte>): (r: Ordering)
    decreases |a|
  {
    if |a| == 0 then (if |b| == 0 then Equal else Less)
    else if |b| == 0 then Greater
    else if a[0] < b[0] then Less
    else if a[0] > b[0] then Greater
    else LexCmp(a[1..], b[1..])
  }

  /** The textbook definition of "a sorts strictly before b", independent of
      how `LexCmp` walks the slices. */
  ghost predicate LexLess(a: seq<byte>, b: seq<byte>)
  {
    || (|a| < |b| && a == b[..|a|])
    || (exists k :: 0 <= k < |a| && k < |b| && a[..k] == b[..k] && a[k] < b[k])
  }

  lemma {:induction false} LexCmpEqualIff(a: seq<byte>, b: seq<byte>)
    ensures LexCmp(a, b) == Equal <==> a == b
    decreases |a|
  {
    if |a| != 0 && |b| != 0 && a[0] == b[0] {
      LexCmpEqualIff(a[1..], b[1..]);
      if a[1..] == b[1..] {
        assert a == [a[0]] + a[1..] && b == [b[0]] + b[1..];
      }
    }
  }

  lemma {:induction false} LexCmpAntisymmetric(a: seq<byte>, b: seq<byte>)
    ensures LexCmp(b, a) == LexCmp(a, b).Reverse()
    decreases |a|
  {
    if |a| != 0 && |b| != 0 && a[0] == b[0] {
      LexCmpAntisymmetric(a[1..], b[1..]);
    }
  }

  lemma {:induction false} LexCmpLessIff(a: seq<byte>, b: seq<byte>)
    ensures LexCmp(a, b) == Less <==> LexLess(a, b)
    decreases |a|
  {
    if |a| == 0 {
      if |b| != 0 {
        assert a == b[..0];
      }
    } else if |b| == 0 {
    } else if a[0] < b[0] {
      assert a[..0] == b[..0];
    } else if a[0] > b[0] {
    } else {
      LexCmpLessIff(a[1..], b[1..]);
      LexLessTail(a, b);
    }
  }

  /** With equal heads, `LexLess` is decided by the tails. */
  lemma LexLessTail(a: seq<byte>, b: seq<byte>)
    requires |a| > 0 && |b| > 0 && a[0] == b[0]
    ensures LexLess(a, b) <==> LexLess(a[1..], b[1..])
  {
    var a', b' := a[1..], b[1..];
    if LexLess(a', b') {
      if |a'| < |b'| && a' == b'[..|a'|] {
        assert a == b[..|a|];
      } else {
        var k :| 0 <= k < |a'| && k < |b'| && a'[..k] == b'[..k] && a'[k] < b'[k];
        assert a[..k + 1] == [a[0]] + a'[..k];
        assert b[..k + 1] == [b[0]] + b'[..k];
        assert a[k + 1] < b[k + 1];
      }
    }
    if LexLess(a, b) {
      if |a| < |b| && a == b[..|a|] {
        assert a' == b'[..|a'|];
      } else {
        var k :| 0 <= k < |a| && k < |b| && a[..k] == b[..k] && a[k] < b[k];
        if k == 0 {
          assert false;
        } else {
          assert a'[..k - 1] == a[..k][1..];
          assert b'[..k - 1] == b[..k][1..];
          assert a'[k - 1] < b'[k - 1];
        }
      }
    }
  }
}
