/**
  Demangling into a reusable buffer (swift-rt/src/sym.rs). The foreign
  `swift_demangle` is a parameter: a function from a symbol to its demangled
  text, or `None` when the symbol is not a Swift mangled name.
 */
module Demangling {
  import opened Primitives

  /** `Vec<u8>`: the initialised bytes and the allocated capacity. */
  datatype Vec = Vec(contents: seq<byte>, capacity: nat)

  predicate Valid(v: Vec)
  {
    |v.contents| <= v.capacity
  }

  /** `RawVec`'s smallest non-zero capacity for one-byte elements. */
  const MIN_NON_ZERO_CAP: nat := 8

  /** `Vec::reserve(additional)`: nothing happens when `additional` more bytes
      already fit after the current length; otherwise the buffer grows
      amortized, to at least twice its capacity. */
  function Reserve(v: Vec, additional: nat): (r: Vec)
    requires Valid(v)
    ensures Valid(r) && r.contents == v.contents
    ensures r.capacity >= |v.contents| + additional && r.capacity >= v.capacity
    ensures v.capacity - |v.contents| >= additional ==> r == v
  {
    if v.capacity - |v.contents| >= additional then v
    else Vec(v.contents, Max(Max(2 * v.capacity, |v.contents| + additional), MIN_NON_ZERO_CAP))
  }

  /** `DemangleError`. */
  datatype DemangleError = DemangleError

  /** What `swift_demangle` makes of a symbol. */
  type Demangler = seq<byte> -> Option<seq<byte>>

  /** The observable outcome of one `swift_demangle` call: whether it returned
      non-null, the bytes it wrote to the output buffer, and the value it left
      in `*outputBufferSize`. */
  datatype DemangleCall = DemangleCall(nonNull: bool, written: seq<byte>, size: nat)

  /** One call of `swift_demangle` with an output buffer of `size` bytes, as
      its doc comment describes it: null for a name that is not mangled;
      otherwise the demangled name, truncated to the buffer, and the size the
      buffer should have. */
  function SwiftDemangle(demangle: Demangler, symbol: seq<byte>, size: nat): (c: DemangleCall)
    ensures c.nonNull <==> demangle(symbol).Some?
    ensures c.nonNull ==> c.size == |demangle(symbol).value|
    ensures c.nonNull ==> c.written <= demangle(symbol).value && |c.written| == Min(size, c.size)
    ensures !c.nonNull ==> c.written == [] && c.size == size
  {
    match demangle(symbol)
    case None => DemangleCall(false, [], size)
    case Some(text) => DemangleCall(true, text[..Min(size, |text|)], |text|)
  }

  function Min(a: nat, b: nat): (m: nat)
    ensures m <= a && m <= b && (m == a || m == b)
  {
    if a <= b then a else b
  }

  /** The reservation `demangle_into` makes once it knows the demangled
      length, as written: `reserve(demangled_len - rem_capacity)`. */
  function ReserveAsWritten(buffer: Vec, demangledLen: nat): (r: Vec)
    requires Valid(buffer)
    ensures Valid(r) && r.contents == buffer.contents
  {
    var remCapacity := buffer.capacity - |buffer.contents|;
    if remCapacity < demangledLen then Reserve(buffer, demangledLen - remCapacity) else buffer
  }

  /** `reserve` counts from the length, not from the capacity, so the
      reservation as written falls short of `old_len + demangled_len`, and
      `set_len` then runs past the allocation, exactly when the spare capacity
      is short and either covers half the name (nothing is reserved) or is
      non-zero while the amortized growth stays below the total (the growth
      is `rem_capacity` bytes too small). */
  lemma AsWrittenReserveFallsShort(buffer: Vec, demangledLen: nat)
    requires Valid(buffer)
    ensures var len, rem := |buffer.contents|, buffer.capacity - |buffer.contents|;
      ReserveAsWritten(buffer, demangledLen).capacity < len + demangledLen
      <==> rem < demangledLen
           && (demangledLen <= 2 * rem
               || (0 < rem && 2 * buffer.capacity < len + demangledLen
                   && MIN_NON_ZERO_CAP < len + demangledLen))
  {
  }

  /** Concrete cases: five bytes in a ten-byte buffer and an eight-byte name
      (no growth), and nine bytes in a ten-byte buffer and a 100-byte name
      (`reserve(99)` grows it to 108 where 109 are set). */
  lemma AsWrittenReserveExample()
    ensures var b := Vec([1, 2, 3, 4, 5], 10);
      ReserveAsWritten(b, 8) == b && b.capacity < |b.contents| + 8
    ensures var b := Vec([1, 2, 3, 4, 5, 6, 7, 8, 9], 10);
      ReserveAsWritten(b, 100) == Reserve(b, 99)
      && ReserveAsWritten(b, 100).capacity == 108 < |b.contents| + 100
  {
  }

  /** With no spare capacity, as in `demangle`'s fresh buffer, the reservation
      as written is the intended one. */
  lemma AsWrittenReserveFromFull(buffer: Vec, demangledLen: nat)
    requires Valid(buffer) && buffer.capacity == |buffer.contents|
    ensures ReserveAsWritten(buffer, demangledLen) == ReserveIntended(buffer, demangledLen)
  {
  }

  /** The reservation with `reserve(demangled_len)`: room for the whole name. */
  function ReserveIntended(buffer: Vec, demangledLen: nat): (r: Vec)
    requires Valid(buffer)
    ensures Valid(r) && r.contents == buffer.contents
    ensures r.capacity >= |buffer.contents| + demangledLen
    ensures r.capacity != buffer.capacity ==> buffer.capacity - |buffer.contents| < demangledLen
  {
    var remCapacity := buffer.capacity - |buffer.contents|;
    if remCapacity < demangledLen then Reserve(buffer, demangledLen) else buffer
  }

  /** `demangle_into`: probes the demangled length with an empty output
      buffer, grows `buffer` only when its spare capacity is short, then
      demangles into the bytes after the existing contents and returns them.
      The reservation is the corrected one (`ReserveIntended`). */
  method DemangleInto(demangle: Demangler, symbol: seq<byte>, buffer: Vec)
    returns (buffer': Vec, r: Result<seq<byte>, DemangleError>)
    requires Valid(buffer)
    ensures Valid(buffer')
    ensures r.Err? <==> demangle(symbol).None?
    ensures r.Err? ==> buffer' == buffer
    ensures r.Ok? ==> var text := demangle(symbol).value;
      && |buffer'.contents| == |buffer.contents| + |text|
      && buffer'.contents[..|buffer.contents|] == buffer.contents
      && buffer'.contents[|buffer.contents|..] == text
      && r.value == text
      && buffer'.capacity >= |buffer.contents| + |text|
    ensures buffer'.capacity >= buffer.capacity
    ensures buffer'.capacity != buffer.capacity ==>
              r.Ok? && buffer.capacity - |buffer.contents| < |r.value|
  {
    var oldLen := |buffer.contents|;
    var remCapacity := buffer.capacity - oldLen;

    // Get the demangled length.
    var probe := SwiftDemangle(demangle, symbol, 0);
    if !probe.nonNull {
      return buffer, Err(DemangleError);
    }
    var demangledLen := probe.size;

    buffer' := ReserveIntended(buffer, demangledLen);

    // `set_len(old_len + demangled_len)`, whose safety condition is that the
    // new length fits the capacity; the second call fills exactly the new bytes.
    var totalLen := oldLen + demangledLen;
    assert totalLen <= buffer'.capacity;
    var fill := SwiftDemangle(demangle, symbol, demangledLen);
    assert |fill.written| == demangledLen;
    buffer' := Vec(buffer'.contents + fill.written, buffer'.capacity);

    r := Ok(buffer'.contents[oldLen..]);
  }

  /** `demangle`: demangles into a fresh, empty `String`. */
  method Demangle(demangle: Demangler, symbol: seq<byte>) returns (r: Result<seq<byte>, DemangleError>)
    ensures r.Err? <==> demangle(symbol).None?
    ensures r.Ok? ==> r.value == demangle(symbol).value
  {
    var buf, res := DemangleInto(demangle, symbol, Vec([], 0));
    match res
    case Err(e) =>
      return Err(e);
    case Ok(_) =>
      return Ok(buf.contents);
  }
}
