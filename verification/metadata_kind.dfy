/**
  `MetadataKind` (swift-sys/src/metadata/kind.rs): the `u32` tag at the start
  of every Swift metadata record, its flag bits, the named kinds and the
  predicates over them.
 */
module MetadataKinds {

  datatype MetadataKind = MetadataKind(raw: bv32)

  const NON_TYPE_FLAG: bv32 := 0x400
  const NON_HEAP_FLAG: bv32 := 0x200
  /** Written in decimal in the source, unlike the other two flags. */
  const RUNTIME_PRIVATE_FLAG: bv32 := 100
  /** The value `MetadataKindIsRuntimePrivate` has in Swift's `MetadataKind.def`. */
  const INTENDED_RUNTIME_PRIVATE_FLAG: bv32 := 0x100

  /** The largest kind that is not an isa pointer. */
  const LAST_ENUMERATED: MetadataKind := MetadataKind(0x7FF)

  /** The named kinds the `kinds!` invocation declares, in source order. */
  datatype Named =
    | Class | Struct | Enum | Optional | ForeignClass
    | Opaque | Tuple | Function | Existential | Metatype
    | ObjcClassWrapper | ExistentialMetatype
    | HeapLocalVariable | HeapGenericLocalVariable | ErrorObject

  /** The constant expressions of the `kinds!` invocation, with the
      runtime-private flag as a parameter. */
  function ValueWith(n: Named, runtimePrivate: bv32): MetadataKind
  {
    match n
    case Class => MetadataKind(0)
    case Struct => MetadataKind(0 | NON_HEAP_FLAG)
    case Enum => MetadataKind(1 | NON_HEAP_FLAG)
    case Optional => MetadataKind(2 | NON_HEAP_FLAG)
    case ForeignClass => MetadataKind(3 | NON_HEAP_FLAG)
    case Opaque => MetadataKind(0 | runtimePrivate | NON_HEAP_FLAG)
    case Tuple => MetadataKind(1 | runtimePrivate | NON_HEAP_FLAG)
    case Function => MetadataKind(2 | runtimePrivate | NON_HEAP_FLAG)
    case Existential => MetadataKind(3 | runtimePrivate | NON_HEAP_FLAG)
    case Metatype => MetadataKind(4 | runtimePrivate | NON_HEAP_FLAG)
    case ObjcClassWrapper => MetadataKind(5 | runtimePrivate | NON_HEAP_FLAG)
    case ExistentialMetatype => MetadataKind(6 | runtimePrivate | NON_HEAP_FLAG)
    case HeapLocalVariable => MetadataKind(0 | NON_TYPE_FLAG)
    case HeapGenericLocalVariable => MetadataKind(0 | NON_TYPE_FLAG | runtimePrivate)
    case ErrorObject => MetadataKind(1 | NON_TYPE_FLAG | runtimePrivate)
  }

  /** The named constants as written (`RUNTIME_PRIVATE_FLAG = 100`). */
  function Value(n: Named): MetadataKind
  {
    ValueWith(n, RUNTIME_PRIVATE_FLAG)
  }

  /** The named constants with the flag Swift defines (0x100). */
  function ValueIntended(n: Named): MetadataKind
  {
    ValueWith(n, INTENDED_RUNTIME_PRIVATE_FLAG)
  }

  /** Which constants the source builds with the runtime-private flag. */
  predicate BuiltWithRuntimePrivateFlag(n: Named)
  {
    n in {Opaque, Tuple, Function, Existential, Metatype, ObjcClassWrapper,
          ExistentialMetatype, HeapGenericLocalVariable, ErrorObject}
  }

  /** Which constants the source builds with the non-type flag. */
  predicate BuiltWithNonTypeFlag(n: Named)
  {
    n in {HeapLocalVariable, HeapGenericLocalVariable, ErrorObject}
  }

  // ------------------------------------------------------------ predicates

  /** The generated `is_class`, `is_struct`, ...: equality with one constant. */
  predicate Is(k: MetadataKind, n: Named)
  {
    k.raw == Value(n).raw
  }

  /** `is_type`. */
  predicate IsType(k: MetadataKind)
  {
    k.raw & NON_TYPE_FLAG == 0
  }

  /** `is_nominal_type`. */
  predicate IsNominalType(k: MetadataKind)
  {
    Is(k, Class) || Is(k, Struct) || Is(k, Enum) || Is(k, Optional)
  }

  /** `is_runtime_private`. */
  predicate IsRuntimePrivate(k: MetadataKind)
  {
    k.raw & RUNTIME_PRIVATE_FLAG != 0
  }

  /** `is_isa_ptr`. */
  predicate IsIsaPtr(k: MetadataKind)
  {
    k.raw > LAST_ENUMERATED.raw
  }

  /** `to_isa_ptr`: the raw value as an address, or null (0). */
  function ToIsaPtr(k: MetadataKind): (p: nat)
    ensures p == 0 <==> !IsIsaPtr(k)
    ensures p != 0 ==> p == k.raw as nat && p > 0x7FF
  {
    if IsIsaPtr(k) then k.raw as nat else 0
  }

  // ---------------------------------------------------------------- lemmas

  /** `is_type` tests bit 10 (value 0x400) of the kind: a kind is a type
      when its remainder modulo 0x800 is below 0x400. */
  lemma IsTypeIsBit10Clear(k: MetadataKind)
    ensures IsType(k) <==> k.raw % 0x800 < 0x400
    ensures IsType(k) <==> (k.raw >> 10) & 1 == 0
  {
  }

  /** Exactly the heap-local-variable and error-object kinds are not types. */
  lemma NamedKindsThatAreTypes(n: Named)
    ensures IsType(Value(n)) <==> !BuiltWithNonTypeFlag(n)
    ensures IsType(ValueIntended(n)) <==> !BuiltWithNonTypeFlag(n)
  {
  }

  /** `is_isa_ptr` is the unsigned comparison with 0x7FF, and no named kind is one. */
  lemma IsaPtrBound(k: MetadataKind, n: Named)
    ensures IsIsaPtr(k) <==> k.raw as int > 0x7FF
    ensures !IsIsaPtr(Value(n)) && ToIsaPtr(Value(n)) == 0
    ensures !IsIsaPtr(ValueIntended(n))
  {
  }

  /** The nominal kinds are exactly class, struct, enum and optional. */
  lemma NominalTypeIff(k: MetadataKind)
    ensures IsNominalType(k) <==> k.raw in {0x000, 0x200, 0x201, 0x202}
    ensures IsNominalType(k) <==> exists n :: n in {Class, Struct, Enum, Optional} && k == Value(n)
  {
    if IsNominalType(k) {
      if Is(k, Class) {
        assert k == Value(Class);
      } else if Is(k, Struct) {
        assert k == Value(Struct);
      } else if Is(k, Enum) {
        assert k == Value(Enum);
      } else {
        assert k == Value(Optional);
      }
    }
  }

  /** Each generated `is_X` recognises its own constant. */
  lemma IsRecognisesOwnConstant(n: Named)
    ensures Is(Value(n), n)
  {
  }

  /** `is_runtime_private` holds of exactly the constants built with the
      runtime-private flag. */
  lemma RuntimePrivateConstants(n: Named)
    ensures IsRuntimePrivate(Value(n)) <==> BuiltWithRuntimePrivateFlag(n)
  {
  }

  // ----------------------------------------- the decimal runtime-private flag

  /** As written, 100 = 0x64 shares bit 2 with the low "4" of METATYPE and the
      "5", "6" of the two kinds after it, so three pairs of named kinds collide,
      and `is_metatype` answers true for OPAQUE. */
  lemma NamedKindsCollide()
    ensures Value(Opaque) == Value(Metatype)
    ensures Value(Tuple) == Value(ObjcClassWrapper)
    ensures Value(Function) == Value(ExistentialMetatype)
    ensures Is(Value(Opaque), Metatype) && Is(Value(Metatype), Opaque)
  {
  }

  /** The generated `is_X` over the constants Swift defines. */
  predicate IsIntended(k: MetadataKind, n: Named)
  {
    k.raw == ValueIntended(n).raw
  }

  /** `is_runtime_private` with the flag Swift defines. */
  predicate IsRuntimePrivateIntended(k: MetadataKind)
  {
    k.raw & INTENDED_RUNTIME_PRIVATE_FLAG != 0
  }

  /** With the flag Swift defines, the fifteen named kinds are pairwise
      distinct, so each `is_X` recognises its own constant and no other. */
  lemma IntendedKindsDistinct(n: Named, m: Named)
    ensures ValueIntended(n) == ValueIntended(m) <==> n == m
    ensures IsIntended(ValueIntended(n), m) <==> n == m
  {
  }

  /** With the flag Swift defines, the runtime-private test still picks out
      exactly the constants built with it. */
  lemma IntendedRuntimePrivateConstants(n: Named)
    ensures IsRuntimePrivateIntended(ValueIntended(n)) <==> BuiltWithRuntimePrivateFlag(n)
  {
  }
}
