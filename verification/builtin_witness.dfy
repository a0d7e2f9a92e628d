/**
  The value-witness tables of Swift's built-in types
  (swift-sys/src/metadata/value_witness/builtin.rs): the `VALUE_WITNESS_SYM!`
  mangling, the declarations `builtins!` and `vectors!` generate, and the two
  tables of scalar and SIMD built-ins. What matters to a linker is that each
  declaration binds a well-formed, distinct symbol; the lemmas here say so.
 */
module BuiltinWitnesses {
  import opened Primitives

  // ------------------------------------------------------------- mangling

  /** `VALUE_WITNESS_SYM!(sym)`: the value-witness table symbol of the type
      whose mangling is `sym`. */
  function ValueWitnessSym(sym: string): (link: string)
    ensures |link| == |sym| + 4
    ensures SymOfValueWitness(link) == Some(sym)
  {
    var l := "$s" + sym + "WV";
    assert l[..2] == "$s" && l[|l| - 2..] == "WV" && l[2..|l| - 2] == sym;
    l
  }

  /** Reads the type mangling back out of a value-witness table symbol. */
  function SymOfValueWitness(link: string): (r: Option<string>)
    ensures r.Some? <==> |link| >= 4 && link[..2] == "$s" && link[|link| - 2..] == "WV"
  {
    if |link| >= 4 && link[..2] == "$s" && link[|link| - 2..] == "WV"
    then Some(link[2..|link| - 2])
    else None
  }

  /** Every symbol `SymOfValueWitness` accepts is the mangling of what it returns. */
  lemma ValueWitnessSymRoundTrip(link: string)
    ensures SymOfValueWitness(link).Some? ==> ValueWitnessSym(SymOfValueWitness(link).value) == link
  {
    if SymOfValueWitness(link).Some? {
      var sym := link[2..|link| - 2];
      assert link == link[..2] + sym + link[|link| - 2..];
    }
  }

  /** Distinct types get distinct value-witness symbols. */
  lemma ValueWitnessSymInjective(a: string, b: string)
    ensures ValueWitnessSym(a) == ValueWitnessSym(b) <==> a == b
  {
    if ValueWitnessSym(a) == ValueWitnessSym(b) {
      assert SymOfValueWitness(ValueWitnessSym(a)) == Some(a);
      assert SymOfValueWitness(ValueWitnessSym(b)) == Some(b);
    }
  }

  // ---------------------------------------------------------- declarations

  /** One `name => sym, builtin;` line of `builtins!`. */
  datatype Builtin = Builtin(name: string, sym: string, builtin: string)

  /** One `extern` static the macro emits: the Rust name, its `link_name` and
      its doc string. */
  datatype Decl = Decl(name: string, linkName: string, doc: string)

  const DOC_PREFIX: string := "Table for `Builtin."
  const DOC_SUFFIX: string := "`."

  /** Reads the built-in type name back out of a generated doc string. */
  function DocBuiltin(doc: string): (r: Option<string>)
    ensures r.Some? ==> doc == DOC_PREFIX + r.value + DOC_SUFFIX
  {
    if |doc| >= |DOC_PREFIX| + |DOC_SUFFIX|
       && doc[..|DOC_PREFIX|] == DOC_PREFIX
       && doc[|doc| - |DOC_SUFFIX|..] == DOC_SUFFIX
    then
      var b := doc[|DOC_PREFIX|..|doc| - |DOC_SUFFIX|];
      assert doc == doc[..|DOC_PREFIX|] + b + doc[|doc| - |DOC_SUFFIX|..];
      Some(b)
    else None
  }

  /** The `@processed` arm of `builtins!` applied to one line. */
  function Declare(b: Builtin): (d: Decl)
    ensures d.name == b.name
    ensures SymOfValueWitness(d.linkName) == Some(b.sym)
    ensures DocBuiltin(d.doc) == Some(b.builtin)
  {
    var doc := DOC_PREFIX + b.builtin + DOC_SUFFIX;
    assert doc[..|DOC_PREFIX|] == DOC_PREFIX;
    assert doc[|doc| - |DOC_SUFFIX|..] == DOC_SUFFIX;
    assert doc[|DOC_PREFIX|..|doc| - |DOC_SUFFIX|] == b.builtin;
    Decl(b.name, ValueWitnessSym(b.sym), doc)
  }

  /** One `name => size, sym, builtin;` line of `vectors!`. */
  datatype Vector = Vector(name: string, size: string, sym: string, builtin: string)

  /** The line of `builtins!` that `vectors!` turns a vector line into. */
  function VectorLine(v: Vector): (b: Builtin)
    ensures b.name == v.name
    ensures |b.sym| == |v.sym| + 2 + |v.size|
    ensures b.sym[..|v.sym|] == v.sym && b.sym[|v.sym|..|v.sym| + 2] == "Bv"
    ensures b.sym[|v.sym| + 2..] == v.size
  {
    Builtin(v.name, v.sym + "Bv" + v.size, "Vec" + v.size + "x" + v.builtin)
  }

  // ----------------------------------------------------------------- tables

  /** The `builtins!` invocation: the scalar built-in types. */
  const SCALARS: seq<Builtin> := [
    Builtin("I1", "Bi1_", "Int1"),
    Builtin("I7", "Bi7_", "Int7"),
    Builtin("I8", "Bi8_", "Int8"),
    Builtin("I16", "Bi16_", "Int16"),
    Builtin("I32", "Bi32_", "Int32"),
    Builtin("I63", "Bi63_", "Int63"),
    Builtin("I64", "Bi64_", "Int64"),
    Builtin("I128", "Bi128_", "Int128"),
    Builtin("I256", "Bi256_", "Int256"),
    Builtin("I512", "Bi512_", "Int512"),
    Builtin("WORD", "Bw", "Word"),
    Builtin("F16", "Bf16_", "FPIEEE16"),
    Builtin("F32", "Bf32_", "FPIEEE32"),
    Builtin("F64", "Bf64_", "FPIEEE64"),
    Builtin("F80", "Bf80_", "FPIEEE80"),
    Builtin("F128", "Bf128_", "FPIEEE128"),
    Builtin("NATIVE_OBJECT", "Bo", "NativeObject"),
    Builtin("BRIDGE_OBJECT", "Bb", "BridgeObject"),
    Builtin("RAW_POINTER", "Bp", "RawPointer"),
    Builtin("UNSAFE_VALUE_BUFFER", "BB", "UnsafeValueBuffer"),
    Builtin("UNKNOWN_OBJECT", "BO", "UnknownObject")
  ]

  /** The lane counts of the `vectors!` invocation, in the order each element
      type lists them. */
  const VECTOR_SIZES: seq<string> := ["2", "3", "4", "8", "16", "32", "64"]

  /** The element types of the `vectors!` invocation, in source order; the
      `name` field is the part of the Rust name between `VEC_` and the size. */
  const VECTOR_ELEMENTS: seq<Builtin> := [
    Builtin("I8", "Bi8_", "Int8"),
    Builtin("I16", "Bi16_", "Int16"),
    Builtin("I32", "Bi32_", "Int32"),
    Builtin("I64", "Bi64_", "Int64"),
    Builtin("F32", "Bf32_", "FPIEEE32"),
    Builtin("F64", "Bf64_", "FPIEEE64")
  ]

  /** The vector line for element type `e` with `size` lanes, e.g.
      `VEC_I8_2 => "2", "Bi8_", "Int8";`. */
  function VectorOf(e: Builtin, size: string): Vector
  {
    Vector("VEC_" + e.name + "_" + size, size, e.sym, e.builtin)
  }

  /** The `vectors!` invocation: every element type with every lane count,
      element type by element type. */
  const VECTORS: seq<Vector> :=
    seq(|VECTOR_ELEMENTS| * |VECTOR_SIZES|,
        i requires 0 <= i < |VECTOR_ELEMENTS| * |VECTOR_SIZES| =>
          VectorOf(VECTOR_ELEMENTS[i / |VECTOR_SIZES|], VECTOR_SIZES[i % |VECTOR_SIZES|]))

  /** `vectors!`: each vector line becomes a `builtins!` line. */
  function ExpandVectors(vs: seq<Vector>): (bs: seq<Builtin>)
    ensures |bs| == |vs|
    ensures forall i :: 0 <= i < |vs| ==> bs[i] == VectorLine(vs[i])
    ensures forall i :: 0 <= i < |vs| ==>
              bs[i].name == vs[i].name && |bs[i].sym| == |vs[i].sym| + 2 + |vs[i].size|
              && bs[i].sym[..|vs[i].sym|] == vs[i].sym
              && bs[i].sym[|vs[i].sym| + 2..] == vs[i].size
  {
    seq(|vs|, i requires 0 <= i < |vs| => VectorLine(vs[i]))
  }

  /** `builtins!`: one `extern` static per line, in order. */
  function Builtins(bs: seq<Builtin>): (ds: seq<Decl>)
    ensures |ds| == |bs|
    ensures forall i :: 0 <= i < |bs| ==> ds[i] == Declare(bs[i])
    ensures forall i :: 0 <= i < |bs| ==>
              ds[i].name == bs[i].name && SymOfValueWitness(ds[i].linkName) == Some(bs[i].sym)
              && DocBuiltin(ds[i].doc) == Some(bs[i].builtin)
  {
    seq(|bs|, i requires 0 <= i < |bs| => Declare(bs[i]))
  }

  /** Every line both macros hand to `builtins!`, scalars first. */
  const ALL_LINES: seq<Builtin> := SCALARS + ExpandVectors(VECTORS)

  /** Every `extern` static the module declares. */
  const DECLARATIONS: seq<Decl> := Builtins(ALL_LINES)

  // ----------------------------------------------------------------- lemmas

  /** The module declares 21 scalar tables and 42 vector tables. */
  lemma TableSizes()
    ensures |SCALARS| == 21 && |VECTORS| == 42 && |DECLARATIONS| == 63
  {
  }

  /** Each vector line sits at element index `i / 7`, size index `i % 7`. */
  lemma VectorAt(i: nat)
    requires i < |VECTORS|
    ensures VECTORS[i].sym == VECTOR_ELEMENTS[i / 7].sym
    ensures VECTORS[i].size == VECTOR_SIZES[i % 7]
    ensures VECTORS[i].builtin == VECTOR_ELEMENTS[i / 7].builtin
  {
  }

  /** Each vector's element type is one of the scalar built-ins: the same
      Rust name part, mangling and builtin name. */
  lemma VectorElementsAreScalars()
    ensures VECTOR_ELEMENTS == [SCALARS[2], SCALARS[3], SCALARS[4], SCALARS[6], SCALARS[12], SCALARS[13]]
    ensures forall e :: e in VECTOR_ELEMENTS ==> e in SCALARS
  {
  }

  /** An element mangling of the vector table: it ends in `_` and has no other `_`. */
  predicate EndsInOnlyUnderscore(s: string)
  {
    |s| > 0 && s[|s| - 1] == '_' && forall k :: 0 <= k < |s| - 1 ==> s[k] != '_'
  }

  /** `sym ++ "Bv" ++ size` can be split back into its parts when the element
      mangling ends in its only `_` and the size has none. */
  lemma VectorSymInjective(e1: string, s1: string, e2: string, s2: string)
    requires EndsInOnlyUnderscore(e1) && EndsInOnlyUnderscore(e2)
    requires '_' !in s1 && '_' !in s2
    ensures e1 + "Bv" + s1 == e2 + "Bv" + s2 <==> e1 == e2 && s1 == s2
  {
    var x, y := e1 + "Bv" + s1, e2 + "Bv" + s2;
    if x == y {
      assert e1 == x[..|e1|] && e2 == y[..|e2|];
      assert s1 == x[|e1| + 2..] && s2 == y[|e2| + 2..];
    }
  }

  /** No two lines share a mangling. */
  predicate SymsDistinct(bs: seq<Builtin>)
  {
    forall i, j :: 0 <= i < j < |bs| ==> bs[i].sym != bs[j].sym
  }

  /** Every mangling is that of a `Builtin.` type: it starts with `B`. */
  predicate SymsAreBuiltin(bs: seq<Builtin>)
  {
    forall i :: 0 <= i < |bs| ==> |bs[i].sym| > 0 && bs[i].sym[0] == 'B'
  }

  predicate NoSymHasV(bs: seq<Builtin>)
  {
    forall i :: 0 <= i < |bs| ==> 'v' !in bs[i].sym
  }

  predicate EverySymHasV(bs: seq<Builtin>)
  {
    forall i :: 0 <= i < |bs| ==> 'v' in bs[i].sym
  }

  /** The manglings of the scalar lines, in order. */
  const SCALAR_SYMS: seq<string> := seq(|SCALARS|, i requires 0 <= i < |SCALARS| => SCALARS[i].sym)

  lemma ScalarSymsListed()
    ensures |SCALAR_SYMS| == |SCALARS|
    ensures forall i :: 0 <= i < |SCALARS| ==> SCALARS[i].sym == SCALAR_SYMS[i]
  {
  }

  lemma ScalarSymListDistinct()
    ensures forall i, j :: 0 <= i < j < |SCALAR_SYMS| ==> SCALAR_SYMS[i] != SCALAR_SYMS[j]
  {
  }

  lemma ScalarSymListShape()
    ensures forall i :: 0 <= i < |SCALAR_SYMS| ==>
              |SCALAR_SYMS[i]| > 0 && SCALAR_SYMS[i][0] == 'B' && 'v' !in SCALAR_SYMS[i]
  {
  }

  /** The scalar manglings are pairwise distinct. */
  lemma ScalarSymsDistinct()
    ensures SymsDistinct(SCALARS)
  {
    ScalarSymsListed();
    ScalarSymListDistinct();
  }

  /** The scalar manglings name `Builtin.` types, and none contains `v`. */
  lemma ScalarSymsAreBuiltin()
    ensures SymsAreBuiltin(SCALARS) && NoSymHasV(SCALARS)
  {
    ScalarSymsListed();
    ScalarSymListShape();
  }

  /** The ingredients of the vector manglings are pairwise distinct and split cleanly. */
  lemma VectorPartsDistinct()
    ensures forall i, j :: 0 <= i < j < |VECTOR_ELEMENTS| ==> VECTOR_ELEMENTS[i].sym != VECTOR_ELEMENTS[j].sym
    ensures forall i, j :: 0 <= i < j < |VECTOR_SIZES| ==> VECTOR_SIZES[i] != VECTOR_SIZES[j]
    ensures forall i :: 0 <= i < |VECTOR_ELEMENTS| ==> EndsInOnlyUnderscore(VECTOR_ELEMENTS[i].sym)
    ensures forall i :: 0 <= i < |VECTOR_SIZES| ==> '_' !in VECTOR_SIZES[i]
    ensures forall i :: 0 <= i < |VECTOR_ELEMENTS| ==> VECTOR_ELEMENTS[i].sym[0] == 'B'
  {
  }

  /** No two vector lines share a mangling. */
  lemma VectorSymsDistinct(i: nat, j: nat)
    requires i < j < |VECTORS|
    ensures VectorLine(VECTORS[i]).sym != VectorLine(VECTORS[j]).sym
  {
    VectorAt(i);
    VectorAt(j);
    VectorPartsDistinct();
    var ei, ej := VECTOR_ELEMENTS[i / 7].sym, VECTOR_ELEMENTS[j / 7].sym;
    var si, sj := VECTOR_SIZES[i % 7], VECTOR_SIZES[j % 7];
    VectorSymInjective(ei, si, ej, sj);
    if i / 7 == j / 7 {
      assert i % 7 != j % 7;
    }
  }

  /** Every vector mangling contains `v` (of `Bv`), which no scalar one does. */
  lemma VectorSymHasV(i: nat)
    requires i < |VECTORS|
    ensures 'v' in VectorLine(VECTORS[i]).sym
  {
    var v := VECTORS[i];
    assert VectorLine(v).sym[|v.sym| + 1] == 'v';
  }

  /** The lines `vectors!` hands to `builtins!` name `Builtin.` types, and
      each mangling contains `v`. */
  lemma VectorLinesShape()
    ensures SymsAreBuiltin(ExpandVectors(VECTORS)) && EverySymHasV(ExpandVectors(VECTORS))
  {
    var vs := ExpandVectors(VECTORS);
    forall i | 0 <= i < |vs|
      ensures |vs[i].sym| > 0 && vs[i].sym[0] == 'B' && 'v' in vs[i].sym
    {
      VectorSymHasV(i);
      VectorAt(i);
      VectorPartsDistinct();
    }
  }

  /** The lines `vectors!` hands to `builtins!`: distinct manglings of
      `Builtin.` types, each containing `v`. */
  lemma VectorLinesDistinct()
    ensures SymsDistinct(ExpandVectors(VECTORS))
    ensures SymsAreBuiltin(ExpandVectors(VECTORS)) && EverySymHasV(ExpandVectors(VECTORS))
  {
    var vs := ExpandVectors(VECTORS);
    forall i, j | 0 <= i < j < |vs|
      ensures vs[i].sym != vs[j].sym
    {
      VectorSymsDistinct(i, j);
    }
    VectorLinesShape();
  }

  /** Appending lines whose manglings all contain `v` to lines whose
      manglings never do keeps all manglings distinct. */
  lemma ConcatSymsDistinct(a: seq<Builtin>, b: seq<Builtin>)
    requires SymsDistinct(a) && SymsDistinct(b)
    requires NoSymHasV(a) && EverySymHasV(b)
    ensures SymsDistinct(a + b)
  {
    forall i, j | 0 <= i < j < |a + b|
      ensures (a + b)[i].sym != (a + b)[j].sym
    {
      if i < |a| <= j {
        assert 'v' !in a[i].sym && 'v' in b[j - |a|].sym;
      }
    }
  }

  /** No two of the lines handed to `builtins!` share a mangling, and each
      names a `Builtin.` type. */
  lemma LineSymsDistinct()
    ensures SymsDistinct(ALL_LINES) && SymsAreBuiltin(ALL_LINES)
  {
    ScalarSymsDistinct();
    ScalarSymsAreBuiltin();
    VectorLinesDistinct();
    ConcatSymsDistinct(SCALARS, ExpandVectors(VECTORS));
  }

  /** `builtins!` emits distinct symbols for lines with distinct manglings. */
  lemma BuiltinsKeepSymsApart(bs: seq<Builtin>, i: nat, j: nat)
    requires i < |bs| && j < |bs|
    ensures Builtins(bs)[i].linkName == Builtins(bs)[j].linkName <==> bs[i].sym == bs[j].sym
  {
    ValueWitnessSymInjective(bs[i].sym, bs[j].sym);
  }

  /** The module binds 63 distinct symbols: no two `extern` statics alias the
      same value-witness table. */
  lemma LinkNamesDistinct(i: nat, j: nat)
    requires i < j < |DECLARATIONS|
    ensures DECLARATIONS[i].linkName != DECLARATIONS[j].linkName
  {
    LineSymsDistinct();
    BuiltinsKeepSymsApart(ALL_LINES, i, j);
  }

  /** Every declared symbol is a value-witness table symbol of a built-in type
      (`$sB...WV`), and its doc string names a `Builtin.` type. */
  lemma LinkNamesWellFormed(i: nat)
    requires i < |DECLARATIONS|
    ensures DECLARATIONS[i].linkName[..3] == "$sB"
    ensures DECLARATIONS[i].linkName[|DECLARATIONS[i].linkName| - 2..] == "WV"
    ensures DocBuiltin(DECLARATIONS[i].doc).Some?
  {
    LineSymsDistinct();
    var link := DECLARATIONS[i].linkName;
    assert link == ValueWitnessSym(ALL_LINES[i].sym);
    assert link[2] == ALL_LINES[i].sym[0];
  }

  /** A vector table's doc string names `Builtin.Vec<size>x<element>` for a
      scalar element type, and its symbol extends that element's mangling. */
  lemma VectorDocNamesElement(i: nat)
    requires i < |VECTORS|
    ensures DocBuiltin(Declare(VectorLine(VECTORS[i])).doc)
            == Some("Vec" + VECTORS[i].size + "x" + VECTORS[i].builtin)
    ensures exists s :: s in SCALARS && s.builtin == VECTORS[i].builtin
                        && s.sym <= VectorLine(VECTORS[i]).sym
  {
    VectorAt(i);
    VectorElementsAreScalars();
    var e := VECTOR_ELEMENTS[i / 7];
    assert e in VECTOR_ELEMENTS;
    assert e.sym <= VectorLine(VECTORS[i]).sym;
  }
}
