/**
 * Configuration structs as package reflect shows them to config/config.go: a finite type, and
 * a value of that type in which every non-nil pointer has an identity.
 */
module ConfigTree {
  import opened Wrappers
  import opened Bytes
  import opened ConfigTypes

  datatype Type =
    | ScalarT(k: Kind)
    | SliceT(k: Kind)
    | StructT(fields: seq<Field>)
    | PtrT(elem: Type)
    | OtherSliceT          // a slice whose elements are not scalars
    | OtherT               // any other kind

  /** An exported field with the tags the loaders read. */
  datatype Field = Field(name: Str, yaml: Str, json: Str, env: Str, flag: Str, t: Type)

  /** A nil slice and an empty one are the same value here. */
  datatype Value =
    | ScalarV(x: Scalar)
    | SliceV(xs: seq<Scalar>)
    | StructV(fields: seq<Value>)
    | NilV
    | PtrV(id: nat, target: Value)
    | OtherV

  ghost predicate Typed(t: Type, v: Value) {
    match t
    case ScalarT(k) => k.Valid() && v.ScalarV? && Fits(k, v.x)
    case SliceT(k) => k.Valid() && v.SliceV? && forall i :: 0 <= i < |v.xs| ==> Fits(k, v.xs[i])
    case StructT(fs) => v.StructV? && TypedAll(fs, v.fields)
    case PtrT(elem) => ValidType(elem) && (v.NilV? || (v.PtrV? && Typed(elem, v.target)))
    case OtherSliceT => v.OtherV?
    case OtherT => v.OtherV?
  }

  ghost predicate TypedAll(fs: seq<Field>, vs: seq<Value>) {
    |fs| == |vs| && (fs != [] ==> Typed(fs[0].t, vs[0]) && TypedAll(fs[1..], vs[1..]))
  }

  predicate ValidType(t: Type) {
    match t
    case ScalarT(k) => k.Valid()
    case SliceT(k) => k.Valid()
    case StructT(fs) => ValidTypes(fs)
    case PtrT(elem) => ValidType(elem)
    case _ => true
  }

  predicate ValidTypes(fs: seq<Field>) {
    fs != [] ==> ValidType(fs[0].t) && ValidTypes(fs[1..])
  }

  /** reflect.New: the zero value of a type. */
  function ZeroOf(t: Type): Value {
    match t
    case ScalarT(k) => ScalarV(Zero(k))
    case SliceT(_) => SliceV([])
    case StructT(fs) => StructV(ZeroAll(fs))
    case PtrT(_) => NilV
    case _ => OtherV
  }

  function ZeroAll(fs: seq<Field>): (vs: seq<Value>)
    ensures |vs| == |fs|
  {
    if fs == [] then [] else [ZeroOf(fs[0].t)] + ZeroAll(fs[1..])
  }

  lemma {:induction false} ZeroFits(k: Kind)
    requires k.Valid()
    ensures Fits(k, Zero(k))
  {
  }

  lemma {:induction false} ZeroTyped(t: Type)
    requires ValidType(t)
    ensures Typed(t, ZeroOf(t))
  {
    if t.StructT? {
      ZeroTypedAll(t.fields);
    } else if t.ScalarT? {
      ZeroFits(t.k);
    }
  }

  lemma {:induction false} ZeroTypedAll(fs: seq<Field>)
    requires ValidTypes(fs)
    ensures TypedAll(fs, ZeroAll(fs))
  {
    if fs != [] {
      ZeroTyped(fs[0].t);
      ZeroTypedAll(fs[1..]);
      assert ZeroAll(fs)[1..] == ZeroAll(fs[1..]);
    }
  }

  /** Which struct a field leads into, directly or through a pointer. */
  function Inner(t: Type): (fs: Option<seq<Field>>)
    ensures fs.Some? && ValidType(t) ==> ValidTypes(fs.value)
  {
    match t
    case StructT(fs) => Some(fs)
    case PtrT(StructT(fs)) =>
      assert ValidType(t) ==> ValidType(t.elem);
      Some(fs)
    case _ => None
  }

  /** The values of that struct; behind a nil pointer, the zero ones. */
  function InnerValues(t: Type, v: Value): seq<Value>
    requires Inner(t).Some?
  {
    if v.StructV? then v.fields
    else if v.PtrV? && v.target.StructV? then v.target.fields
    else ZeroAll(Inner(t).value)
  }

  lemma {:induction false} InnerTyped(t: Type, v: Value)
    requires Inner(t).Some? && Typed(t, v)
    ensures TypedAll(Inner(t).value, InnerValues(t, v))
  {
    if v.NilV? {
      ZeroTypedAll(Inner(t).value);
    }
  }

  // A leaf is a field that leads into no struct, reached through structs and pointers to
  // structs: the index of a field and, inside a struct, the indices that lead on from there.

  function LeafType(fs: seq<Field>, i: nat, rest: seq<nat>): Option<Type>
    decreases fs
  {
    if fs == [] then None
    else if i > 0 then LeafType(fs[1..], i - 1, rest)
    else if Inner(fs[0].t).Some? then
      if rest == [] then None else LeafType(Inner(fs[0].t).value, rest[0], rest[1..])
    else if rest == [] then Some(fs[0].t)
    else None
  }

  /** The value at a leaf; behind a nil pointer, the zero value. */
  ghost function ReadLeaf(fs: seq<Field>, vs: seq<Value>, i: nat, rest: seq<nat>): Value
    requires TypedAll(fs, vs) && LeafType(fs, i, rest).Some?
    decreases fs
  {
    if i > 0 then ReadLeaf(fs[1..], vs[1..], i - 1, rest)
    else
      var t := fs[0].t;
      if Inner(t).Some? then
        InnerTyped(t, vs[0]);
        ReadLeaf(Inner(t).value, InnerValues(t, vs[0]), rest[0], rest[1..])
      else vs[0]
  }

  /** No nil pointer stands on the way to the leaf. */
  ghost predicate Reached(fs: seq<Field>, vs: seq<Value>, i: nat, rest: seq<nat>)
    requires TypedAll(fs, vs) && LeafType(fs, i, rest).Some?
    decreases fs
  {
    if i > 0 then Reached(fs[1..], vs[1..], i - 1, rest)
    else
      var t := fs[0].t;
      if Inner(t).None? then true
      else
        InnerTyped(t, vs[0]);
        !vs[0].NilV? && Reached(Inner(t).value, InnerValues(t, vs[0]), rest[0], rest[1..])
  }

  /** The struct behind the pointer field at a path. */
  function PointerFields(fs: seq<Field>, i: nat, rest: seq<nat>): Option<seq<Field>>
    decreases fs
  {
    if fs == [] then None
    else if i > 0 then PointerFields(fs[1..], i - 1, rest)
    else if Inner(fs[0].t).None? then None
    else if rest == [] then if fs[0].t.PtrT? then Inner(fs[0].t) else None
    else PointerFields(Inner(fs[0].t).value, rest[0], rest[1..])
  }

  /** The identity the pointer there holds; None when it is nil or behind a nil pointer. */
  ghost function PointerId(fs: seq<Field>, vs: seq<Value>, i: nat, rest: seq<nat>): Option<nat>
    requires TypedAll(fs, vs) && PointerFields(fs, i, rest).Some?
    decreases fs
  {
    if i > 0 then PointerId(fs[1..], vs[1..], i - 1, rest)
    else if vs[0].NilV? then None
    else if rest == [] then
      assert Typed(fs[0].t, vs[0]);
      Some(vs[0].id)
    else
      InnerTyped(fs[0].t, vs[0]);
      PointerId(Inner(fs[0].t).value, InnerValues(fs[0].t, vs[0]), rest[0], rest[1..])
  }

  /** Behind a nil pointer there are only nil pointers. */
  lemma {:induction false} ZeroPointers(fs: seq<Field>, i: nat, rest: seq<nat>)
    requires ValidTypes(fs) && TypedAll(fs, ZeroAll(fs)) && PointerFields(fs, i, rest).Some?
    ensures PointerId(fs, ZeroAll(fs), i, rest) == None
    decreases fs
  {
    assert ZeroAll(fs)[1..] == ZeroAll(fs[1..]);
    if i > 0 {
      ZeroPointers(fs[1..], i - 1, rest);
    } else if fs[0].t.StructT? {
      ZeroPointers(fs[0].t.fields, rest[0], rest[1..]);
    }
  }

  lemma {:induction false} TypedValid(t: Type, v: Value)
    requires Typed(t, v)
    ensures ValidType(t)
  {
    if t.StructT? { TypedAllValid(t.fields, v.fields); }
  }

  lemma {:induction false} TypedAllValid(fs: seq<Field>, vs: seq<Value>)
    requires TypedAll(fs, vs)
    ensures ValidTypes(fs)
  {
    if fs != [] {
      TypedValid(fs[0].t, vs[0]);
      TypedAllValid(fs[1..], vs[1..]);
    }
  }
}
