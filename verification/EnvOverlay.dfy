/**
 * Loading configuration from the environment (config/config.go: LoadEnv, parseEnv, setField,
 * setSliceField): the walk over a struct, field by field, with variable names derived from
 * tags, structs behind nil pointers made on demand, and fields written in place.
 */
module EnvOverlay {
  import opened Wrappers
  import opened Bytes
  import opened Strconv
  import opened ConfigTypes
  import opened ConfigTree

  /** The environment, how floating-point text is read, and what a float64 becomes in a float32. */
  datatype World = World(env: map<Str, Str>, floats: FloatParser, narrow: int -> int)

  /** os.Getenv */
  function Getenv(w: World, key: Str): Str {
    if key in w.env then w.env[key] else []
  }

  // ---- variable names ----------------------------------------------------------------

  function ToUpper(s: Str): Str {
    seq(|s|, i requires 0 <= i < |s| =>
      if 'a' <= s[i] <= 'z' then (s[i] as int - 32) as char else s[i])
  }

  /** The first of the yaml tag, the json tag and the name, in upper case, after the prefix. */
  function KeyPrefix(prefix: Str, f: Field): Str {
    var key :=
      if f.yaml != [] then ToUpper(f.yaml) else if f.json != [] then ToUpper(f.json) else ToUpper(f.name);
    if key != [] && prefix != [] then prefix + "_" + key else key
  }

  /** The variable of a field; an env tag replaces the derived name, prefix and all. */
  function EnvKey(prefix: Str, f: Field): Str {
    if f.env != [] then f.env else KeyPrefix(prefix, f)
  }

  // ---- text to values ----------------------------------------------------------------

  predicate IsSpace(c: Byte) {
    c in {' ', '\t', '\n', '\r', 11 as char, 12 as char}
  }

  function TrimLeft(s: Str): Str {
    if s != [] && IsSpace(s[0]) then TrimLeft(s[1..]) else s
  }

  function TrimRight(s: Str): Str {
    if s != [] && IsSpace(s[|s| - 1]) then TrimRight(s[..|s| - 1]) else s
  }

  /** strings.TrimSpace */
  function TrimSpace(s: Str): Str {
    TrimRight(TrimLeft(s))
  }

  /** reflect.Value.SetInt and SetUint keep the low bits only. */
  function WrapInt(n: int, bits: nat): int
    requires bits > 0
  {
    (n + Pow2(bits - 1)) % Pow2(bits) - Pow2(bits - 1)
  }

  function WrapUint(n: int, bits: nat): int {
    n % Pow2(bits)
  }

  /** The value a text gives a scalar of some kind; None when the text does not parse. */
  function ScalarOf(w: World, k: Kind, text: Str): Option<Scalar>
    requires k.Valid()
  {
    match k
    case StringK => Some(Text(TrimSpace(text)))
    case IntK(bits) =>
      var p := ParseInt(text, 64);
      if p.verdict == Fine then Some(Number(WrapInt(p.value, bits))) else None
    case UintK(bits) =>
      var p := ParseUint(text, 64);
      if p.verdict == Fine then Some(Number(WrapUint(p.value, bits))) else None
    case FloatK(bits) =>
      var p := (w.floats)(text, 64);
      if p.verdict == Fine then Some(Float(if bits == 64 then p.value else (w.narrow)(p.value))) else None
    case BoolK =>
      var p := ParseBool(text);
      if p.verdict == Fine then Some(Flag(p.value)) else None
  }

  function ScalarsOf(w: World, k: Kind, parts: seq<Str>): Option<seq<Scalar>>
    requires k.Valid()
  {
    if parts == [] then Some([])
    else
      var xs := ScalarsOf(w, k, parts[..|parts| - 1]);
      var x := ScalarOf(w, k, TrimSpace(parts[|parts| - 1]));
      if xs.Some? && x.Some? then Some(xs.value + [x.value]) else None
  }

  /** The value a text gives a slice: one element per comma-separated part, trimmed. */
  function ListOf(w: World, k: Kind, text: Str): Option<seq<Scalar>>
    requires k.Valid()
  {
    ScalarsOf(w, k, Split(text, ','))
  }

  // ---- the walk ----------------------------------------------------------------------

  /** What becomes of one field: next is the identity the next new struct would get. */
  datatype FieldOut = FieldOut(v: Value, isSet: bool, failed: bool, next: nat)

  /** What becomes of the fields of a struct; those before a failing one stay written. */
  datatype FieldsOut = FieldsOut(vs: seq<Value>, isSet: bool, failed: bool, next: nat)

  /** setField on a field that can hold a scalar of kind k, or that can hold none. */
  function SetScalar(w: World, k: Option<Kind>, was: Value, key: Str, next: nat): FieldOut
    requires k.Some? ==> k.value.Valid()
  {
    var text := Getenv(w, key);
    if text == [] then FieldOut(was, false, false, next)
    else
      var x := if k.Some? then ScalarOf(w, k.value, text) else None;
      if x.None? then FieldOut(was, false, true, next) else FieldOut(ScalarV(x.value), true, false, next)
  }

  /** setSliceField; it does not count as setting a field. */
  function SetSlice(w: World, k: Option<Kind>, was: Value, key: Str, next: nat): FieldOut
    requires k.Some? ==> k.value.Valid()
  {
    var text := Getenv(w, key);
    if text == [] then FieldOut(was, false, false, next)
    else
      var xs := if k.Some? then ListOf(w, k.value, text) else None;
      if xs.None? then FieldOut(was, false, true, next) else FieldOut(SliceV(xs.value), false, false, next)
  }

  /** A field that is not a struct, or what a pointer field points to. */
  function SetPlain(w: World, t: Type, was: Value, key: Str, next: nat): FieldOut
    requires ValidType(t) && !t.StructT?
  {
    match t
    case ScalarT(k) => SetScalar(w, Some(k), was, key, next)
    case SliceT(k) => SetSlice(w, Some(k), was, key, next)
    case OtherSliceT => SetSlice(w, None, was, key, next)
    case PtrT(_) => SetScalar(w, None, was, key, next)
    case OtherT => SetScalar(w, None, was, key, next)
  }

  function ParseField(w: World, prefix: Str, f: Field, v: Value, next: nat): FieldOut
    requires Typed(f.t, v)
    decreases f
  {
    var t := f.t;
    if Inner(t).Some? then
      InnerTyped(t, v);
      var r := ParseFields(w, KeyPrefix(prefix, f), Inner(t).value, InnerValues(t, v), next);
      if t.StructT? then FieldOut(StructV(r.vs), r.isSet, r.failed, r.next)
      else if v.PtrV? then FieldOut(PtrV(v.id, StructV(r.vs)), r.isSet, r.failed, r.next)
      else if r.isSet then FieldOut(PtrV(r.next, StructV(r.vs)), true, false, r.next + 1)
      else FieldOut(NilV, false, r.failed, r.next)
    else if t.PtrT? then
      // A scalar or slice behind a nil pointer is set in a new variable that nothing keeps.
      var r := SetPlain(w, t.elem, if v.PtrV? then v.target else ZeroOf(t.elem), EnvKey(prefix, f), next);
      FieldOut(if v.PtrV? then PtrV(v.id, r.v) else NilV, r.isSet, r.failed, r.next)
    else SetPlain(w, t, v, EnvKey(prefix, f), next)
  }

  /** parseEnv on the fields of a struct. */
  function ParseFields(w: World, prefix: Str, fs: seq<Field>, vs: seq<Value>, next: nat): FieldsOut
    requires TypedAll(fs, vs)
    decreases fs
  {
    if fs == [] then FieldsOut([], false, false, next)
    else
      var h := ParseField(w, prefix, fs[0], vs[0], next);
      if h.failed then FieldsOut([h.v] + vs[1..], false, true, h.next)
      else
        var r := ParseFields(w, prefix, fs[1..], vs[1..], h.next);
        FieldsOut([h.v] + r.vs, !r.failed && (h.isSet || r.isSet), r.failed, r.next)
  }

  // ---- the result is well typed --------------------------------------------------------

  lemma {:induction false} WrapFits(n: int, bits: nat)
    requires bits > 0
    ensures -Pow2(bits - 1) <= WrapInt(n, bits) < Pow2(bits - 1)
    ensures 0 <= WrapUint(n, bits) < Pow2(bits)
  {
    assert Pow2(bits) == 2 * Pow2(bits - 1);
  }

  /** A number is stored unchanged exactly when the field's type holds it. */
  lemma {:induction false} WrapExact(n: int, bits: nat)
    requires bits > 0
    ensures WrapInt(n, bits) == n <==> -Pow2(bits - 1) <= n < Pow2(bits - 1)
    ensures WrapUint(n, bits) == n <==> 0 <= n < Pow2(bits)
  {
    WrapFits(n, bits);
    assert Pow2(bits) == 2 * Pow2(bits - 1);
    if -Pow2(bits - 1) <= n < Pow2(bits - 1) { SmallModulo(n + Pow2(bits - 1), Pow2(bits)); }
    if 0 <= n < Pow2(bits) { SmallModulo(n, Pow2(bits)); }
  }

  lemma {:induction false} SmallModulo(n: int, m: int)
    requires 0 <= n < m
    ensures n % m == n
  {
  }

  lemma {:induction false} ScalarOfFits(w: World, k: Kind, text: Str)
    requires k.Valid() && ScalarOf(w, k, text).Some?
    ensures Fits(k, ScalarOf(w, k, text).value)
  {
    if k.IntK? {
      WrapFits(ParseInt(text, 64).value, k.bits);
    } else if k.UintK? {
      WrapFits(ParseUint(text, 64).value, k.bits);
    }
  }

  lemma {:induction false} ScalarsOfFit(w: World, k: Kind, parts: seq<Str>)
    requires k.Valid() && ScalarsOf(w, k, parts).Some?
    ensures |ScalarsOf(w, k, parts).value| == |parts|
    ensures forall i :: 0 <= i < |parts| ==>
              ScalarOf(w, k, TrimSpace(parts[i])) == Some(ScalarsOf(w, k, parts).value[i])
              && Fits(k, ScalarsOf(w, k, parts).value[i])
  {
    if parts != [] {
      ScalarsOfFit(w, k, parts[..|parts| - 1]);
      ScalarOfFits(w, k, TrimSpace(parts[|parts| - 1]));
    }
  }

  lemma {:induction false} SetPlainTyped(w: World, t: Type, v: Value, key: Str, next: nat)
    requires Typed(t, v) && ValidType(t) && !t.StructT?
    ensures Typed(t, SetPlain(w, t, v, key, next).v) && SetPlain(w, t, v, key, next).next == next
  {
    var text := Getenv(w, key);
    if t.ScalarT? && ScalarOf(w, t.k, text).Some? {
      ScalarOfFits(w, t.k, text);
    } else if t.SliceT? && ListOf(w, t.k, text).Some? {
      ScalarsOfFit(w, t.k, Split(text, ','));
    }
  }

  lemma {:induction false} FieldTyped(w: World, prefix: Str, f: Field, v: Value, next: nat)
    requires Typed(f.t, v)
    ensures Typed(f.t, ParseField(w, prefix, f, v, next).v)
    ensures ParseField(w, prefix, f, v, next).next >= next
    decreases f
  {
    if Inner(f.t).Some? {
      InnerTyped(f.t, v);
      TypedValid(f.t, v);
      FieldsTyped(w, KeyPrefix(prefix, f), Inner(f.t).value, InnerValues(f.t, v), next);
    } else if f.t.PtrT? {
      ZeroTyped(f.t.elem);
      SetPlainTyped(w, f.t.elem, if v.PtrV? then v.target else ZeroOf(f.t.elem), EnvKey(prefix, f), next);
    } else {
      TypedValid(f.t, v);
      SetPlainTyped(w, f.t, v, EnvKey(prefix, f), next);
    }
  }

  lemma {:induction false} FieldsTyped(w: World, prefix: Str, fs: seq<Field>, vs: seq<Value>, next: nat)
    requires TypedAll(fs, vs)
    ensures TypedAll(fs, ParseFields(w, prefix, fs, vs, next).vs)
    ensures ParseFields(w, prefix, fs, vs, next).next >= next
    decreases fs
  {
    if fs != [] {
      var h := ParseField(w, prefix, fs[0], vs[0], next);
      FieldTyped(w, prefix, fs[0], vs[0], next);
      var out := ParseFields(w, prefix, fs, vs, next);
      if h.failed {
        assert out.vs[1..] == vs[1..];
      } else {
        FieldsTyped(w, prefix, fs[1..], vs[1..], h.next);
        assert out.vs[1..] == ParseFields(w, prefix, fs[1..], vs[1..], h.next).vs;
      }
    }
  }

  // ---- the loops ---------------------------------------------------------------------------

  /** setSliceField: all elements are read before the field is written. */
  method SetSliceField(w: World, k: Kind, was: seq<Scalar>, key: Str) returns (xs: seq<Scalar>, failed: bool)
    requires k.Valid()
    ensures FieldOut(SliceV(xs), false, failed, 0) == SetSlice(w, Some(k), SliceV(was), key, 0)
  {
    var text := Getenv(w, key);
    if text == [] {
      return was, false;
    }
    var elements := Split(text, ',');
    var slice: seq<Scalar> := [];
    for i := 0 to |elements|
      invariant ScalarsOf(w, k, elements[..i]) == Some(slice)
    {
      ScalarsNext(w, k, elements, i);
      var x := ScalarOf(w, k, TrimSpace(elements[i]));
      if x.None? {
        ScalarsStayNone(w, k, elements, i + 1);
        return was, true;
      }
      slice := slice + [x.value];
    }
    assert elements[..|elements|] == elements;
    return slice, false;
  }

  lemma {:induction false} ScalarsNext(w: World, k: Kind, parts: seq<Str>, i: nat)
    requires k.Valid() && i < |parts|
    ensures ScalarsOf(w, k, parts[..i + 1]) ==
            var xs, x := ScalarsOf(w, k, parts[..i]), ScalarOf(w, k, TrimSpace(parts[i]));
            if xs.Some? && x.Some? then Some(xs.value + [x.value]) else None
  {
    assert parts[..i + 1][..i] == parts[..i];
  }

  lemma {:induction false} ScalarsStayNone(w: World, k: Kind, parts: seq<Str>, n: nat)
    requires k.Valid() && n <= |parts| && ScalarsOf(w, k, parts[..n]).None?
    ensures ScalarsOf(w, k, parts).None?
    decreases |parts|
  {
    if n == |parts| {
      assert parts[..n] == parts;
    } else {
      assert parts[..|parts| - 1][..n] == parts[..n];
      ScalarsStayNone(w, k, parts[..|parts| - 1], n);
    }
  }

  lemma {:induction false} TypedFrom(fs: seq<Field>, vs: seq<Value>, i: nat)
    requires TypedAll(fs, vs) && i <= |fs|
    ensures TypedAll(fs[i..], vs[i..])
    decreases i
  {
    if i > 0 {
      TypedFrom(fs, vs, i - 1);
      assert fs[i - 1..][1..] == fs[i..] && vs[i - 1..][1..] == vs[i..];
    } else {
      assert fs[0..] == fs && vs[0..] == vs;
    }
  }

  /** The whole walk, as the fields before i done, with what they gave, and the walk over the others. */
  ghost predicate AtField(w: World, prefix: Str, fs: seq<Field>, vs: seq<Value>, next: nat,
                          i: nat, done: seq<Value>, isSet: bool, nx: nat)
    requires TypedAll(fs, vs) && i <= |fs|
  {
    TypedFrom(fs, vs, i);
    var rest := ParseFields(w, prefix, fs[i..], vs[i..], nx);
    && |done| == i
    && ParseFields(w, prefix, fs, vs, next) ==
       FieldsOut(done + rest.vs, !rest.failed && (isSet || rest.isSet), rest.failed, rest.next)
  }

  lemma {:induction false} AtStart(w: World, prefix: Str, fs: seq<Field>, vs: seq<Value>, next: nat)
    requires TypedAll(fs, vs)
    ensures AtField(w, prefix, fs, vs, next, 0, [], false, next)
  {
    assert fs[0..] == fs && vs[0..] == vs;
  }

  lemma {:induction false} TypedAt(fs: seq<Field>, vs: seq<Value>, i: nat)
    requires TypedAll(fs, vs) && i < |fs|
    ensures Typed(fs[i].t, vs[i])
  {
    TypedFrom(fs, vs, i);
    assert fs[i..][0] == fs[i] && vs[i..][0] == vs[i];
  }

  /** The field at i either ends the walk or takes it one field on. */
  lemma {:induction false} AtNext(w: World, prefix: Str, fs: seq<Field>, vs: seq<Value>, next: nat,
               i: nat, done: seq<Value>, isSet: bool, nx: nat)
    requires TypedAll(fs, vs) && i < |fs| && AtField(w, prefix, fs, vs, next, i, done, isSet, nx)
    ensures Typed(fs[i].t, vs[i])
    ensures var h := ParseField(w, prefix, fs[i], vs[i], nx);
            if h.failed then
              ParseFields(w, prefix, fs, vs, next) == FieldsOut(done + [h.v] + vs[i + 1..], false, true, h.next)
            else
              AtField(w, prefix, fs, vs, next, i + 1, done + [h.v], isSet || h.isSet, h.next)
  {
    TypedAt(fs, vs, i);
    TypedFrom(fs, vs, i);
    TypedFrom(fs, vs, i + 1);
    var fs', vs' := fs[i..], vs[i..];
    assert fs'[0] == fs[i] && vs'[0] == vs[i] && fs'[1..] == fs[i + 1..] && vs'[1..] == vs[i + 1..];
    var h := ParseField(w, prefix, fs[i], vs[i], nx);
    if h.failed {
      assert done + ([h.v] + vs[i + 1..]) == done + [h.v] + vs[i + 1..];
    } else {
      var r := ParseFields(w, prefix, fs[i + 1..], vs[i + 1..], h.next);
      assert done + ([h.v] + r.vs) == done + [h.v] + r.vs;
    }
  }

  lemma {:induction false} AtEnd(w: World, prefix: Str, fs: seq<Field>, vs: seq<Value>, next: nat,
                                 done: seq<Value>, isSet: bool, nx: nat)
    requires TypedAll(fs, vs) && AtField(w, prefix, fs, vs, next, |fs|, done, isSet, nx)
    ensures ParseFields(w, prefix, fs, vs, next) == FieldsOut(done, isSet, false, nx)
  {
    assert fs[|fs|..] == [];
  }
}
