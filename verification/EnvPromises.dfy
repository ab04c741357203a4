/**
 * What loading from the environment promises, leaf by leaf and without the walk: which value
 * each leaf ends with, when loading fails, which pointers come to exist, that loading twice
 * is loading once, and which variables matter at all.
 */
module EnvPromises {
  import opened Wrappers
  import opened Bytes
  import opened ConfigTypes
  import opened ConfigTree
  import opened EnvOverlay

  /** The prefix the struct at a path hands down, and the variable of a leaf. */
  function LeafKey(prefix: Str, fs: seq<Field>, i: nat, rest: seq<nat>): Str
    requires LeafType(fs, i, rest).Some?
    decreases fs
  {
    if i > 0 then LeafKey(prefix, fs[1..], i - 1, rest)
    else if Inner(fs[0].t).Some? then
      LeafKey(KeyPrefix(prefix, fs[0]), Inner(fs[0].t).value, rest[0], rest[1..])
    else EnvKey(prefix, fs[0])
  }

  /** The text the environment gives a leaf. */
  function LeafText(w: World, prefix: Str, fs: seq<Field>, i: nat, rest: seq<nat>): Str
    requires LeafType(fs, i, rest).Some?
  {
    Getenv(w, LeafKey(prefix, fs, i, rest))
  }

  /** The type a leaf's text is read at: a pointer leaf is read as what it points to. */
  function ReadType(t: Type): Type {
    if t.PtrT? then t.elem else t
  }

  /** The text cannot become a value of the leaf. */
  predicate Unparsable(w: World, t: Type, text: Str)
    requires ValidType(t)
  {
    match ReadType(t)
    case ScalarT(k) => ScalarOf(w, k, text).None?
    case SliceT(k) => ListOf(w, k, text).None?
    case _ => true
  }

  /** Leaves whose variables make parseEnv report that something was set: slices do not. */
  predicate Counts(t: Type) {
    !ReadType(t).SliceT? && !ReadType(t).OtherSliceT?
  }

  /** What a text makes of a leaf that is there: the value it says, or else what it was. A nil pointer stays nil. */
  function Overlaid(w: World, t: Type, text: Str, was: Value): Value
    requires ValidType(t)
  {
    if text == [] then was
    else
      match t
      case ScalarT(k) => if ScalarOf(w, k, text).Some? then ScalarV(ScalarOf(w, k, text).value) else was
      case SliceT(k) => if ListOf(w, k, text).Some? then SliceV(ListOf(w, k, text).value) else was
      case PtrT(elem) => if was.PtrV? then PtrV(was.id, Overlaid(w, elem, text, was.target)) else was
      case _ => was
  }

  // ---- failing and setting do not depend on the values -----------------------------------

  predicate FieldFails(w: World, prefix: Str, f: Field)
    requires ValidType(f.t)
    decreases f
  {
    if Inner(f.t).Some? then Fails(w, KeyPrefix(prefix, f), Inner(f.t).value)
    else Getenv(w, EnvKey(prefix, f)) != [] && Unparsable(w, f.t, Getenv(w, EnvKey(prefix, f)))
  }

  predicate Fails(w: World, prefix: Str, fs: seq<Field>)
    requires ValidTypes(fs)
    decreases fs
  {
    fs != [] && (FieldFails(w, prefix, fs[0]) || Fails(w, prefix, fs[1..]))
  }

  predicate FieldSets(w: World, prefix: Str, f: Field)
    decreases f
  {
    if Inner(f.t).Some? then Sets(w, KeyPrefix(prefix, f), Inner(f.t).value)
    else Counts(f.t) && Getenv(w, EnvKey(prefix, f)) != []
  }

  predicate Sets(w: World, prefix: Str, fs: seq<Field>)
    decreases fs
  {
    fs != [] && (FieldSets(w, prefix, fs[0]) || Sets(w, prefix, fs[1..]))
  }

  lemma {:induction false} FieldVerdict(w: World, prefix: Str, f: Field, v: Value, next: nat)
    requires Typed(f.t, v) && ValidType(f.t)
    ensures var out := ParseField(w, prefix, f, v, next);
            (out.failed <==> FieldFails(w, prefix, f)) && out.isSet == (!out.failed && FieldSets(w, prefix, f))
    decreases f
  {
    if Inner(f.t).Some? {
      InnerTyped(f.t, v);
      FieldsVerdict(w, KeyPrefix(prefix, f), Inner(f.t).value, InnerValues(f.t, v), next);
    }
  }

  lemma {:induction false} FieldsVerdict(w: World, prefix: Str, fs: seq<Field>, vs: seq<Value>, next: nat)
    requires TypedAll(fs, vs) && ValidTypes(fs)
    ensures var out := ParseFields(w, prefix, fs, vs, next);
            (out.failed <==> Fails(w, prefix, fs)) && out.isSet == (!out.failed && Sets(w, prefix, fs))
    decreases fs
  {
    if fs != [] {
      FieldVerdict(w, prefix, fs[0], vs[0], next);
      var h := ParseField(w, prefix, fs[0], vs[0], next);
      FieldsVerdict(w, prefix, fs[1..], vs[1..], h.next);
    }
  }

  // ---- and are a matter of single leaves ---------------------------------------------------

  predicate SettingLeaf(w: World, prefix: Str, fs: seq<Field>, i: nat, rest: seq<nat>) {
    && LeafType(fs, i, rest).Some?
    && Counts(LeafType(fs, i, rest).value)
    && LeafText(w, prefix, fs, i, rest) != []
  }

  predicate FailingLeaf(w: World, prefix: Str, fs: seq<Field>, i: nat, rest: seq<nat>) {
    && LeafType(fs, i, rest).Some? && ValidType(LeafType(fs, i, rest).value)
    && LeafText(w, prefix, fs, i, rest) != []
    && Unparsable(w, LeafType(fs, i, rest).value, LeafText(w, prefix, fs, i, rest))
  }

  lemma {:induction false} LeafSets(w: World, prefix: Str, fs: seq<Field>, i: nat, rest: seq<nat>)
    requires SettingLeaf(w, prefix, fs, i, rest)
    ensures Sets(w, prefix, fs)
    decreases fs
  {
    if i > 0 {
      LeafSets(w, prefix, fs[1..], i - 1, rest);
    } else if Inner(fs[0].t).Some? {
      LeafSets(w, KeyPrefix(prefix, fs[0]), Inner(fs[0].t).value, rest[0], rest[1..]);
    }
  }

  lemma {:induction false} SetsLeaf(w: World, prefix: Str, fs: seq<Field>) returns (i: nat, rest: seq<nat>)
    requires Sets(w, prefix, fs)
    ensures SettingLeaf(w, prefix, fs, i, rest)
    decreases fs
  {
    if Sets(w, prefix, fs[1..]) {
      i, rest := SetsLeaf(w, prefix, fs[1..]);
      i := i + 1;
    } else if Inner(fs[0].t).Some? {
      i, rest := SetsLeaf(w, KeyPrefix(prefix, fs[0]), Inner(fs[0].t).value);
      i, rest := 0, [i] + rest;
    } else {
      i, rest := 0, [];
    }
  }

  lemma {:induction false} LeafFails(w: World, prefix: Str, fs: seq<Field>, i: nat, rest: seq<nat>)
    requires ValidTypes(fs) && FailingLeaf(w, prefix, fs, i, rest)
    ensures Fails(w, prefix, fs)
    decreases fs
  {
    if i > 0 {
      LeafFails(w, prefix, fs[1..], i - 1, rest);
    } else if Inner(fs[0].t).Some? {
      LeafFails(w, KeyPrefix(prefix, fs[0]), Inner(fs[0].t).value, rest[0], rest[1..]);
    }
  }

  lemma {:induction false} FailsLeaf(w: World, prefix: Str, fs: seq<Field>) returns (i: nat, rest: seq<nat>)
    requires ValidTypes(fs) && Fails(w, prefix, fs)
    ensures FailingLeaf(w, prefix, fs, i, rest)
    decreases fs
  {
    if Fails(w, prefix, fs[1..]) {
      i, rest := FailsLeaf(w, prefix, fs[1..]);
      i := i + 1;
    } else if Inner(fs[0].t).Some? {
      i, rest := FailsLeaf(w, KeyPrefix(prefix, fs[0]), Inner(fs[0].t).value);
      i, rest := 0, [i] + rest;
    } else {
      i, rest := 0, [];
    }
  }

  /** Loading fails exactly when some leaf has a non-empty variable that does not parse. */
  lemma {:induction false} FailsExactly(w: World, prefix: Str, fs: seq<Field>, vs: seq<Value>, next: nat)
    requires TypedAll(fs, vs)
    ensures ParseFields(w, prefix, fs, vs, next).failed <==> exists i, rest :: FailingLeaf(w, prefix, fs, i, rest)
  {
    TypedAllValid(fs, vs);
    FieldsVerdict(w, prefix, fs, vs, next);
    if Fails(w, prefix, fs) {
      var i, rest := FailsLeaf(w, prefix, fs);
    }
    if i: nat, rest :| FailingLeaf(w, prefix, fs, i, rest) {
      LeafFails(w, prefix, fs, i, rest);
    }
  }

  /** Some leaf that is no slice has a non-empty variable. */
  ghost predicate AnySet(w: World, prefix: Str, fs: seq<Field>) {
    exists i: nat, rest :: SettingLeaf(w, prefix, fs, i, rest)
  }

  lemma {:induction false} SetsIff(w: World, prefix: Str, fs: seq<Field>)
    ensures Sets(w, prefix, fs) <==> AnySet(w, prefix, fs)
  {
    if Sets(w, prefix, fs) {
      var i, rest := SetsLeaf(w, prefix, fs);
    }
    if i: nat, rest :| SettingLeaf(w, prefix, fs, i, rest) {
      LeafSets(w, prefix, fs, i, rest);
    }
  }

  /** On success it reports true exactly when some leaf that is no slice has a non-empty variable. */
  lemma {:induction false} SetsExactly(w: World, prefix: Str, fs: seq<Field>, vs: seq<Value>, next: nat)
    requires TypedAll(fs, vs) && !ParseFields(w, prefix, fs, vs, next).failed
    ensures ParseFields(w, prefix, fs, vs, next).isSet <==> AnySet(w, prefix, fs)
  {
    TypedAllValid(fs, vs);
    FieldsVerdict(w, prefix, fs, vs, next);
    SetsIff(w, prefix, fs);
  }

  // ---- the value of every leaf ---------------------------------------------------------------

  lemma {:induction false} LeafTypeValid(fs: seq<Field>, i: nat, rest: seq<nat>)
    requires ValidTypes(fs) && LeafType(fs, i, rest).Some?
    ensures ValidType(LeafType(fs, i, rest).value) && Inner(LeafType(fs, i, rest).value).None?
    decreases fs
  {
    if i > 0 {
      LeafTypeValid(fs[1..], i - 1, rest);
    } else if Inner(fs[0].t).Some? {
      LeafTypeValid(Inner(fs[0].t).value, rest[0], rest[1..]);
    }
  }

  lemma {:induction false} ReadZero(fs: seq<Field>, i: nat, rest: seq<nat>)
    requires ValidTypes(fs) && TypedAll(fs, ZeroAll(fs)) && LeafType(fs, i, rest).Some?
    ensures ReadLeaf(fs, ZeroAll(fs), i, rest) == ZeroOf(LeafType(fs, i, rest).value)
    decreases fs
  {
    assert ZeroAll(fs)[1..] == ZeroAll(fs[1..]);
    if i > 0 {
      ReadZero(fs[1..], i - 1, rest);
    } else if Inner(fs[0].t).Some? {
      InnerTyped(fs[0].t, ZeroAll(fs)[0]);
      ReadZero(Inner(fs[0].t).value, rest[0], rest[1..]);
    }
  }

  /** The leaf before and after, as one statement to carry through the recursion. */
  ghost predicate LeafRight(w: World, prefix: Str, fs: seq<Field>, vs: seq<Value>, out: seq<Value>, i: nat,
                            rest: seq<nat>)
    requires TypedAll(fs, vs) && TypedAll(fs, out) && ValidTypes(fs) && LeafType(fs, i, rest).Some?
  {
    LeafTypeValid(fs, i, rest);
    var t := LeafType(fs, i, rest).value;
    var text := LeafText(w, prefix, fs, i, rest);
    var was := ReadLeaf(fs, vs, i, rest);
    var now := ReadLeaf(fs, out, i, rest);
    if Reached(fs, out, i, rest) then now == Overlaid(w, t, text, was)
    else was == now == ZeroOf(t) && (Counts(t) ==> text == [])
  }

  lemma {:induction false} LeavesRight(w: World, prefix: Str, fs: seq<Field>, vs: seq<Value>, next: nat,
                                       i: nat, rest: seq<nat>)
    requires TypedAll(fs, vs) && ValidTypes(fs) && LeafType(fs, i, rest).Some?
    requires !ParseFields(w, prefix, fs, vs, next).failed
    ensures TypedAll(fs, ParseFields(w, prefix, fs, vs, next).vs)
    ensures LeafRight(w, prefix, fs, vs, ParseFields(w, prefix, fs, vs, next).vs, i, rest)
    decreases fs
  {
    var out := ParseFields(w, prefix, fs, vs, next);
    FieldsTyped(w, prefix, fs, vs, next);
    var h := ParseField(w, prefix, fs[0], vs[0], next);
    assert out.vs[0] == h.v && out.vs[1..] == ParseFields(w, prefix, fs[1..], vs[1..], h.next).vs;
    if i > 0 {
      LeavesRight(w, prefix, fs[1..], vs[1..], h.next, i - 1, rest);
    } else if Inner(fs[0].t).Some? {
      InnerRight(w, prefix, fs[0], vs[0], next, rest);
    }
  }

  /** The case of a field that leads into a struct. */
  lemma {:induction false} InnerRight(w: World, prefix: Str, f: Field, v: Value, next: nat, rest: seq<nat>)
    requires Typed(f.t, v) && ValidType(f.t) && Inner(f.t).Some?
    requires rest != [] && LeafType(Inner(f.t).value, rest[0], rest[1..]).Some?
    requires !ParseField(w, prefix, f, v, next).failed
    ensures Typed(f.t, ParseField(w, prefix, f, v, next).v)
    ensures LeafRight(w, prefix, [f], [v], [ParseField(w, prefix, f, v, next).v], 0, rest)
    decreases f
  {
    var t, sub := f.t, Inner(f.t).value;
    var out := ParseField(w, prefix, f, v, next);
    FieldTyped(w, prefix, f, v, next);
    InnerTyped(t, v);
    InnerTyped(t, out.v);
    var r := ParseFields(w, KeyPrefix(prefix, f), sub, InnerValues(t, v), next);
    LeavesRight(w, KeyPrefix(prefix, f), sub, InnerValues(t, v), next, rest[0], rest[1..]);
    if out.v.NilV? {
      FieldsVerdict(w, KeyPrefix(prefix, f), sub, InnerValues(t, v), next);
      ReadZero(sub, rest[0], rest[1..]);
      if SettingLeaf(w, KeyPrefix(prefix, f), sub, rest[0], rest[1..]) {
        LeafSets(w, KeyPrefix(prefix, f), sub, rest[0], rest[1..]);
      }
    }
  }

  /**
   * The load will find or make every struct on the way to the leaf: each pointer there is either
   * non-nil already or has some leaf behind it, no slice, whose variable is not empty.
   */
  ghost predicate WillReach(w: World, prefix: Str, fs: seq<Field>, vs: seq<Value>, i: nat, rest: seq<nat>)
    requires TypedAll(fs, vs) && LeafType(fs, i, rest).Some?
    decreases fs
  {
    if i > 0 then WillReach(w, prefix, fs[1..], vs[1..], i - 1, rest)
    else
      var t, inside := fs[0].t, KeyPrefix(prefix, fs[0]);
      if Inner(t).None? then true
      else
        InnerTyped(t, vs[0]);
        && (vs[0].NilV? ==> AnySet(w, inside, Inner(t).value))
        && WillReach(w, inside, Inner(t).value, InnerValues(t, vs[0]), rest[0], rest[1..])
  }

  lemma {:induction false} WillReachExact(w: World, prefix: Str, fs: seq<Field>, vs: seq<Value>, next: nat,
                                          i: nat, rest: seq<nat>)
    requires TypedAll(fs, vs) && LeafType(fs, i, rest).Some?
    requires !ParseFields(w, prefix, fs, vs, next).failed
    ensures TypedAll(fs, ParseFields(w, prefix, fs, vs, next).vs)
    ensures Reached(fs, ParseFields(w, prefix, fs, vs, next).vs, i, rest) <==> WillReach(w, prefix, fs, vs, i, rest)
    decreases fs
  {
    var out := ParseFields(w, prefix, fs, vs, next);
    FieldsTyped(w, prefix, fs, vs, next);
    var h := ParseField(w, prefix, fs[0], vs[0], next);
    assert out.vs[0] == h.v && out.vs[1..] == ParseFields(w, prefix, fs[1..], vs[1..], h.next).vs;
    if i > 0 {
      WillReachExact(w, prefix, fs[1..], vs[1..], h.next, i - 1, rest);
    } else if Inner(fs[0].t).Some? {
      var t, sub, inside := fs[0].t, Inner(fs[0].t).value, KeyPrefix(prefix, fs[0]);
      InnerTyped(t, vs[0]);
      InnerTyped(t, h.v);
      TypedAllValid(sub, InnerValues(t, vs[0]));
      FieldsVerdict(w, inside, sub, InnerValues(t, vs[0]), next);
      SetsIff(w, inside, sub);
      WillReachExact(w, inside, sub, InnerValues(t, vs[0]), next, rest[0], rest[1..]);
    }
  }

  /**
   * What a load is for: with a non-empty variable the leaf has the value its text gives, a pointer
   * leaf as a non-nil pointer to it (the same pointer, if there was one); otherwise it is as before.
   */
  predicate AsWanted(w: World, t: Type, text: Str, was: Value, now: Value)
    requires ValidType(t)
  {
    if t.PtrT? && text != [] then
      && now.PtrV? && (was.PtrV? ==> now.id == was.id)
      && now.target == Overlaid(w, t.elem, text, if was.PtrV? then was.target else ZeroOf(t.elem))
    else now == Overlaid(w, t, text, was)
  }

  lemma {:induction false} LeafOverlay(w: World, prefix: Str, fs: seq<Field>, vs: seq<Value>, next: nat,
                                       i: nat, rest: seq<nat>)
    requires TypedAll(fs, vs) && LeafType(fs, i, rest).Some?
    requires !ParseFields(w, prefix, fs, vs, next).failed
    ensures TypedAll(fs, ParseFields(w, prefix, fs, vs, next).vs) && ValidType(LeafType(fs, i, rest).value)
    ensures var out := ParseFields(w, prefix, fs, vs, next).vs;
            var t := LeafType(fs, i, rest).value;
            var text := LeafText(w, prefix, fs, i, rest);
            ReadLeaf(fs, out, i, rest) == Overlaid(w, t, text, ReadLeaf(fs, vs, i, rest)) <==>
            (t.SliceT? ==> text == [] || WillReach(w, prefix, fs, vs, i, rest))
  {
    TypedAllValid(fs, vs);
    LeafTypeValid(fs, i, rest);
    LeavesRight(w, prefix, fs, vs, next, i, rest);
    WillReachExact(w, prefix, fs, vs, next, i, rest);
    var t := LeafType(fs, i, rest).value;
    var text := LeafText(w, prefix, fs, i, rest);
    if t.SliceT? && text != [] {
      if ListOf(w, t.k, text).None? {
        LeafFails(w, prefix, fs, i, rest);
        FieldsVerdict(w, prefix, fs, vs, next);
      } else {
        ScalarsOfFit(w, t.k, Split(text, ','));
      }
    }
  }

  lemma {:induction false} LeafTyped(fs: seq<Field>, vs: seq<Value>, i: nat, rest: seq<nat>)
    requires TypedAll(fs, vs) && LeafType(fs, i, rest).Some?
    ensures Typed(LeafType(fs, i, rest).value, ReadLeaf(fs, vs, i, rest))
    decreases fs
  {
    if i > 0 {
      LeafTyped(fs[1..], vs[1..], i - 1, rest);
    } else if Inner(fs[0].t).Some? {
      InnerTyped(fs[0].t, vs[0]);
      LeafTyped(Inner(fs[0].t).value, InnerValues(fs[0].t, vs[0]), rest[0], rest[1..]);
    }
  }

  /**
   * After a successful load every leaf is as wanted, whatever structs had to be made on the way,
   * with two exceptions, and exactly two: a slice whose variable is set, behind a nil pointer to a
   * struct behind which nothing but slices is set; and a nil pointer to a scalar or a slice whose
   * variable is set.
   */
  lemma {:induction false} FlatOverlay(w: World, prefix: Str, fs: seq<Field>, vs: seq<Value>, next: nat,
                                       i: nat, rest: seq<nat>)
    requires TypedAll(fs, vs) && LeafType(fs, i, rest).Some?
    requires !ParseFields(w, prefix, fs, vs, next).failed
    ensures TypedAll(fs, ParseFields(w, prefix, fs, vs, next).vs) && ValidType(LeafType(fs, i, rest).value)
    ensures var out := ParseFields(w, prefix, fs, vs, next).vs;
            var t, text := LeafType(fs, i, rest).value, LeafText(w, prefix, fs, i, rest);
            var was, now := ReadLeaf(fs, vs, i, rest), ReadLeaf(fs, out, i, rest);
            AsWanted(w, t, text, was, now) <==>
              && (t.SliceT? ==> text == [] || WillReach(w, prefix, fs, vs, i, rest))
              && (t.PtrT? ==> text == [] || was.PtrV?)
  {
    LeafOverlay(w, prefix, fs, vs, next, i, rest);
    LeafTyped(fs, vs, i, rest);
  }

  /** A pointer to a scalar. */
  function OnePointer(k: Kind): seq<Field> {
    [Field("A", [], [], [], [], PtrT(ScalarT(k)))]
  }

  /**
   * The second exception occurs, for scalars of every kind: the variable is set and parses, the load
   * succeeds and reports that something was set, and the pointer is nil as before.
   */
  lemma {:induction false} ScalarDropped(w: World, k: Kind, next: nat)
    requires k.Valid() && Getenv(w, "A") != [] && ScalarOf(w, k, Getenv(w, "A")).Some?
    ensures TypedAll(OnePointer(k), [NilV])
    ensures ParseFields(w, [], OnePointer(k), [NilV], next) == FieldsOut([NilV], true, false, next)
    ensures LeafType(OnePointer(k), 0, []) == Some(PtrT(ScalarT(k)))
    ensures LeafText(w, [], OnePointer(k), 0, []) == Getenv(w, "A") && ReadLeaf(OnePointer(k), [NilV], 0, []) == NilV
    ensures !AsWanted(w, PtrT(ScalarT(k)), Getenv(w, "A"), NilV, NilV)
  {
    var fs := OnePointer(k);
    assert ToUpper("A") == "A" && fs[1..] == [] && [NilV][1..] == [];
    assert EnvKey([], fs[0]) == "A";
    assert ParseField(w, [], fs[0], NilV, next) == FieldOut(NilV, true, false, next);
    assert ParseFields(w, [], fs[1..], [], next) == FieldsOut([], false, false, next);
  }

  /** A struct holding one list of strings, behind a pointer. */
  const ONE_SLICE: seq<Field> :=
    [Field("A", [], [], [], [], PtrT(StructT([Field("B", [], [], [], [], SliceT(StringK))])))]

  /** The first exception occurs: the variable is set, the load succeeds, and the list is dropped. */
  lemma {:induction false} SliceDropped(w: World, next: nat)
    requires Getenv(w, "A_B") != []
    ensures TypedAll(ONE_SLICE, [NilV])
    ensures ParseFields(w, [], ONE_SLICE, [NilV], next) == FieldsOut([NilV], false, false, next)
    ensures LeafType(ONE_SLICE, 0, [0]) == Some(SliceT(StringK)) && LeafText(w, [], ONE_SLICE, 0, [0]) != []
    ensures ReadLeaf(ONE_SLICE, [NilV], 0, [0]) == SliceV([])
    ensures !AsWanted(w, SliceT(StringK), LeafText(w, [], ONE_SLICE, 0, [0]), SliceV([]), SliceV([]))
  {
    var inner := [Field("B", [], [], [], [], SliceT(StringK))];
    var text := Getenv(w, "A_B");
    assert ToUpper("A") == "A" && ToUpper("B") == "B" && "A" + "_" + "B" == "A_B";
    assert ONE_SLICE[1..] == [] && [NilV][1..] == [] && inner[1..] == [];
    assert KeyPrefix([], ONE_SLICE[0]) == "A" && EnvKey("A", inner[0]) == "A_B";
    StringsParse(w, Split(text, ','));
    ScalarsOfFit(w, StringK, Split(text, ','));
    var list := ListOf(w, StringK, text).value;
    assert ZeroAll(inner) == [SliceV([])];
    assert ParseField(w, "A", inner[0], SliceV([]), next) == FieldOut(SliceV(list), false, false, next);
    assert ParseFields(w, "A", inner[1..], [], next) == FieldsOut([], false, false, next);
    assert ParseFields(w, "A", inner, [SliceV([])], next) == FieldsOut([SliceV(list)], false, false, next);
    assert ParseField(w, [], ONE_SLICE[0], NilV, next) == FieldOut(NilV, false, false, next);
  }

  lemma {:induction false} StringsParse(w: World, parts: seq<Str>)
    ensures ScalarsOf(w, StringK, parts).Some?
  {
    if parts != [] { StringsParse(w, parts[..|parts| - 1]); }
  }

  // ---- lazy allocation -------------------------------------------------------------------------

  /** The prefix under which the fields behind a pointer look for their variables. */
  function PointerPrefix(prefix: Str, fs: seq<Field>, i: nat, rest: seq<nat>): Str
    requires PointerFields(fs, i, rest).Some?
    decreases fs
  {
    if i > 0 then PointerPrefix(prefix, fs[1..], i - 1, rest)
    else if rest == [] then KeyPrefix(prefix, fs[0])
    else PointerPrefix(KeyPrefix(prefix, fs[0]), Inner(fs[0].t).value, rest[0], rest[1..])
  }

  lemma {:induction false} PointerSets(w: World, prefix: Str, fs: seq<Field>, i: nat, rest: seq<nat>)
    requires PointerFields(fs, i, rest).Some?
    requires Sets(w, PointerPrefix(prefix, fs, i, rest), PointerFields(fs, i, rest).value)
    ensures Sets(w, prefix, fs)
    decreases fs
  {
    if i > 0 {
      PointerSets(w, prefix, fs[1..], i - 1, rest);
    } else if rest != [] {
      PointerSets(w, KeyPrefix(prefix, fs[0]), Inner(fs[0].t).value, rest[0], rest[1..]);
    }
  }

  /** A pointer that was there keeps its identity; one that was not comes to exist when something is set behind it. */
  ghost predicate PointerRight(w: World, prefix: Str, fs: seq<Field>, vs: seq<Value>, out: FieldsOut,
                               next: nat, i: nat, rest: seq<nat>)
    requires TypedAll(fs, vs) && TypedAll(fs, out.vs) && PointerFields(fs, i, rest).Some?
  {
    var was, now := PointerId(fs, vs, i, rest), PointerId(fs, out.vs, i, rest);
    if was.Some? then now == was
    else
      && (now.Some? <==> Sets(w, PointerPrefix(prefix, fs, i, rest), PointerFields(fs, i, rest).value))
      && (now.Some? ==> next <= now.value < out.next)
  }

  lemma {:induction false} PointersRight(w: World, prefix: Str, fs: seq<Field>, vs: seq<Value>, next: nat,
          i: nat, rest: seq<nat>)
    requires TypedAll(fs, vs) && ValidTypes(fs) && PointerFields(fs, i, rest).Some?
    requires !ParseFields(w, prefix, fs, vs, next).failed
    ensures TypedAll(fs, ParseFields(w, prefix, fs, vs, next).vs)
    ensures PointerRight(w, prefix, fs, vs, ParseFields(w, prefix, fs, vs, next), next, i, rest)
    decreases fs
  {
    var out := ParseFields(w, prefix, fs, vs, next);
    FieldsTyped(w, prefix, fs, vs, next);
    var h := ParseField(w, prefix, fs[0], vs[0], next);
    var tail := ParseFields(w, prefix, fs[1..], vs[1..], h.next);
    FieldTyped(w, prefix, fs[0], vs[0], next);
    FieldsTyped(w, prefix, fs[1..], vs[1..], h.next);
    assert out.vs[0] == h.v && out.vs[1..] == tail.vs;
    if i > 0 {
      PointersRight(w, prefix, fs[1..], vs[1..], h.next, i - 1, rest);
    } else {
      PointerInField(w, prefix, fs[0], vs[0], next, rest);
    }
  }

  lemma {:induction false} PointerInField(w: World, prefix: Str, f: Field, v: Value, next: nat, rest: seq<nat>)
    requires Typed(f.t, v) && ValidType(f.t) && PointerFields([f], 0, rest).Some?
    requires !ParseField(w, prefix, f, v, next).failed
    ensures var h := ParseField(w, prefix, f, v, next);
            && Typed(f.t, h.v)
            && PointerRight(w, prefix, [f], [v], FieldsOut([h.v], h.isSet, false, h.next), next, 0, rest)
    decreases f
  {
    var t, sub, pre := f.t, Inner(f.t).value, KeyPrefix(prefix, f);
    FieldTyped(w, prefix, f, v, next);
    InnerTyped(t, v);
    FieldsVerdict(w, pre, sub, InnerValues(t, v), next);
    FieldsTyped(w, pre, sub, InnerValues(t, v), next);
    if rest != [] {
      PointersRight(w, pre, sub, InnerValues(t, v), next, rest[0], rest[1..]);
      if v.NilV? {
        ZeroPointers(sub, rest[0], rest[1..]);
        if Sets(w, PointerPrefix(pre, sub, rest[0], rest[1..]), PointerFields(sub, rest[0], rest[1..]).value) {
          PointerSets(w, pre, sub, rest[0], rest[1..]);
        }
      }
    }
  }

  /**
   * Lazy allocation is exact: after a successful load a pointer to a struct that existed is the
   * same pointer, and one that did not has become a new one exactly when some leaf behind it that
   * is no slice has a non-empty variable.
   */
  lemma {:induction false} LazyAllocation(w: World, prefix: Str, fs: seq<Field>, vs: seq<Value>, next: nat,
          i: nat, rest: seq<nat>)
    requires TypedAll(fs, vs) && PointerFields(fs, i, rest).Some?
    requires !ParseFields(w, prefix, fs, vs, next).failed
    ensures TypedAll(fs, ParseFields(w, prefix, fs, vs, next).vs)
    ensures var out := ParseFields(w, prefix, fs, vs, next);
            var was, now := PointerId(fs, vs, i, rest), PointerId(fs, out.vs, i, rest);
            && (was.Some? ==> now == was)
            && (was.None? ==>
                  (now.Some? <==> AnySet(w, PointerPrefix(prefix, fs, i, rest), PointerFields(fs, i, rest).value))
                  && (now.Some? ==> next <= now.value < out.next))
  {
    TypedAllValid(fs, vs);
    PointersRight(w, prefix, fs, vs, next, i, rest);
    SetsIff(w, PointerPrefix(prefix, fs, i, rest), PointerFields(fs, i, rest).value);
  }

  // ---- loading twice, and loading elsewhere ------------------------------------------------------

  lemma {:induction false} NothingSetNothingMade(w: World, prefix: Str, fs: seq<Field>, vs: seq<Value>, next: nat)
    requires TypedAll(fs, vs)
    ensures var out := ParseFields(w, prefix, fs, vs, next); !out.failed && !out.isSet ==> out.next == next
    decreases fs
  {
    if fs != [] {
      var f, v := fs[0], vs[0];
      var h := ParseField(w, prefix, f, v, next);
      if Inner(f.t).Some? {
        InnerTyped(f.t, v);
        NothingSetNothingMade(w, KeyPrefix(prefix, f), Inner(f.t).value, InnerValues(f.t, v), next);
      }
      NothingSetNothingMade(w, prefix, fs[1..], vs[1..], h.next);
    }
  }

  lemma {:induction false} FieldTwice(w: World, prefix: Str, f: Field, v: Value, next: nat, next': nat)
    requires Typed(f.t, v) && !ParseField(w, prefix, f, v, next).failed
    ensures var out := ParseField(w, prefix, f, v, next);
            && Typed(f.t, out.v)
            && ParseField(w, prefix, f, out.v, next') == FieldOut(out.v, out.isSet, false, next')
    decreases f
  {
    var out := ParseField(w, prefix, f, v, next);
    FieldTyped(w, prefix, f, v, next);
    if Inner(f.t).Some? {
      var sub, pre := Inner(f.t).value, KeyPrefix(prefix, f);
      InnerTyped(f.t, v);
      InnerTyped(f.t, out.v);
      LoadTwice(w, pre, sub, InnerValues(f.t, v), next, next');
      if out.v.NilV? {
        TypedValid(f.t, v);
        FieldsVerdict(w, pre, sub, InnerValues(f.t, v), next);
        FieldsVerdict(w, pre, sub, InnerValues(f.t, v), next');
        NothingSetNothingMade(w, pre, sub, InnerValues(f.t, v), next');
      }
    }
  }

  /** Loading again from the same environment changes nothing, makes nothing new and reports the same. */
  lemma {:induction false} LoadTwice(w: World, prefix: Str, fs: seq<Field>, vs: seq<Value>, next: nat, next': nat)
    requires TypedAll(fs, vs) && !ParseFields(w, prefix, fs, vs, next).failed
    ensures var out := ParseFields(w, prefix, fs, vs, next);
            && TypedAll(fs, out.vs)
            && ParseFields(w, prefix, fs, out.vs, next') == FieldsOut(out.vs, out.isSet, false, next')
    decreases fs
  {
    var out := ParseFields(w, prefix, fs, vs, next);
    FieldsTyped(w, prefix, fs, vs, next);
    if fs != [] {
      var h := ParseField(w, prefix, fs[0], vs[0], next);
      FieldTwice(w, prefix, fs[0], vs[0], next, next');
      LoadTwice(w, prefix, fs[1..], vs[1..], h.next, next');
      assert out.vs[1..] == ParseFields(w, prefix, fs[1..], vs[1..], h.next).vs;
      assert out.vs == [h.v] + out.vs[1..];
    }
  }

  /** Environments that give every leaf the same text. */
  ghost predicate Agree(w: World, w': World, prefix: Str, fs: seq<Field>) {
    && w.floats == w'.floats && w.narrow == w'.narrow
    && forall i: nat, rest: seq<nat> | LeafType(fs, i, rest).Some? ::
         LeafText(w, prefix, fs, i, rest) == LeafText(w', prefix, fs, i, rest)
  }

  lemma {:induction false} AgreeInside(w: World, w': World, prefix: Str, fs: seq<Field>)
    requires fs != [] && Agree(w, w', prefix, fs)
    ensures Agree(w, w', prefix, fs[1..])
    ensures Inner(fs[0].t).Some? ==> Agree(w, w', KeyPrefix(prefix, fs[0]), Inner(fs[0].t).value)
    ensures Inner(fs[0].t).None? ==> Getenv(w, EnvKey(prefix, fs[0])) == Getenv(w', EnvKey(prefix, fs[0]))
  {
    forall i: nat, rest: seq<nat> | LeafType(fs[1..], i, rest).Some?
      ensures LeafText(w, prefix, fs[1..], i, rest) == LeafText(w', prefix, fs[1..], i, rest)
    {
      assert LeafType(fs, i + 1, rest).Some?;
      assert LeafText(w, prefix, fs, i + 1, rest) == LeafText(w', prefix, fs, i + 1, rest);
    }
    if Inner(fs[0].t).Some? {
      var sub, pre := Inner(fs[0].t).value, KeyPrefix(prefix, fs[0]);
      forall i: nat, rest: seq<nat> | LeafType(sub, i, rest).Some?
        ensures LeafText(w, pre, sub, i, rest) == LeafText(w', pre, sub, i, rest)
      {
        assert ([i] + rest)[1..] == rest;
        assert LeafType(fs, 0, [i] + rest).Some?;
        assert LeafText(w, prefix, fs, 0, [i] + rest) == LeafText(w', prefix, fs, 0, [i] + rest);
      }
    } else {
      assert LeafText(w, prefix, fs, 0, []) == LeafText(w', prefix, fs, 0, []);
    }
  }

  lemma {:induction false} SameList(w: World, w': World, k: Kind, parts: seq<Str>)
    requires k.Valid() && w.floats == w'.floats && w.narrow == w'.narrow
    ensures ScalarsOf(w, k, parts) == ScalarsOf(w', k, parts)
  {
    if parts != [] { SameList(w, w', k, parts[..|parts| - 1]); }
  }

  lemma {:induction false} FieldLocal(w: World, w': World, prefix: Str, f: Field, v: Value, next: nat)
    requires Typed(f.t, v) && Agree(w, w', prefix, [f])
    ensures ParseField(w, prefix, f, v, next) == ParseField(w', prefix, f, v, next)
    decreases f
  {
    AgreeInside(w, w', prefix, [f]);
    TypedValid(f.t, v);
    if Inner(f.t).Some? {
      InnerTyped(f.t, v);
      LoadLocal(w, w', KeyPrefix(prefix, f), Inner(f.t).value, InnerValues(f.t, v), next);
    } else if ReadType(f.t).SliceT? {
      SameList(w, w', ReadType(f.t).k, Split(Getenv(w, EnvKey(prefix, f)), ','));
    }
  }

  /** Only the variables of the leaves matter: elsewhere environments may differ at will. */
  lemma {:induction false} LoadLocal(w: World, w': World, prefix: Str, fs: seq<Field>, vs: seq<Value>, next: nat)
    requires TypedAll(fs, vs) && Agree(w, w', prefix, fs)
    ensures ParseFields(w, prefix, fs, vs, next) == ParseFields(w', prefix, fs, vs, next)
    decreases fs
  {
    if fs != [] {
      AgreeInside(w, w', prefix, fs);
      AgreeHead(w, w', prefix, fs);
      FieldLocal(w, w', prefix, fs[0], vs[0], next);
      LoadLocal(w, w', prefix, fs[1..], vs[1..], ParseField(w, prefix, fs[0], vs[0], next).next);
    }
  }

  lemma {:induction false} OneFieldLeaf(f: Field, i: nat, rest: seq<nat>)
    requires LeafType([f], i, rest).Some?
    ensures i == 0
  {
    assert [f][1..] == [];
  }

  lemma {:induction false} AgreeHead(w: World, w': World, prefix: Str, fs: seq<Field>)
    requires fs != [] && Agree(w, w', prefix, fs)
    ensures Agree(w, w', prefix, [fs[0]])
  {
    forall i: nat, rest: seq<nat> | LeafType([fs[0]], i, rest).Some?
      ensures LeafText(w, prefix, [fs[0]], i, rest) == LeafText(w', prefix, [fs[0]], i, rest)
    {
      OneFieldLeaf(fs[0], i, rest);
      assert LeafText(w, prefix, fs, 0, rest) == LeafText(w', prefix, fs, 0, rest);
    }
  }
}
