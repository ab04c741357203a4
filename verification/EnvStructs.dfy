/**
 * parseEnv on the heap (config/config.go): structs whose fields are overwritten in place, with
 * structs embedded in them and structs behind pointers, which are allocated only when kept.
 */
module EnvStructs {
  import opened Bytes
  import opened ConfigTree
  import opened EnvOverlay

  /** The storage of one field: a value, a struct embedded in this one, or a pointer to a struct with its address. */
  datatype Slot = Plain(v: Value) | Nested(s: Struct) | Ref(p: Struct?, id: nat)

  /** The struct one slot leads to. */
  function Child(slot: Slot): Struct? {
    match slot
    case Plain(_) => null
    case Nested(s) => s
    case Ref(p, _) => p
  }

  /** All structs below one slot. */
  ghost function Below(slot: Slot): set<Struct>
    reads Child(slot)
  {
    if Child(slot) == null then {} else Child(slot).repr
  }

  /** A slot of a field of type t holds the value v. */
  ghost predicate Holds(t: Type, slot: Slot, v: Value)
    reads Child(slot), Below(slot)
    decreases t, 0
  {
    match slot
    case Plain(x) => Inner(t).None? && v == x
    case Nested(s) => t.StructT? && v.StructV? && s.Is(t.fields, v.fields)
    case Ref(p, id) =>
      && t.PtrT? && t.elem.StructT?
      && if p == null then v == NilV
         else v.PtrV? && v.id == id && v.target.StructV? && p.Is(t.elem.fields, v.target.fields)
  }

  class Struct {
    var slots: seq<Slot>
    ghost var repr: set<Struct>

    constructor (slots: seq<Slot>, ghost inside: set<Struct>)
      ensures this.slots == slots && repr == inside + {this}
    {
      this.slots := slots;
      repr := inside + {this};
    }

    /** The fields hold the values vs, and the structs below this one form a tree. */
    ghost predicate Is(fs: seq<Field>, vs: seq<Value>)
      reads this, repr
      decreases fs, 1
    {
      && this in repr
      && |slots| == |fs| == |vs|
      && (forall i :: 0 <= i < |fs| && Child(slots[i]) != null ==>
            Child(slots[i]) in repr && Child(slots[i]) in Child(slots[i]).repr)
      && (forall i :: 0 <= i < |fs| ==> Below(slots[i]) <= repr - {this})
      && (forall i :: 0 <= i < |fs| ==> Holds(fs[i].t, slots[i], vs[i]))
      && (forall i, j :: 0 <= i < |fs| && 0 <= j < |fs| && i != j ==> Below(slots[i]) !! Below(slots[j]))
    }

    /**
     * parseEnv: one pass over the fields, each written in place, stopping at the first error
     * with the fields before it written. Structs that were there stay the same objects.
     */
    method ParseEnv(w: World, prefix: Str, fs: seq<Field>, ghost vs: seq<Value>, next: nat)
      returns (isSetFields: bool, failed: bool, nx: nat, ghost now: seq<Value>)
      requires TypedAll(fs, vs) && Is(fs, vs)
      modifies repr
      ensures fresh(repr - old(repr)) && |slots| == |old(slots)| == |fs|
      ensures Is(fs, now) && FieldsOut(now, isSetFields, failed, nx) == ParseFields(w, prefix, fs, vs, next)
      ensures forall j :: 0 <= j < |fs| && Child(old(slots)[j]) != null ==> slots[j] == old(slots)[j]
      decreases fs, 2
    {
      AtStart(w, prefix, fs, vs, next);
      isSetFields, failed, nx, now := false, false, next, vs;
      ghost var done := [];
      for i := 0 to |fs|
        invariant |done| == i && |now| == |fs| && now == done + vs[i..]
        invariant Is(fs, now) && fresh(repr - old(repr))
        invariant AtField(w, prefix, fs, vs, next, i, done, isSetFields, nx)
        invariant |slots| == |fs|
        invariant forall j :: 0 <= j < |fs| && Child(old(slots)[j]) != null ==> slots[j] == old(slots)[j]
        invariant !failed
      {
        AtNext(w, prefix, fs, vs, next, i, done, isSetFields, nx);
        var ok; ghost var v;
        ok, failed, nx, v := ParseOne(w, prefix, fs, now, i, nx);
        OneMore(done, vs, i, v);
        done, now := done + [v], now[i := v];
        if failed {
          return false, true, nx, now;
        }
        isSetFields := isSetFields || ok;
      }
      AtEnd(w, prefix, fs, vs, next, done, isSetFields, nx);
      assert now == done;
    }

    /** One field: what ParseField says becomes of it, and nothing of the others. */
    method ParseOne(w: World, prefix: Str, fs: seq<Field>, ghost vs: seq<Value>, i: nat, next: nat)
      returns (ok: bool, failed: bool, nx: nat, ghost v: Value)
      requires i < |fs| && Is(fs, vs) && Typed(fs[i].t, vs[i])
      modifies repr
      ensures fresh(repr - old(repr)) && |slots| == |old(slots)|
      ensures Is(fs, vs[i := v]) && FieldOut(v, ok, failed, nx) == ParseField(w, prefix, fs[i], vs[i], next)
      ensures forall j :: 0 <= j < |slots| && (j != i || Child(old(slots)[j]) != null) ==> slots[j] == old(slots)[j]
      decreases fs, 1
    {
      if Child(slots[i]) != null {
        ok, failed, nx, v := ParseInside(w, prefix, fs, vs, i, next);
      } else if slots[i].Ref? {
        ok, failed, nx, v := ParseNil(w, prefix, fs, vs, i, next);
      } else {
        ok, failed, nx, v := ParseLeaf(w, prefix, fs, vs, i, next);
      }
    }

    /** A struct that is there, embedded or behind a pointer: written where it is. */
    method ParseInside(w: World, prefix: Str, fs: seq<Field>, ghost vs: seq<Value>, i: nat, next: nat)
      returns (ok: bool, failed: bool, nx: nat, ghost v: Value)
      requires i < |fs| && Is(fs, vs) && Typed(fs[i].t, vs[i])
      requires Child(slots[i]) != null
      modifies repr
      ensures fresh(repr - old(repr)) && |slots| == |old(slots)|
      ensures Is(fs, vs[i := v]) && FieldOut(v, ok, failed, nx) == ParseField(w, prefix, fs[i], vs[i], next)
      ensures forall j :: 0 <= j < |slots| && (j != i || Child(old(slots)[j]) != null) ==> slots[j] == old(slots)[j]
      decreases fs, 0
    {
      var c, sub := Child(slots[i]), Inner(fs[i].t).value;
      InnerTyped(fs[i].t, vs[i]);
      assert Holds(fs[i].t, slots[i], vs[i]);
      ghost var sub';
      ok, failed, nx, sub' := c.ParseEnv(w, KeyPrefix(prefix, fs[i]), sub, InnerValues(fs[i].t, vs[i]), next);
      repr := repr + c.repr;
      v := ParseField(w, prefix, fs[i], vs[i], next).v;
      ghost var vs' := vs[i := v];
      assert Holds(fs[i].t, slots[i], vs'[i]);
      forall j | 0 <= j < |fs| && j != i
        ensures Below(slots[j]) == old(Below(slots[j])) && Holds(fs[j].t, slots[j], vs'[j])
      {
        assert old(Below(slots[i]) !! Below(slots[j]));
        assert old(Holds(fs[j].t, slots[j], vs[j]));
      }
    }

    /** A nil pointer to a struct: a zero struct is filled in, and kept only when something was set. */
    method ParseNil(w: World, prefix: Str, fs: seq<Field>, ghost vs: seq<Value>, i: nat, next: nat)
      returns (ok: bool, failed: bool, nx: nat, ghost v: Value)
      requires i < |fs| && Is(fs, vs) && Typed(fs[i].t, vs[i])
      requires Child(slots[i]) == null && slots[i].Ref?
      modifies repr
      ensures fresh(repr - old(repr)) && |slots| == |old(slots)|
      ensures Is(fs, vs[i := v]) && FieldOut(v, ok, failed, nx) == ParseField(w, prefix, fs[i], vs[i], next)
      ensures forall j :: 0 <= j < |slots| && (j != i || Child(old(slots)[j]) != null) ==> slots[j] == old(slots)[j]
      decreases fs, 0
    {
      var sub := Inner(fs[i].t).value;
      InnerTyped(fs[i].t, vs[i]);
      TypedAllValid(sub, ZeroAll(sub));
      assert Holds(fs[i].t, slots[i], vs[i]);
      var made := NewZero(sub);
      ghost var sub';
      ok, failed, nx, sub' := made.ParseEnv(w, KeyPrefix(prefix, fs[i]), sub, ZeroAll(sub), next);
      if ok {
        SetPointer(fs, vs, i, made, nx, sub');
        v, nx := PtrV(nx, StructV(sub')), nx + 1;
      } else {
        v := NilV;
        assert vs[i := v] == vs;
      }
    }

    /** reflect.Value.Set on a nil pointer, with a struct found nowhere else. */
    method SetPointer(fs: seq<Field>, ghost vs: seq<Value>, i: nat, made: Struct, id: nat, ghost sub: seq<Value>)
      requires i < |fs| && Is(fs, vs) && slots[i].Ref? && Child(slots[i]) == null
      requires fs[i].t.PtrT? && fs[i].t.elem.StructT?
      requires made.Is(fs[i].t.elem.fields, sub) && made.repr !! repr
      modifies this
      ensures slots == old(slots)[i := Ref(made, id)] && repr == old(repr) + made.repr
      ensures Is(fs, vs[i := PtrV(id, StructV(sub))])
    {
      slots := slots[i := Ref(made, id)];
      repr := repr + made.repr;
      ghost var vs' := vs[i := PtrV(id, StructV(sub))];
      assert Holds(fs[i].t, slots[i], vs'[i]);
      forall j | 0 <= j < |fs| && j != i
        ensures Below(slots[j]) == old(Below(slots[j])) && Holds(fs[j].t, slots[j], vs'[j])
      {
        assert old(Holds(fs[j].t, slots[j], vs[j]));
      }
    }

    /** A field that leads into no struct. */
    method ParseLeaf(w: World, prefix: Str, fs: seq<Field>, ghost vs: seq<Value>, i: nat, next: nat)
      returns (ok: bool, failed: bool, nx: nat, ghost v: Value)
      requires i < |fs| && Is(fs, vs) && Typed(fs[i].t, vs[i])
      requires slots[i].Plain?
      modifies repr
      ensures fresh(repr - old(repr)) && |slots| == |old(slots)|
      ensures Is(fs, vs[i := v]) && FieldOut(v, ok, failed, nx) == ParseField(w, prefix, fs[i], vs[i], next)
      ensures forall j :: 0 <= j < |slots| && (j != i || Child(old(slots)[j]) != null) ==> slots[j] == old(slots)[j]
    {
      assert Holds(fs[i].t, slots[i], vs[i]);
      var x;
      x, ok, failed := ParsePlain(w, prefix, fs[i], slots[i].v, next);
      v := x;
      nx := next;
      ghost var vs' := vs[i := v];
      slots := slots[i := Plain(x)];
      assert Holds(fs[i].t, slots[i], vs'[i]);
      forall j | 0 <= j < |fs| && j != i
        ensures Below(slots[j]) == old(Below(slots[j])) && Holds(fs[j].t, slots[j], vs'[j])
      {
        assert old(Holds(fs[j].t, slots[j], vs[j]));
      }
    }
  }

  /** What a struct holds is one list of values: Is is a function of the heap. */
  lemma {:induction false} IsOne(s: Struct, fs: seq<Field>, vs: seq<Value>, us: seq<Value>)
    requires s.Is(fs, vs) && s.Is(fs, us)
    ensures vs == us
    decreases fs
  {
    forall i | 0 <= i < |fs| ensures vs[i] == us[i] {
      assert Holds(fs[i].t, s.slots[i], vs[i]) && Holds(fs[i].t, s.slots[i], us[i]);
      if Child(s.slots[i]) != null {
        IsOne(Child(s.slots[i]), Inner(fs[i].t).value, InnerValues(fs[i].t, vs[i]), InnerValues(fs[i].t, us[i]));
      }
    }
  }

  lemma {:induction false} OneMore(done: seq<Value>, vs: seq<Value>, i: nat, v: Value)
    requires |done| == i < |vs|
    ensures (done + vs[i..])[i := v] == done + [v] + vs[i + 1..]
  {
  }

  /** A field that leads into no struct. */
  method ParsePlain(w: World, prefix: Str, f: Field, v: Value, ghost next: nat)
    returns (v': Value, ok: bool, failed: bool)
    requires Inner(f.t).None? && Typed(f.t, v)
    ensures FieldOut(v', ok, failed, next) == ParseField(w, prefix, f, v, next)
  {
    var t := f.t;
    TypedValid(t, v);
    FieldTyped(w, prefix, f, v, next);
    if t.SliceT? {
      var xs;
      xs, failed := SetSliceField(w, t.k, v.xs, EnvKey(prefix, f));
      v', ok := SliceV(xs), false;
    } else if t.PtrT? {
      var r := SetPlain(w, t.elem, if v.PtrV? then v.target else ZeroOf(t.elem), EnvKey(prefix, f), 0);
      v' := if v.PtrV? then PtrV(v.id, r.v) else NilV;
      ok, failed := r.isSet, r.failed;
    } else {
      var r := SetPlain(w, t, v, EnvKey(prefix, f), 0);
      v', ok, failed := r.v, r.isSet, r.failed;
    }
  }

  /** reflect.New on a struct type: all fields zero, with the structs embedded in it. */
  method NewZero(fs: seq<Field>) returns (s: Struct)
    requires ValidTypes(fs)
    ensures fresh(s.repr) && s.Is(fs, ZeroAll(fs))
    decreases fs, 1
  {
    var slots; ghost var inside;
    slots, inside := ZeroSlots(fs);
    s := new Struct(slots, inside);
  }

  method ZeroSlots(fs: seq<Field>) returns (slots: seq<Slot>, ghost inside: set<Struct>)
    requires ValidTypes(fs)
    ensures fresh(inside) && |slots| == |fs|
    ensures forall j :: 0 <= j < |fs| && Child(slots[j]) != null ==>
              Child(slots[j]) in inside && Child(slots[j]) in Child(slots[j]).repr
    ensures forall j :: 0 <= j < |fs| ==> Below(slots[j]) <= inside
    ensures forall j :: 0 <= j < |fs| ==> Holds(fs[j].t, slots[j], ZeroAll(fs)[j])
    ensures forall j, k :: 0 <= j < |fs| && 0 <= k < |fs| && j != k ==> Below(slots[j]) !! Below(slots[k])
    decreases fs, 0
  {
    if fs == [] {
      return [], {};
    }
    slots, inside := ZeroSlots(fs[1..]);
    var t := fs[0].t;
    if t.StructT? {
      var s := NewZero(t.fields);
      slots, inside := [Nested(s)] + slots, inside + s.repr;
    } else if Inner(t).Some? {
      slots := [Ref(null, 0)] + slots;
    } else {
      slots := [Plain(ZeroOf(t))] + slots;
    }
  }
}
