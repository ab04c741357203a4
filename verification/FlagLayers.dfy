/**
 * Command-line flags over configuration structs (config/config.go: parseFlagStruct,
 * parsePFlagStruct, LoadFlag, LoadPFlag, LoadConfig): flags are registered for the tagged
 * fields reached through nested structs, with the current values as defaults, and the
 * layers YAML, environment, flag and pflag are applied in this order.
 *
 * Splitting arguments into occurrences of flags is the work of packages flag and pflag, and
 * so is reading a scalar, which is a parameter here; lists are read by sliceValue.Set.
 */
module FlagLayers {
  import opened Wrappers
  import opened Bytes
  import opened ConfigTypes
  import opened ConfigTree
  import SliceValue
  import EnvOverlay
  import EnvPromises

  /** What a layer leaves in a struct, and whether it failed; a failing one may have written some of it. */
  datatype Loaded = Loaded(vs: seq<Value>, failed: bool)

  /** What setting a flag stores, and whether the text was good: the flag packages store a value even when not. */
  datatype Stored<T> = Stored(x: T, ok: bool)

  /** How the flag packages set a scalar, how sliceValue reads floats, and what LoadYaml makes of a struct. */
  datatype Readers = Readers(
    scalar: (Kind, Str) -> Stored<Scalar>,
    floats: FloatParser,
    yaml: (Str, seq<Value>) -> Loaded)

  /** What is stored in a scalar is a value of its kind. */
  ghost predicate Honest(rd: Readers) {
    forall k: Kind, s: Str :: k.Valid() ==> Fits(k, (rd.scalar)(k, s).x)
  }

  // ---- names ---------------------------------------------------------------------------

  datatype Names = Names(long: Str, short: Str)

  /** The parts of a tag: one byte gives the shorthand, more give the name; the last of each wins. */
  function PickNames(parts: seq<Str>, start: Names): Names {
    if parts == [] then start
    else
      var n := PickNames(parts[..|parts| - 1], start);
      var s := parts[|parts| - 1];
      if s == [] then n else if |s| == 1 then n.(short := s) else n.(long := s)
  }

  function FlagNames(tag: Str): Names {
    var parts := Split(tag, '|');
    if |parts| > 1 then PickNames(parts, Names(tag, [])) else Names(tag, [])
  }

  // ---- registration ----------------------------------------------------------------------

  /** A registered flag, and the field it writes: by type and path. */
  datatype Reg = Reg(names: Names, t: Type, i: nat, rest: seq<nat>)

  predicate SupportedKind(k: Kind) {
    k in {StringK, IntK(64), FloatK(64), UintK(64), BoolK}
  }

  predicate Supported(t: Type) {
    (t.ScalarT? || t.SliceT?) && SupportedKind(t.k)
  }

  /** The same flags, seen from a list of fields with k more in front. */
  function Shifted(rs: seq<Reg>, k: nat): seq<Reg> {
    seq(|rs|, n requires 0 <= n < |rs| => rs[n].(i := rs[n].i + k))
  }

  /** The same flags, seen from outside the struct. */
  function Inside(rs: seq<Reg>): seq<Reg> {
    seq(|rs|, n requires 0 <= n < |rs| => rs[n].(i := 0, rest := [rs[n].i] + rs[n].rest))
  }

  /** The flags registered by the walk, or None when it meets a tagged field of another type. */
  function Walk(fs: seq<Field>): Option<seq<Reg>>
    decreases fs
  {
    if fs == [] then Some([])
    else
      var head := WalkField(fs[0]);
      if head.None? then None
      else
        var tail := Walk(fs[1..]);
        if tail.None? then None else Some(head.value + Shifted(tail.value, 1))
  }

  function WalkField(f: Field): Option<seq<Reg>>
    decreases f
  {
    match f.t
    case StructT(fs) =>
      var inner := Walk(fs);
      if inner.None? then None else Some(Inside(inner.value))
    case t =>
      if f.flag == [] then Some([])
      else if Supported(t) then Some([Reg(FlagNames(f.flag), t, 0, [])])
      else None
  }

  /** The loop of both walkers over the parts of a tag. */
  method PickFlagName(tag: Str) returns (n: Names)
    ensures n == FlagNames(tag)
  {
    n := Names(tag, []);
    var parts := Split(tag, '|');
    if |parts| > 1 {
      for i := 0 to |parts|
        invariant n == PickNames(parts[..i], Names(tag, []))
      {
        assert parts[..i + 1][..i] == parts[..i];
        if parts[i] == [] {
          continue;
        }
        if |parts[i]| == 1 {
          n := n.(short := parts[i]);
        } else {
          n := n.(long := parts[i]);
        }
      }
      assert parts[..|parts|] == parts;
    }
  }

  /** The whole walk, as what the fields before i registered and the walk over the others. */
  ghost predicate AtWalk(fs: seq<Field>, i: nat, regs: seq<Reg>)
    requires i <= |fs|
  {
    var rest := Walk(fs[i..]);
    Walk(fs) == if rest.None? then None else Some(regs + Shifted(rest.value, i))
  }

  lemma {:induction false} AtWalkNext(fs: seq<Field>, i: nat, regs: seq<Reg>)
    requires i < |fs| && AtWalk(fs, i, regs)
    ensures WalkField(fs[i]).None? ==> Walk(fs).None?
    ensures WalkField(fs[i]).Some? ==> AtWalk(fs, i + 1, regs + Shifted(WalkField(fs[i]).value, i))
  {
    assert fs[i..][0] == fs[i] && fs[i..][1..] == fs[i + 1..];
    var head, tail := WalkField(fs[i]), Walk(fs[i + 1..]);
    if head.Some? && tail.Some? {
      assert Shifted(head.value + Shifted(tail.value, 1), i) == Shifted(head.value, i) + Shifted(tail.value, i + 1);
      assert regs + (Shifted(head.value, i) + Shifted(tail.value, i + 1)) ==
             regs + Shifted(head.value, i) + Shifted(tail.value, i + 1);
    }
  }

  /**
   * parseFlagStruct and parsePFlagStruct: registering a scalar's flag writes the default into
   * the field, and the default is the field's current value, so registering changes nothing.
   */
  method ParseFlagStruct(fs: seq<Field>, vs: seq<Value>) returns (rs: Option<seq<Reg>>, out: seq<Value>)
    requires TypedAll(fs, vs)
    ensures rs == Walk(fs) && out == vs
    decreases fs
  {
    var regs: seq<Reg> := [];
    out := vs;
    assert fs[0..] == fs;
    assert Walk(fs).Some? ==> [] + Shifted(Walk(fs).value, 0) == Walk(fs).value;
    for i := 0 to |fs|
      invariant out == vs && AtWalk(fs, i, regs)
    {
      AtWalkNext(fs, i, regs);
      EnvOverlay.TypedAt(fs, vs, i);
      if fs[i].t.StructT? {
        var inner, sub := ParseFlagStruct(fs[i].t.fields, out[i].fields);
        out := out[i := StructV(sub)];
        if inner.None? {
          return None, out;
        }
        regs := regs + Shifted(Inside(inner.value), i);
      } else if fs[i].flag != [] {
        if !Supported(fs[i].t) {
          return None, out;
        }
        var names := PickFlagName(fs[i].flag);
        if fs[i].t.ScalarT? {
          var default := out[i];
          out := out[i := default];
        }
        regs := regs + Shifted([Reg(names, fs[i].t, 0, [])], i);
      } else {
        assert regs + Shifted([], i) == regs;
      }
    }
    assert fs[|fs|..] == [] && regs + Shifted([], |fs|) == regs;
    rs := Some(regs);
  }

  /** Registering a name twice panics; pflag panics on a repeated shorthand too. */
  predicate Distinct(rs: seq<Reg>) {
    && (forall m, n :: 0 <= m < n < |rs| ==> rs[m].names.long != rs[n].names.long)
    && (forall m, n :: 0 <= m < n < |rs| && rs[m].names.short != [] ==> rs[m].names.short != rs[n].names.short)
  }

  // ---- fields by path ----------------------------------------------------------------------

  /** The type of the field at a path that leads through structs only. */
  function FieldType(fs: seq<Field>, i: nat, rest: seq<nat>): Option<Type>
    decreases fs
  {
    if fs == [] then None
    else if i > 0 then FieldType(fs[1..], i - 1, rest)
    else
      match fs[0].t
      case StructT(sub) => if rest == [] then None else FieldType(sub, rest[0], rest[1..])
      case t => if rest == [] && Inner(t).None? then Some(t) else None
  }

  ghost function Get(fs: seq<Field>, vs: seq<Value>, i: nat, rest: seq<nat>): Value
    requires TypedAll(fs, vs) && FieldType(fs, i, rest).Some?
    decreases fs
  {
    if i > 0 then Get(fs[1..], vs[1..], i - 1, rest)
    else if fs[0].t.StructT? then
      assert Typed(fs[0].t, vs[0]);
      Get(fs[0].t.fields, vs[0].fields, rest[0], rest[1..])
    else vs[0]
  }

  function Put(fs: seq<Field>, vs: seq<Value>, i: nat, rest: seq<nat>, x: Value): seq<Value>
    requires TypedAll(fs, vs) && FieldType(fs, i, rest).Some?
    decreases fs
  {
    if i > 0 then [vs[0]] + Put(fs[1..], vs[1..], i - 1, rest, x)
    else if fs[0].t.StructT? then
      assert Typed(fs[0].t, vs[0]);
      [StructV(Put(fs[0].t.fields, vs[0].fields, rest[0], rest[1..], x))] + vs[1..]
    else [x] + vs[1..]
  }

  lemma {:induction false} PutTyped(fs: seq<Field>, vs: seq<Value>, i: nat, rest: seq<nat>, x: Value)
    requires TypedAll(fs, vs) && FieldType(fs, i, rest).Some? && Typed(FieldType(fs, i, rest).value, x)
    ensures TypedAll(fs, Put(fs, vs, i, rest, x))
    decreases fs
  {
    var out := Put(fs, vs, i, rest, x);
    if i > 0 {
      PutTyped(fs[1..], vs[1..], i - 1, rest, x);
      assert out[1..] == Put(fs[1..], vs[1..], i - 1, rest, x);
    } else {
      assert out[1..] == vs[1..];
      if fs[0].t.StructT? { PutTyped(fs[0].t.fields, vs[0].fields, rest[0], rest[1..], x); }
    }
  }

  /** Writing one field and reading another: the same field gives what was written, any other what it held. */
  lemma {:induction false} GetPut(fs: seq<Field>, vs: seq<Value>, i: nat, rest: seq<nat>, x: Value, j: nat,
                                  more: seq<nat>)
    requires TypedAll(fs, vs) && FieldType(fs, i, rest).Some? && Typed(FieldType(fs, i, rest).value, x)
    requires FieldType(fs, j, more).Some?
    ensures TypedAll(fs, Put(fs, vs, i, rest, x))
    ensures Get(fs, Put(fs, vs, i, rest, x), j, more) ==
            if i == j && rest == more then x else Get(fs, vs, j, more)
    decreases fs
  {
    PutTyped(fs, vs, i, rest, x);
    var out := Put(fs, vs, i, rest, x);
    if i > 0 {
      assert out[1..] == Put(fs[1..], vs[1..], i - 1, rest, x);
      if j > 0 { GetPut(fs[1..], vs[1..], i - 1, rest, x, j - 1, more); }
    } else {
      assert out[1..] == vs[1..];
      if j == 0 && fs[0].t.StructT? {
        GetPut(fs[0].t.fields, vs[0].fields, rest[0], rest[1..], x, more[0], more[1..]);
        assert rest == [rest[0]] + rest[1..] && more == [more[0]] + more[1..];
      }
    }
  }

  /** Registering a flag with the current value as its default writes that value back. */
  lemma {:induction false} PutGet(fs: seq<Field>, vs: seq<Value>, i: nat, rest: seq<nat>)
    requires TypedAll(fs, vs) && FieldType(fs, i, rest).Some?
    ensures Put(fs, vs, i, rest, Get(fs, vs, i, rest)) == vs
    decreases fs
  {
    assert vs == [vs[0]] + vs[1..];
    if i > 0 {
      PutGet(fs[1..], vs[1..], i - 1, rest);
    } else if fs[0].t.StructT? {
      PutGet(fs[0].t.fields, vs[0].fields, rest[0], rest[1..]);
    }
  }

  /** Paths through structs only are leaves for the environment too, and never behind a pointer. */
  lemma {:induction false} FieldIsLeaf(fs: seq<Field>, vs: seq<Value>, i: nat, rest: seq<nat>)
    requires TypedAll(fs, vs) && FieldType(fs, i, rest).Some?
    ensures LeafType(fs, i, rest) == FieldType(fs, i, rest)
    ensures Reached(fs, vs, i, rest) && ReadLeaf(fs, vs, i, rest) == Get(fs, vs, i, rest)
    decreases fs
  {
    if i > 0 {
      FieldIsLeaf(fs[1..], vs[1..], i - 1, rest);
    } else if fs[0].t.StructT? {
      assert Typed(fs[0].t, vs[0]);
      FieldIsLeaf(fs[0].t.fields, vs[0].fields, rest[0], rest[1..]);
    }
  }

  ghost predicate WellRegistered(fs: seq<Field>, rs: seq<Reg>) {
    forall n :: 0 <= n < |rs| ==> FieldType(fs, rs[n].i, rs[n].rest) == Some(rs[n].t) && Supported(rs[n].t)
  }

  ghost predicate SeparateFields(rs: seq<Reg>) {
    forall m, n :: 0 <= m < n < |rs| ==> rs[m].i != rs[n].i || rs[m].rest != rs[n].rest
  }

  /** Every registered flag writes a field of its own, of the type it was registered with. */
  lemma {:induction false} WalkSound(fs: seq<Field>)
    requires Walk(fs).Some?
    ensures WellRegistered(fs, Walk(fs).value) && SeparateFields(Walk(fs).value)
    decreases fs
  {
    if fs != [] {
      var head, tail := WalkField(fs[0]).value, Walk(fs[1..]).value;
      WalkSound(fs[1..]);
      if fs[0].t.StructT? {
        WalkSound(fs[0].t.fields);
        var inner := Walk(fs[0].t.fields).value;
        forall n | 0 <= n < |head|
          ensures head[n].i == 0 && FieldType(fs, 0, head[n].rest) == Some(head[n].t) && Supported(head[n].t)
        {
          assert head[n].rest[1..] == inner[n].rest;
        }
        forall m, n | 0 <= m < n < |head| ensures head[m].rest != head[n].rest {
          assert head[m].rest[1..] == inner[m].rest && head[n].rest[1..] == inner[n].rest;
        }
      }
    }
  }

  /** The flags are those of the supported tagged fields reached through structs, none forgotten. */
  lemma {:induction false} WalkComplete(fs: seq<Field>, i: nat, rest: seq<nat>) returns (n: nat)
    requires Walk(fs).Some? && FieldType(fs, i, rest).Some? && FieldTag(fs, i, rest) != []
    ensures n < |Walk(fs).value|
    ensures Walk(fs).value[n] == Reg(FlagNames(FieldTag(fs, i, rest)), FieldType(fs, i, rest).value, i, rest)
    decreases fs
  {
    var head, tail := WalkField(fs[0]).value, Walk(fs[1..]).value;
    if i > 0 {
      n := WalkComplete(fs[1..], i - 1, rest);
      n := |head| + n;
    } else if fs[0].t.StructT? {
      n := WalkComplete(fs[0].t.fields, rest[0], rest[1..]);
      assert [rest[0]] + rest[1..] == rest;
    } else {
      n := 0;
    }
  }

  function FieldTag(fs: seq<Field>, i: nat, rest: seq<nat>): Str
    requires FieldType(fs, i, rest).Some?
    decreases fs
  {
    if i > 0 then FieldTag(fs[1..], i - 1, rest)
    else if fs[0].t.StructT? then FieldTag(fs[0].t.fields, rest[0], rest[1..])
    else fs[0].flag
  }

  // ---- arguments -----------------------------------------------------------------------------

  /** One use of a flag on the command line; a shorthand only with pflag. */
  datatype Use = Use(name: Str, isShort: bool, text: Str)

  predicate Answers(r: Reg, u: Use) {
    if u.isShort then r.names.short != [] && r.names.short == u.name else r.names.long == u.name
  }

  function Lookup(rs: seq<Reg>, u: Use): (n: nat)
    ensures n <= |rs|
    ensures n < |rs| ==> Answers(rs[n], u)
    ensures forall m :: 0 <= m < n ==> !Answers(rs[m], u)
  {
    if rs == [] || Answers(rs[0], u) then 0
    else
      var n := 1 + Lookup(rs[1..], u);
      assert forall m {:trigger rs[m]} :: 0 < m < |rs| ==> rs[m] == rs[1..][m - 1];
      n
  }

  /** What a use stores in a field of the type. */
  function Read(rd: Readers, t: Type, text: Str): Stored<Value>
    requires Supported(t)
  {
    if t.SliceT? then Stored(SliceV(SliceValue.ParseList(t.k, rd.floats, text)), true)
    else
      var r := (rd.scalar)(t.k, text);
      Stored(ScalarV(r.x), r.ok)
  }

  lemma {:induction false} ReadTyped(rd: Readers, t: Type, text: Str)
    requires Honest(rd) && Supported(t)
    ensures Typed(t, Read(rd, t, text).x)
  {
    if t.SliceT? { SliceValue.ParseListTotal(t.k, rd.floats, text); }
  }

  /** FlagSet.Parse on the uses found in the arguments, which stops at the first unknown or unreadable one. */
  function Apply(rd: Readers, fs: seq<Field>, rs: seq<Reg>, vs: seq<Value>, uses: seq<Use>): (out: Loaded)
    requires TypedAll(fs, vs) && WellRegistered(fs, rs) && Honest(rd)
    ensures TypedAll(fs, out.vs)
  {
    if uses == [] then Loaded(vs, false)
    else
      var before := Apply(rd, fs, rs, vs, uses[..|uses| - 1]);
      var u := uses[|uses| - 1];
      var n := Lookup(rs, u);
      if before.failed then before
      else if n == |rs| then Loaded(before.vs, true)
      else
        var r := Read(rd, rs[n].t, u.text);
        ReadTyped(rd, rs[n].t, u.text);
        PutTyped(fs, before.vs, rs[n].i, rs[n].rest, r.x);
        Loaded(Put(fs, before.vs, rs[n].i, rs[n].rest, r.x), !r.ok)
  }

  /** The text of the last use of a flag. */
  function LastUse(r: Reg, uses: seq<Use>): Option<Str> {
    if uses == [] then None
    else
      var u := uses[|uses| - 1];
      if Answers(r, u) then Some(u.text) else LastUse(r, uses[..|uses| - 1])
  }

  /** A flag's last use wins, and a field whose flag is not used keeps its value. */
  lemma {:induction false} LastUseWins(rd: Readers, fs: seq<Field>, rs: seq<Reg>, vs: seq<Value>, uses: seq<Use>,
                                       n: nat)
    requires TypedAll(fs, vs) && WellRegistered(fs, rs) && Honest(rd) && Distinct(rs) && SeparateFields(rs)
    requires n < |rs| && !Apply(rd, fs, rs, vs, uses).failed
    ensures var r := rs[n];
            var out := Apply(rd, fs, rs, vs, uses).vs;
            match LastUse(r, uses)
            case Some(text) => Read(rd, r.t, text) == Stored(Get(fs, out, r.i, r.rest), true)
            case None => Get(fs, out, r.i, r.rest) == Get(fs, vs, r.i, r.rest)
  {
    if uses != [] {
      var init, u := uses[..|uses| - 1], uses[|uses| - 1];
      LastUseWins(rd, fs, rs, vs, init, n);
      var before := Apply(rd, fs, rs, vs, init).vs;
      var m := Lookup(rs, u);
      var x := Read(rd, rs[m].t, u.text).x;
      ReadTyped(rd, rs[m].t, u.text);
      GetPut(fs, before, rs[m].i, rs[m].rest, x, rs[n].i, rs[n].rest);
      assert Answers(rs[n], u) <==> n == m;
    }
  }

  // ---- the layers ------------------------------------------------------------------------------

  /** Package flag has no shorthands: the one in a tag is dropped. */
  function LongName(r: Reg): Reg {
    r.(names := Names(r.names.long, []))
  }

  function LongOnly(rs: seq<Reg>): seq<Reg> {
    seq(|rs|, n requires 0 <= n < |rs| => LongName(rs[n]))
  }

  /** LoadFlag and LoadPFlag, given what they register; a repeated name panics before anything is parsed. */
  function LoadUses(rd: Readers, fs: seq<Field>, rs: seq<Reg>, vs: seq<Value>, uses: seq<Use>): (out: Loaded)
    requires TypedAll(fs, vs) && WellRegistered(fs, rs) && Honest(rd)
    ensures TypedAll(fs, out.vs)
  {
    if Distinct(rs) then Apply(rd, fs, rs, vs, uses) else Loaded(vs, true)
  }

  /** The options of LoadConfig; flags and pflags are the uses found in the arguments. */
  datatype ConfigOption =
    | WithEnv(prefix: Str)
    | WithYaml(path: Str)
    | WithFlag(uses: seq<Use>)
    | WithPFlag(uses: seq<Use>)

  datatype Options = Options(
    env: bool, prefix: Str, yaml: Option<Str>, flags: Option<seq<Use>>, pflags: Option<seq<Use>>)

  const DEFAULTS := Options(true, "CODO", None, None, None)

  function Choose(o: Options, opt: ConfigOption): Options {
    match opt
    case WithEnv(prefix) => o.(env := true, prefix := prefix)
    case WithYaml(path) => o.(yaml := Some(path))
    case WithFlag(uses) => o.(flags := Some(uses))
    case WithPFlag(uses) => o.(pflags := Some(uses))
  }

  function Chosen(opts: seq<ConfigOption>): Options {
    if opts == [] then DEFAULTS else Choose(Chosen(opts[..|opts| - 1]), opts[|opts| - 1])
  }

  /** LoadYaml keeps the type of the struct it fills. */
  ghost predicate HonestYaml(rd: Readers, fs: seq<Field>) {
    forall path, vs :: TypedAll(fs, vs) ==> TypedAll(fs, (rd.yaml)(path, vs).vs)
  }

  /** The values after the YAML layer. */
  function AfterYaml(rd: Readers, fs: seq<Field>, vs: seq<Value>, o: Options): (out: Loaded)
    requires TypedAll(fs, vs) && HonestYaml(rd, fs)
    ensures TypedAll(fs, out.vs)
  {
    if o.yaml.None? then Loaded(vs, false) else (rd.yaml)(o.yaml.value, vs)
  }

  function AfterEnv(w: EnvOverlay.World, next: nat, fs: seq<Field>, vs: seq<Value>, o: Options): (out: Loaded)
    requires TypedAll(fs, vs)
    ensures TypedAll(fs, out.vs)
  {
    EnvOverlay.FieldsTyped(w, o.prefix, fs, vs, next);
    var env := EnvOverlay.ParseFields(w, o.prefix, fs, vs, next);
    if o.env then Loaded(env.vs, env.failed) else Loaded(vs, false)
  }

  function AfterFlags(rd: Readers, fs: seq<Field>, vs: seq<Value>, o: Options): (out: Loaded)
    requires TypedAll(fs, vs) && Honest(rd)
    ensures TypedAll(fs, out.vs)
  {
    if o.flags.None? then Loaded(vs, false)
    else if Walk(fs).None? then Loaded(vs, true)
    else
      WalkSound(fs);
      LoadUses(rd, fs, LongOnly(Walk(fs).value), vs, o.flags.value)
  }

  function AfterPFlags(rd: Readers, fs: seq<Field>, vs: seq<Value>, o: Options): (out: Loaded)
    requires TypedAll(fs, vs) && Honest(rd)
    ensures TypedAll(fs, out.vs)
  {
    if o.pflags.None? then Loaded(vs, false)
    else if Walk(fs).None? then Loaded(vs, true)
    else
      WalkSound(fs);
      LoadUses(rd, fs, Walk(fs).value, vs, o.pflags.value)
  }

  /** The layers one after another, up to the first that fails. */
  function Layered(rd: Readers, w: EnvOverlay.World, next: nat, fs: seq<Field>, vs: seq<Value>,
                   o: Options): (out: Loaded)
    requires TypedAll(fs, vs) && Honest(rd) && HonestYaml(rd, fs)
    ensures TypedAll(fs, out.vs)
  {
    var a := AfterYaml(rd, fs, vs, o);
    if a.failed then a
    else
      var b := AfterEnv(w, next, fs, a.vs, o);
      if b.failed then b
      else
        var c := AfterFlags(rd, fs, b.vs, o);
        if c.failed then c else AfterPFlags(rd, fs, c.vs, o)
  }

  /** LoadConfig: options in their order, then the layers in theirs; what a failing layer wrote stays. */
  method LoadConfig(rd: Readers, w: EnvOverlay.World, next: nat, fs: seq<Field>, vs: seq<Value>,
                    opts: seq<ConfigOption>)
    returns (out: Loaded)
    requires TypedAll(fs, vs) && Honest(rd) && HonestYaml(rd, fs)
    ensures out == Layered(rd, w, next, fs, vs, Chosen(opts))
  {
    var o := DEFAULTS;
    for i := 0 to |opts|
      invariant o == Chosen(opts[..i])
    {
      assert opts[..i + 1][..i] == opts[..i];
      match opts[i] {
        case WithEnv(prefix) => o := o.(env := true, prefix := prefix);
        case WithYaml(path) => o := o.(yaml := Some(path));
        case WithFlag(uses) => o := o.(flags := Some(uses));
        case WithPFlag(uses) => o := o.(pflags := Some(uses));
      }
    }
    assert opts[..|opts|] == opts;
    out := Loaded(vs, false);
    if o.yaml.Some? {
      out := (rd.yaml)(o.yaml.value, vs);
      if out.failed {
        return;
      }
    }
    if o.env {
      EnvOverlay.FieldsTyped(w, o.prefix, fs, out.vs, next);
      var env := EnvOverlay.ParseFields(w, o.prefix, fs, out.vs, next);
      out := Loaded(env.vs, env.failed);
      if out.failed {
        return;
      }
    }
    WalkSoundIfAny(fs);
    if o.flags.Some? {
      var rs, same := ParseFlagStruct(fs, out.vs);
      if rs.None? {
        return Loaded(same, true);
      }
      out := LoadUses(rd, fs, LongOnly(rs.value), same, o.flags.value);
      if out.failed {
        return;
      }
    }
    if o.pflags.Some? {
      var rs, same := ParseFlagStruct(fs, out.vs);
      if rs.None? {
        return Loaded(same, true);
      }
      out := LoadUses(rd, fs, rs.value, same, o.pflags.value);
    }
  }

  lemma {:induction false} WalkSoundIfAny(fs: seq<Field>)
    ensures Walk(fs).Some? ==> WellRegistered(fs, Walk(fs).value) && WellRegistered(fs, LongOnly(Walk(fs).value))
  {
    if Walk(fs).Some? { WalkSound(fs); }
  }

  /** No option turns the environment off. */
  lemma {:induction false} EnvAlwaysOn(opts: seq<ConfigOption>)
    ensures Chosen(opts).env
  {
    if opts != [] { EnvAlwaysOn(opts[..|opts| - 1]); }
  }

  /** The last use of a flag in a layer that is on. */
  function LayerUse(r: Reg, uses: Option<seq<Use>>): Option<Str> {
    if uses.None? then None else LastUse(r, uses.value)
  }

  /**
   * Precedence: after a load without errors a flagged field holds what the last pflag use of it
   * says, or else the last flag use, or else its environment variable when that is non-empty, or
   * else what YAML left in it.
   */
  lemma {:induction false} Precedence(rd: Readers, w: EnvOverlay.World, next: nat, fs: seq<Field>, vs: seq<Value>,
                                      opts: seq<ConfigOption>, n: nat)
    requires TypedAll(fs, vs) && Honest(rd) && HonestYaml(rd, fs)
    requires !Layered(rd, w, next, fs, vs, Chosen(opts)).failed
    requires Walk(fs).Some? && n < |Walk(fs).value|
    ensures WellRegistered(fs, Walk(fs).value)
    ensures var r, o := Walk(fs).value[n], Chosen(opts);
            && LeafType(fs, r.i, r.rest) == Some(r.t)
            && ValidType(r.t)
            && var final := Get(fs, Layered(rd, w, next, fs, vs, o).vs, r.i, r.rest);
               match (LayerUse(r, o.pflags), LayerUse(LongName(r), o.flags))
               case (Some(text), _) => Stored(final, true) == Read(rd, r.t, text)
               case (None, Some(text)) => Stored(final, true) == Read(rd, r.t, text)
               case (None, None) =>
                 final == EnvPromises.Overlaid(w, r.t, EnvPromises.LeafText(w, o.prefix, fs, r.i, r.rest),
                                               Get(fs, AfterYaml(rd, fs, vs, o).vs, r.i, r.rest))
  {
    EnvAlwaysOn(opts);
    WalkSound(fs);
    var rs, o := Walk(fs).value, Chosen(opts);
    var r := rs[n];
    var a := AfterYaml(rd, fs, vs, o).vs;
    var b := AfterEnv(w, next, fs, a, o).vs;
    FieldIsLeaf(fs, a, r.i, r.rest);
    FieldIsLeaf(fs, b, r.i, r.rest);
    EnvPromises.WillReachExact(w, o.prefix, fs, a, next, r.i, r.rest);
    EnvPromises.FlatOverlay(w, o.prefix, fs, a, next, r.i, r.rest);
    var c := AfterFlags(rd, fs, b, o).vs;
    if o.flags.Some? {
      LastUseWins(rd, fs, LongOnly(rs), b, o.flags.value, n);
    }
    if o.pflags.Some? {
      LastUseWins(rd, fs, rs, c, o.pflags.value, n);
    }
  }

  // ---- names and options in plain terms -------------------------------------------------

  /**
   * The names in a tag. Without a bar the tag is the name. With one, the last part of more than one
   * byte is the name, or the whole tag when there is none, and the last part of one byte the shorthand.
   */
  lemma {:induction false} NamesExact(tag: Str, i: nat)
    ensures var parts := Split(tag, '|');
            && (|parts| == 1 ==> FlagNames(tag).long == tag && FlagNames(tag).short == [])
            && (|parts| > 1 && i < |parts| && |parts[i]| > 1 && (forall j :: i < j < |parts| ==> |parts[j]| <= 1) ==>
                  FlagNames(tag).long == parts[i])
            && (|parts| > 1 && i < |parts| && |parts[i]| == 1 && (forall j :: i < j < |parts| ==> |parts[j]| != 1) ==>
                  FlagNames(tag).short == parts[i])
            && (|parts| > 1 && (forall j :: 0 <= j < |parts| ==> |parts[j]| <= 1) ==> FlagNames(tag).long == tag)
            && (|parts| > 1 && (forall j :: 0 <= j < |parts| ==> |parts[j]| != 1) ==> FlagNames(tag).short == [])
  {
    PicksExact(Split(tag, '|'), Names(tag, []), i);
  }

  lemma {:induction false} PicksExact(parts: seq<Str>, start: Names, i: nat)
    ensures i < |parts| && |parts[i]| > 1 && (forall j :: i < j < |parts| ==> |parts[j]| <= 1) ==>
              PickNames(parts, start).long == parts[i]
    ensures i < |parts| && |parts[i]| == 1 && (forall j :: i < j < |parts| ==> |parts[j]| != 1) ==>
              PickNames(parts, start).short == parts[i]
    ensures (forall j :: 0 <= j < |parts| ==> |parts[j]| <= 1) ==> PickNames(parts, start).long == start.long
    ensures (forall j :: 0 <= j < |parts| ==> |parts[j]| != 1) ==> PickNames(parts, start).short == start.short
  {
    if parts != [] {
      var init := parts[..|parts| - 1];
      assert forall j :: 0 <= j < |init| ==> init[j] == parts[j];
      PicksExact(init, start, i);
    }
  }

  /** The types of fields that take a flag: strings, 64-bit numbers, truth values, and lists of these. */
  lemma {:induction false} SupportedExact(t: Type)
    ensures Supported(t) <==>
            || t == ScalarT(StringK) || t == ScalarT(IntK(64)) || t == ScalarT(UintK(64))
            || t == ScalarT(FloatK(64)) || t == ScalarT(BoolK)
            || t == SliceT(StringK) || t == SliceT(IntK(64)) || t == SliceT(UintK(64))
            || t == SliceT(FloatK(64)) || t == SliceT(BoolK)
  {
  }

  /** The type and the tag of a field that is no struct, reached through structs only. */
  function Tagged(fs: seq<Field>, i: nat, rest: seq<nat>): Option<(Type, Str)>
    decreases fs
  {
    if fs == [] then None
    else if i > 0 then Tagged(fs[1..], i - 1, rest)
    else
      match fs[0].t
      case StructT(sub) => if rest == [] then None else Tagged(sub, rest[0], rest[1..])
      case t => if rest == [] then Some((t, fs[0].flag)) else None
  }

  ghost predicate Unsupported(fs: seq<Field>, i: nat, rest: seq<nat>) {
    var x := Tagged(fs, i, rest);
    x.Some? && x.value.1 != [] && !Supported(x.value.0)
  }

  /** Registration fails exactly at a tagged field of a type that takes no flag. */
  lemma {:induction false} WalkFailsIff(fs: seq<Field>)
    ensures Walk(fs).None? <==> exists i: nat, rest :: Unsupported(fs, i, rest)
    decreases fs
  {
    if fs != [] {
      WalkFailsIff(fs[1..]);
      FieldFailsIff(fs[0]);
      if i: nat, rest :| Unsupported(fs[1..], i, rest) {
        assert Unsupported(fs, i + 1, rest);
      }
      if rest :| Unsupported([fs[0]], 0, rest) {
        assert Unsupported(fs, 0, rest);
      }
      if i: nat, rest :| Unsupported(fs, i, rest) {
        if i > 0 {
          assert Unsupported(fs[1..], i - 1, rest);
        } else {
          assert Unsupported([fs[0]], 0, rest);
        }
      }
    }
  }

  lemma {:induction false} FieldFailsIff(f: Field)
    ensures WalkField(f).None? <==> exists rest :: Unsupported([f], 0, rest)
    decreases f
  {
    if f.t.StructT? {
      WalkFailsIff(f.t.fields);
      if i: nat, rest :| Unsupported(f.t.fields, i, rest) {
        assert ([i] + rest)[1..] == rest;
        assert Unsupported([f], 0, [i] + rest);
      }
      if rest :| Unsupported([f], 0, rest) {
        assert Unsupported(f.t.fields, rest[0], rest[1..]);
      }
    } else {
      assert Unsupported([f], 0, []) <==> f.flag != [] && !Supported(f.t);
    }
  }

  /** A use finds the flag of that name, or, if it is short, of that shorthand, and no other. */
  lemma {:induction false} LookupExact(rs: seq<Reg>, n: nat, u: Use)
    requires Distinct(rs) && n < |rs|
    ensures Lookup(rs, u) == n <==> if u.isShort then u.name != [] && rs[n].names.short == u.name
                                    else rs[n].names.long == u.name
    ensures u.isShort ==> Lookup(LongOnly(rs), u) == |rs|
  {
  }

  /** Of each kind of option the last one given counts; without any, the prefix is CODO and the other layers are off. */
  lemma {:induction false} ChosenExact(opts: seq<ConfigOption>, i: nat)
    ensures var o := Chosen(opts);
            && (i < |opts| && opts[i].WithEnv? && (forall j :: i < j < |opts| ==> !opts[j].WithEnv?) ==>
                  o.prefix == opts[i].prefix)
            && (i < |opts| && opts[i].WithYaml? && (forall j :: i < j < |opts| ==> !opts[j].WithYaml?) ==>
                  o.yaml == Some(opts[i].path))
            && (i < |opts| && opts[i].WithFlag? && (forall j :: i < j < |opts| ==> !opts[j].WithFlag?) ==>
                  o.flags == Some(opts[i].uses))
            && (i < |opts| && opts[i].WithPFlag? && (forall j :: i < j < |opts| ==> !opts[j].WithPFlag?) ==>
                  o.pflags == Some(opts[i].uses))
    ensures var o := Chosen(opts);
            && ((forall j :: 0 <= j < |opts| ==> !opts[j].WithEnv?) ==> o.prefix == "CODO")
            && ((forall j :: 0 <= j < |opts| ==> !opts[j].WithYaml?) ==> o.yaml == None)
            && ((forall j :: 0 <= j < |opts| ==> !opts[j].WithFlag?) ==> o.flags == None)
            && ((forall j :: 0 <= j < |opts| ==> !opts[j].WithPFlag?) ==> o.pflags == None)
  {
    if opts != [] {
      var init := opts[..|opts| - 1];
      assert forall j :: 0 <= j < |init| ==> init[j] == opts[j];
      ChosenExact(init, i);
    }
  }
}
