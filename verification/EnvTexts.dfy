/**
 * What the texts of the environment mean (config/config.go: parseEnv, setField, setSliceField),
 * said of the loaded structs and in terms of printed values, digits and bytes: which texts can be
 * read, what value a leaf ends with, and under which names variables are looked up.
 */
module EnvTexts {
  import opened Wrappers
  import opened Bytes
  import opened Strconv
  import opened ConfigTypes
  import opened ConfigTree
  import opened EnvOverlay
  import opened EnvPromises
  import opened SliceValue

  // ---- white space -----------------------------------------------------------------------

  /** The bytes Go counts as white space, by their codes. */
  predicate Blank(c: Byte) {
    c as int == 32 || 9 <= c as int <= 13
  }

  ghost predicate AllBlank(s: Str) {
    forall i :: 0 <= i < |s| ==> Blank(s[i])
  }

  ghost predicate Trimmed(s: Str) {
    s == [] || (!Blank(s[0]) && !Blank(s[|s| - 1]))
  }

  lemma {:induction false} BlankExact(c: Byte)
    ensures IsSpace(c) <==> Blank(c)
  {
  }

  lemma {:induction false} TrimLeftExact(s: Str) returns (before: Str)
    ensures AllBlank(before) && s == before + TrimLeft(s)
    ensures TrimLeft(s) == [] || !Blank(TrimLeft(s)[0])
  {
    before := [];
    if s != [] {
      BlankExact(s[0]);
      if IsSpace(s[0]) {
        before := TrimLeftExact(s[1..]);
        assert s == [s[0]] + s[1..];
        before := [s[0]] + before;
      }
    }
  }

  lemma {:induction false} TrimRightExact(s: Str) returns (after: Str)
    ensures AllBlank(after) && s == TrimRight(s) + after
    ensures TrimRight(s) == [] || !Blank(TrimRight(s)[|TrimRight(s)| - 1])
  {
    after := [];
    if s != [] {
      BlankExact(s[|s| - 1]);
      if IsSpace(s[|s| - 1]) {
        after := TrimRightExact(s[..|s| - 1]);
        assert s == s[..|s| - 1] + [s[|s| - 1]];
        after := after + [s[|s| - 1]];
      }
    }
  }

  /** Trimming takes white space off both ends, all of it, and nothing else. */
  lemma {:induction false} TrimExact(s: Str) returns (before: Str, after: Str)
    ensures AllBlank(before) && AllBlank(after) && s == before + TrimSpace(s) + after && Trimmed(TrimSpace(s))
  {
    before := TrimLeftExact(s);
    after := TrimRightExact(TrimLeft(s));
    assert before + (TrimSpace(s) + after) == before + TrimSpace(s) + after;
    if TrimSpace(s) != [] {
      assert TrimSpace(s)[0] == TrimLeft(s)[0];
    }
  }

  lemma {:induction false} TrimmedStays(s: Str)
    requires Trimmed(s)
    ensures TrimSpace(s) == s
  {
    if s != [] {
      BlankExact(s[0]);
      BlankExact(s[|s| - 1]);
    }
  }

  // ---- names -------------------------------------------------------------------------------

  /** Upper case, letter by letter; other bytes stand. */
  lemma {:induction false} ToUpperExact(s: Str)
    ensures |ToUpper(s)| == |s|
    ensures forall i :: 0 <= i < |s| ==>
              if 97 <= s[i] as int <= 122 then ToUpper(s)[i] as int == s[i] as int - 32 else ToUpper(s)[i] == s[i]
  {
  }

  /**
   * The name of a variable: an env tag as it stands; else, in upper case, the yaml tag, or the json
   * tag when there is none, or the field's name when there is neither, after the prefix and an underscore.
   */
  lemma {:induction false} EnvKeyExact(prefix: Str, f: Field)
    ensures f.env != [] ==> EnvKey(prefix, f) == f.env
    ensures f.env == [] ==> EnvKey(prefix, f) == KeyPrefix(prefix, f)
    ensures f.yaml != [] && prefix != [] ==> KeyPrefix(prefix, f) == prefix + "_" + ToUpper(f.yaml)
    ensures f.yaml == [] && f.json != [] && prefix != [] ==> KeyPrefix(prefix, f) == prefix + "_" + ToUpper(f.json)
    ensures f.yaml == [] && f.json == [] && f.name != [] && prefix != [] ==>
              KeyPrefix(prefix, f) == prefix + "_" + ToUpper(f.name)
    ensures f.yaml != [] && prefix == [] ==> KeyPrefix(prefix, f) == ToUpper(f.yaml)
    ensures f.yaml == [] && f.json != [] && prefix == [] ==> KeyPrefix(prefix, f) == ToUpper(f.json)
    ensures f.yaml == [] && f.json == [] && prefix == [] ==> KeyPrefix(prefix, f) == ToUpper(f.name)
  {
  }

  /** A field two structs down is looked up under the joined names of the way to it. */
  lemma {:induction false} NestedName(prefix: Str, outer: Field, inner: Field)
    requires prefix != [] && outer.name != [] && outer.yaml == outer.json == []
    requires inner.env == inner.yaml == [] && inner.json != []
    requires outer.t == StructT([inner]) && Inner(inner.t).None?
    ensures LeafType([outer], 0, [0]) == Some(inner.t)
    ensures LeafKey(prefix, [outer], 0, [0]) == prefix + "_" + ToUpper(outer.name) + "_" + ToUpper(inner.json)
  {
  }

  // ---- which texts can be read ----------------------------------------------------------------

  /** A sign or none, and digits. */
  ghost predicate IntegerText(text: Str) {
    var digits := if text != [] && (text[0] == '+' || text[0] == '-') then text[1..] else text;
    digits != [] && AllDigits(digits)
  }

  /** The number such a text denotes. */
  ghost function Denoted(text: Str): int
    requires IntegerText(text)
  {
    if text[0] == '-' then -Strconv.Value(text[1..])
    else if text[0] == '+' then Strconv.Value(text[1..])
    else Strconv.Value(text)
  }

  lemma {:induction false} IntegerReadable(w: World, bits: nat, text: Str)
    requires 0 < bits <= 64
    ensures ScalarOf(w, IntK(bits), text).Some? <==>
            IntegerText(text) && -0x8000_0000_0000_0000 <= Denoted(text) < 0x8000_0000_0000_0000
    ensures ScalarOf(w, IntK(bits), text).Some? ==>
              ScalarOf(w, IntK(bits), text) == Some(Number(WrapInt(Denoted(text), bits)))
  {
    Pow2Int64();
    ParseIntExact(text, 64);
  }

  lemma {:induction false} UnsignedReadable(w: World, bits: nat, text: Str)
    requires 0 < bits <= 64
    ensures ScalarOf(w, UintK(bits), text).Some? <==>
            text != [] && AllDigits(text) && Strconv.Value(text) < 0x1_0000_0000_0000_0000
    ensures ScalarOf(w, UintK(bits), text).Some? ==>
              ScalarOf(w, UintK(bits), text) == Some(Number(WrapUint(Strconv.Value(text), bits)))
  {
    Pow2Int64();
    assert Pow2(64) == 2 * Pow2(63);
    ParseUintExact(text, 64);
  }

  /** The texts a scalar accepts, kind by kind. */
  lemma {:induction false} ReadableExact(w: World, k: Kind, text: Str)
    requires k.Valid()
    ensures k.StringK? ==> ScalarOf(w, k, text).Some?
    ensures k.IntK? ==> (ScalarOf(w, k, text).Some? <==>
                           IntegerText(text) && -0x8000_0000_0000_0000 <= Denoted(text) < 0x8000_0000_0000_0000)
    ensures k.UintK? ==> (ScalarOf(w, k, text).Some? <==>
                            text != [] && AllDigits(text) && Strconv.Value(text) < 0x1_0000_0000_0000_0000)
    ensures k.BoolK? ==> (ScalarOf(w, k, text).Some? <==>
                            || text == "1" || text == "t" || text == "T"
                            || text == "true" || text == "TRUE" || text == "True"
                            || text == "0" || text == "f" || text == "F"
                            || text == "false" || text == "FALSE" || text == "False")
    ensures k.FloatK? ==> (ScalarOf(w, k, text).Some? <==> (w.floats)(text, 64).verdict == Fine)
  {
    match k
    case StringK =>
    case IntK(bits) => IntegerReadable(w, bits, text);
    case UintK(bits) => UnsignedReadable(w, bits, text);
    case BoolK => ParseBoolExact(text);
    case FloatK(_) =>
  }

  /** A list accepts exactly the texts all of whose parts, trimmed, its elements accept. */
  lemma {:induction false} ListReadable(w: World, k: Kind, parts: seq<Str>)
    requires k.Valid()
    ensures ScalarsOf(w, k, parts).Some? <==>
            forall i :: 0 <= i < |parts| ==> ScalarOf(w, k, TrimSpace(parts[i])).Some?
  {
    if parts != [] {
      var init := parts[..|parts| - 1];
      ListReadable(w, k, init);
      assert forall i :: 0 <= i < |init| ==> init[i] == parts[i];
    }
  }

  // ---- and what they leave in the struct ---------------------------------------------------------

  /** Strings are trimmed on the way in, and floats must be printed so that they read back. */
  ghost predicate Prints(w: World, k: Kind, show: FloatPrinter, x: Scalar) {
    && Fits(k, x) && Trimmed(PrintElement(x, show))
    && (x.Float? ==>
          var p := (w.floats)(show(x.code), 64);
          p.verdict == Fine && x.code == if k.bits == 64 then p.value else (w.narrow)(p.value))
  }

  lemma {:induction false} DecimalTrimmed(n: int)
    ensures Trimmed(Itoa(n))
  {
  }

  lemma {:induction false} IntReads(w: World, bits: nat, n: int)
    requires 0 < bits <= 64
    ensures -Pow2(bits - 1) <= n < Pow2(bits - 1) ==> ScalarOf(w, IntK(bits), Itoa(n)) == Some(Number(n))
    ensures 0 <= n < Pow2(bits) ==> ScalarOf(w, UintK(bits), Itoa(n)) == Some(Number(n))
  {
    WrapExact(n, bits);
    Pow2Mono(bits - 1, 63);
    Pow2Mono(bits, 64);
    if -Pow2(bits - 1) <= n < Pow2(bits - 1) {
      ParseIntItoa(n, 64);
    }
    if 0 <= n < Pow2(bits) {
      ParseUintItoa(n, 64);
    }
  }

  lemma {:induction false} PrintReads(w: World, k: Kind, show: FloatPrinter, x: Scalar)
    requires k.Valid() && Prints(w, k, show, x)
    ensures ScalarOf(w, k, PrintElement(x, show)) == Some(x)
  {
    match k
    case StringK => TrimmedStays(x.s);
    case IntK(bits) => IntReads(w, bits, x.n);
    case UintK(bits) => IntReads(w, bits, x.n);
    case BoolK => ParseBoolExact(PrintElement(x, show));
    case FloatK(_) =>
  }

  /**
   * The round trip through a load: when the variable of a scalar leaf is the print of a value of its
   * type, a successful load leaves exactly that value there, whatever structs had to be made.
   */
  lemma {:induction false} ScalarLoads(w: World, prefix: Str, fs: seq<Field>, vs: seq<Value>, next: nat,
                                       i: nat, rest: seq<nat>, k: Kind, show: FloatPrinter, x: Scalar)
    requires TypedAll(fs, vs) && LeafType(fs, i, rest) == Some(ScalarT(k)) && k.Valid()
    requires !ParseFields(w, prefix, fs, vs, next).failed
    requires Prints(w, k, show, x) && LeafText(w, prefix, fs, i, rest) == PrintElement(x, show) != []
    ensures TypedAll(fs, ParseFields(w, prefix, fs, vs, next).vs)
    ensures ReadLeaf(fs, ParseFields(w, prefix, fs, vs, next).vs, i, rest) == ScalarV(x)
  {
    FlatOverlay(w, prefix, fs, vs, next, i, rest);
    PrintReads(w, k, show, x);
  }

  /** The same behind a pointer that is there: the same pointer, to that value. */
  lemma {:induction false} PointerLoads(w: World, prefix: Str, fs: seq<Field>, vs: seq<Value>, next: nat,
                                        i: nat, rest: seq<nat>, k: Kind, show: FloatPrinter, x: Scalar)
    requires TypedAll(fs, vs) && LeafType(fs, i, rest) == Some(PtrT(ScalarT(k))) && k.Valid()
    requires !ParseFields(w, prefix, fs, vs, next).failed && ReadLeaf(fs, vs, i, rest).PtrV?
    requires Prints(w, k, show, x) && LeafText(w, prefix, fs, i, rest) == PrintElement(x, show) != []
    ensures TypedAll(fs, ParseFields(w, prefix, fs, vs, next).vs)
    ensures ReadLeaf(fs, ParseFields(w, prefix, fs, vs, next).vs, i, rest) ==
            PtrV(ReadLeaf(fs, vs, i, rest).id, ScalarV(x))
  {
    FlatOverlay(w, prefix, fs, vs, next, i, rest);
    PrintReads(w, k, show, x);
  }

  lemma {:induction false} PartsRead(w: World, k: Kind, parts: seq<Str>, xs: seq<Scalar>)
    requires k.Valid() && |parts| == |xs|
    requires forall i :: 0 <= i < |xs| ==> ScalarOf(w, k, TrimSpace(parts[i])) == Some(xs[i])
    ensures ScalarsOf(w, k, parts) == Some(xs)
  {
    if parts != [] {
      var n := |parts| - 1;
      PartsRead(w, k, parts[..n], xs[..n]);
      assert xs == xs[..n] + [xs[n]];
    }
  }

  /**
   * And for lists: when the variable is the prints of some values with commas between, white space
   * around them allowed, a successful load leaves exactly these values, in order, in a leaf it reaches.
   */
  lemma {:induction false} ListLoads(w: World, prefix: Str, fs: seq<Field>, vs: seq<Value>, next: nat,
                                     i: nat, rest: seq<nat>, k: Kind, show: FloatPrinter,
                                     parts: seq<Str>, xs: seq<Scalar>)
    requires TypedAll(fs, vs) && LeafType(fs, i, rest) == Some(SliceT(k)) && k.Valid()
    requires !ParseFields(w, prefix, fs, vs, next).failed && WillReach(w, prefix, fs, vs, i, rest)
    requires |parts| == |xs| > 0 && Free(parts, ',')
    requires forall j :: 0 <= j < |xs| ==> Prints(w, k, show, xs[j]) && TrimSpace(parts[j]) == PrintElement(xs[j], show)
    requires LeafText(w, prefix, fs, i, rest) == Join(parts, ',') != []
    ensures TypedAll(fs, ParseFields(w, prefix, fs, vs, next).vs)
    ensures ReadLeaf(fs, ParseFields(w, prefix, fs, vs, next).vs, i, rest) == SliceV(xs)
  {
    FlatOverlay(w, prefix, fs, vs, next, i, rest);
    SplitJoinFree(parts, ',');
    forall j | 0 <= j < |xs| ensures ScalarOf(w, k, TrimSpace(parts[j])) == Some(xs[j]) {
      PrintReads(w, k, show, xs[j]);
    }
    PartsRead(w, k, parts, xs);
  }

  /**
   * An integer text leaves the number it denotes exactly when the width of the field holds it, and
   * otherwise the one that has the same low bits.
   */
  lemma {:induction false} IntegerLoads(w: World, prefix: Str, fs: seq<Field>, vs: seq<Value>, next: nat,
                                        i: nat, rest: seq<nat>, k: Kind)
    requires TypedAll(fs, vs) && LeafType(fs, i, rest) == Some(ScalarT(k)) && (k.IntK? || k.UintK?) && k.Valid()
    requires !ParseFields(w, prefix, fs, vs, next).failed && LeafText(w, prefix, fs, i, rest) != []
    ensures TypedAll(fs, ParseFields(w, prefix, fs, vs, next).vs) && IntegerText(LeafText(w, prefix, fs, i, rest))
    ensures var n, now := Denoted(LeafText(w, prefix, fs, i, rest)),
                          ReadLeaf(fs, ParseFields(w, prefix, fs, vs, next).vs, i, rest);
            && now.ScalarV? && now.x.Number?
            && (now.x.n == n <==> if k.IntK? then -Pow2(k.bits - 1) <= n < Pow2(k.bits - 1) else 0 <= n < Pow2(k.bits))
            && (now.x.n - n) % Pow2(k.bits) == 0
  {
    FlatOverlay(w, prefix, fs, vs, next, i, rest);
    LoadedReads(w, prefix, fs, vs, next, i, rest, k);
    NumberStored(w, k, LeafText(w, prefix, fs, i, rest));
  }

  lemma {:induction false} NumberStored(w: World, k: Kind, text: Str)
    requires (k.IntK? || k.UintK?) && k.Valid() && ScalarOf(w, k, text).Some?
    ensures IntegerText(text) && ScalarOf(w, k, text).value.Number?
    ensures var n, m := Denoted(text), ScalarOf(w, k, text).value.n;
            && (m == n <==> if k.IntK? then -Pow2(k.bits - 1) <= n < Pow2(k.bits - 1) else 0 <= n < Pow2(k.bits))
            && (m - n) % Pow2(k.bits) == 0
  {
    DenotedIs(w, k, text);
    WrapExact(Denoted(text), k.bits);
    WrapCongruent(Denoted(text), k.bits);
  }

  lemma {:induction false} DenotedIs(w: World, k: Kind, text: Str)
    requires (k.IntK? || k.UintK?) && k.Valid() && ScalarOf(w, k, text).Some?
    ensures IntegerText(text)
    ensures ScalarOf(w, k, text).value ==
            Number(if k.IntK? then WrapInt(Denoted(text), k.bits) else WrapUint(Denoted(text), k.bits))
  {
    if k.IntK? {
      IntegerReadable(w, k.bits, text);
    } else {
      UnsignedReadable(w, k.bits, text);
      assert IsDigit(text[0]);
    }
  }

  /** After a successful load the texts of the scalar leaves can be read. */
  lemma {:induction false} LoadedReads(w: World, prefix: Str, fs: seq<Field>, vs: seq<Value>, next: nat,
                                       i: nat, rest: seq<nat>, k: Kind)
    requires TypedAll(fs, vs) && LeafType(fs, i, rest) == Some(ScalarT(k)) && k.Valid()
    requires !ParseFields(w, prefix, fs, vs, next).failed && LeafText(w, prefix, fs, i, rest) != []
    ensures ScalarOf(w, k, LeafText(w, prefix, fs, i, rest)).Some?
  {
    TypedAllValid(fs, vs);
    FieldsVerdict(w, prefix, fs, vs, next);
    if ScalarOf(w, k, LeafText(w, prefix, fs, i, rest)).None? {
      LeafFails(w, prefix, fs, i, rest);
    }
  }

  lemma {:induction false} WrapCongruent(n: int, bits: nat)
    requires bits > 0
    ensures (WrapInt(n, bits) - n) % Pow2(bits) == 0 && (WrapUint(n, bits) - n) % Pow2(bits) == 0
  {
    var m, h := Pow2(bits), Pow2(bits - 1);
    Multiple(n + h, m);
    Multiple(n, m);
  }

  lemma {:induction false} Multiple(a: int, m: int)
    requires m > 0
    ensures (a % m - a) % m == 0
  {
    var q := a / m;
    assert a % m - a == m * (-q);
    MultipleIsZero(-q, m);
  }

  lemma {:induction false} MultipleIsZero(q: int, m: int)
    requires m > 0
    ensures (m * q) % m == 0
  {
    var d, r := (m * q) / m, (m * q) % m;
    var e := q - d;
    assert m * q == m * d + r;
    assert m * e == m * q - m * d;
    if e != 0 { NoSmallMultiple(e, m); }
  }

  lemma {:induction false} AtLeastOnce(e: nat, m: int)
    requires m > 0 && e > 0
    ensures m * e >= m
  {
    if e > 1 {
      AtLeastOnce(e - 1, m);
      assert m * e == m * (e - 1) + m;
    }
  }

  lemma {:induction false} NoSmallMultiple(e: int, m: int)
    requires m > 0 && e != 0
    ensures m * e >= m || m * e <= -m
  {
    if e > 0 {
      AtLeastOnce(e, m);
    } else {
      AtLeastOnce(-e, m);
      assert m * e == -(m * -e);
    }
  }
}
