/** sliceValue of config/config.go: a list-valued command-line flag, set from comma-separated text. */
module SliceValue {
  import opened Bytes
  import opened Strconv
  import opened ConfigTypes

  const COMMA: Byte := ','

  /** One element; what strconv returns beside an error is kept. */
  function ParseElement(k: Kind, floats: FloatParser, s: Str): Scalar
    requires k.Valid()
  {
    match k
    case StringK => Text(s)
    case IntK(bits) => Number(ParseInt(s, bits).value)
    case UintK(bits) => Number(ParseUint(s, bits).value)
    case FloatK(bits) => Float(floats(s, bits).value)
    case BoolK => Flag(ParseBool(s).value)
  }

  function ParseList(k: Kind, floats: FloatParser, value: Str): seq<Scalar>
    requires k.Valid()
  {
    var parts := Split(value, COMMA);
    seq(|parts|, i requires 0 <= i < |parts| => ParseElement(k, floats, parts[i]))
  }

  class SliceValue {
    const kind: Kind
    const floats: FloatParser
    var x: seq<Scalar>

    constructor (kind: Kind, floats: FloatParser, x: seq<Scalar>)
      ensures this.kind == kind && this.floats == floats && this.x == x
    {
      this.kind := kind;
      this.floats := floats;
      this.x := x;
    }

    /** Replaces the whole list, whatever it held, and never fails. */
    method Set(value: Str)
      requires kind.Valid()
      modifies this
      ensures x == ParseList(kind, floats, value)
    {
      var parts := Split(value, COMMA);
      var data: seq<Scalar> := [];
      for i := 0 to |parts|
        invariant data == ParseList(kind, floats, value)[..i]
      {
        data := data + [ParseElement(kind, floats, parts[i])];
      }
      x := data;
    }
  }

  /** How a floating-point value is printed. */
  type FloatPrinter = int -> Str

  /** Reading a printed value at some size gives it back, and no text of one holds a comma. */
  ghost predicate ReadsBack(k: Kind, floats: FloatParser, show: FloatPrinter) {
    k.FloatK? ==> forall x :: floats(show(x), k.bits).value == x && COMMA !in show(x)
  }

  /** Decimal text of a number, the text of a string. */
  function PrintElement(x: Scalar, show: FloatPrinter): Str {
    match x
    case Text(s) => s
    case Number(n) => Itoa(n)
    case Float(code) => show(code)
    case Flag(b) => if b then "true" else "false"
  }

  function PrintList(xs: seq<Scalar>, show: FloatPrinter): Str
    requires xs != []
  {
    Join(seq(|xs|, i requires 0 <= i < |xs| => PrintElement(xs[i], show)), COMMA)
  }

  /** One element per comma-separated part, each a value of the element type: no narrowing loses anything. */
  lemma {:induction false} ParseListTotal(k: Kind, floats: FloatParser, value: Str)
    requires k.Valid()
    ensures |ParseList(k, floats, value)| == Count(value, COMMA) + 1
    ensures forall i :: 0 <= i < |ParseList(k, floats, value)| ==> Fits(k, ParseList(k, floats, value)[i])
  {
    JoinSplit(value, COMMA);
    var parts := Split(value, COMMA);
    forall i | 0 <= i < |parts| ensures Fits(k, ParseElement(k, floats, parts[i])) {
      if k.IntK? {
        ParseIntRange(parts[i], k.bits);
      } else if k.UintK? {
        ParseUintRange(parts[i], k.bits);
      }
    }
  }

  /** An over-range digit string becomes the nearest value of the type. */
  lemma {:induction false} ElementClamped(k: Kind, floats: FloatParser, digits: Str, neg: bool)
    requires k.Valid() && (k.IntK? || (k.UintK? && !neg))
    requires digits != [] && AllDigits(digits)
    ensures var exact := if neg then -Value(digits) else Value(digits);
            var low := if k.IntK? then -Pow2(k.bits - 1) else 0;
            var high := if k.IntK? then Pow2(k.bits - 1) - 1 else Pow2(k.bits) - 1;
            ParseElement(k, floats, if neg then ['-'] + digits else digits) ==
            Number(if exact < low then low else if exact > high then high else exact)
  {
    if k.IntK? {
      ParseIntClamps(digits, neg, k.bits);
    } else {
      ParseUintExact(digits, k.bits);
    }
  }

  lemma {:induction false} ParsePrintElement(k: Kind, floats: FloatParser, show: FloatPrinter, x: Scalar)
    requires k.Valid() && ReadsBack(k, floats, show) && Fits(k, x)
    ensures ParseElement(k, floats, PrintElement(x, show)) == x
    ensures !k.StringK? ==> COMMA !in PrintElement(x, show)
  {
    if x.Number? {
      ItoaBytes(x.n, COMMA);
      if k.IntK? {
        ParseIntItoa(x.n, k.bits);
      } else {
        ParseUintItoa(x.n, k.bits);
      }
    }
  }

  /** Set undoes printing on every non-empty list, unless a string in it holds a comma. */
  lemma {:induction false} ParsePrintList(k: Kind, floats: FloatParser, show: FloatPrinter, xs: seq<Scalar>)
    requires k.Valid() && ReadsBack(k, floats, show) && xs != []
    requires forall i :: 0 <= i < |xs| ==> Fits(k, xs[i])
    ensures ParseList(k, floats, PrintList(xs, show)) == xs <==>
            (k.StringK? ==> forall i :: 0 <= i < |xs| ==> COMMA !in PrintElement(xs[i], show))
  {
    var texts := seq(|xs|, i requires 0 <= i < |xs| => PrintElement(xs[i], show));
    SplitJoin(texts, COMMA);
    forall i | 0 <= i < |xs|
      ensures ParseElement(k, floats, texts[i]) == xs[i]
      ensures k.StringK? ==> xs[i] == Text(texts[i])
      ensures !k.StringK? ==> COMMA !in texts[i]
    {
      ParsePrintElement(k, floats, show, xs[i]);
    }
    var parsed := ParseList(k, floats, PrintList(xs, show));
    var parts := Split(PrintList(xs, show), COMMA);
    if parts == texts {
      assert parsed == xs;
    }
    if parsed == xs && k.StringK? {
      assert forall i :: 0 <= i < |parts| ==> parsed[i] == Text(parts[i]);
      assert parts == texts;
    }
  }

  /** No text sets an empty list: the empty text gives one element, zero or what reading no digits gives a float. */
  lemma {:induction false} EmptyTextIsOneElement(k: Kind, floats: FloatParser)
    requires k.Valid()
    ensures ParseList(k, floats, []) == [if k.FloatK? then Float(floats([], k.bits).value) else Zero(k)]
  {
    assert Split([], COMMA) == [[]];
  }
}
