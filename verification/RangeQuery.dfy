/**
 * The start, end and step of a range query (client/xvm/client.go). Instants are nanoseconds
 * since the Unix epoch; Duration is a 64-bit count of nanoseconds; the conversion of a step
 * to whole seconds drops the fraction.
 */
module RangeQuery {
  import opened GoTime

  const DEFAULT_LIMIT: uint32 := 1000

  type uint32 = n: int | 0 <= n < 0x1_0000_0000

  datatype RangeOption = Start(t: int) | End(t: int) | Limit(n: uint32)

  datatype Range = Range(start: int, end: int, limit: uint32)

  /** Go's integer division, rounding toward zero. */
  function Quo(a: int, b: int): int
    requires b > 0
  {
    if a >= 0 then a / b else -(-a / b)
  }

  function ApplyOption(r: Range, o: RangeOption): Range {
    match o
    case Start(t) => r.(start := t)
    case End(t) => r.(end := t)
    case Limit(n) => if n == 0 then r else r.(limit := n)
  }

  function ApplyAll(r: Range, opts: seq<RangeOption>): Range {
    if opts == [] then r else ApplyOption(ApplyAll(r, opts[..|opts| - 1]), opts[|opts| - 1])
  }

  /** The four numbers a query carries, in seconds. */
  datatype Emitted = Emitted(start: int, end: int, step: int, limit: uint32)

  function Emit(r: Range): Emitted
    requires r.limit > 0
  {
    Emitted(r.start / SECOND, r.end / SECOND, Quo(Quo(Sub(r.end, r.start), r.limit), SECOND), r.limit)
  }

  class QueryRangeOptions {
    var start: int
    var end: int
    var limit: uint32

    function Current(): Range
      reads this
    {
      Range(start, end, limit)
    }

    /** The last half hour; the clock is read twice. */
    constructor (now: int, now': int)
      ensures Current() == Range(now - 30 * 60 * SECOND, now', DEFAULT_LIMIT)
    {
      start := now - 30 * 60 * SECOND;
      end := now';
      limit := DEFAULT_LIMIT;
    }

    method Apply(o: RangeOption)
      modifies this
      ensures Current() == ApplyOption(old(Current()), o)
    {
      match o
      case Start(t) =>
        start := t;
      case End(t) =>
        end := t;
      case Limit(n) =>
        if n != 0 {
          limit := n;
        }
    }

    /** The step between samples; a limit of zero would divide by zero. */
    method Step() returns (d: int)
      requires limit > 0
      ensures d == Quo(Sub(end, start), limit)
    {
      d := Quo(Sub(end, start), limit);
    }
  }

  /** What QueryRange puts into the URL, for every list of options and never dividing by zero. */
  method QueryRange(now: int, now': int, opts: seq<RangeOption>) returns (e: Emitted)
    ensures ApplyAll(Range(now - 30 * 60 * SECOND, now', DEFAULT_LIMIT), opts).limit > 0
    ensures e == Emit(ApplyAll(Range(now - 30 * 60 * SECOND, now', DEFAULT_LIMIT), opts))
    ensures opts == [] ==>
              && e.start * 1_000_000_000 <= now - 1_800_000_000_000 < (e.start + 1) * 1_000_000_000
              && e.end * 1_000_000_000 <= now' < (e.end + 1) * 1_000_000_000
              && e.limit == 1000
  {
    var options := new QueryRangeOptions(now, now');
    ghost var initial := options.Current();
    for i := 0 to |opts|
      invariant options.Current() == ApplyAll(initial, opts[..i])
    {
      assert opts[..i + 1][..i] == opts[..i];
      options.Apply(opts[i]);
    }
    assert opts[..|opts|] == opts;
    LimitStaysPositive(initial, opts);
    var step := options.Step();
    e := Emitted(options.start / SECOND, options.end / SECOND, Quo(step, SECOND), options.limit);
  }

  /** The last limit option that is not zero, if any. */
  function LastLimit(opts: seq<RangeOption>, default: uint32): uint32 {
    if opts == [] then default
    else
      var o := opts[|opts| - 1];
      if o.Limit? && o.n != 0 then o.n else LastLimit(opts[..|opts| - 1], default)
  }

  lemma {:induction false} LimitStaysPositive(r: Range, opts: seq<RangeOption>)
    requires r.limit > 0
    ensures ApplyAll(r, opts).limit == LastLimit(opts, r.limit) > 0
  {
    if opts != [] {
      LimitStaysPositive(r, opts[..|opts| - 1]);
    }
  }

  /** Samples at start, start + step, ... up to end. */
  function SampleCount(e: Emitted): int
    requires e.step > 0
  {
    (e.end - e.start) / e.step + 1
  }

  lemma {:induction false} MulMono(a: int, b: int, k: int)
    requires a <= b && k >= 0
    ensures a * k <= b * k
  {
  }

  lemma {:induction false} MulCancel(a: int, b: int, k: int)
    requires a * k < b * k && k > 0
    ensures a < b
  {
    if a >= b { MulMono(b, a, k); }
  }

  lemma {:induction false} DivBracket(d: int, n: int)
    requires n > 0
    ensures (d / n) * n <= d < (d / n + 1) * n
  {
  }

  /** Two truncating divisions in a row bracket the dividend. */
  lemma {:induction false} NestedQuo(d: int, n: int)
    requires d >= 0 && n > 0
    ensures var s := Quo(Quo(d, n), SECOND);
            s >= 0 && (s * n) * SECOND <= d < ((s + 1) * n) * SECOND
  {
    var q := d / n;
    var s := q / SECOND;
    DivBracket(d, n);
    assert s * SECOND <= q && q + 1 <= (s + 1) * SECOND;
    MulMono(s * SECOND, q, n);
    MulMono(q + 1, (s + 1) * SECOND, n);
    MulSwap(s, n, SECOND);
    MulSwap(s + 1, n, SECOND);
  }

  lemma {:induction false} MulSwap(a: int, b: int, k: int)
    ensures (a * k) * b == (a * b) * k
  {
  }

  /** The emitted step is a usable one exactly when the range spans a second per sample asked for. */
  lemma {:induction false} StepUsable(r: Range)
    requires r.limit > 0
    ensures Emit(r).step > 0 <==> r.end - r.start >= r.limit * SECOND
  {
    var d := Sub(r.end, r.start);
    if d >= 0 {
      NestedQuo(d, r.limit);
      var s := Emit(r).step;
      if s > 0 {
        MulMono(1, s, r.limit);
      }
    } else {
      assert (-d) / r.limit >= 0;
    }
  }

  lemma {:induction false} DivBounds(l: int, s: int, low: int, high: int)
    requires s > 0 && s * low <= l <= s * high + s - 1
    ensures low <= l / s <= high
  {
    var q := l / s;
    assert s * q <= l < s * q + s;
    assert q * s == s * q && low * s == s * low && (high + 1) * s == s * high + s && (q + 1) * s == s * q + s;
    MulCancel(low, q + 1, s);
    MulCancel(q, high + 1, s);
  }

  /** A usable step never yields fewer samples than the limit, saturated or not. */
  lemma {:induction false} EnoughSamples(r: Range)
    requires r.limit > 0 && Emit(r).step > 0
    ensures SampleCount(Emit(r)) >= r.limit + 1
  {
    var l, s := Emit(r).end - Emit(r).start, Emit(r).step;
    EnoughLength(r);
    assert l <= s * l + s - 1 by {
      StepUsable(r);
      MulMono(1, s, l);
    }
    DivBounds(l, s, r.limit, l);
  }

  /** Without saturation the samples stay within twice the limit: start and end are each rounded. */
  lemma {:induction false} SampleBounds(r: Range)
    requires r.limit > 0 && Emit(r).step > 0
    requires r.end - r.start <= MAX_DURATION
    ensures var n, s := r.limit, Emit(r).step;
            n + 1 <= SampleCount(Emit(r)) <= n + n / s + 1 <= 2 * n + 1
  {
    var n, s := r.limit, Emit(r).step;
    var l := Emit(r).end - Emit(r).start;
    StepUsable(r);
    NestedQuo(r.end - r.start, n);
    EnoughLength(r);
    assert (l - 1) * SECOND < ((s + 1) * n) * SECOND;
    MulCancel(l - 1, (s + 1) * n, SECOND);
    QuotientBounds(l, s, n);
  }

  lemma {:induction false} QuotientBounds(l: int, s: int, n: int)
    requires s > 0 && n > 0 && s * n <= l <= (s + 1) * n
    ensures n <= l / s <= n + n / s <= 2 * n
  {
    var k := n / s;
    assert s * k <= n <= s * k + s - 1;
    assert k >= 0;
    MulMono(1, s, k);
    assert (s + 1) * n == s * n + n && s * (n + k) == s * n + s * k;
    DivBounds(l, s, n, n + k);
  }

  lemma {:induction false} EnoughLength(r: Range)
    requires r.limit > 0 && Emit(r).step > 0
    ensures Emit(r).step * r.limit <= Emit(r).end - Emit(r).start
  {
    var e, n := Emit(r), r.limit;
    StepUsable(r);
    NestedQuo(Sub(r.end, r.start), n);
    MulCancel(e.step * n, e.end - e.start + 1, SECOND);
  }

  /** Both bounds are reached, whatever the limit. */
  lemma {:induction false} SampleBoundsTight(n: uint32)
    requires n > 0
    ensures var e := Emit(Range(0, n * SECOND, n)); e.step == 1 && SampleCount(e) == n + 1
    ensures var e := Emit(Range(SECOND - 1, 2 * n * SECOND, n)); e.step == 1 && SampleCount(e) == 2 * n + 1
  {
    ExactQuotient(n * SECOND, n, SECOND);
    assert (n * SECOND) / SECOND == n && (2 * n * SECOND) / SECOND == 2 * n;
    var d := 2 * n * SECOND - (SECOND - 1);
    ExactQuotientBetween(d, n);
  }

  lemma {:induction false} ExactQuotient(d: int, n: int, q: int)
    requires n > 0 && q > 0 && d == n * q
    ensures d / n == q
  {
    assert d == q * n;
    DivBounds(d, n, q, q);
  }

  lemma {:induction false} ExactQuotientBetween(d: int, n: int)
    requires n > 0 && n * SECOND <= d < 2 * n * SECOND
    ensures (d / n) / SECOND == 1
  {
    assert n * (2 * SECOND - 1) + n - 1 == 2 * n * SECOND - 1;
    DivBounds(d, n, SECOND, 2 * SECOND - 1);
  }

  /**
   * Of a range too long for a Duration the step is that of the longest Duration, which is usable for
   * every limit; the samples stay within twice the limit exactly while the whole seconds of the
   * range stay below so many steps.
   */
  lemma {:induction false} SaturatedBound(r: Range)
    requires r.limit > 0 && r.end - r.start > MAX_DURATION
    ensures Emit(r).step == (MAX_DURATION / r.limit) / SECOND > 0
    ensures SampleCount(Emit(r)) <= 2 * r.limit + 1 <==>
            r.end / SECOND - r.start / SECOND < (2 * r.limit + 1) * ((MAX_DURATION / r.limit) / SECOND)
  {
    var n, s := r.limit, Emit(r).step;
    var l := Emit(r).end - Emit(r).start;
    StepUsable(Range(0, MAX_DURATION, n));
    assert MAX_DURATION >= n * SECOND;
    var q := l / s;
    assert s * q <= l < s * q + s;
    if q <= 2 * n {
      MulMono(q + 1, 2 * n + 1, s);
      assert (q + 1) * s == s * q + s;
    } else {
      MulMono(2 * n + 1, q, s);
      assert q * s == s * q;
    }
  }

  /** A range a hundred times the longest Duration is beyond that. */
  lemma {:induction false} SaturationBreaksBound()
    ensures var r := Range(0, 100 * MAX_DURATION, 1);
            Emit(r).step > 0 && SampleCount(Emit(r)) > 2 * r.limit + 1
  {
  }

  /** Of each kind of option the last one given counts, and its own field only; a limit of zero does not count. */
  lemma {:induction false} LastOptionWins(r: Range, opts: seq<RangeOption>, i: nat)
    ensures i < |opts| && opts[i].Start? && (forall j :: i < j < |opts| ==> !opts[j].Start?) ==>
              ApplyAll(r, opts).start == opts[i].t
    ensures i < |opts| && opts[i].End? && (forall j :: i < j < |opts| ==> !opts[j].End?) ==>
              ApplyAll(r, opts).end == opts[i].t
    ensures i < |opts| && opts[i].Limit? && opts[i].n != 0
            && (forall j :: i < j < |opts| ==> !(opts[j].Limit? && opts[j].n != 0)) ==>
              ApplyAll(r, opts).limit == opts[i].n
    ensures (forall j :: 0 <= j < |opts| ==> !opts[j].Start?) ==> ApplyAll(r, opts).start == r.start
    ensures (forall j :: 0 <= j < |opts| ==> !opts[j].End?) ==> ApplyAll(r, opts).end == r.end
    ensures (forall j :: 0 <= j < |opts| ==> !(opts[j].Limit? && opts[j].n != 0)) ==> ApplyAll(r, opts).limit == r.limit
  {
    if opts != [] {
      var init := opts[..|opts| - 1];
      assert forall j :: 0 <= j < |init| ==> init[j] == opts[j];
      LastOptionWins(r, init, i);
    }
  }

  /** The numbers emitted: start and end in whole seconds rounded down, the limit as it is. */
  lemma {:induction false} EmitExact(r: Range)
    requires r.limit > 0
    ensures var e := Emit(r);
            && e.start * 1_000_000_000 <= r.start < (e.start + 1) * 1_000_000_000
            && e.end * 1_000_000_000 <= r.end < (e.end + 1) * 1_000_000_000
            && e.limit == r.limit
  {
  }
}
