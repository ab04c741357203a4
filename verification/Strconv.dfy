/**
 * The parts of package strconv that the SDK leans on: decimal printing, and the
 * base-10 parsers with their bit-size limits, their left-to-right overflow test and
 * the value they return beside an error.
 */
module Strconv {
  import opened Bytes

  datatype Verdict = Fine | SyntaxError | RangeError
  datatype Parsed<+T> = Parsed(value: T, verdict: Verdict)

  function Pow2(n: nat): (p: int)
    ensures p >= 1
  {
    if n == 0 then 1 else 2 * Pow2(n - 1)
  }

  lemma {:induction false} Pow2Mono(a: nat, b: nat)
    requires a <= b
    ensures Pow2(a) <= Pow2(b)
    decreases b - a
  {
    if a < b { Pow2Mono(a + 1, b); }
  }

  lemma {:induction false} Pow2Add(a: nat, b: nat)
    ensures Pow2(a + b) == Pow2(a) * Pow2(b)
  {
    if a > 0 { Pow2Add(a - 1, b); }
  }

  lemma {:induction false} Pow2Int64()
    ensures Pow2(63) == 0x8000_0000_0000_0000
  {
    Pow2Int33();
    Pow2Add(33, 30);
    Pow2Add(30, 3);
    assert Pow2(1) == 2 && Pow2(3) == 2 * Pow2(2) == 8;
  }

  lemma {:induction false} Pow2Int33()
    ensures Pow2(33) == 0x2_0000_0000
  {
    assert Pow2(2) == 4 && Pow2(4) == 16;
    Pow2Add(4, 4);
    Pow2Add(8, 8);
    Pow2Add(16, 16);
  }

  predicate IsDigit(c: Byte) {
    '0' <= c <= '9'
  }

  function DigitValue(c: Byte): int
    requires IsDigit(c)
  {
    c as int - '0' as int
  }

  predicate AllDigits(s: Str) {
    forall i :: 0 <= i < |s| ==> IsDigit(s[i])
  }

  /** The number a string of digits denotes, most significant digit first. */
  function Value(s: Str): (v: int)
    requires AllDigits(s)
    ensures v >= 0
  {
    if s == [] then 0 else 10 * Value(s[..|s| - 1]) + DigitValue(s[|s| - 1])
  }

  /** Decimal digits of a natural number, without leading zeros. */
  function PrintNat(n: nat): (s: Str)
    ensures s != [] && AllDigits(s) && Value(s) == n
    ensures s[0] == '0' ==> n == 0 && s == ['0']
  {
    if n < 10 then [('0' as int + n) as char]
    else
      var init := PrintNat(n / 10);
      var s := init + [('0' as int + n % 10) as char];
      assert s[..|s| - 1] == init;
      s
  }

  /** strconv.Itoa */
  function Itoa(n: int): (s: Str)
    ensures s != []
  {
    if n >= 0 then PrintNat(n) else ['-'] + PrintNat(-n)
  }

  /**
   * The digit loop of strconv.ParseUint: s is what is still unread and n the value so
   * far. A range error is found at the first digit that takes the value past the limit,
   * before anything to the right of it is looked at.
   */
  function ScanUint(s: Str, n: int, maxVal: int): Parsed<int> {
    if s == [] then Parsed(n, Fine)
    else if !IsDigit(s[0]) then Parsed(0, SyntaxError)
    else
      var n' := 10 * n + DigitValue(s[0]);
      if n' > maxVal then Parsed(maxVal, RangeError) else ScanUint(s[1..], n', maxVal)
  }

  /** strconv.ParseUint(s, 10, bits) */
  function ParseUint(s: Str, bits: nat): Parsed<int> {
    if s == [] then Parsed(0, SyntaxError) else ScanUint(s, 0, Pow2(bits) - 1)
  }

  /** strconv.ParseInt(s, 10, bits) */
  function ParseInt(s: Str, bits: nat): Parsed<int>
    requires bits > 0
  {
    if s == [] then Parsed(0, SyntaxError)
    else
      var neg := s[0] == '-';
      var un := ParseUint(if s[0] == '+' || neg then s[1..] else s, bits);
      var cutoff := Pow2(bits - 1);
      if un.verdict == SyntaxError then Parsed(0, SyntaxError)
      else if !neg && un.value >= cutoff then Parsed(cutoff - 1, RangeError)
      else if neg && un.value > cutoff then Parsed(-cutoff, RangeError)
      else Parsed(if neg then -un.value else un.value, Fine)
  }

  /** strconv.ParseBool */
  function ParseBool(s: Str): Parsed<bool> {
    if s in ["1", "t", "T", "TRUE", "true", "True"] then Parsed(true, Fine)
    else if s in ["0", "f", "F", "FALSE", "false", "False"] then Parsed(false, Fine)
    else Parsed(false, SyntaxError)
  }

  lemma {:induction false} ValueAppend(a: Str, b: Str)
    requires AllDigits(a) && b != [] && AllDigits(b)
    ensures AllDigits(a + [b[0]]) && AllDigits(b[1..])
    ensures (a + [b[0]]) + b[1..] == a + b
    ensures Value(a + [b[0]]) == 10 * Value(a) + DigitValue(b[0])
  {
    assert (a + [b[0]])[..|a|] == a;
    assert [b[0]] + b[1..] == b;
  }

  lemma {:induction false} ValueGrows(a: Str, b: Str)
    requires AllDigits(a) && AllDigits(b)
    ensures AllDigits(a + b) && Value(a) <= Value(a + b)
    decreases |b|
  {
    if b == [] {
      assert a + b == a;
    } else {
      ValueAppend(a, b);
      ValueGrows(a + [b[0]], b[1..]);
    }
  }

  /** On a string of digits the scan returns the value, clamped to the limit. */
  lemma {:induction false} ScanDigits(read: Str, s: Str, maxVal: int)
    requires AllDigits(read) && AllDigits(s) && Value(read) <= maxVal
    ensures AllDigits(read + s)
    ensures ScanUint(s, Value(read), maxVal) ==
            (if Value(read + s) <= maxVal then Parsed(Value(read + s), Fine) else Parsed(maxVal, RangeError))
    decreases |s|
  {
    if s == [] {
      assert read + s == read;
    } else {
      ValueAppend(read, s);
      if Value(read + [s[0]]) <= maxVal {
        ScanDigits(read + [s[0]], s[1..], maxVal);
      } else {
        ValueGrows(read + [s[0]], s[1..]);
      }
    }
  }

  /** What ParseUint returns is in range whatever the text, and right when it reports no error. */
  lemma {:induction false} ScanRange(s: Str, n: int, maxVal: int)
    requires 0 <= n <= maxVal
    ensures 0 <= ScanUint(s, n, maxVal).value <= maxVal
    ensures ScanUint(s, n, maxVal).verdict == Fine ==> AllDigits(s)
    ensures ScanUint(s, n, maxVal).verdict == RangeError ==> ScanUint(s, n, maxVal).value == maxVal
    decreases |s|
  {
    if s != [] && IsDigit(s[0]) && 10 * n + DigitValue(s[0]) <= maxVal {
      ScanRange(s[1..], 10 * n + DigitValue(s[0]), maxVal);
      if AllDigits(s[1..]) {
        assert s == [s[0]] + s[1..];
      }
    }
  }

  lemma {:induction false} ParseUintRange(s: Str, bits: nat)
    ensures 0 <= ParseUint(s, bits).value < Pow2(bits)
    ensures ParseUint(s, bits).verdict == RangeError ==> ParseUint(s, bits).value == Pow2(bits) - 1
  {
    ScanRange(s, 0, Pow2(bits) - 1);
  }

  /** ParseUint accepts exactly the non-empty digit strings whose value fits, and clamps the others. */
  lemma {:induction false} ParseUintExact(s: Str, bits: nat)
    ensures ParseUint(s, bits).verdict == Fine <==> s != [] && AllDigits(s) && Value(s) < Pow2(bits)
    ensures s != [] && AllDigits(s) ==>
              ParseUint(s, bits) == if Value(s) < Pow2(bits) then Parsed(Value(s), Fine)
                                    else Parsed(Pow2(bits) - 1, RangeError)
  {
    ScanRange(s, 0, Pow2(bits) - 1);
    if s != [] && AllDigits(s) {
      assert [] + s == s;
      ScanDigits([], s, Pow2(bits) - 1);
    }
  }

  lemma {:induction false} ParseIntRange(s: Str, bits: nat)
    requires bits > 0
    ensures -Pow2(bits - 1) <= ParseInt(s, bits).value < Pow2(bits - 1)
  {
    if s != [] {
      ParseUintRange(if s[0] == '+' || s[0] == '-' then s[1..] else s, bits);
    }
  }

  /** What ParseInt accepts, for every text: a sign or none, digits, and a value in range; and that value. */
  lemma {:induction false} ParseIntExact(s: Str, bits: nat)
    requires bits > 1
    ensures var digits := if s != [] && (s[0] == '+' || s[0] == '-') then s[1..] else s;
            var neg := s != [] && s[0] == '-';
            && (ParseInt(s, bits).verdict == Fine <==>
                  && digits != [] && AllDigits(digits)
                  && -Pow2(bits - 1) <= (if neg then -Value(digits) else Value(digits)) < Pow2(bits - 1))
            && (ParseInt(s, bits).verdict == Fine ==>
                  ParseInt(s, bits).value == if neg then -Value(digits) else Value(digits))
  {
    if s != [] {
      var digits := if s[0] == '+' || s[0] == '-' then s[1..] else s;
      assert Pow2(bits) == 2 * Pow2(bits - 1) && Pow2(bits - 1) == 2 * Pow2(bits - 2);
      ParseUintExact(digits, bits);
      ParseUintRange(digits, bits);
    }
  }

  /** The texts of the two truth values; no other is accepted. */
  lemma {:induction false} ParseBoolExact(s: Str)
    ensures ParseBool(s) == Parsed(true, Fine) <==>
            s == "1" || s == "t" || s == "T" || s == "true" || s == "TRUE" || s == "True"
    ensures ParseBool(s) == Parsed(false, Fine) <==>
            s == "0" || s == "f" || s == "F" || s == "false" || s == "FALSE" || s == "False"
    ensures ParseBool(s).verdict != Fine ==> ParseBool(s) == Parsed(false, SyntaxError)
  {
  }

  /** Printing and parsing again returns every integer that fits. */
  lemma {:induction false} ParseIntItoa(n: int, bits: nat)
    requires bits > 0 && -Pow2(bits - 1) <= n < Pow2(bits - 1)
    ensures ParseInt(Itoa(n), bits) == Parsed(n, Fine)
  {
    var digits := PrintNat(if n >= 0 then n else -n);
    var s := Itoa(n);
    assert Pow2(bits) == 2 * Pow2(bits - 1);
    assert IsDigit(digits[0]);
    ParseUintExact(digits, bits);
    if n < 0 {
      assert s[0] == '-' && s[1..] == digits;
    }
  }

  lemma {:induction false} ParseUintItoa(n: nat, bits: nat)
    requires n < Pow2(bits)
    ensures ParseUint(Itoa(n), bits) == Parsed(n, Fine)
  {
    ParseUintExact(PrintNat(n), bits);
  }

  /** Over-range digit strings are clamped to the nearest bound of the type. */
  lemma {:induction false} ParseIntClamps(digits: Str, neg: bool, bits: nat)
    requires bits > 0 && digits != [] && AllDigits(digits)
    ensures var exact := if neg then -Value(digits) else Value(digits);
            var low := -Pow2(bits - 1);
            var high := Pow2(bits - 1) - 1;
            ParseInt(if neg then ['-'] + digits else digits, bits).value ==
            if exact < low then low else if exact > high then high else exact
  {
    var s := if neg then ['-'] + digits else digits;
    assert IsDigit(digits[0]);
    assert neg ==> s[1..] == digits;
    ParseUintExact(digits, bits);
    assert Pow2(bits) == 2 * Pow2(bits - 1);
    assert (if s[0] == '+' || s[0] == '-' then s[1..] else s) == digits;
  }

  /** Decimal text holds no byte other than digits and a sign. */
  lemma {:induction false} ItoaBytes(n: int, b: Byte)
    requires !IsDigit(b) && b != '-'
    ensures b !in Itoa(n)
  {
  }
}
