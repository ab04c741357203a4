/** One line of the standard logger (logger/std.go, logger/level.go): level, then key=value pairs. */
module LogLine {
  import opened Bytes

  /** A call to Log, its keys and values already rendered as text. */
  datatype Call = Call(level: int, keyvals: seq<Str>)

  function LevelName(level: int): Str {
    match level
    case -1 => "DEBUG"
    case 0 => "INFO"
    case 1 => "WARN"
    case 2 => "ERROR"
    case 3 => "FATAL"
    case _ => ""
  }

  /** An odd list gets a last value. */
  function Padded(keyvals: seq<Str>): (kvs: seq<Str>)
    ensures |kvs| % 2 == 0
  {
    if |keyvals| % 2 == 1 then keyvals + ["KEYVALS UNPAIRED"] else keyvals
  }

  function Pair(key: Str, value: Str): Str {
    " " + key + "=" + value
  }

  /** The first n pairs. */
  function Pairs(kvs: seq<Str>, n: nat): Str
    requires 2 * n <= |kvs|
  {
    if n == 0 then "" else Pairs(kvs, n - 1) + Pair(kvs[2 * n - 2], kvs[2 * n - 1])
  }

  /** What is in the buffer after the level and n pairs. */
  function Partial(c: Call, n: nat): Str
    requires 2 * n <= |Padded(c.keyvals)|
  {
    LevelName(c.level) + Pairs(Padded(c.keyvals), n)
  }

  function Render(c: Call): Str {
    Partial(c, |Padded(c.keyvals)| / 2) + "\n"
  }

  lemma {:induction false} PartialGrows(c: Call, n: nat)
    requires 2 * n + 2 <= |Padded(c.keyvals)|
    ensures Partial(c, 0) == LevelName(c.level)
    ensures var kvs := Padded(c.keyvals);
            Partial(c, n + 1) == Partial(c, n) + Pair(kvs[2 * n], kvs[2 * n + 1])
  {
    var kvs := Padded(c.keyvals);
    assert Pairs(kvs, n + 1) == Pairs(kvs, n) + Pair(kvs[2 * n], kvs[2 * n + 1]);
  }

  lemma {:induction false} RenderEndsLine(c: Call)
    ensures Render(c) != "" && Render(c)[|Render(c)| - 1] == '\n'
  {
  }

  // ---- reading a line back -----------------------------------------------------------

  /** None of the bytes that structure a line. */
  ghost predicate Word(s: Str) {
    ' ' !in s && '=' !in s && '\n' !in s
  }

  /** The parts of a line's start: the level, and n pairs that split into keys and values. */
  ghost predicate ReadsAs(parts: seq<Str>, level: Str, kvs: seq<Str>, n: nat)
    requires 2 * n <= |kvs|
  {
    && |parts| == n + 1 && parts[0] == level
    && forall m :: 0 <= m < n ==> Split(parts[m + 1], '=') == [kvs[2 * m], kvs[2 * m + 1]]
  }

  /** One pair more is one part more. */
  lemma {:induction false} SplitPair(before: Str, key: Str, value: Str)
    requires Word(key) && Word(value)
    ensures Split(before + Pair(key, value), ' ') == Split(before, ' ') + [key + ['='] + value]
    ensures Split(key + ['='] + value, '=') == [key, value]
  {
    var rest := key + ['='] + value;
    assert Pair(key, value) == [' '] + rest;
    assert before + Pair(key, value) == before + [' '] + rest;
    SplitLast(before, rest, ' ');
    SplitAppend(key, value, '=');
    SplitSingle(value, '=');
  }

  lemma {:induction false} Longer(level: Str, kvs: seq<Str>, n: nat)
    requires 2 * n + 2 <= |kvs|
    ensures level + Pairs(kvs, n + 1) == level + Pairs(kvs, n) + Pair(kvs[2 * n], kvs[2 * n + 1])
  {
  }

  lemma {:induction false} ReadsMore(parts: seq<Str>, part: Str, level: Str, kvs: seq<Str>, n: nat)
    requires 2 * n + 2 <= |kvs| && ReadsAs(parts, level, kvs, n)
    requires Split(part, '=') == [kvs[2 * n], kvs[2 * n + 1]]
    ensures ReadsAs(parts + [part], level, kvs, n + 1)
  {
  }

  lemma {:induction false} PairsReadBack(level: Str, kvs: seq<Str>, n: nat)
    requires 2 * n <= |kvs| && ' ' !in level && forall j :: 0 <= j < 2 * n ==> Word(kvs[j])
    ensures ReadsAs(Split(level + Pairs(kvs, n), ' '), level, kvs, n)
  {
    if n == 0 {
      assert level + Pairs(kvs, 0) == level;
      SplitSingle(level, ' ');
    } else {
      PairsReadBack(level, kvs, n - 1);
      OneMorePair(level + Pairs(kvs, n - 1), level, kvs, n - 1);
      Longer(level, kvs, n - 1);
    }
  }

  lemma {:induction false} OneMorePair(before: Str, level: Str, kvs: seq<Str>, n: nat)
    requires 2 * n + 2 <= |kvs| && Word(kvs[2 * n]) && Word(kvs[2 * n + 1])
    requires ReadsAs(Split(before, ' '), level, kvs, n)
    ensures ReadsAs(Split(before + Pair(kvs[2 * n], kvs[2 * n + 1]), ' '), level, kvs, n + 1)
  {
    SplitPair(before, kvs[2 * n], kvs[2 * n + 1]);
    ReadsMore(Split(before, ' '), kvs[2 * n] + ['='] + kvs[2 * n + 1], level, kvs, n);
  }

  lemma {:induction false} TwoWords(before: Str, key: Str, first: Str, second: Str)
    ensures before + Pair(key, first + [' '] + second) == before + Pair(key, first) + [' '] + second
  {
  }

  /** An odd key at the end: its value is two words. */
  lemma {:induction false} PaddedPair(before: Str, key: Str)
    requires Word(key)
    ensures Split(before + Pair(key, "KEYVALS UNPAIRED"), ' ') ==
            Split(before, ' ') + [key + ['='] + "KEYVALS"] + ["UNPAIRED"]
    ensures Split(key + ['='] + "KEYVALS", '=') == [key, "KEYVALS"]
  {
    var first, second: Str := "KEYVALS", "UNPAIRED";
    assert "KEYVALS UNPAIRED" == first + [' '] + second;
    SplitPair(before, key, first);
    TwoWords(before, key, first, second);
    SplitLast(before + Pair(key, first), second, ' ');
  }

  /** The text of each level. */
  lemma {:induction false} LevelTexts(level: int)
    ensures LevelName(level) ==
            if level == -1 then "DEBUG" else if level == 0 then "INFO" else if level == 1 then "WARN"
            else if level == 2 then "ERROR" else if level == 3 then "FATAL" else ""
    ensures ' ' !in LevelName(level) && '\n' !in LevelName(level)
  {
  }

  /** A line without its newline. */
  function Line(c: Call): Str {
    Partial(c, |Padded(c.keyvals)| / 2)
  }

  /**
   * A line read back. Split at the spaces, a line whose keys and values hold no space, equals sign or
   * newline gives the name of the level and then one part per pair, and each part, split at the
   * equals sign, its key and its value, in order.
   */
  lemma {:induction false} RenderReadsBack(c: Call)
    requires forall j :: 0 <= j < |c.keyvals| ==> Word(c.keyvals[j])
    requires |c.keyvals| % 2 == 0
    ensures Render(c) == Line(c) + ['\n'] && '\n' !in Line(c)
    ensures var parts := Split(Line(c), ' ');
            && |parts| == |c.keyvals| / 2 + 1 && parts[0] == LevelName(c.level)
            && forall m :: 0 <= m < |c.keyvals| / 2 ==>
                 Split(parts[m + 1], '=') == [c.keyvals[2 * m], c.keyvals[2 * m + 1]]
  {
    LevelTexts(c.level);
    PairsReadBack(LevelName(c.level), c.keyvals, |c.keyvals| / 2);
    NoNewline(LevelName(c.level), c.keyvals, |c.keyvals| / 2);
  }

  /** A key too many at the end is printed with a value of two words, after the pairs before it. */
  lemma {:induction false} OddReadsBack(c: Call)
    requires forall j :: 0 <= j < |c.keyvals| ==> Word(c.keyvals[j])
    requires |c.keyvals| % 2 == 1
    ensures Render(c) == Line(c) + ['\n']
    ensures var n, key := |c.keyvals| / 2, c.keyvals[|c.keyvals| - 1];
            Split(Line(c), ' ') ==
            Split(Line(Call(c.level, c.keyvals[..2 * n])), ' ') + [key + ['='] + "KEYVALS"] + ["UNPAIRED"]
  {
    var n, kvs := |c.keyvals| / 2, Padded(c.keyvals);
    var even := c.keyvals[..2 * n];
    SamePairs(even, kvs, n);
    Longer(LevelName(c.level), kvs, n);
    PaddedPair(Line(Call(c.level, even)), c.keyvals[2 * n]);
  }

  lemma {:induction false} SamePairs(some: seq<Str>, more: seq<Str>, n: nat)
    requires 2 * n <= |some| <= |more| && some == more[..|some|]
    ensures Pairs(some, n) == Pairs(more, n)
  {
    if n > 0 { SamePairs(some, more, n - 1); }
  }

  lemma {:induction false} NoNewline(level: Str, kvs: seq<Str>, n: nat)
    requires 2 * n <= |kvs| && '\n' !in level && forall j :: 0 <= j < 2 * n ==> Word(kvs[j])
    ensures '\n' !in level + Pairs(kvs, n)
  {
    if n > 0 { NoNewline(level, kvs, n - 1); }
  }
}
