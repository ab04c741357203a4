/**
 * url.Values with its form-urlencoded printer and parser (application/x-www-form-urlencoded,
 * section 5 of the WHATWG URL Standard; percent-encoding, sections 2.1 and 2.3 of RFC 3986),
 * which both halves of the request signature are computed with.
 */
module FormCodec {
  import opened Wrappers
  import opened Bytes

  type Pair = (Str, Str)
  type Values = map<Str, seq<Str>>

  // ---- one component -------------------------------------------------------------

  /** The unreserved characters of section 2.3 of RFC 3986. */
  predicate Unreserved(c: Byte) {
    'a' <= c <= 'z' || 'A' <= c <= 'Z' || '0' <= c <= '9' || c in {'-', '_', '.', '~'}
  }

  function HexDigit(n: nat): Byte
    requires n < 16
  {
    if n < 10 then ('0' as int + n) as char else ('A' as int + n - 10) as char
  }

  /** Hexadecimal digits are read in either case. */
  function HexValue(c: Byte): Option<nat> {
    if '0' <= c <= '9' then Some(c as int - '0' as int)
    else if 'A' <= c <= 'F' then Some(c as int - 'A' as int + 10)
    else if 'a' <= c <= 'f' then Some(c as int - 'a' as int + 10)
    else None
  }

  function EscapeByte(c: Byte): Str {
    if Unreserved(c) then [c]
    else if c == ' ' then ['+']
    else ['%', HexDigit(c as int / 16), HexDigit(c as int % 16)]
  }

  /** url.QueryEscape */
  function Escape(s: Str): Str {
    if s == [] then [] else EscapeByte(s[0]) + Escape(s[1..])
  }

  function Prepend(c: Byte, rest: Option<Str>): Option<Str> {
    if rest.Some? then Some([c] + rest.value) else None
  }

  /** url.QueryUnescape: fails on a percent sign without two hexadecimal digits after it. */
  function Unescape(s: Str): Option<Str> {
    if s == [] then Some([])
    else if s[0] == '%' then
      if |s| >= 3 && HexValue(s[1]).Some? && HexValue(s[2]).Some? then
        Prepend((16 * HexValue(s[1]).value + HexValue(s[2]).value) as char, Unescape(s[3..]))
      else None
    else Prepend(if s[0] == '+' then ' ' else s[0], Unescape(s[1..]))
  }

  lemma {:induction false} HexRoundTrip(n: nat)
    requires n < 16
    ensures HexValue(HexDigit(n)) == Some(n)
  {
  }

  lemma {:induction false} UnescapeEscape(s: Str)
    ensures Unescape(Escape(s)) == Some(s)
  {
    if s != [] {
      var c, rest := s[0], Escape(s[1..]);
      var whole := EscapeByte(c) + rest;
      UnescapeEscape(s[1..]);
      assert s == [c] + s[1..];
      if Unreserved(c) || c == ' ' {
        assert whole[1..] == rest;
      } else {
        HexRoundTrip(c as int / 16);
        HexRoundTrip(c as int % 16);
        assert whole[3..] == rest;
        assert (16 * (c as int / 16) + c as int % 16) as char == c;
      }
    }
  }

  /** The printer's delimiters never occur inside a printed component. */
  lemma {:induction false} EscapeDelimiterFree(s: Str)
    ensures '&' !in Escape(s) && '=' !in Escape(s) && ';' !in Escape(s)
  {
    if s != [] {
      EscapeDelimiterFree(s[1..]);
      var e := EscapeByte(s[0]);
      assert forall i :: 0 <= i < |e| ==> e[i] == '%' || e[i] == '+' || Unreserved(e[i]);
    }
  }

  // ---- lists of pairs ------------------------------------------------------------

  /** Position of the first b, or the length of s. */
  function IndexOf(s: Str, b: Byte): (i: nat)
    ensures i <= |s|
    ensures i < |s| ==> s[i] == b
    ensures b !in s[..i]
  {
    if s == [] || s[0] == b then 0
    else
      var i := 1 + IndexOf(s[1..], b);
      assert s[..i] == [s[0]] + s[1..][..i - 1];
      i
  }

  /** One segment of a query: dropped when empty, holding a semicolon, or badly escaped. */
  function ParseSegment(seg: Str): Option<Pair> {
    if seg == [] || ';' in seg then None
    else
      var i := IndexOf(seg, '=');
      var k := Unescape(seg[..i]);
      var v := Unescape(if i < |seg| then seg[i + 1..] else []);
      if k.Some? && v.Some? then Some((k.value, v.value)) else None
  }

  function ParseSegments(segs: seq<Str>): seq<Pair> {
    if segs == [] then []
    else
      var p := ParseSegment(segs[0]);
      (if p.Some? then [p.value] else []) + ParseSegments(segs[1..])
  }

  /** The well-formed pairs of a raw query, in order. */
  function ParsePairs(raw: Str): seq<Pair> {
    ParseSegments(Split(raw, '&'))
  }

  function PrintPair(p: Pair): Str {
    Escape(p.0) + ['='] + Escape(p.1)
  }

  function PrintPairs(ps: seq<Pair>): Str {
    if ps == [] then [] else Join(seq(|ps|, i requires 0 <= i < |ps| => PrintPair(ps[i])), '&')
  }

  lemma {:induction false} IndexOfFirst(a: Str, rest: Str, b: Byte)
    requires b !in a
    ensures IndexOf(a + [b] + rest, b) == |a|
  {
    if a != [] {
      IndexOfFirst(a[1..], rest, b);
      assert (a + [b] + rest)[1..] == a[1..] + [b] + rest;
    }
  }

  lemma {:induction false} ParsePrintPair(p: Pair)
    ensures ParseSegment(PrintPair(p)) == Some(p)
    ensures '&' !in PrintPair(p)
  {
    var k, v := Escape(p.0), Escape(p.1);
    var seg := PrintPair(p);
    EscapeDelimiterFree(p.0);
    EscapeDelimiterFree(p.1);
    UnescapeEscape(p.0);
    UnescapeEscape(p.1);
    assert seg[..|k|] == k && seg[|k| + 1..] == v;
    IndexOfFirst(k, v, '=');
  }

  lemma {:induction false} ParseSegmentsPrinted(ps: seq<Pair>, segs: seq<Str>)
    requires |segs| == |ps| && forall i :: 0 <= i < |ps| ==> segs[i] == PrintPair(ps[i])
    ensures ParseSegments(segs) == ps
  {
    if ps != [] {
      ParsePrintPair(ps[0]);
      ParseSegmentsPrinted(ps[1..], segs[1..]);
      assert ps == [ps[0]] + ps[1..];
    }
  }

  /** Every list of pairs survives printing and parsing, order included. */
  lemma {:induction false} ParsePrintPairs(ps: seq<Pair>)
    ensures ParsePairs(PrintPairs(ps)) == ps
  {
    if ps == [] {
      assert ParseSegment([]) == None;
    } else {
      var segs := seq(|ps|, i requires 0 <= i < |ps| => PrintPair(ps[i]));
      forall i | 0 <= i < |segs| ensures '&' !in segs[i] {
        ParsePrintPair(ps[i]);
      }
      SplitJoinFree(segs, '&');
      ParseSegmentsPrinted(ps, segs);
    }
  }

  // ---- multimaps -----------------------------------------------------------------

  /** The values given to one key, in order. */
  function ValuesFor(ps: seq<Pair>, k: Str): seq<Str> {
    if ps == [] then [] else (if ps[0].0 == k then [ps[0].1] else []) + ValuesFor(ps[1..], k)
  }

  function Keys(ps: seq<Pair>): set<Str> {
    set i | 0 <= i < |ps| :: ps[i].0
  }

  function Collect(ps: seq<Pair>): Values {
    map k | k in Keys(ps) :: ValuesFor(ps, k)
  }

  /** url.ParseQuery with its error dropped, as URL.Query does. */
  function Parse(raw: Str): Values {
    Collect(ParsePairs(raw))
  }

  function Tagged(k: Str, vs: seq<Str>): seq<Pair> {
    seq(|vs|, i requires 0 <= i < |vs| => (k, vs[i]))
  }

  function Entries(keys: seq<Str>, v: Values): seq<Pair>
    requires forall k :: k in keys ==> k in v
  {
    if keys == [] then [] else Tagged(keys[0], v[keys[0]]) + Entries(keys[1..], v)
  }

  /** Values.Encode: keys in increasing order, the values of a key in their own order. */
  function Encode(v: Values): Str {
    PrintPairs(Entries(Sorted(v.Keys), v))
  }

  /** Values.Get */
  function Get(v: Values, k: Str): Str {
    if k in v && v[k] != [] then v[k][0] else []
  }

  /** No key with an empty list: what parsing produces, and Set and Del keep. */
  ghost predicate NoEmptyList(v: Values) {
    forall k :: k in v ==> v[k] != []
  }

  lemma {:induction false} ValuesForAppend(a: seq<Pair>, b: seq<Pair>, k: Str)
    ensures ValuesFor(a + b, k) == ValuesFor(a, k) + ValuesFor(b, k)
  {
    if a == [] {
      assert a + b == b;
    } else {
      assert (a + b)[1..] == a[1..] + b && (a + b)[0] == a[0];
      ValuesForAppend(a[1..], b, k);
      Regroup(if a[0].0 == k then [a[0].1] else [], ValuesFor(a[1..], k), ValuesFor(b, k));
    }
  }

  lemma {:induction false} ValuesForTagged(t: Str, vs: seq<Str>, k: Str)
    ensures ValuesFor(Tagged(t, vs), k) == if t == k then vs else []
  {
    if vs != [] {
      assert Tagged(t, vs)[1..] == Tagged(t, vs[1..]);
      ValuesForTagged(t, vs[1..], k);
      assert vs == [vs[0]] + vs[1..];
    }
  }

  lemma {:induction false} ValuesForEmpty(ps: seq<Pair>, k: Str)
    ensures ValuesFor(ps, k) == [] <==> k !in Keys(ps)
  {
    if ps != [] {
      ValuesForEmpty(ps[1..], k);
      assert forall i :: 0 <= i < |ps| - 1 ==> ps[1..][i] == ps[i + 1];
      if k in Keys(ps) && ps[0].0 != k {
        var i :| 0 <= i < |ps| && ps[i].0 == k;
        assert ps[1..][i - 1].0 == k;
      }
    }
  }

  lemma {:induction false} ValuesForEntries(keys: seq<Str>, v: Values, k: Str)
    requires Increasing(keys) && forall x :: x in keys ==> x in v
    ensures ValuesFor(Entries(keys, v), k) == if k in keys then v[k] else []
  {
    if keys != [] {
      var t, rest := keys[0], keys[1..];
      ValuesForAppend(Tagged(t, v[t]), Entries(rest, v), k);
      ValuesForTagged(t, v[t], k);
      ValuesForEntries(rest, v, k);
      assert t !in rest;
      assert keys == [t] + rest;
    }
  }

  lemma {:induction false} ParseNoEmptyList(raw: Str)
    ensures NoEmptyList(Parse(raw))
  {
    var ps := ParsePairs(raw);
    forall k | k in Keys(ps) ensures ValuesFor(ps, k) != [] {
      ValuesForEmpty(ps, k);
    }
  }

  /** Two lists of pairs that give every key the same values are the same multimap. */
  lemma {:induction false} CollectPerKey(ps: seq<Pair>, qs: seq<Pair>)
    requires forall k :: ValuesFor(ps, k) == ValuesFor(qs, k)
    ensures Collect(ps) == Collect(qs)
  {
    forall k ensures k in Keys(ps) <==> k in Keys(qs) {
      ValuesForEmpty(ps, k);
      ValuesForEmpty(qs, k);
    }
    assert Keys(ps) == Keys(qs);
  }

  lemma {:induction false} CollectIs(ps: seq<Pair>, v: Values)
    requires forall k :: k in Keys(ps) <==> k in v
    requires forall k :: k in v ==> ValuesFor(ps, k) == v[k]
    ensures Collect(ps) == v
  {
  }

  /** Encoding a multimap and parsing the text gives the multimap back. */
  lemma {:induction false} ParseEncode(v: Values)
    requires NoEmptyList(v)
    ensures Parse(Encode(v)) == v
  {
    var keys := Sorted(v.Keys);
    var ps := Entries(keys, v);
    ParsePrintPairs(ps);
    SortedIncreasing(v.Keys);
    forall k
      ensures ValuesFor(ps, k) == if k in v then v[k] else []
      ensures k in Keys(ps) <==> k in v
    {
      ValuesForEntries(keys, v, k);
      ValuesForEmpty(ps, k);
    }
    CollectIs(ps, v);
  }

  /** The text is canonical: it is the same exactly when the multimap is. */
  lemma {:induction false} EncodeInjective(v: Values, w: Values)
    requires NoEmptyList(v) && NoEmptyList(w)
    ensures Encode(v) == Encode(w) <==> v == w
  {
    ParseEncode(v);
    ParseEncode(w);
  }

  lemma {:induction false} EntriesInOrder(keys: seq<Str>, v: Values)
    requires Increasing(keys) && forall k :: k in keys ==> k in v
    ensures forall i :: 0 <= i < |Entries(keys, v)| ==> Entries(keys, v)[i].0 in keys
    ensures forall i, j :: 0 <= i < j < |Entries(keys, v)| ==> Leq(Entries(keys, v)[i].0, Entries(keys, v)[j].0)
  {
    if keys != [] {
      EntriesInOrder(keys[1..], v);
      forall k | k in keys ensures Leq(keys[0], k) {
        LeqTotal(k, k);
      }
    }
  }

  /** The printed pairs stand in increasing order of their keys. */
  lemma {:induction false} EncodeInOrder(v: Values)
    ensures var ps := ParsePairs(Encode(v));
            forall i, j :: 0 <= i < j < |ps| ==> Leq(ps[i].0, ps[j].0)
  {
    SortedIncreasing(v.Keys);
    EntriesInOrder(Sorted(v.Keys), v);
    ParsePrintPairs(Entries(Sorted(v.Keys), v));
  }

  predicate UpperHex(c: Byte) {
    '0' <= c <= '9' || 'A' <= c <= 'F'
  }

  /** Printed components use only unreserved bytes, plus, and percent with two upper-case digits. */
  ghost predicate PercentEncoded(s: Str) {
    s == [] ||
    if s[0] == '%' then |s| >= 3 && UpperHex(s[1]) && UpperHex(s[2]) && PercentEncoded(s[3..])
    else (Unreserved(s[0]) || s[0] == '+') && PercentEncoded(s[1..])
  }

  lemma {:induction false} EscapeIsPercentEncoded(s: Str)
    ensures PercentEncoded(Escape(s))
  {
    if s != [] {
      EscapeIsPercentEncoded(s[1..]);
      var e, rest := EscapeByte(s[0]), Escape(s[1..]);
      assert (e + rest)[|e|..] == rest;
    }
  }

  /** The digits, in both cases; no other byte is one. */
  lemma {:induction false} HexValueExact(c: Byte)
    ensures 48 <= c as int <= 57 ==> HexValue(c) == Some(c as int - 48)
    ensures 65 <= c as int <= 70 ==> HexValue(c) == Some(c as int - 55)
    ensures 97 <= c as int <= 102 ==> HexValue(c) == Some(c as int - 87)
    ensures HexValue(c).Some? ==> 48 <= c as int <= 57 || 65 <= c as int <= 70 || 97 <= c as int <= 102
  {
  }

  /** What each byte is printed as. */
  lemma {:induction false} EscapeByteExact(c: Byte)
    ensures var e := Escape([c]);
            if 'a' <= c <= 'z' || 'A' <= c <= 'Z' || '0' <= c <= '9' || c == '-' || c == '_' || c == '.' || c == '~'
            then e == [c]
            else if c == ' ' then e == "+"
            else
              && |e| == 3 && e[0] == '%' && UpperHex(e[1]) && UpperHex(e[2])
              && HexValue(e[1]).Some? && HexValue(e[2]).Some?
              && 16 * HexValue(e[1]).value + HexValue(e[2]).value == c as int
  {
    assert Escape([c]) == EscapeByte(c) + Escape([c][1..]) == EscapeByte(c);
    HexRoundTrip(c as int / 16);
    HexRoundTrip(c as int % 16);
  }

  lemma {:induction false} Regroup<T>(a: seq<T>, b: seq<T>, c: seq<T>)
    ensures a + (b + c) == (a + b) + c
  {
  }

  /** And a text byte by byte. */
  lemma {:induction false} EscapeAppend(a: Str, b: Str)
    ensures Escape(a + b) == Escape(a) + Escape(b)
  {
    if a == [] {
      assert a + b == b;
    } else {
      EscapeAppend(a[1..], b);
      assert (a + b)[1..] == a[1..] + b && (a + b)[0] == a[0];
      Regroup(EscapeByte(a[0]), Escape(a[1..]), Escape(b));
    }
  }

  function Append(a: Option<Str>, b: Option<Str>): Option<Str> {
    if a.Some? && b.Some? then Some(a.value + b.value) else None
  }

  /** Decoding, piece by piece: a byte standing for itself, a plus sign, a percent sign and two digits of any case. */
  lemma {:induction false} UnescapePiece(c: Byte, rest: Str)
    requires c != '%'
    ensures Unescape([c] + rest) == Append(Some([if c == '+' then ' ' else c]), Unescape(rest))
  {
    assert ([c] + rest)[1..] == rest;
  }

  lemma {:induction false} UnescapeTriplet(h: Byte, l: Byte, rest: Str)
    ensures Unescape(['%', h, l] + rest) ==
            if HexValue(h).Some? && HexValue(l).Some?
            then Append(Some([(16 * HexValue(h).value + HexValue(l).value) as char]), Unescape(rest)) else None
  {
    assert (['%', h, l] + rest)[3..] == rest;
  }

  /** A percent sign too near the end is an error. */
  lemma {:induction false} UnescapeShort(s: Str)
    requires |s| < 2
    ensures Unescape(['%'] + s) == None
  {
  }

  /** A segment with an equals sign is cut at the first one; without one it is a key with an empty value. */
  lemma {:induction false} SegmentExact(k: Str, v: Str)
    requires '=' !in k && ';' !in k
    ensures ParseSegment(k + ['='] + v) ==
            if ';' !in v && Unescape(k).Some? && Unescape(v).Some? then Some((Unescape(k).value, Unescape(v).value))
            else None
    ensures k != [] ==> ParseSegment(k) == if Unescape(k).Some? then Some((Unescape(k).value, [])) else None
    ensures ParseSegment([]) == None
  {
    var seg := k + ['='] + v;
    IndexOfFirst(k, v, '=');
    assert seg[..|k|] == k && seg[|k| + 1..] == v;
    assert k[..IndexOf(k, '=')] == k;
  }

  lemma {:induction false} ParseSegmentsAppend(a: seq<Str>, b: seq<Str>)
    ensures ParseSegments(a + b) == ParseSegments(a) + ParseSegments(b)
  {
    if a == [] {
      assert a + b == b;
    } else {
      ParseSegmentsAppend(a[1..], b);
      assert (a + b)[1..] == a[1..] + b && (a + b)[0] == a[0];
      var p := ParseSegment(a[0]);
      Regroup(if p.Some? then [p.value] else [], ParseSegments(a[1..]), ParseSegments(b));
    }
  }

  /** A query is parsed segment by segment: what one is worth does not depend on the others. */
  lemma {:induction false} ParsePairsSegment(seg: Str, raw: Str)
    requires '&' !in seg
    ensures var p := ParseSegment(seg);
            && ParsePairs(seg + ['&'] + raw) == (if p.Some? then [p.value] else []) + ParsePairs(raw)
            && ParsePairs(seg) == if p.Some? then [p.value] else []
  {
    SplitAppend(seg, raw, '&');
    SplitSingle(seg, '&');
    ParseSegmentsAppend([seg], Split(raw, '&'));
    assert ParseSegments([seg][1..]) == [];
  }

  /** The text of a list of pairs: each one's key, an equals sign and its value, escaped, ampersands between. */
  lemma {:induction false} PrintShape(ps: seq<Pair>)
    requires ps != []
    ensures var segs := Split(PrintPairs(ps), '&');
            && |segs| == |ps|
            && forall i :: 0 <= i < |ps| ==> segs[i] == Escape(ps[i].0) + ['='] + Escape(ps[i].1)
  {
    var segs := seq(|ps|, i requires 0 <= i < |ps| => PrintPair(ps[i]));
    forall i | 0 <= i < |segs| ensures '&' !in segs[i] {
      ParsePrintPair(ps[i]);
    }
    SplitJoinFree(segs, '&');
  }

  /** Values.Get is the first value the query gives the key, and empty when there is none. */
  lemma {:induction false} GetIsFirst(ps: seq<Pair>, k: Str, i: nat)
    requires i <= |ps| && forall j :: 0 <= j < i ==> ps[j].0 != k
    requires i < |ps| ==> ps[i].0 == k
    ensures Get(Collect(ps), k) == if i < |ps| then ps[i].1 else []
  {
    ValuesForEmpty(ps, k);
    FirstValue(ps, k, i);
  }

  lemma {:induction false} FirstValue(ps: seq<Pair>, k: Str, i: nat)
    requires i <= |ps| && forall j :: 0 <= j < i ==> ps[j].0 != k
    requires i < |ps| ==> ps[i].0 == k
    ensures if i < |ps| then ValuesFor(ps, k) != [] && ValuesFor(ps, k)[0] == ps[i].1 else ValuesFor(ps, k) == []
  {
    if i > 0 { FirstValue(ps[1..], k, i - 1); }
  }
}
