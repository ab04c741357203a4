/**
 * Go strings: finite sequences of bytes, splitting them at a byte and joining them again, and
 * their byte-wise order.
 */
module Bytes {
  type Byte = c: char | (c as int) < 256 witness ' '
  type Str = seq<Byte>

  /** strings.Split for a one-byte separator: always at least one part. */
  function Split(s: Str, sep: Byte): (parts: seq<Str>)
    ensures |parts| >= 1
  {
    if s == [] then [[]]
    else
      var rest := Split(s[1..], sep);
      if s[0] == sep then [[]] + rest else [[s[0]] + rest[0]] + rest[1..]
  }

  function Join(parts: seq<Str>, sep: Byte): Str
    requires parts != []
  {
    if |parts| == 1 then parts[0] else parts[0] + [sep] + Join(parts[1..], sep)
  }

  function Count(s: Str, b: Byte): nat {
    if s == [] then 0 else (if s[0] == b then 1 else 0) + Count(s[1..], b)
  }

  ghost predicate Free(parts: seq<Str>, sep: Byte) {
    forall i :: 0 <= i < |parts| ==> sep !in parts[i]
  }

  lemma {:induction false} JoinCons(rest: seq<Str>, c: Byte, sep: Byte)
    requires rest != []
    ensures Join([[]] + rest, sep) == [sep] + Join(rest, sep)
    ensures Join([[c] + rest[0]] + rest[1..], sep) == [c] + Join(rest, sep)
  {
    assert ([[]] + rest)[1..] == rest;
    assert ([[c] + rest[0]] + rest[1..])[1..] == rest[1..];
  }

  /** Splitting loses nothing, cuts at every separator, and yields one part more than separators. */
  lemma {:induction false} JoinSplit(s: Str, sep: Byte)
    ensures Join(Split(s, sep), sep) == s
    ensures Free(Split(s, sep), sep)
    ensures |Split(s, sep)| == Count(s, sep) + 1
  {
    if s != [] {
      JoinSplit(s[1..], sep);
      JoinCons(Split(s[1..], sep), s[0], sep);
      assert s == [s[0]] + s[1..];
    }
  }

  lemma {:induction false} SplitAppend(a: Str, s: Str, sep: Byte)
    requires sep !in a
    ensures Split(a + [sep] + s, sep) == [a] + Split(s, sep)
  {
    var whole := a + [sep] + s;
    if a == [] {
      assert whole[1..] == s;
    } else {
      SplitAppend(a[1..], s, sep);
      assert whole[1..] == a[1..] + [sep] + s;
      assert a == [a[0]] + a[1..];
    }
  }

  lemma {:induction false} SplitSingle(a: Str, sep: Byte)
    requires sep !in a
    ensures Split(a, sep) == [a]
  {
    if a != [] {
      SplitSingle(a[1..], sep);
      assert a == [a[0]] + a[1..];
    }
  }

  /** A last part more. */
  lemma {:induction false} SplitLast(s: Str, last: Str, sep: Byte)
    requires sep !in last
    ensures Split(s + [sep] + last, sep) == Split(s, sep) + [last]
  {
    if s == [] {
      SplitAppend([], last, sep);
      SplitSingle(last, sep);
      assert s + [sep] + last == [] + [sep] + last;
    } else {
      SplitLast(s[1..], last, sep);
      assert (s + [sep] + last)[1..] == s[1..] + [sep] + last;
    }
  }

  /** Joining and splitting again returns the parts exactly when no part holds the separator. */
  lemma {:induction false} SplitJoin(parts: seq<Str>, sep: Byte)
    requires parts != []
    ensures Split(Join(parts, sep), sep) == parts <==> Free(parts, sep)
  {
    JoinSplit(Join(parts, sep), sep);
    if Free(parts, sep) {
      SplitJoinFree(parts, sep);
    }
  }

  lemma {:induction false} SplitJoinFree(parts: seq<Str>, sep: Byte)
    requires parts != [] && Free(parts, sep)
    ensures Split(Join(parts, sep), sep) == parts
  {
    if |parts| == 1 {
      SplitSingle(parts[0], sep);
    } else {
      SplitJoinFree(parts[1..], sep);
      SplitAppend(parts[0], Join(parts[1..], sep), sep);
    }
  }

  // Byte-wise order of strings, as Go compares and sorts them.

  predicate Leq(a: Str, b: Str) {
    a == [] || (b != [] && (a[0] < b[0] || (a[0] == b[0] && Leq(a[1..], b[1..]))))
  }

  lemma {:induction false} LeqTotal(a: Str, b: Str)
    ensures Leq(a, b) || Leq(b, a)
    ensures Leq(a, b) && Leq(b, a) ==> a == b
  {
    if a != [] && b != [] && a[0] == b[0] {
      LeqTotal(a[1..], b[1..]);
      assert a == [a[0]] + a[1..] && b == [b[0]] + b[1..];
    }
  }

  lemma {:induction false} LeqTransitive(a: Str, b: Str, c: Str)
    requires Leq(a, b) && Leq(b, c)
    ensures Leq(a, c)
  {
    if a != [] && a[0] == b[0] && b[0] == c[0] {
      LeqTransitive(a[1..], b[1..], c[1..]);
    }
  }

  /** Up to position i the two agree, and there a is the smaller. */
  ghost predicate SmallerAt(a: Str, b: Str, i: nat) {
    i < |a| && i < |b| && a[..i] == b[..i] && a[i] < b[i]
  }

  /** Leq is Go's order: a is a prefix of b, or the smaller at the first byte where they differ. */
  lemma {:induction false} LeqExact(a: Str, b: Str)
    ensures Leq(a, b) <==> a <= b || exists i: nat :: SmallerAt(a, b, i)
  {
    if a != [] && b != [] {
      LeqExact(a[1..], b[1..]);
      assert a == [a[0]] + a[1..] && b == [b[0]] + b[1..];
      if a[0] < b[0] {
        assert SmallerAt(a, b, 0);
      } else if a[0] == b[0] {
        if i: nat :| SmallerAt(a[1..], b[1..], i) {
          assert a[..i + 1] == [a[0]] + a[1..][..i] && b[..i + 1] == [b[0]] + b[1..][..i];
          assert SmallerAt(a, b, i + 1);
        }
        if i: nat :| SmallerAt(a, b, i) {
          assert i > 0;
          assert a[1..][..i - 1] == a[..i][1..] && b[1..][..i - 1] == b[..i][1..];
          assert SmallerAt(a[1..], b[1..], i - 1);
        }
      } else {
        forall i: nat ensures !SmallerAt(a, b, i) {
          if 0 < i <= |a| && i <= |b| { assert a[..i][0] == a[0] && b[..i][0] == b[0]; }
        }
      }
    }
  }

  predicate IsMin(k: Str, s: set<Str>) {
    k in s && forall x :: x in s ==> Leq(k, x)
  }

  lemma {:induction false} MinExists(s: set<Str>)
    requires s != {}
    ensures exists k :: IsMin(k, s)
    decreases |s|
  {
    var x :| x in s;
    var rest := s - {x};
    if rest == {} {
      LeqTotal(x, x);
      assert s == {x};
      assert IsMin(x, s);
    } else {
      MinExists(rest);
      var m :| IsMin(m, rest);
      LeqTotal(x, m);
      LeqTotal(x, x);
      if Leq(x, m) {
        forall y | y in s ensures Leq(x, y) {
          if y != x { LeqTransitive(x, m, y); }
        }
        assert IsMin(x, s);
      } else {
        assert IsMin(m, s);
      }
    }
  }

  lemma {:induction false} LeqAntisymmetric()
    ensures forall a: Str, b: Str :: Leq(a, b) && Leq(b, a) ==> a == b
  {
    forall a: Str, b: Str ensures Leq(a, b) && Leq(b, a) ==> a == b {
      LeqTotal(a, b);
    }
  }

  function Min(s: set<Str>): (k: Str)
    requires s != {}
    ensures IsMin(k, s)
  {
    MinExists(s);
    LeqAntisymmetric();
    var k :| IsMin(k, s);
    k
  }

  /** The elements of a set in increasing byte-wise order. */
  function Sorted(s: set<Str>): (keys: seq<Str>)
    ensures forall k :: k in keys <==> k in s
    decreases |s|
  {
    if s == {} then []
    else
      var k := Min(s);
      [k] + Sorted(s - {k})
  }

  ghost predicate Increasing(keys: seq<Str>) {
    forall i, j :: 0 <= i < j < |keys| ==> Leq(keys[i], keys[j]) && keys[i] != keys[j]
  }

  lemma {:induction false} SortedIncreasing(s: set<Str>)
    ensures Increasing(Sorted(s))
    decreases |s|
  {
    if s != {} {
      var k := Min(s);
      SortedIncreasing(s - {k});
      var rest := Sorted(s - {k});
      forall j | 0 <= j < |rest| ensures Leq(k, rest[j]) && k != rest[j] {
        assert rest[j] in rest;
      }
    }
  }

  /** Without its first element a strictly increasing listing of a set lists the set without its least. */
  lemma {:induction false} ListingTail(s: set<Str>, keys: seq<Str>)
    requires s != {} && Increasing(keys) && forall k :: k in keys <==> k in s
    ensures keys != [] && keys[0] == Min(s)
    ensures Increasing(keys[1..]) && forall x :: x in keys[1..] <==> x in s - {Min(s)}
  {
    var k := Min(s);
    assert k in keys;
    var i :| 0 <= i < |keys| && keys[i] == k;
    assert keys[0] in s;
    LeqTotal(k, keys[0]);
    assert i == 0;
    assert keys == [k] + keys[1..];
    forall x | x in keys[1..] ensures x != k {
      var j :| 0 <= j < |keys| - 1 && keys[1..][j] == x;
      assert keys[j + 1] == x;
    }
  }

  /** Sorted is the only strictly increasing listing of the set. */
  lemma {:induction false} SortedUnique(s: set<Str>, keys: seq<Str>)
    requires Increasing(keys) && forall k :: k in keys <==> k in s
    ensures keys == Sorted(s)
    decreases |s|
  {
    if s != {} {
      ListingTail(s, keys);
      SortedUnique(s - {Min(s)}, keys[1..]);
      assert keys == [keys[0]] + keys[1..];
    }
  }
}
