/**
 * The etcd watcher (adapter/kratos/discovery/etcd/watcher.go): Next first reads the entries
 * under a prefix, then waits on a watch opened before that read, reading again at each
 * response and opening a new watch when the old one breaks. The store is changed by others
 * at any moment; how an entry decodes is a parameter.
 */
module EtcdWatcher {
  import opened Wrappers
  import opened Bytes

  type Decoder<!I> = Str -> Option<I>
  type Store = map<Str, Str>

  predicate HasPrefix(key: Str, prefix: Str) {
    prefix <= key
  }

  function Matching(store: Store, prefix: Str): set<Str> {
    set k | k in store && HasPrefix(k, prefix)
  }

  /** A prefix read: the values in increasing order of their keys. */
  function Range(store: Store, prefix: Str): seq<Str> {
    var keys := Sorted(Matching(store, prefix));
    assert forall i :: 0 <= i < |keys| ==> keys[i] in Matching(store, prefix);
    seq(|keys|, i requires 0 <= i < |keys| => store[keys[i]])
  }

  /** The values that decode, in order; the others are logged and skipped. */
  function Decodable<I>(decode: Decoder<I>, values: seq<Str>): seq<I> {
    if values == [] then []
    else
      var r := decode(values[|values| - 1]);
      Decodable(decode, values[..|values| - 1]) + if r.Some? then [r.value] else []
  }

  function View<I>(decode: Decoder<I>, store: Store, prefix: Str): seq<I> {
    Decodable(decode, Range(store, prefix))
  }

  /** The loop of getInstance, and of Registry.GetService, over the entries read. */
  method Instances<I>(decode: Decoder<I>, values: seq<Str>) returns (items: seq<I>)
    ensures items == Decodable(decode, values)
  {
    items := [];
    for i := 0 to |values|
      invariant items == Decodable(decode, values[..i])
    {
      assert values[..i + 1][..i] == values[..i];
      var r := decode(values[i]);
      if r.Some? {
        items := items + [r.value];
      }
    }
    assert values[..|values|] == values;
  }

  // ---- what a read returns, from the store alone ---------------------------------------

  /** How many of the values before position n decode. */
  function DecodableBefore<I>(decode: Decoder<I>, values: seq<Str>, n: nat): nat
    requires n <= |values|
  {
    if n == 0 then 0 else DecodableBefore(decode, values, n - 1) + if decode(values[n - 1]).Some? then 1 else 0
  }

  lemma {:induction false} DecodableAt<I>(decode: Decoder<I>, values: seq<Str>, n: nat, i: nat)
    requires i < n <= |values|
    ensures |Decodable(decode, values[..n])| == DecodableBefore(decode, values, n)
    ensures DecodableBefore(decode, values, i) <= DecodableBefore(decode, values, n)
    ensures decode(values[i]).Some? ==>
              && DecodableBefore(decode, values, i) < DecodableBefore(decode, values, n)
              && Decodable(decode, values[..n])[DecodableBefore(decode, values, i)] == decode(values[i]).value
  {
    assert values[..n][..n - 1] == values[..n - 1];
    if i < n - 1 {
      DecodableAt(decode, values, n - 1, i);
    } else if n > 1 {
      DecodableAt(decode, values, n - 1, n - 2);
    } else {
      assert values[..0] == [];
    }
  }

  /** The keys under the prefix, by their first bytes, whose values decode. */
  ghost function Found<I>(decode: Decoder<I>, store: Store, prefix: Str): set<Str> {
    set k | k in store && |prefix| <= |k| && k[..|prefix|] == prefix && decode(store[k]).Some?
  }

  /** Of the first n keys, those whose values decode. */
  ghost function FoundIn<I>(decode: Decoder<I>, store: Store, keys: seq<Str>, n: nat): (found: set<Str>)
    requires n <= |keys|
    ensures forall k :: k in found <==> k in keys[..n] && k in store && decode(store[k]).Some?
  {
    if n == 0 then {}
    else
      var before, k := FoundIn(decode, store, keys, n - 1), keys[n - 1];
      assert keys[..n] == keys[..n - 1] + [k];
      if k in store && decode(store[k]).Some? then before + {k} else before
  }

  ghost predicate Lists(store: Store, keys: seq<Str>, values: seq<Str>) {
    && |keys| == |values|
    && (forall i :: 0 <= i < |keys| ==> keys[i] in store && values[i] == store[keys[i]])
    && (forall i :: 0 <= i < |keys| ==> keys[i] !in keys[..i])
  }

  lemma {:induction false} NotBefore(keys: seq<Str>, i: nat)
    requires Increasing(keys) && i < |keys|
    ensures keys[i] !in keys[..i]
  {
  }

  lemma {:induction false} FoundNext<I>(decode: Decoder<I>, store: Store, keys: seq<Str>, n: nat)
    requires n < |keys| && keys[n] !in keys[..n] && keys[n] in store
    ensures |FoundIn(decode, store, keys, n + 1)| ==
            |FoundIn(decode, store, keys, n)| + if decode(store[keys[n]]).Some? then 1 else 0
  {
    assert keys[n] !in FoundIn(decode, store, keys, n);
  }

  lemma {:induction false} FoundBefore<I>(decode: Decoder<I>, store: Store, keys: seq<Str>, values: seq<Str>, n: nat)
    requires Lists(store, keys, values) && n <= |keys|
    ensures DecodableBefore(decode, values, n) == |FoundIn(decode, store, keys, n)|
  {
    if n > 0 {
      FoundBefore(decode, store, keys, values, n - 1);
      FoundNext(decode, store, keys, n - 1);
    }
  }

  lemma {:induction false} RangeLists(store: Store, prefix: Str)
    ensures Lists(store, Sorted(Matching(store, prefix)), Range(store, prefix))
    ensures forall k :: k in Sorted(Matching(store, prefix)) <==>
              k in store && |prefix| <= |k| && k[..|prefix|] == prefix
  {
    var keys := Sorted(Matching(store, prefix));
    SortedIncreasing(Matching(store, prefix));
    forall i | 0 <= i < |keys| ensures keys[i] in Matching(store, prefix) && keys[i] !in keys[..i] {
      assert keys[i] in keys;
      NotBefore(keys, i);
    }
  }

  /** In an increasing listing the elements before position i are those strictly below its element. */
  lemma {:induction false} BelowIsBefore(keys: seq<Str>, i: nat, k: Str)
    requires Increasing(keys) && i < |keys| && k in keys
    ensures k in keys[..i] <==> Leq(k, keys[i]) && k != keys[i]
  {
    var j :| 0 <= j < |keys| && keys[j] == k;
    LeqTotal(k, keys[i]);
    if j < i {
      assert keys[..i][j] == k;
    }
    if k in keys[..i] {
      var m :| 0 <= m < i && keys[m] == k;
    }
  }

  lemma {:induction false} FoundAll<I>(decode: Decoder<I>, store: Store, prefix: Str)
    ensures var keys := Sorted(Matching(store, prefix));
            Found(decode, store, prefix) == FoundIn(decode, store, keys, |keys|)
  {
    var keys := Sorted(Matching(store, prefix));
    RangeLists(store, prefix);
    assert keys[..|keys|] == keys;
  }

  lemma {:induction false} ViewSize<I>(decode: Decoder<I>, store: Store, prefix: Str)
    ensures |View(decode, store, prefix)| == |Found(decode, store, prefix)|
  {
    var keys, values := Sorted(Matching(store, prefix)), Range(store, prefix);
    RangeLists(store, prefix);
    FoundAll(decode, store, prefix);
    FoundBefore(decode, store, keys, values, |keys|);
    assert values[..|keys|] == values;
    if keys == [] {
      assert values == [];
    } else {
      DecodableAt(decode, values, |keys|, |keys| - 1);
    }
  }

  /**
   * What a read returns, by the store alone: one item for each key under the prefix whose value
   * decodes, and the item of such a key stands after those of the keys below it.
   */
  lemma {:induction false} ViewExact<I>(decode: Decoder<I>, store: Store, prefix: Str)
    ensures |View(decode, store, prefix)| == |Found(decode, store, prefix)|
    ensures forall k :: k in Found(decode, store, prefix) ==> ItemAt(decode, store, prefix, k)
  {
    ViewSize(decode, store, prefix);
    var keys := Sorted(Matching(store, prefix));
    forall k | k in Found(decode, store, prefix) ensures ItemAt(decode, store, prefix, k) {
      assert k in keys by { RangeLists(store, prefix); }
      var i :| 0 <= i < |keys| && keys[i] == k;
      ItemInPlace(decode, store, prefix, i);
    }
  }

  /** The keys found strictly below k. */
  ghost function Below<I>(decode: Decoder<I>, store: Store, prefix: Str, k: Str): set<Str> {
    set j | j in Found(decode, store, prefix) && Leq(j, k) && j != k
  }

  ghost predicate ItemAt<I>(decode: Decoder<I>, store: Store, prefix: Str, k: Str)
    requires k in Found(decode, store, prefix)
  {
    var place := |Below(decode, store, prefix, k)|;
    place < |View(decode, store, prefix)| && View(decode, store, prefix)[place] == decode(store[k]).value
  }

  lemma {:induction false} ItemInPlace<I>(decode: Decoder<I>, store: Store, prefix: Str, i: nat)
    requires i < |Sorted(Matching(store, prefix))| && Sorted(Matching(store, prefix))[i] in Found(decode, store, prefix)
    ensures ItemAt(decode, store, prefix, Sorted(Matching(store, prefix))[i])
  {
    var keys, values := Sorted(Matching(store, prefix)), Range(store, prefix);
    var k, n := keys[i], |keys|;
    RangeLists(store, prefix);
    SortedIncreasing(Matching(store, prefix));
    FoundBefore(decode, store, keys, values, i);
    DecodableAt(decode, values, n, i);
    assert values[..n] == values;
    forall j ensures j in Below(decode, store, prefix, k) <==> j in FoundIn(decode, store, keys, i) {
      if j in keys { BelowIsBefore(keys, i, j); }
    }
    assert Below(decode, store, prefix, k) == FoundIn(decode, store, keys, i);
  }

  // ---- the protocol ----------------------------------------------------------------

  /** What arrives on the watch channel: changes, progress notes, or the end of the watch. */
  datatype Response = Changed | Progress | Broken

  /** A watch with the responses still to be received, those in flight included. */
  datatype Watch = Watch(open: bool, pending: seq<Response>)

  datatype Phase =
    | Idle                    // no call of Next in progress
    | Waiting                 // in the select of Next
    | Sleeping                // after a broken watch, before reWatch
    | Reading                 // about to read the entries

  datatype Watcher<I> = Watcher(
    first: bool,
    phase: Phase,
    cancelled: bool,
    watch: Watch,
    last: seq<I>,             // what the last successful Next returned
    lastOk: bool)             // whether the last Next to return returned no error

  datatype System<I> = System(store: Store, w: Watcher<I>)

  datatype Action =
    // by others
    | Put(key: Str, value: Str)
    | Delete(key: Str)
    | Notify
    | Break(kept: nat, reported: bool)
    | Stop
    // by the caller and the body of Next
    | CallNext
    | Receive
    | SeeCancelled
    | ReWatch(progressOk: bool)
    | Read(ok: bool)

  predicate Enabled<I>(s: System<I>, a: Action) {
    match a
    case Put(_, _) => true
    case Delete(_) => true
    case Notify => s.w.watch.open
    case Break(kept, _) => s.w.watch.open && kept <= |s.w.watch.pending|
    case Stop => true
    case CallNext => s.w.phase.Idle?
    case Receive => s.w.phase.Waiting? && (s.w.watch.pending != [] || !s.w.watch.open)
    case SeeCancelled => s.w.phase.Waiting? && s.w.cancelled
    case ReWatch(_) => s.w.phase.Sleeping?
    case Read(ok) => s.w.phase.Reading?
  }

  /** A change reaches an open watch exactly when it is under the prefix. */
  function Told(watch: Watch, key: Str, prefix: Str): Watch {
    if watch.open && HasPrefix(key, prefix) then watch.(pending := watch.pending + [Changed]) else watch
  }

  function Next<I>(decode: Decoder<I>, prefix: Str, s: System<I>, a: Action): System<I>
    requires Enabled(s, a)
  {
    var w := s.w;
    match a
    case Put(key, value) => System(s.store[key := value], w.(watch := Told(w.watch, key, prefix)))
    case Delete(key) =>
      if key in s.store then System(s.store - {key}, w.(watch := Told(w.watch, key, prefix))) else s
    case Notify => s.(w := w.(watch := Watch(true, w.watch.pending + [Progress])))
    case Break(kept, reported) =>
      s.(w := w.(watch := Watch(false, w.watch.pending[..kept] + if reported then [Broken] else [])))
    case Stop => s.(w := w.(cancelled := true, watch := Watch(false, w.watch.pending)))
    case CallNext => s.(w := w.(phase := if w.first then Reading else Waiting))
    case Receive =>
      if w.watch.pending == [] then s.(w := w.(phase := Sleeping))
      else
        s.(w := w.(
          phase := if w.watch.pending[0].Broken? then Sleeping else Reading,
          watch := w.watch.(pending := w.watch.pending[1..])))
    case SeeCancelled => s.(w := w.(phase := Idle, lastOk := false))
    case ReWatch(progressOk) =>
      var reopened := w.(watch := Watch(!w.cancelled, []));
      s.(w := if progressOk then reopened.(phase := Reading) else reopened.(phase := Idle, lastOk := false))
    case Read(ok) =>
      s.(w := if ok then w.(first := false, phase := Idle, last := View(decode, s.store, prefix), lastOk := true)
              else w.(first := false, phase := Idle, lastOk := false))
  }

  /** newWatcher: the watch is open before the first read. */
  function Initial<I>(store: Store): System<I> {
    System(store, Watcher(true, Idle, false, Watch(true, []), [], false))
  }

  /** A stretch of a run, from whatever state it starts in. */
  ghost predicate Stretch<I>(decode: Decoder<I>, prefix: Str, trace: seq<System<I>>, actions: seq<Action>) {
    && |trace| == |actions| + 1
    && forall i :: 0 <= i < |actions| ==>
         Enabled(trace[i], actions[i]) && trace[i + 1] == Next(decode, prefix, trace[i], actions[i])
  }

  ghost predicate Run<I>(decode: Decoder<I>, prefix: Str, trace: seq<System<I>>, actions: seq<Action>) {
    Stretch(decode, prefix, trace, actions) && trace[0] == Initial(trace[0].store)
  }

  // ---- one call, undisturbed ---------------------------------------------------------

  /** A call can go through: the first one reads at once, a later one must find something in its select. */
  predicate CanCall<I>(s: System<I>, done: bool) {
    && s.w.phase.Idle?
    && (s.w.first || if done then s.w.cancelled else s.w.watch.pending != [] || !s.w.watch.open)
  }

  /** The steps of one call of Next with nobody else between them; done says which case its select takes. */
  function Call<I>(decode: Decoder<I>, prefix: Str, s: System<I>, done: bool, progressOk: bool, readOk: bool): System<I>
    requires CanCall(s, done)
  {
    var s1 := Next(decode, prefix, s, CallNext);
    if s1.w.phase.Reading? then Next(decode, prefix, s1, Read(readOk))
    else if done then Next(decode, prefix, s1, SeeCancelled)
    else
      var s2 := Next(decode, prefix, s1, Receive);
      if s2.w.phase.Reading? then Next(decode, prefix, s2, Read(readOk))
      else
        var s3 := Next(decode, prefix, s2, ReWatch(progressOk));
        if s3.w.phase.Reading? then Next(decode, prefix, s3, Read(readOk)) else s3
  }

  /** What a call that waits leaves behind: whether it read, and the watch it goes on with. */
  lemma {:induction false} CallWaited<I>(decode: Decoder<I>, prefix: Str, s: System<I>, progressOk: bool, readOk: bool)
    requires CanCall(s, false) && !s.w.first
    ensures var s', pending := Call(decode, prefix, s, false, progressOk, readOk), s.w.watch.pending;
            var woken := pending != [] && !pending[0].Broken?;
            && s'.w.phase.Idle? && !s'.w.first
            && s'.w.watch == (if woken then Watch(s.w.watch.open, pending[1..]) else Watch(!s.w.cancelled, []))
            && s'.w.lastOk == ((woken || progressOk) && readOk)
            && (s'.w.lastOk ==> s'.w.last == View(decode, s.store, prefix))
  {
    var s1 := Next(decode, prefix, s, CallNext);
    var s2 := Next(decode, prefix, s1, Receive);
    assert s2.w.phase.Reading? || s2.w.phase.Sleeping?;
    assert s2.w.first == false && s2.store == s.store && s2.w.cancelled == s.w.cancelled;
  }

  /** The watcher's own fields and methods. */
  class WatcherImpl<I> {
    const decode: Decoder<I>
    const key: Str
    var first: bool
    var watch: Watch

    constructor (decode: Decoder<I>, key: Str)
      ensures this.decode == decode && this.key == key && first && watch == Watch(true, [])
    {
      this.decode := decode;
      this.key := key;
      first := true;
      watch := Watch(true, []);
    }

    method GetInstance(store: Store, readOk: bool) returns (items: Option<seq<I>>)
      ensures items == if readOk then Some(View(decode, store, key)) else None
    {
      if !readOk {
        return None;
      }
      var found := Instances(decode, Range(store, key));
      items := Some(found);
    }

    method ReWatch(cancelled: bool, progressOk: bool) returns (ok: bool)
      modifies this
      ensures first == old(first) && watch == Watch(!cancelled, []) && ok == progressOk
    {
      watch := Watch(!cancelled, []);
      ok := progressOk;
    }

    /** Next is those steps: it returns what they leave as the last result, or an error. */
    method Next(s: System<I>, done: bool, progressOk: bool, readOk: bool) returns (items: Option<seq<I>>)
      requires CanCall(s, done) && s.w.first == first && s.w.watch == watch
      modifies this
      ensures var s' := Call(decode, key, s, done, progressOk, readOk);
              && first == s'.w.first && watch == s'.w.watch && s'.w.phase.Idle?
              && items == if s'.w.lastOk then Some(s'.w.last) else None
    {
      if first {
        items := GetInstance(s.store, readOk);
        first := false;
        return;
      }
      if done {
        return None;
      }
      CallWaited(decode, key, s, progressOk, readOk);
      var ok := watch.pending != [] && !watch.pending[0].Broken?;
      if watch.pending != [] {
        watch := watch.(pending := watch.pending[1..]);
      }
      if !ok {
        var reopened := ReWatch(s.w.cancelled, progressOk);
        if !reopened {
          return None;
        }
      }
      items := GetInstance(s.store, readOk);
    }
  }

  /** How phase, channel and first fit together, whatever was read. */
  ghost predicate Shape<I>(s: System<I>) {
    && (s.w.phase.Sleeping? || Broken in s.w.watch.pending ==> !s.w.watch.open)
    && (s.w.phase.Waiting? || s.w.phase.Sleeping? ==> !s.w.first)
  }

  /** Between calls, or waiting in one, with a good last result: it is current or a change is announced. */
  ghost predicate Inv<I>(decode: Decoder<I>, prefix: Str, s: System<I>) {
    var w := s.w;
    && Shape(s)
    && ((w.phase.Idle? || w.phase.Waiting?) && !w.first && w.lastOk && w.watch.open ==>
          w.last == View(decode, s.store, prefix) || Changed in w.watch.pending)
  }

  /** A change outside the prefix does not show in the view. */
  lemma {:induction false} ViewLocal<I>(decode: Decoder<I>, prefix: Str, store: Store, store': Store)
    requires forall k :: HasPrefix(k, prefix) ==>
               (k in store <==> k in store') && (k in store ==> store[k] == store'[k])
    ensures View(decode, store, prefix) == View(decode, store', prefix)
  {
    assert Matching(store, prefix) == Matching(store', prefix);
    var keys := Sorted(Matching(store, prefix));
    forall i | 0 <= i < |keys| ensures Range(store, prefix)[i] == Range(store', prefix)[i] {
      assert keys[i] in Matching(store, prefix);
    }
    assert Range(store, prefix) == Range(store', prefix);
  }

  lemma {:induction false} NextKept<I>(decode: Decoder<I>, prefix: Str, s: System<I>, a: Action)
    requires Inv(decode, prefix, s) && Enabled(s, a)
    ensures Inv(decode, prefix, Next(decode, prefix, s, a))
  {
    var s' := Next(decode, prefix, s, a);
    match a
    case Put(key, _) =>
      if !HasPrefix(key, prefix) { ViewLocal(decode, prefix, s.store, s'.store); }
    case Delete(key) =>
      if !HasPrefix(key, prefix) { ViewLocal(decode, prefix, s.store, s'.store); }
    case Receive =>
      if s.w.watch.pending != [] {
        assert s.w.watch.pending == [s.w.watch.pending[0]] + s.w.watch.pending[1..];
      }
    case _ =>
  }

  lemma {:induction false} ShapeKept<I>(decode: Decoder<I>, prefix: Str, s: System<I>, a: Action)
    requires Shape(s) && Enabled(s, a)
    ensures Shape(Next(decode, prefix, s, a))
  {
    if a.Receive? && s.w.watch.pending != [] {
      assert s.w.watch.pending == [s.w.watch.pending[0]] + s.w.watch.pending[1..];
    }
  }

  lemma {:induction false} RunKept<I>(decode: Decoder<I>, prefix: Str, trace: seq<System<I>>, actions: seq<Action>)
    requires Run(decode, prefix, trace, actions)
    ensures Inv(decode, prefix, trace[|actions|])
  {
    if actions != [] {
      var n := |actions| - 1;
      RunKept(decode, prefix, trace[..n + 1], actions[..n]);
      NextKept(decode, prefix, trace[n], actions[n]);
    }
  }

  /**
   * No lost update: in every run, across any number of broken watches, once a read has been
   * returned, the last call returned no error, and the watch is open with nothing left to
   * receive, the list last returned is the decodable entries under the prefix as they are now.
   */
  lemma {:induction false} NoLostUpdate<I>(decode: Decoder<I>, prefix: Str, trace: seq<System<I>>, actions: seq<Action>)
    requires Run(decode, prefix, trace, actions)
    ensures var s := trace[|actions|];
            (s.w.phase.Idle? || s.w.phase.Waiting?) && !s.w.first && s.w.lastOk
              && s.w.watch.open && s.w.watch.pending == [] ==>
              s.w.last == View(decode, s.store, prefix)
  {
    RunKept(decode, prefix, trace, actions);
  }

  /** A waiting Next whose last result is out of date can always go on: it never sleeps on a change. */
  lemma {:induction false} NoMissedWakeUp<I>(decode: Decoder<I>, prefix: Str, trace: seq<System<I>>,
                                             actions: seq<Action>)
    requires Run(decode, prefix, trace, actions)
    requires var s := trace[|actions|];
             s.w.phase.Waiting? && s.w.lastOk && s.w.last != View(decode, s.store, prefix)
    ensures Enabled(trace[|actions|], Receive)
  {
    RunKept(decode, prefix, trace, actions);
  }

  lemma {:induction false} InvAfterRead<I>(decode: Decoder<I>, prefix: Str, trace: seq<System<I>>, actions: seq<Action>)
    requires Stretch(decode, prefix, trace, actions) && Shape(trace[0])
    ensures Shape(trace[|actions|])
    ensures Read(true) in actions ==> Inv(decode, prefix, trace[|actions|])
  {
    if actions != [] {
      var n := |actions| - 1;
      InvAfterRead(decode, prefix, trace[..n + 1], actions[..n]);
      ShapeKept(decode, prefix, trace[n], actions[n]);
      if Read(true) in actions[..n] {
        NextKept(decode, prefix, trace[n], actions[n]);
      } else if Read(true) in actions {
        assert actions == actions[..n] + [actions[n]];
        assert actions[n] == Read(true);
      }
    }
  }

  /**
   * A failure is made good by the next success: from any state, however stale its list, once some
   * later read has succeeded the list is current again whenever the last call succeeded and the
   * open watch has nothing left to receive.
   */
  lemma {:induction false} SuccessRecovers<I>(decode: Decoder<I>, prefix: Str, trace: seq<System<I>>,
                                              actions: seq<Action>)
    requires Stretch(decode, prefix, trace, actions) && Shape(trace[0]) && Read(true) in actions
    ensures var s := trace[|actions|];
            (s.w.phase.Idle? || s.w.phase.Waiting?) && !s.w.first && s.w.lastOk
              && s.w.watch.open && s.w.watch.pending == [] ==>
              s.w.last == View(decode, s.store, prefix)
  {
    InvAfterRead(decode, prefix, trace, actions);
  }

  /** The proviso is needed: after a read that failed, a quiet open watch hides a missed entry. */
  lemma {:induction false} FailedReadGoesStale(decode: Decoder<Str>, key: Str, value: Str)
    requires decode(value).Some?
    ensures exists trace: seq<System<Str>>, actions ::
              && Run(decode, key, trace, actions)
              && var s := trace[|actions|];
                 && s.w.phase.Idle? && !s.w.first && s.w.watch.open && s.w.watch.pending == []
                 && s.w.last != View(decode, s.store, key)
  {
    var store := map[key := value];
    assert Matching(store, key) == {key};
    SortedUnique({key}, [key]);
    assert Range(store, key) == [value];
    assert [value][..0] == [] && Decodable(decode, [value]) == [] + [decode(value).value];
    assert View(decode, store, key) == [decode(value).value];
    var s0: System<Str> := Initial(store);
    var s1 := Next(decode, key, s0, CallNext);
    var s2 := Next(decode, key, s1, Read(false));
    assert s2.w.last == [];
    assert Run(decode, key, [s0, s1, s2], [CallNext, Read(false)]);
  }
}
