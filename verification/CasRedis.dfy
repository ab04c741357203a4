/**
 * Compare-and-set as a sequence of Redis commands (tools/cascmd/cas_cmd.go): watch, get, and
 * a delete or a set that is not part of a MULTI block.
 */
module CasRedis {
  import opened CasMemory
  import opened GoTime

  /** How a command ended for the client: a write may have been applied although it failed. */
  datatype Reply = Answered | Failed(applied: bool)

  datatype Replies = Replies(watch: Reply, get: Reply, write: Reply)

  const ALL_ANSWERED := Replies(Answered, Answered, Answered)

  /** What a key holds, and when Redis drops it. */
  datatype Stored = Stored(text: string, until: int)

  type Db = map<string, Stored>

  /** Every value is set to expire after a minute. */
  const EXPIRY := 60 * SECOND

  /** The keys and values as a command finds them at a moment. */
  function At(db: Db, now: int): Store {
    map k | k in db && now < db[k].until :: db[k].text
  }

  function Written(db: Db, now: int, key: string, dst: string): Db {
    if dst == "" then db - {key} else db[key := Stored(dst, now + EXPIRY)]
  }

  class RedisImpl {
    var db: Db

    constructor ()
      ensures db == map[]
    {
      db := map[];
    }

    method Del(key: string, reply: Reply) returns (ok: bool)
      modifies this
      ensures ok <==> reply.Answered?
      ensures db == if ok || reply.applied then old(db) - {key} else old(db)
    {
      ok := reply.Answered?;
      if ok || reply.applied {
        db := db - {key};
      }
    }

    method Set(now: int, key: string, value: string, reply: Reply) returns (ok: bool)
      modifies this
      ensures ok <==> reply.Answered?
      ensures db == if ok || reply.applied then old(db)[key := Stored(value, now + EXPIRY)] else old(db)
    {
      ok := reply.Answered?;
      if ok || reply.applied {
        db := db[key := Stored(value, now + EXPIRY)];
      }
    }

    /**
     * One call with the store to itself. With every command answered it is the in-process
     * compare-and-set on the values not expired; a true answer always means that; after a failed
     * command the answer is false, though the write may have happened. What it writes expires.
     */
    method CAS(now: int, key: string, src: string, dst: string, replies: Replies) returns (ok: bool)
      modifies this
      ensures ok ==> Outcome(At(db, now), true) == Cas(At(old(db), now), key, src, dst)
      ensures replies == ALL_ANSWERED ==> Outcome(At(db, now), ok) == Cas(At(old(db), now), key, src, dst)
      ensures db == old(db) || (Read(At(old(db), now), key) == src && db == Written(old(db), now, key, dst))
      ensures ok ==> db == Written(old(db), now, key, dst)
      ensures !ok && db != old(db) ==> replies.write == Failed(true)
    {
      if !replies.watch.Answered? || !replies.get.Answered? {
        return false;
      }
      var currentValue := Read(At(db, now), key);
      if currentValue != src {
        return false;
      }
      AtWritten(db, now, key, dst);
      if dst == "" {
        ok := Del(key, replies.write);
      } else {
        ok := Set(now, key, dst, replies.write);
      }
    }

    /** Calls made one after another, none failing. */
    method CASAll(calls: seq<TimedCall>) returns (answers: seq<bool>)
      modifies this
      ensures (db, answers) == TimedAll(old(db), calls)
    {
      answers := [];
      for i := 0 to |calls|
        invariant (db, answers) == TimedAll(old(db), calls[..i])
      {
        assert calls[..i + 1][..i] == calls[..i];
        var c := calls[i].call;
        var ok := CAS(calls[i].now, c.key, c.src, c.dst, ALL_ANSWERED);
        answers := answers + [ok];
      }
      assert calls[..|calls|] == calls;
    }
  }

  lemma {:induction false} AtWritten(db: Db, now: int, key: string, dst: string)
    ensures At(Written(db, now, key, dst), now) == if dst == "" then At(db, now) - {key} else At(db, now)[key := dst]
  {
  }

  datatype Call = Call(key: string, src: string, dst: string)

  /** A run of the in-process compare-and-set: the final map and the answers. */
  function CasAll(m: Store, calls: seq<Call>): (Store, seq<bool>) {
    if calls == [] then (m, [])
    else
      var (m', answers) := CasAll(m, calls[..|calls| - 1]);
      var c := calls[|calls| - 1];
      var r := Cas(m', c.key, c.src, c.dst);
      (r.store, answers + [r.ok])
  }

  // ---- expiry --------------------------------------------------------------------------

  datatype TimedCall = TimedCall(now: int, call: Call)

  /** Calls made one after another: each finds what has not expired by then. */
  function TimedAll(db: Db, calls: seq<TimedCall>): (Db, seq<bool>) {
    if calls == [] then (db, [])
    else
      var (db', answers) := TimedAll(db, calls[..|calls| - 1]);
      var now, c := calls[|calls| - 1].now, calls[|calls| - 1].call;
      if Read(At(db', now), c.key) == c.src then (Written(db', now, c.key, c.dst), answers + [true])
      else (db', answers + [false])
  }

  function Plain(calls: seq<TimedCall>): seq<Call> {
    seq(|calls|, i requires 0 <= i < |calls| => calls[i].call)
  }

  /** Keys and values with no thought of expiry. */
  function Texts(db: Db): Store {
    map k | k in db :: db[k].text
  }

  /** The in-process run of the same calls, which forgets nothing, with the deadlines its writes would get. */
  function MemAll(db: Db, calls: seq<TimedCall>): (Db, seq<bool>) {
    if calls == [] then (db, [])
    else
      var (db', answers) := MemAll(db, calls[..|calls| - 1]);
      var now, c := calls[|calls| - 1].now, calls[|calls| - 1].call;
      if Read(Texts(db'), c.key) == c.src then (Written(db', now, c.key, c.dst), answers + [true])
      else (db', answers + [false])
  }

  /** The call comes after its key's value has expired, and asks for that value or for none. */
  predicate Late(db: Db, t: TimedCall) {
    && t.call.key in db && db[t.call.key].until <= t.now && db[t.call.key].text != ""
    && (t.call.src == "" || t.call.src == db[t.call.key].text)
  }

  /** No call is late, by the calls, their times and the store they start from. */
  predicate OnTime(db: Db, calls: seq<TimedCall>) {
    calls == [] ||
    (OnTime(db, calls[..|calls| - 1]) && !Late(MemAll(db, calls[..|calls| - 1]).0, calls[|calls| - 1]))
  }

  lemma {:induction false} TextsWritten(db: Db, now: int, c: Call)
    ensures Cas(Texts(db), c.key, c.src, c.dst) ==
            if Read(Texts(db), c.key) == c.src then Outcome(Texts(Written(db, now, c.key, c.dst)), true)
            else Outcome(Texts(db), false)
  {
    var db' := Written(db, now, c.key, c.dst);
    assert Texts(db') == if c.dst == "" then Texts(db) - {c.key} else Texts(db)[c.key := c.dst];
  }

  /** The run with deadlines noted is the in-process run. */
  lemma {:induction false} MemAllIsCasAll(db: Db, calls: seq<TimedCall>)
    ensures CasAll(Texts(db), Plain(calls)) == (Texts(MemAll(db, calls).0), MemAll(db, calls).1)
  {
    if calls == [] {
      assert Plain(calls) == [];
    } else {
      var n := |calls| - 1;
      MemAllIsCasAll(db, calls[..n]);
      assert Plain(calls)[..n] == Plain(calls[..n]);
      TextsWritten(MemAll(db, calls[..n]).0, calls[n].now, calls[n].call);
    }
  }

  /** A call is late exactly when expiry changes its answer. */
  lemma {:induction false} LateExactly(db: Db, t: TimedCall)
    ensures Late(db, t) <==>
            (Read(At(db, t.now), t.call.key) == t.call.src) != (Read(Texts(db), t.call.key) == t.call.src)
  {
  }

  lemma {:induction false} AnswersPerCall(db: Db, calls: seq<TimedCall>)
    ensures |TimedAll(db, calls).1| == |MemAll(db, calls).1| == |calls|
  {
    if calls != [] { AnswersPerCall(db, calls[..|calls| - 1]); }
  }

  lemma {:induction false} OnTimeIff(db: Db, calls: seq<TimedCall>)
    ensures OnTime(db, calls) <==> TimedAll(db, calls).1 == MemAll(db, calls).1
    ensures OnTime(db, calls) ==> TimedAll(db, calls) == MemAll(db, calls)
  {
    if calls != [] {
      var n := |calls| - 1;
      var x, y := TimedAll(db, calls[..n]), MemAll(db, calls[..n]);
      OnTimeIff(db, calls[..n]);
      AnswersPerCall(db, calls[..n]);
      LateExactly(y.0, calls[n]);
      var a, b := TimedAll(db, calls).1, MemAll(db, calls).1;
      assert a[..n] == x.1 && b[..n] == y.1;
      if a == b {
        assert a[n] == b[n];
      }
    }
  }

  /**
   * Sequential refinement, for every sequence of calls made one after another at whatever times: the
   * answers are those of the in-process map exactly when no call is late, and then the keys and values
   * are its keys and values too. Whether a call is late depends on the calls, their times and the
   * starting store alone.
   */
  lemma {:induction false} SequentialRefinement(db: Db, calls: seq<TimedCall>)
    ensures OnTime(db, calls) <==> TimedAll(db, calls).1 == CasAll(Texts(db), Plain(calls)).1
    ensures OnTime(db, calls) ==>
              CasAll(Texts(db), Plain(calls)) == (Texts(TimedAll(db, calls).0), TimedAll(db, calls).1)
  {
    MemAllIsCasAll(db, calls);
    OnTimeIff(db, calls);
  }

  /** Nothing there expires by the given moment. */
  ghost predicate Lasts(db: Db, end: int) {
    forall k :: k in db ==> end < db[k].until
  }

  /** So within a minute, on a store of which nothing expires meanwhile, no call is late. */
  lemma {:induction false} OnTimeWithinAMinute(db: Db, calls: seq<TimedCall>, end: int)
    requires Lasts(db, end)
    requires forall i :: 0 <= i < |calls| ==> end - EXPIRY < calls[i].now <= end
    ensures OnTime(db, calls) && Lasts(MemAll(db, calls).0, end)
  {
    if calls != [] {
      OnTimeWithinAMinute(db, calls[..|calls| - 1], end);
    }
  }

  lemma {:induction false} WithinAMinute(db: Db, calls: seq<TimedCall>, end: int)
    requires Lasts(db, end)
    requires forall i :: 0 <= i < |calls| ==> end - EXPIRY < calls[i].now <= end
    ensures var (db', answers) := TimedAll(db, calls);
            Lasts(db', end) && CasAll(At(db, end), Plain(calls)) == (At(db', end), answers)
  {
    OnTimeWithinAMinute(db, calls, end);
    OnTimeIff(db, calls);
    SequentialRefinement(db, calls);
    assert At(db, end) == Texts(db);
    assert At(TimedAll(db, calls).0, end) == Texts(TimedAll(db, calls).0);
  }

  /** After a minute it does: a lock taken and not given back can be taken by another, and not before. */
  lemma {:induction false} LockLapses(db: Db, key: string, t0: string, t1: string, now: int, later: int)
    requires t0 != "" && t1 != "" && Read(At(db, now), key) == ""
    ensures TimedAll(db, [TimedCall(now, Call(key, "", t0)), TimedCall(later, Call(key, "", t1))]).1 ==
            [true, later >= now + 60_000_000_000]
  {
    var a, b := TimedCall(now, Call(key, "", t0)), TimedCall(later, Call(key, "", t1));
    assert [a, b][..1] == [a] && [a][..0] == [];
    assert TimedAll(db, []) == (db, []);
    var db' := Written(db, now, key, t0);
    assert TimedAll(db, [a]).0 == db' && TimedAll(db, [a]).1 == [] + [true] == [true];
    assert key in At(db', later) <==> later < now + EXPIRY;
  }

  // ---- calls that overlap ----------------------------------------------------------

  /** A call between its get and its write, with the value it saw. */
  datatype Open = Open(call: Call, seen: string)

  /** A call that has returned. */
  datatype Finished = Finished(client: Client, call: Call, ok: bool)

  datatype System = System(store: Store, open: map<Client, Open>, done: seq<Finished>)

  /** Begin is the watch and the get of a call, Commit its write; a client makes one call at a time. */
  datatype Micro = Begin(client: Client, call: Call) | Commit(client: Client)

  /** The write goes by the value seen, not by the value there now. */
  function CommitCall(m: Store, o: Open): Outcome {
    if o.seen != o.call.src then Outcome(m, false)
    else Outcome(if o.call.dst == "" then m - {o.call.key} else m[o.call.key := o.call.dst], true)
  }

  function Next(s: System, a: Micro): System {
    match a
    case Begin(c, call) =>
      if c in s.open then s else s.(open := s.open[c := Open(call, Read(s.store, call.key))])
    case Commit(c) =>
      if c !in s.open then s
      else
        var o := s.open[c];
        var r := CommitCall(s.store, o);
        System(r.store, s.open - {c}, s.done + [Finished(c, o.call, r.ok)])
  }

  function Execute(m: Store, actions: seq<Micro>): System {
    if actions == [] then System(m, map[], [])
    else Next(Execute(m, actions[..|actions| - 1]), actions[|actions| - 1])
  }

  function Calls(done: seq<Finished>): seq<Call> {
    seq(|done|, i requires 0 <= i < |done| => done[i].call)
  }

  function Answers(done: seq<Finished>): seq<bool> {
    seq(|done|, i requires 0 <= i < |done| => done[i].ok)
  }

  /** Nothing between get and write changed whether the key holds the expected value. */
  predicate Undisturbed(s: System, a: Micro) {
    a.Commit? && a.client in s.open ==>
      var o := s.open[a.client];
      o.seen == o.call.src <==> Read(s.store, o.call.key) == o.call.src
  }

  lemma {:induction false} CommitAtomic(s: System, c: Client)
    requires c in s.open
    ensures var o := s.open[c];
            CommitCall(s.store, o) == Cas(s.store, o.call.key, o.call.src, o.call.dst) <==> Undisturbed(s, Commit(c))
  {
  }

  ghost predicate AllUndisturbed(m: Store, actions: seq<Micro>) {
    forall i :: 0 <= i < |actions| ==> Undisturbed(Execute(m, actions[..i]), actions[i])
  }

  lemma {:induction false} DoneGrows(m: Store, done: seq<Finished>, f: Finished)
    requires CasAll(m, Calls(done)).1 == Answers(done)
    requires Cas(CasAll(m, Calls(done)).0, f.call.key, f.call.src, f.call.dst).ok == f.ok
    ensures CasAll(m, Calls(done + [f])) ==
            (Cas(CasAll(m, Calls(done)).0, f.call.key, f.call.src, f.call.dst).store, Answers(done + [f]))
  {
    assert Calls(done + [f]) == Calls(done) + [f.call] && Answers(done + [f]) == Answers(done) + [f.ok];
    assert (Calls(done) + [f.call])[..|done|] == Calls(done);
  }

  /** Overlapping calls whose commits are undisturbed behave as if made one by one, in commit order. */
  lemma {:induction false} UndisturbedSerial(m: Store, actions: seq<Micro>)
    requires AllUndisturbed(m, actions)
    ensures var s := Execute(m, actions); CasAll(m, Calls(s.done)) == (s.store, Answers(s.done))
  {
    if actions != [] {
      var n := |actions| - 1;
      var init := actions[..n];
      forall i | 0 <= i < |init| ensures Undisturbed(Execute(m, init[..i]), init[i]) {
        assert init[..i] == actions[..i] && init[i] == actions[i];
      }
      UndisturbedSerial(m, init);
      var s := Execute(m, init);
      if actions[n].Commit? && actions[n].client in s.open {
        var o := s.open[actions[n].client];
        CommitAtomic(s, actions[n].client);
        DoneGrows(m, s.done, Finished(actions[n].client, o.call, CommitCall(s.store, o).ok));
      }
    } else {
      assert Calls([]) == [] && Answers([]) == [];
    }
  }

  ghost predicate SerialAt(m: Store, actions: seq<Micro>, n: nat)
    requires n <= |actions|
  {
    var s := Execute(m, actions[..n]);
    CasAll(m, Calls(s.done)) == (s.store, Answers(s.done))
  }

  /** And nothing weaker will do: calls are serial all along exactly when every commit is undisturbed. */
  lemma {:induction false} SerialExactly(m: Store, actions: seq<Micro>)
    ensures AllUndisturbed(m, actions) <==> forall n: nat :: n <= |actions| ==> SerialAt(m, actions, n)
  {
    if AllUndisturbed(m, actions) {
      forall n: nat | n <= |actions| ensures SerialAt(m, actions, n) {
        assert forall i :: 0 <= i < n ==> actions[..n][..i] == actions[..i] && actions[..n][i] == actions[i];
        UndisturbedSerial(m, actions[..n]);
      }
    }
    if forall n: nat :: n <= |actions| ==> SerialAt(m, actions, n) {
      forall i | 0 <= i < |actions| ensures Undisturbed(Execute(m, actions[..i]), actions[i]) {
        assert SerialAt(m, actions, i) && SerialAt(m, actions, i + 1);
        SerialStep(m, actions, i);
      }
    }
  }

  lemma {:induction false} SerialStep(m: Store, actions: seq<Micro>, i: nat)
    requires i < |actions| && SerialAt(m, actions, i) && SerialAt(m, actions, i + 1)
    ensures Undisturbed(Execute(m, actions[..i]), actions[i])
  {
    assert actions[..i + 1][..i] == actions[..i];
    var s, a := Execute(m, actions[..i]), actions[i];
    if a.Commit? && a.client in s.open {
      var o := s.open[a.client];
      var r := CommitCall(s.store, o);
      var f := Finished(a.client, o.call, r.ok);
      assert Execute(m, actions[..i + 1]).done == s.done + [f];
      assert Calls(s.done + [f])[..|s.done|] == Calls(s.done);
      assert Answers(s.done + [f]) == Answers(s.done) + [r.ok];
      assert CasAll(m, Calls(s.done + [f])).1[|s.done|] == Cas(s.store, o.call.key, o.call.src, o.call.dst).ok;
      CommitAtomic(s, a.client);
    }
  }

  // ---- a discipline on the schedule --------------------------------------------------

  /** The calls under way after a schedule, by what was begun and committed alone. */
  function Pending(actions: seq<Micro>): map<Client, Call> {
    if actions == [] then map[]
    else
      var before := Pending(actions[..|actions| - 1]);
      match actions[|actions| - 1]
      case Begin(c, call) => if c in before then before else before[c := call]
      case Commit(c) => before - {c}
  }

  /** No call begins on a key while another client's call on that key is under way. */
  ghost predicate OneAtATime(actions: seq<Micro>) {
    forall i :: 0 <= i < |actions| && actions[i].Begin? && actions[i].client !in Pending(actions[..i]) ==>
      forall c :: c in Pending(actions[..i]) ==> Pending(actions[..i])[c].key != actions[i].call.key
  }

  lemma {:induction false} OneAtATimeBefore(actions: seq<Micro>)
    requires OneAtATime(actions) && actions != []
    ensures OneAtATime(actions[..|actions| - 1])
  {
    var init := actions[..|actions| - 1];
    assert forall i :: 0 <= i < |init| ==> init[..i] == actions[..i] && init[i] == actions[i];
  }

  /** What each call under way saw is there still, and no two are on one key. */
  ghost predicate Current(s: System, pending: map<Client, Call>) {
    && s.open.Keys == pending.Keys
    && (forall c :: c in s.open ==>
          s.open[c].call == pending[c] && s.open[c].seen == Read(s.store, pending[c].key))
    && (forall c, d :: c in pending && d in pending && c != d ==> pending[c].key != pending[d].key)
  }

  lemma {:induction false} CurrentKept(s: System, pending: map<Client, Call>, a: Micro)
    requires Current(s, pending)
    requires a.Begin? && a.client !in pending ==> forall c :: c in pending ==> pending[c].key != a.call.key
    ensures Current(Next(s, a), match a
                                case Begin(c, call) => if c in pending then pending else pending[c := call]
                                case Commit(c) => pending - {c})
    ensures Undisturbed(s, a)
  {
  }

  lemma {:induction false} DisciplineCurrent(m: Store, actions: seq<Micro>)
    requires OneAtATime(actions)
    ensures Current(Execute(m, actions), Pending(actions))
  {
    if actions != [] {
      var n := |actions| - 1;
      OneAtATimeBefore(actions);
      DisciplineCurrent(m, actions[..n]);
      CurrentKept(Execute(m, actions[..n]), Pending(actions[..n]), actions[n]);
    }
  }

  /** The discipline leaves every commit undisturbed. */
  lemma {:induction false} DisciplineUndisturbed(m: Store, actions: seq<Micro>)
    requires OneAtATime(actions)
    ensures AllUndisturbed(m, actions)
  {
    forall i | 0 <= i < |actions| ensures Undisturbed(Execute(m, actions[..i]), actions[i]) {
      var prefix := actions[..i];
      assert forall j :: 0 <= j < i ==> prefix[..j] == actions[..j] && prefix[j] == actions[j];
      DisciplineCurrent(m, prefix);
      CurrentKept(Execute(m, prefix), Pending(prefix), actions[i]);
    }
  }

  /**
   * Calls on different keys may overlap at will: as long as no call begins on a key that another
   * client's call is busy with, all calls act and answer as if made one by one in the order of
   * their writes. Whether a schedule keeps to this can be told from the calls alone.
   */
  lemma {:induction false} Serializable(m: Store, actions: seq<Micro>)
    requires OneAtATime(actions)
    ensures var s := Execute(m, actions); CasAll(m, Calls(s.done)) == (s.store, Answers(s.done))
  {
    DisciplineUndisturbed(m, actions);
    UndisturbedSerial(m, actions);
  }

  // ---- locks ---------------------------------------------------------------------------

  function LockCall(token: Client -> string, op: Op): Call {
    match op
    case Acquire(c, key) => Call(key, "", token(c))
    case Release(c, key) => Call(key, token(c), "")
  }

  /** Every call is a client's attempt to take or to give back a lock with its own token. */
  ghost predicate LockSchedule(token: Client -> string, actions: seq<Micro>) {
    forall i :: 0 <= i < |actions| && actions[i].Begin? ==>
      exists op: Op :: op.client == actions[i].client && actions[i].call == LockCall(token, op)
  }

  function OpOf(f: Finished): Op {
    if f.call.src == "" then Acquire(f.client, f.call.key) else Release(f.client, f.call.key)
  }

  function Ops(done: seq<Finished>): seq<Op> {
    seq(|done|, i requires 0 <= i < |done| => OpOf(done[i]))
  }

  /** The locks the clients believe they hold, from the answers they got. */
  function Held(done: seq<Finished>): set<(Client, string)> {
    if done == [] then {}
    else
      var before, f := Held(done[..|done| - 1]), done[|done| - 1];
      var lock := (f.client, f.call.key);
      if !f.ok then before else if OpOf(f).Acquire? then before + {lock} else before - {lock}
  }

  /** Calls under way are lock calls too, and those finished add up to a run of the in-process locks. */
  ghost predicate AsLocks(token: Client -> string, s: System) {
    && (forall c :: c in s.open ==> exists op: Op :: op.client == c && s.open[c].call == LockCall(token, op))
    && Run(token, Ops(s.done)) == Locks(s.store, Held(s.done))
  }

  lemma {:induction false} OpsGrow(done: seq<Finished>, f: Finished)
    ensures Ops(done + [f]) == Ops(done) + [OpOf(f)] && Ops(done + [f])[..|done|] == Ops(done)
    ensures var lock := (f.client, f.call.key);
            Held(done + [f]) ==
            if !f.ok then Held(done) else if OpOf(f).Acquire? then Held(done) + {lock} else Held(done) - {lock}
  {
    assert (done + [f])[..|done|] == done;
  }

  /** A lock call finished is a step of the in-process locks. */
  lemma {:induction false} FinishedStep(token: Client -> string, store: Store, done: seq<Finished>, op: Op, f: Finished)
    requires Run(token, Ops(done)) == Locks(store, Held(done))
    requires f.client == op.client && f.call == LockCall(token, op) && OpOf(f) == op
    requires f.ok == Cas(store, f.call.key, f.call.src, f.call.dst).ok
    ensures Run(token, Ops(done + [f])) ==
            Locks(Cas(store, f.call.key, f.call.src, f.call.dst).store, Held(done + [f]))
  {
    OpsGrow(done, f);
    assert Run(token, Ops(done + [f])) == Step(token, Run(token, Ops(done)), op);
  }

  lemma {:induction false} CommitAsLocks(token: Client -> string, s: System, c: Client)
    requires Tokens(token) && AsLocks(token, s) && c in s.open && Undisturbed(s, Commit(c))
    ensures AsLocks(token, Next(s, Commit(c)))
  {
    var o := s.open[c];
    var op: Op :| op.client == c && o.call == LockCall(token, op);
    var f := Finished(c, o.call, CommitCall(s.store, o).ok);
    CommitAtomic(s, c);
    FinishedStep(token, s.store, s.done, op, f);
  }

  lemma {:induction false} ScheduleAsLocks(token: Client -> string, actions: seq<Micro>)
    requires Tokens(token) && LockSchedule(token, actions) && OneAtATime(actions)
    ensures AsLocks(token, Execute(map[], actions))
  {
    if actions != [] {
      var n := |actions| - 1;
      var s := Execute(map[], actions[..n]);
      OneAtATimeBefore(actions);
      ScheduleAsLocks(token, actions[..n]);
      DisciplineUndisturbed(map[], actions);
      assert Undisturbed(s, actions[n]);
      if actions[n].Commit? && actions[n].client in s.open {
        CommitAsLocks(token, s, actions[n].client);
      }
    }
  }

  /**
   * Locks on Redis exclude one another under the discipline: however calls on different keys
   * overlap, a key has at most one holder, the store holds exactly the holder's token, and no key
   * holds the empty string.
   */
  lemma {:induction false} RedisMutualExclusion(token: Client -> string, actions: seq<Micro>)
    requires Tokens(token) && LockSchedule(token, actions) && OneAtATime(actions)
    ensures var s := Execute(map[], actions);
            && (forall c, d, key :: (c, key) in Held(s.done) && (d, key) in Held(s.done) ==> c == d)
            && (forall c, key :: (c, key) in Held(s.done) <==> Read(s.store, key) == token(c))
            && (forall key :: key in s.store ==> s.store[key] != "" && exists c :: (c, key) in Held(s.done))
  {
    ScheduleAsLocks(token, actions);
    MutualExclusion(token, Ops(Execute(map[], actions).done));
  }

  // ---- overlaps --------------------------------------------------------------------------

  /** The call begun at position i is under way just before position p. */
  ghost predicate Begun(m: Store, actions: seq<Micro>, i: nat, p: nat, c: Client, call: Call) {
    && i < p <= |actions| && actions[i] == Begin(c, call) && c !in Execute(m, actions[..i]).open
    && forall n :: i < n < p ==> actions[n] != Commit(c)
  }

  lemma {:induction false} StillOpen(m: Store, actions: seq<Micro>, i: nat, p: nat, c: Client, call: Call)
    requires Begun(m, actions, i, p, c, call)
    ensures var open := Execute(m, actions[..p]).open;
            c in open && open[c] == Open(call, Read(Execute(m, actions[..i]).store, call.key))
    decreases p
  {
    assert actions[..p][..p - 1] == actions[..p - 1];
    if i + 1 < p {
      StillOpen(m, actions, i, p - 1, c, call);
    }
  }

  /** The answer of a call is settled when it begins: true exactly when its get saw what it expects. */
  lemma {:induction false} AnswerAtBegin(m: Store, actions: seq<Micro>, i: nat, p: nat, c: Client, call: Call)
    requires Begun(m, actions, i, p, c, call) && p < |actions| && actions[p] == Commit(c)
    ensures var ok := Read(Execute(m, actions[..i]).store, call.key) == call.src;
            Finished(c, call, ok) in Execute(m, actions).done
  {
    StillOpen(m, actions, i, p, c, call);
    assert actions[..p + 1][..p] == actions[..p];
    var ok := Read(Execute(m, actions[..i]).store, call.key) == call.src;
    assert Execute(m, actions[..p + 1]).done == Execute(m, actions[..p]).done + [Finished(c, call, ok)];
    StaysDone(m, actions, p + 1, Finished(c, call, ok));
  }

  lemma {:induction false} StaysDone(m: Store, actions: seq<Micro>, p: nat, f: Finished)
    requires p <= |actions| && f in Execute(m, actions[..p]).done
    ensures f in Execute(m, actions).done
    decreases |actions|
  {
    if p == |actions| {
      assert actions[..p] == actions;
    } else {
      var init := actions[..|actions| - 1];
      assert init[..p] == actions[..p];
      StaysDone(m, init, p, f);
    }
  }

  /** Between positions i and j no call on the key is committed. */
  ghost predicate Untouched(m: Store, actions: seq<Micro>, i: nat, j: nat, key: string)
    requires i <= j <= |actions|
  {
    forall n, e :: i <= n < j && actions[n] == Commit(e) && e in Execute(m, actions[..n]).open ==>
      Execute(m, actions[..n]).open[e].call.key != key
  }

  lemma {:induction false} StillFree(m: Store, actions: seq<Micro>, i: nat, j: nat, key: string)
    requires i <= j <= |actions| && Untouched(m, actions, i, j, key)
    ensures Read(Execute(m, actions[..j]).store, key) == Read(Execute(m, actions[..i]).store, key)
    decreases j
  {
    if i < j {
      StillFree(m, actions, i, j - 1, key);
      assert actions[..j][..j - 1] == actions[..j - 1];
    }
  }

  /**
   * The lock is lost in every schedule, on every store, in which two lock calls on one free key begin
   * before either is committed, with no other call on the key committed between the two beginnings:
   * both are told they got it.
   */
  lemma {:induction false} OverlapLosesLock(m: Store, token: Client -> string, actions: seq<Micro>, key: string,
                                            c: Client, d: Client, i: nat, j: nat, p: nat, q: nat)
    requires Begun(m, actions, i, p, c, LockCall(token, Acquire(c, key)))
    requires Begun(m, actions, j, q, d, LockCall(token, Acquire(d, key)))
    requires i < j < p < |actions| && q < |actions| && actions[p] == Commit(c) && actions[q] == Commit(d)
    requires Read(Execute(m, actions[..i]).store, key) == "" && Untouched(m, actions, i, j, key)
    ensures Finished(c, LockCall(token, Acquire(c, key)), true) in Execute(m, actions).done
    ensures Finished(d, LockCall(token, Acquire(d, key)), true) in Execute(m, actions).done
  {
    AnswerAtBegin(m, actions, i, p, c, LockCall(token, Acquire(c, key)));
    StillFree(m, actions, i, j, key);
    AnswerAtBegin(m, actions, j, q, d, LockCall(token, Acquire(d, key)));
  }

  lemma {:induction false} OneMore(m: Store, actions: seq<Micro>, a: Micro)
    ensures Execute(m, actions + [a]) == Next(Execute(m, actions), a)
  {
    assert (actions + [a])[..|actions|] == actions;
  }

  /** Two lock calls that begin before either has written. */
  function Overlap(token: Client -> string, key: string, c: Client, d: Client): seq<Micro> {
    [Begin(c, LockCall(token, Acquire(c, key))), Begin(d, LockCall(token, Acquire(d, key))), Commit(c), Commit(d)]
  }

  lemma {:induction false} OverlapUndisciplined(token: Client -> string, key: string, c: Client, d: Client)
    requires c != d
    ensures LockSchedule(token, Overlap(token, key, c, d)) && !OneAtATime(Overlap(token, key, c, d))
  {
    var actions := Overlap(token, key, c, d);
    var x := LockCall(token, Acquire(c, key));
    assert actions[..1] == [Begin(c, x)] && [Begin(c, x)][..0] == [];
    assert Pending([Begin(c, x)]) == map[c := x];
    assert c in Pending(actions[..1]) && actions[1].Begin?;
  }

  lemma {:induction false} BothCommit(token: Client -> string, key: string, c: Client, d: Client)
    requires Tokens(token) && c != d
    ensures var x, y := LockCall(token, Acquire(c, key)), LockCall(token, Acquire(d, key));
            Next(Next(System(map[], map[c := Open(x, ""), d := Open(y, "")], []), Commit(c)), Commit(d)) ==
            System(map[key := token(d)], map[], [Finished(c, x, true), Finished(d, y, true)])
  {
    var x, y := LockCall(token, Acquire(c, key)), LockCall(token, Acquire(d, key));
    var begun: map<Client, Open> := map[c := Open(x, ""), d := Open(y, "")];
    assert begun - {c} == map[d := Open(y, "")];
    assert Next(System(map[], begun, []), Commit(c)) ==
           System(map[key := token(c)], map[d := Open(y, "")], [Finished(c, x, true)]);
    assert map[d := Open(y, "")] - {d} == map[];
  }

  lemma {:induction false} OverlapRuns(token: Client -> string, key: string, c: Client, d: Client)
    requires c != d
    ensures var x, y := LockCall(token, Acquire(c, key)), LockCall(token, Acquire(d, key));
            Execute(map[], Overlap(token, key, c, d)) ==
            Next(Next(System(map[], map[c := Open(x, ""), d := Open(y, "")], []), Commit(c)), Commit(d))
  {
    var x, y := LockCall(token, Acquire(c, key)), LockCall(token, Acquire(d, key));
    var s1: System := System(map[], map[c := Open(x, "")], []);
    var s2: System := System(map[], map[c := Open(x, ""), d := Open(y, "")], []);
    OneMore(map[], [], Begin(c, x));
    assert [] + [Begin(c, x)] == [Begin(c, x)] && Execute(map[], []) == System(map[], map[], []);
    assert Execute(map[], [Begin(c, x)]) == s1;
    OneMore(map[], [Begin(c, x)], Begin(d, y));
    assert [Begin(c, x)] + [Begin(d, y)] == [Begin(c, x), Begin(d, y)];
    assert Next(s1, Begin(d, y)) == s2;
    OneMore(map[], [Begin(c, x), Begin(d, y)], Commit(c));
    assert [Begin(c, x), Begin(d, y)] + [Commit(c)] == [Begin(c, x), Begin(d, y), Commit(c)];
    OneMore(map[], [Begin(c, x), Begin(d, y), Commit(c)], Commit(d));
    assert [Begin(c, x), Begin(d, y), Commit(c)] + [Commit(d)] == Overlap(token, key, c, d);
  }

  /**
   * Without the discipline the lock is lost: two clients' calls overlap on a free key, each a lock
   * call with the client's own token; both are told they got it, and both hold it as far as they know.
   */
  lemma {:induction false} OverlapBreaksExclusion(token: Client -> string, key: string, c: Client, d: Client)
    requires Tokens(token) && c != d
    ensures LockSchedule(token, Overlap(token, key, c, d)) && !OneAtATime(Overlap(token, key, c, d))
    ensures var s := Execute(map[], Overlap(token, key, c, d));
            && Answers(s.done) == [true, true] && Held(s.done) == {(c, key), (d, key)}
            && s.store == map[key := token(d)]
  {
    OverlapUndisciplined(token, key, c, d);
    var x, y := LockCall(token, Acquire(c, key)), LockCall(token, Acquire(d, key));
    var f, g := Finished(c, x, true), Finished(d, y, true);
    OverlapRuns(token, key, c, d);
    BothCommit(token, key, c, d);
    assert Execute(map[], Overlap(token, key, c, d)) == System(map[key := token(d)], map[], [f, g]);
    assert [f, g][..1] == [f] && [f][..0] == [] && Held([f]) == {(c, key)};
  }
}
