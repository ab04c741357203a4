/** Compare-and-set on an in-process map (tools/cascmd/memory.go), and the lock clients build on it. */
module CasMemory {
  type Store = map<string, string>

  /** An absent key reads as the empty string. */
  function Read(m: Store, key: string): string {
    if key in m then m[key] else ""
  }

  datatype Outcome = Outcome(store: Store, ok: bool)

  /** One compare-and-set; setting a key to the empty string deletes it. */
  function Cas(m: Store, key: string, src: string, dst: string): Outcome {
    if Read(m, key) != src then Outcome(m, false)
    else Outcome(if dst == "" then m - {key} else m[key := dst], true)
  }

  /** What one compare-and-set answers and leaves, said of every key as it reads. */
  lemma {:induction false} CasExact(m: Store, key: string, src: string, dst: string)
    ensures var r := Cas(m, key, src, dst);
            && (r.ok <==> (if key in m then m[key] else "") == src)
            && (!r.ok ==> r.store == m)
            && (r.ok && dst == "" ==> key !in r.store)
            && (r.ok && dst != "" ==> key in r.store && r.store[key] == dst)
            && forall k :: k != key ==> (k in r.store <==> k in m) && (k in m ==> r.store[k] == m[k])
  {
  }

  class MemoryImpl {
    var m: Store

    constructor ()
      ensures m == map[]
    {
      m := map[];
    }

    /** Runs under the mutex from start to end, so calls take effect one at a time. */
    method CAS(key: string, src: string, dst: string) returns (ok: bool)
      modifies this
      ensures Outcome(m, ok) == Cas(old(m), key, src, dst)
    {
      if Read(m, key) != src {
        return false;
      }
      if dst == "" {
        m := m - {key};
        return true;
      }
      m := m[key := dst];
      return true;
    }
  }

  // ---- a lock per key, taken and released by compare-and-set -----------------------

  type Client = int

  datatype Op =
    | Acquire(client: Client, key: string)
    | Release(client: Client, key: string)

  /** The map, and the locks each client believes it holds from the answers it got. */
  datatype Locks = Locks(store: Store, held: set<(Client, string)>)

  ghost predicate Tokens(token: Client -> string) {
    && (forall c :: token(c) != "")
    && (forall c, d :: token(c) == token(d) ==> c == d)
  }

  function Attempt(token: Client -> string, s: Locks, op: Op): Outcome {
    match op
    case Acquire(c, key) => Cas(s.store, key, "", token(c))
    case Release(c, key) => Cas(s.store, key, token(c), "")
  }

  function Step(token: Client -> string, s: Locks, op: Op): Locks {
    var r := Attempt(token, s, op);
    var lock := (op.client, op.key);
    Locks(r.store, if !r.ok then s.held else if op.Acquire? then s.held + {lock} else s.held - {lock})
  }

  /** Any interleaving of calls by any clients, from the empty map. */
  function Run(token: Client -> string, ops: seq<Op>): Locks {
    if ops == [] then Locks(map[], {})
    else Step(token, Run(token, ops[..|ops| - 1]), ops[|ops| - 1])
  }

  ghost predicate Consistent(token: Client -> string, s: Locks) {
    && (forall c, key :: (c, key) in s.held <==> key in s.store && s.store[key] == token(c))
    && (forall key :: key in s.store ==> exists c :: s.store[key] == token(c))
  }

  lemma {:induction false} StepConsistent(token: Client -> string, s: Locks, op: Op)
    requires Tokens(token) && Consistent(token, s)
    ensures Consistent(token, Step(token, s, op))
  {
    var s' := Step(token, s, op);
    forall key | key in s'.store ensures exists c :: s'.store[key] == token(c) {
      if key in s.store && s'.store[key] == s.store[key] {
        var c :| s.store[key] == token(c);
      } else {
        assert s'.store[key] == token(op.client);
      }
    }
  }

  lemma {:induction false} RunConsistent(token: Client -> string, ops: seq<Op>)
    requires Tokens(token)
    ensures Consistent(token, Run(token, ops))
  {
    if ops != [] {
      RunConsistent(token, ops[..|ops| - 1]);
      StepConsistent(token, Run(token, ops[..|ops| - 1]), ops[|ops| - 1]);
    }
  }

  /**
   * However the calls interleave, a key has at most one holder, the map holds exactly the
   * holder's token, and no key maps to the empty string.
   */
  lemma {:induction false} MutualExclusion(token: Client -> string, ops: seq<Op>)
    requires Tokens(token)
    ensures var s := Run(token, ops);
            && (forall c, d, key :: (c, key) in s.held && (d, key) in s.held ==> c == d)
            && (forall c, key :: (c, key) in s.held <==> Read(s.store, key) == token(c))
            && (forall key :: key in s.store ==> s.store[key] != "" && exists c :: (c, key) in s.held)
  {
    RunConsistent(token, ops);
    var s := Run(token, ops);
    forall key | key in s.store ensures s.store[key] != "" && exists c :: (c, key) in s.held {
      var c :| s.store[key] == token(c);
      assert (c, key) in s.held;
    }
  }

  /** An attempt succeeds exactly when it should: acquiring a free lock, releasing one's own. */
  lemma {:induction false} AttemptExact(token: Client -> string, ops: seq<Op>, op: Op)
    requires Tokens(token)
    ensures var s := Run(token, ops);
            Attempt(token, s, op).ok <==>
            if op.Acquire? then forall c :: (c, op.key) !in s.held else (op.client, op.key) in s.held
  {
    MutualExclusion(token, ops);
  }
}
