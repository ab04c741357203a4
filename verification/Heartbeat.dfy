/**
 * One heartbeat of the etcd registry (adapter/kratos/discovery/etcd/registry.go), as steps
 * between the points where it meets etcd, its timers and its cancellation.
 *
 * What is taken from the etcd client: granted lease ids are fresh and non-zero; KeepAlive
 * returns a channel that is already closed when it returns an error; a channel delivers
 * nothing new once its context is cancelled; a registration attempt has no effect after
 * it has been given up or its context cancelled.
 */
module Heartbeat {
  import opened Strconv

  /** A keep-alive channel: the lease it was opened for, and the responses not yet received. */
  datatype Chan = Chan(lease: nat, open: bool, buffered: nat)

  predicate Drained(c: Chan) {
    !c.open && c.buffered == 0
  }

  /** The goroutine running registerWithKV for the heartbeat. */
  datatype Attempt = NoAttempt | Granting | Granted(id: nat) | Registered(id: nat) | Refused

  datatype Pc =
    | Starting
    | Top                  // head of the outer loop
    | Retry(k: nat)        // head of the retry loop, retryCnt == k
    | Await(k: nat)        // the select on the attempt's channels and the timer
    | Got(k: nat)          // about to call KeepAlive for the new lease
    | Sleeping(k: nat)
    | Confirm              // the receive after the retry loop
    | Steady               // the select on the keep-alive channel
    | Returned

  /** The figures of one outage: registration attempts, seconds slept, timers run out, stream obtained. */
  datatype Outage = Outage(attempts: nat, slept: nat, timeouts: nat, stream: bool)

  const CALM := Outage(0, 0, 0, false)

  datatype HB = HB(
    key: string,
    value: string,
    pc: Pc,
    cur: nat,              // curLeaseID
    chans: seq<Chan>,      // every channel KeepAlive has returned
    kac: nat,              // which of them is kac
    attempt: Attempt,
    retreat: seq<nat>,
    outage: Outage,
    cancelled: bool)       // the cancel function kept for it has been called

  datatype Act =
    | KeepAliveFirst(ok: bool)
    | Loop
    | Check
    | Grant(ok: bool)
    | Put(ok: bool, applied: bool)
    | TimeOut
    | TakeError
    | TakeId
    | KeepAlive(ok: bool, pick: nat)
    | Wake
    | Receive
    | SeeDone
    // by etcd
    | Respond(j: nat)
    | Close(j: nat)

  predicate KacReady(h: HB) {
    h.kac < |h.chans| && (h.chans[h.kac].buffered > 0 || !h.chans[h.kac].open)
  }

  /** When a step can be taken; done says the heartbeat's context is cancelled. */
  predicate Ready(h: HB, a: Act, done: bool, optsDone: bool) {
    match a
    case KeepAliveFirst(_) => h.pc.Starting?
    case Loop => h.pc.Top?
    case Check => h.pc.Retry?
    case Grant(ok) => h.pc.Await? && h.attempt.Granting? && (ok ==> !done)
    case Put(ok, applied) => h.pc.Await? && h.attempt.Granted? && (ok || applied ==> !done)
    case TimeOut => h.pc.Await?
    case TakeError => h.pc.Await? && h.attempt.Refused?
    case TakeId => h.pc.Await? && h.attempt.Registered?
    case KeepAlive(ok, pick) => h.pc.Got? && pick <= |h.retreat|
    case Wake => h.pc.Sleeping?
    case Receive => (h.pc.Confirm? || h.pc.Steady?) && KacReady(h)
    case SeeDone => h.pc.Steady? && optsDone
    case Respond(j) => j < |h.chans| && h.chans[j].open && !done
    case Close(j) => j < |h.chans| && h.chans[j].open
  }

  function Opened(h: HB, ok: bool): HB {
    h.(chans := h.chans + [Chan(h.cur, ok, 0)], kac := |h.chans|)
  }

  /** The step itself; id is the lease a successful grant gives. */
  function Next(h: HB, a: Act, done: bool, optsDone: bool, maxRetry: int, id: nat): HB
    requires Ready(h, a, done, optsDone)
  {
    match a
    case KeepAliveFirst(ok) => Opened(h, ok).(pc := Top, cur := if ok then h.cur else 0)
    case Loop =>
      if h.cur == 0 then h.(pc := Retry(0), retreat := [], outage := CALM) else h.(pc := Steady)
    case Check =>
      if h.pc.k >= maxRetry then h.(pc := Confirm)
      else if done then h.(pc := Returned)
      else h.(pc := Await(h.pc.k), attempt := Granting, outage := h.outage.(attempts := h.outage.attempts + 1))
    case Grant(ok) => h.(attempt := if ok then Granted(id) else Refused)
    case Put(ok, _) => h.(attempt := if ok then Registered(h.attempt.id) else Refused)
    case TimeOut =>
      h.(pc := Retry(h.pc.k + 1), attempt := NoAttempt, outage := h.outage.(timeouts := h.outage.timeouts + 1))
    case TakeError => h.(pc := Retry(h.pc.k + 1), attempt := NoAttempt)
    case TakeId => h.(pc := Got(h.pc.k), cur := h.attempt.id, attempt := NoAttempt)
    case KeepAlive(ok, pick) =>
      if ok then Opened(h, true).(pc := Confirm, outage := h.outage.(stream := true))
      else
        var retreat := h.retreat + [Pow2(h.pc.k)];
        Opened(h, false).(
          pc := Sleeping(h.pc.k),
          retreat := retreat,
          outage := h.outage.(slept := h.outage.slept + retreat[pick]))
    case Wake => h.(pc := Retry(h.pc.k + 1))
    case Receive =>
      var c := h.chans[h.kac];
      if c.buffered > 0 then
        h.(pc := Steady, chans := h.chans[h.kac := c.(buffered := c.buffered - 1)])
      else if h.pc.Confirm? || done then h.(pc := Returned)
      else h.(pc := Top, cur := 0)
    case SeeDone => h.(pc := Returned)
    case Respond(j) => h.(chans := h.chans[j := h.chans[j].(buffered := h.chans[j].buffered + 1)])
    case Close(j) => h.(chans := h.chans[j := h.chans[j].(open := false)])
  }

  // ---- what every step keeps -------------------------------------------------------

  /** kac is the stream opened for the current lease. */
  ghost predicate OnLease(h: HB) {
    h.cur != 0 && h.kac < |h.chans| && h.chans[h.kac].lease == h.cur
  }

  ghost predicate Lost(h: HB) {
    h.kac < |h.chans| && Drained(h.chans[h.kac])
  }

  predicate InRetry(pc: Pc) {
    pc.Retry? || pc.Await? || pc.Got? || pc.Sleeping?
  }

  /** Attempts made in the retry loop so far, and iterations whose waiting is over. */
  function Made(pc: Pc): nat
    requires InRetry(pc)
  {
    if pc.Retry? then pc.k else pc.k + 1
  }

  function Waited(pc: Pc): nat
    requires InRetry(pc)
  {
    if pc.Sleeping? then pc.k + 1 else pc.k
  }

  ghost predicate Streams(h: HB) {
    && (h.chans != [] ==> h.kac == |h.chans| - 1)
    && (forall j :: 0 <= j < |h.chans| && j != h.kac ==> Drained(h.chans[j]))
    && (InRetry(h.pc) ==> !h.outage.stream)
    && (h.attempt.NoAttempt? <==> !h.pc.Await?)
    && (h.attempt.Granted? || h.attempt.Registered? ==> h.attempt.id != 0)
    && match h.pc
       case Starting => h.chans == [] && h.cur != 0
       case Top => if h.cur == 0 then Lost(h) else OnLease(h)
       case Got(_) => h.cur != 0 && Lost(h)
       case Confirm => if h.outage.stream then OnLease(h) else Lost(h)
       case Steady => OnLease(h)
       case Returned => h.chans != []
       case _ => Lost(h)
  }

  /** The figures of the outage against the retry counter. */
  ghost predicate Bounded(h: HB, maxRetry: int) {
    && (InRetry(h.pc) ==>
          && h.outage.attempts == Made(h.pc) <= Tries(maxRetry)
          && h.outage.slept < Pow2(Waited(h.pc))
          && h.outage.timeouts <= Waited(h.pc)
          && (forall i :: 0 <= i < |h.retreat| ==> h.retreat[i] < Pow2(Waited(h.pc))))
    && (h.pc.Confirm? ==> WithinLimits(h.outage, maxRetry))
  }

  function Tries(maxRetry: int): nat {
    if maxRetry < 0 then 0 else maxRetry
  }

  /** At most maxRetry attempts and timers, and less than 2 to the maxRetry seconds of sleep. */
  predicate WithinLimits(o: Outage, maxRetry: int) {
    o.attempts <= Tries(maxRetry) && o.timeouts <= Tries(maxRetry) && o.slept <= Pow2(Tries(maxRetry)) - 1
  }

  lemma {:induction false} StreamsKept(h: HB, a: Act, done: bool, optsDone: bool, maxRetry: int, id: nat)
    requires Ready(h, a, done, optsDone) && Streams(h) && id != 0
    ensures Streams(Next(h, a, done, optsDone, maxRetry, id))
  {
  }

  /** The lease the heartbeat's entry must be bound to at this point, if any. */
  function Holding(h: HB): nat {
    match h.pc
    case Starting => h.cur
    case Top => h.cur
    case Got(_) => h.cur
    case Steady => h.cur
    case Confirm => if h.outage.stream then h.cur else 0
    case Await(_) => if h.attempt.Registered? then h.attempt.id else 0
    case _ => 0
  }

  /** What the rest of the registry needs to know about a step. */
  ghost predicate Summary(h: HB, a: Act, h': HB, id: nat) {
    && h'.key == h.key && h'.value == h.value && h'.cancelled == h.cancelled
    && (h.pc.Returned? ==> h'.pc.Returned?)
    && (h'.cur == h.cur || h'.cur == 0 || (h.attempt.Registered? && h'.cur == h.attempt.id))
    && (h'.attempt.Granted? || h'.attempt.Registered? ==>
          || (a == Grant(true) && h'.attempt.id == id)
          || ((h.attempt.Granted? || h.attempt.Registered?) && h'.attempt.id == h.attempt.id))
    && (a.Put? ==> h.attempt.Granted? && Holding(h) == 0 && !h.pc.Returned?)
    && (Holding(h') != 0 ==> Holding(h') == if a.Put? && a.ok then h.attempt.id else Holding(h))
  }

  lemma {:induction false} NextSummary(h: HB, a: Act, done: bool, optsDone: bool, maxRetry: int, id: nat)
    requires Ready(h, a, done, optsDone) && Streams(h)
    ensures Summary(h, a, Next(h, a, done, optsDone, maxRetry, id), id)
  {
  }

  /** The step that appends to the list of back-offs and sleeps one of them. */
  lemma {:induction false} SleepBounded(h: HB, pick: nat, done: bool, optsDone: bool, maxRetry: int, id: nat)
    requires Ready(h, KeepAlive(false, pick), done, optsDone) && Bounded(h, maxRetry)
    ensures Bounded(Next(h, KeepAlive(false, pick), done, optsDone, maxRetry, id), maxRetry)
  {
    var k := h.pc.k;
    assert Pow2(k + 1) == 2 * Pow2(k);
    var retreat := h.retreat + [Pow2(k)];
    assert forall i :: 0 <= i < |retreat| ==> retreat[i] <= Pow2(k);
  }

  /** The other steps of the retry loop leave both alone. */
  lemma {:induction false} RoundBounded(h: HB, a: Act, done: bool, optsDone: bool, maxRetry: int, id: nat)
    requires Ready(h, a, done, optsDone) && Bounded(h, maxRetry) && InRetry(h.pc)
    requires !(a.KeepAlive? && !a.ok)
    ensures Bounded(Next(h, a, done, optsDone, maxRetry, id), maxRetry)
  {
    var n, h' := Waited(h.pc), Next(h, a, done, optsDone, maxRetry, id);
    Pow2Mono(n, Tries(maxRetry));
    assert h'.retreat == h.retreat && h'.outage.slept == h.outage.slept;
    if InRetry(h'.pc) {
      Pow2Mono(n, Waited(h'.pc));
    }
  }

  lemma {:induction false} BoundedKept(h: HB, a: Act, done: bool, optsDone: bool, maxRetry: int, id: nat)
    requires Ready(h, a, done, optsDone) && Bounded(h, maxRetry)
    ensures Bounded(Next(h, a, done, optsDone, maxRetry, id), maxRetry)
  {
    if a.KeepAlive? && !a.ok {
      SleepBounded(h, a.pick, done, optsDone, maxRetry, id);
    } else if InRetry(h.pc) {
      RoundBounded(h, a, done, optsDone, maxRetry, id);
    }
  }

  /** One back-off is at most 2 to the retryCnt seconds, whichever entry of the list is picked. */
  lemma {:induction false} BackOffBounded(h: HB, pick: nat, done: bool, optsDone: bool, maxRetry: int, id: nat)
    requires Ready(h, KeepAlive(false, pick), done, optsDone) && Bounded(h, maxRetry)
    ensures Next(h, KeepAlive(false, pick), done, optsDone, maxRetry, id).outage.slept - h.outage.slept
            <= Pow2(h.pc.k)
    ensures h.pc.k < Tries(maxRetry)
  {
  }

  /** Up to 34 retries the longest back-off is a Duration that does not overflow; with one more it is not. */
  lemma {:induction false} BackOffIsDuration(k: nat)
    ensures Pow2(k) * 1_000_000_000 < Pow2(63) <==> k < 34
  {
    Pow2Int64();
    Pow2Int33();
    assert Pow2(34) == 2 * Pow2(33);
    if k < 34 { Pow2Mono(k, 33); } else { Pow2Mono(34, k); }
  }

  /** With no stream obtained in the outage, the receive after the retry loop is the end. */
  lemma {:induction false} NoStreamReturns(h: HB, done: bool, optsDone: bool, maxRetry: int, id: nat)
    requires Streams(h) && h.pc.Confirm? && !h.outage.stream
    ensures Ready(h, Receive, done, optsDone)
    ensures Next(h, Receive, done, optsDone, maxRetry, id).pc == Returned
    ensures forall a :: Ready(h, a, done, optsDone) ==> a == Receive
  {
    forall a | Ready(h, a, done, optsDone) ensures a == Receive {
      if a.Respond? || a.Close? {
        assert a.j == h.kac || Drained(h.chans[a.j]);
      }
    }
  }

  /** What kac can still deliver: its responses and its closing. */
  function Left(h: HB): nat {
    if h.kac < |h.chans| then h.chans[h.kac].buffered + if h.chans[h.kac].open then 1 else 0 else 0
  }

  // ---- putting the key again -------------------------------------------------------

  /**
   * The heartbeat can still get to put its key: an attempt is on its way with a lease not
   * expired, the retry loop has a round left, or a lease it holds can be lost.
   */
  predicate MayPut(h: HB, maxRetry: int, expired: set<nat>) {
    match h.pc
    case Retry(k) => k < maxRetry
    case Await(k) =>
      || h.attempt.Granting? || h.attempt.Registered?
      || (h.attempt.Granted? && h.attempt.id !in expired)
      || k + 1 < maxRetry
    case Got(_) => true
    case Sleeping(k) => k + 1 < maxRetry
    case Confirm => maxRetry > 0 && h.outage.stream && h.kac < |h.chans| && !Drained(h.chans[h.kac])
    case Returned => false
    case _ => maxRetry > 0
  }

  /** Otherwise it never will, whatever etcd answers. */
  lemma {:induction false} NeverPuts(h: HB, a: Act, done: bool, optsDone: bool, maxRetry: int, id: nat,
                                     expired: set<nat>)
    requires Ready(h, a, done, optsDone) && Streams(h) && !MayPut(h, maxRetry, expired)
    requires a.Put? && (a.ok || a.applied) ==> h.attempt.id !in expired
    ensures !(a.Put? && (a.ok || a.applied))
    ensures !MayPut(Next(h, a, done, optsDone, maxRetry, id), maxRetry, expired)
  {
    if a.Respond? || a.Close? {
      assert a.j == h.kac || Drained(h.chans[a.j]);
    }
  }

  /** The step that brings it nearer to that Put. */
  function Toward(h: HB, expired: set<nat>): Act {
    match h.pc
    case Starting => KeepAliveFirst(false)
    case Top => Loop
    case Retry(_) => Check
    case Await(_) =>
      if h.attempt.Granting? then Grant(true)
      else if h.attempt.Granted? && h.attempt.id !in expired then Put(true, true)
      else if h.attempt.Registered? then TakeId
      else TimeOut
    case Got(_) => KeepAlive(true, 0)
    case Sleeping(_) => Wake
    case Confirm => if h.kac < |h.chans| && h.chans[h.kac].buffered == 0 then Respond(h.kac) else Receive
    case _ => if h.kac < |h.chans| && h.chans[h.kac].open then Close(h.kac) else Receive
  }

  /** And how many such steps there are at most. */
  function Far(h: HB, expired: set<nat>): nat {
    match h.pc
    case Starting => 4
    case Top => if h.cur == 0 then 3 else 5 + Left(h)
    case Retry(_) => 2
    case Await(_) =>
      if h.attempt.Granting? then 1
      else if h.attempt.Granted? && h.attempt.id !in expired then 0
      else if h.attempt.Registered? then 10
      else 3
    case Got(_) => 9
    case Sleeping(_) => 3
    case Confirm => (if h.kac < |h.chans| && h.chans[h.kac].buffered == 0 then 7 else 5) + Left(h)
    case _ => 4 + Left(h)
  }

  lemma {:induction false} TowardNearer(h: HB, optsDone: bool, maxRetry: int, id: nat, expired: set<nat>)
    requires Streams(h) && Bounded(h, maxRetry) && MayPut(h, maxRetry, expired) && id !in expired
    ensures var a := Toward(h, expired);
            && Ready(h, a, false, optsDone)
            && if a.Put? then a == Put(true, true) && h.attempt.id !in expired
               else
                 var h' := Next(h, a, false, optsDone, maxRetry, id);
                 MayPut(h', maxRetry, expired) && Far(h', expired) < Far(h, expired)
  {
  }

  // ---- after cancellation ----------------------------------------------------------

  /** How many more steps a cancelled heartbeat can take, at most. */
  function Rank(h: HB): nat {
    match h.pc
    case Returned => 0
    case Steady => 1 + Left(h)
    case Confirm => 2 + Left(h)
    case Retry(_) => 3 + Left(h)
    case Sleeping(_) => 4 + Left(h)
    case Top => 4 + Left(h)
    case Got(_) => 5 + Left(h)
    case Await(_) => (if h.attempt.Granting? || h.attempt.Granted? then 7 else 6) + Left(h)
    case Starting => 6
  }

  /** Once its context is cancelled every step of a heartbeat uses up rank. */
  lemma {:induction false} CancelledStepDescends(h: HB, a: Act, optsDone: bool, maxRetry: int, id: nat)
    requires Streams(h) && Ready(h, a, true, optsDone) && !h.pc.Returned?
    ensures Rank(Next(h, a, true, optsDone, maxRetry, id)) < Rank(h)
  {
    if a.Close? {
      assert a.j == h.kac;
    }
  }

  /** And until it has returned there is such a step, even if only etcd closing the channel. */
  lemma {:induction false} CancelledNotStuck(h: HB, optsDone: bool)
    requires Streams(h) && !h.pc.Returned?
    ensures exists a :: Ready(h, a, true, optsDone) && !a.Put?
  {
    match h.pc
    case Starting => assert Ready(h, KeepAliveFirst(false), true, optsDone);
    case Top => assert Ready(h, Loop, true, optsDone);
    case Retry(_) => assert Ready(h, Check, true, optsDone);
    case Await(_) => assert Ready(h, TimeOut, true, optsDone);
    case Got(_) => assert Ready(h, KeepAlive(false, 0), true, optsDone);
    case Sleeping(_) => assert Ready(h, Wake, true, optsDone);
    case Confirm => assert Ready(h, Receive, true, optsDone) || Ready(h, Close(h.kac), true, optsDone);
    case Steady => assert Ready(h, Receive, true, optsDone) || Ready(h, Close(h.kac), true, optsDone);
    case Returned =>
  }
}
