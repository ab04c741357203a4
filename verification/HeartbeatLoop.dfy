/**
 * The body of heartBeat (adapter/kratos/discovery/etcd/registry.go) as it is written, with its
 * two loops, continue and break, against the steps of Heartbeat. What etcd, the timers and the
 * contexts do is a script: one turn for each time round the outer loop.
 */
module HeartbeatLoop {
  import opened Heartbeat
  import opened Strconv

  /** How one round of the retry loop goes; id is the lease granted. */
  datatype Round =
    | Gone                          // the context is cancelled when the round begins
    | TimedOut
    | Failed(granted: bool, id: nat)
    | NoStream(id: nat, pick: nat)  // registered, but KeepAlive fails; pick chooses the back-off
    | Stream(id: nat)

  /** What the select at the end of the outer loop finds. */
  datatype Event = Alive | ChannelClosed(gone: bool) | OptionsDone

  /** confirmed says whether the receive after the retry loop finds a response, if it can. */
  datatype Turn = Turn(rounds: seq<Round>, confirmed: bool, event: Event)

  predicate Granting(r: Round) {
    (r.Failed? && r.granted) || r.NoStream? || r.Stream?
  }

  predicate Plausible(r: Round) {
    Granting(r) ==> r.id != 0
  }

  // ---- what the script comes to --------------------------------------------------------

  /** A round the script does not mention runs out of time. */
  function RoundAt(rounds: seq<Round>, n: nat): Round {
    if n < |rounds| then rounds[n] else TimedOut
  }

  predicate Decisive(r: Round) {
    r.Gone? || r.Stream?
  }

  /** The first round that ends the retry loop early, or maxRetry. */
  function Stop(rounds: seq<Round>, maxRetry: int, k: nat): (n: nat)
    requires k <= Tries(maxRetry)
    ensures k <= n <= Tries(maxRetry)
    ensures forall m :: k <= m < n ==> !Decisive(RoundAt(rounds, m))
    ensures n < Tries(maxRetry) ==> Decisive(RoundAt(rounds, n))
    decreases Tries(maxRetry) - k
  {
    if k == Tries(maxRetry) || Decisive(RoundAt(rounds, k)) then k else Stop(rounds, maxRetry, k + 1)
  }

  /** The loop ends on a stream; on a cancelled context; or with its rounds used up. */
  predicate GetsStream(rounds: seq<Round>, maxRetry: int) {
    var n := Stop(rounds, maxRetry, 0);
    n < Tries(maxRetry) && RoundAt(rounds, n).Stream?
  }

  predicate GetsGone(rounds: seq<Round>, maxRetry: int) {
    var n := Stop(rounds, maxRetry, 0);
    n < Tries(maxRetry) && RoundAt(rounds, n).Gone?
  }

  /** The lease of the last round before n that registered, if any. */
  function LastLease(rounds: seq<Round>, n: nat): nat {
    if n == 0 then 0
    else
      var r := RoundAt(rounds, n - 1);
      if r.NoStream? || r.Stream? then r.id else LastLease(rounds, n - 1)
  }

  function TimeOuts(rounds: seq<Round>, n: nat): nat {
    if n == 0 then 0 else TimeOuts(rounds, n - 1) + if RoundAt(rounds, n - 1).TimedOut? then 1 else 0
  }

  /** The back-offs listed by the rounds before n: two to the k for each round k whose KeepAlive failed. */
  function BackOffs(rounds: seq<Round>, n: nat): seq<nat> {
    if n == 0 then []
    else BackOffs(rounds, n - 1) + if RoundAt(rounds, n - 1).NoStream? then [Pow2(n - 1)] else []
  }

  /** Each such round sleeps one of those listed so far. */
  function Slept(rounds: seq<Round>, n: nat): nat {
    if n == 0 then 0
    else
      var r, list := RoundAt(rounds, n - 1), BackOffs(rounds, n);
      Slept(rounds, n - 1) + if r.NoStream? then list[r.pick % |list|] else 0
  }

  /** The figures of the outage when the loop ends. */
  function Figures(rounds: seq<Round>, maxRetry: int): Outage {
    var n := Stop(rounds, maxRetry, 0);
    var stream := GetsStream(rounds, maxRetry);
    Outage(if stream then n + 1 else n, Slept(rounds, n), TimeOuts(rounds, n), stream)
  }

  /** curLeaseID when the loop ends. */
  function Lease(rounds: seq<Round>, maxRetry: int): nat {
    var n := Stop(rounds, maxRetry, 0);
    LastLease(rounds, if GetsStream(rounds, maxRetry) then n + 1 else n)
  }

  /** With nothing but time-outs: maxRetry attempts, each of them timed out, no sleep, no stream, and no lease. */
  lemma {:induction false} AllTimeOut(maxRetry: int)
    ensures var tries := if maxRetry > 0 then maxRetry else 0;
            Figures([], maxRetry) == Outage(tries, 0, tries, false) && Lease([], maxRetry) == 0
  {
    OnlyTimeOuts(Tries(maxRetry));
    assert Stop([], maxRetry, 0) == Tries(maxRetry);
  }

  lemma {:induction false} OnlyTimeOuts(n: nat)
    ensures TimeOuts([], n) == n && Slept([], n) == 0 && LastLease([], n) == 0
  {
    if n > 0 { OnlyTimeOuts(n - 1); }
  }

  /** With KeepAlive failing in every round the listed back-offs are 1, 2, 4, ... seconds. */
  lemma {:induction false} BackOffsDouble(rounds: seq<Round>, n: nat, k: nat)
    requires k < n && forall m :: 0 <= m < n ==> RoundAt(rounds, m).NoStream?
    ensures |BackOffs(rounds, n)| == n && BackOffs(rounds, n)[k] == Pow2(k)
    ensures k == 0 ==> BackOffs(rounds, n)[k] == 1
    ensures k + 1 < n ==> BackOffs(rounds, n)[k + 1] == 2 * BackOffs(rounds, n)[k]
  {
    if n > 1 {
      BackOffsDouble(rounds, n - 1, if k < n - 1 then k else n - 2);
    }
  }

  /** The retry loop at the head of round k: its variables as the rounds before have left them. */
  ghost predicate AtRound(rounds: seq<Round>, maxRetry: int, k: nat, lease: nat, retreat: seq<nat>, o: Outage) {
    && k <= Tries(maxRetry) && Stop(rounds, maxRetry, 0) == Stop(rounds, maxRetry, k)
    && lease == LastLease(rounds, k) && retreat == BackOffs(rounds, k)
    && o == Outage(k, Slept(rounds, k), TimeOuts(rounds, k), false)
  }

  lemma {:induction false} RoundPassed(rounds: seq<Round>, maxRetry: int, k: nat, lease: nat,
                                       retreat: seq<nat>, o: Outage)
    requires AtRound(rounds, maxRetry, k, lease, retreat, o)
    requires k < Tries(maxRetry) && !Decisive(RoundAt(rounds, k))
    ensures var r := RoundAt(rounds, k);
            var retreat' := if r.NoStream? then retreat + [Pow2(k)] else retreat;
            AtRound(rounds, maxRetry, k + 1, if r.NoStream? then r.id else lease, retreat',
                    Outage(k + 1, o.slept + if r.NoStream? then retreat'[r.pick % |retreat'|] else 0,
                           o.timeouts + if r.TimedOut? then 1 else 0, o.stream))
  {
  }

  /** At a decisive round, or with the rounds used up, the outcome is known. */
  lemma {:induction false} RoundDecides(rounds: seq<Round>, maxRetry: int, k: nat, lease: nat,
                                        retreat: seq<nat>, o: Outage)
    requires AtRound(rounds, maxRetry, k, lease, retreat, o)
    requires k == Tries(maxRetry) || Decisive(RoundAt(rounds, k))
    ensures var stream := k < Tries(maxRetry) && RoundAt(rounds, k).Stream?;
            && GetsStream(rounds, maxRetry) == stream
            && GetsGone(rounds, maxRetry) == (k < Tries(maxRetry) && RoundAt(rounds, k).Gone?)
            && Lease(rounds, maxRetry) == (if stream then RoundAt(rounds, k).id else lease)
            && Figures(rounds, maxRetry) == if stream then o.(attempts := k + 1, stream := true) else o
  {
  }

  /** Where the outer loop stands after some turns: returned or not, and with what lease, 0 when lost. */
  datatype Standing = Standing(returned: bool, lease: nat)

  /** One time round the outer loop. */
  function AfterTurn(lease: nat, turn: Turn, maxRetry: int): Standing {
    var lease' := if lease != 0 then lease else Lease(turn.rounds, maxRetry);
    if lease == 0 && !(GetsStream(turn.rounds, maxRetry) && turn.confirmed) then Standing(true, lease')
    else
      match turn.event
      case OptionsDone => Standing(true, lease')
      case Alive => Standing(false, lease')
      case ChannelClosed(gone) => if gone then Standing(true, lease') else Standing(false, 0)
  }

  function AfterTurns(lease: nat, turns: seq<Turn>, maxRetry: int): Standing {
    if turns == [] then Standing(false, lease)
    else
      var before := AfterTurns(lease, turns[..|turns| - 1], maxRetry);
      if before.returned then before else AfterTurn(before.lease, turns[|turns| - 1], maxRetry)
  }

  /** A turn in which the heartbeat returns: it finds no stream to go on with, or an end at the select. */
  predicate Ends(at: Standing, turn: Turn, maxRetry: int) {
    !at.returned &&
    ((at.lease == 0 && (!GetsStream(turn.rounds, maxRetry) || !turn.confirmed)) ||
     turn.event.OptionsDone? ||
     (turn.event.ChannelClosed? && turn.event.gone))
  }

  ghost predicate EndsBefore(lease: nat, turns: seq<Turn>, maxRetry: int, n: nat)
    requires n <= |turns|
  {
    exists m :: 0 <= m < n && Ends(AfterTurns(lease, turns[..m], maxRetry), turns[m], maxRetry)
  }

  /** The heartbeat has returned exactly when some turn was such a one. */
  lemma {:induction false} ReturnsAtATurn(lease: nat, turns: seq<Turn>, maxRetry: int, n: nat)
    requires n <= |turns|
    ensures AfterTurns(lease, turns[..n], maxRetry).returned <==> EndsBefore(lease, turns, maxRetry, n)
  {
    if n > 0 {
      ReturnsAtATurn(lease, turns, maxRetry, n - 1);
      assert turns[..n][..n - 1] == turns[..n - 1];
      var before := AfterTurns(lease, turns[..n - 1], maxRetry);
      assert AfterTurns(lease, turns[..n], maxRetry).returned <==>
             before.returned || Ends(before, turns[n - 1], maxRetry);
      LastOrBefore(lease, turns, maxRetry, n - 1);
    }
  }

  lemma {:induction false} LastOrBefore(lease: nat, turns: seq<Turn>, maxRetry: int, n: nat)
    requires n < |turns|
    ensures EndsBefore(lease, turns, maxRetry, n + 1) <==>
            EndsBefore(lease, turns, maxRetry, n) || Ends(AfterTurns(lease, turns[..n], maxRetry), turns[n], maxRetry)
  {
  }

  // ---- the code, along the steps ---------------------------------------------------------

  /** A heartbeat's states, each one step after the one before. */
  ghost predicate Path(trace: seq<HB>, maxRetry: int) {
    && trace != []
    && forall n :: 0 < n < |trace| ==> StepBetween(trace[n - 1], trace[n], maxRetry)
  }

  ghost predicate StepBetween(h: HB, h': HB, maxRetry: int) {
    exists a, done, optsDone, id: nat ::
      id != 0 && Ready(h, a, done, optsDone) && h' == Next(h, a, done, optsDone, maxRetry, id)
  }

  function Last(trace: seq<HB>): HB
    requires trace != []
  {
    trace[|trace| - 1]
  }

  ghost predicate Kept(h: HB, maxRetry: int) {
    Streams(h) && Bounded(h, maxRetry)
  }

  /** One step more. */
  lemma {:induction false} Take(trace: seq<HB>, a: Act, done: bool, optsDone: bool, maxRetry: int, id: nat)
    returns (longer: seq<HB>)
    requires Path(trace, maxRetry) && Kept(Last(trace), maxRetry) && id != 0 && Ready(Last(trace), a, done, optsDone)
    ensures Path(longer, maxRetry) && longer[0] == trace[0]
    ensures Last(longer) == Next(Last(trace), a, done, optsDone, maxRetry, id) && Kept(Last(longer), maxRetry)
  {
    longer := trace + [Next(Last(trace), a, done, optsDone, maxRetry, id)];
    StreamsKept(Last(trace), a, done, optsDone, maxRetry, id);
    BoundedKept(Last(trace), a, done, optsDone, maxRetry, id);
    assert StepBetween(Last(trace), Last(longer), maxRetry);
  }

  /** The heartbeat's variables, and the step machine's path to where it is. */
  class Beating {
    const maxRetry: int
    var curLeaseID: nat
    var chans: seq<Chan>
    var kac: nat
    ghost var trace: seq<HB>

    /** The variables are those of the machine's current state, and nothing waits to be received. */
    ghost predicate Valid()
      reads this
    {
      && Path(trace, maxRetry) && Kept(Last(trace), maxRetry)
      && Last(trace).cur == curLeaseID && Last(trace).chans == chans && Last(trace).kac == kac
      && kac < |chans| && chans[kac].buffered == 0
    }

    /** The first KeepAlive. */
    constructor (key: string, value: string, leaseID: nat, maxRetry: int, ok: bool)
      requires leaseID != 0
      ensures Valid() && Last(trace).pc.Top? && this.maxRetry == maxRetry
      ensures curLeaseID == (if ok then leaseID else 0) && chans[kac].open == ok
      ensures trace[0] == HB(key, value, Starting, leaseID, [], 0, NoAttempt, [], CALM, false)
    {
      this.maxRetry := maxRetry;
      curLeaseID := if ok then leaseID else 0;
      chans := [Chan(leaseID, ok, 0)];
      kac := 0;
      ghost var start := HB(key, value, Starting, leaseID, [], 0, NoAttempt, [], CALM, false);
      ghost var longer := Take([start], KeepAliveFirst(ok), false, false, maxRetry, 1);
      trace := longer;
    }

    ghost method Step(a: Act, done: bool, optsDone: bool, id: nat)
      requires Path(trace, maxRetry) && Kept(Last(trace), maxRetry) && id != 0 && Ready(Last(trace), a, done, optsDone)
      modifies this`trace
      ensures Path(trace, maxRetry) && Kept(Last(trace), maxRetry) && trace[0] == old(trace)[0]
      ensures Last(trace) == Next(Last(old(trace)), a, done, optsDone, maxRetry, id)
    {
      trace := Take(trace, a, done, optsDone, maxRetry, id);
    }

    /** A receive from kac, at the steady select or before it: a response when there is to be one and kac is open. */
    method Receive(steady: bool, response: bool, gone: bool) returns (ok: bool)
      requires Valid() && Last(trace).pc == if steady then Steady else Confirm
      modifies this
      ensures Valid() && trace[0] == old(trace)[0]
      ensures ok == (response && old(chans[kac].open))
      ensures chans[kac].open == ok
      ensures curLeaseID == if !ok && steady && !gone then 0 else old(curLeaseID)
      ensures Last(trace).pc == if ok then Steady else if steady && !gone then Top else Returned
    {
      ok := response && chans[kac].open;
      if ok {
        Step(Respond(kac), false, false, 1);
      } else if chans[kac].open {
        Step(Close(kac), gone, false, 1);
        chans := chans[kac := chans[kac].(open := false)];
      }
      Step(Act.Receive, !ok && gone, false, 1);
      assert Last(trace).chans == chans;
      if !ok && steady && !gone {
        curLeaseID := 0;
      }
    }

    /** One call of registerWithKV in its goroutine, its outcome taken from the channels or given up. */
    ghost method Attempted(r: Round)
      requires Path(trace, maxRetry) && Kept(Last(trace), maxRetry) && Plausible(r) && !r.Gone?
      requires Last(trace).pc.Await? && Last(trace).attempt.Granting?
      modifies this`trace
      ensures Path(trace, maxRetry) && Kept(Last(trace), maxRetry) && trace[0] == old(trace)[0]
      ensures var h, h' := Last(old(trace)), Last(trace);
              && h'.chans == h.chans && h'.kac == h.kac && h'.retreat == h.retreat
              && if r.Stream? || r.NoStream? then h'.pc == Got(h.pc.k) && h'.cur == r.id
                 else h'.pc == Retry(h.pc.k + 1) && h'.cur == h.cur
      ensures var o, o' := Last(old(trace)).outage, Last(trace).outage;
              o' == o.(timeouts := o.timeouts + if r.TimedOut? then 1 else 0)
    {
      if r.TimedOut? {
        Step(TimeOut, false, false, 1);
      } else if r.Failed? {
        Step(Grant(r.granted), false, false, if r.granted then r.id else 1);
        if r.granted {
          Step(Put(false, false), false, false, 1);
        }
        Step(TakeError, false, false, 1);
      } else {
        Step(Grant(true), false, false, r.id);
        Step(Put(true, true), false, false, 1);
        Step(TakeId, false, false, 1);
      }
    }

    /** KeepAlive for a lease just granted, and the sleep when it fails. */
    method KeepAliveFor(id: nat, ok: bool, pick: nat)
      requires Path(trace, maxRetry) && Kept(Last(trace), maxRetry) && pick <= |Last(trace).retreat|
      requires Last(trace).pc.Got? && Last(trace).cur == id && Last(trace).chans == chans && Last(trace).kac == kac
      modifies this
      ensures Valid() && trace[0] == old(trace)[0]
      ensures Last(trace).pc == if ok then Confirm else Retry(old(Last(trace).pc.k) + 1)
      ensures curLeaseID == id && chans[kac].open == ok
      ensures var h := Last(old(trace));
              var list := h.retreat + [Pow2(h.pc.k)];
              if ok then Last(trace).outage == h.outage.(stream := true)
              else Last(trace).retreat == list && Last(trace).outage == h.outage.(slept := h.outage.slept + list[pick])
    {
      curLeaseID := id;
      chans := chans + [Chan(id, ok, 0)];
      kac := |chans| - 1;
      Step(KeepAlive(ok, pick), false, false, 1);
      if !ok {
        Step(Wake, false, false, 1);
      }
    }

    /** One round, not cancelled, without a stream: the attempt, and KeepAlive and the sleep if it registers. */
    method FailedRound(round: Round, retryCnt: nat, retreat: seq<nat>) returns (retreat': seq<nat>)
      requires Valid() && Plausible(round) && !Decisive(round) && retryCnt < maxRetry && !chans[kac].open
      requires Last(trace).pc == Retry(retryCnt) && Last(trace).retreat == retreat
      requires Last(trace).outage.attempts == retryCnt
      modifies this
      ensures Valid() && trace[0] == old(trace)[0] && !chans[kac].open
      ensures Last(trace).pc == Retry(retryCnt + 1) && Last(trace).retreat == retreat'
      ensures retreat' == if round.NoStream? then retreat + [Pow2(retryCnt)] else retreat
      ensures curLeaseID == if round.NoStream? then round.id else old(curLeaseID)
      ensures var o := Last(old(trace)).outage;
              Last(trace).outage ==
              Outage(retryCnt + 1, o.slept + if round.NoStream? then retreat'[round.pick % |retreat'|] else 0,
                     o.timeouts + if round.TimedOut? then 1 else 0, o.stream)
    {
      Step(Check, false, false, 1);
      Attempted(round);
      if round.NoStream? {
        KeepAliveFor(round.id, false, round.pick % (|retreat| + 1));
        retreat' := retreat + [Pow2(retryCnt)];
      } else {
        retreat' := retreat;
      }
    }

    /**
     * The retry loop: at most maxRetry rounds, left early on a stream; false when it returns from
     * heartBeat, which is when the first decisive round finds the context cancelled.
     */
    method RetryLoop(rounds: seq<Round>) returns (goesOn: bool)
      requires Valid() && curLeaseID == 0
      requires Last(trace).pc == Retry(0) && Last(trace).retreat == [] && Last(trace).outage == CALM
      requires forall n :: 0 <= n < |rounds| ==> Plausible(rounds[n])
      modifies this
      ensures Valid() && trace[0] == old(trace)[0]
      ensures Last(trace).pc == if goesOn then Confirm else Returned
      ensures goesOn <==> !GetsGone(rounds, maxRetry)
      ensures curLeaseID == Lease(rounds, maxRetry)
      ensures Last(trace).outage == Figures(rounds, maxRetry)
      ensures goesOn ==> WithinLimits(Figures(rounds, maxRetry), maxRetry)
      ensures chans[kac].open <==> GetsStream(rounds, maxRetry)
    {
      assert !chans[kac].open;
      var retreat: seq<nat> := [];
      var retryCnt := 0;
      while retryCnt < maxRetry
        invariant Valid() && trace[0] == old(trace)[0] && !chans[kac].open
        invariant Last(trace).pc == Retry(retryCnt) && Last(trace).retreat == retreat
        invariant AtRound(rounds, maxRetry, retryCnt, curLeaseID, retreat, Last(trace).outage)
        decreases maxRetry - retryCnt
      {
        var round := RoundAt(rounds, retryCnt);
        if Decisive(round) {
          RoundDecides(rounds, maxRetry, retryCnt, curLeaseID, retreat, Last(trace).outage);
        } else {
          RoundPassed(rounds, maxRetry, retryCnt, curLeaseID, retreat, Last(trace).outage);
        }
        if round.Gone? {
          Step(Check, true, false, 1);
          return false;
        }
        if round.Stream? {
          Step(Check, false, false, 1);
          Attempted(round);
          KeepAliveFor(round.id, true, 0);
          return true;
        }
        retreat := FailedRound(round, retryCnt, retreat);
        retryCnt := retryCnt + 1;
      }
      RoundDecides(rounds, maxRetry, retryCnt, curLeaseID, retreat, Last(trace).outage);
      Step(Check, false, false, 1);
      return true;
    }

    /** Once round the outer loop. */
    method TakeTurn(turn: Turn) returns (returned: bool)
      requires Valid() && (chans[kac].open <==> curLeaseID != 0)
      requires Last(trace).pc.Top? || (Last(trace).pc.Steady? && curLeaseID != 0)
      requires forall m :: 0 <= m < |turn.rounds| ==> Plausible(turn.rounds[m])
      modifies this
      ensures Valid() && trace[0] == old(trace)[0]
      ensures Standing(returned, curLeaseID) == AfterTurn(old(curLeaseID), turn, maxRetry)
      ensures Last(trace).pc == if returned then Returned else if curLeaseID == 0 then Top else Steady
      ensures !returned ==> (chans[kac].open <==> curLeaseID != 0)
    {
      if curLeaseID == 0 {
        Step(Loop, false, false, 1);
        var goesOn := RetryLoop(turn.rounds);
        if !goesOn {
          return true;
        }
        var ok := Receive(false, turn.confirmed, false);
        if !ok {
          return true;
        }
      } else if Last(trace).pc.Top? {
        Step(Loop, false, false, 1);
      }
      if turn.event.OptionsDone? {
        Step(SeeDone, true, true, 1);
        return true;
      }
      var gone := turn.event.ChannelClosed? && turn.event.gone;
      var ok := Receive(true, turn.event.Alive?, gone);
      returned := gone;
    }

    /**
     * The outer loop, for as long as the script goes on: what the code does is a path of the step
     * machine, and the script decides where it ends and with what lease.
     */
    method HeartBeat(turns: seq<Turn>) returns (returned: bool)
      requires Valid() && Last(trace).pc.Top? && (chans[kac].open <==> curLeaseID != 0)
      requires forall n, m :: 0 <= n < |turns| && 0 <= m < |turns[n].rounds| ==> Plausible(turns[n].rounds[m])
      modifies this
      ensures Valid() && trace[0] == old(trace)[0]
      ensures Standing(returned, curLeaseID) == AfterTurns(old(curLeaseID), turns, maxRetry)
      ensures Last(trace).pc == if returned then Returned else if curLeaseID == 0 || turns == [] then Top else Steady
    {
      for t := 0 to |turns|
        invariant Valid() && trace[0] == old(trace)[0] && (chans[kac].open <==> curLeaseID != 0)
        invariant Last(trace).pc == if curLeaseID == 0 || t == 0 then Top else Steady
        invariant AfterTurns(old(curLeaseID), turns[..t], maxRetry) == Standing(false, curLeaseID)
      {
        AfterNextTurn(old(curLeaseID), turns, maxRetry, t);
        returned := TakeTurn(turns[t]);
        if returned {
          return;
        }
      }
      assert turns[..|turns|] == turns;
      returned := false;
    }
  }

  /** A turn more decides all that follows when it is the one that ends the heartbeat. */
  lemma {:induction false} AfterNextTurn(lease: nat, turns: seq<Turn>, maxRetry: int, t: nat)
    requires t < |turns| && !AfterTurns(lease, turns[..t], maxRetry).returned
    ensures var now := AfterTurn(AfterTurns(lease, turns[..t], maxRetry).lease, turns[t], maxRetry);
            && AfterTurns(lease, turns[..t + 1], maxRetry) == now
            && (now.returned ==> AfterTurns(lease, turns, maxRetry) == now)
  {
    assert turns[..t + 1][..t] == turns[..t];
    if AfterTurns(lease, turns[..t + 1], maxRetry).returned {
      ReturnedIsFinal(lease, turns, maxRetry, t + 1);
    }
  }

  lemma {:induction false} ReturnedIsFinal(lease: nat, turns: seq<Turn>, maxRetry: int, t: nat)
    requires t <= |turns| && AfterTurns(lease, turns[..t], maxRetry).returned
    ensures AfterTurns(lease, turns, maxRetry) == AfterTurns(lease, turns[..t], maxRetry)
    decreases |turns|
  {
    if t == |turns| {
      assert turns[..t] == turns;
    } else {
      var init := turns[..|turns| - 1];
      assert init[..t] == turns[..t];
      ReturnedIsFinal(lease, init, maxRetry, t);
    }
  }
}
