/**
 * The etcd registry (adapter/kratos/discovery/etcd/registry.go): Register and Deregister, the
 * map of cancel functions, and any number of heartbeats over one store whose entries are
 * bound to leases. Etcd may lose leases, fail calls and close channels at any moment.
 */
module EtcdRegistry {
  import opened Heartbeat

  /** A *registry.ServiceInstance, by identity. */
  type Inst = int

  datatype Entry = Entry(value: string, lease: nat)

  datatype System = System(
    nextLease: nat,                // ids below it, from 1, have been granted
    kv: map<string, Entry>,
    lastPut: map<string, nat>,     // the lease of the last Put of each key, whatever became of the entry
    expired: set<nat>,
    hbs: seq<HB>,                  // every heartbeat ever started
    ctxMap: map<Inst, nat>,        // the heartbeat whose cancel function is kept for an instance
    optsDone: bool,                // the context of the options is done
    maxRetry: int)

  /** How registerWithKV ends; a Put that fails may have been applied. */
  datatype Outcome = GrantFails | PutFails(applied: bool) | Succeeds

  datatype Deletion = Deleted | DeleteFails(applied: bool)

  datatype Action =
    | Register(inst: Inst, key: string, value: string, outcome: Outcome)
    | Deregister(inst: Inst, key: string, deletion: Deletion)
    | Beat(i: nat, a: Act)
    | Expire(lease: nat)
    | EndOptions

  /** The context of heartbeat i is cancelled: by its own cancel function or through the options. */
  predicate Done(s: System, i: nat)
    requires i < |s.hbs|
  {
    s.hbs[i].cancelled || s.optsDone
  }

  predicate Enabled(s: System, a: Action) {
    match a
    case Register(_, _, _, _) => true
    case Deregister(_, _, _) => true
    case Beat(i, b) =>
      && i < |s.hbs| && Ready(s.hbs[i], b, Done(s, i), s.optsDone)
      && (b.Put? && (b.ok || b.applied) ==> s.hbs[i].attempt.id !in s.expired)
    case Expire(lease) => 0 < lease < s.nextLease
    case EndOptions => true
  }

  function Bind(s: System, key: string, value: string, lease: nat): System {
    s.(kv := s.kv[key := Entry(value, lease)], lastPut := s.lastPut[key := lease])
  }

  /** The store after registerWithKV. */
  function Registration(s: System, key: string, value: string, outcome: Outcome): System {
    if outcome.GrantFails? then s
    else
      var granted := s.(nextLease := s.nextLease + 1);
      if outcome == PutFails(false) then granted else Bind(granted, key, value, s.nextLease)
  }

  function Fresh(key: string, value: string, lease: nat): HB {
    HB(key, value, Starting, lease, [], 0, NoAttempt, [], CALM, false)
  }

  function RegisterNext(s: System, inst: Inst, key: string, value: string, outcome: Outcome): System {
    var r := Registration(s, key, value, outcome);
    if !outcome.Succeeds? then r
    else r.(hbs := s.hbs + [Fresh(key, value, s.nextLease)], ctxMap := s.ctxMap[inst := |s.hbs|])
  }

  function Cancelled(s: System, inst: Inst): System {
    if inst !in s.ctxMap then s
    else
      var i := s.ctxMap[inst];
      s.(ctxMap := s.ctxMap - {inst},
         hbs := if i < |s.hbs| then s.hbs[i := s.hbs[i].(cancelled := true)] else s.hbs)
  }

  function DeregisterNext(s: System, inst: Inst, key: string, deletion: Deletion): System {
    var c := Cancelled(s, inst);
    if deletion == DeleteFails(false) then c else c.(kv := c.kv - {key})
  }

  /** The system when heartbeat i takes step a and becomes h'. */
  function Effect(s: System, i: nat, a: Act, h': HB): System
    requires i < |s.hbs| && (a.Put? ==> s.hbs[i].attempt.Granted?)
  {
    var h := s.hbs[i];
    var s' := s.(hbs := s.hbs[i := h']);
    if a == Grant(true) then s'.(nextLease := s.nextLease + 1)
    else if a.Put? && (a.ok || a.applied) then Bind(s', h.key, h.value, h.attempt.id)
    else s'
  }

  function BeatNext(s: System, i: nat, a: Act): System
    requires Enabled(s, Beat(i, a))
  {
    Effect(s, i, a, Next(s.hbs[i], a, Done(s, i), s.optsDone, s.maxRetry, s.nextLease))
  }

  function SystemNext(s: System, a: Action): System
    requires Enabled(s, a)
  {
    match a
    case Register(inst, key, value, outcome) => RegisterNext(s, inst, key, value, outcome)
    case Deregister(inst, key, deletion) => DeregisterNext(s, inst, key, deletion)
    case Beat(i, b) => BeatNext(s, i, b)
    case Expire(lease) =>
      s.(expired := s.expired + {lease}, kv := map k | k in s.kv && s.kv[k].lease != lease :: s.kv[k])
    case EndOptions => s.(optsDone := true)
  }

  /** The registry's own fields, changed by its two operations. */
  class Registry {
    var s: System

    constructor (maxRetry: int)
      ensures s == Initial(maxRetry)
    {
      s := Initial(maxRetry);
    }

    /** A lease and the entry bound to it; id is 0 when either call fails. */
    method RegisterWithKV(key: string, value: string, outcome: Outcome) returns (id: nat)
      requires s.nextLease > 0
      modifies this
      ensures s == Registration(old(s), key, value, outcome)
      ensures id == if outcome.Succeeds? then old(s.nextLease) else 0
    {
      if outcome.GrantFails? {
        return 0;
      }
      id := s.nextLease;
      s := s.(nextLease := id + 1);
      if outcome != PutFails(false) {
        s := s.(kv := s.kv[key := Entry(value, id)], lastPut := s.lastPut[key := id]);
      }
      if outcome.PutFails? {
        id := 0;
      }
    }

    /** Starts a heartbeat and keeps its cancel function, in place of an older one for the same instance. */
    method Register(inst: Inst, key: string, value: string, outcome: Outcome) returns (ok: bool)
      requires s.nextLease > 0
      modifies this
      ensures ok == outcome.Succeeds?
      ensures s == SystemNext(old(s), Action.Register(inst, key, value, outcome))
    {
      var id := RegisterWithKV(key, value, outcome);
      if id == 0 {
        return false;
      }
      var h := HB(key, value, Starting, id, [], 0, NoAttempt, [], CALM, false);
      s := s.(ctxMap := s.ctxMap[inst := |s.hbs|], hbs := s.hbs + [h]);
      ok := true;
    }

    method Deregister(inst: Inst, key: string, deletion: Deletion) returns (ok: bool)
      modifies this
      ensures ok == deletion.Deleted?
      ensures s == SystemNext(old(s), Action.Deregister(inst, key, deletion))
    {
      if inst in s.ctxMap {
        var i := s.ctxMap[inst];
        if i < |s.hbs| {
          s := s.(hbs := s.hbs[i := s.hbs[i].(cancelled := true)]);
        }
        s := s.(ctxMap := s.ctxMap - {inst});
      }
      if deletion != DeleteFails(false) {
        s := s.(kv := s.kv - {key});
      }
      ok := deletion.Deleted?;
    }
  }

  function Initial(maxRetry: int): System {
    System(1, map[], map[], {}, [], map[], false, maxRetry)
  }

  /** A stretch of a run: each action enabled, each state the result. */
  ghost predicate Stretch(trace: seq<System>, actions: seq<Action>) {
    && |trace| == |actions| + 1
    && forall n :: 0 <= n < |actions| ==>
         Enabled(trace[n], actions[n]) && trace[n + 1] == SystemNext(trace[n], actions[n])
  }

  ghost predicate Run(maxRetry: int, trace: seq<System>, actions: seq<Action>) {
    Stretch(trace, actions) && trace[0] == Initial(maxRetry)
  }

  // ---- what holds of every heartbeat in every run -----------------------------------

  ghost predicate Sound(s: System) {
    && s.nextLease > 0
    && (forall l :: l in s.expired ==> l < s.nextLease)
    && (forall i :: 0 <= i < |s.hbs| ==>
          && Streams(s.hbs[i]) && Bounded(s.hbs[i], s.maxRetry)
          && s.hbs[i].cur < s.nextLease
          && (s.hbs[i].attempt.Granted? || s.hbs[i].attempt.Registered? ==> s.hbs[i].attempt.id < s.nextLease))
    && (forall inst :: inst in s.ctxMap ==> s.ctxMap[inst] < |s.hbs|)
  }

  lemma {:induction false} EffectSound(s: System, i: nat, a: Act, h': HB)
    requires Sound(s) && i < |s.hbs| && Summary(s.hbs[i], a, h', s.nextLease)
    requires Streams(h') && Bounded(h', s.maxRetry)
    ensures Sound(Effect(s, i, a, h'))
  {
    var s' := Effect(s, i, a, h');
    assert forall j :: 0 <= j < |s.hbs| ==> s'.hbs[j] == if j == i then h' else s.hbs[j];
  }

  lemma {:induction false} BeatSound(s: System, i: nat, a: Act)
    requires Sound(s) && Enabled(s, Beat(i, a))
    ensures Sound(BeatNext(s, i, a))
  {
    var h := s.hbs[i];
    StreamsKept(h, a, Done(s, i), s.optsDone, s.maxRetry, s.nextLease);
    BoundedKept(h, a, Done(s, i), s.optsDone, s.maxRetry, s.nextLease);
    NextSummary(h, a, Done(s, i), s.optsDone, s.maxRetry, s.nextLease);
    EffectSound(s, i, a, Next(h, a, Done(s, i), s.optsDone, s.maxRetry, s.nextLease));
  }

  lemma {:induction false} RegisterSound(s: System, inst: Inst, key: string, value: string, outcome: Outcome)
    requires Sound(s)
    ensures Sound(RegisterNext(s, inst, key, value, outcome))
  {
    var s' := RegisterNext(s, inst, key, value, outcome);
    assert forall j :: 0 <= j < |s.hbs| ==> s'.hbs[j] == s.hbs[j];
    assert Streams(Fresh(key, value, s.nextLease)) && Bounded(Fresh(key, value, s.nextLease), s.maxRetry);
  }

  lemma {:induction false} CancelledSound(s: System, inst: Inst)
    requires Sound(s)
    ensures Sound(Cancelled(s, inst))
  {
    if inst in s.ctxMap {
      var h := s.hbs[s.ctxMap[inst]];
      assert Streams(h.(cancelled := true)) && Bounded(h.(cancelled := true), s.maxRetry);
    }
  }

  lemma {:induction false} SoundKept(s: System, a: Action)
    requires Sound(s) && Enabled(s, a)
    ensures Sound(SystemNext(s, a)) && SystemNext(s, a).maxRetry == s.maxRetry
  {
    match a
    case Register(inst, key, value, outcome) => RegisterSound(s, inst, key, value, outcome);
    case Deregister(inst, _, _) => CancelledSound(s, inst);
    case Beat(i, b) => BeatSound(s, i, b);
    case _ =>
  }

  lemma {:induction false} StretchSound(trace: seq<System>, actions: seq<Action>)
    requires Stretch(trace, actions) && Sound(trace[0])
    ensures Sound(trace[|actions|]) && trace[|actions|].maxRetry == trace[0].maxRetry
  {
    if actions != [] {
      var n := |actions| - 1;
      StretchSound(trace[..n + 1], actions[..n]);
      SoundKept(trace[n], actions[n]);
    }
  }

  /** In every run an outage costs at most maxRetry attempts and timers and a bounded sleep. */
  lemma {:induction false} OutageBounded(maxRetry: int, trace: seq<System>, actions: seq<Action>, i: nat)
    requires Run(maxRetry, trace, actions) && i < |trace[|actions|].hbs|
    ensures var h := trace[|actions|].hbs[i];
            InRetry(h.pc) || h.pc.Confirm? ==> WithinLimits(h.outage, maxRetry)
  {
    StretchSound(trace, actions);
    var h := trace[|actions|].hbs[i];
    if InRetry(h.pc) {
      Strconv.Pow2Mono(Waited(h.pc), Tries(maxRetry));
    }
  }

  // ---- one registration per key -----------------------------------------------------

  predicate Live(s: System, i: nat)
    requires i < |s.hbs|
  {
    !Done(s, i) && !s.hbs[i].pc.Returned?
  }

  /** A key is registered only when no live heartbeat keeps it, and deregistered by its own instance. */
  predicate Orderly(s: System, a: Action) {
    match a
    case Register(_, key, _, _) => forall i :: 0 <= i < |s.hbs| && s.hbs[i].key == key ==> !Live(s, i)
    case Deregister(inst, key, _) =>
      && (forall i :: 0 <= i < |s.hbs| && s.hbs[i].key == key && Live(s, i) ==>
            inst in s.ctxMap && s.ctxMap[inst] == i)
    case _ => true
  }

  ghost predicate Bound(s: System, h: HB) {
    Holding(h) != 0 ==>
      && h.key in s.lastPut && s.lastPut[h.key] == Holding(h)
      && (Holding(h) !in s.expired ==> h.key in s.kv && s.kv[h.key] == Entry(h.value, Holding(h)))
  }

  ghost predicate Kept(s: System) {
    && (forall i :: 0 <= i < |s.hbs| && Live(s, i) ==> Bound(s, s.hbs[i]))
    && (forall i, j :: 0 <= i < j < |s.hbs| && s.hbs[i].key == s.hbs[j].key ==> !Live(s, i) || !Live(s, j))
  }

  lemma {:induction false} EffectKept(s: System, i: nat, a: Act, h': HB)
    requires Sound(s) && Kept(s) && i < |s.hbs| && Summary(s.hbs[i], a, h', s.nextLease)
    requires a.Put? && (a.ok || a.applied) ==> Live(s, i) && s.hbs[i].attempt.id !in s.expired
    ensures Kept(Effect(s, i, a, h'))
  {
    var s' := Effect(s, i, a, h');
    assert forall j :: 0 <= j < |s.hbs| && j != i ==> s'.hbs[j] == s.hbs[j];
    forall j | 0 <= j < |s'.hbs| && Live(s', j) ensures Bound(s', s'.hbs[j]) {
      assert Live(s, j) && Bound(s, s.hbs[j]);
    }
    assert forall j :: 0 <= j < |s'.hbs| && Live(s', j) ==> Live(s, j) && s'.hbs[j].key == s.hbs[j].key;
  }

  lemma {:induction false} BeatKept(s: System, i: nat, a: Act)
    requires Sound(s) && Kept(s) && Enabled(s, Beat(i, a))
    ensures Kept(BeatNext(s, i, a))
  {
    NextSummary(s.hbs[i], a, Done(s, i), s.optsDone, s.maxRetry, s.nextLease);
    EffectKept(s, i, a, Next(s.hbs[i], a, Done(s, i), s.optsDone, s.maxRetry, s.nextLease));
  }

  /** What another key's heartbeat relies on survives a registration. */
  lemma {:induction false} RegistrationBound(s: System, h: HB, key: string, value: string, outcome: Outcome)
    requires Bound(s, h) && h.key != key
    ensures Bound(Registration(s, key, value, outcome), h)
  {
  }

  lemma {:induction false} RegisterKept(s: System, inst: Inst, key: string, value: string, outcome: Outcome)
    requires Sound(s) && Kept(s) && Orderly(s, Register(inst, key, value, outcome))
    ensures Kept(RegisterNext(s, inst, key, value, outcome))
  {
    var s' := RegisterNext(s, inst, key, value, outcome);
    forall j | 0 <= j < |s.hbs| && Live(s', j)
      ensures s'.hbs[j] == s.hbs[j] && Live(s, j) && s.hbs[j].key != key && Bound(s', s.hbs[j])
    {
      RegistrationBound(s, s.hbs[j], key, value, outcome);
    }
    if outcome.Succeeds? {
      assert Bound(s', Fresh(key, value, s.nextLease));
    }
  }

  lemma {:induction false} DeregisterKept(s: System, inst: Inst, key: string, deletion: Deletion)
    requires Sound(s) && Kept(s) && Orderly(s, Deregister(inst, key, deletion))
    ensures Kept(DeregisterNext(s, inst, key, deletion))
  {
    var s' := DeregisterNext(s, inst, key, deletion);
    forall j | 0 <= j < |s'.hbs| && Live(s', j) ensures Live(s, j) && s'.hbs[j] == s.hbs[j] && Bound(s', s'.hbs[j]) {
      assert Live(s, j) && Bound(s, s.hbs[j]);
    }
  }

  lemma {:induction false} StepKept(s: System, a: Action)
    requires Sound(s) && Kept(s) && Enabled(s, a) && Orderly(s, a)
    ensures Kept(SystemNext(s, a))
  {
    match a
    case Register(inst, key, value, outcome) => RegisterKept(s, inst, key, value, outcome);
    case Deregister(inst, key, deletion) => DeregisterKept(s, inst, key, deletion);
    case Beat(i, b) => BeatKept(s, i, b);
    case Expire(_) =>
    case EndOptions =>
  }

  lemma {:induction false} RunKept(maxRetry: int, trace: seq<System>, actions: seq<Action>)
    requires Run(maxRetry, trace, actions)
    requires forall n :: 0 <= n < |actions| ==> Orderly(trace[n], actions[n])
    ensures Sound(trace[|actions|]) && Kept(trace[|actions|])
  {
    if actions != [] {
      var n := |actions| - 1;
      RunKept(maxRetry, trace[..n + 1], actions[..n]);
      SoundKept(trace[n], actions[n]);
      StepKept(trace[n], actions[n]);
    }
  }

  /**
   * With one registration per key, every live heartbeat at its steady select has a lease, its
   * channel is the stream opened for exactly that lease and the only one open, the last Put of
   * its key was bound to that lease, and the entry is there unless etcd has let the lease expire;
   * attempts that were given up half way make no difference.
   */
  lemma {:induction false} SteadyRegistration(maxRetry: int, trace: seq<System>, actions: seq<Action>, i: nat)
    requires Run(maxRetry, trace, actions)
    requires forall n :: 0 <= n < |actions| ==> Orderly(trace[n], actions[n])
    requires i < |trace[|actions|].hbs| && Live(trace[|actions|], i) && trace[|actions|].hbs[i].pc.Steady?
    ensures var s := trace[|actions|];
            var h := s.hbs[i];
            && h.cur != 0
            && h.kac < |h.chans| && h.chans[h.kac].lease == h.cur
            && (forall j :: 0 <= j < |h.chans| && h.chans[j].open ==> j == h.kac)
            && h.key in s.lastPut && s.lastPut[h.key] == h.cur
            && (h.cur !in s.expired ==> h.key in s.kv && s.kv[h.key] == Entry(h.value, h.cur))
  {
    RunKept(maxRetry, trace, actions);
  }

  // ---- deregistration ----------------------------------------------------------------

  /** Heartbeat i is live and can still get to put its key. */
  predicate CanPut(s: System, i: nat)
    requires i < |s.hbs|
  {
    Live(s, i) && MayPut(s.hbs[i], s.maxRetry, s.expired)
  }

  /** No entry for the key, and no heartbeat that could put one. */
  ghost predicate Quiet(s: System, key: string) {
    key !in s.kv && forall i :: 0 <= i < |s.hbs| && s.hbs[i].key == key ==> !CanPut(s, i)
  }

  /** A run going on from s in which no one registers the key. */
  ghost predicate Continuation(s: System, key: string, trace: seq<System>, actions: seq<Action>) {
    && Stretch(trace, actions) && trace[0] == s
    && forall n :: 0 <= n < |actions| ==> !(actions[n].Register? && actions[n].key == key)
  }

  lemma {:induction false} EffectQuiet(s: System, key: string, i: nat, a: Act, h': HB)
    requires Quiet(s, key) && i < |s.hbs| && Summary(s.hbs[i], a, h', s.nextLease)
    requires a.Put? && (a.ok || a.applied) ==> CanPut(s, i)
    requires Live(s, i) && MayPut(h', s.maxRetry, s.expired) ==> CanPut(s, i)
    ensures Quiet(Effect(s, i, a, h'), key)
    ensures SameLastPut(s, Effect(s, i, a, h'), key)
  {
    var s' := Effect(s, i, a, h');
    assert forall j :: 0 <= j < |s.hbs| && j != i ==> s'.hbs[j] == s.hbs[j] && CanPut(s', j) == CanPut(s, j);
  }

  ghost predicate SameLastPut(s: System, s': System, key: string) {
    (key in s.lastPut <==> key in s'.lastPut) && (key in s.lastPut ==> s.lastPut[key] == s'.lastPut[key])
  }

  lemma {:induction false} BeatQuiet(s: System, key: string, i: nat, a: Act)
    requires Sound(s) && Quiet(s, key) && Enabled(s, Beat(i, a))
    ensures Quiet(BeatNext(s, i, a), key) && SameLastPut(s, BeatNext(s, i, a), key)
  {
    NextSummary(s.hbs[i], a, Done(s, i), s.optsDone, s.maxRetry, s.nextLease);
    if Live(s, i) && !CanPut(s, i) {
      NeverPuts(s.hbs[i], a, Done(s, i), s.optsDone, s.maxRetry, s.nextLease, s.expired);
    }
    EffectQuiet(s, key, i, a, Next(s.hbs[i], a, Done(s, i), s.optsDone, s.maxRetry, s.nextLease));
  }

  lemma {:induction false} RegisterQuiet(s: System, key: string, inst: Inst, key': string, value: string,
          outcome: Outcome)
    requires Quiet(s, key) && key' != key
    ensures Quiet(RegisterNext(s, inst, key', value, outcome), key)
    ensures SameLastPut(s, RegisterNext(s, inst, key', value, outcome), key)
  {
    var s' := RegisterNext(s, inst, key', value, outcome);
    assert forall j :: 0 <= j < |s.hbs| ==> s'.hbs[j] == s.hbs[j];
  }

  lemma {:induction false} DeregisterQuiet(s: System, key: string, inst: Inst, key': string, deletion: Deletion)
    requires Quiet(s, key)
    ensures Quiet(DeregisterNext(s, inst, key', deletion), key)
  {
    var s' := DeregisterNext(s, inst, key', deletion);
    forall j | 0 <= j < |s.hbs| && CanPut(s', j) ensures s'.hbs[j] == s.hbs[j] && CanPut(s, j) {
      assert Live(s, j);
    }
    assert forall j :: 0 <= j < |s.hbs| ==> s'.hbs[j].key == s.hbs[j].key;
  }

  lemma {:induction false} ExpireQuiet(s: System, key: string, lease: nat)
    requires Quiet(s, key) && Enabled(s, Expire(lease))
    ensures Quiet(SystemNext(s, Expire(lease)), key)
  {
    var s' := SystemNext(s, Expire(lease));
    forall j | 0 <= j < |s.hbs| && CanPut(s', j) ensures CanPut(s, j) {
      assert Live(s, j) && s'.hbs[j] == s.hbs[j];
    }
  }

  lemma {:induction false} QuietKept(s: System, key: string, a: Action)
    requires Sound(s) && Quiet(s, key) && Enabled(s, a) && !(a.Register? && a.key == key)
    ensures Quiet(SystemNext(s, a), key) && SameLastPut(s, SystemNext(s, a), key)
  {
    match a
    case Beat(i, b) => BeatQuiet(s, key, i, b);
    case Register(inst, key', value, outcome) => RegisterQuiet(s, key, inst, key', value, outcome);
    case Deregister(inst, key', deletion) => DeregisterQuiet(s, key, inst, key', deletion);
    case Expire(lease) => ExpireQuiet(s, key, lease);
    case EndOptions =>
  }

  lemma {:induction false} QuietForever(s: System, key: string, trace: seq<System>, actions: seq<Action>)
    requires Continuation(s, key, trace, actions) && Sound(s) && Quiet(s, key)
    ensures Quiet(trace[|actions|], key) && SameLastPut(s, trace[|actions|], key)
  {
    if actions != [] {
      var n := |actions| - 1;
      QuietForever(s, key, trace[..n + 1], actions[..n]);
      StretchSound(trace[..n + 1], actions[..n]);
      QuietKept(trace[n], key, actions[n]);
    }
  }

  /** No heartbeat but the instance's own can still put the key. */
  predicate OnlyKeeper(s: System, inst: Inst, key: string) {
    forall i :: 0 <= i < |s.hbs| && s.hbs[i].key == key && CanPut(s, i) ==> inst in s.ctxMap && s.ctxMap[inst] == i
  }

  /**
   * Deregistration is final: when no heartbeat but the instance's own can still put the key,
   * then however the run goes on after the deletion, the key stays absent, and is not even
   * put, until someone registers it again.
   */
  lemma {:induction false} DeregisterFinal(maxRetry: int, before: seq<System>, past: seq<Action>,
                        inst: Inst, key: string, after: seq<System>, actions: seq<Action>)
    requires Run(maxRetry, before, past) && OnlyKeeper(before[|past|], inst, key)
    requires Continuation(DeregisterNext(before[|past|], inst, key, Deleted), key, after, actions)
    ensures key !in after[|actions|].kv
    ensures SameLastPut(after[0], after[|actions|], key)
  {
    StretchSound(before, past);
    SoundKept(before[|past|], Deregister(inst, key, Deleted));
    var s := before[|past|];
    forall i | 0 <= i < |after[0].hbs| && after[0].hbs[i].key == key ensures !CanPut(after[0], i) {
      assert s.hbs[i].key == key && (Live(after[0], i) ==> after[0].hbs[i] == s.hbs[i] && Live(s, i));
    }
    QuietForever(after[0], key, after, actions);
  }

  function BeatsOf(actions: seq<Action>, i: nat): nat {
    if actions == [] then 0
    else
      var a := actions[|actions| - 1];
      BeatsOf(actions[..|actions| - 1], i) + if a.Beat? && a.i == i then 1 else 0
  }

  /** What the others do neither undoes a cancellation nor moves a heartbeat. */
  lemma {:induction false} StaysCancelled(s: System, a: Action, i: nat)
    requires Sound(s) && Enabled(s, a) && i < |s.hbs| && Done(s, i) && !(a.Beat? && a.i == i)
    ensures var s' := SystemNext(s, a);
            i < |s'.hbs| && Done(s', i) && s'.hbs[i].(cancelled := true) == s.hbs[i].(cancelled := true)
  {
    match a
    case Register(_, _, _, _) =>
    case Deregister(_, _, _) =>
    case Beat(_, _) =>
    case Expire(_) =>
    case EndOptions =>
  }

  /** Its own steps use up its rank. */
  lemma {:induction false} OwnStepSpent(s: System, a: Act, i: nat)
    requires Sound(s) && Enabled(s, Beat(i, a)) && Done(s, i) && !s.hbs[i].pc.Returned?
    ensures i < |BeatNext(s, i, a).hbs| && Done(BeatNext(s, i, a), i)
    ensures Rank(BeatNext(s, i, a).hbs[i]) < Rank(s.hbs[i])
  {
    CancelledStepDescends(s.hbs[i], a, s.optsDone, s.maxRetry, s.nextLease);
    NextSummary(s.hbs[i], a, true, s.optsDone, s.maxRetry, s.nextLease);
    EffectAt(s, i, a, Next(s.hbs[i], a, true, s.optsDone, s.maxRetry, s.nextLease));
  }

  lemma {:induction false} EffectAt(s: System, i: nat, a: Act, h': HB)
    requires i < |s.hbs| && (a.Put? ==> s.hbs[i].attempt.Granted?)
    ensures i < |Effect(s, i, a, h').hbs| && Effect(s, i, a, h').hbs[i] == h'
    ensures Effect(s, i, a, h').optsDone == s.optsDone
  {
  }

  /** The rank without the flag that cancelling sets. */
  lemma {:induction false} RankIgnoresFlag(h: HB, h': HB)
    requires h.(cancelled := true) == h'.(cancelled := true)
    ensures Rank(h) == Rank(h')
  {
  }

  lemma {:induction false} RankSpent(s: System, a: Action, s': System, i: nat)
    requires Sound(s) && Enabled(s, a) && s' == SystemNext(s, a)
    requires i < |s.hbs| && Done(s, i) && !s.hbs[i].pc.Returned?
    ensures i < |s'.hbs| && Done(s', i)
    ensures Rank(s'.hbs[i]) + (if a.Beat? && a.i == i then 1 else 0) <= Rank(s.hbs[i])
  {
    if a.Beat? && a.i == i {
      OwnStepSpent(s, a.a, i);
    } else {
      StaysCancelled(s, a, i);
      RankIgnoresFlag(s'.hbs[i], s.hbs[i]);
    }
  }

  lemma {:induction false} CancelledGoesOn(s: System, i: nat)
    requires Sound(s) && i < |s.hbs| && Done(s, i) && !s.hbs[i].pc.Returned?
    ensures exists a :: Enabled(s, Beat(i, a))
  {
    CancelledNotStuck(s.hbs[i], s.optsDone);
    var a :| Ready(s.hbs[i], a, true, s.optsDone) && !a.Put?;
    assert Enabled(s, Beat(i, a));
  }

  predicate Going(s: System, i: nat) {
    i < |s.hbs| && !s.hbs[i].pc.Returned?
  }

  /** Steps of its own and rank left, against the rank a cancelled heartbeat had. */
  ghost predicate SpentSince(s0: System, actions: seq<Action>, s: System, i: nat)
    requires i < |s0.hbs|
  {
    i < |s.hbs| && Done(s, i) && BeatsOf(actions, i) + Rank(s.hbs[i]) <= Rank(s0.hbs[i])
  }

  lemma {:induction false} SpentStep(s0: System, actions: seq<Action>, s: System, a: Action, i: nat)
    requires i < |s0.hbs| && SpentSince(s0, actions, s, i)
    requires Sound(s) && Enabled(s, a) && !s.hbs[i].pc.Returned?
    ensures SpentSince(s0, actions + [a], SystemNext(s, a), i)
  {
    assert (actions + [a])[..|actions|] == actions;
    RankSpent(s, a, SystemNext(s, a), i);
  }

  lemma {:induction false} CancelledRank(trace: seq<System>, actions: seq<Action>, i: nat)
    requires Stretch(trace, actions) && Sound(trace[0]) && i < |trace[0].hbs| && Done(trace[0], i)
    requires forall n :: 0 <= n < |actions| ==> Going(trace[n], i)
    ensures SpentSince(trace[0], actions, trace[|actions|], i)
  {
    if actions != [] {
      var n := |actions| - 1;
      var init := trace[..n + 1];
      assert init[0] == trace[0] && init[n] == trace[n] && Going(trace[n], i);
      CancelledRank(init, actions[..n], i);
      StretchSound(init, actions[..n]);
      SpentStep(trace[0], actions[..n], trace[n], actions[n], i);
      assert actions[..n] + [actions[n]] == actions;
    }
  }

  /**
   * A cancelled heartbeat reaches its return: in every continuation it takes at most Rank steps
   * (a number fixed when it is cancelled), and until it has returned it can take another.
   */
  lemma {:induction false} CancelledReturns(trace: seq<System>, actions: seq<Action>, i: nat)
    requires Stretch(trace, actions) && Sound(trace[0]) && i < |trace[0].hbs| && Done(trace[0], i)
    requires forall n :: 0 <= n < |actions| ==> Going(trace[n], i)
    ensures var s := trace[|actions|];
            && i < |s.hbs| && Done(s, i)
            && BeatsOf(actions, i) + Rank(s.hbs[i]) <= Rank(trace[0].hbs[i])
            && (!s.hbs[i].pc.Returned? ==> exists a :: Enabled(s, Beat(i, a)))
  {
    CancelledRank(trace, actions, i);
    StretchSound(trace, actions);
    if !trace[|actions|].hbs[i].pc.Returned? {
      CancelledGoesOn(trace[|actions|], i);
    }
  }

  lemma {:induction false} StretchCons(s: System, a: Action, trace: seq<System>, actions: seq<Action>)
    requires Enabled(s, a) && Stretch(trace, actions) && trace[0] == SystemNext(s, a)
    ensures Stretch([s] + trace, [a] + actions)
  {
    forall n | 0 <= n < |actions| + 1
      ensures Enabled(([s] + trace)[n], ([a] + actions)[n])
      ensures ([s] + trace)[n + 1] == SystemNext(([s] + trace)[n], ([a] + actions)[n])
    {
      if n > 0 { assert Enabled(trace[n - 1], actions[n - 1]); }
    }
  }

  /** A live heartbeat that can still put its key does so in some continuation, all of it its own and etcd's doing. */
  lemma {:induction false} CanPutPuts(s: System, i: nat) returns (trace: seq<System>, actions: seq<Action>)
    requires Sound(s) && i < |s.hbs| && CanPut(s, i)
    ensures Stretch(trace, actions) && trace[0] == s
    ensures forall n :: 0 <= n < |actions| ==> actions[n].Beat?
    ensures s.hbs[i].key in trace[|actions|].kv
    decreases Far(s.hbs[i], s.expired)
  {
    var h := s.hbs[i];
    var a := Toward(h, s.expired);
    TowardNearer(h, s.optsDone, s.maxRetry, s.nextLease, s.expired);
    var s' := BeatNext(s, i, a);
    if a.Put? {
      trace, actions := [s, s'], [Beat(i, a)];
    } else {
      BeatSound(s, i, a);
      NextSummary(h, a, false, s.optsDone, s.maxRetry, s.nextLease);
      assert s'.hbs[i] == Next(h, a, false, s.optsDone, s.maxRetry, s.nextLease);
      trace, actions := CanPutPuts(s', i);
      StretchCons(s, Beat(i, a), trace, actions);
      trace, actions := [s] + trace, [Beat(i, a)] + actions;
    }
  }

  ghost predicate StaysAbsent(s: System, key: string) {
    forall trace: seq<System>, actions: seq<Action> | Continuation(s, key, trace, actions) ::
      key !in trace[|actions|].kv
  }

  /**
   * In every run, deregistering an instance is final exactly when no heartbeat but its own can
   * still put the key: one left behind by an earlier registration can always bring it back.
   */
  lemma {:induction false} DeregisterFinalIff(maxRetry: int, before: seq<System>, past: seq<Action>,
          inst: Inst, key: string)
    requires Run(maxRetry, before, past)
    ensures OnlyKeeper(before[|past|], inst, key) <==>
            StaysAbsent(DeregisterNext(before[|past|], inst, key, Deleted), key)
  {
    var s := before[|past|];
    var s' := DeregisterNext(s, inst, key, Deleted);
    StretchSound(before, past);
    SoundKept(s, Deregister(inst, key, Deleted));
    if OnlyKeeper(s, inst, key) {
      forall trace: seq<System>, actions: seq<Action> | Continuation(s', key, trace, actions)
        ensures key !in trace[|actions|].kv
      {
        DeregisterFinal(maxRetry, before, past, inst, key, trace, actions);
      }
    } else {
      var i :| 0 <= i < |s.hbs| && s.hbs[i].key == key && CanPut(s, i) && !(inst in s.ctxMap && s.ctxMap[inst] == i);
      assert s'.hbs[i] == s.hbs[i];
      var trace, actions := CanPutPuts(s', i);
      assert Continuation(s', key, trace, actions);
    }
  }

  // ---- finality for a caller -----------------------------------------------------------

  /** The instance has been registered, with success, since it was last deregistered. */
  predicate Registered(actions: seq<Action>, inst: Inst) {
    if actions == [] then false
    else
      match actions[|actions| - 1]
      case Register(i, _, _, outcome) =>
        (i == inst && outcome.Succeeds?) || Registered(actions[..|actions| - 1], inst)
      case Deregister(i, _, _) => i != inst && Registered(actions[..|actions| - 1], inst)
      case _ => Registered(actions[..|actions| - 1], inst)
  }

  /** The instance registers the key and no other, nobody else registers it, and never twice without deregistering. */
  predicate OncePerKey(actions: seq<Action>, inst: Inst, key: string) {
    forall n :: 0 <= n < |actions| && actions[n].Register? ==>
      && (actions[n].inst == inst <==> actions[n].key == key)
      && (actions[n].inst == inst ==> !Registered(actions[..n], inst))
  }

  /** The instance's heartbeat is the only one for its key not cancelled, and its cancel function is kept. */
  ghost predicate Owned(s: System, inst: Inst, key: string) {
    && (forall i :: 0 <= i < |s.hbs| && s.hbs[i].key == key && !s.hbs[i].cancelled ==>
          inst in s.ctxMap && s.ctxMap[inst] == i)
    && (forall j :: j in s.ctxMap ==>
          s.ctxMap[j] < |s.hbs| && (j == inst <==> s.hbs[s.ctxMap[j]].key == key))
  }

  lemma {:induction false} RegisterOwned(s: System, inst: Inst, key: string, j: Inst, key': string, value: string,
                                         outcome: Outcome)
    requires Owned(s, inst, key) && (j == inst <==> key' == key) && (j == inst ==> inst !in s.ctxMap)
    ensures Owned(RegisterNext(s, j, key', value, outcome), inst, key)
  {
    var s' := RegisterNext(s, j, key', value, outcome);
    assert forall i :: 0 <= i < |s.hbs| ==> s'.hbs[i] == s.hbs[i];
  }

  lemma {:induction false} CancelledOwned(s: System, inst: Inst, key: string, j: Inst)
    requires Owned(s, inst, key)
    ensures Owned(Cancelled(s, j), inst, key)
  {
    if j in s.ctxMap {
      var c, i := Cancelled(s, j), s.ctxMap[j];
      assert forall n :: 0 <= n < |s.hbs| && n != i ==> c.hbs[n] == s.hbs[n];
      assert c.hbs[i] == s.hbs[i].(cancelled := true);
    }
  }

  lemma {:induction false} DeregisterOwned(s: System, inst: Inst, key: string, j: Inst, key': string,
                                           deletion: Deletion)
    requires Owned(s, inst, key)
    ensures Owned(DeregisterNext(s, j, key', deletion), inst, key)
  {
    CancelledOwned(s, inst, key, j);
    var s' := DeregisterNext(s, j, key', deletion);
    assert s'.hbs == Cancelled(s, j).hbs && s'.ctxMap == Cancelled(s, j).ctxMap;
  }

  lemma {:induction false} BeatOwned(s: System, inst: Inst, key: string, i: nat, a: Act)
    requires Sound(s) && Owned(s, inst, key) && Enabled(s, Beat(i, a))
    ensures Owned(BeatNext(s, i, a), inst, key)
  {
    var h := s.hbs[i];
    NextSummary(h, a, Done(s, i), s.optsDone, s.maxRetry, s.nextLease);
    EffectOwned(s, inst, key, i, a, Next(h, a, Done(s, i), s.optsDone, s.maxRetry, s.nextLease));
  }

  lemma {:induction false} EffectOwned(s: System, inst: Inst, key: string, i: nat, a: Act, h': HB)
    requires Owned(s, inst, key) && i < |s.hbs| && Summary(s.hbs[i], a, h', s.nextLease)
    ensures Owned(Effect(s, i, a, h'), inst, key)
  {
    var s' := Effect(s, i, a, h');
    assert forall j :: 0 <= j < |s.hbs| ==> s'.hbs[j] == if j == i then h' else s.hbs[j];
  }

  lemma {:induction false} StepOwned(s: System, inst: Inst, key: string, a: Action)
    requires Sound(s) && Owned(s, inst, key) && Enabled(s, a)
    requires a.Register? ==> (a.inst == inst <==> a.key == key) && (a.inst == inst ==> inst !in s.ctxMap)
    ensures Owned(SystemNext(s, a), inst, key)
  {
    match a
    case Register(j, key', value, outcome) => RegisterOwned(s, inst, key, j, key', value, outcome);
    case Deregister(j, key', deletion) => DeregisterOwned(s, inst, key, j, key', deletion);
    case Beat(i, b) => BeatOwned(s, inst, key, i, b);
    case _ =>
  }

  /** The cancel function is kept exactly while the instance is registered. */
  lemma {:induction false} RegisteredIsKept(maxRetry: int, trace: seq<System>, actions: seq<Action>, inst: Inst)
    requires Run(maxRetry, trace, actions)
    ensures inst in trace[|actions|].ctxMap <==> Registered(actions, inst)
  {
    if actions != [] {
      var n := |actions| - 1;
      RegisteredIsKept(maxRetry, trace[..n + 1], actions[..n], inst);
      CtxMapNext(trace[n], actions[n], inst);
    }
  }

  lemma {:induction false} CtxMapNext(s: System, a: Action, inst: Inst)
    requires Enabled(s, a)
    ensures inst in SystemNext(s, a).ctxMap <==>
            match a
            case Register(j, _, _, outcome) => (j == inst && outcome.Succeeds?) || inst in s.ctxMap
            case Deregister(j, _, _) => j != inst && inst in s.ctxMap
            case _ => inst in s.ctxMap
  {
    match a
    case Register(_, _, _, _) =>
    case Deregister(_, _, _) =>
    case Beat(_, _) =>
    case Expire(_) =>
    case EndOptions =>
  }

  lemma {:induction false} RunOwned(maxRetry: int, trace: seq<System>, actions: seq<Action>, inst: Inst, key: string)
    requires Run(maxRetry, trace, actions) && OncePerKey(actions, inst, key)
    ensures Sound(trace[|actions|]) && Owned(trace[|actions|], inst, key)
  {
    if actions != [] {
      var n := |actions| - 1;
      assert forall m :: 0 <= m < n ==> actions[..n][..m] == actions[..m];
      RunOwned(maxRetry, trace[..n + 1], actions[..n], inst, key);
      RegisteredIsKept(maxRetry, trace[..n + 1], actions[..n], inst);
      SoundKept(trace[n], actions[n]);
      StepOwned(trace[n], inst, key, actions[n]);
    }
  }

  /** Every instance has a key of its own, which its calls use, and is never registered twice without deregistering. */
  ghost predicate Disciplined(actions: seq<Action>, keyOf: Inst -> string) {
    && (forall i, j :: keyOf(i) == keyOf(j) ==> i == j)
    && (forall n :: 0 <= n < |actions| && actions[n].Register? ==>
          actions[n].key == keyOf(actions[n].inst) && !Registered(actions[..n], actions[n].inst))
    && (forall n :: 0 <= n < |actions| && actions[n].Deregister? ==> actions[n].key == keyOf(actions[n].inst))
  }

  /** Which is a matter of the calls made alone, and gives the order that keeping an entry needs. */
  lemma {:induction false} DisciplineIsOrderly(maxRetry: int, trace: seq<System>, actions: seq<Action>,
                                               keyOf: Inst -> string, n: nat)
    requires Run(maxRetry, trace, actions) && Disciplined(actions, keyOf) && n < |actions|
    ensures Orderly(trace[n], actions[n])
  {
    var a := actions[n];
    if a.Register? || a.Deregister? {
      assert forall m :: 0 <= m < n ==> actions[..n][..m] == actions[..m];
      assert OncePerKey(actions[..n], a.inst, keyOf(a.inst));
      RunOwned(maxRetry, trace[..n + 1], actions[..n], a.inst, keyOf(a.inst));
      RegisteredIsKept(maxRetry, trace[..n + 1], actions[..n], a.inst);
    }
  }

  /** The last value with which the instance was registered successfully. */
  function LastValue(calls: seq<Action>, inst: Inst): string {
    if calls == [] then ""
    else
      match calls[|calls| - 1]
      case Register(j, _, value, Succeeds) =>
        if j == inst then value else LastValue(calls[..|calls| - 1], inst)
      case _ => LastValue(calls[..|calls| - 1], inst)
  }

  /** The kept heartbeat of an instance keeps the value it was last registered with. */
  ghost predicate ValuesKept(b: Book, calls: seq<Action>) {
    forall inst :: inst in b.kept ==>
      b.kept[inst] < |b.keepers| && b.keepers[b.kept[inst]].value == LastValue(calls, inst)
  }

  lemma {:induction false} BookValues(calls: seq<Action>)
    ensures ValuesKept(BookOf(calls), calls)
  {
    if calls != [] {
      var n := |calls| - 1;
      BookValues(calls[..n]);
      ValuesKeptCall(BookOf(calls[..n]), calls[..n], calls[n]);
      assert calls[..n] + [calls[n]] == calls;
    }
  }

  lemma {:induction false} ValuesKeptCall(b: Book, calls: seq<Action>, a: Action)
    requires ValuesKept(b, calls)
    ensures ValuesKept(BookCall(b, a), calls + [a])
  {
    assert (calls + [a])[..|calls|] == calls;
    forall inst | inst in BookCall(b, a).kept
      ensures var b' := BookCall(b, a);
              b'.kept[inst] < |b'.keepers| && b'.keepers[b'.kept[inst]].value == LastValue(calls + [a], inst)
    {
      match a
      case Register(_, _, _, _) =>
      case Deregister(_, _, _) =>
      case _ =>
    }
  }

  /** Only instances registered have keys in the book. */
  lemma {:induction false} KeyHasInstance(calls: seq<Action>, keyOf: Inst -> string, i: nat) returns (inst: Inst)
    requires i < |BookOf(calls).keepers|
    requires forall n :: 0 <= n < |calls| && calls[n].Register? ==> calls[n].key == keyOf(calls[n].inst)
    ensures keyOf(inst) == BookOf(calls).keepers[i].key
  {
    var n := |calls| - 1;
    var b := BookOf(calls[..n]);
    if i < |b.keepers| {
      inst := KeyHasInstance(calls[..n], keyOf, i);
    } else {
      inst := calls[n].inst;
    }
  }

  lemma {:induction false} CallsAreActions(actions: seq<Action>, keyOf: Inst -> string)
    requires forall n :: 0 <= n < |actions| && actions[n].Register? ==> actions[n].key == keyOf(actions[n].inst)
    ensures forall n :: 0 <= n < |CallsOf(actions)| && CallsOf(actions)[n].Register? ==>
              CallsOf(actions)[n].key == keyOf(CallsOf(actions)[n].inst)
  {
    if actions != [] { CallsAreActions(actions[..|actions| - 1], keyOf); }
  }

  /**
   * So SteadyRegistration holds for every caller that keeps to it, and the entry is the caller's: a
   * heartbeat at its steady select is that of some instance, under that instance's key, and unless
   * the lease has expired the store holds there the value of the instance's last successful Register.
   */
  lemma {:induction false} SteadyForCallers(maxRetry: int, trace: seq<System>, actions: seq<Action>,
                                            keyOf: Inst -> string, i: nat) returns (inst: Inst)
    requires Run(maxRetry, trace, actions) && Disciplined(actions, keyOf)
    requires i < |trace[|actions|].hbs| && Live(trace[|actions|], i) && trace[|actions|].hbs[i].pc.Steady?
    ensures var s := trace[|actions|];
            var h, key := s.hbs[i], keyOf(inst);
            && inst in s.ctxMap && s.ctxMap[inst] == i && h.key == key
            && h.cur != 0
            && h.kac < |h.chans| && h.chans[h.kac].lease == h.cur
            && (forall j :: 0 <= j < |h.chans| && h.chans[j].open ==> j == h.kac)
            && key in s.lastPut && s.lastPut[key] == h.cur
            && (h.cur !in s.expired ==>
                  key in s.kv && s.kv[key] == Entry(LastValue(CallsOf(actions), inst), h.cur))
  {
    forall n | 0 <= n < |actions| ensures Orderly(trace[n], actions[n]) {
      DisciplineIsOrderly(maxRetry, trace, actions, keyOf, n);
    }
    SteadyRegistration(maxRetry, trace, actions, i);
    RunBooked(maxRetry, trace, actions);
    CallsAreActions(actions, keyOf);
    inst := KeyHasInstance(CallsOf(actions), keyOf, i);
    RunOwned(maxRetry, trace, actions, inst, keyOf(inst));
    BookValues(CallsOf(actions));
  }

  /** Every lease id in use has been granted. */
  ghost predicate LeasesGranted(s: System) {
    && (forall k :: k in s.kv ==> s.kv[k].lease < s.nextLease)
    && (forall k :: k in s.lastPut ==> s.lastPut[k] < s.nextLease)
  }

  lemma {:induction false} EffectGranted(s: System, i: nat, a: Act, h': HB)
    requires Sound(s) && LeasesGranted(s) && i < |s.hbs| && (a.Put? ==> s.hbs[i].attempt.Granted?)
    ensures LeasesGranted(Effect(s, i, a, h'))
  {
  }

  lemma {:induction false} StepGranted(s: System, a: Action)
    requires Sound(s) && LeasesGranted(s) && Enabled(s, a)
    ensures LeasesGranted(SystemNext(s, a))
  {
    match a
    case Beat(i, b) => EffectGranted(s, i, b, Next(s.hbs[i], b, Done(s, i), s.optsDone, s.maxRetry, s.nextLease));
    case Register(_, _, _, _) =>
    case Deregister(_, _, _) =>
    case Expire(_) =>
    case EndOptions =>
  }

  lemma {:induction false} RunGranted(maxRetry: int, trace: seq<System>, actions: seq<Action>)
    requires Run(maxRetry, trace, actions)
    ensures Sound(trace[|actions|]) && LeasesGranted(trace[|actions|])
  {
    if actions != [] {
      var n := |actions| - 1;
      RunGranted(maxRetry, trace[..n + 1], actions[..n]);
      SoundKept(trace[n], actions[n]);
      StepGranted(trace[n], actions[n]);
    }
  }

  /** The stores agree but for one key. */
  ghost predicate SameBut(kv: map<string, Entry>, kv': map<string, Entry>, key: string) {
    forall k :: k != key ==> (k in kv <==> k in kv') && (k in kv ==> kv[k] == kv'[k])
  }

  /**
   * What a registration writes, in every run: on success the key holds exactly the caller's value, under
   * a lease that no entry, Put or heartbeat had before; a failed Put may have written that too; nothing
   * else writes, and no other key changes. Only success starts a heartbeat, and it keeps key and value.
   */
  lemma {:induction false} RegisterWrites(maxRetry: int, trace: seq<System>, actions: seq<Action>,
                                          inst: Inst, key: string, value: string, outcome: Outcome)
    requires Run(maxRetry, trace, actions)
    ensures var s := trace[|actions|];
            var s' := SystemNext(s, Register(inst, key, value, outcome));
            var wrote := outcome.Succeeds? || outcome == PutFails(true);
            && SameBut(s.kv, s'.kv, key)
            && (wrote ==> key in s'.kv && s'.kv[key].value == value && key in s'.lastPut
                          && s'.lastPut[key] == s'.kv[key].lease != 0)
            && (wrote ==> forall k :: k in s.kv ==> s.kv[k].lease != s'.kv[key].lease)
            && (wrote ==> forall k :: k in s.lastPut ==> s.lastPut[k] != s'.kv[key].lease)
            && (wrote ==> forall i :: 0 <= i < |s.hbs| ==> s.hbs[i].cur != s'.kv[key].lease)
            && (!wrote ==> s'.kv == s.kv && s'.lastPut == s.lastPut)
            && (!outcome.Succeeds? ==> s'.hbs == s.hbs && s'.ctxMap == s.ctxMap)
            && (outcome.Succeeds? ==>
                  && |s'.hbs| == |s.hbs| + 1 && s'.hbs[..|s.hbs|] == s.hbs
                  && s'.ctxMap == s.ctxMap[inst := |s.hbs|]
                  && var h := s'.hbs[|s.hbs|];
                     h.key == key && h.value == value && h.cur == s'.kv[key].lease && !h.cancelled && h.pc.Starting?)
  {
    RunGranted(maxRetry, trace, actions);
  }

  /** A heartbeat writes only by a Put that is applied: its own key, its own value, the lease of the attempt. */
  lemma {:induction false} BeatWrites(s: System, i: nat, a: Act)
    requires Sound(s) && Enabled(s, Beat(i, a))
    ensures var s', h := SystemNext(s, Beat(i, a)), s.hbs[i];
            if a.Put? && (a.ok || a.applied) then
              && SameBut(s.kv, s'.kv, h.key) && h.attempt.Granted?
              && h.key in s'.kv && s'.kv[h.key] == Entry(h.value, h.attempt.id)
            else s'.kv == s.kv && s'.lastPut == s.lastPut
  {
  }

  /** Deregistering removes the key, unless the deletion fails without effect, and no other. */
  lemma {:induction false} DeregisterWrites(s: System, inst: Inst, key: string, deletion: Deletion)
    ensures var s' := SystemNext(s, Deregister(inst, key, deletion));
            && SameBut(s.kv, s'.kv, key)
            && (if deletion == DeleteFails(false) then s'.kv == s.kv else key !in s'.kv)
            && inst !in s'.ctxMap && forall j :: j != inst ==> (j in s'.ctxMap <==> j in s.ctxMap)
  {
  }

  /** A heartbeat that has not returned had not returned before. */
  lemma {:induction false} GoingBefore(trace: seq<System>, actions: seq<Action>, i: nat, n: nat)
    requires Stretch(trace, actions) && Sound(trace[0]) && i < |trace[0].hbs| && n <= |actions|
    requires Going(trace[|actions|], i)
    ensures Going(trace[n], i)
    decreases |actions| - n
  {
    if n < |actions| {
      GoingBefore(trace, actions, i, n + 1);
      HeartbeatsStay(trace[..n + 1], actions[..n], i);
      StretchSound(trace[..n + 1], actions[..n]);
      if trace[n].hbs[i].pc.Returned? { ReturnedStays(trace[n], actions[n], i); }
    }
  }

  lemma {:induction false} HeartbeatsStay(trace: seq<System>, actions: seq<Action>, i: nat)
    requires Stretch(trace, actions) && i < |trace[0].hbs|
    ensures i < |trace[|actions|].hbs|
  {
    if actions != [] {
      HeartbeatsStay(trace[..|actions|], actions[..|actions| - 1], i);
    }
  }

  lemma {:induction false} ReturnedStays(s: System, a: Action, i: nat)
    requires Sound(s) && Enabled(s, a) && i < |s.hbs| && s.hbs[i].pc.Returned?
    ensures i < |SystemNext(s, a).hbs| && SystemNext(s, a).hbs[i].pc.Returned?
  {
    if a.Beat? {
      NextSummary(s.hbs[a.i], a.a, Done(s, a.i), s.optsDone, s.maxRetry, s.nextLease);
    }
  }

  /**
   * Deregistration is final. Let an instance register one key, which nobody else registers, and
   * never twice without deregistering in between. Then in every run, and however it goes on after
   * a deregistration while nobody registers the key: the key stays absent and is not even put, and
   * the instance's heartbeat, if it had one, reaches its return: it takes at most Rank steps, a
   * number fixed at the deregistration, and until it has returned it can take another.
   */
  lemma {:induction false} DeregistrationIsFinal(maxRetry: int, before: seq<System>, past: seq<Action>,
                                                 inst: Inst, key: string, after: seq<System>, actions: seq<Action>)
    requires Run(maxRetry, before, past) && OncePerKey(past, inst, key)
    requires Continuation(DeregisterNext(before[|past|], inst, key, Deleted), key, after, actions)
    ensures key !in after[|actions|].kv && SameLastPut(after[0], after[|actions|], key)
    ensures Registered(past, inst) <==> inst in before[|past|].ctxMap
    ensures Registered(past, inst) ==>
              var i, s := before[|past|].ctxMap[inst], after[|actions|];
              && i < |after[0].hbs| && i < |s.hbs|
              && (!s.hbs[i].pc.Returned? ==>
                    && BeatsOf(actions, i) + Rank(s.hbs[i]) <= Rank(after[0].hbs[i])
                    && exists a :: Enabled(s, Beat(i, a)))
  {
    var s := before[|past|];
    RunOwned(maxRetry, before, past, inst, key);
    RegisteredIsKept(maxRetry, before, past, inst);
    SoundKept(s, Deregister(inst, key, Deleted));
    DeregisterFinal(maxRetry, before, past, inst, key, after, actions);
    if inst in s.ctxMap {
      var i := s.ctxMap[inst];
      HeartbeatsStay(after, actions, i);
      if !after[|actions|].hbs[i].pc.Returned? {
        forall n | 0 <= n < |actions| ensures Going(after[n], i) {
          GoingBefore(after, actions, i, n);
        }
        CancelledReturns(after, actions, i);
      }
    }
  }

  // ---- finality, exactly, from the calls alone ------------------------------------------

  /** A successful registration, and whether a call has cancelled its heartbeat. */
  datatype Keeper = Keeper(key: string, value: string, cancelled: bool)

  /** What the calls made so far come to: the heartbeats started, whose cancel functions are kept, and the options. */
  datatype Book = Book(keepers: seq<Keeper>, kept: map<Inst, nat>, ended: bool)

  predicate IsCall(a: Action) {
    a.Register? || a.Deregister? || a.EndOptions?
  }

  function BookCall(b: Book, a: Action): Book {
    match a
    case Register(inst, key, value, outcome) =>
      if !outcome.Succeeds? then b
      else Book(b.keepers + [Keeper(key, value, false)], b.kept[inst := |b.keepers|], b.ended)
    case Deregister(inst, _, _) =>
      if inst !in b.kept || b.kept[inst] >= |b.keepers| then b.(kept := b.kept - {inst})
      else
        var i := b.kept[inst];
        Book(b.keepers[i := b.keepers[i].(cancelled := true)], b.kept - {inst}, b.ended)
    case EndOptions => b.(ended := true)
    case _ => b
  }

  function BookOf(calls: seq<Action>): Book {
    if calls == [] then Book([], map[], false) else BookCall(BookOf(calls[..|calls| - 1]), calls[|calls| - 1])
  }

  /** The calls in a run. */
  function CallsOf(actions: seq<Action>): seq<Action> {
    if actions == [] then []
    else
      var a := actions[|actions| - 1];
      CallsOf(actions[..|actions| - 1]) + if IsCall(a) then [a] else []
  }

  ghost predicate Booked(s: System, b: Book) {
    && |b.keepers| == |s.hbs| && b.kept == s.ctxMap && b.ended == s.optsDone
    && forall i :: 0 <= i < |s.hbs| ==> b.keepers[i] == Keeper(s.hbs[i].key, s.hbs[i].value, s.hbs[i].cancelled)
  }

  lemma {:induction false} RegisterBooked(s: System, b: Book, inst: Inst, key: string, value: string, outcome: Outcome)
    requires Booked(s, b)
    ensures Booked(RegisterNext(s, inst, key, value, outcome), BookCall(b, Register(inst, key, value, outcome)))
  {
    var s' := RegisterNext(s, inst, key, value, outcome);
    assert forall i :: 0 <= i < |s.hbs| ==> s'.hbs[i] == s.hbs[i];
  }

  lemma {:induction false} DeregisterBooked(s: System, b: Book, inst: Inst, key: string, deletion: Deletion)
    requires Booked(s, b)
    ensures Booked(DeregisterNext(s, inst, key, deletion), BookCall(b, Deregister(inst, key, deletion)))
  {
    var s' := DeregisterNext(s, inst, key, deletion);
    if inst in s.ctxMap && s.ctxMap[inst] < |s.hbs| {
      var i := s.ctxMap[inst];
      assert forall j :: 0 <= j < |s.hbs| ==> s'.hbs[j] == if j == i then s.hbs[i].(cancelled := true) else s.hbs[j];
    } else {
      assert s'.hbs == s.hbs && s.ctxMap - {inst} == s'.ctxMap;
    }
  }

  lemma {:induction false} CallBooked(s: System, b: Book, a: Action)
    requires Booked(s, b) && Enabled(s, a) && IsCall(a)
    ensures Booked(SystemNext(s, a), BookCall(b, a))
  {
    match a
    case Register(inst, key, value, outcome) => RegisterBooked(s, b, inst, key, value, outcome);
    case Deregister(inst, key, deletion) => DeregisterBooked(s, b, inst, key, deletion);
    case EndOptions =>
  }

  lemma {:induction false} OtherBooked(s: System, b: Book, a: Action)
    requires Sound(s) && Booked(s, b) && Enabled(s, a) && !IsCall(a)
    ensures Booked(SystemNext(s, a), b)
  {
    if a.Beat? {
      var h := s.hbs[a.i];
      NextSummary(h, a.a, Done(s, a.i), s.optsDone, s.maxRetry, s.nextLease);
      EffectBooked(s, b, a.i, a.a, Next(h, a.a, Done(s, a.i), s.optsDone, s.maxRetry, s.nextLease));
    }
  }

  lemma {:induction false} EffectBooked(s: System, b: Book, i: nat, a: Act, h': HB)
    requires Booked(s, b) && i < |s.hbs| && Summary(s.hbs[i], a, h', s.nextLease)
    ensures Booked(Effect(s, i, a, h'), b)
  {
    var s' := Effect(s, i, a, h');
    assert forall j :: 0 <= j < |s.hbs| ==> s'.hbs[j] == if j == i then h' else s.hbs[j];
  }

  /** Whatever else happens in a run, the calls decide who was started, for which key, and cancelled. */
  lemma {:induction false} RunBooked(maxRetry: int, trace: seq<System>, actions: seq<Action>)
    requires Run(maxRetry, trace, actions)
    ensures Sound(trace[|actions|]) && Booked(trace[|actions|], BookOf(CallsOf(actions)))
    ensures trace[|actions|].maxRetry == maxRetry
  {
    if actions != [] {
      var n := |actions| - 1;
      var before := CallsOf(actions[..n]);
      RunBooked(maxRetry, trace[..n + 1], actions[..n]);
      SoundKept(trace[n], actions[n]);
      if IsCall(actions[n]) {
        CallBooked(trace[n], BookOf(before), actions[n]);
        assert (before + [actions[n]])[..|before|] == before;
      } else {
        OtherBooked(trace[n], BookOf(before), actions[n]);
        assert before + [] == before;
      }
    }
  }

  /** Without retries no heartbeat puts anything. */
  lemma {:induction false} NoRetryNoPut(s: System, i: nat)
    requires Sound(s) && s.maxRetry <= 0 && i < |s.hbs|
    ensures !CanPut(s, i)
  {
    assert Bounded(s.hbs[i], s.maxRetry);
  }

  lemma {:induction false} StretchSnoc(trace: seq<System>, actions: seq<Action>, a: Action)
    requires Stretch(trace, actions) && Enabled(trace[|actions|], a)
    ensures Stretch(trace + [SystemNext(trace[|actions|], a)], actions + [a])
  {
    var longer, more := trace + [SystemNext(trace[|actions|], a)], actions + [a];
    forall n | 0 <= n < |more| ensures Enabled(longer[n], more[n]) && longer[n + 1] == SystemNext(longer[n], more[n]) {
      if n < |actions| { assert longer[n] == trace[n] && longer[n + 1] == trace[n + 1] && more[n] == actions[n]; }
    }
  }

  /** The calls one after another with nothing in between. */
  lemma {:induction false} Replay(maxRetry: int, calls: seq<Action>) returns (trace: seq<System>)
    requires forall n :: 0 <= n < |calls| ==> IsCall(calls[n])
    ensures Run(maxRetry, trace, calls) && CallsOf(calls) == calls
    ensures forall i :: 0 <= i < |trace[|calls|].hbs| ==> trace[|calls|].hbs[i].pc.Starting?
  {
    if calls == [] {
      trace := [Initial(maxRetry)];
    } else {
      var n := |calls| - 1;
      var init := Replay(maxRetry, calls[..n]);
      StretchSound(init, calls[..n]);
      StillStarting(init[n], calls[n]);
      StretchSnoc(init, calls[..n], calls[n]);
      trace := init + [SystemNext(init[n], calls[n])];
      assert calls[..n] + [calls[n]] == calls;
    }
  }

  lemma {:induction false} StillStarting(s: System, a: Action)
    requires Sound(s) && IsCall(a) && forall i :: 0 <= i < |s.hbs| ==> s.hbs[i].pc.Starting?
    ensures Enabled(s, a)
    ensures forall i :: 0 <= i < |SystemNext(s, a).hbs| ==> SystemNext(s, a).hbs[i].pc.Starting?
  {
    match a
    case Register(_, _, _, _) =>
    case Deregister(_, _, _) =>
    case EndOptions =>
  }

  /** However a run with these calls went, deregistering is final at its end. */
  ghost predicate AlwaysFinal(maxRetry: int, calls: seq<Action>, inst: Inst, key: string) {
    forall trace: seq<System>, actions: seq<Action> | Run(maxRetry, trace, actions) && CallsOf(actions) == calls ::
      StaysAbsent(DeregisterNext(trace[|actions|], inst, key, Deleted), key)
  }

  /** Retrying is off, the options are done, or every registration of the key but the instance's own was cancelled. */
  predicate Guaranteed(maxRetry: int, b: Book, inst: Inst, key: string) {
    || maxRetry <= 0 || b.ended
    || forall i :: 0 <= i < |b.keepers| && b.keepers[i].key == key && !b.keepers[i].cancelled ==>
         inst in b.kept && b.kept[inst] == i
  }

  /**
   * A history of calls, whatever it is, guarantees that deregistering is final, whatever etcd and the
   * heartbeats did meanwhile, exactly when retrying is off, the options are done, or every successful
   * registration of the key, except the one whose cancel function is kept, was cancelled by a call.
   */
  lemma {:induction false} FinalForCallsIff(maxRetry: int, calls: seq<Action>, inst: Inst, key: string)
    requires forall n :: 0 <= n < |calls| ==> IsCall(calls[n])
    ensures AlwaysFinal(maxRetry, calls, inst, key) <==> Guaranteed(maxRetry, BookOf(calls), inst, key)
  {
    if Guaranteed(maxRetry, BookOf(calls), inst, key) {
      forall trace: seq<System>, actions: seq<Action> | Run(maxRetry, trace, actions) && CallsOf(actions) == calls
        ensures StaysAbsent(DeregisterNext(trace[|actions|], inst, key, Deleted), key)
      {
        GuaranteedIsFinal(maxRetry, trace, actions, inst, key);
      }
    } else {
      var trace := Replay(maxRetry, calls);
      RunBooked(maxRetry, trace, calls);
      var s, b := trace[|calls|], BookOf(calls);
      var i :| 0 <= i < |b.keepers| && b.keepers[i].key == key && !b.keepers[i].cancelled &&
               !(inst in b.kept && b.kept[inst] == i);
      assert CanPut(s, i) && s.hbs[i].key == key;
      DeregisterFinalIff(maxRetry, trace, calls, inst, key);
    }
  }

  lemma {:induction false} GuaranteedIsFinal(maxRetry: int, trace: seq<System>, actions: seq<Action>,
                                             inst: Inst, key: string)
    requires Run(maxRetry, trace, actions) && Guaranteed(maxRetry, BookOf(CallsOf(actions)), inst, key)
    ensures StaysAbsent(DeregisterNext(trace[|actions|], inst, key, Deleted), key)
  {
    RunBooked(maxRetry, trace, actions);
    var s := trace[|actions|];
    forall i | 0 <= i < |s.hbs| && s.hbs[i].key == key && CanPut(s, i)
      ensures inst in s.ctxMap && s.ctxMap[inst] == i
    {
      if maxRetry <= 0 { NoRetryNoPut(s, i); }
      assert Live(s, i) && !BookOf(CallsOf(actions)).keepers[i].cancelled;
    }
    DeregisterFinalIff(maxRetry, trace, actions, inst, key);
  }

  /**
   * The discipline is needed: in any run, registering an instance again while its heartbeat can still
   * put the key loses that heartbeat's cancel function, and deregistering is then not final.
   */
  lemma {:induction false} OverwriteLoses(maxRetry: int, trace: seq<System>, actions: seq<Action>,
                                          inst: Inst, key: string, value: string)
    requires Run(maxRetry, trace, actions)
    requires var s := trace[|actions|];
             inst in s.ctxMap && s.ctxMap[inst] < |s.hbs|
             && s.hbs[s.ctxMap[inst]].key == key && CanPut(s, s.ctxMap[inst])
    ensures var again := RegisterNext(trace[|actions|], inst, key, value, Succeeds);
            !StaysAbsent(DeregisterNext(again, inst, key, Deleted), key)
  {
    var s := trace[|actions|];
    var again := RegisterNext(s, inst, key, value, Succeeds);
    var s' := DeregisterNext(again, inst, key, Deleted);
    var i := s.ctxMap[inst];
    StretchSound(trace, actions);
    RegisterSound(s, inst, key, value, Succeeds);
    SoundKept(again, Deregister(inst, key, Deleted));
    assert again.hbs[i] == s.hbs[i] && s'.hbs[i] == s.hbs[i];
    assert CanPut(s', i);
    var after, more := CanPutPuts(s', i);
    assert Continuation(s', key, after, more);
  }

  /**
   * Registering an instance twice forgets the first cancel function: deregistering leaves that
   * heartbeat live, and the deregistration is final only when retrying is off.
   */
  lemma {:induction false} RegisterTwiceLeaks(maxRetry: int, inst: Inst, key: string, value: string)
    ensures exists trace: seq<System> ::
              && Run(maxRetry, trace,
                     [Register(inst, key, value, Succeeds), Register(inst, key, value, Succeeds),
                      Deregister(inst, key, Deleted)])
              && |trace[3].hbs| > 0 && Live(trace[3], 0) && trace[3].hbs[0].key == key && inst !in trace[3].ctxMap
              && (StaysAbsent(trace[3], key) <==> maxRetry <= 0)
  {
    var register := Register(inst, key, value, Succeeds);
    var s0 := Initial(maxRetry);
    var s1 := SystemNext(s0, register);
    var s2 := SystemNext(s1, register);
    var s3 := SystemNext(s2, Deregister(inst, key, Deleted));
    assert Run(maxRetry, [s0, s1, s2, s3], [register, register, Deregister(inst, key, Deleted)]);
    assert Run(maxRetry, [s0, s1, s2], [register, register]);
    assert s2.hbs[0] == Fresh(key, value, 1) && s2.ctxMap == map[inst := 1] && |s2.hbs| == 2;
    assert CanPut(s2, 0) <==> maxRetry > 0;
    assert OnlyKeeper(s2, inst, key) <==> maxRetry <= 0;
    DeregisterFinalIff(maxRetry, [s0, s1, s2], [register, register], inst, key);
  }
}
