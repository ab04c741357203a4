/**
 * The standard logger (logger/std.go). One call alone is a method over a pool of buffers and
 * a sink; many goroutines are a transition system whose steps are the points where they meet:
 * the pool, the mutex and the sink.
 */
module StdLogger {
  import opened Wrappers
  import opened Bytes
  import opened LogLine

  class Buffer {
    var data: Str

    constructor ()
      ensures data == ""
    {
      data := "";
    }

    method WriteString(s: Str)
      modifies this
      ensures data == old(data) + s
    {
      data := data + s;
    }

    method Reset()
      modifies this
      ensures data == ""
    {
      data := "";
    }
  }

  /** How the writer treats a line: it takes some prefix, and fails unless it takes all. */
  function Taken(line: Str, limit: nat): Str {
    if limit < |line| then line[..limit] else line
  }

  class Logger {
    const isDiscard: bool
    var pool: set<Buffer>
    var sink: Str

    ghost predicate Valid()
      reads this, pool
    {
      forall b :: b in pool ==> b.data == ""
    }

    constructor (isDiscard: bool)
      ensures Valid() && sink == "" && pool == {} && this.isDiscard == isDiscard
    {
      this.isDiscard := isDiscard;
      pool := {};
      sink := "";
    }

    /** sync.Pool.Get: some pooled buffer, or a new one. */
    method Get() returns (buf: Buffer)
      requires Valid()
      modifies this
      ensures Valid() && buf.data == "" && buf !in pool && sink == old(sink)
      ensures pool == old(pool) - {buf}
      ensures buf in old(pool) || fresh(buf)
    {
      if pool == {} {
        buf := new Buffer();
      } else {
        buf :| buf in pool;
        pool := pool - {buf};
      }
    }

    /** A call alone: its line, or what the writer took of it, and the pool keeps only empty buffers. */
    method Log(c: Call, limit: nat) returns (failed: bool)
      requires Valid()
      modifies this, pool
      ensures Valid()
      ensures isDiscard || c.keyvals == [] ==> sink == old(sink) && pool == old(pool) && !failed
      ensures !isDiscard && c.keyvals != [] ==>
                sink == old(sink) + Taken(Render(c), limit) && (failed <==> limit < |Render(c)|)
    {
      if isDiscard || |c.keyvals| == 0 {
        return false;
      }
      var buf := Get();
      Format(c, buf);
      sink := sink + Taken(buf.data, limit);
      failed := limit < |buf.data|;
      buf.Reset();
      pool := pool + {buf};
    }

    /** The part of Log that fills the buffer. */
    static method Format(c: Call, buf: Buffer)
      requires buf.data == ""
      modifies buf
      ensures buf.data == Render(c)
    {
      var keyvals := c.keyvals;
      if |keyvals| % 2 == 1 {
        keyvals := keyvals + ["KEYVALS UNPAIRED"];
      }
      assert keyvals == Padded(c.keyvals);
      buf.WriteString(LevelName(c.level));
      var i := 0;
      while i < |keyvals|
        invariant 0 <= i <= |keyvals| && i % 2 == 0
        invariant buf.data == Partial(c, i / 2)
      {
        PartialGrows(c, i / 2);
        buf.WriteString(Pair(keyvals[i], keyvals[i + 1]));
        i := i + 2;
      }
      buf.WriteString("\n");
    }
  }

  // ---- many goroutines -------------------------------------------------------------

  datatype Phase =
    | Idle
    | Entered
    | Formatting(buf: nat, pairs: Option<nat>)
    | Formatted(buf: nat)
    | Writing(buf: nat, taken: nat)   // inside the Write of the sink, which has taken some of the bytes
    | Wrote(buf: nat)
    | Unlocked(buf: nat)
    | Cleared(buf: nat)

  predicate Holds(p: Phase) {
    !p.Idle? && !p.Entered?
  }

  /** A goroutine with the calls it has made that have something to log; the last is the current one. */
  datatype Goroutine = Goroutine(phase: Phase, issued: seq<Call>)

  /** A finished write to the sink: who, for which call, and how many bytes the writer took. */
  datatype Entry = Entry(who: nat, call: Call, limit: nat)

  datatype System = System(
    gs: seq<Goroutine>,
    bufs: map<nat, Str>,
    pool: set<nat>,
    lock: Option<nat>,
    sink: Str,
    entries: seq<Entry>,
    locks: seq<nat>)

  datatype Action =
    | Enter(c: Call)
    | GetBuffer(b: nat)
    | WriteLevel
    | WritePair
    | WriteNewline
    | Lock
    | WriteChunk(n: nat)
    | WriteEnd
    | Unlock
    | Reset
    | Put

  function Current(g: Goroutine): Call
    requires g.issued != []
  {
    g.issued[|g.issued| - 1]
  }

  /** Where in a call each step is taken. */
  predicate Ready(g: Goroutine, a: Action) {
    if a.Enter? then g.phase.Idle? && a.c.keyvals != []
    else
      g.issued != [] &&
      match a
      case GetBuffer(b) => g.phase.Entered?
      case WriteLevel => g.phase.Formatting? && g.phase.pairs.None?
      case WritePair =>
        g.phase.Formatting? && g.phase.pairs.Some? && 2 * g.phase.pairs.value < |Padded(Current(g).keyvals)|
      case WriteNewline =>
        g.phase.Formatting? && g.phase.pairs.Some? && 2 * g.phase.pairs.value >= |Padded(Current(g).keyvals)|
      case Lock => g.phase.Formatted?
      case WriteChunk(_) => g.phase.Writing?
      case WriteEnd => g.phase.Writing?
      case Unlock => g.phase.Wrote?
      case Reset => g.phase.Unlocked?
      case Put => g.phase.Cleared?
  }

  /** When goroutine t can: a buffer comes from the pool or is new, the mutex is free, bytes are left to write. */
  predicate Enabled(s: System, t: nat, a: Action) {
    && t < |s.gs|
    && Ready(s.gs[t], a)
    && (a.GetBuffer? ==> a.b in s.pool || a.b !in s.bufs)
    && (a.Lock? ==> s.lock.None?)
    && (a.WriteChunk? ==> s.gs[t].phase.taken + a.n <= |Content(s.bufs, s.gs[t].phase.buf)|)
  }

  function NextPhase(g: Goroutine, a: Action): Phase
    requires Ready(g, a)
  {
    match a
    case Enter(_) => Entered
    case GetBuffer(b) => Formatting(b, None)
    case WriteLevel => Formatting(g.phase.buf, Some(0))
    case WritePair => Formatting(g.phase.buf, Some(g.phase.pairs.value + 1))
    case WriteNewline => Formatted(g.phase.buf)
    case Lock => Writing(g.phase.buf, 0)
    case WriteChunk(n) => Writing(g.phase.buf, g.phase.taken + n)
    case WriteEnd => Wrote(g.phase.buf)
    case Unlock => Unlocked(g.phase.buf)
    case Reset => Cleared(g.phase.buf)
    case Put => Idle
  }

  function NextGoroutine(g: Goroutine, a: Action): Goroutine
    requires Ready(g, a)
  {
    Goroutine(NextPhase(g, a), if a.Enter? then g.issued + [a.c] else g.issued)
  }

  function Content(bufs: map<nat, Str>, b: nat): Str {
    if b in bufs then bufs[b] else ""
  }

  function NextBufs(bufs: map<nat, Str>, g: Goroutine, a: Action): map<nat, Str>
    requires Ready(g, a)
  {
    match a
    case GetBuffer(b) => if b in bufs then bufs else bufs[b := ""]
    case WriteLevel => bufs[g.phase.buf := Content(bufs, g.phase.buf) + LevelName(Current(g).level)]
    case WritePair =>
      var kvs, n := Padded(Current(g).keyvals), g.phase.pairs.value;
      bufs[g.phase.buf := Content(bufs, g.phase.buf) + Pair(kvs[2 * n], kvs[2 * n + 1])]
    case WriteNewline => bufs[g.phase.buf := Content(bufs, g.phase.buf) + "\n"]
    case Reset => bufs[g.phase.buf := ""]
    case _ => bufs
  }

  /** The pool after a step. */
  function NextPool(pool: set<nat>, g: Goroutine, a: Action): set<nat>
    requires Ready(g, a)
  {
    if a.GetBuffer? then pool - {a.b} else if a.Put? then pool + {g.phase.buf} else pool
  }

  function Next(s: System, t: nat, a: Action): System
    requires Enabled(s, t, a)
  {
    var g := s.gs[t];
    System(
      s.gs[t := NextGoroutine(g, a)],
      NextBufs(s.bufs, g, a),
      NextPool(s.pool, g, a),
      if a.Lock? then Some(t) else if a.Unlock? then None else s.lock,
      if a.WriteChunk? then s.sink + Content(s.bufs, g.phase.buf)[g.phase.taken..g.phase.taken + a.n] else s.sink,
      if a.WriteEnd? then s.entries + [Entry(t, Current(g), g.phase.taken)] else s.entries,
      if a.Lock? then s.locks + [t] else s.locks)
  }

  function Initial(n: nat): System {
    System(seq(n, _ => Goroutine(Idle, [])), map[], {}, None, "", [], [])
  }

  /** A run: n goroutines from rest, each state one enabled step after the one before. */
  ghost predicate Run(n: nat, trace: seq<System>) {
    && trace != [] && trace[0] == Initial(n)
    && forall i :: 0 < i < |trace| ==> Step(trace[i - 1], trace[i])
  }

  /** A step of a goroutine, or the garbage collector emptying part of the pool. */
  ghost predicate Step(s: System, s': System) {
    || (exists t: nat, a :: Enabled(s, t, a) && s' == Next(s, t, a))
    || (exists kept: set<nat> :: kept <= s.pool && s' == s.(pool := kept))
  }

  /** What the buffer of a goroutine holds at each point of a call. */
  ghost predicate BufferRight(bufs: map<nat, Str>, pool: set<nat>, g: Goroutine) {
    && (!g.phase.Idle? ==> g.issued != [])
    && (Holds(g.phase) ==> g.phase.buf in bufs && g.phase.buf !in pool)
    && match g.phase
       case Formatting(b, None) => Content(bufs, b) == ""
       case Formatting(b, Some(n)) =>
         2 * n <= |Padded(Current(g).keyvals)| && Content(bufs, b) == Partial(Current(g), n)
       case Formatted(b) => Content(bufs, b) == Render(Current(g))
       case Writing(b, n) => Content(bufs, b) == Render(Current(g)) && n <= |Render(Current(g))|
       case Wrote(b) => Content(bufs, b) == Render(Current(g))
       case Cleared(b) => Content(bufs, b) == ""
       case _ => true
  }

  ghost predicate AllEmpty(bufs: map<nat, Str>, pool: set<nat>) {
    forall b :: b in pool ==> b in bufs && bufs[b] == ""
  }

  ghost predicate Buffers(s: System) {
    && AllEmpty(s.bufs, s.pool)
    && (forall t :: 0 <= t < |s.gs| ==> BufferRight(s.bufs, s.pool, s.gs[t]))
    && (forall t, u :: 0 <= t < u < |s.gs| && Holds(s.gs[t].phase) && Holds(s.gs[u].phase) ==>
          s.gs[t].phase.buf != s.gs[u].phase.buf)
  }

  predicate InSection(p: Phase) {
    p.Writing? || p.Wrote?
  }

  ghost predicate Mutex(s: System) {
    && (s.lock.Some? ==> s.lock.value < |s.gs|)
    && (forall t :: 0 <= t < |s.gs| ==> (InSection(s.gs[t].phase) <==> s.lock == Some(t)))
  }

  /** What the sink should hold. */
  function Written(es: seq<Entry>): Str {
    if es == [] then ""
    else
      var e := es[|es| - 1];
      Written(es[..|es| - 1]) + Taken(Render(e.call), e.limit)
  }

  function By(es: seq<Entry>, t: nat): seq<Call> {
    if es == [] then []
    else
      var e := es[|es| - 1];
      By(es[..|es| - 1], t) + if e.who == t then [e.call] else []
  }

  function Writers(es: seq<Entry>): seq<nat> {
    seq(|es|, i requires 0 <= i < |es| => es[i].who)
  }

  /** The calls of a goroutine that have reached the sink. */
  function Flushed(g: Goroutine): seq<Call> {
    if g.issued == [] || g.phase.Idle? || g.phase.Wrote? || g.phase.Unlocked? || g.phase.Cleared? then g.issued
    else g.issued[..|g.issued| - 1]
  }

  /** The holder of the mutex, until its write is finished. */
  function MidWrite(s: System): seq<nat> {
    if s.lock.Some? && s.lock.value < |s.gs| && s.gs[s.lock.value].phase.Writing? then [s.lock.value] else []
  }

  /** What the sink has taken of the line being written. */
  function Partway(s: System): Str {
    if MidWrite(s) == [] then ""
    else
      var g := s.gs[s.lock.value];
      if g.issued == [] then "" else Taken(Render(Current(g)), g.phase.taken)
  }

  /** The calls written, against the order the mutex was taken in. */
  ghost predicate InLockOrder(s: System) {
    Writers(s.entries) + MidWrite(s) == s.locks
  }

  ghost predicate Output(s: System)
  {
    && s.sink == Written(s.entries) + Partway(s)
    && (forall t :: 0 <= t < |s.gs| ==> By(s.entries, t) == Flushed(s.gs[t]))
    && InLockOrder(s)
  }

  ghost predicate Inv(s: System) {
    Mutex(s) && Buffers(s) && Output(s)
  }

  /** The running goroutine's own buffer, as the step itself changes it. */
  lemma {:induction false} OwnBuffer(bufs: map<nat, Str>, pool: set<nat>, g: Goroutine, a: Action, pool': set<nat>)
    requires BufferRight(bufs, pool, g) && Ready(g, a)
    requires a.GetBuffer? ==> Content(bufs, a.b) == "" && a.b !in pool'
    requires Holds(g.phase) && !a.Put? ==> g.phase.buf !in pool'
    requires a.WriteChunk? ==> g.phase.taken + a.n <= |Content(bufs, g.phase.buf)|
    ensures BufferRight(NextBufs(bufs, g, a), pool', NextGoroutine(g, a))
  {
    match a
    case WritePair => PartialGrows(Current(g), g.phase.pairs.value);
    case WriteNewline =>
      assert g.phase.pairs.value == |Padded(Current(g).keyvals)| / 2;
    case _ =>
  }

  /** Another goroutine's buffer: neither emptied nor written to, as long as it is another buffer. */
  lemma {:induction false} OtherBufferKept(bufs: map<nat, Str>, pool: set<nat>, g: Goroutine, a: Action,
                                           other: Goroutine)
    requires BufferRight(bufs, pool, g) && BufferRight(bufs, pool, other) && Ready(g, a)
    requires Holds(g.phase) && Holds(other.phase) ==> g.phase.buf != other.phase.buf
    ensures BufferRight(NextBufs(bufs, g, a), NextPool(pool, g, a), other)
  {
    if Holds(other.phase) {
      var b := other.phase.buf;
      assert b in NextBufs(bufs, g, a) && Content(NextBufs(bufs, g, a), b) == Content(bufs, b);
      assert b !in NextPool(pool, g, a);
    }
  }

  lemma {:induction false} OtherBuffer(s: System, t: nat, a: Action, u: nat)
    requires Inv(s) && Enabled(s, t, a) && u < |s.gs| && u != t
    ensures var s' := Next(s, t, a); BufferRight(s'.bufs, s'.pool, s.gs[u])
  {
    OtherBufferKept(s.bufs, s.pool, s.gs[t], a, s.gs[u]);
  }

  lemma {:induction false} DistinctBuffers(s: System, t: nat, a: Action, u: nat)
    requires Inv(s) && Enabled(s, t, a) && u < |s.gs| && u != t && Holds(s.gs[u].phase)
    requires Holds(Next(s, t, a).gs[t].phase)
    ensures Next(s, t, a).gs[t].phase.buf != s.gs[u].phase.buf
  {
    assert BufferRight(s.bufs, s.pool, s.gs[u]);
    if Holds(s.gs[t].phase) {
      assert s.gs[t].phase.buf != s.gs[u].phase.buf;
    }
  }

  lemma {:induction false} PoolEmpty(bufs: map<nat, Str>, pool: set<nat>, g: Goroutine, a: Action)
    requires AllEmpty(bufs, pool) && BufferRight(bufs, pool, g) && Ready(g, a)
    ensures AllEmpty(NextBufs(bufs, g, a), NextPool(pool, g, a))
  {
    if a.Put? {
      assert bufs[g.phase.buf] == "";
    } else if Holds(g.phase) {
      var bufs' := NextBufs(bufs, g, a);
      assert forall b :: b in pool ==> b != g.phase.buf && b in bufs' && bufs'[b] == bufs[b];
    }
  }

  lemma {:induction false} BuffersKept(s: System, t: nat, a: Action)
    requires Inv(s) && Enabled(s, t, a)
    ensures Buffers(Next(s, t, a))
  {
    var s' := Next(s, t, a);
    assert forall u :: 0 <= u < |s.gs| && u != t ==> s'.gs[u] == s.gs[u];
    assert BufferRight(s.bufs, s.pool, s.gs[t]);
    PoolEmpty(s.bufs, s.pool, s.gs[t], a);
    OwnBuffer(s.bufs, s.pool, s.gs[t], a, s'.pool);
    forall u | 0 <= u < |s.gs| ensures BufferRight(s'.bufs, s'.pool, s'.gs[u]) {
      if u != t { OtherBuffer(s, t, a, u); }
    }
    forall u, w | 0 <= u < w < |s.gs| && Holds(s'.gs[u].phase) && Holds(s'.gs[w].phase)
      ensures s'.gs[u].phase.buf != s'.gs[w].phase.buf
    {
      if u == t { DistinctBuffers(s, t, a, w); }
      if w == t { DistinctBuffers(s, t, a, u); }
    }
  }

  lemma {:induction false} MutexKept(s: System, t: nat, a: Action)
    requires Mutex(s) && Enabled(s, t, a)
    ensures Mutex(Next(s, t, a))
  {
    var s' := Next(s, t, a);
    assert forall u :: 0 <= u < |s.gs| && u != t ==> s'.gs[u] == s.gs[u];
    assert InSection(s.gs[t].phase) <==> s.lock == Some(t);
  }

  lemma {:induction false} FlushedKept(g: Goroutine, a: Action)
    requires Ready(g, a)
    ensures Flushed(NextGoroutine(g, a)) == if a.WriteEnd? then Flushed(g) + [Current(g)] else Flushed(g)
  {
  }

  lemma {:induction false} WrittenGrows(es: seq<Entry>, e: Entry, t: nat)
    ensures Written(es + [e]) == Written(es) + Taken(Render(e.call), e.limit)
    ensures By(es + [e], t) == By(es, t) + if e.who == t then [e.call] else []
    ensures Writers(es + [e]) == Writers(es) + [e.who]
  {
    assert (es + [e])[..|es|] == es;
  }

  /** The line in progress is that of the goroutine inside Write, when it holds the mutex. */
  lemma {:induction false} WritersLine(s: System, t: nat)
    requires t < |s.gs| && s.gs[t].phase.Writing? && s.gs[t].issued != [] && s.lock == Some(t)
    ensures Partway(s) == Taken(Render(Current(s.gs[t])), s.gs[t].phase.taken)
  {
  }

  /** The writer's own steps: the sink gets the next bytes of its line, which nobody else is writing. */
  lemma {:induction false} ChunkKept(s: System, t: nat, n: nat, line: Str, m: nat)
    requires Enabled(s, t, WriteChunk(n)) && s.lock == Some(t)
    requires line == Content(s.bufs, s.gs[t].phase.buf) == Render(Current(s.gs[t])) && m == s.gs[t].phase.taken
    ensures Next(s, t, WriteChunk(n)).sink == s.sink + line[m..][..n]
    ensures Partway(Next(s, t, WriteChunk(n))) == Partway(s) + line[m..][..n]
  {
    var g, s' := s.gs[t], Next(s, t, WriteChunk(n));
    ChunkGrows(line, m, n);
    assert s'.gs[t] == Goroutine(Writing(g.phase.buf, m + n), g.issued) && s'.lock == Some(t);
    WritersLine(s, t);
    WritersLine(s', t);
  }

  lemma {:induction false} Reassociate(a: Str, b: Str, c: Str)
    ensures a + b + c == a + (b + c)
  {
  }

  lemma {:induction false} EndKept(s: System, t: nat)
    requires Enabled(s, t, WriteEnd) && s.lock == Some(t)
    ensures Partway(Next(s, t, WriteEnd)) == ""
    ensures Written(Next(s, t, WriteEnd).entries) == Written(s.entries) + Partway(s)
    ensures Next(s, t, WriteEnd).sink == s.sink
  {
    var g := s.gs[t];
    WritersLine(s, t);
    WrittenGrows(s.entries, Entry(t, Current(g), g.phase.taken), t);
  }

  lemma {:induction false} WriterKept(s: System, t: nat, a: Action)
    requires Mutex(s) && Enabled(s, t, a) && BufferRight(s.bufs, s.pool, s.gs[t])
    requires s.gs[t].phase.Writing? && s.sink == Written(s.entries) + Partway(s)
    ensures Next(s, t, a).sink == Written(Next(s, t, a).entries) + Partway(Next(s, t, a))
  {
    var g := s.gs[t];
    assert s.lock == Some(t) by { assert InSection(g.phase); }
    if a.WriteChunk? {
      var line, m := Render(Current(g)), g.phase.taken;
      ChunkKept(s, t, a.n, line, m);
      Reassociate(Written(s.entries), Partway(s), line[m..][..a.n]);
    } else {
      EndKept(s, t);
      assert Written(Next(s, t, a).entries) + "" == Written(Next(s, t, a).entries);
    }
  }

  /** No step of another goroutine touches the line being written: the mutex keeps it out of the sink. */
  lemma {:induction false} OthersKept(s: System, t: nat, a: Action)
    requires Mutex(s) && Enabled(s, t, a) && !s.gs[t].phase.Writing?
    ensures Partway(Next(s, t, a)) == Partway(s)
  {
    var s' := Next(s, t, a);
    assert InSection(s.gs[t].phase) <==> s.lock == Some(t);
    if a.Lock? {
      assert Partway(s) == "" && Partway(s') == "";
    } else if s.lock.Some? && s.lock.value != t {
      assert s'.gs[s.lock.value] == s.gs[s.lock.value] && s'.lock == s.lock;
    }
  }

  lemma {:induction false} SinkKept(s: System, t: nat, a: Action)
    requires Mutex(s) && Enabled(s, t, a) && BufferRight(s.bufs, s.pool, s.gs[t])
    requires s.sink == Written(s.entries) + Partway(s)
    ensures Next(s, t, a).sink == Written(Next(s, t, a).entries) + Partway(Next(s, t, a))
  {
    if s.gs[t].phase.Writing? {
      WriterKept(s, t, a);
    } else {
      OthersKept(s, t, a);
    }
  }

  lemma {:induction false} ChunkGrows(line: Str, taken: nat, n: nat)
    requires taken + n <= |line|
    ensures line[taken..taken + n] == line[taken..][..n]
    ensures Taken(line, taken) + line[taken..][..n] == Taken(line, taken + n)
  {
  }

  lemma {:induction false} CallsKept(s: System, t: nat, a: Action, u: nat)
    requires Mutex(s) && Output(s) && Enabled(s, t, a) && u < |s.gs|
    ensures By(Next(s, t, a).entries, u) == Flushed(Next(s, t, a).gs[u])
  {
    FlushedKept(s.gs[t], a);
    if a.WriteEnd? { WrittenGrows(s.entries, Entry(t, Current(s.gs[t]), s.gs[t].phase.taken), u); }
  }

  lemma {:induction false} LockOrderKept(s: System, t: nat, a: Action)
    requires Mutex(s) && InLockOrder(s) && Enabled(s, t, a)
    ensures InLockOrder(Next(s, t, a))
  {
    var g, s' := s.gs[t], Next(s, t, a);
    assert InSection(g.phase) <==> s.lock == Some(t);
    if a.WriteEnd? {
      assert MidWrite(s) == [t] && MidWrite(s') == [];
      WrittenGrows(s.entries, Entry(t, Current(g), g.phase.taken), t);
    } else if a.Lock? {
      assert MidWrite(s) == [] && MidWrite(s') == [t];
    } else {
      assert MidWrite(s') == MidWrite(s);
    }
  }

  lemma {:induction false} OutputKept(s: System, t: nat, a: Action)
    requires Mutex(s) && Output(s) && Enabled(s, t, a)
    requires BufferRight(s.bufs, s.pool, s.gs[t])
    ensures Output(Next(s, t, a))
  {
    SinkKept(s, t, a);
    forall u | 0 <= u < |s.gs| ensures By(Next(s, t, a).entries, u) == Flushed(Next(s, t, a).gs[u]) {
      CallsKept(s, t, a, u);
    }
    LockOrderKept(s, t, a);
  }

  lemma {:induction false} NextKept(s: System, t: nat, a: Action)
    requires Inv(s) && Enabled(s, t, a)
    ensures Inv(Next(s, t, a))
  {
    BuffersKept(s, t, a);
    MutexKept(s, t, a);
    assert BufferRight(s.bufs, s.pool, s.gs[t]);
    OutputKept(s, t, a);
  }

  /** The garbage collector takes pooled buffers only. */
  lemma {:induction false} CollectKept(s: System, kept: set<nat>)
    requires Inv(s) && kept <= s.pool
    ensures Inv(s.(pool := kept))
  {
    forall u | 0 <= u < |s.gs| ensures BufferRight(s.bufs, kept, s.gs[u]) {
      assert BufferRight(s.bufs, s.pool, s.gs[u]);
    }
  }

  lemma {:induction false} StepKept(s: System, s': System)
    requires Inv(s) && Step(s, s')
    ensures Inv(s')
  {
    if t: nat, a :| Enabled(s, t, a) && s' == Next(s, t, a) {
      NextKept(s, t, a);
    } else {
      var kept: set<nat> :| kept <= s.pool && s' == s.(pool := kept);
      CollectKept(s, kept);
    }
  }

  lemma {:induction false} RunKept(n: nat, trace: seq<System>)
    requires Run(n, trace)
    ensures Inv(trace[|trace| - 1])
  {
    if |trace| > 1 {
      var init := trace[..|trace| - 1];
      RunKept(n, init);
      StepKept(init[|init| - 1], trace[|trace| - 1]);
    }
  }

  function Lines(calls: seq<Call>): Str {
    if calls == [] then "" else Lines(calls[..|calls| - 1]) + Render(calls[|calls| - 1])
  }

  function Calls(es: seq<Entry>): seq<Call> {
    seq(|es|, i requires 0 <= i < |es| => es[i].call)
  }

  lemma {:induction false} WrittenWhole(es: seq<Entry>)
    requires forall i :: 0 <= i < |es| ==> es[i].limit >= |Render(es[i].call)|
    ensures Written(es) == Lines(Calls(es))
  {
    if es != [] {
      WrittenWhole(es[..|es| - 1]);
      assert Calls(es)[..|es| - 1] == Calls(es[..|es| - 1]);
    }
  }

  /**
   * However the calls interleave, and in however many pieces the writer takes each line, the sink
   * is the lines of the finished writes, one after another and never mixed, in the order the mutex
   * was taken, followed by what was taken so far of the line the holder of the mutex is writing.
   * Each goroutine's calls appear once each in the order it made them. A writer that fails part
   * way cuts only its own line short.
   */
  lemma {:induction false} LineAtomicity(n: nat, trace: seq<System>)
    requires Run(n, trace)
    ensures var s := trace[|trace| - 1];
            && s.sink == Written(s.entries) + Partway(s)
            && (forall t :: 0 <= t < |s.gs| ==> By(s.entries, t) == Flushed(s.gs[t]))
            && Writers(s.entries) + MidWrite(s) == s.locks
            && ((forall i :: 0 <= i < |s.entries| ==> s.entries[i].limit >= |Render(s.entries[i].call)|) ==>
                s.sink == Lines(Calls(s.entries)) + Partway(s))
  {
    RunKept(n, trace);
    var s := trace[|trace| - 1];
    if forall i :: 0 <= i < |s.entries| ==> s.entries[i].limit >= |Render(s.entries[i].call)| {
      WrittenWhole(s.entries);
    }
  }

  /** The line in progress belongs to the one goroutine that holds the mutex; with it free there is none. */
  lemma {:induction false} PartwayIsHolders(n: nat, trace: seq<System>)
    requires Run(n, trace)
    ensures var s := trace[|trace| - 1];
            && (s.lock.None? ==> Partway(s) == "" && Writers(s.entries) == s.locks)
            && (forall t :: 0 <= t < |s.gs| && s.gs[t].phase.Writing? ==>
                  s.lock == Some(t) && s.gs[t].issued != [] && s.gs[t].phase.taken <= |Render(Current(s.gs[t]))|
                  && Partway(s) == Render(Current(s.gs[t]))[..s.gs[t].phase.taken])
  {
    RunKept(n, trace);
    var s := trace[|trace| - 1];
    assert s.lock.None? ==> Writers(s.entries) + [] == Writers(s.entries);
    forall t | 0 <= t < |s.gs| && s.gs[t].phase.Writing?
      ensures s.lock == Some(t) && s.gs[t].issued != [] && s.gs[t].phase.taken <= |Render(Current(s.gs[t]))|
      ensures Partway(s) == Render(Current(s.gs[t]))[..s.gs[t].phase.taken]
    {
      assert InSection(s.gs[t].phase) && BufferRight(s.bufs, s.pool, s.gs[t]);
    }
  }

  /** No two goroutines hold a buffer, none is held and pooled at once, and pooled buffers are empty. */
  lemma {:induction false} BufferOwnership(n: nat, trace: seq<System>)
    requires Run(n, trace)
    ensures var s := trace[|trace| - 1];
            && (forall t, u :: 0 <= t < u < |s.gs| && Holds(s.gs[t].phase) && Holds(s.gs[u].phase) ==>
                  s.gs[t].phase.buf != s.gs[u].phase.buf)
            && (forall t :: 0 <= t < |s.gs| && Holds(s.gs[t].phase) ==> s.gs[t].phase.buf !in s.pool)
            && (forall b :: b in s.pool ==> b in s.bufs && s.bufs[b] == "")
  {
    RunKept(n, trace);
    var s := trace[|trace| - 1];
    forall t | 0 <= t < |s.gs| && Holds(s.gs[t].phase) ensures s.gs[t].phase.buf !in s.pool {
      assert BufferRight(s.bufs, s.pool, s.gs[t]);
    }
  }

  /** At most one goroutine is between taking and releasing the mutex. */
  lemma {:induction false} OneWriter(n: nat, trace: seq<System>, t: nat, u: nat)
    requires Run(n, trace)
    requires t < |trace[|trace| - 1].gs| && InSection(trace[|trace| - 1].gs[t].phase)
    requires u < |trace[|trace| - 1].gs| && InSection(trace[|trace| - 1].gs[u].phase)
    ensures t == u
  {
    RunKept(n, trace);
  }

  lemma {:induction false} FreshBuffer(used: set<nat>) returns (b: nat)
    ensures forall x :: x in used ==> x < b
  {
    b := 0;
    var rest := used;
    while rest != {}
      invariant rest <= used && forall x :: x in used && x !in rest ==> x < b
    {
      var x :| x in rest;
      b := if x < b then b else x + 1;
      rest := rest - {x};
    }
  }

  /** The step a goroutine inside a call takes next; b is a buffer nobody has seen. */
  function Onward(g: Goroutine, b: nat): Action
    requires g.issued != [] && !g.phase.Idle?
  {
    match g.phase
    case Entered => GetBuffer(b)
    case Formatting(_, None) => WriteLevel
    case Formatting(_, Some(k)) => if 2 * k < |Padded(Current(g).keyvals)| then WritePair else WriteNewline
    case Formatted(_) => Lock
    case Writing(_, n) => if n < |Render(Current(g))| then WriteChunk(|Render(Current(g))| - n) else WriteEnd
    case Wrote(_) => Unlock
    case Unlocked(_) => Reset
    case Cleared(_) => Put
  }

  lemma {:induction false} OnwardReady(g: Goroutine, b: nat)
    requires g.issued != [] && !g.phase.Idle?
    ensures Ready(g, Onward(g, b)) && (Onward(g, b).Lock? <==> g.phase.Formatted?)
    ensures Onward(g, b).GetBuffer? ==> Onward(g, b).b == b
  {
  }

  /** A goroutine inside a call can go on, unless it waits for the mutex. */
  lemma {:induction false} CanGoOn(s: System, t: nat)
    requires t < |s.gs| && BufferRight(s.bufs, s.pool, s.gs[t]) && !s.gs[t].phase.Idle?
    requires s.gs[t].phase.Formatted? ==> s.lock.None?
    ensures exists a :: Enabled(s, t, a)
  {
    var b := FreshBuffer(s.bufs.Keys);
    OnwardReady(s.gs[t], b);
    assert b !in s.bufs.Keys;
    assert Enabled(s, t, Onward(s.gs[t], b));
  }

  /** A goroutine inside a call is never stuck for good: it, or the holder of the mutex, can go on. */
  lemma {:induction false} NoDeadlock(n: nat, trace: seq<System>, t: nat)
    requires Run(n, trace)
    requires t < |trace[|trace| - 1].gs| && !trace[|trace| - 1].gs[t].phase.Idle?
    ensures var s := trace[|trace| - 1];
            exists u: nat, a :: Enabled(s, u, a) && (u == t || s.lock == Some(u))
  {
    RunKept(n, trace);
    var s := trace[|trace| - 1];
    var u := if s.gs[t].phase.Formatted? && s.lock.Some? then s.lock.value else t;
    assert s.lock == Some(u) ==> InSection(s.gs[u].phase);
    assert BufferRight(s.bufs, s.pool, s.gs[u]);
    CanGoOn(s, u);
  }
}
