/**
 * The lives of a server with one shard, as they run: a shard manager recovers the file of the life before, the log is
 * opened behind it, memory and log serve a script of commands while the goroutine frames and flushes, and the log is
 * closed. Every step is shown to be a step of the state machine in Durability, so that its theorems speak about what
 * really runs.
 */
module Session {
  import opened Base
  import opened Store
  import opened LogFormat
  import opened Wal
  import opened Replay
  import opened Durability
  import opened Commands
  import System
  import Recovery
  import Ring

  /** A command with its arguments, or a step of the goroutine: its next turn, or the batch is late. */
  datatype Request =
    | SetKey(key: string, value: bytes, kind: uint32)
    | Delete(key: string)
    | Remove(key: string)
    | Expire(key: string, seconds: int64, later: Time, again: Time)
    | DeleteField(key: string, withoutField: bytes -> WithoutField)
    | GetPop(key: string, withoutLast: bytes -> WithoutLast)
    | GetKey(key: string)
    | Turn
    | Late

  datatype Event = Event(request: Request, now: Time)

  /** The clock when the event is over. */
  function Over(e: Event): Time
  {
    if e.request.Expire? then e.request.again else e.now
  }

  /** The clock readings come in order. */
  ghost predicate InTime(script: seq<Event>)
  {
    && (forall i :: 0 <= i < |script| && script[i].request.Expire? ==>
          script[i].now <= script[i].request.later <= script[i].request.again)
    && forall i, j :: 0 <= i < j < |script| ==> Over(script[i]) <= script[j].now
  }

  predicate IsCommand(r: Request)
  {
    !r.Turn? && !r.Late?
  }

  /** The command of the state machine that is asked for, on what memory has at the time. */
  function Asks(r: Request, m: Mem, now: Time): Command
    requires IsCommand(r)
  {
    match r
    case SetKey(k, v, kind) => Write(k, v, kind)
    case Delete(k) => Del(k)
    case Remove(k) => DelAlways(k)
    case Expire(k, seconds, later, again) => SetDeadline(k, seconds, later, again)
    case DeleteField(k, without) => MapDelCommand(GetStep(m, k, now).1, k, without)
    case GetPop(k, without) => GPopCommand(GetStep(m, k, now).1, k, without)
    case GetKey(k) => Look(k)
  }

  /** What the goroutine does at its turn: it flushes a batch that is late or full, or else frames an entry, if any. */
  function TurnOf(o: Options, s: Shard, late: bool): Option<Action>
  {
    if late || |s.pipe.batch| >= o.batchBytes then Some(FlushAll(false))
    else if s.pipe.queue != [] then Some(FrameOne)
    else None
  }

  /** In state `s` the event is this action, if any. */
  ghost predicate IsStepOf(o: Options, s: Shard, e: Event, a: Option<Action>)
  {
    if IsCommand(e.request) then
      a.Some? && a.value.Do? && a.value.at == e.now && a.value.cmd == Asks(e.request, s.mem, e.now)
    else a == TurnOf(o, s, e.request.Late?)
  }

  // ---------- The objects show a state of the state machine ----------

  /** `pre` has been in the file since before this life. */
  ghost predicate Logs(s: Shard, wal: WalShard, pre: seq<Entry>)
    reads wal
  {
    && wal.batchBuf == s.pipe.batch && wal.batchCount == s.pipe.count && wal.file == s.pipe.file
    && wal.synced == s.pipe.synced && s.hist.filed == pre + wal.filed && wal.batched == s.hist.batched
  }

  ghost predicate Shows(s: Shard, mem: Memory, wal: WalShard, pre: seq<Entry>)
    reads mem, mem.Mem.Values, wal, set i | 0 <= i < |wal.ch| && wal.ch[i].obj != null :: wal.ch[i].obj
  {
    Seen(mem, wal) == Effect(s.mem, s.pipe.queue) && Logs(s, wal, pre)
  }

  /** The server is up and in order. */
  ghost predicate Up(mem: Memory, wal: WalShard)
    reads *
  {
    Serving(mem, wal) && wal.Valid() && wal.Bounded()
  }

  /** The state that the objects show, with a clock and moved deadlines that only the model knows. */
  ghost function State(mem: Memory, wal: WalShard, pre: seq<Entry>, now: Time, moved: Moved): Option<Shard>
    reads *
  {
    if Up(mem, wal) then Some(Shard(mem.View(), wal.View(), now, History(pre + wal.filed, wal.batched, moved)))
    else None
  }

  /** The server is up and shows the state `s`. */
  ghost predicate Ready(mem: Memory, wal: WalShard, s: Shard, pre: seq<Entry>)
    reads *
  {
    State(mem, wal, pre, s.now, s.hist.moved) == Some(s)
  }

  lemma ReadyShows(mem: Memory, wal: WalShard, s: Shard, pre: seq<Entry>)
    ensures Ready(mem, wal, s, pre) <==> Up(mem, wal) && Shows(s, mem, wal, pre)
  {
  }

  /** A command that leaves the log's file and batch alone. */
  lemma CommandShows(c: Codec, o: Options, s: Shard, mem: Memory, wal: WalShard, pre: seq<Entry>, a: Action)
    requires o.syncEveryN > 0 && a.Do? && Logs(s, wal, pre)
    requires Seen(mem, wal) == Execute(s.mem, s.pipe.queue, a.cmd, a.at, a.shared)
    ensures Shows(Next(c, o, s, a), mem, wal, pre)
  {
  }

  method ServeDelete(mem: Memory, wal: WalShard, r: Request, now: Time, ghost s: Shard,
    ghost pre: seq<Entry>) returns (ghost a: Action)
    requires Serving(mem, wal) && Usable(wal.opts) && Shows(s, mem, wal, pre) && (r.Delete? || r.Remove?)
    modifies mem, wal`ch
    ensures Serving(mem, wal) && fresh(mem.Mem.Values - old(mem.Mem.Values))
    ensures a.Do? && a.at == now && a.cmd == Asks(r, s.mem, now)
    ensures Shows(Next(wal.codec, wal.opts, s, a), mem, wal, pre)
  {
    if r.Delete? {
      DeleteKey(mem, wal, r.key, now);
      a := Do(Del(r.key), now, {});
    } else {
      RemoveKey(mem, wal, r.key, now);
      a := Do(DelAlways(r.key), now, {});
    }
    CommandShows(wal.codec, wal.opts, s, mem, wal, pre, a);
  }

  method ServeSetOrGet(mem: Memory, wal: WalShard, r: Request, now: Time, ghost s: Shard,
    ghost pre: seq<Entry>) returns (ghost a: Action)
    requires Serving(mem, wal) && Usable(wal.opts) && Shows(s, mem, wal, pre) && (r.SetKey? || r.GetKey?)
    modifies mem, wal`ch
    ensures Serving(mem, wal) && fresh(mem.Mem.Values - old(mem.Mem.Values))
    ensures a.Do? && a.at == now && a.cmd == Asks(r, s.mem, now)
    ensures Shows(Next(wal.codec, wal.opts, s, a), mem, wal, pre)
  {
    if r.SetKey? {
      StoreAndLog(mem, wal, r.key, r.value, r.kind, now);
      a := Do(Write(r.key, r.value, r.kind), now, {});
    } else {
      var _ := mem.Get(r.key, now);
      assert Waiting(wal) == old(Waiting(wal));
      a := Do(Look(r.key), now, {});
    }
    CommandShows(wal.codec, wal.opts, s, mem, wal, pre, a);
  }

  /** The commands that change an object in place, which waiting entries may share. */
  method ServeInPlace(mem: Memory, wal: WalShard, r: Request, now: Time, ghost s: Shard,
    ghost pre: seq<Entry>) returns (ghost a: Action)
    requires Serving(mem, wal) && Usable(wal.opts) && Shows(s, mem, wal, pre) && (r.DeleteField? || r.GetPop?)
    modifies mem, wal`ch, mem.Mem.Values
    ensures Serving(mem, wal) && fresh(mem.Mem.Values - old(mem.Mem.Values))
    ensures a.Do? && a.at == now && a.cmd == Asks(r, s.mem, now)
    ensures Shows(Next(wal.codec, wal.opts, s, a), mem, wal, pre)
  {
    ghost var shared := Holding(wal.ch, Live(mem, r.key));
    ghost var found := GetStep(s.mem, r.key, now).1;
    if r.DeleteField? {
      MapDeleteField(mem, wal, r.key, r.withoutField, now);
      MapDelIsAStep(s.mem, s.pipe.queue, r.key, r.withoutField, now, shared);
      a := Do(MapDelCommand(found, r.key, r.withoutField), now, shared);
    } else {
      ListGetPop(mem, wal, r.key, r.withoutLast, now);
      ListGPopIsAStep(s.mem, s.pipe.queue, r.key, r.withoutLast, now, shared);
      a := Do(GPopCommand(found, r.key, r.withoutLast), now, shared);
    }
    CommandShows(wal.codec, wal.opts, s, mem, wal, pre, a);
  }

  method ServeExpire(mem: Memory, wal: WalShard, r: Request, now: Time, ghost s: Shard,
    ghost pre: seq<Entry>) returns (ghost a: Action)
    requires Serving(mem, wal) && Usable(wal.opts) && Shows(s, mem, wal, pre) && r.Expire?
    modifies mem, wal`ch, mem.Mem.Values
    ensures Serving(mem, wal) && fresh(mem.Mem.Values - old(mem.Mem.Values))
    ensures a.Do? && a.at == now && a.cmd == Asks(r, s.mem, now)
    ensures Shows(Next(wal.codec, wal.opts, s, a), mem, wal, pre)
  {
    ghost var shared := Holding(wal.ch, Live(mem, r.key));
    var _ := ExpireKey(mem, wal, r.key, r.seconds, now, r.later, r.again);
    a := Do(SetDeadline(r.key, r.seconds, r.later, r.again), now, shared);
    CommandShows(wal.codec, wal.opts, s, mem, wal, pre, a);
  }

  /** Any command, on the memory and the log: one step of the state machine. */
  method ServeAny(mem: Memory, wal: WalShard, r: Request, now: Time, ghost s: Shard, ghost pre: seq<Entry>)
    returns (ghost a: Action)
    requires Serving(mem, wal) && Usable(wal.opts) && Shows(s, mem, wal, pre) && IsCommand(r)
    modifies mem, wal`ch, mem.Mem.Values
    ensures Serving(mem, wal) && fresh(mem.Mem.Values - old(mem.Mem.Values))
    ensures a.Do? && a.at == now && a.cmd == Asks(r, s.mem, now)
    ensures Shows(Next(wal.codec, wal.opts, s, a), mem, wal, pre)
  {
    if r.SetKey? || r.GetKey? {
      a := ServeSetOrGet(mem, wal, r, now, s, pre);
    } else if r.Delete? || r.Remove? {
      a := ServeDelete(mem, wal, r, now, s, pre);
    } else if r.Expire? {
      a := ServeExpire(mem, wal, r, now, s, pre);
    } else {
      a := ServeInPlace(mem, wal, r, now, s, pre);
    }
  }

  /** The same, at the clock time of the event. */
  method ServeCommand(mem: Memory, wal: WalShard, r: Request, now: Time, ghost s: Shard, ghost pre: seq<Entry>)
    returns (ghost a: Action, ghost s1: Shard)
    requires Ready(mem, wal, s, pre) && IsCommand(r)
    requires s.now <= now && (r.Expire? ==> now <= r.later <= r.again)
    modifies mem, wal`ch, mem.Mem.Values
    ensures Ready(mem, wal, s1, pre) && fresh(mem.Mem.Values - old(mem.Mem.Values)) && |wal.ch| <= old(|wal.ch|) + 1
    ensures StepsTo(wal.codec, wal.opts, s, a, s1) && s1.now == Over(Event(r, now))
    ensures IsStepOf(wal.opts, s, Event(r, now), Some(a))
  {
    ReadyShows(mem, wal, s, pre);
    a := ServeAny(mem, wal, r, now, s, pre);
    s1 := Next(wal.codec, wal.opts, s, a);
    QueueGrowsByOne(s, a.cmd, a.at, a.shared);
    ReadyShows(mem, wal, s1, pre);
  }

  lemma QueueGrowsByOne(s: Shard, cmd: Command, at: Time, shared: set<nat>)
    ensures |Execute(s.mem, s.pipe.queue, cmd, at, shared).queue| <= |s.pipe.queue| + 1
  {
  }

  /** The goroutine frames the next entry. */
  method ServeFrame(mem: Memory, wal: WalShard, ghost s: Shard, ghost pre: seq<Entry>) returns (ghost s1: Shard)
    requires Ready(mem, wal, s, pre) && wal.ch != [] && wal.batchBytes < wal.opts.batchBytes
    modifies wal`ch, wal`batchBuf, wal`batchBytes, wal`batchCount, wal`batched, wal`taken, wal`peak
    ensures Ready(mem, wal, s1, pre) && |wal.ch| == old(|wal.ch|) - 1
    ensures s.pipe.queue != [] && s1 == Next(wal.codec, wal.opts, s, FrameOne)
    ensures wal.Log() == old(wal.Log()) + [s.pipe.queue[0]]
  {
    ghost var filed, batched, q := wal.filed, wal.batched, wal.View().queue;
    assert q == s.pipe.queue && mem.View() == s.mem;
    wal.Drain();
    s1 := Next(wal.codec, wal.opts, s, FrameOne);
    Regroup(filed, batched, [q[0]]);
  }

  lemma Regroup<T>(a: seq<T>, b: seq<T>, c: seq<T>)
    ensures a + (b + c) == a + b + c
  {
  }

  /** The goroutine flushes. */
  method ServeFlush(mem: Memory, wal: WalShard, ghost s: Shard, ghost pre: seq<Entry>) returns (ghost s1: Shard)
    requires Ready(mem, wal, s, pre)
    modifies wal`batchBuf, wal`batchBytes, wal`file, wal`synced, wal`filed, wal`batched
    ensures Ready(mem, wal, s1, pre) && s1 == Next(wal.codec, wal.opts, s, FlushAll(false))
    ensures |wal.batchBuf| == 0 && wal.Log() == old(wal.Log())
  {
    ghost var was, filed, batched := wal.View(), wal.filed, wal.batched;
    assert was == s.pipe && mem.View() == s.mem;
    wal.FlushPipe(false);
    s1 := Next(wal.codec, wal.opts, s, FlushAll(false));
    Regroup(pre, filed, batched);
  }

  // ---------- A script ----------

  /** A turn of the goroutine: it flushes a batch that is full or late, or else frames the next entry, if any. */
  method ServeTurn(mem: Memory, wal: WalShard, late: bool, ghost s: Shard, ghost pre: seq<Entry>)
    returns (ghost a: Option<Action>, ghost s1: Shard)
    requires Ready(mem, wal, s, pre)
    modifies wal
    ensures Ready(mem, wal, s1, pre) && s1.now == s.now && |wal.ch| <= old(|wal.ch|) && old(wal.Log()) <= wal.Log()
    ensures a == TurnOf(wal.opts, s, late) && (a.None? ==> s1 == s)
    ensures a.Some? ==> AllFit(wal.codec, wal.Log()) ==> StepsTo(wal.codec, wal.opts, s, a.value, s1)
  {
    if late || wal.batchBytes >= wal.opts.batchBytes {
      s1 := ServeFlush(mem, wal, s, pre);
      a := Some(FlushAll(false));
    } else if wal.ch != [] {
      s1 := ServeFrame(mem, wal, s, pre);
      a := Some(FrameOne);
      assert s.pipe.queue[0] in wal.Log();
    } else {
      a, s1 := None, s;
    }
  }

  /** One event: at most one step of the state machine, which is possible if no record so far was too large. */
  method ServeEvent(mem: Memory, wal: WalShard, e: Event, ghost s: Shard, ghost pre: seq<Entry>)
    returns (ghost a: Option<Action>, ghost s1: Shard)
    requires Ready(mem, wal, s, pre) && s.now <= e.now
    requires e.request.Expire? ==> e.now <= e.request.later <= e.request.again
    modifies mem, mem.Mem.Values, wal
    ensures Ready(mem, wal, s1, pre) && s1.now <= Over(e) && |wal.ch| <= old(|wal.ch|) + 1
    ensures fresh(mem.Mem.Values - old(mem.Mem.Values))
    ensures old(wal.Log()) <= wal.Log()
    ensures IsStepOf(wal.opts, s, e, a) && (a.None? ==> s1 == s)
    ensures a.Some? ==> AllFit(wal.codec, wal.Log()) ==> StepsTo(wal.codec, wal.opts, s, a.value, s1)
  {
    if e.request.Turn? || e.request.Late? {
      a, s1 := ServeTurn(mem, wal, e.request.Late?, s, pre);
    } else {
      ghost var cmd;
      cmd, s1 := ServeCommand(mem, wal, e.request, e.now, s, pre);
      a := Some(cmd);
    }
  }

  /**
   * The events served so far are these steps of the run, in this order: `at` are the states in which they came. No
   * command was run that nobody asked for.
   */
  ghost predicate Follows(o: Options, run: seq<Action>, ss: seq<Shard>, es: seq<Event>, at: seq<nat>)
    requires |ss| == |run| + 1
  {
    && |at| == |es|
    && (forall i :: 0 <= i < |at| ==> FollowsAt(o, run, ss, es[i], at[i]))
    && (forall i, j :: 0 <= i < j < |at| ==> at[i] <= at[j] && (Acts(o, run, ss, es[i], at[i]) ==> at[i] < at[j]))
    && (forall n {:trigger run[n]} :: 0 <= n < |run| && run[n].Do? ==> AskedFor(es, at, n))
  }

  ghost predicate AskedFor(es: seq<Event>, at: seq<nat>, n: nat)
    requires |at| == |es|
  {
    exists i :: 0 <= i < |at| && at[i] == n && IsCommand(es[i].request)
  }

  /** The event is a step, not a turn at which the goroutine has nothing to do. */
  ghost predicate Acts(o: Options, run: seq<Action>, ss: seq<Shard>, e: Event, n: nat)
    requires |ss| == |run| + 1 && n <= |run|
  {
    !IsStepOf(o, ss[n], e, None)
  }

  ghost predicate FollowsAt(o: Options, run: seq<Action>, ss: seq<Shard>, e: Event, n: nat)
    requires |ss| == |run| + 1
  {
    n <= |run| && (Acts(o, run, ss, e, n) ==> n < |run| && IsStepOf(o, ss[n], e, Some(run[n])))
  }

  /** The run goes on without a command. */
  lemma FollowsMore(o: Options, run: seq<Action>, ss: seq<Shard>, es: seq<Event>, at: seq<nat>, run1: seq<Action>,
                    ss1: seq<Shard>)
    requires |ss| == |run| + 1 && Follows(o, run, ss, es, at) && |run| <= |run1| && |ss1| == |run1| + 1
    requires run1[..|run|] == run && ss1[..|ss|] == ss
    requires forall n :: |run| <= n < |run1| ==> !run1[n].Do?
    ensures Follows(o, run1, ss1, es, at)
  {
    assert forall n :: 0 <= n < |run| ==> run1[n] == run[n];
    assert forall n :: 0 <= n < |ss| ==> ss1[n] == ss[n];
    forall i | 0 <= i < |at| ensures FollowsAt(o, run1, ss1, es[i], at[i]) {
      assert FollowsAt(o, run, ss, es[i], at[i]);
    }
    forall i, j | 0 <= i < j < |at| ensures at[i] <= at[j] && (Acts(o, run1, ss1, es[i], at[i]) ==> at[i] < at[j]) {
      assert Acts(o, run1, ss1, es[i], at[i]) <==> Acts(o, run, ss, es[i], at[i]);
    }
    forall n {:trigger run1[n]} | 0 <= n < |run1| && run1[n].Do? ensures AskedFor(es, at, n) {
      assert run[n] == run1[n];
    }
  }

  /** One event more, which is a step or a turn with nothing to do. */
  lemma FollowsOneMore(o: Options, run: seq<Action>, ss: seq<Shard>, es: seq<Event>, at: seq<nat>, e: Event,
                       a: Option<Action>, s1: Shard, run1: seq<Action>, ss1: seq<Shard>)
    requires |ss| == |run| + 1 && Follows(o, run, ss, es, at) && IsStepOf(o, ss[|run|], e, a)
    requires run1 == (if a.Some? then run + [a.value] else run) && ss1 == (if a.Some? then ss + [s1] else ss)
    ensures Follows(o, run1, ss1, es + [e], at + [|run|])
  {
    var es1, at1 := es + [e], at + [|run|];
    forall i | 0 <= i < |at1| ensures FollowsAt(o, run1, ss1, es1[i], at1[i]) {
      if i < |at| { assert FollowsAt(o, run, ss, es[i], at[i]); }
    }
    forall i, j | 0 <= i < j < |at1|
      ensures at1[i] <= at1[j] && (Acts(o, run1, ss1, es1[i], at1[i]) ==> at1[i] < at1[j])
    {
      assert FollowsAt(o, run, ss, es[i], at[i]);
      assert Acts(o, run1, ss1, es1[i], at1[i]) <==> Acts(o, run, ss, es[i], at[i]);
    }
    forall n {:trigger run1[n]} | 0 <= n < |run1| && run1[n].Do? ensures AskedFor(es1, at1, n) {
      if n < |run| {
        assert run[n] == run1[n] && AskedFor(es, at, n);
        var i :| 0 <= i < |at| && at[i] == n && IsCommand(es[i].request);
        assert at1[i] == n && IsCommand(es1[i].request);
      } else {
        assert at1[|at|] == n && IsCommand(es1[|at|].request);
      }
    }
  }

  /**
   * The states passed through so far, and the events served; a behaviour of the state machine if no record framed so
   * far was too large.
   */
  datatype Past = Past(run: seq<Action>, ss: seq<Shard>, log: seq<Entry>, served: seq<Event>, at: seq<nat>)
  {
    ghost predicate Lived(c: Codec, o: Options)
      requires o.syncEveryN > 0
    {
      && |ss| == |run| + 1 && ss[0] == FRESH && Story(o) == Some(served)
      && (Sound(c) ==> Behaviour(c, o, run, ss))
    }

    /** The events served, provided that the run follows them. */
    ghost function Story(o: Options): Option<seq<Event>>
      requires |ss| == |run| + 1
    {
      if Follows(o, run, ss, served, at) then Some(served) else None
    }

    ghost predicate Sound(c: Codec)
    {
      Faithful(c) && AllFit(c, log)
    }

    function Last(): Shard
      requires |ss| == |run| + 1
    {
      ss[|run|]
    }

    function Then(a: Option<Action>, s1: Shard, more: seq<Entry>): Past
    {
      if a.Some? then Past(run + [a.value], ss + [s1], log + more, served, at)
      else Past(run, ss, log + more, served, at)
    }

    function Serving(e: Event, a: Option<Action>, s1: Shard, more: seq<Entry>): Past
    {
      Then(a, s1, more).(served := served + [e], at := at + [|run|])
    }
  }

  lemma FitBefore(c: Codec, log: seq<Entry>, more: seq<Entry>)
    requires AllFit(c, log + more)
    ensures AllFit(c, log) && AllFit(c, more)
  {
    assert forall e :: e in log ==> e in log + more;
    assert forall e :: e in more ==> e in log + more;
  }

  lemma BehaviourSnoc(c: Codec, o: Options, run: seq<Action>, ss: seq<Shard>, a: Action, s1: Shard)
    requires o.syncEveryN > 0 && Behaviour(c, o, run, ss) && StepsTo(c, o, ss[|run|], a, s1)
    ensures Behaviour(c, o, run + [a], ss + [s1])
  {
    var run1, ss1 := run + [a], ss + [s1];
    forall i {:trigger run1[i]} | 0 <= i < |run1| ensures StepsTo(c, o, ss1[i], run1[i], ss1[i + 1]) {
      if i < |run| { assert StepsTo(c, o, ss[i], run[i], ss[i + 1]); }
    }
  }

  /** One event more. */
  lemma LivedOneMore(c: Codec, o: Options, p: Past, e: Event, a: Option<Action>, s1: Shard, more: seq<Entry>)
    requires o.syncEveryN > 0 && p.Lived(c, o) && IsStepOf(o, p.Last(), e, a) && (a.None? ==> s1 == p.Last())
    requires a.Some? && Faithful(c) && AllFit(c, p.log + more) ==> StepsTo(c, o, p.Last(), a.value, s1)
    ensures var p1 := p.Serving(e, a, s1, more); p1.Lived(c, o) && p1.Last() == s1
  {
    var p1 := p.Serving(e, a, s1, more);
    FollowsOneMore(o, p.run, p.ss, p.served, p.at, e, a, s1, p1.run, p1.ss);
    if p1.Sound(c) {
      FitBefore(c, p.log, more);
      if a.Some? {
        BehaviourSnoc(c, o, p.run, p.ss, a.value, s1);
      }
    }
  }

  /** One step more that no event asked for. */
  lemma LivedOnItsOwn(c: Codec, o: Options, p: Past, a: Action, s1: Shard)
    requires o.syncEveryN > 0 && p.Lived(c, o) && !a.Do?
    requires p.Sound(c) ==> StepsTo(c, o, p.Last(), a, s1)
    ensures var p1 := p.Then(Some(a), s1, []); p1.Lived(c, o) && p1.Last() == s1 && p1.log == p.log
  {
    var p1 := p.Then(Some(a), s1, []);
    assert p.log + [] == p.log;
    FollowsMore(o, p.run, p.ss, p.served, p.at, p1.run, p1.ss);
    if p1.Sound(c) {
      BehaviourSnoc(c, o, p.run, p.ss, a, s1);
    }
  }

  // ---------- A life ----------

  /** The state of a server that is up, with `p` behind it, of which `log` was framed in earlier lives. */
  ghost function Current(mem: Memory, wal: WalShard, p: Past, log: seq<Entry>, pre: seq<Entry>): Option<Shard>
    reads *
  {
    if Usable(wal.opts) && p.Lived(wal.codec, wal.opts) && Ready(mem, wal, p.Last(), pre) && p.log == log + wal.Log()
    then Some(p.Last())
    else None
  }

  /** One event more. */
  method ServeNext(mem: Memory, wal: WalShard, e: Event, ghost p: Past, ghost log: seq<Entry>, ghost pre: seq<Entry>)
    returns (ghost p1: Past)
    requires Current(mem, wal, p, log, pre).Some? && p.Last().now <= e.now
    requires e.request.Expire? ==> e.now <= e.request.later <= e.request.again
    modifies mem, mem.Mem.Values, wal
    ensures Current(mem, wal, p1, log, pre).Some? && Current(mem, wal, p1, log, pre).value.now <= Over(e)
    ensures |wal.ch| <= old(|wal.ch|) + 1 && fresh(mem.Mem.Values - old(mem.Mem.Values))
    ensures p1.served == p.served + [e]
  {
    ghost var was := wal.Log();
    ghost var a, s1 := ServeEvent(mem, wal, e, p.Last(), pre);
    ghost var more := wal.Log()[|was|..];
    assert wal.Log() == was + more;
    FitAfter(wal.codec, log, was, more);
    LivedOneMore(wal.codec, wal.opts, p, e, a, s1, more);
    Regroup(log, was, more);
    p1 := p.Serving(e, a, s1, more);
  }

  lemma FitAfter(c: Codec, before: seq<Entry>, log: seq<Entry>, more: seq<Entry>)
    ensures AllFit(c, before + log + more) ==> AllFit(c, log + more)
  {
    assert forall e :: e in log + more ==> e in before + log + more;
  }

  /** When the first `i` events are over. */
  function OverBy(start: Time, script: seq<Event>, i: nat): Time
    requires i <= |script|
  {
    if i == 0 then start else Over(script[i - 1])
  }

  /** What has been served after the first `i` events. */
  function ServedBy(before: seq<Event>, script: seq<Event>, i: nat): seq<Event>
    requires i <= |script|
  {
    if i == 0 then before else ServedBy(before, script, i - 1) + [script[i - 1]]
  }

  lemma {:induction false} ServedByIs(before: seq<Event>, script: seq<Event>, i: nat)
    requires i <= |script|
    ensures ServedBy(before, script, i) == before + script[..i]
  {
    if i > 0 {
      ServedByIs(before, script, i - 1);
      assert script[..i] == script[..i - 1] + [script[i - 1]];
    }
  }

  /** How a script stands after its first `i` events, provided that the server is up and in time. */
  ghost function Standing(mem: Memory, wal: WalShard, p: Past, log: seq<Entry>, pre: seq<Entry>, start: Time,
                          before: seq<Event>, script: seq<Event>, i: nat): Option<Shard>
    reads *
  {
    var s := Current(mem, wal, p, log, pre);
    if i <= |script| && s.Some? && s.value.now <= OverBy(start, script, i) && |wal.ch| <= i
       && p.served == ServedBy(before, script, i)
    then s else None
  }

  /** The next event of a script. */
  method ServeNextOf(mem: Memory, wal: WalShard, script: seq<Event>, i: nat, ghost next: nat, ghost start: Time,
                     ghost before: seq<Event>, ghost p: Past, ghost log: seq<Entry>, ghost pre: seq<Entry>)
    returns (ghost p1: Past)
    requires i < |script| && next == i + 1 && InTime(script) && start <= script[0].now
    requires Standing(mem, wal, p, log, pre, start, before, script, i).Some?
    modifies mem, mem.Mem.Values, wal
    ensures Standing(mem, wal, p1, log, pre, start, before, script, next).Some?
    ensures fresh(mem.Mem.Values - old(mem.Mem.Values))
  {
    assert i > 0 ==> Over(script[i - 1]) <= script[i].now;
    p1 := ServeNext(mem, wal, script[i], p, log, pre);
  }

  /** Any script, on a server that is up. */
  method ServeScript(mem: Memory, wal: WalShard, script: seq<Event>, ghost p: Past, ghost log: seq<Entry>,
                     ghost pre: seq<Entry>) returns (ghost p1: Past)
    requires Current(mem, wal, p, log, pre).Some? && InTime(script) && wal.ch == []
    requires script != [] ==> Current(mem, wal, p, log, pre).value.now <= script[0].now
    modifies mem, mem.Mem.Values, wal
    ensures Current(mem, wal, p1, log, pre).Some? && |wal.ch| <= |script|
    ensures Current(mem, wal, p1, log, pre).value.now <= OverBy(p.Last().now, script, |script|)
    ensures p1.served == p.served + script
  {
    p1 := ServeAll(mem, wal, script, p.Last().now, p.served, p, log, pre);
    ServedByIs(p.served, script, |script|);
    assert script[..|script|] == script;
  }

  method ServeAll(mem: Memory, wal: WalShard, script: seq<Event>, ghost start: Time, ghost before: seq<Event>,
                  ghost p: Past, ghost log: seq<Entry>, ghost pre: seq<Entry>) returns (ghost p1: Past)
    requires InTime(script) && (script != [] ==> start <= script[0].now)
    requires Standing(mem, wal, p, log, pre, start, before, script, 0).Some?
    modifies mem, mem.Mem.Values, wal
    ensures Standing(mem, wal, p1, log, pre, start, before, script, |script|).Some?
  {
    p1 := p;
    var i := 0;
    while i < |script|
      invariant Standing(mem, wal, p1, log, pre, start, before, script, i).Some? && i <= |script|
      invariant fresh(mem.Mem.Values - old(mem.Mem.Values))
    {
      ghost var was := mem.Mem.Values;
      var next := i + 1;
      p1 := ServeNextOf(mem, wal, script, i, next, start, before, p1, log, pre);
      assert mem.Mem.Values - old(mem.Mem.Values) <= (mem.Mem.Values - was) + (was - old(mem.Mem.Values));
      i := next;
    }
  }

  lemma BehaviourAppend(c: Codec, o: Options, run: seq<Action>, ss: seq<Shard>, run1: seq<Action>, ss1: seq<Shard>)
    requires o.syncEveryN > 0 && Behaviour(c, o, run, ss) && Behaviour(c, o, run1, ss1) && ss[|run|] == ss1[0]
    ensures Behaviour(c, o, run + run1, ss[..|run|] + ss1)
  {
    var run2, ss2 := run + run1, ss[..|run|] + ss1;
    forall i {:trigger run2[i]} | 0 <= i < |run2| ensures StepsTo(c, o, ss2[i], run2[i], ss2[i + 1]) {
      if i < |run| {
        assert run2[i] == run[i] && ss2[i] == ss[i] && ss2[i + 1] == ss[i + 1];
      } else {
        assert run2[i] == run1[i - |run|] && ss2[i] == ss1[i - |run|] && ss2[i + 1] == ss1[i - |run| + 1];
      }
    }
  }

  /** The file of a drained state holds the frames of all its records. */
  lemma DrainedFile(c: Codec, s: Shard)
    requires Faithful(c) && Inv(c, s) && Drained(s)
    ensures s.pipe.file == Frames(c, Records(s)) && s.pipe.file == Frames(c, s.hist.filed)
  {
    DrainedIsFiled(c, s);
    FramesOfLogged(c, Records(s));
  }

  /** Closed: nothing waits, and this is the file, the frames of everything that was logged. */
  ghost predicate Closed(c: Codec, o: Options, p: Past, file: bytes)
    requires o.syncEveryN > 0
  {
    && p.Lived(c, o) && file == Frames(c, p.log)
    && (p.Sound(c) ==> Drained(p.Last()) && Inv(c, p.Last()) && p.Last().pipe.file == file)
  }

  lemma {:induction false} PumpHasNoCommands(n: nat)
    ensures forall a :: a in Pump(n) ==> !a.Do?
  {
    if n > 0 { PumpHasNoCommands(n - 1); }
  }

  ghost function AtRest(c: Codec, o: Options, p: Past, file: bytes): Option<Shard>
    requires o.syncEveryN > 0
  {
    if Closed(c, o, p, file) then Some(p.Last()) else None
  }

  /** The run goes on until everything is flushed. */
  lemma Ending(c: Codec, o: Options, p: Past, file: bytes, more: seq<Entry>) returns (p1: Past)
    requires o.syncEveryN > 0 && p.Lived(c, o) && file == Frames(c, p.log + more)
    requires Faithful(c) && AllFit(c, p.log + more) ==>
               AllFit(c, p.Last().pipe.queue) && file == Frames(c, Records(p.Last()))
    ensures p1.log == p.log + more && Closed(c, o, p1, file)
    ensures p1.Last().mem == p.Last().mem && p1.Last().now == p.Last().now && p1.served == p.served
  {
    if Faithful(c) && AllFit(c, p.log + more) {
      FitBefore(c, p.log, more);
      var s := p.Last();
      var tail := FlushOut(c, o, s);
      p1 := Past(p.run + Pump(|s.pipe.queue|), p.ss[..|p.run|] + tail, p.log + more, p.served, p.at);
      PumpHasNoCommands(|s.pipe.queue|);
      FollowsMore(o, p.run, p.ss, p.served, p.at, p1.run, p1.ss);
      BehaviourAppend(c, o, p.run, p.ss, Pump(|s.pipe.queue|), tail);
      FreshInv(c);
      BehaviourKeepsInv(c, o, p1.run, p1.ss, |p1.run|);
      DrainedFile(c, p1.Last());
    } else {
      p1 := p.(log := p.log + more);
    }
  }

  /** Closes the log after the last command: the file has the record of everything that happened. */
  method Shutdown(mem: Memory, wal: WalShard, ticks: seq<Tick>, ghost s: Shard, ghost pre: seq<Entry>)
    requires Ready(mem, wal, s, pre) && wal.batchBytes < wal.opts.batchBytes
    requires Quiet(ticks) && |ticks| >= 2 * |wal.ch| + 2
    modifies wal
    ensures old(wal.Log()) + s.pipe.queue == wal.Log() && pre + wal.Log() == Records(s)
    ensures wal.file == wal.base + Frames(wal.codec, wal.Log()) && mem.View() == s.mem
  {
    QuietWritesNothing(ticks);
    ghost var filed, batched, q := wal.filed, wal.batched, wal.View().queue;
    assert q == s.pipe.queue && mem.View() == s.mem;
    wal.Close(ticks);
    Regroup(pre, filed, batched);
    Regroup(pre, filed + batched, q);
  }

  // ---------- Restart ----------

  /** One shard: it owns every key. */
  lemma OneShard(hash: Ring.Hash)
    ensures Recovery.Ids(1) == {"0"} && forall k :: Recovery.RouterOf(hash, 1)(k) == "0"
  {
    assert Recovery.Itoa(0) == "0";
    forall k ensures Recovery.RouterOf(hash, 1)(k) == "0" { Recovery.OwnerIsAShard(hash, 1, k); }
  }

  /** What a recovery of the one file computes. */
  lemma OneFileRecovered(c: Codec, hash: Ring.Hash, file: bytes, es: seq<Entry>, order: seq<string>,
                         clocks: System.Clocks)
    requires Parse(c, file) == Parsed(es, Clean) && Distinct(order) && forall id :: id in order ==> id == "0"
    ensures var owner := Recovery.RouterOf(hash, 1);
            var r := System.RecoverAll(c, owner, map["0" := map[]], map["0" := file], order, clocks);
            r.outcome == Clean && ("0" in order ==> r.mems["0"] == ReplayAll(map[], es, clocks("0")))
  {
    var owner := Recovery.RouterOf(hash, 1);
    var files: map<string, bytes>, mems: System.Memories := map["0" := file], map["0" := map[]];
    OneShard(hash);
    assert System.Read(c, files, "0") == Parsed(es, Clean);
    System.CleanIff(c, owner, mems, files, order, clocks);
    System.CleanIsReached(c, files, order, "0");
    System.RecoverAllByShard(c, owner, mems, files, order, clocks, "0");
  }

  /** A new manager recovers the file of its one shard. */
  method Restart(c: Codec, hash: Ring.Hash, file: bytes, clock: Clock, ghost es: seq<Entry>) returns (again: Memory)
    ensures fresh(again) && fresh(again.Mem.Values) && again.Valid()
    ensures Parse(c, file) == Parsed(es, Clean) ==> again.View() == ReplayAll(map[], es, clock)
  {
    OneShard(hash);
    var sm := new Recovery.ShardManager(hash, 1);
    ghost var blank := sm.Views();
    assert blank == map["0" := map[]];
    ghost var order;
    var alive;
    order, alive := sm.RecoverMemory(c, map["0" := file], _ => clock, 1);
    if Parse(c, file) == Parsed(es, Clean) {
      OneFileRecovered(c, hash, file, es, order, _ => clock);
    }
    again := sm.shards["0"];
  }

  // ---------- Any number of lives ----------

  /**
   * A life of the process: when the recovery at its start is over, the clock readings that recovery makes, the
   * events, and what the goroutine meets while the log is being closed.
   */
  datatype Life = Life(start: Time, clock: Clock, script: seq<Event>, ticks: seq<Tick>)
  {
    ghost predicate Valid()
    {
      && InTime(script) && (script != [] ==> start <= script[0].now)
      && Quiet(ticks) && |ticks| >= 2 * |script| + 2
    }

    function End(): Time
    {
      if script == [] then start else Over(script[|script| - 1])
    }
  }

  /** The state a life starts from. */
  function Started(mem: Mem, file: bytes, pre: seq<Entry>, start: Time): Shard
  {
    Shard(mem, Pipe([], [], 0, file, |file|), start, History(pre, [], MovedByReplay(mem, pre)))
  }

  /** A restart after a shutdown is the crash step that loses nothing. */
  lemma RestartIsCrash(c: Codec, o: Options, s: Shard, mem: Mem, start: Time, clock: Clock)
    requires Faithful(c) && o.syncEveryN > 0 && Inv(c, s) && Drained(s) && s.now <= start
    requires Parse(c, s.pipe.file) == Parsed(LoggedRecords(c, s), Clean)
    requires mem == ReplayAll(map[], LoggedRecords(c, s), clock)
    ensures StepsTo(c, o, s, Crash(|s.hist.filed|, start, clock), Started(mem, s.pipe.file, s.hist.filed, start))
  {
    DrainedFile(c, s);
    assert s.hist.filed[..|s.hist.filed|] == s.hist.filed;
  }

  /** Recovers the file, and opens the log behind it. */
  method StartUp(codec: Codec, options: Options, hash: Ring.Hash, file: bytes, l: Life, ghost p: Past)
    returns (mem: Memory, wal: WalShard, ghost p1: Past)
    requires Closed(codec, WithDefaults(options), p, file) && p.Last().now <= l.start
    ensures fresh(mem) && fresh(wal) && fresh(mem.Mem.Values)
    ensures wal.codec == codec && wal.opts == WithDefaults(options) && wal.base == file
    ensures wal.ch == [] && wal.Log() == []
    ensures Current(mem, wal, p1, p.log, p.Last().hist.filed).Some? && p1.Last().now == l.start
    ensures p1.served == p.served
  {
    ghost var o, s, pre := WithDefaults(options), p.Last(), p.Last().hist.filed;
    mem := Restart(codec, hash, file, l.clock, LoggedRecords(codec, s));
    wal := new WalShard(codec, options, file);
    ghost var a, s1 := Crash(|pre|, l.start, l.clock), Started(mem.View(), file, pre, l.start);
    assert p.log + [] == p.log && pre + [] == pre;
    if p.Sound(codec) {
      DrainedIsFiled(codec, s);
      RestartIsCrash(codec, o, s, mem.View(), l.start, l.clock);
    }
    LivedOnItsOwn(codec, o, p, a, s1);
    p1 := p.Then(Some(a), s1, []);
    assert wal.View() == s1.pipe;
  }

  /** The goroutine flushes a full batch before the log is closed. */
  method FlushIfFull(mem: Memory, wal: WalShard, ghost p: Past, ghost log: seq<Entry>, ghost pre: seq<Entry>)
    returns (ghost p1: Past)
    requires Current(mem, wal, p, log, pre).Some?
    modifies wal`batchBuf, wal`batchBytes, wal`file, wal`synced, wal`filed, wal`batched
    ensures Current(mem, wal, p1, log, pre).Some? && p1.Last().now == p.Last().now
    ensures wal.batchBytes < wal.opts.batchBytes && p1.served == p.served
  {
    p1 := p;
    if wal.batchBytes >= wal.opts.batchBytes {
      ghost var s1 := ServeFlush(mem, wal, p.Last(), pre);
      LivedOnItsOwn(wal.codec, wal.opts, p, FlushAll(false), s1);
      p1 := p.Then(Some(FlushAll(false)), s1, []);
    }
  }

  /** From up to closed. */
  method CloseDown(mem: Memory, wal: WalShard, ticks: seq<Tick>, ghost p: Past, ghost log: seq<Entry>,
                   ghost pre: seq<Entry>) returns (ghost p1: Past)
    requires Current(mem, wal, p, log, pre).Some? && Quiet(ticks) && |ticks| >= 2 * |wal.ch| + 2
    requires wal.base == Frames(wal.codec, log)
    requires Faithful(wal.codec) && AllFit(wal.codec, log) ==> wal.base == Frames(wal.codec, pre)
    modifies wal
    ensures Closed(wal.codec, wal.opts, p1, wal.file) && p1.log == log + wal.Log()
    ensures p1.Last().mem == mem.View() && p1.Last().now == p.Last().now && p1.served == p.served
  {
    p1 := FlushIfFull(mem, wal, p, log, pre);
    ghost var s, was := p1.Last(), wal.Log();
    Shutdown(mem, wal, ticks, s, pre);
    Regroup(log, was, s.pipe.queue);
    FitAround(wal.codec, log, was, s.pipe.queue);
    FramesAppend(wal.codec, pre, wal.Log());
    FramesAppend(wal.codec, log, wal.Log());
    p1 := Ending(wal.codec, wal.opts, p1, wal.file, s.pipe.queue);
  }

  lemma FitAround(c: Codec, a: seq<Entry>, b: seq<Entry>, q: seq<Entry>)
    ensures AllFit(c, a + b + q) ==> AllFit(c, a) && AllFit(c, q)
  {
    assert forall e :: e in a ==> e in a + b + q;
    assert forall e :: e in q ==> e in a + b + q;
  }

  /** A life from the end of the recovery to the closed log. */
  method ServeAndClose(mem: Memory, wal: WalShard, l: Life, ghost p: Past, ghost log: seq<Entry>, ghost pre: seq<Entry>)
    returns (ghost p1: Past)
    requires Current(mem, wal, p, log, pre).Some? && l.Valid() && wal.ch == [] && p.Last().now == l.start
    requires wal.base == Frames(wal.codec, log)
    requires Faithful(wal.codec) && AllFit(wal.codec, log) ==> wal.base == Frames(wal.codec, pre)
    modifies mem, mem.Mem.Values, wal
    ensures Closed(wal.codec, wal.opts, p1, wal.file) && log <= p1.log
    ensures p1.Last().mem == mem.View() && p1.Last().now <= l.End() && p1.served == p.served + l.script
  {
    p1 := ServeScript(mem, wal, l.script, p, log, pre);
    p1 := CloseDown(mem, wal, l.ticks, p1, log, pre);
  }

  /** One life of the process, from the file of the life before to the file it leaves. */
  method LiveOnce(codec: Codec, options: Options, hash: Ring.Hash, file: bytes, l: Life, ghost p: Past)
    returns (mem: Memory, left: bytes, ghost p1: Past)
    requires AtRest(codec, WithDefaults(options), p, file).Some? && l.Valid()
    requires AtRest(codec, WithDefaults(options), p, file).value.now <= l.start
    ensures AtRest(codec, WithDefaults(options), p1, left).Some?
    ensures var s := AtRest(codec, WithDefaults(options), p1, left).value; s.mem == mem.View() && s.now <= l.End()
    ensures p.log <= p1.log && p1.served == p.served + l.script
  {
    var wal;
    ghost var pre := p.Last().hist.filed;
    mem, wal, p1 := StartUp(codec, options, hash, file, l, p);
    if p.Sound(codec) {
      DrainedFile(codec, p.Last());
    }
    p1 := ServeAndClose(mem, wal, l, p1, p.log, pre);
    left := wal.file;
  }

  /** Everything that happens in the first `n` lives, in order. */
  function Scripts(lives: seq<Life>, n: nat): seq<Event>
    requires n <= |lives|
  {
    if n == 0 then [] else Scripts(lives, n - 1) + lives[n - 1].script
  }

  /** Any number of lives, from an empty server. */
  method LiveAll(codec: Codec, options: Options, hash: Ring.Hash, lives: seq<Life>)
    returns (mem: Memory, file: bytes, ghost p: Past)
    requires forall i :: 0 <= i < |lives| ==> lives[i].Valid()
    requires forall i, j :: 0 <= i < j < |lives| ==> lives[i].End() <= lives[j].start
    ensures AtRest(codec, WithDefaults(options), p, file).Some? && p.served == Scripts(lives, |lives|)
    ensures AtRest(codec, WithDefaults(options), p, file).value.mem == mem.View()
  {
    ghost var o := WithDefaults(options);
    file := [];
    mem := new Memory();
    p := Past([], [FRESH], [], [], []);
    FreshInv(codec);
    for i := 0 to |lives|
      invariant AtRest(codec, o, p, file).Some? && AtRest(codec, o, p, file).value.mem == mem.View()
      invariant AtRest(codec, o, p, file).value.now <= if i == 0 then 0 else lives[i - 1].End()
      invariant p.served == Scripts(lives, i)
    {
      mem, file, p := LiveOnce(codec, options, hash, file, lives[i], p);
    }
  }

  /** A file below 4 GiB holds no record that was too large. */
  lemma {:induction false} SmallFileFits(c: Codec, es: seq<Entry>)
    requires |Frames(c, es)| < TWO32
    ensures AllFit(c, es)
  {
    if es != [] {
      SmallFileFits(c, es[1..]);
      assert |Frame(c, es[0])| <= |Frames(c, es)|;
      assert Fits(c, es[0]);
    }
  }

  /** The run behind a closed log is one of the state machine, and recovery of its file finds its records. */
  lemma ClosedIsDurable(c: Codec, o: Options, p: Past, file: bytes, clock: Clock)
    requires o.syncEveryN > 0 && Closed(c, o, p, file) && p.Sound(c)
    ensures Behaviour(c, o, p.run, p.ss) && p.ss[0] == FRESH && Drained(p.Last())
    ensures Parse(c, file) == Parsed(LoggedRecords(c, p.Last()), Clean)
    ensures forall k :: c.utf8(k) ==>
              (At(ReplayAll(map[], LoggedRecords(c, p.Last()), clock), k) == At(p.Last().mem, k) <==>
               Kept(c, p.Last(), k, clock))
  {
    DrainedIsFiled(c, p.Last());
    forall k | c.utf8(k)
      ensures At(ReplayAll(map[], LoggedRecords(c, p.Last()), clock), k) == At(p.Last().mem, k) <==>
              Kept(c, p.Last(), k, clock)
    {
      RunIsDurable(c, o, p.run, p.ss, k, clock);
    }
  }

  /**
   * From an empty server through any number of lives - recovery of the file, any script of commands and goroutine
   * turns, shutdown - and one more recovery. The steps behind it are what the scripts ask for, in order. The file holds
   * the frames of all that was logged. As long as no record of it reached 4 GiB: the lives were a run of the state
   * machine that ended in the memory there was at the last shutdown, and the server restarted after it has under each
   * key what that memory had if and only if the key is Kept.
   */
  method LiveAndRestart(codec: Codec, options: Options, hash: Ring.Hash, lives: seq<Life>, clock: Clock)
    returns (mem: Memory, file: bytes, again: Memory, ghost p: Past)
    requires forall i :: 0 <= i < |lives| ==> lives[i].Valid()
    requires forall i, j :: 0 <= i < j < |lives| ==> lives[i].End() <= lives[j].start
    ensures |p.ss| == |p.run| + 1 && p.served == Scripts(lives, |lives|)
    ensures Follows(WithDefaults(options), p.run, p.ss, p.served, p.at)
    ensures file == Frames(codec, p.log) && (Faithful(codec) && |file| < TWO32 ==> p.Sound(codec))
    ensures var o := WithDefaults(options);
            p.Sound(codec) ==>
              && Behaviour(codec, o, p.run, p.ss) && p.ss[0] == FRESH && Drained(p.Last()) && mem.View() == p.Last().mem
              && forall k :: codec.utf8(k) ==>
                   (At(again.View(), k) == At(mem.View(), k) <==> Kept(codec, p.Last(), k, clock))
  {
    mem, file, p := LiveAll(codec, options, hash, lives);
    again := Restart(codec, hash, file, clock, LoggedRecords(codec, p.Last()));
    if |file| < TWO32 {
      SmallFileFits(codec, p.log);
    }
    if p.Sound(codec) {
      ClosedIsDurable(codec, WithDefaults(options), p, file, clock);
    }
  }
}
