/**
 * One shard of the server as a state machine: commands update memory and then put a record on the log
 * channel; records are framed, batched and flushed; the process may crash and recover. The theorems say
 * what a recovery finds, compared with live memory.
 */
module Durability {
  import opened Base
  import opened Store
  import opened LogFormat
  import opened Wal
  import opened Replay

  const MAP_KIND: uint32 := 3
  const LIST_KIND: uint32 := 5

  /**
   * The commands, by what they do to memory and log; values are those the command has computed. TTL.EXPIRE reads
   * the clock up to three times: for the expiry test, for the new deadline (`later`), and when it looks the key
   * up again to log it (`again`).
   */
  datatype Command =
    | Write(key: string, value: bytes, kind: uint32)  // SET, STR.*, NUM.*, JSON.*, LIST.*, MAP.SET: a fresh object
    | Del(key: string)                             // DELETE: logged only if the key was there
    | DelAlways(key: string)                       // MAP.DEL of a key; JSON.REMOVE, LIST.POP of what they found
    | SetDeadline(key: string, ttl: int64, later: Time, again: Time)  // TTL.EXPIRE: changes the live object, logs it
    | MapField(key: string, value: bytes)          // MAP.DEL of a field: likewise
    | ListGPop(key: string, value: bytes)          // LIST.GPOP: stores a fresh object, logs the old one
    | Look(key: string)                            // any read
    | Remaining(key: string)                       // TTL
    | Sweep                                        // CleanupExpired

  /** A record that is still waiting and points to a changed object shows the change: `shared` are their positions. */
  function Touch(q: seq<Entry>, key: string, shared: set<nat>, o: Item): (r: seq<Entry>)
    ensures |r| == |q|
  {
    seq(|q|, i requires 0 <= i < |q| =>
      if i in shared && q[i].key == key && q[i].obj.Some? then q[i].(obj := Some(o)) else q[i])
  }

  datatype Effect = Effect(mem: Mem, queue: seq<Entry>)

  function Put(key: string, o: Item): Entry
  {
    Entry(Update, key, Some(o))
  }

  /**
   * TTL.EXPIRE: on success the live object has a new deadline, shows it in the records it shares, and is logged -
   * unless the new deadline has passed before the second lookup, which then drops the key without a record.
   */
  function DeadlineEffect(m: Mem, q: seq<Entry>, k: string, ttl: int64, now: Time, later: Time, again: Time,
                          shared: set<nat>): Effect
  {
    var (m1, done) := ExpireStep(m, k, ttl, now, later);
    if !done then Effect(m1, q)
    else
      var q1 := Touch(q, k, shared, m1[k]);
      var (m2, obj) := GetStep(m1, k, again);
      match obj
      case None => Effect(m2, q1)
      case Some(o) => Effect(m2, q1 + [Put(k, o)])
  }

  /** MAP.DEL of a field: the live object gets the value and is logged. */
  function MapFieldEffect(m: Mem, q: seq<Entry>, k: string, v: bytes, now: Time, shared: set<nat>): Effect
  {
    var (m1, obj) := GetStep(m, k, now);
    match obj
    case None => Effect(m1, q)
    case Some(o) =>
      if o.kind != MAP_KIND then Effect(m1, q)
      else
        var o1 := o.(value := v);
        Effect(m1[k := o1], Touch(q, k, shared, o1) + [Put(k, o1)])
  }

  /** LIST.GPOP: memory gets a fresh object, the old one gets the value and is logged. */
  function GPopEffect(m: Mem, q: seq<Entry>, k: string, v: bytes, now: Time, shared: set<nat>): Effect
  {
    var (m1, obj) := GetStep(m, k, now);
    match obj
    case None => Effect(m1, q)
    case Some(o) =>
      if o.kind != LIST_KIND then Effect(m1, q)
      else
        var o1 := o.(value := v);
        Effect(SetStep(m1, k, v, LIST_KIND), Touch(q, k, shared, o1) + [Put(k, o1)])
  }

  function Execute(m: Mem, q: seq<Entry>, cmd: Command, now: Time, shared: set<nat>): Effect
  {
    match cmd
    case Write(k, v, kind) => Effect(SetStep(m, k, v, kind), q + [Put(k, Item(kind, v, 0))])
    case Del(k) =>
      var (m1, found) := DeleteStep(m, k);
      Effect(m1, if found then q + [Entry(Erase, k, None)] else q)
    case DelAlways(k) => Effect(DeleteStep(m, k).0, q + [Entry(Erase, k, None)])
    case SetDeadline(k, ttl, later, again) => DeadlineEffect(m, q, k, ttl, now, later, again, shared)
    case MapField(k, v) => MapFieldEffect(m, q, k, v, now, shared)
    case ListGPop(k, v) => GPopEffect(m, q, k, v, now, shared)
    case Look(k) => Effect(GetStep(m, k, now).0, q)
    case Remaining(k) => Effect(TTLStep(m, k, now).0, q)
    case Sweep => Effect(CleanupStep(m, now), q)
  }

  /** Clock readings of a command come in order; `End` is the last. */
  predicate Timely(cmd: Command, now: Time)
  {
    cmd.SetDeadline? ==> now <= cmd.later <= cmd.again
  }

  function End(cmd: Command, now: Time): Time
  {
    if cmd.SetDeadline? then cmd.again else now
  }

  /**
   * The keys whose deadline in memory is not the one in their last record, with the deadline in memory. LIST.GPOP
   * moves a deadline (to none), a TTL.EXPIRE that could not log does, and so does recovery.
   */
  type Moved = map<string, int64>

  function MovedAfter(moved: Moved, m: Mem, cmd: Command, now: Time): Moved
  {
    match cmd
    case Write(k, _, _) => moved - {k}
    case Del(k) => if k in m then moved - {k} else moved
    case DelAlways(k) => moved - {k}
    case SetDeadline(k, ttl, later, again) =>
      var (m1, done) := ExpireStep(m, k, ttl, now, later);
      if !done then moved
      else if GetStep(m1, k, again).1.Some? then moved - {k}
      else moved[k := m1[k].timestamp]
    case MapField(k, _) =>
      var obj := GetStep(m, k, now).1;
      if obj.Some? && obj.value.kind == MAP_KIND then moved - {k} else moved
    case ListGPop(k, _) =>
      var obj := GetStep(m, k, now).1;
      if obj.None? || obj.value.kind != LIST_KIND then moved
      else if obj.value.timestamp != 0 then moved[k := 0]
      else moved - {k}
    case _ => moved
  }

  // ---------- Memory and log agree, key by key ----------

  /** What the last record of a key, saying `o`, and the moved deadlines together say memory holds. */
  function Meant(o: Item, k: string, moved: Moved): Item
  {
    o.(timestamp := if k in moved then moved[k] else o.timestamp)
  }

  /**
   * The relation every step keeps: the last record of a key says what memory holds, up to a moved deadline,
   * except that memory may have dropped an object whose deadline has come.
   */
  ghost predicate Agreed(es: seq<Entry>, m: Mem, k: string, moved: Moved, now: Time)
  {
    var last := Last(es, k);
    if last.None? || last.value.obj.None? then k !in m && k !in moved
    else
      var o := Meant(last.value.obj.value, k, moved);
      At(m, k) == Some(o) || (k !in m && o.timestamp != 0 && now >= o.timestamp)
  }

  /** `m1` is `m` without some objects whose deadline has come. */
  ghost predicate Evicted(m: Mem, m1: Mem, now: Time)
  {
    forall k :: At(m1, k) == At(m, k) || (k in m && k !in m1 && m[k].timestamp != 0 && now >= m[k].timestamp)
  }

  lemma EvictionAgrees(es: seq<Entry>, m: Mem, m1: Mem, k: string, moved: Moved, was: Time, now: Time)
    requires Agreed(es, m, k, moved, was) && was <= now && Evicted(m, m1, now)
    ensures Agreed(es, m1, k, moved, now)
  {
    assert At(m1, k) == At(m, k) || (k in m && k !in m1 && m[k].timestamp != 0 && now >= m[k].timestamp);
  }

  lemma OperationsEvict(m: Mem, k: string, ttl: int64, now: Time, later: Time)
    ensures Evicted(m, GetStep(m, k, now).0, now)
    ensures Evicted(m, TTLStep(m, k, now).0, now)
    ensures Evicted(m, CleanupStep(m, now), now)
    ensures !ExpireStep(m, k, ttl, now, later).1 ==> Evicted(m, ExpireStep(m, k, ttl, now, later).0, now)
  {
  }

  lemma {:induction false} TouchKeepsOthers(pre: seq<Entry>, q: seq<Entry>, key: string, shared: set<nat>, o: Item,
                                            k: string)
    requires k != key
    ensures Last(pre + Touch(q, key, shared, o), k) == Last(pre + q, k)
    decreases |q|
  {
    var r := Touch(q, key, shared, o);
    if q == [] {
      assert r == q;
    } else {
      var init, e := q[..|q| - 1], q[|q| - 1];
      assert q == init + [e];
      assert r == Touch(init, key, shared, o) + [r[|q| - 1]];
      assert pre + q == (pre + init) + [e];
      assert pre + r == (pre + Touch(init, key, shared, o)) + [r[|q| - 1]];
      LastOfOneMore(pre + init, e, k);
      LastOfOneMore(pre + Touch(init, key, shared, o), r[|q| - 1], k);
      TouchKeepsOthers(pre, init, key, shared, o, k);
    }
  }

  /** Appending a record about `key`, however the waiting records about `key` change, decides `key` and nothing else. */
  lemma RecordDecides(pre: seq<Entry>, q: seq<Entry>, shared: set<nat>, o: Item, e: Entry, k: string)
    ensures Last(pre + (Touch(q, e.key, shared, o) + [e]), k) == if k == e.key then Some(e) else Last(pre + q, k)
    ensures Last(pre + (q + [e]), k) == if k == e.key then Some(e) else Last(pre + q, k)
  {
    var r := Touch(q, e.key, shared, o);
    assert pre + (r + [e]) == (pre + r) + [e];
    assert pre + (q + [e]) == (pre + q) + [e];
    LastOfOneMore(pre + r, e, k);
    LastOfOneMore(pre + q, e, k);
    if k != e.key { TouchKeepsOthers(pre, q, e.key, shared, o, k); }
  }

  /** Logging what was done to one key keeps the agreement. */
  lemma LoggingAgrees(es: seq<Entry>, es1: seq<Entry>, m: Mem, m1: Mem, e: Entry, moved: Moved, moved1: Moved,
                      k: string, now: Time)
    requires Agreed(es, m, k, moved, now)
    requires Last(es1, k) == if k == e.key then Some(e) else Last(es, k)
    requires k != e.key ==> At(m1, k) == At(m, k) && At(moved1, k) == At(moved, k)
    requires k == e.key && e.obj.None? ==> k !in m1 && k !in moved1
    requires k == e.key && e.obj.Some? ==> At(m1, k) == Some(Meant(e.obj.value, k, moved1))
    ensures Agreed(es1, m1, k, moved1, now)
  {
    if k != e.key { assert k in moved <==> At(moved, k).Some?; }
  }

  /** The deadline changed in the live object only: the records that share it show it, its last record maybe not. */
  lemma {:induction false} TouchChangesDeadline(pre: seq<Entry>, q: seq<Entry>, key: string, shared: set<nat>, o: Item)
    requires Last(pre + q, key).Some? && Last(pre + q, key).value.obj.Some?
    ensures var last := Last(pre + Touch(q, key, shared, o), key);
            last.Some? && last.value.obj.Some?
            && (last.value.obj.value == o || last == Last(pre + q, key))
    decreases |q|
  {
    var r := Touch(q, key, shared, o);
    if q == [] {
      assert r == q;
    } else {
      var init, e, e1 := q[..|q| - 1], q[|q| - 1], r[|q| - 1];
      assert q == init + [e];
      assert r == Touch(init, key, shared, o) + [e1];
      assert pre + q == (pre + init) + [e];
      assert pre + r == (pre + Touch(init, key, shared, o)) + [e1];
      LastOfOneMore(pre + init, e, key);
      LastOfOneMore(pre + Touch(init, key, shared, o), e1, key);
      if e.key != key { TouchChangesDeadline(pre, init, key, shared, o); }
    }
  }

  /** TTL.EXPIRE whose second lookup came too late: nothing was logged, the key is gone from memory. */
  lemma UnloggedDeadlineAgrees(pre: seq<Entry>, q: seq<Entry>, m: Mem, moved: Moved, was: Time,
                               cmd: Command, now: Time, shared: set<nat>, k: string)
    requires Agreed(pre + q, m, k, moved, was) && was <= now
    requires cmd.SetDeadline? && Timely(cmd, now)
    requires var (m1, done) := ExpireStep(m, cmd.key, cmd.ttl, now, cmd.later);
             done && GetStep(m1, cmd.key, cmd.again).1.None?
    ensures var f := Execute(m, q, cmd, now, shared);
            Agreed(pre + f.queue, f.mem, k, MovedAfter(moved, m, cmd, now), cmd.again)
  {
    var key := cmd.key;
    var o := ExpireStep(m, key, cmd.ttl, now, cmd.later).0[key];
    if k == key {
      TouchChangesDeadline(pre, q, key, shared, o);
    } else {
      TouchKeepsOthers(pre, q, key, shared, o, k);
      EvictionAgrees(pre + q, m, m, k, moved, was, cmd.again);
    }
  }

  lemma LoggedDeadlineAgrees(pre: seq<Entry>, q: seq<Entry>, m: Mem, moved: Moved, was: Time,
                             cmd: Command, now: Time, shared: set<nat>, k: string)
    requires Agreed(pre + q, m, k, moved, was) && was <= now
    requires cmd.SetDeadline? && Timely(cmd, now)
    requires var (m1, done) := ExpireStep(m, cmd.key, cmd.ttl, now, cmd.later);
             done && GetStep(m1, cmd.key, cmd.again).1.Some?
    ensures var f := Execute(m, q, cmd, now, shared);
            Agreed(pre + f.queue, f.mem, k, MovedAfter(moved, m, cmd, now), cmd.again)
  {
    var key := cmd.key;
    var m1 := ExpireStep(m, key, cmd.ttl, now, cmd.later).0;
    var e := Put(key, m1[key]);
    RecordDecides(pre, q, shared, m1[key], e, k);
    EvictionAgrees(pre + q, m, m, k, moved, was, cmd.again);
    LoggingAgrees(pre + q, pre + (Touch(q, key, shared, m1[key]) + [e]), m, m1, e, moved, moved - {key}, k, cmd.again);
  }

  lemma SetDeadlineAgrees(pre: seq<Entry>, q: seq<Entry>, m: Mem, moved: Moved, was: Time,
                          cmd: Command, now: Time, shared: set<nat>, k: string)
    requires Agreed(pre + q, m, k, moved, was) && was <= now
    requires cmd.SetDeadline? && Timely(cmd, now)
    ensures var f := Execute(m, q, cmd, now, shared);
            Agreed(pre + f.queue, f.mem, k, MovedAfter(moved, m, cmd, now), cmd.again)
  {
    var key := cmd.key;
    OperationsEvict(m, key, cmd.ttl, now, cmd.later);
    var (m1, done) := ExpireStep(m, key, cmd.ttl, now, cmd.later);
    if !done {
      EvictionAgrees(pre + q, m, m1, k, moved, was, now);
      EvictionAgrees(pre + q, m1, m1, k, moved, now, cmd.again);
    } else if GetStep(m1, key, cmd.again).1.None? {
      UnloggedDeadlineAgrees(pre, q, m, moved, was, cmd, now, shared, k);
    } else {
      LoggedDeadlineAgrees(pre, q, m, moved, was, cmd, now, shared, k);
    }
  }

  /** An object is rewritten to `o1` and logged so; memory becomes `m1`, which may have lost the deadline. */
  lemma LoggedRewriteAgrees(pre: seq<Entry>, q: seq<Entry>, m: Mem, m1: Mem, o1: Item, moved: Moved,
                            key: string, shared: set<nat>, k: string, now: Time)
    requires Agreed(pre + q, m, k, moved, now)
    requires k != key ==> At(m1, k) == At(m, k)
    requires At(m1, key) == Some(o1) || At(m1, key) == Some(o1.(timestamp := 0))
    ensures Agreed(pre + (Touch(q, key, shared, o1) + [Put(key, o1)]), m1, k,
                   if At(m1, key) == Some(o1) then moved - {key} else moved[key := 0], now)
  {
    RecordDecides(pre, q, shared, o1, Put(key, o1), k);
    LoggingAgrees(pre + q, pre + (Touch(q, key, shared, o1) + [Put(key, o1)]), m, m1, Put(key, o1),
                  moved, if At(m1, key) == Some(o1) then moved - {key} else moved[key := 0], k, now);
  }

  /** MAP.DEL of a field changes the live object and logs it. */
  lemma MapFieldAgrees(pre: seq<Entry>, q: seq<Entry>, m: Mem, moved: Moved, was: Time,
                       key: string, v: bytes, now: Time, shared: set<nat>, k: string)
    requires Agreed(pre + q, m, k, moved, was) && was <= now
    ensures var f := Execute(m, q, MapField(key, v), now, shared);
            Agreed(pre + f.queue, f.mem, k, MovedAfter(moved, m, MapField(key, v), now), now)
  {
    var (m1, obj) := GetStep(m, key, now);
    OperationsEvict(m, key, 0, now, now);
    EvictionAgrees(pre + q, m, m1, k, moved, was, now);
    if obj.Some? && obj.value.kind == MAP_KIND {
      var o1 := obj.value.(value := v);
      LoggedRewriteAgrees(pre, q, m, m[key := o1], o1, moved, key, shared, k, now);
    }
  }

  /** LIST.GPOP logs the old object, with the old deadline that memory no longer has. */
  lemma ListGPopAgrees(pre: seq<Entry>, q: seq<Entry>, m: Mem, moved: Moved, was: Time,
                       key: string, v: bytes, now: Time, shared: set<nat>, k: string)
    requires Agreed(pre + q, m, k, moved, was) && was <= now
    ensures var f := Execute(m, q, ListGPop(key, v), now, shared);
            Agreed(pre + f.queue, f.mem, k, MovedAfter(moved, m, ListGPop(key, v), now), now)
  {
    var (m1, obj) := GetStep(m, key, now);
    OperationsEvict(m, key, 0, now, now);
    EvictionAgrees(pre + q, m, m1, k, moved, was, now);
    if obj.Some? && obj.value.kind == LIST_KIND {
      var o1 := obj.value.(value := v);
      LoggedRewriteAgrees(pre, q, m, SetStep(m, key, v, LIST_KIND), o1, moved, key, shared, k, now);
    }
  }

  lemma PlainRecordAgrees(pre: seq<Entry>, q: seq<Entry>, m: Mem, m1: Mem, moved: Moved, was: Time,
                          now: Time, e: Entry, k: string)
    requires Agreed(pre + q, m, k, moved, was) && was <= now
    requires k != e.key ==> At(m1, k) == At(m, k)
    requires At(m1, e.key) == e.obj
    ensures Agreed(pre + (q + [e]), m1, k, moved - {e.key}, now)
  {
    RecordDecides(pre, q, {}, Item(0, [], 0), e, k);
    EvictionAgrees(pre + q, m, m, k, moved, was, now);
    LoggingAgrees(pre + q, pre + (q + [e]), m, m1, e, moved, moved - {e.key}, k, now);
  }

  /** No command disturbs the agreement, whatever waiting records share objects with memory. */
  lemma ExecuteAgrees(pre: seq<Entry>, q: seq<Entry>, m: Mem, moved: Moved, was: Time,
                      cmd: Command, now: Time, shared: set<nat>, k: string)
    requires Agreed(pre + q, m, k, moved, was) && was <= now && Timely(cmd, now)
    ensures var f := Execute(m, q, cmd, now, shared);
            Agreed(pre + f.queue, f.mem, k, MovedAfter(moved, m, cmd, now), End(cmd, now))
  {
    match cmd {
      case Write(key, v, kind) =>
        PlainRecordAgrees(pre, q, m, SetStep(m, key, v, kind), moved, was, now, Put(key, Item(kind, v, 0)), k);
      case Del(key) =>
        if key in m {
          PlainRecordAgrees(pre, q, m, m - {key}, moved, was, now, Entry(Erase, key, None), k);
        } else {
          assert m - {key} == m;
          EvictionAgrees(pre + q, m, m, k, moved, was, now);
        }
      case DelAlways(key) =>
        PlainRecordAgrees(pre, q, m, DeleteStep(m, key).0, moved, was, now, Entry(Erase, key, None), k);
      case SetDeadline(_, _, _, _) => SetDeadlineAgrees(pre, q, m, moved, was, cmd, now, shared, k);
      case MapField(key, v) => MapFieldAgrees(pre, q, m, moved, was, key, v, now, shared, k);
      case ListGPop(key, v) => ListGPopAgrees(pre, q, m, moved, was, key, v, now, shared, k);
      case Look(key) =>
        OperationsEvict(m, key, 0, now, now);
        EvictionAgrees(pre + q, m, GetStep(m, key, now).0, k, moved, was, now);
      case Remaining(key) =>
        OperationsEvict(m, key, 0, now, now);
        EvictionAgrees(pre + q, m, TTLStep(m, key, now).0, k, moved, was, now);
      case Sweep =>
        OperationsEvict(m, k, 0, now, now);
        EvictionAgrees(pre + q, m, CleanupStep(m, now), k, moved, was, now);
    }
  }

  /** Within one second of EXPIRE the object is still readable, so it is logged. */
  lemma PromptExpireIsLogged(m: Mem, key: string, ttl: int64, now: Time, later: Time, again: Time)
    requires ExpireStep(m, key, ttl, now, later).1 && again <= later + 1
    ensures var m1 := ExpireStep(m, key, ttl, now, later).0;
            key in m1 && GetStep(m1, key, again) == (m1, Some(m1[key]))
  {
  }

  lemma ExecuteKeepsProper(q: seq<Entry>, m: Mem, cmd: Command, now: Time, shared: set<nat>)
    requires AllProper(q)
    ensures AllProper(Execute(m, q, cmd, now, shared).queue)
  {
    var f := Execute(m, q, cmd, now, shared).queue;
    forall e | e in f ensures Proper(e) {
      var i :| 0 <= i < |f| && f[i] == e;
      if i < |q| { assert q[i] in q; }
    }
  }

  // ---------- The state machine ----------

  /** History, read by no step: what has been framed into the file and into the batch, and the moved deadlines. */
  datatype History = History(filed: seq<Entry>, batched: seq<Entry>, moved: Moved)

  datatype Shard = Shard(mem: Mem, pipe: Pipe, now: Time, hist: History)

  /**
   * Do: a command (atomic, its record accepted) at clock time `at`. Frame and Flush: the goroutine. Crash:
   * only the first `keep` records of the file survive, and recovery runs, reading the clock as `clock` says and
   * ending at time `at`; with everything flushed and kept this is a clean restart.
   */
  datatype Action =
    | Do(cmd: Command, at: Time, shared: set<nat>)
    | FrameOne
    | FlushAll(force: bool)
    | Crash(keep: nat, at: Time, clock: Clock)

  /** What recovery builds from a file. */
  function Recover(c: Codec, file: bytes, clock: Clock): Mem
  {
    ReplayAll(map[], Parse(c, file).entries, clock)
  }

  ghost predicate Enabled(c: Codec, s: Shard, a: Action)
  {
    match a
    case Do(cmd, at, _) => s.now <= at && Timely(cmd, at)
    case FrameOne => s.pipe.queue != [] && Fits(c, s.pipe.queue[0])
    case FlushAll(_) => true
    case Crash(keep, at, _) =>
      s.now <= at && keep <= |s.hist.filed| && s.pipe.synced <= |Frames(c, s.hist.filed[..keep])|
  }

  /** The deadline in a key's last record. */
  function LoggedDeadline(es: seq<Entry>, k: string): int64
  {
    var last := Last(es, k);
    if last.None? || last.value.obj.None? then 0 else last.value.obj.value.timestamp
  }

  /** The deadlines that recovery has moved. */
  function MovedByReplay(m: Mem, es: seq<Entry>): Moved
  {
    map k | k in m && m[k].timestamp != LoggedDeadline(es, k) :: m[k].timestamp
  }

  function Next(c: Codec, o: Options, s: Shard, a: Action): Shard
    requires o.syncEveryN > 0 && (a.FrameOne? ==> s.pipe.queue != []) && (a.Crash? ==> a.keep <= |s.hist.filed|)
  {
    var h := s.hist;
    match a
    case Do(cmd, at, shared) =>
      var f := Execute(s.mem, s.pipe.queue, cmd, at, shared);
      Shard(f.mem, s.pipe.(queue := f.queue), End(cmd, at), h.(moved := MovedAfter(h.moved, s.mem, cmd, at)))
    case FrameOne => s.(pipe := EncodeStep(c, s.pipe), hist := h.(batched := h.batched + [s.pipe.queue[0]]))
    case FlushAll(force) =>
      s.(pipe := FlushStep(o, s.pipe, force),
         hist := if s.pipe.batch == [] then h else h.(filed := h.filed + h.batched, batched := []))
    case Crash(keep, at, clock) =>
      var filed := h.filed[..keep];
      var file := Frames(c, filed);
      var mem := Recover(c, file, clock);
      Shard(mem, Pipe([], [], 0, file, |file|), at, History(filed, [], MovedByReplay(mem, filed)))
  }

  /** Everything accepted, as it is or will be framed. */
  function Records(s: Shard): seq<Entry>
  {
    s.hist.filed + s.hist.batched + s.pipe.queue
  }

  /** Of these, the records that the encoding accepts: what the file holds once everything is flushed. */
  function LoggedRecords(c: Codec, s: Shard): seq<Entry>
  {
    Logged(c, Records(s))
  }

  ghost predicate Inv(c: Codec, s: Shard)
  {
    && s.pipe.file == Frames(c, s.hist.filed) && s.pipe.batch == Frames(c, s.hist.batched)
    && s.pipe.synced <= |s.pipe.file|
    && AllProper(Records(s)) && AllFit(c, s.hist.filed + s.hist.batched)
    && forall k :: c.utf8(k) ==> Agreed(Records(s), s.mem, k, s.hist.moved, s.now)
  }

  const FRESH := Shard(map[], Pipe([], [], 0, [], 0), 0, History([], [], map[]))

  lemma FreshInv(c: Codec)
    ensures Inv(c, FRESH)
  {
  }

  lemma DoKeepsInv(c: Codec, o: Options, s: Shard, a: Action)
    requires Inv(c, s) && o.syncEveryN > 0 && a.Do? && Enabled(c, s, a)
    ensures Inv(c, Next(c, o, s, a))
  {
    var pre, q := s.hist.filed + s.hist.batched, s.pipe.queue;
    var f := Execute(s.mem, q, a.cmd, a.at, a.shared);
    assert forall e :: e in q ==> e in Records(s);
    ExecuteKeepsProper(q, s.mem, a.cmd, a.at, a.shared);
    forall e | e in pre + f.queue ensures Proper(e) { assert e in pre ==> e in Records(s); }
    var n := Next(c, o, s, a);
    forall k | c.utf8(k) ensures Agreed(pre + f.queue, f.mem, k, n.hist.moved, n.now) {
      ExecuteAgrees(pre, q, s.mem, s.hist.moved, s.now, a.cmd, a.at, a.shared, k);
    }
  }

  lemma FrameKeepsInv(c: Codec, o: Options, s: Shard)
    requires Inv(c, s) && o.syncEveryN > 0 && Enabled(c, s, FrameOne)
    ensures Inv(c, Next(c, o, s, FrameOne)) && Records(Next(c, o, s, FrameOne)) == Records(s)
  {
    var h, e := s.hist, s.pipe.queue[0];
    FramesOneMore(c, h.batched, e);
    assert h.filed + (h.batched + [e]) == (h.filed + h.batched) + [e];
    MoveFirst(h.filed, h.batched, s.pipe.queue);
    assert Records(Next(c, o, s, FrameOne)) == Records(s);
  }

  lemma FlushKeepsInv(c: Codec, o: Options, s: Shard, force: bool)
    requires Inv(c, s) && o.syncEveryN > 0
    ensures Inv(c, Next(c, o, s, FlushAll(force))) && Records(Next(c, o, s, FlushAll(force))) == Records(s)
  {
    var h := s.hist;
    FramesAppend(c, h.filed, h.batched);
    assert (h.filed + h.batched) + [] == h.filed + h.batched;
  }

  /** What recovery from these records leaves under a key. */
  lemma RecoveryFinds(c: Codec, es: seq<Entry>, clock: Clock, k: string)
    requires AllProper(es) && c.utf8(k)
    ensures At(ReplayAll(map[], Logged(c, es), clock), k) ==
            match Last(es, k)
            case None => None
            case Some(e) =>
              match e.obj
              case None => None
              case Some(o) => Some(o.(timestamp := NewDeadline(o.timestamp, ReadingOf(Logged(c, es), k, clock))))
  {
    LoggedIsLoggable(c, es);
    LoggedKeepsLast(c, es, k);
    ReplayByLast(Logged(c, es), clock, k);
  }

  lemma CrashKeepsInv(c: Codec, o: Options, s: Shard, a: Action)
    requires Faithful(c) && Inv(c, s) && o.syncEveryN > 0 && a.Crash? && Enabled(c, s, a)
    ensures Inv(c, Next(c, o, s, a))
  {
    var filed := s.hist.filed[..a.keep];
    var n := Next(c, o, s, a);
    assert Records(n) == filed && filed + [] == filed;
    assert forall e :: e in filed ==> e in Records(s) && e in s.hist.filed + s.hist.batched;
    ParseLogged(c, filed);
    forall k | c.utf8(k) ensures Agreed(filed, n.mem, k, n.hist.moved, a.at) {
      RecoveryFinds(c, filed, a.clock, k);
    }
  }

  /** Every enabled action keeps the invariant. */
  lemma NextKeepsInv(c: Codec, o: Options, s: Shard, a: Action)
    requires Faithful(c) && Inv(c, s) && o.syncEveryN > 0 && Enabled(c, s, a)
    ensures Inv(c, Next(c, o, s, a)) && s.now <= Next(c, o, s, a).now
  {
    match a {
      case Do(_, _, _) => DoKeepsInv(c, o, s, a);
      case FrameOne => FrameKeepsInv(c, o, s);
      case FlushAll(force) => FlushKeepsInv(c, o, s, force);
      case Crash(_, _, _) => CrashKeepsInv(c, o, s, a);
    }
  }

  // ---------- Durability ----------

  /**
   * When recovery gives a key back as it is in memory: always if its last record is a deletion or there is none;
   * for an object, if it is still in memory and the deadline recovery makes of the logged one is the one there.
   */
  predicate Kept(c: Codec, s: Shard, k: string, clock: Clock)
  {
    var last := Last(Records(s), k);
    last.None? || last.value.obj.None? ||
    (k in s.mem &&
     NewDeadline(last.value.obj.value.timestamp, ReadingOf(LoggedRecords(c, s), k, clock)) == s.mem[k].timestamp)
  }

  /** Recovery from the records against live memory. */
  lemma ReplayMatchesMemoryIff(c: Codec, s: Shard, k: string, clock: Clock)
    requires Inv(c, s) && c.utf8(k)
    ensures At(ReplayAll(map[], LoggedRecords(c, s), clock), k) == At(s.mem, k) <==> Kept(c, s, k, clock)
  {
    RecoveryFinds(c, Records(s), clock, k);
    assert Agreed(Records(s), s.mem, k, s.hist.moved, s.now);
  }

  /**
   * What Kept comes to for a key with an object, from the logged deadline alone. A key that was not moved: there
   * is no deadline, or it is ahead of the clock and the clock does not tick between the two readings. A key that
   * LIST.GPOP or a recovery has stripped of its deadline: exactly the other way round.
   */
  lemma KeptMeans(c: Codec, s: Shard, k: string, clock: Clock)
    requires Inv(c, s) && c.utf8(k) && Last(Records(s), k).Some? && Last(Records(s), k).value.obj.Some?
    requires var r := ReadingOf(LoggedRecords(c, s), k, clock); s.now <= r.first && r.first <= r.second
    ensures var d, r := Last(Records(s), k).value.obj.value.timestamp, ReadingOf(LoggedRecords(c, s), k, clock);
            && (k !in s.hist.moved ==>
                  (Kept(c, s, k, clock) <==> d == 0 || (r.first < d && r.first == r.second)))
            && (k in s.hist.moved && s.hist.moved[k] == 0 ==> (Kept(c, s, k, clock) <==> d <= r.first))
  {
    assert Agreed(Records(s), s.mem, k, s.hist.moved, s.now);
  }

  // ---------- What a crash may take ----------

  /** What has been synced survives every crash. */
  lemma SyncedSurvives(c: Codec, o: Options, s: Shard, a: Action, n: nat)
    requires Faithful(c) && o.syncEveryN > 0 && a.Crash? && Enabled(c, s, a)
    requires n <= |s.hist.filed| && |Frames(c, s.hist.filed[..n])| <= s.pipe.synced
    ensures Logged(c, s.hist.filed[..n]) <= LoggedRecords(c, Next(c, o, s, a))
  {
    var filed, keep := s.hist.filed, a.keep;
    assert filed[..keep] + [] + [] == filed[..keep];
    if n <= keep {
      assert filed[..keep] == filed[..n] + filed[n..keep];
      LoggedAppend(c, filed[..n], filed[n..keep]);
    } else {
      assert filed[..n] == filed[..keep] + filed[keep..n];
      FramesAppend(c, filed[..keep], filed[keep..n]);
      LoggedAppend(c, filed[..keep], filed[keep..n]);
      EmptyFramesLogNothing(c, filed[keep..n]);
      assert Logged(c, filed[..keep]) + [] == Logged(c, filed[..keep]);
    }
  }

  /** What has not been synced, and what has not been written, may be gone after a crash. */
  lemma UnsyncedMayBeLost(c: Codec, o: Options, s: Shard, n: nat, clock: Clock)
    requires o.syncEveryN > 0 && n <= |s.hist.filed| && s.pipe.synced <= |Frames(c, s.hist.filed[..n])|
    ensures exists a: Action :: a.Crash? && Enabled(c, s, a) && Records(Next(c, o, s, a)) == s.hist.filed[..n]
  {
    var a := Crash(n, s.now, clock);
    assert s.hist.filed[..n] + [] + [] == s.hist.filed[..n];
    assert Enabled(c, s, a) && Records(Next(c, o, s, a)) == s.hist.filed[..n];
  }

  /** Nothing is waiting: the state after the shard has been closed. */
  ghost predicate Drained(s: Shard)
  {
    s.pipe.queue == [] && s.pipe.batch == []
  }

  lemma LoggedInOrder(c: Codec, s: Shard)
    ensures LoggedRecords(c, s) == Logged(c, s.hist.filed) + (Logged(c, s.hist.batched) + Logged(c, s.pipe.queue))
  {
    LoggedAppend(c, s.hist.filed + s.hist.batched, s.pipe.queue);
    LoggedAppend(c, s.hist.filed, s.hist.batched);
  }

  lemma DrainedIsFiled(c: Codec, s: Shard)
    requires Faithful(c) && Inv(c, s) && Drained(s)
    ensures LoggedRecords(c, s) == Logged(c, s.hist.filed) && Loggable(c, LoggedRecords(c, s))
    ensures Frames(c, LoggedRecords(c, s)) == s.pipe.file
    ensures Parse(c, s.pipe.file) == Parsed(LoggedRecords(c, s), Clean)
  {
    LoggedInOrder(c, s);
    EmptyFramesLogNothing(c, s.hist.batched);
    FramesOfLogged(c, s.hist.filed);
    assert forall e :: e in s.hist.filed ==> e in s.hist.filed + s.hist.batched;
    LoggedIsLoggable(c, s.hist.filed);
    ParseLogged(c, s.hist.filed);
  }

  /**
   * Durability: after a shard is closed, a recovery finds under a key exactly what memory held if and only if the
   * key is Kept. (Keys the record encoding refuses are never recovered.)
   */
  lemma Durable(c: Codec, s: Shard, k: string, clock: Clock)
    requires Faithful(c) && Inv(c, s) && Drained(s)
    ensures c.utf8(k) ==> (At(Recover(c, s.pipe.file, clock), k) == At(s.mem, k) <==> Kept(c, s, k, clock))
    ensures !c.utf8(k) ==> At(Recover(c, s.pipe.file, clock), k).None?
  {
    DrainedIsFiled(c, s);
    if c.utf8(k) {
      ReplayMatchesMemoryIff(c, s, k, clock);
    } else {
      LoggedIsLoggable(c, Records(s));
      RefusedKeysAreNotLogged(c, Records(s), k);
      ReplayByLast(LoggedRecords(c, s), clock, k);
    }
  }

  // ---------- Whole runs ----------

  /** The action is possible and leads from the one state to the other. */
  ghost predicate StepsTo(c: Codec, o: Options, s: Shard, a: Action, s1: Shard)
    requires o.syncEveryN > 0
  {
    Enabled(c, s, a) && s1 == Next(c, o, s, a)
  }

  /** `ss` are the states of the run: the first one, and the one after each action. */
  ghost predicate Behaviour(c: Codec, o: Options, run: seq<Action>, ss: seq<Shard>)
    requires o.syncEveryN > 0
  {
    |ss| == |run| + 1 && forall i {:trigger run[i]} :: 0 <= i < |run| ==> StepsTo(c, o, ss[i], run[i], ss[i + 1])
  }

  lemma StepKeepsInv(c: Codec, o: Options, s: Shard, a: Action, s1: Shard)
    requires Faithful(c) && Inv(c, s) && o.syncEveryN > 0 && StepsTo(c, o, s, a, s1)
    ensures Inv(c, s1) && s.now <= s1.now
  {
    NextKeepsInv(c, o, s, a);
  }

  lemma StepOfBehaviour(c: Codec, o: Options, run: seq<Action>, ss: seq<Shard>, i: nat, j: nat)
    requires Faithful(c) && o.syncEveryN > 0 && Behaviour(c, o, run, ss) && i < |run| && j == i + 1 && Inv(c, ss[i])
    ensures Inv(c, ss[j])
  {
    assert StepsTo(c, o, ss[i], run[i], ss[j]);
    StepKeepsInv(c, o, ss[i], run[i], ss[j]);
  }

  /** The clock never runs backwards. */
  lemma {:induction false} TimePasses(c: Codec, o: Options, run: seq<Action>, ss: seq<Shard>, i: nat, j: nat)
    requires o.syncEveryN > 0 && Behaviour(c, o, run, ss) && i <= j <= |run|
    ensures ss[i].now <= ss[j].now
    decreases j
  {
    if i < j {
      TimePasses(c, o, run, ss, i, j - 1);
      assert StepsTo(c, o, ss[j - 1], run[j - 1], ss[j]);
    }
  }

  lemma BehaviourKeepsInv(c: Codec, o: Options, run: seq<Action>, ss: seq<Shard>, j: nat)
    requires Faithful(c) && o.syncEveryN > 0 && Behaviour(c, o, run, ss) && Inv(c, ss[0]) && j <= |run|
    ensures Inv(c, ss[j])
  {
    var holds := seq(|ss|, k requires 0 <= k < |ss| => Inv(c, ss[k]));
    forall k, k1 | 0 <= k < |holds| && k1 == k + 1 && k1 < |holds| && holds[k] ensures holds[k1] {
      StepOfBehaviour(c, o, run, ss, k, k1);
    }
    HoldsThroughout(holds, j);
  }

  /**
   * End to end: any run of a fresh shard - commands, framing, flushing, crashes and restarts in any order -
   * that leaves nothing waiting, and then a recovery. A key is found as memory held it if and only if it is Kept.
   */
  lemma RunIsDurable(c: Codec, o: Options, run: seq<Action>, ss: seq<Shard>, k: string, clock: Clock)
    requires Faithful(c) && o.syncEveryN > 0 && Behaviour(c, o, run, ss)
    requires ss[0] == FRESH && Drained(ss[|run|])
    ensures var s := ss[|run|];
            && (c.utf8(k) ==> (At(Recover(c, s.pipe.file, clock), k) == At(s.mem, k) <==> Kept(c, s, k, clock)))
            && (!c.utf8(k) ==> At(Recover(c, s.pipe.file, clock), k).None?)
  {
    FreshInv(c);
    BehaviourKeepsInv(c, o, run, ss, |run|);
    Durable(c, ss[|run|], k, clock);
  }

  predicate GentleAction(s: Shard, a: Action)
  {
    match a
    case Do(ListGPop(k, _), _, _) => k in s.mem ==> s.mem[k].timestamp == 0
    case Do(SetDeadline(_, _, later, again), _, _) => again <= later + 1
    case Crash(_, _, _) => false
    case _ => true
  }

  /**
   * The process does not die, LIST.GPOP is never used on a list that has a deadline, and TTL.EXPIRE never takes
   * more than a second from setting a deadline to logging it.
   */
  ghost predicate Gentle(run: seq<Action>, ss: seq<Shard>)
    requires |ss| == |run| + 1
  {
    forall i {:trigger run[i]} :: 0 <= i < |run| ==> GentleAction(ss[i], run[i])
  }

  lemma GentleStepMovesNothing(c: Codec, o: Options, s: Shard, a: Action)
    requires o.syncEveryN > 0 && Enabled(c, s, a) && GentleAction(s, a) && s.hist.moved == map[]
    ensures Next(c, o, s, a).hist.moved == map[]
  {
    var none: Moved := map[];
    assert forall k: string :: none - {k} == none;
    if a.Do? && a.cmd.SetDeadline? {
      var cmd := a.cmd;
      if ExpireStep(s.mem, cmd.key, cmd.ttl, a.at, cmd.later).1 {
        PromptExpireIsLogged(s.mem, cmd.key, cmd.ttl, a.at, cmd.later, cmd.again);
      }
    }
  }

  lemma {:induction false} GentleRunsMoveNothing(c: Codec, o: Options, run: seq<Action>, ss: seq<Shard>, j: nat)
    requires o.syncEveryN > 0 && Behaviour(c, o, run, ss) && Gentle(run, ss) && j <= |run|
    requires ss[0].hist.moved == map[]
    ensures ss[j].hist.moved == map[]
    decreases j
  {
    if j > 0 {
      GentleRunsMoveNothing(c, o, run, ss, j - 1);
      assert StepsTo(c, o, ss[j - 1], run[j - 1], ss[j]);
      GentleStepMovesNothing(c, o, ss[j - 1], run[j - 1]);
    }
  }

  /**
   * In one such process life: a key comes back as it was if and only if its last logged deadline is none, or is
   * ahead of the clock when its record is replayed, in a single second.
   */
  lemma GentleRunIsDurable(c: Codec, o: Options, run: seq<Action>, ss: seq<Shard>, k: string, clock: Clock)
    requires Faithful(c) && o.syncEveryN > 0 && Behaviour(c, o, run, ss) && Gentle(run, ss)
    requires ss[0] == FRESH && Drained(ss[|run|]) && c.utf8(k)
    requires var r := ReadingOf(LoggedRecords(c, ss[|run|]), k, clock);
             ss[|run|].now <= r.first && r.first <= r.second
    ensures var s := ss[|run|];
            var last, r := Last(Records(s), k), ReadingOf(LoggedRecords(c, s), k, clock);
            At(Recover(c, s.pipe.file, clock), k) == At(s.mem, k) <==>
            (last.Some? && last.value.obj.Some? ==>
               var d := last.value.obj.value.timestamp;
               d == 0 || (r.first < d && r.first == r.second))
  {
    RunIsDurable(c, o, run, ss, k, clock);
    GentleRunsMoveNothing(c, o, run, ss, |run|);
    FreshInv(c);
    BehaviourKeepsInv(c, o, run, ss, |run|);
    var last := Last(Records(ss[|run|]), k);
    if last.Some? && last.value.obj.Some? {
      KeptMeans(c, ss[|run|], k, clock);
    }
  }

  /** The goroutine alone: it frames `n` waiting records and flushes. */
  function Pump(n: nat): (r: seq<Action>)
    ensures |r| == n + 1
  {
    if n == 0 then [FlushAll(true)] else [FrameOne] + Pump(n - 1)
  }

  /** Left alone the goroutine empties the queue, and changes nothing else. */
  lemma {:induction false} FlushOut(c: Codec, o: Options, s: Shard) returns (ss: seq<Shard>)
    requires o.syncEveryN > 0 && AllFit(c, s.pipe.queue)
    ensures Behaviour(c, o, Pump(|s.pipe.queue|), ss) && ss[0] == s
    ensures var e := ss[|s.pipe.queue| + 1];
            Drained(e) && Records(e) == Records(s) && e.now == s.now && e.hist.moved == s.hist.moved
    ensures forall j :: 0 <= j < |ss| ==> ss[j].mem == s.mem
    decreases |s.pipe.queue|
  {
    var h, q := s.hist, s.pipe.queue;
    if q == [] {
      var e := Next(c, o, s, FlushAll(true));
      assert (h.filed + h.batched) + [] == h.filed + h.batched;
      ss := [s, e];
    } else {
      assert q[0] in q && forall e :: e in q[1..] ==> e in q;
      var s1 := Next(c, o, s, FrameOne);
      MoveFirst(h.filed, h.batched, q);
      var rest := FlushOut(c, o, s1);
      ss := [s] + rest;
      assert Pump(|q|)[1..] == Pump(|q| - 1);
      BehaviourCons(c, o, s, Pump(|q|), rest);
    }
  }

  lemma BehaviourCons(c: Codec, o: Options, s: Shard, run: seq<Action>, ss: seq<Shard>)
    requires o.syncEveryN > 0 && run != [] && Behaviour(c, o, run[1..], ss) && StepsTo(c, o, s, run[0], ss[0])
    ensures Behaviour(c, o, run, [s] + ss)
  {
    var ss1 := [s] + ss;
    forall i {:trigger run[i]} | 0 <= i < |run| ensures StepsTo(c, o, ss1[i], run[i], ss1[i + 1]) {
      if i > 0 {
        assert run[i] == run[1..][i - 1] && ss1[i] == ss[i - 1] && ss1[i + 1] == ss[i];
      }
    }
  }

  // ---------- Crashes ----------

  /** One life of the process. */
  ghost predicate OneLife(run: seq<Action>)
  {
    forall i :: 0 <= i < |run| ==> !run[i].Crash?
  }

  /** TTL.EXPIRE never takes more than a second from setting a deadline to logging it. */
  ghost predicate Prompt(run: seq<Action>)
  {
    forall i :: 0 <= i < |run| && run[i].Do? && run[i].cmd.SetDeadline? ==> run[i].cmd.again <= run[i].cmd.later + 1
  }

  /** Of the records `q`, those that are going to be logged are the same in `q1`. */
  ghost predicate SameLogged(c: Codec, q: seq<Entry>, q1: seq<Entry>)
  {
    |q| <= |q1| && forall i :: 0 <= i < |q| && c.utf8(q[i].key) ==> q1[i] == q[i]
  }

  /** The action changes no waiting record that is going to be logged. */
  ghost predicate LeavesWaiting(c: Codec, s: Shard, a: Action)
  {
    a.Do? ==> SameLogged(c, s.pipe.queue, Execute(s.mem, s.pipe.queue, a.cmd, a.at, a.shared).queue)
  }

  /** No command changes, through an object it shares, a record that is still waiting. */
  ghost predicate Untouched(c: Codec, run: seq<Action>, ss: seq<Shard>)
    requires |ss| == |run| + 1
  {
    forall i {:trigger run[i]} :: 0 <= i < |run| ==> LeavesWaiting(c, ss[i], run[i])
  }

  lemma {:induction false} LoggedPointwise(c: Codec, a: seq<Entry>, b: seq<Entry>)
    requires |a| == |b| && forall i :: 0 <= i < |a| ==> a[i].key == b[i].key
    ensures |Logged(c, a)| == |Logged(c, b)|
    ensures Logged(c, a) == Logged(c, b) <==> SameLogged(c, a, b)
    decreases |a|
  {
    if a != [] {
      var n := |a| - 1;
      var a1, b1 := a[..n], b[..n];
      LoggedPointwise(c, a1, b1);
      if c.utf8(a[n].key) {
        var la, lb := Logged(c, a1) + [a[n]], Logged(c, b1) + [b[n]];
        assert la == lb ==> la[..|la| - 1] == lb[..|lb| - 1] && la[|la| - 1] == lb[|lb| - 1];
      }
      assert forall i :: 0 <= i < n ==> a1[i] == a[i] && b1[i] == b[i];
    }
  }

  /** A command changes waiting records of its key only, and appends at most one record, of its key. */
  lemma ExecuteAppends(m: Mem, q: seq<Entry>, cmd: Command, now: Time, shared: set<nat>)
    returns (q1: seq<Entry>, more: seq<Entry>)
    requires Timely(cmd, now)
    ensures Execute(m, q, cmd, now, shared).queue == q1 + more && |q1| == |q| && |more| <= 1
    ensures forall i :: 0 <= i < |q| ==> q1[i].key == q[i].key && (q1[i] != q[i] ==> !cmd.Sweep? && q[i].key == cmd.key)
    ensures cmd.SetDeadline? ==> cmd.again <= cmd.later + 1 ==> q1 == q || more != []
    ensures !cmd.SetDeadline? ==> q1 == q || more != []
    ensures more != [] ==> !cmd.Sweep? && more[0].key == cmd.key
  {
    var all := Execute(m, q, cmd, now, shared).queue;
    q1, more := all[..|q|], all[|q|..];
    if cmd.SetDeadline? && cmd.again <= cmd.later + 1 && ExpireStep(m, cmd.key, cmd.ttl, now, cmd.later).1 {
      PromptExpireIsLogged(m, cmd.key, cmd.ttl, now, cmd.later, cmd.again);
    }
  }

  /**
   * One step: at most one logged record more; the old ones stay as they are if and only if the action leaves
   * the waiting ones alone; and they change only together with a new one.
   */
  lemma NextGrows(c: Codec, o: Options, s: Shard, a: Action)
    requires Inv(c, s) && o.syncEveryN > 0 && Enabled(c, s, a) && !a.Crash?
    ensures var r, r1 := LoggedRecords(c, s), LoggedRecords(c, Next(c, o, s, a));
            && |r| <= |r1| <= |r| + 1
            && (LeavesWaiting(c, s, a) <==> r <= r1)
            && (|r| == |r1| && Prompt([a]) ==> r == r1)
    ensures s.hist.filed <= Next(c, o, s, a).hist.filed
  {
    match a {
      case Do(cmd, at, shared) =>
        assert Prompt([a]) ==> [a][0].Do?;
        CommandGrows(c, s.hist.filed + s.hist.batched, s.mem, s.pipe.queue, cmd, at, shared);
      case FrameOne => FrameKeepsInv(c, o, s);
      case FlushAll(force) => FlushKeepsInv(c, o, s, force);
    }
  }

  lemma CommandGrows(c: Codec, pre: seq<Entry>, m: Mem, q: seq<Entry>, cmd: Command, now: Time, shared: set<nat>)
    requires Timely(cmd, now)
    ensures var all := Execute(m, q, cmd, now, shared).queue;
            var r, r1 := Logged(c, pre + q), Logged(c, pre + all);
            && |r| <= |r1| <= |r| + 1
            && (SameLogged(c, q, all) <==> r <= r1)
            && (|r| == |r1| && (cmd.SetDeadline? ==> cmd.again <= cmd.later + 1) ==> r == r1)
  {
    var q1, more := ExecuteAppends(m, q, cmd, now, shared);
    RecordsGrow(c, pre, q, q1, more);
  }

  lemma RecordsGrow(c: Codec, pre: seq<Entry>, q: seq<Entry>, q1: seq<Entry>, more: seq<Entry>)
    requires |q1| == |q| && |more| <= 1 && forall i :: 0 <= i < |q| ==> q1[i].key == q[i].key
    requires more != [] ==> forall i :: 0 <= i < |q| && q1[i] != q[i] ==> q[i].key == more[0].key
    ensures var r, r1 := Logged(c, pre + q), Logged(c, pre + (q1 + more));
            && |r| <= |r1| <= |r| + 1
            && (SameLogged(c, q, q1 + more) <==> r <= r1)
            && (q1 == q || more != [] ==> |r| == |r1| ==> r == r1)
  {
    LoggedPointwise(c, q, q1);
    LoggedAppend(c, pre, q);
    LoggedAppend(c, pre, q1 + more);
    LoggedAppend(c, q1, more);
    LoggedAtMost(c, more);
    SumsGrow(Logged(c, pre), Logged(c, q), Logged(c, q1), Logged(c, more));
    SameLoggedBefore(c, q, q1, more);
    if Logged(c, more) == [] && more != [] {
      assert SameLogged(c, q, q1);
    }
  }

  lemma SameLoggedBefore(c: Codec, q: seq<Entry>, q1: seq<Entry>, more: seq<Entry>)
    requires |q| == |q1|
    ensures SameLogged(c, q, q1 + more) <==> SameLogged(c, q, q1)
  {
    assert forall i :: 0 <= i < |q| ==> (q1 + more)[i] == q1[i];
  }

  lemma LoggedAtMost(c: Codec, more: seq<Entry>)
    requires |more| <= 1
    ensures Logged(c, more) == if more != [] && c.utf8(more[0].key) then more else []
  {
    if more != [] {
      assert more[..0] == [];
      assert more == [more[0]];
    }
  }

  lemma SumsGrow<T>(pre: seq<T>, q: seq<T>, q1: seq<T>, more: seq<T>)
    requires |q| == |q1| && |more| <= 1
    ensures |pre + q| <= |pre + (q1 + more)| <= |pre + q| + 1
    ensures pre + q <= pre + (q1 + more) <==> q == q1
    ensures |pre + q| == |pre + (q1 + more)| <==> more == []
    ensures more == [] && q == q1 ==> pre + q == pre + (q1 + more)
  {
    var all := pre + (q1 + more);
    assert all[|pre|..|pre| + |q1|] == q1;
    if pre + q <= all {
      assert all[..|pre + q|] == pre + q;
      assert (pre + q)[|pre|..] == q;
    }
  }

  /** What a life does to the logged records from one moment to a later one. */
  ghost predicate Grows<T(!new)>(r: seq<T>, r1: seq<T>, untouched: bool, prompt: bool)
  {
    |r| <= |r1| && (untouched ==> r <= r1) && (prompt && |r| == |r1| ==> r == r1)
  }

  lemma {:induction false} StepsGrow<T(!new)>(rs: seq<seq<T>>, i: nat, j: nat, untouched: bool, prompt: bool)
    requires forall k, k1 :: 0 <= k < |rs| && k1 == k + 1 && k1 < |rs| ==> Grows(rs[k], rs[k1], untouched, prompt)
    requires i <= j < |rs|
    ensures Grows(rs[i], rs[j], untouched, prompt)
    decreases j
  {
    if i < j {
      StepsGrow(rs, i, j - 1, untouched, prompt);
      assert Grows(rs[j - 1], rs[j], untouched, prompt);
    }
  }

  lemma StepGrows(c: Codec, o: Options, run: seq<Action>, ss: seq<Shard>, j: nat)
    requires Faithful(c) && o.syncEveryN > 0 && Behaviour(c, o, run, ss) && Inv(c, ss[0]) && OneLife(run)
    requires j < |run|
    ensures Grows(LoggedRecords(c, ss[j]), LoggedRecords(c, ss[j + 1]), LeavesWaiting(c, ss[j], run[j]), Prompt(run))
    ensures LeavesWaiting(c, ss[j], run[j]) <==> LoggedRecords(c, ss[j]) <= LoggedRecords(c, ss[j + 1])
    ensures |LoggedRecords(c, ss[j + 1])| <= |LoggedRecords(c, ss[j])| + 1
    ensures ss[j].hist.filed <= ss[j + 1].hist.filed
  {
    BehaviourKeepsInv(c, o, run, ss, j);
    assert StepsTo(c, o, ss[j], run[j], ss[j + 1]);
    assert !run[j].Crash? && (Prompt(run) ==> Prompt([run[j]]));
    NextGrows(c, o, ss[j], run[j]);
  }

  lemma FileGrows(c: Codec, o: Options, run: seq<Action>, ss: seq<Shard>, i: nat, j: nat)
    requires Faithful(c) && o.syncEveryN > 0 && Behaviour(c, o, run, ss) && Inv(c, ss[0]) && OneLife(run)
    requires i <= j <= |run|
    ensures ss[i].hist.filed <= ss[j].hist.filed
  {
    var fs := seq(|ss|, n requires 0 <= n < |ss| => ss[n].hist.filed);
    forall k, k1 | 0 <= k < |fs| && k1 == k + 1 && k1 < |fs| ensures Grows(fs[k], fs[k1], true, false) {
      StepGrows(c, o, run, ss, k);
    }
    StepsGrow(fs, i, j, true, false);
  }

  /** Over a whole life: records only become more, and the earlier ones stay as they are if no command changed them. */
  lemma BehaviourGrows(c: Codec, o: Options, run: seq<Action>, ss: seq<Shard>, i: nat, j: nat)
    requires Faithful(c) && o.syncEveryN > 0 && Behaviour(c, o, run, ss) && Inv(c, ss[0]) && OneLife(run)
    requires i <= j <= |run|
    ensures Grows(LoggedRecords(c, ss[i]), LoggedRecords(c, ss[j]), Untouched(c, run, ss), Prompt(run))
  {
    var rs := seq(|ss|, n requires 0 <= n < |ss| => LoggedRecords(c, ss[n]));
    var untouched, prompt := Untouched(c, run, ss), Prompt(run);
    forall k, k1 | 0 <= k < |rs| && k1 == k + 1 && k1 < |rs| ensures Grows(rs[k], rs[k1], untouched, prompt) {
      StepGrows(c, o, run, ss, k);
      assert untouched ==> LeavesWaiting(c, ss[k], run[k]);
    }
    StepsGrow(rs, i, j, untouched, prompt);
  }

  /** A count that goes up by at most one at a time passes through every number. */
  lemma CountsPassThrough(counts: seq<nat>, n: nat) returns (j: nat)
    requires forall k, k1 :: 0 <= k < |counts| && k1 == k + 1 && k1 < |counts| ==> counts[k1] <= counts[k] + 1
    requires |counts| > 0 && counts[0] <= n <= counts[|counts| - 1]
    ensures j < |counts| && counts[j] == n
  {
    j := 0;
    while counts[j] < n
      invariant j < |counts| && counts[j] <= n
      decreases |counts| - j
    {
      j := j + 1;
    }
  }

  /** Every number of records between the first and the last state was there at some moment. */
  lemma PassedThrough(c: Codec, o: Options, run: seq<Action>, ss: seq<Shard>, n: nat) returns (j: nat)
    requires Faithful(c) && o.syncEveryN > 0 && Behaviour(c, o, run, ss) && Inv(c, ss[0]) && OneLife(run)
    requires |LoggedRecords(c, ss[0])| <= n <= |LoggedRecords(c, ss[|run|])|
    ensures j <= |run| && |LoggedRecords(c, ss[j])| == n
  {
    var counts := seq(|ss|, k requires 0 <= k < |ss| => |LoggedRecords(c, ss[k])|);
    forall k, k1 | 0 <= k < |counts| && k1 == k + 1 && k1 < |counts| ensures counts[k1] <= counts[k] + 1 {
      StepGrows(c, o, run, ss, k);
    }
    j := CountsPassThrough(counts, n);
  }

  lemma FramesPrefixLength(c: Codec, es: seq<Entry>, m: nat, n: nat)
    requires m <= n <= |es|
    ensures |Frames(c, es[..m])| <= |Frames(c, es[..n])|
  {
    assert es[..n] == es[..m] + es[m..n];
    FramesAppend(c, es[..m], es[m..n]);
  }

  lemma CutCovers(c: Codec, first: seq<Entry>, all: seq<Entry>, cut: nat, n: nat)
    requires first <= all && |Frames(c, first)| <= cut && WholeFrames(c, all, cut, n)
    ensures |first| <= n
  {
    assert all[..|first|] == first;
    if n < |first| {
      FramesPrefixLength(c, all, n + 1, |first|);
    }
  }

  lemma LoggedGrows(c: Codec, a: seq<Entry>, b: seq<Entry>)
    requires a <= b
    ensures Logged(c, a) <= Logged(c, b)
  {
    assert b == a + b[|a|..];
    LoggedAppend(c, a, b[|a|..]);
  }

  /** The whole frames in a cut of the file are the first `n` of all logged records, beyond those of the start. */
  lemma CutReadsPrefix(c: Codec, s0: Shard, s: Shard, cut: nat) returns (n: nat)
    requires Faithful(c) && Inv(c, s0) && Inv(c, s) && Drained(s0)
    requires s0.hist.filed <= s.hist.filed && |s0.pipe.file| <= cut <= |s.pipe.file|
    ensures |LoggedRecords(c, s0)| <= n <= |LoggedRecords(c, s)|
    ensures Parse(c, s.pipe.file[..cut]).entries == LoggedRecords(c, s)[..n]
  {
    var all := Logged(c, s.hist.filed);
    FramesOfLogged(c, s.hist.filed);
    assert forall e :: e in s.hist.filed ==> e in s.hist.filed + s.hist.batched;
    LoggedIsLoggable(c, s.hist.filed);
    n := WholeFramesExist(c, all, cut);
    TornTail(c, all, cut, n);
    LoggedInOrder(c, s);
    DrainedIsFiled(c, s0);
    LoggedGrows(c, s0.hist.filed, s.hist.filed);
    CutCovers(c, LoggedRecords(c, s0), all, cut, n);
  }

  /**
   * Crash consistency: cut the file at any byte written during this life of the process. If no command changed a
   * waiting record, recovery then reads exactly the records there were at some earlier moment of the run, as if
   * the shard had been closed then: none is skipped, none reordered, and every key is as memory had it at that
   * moment, under the same condition as always.
   */
  lemma CrashIsEarlierShutdown(c: Codec, o: Options, run: seq<Action>, ss: seq<Shard>, cut: nat, clock: Clock)
    returns (j: nat)
    requires Faithful(c) && o.syncEveryN > 0 && Behaviour(c, o, run, ss) && Inv(c, ss[0]) && Drained(ss[0])
    requires OneLife(run) && Untouched(c, run, ss) && |ss[0].pipe.file| <= cut <= |ss[|run|].pipe.file|
    ensures j <= |run|
    ensures var found := Parse(c, ss[|run|].pipe.file[..cut]).entries;
            && found == LoggedRecords(c, ss[j])
            && forall k :: c.utf8(k) ==>
                 (At(ReplayAll(map[], found, clock), k) == At(ss[j].mem, k) <==> Kept(c, ss[j], k, clock))
  {
    var last := |run|;
    BehaviourKeepsInv(c, o, run, ss, last);
    FileGrows(c, o, run, ss, 0, last);
    var n := CutReadsPrefix(c, ss[0], ss[last], cut);
    j := PassedThrough(c, o, run, ss, n);
    BehaviourGrows(c, o, run, ss, j, last);
    BehaviourKeepsInv(c, o, run, ss, j);
    forall k | c.utf8(k)
      ensures At(ReplayAll(map[], LoggedRecords(c, ss[j]), clock), k) == At(ss[j].mem, k) <==> Kept(c, ss[j], k, clock)
    {
      ReplayMatchesMemoryIff(c, ss[j], k, clock);
    }
  }

  /** Whatever byte the file is cut at, recovery reads the records of some moment of the run. */
  ghost predicate CrashSafe(c: Codec, run: seq<Action>, ss: seq<Shard>)
    requires |ss| == |run| + 1
  {
    forall cut :: |ss[0].pipe.file| <= cut <= |ss[|run|].pipe.file| ==> SafeCut(c, ss, ss[|run|].pipe.file, cut)
  }

  ghost predicate SafeCut(c: Codec, ss: seq<Shard>, file: bytes, cut: nat)
    requires cut <= |file|
  {
    exists j :: 0 <= j < |ss| && Parse(c, file[..cut]).entries == LoggedRecords(c, ss[j])
  }

  /** Where to cut the file so that just `n` records are left. */
  lemma CutBehind(c: Codec, s0: Shard, s: Shard, n: nat) returns (cut: nat)
    requires Faithful(c) && Inv(c, s0) && Inv(c, s) && Drained(s0) && Drained(s)
    requires s0.hist.filed <= s.hist.filed && |LoggedRecords(c, s0)| <= n <= |LoggedRecords(c, s)|
    ensures |s0.pipe.file| <= cut <= |s.pipe.file|
    ensures Parse(c, s.pipe.file[..cut]).entries == LoggedRecords(c, s)[..n]
  {
    var first, all := LoggedRecords(c, s0), LoggedRecords(c, s);
    DrainedIsFiled(c, s0);
    DrainedIsFiled(c, s);
    LoggedGrows(c, s0.hist.filed, s.hist.filed);
    assert all[..|first|] == first;
    FramesPrefixLength(c, all, |first|, n);
    cut := CutFrames(c, all, n);
  }

  lemma CutFrames(c: Codec, all: seq<Entry>, n: nat) returns (cut: nat)
    requires Faithful(c) && Loggable(c, all) && n <= |all|
    ensures cut == |Frames(c, all[..n])| <= |Frames(c, all)|
    ensures Parse(c, Frames(c, all)[..cut]).entries == all[..n]
  {
    cut := |Frames(c, all[..n])|;
    assert all == all[..n] + all[n..];
    FramesAppend(c, all[..n], all[n..]);
    assert Frames(c, all)[..cut] == Frames(c, all[..n]);
    ParseOfFrames(c, all[..n]);
  }

  /** The first `n` of these records were once all there were. */
  ghost predicate WereAll(c: Codec, ss: seq<Shard>, all: seq<Entry>, n: nat)
    requires n <= |all|
  {
    exists j :: 0 <= j < |ss| && all[..n] == LoggedRecords(c, ss[j])
  }

  lemma SafeCutWereAll(c: Codec, o: Options, run: seq<Action>, ss: seq<Shard>, n: nat)
    requires Faithful(c) && o.syncEveryN > 0 && Behaviour(c, o, run, ss) && Inv(c, ss[0]) && Drained(ss[0])
    requires OneLife(run) && Drained(ss[|run|]) && CrashSafe(c, run, ss)
    requires |LoggedRecords(c, ss[0])| <= n <= |LoggedRecords(c, ss[|run|])|
    ensures WereAll(c, ss, LoggedRecords(c, ss[|run|]), n)
  {
    BehaviourKeepsInv(c, o, run, ss, |run|);
    FileGrows(c, o, run, ss, 0, |run|);
    var cut := CutBehind(c, ss[0], ss[|run|], n);
    assert SafeCut(c, ss, ss[|run|].pipe.file, cut);
  }

  lemma WereAllSafeCut(c: Codec, o: Options, run: seq<Action>, ss: seq<Shard>, cut: nat)
    requires Faithful(c) && o.syncEveryN > 0 && Behaviour(c, o, run, ss) && Inv(c, ss[0]) && Drained(ss[0])
    requires OneLife(run) && |ss[0].pipe.file| <= cut <= |ss[|run|].pipe.file|
    requires var all := LoggedRecords(c, ss[|run|]);
             forall n :: |LoggedRecords(c, ss[0])| <= n <= |all| ==> WereAll(c, ss, all, n)
    ensures SafeCut(c, ss, ss[|run|].pipe.file, cut)
  {
    BehaviourKeepsInv(c, o, run, ss, |run|);
    FileGrows(c, o, run, ss, 0, |run|);
    var n := CutReadsPrefix(c, ss[0], ss[|run|], cut);
    assert WereAll(c, ss, LoggedRecords(c, ss[|run|]), n);
  }

  /**
   * The condition for crash consistency in terms of records, for any life of the process that ends with everything
   * flushed: it is safe against a cut at every byte if and only if, for every number of the final records, at some
   * moment these were just all there were, with the same contents.
   */
  lemma CrashSafeByRecords(c: Codec, o: Options, run: seq<Action>, ss: seq<Shard>)
    requires Faithful(c) && o.syncEveryN > 0 && Behaviour(c, o, run, ss) && Inv(c, ss[0]) && Drained(ss[0])
    requires OneLife(run) && Drained(ss[|run|])
    ensures var all := LoggedRecords(c, ss[|run|]);
            CrashSafe(c, run, ss) <==> forall n :: |LoggedRecords(c, ss[0])| <= n <= |all| ==> WereAll(c, ss, all, n)
  {
    var first, all := LoggedRecords(c, ss[0]), LoggedRecords(c, ss[|run|]);
    if CrashSafe(c, run, ss) {
      forall n | |first| <= n <= |all| ensures WereAll(c, ss, all, n) {
        SafeCutWereAll(c, o, run, ss, n);
      }
    }
    if forall n :: |first| <= n <= |all| ==> WereAll(c, ss, all, n) {
      forall cut | |ss[0].pipe.file| <= cut <= |ss[|run|].pipe.file|
        ensures SafeCut(c, ss, ss[|run|].pipe.file, cut)
      {
        WereAllSafeCut(c, o, run, ss, cut);
      }
    }
  }

  /** In a crash-safe run, each moment's records are the first ones of the final file. */
  lemma SafeRecordsArePrefixes(c: Codec, o: Options, run: seq<Action>, ss: seq<Shard>, i: nat)
    requires Faithful(c) && o.syncEveryN > 0 && Behaviour(c, o, run, ss) && Inv(c, ss[0]) && Drained(ss[0])
    requires OneLife(run) && Prompt(run) && Drained(ss[|run|]) && CrashSafe(c, run, ss) && i <= |run|
    ensures LoggedRecords(c, ss[i]) <= LoggedRecords(c, ss[|run|])
  {
    var all, r := LoggedRecords(c, ss[|run|]), LoggedRecords(c, ss[i]);
    BehaviourGrows(c, o, run, ss, 0, i);
    BehaviourGrows(c, o, run, ss, i, |run|);
    SafeCutWereAll(c, o, run, ss, |r|);
    var j :| 0 <= j < |ss| && all[..|r|] == LoggedRecords(c, ss[j]);
    SameCountSameRecords(c, o, run, ss, i, j);
  }

  /** Without slow expirations the records change only together with their number. */
  lemma SameCountSameRecords(c: Codec, o: Options, run: seq<Action>, ss: seq<Shard>, i: nat, j: nat)
    requires Faithful(c) && o.syncEveryN > 0 && Behaviour(c, o, run, ss) && Inv(c, ss[0]) && OneLife(run) && Prompt(run)
    requires i <= |run| && j <= |run| && |LoggedRecords(c, ss[i])| == |LoggedRecords(c, ss[j])|
    ensures LoggedRecords(c, ss[i]) == LoggedRecords(c, ss[j])
  {
    if i <= j {
      BehaviourGrows(c, o, run, ss, i, j);
    } else {
      BehaviourGrows(c, o, run, ss, j, i);
    }
  }

  lemma CrashSafeIsUntouched(c: Codec, o: Options, run: seq<Action>, ss: seq<Shard>, i: nat)
    requires Faithful(c) && o.syncEveryN > 0 && Behaviour(c, o, run, ss) && Inv(c, ss[0]) && Drained(ss[0])
    requires OneLife(run) && Prompt(run) && Drained(ss[|run|]) && CrashSafe(c, run, ss) && i < |run|
    ensures LeavesWaiting(c, ss[i], run[i])
  {
    var r, r1, all := LoggedRecords(c, ss[i]), LoggedRecords(c, ss[i + 1]), LoggedRecords(c, ss[|run|]);
    SafeRecordsArePrefixes(c, o, run, ss, i);
    SafeRecordsArePrefixes(c, o, run, ss, i + 1);
    StepGrows(c, o, run, ss, i);
    PrefixesNest(r, r1, all);
  }

  lemma PrefixesNest<T>(a: seq<T>, b: seq<T>, all: seq<T>)
    requires a <= all && b <= all && |a| <= |b|
    ensures a <= b
  {
  }

  lemma UntouchedIsCrashSafe(c: Codec, o: Options, run: seq<Action>, ss: seq<Shard>)
    requires Faithful(c) && o.syncEveryN > 0 && Behaviour(c, o, run, ss) && Inv(c, ss[0]) && Drained(ss[0])
    requires OneLife(run) && Untouched(c, run, ss)
    ensures CrashSafe(c, run, ss)
  {
    forall cut | |ss[0].pipe.file| <= cut <= |ss[|run|].pipe.file|
      ensures SafeCut(c, ss, ss[|run|].pipe.file, cut)
    {
      var j := CrashIsEarlierShutdown(c, o, run, ss, cut, _ => Reading(0, 0));
    }
  }

  /**
   * The exact condition for crash consistency in terms of commands: a life of the process that ends with
   * everything flushed is safe against a cut at every byte if and only if no command changes a record that is
   * still waiting.
   */
  lemma CrashSafeIff(c: Codec, o: Options, run: seq<Action>, ss: seq<Shard>)
    requires Faithful(c) && o.syncEveryN > 0 && Behaviour(c, o, run, ss) && Inv(c, ss[0]) && Drained(ss[0])
    requires OneLife(run) && Prompt(run) && Drained(ss[|run|])
    ensures CrashSafe(c, run, ss) <==> Untouched(c, run, ss)
  {
    if CrashSafe(c, run, ss) {
      forall i {:trigger run[i]} | 0 <= i < |run| ensures LeavesWaiting(c, ss[i], run[i]) {
        CrashSafeIsUntouched(c, o, run, ss, i);
      }
    }
    if Untouched(c, run, ss) {
      UntouchedIsCrashSafe(c, o, run, ss);
    }
  }

  /** A key is stored and, before that is framed, given a deadline that has passed by the second lookup. */
  datatype SlowExpire = SlowExpire(k: string, v: bytes, kind: uint32, ttl: int64, t: Time, again: Time)
  {
    predicate Valid()
    {
      0 < ttl && t + ttl < again
    }

    function Run(): (r: seq<Action>)
      ensures |r| == 4
    {
      [Do(Write(k, v, kind), t, {}), Do(SetDeadline(k, ttl, t, again), t, {0})] + Pump(1)
    }

    /** The one record, as logged and as changed. */
    function Before(): Entry { Put(k, Item(kind, v, 0)) }

    function After(): Entry
      requires Valid()
    {
      Put(k, Item(kind, v, t + ttl))
    }

    function Stored(): Shard
    {
      Shard(map[k := Item(kind, v, 0)], Pipe([Before()], [], 0, [], 0), t, History([], [], map[]))
    }

    function Dropped(): Shard
      requires Valid()
    {
      Shard(map[], Pipe([After()], [], 0, [], 0), again, History([], [], map[k := t + ttl]))
    }

    lemma Steps(c: Codec, o: Options)
      requires Valid() && o.syncEveryN > 0
      ensures StepsTo(c, o, FRESH, Run()[0], Stored()) && StepsTo(c, o, Stored(), Run()[1], Dropped())
    {
      var none: Moved := map[];
      assert none - {k} == none;
      assert Touch([Before()], k, {0}, After().obj.value) == [After()];
    }

    lemma Runs(c: Codec, o: Options) returns (ss: seq<Shard>)
      requires Valid() && o.syncEveryN > 0 && Fits(c, After())
      ensures Behaviour(c, o, Run(), ss) && ss[0] == FRESH && ss[1] == Stored() && ss[2] == Dropped()
      ensures Drained(ss[4]) && Records(ss[4]) == [After()]
    {
      Steps(c, o);
      var pump := FlushOut(c, o, Dropped());
      assert Run()[1..][1..] == Pump(1);
      BehaviourCons(c, o, Stored(), Run()[1..], pump);
      BehaviourCons(c, o, FRESH, Run(), [Stored()] + pump);
      ss := [FRESH] + ([Stored()] + pump);
    }

    /** The records of the end are those before the first command, or those after the second. */
    lemma Logged(c: Codec, o: Options, ss: seq<Shard>)
      requires Valid() && c.utf8(k) && |ss| == 5 && ss[0] == FRESH && ss[2] == Dropped() && Records(ss[4]) == [After()]
      ensures var all := LoggedRecords(c, ss[4]);
              forall n :: 0 <= n <= |all| ==> WereAll(c, ss, all, n)
    {
      AllLogged(c, []);
      AllLogged(c, [After()]);
      var all := LoggedRecords(c, ss[4]);
      assert all[..0] == LoggedRecords(c, ss[0]) && all[..1] == LoggedRecords(c, ss[2]);
      assert WereAll(c, ss, all, 0) && WereAll(c, ss, all, 1);
    }

    lemma Lives()
      ensures OneLife(Run())
    {
      assert Pump(1) == [FrameOne, FlushAll(true)];
    }

    lemma Touches(c: Codec)
      requires Valid() && c.utf8(k)
      ensures !LeavesWaiting(c, Stored(), Run()[1])
    {
      assert Touch([Before()], k, {0}, After().obj.value) == [After()];
    }
  }

  lemma SafeThoughTouched(c: Codec, o: Options, run: seq<Action>, ss: seq<Shard>, i: nat)
    requires Faithful(c) && o.syncEveryN > 0 && Behaviour(c, o, run, ss) && ss[0] == FRESH && OneLife(run)
    requires Drained(ss[|run|]) && i < |run| && !LeavesWaiting(c, ss[i], run[i])
    requires var all := LoggedRecords(c, ss[|run|]); forall n :: 0 <= n <= |all| ==> WereAll(c, ss, all, n)
    ensures CrashSafe(c, run, ss) && !Untouched(c, run, ss)
  {
    FreshInv(c);
    CrashSafeByRecords(c, o, run, ss);
  }

  /**
   * Why the condition in terms of commands is about prompt lives: a deadline set too slowly to be logged may change
   * a waiting record and do no harm, as the last record of the file.
   */
  lemma SlowExpireMayBeHarmless(c: Codec, o: Options, x: SlowExpire) returns (ss: seq<Shard>)
    requires Faithful(c) && o.syncEveryN > 0 && x.Valid() && c.utf8(x.k) && Fits(c, x.After())
    ensures Behaviour(c, o, x.Run(), ss) && ss[0] == FRESH && Drained(ss[4])
    ensures CrashSafe(c, x.Run(), ss) && !Untouched(c, x.Run(), ss)
  {
    ss := x.Runs(c, o);
    x.Logged(c, o, ss);
    x.Touches(c);
    x.Lives();
    SafeThoughTouched(c, o, x.Run(), ss, 1);
  }

  // ---------- What each command means ----------

  /** What a reader at time `t` finds of an object, if anything. */
  function Visible(o: Item, t: Time): Option<Item>
  {
    if Past(o, t) then None else Some(o)
  }

  /** The command finds an object of this kind. */
  predicate Finds(m: Mem, key: string, kind: uint32, now: Time)
  {
    key in m && !Past(m[key], now) && m[key].kind == kind
  }

  /** The sweep and TTL drop an object in its deadline second; TTL also one whose deadline overflowed the clock. */
  predicate DropsEarly(o: Item, cmd: Command, now: Time, t: Time)
  {
    (cmd.Sweep? || cmd.Remaining?) && (o.timestamp == now == t || (cmd.Remaining? && o.timestamp < 0))
  }

  /**
   * What GET answers at any later time under any key: a write, a new deadline, a new value and a deletion show under
   * their key and nowhere else. Commands that only look take nothing away that GET would still have found, but for
   * the sweep and TTL in a key's deadline second, and TTL on a deadline that overflowed the clock.
   */
  lemma ReadAfterCommand(m: Mem, q: seq<Entry>, cmd: Command, now: Time, shared: set<nat>, k: string, t: Time)
    requires Timely(cmd, now) && End(cmd, now) <= t
    ensures var found, before := GetStep(Execute(m, q, cmd, now, shared).mem, k, t).1, GetStep(m, k, t).1;
            if !cmd.Sweep? && cmd.key != k then found == before
            else
              match cmd
              case Write(_, v, kind) => found == Some(Item(kind, v, 0))
              case Del(_) => found == None
              case DelAlways(_) => found == None
              case SetDeadline(_, ttl, later, _) =>
                if k in m && !Due(m[k], now) then found == Visible(m[k].(timestamp := Deadline(later, ttl)), t)
                else found == None
              case MapField(_, v) =>
                found == if Finds(m, k, MAP_KIND, now) then Visible(m[k].(value := v), t) else before
              case ListGPop(_, v) =>
                found == if Finds(m, k, LIST_KIND, now) then Some(Item(LIST_KIND, v, 0)) else before
              case _ =>
                found == before || (k in m && DropsEarly(m[k], cmd, now, t) && found == None)
  {
  }

  /** The command has something to log. */
  predicate Logs(m: Mem, cmd: Command, now: Time)
  {
    match cmd
    case Write(_, _, _) => true
    case Del(k) => k in m
    case DelAlways(_) => true
    case SetDeadline(k, ttl, later, again) =>
      k in m && !Due(m[k], now) && (ttl <= 0 || again <= later + ttl)
    case MapField(k, _) => Finds(m, k, MAP_KIND, now)
    case ListGPop(k, _) => Finds(m, k, LIST_KIND, now)
    case _ => false
  }

  /**
   * What each command logs: at most one record, about its own key, saying just what memory has under it by then -
   * but for LIST.GPOP, which logs the old deadline. DELETE is silent about a missing key, MAP.DEL of a key is not.
   */
  lemma WhatIsLogged(m: Mem, q: seq<Entry>, cmd: Command, now: Time, shared: set<nat>)
    requires Timely(cmd, now)
    ensures var f := Execute(m, q, cmd, now, shared);
            && |f.queue| == |q| + (if Logs(m, cmd, now) then 1 else 0)
            && (forall i :: 0 <= i < |q| ==> f.queue[i].key == q[i].key && f.queue[i].op == q[i].op)
            && (Logs(m, cmd, now) ==>
                  var e := f.queue[|q|];
                  if cmd.Del? || cmd.DelAlways? then e == Entry(Erase, cmd.key, None)
                  else
                    && cmd.key in f.mem
                    && e == Put(cmd.key, if cmd.ListGPop? then f.mem[cmd.key].(timestamp := m[cmd.key].timestamp)
                                         else f.mem[cmd.key]))
  {
  }

  // ---------- Where the program falls short of the ideal ----------

  /** LIST.GPOP on a list with a deadline: memory forgets the deadline, the log keeps it. */
  lemma GPopLeavesDeadlineInLog(s: Shard, k: string, v: bytes, at: Time, shared: set<nat>, d: int64)
    requires k in s.mem && s.mem[k].kind == LIST_KIND && s.mem[k].timestamp == d && d > at
    ensures var f := Execute(s.mem, s.pipe.queue, ListGPop(k, v), at, shared);
            && f.mem[k] == Item(LIST_KIND, v, 0)
            && Last(f.queue, k) == Some(Put(k, Item(LIST_KIND, v, d)))
  {
    var o1 := s.mem[k].(value := v);
    LastOfOneMore(Touch(s.pipe.queue, k, shared, o1), Put(k, o1), k);
  }

  /**
   * A TTL.EXPIRE that sets a deadline is logged if and only if the deadline has not passed when the key is looked
   * up again; otherwise the key is dropped without a record, and recovery brings back what was logged before.
   */
  lemma ExpireIsLoggedIff(m: Mem, q: seq<Entry>, cmd: Command, now: Time, shared: set<nat>)
    requires cmd.SetDeadline? && Timely(cmd, now) && ExpireStep(m, cmd.key, cmd.ttl, now, cmd.later).1
    ensures var f := Execute(m, q, cmd, now, shared);
            && (|f.queue| == |q| + 1 <==> cmd.ttl <= 0 || cmd.again <= cmd.later + cmd.ttl)
            && (|f.queue| != |q| + 1 ==> |f.queue| == |q| && cmd.key !in f.mem)
  {
  }

  /** Four commands and a flush: a map is stored, given a deadline, another key is written, the map is changed. */
  datatype LateChange = LateChange(k: string, other: string, v0: bytes, v1: bytes, w: bytes, ttl: int64, t: Time)
  {
    predicate Valid()
    {
      k != other && v0 != v1 && 0 < ttl < TWO63 - t
    }

    function Commands(): (r: seq<Action>)
      ensures |r| == 4
    {
      [Do(Write(k, v0, MAP_KIND), t, {}), Do(SetDeadline(k, ttl, t, t), t, {}), Do(Write(other, w, 0), t, {}),
       Do(MapField(k, v1), t, {1})]
    }

    function Run(): (r: seq<Action>)
      ensures |r| == 9
    {
      Commands() + Pump(4)
    }

    /** The map as stored, with its deadline, and changed; and the other key's object. */
    function First(): Item { Item(MAP_KIND, v0, 0) }

    function Second(): Item
      requires Valid()
    {
      Item(MAP_KIND, v0, t + ttl)
    }

    function Third(): Item
      requires Valid()
    {
      Item(MAP_KIND, v1, t + ttl)
    }

    function Other(): Item { Item(0, w, 0) }

    /** The second record, made before the change, shows it, because it points to the changed object. */
    function Lines(): (r: seq<Entry>)
      requires Valid()
      ensures |r| == 4
    {
      [Put(k, First()), Put(k, Third()), Put(other, Other()), Put(k, Third())]
    }

    /** Memory after the commands. */
    function Stored(i: nat): Mem
      requires Valid()
    {
      if i == 0 then map[]
      else if i == 1 then map[k := First()]
      else if i == 2 then map[k := Second()]
      else if i == 3 then map[k := Second(), other := Other()]
      else map[k := Third(), other := Other()]
    }

    function Queue(i: nat): seq<Entry>
      requires Valid()
    {
      if i == 0 then []
      else if i == 1 then [Put(k, First())]
      else if i == 2 then [Put(k, First()), Put(k, Second())]
      else if i == 3 then [Put(k, First()), Put(k, Second()), Put(other, Other())]
      else Lines()
    }

    function State(i: nat): Shard
      requires Valid()
    {
      Shard(Stored(i), Pipe(Queue(i), [], 0, [], 0), if i == 0 then 0 else t, History([], [], map[]))
    }

    lemma Effects(i: nat)
      requires Valid() && i < 4
      ensures var a := Commands()[i];
              Execute(Stored(i), Queue(i), a.cmd, a.at, a.shared) == Effect(Stored(i + 1), Queue(i + 1))
    {
      if i == 0 {
        assert [] + [Put(k, First())] == [Put(k, First())];
      } else if i == 1 {
        assert Touch(Queue(1), k, {}, Second()) == Queue(1);
      } else if i == 3 {
        assert Touch(Queue(3), k, {1}, Third()) == Lines()[..3];
        assert Stored(3)[k := Third()] == Stored(4);
      }
    }

    lemma Steps(c: Codec, o: Options, i: nat)
      requires Valid() && i < 4 && o.syncEveryN > 0
      ensures StepsTo(c, o, State(i), Commands()[i], State(i + 1))
    {
      Effects(i);
      var none: Moved := map[];
      assert none - {k} == none && none - {other} == none;
    }

    /** The run takes place, and its records are these. */
    lemma Runs(c: Codec, o: Options) returns (ss: seq<Shard>)
      requires Valid() && o.syncEveryN > 0 && AllFit(c, Lines())
      ensures Behaviour(c, o, Run()[0..], ss) && ss[0] == FRESH && |ss| == 10
      ensures Drained(ss[9]) && Records(ss[9]) == Lines() && forall j :: 0 <= j < 10 ==> ss[j].mem == Stored(j)
    {
      var pump := FlushOut(c, o, State(4));
      ss := RunsFrom(c, o, 0, pump);
    }

    /** The commands from the `i`-th on, and then what follows them. */
    lemma RunsFrom(c: Codec, o: Options, i: nat, pump: seq<Shard>) returns (ss: seq<Shard>)
      requires Valid() && o.syncEveryN > 0 && i <= 4 && Behaviour(c, o, Pump(4), pump) && pump[0] == State(4)
      requires forall j :: 0 <= j < |pump| ==> pump[j].mem == Stored(4)
      ensures Behaviour(c, o, Run()[i..], ss) && ss[0] == State(i) && |ss| == 10 - i && ss[9 - i] == pump[5]
      ensures forall j :: 0 <= j < 10 - i ==> ss[j].mem == Stored(i + j)
      decreases 4 - i
    {
      if i == 4 {
        ss := pump;
        assert Run()[4..] == Pump(4);
      } else {
        var rest := RunsFrom(c, o, i + 1, pump);
        Steps(c, o, i);
        assert Run()[i..][1..] == Run()[i + 1..];
        BehaviourCons(c, o, State(i), Run()[i..], rest);
        ss := [State(i)] + rest;
      }
    }

    lemma Replayed()
      requires Valid()
      ensures ReplayAll(map[], Lines()[..2], _ => Reading(t, t)) == map[k := Third()]
    {
      var es, clock: Clock := Lines()[..2], _ => Reading(t, t);
      assert es[..1] == [es[0]] && es[..1][..0] == [];
      assert ReplayAll(map[], es[..1], clock) == map[k := First()];
      assert ReplayAll(map[], es, clock) == ReplayStep(ReplayAll(map[], es[..1], clock), es[1], clock(1));
    }

    /** At no moment memory held the changed map without the other key. */
    lemma Moments(i: nat)
      requires Valid()
      ensures At(Stored(i), k) != Some(Third()) || other in Stored(i)
    {
    }
  }

  lemma {:induction false} AllLogged(c: Codec, es: seq<Entry>)
    requires forall e :: e in es ==> c.utf8(e.key)
    ensures Logged(c, es) == es
    decreases |es|
  {
    if es != [] {
      assert es[|es| - 1] in es;
      AllLogged(c, es[..|es| - 1]);
    }
  }

  lemma {:induction false} BehaviourIsUnique(c: Codec, o: Options, run: seq<Action>, ss: seq<Shard>, ss1: seq<Shard>,
                                             j: nat)
    requires o.syncEveryN > 0 && Behaviour(c, o, run, ss) && Behaviour(c, o, run, ss1) && ss[0] == ss1[0]
    requires j <= |run|
    ensures ss[j] == ss1[j]
    decreases j
  {
    if j > 0 {
      BehaviourIsUnique(c, o, run, ss, ss1, j - 1);
      assert StepsTo(c, o, ss[j - 1], run[j - 1], ss[j]) && StepsTo(c, o, ss1[j - 1], run[j - 1], ss1[j]);
    }
  }

  /** A run that leaves nothing waiting, its records all accepted: where to cut the file to leave `n` of them. */
  lemma CutRun(c: Codec, o: Options, run: seq<Action>, ss: seq<Shard>, es: seq<Entry>, n: nat) returns (cut: nat)
    requires Faithful(c) && o.syncEveryN > 0 && Behaviour(c, o, run, ss) && ss[0] == FRESH && Drained(ss[|run|])
    requires Records(ss[|run|]) == es && Loggable(c, es) && n <= |es|
    ensures cut <= |ss[|run|].pipe.file| && Parse(c, ss[|run|].pipe.file[..cut]).entries == es[..n]
  {
    FreshInv(c);
    BehaviourKeepsInv(c, o, run, ss, |run|);
    DrainedIsFiled(c, ss[|run|]);
    AllLogged(c, es);
    cut := CutFrames(c, es, n);
  }

  /** The states of the run are those of the scenario. */
  lemma LateStates(c: Codec, o: Options, x: LateChange, ss: seq<Shard>)
    requires o.syncEveryN > 0 && x.Valid() && AllFit(c, x.Lines()) && Behaviour(c, o, x.Run(), ss) && ss[0] == FRESH
    ensures Drained(ss[9]) && Records(ss[9]) == x.Lines() && forall j :: 0 <= j < 10 ==> ss[j].mem == x.Stored(j)
  {
    var ss1 := x.Runs(c, o);
    assert x.Run()[0..] == x.Run();
    SameStates(c, o, x.Run(), ss, ss1);
  }

  lemma SameStates(c: Codec, o: Options, run: seq<Action>, ss: seq<Shard>, ss1: seq<Shard>)
    requires o.syncEveryN > 0 && Behaviour(c, o, run, ss) && Behaviour(c, o, run, ss1) && ss[0] == ss1[0]
    ensures ss == ss1
  {
    forall j | 0 <= j < |ss| ensures ss[j] == ss1[j] { BehaviourIsUnique(c, o, run, ss, ss1, j); }
  }

  /**
   * Why crash consistency needs the waiting records to be left alone: TTL.EXPIRE logs the live object of a key,
   * another key is written, and then MAP.DEL changes the object before its first record is framed. A crash that
   * cuts the file behind that record is recovered to a memory that has the later change but not the write before
   * it: the run was never in such a state.
   */
  lemma SharedObjectsBreakPrefixes(c: Codec, o: Options, x: LateChange, ss: seq<Shard>) returns (cut: nat)
    requires Faithful(c) && o.syncEveryN > 0 && x.Valid() && Loggable(c, x.Lines())
    requires Behaviour(c, o, x.Run(), ss) && ss[0] == FRESH
    ensures cut <= |ss[9].pipe.file|
    ensures var found := Recover(c, ss[9].pipe.file[..cut], _ => Reading(x.t, x.t));
            && At(found, x.k) == Some(Item(MAP_KIND, x.v1, x.t + x.ttl)) && x.other !in found
            && forall j :: 0 <= j < 10 ==> At(found, x.k) != At(ss[j].mem, x.k) || x.other in ss[j].mem
  {
    LateStates(c, o, x, ss);
    cut := CutRun(c, o, x.Run(), ss, x.Lines(), 2);
    x.Replayed();
    forall j | 0 <= j < 10 ensures At(ss[j].mem, x.k) != Some(x.Third()) || x.other in ss[j].mem { x.Moments(j); }
  }
}
