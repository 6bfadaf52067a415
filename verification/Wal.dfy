/**
 * One shard of the write-ahead log: a channel of entries, a goroutine that frames and batches them, and the
 * file behind it. An entry holds a pointer to its object, which is read only when the entry is framed.
 */
module Wal {
  import opened Base
  import opened Store
  import opened LogFormat

  datatype SyncPolicy = SyncNever | SyncEveryBatch | SyncEveryNBatch

  datatype Options = Options(batchBytes: int, policy: SyncPolicy, syncEveryN: int)

  ghost predicate Usable(o: Options)
  {
    o.batchBytes > 0 && o.syncEveryN > 0
  }

  function WithDefaults(o: Options): (r: Options)
    ensures Usable(r) && r.policy == o.policy
    ensures r.batchBytes == o.batchBytes || (o.batchBytes <= 0 && r.batchBytes == 1024 * 1024)
    ensures r.syncEveryN == o.syncEveryN || (o.syncEveryN <= 0 && r.syncEveryN == 10)
  {
    o.(batchBytes := if o.batchBytes <= 0 then 0x10_0000 else o.batchBytes,
       syncEveryN := if o.syncEveryN <= 0 then 10 else o.syncEveryN)
  }

  // ---------- The pipeline as a value ----------

  /** Waiting entries, the unflushed batch, the running record total, the file and its synced prefix. */
  datatype Pipe = Pipe(queue: seq<Entry>, batch: bytes, count: nat, file: bytes, synced: nat)

  function EncodeStep(c: Codec, p: Pipe): Pipe
    requires p.queue != []
  {
    p.(queue := p.queue[1..], batch := p.batch + Frame(c, p.queue[0]),
       count := if c.marshal(p.queue[0]).Some? then p.count + 1 else p.count)
  }

  /** a % n, by repeated subtraction. */
  function Remainder(a: nat, n: nat): (r: nat)
    requires n > 0
    ensures r < n
    decreases a
  {
    if a < n then a else Remainder(a - n, n)
  }

  /** "Every N batches" is in fact: whenever the total of records so far is a multiple of N. */
  predicate NeedsSync(o: Options, count: nat)
    requires o.syncEveryN > 0
  {
    match o.policy
    case SyncNever => false
    case SyncEveryBatch => true
    case SyncEveryNBatch => Remainder(count, o.syncEveryN) == 0
  }

  function FlushStep(o: Options, p: Pipe, force: bool): Pipe
    requires o.syncEveryN > 0
  {
    if p.batch == [] then p
    else
      var file := p.file + p.batch;
      p.(batch := [], file := file, synced := if force || NeedsSync(o, p.count) then |file| else p.synced)
  }

  /** Remainder is the remainder. */
  lemma {:induction false} RemainderIsMod(a: nat, n: nat)
    requires n > 0
    ensures Remainder(a, n) == a % n
    decreases a
  {
    if a >= n {
      RemainderIsMod(a - n, n);
      var q, r := (a - n) / n, (a - n) % n;
      assert a == n * (q + 1) + r;
      QuotientIsUnique(a, n, q + 1, r);
    }
  }

  lemma QuotientIsUnique(a: nat, n: nat, q: nat, r: nat)
    requires r < n && a == n * q + r
    ensures a % n == r
  {
    var d := a / n - q;
    assert n * d == r - a % n;
    assert d >= 1 ==> n * d >= n;
    assert d <= -1 ==> n * d <= n * -1;
  }

  // ---------- Which batches are synced ----------

  /** How many of the entries the encoding accepts. */
  function Encoded(c: Codec, es: seq<Entry>): nat
  {
    if es == [] then 0 else (if c.marshal(es[0]).Some? then 1 else 0) + Encoded(c, es[1..])
  }

  function EncodeAll(c: Codec, p: Pipe): Pipe
    decreases |p.queue|
  {
    if p.queue == [] then p else EncodeAll(c, EncodeStep(c, p))
  }

  /** One batch: these entries arrive, are framed, and the batch is flushed because it is full or its time is up. */
  function BatchStep(c: Codec, o: Options, p: Pipe, batch: seq<Entry>): Pipe
    requires o.syncEveryN > 0
  {
    FlushStep(o, EncodeAll(c, p.(queue := batch)), false)
  }

  function Batches(c: Codec, o: Options, p: Pipe, batches: seq<seq<Entry>>): Pipe
    requires o.syncEveryN > 0
    decreases |batches|
  {
    if batches == [] then p else Batches(c, o, BatchStep(c, o, p, batches[0]), batches[1..])
  }

  lemma {:induction false} EncodeAllFrames(c: Codec, p: Pipe)
    ensures EncodeAll(c, p) == p.(queue := [], batch := p.batch + Frames(c, p.queue),
                                  count := p.count + Encoded(c, p.queue))
    decreases |p.queue|
  {
    if p.queue == [] {
      assert p.batch + [] == p.batch;
    } else {
      EncodeAllFrames(c, EncodeStep(c, p));
      assert p.batch + Frame(c, p.queue[0]) + Frames(c, p.queue[1..])
          == p.batch + (Frame(c, p.queue[0]) + Frames(c, p.queue[1..]));
    }
  }

  /** The first `k + 1` batches together: records encoded, and bytes written. */
  function RecordsUpTo(c: Codec, batches: seq<seq<Entry>>, k: nat): nat
    requires k < |batches|
  {
    Encoded(c, batches[0]) + if k == 0 then 0 else RecordsUpTo(c, batches[1..], k - 1)
  }

  function BytesUpTo(c: Codec, batches: seq<seq<Entry>>, k: nat): nat
    requires k < |batches|
  {
    |Frames(c, batches[0])| + if k == 0 then 0 else BytesUpTo(c, batches[1..], k - 1)
  }

  /** Batch `k` holds something, and with it the running total of records is a multiple of N. */
  predicate SyncsAt(c: Codec, o: Options, count: nat, batches: seq<seq<Entry>>, k: nat)
    requires o.syncEveryN > 0 && k < |batches|
  {
    Frames(c, batches[k]) != [] && Remainder(count + RecordsUpTo(c, batches, k), o.syncEveryN) == 0
  }

  /** No batch from number `k` on syncs. */
  ghost predicate NoSyncFrom(c: Codec, o: Options, count: nat, batches: seq<seq<Entry>>, k: nat)
    requires o.syncEveryN > 0
  {
    forall j :: k <= j < |batches| ==> !SyncsAt(c, o, count, batches, j)
  }

  lemma FirstBatch(c: Codec, o: Options, p: Pipe, batches: seq<seq<Entry>>)
    requires o.policy == SyncEveryNBatch && o.syncEveryN > 0 && batches != []
    requires p.batch == [] && p.queue == [] && p.synced <= |p.file|
    ensures var p1 := BatchStep(c, o, p, batches[0]);
            && p1.batch == [] && p1.queue == [] && p1.count == p.count + Encoded(c, batches[0])
            && |p1.file| == |p.file| + |Frames(c, batches[0])|
            && p1.synced == (if SyncsAt(c, o, p.count, batches, 0) then |p1.file| else p.synced)
  {
    EncodeAllFrames(c, p.(queue := batches[0]));
    assert p.batch + Frames(c, batches[0]) == Frames(c, batches[0]);
  }

  /** Counting on from the first batch. */
  lemma LaterBatch(c: Codec, o: Options, count: nat, batches: seq<seq<Entry>>, count1: nat, rest: seq<seq<Entry>>,
                   k: nat)
    requires o.syncEveryN > 0 && k + 1 < |batches| && rest == batches[1..] && count1 == count + Encoded(c, batches[0])
    ensures SyncsAt(c, o, count1, rest, k) <==> SyncsAt(c, o, count, batches, k + 1)
  {
    assert RecordsUpTo(c, batches, k + 1) == Encoded(c, batches[0]) + RecordsUpTo(c, batches[1..], k);
    assert batches[1..][k] == batches[k + 1];
  }

  lemma LaterBatches(c: Codec, o: Options, count: nat, batches: seq<seq<Entry>>, count1: nat, rest: seq<seq<Entry>>,
                     k: nat)
    requires o.syncEveryN > 0 && batches != [] && rest == batches[1..] && count1 == count + Encoded(c, batches[0])
    ensures NoSyncFrom(c, o, count, batches, k + 1) <==> NoSyncFrom(c, o, count1, rest, k)
  {
    if NoSyncFrom(c, o, count, batches, k + 1) {
      forall j | k <= j < |rest| ensures !SyncsAt(c, o, count1, rest, j) {
        LaterBatch(c, o, count, batches, count1, rest, j);
      }
    }
    if NoSyncFrom(c, o, count1, rest, k) {
      forall j | k + 1 <= j < |batches| ensures !SyncsAt(c, o, count, batches, j) {
        LaterBatch(c, o, count, batches, count1, rest, j - 1);
      }
    }
  }

  /**
   * The every-N policy, for any batches of any entries: something is synced if and only if some batch that is
   * not empty brings the running total of records, counted since the shard was opened, to a multiple of N.
   */
  lemma {:induction false} EveryNSyncsIff(c: Codec, o: Options, p: Pipe, batches: seq<seq<Entry>>)
    requires o.policy == SyncEveryNBatch && o.syncEveryN > 0
    requires p.batch == [] && p.queue == [] && p.synced <= |p.file|
    ensures var p1 := Batches(c, o, p, batches);
            && p.synced <= p1.synced <= |p1.file|
            && (p1.synced == p.synced <==> NoSyncFrom(c, o, p.count, batches, 0))
    decreases |batches|
  {
    if batches != [] {
      var p1, rest := BatchStep(c, o, p, batches[0]), batches[1..];
      FirstBatch(c, o, p, batches);
      LaterBatches(c, o, p.count, batches, p1.count, rest, 0);
      EveryNSyncsIff(c, o, p1, rest);
      NoSyncSplit(c, o, p.count, batches);
    }
  }

  lemma NoSyncSplit(c: Codec, o: Options, count: nat, batches: seq<seq<Entry>>)
    requires o.syncEveryN > 0 && batches != []
    ensures NoSyncFrom(c, o, count, batches, 0) <==>
            !SyncsAt(c, o, count, batches, 0) && NoSyncFrom(c, o, count, batches, 1)
  {
  }

  /** The synced prefix of the file ends exactly behind the last such batch: everything later is lost with the power. */
  lemma {:induction false} SyncedUpToTheLastSuchBatch(c: Codec, o: Options, p: Pipe, batches: seq<seq<Entry>>, k: nat)
    requires o.policy == SyncEveryNBatch && o.syncEveryN > 0
    requires p.batch == [] && p.queue == [] && p.synced <= |p.file| && k < |batches|
    requires SyncsAt(c, o, p.count, batches, k) && NoSyncFrom(c, o, p.count, batches, k + 1)
    ensures Batches(c, o, p, batches).synced == |p.file| + BytesUpTo(c, batches, k)
    decreases |batches|
  {
    var p1, rest := BatchStep(c, o, p, batches[0]), batches[1..];
    FirstBatch(c, o, p, batches);
    LaterBatches(c, o, p.count, batches, p1.count, rest, k);
    if k == 0 {
      EveryNSyncsIff(c, o, p1, rest);
    } else {
      LaterBatch(c, o, p.count, batches, p1.count, rest, k - 1);
      SyncedUpToTheLastSuchBatch(c, o, p1, rest, k - 1);
    }
  }

  /**
   * So "every N batches" can mean never: with the total once off a multiple of N, batches of N records each are
   * not synced.
   */
  lemma {:induction false} EveryNMayNeverSync(c: Codec, o: Options, p: Pipe, batches: seq<seq<Entry>>)
    requires o.policy == SyncEveryNBatch && o.syncEveryN > 0 && Remainder(p.count, o.syncEveryN) != 0
    requires forall b :: b in batches ==> Encoded(c, b) == o.syncEveryN
    requires p.batch == [] && p.queue == [] && p.synced <= |p.file|
    ensures Batches(c, o, p, batches).synced == p.synced
    decreases |batches|
  {
    if batches != [] {
      var p1 := BatchStep(c, o, p, batches[0]);
      assert batches[0] in batches && forall b :: b in batches[1..] ==> b in batches;
      FirstBatch(c, o, p, batches);
      assert RecordsUpTo(c, batches, 0) == o.syncEveryN;
      assert Remainder(p.count + o.syncEveryN, o.syncEveryN) == Remainder(p.count, o.syncEveryN);
      EveryNMayNeverSync(c, o, p1, batches[1..]);
    }
  }

  /** The every-batch policy never leaves a flushed batch unsynced. */
  lemma {:induction false} EveryBatchIsSynced(c: Codec, o: Options, p: Pipe, batches: seq<seq<Entry>>)
    requires o.policy == SyncEveryBatch && o.syncEveryN > 0 && p.synced == |p.file| && p.batch == []
    ensures var p1 := Batches(c, o, p, batches); p1.synced == |p1.file| && p1.batch == []
    decreases |batches|
  {
    if batches != [] {
      EncodeAllFrames(c, p.(queue := batches[0]));
      EveryBatchIsSynced(c, o, BatchStep(c, o, p, batches[0]), batches[1..]);
    }
  }

  /** Under the policy that never syncs no flush of a batch syncs anything; only the end of the channel does. */
  lemma {:induction false} NothingIsSynced(c: Codec, o: Options, p: Pipe, batches: seq<seq<Entry>>)
    requires o.policy == SyncNever && o.syncEveryN > 0 && p.batch == []
    ensures Batches(c, o, p, batches).synced == p.synced
    decreases |batches|
  {
    if batches != [] {
      EncodeAllFrames(c, p.(queue := batches[0]));
      NothingIsSynced(c, o, BatchStep(c, o, p, batches[0]), batches[1..]);
    }
  }

  // ---------- The shard object ----------

  datatype QueueEntry = QueueEntry(op: LogOp, key: string, obj: Object?)

  /** The entry as it would be framed now. */
  function Deref(e: QueueEntry): Entry
    reads if e.obj == null then {} else {e.obj}
  {
    Entry(e.op, e.key, if e.obj == null then None else Some(e.obj.Contents()))
  }

  function DerefAll(q: seq<QueueEntry>): (r: seq<Entry>)
    reads set i | 0 <= i < |q| && q[i].obj != null :: q[i].obj
    ensures |r| == |q| && forall i :: 0 <= i < |q| ==> r[i] == Deref(q[i])
  {
    if q == [] then [] else [Deref(q[0])] + DerefAll(q[1..])
  }

  lemma FlushedFrames(c: Codec, base: bytes, filed: seq<Entry>, batched: seq<Entry>)
    ensures base + Frames(c, filed) + Frames(c, batched) == base + Frames(c, filed + batched)
    ensures Frames(c, []) == [] && filed + batched + [] == filed + batched
  {
    FramesAppend(c, filed, batched);
    var f, b := Frames(c, filed), Frames(c, batched);
    assert base + f + b == base + (f + b);
  }

  /** Each framed entry is the entry sent, with the object contents of the moment of framing. */
  ghost predicate FramedInOrder(log: seq<Entry>, sent: seq<QueueEntry>)
  {
    && |log| == |sent|
    && forall i {:trigger log[i], sent[i]} :: 0 <= i < |log| ==>
         log[i].op == sent[i].op && log[i].key == sent[i].key && (log[i].obj.None? <==> sent[i].obj == null)
  }

  lemma OneMoreFramed(c: Codec, filed: seq<Entry>, batched: seq<Entry>, taken: seq<QueueEntry>,
                      q: QueueEntry, e: Entry)
    requires FramedInOrder(filed + batched, taken)
    requires e.op == q.op && e.key == q.key && (e.obj.None? <==> q.obj == null)
    ensures FramedInOrder(filed + (batched + [e]), taken + [q])
    ensures Frames(c, batched + [e]) == Frames(c, batched) + Frame(c, e)
  {
    FramesOneMore(c, batched, e);
    assert filed + (batched + [e]) == (filed + batched) + [e];
  }

  /**
   * What happens around the goroutine before its next channel operation: entries arrive, commands write
   * into objects, the channel is closed; and whether the timer fires and the batch deadline has passed.
   */
  datatype Tick = Tick(arrivals: seq<QueueEntry>, writes: map<Object, Item>, close: bool, timer: bool, late: bool)

  /** What the ticks from the `i`-th on still put on the channel: nothing once it is closed. */
  function Arrivals(closed: bool, ticks: seq<Tick>, i: nat): seq<QueueEntry>
    requires i <= |ticks|
    decreases |ticks| - i
  {
    if i == |ticks| then []
    else (if closed then [] else ticks[i].arrivals) + Arrivals(closed || ticks[i].close, ticks, i + 1)
  }

  /** What has been accepted and what the ticks from the `i`-th on will still bring. */
  function Intake(accepted: seq<QueueEntry>, closed: bool, ticks: seq<Tick>, i: nat): seq<QueueEntry>
    requires i <= |ticks|
    decreases |ticks| - i
  {
    if i == |ticks| then accepted
    else Intake(if closed then accepted else accepted + ticks[i].arrivals, closed || ticks[i].close, ticks, i + 1)
  }

  lemma {:induction false} IntakeAddsUp(accepted: seq<QueueEntry>, closed: bool, ticks: seq<Tick>, i: nat)
    requires i <= |ticks|
    ensures Intake(accepted, closed, ticks, i) == accepted + Arrivals(closed, ticks, i)
    decreases |ticks| - i
  {
    if i == |ticks| {
      assert accepted + [] == accepted;
    } else {
      var next := if closed then accepted else accepted + ticks[i].arrivals;
      var rest := Arrivals(closed || ticks[i].close, ticks, i + 1);
      IntakeAddsUp(next, closed || ticks[i].close, ticks, i + 1);
      assert accepted + (ticks[i].arrivals + rest) == accepted + ticks[i].arrivals + rest;
      assert [] + rest == rest;
    }
  }

  lemma {:induction false} NoArrivalsWhenClosed(ticks: seq<Tick>, i: nat)
    requires i <= |ticks|
    ensures Arrivals(true, ticks, i) == []
    decreases |ticks| - i
  {
    if i < |ticks| { NoArrivalsWhenClosed(ticks, i + 1); }
  }

  lemma AllFlushed(c: Codec, base: bytes, filed: seq<Entry>, batched: seq<Entry>)
    requires Frames(c, batched) == []
    ensures base + Frames(c, filed) == base + Frames(c, filed + batched)
  {
    FramesAppend(c, filed, batched);
    assert Frames(c, filed) + [] == Frames(c, filed);
  }

  function Written(ticks: seq<Tick>): set<Object>
  {
    set t, o | t in ticks && o in t.writes :: o
  }

  lemma MoveFirst<T>(a: seq<T>, b: seq<T>, c: seq<T>)
    requires c != []
    ensures a + (b + [c[0]]) + c[1..] == a + b + c
    ensures (b + [c[0]]) + c[1..] == b + c
  {
    assert [c[0]] + c[1..] == c;
  }

  /** Nothing but the goroutine runs: no command writes into an object. */
  ghost predicate Quiet(ticks: seq<Tick>)
  {
    forall t :: t in ticks ==> t.writes == map[]
  }

  lemma QuietWritesNothing(ticks: seq<Tick>)
    requires Quiet(ticks)
    ensures Written(ticks) == {}
  {
  }

  /** On a closed channel every tick of the inner loop takes one entry, except the one that finds it drained. */
  ghost predicate Consumed(before: nat, after: nat, ticks: int, stop: Stop, below: bool)
  {
    && after <= before
    && ticks == (before - after) + (if stop.Finished? then 1 else 0)
    && (stop.AtHead? && below ==> after < before)
  }

  /** What the inner loop changes that can be counted. */
  datatype Counts = Counts(closed: bool, waiting: nat, size: nat, synced: nat, batch: nat)

  /** After this many turns of the inner loop. */
  ghost predicate Turned(a: Counts, b: Counts, turns: nat, stop: Stop)
  {
    && (!stop.Finished? ==> b.size == a.size && b.synced == a.synced)
    && (a.closed ==> b.closed && !stop.AtHead? && turns == a.waiting - b.waiting + if stop.Finished? then 1 else 0)
    && (turns == 0 ==> stop.InDrain? && b.batch == a.batch)
    && (stop.AtHead? ==> b.waiting == 0)
    && (stop.Finished? ==> b.closed && b.waiting == 0 && b.batch == 0)
  }

  /**
   * What an outer iteration that comes to its end has done: a batch whose time was up is in the file, so is one that
   * reached the target before the channel was empty, and no other.
   */
  ghost predicate Advanced(a: Counts, b: Counts, late: bool, target: nat)
  {
    && a.size <= b.size
    && (late ==> b.batch == 0)
    && (b.waiting == 0 || (b.batch == 0 && b.size >= a.size + target))
    && (b.size == a.size || late || b.size >= a.size + target)
  }

  lemma OneMoreTurn(a: Counts, b: Counts, c: Counts, turns: nat, stop: Stop)
    requires Turned(a, b, turns, InDrain) && Turned(b, c, 1, stop)
    ensures Turned(a, c, turns + 1, stop)
  {
  }

  /**
   * The outer iterations so far: they began at the ticks `heads`; the last one has flushed a batch whose time was up
   * or behind which entries are waiting; the file has grown only by full batches, unless some time was up.
   */
  ghost predicate Begun(ticks: seq<Tick>, heads: seq<nat>, used: nat, a: Counts, b: Counts, target: nat)
  {
    && (heads == [] <==> used == 0) && (forall i :: 0 <= i < |heads| ==> heads[i] < |ticks|)
    && (heads != [] && (ticks[heads[|heads| - 1]].late || b.waiting > 0) ==> b.batch == 0)
    && a.size <= b.size && (NeverLate(ticks) ==> Grown(a.size, b.size, target))
  }

  /** No deadline passes. */
  ghost predicate NeverLate(ticks: seq<Tick>)
  {
    forall t :: t in ticks ==> !t.late
  }

  /** A file that has grown has grown by a full batch at least. */
  predicate Grown(before: nat, after: nat, target: nat)
  {
    after == before || after >= before + target
  }

  lemma OneMoreIteration(ticks: seq<Tick>, heads: seq<nat>, used: nat, a: Counts, b: Counts, c: Counts, target: nat,
                         used1: nat)
    requires Begun(ticks, heads, used, a, b, target) && used < |ticks| && used < used1
    requires Advanced(b, c, ticks[used].late, target)
    ensures Begun(ticks, heads + [used], used1, a, c, target)
  {
    assert ticks[used] in ticks;
  }

  method WriteObjects(writes: map<Object, Item>)
    modifies writes.Keys
    ensures forall o :: o in writes ==> o.Contents() == writes[o]
  {
    forall o | o in writes { o.kind := writes[o].kind; }
    forall o | o in writes { o.value := writes[o].value; }
    forall o | o in writes { o.timestamp := writes[o].timestamp; }
  }

  datatype Stop = Finished | AtHead | InDrain

  class WalShard {
    const codec: Codec
    const opts: Options
    var ch: seq<QueueEntry>
    var closed: bool
    var batchBuf: bytes
    var batchBytes: nat
    var batchCount: nat
    var file: bytes
    var synced: nat
    ghost const base: bytes             // the file when it was opened
    ghost var taken: seq<QueueEntry>    // everything ever taken off the channel
    ghost var filed: seq<Entry>         // what was framed and is in the file, as it was framed
    ghost var batched: seq<Entry>       // what was framed since
    ghost var peak: nat                 // the largest batch so far

    /** Opens the shard for appending to an existing file. */
    constructor (codec: Codec, options: Options, file: bytes)
      ensures Valid() && Bounded() && this.codec == codec && opts == WithDefaults(options)
      ensures base == this.file == file && Accepted() == [] && Log() == [] && !closed
      ensures batchBytes == 0 && batchCount == 0 && synced == |file|
    {
      this.codec, this.opts := codec, WithDefaults(options);
      ch, closed, batchBuf, batchBytes, batchCount := [], false, [], 0, 0;
      this.file, synced := file, |file|;
      base, taken, filed, batched, peak := file, [], [], [], 0;
      new;
      assert file + [] == file;
    }

    /** Everything ever put on the channel. */
    ghost function Accepted(): seq<QueueEntry>
      reads this
    {
      taken + ch
    }

    /** Everything framed so far, as it was framed. */
    ghost function Log(): seq<Entry>
      reads this`filed, this`batched
    {
      filed + batched
    }

    /**
     * Conservation: the file is what it was plus the frames of what was flushed, the batch holds the frames of
     * the rest, and the framed entries are the accepted ones in order, each once, up to the waiting ones. What is
     * still on the channel does not matter.
     */
    ghost predicate Valid()
      reads this`batchBuf, this`batchBytes, this`file, this`synced, this`taken, this`filed, this`batched, this`peak
    {
      && Usable(opts) && batchBytes == |batchBuf| && synced <= |file| && batchBytes <= peak
      && file == base + Frames(codec, filed) && batchBuf == Frames(codec, batched)
      && FramedInOrder(filed + batched, taken)
    }

    /** No batch has ever exceeded its target by more than the largest record there was. */
    ghost predicate Bounded()
      reads this`filed, this`batched, this`peak
    {
      peak < opts.batchBytes || exists e :: e in Log() && peak < opts.batchBytes + |Frame(codec, e)|
    }

    function View(): Pipe
      reads this, set i | 0 <= i < |ch| && ch[i].obj != null :: ch[i].obj
    {
      Pipe(DerefAll(ch), batchBuf, batchCount, file, synced)
    }

    /** Framed or waiting, as it was or would now be framed. */
    ghost function Everything(): seq<Entry>
      reads this, set i | 0 <= i < |ch| && ch[i].obj != null :: ch[i].obj
    {
      Log() + DerefAll(ch)
    }

    /** While nothing arrives and nobody writes into objects, this is all there is, framed or waiting. */
    ghost predicate Steady(ticks: seq<Tick>, all: Option<seq<Entry>>)
      reads this, set i | 0 <= i < |ch| && ch[i].obj != null :: ch[i].obj
    {
      all.Some? ==> closed && Quiet(ticks) && Everything() == all.value
    }

    /** The channel is closed and everything has been taken off it and flushed. */
    ghost predicate Emptied()
      reads this
    {
      closed && |ch| == 0 && |batchBuf| == 0
    }

    /**
     * Everything accepted by now or brought by the ticks from the `i`-th on, provided that the shard is in order:
     * this is what the goroutine keeps from tick to tick.
     */
    ghost function Ever(ticks: seq<Tick>, i: nat, all: Option<seq<Entry>>): Option<seq<QueueEntry>>
      reads this, set i | 0 <= i < |ch| && ch[i].obj != null :: ch[i].obj
    {
      if i <= |ticks| && Valid() && Bounded() && Steady(ticks, all) then Some(Intake(Accepted(), closed, ticks, i))
      else None
    }

    /** Everything framed is in the file. */
    ghost predicate AllWritten()
      reads this
    {
      batchBuf == [] && file == base + Frames(codec, Log())
    }

    /** Puts an entry on the channel (an accepted enqueue). */
    method Send(e: QueueEntry)
      requires !closed
      modifies this`ch
      ensures ch == old(ch) + [e]
    {
      ch := ch + [e];
    }

    /** Appends the frame of `e` to the batch; an entry the encoding refuses is dropped. */
    method EncodeAppend(e: QueueEntry)
      requires batchBytes == |batchBuf|
      modifies this`batchBuf, this`batchBytes, this`batchCount
      ensures batchBytes == |batchBuf|
      ensures batchBuf == old(batchBuf) + Frame(codec, Deref(e))
      ensures batchCount == old(batchCount) + if codec.marshal(Deref(e)).Some? then 1 else 0
    {
      var data := codec.marshal(Deref(e));
      if data.None? {
        return;
      }
      var crc := codec.crc(data.value);
      var recLen := 4 + |data.value|;
      var header := BE32(recLen % TWO32) + BE32(crc);
      batchBuf := batchBuf + header;
      batchBuf := batchBuf + data.value;
      batchBytes := batchBytes + 8 + |data.value|;
      batchCount := batchCount + 1;
    }

    /** Takes one entry off the channel and frames it. */
    method Receive()
      requires Valid() && ch != []
      modifies this`ch, this`batchBuf, this`batchBytes, this`batchCount, this`batched, this`taken, this`peak
      ensures Valid() && ch == old(ch)[1..] && taken == old(taken) + [old(ch[0])]
      ensures batched == old(batched) + [old(Deref(ch[0]))]
      ensures batchBuf == old(batchBuf) + Frame(codec, old(Deref(ch[0])))
      ensures batchCount == old(batchCount) + if codec.marshal(old(Deref(ch[0]))).Some? then 1 else 0
      ensures peak == if batchBytes > old(peak) then batchBytes else old(peak)
    {
      var e := ch[0];
      ghost var framed := Deref(e);
      OneMoreFramed(codec, filed, batched, taken, e, framed);
      ch := ch[1..];
      EncodeAppend(e);
      taken, batched := taken + [e], batched + [framed];
      peak := if batchBytes > peak then batchBytes else peak;
    }

    /** The same step seen as a step of the pipeline value. */
    method Drain()
      requires Valid() && ch != []
      modifies this`ch, this`batchBuf, this`batchBytes, this`batchCount, this`batched, this`taken, this`peak
      ensures Valid() && View() == EncodeStep(codec, old(View())) && ch == old(ch)[1..]
      ensures taken == old(taken) + [old(ch[0])] && batched == old(batched) + [old(View()).queue[0]]
      ensures old(batchBytes) < opts.batchBytes && old(Bounded()) ==> Bounded()
    {
      ghost var was, e := View(), Deref(ch[0]);
      Receive();
      assert e in batched;
      assert DerefAll(ch) == was.queue[1..];
    }

    /** Moves the batch to the file and syncs it if the policy or the caller wants that. */
    method Flush(forceSync: bool)
      requires Valid()
      modifies this`batchBuf, this`batchBytes, this`file, this`synced, this`filed, this`batched
      ensures Valid() && batchBuf == [] && file == old(file) + old(batchBuf)
      ensures synced ==
              if old(batchBytes) > 0 && (forceSync || NeedsSync(opts, batchCount)) then |file| else old(synced)
      ensures if old(batchBytes) > 0 then filed == old(Log()) && batched == []
              else filed == old(filed) && batched == old(batched)
      ensures Log() == old(Log())
    {
      if batchBytes == 0 {
        assert file + batchBuf == file;
        return;
      }
      file := file + batchBuf;
      var needSync := false;
      match opts.policy {
        case SyncEveryBatch => needSync := true;
        case SyncEveryNBatch => needSync := Remainder(batchCount, opts.syncEveryN) == 0;
        case SyncNever =>
      }
      if forceSync {
        needSync := true;
      }
      if needSync {
        synced := |file|;
      }
      batchBuf := [];
      batchBytes := 0;
      FlushedFrames(codec, base, filed, batched);
      filed, batched := filed + batched, [];
    }

    /** The same step seen as a step of the pipeline value. */
    method FlushPipe(forceSync: bool)
      requires Valid()
      modifies this`batchBuf, this`batchBytes, this`file, this`synced, this`filed, this`batched
      ensures Valid() && View() == FlushStep(opts, old(View()), forceSync)
      ensures if old(View()).batch != [] then filed == old(Log()) && batched == []
              else filed == old(filed) && batched == old(batched)
      ensures Log() == old(Log()) && (old(Bounded()) ==> Bounded())
    {
      Flush(forceSync);
    }

    /** A flush between two channel operations. */
    method FlushNow(forceSync: bool, ghost ticks: seq<Tick>, ghost i: nat, ghost total: seq<QueueEntry>,
                    ghost all: Option<seq<Entry>>)
      requires Ever(ticks, i, all) == Some(total)
      modifies this`batchBuf, this`batchBytes, this`file, this`synced, this`filed, this`batched
      ensures Ever(ticks, i, all) == Some(total) && batchBuf == []
      ensures |file| == old(|file|) + old(batchBytes)
      ensures old(batchBytes) > 0 && forceSync ==> synced == |file|
    {
      ghost var was := View();
      FlushPipe(forceSync);
      assert View().queue == was.queue;
    }

    /** Tick `i`: what happens around the goroutine before its next channel operation. */
    method Surroundings(ticks: seq<Tick>, i: nat, ghost total: seq<QueueEntry>)
      requires Valid() && i < |ticks| && Intake(Accepted(), closed, ticks, i) == total
      modifies this`ch, this`closed, ticks[i].writes.Keys
      ensures Valid() && Intake(Accepted(), closed, ticks, i + 1) == total
      ensures closed == (old(closed) || ticks[i].close)
      ensures old(closed) ==> ch == old(ch)
      ensures old(closed) && ticks[i].writes == map[] ==> View().queue == old(View()).queue
    {
      var t := ticks[i];
      if !closed {
        assert taken + (ch + t.arrivals) == (taken + ch) + t.arrivals;
        ch := ch + t.arrivals;
      }
      closed := closed || t.close;
      WriteObjects(t.writes);
    }

    /** Takes and frames the first waiting entry; nothing accepted is lost. */
    method TakeOne(ghost ticks: seq<Tick>, ghost i: nat, ghost total: seq<QueueEntry>)
      requires Valid() && ch != [] && i <= |ticks| && Intake(Accepted(), closed, ticks, i) == total
      modifies this`ch, this`batchBuf, this`batchBytes, this`batchCount, this`taken, this`batched, this`peak
      ensures Valid() && Intake(Accepted(), closed, ticks, i) == total && |ch| == old(|ch|) - 1
      ensures old(batchBytes) <= batchBytes && Everything() == old(Everything())
      ensures old(batchBytes) < opts.batchBytes && old(Bounded()) ==> Bounded()
    {
      MoveFirst([], taken, ch);
      MoveFirst(filed, batched, DerefAll(ch));
      Drain();
    }

    /** A receive that does not wait: takes and frames an entry if one is there after tick `i`. */
    method TryReceive(ticks: seq<Tick>, i: nat, ghost total: seq<QueueEntry>, ghost all: Option<seq<Entry>>)
      returns (got: bool)
      requires i < |ticks| && Ever(ticks, i, all) == Some(total) && batchBytes < opts.batchBytes
      modifies this`ch, this`closed, this`batchBuf, this`batchBytes, this`batchCount
      modifies this`taken, this`batched, this`peak
      modifies Written(ticks)
      ensures Ever(ticks, i + 1, all) == Some(total)
      ensures closed == (old(closed) || ticks[i].close)
      ensures !got ==> ch == [] && batchBytes == old(batchBytes)
      ensures old(batchBytes) <= batchBytes
      ensures old(closed) ==> |ch| == old(|ch|) - if got then 1 else 0
    {
      assert ticks[i] in ticks;
      Surroundings(ticks, i, total);
      got := ch != [];
      if got {
        TakeOne(ticks, i + 1, total);
      }
    }

    ghost function Dials(): Counts
      reads this
    {
      Counts(closed, |ch|, |file|, synced, batchBytes)
    }

    /** The inner select: an entry (InDrain: go on), nothing there (AtHead), or the end of a closed channel. */
    method ReceiveOrStop(ticks: seq<Tick>, i: nat, ghost total: seq<QueueEntry>, ghost all: Option<seq<Entry>>)
      returns (stop: Stop)
      requires i < |ticks| && Ever(ticks, i, all) == Some(total) && batchBytes < opts.batchBytes
      modifies this`ch, this`closed, this`batchBuf, this`batchBytes, this`batchCount
      modifies this`taken, this`batched, this`filed, this`file, this`synced, this`peak
      modifies Written(ticks)
      ensures Ever(ticks, i + 1, all) == Some(total)
      ensures stop.Finished? ==> Emptied() && (old(batchBytes) > 0 ==> synced == |file|)
      ensures !stop.Finished? ==> |file| == old(|file|) && synced == old(synced) && old(batchBytes) <= batchBytes
      ensures Turned(old(Dials()), Dials(), 1, stop)
    {
      assert ticks[i] in ticks;
      var got := TryReceive(ticks, i, total, all);
      if got {
        stop := InDrain;
      } else if closed {
        FlushNow(true, ticks, i + 1, total, all);
        stop := Finished;
      } else {
        stop := AtHead;
      }
    }

    /** One turn more of the inner loop. */
    method Turn(ticks: seq<Tick>, i: nat, ghost next: nat, ghost total: seq<QueueEntry>, ghost all: Option<seq<Entry>>,
                ghost was: Counts, ghost turns: nat, ghost turns1: nat)
      returns (stop: Stop)
      requires i < |ticks| && next == i + 1 && turns1 == turns + 1
      requires Ever(ticks, i, all) == Some(total) && batchBytes < opts.batchBytes
      requires Turned(was, Dials(), turns, InDrain)
      modifies this`ch, this`closed, this`batchBuf, this`batchBytes, this`batchCount
      modifies this`taken, this`batched, this`filed, this`file, this`synced, this`peak
      modifies Written(ticks)
      ensures Ever(ticks, next, all) == Some(total) && Turned(was, Dials(), turns1, stop)
    {
      ghost var turn := Dials();
      stop := ReceiveOrStop(ticks, i, total, all);
      OneMoreTurn(was, turn, Dials(), turns, stop);
    }

    /** The turns of the inner loop. */
    method Turns(ticks: seq<Tick>, from: nat, ghost total: seq<QueueEntry>, ghost all: Option<seq<Entry>>)
      returns (stop: Stop, used: nat)
      requires Ever(ticks, from, all) == Some(total)
      modifies this`ch, this`closed, this`batchBuf, this`batchBytes, this`batchCount
      modifies this`taken, this`batched, this`filed, this`file, this`synced, this`peak
      modifies Written(ticks)
      ensures from <= used <= |ticks| && Ever(ticks, used, all) == Some(total)
      ensures Turned(old(Dials()), Dials(), used - from, stop)
      ensures stop.InDrain? ==> used == |ticks| || batchBytes >= opts.batchBytes
    {
      stop, used := InDrain, from;
      ghost var was := Dials();
      while stop.InDrain? && used < |ticks| && batchBytes < opts.batchBytes
        invariant from <= used <= |ticks| && Ever(ticks, used, all) == Some(total)
        invariant Turned(was, Dials(), used - from, stop)
        decreases |ticks| - used
      {
        var next := used + 1;
        stop := Turn(ticks, used, next, total, all, was, used - from, next - from);
        used := next;
      }
    }

    /**
     * The inner loop: keeps taking entries while the batch is below its target. It ends when the target is
     * reached or the channel is momentarily empty (`stop` is AtHead), when the channel is closed and
     * drained, or when the ticks run out.
     */
    method DrainLoop(ticks: seq<Tick>, from: nat, ghost total: seq<QueueEntry>, ghost all: Option<seq<Entry>>)
      returns (stop: Stop, used: nat)
      requires Ever(ticks, from, all) == Some(total)
      modifies this`ch, this`closed, this`batchBuf, this`batchBytes, this`batchCount
      modifies this`taken, this`batched, this`filed, this`file, this`synced, this`peak
      modifies Written(ticks)
      ensures from <= used <= |ticks| && Ever(ticks, used, all) == Some(total)
      ensures stop.InDrain? ==> used == |ticks| && batchBytes < opts.batchBytes
      ensures stop.AtHead? ==> |ch| == 0 || batchBytes >= opts.batchBytes
      ensures stop.Finished? ==> Emptied()
      ensures !stop.Finished? ==> |file| == old(|file|) && synced == old(synced)
      ensures old(closed) ==> closed && Consumed(old(|ch|), |ch|, used - from, stop, old(batchBytes) < opts.batchBytes)
    {
      stop, used := Turns(ticks, from, total, all);
      if stop.InDrain? && batchBytes >= opts.batchBytes {
        stop := AtHead;
      }
    }

    /** The first select of an outer iteration: an entry, the timer (also when nothing comes), or the end. */
    method AwaitEntry(ticks: seq<Tick>, i: nat, ghost total: seq<QueueEntry>, ghost all: Option<seq<Entry>>)
      returns (finished: bool)
      requires i < |ticks| && Ever(ticks, i, all) == Some(total) && batchBytes < opts.batchBytes
      modifies this`ch, this`closed, this`batchBuf, this`batchBytes, this`batchCount
      modifies this`taken, this`batched, this`filed, this`file, this`synced, this`peak
      modifies Written(ticks)
      ensures Ever(ticks, i + 1, all) == Some(total)
      ensures finished ==> Emptied() && (old(batchBytes) > 0 ==> synced == |file|)
      ensures !finished ==> |file| == old(|file|)
      ensures old(closed) ==> closed && |ch| <= old(|ch|)
      ensures old(closed) && |ch| == old(|ch|) && !finished ==> batchBytes < opts.batchBytes
    {
      assert ticks[i] in ticks;
      finished := false;
      if ticks[i].timer {
        Surroundings(ticks, i, total);
      } else {
        var got := TryReceive(ticks, i, total, all);
        if !got && closed {
          FlushNow(true, ticks, i + 1, total, all);
          finished := true;
        }
      }
    }

    /** The flush check at the end of an outer iteration: flushes a batch that is large enough or late. */
    method FlushCheck(late: bool, ghost ticks: seq<Tick>, ghost i: nat, ghost total: seq<QueueEntry>,
                      ghost all: Option<seq<Entry>>)
      requires Ever(ticks, i, all) == Some(total)
      modifies this`batchBuf, this`batchBytes, this`file, this`synced, this`filed, this`batched
      ensures Ever(ticks, i, all) == Some(total) && batchBytes < opts.batchBytes
      ensures old(batchBytes) < opts.batchBytes && !late ==>
                |file| == old(|file|) && synced == old(synced) && batchBytes == old(batchBytes)
      ensures old(batchBytes) >= opts.batchBytes || late ==>
                batchBytes == 0 && |file| == old(|file|) + old(batchBytes)
    {
      if batchBytes >= opts.batchBytes || late {
        FlushNow(false, ticks, i, total, all);
      }
    }

    /** The drain loop, then a flush if the batch is large enough or its deadline has passed. */
    method DrainAndCheck(ticks: seq<Tick>, from: nat, late: bool, ghost total: seq<QueueEntry>,
                         ghost all: Option<seq<Entry>>)
      returns (stop: Stop, used: nat)
      requires Ever(ticks, from, all) == Some(total)
      modifies this`ch, this`closed, this`batchBuf, this`batchBytes, this`batchCount
      modifies this`taken, this`batched, this`filed, this`file, this`synced, this`peak
      modifies Written(ticks)
      ensures from <= used <= |ticks| && Ever(ticks, used, all) == Some(total)
      ensures stop.Finished? ==> Emptied()
      ensures !stop.Finished? ==> batchBytes < opts.batchBytes
      ensures stop.AtHead? ==> Advanced(old(Dials()), Dials(), late, opts.batchBytes)
      ensures stop.InDrain? ==> used == |ticks| && |file| == old(|file|)
      ensures old(closed) ==> closed && Consumed(old(|ch|), |ch|, used - from, stop, old(batchBytes) < opts.batchBytes)
    {
      stop, used := DrainLoop(ticks, from, total, all);
      if stop.AtHead? {
        FlushCheck(late, ticks, used, total, all);
      }
    }

    /** One outer iteration: wait, drain, then flush if the batch is large enough or its deadline has passed. */
    method Iterate(ticks: seq<Tick>, from: nat, ghost total: seq<QueueEntry>, ghost all: Option<seq<Entry>>)
      returns (stop: Stop, used: nat)
      requires from < |ticks| && Ever(ticks, from, all) == Some(total) && batchBytes < opts.batchBytes
      modifies this`ch, this`closed, this`batchBuf, this`batchBytes, this`batchCount
      modifies this`taken, this`batched, this`filed, this`file, this`synced, this`peak
      modifies Written(ticks)
      ensures from < used <= |ticks| && Ever(ticks, used, all) == Some(total)
      ensures stop.Finished? ==> Emptied()
      ensures !stop.Finished? ==> batchBytes < opts.batchBytes
      ensures stop.InDrain? ==> used == |ticks|
      ensures stop.AtHead? ==> Advanced(old(Dials()), Dials(), ticks[from].late, opts.batchBytes)
      ensures stop.InDrain? ==> |file| == old(|file|)
      ensures old(closed) ==> closed && |ch| <= old(|ch|)
      ensures old(closed) && stop.AtHead? ==> |ch| < old(|ch|) && used - from <= 2 * (old(|ch|) - |ch|)
      ensures old(closed) && stop.InDrain? ==> used - from <= 2 * (old(|ch|) - |ch|) + 1
    {
      var finished := AwaitEntry(ticks, from, total, all);
      if finished {
        return Finished, from + 1;
      }
      stop, used := DrainAndCheck(ticks, from + 1, ticks[from].late, total, all);
    }

    /**
     * The goroutine, for any behaviour of its surroundings (every tick is one channel operation). Wherever it
     * stands after the ticks, the batch is below its target, it never exceeded the target by more than one
     * record, and nothing accepted was lost. On a closed channel it ends within one outer iteration per
     * waiting entry and one more, with everything flushed; if nobody writes into objects meanwhile, the log has
     * each waiting entry just as it was. `heads` are the ticks at which the outer iterations began: when the last of
     * them was over, everything framed was in the file if its time was up, or else if the batch was full or entries
     * were left on the channel. Nothing is written before its time or the target is reached.
     */
    method Run(ticks: seq<Tick>, ghost all: Option<seq<Entry>>)
      returns (stop: Stop, used: nat, outer: nat, ghost heads: seq<nat>)
      requires Valid() && Bounded() && batchBytes < opts.batchBytes && Steady(ticks, all)
      modifies this`ch, this`closed, this`batchBuf, this`batchBytes, this`batchCount
      modifies this`taken, this`batched, this`filed, this`file, this`synced, this`peak
      modifies Written(ticks)
      ensures Valid() && Bounded() && used <= |ticks|
      ensures Accepted() + Arrivals(closed, ticks, used) == old(Accepted()) + Arrivals(old(closed), ticks, 0)
      ensures !stop.Finished? ==> used == |ticks| && batchBytes < opts.batchBytes
      ensures stop.Finished? ==> Emptied()
      ensures old(closed) ==> closed && outer <= old(|ch|) + 1
      ensures old(closed) && |ticks| >= 2 * old(|ch|) + 2 ==> stop.Finished?
      ensures Steady(ticks, all)
      ensures |heads| == outer && (forall i :: 0 <= i < outer ==> heads[i] < |ticks|)
      ensures outer > 0 && stop.AtHead? && (ticks[heads[outer - 1]].late || ch != []) ==> AllWritten()
      ensures stop.AtHead? && ticks != [] && (forall t :: t in ticks ==> t.late) ==> AllWritten()
      ensures !stop.Finished? && NeverLate(ticks) ==> Grown(old(|file|), |file|, opts.batchBytes)
    {
      ghost var total := Intake(Accepted(), closed, ticks, 0);
      IntakeAddsUp(Accepted(), closed, ticks, 0);
      stop, used, outer, heads := Loop(ticks, total, all);
      IntakeAddsUp(Accepted(), closed, ticks, used);
      if stop.AtHead? && heads != [] {
        assert ticks[heads[outer - 1]] in ticks;
      }
      if batchBytes == 0 {
        AllFlushed(codec, base, filed, batched);
      }
    }

    /** The outer loop, from iteration to iteration. */
    method Loop(ticks: seq<Tick>, ghost total: seq<QueueEntry>, ghost all: Option<seq<Entry>>)
      returns (stop: Stop, used: nat, outer: nat, ghost heads: seq<nat>)
      requires Ever(ticks, 0, all) == Some(total) && batchBytes < opts.batchBytes
      modifies this`ch, this`closed, this`batchBuf, this`batchBytes, this`batchCount
      modifies this`taken, this`batched, this`filed, this`file, this`synced, this`peak
      modifies Written(ticks)
      ensures Ever(ticks, used, all) == Some(total)
      ensures !stop.Finished? ==> used == |ticks| && batchBytes < opts.batchBytes
      ensures stop.Finished? ==> Emptied()
      ensures old(closed) ==> closed && outer <= old(|ch|) + 1
      ensures old(closed) && |ticks| >= 2 * old(|ch|) + 2 ==> stop.Finished?
      ensures |heads| == outer && (forall i :: 0 <= i < outer ==> heads[i] < |ticks|)
      ensures stop.AtHead? ==> Begun(ticks, heads, used, old(Dials()), Dials(), opts.batchBytes)
      ensures stop.InDrain? && NeverLate(ticks) ==> Grown(old(|file|), |file|, opts.batchBytes)
    {
      used, outer, stop, heads := 0, 0, AtHead, [];
      ghost var was := Dials();
      while used < |ticks|
        invariant used <= |ticks| && Ever(ticks, used, all) == Some(total)
        invariant batchBytes < opts.batchBytes && stop.AtHead?
        invariant |heads| == outer && Begun(ticks, heads, used, was, Dials(), opts.batchBytes)
        invariant old(closed) ==> closed && outer <= old(|ch|) - |ch| && used <= 2 * (old(|ch|) - |ch|)
        decreases |ticks| - used
      {
        ghost var head, before := used, Dials();
        stop, used := Iterate(ticks, used, total, all);
        outer := outer + 1;
        if !stop.AtHead? {
          heads := heads + [head];
          break;
        }
        OneMoreIteration(ticks, heads, head, was, before, Dials(), opts.batchBytes, used);
        heads := heads + [head];
      }
    }

    /**
     * Shuts the shard down: closes the channel, waits for the goroutine (whatever the timers do meanwhile,
     * `ticks` is long enough for it to end), and syncs unless the policy forbids it. A second call does nothing.
     */
    method Close(ticks: seq<Tick>)
      requires Valid() && Bounded() && batchBytes < opts.batchBytes
      requires |ticks| >= 2 * |ch| + 2
      modifies this`ch, this`closed, this`batchBuf, this`batchBytes, this`batchCount
      modifies this`taken, this`batched, this`filed, this`file, this`synced, this`peak
      modifies Written(ticks)
      ensures Valid() && Bounded() && closed
      ensures old(closed) ==> unchanged(this)
      ensures !old(closed) ==>
                && Emptied() && Accepted() == old(Accepted()) && taken == old(Accepted())
                && file == base + Frames(codec, Log())
                && (opts.policy != SyncNever ==> synced == |file|)
      ensures !old(closed) && Quiet(ticks) ==> Log() == old(Everything())
    {
      if closed {
        return;
      }
      ghost var contents := Everything();
      closed := true;
      var stop, used, outer, _ := Run(ticks, if Quiet(ticks) then Some(contents) else None);
      NoArrivalsWhenClosed(ticks, 0);
      NoArrivalsWhenClosed(ticks, used);
      NothingWaits(old(Accepted()));
      AllFlushed(codec, base, filed, batched);
      if opts.policy != SyncNever {
        synced := |file|;
      }
    }

    lemma NothingWaits(sent: seq<QueueEntry>)
      requires ch == []
      ensures Everything() == Log() && Accepted() == taken
      ensures Accepted() + [] == sent + [] ==> taken == sent
    {
      assert Log() + [] == Log() && taken + [] == taken && sent + [] == sent;
    }
  }
}
