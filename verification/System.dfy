/**
 * The whole server: one memory and one log per shard, routed by the same owner function. Recovery reads the
 * shard files in the unspecified order of a map and routes every record to the memory that owns its key.
 */
module System {
  import opened Base
  import opened Store
  import opened LogFormat
  import opened Wal
  import opened Replay
  import opened Durability

  type Router = string -> string

  type Memories = map<string, Mem>

  // ---------- Recovery of all files ----------

  /** The clock readings made for the records of each file. */
  type Clocks = string -> Clock

  function ReplayRouted(mems: Memories, owner: Router, e: Entry, r: Reading): Memories
  {
    var id := owner(e.key);
    if id in mems then mems[id := ReplayStep(mems[id], e, r)] else mems
  }

  function ReplayFile(mems: Memories, owner: Router, es: seq<Entry>, clock: Clock): (r: Memories)
    ensures r.Keys == mems.Keys
    decreases |es|
  {
    if es == [] then mems
    else ReplayRouted(ReplayFile(mems, owner, es[..|es| - 1], clock), owner, es[|es| - 1], clock(|es| - 1))
  }

  datatype Recovered = Recovered(mems: Memories, outcome: Outcome)

  /** What a shard file reads as; a missing file reads as an empty one. */
  function Read(c: Codec, files: map<string, bytes>, id: string): Parsed
  {
    Parse(c, if id in files then files[id] else [])
  }

  /** Reads the files in this order; the first file that ends in an error stops everything. */
  function RecoverAll(c: Codec, owner: Router, mems: Memories, files: map<string, bytes>, order: seq<string>,
                      clocks: Clocks): (r: Recovered)
    ensures r.mems.Keys == mems.Keys
    decreases |order|
  {
    if order == [] then Recovered(mems, Clean)
    else
      var p := Read(c, files, order[0]);
      var mems1 := ReplayFile(mems, owner, p.entries, clocks(order[0]));
      if p.outcome != Clean then Recovered(mems1, p.outcome)
      else RecoverAll(c, owner, mems1, files, order[1..], clocks)
  }

  /** All records of the file belong to the shard the file belongs to. */
  ghost predicate Homed(owner: Router, id: string, es: seq<Entry>)
  {
    forall e :: e in es ==> owner(e.key) == id
  }

  ghost predicate AllHomed(c: Codec, owner: Router, mems: Memories, files: map<string, bytes>, order: seq<string>)
  {
    forall i :: i in order ==> i in mems && Homed(owner, i, Read(c, files, i).entries)
  }

  lemma {:induction false} HomedFileStaysHome(mems: Memories, owner: Router, id: string, es: seq<Entry>, clock: Clock)
    requires Homed(owner, id, es) && id in mems
    ensures ReplayFile(mems, owner, es, clock) == mems[id := ReplayAll(mems[id], es, clock)]
    decreases |es|
  {
    if es != [] {
      var init, e := es[..|es| - 1], es[|es| - 1];
      assert e in es && forall x :: x in init ==> x in es;
      HomedFileStaysHome(mems, owner, id, init, clock);
    }
  }

  /** The file of `id` is read: it is in the order, and every file before it ends without an error. */
  ghost predicate Reached(c: Codec, files: map<string, bytes>, order: seq<string>, id: string)
  {
    exists n ::
      0 <= n < |order| && order[n] == id && forall j :: 0 <= j < n ==> Read(c, files, order[j]).outcome == Clean
  }

  lemma ReachedLater(c: Codec, files: map<string, bytes>, order: seq<string>, id: string)
    requires order != [] && id != order[0]
    ensures Reached(c, files, order, id) <==>
            Read(c, files, order[0]).outcome == Clean && Reached(c, files, order[1..], id)
  {
    var rest := order[1..];
    if Reached(c, files, order, id) {
      var n :| 0 <= n < |order| && order[n] == id
               && forall j :: 0 <= j < n ==> Read(c, files, order[j]).outcome == Clean;
      assert rest[n - 1] == id && forall j :: 0 <= j < n - 1 ==> rest[j] == order[j + 1];
    }
    if Read(c, files, order[0]).outcome == Clean && Reached(c, files, rest, id) {
      var n :| 0 <= n < |rest| && rest[n] == id && forall j :: 0 <= j < n ==> Read(c, files, rest[j]).outcome == Clean;
      assert order[n + 1] == id && forall j :: 1 <= j < n + 1 ==> order[j] == rest[j - 1];
    }
  }

  function ReplayOwn(c: Codec, files: map<string, bytes>, id: string, m: Mem, clocks: Clocks): Mem
  {
    ReplayAll(m, Read(c, files, id).entries, clocks(id))
  }

  lemma {:induction false} CleanIff(c: Codec, owner: Router, mems: Memories, files: map<string, bytes>,
                                    order: seq<string>, clocks: Clocks)
    ensures RecoverAll(c, owner, mems, files, order, clocks).outcome == Clean <==>
            forall i :: i in order ==> Read(c, files, i).outcome == Clean
    decreases |order|
  {
    if order != [] {
      assert order == [order[0]] + order[1..];
      var mems1 := ReplayFile(mems, owner, Read(c, files, order[0]).entries, clocks(order[0]));
      CleanIff(c, owner, mems1, files, order[1..], clocks);
    }
  }

  /**
   * Any files, damaged or not, in any order, as long as each holds only records of its own shard: a shard is
   * recovered from its own file if and only if every file read before ends without an error, and is left as it
   * was otherwise.
   */
  lemma {:induction false} RecoverAllByShard(c: Codec, owner: Router, mems: Memories, files: map<string, bytes>,
                                             order: seq<string>, clocks: Clocks, id: string)
    requires AllHomed(c, owner, mems, files, order) && Distinct(order) && id in mems
    ensures RecoverAll(c, owner, mems, files, order, clocks).mems[id] ==
            if Reached(c, files, order, id) then ReplayOwn(c, files, id, mems[id], clocks) else mems[id]
    decreases |order|
  {
    if order != [] {
      var first, rest := order[0], order[1..];
      assert first in order && order == [first] + rest && first !in rest;
      var p := Read(c, files, first);
      var mems1 := ReplayFile(mems, owner, p.entries, clocks(first));
      HomedFileStaysHome(mems, owner, first, p.entries, clocks(first));
      if id == first {
        assert Reached(c, files, order, id);
        assert !Reached(c, files, rest, id);
      } else {
        ReachedLater(c, files, order, id);
      }
      if p.outcome == Clean {
        RecoverAllByShard(c, owner, mems1, files, rest, clocks, id);
      }
    }
  }

  /** After a damaged file no shard is recovered. */
  lemma DamagedFileStopsLaterShards(c: Codec, owner: Router, mems: Memories, files: map<string, bytes>,
                                    order: seq<string>, clocks: Clocks, i: nat, j: nat)
    requires AllHomed(c, owner, mems, files, order) && Distinct(order) && i < j < |order|
    requires Read(c, files, order[i]).outcome != Clean
    ensures var r := RecoverAll(c, owner, mems, files, order, clocks);
            r.outcome != Clean && order[j] in mems && r.mems[order[j]] == mems[order[j]]
  {
    assert order[i] in order && order[j] in order;
    CleanIff(c, owner, mems, files, order, clocks);
    RecoverAllByShard(c, owner, mems, files, order, clocks, order[j]);
    assert !Reached(c, files, order, order[j]);
  }

  /**
   * A shard file with a complete record that cannot be read - its checksum is wrong, or it does not decode - or with
   * an impossible length, anywhere behind whole frames: recovery gives up there. The records before the damage are
   * replayed, and no shard after it in the order is recovered.
   */
  lemma DamagedRecordStopsRecovery(c: Codec, owner: Router, mems: Memories, files: map<string, bytes>,
                                   order: seq<string>, clocks: Clocks, i: nat, es: seq<Entry>, s: bytes, j: nat)
    requires Faithful(c) && Loggable(c, es) && !Readable(c, s) && (Complete(s) || (|s| >= 8 && LengthField(s) < 4))
    requires AllHomed(c, owner, mems, files, order) && Distinct(order) && i < j < |order|
    requires order[i] in files && files[order[i]] == Frames(c, es) + s
    ensures Read(c, files, order[i]) == Parsed(es, if !Complete(s) then BadLength
                                                   else if !ChecksumHolds(c, s) then BadChecksum else BadRecord)
    ensures var r := RecoverAll(c, owner, mems, files, order, clocks);
            r.outcome != Clean && order[j] in mems && r.mems[order[j]] == mems[order[j]]
    ensures order[i] in mems && (Reached(c, files, order, order[i]) ==>
              RecoverAll(c, owner, mems, files, order, clocks).mems[order[i]] ==
              ReplayAll(mems[order[i]], es, clocks(order[i])))
  {
    UnreadableEndsReading(c, es, s);
    DamagedFileStopsLaterShards(c, owner, mems, files, order, clocks, i, j);
    assert order[i] in order;
    RecoverAllByShard(c, owner, mems, files, order, clocks, order[i]);
  }

  // ---------- Key by key, whatever file a record is in ----------

  lemma ReplayStepIsLocal(m: Mem, m1: Mem, e: Entry, r: Reading, k: string)
    ensures At(m, k) == At(m1, k) ==> At(ReplayStep(m, e, r), k) == At(ReplayStep(m1, e, r), k)
    ensures e.key != k ==> At(ReplayStep(m, e, r), k) == At(m, k)
  {
  }

  /** A replayed file tells on a key in the memory of the shard that owns it, and nowhere else. */
  lemma {:induction false} ReplayFileByKey(mems: Memories, owner: Router, es: seq<Entry>, clock: Clock, id: string,
                                           k: string)
    requires id in mems
    ensures At(ReplayFile(mems, owner, es, clock)[id], k) ==
            if id == owner(k) then At(ReplayAll(mems[id], es, clock), k) else At(mems[id], k)
    decreases |es|
  {
    if es != [] {
      var init, e, r := es[..|es| - 1], es[|es| - 1], clock(|es| - 1);
      ReplayFileByKey(mems, owner, init, clock, id, k);
      var m, m1 := ReplayFile(mems, owner, init, clock)[id], ReplayAll(mems[id], init, clock);
      ReplayStepIsLocal(m, m1, e, r, k);
      ReplayStepIsLocal(m1, m, e, r, k);
    }
  }

  /** All files replayed into one memory, up to the first that ends in an error. */
  function ReplayInOrder(c: Codec, files: map<string, bytes>, m: Mem, order: seq<string>, clocks: Clocks): Mem
    decreases |order|
  {
    if order == [] then m
    else
      var p := Read(c, files, order[0]);
      var m1 := ReplayAll(m, p.entries, clocks(order[0]));
      if p.outcome != Clean then m1 else ReplayInOrder(c, files, m1, order[1..], clocks)
  }

  lemma {:induction false} ReplayAllIsLocal(m: Mem, m1: Mem, es: seq<Entry>, clock: Clock, k: string)
    requires At(m, k) == At(m1, k)
    ensures At(ReplayAll(m, es, clock), k) == At(ReplayAll(m1, es, clock), k)
    decreases |es|
  {
    if es != [] {
      var n := |es| - 1;
      ReplayAllIsLocal(m, m1, es[..n], clock, k);
      ReplayStepIsLocal(ReplayAll(m, es[..n], clock), ReplayAll(m1, es[..n], clock), es[n], clock(n), k);
    }
  }

  lemma {:induction false} ReplayInOrderIsLocal(c: Codec, files: map<string, bytes>, m: Mem, m1: Mem,
                                                order: seq<string>, clocks: Clocks, k: string)
    requires At(m, k) == At(m1, k)
    ensures At(ReplayInOrder(c, files, m, order, clocks), k) == At(ReplayInOrder(c, files, m1, order, clocks), k)
    decreases |order|
  {
    if order != [] {
      var p, clock := Read(c, files, order[0]), clocks(order[0]);
      ReplayAllIsLocal(m, m1, p.entries, clock, k);
      ReplayInOrderIsLocal(c, files, ReplayAll(m, p.entries, clock), ReplayAll(m1, p.entries, clock), order[1..],
                           clocks, k);
    }
  }

  /**
   * Recovery without any assumption on the files - they may have been written with another number of shards: each
   * record goes to the shard that owns its key now, whichever file it is in. A key ends up in its owner's memory as
   * if all files had been replayed into it in this order, and in no other.
   */
  lemma {:induction false} RecoverAllByKey(c: Codec, owner: Router, mems: Memories, files: map<string, bytes>,
                                           order: seq<string>, clocks: Clocks, id: string, k: string)
    requires id in mems
    ensures At(RecoverAll(c, owner, mems, files, order, clocks).mems[id], k) ==
            if id == owner(k) then At(ReplayInOrder(c, files, mems[id], order, clocks), k) else At(mems[id], k)
    decreases |order|
  {
    if order != [] {
      var p, clock := Read(c, files, order[0]), clocks(order[0]);
      var mems1 := ReplayFile(mems, owner, p.entries, clock);
      ReplayFileByKey(mems, owner, p.entries, clock, id, k);
      if p.outcome == Clean {
        RecoverAllByKey(c, owner, mems1, files, order[1..], clocks, id, k);
        if id == owner(k) {
          ReplayInOrderIsLocal(c, files, mems1[id], ReplayAll(mems[id], p.entries, clock), order[1..], clocks, k);
        }
      }
    }
  }

  /** A missing file is no error: recovery goes on as behind an empty one. With no files at all it does nothing. */
  lemma {:induction false} MissingFileIsNoError(c: Codec, owner: Router, mems: Memories, files: map<string, bytes>,
                                                order: seq<string>, clocks: Clocks, id: string)
    requires id !in files
    ensures RecoverAll(c, owner, mems, files, order, clocks)
         == RecoverAll(c, owner, mems, files[id := []], order, clocks)
    ensures files == map[] ==> RecoverAll(c, owner, mems, files, order, clocks) == Recovered(mems, Clean)
    decreases |order|
  {
    if order != [] {
      var mems1 := ReplayFile(mems, owner, Read(c, files, order[0]).entries, clocks(order[0]));
      MissingFileIsNoError(c, owner, mems1, files, order[1..], clocks, id);
    }
  }

  /** So any two orders of undamaged shard files recover the same memory. */
  lemma RecoveryOrderIrrelevant(c: Codec, owner: Router, mems: Memories, files: map<string, bytes>,
                                o1: seq<string>, o2: seq<string>, clocks: Clocks)
    requires forall i :: i in o1 <==> i in o2
    requires AllHomed(c, owner, mems, files, o1) && forall i :: i in o1 ==> Read(c, files, i).outcome == Clean
    requires Distinct(o1) && Distinct(o2)
    ensures RecoverAll(c, owner, mems, files, o1, clocks) == RecoverAll(c, owner, mems, files, o2, clocks)
  {
    var r1, r2 := RecoverAll(c, owner, mems, files, o1, clocks), RecoverAll(c, owner, mems, files, o2, clocks);
    CleanIff(c, owner, mems, files, o1, clocks);
    CleanIff(c, owner, mems, files, o2, clocks);
    forall id | id in mems ensures r1.mems[id] == r2.mems[id] {
      RecoverAllByShard(c, owner, mems, files, o1, clocks, id);
      RecoverAllByShard(c, owner, mems, files, o2, clocks, id);
      CleanIsReached(c, files, o1, id);
      CleanIsReached(c, files, o2, id);
    }
  }

  lemma CleanIsReached(c: Codec, files: map<string, bytes>, order: seq<string>, id: string)
    requires forall i :: i in order ==> Read(c, files, i).outcome == Clean
    ensures Reached(c, files, order, id) <==> id in order
  {
    if id in order {
      var n :| 0 <= n < |order| && order[n] == id;
      assert forall j :: 0 <= j < n ==> order[j] in order;
    }
  }

  // ---------- Exactly when the order matters ----------

  /** An order in which the loop over the map of shards may visit them. */
  ghost predicate OrderOf(order: seq<string>, ids: set<string>)
  {
    Distinct(order) && forall i :: i in order <==> i in ids
  }

  ghost predicate OrderMatters(c: Codec, owner: Router, mems: Memories, files: map<string, bytes>, ids: set<string>,
                               clocks: Clocks)
  {
    exists o1, o2 :: OrderOf(o1, ids) && OrderOf(o2, ids) &&
      RecoverAll(c, owner, mems, files, o1, clocks).mems != RecoverAll(c, owner, mems, files, o2, clocks).mems
  }

  /** Two different shards, one with a file that ends in an error, one with a file that changes its memory. */
  ghost predicate Conflict(c: Codec, mems: Memories, files: map<string, bytes>, clocks: Clocks, a: string, b: string)
    requires b in mems
  {
    && a != b && Read(c, files, a).outcome != Clean
    && ReplayOwn(c, files, b, mems[b], clocks) != mems[b]
  }

  lemma {:induction false} SomeOrder(ids: set<string>) returns (order: seq<string>)
    ensures OrderOf(order, ids)
    decreases |ids|
  {
    if ids == {} {
      order := [];
    } else {
      var x :| x in ids;
      var rest := SomeOrder(ids - {x});
      order := [x] + rest;
    }
  }

  lemma OrderFrom(ids: set<string>, a: string) returns (order: seq<string>)
    requires a in ids
    ensures OrderOf(order, ids) && order[0] == a
  {
    var rest := SomeOrder(ids - {a});
    order := [a] + rest;
  }

  lemma ConflictShows(c: Codec, owner: Router, mems: Memories, files: map<string, bytes>, ids: set<string>,
                      clocks: Clocks, a: string, b: string)
    requires a in ids && b in ids && forall i :: i in ids ==> i in mems && Homed(owner, i, Read(c, files, i).entries)
    ensures Conflict(c, mems, files, clocks, a, b) ==> OrderMatters(c, owner, mems, files, ids, clocks)
  {
    if !Conflict(c, mems, files, clocks, a, b) {
      return;
    }
    var o1 := OrderFrom(ids, a);
    var o2 := OrderFrom(ids, b);
    RecoverAllByShard(c, owner, mems, files, o1, clocks, b);
    RecoverAllByShard(c, owner, mems, files, o2, clocks, b);
    assert Reached(c, files, o2, b);
    assert !Reached(c, files, o1, b);
  }

  lemma NoConflictSameMemory(c: Codec, owner: Router, mems: Memories, files: map<string, bytes>, ids: set<string>,
                             clocks: Clocks, o1: seq<string>, o2: seq<string>, id: string)
    requires OrderOf(o1, ids) && OrderOf(o2, ids) && id in mems
    requires forall i :: i in ids ==> i in mems && Homed(owner, i, Read(c, files, i).entries)
    requires forall a, b :: a in ids && b in ids ==> !Conflict(c, mems, files, clocks, a, b)
    ensures RecoverAll(c, owner, mems, files, o1, clocks).mems[id]
         == RecoverAll(c, owner, mems, files, o2, clocks).mems[id]
  {
    RecoverAllByShard(c, owner, mems, files, o1, clocks, id);
    RecoverAllByShard(c, owner, mems, files, o2, clocks, id);
    if id in ids && ReplayOwn(c, files, id, mems[id], clocks) != mems[id] {
      assert forall a :: a in ids && a != id ==> Read(c, files, a).outcome == Clean by {
        forall a | a in ids && a != id ensures Read(c, files, a).outcome == Clean {
          assert !Conflict(c, mems, files, clocks, a, id);
        }
      }
      OthersCleanIsReached(c, files, o1, ids, id);
      OthersCleanIsReached(c, files, o2, ids, id);
    }
  }

  lemma OthersCleanIsReached(c: Codec, files: map<string, bytes>, order: seq<string>, ids: set<string>, id: string)
    requires OrderOf(order, ids) && id in ids && forall a :: a in ids && a != id ==> Read(c, files, a).outcome == Clean
    ensures Reached(c, files, order, id)
  {
    var n :| 0 <= n < |order| && order[n] == id;
    forall j | 0 <= j < n ensures Read(c, files, order[j]).outcome == Clean {
      assert order[j] in order && order[j] != id;
    }
  }

  /**
   * The order in which shard files are read - unspecified, as it is the order of a map - matters if and only if
   * some file ends in an error and some other file would change its shard's memory.
   */
  lemma OrderMattersIff(c: Codec, owner: Router, mems: Memories, files: map<string, bytes>, ids: set<string>,
                        clocks: Clocks)
    requires forall i :: i in ids ==> i in mems && Homed(owner, i, Read(c, files, i).entries)
    ensures OrderMatters(c, owner, mems, files, ids, clocks) <==>
            exists a, b :: a in ids && b in ids && Conflict(c, mems, files, clocks, a, b)
  {
    if a, b :| a in ids && b in ids && Conflict(c, mems, files, clocks, a, b) {
      ConflictShows(c, owner, mems, files, ids, clocks, a, b);
    } else {
      forall o1, o2 | OrderOf(o1, ids) && OrderOf(o2, ids)
        ensures RecoverAll(c, owner, mems, files, o1, clocks).mems == RecoverAll(c, owner, mems, files, o2, clocks).mems
      {
        forall id | id in mems
          ensures RecoverAll(c, owner, mems, files, o1, clocks).mems[id]
               == RecoverAll(c, owner, mems, files, o2, clocks).mems[id]
        {
          NoConflictSameMemory(c, owner, mems, files, ids, clocks, o1, o2, id);
        }
      }
    }
  }

  // ---------- Runs of the whole server ----------

  type Server = map<string, Shard>

  /** An action of one shard; a command goes to the shard that owns its key. */
  datatype Routed = Routed(id: string, action: Action)

  ghost predicate Allowed(c: Codec, owner: Router, sv: Server, r: Routed)
  {
    && r.id in sv && Enabled(c, sv[r.id], r.action)
    && (r.action.Do? && !r.action.cmd.Sweep? ==> owner(r.action.cmd.key) == r.id)
  }

  ghost predicate ServerStep(c: Codec, o: Options, owner: Router, sv: Server, r: Routed, sv1: Server)
    requires o.syncEveryN > 0
  {
    Allowed(c, owner, sv, r) && sv1 == sv[r.id := Next(c, o, sv[r.id], r.action)]
  }

  /** `svs` are the states of the run: the first one, and the one after each action. */
  ghost predicate ServerBehaviour(c: Codec, o: Options, owner: Router, run: seq<Routed>, svs: seq<Server>)
    requires o.syncEveryN > 0
  {
    && |svs| == |run| + 1
    && forall i {:trigger run[i]} :: 0 <= i < |run| ==> ServerStep(c, o, owner, svs[i], run[i], svs[i + 1])
  }

  /** Every shard keeps its own invariant, and only ever holds keys it owns. */
  ghost predicate ServerInv(c: Codec, owner: Router, sv: Server)
  {
    forall id :: id in sv ==> Inv(c, sv[id]) && HomedShard(owner, id, sv[id])
  }

  ghost predicate HomedShard(owner: Router, id: string, s: Shard)
  {
    Homed(owner, id, Records(s)) && forall k :: k in s.mem ==> owner(k) == id
  }

  lemma ExecuteStaysHome(owner: Router, id: string, m: Mem, q: seq<Entry>, cmd: Command, now: Time, shared: set<nat>)
    requires Homed(owner, id, q) && (forall k :: k in m ==> owner(k) == id)
    requires !cmd.Sweep? ==> owner(cmd.key) == id
    ensures var f := Execute(m, q, cmd, now, shared);
            Homed(owner, id, f.queue) && forall k :: k in f.mem ==> owner(k) == id
  {
    var f := Execute(m, q, cmd, now, shared);
    forall e | e in f.queue ensures owner(e.key) == id {
      var i :| 0 <= i < |f.queue| && f.queue[i] == e;
      if i < |q| { assert q[i] in q; }
    }
  }

  lemma {:induction false} ReplayStaysHome(owner: Router, id: string, es: seq<Entry>, clock: Clock)
    requires Homed(owner, id, es)
    ensures forall k :: k in ReplayAll(map[], es, clock) ==> owner(k) == id
    decreases |es|
  {
    if es != [] {
      assert es[|es| - 1] in es && forall x :: x in es[..|es| - 1] ==> x in es;
      ReplayStaysHome(owner, id, es[..|es| - 1], clock);
    }
  }

  lemma CrashStaysHome(c: Codec, o: Options, owner: Router, id: string, s: Shard, a: Action)
    requires Faithful(c) && Inv(c, s) && HomedShard(owner, id, s) && o.syncEveryN > 0 && a.Crash? && Enabled(c, s, a)
    ensures HomedShard(owner, id, Next(c, o, s, a))
  {
    var filed := s.hist.filed[..a.keep];
    assert forall e :: e in filed ==> e in Records(s) && e in s.hist.filed + s.hist.batched;
    ParseLogged(c, filed);
    LoggedIsLoggable(c, filed);
    ReplayStaysHome(owner, id, Logged(c, filed), a.clock);
    assert Records(Next(c, o, s, a)) == filed;
  }

  lemma NextStaysHome(c: Codec, o: Options, owner: Router, id: string, s: Shard, a: Action)
    requires Faithful(c) && Inv(c, s) && HomedShard(owner, id, s) && o.syncEveryN > 0 && Enabled(c, s, a)
    requires a.Do? && !a.cmd.Sweep? ==> owner(a.cmd.key) == id
    ensures HomedShard(owner, id, Next(c, o, s, a))
  {
    match a {
      case Do(cmd, at, shared) =>
        assert forall e :: e in s.pipe.queue ==> e in Records(s);
        ExecuteStaysHome(owner, id, s.mem, s.pipe.queue, cmd, at, shared);
        forall e | e in Records(Next(c, o, s, a)) ensures owner(e.key) == id {
          assert e in s.hist.filed + s.hist.batched ==> e in Records(s);
        }
      case FrameOne => FrameKeepsInv(c, o, s);
      case FlushAll(force) => FlushKeepsInv(c, o, s, force);
      case Crash(_, _, _) => CrashStaysHome(c, o, owner, id, s, a);
    }
  }

  /** One step of the server keeps the invariant of every shard, and every key in its own shard. */
  lemma NextServerKeepsInv(c: Codec, o: Options, owner: Router, sv: Server, r: Routed, sv1: Server)
    requires Faithful(c) && o.syncEveryN > 0 && ServerInv(c, owner, sv) && ServerStep(c, o, owner, sv, r, sv1)
    ensures ServerInv(c, owner, sv1) && sv1.Keys == sv.Keys
  {
    NextKeepsInv(c, o, sv[r.id], r.action);
    NextStaysHome(c, o, owner, r.id, sv[r.id], r.action);
  }

  lemma OneMoreServerStep(c: Codec, o: Options, owner: Router, run: seq<Routed>, svs: seq<Server>, j: nat, j1: nat)
    requires Faithful(c) && o.syncEveryN > 0 && ServerBehaviour(c, o, owner, run, svs) && j < |run| && j1 == j + 1
    requires ServerInv(c, owner, svs[j])
    ensures ServerInv(c, owner, svs[j1]) && svs[j1].Keys == svs[j].Keys
  {
    NextServerKeepsInv(c, o, owner, svs[j], run[j], svs[j + 1]);
  }

  lemma ServerKeepsInv(c: Codec, o: Options, owner: Router, run: seq<Routed>, svs: seq<Server>, j: nat)
    requires Faithful(c) && o.syncEveryN > 0 && ServerBehaviour(c, o, owner, run, svs) && ServerInv(c, owner, svs[0])
    requires j <= |run|
    ensures ServerInv(c, owner, svs[j]) && svs[j].Keys == svs[0].Keys
  {
    var holds := seq(|svs|, k requires 0 <= k < |svs| => ServerInv(c, owner, svs[k]) && svs[k].Keys == svs[0].Keys);
    forall k, k1 | 0 <= k < |holds| && k1 == k + 1 && k1 < |holds| && holds[k] ensures holds[k1] {
      OneMoreServerStep(c, o, owner, run, svs, k, k1);
    }
    HoldsThroughout(holds, j);
  }

  function FreshServer(ids: set<string>): Server
  {
    map id | id in ids :: FRESH
  }

  function Files(sv: Server): map<string, bytes>
  {
    map id | id in sv :: sv[id].pipe.file
  }

  function Blank(ids: set<string>): Memories
  {
    map id | id in ids :: map[]
  }

  lemma FreshServerInv(c: Codec, owner: Router, ids: set<string>)
    ensures ServerInv(c, owner, FreshServer(ids))
  {
    forall id | id in ids ensures Inv(c, FRESH) && HomedShard(owner, id, FRESH) { FreshInv(c); }
  }

  /** After all shards are closed their files are undamaged and hold only records of their own shard. */
  lemma ClosedFiles(c: Codec, owner: Router, sv: Server, id: string)
    requires Faithful(c) && ServerInv(c, owner, sv) && id in sv && Drained(sv[id])
    ensures Read(c, Files(sv), id) == Parsed(LoggedRecords(c, sv[id]), Clean)
    ensures Homed(owner, id, LoggedRecords(c, sv[id]))
  {
    DrainedIsFiled(c, sv[id]);
    LoggedIsLoggable(c, Records(sv[id]));
  }

  /** Recovery of the files of a closed server, in any order: each memory is replayed from its own shard's records. */
  lemma ClosedServerRecovers(c: Codec, owner: Router, ids: set<string>, sv: Server, order: seq<string>,
                             clocks: Clocks, id: string)
    requires Faithful(c) && ServerInv(c, owner, sv) && sv.Keys == ids && forall i :: i in ids ==> Drained(sv[i])
    requires OrderOf(order, ids) && id in ids
    ensures var r := RecoverAll(c, owner, Blank(ids), Files(sv), order, clocks);
            r.outcome == Clean && r.mems[id] == ReplayAll(map[], LoggedRecords(c, sv[id]), clocks(id))
  {
    forall i | i in order
      ensures Read(c, Files(sv), i).outcome == Clean && Homed(owner, i, Read(c, Files(sv), i).entries)
    {
      ClosedFiles(c, owner, sv, i);
    }
    CleanIff(c, owner, Blank(ids), Files(sv), order, clocks);
    CleanIsReached(c, Files(sv), order, id);
    RecoverAllByShard(c, owner, Blank(ids), Files(sv), order, clocks, id);
    ClosedFiles(c, owner, sv, id);
  }

  /**
   * End to end for the whole server: any interleaving of routed commands, framing, flushing, crashes and
   * restarts of the shards; all shards closed; all files recovered in any order. The memory that owns a key then
   * holds what it held before if and only if the key is Kept.
   */
  lemma ServerIsDurable(c: Codec, o: Options, owner: Router, ids: set<string>, run: seq<Routed>, svs: seq<Server>,
                        order: seq<string>, k: string, clocks: Clocks)
    requires Faithful(c) && o.syncEveryN > 0 && ServerBehaviour(c, o, owner, run, svs) && svs[0] == FreshServer(ids)
    requires forall id :: id in svs[|run|] ==> Drained(svs[|run|][id])
    requires OrderOf(order, ids) && owner(k) in ids && c.utf8(k)
    ensures svs[|run|].Keys == ids
    ensures var r := RecoverAll(c, owner, Blank(ids), Files(svs[|run|]), order, clocks);
            var s := svs[|run|][owner(k)];
            && r.outcome == Clean && r.mems.Keys == ids
            && (At(r.mems[owner(k)], k) == At(s.mem, k) <==> Kept(c, s, k, clocks(owner(k))))
  {
    var sv, id := svs[|run|], owner(k);
    FreshServerInv(c, owner, ids);
    ServerKeepsInv(c, o, owner, run, svs, |run|);
    ClosedServerRecovers(c, owner, ids, sv, order, clocks, id);
    ReplayMatchesMemoryIff(c, sv[id], k, clocks(id));
  }
}
