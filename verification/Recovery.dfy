/** The shard manager: building the rings and the shards, routing a key, and recovering the memories from the files. */
module Recovery {
  import opened Base
  import opened Store
  import opened LogFormat
  import opened Wal
  import opened Replay
  import opened Durability
  import opened System
  import Ring

  // ---------- Shard ids and the two rings ----------

  /** Decimal digits. */
  function Itoa(n: nat): string
  {
    var digit := [('0' as int + n % 10) as char];
    if n < 10 then digit else Itoa(n / 10) + digit
  }

  function Atoi(s: string): int
  {
    if s == "" then 0 else 10 * Atoi(s[..|s| - 1]) + (s[|s| - 1] as int - '0' as int)
  }

  /** A shard id determines its number. */
  lemma {:induction false} AtoiOfItoa(n: nat)
    ensures Itoa(n) != "" && Atoi(Itoa(n)) == n
  {
    var digit := [('0' as int + n % 10) as char];
    if n < 10 {
      assert digit[..0] == "";
    } else {
      AtoiOfItoa(n / 10);
      assert (Itoa(n / 10) + digit)[..|Itoa(n / 10)|] == Itoa(n / 10);
    }
  }

  /** As many shards as configured. */
  lemma {:induction false} IdsAreDistinct(n: nat)
    ensures |Ids(n)| == n
  {
    if n > 0 {
      IdsAreDistinct(n - 1);
      IdsOneMore(n - 1);
      forall i | 0 <= i < n - 1 ensures Itoa(i) != Itoa(n - 1) {
        AtoiOfItoa(i);
        AtoiOfItoa(n - 1);
      }
    }
  }

  function Ids(n: int): set<string>
  {
    set i | 0 <= i < n :: Itoa(i)
  }

  /** The ring both the store and the log build: nodes "0" to "n-1", added in this order. */
  function RingOf(hash: Ring.Hash, n: int): Ring.RingState
  {
    if n <= 0 then Ring.EMPTY_RING else Ring.AddStep(RingOf(hash, n - 1), hash, Itoa(n - 1))
  }

  /** The number of shards the log opens when asked for `n`: a non-positive number means a default. */
  function LogShardCount(n: int, processors: nat): (r: int)
    ensures r == n || (n <= 0 && r >= 2 && r >= processors && (r == 2 || r == processors))
  {
    if n <= 0 then (if processors > 2 then processors else 2) else n
  }

  ghost predicate DistinctHashes(hash: Ring.Hash, n: int)
  {
    forall i, j :: 0 <= i < j < n ==> hash(Itoa(i)) != hash(Itoa(j))
  }

  lemma IdsOneMore(n: nat)
    ensures Ids(n + 1) == Ids(n) + {Itoa(n)}
  {
  }

  lemma NextIdIsNew(hash: Ring.Hash, n: nat)
    requires DistinctHashes(hash, n + 1)
    ensures Ring.Legal1(hash, Ids(n), Ring.Add(Itoa(n)))
  {
    forall m | m in Ids(n) ensures hash(m) != hash(Itoa(n)) { }
  }

  lemma OneMoreNode(r: Ring.RingState, hash: Ring.Hash, ids: set<string>, id: string, r1: Ring.RingState,
                    ids1: set<string>)
    requires Ring.Represents(r, hash, ids) && Ring.Legal1(hash, ids, Ring.Add(id))
    requires r1 == Ring.AddStep(r, hash, id) && ids1 == ids + {id}
    ensures Ring.Represents(r1, hash, ids1)
  {
    Ring.ApplyRepresents(r, hash, ids, Ring.Add(id));
  }

  lemma {:induction false} RingOfRepresents(hash: Ring.Hash, n: int)
    requires DistinctHashes(hash, n)
    ensures Ring.Represents(RingOf(hash, n), hash, Ids(n))
    decreases n
  {
    if n <= 0 {
      assert Ids(n) == {};
    } else {
      RingOfRepresents(hash, n - 1);
      NextIdIsNew(hash, n - 1);
      IdsOneMore(n - 1);
      OneMoreNode(RingOf(hash, n - 1), hash, Ids(n - 1), Itoa(n - 1), RingOf(hash, n), Ids(n));
    }
  }

  /** With any hash, even one that makes ids collide: the ring's array is sorted, and its nodes are shard ids. */
  lemma {:induction false} RingOfIsSound(hash: Ring.Hash, n: int)
    ensures var r := RingOf(hash, n);
            Ring.SameHashes(r) && Ring.Ascending(r.nodes) && forall x :: x in r.nodeMap ==> r.nodeMap[x] in Ids(n)
    decreases n
  {
    if n > 0 {
      RingOfIsSound(hash, n - 1);
      Ring.AddKeepsSameHashes(RingOf(hash, n - 1), hash, Itoa(n - 1));
      IdsOneMore(n - 1);
    }
  }

  lemma RingHasNodes(hash: Ring.Hash, n: int)
    requires n >= 1
    ensures RingOf(hash, n).nodeMap != map[]
  {
    assert hash(Itoa(n - 1)) in RingOf(hash, n).nodeMap;
  }

  /** The store and the log route by the same ring if and only if a positive number of shards is configured. */
  lemma RingsAgreeIff(hash: Ring.Hash, n: int, processors: nat)
    ensures RingOf(hash, n) == RingOf(hash, LogShardCount(n, processors)) <==> n >= 1
  {
    if n <= 0 {
      RingHasNodes(hash, LogShardCount(n, processors));
    }
  }

  /** The owner of a key, as a router for the server model. */
  ghost function RouterOf(hash: Ring.Hash, n: int): Router
  {
    (k: string) => Ring.Owner(RingOf(hash, n).nodeMap, hash(k))
  }

  /** Every key has an owner among the shards, as soon as there is one shard. */
  lemma OwnerIsAShard(hash: Ring.Hash, n: int, k: string)
    ensures RouterOf(hash, n)(k) in Ids(n) <==> n >= 1
  {
    if n >= 1 {
      RingOfIsSound(hash, n);
      RingHasNodes(hash, n);
      OwnerIsANode(RingOf(hash, n).nodeMap, hash(k));
    }
  }

  /** Where the ring has a shard. */
  function HashOf(hash: Ring.Hash, i: nat): uint32
  {
    hash(Itoa(i))
  }

  /**
   * Shard `j` is where a key with hash `h` belongs: going clockwise from the key no shard id comes sooner, and of the
   * ids that share its hash it was added last.
   */
  ghost predicate Serves(hash: Ring.Hash, n: int, h: uint32, j: nat)
  {
    && j < n
    && (forall i: nat :: i < n ==> Ring.Distance(h, HashOf(hash, j)) <= Ring.Distance(h, HashOf(hash, i)))
    && (forall i: nat :: i < n && HashOf(hash, i) == HashOf(hash, j) ==> i <= j)
  }

  lemma ServesOne(hash: Ring.Hash, n: int, h: uint32, i: nat, j: nat)
    requires Serves(hash, n, h, i) && Serves(hash, n, h, j)
    ensures i == j
  {
    assert Ring.Distance(h, HashOf(hash, i)) == Ring.Distance(h, HashOf(hash, j));
  }

  /** Of the ids with hash `x`, the `j`-th was added last. */
  ghost predicate LastUnder(hash: Ring.Hash, n: int, x: uint32, j: nat)
  {
    j < n && HashOf(hash, j) == x && forall i: nat :: i < n && HashOf(hash, i) == x ==> i <= j
  }

  /** The ids under their hashes, a later one in the place of an earlier one. */
  function IdsByHash(hash: Ring.Hash, n: int): map<uint32, string>
  {
    if n <= 0 then map[] else IdsByHash(hash, n - 1)[HashOf(hash, n - 1) := Itoa(n - 1)]
  }

  lemma {:induction false} RingMap(hash: Ring.Hash, n: int)
    ensures RingOf(hash, n).nodeMap == IdsByHash(hash, n)
    decreases n
  {
    if n > 0 { RingMap(hash, n - 1); }
  }

  lemma {:induction false} EachHashIsThere(hash: Ring.Hash, n: int, i: nat)
    requires i < n
    ensures HashOf(hash, i) in IdsByHash(hash, n)
    decreases n
  {
    if i < n - 1 { EachHashIsThere(hash, n - 1, i); }
  }

  lemma LastUnderMore(hash: Ring.Hash, n: nat, x: uint32, j: nat)
    requires LastUnder(hash, n, x, j) && HashOf(hash, n) != x
    ensures LastUnder(hash, n + 1, x, j)
  {
    forall i: nat | i < n + 1 && HashOf(hash, i) == x ensures i <= j { }
  }

  /** Under each hash there is the id that was added last. */
  lemma {:induction false} LastIdIsThere(hash: Ring.Hash, n: int, x: uint32) returns (j: nat)
    requires x in IdsByHash(hash, n)
    ensures LastUnder(hash, n, x, j) && IdsByHash(hash, n)[x] == Itoa(j)
    decreases n
  {
    if HashOf(hash, n - 1) == x {
      j := n - 1;
    } else {
      j := LastIdIsThere(hash, n - 1, x);
      LastUnderMore(hash, n - 1, x, j);
    }
  }

  lemma LastUnderNearestServes(hash: Ring.Hash, n: int, h: uint32, x: uint32, j: nat)
    requires LastUnder(hash, n, x, j) && Ring.Nearest(IdsByHash(hash, n).Keys, h, x)
    ensures Serves(hash, n, h, j)
  {
    forall i: nat | i < n ensures Ring.Distance(h, HashOf(hash, j)) <= Ring.Distance(h, HashOf(hash, i)) {
      EachHashIsThere(hash, n, i);
    }
  }

  /** A key is routed to the one shard that serves it, whatever the hash. */
  lemma RoutedToTheServing(hash: Ring.Hash, n: int, k: string) returns (j: nat)
    requires n >= 1
    ensures Serves(hash, n, hash(k), j) && RouterOf(hash, n)(k) == Itoa(j)
    ensures forall i: nat :: Serves(hash, n, hash(k), i) ==> i == j
  {
    var byHash := IdsByHash(hash, n);
    RingMap(hash, n);
    RingHasNodes(hash, n);
    var x := NearestOf(byHash, hash(k));
    Ring.OwnerIs(byHash, hash(k), x);
    j := LastIdIsThere(hash, n, x);
    LastUnderNearestServes(hash, n, hash(k), x, j);
    forall i: nat | Serves(hash, n, hash(k), i) ensures i == j { ServesOne(hash, n, hash(k), i, j); }
  }

  lemma NearestOf(nodeMap: map<uint32, string>, h: uint32) returns (x: uint32)
    requires nodeMap != map[]
    ensures Ring.Nearest(nodeMap.Keys, h, x) && x in nodeMap
  {
    assert exists y :: y in nodeMap;
    assert nodeMap.Keys != {};
    Ring.NearestExists(nodeMap.Keys, h);
    x :| Ring.Nearest(nodeMap.Keys, h, x);
  }

  lemma OwnerIsANode(nodeMap: map<uint32, string>, h: uint32)
    requires nodeMap != map[]
    ensures exists x :: x in nodeMap && Ring.Owner(nodeMap, h) == nodeMap[x]
  {
    var x := NearestOf(nodeMap, h);
    Ring.OwnerIs(nodeMap, h, x);
  }

  /**
   * End to end with the real routing, for any hash: whatever the run and whatever the order in which the files
   * are read, every key that the encoding accepts comes back as it was if and only if it is Kept.
   */
  lemma RingServerIsDurable(c: Codec, o: Options, hash: Ring.Hash, n: int, run: seq<Routed>, svs: seq<Server>,
                            order: seq<string>, k: string, clocks: Clocks)
    requires n >= 1 && Faithful(c) && o.syncEveryN > 0
    requires ServerBehaviour(c, o, RouterOf(hash, n), run, svs) && svs[0] == FreshServer(Ids(n))
    requires forall id :: id in svs[|run|] ==> Drained(svs[|run|][id])
    requires OrderOf(order, Ids(n)) && c.utf8(k)
    ensures svs[|run|].Keys == Ids(n) && RouterOf(hash, n)(k) in Ids(n)
    ensures exists j :: Serves(hash, n, hash(k), j) && RouterOf(hash, n)(k) == Itoa(j)
    ensures var owner := RouterOf(hash, n);
            var r, s := RecoverAll(c, owner, Blank(Ids(n)), Files(svs[|run|]), order, clocks), svs[|run|][owner(k)];
            && r.outcome == Clean && r.mems.Keys == Ids(n)
            && (At(r.mems[owner(k)], k) == At(s.mem, k) <==> Kept(c, s, k, clocks(owner(k))))
  {
    OwnerIsAShard(hash, n, k);
    var j := RoutedToTheServing(hash, n, k);
    ServerIsDurable(c, o, RouterOf(hash, n), Ids(n), run, svs, order, k, clocks);
  }

  lemma {:induction false} RecoverOneMore(c: Codec, owner: Router, mems: Memories, files: map<string, bytes>,
                                          order: seq<string>, id: string, clocks: Clocks)
    requires RecoverAll(c, owner, mems, files, order, clocks).outcome == Clean
    ensures RecoverAll(c, owner, mems, files, order + [id], clocks) ==
            var r, p := RecoverAll(c, owner, mems, files, order, clocks), Read(c, files, id);
            Recovered(ReplayFile(r.mems, owner, p.entries, clocks(id)), p.outcome)
    decreases |order|
  {
    if order == [] {
      assert order + [id] == [id] && [id][1..] == [];
    } else {
      assert (order + [id])[1..] == order[1..] + [id];
      var p := Read(c, files, order[0]);
      RecoverOneMore(c, owner, ReplayFile(mems, owner, p.entries, clocks(order[0])), files, order[1..], id, clocks);
    }
  }

  lemma ReplayFileOneMore(mems: Memories, owner: Router, es: seq<Entry>, e: Entry, clock: Clock)
    ensures ReplayFile(mems, owner, es + [e], clock)
         == ReplayRouted(ReplayFile(mems, owner, es, clock), owner, e, clock(|es|))
  {
    assert (es + [e])[..|es|] == es;
  }

  lemma BeforeBefore(done: seq<Entry>, e: Entry, p: Parsed)
    ensures Before(done, Before([e], p)) == Before(done + [e], p)
  {
    assert done + ([e] + p.entries) == done + [e] + p.entries;
  }

  /** Such a record is one that may change a memory. */
  lemma NeedsShardIff(e: Entry)
    ensures NeedsShard(e) <==> exists m, r :: ReplayStep(m, e, r) != m
  {
    var empty: Mem, r := map[], Reading(0, 0);
    if e.op == Erase {
      assert ReplayStep(map[e.key := Item(0, [], 0)], e, r) != map[e.key := Item(0, [], 0)];
    } else if NeedsShard(e) {
      assert e.key in ReplayStep(empty, e, r);
    }
  }

  ghost predicate AnyNeedsShard(es: seq<Entry>)
  {
    exists e :: e in es && NeedsShard(e)
  }

  lemma OneMoreNeeds(done: seq<Entry>, e: Entry, whole: seq<Entry>)
    requires done + [e] <= whole
    ensures NeedsShard(e) ==> AnyNeedsShard(whole)
    ensures AnyNeedsShard(done + [e]) <==> AnyNeedsShard(done) || NeedsShard(e)
  {
    assert e == whole[|done|];
  }

  /** No record in these files needs a shard. */
  ghost predicate Harmless(c: Codec, files: map<string, bytes>, order: seq<string>)
  {
    forall id :: id in order ==> !AnyNeedsShard(Read(c, files, id).entries)
  }

  lemma HarmlessNext(c: Codec, files: map<string, bytes>, order: seq<string>, id: string)
    ensures Harmless(c, files, order + [id]) <==>
            Harmless(c, files, order) && !AnyNeedsShard(Read(c, files, id).entries)
  {
    assert id in order + [id] && forall x :: x in order ==> x in order + [id];
  }

  // ---------- The shard manager ----------

  /** One record replayed into one memory, with two readings of the clock; an unknown operation does nothing. */
  method ReplayRecord(m: Memory, e: Entry, r: Reading)
    requires m.Valid()
    modifies m
    ensures m.Valid() && m.View() == ReplayStep(old(m.View()), e, r) && fresh(m.Mem.Values - old(m.Mem.Values))
  {
    match e.op {
      case Erase =>
        var _ := m.Delete(e.key);
      case Update =>
        if e.obj.None? {
          return;
        }
        var o := e.obj.value;
        if o.timestamp > 0 {
          m.SetWithTTL(e.key, o.value, o.kind, WrapSub(o.timestamp, r.first), r.second);
        } else {
          m.Set(e.key, o.value, o.kind);
        }
      case Unknown(_) =>
    }
  }

  datatype ReadResult = End(outcome: Outcome) | Record(e: Entry, next: nat)

  /** Reads one record at `pos`: a missing or cut header ends the file, as does a cut record with some bytes left. */
  method ReadRecord(c: Codec, s: bytes, pos: nat) returns (r: ReadResult)
    requires pos <= |s|
    ensures r.End? ==> Parse(c, s[pos..]) == Parsed([], r.outcome)
    ensures r.Record? ==> pos < r.next && r.next <= |s| && Parse(c, s[pos..]) == Before([r.e], Parse(c, s[r.next..]))
  {
    ghost var rest := s[pos..];
    if |s| - pos < 8 {
      return End(Clean);
    }
    var hdr := s[pos..pos + 8];
    assert rest[..8] == hdr && hdr[..4] == rest[..4];
    assert hdr[4..8] == rest[4..8];
    var recLen := FromBigEndian(hdr[..4]);
    var expectedCRC := FromBigEndian(hdr[4..8]);
    if recLen < 4 {
      return End(BadLength);
    }
    var n := recLen - 4;
    if |s| - pos - 8 < n {
      return End(if |s| == pos + 8 then HeaderOnly else Clean);
    }
    var next := pos + 8 + n;
    var data := s[pos + 8..next];
    assert data == rest[8..8 + n] && s[next..] == rest[8 + n..];
    if c.crc(data) != expectedCRC {
      return End(BadChecksum);
    }
    var e := c.unmarshal(data);
    r := if e.None? then End(BadRecord) else Record(e.value, next);
  }

  /** Of the file whose reading gives `whole`, the records `done` have been read up to `pos`. */
  ghost predicate ReadUpTo(c: Codec, s: bytes, pos: nat, done: seq<Entry>, whole: Parsed)
  {
    pos <= |s| && whole == Before(done, Parse(c, s[pos..]))
  }

  /** The next record, seen from the start of the file. */
  method ReadNext(c: Codec, s: bytes, pos: nat, ghost done: seq<Entry>, ghost whole: Parsed) returns (r: ReadResult)
    requires ReadUpTo(c, s, pos, done, whole)
    ensures r.End? ==> whole == Parsed(done, r.outcome)
    ensures r.Record? ==> pos < r.next && ReadUpTo(c, s, r.next, done + [r.e], whole)
  {
    r := ReadRecord(c, s, pos);
    match r {
      case End(_) =>
        assert done + [] == done;
      case Record(e, next) =>
        BeforeBefore(done, e, Parse(c, s[next..]));
    }
  }

  method NewShards(numShards: int) returns (shards: map<string, Memory>)
    ensures shards.Keys == Ids(numShards)
    ensures forall i, j :: i in shards && j in shards && shards[i] == shards[j] ==> i == j
    ensures forall i :: i in shards ==> shards[i].Mem == map[] && fresh(shards[i])
  {
    shards := map[];
    var i := 0;
    while i < numShards
      invariant 0 <= i && (i <= numShards || i == 0) && shards.Keys == Ids(i)
      invariant forall i, j :: i in shards && j in shards && shards[i] == shards[j] ==> i == j
      invariant forall i :: i in shards ==> shards[i].Mem == map[] && fresh(shards[i])
    {
      var m := new Memory();
      shards := shards[Itoa(i) := m];
      IdsOneMore(i);
      i := i + 1;
    }
    assert numShards < 0 ==> Ids(numShards) == {};
  }

  method NewRing(hash: Ring.Hash, numShards: int) returns (ch: Ring.ConsistentHash)
    ensures fresh(ch) && ch.hash == hash && ch.State() == RingOf(hash, numShards)
  {
    ch := new Ring.ConsistentHash(hash);
    var i := 0;
    while i < numShards
      invariant 0 <= i && (i <= numShards || i == 0)
      invariant fresh(ch) && ch.hash == hash && ch.State() == RingOf(hash, i)
    {
      ch.AddNode(Itoa(i));
      i := i + 1;
    }
  }

  class ShardManager {
    const shards: map<string, Memory>
    const chash: Ring.ConsistentHash
    const numShards: int
    ghost const owner: Router       // what the ring computes
    ghost var objects: set<Object>  // all that are or were in the memories

    /** One memory and one ring node per shard. */
    constructor (hash: Ring.Hash, numShards: int)
      ensures this.numShards == numShards
      ensures chash.hash == hash && chash.State() == RingOf(hash, numShards) && owner == RouterOf(hash, numShards)
      ensures shards.Keys == Ids(numShards) && Valid() && fresh(shards.Values) && objects == {}
      ensures Views() == map id | id in Ids(numShards) :: map[]
    {
      var built := NewShards(numShards);
      var ch := NewRing(hash, numShards);
      shards, chash, owner, objects := built, ch, RouterOf(hash, numShards), {};
      this.numShards := numShards;
      new;
      EmptyViews();
    }

    lemma EmptyViews()
      requires forall i :: i in shards ==> shards[i].Mem == map[]
      ensures Views() == map id | id in shards.Keys :: map[]
    {
    }

    /** Every shard has a memory of its own. */
    ghost predicate Apart()
      reads this, shards.Values
    {
      && (forall i, j :: i in shards && j in shards && shards[i] == shards[j] ==> i == j)
      && (forall i :: i in shards ==> shards[i].Valid() && shards[i].Mem.Values <= objects)
    }

    function Views(): Memories
      reads shards.Values, set i, o | i in shards && o in shards[i].Mem.Values :: o
    {
      map i | i in shards :: shards[i].View()
    }

    /** The ring over exactly these shards, as the constructor builds it. */
    ghost predicate RingOk()
      reads chash
    {
      && shards.Keys == Ids(numShards)
      && chash.State() == RingOf(chash.hash, numShards) && owner == RouterOf(chash.hash, numShards)
    }

    ghost predicate Valid()
      reads this, shards.Values, chash
    {
      Apart() && RingOk()
    }

    /** The memory of the shard that serves the key; none if no shard is configured. */
    method GetShardByKey(key: string) returns (m: Memory?)
      requires RingOk()
      ensures m == null <==> numShards < 1
      ensures m != null ==> owner(key) in shards && m == shards[owner(key)]
      ensures m != null ==>
                exists j :: Serves(chash.hash, numShards, chash.hash(key), j)
                            && Itoa(j) in shards && m == shards[Itoa(j)]
    {
      OwnerIsAShard(chash.hash, numShards, key);
      RingOfIsSound(chash.hash, numShards);
      if numShards >= 1 {
        var _ := RoutedToTheServing(chash.hash, numShards, key);
      }
      var node := chash.GetNode(key);
      m := if node in shards then shards[node] else null;
    }

    /** What the memories hold, provided that the manager is in order. */
    ghost function Shown(): Option<Memories>
      reads *
    {
      if Valid() then Some(Views()) else None
    }

    /** All views but one are as they were. */
    lemma OneViewChanged(before: Memories, id: string)
      requires shards.Keys == before.Keys && id in shards
      requires forall i :: i in shards && i != id ==> shards[i].View() == before[i]
      ensures Views() == before[id := shards[id].View()]
    {
    }

    /** One record replayed into one shard: the other shards keep what they hold. */
    method ReplayBeside(shard: Memory, ghost id: string, e: Entry, r: Reading)
      requires Apart() && id in shards && shard == shards[id]
      modifies shard
      ensures fresh(shard.Mem.Values - old(shard.Mem.Values))
      ensures forall i :: i in shards ==>
                shards[i].Valid() && shards[i].Mem.Values <= objects + shard.Mem.Values
      ensures Views() == old(Views())[id := ReplayStep(old(Views())[id], e, r)]
    {
      ghost var before := Views();
      assert forall i :: i in shards && i != id ==> shards[i] != shard;
      ReplayRecord(shard, e, r);
      OneViewChanged(before, id);
    }

    /** The same, with the new objects noted. */
    method ReplayInto(shard: Memory, ghost id: string, e: Entry, r: Reading)
      requires Apart() && id in shards && shard == shards[id]
      modifies shard, this`objects
      ensures Apart() && fresh(objects - old(objects))
      ensures Views() == old(Views())[id := ReplayStep(old(Views())[id], e, r)]
    {
      ReplayBeside(shard, id, e, r);
      ghost var after := Views();
      objects := objects + shard.Mem.Values;
      assert Views() == after;
    }

    method ReplayOwned(shard: Memory, e: Entry, r: Reading)
      requires Valid() && owner(e.key) in shards && shard == shards[owner(e.key)]
      modifies shard, this`objects
      ensures Shown() == Some(ReplayRouted(old(Views()), owner, e, r)) && fresh(objects - old(objects))
    {
      ReplayInto(shard, owner(e.key), e, r);
      assert RingOk();
    }

    lemma NothingToShow(e: Entry, r: Reading)
      requires Valid() && numShards < 1
      ensures Shown() == Some(ReplayRouted(Views(), owner, e, r))
    {
      assert Ids(numShards) == {};
      assert Views() == map[];
    }

    /**
     * What recovery does with one record. Without any shard there is no memory to replay it into, and the program
     * dies of it (`alive` is false).
     */
    method Callback(e: Entry, r: Reading) returns (alive: bool)
      requires Valid()
      modifies shards.Values, this`objects
      ensures Shown() == Some(ReplayRouted(old(Views()), owner, e, r)) && fresh(objects - old(objects))
      ensures alive <==> numShards >= 1 || !NeedsShard(e)
    {
      ghost var before := Views();
      var shard := GetShardByKey(e.key);
      assert Views() == before;
      if shard == null {
        NothingToShow(e, r);
        return !NeedsShard(e);
      }
      ReplayOwned(shard, e, r);
      return true;
    }

    /** The record that follows `done`. */
    method CallbackNext(e: Entry, clock: Clock, n: nat, ghost before: Memories, ghost done: seq<Entry>)
      returns (alive: bool)
      requires n == |done| && Shown() == Some(ReplayFile(before, owner, done, clock))
      modifies shards.Values, this`objects
      ensures Shown() == Some(ReplayFile(before, owner, done + [e], clock)) && fresh(objects - old(objects))
      ensures alive <==> numShards >= 1 || !NeedsShard(e)
    {
      alive := Callback(e, clock(n));
      ReplayFileOneMore(before, owner, done, e, clock);
    }

    /** Reads one shard file record by record; a missing file is no error. */
    method RecoverShard(c: Codec, file: Option<bytes>, clock: Clock, ghost before: Memories)
      returns (outcome: Outcome, alive: bool)
      requires Shown() == Some(before)
      modifies shards.Values, this`objects
      ensures Shown().Some? && fresh(objects - old(objects))
      ensures var p := Parse(c, file.GetOr([]));
              && (alive <==> numShards >= 1 || !AnyNeedsShard(p.entries))
              && (alive ==> Shown() == Some(ReplayFile(before, owner, p.entries, clock)) && outcome == p.outcome)
    {
      if file.None? {
        return Clean, true;
      }
      outcome, alive := RecoverBytes(c, file.value, clock, before);
    }

    method RecoverBytes(c: Codec, s: bytes, clock: Clock, ghost before: Memories)
      returns (outcome: Outcome, alive: bool)
      requires Shown() == Some(before)
      modifies shards.Values, this`objects
      ensures Shown().Some? && fresh(objects - old(objects))
      ensures var p := Parse(c, s);
              && (alive <==> numShards >= 1 || !AnyNeedsShard(p.entries))
              && (alive ==> Shown() == Some(ReplayFile(before, owner, p.entries, clock)) && outcome == p.outcome)
    {
      var pos, n := 0, 0;
      ghost var done: seq<Entry>, whole := [], Parse(c, s);
      assert s[0..] == s && [] + whole.entries == whole.entries;
      while true
        invariant ReadUpTo(c, s, pos, done, whole) && n == |done|
        invariant Shown() == Some(ReplayFile(before, owner, done, clock)) && fresh(objects - old(objects))
        invariant numShards >= 1 || !AnyNeedsShard(done)
        decreases |s| - pos
      {
        var r := ReadNext(c, s, pos, done, whole);
        match r {
          case End(o) =>
            return o, true;
          case Record(e, next) =>
            ghost var was := objects;
            alive := CallbackNext(e, clock, n, before, done);
            assert objects - old(objects) <= (objects - was) + (was - old(objects));
            OneMoreNeeds(done, e, whole.entries);
            if !alive {
              return Clean, false;
            }
            done, pos, n := done + [e], next, n + 1;
        }
      }
    }

    /** One more shard file, after those of `order` have been read without error. */
    method RecoverNext(c: Codec, files: map<string, bytes>, clocks: Clocks, ghost before: Memories,
                       ghost order: seq<string>, id: string) returns (outcome: Outcome, alive: bool)
      requires var r := RecoverAll(c, owner, before, files, order, clocks);
               r.outcome == Clean && Shown() == Some(r.mems)
      modifies shards.Values, this`objects
      ensures Shown().Some? && fresh(objects - old(objects))
      ensures alive <==> numShards >= 1 || !AnyNeedsShard(Read(c, files, id).entries)
      ensures alive ==> var r := RecoverAll(c, owner, before, files, order + [id], clocks);
                        Shown() == Some(r.mems) && r.outcome == outcome
    {
      RecoverOneMore(c, owner, before, files, order, id, clocks);
      ghost var r := RecoverAll(c, owner, before, files, order, clocks);
      outcome, alive := RecoverShard(c, if id in files then Some(files[id]) else None, clocks(id), r.mems);
    }

    /** The loop over the shard files: in any order, up to the first error or the first record without a shard. */
    method RecoverFiles(c: Codec, files: map<string, bytes>, clocks: Clocks, ids: set<string>, ghost before: Memories)
      returns (ghost order: seq<string>, outcome: Outcome, alive: bool)
      requires Shown() == Some(before)
      modifies shards.Values, this`objects
      ensures Shown().Some? && fresh(objects - old(objects))
      ensures Distinct(order) && (forall id :: id in order ==> id in ids)
      ensures alive && outcome == Clean ==> forall id :: id in ids ==> id in order
      ensures alive ==> Recovered(Shown().value, outcome) == RecoverAll(c, owner, before, files, order, clocks)
      ensures alive <==> numShards >= 1 || Harmless(c, files, order)
    {
      order, outcome, alive := [], Clean, true;
      var todo := ids;
      while todo != {} && alive && outcome == Clean
        invariant Visited(order, todo, ids) && Shown().Some? && fresh(objects - old(objects))
        invariant alive ==> Recovered(Shown().value, outcome) == RecoverAll(c, owner, before, files, order, clocks)
        invariant alive <==> numShards >= 1 || Harmless(c, files, order)
        decreases |todo|
      {
        var id :| id in todo;
        ghost var was := objects;
        outcome, alive := RecoverNext(c, files, clocks, before, order, id);
        HarmlessNext(c, files, order, id);
        VisitNext(order, todo, ids, id);
        order, todo := order + [id], todo - {id};
        assert objects - old(objects) <= (objects - was) + (was - old(objects));
      }
    }

    /**
     * Recovers the shard files of the log - as many as it has opened - in any order; the first file that ends in
     * an error ends the recovery (and the caller is not told). With at least one shard configured these are the
     * manager's own shards. With none the log still has some, and the program dies of the first record in them.
     */
    method RecoverMemory(c: Codec, files: map<string, bytes>, clocks: Clocks, processors: nat)
      returns (ghost order: seq<string>, alive: bool)
      requires Valid()
      modifies shards.Values, this`objects
      ensures Valid() && fresh(objects - old(objects))
      ensures Distinct(order) && forall id :: id in order ==> id in Ids(LogShardCount(numShards, processors))
      ensures numShards >= 1 ==> alive && Ids(LogShardCount(numShards, processors)) == shards.Keys
      ensures alive ==>
                var r := RecoverAll(c, owner, old(Views()), files, order, clocks);
                && Views() == r.mems
                && (r.outcome == Clean ==> forall id :: id in Ids(LogShardCount(numShards, processors)) ==> id in order)
      ensures alive <==> numShards >= 1 || Harmless(c, files, order)
    {
      var outcome;
      order, outcome, alive := RecoverFiles(c, files, clocks, Ids(LogShardCount(numShards, processors)), Views());
    }
  }
}
