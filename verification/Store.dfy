/**
 * The in-memory store of one shard. Deadlines are Unix seconds, 0 meaning none; expired keys stay in the
 * map until some operation notices them. The class refines the functions; the lemmas are about runs.
 */
module Store {
  import opened Base

  /** The contents of a stored object. */
  datatype Item = Item(kind: uint32, value: bytes, timestamp: int64)

  type Mem = map<string, Item>

  // ---------- What each operation does ----------

  /** The test of GET: strictly after the deadline. */
  predicate Past(o: Item, now: int64)
  {
    o.timestamp > 0 && now > o.timestamp
  }

  /** The test of EXPIRE and of the sweep: from the deadline second on. */
  predicate Due(o: Item, now: int64)
  {
    o.timestamp > 0 && now >= o.timestamp
  }

  function GetStep(m: Mem, key: string, now: int64): (Mem, Option<Item>)
  {
    if key !in m then (m, None)
    else if Past(m[key], now) then (m - {key}, None)
    else (m, Some(m[key]))
  }

  function SetStep(m: Mem, key: string, value: bytes, kind: uint32): Mem
  {
    m[key := Item(kind, value, 0)]
  }

  function Deadline(now: int64, ttl: int64): int64
  {
    if ttl > 0 then WrapAdd(now, ttl) else 0
  }

  function SetWithTTLStep(m: Mem, key: string, value: bytes, kind: uint32, ttl: int64, now: int64): Mem
  {
    m[key := Item(kind, value, Deadline(now, ttl))]
  }

  function DeleteStep(m: Mem, key: string): (Mem, bool)
  {
    (m - {key}, key in m)
  }

  /** -2: no such key; -1: no deadline. A deadline that overflowed to a negative number counts as over. */
  function TTLStep(m: Mem, key: string, now: int64): (Mem, int64)
  {
    if key !in m then (m, -2)
    else if m[key].timestamp == 0 then (m, -1)
    else if now >= m[key].timestamp then (m - {key}, -2)
    else (m, WrapSub(m[key].timestamp, now))
  }

  /** The clock is read for the expiry test and again for the new deadline. */
  function ExpireStep(m: Mem, key: string, ttl: int64, now: int64, later: int64): (Mem, bool)
  {
    if key !in m then (m, false)
    else if Due(m[key], now) then (m - {key}, false)
    else (m[key := m[key].(timestamp := Deadline(later, ttl))], true)
  }

  function CleanupStep(m: Mem, now: int64): Mem
  {
    map k | k in m && !Due(m[k], now) :: m[k]
  }

  /** What the operations on one key say at time `t` about an object that was to live until `end`. */
  ghost predicate LivesUntil(m: Mem, key: string, t: int64, end: int64)
  {
    && TTLStep(m, key, t).1 == (if t < end then end - t else -2)
    && (GetStep(m, key, t).1.Some? <==> t <= end)
    && (forall ttl: int64, later: int64 :: ExpireStep(m, key, ttl, t, later).1 <==> t < end)
    && (key in CleanupStep(m, t) <==> t < end)
  }

  /**
   * A lifetime set with a value, or put on a key that is there, ends just so many seconds after the clock reading
   * from which its deadline was made.
   */
  lemma LifetimeIsHonoured(m: Mem, key: string, value: bytes, kind: uint32, ttl: int64, now: int64, later: int64,
                           t: int64)
    requires 0 <= now <= later <= t && 0 < ttl && later + ttl < TWO63
    ensures LivesUntil(SetWithTTLStep(m, key, value, kind, ttl, later), key, t, later + ttl)
    ensures ExpireStep(m, key, ttl, now, later).1 ==>
              LivesUntil(ExpireStep(m, key, ttl, now, later).0, key, t, later + ttl)
  {
  }

  /** The object stays for good: no operation ever finds it over, and TTL says so. */
  ghost predicate StaysForGood(m: Mem, key: string)
  {
    && (forall t: int64 :: TTLStep(m, key, t).1 == -1)
    && (forall t: int64 :: GetStep(m, key, t).1.Some?)
    && (forall t: int64, ttl: int64, later: int64 :: ExpireStep(m, key, ttl, t, later).1)
    && (forall t: int64 :: key in CleanupStep(m, t))
  }

  lemma StaysForGoodIff(m: Mem, key: string)
    ensures StaysForGood(m, key) <==> key in m && m[key].timestamp == 0
  {
    if StaysForGood(m, key) {
      assert TTLStep(m, key, 0).1 == -1;
    }
  }

  /** What is stored without a lifetime, or has its lifetime taken away, stays for good; with one it never does. */
  lemma NoLifetimeMeansForGood(m: Mem, key: string, value: bytes, kind: uint32, ttl: int64, now: int64, later: int64)
    requires 0 <= now && 0 <= later
    ensures StaysForGood(SetStep(m, key, value, kind), key)
    ensures StaysForGood(SetWithTTLStep(m, key, value, kind, ttl, now), key) <==> ttl <= 0
    ensures ExpireStep(m, key, ttl, now, later).1 ==>
              (StaysForGood(ExpireStep(m, key, ttl, now, later).0, key) <==> ttl <= 0)
  {
    StaysForGoodIff(SetStep(m, key, value, kind), key);
    StaysForGoodIff(SetWithTTLStep(m, key, value, kind, ttl, now), key);
    StaysForGoodIff(ExpireStep(m, key, ttl, now, later).0, key);
  }

  /** A lifetime that overflows the clock is over for TTL at once, and never for GET, EXPIRE and the sweep. */
  lemma OverflowingLifetime(m: Mem, key: string, value: bytes, kind: uint32, ttl: int64, now: int64, t: int64)
    requires 0 <= now <= t && 0 < ttl && now + ttl >= TWO63
    ensures var m1 := SetWithTTLStep(m, key, value, kind, ttl, now);
            && TTLStep(m1, key, t).1 == -2 && GetStep(m1, key, t).1.Some?
            && ExpireStep(m1, key, ttl, t, t).1 && key in CleanupStep(m1, t)
  {
  }

  // ---------- The store object ----------

  class Object {
    var kind: uint32
    var value: bytes
    var timestamp: int64
    ghost const owner: string  // the key it was created for

    constructor (ghost owner: string, kind: uint32, value: bytes, timestamp: int64)
      ensures this.owner == owner && Contents() == Item(kind, value, timestamp)
    {
      this.owner, this.kind, this.value, this.timestamp := owner, kind, value, timestamp;
    }

    function Contents(): Item
      reads this
    {
      Item(kind, value, timestamp)
    }
  }

  class Memory {
    var Mem: map<string, Object>

    constructor ()
      ensures Valid() && View() == map[] && Mem == map[]
    {
      Mem := map[];
    }

    /** Every key has an object of its own. */
    ghost predicate Valid()
      reads this
    {
      forall k :: k in Mem ==> Mem[k].owner == k
    }

    function View(): Mem
      reads this, Mem.Values
    {
      map k | k in Mem :: Mem[k].Contents()
    }

    /** How many keys are stored, those included whose deadline has come unnoticed. */
    method Length() returns (n: int32)
      ensures n == ToInt32(|View()|)
    {
      assert View().Keys == Mem.Keys;
      n := ToInt32(|Mem|);
    }

    method Get(key: string, now: int64) returns (obj: Object?)
      requires Valid()
      modifies this
      ensures Valid() && Mem.Values <= old(Mem.Values)
      ensures obj != null ==> Mem == old(Mem)
      ensures View() == GetStep(old(View()), key, now).0
      ensures match GetStep(old(View()), key, now).1
              case None => obj == null
              case Some(o) => key in Mem && obj == Mem[key] && obj.Contents() == o
    {
      if key !in Mem {
        return null;
      }
      obj := Mem[key];
      if obj.timestamp > 0 && now > obj.timestamp {
        Mem := Mem - {key};
        assert View() == old(View()) - {key};
        return null;
      }
    }

    method Set(key: string, value: bytes, kind: uint32)
      requires Valid()
      modifies this
      ensures Valid() && key in Mem && fresh(Mem[key]) && Mem == old(Mem)[key := Mem[key]]
      ensures fresh(Mem.Values - old(Mem.Values))
      ensures View() == SetStep(old(View()), key, value, kind)
    {
      var obj := new Object(key, kind, value, 0);
      Mem := Mem[key := obj];
    }

    method SetWithTTL(key: string, value: bytes, kind: uint32, ttl: int64, now: int64)
      requires Valid()
      modifies this
      ensures Valid() && key in Mem && fresh(Mem[key]) && Mem == old(Mem)[key := Mem[key]]
      ensures fresh(Mem.Values - old(Mem.Values))
      ensures View() == SetWithTTLStep(old(View()), key, value, kind, ttl, now)
    {
      var expirationTime: int64 := 0;
      if ttl > 0 {
        expirationTime := WrapAdd(now, ttl);
      }
      var obj := new Object(key, kind, value, expirationTime);
      Mem := Mem[key := obj];
    }

    method Delete(key: string) returns (found: bool)
      requires Valid()
      modifies this
      ensures Valid() && Mem == old(Mem) - {key} && Mem.Values <= old(Mem.Values)
      ensures (View(), found) == DeleteStep(old(View()), key)
    {
      if key in Mem {
        Mem := Mem - {key};
        found := true;
      } else {
        found := false;
      }
      assert View() == old(View()) - {key};
    }

    method TTL(key: string, now: int64) returns (seconds: int64)
      requires Valid()
      modifies this
      ensures Valid() && Mem.Values <= old(Mem.Values)
      ensures (View(), seconds) == TTLStep(old(View()), key, now)
    {
      if key !in Mem {
        return -2;
      }
      var obj := Mem[key];
      if obj.timestamp == 0 {
        return -1;
      }
      if now >= obj.timestamp {
        Mem := Mem - {key};
        assert View() == old(View()) - {key};
        return -2;
      }
      return WrapSub(obj.timestamp, now);
    }

    /** Changes the deadline in the object itself, which other parts of the program may hold too. */
    method Expire(key: string, ttl: int64, now: int64, later: int64) returns (done: bool)
      requires Valid()
      modifies this, set o | o in Mem.Values && key in Mem && o == Mem[key]
      ensures Valid() && (done ==> Mem == old(Mem)) && Mem.Values <= old(Mem.Values)
      ensures key in old(Mem) ==> old(Mem[key]).kind == old(Mem[key].kind) && old(Mem[key]).value == old(Mem[key].value)
      ensures !done && key in old(Mem) ==> old(Mem[key]).timestamp == old(Mem[key].timestamp)
      ensures (View(), done) == ExpireStep(old(View()), key, ttl, now, later)
    {
      if key !in Mem {
        return false;
      }
      var obj := Mem[key];
      if obj.timestamp > 0 && now >= obj.timestamp {
        Mem := Mem - {key};
        assert View() == old(View()) - {key};
        return false;
      }
      if ttl > 0 {
        obj.timestamp := WrapAdd(later, ttl);
      } else {
        obj.timestamp := 0;
      }
      assert View() == old(View())[key := old(View())[key].(timestamp := Deadline(later, ttl))];
      return true;
    }

    /** Sweeps out every key whose deadline second has come, in any order. */
    method CleanupExpired(now: int64) returns (deleted: int32)
      requires Valid()
      modifies this
      ensures Valid() && Mem.Values <= old(Mem.Values)
      ensures View() == CleanupStep(old(View()), now)
      ensures |Mem| <= |old(Mem)| && deleted == ToInt32(|old(Mem)| - |Mem|)
    {
      var count: nat := 0;
      var todo := Mem.Keys;
      while todo != {}
        invariant Mem.Keys <= old(Mem.Keys) && todo <= Mem.Keys
        invariant forall k :: k in old(Mem) ==> (k in Mem <==> k in todo || !Due(old(Mem[k].Contents()), now))
        invariant forall k :: k in Mem ==> Mem[k] == old(Mem[k])
        invariant count == |old(Mem)| - |Mem|
        decreases |todo|
      {
        var k :| k in todo;
        var obj := Mem[k];
        if obj.timestamp > 0 && now >= obj.timestamp {
          assert (Mem - {k}).Keys == Mem.Keys - {k};
          Mem := Mem - {k};
          count := count + 1;
        }
        todo := todo - {k};
      }
      deleted := ToInt32(count);
      SubmapValues(Mem, old(Mem));
    }
  }

  lemma SubmapValues<K, V>(m: map<K, V>, was: map<K, V>)
    requires forall k :: k in m ==> k in was && m[k] == was[k]
    ensures m.Values <= was.Values
  {
  }

  // ---------- Runs: is the sweep observable? ----------

  datatype Op =
    | Get(key: string)
    | Set(key: string, value: bytes, kind: uint32)
    | SetWithTTL(key: string, value: bytes, kind: uint32, ttl: int64)
    | Delete(key: string)
    | TTL(key: string)
    | Expire(key: string, ttl: int64)
    | Length
    | Cleanup

  /** An operation with the clock at its first and at its last reading. */
  datatype Timed = Timed(op: Op, now: int64, later: int64)

  datatype Answer = Nothing | Found(item: Option<Item>) | Flag(b: bool) | Seconds(s: int64) | Count(n: int32)

  function Step(m: Mem, e: Timed): (Mem, Answer)
  {
    match e.op
    case Get(k) => var (m', r) := GetStep(m, k, e.now); (m', Found(r))
    case Set(k, v, kind) => (SetStep(m, k, v, kind), Nothing)
    case SetWithTTL(k, v, kind, ttl) => (SetWithTTLStep(m, k, v, kind, ttl, e.now), Nothing)
    case Delete(k) => var (m', r) := DeleteStep(m, k); (m', Flag(r))
    case TTL(k) => var (m', r) := TTLStep(m, k, e.now); (m', Seconds(r))
    case Expire(k, ttl) => var (m', r) := ExpireStep(m, k, ttl, e.now, e.later); (m', Flag(r))
    case Length => (m, Count(ToInt32(|m|)))
    case Cleanup => (CleanupStep(m, e.now), Nothing)
  }

  /** The clock never runs backwards. */
  predicate Clocked(run: seq<Timed>, t: int64)
  {
    run == [] || (t <= run[0].now <= run[0].later && Clocked(run[1..], run[0].later))
  }

  /** `m` differs from the swept store `c` only by keys whose deadline had come by time `t`. */
  ghost predicate Lags(m: Mem, c: Mem, t: int64)
  {
    && (forall k :: k in c ==> k in m && m[k] == c[k])
    && (forall k :: k in m && k !in c ==> Due(m[k], t))
  }

  /**
   * The same operation on the unswept store `m` and on the swept store `c`: GET differs exactly in a
   * leftover key's deadline second, DELETE (which reports whether the key was there) exactly on a
   * leftover key, the number of keys exactly when there are leftover keys (unless 2^32 of them), and nothing
   * else differs.
   */
  ghost predicate Alike(m: Mem, c: Mem, e: Timed)
  {
    var same := Step(m, e).1 == Step(c, e).1;
    match e.op
    case Get(k) => same <==> !(k in m && k !in c && m[k].timestamp == e.now)
    case Delete(k) => same <==> !(k in m && k !in c)
    case Length => same <==> |m.Keys - c.Keys| % TWO32 == 0
    case _ => same
  }

  /** The run executed twice: on `m` without its sweeps, on `c` with them. */
  ghost predicate AlikeThroughout(m: Mem, c: Mem, run: seq<Timed>)
    decreases |run|
  {
    run == [] ||
    if run[0].op.Cleanup? then AlikeThroughout(m, Step(c, run[0]).0, run[1..])
    else Alike(m, c, run[0]) && AlikeThroughout(Step(m, run[0]).0, Step(c, run[0]).0, run[1..])
  }

  /** Leftover keys are what makes the unswept store larger. */
  lemma LeftoverCount(m: Mem, c: Mem, t: int64)
    requires Lags(m, c, t)
    ensures |m| == |c| + |m.Keys - c.Keys| && (|m| == |c| <==> m == c)
  {
    assert m.Keys == c.Keys + (m.Keys - c.Keys);
    if |m| == |c| {
      assert m.Keys - c.Keys == {};
      assert m == c;
    }
  }

  lemma SameInt32Iff(a: nat, b: nat)
    ensures ToInt32(a + b) == ToInt32(a) <==> b % TWO32 == 0
  {
  }

  lemma LengthAlike(m: Mem, c: Mem, e: Timed, t: int64)
    requires Lags(m, c, t) && e.op.Length?
    ensures Alike(m, c, e)
  {
    LeftoverCount(m, c, t);
    SameInt32Iff(|c|, |m.Keys - c.Keys|);
  }

  lemma StepKeepsLag(m: Mem, c: Mem, e: Timed, t: int64)
    requires Lags(m, c, t) && t <= e.now <= e.later && !e.op.Cleanup?
    ensures Alike(m, c, e)
    ensures Lags(Step(m, e).0, Step(c, e).0, e.later)
  {
    if e.op.Length? {
      LengthAlike(m, c, e, t);
      LagGrows(m, c, t, e.later);
    } else if e.op.Get? || e.op.TTL? || e.op.Expire? {
      ReadKeepsLag(m, c, e, t);
    } else {
      WriteKeepsLag(m, c, e, t);
    }
  }

  /** Who takes an object out of memory that is over, and when: the three operations that test it, and the sweep. */
  lemma TakesOutIff(m: Mem, key: string, ttl: int64, now: int64, later: int64)
    requires key in m
    ensures key !in Step(m, Timed(Get(key), now, later)).0 <==> Past(m[key], now)
    ensures key !in Step(m, Timed(Expire(key, ttl), now, later)).0 <==> Due(m[key], now)
    ensures key !in Step(m, Timed(Cleanup, now, later)).0 <==> Due(m[key], now)
    ensures key !in Step(m, Timed(TTL(key), now, later)).0 <==> m[key].timestamp != 0 && now >= m[key].timestamp
  {
  }

  /** What is read is what was last written, a new lifetime leaves it alone, and a deleted key is gone for good. */
  lemma LastWriteIsRead(m: Mem, key: string, value: bytes, kind: uint32, ttl: int64, now: int64, later: int64,
                        t: int64)
    ensures var m1 := Step(m, Timed(Set(key, value, kind), now, later)).0;
            Step(m1, Timed(Get(key), t, t)).1 == Found(Some(Item(kind, value, 0)))
    ensures var m1 := Step(m, Timed(SetWithTTL(key, value, kind, ttl), now, later)).0;
            var found := Step(m1, Timed(Get(key), t, t)).1;
            found == Found(None) || found == Found(Some(Item(kind, value, Deadline(now, ttl))))
    ensures var m1 := Step(m, Timed(Expire(key, ttl), now, later)).0;
            var found := Step(m1, Timed(Get(key), t, t)).1;
            found == Found(None) || (key in m && found == Found(Some(m[key].(timestamp := Deadline(later, ttl)))))
    ensures var (m1, deleted) := Step(m, Timed(Delete(key), now, later));
            && deleted == Flag(key in m)
            && Step(m1, Timed(Get(key), t, t)) == (m1, Found(None))
            && Step(m1, Timed(TTL(key), t, t)) == (m1, Seconds(-2))
            && Step(m1, Timed(Delete(key), t, t)) == (m1, Flag(false))
            && Step(m1, Timed(Expire(key, ttl), t, t)) == (m1, Flag(false))
  {
    assert m - {key} - {key} == m - {key};
  }

  /** An operation on one key never shows under another. */
  lemma OtherKeysStay(m: Mem, e: Timed, k: string)
    requires match e.op case Length => true case Cleanup => false case _ => e.op.key != k
    ensures var m1 := Step(m, e).0; (k in m1 <==> k in m) && (k in m ==> m1[k] == m[k])
  {
  }

  lemma ReadKeepsLag(m: Mem, c: Mem, e: Timed, t: int64)
    requires Lags(m, c, t) && t <= e.now <= e.later && (e.op.Get? || e.op.TTL? || e.op.Expire?)
    ensures Alike(m, c, e)
    ensures Lags(Step(m, e).0, Step(c, e).0, e.later)
  {
  }

  lemma WriteKeepsLag(m: Mem, c: Mem, e: Timed, t: int64)
    requires Lags(m, c, t) && t <= e.now <= e.later && (e.op.Set? || e.op.SetWithTTL? || e.op.Delete?)
    ensures Alike(m, c, e)
    ensures Lags(Step(m, e).0, Step(c, e).0, e.later)
  {
  }

  lemma SweepKeepsLag(m: Mem, c: Mem, now: int64, t: int64)
    requires Lags(m, c, t) && t <= now
    ensures Lags(m, CleanupStep(c, now), now)
  {
  }

  lemma LagGrows(m: Mem, c: Mem, t: int64, t': int64)
    requires Lags(m, c, t) && t <= t'
    ensures Lags(m, c, t')
  {
  }

  /** Sweeps inserted anywhere into any run are observable only in the two ways `Alike` names. */
  lemma {:induction false} SweepsAreUnobservable(m: Mem, c: Mem, run: seq<Timed>, t: int64)
    requires Lags(m, c, t) && Clocked(run, t)
    ensures AlikeThroughout(m, c, run)
    decreases |run|
  {
    if run != [] {
      var e := run[0];
      if e.op.Cleanup? {
        SweepKeepsLag(m, c, e.now, t);
        LagGrows(m, Step(c, e).0, e.now, e.later);
        SweepsAreUnobservable(m, Step(c, e).0, run[1..], e.later);
      } else {
        StepKeepsLag(m, c, e, t);
        SweepsAreUnobservable(Step(m, e).0, Step(c, e).0, run[1..], e.later);
      }
    }
  }

  /** In the deadline second itself GET still answers where TTL already reports the key gone. */
  lemma GetAndTTLDisagreeAtTheDeadline(key: string, o: Item)
    requires o.timestamp > 0
    ensures GetStep(map[key := o], key, o.timestamp).1 == Some(o)
    ensures TTLStep(map[key := o], key, o.timestamp) == (map[], -2)
  {
    var m: Mem := map[key := o];
    assert m - {key} == map[];
  }
}
