/**
 * The commands of one shard as they run: they change the memory, in some cases through the object they hold,
 * and put an entry on the log channel. Each is proved to be one step of the state machine in Durability; the
 * positions of the waiting entries that share the changed object come out as `shared`.
 */
module Commands {
  import opened Base
  import opened Store
  import opened LogFormat
  import opened Wal
  import opened Replay
  import opened Durability

  /** Every waiting entry points to an object of its own key. */
  ghost predicate Coherent(q: seq<QueueEntry>)
  {
    forall i :: 0 <= i < |q| && q[i].obj != null ==> q[i].obj.owner == q[i].key
  }

  /** The shard serves: its log is open. */
  ghost predicate Serving(mem: Memory, wal: WalShard)
    reads mem, wal
  {
    mem.Valid() && !wal.closed && Coherent(wal.ch)
  }

  function Waiting(wal: WalShard): seq<Entry>
    reads wal, set i | 0 <= i < |wal.ch| && wal.ch[i].obj != null :: wal.ch[i].obj
  {
    DerefAll(wal.ch)
  }

  /** What commands change: memory and the waiting entries, as values. */
  function Seen(mem: Memory, wal: WalShard): Effect
    reads mem, mem.Mem.Values, wal, set i | 0 <= i < |wal.ch| && wal.ch[i].obj != null :: wal.ch[i].obj
  {
    Effect(mem.View(), Waiting(wal))
  }

  /** Positions of the waiting entries that point to `o`. */
  ghost function Holding(q: seq<QueueEntry>, o: Object?): set<nat>
  {
    set i: nat | i < |q| && o != null && q[i].obj == o
  }

  lemma {:induction false} DerefOneMore(q: seq<QueueEntry>, e: QueueEntry)
    ensures DerefAll(q + [e]) == DerefAll(q) + [Deref(e)]
  {
    var a, b := DerefAll(q + [e]), DerefAll(q) + [Deref(e)];
    forall i | 0 <= i < |a| ensures a[i] == b[i] { }
  }

  /** Logs an update of a key; a closed log refuses it, which the commands ignore. */
  method LogPut(wal: WalShard, key: string, obj: Object)
    requires Coherent(wal.ch) && obj.owner == key
    modifies wal`ch
    ensures Coherent(wal.ch)
    ensures !wal.closed ==> wal.ch == old(wal.ch) + [QueueEntry(Update, key, obj)]
    ensures Waiting(wal) == if wal.closed then old(Waiting(wal)) else old(Waiting(wal)) + [Put(key, obj.Contents())]
  {
    if !wal.closed {
      wal.Send(QueueEntry(Update, key, obj));
      DerefOneMore(old(wal.ch), QueueEntry(Update, key, obj));
    }
  }

  method LogDelete(wal: WalShard, key: string)
    requires Coherent(wal.ch)
    modifies wal`ch
    ensures Coherent(wal.ch)
    ensures Waiting(wal) == if wal.closed then old(Waiting(wal)) else old(Waiting(wal)) + [Entry(Erase, key, None)]
  {
    if !wal.closed {
      wal.Send(QueueEntry(Erase, key, null));
      DerefOneMore(old(wal.ch), QueueEntry(Erase, key, null));
    }
  }

  // ---------- SET and every command that stores a freshly computed value ----------

  /** Logs a value in an object of its own. */
  method LogValue(wal: WalShard, key: string, value: bytes, kind: uint32)
    requires !wal.closed && Coherent(wal.ch)
    modifies wal`ch
    ensures Coherent(wal.ch) && Waiting(wal) == old(Waiting(wal)) + [Put(key, Item(kind, value, 0))]
  {
    var obj := new Object(key, kind, value, 0);
    assert Waiting(wal) == old(Waiting(wal));
    LogPut(wal, key, obj);
  }

  /** Memory.Set, which no waiting entry sees: it puts a new object in the place of the old one. */
  method SetInMemory(mem: Memory, wal: WalShard, key: string, value: bytes, kind: uint32)
    requires Serving(mem, wal)
    modifies mem
    ensures Serving(mem, wal) && fresh(mem.Mem.Values - old(mem.Mem.Values))
    ensures mem.View() == SetStep(old(mem.View()), key, value, kind) && Waiting(wal) == old(Waiting(wal))
  {
    mem.Set(key, value, kind);
    assert Waiting(wal) == old(Waiting(wal));
  }

  method StoreAndLog(mem: Memory, wal: WalShard, key: string, value: bytes, kind: uint32, now: Time)
    requires Serving(mem, wal)
    modifies mem, wal`ch
    ensures Serving(mem, wal) && fresh(mem.Mem.Values - old(mem.Mem.Values))
    ensures Seen(mem, wal) == Execute(old(mem.View()), old(Waiting(wal)), Write(key, value, kind), now, {})
  {
    SetInMemory(mem, wal, key, value, kind);
    ghost var view := mem.View();
    LogValue(wal, key, value, kind);
    assert mem.View() == view;
  }

  // ---------- DELETE ----------

  /** Memory.Delete, which no waiting entry sees: the object that was stored stays as it is. */
  method DeleteInMemory(mem: Memory, wal: WalShard, key: string) returns (found: bool)
    requires Serving(mem, wal)
    modifies mem
    ensures Serving(mem, wal) && mem.Mem.Values <= old(mem.Mem.Values)
    ensures (mem.View(), found) == DeleteStep(old(mem.View()), key) && Waiting(wal) == old(Waiting(wal))
  {
    found := mem.Delete(key);
    assert Waiting(wal) == old(Waiting(wal));
  }

  method DeleteKey(mem: Memory, wal: WalShard, key: string, now: Time)
    requires Serving(mem, wal)
    modifies mem, wal`ch
    ensures Serving(mem, wal) && fresh(mem.Mem.Values - old(mem.Mem.Values))
    ensures Seen(mem, wal) == Execute(old(mem.View()), old(Waiting(wal)), Del(key), now, {})
  {
    var status := DeleteInMemory(mem, wal, key);
    ghost var view := mem.View();
    if status {
      LogDelete(wal, key);
      assert mem.View() == view;
    }
  }

  /**
   * MAP.DEL with only a key: logs the deletion even of a key that is not there. JSON.REMOVE with only a key
   * and LIST.POP of the last element end in the same two calls once they have found the key.
   */
  method RemoveKey(mem: Memory, wal: WalShard, key: string, now: Time)
    requires Serving(mem, wal)
    modifies mem, wal`ch
    ensures Serving(mem, wal) && fresh(mem.Mem.Values - old(mem.Mem.Values))
    ensures Seen(mem, wal) == Execute(old(mem.View()), old(Waiting(wal)), DelAlways(key), now, {})
  {
    var _ := DeleteInMemory(mem, wal, key);
    ghost var view := mem.View();
    LogDelete(wal, key);
    assert mem.View() == view;
  }

  // ---------- Commands that change the object they hold ----------

  /** The object that commands on `key` would change, if any. */
  ghost function Live(mem: Memory, key: string): Object?
    reads mem
  {
    if key in mem.Mem then mem.Mem[key] else null
  }

  /** Changing an object to `o` shows in the waiting entries that point to it. */
  lemma ObjectChangeTouches(q: seq<QueueEntry>, before: seq<Entry>, after: seq<Entry>, key: string, obj: Object,
                            o: Item)
    requires Coherent(q) && obj.owner == key && |before| == |after| == |q|
    requires forall i :: 0 <= i < |q| ==> before[i].key == q[i].key && (before[i].obj.Some? <==> q[i].obj != null)
    requires forall i :: 0 <= i < |q| ==> after[i] == if q[i].obj == obj then before[i].(obj := Some(o)) else before[i]
    ensures after == Touch(before, key, Holding(q, obj), o)
  {
    var t := Touch(before, key, Holding(q, obj), o);
    forall i | 0 <= i < |q| ensures after[i] == t[i] { }
  }

  /** Memory.Expire entry by entry: the waiting entries that hold the live object get its new deadline. */
  method ExpireSeen(mem: Memory, wal: WalShard, key: string, seconds: int64, now: Time, later: Time)
    returns (result: bool)
    requires Serving(mem, wal)
    modifies mem, set o | o in mem.Mem.Values && key in mem.Mem && o == mem.Mem[key]
    ensures Serving(mem, wal) && mem.Mem.Values <= old(mem.Mem.Values)
    ensures (mem.View(), result) == ExpireStep(old(mem.View()), key, seconds, now, later)
    ensures result ==> mem.Mem == old(mem.Mem) && key in mem.Mem
    ensures forall i :: 0 <= i < |wal.ch| ==>
              Deref(wal.ch[i]) == if result && wal.ch[i].obj == mem.Mem[key]
                                  then old(Deref(wal.ch[i])).(obj := Some(mem.Mem[key].Contents()))
                                  else old(Deref(wal.ch[i]))
  {
    result := mem.Expire(key, seconds, now, later);
  }

  /** Memory.Expire as the log sees it: the new deadline shows in the waiting entries that share the object. */
  method ExpireInPlace(mem: Memory, wal: WalShard, key: string, seconds: int64, now: Time, later: Time,
                       ghost shared: set<nat>)
    returns (result: bool)
    requires Serving(mem, wal) && shared == Holding(wal.ch, Live(mem, key))
    modifies mem, mem.Mem.Values
    ensures Serving(mem, wal) && fresh(mem.Mem.Values - old(mem.Mem.Values))
    ensures (mem.View(), result) == ExpireStep(old(mem.View()), key, seconds, now, later)
    ensures result ==> key in mem.Mem && Waiting(wal) == Touch(old(Waiting(wal)), key, shared, mem.View()[key])
    ensures !result ==> Waiting(wal) == old(Waiting(wal))
  {
    result := ExpireSeen(mem, wal, key, seconds, now, later);
    if result {
      ghost var obj := mem.Mem[key];
      ObjectChangeTouches(wal.ch, old(Waiting(wal)), Waiting(wal), key, obj, obj.Contents());
    } else {
      assert Waiting(wal) == old(Waiting(wal));
    }
  }

  /** Looks the key up again and logs the very object found. */
  method LogLive(mem: Memory, wal: WalShard, key: string, now: Time)
    requires Serving(mem, wal)
    modifies mem, wal`ch
    ensures Serving(mem, wal) && fresh(mem.Mem.Values - old(mem.Mem.Values))
    ensures var (m, found) := GetStep(old(mem.View()), key, now);
            && mem.View() == m
            && Waiting(wal) == old(Waiting(wal)) + if found.Some? then [Put(key, found.value)] else []
  {
    var obj := mem.Get(key, now);
    assert Waiting(wal) == old(Waiting(wal));
    if obj != null {
      LogPut(wal, key, obj);
    }
  }

  /**
   * TTL.EXPIRE: sets the deadline in the live object, looks the key up again and logs the very object found. The
   * clock is read for the expiry test, for the new deadline, and for the second lookup.
   */
  method ExpireKey(mem: Memory, wal: WalShard, key: string, seconds: int64, now: Time, later: Time, again: Time)
    returns (result: bool)
    requires Serving(mem, wal)
    modifies mem, wal`ch, mem.Mem.Values
    ensures Serving(mem, wal) && fresh(mem.Mem.Values - old(mem.Mem.Values))
    ensures Seen(mem, wal) == DeadlineEffect(old(mem.View()), old(Waiting(wal)), key, seconds, now, later, again,
                                             old(Holding(wal.ch, Live(mem, key))))
    ensures result == ExpireStep(old(mem.View()), key, seconds, now, later).1
  {
    ghost var shared := Holding(wal.ch, Live(mem, key));
    result := ExpireInPlace(mem, wal, key, seconds, now, later, shared);
    if result {
      LogLive(mem, wal, key, again);
    }
  }

  // ---------- MAP.DEL of a field ----------

  /** What MAP.DEL finds in the stored bytes: no object, a single field, or the object without the field. */
  datatype WithoutField = NotAnObject | SingleField | Rest(value: bytes)

  /** Which step MAP.DEL amounts to: a one-field map is deleted whatever the field. */
  function MapDelCommand(found: Option<Item>, key: string, without: bytes -> WithoutField): Command
  {
    if found.None? || found.value.kind != MAP_KIND then Look(key)
    else
      match without(found.value.value)
      case NotAnObject => Look(key)
      case SingleField => DelAlways(key)
      case Rest(v) => MapField(key, v)
  }

  function MapDelEffect(m: Mem, q: seq<Entry>, key: string, without: bytes -> WithoutField, now: Time,
                        shared: set<nat>): Effect
  {
    var (m1, found) := GetStep(m, key, now);
    if found.None? || found.value.kind != MAP_KIND then Effect(m1, q)
    else
      var o := found.value;
      match without(o.value)
      case NotAnObject => Effect(m1, q)
      case SingleField => Effect(m1 - {key}, q + [Entry(Erase, key, None)])
      case Rest(v) =>
        Effect(m1[key := o.(value := v)], Touch(q, key, shared, o.(value := v)) + [Put(key, o.(value := v))])
  }

  /** MAP.DEL is a step of the state machine. */
  lemma MapDelIsAStep(m: Mem, q: seq<Entry>, key: string, without: bytes -> WithoutField, now: Time, shared: set<nat>)
    ensures MapDelEffect(m, q, key, without, now, shared)
         == Execute(m, q, MapDelCommand(GetStep(m, key, now).1, key, without), now, shared)
  {
  }

  /** The object is changed where it lies, and so in every waiting entry that holds it. */
  method ReplaceSeen(mem: Memory, wal: WalShard, key: string, obj: Object, value: bytes)
    requires Serving(mem, wal) && key in mem.Mem && mem.Mem[key] == obj
    modifies obj
    ensures Serving(mem, wal) && obj.Contents() == old(obj.Contents()).(value := value)
    ensures mem.View() == old(mem.View())[key := obj.Contents()]
    ensures forall i :: 0 <= i < |wal.ch| ==>
              Deref(wal.ch[i]) == if wal.ch[i].obj == obj then old(Deref(wal.ch[i])).(obj := Some(obj.Contents()))
                                  else old(Deref(wal.ch[i]))
  {
    obj.value := value;
    assert mem.View() == old(mem.View())[key := obj.Contents()];
  }

  method ReplaceTouched(mem: Memory, wal: WalShard, key: string, obj: Object, value: bytes, ghost shared: set<nat>)
    requires Serving(mem, wal) && key in mem.Mem && mem.Mem[key] == obj && shared == Holding(wal.ch, obj)
    modifies obj
    ensures Serving(mem, wal) && obj.Contents() == old(obj.Contents()).(value := value)
    ensures mem.View() == old(mem.View())[key := obj.Contents()]
    ensures Waiting(wal) == Touch(old(Waiting(wal)), key, shared, obj.Contents())
  {
    ReplaceSeen(mem, wal, key, obj, value);
    ObjectChangeTouches(wal.ch, old(Waiting(wal)), Waiting(wal), key, obj, obj.Contents());
  }

  /** The object is changed where it lies, and logged. */
  method ReplaceValue(mem: Memory, wal: WalShard, key: string, obj: Object, value: bytes, ghost shared: set<nat>)
    requires Serving(mem, wal) && key in mem.Mem && mem.Mem[key] == obj && shared == Holding(wal.ch, obj)
    modifies obj, wal`ch
    ensures Serving(mem, wal) && fresh(mem.Mem.Values - old(mem.Mem.Values))
    ensures var o1 := old(obj.Contents()).(value := value);
            && mem.View() == old(mem.View())[key := o1]
            && Waiting(wal) == Touch(old(Waiting(wal)), key, shared, o1) + [Put(key, o1)]
  {
    ReplaceTouched(mem, wal, key, obj, value, shared);
    ghost var view := mem.View();
    LogPut(wal, key, obj);
    assert mem.View() == view;
  }

  method MapDeleteField(mem: Memory, wal: WalShard, key: string, without: bytes -> WithoutField, now: Time)
    requires Serving(mem, wal)
    modifies mem, wal`ch, mem.Mem.Values
    ensures Serving(mem, wal) && fresh(mem.Mem.Values - old(mem.Mem.Values))
    ensures Seen(mem, wal) == MapDelEffect(old(mem.View()), old(Waiting(wal)), key, without, now,
                                           old(Holding(wal.ch, Live(mem, key))))
  {
    ghost var shared := Holding(wal.ch, Live(mem, key));
    var obj := mem.Get(key, now);
    assert Waiting(wal) == old(Waiting(wal));
    if obj == null {
      return;
    }
    var M := without(obj.value);
    if M.NotAnObject? || obj.kind != MAP_KIND {
      return;
    }
    if M.SingleField? {
      RemoveKey(mem, wal, key, now);
    } else {
      ReplaceValue(mem, wal, key, obj, M.value, shared);
    }
  }

  // ---------- LIST.GPOP ----------

  /** What LIST.GPOP finds in the stored bytes: no list, an empty one, or the list without its last element. */
  datatype WithoutLast = NotAList | EmptyList | Shorter(value: bytes)

  function GPopCommand(found: Option<Item>, key: string, without: bytes -> WithoutLast): Command
  {
    if found.None? || found.value.kind != LIST_KIND then Look(key)
    else
      match without(found.value.value)
      case Shorter(v) => ListGPop(key, v)
      case _ => Look(key)
  }

  function ListGPopEffect(m: Mem, q: seq<Entry>, key: string, without: bytes -> WithoutLast, now: Time,
                          shared: set<nat>): Effect
  {
    var (m1, found) := GetStep(m, key, now);
    if found.None? || found.value.kind != LIST_KIND || !without(found.value.value).Shorter? then Effect(m1, q)
    else
      var v := without(found.value.value).value;
      var o1 := found.value.(value := v);
      Effect(SetStep(m1, key, v, LIST_KIND), Touch(q, key, shared, o1) + [Put(key, o1)])
  }

  /** LIST.GPOP is a step of the state machine. */
  lemma ListGPopIsAStep(m: Mem, q: seq<Entry>, key: string, without: bytes -> WithoutLast, now: Time, shared: set<nat>)
    ensures ListGPopEffect(m, q, key, without, now, shared)
         == Execute(m, q, GPopCommand(GetStep(m, key, now).1, key, without), now, shared)
  {
  }

  /** An object that is no longer in memory is changed and logged. */
  method SetValueAndLog(mem: Memory, wal: WalShard, key: string, obj: Object, value: bytes, ghost shared: set<nat>)
    requires Serving(mem, wal) && obj !in mem.Mem.Values && obj.owner == key && shared == Holding(wal.ch, obj)
    modifies obj, wal`ch
    ensures Serving(mem, wal) && mem.View() == old(mem.View())
    ensures var o1 := old(obj.Contents()).(value := value);
            Waiting(wal) == Touch(old(Waiting(wal)), key, shared, o1) + [Put(key, o1)]
  {
    obj.value := value;
    assert mem.View() == old(mem.View());
    ObjectChangeTouches(wal.ch, old(Waiting(wal)), Waiting(wal), key, obj, obj.Contents());
    LogPut(wal, key, obj);
  }

  /** Memory gets a fresh object; the old one, no longer in memory, is changed and logged. */
  method SupersedeAndLogOld(mem: Memory, wal: WalShard, key: string, obj: Object, value: bytes, ghost shared: set<nat>)
    requires Serving(mem, wal) && key in mem.Mem && mem.Mem[key] == obj && shared == Holding(wal.ch, obj)
    modifies mem, obj, wal`ch
    ensures Serving(mem, wal) && fresh(mem.Mem.Values - old(mem.Mem.Values))
    ensures var o1 := old(obj.Contents()).(value := value);
            && mem.View() == SetStep(old(mem.View()), key, value, LIST_KIND)
            && Waiting(wal) == Touch(old(Waiting(wal)), key, shared, o1) + [Put(key, o1)]
  {
    mem.Set(key, value, LIST_KIND);
    SetValueAndLog(mem, wal, key, obj, value, shared);
  }

  /** LIST.GPOP: stores the shorter list in a fresh object, then changes the old object and logs that. */
  method ListGetPop(mem: Memory, wal: WalShard, key: string, without: bytes -> WithoutLast, now: Time)
    requires Serving(mem, wal)
    modifies mem, wal`ch, mem.Mem.Values
    ensures Serving(mem, wal) && fresh(mem.Mem.Values - old(mem.Mem.Values))
    ensures Seen(mem, wal) == ListGPopEffect(old(mem.View()), old(Waiting(wal)), key, without, now,
                                             old(Holding(wal.ch, Live(mem, key))))
  {
    ghost var shared := Holding(wal.ch, Live(mem, key));
    var obj := mem.Get(key, now);
    assert Waiting(wal) == old(Waiting(wal));
    if obj == null {
      return;
    }
    var arr := without(obj.value);
    if arr.NotAList? || obj.kind != LIST_KIND || arr.EmptyList? {
      return;
    }
    SupersedeAndLogOld(mem, wal, key, obj, arr.value, shared);
  }
}
