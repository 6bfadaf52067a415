/** Replaying log records into memory: what recovery computes, key by key. */
module Replay {
  import opened Base
  import opened Store
  import opened LogFormat

  /** Wall-clock seconds. */
  type Time = t: int | 0 <= t < TWO63

  /** The two clock readings made for one record: deadline to lifetime, and lifetime back to deadline. */
  datatype Reading = Reading(first: Time, second: Time)

  /** The readings made for the records of a file, by position: the clock goes on while a file is read. */
  type Clock = nat -> Reading

  /** A deadline that is already over becomes a non-positive lifetime, which the store takes for "no deadline". */
  function ReplayStep(m: Mem, e: Entry, r: Reading): Mem
  {
    match e.op
    case Erase => DeleteStep(m, e.key).0
    case Unknown(_) => m
    case Update =>
      match e.obj
      case None => m
      case Some(o) =>
        if o.timestamp > 0 then SetWithTTLStep(m, e.key, o.value, o.kind, WrapSub(o.timestamp, r.first), r.second)
        else SetStep(m, e.key, o.value, o.kind)
  }

  function ReplayAll(m: Mem, es: seq<Entry>, clock: Clock): Mem
    decreases |es|
  {
    if es == [] then m
    else ReplayStep(ReplayAll(m, es[..|es| - 1], clock), es[|es| - 1], clock(|es| - 1))
  }

  /** The deadline that a recorded one is turned into. */
  function NewDeadline(d: int64, r: Reading): int64
  {
    if d > r.first then WrapAdd(r.second, d - r.first) else 0
  }

  /**
   * A deadline ahead of the clock comes back later by exactly the time between the readings, never earlier. One
   * that has come by the first reading is dropped, and its key becomes permanent.
   */
  lemma ReplayedDeadline(m: Mem, e: Entry, o: Item, r: Reading)
    requires e.op == Update && e.obj == Some(o)
    ensures At(ReplayStep(m, e, r), e.key) == Some(o.(timestamp := NewDeadline(o.timestamp, r)))
    ensures r.first < o.timestamp && o.timestamp + (r.second - r.first) < TWO63 ==>
              NewDeadline(o.timestamp, r) == o.timestamp + (r.second - r.first)
    ensures o.timestamp <= r.first ==> NewDeadline(o.timestamp, r) == 0
  {
  }

  /** A recorded deadline is kept as it is if and only if it is none, or is ahead and both readings are the same. */
  lemma DeadlineIsKeptIff(d: int64, r: Reading)
    requires d >= 0
    ensures NewDeadline(d, r) == d <==> d == 0 || (r.first < d && r.first == r.second)
  {
  }

  // ---------- Key by key ----------

  function At<V>(m: map<string, V>, k: string): Option<V>
  {
    if k in m then Some(m[k]) else None
  }

  /** The last record about a key. */
  function Last(es: seq<Entry>, k: string): Option<Entry>
    decreases |es|
  {
    if es == [] then None
    else if es[|es| - 1].key == k then Some(es[|es| - 1])
    else Last(es[..|es| - 1], k)
  }

  lemma LastOfOneMore(es: seq<Entry>, e: Entry, k: string)
    ensures Last(es + [e], k) == if e.key == k then Some(e) else Last(es, k)
  {
    assert (es + [e])[..|es|] == es;
  }

  lemma {:induction false} LastIsMember(es: seq<Entry>, k: string)
    ensures match Last(es, k) case None => true case Some(e) => e in es && e.key == k
    decreases |es|
  {
    if es != [] { LastIsMember(es[..|es| - 1], k); }
  }

  /** The records the server writes: an update always carries an object. */
  predicate Proper(e: Entry)
  {
    (e.op == Update && e.obj.Some?) || (e.op == Erase && e.obj.None?)
  }

  ghost predicate AllProper(es: seq<Entry>)
  {
    forall e :: e in es ==> Proper(e)
  }

  /** The position of the last record about a key. */
  function LastIndex(es: seq<Entry>, k: string): (r: Option<nat>)
    ensures match r
            case None => Last(es, k).None?
            case Some(i) => i < |es| && Last(es, k) == Some(es[i])
    decreases |es|
  {
    if es == [] then None
    else if es[|es| - 1].key == k then Some(|es| - 1)
    else LastIndex(es[..|es| - 1], k)
  }

  /** The clock readings made for the last record about a key. */
  function ReadingOf(es: seq<Entry>, k: string, clock: Clock): Reading
  {
    clock(LastIndex(es, k).GetOr(0))
  }

  /** Recovery leaves under each key what its last record says, and forgets all earlier ones. */
  lemma {:induction false} ReplayByLast(es: seq<Entry>, clock: Clock, k: string)
    requires AllProper(es)
    ensures At(ReplayAll(map[], es, clock), k) ==
            match Last(es, k)
            case None => None
            case Some(e) =>
              match e.obj
              case None => None
              case Some(o) => Some(o.(timestamp := NewDeadline(o.timestamp, ReadingOf(es, k, clock))))
    decreases |es|
  {
    if es != [] {
      var init, e := es[..|es| - 1], es[|es| - 1];
      assert e in es && forall x :: x in init ==> x in es;
      LastIsMember(init, k);
      ReplayByLast(init, clock, k);
    }
  }

  /** Replaying the record needs the memory of a shard: all but an update without an object, and unknown operations. */
  predicate NeedsShard(e: Entry)
  {
    e.op == Erase || (e.op == Update && e.obj.Some?)
  }

  /** The last record that says something about a key. */
  function LastWord(es: seq<Entry>, k: string): (r: Option<nat>)
    ensures r.Some? ==> r.value < |es|
    decreases |es|
  {
    if es == [] then None
    else if es[|es| - 1].key == k && NeedsShard(es[|es| - 1]) then Some(|es| - 1)
    else LastWord(es[..|es| - 1], k)
  }

  /**
   * The same for records of any kind, on top of any memory: an update without an object and an operation that is not
   * known are passed over; an erasure that carries an object erases all the same.
   */
  lemma {:induction false} ReplayByLastWord(m: Mem, es: seq<Entry>, clock: Clock, k: string)
    ensures At(ReplayAll(m, es, clock), k) ==
            match LastWord(es, k)
            case None => At(m, k)
            case Some(i) =>
              if es[i].op == Erase then None
              else var o := es[i].obj.GetOr(Item(0, [], 0)); Some(o.(timestamp := NewDeadline(o.timestamp, clock(i))))
    decreases |es|
  {
    if es != [] {
      ReplayByLastWord(m, es[..|es| - 1], clock, k);
    }
  }

  // ---------- What the encoding refuses ----------

  /** The records that reach the file: those whose key is valid UTF-8. */
  function Logged(c: Codec, es: seq<Entry>): seq<Entry>
    decreases |es|
  {
    if es == [] then []
    else
      var init, e := Logged(c, es[..|es| - 1]), es[|es| - 1];
      if c.utf8(e.key) then init + [e] else init
  }

  lemma LoggedOneMore(c: Codec, es: seq<Entry>, e: Entry)
    ensures Logged(c, es + [e]) == if c.utf8(e.key) then Logged(c, es) + [e] else Logged(c, es)
  {
    assert (es + [e])[..|es|] == es;
  }

  lemma {:induction false} LoggedIsLoggable(c: Codec, es: seq<Entry>)
    ensures forall e :: e in Logged(c, es) ==> e in es && c.utf8(e.key)
    ensures AllFit(c, es) ==> Loggable(c, Logged(c, es))
    decreases |es|
  {
    if es != [] {
      LoggedIsLoggable(c, es[..|es| - 1]);
    }
  }

  lemma {:induction false} LoggedKeepsLast(c: Codec, es: seq<Entry>, k: string)
    requires c.utf8(k)
    ensures Last(Logged(c, es), k) == Last(es, k)
    decreases |es|
  {
    if es != [] {
      var init, e := es[..|es| - 1], es[|es| - 1];
      LoggedKeepsLast(c, init, k);
      if c.utf8(e.key) { LastOfOneMore(Logged(c, init), e, k); }
    }
  }

  lemma {:induction false} RefusedKeysAreNotLogged(c: Codec, es: seq<Entry>, k: string)
    requires !c.utf8(k)
    ensures Last(Logged(c, es), k).None?
    decreases |es|
  {
    if es != [] {
      var init, e := es[..|es| - 1], es[|es| - 1];
      RefusedKeysAreNotLogged(c, init, k);
      if c.utf8(e.key) { LastOfOneMore(Logged(c, init), e, k); }
    }
  }

  lemma {:induction false} FramesOfLogged(c: Codec, es: seq<Entry>)
    requires Faithful(c)
    ensures Frames(c, Logged(c, es)) == Frames(c, es)
    decreases |es|
  {
    if es != [] {
      var init, e := es[..|es| - 1], es[|es| - 1];
      assert es == init + [e];
      FramesOfLogged(c, init);
      FramesOneMore(c, init, e);
      if c.utf8(e.key) {
        FramesOneMore(c, Logged(c, init), e);
      } else {
        assert c.marshal(e).None?;
        assert Frames(c, init) + [] == Frames(c, init);
      }
    }
  }

  lemma {:induction false} LoggedAppend(c: Codec, a: seq<Entry>, b: seq<Entry>)
    ensures Logged(c, a + b) == Logged(c, a) + Logged(c, b)
    decreases |b|
  {
    if b == [] {
      assert a + b == a;
      assert Logged(c, a) + [] == Logged(c, a);
    } else {
      var init, e := b[..|b| - 1], b[|b| - 1];
      assert a + b == (a + init) + [e];
      LoggedOneMore(c, a + init, e);
      LoggedAppend(c, a, init);
    }
  }

  /** A file written from any entries reads back as the logged ones. */
  lemma ParseLogged(c: Codec, es: seq<Entry>)
    requires Faithful(c) && AllFit(c, es)
    ensures Parse(c, Frames(c, es)) == Parsed(Logged(c, es), Clean)
  {
    FramesOfLogged(c, es);
    LoggedIsLoggable(c, es);
    ParseOfFrames(c, Logged(c, es));
  }

  lemma FramesAreNotEmpty(c: Codec, es: seq<Entry>)
    requires Faithful(c) && forall e :: e in es ==> c.utf8(e.key)
    ensures Frames(c, es) == [] ==> es == []
  {
    if es != [] {
      assert es[0] in es;
      assert c.marshal(es[0]).Some?;
      assert |Frame(c, es[0])| >= 8;
    }
  }

  lemma EmptyFramesLogNothing(c: Codec, es: seq<Entry>)
    requires Faithful(c) && Frames(c, es) == []
    ensures Logged(c, es) == []
  {
    FramesOfLogged(c, es);
    LoggedIsLoggable(c, es);
    FramesAreNotEmpty(c, Logged(c, es));
  }
}
