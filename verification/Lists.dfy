/** LIST.PUSH and LIST.POP: a stored list used as a stack. The JSON text of a list is a parameter. */
module Lists {
  import opened Base
  import opened Store
  import opened Wal
  import opened Replay
  import opened Durability
  import opened Commands
  import Json
  import PlainCodec

  /** JSON text of lists; a text may fail to parse as a list. */
  datatype ListCodec = ListCodec(encode: seq<Json.Json> -> bytes, decode: bytes -> Option<seq<Json.Json>>)

  /** What is stored of this list parses back to it. (Numbers, for instance, do so as far as they are 64-bit floats.) */
  predicate RoundTrips(lc: ListCodec, xs: seq<Json.Json>)
  {
    lc.decode(lc.encode(xs)) == Some(xs)
  }

  /** So do all lists on the way from `base` to `base + vals`. */
  ghost predicate RoundTripsFrom(lc: ListCodec, base: seq<Json.Json>, vals: seq<Json.Json>)
  {
    forall n :: 0 <= n <= |vals| ==> RoundTrips(lc, base + vals[..n])
  }

  datatype Reply = Failed | Empty | NewLength(n: nat) | Element(j: Json.Json)

  /** New memory, the answer, and the step of the state machine it amounts to. */
  datatype Done = Done(mem: Mem, reply: Reply, cmd: Command)

  /** The elements pushed go behind the stored list; a stored value of any kind that parses as a list will do. */
  function PushStep(lc: ListCodec, m: Mem, key: string, vals: seq<Json.Json>, now: Time): Done
  {
    var (m1, found) := GetStep(m, key, now);
    var arr := if found.None? then Some([]) else lc.decode(found.value.value);
    if arr.None? then Done(m1, Failed, Look(key))
    else
      var text := lc.encode(arr.value + vals);
      Done(SetStep(m1, key, text, LIST_KIND), NewLength(|arr.value + vals|), Write(key, text, LIST_KIND))
  }

  /** The last element goes; with it the key if it was the only one. A null at the end is not popped. */
  function PopStep(lc: ListCodec, m: Mem, key: string, now: Time): Done
  {
    var (m1, found) := GetStep(m, key, now);
    if found.None? then Done(m1, Empty, Look(key))
    else
      match lc.decode(found.value.value)
      case None => Done(m1, Failed, Look(key))
      case Some(arr) =>
        if found.value.kind != LIST_KIND then Done(m1, Failed, Look(key))
        else if |arr| == 0 then Done(m1, Empty, Look(key))
        else if |arr| == 1 then Done(m1 - {key}, Element(arr[0]), DelAlways(key))
        else if arr[|arr| - 1] == Json.Null then Done(m1, Empty, Look(key))
        else
          var text := lc.encode(arr[..|arr| - 1]);
          Done(SetStep(m1, key, text, LIST_KIND), Element(arr[|arr| - 1]), Write(key, text, LIST_KIND))
  }

  // ---------- The commands ----------

  method ListPush(mem: Memory, wal: WalShard, lc: ListCodec, key: string, args: seq<Json.Json>, now: Time)
    returns (reply: Reply)
    requires Serving(mem, wal)
    modifies mem, wal`ch
    ensures Serving(mem, wal)
    ensures var d := PushStep(lc, old(mem.View()), key, args, now);
            reply == d.reply && mem.View() == d.mem
    ensures var d := PushStep(lc, old(mem.View()), key, args, now);
            Waiting(wal) == old(Waiting(wal)) + if d.cmd.Write? then [Put(key, d.mem[key])] else []
  {
    var obj := mem.Get(key, now);
    assert Waiting(wal) == old(Waiting(wal));
    var arr: seq<Json.Json> := [];
    if obj != null {
      var parsed := lc.decode(obj.value);
      if parsed.None? {
        return Failed;
      }
      arr := parsed.value;
    }
    ghost var stored := arr;
    for i := 0 to |args|
      invariant arr == stored + args[..i]
    {
      arr := arr + [args[i]];
      assert args[..i] + [args[i]] == args[..i + 1];
    }
    assert args[..|args|] == args;
    StoreAndLog(mem, wal, key, lc.encode(arr), LIST_KIND, now);
    reply := NewLength(|arr|);
  }

  method ListPop(mem: Memory, wal: WalShard, lc: ListCodec, key: string, now: Time) returns (reply: Reply)
    requires Serving(mem, wal)
    modifies mem, wal`ch
    ensures Serving(mem, wal)
    ensures var d := PopStep(lc, old(mem.View()), key, now);
            reply == d.reply && mem.View() == d.mem
    ensures var d := PopStep(lc, old(mem.View()), key, now);
            Waiting(wal) == old(Waiting(wal)) + match d.cmd {
              case Write(_, v, kind) => [Put(key, Item(kind, v, 0))]
              case DelAlways(_) => [LogFormat.Entry(LogFormat.Erase, key, None)]
              case _ => []
            }
  {
    var obj := mem.Get(key, now);
    assert Waiting(wal) == old(Waiting(wal));
    if obj == null {
      return Empty;
    }
    var parsed := lc.decode(obj.value);
    if parsed.None? || obj.kind != LIST_KIND {
      return Failed;
    }
    var arr := parsed.value;
    var length := |arr|;
    if length == 0 {
      return Empty;
    }
    if length == 1 {
      RemoveKey(mem, wal, key, now);
      return Element(arr[0]);
    }
    var last := arr[length - 1];
    arr := arr[..length - 1];
    if last == Json.Null {
      return Empty;
    }
    StoreAndLog(mem, wal, key, lc.encode(arr), LIST_KIND, now);
    reply := Element(last);
  }

  /**
   * Both commands are steps of the state machine. A push fails only on a value that is no list, a pop also on a value
   * of another kind that happens to parse as one; a command that fails leaves memory to every reader as it was.
   */
  lemma ListStepsAndErrors(lc: ListCodec, m: Mem, q: seq<LogFormat.Entry>, key: string, vals: seq<Json.Json>, now: Time)
    ensures var d := PushStep(lc, m, key, vals, now);
            && Execute(m, q, d.cmd, now, {}).mem == d.mem
            && (d.reply == Failed <==> GetStep(m, key, now).1.Some? && lc.decode(m[key].value).None?)
            && (d.reply == Failed ==> d.cmd == Look(key))
    ensures var d := PopStep(lc, m, key, now);
            && Execute(m, q, d.cmd, now, {}).mem == d.mem
            && (d.reply == Failed <==>
                GetStep(m, key, now).1.Some? && (m[key].kind != LIST_KIND || lc.decode(m[key].value).None?))
            && (d.reply == Failed || d.reply == Empty ==> d.cmd == Look(key))
  {
  }

  // ---------- The stack law ----------

  datatype Popped = Popped(mem: Mem, replies: seq<Reply>)

  function PopAll(lc: ListCodec, m: Mem, key: string, times: seq<Time>): Popped
    decreases |times|
  {
    if times == [] then Popped(m, [])
    else
      var d := PopStep(lc, m, key, times[0]);
      var rest := PopAll(lc, d.mem, key, times[1..]);
      Popped(rest.mem, [d.reply] + rest.replies)
  }

  function Reversed(vals: seq<Json.Json>): seq<Reply>
  {
    if vals == [] then [] else [Element(vals[|vals| - 1])] + Reversed(vals[..|vals| - 1])
  }

  /** The memory whose list at `key` is `base` (no list at all if that is empty), with no deadline. */
  function WithList(lc: ListCodec, m: Mem, key: string, base: seq<Json.Json>): Mem
  {
    if base == [] then m - {key} else m[key := Item(LIST_KIND, lc.encode(base), 0)]
  }

  lemma PopTakesTop(lc: ListCodec, m: Mem, key: string, all: seq<Json.Json>, now: Time)
    requires RoundTrips(lc, all) && all != [] && all[|all| - 1] != Json.Null
    ensures var d := PopStep(lc, WithList(lc, m, key, all), key, now);
            d.mem == WithList(lc, m, key, all[..|all| - 1]) && d.reply == Element(all[|all| - 1])
  {
    if |all| == 1 {
      assert WithList(lc, m, key, all) - {key} == m - {key};
    } else {
      assert WithList(lc, m, key, all)[key := Item(LIST_KIND, lc.encode(all[..|all| - 1]), 0)]
          == m[key := Item(LIST_KIND, lc.encode(all[..|all| - 1]), 0)];
    }
  }

  lemma {:induction false} PopsUnwind(lc: ListCodec, m: Mem, key: string, base: seq<Json.Json>, vals: seq<Json.Json>,
                                      times: seq<Time>)
    requires RoundTripsFrom(lc, base, vals) && |times| == |vals|
    requires forall v :: v in vals ==> v != Json.Null
    ensures PopAll(lc, WithList(lc, m, key, base + vals), key, times)
         == Popped(WithList(lc, m, key, base), Reversed(vals))
    decreases |vals|
  {
    if vals == [] {
      assert base + vals == base;
    } else {
      var all, init := base + vals, vals[..|vals| - 1];
      assert all[..|all| - 1] == base + init && all[|all| - 1] == vals[|vals| - 1] && vals[|vals| - 1] in vals;
      assert forall v :: v in init ==> v in vals;
      assert vals[..|vals|] == vals && RoundTrips(lc, base + vals[..|vals|]);
      forall n | 0 <= n <= |init| ensures RoundTrips(lc, base + init[..n]) {
        assert init[..n] == vals[..n];
      }
      PopTakesTop(lc, m, key, all, times[0]);
      PopsUnwind(lc, m, key, base, init, times[1..]);
    }
  }

  /** The list stored under a key, as LIST.PUSH sees it. */
  function Stored(lc: ListCodec, m: Mem, key: string, now: Time): Option<seq<Json.Json>>
  {
    var found := GetStep(m, key, now).1;
    if found.None? then Some([]) else lc.decode(found.value.value)
  }

  /** A push stores the old elements and the new ones behind them, in a fresh object without a deadline. */
  lemma PushStores(lc: ListCodec, m: Mem, key: string, vals: seq<Json.Json>, now: Time)
    requires Stored(lc, m, key, now).Some? && vals != []
    ensures var base := Stored(lc, m, key, now).value;
            var d := PushStep(lc, m, key, vals, now);
            d.reply == NewLength(|base| + |vals|) && d.mem == WithList(lc, GetStep(m, key, now).0, key, base + vals)
  {
  }

  /**
   * Stack law: on an absent key or a non-empty list, pushing non-null values and popping as often returns them
   * in reverse and leaves the list as it was, or the key absent. Only a deadline is lost on the way.
   */
  lemma PushThenPops(lc: ListCodec, m: Mem, key: string, vals: seq<Json.Json>, now: Time, times: seq<Time>)
    requires vals != [] && |times| == |vals| && forall v :: v in vals ==> v != Json.Null
    requires Stored(lc, m, key, now).Some? && RoundTripsFrom(lc, Stored(lc, m, key, now).value, vals)
    requires GetStep(m, key, now).1.Some? ==> Stored(lc, m, key, now).value != []
    ensures var base := Stored(lc, m, key, now).value;
            var d := PushStep(lc, m, key, vals, now);
            && d.reply == NewLength(|base| + |vals|)
            && PopAll(lc, d.mem, key, times) == Popped(WithList(lc, m, key, base), Reversed(vals))
  {
    var base, m1 := Stored(lc, m, key, now).value, GetStep(m, key, now).0;
    PushStores(lc, m, key, vals, now);
    PopsUnwind(lc, m1, key, base, vals, times);
    assert WithList(lc, m1, key, base) == WithList(lc, m, key, base);
  }

  /**
   * A stored list without a deadline is stuck - a pop answers nothing and changes nothing - exactly when it ends
   * in a null that is not alone.
   */
  lemma PopIsStuckIff(lc: ListCodec, m: Mem, key: string, arr: seq<Json.Json>, now: Time)
    requires arr != [] && RoundTrips(lc, arr) && RoundTrips(lc, arr[..|arr| - 1])
    ensures var d := PopStep(lc, WithList(lc, m, key, arr), key, now);
            && (d.mem == WithList(lc, m, key, arr) <==> |arr| > 1 && arr[|arr| - 1] == Json.Null)
            && (d.reply == Empty <==> |arr| > 1 && arr[|arr| - 1] == Json.Null)
  {
    var m1 := WithList(lc, m, key, arr);
    if |arr| == 1 {
      assert key in m1;
    }
  }

  // ---------- LIST.GPOP ----------

  /** What LIST.GPOP makes of the stored text. */
  function WithoutTop(lc: ListCodec): bytes -> WithoutLast
  {
    (text: bytes) =>
      match lc.decode(text)
      case None => NotAList
      case Some(arr) => if arr == [] then EmptyList else Shorter(lc.encode(arr[..|arr| - 1]))
  }

  /** LIST.GPOP takes the last element of any list, null or not, and leaves an empty list where it was the only one. */
  lemma GPopTakesTop(lc: ListCodec, m: Mem, q: seq<LogFormat.Entry>, key: string, arr: seq<Json.Json>, now: Time,
                     shared: set<nat>)
    requires arr != [] && RoundTrips(lc, arr)
    ensures ListGPopEffect(WithList(lc, m, key, arr), q, key, WithoutTop(lc), now, shared).mem
         == m[key := Item(LIST_KIND, lc.encode(arr[..|arr| - 1]), 0)]
  {
    var m1 := WithList(lc, m, key, arr);
    assert m1[key := Item(LIST_KIND, lc.encode(arr[..|arr| - 1]), 0)]
        == m[key := Item(LIST_KIND, lc.encode(arr[..|arr| - 1]), 0)];
  }

  /** On a list without a deadline both pops leave the same memory just if it is longer and does not end in a null. */
  lemma PopsAgreeIff(lc: ListCodec, m: Mem, q: seq<LogFormat.Entry>, key: string, arr: seq<Json.Json>, now: Time,
                     shared: set<nat>)
    requires arr != [] && RoundTrips(lc, arr) && RoundTrips(lc, arr[..|arr| - 1])
    ensures PopStep(lc, WithList(lc, m, key, arr), key, now).mem
            == ListGPopEffect(WithList(lc, m, key, arr), q, key, WithoutTop(lc), now, shared).mem
            <==> |arr| > 1 && arr[|arr| - 1] != Json.Null
  {
    var m1 := WithList(lc, m, key, arr);
    GPopTakesTop(lc, m, q, key, arr, now, shared);
    if arr[|arr| - 1] != Json.Null {
      PopTakesTop(lc, m, key, arr, now);
    }
    if |arr| == 1 {
      assert key !in PopStep(lc, m1, key, now).mem;
    } else if arr[|arr| - 1] == Json.Null {
      assert PopStep(lc, m1, key, now).mem == m1;
      assert m1[key].value == lc.encode(arr);
      assert lc.encode(arr) != lc.encode(arr[..|arr| - 1]);
    }
  }

  // ---------- Such list codecs exist ----------

  /** Lists of texts, each with an end mark. */
  function EncodeTexts(xs: seq<Json.Json>): bytes
  {
    if xs == [] then []
    else (if xs[0].Str? then PlainCodec.EncodeText(xs[0].s) else []) + EncodeTexts(xs[1..])
  }

  function DecodeTexts(d: bytes): Option<seq<Json.Json>>
    decreases |d|
  {
    if d == [] then Some([])
    else
      match PlainCodec.DecodeText(d)
      case None => None
      case Some((s, more)) =>
        if |more| >= |d| then None
        else
          match DecodeTexts(more)
          case None => None
          case Some(xs) => Some([Json.Str(s)] + xs)
  }

  /** There is a list codec with which every list of texts round-trips. */
  lemma {:induction false} TextListsRoundTrip(xs: seq<Json.Json>)
    requires forall x :: x in xs ==> x.Str?
    ensures RoundTrips(ListCodec(EncodeTexts, DecodeTexts), xs)
  {
    if xs != [] {
      assert xs[0] in xs && forall x :: x in xs[1..] ==> x in xs;
      TextListsRoundTrip(xs[1..]);
      PlainCodec.TextRoundTrip(xs[0].s, EncodeTexts(xs[1..]));
      PlainCodec.TextLength(xs[0].s);
      assert xs == [Json.Str(xs[0].s)] + xs[1..];
    }
  }
}
