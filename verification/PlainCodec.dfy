/**
 * A simple record encoding that meets what the log assumes of its encoding, so that the assumption is known to
 * be one that some encoding meets: fixed-width fields, then the key with an end mark, then the value.
 */
module PlainCodec {
  import opened Base
  import opened Store
  import opened LogFormat
  import opened Wal
  import opened Replay
  import opened Durability

  // ---------- Texts with an end mark ----------

  function EncodeText(s: string): bytes
  {
    if s == "" then [0] else [1] + BigEndian(s[0] as nat, 3) + EncodeText(s[1..])
  }

  /** The text and what follows it. */
  function DecodeText(d: bytes): Option<(string, bytes)>
    decreases |d|
  {
    if d == [] then None
    else if d[0] == 0 then Some(("", d[1..]))
    else if |d| < 4 then None
    else
      match DecodeText(d[4..])
      case None => None
      case Some((rest, more)) => Some(([CharOf(FromBigEndian(d[1..4]))] + rest, more))
  }

  function CharOf(n: nat): char
  {
    if n < 0xD800 || 0xE000 <= n < 0x11_0000 then n as char else '?'
  }

  lemma CharOfCode(c: char)
    ensures FromBigEndian(BigEndian(c as nat, 3)) == c as nat && CharOf(c as nat) == c
  {
    assert Bound(3) == 0x100 * Bound(2) == 0x1_0000 * Bound(1) == 0x100_0000;
    BigEndianRoundTrip(c as nat, 3);
  }

  lemma {:induction false} TextRoundTrip(s: string, more: bytes)
    ensures DecodeText(EncodeText(s) + more) == Some((s, more))
  {
    var d := EncodeText(s) + more;
    if s == "" {
      assert d[1..] == more;
    } else {
      TextRoundTrip(s[1..], more);
      CharOfCode(s[0]);
      assert d == [1] + BigEndian(s[0] as nat, 3) + (EncodeText(s[1..]) + more);
      assert d[1..4] == BigEndian(s[0] as nat, 3) && d[4..] == EncodeText(s[1..]) + more;
      assert s == [s[0]] + s[1..];
    }
  }

  // ---------- Records ----------

  const TWO31: nat := 0x8000_0000

  function Head(tag: byte, flag: byte, code: uint32, kind: uint32, time: nat): (r: bytes)
    ensures |r| == 18
  {
    [tag, flag] + BigEndian(code, 4) + BigEndian(kind, 4) + BigEndian(time, 8)
  }

  function Tag(op: LogOp): byte
  {
    match op case Update => 0 case Erase => 1 case Unknown(_) => 2
  }

  function Code(op: LogOp): uint32
  {
    if op.Unknown? then op.code + TWO31 else 0
  }

  function Encode(e: Entry): bytes
  {
    match e.obj
    case None => Head(Tag(e.op), 0, Code(e.op), 0, 0) + (EncodeText(e.key) + [])
    case Some(o) => Head(Tag(e.op), 1, Code(e.op), o.kind, o.timestamp + TWO63) + (EncodeText(e.key) + o.value)
  }

  function ToOp(tag: byte, code: nat): LogOp
  {
    if tag == 0 then Update else if tag == 1 then Erase
    else Unknown(if code < TWO32 then code - TWO31 else 0)
  }

  function ToItem(kind: nat, time: nat, value: bytes): Item
  {
    Item(if kind < TWO32 then kind else 0, value, if time < TWO64 then time - TWO63 else 0)
  }

  function Decode(d: bytes): Option<Entry>
  {
    if |d| < 18 then None
    else
      match DecodeText(d[18..])
      case None => None
      case Some((key, value)) =>
        Some(Entry(ToOp(d[0], FromBigEndian(d[2..6])), key,
                   if d[1] == 0 then None
                   else Some(ToItem(FromBigEndian(d[6..10]), FromBigEndian(d[10..18]), value))))
  }

  lemma HeadRoundTrip(tag: byte, flag: byte, code: uint32, kind: uint32, time: nat, more: bytes)
    requires time < TWO64
    ensures var d := Head(tag, flag, code, kind, time) + more;
            && d[0] == tag && d[1] == flag && FromBigEndian(d[2..6]) == code && FromBigEndian(d[6..10]) == kind
            && FromBigEndian(d[10..18]) == time && d[18..] == more
  {
    var d := Head(tag, flag, code, kind, time) + more;
    assert d[2..6] == BE32(code) && d[6..10] == BE32(kind) && d[10..18] == BigEndian(time, 8);
    BE32RoundTrip(code);
    BE32RoundTrip(kind);
    assert Bound(8) == 0x1_0000 * Bound(6) == 0x1_0000_0000 * Bound(4);
    assert Bound(4) == 0x1_0000 * Bound(2) == 0x1_0000_0000;
    BigEndianRoundTrip(time, 8);
  }

  lemma DecodeWhole(tag: byte, flag: byte, code: uint32, kind: uint32, time: nat, key: string, value: bytes)
    requires time < TWO64
    ensures Decode(Head(tag, flag, code, kind, time) + (EncodeText(key) + value)) ==
            Some(Entry(ToOp(tag, code), key, if flag == 0 then None else Some(ToItem(kind, time, value))))
  {
    HeadRoundTrip(tag, flag, code, kind, time, EncodeText(key) + value);
    TextRoundTrip(key, value);
  }

  lemma FieldsRoundTrip(op: LogOp, o: Item)
    ensures ToOp(Tag(op), Code(op)) == op && ToItem(o.kind, o.timestamp + TWO63, o.value) == o
  {
  }

  lemma RoundTrip(e: Entry)
    ensures Decode(Encode(e)) == Some(e)
  {
    match e.obj {
      case None =>
        FieldsRoundTrip(e.op, Item(0, [], 0));
        DecodeWhole(Tag(e.op), 0, Code(e.op), 0, 0, e.key, []);
      case Some(o) =>
        FieldsRoundTrip(e.op, o);
        DecodeWhole(Tag(e.op), 1, Code(e.op), o.kind, o.timestamp + TWO63, e.key, o.value);
    }
  }

  /** The encoding with any checksum and any notion of valid keys. */
  function Plain(utf8: string -> bool, crc: bytes -> uint32): Codec
  {
    Codec((e: Entry) => if utf8(e.key) then Some(Encode(e)) else None, Decode, crc, utf8)
  }

  /** What the log assumes of its encoding can be met, for every notion of valid keys and every checksum. */
  lemma PlainIsFaithful(utf8: string -> bool, crc: bytes -> uint32)
    ensures Faithful(Plain(utf8, crc))
  {
    forall e: Entry ensures Decode(Encode(e)) == Some(e) { RoundTrip(e); }
  }

  lemma {:induction false} TextLength(s: string)
    ensures |EncodeText(s)| == 4 * |s| + 1
  {
    if s != "" { TextLength(s[1..]); }
  }

  /** Every record with a key and a value of ordinary size fits. */
  lemma PlainFits(utf8: string -> bool, crc: bytes -> uint32, e: Entry)
    requires 4 * |e.key| + (if e.obj.Some? then |e.obj.value.value| else 0) < TWO32 - 23
    ensures Fits(Plain(utf8, crc), e)
  {
    TextLength(e.key);
  }

  lemma OneWriteIsGentle(run: seq<Action>, ss: seq<Shard>, a: Action)
    requires a.Do? && a.cmd.Write? && run == [a] + Pump(1) && |ss| == |run| + 1
    ensures OneLife(run) && Gentle(run, ss)
  {
    assert Pump(1) == [FrameOne, FlushAll(true)];
  }

  /** A run that sets one key and flushes. */
  lemma OneWriteRuns(c: Codec, o: Options, k: string, v: bytes, t: Time) returns (run: seq<Action>, ss: seq<Shard>)
    requires o.syncEveryN > 0 && Fits(c, Put(k, Item(0, v, 0)))
    ensures Behaviour(c, o, run, ss) && ss[0] == FRESH && Drained(ss[|run|]) && OneLife(run) && Gentle(run, ss)
    ensures ss[|run|].mem == map[k := Item(0, v, 0)] && Records(ss[|run|]) == [Put(k, Item(0, v, 0))]
  {
    var a, e := Do(Write(k, v, 0), t, {}), Put(k, Item(0, v, 0));
    var s1 := Next(c, o, FRESH, a);
    assert s1.pipe.queue == [e] && Records(s1) == [e];
    var rest := FlushOut(c, o, s1);
    run, ss := [a] + Pump(1), [FRESH] + rest;
    assert run[1..] == Pump(1);
    BehaviourCons(c, o, FRESH, run, rest);
    OneWriteIsGentle(run, ss, a);
  }

  /**
   * With this encoding the assumptions of the durability theorems are met by real runs: a key is set, the log is
   * flushed, and recovery finds the key.
   */
  lemma PlainRunRecovers(utf8: string -> bool, crc: bytes -> uint32, o: Options, k: string, v: bytes, t: Time,
                         clock: Clock)
    returns (run: seq<Action>, ss: seq<Shard>)
    requires o.syncEveryN > 0 && utf8(k) && 4 * |k| + |v| < TWO32 - 23
    ensures var c := Plain(utf8, crc);
            && Faithful(c) && Behaviour(c, o, run, ss) && ss[0] == FRESH && Drained(ss[|run|])
            && OneLife(run) && Gentle(run, ss)
            && At(Recover(c, ss[|run|].pipe.file, clock), k) == Some(Item(0, v, 0))
  {
    var c, e := Plain(utf8, crc), Put(k, Item(0, v, 0));
    PlainIsFaithful(utf8, crc);
    PlainFits(utf8, crc, e);
    run, ss := OneWriteRuns(c, o, k, v, t);
    LastOfOneMore([], e, k);
    assert [] + [e] == [e];
    RunIsDurable(c, o, run, ss, k, clock);
  }
}
