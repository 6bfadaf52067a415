/**
 * The on-disk format of the log: [u32 length][u32 crc][record bytes], length = 4 + record bytes,
 * and the tolerant reader that parses a file back. The record encoding (protobuf) and the checksum
 * (CRC-32C, section 12.1 of RFC 3720) are parameters.
 */
module LogFormat {
  import opened Base
  import opened Store

  datatype LogOp = Update | Erase | Unknown(code: int32)

  datatype Entry = Entry(op: LogOp, key: string, obj: Option<Item>)

  datatype Codec = Codec(
    marshal: Entry -> Option<bytes>,
    unmarshal: bytes -> Option<Entry>,
    crc: bytes -> uint32,
    utf8: string -> bool)

  /** What is assumed of the record encoding: it refuses just the keys that are not valid UTF-8, and it round-trips. */
  ghost predicate Faithful(c: Codec)
  {
    forall e: Entry ::
      match c.marshal(e)
      case None => !c.utf8(e.key)
      case Some(d) => c.utf8(e.key) && c.unmarshal(d) == Some(e)
  }

  /** The record stays below 4 GiB, so that its length field does not wrap. */
  predicate Fits(c: Codec, e: Entry)
  {
    c.marshal(e).Some? ==> 4 + |c.marshal(e).value| < TWO32
  }

  ghost predicate AllFit(c: Codec, es: seq<Entry>)
  {
    forall e :: e in es ==> Fits(c, e)
  }

  /** Records that the encoding accepts and whose length field does not wrap. */
  ghost predicate Loggable(c: Codec, es: seq<Entry>)
  {
    forall e :: e in es ==> c.utf8(e.key) && Fits(c, e)
  }

  // ---------- Encoding ----------

  /** The low `k` bytes of `n`, most significant first. */
  function BigEndian(n: nat, k: nat): (r: bytes)
    ensures |r| == k
  {
    if k == 0 then [] else BigEndian(n / 0x100, k - 1) + [n % 0x100]
  }

  function FromBigEndian(s: bytes): nat
  {
    if s == [] then 0 else 0x100 * FromBigEndian(s[..|s| - 1]) + s[|s| - 1]
  }

  function Bound(k: nat): nat
  {
    if k == 0 then 1 else 0x100 * Bound(k - 1)
  }

  lemma {:induction false} BigEndianRoundTrip(n: nat, k: nat)
    requires n < Bound(k)
    ensures FromBigEndian(BigEndian(n, k)) == n
  {
    if k > 0 {
      BigEndianRoundTrip(n / 0x100, k - 1);
      assert BigEndian(n, k)[..k - 1] == BigEndian(n / 0x100, k - 1);
    }
  }

  function BE32(n: uint32): (r: bytes)
    ensures |r| == 4
  {
    BigEndian(n, 4)
  }

  lemma BE32RoundTrip(n: uint32)
    ensures FromBigEndian(BE32(n)) == n
  {
    assert Bound(4) == 0x100 * Bound(3) == 0x1_0000 * Bound(2) == 0x100_0000 * Bound(1) == TWO32;
    BigEndianRoundTrip(n, 4);
  }

  lemma BE32Bytes(n: uint32)
    ensures BE32(n) == [n / 0x100_0000, n / 0x1_0000 % 0x100, n / 0x100 % 0x100, n % 0x100]
  {
    var q1 := n / 0x100;
    var q2 := q1 / 0x100;
    assert q2 == n / 0x1_0000 && q2 / 0x100 == n / 0x100_0000;
    assert BigEndian(q2, 2) == BigEndian(q2 / 0x100, 1) + [q2 % 0x100];
    assert BigEndian(q2 / 0x100, 1) == BigEndian(q2 / 0x100 / 0x100, 0) + [q2 / 0x100 % 0x100];
    assert BigEndian(q1, 3) == BigEndian(q2, 2) + [q1 % 0x100];
    assert BigEndian(n, 4) == BigEndian(q1, 3) + [n % 0x100];
  }

  lemma FourBytes(s: bytes)
    requires |s| == 4
    ensures FromBigEndian(s) == s[0] as int * 0x100_0000 + s[1] as int * 0x1_0000 + s[2] as int * 0x100 + s[3] as int
  {
    var s3, s2, s1 := s[..3], s[..2], s[..1];
    assert s3[..2] == s2 && s2[..1] == s1 && s1[..0] == [];
    assert FromBigEndian(s1) == s[0];
    assert FromBigEndian(s2) == 0x100 * FromBigEndian(s1) + s[1];
    assert FromBigEndian(s3) == 0x100 * FromBigEndian(s2) + s[2];
  }

  /** The bytes appended for one entry: none if the record encoding refuses it. */
  function Frame(c: Codec, e: Entry): bytes
  {
    match c.marshal(e)
    case None => []
    case Some(d) => BE32((4 + |d|) % TWO32) + BE32(c.crc(d)) + d
  }

  function Frames(c: Codec, es: seq<Entry>): bytes
  {
    if es == [] then [] else Frame(c, es[0]) + Frames(c, es[1..])
  }

  lemma {:induction false} FramesAppend(c: Codec, a: seq<Entry>, b: seq<Entry>)
    ensures Frames(c, a + b) == Frames(c, a) + Frames(c, b)
  {
    if a == [] {
      assert a + b == b;
    } else {
      assert (a + b)[1..] == a[1..] + b;
      FramesAppend(c, a[1..], b);
    }
  }

  lemma FramesOne(c: Codec, e: Entry)
    ensures Frames(c, [e]) == Frame(c, e)
  {
    assert [e][1..] == [];
  }

  lemma FramesOneMore(c: Codec, es: seq<Entry>, e: Entry)
    ensures Frames(c, es + [e]) == Frames(c, es) + Frame(c, e)
  {
    FramesAppend(c, es, [e]);
    FramesOne(c, e);
  }

  // ---------- Reading back ----------

  /** How reading a file ends: HeaderOnly is the io.EOF raised right after a header. */
  datatype Outcome = Clean | HeaderOnly | BadLength | BadChecksum | BadRecord

  datatype Parsed = Parsed(entries: seq<Entry>, outcome: Outcome)

  function Parse(c: Codec, s: bytes): Parsed
    decreases |s|
  {
    if |s| < 8 then Parsed([], Clean)
    else
      var recLen := FromBigEndian(s[..4]);
      if recLen < 4 then Parsed([], BadLength)
      else
        var n := recLen - 4;
        if n > 0 && |s| == 8 then Parsed([], HeaderOnly)
        else if |s| < 8 + n then Parsed([], Clean)
        else
          var data := s[8..8 + n];
          if c.crc(data) != FromBigEndian(s[4..8]) then Parsed([], BadChecksum)
          else
            match c.unmarshal(data)
            case None => Parsed([], BadRecord)
            case Some(e) =>
              var more := Parse(c, s[8 + n..]);
              Parsed([e] + more.entries, more.outcome)
  }

  lemma FrameLayout(c: Codec, e: Entry)
    requires Faithful(c) && c.utf8(e.key) && Fits(c, e)
    ensures c.marshal(e).Some?
    ensures var f, d := Frame(c, e), c.marshal(e).value;
            && |f| == 8 + |d| && FromBigEndian(f[..4]) == 4 + |d| && FromBigEndian(f[4..8]) == c.crc(d)
            && f[8..] == d && c.unmarshal(d) == Some(e)
  {
    var d := c.marshal(e).value;
    BE32RoundTrip(4 + |d|);
    BE32RoundTrip(c.crc(d));
    var f := Frame(c, e);
    assert f[..4] == BE32(4 + |d|) && f[4..8] == BE32(c.crc(d));
  }

  /** Reading a whole frame yields its entry, and reading goes on behind it. */
  lemma ParseFrame(c: Codec, e: Entry, s: bytes)
    requires Faithful(c) && c.utf8(e.key) && Fits(c, e)
    ensures Parse(c, Frame(c, e) + s) == Before([e], Parse(c, s))
  {
    FrameLayout(c, e);
    var f := Frame(c, e);
    var all := f + s;
    assert all[..4] == f[..4] && all[4..8] == f[4..8] && all[8..|f|] == f[8..] && all[|f|..] == s;
  }

  /** The result of reading `es` and then what `p` read. */
  function Before(es: seq<Entry>, p: Parsed): Parsed
  {
    Parsed(es + p.entries, p.outcome)
  }

  lemma FirstFrame(c: Codec, es: seq<Entry>, s: bytes)
    requires es != []
    ensures Frames(c, es) + s == Frame(c, es[0]) + (Frames(c, es[1..]) + s)
  {
  }

  lemma BeforeFirst(es: seq<Entry>, p: Parsed)
    requires es != []
    ensures Before([es[0]], Before(es[1..], p)) == Before(es, p)
  {
    assert [es[0]] + (es[1..] + p.entries) == es + p.entries;
  }

  lemma BeforeNothing(es: seq<Entry>, p: Parsed)
    ensures Before([], p) == p && Before(es, Parsed([], p.outcome)) == Parsed(es, p.outcome)
  {
    assert [] + p.entries == p.entries && es + [] == es;
  }

  lemma {:induction false} ParseFramesThen(c: Codec, es: seq<Entry>, s: bytes)
    requires Faithful(c) && Loggable(c, es)
    ensures Parse(c, Frames(c, es) + s) == Before(es, Parse(c, s))
    decreases |es|
  {
    var p := Parse(c, s);
    if es == [] {
      assert Frames(c, es) + s == s;
      BeforeNothing(es, p);
    } else {
      FirstFrame(c, es, s);
      ParseFrame(c, es[0], Frames(c, es[1..]) + s);
      ParseFramesThen(c, es[1..], s);
      BeforeFirst(es, p);
    }
  }

  /** Round trip: a file of whole frames is read back entry for entry. */
  lemma ParseOfFrames(c: Codec, es: seq<Entry>)
    requires Faithful(c) && Loggable(c, es)
    ensures Parse(c, Frames(c, es)) == Parsed(es, Clean)
  {
    ParseFramesThen(c, es, []);
    assert Frames(c, es) + [] == Frames(c, es);
  }

  lemma ParseTornFrame(c: Codec, e: Entry, cut: nat)
    requires Faithful(c) && c.utf8(e.key) && Fits(c, e) && cut < |Frame(c, e)|
    ensures Parse(c, Frame(c, e)[..cut]) == Parsed([], if cut == 8 then HeaderOnly else Clean)
  {
    FrameLayout(c, e);
    if cut >= 8 {
      var t := Frame(c, e)[..cut];
      assert t[..4] == Frame(c, e)[..4];
    }
  }

  /** `n` is the number of whole frames in the first `cut` bytes. */
  ghost predicate WholeFrames(c: Codec, es: seq<Entry>, cut: nat, n: nat)
  {
    && n <= |es| && |Frames(c, es[..n])| <= cut <= |Frames(c, es)|
    && (n < |es| ==> cut < |Frames(c, es[..n + 1])|)
  }

  lemma FramesSplit(c: Codec, es: seq<Entry>, n: nat)
    requires n < |es|
    ensures Frames(c, es[..n + 1]) == Frames(c, es[..n]) + Frame(c, es[n])
    ensures Frames(c, es) == Frames(c, es[..n + 1]) + Frames(c, es[n + 1..])
  {
    assert es[..n + 1] == es[..n] + [es[n]];
    FramesOneMore(c, es[..n], es[n]);
    assert es == es[..n + 1] + es[n + 1..];
    FramesAppend(c, es[..n + 1], es[n + 1..]);
  }

  lemma CutOfSum<T>(a: seq<T>, f: seq<T>, b: seq<T>, cut: nat)
    requires |a| <= cut <= |a + f|
    ensures (a + f + b)[..cut] == a + f[..cut - |a|]
  {
  }

  lemma CutInsideFrame(c: Codec, es: seq<Entry>, cut: nat, n: nat)
    requires WholeFrames(c, es, cut, n) && n < |es|
    ensures var rest := cut - |Frames(c, es[..n])|;
            rest < |Frame(c, es[n])| && Frames(c, es)[..cut] == Frames(c, es[..n]) + Frame(c, es[n])[..rest]
  {
    FramesSplit(c, es, n);
    CutOfSum(Frames(c, es[..n]), Frame(c, es[n]), Frames(c, es[n + 1..]), cut);
  }

  /** Whole frames and then a torn one. */
  lemma TornBehindFrames(c: Codec, es: seq<Entry>, e: Entry, cut: nat, s: bytes)
    requires Faithful(c) && Loggable(c, es) && c.utf8(e.key) && Fits(c, e) && cut < |Frame(c, e)|
    requires s == Frames(c, es) + Frame(c, e)[..cut]
    ensures Parse(c, s) == Parsed(es, if cut == 8 then HeaderOnly else Clean)
  {
    ParseTornFrame(c, e, cut);
    ParseFramesThen(c, es, Frame(c, e)[..cut]);
    BeforeNothing(es, Parse(c, Frame(c, e)[..cut]));
  }

  lemma LoggableUpTo(c: Codec, es: seq<Entry>, n: nat)
    requires Loggable(c, es) && n < |es|
    ensures Loggable(c, es[..n]) && c.utf8(es[n].key) && Fits(c, es[n])
  {
    assert es[n] in es;
  }

  /**
   * Torn tail: cut a file of whole frames at any byte. The reader reports exactly the whole frames before
   * the cut, in order, and ends cleanly unless the cut falls right behind the header of a non-empty record.
   */
  lemma TornTail(c: Codec, es: seq<Entry>, cut: nat, n: nat)
    requires Faithful(c) && Loggable(c, es) && WholeFrames(c, es, cut, n)
    ensures Parse(c, Frames(c, es)[..cut]) ==
            Parsed(es[..n], if n < |es| && cut == |Frames(c, es[..n])| + 8 then HeaderOnly else Clean)
  {
    var s := Frames(c, es)[..cut];
    if n == |es| {
      assert es[..n] == es && s == Frames(c, es);
      ParseOfFrames(c, es);
    } else {
      CutInsideFrame(c, es, cut, n);
      LoggableUpTo(c, es, n);
      TornBehindFrames(c, es[..n], es[n], cut - |Frames(c, es[..n])|, s);
    }
  }

  /** Every cut has such a number of whole frames. */
  lemma {:induction false} WholeFramesExist(c: Codec, es: seq<Entry>, cut: nat) returns (n: nat)
    requires cut <= |Frames(c, es)|
    ensures WholeFrames(c, es, cut, n)
  {
    n := |es|;
    assert es[..n] == es;
    while |Frames(c, es[..n])| > cut
      invariant n <= |es| && (n < |es| ==> cut < |Frames(c, es[..n + 1])|)
      decreases n
    {
      n := n - 1;
    }
  }

  // ---------- How reading ends ----------

  /** The first record in `s` is complete, and its checksum and its encoding are right. */
  predicate Readable(c: Codec, s: bytes)
  {
    |s| >= 8 &&
    var n := FromBigEndian(s[..4]) - 4;
    && 0 <= n <= |s| - 8
    && c.crc(s[8..8 + n]) == FromBigEndian(s[4..8])
    && c.unmarshal(s[8..8 + n]).Some?
  }

  /** The number in the length field. */
  function LengthField(s: bytes): nat
    requires |s| >= 8
  {
    FromBigEndian(s[..4])
  }

  /** The first record in `s` is there in full, whatever its bytes are. */
  predicate Complete(s: bytes)
  {
    |s| >= 8 && LengthField(s) >= 4 && 4 + LengthField(s) <= |s|
  }

  predicate ChecksumHolds(c: Codec, s: bytes)
    requires Complete(s)
  {
    c.crc(s[8..4 + LengthField(s)]) == FromBigEndian(s[4..8])
  }

  /** The rest of a file that a crash may leave: less than a header, or a record cut off behind its header. */
  predicate Torn(s: bytes)
  {
    |s| < 8 || (LengthField(s) >= 4 && 4 + LengthField(s) > |s| && |s| > 8)
  }

  /**
   * Behind whole frames, what follows decides: if its first record cannot be read, reading ends there, and it ends
   * with the error that fits - a complete record is never passed over.
   */
  lemma UnreadableEndsReading(c: Codec, es: seq<Entry>, s: bytes)
    requires Faithful(c) && Loggable(c, es) && !Readable(c, s)
    ensures var p := Parse(c, Frames(c, es) + s);
            && p.entries == es
            && (p.outcome == Clean <==> Torn(s))
            && (p.outcome == BadLength <==> |s| >= 8 && LengthField(s) < 4)
            && (p.outcome == HeaderOnly <==> |s| == 8 && LengthField(s) > 4)
            && (p.outcome == BadChecksum <==> Complete(s) && !ChecksumHolds(c, s))
            && (p.outcome == BadRecord <==> Complete(s) && ChecksumHolds(c, s))
  {
    ParseFramesThen(c, es, s);
    BeforeNothing(es, Parse(c, s));
  }

  /** Readable records one behind the other, and then at most what a crash leaves. */
  ghost predicate Intact(c: Codec, s: bytes)
    decreases |s|
  {
    if Readable(c, s) then Intact(c, s[4 + LengthField(s)..]) else Torn(s)
  }

  /** Reading a file ends without an error if and only if the file is intact, for any bytes. */
  lemma {:induction false} CleanIffIntact(c: Codec, s: bytes)
    ensures Parse(c, s).outcome == Clean <==> Intact(c, s)
    decreases |s|
  {
    if Readable(c, s) {
      CleanIffIntact(c, s[4 + LengthField(s)..]);
    }
  }

  /** A record whose bytes have changed so that the checksum shows it: an error, and nothing behind it is read. */
  lemma ChangedRecordIsAnError(c: Codec, es: seq<Entry>, e: Entry, data: bytes, more: bytes)
    requires Faithful(c) && Loggable(c, es + [e])
    requires |data| == |c.marshal(e).value| && c.crc(data) != c.crc(c.marshal(e).value)
    ensures Parse(c, Frames(c, es) + (Frame(c, e)[..8] + data + more)) == Parsed(es, BadChecksum)
  {
    assert e in es + [e] && forall x :: x in es ==> x in es + [e];
    FrameLayout(c, e);
    var s := Frame(c, e)[..8] + data + more;
    assert s[..4] == Frame(c, e)[..4] && s[4..8] == Frame(c, e)[4..8] && s[8..8 + |data|] == data;
    UnreadableEndsReading(c, es, s);
  }

  // ---------- Appending behind a torn tail ----------

  /**
   * A torn tail is not cut off when the file is reopened, and what is appended runs into it. For a cut at any
   * byte and anything appended: all of it is lost if and only if the torn record, filled up with the appended
   * bytes, is not readable. If it is, that record is recovered - the torn one if the very bytes missing were
   * appended, some other one if the checksum fits by chance - and reading goes on behind it, wherever that is in
   * what was appended.
   */
  lemma AppendBehindATornTail(c: Codec, es: seq<Entry>, e: Entry, cut: nat, more: bytes)
    requires Faithful(c) && Loggable(c, es) && 0 < cut < |Frame(c, e)|
    ensures var mix := Frame(c, e)[..cut] + more;
            var p := Parse(c, Frames(c, es) + mix);
            && (p.entries == es <==> !Readable(c, mix))
            && (Readable(c, mix) ==>
                  var n := FromBigEndian(mix[..4]) - 4;
                  p == Before(es, Before([c.unmarshal(mix[8..8 + n]).value], Parse(c, mix[8 + n..]))))
  {
    var mix := Frame(c, e)[..cut] + more;
    ParseFramesThen(c, es, mix);
    AppendedIff(es, Parse(c, mix).entries);
  }

  lemma AppendedIff<T>(a: seq<T>, b: seq<T>)
    ensures a + b == a <==> b == []
  {
    assert |a + b| == |a| + |b|;
  }

  /** The bytes that were missing make the torn record whole. */
  lemma TornRecordCompleted(c: Codec, es: seq<Entry>, e: Entry, cut: nat, more: bytes)
    requires Faithful(c) && Loggable(c, es + [e]) && 0 < cut < |Frame(c, e)|
    ensures Parse(c, Frames(c, es) + (Frame(c, e)[..cut] + (Frame(c, e)[cut..] + more)))
         == Before(es + [e], Parse(c, more))
  {
    FramesOneMore(c, es, e);
    Rejoined(Frames(c, es), Frame(c, e), cut, more);
    ParseFramesThen(c, es + [e], more);
  }

  lemma Rejoined<T>(a: seq<T>, f: seq<T>, cut: nat, more: seq<T>)
    requires cut <= |f|
    ensures a + (f[..cut] + (f[cut..] + more)) == a + f + more
  {
    assert f[..cut] + (f[cut..] + more) == f + more;
  }

  /**
   * Once the torn header is complete it speaks for the lost record: the appended bytes must fill up its length
   * and carry its checksum.
   */
  lemma BehindATornRecord(c: Codec, e: Entry, cut: nat, more: bytes)
    requires Faithful(c) && c.utf8(e.key) && Fits(c, e) && 8 <= cut < |Frame(c, e)|
    ensures var d := c.marshal(e).value;
            var mix := d[..cut - 8] + more;
            Readable(c, Frame(c, e)[..cut] + more) <==>
            |d| <= |mix| && c.crc(mix[..|d|]) == c.crc(d) && c.unmarshal(mix[..|d|]).Some?
  {
    FrameLayout(c, e);
    var f, d := Frame(c, e), c.marshal(e).value;
    var s, mix := f[..cut] + more, d[..cut - 8] + more;
    assert s[..4] == f[..4] && s[4..8] == f[4..8];
    assert f[..cut][8..] == f[8..][..cut - 8];
    assert s[8..] == mix;
    if |d| <= |mix| { assert s[8..8 + |d|] == mix[..|d|]; }
  }

  /**
   * With short records a tear inside the length field always makes the reader stop with an error: nothing
   * appended behind it is ever recovered.
   */
  lemma ShortRecordsBehindATornLength(c: Codec, es: seq<Entry>, e: Entry, next: Entry, cut: nat, more: bytes)
    requires Faithful(c) && Loggable(c, es + [e, next])
    requires |Frame(c, e)| < 260 && |Frame(c, next)| < 260 && 1 <= cut <= 3
    ensures Parse(c, Frames(c, es) + (Frame(c, e)[..cut] + (Frame(c, next) + more))) == Parsed(es, BadLength)
  {
    assert forall x :: x in es ==> x in es + [e, next];
    assert e in es + [e, next] && next in es + [e, next];
    var f, g := Frame(c, e), Frame(c, next);
    ShortLength(c, e);
    ShortLength(c, next);
    var t := f[..cut] + (g + more);
    assert t[..4] == [0, 0, 0, 0];
    FourBytes(t[..4]);
    ParseFramesThen(c, es, t);
    assert es + [] == es;
  }

  lemma ShortLength(c: Codec, e: Entry)
    requires Faithful(c) && c.utf8(e.key) && Fits(c, e) && |Frame(c, e)| < 260
    ensures |Frame(c, e)| >= 8 && Frame(c, e)[..3] == [0, 0, 0]
  {
    FrameLayout(c, e);
    BE32Bytes(4 + |c.marshal(e).value|);
    assert Frame(c, e)[..4] == BE32(4 + |c.marshal(e).value|);
    assert Frame(c, e)[..3] == Frame(c, e)[..4][..3];
  }
}
