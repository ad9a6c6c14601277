/** Handshake messages over records: a byte stream cut into records at any places, and what
    hs_next reassembles (section 5.1 of RFC 8446). */
module TlsHandshake {
  import opened Common
  import opened TlsRecord

  const MAX_HANDSHAKE: nat := 65536

  datatype Msg = Msg(kind: Byte, body: Bytes)

  // ----- one stream -----

  function MsgLength(buf: Bytes): nat
    requires |buf| >= 4
  {
    65536 * (buf[1] as int) + 256 * (buf[2] as int) + buf[3]
  }

  /** What stands at the front of the bytes collected so far. */
  datatype Front = Whole(m: Msg, rest: Bytes) | TooLarge | Partial

  function Frame(buf: Bytes): (r: Front)
    ensures r.Whole? ==> |r.rest| < |buf|
  {
    if |buf| < 4 then Partial
    else
      var len := MsgLength(buf);
      if len > MAX_HANDSHAKE then TooLarge
      else if |buf| >= 4 + len then Whole(Msg(buf[0], buf[4..4 + len]), buf[4 + len..])
      else Partial
  }

  /** The messages of a byte stream, and whether they end at an oversized one. */
  datatype Parsed = Parsed(msgs: seq<Msg>, tooLarge: bool)

  function Parse(stream: Bytes): Parsed
    decreases |stream|
  {
    match Frame(stream)
    case Partial => Parsed([], false)
    case TooLarge => Parsed([], true)
    case Whole(m, rest) => var p := Parse(rest); p.(msgs := [m] + p.msgs)
  }

  function Encode(m: Msg): Bytes
    requires |m.body| <= MAX_HANDSHAKE
  {
    [m.kind, |m.body| / 65536, |m.body| / 256 % 256, |m.body| % 256] + m.body
  }

  /** A message on the wire, byte by byte (section 4 of RFC 8446): its type, its length in three bytes with
      the highest first, and its body. */
  lemma MessageFormat(m: Msg)
    requires |m.body| <= MAX_HANDSHAKE
    ensures var b := Encode(m);
            && |b| == 4 + |m.body| && b[0] == m.kind && b[4..] == m.body
            && (b[1] as int) * 65536 + (b[2] as int) * 256 + b[3] == |m.body|
  {
    var n := |m.body|;
    assert n == n / 256 * 256 + n % 256 && n / 256 == n / 65536 * 256 + n / 256 % 256;
  }

  function EncodeAll(msgs: seq<Msg>): Bytes
    requires forall i | 0 <= i < |msgs| :: |msgs[i].body| <= MAX_HANDSHAKE
  {
    if msgs == [] then [] else Encode(msgs[0]) + EncodeAll(msgs[1..])
  }

  /** Later bytes do not change what the front of the buffer is. */
  lemma FrameStable(buf: Bytes, more: Bytes)
    ensures Frame(buf).Whole? ==> Frame(buf + more) == Frame(buf).(rest := Frame(buf).rest + more)
    ensures Frame(buf).TooLarge? ==> Frame(buf + more).TooLarge?
  {
    if |buf| >= 4 {
      var len := MsgLength(buf);
      assert MsgLength(buf + more) == len;
      if 4 + len <= |buf| {
        assert (buf + more)[4..4 + len] == buf[4..4 + len];
        assert (buf + more)[4 + len..] == buf[4 + len..] + more;
      }
    }
  }

  lemma FrameEncoded(m: Msg, more: Bytes)
    requires |m.body| <= MAX_HANDSHAKE
    ensures Frame(Encode(m) + more) == Whole(m, more)
  {
    var buf, len := Encode(m) + more, |m.body|;
    assert MsgLength(buf) == len by {
      assert len / 65536 * 65536 + len / 256 % 256 * 256 + len % 256 == len;
    }
    assert buf[4..4 + len] == m.body;
    assert buf[4 + len..] == more;
  }

  /** Parsing inverts encoding. */
  lemma {:induction false} ParseEncoded(msgs: seq<Msg>)
    requires forall i | 0 <= i < |msgs| :: |msgs[i].body| <= MAX_HANDSHAKE
    ensures Parse(EncodeAll(msgs)) == Parsed(msgs, false)
  {
    hide Frame, Encode;
    if msgs == [] {
      assert Frame([]) == Partial by { FrameNothing(); }
    } else {
      FrameEncoded(msgs[0], EncodeAll(msgs[1..]));
      ParseEncoded(msgs[1..]);
    }
  }

  lemma FrameNothing()
    ensures Frame([]) == Partial
  {
  }

  // ----- hs_next -----

  /** close_notify ends cleanly; every other alert is an error. */
  function AlertResult(body: Bytes): int {
    if |body| >= 2 && body[1] == 0 then 0 else -1
  }

  datatype HsOutcome = Message(m: Msg) | End(ret: int)

  /** The state behind a call: the read epoch, the bytes still to come, those collected, and
      whether a close_notify has come. */
  datatype HsStep = HsStep(outcome: HsOutcome, e: Epoch, rest: Bytes, buf: Bytes, closed: bool)

  /** One call of hs_next with `buf` already collected. */
  function HsNext(a: Aead, e: Epoch, input: Bytes, buf: Bytes): (r: HsStep)
    requires WfEpoch(e)
    ensures WfEpoch(r.e)
    ensures r.outcome.Message? ==> |r.rest| < |input| || (r.rest == input && |r.buf| < |buf|)
    decreases |input|
  {
    match Frame(buf)
    case Whole(m, tail) => HsStep(Message(m), e, input, tail, false)
    case TooLarge => HsStep(End(-1), e, input, buf, false)
    case Partial =>
      var s := Recv(a, e, input);
      match s.outcome
      case Eof => HsStep(End(0), s.e, s.rest, buf, false)
      case Failed => HsStep(End(-1), s.e, s.rest, buf, false)
      case Rec(kind, data) =>
        if kind == CT_HANDSHAKE then HsNext(a, s.e, s.rest, buf + data)
        else if kind == CT_ALERT then HsStep(End(AlertResult(data)), s.e, s.rest, buf, AlertResult(data) == 0)
        else HsStep(End(-1), s.e, s.rest, buf, false)
  }

  /** The call when no whole message is there yet: one record, and what follows from it. */
  lemma HsNextRecord(a: Aead, e: Epoch, input: Bytes, buf: Bytes)
    requires WfEpoch(e) && Frame(buf).Partial?
    ensures var s, r := Recv(a, e, input), HsNext(a, e, input, buf);
            if !s.outcome.Rec? then r == HsStep(End(if s.outcome.Eof? then 0 else -1), s.e, s.rest, buf, false)
            else if s.outcome.kind == CT_HANDSHAKE then r == HsNext(a, s.e, s.rest, buf + s.outcome.data)
            else if s.outcome.kind == CT_ALERT then
              r == HsStep(End(AlertResult(s.outcome.data)), s.e, s.rest, buf, AlertResult(s.outcome.data) == 0)
            else r == HsStep(End(-1), s.e, s.rest, buf, false)
  {
    hide Recv, Frame;
  }

  /** The call when the front of the buffer decides it. */
  lemma HsNextFront(a: Aead, e: Epoch, input: Bytes, buf: Bytes)
    requires WfEpoch(e) && !Frame(buf).Partial?
    ensures HsNext(a, e, input, buf)
         == if Frame(buf).TooLarge? then HsStep(End(-1), e, input, buf, false)
            else HsStep(Message(Frame(buf).m), e, input, Frame(buf).rest, false)
  {
    hide Frame;
  }

  datatype HsRun = HsRun(msgs: seq<Msg>, end: int)

  /** All messages a caller gets by calling hs_next until it returns no message. */
  function HsAll(a: Aead, e: Epoch, input: Bytes, buf: Bytes): HsRun
    requires WfEpoch(e)
    decreases |input|, |buf|
  {
    var s := HsNext(a, e, input, buf);
    match s.outcome
    case End(ret) => HsRun([], ret)
    case Message(m) => var r := HsAll(a, s.e, s.rest, s.buf); r.(msgs := [m] + r.msgs)
  }

  // ----- independence of the cuts -----

  /** The bytes of the handshake records that come before any other record. */
  function Stream(recs: seq<Outcome>): Bytes {
    if recs == [] || !recs[0].Rec? || recs[0].kind != CT_HANDSHAKE then [] else recs[0].data + Stream(recs[1..])
  }

  /** How the stream ends: at another record, or as the connection does. */
  function Ending(recs: seq<Outcome>, end: Outcome): int {
    if recs == [] || !recs[0].Rec? then if end == Eof then 0 else -1
    else if recs[0].kind == CT_HANDSHAKE then Ending(recs[1..], end)
    else if recs[0].kind == CT_ALERT then AlertResult(recs[0].data)
    else -1
  }

  ghost function Expected(buf: Bytes, recs: seq<Outcome>, end: Outcome): HsRun {
    var p := Parse(buf + Stream(recs));
    HsRun(p.msgs, if p.tooLarge then -1 else Ending(recs, end))
  }

  lemma PartialParse(buf: Bytes)
    requires Frame(buf).Partial?
    ensures Parse(buf) == Parsed([], false)
  {
  }

  /** The messages depend on the joined bytes of the records alone: not on how many records
      carry them, where they are cut, or whether some are empty. */
  lemma {:induction false} CutsDoNotMatter(a: Aead, e: Epoch, input: Bytes, buf: Bytes)
    requires WfEpoch(e)
    ensures var r := RecvAll(a, e, input);
            HsAll(a, e, input, buf) == Expected(buf, r.recs, r.end)
    decreases |input|, |buf|
  {
    hide Recv, Frame;
    var r := RecvAll(a, e, input);
    var later := Stream(r.recs);
    FrameStable(buf, later);
    match Frame(buf)
    case Whole(m, tail) =>
      CutsDoNotMatter(a, e, input, tail);
    case TooLarge =>
    case Partial =>
      var s := Recv(a, e, input);
      if s.outcome.Rec? && s.outcome.kind == CT_HANDSHAKE {
        CutsDoNotMatter(a, s.e, s.rest, buf + s.outcome.data);
        assert r.recs[1..] == RecvAll(a, s.e, s.rest).recs;
        assert buf + later == buf + s.outcome.data + Stream(r.recs[1..]);
      } else {
        assert later == [];
        assert buf + later == buf;
        PartialParse(buf);
      }
  }

  /** The bytes that the data items of a stream carry. */
  ghost function Carried(items: seq<Item>): Bytes {
    if items == [] then [] else (if items[0].Data? then items[0].data else []) + Carried(items[1..])
  }

  lemma {:induction false} HandshakeContents(items: seq<Item>)
    requires forall i | 0 <= i < |items| :: items[i].Data? ==> items[i].kind == CT_HANDSHAKE
    ensures Stream(Contents(items)) == Carried(items) && Ending(Contents(items), Eof) == 0
  {
    if items != [] {
      HandshakeContents(items[1..]);
      if items[0].Data? {
        assert Contents(items)[1..] == Contents(items[1..]);
      }
    }
  }

  /** Messages cut into handshake records in any way, with dummies anywhere, protected or not,
      come out whole and in order, and then the stream ends cleanly. */
  lemma HandshakeRoundTrip(a: Aead, e: Epoch, msgs: seq<Msg>, items: seq<Item>)
    requires Correct(a) && WfEpoch(e) && Fits(items)
    requires forall i | 0 <= i < |items| :: items[i].Data? ==> items[i].kind == CT_HANDSHAKE
    requires forall i | 0 <= i < |msgs| :: |msgs[i].body| <= MAX_HANDSHAKE
    requires Carried(items) == EncodeAll(msgs)
    ensures HsAll(a, e, WireAll(a, e, items), []) == HsRun(msgs, 0)
  {
    hide RecvAll, HsAll, WireAll, Parse, Contents, Stream, Ending, Carried;
    var input := WireAll(a, e, items);
    RecvInvertsSend(a, e, items);
    CutsDoNotMatter(a, e, input, []);
    HandshakeContents(items);
    ParseEncoded(msgs);
    assert [] + EncodeAll(msgs) == EncodeAll(msgs);
  }
}
