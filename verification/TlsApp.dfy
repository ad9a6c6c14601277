/** Application data over records: what cact_tls_read returns for any sizes asked for, with
    leftovers kept between calls and post-handshake messages in between. */
module TlsApp {
  import opened Common
  import opened TlsRecord
  import opened TlsHandshake

  const HS_NEW_SESSION_TICKET: Byte := 4
  const HS_KEY_UPDATE: Byte := 24

  // ----- both directions -----

  /** What has been written to the socket, and how many bytes it still takes. */
  datatype Out = Out(written: Bytes, room: nat)

  /** write_full: all of it, or as much as goes. */
  function Sent(o: Out, data: Bytes): Out {
    var n := Min(|data|, o.room);
    Out(o.written + data[..n], o.room - n)
  }

  /** The connection that a read works on: both epochs, how often the traffic secrets of the server
      and of the client have been renewed, the socket, the leftover, and whether it is closed. */
  datatype Side =
    Side(rd: Epoch, wr: Epoch, sGen: nat, cGen: nat, input: Bytes, out: Out, app: Bytes, closed: bool)

  ghost predicate WfSide(s: Side) {
    WfEpoch(s.rd) && WfEpoch(s.wr)
  }

  /** send_record of at most MAX_PLAIN bytes; the counter has advanced even if the socket fails. */
  function SendOne(a: Aead, s: Side, kind: Byte, data: Bytes): (r: (bool, Side))
    requires WfSide(s) && |data| <= MAX_PLAIN
    ensures WfSide(r.1)
  {
    var w := Wire(a, s.wr, kind, data);
    (|w| <= s.out.room, s.(wr := Next(s.wr), out := Sent(s.out, w)))
  }

  // ----- post-handshake messages -----

  /** The answer to a KeyUpdate that asks for one. */
  function UpdateReply(): (m: Bytes)
    ensures |m| == 5
  {
    [HS_KEY_UPDATE, 0, 0, 1, 0]
  }

  /** `front` laid over the beginning of `data`. */
  function Overlay(data: Bytes, front: Bytes): (r: Bytes)
    ensures |r| == |data|
  {
    seq(|data|, i requires 0 <= i < |data| => if i < |front| then front[i] else data[i])
  }

  /** The length field of the message at offset `o`. */
  function LengthAt(data: Bytes, o: nat): nat
    requires o + 4 <= |data|
  {
    65536 * (data[o + 1] as int) + 256 * (data[o + 2] as int) + data[o + 3]
  }

  /** The peer's secret is renewed and the counter of the reading side starts again; the key and
      the iv that records are opened with stay. */
  function PeerUpdated(s: Side): Side {
    s.(rd := s.rd.(n := 0), sGen := s.sGen + 1)
  }

  function OwnUpdated(s: Side): Side {
    s.(wr := s.wr.(n := 0), cGen := s.cGen + 1)
  }

  /** The messages of one record from offset `o` on.  Tickets are dropped.  A KeyUpdate renews the
      peer's secret and, if it asks for an answer, is answered, which goes through the buffer the
      messages are read from, and the own secret is renewed. */
  function PostHandshake(a: Aead, data: Bytes, o: nat, s: Side): (r: (bool, Side))
    requires WfSide(s) && o <= |data|
    ensures WfSide(r.1) && r.1.rd == s.rd.(n := r.1.rd.n) && r.1.wr == s.wr.(n := r.1.wr.n)
    ensures r.1.input == s.input && r.1.app == s.app && r.1.closed == s.closed
    decreases |data| - o
  {
    if o + 4 > |data| then (true, s)
    else
      var len, b := LengthAt(data, o), o + 4;
      if b + len > |data| then (false, s)
      else if data[o] == HS_NEW_SESSION_TICKET then PostHandshake(a, data, b + len, s)
      else if data[o] != HS_KEY_UPDATE || len != 1 then (false, s)
      else if data[b] != 1 then PostHandshake(a, data, b + 1, PeerUpdated(s))
      else
        var (ok, s1) := SendOne(a, PeerUpdated(s), CT_HANDSHAKE, UpdateReply());
        if !ok then (false, s1)
        else
          var data' := if s.wr.enc then Overlay(data, UpdateReply() + [CT_HANDSHAKE]) else data;
          PostHandshake(a, data', b + 1, OwnUpdated(s1))
  }

  /** The first message at `o`. */
  lemma PostStep(a: Aead, data: Bytes, o: nat, s: Side)
    requires WfSide(s) && o + 4 <= |data|
    ensures var len, b, p := LengthAt(data, o), o + 4, PostHandshake(a, data, o, s);
            if b + len > |data| then p == (false, s)
            else if data[o] == HS_NEW_SESSION_TICKET then p == PostHandshake(a, data, b + len, s)
            else if data[o] != HS_KEY_UPDATE || len != 1 then p == (false, s)
            else if data[b] != 1 then p == PostHandshake(a, data, b + 1, PeerUpdated(s))
            else
              var r := SendOne(a, PeerUpdated(s), CT_HANDSHAKE, UpdateReply());
              var data' := if s.wr.enc then Overlay(data, UpdateReply() + [CT_HANDSHAKE]) else data;
              p == if !r.0 then (false, r.1) else PostHandshake(a, data', b + 1, OwnUpdated(r.1))
  {
    hide Overlay, SendOne, LengthAt;
  }

  lemma PostEnd(a: Aead, data: Bytes, o: nat, s: Side)
    requires WfSide(s) && o <= |data| < o + 4
    ensures PostHandshake(a, data, o, s) == (true, s)
  {
  }

  /** A session ticket, type 4, is dropped, and a message of another type than 4 and 24 is an error. */
  lemma {:induction false} TicketDropped(a: Aead, s: Side, kind: Byte, body: Bytes)
    requires WfSide(s) && |body| < 256
    ensures PostHandshake(a, [kind, 0, 0, |body|] + body, 0, s)
         == if kind == 4 then (true, s)
            else if kind != 24 || |body| != 1 then (false, s)
            else PostHandshake(a, [24, 0, 0, 1] + body, 0, s)
  {
    var data := [kind, 0, 0, |body|] + body;
    assert LengthAt(data, 0) == |body|;
    hide LengthAt;
    PostStep(a, data, 0, s);
    PostEnd(a, data, |data|, s);
  }

  lemma OverlayPrefix(data: Bytes, front: Bytes, len: nat)
    requires len <= |data|
    ensures Overlay(data, front)[..len] == Overlay(data[..len], front)
  {
  }

  // ----- one call -----

  /** The return value of a read and the bytes it has put into the caller's buffer. */
  datatype Answer = Answer(ret: int, bytes: Bytes)

  function Handed(bytes: Bytes): Answer {
    Answer(|bytes|, bytes)
  }

  /** One call of cact_tls_read for up to `n` bytes. */
  function ReadCall(a: Aead, s: Side, n: nat): (r: (Answer, Side))
    requires WfSide(s)
    ensures WfSide(r.1)
    decreases |s.input|
  {
    if s.closed || n == 0 then (Answer(0, []), s)
    else if s.app != [] then
      var take := Min(|s.app|, n);
      (Handed(s.app[..take]), s.(app := s.app[take..]))
    else
      var r := Recv(a, s.rd, s.input);
      var s1 := s.(rd := r.e, input := r.rest);
      match r.outcome
      case Eof => (Answer(0, []), s1.(closed := true))
      case Failed => (Answer(-1, []), s1)
      case Rec(kind, data) =>
        if kind == CT_APP then
          var take := Min(|data|, n);
          (Handed(data[..take]), s1.(app := data[take..]))
        else if kind == CT_HANDSHAKE then
          var (ok, s2) := PostHandshake(a, data, 0, s1);
          if ok then ReadCall(a, s2, n) else (Answer(-1, []), s2)
        else if kind == CT_ALERT && AlertResult(data) == 0 then (Answer(0, []), s1.(closed := true))
        else (Answer(-1, []), s1)
  }

  /** One call of cact_tls_write: its return value, and the connection behind it. */
  function WriteCall(a: Aead, s: Side, data: Bytes): (r: (int, Side))
    requires WfSide(s)
    ensures WfSide(r.1)
  {
    if s.closed then (-1, s)
    else
      var take := Min(|data|, MAX_PLAIN);
      var (ok, s') := SendOne(a, s, CT_APP, data[..take]);
      (if ok then take else -1, s')
  }

  /** One call of cact_tls_close. */
  function CloseCall(a: Aead, s: Side): (r: (int, Side))
    requires WfSide(s)
    ensures WfSide(r.1)
  {
    if s.closed then (0, s)
    else
      var (ok, s') := SendOne(a, s, CT_ALERT, [1, 0]);
      (if ok then 0 else -1, s'.(closed := true))
  }

  /** A write takes at most 16384 bytes, and a close sends an alert, type 21, of level 1 and description 0;
      both fail if the socket does not take the record, and neither sends on a closed connection. */
  lemma WritesAndCloses(a: Aead, s: Side, data: Bytes)
    requires WfSide(s)
    ensures s.closed ==> WriteCall(a, s, data) == (-1, s) && CloseCall(a, s) == (0, s)
    ensures !s.closed ==>
              var take := if |data| < 16384 then |data| else 16384;
              var w, v := Wire(a, s.wr, 23, data[..take]), Wire(a, s.wr, 21, [1, 0]);
              && WriteCall(a, s, data) == (if |w| <= s.out.room then take else -1,
                                           s.(wr := Next(s.wr), out := Sent(s.out, w)))
              && CloseCall(a, s) == (if |v| <= s.out.room then 0 else -1,
                                     s.(wr := Next(s.wr), out := Sent(s.out, v), closed := true))
  {
    hide Wire, Sent;
  }

  /** A read, by what it finds. */
  lemma ReadCallCases(a: Aead, s: Side, n: nat)
    requires WfSide(s)
    ensures s.closed || n == 0 ==> ReadCall(a, s, n) == (Answer(0, []), s)
    ensures !s.closed && n > 0 && s.app != [] ==>
              ReadCall(a, s, n) == (Handed(s.app[..Min(|s.app|, n)]), s.(app := s.app[Min(|s.app|, n)..]))
    ensures !s.closed && n > 0 && s.app == [] ==>
              var r := Recv(a, s.rd, s.input);
              var s1 := s.(rd := r.e, input := r.rest);
              if r.outcome.Eof? then ReadCall(a, s, n) == (Answer(0, []), s1.(closed := true))
              else if r.outcome.Failed? then ReadCall(a, s, n) == (Answer(-1, []), s1)
              else if r.outcome.kind == CT_APP then
                var data := r.outcome.data;
                ReadCall(a, s, n) == (Handed(data[..Min(|data|, n)]), s1.(app := data[Min(|data|, n)..]))
              else if r.outcome.kind == CT_HANDSHAKE then
                var p := PostHandshake(a, r.outcome.data, 0, s1);
                ReadCall(a, s, n) == if p.0 then ReadCall(a, p.1, n) else (Answer(-1, []), p.1)
              else if r.outcome.kind == CT_ALERT && AlertResult(r.outcome.data) == 0 then
                ReadCall(a, s, n) == (Answer(0, []), s1.(closed := true))
              else ReadCall(a, s, n) == (Answer(-1, []), s1)
  {
    hide Recv, PostHandshake;
  }

  /** A read without a leftover, by the type of the next record: 23 is data, of an alert, 21, only one with
      the second byte 0 ends the stream without an error, and any other type but 22 is an error. */
  lemma ReadByType(a: Aead, s: Side, n: nat, kind: Byte, data: Bytes)
    requires WfSide(s) && !s.closed && s.app == [] && n > 0 && Recv(a, s.rd, s.input).outcome == Rec(kind, data)
    ensures var r := ReadCall(a, s, n).0;
            && (kind == 23 ==> r.ret == (if |data| < n then |data| else n) && r.bytes == data[..r.ret])
            && (kind == 21 ==> r == Answer(if |data| >= 2 && data[1] == 0 then 0 else -1, []))
            && (kind != 21 && kind != 22 && kind != 23 ==> r == Answer(-1, []))
  {
    hide Recv, PostHandshake;
    ReadCallCases(a, s, n);
  }

  // ----- what a connection still holds -----

  /** How a stream ends: with a close_notify, without one, or in an error. */
  datatype Ending = CloseNotify | Truncated | Broken

  /** The application records still to be read, and what comes behind them. */
  datatype Flow = Flow(pieces: seq<Bytes>, end: Ending)

  /** Behind a leftover: the records up to the end of the stream or its first error. */
  function FlowOf(a: Aead, s: Side): Flow
    requires WfSide(s)
    decreases |s.input|
  {
    var r := Recv(a, s.rd, s.input);
    var s1 := s.(rd := r.e, input := r.rest);
    match r.outcome
    case Eof => Flow([], Truncated)
    case Failed => Flow([], Broken)
    case Rec(kind, data) =>
      if kind == CT_APP then
        var f := FlowOf(a, s1);
        f.(pieces := [data] + f.pieces)
      else if kind == CT_HANDSHAKE then
        var (ok, s2) := PostHandshake(a, data, 0, s1);
        if ok then FlowOf(a, s2) else Flow([], Broken)
      else Flow([], if kind == CT_ALERT && AlertResult(data) == 0 then CloseNotify else Broken)
  }

  /** A connection once closed has come to its end. */
  function Pending(a: Aead, s: Side): Flow
    requires WfSide(s)
  {
    if s.closed then Flow([], CloseNotify)
    else
      var f := FlowOf(a, s.(app := []));
      if s.app == [] then f else f.(pieces := [s.app] + f.pieces)
  }

  /** `n` bytes less: the front piece is shortened or gone. */
  function Drop(f: Flow, n: nat): Flow
    requires f.pieces != [] && n <= |f.pieces[0]|
  {
    if n < |f.pieces[0]| then f.(pieces := [f.pieces[0][n..]] + f.pieces[1..]) else f.(pieces := f.pieces[1..])
  }

  /** A read for `n > 0` bytes returns the front of the first record to come.  The value 0 stands for
      an empty record, for a close_notify and for an end without one alike; an error gives -1. */
  lemma {:induction false} ReadTakesFront(a: Aead, s: Side, n: nat)
    requires WfSide(s) && n > 0
    ensures var (r, s'), f := ReadCall(a, s, n), Pending(a, s);
            if f.pieces == [] then
              r == Answer(if f.end.Broken? then -1 else 0, []) && (r.ret == 0 ==> Pending(a, s').pieces == [])
            else
              && r.ret == Min(|f.pieces[0]|, n) && r.bytes == f.pieces[0][..r.ret]
              && Pending(a, s') == Drop(f, r.ret)
    decreases |s.input|
  {
    hide Recv, PostHandshake;
    if !s.closed {
      if s.app != [] {
        var take := Min(|s.app|, n);
        var s' := s.(app := s.app[take..]);
        assert s'.(app := []) == s.(app := []);
      } else {
        var r := Recv(a, s.rd, s.input);
        var s1 := s.(rd := r.e, input := r.rest);
        assert s1.(app := []) == s1 && s.(app := []) == s;
        if r.outcome.Rec? && r.outcome.kind == CT_APP {
          var take := Min(|r.outcome.data|, n);
          assert s1.(app := r.outcome.data[take..]).(app := []) == s1;
        } else if r.outcome.Rec? && r.outcome.kind == CT_HANDSHAKE {
          var (ok, s2) := PostHandshake(a, r.outcome.data, 0, s1);
          if ok {
            ReadTakesFront(a, s2, n);
            assert s2.(app := []) == s2;
          }
        }
      }
    }
  }

  // ----- all calls -----

  ghost function Flat(pieces: seq<Bytes>): Bytes {
    if pieces == [] then [] else pieces[0] + Flat(pieces[1..])
  }

  /** All that is still to be read. */
  ghost function ToRead(a: Aead, s: Side): Bytes
    requires WfSide(s)
  {
    Flat(Pending(a, s).pieces)
  }

  lemma FlatDrop(f: Flow, n: nat)
    requires f.pieces != [] && n <= |f.pieces[0]|
    ensures f.pieces[0][..n] + Flat(Drop(f, n).pieces) == Flat(f.pieces)
  {
    var p := f.pieces[0];
    assert p == p[..n] + p[n..];
    if n < |p| {
      var d := Drop(f, n).pieces;
      assert d[0] == p[n..] && d[1..] == f.pieces[1..];
    }
  }

  /** A call that returns 0 or more takes exactly its bytes from the front of what is to be read, and
      one that returns -1 leaves nothing unread in front of the error. */
  lemma ReadConserves(a: Aead, s: Side, n: nat)
    requires WfSide(s)
    ensures var (r, s') := ReadCall(a, s, n);
            && -1 <= r.ret <= n && |r.bytes| == (if r.ret > 0 then r.ret else 0)
            && (r.ret >= 0 ==> r.bytes + ToRead(a, s') == ToRead(a, s))
            && (r.ret < 0 ==> ToRead(a, s) == [])
  {
    hide Pending, Flat;
    if n == 0 {
      ReadCallCases(a, s, n);
    } else {
      ReadTakesFront(a, s, n);
      var f := Pending(a, s);
      hide ReadCall;
      if f.pieces != [] {
        FlatDrop(f, ReadCall(a, s, n).0.ret);
      } else {
        NothingFlat();
      }
    }
  }

  lemma NothingFlat()
    ensures Flat([]) == []
  {
  }

  /** Calls with the given sizes, one after the other. */
  ghost predicate AreReads(a: Aead, ss: seq<Side>, sizes: seq<nat>, rs: seq<Answer>) {
    && |ss| == |sizes| + 1 == |rs| + 1
    && (forall k | 0 <= k < |ss| :: WfSide(ss[k]))
    && (forall k | 0 <= k < |rs| :: (rs[k], ss[k + 1]) == ReadCall(a, ss[k], sizes[k]))
  }

  ghost function Joined(rs: seq<Answer>): Bytes {
    if rs == [] then [] else Joined(rs[..|rs| - 1]) + rs[|rs| - 1].bytes
  }

  lemma JoinedStep(rs: seq<Answer>, k: nat)
    requires k < |rs|
    ensures Joined(rs[..k + 1]) == Joined(rs[..k]) + rs[k].bytes
  {
    assert rs[..k + 1][..k] == rs[..k];
  }

  /** Whatever sizes are asked for, and also by a caller that goes on after a 0, the bytes returned
      before an error join to the front of the application data, and at an error to all of it. */
  lemma {:induction false} ReadsJoin(a: Aead, ss: seq<Side>, sizes: seq<nat>, rs: seq<Answer>, k: nat)
    requires AreReads(a, ss, sizes, rs) && k <= |rs| && forall j | 0 <= j < k :: rs[j].ret >= 0
    ensures Joined(rs[..k]) + ToRead(a, ss[k]) == ToRead(a, ss[0])
    ensures k < |rs| && rs[k].ret < 0 ==> Joined(rs[..k]) == ToRead(a, ss[0])
  {
    hide ReadCall, ToRead, Joined;
    if k > 0 {
      ReadsJoin(a, ss, sizes, rs, k - 1);
      ReadConserves(a, ss[k - 1], sizes[k - 1]);
      assert (rs[k - 1], ss[k]) == ReadCall(a, ss[k - 1], sizes[k - 1]);
      JoinedStep(rs, k - 1);
    } else {
      NothingJoined();
      assert rs[..0] == [];
    }
    if k < |rs| && rs[k].ret < 0 {
      assert (rs[k], ss[k + 1]) == ReadCall(a, ss[k], sizes[k]);
      ReadConserves(a, ss[k], sizes[k]);
    }
  }

  lemma NothingJoined()
    ensures Joined([]) == []
  {
  }

  // ----- a caller that stops at the first 0 or -1 -----

  /** The records in front of the first empty one. */
  ghost function UpToEmpty(ps: seq<Bytes>): seq<Bytes> {
    if ps == [] || ps[0] == [] then [] else [ps[0]] + UpToEmpty(ps[1..])
  }

  /** No empty record comes before one that is not. */
  ghost predicate NoEmptyBeforeData(ps: seq<Bytes>) {
    forall i, j | 0 <= i < j < |ps| :: ps[i] == [] ==> ps[j] == []
  }

  lemma {:induction false} FlatEmptyIff(ps: seq<Bytes>)
    ensures Flat(ps) == [] <==> forall i | 0 <= i < |ps| :: ps[i] == []
  {
    if ps != [] {
      FlatEmptyIff(ps[1..]);
      assert |Flat(ps)| == |ps[0]| + |Flat(ps[1..])|;
      assert forall i | 1 <= i < |ps| :: ps[i] == ps[1..][i - 1];
    }
  }

  lemma {:induction false} AllBeforeEmptyIff(ps: seq<Bytes>)
    ensures Flat(UpToEmpty(ps)) == Flat(ps) <==> NoEmptyBeforeData(ps)
  {
    if ps != [] {
      assert forall i | 1 <= i < |ps| :: ps[i] == ps[1..][i - 1];
      if ps[0] == [] {
        FlatEmptyIff(ps);
        if Flat(ps) != [] {
          var j :| 0 <= j < |ps| && ps[j] != [];
          assert ps[0] == [] && 0 < j;
        }
      } else {
        AllBeforeEmptyIff(ps[1..]);
        var u := UpToEmpty(ps);
        assert u[1..] == UpToEmpty(ps[1..]);
        assert Flat(u) == ps[0] + Flat(UpToEmpty(ps[1..]));
        if Flat(u) == Flat(ps) {
          assert Flat(u)[|ps[0]|..] == Flat(UpToEmpty(ps[1..])) && Flat(ps)[|ps[0]|..] == Flat(ps[1..]);
        }
        TailHasNoEmpty(ps);
      }
    }
  }

  lemma TailHasNoEmpty(ps: seq<Bytes>)
    requires ps != [] && ps[0] != []
    ensures NoEmptyBeforeData(ps) <==> NoEmptyBeforeData(ps[1..])
  {
    assert forall i | 1 <= i < |ps| :: ps[i] == ps[1..][i - 1];
    if NoEmptyBeforeData(ps) {
      forall i, j | 0 <= i < j < |ps[1..]| && ps[1..][i] == []
        ensures ps[1..][j] == []
      {
        assert ps[i + 1] == [] ==> ps[j + 1] == [];
      }
    }
    if NoEmptyBeforeData(ps[1..]) {
      forall i, j | 0 <= i < j < |ps| && ps[i] == []
        ensures ps[j] == []
      {
        assert ps[1..][i - 1] == [] ==> ps[1..][j - 1] == [];
      }
    }
  }

  /** A read that returns something takes it from the part in front of the first empty record. */
  lemma UpToEmptyDrop(f: Flow, n: nat)
    requires f.pieces != [] && 0 < n <= |f.pieces[0]|
    ensures f.pieces[0][..n] + Flat(UpToEmpty(Drop(f, n).pieces)) == Flat(UpToEmpty(f.pieces))
    ensures UpToEmpty(Drop(f, n).pieces) == Drop(f, n).pieces <==> UpToEmpty(f.pieces) == f.pieces
  {
    var p, u, d := f.pieces[0], UpToEmpty(f.pieces), Drop(f, n).pieces;
    assert u[0] == p && u[1..] == UpToEmpty(f.pieces[1..]) && f.pieces == [p] + f.pieces[1..];
    assert p == p[..n] + p[n..];
    if n < |p| {
      assert d[0] == p[n..] && d[1..] == f.pieces[1..];
      assert UpToEmpty(d)[0] == p[n..] && UpToEmpty(d)[1..] == u[1..];
    }
  }

  lemma {:induction false} ReadsUpToEmpty(a: Aead, ss: seq<Side>, sizes: seq<nat>, rs: seq<Answer>, k: nat)
    requires AreReads(a, ss, sizes, rs) && k <= |rs| && forall j | 0 <= j < k :: sizes[j] > 0 && rs[j].ret > 0
    ensures Joined(rs[..k]) + Flat(UpToEmpty(Pending(a, ss[k]).pieces)) == Flat(UpToEmpty(Pending(a, ss[0]).pieces))
    ensures var f, g := Pending(a, ss[k]), Pending(a, ss[0]);
            f.end == g.end && (UpToEmpty(f.pieces) == f.pieces <==> UpToEmpty(g.pieces) == g.pieces)
    ensures k <= |Joined(rs[..k])|
  {
    hide ReadCall, Pending, Joined, Flat, UpToEmpty;
    if k > 0 {
      ReadsUpToEmpty(a, ss, sizes, rs, k - 1);
      assert (rs[k - 1], ss[k]) == ReadCall(a, ss[k - 1], sizes[k - 1]);
      ReadTakesFront(a, ss[k - 1], sizes[k - 1]);
      UpToEmptyDrop(Pending(a, ss[k - 1]), rs[k - 1].ret);
      JoinedStep(rs, k - 1);
    } else {
      NothingJoined();
      assert rs[..0] == [];
    }
  }

  /** A caller that asks for something each time and stops at the first return of 0 or -1 gets the
      records in front of the first empty one: all the application data if and only if no empty
      record comes before more data.  It gets -1 if and only if there is no empty record and the
      stream ends in an error, and it stops after no more calls than there are bytes. */
  lemma ReadsUntilZero(a: Aead, ss: seq<Side>, sizes: seq<nat>, rs: seq<Answer>, k: nat)
    requires AreReads(a, ss, sizes, rs) && k < |rs| && forall j | 0 <= j <= k :: sizes[j] > 0
    requires rs[k].ret <= 0 && forall j | 0 <= j < k :: rs[j].ret > 0
    ensures var f := Pending(a, ss[0]);
            && Joined(rs[..k]) == Flat(UpToEmpty(f.pieces))
            && (Joined(rs[..k]) == ToRead(a, ss[0]) <==> NoEmptyBeforeData(f.pieces))
            && (rs[k].ret < 0 <==> UpToEmpty(f.pieces) == f.pieces && f.end.Broken?)
            && k <= |ToRead(a, ss[0])|
  {
    hide ReadCall, Pending, Joined, NoEmptyBeforeData;
    ReadsUpToEmpty(a, ss, sizes, rs, k);
    assert (rs[k], ss[k + 1]) == ReadCall(a, ss[k], sizes[k]);
    ReadTakesFront(a, ss[k], sizes[k]);
    var f, g := Pending(a, ss[0]), Pending(a, ss[k]);
    assert g.pieces == [] || g.pieces[0] == [];
    AllBeforeEmptyIff(f.pieces);
    UpToEmptyIsPart(f.pieces);
  }

  lemma {:induction false} UpToEmptyIsPart(ps: seq<Bytes>)
    ensures |Flat(UpToEmpty(ps))| <= |Flat(ps)|
  {
    if ps != [] && ps[0] != [] {
      UpToEmptyIsPart(ps[1..]);
      assert UpToEmpty(ps)[1..] == UpToEmpty(ps[1..]);
    }
  }

  // ----- streams from an honest peer -----

  /** The contents of the records, empty ones included. */
  ghost function Payloads(items: seq<Item>): seq<Bytes> {
    if items == [] then []
    else if items[0].Data? then [items[0].data] + Payloads(items[1..])
    else Payloads(items[1..])
  }

  ghost predicate OnlyApp(items: seq<Item>) {
    forall i | 0 <= i < |items| :: items[i].Data? ==> items[i].kind == CT_APP
  }

  /** The connection behind `items`, with `rest` still to come. */
  ghost function Behind(s: Side, items: seq<Item>, rest: Bytes): Side
    requires WfSide(s)
  {
    s.(rd := After(s.rd, items), input := rest)
  }

  lemma {:induction false} BehindIsWf(s: Side, items: seq<Item>, rest: Bytes)
    requires WfSide(s)
    ensures WfSide(Behind(s, items, rest)) && After(s.rd, items) == s.rd.(n := After(s.rd, items).n)
    decreases |items|
  {
    if items != [] {
      var e' := if items[0].Data? then Next(s.rd) else s.rd;
      BehindIsWf(s.(rd := e'), items[1..], rest);
    }
  }

  lemma FlowOfDummy(a: Aead, s: Side, x: Byte, y: Byte, rest: Bytes)
    requires WfSide(s) && s.input == [CT_CHANGE_CIPHER, x, y, 0, 1] + [1] + rest
    ensures FlowOf(a, s) == FlowOf(a, s.(input := rest))
  {
    hide Recv, PostHandshake;
    RecvWhole(a, s.rd, [CT_CHANGE_CIPHER, x, y, 0, 1], [1], rest);
    FlowStep(a, s, s.(input := rest));
  }

  lemma FlowOfData(a: Aead, s: Side, data: Bytes, rest: Bytes)
    requires Correct(a) && WfSide(s) && s.rd.enc && |data| <= MAX_PLAIN
    requires s.input == Wire(a, s.rd, CT_APP, data) + rest
    ensures var f := FlowOf(a, s.(rd := Next(s.rd), input := rest)); FlowOf(a, s) == f.(pieces := [data] + f.pieces)
  {
    hide Recv, Wire, PostHandshake, Correct;
    RecvSent(a, s.rd, CT_APP, data, rest);
  }

  /** The first record in front of all that follows. */
  lemma FirstOnTheWire(a: Aead, e: Epoch, items: seq<Item>, rest: Bytes)
    requires WfEpoch(e) && Fits(items) && items != []
    ensures var tail := WireAll(a, if items[0].Data? then Next(e) else e, items[1..]) + rest;
            WireAll(a, e, items) + rest
            == if items[0].Data? then Wire(a, e, items[0].kind, items[0].data) + tail
               else [CT_CHANGE_CIPHER, items[0].major, items[0].minor, 0, 1] + [1] + tail
  {
    hide Wire;
  }

  /** The connection behind the first record. */
  ghost function BehindFirst(a: Aead, s: Side, items: seq<Item>, rest: Bytes): (t: Side)
    requires WfSide(s) && Fits(items) && items != []
    ensures WfSide(t)
  {
    var e := if items[0].Data? then Next(s.rd) else s.rd;
    s.(rd := e, input := WireAll(a, e, items[1..]) + rest)
  }

  lemma FlowOfFirst(a: Aead, s: Side, items: seq<Item>, rest: Bytes)
    requires Correct(a) && WfSide(s) && s.rd.enc && Fits(items) && OnlyApp(items) && items != []
    requires s.input == WireAll(a, s.rd, items) + rest
    ensures var f := FlowOf(a, BehindFirst(a, s, items, rest));
            FlowOf(a, s) == if items[0].Data? then f.(pieces := [items[0].data] + f.pieces) else f
  {
    FirstOnTheWire(a, s.rd, items, rest);
    hide Wire, WireAll, FlowOf, Correct;
    var t := BehindFirst(a, s, items, rest);
    match items[0]
    case Dummy(x, y) => FlowOfDummy(a, s, x, y, t.input);
    case Data(kind, data) => FlowOfData(a, s, data, t.input);
  }

  /** What the peer wrote comes out record by record, in front of whatever follows. */
  lemma {:induction false} FlowOfWire(a: Aead, s: Side, items: seq<Item>, rest: Bytes)
    requires Correct(a) && WfSide(s) && s.rd.enc && Fits(items) && OnlyApp(items)
    requires s.input == WireAll(a, s.rd, items) + rest
    ensures WfSide(Behind(s, items, rest))
    ensures var f := FlowOf(a, Behind(s, items, rest)); FlowOf(a, s) == f.(pieces := Payloads(items) + f.pieces)
    decreases |items|
  {
    hide WireAll, FlowOf, Correct, Behind, OnlyApp, Payloads;
    BehindIsWf(s, items, rest);
    PayloadsStep(items);
    if items == [] {
      NothingBehind(a, s, items, rest);
    } else {
      var t := BehindFirst(a, s, items, rest);
      BehindStep(a, s, items, rest);
      FlowOfFirst(a, s, items, rest);
      FlowOfWire(a, t, items[1..], rest);
      var f := FlowOf(a, Behind(s, items, rest));
      if items[0].Data? {
        assert [items[0].data] + (Payloads(items[1..]) + f.pieces) == Payloads(items) + f.pieces;
      }
    }
  }

  lemma PayloadsStep(items: seq<Item>)
    ensures items == [] ==> Payloads(items) == []
    ensures items != [] ==>
              Payloads(items) == (if items[0].Data? then [items[0].data] else []) + Payloads(items[1..])
  {
  }

  lemma NothingBehind(a: Aead, s: Side, items: seq<Item>, rest: Bytes)
    requires WfSide(s) && items == [] && s.input == WireAll(a, s.rd, items) + rest
    ensures Behind(s, items, rest) == s
  {
    assert s.input == rest;
  }

  lemma BehindStep(a: Aead, s: Side, items: seq<Item>, rest: Bytes)
    requires WfSide(s) && Fits(items) && OnlyApp(items) && items != []
    ensures var t := BehindFirst(a, s, items, rest);
            && Behind(t, items[1..], rest) == Behind(s, items, rest) && OnlyApp(items[1..]) && t.rd.enc == s.rd.enc
            && t.input == WireAll(a, t.rd, items[1..]) + rest
  {
    hide WireAll;
  }

  /** Two streams whose next record is the same. */
  lemma FlowStep(a: Aead, s: Side, s1: Side)
    requires WfSide(s) && s1 == s.(input := s1.input) && Recv(a, s.rd, s.input) == Recv(a, s.rd, s1.input)
    ensures FlowOf(a, s) == FlowOf(a, s1)
  {
    hide Recv, PostHandshake;
    var r := Recv(a, s.rd, s.input);
    assert s.(rd := r.e, input := r.rest) == s1.(rd := r.e, input := r.rest);
  }

  /** The end of a stream, with a close_notify or without. */
  ghost function Farewell(a: Aead, e: Epoch, notify: bool): Bytes
    requires WfEpoch(e)
  {
    if notify then Wire(a, e, CT_ALERT, [1, 0]) else []
  }

  lemma FlowOfFarewell(a: Aead, s: Side, notify: bool)
    requires Correct(a) && WfSide(s) && s.rd.enc && s.input == Farewell(a, s.rd, notify)
    ensures FlowOf(a, s) == Flow([], if notify then CloseNotify else Truncated)
  {
    hide Recv, Wire, PostHandshake;
    if notify {
      assert s.input == s.input + [];
      RecvSent(a, s.rd, CT_ALERT, [1, 0], []);
    } else {
      RecvStuck(a, s.rd, []);
    }
  }

  /** All that an honest peer sends: application data, dummies between, and the end. */
  ghost predicate HonestStream(a: Aead, s: Side, items: seq<Item>, notify: bool) {
    && Correct(a) && WfSide(s) && s.rd.enc && s.app == [] && !s.closed && Fits(items) && OnlyApp(items)
    && WfEpoch(After(s.rd, items)) && s.input == WireAll(a, s.rd, items) + Farewell(a, After(s.rd, items), notify)
  }

  lemma PendingOfHonest(a: Aead, s: Side, items: seq<Item>, notify: bool)
    requires HonestStream(a, s, items, notify)
    ensures Pending(a, s) == Flow(Payloads(items), if notify then CloseNotify else Truncated)
  {
    hide WireAll, FlowOf, After, Payloads;
    var rest := Farewell(a, After(s.rd, items), notify);
    FlowOfWire(a, s, items, rest);
    BehindIsWf(s, items, rest);
    FlowOfFarewell(a, Behind(s, items, rest), notify);
    assert s.(app := []) == s && Payloads(items) + [] == Payloads(items);
  }

  lemma {:induction false} FlatPayloads(items: seq<Item>)
    ensures Flat(Payloads(items)) == Carried(items)
  {
    if items != [] {
      FlatPayloads(items[1..]);
      if items[0].Data? {
        assert Payloads(items)[1..] == Payloads(items[1..]);
      }
    }
  }

  /** What the peer wrote in any pieces is read in any pieces, by a caller that also goes on after
      a 0: in order, and complete once the connection is closed. */
  lemma ReadsReturnWhatWasWritten(a: Aead, ss: seq<Side>, sizes: seq<nat>, rs: seq<Answer>, k: nat, items: seq<Item>,
                                  notify: bool)
    requires AreReads(a, ss, sizes, rs) && k < |ss| && forall j | 0 <= j < k :: rs[j].ret >= 0
    requires HonestStream(a, ss[0], items, notify)
    ensures Joined(rs[..k]) <= Carried(items)
    ensures ss[k].closed ==> Joined(rs[..k]) == Carried(items)
  {
    hide ReadCall, FlowOf, Joined, Payloads, Carried, HonestStream;
    PendingOfHonest(a, ss[0], items, notify);
    FlatPayloads(items);
    ReadsJoin(a, ss, sizes, rs, k);
    assert ToRead(a, ss[0]) == Carried(items);
  }

  /** A caller that stops at the first return that is not positive gets a 0 there, and has all that the
      peer wrote if and only if the peer sent no empty record before more data. */
  lemma StoppingAtZero(a: Aead, ss: seq<Side>, sizes: seq<nat>, rs: seq<Answer>, k: nat, items: seq<Item>, notify: bool)
    requires AreReads(a, ss, sizes, rs) && k < |rs| && forall j | 0 <= j <= k :: sizes[j] > 0
    requires rs[k].ret <= 0 && forall j | 0 <= j < k :: rs[j].ret > 0
    requires HonestStream(a, ss[0], items, notify)
    ensures rs[k].ret == 0
    ensures Joined(rs[..k]) == Carried(items) <==> NoEmptyBeforeData(Payloads(items))
  {
    hide ReadCall, Pending, Joined, Payloads, Carried, HonestStream, NoEmptyBeforeData, UpToEmpty;
    PendingOfHonest(a, ss[0], items, notify);
    FlatPayloads(items);
    ReadsUntilZero(a, ss, sizes, rs, k);
  }

  /** An empty record in front of a byte: a read returns 0 and the byte is still to come. */
  lemma {:induction false} EmptyRecordReadsAsEnd(a: Aead, s: Side, n: nat, notify: bool)
    requires n > 0 && HonestStream(a, s, [Data(CT_APP, []), Data(CT_APP, [7])], notify)
    ensures var (r, s') := ReadCall(a, s, n); r == Answer(0, []) && ToRead(a, s') == [7] && !s'.closed
  {
    hide Recv, PostHandshake;
    var items := [Data(CT_APP, []), Data(CT_APP, [7])];
    PendingOfHonest(a, s, items, notify);
    assert items[1..] == [Data(CT_APP, [7])] && items[1..][1..] == [];
    assert Payloads([Data(CT_APP, [7])]) == [[7]];
    assert Payloads(items) == [[], [7]];
    ReadTakesFront(a, s, n);
    assert Pending(a, s).pieces[1..] == [[7]];
    assert Flat([[7]]) == [7];
  }

  /** An end of the stream is reported as a close_notify is. */
  lemma EndWithoutNotify(a: Aead, s: Side, t: Side, n: nat)
    requires n > 0 && HonestStream(a, s, [], false) && HonestStream(a, t, [], true)
    ensures ReadCall(a, s, n).0 == ReadCall(a, t, n).0 == Answer(0, [])
  {
    hide ReadCall;
    PendingOfHonest(a, s, [], false);
    PendingOfHonest(a, t, [], true);
    ReadTakesFront(a, s, n);
    ReadTakesFront(a, t, n);
  }
}
