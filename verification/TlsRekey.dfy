/** Key updates over a whole connection (sections 4.6.3, 5.3 and 7.2 of RFC 8446): the nonces that the
    client seals under, and what it reads behind the peer's update. */
module TlsRekey {
  import opened Common
  import opened TlsRecord
  import opened TlsHandshake
  import opened TlsApp

  // ----- the records that a connection seals -----

  /** A record sealed, and whether the counter starts again behind it. */
  datatype Act = Act(kind: Byte, data: Bytes, restart: bool)

  ghost predicate WfActs(acts: seq<Act>) {
    forall i | 0 <= i < |acts| :: |acts[i].data| <= MAX_PLAIN
  }

  function Restarted(e: Epoch, restart: bool): Epoch {
    if restart then e.(n := 0) else e
  }

  /** The epoch that record `i` is sealed in. */
  ghost function EpochAt(e: Epoch, acts: seq<Act>, i: nat): (r: Epoch)
    requires WfEpoch(e) && i <= |acts|
    ensures WfEpoch(r) && r == e.(n := r.n)
  {
    if i == 0 then e else Restarted(Next(EpochAt(e, acts, i - 1)), acts[i - 1].restart)
  }

  /** The socket behind the first `i` records. */
  ghost function OutAt(a: Aead, e: Epoch, o: Out, acts: seq<Act>, i: nat): Out
    requires WfEpoch(e) && WfActs(acts) && i <= |acts|
  {
    if i == 0 then o
    else Sent(OutAt(a, e, o, acts, i - 1), Wire(a, EpochAt(e, acts, i - 1), acts[i - 1].kind, acts[i - 1].data))
  }

  /** From `s` to `t` exactly these records were sealed, one behind the other. */
  ghost predicate Seals(a: Aead, s: Side, acts: seq<Act>, t: Side) {
    && WfSide(s) && WfSide(t) && WfActs(acts)
    && t.wr == EpochAt(s.wr, acts, |acts|) && t.out == OutAt(a, s.wr, s.out, acts, |acts|)
  }

  lemma {:induction false} EpochAppend(e: Epoch, x: seq<Act>, y: seq<Act>, j: nat)
    requires WfEpoch(e) && j <= |y|
    ensures EpochAt(e, x + y, |x| + j) == EpochAt(EpochAt(e, x, |x|), y, j)
    decreases j
  {
    if j == 0 {
      EpochPrefix(e, x, y, |x|);
    } else {
      EpochAppend(e, x, y, j - 1);
      assert (x + y)[|x| + j - 1] == y[j - 1];
    }
  }

  lemma {:induction false} EpochPrefix(e: Epoch, x: seq<Act>, y: seq<Act>, i: nat)
    requires WfEpoch(e) && i <= |x|
    ensures EpochAt(e, x + y, i) == EpochAt(e, x, i)
  {
    if i > 0 {
      EpochPrefix(e, x, y, i - 1);
    }
  }

  lemma {:induction false} OutPrefix(a: Aead, e: Epoch, o: Out, x: seq<Act>, y: seq<Act>, i: nat)
    requires WfEpoch(e) && WfActs(x) && WfActs(x + y) && i <= |x|
    ensures OutAt(a, e, o, x + y, i) == OutAt(a, e, o, x, i)
  {
    hide Sent, Wire;
    if i > 0 {
      OutPrefix(a, e, o, x, y, i - 1);
      EpochPrefix(e, x, y, i - 1);
    }
  }

  lemma {:induction false} OutAppend(a: Aead, e: Epoch, o: Out, x: seq<Act>, y: seq<Act>, j: nat)
    requires WfEpoch(e) && WfActs(x) && WfActs(y) && WfActs(x + y) && j <= |y|
    ensures OutAt(a, e, o, x + y, |x| + j) == OutAt(a, EpochAt(e, x, |x|), OutAt(a, e, o, x, |x|), y, j)
    decreases j
  {
    hide Sent, Wire;
    if j == 0 {
      OutPrefix(a, e, o, x, y, |x|);
    } else {
      OutAppend(a, e, o, x, y, j - 1);
      EpochAppend(e, x, y, j - 1);
      assert (x + y)[|x| + j - 1] == y[j - 1];
    }
  }

  /** Records sealed one after the other. */
  lemma SealsJoin(a: Aead, s: Side, x: seq<Act>, t: Side, y: seq<Act>, u: Side)
    requires Seals(a, s, x, t) && Seals(a, t, y, u)
    ensures Seals(a, s, x + y, u)
  {
    hide Sent, Wire, EpochAt, OutAt;
    assert WfActs(x + y);
    EpochAppend(s.wr, x, y, |y|);
    OutAppend(a, s.wr, s.out, x, y, |y|);
  }

  lemma SealsOne(a: Aead, s: Side, kind: Byte, data: Bytes, restart: bool)
    requires WfSide(s) && |data| <= MAX_PLAIN
    ensures var t := SendOne(a, s, kind, data).1;
            Seals(a, s, [Act(kind, data, restart)], t.(wr := Restarted(t.wr, restart)))
  {
    hide Sent, Wire;
    var acts := [Act(kind, data, restart)];
    assert EpochAt(s.wr, acts, 0) == s.wr && OutAt(a, s.wr, s.out, acts, 0) == s.out;
    assert EpochAt(s.wr, acts, 1) == Restarted(Next(s.wr), restart);
  }

  lemma SealsNone(a: Aead, s: Side, t: Side)
    requires WfSide(s) && WfSide(t) && t.wr == s.wr && t.out == s.out
    ensures Seals(a, s, [], t)
  {
  }

  /** Only the writing side and the socket count. */
  lemma SealsSame(a: Aead, s: Side, acts: seq<Act>, t: Side, s': Side, t': Side)
    requires Seals(a, s, acts, t) && WfSide(s') && WfSide(t')
    requires s'.wr == s.wr && s'.out == s.out && t'.wr == t.wr && t'.out == t.out
    ensures Seals(a, s', acts, t')
  {
    hide EpochAt, OutAt;
  }

  // ----- what each call seals -----

  /** The answers to the key updates of a record. */
  function PostActs(a: Aead, data: Bytes, o: nat, s: Side): seq<Act>
    requires WfSide(s) && o <= |data|
    decreases |data| - o
  {
    if o + 4 > |data| then []
    else
      var len, b := LengthAt(data, o), o + 4;
      if b + len > |data| then []
      else if data[o] == HS_NEW_SESSION_TICKET then PostActs(a, data, b + len, s)
      else if data[o] != HS_KEY_UPDATE || len != 1 then []
      else if data[b] != 1 then PostActs(a, data, b + 1, PeerUpdated(s))
      else
        var (ok, s1) := SendOne(a, PeerUpdated(s), CT_HANDSHAKE, UpdateReply());
        if !ok then [Act(CT_HANDSHAKE, UpdateReply(), false)]
        else
          var data' := if s.wr.enc then Overlay(data, UpdateReply() + [CT_HANDSHAKE]) else data;
          [Act(CT_HANDSHAKE, UpdateReply(), true)] + PostActs(a, data', b + 1, OwnUpdated(s1))
  }

  lemma {:induction false} PostSeals(a: Aead, data: Bytes, o: nat, s: Side)
    requires WfSide(s) && o <= |data|
    ensures Seals(a, s, PostActs(a, data, o, s), PostHandshake(a, data, o, s).1)
    decreases |data| - o
  {
    hide Seals, SendOne, Overlay, LengthAt;
    if o + 4 > |data| {
      SealsNone(a, s, s);
    } else {
      var len, b := LengthAt(data, o), o + 4;
      PostStep(a, data, o, s);
      if b + len > |data| || (data[o] != HS_NEW_SESSION_TICKET && (data[o] != HS_KEY_UPDATE || len != 1)) {
        SealsNone(a, s, s);
      } else if data[o] == HS_NEW_SESSION_TICKET {
        PostSeals(a, data, b + len, s);
      } else {
        var s0 := PeerUpdated(s);
        if data[b] != 1 {
          PostSeals(a, data, b + 1, s0);
          var t := PostHandshake(a, data, o, s).1;
          SealsSame(a, s0, PostActs(a, data, b + 1, s0), t, s, t);
        } else {
          var r := SendOne(a, s0, CT_HANDSHAKE, UpdateReply());
          var act := Act(CT_HANDSHAKE, UpdateReply(), r.0);
          var s1 := if r.0 then OwnUpdated(r.1) else r.1;
          SealsOne(a, s0, CT_HANDSHAKE, UpdateReply(), r.0);
          SealsSame(a, s0, [act], r.1.(wr := Restarted(r.1.wr, r.0)), s, s1);
          if r.0 {
            var data' := if s.wr.enc then Overlay(data, UpdateReply() + [CT_HANDSHAKE]) else data;
            PostSeals(a, data', b + 1, s1);
            SealsJoin(a, s, [act], s1, PostActs(a, data', b + 1, s1), PostHandshake(a, data, o, s).1);
          }
        }
      }
    }
  }

  function ReadActs(a: Aead, s: Side, n: nat): seq<Act>
    requires WfSide(s)
    decreases |s.input|
  {
    if s.closed || n == 0 || s.app != [] then []
    else
      var r := Recv(a, s.rd, s.input);
      var s1 := s.(rd := r.e, input := r.rest);
      if !r.outcome.Rec? || r.outcome.kind != CT_HANDSHAKE then []
      else
        var p := PostHandshake(a, r.outcome.data, 0, s1);
        PostActs(a, r.outcome.data, 0, s1) + (if p.0 then ReadActs(a, p.1, n) else [])
  }

  lemma {:induction false} ReadSeals(a: Aead, s: Side, n: nat)
    requires WfSide(s)
    ensures Seals(a, s, ReadActs(a, s, n), ReadCall(a, s, n).1)
    decreases |s.input|
  {
    hide Seals, Recv, PostHandshake, PostActs;
    var t := ReadCall(a, s, n).1;
    if s.closed || n == 0 || s.app != [] {
      SealsNone(a, s, t);
    } else {
      var r := Recv(a, s.rd, s.input);
      var s1 := s.(rd := r.e, input := r.rest);
      if !r.outcome.Rec? || r.outcome.kind != CT_HANDSHAKE {
        SealsNone(a, s, t);
      } else {
        var p := PostHandshake(a, r.outcome.data, 0, s1);
        var acts := PostActs(a, r.outcome.data, 0, s1);
        PostSeals(a, r.outcome.data, 0, s1);
        SealsSame(a, s1, acts, p.1, s, p.1);
        if p.0 {
          ReadSeals(a, p.1, n);
          SealsJoin(a, s, acts, p.1, ReadActs(a, p.1, n), t);
        } else {
          assert acts + [] == acts;
        }
      }
    }
  }

  datatype Call = Reading(n: nat) | Writing(data: Bytes) | Closing

  function Made(a: Aead, s: Side, c: Call): (r: Side)
    requires WfSide(s)
    ensures WfSide(r)
  {
    match c
    case Reading(n) => ReadCall(a, s, n).1
    case Writing(data) => WriteCall(a, s, data).1
    case Closing => CloseCall(a, s).1
  }

  function CallActs(a: Aead, s: Side, c: Call): seq<Act>
    requires WfSide(s)
  {
    match c
    case Reading(n) => ReadActs(a, s, n)
    case Writing(data) => if s.closed then [] else [Act(CT_APP, data[..Min(|data|, MAX_PLAIN)], false)]
    case Closing => if s.closed then [] else [Act(CT_ALERT, [1, 0], false)]
  }

  lemma CallSeals(a: Aead, s: Side, c: Call)
    requires WfSide(s)
    ensures Seals(a, s, CallActs(a, s, c), Made(a, s, c))
  {
    hide Seals, Wire, Sent, ReadCall, ReadActs;
    match c
    case Reading(n) =>
      ReadSeals(a, s, n);
    case Writing(data) =>
      if s.closed {
        SealsNone(a, s, s);
      } else {
        var d := data[..Min(|data|, MAX_PLAIN)];
        SealsOne(a, s, CT_APP, d, false);
        SealsSame(a, s, [Act(CT_APP, d, false)], SendOne(a, s, CT_APP, d).1, s, Made(a, s, c));
      }
    case Closing =>
      if s.closed {
        SealsNone(a, s, s);
      } else {
        SealsOne(a, s, CT_ALERT, [1, 0], false);
        SealsSame(a, s, [Act(CT_ALERT, [1, 0], false)], SendOne(a, s, CT_ALERT, [1, 0]).1, s, Made(a, s, c));
      }
  }

  // ----- a whole connection -----

  ghost function MadeAll(a: Aead, s: Side, cs: seq<Call>): (r: Side)
    requires WfSide(s)
    ensures WfSide(r)
    decreases |cs|
  {
    if cs == [] then s else MadeAll(a, Made(a, s, cs[0]), cs[1..])
  }

  /** The records sealed over all calls. */
  ghost function AllActs(a: Aead, s: Side, cs: seq<Call>): seq<Act>
    requires WfSide(s)
    decreases |cs|
  {
    if cs == [] then [] else CallActs(a, s, cs[0]) + AllActs(a, Made(a, s, cs[0]), cs[1..])
  }

  /** What goes out over a connection is exactly its records, each sealed in the epoch of its place. */
  lemma {:induction false} ConnectionSeals(a: Aead, s: Side, cs: seq<Call>)
    requires WfSide(s)
    ensures Seals(a, s, AllActs(a, s, cs), MadeAll(a, s, cs))
    decreases |cs|
  {
    hide Seals, Made, CallActs;
    if cs == [] {
      SealsNone(a, s, s);
    } else {
      var t := Made(a, s, cs[0]);
      CallSeals(a, s, cs[0]);
      ConnectionSeals(a, t, cs[1..]);
      SealsJoin(a, s, CallActs(a, s, cs[0]), t, AllActs(a, t, cs[1..]), MadeAll(a, s, cs));
    }
  }

  ghost function NonceAt(e: Epoch, acts: seq<Act>, i: nat): Bytes
    requires WfEpoch(e) && i <= |acts|
  {
    Nonce(e.iv, EpochAt(e, acts, i).n)
  }

  /** All records of one epoch are sealed under its one key; no two of them under one nonce. */
  ghost predicate NoncesDistinct(e: Epoch, acts: seq<Act>)
    requires WfEpoch(e)
  {
    forall i, j | 0 <= i < j < |acts| :: NonceAt(e, acts, i) != NonceAt(e, acts, j)
  }

  ghost predicate RestartOnlyLast(acts: seq<Act>) {
    forall i | 0 <= i < |acts| - 1 :: !acts[i].restart
  }

  lemma {:induction false} CountsUp(e: Epoch, acts: seq<Act>, i: nat)
    requires WfEpoch(e) && e.enc && e.n == 0 && i <= |acts| < RANGE64
    requires forall j | 0 <= j < i :: !acts[j].restart
    ensures EpochAt(e, acts, i).n == i
  {
    if i > 0 {
      CountsUp(e, acts, i - 1);
    }
  }

  /** Under counters from 0 on no nonce is used twice if and only if no record follows one behind which
      the counter starts again. */
  lemma NoncesDistinctIff(e: Epoch, acts: seq<Act>)
    requires WfEpoch(e) && e.enc && e.n == 0 && |acts| < RANGE64
    ensures NoncesDistinct(e, acts) <==> RestartOnlyLast(acts)
  {
    hide Nonce;
    if RestartOnlyLast(acts) {
      forall i, j | 0 <= i < j < |acts|
        ensures NonceAt(e, acts, i) != NonceAt(e, acts, j)
      {
        CountsUp(e, acts, i);
        CountsUp(e, acts, j);
        if NonceAt(e, acts, i) == NonceAt(e, acts, j) { NonceInjective(e.iv, i, j); }
      }
    } else {
      var i :| 0 <= i < |acts| - 1 && acts[i].restart;
      assert EpochAt(e, acts, i + 1).n == 0 == EpochAt(e, acts, 0).n;
      assert NonceAt(e, acts, 0) == NonceAt(e, acts, i + 1);
    }
  }

  /** Over a connection from the start of application data on no nonce is used twice if and only if
      nothing is sent behind the answer to a key update. */
  lemma ConnectionNonces(a: Aead, s: Side, cs: seq<Call>)
    requires WfSide(s) && s.wr.enc && s.wr.n == 0 && |AllActs(a, s, cs)| < RANGE64
    ensures Seals(a, s, AllActs(a, s, cs), MadeAll(a, s, cs))
    ensures NoncesDistinct(s.wr, AllActs(a, s, cs)) <==> RestartOnlyLast(AllActs(a, s, cs))
  {
    hide Seals, NoncesDistinct, RestartOnlyLast, AllActs, MadeAll;
    ConnectionSeals(a, s, cs);
    NoncesDistinctIff(s.wr, AllActs(a, s, cs));
  }

  // ----- a key update on the way -----

  function UpdateMessage(requested: Byte): (m: Bytes)
    ensures |m| == 5
  {
    [24, 0, 0, 1, requested]
  }

  /** The connection behind a key update of the peer, answered if that is asked for. */
  ghost function Updated(a: Aead, s: Side, requested: Byte): (t: Side)
    requires WfSide(s)
    ensures WfSide(t)
  {
    if requested != 1 then PeerUpdated(s) else OwnUpdated(SendOne(a, PeerUpdated(s), CT_HANDSHAKE, UpdateReply()).1)
  }

  /** An answer, if one is asked for, goes out. */
  ghost predicate CanAnswer(a: Aead, s: Side, requested: Byte)
    requires WfSide(s)
  {
    requested == 1 ==> SendOne(a, PeerUpdated(s), CT_HANDSHAKE, UpdateReply()).0
  }

  lemma {:induction false} PostUpdate(a: Aead, s: Side, requested: Byte)
    requires WfSide(s) && CanAnswer(a, s, requested)
    ensures PostHandshake(a, UpdateMessage(requested), 0, s) == (true, Updated(a, s, requested))
    ensures PostActs(a, UpdateMessage(requested), 0, s)
         == if requested == 1 then [Act(CT_HANDSHAKE, UpdateReply(), true)] else []
  {
    hide SendOne, Overlay;
    var m := UpdateMessage(requested);
    assert LengthAt(m, 0) == 1;
    hide LengthAt;
    PostStep(a, m, 0, s);
    var t := Updated(a, s, requested);
    if requested != 1 {
      PostEnd(a, m, 5, t);
    } else {
      var m' := if s.wr.enc then Overlay(m, UpdateReply() + [CT_HANDSHAKE]) else m;
      PostEnd(a, m', 5, t);
    }
  }

  /** What comes behind the update is read with the old key and iv from record 0 on. */
  lemma FlowOfUpdate(a: Aead, s: Side, requested: Byte, rest: Bytes)
    requires Correct(a) && WfSide(s) && s.rd.enc
    requires s.input == Wire(a, s.rd, CT_HANDSHAKE, UpdateMessage(requested)) + rest
    requires CanAnswer(a, s.(rd := Next(s.rd), input := rest), requested)
    ensures var t := Updated(a, s.(rd := Next(s.rd), input := rest), requested);
            FlowOf(a, s) == FlowOf(a, t) && t.rd == s.rd.(n := 0) && t.input == rest
  {
    hide Recv, Wire, PostHandshake;
    RecvSent(a, s.rd, CT_HANDSHAKE, UpdateMessage(requested), rest);
    PostUpdate(a, s.(rd := Next(s.rd), input := rest), requested);
  }

  ghost predicate AnyData(items: seq<Item>) {
    exists i :: 0 <= i < |items| && items[i].Data?
  }

  /** A stream sealed under another key: the first record in it is an error. */
  lemma {:induction false} FlowOfForeign(a: Aead, s: Side, e: Epoch, items: seq<Item>)
    requires Correct(a) && WfSide(s) && s.rd.enc && WfEpoch(e) && e.enc && KeysApart(a, s.rd.key, e.key) && Fits(items)
    requires s.input == WireAll(a, e, items)
    ensures FlowOf(a, s) == Flow([], if AnyData(items) then Broken else Truncated)
    decreases |items|
  {
    hide Recv, PostHandshake, Nonce, KeysApart, Correct;
    if items == [] {
      RecvStuck(a, s.rd, []);
    } else {
      match items[0]
      case Dummy(x, y) =>
        var s1 := s.(input := WireAll(a, e, items[1..]));
        FlowOfForeign(a, s1, e, items[1..]);
        assert s.input == [CT_CHANGE_CIPHER, x, y, 0, 1] + [1] + s1.input;
        FlowOfDummy(a, s, x, y, s1.input);
        SameData(items);
      case Data(kind, data) =>
        assert items[0].Data?;
        ForeignRecord(a, s.rd, e, kind, data, WireAll(a, Next(e), items[1..]));
    }
  }

  lemma SameData(items: seq<Item>)
    requires items != [] && !items[0].Data?
    ensures AnyData(items) <==> AnyData(items[1..])
  {
    if i :| 0 <= i < |items| && items[i].Data? {
      assert items[1..][i - 1].Data?;
    }
    if i :| 0 <= i < |items[1..]| && items[1..][i].Data? {
      assert items[i + 1].Data?;
    }
  }

  lemma ForeignRecord(a: Aead, e: Epoch, f: Epoch, kind: Byte, data: Bytes, rest: Bytes)
    requires Correct(a) && WfEpoch(e) && WfEpoch(f) && e.enc && f.enc && KeysApart(a, e.key, f.key)
    requires |data| <= MAX_PLAIN
    ensures Recv(a, e, Wire(a, f, kind, data) + rest).outcome == Failed
  {
    hide Recv, Nonce;
    var hdr := Header(CT_APP, |data| + 1 + TAG_LEN);
    var body := a.seal(f.key, Nonce(f.iv, f.n), hdr, data + [kind]);
    assert |body| == |data| + 1 + TAG_LEN;
    RecvWhole(a, e, hdr, body, rest);
  }

  lemma AnswerFits(a: Aead, s: Side, requested: Byte)
    requires Correct(a) && WfSide(s) && (requested == 1 ==> s.out.room >= 27)
    ensures CanAnswer(a, s, requested)
  {
    WireLength(a, s.wr, CT_HANDSHAKE, UpdateReply());
    hide Wire, Sent;
  }

  lemma WireLength(a: Aead, e: Epoch, kind: Byte, data: Bytes)
    requires Correct(a) && WfEpoch(e) && |data| <= MAX_PLAIN
    ensures |Wire(a, e, kind, data)| == 5 + |data| + if e.enc then 1 + TAG_LEN else 0
  {
    hide Nonce;
  }

  /** Application data under `s.rd`, a key update, and more under `e`. */
  ghost predicate UpdatedStream(a: Aead, s: Side, items: seq<Item>, requested: Byte, e: Epoch, later: seq<Item>) {
    && Correct(a) && WfSide(s) && s.rd.enc && s.app == [] && !s.closed && WfEpoch(e) && e.enc
    && Fits(items) && OnlyApp(items) && Fits(later) && OnlyApp(later) && (requested == 1 ==> s.out.room >= 27)
    && WfEpoch(After(s.rd, items))
    && s.input == WireAll(a, s.rd, items)
                  + (Wire(a, After(s.rd, items), CT_HANDSHAKE, UpdateMessage(requested)) + WireAll(a, e, later))
  }

  /** The connection when the update has been dealt with. */
  ghost function AtUpdate(a: Aead, s: Side, items: seq<Item>, requested: Byte, rest: Bytes): (t: Side)
    requires WfSide(s) && WfEpoch(After(s.rd, items))
    ensures WfSide(t)
  {
    Updated(a, s.(rd := Next(After(s.rd, items)), input := rest), requested)
  }

  lemma FlowToUpdate(a: Aead, s: Side, items: seq<Item>, requested: Byte, e: Epoch, later: seq<Item>)
    requires UpdatedStream(a, s, items, requested, e, later)
    ensures var t := AtUpdate(a, s, items, requested, WireAll(a, e, later));
            && t.rd == s.rd.(n := 0) && t.input == WireAll(a, e, later)
            && FlowOf(a, s) == FlowOf(a, t).(pieces := Payloads(items) + FlowOf(a, t).pieces)
  {
    hide WireAll, Wire, FlowOf, After, Payloads, Sent, Correct;
    var after := WireAll(a, e, later);
    var rest := Wire(a, After(s.rd, items), CT_HANDSHAKE, UpdateMessage(requested)) + after;
    BehindIsWf(s, items, rest);
    FlowOfWire(a, s, items, rest);
    var b := Behind(s, items, rest);
    AnswerFits(a, b.(rd := Next(b.rd), input := after), requested);
    FlowOfUpdate(a, b, requested, after);
    assert b.(rd := Next(b.rd), input := after) == s.(rd := Next(After(s.rd, items)), input := after);
  }

  /** Behind the peer's key update: a peer that goes on under the old key and iv is read to the end,
      and of one that goes on under a key of its own everything is read if and only if it has nothing
      more to say. */
  lemma ReadsAcrossUpdate(a: Aead, s: Side, items: seq<Item>, requested: Byte, e: Epoch, later: seq<Item>)
    requires UpdatedStream(a, s, items, requested, e, later)
    ensures e == s.rd.(n := 0) ==> Pending(a, s) == Flow(Payloads(items) + Payloads(later), Truncated)
    ensures KeysApart(a, s.rd.key, e.key) ==>
              && Pending(a, s) == Flow(Payloads(items), if AnyData(later) then Broken else Truncated)
              && (ToRead(a, s) == Carried(items) + Carried(later) <==> Carried(later) == [])
  {
    hide WireAll, FlowOf, After, Payloads, Carried, Flat, AnyData, KeysApart;
    FlowToUpdate(a, s, items, requested, e, later);
    var t := AtUpdate(a, s, items, requested, WireAll(a, e, later));
    assert s.(app := []) == s;
    if e == s.rd.(n := 0) {
      assert WireAll(a, e, later) + [] == t.input;
      FlowOfWire(a, t, later, []);
      BehindIsWf(t, later, []);
      FlowOfFarewell(a, Behind(t, later, []), false);
      assert Payloads(later) + [] == Payloads(later);
    }
    if KeysApart(a, s.rd.key, e.key) {
      FlowOfForeign(a, t, e, later);
      assert Payloads(items) + [] == Payloads(items);
      FlatPayloads(items);
      assert ToRead(a, s) == Carried(items);
      if Carried(items) == Carried(items) + Carried(later) {
        assert |Carried(later)| == 0;
      }
    }
  }

  /** A byte written, an update that asks for an answer, and another byte: the first and the third
      record are sealed under the same key and nonce. */
  lemma {:induction false} NonceUsedTwice(a: Aead, s: Side)
    requires Correct(a) && WfSide(s) && s.wr.enc && s.wr.n == 0 && s.rd.enc && s.app == [] && !s.closed
    requires s.out.room >= 100
    requires s.input == Wire(a, s.rd, CT_HANDSHAKE, UpdateMessage(1)) + [0]
    ensures var acts := AllActs(a, s, [Writing([7]), Reading(1), Writing([8])]);
            && acts == [Act(CT_APP, [7], false), Act(CT_HANDSHAKE, UpdateReply(), true), Act(CT_APP, [8], false)]
            && NonceAt(s.wr, acts, 0) == NonceAt(s.wr, acts, 2)
  {
    hide Recv, Wire, PostHandshake, PostActs, Nonce, UpdateMessage;
    var s1 := Made(a, s, Writing([7]));
    assert [7][..1] == [7] && [8][..1] == [8];
    WireLength(a, s.wr, CT_APP, [7]);
    assert s1.input == s.input && s1.rd == s.rd && s1.app == [] && !s1.closed && s1.out.room == s.out.room - 23;
    ReadsTheUpdate(a, s1);
    var s2 := Made(a, s1, Reading(1));
    var cs := [Writing([7]), Reading(1), Writing([8])];
    assert cs[1..] == [Reading(1), Writing([8])] && cs[1..][1..] == [Writing([8])] && cs[1..][1..][1..] == [];
    var acts := AllActs(a, s, cs);
    assert acts == [Act(CT_APP, [7], false)]
                   + ([Act(CT_HANDSHAKE, UpdateReply(), true)] + ([Act(CT_APP, [8], false)] + []));
    assert EpochAt(s.wr, acts, 2).n == 0 == EpochAt(s.wr, acts, 0).n;
  }

  lemma {:induction false} ReadsTheUpdate(a: Aead, s: Side)
    requires Correct(a) && WfSide(s) && s.rd.enc && s.app == [] && !s.closed && s.out.room >= 27
    requires s.input == Wire(a, s.rd, CT_HANDSHAKE, UpdateMessage(1)) + [0]
    ensures ReadActs(a, s, 1) == [Act(CT_HANDSHAKE, UpdateReply(), true)] && !ReadCall(a, s, 1).1.closed
  {
    hide Recv, Wire, PostHandshake, PostActs, UpdateMessage, SendOne, Correct;
    RecvSent(a, s.rd, CT_HANDSHAKE, UpdateMessage(1), [0]);
    var b := s.(rd := Next(s.rd), input := [0]);
    AnswerFits(a, b, 1);
    PostUpdate(a, b, 1);
    var t := Updated(a, b, 1);
    RecvStuck(a, t.rd, [0]);
    assert ReadActs(a, t, 1) == [];
    ReadCallCases(a, s, 1);
    ReadCallCases(a, t, 1);
  }
}
