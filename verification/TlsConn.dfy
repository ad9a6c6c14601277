/** A connection as src/tls.c keeps it: scratch buffers, keys and counters updated in place,
    and the socket as the bytes still to be read, the bytes written so far and the number of bytes
    it still takes. */
module TlsConn {
  import opened Common
  import opened TlsRecord
  import opened TlsHandshake
  import opened TlsApp

  /** The key schedule: the next traffic secret, and the key and iv of one. */
  datatype Kdf = Kdf(next: Bytes -> Bytes, key: Bytes -> Bytes, iv: Bytes -> Bytes)

  ghost predicate CorrectKdf(k: Kdf) {
    forall s :: |k.iv(s)| == IV_LEN
  }

  /** A traffic secret with its key and iv. */
  datatype Traffic = Traffic(secret: Bytes, key: Bytes, iv: Bytes)

  function TrafficOf(k: Kdf, secret: Bytes): Traffic {
    Traffic(secret, k.key(secret), k.iv(secret))
  }

  /** A secret renewed `n` times. */
  ghost function Renewed(k: Kdf, secret: Bytes, n: nat): Bytes {
    if n == 0 then secret else k.next(Renewed(k, secret, n - 1))
  }

  class Conn {
    const aead: Aead
    const kdf: Kdf
    const rec: array<Byte>
    const plain: array<Byte>
    const app: array<Byte>
    var appLen: nat
    var appOff: nat
    var input: Bytes
    var output: Bytes
    var room: nat
    var rdEnc: bool
    var rdKey: Bytes
    var rdIv: Bytes
    var rdSeq: nat
    var wrEnc: bool
    var wrKey: Bytes
    var wrIv: Bytes
    var wrSeq: nat
    var hs: Bytes
    var hsOff: nat
    var closed: bool
    var server: Traffic
    var client: Traffic
    ghost var server0: Bytes     // the first application secrets, and how often each was renewed
    ghost var client0: Bytes
    ghost var sGen: nat
    ghost var cGen: nat

    ghost predicate Valid()
      reads this
    {
      && Correct(aead)
      && rec != plain && rec != app && plain != app
      && rec.Length == 5 + MAX_CIPHER && plain.Length == app.Length == MAX_CIPHER
      && appOff <= appLen <= app.Length && (appLen > 0 ==> appOff < appLen)
      && WfEpoch(Rd()) && WfEpoch(Wr())
      && hsOff <= |hs|
      && Keyed()
    }

    /** The stored secrets are the first ones renewed as often as counted. */
    ghost predicate Keyed()
      reads this`server, this`client, this`server0, this`client0, this`sGen, this`cGen
    {
      && CorrectKdf(kdf)
      && server == TrafficOf(kdf, Renewed(kdf, server0, sGen))
      && client == TrafficOf(kdf, Renewed(kdf, client0, cGen))
    }

    ghost function Rd(): Epoch
      reads this
    {
      Epoch(rdEnc, rdKey, rdIv, rdSeq)
    }

    ghost function Wr(): Epoch
      reads this
    {
      Epoch(wrEnc, wrKey, wrIv, wrSeq)
    }

    /** The state that cact_tls_read works on. */
    ghost function View(): Side
      reads this, app
      requires appOff <= appLen <= app.Length
    {
      Side(Rd(), Wr(), sGen, cGen, input, Out(output, room), app[appOff..appLen], closed)
    }

    /** The handshake bytes received and not yet handed out. */
    ghost function Pending(): Bytes
      reads this
      requires hsOff <= |hs|
    {
      hs[hsOff..]
    }

    constructor (aead: Aead, kdf: Kdf, input: Bytes, room: nat)
      requires Correct(aead) && CorrectKdf(kdf)
      ensures Valid() && fresh(rec) && fresh(plain) && fresh(app) && this.aead == aead && this.kdf == kdf
      ensures this.input == input && output == [] && this.room == room && Pending() == [] && appLen == 0 && !closed
      ensures !rdEnc && !wrEnc && rdSeq == 0 && wrSeq == 0
    {
      this.aead := aead;
      this.kdf := kdf;
      this.input := input;
      this.room := room;
      output := [];
      server, client := TrafficOf(kdf, []), TrafficOf(kdf, []);
      server0, client0, sGen, cGen := [], [], 0, 0;
      rec := new Byte[5 + MAX_CIPHER];
      plain := new Byte[MAX_CIPHER];
      app := new Byte[MAX_CIPHER];
      appLen, appOff := 0, 0;
      rdEnc, rdKey, rdIv, rdSeq := false, [], seq(IV_LEN, _ => 0), 0;
      wrEnc, wrKey, wrIv, wrSeq := false, [], seq(IV_LEN, _ => 0), 0;
      hs, hsOff, closed := [], 0, false;
    }

    /** Writes `data` to `dst` from `at` on. */
    static method Put(dst: array<Byte>, at: nat, data: Bytes)
      requires at + |data| <= dst.Length
      modifies dst
      ensures dst[at..at + |data|] == data
      ensures dst[..at] == old(dst[..at])
    {
      forall i | 0 <= i < |data| {
        dst[at + i] := data[i];
      }
    }

    static method NonceFrom(iv: Bytes, n: nat) returns (nonce: Bytes)
      requires |iv| == IV_LEN
      ensures nonce == Nonce(iv, n)
    {
      nonce := iv;
      for i := 0 to 8
        invariant |nonce| == IV_LEN
        invariant forall j | 0 <= j < IV_LEN ::
                    nonce[j] == if IV_LEN - 1 - j < i then XorByte(iv[j], ByteOf(n, IV_LEN - 1 - j)) else iv[j]
      {
        var j := IV_LEN - 1 - i;
        nonce := nonce[j := XorByte(nonce[j], ByteOf(n, i))];
      }
    }

    /** Fills `dst[..n]`: 1 when it could, 0 at the end of the stream, -1 inside it. */
    method ReadFull(dst: array<Byte>, n: nat) returns (r: int)
      requires n <= dst.Length
      modifies this`input, dst
      ensures r == if n <= |old(input)| then 1 else if old(input) == [] then 0 else -1
      ensures r == 1 ==> dst[..n] == old(input)[..n] && input == old(input)[n..]
      ensures r != 1 ==> input == []
    {
      var got := if n <= |input| then n else |input|;
      Put(dst, 0, input[..got]);
      assert dst[0..0 + got] == dst[..got];
      r := if got == n then 1 else if got == 0 then 0 else -1;
      input := input[got..];
    }

    /** The inner plaintext: the content and behind it its type. */
    method FrameInner(data: Bytes, kind: Byte)
      requires |data| < plain.Length
      modifies plain
      ensures plain[..|data| + 1] == data + [kind] && plain[..] == Overlay(old(plain[..]), data + [kind])
    {
      forall i | 0 <= i < |data| {
        plain[i] := data[i];
      }
      plain[|data|] := kind;
    }

    /** write_full: each write takes some of what is left, and nothing once the socket is full. */
    method WriteFull(data: Bytes) returns (ok: bool)
      modifies this`output, this`room
      ensures ok == (|data| <= old(room)) && Out(output, room) == Sent(Out(old(output), old(room)), data)
    {
      var sent := 0;
      while sent < |data|
        invariant 0 <= sent <= |data| && output == old(output) + data[..sent] && room == old(room) - sent
      {
        if room == 0 {
          return false;
        }
        var r :| 0 < r <= |data| - sent && r <= room;
        assert data[..sent] + data[sent..sent + r] == data[..sent + r];
        output := output + data[sent..sent + r];
        room := room - r;
        sent := sent + r;
      }
      return true;
    }

    /** 0 when the record went out whole.  The counter advances as soon as a record is sealed. */
    method SendRecord(kind: Byte, data: Bytes) returns (r: int)
      requires Valid()
      modifies this`output, this`room, this`wrSeq, rec, plain
      ensures Valid()
      ensures |data| > MAX_PLAIN ==> r == -1 && View() == old(View()) && plain[..] == old(plain[..])
      ensures |data| <= MAX_PLAIN ==>
                && (r == 0, View()) == SendOne(aead, old(View()), kind, data) && (r == 0 || r == -1)
                && plain[..] == if wrEnc then Overlay(old(plain[..]), data + [kind]) else old(plain[..])
    {
      hide Overlay, Wire, Correct, Sent, Keyed;
      if |data| > MAX_PLAIN { return -1; }
      if !wrEnc {
        FramePlain(kind, data);
      } else {
        Seal(kind, data);
      }
      var n := if wrEnc then |data| + 1 + TAG_LEN else |data|;
      var ok := WriteFull(rec[..5 + n]);
      return if ok then 0 else -1;
    }

    method FramePlain(kind: Byte, data: Bytes)
      requires Valid() && !wrEnc && |data| <= MAX_PLAIN
      modifies rec
      ensures rec[..5 + |data|] == Wire(aead, Wr(), kind, data)
    {
      Put(rec, 0, Header(kind, |data|));
      assert rec[..5] == Header(kind, |data|) by { assert rec[0..0 + 5] == rec[..5]; }
      Put(rec, 5, data);
      assert rec[..5 + |data|] == rec[..5] + rec[5..5 + |data|];
    }

    method Seal(kind: Byte, data: Bytes)
      requires Valid() && wrEnc && |data| <= MAX_PLAIN
      modifies this`wrSeq, rec, plain
      ensures Wr() == Next(old(Wr())) && rec[..5 + |data| + 1 + TAG_LEN] == Wire(aead, old(Wr()), kind, data)
      ensures plain[..] == Overlay(old(plain[..]), data + [kind])
    {
      hide Overlay;
      FrameInner(data, kind);
      var inner := |data| + 1;
      Put(rec, 0, Header(CT_APP, inner + TAG_LEN));
      assert rec[..5] == Header(CT_APP, inner + TAG_LEN) by { assert rec[0..0 + 5] == rec[..5]; }
      var nonce := NonceFrom(wrIv, wrSeq);
      var sealed := aead.seal(wrKey, nonce, rec[..5], plain[..inner]);
      Put(rec, 5, sealed);
      assert rec[..5 + |sealed|] == rec[..5] + rec[5..5 + |sealed|];
      wrSeq := if wrSeq + 1 == RANGE64 then 0 else wrSeq + 1;
    }

    /** 1 for a record, which is then in `plain[..len]`; 0 at a clean end; -1 otherwise. */
    method RecvRecord() returns (r: int, kind: Byte, len: nat)
      requires Valid()
      modifies this`input, this`rdSeq, rec, plain
      ensures Valid()
      ensures var s := Recv(aead, old(Rd()), old(input));
              && Rd() == s.e && input == s.rest && len <= plain.Length
              && match s.outcome {
                   case Eof => r == 0
                   case Failed => r == -1
                   case Rec(k, data) => r == 1 && kind == k && plain[..len] == data
                 }
    {
      hide Recv, Unpack, Correct, Keyed;
      ghost var want := Recv(aead, Rd(), input);
      var hdr := new Byte[5];
      kind, len := 0, 0;
      while true
        invariant Valid() && Rd() == old(Rd()) && want == Recv(aead, Rd(), input)
        invariant fresh(hdr) && hdr.Length == 5 && kind == 0 && len == 0
        modifies this`input, this`rdSeq, rec, plain, hdr
        decreases |input|
      {
        ghost var before := input;
        r := ReadFull(hdr, 5);
        if r <= 0 {
          RecvStuck(aead, Rd(), before);
          return;
        }
        assert hdr[..] == hdr[..5] == before[..5];
        var n := LengthOf(hdr[..]);
        if n > MAX_CIPHER {
          RecvStuck(aead, Rd(), before);
          r := -1;
          return;
        }
        if n > 0 {
          var b := ReadFull(rec, n);
          if b != 1 {
            RecvStuck(aead, Rd(), before);
            r := -1;
            return;
          }
        }
        assert before == hdr[..] + rec[..n] + input;
        RecvWhole(aead, Rd(), hdr[..], rec[..n], input);
        if hdr[0] == CT_CHANGE_CIPHER {
          if n != 1 || rec[0] != 1 {
            r := -1;
            return;
          }
          assert rec[..n] == [1];
        } else {
          r, kind, len := TakeApart(hdr, n);
          return;
        }
      }
    }

    /** A record other than ChangeCipherSpec, with its header in `hdr` and its body in `rec`. */
    method TakeApart(hdr: array<Byte>, n: nat) returns (r: int, kind: Byte, len: nat)
      requires Valid() && hdr.Length == 5 && hdr != rec && hdr != plain && n <= MAX_CIPHER
      modifies this`rdSeq, plain
      ensures Valid()
      ensures var u := Unpack(aead, old(Rd()), hdr[..], rec[..n]);
              && Rd() == u.1 && len <= plain.Length
              && match u.0 {
                   case Eof => r == 0
                   case Failed => r == -1
                   case Rec(k, data) => r == 1 && kind == k && plain[..len] == data
                 }
    {
      hide Correct, Stripped, Nonce, Keyed;
      r, kind, len := -1, 0, 0;
      if !rdEnc {
        if hdr[0] != CT_HANDSHAKE && hdr[0] != CT_ALERT { return; }
        Put(plain, 0, rec[..n]);
        assert plain[0..0 + n] == plain[..n];
        return 1, hdr[0], n;
      }
      if hdr[0] != CT_APP || n < TAG_LEN { return; }
      var ok := Decrypt(hdr, n);
      if !ok { return; }
      var pt := n - TAG_LEN;
      ghost var text := plain[..pt];
      rdSeq := if rdSeq + 1 == RANGE64 then 0 else rdSeq + 1;
      var k := StripPadding(pt);
      if k == 0 { return; }
      assert plain[..k - 1] == text[..k - 1];
      return 1, plain[k - 1], k - 1;
    }

    /** The record in `rec[..n]` opened in place in `plain`. */
    method Decrypt(hdr: array<Byte>, n: nat) returns (ok: bool)
      requires Valid() && hdr.Length == 5 && hdr != rec && hdr != plain && TAG_LEN <= n <= MAX_CIPHER
      modifies plain
      ensures var text := aead.open(rdKey, Nonce(rdIv, rdSeq), hdr[..], rec[..n]);
              ok == text.Some? && (ok ==> plain[..n - TAG_LEN] == text.value)
    {
      var nonce := NonceFrom(rdIv, rdSeq);
      Put(plain, 0, rec[..n]);
      assert plain[..n] == rec[..n] by { assert plain[0..0 + n] == plain[..n]; }
      var text := aead.open(rdKey, nonce, hdr[..], plain[..n]);
      if text.None? { return false; }
      Put(plain, 0, text.value);
      assert plain[0..0 + (n - TAG_LEN)] == plain[..n - TAG_LEN];
      return true;
    }

    method StripPadding(pt: nat) returns (k: nat)
      requires pt <= plain.Length
      ensures k == Stripped(plain[..pt]) <= pt
    {
      k := pt;
      while k > 0 && plain[k - 1] == 0
        invariant k <= pt && Stripped(plain[..k]) == Stripped(plain[..pt])
      {
        assert plain[..k][..k - 1] == plain[..k - 1];
        k := k - 1;
      }
    }

    /** 1 for a message, 0 at a clean end, -1 otherwise; a close_notify closes the connection. */
    method HsNext() returns (r: int, m: Msg)
      requires Valid()
      modifies this`input, this`rdSeq, this`hs, this`hsOff, this`closed, rec, plain
      ensures Valid()
      ensures var s := TlsHandshake.HsNext(aead, old(Rd()), old(input), old(Pending()));
              && Rd() == s.e && input == s.rest && Pending() == s.buf && closed == (old(closed) || s.closed)
              && match s.outcome {
                   case Message(want) => r == 1 && m == want
                   case End(ret) => r == ret
                 }
    {
      hide Recv, Correct, Frame, TlsHandshake.HsNext, Keyed;
      ghost var want := TlsHandshake.HsNext(aead, Rd(), input, Pending());
      while true
        invariant Valid() && want == TlsHandshake.HsNext(aead, Rd(), input, Pending()) && closed == old(closed)
        decreases |input|
      {
        ghost var buf := Pending();
        if !Frame(buf).Partial? { HsNextFront(aead, Rd(), input, buf); }
        r, m := TakeBuffered();
        if r != 0 { return; }
        HsNextRecord(aead, Rd(), input, buf);
        r := Collect();
        if r != 1 { return; }
      }
    }

    /** Read one record; 1 when it was a handshake record and its bytes are collected. */
    method Collect() returns (r: int)
      requires Valid()
      modifies this`input, this`rdSeq, this`hs, this`closed, rec, plain
      ensures Valid()
      ensures var s := Recv(aead, old(Rd()), old(input));
              && Rd() == s.e && input == s.rest
              && (r == 1 <==> s.outcome.Rec? && s.outcome.kind == CT_HANDSHAKE)
              && (if r == 1 then Pending() == old(Pending()) + s.outcome.data && closed == old(closed)
                  else
                    && Pending() == old(Pending())
                    && r == (if s.outcome.Eof? then 0
                             else if s.outcome.Rec? && s.outcome.kind == CT_ALERT then AlertResult(s.outcome.data)
                             else -1)
                    && closed == (old(closed) || (s.outcome.Rec? && s.outcome.kind == CT_ALERT && r == 0)))
    {
      hide Recv, Correct, Keyed;
      var kind, len;
      r, kind, len := RecvRecord();
      if r <= 0 { return; }
      if kind == CT_HANDSHAKE {
        ghost var buf := Pending();
        hs := hs + plain[..len];
        assert Pending() == buf + plain[..len];
      } else if kind == CT_ALERT {
        r := HandleAlert(len);
      } else {
        r := -1;
      }
    }

    /** Drop the bytes handed out before, and look at the front of the buffer: 1 for a whole
        message, -1 for one that is too large, 0 when more bytes are needed. */
    method TakeBuffered() returns (r: int, m: Msg)
      requires Valid()
      modifies this`hs, this`hsOff
      ensures Valid()
      ensures match Frame(old(Pending())) {
                case Whole(want, tail) => r == 1 && m == want && Pending() == tail
                case TooLarge => r == -1 && Pending() == old(Pending())
                case Partial => r == 0 && hs == Pending() == old(Pending())
              }
    {
      r, m := 0, Msg(0, []);
      if hsOff > 0 {
        hs := hs[hsOff..];
        hsOff := 0;
      }
      if |hs| >= 4 {
        var len := MsgLength(hs);
        if len > MAX_HANDSHAKE {
          r := -1;
        } else if |hs| >= 4 + len {
          r, m := 1, Msg(hs[0], hs[4..4 + len]);
          hsOff := 4 + len;
        }
      }
    }

    method HandleAlert(len: nat) returns (r: int)
      requires len <= plain.Length
      modifies this`closed
      ensures r == AlertResult(plain[..len])
      ensures closed == (old(closed) || r == 0)
    {
      if len < 2 { return -1; }
      if plain[1] == 0 {
        closed := true;
        return 0;
      }
      return -1;
    }

    // ----- application data -----

    /** cact_tls_read for up to `len` bytes into `buf`: the number of bytes, 0 at the end, or -1. */
    method Read(buf: array<Byte>, len: nat) returns (r: int)
      requires Valid() && len <= buf.Length && buf != rec && buf != plain && buf != app
      modifies this, rec, plain, app, buf
      ensures Valid() && hs == old(hs) && hsOff == old(hsOff)
      ensures var (res, s) := ReadCall(aead, old(View()), len);
              View() == s && Reports(res, r, buf)
    {
      hide Correct, ReadCall, Keyed;
      ReadCallCases(aead, View(), len);
      r := 0;
      if closed || len == 0 {
        return 0;
      }
      ghost var want := ReadCall(aead, View(), len);
      var more := true;
      while more
        invariant Valid() && hs == old(hs) && hsOff == old(hsOff)
        invariant (more ==> !closed && want == ReadCall(aead, View(), len))
        invariant !more ==> View() == want.1 && Reports(want.0, r, buf)
        decreases more, |input|
      {
        if appOff < appLen {
          ReadCallCases(aead, View(), len);
          r := TakeLeftover(buf, len);
          more := false;
        } else {
          more, r := ReadRecord(buf, len);
        }
      }
    }

    /** The return value and the buffer that go with a result. */
    ghost predicate Reports(res: Answer, r: int, buf: array<Byte>)
      reads buf
    {
      r == res.ret && |res.bytes| <= buf.Length && buf[..|res.bytes|] == res.bytes
    }

    /** Read one record with no leftover at hand: an answer, or a handshake record dealt with and
        more to read. */
    method ReadRecord(buf: array<Byte>, len: nat) returns (more: bool, r: int)
      requires Valid() && !closed && appOff == appLen && 0 < len <= buf.Length
      requires buf != rec && buf != plain && buf != app
      modifies this, rec, plain, app, buf
      ensures Valid() && hs == old(hs) && hsOff == old(hsOff)
      ensures more ==> !closed && |input| < |old(input)|
                       && ReadCall(aead, View(), len) == ReadCall(aead, old(View()), len)
      ensures !more ==> View() == ReadCall(aead, old(View()), len).1
                        && Reports(ReadCall(aead, old(View()), len).0, r, buf)
    {
      hide Recv, Correct, ReadCall, TlsApp.PostHandshake, Keyed;
      ReadCallCases(aead, View(), len);
      more := false;
      var kind, got;
      r, kind, got := RecvRecord();
      if r <= 0 {
        closed := r == 0;
      } else if kind == CT_APP {
        r := Deliver(buf, len, got);
      } else if kind == CT_HANDSHAKE {
        more := PostHandshake(got);
        r := -1;
      } else if kind == CT_ALERT {
        r := HandleAlert(got);
      } else {
        r := -1;
      }
    }

    /** cact_tls_write: one record of at most MAX_PLAIN bytes; the number of bytes taken, or -1. */
    method Write(data: Bytes) returns (r: int)
      requires Valid()
      modifies this`output, this`room, this`wrSeq, rec, plain
      ensures Valid()
      ensures (r, View()) == WriteCall(aead, old(View()), data)
    {
      hide Wire, Correct, Sent, Overlay, Keyed;
      if closed {
        return -1;
      }
      var take := Min(|data|, MAX_PLAIN);
      var ok := SendRecord(CT_APP, data[..take]);
      return if ok != 0 then -1 else take;
    }

    /** cact_tls_close, up to the release of the memory. */
    method Close() returns (r: int)
      requires Valid()
      modifies this`output, this`room, this`wrSeq, this`closed, rec, plain
      ensures Valid()
      ensures (r, View()) == CloseCall(aead, old(View()))
    {
      hide Wire, Correct, Sent, Overlay, Keyed;
      r := 0;
      if !closed {
        r := SendRecord(CT_ALERT, [1, 0]);
        closed := true;
      }
    }

    /** setup_application_keys, from the two traffic secrets on. */
    method SetupApplicationKeys(c: Bytes, s: Bytes)
      requires Valid()
      modifies this`server, this`client, this`server0, this`client0, this`sGen, this`cGen
      ensures Valid() && server0 == s && client0 == c && sGen == 0 && cGen == 0
    {
      hide Correct, Keyed;
      SetClient(c);
      SetServer(s);
    }

    method SetClient(c: Bytes)
      requires Keyed()
      modifies this`client, this`client0, this`cGen
      ensures Keyed() && client0 == c && cGen == 0
    {
      client, client0, cGen := TrafficOf(kdf, c), c, 0;
    }

    method SetServer(s: Bytes)
      requires Keyed()
      modifies this`server, this`server0, this`sGen
      ensures Keyed() && server0 == s && sGen == 0
    {
      server, server0, sGen := TrafficOf(kdf, s), s, 0;
    }

    /** The application keys go into use, under new counters. */
    method StartApplication()
      requires Valid()
      modifies this`rdKey, this`rdIv, this`rdSeq, this`wrKey, this`wrIv, this`wrSeq, this`wrEnc
      ensures Valid()
      ensures Rd() == Epoch(rdEnc, server.key, server.iv, 0) && Wr() == Epoch(true, client.key, client.iv, 0)
    {
      hide Correct, Renewed;
      assert |client.iv| == |server.iv| == IV_LEN;
      rdKey, rdIv, rdSeq := server.key, server.iv, 0;
      wrKey, wrIv, wrSeq, wrEnc := client.key, client.iv, 0, true;
    }

    /** Hand out what an earlier record left over. */
    method TakeLeftover(buf: array<Byte>, len: nat) returns (r: int)
      requires Valid() && appOff < appLen && 0 < len <= buf.Length && buf != app && buf != rec && buf != plain
      modifies this`appOff, this`appLen, buf
      ensures Valid() && r == Min(|old(View()).app|, len)
      ensures buf[..r] == old(View()).app[..r] && View() == old(View()).(app := old(View()).app[r..])
    {
      hide Correct, Keyed;
      var left := app[appOff..appLen];
      var take := Min(appLen - appOff, len);
      Put(buf, 0, left[..take]);
      assert buf[..take] == left[..take] by { assert buf[0..0 + take] == buf[..take]; }
      appOff := appOff + take;
      assert app[appOff..appLen] == left[take..];
      if appOff == appLen {
        appOff, appLen := 0, 0;
      }
      return take;
    }

    /** Hand out the beginning of a new record and keep the rest. */
    method Deliver(buf: array<Byte>, len: nat, got: nat) returns (r: int)
      requires Valid() && appOff == appLen && got <= plain.Length
      requires len <= buf.Length && buf != app && buf != rec && buf != plain
      modifies this`appOff, this`appLen, app, buf
      ensures Valid() && r == Min(got, len)
      ensures buf[..r] == plain[..r] && View() == old(View()).(app := plain[r..got])
    {
      hide Correct, Keyed;
      var take := Min(got, len);
      Put(buf, 0, plain[..take]);
      assert buf[..take] == plain[..take] by { assert buf[0..0 + take] == buf[..take]; }
      if take < got {
        Put(app, 0, plain[take..got]);
        assert app[0..got - take] == plain[take..got] by { assert app[0..0 + (got - take)] == app[0..got - take]; }
        appLen := got - take;
        appOff := 0;
      }
      return take;
    }

    /** handle_post_handshake on the record in `plain[..len]`. */
    method PostHandshake(len: nat) returns (ok: bool)
      requires Valid() && len <= plain.Length
      modifies this`rdSeq, this`wrSeq, this`server, this`client, this`sGen, this`cGen, this`output, this`room
      modifies rec, plain
      ensures Valid()
      ensures (ok, View()) == TlsApp.PostHandshake(aead, old(plain[..len]), 0, old(View()))
    {
      hide Correct, TlsApp.PostHandshake, Keyed;
      ghost var want := TlsApp.PostHandshake(aead, plain[..len], 0, View());
      ok := true;
      var o := 0;
      while ok && o + 4 <= len
        invariant Valid() && o <= len
        invariant want == if ok then TlsApp.PostHandshake(aead, plain[..len], o, View()) else (false, View())
        decreases ok, len - o
      {
        ok, o := PostMessage(o, len);
      }
      if ok { PostEnd(aead, plain[..len], o, View()); }
    }

    /** The message at `o`; `next` is behind it. */
    method PostMessage(o: nat, len: nat) returns (ok: bool, next: nat)
      requires Valid() && o + 4 <= len <= plain.Length
      modifies this`rdSeq, this`wrSeq, this`server, this`client, this`sGen, this`cGen, this`output, this`room
      modifies rec, plain
      ensures Valid() && o < next <= len
      ensures TlsApp.PostHandshake(aead, old(plain[..len]), o, old(View()))
           == if ok then TlsApp.PostHandshake(aead, plain[..len], next, View()) else (false, View())
    {
      hide Correct, SendOne, Overlay, TlsApp.PostHandshake, LengthAt, Keyed;
      PostStep(aead, plain[..len], o, View());
      ok, next := false, o + 4;
      var mt, n := plain[o], LengthAt(plain[..len], o);
      if next + n > len {
        return;
      }
      if mt == HS_NEW_SESSION_TICKET {
      } else if mt == HS_KEY_UPDATE {
        if n != 1 {
          return;
        }
        var requested := plain[next];
        KeyUpdate(true);
        if requested == 1 {
          var sent := AnswerUpdate(len);
          if !sent {
            return;
          }
        }
      } else {
        return;
      }
      ok, next := true, next + n;
    }

    /** The next traffic secret of one direction, with its key and iv, and its counter at 0 again. */
    method KeyUpdate(fromPeer: bool)
      requires Valid()
      modifies this`rdSeq, this`wrSeq, this`server, this`client, this`sGen, this`cGen
      ensures Valid() && View() == if fromPeer then PeerUpdated(old(View())) else OwnUpdated(old(View()))
    {
      hide Correct, Keyed, CorrectKdf, Renewed;
      if fromPeer {
        RenewServer();
        rdSeq := 0;
      } else {
        RenewClient();
        wrSeq := 0;
      }
    }

    method RenewServer()
      requires Keyed()
      modifies this`server, this`sGen
      ensures Keyed() && sGen == old(sGen) + 1
    {
      server := TrafficOf(kdf, kdf.next(server.secret));
      sGen := sGen + 1;
    }

    method RenewClient()
      requires Keyed()
      modifies this`client, this`cGen
      ensures Keyed() && cGen == old(cGen) + 1
    {
      client := TrafficOf(kdf, kdf.next(client.secret));
      cGen := cGen + 1;
    }

    /** The answer, and then the renewal of the own secret. */
    method AnswerUpdate(ghost len: nat) returns (ok: bool)
      requires Valid() && len <= plain.Length
      modifies this`rdSeq, this`wrSeq, this`server, this`client, this`sGen, this`cGen, this`output, this`room
      modifies rec, plain
      ensures Valid()
      ensures var r := SendOne(aead, old(View()), CT_HANDSHAKE, UpdateReply());
              ok == r.0 && View() == if ok then OwnUpdated(r.1) else r.1
      ensures plain[..len]
           == if wrEnc then Overlay(old(plain[..len]), UpdateReply() + [CT_HANDSHAKE]) else old(plain[..len])
    {
      hide Correct, SendOne, Overlay, Keyed;
      OverlayPrefix(plain[..], UpdateReply() + [CT_HANDSHAKE], len);
      var r := SendRecord(CT_HANDSHAKE, UpdateReply());
      assert plain[..][..len] == plain[..len] && old(plain[..])[..len] == old(plain[..len]);
      if r != 0 {
        return false;
      }
      KeyUpdate(false);
      return true;
    }
  }
}
