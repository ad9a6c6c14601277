/** The TLS 1.3 record layer of src/tls.c on values: what a sender puts on the wire, and what
    a receiver makes of any byte stream (sections 5.1 to 5.4 of RFC 8446).  The AEAD is an
    ideal function. */
module TlsRecord {
  import opened Common
  import opened Alignment
  import opened Binary

  type Bytes = seq<Byte>

  const MAX_PLAIN: nat := 16384
  const MAX_CIPHER: nat := MAX_PLAIN + 256
  const TAG_LEN: nat := 16
  const IV_LEN: nat := 12
  const CT_CHANGE_CIPHER: Byte := 20
  const CT_ALERT: Byte := 21
  const CT_HANDSHAKE: Byte := 22
  const CT_APP: Byte := 23
  const RANGE64: nat := 0x1_0000_0000_0000_0000

  // ----- the AEAD -----

  /** Arguments are key, nonce, associated data and text. */
  datatype Aead = Aead(seal: (Bytes, Bytes, Bytes, Bytes) -> Bytes, open: (Bytes, Bytes, Bytes, Bytes) -> Option<Bytes>)

  /** `open` inverts `seal`, and both know the length of the tag. */
  ghost predicate Correct(a: Aead) {
    && (forall k, n, ad, p :: |a.seal(k, n, ad, p)| == |p| + TAG_LEN)
    && (forall k, n, ad, p :: a.open(k, n, ad, a.seal(k, n, ad, p)) == Some(p))
    && (forall k, n, ad, c :: a.open(k, n, ad, c).Some? ==> |c| == |a.open(k, n, ad, c).value| + TAG_LEN)
  }

  // ----- nonces -----

  /** Exclusive or of two numbers, bit by bit. */
  function Xor(x: nat, y: nat): (r: nat)
    ensures x < 2 && y < 2 ==> r < 2
  {
    if x == 0 && y == 0 then 0 else (x + y) % 2 + 2 * Xor(x / 2, y / 2)
  }

  lemma {:induction false} XorBound(x: nat, y: nat, b: nat)
    requires x < b && y < b && IsPowerOfTwo(b)
    ensures Xor(x, y) < b
    decreases b
  {
    if b > 1 { XorBound(x / 2, y / 2, b / 2); }
  }

  lemma {:induction false} XorParts(x: nat, y: nat)
    ensures Xor(x, y) % 2 == (x + y) % 2 && Xor(x, y) / 2 == Xor(x / 2, y / 2)
  {
    var b, r := (x + y) % 2, Xor(x / 2, y / 2);
    assert Xor(x, y) == b + 2 * r;
  }

  lemma {:induction false} XorCancel(x: nat, y: nat, z: nat)
    requires Xor(x, y) == Xor(x, z)
    ensures y == z
    decreases x + y + z
  {
    if x + y + z > 0 {
      XorParts(x, y);
      XorParts(x, z);
      XorCancel(x / 2, y / 2, z / 2);
      assert (x + y) % 2 == (x + z) % 2;
    }
  }

  /** A number without its low `i` bits. */
  function Down(x: nat, i: nat): int {
    x / Pow2(i)
  }

  /** Bit by bit, the sum modulo 2. */
  lemma {:induction false} XorBits(x: nat, y: nat, i: nat)
    ensures Down(Xor(x, y), i) % 2 == (Down(x, i) + Down(y, i)) % 2
    decreases i
  {
    XorParts(x, y);
    DownStep(x, i);
    DownStep(y, i);
    DownStep(Xor(x, y), i);
    hide Xor, Down;
    if i > 0 {
      XorBits(x / 2, y / 2, i - 1);
    }
  }

  lemma DownStep(x: nat, i: nat)
    ensures Down(x, i) == if i == 0 then x else Down(x / 2, i - 1)
  {
    if i > 0 { DivDiv(x, 2, Pow2(i - 1)); }
  }

  lemma {:induction false} XorTwice(x: nat, y: nat)
    ensures Xor(x, Xor(x, y)) == y
    decreases x + y
  {
    var z := Xor(x, y);
    XorParts(x, y);
    XorParts(x, z);
    if x + y == 0 {
      assert z == 0;
    } else {
      XorTwice(x / 2, y / 2);
      hide Xor;
      TwoParts(x, y, z);
      SameHalves(Xor(x, z), y);
    }
  }

  lemma TwoParts(x: nat, y: nat, z: nat)
    requires z % 2 == (x + y) % 2
    ensures (x + z) % 2 == y % 2
  {
  }

  lemma SameHalves(x: nat, y: nat)
    requires x / 2 == y / 2 && x % 2 == y % 2
    ensures x == y
  {
  }

  function XorByte(x: Byte, y: Byte): (r: Byte)
    ensures r == Xor(x, y)
  {
    XorBound(x, y, 256);
    Xor(x, y)
  }

  function Pow256(i: nat): (r: nat)
    ensures r > 0
  {
    if i == 0 then 1 else 256 * Pow256(i - 1)
  }

  /** Byte `i` of a number, the least significant being byte 0. */
  function ByteOf(n: nat, i: nat): Byte {
    n / Pow256(i) % 256
  }

  /** The sequence number, right aligned and exclusive-ored into the iv. */
  function Nonce(iv: Bytes, n: nat): (r: Bytes)
    requires |iv| == IV_LEN
    ensures |r| == IV_LEN
  {
    seq(IV_LEN, j requires 0 <= j < IV_LEN =>
          if j < IV_LEN - 8 then iv[j] else XorByte(iv[j], ByteOf(n, IV_LEN - 1 - j)))
  }

  lemma {:induction false} LowBytes(m: nat, n: nat, k: nat)
    requires forall i: nat | i < k :: ByteOf(m, i) == ByteOf(n, i)
    ensures m % Pow256(k) == n % Pow256(k)
  {
    if k > 0 {
      LowBytes(m, n, k - 1);
      SplitByte(m, k - 1);
      SplitByte(n, k - 1);
      assert ByteOf(m, k - 1) == ByteOf(n, k - 1);
    }
  }

  lemma SplitByte(n: nat, k: nat)
    ensures n % Pow256(k + 1) == ByteOf(n, k) * Pow256(k) + n % Pow256(k)
  {
    var p := Pow256(k);
    var q := n / p;
    assert n == (q / 256 * 256 + q % 256) * p + n % p;
    assert n == q / 256 * (256 * p) + (q % 256 * p + n % p) by {
      assert (q / 256 * 256) * p == q / 256 * (256 * p);
    }
    assert q % 256 * p + n % p < 256 * p by {
      assert q % 256 * p <= 255 * p;
    }
    DivUnique(n, 256 * p, q / 256, q % 256 * p + n % p);
  }

  /** No two records of an epoch share a nonce. */
  lemma NonceInjective(iv: Bytes, m: nat, n: nat)
    requires |iv| == IV_LEN && m < RANGE64 && n < RANGE64 && Nonce(iv, m) == Nonce(iv, n)
    ensures m == n
  {
    forall i: nat | i < 8
      ensures ByteOf(m, i) == ByteOf(n, i)
    {
      var j := IV_LEN - 1 - i;
      assert Nonce(iv, m)[j] == Xor(iv[j], ByteOf(m, i)) && Nonce(iv, n)[j] == Xor(iv[j], ByteOf(n, i));
      XorCancel(iv[j], ByteOf(m, i), ByteOf(n, i));
    }
    LowBytes(m, n, 8);
    assert Pow256(8) == RANGE64 by {
      assert Pow256(3) == 256 * 256 * 256;
      assert Pow256(6) == 256 * 256 * 256 * Pow256(3);
    }
  }

  /** The number that bytes write, the most significant first. */
  ghost function Big(bs: Bytes): nat {
    if bs == [] then 0 else 256 * Big(bs[..|bs| - 1]) + bs[|bs| - 1]
  }

  /** What is to be exclusive-ored into the iv to get the nonce. */
  ghost function Mask(iv: Bytes, n: nat): (m: Bytes)
    requires |iv| == IV_LEN
    ensures |m| == IV_LEN
  {
    seq(IV_LEN, j requires 0 <= j < IV_LEN => XorByte(iv[j], Nonce(iv, n)[j]))
  }

  /** The nonce is the iv exclusive-ored with the sequence number, written in twelve bytes with the most
      significant one first. */
  lemma NonceIsBigEndian(iv: Bytes, n: nat)
    requires |iv| == IV_LEN && n < RANGE64
    ensures Big(Mask(iv, n)) == n
  {
    var m := Mask(iv, n);
    forall j | 0 <= j < IV_LEN
      ensures m[j] == if j < IV_LEN - 8 then 0 else ByteOf(n, IV_LEN - 1 - j)
    {
      if j < IV_LEN - 8 {
        XorTwice(iv[j], 0);
        XorZero(iv[j]);
      } else {
        XorTwice(iv[j], ByteOf(n, IV_LEN - 1 - j));
      }
    }
    hide Mask;
    BigOfBytes(m, n, IV_LEN);
    assert m[..IV_LEN] == m && Pow256(0) == 1;
  }

  lemma {:induction false} XorZero(x: nat)
    ensures Xor(x, 0) == x
  {
    if x > 0 { XorZero(x / 2); }
  }

  /** The first `k` bytes write the number without its low ones. */
  lemma {:induction false} BigOfBytes(m: Bytes, n: nat, k: nat)
    requires |m| == IV_LEN && k <= IV_LEN && n < RANGE64
    requires forall j | 0 <= j < IV_LEN :: m[j] == if j < IV_LEN - 8 then 0 else ByteOf(n, IV_LEN - 1 - j)
    ensures Big(m[..k]) == if k < IV_LEN - 8 then 0 else n / Pow256(IV_LEN - k)
    decreases k
  {
    if k > 0 {
      BigOfBytes(m, n, k - 1);
      assert m[..k][..k - 1] == m[..k - 1];
      if k > IV_LEN - 8 {
        var p := Pow256(IV_LEN - k);
        DivDiv(n, p, 256);
        assert Pow256(IV_LEN - k + 1) == p * 256;
      }
    }
    if k == IV_LEN - 8 { EightBytes(n); }
  }

  lemma EightBytes(n: nat)
    requires n < RANGE64
    ensures n / Pow256(8) == 0
  {
    assert Pow256(3) == 256 * 256 * 256;
    assert Pow256(6) == 256 * 256 * 256 * Pow256(3);
    assert Pow256(8) == RANGE64;
  }

  // ----- one direction of a connection -----

  /** The protection in force and the number of the next record under it. */
  datatype Epoch = Epoch(enc: bool, key: Bytes, iv: Bytes, n: nat)

  ghost predicate WfEpoch(e: Epoch) {
    |e.iv| == IV_LEN && e.n < RANGE64
  }

  /** `i` records behind record `n`, in 64 bits. */
  function Ahead(n: nat, i: nat): nat
    requires n < RANGE64 && i < RANGE64
  {
    if n + i < RANGE64 then n + i else n + i - RANGE64
  }

  function Next(e: Epoch): Epoch
    requires WfEpoch(e)
  {
    if e.enc then e.(n := Ahead(e.n, 1)) else e
  }

  function Header(kind: Byte, len: nat): (r: Bytes)
    requires len < 65536
    ensures |r| == 5
  {
    [kind, 3, 3, len / 256, len % 256]
  }

  function LengthOf(hdr: Bytes): nat
    requires |hdr| >= 5
  {
    256 * (hdr[3] as int) + hdr[4]
  }

  /** The bytes of one record. */
  function Wire(a: Aead, e: Epoch, kind: Byte, data: Bytes): Bytes
    requires WfEpoch(e) && |data| <= MAX_PLAIN
  {
    if !e.enc then Header(kind, |data|) + data
    else
      var hdr := Header(CT_APP, |data| + 1 + TAG_LEN);
      hdr + a.seal(e.key, Nonce(e.iv, e.n), hdr, data + [kind])
  }

  /** A record on the wire, byte by byte (sections 5.1 and 5.2 of RFC 8446): version 3.3, the length of what
      follows with its high byte first, and the content, or under type 23 the sealed content and its type. */
  lemma RecordFormat(a: Aead, e: Epoch, kind: Byte, data: Bytes)
    requires Correct(a) && WfEpoch(e) && |data| <= MAX_PLAIN
    ensures var w := Wire(a, e, kind, data);
            && |w| >= 5 && w[1] == 3 && w[2] == 3 && 256 * (w[3] as int) + w[4] == |w| - 5
            && (!e.enc ==> w[0] == kind && w[5..] == data)
            && (e.enc ==> w[0] == 23 && |w| == 5 + |data| + 1 + 16
                          && a.open(e.key, Nonce(e.iv, e.n), w[..5], w[5..]) == Some(data + [kind]))
  {
    hide Nonce;
    if e.enc {
      var hdr := Header(CT_APP, |data| + 1 + TAG_LEN);
      var body := a.seal(e.key, Nonce(e.iv, e.n), hdr, data + [kind]);
      var w := hdr + body;
      assert w[..5] == hdr && w[5..] == body;
    }
  }

  // ----- receiving -----

  datatype Outcome = Rec(kind: Byte, data: Bytes) | Eof | Failed

  datatype Received = Received(outcome: Outcome, e: Epoch, rest: Bytes)

  /** The length of `p` without its trailing zeros. */
  function Stripped(p: Bytes): (k: nat)
    ensures k <= |p| && (k > 0 ==> p[k - 1] != 0)
    ensures forall j | k <= j < |p| :: p[j] == 0
  {
    if p == [] || p[|p| - 1] != 0 then |p| else Stripped(p[..|p| - 1])
  }

  /** The content and the content type of an inner plaintext. */
  function Inner(p: Bytes): Outcome {
    var k := Stripped(p);
    if k == 0 then Failed else Rec(p[k - 1], p[..k - 1])
  }

  /** What a record other than ChangeCipherSpec gives. */
  function Unpack(a: Aead, e: Epoch, hdr: Bytes, body: Bytes): (r: (Outcome, Epoch))
    requires |hdr| == 5 && WfEpoch(e)
    ensures WfEpoch(r.1) && r.0 != Eof && r.1 == e.(n := r.1.n)
  {
    if !e.enc then (if hdr[0] == CT_HANDSHAKE || hdr[0] == CT_ALERT then Rec(hdr[0], body) else Failed, e)
    else if hdr[0] != CT_APP || |body| < TAG_LEN then (Failed, e)
    else
      match a.open(e.key, Nonce(e.iv, e.n), hdr, body)
      case None => (Failed, e)
      case Some(p) => (Inner(p), Next(e))
  }

  /** One call of recv_record on the bytes still to come. */
  function Recv(a: Aead, e: Epoch, input: Bytes): (r: Received)
    requires WfEpoch(e)
    ensures WfEpoch(r.e) && |r.rest| <= |input| && (r.outcome.Rec? ==> |r.rest| < |input|)
    ensures r.e == e.(n := r.e.n)
    decreases |input|
  {
    if input == [] then Received(Eof, e, [])
    else if |input| < 5 then Received(Failed, e, [])
    else
      var len := LengthOf(input);
      if len > MAX_CIPHER then Received(Failed, e, input[5..])
      else if |input| < 5 + len then Received(Failed, e, [])
      else
        var body, rest := input[5..5 + len], input[5 + len..];
        if input[0] == CT_CHANGE_CIPHER then if body == [1] then Recv(a, e, rest) else Received(Failed, e, rest)
        else
          var u := Unpack(a, e, input[..5], body);
          Received(u.0, u.1, rest)
  }

  /** The record types that come out of the other end as they went in. */
  predicate Sendable(e: Epoch, kind: Byte) {
    if e.enc then kind != 0 else kind == CT_HANDSHAKE || kind == CT_ALERT
  }

  lemma InnerOf(data: Bytes, kind: Byte)
    ensures Inner(data + [kind]) == Rec(kind, data) <==> kind != 0
  {
    var p := data + [kind];
    var k := Stripped(p);
    if kind != 0 {
      assert p[|p| - 1] == kind;
      assert p[..|p| - 1] == data;
    } else if k > 0 {
      assert p[|p| - 1] == 0;
    }
  }

  /** How `Recv` takes a whole record apart. */
  lemma RecvWhole(a: Aead, e: Epoch, hdr: Bytes, body: Bytes, rest: Bytes)
    requires WfEpoch(e) && |hdr| == 5 && LengthOf(hdr) == |body| <= MAX_CIPHER
    ensures hdr[0] != CT_CHANGE_CIPHER ==>
              var u := Unpack(a, e, hdr, body);
              Recv(a, e, hdr + body + rest) == Received(u.0, u.1, rest)
    ensures hdr[0] == CT_CHANGE_CIPHER ==>
              Recv(a, e, hdr + body + rest) == if body == [1] then Recv(a, e, rest) else Received(Failed, e, rest)
  {
    var input := hdr + body + rest;
    assert input[..5] == hdr;
    assert input[5..5 + |body|] == body;
    assert input[5 + |body|..] == rest;
  }

  /** What comes in, by its first byte: without protection types 22 and 21 are taken and no other; under
      protection only type 23 is opened; and type 20 with the single byte 1 is passed over in both. */
  lemma TypesTaken(a: Aead, e: Epoch, hdr: Bytes, body: Bytes, rest: Bytes)
    requires WfEpoch(e) && |hdr| == 5 && 256 * (hdr[3] as int) + hdr[4] == |body| <= 16640
    ensures var r := Recv(a, e, hdr + body + rest);
            && (hdr[0] == 20 ==> r == if body == [1] then Recv(a, e, rest) else Received(Failed, e, rest))
            && (!e.enc && (hdr[0] == 22 || hdr[0] == 21) ==> r == Received(Rec(hdr[0], body), e, rest))
            && (!e.enc && hdr[0] != 20 && hdr[0] != 21 && hdr[0] != 22 ==> r == Received(Failed, e, rest))
            && (e.enc && hdr[0] != 20 && hdr[0] != 23 ==> r == Received(Failed, e, rest))
  {
    hide Recv;
    RecvWhole(a, e, hdr, body, rest);
  }

  /** A stream that ends too early, or a record that is too long. */
  lemma RecvStuck(a: Aead, e: Epoch, input: Bytes)
    requires WfEpoch(e)
    requires |input| < 5 || LengthOf(input) > MAX_CIPHER || |input| < 5 + LengthOf(input)
    ensures Recv(a, e, input)
         == Received(if input == [] then Eof else Failed, e,
                     if |input| >= 5 && LengthOf(input) > MAX_CIPHER then input[5..] else [])
  {
  }

  /** A record arrives as it was sent, exactly when its type can be told from padding and is
      allowed in the epoch. */
  lemma RecvSent(a: Aead, e: Epoch, kind: Byte, data: Bytes, rest: Bytes)
    requires Correct(a) && WfEpoch(e) && |data| <= MAX_PLAIN
    ensures Sendable(e, kind) ==> Recv(a, e, Wire(a, e, kind, data) + rest) == Received(Rec(kind, data), Next(e), rest)
    ensures !Sendable(e, kind) ==> Recv(a, e, Wire(a, e, kind, data) + rest).outcome != Rec(kind, data)
  {
    hide Recv;
    if !e.enc {
      RecvWhole(a, e, Header(kind, |data|), data, rest);
      if kind == CT_CHANGE_CIPHER { PlainKinds(a, e, rest); }
    } else {
      var hdr := Header(CT_APP, |data| + 1 + TAG_LEN);
      var p := data + [kind];
      var body := a.seal(e.key, Nonce(e.iv, e.n), hdr, p);
      assert |body| == |p| + TAG_LEN;
      assert a.open(e.key, Nonce(e.iv, e.n), hdr, body) == Some(p);
      RecvWhole(a, e, hdr, body, rest);
      InnerOf(data, kind);
    }
  }

  lemma {:induction false} PlainKinds(a: Aead, e: Epoch, input: Bytes)
    requires WfEpoch(e) && !e.enc
    ensures var o := Recv(a, e, input).outcome; o.Rec? ==> o.kind == CT_HANDSHAKE || o.kind == CT_ALERT
    decreases |input|
  {
    if |input| >= 5 {
      var len := LengthOf(input);
      if 5 + len <= |input| { PlainKinds(a, e, input[5 + len..]); }
    }
  }

  // ----- whole streams -----

  /** What may be on the wire: a dummy ChangeCipherSpec of any version, or a record. */
  datatype Item = Dummy(major: Byte, minor: Byte) | Data(kind: Byte, data: Bytes)

  ghost predicate Fits(items: seq<Item>) {
    forall i | 0 <= i < |items| :: items[i].Data? ==> |items[i].data| <= MAX_PLAIN
  }

  /** The bytes that carry `items` under `e`. */
  ghost function WireAll(a: Aead, e: Epoch, items: seq<Item>): Bytes
    requires WfEpoch(e) && Fits(items)
    decreases |items|
  {
    if items == [] then []
    else
      match items[0]
      case Dummy(x, y) => [CT_CHANGE_CIPHER, x, y, 0, 1] + [1] + WireAll(a, e, items[1..])
      case Data(kind, data) => Wire(a, e, kind, data) + WireAll(a, Next(e), items[1..])
  }

  /** The sender's state behind them. */
  ghost function After(e: Epoch, items: seq<Item>): Epoch
    requires WfEpoch(e)
    decreases |items|
  {
    if items == [] then e else After(if items[0].Data? then Next(e) else e, items[1..])
  }

  ghost function Contents(items: seq<Item>): seq<Outcome> {
    if items == [] then []
    else if items[0].Data? then [Rec(items[0].kind, items[0].data)] + Contents(items[1..])
    else Contents(items[1..])
  }

  /** Everything a receiver gets until the stream ends or fails. */
  datatype Run = Run(recs: seq<Outcome>, end: Outcome, e: Epoch)

  function RecvAll(a: Aead, e: Epoch, input: Bytes): (r: Run)
    requires WfEpoch(e)
    ensures !r.end.Rec? && WfEpoch(r.e)
    ensures forall i | 0 <= i < |r.recs| :: r.recs[i].Rec?
    decreases |input|
  {
    var s := Recv(a, e, input);
    if s.outcome.Rec? then
      var t := RecvAll(a, s.e, s.rest);
      t.(recs := [s.outcome] + t.recs)
    else Run([], s.outcome, s.e)
  }

  /** Within one epoch the receiver inverts the sender on a whole stream: every record in
      order, dummies ignored, a clean end, and both counters equal.  It does so exactly when
      every record type is sendable. */
  lemma {:induction false} RecvInvertsSend(a: Aead, e: Epoch, items: seq<Item>)
    requires Correct(a) && WfEpoch(e) && Fits(items)
    ensures RecvAll(a, e, WireAll(a, e, items)) == Run(Contents(items), Eof, After(e, items))
       <==> forall i | 0 <= i < |items| :: items[i].Data? ==> Sendable(e, items[i].kind)
    decreases |items|
  {
    hide Recv, Wire;
    if items == [] {
      RecvStuck(a, e, []);
    } else {
      var e' := if items[0].Data? then Next(e) else e;
      var rest := WireAll(a, e', items[1..]);
      RecvInvertsSend(a, e', items[1..]);
      assert forall i | 1 <= i < |items| :: items[i] == items[1..][i - 1];
      match items[0]
      case Dummy(x, y) =>
        RecvWhole(a, e, [CT_CHANGE_CIPHER, x, y, 0, 1], [1], rest);
      case Data(kind, data) =>
        RecvSent(a, e, kind, data, rest);
        var s := Recv(a, e, Wire(a, e, kind, data) + rest);
        var r := RecvAll(a, e, WireAll(a, e, items));
        assert Contents(items)[0] == Rec(kind, data);
        assert Contents(items)[1..] == Contents(items[1..]);
        if Sendable(e, kind) {
          assert r.recs[1..] == RecvAll(a, e', rest).recs;
        }
    }
  }

  // ----- streams from anybody -----

  /** A record as it lies in a byte stream. */
  datatype Raw = Raw(hdr: Bytes, body: Bytes)

  /** The whole records at the front of a stream, as the headers delimit them. */
  function Framed(input: Bytes): (r: seq<Raw>)
    ensures forall i | 0 <= i < |r| :: |r[i].hdr| == 5
    decreases |input|
  {
    if |input| < 5 || LengthOf(input) > MAX_CIPHER || |input| < 5 + LengthOf(input) then []
    else
      var len := LengthOf(input);
      [Raw(input[..5], input[5..5 + len])] + Framed(input[5 + len..])
  }

  lemma FramedWhole(hdr: Bytes, body: Bytes, rest: Bytes)
    requires |hdr| == 5 && LengthOf(hdr) == |body| <= MAX_CIPHER
    ensures Framed(hdr + body + rest) == [Raw(hdr, body)] + Framed(rest)
  {
    var input := hdr + body + rest;
    assert input[..5] == hdr && input[5..5 + |body|] == body && input[5 + |body|..] == rest;
  }

  /** The peer seals records with types that are not zero. */
  ghost predicate WfSent(sent: seq<Outcome>) {
    |sent| < RANGE64 && forall i | 0 <= i < |sent| :: sent[i].Rec? && sent[i].kind != 0
  }

  /** Text `i` of the peer, under the nonce of record `i`. */
  ghost predicate IsSealed(e: Epoch, sent: seq<Outcome>, nonce: Bytes, text: Bytes, i: nat)
    requires WfEpoch(e) && WfSent(sent)
  {
    i < |sent| && nonce == Nonce(e.iv, Ahead(e.n, i)) && text == sent[i].data + [sent[i].kind]
  }

  /** Nothing that arrives in `input` is forged: a record that opens, under whatever nonce, is one
      the peer has sealed under that nonce.  Which records arrive, in what order and how often, is
      open. */
  ghost predicate Unforged(a: Aead, e: Epoch, sent: seq<Outcome>, input: Bytes)
    requires WfEpoch(e) && WfSent(sent)
  {
    forall r, nonce | r in Framed(input) && |nonce| == IV_LEN && a.open(e.key, nonce, r.hdr, r.body).Some? ::
      exists i :: IsSealed(e, sent, nonce, a.open(e.key, nonce, r.hdr, r.body).value, i)
  }

  /** Record `k` of an epoch opens to the peer's record `k` or to nothing. */
  lemma OpensInOrder(a: Aead, e: Epoch, sent: seq<Outcome>, k: nat, input: Bytes, r: Raw)
    requires WfEpoch(e) && WfSent(sent) && k <= |sent| && Unforged(a, e, sent, input) && r in Framed(input)
    requires a.open(e.key, Nonce(e.iv, Ahead(e.n, k)), r.hdr, r.body).Some?
    ensures k < |sent|
    ensures a.open(e.key, Nonce(e.iv, Ahead(e.n, k)), r.hdr, r.body).value == sent[k].data + [sent[k].kind]
  {
    var nonce := Nonce(e.iv, Ahead(e.n, k));
    var i :| IsSealed(e, sent, nonce, a.open(e.key, nonce, r.hdr, r.body).value, i);
    NonceInjective(e.iv, Ahead(e.n, i), Ahead(e.n, k));
    assert i == k;
  }

  /** What holds of a stream holds of what is left of it behind its first record. */
  lemma UnforgedRest(a: Aead, e: Epoch, sent: seq<Outcome>, input: Bytes)
    requires WfEpoch(e) && WfSent(sent) && Unforged(a, e, sent, input)
    requires |input| >= 5 && LengthOf(input) <= MAX_CIPHER && 5 + LengthOf(input) <= |input|
    ensures Unforged(a, e, sent, input[5 + LengthOf(input)..])
    ensures Raw(input[..5], input[5..5 + LengthOf(input)]) in Framed(input)
  {
    var all, rest := Framed(input), Framed(input[5 + LengthOf(input)..]);
    assert all[0] == Raw(input[..5], input[5..5 + LengthOf(input)]);
    assert forall r | r in rest :: r in all;
  }

  /** One call delivers the next record of the peer or nothing, and leaves a stream that is as
      genuine as before. */
  lemma {:induction false} RecvGenuine(a: Aead, e: Epoch, sent: seq<Outcome>, k: nat, input: Bytes)
    requires WfEpoch(e) && e.enc && WfSent(sent) && k <= |sent| && Unforged(a, e, sent, input)
    ensures var s := Recv(a, e.(n := Ahead(e.n, k)), input);
            s.outcome.Rec? ==>
              && k < |sent| && s.outcome == sent[k] && s.e == e.(n := Ahead(e.n, k + 1))
              && Unforged(a, e, sent, s.rest)
    decreases |input|
  {
    hide Unforged;
    if |input| >= 5 && LengthOf(input) <= MAX_CIPHER && 5 + LengthOf(input) <= |input| {
      var len := LengthOf(input);
      UnforgedRest(a, e, sent, input);
      if input[0] == CT_CHANGE_CIPHER {
        RecvGenuine(a, e, sent, k, input[5 + len..]);
      } else {
        var r := Raw(input[..5], input[5..5 + len]);
        if input[0] == CT_APP && len >= TAG_LEN && a.open(e.key, Nonce(e.iv, Ahead(e.n, k)), r.hdr, r.body).Some? {
          OpensInOrder(a, e, sent, k, input, r);
          InnerOf(sent[k].data, sent[k].kind);
        }
      }
    }
  }

  /** Against any byte stream without forgeries, what an encrypted epoch delivers is a prefix of
      what the peer sent: nothing is replayed, reordered or left out in the middle. */
  lemma {:induction false} DeliveredIsPrefix(a: Aead, e: Epoch, sent: seq<Outcome>, k: nat, input: Bytes)
    requires WfEpoch(e) && e.enc && WfSent(sent) && k <= |sent| && Unforged(a, e, sent, input)
    ensures RecvAll(a, e.(n := Ahead(e.n, k)), input).recs <= sent[k..]
    decreases |input|
  {
    hide Recv, Unforged;
    var now := e.(n := Ahead(e.n, k));
    var s := Recv(a, now, input);
    RecvGenuine(a, e, sent, k, input);
    if s.outcome.Rec? {
      DeliveredIsPrefix(a, e, sent, k + 1, s.rest);
      assert sent[k..] == [sent[k]] + sent[k + 1..];
    }
  }

  // ----- streams made of the peer's records -----

  /** A sealed text opens under its own nonce only. */
  ghost predicate NonceBound(a: Aead) {
    forall k, n, n', ad, p :: |n| == |n'| == IV_LEN && a.open(k, n', ad, a.seal(k, n, ad, p)).Some? ==> n' == n
  }

  /** Nothing sealed under one key opens under the other. */
  ghost predicate KeysApart(a: Aead, k: Bytes, k': Bytes) {
    forall n, n', ad, p :: a.open(k, n, ad, a.seal(k', n', ad, p)).None?
  }

  /** The peer's record `i` as it left the peer. */
  ghost function SentRaw(a: Aead, e: Epoch, sent: seq<Outcome>, i: nat): Raw
    requires WfEpoch(e) && WfSent(sent) && i < |sent| && |sent[i].data| <= MAX_PLAIN
  {
    var hdr := Header(CT_APP, |sent[i].data| + 1 + TAG_LEN);
    Raw(hdr, a.seal(e.key, Nonce(e.iv, Ahead(e.n, i)), hdr, sent[i].data + [sent[i].kind]))
  }

  /** Too short to carry a tag, or a record of the peer. */
  ghost predicate FromPeer(a: Aead, e: Epoch, sent: seq<Outcome>, r: Raw)
    requires WfEpoch(e) && WfSent(sent)
  {
    || |r.body| < TAG_LEN
    || exists i | 0 <= i < |sent| && |sent[i].data| <= MAX_PLAIN :: r == SentRaw(a, e, sent, i)
  }

  ghost predicate AllFromPeer(a: Aead, e: Epoch, sent: seq<Outcome>, input: Bytes)
    requires WfEpoch(e) && WfSent(sent)
  {
    forall r | r in Framed(input) :: FromPeer(a, e, sent, r)
  }

  lemma OneMoreFromPeer(a: Aead, e: Epoch, sent: seq<Outcome>, r: Raw, rest: Bytes)
    requires WfEpoch(e) && WfSent(sent) && FromPeer(a, e, sent, r) && AllFromPeer(a, e, sent, rest)
    requires |r.hdr| == 5 && LengthOf(r.hdr) == |r.body| <= MAX_CIPHER
    ensures AllFromPeer(a, e, sent, r.hdr + r.body + rest)
  {
    hide FromPeer;
    FramedWhole(r.hdr, r.body, rest);
  }

  lemma PeerIsUnforged(a: Aead, e: Epoch, sent: seq<Outcome>, input: Bytes)
    requires Correct(a) && NonceBound(a) && WfEpoch(e) && WfSent(sent) && AllFromPeer(a, e, sent, input)
    ensures Unforged(a, e, sent, input)
  {
    forall r, nonce | r in Framed(input) && |nonce| == IV_LEN && a.open(e.key, nonce, r.hdr, r.body).Some?
      ensures exists i :: IsSealed(e, sent, nonce, a.open(e.key, nonce, r.hdr, r.body).value, i)
    {
      assert FromPeer(a, e, sent, r);
      var i :| 0 <= i < |sent| && |sent[i].data| <= MAX_PLAIN && r == SentRaw(a, e, sent, i);
      assert IsSealed(e, sent, nonce, a.open(e.key, nonce, r.hdr, r.body).value, i);
    }
  }

  /** The peer's records picked in any order, any number of times, one behind the other. */
  ghost function Replayed(a: Aead, e: Epoch, sent: seq<Outcome>, picks: seq<nat>): Bytes
    requires WfEpoch(e) && WfSent(sent)
    requires forall j | 0 <= j < |picks| :: picks[j] < |sent| && |sent[picks[j]].data| <= MAX_PLAIN
  {
    if picks == [] then []
    else
      var r := SentRaw(a, e, sent, picks[0]);
      r.hdr + r.body + Replayed(a, e, sent, picks[1..])
  }

  lemma {:induction false} ReplayedFromPeer(a: Aead, e: Epoch, sent: seq<Outcome>, picks: seq<nat>)
    requires Correct(a) && WfEpoch(e) && WfSent(sent)
    requires forall j | 0 <= j < |picks| :: picks[j] < |sent| && |sent[picks[j]].data| <= MAX_PLAIN
    ensures AllFromPeer(a, e, sent, Replayed(a, e, sent, picks))
  {
    if picks != [] {
      ReplayedFromPeer(a, e, sent, picks[1..]);
      hide AllFromPeer;
      OneMoreFromPeer(a, e, sent, SentRaw(a, e, sent, picks[0]), Replayed(a, e, sent, picks[1..]));
    }
  }

  /** However the peer's own records are dropped, repeated and reordered on the way, the receiver
      delivers a prefix of what was sent; the AEAD need only bind its nonce. */
  lemma ReplayDeliversPrefix(a: Aead, e: Epoch, sent: seq<Outcome>, picks: seq<nat>)
    requires Correct(a) && NonceBound(a) && WfEpoch(e) && e.enc && WfSent(sent)
    requires forall j | 0 <= j < |picks| :: picks[j] < |sent| && |sent[picks[j]].data| <= MAX_PLAIN
    ensures RecvAll(a, e, Replayed(a, e, sent, picks)).recs <= sent
  {
    hide RecvAll, Unforged, AllFromPeer;
    var input := Replayed(a, e, sent, picks);
    ReplayedFromPeer(a, e, sent, picks);
    PeerIsUnforged(a, e, sent, input);
    DeliveredIsPrefix(a, e, sent, 0, input);
    assert e.(n := Ahead(e.n, 0)) == e && sent[0..] == sent;
  }

  /** The honest stream behind the first `k` records. */
  lemma {:induction false} WireFromPeer(a: Aead, e: Epoch, items: seq<Item>, sent: seq<Outcome>, k: nat)
    requires Correct(a) && WfEpoch(e) && e.enc && Fits(items) && WfSent(sent) && k <= |sent|
    requires Contents(items) == sent[k..]
    ensures AllFromPeer(a, e, sent, WireAll(a, e.(n := Ahead(e.n, k)), items))
    decreases |items|
  {
    hide AllFromPeer, Nonce;
    var now := e.(n := Ahead(e.n, k));
    if items == [] {
      NothingFramed(a, e, sent);
    } else {
      match items[0]
      case Dummy(x, y) =>
        WireFromPeer(a, e, items[1..], sent, k);
        OneMoreFromPeer(a, e, sent, Raw([CT_CHANGE_CIPHER, x, y, 0, 1], [1]), WireAll(a, now, items[1..]));
      case Data(kind, data) =>
        assert sent[k] == Rec(kind, data) && Contents(items[1..]) == sent[k + 1..] by {
          assert Contents(items)[0] == sent[k] && Contents(items)[1..] == sent[k..][1..];
        }
        WireFromPeer(a, e, items[1..], sent, k + 1);
        OneMoreFromPeer(a, e, sent, SentRaw(a, e, sent, k), WireAll(a, Next(now), items[1..]));
    }
  }

  lemma NothingFramed(a: Aead, e: Epoch, sent: seq<Outcome>)
    requires WfEpoch(e) && WfSent(sent)
    ensures AllFromPeer(a, e, sent, [])
  {
  }

  /** The hypothesis of `DeliveredIsPrefix` holds of everything the peer itself puts on the wire. */
  lemma HonestIsUnforged(a: Aead, e: Epoch, items: seq<Item>)
    requires Correct(a) && NonceBound(a) && WfEpoch(e) && e.enc && Fits(items) && WfSent(Contents(items))
    ensures Unforged(a, e, Contents(items), WireAll(a, e, items))
  {
    hide AllFromPeer, Unforged, WireAll, Contents;
    var sent := Contents(items);
    assert sent[0..] == sent && e.(n := Ahead(e.n, 0)) == e;
    WireFromPeer(a, e, items, sent, 0);
    PeerIsUnforged(a, e, sent, WireAll(a, e, items));
  }

  // ----- the hypotheses can be met -----

  function TagOf(key: Bytes, nonce: Bytes): (t: Bytes)
    ensures |t| == TAG_LEN
  {
    seq(TAG_LEN, i requires 0 <= i =>
          if i < IV_LEN then (if |nonce| == IV_LEN then nonce[i] else 0)
          else if i - IV_LEN < |key| then key[i - IV_LEN] else 0)
  }

  /** A text in clear with its nonce and the front of its key for a tag: no secret, but correct and
      bound to both. */
  function TagAead(): Aead {
    Aead((k: Bytes, n: Bytes, ad: Bytes, p: Bytes) => p + TagOf(k, n),
         (k: Bytes, n: Bytes, ad: Bytes, c: Bytes) =>
           if |c| >= TAG_LEN && c[|c| - TAG_LEN..] == TagOf(k, n) then Some(c[..|c| - TAG_LEN]) else None)
  }

  lemma TagAeadIsBound()
    ensures Correct(TagAead()) && NonceBound(TagAead()) && KeysApart(TagAead(), [1], [2])
  {
    var a := TagAead();
    forall k, n, ad, p
      ensures a.open(k, n, ad, a.seal(k, n, ad, p)) == Some(p)
    {
      var c := p + TagOf(k, n);
      assert c[|c| - TAG_LEN..] == TagOf(k, n) && c[..|c| - TAG_LEN] == p;
    }
    forall k, n, n', ad, p | |n| == |n'| == IV_LEN && a.open(k, n', ad, a.seal(k, n, ad, p)).Some?
      ensures n' == n
    {
      var c := p + TagOf(k, n);
      assert c[|c| - TAG_LEN..] == TagOf(k, n);
      assert TagOf(k, n) == TagOf(k, n');
      forall i | 0 <= i < IV_LEN
        ensures n[i] == n'[i]
      {
        assert TagOf(k, n)[i] == n[i] && TagOf(k, n')[i] == n'[i];
      }
    }
    forall n, n', ad, p
      ensures a.open([1], n, ad, a.seal([2], n', ad, p)).None?
    {
      var c := p + TagOf([2], n');
      assert c[|c| - TAG_LEN..] == TagOf([2], n');
      assert TagOf([1], n)[IV_LEN] == 1 && TagOf([2], n')[IV_LEN] == 2;
    }
  }
}
