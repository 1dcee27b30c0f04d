/** Requests and answers as the bytes on the wire: what a client has to send to
    netserve/transcipher.go, and how it reads what comes back. */
module Exchange {
  import opened BlockModes
  import opened Bytes
  import opened Outcomes
  import opened Packet
  import opened Padding
  import opened Repeats
  import opened Session
  import opened Words

  const ZEROS: seq<byte> := [0, 0, 0, 0, 0, 0, 0, 0]

  /** The first eight bytes are bytes 4 to 11 of the hash of the packet with zeros there. */
  ghost predicate Sealed(cr: Crypto, packet: seq<byte>)
    requires ValidCrypto(cr)
  {
    |packet| >= HDR_SIZE && packet[..8] == cr.md5(ZEROS + packet[8..])[4..12]
  }

  // ------------------------------------------------------------------ requests

  /** The IV of a request: the nonce twice, or a hash of key, nonce and number. */
  ghost predicate IsRequestIv(cr: Crypto, request: seq<byte>, key: seq<byte>, iv: seq<byte>)
    requires |request| >= HDR_SIZE
  {
    || (request[12..16] == [1, 0, 0, 0] && iv == request[20..28] + request[20..28])
    || (request[12..16] == [2, 0, 0, 0] && iv == cr.md5(key + request[20..28] + request[16..20]))
  }

  /** Nothing stands for an empty text, and a ciphertext for its plain text. */
  ghost predicate Carries(cr: Crypto, key: seq<byte>, iv: seq<byte>, tail: seq<byte>, code: seq<byte>)
    requires ValidCrypto(cr)
  {
    (tail == [] && code == []) || AesEncrypt(cr.aes, key, iv, tail) == Returned(Some(code))
  }

  /** A packet that carries a key of 16 bytes and a text: behind the header the key and the
      head of the text, encrypted with RSA, then the tail of the text, encrypted with AES. */
  ghost predicate Requests(
    cr: Crypto, request: seq<byte>, key: seq<byte>, iv: seq<byte>, head: seq<byte>, tail: seq<byte>)
    requires ValidCrypto(cr)
  {
    && Sealed(cr, request)
    && |request| >= HDR_SIZE + cr.rsaSize
    && |key| == 16 && cr.rsaDecrypt(request[HDR_SIZE..HDR_SIZE + cr.rsaSize]) == Some(key + head)
    && IsRequestIv(cr, request, key, iv)
    && Carries(cr, key, iv, tail, request[HDR_SIZE + cr.rsaSize..])
  }

  /** The context once it has taken over the keys: the number, the checksum and the type are
      those of the packet. */
  function Taken(ctx: Ctx, request: seq<byte>, key: seq<byte>, iv: seq<byte>): Ctx
    requires |request| >= HDR_SIZE
  {
    ctx.(ack := FromLe(request[16..20]), recvsig := FromLe(request[..8]), recviv := iv, aeskey := key,
         updateiv := true, state := if request[8..12] == [1, 0, 0, 0] then 2 else 10)
  }

  /** A number that is the one before it, and not zero. */
  ghost predicate IsRepeat(ctx: Ctx, request: seq<byte>)
    requires |request| >= HDR_SIZE
  {
    ctx.ack != 0 && FromLe(request[16..20]) == ctx.ack
  }

  lemma FourBytes(s: seq<byte>, n: nat)
    requires |s| == 4 && n < 256
    ensures FromLe(s) == n <==> s == [n, 0, 0, 0]
  {
    LeOfFromLe(s);
    assert Le(n, 4) == [n, 0, 0, 0];
    Widths();
    FromLeOfLe(n, 4);
  }

  lemma SealedExactly(cr: Crypto, packet: seq<byte>)
    requires ValidCrypto(cr)
    ensures Sealed(cr, packet) <==> |packet| >= HDR_SIZE && CheckSum(cr.md5, packet) == ParseHdr(packet).checksum
  {
    if |packet| >= HDR_SIZE {
      CheckSumOnWire(cr.md5, packet);
    }
  }

  lemma IvOnWire(cr: Crypto, request: seq<byte>, key: seq<byte>)
    requires |request| >= HDR_SIZE
    ensures var r := SynIv(cr, ParseHdr(request), key);
      forall iv :: IsRequestIv(cr, request, key, iv) <==> r == Returned(iv)
  {
    FourBytes(request[12..16], 1);
    FourBytes(request[12..16], 2);
    LeOfFromLe(request[20..28]);
    LeOfFromLe(request[16..20]);
  }

  lemma CarriesExactly(cr: Crypto, key: seq<byte>, iv: seq<byte>, tail: seq<byte>, code: seq<byte>)
    requires ValidCrypto(cr) && KeyOk(key) && |iv| == 16
    ensures Carries(cr, key, iv, tail, code) <==>
      if code == [] then tail == [] else AesDecrypt(cr.aes, key, iv, code) == Returned(Some(tail))
  {
    AesDecryptUndoesEncrypt(cr.aes, key, iv, tail);
    if AesDecrypt(cr.aes, key, iv, code) == Returned(Some(tail)) {
      AesEncryptUndoesDecrypt(cr.aes, key, iv, code);
    }
  }

  lemma KeyBeforeHead(de: seq<byte>, key: seq<byte>, head: seq<byte>)
    ensures |key| == 16 && de == key + head <==> |de| >= 16 && key == de[..16] && head == de[16..]
  {
  }

  lemma IvLength(cr: Crypto, request: seq<byte>, key: seq<byte>, iv: seq<byte>)
    requires ValidCrypto(cr) && |request| >= HDR_SIZE && IsRequestIv(cr, request, key, iv)
    ensures |iv| == 16
  {
  }

  lemma RequestDecrypts(
    cr: Crypto, request: seq<byte>, key: seq<byte>, iv: seq<byte>, head: seq<byte>, tail: seq<byte>)
    requires ValidCrypto(cr) && Requests(cr, request, key, iv, head, tail)
    ensures DecryptSyncData(cr, ParseHdr(request), request[HDR_SIZE..]) == Returned((head + tail, key, iv))
  {
    var data, de := request[HDR_SIZE..], key + head;
    assert data[..cr.rsaSize] == request[HDR_SIZE..HDR_SIZE + cr.rsaSize];
    assert data[cr.rsaSize..] == request[HDR_SIZE + cr.rsaSize..];
    KeyBeforeHead(de, key, head);
    IvOnWire(cr, request, key);
    IvLength(cr, request, key, iv);
    CarriesExactly(cr, key, iv, tail, data[cr.rsaSize..]);
    if |data| == cr.rsaSize {
      assert head + tail == head;
    }
  }

  lemma DecryptedWasRequest(cr: Crypto, request: seq<byte>, plain: seq<byte>, key: seq<byte>, iv: seq<byte>)
    returns (head: seq<byte>, tail: seq<byte>)
    requires ValidCrypto(cr) && Sealed(cr, request)
    requires DecryptSyncData(cr, ParseHdr(request), request[HDR_SIZE..]) == Returned((plain, key, iv))
    ensures plain == head + tail && Requests(cr, request, key, iv, head, tail)
  {
    var data := request[HDR_SIZE..];
    assert data[..cr.rsaSize] == request[HDR_SIZE..HDR_SIZE + cr.rsaSize];
    assert data[cr.rsaSize..] == request[HDR_SIZE + cr.rsaSize..];
    var de := cr.rsaDecrypt(data[..cr.rsaSize]).value;
    head := de[16..];
    tail := plain[|head|..];
    KeyBeforeHead(de, key, head);
    IvOnWire(cr, request, key);
    IvLength(cr, request, key, iv);
    CarriesExactly(cr, key, iv, tail, data[cr.rsaSize..]);
  }

  /** What DecodeData makes of a request: a repeat is answered with nothing and changes
      nothing, any other gives its text, the head before the tail, and its keys. */
  lemma RequestDecodes(
    cr: Crypto, ctx: Ctx, request: seq<byte>, key: seq<byte>, iv: seq<byte>, head: seq<byte>, tail: seq<byte>)
    requires ValidCrypto(cr) && Requests(cr, request, key, iv, head, tail)
    ensures DecodeData(cr, ctx, request) ==
      if IsRepeat(ctx, request) then Returned((ctx, None))
      else Returned((Taken(ctx, request, key, iv), Some(head + tail)))
  {
    SealedExactly(cr, request);
    RequestDecrypts(cr, request, key, iv, head, tail);
    FourBytes(request[8..12], 1);
  }

  /** Nothing else is taken for a request. */
  lemma AcceptedIsRequest(cr: Crypto, ctx: Ctx, request: seq<byte>, next: Ctx, plain: seq<byte>)
    returns (head: seq<byte>, tail: seq<byte>)
    requires ValidCrypto(cr) && DecodeData(cr, ctx, request) == Returned((next, Some(plain)))
    ensures plain == head + tail && Requests(cr, request, next.aeskey, next.recviv, head, tail)
    ensures !IsRepeat(ctx, request) && next == Taken(ctx, request, next.aeskey, next.recviv)
  {
    SealedExactly(cr, request);
    FourBytes(request[8..12], 1);
    head, tail := DecryptedWasRequest(cr, request, plain, next.aeskey, next.recviv);
  }

  /** DecodeData answers with nothing exactly when a sealed packet repeats the number, and
      panics exactly when a packet is not sealed, or is new and no request. */
  lemma RefusedExactly(cr: Crypto, ctx: Ctx, request: seq<byte>)
    requires ValidCrypto(cr)
    ensures DecodeData(cr, ctx, request) == Returned((ctx, None)) <==> Sealed(cr, request) && IsRepeat(ctx, request)
    ensures DecodeData(cr, ctx, request).Panicked? <==>
      !Sealed(cr, request) || (!IsRepeat(ctx, request) && forall key, iv, head, tail ::
        !Requests(cr, request, key, iv, head, tail))
  {
    SealedExactly(cr, request);
    var r := DecodeData(cr, ctx, request);
    if r.Returned? && r.value.1.Some? {
      var head, tail := AcceptedIsRequest(cr, ctx, request, r.value.0, r.value.1.value);
    }
    if key, iv, head, tail :| Requests(cr, request, key, iv, head, tail) {
      RequestDecodes(cr, ctx, request, key, iv, head, tail);
    }
  }

  lemma SealedWire(md5: seq<byte> -> seq<byte>, h: Hdr, t: seq<byte>)
    requires IsDigest(md5)
    ensures var sealed := Seal(md5, HdrBytes(h) + t);
      && sealed[8..12] == Le(h.msgtype, 4) && sealed[12..16] == Le(h.version, 4)
      && sealed[16..20] == Le(h.seqno, 4) && sealed[20..28] == Le(h.nonce, 8) && sealed[HDR_SIZE..] == t
      && sealed[..8] == md5(ZEROS + sealed[8..])[4..12]
  {
    var body := HdrBytes(h) + t;
    var sealed := Seal(md5, body);
    CheckSumOnWire(md5, body);
    assert sealed[8..] == body[8..];
    SealedHdr(h, t, CheckSum(md5, body));
  }

  /** The packet that a client builds of a header, a block of RSA and a code is a request. */
  lemma BuiltIsRequest(
    cr: Crypto, h: Hdr, block: seq<byte>, key: seq<byte>, iv: seq<byte>, head: seq<byte>, tail: seq<byte>,
    code: seq<byte>, request: seq<byte>)
    requires ValidCrypto(cr) && ValidHdr(h) && (h.version == 1 || h.version == 2)
    requires |key| == 16 && |block| == cr.rsaSize && cr.rsaDecrypt(block) == Some(key + head)
    requires h.version == 1 ==> iv == Le(h.nonce, 8) + Le(h.nonce, 8)
    requires h.version == 2 ==> iv == cr.md5(key + Le(h.nonce, 8) + Le(h.seqno, 4))
    requires Carries(cr, key, iv, tail, code) && request == Seal(cr.md5, HdrBytes(h) + (block + code))
    ensures Requests(cr, request, key, iv, head, tail)
    ensures FromLe(request[16..20]) == h.seqno && (request[8..12] == [1, 0, 0, 0] <==> h.msgtype == 1)
  {
    SealedWire(cr.md5, h, block + code);
    NumberOnWire(h.version, h.version);
    NumberOnWire(h.msgtype, 1);
    NumberOnWire(h.seqno, 0);
    BlockThenCode(request, block, code);
  }

  lemma NumberOnWire(n: nat, k: nat)
    requires n < TWO_TO_THE_32
    ensures FromLe(Le(n, 4)) == n && (k < 256 ==> (Le(n, 4) == [k, 0, 0, 0] <==> n == k))
  {
    Widths();
    FromLeOfLe(n, 4);
    if k < 256 {
      FourBytes(Le(n, 4), k);
    }
  }

  lemma BlockThenCode(request: seq<byte>, block: seq<byte>, code: seq<byte>)
    requires |request| >= HDR_SIZE && request[HDR_SIZE..] == block + code
    ensures |request| >= HDR_SIZE + |block|
    ensures request[HDR_SIZE..HDR_SIZE + |block|] == block && request[HDR_SIZE + |block|..] == code
  {
    assert request[HDR_SIZE..HDR_SIZE + |block|] == request[HDR_SIZE..][..|block|];
    assert request[HDR_SIZE + |block|..] == request[HDR_SIZE..][|block|..];
  }

  // ------------------------------------------------------------------ answers

  /** The IV of the answer to a request, from the bytes of both. */
  function AnswerIv(cr: Crypto, iv: seq<byte>, request: seq<byte>, answer: seq<byte>): seq<byte>
    requires |request| >= HDR_SIZE && |answer| >= HDR_SIZE
  {
    cr.md5(iv + answer[20..28] + answer[16..20] + request[..8])
  }

  /** The type of an answer: 2 to a handshake, otherwise 4 if it opens a stream and 3 if not. */
  function AnswerType(request: seq<byte>, stream: bool): byte
    requires |request| >= HDR_SIZE
  {
    if request[8..12] == [1, 0, 0, 0] then 2 else if stream then 4 else 3
  }

  /** A sealed packet that answers a request: type, version, number and time, then the number
      of the request plus one, to a handshake a signature of the payload, and last the
      payload, which decrypts to the data under the key of the request and an IV that the
      client finds from what it sent and what it got. */
  ghost predicate AnswersRequest(
    cr: Crypto, key: seq<byte>, iv: seq<byte>, request: seq<byte>, stream: bool, seqno: nat, now: nat,
    data: seq<byte>, answer: seq<byte>)
    requires ValidCrypto(cr) && |request| >= HDR_SIZE
  {
    var length := |data| + PadLen(|data|, 16);
    && Sealed(cr, answer) && |answer| >= 32 + length
    && answer[8..12] == [AnswerType(request, stream), 0, 0, 0] && answer[12..16] == [2, 0, 0, 0]
    && FromLe(answer[16..20]) == seqno && FromLe(answer[20..28]) == now
    && FromLe(answer[28..32]) == (FromLe(request[16..20]) + 1) % TWO_TO_THE_32
    && var payload := answer[|answer| - length..];
    && answer[32..|answer| - length] == (if request[8..12] == [1, 0, 0, 0] then cr.sign(payload) else [])
    && AesDecrypt(cr.aes, key, AnswerIv(cr, iv, request, answer), payload) == Returned(Some(data))
  }

  /** The context still holds what it took from the request. */
  ghost predicate Holds(ctx: Ctx, taken: Ctx) {
    ctx == taken.(stream := ctx.stream, size := ctx.size, packsize := ctx.packsize, seqno := ctx.seqno,
                  nonce := ctx.nonce, sendiv := ctx.sendiv)
  }

  lemma SendIvOnWire(
    cr: Crypto, ctx: Ctx, request: seq<byte>, seqno: nat, now: nat, answer: seq<byte>)
    requires ValidCrypto(cr) && |request| >= HDR_SIZE && |answer| >= HDR_SIZE
    requires ctx.updateiv && ctx.recvsig == FromLe(request[..8])
    requires FromLe(answer[16..20]) == seqno && FromLe(answer[20..28]) == now
    ensures Stamped(cr, ctx, seqno, now).sendiv == AnswerIv(cr, ctx.recviv, request, answer)
  {
    LeOfFromLe(request[..8]);
    LeOfFromLe(answer[16..20]);
    LeOfFromLe(answer[20..28]);
  }

  /** The first write after a request, whatever else the context was told meanwhile, answers
      that request. */
  lemma WriteAnswersRequest(
    cr: Crypto, before: Ctx, request: seq<byte>, key: seq<byte>, iv: seq<byte>, ctx: Ctx,
    seqno: nat, now: nat, data: seq<byte>, next: Ctx, packet: seq<byte>)
    requires ValidCrypto(cr) && |request| >= HDR_SIZE && Holds(ctx, Taken(before, request, key, iv))
    requires seqno < TWO_TO_THE_32 && now < TWO_TO_THE_64
    requires EncodeWrite(cr, ctx, seqno, now, data) == Returned((next, packet))
    ensures |packet| >= 4 && AnswersRequest(cr, key, iv, request, ctx.stream, seqno, now, data, packet[4..])
    ensures next.sendiv == AnswerIv(cr, iv, request, packet[4..])
  {
    FirstWriteAnswers(cr, ctx, seqno, now, data, next, packet);
    SendIvOnWire(cr, ctx, request, seqno, now, packet[4..]);
    AnswerOnWire(cr, key, iv, request, ctx.stream, seqno, now, data, packet[4..]);
  }

  lemma AnswerOnWire(
    cr: Crypto, key: seq<byte>, iv: seq<byte>, request: seq<byte>, stream: bool, seqno: nat, now: nat,
    data: seq<byte>, answer: seq<byte>)
    requires ValidCrypto(cr) && |request| >= HDR_SIZE && |answer| >= HDR_SIZE
    requires Answers(cr, key, AnswerIv(cr, iv, request, answer), FromLe(request[16..20]),
                     Hdr(0, AnswerType(request, stream), 2, seqno, now), data, answer)
    ensures AnswersRequest(cr, key, iv, request, stream, seqno, now, data, answer)
  {
    HeaderOnWire(cr, answer, AnswerType(request, stream), seqno, now);
  }

  lemma HeaderOnWire(cr: Crypto, answer: seq<byte>, msgtype: byte, seqno: nat, now: nat)
    requires ValidCrypto(cr) && |answer| >= HDR_SIZE
    requires ParseHdr(answer) == Hdr(CheckSum(cr.md5, answer), msgtype, 2, seqno, now)
    ensures Sealed(cr, answer) && answer[8..12] == [msgtype, 0, 0, 0] && answer[12..16] == [2, 0, 0, 0]
    ensures FromLe(answer[16..20]) == seqno && FromLe(answer[20..28]) == now
  {
    SealedExactly(cr, answer);
    FourBytes(answer[8..12], msgtype);
    FourBytes(answer[12..16], 2);
  }

  /** The client sends a request, the server writes an answer, and each reads what the other
      said. */
  lemma RequestIsAnswered(
    cr: Crypto, ctx: Ctx, request: seq<byte>, key: seq<byte>, iv: seq<byte>, head: seq<byte>, tail: seq<byte>,
    seqno: nat, now: nat, data: seq<byte>) returns (taken: Ctx, next: Ctx, packet: seq<byte>)
    requires ValidCrypto(cr) && Requests(cr, request, key, iv, head, tail) && !IsRepeat(ctx, request)
    requires seqno < TWO_TO_THE_32 && now < TWO_TO_THE_64 && data != [] && !ctx.stream
    ensures DecodeData(cr, ctx, request) == Returned((taken, Some(head + tail)))
    ensures EncodeWrite(cr, taken, seqno, now, data) == Returned((next, packet))
    ensures |packet| >= 4 && AnswersRequest(cr, key, iv, request, false, seqno, now, data, packet[4..])
  {
    RequestDecodes(cr, ctx, request, key, iv, head, tail);
    taken := Taken(ctx, request, key, iv);
    EncryptedDecrypts(cr, Stamped(cr, taken, seqno, now), data);
    var r := EncodeWrite(cr, taken, seqno, now, data);
    next, packet := r.value.0, r.value.1;
    WriteAnswersRequest(cr, ctx, request, key, iv, taken, seqno, now, data, next, packet);
  }

  /** What is hashed into the IV of an answer. */
  function IvInput(iv: seq<byte>, request: seq<byte>, answer: seq<byte>): seq<byte>
    requires |request| >= HDR_SIZE && |answer| >= HDR_SIZE
  {
    iv + answer[20..28] + answer[16..20] + request[..8]
  }

  lemma InputsDiffer(
    iv: seq<byte>, request: seq<byte>, answer: seq<byte>, iv': seq<byte>, request': seq<byte>, answer': seq<byte>)
    requires |iv| == |iv'| && |request| >= HDR_SIZE && |answer| >= HDR_SIZE
    requires |request'| >= HDR_SIZE && |answer'| >= HDR_SIZE
    ensures IvInput(iv, request, answer) == IvInput(iv', request', answer') <==>
      && iv == iv' && request[..8] == request'[..8]
      && answer[16..20] == answer'[16..20] && answer[20..28] == answer'[20..28]
  {
    var x, y, n := IvInput(iv, request, answer), IvInput(iv', request', answer'), |iv|;
    assert x[..n] == iv && x[n..n + 8] == answer[20..28] && x[n + 8..n + 12] == answer[16..20];
    assert y[..n] == iv' && y[n..n + 8] == answer'[20..28] && y[n + 8..n + 12] == answer'[16..20];
    assert x[n + 12..] == request[..8] && y[n + 12..] == request'[..8];
  }

  /** Where the hash tells their inputs apart, two answers are encrypted under the same IV
      exactly when the IV of the request, number and time of the answer and the checksum of
      the request are all the same. */
  lemma SameIvExactly(
    cr: Crypto, iv: seq<byte>, request: seq<byte>, answer: seq<byte>,
    iv': seq<byte>, request': seq<byte>, answer': seq<byte>)
    requires |iv| == |iv'| && |request| >= HDR_SIZE && |answer| >= HDR_SIZE
    requires |request'| >= HDR_SIZE && |answer'| >= HDR_SIZE
    requires var x, y := IvInput(iv, request, answer), IvInput(iv', request', answer');
      cr.md5(x) == cr.md5(y) ==> x == y
    ensures AnswerIv(cr, iv, request, answer) == AnswerIv(cr, iv', request', answer') <==>
      && iv == iv' && request[..8] == request'[..8]
      && answer[16..20] == answer'[16..20] && answer[20..28] == answer'[20..28]
  {
    InputsDiffer(iv, request, answer, iv', request', answer');
  }
}
