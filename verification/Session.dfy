/** The szcipher session: DecodeData, EncodeWrite and WriteAckData in netserve/transcipher.go
    over the connection context of netserve/context.go. Hash, block cipher and RSA are
    parameters; the clock and the shared sequence counter are inputs. */
module Session {
  import opened BlockModes
  import opened Bytes
  import opened Chunking
  import opened Framing
  import opened Outcomes
  import opened Packet
  import opened Padding
  import opened Repeats
  import opened StreamSize
  import opened Words

  datatype Crypto = Crypto(
    md5: seq<byte> -> seq<byte>,
    aes: seq<byte> -> BlockCipher,
    rsaSize: nat,
    rsaDecrypt: seq<byte> -> Option<seq<byte>>,
    sign: seq<byte> -> seq<byte>)

  ghost predicate ValidCrypto(cr: Crypto) {
    IsDigest(cr.md5) && ValidAes(cr.aes)
  }

  datatype Ctx = Ctx(
    aeskey: seq<byte>, recviv: seq<byte>, sendiv: seq<byte>, recvsig: nat, seqno: nat, ack: nat,
    state: nat, nonce: nat, updateiv: bool, stream: bool, size: int, packsize: int)

  const NEW_CONTEXT := Ctx([], [], [], 0, 0, 0, 0, 0, false, false, 0, 0)

  // ------------------------------------------------------------------ writing

  /** UpdateIv: a fresh send IV, once per accepted request. */
  function UpdatedIv(cr: Crypto, ctx: Ctx): Ctx {
    if !ctx.updateiv then ctx
    else ctx.(
      sendiv := cr.md5(ctx.recviv + Le(ctx.nonce, 8) + Le(ctx.seqno, 4) + Le(ctx.recvsig, 8)),
      updateiv := false)
  }

  function EncryptAckData(cr: Crypto, ctx: Ctx, data: seq<byte>): Result<seq<byte>>
    requires ValidCrypto(cr)
  {
    if data == [] then Panicked
    else
      match AesEncrypt(cr.aes, ctx.aeskey, ctx.sendiv, data)
      case Returned(Some(x)) => Returned(x)
      case _ => Panicked
  }

  function MsgType(ctx: Ctx): nat {
    if ctx.state == 2 then 2 else if ctx.stream then 4 else 3
  }

  /** The context once BuildAckHdr has stamped it. */
  function Stamped(cr: Crypto, ctx: Ctx, seqno: nat, now: nat): Ctx {
    UpdatedIv(cr, ctx.(seqno := seqno, nonce := now))
  }

  function AckHdr(ctx: Ctx): Hdr {
    Hdr(0, MsgType(ctx), 2, ctx.seqno, ctx.nonce)
  }

  function Signature(cr: Crypto, ctx: Ctx, encoded: seq<byte>): seq<byte> {
    if ctx.state == 2 then cr.sign(encoded) else []
  }

  /** What follows the header of the first write: the acknowledgement, a signature in
      answer to a handshake, and the payload. */
  function AckTail(cr: Crypto, ctx: Ctx, encoded: seq<byte>): seq<byte> {
    Le(ctx.ack + 1, 4) + (Signature(cr, ctx, encoded) + encoded)
  }

  function AckBody(cr: Crypto, ctx: Ctx, encoded: seq<byte>): (r: seq<byte>)
    ensures |r| == HDR_SIZE + 4 + |Signature(cr, ctx, encoded)| + |encoded|
  {
    HdrBytes(AckHdr(ctx)) + AckTail(cr, ctx, encoded)
  }

  /** A handshake cannot open a stream, nor can a stream be shorter than its first chunk;
      with an empty chunk size CalcStreamSize would never return. */
  predicate CanStream(ctx: Ctx, data: seq<byte>) {
    ctx.state != 2 && ctx.size >= |data| && ctx.packsize > 0
  }

  /** The length field: of this packet, or of the whole stream it opens. */
  function LengthField(ctx: Ctx, body: seq<byte>): (n: nat)
    requires ctx.stream ==> ctx.size >= 0 && ctx.packsize > 0 && KeyOk(ctx.aeskey)
  {
    if !ctx.stream then |body|
    else PiecesTotal(ctx.size, ctx.packsize, PieceSize(|ctx.aeskey|)) % TWO_TO_THE_32 + HDR_SIZE + 4
  }

  function WriteAckData(cr: Crypto, ctx: Ctx, seqno: nat, now: nat, data: seq<byte>): Result<(Ctx, seq<byte>)>
    requires ValidCrypto(cr)
  {
    var stamped := Stamped(cr, ctx, seqno, now);
    match EncryptAckData(cr, stamped, data)
    case Panicked => Panicked
    case Returned(encoded) =>
      if ctx.stream && !CanStream(ctx, data) then Panicked
      else
        var body := AckBody(cr, stamped, encoded);
        Returned((stamped.(state := ctx.state + 1), Le(LengthField(stamped, body), 4) + Seal(cr.md5, body)))
  }

  predicate AwaitsHeader(ctx: Ctx) {
    ctx.state == 2 || ctx.state == 10
  }

  function EncodeWrite(cr: Crypto, ctx: Ctx, seqno: nat, now: nat, data: seq<byte>): Result<(Ctx, seq<byte>)>
    requires ValidCrypto(cr)
  {
    if AwaitsHeader(ctx) then WriteAckData(cr, ctx, seqno, now, data)
    else
      match EncryptAckData(cr, UpdatedIv(cr, ctx), data)
      case Panicked => Panicked
      case Returned(encoded) => Returned((UpdatedIv(cr, ctx), encoded))
  }

  // ------------------------------------------------------------------ reading

  function SynIv(cr: Crypto, h: Hdr, key: seq<byte>): Result<seq<byte>> {
    if h.version == 1 then Returned(Le(h.nonce, 8) + Le(h.nonce, 8))
    else if h.version == 2 then Returned(cr.md5(key + Le(h.nonce, 8) + Le(h.seqno, 4)))
    else Panicked
  }

  /** DecryptSyncData: plain text, AES key and IV. */
  function DecryptSyncData(cr: Crypto, h: Hdr, data: seq<byte>): (r: Result<(seq<byte>, seq<byte>, seq<byte>)>)
    requires ValidCrypto(cr)
    ensures r.Returned? ==> |r.value.1| == 16
  {
    if |data| < cr.rsaSize then Panicked
    else
      match cr.rsaDecrypt(data[..cr.rsaSize])
      case None => Panicked
      case Some(de) =>
        if |de| < 16 then Panicked
        else
          match SynIv(cr, h, de[..16])
          case Panicked => Panicked
          case Returned(iv) =>
            if |data| == cr.rsaSize then Returned((de[16..], de[..16], iv))
            else
              match AesDecrypt(cr.aes, de[..16], iv, data[cr.rsaSize..])
              case Returned(Some(plain)) => Returned((de[16..] + plain, de[..16], iv))
              case _ => Panicked
  }

  /** DecodeData: None is the empty answer to a repeated request. */
  function DecodeData(cr: Crypto, ctx: Ctx, data: seq<byte>): Result<(Ctx, Option<seq<byte>>)>
    requires ValidCrypto(cr)
  {
    if |data| < HDR_SIZE then Panicked
    else
      var h := ParseHdr(data);
      if CheckSum(cr.md5, data) != h.checksum then Panicked
      else if !Accepts(ctx.ack, h.seqno) then Returned((ctx.(ack := h.seqno), None))
      else
        match DecryptSyncData(cr, h, data[HDR_SIZE..])
        case Panicked => Panicked
        case Returned((plain, key, iv)) =>
          Returned((Adopted(ctx, h, key, iv), Some(plain)))
  }

  /** The context once it has taken over the keys of an accepted request. */
  function Adopted(ctx: Ctx, h: Hdr, key: seq<byte>, iv: seq<byte>): Ctx {
    ctx.(ack := h.seqno, recvsig := h.checksum, recviv := iv, aeskey := key, updateiv := true,
         state := if h.msgtype == 1 then 2 else 10)
  }

  // ------------------------------------------------------------------ the first write

  lemma EncryptedDecrypts(cr: Crypto, ctx: Ctx, data: seq<byte>)
    requires ValidCrypto(cr)
    ensures EncryptAckData(cr, ctx, data).Returned? <==> data != [] && KeyOk(ctx.aeskey) && |ctx.sendiv| == 16
    ensures EncryptAckData(cr, ctx, data).Returned? ==>
      var x := EncryptAckData(cr, ctx, data).value;
      |x| == |data| + PadLen(|data|, 16) && AesDecrypt(cr.aes, ctx.aeskey, ctx.sendiv, x) == Returned(Some(data))
  {
    if KeyOk(ctx.aeskey) && |ctx.sendiv| == 16 {
      AesDecryptUndoesEncrypt(cr.aes, ctx.aeskey, ctx.sendiv, data);
    }
  }

  /** A packet body that answers a request: the given header with a checksum that passes the
      test, then the acknowledgement of the request, its number plus one modulo 2^32, a
      signature of the payload if it answers a handshake, and last a payload that decrypts
      to the data. */
  ghost predicate Answers(
    cr: Crypto, key: seq<byte>, iv: seq<byte>, ack: nat, h: Hdr, data: seq<byte>, body: seq<byte>)
    requires ValidCrypto(cr)
  {
    var length := |data| + PadLen(|data|, 16);
    && |body| >= HDR_SIZE + 4 + length
    && ParseHdr(body) == h.(checksum := CheckSum(cr.md5, body))
    && FromLe(body[HDR_SIZE..HDR_SIZE + 4]) == (ack + 1) % TWO_TO_THE_32
    && var payload := body[|body| - length..];
    && body[HDR_SIZE + 4..|body| - length] == (if h.msgtype == 2 then cr.sign(payload) else [])
    && AesDecrypt(cr.aes, key, iv, payload) == Returned(Some(data))
  }

  lemma SealedLayout(cr: Crypto, ctx: Ctx, encoded: seq<byte>)
    requires ValidCrypto(cr) && ctx.seqno < TWO_TO_THE_32 && ctx.nonce < TWO_TO_THE_64
    ensures var body := Seal(cr.md5, AckBody(cr, ctx, encoded));
      && |body| == HDR_SIZE + 4 + |Signature(cr, ctx, encoded)| + |encoded|
      && ParseHdr(body) == AckHdr(ctx).(checksum := CheckSum(cr.md5, body))
      && FromLe(body[HDR_SIZE..HDR_SIZE + 4]) == (ctx.ack + 1) % TWO_TO_THE_32
      && body[HDR_SIZE + 4..|body| - |encoded|] == Signature(cr, ctx, encoded)
      && body[|body| - |encoded|..] == encoded
  {
    var tail := AckTail(cr, ctx, encoded);
    var body := Seal(cr.md5, HdrBytes(AckHdr(ctx)) + tail);
    SealPasses(cr.md5, AckHdr(ctx), tail);
    assert body[HDR_SIZE..] == tail;
    TailLayout(Le(ctx.ack + 1, 4), Signature(cr, ctx, encoded), encoded, body);
    LeTruncates(ctx.ack + 1, 4);
    Widths();
  }

  lemma TailLayout(ack: seq<byte>, sig: seq<byte>, encoded: seq<byte>, body: seq<byte>)
    requires |ack| == 4 && |body| >= HDR_SIZE && body[HDR_SIZE..] == ack + (sig + encoded)
    ensures body[HDR_SIZE..HDR_SIZE + 4] == ack
    ensures body[HDR_SIZE + 4..|body| - |encoded|] == sig && body[|body| - |encoded|..] == encoded
  {
  }

  lemma SealedAnswers(cr: Crypto, ctx: Ctx, data: seq<byte>, body: seq<byte>)
    requires ValidCrypto(cr) && ctx.seqno < TWO_TO_THE_32 && ctx.nonce < TWO_TO_THE_64
    requires EncryptAckData(cr, ctx, data).Returned?
    requires body == Seal(cr.md5, AckBody(cr, ctx, EncryptAckData(cr, ctx, data).value))
    ensures Answers(cr, ctx.aeskey, ctx.sendiv, ctx.ack, AckHdr(ctx), data, body)
  {
    EncryptedDecrypts(cr, ctx, data);
    SealedLayout(cr, ctx, EncryptAckData(cr, ctx, data).value);
  }

  /** The first write after a request answers it, behind the length field. */
  lemma FirstWriteAnswers(cr: Crypto, ctx: Ctx, seqno: nat, now: nat, data: seq<byte>, next: Ctx, packet: seq<byte>)
    requires ValidCrypto(cr) && seqno < TWO_TO_THE_32 && now < TWO_TO_THE_64
    requires WriteAckData(cr, ctx, seqno, now, data) == Returned((next, packet))
    ensures |packet| >= 4
    ensures var msgtype := if ctx.state == 2 then 2 else if ctx.stream then 4 else 3;
      Answers(cr, ctx.aeskey, next.sendiv, ctx.ack, Hdr(0, msgtype, 2, seqno, now), data, packet[4..])
  {
    var stamped := Stamped(cr, ctx, seqno, now);
    var body := Seal(cr.md5, AckBody(cr, stamped, EncryptAckData(cr, stamped, data).value));
    assert packet[4..] == body;
    SealedAnswers(cr, stamped, data, body);
  }

  /** A write returns exactly when there is data, the key and the IV have the right size, and
      what opens a stream answers no handshake and is no longer than the stream. */
  lemma WriteReturnsExactly(cr: Crypto, ctx: Ctx, seqno: nat, now: nat, data: seq<byte>)
    requires ValidCrypto(cr)
    ensures EncodeWrite(cr, ctx, seqno, now, data).Returned? <==>
      && data != [] && |ctx.aeskey| in {16, 24, 32} && (ctx.updateiv || |ctx.sendiv| == 16)
      && (ctx.stream && ctx.state in {2, 10} ==> ctx.state == 10 && |data| <= ctx.size && ctx.packsize > 0)
  {
    EncryptedDecrypts(cr, UpdatedIv(cr, ctx), data);
    EncryptedDecrypts(cr, Stamped(cr, ctx, seqno, now), data);
  }

  /** A packet that is no stream is read back whole, whatever follows it, exactly when what
      its length field counts fits the field. */
  lemma PacketReadsBack(
    cr: Crypto, ctx: Ctx, seqno: nat, now: nat, data: seq<byte>, next: Ctx, packet: seq<byte>, t: seq<byte>)
    requires ValidCrypto(cr) && !ctx.stream
    requires WriteAckData(cr, ctx, seqno, now, data) == Returned((next, packet))
    ensures |packet| >= 4
    ensures ReadFrame(packet + t) == Returned((packet[4..], t)) <==> |packet| - 4 < TWO_TO_THE_32
  {
    assert packet == Frame(packet[4..]);
    FrameReadsBack(packet[4..], t);
  }

  // ------------------------------------------------------------------ streams

  /** EncodeWrite as an operation on the context. */
  function Writer(cr: Crypto, seqno: nat, now: nat): Write<Ctx>
    requires ValidCrypto(cr)
  {
    (ctx: Ctx, data: seq<byte>) => EncodeWrite(cr, ctx, seqno, now, data)
  }

  /** How a peer decodes a chunk. */
  function Decoder(cr: Crypto, key: seq<byte>, iv: seq<byte>): Decode
    requires ValidCrypto(cr)
  {
    (s: seq<byte>) => match AesDecrypt(cr.aes, key, iv, s) case Returned(r) => r case Panicked => None
  }

  /** A write after the first changes nothing and puts out a bare ciphertext. */
  lemma LaterWriteIsBare(cr: Crypto, ctx: Ctx, seqno: nat, now: nat, data: seq<byte>)
    requires ValidCrypto(cr)
    requires !AwaitsHeader(ctx) && !ctx.updateiv && KeyOk(ctx.aeskey) && |ctx.sendiv| == 16 && data != []
    ensures EncodeWrite(cr, ctx, seqno, now, data).Returned?
    ensures var (next, out) := EncodeWrite(cr, ctx, seqno, now, data).value;
      && next == ctx
      && |out| == |data| + PadLen(|data|, 16)
      && AesDecrypt(cr.aes, ctx.aeskey, ctx.sendiv, out) == Returned(Some(data))
  {
    EncryptedDecrypts(cr, ctx, data);
  }

  lemma LaterWritesAreSteady(cr: Crypto, ctx: Ctx, seqno: nat, now: nat)
    requires ValidCrypto(cr)
    requires !AwaitsHeader(ctx) && !ctx.updateiv && KeyOk(ctx.aeskey) && |ctx.sendiv| == 16
    ensures Steady(Writer(cr, seqno, now), Decoder(cr, ctx.aeskey, ctx.sendiv), PieceSize(16), ctx)
  {
    forall chunk: seq<byte> | chunk != []
      ensures SteadyFor(Writer(cr, seqno, now), Decoder(cr, ctx.aeskey, ctx.sendiv), PieceSize(16), ctx, chunk)
    {
      LaterWriteIsBare(cr, ctx, seqno, now, chunk);
    }
  }

  /** A context ready to stream `data`: a request was accepted and BeginWriteStream called. */
  ghost predicate ReadyToStream(ctx: Ctx, data: seq<byte>) {
    && ctx.state == 10 && ctx.updateiv && |ctx.aeskey| == 16
    && ctx.stream && ctx.size == |data| > 0 && ctx.packsize > 0
  }

  lemma StreamBody(cr: Crypto, ctx: Ctx, encoded: seq<byte>, field: seq<byte>, out: seq<byte>)
    requires ValidCrypto(cr) && ctx.state != 2 && |field| == 4
    requires out == field + Seal(cr.md5, AckBody(cr, ctx, encoded))
    ensures |out| == 36 + |encoded| && out[..4] == field && out[36..] == encoded
  {
    var body := AckBody(cr, ctx, encoded);
    Behind(HdrBytes(AckHdr(ctx)), Le(ctx.ack + 1, 4), encoded);
    SealedOut(field, Le(CheckSum(cr.md5, body), 8), body, out);
  }

  lemma SealedOut(field: seq<byte>, sum: seq<byte>, body: seq<byte>, out: seq<byte>)
    requires |field| == 4 && |sum| == 8 && |body| >= 32 && out == field + (sum + body[8..])
    ensures out[..4] == field && out[36..] == body[32..]
  {
  }

  lemma Behind(a: seq<byte>, b: seq<byte>, c: seq<byte>)
    ensures (a + (b + ([] + c)))[|a| + |b|..] == c
  {
  }

  /** The first chunk carries the header and the size of the whole stream. */
  lemma FirstChunk(cr: Crypto, ctx: Ctx, seqno: nat, now: nat, data: seq<byte>, chunk: seq<byte>)
    returns (next: Ctx, out: seq<byte>)
    requires ValidCrypto(cr) && ReadyToStream(ctx, data) && 0 < |chunk| <= |data|
    ensures EncodeWrite(cr, ctx, seqno, now, chunk) == Returned((next, out))
    ensures next.state == 11 && !next.updateiv && next.aeskey == ctx.aeskey && |next.sendiv| == 16
    ensures |out| == 36 + |chunk| + PadLen(|chunk|, 16)
    ensures out[..4] == Le(PiecesTotal(|data|, ctx.packsize, PieceSize(16)) % TWO_TO_THE_32 + 32, 4)
    ensures AesDecrypt(cr.aes, ctx.aeskey, next.sendiv, out[36..]) == Returned(Some(chunk))
  {
    var stamped := Stamped(cr, ctx, seqno, now);
    EncryptedDecrypts(cr, stamped, chunk);
    var encoded := EncryptAckData(cr, stamped, chunk).value;
    var field := PiecesTotal(|data|, ctx.packsize, PieceSize(16)) % TWO_TO_THE_32 + 32;
    next := stamped.(state := 11);
    out := Le(field, 4) + Seal(cr.md5, AckBody(cr, stamped, encoded));
    StreamBody(cr, stamped, encoded, Le(field, 4), out);
  }

  /** `out` is read back as one frame exactly when what is behind its length field fits it. */
  predicate FrameIs(total: nat, out: seq<byte>, t: seq<byte>)
    requires |out| == 36 + total
  {
    ReadFrame(out + t) == Returned((out[4..], t)) <==> 32 + total < TWO_TO_THE_32
  }

  /** The length field in `first` announces a stream of the given total. */
  ghost predicate Delimits(total: nat, first: seq<byte>) {
    forall more: seq<byte>, t: seq<byte> | |first + more| == 36 + total :: FrameIs(total, first + more, t)
  }

  lemma FieldDelimits(total: nat, first: seq<byte>)
    requires |first| >= 36 && first[..4] == Le(total % TWO_TO_THE_32 + 32, 4)
    ensures Delimits(total, first)
  {
    forall more: seq<byte>, t: seq<byte> | |first + more| == 36 + total
      ensures FrameIs(total, first + more, t)
    {
      assert (first + more)[..4] == first[..4];
      StreamFrame(total, first + more, t);
    }
  }

  /** `out` is one frame: behind the length field come exactly the bytes it advertises, so
      that it is read back whole exactly when they fit the field, and its payload reads back
      as the data. */
  ghost predicate OneFrame(decode: Decode, piece: Piece, packsize: nat, data: seq<byte>, out: seq<byte>, t: seq<byte>)
    requires packsize > 0
  {
    var total := PiecesTotal(|data|, packsize, piece);
    && |out| == 36 + total
    && FrameIs(total, out, t)
    && ReadChunks(decode, piece, packsize, |data|, out, 36) == Some(data)
  }

  /** A stream comes out as one frame, and the chunks in it decrypt to what was streamed. */
  lemma StreamIsOneFrame(cr: Crypto, ctx: Ctx, seqno: nat, now: nat, data: seq<byte>, t: seq<byte>)
    requires ValidCrypto(cr) && ReadyToStream(ctx, data)
    ensures var r := WriteChunks(Writer(cr, seqno, now), ctx.packsize, ctx, data);
      && r.Returned?
      && OneFrame(Decoder(cr, ctx.aeskey, r.value.0.sendiv), PieceSize(16), ctx.packsize, data, r.value.1, t)
  {
    var next, first := StreamOpens(cr, ctx, seqno, now, data);
    var write, decode := Writer(cr, seqno, now), Decoder(cr, ctx.aeskey, next.sendiv);
    var d := ChunkSize(|data|, ctx.packsize);
    var out := OpenedStream(write, decode, PieceSize(16), ctx.packsize, ctx, next, first, data, d, t);
  }

  /** The first chunk of a stream, as the writer and the peer see it. */
  lemma StreamOpens(cr: Crypto, ctx: Ctx, seqno: nat, now: nat, data: seq<byte>) returns (next: Ctx, first: seq<byte>)
    requires ValidCrypto(cr) && ReadyToStream(ctx, data)
    ensures
      var d, write := ChunkSize(|data|, ctx.packsize), Writer(cr, seqno, now);
      var decode := Decoder(cr, ctx.aeskey, next.sendiv);
      && Steady(write, decode, PieceSize(16), next)
      && write(ctx, data[..d]) == Returned((next, first)) && |first| == 36 + PieceSize(16)(d)
      && decode(first[36..]) == Some(data[..d])
    ensures Delimits(PiecesTotal(|data|, ctx.packsize, PieceSize(16)), first)
  {
    var d := ChunkSize(|data|, ctx.packsize);
    next, first := FirstChunk(cr, ctx, seqno, now, data, data[..d]);
    LaterWritesAreSteady(cr, next, seqno, now);
    FieldDelimits(PiecesTotal(|data|, ctx.packsize, PieceSize(16)), first);
  }

  /** The same over any writer whose first chunk opens the stream and leaves a steady state. */
  lemma OpenedStream<C(!new)>(
      write: Write<C>, decode: Decode, piece: Piece, packsize: nat,
      ctx: C, next: C, first: seq<byte>, data: seq<byte>, d: nat, t: seq<byte>) returns (out: seq<byte>)
    requires packsize > 0 && data != [] && Steady(write, decode, piece, next) && d == ChunkSize(|data|, packsize)
    requires |first| == 36 + piece(d)
    requires write(ctx, data[..d]) == Returned((next, first)) && decode(first[36..]) == Some(data[..d])
    requires Delimits(PiecesTotal(|data|, packsize, piece), first)
    ensures WriteChunks(write, packsize, ctx, data) == Returned((next, out))
    ensures OneFrame(decode, piece, packsize, data, out, t)
  {
    var more := SteadyChunks(write, decode, piece, packsize, next, data[d..]);
    out := first + more;
    WriteChunksStep(write, packsize, ctx, next, data, first, next, more);
    OpenedFrame(decode, piece, packsize, first, more, data, d, t);
  }

  lemma OpenedFrame(
      decode: Decode, piece: Piece, packsize: nat, first: seq<byte>, more: seq<byte>, data: seq<byte>, d: nat,
      t: seq<byte>)
    requires packsize > 0 && data != [] && d == ChunkSize(|data|, packsize)
    requires |first| == 36 + piece(d) && decode(first[36..]) == Some(data[..d])
    requires Delimits(PiecesTotal(|data|, packsize, piece), first)
    requires |more| == PiecesTotal(|data| - d, packsize, piece)
    requires ReadChunks(decode, piece, packsize, |data| - d, more, 0) == Some(data[d..])
    ensures OneFrame(decode, piece, packsize, data, first + more, t)
  {
    ReadChunksStep(decode, piece, packsize, data, d, first, 36, more);
    PiecesStep(|data|, packsize, piece);
    assert |first + more| == 36 + PiecesTotal(|data|, packsize, piece);
  }

  /** A length field that counts modulo 2^32 what follows it delimits it if it can. */
  lemma StreamFrame(total: nat, out: seq<byte>, t: seq<byte>)
    requires |out| == 36 + total && out[..4] == Le(total % TWO_TO_THE_32 + 32, 4)
    ensures ReadFrame(out + t) == Returned((out[4..], t)) <==> 32 + total < TWO_TO_THE_32
  {
    var n := total % TWO_TO_THE_32 + 32;
    if 32 + total < TWO_TO_THE_32 {
      PrefixReads(n, out[4..], t);
      assert out + t == Le(n, 4) + out[4..] + t;
    } else {
      ReadIsFrame(out + t);
    }
  }
}
