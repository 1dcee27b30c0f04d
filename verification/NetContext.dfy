/** The connection context as an object: the methods of netserve/context.go and
    netserve/transcipher.go that update it, in place, against the functions of Session. */
module NetContext {
  import opened BlockModes
  import opened Bytes
  import opened Outcomes
  import opened Packet
  import opened Repeats
  import opened Session
  import opened StreamSize
  import opened Words

  class Context {
    var aeskey: seq<byte>
    var recviv: seq<byte>
    var sendiv: seq<byte>
    var recvsig: nat
    var seqno: nat
    var ack: nat
    var state: nat
    var nonce: nat
    var updateiv: bool
    var stream: bool
    var size: int
    var packsize: int

    constructor ()
      ensures Value() == NEW_CONTEXT
    {
      aeskey, recviv, sendiv, recvsig, seqno, ack := [], [], [], 0, 0, 0;
      state, nonce, updateiv, stream, size, packsize := 0, 0, false, false, 0, 0;
    }

    function Value(): Ctx
      reads this
    {
      Ctx(aeskey, recviv, sendiv, recvsig, seqno, ack, state, nonce, updateiv, stream, size, packsize)
    }

    method UpdateIv(cr: Crypto)
      modifies this
      ensures Value() == UpdatedIv(cr, old(Value()))
    {
      if !updateiv {
        return;
      }
      sendiv := cr.md5(recviv + Le(nonce, 8) + Le(seqno, 4) + Le(recvsig, 8));
      updateiv := false;
    }

    method BuildAckHdr(cr: Crypto, now: nat) returns (h: Hdr)
      modifies this
      ensures Value() == Stamped(cr, old(Value()), old(seqno), now)
      ensures h == AckHdr(Value())
    {
      var msgtype := if state == 2 then 2 else if stream then 4 else 3;
      h := Hdr(0, msgtype, 2, seqno, now);
      nonce := now;
      UpdateIv(cr);
    }

    /** The length field, or a panic where the context cannot stream the data. */
    method StreamLength(data: seq<byte>, content: seq<byte>) returns (r: Result<nat>)
      requires KeyOk(aeskey)
      ensures r.Panicked? <==> stream && !CanStream(Value(), data)
      ensures r.Returned? ==> (stream ==> size >= 0 && packsize > 0) && r.value == LengthField(Value(), content)
    {
      if !stream {
        return Returned(|content|);
      }
      if state == 2 || size < |data| || packsize <= 0 {
        return Panicked;
      }
      var total := CalcStreamSize(size, packsize, |aeskey|);
      r := Returned(total % TWO_TO_THE_32 + HDR_SIZE + 4);
    }

    /** Header, acknowledgement, signature and payload, before the checksum is filled in. */
    method BuildBody(cr: Crypto, now: nat, data: seq<byte>) returns (r: Result<seq<byte>>)
      requires ValidCrypto(cr)
      modifies this
      ensures Value() == Stamped(cr, old(Value()), old(seqno), now)
      ensures r.Returned? <==> EncryptAckData(cr, Value(), data).Returned?
      ensures r.Returned? ==> KeyOk(aeskey) && r.value == AckBody(cr, Value(), EncryptAckData(cr, Value(), data).value)
    {
      var h := BuildAckHdr(cr, now);
      EncryptedDecrypts(cr, Value(), data);
      var encoded := EncryptAckData(cr, Value(), data);
      if encoded.Panicked? {
        return Panicked;
      }
      var sig := if state == 2 then cr.sign(encoded.value) else [];
      r := Returned(HdrBytes(h) + (Le(ack + 1, 4) + (sig + encoded.value)));
    }

    /** The length field and the packet, which is built in a buffer whose checksum field is
        cleared, hashed and filled. */
    method Emit(cr: Crypto, data: seq<byte>, content: seq<byte>) returns (r: Result<seq<byte>>)
      requires ValidCrypto(cr) && KeyOk(aeskey) && |content| >= 8
      ensures r.Panicked? <==> stream && !CanStream(Value(), data)
      ensures r.Returned? ==> stream ==> size >= 0 && packsize > 0
      ensures r.Returned? ==> r.value == Le(LengthField(Value(), content), 4) + Seal(cr.md5, content)
    {
      var length := StreamLength(data, content);
      if length.Panicked? {
        return Panicked;
      }
      var sealed := SealBuffer(cr.md5, content);
      r := Returned(Le(length.value, 4) + sealed);
    }

    method WriteAck(cr: Crypto, newSeq: nat, now: nat, data: seq<byte>) returns (r: Result<seq<byte>>)
      requires ValidCrypto(cr)
      modifies this
      ensures r.Returned? <==> WriteAckData(cr, old(Value()), newSeq, now, data).Returned?
      ensures r.Returned? ==> WriteAckData(cr, old(Value()), newSeq, now, data) == Returned((Value(), r.value))
    {
      seqno := newSeq;
      var content := BuildBody(cr, now, data);
      assert Value() == Stamped(cr, old(Value()), newSeq, now);
      if content.Panicked? {
        return Panicked;
      }
      r := Emit(cr, data, content.value);
      if r.Returned? {
        state := state + 1;
      }
    }

    method Encode(cr: Crypto, newSeq: nat, now: nat, data: seq<byte>) returns (r: Result<seq<byte>>)
      requires ValidCrypto(cr)
      modifies this
      ensures r.Returned? <==> EncodeWrite(cr, old(Value()), newSeq, now, data).Returned?
      ensures r.Returned? ==> EncodeWrite(cr, old(Value()), newSeq, now, data) == Returned((Value(), r.value))
    {
      if state == 2 || state == 10 {
        r := WriteAck(cr, newSeq, now, data);
      } else {
        UpdateIv(cr);
        r := EncryptAckData(cr, Value(), data);
      }
    }

    method CheckSetAck(number: nat) returns (ok: bool)
      modifies this`ack
      ensures ok <==> Accepts(old(ack), number)
      ensures ack == number
    {
      ok := ack == 0 || ack != number;
      ack := number;
    }

    /** The buffer loses its checksum field on the way; nothing that is read afterwards
        depends on it. */
    method Decode(cr: Crypto, data: array<byte>) returns (r: Result<Option<seq<byte>>>)
      requires ValidCrypto(cr)
      modifies this, data
      ensures r.Returned? <==> DecodeData(cr, old(Value()), old(data[..])).Returned?
      ensures r.Returned? ==> DecodeData(cr, old(Value()), old(data[..])) == Returned((Value(), r.value))
    {
      if data.Length < HDR_SIZE {
        return Panicked;
      }
      var h, ok := OpenBuffer(cr.md5, data);
      if !ok {
        return Panicked;
      }
      ok := CheckSetAck(h.seqno);
      if !ok {
        return Returned(None);
      }
      ack := h.seqno;
      var plain := DecryptSyncData(cr, h, data[HDR_SIZE..]);
      if plain.Panicked? {
        return Panicked;
      }
      Adopt(h, plain.value.1, plain.value.2);
      r := Returned(Some(plain.value.0));
    }

    method Adopt(h: Hdr, key: seq<byte>, iv: seq<byte>)
      modifies this
      ensures Value() == Adopted(old(Value()), h, key, iv)
    {
      ack := h.seqno;
      recvsig := h.checksum;
      recviv := iv;
      aeskey := key;
      updateiv := true;
      state := if h.msgtype == 1 then 2 else 10;
    }
  }
}
