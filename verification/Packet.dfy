/** The header and the checksum of a packet: TransPacketHdr and CalcCheckSum in
    netserve/transcipher.go. The hash is any function to 16 bytes. */
module Packet {
  import opened Bytes
  import opened Words

  datatype Hdr = Hdr(checksum: nat, msgtype: nat, version: nat, seqno: nat, nonce: nat)

  const HDR_SIZE := 28

  ghost predicate ValidHdr(h: Hdr) {
    && h.checksum < TWO_TO_THE_64 && h.nonce < TWO_TO_THE_64
    && h.msgtype < TWO_TO_THE_32 && h.version < TWO_TO_THE_32 && h.seqno < TWO_TO_THE_32
  }

  function HdrBytes(h: Hdr): (r: seq<byte>)
    ensures |r| == HDR_SIZE
  {
    Le(h.checksum, 8) + Le(h.msgtype, 4) + Le(h.version, 4) + Le(h.seqno, 4) + Le(h.nonce, 8)
  }

  function ParseHdr(s: seq<byte>): (h: Hdr)
    requires |s| >= HDR_SIZE
  {
    Hdr(FromLe(s[..8]), FromLe(s[8..12]), FromLe(s[12..16]), FromLe(s[16..20]), FromLe(s[20..28]))
  }

  /** The fields come back from their little-endian form. */
  lemma HdrRoundTrip(h: Hdr, t: seq<byte>)
    requires ValidHdr(h)
    ensures ParseHdr(HdrBytes(h) + t) == h
  {
    var s := HdrBytes(h) + t;
    assert s[..8] == Le(h.checksum, 8);
    assert s[8..12] == Le(h.msgtype, 4);
    assert s[12..16] == Le(h.version, 4);
    assert s[16..20] == Le(h.seqno, 4);
    assert s[20..28] == Le(h.nonce, 8);
    Widths();
    FromLeOfLe(h.checksum, 8);
    FromLeOfLe(h.msgtype, 4);
    FromLeOfLe(h.version, 4);
    FromLeOfLe(h.seqno, 4);
    FromLeOfLe(h.nonce, 8);
  }

  ghost predicate IsDigest(md5: seq<byte> -> seq<byte>) {
    forall x: seq<byte> :: |md5(x)| == 16
  }

  /** The checksum of a packet does not depend on the field that holds it. */
  function CheckSum(md5: seq<byte> -> seq<byte>, body: seq<byte>): (n: nat)
    requires IsDigest(md5) && |body| >= 8
    ensures n < TWO_TO_THE_64
  {
    Widths();
    FromLe(md5(Le(0, 8) + body[8..])[4..12])
  }

  /** Overwrites the first bytes of a buffer. */
  method Put(data: array<byte>, bytes: seq<byte>)
    requires |bytes| <= data.Length
    modifies data
    ensures data[..] == bytes + old(data[|bytes|..])
  {
    for i := 0 to |bytes|
      invariant forall k | 0 <= k < i :: data[k] == bytes[k]
      invariant forall k | i <= k < data.Length :: data[k] == old(data[k])
    {
      data[i] := bytes[i];
    }
  }

  /** CalcCheckSum clears the field in place. */
  method CalcCheckSum(md5: seq<byte> -> seq<byte>, data: array<byte>) returns (sum: nat)
    requires IsDigest(md5) && data.Length >= 8
    modifies data
    ensures sum == CheckSum(md5, old(data[..]))
    ensures data[..] == Le(0, 8) + old(data[8..])
  {
    Put(data, Le(0, 8));
    assert old(data[..])[8..] == old(data[8..]);
    sum := FromLe(md5(data[..])[4..12]);
  }

  /** The body with its checksum filled in. */
  function Seal(md5: seq<byte> -> seq<byte>, body: seq<byte>): (r: seq<byte>)
    requires IsDigest(md5) && |body| >= 8
    ensures |r| == |body|
  {
    Le(CheckSum(md5, body), 8) + body[8..]
  }

  /** Clear the checksum field of the buffer, hash it, and fill the field in. */
  method SealBuffer(md5: seq<byte> -> seq<byte>, content: seq<byte>) returns (sealed: seq<byte>)
    requires IsDigest(md5) && |content| >= 8
    ensures sealed == Seal(md5, content)
  {
    var body := new byte[|content|](i requires 0 <= i < |content| => content[i]);
    assert body[..] == content;
    var sum := CalcCheckSum(md5, body);
    assert body[8..] == content[8..];
    Put(body, Le(sum, 8));
    sealed := body[..];
  }

  /** The header of a received packet, if the checksum is right; the buffer loses its
      checksum field, and nothing behind it. */
  method OpenBuffer(md5: seq<byte> -> seq<byte>, data: array<byte>) returns (h: Hdr, ok: bool)
    requires IsDigest(md5) && data.Length >= HDR_SIZE
    modifies data
    ensures h == ParseHdr(old(data[..]))
    ensures ok <==> CheckSum(md5, old(data[..])) == h.checksum
    ensures data[HDR_SIZE..] == old(data[..])[HDR_SIZE..]
  {
    h := ParseHdr(data[..]);
    ghost var packet := data[..];
    var sum := CalcCheckSum(md5, data);
    ok := sum == h.checksum;
    assert data[HDR_SIZE..] == data[..][HDR_SIZE..] == packet[HDR_SIZE..];
  }

  lemma CheckSumIgnoresField(md5: seq<byte> -> seq<byte>, a: seq<byte>, b: seq<byte>)
    requires IsDigest(md5) && |a| >= 8 && |b| >= 8 && a[8..] == b[8..]
    ensures CheckSum(md5, a) == CheckSum(md5, b)
  {
  }

  /** On the wire the checksum is bytes 4 to 11 of the hash of the whole packet with eight
      zeros in its place. */
  lemma CheckSumOnWire(md5: seq<byte> -> seq<byte>, body: seq<byte>)
    requires IsDigest(md5) && |body| >= 8
    ensures Seal(md5, body) == md5([0, 0, 0, 0, 0, 0, 0, 0] + body[8..])[4..12] + body[8..]
    ensures CheckSum(md5, body) == FromLe(body[..8]) <==>
      body[..8] == md5([0, 0, 0, 0, 0, 0, 0, 0] + body[8..])[4..12]
  {
    assert Le(0, 8) == [0, 0, 0, 0, 0, 0, 0, 0];
    LeOfFromLe(md5(Le(0, 8) + body[8..])[4..12]);
    LeOfFromLe(body[..8]);
  }

  lemma SealedHdr(h: Hdr, t: seq<byte>, sum: nat)
    ensures Le(sum, 8) + (HdrBytes(h) + t)[8..] == HdrBytes(h.(checksum := sum)) + t
  {
    var rest := Le(h.msgtype, 4) + Le(h.version, 4) + Le(h.seqno, 4) + Le(h.nonce, 8);
    assert HdrBytes(h) == Le(h.checksum, 8) + rest;
    assert HdrBytes(h.(checksum := sum)) == Le(sum, 8) + rest;
    assert (Le(h.checksum, 8) + rest + t)[8..] == rest + t;
  }

  /** A sealed packet carries the header it was built from and passes the checksum test. */
  lemma SealPasses(md5: seq<byte> -> seq<byte>, h: Hdr, t: seq<byte>)
    requires IsDigest(md5) && ValidHdr(h)
    ensures var sealed := Seal(md5, HdrBytes(h) + t);
      && ParseHdr(sealed) == h.(checksum := CheckSum(md5, sealed))
      && sealed[HDR_SIZE..] == t
  {
    var body := HdrBytes(h) + t;
    var sum := CheckSum(md5, body);
    var sealed := Seal(md5, body);
    SealedHdr(h, t, sum);
    HdrRoundTrip(h.(checksum := sum), t);
    assert sealed[8..] == body[8..];
    CheckSumIgnoresField(md5, sealed, body);
  }
}
