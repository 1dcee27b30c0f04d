/** Block padding: cipher2/pad.go. */
module Padding {
  import opened Bytes
  import opened Division
  import opened Outcomes

  /** The number of pad bytes: 1 up to a whole block. */
  function PadLen(size: nat, blocklen: nat): (p: nat)
    requires blocklen > 0
    ensures 1 <= p <= blocklen
  {
    blocklen - size % blocklen
  }

  /** Adding up to that many bytes completes the last block just with the last one. */
  lemma Completes(size: nat, p: nat, blocklen: nat)
    requires blocklen > 0 && 1 <= p <= PadLen(size, blocklen)
    ensures (size + p) % blocklen == 0 <==> p == PadLen(size, blocklen)
  {
    AddSmall(size, p, blocklen);
  }

  /** PKCS#7 padding (section 6.3 of RFC 5652), the length cut to a byte as the code does. */
  function Padded(data: seq<byte>, blocklen: nat): (r: seq<byte>)
    requires blocklen > 0
    ensures |r| == |data| + PadLen(|data|, blocklen) && |r| % blocklen == 0
  {
    var p := PadLen(|data|, blocklen);
    Completes(|data|, p, blocklen);
    data + seq(p, _ => p % 256)
  }

  predicate EndsWith(data: seq<byte>, p: nat, b: byte) {
    p <= |data| && forall i | |data| - p <= i < |data| :: data[i] == b
  }

  function Unpadded(data: seq<byte>, blocklen: nat): Option<seq<byte>>
    requires blocklen > 0
  {
    if |data| % blocklen != 0 || data == [] then None
    else
      var p := data[|data| - 1];
      if p > blocklen || p == 0 || !EndsWith(data, p, p) then None
      else Some(data[..|data| - p])
  }

  /** A number of pad bytes that completes a block and is no more than one is the number. */
  lemma PadLenUnique(size: nat, p: nat, blocklen: nat)
    requires 1 <= p <= blocklen && (size + p) % blocklen == 0
    ensures PadLen(size, blocklen) == p
  {
    var whole := PadLen(size, blocklen);
    Completes(size, whole, blocklen);
    if p < whole {
      Completes(size, p, blocklen);
    } else if p > whole {
      AddSmall(size + whole, p - whole, blocklen);
    }
  }

  method Pkcs7Pad(data: seq<byte>, blocklen: int) returns (r: Option<seq<byte>>)
    ensures r == if blocklen <= 0 then None else Some(Padded(data, blocklen))
  {
    if blocklen <= 0 {
      return None;
    }
    var padlen: nat := 1;
    Completes(|data|, padlen, blocklen);
    while (|data| + padlen) % blocklen != 0
      invariant 1 <= padlen <= PadLen(|data|, blocklen)
      invariant (|data| + padlen) % blocklen == 0 <==> padlen == PadLen(|data|, blocklen)
      decreases PadLen(|data|, blocklen) - padlen
    {
      padlen := padlen + 1;
      Completes(|data|, padlen, blocklen);
    }
    r := Some(data + seq(padlen, _ => padlen % 256));
  }

  method Pkcs7Unpad(data: seq<byte>, blocklen: int) returns (r: Option<seq<byte>>)
    ensures r == if blocklen <= 0 then None else Unpadded(data, blocklen)
  {
    if blocklen <= 0 {
      return None;
    }
    if |data| % blocklen != 0 || |data| == 0 {
      return None;
    }
    var padlen := data[|data| - 1];
    if padlen > blocklen || padlen == 0 {
      return None;
    }
    assert |data| >= blocklen;
    var pad := data[|data| - padlen..];
    for i := 0 to padlen
      invariant forall j | 0 <= j < i :: pad[j] == padlen
    {
      if pad[i] != padlen {
        assert data[|data| - padlen + i] == pad[i];
        return None;
      }
    }
    assert forall j | 0 <= j < padlen :: data[|data| - padlen + j] == pad[j];
    assert EndsWith(data, padlen, padlen) by {
      forall i | |data| - padlen <= i < |data|
        ensures data[i] == padlen
      {
        assert data[i] == pad[i - (|data| - padlen)];
      }
    }
    r := Some(data[..|data| - padlen]);
  }

  /** Unpadding undoes padding exactly when the pad length fits in the byte that stores it;
      for block lengths up to 255 it always does. */
  lemma UnpadUndoesPad(data: seq<byte>, blocklen: nat)
    requires blocklen > 0
    ensures Unpadded(Padded(data, blocklen), blocklen) == Some(data) <==> PadLen(|data|, blocklen) <= 255
    ensures blocklen <= 255 ==> Unpadded(Padded(data, blocklen), blocklen) == Some(data)
  {
  }

  /** What unpads was padded, whatever the block length. */
  lemma PadUndoesUnpad(x: seq<byte>, blocklen: nat)
    requires blocklen > 0 && Unpadded(x, blocklen).Some?
    ensures Padded(Unpadded(x, blocklen).value, blocklen) == x
  {
    var d := Unpadded(x, blocklen).value;
    var p: nat := x[|x| - 1];
    assert |d| + p == |x|;
    PadLenUnique(|d|, p, blocklen);
    assert x == d + x[|d|..];
  }

  function ZeroPadded(data: seq<byte>, blocklen: nat): (r: seq<byte>)
    requires blocklen > 0
  {
    if |data| % blocklen == 0 then data else data + seq(blocklen - |data| % blocklen, _ => 0)
  }

  method ZeroPad(data: seq<byte>, blocklen: int) returns (r: Option<seq<byte>>)
    ensures r == if blocklen <= 0 then None else Some(ZeroPadded(data, blocklen))
  {
    if blocklen <= 0 {
      return None;
    }
    var padlen := |data| % blocklen;
    if padlen == 0 {
      return Some(data);
    }
    padlen := blocklen - padlen;
    r := Some(data + seq(padlen, _ => 0));
  }

  /** Zero padding completes the last block with fewer than blocklen zeros. */
  lemma ZeroPadCompletes(data: seq<byte>, blocklen: nat)
    requires blocklen > 0
    ensures var r := ZeroPadded(data, blocklen);
      && |r| % blocklen == 0 && data <= r && |r| - |data| < blocklen
      && forall i | |data| <= i < |r| :: r[i] == 0
  {
    Completes(|data|, PadLen(|data|, blocklen), blocklen);
  }
}
