/** Block modes over any block cipher: the ECB loops of cipher2/ecbaes.go (section 6.1 of NIST
    SP 800-38A) and the CBC wrappers of cipher2/crypt.go (section 6.2). AES itself is a
    parameter: a pair of functions that undo each other on whole blocks. */
module BlockModes {
  import opened Bytes
  import opened Division
  import opened Outcomes
  import opened Padding

  datatype BlockCipher = BlockCipher(blockSize: nat, encrypt: seq<byte> -> seq<byte>, decrypt: seq<byte> -> seq<byte>)

  /** On the block b, f keeps the length and g undoes it. */
  ghost predicate Inverts(f: seq<byte> -> seq<byte>, g: seq<byte> -> seq<byte>, size: nat, b: seq<byte>) {
    |b| == size ==> |f(b)| == size && g(f(b)) == b
  }

  ghost predicate Valid(c: BlockCipher) {
    && c.blockSize > 0
    && (forall b: seq<byte> :: Inverts(c.encrypt, c.decrypt, c.blockSize, b))
    && (forall b: seq<byte> :: Inverts(c.decrypt, c.encrypt, c.blockSize, b))
  }

  /** f keeps the length of a block. */
  ghost predicate KeepsBlocks(f: seq<byte> -> seq<byte>, size: nat) {
    size > 0 && forall b: seq<byte> | |b| == size :: |f(b)| == size
  }

  lemma ValidKeepsBlocks(c: BlockCipher)
    requires Valid(c)
    ensures KeepsBlocks(c.encrypt, c.blockSize) && KeepsBlocks(c.decrypt, c.blockSize)
  {
    forall b: seq<byte> | |b| == c.blockSize
      ensures |c.encrypt(b)| == c.blockSize && |c.decrypt(b)| == c.blockSize
    {
      assert Inverts(c.encrypt, c.decrypt, c.blockSize, b) && Inverts(c.decrypt, c.encrypt, c.blockSize, b);
    }
  }

  lemma DropBlock(n: nat, size: nat)
    requires size > 0 && n > 0 && n % size == 0
    ensures n >= size && (n - size) % size == 0
  {
    AddMultiple(n, -1, size);
  }

  // ------------------------------------------------------------------ ECB

  /** f on every block. */
  ghost function MapBlocks(f: seq<byte> -> seq<byte>, size: nat, s: seq<byte>): (r: seq<byte>)
    requires KeepsBlocks(f, size) && |s| % size == 0
    ensures |r| == |s|
  {
    if s == [] then []
    else DropBlock(|s|, size); f(s[..size]) + MapBlocks(f, size, s[size..])
  }

  lemma {:induction false} MapBlocksSnoc(f: seq<byte> -> seq<byte>, size: nat, s: seq<byte>, b: seq<byte>)
    requires KeepsBlocks(f, size) && |s| % size == 0 && |b| == size
    ensures |s + b| % size == 0
    ensures MapBlocks(f, size, s + b) == MapBlocks(f, size, s) + f(b)
  {
    AddMultiple(|s|, 1, size);
    var t := s + b;
    if s == [] {
      assert t[..size] == b && t[size..] == [];
    } else {
      DropBlock(|s|, size);
      MapBlocksSnoc(f, size, s[size..], b);
      assert t[..size] == s[..size] && t[size..] == s[size..] + b;
    }
  }

  /** Mapping a block function and then its inverse changes nothing. */
  lemma {:induction false} MapBlocksInverse(
    f: seq<byte> -> seq<byte>, g: seq<byte> -> seq<byte>, size: nat, s: seq<byte>)
    requires KeepsBlocks(f, size) && KeepsBlocks(g, size) && |s| % size == 0
    requires forall b: seq<byte> :: Inverts(f, g, size, b)
    ensures MapBlocks(g, size, MapBlocks(f, size, s)) == s
  {
    if s != [] {
      DropBlock(|s|, size);
      var t := MapBlocks(f, size, s);
      assert Inverts(f, g, size, s[..size]);
      MapBlocksInverse(f, g, size, s[size..]);
      assert t[..size] == f(s[..size]) && t[size..] == MapBlocks(f, size, s[size..]);
    }
  }

  /** Each block is mapped by itself, in its place. */
  lemma {:induction false} BlockIsMapped(f: seq<byte> -> seq<byte>, size: nat, s: seq<byte>, at: nat)
    requires KeepsBlocks(f, size) && |s| % size == 0 && at % size == 0 && at + size <= |s|
    ensures MapBlocks(f, size, s)[at..at + size] == f(s[at..at + size])
    decreases at
  {
    DropBlock(|s|, size);
    var t := MapBlocks(f, size, s);
    if at > 0 {
      DropBlock(at, size);
      BlockIsMapped(f, size, s[size..], at - size);
      assert s[size..][at - size..at] == s[at..at + size];
      assert t[size..][at - size..at] == t[at..at + size];
    }
  }

  /** One block: dst[i..] gets f of src[i..], where dst may be src. */
  method CryptBlock(f: seq<byte> -> seq<byte>, size: nat, dst: array<byte>, src: array<byte>, i: nat)
    requires KeepsBlocks(f, size) && i + size <= src.Length <= dst.Length
    modifies dst
    ensures dst[..] == old(dst[..i] + f(src[i..i + size]) + dst[i + size..])
  {
    var out := f(src[i..i + size]);
    for k := 0 to size
      invariant forall j | 0 <= j < dst.Length :: dst[j] == if i <= j < i + k then out[j - i] else old(dst[j])
    {
      dst[i + k] := out[k];
    }
    assert dst[..i] == old(dst[..i]) && dst[i..i + size] == out && dst[i + size..] == old(dst[i + size..]);
    assert dst[..] == dst[..i] + dst[i..i + size] + dst[i + size..];
  }

  lemma NextBlock(f: seq<byte> -> seq<byte>, size: nat, input: seq<byte>, i: nat)
    requires KeepsBlocks(f, size) && i + size <= |input| && i % size == 0
    ensures (i + size) % size == 0
    ensures MapBlocks(f, size, input[..i + size]) == MapBlocks(f, size, input[..i]) + f(input[i..i + size])
  {
    MapBlocksSnoc(f, size, input[..i], input[i..i + size]);
    assert input[..i] + input[i..i + size] == input[..i + size];
  }

  /** Both CryptBlocks loops, in place when dst is src; `ok` is false where Go panics. */
  method CryptBlocks(f: seq<byte> -> seq<byte>, size: nat, dst: array<byte>, src: array<byte>) returns (ok: bool)
    requires KeepsBlocks(f, size)
    modifies dst
    ensures ok <==> src.Length % size == 0 && src.Length <= dst.Length
    ensures !ok ==> dst[..] == old(dst[..])
    ensures ok ==> dst[..] == MapBlocks(f, size, old(src[..])) + old(dst[src.Length..])
  {
    if src.Length % size != 0 || dst.Length < src.Length {
      return false;
    }
    ghost var input, rest := src[..], dst[..];
    var i: nat := 0;
    assert input[..0] == [];
    while i < src.Length
      invariant i <= src.Length && i % size == 0 && (src.Length - i) % size == 0
      invariant dst[..] == MapBlocks(f, size, input[..i]) + rest[i..]
      invariant src[i..] == input[i..]
      decreases src.Length - i
    {
      DropBlock(src.Length - i, size);
      ghost var done := MapBlocks(f, size, input[..i]);
      assert dst[..i] == done && dst[i + size..] == rest[i + size..];
      assert src[i..i + size] == src[i..][..size] == input[i..i + size];
      assert src[i + size..] == src[i..][size..];
      CryptBlock(f, size, dst, src, i);
      NextBlock(f, size, input, i);
      i := i + size;
    }
    assert input[..i] == input;
    ok := true;
  }

  /** Decrypting in ECB the encryption of zero-padded data gives the data back, followed by
      fewer than one block of zeros. */
  lemma EcbRoundTrip(c: BlockCipher, data: seq<byte>)
    requires Valid(c)
    ensures |ZeroPadded(data, c.blockSize)| % c.blockSize == 0
    ensures KeepsBlocks(c.encrypt, c.blockSize) && KeepsBlocks(c.decrypt, c.blockSize)
    ensures var size := c.blockSize;
      var out := MapBlocks(c.decrypt, size, MapBlocks(c.encrypt, size, ZeroPadded(data, size)));
      && data <= out && |out| - |data| < c.blockSize && forall i | |data| <= i < |out| :: out[i] == 0
  {
    ValidKeepsBlocks(c);
    ZeroPadCompletes(data, c.blockSize);
    MapBlocksInverse(c.encrypt, c.decrypt, c.blockSize, ZeroPadded(data, c.blockSize));
  }

  // ------------------------------------------------------------------ CBC

  function CbcEncrypt(c: BlockCipher, iv: seq<byte>, s: seq<byte>): (r: seq<byte>)
    requires Valid(c) && |iv| == c.blockSize && |s| % c.blockSize == 0
    ensures |r| == |s|
    decreases |s|
  {
    if s == [] then []
    else
      DropBlock(|s|, c.blockSize);
      var x := XorSeq(s[..c.blockSize], iv);
      assert Inverts(c.encrypt, c.decrypt, c.blockSize, x);
      var b := c.encrypt(x);
      b + CbcEncrypt(c, b, s[c.blockSize..])
  }

  function CbcDecrypt(c: BlockCipher, iv: seq<byte>, s: seq<byte>): (r: seq<byte>)
    requires Valid(c) && |iv| == c.blockSize && |s| % c.blockSize == 0
    ensures |r| == |s|
    decreases |s|
  {
    if s == [] then []
    else
      DropBlock(|s|, c.blockSize);
      var b := s[..c.blockSize];
      assert Inverts(c.decrypt, c.encrypt, c.blockSize, b);
      XorSeq(c.decrypt(b), iv) + CbcDecrypt(c, b, s[c.blockSize..])
  }

  /** The ciphertext block before offset `at`, which the block there is chained to. */
  function Previous(iv: seq<byte>, size: nat, cipher: seq<byte>, at: nat): seq<byte>
    requires at <= |cipher| && (at > 0 ==> size <= at)
  {
    if at == 0 then iv else cipher[at - size..at]
  }

  lemma PreviousShifts(iv: seq<byte>, size: nat, cipher: seq<byte>, at: nat)
    requires 0 < size <= at <= |cipher| && (at > size ==> 2 * size <= at)
    ensures Previous(iv, size, cipher, at) == Previous(cipher[..size], size, cipher[size..], at - size)
  {
  }

  /** Section 6.2 of NIST SP 800-38A: a block of ciphertext is the encryption of the block of
      plaintext xor the ciphertext block before it, or the IV. */
  lemma {:induction false} CbcEncryptChains(c: BlockCipher, iv: seq<byte>, s: seq<byte>, at: nat)
    requires Valid(c) && |iv| == c.blockSize && |s| % c.blockSize == 0
    requires at % c.blockSize == 0 && at + c.blockSize <= |s|
    ensures at > 0 ==> c.blockSize <= at
    ensures var size, r := c.blockSize, CbcEncrypt(c, iv, s);
      && |Previous(iv, size, r, at)| == size
      && r[at..at + size] == c.encrypt(XorSeq(s[at..at + size], Previous(iv, size, r, at)))
    decreases at
  {
    var size, r := c.blockSize, CbcEncrypt(c, iv, s);
    DropBlock(|s|, size);
    var b := c.encrypt(XorSeq(s[..size], iv));
    assert Inverts(c.encrypt, c.decrypt, size, XorSeq(s[..size], iv));
    assert r[..size] == b && r[size..] == CbcEncrypt(c, b, s[size..]);
    if at > 0 {
      DropBlock(at, size);
      CbcEncryptChains(c, b, s[size..], at - size);
      PreviousShifts(iv, size, r, at);
      assert s[size..][at - size..at] == s[at..at + size];
      assert r[size..][at - size..at] == r[at..at + size];
    }
  }

  /** And a block of plaintext is the decryption of that of ciphertext xor the same. */
  lemma {:induction false} CbcDecryptChains(c: BlockCipher, iv: seq<byte>, s: seq<byte>, at: nat)
    requires Valid(c) && |iv| == c.blockSize && |s| % c.blockSize == 0
    requires at % c.blockSize == 0 && at + c.blockSize <= |s|
    ensures at > 0 ==> c.blockSize <= at
    ensures var size, r := c.blockSize, CbcDecrypt(c, iv, s);
      && |c.decrypt(s[at..at + size])| == size == |Previous(iv, size, s, at)|
      && r[at..at + size] == XorSeq(c.decrypt(s[at..at + size]), Previous(iv, size, s, at))
    decreases at
  {
    var size, r := c.blockSize, CbcDecrypt(c, iv, s);
    DropBlock(|s|, size);
    var b := s[..size];
    assert Inverts(c.decrypt, c.encrypt, size, b);
    assert r[..size] == XorSeq(c.decrypt(b), iv) && r[size..] == CbcDecrypt(c, b, s[size..]);
    if at > 0 {
      DropBlock(at, size);
      CbcDecryptChains(c, b, s[size..], at - size);
      PreviousShifts(iv, size, s, at);
      assert s[size..][at - size..at] == s[at..at + size];
      assert r[size..][at - size..at] == r[at..at + size];
    }
  }

  lemma {:induction false} CbcDecryptUndoes(c: BlockCipher, iv: seq<byte>, s: seq<byte>)
    requires Valid(c) && |iv| == c.blockSize && |s| % c.blockSize == 0
    ensures CbcDecrypt(c, iv, CbcEncrypt(c, iv, s)) == s
    decreases |s|
  {
    if s != [] {
      DropBlock(|s|, c.blockSize);
      var first, rest := s[..c.blockSize], s[c.blockSize..];
      var b := c.encrypt(XorSeq(first, iv));
      assert Inverts(c.encrypt, c.decrypt, c.blockSize, XorSeq(first, iv));
      var t := CbcEncrypt(c, iv, s);
      assert t[..c.blockSize] == b && t[c.blockSize..] == CbcEncrypt(c, b, rest);
      CbcDecryptUndoes(c, b, rest);
      XorSeqCancels(first, iv);
      assert first + rest == s;
    }
  }

  lemma {:induction false} CbcEncryptUndoes(c: BlockCipher, iv: seq<byte>, s: seq<byte>)
    requires Valid(c) && |iv| == c.blockSize && |s| % c.blockSize == 0
    ensures CbcEncrypt(c, iv, CbcDecrypt(c, iv, s)) == s
    decreases |s|
  {
    if s != [] {
      DropBlock(|s|, c.blockSize);
      var b, rest := s[..c.blockSize], s[c.blockSize..];
      assert Inverts(c.decrypt, c.encrypt, c.blockSize, b);
      var first := XorSeq(c.decrypt(b), iv);
      var t := CbcDecrypt(c, iv, s);
      assert t[..c.blockSize] == first && t[c.blockSize..] == CbcDecrypt(c, b, rest);
      XorSeqCancels(c.decrypt(b), iv);
      CbcEncryptUndoes(c, b, rest);
      assert b + rest == s;
    }
  }

  // ------------------------------------------------------------------ the AES wrappers

  /** aes.NewCipher accepts keys of 16, 24 and 32 bytes, and its blocks have 16. */
  ghost predicate ValidAes(aes: seq<byte> -> BlockCipher) {
    forall key: seq<byte> | KeyOk(key) :: aes(key).blockSize == 16 && Valid(aes(key))
  }

  predicate KeyOk(key: seq<byte>) {
    |key| == 16 || |key| == 24 || |key| == 32
  }

  /** AesEncrypt: None is the error return. */
  function AesEncrypt(aes: seq<byte> -> BlockCipher, key: seq<byte>, iv: seq<byte>, data: seq<byte>)
      : Result<Option<seq<byte>>>
    requires ValidAes(aes)
  {
    if !KeyOk(key) then Returned(None)
    else if |iv| != 16 then Panicked
    else Returned(Some(CbcEncrypt(aes(key), iv, Padded(data, 16))))
  }

  function AesDecrypt(aes: seq<byte> -> BlockCipher, key: seq<byte>, iv: seq<byte>, data: seq<byte>)
      : Result<Option<seq<byte>>>
    requires ValidAes(aes)
  {
    if data == [] then Panicked
    else if !KeyOk(key) then Returned(None)
    else if |iv| != 16 || |data| % 16 != 0 then Panicked
    else Returned(Unpadded(CbcDecrypt(aes(key), iv, data), 16))
  }

  /** Decryption undoes encryption of every input, the empty one included. */
  lemma AesDecryptUndoesEncrypt(aes: seq<byte> -> BlockCipher, key: seq<byte>, iv: seq<byte>, data: seq<byte>)
    requires ValidAes(aes) && KeyOk(key) && |iv| == 16
    ensures var r := AesEncrypt(aes, key, iv, data);
      && r.Returned? && r.value.Some?
      && |r.value.value| == |data| + PadLen(|data|, 16)
      && AesDecrypt(aes, key, iv, r.value.value) == Returned(Some(data))
  {
    CbcDecryptUndoes(aes(key), iv, Padded(data, 16));
    UnpadUndoesPad(data, 16);
  }

  /** And whatever decrypts is the encryption of what it decrypts to. */
  lemma AesEncryptUndoesDecrypt(aes: seq<byte> -> BlockCipher, key: seq<byte>, iv: seq<byte>, data: seq<byte>)
    requires ValidAes(aes)
    requires var r := AesDecrypt(aes, key, iv, data); r.Returned? && r.value.Some?
    ensures AesEncrypt(aes, key, iv, AesDecrypt(aes, key, iv, data).value.value) == Returned(Some(data))
  {
    PadUndoesUnpad(CbcDecrypt(aes(key), iv, data), 16);
    CbcEncryptUndoes(aes(key), iv, data);
  }

  /** Decryption panics on no data, and on an IV or data of the wrong size for a good key; it
      gives an error exactly when the data is the encryption of nothing. */
  lemma AesDecryptExactly(aes: seq<byte> -> BlockCipher, key: seq<byte>, iv: seq<byte>, data: seq<byte>)
    requires ValidAes(aes)
    ensures var r := AesDecrypt(aes, key, iv, data);
      && (r.Panicked? <==> data == [] || (|key| in {16, 24, 32} && (|iv| != 16 || |data| % 16 != 0)))
      && (r == Returned(None) <==> !r.Panicked? && forall x :: AesEncrypt(aes, key, iv, x) != Returned(Some(data)))
  {
    if x :| AesEncrypt(aes, key, iv, x) == Returned(Some(data)) {
      AesDecryptUndoesEncrypt(aes, key, iv, x);
    }
    if AesDecrypt(aes, key, iv, data).Returned? && AesDecrypt(aes, key, iv, data).value.Some? {
      AesEncryptUndoesDecrypt(aes, key, iv, data);
    }
  }
}
