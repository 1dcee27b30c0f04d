/** Signing and verifying URL values (netutils/webparams.go), over any hash function, any
    signature scheme and any text encoding of signatures. */
module ValuesSign {
  import opened Bytes
  import opened Outcomes
  import opened SignData

  const MD5: text := [0x6d, 0x64, 0x35]
  const RSA1: text := [0x72, 0x73, 0x61, 0x31]
  const RSA256: text := [0x72, 0x73, 0x61, 0x32]
  const SIGN_TYPE: text := [0x73, 0x69, 0x67, 0x6e, 0x5f, 0x74, 0x79, 0x70, 0x65]
  const KEY_SUFFIX: text := [0x26, 0x6b, 0x65, 0x79, 0x3d]

  /** Library calls. `md5` gives the hash in hexadecimal; `sha1` picks the hash that is signed.
      None stands for an error. */
  datatype Crypto = Crypto(
    md5: text -> text,
    sign: (text, text, bool) -> Option<text>,
    verify: (text, text, text, bool) -> Option<bool>,
    encode: text -> text,
    decode: text -> Option<text>)

  function SignWithKey(cr: Crypto, data: text, signType: text, key: text): Option<text> {
    if signType == MD5 then Some(cr.md5(data + (KEY_SUFFIX + key)))
    else if signType == RSA1 || signType == RSA256 then
      match cr.sign(data, key, signType == RSA1)
      case None => None
      case Some(sig) => Some(cr.encode(sig))
    else None
  }

  /** The answer of VerifyValuesSign for the data and the signature that it found. A type that
      is neither md5 nor rsa1 counts as rsa2. */
  function Verifies(cr: Crypto, data: text, sign: text, signType: text, key: text): bool {
    if data == [] then false
    else if signType == MD5 then SignWithKey(cr, data, signType, key) == Some(sign)
    else
      match cr.decode(sign)
      case None => false
      case Some(sig) => cr.verify(data, sig, key, signType == RSA1) == Some(true)
  }

  /** URL values that are changed in place. */
  class URLValues {
    var values: Values

    constructor (v: Values)
      ensures values == v
    {
      values := v;
    }

    method Set(key: text, value: text)
      modifies this
      ensures values == old(values)[key := [value]]
    {
      values := values[key := [value]];
    }

    /** The map is iterated in the given order once the type is stored. */
    method BuildValuesSign(cr: Crypto, signType: text, key: text, order: seq<text>) returns (sign: Option<text>)
      requires Enumerates(order, values[SIGN_TYPE := [signType]])
      modifies this
      ensures values == old(values)[SIGN_TYPE := [signType]]
      ensures exists data :: IsSignData(values, data) && sign == SignWithKey(cr, data, signType, key)
    {
      Set(SIGN_TYPE, signType);
      var data := BuildValuesSignData(values, order);
      sign := SignWithKey(cr, data, signType, key);
    }

    method VerifyValuesSign(cr: Crypto, signType: text, key: text, order: seq<text>) returns (ok: bool)
      requires Enumerates(order, values)
      ensures exists data :: IsSignData(values, data) && ok == Verifies(cr, data, Get(values, SIGN), signType, key)
    {
      var data := BuildValuesSignData(values, order);
      var sign := Get(values, SIGN);
      if data == [] {
        return false;
      }
      if signType == MD5 {
        var expected := SignWithKey(cr, data, signType, key);
        return expected == Some(sign);
      }
      var sig := cr.decode(sign);
      if sig.None? {
        return false;
      }
      ok := cr.verify(data, sig.value, key, signType == RSA1) == Some(true);
    }
  }

  /** What a verifying key has to do with a signing key. For md5 they are one key. */
  ghost predicate Matching(cr: Crypto, signType: text, key: text, verifyKey: text) {
    if signType == MD5 then key == verifyKey
    else
      && (forall sig :: cr.decode(cr.encode(sig)) == Some(sig))
      && forall data: text, sha1: bool | cr.sign(data, key, sha1).Some? ::
           cr.verify(data, cr.sign(data, key, sha1).value, verifyKey, sha1) == Some(true)
  }

  lemma SignatureVerifies(cr: Crypto, data: text, signType: text, key: text, verifyKey: text, sign: text)
    requires Matching(cr, signType, key, verifyKey) && SignWithKey(cr, data, signType, key) == Some(sign) && data != []
    ensures Verifies(cr, data, sign, signType, verifyKey)
  {
  }

  lemma TypedHasData(values: Values, data: text)
    requires IsSignData(values, data) && SIGN_TYPE in values
    ensures data != []
  {
    assert SIGN_TYPE in values.Keys && |SIGN_TYPE| != |SIGN|;
    NothingToSign(values, data);
  }

  /** Values signed by BuildValuesSign, with the signature then stored among them, verify with
      the same type and the matching key, whatever they were before. */
  lemma SignedValuesVerify(cr: Crypto, values: Values, signType: text, key: text, verifyKey: text,
                           data: text, sign: text, data': text)
    requires Matching(cr, signType, key, verifyKey) && SIGN_TYPE in values
    requires IsSignData(values, data) && SignWithKey(cr, data, signType, key) == Some(sign)
    requires IsSignData(values[SIGN := [sign]], data')
    ensures Verifies(cr, data', Get(values[SIGN := [sign]], SIGN), signType, verifyKey)
  {
    SignEntryIgnored(values, data, sign);
    SignDataIsCanonical(values, values[SIGN := [sign]], data, data');
    TypedHasData(values, data);
    SignatureVerifies(cr, data, signType, key, verifyKey, sign);
  }

  // ---------------------------------------------------------------- what is refused

  lemma KnownTexts()
    ensures MD5 == Ascii("md5") && RSA1 == Ascii("rsa1") && RSA256 == Ascii("rsa2")
    ensures SIGN_TYPE == Ascii("sign_type") && KEY_SUFFIX == Ascii("&key=")
  {
  }

  /** The hash tells the two texts apart, if they differ. */
  ghost predicate Separates(md5: text -> text, a: text, b: text) {
    md5(a) == md5(b) ==> a == b
  }

  /** An md5 signature of some data under some key verifies for other data under another key
      exactly when what is hashed is the same text. */
  lemma Md5VerifiesExactly(cr: Crypto, data: text, key: text, sign: text, data': text, key': text)
    requires SignWithKey(cr, data, Ascii("md5"), key) == Some(sign)
    requires Separates(cr.md5, data + Ascii("&key=") + key, data' + Ascii("&key=") + key')
    ensures Verifies(cr, data', sign, Ascii("md5"), key') <==>
      data' != [] && data' + Ascii("&key=") + key' == data + Ascii("&key=") + key
  {
    KnownTexts();
    assert data + (KEY_SUFFIX + key) == data + Ascii("&key=") + key;
    assert data' + (KEY_SUFFIX + key') == data' + Ascii("&key=") + key';
  }

  /** Under one key it verifies for the data that was signed and no other, and no other
      signature verifies for that data. */
  lemma Md5RefusesOthers(cr: Crypto, data: text, key: text, sign: text, data': text, sign': text)
    requires SignWithKey(cr, data, Ascii("md5"), key) == Some(sign)
    requires Separates(cr.md5, data + Ascii("&key=") + key, data' + Ascii("&key=") + key)
    ensures Verifies(cr, data', sign, Ascii("md5"), key) <==> data' != [] && data' == data
    ensures Verifies(cr, data, sign', Ascii("md5"), key) <==> data != [] && sign' == sign
  {
    Md5VerifiesExactly(cr, data, key, sign, data', key);
    KnownTexts();
    var end := Ascii("&key=") + key;
    assert data + Ascii("&key=") + key == data + end && data' + Ascii("&key=") + key == data' + end;
    if data' + end == data + end {
      assert |data'| == |data|;
      assert (data' + end)[..|data|] == data' && (data + end)[..|data|] == data;
    }
  }

  /** The verifying key accepts the signatures made with the other key, and nothing else. */
  ghost predicate Strict(cr: Crypto, key: text, verifyKey: text) {
    forall data: text, sig: text, sha1: bool ::
      cr.verify(data, sig, verifyKey, sha1) == Some(true) <==> cr.sign(data, key, sha1) == Some(sig)
  }

  /** An RSA signature verifies exactly when it decodes to that of the data: over SHA-1 for
      rsa1 and over SHA-256 for rsa2, or any other type that is not md5. */
  lemma RsaVerifiesExactly(cr: Crypto, data: text, key: text, verifyKey: text, sign: text, signType: text)
    requires Strict(cr, key, verifyKey) && signType != Ascii("md5")
    ensures Verifies(cr, data, sign, signType, verifyKey) <==>
      && data != [] && cr.decode(sign).Some?
      && cr.sign(data, key, signType == Ascii("rsa1")) == cr.decode(sign)
  {
    KnownTexts();
  }

  /** A signature over one data is refused for other data, and under the other hash, unless
      the scheme gives both the same signature. */
  lemma RsaRefusesOthers(cr: Crypto, data: text, key: text, verifyKey: text, sign: text, signType: text,
                         data': text, signType': text)
    requires Strict(cr, key, verifyKey) && forall sig :: cr.decode(cr.encode(sig)) == Some(sig)
    requires signType in {Ascii("rsa1"), Ascii("rsa2")} && signType' in {Ascii("rsa1"), Ascii("rsa2")}
    requires SignWithKey(cr, data, signType, key) == Some(sign)
    ensures Verifies(cr, data', sign, signType', verifyKey) <==>
      && data' != []
      && cr.sign(data', key, signType' == Ascii("rsa1")) == cr.sign(data, key, signType == Ascii("rsa1"))
  {
    KnownTexts();
    assert |MD5| != |RSA1| && |MD5| != |RSA256|;
    RsaVerifiesExactly(cr, data', key, verifyKey, sign, signType');
  }

  /** Values that hold a signature made over other values verify exactly when both have the
      same data. */
  lemma ValuesVerifyExactly(cr: Crypto, values: Values, key: text, data: text, sign: text, other: Values, data': text)
    requires IsSignData(values, data) && SignWithKey(cr, data, Ascii("md5"), key) == Some(sign)
    requires IsSignData(other, data') && Get(other, Ascii("sign")) == sign
    requires Separates(cr.md5, data + Ascii("&key=") + key, data' + Ascii("&key=") + key)
    ensures Verifies(cr, data', Get(other, SIGN), Ascii("md5"), key) <==> data' != [] && data' == data
    ensures SameSigned(values, other) && data != [] ==> Verifies(cr, data', Get(other, SIGN), Ascii("md5"), key)
  {
    assert Ascii("sign") == SIGN;
    Md5RefusesOthers(cr, data, key, sign, data', sign);
    if SameSigned(values, other) {
      SignDataIsCanonical(values, other, data, data');
    }
  }

  // ---------------------------------------------------------------- what is imitated

  /** Other values than those that were signed, with the same data and the signature. */
  ghost predicate Imitates(values: Values, other: Values, data: text, sign: text) {
    IsSignData(other, data) && Get(other, SIGN) == sign && !SameSigned(values, other)
  }

  lemma SignedImitates(values: Values, other: Values, data: text, sign: text)
    requires IsSignData(other, data) && !SameSigned(values, other)
    ensures Imitates(values, other[SIGN := [sign]], data, sign)
  {
    SignEntryIgnored(other, data, sign);
    if SameSigned(values, other[SIGN := [sign]]) {
      SameSignedAsOne(values, other, other[SIGN := [sign]]);
    }
  }

  lemma AmbiguousIsImitated(values: Values, data: text, sign: text)
    requires Ambiguous(data)
    ensures exists other :: Imitates(values, other, data, sign)
  {
    var other := AmbiguousIsShared(values, data);
    SignedImitates(values, other, data, sign);
  }

  lemma NotImitated(values: Values, data: text, sign: text)
    requires IsSignData(values, data) && !Ambiguous(data)
    ensures !exists other :: Imitates(values, other, data, sign)
  {
    SharedExactly(values, data);
  }

  lemma SupportedType(cr: Crypto, data: text, signType: text, key: text)
    requires SignWithKey(cr, data, signType, key).Some?
    ensures EQUALS !in signType
  {
    assert EQUALS !in MD5 && EQUALS !in RSA1 && EQUALS !in RSA256;
  }

  /** The pair of the type alone is cut in one way; any other key makes for a second one. */
  lemma TypedIsAmbiguous(values: Values, data: text)
    requires IsSignData(values, data) && SIGN_TYPE in values && EQUALS !in Get(values, SIGN_TYPE)
    ensures Ambiguous(data) <==> exists k :: k in values && k != SIGN && k != SIGN_TYPE
  {
    AmbiguousValues(values, data);
    assert |SIGN_TYPE| != |SIGN|;
    assert !CutElsewhere(SIGN_TYPE, Get(values, SIGN_TYPE)) by {
      assert forall p: nat :: !CutAt(SIGN_TYPE, p);
    }
  }

  /** Values as BuildValuesSign leaves them have imitations exactly when they hold a key besides
      those of the signature and its type, and every imitation verifies. */
  lemma ImitatedExactly(cr: Crypto, values: Values, signType: text, key: text, verifyKey: text, data: text, sign: text)
    requires Matching(cr, signType, key, verifyKey) && SIGN_TYPE in values && Get(values, SIGN_TYPE) == signType
    requires IsSignData(values, data) && SignWithKey(cr, data, signType, key) == Some(sign)
    ensures (exists other :: Imitates(values, other, data, sign)) <==>
      exists k :: k in values && k != SIGN && k != SIGN_TYPE
    ensures forall other | Imitates(values, other, data, sign) ::
      Verifies(cr, data, Get(other, SIGN), signType, verifyKey)
  {
    SupportedType(cr, data, signType, key);
    TypedIsAmbiguous(values, data);
    TypedHasData(values, data);
    SignatureVerifies(cr, data, signType, key, verifyKey, sign);
    if Ambiguous(data) {
      AmbiguousIsImitated(values, data, sign);
    } else {
      NotImitated(values, data, sign);
    }
  }

  /** The same as a run: any two iteration orders, one for signing and one for verifying, for
      which the map also holds the key of the signature. */
  method SignThenVerify(cr: Crypto, u: URLValues, signType: text, key: text, verifyKey: text,
                        order: seq<text>, order': seq<text>) returns (sign: Option<text>, ok: bool)
    requires Matching(cr, signType, key, verifyKey)
    requires Enumerates(order, u.values[SIGN_TYPE := [signType]])
    requires Enumerates(order', u.values[SIGN_TYPE := [signType]][SIGN := []])
    modifies u
    ensures signType == MD5 ==> sign.Some?
    ensures sign.Some? ==> ok
  {
    sign := u.BuildValuesSign(cr, signType, key, order);
    ghost var data :| IsSignData(u.values, data) && sign == SignWithKey(cr, data, signType, key);
    if sign.None? {
      return sign, false;
    }
    ghost var before := u.values;
    u.Set(SIGN, sign.value);
    ok := u.VerifyValuesSign(cr, signType, verifyKey, order');
    ghost var data' :| IsSignData(u.values, data')
      && ok == Verifies(cr, data', Get(u.values, SIGN), signType, verifyKey);
    SignedValuesVerify(cr, before, signType, key, verifyKey, data, sign.value, data');
  }
}
