/** The data that URL values are signed over: buildValuesSignData of netutils/webparams.go, its
    keys in the bytewise order of Go strings. */
module SignData {
  import opened Bytes
  import opened Counting

  /** URL values: a list of values for each key. */
  type Values = map<text, seq<text>>

  const SIGN: text := [0x73, 0x69, 0x67, 0x6e]
  const AMPERSAND: byte := 0x26
  const EQUALS: byte := 0x3d

  /** The first value of the key, or the empty string. */
  function Get(values: Values, key: text): text {
    if key in values && values[key] != [] then values[key][0] else []
  }

  // ---------------------------------------------------------------- the order of keys

  predicate Less(a: text, b: text) {
    b != [] && (a == [] || a[0] < b[0] || (a[0] == b[0] && Less(a[1..], b[1..])))
  }

  lemma {:induction false} LessIsTotal(a: text, b: text)
    ensures Less(a, b) || a == b || Less(b, a)
  {
    if a != [] && b != [] && a[0] == b[0] {
      LessIsTotal(a[1..], b[1..]);
      assert a[1..] == b[1..] ==> a == [a[0]] + a[1..] == [b[0]] + b[1..] == b;
    }
  }

  lemma {:induction false} LessIsStrict(a: text, b: text)
    ensures Less(a, b) ==> !Less(b, a) && a != b
  {
    if a != [] && b != [] && a[0] == b[0] {
      LessIsStrict(a[1..], b[1..]);
    }
  }

  lemma {:induction false} LessIsTransitive(a: text, b: text, c: text)
    requires Less(a, b) && Less(b, c)
    ensures Less(a, c)
  {
    if a != [] && a[0] == b[0] == c[0] {
      LessIsTransitive(a[1..], b[1..], c[1..]);
    }
  }

  /** The texts agree up to i, where `a` ends or has the smaller byte. */
  ghost predicate LessFrom(a: text, b: text, i: nat) {
    i <= |a| && i < |b| && a[..i] == b[..i] && (i == |a| || a[i] < b[i])
  }

  /** The order of Go strings: bytewise, a text before those it starts. */
  lemma {:induction false} LessExactly(a: text, b: text)
    ensures Less(a, b) <==> exists i: nat :: LessFrom(a, b, i)
  {
    if b != [] {
      if a == [] || a[0] < b[0] {
        assert LessFrom(a, b, 0);
      } else if a[0] == b[0] {
        LessExactly(a[1..], b[1..]);
        if i: nat :| LessFrom(a[1..], b[1..], i) {
          assert a[..i + 1] == [a[0]] + a[1..][..i] && b[..i + 1] == [b[0]] + b[1..][..i];
          assert LessFrom(a, b, i + 1);
        }
        if i: nat :| LessFrom(a, b, i) {
          assert a[1..][..i - 1] == a[..i][1..] && b[1..][..i - 1] == b[..i][1..];
          assert LessFrom(a[1..], b[1..], i - 1);
        }
      }
    }
  }

  ghost predicate Ascending(keys: seq<text>) {
    forall i, j | 0 <= i < j < |keys| :: Less(keys[i], keys[j])
  }

  /** There is one way to put a set of keys in ascending order. */
  lemma {:induction false} AscendingIsUnique(a: seq<text>, b: seq<text>)
    requires Ascending(a) && Ascending(b) && forall k :: k in a <==> k in b
    ensures a == b
  {
    assert a != [] ==> a[0] in b;
    assert b != [] ==> b[0] in a;
    if a != [] {
      FirstIsLeast(a, b);
      TailElements(a);
      TailElements(b);
      AscendingIsUnique(a[1..], b[1..]);
      assert a == [a[0]] + a[1..] == [b[0]] + b[1..] == b;
    }
  }

  lemma FirstIsLeast(a: seq<text>, b: seq<text>)
    requires Ascending(a) && Ascending(b) && a != [] && b != [] && a[0] in b && b[0] in a
    ensures a[0] == b[0]
  {
    if a[0] != b[0] {
      var i: nat :| i < |b| && b[i] == a[0];
      assert Less(b[0], b[i]);
      var j: nat :| j < |a| && a[j] == b[0];
      assert Less(a[0], a[j]);
      LessIsStrict(a[0], b[0]);
    }
  }

  lemma TailElements(a: seq<text>)
    requires Ascending(a) && a != []
    ensures Ascending(a[1..])
    ensures forall k :: k in a[1..] <==> k in a && k != a[0]
  {
    forall i | 0 < i < |a|
      ensures a[i] != a[0] && a[i] in a[1..]
    {
      LessIsStrict(a[0], a[i]);
      assert a[i] == a[1..][i - 1];
    }
  }

  /** A key put in its place among ascending ones. */
  method Insert(keys: seq<text>, key: text) returns (r: seq<text>)
    requires Ascending(keys) && key !in keys
    ensures Ascending(r)
    ensures forall k :: k in r <==> k in keys || k == key
  {
    var i := 0;
    while i < |keys| && Less(keys[i], key)
      invariant 0 <= i <= |keys|
      invariant forall j | 0 <= j < i :: Less(keys[j], key)
    {
      i := i + 1;
    }
    forall j | i <= j < |keys|
      ensures Less(key, keys[j])
    {
      LessIsTotal(keys[i], key);
      if j > i {
        LessIsTransitive(key, keys[i], keys[j]);
      }
    }
    r := keys[..i] + [key] + keys[i..];
    assert keys == keys[..i] + keys[i..];
  }

  /** The library's sort, on keys that are all different. */
  method Sort(keys: seq<text>) returns (r: seq<text>)
    requires Distinct(keys)
    ensures Ascending(r)
    ensures forall k :: k in r <==> k in keys
  {
    r := [];
    for i := 0 to |keys|
      invariant Ascending(r)
      invariant forall k :: k in r <==> k in keys[..i]
    {
      assert keys[..i + 1] == keys[..i] + [keys[i]];
      r := Insert(r, keys[i]);
    }
    assert keys[..|keys|] == keys;
  }

  // ---------------------------------------------------------------- the data

  function Pair(values: Values, key: text): text {
    key + [EQUALS] + Get(values, key)
  }

  function Joined(keys: seq<text>, values: Values): text {
    if keys == [] then []
    else
      var n := |keys| - 1;
      Joined(keys[..n], values) + (if n == 0 then [] else [AMPERSAND]) + Pair(values, keys[n])
  }

  /** The order in which a map with distinct keys is iterated. */
  ghost predicate Enumerates(order: seq<text>, values: Values) {
    Distinct(order) && forall k :: k in order <==> k in values
  }

  /** The keys that are signed, in ascending order. */
  ghost predicate SignedKeys(keys: seq<text>, values: Values) {
    Ascending(keys) && forall k :: k in keys <==> k in values && k != SIGN
  }

  ghost predicate IsSignData(values: Values, data: text) {
    exists keys :: SignedKeys(keys, values) && data == Joined(keys, values)
  }

  /** The first loop: the keys but that of the signature. */
  method CollectKeys(order: seq<text>) returns (keys: seq<text>)
    requires Distinct(order)
    ensures Distinct(keys) && forall k :: k in keys <==> k in order && k != SIGN
  {
    keys := [];
    for i := 0 to |order|
      invariant Distinct(keys)
      invariant forall k :: k in keys <==> k in order[..i] && k != SIGN
    {
      assert order[..i + 1] == order[..i] + [order[i]] && order[i] !in order[..i];
      if order[i] != SIGN {
        keys := keys + [order[i]];
      }
    }
    assert order[..|order|] == order;
  }

  lemma JoinedStep(keys: seq<text>, values: Values, i: nat)
    requires i < |keys|
    ensures Joined(keys[..i + 1], values) ==
      Joined(keys[..i], values) + (if i == 0 then [] else [AMPERSAND]) + Pair(values, keys[i])
  {
    assert keys[..i + 1][..i] == keys[..i];
  }

  /** The second loop. */
  method Join(keys: seq<text>, values: Values) returns (data: text)
    ensures data == Joined(keys, values)
  {
    data := [];
    for i := 0 to |keys|
      invariant data == Joined(keys[..i], values)
    {
      JoinedStep(keys, values, i);
      if i != 0 {
        data := data + [AMPERSAND];
      }
      data := data + (keys[i] + [EQUALS] + Get(values, keys[i]));
    }
    assert keys[..|keys|] == keys;
  }

  /** buildValuesSignData, on a map that is iterated in the given order. */
  method BuildValuesSignData(values: Values, order: seq<text>) returns (data: text)
    requires Enumerates(order, values)
    ensures IsSignData(values, data)
  {
    var keys := CollectKeys(order);
    keys := Sort(keys);
    assert SignedKeys(keys, values);
    data := Join(keys, values);
  }

  /** The same keys with the same first values, that of the signature aside. */
  ghost predicate SameSigned(values: Values, other: Values) {
    forall k | k != SIGN :: (k in values <==> k in other) && Get(values, k) == Get(other, k)
  }

  lemma SameSignedAsOne(a: Values, b: Values, one: Values)
    requires SameSigned(a, one) && SameSigned(b, one)
    ensures SameSigned(a, b)
  {
    forall k | k != SIGN
      ensures (k in a <==> k in b) && Get(a, k) == Get(b, k)
    {
      assert k in a <==> k in one;
      assert k in b <==> k in one;
    }
  }

  /** Whatever the order of iteration, the data is the same, and neither the signature nor
      values after the first change it. */
  lemma SignDataIsCanonical(values: Values, other: Values, data: text, data': text)
    requires IsSignData(values, data) && IsSignData(other, data') && SameSigned(values, other)
    ensures data == data'
  {
    var keys :| SignedKeys(keys, values) && data == Joined(keys, values);
    var keys' :| SignedKeys(keys', other) && data' == Joined(keys', other);
    AscendingIsUnique(keys, keys');
    JoinedDependsOnPairs(keys, values, other);
  }

  /** Storing a signature leaves the data as it is. */
  lemma SignEntryIgnored(values: Values, data: text, sign: text)
    requires IsSignData(values, data)
    ensures SameSigned(values, values[SIGN := [sign]]) && IsSignData(values[SIGN := [sign]], data)
  {
    var keys :| SignedKeys(keys, values) && data == Joined(keys, values);
    var signed := values[SIGN := [sign]];
    assert SignedKeys(keys, signed);
    JoinedDependsOnPairs(keys, values, signed);
  }

  lemma {:induction false} JoinedDependsOnPairs(keys: seq<text>, values: Values, other: Values)
    requires forall k | k in keys :: Get(values, k) == Get(other, k)
    ensures Joined(keys, values) == Joined(keys, other)
  {
    if keys != [] {
      JoinedDependsOnPairs(keys[..|keys| - 1], values, other);
    }
  }

  /** There is nothing to sign exactly when there is no key but that of the signature. */
  lemma NothingToSign(values: Values, data: text)
    requires IsSignData(values, data)
    ensures data == [] <==> values.Keys <= {SIGN}
  {
  }

  // ---------------------------------------------------------------- what the data determines

  /** A text is cut in one way at its last separator, and in one way at its first. */
  lemma LastCut(a: text, x: text, b: text, y: text, sep: byte)
    requires sep !in x && sep !in y && a + [sep] + x == b + [sep] + y
    ensures a == b && x == y
  {
    var s := a + [sep] + x;
    assert forall k | |a| < k < |s| :: s[k] == x[k - |a| - 1] && s[k] != sep;
    assert forall k | |b| < k < |s| :: s[k] == y[k - |b| - 1] && s[k] != sep;
    assert s[|a|] == sep && s[|b|] == sep;
    assert s[..|a|] == a && s[..|b|] == b;
    assert s[|a| + 1..] == x && s[|b| + 1..] == y;
  }

  lemma FirstCut(a: text, x: text, b: text, y: text, sep: byte)
    requires sep !in a && sep !in b && a + [sep] + x == b + [sep] + y
    ensures a == b && x == y
  {
    var s := a + [sep] + x;
    assert forall k | 0 <= k < |a| :: s[k] == a[k] && s[k] != sep;
    assert forall k | 0 <= k < |b| :: s[k] == b[k] && s[k] != sep;
    assert s[|a|] == sep && s[|b|] == sep;
    assert s[..|a|] == a && s[..|b|] == b;
    assert s[|a| + 1..] == x && s[|b| + 1..] == y;
  }

  predicate SeparablePair(values: Values, key: text) {
    EQUALS !in key && AMPERSAND !in key && AMPERSAND !in Get(values, key)
  }

  lemma PairDetermines(values: Values, key: text, other: Values, key': text)
    requires SeparablePair(values, key) && SeparablePair(other, key') && Pair(values, key) == Pair(other, key')
    ensures key == key' && Get(values, key) == Get(other, key')
  {
    FirstCut(key, Get(values, key), key', Get(other, key'), EQUALS);
  }

  /** Joined texts that are equal have equal last pairs, and equal texts before them. */
  lemma LastPairDetermines(keys: seq<text>, values: Values, keys': seq<text>, other: Values)
    requires keys != [] && keys' != [] && Joined(keys, values) == Joined(keys', other)
    requires SeparablePair(values, keys[|keys| - 1]) && SeparablePair(other, keys'[|keys'| - 1])
    ensures |keys| == 1 <==> |keys'| == 1
    ensures Joined(keys[..|keys| - 1], values) == Joined(keys'[..|keys'| - 1], other)
    ensures Pair(values, keys[|keys| - 1]) == Pair(other, keys'[|keys'| - 1])
  {
    var n, n' := |keys| - 1, |keys'| - 1;
    var front, front' := Joined(keys[..n], values), Joined(keys'[..n'], other);
    var last, last' := Pair(values, keys[n]), Pair(other, keys'[n']);
    assert AMPERSAND !in last && AMPERSAND !in last';
    assert Joined(keys, values) == if n == 0 then last else front + [AMPERSAND] + last;
    assert Joined(keys', other) == if n' == 0 then last' else front' + [AMPERSAND] + last';
    assert AMPERSAND in Joined(keys, values) <==> n > 0;
    assert AMPERSAND in Joined(keys', other) <==> n' > 0;
    if n > 0 {
      LastCut(front, last, front', last', AMPERSAND);
    }
  }

  lemma {:induction false} JoinedDetermines(keys: seq<text>, values: Values, keys': seq<text>, other: Values)
    requires (forall k | k in keys :: SeparablePair(values, k)) && forall k | k in keys' :: SeparablePair(other, k)
    requires Joined(keys, values) == Joined(keys', other)
    ensures keys == keys' && forall k | k in keys :: Get(values, k) == Get(other, k)
  {
    if keys != [] && keys' != [] {
      var n, n' := |keys| - 1, |keys'| - 1;
      LastPairDetermines(keys, values, keys', other);
      PairDetermines(values, keys[n], other, keys'[n']);
      JoinedDetermines(keys[..n], values, keys'[..n'], other);
      assert keys == keys[..n] + [keys[n]] && keys' == keys'[..n'] + [keys'[n']];
    }
  }

  ghost predicate Separable(values: Values) {
    forall k | k in values && k != SIGN :: SeparablePair(values, k)
  }

  /** Where keys hold no separator and values none between pairs, the data determines what was
      signed: it is equal exactly for the same keys with the same values. */
  lemma SignDataDetermines(values: Values, other: Values, data: text, data': text)
    requires IsSignData(values, data) && IsSignData(other, data') && Separable(values) && Separable(other)
    ensures data == data' <==> SameSigned(values, other)
  {
    if SameSigned(values, other) {
      SignDataIsCanonical(values, other, data, data');
    } else if data == data' {
      SameDataSameSigned(values, other, data);
    }
  }

  lemma SameDataSameSigned(values: Values, other: Values, data: text)
    requires IsSignData(values, data) && IsSignData(other, data) && Separable(values) && Separable(other)
    ensures SameSigned(values, other)
  {
    var keys :| SignedKeys(keys, values) && data == Joined(keys, values);
    var keys' :| SignedKeys(keys', other) && data == Joined(keys', other);
    assert forall k | k in keys :: SeparablePair(values, k);
    assert forall k | k in keys' :: SeparablePair(other, k);
    JoinedDetermines(keys, values, keys', other);
    forall k | k != SIGN
      ensures (k in values <==> k in other) && Get(values, k) == Get(other, k)
    {
      assert k in values <==> k in keys;
      assert k in other <==> k in keys;
    }
  }

  // ---------------------------------------------------------------- exactly when it does

  predicate CutAt(data: text, i: nat) {
    i < |data| && data[i] == EQUALS
  }

  /** Two equals signs, the first not behind the key of the signature: the data can be cut into
      a signed key and its value at either. */
  ghost predicate Ambiguous(data: text) {
    exists i: nat, j: nat :: i < j && CutAt(data, i) && CutAt(data, j) && data[..i] != SIGN
  }

  /** The values with one key that the data is cut into. */
  function OneKey(data: text, i: nat): Values
    requires CutAt(data, i)
  {
    map[data[..i] := [data[i + 1..]]]
  }

  lemma OneKeyData(data: text, i: nat)
    requires CutAt(data, i) && data[..i] != SIGN
    ensures IsSignData(OneKey(data, i), data)
  {
    var values, key := OneKey(data, i), data[..i];
    assert SignedKeys([key], values);
    JoinedOne(key, values);
    assert data == key + [EQUALS] + data[i + 1..];
  }

  /** Cut in two places, the data belongs to two sets of values, so to one besides any. */
  lemma AmbiguousIsShared(values: Values, data: text) returns (other: Values)
    requires Ambiguous(data)
    ensures IsSignData(other, data) && !SameSigned(values, other)
  {
    var i: nat, j: nat :| i < j && CutAt(data, i) && CutAt(data, j) && data[..i] != SIGN;
    var a, b := OneKey(data, i), OneKey(data, j);
    assert data[..j][i] == EQUALS && EQUALS !in SIGN;
    OneKeyData(data, i);
    OneKeyData(data, j);
    assert data[..j] in b && data[..j] !in a by {
      assert |data[..i]| != |data[..j]|;
    }
    if SameSigned(values, a) {
      other := b;
    } else {
      other := a;
    }
  }

  lemma LastSeparator(front: text, key: text, value: text)
    ensures CutAt(front + [AMPERSAND] + (key + [EQUALS] + value), |front| + 1 + |key|)
  {
    var data, pair := front + [AMPERSAND] + (key + [EQUALS] + value), key + [EQUALS] + value;
    assert pair[|key|] == EQUALS;
    assert data[|front| + 1 + |key|] == pair[|key|];
  }

  /** The data starts with the first pair, and goes on with a separator if there are more. */
  lemma {:induction false} JoinedStarts(keys: seq<text>, values: Values)
    requires keys != []
    ensures Pair(values, keys[0]) <= Joined(keys, values)
    ensures |keys| > 1 ==> exists j: nat :: |keys[0]| < j && CutAt(Joined(keys, values), j)
  {
    var n := |keys| - 1;
    if n == 0 {
      assert Joined(keys[..n], values) == [];
    } else {
      var front := Joined(keys[..n], values);
      JoinedStarts(keys[..n], values);
      assert |Pair(values, keys[0])| > |keys[0]|;
      LastSeparator(front, keys[n], Get(values, keys[n]));
      assert Joined(keys, values) == front + [AMPERSAND] + (keys[n] + [EQUALS] + Get(values, keys[n]));
    }
  }

  /** Data that can be cut in one way only has one signed key, and its value has no separator. */
  lemma OneWayIsOnePair(values: Values, keys: seq<text>, data: text)
    requires SignedKeys(keys, values) && data == Joined(keys, values) && keys != [] && !Ambiguous(data)
    ensures |keys| == 1 && data == keys[0] + [EQUALS] + Get(values, keys[0]) && EQUALS !in Get(values, keys[0])
  {
    var key := keys[0];
    JoinedStarts(keys, values);
    assert Pair(values, key)[|key|] == EQUALS;
    assert CutAt(data, |key|) && data[..|key|] == key && key in keys;
    assert keys == [key];
    JoinedOne(key, values);
    PairIsAmbiguous(key, Get(values, key));
  }

  lemma OneWayDetermines(values: Values, other: Values, data: text)
    requires IsSignData(values, data) && IsSignData(other, data) && !Ambiguous(data)
    ensures SameSigned(values, other)
  {
    var keys :| SignedKeys(keys, values) && data == Joined(keys, values);
    var keys' :| SignedKeys(keys', other) && data == Joined(keys', other);
    if keys != [] && keys' != [] {
      OneWayIsOnePair(values, keys, data);
      OneWayIsOnePair(other, keys', data);
      LastCut(keys[0], Get(values, keys[0]), keys'[0], Get(other, keys'[0]), EQUALS);
      assert keys == [keys[0]] == keys';
    }
    forall k | k != SIGN
      ensures (k in values <==> k in other) && Get(values, k) == Get(other, k)
    {
      assert k in values <==> k in keys;
      assert k in other <==> k in keys';
    }
  }

  /** Exactly when the data of some values is that of others too. */
  lemma SharedExactly(values: Values, data: text)
    requires IsSignData(values, data)
    ensures (exists other :: IsSignData(other, data) && !SameSigned(values, other)) <==> Ambiguous(data)
  {
    if Ambiguous(data) {
      var other := AmbiguousIsShared(values, data);
    } else {
      forall other | IsSignData(other, data)
        ensures SameSigned(values, other)
      {
        OneWayDetermines(values, other, data);
      }
    }
  }

  /** A pair that can be cut elsewhere than behind its key. */
  ghost predicate CutElsewhere(key: text, value: text) {
    EQUALS in value || exists p: nat :: CutAt(key, p) && key[..p] != SIGN
  }

  lemma CutsOfPair(key: text, value: text, i: nat)
    ensures CutAt(key + [EQUALS] + value, i) <==>
      if i < |key| then CutAt(key, i) else i == |key| || CutAt(value, i - |key| - 1)
    ensures i <= |key| ==> (key + [EQUALS] + value)[..i] == key[..i]
  {
    var data := key + [EQUALS] + value;
    if |key| < i < |data| {
      assert data[i] == value[i - |key| - 1];
    }
  }

  lemma PairIsAmbiguous(key: text, value: text)
    requires key != SIGN
    ensures Ambiguous(key + [EQUALS] + value) <==> CutElsewhere(key, value)
  {
    var data := key + [EQUALS] + value;
    CutsOfPair(key, value, |key|);
    assert key[..|key|] == key;
    if Ambiguous(data) {
      var i: nat, j: nat :| i < j && CutAt(data, i) && CutAt(data, j) && data[..i] != SIGN;
      CutsOfPair(key, value, i);
      CutsOfPair(key, value, j);
    } else if EQUALS in value {
      var d: nat :| d < |value| && value[d] == EQUALS;
      CutsOfPair(key, value, |key| + 1 + d);
    } else if p: nat :| CutAt(key, p) && key[..p] != SIGN {
      CutsOfPair(key, value, p);
    }
  }

  lemma JoinedOne(key: text, values: Values)
    ensures Joined([key], values) == Pair(values, key)
  {
    assert [key][..0] == [];
  }

  /** The same condition on the values: two signed keys, or one that is cut elsewhere. */
  lemma AmbiguousValues(values: Values, data: text)
    requires IsSignData(values, data)
    ensures Ambiguous(data) <==>
      || (exists k, k' | k in values && k' in values :: k != k' && k != SIGN && k' != SIGN)
      || (exists k :: k in values && k != SIGN && CutElsewhere(k, Get(values, k)))
  {
    var keys :| SignedKeys(keys, values) && data == Joined(keys, values);
    if |keys| > 1 {
      JoinedStarts(keys, values);
      LessIsStrict(keys[0], keys[1]);
      assert keys[0] in keys && keys[1] in keys;
      if !Ambiguous(data) {
        OneWayIsOnePair(values, keys, data);
      }
    } else if |keys| == 1 {
      assert keys == [keys[0]] && keys[0] in keys;
      JoinedOne(keys[0], values);
      PairIsAmbiguous(keys[0], Get(values, keys[0]));
      assert forall k :: k in values && k != SIGN <==> k == keys[0];
    } else {
      assert forall k :: k in values ==> k == SIGN;
    }
  }

  const KEY_A: text := [0x61]
  const KEY_B: text := [0x62]

  /** One value that holds a separator, and the two values that it looks like. */
  const ONE_PAIR: Values := map[KEY_A := [[0x31, AMPERSAND, 0x62, EQUALS, 0x32]]]
  const TWO_PAIRS: Values := map[KEY_B := [[0x32], [0x39]], Ascii("sign") := [[0x78]], KEY_A := [[0x31]]]

  const SHARED: text := [0x61, EQUALS, 0x31, AMPERSAND, 0x62, EQUALS, 0x32]

  lemma PairsOf()
    ensures Joined([KEY_A], ONE_PAIR) == SHARED && Joined([KEY_A, KEY_B], TWO_PAIRS) == SHARED
  {
    assert [KEY_A, KEY_B][..1] == [KEY_A] && [KEY_A][..0] == [];
    assert Joined([KEY_A], TWO_PAIRS) == [0x61, EQUALS, 0x31];
  }

  lemma SharedText()
    ensures SHARED == Ascii("a=1&b=2")
  {
  }

  lemma KeysOf(values: Values, keys: seq<text>, expected: seq<text>)
    requires SignedKeys(keys, values) && Ascending(expected)
    requires forall k :: k in expected <==> k in values && k != SIGN
    ensures keys == expected
  {
    AscendingIsUnique(keys, expected);
  }

  lemma OnePairData(data: text)
    requires IsSignData(ONE_PAIR, data)
    ensures data == SHARED
  {
    PairsOf();
    var keys :| SignedKeys(keys, ONE_PAIR) && data == Joined(keys, ONE_PAIR);
    assert |KEY_A| != |SIGN|;
    KeysOf(ONE_PAIR, keys, [KEY_A]);
  }

  lemma TwoPairsData(data: text)
    requires IsSignData(TWO_PAIRS, data)
    ensures data == SHARED
  {
    PairsOf();
    var keys :| SignedKeys(keys, TWO_PAIRS) && data == Joined(keys, TWO_PAIRS);
    TwoPairsKeys(keys);
  }

  lemma TwoPairsKeys(keys: seq<text>)
    requires SignedKeys(keys, TWO_PAIRS)
    ensures keys == [KEY_A, KEY_B]
  {
    assert Ascii("sign") == SIGN;
    assert |KEY_A| != |SIGN| && |KEY_B| != |SIGN|;
    assert Less(KEY_A, KEY_B);
    KeysOf(TWO_PAIRS, keys, [KEY_A, KEY_B]);
  }

  lemma PairsDiffer()
    ensures !SameSigned(ONE_PAIR, TWO_PAIRS) && Separable(TWO_PAIRS) && !Separable(ONE_PAIR)
  {
    assert |KEY_A| != |SIGN| && |KEY_B| != |SIGN|;
    assert KEY_B in TWO_PAIRS && KEY_B !in ONE_PAIR && Ascii("sign") == SIGN;
    assert Get(ONE_PAIR, KEY_A)[1] == AMPERSAND;
    assert !SeparablePair(ONE_PAIR, KEY_A);
  }

  /** Without that condition the data does not determine what was signed: a=1&b=2 is the data
      of two sets of values, only one of which is separable. */
  lemma SeparatorInValueCollides(data: text, data': text)
    requires IsSignData(ONE_PAIR, data) && IsSignData(TWO_PAIRS, data')
    ensures data == data' == Ascii("a=1&b=2") && !SameSigned(ONE_PAIR, TWO_PAIRS)
    ensures Separable(TWO_PAIRS) && !Separable(ONE_PAIR)
  {
    OnePairData(data);
    TwoPairsData(data');
    SharedText();
    PairsDiffer();
  }
}
