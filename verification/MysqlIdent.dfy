/** QuoteIdent of dbutils/mysqlDialect.go, read by the rules for quoted identifiers of section
    9.2 of the MySQL 5.7 manual. */
module MysqlIdent {
  import opened Bytes
  import opened Outcomes

  const DOT: byte := 0x2e
  const BACKTICK: byte := 0x60

  /** The length of the text before its first dot. */
  function UpToDot(s: text): (n: nat)
    requires DOT in s
    ensures n < |s| && s[n] == DOT && DOT !in s[..n]
  {
    if s[0] == DOT then 0
    else
      var n := 1 + UpToDot(s[1..]);
      assert s[..n] == [s[0]] + s[1..][..n - 1];
      n
  }

  function QuoteIdent(s: text): text
    decreases |s|
  {
    if DOT !in s then [BACKTICK] + s + [BACKTICK]
    else QuoteIdent(s[..UpToDot(s)]) + [DOT] + QuoteIdent(s[UpToDot(s) + 1..])
  }

  lemma KnownIdent()
    ensures QuoteIdent(Ascii("db.t")) == Ascii("`db`.`t`")
  {
    var s := Ascii("db.t");
    assert s[2] == DOT && DOT !in s[..2];
    assert UpToDot(s) == 2;
    assert s[..2] == Ascii("db") && s[3..] == Ascii("t");
  }

  /** The names of a dotted path. */
  function Parts(s: text): (r: seq<text>)
    ensures r != []
    decreases |s|
  {
    if DOT !in s then [s] else [s[..UpToDot(s)]] + Parts(s[UpToDot(s) + 1..])
  }

  function Dotted(names: seq<text>): text {
    if |names| < 2 then (if names == [] then [] else names[0]) else names[0] + [DOT] + Dotted(names[1..])
  }

  lemma {:induction false} PartsMakeThePath(s: text)
    ensures Dotted(Parts(s)) == s && forall p | p in Parts(s) :: DOT !in p
    decreases |s|
  {
    if DOT in s {
      var n := UpToDot(s);
      PartsMakeThePath(s[n + 1..]);
      assert Parts(s)[1..] == Parts(s[n + 1..]);
      assert s == s[..n] + [DOT] + s[n + 1..];
    }
  }

  // ---------------------------------------------------------------- reading

  function Before(b: byte, r: Option<(text, text)>): Option<(text, text)> {
    if r.None? then None else Some(([b] + r.value.0, r.value.1))
  }

  /** The rest of a quoted name and what follows it. Two backticks in a row stand for one. */
  function LexName(t: text): (r: Option<(text, text)>)
    ensures r.Some? ==> |r.value.1| < |t|
  {
    if t == [] then None
    else if t[0] != BACKTICK then Before(t[0], LexName(t[1..]))
    else if |t| > 1 && t[1] == BACKTICK then Before(BACKTICK, LexName(t[2..]))
    else Some(([], t[1..]))
  }

  /** Quoted names with dots between them, up to the end of the text. */
  function LexPath(t: text): Option<seq<text>>
    decreases |t|
  {
    if t == [] || t[0] != BACKTICK then None
    else
      match LexName(t[1..])
      case None => None
      case Some((name, rest)) =>
        if rest == [] then Some([name])
        else if rest[0] != DOT then None
        else
          match LexPath(rest[1..])
          case None => None
          case Some(names) => Some([name] + names)
  }

  lemma {:induction false} NameReadsBack(p: text, rest: text)
    requires BACKTICK !in p && (rest == [] || rest[0] != BACKTICK)
    ensures LexName(p + ([BACKTICK] + rest)) == Some((p, rest))
  {
    var t := p + ([BACKTICK] + rest);
    if p == [] {
      assert t == [BACKTICK] + rest;
      assert t[1..] == rest;
    } else {
      assert t[1..] == p[1..] + ([BACKTICK] + rest);
      NameReadsBack(p[1..], rest);
      assert [p[0]] + p[1..] == p;
    }
  }

  /** The first name is read whole; what follows its dot is read by itself. */
  lemma PathStep(p: text, rest: text)
    requires BACKTICK !in p
    ensures LexPath([BACKTICK] + p + [BACKTICK]) == Some([p])
    ensures LexPath([BACKTICK] + p + [BACKTICK] + [DOT] + rest) ==
      if LexPath(rest).None? then None else Some([p] + LexPath(rest).value)
  {
    NameReadsBack(p, []);
    assert ([BACKTICK] + p + [BACKTICK])[1..] == p + ([BACKTICK] + []);
    NameReadsBack(p, [DOT] + rest);
    assert ([BACKTICK] + p + [BACKTICK] + [DOT] + rest)[1..] == p + ([BACKTICK] + ([DOT] + rest));
    assert ([DOT] + rest)[1..] == rest;
  }

  lemma {:induction false} PathReadsBack(s: text)
    requires BACKTICK !in s
    ensures LexPath(QuoteIdent(s)) == Some(Parts(s))
    decreases |s|
  {
    if DOT !in s {
      PathStep(s, []);
    } else {
      var n := UpToDot(s);
      PathReadsBack(s[n + 1..]);
      PathStep(s[..n], QuoteIdent(s[n + 1..]));
    }
  }

  // ---------------------------------------------------------------- a backtick in a name

  function Ticks(p: text): nat {
    if p == [] then 0 else Ticks(p[1..]) + if p[0] == BACKTICK then 1 else 0
  }

  lemma {:induction false} NoTicks(p: text)
    ensures Ticks(p) == 0 <==> BACKTICK !in p
  {
    if p != [] {
      NoTicks(p[1..]);
    }
  }

  function AllTicks(names: seq<text>): nat {
    if names == [] then 0 else Ticks(names[0]) + AllTicks(names[1..])
  }

  /** The length of the names in quotes with dots between them. */
  function QuotedLength(names: seq<text>): int {
    if names == [] then -1 else |names[0]| + 3 + QuotedLength(names[1..])
  }

  /** Reading takes one character more for every backtick of the name. */
  lemma {:induction false} NameLength(t: text)
    requires LexName(t).Some?
    ensures var (name, rest) := LexName(t).value; |t| == |name| + Ticks(name) + 1 + |rest|
  {
    if t[0] != BACKTICK {
      NameLength(t[1..]);
      PrefixTicks(t[0], LexName(t[1..]).value.0);
    } else if |t| > 1 && t[1] == BACKTICK {
      NameLength(t[2..]);
      PrefixTicks(BACKTICK, LexName(t[2..]).value.0);
    }
  }

  lemma PrefixTicks(b: byte, name: text)
    ensures Ticks([b] + name) == Ticks(name) + if b == BACKTICK then 1 else 0
  {
  }

  lemma {:induction false} PathLength(t: text)
    requires LexPath(t).Some?
    ensures |t| == QuotedLength(LexPath(t).value) + AllTicks(LexPath(t).value)
    decreases |t|
  {
    NameLength(t[1..]);
    var (name, rest) := LexName(t[1..]).value;
    if rest == [] {
      Lengths(name, []);
    } else {
      PathLength(rest[1..]);
      Lengths(name, LexPath(rest[1..]).value);
    }
  }

  lemma Lengths(name: text, names: seq<text>)
    ensures QuotedLength([name] + names) == |name| + 3 + QuotedLength(names)
    ensures AllTicks([name] + names) == Ticks(name) + AllTicks(names)
  {
  }

  /** The quoted path is as long as its names need without any backtick in them. */
  lemma {:induction false} PartsLength(s: text)
    ensures |QuoteIdent(s)| == QuotedLength(Parts(s))
    ensures AllTicks(Parts(s)) == 0 ==> BACKTICK !in s
    decreases |s|
  {
    if DOT !in s {
      Lengths(s, []);
      NoTicks(s);
    } else {
      var n := UpToDot(s);
      Lengths(s[..n], Parts(s[n + 1..]));
      PartsLength(s[n + 1..]);
      NoTicks(s[..n]);
      assert s == s[..n] + [DOT] + s[n + 1..];
    }
  }

  /** A quoted path is read back as its names exactly when it holds no backtick. */
  lemma IdentReadsBack(s: text)
    ensures LexPath(QuoteIdent(s)) == Some(Parts(s)) <==> BACKTICK !in s
  {
    if BACKTICK !in s {
      PathReadsBack(s);
    } else if LexPath(QuoteIdent(s)) == Some(Parts(s)) {
      PathLength(QuoteIdent(s));
      PartsLength(s);
    }
  }
}
