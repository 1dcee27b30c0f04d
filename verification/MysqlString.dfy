/** EncodeString of dbutils/mysqlDialect.go, read by the string-literal rules of section 9.1.1
    of the MySQL 5.7 manual with backslash escapes on. */
module MysqlString {
  import opened Outcomes
  import opened Bytes

  const QUOTE: byte := 0x27
  const DOUBLE_QUOTE: byte := 0x22
  const BACKSLASH: byte := 0x5c
  const PERCENT: byte := 0x25
  const UNDERSCORE: byte := 0x5f

  /** What the encoder writes for one byte. */
  function Escape(b: byte): (r: seq<byte>) {
    if b == 0 then [BACKSLASH, 0x30]
    else if b == QUOTE then [BACKSLASH, QUOTE]
    else if b == DOUBLE_QUOTE then [BACKSLASH, DOUBLE_QUOTE]
    else if b == 8 then [BACKSLASH, 0x62]
    else if b == 10 then [BACKSLASH, 0x6e]
    else if b == 13 then [BACKSLASH, 0x72]
    else if b == 9 then [BACKSLASH, 0x74]
    else if b == 26 then [BACKSLASH, 0x5a]
    else if b == BACKSLASH then [BACKSLASH, BACKSLASH]
    else [b]
  }

  /** The table of special characters: each is written as a backslash and a letter, and any
      other byte as it is. */
  lemma EscapeTable(b: byte)
    ensures Escape(0) == Ascii("\\0") && Escape(8) == Ascii("\\b") && Escape(9) == Ascii("\\t")
    ensures Escape(10) == Ascii("\\n") && Escape(13) == Ascii("\\r") && Escape(26) == Ascii("\\Z")
    ensures Escape('\'' as nat) == Ascii("\\'") && Escape('\"' as nat) == Ascii("\\\"")
    ensures Escape('\\' as nat) == Ascii("\\\\")
    ensures b !in [0, 8, 9, 10, 13, 26, 0x22, 0x27, 0x5c] ==> Escape(b) == [b]
  {
  }

  function Escaped(s: seq<byte>): (r: seq<byte>) {
    if s == [] then [] else Escape(s[0]) + Escaped(s[1..])
  }

  function Encoded(s: seq<byte>): seq<byte> {
    [QUOTE] + Escaped(s) + [QUOTE]
  }

  lemma {:induction false} EscapedSnoc(s: seq<byte>, b: byte)
    ensures Escaped(s + [b]) == Escaped(s) + Escape(b)
  {
    if s == [] {
      assert [b][1..] == [];
    } else {
      assert (s + [b])[1..] == s[1..] + [b];
      EscapedSnoc(s[1..], b);
    }
  }

  method EncodeString(s: seq<byte>) returns (buf: seq<byte>)
    ensures buf == Encoded(s)
  {
    buf := [QUOTE];
    for i := 0 to |s|
      invariant buf == [QUOTE] + Escaped(s[..i])
    {
      assert s[..i + 1] == s[..i] + [s[i]];
      EscapedSnoc(s[..i], s[i]);
      buf := buf + Escape(s[i]);
    }
    assert s[..|s|] == s;
    buf := buf + [QUOTE];
  }

  /** What a backslash and c stand for in a literal: the escape sequences of the manual's
      table, and c itself for any other c. The pairs for percent and underscore are kept whole. */
  function Unescape(c: byte): seq<byte> {
    if c == 0x30 then [0]
    else if c == 0x62 then [8]
    else if c == 0x6e then [10]
    else if c == 0x72 then [13]
    else if c == 0x74 then [9]
    else if c == 0x5a then [26]
    else if c == PERCENT || c == UNDERSCORE then [BACKSLASH, c]
    else [c]
  }

  /** A literal that was read: its value and the text after the closing quote. */
  datatype Literal = Literal(value: seq<byte>, rest: seq<byte>)

  function Before(prefix: seq<byte>, l: Option<Literal>): Option<Literal> {
    if l.None? then None else Some(Literal(prefix + l.value.value, l.value.rest))
  }

  /** The characters of a literal after its opening quote. Two quotes in a row stand for one. */
  function LexBody(t: seq<byte>): Option<Literal> {
    if t == [] then None
    else if t[0] == QUOTE then
      if |t| > 1 && t[1] == QUOTE then Before([QUOTE], LexBody(t[2..])) else Some(Literal([], t[1..]))
    else if t[0] == BACKSLASH then
      if |t| == 1 then None else Before(Unescape(t[1]), LexBody(t[2..]))
    else Before([t[0]], LexBody(t[1..]))
  }

  function Lex(t: seq<byte>): Option<Literal> {
    if t == [] || t[0] != QUOTE then None else LexBody(t[1..])
  }

  lemma LexEscape(b: byte, t: seq<byte>)
    ensures LexBody(Escape(b) + t) == Before([b], LexBody(t))
  {
  }

  lemma BeforeNothing(l: Option<Literal>)
    ensures Before([], l) == l
  {
    if l.Some? {
      assert [] + l.value.value == l.value.value;
    }
  }

  lemma BeforeTwice(p: seq<byte>, q: seq<byte>, l: Option<Literal>)
    ensures Before(p, Before(q, l)) == Before(p + q, l)
  {
    if l.Some? {
      assert p + (q + l.value.value) == (p + q) + l.value.value;
    }
  }

  /** The lexer gets through the escaped text with its value read, whatever comes after. */
  lemma {:induction false} LexEscaped(s: seq<byte>, t: seq<byte>)
    ensures LexBody(Escaped(s) + t) == Before(s, LexBody(t))
  {
    var l := LexBody(t);
    if s == [] {
      assert Escaped(s) + t == t;
      BeforeNothing(l);
    } else {
      var more := Escaped(s[1..]) + t;
      assert Escaped(s) + t == Escape(s[0]) + more;
      LexEscape(s[0], more);
      LexEscaped(s[1..], t);
      BeforeTwice([s[0]], s[1..], l);
      assert [s[0]] + s[1..] == s;
    }
  }

  predicate StartsWithQuote(t: seq<byte>) {
    t != [] && t[0] == QUOTE
  }

  /** Followed by any text, the encoding is read as one literal whose value is s and which
      ends at the closing quote, exactly when that text does not start with a quote. */
  lemma EncodingIsOneLiteral(s: seq<byte>, t: seq<byte>)
    ensures Lex(Encoded(s) + t) == Some(Literal(s, t)) <==> !StartsWithQuote(t)
  {
    var close := [QUOTE] + t;
    assert (Encoded(s) + t)[1..] == Escaped(s) + close;
    LexEscaped(s, close);
    if StartsWithQuote(t) {
      assert close[2..] == t[1..];
      var l := LexBody(t[1..]);
      if l.Some? {
        assert |s + ([QUOTE] + l.value.value)| > |s|;
      }
    } else {
      assert close[1..] == t;
      assert s + [] == s;
    }
  }

  lemma {:induction false} EscapedConcat(s: seq<byte>, u: seq<byte>)
    ensures Escaped(s + u) == Escaped(s) + Escaped(u)
  {
    if s == [] {
      assert s + u == u;
    } else {
      assert (s + u)[1..] == s[1..] + u;
      EscapedConcat(s[1..], u);
    }
  }

  /** A quote inside a string is escaped, so that its encoding has a backslash where that of
      the part before the quote ends. */
  lemma QuoteIsEscaped(s: seq<byte>, v: seq<byte>)
    ensures |Encoded(s + ([QUOTE] + v))| > |Encoded(s)| - 1
    ensures Encoded(s + ([QUOTE] + v))[|Encoded(s)| - 1] == BACKSLASH
  {
    EscapedConcat(s, [QUOTE] + v);
    assert ([QUOTE] + v)[1..] == v;
  }

  /** A quote right behind the encoding makes the lexer go on past it. */
  lemma QuoteBehind(s: seq<byte>, t: seq<byte>, u: seq<byte>, rest: seq<byte>) returns (v: seq<byte>)
    requires StartsWithQuote(t) && Lex(Encoded(s) + t) == Some(Literal(u, rest))
    ensures u == s + ([QUOTE] + v)
  {
    var close := [QUOTE] + t;
    assert (Encoded(s) + t)[1..] == Escaped(s) + close;
    LexEscaped(s, close);
    assert close[2..] == t[1..];
    v := LexBody(t[1..]).value.value;
  }

  /** Different strings have different encodings, and no encoding starts another. */
  lemma EncodingIsInjective(s: seq<byte>, u: seq<byte>, t: seq<byte>)
    requires Encoded(s) + t == Encoded(u)
    ensures s == u && t == []
  {
    EncodingIsOneLiteral(u, []);
    assert Encoded(u) + [] == Encoded(u);
    if StartsWithQuote(t) {
      assert Encoded(u)[|Encoded(s)| - 1] == QUOTE;
      var v := QuoteBehind(s, t, u, []);
      QuoteIsEscaped(s, v);
    } else {
      EncodingIsOneLiteral(s, t);
    }
  }

  /** Text placed between two encodings is left as it is: the lexer comes back to it whole, and
      then reads the second literal. */
  lemma EncodingsDoNotMeet(s: seq<byte>, between: seq<byte>, u: seq<byte>, t: seq<byte>)
    requires between != [] && !StartsWithQuote(between) && !StartsWithQuote(t)
    ensures Lex(Encoded(s) + (between + (Encoded(u) + t))) == Some(Literal(s, between + (Encoded(u) + t)))
    ensures Lex((between + (Encoded(u) + t))[|between|..]) == Some(Literal(u, t))
  {
    EncodingIsOneLiteral(s, between + (Encoded(u) + t));
    EncodingIsOneLiteral(u, t);
    assert (between + (Encoded(u) + t))[|between|..] == Encoded(u) + t;
  }
}
