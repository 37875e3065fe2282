/**
 * Python's `repr` of a `bytes` object, which is also what `str` and an f-string
 * give for it: `b`, a quote, the bytes, the same quote. The quote is `'`
 * unless the bytes hold a `'` and no `"`. The quote itself and `\` are
 * escaped with a backslash, tab, newline and carriage return as `\t \n \r`,
 * other bytes outside 0x20..0x7e as `\xhh` (lowercase), the rest printed as
 * ASCII. `ReadBytesLiteral` reads such a literal back.
 */
module PyRepr {
  import opened Wrappers
  import opened Bytes
  import opened Numerals
  import Hex

  const SINGLE: Byte := 0x27
  const DOUBLE: Byte := 0x22
  const BACKSLASH: Byte := 0x5c

  predicate IsQuote(q: char) {
    q == '\'' || q == '"'
  }

  function QuoteFor(bs: seq<Byte>): (q: char)
    ensures IsQuote(q)
    ensures q == '"' <==> SINGLE in bs && DOUBLE !in bs
  {
    if SINGLE in bs && DOUBLE !in bs then '"' else '\''
  }

  function EscapeByte(b: Byte, q: char): (r: string)
    requires IsQuote(q)
    ensures |r| >= 1
    ensures r[0] == '\\' || (r == [b as char] && 0x20 <= b < 0x7f && b as char != q && b != BACKSLASH)
  {
    if b == q as int || b == BACKSLASH then ['\\', b as char]
    else if b == 0x09 then "\\t"
    else if b == 0x0a then "\\n"
    else if b == 0x0d then "\\r"
    else if b < 0x20 || b >= 0x7f then "\\x" + Hex.Pair(b)
    else [b as char]
  }

  function EscapeBytes(bs: seq<Byte>, q: char): (r: string)
    requires IsQuote(q)
    ensures |r| >= |bs|
  {
    if bs == [] then [] else EscapeByte(bs[0], q) + EscapeBytes(bs[1..], q)
  }

  /** `repr(bs)`, and so `str(bs)` and `f"{bs!s}"`. */
  function BytesRepr(bs: seq<Byte>): (r: string)
    ensures |r| >= |bs| + 3 && r[0] == 'b' && IsQuote(r[1]) && r[|r| - 1] == r[1]
    ensures r[1] == '"' <==> SINGLE in bs && DOUBLE !in bs
  {
    var q := QuoteFor(bs);
    "b" + [q] + EscapeBytes(bs, q) + [q]
  }

  /** Reads the rest of one escape, after its backslash. */
  function ReadEscape(s: string): (r: Option<(Byte, string)>)
    ensures r.Some? ==> |r.value.1| < |s|
  {
    if s == [] then None
    else if s[0] == 't' then Some((0x09, s[1..]))
    else if s[0] == 'n' then Some((0x0a, s[1..]))
    else if s[0] == 'r' then Some((0x0d, s[1..]))
    else if s[0] == '\\' then Some((BACKSLASH, s[1..]))
    else if s[0] == '\'' then Some((SINGLE, s[1..]))
    else if s[0] == '"' then Some((DOUBLE, s[1..]))
    else if s[0] == 'x' && |s| >= 3 then
      match (DigitValue(s[1]), DigitValue(s[2]))
      case (Some(hi), Some(lo)) => Some((hi * 16 + lo, s[3..]))
      case _ => None
    else None
  }

  /** Reads bytes up to the closing quote `q`; gives them and what follows the quote. */
  function ReadBody(s: string, q: char): (r: Option<(seq<Byte>, string)>)
    ensures r.Some? ==> |r.value.1| < |s|
    decreases |s|
  {
    if s == [] then None
    else if s[0] == q then Some(([], s[1..]))
    else if s[0] == '\\' then
      match ReadEscape(s[1..])
      case Some((b, rest)) => Prepend(b, ReadBody(rest, q))
      case None => None
    else if 0x20 <= s[0] as int < 0x7f then Prepend(s[0] as int, ReadBody(s[1..], q))
    else None
  }

  function Prepend(b: Byte, r: Option<(seq<Byte>, string)>): (p: Option<(seq<Byte>, string)>)
    ensures p.Some? <==> r.Some?
    ensures p.Some? ==> p.value.1 == r.value.1
  {
    match r
    case Some((body, after)) => Some(([b] + body, after))
    case None => None
  }

  /** Reads one bytes literal at the front of `s`. */
  function ReadBytesLiteral(s: string): Option<(seq<Byte>, string)> {
    if |s| >= 2 && s[0] == 'b' && IsQuote(s[1]) then ReadBody(s[2..], s[1]) else None
  }

  lemma ReadEscapeByte(b: Byte, q: char, t: string)
    requires IsQuote(q)
    ensures EscapeByte(b, q)[0] == '\\' ==> ReadEscape(EscapeByte(b, q)[1..] + t) == Some((b, t))
  {
  }

  lemma ReadBodyStep(b: Byte, q: char, t: string)
    requires IsQuote(q)
    ensures ReadBody(EscapeByte(b, q) + t, q) == Prepend(b, ReadBody(t, q))
  {
    var e := EscapeByte(b, q);
    var s := e + t;
    assert s[0] == e[0];
    if e[0] == '\\' {
      assert s[1..] == e[1..] + t;
      ReadEscapeByte(b, q, t);
    } else {
      assert s[1..] == t;
    }
  }

  lemma {:induction false} ReadBodyEscape(bs: seq<Byte>, q: char, t: string)
    requires IsQuote(q)
    ensures ReadBody(EscapeBytes(bs, q) + [q] + t, q) == Some((bs, t))
  {
    if bs == [] {
      assert EscapeBytes(bs, q) + [q] + t == [q] + t;
    } else {
      assert EscapeBytes(bs, q) + [q] + t == EscapeByte(bs[0], q) + (EscapeBytes(bs[1..], q) + [q] + t);
      ReadBodyStep(bs[0], q, EscapeBytes(bs[1..], q) + [q] + t);
      ReadBodyEscape(bs[1..], q, t);
      assert [bs[0]] + bs[1..] == bs;
    }
  }

  /** The printed literal loses nothing: it reads back to the bytes, wherever it stands. */
  lemma ReadBytesLiteralRepr(bs: seq<Byte>, t: string)
    ensures ReadBytesLiteral(BytesRepr(bs) + t) == Some((bs, t))
  {
    var q := QuoteFor(bs);
    var s := BytesRepr(bs) + t;
    assert s[1] == q;
    assert s[2..] == EscapeBytes(bs, q) + [q] + t;
    ReadBodyEscape(bs, q, t);
  }
}
