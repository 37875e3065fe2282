/**
 * Rust's `{:?}` on a `&str`: the text between double quotes, each character
 * written by `char::escape_debug` — `\0 \t \r \n \\ \"` for those six, `\u{..}`
 * (shortest lowercase hex) for the other ASCII control characters, and the
 * character itself otherwise. `ReadQuoted` reads such a literal back.
 */
module RustDebug {
  import opened Wrappers
  import opened Numerals

  predicate IsAsciiControl(c: char) {
    c < ' ' || c as int == 0x7f
  }

  function EscapeChar(c: char): (r: string)
    ensures |r| >= 1
    ensures r[0] == '\\' || (r == [c] && c != '"' && c != '\\' && !IsAsciiControl(c))
  {
    if c == '\0' then "\\0"
    else if c == '\t' then "\\t"
    else if c == '\r' then "\\r"
    else if c == '\n' then "\\n"
    else if c == '\\' then "\\\\"
    else if c == '"' then "\\\""
    else if IsAsciiControl(c) then "\\u{" + Render(c as int, 16) + "}"
    else [c]
  }

  function Escape(s: string): (r: string)
    ensures |r| >= |s|
  {
    if s == [] then [] else EscapeChar(s[0]) + Escape(s[1..])
  }

  /** What `format!("{:?}", s)` gives for a string `s`. */
  function DebugStr(s: string): (r: string)
    ensures |r| >= |s| + 2 && r[0] == '"' && r[|r| - 1] == '"'
  {
    "\"" + Escape(s) + "\""
  }

  predicate IsScalar(v: nat) {
    v < 0xD800 || 0xE000 <= v < 0x11_0000
  }

  /** Reads the rest of one escape, after its backslash: the character and what follows. */
  function ReadEscape(s: string): (r: Option<(char, string)>)
    ensures r.Some? ==> |r.value.1| < |s|
  {
    if s == [] then None
    else if s[0] == '0' then Some(('\0', s[1..]))
    else if s[0] == 't' then Some(('\t', s[1..]))
    else if s[0] == 'r' then Some(('\r', s[1..]))
    else if s[0] == 'n' then Some(('\n', s[1..]))
    else if s[0] == '\\' then Some(('\\', s[1..]))
    else if s[0] == '"' then Some(('"', s[1..]))
    else if s[0] == 'u' && |s| >= 2 && s[1] == '{' then
      match ParseLeading(s[2..], 16)
      case Some((v, rest)) =>
        if rest != [] && rest[0] == '}' && IsScalar(v) then Some((v as char, rest[1..])) else None
      case None => None
    else None
  }

  /** Reads characters up to the closing unescaped `"`; gives them and what follows the quote. */
  function ReadBody(s: string): (r: Option<(string, string)>)
    decreases |s|
  {
    if s == [] then None
    else if s[0] == '"' then Some(([], s[1..]))
    else if s[0] == '\\' then
      match ReadEscape(s[1..])
      case Some((c, rest)) => Prepend(c, ReadBody(rest))
      case None => None
    else Prepend(s[0], ReadBody(s[1..]))
  }

  function Prepend(c: char, r: Option<(string, string)>): Option<(string, string)> {
    match r
    case Some((body, after)) => Some(([c] + body, after))
    case None => None
  }

  /** Reads one quoted literal at the front of `s`. */
  function ReadQuoted(s: string): Option<(string, string)> {
    if s != [] && s[0] == '"' then ReadBody(s[1..]) else None
  }

  lemma ReadEscapeChar(c: char, t: string)
    ensures EscapeChar(c)[0] == '\\' ==> ReadEscape(EscapeChar(c)[1..] + t) == Some((c, t))
  {
    if IsAsciiControl(c) && c != '\0' && c != '\t' && c != '\r' && c != '\n' {
      ReadUnicodeEscape(c, t);
    }
  }

  lemma ReadUnicodeEscape(c: char, t: string)
    requires IsAsciiControl(c) && c != '\0' && c != '\t' && c != '\r' && c != '\n'
    ensures ReadEscape(EscapeChar(c)[1..] + t) == Some((c, t))
  {
    var digits := Render(c as int, 16);
    assert EscapeChar(c) == "\\u{" + digits + "}";
    assert EscapeChar(c)[1..] + t == "u{" + (digits + ("}" + t));
    ReadUnicodeText(c as int, t);
  }

  /** A `u{H}` escape body with a scalar value `H` reads back as that character. */
  lemma ReadUnicodeText(v: nat, t: string)
    requires IsScalar(v)
    ensures ReadEscape("u{" + (Render(v, 16) + ("}" + t))) == Some((v as char, t))
  {
    var s := "u{" + (Render(v, 16) + ("}" + t));
    assert s[2..] == Render(v, 16) + ("}" + t);
    ParseLeadingRender(v, 16, "}" + t);
  }

  lemma ReadBodyStep(c: char, t: string)
    ensures ReadBody(EscapeChar(c) + t) == Prepend(c, ReadBody(t))
  {
    var e := EscapeChar(c);
    ReadEscapeChar(c, t);
    if e[0] == '\\' {
      assert (e + t)[1..] == e[1..] + t;
    } else {
      assert (e + t)[1..] == t;
    }
  }

  lemma {:induction false} ReadBodyEscape(s: string, t: string)
    ensures ReadBody(Escape(s) + "\"" + t) == Some((s, t))
  {
    if s == [] {
      assert Escape(s) + "\"" + t == "\"" + t;
    } else {
      assert Escape(s) + "\"" + t == EscapeChar(s[0]) + (Escape(s[1..]) + "\"" + t);
      ReadBodyStep(s[0], Escape(s[1..]) + "\"" + t);
      ReadBodyEscape(s[1..], t);
      assert [s[0]] + s[1..] == s;
    }
  }

  /** `{:?}` loses nothing: the quoted literal reads back to the string, wherever it stands. */
  lemma ReadQuotedDebugStr(s: string, t: string)
    ensures ReadQuoted(DebugStr(s) + t) == Some((s, t))
  {
    assert (DebugStr(s) + t)[1..] == Escape(s) + "\"" + t;
    ReadBodyEscape(s, t);
  }
}
