/**
  JSON string literals as `serde_json` writes and reads them. The session store
  keeps every value as JSON text, and an error response carries its message as a
  JSON string body.
*/
module JsonText {
  import opened Wrappers
  import UrlEncoding

  const HEX_LOWER := "0123456789abcdef"
  const BACKSPACE: char := 8 as char
  const FORM_FEED: char := 12 as char

  /** The escape `serde_json` writes for one character; most characters stand for themselves. */
  function EscapeChar(c: char): (e: string)
    ensures 1 <= |e| <= 6
    ensures |e| == 1 <==> (c != '"' && c != '\\' && (c as int) >= 0x20)
    ensures |e| == 1 ==> e[0] == c
    ensures |e| > 1 ==> e[0] == '\\'
  {
    if c == '"' then "\\\""
    else if c == '\\' then "\\\\"
    else if c == BACKSPACE then "\\b"
    else if c == '\t' then "\\t"
    else if c == '\n' then "\\n"
    else if c == FORM_FEED then "\\f"
    else if c == '\r' then "\\r"
    else if (c as int) < 0x20 then "\\u00" + [HEX_LOWER[c as int / 16], HEX_LOWER[c as int % 16]]
    else [c]
  }

  function EscapeContent(s: string): string {
    if s == [] then [] else EscapeChar(s[0]) + EscapeContent(s[1..])
  }

  /** `serde_json::to_string` of a Rust `String`: the escaped text between double quotes. */
  function Quote(s: string): (j: string)
    ensures |j| >= 2 && j[0] == '"' && j[|j| - 1] == '"'
  {
    "\"" + EscapeContent(s) + "\""
  }

  /** The code point written by the four hexadecimal digits of a `\uXXXX` escape. */
  function Hex4(d: string): Option<nat>
    requires |d| == 4
  {
    match (UrlEncoding.HexValue(d[0]), UrlEncoding.HexValue(d[1]), UrlEncoding.HexValue(d[2]), UrlEncoding.HexValue(d[3]))
    case (Some(a), Some(b), Some(c), Some(e)) => Some(((a * 16 + b) * 16 + c) * 16 + e)
    case _ => None
  }

  function Prepend(c: char, rest: Option<string>): Option<string> {
    if rest.None? then None else Some([c] + rest.value)
  }

  /** The character a one-letter escape `\x` stands for. */
  function SimpleEscape(x: char): Option<char> {
    if x == '"' then Some('"')
    else if x == '\\' then Some('\\')
    else if x == '/' then Some('/')
    else if x == 'b' then Some(BACKSPACE)
    else if x == 'f' then Some(FORM_FEED)
    else if x == 'n' then Some('\n')
    else if x == 'r' then Some('\r')
    else if x == 't' then Some('\t')
    else None
  }

  /**
    The characters of a string literal's body, or `None` when the body holds an
    unescaped quote or control character, or an escape JSON does not define.
  */
  function Unescape(j: string): Option<string>
    decreases |j|
  {
    if j == [] then Some([])
    else if j[0] == '"' || (j[0] as int) < 0x20 then None
    else if j[0] != '\\' then Prepend(j[0], Unescape(j[1..]))
    else if |j| < 2 then None
    else if j[1] != 'u' then
      (match SimpleEscape(j[1])
       case Some(c) => Prepend(c, Unescape(j[2..]))
       case None => None)
    else if |j| < 6 then None
    else
      match Hex4(j[2..6])
      case Some(n) =>
        if 0xD800 <= n < 0xE000 then None
        else Prepend(n as char, Unescape(j[6..]))
      case None => None
  }

  /** `serde_json::from_str::<String>` on text that is exactly one string literal. */
  function Unquote(j: string): (r: Option<string>)
    ensures r.Some? ==> |j| >= 2 && j[0] == '"' && j[|j| - 1] == '"'
  {
    if |j| >= 2 && j[0] == '"' && j[|j| - 1] == '"' then Unescape(j[1..|j| - 1]) else None
  }

  lemma HexLowerValue(n: nat)
    requires n < 16
    ensures UrlEncoding.HexValue(HEX_LOWER[n]) == Some(n)
  {
  }

  lemma UnescapeAfterControl(c: char, rest: string)
    requires (c as int) < 0x20 && c != BACKSPACE && c != '\t' && c != '\n' && c != FORM_FEED && c != '\r'
    ensures Unescape(EscapeChar(c) + rest) == Prepend(c, Unescape(rest))
  {
    var hi, lo := c as int / 16, c as int % 16;
    var e := EscapeChar(c) + rest;
    assert e == ['\\', 'u', '0', '0', HEX_LOWER[hi], HEX_LOWER[lo]] + rest;
    HexLowerValue(hi);
    HexLowerValue(lo);
    assert e[2..6] == ['0', '0', HEX_LOWER[hi], HEX_LOWER[lo]];
    assert Hex4(e[2..6]) == Some(c as int);
    assert e[6..] == rest;
  }

  /** Reading back the escape of one character yields that character. */
  lemma UnescapeAfterEscapeChar(c: char, rest: string)
    ensures Unescape(EscapeChar(c) + rest) == Prepend(c, Unescape(rest))
  {
    var e := EscapeChar(c) + rest;
    if |EscapeChar(c)| == 1 {
      assert e[1..] == rest;
    } else if (c as int) < 0x20 && c != BACKSPACE && c != '\t' && c != '\n' && c != FORM_FEED && c != '\r' {
      UnescapeAfterControl(c, rest);
    } else {
      assert |EscapeChar(c)| == 2;
      assert e[2..] == rest;
    }
  }

  lemma {:induction false} UnescapeEscape(s: string)
    ensures Unescape(EscapeContent(s)) == Some(s)
  {
    if s != [] {
      UnescapeEscape(s[1..]);
      UnescapeAfterEscapeChar(s[0], EscapeContent(s[1..]));
      assert [s[0]] + s[1..] == s;
    }
  }

  /** Every string survives a trip through its JSON literal. */
  lemma UnquoteQuote(s: string)
    ensures Unquote(Quote(s)) == Some(s)
  {
    var j := Quote(s);
    assert j[1..|j| - 1] == EscapeContent(s);
    UnescapeEscape(s);
  }

  /** Different strings are written as different JSON literals. */
  lemma QuoteInjective(s: string, t: string)
    requires Quote(s) == Quote(t)
    ensures s == t
  {
    UnquoteQuote(s);
    UnquoteQuote(t);
  }
}
