/**
 * `JSON.stringify` applied to a string: the JSON string literal of section 7
 * of RFC 8259, with the escapes ECMA-262 chooses (the two-character escapes
 * `\b \t \n \f \r \" \\`, `\u00xx` in lower-case hex for the other control
 * characters, every other character as itself). A reference decoder for the
 * literal is given beside it, and the two are proved inverse.
 */
module JsonString {
  import opened Wrappers

  function HexDigit(n: nat): (c: char)
    requires n < 16
  {
    if n < 10 then (('0' as int) + n) as char else (('a' as int) + n - 10) as char
  }

  function HexValue(c: char): (r: Option<nat>)
    ensures r.Some? ==> r.value < 16
  {
    if '0' <= c <= '9' then Some(c as int - '0' as int)
    else if 'a' <= c <= 'f' then Some(c as int - 'a' as int + 10)
    else if 'A' <= c <= 'F' then Some(c as int - 'A' as int + 10)
    else None
  }

  /** The value of four hex digits, as in a `\uXXXX` escape. */
  function Hex4(t: string): (r: Option<nat>)
    requires |t| == 4
    ensures r.Some? ==> r.value < 0x10000
  {
    match (HexValue(t[0]), HexValue(t[1]), HexValue(t[2]), HexValue(t[3]))
    case (Some(a), Some(b), Some(c), Some(d)) => Some(((a * 16 + b) * 16 + c) * 16 + d)
    case _ => None
  }

  /** What `JSON.stringify` writes for one character of a string. */
  function EscapeChar(c: char): (r: string)
    ensures |r| >= 1
  {
    if c == '\U{0008}' then "\\b"
    else if c == '\t' then "\\t"
    else if c == '\n' then "\\n"
    else if c == '\U{000C}' then "\\f"
    else if c == '\r' then "\\r"
    else if c == '"' then "\\\""
    else if c == '\\' then "\\\\"
    else if (c as int) < 0x20 then "\\u00" + [HexDigit(c as int / 16), HexDigit(c as int % 16)]
    else [c]
  }

  function Escape(s: string): string
    decreases |s|
  {
    if |s| == 0 then "" else EscapeChar(s[0]) + Escape(s[1..])
  }

  /** `JSON.stringify(s)` for a string `s`. */
  function Quote(s: string): (r: string)
    ensures |r| >= 2 && r[0] == '"' && r[|r| - 1] == '"'
  {
    "\"" + Escape(s) + "\""
  }

  /** The character a two-character escape `\e` stands for. */
  function SimpleEscape(e: char): Option<char> {
    if e == '"' then Some('"')
    else if e == '\\' then Some('\\')
    else if e == '/' then Some('/')
    else if e == 'b' then Some('\U{0008}')
    else if e == 'f' then Some('\U{000C}')
    else if e == 'n' then Some('\n')
    else if e == 'r' then Some('\r')
    else if e == 't' then Some('\t')
    else None
  }

  function Prepend(c: char, rest: Option<string>): Option<string> {
    match rest
    case None => None
    case Some(x) => Some([c] + x)
  }

  /** Decodes the characters between the quotes of a JSON string literal; `None` if malformed. */
  function Unescape(t: string): Option<string>
    decreases |t|
  {
    if |t| == 0 then Some("")
    else if t[0] == '\\' then
      if |t| < 2 then None
      else if t[1] == 'u' then
        if |t| < 6 then None
        else
          match Hex4(t[2..6])
          case None => None
          case Some(v) => if 0xD800 <= v < 0xE000 then None else Prepend(v as char, Unescape(t[6..]))
      else
        match SimpleEscape(t[1])
        case None => None
        case Some(c) => Prepend(c, Unescape(t[2..]))
    else if t[0] == '"' || (t[0] as int) < 0x20 then None
    else Prepend(t[0], Unescape(t[1..]))
  }

  /** Decodes a whole JSON string literal, quotes included. */
  function Unquote(t: string): Option<string> {
    if |t| >= 2 && t[0] == '"' && t[|t| - 1] == '"' then Unescape(t[1..|t| - 1]) else None
  }

  lemma HexDigitValue(n: nat)
    requires n < 16
    ensures HexValue(HexDigit(n)) == Some(n)
  {
  }

  /** Decoding undoes the escape of one character, whatever follows it. */
  lemma UnescapeChar(c: char, rest: string)
    ensures Unescape(EscapeChar(c) + rest) == Prepend(c, Unescape(rest))
  {
    var t := EscapeChar(c) + rest;
    if c == '\U{0008}' || c == '\t' || c == '\n' || c == '\U{000C}' || c == '\r' || c == '"' || c == '\\' {
      assert t[0] == '\\' && t[2..] == rest;
    } else if (c as int) < 0x20 {
      var hi, lo := c as int / 16, c as int % 16;
      HexDigitValue(hi);
      HexDigitValue(lo);
      assert t[0] == '\\' && t[1] == 'u';
      assert t[2..6] == ['0', '0', HexDigit(hi), HexDigit(lo)];
      assert Hex4(t[2..6]) == Some(c as int);
      assert t[6..] == rest;
    } else {
      assert t[0] == c && t[1..] == rest;
    }
  }

  lemma {:induction false} UnescapeEscape(s: string)
    ensures Unescape(Escape(s)) == Some(s)
    decreases |s|
  {
    if |s| > 0 {
      UnescapeEscape(s[1..]);
      UnescapeChar(s[0], Escape(s[1..]));
      assert [s[0]] + s[1..] == s;
    }
  }

  /** A quoted string is a JSON string literal that decodes to the original string. */
  lemma QuoteRoundTrip(s: string)
    ensures Unquote(Quote(s)) == Some(s)
  {
    var q := Quote(s);
    assert q[1..|q| - 1] == Escape(s);
    UnescapeEscape(s);
  }

  /** Quoting is injective: two strings with the same literal are the same string. */
  lemma QuoteInjective(s: string, t: string)
    requires Quote(s) == Quote(t)
    ensures s == t
  {
    QuoteRoundTrip(s);
    QuoteRoundTrip(t);
  }

  lemma {:induction false} EscapeLength(s: string)
    ensures |Escape(s)| >= |s|
    decreases |s|
  {
    if |s| > 0 {
      EscapeLength(s[1..]);
    }
  }

  /** A quoted string is never the string itself. */
  lemma QuoteDiffers(s: string)
    ensures Quote(s) != s
  {
    EscapeLength(s);
  }

  /** No control character (in particular no newline) survives escaping. */
  lemma {:induction false} EscapeHasNoControl(s: string)
    ensures forall i :: 0 <= i < |Escape(s)| ==> (Escape(s)[i] as int) >= 0x20
    decreases |s|
  {
    if |s| > 0 {
      EscapeHasNoControl(s[1..]);
      var e := EscapeChar(s[0]);
      assert forall i :: 0 <= i < |e| ==> (e[i] as int) >= 0x20;
    }
  }

  lemma QuoteHasNoControl(s: string)
    ensures forall i :: 0 <= i < |Quote(s)| ==> (Quote(s)[i] as int) >= 0x20
    ensures '\n' !in Quote(s)
  {
    EscapeHasNoControl(s);
    var q := Quote(s);
    forall i | 0 <= i < |q| ensures (q[i] as int) >= 0x20 {
      if 0 < i < |q| - 1 {
        assert q[i] == Escape(s)[i - 1];
      }
    }
  }
}
