/**
 * Text primitives of JavaScript that the modelled code relies on: the `\s`
 * and `\d` character classes, `Array.prototype.join`, `String.prototype.split`
 * on a newline, `'  '.repeat(n)`, `String(n)` for integers and `parseInt` on a
 * string of decimal digits.
 */
module Text {

  /** JavaScript's `\s`: the WhiteSpace and LineTerminator code points of ECMA-262. */
  predicate IsJsWhitespace(c: char) {
    c == '\t' || c == '\n' || c == '\U{000B}' || c == '\U{000C}' || c == '\r' || c == ' ' ||
    c == '\U{00A0}' || c == '\U{1680}' || ('\U{2000}' <= c <= '\U{200A}') ||
    c == '\U{2028}' || c == '\U{2029}' || c == '\U{202F}' || c == '\U{205F}' ||
    c == '\U{3000}' || c == '\U{FEFF}'
  }

  /** JavaScript's `\d` (without the `u` flag): the ASCII digits only. */
  predicate IsAsciiDigit(c: char) {
    '0' <= c <= '9'
  }

  predicate AllDigits(s: string) {
    forall i :: 0 <= i < |s| ==> IsAsciiDigit(s[i])
  }

  predicate AllWhitespace(s: string) {
    forall i :: 0 <= i < |s| ==> IsJsWhitespace(s[i])
  }

  /** ASCII lower-casing; the identity on every other character. */
  function LowerAscii(c: char): (r: char)
    ensures 'A' <= c <= 'Z' ==> 'a' <= r <= 'z'
    ensures !('A' <= c <= 'Z') ==> r == c
  {
    if 'A' <= c <= 'Z' then (c as int + 32) as char else c
  }

  /** `parts.join(sep)`: the empty list joins to the empty string. */
  function Join(parts: seq<string>, sep: string): string
    decreases |parts|
  {
    if |parts| == 0 then ""
    else if |parts| == 1 then parts[0]
    else parts[0] + sep + Join(parts[1..], sep)
  }

  /** `s.split('\n')`: a string without a newline is one line; `""` is `[""]`. */
  function Lines(s: string): (r: seq<string>)
    ensures |r| >= 1
    decreases |s|
  {
    if |s| == 0 then [""]
    else if s[0] == '\n' then [""] + Lines(s[1..])
    else
      var t := Lines(s[1..]);
      [[s[0]] + t[0]] + t[1..]
  }

  /** `'  '.repeat(level)`: two spaces per indentation level. */
  function Indent(level: nat): (r: string)
    ensures |r| == 2 * level
    ensures forall i :: 0 <= i < |r| ==> r[i] == ' '
  {
    if level == 0 then "" else "  " + Indent(level - 1)
  }

  function DigitChar(d: nat): (c: char)
    requires d < 10
    ensures IsAsciiDigit(c)
  {
    ((('0' as int) + d) as char)
  }

  /** `String(n)` for a non-negative integer: its decimal digits, most significant first. */
  function NatToString(n: nat): string
    decreases n
  {
    if n < 10 then [DigitChar(n)] else NatToString(n / 10) + [DigitChar(n % 10)]
  }

  /** `String(i)` for an integer: a leading `-` for negative values. */
  function IntToString(i: int): string {
    if i < 0 then "-" + NatToString(-i) else NatToString(i)
  }

  /** `parseInt(s, 10)` on a string of decimal digits. */
  function DigitsValue(s: string): nat
    requires AllDigits(s)
    decreases |s|
  {
    if |s| == 0 then 0
    else DigitsValue(s[..|s| - 1]) * 10 + ((s[|s| - 1] as int) - ('0' as int))
  }

  /** A string splits back into the lines it was joined from, when none holds a newline. */
  lemma {:induction false} LinesOfJoin(parts: seq<string>)
    requires |parts| > 0
    requires forall i :: 0 <= i < |parts| ==> '\n' !in parts[i]
    ensures Lines(Join(parts, "\n")) == parts
    decreases |parts|
  {
    if |parts| == 1 {
      LinesOfLine(parts[0]);
    } else {
      LinesOfJoin(parts[1..]);
      LinesCons(parts[0], Join(parts[1..], "\n"));
    }
  }

  /** A line without a newline splits to itself. */
  lemma {:induction false} LinesOfLine(p: string)
    requires '\n' !in p
    ensures Lines(p) == [p]
    decreases |p|
  {
    if |p| > 0 {
      assert '\n' !in p[1..] by {
        forall k | 0 <= k < |p[1..]| ensures p[1..][k] != '\n' { assert p[1..][k] == p[k + 1]; }
      }
      LinesOfLine(p[1..]);
      assert [p[0]] + p[1..] == p;
    }
  }

  /** Splitting `p + "\n" + rest` yields `p` followed by the lines of `rest`. */
  lemma {:induction false} LinesCons(p: string, rest: string)
    requires '\n' !in p
    ensures Lines(p + "\n" + rest) == [p] + Lines(rest)
    decreases |p|
  {
    var s := p + "\n" + rest;
    if |p| == 0 {
      assert s[0] == '\n' && s[1..] == rest;
    } else {
      assert s[0] == p[0] && s[0] != '\n';
      assert s[1..] == p[1..] + "\n" + rest;
      assert '\n' !in p[1..] by {
        forall k | 0 <= k < |p[1..]| ensures p[1..][k] != '\n' { assert p[1..][k] == p[k + 1]; }
      }
      LinesCons(p[1..], rest);
      assert [p[0]] + p[1..] == p;
    }
  }

  /** Joining a concatenation of two non-empty lists puts one separator between their joins. */
  lemma {:induction false} JoinAppend(a: seq<string>, b: seq<string>, sep: string)
    requires |a| > 0 && |b| > 0
    ensures Join(a + b, sep) == Join(a, sep) + sep + Join(b, sep)
    decreases |a|
  {
    if |a| > 1 {
      assert (a + b)[1..] == a[1..] + b;
      JoinAppend(a[1..], b, sep);
    }
  }

  /** One more indentation level is two more leading spaces. */
  lemma IndentStep(level: nat)
    ensures Indent(level) + "  " == Indent(level + 1)
  {
    var l, r := Indent(level) + "  ", Indent(level + 1);
    assert |l| == |r|;
    forall i | 0 <= i < |l| ensures l[i] == r[i] {
    }
  }

  /** Indentation levels add up. */
  lemma IndentAdd(a: nat, b: nat)
    ensures Indent(a) + Indent(b) == Indent(a + b)
  {
    var l, r := Indent(a) + Indent(b), Indent(a + b);
    assert |l| == |r|;
    forall i | 0 <= i < |l| ensures l[i] == r[i] {
      if i < |Indent(a)| { assert l[i] == Indent(a)[i]; } else { assert l[i] == Indent(b)[i - |Indent(a)|]; }
    }
  }

  predicate EndsWith(s: string, suffix: string) {
    |suffix| <= |s| && s[|s| - |suffix|..] == suffix
  }

  /** A join ends with its last part. */
  lemma JoinEndsWithLast(parts: seq<string>, sep: string)
    requires |parts| > 0
    ensures EndsWith(Join(parts, sep), parts[|parts| - 1])
  {
    var n := |parts|;
    if n > 1 {
      JoinAppend(parts[..n - 1], [parts[n - 1]], sep);
      assert parts[..n - 1] + [parts[n - 1]] == parts;
      var before := Join(parts[..n - 1], sep) + sep;
      assert Join(parts, sep) == before + parts[n - 1];
      assert (before + parts[n - 1])[|before|..] == parts[n - 1];
    }
  }

  /** Concatenation regroups freely. */
  lemma AppendAssoc(a: string, b: string, c: string)
    ensures a + b + c == a + (b + c)
  {
  }

  /** Joining a part in front of a non-empty list puts one separator after it. */
  lemma JoinCons(p: string, rest: seq<string>, sep: string)
    requires |rest| > 0
    ensures Join([p] + rest, sep) == p + sep + Join(rest, sep)
  {
    assert ([p] + rest)[1..] == rest;
  }

  predicate StartsWith(s: string, prefix: string) {
    |prefix| <= |s| && s[..|prefix|] == prefix
  }

  /** Text added at the end keeps every prefix. */
  lemma StartsWithExtend(s: string, t: string, p: string)
    requires StartsWith(s, p)
    ensures StartsWith(s + t, p)
  {
    assert (s + t)[..|p|] == s[..|p|];
  }

  /** A join starts with its first part. */
  lemma JoinStartsWith(parts: seq<string>, sep: string, n: nat)
    requires |parts| > 0 && n <= |parts[0]|
    ensures n <= |Join(parts, sep)| && Join(parts, sep)[..n] == parts[0][..n]
  {
    if |parts| > 1 {
      var rest := parts[0] + sep + Join(parts[1..], sep);
      assert rest[..n] == parts[0][..n];
    }
  }

  /** A prefix reaching past `a` is `a` followed by a prefix of `b`. */
  lemma PrefixOfAppend(a: string, b: string, n: nat)
    requires n <= |b|
    ensures (a + b)[..|a| + n] == a + b[..n]
  {
  }

  /** A character in neither the separator nor any part is not in the joined string. */
  lemma {:induction false} JoinAvoids(parts: seq<string>, sep: string, c: char)
    requires c !in sep
    requires forall i :: 0 <= i < |parts| ==> c !in parts[i]
    ensures c !in Join(parts, sep)
    decreases |parts|
  {
    if |parts| > 1 {
      JoinAvoids(parts[1..], sep, c);
    }
  }

  /** The decimal text of a natural number is a non-empty digit string without a redundant leading zero. */
  lemma {:induction false} NatToStringIsCanonical(n: nat)
    ensures |NatToString(n)| > 0 && AllDigits(NatToString(n))
    ensures |NatToString(n)| > 1 ==> NatToString(n)[0] != '0'
    decreases n
  {
    if n >= 10 {
      NatToStringIsCanonical(n / 10);
    }
  }

  /** `parseInt(String(n)) == n`: reading the decimal text back gives the number. */
  lemma {:induction false} NatToStringRoundTrip(n: nat)
    ensures AllDigits(NatToString(n)) && DigitsValue(NatToString(n)) == n
    decreases n
  {
    NatToStringIsCanonical(n);
    var s := NatToString(n);
    if n >= 10 {
      NatToStringRoundTrip(n / 10);
      assert s[..|s| - 1] == NatToString(n / 10);
    }
  }

  /** The decimal text of an integer never contains a newline or a space. */
  lemma IntToStringIsOneWord(i: int)
    ensures |IntToString(i)| > 0
    ensures '\n' !in IntToString(i) && ' ' !in IntToString(i)
  {
    var m: nat := if i < 0 then -i else i;
    NatToStringIsCanonical(m);
    assert forall k :: 0 <= k < |NatToString(m)| ==> IsAsciiDigit(NatToString(m)[k]);
  }
}
