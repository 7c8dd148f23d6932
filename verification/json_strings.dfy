/** `JSON.stringify` and `JSON.parse` restricted to what the favourites list
    stores: an array of strings. The encoder follows section 25.5.2 of
    ECMA-262 (the QuoteJSONString escapes: `\"`, `\\`, the five short control
    escapes, `\u00xx` with lower-case hex for the other control characters);
    the decoder reads the JSON text of an array of strings without
    insignificant whitespace, which is every text the encoder writes. */
module JsonStrings {
  import opened Wrappers
  import opened Text

  /** A lower-case hexadecimal digit. */
  function HexDigit(k: nat): (c: char)
    requires k < 16
    ensures IsHexDigit(c) && HexDigitValue(c) == k
    ensures !('A' <= c <= 'F')
  {
    if k < 10 then DigitChar(k) else ('a' as int + k - 10) as char
  }

  /** The escape QuoteJSONString writes for one code point. */
  function EscapeChar(c: char): (r: string)
    ensures |r| >= 1
    ensures r[0] == '\\' <==> c == '"' || c == '\\' || c < ' '
    ensures r[0] != '\\' ==> r == [c]
  {
    if c == '"' then "\\\""
    else if c == '\\' then "\\\\"
    else if c == '\U{8}' then "\\b"
    else if c == '\U{C}' then "\\f"
    else if c == '\n' then "\\n"
    else if c == '\r' then "\\r"
    else if c == '\t' then "\\t"
    else if c < ' ' then "\\u00" + [HexDigit(c as int / 16), HexDigit(c as int % 16)]
    else [c]
  }

  function EscapeAll(s: string): string {
    if |s| == 0 then "" else EscapeChar(s[0]) + EscapeAll(s[1..])
  }

  /** `JSON.stringify` of a string. */
  function EncodeString(s: string): string {
    "\"" + EscapeAll(s) + "\""
  }

  /** The encoded elements, comma separated. */
  function EncodeElements(xs: seq<string>): string {
    if |xs| == 0 then ""
    else if |xs| == 1 then EncodeString(xs[0])
    else EncodeString(xs[0]) + "," + EncodeElements(xs[1..])
  }

  /** `JSON.stringify` of an array of strings. */
  function EncodeArray(xs: seq<string>): (r: string)
    ensures |r| >= 2 && r[0] == '[' && r[|r| - 1] == ']'
    ensures r == "[]" <==> xs == []
    ensures xs != [] ==> r[1] == '"'
  {
    assert |xs| > 0 ==> EncodeElements(xs)[0] == '"';
    "[" + EncodeElements(xs) + "]"
  }

  /** The character a short escape `\x` stands for. */
  function ShortEscape(c: char): Option<char> {
    if c == '"' then Some('"')
    else if c == '\\' then Some('\\')
    else if c == '/' then Some('/')
    else if c == 'b' then Some('\U{8}')
    else if c == 'f' then Some('\U{C}')
    else if c == 'n' then Some('\n')
    else if c == 'r' then Some('\r')
    else if c == 't' then Some('\t')
    else None
  }

  /** The code point of `\uXXXX`. A surrogate half is refused: pairs of
      surrogate escapes are not read by this decoder. */
  function UnicodeEscape(hex: string): (r: Option<char>)
    requires |hex| == 4
    ensures r.Some? ==> forall i | 0 <= i < 4 :: IsHexDigit(hex[i])
  {
    if forall i | 0 <= i < 4 :: IsHexDigit(hex[i]) then
      var v := HexNumber(hex);
      HexNumberBound(hex);
      if 0xD800 <= v <= 0xDFFF then None else Some(v as char)
    else None
  }

  lemma {:induction false} HexNumberBound(ds: string)
    requires forall i | 0 <= i < |ds| :: IsHexDigit(ds[i])
    ensures HexNumber(ds) < Power16(|ds|)
  {
    if |ds| > 0 {
      HexNumberBound(ds[..|ds| - 1]);
    }
  }

  function Power16(n: nat): (r: nat)
    ensures r >= 1
  {
    if n == 0 then 1 else 16 * Power16(n - 1)
  }

  /** Reads the body of a string literal up to and including its closing
      quote; yields the string and the text after the quote. */
  function ParseStringBody(s: string): (r: Option<(string, string)>)
    ensures r.Some? ==> |r.value.1| < |s|
  {
    if |s| == 0 then None
    else if s[0] == '"' then Some(("", s[1..]))
    else if s[0] == '\\' then
      if |s| < 2 then None
      else if s[1] == 'u' then
        if |s| < 6 then None
        else
          match UnicodeEscape(s[2..6])
          case None => None
          case Some(c) =>
            match ParseStringBody(s[6..])
            case None => None
            case Some((t, rest)) => Some(([c] + t, rest))
      else
        match ShortEscape(s[1])
        case None => None
        case Some(c) =>
          match ParseStringBody(s[2..])
          case None => None
          case Some((t, rest)) => Some(([c] + t, rest))
    else if s[0] < ' ' then None
    else
      match ParseStringBody(s[1..])
      case None => None
      case Some((t, rest)) => Some(([s[0]] + t, rest))
  }

  /** Reads `"…"` followed by `,` and more elements, or by the closing `]`;
      yields the elements and the text after the `]`. */
  function ParseElements(s: string): (r: Option<(seq<string>, string)>)
    ensures r.Some? ==> |r.value.1| < |s| && |r.value.0| > 0
    decreases |s|
  {
    if |s| == 0 || s[0] != '"' then None
    else
      match ParseStringBody(s[1..])
      case None => None
      case Some((x, rest)) =>
        if |rest| == 0 then None
        else if rest[0] == ']' then Some(([x], rest[1..]))
        else if rest[0] == ',' then
          match ParseElements(rest[1..])
          case None => None
          case Some((xs, after)) => Some(([x] + xs, after))
        else None
  }

  /** `JSON.parse` of a text that should hold an array of strings. */
  function DecodeArray(s: string): (r: Option<seq<string>>)
    ensures r.Some? ==> |s| >= 2 && s[0] == '['
    ensures r == Some([]) <==> s == "[]"
  {
    if |s| < 2 || s[0] != '[' then None
    else if s[1] == ']' then (if |s| == 2 then Some([]) else None)
    else
      match ParseElements(s[1..])
      case Some((xs, rest)) => if rest == "" then Some(xs) else None
      case None => None
  }

  lemma HexDigitsRoundTrip(c: char)
    requires c < ' '
    ensures var hex := "00" + [HexDigit(c as int / 16), HexDigit(c as int % 16)];
      UnicodeEscape(hex) == Some(c)
  {
    var hi, lo := c as int / 16, c as int % 16;
    var hex := "00" + [HexDigit(hi), HexDigit(lo)];
    assert hex[..3] == "00" + [HexDigit(hi)];
    assert hex[..3][..2] == "00";
    assert hex[..3][..2][..1] == "0";
    assert HexNumber("0") == 0 by { assert "0"[..0] == ""; }
    assert HexNumber("00") == 0 by { assert "00"[..1] == "0"; }
    assert HexNumber(hex[..3]) == hi;
    assert HexNumber(hex) == hi * 16 + lo;
  }

  /** One escaped character in front of a readable body is read back. */
  lemma ParseOneChar(c: char, tail: string, t: string, rest: string)
    requires ParseStringBody(tail) == Some((t, rest))
    ensures ParseStringBody(EscapeChar(c) + tail) == Some(([c] + t, rest))
  {
    var e := EscapeChar(c);
    var s := e + tail;
    if e[0] != '\\' {
      assert s[1..] == tail;
    } else if c < ' ' && c != '\U{8}' && c != '\U{C}' && c != '\n' && c != '\r' && c != '\t' {
      ParseUnicodeEscape(c, tail);
    } else {
      assert |e| == 2 && s[2..] == tail;
    }
  }

  lemma ParseUnicodeEscape(c: char, tail: string)
    requires c < ' ' && c != '\U{8}' && c != '\U{C}' && c != '\n' && c != '\r' && c != '\t'
    ensures var s := EscapeChar(c) + tail;
      |s| >= 6 && s[0] == '\\' && s[1] == 'u' && UnicodeEscape(s[2..6]) == Some(c) && s[6..] == tail
  {
    HexDigitsRoundTrip(c);
    var e := EscapeChar(c);
    var hex := "00" + [HexDigit(c as int / 16), HexDigit(c as int % 16)];
    assert e == "\\u" + hex;
    assert (e + tail)[2..6] == hex;
    assert (e + tail)[6..] == tail;
  }

  /** The body parser reads back exactly what the escaper wrote, up to the
      closing quote, and leaves the rest alone. */
  lemma {:induction false} ParseEscaped(x: string, rest: string)
    ensures ParseStringBody(EscapeAll(x) + "\"" + rest) == Some((x, rest))
  {
    if |x| == 0 {
      assert EscapeAll(x) + "\"" + rest == "\"" + rest;
    } else {
      var tail := EscapeAll(x[1..]) + "\"" + rest;
      ParseEscaped(x[1..], rest);
      ParseOneChar(x[0], tail, x[1..], rest);
      assert EscapeAll(x) + "\"" + rest == EscapeChar(x[0]) + tail;
      assert [x[0]] + x[1..] == x;
    }
  }

  /** An encoded string is read back by the body parser, whatever follows. */
  lemma EncodedStringParses(x: string, tail: string)
    ensures var s := EncodeString(x) + tail;
      |s| > 0 && s[0] == '"' && ParseStringBody(s[1..]) == Some((x, tail))
  {
    var s := EncodeString(x) + tail;
    ParseEscaped(x, tail);
    assert s[1..] == EscapeAll(x) + "\"" + tail;
  }

  lemma ElementThenClose(x: string, rest: string)
    ensures ParseElements(EncodeString(x) + ("]" + rest)) == Some(([x], rest))
  {
    EncodedStringParses(x, "]" + rest);
    assert ("]" + rest)[1..] == rest;
  }

  lemma ElementThenMore(x: string, more: string, xs: seq<string>, after: string)
    requires ParseElements(more) == Some((xs, after))
    ensures ParseElements(EncodeString(x) + ("," + more)) == Some(([x] + xs, after))
  {
    EncodedStringParses(x, "," + more);
    assert ("," + more)[1..] == more;
  }

  lemma EncodedSingle(xs: seq<string>, rest: string)
    requires |xs| == 1
    ensures ParseElements(EncodeElements(xs) + "]" + rest) == Some((xs, rest))
  {
    var x := xs[0];
    assert EncodeElements(xs) + "]" + rest == EncodeString(x) + ("]" + rest);
    ElementThenClose(x, rest);
    assert [x] == xs;
  }

  /** Regrouping a concatenation of five strings. */
  lemma Regroup(a: string, b: string, c: string, d: string, e: string)
    ensures a + b + c + d + e == a + (b + (c + d + e))
  {
  }

  lemma EncodedMany(xs: seq<string>, rest: string)
    requires |xs| > 1
    requires ParseElements(EncodeElements(xs[1..]) + "]" + rest) == Some((xs[1..], rest))
    ensures ParseElements(EncodeElements(xs) + "]" + rest) == Some((xs, rest))
  {
    var x := xs[0];
    var t := EncodeElements(xs[1..]);
    var more := t + "]" + rest;
    assert EncodeElements(xs) == EncodeString(x) + "," + t;
    Regroup(EncodeString(x), ",", t, "]", rest);
    ElementThenMore(x, more, xs[1..], rest);
    assert [x] + xs[1..] == xs;
  }

  lemma {:induction false} ParseEncodedElements(xs: seq<string>, rest: string)
    requires |xs| > 0
    ensures ParseElements(EncodeElements(xs) + "]" + rest) == Some((xs, rest))
  {
    if |xs| == 1 {
      EncodedSingle(xs, rest);
    } else {
      ParseEncodedElements(xs[1..], rest);
      EncodedMany(xs, rest);
    }
  }

  /** Reading back what was written gives the same array. */
  lemma ArrayRoundTrip(xs: seq<string>)
    ensures DecodeArray(EncodeArray(xs)) == Some(xs)
  {
    var s := EncodeArray(xs);
    if |xs| == 0 {
      assert s == "[]";
    } else {
      var body := EncodeElements(xs) + "]";
      ParseEncodedElements(xs, "");
      assert body + "" == body;
      EncodedElementsOpen(xs);
      assert s == "[" + body;
      assert s[1..] == body && s[1] == body[0];
    }
  }

  /** A non-empty array's elements start with the opening quote of the first. */
  lemma EncodedElementsOpen(xs: seq<string>)
    requires |xs| > 0
    ensures |EncodeElements(xs)| > 0 && EncodeElements(xs)[0] == '"'
  {
    var first := EncodeString(xs[0]);
    QuotedOpens(EscapeAll(xs[0]));
    if |xs| > 1 {
      var more := "," + EncodeElements(xs[1..]);
      assert EncodeElements(xs) == first + more;
      assert (first + more)[0] == first[0];
    }
  }

  lemma QuotedOpens(e: string)
    ensures ("\"" + e + "\"")[0] == '"'
  {
    assert "\"" + e + "\"" == "\"" + (e + "\"");
  }
}
