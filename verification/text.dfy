/** The JavaScript string operations the scripts rely on, spelled out over
    `seq<char>`: the `\s` character class (also what `trim` removes), ASCII
    case mapping, `includes`, `replace(/\D/g, '')`, decimal rendering and
    `parseInt` of a digit string, and UTF-16 length. */
module Text {
  import opened Wrappers

  /** A character of the ECMAScript WhiteSpace or LineTerminator productions:
      exactly what `\s` matches and what `String.prototype.trim` strips. */
  predicate IsWhitespace(c: char) {
    var n := c as int;
    || n == 0x09 || n == 0x0A || n == 0x0B || n == 0x0C || n == 0x0D
    || n == 0x20 || n == 0xA0 || n == 0x1680
    || (0x2000 <= n <= 0x200A)
    || n == 0x2028 || n == 0x2029 || n == 0x202F || n == 0x205F
    || n == 0x3000 || n == 0xFEFF
  }

  predicate NoWhitespace(s: string) {
    forall i | 0 <= i < |s| :: !IsWhitespace(s[i])
  }

  predicate AllWhitespace(s: string) {
    forall i | 0 <= i < |s| :: IsWhitespace(s[i])
  }

  /** `\d`: an ASCII decimal digit. */
  predicate IsDigit(c: char) {
    '0' <= c <= '9'
  }

  predicate AllDigits(s: string) {
    forall i | 0 <= i < |s| :: IsDigit(s[i])
  }

  // ---------------------------------------------------------------------
  // trim

  /** Drops the leading whitespace of `s`. */
  function TrimStart(s: string): (r: string)
    ensures |r| <= |s| && r == s[|s| - |r|..]
    ensures AllWhitespace(s[..|s| - |r|])
    ensures |r| > 0 ==> !IsWhitespace(r[0])
  {
    if |s| > 0 && IsWhitespace(s[0]) then TrimStart(s[1..]) else s
  }

  /** Drops the trailing whitespace of `s`. */
  function TrimEnd(s: string): (r: string)
    ensures |r| <= |s| && r == s[..|r|]
    ensures AllWhitespace(s[|r|..])
    ensures |r| > 0 ==> !IsWhitespace(r[|r| - 1])
  {
    if |s| > 0 && IsWhitespace(s[|s| - 1]) then TrimEnd(s[..|s| - 1]) else s
  }

  /** `String.prototype.trim`. */
  function Trim(s: string): string {
    TrimEnd(TrimStart(s))
  }

  /** What `!value.trim()` tests: the value is empty once trimmed. */
  predicate IsBlank(s: string) {
    Trim(s) == ""
  }

  /** A value is blank exactly when it consists of whitespace only, and the
      trimmed value is a slice of the original with whitespace on both sides. */
  lemma TrimCharacterisation(s: string)
    ensures IsBlank(s) <==> AllWhitespace(s)
    ensures exists a, b :: 0 <= a <= b <= |s| && Trim(s) == s[a..b]
                           && AllWhitespace(s[..a]) && AllWhitespace(s[b..])
  {
    var t := TrimStart(s);
    var a := |s| - |t|;
    var u := TrimEnd(t);
    var b := a + |u|;
    assert Trim(s) == s[a..b];
    assert s[b..] == t[|u|..];
    if IsBlank(s) {
      forall i | 0 <= i < |s|
        ensures IsWhitespace(s[i])
      {
        assert s[i] == s[..a][i];
      }
    }
  }

  // ---------------------------------------------------------------------
  // case mapping

  /** `toLowerCase` on one character, for the ASCII letters. */
  function LowerChar(c: char): char {
    if 'A' <= c <= 'Z' then (c as int + 32) as char else c
  }

  /** `toUpperCase` on one character, for the ASCII letters. */
  function UpperChar(c: char): char {
    if 'a' <= c <= 'z' then (c as int - 32) as char else c
  }

  function ToLower(s: string): (r: string)
    ensures |r| == |s|
    ensures forall i | 0 <= i < |s| :: r[i] == LowerChar(s[i])
  {
    seq(|s|, i requires 0 <= i < |s| => LowerChar(s[i]))
  }

  /** Lower-casing is idempotent: a lower-cased term lower-cased again is unchanged. */
  lemma ToLowerIdempotent(s: string)
    ensures ToLower(ToLower(s)) == ToLower(s)
  {
  }

  // ---------------------------------------------------------------------
  // includes

  predicate StartsWith(s: string, p: string) {
    |p| <= |s| && s[..|p|] == p
  }

  /** Two texts framed by the same prefix, separator and suffix are equal
      when the framed wholes are. */
  lemma SameFrameSameMiddle(pre: string, a: string, b: string, sep: string, post: string)
    requires pre + a + sep + post == pre + b + sep + post
    ensures a == b
  {
    var x := pre + a + sep + post;
    var k := |sep + post|;
    assert x == pre + a + (sep + post);
    assert a == x[|pre|..|x| - k];
    assert x == pre + b + (sep + post);
    assert b == x[|pre|..|x| - k];
  }

  /** `s.includes(t)`: `t` occurs in `s` at some position. */
  predicate Contains(s: string, t: string) {
    exists i | 0 <= i <= |s| :: StartsWith(s[i..], t)
  }

  /** Every string includes the empty string. */
  lemma ContainsEmpty(s: string)
    ensures Contains(s, "")
  {
    assert StartsWith(s[0..], "");
  }

  /** Inclusion is transitive: what occurs in an occurrence occurs in the
      whole. */
  lemma ContainsTransitive(s: string, t: string, u: string)
    requires Contains(s, t) && Contains(t, u)
    ensures Contains(s, u)
  {
    var i :| 0 <= i <= |s| && StartsWith(s[i..], t);
    var j :| 0 <= j <= |t| && StartsWith(t[j..], u);
    assert |t| <= |s| - i && s[i..][..|t|] == t;
    assert forall k | 0 <= k < |t| :: s[i + k] == t[k];
    assert forall k | 0 <= k < |u| :: t[j + k] == u[k];
    assert s[i + j..][..|u|] == u;
    assert StartsWith(s[i + j..], u);
  }

  /** Lower-casing keeps occurrences. */
  lemma ContainsLower(s: string, t: string)
    requires Contains(s, t)
    ensures Contains(ToLower(s), ToLower(t))
  {
    var i :| 0 <= i <= |s| && StartsWith(s[i..], t);
    assert ToLower(s)[i..][..|t|] == ToLower(t);
    assert StartsWith(ToLower(s)[i..], ToLower(t));
  }

  // ---------------------------------------------------------------------
  // digits

  /** `s.replace(/\D/g, '')`: the digits of `s`, in order. */
  function DigitsOf(s: string): (r: string)
    ensures AllDigits(r)
    ensures |r| <= |s|
  {
    if |s| == 0 then ""
    else (if IsDigit(s[0]) then [s[0]] else []) + DigitsOf(s[1..])
  }

  lemma {:induction false} DigitsOfAppend(a: string, b: string)
    ensures DigitsOf(a + b) == DigitsOf(a) + DigitsOf(b)
  {
    if |a| == 0 {
      assert a + b == b;
    } else {
      assert (a + b)[1..] == a[1..] + b;
      DigitsOfAppend(a[1..], b);
    }
  }

  /** A string of digits is left unchanged by stripping non-digits. */
  lemma {:induction false} DigitsOfAllDigits(s: string)
    requires AllDigits(s)
    ensures DigitsOf(s) == s
  {
    if |s| > 0 {
      DigitsOfAllDigits(s[1..]);
    }
  }

  /** Stripping non-digits keeps exactly the digits, never counting a
      non-digit and never dropping a digit. */
  lemma {:induction false} DigitsOfCount(s: string, c: char)
    ensures IsDigit(c) ==> multiset(DigitsOf(s))[c] == multiset(s)[c]
    ensures !IsDigit(c) ==> multiset(DigitsOf(s))[c] == 0
  {
    if |s| > 0 {
      DigitsOfCount(s[1..], c);
      assert s == [s[0]] + s[1..];
    }
  }

  function DigitValue(c: char): nat
    requires IsDigit(c)
    ensures DigitValue(c) < 10
  {
    c as int - '0' as int
  }

  function DigitChar(d: nat): (c: char)
    requires d < 10
    ensures IsDigit(c) && DigitValue(c) == d
  {
    (d + '0' as int) as char
  }

  /** `parseInt` of a non-empty digit string (decimal, leading zeros allowed). */
  function DecimalValue(ds: string): nat
    requires AllDigits(ds)
  {
    if |ds| == 0 then 0
    else DecimalValue(ds[..|ds| - 1]) * 10 + DigitValue(ds[|ds| - 1])
  }

  /** The decimal rendering of a number, as a template literal `${n}` gives it. */
  function NatToDecimal(n: nat): (r: string)
    ensures |r| > 0 && AllDigits(r)
    ensures |r| > 1 ==> r[0] != '0'
  {
    if n < 10 then [DigitChar(n)] else NatToDecimal(n / 10) + [DigitChar(n % 10)]
  }

  /** Rendering a number and reading it back gives the number. */
  lemma {:induction false} DecimalRoundTrip(n: nat)
    ensures DecimalValue(NatToDecimal(n)) == n
  {
    var r := NatToDecimal(n);
    if n >= 10 {
      DecimalRoundTrip(n / 10);
      assert r[..|r| - 1] == NatToDecimal(n / 10);
    }
  }

  // ---------------------------------------------------------------------
  // parseInt

  /** The longest prefix of `s` made of decimal digits. */
  function DecimalPrefix(s: string): (r: string)
    ensures AllDigits(r) && StartsWith(s, r)
    ensures |r| < |s| ==> !IsDigit(s[|r|])
  {
    if |s| > 0 && IsDigit(s[0]) then [s[0]] + DecimalPrefix(s[1..]) else ""
  }

  predicate IsHexDigit(c: char) {
    IsDigit(c) || 'a' <= c <= 'f' || 'A' <= c <= 'F'
  }

  function HexDigitValue(c: char): nat
    requires IsHexDigit(c)
    ensures HexDigitValue(c) < 16
  {
    if IsDigit(c) then DigitValue(c)
    else if 'a' <= c <= 'f' then c as int - 'a' as int + 10
    else c as int - 'A' as int + 10
  }

  /** The longest prefix of `s` made of hexadecimal digits. */
  function HexPrefix(s: string): (r: string)
    ensures StartsWith(s, r)
    ensures forall i | 0 <= i < |r| :: IsHexDigit(r[i])
    ensures |r| < |s| ==> !IsHexDigit(s[|r|])
  {
    if |s| > 0 && IsHexDigit(s[0]) then [s[0]] + HexPrefix(s[1..]) else ""
  }

  function HexNumber(ds: string): nat
    requires forall i | 0 <= i < |ds| :: IsHexDigit(ds[i])
  {
    if |ds| == 0 then 0
    else HexNumber(ds[..|ds| - 1]) * 16 + HexDigitValue(ds[|ds| - 1])
  }

  /** `parseInt(s)` with no radix: leading whitespace is skipped, one sign is
      read, a `0x`/`0X` prefix selects base 16, and the longest run of digits
      that follows is the value. `None` stands for `NaN` (no digits at all). */
  function ParseInt(s: string): (r: Option<int>)
    ensures TrimStart(s) == "" ==> r.None?
    ensures |s| > 0 && IsWhitespace(s[0]) ==> r == ParseInt(s[1..])
    ensures r.Some? && r.value < 0 ==> |TrimStart(s)| > 0 && TrimStart(s)[0] == '-'
  {
    var t := TrimStart(s);
    var negative := |t| > 0 && t[0] == '-';
    var u := if |t| > 0 && (t[0] == '-' || t[0] == '+') then t[1..] else t;
    match ParseMagnitude(u)
    case None => None
    case Some(m) => Some(if negative then 0 - m else m)
  }

  /** The unsigned part of `parseInt`: a `0x`/`0X` prefix and hexadecimal
      digits, or decimal digits. */
  function ParseMagnitude(u: string): Option<nat> {
    var hex := |u| >= 2 && u[0] == '0' && (u[1] == 'x' || u[1] == 'X');
    var z := if hex then HexPrefix(u[2..]) else DecimalPrefix(u);
    if |z| == 0 then None
    else if hex then Some(HexNumber(z))
    else Some(DecimalValue(z))
  }

  /** The digits in front of a non-digit are the whole decimal prefix. */
  lemma {:induction false} DecimalPrefixOfDigits(ds: string, rest: string)
    requires AllDigits(ds)
    requires |rest| > 0 ==> !IsDigit(rest[0])
    ensures DecimalPrefix(ds + rest) == ds
  {
    if |ds| > 0 {
      assert (ds + rest)[1..] == ds[1..] + rest;
      DecimalPrefixOfDigits(ds[1..], rest);
    } else {
      assert ds + rest == rest;
    }
  }

  /** A text that starts with a digit has no leading whitespace to skip. */
  lemma DigitNotTrimmed(s: string)
    requires |s| > 0 && IsDigit(s[0])
    ensures TrimStart(s) == s
  {
    assert !IsWhitespace(s[0]);
  }

  /** A text that starts with a digit has a non-empty run of digits. */
  lemma DigitStartsPrefix(s: string)
    requires |s| > 0 && IsDigit(s[0])
    ensures DecimalPrefix(s) != ""
  {
    assert DecimalPrefix(s) == [s[0]] + DecimalPrefix(s[1..]);
  }

  /** A text that starts with a digit, and not with "0x", reads as its
      leading run of digits. */
  lemma ParseIntLeadingDigit(s: string)
    requires |s| > 0 && IsDigit(s[0])
    requires !(|s| >= 2 && s[0] == '0' && (s[1] == 'x' || s[1] == 'X'))
    ensures ParseInt(s) == Some(DecimalValue(DecimalPrefix(s)) as int)
  {
    DigitNotTrimmed(s);
    DecimalMagnitude(s);
    var t := TrimStart(s);
    assert t == s;
    assert !(|t| > 0 && (t[0] == '-' || t[0] == '+'));
    assert ParseMagnitude(t) == Some(DecimalValue(DecimalPrefix(s)));
  }

  lemma DecimalMagnitude(s: string)
    requires |s| > 0 && IsDigit(s[0])
    requires !(|s| >= 2 && s[0] == '0' && (s[1] == 'x' || s[1] == 'X'))
    ensures ParseMagnitude(s) == Some(DecimalValue(DecimalPrefix(s)))
  {
    DigitStartsPrefix(s);
  }

  /** Digits followed by text that neither continues the number nor turns
      a leading "0" into a hexadecimal prefix read as those digits. */
  lemma ParseIntOfDigitsThen(ds: string, rest: string)
    requires |ds| > 0 && AllDigits(ds)
    requires |rest| > 0 ==> !IsDigit(rest[0]) && rest[0] != 'x' && rest[0] != 'X'
    ensures ParseInt(ds + rest) == Some(DecimalValue(ds) as int)
  {
    var s := ds + rest;
    DecimalPrefixOfDigits(ds, rest);
    assert s[0] == ds[0];
    if |s| >= 2 {
      assert s[1] == if |ds| >= 2 then ds[1] else rest[0];
    }
    ParseIntLeadingDigit(s);
  }

  /** A quantity written as a number followed by a unit, such as "4 Years",
      is read back as that number. */
  lemma ParseIntOfQuantity(n: nat, unit: string)
    ensures ParseInt(NatToDecimal(n) + " " + unit) == Some(n)
  {
    var ds := NatToDecimal(n);
    assert ds + " " + unit == ds + (" " + unit);
    ParseIntOfDigitsThen(ds, " " + unit);
    DecimalRoundTrip(n);
  }

  // ---------------------------------------------------------------------
  // UTF-16 length

  /** `s.length` in JavaScript counts UTF-16 code units: characters outside
      the Basic Multilingual Plane count twice. */
  function Utf16Length(s: string): (r: nat)
    ensures |s| <= r <= 2 * |s|
  {
    if |s| == 0 then 0
    else (if s[0] as int >= 0x10000 then 2 else 1) + Utf16Length(s[1..])
  }
}
