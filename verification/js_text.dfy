/**
 * The few JavaScript built-ins on strings and numbers that the modelled code
 * relies on: `String.prototype.split` with a one-character separator,
 * `Number(string)`, `Number.parseInt(string)` with no radix, the `%` operator
 * and the conversion of an integer to its decimal text.
 *
 * A JavaScript number is modelled as an integer or NaN: every number the
 * modelled code produces is one of the two.
 */
module JsText {

  datatype Num = Int(value: int) | NaN

  // ---------------------------------------------------------------- split

  /** `s.split(sep)`: the pieces between occurrences of `sep`; there is
      always at least one piece and no piece contains `sep`. */
  function Split(s: string, sep: char): (parts: seq<string>)
    ensures |parts| >= 1
    ensures forall i :: 0 <= i < |parts| ==> sep !in parts[i]
    decreases |s|
  {
    if |s| == 0 then [""]
    else
      var rest := Split(s[1..], sep);
      if s[0] == sep then [""] + rest
      else [[s[0]] + rest[0]] + rest[1..]
  }

  /** `parts.join(sep)`, the inverse of `Split`. */
  function Join(parts: seq<string>, sep: char): string
    requires |parts| >= 1
    decreases |parts|
  {
    if |parts| == 1 then parts[0] else parts[0] + [sep] + Join(parts[1..], sep)
  }

  lemma {:induction false} JoinSplit(s: string, sep: char)
    ensures Join(Split(s, sep), sep) == s
    decreases |s|
  {
    if |s| > 0 {
      var rest := Split(s[1..], sep);
      JoinSplit(s[1..], sep);
      assert s == [s[0]] + s[1..];
      if s[0] == sep {
        assert ([""] + rest)[1..] == rest;
      } else if |rest| > 1 {
        var parts := [[s[0]] + rest[0]] + rest[1..];
        assert parts[1..] == rest[1..];
        assert Join(rest, sep) == rest[0] + [sep] + Join(rest[1..], sep);
      }
    }
  }

  lemma {:induction false} SplitWithoutSeparator(p: string, sep: char)
    requires sep !in p
    ensures Split(p, sep) == [p]
    decreases |p|
  {
    if |p| > 0 {
      SplitWithoutSeparator(p[1..], sep);
      assert [p[0]] + p[1..] == p;
    }
  }

  lemma {:induction false} SplitAfterPiece(p: string, sep: char, t: string)
    requires sep !in p
    ensures Split(p + [sep] + t, sep) == [p] + Split(t, sep)
    decreases |p|
  {
    var s := p + [sep] + t;
    if |p| == 0 {
      assert s[1..] == t;
    } else {
      assert s[1..] == p[1..] + [sep] + t;
      SplitAfterPiece(p[1..], sep, t);
      assert [p[0]] + p[1..] == p;
    }
  }

  lemma {:induction false} SplitJoin(parts: seq<string>, sep: char)
    requires |parts| >= 1
    requires forall i :: 0 <= i < |parts| ==> sep !in parts[i]
    ensures Split(Join(parts, sep), sep) == parts
    decreases |parts|
  {
    if |parts| == 1 {
      SplitWithoutSeparator(parts[0], sep);
    } else {
      SplitJoin(parts[1..], sep);
      SplitAfterPiece(parts[0], sep, Join(parts[1..], sep));
      assert [parts[0]] + parts[1..] == parts;
    }
  }

  // ----------------------------------------------------------- whitespace

  /** The characters `Number` and `parseInt` strip: WhiteSpace and
      LineTerminator of ECMAScript (the Zs category written out). */
  predicate IsSpace(c: char)
  {
    c == ' ' || c == '\t' || c == '\n' || c == '\r' || c == '\U{000B}' || c == '\U{000C}'
    || c == '\U{00A0}' || c == '\U{1680}' || ('\U{2000}' <= c <= '\U{200A}')
    || c == '\U{2028}' || c == '\U{2029}' || c == '\U{202F}' || c == '\U{205F}'
    || c == '\U{3000}' || c == '\U{FEFF}'
  }

  /** Whitespace only: what `trim` removes. */
  predicate AllSpace(s: string)
  {
    forall i :: 0 <= i < |s| ==> IsSpace(s[i])
  }

  /** `trimStart`: drops the leading whitespace, and only that. */
  function TrimStart(s: string): (t: string)
    ensures |t| <= |s| && t == s[|s| - |t|..]
    ensures |t| > 0 ==> !IsSpace(t[0])
    ensures AllSpace(s[..|s| - |t|])
    decreases |s|
  {
    if |s| > 0 && IsSpace(s[0]) then TrimStart(s[1..]) else s
  }

  /** `trimEnd`: drops the trailing whitespace, and only that. */
  function TrimEnd(s: string): (t: string)
    ensures |t| <= |s| && t == s[..|t|]
    ensures |t| > 0 ==> !IsSpace(t[|t| - 1])
    ensures AllSpace(s[|t|..])
    decreases |s|
  {
    if |s| > 0 && IsSpace(s[|s| - 1]) then TrimEnd(s[..|s| - 1]) else s
  }

  // --------------------------------------------------------------- digits

  predicate IsDigit(c: char)
  {
    '0' <= c <= '9'
  }

  predicate AllDigits(s: string)
  {
    forall i :: 0 <= i < |s| ==> IsDigit(s[i])
  }

  function DigitChar(d: int): (c: char)
    requires 0 <= d < 10
    ensures IsDigit(c) && c as int - '0' as int == d
  {
    ('0' as int + d) as char
  }

  /** The value of a string of decimal digits (leading zeros allowed). */
  function DecimalValue(s: string): nat
    requires AllDigits(s)
    decreases |s|
  {
    if |s| == 0 then 0
    else DecimalValue(s[..|s| - 1]) * 10 + (s[|s| - 1] as int - '0' as int)
  }

  /** The decimal text of `n`, as `String(n)` writes it. */
  function DecimalString(n: nat): (s: string)
    ensures |s| >= 1 && AllDigits(s)
    ensures DecimalValue(s) == n
    ensures n > 0 ==> s[0] != '0'
    ensures n == 0 ==> s == "0"
    decreases n
  {
    if n < 10 then [DigitChar(n)]
    else
      var s := DecimalString(n / 10) + [DigitChar(n % 10)];
      assert s[..|s| - 1] == DecimalString(n / 10);
      s
  }

  /** The longest prefix of `s` made of decimal digits. */
  function DigitPrefix(s: string): (p: string)
    ensures |p| <= |s| && p == s[..|p|] && AllDigits(p)
    ensures |p| < |s| ==> !IsDigit(s[|p|])
    decreases |s|
  {
    if |s| > 0 && IsDigit(s[0]) then [s[0]] + DigitPrefix(s[1..]) else []
  }

  predicate IsHexDigit(c: char)
  {
    IsDigit(c) || 'a' <= c <= 'f' || 'A' <= c <= 'F'
  }

  predicate AllHexDigits(s: string)
  {
    forall i :: 0 <= i < |s| ==> IsHexDigit(s[i])
  }

  function HexDigitValue(c: char): (v: int)
    requires IsHexDigit(c)
    ensures 0 <= v < 16
  {
    if IsDigit(c) then c as int - '0' as int
    else if 'a' <= c <= 'f' then c as int - 'a' as int + 10
    else c as int - 'A' as int + 10
  }

  function HexValue(s: string): nat
    requires AllHexDigits(s)
    decreases |s|
  {
    if |s| == 0 then 0 else HexValue(s[..|s| - 1]) * 16 + HexDigitValue(s[|s| - 1])
  }

  /** The longest prefix of `s` made of hexadecimal digits. */
  function HexPrefix(s: string): (p: string)
    ensures |p| <= |s| && p == s[..|p|] && AllHexDigits(p)
    ensures |p| < |s| ==> !IsHexDigit(s[|p|])
    decreases |s|
  {
    if |s| > 0 && IsHexDigit(s[0]) then [s[0]] + HexPrefix(s[1..]) else []
  }

  // -------------------------------------------------------------- numbers

  /** `Number(s)` for the strings this model distinguishes: surrounding
      whitespace is ignored, the empty string is 0, decimal digits give their
      value, and anything else is NaN. */
  function ToNumber(s: string): Num
  {
    var t := TrimEnd(TrimStart(s));
    if t == [] then Int(0)
    else if AllDigits(t) then Int(DecimalValue(t))
    else NaN
  }

  /** `Number.parseInt(s)` with no radix: leading whitespace is skipped, an
      optional sign is read, a `0x`/`0X` prefix selects base 16, and the
      longest run of digits that follows gives the value; no digits is NaN. */
  function ParseInt(s: string): Num
  {
    var t := TrimStart(s);
    var negative := |t| > 0 && t[0] == '-';
    var u := if |t| > 0 && (t[0] == '-' || t[0] == '+') then t[1..] else t;
    match ParseMagnitude(u)
    case NaN => NaN
    case Int(m) => Int(if negative then -m else m)
  }

  /** The unsigned part of `parseInt`: hexadecimal after `0x`/`0X`, else
      decimal; the longest run of digits gives the value, none gives NaN. */
  function ParseMagnitude(u: string): Num
  {
    if |u| >= 2 && u[0] == '0' && (u[1] == 'x' || u[1] == 'X') then
      var h := HexPrefix(u[2..]);
      if h == [] then NaN else Int(HexValue(h))
    else
      var d := DigitPrefix(u);
      if d == [] then NaN else Int(DecimalValue(d))
  }

  lemma {:induction false} DigitPrefixOfDigits(d: string, rest: string)
    requires AllDigits(d)
    requires rest == [] || !IsDigit(rest[0])
    ensures DigitPrefix(d + rest) == d
    decreases |d|
  {
    if |d| > 0 {
      assert (d + rest)[1..] == d[1..] + rest;
      DigitPrefixOfDigits(d[1..], rest);
      assert [d[0]] + d[1..] == d;
    }
  }

  /** Reading back the decimal text of `n` with `parseInt` gives `n`, whatever
      follows it, as long as it does not continue the number. */
  lemma ParseIntOfDecimal(n: nat, rest: string)
    requires rest == [] || !IsDigit(rest[0])
    requires n == 0 ==> rest == [] || (rest[0] != 'x' && rest[0] != 'X')
    ensures ParseInt(DecimalString(n) + rest) == Int(n)
  {
    var digits := DecimalString(n);
    var s := digits + rest;
    assert s[0] == digits[0];
    if |s| >= 2 && s[0] == '0' {
      assert n == 0 && |rest| > 0 && s[1] == rest[0];
    }
    DigitPrefixOfDigits(digits, rest);
    ParseIntOfLeadingDigit(s);
  }

  /** A string starting with a digit (and not with `0x`) is read by
      `parseInt` as the value of its leading digits. */
  lemma ParseIntOfLeadingDigit(s: string)
    requires |s| > 0 && IsDigit(s[0])
    requires !(|s| >= 2 && s[0] == '0' && (s[1] == 'x' || s[1] == 'X'))
    ensures ParseInt(s) == Int(DecimalValue(DigitPrefix(s)))
  {
    TrimStartOfNonSpace(s);
    assert DigitPrefix(s) != [];
    assert ParseMagnitude(s) == Int(DecimalValue(DigitPrefix(s)));
  }

  lemma TrimStartOfNonSpace(s: string)
    requires |s| > 0 && !IsSpace(s[0])
    ensures TrimStart(s) == s
  {
  }

  /** A string that starts and ends with a digit has nothing to trim. */
  lemma TrimDigits(s: string)
    requires |s| > 0 && IsDigit(s[0]) && IsDigit(s[|s| - 1])
    ensures TrimEnd(TrimStart(s)) == s
  {
    assert !IsSpace(s[0]) && !IsSpace(s[|s| - 1]);
  }

  /** A non-empty run of digits reads with `Number` as its decimal value,
      leading zeros and all. */
  lemma ToNumberOfDigits(s: string)
    requires |s| > 0 && AllDigits(s)
    ensures ToNumber(s) == Int(DecimalValue(s))
  {
    TrimDigits(s);
  }

  /** Reading back the decimal text of `n` with `Number` gives `n`. */
  lemma ToNumberOfDecimal(n: nat)
    ensures ToNumber(DecimalString(n)) == Int(n)
  {
    ToNumberOfDigits(DecimalString(n));
  }

  /** `String(n)` for a number. */
  function NumToString(n: Num): (s: string)
    ensures |s| >= 1
  {
    match n
    case NaN => "NaN"
    case Int(v) => if v < 0 then "-" + DecimalString(-v) else DecimalString(v)
  }

  /** The JavaScript remainder `a % b` for a positive divisor: it takes the
      sign of the dividend (Dafny's `%` never goes negative). */
  function TruncRem(a: int, b: int): (r: int)
    requires b > 0
    ensures -b < r < b
    ensures a >= 0 ==> r >= 0 && r == a % b
    ensures a < 0 ==> r <= 0 && -r == (-a) % b
  {
    if a >= 0 then a % b else -((-a) % b)
  }
}
