/**
  The two ECMAScript built-ins the task store relies on, as pure functions:
  `String.prototype.trim` (the TrimString operation of ECMA-262) and
  the global `parseInt` called without a radix (section 19.2.5 of ECMA-262).
  Both strip the same set of characters: WhiteSpace and LineTerminator.
  `NaN` is `None`: it is equal to nothing.
 */
module JsBuiltins {
  import opened Wrappers

  /**
    ECMAScript WhiteSpace (TAB, VT, FF, ZWNBSP and every Zs character) or
    LineTerminator.
   */
  predicate IsWhiteSpace(c: char) {
    var n := c as int;
    n == 0x09 || n == 0x0A || n == 0x0B || n == 0x0C || n == 0x0D || n == 0x20 ||
    n == 0xA0 || n == 0x1680 || (0x2000 <= n <= 0x200A) || n == 0x2028 || n == 0x2029 ||
    n == 0x202F || n == 0x205F || n == 0x3000 || n == 0xFEFF
  }

  /** The usual blanks are white space; digits, signs and Latin letters are not. */
  lemma WhiteSpaceChars(c: char)
    ensures c == ' ' || c == '\t' || c == '\n' || c == '\r' ==> IsWhiteSpace(c)
    ensures IsWhiteSpace(c) ==> !('0' <= c <= '9') && c != '+' && c != '-' && !('a' <= c <= 'z') && !('A' <= c <= 'Z')
  {
  }

  /** Removes leading white space: what is left is a suffix of `s`. */
  function TrimStart(s: string): (r: string)
    ensures |r| <= |s| && r == s[|s| - |r|..]
    ensures forall k :: 0 <= k < |s| - |r| ==> IsWhiteSpace(s[k])
    ensures r != [] ==> !IsWhiteSpace(r[0])
  {
    if s != [] && IsWhiteSpace(s[0]) then TrimStart(s[1..]) else s
  }

  /** Removes trailing white space: what is left is a prefix of `s`. */
  function TrimEnd(s: string): (r: string)
    ensures |r| <= |s| && r == s[..|r|]
    ensures forall k :: |r| <= k < |s| ==> IsWhiteSpace(s[k])
    ensures r != [] ==> !IsWhiteSpace(r[|r| - 1])
  {
    if s != [] && IsWhiteSpace(s[|s| - 1]) then TrimEnd(s[..|s| - 1]) else s
  }

  /**
    `s.trim()`: the middle of `s` left once the white space at both ends is cut
    off; empty exactly when `s` is all white space, otherwise bounded by
    non-white characters.
   */
  function Trim(s: string): (r: string)
    ensures |r| <= |s|
    ensures |s| - |TrimStart(s)| + |r| <= |s|
    ensures r == s[|s| - |TrimStart(s)|..|s| - |TrimStart(s)| + |r|]
    ensures forall k :: 0 <= k < |s| - |TrimStart(s)| ==> IsWhiteSpace(s[k])
    ensures forall k :: |s| - |TrimStart(s)| + |r| <= k < |s| ==> IsWhiteSpace(s[k])
    ensures r != [] ==> !IsWhiteSpace(r[0]) && !IsWhiteSpace(r[|r| - 1])
    ensures r == [] <==> forall k :: 0 <= k < |s| ==> IsWhiteSpace(s[k])
  {
    var t := TrimStart(s);
    var r := TrimEnd(t);
    TrimEndOfSuffix(s, t, r);
    r
  }

  /**
    Cutting the white space off the end of `t`, a suffix of `s` after a run of
    white space, leaves a slice `r` of `s` with white space only on either side.
   */
  lemma TrimEndOfSuffix(s: string, t: string, r: string)
    requires |t| <= |s| && t == s[|s| - |t|..]
    requires forall k :: 0 <= k < |s| - |t| ==> IsWhiteSpace(s[k])
    requires t != [] ==> !IsWhiteSpace(t[0])
    requires |r| <= |t| && r == t[..|r|]
    requires forall k :: |r| <= k < |t| ==> IsWhiteSpace(t[k])
    requires r != [] ==> !IsWhiteSpace(r[|r| - 1])
    ensures r == s[|s| - |t|..|s| - |t| + |r|]
    ensures forall k :: |s| - |t| + |r| <= k < |s| ==> IsWhiteSpace(s[k])
    ensures r != [] ==> !IsWhiteSpace(r[0])
    ensures r == [] <==> forall k :: 0 <= k < |s| ==> IsWhiteSpace(s[k])
  {
    var a := |s| - |t|;
    forall k | a + |r| <= k < |s|
      ensures IsWhiteSpace(s[k])
    {
      assert s[k] == t[k - a];
    }
    if r != [] {
      assert r[0] == t[0] == s[a];
    }
  }

  /** A string with no white space at either end is its own trim. */
  lemma TrimOfTrimmed(s: string)
    requires s != [] ==> !IsWhiteSpace(s[0]) && !IsWhiteSpace(s[|s| - 1])
    ensures Trim(s) == s
  {
    assert TrimStart(s) == s;
    assert TrimEnd(s) == s;
  }

  /** Trimming twice is trimming once. */
  lemma {:induction false} TrimIdempotent(s: string)
    ensures Trim(Trim(s)) == Trim(s)
  {
    TrimOfTrimmed(Trim(s));
  }

  // ---------------------------------------------------------------- parseInt

  predicate IsDecimalDigit(c: char) {
    '0' <= c <= '9'
  }

  /** A digit of radix 16 when `hex`, of radix 10 otherwise. */
  predicate IsDigit(c: char, hex: bool) {
    IsDecimalDigit(c) || (hex && ('a' <= c <= 'f' || 'A' <= c <= 'F'))
  }

  function DigitValue(c: char): nat {
    if IsDecimalDigit(c) then c as int - '0' as int
    else if 'a' <= c <= 'f' then c as int - 'a' as int + 10
    else if 'A' <= c <= 'F' then c as int - 'A' as int + 10
    else 0
  }

  /** The longest prefix of `s` made of digits: it stops at the first non-digit. */
  function DigitPrefix(s: string, hex: bool): (r: string)
    ensures |r| <= |s| && r == s[..|r|]
    ensures forall k :: 0 <= k < |r| ==> IsDigit(r[k], hex)
    ensures |r| < |s| ==> !IsDigit(s[|r|], hex)
  {
    if s != [] && IsDigit(s[0], hex) then [s[0]] + DigitPrefix(s[1..], hex) else []
  }

  /** The mathematical value of a digit string, most significant digit first. */
  function DigitsValue(ds: string, hex: bool): nat {
    if ds == [] then 0
    else DigitsValue(ds[..|ds| - 1], hex) * (if hex then 16 else 10) + DigitValue(ds[|ds| - 1])
  }

  /**
    `parseInt(s)` with the radix left undefined: skip leading white space, take
    an optional sign, then read an unsigned number.
   */
  function ParseInt(s: string): (r: Option<int>)
    ensures TrimStart(s) == [] ==> r == None
    ensures r.Some? && r.value < 0 ==> TrimStart(s)[0] == '-'
  {
    ParseSigned(TrimStart(s))
  }

  /** An optional sign followed by an unsigned number; only `-` gives a negative value. */
  function ParseSigned(t: string): (r: Option<int>)
    ensures t == [] ==> r == None
    ensures r.Some? && r.value < 0 ==> t[0] == '-'
  {
    if t != [] && t[0] == '-' then
      match ParseUnsigned(t[1..])
      case Some(v) => Some(0 - v)
      case None => None
    else if t != [] && t[0] == '+' then ParseUnsigned(t[1..])
    else ParseUnsigned(t)
  }

  /** A `0x`/`0X` prefix switches to radix 16; the digits are read up to the first non-digit. */
  function ParseUnsigned(u: string): (r: Option<int>)
    ensures r.Some? ==> r.value >= 0
    ensures u == [] ==> r == None
  {
    if |u| >= 2 && u[0] == '0' && (u[1] == 'x' || u[1] == 'X') then ParseDigits(u[2..], true)
    else ParseDigits(u, false)
  }

  /** The value of the longest digit prefix; NaN when there are no digits at all. */
  function ParseDigits(u: string, hex: bool): (r: Option<int>)
    ensures r.None? <==> u == [] || !IsDigit(u[0], hex)
    ensures r.Some? ==> r.value >= 0
  {
    var z := DigitPrefix(u, hex);
    if z == [] then None else Some(DigitsValue(z, hex))
  }

  /** How a non-negative JavaScript number is written, as in a template string `${n}`. */
  function DecimalString(n: nat): (r: string)
    ensures r != []
    ensures forall k :: 0 <= k < |r| ==> IsDecimalDigit(r[k])
    ensures n > 0 ==> r[0] != '0'
    ensures n == 0 ==> r == "0"
  {
    if n < 10 then [('0' as int + n) as char]
    else DecimalString(n / 10) + [('0' as int + n % 10) as char]
  }

  lemma {:induction false} DigitsValueOfDecimal(n: nat)
    ensures DigitsValue(DecimalString(n), false) == n
  {
    var d := DecimalString(n);
    if n >= 10 {
      assert d[..|d| - 1] == DecimalString(n / 10);
      DigitsValueOfDecimal(n / 10);
    }
  }

  /** The digit prefix of a run of digits followed by a non-digit is that run. */
  lemma {:induction false} DigitPrefixStops(ds: string, rest: string, hex: bool)
    requires forall k :: 0 <= k < |ds| ==> IsDigit(ds[k], hex)
    requires rest == [] || !IsDigit(rest[0], hex)
    ensures DigitPrefix(ds + rest, hex) == ds
  {
    if ds != [] {
      assert (ds + rest)[1..] == ds[1..] + rest;
      DigitPrefixStops(ds[1..], rest, hex);
    }
  }

  /** The unsigned reader reads a number back from its decimal form followed by a non-digit. */
  lemma UnsignedOfDecimal(n: nat, rest: string)
    requires rest == [] || !IsDecimalDigit(rest[0])
    requires n > 0 || rest == [] || (rest[0] != 'x' && rest[0] != 'X')
    ensures ParseUnsigned(DecimalString(n) + rest) == Some(n)
  {
    var d := DecimalString(n);
    var s := d + rest;
    assert s[0] == d[0];
    assert ParseUnsigned(s) == ParseDigits(s, false) by {
      if n == 0 && |s| >= 2 {
        assert s[1] == rest[0];
      }
    }
    DigitPrefixStops(d, rest, false);
    DigitsValueOfDecimal(n);
  }

  /**
    Round trip: `parseInt` reads back the decimal form of a non-negative integer,
    whatever non-digit text follows it (`"4"`, `"4abc"`, `"4.5"` all give 4),
    unless the number is 0 and an `x` turns the prefix into a hexadecimal one.
   */
  lemma ParseIntOfDecimal(n: nat, rest: string)
    requires rest == [] || !IsDecimalDigit(rest[0])
    requires n > 0 || rest == [] || (rest[0] != 'x' && rest[0] != 'X')
    ensures ParseInt(DecimalString(n) + rest) == Some(n)
  {
    var s := DecimalString(n) + rest;
    assert s[0] == DecimalString(n)[0];
    UnsignedStart(s);
    UnsignedOfDecimal(n, rest);
  }

  /** A leading `-` negates the number read and a leading `+` keeps it. */
  lemma ParseIntSigned(n: nat, rest: string)
    requires rest == [] || !IsDecimalDigit(rest[0])
    requires n > 0 || rest == [] || (rest[0] != 'x' && rest[0] != 'X')
    ensures ParseInt("-" + DecimalString(n) + rest) == Some(0 - n)
    ensures ParseInt("+" + DecimalString(n) + rest) == Some(n)
  {
    var u := DecimalString(n) + rest;
    UnsignedOfDecimal(n, rest);
    assert "-" + DecimalString(n) + rest == ['-'] + u;
    assert "+" + DecimalString(n) + rest == ['+'] + u;
    SignedStart('-', u, n);
    SignedStart('+', u, n);
  }

  /** A sign in front of an unsigned number: `-` negates it, `+` keeps it. */
  lemma SignedStart(sign: char, u: string, v: int)
    requires sign == '-' || sign == '+'
    requires ParseUnsigned(u) == Some(v)
    ensures ParseInt([sign] + u) == Some(if sign == '-' then 0 - v else v)
  {
    var s := [sign] + u;
    assert s[0] == sign && s[1..] == u;
    assert !IsWhiteSpace(sign);
    assert TrimStart(s) == s;
    assert ParseInt(s) == ParseSigned(s);
  }

  /** After `0x`, the digits are read in radix 16: `parseInt("0x1f")` is 31. */
  lemma ParseIntHexPrefix(ds: string, rest: string)
    requires ds != [] && forall k :: 0 <= k < |ds| ==> IsDigit(ds[k], true)
    requires rest == [] || !IsDigit(rest[0], true)
    ensures ParseInt("0x" + ds + rest) == Some(DigitsValue(ds, true))
  {
    var s := "0x" + (ds + rest);
    assert "0x" + ds + rest == s;
    assert s[0] == '0';
    UnsignedStart(s);
    UnsignedHex(ds, rest);
  }

  /** The unsigned reader takes the digits after `0x` in radix 16, up to the first non-digit. */
  lemma UnsignedHex(ds: string, rest: string)
    requires ds != [] && forall k :: 0 <= k < |ds| ==> IsDigit(ds[k], true)
    requires rest == [] || !IsDigit(rest[0], true)
    ensures ParseUnsigned("0x" + (ds + rest)) == Some(DigitsValue(ds, true))
  {
    var u := "0x" + (ds + rest);
    assert u[0] == '0' && u[1] == 'x' && u[2..] == ds + rest;
    DigitPrefixStops(ds, rest, true);
  }

  /** Cutting leading white space off first changes nothing. */
  lemma {:induction false} TrimStartSkips(ws: string, s: string)
    requires forall k :: 0 <= k < |ws| ==> IsWhiteSpace(ws[k])
    ensures TrimStart(ws + s) == TrimStart(s)
  {
    if ws == [] {
      assert ws + s == s;
    } else {
      assert (ws + s)[1..] == ws[1..] + s;
      TrimStartSkips(ws[1..], s);
    }
  }

  /** Leading white space does not change what `parseInt` reads: `" 4"` gives 4. */
  lemma ParseIntSkipsWhiteSpace(ws: string, s: string)
    requires forall k :: 0 <= k < |ws| ==> IsWhiteSpace(ws[k])
    ensures ParseInt(ws + s) == ParseInt(s)
  {
    TrimStartSkips(ws, s);
  }

  /** With no white space and no sign in front, `parseInt` reads an unsigned number from the start. */
  lemma UnsignedStart(s: string)
    requires s != [] && !IsWhiteSpace(s[0]) && s[0] != '+' && s[0] != '-'
    ensures ParseInt(s) == ParseUnsigned(s)
  {
    assert TrimStart(s) == s;
  }

  /** A string that starts (after no white space) with neither a sign nor a digit is NaN. */
  lemma ParseIntNoDigits(s: string)
    requires s != [] && !IsWhiteSpace(s[0])
    requires s[0] != '+' && s[0] != '-' && !IsDecimalDigit(s[0])
    ensures ParseInt(s) == None
  {
    UnsignedStart(s);
  }
}
