/** The global `parseInt(string)` of ECMAScript (section 19.2.5 of
    ECMA-262), called without a radix as index.js does: leading white space
    is skipped, one sign is taken, a `0x`/`0X` prefix selects base 16, and the
    longest run of digits of the base is read. No digits gives NaN, here
    `None`. */
module JsNumbers {
  import opened Wrappers

  /** StrWhiteSpaceChar: WhiteSpace and LineTerminator code points. */
  predicate IsStrWhiteSpace(c: char)
  {
    c == '\t' || c == '\n' || c == '\U{B}' || c == '\U{C}' || c == '\r' ||
    c == ' ' || c == '\U{A0}' || c == '\U{1680}' || '\U{2000}' <= c <= '\U{200A}' ||
    c == '\U{2028}' || c == '\U{2029}' || c == '\U{202F}' || c == '\U{205F}' ||
    c == '\U{3000}' || c == '\U{FEFF}'
  }

  predicate IsDecimalDigit(c: char)
  {
    '0' <= c <= '9'
  }

  /** The value of `c` as a digit of base 36; 36 when it is none. */
  function DigitValue(c: char): (v: nat)
    ensures v <= 36
    ensures v < 10 <==> IsDecimalDigit(c)
  {
    if '0' <= c <= '9' then c as int - '0' as int
    else if 'a' <= c <= 'z' then c as int - 'a' as int + 10
    else if 'A' <= c <= 'Z' then c as int - 'A' as int + 10
    else 36
  }

  predicate IsDigitOf(c: char, radix: nat)
  {
    DigitValue(c) < radix
  }

  /** The string with its leading white space removed. */
  function TrimStart(s: string): (r: string)
    ensures |r| <= |s| && r == s[|s| - |r|..]
    ensures forall k :: 0 <= k < |s| - |r| ==> IsStrWhiteSpace(s[k])
    ensures r == [] || !IsStrWhiteSpace(r[0])
  {
    if s != [] && IsStrWhiteSpace(s[0]) then TrimStart(s[1..]) else s
  }

  /** The longest prefix of `s` made of digits of `radix`. */
  function DigitPrefix(s: string, radix: nat): (r: string)
    ensures |r| <= |s| && r == s[..|r|]
    ensures forall k :: 0 <= k < |r| ==> IsDigitOf(r[k], radix)
    ensures |r| < |s| ==> !IsDigitOf(s[|r|], radix)
  {
    if s != [] && IsDigitOf(s[0], radix) then [s[0]] + DigitPrefix(s[1..], radix) else []
  }

  /** The number a run of digits denotes, most significant digit first. */
  function DigitsValue(ds: string, radix: nat): (v: nat)
  {
    if ds == [] then 0
    else DigitsValue(ds[..|ds| - 1], radix) * radix + DigitValue(ds[|ds| - 1])
  }

  predicate HasHexPrefix(s: string)
  {
    |s| >= 2 && s[0] == '0' && (s[1] == 'x' || s[1] == 'X')
  }

  /** Whether the first decimal or hexadecimal digit is there: a digit of
      base 16 right after a `0x`/`0X` prefix, otherwise a decimal digit at
      the start. */
  predicate LeadsWithDigit(u: string)
  {
    if HasHexPrefix(u) then |u| > 2 && IsDigitOf(u[2], 16)
    else u != [] && IsDecimalDigit(u[0])
  }

  /** The digits after the sign: base 16 behind a `0x`/`0X` prefix, base 10
      otherwise; `None` when no digit of that base follows. */
  function ParseUnsigned(u: string): (r: Option<nat>)
    ensures r.None? <==> !LeadsWithDigit(u)
  {
    var radix := if HasHexPrefix(u) then 16 else 10;
    var digits := DigitPrefix(if radix == 16 then u[2..] else u, radix);
    if digits == [] then None else Some(DigitsValue(digits, radix))
  }

  /** The text after one optional sign. */
  function StripSign(t: string): (u: string)
    ensures t != [] && (t[0] == '-' || t[0] == '+') ==> u == t[1..]
    ensures t == [] || (t[0] != '-' && t[0] != '+') ==> u == t
  {
    if t != [] && (t[0] == '-' || t[0] == '+') then t[1..] else t
  }

  /** parseInt on a string that starts with no white space: an optional
      sign, then the unsigned part. */
  function ParseSigned(t: string): (r: Option<int>)
    ensures r.None? <==> !LeadsWithDigit(StripSign(t))
  {
    if t != [] && (t[0] == '-' || t[0] == '+') then
      match ParseUnsigned(t[1..])
      case None => None
      case Some(v) => if t[0] == '-' then Some(-(v as int)) else Some(v)
    else
      match ParseUnsigned(t)
      case None => None
      case Some(v) => Some(v)
  }

  /** NaN exactly when no digit follows the white space and the optional
      sign. */
  function ParseInt(s: string): (r: Option<int>)
    ensures r.None? <==> !LeadsWithDigit(StripSign(TrimStart(s)))
  {
    ParseSigned(TrimStart(s))
  }

  /** Text without any decimal digit is NaN: neither a decimal digit nor
      the `0` of a hexadecimal prefix can lead it. */
  lemma NoDigitsIsNaN(s: string)
    requires forall k :: 0 <= k < |s| ==> !IsDecimalDigit(s[k])
    ensures ParseInt(s) == None
  {
  }

  /** The decimal numeral of `n`, as a client writes an id into a URL. */
  function Decimal(n: nat): (s: string)
    ensures s != [] && forall k :: 0 <= k < |s| ==> IsDecimalDigit(s[k])
    ensures s[0] == '0' ==> n == 0 && s == "0"
  {
    var d := ['0' + (n % 10) as char];
    if n < 10 then d else Decimal(n / 10) + d
  }

  lemma {:induction false} DecimalValue(n: nat)
    ensures DigitsValue(Decimal(n), 10) == n
  {
    if n >= 10 {
      var s := Decimal(n);
      assert s[..|s| - 1] == Decimal(n / 10);
      DecimalValue(n / 10);
    }
  }

  lemma {:induction false} DigitPrefixOfDigits(ds: string, rest: string, radix: nat)
    requires forall k :: 0 <= k < |ds| ==> IsDigitOf(ds[k], radix)
    requires rest == [] || !IsDigitOf(rest[0], radix)
    ensures DigitPrefix(ds + rest, radix) == ds
  {
    if ds != [] {
      assert (ds + rest)[1..] == ds[1..] + rest;
      DigitPrefixOfDigits(ds[1..], rest, radix);
    }
  }

  /** A stop character that ends the digits of a decimal numeral and cannot
      turn a leading "0" into the hexadecimal prefix. */
  predicate EndsDecimal(rest: string)
  {
    rest == [] || (!IsDecimalDigit(rest[0]) && rest[0] != 'x' && rest[0] != 'X')
  }

  /** A run of decimal digits that is not a `0x` prefix, followed by
      anything that cannot continue it, reads as the value of that run;
      leading zeros are allowed. */
  lemma {:induction false} ParseUnsignedDigits(ds: string, rest: string)
    requires ds != [] && forall k :: 0 <= k < |ds| ==> IsDecimalDigit(ds[k])
    requires rest == [] || !IsDecimalDigit(rest[0])
    requires !HasHexPrefix(ds + rest)
    ensures ParseUnsigned(ds + rest) == Some(DigitsValue(ds, 10))
  {
    DigitPrefixOfDigits(ds, rest, 10);
  }

  /** Behind a `0x`/`0X` prefix, a run of hexadecimal digits followed by
      anything that cannot continue it reads as its base-16 value. */
  lemma {:induction false} ParseUnsignedHex(x: char, ds: string, rest: string)
    requires x == 'x' || x == 'X'
    requires ds != [] && forall k :: 0 <= k < |ds| ==> IsDigitOf(ds[k], 16)
    requires rest == [] || !IsDigitOf(rest[0], 16)
    ensures ParseUnsigned(['0', x] + ds + rest) == Some(DigitsValue(ds, 16))
  {
    var u := ['0', x] + ds + rest;
    assert HasHexPrefix(u) && u[2..] == ds + rest;
    DigitPrefixOfDigits(ds, rest, 16);
  }

  /** Without white space or sign, the text reads as the unsigned part. */
  lemma {:induction false} ParseIntUnsigned(u: string, v: nat)
    requires u != [] && IsDecimalDigit(u[0])
    requires ParseUnsigned(u) == Some(v)
    ensures ParseInt(u) == Some(v)
  {
  }

  /** After a sign '-' or '+', the text reads as the unsigned part, negated
      for '-'. */
  lemma {:induction false} ParseIntAfterSign(sign: char, u: string, v: nat)
    requires sign == '-' || sign == '+'
    requires ParseUnsigned(u) == Some(v)
    ensures ParseInt([sign] + u) == Some(if sign == '-' then -(v as int) else v)
  {
    var s := [sign] + u;
    assert s[0] == sign && s[1..] == u;
    assert !IsStrWhiteSpace(sign);
    assert TrimStart(s) == s;
  }

  /** Any run of decimal digits, leading zeros included, followed by
      anything that cannot continue it parses to its value. */
  lemma {:induction false} ParseDigits(ds: string, rest: string)
    requires ds != [] && forall k :: 0 <= k < |ds| ==> IsDecimalDigit(ds[k])
    requires EndsDecimal(rest)
    ensures ParseInt(ds + rest) == Some(DigitsValue(ds, 10))
  {
    NotHexPrefix(ds, rest);
    ParseUnsignedDigits(ds, rest);
    ParseIntUnsigned(ds + rest, DigitsValue(ds, 10));
  }

  lemma NotHexPrefix(ds: string, rest: string)
    requires ds != [] && forall k :: 0 <= k < |ds| ==> IsDecimalDigit(ds[k])
    requires EndsDecimal(rest)
    ensures !HasHexPrefix(ds + rest)
  {
  }

  /** The decimal numeral of `n` followed by anything that ends it parses
      back to `n`. */
  lemma {:induction false} ParseDecimal(n: nat, rest: string)
    requires EndsDecimal(rest)
    ensures ParseInt(Decimal(n) + rest) == Some(n)
  {
    ParseDigits(Decimal(n), rest);
    DecimalValue(n);
  }

  /** The unsigned part of a decimal numeral followed by anything that
      ends it is the number. */
  lemma {:induction false} ParseUnsignedDecimal(n: nat, rest: string)
    requires EndsDecimal(rest)
    ensures ParseUnsigned(Decimal(n) + rest) == Some(n)
  {
    NotHexPrefix(Decimal(n), rest);
    ParseUnsignedDigits(Decimal(n), rest);
    DecimalValue(n);
  }

  /** With a leading minus sign, the same numeral parses to `-n`. */
  lemma {:induction false} ParseNegativeDecimal(n: nat, rest: string)
    requires EndsDecimal(rest)
    ensures ParseInt("-" + Decimal(n) + rest) == Some(-(n as int))
  {
    var s := "-" + Decimal(n) + rest;
    assert s[0] == '-' && s[1..] == Decimal(n) + rest;
    ParseUnsignedDecimal(n, rest);
    assert ParseSigned(s) == Some(-(n as int));
    assert !IsStrWhiteSpace(s[0]);
    assert TrimStart(s) == s;
  }

  /** Leading white space does not change the result. */
  lemma ParseSkipsWhiteSpace(c: char, s: string)
    requires IsStrWhiteSpace(c)
    ensures ParseInt([c] + s) == ParseInt(s)
  {
  }

  /** Without the `0x` prefix rule "0x10" would read as 0; parseInt reads
      16, and a bare "0x" is NaN. */
  lemma HexPrefixExample()
    ensures ParseInt("0x10") == Some(16)
    ensures ParseInt("0x") == None
  {
    var s := "0x10";
    assert HasHexPrefix(s) && s[2..] == "10";
    DigitPrefixOfDigits("10", [], 16);
    assert DigitsValue("10", 16) == 16 by {
      assert "10"[..1] == "1";
      assert "1"[..0] == [];
    }
    assert ParseUnsigned(s) == Some(16);
    assert ParseSigned(s) == Some(16);
    assert !IsStrWhiteSpace(s[0]);
    assert TrimStart(s) == s;
    var z := "0x";
    assert HasHexPrefix(z) && z[2..] == [];
    assert ParseSigned(z) == None;
    assert !IsStrWhiteSpace(z[0]);
    assert TrimStart(z) == z;
  }

  /** NaN whenever no digit leads after the white space and the sign, even
      if digits come later. */
  lemma NaNExamples()
    ensures ParseInt("a2") == None
    ensures ParseInt("- 5") == None
    ensures ParseInt("0xg") == None
  {
    assert !IsStrWhiteSpace('a') && !IsStrWhiteSpace('-') && !IsStrWhiteSpace('0');
    assert TrimStart("a2") == "a2";
    assert TrimStart("- 5") == "- 5";
    assert StripSign("- 5") == " 5";
    assert TrimStart("0xg") == "0xg";
  }

  lemma {:induction false} LeadingZeroValue(ds: string, radix: nat)
    ensures DigitsValue(['0'] + ds, radix) == DigitsValue(ds, radix)
  {
    if ds != [] {
      var zs := ['0'] + ds;
      assert zs[..|zs| - 1] == ['0'] + ds[..|ds| - 1];
      assert zs[|zs| - 1] == ds[|ds| - 1];
      LeadingZeroValue(ds[..|ds| - 1], radix);
    } else {
      assert (['0'] + ds)[..0] == [];
    }
  }

  /** One leading zero does not change the value: "02" is 2. */
  lemma {:induction false} OneLeadingZero(ds: string, rest: string)
    requires ds != [] && forall k :: 0 <= k < |ds| ==> IsDecimalDigit(ds[k])
    requires EndsDecimal(rest)
    ensures ParseInt(['0'] + ds + rest) == ParseInt(ds + rest) == Some(DigitsValue(ds, 10))
  {
    var zs := ['0'] + ds;
    assert forall k :: 0 <= k < |zs| ==> IsDecimalDigit(zs[k]) by {
      forall k | 0 <= k < |zs| ensures IsDecimalDigit(zs[k]) {
        if k > 0 {
          assert zs[k] == ds[k - 1];
        }
      }
    }
    ParseDigits(zs, rest);
    ParseDigits(ds, rest);
    LeadingZeroValue(ds, 10);
  }
}
