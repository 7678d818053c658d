/** The few ECMAScript Number behaviours the plugin relies on: the value of a
    depth setting, `Number.isFinite`, `Number.parseInt(value, 10)` (section
    19.2.5 of ECMA-262) and `String(n)` for a non-negative integer. */
module JsNumber {

  /** A JavaScript value held in the depth setting. Finite integers are kept
      exactly; NaN, +Infinity, -Infinity and values that are not numbers at all
      are the ones `Number.isFinite` rejects, and are folded into NonFinite. */
  datatype Number = Int(value: int) | NonFinite

  predicate IsFinite(n: Number) { n.Int? }

  /** The smallest integer whose conversion to the nearest double is +Infinity: halfway between the
      largest finite double (2^1024 - 2^971) and 2^1024, which ties-to-even
      sends up. Equal to 2^1024 - 2^970. */
  const OverflowBound: nat := 0xFFFFFFFFFFFFFC00_0000000000000000_0000000000000000_0000000000000000_0000000000000000_0000000000000000_0000000000000000_0000000000000000_0000000000000000_0000000000000000_0000000000000000_0000000000000000_0000000000000000_0000000000000000_0000000000000000_0000000000000000

  /** StrWhiteSpaceChar of ECMA-262: WhiteSpace (tab, vertical tab, form feed,
      the byte order mark and every space separator of category Zs) and
      LineTerminator (line feed, carriage return, U+2028, U+2029). */
  predicate IsStrWhiteSpace(c: char)
  {
    c == '\t' || c == '\U{000B}' || c == '\U{000C}' || c == '\U{FEFF}' ||
    c == ' ' || c == '\U{00A0}' || c == '\U{1680}' ||
    ('\U{2000}' <= c <= '\U{200A}') || c == '\U{202F}' || c == '\U{205F}' || c == '\U{3000}' ||
    c == '\n' || c == '\r' || c == '\U{2028}' || c == '\U{2029}'
  }

  predicate IsDecimalDigit(c: char) { '0' <= c <= '9' }

  function DigitValue(c: char): (d: nat)
    requires IsDecimalDigit(c)
    ensures d < 10
  {
    (c - '0') as nat
  }

  function DigitChar(d: nat): (c: char)
    requires d < 10
    ensures IsDecimalDigit(c) && DigitValue(c) == d
  {
    ('0' as int + d) as char
  }

  predicate AllDigits(s: string)
  {
    forall i :: 0 <= i < |s| ==> IsDecimalDigit(s[i])
  }

  /** TrimString(s, start): drops the leading white space and nothing else. */
  function TrimStart(s: string): (r: string)
    ensures |r| <= |s| && r == s[|s| - |r|..]
    ensures r == [] || !IsStrWhiteSpace(r[0])
    ensures forall i :: 0 <= i < |s| - |r| ==> IsStrWhiteSpace(s[i])
  {
    if s != [] && IsStrWhiteSpace(s[0]) then TrimStart(s[1..]) else s
  }

  /** The longest prefix made of radix-10 digits (the Z of step 11). */
  function DecimalPrefix(s: string): (r: string)
    ensures |r| <= |s| && r == s[..|r|]
    ensures AllDigits(r)
    ensures |r| == |s| || !IsDecimalDigit(s[|r|])
  {
    if s != [] && IsDecimalDigit(s[0]) then [s[0]] + DecimalPrefix(s[1..]) else []
  }

  /** The mathematical value of a string of decimal digits, most significant first. */
  function DigitsValue(ds: string): nat
    requires AllDigits(ds)
  {
    if ds == [] then 0 else 10 * DigitsValue(ds[..|ds| - 1]) + DigitValue(ds[|ds| - 1])
  }

  /** The text after one leading '+' or '-', if there is one. */
  function Unsigned(t: string): string
  {
    if t != [] && (t[0] == '+' || t[0] == '-') then t[1..] else t
  }

  /** Steps 11 to 16 of parseInt once the sign is known: the digit run `z`
      read as a number, NaN when it is empty and an infinity when it is too
      large for a double. */
  function ReadDigits(negative: bool, z: string): Number
    requires AllDigits(z)
  {
    if z == [] then NonFinite
    else if DigitsValue(z) >= OverflowBound then NonFinite
    else Int(if negative then -(DigitsValue(z) as int) else DigitsValue(z))
  }

  /** Number.parseInt(s, 10): skip leading white space, take an optional sign,
      read the longest run of decimal digits; no digits gives NaN, and a value
      too large for a double gives an infinity. With radix 10 no "0x" prefix is
      recognised, so "0x1A" reads as 0. */
  function ParseInt(s: string): (r: Number)
    ensures r.Int? ==> -(OverflowBound as int) < r.value < OverflowBound
  {
    var t := TrimStart(s);
    ReadDigits(t != [] && t[0] == '-', DecimalPrefix(Unsigned(t)))
  }

  /** The decimal digits of an integer below 10^21, with no leading zero.
      This is String(n) for n up to 2^53; above that, Number::toString may
      write fewer significant digits followed by zeros. */
  function DecimalText(n: nat): (s: string)
    requires n < 1_000_000_000_000_000_000_000
    ensures s != [] && AllDigits(s)
    ensures s[0] == '0' ==> n == 0 && |s| == 1
  {
    if n < 10 then [DigitChar(n)] else DecimalText(n / 10) + [DigitChar(n % 10)]
  }

  /** Reading back what String(n) wrote gives n. */
  lemma {:induction false} DecimalTextValue(n: nat)
    requires n < 1_000_000_000_000_000_000_000
    ensures DigitsValue(DecimalText(n)) == n
  {
    if n >= 10 {
      DecimalTextValue(n / 10);
      var s := DecimalText(n);
      assert s[..|s| - 1] == DecimalText(n / 10);
    }
  }

  /** The digit run of a digit string followed by a non-digit is that digit string. */
  lemma {:induction false} DecimalPrefixOfDigits(ds: string, rest: string)
    requires AllDigits(ds)
    requires rest == [] || !IsDecimalDigit(rest[0])
    ensures DecimalPrefix(ds + rest) == ds
  {
    if ds != [] {
      assert (ds + rest)[1..] == ds[1..] + rest;
      DecimalPrefixOfDigits(ds[1..], rest);
    }
  }

  /** Text that starts with a digit is read without trimming or sign. */
  lemma ParseIntUnsignedStart(s: string)
    requires s != [] && IsDecimalDigit(s[0])
    ensures ParseInt(s) == ReadDigits(false, DecimalPrefix(s))
  {
    assert !IsStrWhiteSpace(s[0]);
    assert TrimStart(s) == s;
  }

  /** Text that starts with a sign is read from after the sign. */
  lemma ParseIntSignStart(s: string)
    requires s != [] && (s[0] == '+' || s[0] == '-')
    ensures ParseInt(s) == ReadDigits(s[0] == '-', DecimalPrefix(s[1..]))
  {
    assert !IsStrWhiteSpace(s[0]);
    assert TrimStart(s) == s;
  }

  /** parseInt of digits followed by anything that is not a digit reads the
      digits, or gives Infinity when they spell a number too large for a double. */
  lemma ParseIntDigits(ds: string, rest: string)
    requires ds != [] && AllDigits(ds)
    requires rest == [] || !IsDecimalDigit(rest[0])
    ensures ParseInt(ds + rest) == ReadDigits(false, ds)
    ensures DigitsValue(ds) < OverflowBound ==> ParseInt(ds + rest) == Int(DigitsValue(ds))
    ensures DigitsValue(ds) >= OverflowBound ==> ParseInt(ds + rest) == NonFinite
  {
    assert (ds + rest)[0] == ds[0];
    ParseIntUnsignedStart(ds + rest);
    DecimalPrefixOfDigits(ds, rest);
  }

  /** Leading white space is skipped entirely. */
  lemma {:induction false} TrimStartWhiteSpace(w: string, x: string)
    requires forall i :: 0 <= i < |w| ==> IsStrWhiteSpace(w[i])
    requires x == [] || !IsStrWhiteSpace(x[0])
    ensures TrimStart(w + x) == x
  {
    if w != [] {
      assert (w + x)[0] == w[0] && (w + x)[1..] == w[1..] + x;
      TrimStartWhiteSpace(w[1..], x);
    } else {
      assert w + x == x;
    }
  }

  /** parseInt skips leading white space entirely. */
  lemma ParseIntSkipsWhiteSpace(w: string, x: string)
    requires forall i :: 0 <= i < |w| ==> IsStrWhiteSpace(w[i])
    requires x == [] || !IsStrWhiteSpace(x[0])
    ensures ParseInt(w + x) == ParseInt(x)
  {
    TrimStartWhiteSpace(w, x);
    assert TrimStart(x) == x;
  }

  /** parseInt of a sign, digits and then a non-digit reads the digits
      with that sign. */
  lemma ParseIntSignRead(sign: char, ds: string, rest: string)
    requires sign == '+' || sign == '-'
    requires ds != [] && AllDigits(ds)
    requires rest == [] || !IsDecimalDigit(rest[0])
    ensures ParseInt([sign] + ds + rest) == ReadDigits(sign == '-', ds)
  {
    var x := [sign] + ds + rest;
    assert x[0] == sign && x[1..] == ds + rest;
    ParseIntSignStart(x);
    DecimalPrefixOfDigits(ds, rest);
  }

  /** A '+' before the digits changes nothing; a '-' negates the value read. */
  lemma ParseIntSign(sign: char, ds: string, rest: string)
    requires sign == '+' || sign == '-'
    requires ds != [] && AllDigits(ds)
    requires rest == [] || !IsDecimalDigit(rest[0])
    ensures DigitsValue(ds) >= OverflowBound ==> ParseInt([sign] + ds + rest) == NonFinite
    ensures DigitsValue(ds) < OverflowBound ==>
      ParseInt([sign] + ds + rest) == Int(if sign == '-' then -(DigitsValue(ds) as int) else DigitsValue(ds))
  {
    ParseIntSignRead(sign, ds, rest);
    if DigitsValue(ds) >= OverflowBound {
      assert ReadDigits(sign == '-', ds) == NonFinite;
    }
  }

  /** An optional sign then digits, with no leading white space. */
  lemma ParseIntSignedStart(sign: string, ds: string, rest: string)
    requires sign == "" || sign == "+" || sign == "-"
    requires ds != [] && AllDigits(ds)
    requires rest == [] || !IsDecimalDigit(rest[0])
    ensures !IsStrWhiteSpace((sign + ds + rest)[0])
    ensures ParseInt(sign + ds + rest) ==
      if DigitsValue(ds) >= OverflowBound then NonFinite
      else Int(if sign == "-" then -(DigitsValue(ds) as int) else DigitsValue(ds))
  {
    if sign == "" {
      assert sign + ds + rest == ds + rest;
      assert !IsStrWhiteSpace((ds + rest)[0]) by {
        assert (ds + rest)[0] == ds[0];
      }
      ParseIntDigits(ds, rest);
    } else {
      assert sign == [sign[0]];
      assert !IsStrWhiteSpace(([sign[0]] + ds + rest)[0]) by {
        assert ([sign[0]] + ds + rest)[0] == sign[0];
      }
      ParseIntSignRead(sign[0], ds, rest);
      ParseIntSign(sign[0], ds, rest);
    }
  }

  /** White space, then an optional sign, then digits: the white space is
      skipped, '+' changes nothing and '-' negates the value read, and a
      value at or above 2^1024 - 2^970 reads as an infinity. */
  lemma ParseIntSigned(w: string, sign: string, ds: string, rest: string)
    requires forall i :: 0 <= i < |w| ==> IsStrWhiteSpace(w[i])
    requires sign == "" || sign == "+" || sign == "-"
    requires ds != [] && AllDigits(ds)
    requires rest == [] || !IsDecimalDigit(rest[0])
    ensures ParseInt(w + sign + ds + rest) ==
      if DigitsValue(ds) >= OverflowBound then NonFinite
      else Int(if sign == "-" then -(DigitsValue(ds) as int) else DigitsValue(ds))
  {
    var x := sign + ds + rest;
    assert w + sign + ds + rest == w + x by {
      assert w + sign + ds == w + (sign + ds);
    }
    assert ParseInt(w + x) == ParseInt(x) by {
      ParseIntSignedStart(sign, ds, rest);
      ParseIntSkipsWhiteSpace(w, x);
    }
    assert ParseInt(x) ==
      if DigitsValue(ds) >= OverflowBound then NonFinite
      else Int(if sign == "-" then -(DigitsValue(ds) as int) else DigitsValue(ds))
    by {
      ParseIntSignedStart(sign, ds, rest);
    }
  }

  /** parseInt(String(n), 10) == n: the settings field shows the depth it will read back. */
  lemma ParseIntDecimalText(n: nat)
    requires n < 1_000_000_000_000_000_000_000
    ensures ParseInt(DecimalText(n)) == Int(n)
  {
    DecimalTextValue(n);
    assert DecimalText(n) + [] == DecimalText(n);
    ParseIntDigits(DecimalText(n), []);
  }

  /** Input whose first character after white space and sign is not a digit is NaN. */
  lemma ParseIntNoDigits(s: string)
    requires var u := Unsigned(TrimStart(s));
             u == [] || !IsDecimalDigit(u[0])
    ensures ParseInt(s) == NonFinite
  {
  }

  /** Only a '-' after the white space gives a negative number. */
  lemma ParseIntNegativeHasMinus(s: string)
    ensures ParseInt(s).Int? && ParseInt(s).value < 0 ==> TrimStart(s) != [] && TrimStart(s)[0] == '-'
  {
  }

  /** A leading minus sign never gives a positive result. */
  lemma ParseIntNegative(s: string)
    requires TrimStart(s) != [] && TrimStart(s)[0] == '-'
    ensures ParseInt(s).Int? ==> ParseInt(s).value <= 0
  {
  }
}
