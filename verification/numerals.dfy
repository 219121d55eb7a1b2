/** Decimal integers as text: Python's `str(n)` for an `int`, and `int(s)`
    for a string in the plain decimal form. */
module Numerals {
  import opened Wrappers
  import opened Text

  function DigitChar(d: nat): (c: char)
    requires d < 10
    ensures IsDigit(c)
  {
    ('0' as int + d) as char
  }

  function DigitValue(c: char): (d: nat)
    requires IsDigit(c)
    ensures d < 10 && DigitChar(d) == c
  {
    c as int - '0' as int
  }

  /** The value of a run of decimal digits, most significant first. */
  function DigitsValue(s: string): nat
    requires AllDigits(s)
  {
    if s == [] then 0 else 10 * DigitsValue(s[..|s| - 1]) + DigitValue(s[|s| - 1])
  }

  /** The shortest decimal spelling of `n`: no leading zero unless `n` is 0. */
  function NatDigits(n: nat): (s: string)
    ensures s != [] && AllDigits(s)
    ensures s[0] == '0' ==> n == 0
  {
    if n < 10 then [DigitChar(n)]
    else NatDigits(n / 10) + [DigitChar(n % 10)]
  }

  lemma {:induction false} NatDigitsValue(n: nat)
    ensures DigitsValue(NatDigits(n)) == n
  {
    if n >= 10 {
      var s := NatDigits(n);
      assert s[..|s| - 1] == NatDigits(n / 10);
      NatDigitsValue(n / 10);
    }
  }

  /** `str(n)`: a minus sign for negative numbers, then the digits. */
  function IntToString(n: int): (s: string)
    ensures s != [] && IsStripped(s)
    ensures s[0] == '-' <==> n < 0
    ensures n >= 0 ==> AllDigits(s)
  {
    if n < 0 then "-" + NatDigits(-n) else NatDigits(n)
  }

  /** The whitespace `int()` skips around the digits: space, \t \n \v \f
      and \r. The separator controls \x1c-\x1f, which `str.isspace` and
      `strip()` count as whitespace, are not skipped. */
  predicate IsIntSpace(c: char) {
    c == ' ' || c == '\t' || c == '\n' || c == '\r' || c == '\U{0B}' || c == '\U{0C}'
  }

  function IntTrimLeft(s: string): string {
    if s != [] && IsIntSpace(s[0]) then IntTrimLeft(s[1..]) else s
  }

  function IntTrimRight(s: string): string {
    if s != [] && IsIntSpace(s[|s| - 1]) then IntTrimRight(s[..|s| - 1]) else s
  }

  /** The text `int()` reads: `s` without the whitespace `int()` skips at
      either end. */
  function IntStrip(s: string): string {
    IntTrimRight(IntTrimLeft(s))
  }

  /** Nothing `int()` skips at either end. */
  predicate IsIntStripped(s: string) {
    s == [] || (!IsIntSpace(s[0]) && !IsIntSpace(s[|s| - 1]))
  }

  /** `IntTrimLeft` keeps a suffix that starts with a non-space, and what
      it drops is whitespace. */
  lemma {:induction false} IntTrimLeftSpec(s: string)
    ensures |IntTrimLeft(s)| <= |s| && IntTrimLeft(s) == s[|s| - |IntTrimLeft(s)|..]
    ensures IntTrimLeft(s) == [] || !IsIntSpace(IntTrimLeft(s)[0])
    ensures forall i :: 0 <= i < |s| - |IntTrimLeft(s)| ==> IsIntSpace(s[i])
  {
    if s != [] && IsIntSpace(s[0]) {
      IntTrimLeftSpec(s[1..]);
      DropDrop(s, 1, |s| - 1 - |IntTrimLeft(s[1..])|);
    }
  }

  /** `IntTrimRight` keeps a prefix that ends with a non-space, and what it
      drops is whitespace. */
  lemma {:induction false} IntTrimRightSpec(s: string)
    ensures |IntTrimRight(s)| <= |s| && IntTrimRight(s) == s[..|IntTrimRight(s)|]
    ensures IntTrimRight(s) == [] || !IsIntSpace(IntTrimRight(s)[|IntTrimRight(s)| - 1])
    ensures forall i :: |IntTrimRight(s)| <= i < |s| ==> IsIntSpace(s[i])
  {
    if s != [] && IsIntSpace(s[|s| - 1]) {
      IntTrimRightSpec(s[..|s| - 1]);
    }
  }

  /** `IntStrip` removes skippable whitespace, and only that, from each end. */
  lemma IntStripSpec(s: string)
    ensures IsIntStripped(IntStrip(s))
    ensures exists i, j :: 0 <= i <= j <= |s| && IntStrip(s) == s[i..j]
                           && (forall k :: 0 <= k < i ==> IsIntSpace(s[k]))
                           && (forall k :: j <= k < |s| ==> IsIntSpace(s[k]))
  {
    var t := IntTrimLeft(s);
    var r := IntTrimRight(t);
    IntTrimLeftSpec(s);
    IntTrimRightSpec(t);
    var i := |s| - |t|;
    var j := i + |r|;
    assert r == s[i..j];
    assert forall k :: j <= k < |s| ==> s[k] == t[k - i];
    if r != [] {
      assert r[0] == t[0];
    }
  }

  lemma IntStripOfStripped(s: string)
    requires IsIntStripped(s)
    ensures IntStrip(s) == s
  {
  }

  /** The text `int()` accepts once the surrounding whitespace is gone: an
      optional `+` or `-` and at least one digit. */
  predicate IsIntText(t: string) {
    || (t != [] && AllDigits(t))
    || (|t| >= 2 && (t[0] == '-' || t[0] == '+') && AllDigits(t[1..]))
  }

  /** `int(s)` on text: `None` where Python raises `ValueError`. */
  function ParseInt(s: string): (r: Option<int>)
    ensures r.Some? <==> IsIntText(IntStrip(s))
    ensures r.Some? && r.value < 0 ==> IntStrip(s)[0] == '-'
    ensures r.Some? && r.value > 0 ==> IntStrip(s)[0] != '-'
  {
    var t := IntStrip(s);
    if |t| >= 2 && t[0] == '-' && AllDigits(t[1..]) then Some(-(DigitsValue(t[1..]) as int))
    else if |t| >= 2 && t[0] == '+' && AllDigits(t[1..]) then Some(DigitsValue(t[1..]))
    else if t != [] && AllDigits(t) then Some(DigitsValue(t))
    else None
  }

  /** `int(str(n)) == n`. */
  lemma IntToStringRoundTrip(n: int)
    ensures ParseInt(IntToString(n)) == Some(n)
  {
    var s := IntToString(n);
    IntStripOfStripped(s);
    if n < 0 {
      assert s[1..] == NatDigits(-n);
      NatDigitsValue(-n);
    } else {
      NatDigitsValue(n);
    }
  }

  /** Digits spelled shortest are the spelling `str` gives. */
  lemma {:induction false} CanonicalDigits(s: string)
    requires s != [] && AllDigits(s) && (s[0] == '0' ==> |s| == 1)
    ensures NatDigits(DigitsValue(s)) == s
    decreases |s|
  {
    if |s| > 1 {
      var p := s[..|s| - 1];
      var d := DigitValue(s[|s| - 1]);
      assert p[0] == s[0];
      CanonicalDigits(p);
      assert DigitsValue(p) > 0;
      var n := DigitsValue(s);
      assert n == 10 * DigitsValue(p) + d;
      assert n / 10 == DigitsValue(p) && n % 10 == d;
      assert s == p + [s[|s| - 1]];
    }
  }

  /** The spelling `str` writes: digits without a leading zero (other
      than "0" itself), preceded by `-` for a negative number. */
  predicate IsCanonicalInt(t: string) {
    || (t != [] && AllDigits(t) && (t[0] == '0' ==> |t| == 1))
    || (|t| >= 2 && t[0] == '-' && AllDigits(t[1..]) && t[1] != '0')
  }

  lemma IntToStringCanonical(n: int)
    ensures IsCanonicalInt(IntToString(n))
  {
    if n < 0 {
      assert IntToString(n)[1..] == NatDigits(-n);
    }
  }

  /** `str(int(t)) == t` for text already in the form `str` writes. */
  lemma CanonicalIntRoundTrip(t: string)
    requires IsCanonicalInt(t)
    ensures ParseInt(t).Some? && IntToString(ParseInt(t).value) == t
  {
    IntStripOfStripped(t);
    if t[0] == '-' {
      var u := t[1..];
      CanonicalDigits(u);
      assert t == "-" + u;
    } else {
      CanonicalDigits(t);
    }
  }

  /** `int()` ignores surrounding whitespace. */
  lemma ParseIntPadded(s: string)
    ensures ParseInt(IntStrip(s)) == ParseInt(s)
  {
    IntStripSpec(s);
    IntStripOfStripped(IntStrip(s));
  }

  /** ... but not every character `strip()` removes: a trailing \x1c is
      whitespace to `strip()` yet makes `int()` fail. */
  lemma ParseIntSeparator()
    ensures Strip("5\U{1C}") == "5"
    ensures ParseInt("5") == Some(5) && ParseInt("5\U{1C}") == None
  {
    var s := "5\U{1C}";
    assert IsSpace(s[1]) && !IsSpace(s[0]);
    assert TrimLeft(s) == s;
    assert TrimRight(s) == TrimRight(s[..1]);
    assert s[..1] == "5";
    assert IntTrimLeft(s) == s && IntTrimRight(s) == s;
    assert !IsIntText(s);
    assert IntStrip("5") == "5";
    assert DigitsValue("5") == 5;
  }

  /** A run of zero digits. */
  predicate AllZeros(z: string) {
    forall i :: 0 <= i < |z| ==> z[i] == '0'
  }

  /** Leading zeros do not change the value of a digit run. */
  lemma {:induction false} LeadingZerosValue(z: string, d: string)
    requires AllZeros(z) && AllDigits(d)
    ensures AllDigits(z + d) && DigitsValue(z + d) == DigitsValue(d)
    decreases |d|
  {
    if d == [] {
      assert z + d == z;
      ZerosValue(z);
    } else {
      var p := d[..|d| - 1];
      assert (z + d)[..|z + d| - 1] == z + p;
      LeadingZerosValue(z, p);
    }
  }

  lemma {:induction false} ZerosValue(z: string)
    requires AllZeros(z)
    ensures AllDigits(z) && DigitsValue(z) == 0
    decreases |z|
  {
    if z != [] {
      ZerosValue(z[..|z| - 1]);
    }
  }

  /** The value `int()` gives every text it accepts: an optional sign, any
      number of leading zeros, then the digits `str` writes for `n`, read
      as `n`, `+n` or `-n` ("007" is 7, "+5" is 5, "-0" is 0). Together
      with `ParseIntPadded` this covers every text `IsIntText` admits. */
  lemma ParseIntValue(z: string, n: nat)
    requires AllZeros(z)
    ensures ParseInt(z + IntToString(n)) == Some(n)
    ensures ParseInt("+" + z + IntToString(n)) == Some(n)
    ensures ParseInt("-" + z + IntToString(n)) == Some(-(n as int))
  {
    var d := IntToString(n);
    assert AllDigits(z + d) && DigitsValue(z + d) == n by {
      NatDigitsValue(n);
      LeadingZerosValue(z, d);
    }
    UnsignedValue(z + d);
    assert ParseInt("+" + z + d) == Some(n) by {
      SignThen('+', z, d);
      SignedValue('+', z + d);
    }
    assert ParseInt("-" + z + d) == Some(-(n as int)) by {
      SignThen('-', z, d);
      SignedValue('-', z + d);
    }
  }

  lemma SignThen(c: char, a: string, b: string)
    ensures [c] + a + b == [c] + (a + b)
  {
  }

  /** A digit run reads as its value. */
  lemma UnsignedValue(t: string)
    requires t != [] && AllDigits(t)
    ensures ParseInt(t) == Some(DigitsValue(t))
  {
    IntStripOfStripped(t);
  }

  /** A sign and a digit run read as the signed value. */
  lemma SignedValue(sign: char, t: string)
    requires sign == '+' || sign == '-'
    requires t != [] && AllDigits(t)
    ensures ParseInt([sign] + t) == Some(if sign == '-' then -(DigitsValue(t) as int) else DigitsValue(t) as int)
  {
    var s := [sign] + t;
    assert s[1..] == t;
    IntStripOfStripped(s);
  }
}
