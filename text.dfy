/** The string library calls the decoder makes on element text: string.strip,
    string.find, int() and float(). The text comes from expat, which in Python 2
    delivers unicode strings, so whitespace is the unicode whitespace of
    Python 2.7 (unicode.isspace). */
module Text {
  import opened Wrappers

  predicate IsSpace(c: char) {
    var n := c as int;
    (9 <= n <= 13) || (28 <= n <= 32) || n == 0x85 || n == 0xA0 || n == 0x1680 || n == 0x180E
    || (0x2000 <= n <= 0x200A) || n == 0x2028 || n == 0x2029 || n == 0x202F || n == 0x205F || n == 0x3000
  }

  predicate AllSpace(s: string) {
    forall i :: 0 <= i < |s| ==> IsSpace(s[i])
  }

  /** No whitespace at either end. */
  predicate Trimmed(s: string) {
    s == [] || (!IsSpace(s[0]) && !IsSpace(s[|s| - 1]))
  }

  /** s without its leading whitespace: what is left is the tail of s from
      the first character that is not whitespace. */
  function StripLeft(s: string): (r: string)
    ensures |r| <= |s|
    ensures forall i :: 0 <= i < |r| ==> r[i] == s[|s| - |r| + i]
    ensures AllSpace(s[..|s| - |r|])
    ensures r == [] || !IsSpace(r[0])
  {
    if s != [] && IsSpace(s[0]) then
      var r := StripLeft(s[1..]);
      var k := |s| - |r|;
      assert s[..k] == [s[0]] + s[1..][..k - 1];
      r
    else s
  }

  /** s without its trailing whitespace. */
  function StripRight(s: string): (r: string)
    ensures |r| <= |s| && r == s[..|r|]
    ensures AllSpace(s[|r|..])
    ensures r == [] || !IsSpace(r[|r| - 1])
  {
    if s != [] && IsSpace(s[|s| - 1]) then
      var r := StripRight(s[..|s| - 1]);
      assert s[|r|..] == s[..|s| - 1][|r|..] + [s[|s| - 1]];
      r
    else s
  }

  /** string.strip: s without whitespace at either end. */
  function Strip(s: string): (r: string)
    ensures Trimmed(r)
  {
    var t := StripLeft(s);
    var r := StripRight(t);
    assert r != [] ==> r[0] == t[0];
    r
  }

  lemma {:induction false} StripLeftSkips(a: string, t: string)
    requires AllSpace(a)
    requires t == [] || !IsSpace(t[0])
    ensures StripLeft(a + t) == t
  {
    if a != [] {
      assert (a + t)[0] == a[0] && IsSpace(a[0]);
      assert (a + t)[1..] == a[1..] + t;
      StripLeftSkips(a[1..], t);
      assert StripLeft(a + t) == StripLeft(a[1..] + t);
    } else {
      assert a + t == t;
    }
  }

  lemma {:induction false} StripRightSkips(t: string, b: string)
    requires AllSpace(b)
    requires t == [] || !IsSpace(t[|t| - 1])
    ensures StripRight(t + b) == t
  {
    if b != [] {
      assert (t + b)[..|t + b| - 1] == t + b[..|b| - 1];
      StripRightSkips(t, b[..|b| - 1]);
    } else {
      assert t + b == t;
    }
  }

  /** Strip is determined by its contract: whatever whitespace surrounds a
      trimmed string, stripping gives that string back. */
  lemma StripUnique(a: string, m: string, b: string)
    requires AllSpace(a) && AllSpace(b) && Trimmed(m)
    ensures Strip(a + m + b) == m
  {
    if m == [] {
      assert a + m + b == (a + b) + [];
      assert AllSpace(a + b);
      StripLeftSkips(a + b, []);
    } else {
      assert a + m + b == a + (m + b);
      StripLeftSkips(a, m + b);
      StripRightSkips(m, b);
    }
  }

  lemma StripIdempotent(s: string)
    ensures Strip(Strip(s)) == Strip(s)
  {
    var m := Strip(s);
    assert m == [] + m + [];
    StripUnique([], m, []);
  }

  /** sub occurs in s at index i. */
  predicate OccursAt(s: string, sub: string, i: int) {
    0 <= i && i + |sub| <= |s| && forall j :: 0 <= j < |sub| ==> s[i + j] == sub[j]
  }

  ghost predicate Contains(s: string, sub: string) {
    exists i :: OccursAt(s, sub, i)
  }

  /** The first index at or after from where sub occurs in s, or -1. */
  function FindFrom(s: string, sub: string, from: nat): (r: int)
    ensures r == -1 || (from <= r && OccursAt(s, sub, r))
    decreases |s| - from
  {
    if from + |sub| > |s| then -1
    else if OccursAt(s, sub, from) then from
    else FindFrom(s, sub, from + 1)
  }

  /** string.find(s, sub): an index where sub occurs in s, or -1. */
  function Find(s: string, sub: string): (r: int)
    ensures r == -1 || OccursAt(s, sub, r)
  {
    FindFrom(s, sub, 0)
  }

  /** FindFrom gives -1 exactly when sub does not occur at or after from, and
      otherwise the first such occurrence. */
  lemma {:induction false} FindFromFirst(s: string, sub: string, from: nat)
    ensures var r := FindFrom(s, sub, from);
      (r == -1 <==> forall i :: from <= i ==> !OccursAt(s, sub, i))
      && forall i :: from <= i < r ==> !OccursAt(s, sub, i)
    decreases |s| - from
  {
    if from + |sub| <= |s| && !OccursAt(s, sub, from) {
      FindFromFirst(s, sub, from + 1);
    }
  }

  /** find gives -1 exactly when s does not contain sub, and otherwise the
      lowest index where sub occurs. */
  lemma FindFirst(s: string, sub: string)
    ensures Find(s, sub) == -1 <==> !Contains(s, sub)
    ensures forall i :: 0 <= i < Find(s, sub) ==> !OccursAt(s, sub, i)
  {
    FindFromFirst(s, sub, 0);
  }

  predicate IsDigit(c: char) {
    '0' <= c <= '9'
  }

  predicate AllDigits(s: string) {
    forall i :: 0 <= i < |s| ==> IsDigit(s[i])
  }

  /** The value of a string of decimal digits, most significant first. */
  function DigitsValue(s: string): (r: nat)
    requires AllDigits(s)
  {
    if s == [] then 0 else DigitsValue(s[..|s| - 1]) * 10 + (s[|s| - 1] as int - '0' as int)
  }

  /** An optional sign directly followed by at least one decimal digit: how
      an integer is written, and the exponent of a float literal. */
  predicate IsSignedDigits(s: string) {
    if |s| > 0 && (s[0] == '+' || s[0] == '-') then |s| > 1 && AllDigits(s[1..])
    else |s| > 0 && AllDigits(s)
  }

  function SignedDigitsValue(s: string): (v: int)
    requires IsSignedDigits(s)
  {
    if s[0] == '-' then -(DigitsValue(s[1..]) as int)
    else if s[0] == '+' then DigitsValue(s[1..])
    else DigitsValue(s)
  }

  /** The part of an int() literal after its sign and the whitespace that may
      follow the sign. */
  function Magnitude(s: string): (d: string)
    requires |s| > 0
  {
    if s[0] == '+' || s[0] == '-' then StripLeft(s[1..]) else s
  }

  /** What int() accepts on a stripped text: an optional sign, then any
      whitespace, then at least one decimal digit. */
  predicate IsIntLiteral(s: string) {
    |s| > 0 && |Magnitude(s)| > 0 && AllDigits(Magnitude(s))
  }

  function IntLiteralValue(s: string): (v: int)
    requires IsIntLiteral(s)
  {
    if s[0] == '-' then -(DigitsValue(Magnitude(s)) as int) else DigitsValue(Magnitude(s))
  }

  /** int(text) in base 10; any other text is a ValueError (None). int() also
      ignores surrounding whitespace, which the decoder has always stripped
      already (see StripIdempotent). Every integer written in decimal is read
      back: a sign directly followed by digits has the value they spell. */
  function ParseInt(text: string): (r: Option<int>)
    ensures r.Some? <==> IsIntLiteral(text)
    ensures IsSignedDigits(text) ==> r == Some(SignedDigitsValue(text))
  {
    SignedDigitsAreIntLiteral(text);
    if IsIntLiteral(text) then Some(IntLiteralValue(text)) else None
  }

  /** The shortest decimal digits of n. */
  function Digits(n: nat): (s: string)
    ensures |s| > 0 && AllDigits(s)
  {
    if n < 10 then [('0' as int + n) as char] else Digits(n / 10) + [('0' as int + n % 10) as char]
  }

  /** How the program would write n: an optional minus sign and its digits. */
  function FormatInt(n: int): (s: string)
    ensures IsSignedDigits(s)
  {
    if n < 0 then "-" + Digits(-n) else Digits(n)
  }

  lemma {:induction false} DigitsRoundTrip(n: nat)
    ensures DigitsValue(Digits(n)) == n
  {
    if n >= 10 {
      var s := Digits(n);
      assert s[..|s| - 1] == Digits(n / 10);
      DigitsRoundTrip(n / 10);
    }
  }

  /** A sign directly followed by digits is an int() literal of the same value. */
  lemma SignedDigitsAreIntLiteral(s: string)
    ensures IsSignedDigits(s) ==> IsIntLiteral(s) && IntLiteralValue(s) == SignedDigitsValue(s)
  {
    if IsSignedDigits(s) && (s[0] == '+' || s[0] == '-') {
      assert [] + s[1..] == s[1..];
      StripLeftSkips([], s[1..]);
    }
  }

  /** The decimal form of n, read as signed digits or by int(), is n. */
  lemma FormatParses(n: int)
    ensures SignedDigitsValue(FormatInt(n)) == n
    ensures IsIntLiteral(FormatInt(n)) && IntLiteralValue(FormatInt(n)) == n
  {
    FormatSigned(n);
    SignedDigitsAreIntLiteral(FormatInt(n));
  }

  lemma FormatSigned(n: int)
    ensures SignedDigitsValue(FormatInt(n)) == n
  {
    var s := FormatInt(n);
    if n < 0 {
      assert s[1..] == Digits(-n);
      DigitsRoundTrip(-n);
    } else {
      DigitsRoundTrip(n);
    }
  }

  /** int() reads back every integer written in decimal. */
  lemma ParseIntFormat(n: int)
    ensures ParseInt(FormatInt(n)) == Some(n)
  {
    FormatParses(n);
  }

  /** int() skips whitespace between the sign and the digits: "- 5" is -5. */
  lemma SpaceAfterSign(sign: char, space: string, digits: string)
    requires sign == '+' || sign == '-'
    requires AllSpace(space) && |digits| > 0 && AllDigits(digits)
    ensures ParseInt([sign] + space + digits)
      == Some(if sign == '-' then -(DigitsValue(digits) as int) else DigitsValue(digits))
  {
    var s := [sign] + space + digits;
    MagnitudeAfterSpace(sign, space, digits);
    assert IsIntLiteral(s);
    var v := IntLiteralValue(s);
    assert v == if sign == '-' then -(DigitsValue(digits) as int) else DigitsValue(digits);
    assert ParseInt(s) == Some(v);
  }

  lemma MagnitudeAfterSpace(sign: char, space: string, digits: string)
    requires sign == '+' || sign == '-'
    requires AllSpace(space) && |digits| > 0 && AllDigits(digits)
    ensures Magnitude([sign] + space + digits) == digits
  {
    var s := [sign] + space + digits;
    assert s[0] == sign && s[1..] == space + digits;
    StripLeftSkips(space, digits);
  }

  function Pow10(k: nat): (p: nat)
    ensures p >= 1
  {
    if k == 0 then 1 else 10 * Pow10(k - 1)
  }

  /** v times ten to the e: e multiplications by ten, or -e divisions. */
  function Shift10(v: real, e: int): (r: real)
    decreases if e >= 0 then e else -e
  {
    if e == 0 then v else if e > 0 then Shift10(v, e - 1) * 10.0 else Shift10(v, e + 1) / 10.0
  }

  /** A non-negative shift multiplies by the power of ten. */
  lemma {:induction false} ShiftUp(v: real, e: nat)
    ensures Shift10(v, e) == v * Pow10(e) as real
  {
    if e > 0 {
      ShiftUp(v, e - 1);
      assert Pow10(e) as real == 10.0 * Pow10(e - 1) as real;
    }
  }

  /** The first index at or after i where c occurs in s, or -1. */
  function IndexFrom(s: string, c: char, i: nat): (r: int)
    requires i <= |s|
    ensures r == -1 || (i <= r < |s| && s[r] == c)
    decreases |s| - i
  {
    if i == |s| then -1 else if s[i] == c then i else IndexFrom(s, c, i + 1)
  }

  /** The first index of the character c in s, or -1. */
  function IndexOf(s: string, c: char): (r: int)
    ensures r == -1 || (0 <= r < |s| && s[r] == c)
  {
    IndexFrom(s, c, 0)
  }

  /** The search passes over characters other than c. */
  lemma {:induction false} IndexFromSkips(s: string, c: char, i: nat, k: nat)
    requires i <= k <= |s|
    requires forall j :: i <= j < k ==> s[j] != c
    ensures IndexFrom(s, c, i) == IndexFrom(s, c, k)
    decreases k - i
  {
    if i < k {
      IndexFromSkips(s, c, i + 1, k);
    }
  }

  /** A text without c has no index of c. */
  lemma NoIndex(s: string, c: char)
    requires forall j :: 0 <= j < |s| ==> s[j] != c
    ensures IndexOf(s, c) == -1
  {
    IndexFromSkips(s, c, 0, |s|);
  }

  /** A digit string with at most one '.' and at least one digit: the
      mantissa of a float literal. */
  predicate IsMantissa(m: string) {
    var dot := IndexOf(m, '.');
    if dot == -1 then |m| > 0 && AllDigits(m)
    else AllDigits(m[..dot]) && AllDigits(m[dot + 1..]) && |m| > 1
  }

  /** The value of fraction digits: tenths, then hundredths, and so on. */
  function FractionValue(fp: string): (v: real)
    requires AllDigits(fp)
    ensures 0.0 <= v < 1.0
  {
    if fp == [] then 0.0 else ((fp[0] as int - '0' as int) as real + FractionValue(fp[1..])) / 10.0
  }

  /** The value of integer digits ip and fraction digits fp. */
  function DecimalValue(ip: string, fp: string): (v: real)
    requires AllDigits(ip) && AllDigits(fp)
    ensures DigitsValue(ip) as real <= v < DigitsValue(ip) as real + 1.0
  {
    DigitsValue(ip) as real + FractionValue(fp)
  }

  /** The value of a mantissa: its digits, with those after the point scaled
      down by their power of ten. */
  function MantissaValue(m: string): (v: real)
    requires IsMantissa(m)
    ensures v >= 0.0
  {
    var dot := IndexOf(m, '.');
    if dot == -1 then DigitsValue(m) as real else DecimalValue(m[..dot], m[dot + 1..])
  }

  /** The text of a float literal without sign: a mantissa, then optionally
      'e' or 'E' and an integer exponent. */
  function UnsignedReal(s: string): (r: Option<real>)
    ensures r.Some? ==> s != []
  {
    var e := if IndexOf(s, 'e') != -1 then IndexOf(s, 'e') else IndexOf(s, 'E');
    if e == -1 then (if IsMantissa(s) then Some(MantissaValue(s)) else None)
    else if IsMantissa(s[..e]) && IsSignedDigits(s[e + 1..]) then
      Some(Shift10(MantissaValue(s[..e]), SignedDigitsValue(s[e + 1..])))
    else None
  }

  /** float(text) on a decimal string: an optional sign, digits with at most
      one point, an optional exponent; any other text is a ValueError (None).
      As with ParseInt, the text has no surrounding whitespace here. */
  function ParseReal(text: string): (r: Option<real>)
    ensures r.Some? ==> text != []
  {
    if |text| > 0 && (text[0] == '+' || text[0] == '-') then
      match UnsignedReal(text[1..])
      case None => None
      case Some(v) => Some(if text[0] == '-' then -v else v)
    else UnsignedReal(text)
  }

  /** float() and int() agree on every integer written without a space after
      its sign (float() allows none there). */
  lemma ParseRealOfInt(text: string)
    requires IsSignedDigits(text)
    ensures ParseReal(text) == Some(SignedDigitsValue(text) as real)
    ensures ParseInt(text) == Some(SignedDigitsValue(text))
  {
    if text[0] == '+' || text[0] == '-' {
      var digits := text[1..];
      UnsignedOfDigits(digits);
      assert text == [text[0]] + digits;
      if text[0] == '-' {
        ParseRealMinus(digits);
      } else {
        ParseRealPlus(digits);
      }
    } else {
      UnsignedOfDigits(text);
      ParseRealPlain(text);
    }
  }

  /** float() of digits alone is their value. */
  lemma UnsignedOfDigits(d: string)
    requires |d| > 0 && AllDigits(d)
    ensures UnsignedReal(d) == Some(DigitsValue(d) as real)
  {
    NoIndex(d, 'e');
    NoIndex(d, 'E');
    NoIndex(d, '.');
  }

  /** The first c in a + [c] + b, when a does not contain it, is at |a|. */
  lemma IndexAfter(a: string, c: char, b: string)
    requires forall i :: 0 <= i < |a| ==> a[i] != c
    ensures IndexOf(a + [c] + b, c) == |a|
  {
    var s := a + [c] + b;
    assert s[|a|] == c;
    assert forall i :: 0 <= i < |a| ==> s[i] == a[i];
    IndexFromSkips(s, c, 0, |a|);
  }

  /** A run of digits with one point inside it is a mantissa, worth the integer
      digits plus the fraction digits over their power of ten. */
  lemma MantissaOfDecimal(ip: string, fp: string)
    requires AllDigits(ip) && AllDigits(fp) && |ip| + |fp| > 0
    ensures IsMantissa(ip + "." + fp)
    ensures MantissaValue(ip + "." + fp) == DecimalValue(ip, fp)
  {
    var m := ip + "." + fp;
    assert m == ip + ['.'] + fp;
    IndexAfter(ip, '.', fp);
    assert m[..|ip|] == ip && m[|ip| + 1..] == fp;
  }

  /** float() of a decimal fraction, the integer digits, a point and the
      fraction digits (either run may be empty, not both), with or without a
      minus sign: the integer part plus the fraction over its power of ten. */
  lemma ParseRealDecimal(ip: string, fp: string)
    requires AllDigits(ip) && AllDigits(fp) && |ip| + |fp| > 0
    ensures ParseReal(ip + "." + fp) == Some(DecimalValue(ip, fp))
    ensures ParseReal("-" + ip + "." + fp) == Some(-DecimalValue(ip, fp))
  {
    var m := ip + "." + fp;
    UnsignedDecimal(ip, fp);
    ParseRealMinus(m);
    assert "-" + ip + "." + fp == "-" + m;
    assert m[0] == '.' || IsDigit(m[0]) by {
      if ip != [] {
        assert m[0] == ip[0];
      }
    }
    ParseRealPlain(m);
  }

  /** float() of a minus sign and an unsigned literal is its negation. */
  lemma ParseRealMinus(u: string)
    ensures ParseReal("-" + u) == match UnsignedReal(u) case None => None case Some(v) => Some(-v)
  {
    assert ("-" + u)[0] == '-' && ("-" + u)[1..] == u;
  }

  /** float() of a plus sign and an unsigned literal is its value. */
  lemma ParseRealPlus(u: string)
    ensures ParseReal("+" + u) == UnsignedReal(u)
  {
    assert ("+" + u)[0] == '+' && ("+" + u)[1..] == u;
  }

  /** float() of a literal without a sign is its unsigned value. */
  lemma ParseRealPlain(u: string)
    requires u != [] && u[0] != '+' && u[0] != '-'
    ensures ParseReal(u) == UnsignedReal(u)
  {
  }

  lemma UnsignedDecimal(ip: string, fp: string)
    requires AllDigits(ip) && AllDigits(fp) && |ip| + |fp| > 0
    ensures UnsignedReal(ip + "." + fp) == Some(DecimalValue(ip, fp))
  {
    var m := ip + "." + fp;
    MantissaOfDecimal(ip, fp);
    assert forall i :: 0 <= i < |m| ==> m[i] == '.' || IsDigit(m[i]);
    NoIndex(m, 'e');
    NoIndex(m, 'E');
  }

  /** float() of a mantissa with an exponent: the mantissa's value times ten
      to the exponent. */
  lemma ParseRealExponent(m: string, x: string)
    requires IsMantissa(m) && IsSignedDigits(x)
    requires forall i :: 0 <= i < |m| ==> m[i] != 'e'
    ensures ParseReal(m + "e" + x) == Some(Shift10(MantissaValue(m), SignedDigitsValue(x)))
  {
    UnsignedWithExponent(m, x);
    var dot := IndexOf(m, '.');
    assert m[0] == '.' || IsDigit(m[0]) by {
      if dot > 0 {
        assert m[0] == m[..dot][0];
      }
    }
    assert (m + "e" + x)[0] == m[0];
    ParseRealPlain(m + "e" + x);
  }

  /** A mantissa without an 'e', then 'e' and signed exponent digits. */
  lemma UnsignedWithExponent(m: string, x: string)
    requires IsMantissa(m) && IsSignedDigits(x)
    requires forall i :: 0 <= i < |m| ==> m[i] != 'e'
    ensures UnsignedReal(m + "e" + x) == Some(Shift10(MantissaValue(m), SignedDigitsValue(x)))
  {
    var text := m + "e" + x;
    assert text == m + ['e'] + x;
    IndexAfter(m, 'e', x);
    assert text[..|m|] == m && text[|m| + 1..] == x;
    SplitAtExponent(text, |m|);
  }

  /** UnsignedReal splits a text at its first 'e'. */
  lemma SplitAtExponent(s: string, e: int)
    requires e == IndexOf(s, 'e') && e != -1
    requires IsMantissa(s[..e]) && IsSignedDigits(s[e + 1..])
    ensures UnsignedReal(s) == Some(Shift10(MantissaValue(s[..e]), SignedDigitsValue(s[e + 1..])))
  {
  }

  /** The gain text "2.5" is read as 2.5. */
  lemma ParseGain()
    ensures ParseReal("2.5") == Some(2.5)
  {
    ParseRealDecimal("2", "5");
    assert "2" + "." + "5" == "2.5";
    TwoPointFive();
  }

  lemma TwoPointFive()
    ensures DecimalValue("2", "5") == 2.5
  {
    var ip, fp := "2", "5";
    assert DigitsValue(ip) == 2;
    assert FractionValue(fp) == (5.0 + FractionValue(fp[1..])) / 10.0;
    assert fp[1..] == [];
  }
}
