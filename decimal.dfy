/**
 * Decimal text of integers as Python renders and reads it:
 * `str(n)`, the `'%0Nd'` zero-padded conversion, and `int(text)`.
 * Only ASCII digits and ASCII whitespace are modelled.
 */
module Decimal {
  import opened Wrappers

  predicate IsDigit(c: char) { '0' <= c <= '9' }

  predicate AllDigits(s: string) { forall i :: 0 <= i < |s| ==> IsDigit(s[i]) }

  function DigitChar(d: nat): (c: char)
    requires d < 10
    ensures IsDigit(c)
  {
    ('0' as int + d) as char
  }

  function DigitValue(c: char): (d: nat)
    requires IsDigit(c)
    ensures d < 10
    ensures DigitChar(d) == c
  {
    c as int - '0' as int
  }

  lemma DigitRoundTrip(d: nat)
    requires d < 10
    ensures DigitValue(DigitChar(d)) == d
  {
  }

  /** The number written by a string of decimal digits, most significant first. */
  function DigitsValue(s: string): nat
    requires AllDigits(s)
  {
    if s == [] then 0 else DigitsValue(s[..|s| - 1]) * 10 + DigitValue(s[|s| - 1])
  }

  /** `str(n)` for a non-negative `n`: the shortest decimal rendering. */
  function NatToString(n: nat): (s: string)
    ensures 1 <= |s| && AllDigits(s)
    ensures DigitsValue(s) == n
    ensures |s| > 1 ==> s[0] != '0'
    ensures n < 10 ==> |s| == 1
    ensures n < 100 ==> |s| <= 2
    ensures n < 1000 ==> |s| <= 3
    ensures n < 10000 ==> |s| <= 4
  {
    if n < 10 then [DigitChar(n)]
    else
      var p := NatToString(n / 10);
      var s := p + [DigitChar(n % 10)];
      assert s[..|s| - 1] == p;
      s
  }

  /** `str(n)` for any integer. */
  function IntToString(n: int): string
  {
    if n < 0 then "-" + NatToString(-n) else NatToString(n)
  }

  function Zeros(k: nat): (z: string)
    ensures |z| == k && AllDigits(z)
  {
    if k == 0 then [] else Zeros(k - 1) + "0"
  }

  lemma {:induction false} ZerosValue(k: nat)
    ensures DigitsValue(Zeros(k)) == 0
  {
    if k > 0 {
      assert Zeros(k)[..k - 1] == Zeros(k - 1);
      ZerosValue(k - 1);
    }
  }

  /** Leading zeros do not change the value of a digit string. */
  lemma {:induction false} LeadingZerosValue(k: nat, t: string)
    requires AllDigits(t)
    ensures AllDigits(Zeros(k) + t)
    ensures DigitsValue(Zeros(k) + t) == DigitsValue(t)
  {
    var s := Zeros(k) + t;
    if t == [] {
      assert s == Zeros(k);
      ZerosValue(k);
    } else {
      assert s[..|s| - 1] == Zeros(k) + t[..|t| - 1];
      LeadingZerosValue(k, t[..|t| - 1]);
    }
  }

  /** Python's `'%0wd' % n` for `n >= 0`: `str(n)` left-padded with zeros to width `w`. */
  function Pad(n: nat, w: nat): (s: string)
    ensures AllDigits(s)
    ensures |s| == if |NatToString(n)| < w then w else |NatToString(n)|
    ensures DigitsValue(s) == n
  {
    var t := NatToString(n);
    var z := if |t| < w then w - |t| else 0;
    LeadingZerosValue(z, t);
    Zeros(z) + t
  }

  /** Two-digit padding spelled out digit by digit. */
  lemma Pad2Digits(n: nat)
    requires n < 100
    ensures Pad(n, 2) == [DigitChar(n / 10), DigitChar(n % 10)]
  {
    if n < 10 {
      assert Zeros(1) == "0";
    } else {
      assert NatToString(n / 10) == [DigitChar(n / 10)];
    }
  }

  /** The ASCII characters `int()` strips around its digits: `\t\n\v\f\r` and space. */
  predicate IsSpace(c: char)
  {
    c == ' ' || 9 <= c as int <= 13
  }

  function TrimLeft(s: string): (t: string)
    ensures |t| <= |s| && t == s[|s| - |t|..]
    ensures forall i :: 0 <= i < |s| - |t| ==> IsSpace(s[i])
    ensures t == [] || !IsSpace(t[0])
  {
    if s != [] && IsSpace(s[0]) then
      var t := TrimLeft(s[1..]);
      assert s[1..][|s| - 1 - |t|..] == s[|s| - |t|..];
      assert forall i :: 1 <= i < |s| ==> s[i] == s[1..][i - 1];
      t
    else s
  }

  function TrimRight(s: string): (t: string)
    ensures |t| <= |s| && t == s[..|t|]
    ensures forall i :: |t| <= i < |s| ==> IsSpace(s[i])
    ensures t == [] || !IsSpace(t[|t| - 1])
  {
    if s != [] && IsSpace(s[|s| - 1]) then
      var t := TrimRight(s[..|s| - 1]);
      assert s[..|s| - 1][..|t|] == s[..|t|];
      assert forall i :: 0 <= i < |s| - 1 ==> s[i] == s[..|s| - 1][i];
      t
    else s
  }

  /** Digits with single underscores between them, as Python 3.6+ allows in `int()`. */
  predicate DigitGroups(s: string)
  {
    && s != [] && IsDigit(s[0]) && IsDigit(s[|s| - 1])
    && (forall i :: 0 <= i < |s| ==> IsDigit(s[i]) || s[i] == '_')
    && (forall i :: 0 <= i < |s| - 1 ==> !(s[i] == '_' && s[i + 1] == '_'))
  }

  function RemoveUnderscores(s: string): (t: string)
    requires forall i :: 0 <= i < |s| ==> IsDigit(s[i]) || s[i] == '_'
    ensures AllDigits(t)
    ensures AllDigits(s) ==> t == s
  {
    if s == [] then []
    else if s[0] == '_' then RemoveUnderscores(s[1..])
    else [s[0]] + RemoveUnderscores(s[1..])
  }

  /**
   * Python's `int(text)` in base 10: surrounding whitespace, an optional sign,
   * then digit groups separated by single underscores; anything else is a ValueError (`None`).
   */
  function ParseInt(s: string): (r: Option<int>)
    ensures s != [] && AllDigits(s) ==> r == Some(DigitsValue(s))
    ensures r.Some? ==> exists i :: 0 <= i < |s| && IsDigit(s[i])
    ensures r.Some? && r.value < 0 ==> exists i :: 0 <= i < |s| && s[i] == '-'
  {
    var l := TrimLeft(s);
    var t := TrimRight(l);
    StrippedSigned(s, l, t);
    ParseSigned(t)
  }

  /** A plain digit string has no whitespace to strip and reads as its value. */
  lemma StrippedDigits(s: string)
    requires s != [] && AllDigits(s)
    ensures ParseSigned(TrimRight(TrimLeft(s))) == Some(DigitsValue(s))
  {
    assert !IsSpace(s[0]) && !IsSpace(s[|s| - 1]);
    TrimNothing(s);
    ParseSignedDigits(s);
  }

  /** Stripped text that parses carries a digit, and a minus sign in front when the value is negative. */
  lemma SignedShape(t: string)
    requires ParseSigned(t).Some?
    ensures var j := if t[0] == '-' || t[0] == '+' then 1 else 0; j < |t| && IsDigit(t[j])
    ensures ParseSigned(t).value < 0 ==> t[0] == '-'
  {
  }

  /** What the stripped text `t` of `s` parses to shows in `s` itself. */
  lemma StrippedSigned(s: string, l: string, t: string)
    requires l == TrimLeft(s) && t == TrimRight(l)
    ensures s != [] && AllDigits(s) ==> ParseSigned(t) == Some(DigitsValue(s))
    ensures ParseSigned(t).Some? ==> exists i :: 0 <= i < |s| && IsDigit(s[i])
    ensures ParseSigned(t).Some? && ParseSigned(t).value < 0 ==> exists i :: 0 <= i < |s| && s[i] == '-'
  {
    if s != [] && AllDigits(s) {
      StrippedDigits(s);
    }
    if ParseSigned(t).Some? {
      SignedShape(t);
      var k := |s| - |l|;
      var j := if t[0] == '-' || t[0] == '+' then 1 else 0;
      assert t[j] == l[j] == s[k + j];
      assert t[0] == l[0] == s[k];
    }
  }

  /** The stripped text: an optional sign, then the digit groups. */
  function ParseSigned(t: string): Option<int>
  {
    if t == [] then None
    else if t[0] == '-' then
      match ParseGroups(t[1..])
      case None => None
      case Some(v) => Some(-v)
    else if t[0] == '+' then ParseGroups(t[1..])
    else ParseGroups(t)
  }

  /** The unsigned part: digit groups read as one decimal number. */
  function ParseGroups(body: string): Option<int>
  {
    if DigitGroups(body) then Some(DigitsValue(RemoveUnderscores(body))) else None
  }

  /** Text without surrounding whitespace is left as it is. */
  lemma TrimNothing(s: string)
    requires s != [] && !IsSpace(s[0]) && !IsSpace(s[|s| - 1])
    ensures TrimRight(TrimLeft(s)) == s
  {
    assert TrimLeft(s) == s;
    assert TrimRight(s) == s;
  }

  /** A plain digit string is a single digit group and reads as its value. */
  lemma DigitsAreGroups(d: string)
    requires d != [] && AllDigits(d)
    ensures ParseGroups(d) == Some(DigitsValue(d))
  {
    assert DigitGroups(d);
    assert RemoveUnderscores(d) == d;
  }

  /** A plain digit string, with or without a minus sign, reads as its value. */
  lemma ParseSignedDigits(d: string)
    requires d != [] && AllDigits(d)
    ensures ParseSigned(d) == Some(DigitsValue(d))
    ensures ParseSigned("-" + d) == Some(-(DigitsValue(d) as int))
  {
    assert IsDigit(d[0]);
    DigitsAreGroups(d);
    var t := "-" + d;
    assert t[0] == '-' && t[1..] == d;
  }

  /** `int(str(n)) == n`. */
  lemma ParseIntOfString(n: int)
    ensures ParseInt(IntToString(n)) == Some(n)
  {
    var s := IntToString(n);
    var digits := NatToString(if n < 0 then -n else n);
    assert s == if n < 0 then "-" + digits else digits;
    assert !IsSpace(s[0]) && !IsSpace(s[|s| - 1]);
    TrimNothing(s);
    ParseSignedDigits(digits);
  }

  /** The information separators `\x1c`-`\x1f` are not stripped: `int("\x1c5")` is a ValueError. */
  lemma SeparatorNotStripped()
    ensures ParseInt([28 as char, '5']) == None
    ensures ParseInt([' ', '5', '\n']) == Some(5)
  {
    var s := [28 as char, '5'];
    assert TrimLeft(s) == s;
    assert TrimRight(s) == s;
    assert !DigitGroups(s);
    var t := [' ', '5', '\n'];
    assert TrimLeft(t) == t[1..];
    assert TrimLeft(t[1..]) == t[1..];
    assert TrimRight(t[1..]) == ['5'];
    assert TrimRight(['5']) == ['5'];
    ParseSignedDigits(['5']);
    assert DigitsValue(['5']) == 5;
  }

  /** Whatever `int()` accepts is made of whitespace, signs, digits and underscores only. */
  lemma ParseIntAlphabet(s: string, i: nat)
    requires i < |s|
    requires ParseInt(s).Some?
    ensures IsSpace(s[i]) || IsDigit(s[i]) || s[i] in "+-_"
  {
    var l := TrimLeft(s);
    var t := TrimRight(l);
    var k := |s| - |l|;
    assert ParseSigned(t).Some?;
    if i < k {
      assert IsSpace(s[i]);
    } else if i < k + |t| {
      var j := i - k;
      assert s[i] == l[j] == t[j];
      SignedAlphabet(t, j);
    } else {
      assert s[i] == l[i - k];
      assert IsSpace(l[i - k]);
    }
  }

  /** Stripped text `int()` accepts: a sign, digits and underscores. */
  lemma SignedAlphabet(t: string, j: nat)
    requires j < |t| && ParseSigned(t).Some?
    ensures IsDigit(t[j]) || t[j] in "+-_"
  {
    if j > 0 && (t[0] == '-' || t[0] == '+') {
      assert t[j] == t[1..][j - 1];
    }
  }
}
