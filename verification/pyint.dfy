/**
 * A decimal integer parser standing in for Python's built-in `int(text)`:
 * surrounding whitespace is ignored, an optional `+` or `-` sign comes next,
 * then one to 4300 ASCII digits (leading zeros allowed, and counted). Anything
 * else is the `ValueError` case, modelled as `None`. ParseGrammar and
 * ParseSound together state this grammar in both directions.
 */
module PyInt {
  import opened Wrappers

  /**
   * The whitespace `int()` skips around a literal: the ASCII characters tab,
   * line feed, vertical tab, form feed, carriage return and space, plus the
   * non-ASCII characters `str.isspace()` accepts. The ASCII separators
   * U+001C to U+001F count for `str.isspace()` but not for `int()`.
   */
  predicate IsSpace(c: char)
  {
    || c == ' ' || c == '\t' || c == '\n' || c == '\r'
    || c == '\U{B}' || c == '\U{C}'
    || c == '\U{85}' || c == '\U{A0}' || c == '\U{1680}'
    || ('\U{2000}' <= c <= '\U{200A}')
    || c == '\U{2028}' || c == '\U{2029}' || c == '\U{202F}'
    || c == '\U{205F}' || c == '\U{3000}'
  }

  predicate IsDigit(c: char)
  {
    '0' <= c <= '9'
  }

  predicate AllSpace(s: string)
  {
    forall i :: 0 <= i < |s| ==> IsSpace(s[i])
  }

  predicate AllDigits(s: string)
  {
    forall i :: 0 <= i < |s| ==> IsDigit(s[i])
  }

  function DigitValue(c: char): (d: nat)
    requires IsDigit(c)
    ensures d < 10
  {
    c as int - '0' as int
  }

  function DigitChar(d: nat): (c: char)
    requires d < 10
    ensures IsDigit(c) && DigitValue(c) == d
  {
    ('0' as int + d) as char
  }

  /** Drops the leading whitespace of `s`. */
  function TrimLeft(s: string): (t: string)
    ensures |t| <= |s| && t == s[|s| - |t|..]
    ensures t == [] || !IsSpace(t[0])
    ensures AllSpace(s[..|s| - |t|])
  {
    if s != [] && IsSpace(s[0]) then TrimLeft(s[1..]) else s
  }

  /** Drops the trailing whitespace of `s`. */
  function TrimRight(s: string): (t: string)
    ensures |t| <= |s| && t == s[..|t|]
    ensures t == [] || !IsSpace(t[|t| - 1])
    ensures AllSpace(s[|t|..])
  {
    if s != [] && IsSpace(s[|s| - 1]) then
      var t := TrimRight(s[..|s| - 1]);
      assert s[|t|..] == s[..|s| - 1][|t|..] + [s[|s| - 1]];
      t
    else
      s
  }

  /** `s` without the surrounding characters `IsSpace` accepts (the whitespace `int()` skips). */
  function Strip(s: string): (t: string)
  {
    TrimRight(TrimLeft(s))
  }

  /**
   * CPython's default limit on the number of digits `int()` converts from a
   * decimal string; longer digit runs, leading zeros included, raise ValueError.
   */
  const MaxStrDigits: nat := 4300

  /** The value of a string of decimal digits, most significant first. */
  function DigitsValue(s: string): (v: nat)
    requires AllDigits(s)
  {
    if s == [] then 0 else DigitsValue(s[..|s| - 1]) * 10 + DigitValue(s[|s| - 1])
  }

  /** A sign as the grammar allows it: none, `+` or `-`. */
  predicate IsSign(sign: string)
  {
    sign == "" || sign == "+" || sign == "-"
  }

  /** The value of a sign followed by a digit string. */
  function SignedValue(sign: string, d: string): (v: int)
    requires AllDigits(d)
  {
    if sign == "-" then -(DigitsValue(d) as int) else DigitsValue(d)
  }

  /** The value of an unsigned digit run, or None when it is empty, not all digits or too long. */
  function ParseDigits(d: string): (r: Option<nat>)
  {
    if d != [] && AllDigits(d) && |d| <= MaxStrDigits then Some(DigitsValue(d)) else None
  }

  /** The value of an optionally signed digit string, or None when it is not one. */
  function ParseSigned(t: string): (r: Option<int>)
  {
    if t == [] then None
    else
      match t[0]
      case '-' => (match ParseDigits(t[1..]) case Some(v) => Some(-(v as int)) case None => None)
      case '+' => ParseDigits(t[1..])
      case _ => ParseDigits(t)
  }

  /** `int(s)`: Some(value) when Python returns a value, None when it raises ValueError. */
  function ParseInt(s: string): (r: Option<int>)
    ensures r.Some? ==> 0 < |Strip(s)| <= MaxStrDigits + 1
  {
    ParseSigned(Strip(s))
  }

  /** The decimal digits of `n`, as Python's `str(n)` writes them. */
  function ShowNat(n: nat): (s: string)
    ensures s != [] && AllDigits(s)
  {
    if n < 10 then [DigitChar(n)] else ShowNat(n / 10) + [DigitChar(n % 10)]
  }

  /** A run of `k` zero digits. */
  function Zeros(k: nat): (z: string)
    ensures |z| == k
    ensures forall i :: 0 <= i < k ==> z[i] == '0'
  {
    seq(k, _ => '0')
  }

  function Abs(n: int): (m: nat)
  {
    if n < 0 then -n else n
  }

  /** `str(n)` for any integer: a `-` before the digits of a negative number. */
  function Show(n: int): (s: string)
    ensures s != []
  {
    if n < 0 then "-" + ShowNat(-n) else ShowNat(n)
  }

  lemma {:induction false} ShowNatValue(n: nat)
    ensures DigitsValue(ShowNat(n)) == n
  {
    if n >= 10 {
      var s := ShowNat(n);
      ShowNatValue(n / 10);
      assert s[..|s| - 1] == ShowNat(n / 10);
    }
  }

  /** Padding with whitespace on either side does not change what Strip keeps. */
  lemma {:induction false} StripPadded(ws1: string, t: string, ws2: string)
    requires AllSpace(ws1) && AllSpace(ws2)
    requires t != [] && !IsSpace(t[0]) && !IsSpace(t[|t| - 1])
    ensures Strip(ws1 + t + ws2) == t
  {
    var rest := t + ws2;
    assert rest[0] == t[0];
    assert ws1 + t + ws2 == ws1 + rest;
    calc {
      Strip(ws1 + t + ws2);
      TrimRight(TrimLeft(ws1 + rest));
      { TrimLeftPadded(ws1, rest); }
      TrimRight(rest);
      { TrimRightPadded(t, ws2); }
      t;
    }
  }

  lemma {:induction false} TrimLeftPadded(ws: string, t: string)
    requires AllSpace(ws)
    requires t != [] && !IsSpace(t[0])
    ensures TrimLeft(ws + t) == t
  {
    if ws != [] {
      assert (ws + t)[1..] == ws[1..] + t;
      TrimLeftPadded(ws[1..], t);
    } else {
      assert ws + t == t;
    }
  }

  lemma {:induction false} TrimRightPadded(t: string, ws: string)
    requires AllSpace(ws)
    requires t != [] && !IsSpace(t[|t| - 1])
    ensures TrimRight(t + ws) == t
  {
    if ws != [] {
      assert (t + ws)[..|t + ws| - 1] == t + ws[..|ws| - 1];
      TrimRightPadded(t, ws[..|ws| - 1]);
    } else {
      assert t + ws == t;
    }
  }

  /** Neither a digit nor a sign is whitespace. */
  lemma SignOrDigitNotSpace(c: char)
    requires IsDigit(c) || c == '+' || c == '-'
    ensures !IsSpace(c)
  {
  }

  /** What ParseSigned gives for an optional sign followed by a digit string. */
  lemma ParseSignedOf(sign: string, d: string)
    requires IsSign(sign)
    requires d != [] && AllDigits(d)
    ensures ParseSigned(sign + d) == if |d| <= MaxStrDigits then Some(SignedValue(sign, d)) else None
  {
    if sign != "" {
      assert (sign + d)[1..] == d;
    } else {
      assert sign + d == d;
    }
  }

  /**
   * The grammar, forward: whitespace, an optional sign, a run of digits and whitespace
   * parse to the signed value of the digits when the run has at most 4300 digits, and
   * are ValueError when it is longer.
   */
  lemma ParseGrammar(ws1: string, sign: string, d: string, ws2: string)
    requires AllSpace(ws1) && AllSpace(ws2) && IsSign(sign)
    requires d != [] && AllDigits(d)
    ensures ParseInt(ws1 + sign + d + ws2)
      == if |d| <= MaxStrDigits then Some(SignedValue(sign, d)) else None
  {
    var t := sign + d;
    assert ws1 + sign + d + ws2 == ws1 + t + ws2;
    assert t[|t| - 1] == d[|d| - 1];
    SignOrDigitNotSpace(t[0]);
    SignOrDigitNotSpace(t[|t| - 1]);
    StripPadded(ws1, t, ws2);
    ParseSignedOf(sign, d);
  }

  /** Strip only removes whitespace from the two ends. */
  lemma StripSplit(s: string) returns (ws1: string, ws2: string)
    ensures AllSpace(ws1) && AllSpace(ws2)
    ensures s == ws1 + Strip(s) + ws2
  {
    var l := TrimLeft(s);
    var t := TrimRight(l);
    ws1, ws2 := s[..|s| - |l|], l[|t|..];
    SplitAt(s, |s| - |l|, |t|);
  }

  lemma SplitAt(s: string, p: nat, k: nat)
    requires p <= |s| && k <= |s| - p
    ensures s == s[..p] + s[p..][..k] + s[p..][k..]
  {
    assert s[p..] == s[p..][..k] + s[p..][k..];
    assert s == s[..p] + s[p..];
  }

  /** What ParseSigned accepts: an optional sign, then one to 4300 digits. */
  lemma ParseSignedSplit(t: string) returns (sign: string, d: string)
    requires ParseSigned(t).Some?
    ensures IsSign(sign) && d != [] && AllDigits(d) && |d| <= MaxStrDigits
    ensures t == sign + d && ParseSigned(t).value == SignedValue(sign, d)
  {
    if t[0] == '-' || t[0] == '+' {
      sign, d := t[..1], t[1..];
    } else {
      sign, d := "", t;
    }
    assert t == sign + d;
  }

  lemma Regroup(s: string, ws1: string, t: string, ws2: string, sign: string, d: string)
    requires s == ws1 + t + ws2 && t == sign + d
    ensures s == ws1 + sign + d + ws2
  {
  }

  /** The pieces of a text that int() accepts. */
  lemma ParseSplit(s: string) returns (ws1: string, sign: string, d: string, ws2: string)
    requires ParseInt(s).Some?
    ensures AllSpace(ws1) && AllSpace(ws2) && IsSign(sign)
    ensures d != [] && AllDigits(d) && |d| <= MaxStrDigits
    ensures s == ws1 + sign + d + ws2
    ensures ParseInt(s).value == SignedValue(sign, d)
  {
    ws1, ws2 := StripSplit(s);
    var t := Strip(s);
    sign, d := ParseSignedSplit(t);
    Regroup(s, ws1, t, ws2, sign, d);
  }

  /**
   * The grammar, backward: text that int() accepts is whitespace, an optional sign,
   * one to 4300 digits and whitespace, and its value is the signed value of those digits.
   * So text such as "1-2", "+-3", "3+" or "1 2" is ValueError.
   */
  lemma ParseSound(s: string)
    ensures ParseInt(s).Some? ==>
      exists ws1, sign, d, ws2 ::
        && AllSpace(ws1) && AllSpace(ws2) && IsSign(sign)
        && d != [] && AllDigits(d) && |d| <= MaxStrDigits
        && s == ws1 + sign + d + ws2
        && ParseInt(s).value == SignedValue(sign, d)
  {
    if ParseInt(s).Some? {
      var ws1, sign, d, ws2 := ParseSplit(s);
    }
  }

  /**
   * Round trip: the text `str(n)` surrounded by any whitespace parses back to `n`,
   * negative numbers included, as long as `n` has at most 4300 digits.
   */
  lemma ParseShow(ws1: string, n: int, ws2: string)
    requires AllSpace(ws1) && AllSpace(ws2)
    requires |ShowNat(Abs(n))| <= MaxStrDigits
    ensures ParseInt(ws1 + Show(n) + ws2) == Some(n)
  {
    var sign := if n < 0 then "-" else "";
    var digits := ShowNat(Abs(n));
    assert Show(n) == sign + digits;
    assert ws1 + Show(n) + ws2 == ws1 + sign + digits + ws2;
    ParseGrammar(ws1, sign, digits, ws2);
    ShowNatValue(Abs(n));
    assert SignedValue(sign, digits) == n;
  }

  /**
   * Leading zeros are accepted under any sign, an explicit `+` included, and do not
   * change the value, as long as the digit run, zeros counted, stays within the limit.
   */
  lemma ParseLeadingZeros(ws1: string, sign: string, zeros: nat, n: nat, ws2: string)
    requires AllSpace(ws1) && AllSpace(ws2) && IsSign(sign)
    requires zeros + |ShowNat(n)| <= MaxStrDigits
    ensures ParseInt(ws1 + sign + (Zeros(zeros) + ShowNat(n)) + ws2)
      == Some(if sign == "-" then -(n as int) else n)
  {
    var d := Zeros(zeros) + ShowNat(n);
    LeadingZeros(zeros, ShowNat(n));
    ShowNatValue(n);
    assert SignedValue(sign, d) == if sign == "-" then -(n as int) else n;
    ParseGrammar(ws1, sign, d, ws2);
  }

  lemma {:induction false} LeadingZeros(zeros: nat, s: string)
    requires AllDigits(s)
    ensures AllDigits(Zeros(zeros) + s)
    ensures DigitsValue(Zeros(zeros) + s) == DigitsValue(s)
  {
    var z := Zeros(zeros);
    if s == [] {
      assert z + s == z;
      AllZeros(zeros);
    } else {
      var p := s[..|s| - 1];
      assert (z + s)[..|z + s| - 1] == z + p;
      LeadingZeros(zeros, p);
    }
  }

  lemma {:induction false} AllZeros(zeros: nat)
    ensures AllDigits(Zeros(zeros))
    ensures DigitsValue(Zeros(zeros)) == 0
  {
    if zeros > 0 {
      var z := Zeros(zeros);
      assert z[..zeros - 1] == Zeros(zeros - 1);
      AllZeros(zeros - 1);
    }
  }
}
