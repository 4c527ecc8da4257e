/**
 Go's `strconv.Atoi` as used by the trainee sort key: an optional sign, then one or more
 decimal digits, with the value required to fit Go's `int`, taken as 64 bits wide (a 64-bit
 build). Every other input is a syntax or range error.
 */
module Strconv {
  import opened Wrappers

  /** Bounds of a 64-bit Go `int`. */
  const MinInt: int := -0x8000_0000_0000_0000
  const MaxInt: int := 0x7fff_ffff_ffff_ffff

  predicate InIntRange(n: int) {
    MinInt <= n <= MaxInt
  }

  predicate IsDigit(c: char) {
    '0' <= c <= '9'
  }

  predicate IsDigits(s: string) {
    forall i | 0 <= i < |s| :: IsDigit(s[i])
  }

  function DigitValue(c: char): (d: nat)
    requires IsDigit(c)
    ensures d < 10
  {
    c as int - '0' as int
  }

  function DigitChar(d: nat): (c: char)
    requires d < 10
    ensures IsDigit(c) && DigitValue(c) == d
  {
    ('0' as int + d) as char
  }

  /** The value of a digit string, accumulated left to right as `n = n*10 + digit`. */
  function DigitsValue(s: string): nat
    requires IsDigits(s)
    decreases |s|
  {
    if |s| == 0 then 0 else DigitsValue(s[..|s| - 1]) * 10 + DigitValue(s[|s| - 1])
  }

  /** `k` copies of the digit zero. */
  function Zeros(k: nat): (z: string)
    ensures |z| == k && IsDigits(z)
  {
    seq(k, _ => '0')
  }

  /** The leading sign of `s`, if it has one: `""`, `"+"` or `"-"`. */
  function Sign(s: string): (r: string)
    ensures r == "" || r == "+" || r == "-"
  {
    if |s| > 0 && (s[0] == '+' || s[0] == '-') then s[..1] else ""
  }

  /** `s` with its sign removed. */
  function Unsigned(s: string): (r: string)
    ensures Sign(s) + r == s
  {
    s[|Sign(s)|..]
  }

  /**
   Parses `s` as a decimal integer. `None` is Atoi's error return: the empty string, a
   sign with no digits, any non-digit character, or a value outside the `int` range.
   */
  function Atoi(s: string): (r: Option<int>)
    ensures r.Some? ==> InIntRange(r.value)
    ensures r.Some? ==> |Unsigned(s)| > 0 && IsDigits(Unsigned(s))
  {
    if |s| == 0 then None
    else
      var digits := Unsigned(s);
      if |digits| == 0 || !IsDigits(digits) then None
      else
        var n := Signed(Sign(s), DigitsValue(digits));
        if MinInt <= n <= MaxInt then Some(n) else None
  }

  /** A magnitude with a sign applied; only `"-"` negates. */
  function Signed(sign: string, m: nat): (n: int)
    ensures Abs(n) == m
    ensures sign == "-" ==> n <= 0
    ensures sign != "-" ==> n >= 0
  {
    if sign == "-" then -(m as int) else m
  }

  /** The canonical decimal form of a natural number: no sign, no leading zeros. */
  function FormatNat(n: nat): (s: string)
    ensures |s| > 0 && IsDigits(s)
    decreases n
  {
    if n < 10 then [DigitChar(n)] else FormatNat(n / 10) + [DigitChar(n % 10)]
  }

  /** The canonical decimal form of an integer, as `strconv.Itoa` writes it. */
  function FormatInt(n: int): (s: string)
    ensures |s| > 0
  {
    if n < 0 then "-" + FormatNat(-n) else FormatNat(n)
  }

  function Abs(n: int): nat {
    if n < 0 then -n else n
  }

  /** The number of redundant leading zeros of a digit string (a lone "0" has none). */
  function LeadingZeros(s: string): (k: nat)
    ensures k <= |s|
  {
    if |s| > 1 && s[0] == '0' then 1 + LeadingZeros(s[1..]) else 0
  }

  lemma {:induction false} ZerosValue(k: nat)
    ensures DigitsValue(Zeros(k)) == 0
    decreases k
  {
    if k > 0 {
      assert Zeros(k)[..k - 1] == Zeros(k - 1);
      ZerosValue(k - 1);
    }
  }

  /** Leading zeros do not change the value of a digit string. */
  lemma {:induction false} PaddedValue(k: nat, d: string)
    requires IsDigits(d)
    ensures IsDigits(Zeros(k) + d)
    ensures DigitsValue(Zeros(k) + d) == DigitsValue(d)
    decreases |d|
  {
    var p := Zeros(k) + d;
    assert IsDigits(p) by {
      forall i | 0 <= i < |p| ensures IsDigit(p[i]) {
        if i >= k { assert p[i] == d[i - k]; }
      }
    }
    if |d| == 0 {
      assert p == Zeros(k);
      ZerosValue(k);
    } else {
      assert p[..|p| - 1] == Zeros(k) + d[..|d| - 1];
      assert p[|p| - 1] == d[|d| - 1];
      PaddedValue(k, d[..|d| - 1]);
    }
  }

  /** Reading back a canonical decimal form gives the number it was written from. */
  lemma {:induction false} FormatNatValue(n: nat)
    ensures DigitsValue(FormatNat(n)) == n
    decreases n
  {
    var s := FormatNat(n);
    if n >= 10 {
      assert s[..|s| - 1] == FormatNat(n / 10);
      assert s[|s| - 1] == DigitChar(n % 10);
      FormatNatValue(n / 10);
    }
  }

  /** A digit string without a redundant leading zero is the canonical form of its value. */
  lemma {:induction false} CanonicalDigits(d: string)
    requires IsDigits(d) && |d| > 0
    requires |d| == 1 || d[0] != '0'
    ensures FormatNat(DigitsValue(d)) == d
    decreases |d|
  {
    var last := d[|d| - 1];
    if |d| == 1 {
      assert d[..0] == [];
      assert DigitChar(DigitValue(last)) == last;
      assert d == [last];
    } else {
      var p := d[..|d| - 1];
      assert p[0] == d[0];
      CanonicalDigits(p);
      var v := DigitsValue(p);
      assert v != 0;
      var n := v * 10 + DigitValue(last);
      assert n / 10 == v && n % 10 == DigitValue(last);
      assert DigitChar(DigitValue(last)) == last;
      assert d == p + [last];
    }
  }

  /** Every digit string is its value's canonical form behind some zeros. */
  lemma {:induction false} DigitsDecompose(d: string)
    requires IsDigits(d) && |d| > 0
    ensures d == Zeros(LeadingZeros(d)) + FormatNat(DigitsValue(d))
    decreases |d|
  {
    if |d| > 1 && d[0] == '0' {
      var rest := d[1..];
      DigitsDecompose(rest);
      assert d == Zeros(1) + rest;
      PaddedValue(1, rest);
      var l := LeadingZeros(rest);
      var f := FormatNat(DigitsValue(rest));
      assert LeadingZeros(d) == 1 + l;
      assert DigitsValue(d) == DigitsValue(rest);
      assert Zeros(1 + l) == Zeros(1) + Zeros(l);
      calc {
        d;
        Zeros(1) + rest;
        Zeros(1) + (Zeros(l) + f);
        Zeros(1) + Zeros(l) + f;
        Zeros(1 + l) + f;
      }
    } else {
      CanonicalDigits(d);
      assert Zeros(0) + FormatNat(DigitsValue(d)) == FormatNat(DigitsValue(d));
    }
  }

  /** The sign and digits of a signed numeral can be read back from it. */
  lemma SplitSign(sign: string, digits: string)
    requires sign == "" || sign == "+" || sign == "-"
    requires |digits| > 0 && IsDigit(digits[0])
    ensures Sign(sign + digits) == sign
    ensures Unsigned(sign + digits) == digits
  {
    var s := sign + digits;
    if sign == "" {
      assert s == digits;
    } else {
      assert s[0] == sign[0] && s[..1] == sign && s[1..] == digits;
    }
  }

  /**
   Atoi accepts every optionally signed, optionally zero-padded decimal form of an
   in-range integer, and returns that integer.
   */
  lemma {:induction false} AtoiAcceptsPadded(sign: string, k: nat, m: nat)
    requires sign == "" || sign == "+" || sign == "-"
    requires InIntRange(Signed(sign, m))
    ensures Atoi(sign + Zeros(k) + FormatNat(m)) == Some(Signed(sign, m))
  {
    var digits := Zeros(k) + FormatNat(m);
    assert sign + Zeros(k) + FormatNat(m) == sign + digits;
    PaddedValue(k, FormatNat(m));
    FormatNatValue(m);
    assert IsDigit(digits[0]);
    SplitSign(sign, digits);
    assert Sign(sign + digits) == sign && Unsigned(sign + digits) == digits;
    assert IsDigits(digits) && DigitsValue(digits) == m;
  }

  /** The same forms are a range error when the integer does not fit in an `int`. */
  lemma {:induction false} AtoiRejectsOutOfRange(sign: string, k: nat, m: nat)
    requires sign == "" || sign == "+" || sign == "-"
    requires !InIntRange(Signed(sign, m))
    ensures Atoi(sign + Zeros(k) + FormatNat(m)) == None
  {
    var digits := Zeros(k) + FormatNat(m);
    assert sign + Zeros(k) + FormatNat(m) == sign + digits;
    PaddedValue(k, FormatNat(m));
    FormatNatValue(m);
    assert IsDigit(digits[0]);
    SplitSign(sign, digits);
    assert Sign(sign + digits) == sign && Unsigned(sign + digits) == digits;
    assert IsDigits(digits) && DigitsValue(digits) == m;
  }

  /**
   Conversely, whatever Atoi accepts is such a form: its sign, redundant zeros, and the
   canonical digits of the magnitude it returns.
   */
  lemma {:induction false} AtoiAcceptsOnlyPadded(s: string)
    requires Atoi(s).Some?
    ensures s == Sign(s) + Zeros(LeadingZeros(Unsigned(s))) + FormatNat(Abs(Atoi(s).value))
    ensures Atoi(s).value == Signed(Sign(s), Abs(Atoi(s).value))
  {
    var u := Unsigned(s);
    DigitsDecompose(u);
    assert Abs(Atoi(s).value) == DigitsValue(u);
  }

  /** Round trip: Atoi reads back what Itoa writes, for every in-range integer. */
  lemma AtoiFormatInt(n: int)
    requires InIntRange(n)
    ensures Atoi(FormatInt(n)) == Some(n)
  {
    assert Zeros(0) == "";
    if n < 0 {
      var m: nat := -n;
      assert Signed("-", m) == n;
      AtoiAcceptsPadded("-", 0, m);
      assert "-" + Zeros(0) + FormatNat(m) == "-" + FormatNat(m) == FormatInt(n);
    } else {
      var m: nat := n;
      assert Signed("", m) == n;
      AtoiAcceptsPadded("", 0, m);
      assert "" + Zeros(0) + FormatNat(m) == FormatNat(m) == FormatInt(n);
    }
  }

  /** Inputs Atoi refuses for their syntax: no digits, or a character that is not one. */
  lemma AtoiRejectsSyntax()
    ensures Atoi("") == None
    ensures Atoi("+") == None && Atoi("-") == None
    ensures Atoi("1a") == None && Atoi(" 1") == None && Atoi("1_000") == None
    ensures Atoi("--1") == None && Atoi("+-1") == None
  {
    assert !IsDigits("1a") by { assert !IsDigit("1a"[1]); }
    assert !IsDigits(" 1") by { assert !IsDigit(" 1"[0]); }
    assert !IsDigits("1_000") by { assert !IsDigit("1_000"[1]); }
    assert !IsDigits("-1") by { assert !IsDigit("-1"[0]); }
    assert Unsigned("--1") == "-1";
    assert Unsigned("+-1") == "-1";
    assert Unsigned("1a") == "1a";
    assert Unsigned(" 1") == " 1";
    assert Unsigned("1_000") == "1_000";
  }
}
