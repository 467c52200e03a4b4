/** Kotlin's `Int.toString()` in base 10, as used by string templates: the digits of the
    magnitude without leading zeros, behind a '-' for a negative number. A reader for that
    text is given alongside so that the rendering can be shown to lose nothing. */
module DecimalText {
  import opened Wrappers

  predicate IsDigit(c: char) {
    '0' <= c <= '9'
  }

  function DigitChar(n: int): (c: char)
    requires 0 <= n < 10
    ensures IsDigit(c)
  {
    ['0', '1', '2', '3', '4', '5', '6', '7', '8', '9'][n]
  }

  function DigitValue(c: char): (n: int)
    requires IsDigit(c)
    ensures 0 <= n < 10
  {
    c as int - '0' as int
  }

  /** The decimal digits of n, most significant first. */
  function Digits(n: nat): (s: string)
    ensures |s| >= 1 && forall i :: 0 <= i < |s| ==> IsDigit(s[i])
    ensures n > 0 ==> s[0] != '0'
    decreases n
  {
    if n < 10 then [DigitChar(n)] else Digits(n / 10) + [DigitChar(n % 10)]
  }

  /** `n.toString()`. */
  function DecimalString(n: int): (s: string)
    ensures |s| >= 1
    ensures s[0] == '-' <==> n < 0
  {
    if n < 0 then "-" + Digits(-n) else Digits(n)
  }

  /** The number a string of digits denotes. */
  function DigitsValue(s: string): nat
    requires forall i :: 0 <= i < |s| ==> IsDigit(s[i])
  {
    if s == [] then 0 else DigitsValue(s[..|s| - 1]) * 10 + DigitValue(s[|s| - 1])
  }

  /** The length of the run of digits that starts s. */
  function DigitRun(s: string): (k: nat)
    ensures k <= |s| && forall i :: 0 <= i < k ==> IsDigit(s[i])
    ensures k < |s| ==> !IsDigit(s[k])
  {
    if s == [] || !IsDigit(s[0]) then 0 else 1 + DigitRun(s[1..])
  }

  /** Reads the run of digits at the front of s, if there is one; returns its value and
      the text after it. */
  function ReadNat(s: string): Option<(int, string)> {
    var k := DigitRun(s);
    if k == 0 then None else Some((DigitsValue(s[..k]), s[k..]))
  }

  /** Reads an optionally negative decimal number from the front of s, taking every digit
      there is; returns the number and the text after it. */
  function ReadInt(s: string): Option<(int, string)> {
    if |s| > 0 && s[0] == '-' then
      match ReadNat(s[1..])
      case None => None
      case Some((m, tail)) => Some((-m, tail))
    else
      match ReadNat(s)
      case None => None
      case Some((m, tail)) => Some((m, tail))
  }

  lemma {:induction false} DigitsValueOfDigits(n: nat)
    ensures DigitsValue(Digits(n)) == n
    decreases n
  {
    if n >= 10 {
      DigitsValueOfDigits(n / 10);
      var s := Digits(n);
      assert s[..|s| - 1] == Digits(n / 10);
    }
  }

  lemma {:induction false} DigitRunOfDigits(ds: string, rest: string)
    requires forall i :: 0 <= i < |ds| ==> IsDigit(ds[i])
    requires rest == [] || !IsDigit(rest[0])
    ensures DigitRun(ds + rest) == |ds|
    decreases |ds|
  {
    if ds != [] {
      assert (ds + rest)[1..] == ds[1..] + rest;
      DigitRunOfDigits(ds[1..], rest);
    } else {
      assert ds + rest == rest;
    }
  }

  /** The digits of m, followed by anything that does not start with a digit, are read
      back as m and that remainder. */
  lemma ReadDigits(m: nat, rest: string)
    requires rest == [] || !IsDigit(rest[0])
    ensures ReadNat(Digits(m) + rest) == Some((m, rest))
  {
    var ds := Digits(m);
    DigitRunOfDigits(ds, rest);
    DigitsValueOfDigits(m);
    assert (ds + rest)[..|ds|] == ds && (ds + rest)[|ds|..] == rest;
  }

  /** Reading back the decimal text of n, followed by anything that does not start with a
      digit, gives n and that remainder. */
  lemma ReadDecimalString(n: int, rest: string)
    requires rest == [] || !IsDigit(rest[0])
    ensures ReadInt(DecimalString(n) + rest) == Some((n, rest))
  {
    if n < 0 {
      ReadNegative(n, rest);
    } else {
      var t := Digits(n) + rest;
      assert ReadNat(t) == Some((n, rest)) by {
        ReadDigits(n, rest);
      }
      ReadWithoutSign(t, n, rest);
    }
  }

  lemma ReadNegative(n: int, rest: string)
    requires n < 0
    requires rest == [] || !IsDigit(rest[0])
    ensures ReadInt(DecimalString(n) + rest) == Some((n, rest))
  {
    var ds := Digits(-n);
    assert ReadNat(ds + rest) == Some((-n, rest)) by {
      ReadDigits(-n, rest);
    }
    ReadAfterSign(ds, rest, -n, rest);
  }

  /** A '-' in front of a number negates it. */
  lemma ReadAfterSign(ds: string, tail: string, m: int, rest: string)
    requires ReadNat(ds + tail) == Some((m, rest))
    ensures ReadInt("-" + ds + tail) == Some((-m, rest))
  {
    assert ("-" + ds + tail)[1..] == ds + tail;
  }

  /** A number without a sign reads as itself. */
  lemma ReadWithoutSign(t: string, m: int, rest: string)
    requires ReadNat(t) == Some((m, rest))
    ensures ReadInt(t) == Some((m, rest))
  {
    assert IsDigit(t[0]);
  }
}
