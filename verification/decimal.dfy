/**
 * Decimal text for integers: `fmt.Sprint` of an `int` and `strconv.Atoi`,
 * the two conversions the program applies to whole numbers.
 */
module Decimal {
  import opened Wrappers

  /** The bounds of Go's 64-bit `int`. */
  const MinInt: int := -0x8000_0000_0000_0000
  const MaxInt: int := 0x7FFF_FFFF_FFFF_FFFF

  predicate IsDigit(c: char) {
    '0' <= c <= '9'
  }

  predicate AllDigits(s: string) {
    forall i :: 0 <= i < |s| ==> IsDigit(s[i])
  }

  function DigitChar(d: int): (c: char)
    requires 0 <= d < 10
    ensures IsDigit(c)
  {
    (48 + d) as char
  }

  function DigitValue(c: char): (d: int)
    requires IsDigit(c)
    ensures 0 <= d < 10
  {
    c as int - 48
  }

  lemma DigitRoundTrip(d: int)
    requires 0 <= d < 10
    ensures DigitValue(DigitChar(d)) == d
  {
  }

  function Pow10(k: nat): (p: nat)
    ensures p >= 1
  {
    if k == 0 then 1 else 10 * Pow10(k - 1)
  }

  /** The number a string of decimal digits denotes, most significant first. */
  function DigitsValue(s: string): (v: nat)
    requires AllDigits(s)
    ensures v < Pow10(|s|)
  {
    if |s| == 0 then 0
    else DigitsValue(s[..|s| - 1]) * 10 + DigitValue(s[|s| - 1])
  }

  /** The shortest decimal representation of a natural number. */
  function NatToString(n: nat): (s: string)
    ensures |s| >= 1 && AllDigits(s)
    decreases n
  {
    if n < 10 then [DigitChar(n)]
    else NatToString(n / 10) + [DigitChar(n % 10)]
  }

  /**
   * `NatToString` is exact and shortest: its digits denote `n`, and it has
   * no leading zero (so one more digit than the power of ten below `n`).
   */
  lemma {:induction false} NatToStringMeaning(n: nat)
    ensures DigitsValue(NatToString(n)) == n
    ensures n < Pow10(|NatToString(n)|)
    ensures |NatToString(n)| > 1 ==> Pow10(|NatToString(n)| - 1) <= n
  {
    var s := NatToString(n);
    if n >= 10 {
      NatToStringMeaning(n / 10);
      var p := NatToString(n / 10);
      assert s[..|s| - 1] == p;
      DigitRoundTrip(n % 10);
    } else {
      DigitRoundTrip(n);
    }
  }

  /** The number of decimal digits of `n` is `k` exactly when `n` lies in [10^(k-1), 10^k). */
  lemma DigitCount(n: nat, k: nat)
    requires 1 <= k
    requires n < Pow10(k)
    requires k > 1 ==> Pow10(k - 1) <= n
    ensures |NatToString(n)| == k
  {
    NatToStringMeaning(n);
    var m := |NatToString(n)|;
    if m < k {
      Pow10Monotone(m, k - 1);
    } else if m > k {
      Pow10Monotone(k, m - 1);
    }
  }

  lemma {:induction false} Pow10Monotone(i: nat, j: nat)
    requires i <= j
    ensures Pow10(i) <= Pow10(j)
    decreases j
  {
    if i < j {
      Pow10Monotone(i, j - 1);
    }
  }

  /** `fmt.Sprint(n)` for an `int`: the digits of |n|, after a minus sign when n is negative. */
  function Itoa(n: int): (s: string)
    ensures |s| >= 1
  {
    if n < 0 then "-" + NatToString(-n) else NatToString(n)
  }

  /** The text of an `int` contains only digits and a leading minus sign. */
  lemma ItoaCharacters(n: int)
    ensures forall i :: 0 <= i < |Itoa(n)| ==> IsDigit(Itoa(n)[i]) || (i == 0 && Itoa(n)[i] == '-')
  {
  }

  /** The length of `fmt.Sprint(n)` for a non-negative `n`: four or more digits from 1000, five or more from 10000. */
  lemma ItoaLength(n: nat)
    ensures n < 1000 ==> |Itoa(n)| <= 3
    ensures 1000 <= n < 10000 ==> |Itoa(n)| == 4
    ensures 10000 <= n ==> |Itoa(n)| >= 5
    ensures 10000 <= n < 100000 ==> |Itoa(n)| == 5
    ensures 100000 <= n ==> |Itoa(n)| >= 6
  {
    NatToStringMeaning(n);
    var m := |NatToString(n)|;
    assert Pow10(3) == 1000 && Pow10(4) == 10000 && Pow10(5) == 100000 && Pow10(6) == 1000000;
    if n < 1000 && m > 3 {
      Pow10Monotone(3, m - 1);
    }
    if 1000 <= n < 10000 {
      DigitCount(n, 4);
    }
    if 10000 <= n && m < 5 {
      Pow10Monotone(m, 4);
    }
    if 10000 <= n < 100000 {
      DigitCount(n, 5);
    }
    if 100000 <= n && m < 6 {
      Pow10Monotone(m, 5);
    }
  }

  /** Digits with an optional sign, as `strconv.Atoi` accepts them, before the range check. */
  function ParseSigned(s: string): (r: Option<int>)
    ensures r.Some? ==> |s| >= 1
  {
    if |s| == 0 then None
    else if s[0] == '+' || s[0] == '-' then
      var body := s[1..];
      if |body| == 0 || !AllDigits(body) then None
      else if s[0] == '-' then Some(-(DigitsValue(body) as int))
      else Some(DigitsValue(body))
    else if AllDigits(s) then Some(DigitsValue(s))
    else None
  }

  /**
   * `strconv.Atoi`: an optional `+` or `-`, then one or more decimal digits
   * and nothing else, whose value fits a 64-bit `int`; anything else is an
   * error.
   */
  function Atoi(s: string): (r: Option<int>)
    ensures r.Some? ==> MinInt <= r.value <= MaxInt
    ensures |s| == 0 ==> r.None?
    ensures AllDigits(s) && |s| >= 1 && DigitsValue(s) <= MaxInt ==> r == Some(DigitsValue(s))
  {
    match ParseSigned(s)
    case None => None
    case Some(v) => if MinInt <= v <= MaxInt then Some(v) else None
  }

  /** `strconv.Atoi` reads back what `fmt.Sprint` writes, for every 64-bit `int`. */
  lemma AtoiItoa(n: int)
    requires MinInt <= n <= MaxInt
    ensures Atoi(Itoa(n)) == Some(n)
  {
    if n < 0 {
      NatToStringMeaning(-n);
      assert Itoa(n)[1..] == NatToString(-n);
    } else {
      NatToStringMeaning(n);
    }
  }

  /** A string with a character that is neither a digit nor a leading sign is rejected. */
  lemma AtoiRejectsNonDigit(s: string, i: int)
    requires 0 <= i < |s| && !IsDigit(s[i])
    requires i > 0 || (s[i] != '+' && s[i] != '-')
    ensures Atoi(s) == None
  {
    if |s| >= 1 && (s[0] == '+' || s[0] == '-') {
      assert i >= 1 && s[1..][i - 1] == s[i];
    }
  }
}
