/** Decimal numbers as printf writes them. */
module Decimals {

  function Digit(n: nat): char
    requires n < 10
  {
    '0' + n as char
  }

  function Decimal(n: nat): string {
    if n < 10 then [Digit(n)] else Decimal(n / 10) + [Digit(n % 10)]
  }

  lemma {:induction false} DecimalLast(n: nat)
    ensures |Decimal(n)| >= 1 && Decimal(n)[|Decimal(n)| - 1] == Digit(n % 10)
    ensures n >= 10 ==> |Decimal(n)| >= 2 && Decimal(n)[..|Decimal(n)| - 1] == Decimal(n / 10)
  {
    if n >= 10 { DecimalLast(n / 10); }
  }

  lemma {:induction false} DecimalInjective(j: nat, k: nat)
    ensures Decimal(j) == Decimal(k) ==> j == k
  {
    if Decimal(j) == Decimal(k) {
      DecimalLast(j);
      DecimalLast(k);
      if j >= 10 && k >= 10 { DecimalInjective(j / 10, k / 10); }
    }
  }

  /** n copies of c. */
  function Fill(c: char, n: nat): (s: string)
    ensures |s| == n
  {
    if n == 0 then "" else Fill(c, n - 1) + [c]
  }

  /** The number right-aligned in a field of five characters, or longer. */
  function Padded(c: char, n: nat): string {
    if |Decimal(n)| < 5 then Fill(c, 5 - |Decimal(n)|) + Decimal(n) else Decimal(n)
  }

  /** Five characters hold every number below 100000; a larger one takes as many as it has digits. */
  lemma {:induction false} PaddedWidth(c: char, n: nat)
    ensures n < 100000 <==> |Decimal(n)| <= 5
    ensures |Padded(c, n)| == if n < 100000 then 5 else |Decimal(n)|
  {
    assert Power(2) == 100 && Power(4) == 10000;
    DigitsOf(n, 100000, 5);
  }

  /** p is ten to the power d: the numbers below it have at most d digits. */
  lemma {:induction false} DigitsOf(n: nat, p: nat, d: nat)
    requires d >= 1 && p == Power(d)
    ensures n < p <==> |Decimal(n)| <= d
  {
    DecimalLast(n);
    if d > 1 && n >= 10 { DigitsOf(n / 10, p / 10, d - 1); }
    if d == 1 && n >= 10 { DecimalLast(n / 10); }
    if d > 1 { PowerGrows(d); }
  }

  function Power(d: nat): nat {
    if d == 0 then 1 else 10 * Power(d - 1)
  }

  lemma {:induction false} PowerGrows(d: nat)
    requires d > 0
    ensures Power(d) >= 10
  {
    if d > 1 { PowerGrows(d - 1); }
  }

  /** The value of a string of digits. */
  function Value(s: string): int {
    if |s| == 0 then 0 else 10 * Value(s[..|s| - 1]) + (s[|s| - 1] as int - '0' as int)
  }

  lemma {:induction false} ValueOfFilled(m: nat, n: nat)
    ensures Value(Fill('0', m) + Decimal(n)) == n
  {
    var d := Decimal(n);
    var f, c := Fill('0', m), d[|d| - 1];
    DecimalLast(n);
    if n >= 10 {
      ValueOfFilled(m, n / 10);
      assert f + d == (f + Decimal(n / 10)) + [c];
      ValueMore(f + Decimal(n / 10), c);
    } else {
      ValueOfZeros(m);
      assert d == [c];
      ValueMore(f, c);
    }
  }

  lemma {:induction false} ValueOfZeros(m: nat)
    ensures Value(Fill('0', m)) == 0
  {
    if m > 0 {
      ValueOfZeros(m - 1);
      var f := Fill('0', m - 1);
      ValueMore(f, '0');
      assert Fill('0', m) == f + ['0'];
    }
  }

  lemma {:induction false} ValueMore(s: string, c: char)
    ensures Value(s + [c]) == 10 * Value(s) + (c as int - '0' as int)
  {
    assert (s + [c])[..|s|] == s;
  }

  /** Zero-padded numbers are told apart. */
  lemma {:induction false} PaddedInjective(j: nat, k: nat)
    ensures Padded('0', j) == Padded('0', k) ==> j == k
  {
    PaddedValue(j);
    PaddedValue(k);
  }

  lemma {:induction false} PaddedValue(n: nat)
    ensures Value(Padded('0', n)) == n
  {
    ValueOfFilled(if |Decimal(n)| < 5 then 5 - |Decimal(n)| else 0, n);
    assert Fill('0', 0) + Decimal(n) == Decimal(n);
  }

  /** The string with its blanks replaced by zeros. */
  function Zeroed(s: string): (z: string)
    ensures |z| == |s|
  {
    seq(|s|, i requires 0 <= i < |s| => if s[i] == ' ' then '0' else s[i])
  }

  ghost predicate HasBlank(s: string) {
    exists i :: 0 <= i < |s| && s[i] == ' '
  }

  lemma {:induction false} ZeroedSame(s: string)
    ensures Zeroed(s) == s <==> !HasBlank(s)
  {
    if Zeroed(s) == s {
      forall i | 0 <= i < |s| ensures s[i] != ' ' {
        assert Zeroed(s)[i] == s[i];
      }
    }
  }

  lemma {:induction false} ZeroedFill(n: nat)
    ensures Zeroed(Fill(' ', n)) == Fill('0', n)
  {
    if n > 0 { ZeroedFill(n - 1); }
  }

  lemma {:induction false} DecimalNoBlank(n: nat)
    ensures !HasBlank(Decimal(n))
  {
    if n >= 10 {
      DecimalNoBlank(n / 10);
      var d := Decimal(n / 10);
      forall i | 0 <= i < |Decimal(n)| ensures Decimal(n)[i] != ' ' {
        if i < |d| { assert Decimal(n)[i] == d[i]; }
      }
    }
  }

  /** Blank padding with the blanks replaced is zero padding. */
  lemma {:induction false} ZeroedPadded(n: nat)
    ensures Zeroed(Padded(' ', n)) == Padded('0', n)
  {
    DecimalNoBlank(n);
    ZeroedSame(Decimal(n));
    if |Decimal(n)| < 5 {
      var m := 5 - |Decimal(n)|;
      ZeroedFill(m);
      assert Zeroed(Fill(' ', m) + Decimal(n)) == Zeroed(Fill(' ', m)) + Zeroed(Decimal(n));
    }
  }
}
