// Decimal numerals: what Number() makes of a string of digits.
module Numerals {

  predicate IsDigit(c: char) {
    '0' <= c <= '9'
  }

  /** One or more digits. */
  predicate Digits(s: string) {
    s != [] && forall i :: 0 <= i < |s| ==> IsDigit(s[i])
  }

  /** The number digits denote; Number('') is 0. */
  function Value(s: string): nat
    requires s == [] || Digits(s)
  {
    if s == [] then 0 else Value(s[..|s| - 1]) * 10 + (s[|s| - 1] - '0') as nat
  }

  function Digit(d: nat): char
    requires d < 10
  {
    '0' + d as char
  }

  /** A number written in base ten, without leading zeros. */
  function Written(n: nat): string {
    if n < 10 then [Digit(n)] else Written(n / 10) + [Digit(n % 10)]
  }

  function Zeros(z: nat): (s: string)
    ensures |s| == z
  {
    seq(z, _ => '0')
  }

  /** Writing a number and reading it back gives the number. */
  lemma {:induction false} ValueOfWritten(n: nat)
    ensures Digits(Written(n)) && Value(Written(n)) == n
  {
    if n >= 10 {
      ValueOfWritten(n / 10);
      assert Written(n)[..|Written(n)| - 1] == Written(n / 10);
    } else {
      assert Written(n)[..0] == [];
    }
  }

  /** Every string of digits is some zeros and then its value written out. */
  lemma {:induction false} DigitsAreWritten(s: string) returns (z: nat)
    requires Digits(s)
    ensures s == Zeros(z) + Written(Value(s))
  {
    var init, last := s[..|s| - 1], (s[|s| - 1] - '0') as nat;
    assert s == init + [Digit(last)];
    if init == [] {
      assert Value(init) == 0;
      z := 0;
    } else {
      assert Digits(init);
      z := DigitsAreWritten(init);
      if Value(init) == 0 {
        z := z + 1;
        assert init == Zeros(z);
      } else {
        assert Value(s) / 10 == Value(init) && Value(s) % 10 == last;
      }
    }
  }

  lemma DigitsExclude(s: string, c: char)
    requires Digits(s) && !IsDigit(c)
    ensures c !in s
  {
  }
}
