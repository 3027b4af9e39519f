/** Decimal numerals: std::to_string and printing of numbers, and reading them back. */
module Text {

  function Digit(d: nat): char
    requires d < 10
  {
    '0' + d as char
  }

  predicate IsDigit(c: char) {
    '0' <= c <= '9'
  }

  function DigitValue(c: char): nat
    requires IsDigit(c)
  {
    (c - '0') as nat
  }

  function Decimal(n: nat): (s: string)
    ensures s != [] && forall c :: c in s ==> IsDigit(c)
  {
    if n < 10 then [Digit(n)] else Decimal(n / 10) + [Digit(n % 10)]
  }

  function ReadDecimal(s: string): nat
    requires forall c :: c in s ==> IsDigit(c)
  {
    if s == [] then 0 else 10 * ReadDecimal(s[..|s| - 1]) + DigitValue(s[|s| - 1])
  }

  /** Reading a printed number gives the number. */
  lemma {:induction false} ReadPrinted(n: nat)
    ensures ReadDecimal(Decimal(n)) == n
  {
    if n < 10 {
      assert Decimal(n)[..0] == [];
    } else {
      ReadPrinted(n / 10);
      assert Decimal(n)[..|Decimal(n)| - 1] == Decimal(n / 10);
    }
  }

  /** A number is printed without leading zeros. */
  lemma {:induction false} PrintedShort(n: nat)
    ensures n > 0 ==> Decimal(n)[0] != '0'
    ensures n == 0 ==> Decimal(n) == "0"
  {
    if n >= 10 {
      PrintedShort(n / 10);
      assert Decimal(n)[0] == Decimal(n / 10)[0];
    }
  }

  lemma {:induction false} PrintedApart(m: nat, n: nat)
    requires Decimal(m) == Decimal(n)
    ensures m == n
  {
    ReadPrinted(m);
    ReadPrinted(n);
  }
}
