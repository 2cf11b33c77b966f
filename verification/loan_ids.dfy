/**
 * Loan identifiers: the service names the n-th loan "L" followed by the
 * decimal digits of n. Parsing the digits back gives n again, which is what
 * makes a freshly generated id distinct from every id already in the store.
 */
module LoanIds {

  predicate IsDigit(c: char) {
    '0' <= c <= '9'
  }

  predicate AllDigits(s: string) {
    forall i | 0 <= i < |s| :: IsDigit(s[i])
  }

  function DigitChar(d: nat): (c: char)
    requires d < 10
    ensures IsDigit(c)
  {
    (48 + d) as char
  }

  function DigitValue(c: char): (d: nat)
    requires IsDigit(c)
    ensures d < 10
  {
    (c as int) - 48
  }

  /** The decimal numeral of `n`, most significant digit first, as `std::to_string` writes it. */
  function Decimal(n: nat): (s: string)
    ensures 1 <= |s|
    ensures AllDigits(s)
    ensures n >= 10 ==> |s| >= 2
  {
    if n < 10 then [DigitChar(n)]
    else Decimal(n / 10) + [DigitChar(n % 10)]
  }

  /** The value of a string of decimal digits (the empty string reads as 0). */
  function ParseDecimal(s: string): nat
    requires AllDigits(s)
  {
    if |s| == 0 then 0
    else 10 * ParseDecimal(s[..|s| - 1]) + DigitValue(s[|s| - 1])
  }

  lemma {:induction false} ParseDecimalInvertsDecimal(n: nat)
    ensures ParseDecimal(Decimal(n)) == n
  {
    var s := Decimal(n);
    if n < 10 {
      assert s[..|s| - 1] == [];
    } else {
      assert s[..|s| - 1] == Decimal(n / 10);
      assert DigitValue(s[|s| - 1]) == n % 10;
      ParseDecimalInvertsDecimal(n / 10);
    }
  }

  /** The id of the n-th loan ever recorded. */
  function LoanId(n: nat): string {
    "L" + Decimal(n)
  }

  /** Keys of the shape the service generates: "L" followed by at least one digit. */
  predicate IsLoanKey(k: string) {
    |k| >= 2 && k[0] == 'L' && AllDigits(k[1..])
  }

  function LoanNumber(k: string): nat
    requires IsLoanKey(k)
  {
    ParseDecimal(k[1..])
  }

  lemma LoanNumberOfLoanId(n: nat)
    ensures IsLoanKey(LoanId(n))
    ensures LoanNumber(LoanId(n)) == n
  {
    assert LoanId(n)[1..] == Decimal(n);
    ParseDecimalInvertsDecimal(n);
  }

  lemma LoanIdInjective(m: nat, n: nat)
    ensures LoanId(m) == LoanId(n) <==> m == n
  {
    LoanNumberOfLoanId(m);
    LoanNumberOfLoanId(n);
  }
}
