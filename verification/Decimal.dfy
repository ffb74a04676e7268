/** Whole numbers as Rust writes and reads them in decimal. */
module Decimal {

  predicate IsDigit(c: char) { '0' <= c <= '9' }

  function DigitValue(c: char): nat
    requires IsDigit(c)
  {
    c as nat - '0' as nat
  }

  function DigitOf(d: nat): (c: char)
    requires d < 10
    ensures IsDigit(c) && DigitValue(c) == d
  {
    ('0' as nat + d) as char
  }

  /** `n` in decimal, without leading zeros. */
  function Digits(n: nat): (s: string)
    ensures |s| > 0 && forall i :: 0 <= i < |s| ==> IsDigit(s[i])
  {
    if n < 10 then [DigitOf(n)] else Digits(n / 10) + [DigitOf(n % 10)]
  }

  predicate AllDigits(s: string) {
    forall i :: 0 <= i < |s| ==> IsDigit(s[i])
  }

  function Value(s: string): nat
    requires AllDigits(s)
  {
    if s == [] then 0 else 10 * Value(s[..|s| - 1]) + DigitValue(s[|s| - 1])
  }

  datatype Parsed = Number(value: nat) | NotANumber

  /** Rust's `parse` to an unsigned integer below `limit`: digits, after at most
      one plus sign. */
  function Parse(s: string, limit: nat): (r: Parsed)
    ensures r.Number? ==> r.value < limit
  {
    var digits := if |s| > 0 && s[0] == '+' then s[1..] else s;
    if digits == [] || !AllDigits(digits) || Value(digits) >= limit then NotANumber
    else Number(Value(digits))
  }

  lemma {:induction false} ValueOfDigits(n: nat)
    ensures Value(Digits(n)) == n
  {
    var s := Digits(n);
    if n >= 10 {
      ValueOfDigits(n / 10);
      assert s[..|s| - 1] == Digits(n / 10) && s[|s| - 1] == DigitOf(n % 10);
    } else {
      assert s[..0] == [];
    }
  }

  /** Without leading zeros. */
  lemma {:induction false} DigitsLead(n: nat)
    ensures n > 0 ==> Digits(n)[0] != '0'
    ensures n == 0 ==> Digits(n) == "0"
  {
    if n >= 10 { DigitsLead(n / 10); }
  }

  /** In decimal. */
  lemma DigitsOfYear()
    ensures Digits(1970) == "1970" && Value("1970") == 1970
  {
    assert Digits(197) == Digits(19) + ['7'] && Digits(19) == ['1'] + ['9'];
    assert Digits(1970) == "1970";
    ValueOfDigits(1970);
  }

  /** Reading undoes writing. */
  lemma ParseDigits(n: nat, limit: nat)
    ensures Parse(Digits(n), limit) == if n < limit then Number(n) else NotANumber
  {
    ValueOfDigits(n);
    assert IsDigit(Digits(n)[0]);
  }

  /** A numeral that stands for `n`: digits, perhaps after a plus sign. */
  ghost predicate Numeral(s: string, n: nat) {
    exists digits :: (s == digits || s == "+" + digits) && DigitsFor(digits, n)
  }

  predicate DigitsFor(digits: string, n: nat) {
    digits != "" && AllDigits(digits) && Value(digits) == n
  }

  /** What is read as `n` are its numerals. */
  lemma ParseReads(s: string, limit: nat, n: nat)
    ensures Parse(s, limit) == Number(n) <==> n < limit && Numeral(s, n)
  {
    var digits := if |s| > 0 && s[0] == '+' then s[1..] else s;
    assert |s| > 0 && s[0] == '+' ==> s == "+" + digits;
    if Parse(s, limit) == Number(n) { assert DigitsFor(digits, n); }
    if Numeral(s, n) {
      var other :| (s == other || s == "+" + other) && DigitsFor(other, n);
      assert IsDigit(other[0]);
      assert s == "+" + other ==> s[1..] == other;
      assert other == digits;
    }
  }
}
