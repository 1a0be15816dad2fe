/** Decimal numerals as Go prints (`%d`, `itoa`) and parses (`strconv.Atoi`) them. */
module Decimals {
  import opened Core

  function Digit(d: nat): char
    requires d < 10
  {
    ['0', '1', '2', '3', '4', '5', '6', '7', '8', '9'][d]
  }

  function Decimal(i: nat): string {
    if i < 10 then [Digit(i)] else Decimal(i / 10) + [Digit(i % 10)]
  }

  lemma DecimalStep(i: nat)
    ensures i < 10 ==> Decimal(i) == [Digit(i)]
    ensures i >= 10 ==> Decimal(i) == Decimal(i / 10) + [Digit(i % 10)]
  {
  }

  predicate AllDigits(s: string) {
    forall i :: 0 <= i < |s| ==> '0' <= s[i] <= '9'
  }

  /** The number a digit string stands for. */
  function Parse(s: string): nat
    requires AllDigits(s)
  {
    if s == "" then 0
    else Parse(s[..|s| - 1]) * 10 + (s[|s| - 1] as int - '0' as int)
  }

  lemma ParseEmpty()
    ensures Parse("") == 0
  {
  }

  lemma ParseSnoc(s: string, d: nat)
    requires AllDigits(s) && d < 10
    ensures AllDigits(s + [Digit(d)]) && Parse(s + [Digit(d)]) == Parse(s) * 10 + d
  {
    var t := s + [Digit(d)];
    assert t[..|t| - 1] == s;
  }

  /** Parsing inverts printing. */
  lemma {:induction false} ParseDecimal(i: nat)
    ensures Decimal(i) != "" && AllDigits(Decimal(i)) && Parse(Decimal(i)) == i
  {
    hide Parse;
    if i >= 10 {
      ParseDecimal(i / 10);
      ParseSnoc(Decimal(i / 10), i % 10);
    } else {
      ParseEmpty();
      ParseSnoc("", i);
      assert "" + [Digit(i)] == Decimal(i);
    }
  }

  const INT_LIMIT := 0x8000_0000_0000_0000

  /** `strconv.Atoi`: an optional sign, at least one digit, nothing else, within 64 bits. */
  function Atoi(s: string): Option<int> {
    var signed := s != "" && (s[0] == '-' || s[0] == '+');
    var digits := if signed then s[1..] else s;
    if digits == "" || !AllDigits(digits) then None
    else
      var n: int := if signed && s[0] == '-' then 0 - Parse(digits) else Parse(digits);
      if -INT_LIMIT <= n < INT_LIMIT then Some(n) else None
  }

  /** A numeral with a sign, of either kind. */
  lemma AtoiSigned(i: nat)
    ensures Atoi("-" + Decimal(i)) == if i <= 0x8000_0000_0000_0000 then Some(0 - i) else None
    ensures Atoi("+" + Decimal(i)) == if i < 0x8000_0000_0000_0000 then Some(i) else None
  {
    hide Parse;
    ParseDecimal(i);
    assert ("-" + Decimal(i))[1..] == Decimal(i) && ("+" + Decimal(i))[1..] == Decimal(i);
  }

  /** Nothing else is a number: no digits, or something that is no digit after the sign. */
  lemma AtoiRefuses(s: string, i: nat)
    ensures Atoi("") == Atoi("-") == Atoi("+") == None
    ensures 0 < i < |s| && !('0' <= s[i] <= '9') ==> Atoi(s) == None
    ensures s != "" && s[0] != '-' && s[0] != '+' && !('0' <= s[0] <= '9') ==> Atoi(s) == None
  {
    if 0 < i < |s| { assert s[1..][i - 1] == s[i]; }
  }

  lemma AtoiDecimal(i: nat)
    ensures Atoi(Decimal(i)) == if i < 0x8000_0000_0000_0000 then Some(i) else None
  {
    ParseDecimal(i);
  }
}
