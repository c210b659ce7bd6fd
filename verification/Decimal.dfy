/** Decimal printing as done by strconv.Itoa, strconv.FormatInt and the %d verb, and its inverse. */
module Decimal {
  import opened Common
  import opened Int64

  predicate IsDigit(c: char) {
    '0' <= c <= '9'
  }

  predicate AllDigits(s: string) {
    forall i | 0 <= i < |s| :: IsDigit(s[i])
  }

  function DigitChar(d: nat): (c: char)
    requires d < 10
    ensures IsDigit(c) && c as int - '0' as int == d
  {
    '0' + d as char
  }

  /** The digits of a natural number, most significant first. */
  function Format(n: nat): (s: string)
    ensures s != "" && AllDigits(s)
  {
    if n < 10 then [DigitChar(n)] else Format(n / 10) + [DigitChar(n % 10)]
  }

  /** The number a string of digits denotes. */
  function Value(s: string): nat
    requires AllDigits(s)
  {
    if s == "" then 0 else 10 * Value(s[..|s| - 1]) + (s[|s| - 1] as int - '0' as int)
  }

  lemma {:induction false} ValueOfFormat(n: nat)
    ensures Value(Format(n)) == n
  {
    if n >= 10 {
      ValueOfFormat(n / 10);
      assert Format(n)[..|Format(n)| - 1] == Format(n / 10);
    }
  }

  /** s is the number n in decimal, without leading zeros. */
  predicate Spells(s: string, n: nat) {
    s != "" && AllDigits(s) && Value(s) == n && (|s| > 1 ==> s[0] != '0')
  }

  lemma {:induction false} FormatSpells(n: nat)
    ensures Spells(Format(n), n) && (n > 0 ==> Format(n)[0] != '0')
  {
    ValueOfFormat(n);
    if n >= 10 {
      FormatSpells(n / 10);
    }
  }

  lemma {:induction false} LeadingDigitCounts(s: string)
    requires s != "" && AllDigits(s) && s[0] != '0'
    ensures Value(s) >= 1 && (|s| > 1 ==> Value(s) >= 10)
  {
    if |s| > 1 {
      LeadingDigitCounts(s[..|s| - 1]);
    }
  }

  /** A number below 10 is its digit. */
  lemma OneDigit(s: string, n: nat)
    requires Spells(s, n) && n < 10
    ensures s == ['0' + n as char]
  {
    if |s| > 1 {
      LeadingDigitCounts(s);
    } else {
      assert s[..0] == "" && Value("") == 0;
    }
  }

  lemma FormatInjective(a: nat, b: nat)
    requires Format(a) == Format(b)
    ensures a == b
  {
    ValueOfFormat(a);
    ValueOfFormat(b);
  }

  /** strconv.FormatInt(n, 10). */
  function FormatInt(n: int): (s: string)
    ensures s != ""
  {
    if n < 0 then "-" + Format(-n) else Format(n)
  }

  /** strconv.ParseUint(s, 10, 64): digits only, in range. */
  function ParseUint64(s: string): Option<nat> {
    if s != "" && AllDigits(s) && Value(s) < TWO_64 then Some(Value(s)) else None
  }

  /** strconv.ParseInt(s, 10, 64): an optional sign, then digits, in range. */
  function ParseInt64(s: string): Option<int> {
    var signed := s != "" && (s[0] == '-' || s[0] == '+');
    var digits := if signed then s[1..] else s;
    if digits == "" || !AllDigits(digits) then None
    else
      var v: int := if signed && s[0] == '-' then -(Value(digits) as int) else Value(digits);
      if Fits64(v) then Some(v) else None
  }

  lemma ParseOfFormat(n: nat)
    requires n < TWO_64
    ensures ParseUint64(Format(n)) == Some(n)
  {
    ValueOfFormat(n);
  }

  lemma ParseOfFormatInt(n: int)
    requires Fits64(n)
    ensures ParseInt64(FormatInt(n)) == Some(n)
  {
    if n < 0 {
      ValueOfFormat(-n);
      assert FormatInt(n)[1..] == Format(-n);
    } else {
      ValueOfFormat(n);
      assert IsDigit(Format(n)[0]);
    }
  }

  /** Numbers that do not fit are refused. */
  lemma ParseUnsignedIff(n: nat)
    ensures ParseUint64(Format(n)).Some? <==> n < TWO_64
  {
    ValueOfFormat(n);
  }

  lemma ParseNegativeIff(n: nat)
    ensures ParseInt64("-" + Format(n)).Some? <==> n <= TWO_63
  {
    ValueOfFormat(n);
    assert ("-" + Format(n))[1..] == Format(n);
  }

  lemma ParsePositiveIff(n: nat)
    ensures ParseInt64(Format(n)).Some? <==> n < TWO_63
  {
    ValueOfFormat(n);
    assert IsDigit(Format(n)[0]);
  }

  /** Either sign is read as one. */
  lemma ParseSigned(n: nat)
    requires Fits64(n)
    ensures ParseInt64("+" + Format(n)) == Some(n)
    ensures ParseInt64("-" + Format(n)) == Some(-(n as int))
  {
    ValueOfFormat(n);
    assert ("+" + Format(n))[1..] == Format(n);
    assert ("-" + Format(n))[1..] == Format(n);
  }

  /** Text that is no number is refused. */
  lemma ParseRefuses(s: string)
    ensures s == "" || !AllDigits(s) ==> ParseUint64(s) == None
    ensures s == "" || (s[0] != '+' && s[0] != '-' && !AllDigits(s)) ==> ParseInt64(s) == None
    ensures s == "+" || s == "-" ==> ParseInt64(s) == None
  {
  }
}
