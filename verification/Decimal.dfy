/** Decimal integer text: the languages the command line recognises, the
    integer each text denotes, and the canonical text of an integer. */
module Decimal {

  predicate IsDigit(c: char) {
    '0' <= c <= '9'
  }

  function DigitValue(c: char): nat
    requires IsDigit(c)
  {
    c as nat - '0' as nat
  }

  function DigitChar(d: nat): (c: char)
    requires d < 10
    ensures IsDigit(c) && DigitValue(c) == d
  {
    (d + '0' as nat) as char
  }

  predicate AllDigits(s: string) {
    forall i :: 0 <= i < |s| ==> IsDigit(s[i])
  }

  /** One or more digits. */
  predicate Digits(s: string) {
    s != "" && AllDigits(s)
  }

  /** Digits with an optional leading plus. */
  predicate PlusDigits(s: string) {
    Digits(s) || (s != "" && s[0] == '+' && Digits(s[1..]))
  }

  /** Digits with an optional leading sign. */
  predicate SignedDigits(s: string) {
    PlusDigits(s) || (s != "" && s[0] == '-' && Digits(s[1..]))
  }

  function NatValue(s: string): nat
    requires AllDigits(s)
  {
    if s == "" then 0 else 10 * NatValue(s[..|s| - 1]) + DigitValue(s[|s| - 1])
  }

  /** The integer that JavaScript's BigInt constructor gives for signed digits. */
  function BigInt(s: string): int
    requires SignedDigits(s)
  {
    var magnitude: int := NatValue(if s[0] in "+-" then s[1..] else s);
    if s[0] == '-' then -magnitude else magnitude
  }

  /** The canonical decimal text of a natural number, without leading zeros. */
  function NatText(n: nat): (s: string)
    ensures Digits(s)
  {
    if n < 10 then [DigitChar(n)] else NatText(n / 10) + [DigitChar(n % 10)]
  }

  function IntText(n: int): string {
    if n < 0 then "-" + NatText(-n) else NatText(n)
  }

  function Zeros(k: nat): (s: string)
    ensures |s| == k && AllDigits(s)
  {
    seq(k, _ => '0')
  }

  /** s is the given sign, then any number of zeros, then the canonical text of n. */
  ghost predicate Spells(s: string, sign: string, n: nat) {
    exists zeros: nat :: s == sign + (Zeros(zeros) + NatText(n))
  }

  lemma {:induction false} TextHasItsValue(n: nat)
    ensures NatValue(NatText(n)) == n
  {
    if n >= 10 {
      TextHasItsValue(n / 10);
      assert NatText(n)[..|NatText(n)| - 1] == NatText(n / 10);
    }
  }

  lemma TextIsInjective(m: nat, n: nat)
    requires NatText(m) == NatText(n)
    ensures m == n
  {
    TextHasItsValue(m);
    TextHasItsValue(n);
  }

  lemma {:induction false} PaddingKeepsTheValue(k: nat, s: string)
    requires AllDigits(s)
    ensures AllDigits(Zeros(k) + s) && NatValue(Zeros(k) + s) == NatValue(s)
    decreases |s|, k
  {
    var t := Zeros(k) + s;
    if s == "" {
      assert t == Zeros(k);
      if k > 0 {
        PaddingKeepsTheValue(k - 1, "");
        assert t[..|t| - 1] == Zeros(k - 1) + "";
      }
    } else {
      PaddingKeepsTheValue(k, s[..|s| - 1]);
      assert t[..|t| - 1] == Zeros(k) + s[..|s| - 1];
    }
  }

  /** Every digit string is its value's canonical text behind some zeros. */
  lemma {:induction false} LeadingZeros(s: string) returns (zeros: nat)
    requires Digits(s)
    ensures s == Zeros(zeros) + NatText(NatValue(s))
  {
    var init, d := s[..|s| - 1], s[|s| - 1];
    assert s == init + [d];
    if init == "" {
      SingleDigit(d);
      zeros := 0;
    } else {
      var before := LeadingZeros(init);
      zeros := OneMoreDigit(init, d, before);
    }
  }

  lemma SingleDigit(d: char)
    requires IsDigit(d)
    ensures [d] == Zeros(0) + NatText(NatValue([d]))
  {
    assert [d][..0] == "";
  }

  lemma OneMoreDigit(init: string, d: char, zeros: nat) returns (more: nat)
    requires Digits(init) && IsDigit(d) && init == Zeros(zeros) + NatText(NatValue(init))
    ensures Digits(init + [d]) && init + [d] == Zeros(more) + NatText(NatValue(init + [d]))
  {
    assert (init + [d])[..|init|] == init;
    if NatValue(init) == 0 {
      more := zeros + 1;
      assert init == Zeros(more);
    } else {
      more := zeros;
      AppendedDigit(NatValue(init), d);
    }
  }

  lemma AppendedDigit(n: nat, d: char)
    requires n > 0 && IsDigit(d)
    ensures NatText(10 * n + DigitValue(d)) == NatText(n) + [d]
  {
    var m := 10 * n + DigitValue(d);
    assert m / 10 == n && m % 10 == DigitValue(d);
  }

  lemma SpellingIsDigits(s: string, n: nat)
    requires Spells(s, "", n)
    ensures Digits(s) && NatValue(s) == n
  {
    var zeros: nat :| s == "" + (Zeros(zeros) + NatText(n));
    PaddingKeepsTheValue(zeros, NatText(n));
    TextHasItsValue(n);
  }

  /** Digit strings of value n are exactly the spellings of n. */
  lemma DigitsExact(s: string, n: nat)
    ensures Digits(s) && NatValue(s) == n <==> Spells(s, "", n)
  {
    if Spells(s, "", n) {
      SpellingIsDigits(s, n);
    }
    if Digits(s) && NatValue(s) == n {
      var zeros := LeadingZeros(s);
      assert s == "" + (Zeros(zeros) + NatText(n));
    }
  }

  lemma SignedSpelling(s: string, sign: char, n: nat)
    requires !IsDigit(sign)
    ensures s != "" && s[0] == sign && Digits(s[1..]) && NatValue(s[1..]) == n <==> Spells(s, [sign], n)
  {
    if Spells(s, [sign], n) {
      var zeros: nat :| s == [sign] + (Zeros(zeros) + NatText(n));
      assert s[1..] == "" + (Zeros(zeros) + NatText(n));
      DigitsExact(s[1..], n);
    }
    if s != "" && s[0] == sign && Digits(s[1..]) && NatValue(s[1..]) == n {
      DigitsExact(s[1..], n);
      var zeros: nat :| s[1..] == "" + (Zeros(zeros) + NatText(n));
      assert s == [sign] + (Zeros(zeros) + NatText(n));
    }
  }

  /** A text denotes n through BigInt exactly when it spells n with a sign that fits. */
  lemma BigIntExact(s: string, n: int)
    ensures PlusDigits(s) && BigInt(s) == n <==> n >= 0 && (Spells(s, "", n) || Spells(s, "+", n))
    ensures SignedDigits(s) && BigInt(s) == n <==>
            (n >= 0 && (Spells(s, "", n) || Spells(s, "+", n))) || (n <= 0 && Spells(s, "-", -n))
  {
    if n >= 0 {
      DigitsExact(s, n);
      SignedSpelling(s, '+', n);
    }
    if n <= 0 {
      SignedSpelling(s, '-', -n);
    }
  }

  /** BigInt reads back the canonical text of every integer. */
  lemma IntTextRoundTrip(n: int)
    ensures SignedDigits(IntText(n)) && BigInt(IntText(n)) == n
    ensures n >= 0 ==> PlusDigits(IntText(n))
  {
    TextHasItsValue(if n < 0 then -n else n);
    if n < 0 {
      assert IntText(n)[1..] == NatText(-n);
    }
  }
}
