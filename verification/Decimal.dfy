/** The text that "%d" prints, and the value a reader of that text recovers. */
module Decimal {
  import opened Layout

  type int32 = n: int | -0x8000_0000 <= n < 0x8000_0000

  const MINUS: byte := 45
  const DIGIT_ZERO: byte := 48
  const MAX_TEXT := 11

  predicate IsDigit(c: byte) {
    DIGIT_ZERO <= c < DIGIT_ZERO + 10
  }

  function Digits(n: nat): (s: seq<byte>)
    ensures |s| >= 1
    ensures forall i :: 0 <= i < |s| ==> IsDigit(s[i])
  {
    var last := [(DIGIT_ZERO as int + n % 10) as byte];
    if n < 10 then last else Digits(n / 10) + last
  }

  function Text(n: int): (s: seq<byte>)
    ensures |s| >= 1
    ensures forall i :: 0 <= i < |s| ==> s[i] != 0
  {
    if n < 0 then [MINUS] + Digits(-n) else Digits(n)
  }

  function NatValue(s: seq<byte>): int {
    if s == [] then 0 else NatValue(s[..|s| - 1]) * 10 + (s[|s| - 1] as int - DIGIT_ZERO as int)
  }

  function Value(s: seq<byte>): int {
    if s != [] && s[0] == MINUS then -NatValue(s[1..]) else NatValue(s)
  }

  lemma {:induction false} DigitsRoundTrip(n: nat)
    ensures NatValue(Digits(n)) == n
  {
    var s := Digits(n);
    if n < 10 {
      assert s[..0] == [];
    } else {
      DigitsRoundTrip(n / 10);
      var last := (DIGIT_ZERO as int + n % 10) as byte;
      assert s == Digits(n / 10) + [last];
      assert s[..|s| - 1] == Digits(n / 10) && s[|s| - 1] == last;
      assert NatValue(s) == NatValue(Digits(n / 10)) * 10 + n % 10;
    }
  }

  /** Printing and reading back is the identity, for every integer. */
  lemma RoundTrip(n: int)
    ensures Value(Text(n)) == n
  {
    if n < 0 {
      DigitsRoundTrip(-n);
      assert Text(n)[1..] == Digits(-n);
    } else {
      DigitsRoundTrip(n);
      assert IsDigit(Digits(n)[0]);
    }
  }

  /** The text in characters: a hyphen for negative numbers, then digits between '0' and '9', the last of
      them the value modulo ten and the ones before it the text of the quotient. */
  lemma TextInCharacters(n: nat)
    ensures Text(n) == (if n < 10 then [] else Text(n / 10)) + [(48 + n % 10) as byte]
    ensures forall i :: 0 <= i < |Text(n)| ==> 48 <= Text(n)[i] <= 57
    ensures n > 0 ==> Text(-(n as int)) == [45] + Text(n)
  {
  }

  function Pow10(k: nat): nat {
    if k == 0 then 1 else 10 * Pow10(k - 1)
  }

  lemma {:induction false} DigitCount(n: nat, k: nat)
    requires k >= 1
    ensures |Digits(n)| <= k <==> n < Pow10(k)
  {
    if k == 1 {
      assert Pow10(1) == 10 * Pow10(0) == 10;
      if n >= 10 {
        assert |Digits(n / 10)| >= 1;
      }
    } else if n < 10 {
      DigitCount(n, k - 1);
    } else {
      DigitCount(n / 10, k - 1);
      assert n / 10 < Pow10(k - 1) <==> n < 10 * Pow10(k - 1);
    }
  }

  /** Every int32 prints in 1 to 11 characters, and in 11 exactly when it is negative with ten digits. */
  lemma TextLength(n: int32)
    ensures 1 <= |Text(n)| <= MAX_TEXT
    ensures |Text(n)| == MAX_TEXT <==> n <= -1_000_000_000
  {
    var m: nat := if n < 0 then -(n as int) else n;
    DigitCount(m, 10);
    DigitCount(m, 9);
    assert Pow10(9) == 1_000_000_000 && Pow10(10) == 10_000_000_000 by {
      assert Pow10(3) == 1_000;
      assert Pow10(6) == 1_000_000;
      assert Pow10(9) == 1_000_000_000;
    }
  }
}
