/** Integers as text: the %u, %d, %ld and %lld conversions, and digit strings read back. */
module Digits {
  import opened Machine

  /** The value of a digit of base at most 16; 16 stands for "not a digit". */
  function DigitOf(c: char): nat {
    if '0' <= c <= '9' then c as int - '0' as int
    else if 'a' <= c <= 'f' then c as int - 'a' as int + 10
    else if 'A' <= c <= 'F' then c as int - 'A' as int + 10
    else 16
  }

  predicate AreDigits(s: string, base: nat) {
    forall i | 0 <= i < |s| :: DigitOf(s[i]) < base
  }

  /** The number a digit string denotes. */
  function ValueOf(s: string, base: nat): nat {
    if s == [] then 0 else ValueOf(s[..|s| - 1], base) * base + DigitOf(s[|s| - 1])
  }

  function DigitChar(d: nat): (c: char)
    requires d < 10
    ensures DigitOf(c) == d && '0' <= c <= '9'
  {
    ('0' as int + d) as char
  }

  /** A number in decimal, without leading zeros. */
  function NatText(n: nat): (s: string)
    ensures s != [] && AreDigits(s, 10)
    ensures s[0] == '0' <==> n == 0
    ensures ValueOf(s, 10) == n
  {
    if n < 10 then
      [DigitChar(n)]
    else
      var s := NatText(n / 10) + [DigitChar(n % 10)];
      assert s[..|s| - 1] == NatText(n / 10);
      s
  }

  function IntText(v: int): string {
    (if v < 0 then "-" else "") + NatText(Abs(v))
  }

  function Pow10(k: nat): nat {
    if k == 0 then 1 else 10 * Pow10(k - 1)
  }

  /** The number of decimal digits, exactly. */
  lemma {:induction false} NatTextLength(n: nat, k: nat)
    requires k > 0
    ensures |NatText(n)| <= k <==> n < Pow10(k)
  {
    if k == 1 {
      assert Pow10(1) == 10 * Pow10(0) == 10;
    } else if n >= 10 {
      NatTextLength(n / 10, k - 1);
      assert n / 10 < Pow10(k - 1) <==> n < 10 * Pow10(k - 1);
    } else {
      PowerAboveTen(k);
    }
  }

  lemma {:induction false} PowerAboveTen(k: nat)
    requires k > 0
    ensures Pow10(k) >= 10
  {
    if k > 1 {
      PowerAboveTen(k - 1);
    } else {
      assert Pow10(0) == 1;
    }
  }

  lemma Pow10Values()
    ensures Pow10(10) == 10_000_000_000
    ensures Pow10(18) == 1_000_000_000_000_000_000
    ensures Pow10(19) == 10_000_000_000_000_000_000
  {
    assert Pow10(5) == 100_000;
    assert Pow10(10) == 10_000_000_000;
    assert Pow10(15) == 1_000_000_000_000_000;
  }

  /** Widest renderings of an unsigned int and of a 64-bit long. */
  lemma TextBounds(id: u32, v: s64)
    ensures |NatText(id)| <= 10
    ensures |IntText(v)| <= 20
    ensures v == LONG_MIN ==> |IntText(v)| == 20
  {
    Pow10Values();
    NatTextLength(id, 10);
    NatTextLength(Abs(v), 19);
    NatTextLength(Abs(v), 18);
  }

  /** Negation of a long; the kernel is built so that it wraps. */
  function NegateLong(v: s64): s64 {
    if v == LONG_MIN then LONG_MIN else -v
  }

  /** The count is the length of the %ld text for every long except the smallest one,
      whose magnitude is not a long. */
  method GetIntegerSize(value: s64) returns (size: nat)
    ensures size == |IntText(value)| <==> value != LONG_MIN
    ensures value == LONG_MIN ==> size == 2
  {
    var v := value;
    size := 1;
    if v < 0 {
      size := size + 1;
      v := NegateLong(v);
    }
    TextBounds(0, value);
    while v >= 10
      invariant value == LONG_MIN ==> v == LONG_MIN && size == 2
      invariant value != LONG_MIN ==> v >= 0 && size + |NatText(v)| == |IntText(value)| + 1
    {
      v := v / 10;
      size := size + 1;
    }
  }
}
