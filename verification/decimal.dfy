/** Decimal integers as the Kotlin runtime reads and writes them:
    `String.toIntOrNull()` over the 32-bit `Int`, and the decimal rendering
    used by `Int.toString()` and string templates. */
module Decimal {
  import opened Wrappers

  const MinInt: int := -0x8000_0000
  const MaxInt: int := 0x7fff_ffff

  /** Kotlin's `Int`. */
  type Int32 = x: int | MinInt <= x <= MaxInt

  predicate IsDigit(c: char) {
    '0' <= c <= '9'
  }

  predicate AllDigits(s: string) {
    forall i :: 0 <= i < |s| ==> IsDigit(s[i])
  }

  function DigitValue(c: char): nat
    requires IsDigit(c)
  {
    c as int - '0' as int
  }

  function DigitChar(d: nat): char
    requires d < 10
  {
    ('0' as int + d) as char
  }

  /** The value of a numeral, most significant digit first. */
  function NumeralValue(s: string): nat
    requires AllDigits(s)
  {
    if |s| == 0 then 0 else NumeralValue(s[..|s| - 1]) * 10 + DigitValue(s[|s| - 1])
  }

  /** The syntax of an integer literal: an optional sign, then at least one digit. */
  predicate IsIntLiteral(s: string) {
    || (|s| >= 1 && AllDigits(s))
    || (|s| >= 2 && (s[0] == '+' || s[0] == '-') && AllDigits(s[1..]))
  }

  /** The mathematical value of an integer literal. */
  function LiteralValue(s: string): int
    requires IsIntLiteral(s)
  {
    if s[0] == '-' then -(NumeralValue(s[1..]) as int)
    else if s[0] == '+' then NumeralValue(s[1..])
    else NumeralValue(s)
  }

  /** The conversion loop: shifts digits into `acc` left to right and gives up
      at the first character that is not a digit. */
  function AccumulateDigits(s: string, acc: int): Option<int>
  {
    if |s| == 0 then Some(acc)
    else if !IsDigit(s[0]) then None
    else AccumulateDigits(s[1..], acc * 10 + DigitValue(s[0]))
  }

  /** Reading the rest of a numeral after its first part `done` gives the value
      of the whole numeral. */
  lemma {:induction false} AccumulateDigitsValue(done: string, s: string)
    requires AllDigits(done)
    ensures AccumulateDigits(s, NumeralValue(done))
            == if AllDigits(s) then Some(NumeralValue(done + s)) else None
    decreases |s|
  {
    if |s| == 0 {
      assert done + s == done;
    } else if !IsDigit(s[0]) {
      assert !AllDigits(s);
    } else {
      var next := done + [s[0]];
      assert next[..|next| - 1] == done;
      assert AllDigits(next);
      AccumulateDigitsValue(next, s[1..]);
      assert next + s[1..] == done + s;
      assert AllDigits(s) <==> AllDigits(s[1..]) by {
        if AllDigits(s[1..]) {
          forall i | 0 <= i < |s| ensures IsDigit(s[i]) {
            if i > 0 {
              assert s[i] == s[1..][i - 1];
            }
          }
        }
      }
    }
  }

  /** Kotlin's `String.toIntOrNull()`: the value of the text when it is an
      integer literal whose value fits in an `Int`, and null otherwise. */
  function ToIntOrNull(s: string): (r: Option<Int32>)
    ensures r.Some? <==> IsIntLiteral(s) && MinInt <= LiteralValue(s) <= MaxInt
    ensures r.Some? ==> r.value == LiteralValue(s)
  {
    if |s| == 0 then None
    else
      var signed := s[0] == '-' || s[0] == '+';
      var digits := if signed then s[1..] else s;
      AccumulateDigitsValue([], digits);
      assert [] + digits == digits;
      if signed && |digits| == 0 then None
      else match AccumulateDigits(digits, 0)
        case None => None
        case Some(magnitude) =>
          var v := if s[0] == '-' then -magnitude else magnitude;
          if MinInt <= v <= MaxInt then Some(v) else None
  }

  /** The decimal numeral of a natural number, without leading zeros. */
  function ShowNat(n: nat): (r: string)
    ensures |r| >= 1 && AllDigits(r)
    ensures NumeralValue(r) == n
    ensures n > 0 ==> r[0] != '0'
    ensures r[0] == '0' ==> r == "0"
  {
    if n < 10 then [DigitChar(n)]
    else
      var front := ShowNat(n / 10);
      var r := front + [DigitChar(n % 10)];
      assert r[..|r| - 1] == front;
      r
  }

  /** The decimal rendering of an integer (`Int.toString()`). */
  function ShowInt(n: int): (r: string)
    ensures IsIntLiteral(r) && LiteralValue(r) == n
    ensures forall i :: 0 <= i < |r| ==> IsDigit(r[i]) || r[i] == '-'
    ensures n >= 0 ==> AllDigits(r)
    ensures r[0] == '0' ==> r == "0"
    ensures r[0] == '-' ==> |r| >= 2 && r[1] != '0'
  {
    if n < 0 then "-" + ShowNat(-n) else ShowNat(n)
  }

  /** Reading back the rendering of an `Int` gives the same `Int`. */
  lemma ToIntOrNullShowInt(n: Int32)
    ensures ToIntOrNull(ShowInt(n)) == Some(n)
  {
  }

  /** Kotlin's `a % 2`: the remainder of division truncated toward zero,
      which takes the sign of the dividend. */
  function Rem2(a: int): (r: int)
    ensures -1 <= r <= 1
    ensures r == 0 <==> a % 2 == 0
    ensures r != 0 ==> (r < 0 <==> a < 0)
  {
    if a >= 0 then a % 2 else -((-a) % 2)
  }

  /** `n - 1` on Kotlin's `Int`, which wraps from the least value to the greatest. */
  function Dec(n: Int32): (r: Int32)
    ensures (r - (n - 1)) % 0x1_0000_0000 == 0
    ensures n != MinInt ==> r < n
  {
    if n == MinInt then MaxInt else n - 1
  }
}
