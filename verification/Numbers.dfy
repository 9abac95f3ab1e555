/**
 Strict bounded number parsing (src/ParseResult.c) and the `%zx`, `%lx`, `%zu` printers it
 must invert. `size_t` is 64 bits wide and wraps.
 */
module Numbers {
  import opened Bytes

  const SIZE_MOD: nat := 0x1_0000_0000_0000_0000

  /** A `size_t` result: the value itself when it fits, else its residue. */
  function Wrap(x: int): (w: nat)
    ensures w < SIZE_MOD
  {
    if 0 <= x < SIZE_MOD then x else x % SIZE_MOD
  }

  lemma MulMonotone(a: nat, b: nat, c: nat)
    requires a <= b
    ensures a * c <= b * c
  {
  }

  lemma DivBound(x: nat, y: nat, b: nat)
    requires b > 0
    ensures x <= y / b <==> x * b <= y
  {
    var q := y / b;
    assert y == q * b + y % b;
    if x <= q { MulMonotone(x, q, b); } else { MulMonotone(q + 1, x, b); assert (q + 1) * b == q * b + b; }
  }

  /** digit_value: the value of `c` in `base`, or -1. */
  function DigitValue(c: byte, base: nat): (d: int)
    ensures d == -1 || 0 <= d < base
    ensures d < 16
  {
    var v := if IsDigit(c) then c as int - 48
             else if 97 <= c <= 102 then c as int - 87
             else if 65 <= c <= 70 then c as int - 55
             else -1;
    if v < base then v else -1
  }

  predicate AllDigits(s: bytes, base: nat) {
    forall i :: 0 <= i < |s| ==> DigitValue(s[i], base) != -1
  }

  /** The number a digit string denotes, most significant digit first. */
  function Denoted(s: bytes, base: nat): nat
    requires AllDigits(s, base)
  {
    if s == [] then 0
    else Denoted(s[..|s| - 1], base) * base + DigitValue(s[|s| - 1], base)
  }

  // ---------------------------------------------------------------- uint_parse

  /** `(max - digit) / base` as `size_t` arithmetic computes it. */
  function Headroom(max: nat, digit: nat, base: nat): nat
    requires base > 0
  {
    Wrap(max - digit) / base
  }

  /** The digits from `i` on, folded into `result`. */
  function ParseFrom(s: bytes, i: nat, base: nat, max: nat, result: nat): Parsed<nat>
    requires i <= |s| && base > 0
    decreases |s| - i
  {
    if i == |s| then Success(result)
    else
      var d := DigitValue(s[i], base);
      if d == -1 then Failure(BadRequest)
      else if result > Headroom(max, d, base) then Failure(PayloadTooLarge)
      else ParseFrom(s, i + 1, base, max, Wrap(result * base + d))
  }

  function UintParse(s: bytes, base: nat, max: nat): Parsed<nat>
    requires base > 0
  {
    if |s| == 0 || s[0] == 0 then Failure(BadRequest) else ParseFrom(s, 0, base, max, 0)
  }

  /** uint_parse. No intermediate value exceeds `max` or wraps once `max` is a digit or more. */
  method ParseUint(s: bytes, base: nat, max: nat) returns (r: Parsed<nat>)
    requires 2 <= base <= 16 && max < SIZE_MOD
    ensures r == UintParse(s, base, max)
  {
    if |s| == 0 || s[0] == 0 { return Failure(BadRequest); }
    var result: nat := 0;
    for i := 0 to |s|
      invariant ParseFrom(s, i, base, max, result) == UintParse(s, base, max)
      invariant base - 1 <= max ==> result <= max
    {
      var digit := DigitValue(s[i], base);
      if digit == -1 { return Failure(BadRequest); }
      if result > Headroom(max, digit, base) { return Failure(PayloadTooLarge); }
      if base - 1 <= max { StepInRange(result, digit, base, max); }
      result := Wrap(result * base + digit);
    }
    return Success(result);
  }

  /** The overflow guard compares exactly: it passes if and only if the next value is in range. */
  lemma StepBounded(result: nat, digit: nat, base: nat, max: nat)
    requires 2 <= base <= 16 && digit < base && base - 1 <= max < SIZE_MOD
    ensures result <= Headroom(max, digit, base) <==> result * base + digit <= max
  {
    DivBound(result, max - digit, base);
  }

  lemma StepInRange(result: nat, digit: nat, base: nat, max: nat)
    requires 2 <= base <= 16 && digit < base && base - 1 <= max < SIZE_MOD
    requires result <= Headroom(max, digit, base)
    ensures Wrap(result * base + digit) == result * base + digit <= max
  {
    StepBounded(result, digit, base, max);
  }

  /** A prefix of `s` is a digit string whose value already exceeds `max`. */
  ghost predicate Overflows(s: bytes, base: nat, max: nat) {
    exists k :: 0 <= k <= |s| && AllDigits(s[..k], base) && Denoted(s[..k], base) > max
  }

  lemma {:induction false} DenotedGrows(s: bytes, base: nat, k: nat)
    requires k <= |s| && base >= 1 && AllDigits(s, base)
    ensures Denoted(s[..k], base) <= Denoted(s, base)
    decreases |s|
  {
    if k == |s| {
      assert s[..k] == s;
    } else {
      var t := s[..|s| - 1];
      assert t[..k] == s[..k];
      DenotedGrows(t, base, k);
      MulMonotone(1, base, Denoted(t, base));
    }
  }

  lemma PrefixDigit(s: bytes, base: nat, k: nat, i: nat)
    requires i < k <= |s| && AllDigits(s[..k], base)
    ensures DigitValue(s[i], base) != -1
  {
    assert s[..k][i] == s[i];
  }

  lemma {:induction false} ParseFromExact(s: bytes, i: nat, base: nat, max: nat)
    requires i <= |s| && 2 <= base <= 16 && base - 1 <= max < SIZE_MOD
    requires AllDigits(s[..i], base) && Denoted(s[..i], base) <= max
    ensures var r := ParseFrom(s, i, base, max, Denoted(s[..i], base));
      && (r.Success? <==> AllDigits(s, base) && Denoted(s, base) <= max)
      && (r.Success? ==> r.value == Denoted(s, base))
      && (r == Failure(PayloadTooLarge) <==> Overflows(s, base, max))
      && (r.Failure? ==> r.status in {BadRequest, PayloadTooLarge})
    decreases |s| - i
  {
    var result := Denoted(s[..i], base);
    if i == |s| {
      assert s[..i] == s;
      forall k | 0 <= k <= |s| && AllDigits(s[..k], base) ensures Denoted(s[..k], base) <= max {
        DenotedGrows(s, base, k);
      }
    } else {
      var d := DigitValue(s[i], base);
      var next := s[..i + 1];
      assert next[..i] == s[..i] && next[i] == s[i];
      if d == -1 {
        forall k | 0 <= k <= |s| && AllDigits(s[..k], base) ensures Denoted(s[..k], base) <= max {
          if k > i { PrefixDigit(s, base, k, i); assert false; }
          assert s[..i][..k] == s[..k];
          DenotedGrows(s[..i], base, k);
        }
      } else {
        StepBounded(result, d, base, max);
        assert AllDigits(next, base) by {
          forall j | 0 <= j < |next| ensures DigitValue(next[j], base) != -1 {
            if j < i { assert next[j] == s[..i][j]; }
          }
        }
        assert Denoted(next, base) == result * base + d;
        if result > Headroom(max, d, base) {
          assert Overflows(s, base, max);
          if AllDigits(s, base) { DenotedGrows(s, base, i + 1); }
        } else {
          ParseFromExact(s, i + 1, base, max);
        }
      }
    }
  }

  /**
   With room for one digit in `max`, uint_parse accepts exactly the non-empty digit strings
   that denote a number within `max`, and returns that number. It answers "too large" exactly
   when a digit prefix already exceeds `max`, and "bad request" in every other case.
   */
  lemma UintParseExact(s: bytes, base: nat, max: nat)
    requires 2 <= base <= 16 && base - 1 <= max < SIZE_MOD
    ensures var r := UintParse(s, base, max);
      && (r.Success? <==> |s| > 0 && AllDigits(s, base) && Denoted(s, base) <= max)
      && (r.Success? ==> r.value == Denoted(s, base))
      && (r == Failure(PayloadTooLarge) <==> Overflows(s, base, max))
      && (r.Failure? ==> r.status in {BadRequest, PayloadTooLarge})
  {
    assert s[..0] == [];
    ParseFromExact(s, 0, base, max);
    if |s| == 0 || s[0] == 0 {
      assert |s| > 0 ==> DigitValue(s[0], base) == -1;
      assert forall k :: 0 < k <= |s| ==> s[..k][0] == s[0];
    }
  }

  /** No accepted number exceeds the bound. */
  ghost predicate HonoursBound(base: nat, max: nat)
    requires base > 0
  {
    forall s: bytes :: UintParse(s, base, max).Success? ==> UintParse(s, base, max).value <= max
  }

  /** With a bound below the greatest digit, the next digit alone is accepted. */
  lemma DigitAboveBound(base: nat, max: nat)
    requires 2 <= base <= 16 && max < base - 1
    ensures UintParse([DigitChar(max + 1)], base, max) == Success(max + 1)
  {
    var s := [DigitChar(max + 1)];
    assert Headroom(max, max + 1, base) >= 0;
    assert ParseFrom(s, 1, base, max, max + 1) == Success(max + 1);
  }

  /**
   The guard `(max - digit) / base` wraps when `max` is below a digit, so the bound is
   honoured if and only if `max` is at least base - 1: below it, the one-digit string for
   max + 1 is accepted.
   */
  lemma BoundHonouredExactly(base: nat, max: nat)
    requires 2 <= base <= 16 && max < SIZE_MOD
    ensures HonoursBound(base, max) <==> base - 1 <= max
  {
    if base - 1 <= max {
      forall s: bytes ensures UintParse(s, base, max).Success? ==> UintParse(s, base, max).value <= max {
        UintParseExact(s, base, max);
      }
    } else {
      DigitAboveBound(base, max);
      assert UintParse([DigitChar(max + 1)], base, max).value > max;
    }
  }

  // ---------------------------------------------------------------- printers

  function DigitChar(d: nat): (c: byte)
    requires d < 16
    ensures forall base: nat :: DigitValue(c, base) == if d < base then d else -1
  {
    if d < 10 then (48 + d) as byte else (87 + d) as byte
  }

  /** digit_value reads exactly the digits of the base that the printers write, in either case. */
  lemma DigitValueExact(c: byte, base: nat, d: nat)
    requires 2 <= base <= 16
    ensures DigitValue(c, base) == d <==> d < base && ToLower(c) == DigitChar(d)
    ensures DigitValue(c, base) == -1 <==> forall e: nat :: e < base ==> ToLower(c) != DigitChar(e)
  {
    if DigitValue(c, base) >= 0 { assert ToLower(c) == DigitChar(DigitValue(c, base)); }
  }

  /** `n` printed in `base` without leading zeros: "%zx" and "%lx" for 16, "%zu" for 10. */
  function Digits(n: nat, base: nat): (s: bytes)
    requires 2 <= base <= 16
    ensures |s| > 0
  {
    if n < base then [DigitChar(n)] else Digits(n / base, base) + [DigitChar(n % base)]
  }

  lemma Quotient(n: nat, base: nat)
    requires 2 <= base
    ensures n == (n / base) * base + n % base && n % base < base
    ensures n > 0 ==> n / base < n
  {
    if n > 0 && n / base >= n { MulMonotone(n, n / base, base); MulMonotone(2, base, n); }
  }

  lemma DenotedSnoc(t: bytes, c: byte, base: nat)
    requires AllDigits(t, base) && DigitValue(c, base) != -1
    ensures AllDigits(t + [c], base) && Denoted(t + [c], base) == Denoted(t, base) * base + DigitValue(c, base)
  {
    var s := t + [c];
    assert s[..|s| - 1] == t;
  }

  lemma {:induction false} DigitsDenote(n: nat, base: nat)
    requires 2 <= base <= 16
    ensures AllDigits(Digits(n, base), base) && Denoted(Digits(n, base), base) == n
  {
    if n < base {
      DenotedSnoc([], DigitChar(n), base);
      assert [] + [DigitChar(n)] == Digits(n, base);
      assert Denoted([], base) * base == 0;
    } else {
      Quotient(n, base);
      DigitsDenote(n / base, base);
      DenotedSnoc(Digits(n / base, base), DigitChar(n % base), base);
    }
  }

  function Power(base: nat, k: nat): nat {
    if k == 0 then 1 else base * Power(base, k - 1)
  }

  lemma QuotientBelow(n: nat, base: nat, p: nat)
    requires 2 <= base && n < base * p
    ensures n / base < p
  {
    DivBound(p, n, base);
  }

  lemma PowerBelow(n: nat, base: nat, k: nat)
    requires 2 <= base && k > 0 && n < Power(base, k)
    ensures n / base < Power(base, k - 1) && (n >= base ==> k > 1)
  {
    QuotientBelow(n, base, Power(base, k - 1));
  }

  lemma {:induction false} DigitsLength(n: nat, base: nat, k: nat)
    requires 2 <= base <= 16 && k > 0 && n < Power(base, k)
    ensures |Digits(n, base)| <= k
  {
    PowerBelow(n, base, k);
    if n >= base {
      DigitsLength(n / base, base, k - 1);
    }
  }

  /** uint_parse inverts both printers: it recovers every number within its bound. */
  lemma ParseInvertsPrint(n: nat, base: nat, max: nat)
    requires 2 <= base <= 16 && base - 1 <= max < SIZE_MOD
    ensures UintParse(Digits(n, base), base, max) ==
            if n <= max then Success(n) else Failure(PayloadTooLarge)
  {
    var s := Digits(n, base);
    DigitsDenote(n, base);
    UintParseExact(s, base, max);
    assert s[..|s|] == s;
  }

  /** Printing in one base is injective. */
  lemma DigitsInjective(m: nat, n: nat, base: nat)
    requires 2 <= base <= 16 && Digits(m, base) == Digits(n, base)
    ensures m == n
  {
    DigitsDenote(m, base);
    DigitsDenote(n, base);
  }

  /** Printed digits are '0' to '9' and lower-case 'a' to 'f', with no leading zero. */
  lemma {:induction false} DigitsLower(n: nat, base: nat)
    requires 2 <= base <= 16
    ensures forall i :: 0 <= i < |Digits(n, base)| ==>
              48 <= Digits(n, base)[i] <= 57 || 97 <= Digits(n, base)[i] <= 102
    ensures n > 0 ==> Digits(n, base) != [] && Digits(n, base)[0] != 48
    ensures n == 0 ==> Digits(n, base) == [48]
  {
    if n >= base {
      Quotient(n, base);
      DigitsLower(n / base, base);
    }
  }

  /** Printed digits are hex digits, so they are no CR, LF, ';', '-' or space. */
  lemma DigitBytes(s: bytes, base: nat)
    requires base <= 16 && AllDigits(s, base)
    ensures forall i :: 0 <= i < |s| ==> IsHex(s[i])
  {
    forall i | 0 <= i < |s| ensures IsHex(s[i]) {
      assert DigitValue(s[i], base) != -1;
    }
  }
}
