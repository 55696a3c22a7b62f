/**
 * Decimal text for unsigned 32-bit integers, as Rust's standard library
 * reads it (`u32::from_str`) and writes it (`{}` formatting). The resolution
 * parser of dev/native/src/lib.rs applies both to each half of "<w>,<h>".
 */
module Decimal {
  import opened Wrappers

  const U32_MAX: nat := 4294967295

  type u32 = n: nat | n <= U32_MAX

  /** The ways `u32::from_str` fails, as in Rust's `IntErrorKind`. */
  datatype IntErrorKind = Empty | InvalidDigit | PosOverflow

  predicate IsDigit(c: char) {
    '0' <= c <= '9'
  }

  predicate AllDigits(s: string) {
    forall i :: 0 <= i < |s| ==> IsDigit(s[i])
  }

  function DigitValue(c: char): (d: nat)
    requires IsDigit(c)
    ensures d < 10
  {
    (c as int) - ('0' as int)
  }

  function DigitChar(d: nat): (c: char)
    requires d < 10
    ensures IsDigit(c) && DigitValue(c) == d
  {
    (('0' as int) + d) as char
  }

  function Pow10(n: nat): (p: nat)
    ensures p >= 1
  {
    if n == 0 then 1 else 10 * Pow10(n - 1)
  }

  /** The number a string of digits denotes, most significant digit first. */
  ghost function Value(s: string): nat
    requires AllDigits(s)
  {
    if |s| == 0 then 0 else Value(s[..|s| - 1]) * 10 + DigitValue(s[|s| - 1])
  }

  /** The text after the one optional leading `+` an unsigned parse accepts. */
  function Unsigned(s: string): string {
    if |s| > 0 && s[0] == '+' then s[1..] else s
  }

  /**
   * The text `u32::from_str` accepts: an optional `+`, then at least one
   * ASCII digit, denoting at most 4294967295. Leading zeros are allowed.
   */
  ghost predicate IsU32Text(s: string) {
    var digits := Unsigned(s);
    |digits| > 0 && AllDigits(digits) && Value(digits) <= U32_MAX
  }

  /** Splitting off the most significant digit. */
  lemma {:induction false} ValueCons(c: char, rest: string)
    requires IsDigit(c) && AllDigits(rest)
    ensures AllDigits([c] + rest)
    ensures Value([c] + rest) == DigitValue(c) * Pow10(|rest|) + Value(rest)
  {
    var s := [c] + rest;
    assert AllDigits(s) by {
      forall i | 0 <= i < |s| ensures IsDigit(s[i]) {
        if i > 0 { assert s[i] == rest[i - 1]; }
      }
    }
    if |rest| > 0 {
      var init := rest[..|rest| - 1];
      assert s[..|s| - 1] == [c] + init;
      assert s[|s| - 1] == rest[|rest| - 1];
      ValueCons(c, init);
      calc {
        Value(s);
        Value([c] + init) * 10 + DigitValue(rest[|rest| - 1]);
        (DigitValue(c) * Pow10(|init|) + Value(init)) * 10 + DigitValue(rest[|rest| - 1]);
        DigitValue(c) * (Pow10(|init|) * 10) + (Value(init) * 10 + DigitValue(rest[|rest| - 1]));
        DigitValue(c) * Pow10(|rest|) + Value(rest);
      }
    } else {
      assert s[..|s| - 1] == [];
    }
  }

  lemma ScaledStep(acc: nat, d: nat, p: nat, v: nat)
    requires p >= 1
    ensures acc * (10 * p) + (d * p + v) == (acc * 10 + d) * p + v
    ensures (acc * 10 + d) * p + v >= acc * 10 + d
  {
  }

  lemma AllDigitsTail(digits: string)
    requires |digits| > 0 && IsDigit(digits[0])
    ensures AllDigits(digits) <==> AllDigits(digits[1..])
  {
  }

  /** One step of the digit loop, in terms of the value of the whole text. */
  lemma AccumulateStep(digits: string, acc: nat)
    requires |digits| > 0 && IsDigit(digits[0])
    ensures AllDigits(digits) <==> AllDigits(digits[1..])
    ensures AllDigits(digits) ==>
      acc * Pow10(|digits|) + Value(digits)
      == (acc * 10 + DigitValue(digits[0])) * Pow10(|digits| - 1) + Value(digits[1..])
    ensures AllDigits(digits) ==>
      (acc * 10 + DigitValue(digits[0])) * Pow10(|digits| - 1) + Value(digits[1..])
      >= acc * 10 + DigitValue(digits[0])
  {
    AllDigitsTail(digits);
    if AllDigits(digits) {
      var rest := digits[1..];
      assert digits == [digits[0]] + rest;
      ValueCons(digits[0], rest);
      var p := Pow10(|rest|);
      assert Pow10(|digits|) == 10 * p;
      ScaledStep(acc, DigitValue(digits[0]), p, Value(rest));
    }
  }

  /**
   * The digit loop meets a non-digit at index k before it overflows: all
   * digits before k, read after `acc`, still fit in a `u32`.
   */
  ghost predicate InvalidBeforeOverflow(digits: string, acc: nat, k: int) {
    && 0 <= k < |digits|
    && !IsDigit(digits[k])
    && AllDigits(digits[..k])
    && acc * Pow10(k) + Value(digits[..k]) <= U32_MAX
  }

  /** Past a leading digit that does not overflow, the same non-digit is met one index earlier. */
  lemma InvalidBeforeOverflowStep(digits: string, acc: nat)
    requires |digits| > 0 && IsDigit(digits[0])
    ensures forall k :: InvalidBeforeOverflow(digits, acc, k) ==>
      && acc * 10 + DigitValue(digits[0]) <= U32_MAX
      && InvalidBeforeOverflow(digits[1..], acc * 10 + DigitValue(digits[0]), k - 1)
  {
    var next := acc * 10 + DigitValue(digits[0]);
    forall k | InvalidBeforeOverflow(digits, acc, k)
      ensures next <= U32_MAX && InvalidBeforeOverflow(digits[1..], next, k - 1)
    {
      var prefix := digits[..k];
      assert k > 0;
      assert prefix[0] == digits[0];
      AccumulateStep(prefix, acc);
      assert prefix[1..] == digits[1..][..k - 1];
      assert digits[1..][k - 1] == digits[k];
    }
  }

  /** The converse step: a non-digit met after a leading digit is met one index later in the whole text. */
  lemma InvalidBeforeOverflowBack(digits: string, acc: nat, next: nat)
    requires |digits| > 0 && IsDigit(digits[0])
    requires next == acc * 10 + DigitValue(digits[0])
    ensures forall k :: InvalidBeforeOverflow(digits[1..], next, k) ==> InvalidBeforeOverflow(digits, acc, k + 1)
  {
    forall k | InvalidBeforeOverflow(digits[1..], next, k)
      ensures InvalidBeforeOverflow(digits, acc, k + 1)
    {
      var prefix := digits[..k + 1];
      assert prefix[0] == digits[0];
      assert prefix[1..] == digits[1..][..k];
      AccumulateStep(prefix, acc);
      assert digits[k + 1] == digits[1..][k];
    }
  }

  /**
   * The digit loop of Rust's `from_str_radix`, left to right: a non-digit
   * stops it with `InvalidDigit`, a step past 4294967295 with `PosOverflow`.
   * It succeeds exactly when the digits fit, and then yields `acc` followed
   * by the digits, read as one number.
   */
  function Accumulate(digits: string, acc: u32): (r: Result<u32, IntErrorKind>)
    ensures r.Success? <==> AllDigits(digits) && acc * Pow10(|digits|) + Value(digits) <= U32_MAX
    ensures r.Success? ==> r.value == acc * Pow10(|digits|) + Value(digits)
    ensures AllDigits(digits) && r.Failure? ==> r.error == PosOverflow
    ensures r.Failure? ==> r.error != Empty
    ensures forall k :: InvalidBeforeOverflow(digits, acc, k) ==> r == Failure(InvalidDigit)
    ensures r == Failure(InvalidDigit) ==> exists k :: InvalidBeforeOverflow(digits, acc, k)
    decreases |digits|
  {
    if |digits| == 0 then
      Success(acc)
    else if !IsDigit(digits[0]) then
      assert digits[..0] == [];
      assert InvalidBeforeOverflow(digits, acc, 0);
      Failure(InvalidDigit)
    else
      var next := acc * 10 + DigitValue(digits[0]);
      AccumulateStep(digits, acc);
      InvalidBeforeOverflowStep(digits, acc);
      InvalidBeforeOverflowBack(digits, acc, next);
      if next > U32_MAX then
        Failure(PosOverflow)
      else
        Accumulate(digits[1..], next)
  }

  /**
   * `u32::from_str`: the empty string fails with `Empty`, a lone sign with
   * `InvalidDigit`, one leading `+` is skipped, and the rest goes through
   * the digit loop. Success exactly on the accepted text, with its value.
   * A failure on digits only is an overflow; a failure at a non-digit met
   * before the number grew too large is an invalid digit.
   */
  function ParseU32(s: string): (r: Result<u32, IntErrorKind>)
    ensures r.Success? <==> IsU32Text(s)
    ensures r.Success? ==> r.value == Value(Unsigned(s))
    ensures r == Failure(Empty) <==> |s| == 0
    ensures s == "+" || s == "-" ==> r == Failure(InvalidDigit)
    ensures |Unsigned(s)| > 0 && AllDigits(Unsigned(s)) && r.Failure? ==> r.error == PosOverflow
    ensures forall k :: InvalidBeforeOverflow(Unsigned(s), 0, k) ==> r == Failure(InvalidDigit)
    ensures r == Failure(InvalidDigit) ==> s == "+" || exists k :: InvalidBeforeOverflow(Unsigned(s), 0, k)
  {
    if |s| == 0 then
      Failure(Empty)
    else if (s[0] == '+' || s[0] == '-') && |s| == 1 then
      assert s[0] == '-' ==> InvalidBeforeOverflow(Unsigned(s), 0, 0) by {
        assert Unsigned(s)[..0] == [];
      }
      Failure(InvalidDigit)
    else if s[0] == '+' then
      Accumulate(s[1..], 0)
    else
      Accumulate(s, 0)
  }

  /** Decimal text without leading zeros: "0", or digits starting with a non-zero one. */
  ghost predicate Canonical(s: string) {
    |s| > 0 && AllDigits(s) && (s[0] == '0' ==> |s| == 1)
  }

  /** Rust's `{}` formatting of an unsigned integer. */
  function Show(n: nat): (s: string)
    ensures Canonical(s)
    ensures Value(s) == n
  {
    if n < 10 then
      [DigitChar(n)]
    else
      var init := Show(n / 10);
      var s := init + [DigitChar(n % 10)];
      assert s[..|s| - 1] == init;
      s
  }

  /** Printing then parsing gives back the number. */
  lemma ParseShow(n: u32)
    ensures ParseU32(Show(n)) == Success(n)
  {
  }

  lemma {:induction false} ValueAtLeastHead(s: string)
    requires |s| > 0 && AllDigits(s)
    ensures Value(s) >= DigitValue(s[0])
  {
    if |s| > 1 {
      var init := s[..|s| - 1];
      assert init[0] == s[0];
      ValueAtLeastHead(init);
    }
  }

  /** Parsing then printing gives back the text, when the text was already canonical. */
  lemma {:induction false} ShowValue(s: string)
    requires Canonical(s)
    ensures Show(Value(s)) == s
  {
    var last := s[|s| - 1];
    assert DigitChar(DigitValue(last)) == last;
    if |s| > 1 {
      var init := s[..|s| - 1];
      assert init[0] == s[0];
      assert Canonical(init);
      ValueAtLeastHead(init);
      assert Value(s) >= 10;
      assert Value(s) / 10 == Value(init);
      assert Value(s) % 10 == DigitValue(last);
      ShowValue(init);
      assert s == init + [last];
    } else {
      assert s == [last];
    }
  }

  /** A comma is never part of an accepted number. */
  lemma CommaRejected(s: string)
    requires ',' in s
    ensures ParseU32(s).Failure?
  {
  }
}
