/** Decimal text for bytes: the `Display` rendering of an unsigned integer
    and the parser `u8::from_str_radix(_, 10)` with its error kinds. */
module Decimal {
  import opened Numeric

  predicate IsDigit(c: char)
  {
    '0' <= c <= '9'
  }

  predicate AllDigits(s: string)
  {
    forall i :: 0 <= i < |s| ==> IsDigit(s[i])
  }

  function DigitValue(c: char): (d: nat)
    requires IsDigit(c)
    ensures d < 10
  {
    (c as int) - ('0' as int)
  }

  function DigitChar(d: nat): (c: char)
    requires d < 10
    ensures IsDigit(c) && DigitValue(c) == d
  {
    (('0' as int) + d) as char
  }

  /** The number a string of digits denotes, most significant digit first. */
  function Value(s: string): nat
    requires AllDigits(s)
  {
    if s == [] then 0 else 10 * Value(s[..|s| - 1]) + DigitValue(s[|s| - 1])
  }

  function Pow10(k: nat): (r: nat)
    ensures r >= 1
  {
    if k == 0 then 1 else 10 * Pow10(k - 1)
  }

  /** `Display` of an unsigned integer: the shortest decimal digits, no sign,
      no padding. */
  function Render(n: nat): (s: string)
    ensures |s| >= 1 && AllDigits(s) && Value(s) == n
    ensures |s| > 1 ==> s[0] != '0'
    decreases n
  {
    if n < 10 then [DigitChar(n)]
    else
      var front := Render(n / 10);
      assert (front + [DigitChar(n % 10)])[..|front|] == front;
      front + [DigitChar(n % 10)]
  }

  /** The kinds of `ParseIntError` that can arise for `u8` in radix 10. */
  datatype IntErrorKind = Empty | InvalidDigit | PosOverflow

  datatype ParseResult = Ok(value: u8) | Err(kind: IntErrorKind)

  /** `u8::from_str_radix(s, 10)`: an empty string is `Empty`; a lone sign
      is `InvalidDigit`; one leading `+` is skipped (a `-` is not a digit
      of an unsigned type); then the digits are read with checked
      arithmetic. */
  function ParseU8(s: string): ParseResult
  {
    if s == [] then Err(Empty)
    else if s == "+" || s == "-" then Err(InvalidDigit)
    else if s[0] == '+' then Accumulate(s[1..], 0)
    else Accumulate(s, 0)
  }

  /** The checked loop of the parser over the characters left, from the
      accumulator `acc`: per character the digit is checked first, then the
      multiplication by ten and the addition for overflow. */
  function Accumulate(ds: string, acc: u8): (r: ParseResult)
    ensures r != Err(Empty)
    decreases |ds|
  {
    if ds == [] then Ok(acc)
    else if !IsDigit(ds[0]) then Err(InvalidDigit)
    else if acc * 10 > 255 then Err(PosOverflow)
    else if acc * 10 + DigitValue(ds[0]) > 255 then Err(PosOverflow)
    else Accumulate(ds[1..], acc * 10 + DigitValue(ds[0]))
  }

  /** The digits the parser reads: the text after an optional leading `+`. */
  function Digits(s: string): string
  {
    if |s| > 0 && s[0] == '+' then s[1..] else s
  }

  /** Text that `u8::from_str_radix(_, 10)` accepts: an optional `+`, then
      at least one digit, denoting at most 255 (leading zeros allowed). */
  predicate ValidU8Text(s: string)
  {
    var ds := Digits(s);
    |ds| >= 1 && AllDigits(ds) && Value(ds) <= 255
  }

  /** The value of a digit string read from its first digit. */
  lemma {:induction false} ValueFront(s: string)
    requires |s| >= 1 && AllDigits(s)
    ensures Value(s) == DigitValue(s[0]) * Pow10(|s| - 1) + Value(s[1..])
    decreases |s|
  {
    if |s| > 1 {
      var init, last := s[..|s| - 1], DigitValue(s[|s| - 1]);
      var rest := s[1..];
      assert init[1..] == rest[..|rest| - 1];
      assert rest[|rest| - 1] == s[|s| - 1];
      assert Value(rest) == 10 * Value(init[1..]) + last;
      assert Value(s) == 10 * Value(init) + last;
      ValueFront(init);
      ShiftStep(DigitValue(s[0]), Pow10(|s| - 2), Value(init[1..]), last);
    }
  }

  lemma MulAtLeast(a: nat, p: nat)
    requires p >= 1
    ensures a <= a * p
  {
  }

  /** One step of the loop: `acc` followed by the digits `[d] + rest` is
      `acc * 10 + d` followed by `rest`. */
  lemma StepTotal(acc: nat, d: nat, p: nat, v: nat)
    ensures acc * (10 * p) + (d * p + v) == (acc * 10 + d) * p + v
  {
  }

  /** The checked loop yields the value of the digits when it fits in a
      byte, and overflows otherwise. */
  lemma {:induction false} AccumulateDigits(ds: string, acc: u8)
    requires AllDigits(ds)
    ensures var total := acc * Pow10(|ds|) + Value(ds);
      && (total <= 255 ==> Accumulate(ds, acc) == Ok(total))
      && (total > 255 ==> Accumulate(ds, acc) == Err(PosOverflow))
    decreases |ds|
  {
    if ds != [] {
      var p := Pow10(|ds| - 1);
      var d := DigitValue(ds[0]);
      var next := acc * 10 + d;
      ValueFront(ds);
      StepTotal(acc, d, p, Value(ds[1..]));
      var total := acc * Pow10(|ds|) + Value(ds);
      assert total == next * p + Value(ds[1..]);
      MulAtLeast(next, p);
      if next <= 255 {
        AccumulateDigits(ds[1..], next);
      }
    }
  }

  /** The checked loop never succeeds on a non-digit. */
  lemma {:induction false} AccumulateRejects(ds: string, acc: u8)
    requires !AllDigits(ds)
    ensures Accumulate(ds, acc).Err?
    decreases |ds|
  {
    if IsDigit(ds[0]) && acc * 10 + DigitValue(ds[0]) <= 255 {
      assert !AllDigits(ds[1..]) by {
        var i :| 0 <= i < |ds| && !IsDigit(ds[i]);
        assert ds[1..][i - 1] == ds[i];
      }
      AccumulateRejects(ds[1..], acc * 10 + DigitValue(ds[0]));
    }
  }

  /** The loop, started from `acc`, meets the non-digit `ds[k]` before it
      overflows: the digits in front of it, read after `acc`, fit in a byte. */
  predicate StopsAt(ds: string, acc: u8, k: nat)
  {
    k < |ds| && !IsDigit(ds[k]) && AllDigits(ds[..k])
    && acc * Pow10(k) + Value(ds[..k]) <= 255
  }

  /** Reading the first of `k` digits moves it into the accumulator. */
  lemma FrontStep(ds: string, acc: nat, k: nat)
    requires 1 <= k <= |ds| && AllDigits(ds[..k])
    ensures IsDigit(ds[0]) && AllDigits(ds[1..][..k - 1])
    ensures acc * Pow10(k) + Value(ds[..k])
      == (acc * 10 + DigitValue(ds[0])) * Pow10(k - 1) + Value(ds[1..][..k - 1])
  {
    var front := ds[..k];
    assert front[0] == ds[0];
    assert front[1..] == ds[1..][..k - 1];
    ValueFront(front);
    StepTotal(acc, DigitValue(ds[0]), Pow10(k - 1), Value(front[1..]));
  }

  /** The checked loop reports `InvalidDigit` exactly when it meets a
      non-digit before the digits in front of it overflow. */
  lemma {:induction false} AccumulateInvalid(ds: string, acc: u8)
    ensures Accumulate(ds, acc) == Err(InvalidDigit) <==> exists k :: StopsAt(ds, acc, k)
    decreases |ds|
  {
    if ds == [] {
      assert forall k :: !StopsAt(ds, acc, k);
    } else if !IsDigit(ds[0]) {
      assert ds[..0] == [];
      assert StopsAt(ds, acc, 0);
    } else {
      var d := DigitValue(ds[0]);
      assert !StopsAt(ds, acc, 0);
      if acc * 10 + d > 255 {
        forall k: nat | StopsAt(ds, acc, k)
          ensures false
        {
          FrontStep(ds, acc, k);
          MulAtLeast(acc * 10 + d, Pow10(k - 1));
        }
      } else {
        var next: u8 := acc * 10 + d;
        AccumulateInvalid(ds[1..], next);
        forall k: nat | StopsAt(ds, acc, k)
          ensures StopsAt(ds[1..], next, k - 1)
        {
          FrontStep(ds, acc, k);
        }
        forall j: nat | StopsAt(ds[1..], next, j)
          ensures StopsAt(ds, acc, j + 1)
        {
          assert ds[..j + 1] == [ds[0]] + ds[1..][..j];
          DigitsAppend([ds[0]], ds[1..][..j]);
          FrontStep(ds, acc, j + 1);
        }
        assert (exists k :: StopsAt(ds, acc, k)) <==> exists j :: StopsAt(ds[1..], next, j);
      }
    }
  }

  /** The parser succeeds exactly on valid text, with the value of its
      digits. The error kind follows Rust's order: `Empty` exactly for the
      empty string; `InvalidDigit` exactly for a lone `+` and for a
      non-digit met before the digits in front of it exceed 255; all other
      failures are `PosOverflow`, among them all-digit text above 255. */
  lemma ParseU8Spec(s: string)
    ensures ParseU8(s).Ok? <==> ValidU8Text(s)
    ensures ValidU8Text(s) ==> ParseU8(s).value == Value(Digits(s))
    ensures ParseU8(s) == Err(Empty) <==> s == []
    ensures ParseU8(s) == Err(InvalidDigit) <==>
      s == "+" || exists k :: StopsAt(Digits(s), 0, k)
    ensures |Digits(s)| >= 1 && AllDigits(Digits(s)) && Value(Digits(s)) > 255 ==>
      ParseU8(s) == Err(PosOverflow)
  {
    if s == [] {
      assert forall k :: !StopsAt(Digits(s), 0, k);
    } else if s == "+" {
    } else if s == "-" {
      assert Digits(s)[..0] == [];
      assert StopsAt(Digits(s), 0, 0);
    } else {
      var ds := Digits(s);
      assert ds == if s[0] == '+' then s[1..] else s;
      AccumulateInvalid(ds, 0);
      if AllDigits(ds) {
        AccumulateDigits(ds, 0);
      } else {
        AccumulateRejects(ds, 0);
      }
    }
  }

  /** The order of the checks: a non-digit is reported only when the digits
      before it have not yet overflowed. */
  lemma ErrorOrder()
    ensures ParseU8("25a6") == Err(InvalidDigit)
    ensures ParseU8("256a") == Err(PosOverflow)
    ensures ParseU8("-0") == Err(InvalidDigit)
  {
  }

  /** Parsing the rendering of a byte gives the byte back. */
  lemma RenderParse(n: u8)
    ensures ParseU8(Render(n)) == Ok(n)
  {
    ParseU8Spec(Render(n));
  }

  /** Numbers above 255 render to text that overflows. */
  lemma RenderOverflows(n: nat)
    requires n > 255
    ensures ParseU8(Render(n)) == Err(PosOverflow)
  {
    ParseU8Spec(Render(n));
  }

  lemma DigitRoundTrip(c: char)
    requires IsDigit(c)
    ensures DigitChar(DigitValue(c)) == c
  {
  }

  /** A digit string without leading zeros is the rendering of its value:
      `Render` is the only text of that shape for each number. */
  lemma {:induction false} RenderCanonical(s: string)
    requires |s| >= 1 && AllDigits(s)
    requires |s| > 1 ==> s[0] != '0'
    ensures Render(Value(s)) == s
    decreases |s|
  {
    var d := s[|s| - 1];
    DigitRoundTrip(d);
    if |s| > 1 {
      var init := s[..|s| - 1];
      assert init[0] == s[0];
      RenderCanonical(init);
      ValueFront(init);
      MulAtLeast(DigitValue(init[0]), Pow10(|init| - 1));
      assert Value(s) / 10 == Value(init) && Value(s) % 10 == DigitValue(d);
      assert s == init + [d];
    }
  }

  function Zeros(k: nat): (s: string)
    ensures |s| == k && AllDigits(s)
  {
    if k == 0 then [] else Zeros(k - 1) + ['0']
  }

  lemma DigitsAppend(a: string, b: string)
    requires AllDigits(a) && AllDigits(b)
    ensures AllDigits(a + b)
  {
  }

  /** The digits of `a` followed by those of `b`: `a` shifted by the
      length of `b`. */
  lemma {:induction false} ValueAppend(a: string, b: string)
    requires AllDigits(a) && AllDigits(b)
    ensures AllDigits(a + b) && Value(a + b) == Value(a) * Pow10(|b|) + Value(b)
    decreases |b|
  {
    DigitsAppend(a, b);
    if b == [] {
      assert a + b == a;
    } else {
      var b' := b[..|b| - 1];
      var d := DigitValue(b[|b| - 1]);
      assert (a + b)[..|a + b| - 1] == a + b';
      assert (a + b)[|a + b| - 1] == b[|b| - 1];
      DigitsAppend(a, b');
      assert Value(a + b) == 10 * Value(a + b') + d;
      ValueAppend(a, b');
      ShiftStep(Value(a), Pow10(|b'|), Value(b'), d);
    }
  }

  lemma ShiftStep(x: nat, p: nat, v: nat, d: nat)
    ensures 10 * (x * p + v) + d == x * (10 * p) + (10 * v + d)
  {
  }

  lemma {:induction false} ZerosValue(k: nat)
    ensures Value(Zeros(k)) == 0
  {
    if k > 0 {
      ZerosValue(k - 1);
      assert Zeros(k)[..k - 1] == Zeros(k - 1);
    }
  }

  /** Leading zeros do not change what is parsed. */
  lemma LeadingZeros(k: nat, n: u8)
    ensures ParseU8(Zeros(k) + Render(n)) == Ok(n)
  {
    var s := Zeros(k) + Render(n);
    ZerosValue(k);
    ValueAppend(Zeros(k), Render(n));
    assert s[0] != '+' by { assert IsDigit(s[0]); }
    ParseU8Spec(s);
  }

  /** One leading `+` is skipped. */
  lemma PlusSign(n: u8)
    ensures ParseU8("+" + Render(n)) == Ok(n)
  {
    var t := "+" + Render(n);
    assert Digits(t) == Render(n);
    ParseU8Spec(t);
  }

  /** A leading `-` is an invalid digit for an unsigned type. */
  lemma MinusSign(n: u8)
    ensures ParseU8("-" + Render(n)) == Err(InvalidDigit)
  {
  }
}
