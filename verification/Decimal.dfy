/** Decimal numbers: the digit buffer that writes one, and the reader it is checked against. */
module Decimal {
  import opened Bytes

  function DigitOf(n: nat): Byte
    requires n < 10
  {
    (n + '0' as int) as char
  }

  /** The digits of `n`, most significant first. */
  function Digits(n: nat): (r: Bytes)
    ensures r != []
  {
    if n < 10 then [DigitOf(n)] else Digits(n / 10) + [DigitOf(n % 10)]
  }

  predicate AllDigits(s: Bytes) { forall k :: 0 <= k < |s| ==> IsDigit(s[k]) }

  /** The number a digit string denotes. */
  function Denotes(s: Bytes): nat
    requires AllDigits(s)
  {
    if s == [] then 0 else Denotes(s[..|s| - 1]) * 10 + (s[|s| - 1] as int - '0' as int)
  }

  /** The digits read back as the number, and there is no leading zero. */
  lemma {:induction false} DigitsDenote(n: nat)
    ensures AllDigits(Digits(n)) && Denotes(Digits(n)) == n
    ensures |Digits(n)| > 1 ==> Digits(n)[0] != '0'
  {
    if n < 10 {
      assert Digits(n)[..0] == [];
    } else {
      DigitsDenote(n / 10);
      assert Digits(n)[..|Digits(n)| - 1] == Digits(n / 10);
    }
  }

  /** The only digit string of a number without a leading zero is the one written. */
  lemma {:induction false} DigitsUnique(s: Bytes)
    requires s != [] && AllDigits(s) && (|s| > 1 ==> s[0] != '0')
    ensures Digits(Denotes(s)) == s
  {
    var init := s[..|s| - 1];
    if init == [] {
      assert Denotes(init) == 0;
    } else {
      DigitsUnique(init);
      DenotesPositive(init);
      assert s == init + [s[|s| - 1]];
    }
  }

  lemma {:induction false} DenotesPositive(s: Bytes)
    requires s != [] && AllDigits(s) && s[0] != '0'
    ensures Denotes(s) > 0
  {
    if |s| > 1 {
      DenotesPositive(s[..|s| - 1]);
    }
  }

  function Power(k: nat): nat { if k == 0 then 1 else 10 * Power(k - 1) }

  lemma TwentyDigits()
    ensures Power(20) > U64
  {
    assert Power(5) == 100000;
    assert Power(10) == 100000 * Power(5);
    assert Power(15) == 100000 * Power(10);
    assert Power(20) == 100000 * Power(15);
  }

  /** The digits still to be written, then those already in the buffer. */
  ghost predicate Pending(remaining: nat, tail: Bytes, value: nat)
  {
    if tail == [] then remaining == value else Digits(remaining) + tail == Digits(value)
  }

  /** Writing the last digit of what remains: either it was the first digit of the number, or more remains. */
  lemma PendingStep(remaining: nat, tail: Bytes, value: nat)
    requires Pending(remaining, tail, value)
    ensures var more := [DigitOf(remaining % 10)] + tail;
            if remaining / 10 == 0 then more == Digits(value) else Pending(remaining / 10, more, value)
  {
    var digit := [DigitOf(remaining % 10)];
    if remaining / 10 > 0 {
      assert Digits(remaining) + tail == Digits(remaining / 10) + (digit + tail);
      if tail == [] {
        assert Digits(remaining) + tail == Digits(remaining);
      }
    } else if tail == [] {
      assert digit + tail == digit;
    }
  }

  /** Fills a 20-byte buffer from its end and writes the filled part. */
  method WriteDecimal(out: Buffer, value: nat)
    requires value < U64
    modifies out
    ensures out.data == old(out.data) + Digits(value)
  {
    hide Digits, Power, Pending;
    var digits := new Byte[20](_ => '0');
    var remaining: nat := value;
    var index := digits.Length;
    TwentyDigits();
    PendingStart(value);
    assert digits[20..] == [];
    while true
      invariant 0 < index <= 20 && out.data == old(out.data)
      invariant remaining * Power(20 - index) <= value && (index < 20 ==> remaining > 0)
      invariant Pending(remaining, digits[index..], value)
      decreases index
    {
      ghost var tail := digits[index..];
      PendingStep(remaining, tail, value);
      PowerStep(remaining, 20 - index, value);
      index := index - 1;
      digits[index] := DigitOf(remaining % 10);
      remaining := remaining / 10;
      assert digits[index..] == [digits[index]] + tail;
      if remaining == 0 {
        break;
      }
      Fits(remaining, 20 - index, value);
    }
    out.Extend(digits[index..]);
  }

  lemma PendingStart(value: nat)
    ensures Pending(value, [], value) && value * Power(0) <= value
  {
  }

  /** Something remains only while the buffer has room. */
  lemma Fits(remaining: nat, k: nat, value: nat)
    requires remaining > 0 && remaining * Power(k) <= value < U64 && k <= 20
    ensures k < 20
  {
    if k == 20 {
      TwentyDigits();
      MultiplyMonotone(1, remaining, Power(20));
    }
  }

  lemma PowerStep(n: nat, k: nat, value: nat)
    requires n * Power(k) <= value
    ensures n / 10 * Power(k + 1) <= value
  {
    var q := n / 10;
    assert q * Power(k + 1) == q * 10 * Power(k);
    assert q * 10 <= n;
    MultiplyMonotone(q * 10, n, Power(k));
  }

  lemma MultiplyMonotone(a: nat, b: nat, c: nat)
    requires a <= b
    ensures a * c <= b * c
  {
  }

  /** A 64-bit number as Rust's parser takes it: an optional plus sign, then digits that fit. */
  function ParseU64(text: Bytes): Option<nat>
  {
    var digits := if text != [] && text[0] == '+' then text[1..] else text;
    if digits != [] && AllDigits(digits) && Denotes(digits) < U64 then Some(Denotes(digits)) else None
  }

  /** Digits are read with or without a plus sign and leading zeros, up to 64 bits; any other text is refused. */
  lemma ParseTexts(d: Bytes, text: Bytes)
    requires d != [] && AllDigits(d)
    ensures ParseU64(d) == if Denotes(d) <= 0xFFFF_FFFF_FFFF_FFFF then Some(Denotes(d)) else None
    ensures ParseU64(['+'] + d) == ParseU64(d) == ParseU64(['0'] + d)
    ensures ParseU64([]) == None == ParseU64(['+'])
    ensures (exists k :: 0 <= k < |text| && !IsDigit(text[k]) && (k > 0 || text[0] != '+')) ==> ParseU64(text) == None
  {
    assert IsDigit(d[0]) && (['+'] + d)[1..] == d;
    LeadingZero(d);
    if k :| 0 <= k < |text| && !IsDigit(text[k]) && (k > 0 || text[0] != '+') {
      var digits := if text[0] == '+' then text[1..] else text;
      assert digits[if text[0] == '+' then k - 1 else k] == text[k];
    }
  }

  lemma {:induction false} LeadingZero(d: Bytes)
    requires AllDigits(d)
    ensures AllDigits(['0'] + d) && Denotes(['0'] + d) == Denotes(d)
  {
    var more := ['0'] + d;
    if d == [] {
      assert more[..0] == [];
    } else {
      assert more[..|d|] == ['0'] + d[..|d| - 1];
      LeadingZero(d[..|d| - 1]);
    }
  }

  lemma ParseDigits(n: nat)
    requires n < U64
    ensures ParseU64(Digits(n)) == Some(n)
  {
    DigitsDenote(n);
  }
}
