/** Decimal text: `i64::to_string`, zero padding, and Rust's integer `parse`. */
module Decimal {
  import opened Bytes

  const I64_MIN := -0x8000_0000_0000_0000
  const I64_MAX := 0x7FFF_FFFF_FFFF_FFFF
  const U32_MAX := 0xFFFF_FFFF

  predicate IsDigit(c: int) { 0x30 <= c <= 0x39 }

  predicate AllDigits(s: seq<int>) { forall i :: 0 <= i < |s| ==> IsDigit(s[i]) }

  /** Digits of `n` without leading zeros. */
  function Digits(n: nat): (r: bytes)
    ensures |r| >= 1 && AllDigits(r)
  {
    if n < 10 then [ZERO + n] else Digits(n / 10) + [ZERO + n % 10]
  }

  function Signed(x: int): (r: bytes)
    ensures |r| >= 1
  {
    if x < 0 then [MINUS] + Digits(-x) else Digits(x)
  }

  /** The low `width` decimal digits of `n`. */
  function Padded(n: nat, width: nat): (r: bytes)
    ensures |r| == width && AllDigits(r)
  {
    if width == 0 then [] else Padded(n / 10, width - 1) + [ZERO + n % 10]
  }

  function Pow10(w: nat): (r: nat)
    ensures r >= 1
  {
    if w == 0 then 1 else 10 * Pow10(w - 1)
  }

  function Value(s: seq<int>): (v: int)
    requires AllDigits(s)
    ensures v >= 0
  {
    if s == [] then 0 else Value(s[..|s| - 1]) * 10 + (s[|s| - 1] - 0x30)
  }

  /** `str::parse` for an integer type with range `lo..=hi`: an optional `+` (or, for signed types, `-`),
      then at least one digit, and a value in range. */
  function ParseInt(s: seq<int>, lo: int, hi: int): (r: Option<int>)
    ensures r.Some? ==> lo <= r.value <= hi
  {
    var negative := s != [] && s[0] == MINUS && lo < 0;
    var body := if negative || (s != [] && s[0] == PLUS) then s[1..] else s;
    if body == [] || !AllDigits(body) then None
    else
      var v := if negative then -Value(body) else Value(body);
      if lo <= v <= hi then Some(v) else None
  }

  lemma {:induction false} ValueOfDigits(n: nat)
    ensures Value(Digits(n)) == n
  {
    if n >= 10 {
      ValueOfDigits(n / 10);
      assert Digits(n)[..|Digits(n)| - 1] == Digits(n / 10);
    }
  }

  lemma {:induction false} ValueOfPadded(n: nat, width: nat)
    requires n < Pow10(width)
    ensures Value(Padded(n, width)) == n
  {
    if width > 0 {
      ValueOfPadded(n / 10, width - 1);
      assert Padded(n, width)[..width - 1] == Padded(n / 10, width - 1);
    }
  }

  /** Reading back what `to_string` printed. */
  lemma ParseSigned(x: int, lo: int, hi: int)
    requires lo <= x <= hi
    ensures ParseInt(Signed(x), lo, hi) == Some(x)
  {
    hide Digits, Value;
    if x < 0 {
      ValueOfDigits(-x);
      assert Signed(x)[1..] == Digits(-x);
    } else {
      ValueOfDigits(x);
      assert IsDigit(Digits(x)[0]);
    }
  }

  lemma ParsePadded(n: nat, width: nat, lo: int, hi: int)
    requires 0 < width && n < Pow10(width) && lo <= n <= hi
    ensures ParseInt(Padded(n, width), lo, hi) == Some(n)
  {
    ValueOfPadded(n, width);
    assert IsDigit(Padded(n, width)[0]);
  }

  /** No leading zeros, which with `ValueOfDigits` fixes the digits. */
  lemma {:induction false} NoLeadingZero(n: nat)
    ensures |Digits(n)| > 1 ==> Digits(n)[0] != 0x30
    ensures n > 0 ==> Digits(n)[0] != 0x30
  {
    if n >= 10 { NoLeadingZero(n / 10); }
  }

  lemma DigitsExample()
    ensures Digits(1970) == [0x31, 0x39, 0x37, 0x30] && Value([0x31, 0x39, 0x37, 0x30]) == 1970
  {
    assert Digits(197) == [0x31, 0x39, 0x37] && Digits(19) == [0x31, 0x39];
    ValueOfDigits(1970);
  }

  /** A plus sign is read over, a minus sign only where the type has negative values. */
  lemma ParseSigns(n: nat, lo: int, hi: int)
    requires lo <= n <= hi
    ensures ParseInt([0x2B] + Digits(n), lo, hi) == Some(n)
    ensures lo == 0 ==> ParseInt([0x2D] + Digits(n), lo, hi) == None
    ensures lo <= 0 - n && lo < 0 ==> ParseInt([0x2D] + Digits(n), lo, hi) == Some(0 - n)
  {
    hide Digits, Value;
    ValueOfDigits(n);
    assert ([0x2B] + Digits(n))[1..] == Digits(n) && ([0x2D] + Digits(n))[1..] == Digits(n);
    assert !IsDigit(([0x2D] + Digits(n))[0]);
  }

  /** Nothing but digits is a number, nor is what is out of range. */
  lemma NotANumber(s: bytes, lo: int, hi: int)
    ensures s == [] || !AllDigits(s[1..]) || (|s| == 1 && !AllDigits(s)) ==> ParseInt(s, lo, hi) == None
    ensures AllDigits(s) && s != [] && !(lo <= Value(s) <= hi) ==> ParseInt(s, lo, hi) == None
  {
    hide Value;
  }
}
