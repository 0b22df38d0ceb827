/** The two integer conversions INCR relies on (src/main.rs:42-43):
    Rust's `str::parse::<i64>` and `i64::to_string`.

    `parse::<i64>` accepts one optional leading `+` or `-` followed by one
    or more ASCII digits and nothing else, and fails when the value is
    outside the 64-bit signed range. `to_string` writes the shortest
    decimal form, with a `-` for negative values. */
module Decimal {
  import opened Wrappers

  const I64_MIN: int := -0x8000_0000_0000_0000
  const I64_MAX: int := 0x7fff_ffff_ffff_ffff

  predicate InI64(n: int) {
    I64_MIN <= n <= I64_MAX
  }

  predicate IsDigit(c: char) {
    '0' <= c <= '9'
  }

  function DigitValue(c: char): (d: nat)
    requires IsDigit(c)
    ensures d < 10
  {
    c as int - '0' as int
  }

  function DigitChar(d: nat): (c: char)
    requires d < 10
    ensures IsDigit(c) && DigitValue(c) == d
  {
    ('0' as int + d) as char
  }

  /** A non-empty string of ASCII digits. */
  predicate AllDigits(s: string) {
    s != [] && forall i :: 0 <= i < |s| ==> IsDigit(s[i])
  }

  function Pow10(k: nat): nat {
    if k == 0 then 1 else 10 * Pow10(k - 1)
  }

  /** The positional value of a string of digits, read from the most
      significant digit: each digit weighs a power of ten. */
  function Value(s: string): nat
    requires forall i :: 0 <= i < |s| ==> IsDigit(s[i])
  {
    if s == [] then 0 else DigitValue(s[0]) * Pow10(|s| - 1) + Value(s[1..])
  }

  lemma ScaleByTen(a: int, p: int)
    ensures a * (10 * p) == 10 * (a * p)
  {
  }

  /** Appending a digit multiplies the value by ten and adds the digit. */
  lemma {:induction false} ValueSnoc(s: string, c: char)
    requires forall i :: 0 <= i < |s| ==> IsDigit(s[i])
    requires IsDigit(c)
    ensures Value(s + [c]) == 10 * Value(s) + DigitValue(c)
  {
    var t := s + [c];
    if s != [] {
      assert t[1..] == s[1..] + [c];
      ValueSnoc(s[1..], c);
      assert Pow10(|t| - 1) == 10 * Pow10(|s| - 1);
      ScaleByTen(DigitValue(s[0]), Pow10(|s| - 1));
    }
  }

  /** The digit loop of `parse::<i64>`: the value of the digits read so
      far times ten plus the next one; `None` when the string is empty or
      holds anything but ASCII digits. */
  function ParseDigits(s: string): (r: Option<nat>)
    ensures r.Some? <==> AllDigits(s)
  {
    if s == [] || !IsDigit(s[|s| - 1]) then None
    else if |s| == 1 then Some(DigitValue(s[0]))
    else
      var init := s[..|s| - 1];
      assert s == init + [s[|s| - 1]];
      match ParseDigits(init)
      case None => None
      case Some(v) => Some(v * 10 + DigitValue(s[|s| - 1]))
  }

  /** The digit loop computes the positional value. */
  lemma {:induction false} ParseDigitsValue(s: string)
    ensures ParseDigits(s).Some? ==> ParseDigits(s).value == Value(s)
  {
    if |s| > 1 && ParseDigits(s).Some? {
      var init := s[..|s| - 1];
      assert s == init + [s[|s| - 1]];
      ParseDigitsValue(init);
      ValueSnoc(init, s[|s| - 1]);
    }
  }

  /** The shortest decimal form of a natural number. */
  function ShowNat(n: nat): (s: string)
    ensures s != [] && IsDigit(s[0]) && ParseDigits(s) == Some(n)
    ensures |s| == 1 || s[0] != '0'
  {
    if n < 10 then [DigitChar(n)]
    else
      var s := ShowNat(n / 10) + [DigitChar(n % 10)];
      assert s[..|s| - 1] == ShowNat(n / 10);
      s
  }

  /** The text after one optional leading sign. */
  function Unsigned(s: string): string {
    if s != [] && (s[0] == '+' || s[0] == '-') then s[1..] else s
  }

  /** The integer a sign and a string of digits denote, whatever its size. */
  function SignedValue(s: string): int
    requires AllDigits(Unsigned(s))
  {
    if s[0] == '-' then -(Value(Unsigned(s)) as int) else Value(Unsigned(s))
  }

  /** `i64::to_string`: a `-` for negative values, then the digits of
      the magnitude. */
  function ShowInt(n: int): (s: string)
    ensures s != [] && (s[0] == '-' <==> n < 0)
  {
    if n < 0 then
      var s := "-" + ShowNat(-n);
      assert s[1..] == ShowNat(-n);
      s
    else ShowNat(n)
  }

  /** The text `to_string` writes is an optional sign and digits that denote `n`
      again, whatever its size. */
  lemma ShowIntValue(n: int)
    ensures AllDigits(Unsigned(ShowInt(n))) && SignedValue(ShowInt(n)) == n
  {
    var s := ShowInt(n);
    if n < 0 {
      assert Unsigned(s) == ShowNat(-n);
    } else {
      assert Unsigned(s) == ShowNat(n);
    }
    ParseDigitsValue(Unsigned(s));
  }

  /** The text `to_string` writes is the canonical form: no `+`, and no
      leading zero in the digits unless the magnitude is zero. */
  lemma ShowIntCanonical(n: int)
    ensures ShowInt(n)[0] != '+'
    ensures |Unsigned(ShowInt(n))| == 1 || Unsigned(ShowInt(n))[0] != '0'
  {
    if n < 0 {
      assert Unsigned(ShowInt(n)) == ShowNat(-n);
    } else {
      assert Unsigned(ShowInt(n)) == ShowNat(n);
    }
  }

  /** `str::parse::<i64>`; `None` is its `Err`. */
  function ParseI64(s: string): (r: Option<int>)
    ensures r.Some? ==> InI64(r.value)
  {
    if s == [] then None
    else
      var digits := if s[0] == '+' || s[0] == '-' then s[1..] else s;
      match ParseDigits(digits)
      case None => None
      case Some(m) =>
        var v: int := if s[0] == '-' then -(m as int) else m;
        if InI64(v) then Some(v) else None
  }

  /** `parse::<i64>` accepts exactly one optional `+` or `-` followed by
      one or more ASCII digits whose signed value fits in 64 bits, and gives
      that value. */
  lemma ParseI64Meaning(s: string)
    ensures ParseI64(s).Some? <==> AllDigits(Unsigned(s)) && InI64(SignedValue(s))
    ensures ParseI64(s).Some? ==> ParseI64(s).value == SignedValue(s)
  {
    ParseDigitsValue(Unsigned(s));
  }

  /** `to_string` followed by `parse` gives back every 64-bit value,
      and rejects every other one instead of wrapping it. */
  lemma ParseShowRoundTrip(n: int)
    ensures ParseI64(ShowInt(n)) == if InI64(n) then Some(n) else None
  {
    ShowIntValue(n);
  }

  /** Strings that are not integers make INCR fail. */
  lemma ParseRejects()
    ensures ParseI64("hello") == None && ParseI64("-") == None
    ensures ParseI64("") == None && ParseI64("+-1") == None
  {
    assert !IsDigit("hello"[4]);
    var digits := "+-1"[1..];
    assert digits == "-1" && digits[..1] == "-";
    assert ParseDigits("-") == None;
  }

  /** Accepted forms: an optional sign, digits, leading zeros allowed. */
  lemma ParseAccepts()
    ensures ParseI64("0") == Some(0) && ParseI64("+7") == Some(7)
    ensures ParseI64("-12") == Some(-12) && ParseI64("007") == Some(7)
  {
    assert "+7"[1..] == "7";
    assert "-12"[1..] == "12";
    assert ParseDigits("12") == Some(12) by { assert "12"[..1] == "1"; }
    assert ParseDigits("007") == Some(7) by { assert "007"[..2] == "00"; assert "00"[..1] == "0"; }
  }
}
