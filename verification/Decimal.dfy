/** Decimal text as Rust's `to_string`, `parse::<u128>` and zero-padded
    formatting read and write it. Shared by the duration, quantity and
    pre-authentication encodings. */
module Decimal {
  import opened Base

  const U128: nat := 0x1_0000_0000_0000_0000_0000_0000_0000_0000

  lemma U128IsTwoTo128()
    ensures U128 == Pow2(128)
  {
    hide Pow2;
    Pow2To64();
    Pow2Add(64, 64);
  }

  predicate IsDigit(c: char) {
    '0' <= c <= '9'
  }

  predicate AllDigits(s: string) {
    forall i :: 0 <= i < |s| ==> IsDigit(s[i])
  }

  function DigitChar(d: nat): (c: char)
    requires d < 10
    ensures IsDigit(c) && DigitOf(c) == d
  {
    '0' + d as char
  }

  function DigitOf(c: char): nat
    requires IsDigit(c)
  {
    c as int - '0' as int
  }

  function Pow10(k: nat): (p: nat)
    ensures p > 0
  {
    if k == 0 then 1 else 10 * Pow10(k - 1)
  }

  /** `to_string` */
  function Dec(n: nat): string {
    if n < 10 then [DigitChar(n)] else Dec(n / 10) + [DigitChar(n % 10)]
  }

  function Value(s: string): nat
    requires AllDigits(s)
  {
    if s == [] then 0 else Value(s[..|s| - 1]) * 10 + DigitOf(s[|s| - 1])
  }

  /** `parse::<u128>` of a text of digits and dots. */
  function ParseU128(s: string): Option<nat> {
    if s != [] && AllDigits(s) && Value(s) < U128 then Some(Value(s)) else None
  }

  lemma {:induction false} DecRoundTrip(n: nat)
    ensures AllDigits(Dec(n)) && Dec(n) != [] && Value(Dec(n)) == n
  {
    if n >= 10 {
      DecRoundTrip(n / 10);
      assert Dec(n)[..|Dec(n)| - 1] == Dec(n / 10);
    } else {
      assert Dec(n)[..0] == [];
    }
  }

  lemma {:induction false} ValueBound(s: string)
    requires AllDigits(s)
    ensures Value(s) < Pow10(|s|)
  {
    if s != [] { ValueBound(s[..|s| - 1]); }
  }

  lemma {:induction false} DecLength(n: nat, w: nat)
    requires w > 0
    ensures |Dec(n)| <= w <==> n < Pow10(w)
  {
    if n >= 10 {
      if w > 1 { DecLength(n / 10, w - 1); } else { assert Pow10(1) == 10; }
    } else {
      assert Pow10(w) == 10 * Pow10(w - 1);
    }
  }

  lemma TenTimes(v: nat, p: nat)
    ensures v * p * 10 == v * (10 * p)
  {}

  lemma {:induction false} ValueAppend(s: string, t: string)
    requires AllDigits(s) && AllDigits(t)
    ensures AllDigits(s + t) && Value(s + t) == Value(s) * Pow10(|t|) + Value(t)
  {
    if t == [] {
      assert s + t == s;
    } else {
      var n := |t| - 1;
      ValueAppend(s, t[..n]);
      assert (s + t)[..|s + t| - 1] == s + t[..n];
      TenTimes(Value(s), Pow10(n));
    }
  }

  /** Text is read in base ten, the ASCII digits by their values. */
  lemma DigitsAreDecimal(s: string, d: nat, c: char)
    requires d < 10
    ensures IsDigit(c) <==> c in "0123456789"
    ensures Value("") == 0 && Dec(d) == ["0123456789"[d]]
    ensures AllDigits(s) ==>
              AllDigits(s + ["0123456789"[d]]) && Value(s + ["0123456789"[d]]) == 10 * Value(s) + d
  {
    assert '0' in "0123456789";
    assert IsDigit(c) ==> "0123456789"[c as int - '0' as int] == c;
    var t := s + ["0123456789"[d]];
    assert t[..|s|] == s;
  }

  function Zeros(k: nat): (s: string)
    ensures |s| == k && forall i :: 0 <= i < k ==> s[i] == '0'
  {
    seq(k, _ => '0')
  }

  lemma {:induction false} ZerosValue(k: nat)
    ensures AllDigits(Zeros(k)) && Value(Zeros(k)) == 0
  {
    if k > 0 {
      ZerosValue(k - 1);
      assert Zeros(k)[..k - 1] == Zeros(k - 1);
    }
  }

  /** `format!("{n:0width$}")` */
  function Padded(n: nat, width: nat): string {
    (if |Dec(n)| < width then Zeros(width - |Dec(n)|) else []) + Dec(n)
  }

  lemma PaddedValue(n: nat, width: nat)
    requires 0 < width && n < Pow10(width)
    ensures var s := Padded(n, width);
            |s| == width && AllDigits(s) && Value(s) == n
  {
    DecRoundTrip(n);
    DecLength(n, width);
    var k := width - |Dec(n)|;
    ZerosValue(k);
    ValueAppend(Zeros(k), Dec(n));
  }

  /** `while f.ends_with('0') { f.pop(); }` */
  function TrimZeros(s: string): string {
    if s != [] && s[|s| - 1] == '0' then TrimZeros(s[..|s| - 1]) else s
  }

  lemma {:induction false} TrimZerosValue(s: string)
    requires AllDigits(s)
    ensures var t := TrimZeros(s);
            && |t| <= |s| && AllDigits(t)
            && Value(s) == Value(t) * Pow10(|s| - |t|)
            && (Value(s) > 0 ==> t != [])
  {
    if s != [] && s[|s| - 1] == '0' {
      TrimZerosValue(s[..|s| - 1]);
      var t := TrimZeros(s);
      TenTimes(Value(t), Pow10(|s| - 1 - |t|));
    }
  }

  lemma {:induction false} Pow10Add(a: nat, b: nat)
    ensures Pow10(a + b) == Pow10(a) * Pow10(b)
  {
    if a > 0 {
      Pow10Add(a - 1, b);
      assert 10 * (Pow10(a - 1) * Pow10(b)) == (10 * Pow10(a - 1)) * Pow10(b);
    }
  }

  lemma Pow10Monotone(a: nat, b: nat)
    requires a <= b
    ensures Pow10(a) <= Pow10(b)
  {
    Pow10Add(a, b - a);
    assert Pow10(a) * Pow10(b - a) >= Pow10(a);
  }

  // ------------------------------------------------- a number before its unit

  predicate NumberChar(c: char) {
    IsDigit(c) || c == '.'
  }

  /** `take_while(..).count()` over digits and dots. */
  function NumberSpan(s: string): (n: nat)
    ensures n <= |s|
  {
    if s != [] && NumberChar(s[0]) then 1 + NumberSpan(s[1..]) else 0
  }

  lemma {:induction false} NumberSpanIs(number: string, rest: string)
    requires forall i :: 0 <= i < |number| ==> NumberChar(number[i])
    requires rest == [] || !NumberChar(rest[0])
    ensures NumberSpan(number + rest) == |number|
  {
    if number == [] {
      assert number + rest == rest;
    } else {
      assert (number + rest)[1..] == number[1..] + rest;
      NumberSpanIs(number[1..], rest);
    }
  }

  /** `split_once('.')`, or the whole text with an empty fraction. */
  function SplitDot(s: string): (string, string) {
    if s == [] then ("", "")
    else if s[0] == '.' then ("", s[1..])
    else var (w, f) := SplitDot(s[1..]); ([s[0]] + w, f)
  }

  lemma {:induction false} SplitDotIs(whole: string, fraction: string)
    requires AllDigits(whole)
    ensures SplitDot(whole) == (whole, "")
    ensures SplitDot(whole + "." + fraction) == (whole, fraction)
  {
    if whole == [] {
      assert whole + "." + fraction == "." + fraction && ("." + fraction)[1..] == fraction;
    } else {
      assert (whole + "." + fraction)[1..] == whole[1..] + "." + fraction;
      SplitDotIs(whole[1..], fraction);
      assert [whole[0]] + whole[1..] == whole;
    }
  }

  function Number(whole: string, dot: bool, fraction: string): string {
    if dot then whole + "." + fraction else whole
  }

  /** `10u128.checked_pow(len)` */
  function CheckedPow10(len: nat): Option<nat> {
    if Pow10(len) < U128 then Some(Pow10(len)) else None
  }

  /** 10^38 is the largest power of ten a u128 holds. */
  lemma CheckedPow10Is(len: nat)
    ensures CheckedPow10(len).Some? <==> len <= 38
  {
    Pow38();
    if len <= 38 { Pow10Monotone(len, 38); } else { Pow10Monotone(39, len); }
  }

  lemma Pow38()
    ensures Pow10(20) == 100_000_000_000_000_000_000
    ensures Pow10(25) == 10_000_000_000_000_000_000_000_000
    ensures Pow10(38) == 100_000_000_000_000_000_000_000_000_000_000_000_000
    ensures Pow10(39) == 10 * Pow10(38)
  {
    assert Pow10(5) == 100_000;
    Pow10Add(5, 5);
    Pow10Add(10, 10);
    Pow10Add(20, 5);
    Pow10Add(20, 10);
    Pow10Add(30, 8);
    assert Pow10(8) == 100_000_000 by { Pow10Add(5, 3); assert Pow10(3) == 1000; }
  }

  /** A number is the two sides of its first dot, if it has one. */
  lemma {:induction false} SplitDotJoins(s: string) returns (dot: bool)
    ensures s == Number(SplitDot(s).0, dot, SplitDot(s).1) && (dot || SplitDot(s).1 == "")
  {
    if s == "" {
      dot := false;
    } else if s[0] == '.' {
      dot := true;
      assert s == "" + "." + s[1..];
    } else {
      dot := SplitDotJoins(s[1..]);
      var (w, f) := SplitDot(s[1..]);
      assert s == [s[0]] + s[1..];
      assert [s[0]] + (w + "." + f) == ([s[0]] + w) + "." + f;
    }
  }

  lemma {:induction false} NumberSpanChars(s: string)
    ensures forall i :: 0 <= i < NumberSpan(s) ==> NumberChar(s[i])
  {
    if s != "" && NumberChar(s[0]) { NumberSpanChars(s[1..]); }
  }

  lemma WholeIs(whole: string)
    requires AllDigits(whole)
    ensures whole == "" ==> Value(whole) == 0
    ensures whole != "" ==> ParseU128(whole) == if Value(whole) < U128 then Some(Value(whole)) else None
  {}

  /** Up to 38 digits a fraction and its denominator are read; beyond, the
      checked power refuses. */
  lemma FractionIs(fraction: string)
    requires AllDigits(fraction) && fraction != ""
    ensures |fraction| <= 38 ==>
              && ParseU128(fraction) == Some(Value(fraction)) && Pow10(|fraction|) < U128
              && CheckedPow10(|fraction|) == Some(Pow10(|fraction|))
    ensures |fraction| > 38 ==> CheckedPow10(|fraction|) == None
  {
    CheckedPow10Is(|fraction|);
    ValueBound(fraction);
  }

  function Nines(k: nat): (s: string)
    ensures AllDigits(s) && |s| == k
  {
    seq(k, _ => '9')
  }

  lemma {:induction false} NinesValue(k: nat)
    ensures Value(Nines(k)) == Pow10(k) - 1
  {
    if k > 0 {
      NinesValue(k - 1);
      assert Nines(k)[..k - 1] == Nines(k - 1);
    }
  }

  /** A fraction's product in unchecked 128-bit arithmetic, and when it is the
      true one: it wraps exactly when it is at least 2^128, and then every
      quotient by a power of ten that fits is wrong. */
  function WrappingMul(a: nat, b: nat): nat {
    a * b % U128
  }

  lemma WrappingMulExact(f: nat, scale: nat, denom: nat)
    requires 0 < denom < U128
    ensures WrappingMul(f, scale) / denom == f * scale / denom <==> f * scale < U128
  {
    var p := f * scale;
    if p >= U128 {
      var w := p % U128;
      assert p >= w + U128;
      assert p >= w + denom;
      DivStep(w, p, denom);
    }
  }

  lemma DivStep(w: nat, p: nat, denom: nat)
    requires denom > 0 && p >= w + denom
    ensures p / denom > w / denom
  {
    var q := w / denom;
    assert w == q * denom + w % denom;
    assert p >= (q + 1) * denom;
  }

  // ------------------------------------------------- integer division facts

  lemma AtLeast(x: nat, scale: nat)
    requires scale >= 1
    ensures x * scale >= x
  {}

  lemma Difference(p: int, q: int, d: int)
    ensures (p - q) * d == p * d - q * d && d * (p - q) == (p - q) * d
  {}

  function Quotient(a: nat, b: nat): nat
    requires b > 0
  {
    a / b
  }

  lemma DivUnique(x: nat, d: nat, q: nat, r: nat)
    requires d > 0 && x == q * d + r && r < d
    ensures x / d == q
  {
    var p, e := x / d, x % d;
    Difference(p, q, d);
    assert (p - q) * d == r - e;
    if p > q { AtLeast(d, p - q); } else if p < q { AtLeast(d, q - p); Difference(q, p, d); }
  }
}
