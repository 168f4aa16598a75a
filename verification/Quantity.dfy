/** The quantity subset of crates/function/src/quantity.rs: `parse` and
    `format_binary_si`. */
module Quantity {
  import opened Base
  import opened Decimal

  const BINARY: seq<(string, nat)> :=
    [("Ki", 10), ("Mi", 20), ("Gi", 30), ("Ti", 40), ("Pi", 50), ("Ei", 60)]

  const I128_BOUND: nat := 0x8000_0000_0000_0000_0000_0000_0000_0000

  function Scale(suffix: string): Option<nat> {
    if suffix == "" then Some(1)
    else if suffix == "Ki" then Some(Pow2(10))
    else if suffix == "Mi" then Some(Pow2(20))
    else if suffix == "Gi" then Some(Pow2(30))
    else if suffix == "Ti" then Some(Pow2(40))
    else if suffix == "Pi" then Some(Pow2(50))
    else if suffix == "Ei" then Some(Pow2(60))
    else if suffix == "k" then Some(1_000)
    else if suffix == "M" then Some(1_000_000)
    else if suffix == "G" then Some(1_000_000_000)
    else if suffix == "T" then Some(1_000_000_000_000)
    else if suffix == "P" then Some(1_000_000_000_000_000)
    else if suffix == "E" then Some(1_000_000_000_000_000_000)
    else None
  }

  function DivCeil(a: nat, b: nat): nat
    requires b > 0
  {
    (a + b - 1) / b
  }

  /** The magnitude `whole.fraction * scale`, as the checked u128 steps give
      it; the fraction's product is unchecked and wraps. */
  function Magnitude(whole: string, fraction: string, scale: nat): Option<nat> {
    var w := if whole == "" then Some(0) else ParseU128(whole);
    if w.None? || w.value * scale >= U128 then None
    else if fraction == "" then Some(w.value * scale)
    else
      var f, denom := ParseU128(fraction), CheckedPow10(|fraction|);
      if f.None? || denom.None? then None
      else
        var sum := w.value * scale + DivCeil(WrappingMul(f.value, scale), denom.value);
        if sum >= U128 then None else Some(sum)
  }

  /** `parse` behind the sign. */
  function ParseUnsigned(rest: string): Option<nat> {
    var digits := NumberSpan(rest);
    if digits == 0 then None
    else
      var scale := Scale(rest[digits..]);
      if scale.None? then None
      else
        var (whole, fraction) := SplitDot(rest[..digits]);
        if whole == "" && fraction == "" then None
        else Magnitude(whole, fraction, scale.value)
  }

  datatype Sign = Bare | Plus | Minus
  {
    function Text(): string {
      match this case Bare => "" case Plus => "+" case Minus => "-"
    }

    function Of(v: int): int {
      if Minus? then -v else v
    }
  }

  function Parse(s: string): Option<int> {
    var sign := if s != "" && s[0] == '-' then Minus else if s != "" && s[0] == '+' then Plus else Bare;
    var m := ParseUnsigned(if sign.Bare? then s else s[1..]);
    if m.None? || m.value >= I128_BOUND then None else Some(sign.Of(m.value))
  }

  /** The loop over `BINARY.iter().rev()`, with n suffixes left to try. */
  function FormatFrom(bytes: nat, n: nat): string
    requires n <= |BINARY|
  {
    if n == 0 then Dec(bytes)
    else
      var (suffix, shift) := BINARY[n - 1];
      if bytes >= Pow2(shift) && bytes % Pow2(shift) == 0 then Dec(bytes / Pow2(shift)) + suffix
      else FormatFrom(bytes, n - 1)
  }

  function FormatBinarySi(bytes: nat): string {
    FormatFrom(bytes, |BINARY|)
  }

  // ------------------------------------------------------------- exactness

  /** A suffix never starts with a digit or a dot, and no scale exceeds 2^60. */
  lemma ScaleBound(suffix: string)
    requires Scale(suffix).Some?
    ensures 1 <= Scale(suffix).value <= 1_152_921_504_606_846_976
    ensures suffix == "" || !NumberChar(suffix[0])
  {
    hide Pow2;
    Pow2Table();
    SuffixStart(suffix);
  }

  lemma SuffixStart(suffix: string)
    requires Scale(suffix).Some?
    ensures suffix == "" || !NumberChar(suffix[0])
  {
    hide Pow2;
  }

  lemma Pow2Table()
    ensures Pow2(10) == 1024 && Pow2(20) == 1_048_576 && Pow2(30) == 1_073_741_824
    ensures Pow2(40) == 1_099_511_627_776 && Pow2(50) == 1_125_899_906_842_624
    ensures Pow2(60) == 1_152_921_504_606_846_976
  {
    assert Pow2(5) == 32;
    Pow2Add(5, 5);
    Pow2Add(10, 10);
    Pow2Add(20, 10);
    Pow2Add(30, 10);
    Pow2Add(40, 10);
    Pow2Add(50, 10);
  }

  /** Up to twenty fraction digits the unchecked product fits. */
  lemma FractionFits(fraction: string, scale: nat)
    requires AllDigits(fraction) && |fraction| <= 20 && scale <= 1_152_921_504_606_846_976
    ensures Value(fraction) * scale < U128
  {
    hide Value, Pow10;
    ValueBound(fraction);
    Pow10Monotone(|fraction|, 20);
    Pow38();
    MulMonotone(Value(fraction), 100_000_000_000_000_000_000, scale);
  }

  lemma MulMonotone(a: nat, b: nat, scale: nat)
    requires a <= b
    ensures a * scale <= b * scale
  {}

  /** The true value of `whole.fraction`, times 10^|fraction|. */
  function Numerator(whole: string, fraction: string): nat
    requires AllDigits(whole) && AllDigits(fraction)
  {
    Value(whole) * Pow10(|fraction|) + Value(fraction)
  }

  /** The true value of `whole.fraction` times scale, rounded up. */
  function TrueCeiling(whole: string, fraction: string, scale: nat): nat
    requires AllDigits(whole) && AllDigits(fraction)
  {
    DivCeil(Numerator(whole, fraction) * scale, Pow10(|fraction|))
  }

  lemma CeilSplit(w: nat, f: nat, scale: nat, denom: nat)
    requires denom > 0
    ensures DivCeil((w * denom + f) * scale, denom) == w * scale + DivCeil(f * scale, denom)
  {
    var a, b := w * scale, f * scale + denom - 1;
    assert (w * denom + f) * scale == w * denom * scale + f * scale;
    assert w * denom * scale == a * denom;
    assert a * denom + b == b + denom * a;
    assert (b + denom * a) / denom == b / denom + a by { DivShift(b, denom, a); }
  }

  lemma DivShift(b: nat, d: nat, a: nat)
    requires d > 0
    ensures (b + d * a) / d == b / d + a
  {
    var q, r := b / d, b % d;
    assert b + d * a == (q + a) * d + r;
    DivUnique(b + d * a, d, q + a, r);
  }

  /** `parse` rounds up exactly: for any sign, any digits with at most one dot,
      at most twenty of them behind it, and any suffix, the result is the
      ceiling of the true product, or an error exactly when that does not fit
      an i128. */
  lemma ParseIsTheCeiling(sign: Sign, whole: string, dot: bool, fraction: string, suffix: string)
    requires AllDigits(whole) && AllDigits(fraction) && |fraction| <= 20
    requires (dot || fraction == "") && (whole != "" || fraction != "")
    requires Scale(suffix).Some?
    ensures var c := TrueCeiling(whole, fraction, Scale(suffix).value);
            Parse(sign.Text() + (Number(whole, dot, fraction) + suffix))
            == if c < I128_BOUND then Some(sign.Of(c)) else None
  {
    hide *;
    Tokens(whole, dot, fraction, suffix);
    ScaleBound(suffix);
    MagnitudeIsTheCeiling(whole, fraction, Scale(suffix).value);
    SignSplit(sign, Number(whole, dot, fraction) + suffix);
    Bounds();
  }

  lemma Bounds()
    ensures I128_BOUND < U128
  {}

  lemma SignSplit(sign: Sign, rest: string)
    requires rest != "" && NumberChar(rest[0])
    ensures var m := ParseUnsigned(rest);
            Parse(sign.Text() + rest)
            == if m.None? || m.value >= I128_BOUND then None else Some(sign.Of(m.value))
  {
    hide ParseUnsigned;
    assert sign != Bare ==> (sign.Text() + rest)[0] == sign.Text()[0] && (sign.Text() + rest)[1..] == rest;
    assert sign == Bare ==> sign.Text() + rest == rest;
  }

  lemma Tokens(whole: string, dot: bool, fraction: string, suffix: string)
    requires AllDigits(whole) && AllDigits(fraction)
    requires (dot || fraction == "") && (whole != "" || fraction != "") && Scale(suffix).Some?
    ensures var rest := Number(whole, dot, fraction) + suffix;
            && ParseUnsigned(rest) == Magnitude(whole, fraction, Scale(suffix).value)
            && rest != "" && NumberChar(rest[0])
  {
    hide Magnitude, Scale;
    var number := Number(whole, dot, fraction);
    ScaleBound(suffix);
    NumberSpanIs(number, suffix);
    SplitDotIs(whole, fraction);
    var rest := number + suffix;
    assert rest[..|number|] == number && rest[|number|..] == suffix;
    assert number[0] == rest[0];
  }

  lemma MagnitudeIsTheCeiling(whole: string, fraction: string, scale: nat)
    requires AllDigits(whole) && AllDigits(fraction) && |fraction| <= 20
    requires 1 <= scale <= 1_152_921_504_606_846_976
    ensures var c := TrueCeiling(whole, fraction, scale);
            Magnitude(whole, fraction, scale) == if c < U128 then Some(c) else None
  {
    hide Pow10, DivCeil, Value, WrappingMul, CheckedPow10, ParseU128;
    var w, f, denom := Value(whole), Value(fraction), Pow10(|fraction|);
    CeilSplit(w, f, scale, denom);
    FractionFits(fraction, scale);
    CheckedPow10Is(|fraction|);
    AtLeast(w, scale);
    Factors(whole, fraction, scale);
    CeilOfZero();
  }

  lemma Factors(whole: string, fraction: string, scale: nat)
    requires AllDigits(whole) && AllDigits(fraction) && |fraction| <= 20 && scale >= 1
    requires Value(fraction) * scale < U128
    ensures whole == "" ==> Value(whole) == 0
    ensures whole != "" ==> ParseU128(whole) == if Value(whole) < U128 then Some(Value(whole)) else None
    ensures fraction == "" ==> Value(fraction) == 0 && Value(fraction) * scale == 0
    ensures fraction != "" ==> ParseU128(fraction) == Some(Value(fraction))
    ensures WrappingMul(Value(fraction), scale) == Value(fraction) * scale
    ensures CheckedPow10(|fraction|).Some? ==> CheckedPow10(|fraction|).value == Pow10(|fraction|)
  {
    AtLeast(Value(fraction), scale);
  }

  lemma CeilOfZero()
    ensures Pow10(0) == 1 && forall x: nat :: DivCeil(x, 1) == x
  {}

  // ---------------------------------------------------- what suffixes denote

  /** A binary suffix and its unit. */
  ghost predicate BinaryUnit(suffix: string, unit: nat) {
    || (suffix == "Ki" && unit == 1_024)
    || (suffix == "Mi" && unit == 1_048_576)
    || (suffix == "Gi" && unit == 1_073_741_824)
    || (suffix == "Ti" && unit == 1_099_511_627_776)
    || (suffix == "Pi" && unit == 1_125_899_906_842_624)
    || (suffix == "Ei" && unit == 1_152_921_504_606_846_976)
  }

  /** The suffixes of the Kubernetes quantity format from a unit up. */
  ghost predicate Denotes(suffix: string, unit: nat) {
    || (suffix == "" && unit == 1)
    || (suffix == "k" && unit == 1_000)
    || (suffix == "M" && unit == 1_000_000)
    || (suffix == "G" && unit == 1_000_000_000)
    || (suffix == "T" && unit == 1_000_000_000_000)
    || (suffix == "P" && unit == 1_000_000_000_000_000)
    || (suffix == "E" && unit == 1_000_000_000_000_000_000)
    || BinaryUnit(suffix, unit)
  }

  lemma ScaleDenotes(suffix: string, unit: nat)
    ensures Scale(suffix) == Some(unit) <==> Denotes(suffix, unit)
  {
    hide Pow2;
    Pow2Table();
  }

  /** A whole count and its suffix read as the product, a minus sign as its
      negation, while the product is below 2^127. */
  lemma WholeQuantity(n: nat, suffix: string, unit: nat)
    requires Denotes(suffix, unit)
    ensures var fits := n * unit < 170_141_183_460_469_231_731_687_303_715_884_105_728;
            && Parse("" + (Dec(n) + suffix)) == (if fits then Some(n * unit) else None)
            && Parse("+" + (Dec(n) + suffix)) == (if fits then Some(n * unit) else None)
            && Parse("-" + (Dec(n) + suffix)) == (if fits then Some(-(n * unit)) else None)
  {
    hide Dec, Value, Pow10, Parse, Scale, Denotes;
    DecRoundTrip(n);
    ScaleDenotes(suffix, unit);
    CeilOfZero();
    ParseIsTheCeiling(Bare, Dec(n), false, "", suffix);
    ParseIsTheCeiling(Plus, Dec(n), false, "", suffix);
    ParseIsTheCeiling(Minus, Dec(n), false, "", suffix);
    EmptyValue();
  }

  /** Nothing else is a suffix. */
  lemma OtherSuffixIsRefused(sign: Sign, n: nat, suffix: string)
    requires suffix != "" && suffix[0] !in "0123456789." && forall unit :: !Denotes(suffix, unit)
    ensures Parse(sign.Text() + (Dec(n) + suffix)) == None
  {
    hide Dec, Value, Scale, Parse, Denotes;
    DecRoundTrip(n);
    if Scale(suffix).Some? { ScaleDenotes(suffix, Scale(suffix).value); }
    DigitsAreDecimal("", 0, suffix[0]);
    NumberSpanIs(Dec(n), suffix);
    var rest := Dec(n) + suffix;
    assert rest[|Dec(n)|..] == suffix && rest[0] == Dec(n)[0];
    SignSplit(sign, rest);
  }

  // ------------------------------------------------------------ round trip

  /** Every u64 byte count is read back from how it is printed. */
  lemma FormatRoundTrip(bytes: nat)
    requires bytes < 0x1_0000_0000_0000_0000
    ensures Parse(FormatBinarySi(bytes)) == Some(bytes)
  {
    FormatFromRoundTrip(bytes, |BINARY|);
  }

  lemma BinaryScales(n: nat)
    requires n < |BINARY|
    ensures Scale(BINARY[n].0) == Some(Pow2(BINARY[n].1))
  {
    hide Pow2;
    match n { case 0 => case 1 => case 2 => case 3 => case 4 => case 5 => }
  }

  lemma {:induction false} FormatFromRoundTrip(bytes: nat, n: nat)
    requires bytes < I128_BOUND && n <= |BINARY|
    ensures Parse(FormatFrom(bytes, n)) == Some(bytes)
  {
    hide Parse, Scale, Pow2, Dec;
    if n == 0 {
      EmptyScale();
      PrintedCount(bytes, "");
    } else {
      BinaryScales(n - 1);
      var (suffix, shift) := BINARY[n - 1];
      var unit := Pow2(shift);
      if bytes >= unit && bytes % unit == 0 {
        assert bytes / unit * unit == bytes;
        PrintedCount(bytes / unit, suffix);
      } else {
        FormatFromRoundTrip(bytes, n - 1);
      }
    }
  }

  /** The n-th suffix's unit divides a count of at least one such unit. */
  predicate Divides(bytes: nat, n: nat)
    requires n < |BINARY|
  {
    bytes >= Pow2(BINARY[n].1) && bytes % Pow2(BINARY[n].1) == 0
  }

  function Units(bytes: nat, n: nat): nat
    requires n < |BINARY|
  {
    Quotient(bytes, Pow2(BINARY[n].1))
  }

  lemma {:induction false} FormatFromPicks(bytes: nat, n: nat, top: nat)
    requires n <= top <= |BINARY| && forall m :: n <= m < top ==> !Divides(bytes, m)
    ensures FormatFrom(bytes, top) == FormatFrom(bytes, n)
  {
    hide Pow2, Dec;
    if n < top {
      assert !Divides(bytes, top - 1);
      FormatFromPicks(bytes, n, top - 1);
    }
  }

  /** The printed suffix is the largest whose unit divides the count evenly,
      and there is none when no unit does. */
  lemma FormatPicksTheLargest(bytes: nat, n: nat)
    requires n <= |BINARY| && forall m :: n <= m < |BINARY| ==> !Divides(bytes, m)
    ensures n == 0 ==> FormatBinarySi(bytes) == Dec(bytes)
    ensures n > 0 && Divides(bytes, n - 1) ==>
              FormatBinarySi(bytes) == Dec(Units(bytes, n - 1)) + BINARY[n - 1].0
  {
    hide *;
    FormatFromPicks(bytes, n, |BINARY|);
    FormatStarts(bytes);
    if n > 0 && Divides(bytes, n - 1) { FormatsHere(bytes, n); } else if n == 0 { FormatsPlain(bytes); }
  }

  lemma UnitTable()
    ensures |BINARY| == 6 && forall m :: 0 <= m < 6 ==> BinaryUnit(BINARY[m].0, Pow2(BINARY[m].1))
    ensures forall l, m :: 0 <= l < m < 6 ==> Pow2(BINARY[l].1) < Pow2(BINARY[m].1)
  {
    hide Pow2;
    Pow2Table();
  }

  lemma UnitIndex(suffix: string, unit: nat) returns (n: nat)
    requires BinaryUnit(suffix, unit)
    ensures n < |BINARY| && BINARY[n].0 == suffix && Pow2(BINARY[n].1) == unit
  {
    hide Pow2;
    Pow2Table();
    n := match suffix case "Ki" => 0 case "Mi" => 1 case "Gi" => 2 case "Ti" => 3 case "Pi" => 4 case _ => 5;
  }

  /** The same with the units by value: a count is printed in the largest of
      them that divides it, and in none when none does. */
  lemma FormatIsInLargestUnit(q: nat, suffix: string, unit: nat)
    requires q > 0 && BinaryUnit(suffix, unit)
    requires forall s, u: nat :: BinaryUnit(s, u) && u > unit ==> (q * unit) % u != 0
    ensures FormatBinarySi(q * unit) == Dec(q) + suffix
  {
    hide Pow2, Dec, FormatBinarySi;
    var n := UnitIndex(suffix, unit);
    UnitTable();
    Whole(q, unit);
    FormatPicksTheLargest(q * unit, n + 1);
  }

  lemma FormatIsPlain(bytes: nat)
    requires forall s, u: nat :: BinaryUnit(s, u) ==> bytes < u || bytes % u != 0
    ensures FormatBinarySi(bytes) == Dec(bytes)
  {
    hide Pow2, Dec, FormatBinarySi;
    UnitTable();
    FormatPicksTheLargest(bytes, 0);
  }

  lemma Whole(q: nat, unit: nat)
    requires q > 0 && unit > 0
    ensures q * unit >= unit && (q * unit) % unit == 0 && Quotient(q * unit, unit) == q
  {
    AtLeast(unit, q);
    DivUnique(q * unit, unit, q, 0);
    assert q * unit == unit * q;
  }

  lemma FormatStarts(bytes: nat)
    ensures FormatBinarySi(bytes) == FormatFrom(bytes, |BINARY|)
  {
    hide FormatFrom;
  }

  lemma FormatsPlain(bytes: nat)
    ensures FormatFrom(bytes, 0) == Dec(bytes)
  {
    hide Dec;
  }

  lemma FormatsHere(bytes: nat, n: nat)
    requires 0 < n <= |BINARY| && Divides(bytes, n - 1)
    ensures FormatFrom(bytes, n) == Dec(Units(bytes, n - 1)) + BINARY[n - 1].0
  {
    hide Pow2, Dec, BINARY;
  }

  lemma EmptyScale()
    ensures Scale("") == Some(1)
  {}

  lemma PrintedCount(q: nat, suffix: string)
    requires Scale(suffix).Some? && q * Scale(suffix).value < I128_BOUND
    ensures Parse(Dec(q) + suffix) == Some(q * Scale(suffix).value)
    ensures suffix == "" ==> Dec(q) + suffix == Dec(q)
  {
    hide Parse, Scale, Dec;
    DecRoundTrip(q);
    ParseIsTheCeiling(Bare, Dec(q), false, "", suffix);
    CeilOfZero();
    assert Bare.Text() + (Number(Dec(q), false, "") + suffix) == Dec(q) + suffix;
  }

  /** What `parse` makes of the magnitude: the fraction's product wraps. */
  function ReadMagnitude(whole: string, fraction: string, scale: nat): nat
    requires AllDigits(whole) && AllDigits(fraction)
  {
    Value(whole) * scale + DivCeil(WrappingMul(Value(fraction), scale), Pow10(|fraction|))
  }

  /** The checked steps, given what the parts are read as. */
  lemma MagnitudeParts(whole: string, fraction: string, scale: nat, w: nat, part: nat)
    requires AllDigits(whole) && w == Value(whole) && w * scale >= w
    requires whole == "" ==> w == 0
    requires whole != "" ==> ParseU128(whole) == if w < U128 then Some(w) else None
    requires fraction == "" ==> part == 0
    requires fraction != "" && |fraction| <= 38 ==>
               && ParseU128(fraction).Some? && CheckedPow10(|fraction|) == Some(Pow10(|fraction|))
               && part == DivCeil(WrappingMul(ParseU128(fraction).value, scale), Pow10(|fraction|))
    requires fraction != "" && |fraction| > 38 ==> CheckedPow10(|fraction|) == None
    ensures Magnitude(whole, fraction, scale)
            == if |fraction| <= 38 && w * scale + part < U128 then Some(w * scale + part) else None
  {
    hide ParseU128, CheckedPow10, Pow10, DivCeil, WrappingMul, Value, AllDigits;
  }

  lemma NoFraction(scale: nat)
    ensures Value("") == 0 && DivCeil(WrappingMul(0, scale), Pow10(0)) == 0 && Pow10(0) == 1
  {}

  lemma MagnitudeReads(whole: string, fraction: string, scale: nat)
    requires AllDigits(whole) && AllDigits(fraction) && scale >= 1
    ensures var n := ReadMagnitude(whole, fraction, scale);
            Magnitude(whole, fraction, scale) == if |fraction| <= 38 && n < U128 then Some(n) else None
  {
    hide Value, Pow10, DivCeil, WrappingMul, AllDigits, Magnitude, ParseU128, CheckedPow10;
    WholeIs(whole);
    AtLeast(Value(whole), scale);
    if fraction == "" { NoFraction(scale); } else { FractionIs(fraction); }
    MagnitudeParts(whole, fraction, scale, Value(whole), DivCeil(WrappingMul(Value(fraction), scale), Pow10(|fraction|)));
  }

  /** What `parse` makes of any sign, digits with at most one dot, and suffix. */
  lemma ParseReads(sign: Sign, whole: string, dot: bool, fraction: string, suffix: string)
    requires AllDigits(whole) && AllDigits(fraction)
    requires (dot || fraction == "") && (whole != "" || fraction != "") && Scale(suffix).Some?
    ensures var n := ReadMagnitude(whole, fraction, Scale(suffix).value);
            Parse(sign.Text() + (Number(whole, dot, fraction) + suffix))
            == if |fraction| <= 38 && n < I128_BOUND then Some(sign.Of(n)) else None
  {
    hide *;
    Tokens(whole, dot, fraction, suffix);
    ScaleBound(suffix);
    MagnitudeReads(whole, fraction, Scale(suffix).value);
    SignSplit(sign, Number(whole, dot, fraction) + suffix);
    Bounds();
  }

  /** And every text it accepts is one of those. */
  lemma AcceptedIsAQuantity(s: string) returns (sign: Sign, whole: string, dot: bool, fraction: string, suffix: string)
    requires Parse(s).Some?
    ensures AllDigits(whole) && AllDigits(fraction)
    ensures (dot || fraction == "") && (whole != "" || fraction != "") && Scale(suffix).Some?
    ensures s == sign.Text() + (Number(whole, dot, fraction) + suffix)
  {
    sign := if s != "" && s[0] == '-' then Minus else if s != "" && s[0] == '+' then Plus else Bare;
    var rest := if sign.Bare? then s else s[1..];
    assert s == sign.Text() + rest;
    hide Magnitude, Scale, Number, SplitDot, Parse;
    assert ParseUnsigned(rest).Some? by { ParseIs(s, sign); }
    var digits := NumberSpan(rest);
    var number := rest[..digits];
    suffix := rest[digits..];
    dot := SplitDotJoins(number);
    whole, fraction := SplitDot(number).0, SplitDot(number).1;
    MagnitudeDigits(whole, fraction, Scale(suffix).value);
    assert rest == number + suffix;
  }

  lemma ParseIs(s: string, sign: Sign)
    requires sign == if s != "" && s[0] == '-' then Minus else if s != "" && s[0] == '+' then Plus else Bare
    ensures Parse(s).Some? ==> ParseUnsigned(if sign.Bare? then s else s[1..]).Some?
  {
    hide ParseUnsigned;
  }

  lemma MagnitudeDigits(whole: string, fraction: string, scale: nat)
    requires Magnitude(whole, fraction, scale).Some?
    ensures AllDigits(whole) && AllDigits(fraction)
  {
    hide Value, CheckedPow10, DivCeil, WrappingMul;
  }

  lemma ReadIsCeiling(whole: string, fraction: string, scale: nat)
    requires AllDigits(whole) && AllDigits(fraction) && |fraction| <= 38
    ensures ReadMagnitude(whole, fraction, scale) <= TrueCeiling(whole, fraction, scale)
    ensures ReadMagnitude(whole, fraction, scale) == TrueCeiling(whole, fraction, scale) <==> Value(fraction) * scale < U128
  {
    hide Pow10, DivCeil, Value, CheckedPow10, AllDigits;
    var w, f, denom := Value(whole), Value(fraction), Pow10(|fraction|);
    CeilSplit(w, f, scale, denom);
    CheckedPow10Is(|fraction|);
    PowerFits(|fraction|);
    CeilWrap(f * scale, denom);
  }

  lemma PowerFits(len: nat)
    requires len <= 38
    ensures Pow10(len) < U128
  {
    CheckedPow10Is(len);
  }

  /** Beyond twenty digits the product may wrap. Up to the thirty-eight that it
      reads, `parse` is exact if and only if it does not - or when even what is
      left after wrapping does not fit, as the ceiling then does not. */
  lemma ExactWithoutWrap(sign: Sign, whole: string, dot: bool, fraction: string, suffix: string)
    requires AllDigits(whole) && AllDigits(fraction) && |fraction| <= 38
    requires (dot || fraction == "") && (whole != "" || fraction != "") && Scale(suffix).Some?
    ensures var scale := Scale(suffix).value;
            var c := TrueCeiling(whole, fraction, scale);
            Parse(sign.Text() + (Number(whole, dot, fraction) + suffix)) == (if c < I128_BOUND then Some(sign.Of(c)) else None)
            <==> Value(fraction) * scale < U128 || ReadMagnitude(whole, fraction, scale) >= I128_BOUND
  {
    hide Parse, Scale, Number, TrueCeiling, ReadMagnitude, Value, AllDigits, Sign.Text;
    ParseReads(sign, whole, dot, fraction, suffix);
    ReadIsCeiling(whole, fraction, Scale(suffix).value);
  }

  lemma CeilWrap(p: nat, denom: nat)
    requires 0 < denom < U128
    ensures DivCeil(p % U128, denom) <= DivCeil(p, denom)
    ensures DivCeil(p % U128, denom) == DivCeil(p, denom) <==> p < U128
  {
    var x := p % U128;
    if p >= U128 {
      assert p >= x + U128;
      DivStep(x + denom - 1, p + denom - 1, denom);
    }
  }

  /** The product does wrap for 21 nines of an exbibyte: rounded up they are
      the exbibyte, and are read as less. */
  lemma LongFractionWraps()
    ensures var nines := Parse("." + Nines(21) + "Ei");
            && TrueCeiling("", Nines(21), Pow2(60)) == Pow2(60)
            && nines.Some? && nines.value < Pow2(60)
  {
    NinesWrap();
    NinesText();
    hide *;
    EiScale();
    ParseReads(Bare, "", true, Nines(21), "Ei");
    ReadIsCeiling("", Nines(21), Pow2(60));
    Bounds();
  }

  lemma NinesText()
    ensures Bare.Text() + (Number("", true, Nines(21)) + "Ei") == "." + Nines(21) + "Ei"
    ensures forall n :: Bare.Of(n) == n
    ensures AllDigits("") && Pow2(60) < I128_BOUND
  {
    Pow2Table();
    assert "" + "." + Nines(21) == "." + Nines(21);
  }

  lemma EiScale()
    ensures Scale("Ei") == Some(Pow2(60))
  {}

  lemma NinesWrap()
    ensures Value(Nines(21)) * Pow2(60) >= U128 && TrueCeiling("", Nines(21), Pow2(60)) == Pow2(60)
  {
    hide Value, Pow10, Pow2;
    NinesValue(21);
    Pow2Table();
    Pow38();
    Pow10Add(20, 1);
    TenIs();
    EmptyValue();
    var d := 1_000_000_000_000_000_000_000;
    assert Value(Nines(21)) == d - 1 && Pow10(21) == d;
    var p, scale := (d - 1) * Pow2(60), Pow2(60);
    assert Numerator("", Nines(21)) == d - 1;
    assert p + d - 1 == scale * d + (d - 1 - scale);
    DivUnique(p + d - 1, d, scale, d - 1 - scale);
  }

  lemma TenIs()
    ensures Pow10(1) == 10
  {}

  lemma EmptyValue()
    ensures Value("") == 0
  {}
}
