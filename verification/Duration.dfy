/** The compact duration syntax of crates/engine-api/src/duration.rs: `format`,
    `frac` and `parse`. A duration is its count of nanoseconds. */
module Duration {
  import opened Base
  import opened Decimal

  const U64: nat := 0x1_0000_0000_0000_0000

  const SECOND: nat := 1_000_000_000
  const MINUTE: nat := 60_000_000_000
  const HOUR: nat := 3_600_000_000_000

  /** The largest `Duration`: u64::MAX seconds and all their nanoseconds. */
  const MAX_NANOS: nat := U64 * 1_000_000_000

  // ------------------------------------------------------------- formatting

  function ILog10(n: nat): nat {
    if n < 10 then 0 else 1 + ILog10(n / 10)
  }

  function Frac(ns: nat, unit: nat): string
    requires unit > 0
  {
    var whole, rem := ns / unit, ns % unit;
    if rem == 0 then Dec(whole)
    else Dec(whole) + "." + TrimZeros(Padded(rem, ILog10(unit)))
  }

  method WriteFrac(ns: nat, unit: nat) returns (r: string)
    requires unit > 0
    ensures r == Frac(ns, unit)
  {
    hide Dec, Padded, ILog10;
    var whole, rem := ns / unit, ns % unit;
    if rem == 0 { return Dec(whole); }
    var padded := Padded(rem, ILog10(unit));
    var f := padded;
    while f != [] && f[|f| - 1] == '0'
      invariant TrimZeros(f) == TrimZeros(padded)
    {
      f := f[..|f| - 1];
    }
    r := Dec(whole) + "." + f;
  }

  function Format(ns: nat): string {
    if ns == 0 then "0s"
    else if ns < 1_000 then Dec(ns) + "ns"
    else if ns < 1_000_000 then Frac(ns, 1_000) + "\U{B5}s"
    else if ns < 1_000_000_000 then Frac(ns, 1_000_000) + "ms"
    else
      var seconds := Frac(ns % MINUTE, SECOND) + "s";
      var minutes, hours := (ns / MINUTE) % 60, ns / HOUR;
      if hours == 0 && minutes == 0 then seconds
      else if hours == 0 then Dec(minutes) + "m" + seconds
      else Dec(hours) + "h" + (Dec(minutes) + "m" + seconds)
  }

  lemma FracDigits(whole: nat, rem: nat, digits: nat)
    requires 0 < digits && 0 < rem < Pow10(digits) && ILog10(Pow10(digits)) == digits
    ensures var f := TrimZeros(Padded(rem, digits));
            && Frac(whole * Pow10(digits) + rem, Pow10(digits)) == Dec(whole) + "." + f
            && f != "" && |f| <= digits && AllDigits(f) && f[|f| - 1] != '0'
            && Value(f) * Pow10(digits - |f|) == rem
  {
    hide Dec, Padded, ILog10, Pow10, Value, AllDigits;
    DivUnique(whole * Pow10(digits) + rem, Pow10(digits), whole, rem);
    Remainder(whole * Pow10(digits) + rem, Pow10(digits), whole, rem);
    PaddedValue(rem, digits);
    TrimZerosValue(Padded(rem, digits));
    LastKept(Padded(rem, digits));
  }

  lemma Remainder(x: nat, d: nat, q: nat, r: nat)
    requires d > 0 && x == q * d + r && x / d == q
    ensures x % d == r
  {}

  lemma {:induction false} LastKept(s: string)
    ensures TrimZeros(s) != "" ==> TrimZeros(s)[|TrimZeros(s)| - 1] != '0'
  {
    if s != "" && s[|s| - 1] == '0' { LastKept(s[..|s| - 1]); }
  }

  /** The largest unit first and zero-valued inner units kept: hours when there
      are any, minutes under sixty when there are any or hours stand before
      them, and always the seconds of what remains. */
  lemma LargestUnitFirst(hours: nat, minutes: nat, rest: nat)
    requires minutes < 60 && rest < MINUTE && hours * HOUR + minutes * MINUTE + rest >= SECOND
    ensures Format(hours * HOUR + minutes * MINUTE + rest)
            == (if hours > 0 then Dec(hours) + "h" else "")
               + ((if hours > 0 || minutes > 0 then Dec(minutes) + "m" else "") + (Frac(rest, SECOND) + "s"))
  {
    Clock(hours, minutes, rest);
    hide *;
    var seconds := Frac(rest, SECOND) + "s";
    LongText(hours * HOUR + minutes * MINUTE + rest, hours, minutes, seconds);
    NothingBefore(seconds);
    NothingBefore(Dec(minutes) + "m" + seconds);
  }

  lemma NothingBefore(s: string)
    ensures "" + s == s
  {}

  lemma Clock(hours: nat, minutes: nat, rest: nat)
    requires minutes < 60 && rest < MINUTE
    ensures var ns := hours * HOUR + minutes * MINUTE + rest;
            ns / HOUR == hours && (ns / MINUTE) % 60 == minutes && ns % MINUTE == rest
  {
    var ns, m := hours * HOUR + minutes * MINUTE + rest, hours * 60 + minutes;
    DivUnique(ns, HOUR, hours, minutes * MINUTE + rest);
    DivUnique(ns, MINUTE, m, rest);
    Remainder(ns, MINUTE, m, rest);
    DivUnique(m, 60, hours, minutes);
    Remainder(m, 60, hours, minutes);
  }

  lemma LongText(ns: nat, hours: nat, minutes: nat, seconds: string)
    requires ns >= SECOND && ns / HOUR == hours && (ns / MINUTE) % 60 == minutes && seconds == Frac(ns % MINUTE, SECOND) + "s"
    ensures Format(ns) ==
            if hours == 0 && minutes == 0 then seconds
            else if hours == 0 then Dec(minutes) + "m" + seconds
            else Dec(hours) + "h" + (Dec(minutes) + "m" + seconds)
  {
    hide Dec, Frac;
  }

  // ---------------------------------------------------------------- parsing

  /** `take_while(|c| !c.is_ascii_digit())` */
  function UnitSpan(s: string): (n: nat)
    ensures n <= |s|
  {
    if s != [] && !IsDigit(s[0]) then 1 + UnitSpan(s[1..]) else 0
  }

  function Scale(unit: string): Option<nat> {
    if unit == "ns" then Some(1)
    else if unit == "us" || unit == "\U{B5}s" || unit == "\U{3BC}s" then Some(1_000)
    else if unit == "ms" then Some(1_000_000)
    else if unit == "s" then Some(SECOND)
    else if unit == "m" then Some(MINUTE)
    else if unit == "h" then Some(HOUR)
    else None
  }

  function CheckedAdd(a: nat, b: nat): Option<nat> {
    if a + b < U128 then Some(a + b) else None
  }

  /** `f * scale / denom`, the product unchecked. */
  function FractionOf(f: nat, scale: nat, denom: nat): nat
    requires denom > 0
  {
    WrappingMul(f, scale) / denom
  }

  function CheckedMul(a: nat, b: nat): Option<nat> {
    if a * b < U128 then Some(a * b) else None
  }

  /** `total` with one number of the given unit added. */
  function AddNumber(total: nat, number: string, scale: nat): Option<nat> {
    var (whole, fraction) := SplitDot(number);
    if whole == "" && fraction == "" then None
    else
      var w := if whole == "" then Some(0) else ParseU128(whole);
      if w.None? then None
      else
        var units := CheckedMul(w.value, scale);
        if units.None? then None
        else
          var t := CheckedAdd(total, units.value);
          if t.None? || fraction == "" then t
          else
            var f, denom := ParseU128(fraction), CheckedPow10(|fraction|);
            if f.None? || denom.None? then None
            else CheckedAdd(t.value, FractionOf(f.value, scale, denom.value))
  }

  /** The loop, from a given total on. */
  function ParseFrom(rest: string, total: nat): Option<nat>
    decreases |rest|
  {
    if rest == "" then Some(total)
    else
      var digits := NumberSpan(rest);
      if digits == 0 then None
      else
        var unitLen := UnitSpan(rest[digits..]);
        if unitLen == 0 then None
        else
          var scale := Scale(rest[digits..][..unitLen]);
          if scale.None? then None
          else
            var t := AddNumber(total, rest[..digits], scale.value);
            if t.None? then None else ParseFrom(rest[digits..][unitLen..], t.value)
  }

  function Parse(s: string): Option<nat> {
    if s == "" then None
    else
      var t := ParseFrom(s, 0);
      if t.Some? && t.value < U64 then t else None
  }

  method ReadDuration(s: string) returns (r: Option<nat>)
    ensures r == Parse(s)
  {
    if s == "" { return None; }
    var rest, total: nat := s, 0;
    while rest != ""
      invariant ParseFrom(s, 0) == ParseFrom(rest, total)
      decreases |rest|
    {
      var digits := NumberSpan(rest);
      if digits == 0 { return None; }
      var number, unitRest := rest[..digits], rest[digits..];
      var unitLen := UnitSpan(unitRest);
      if unitLen == 0 { return None; }
      var scale := Scale(unitRest[..unitLen]);
      if scale.None? { return None; }
      var t := AddNumber(total, number, scale.value);
      if t.None? { return None; }
      total := t.value;
      rest := unitRest[unitLen..];
    }
    r := if total < U64 then Some(total) else None;
  }

  // ------------------------------------------------------------- round trip

  /** A number as `frac` prints it: digits, and perhaps a dot and more. */
  predicate IsNumber(s: string) {
    s != "" && forall i :: 0 <= i < |s| ==> NumberChar(s[i])
  }

  lemma {:induction false} UnitSpanIs(unit: string, next: string)
    requires forall i :: 0 <= i < |unit| ==> !IsDigit(unit[i])
    requires next == "" || IsDigit(next[0])
    ensures UnitSpan(unit + next) == |unit|
  {
    if unit == [] {
      assert unit + next == next;
    } else {
      assert (unit + next)[1..] == unit[1..] + next;
      UnitSpanIs(unit[1..], next);
    }
  }

  lemma UnitText(unit: string)
    requires Scale(unit).Some?
    ensures unit != "" && !NumberChar(unit[0]) && forall i :: 0 <= i < |unit| ==> !IsDigit(unit[i])
  {}

  /** The loop consumes one number and its unit. */
  lemma OneNumber(number: string, unit: string, next: string, total: nat)
    requires IsNumber(number) && Scale(unit).Some? && (next == "" || IsDigit(next[0]))
    ensures var t := AddNumber(total, number, Scale(unit).value);
            ParseFrom(number + (unit + next), total) == if t.None? then None else ParseFrom(next, t.value)
  {
    hide Scale, AddNumber, NumberSpan, UnitSpan;
    UnitText(unit);
    var tail := unit + next;
    NumberSpanIs(number, tail);
    UnitSpanIs(unit, next);
    var rest := number + tail;
    assert rest[..|number|] == number && rest[|number|..] == tail;
    assert tail[..|unit|] == unit && tail[|unit|..] == next;
  }

  lemma DecIsNumber(n: nat)
    ensures IsNumber(Dec(n)) && IsDigit(Dec(n)[0])
  {
    DecRoundTrip(n);
  }

  /** A whole number adds exactly n units. */
  lemma AddWhole(total: nat, n: nat, scale: nat)
    requires n < U128 && total + n * scale < U128
    ensures AddNumber(total, Dec(n), scale) == Some(total + n * scale)
  {
    hide Dec, Value;
    DecRoundTrip(n);
    SplitDotIs(Dec(n), "");
  }

  /** A printed fraction adds back exactly the nanoseconds it stands for. */
  lemma AddFrac(total: nat, ns: nat, digits: nat)
    requires 0 < digits <= 9 && ILog10(Pow10(digits)) == digits
    requires total + ns < U128 && ns < U128
    ensures IsNumber(Frac(ns, Pow10(digits))) && IsDigit(Frac(ns, Pow10(digits))[0])
    ensures AddNumber(total, Frac(ns, Pow10(digits)), Pow10(digits)) == Some(total + ns)
  {
    hide Dec, Value, Pow10, Padded, TrimZeros, ILog10, AddNumber;
    var unit := Pow10(digits);
    var whole, rem := ns / unit, ns % unit;
    assert ns == whole * unit + rem && whole <= ns by { WholePart(ns, unit); }
    DecRoundTrip(whole);
    if rem == 0 {
      AddWhole(total, whole, unit);
    } else {
      var f := TrimZeros(Padded(rem, digits));
      Fraction(rem, digits);
      AddBoth(total, whole, f, unit, rem);
    }
  }

  lemma WholePart(ns: nat, unit: nat)
    requires unit > 0
    ensures ns == ns / unit * unit + ns % unit && ns / unit <= ns
  {
    AtLeast(ns / unit, unit);
  }

  lemma Fraction(rem: nat, digits: nat)
    requires 0 < digits <= 9 && 0 < rem < Pow10(digits)
    ensures var f := TrimZeros(Padded(rem, digits));
            && f != "" && |f| <= digits && AllDigits(f)
            && ParseU128(f) == Some(Value(f)) && CheckedPow10(|f|) == Some(Pow10(|f|))
            && Value(f) * Pow10(digits) < U128
            && Value(f) * Pow10(digits) / Pow10(|f|) == rem
  {
    hide Value, Padded, TrimZeros;
    PaddedValue(rem, digits);
    var s := Padded(rem, digits);
    TrimZerosValue(s);
    var f := TrimZeros(s);
    ValueBound(f);
    Pow10Monotone(|f|, digits);
    Pow10Monotone(digits, 9);
    Pow10Nine();
    CheckedPow10Is(|f|);
    Pow10Add(|f|, digits - |f|);
    Cancel(Value(f), Pow10(|f|), Pow10(digits - |f|));
    ProductBound(Value(f), Pow10(digits), SECOND);
  }

  lemma Pow10Nine()
    ensures Pow10(3) == 1_000 && Pow10(6) == 1_000_000 && Pow10(9) == SECOND
  {
    Pow10Add(3, 3);
    Pow10Add(6, 3);
  }

  lemma ProductBound(a: nat, b: nat, c: nat)
    requires a <= c && b <= c
    ensures a * b <= c * c
  {
    assert a * b <= c * b <= c * c;
  }

  lemma Cancel(v: nat, p: nat, q: nat)
    requires p > 0
    ensures v * (p * q) / p == v * q
  {
    var x := v * q;
    assert v * (p * q) == x * p + 0;
    DivUnique(x * p + 0, p, x, 0);
  }

  lemma AddBoth(total: nat, whole: nat, f: string, unit: nat, rem: nat)
    requires f != "" && AllDigits(f) && ParseU128(f) == Some(Value(f)) && CheckedPow10(|f|) == Some(Pow10(|f|))
    requires Value(f) * unit < U128 && Value(f) * unit / Pow10(|f|) == rem
    requires whole < U128 && total + whole * unit + rem < U128
    ensures AddNumber(total, Dec(whole) + "." + f, unit) == Some(total + whole * unit + rem)
    ensures IsNumber(Dec(whole) + "." + f) && IsDigit((Dec(whole) + "." + f)[0])
  {
    hide Dec, Value, Pow10, SplitDot, FractionOf, CheckedMul, CheckedPow10;
    var units := whole * unit;
    DecRoundTrip(whole);
    SplitDotIs(Dec(whole), f);
    Unwrapped(Value(f), unit, Pow10(|f|));
    Multiplied(whole, unit);
  }

  lemma Unwrapped(f: nat, unit: nat, denom: nat)
    requires denom > 0 && f * unit < U128
    ensures FractionOf(f, unit, denom) == f * unit / denom
  {}

  lemma Multiplied(a: nat, b: nat)
    requires a * b < U128
    ensures CheckedMul(a, b) == Some(a * b)
  {}

  /** Seconds with their fraction, as the last part of every longer form. */
  lemma SecondsPart(total: nat, ns: nat)
    requires total + ns < U128 && ns < MINUTE
    ensures ParseFrom(Frac(ns, SECOND) + "s", total) == Some(total + ns)
    ensures Frac(ns, SECOND) != "" && IsDigit((Frac(ns, SECOND) + "s")[0])
  {
    hide Frac, ParseFrom, Pow10, AddNumber, ILog10;
    Pow10Nine();
    assert ILog10(SECOND) == 9 by { Logs(); }
    AddFrac(total, ns, 9);
    OneNumber(Frac(ns, SECOND), "s", "", total);
    assert Frac(ns, SECOND) + ("s" + "") == Frac(ns, SECOND) + "s";
    NothingLeft(total + ns);
  }

  lemma NothingLeft(total: nat)
    ensures ParseFrom("", total) == Some(total)
  {}

  lemma Logs()
    ensures ILog10(1_000) == 3 && ILog10(1_000_000) == 6 && ILog10(1_000_000_000) == 9
  {
    assert ILog10(1_000) == 3;
    assert ILog10(1_000_000) == 3 + ILog10(1_000);
    assert ILog10(1_000_000_000) == 3 + ILog10(1_000_000);
  }

  /** Below a second: one fraction of its unit. */
  lemma SmallUnit(ns: nat, digits: nat, unit: string)
    requires digits in {3, 6} && ns < SECOND && Scale(unit) == Some(Pow10(digits))
    ensures ParseFrom(Frac(ns, Pow10(digits)) + unit, 0) == Some(ns)
  {
    hide Frac, ParseFrom, Pow10, AddNumber, ILog10, Scale;
    Pow10Nine();
    Logs();
    AddFrac(0, ns, digits);
    OneNumber(Frac(ns, Pow10(digits)), unit, "", 0);
    assert unit + "" == unit;
    NothingLeft(ns);
  }

  lemma MinutesPart(total: nat, minutes: nat, seconds: string, ns: nat)
    requires minutes < 60 && total + minutes * MINUTE + ns < U128 && seconds != "" && IsDigit(seconds[0])
    requires ParseFrom(seconds, total + minutes * MINUTE) == Some(total + minutes * MINUTE + ns)
    ensures ParseFrom(Dec(minutes) + "m" + seconds, total) == Some(total + minutes * MINUTE + ns)
  {
    hide ParseFrom, AddNumber, Dec;
    DecIsNumber(minutes);
    AddWhole(total, minutes, MINUTE);
    OneNumber(Dec(minutes), "m", seconds, total);
    assert Dec(minutes) + ("m" + seconds) == Dec(minutes) + "m" + seconds;
  }

  lemma HoursPart(hours: nat, tail: string, ns: nat)
    requires hours * HOUR + ns < U128 && tail != "" && IsDigit(tail[0])
    requires ParseFrom(tail, hours * HOUR) == Some(hours * HOUR + ns)
    ensures ParseFrom(Dec(hours) + "h" + tail, 0) == Some(hours * HOUR + ns)
  {
    hide ParseFrom, AddNumber, Dec;
    DecIsNumber(hours);
    AddWhole(0, hours, HOUR);
    OneNumber(Dec(hours), "h", tail, 0);
    assert Dec(hours) + ("h" + tail) == Dec(hours) + "h" + tail;
  }

  lemma LongForm(ns: nat)
    requires SECOND <= ns < MAX_NANOS
    ensures ParseFrom(Format(ns), 0) == Some(ns)
  {
    hide ParseFrom, Frac, Dec;
    var s, minutes, hours := ns % MINUTE, (ns / MINUTE) % 60, ns / HOUR;
    assert ns == hours * HOUR + minutes * MINUTE + s;
    var seconds := Frac(s, SECOND) + "s";
    DecIsNumber(minutes);
    SecondsPart(hours * HOUR + minutes * MINUTE, s);
    if hours == 0 && minutes == 0 {
    } else {
      MinutesPart(hours * HOUR, minutes, seconds, s);
      var tail := Dec(minutes) + "m" + seconds;
      assert tail[0] == Dec(minutes)[0];
      if hours > 0 {
        HoursPart(hours, tail, minutes * MINUTE + s);
        assert Dec(hours) + "h" + tail == Dec(hours) + "h" + (Dec(minutes) + "m" + seconds);
      }
    }
  }

  lemma ShortForm(ns: nat)
    requires ns < SECOND
    ensures ParseFrom(Format(ns), 0) == Some(ns)
  {
    hide ParseFrom, Frac, Dec, AddNumber, Pow10;
    Pow10Nine();
    if ns < 1_000 {
      DecIsNumber(ns);
      var unit := if ns == 0 then "s" else "ns";
      AddWhole(0, ns, Scale(unit).value);
      OneNumber(Dec(ns), unit, "", 0);
      NothingLeft(ns);
      assert unit + "" == unit;
      assert Dec(0) == "0" by { ZeroText(); }
      assert "0" + "s" == "0s";
    } else if ns < 1_000_000 {
      SmallUnit(ns, 3, "\U{B5}s");
    } else {
      SmallUnit(ns, 6, "ms");
    }
  }

  lemma ZeroText()
    ensures Dec(0) == "0"
  {}

  /** Every duration a u64 of nanoseconds can hold is read back from how it is
      printed, in every unit form; and a longer one, which `format` prints but
      `parse` cannot hold, is refused rather than misread. */
  lemma FormatRoundTrip(ns: nat)
    requires ns < MAX_NANOS
    ensures Parse(Format(ns)) == if ns < U64 then Some(ns) else None
  {
    hide ParseFrom, Format;
    if ns < SECOND { ShortForm(ns); } else { LongForm(ns); }
    NothingLeft(0);
    NotEmpty(ns);
  }

  lemma NotEmpty(ns: nat)
    ensures Format(ns) != ""
  {
    hide Frac, Dec;
  }

  // -------------------------------------------------- what any text is worth

  /** One number with its unit, as written. */
  datatype Token = Token(whole: string, dot: bool, fraction: string, unit: string)
  {
    predicate Good() {
      && AllDigits(whole) && AllDigits(fraction)
      && (dot || fraction == "") && (whole != "" || fraction != "")
      && Scale(unit).Some?
    }

    function Text(): string {
      Number(whole, dot, fraction) + unit
    }

    function Units(): nat
      requires Good()
    {
      Value(whole) * Scale(unit).value
    }

    /** The product of the fraction that is left unchecked. */
    function Product(): nat
      requires Good()
    {
      Value(fraction) * Scale(unit).value
    }

    /** What `parse` makes of it: the product wraps. */
    function Read(): nat
      requires Good()
    {
      Units() + FractionOf(Value(fraction), Scale(unit).value, Pow10(|fraction|))
    }

    /** What it is worth in whole nanoseconds, rounded down. */
    function Floor(): nat
      requires Good()
    {
      Units() + Quotient(Product(), Pow10(|fraction|))
    }
  }

  predicate AllGood(ts: seq<Token>) {
    forall t :: t in ts ==> t.Good()
  }

  function Text(ts: seq<Token>): string {
    if ts == [] then "" else ts[0].Text() + Text(ts[1..])
  }

  function Read(ts: seq<Token>): nat
    requires AllGood(ts)
  {
    if ts == [] then 0 else ts[0].Read() + Read(ts[1..])
  }

  function Floors(ts: seq<Token>): nat
    requires AllGood(ts)
  {
    if ts == [] then 0 else ts[0].Floor() + Floors(ts[1..])
  }

  /** At most 38 digits behind a dot, and no number but the first starts with
      one: its dot would be read into the unit before it. */
  predicate Readable(ts: seq<Token>) {
    && (forall t :: t in ts ==> |t.fraction| <= 38)
    && (forall i :: 0 < i < |ts| ==> ts[i].whole != "")
  }

  predicate NoneWraps(ts: seq<Token>)
    requires AllGood(ts)
  {
    forall t :: t in ts ==> t.Product() < U128
  }

  /** The steps of one number, given what its parts are read as. */
  lemma AddParts(total: nat, number: string, whole: string, fraction: string, scale: nat, units: nat, part: nat)
    requires SplitDot(number) == (whole, fraction) && (whole != "" || fraction != "")
    requires AllDigits(whole) && units == Value(whole) * scale >= Value(whole)
    requires whole == "" ==> Value(whole) == 0
    requires whole != "" ==> ParseU128(whole) == if Value(whole) < U128 then Some(Value(whole)) else None
    requires fraction == "" ==> part == 0
    requires fraction != "" && |fraction| <= 38 ==>
               && ParseU128(fraction).Some? && CheckedPow10(|fraction|) == Some(Pow10(|fraction|))
               && part == FractionOf(ParseU128(fraction).value, scale, Pow10(|fraction|))
    requires fraction != "" && |fraction| > 38 ==> CheckedPow10(|fraction|) == None
    ensures AddNumber(total, number, scale)
            == if |fraction| <= 38 && total + (units + part) < U128 then Some(total + (units + part)) else None
  {
    hide SplitDot, ParseU128, CheckedPow10, Pow10, FractionOf, Value, AllDigits;
  }

  lemma AddToken(total: nat, t: Token)
    requires t.Good()
    ensures AddNumber(total, Number(t.whole, t.dot, t.fraction), Scale(t.unit).value)
            == if |t.fraction| <= 38 && total + t.Read() < U128 then Some(total + t.Read()) else None
  {
    var scale := Scale(t.unit).value;
    ScaleAtMostHour(t.unit);
    ReadIs(t);
    hide *;
    var n := Number(t.whole, t.dot, t.fraction);
    var part := FractionOf(Value(t.fraction), scale, Pow10(|t.fraction|));
    SplitDotIs(t.whole, t.fraction);
    WholeIs(t.whole);
    AtLeast(Value(t.whole), scale);
    if t.fraction == "" { NoFraction(scale); } else { FractionIs(t.fraction); }
    AddParts(total, n, t.whole, t.fraction, scale, Value(t.whole) * scale, part);
  }

  lemma ReadIs(t: Token)
    requires t.Good()
    ensures AllDigits(t.whole) && AllDigits(t.fraction) && (t.whole != "" || t.fraction != "")
    ensures Number(t.whole, t.dot, t.fraction) == (if t.dot then t.whole + "." + t.fraction else t.whole)
    ensures !t.dot ==> t.fraction == ""
    ensures t.Read() == Value(t.whole) * Scale(t.unit).value
                        + FractionOf(Value(t.fraction), Scale(t.unit).value, Pow10(|t.fraction|))
  {
    hide Scale, Value, Pow10, WrappingMul;
  }

  lemma NoFraction(scale: nat)
    ensures Value("") == 0 && FractionOf(0, scale, Pow10(0)) == 0 && Pow10(0) == 1
  {}

  /** A dot behind a unit is read into it, and no unit ends in one. */
  lemma DotSwallowed(number: string, unit: string, next: string, total: nat)
    requires IsNumber(number) && Scale(unit).Some? && |next| > 1 && next[0] == '.' && IsDigit(next[1])
    ensures ParseFrom(number + (unit + next), total) == None
  {
    UnitText(unit);
    NoDotUnit(unit);
    hide Scale, AddNumber, NumberSpan, UnitSpan;
    var dotted, after := unit + ".", next[1..];
    var tail := unit + next;
    assert tail == dotted + after;
    NumberSpanIs(number, tail);
    UnitSpanIs(dotted, after);
    var rest := number + tail;
    assert rest[|number|..] == tail && tail[..|dotted|] == dotted;
  }

  lemma NoDotUnit(unit: string)
    ensures Scale(unit + ".").None?
  {
    var u := unit + ".";
    assert u[|u| - 1] == '.';
    UnitEnds(u);
  }

  lemma UnitEnds(u: string)
    ensures Scale(u).Some? ==> u != "" && u[|u| - 1] != '.'
  {}

  lemma TokenNumber(t: Token)
    requires t.Good()
    ensures var n := Number(t.whole, t.dot, t.fraction);
            && IsNumber(n)
            && (t.whole != "" ==> IsDigit(n[0]))
            && (t.whole == "" ==> |n| > 1 && n[0] == '.' && IsDigit(n[1]))
  {
    hide Scale;
  }

  lemma TextStarts(ts: seq<Token>)
    requires AllGood(ts) && ts != []
    ensures var s := Text(ts);
            && (ts[0].whole != "" ==> s != "" && IsDigit(s[0]))
            && (ts[0].whole == "" ==> |s| > 1 && s[0] == '.' && IsDigit(s[1]))
  {
    TokenNumber(ts[0]);
    var n := Number(ts[0].whole, ts[0].dot, ts[0].fraction);
    hide Scale, IsNumber, AllDigits, Number;
    assert Text(ts) == n + (ts[0].unit + Text(ts[1..]));
  }

  lemma {:induction false} TokensFrom(ts: seq<Token>, total: nat)
    requires AllGood(ts) && total < U128
    ensures ParseFrom(Text(ts), total)
            == if Readable(ts) && total + Read(ts) < U128 then Some(total + Read(ts)) else None
    decreases |ts|
  {
    hide *;
    if ts == [] {
      NoTokens(total);
    } else {
      var t, rest := ts[0], ts[1..];
      Unfolded(ts);
      TokenNumber(t);
      var n := Number(t.whole, t.dot, t.fraction);
      AddToken(total, t);
      if rest != [] { TextStarts(rest); }
      if rest != [] && rest[0].whole == "" {
        DotSwallowed(n, t.unit, Text(rest), total);
      } else {
        OneNumber(n, t.unit, Text(rest), total);
        if |t.fraction| <= 38 && total + t.Read() < U128 { TokensFrom(rest, total + t.Read()); }
      }
    }
  }

  lemma NoTokens(total: nat)
    ensures Text([]) == "" && ParseFrom(Text([]), total) == Some(total) && AllGood([]) && Readable([]) && Read([]) == 0 && Floors([]) == 0
  {}

  lemma Unfolded(ts: seq<Token>)
    requires AllGood(ts) && ts != []
    ensures ts[0].Good() && Scale(ts[0].unit).Some? && AllGood(ts[1..])
    ensures ts[1..] == [] ==> Text(ts[1..]) == ""
    ensures Text(ts) == Number(ts[0].whole, ts[0].dot, ts[0].fraction) + (ts[0].unit + Text(ts[1..]))
    ensures Read(ts) == ts[0].Read() + Read(ts[1..]) && Floors(ts) == ts[0].Floor() + Floors(ts[1..])
    ensures Readable(ts) <==> |ts[0].fraction| <= 38 && Readable(ts[1..]) && (ts[1..] != [] ==> ts[1..][0].whole != "")
    ensures NoneWraps(ts) <==> ts[0].Product() < U128 && NoneWraps(ts[1..])
  {
    UnfoldedSums(ts);
    UnfoldedText(ts);
    UnfoldedReadable(ts);
  }

  lemma UnfoldedSums(ts: seq<Token>)
    requires AllGood(ts) && ts != []
    ensures ts[0].Good() && Scale(ts[0].unit).Some? && AllGood(ts[1..])
    ensures Read(ts) == ts[0].Read() + Read(ts[1..]) && Floors(ts) == ts[0].Floor() + Floors(ts[1..])
    ensures NoneWraps(ts) <==> ts[0].Product() < U128 && NoneWraps(ts[1..])
  {
    hide Scale, Value, AllDigits, Pow10, WrappingMul, Token.Read, Token.Floor, Token.Product;
    assert forall t :: t in ts <==> t == ts[0] || t in ts[1..];
  }

  lemma UnfoldedText(ts: seq<Token>)
    requires ts != []
    ensures ts[1..] == [] ==> Text(ts[1..]) == ""
    ensures Text(ts) == Number(ts[0].whole, ts[0].dot, ts[0].fraction) + (ts[0].unit + Text(ts[1..]))
  {
    hide Number;
    Reassociate(Number(ts[0].whole, ts[0].dot, ts[0].fraction), ts[0].unit, Text(ts[1..]));
  }

  lemma Reassociate(a: string, b: string, c: string)
    ensures (a + b) + c == a + (b + c)
  {
  }

  lemma UnfoldedReadable(ts: seq<Token>)
    requires ts != []
    ensures Readable(ts) <==> |ts[0].fraction| <= 38 && Readable(ts[1..]) && (ts[1..] != [] ==> ts[1..][0].whole != "")
  {
    assert forall t :: t in ts <==> t == ts[0] || t in ts[1..];
    assert forall i :: 0 < i < |ts[1..]| ==> ts[1..][i] == ts[i + 1];
    assert forall i :: 1 < i < |ts| ==> ts[i] == ts[1..][i - 1];
  }

  /** What `parse` makes of any sequence of numbers with units. */
  lemma ParseReads(ts: seq<Token>)
    requires AllGood(ts)
    ensures Parse(Text(ts)) == if ts != [] && Readable(ts) && Read(ts) < U64 then Some(Read(ts)) else None
  {
    hide *;
    if ts == [] {
      EmptyText();
    } else {
      TextStarts(ts);
      Sizes();
      TokensFrom(ts, 0);
      Parsed(Text(ts), Readable(ts), Read(ts));
    }
  }

  lemma EmptyText()
    ensures Parse(Text([])) == None
  {}

  lemma Parsed(s: string, readable: bool, n: nat)
    requires s != "" && ParseFrom(s, 0) == if readable && n < U128 then Some(n) else None
    ensures Parse(s) == if readable && n < U64 then Some(n) else None
  {
    hide ParseFrom;
  }

  lemma Sizes()
    ensures 0 < U64 < U128
  {}

  lemma {:induction false} ReadIsFloors(ts: seq<Token>)
    requires AllGood(ts) && Readable(ts)
    ensures Read(ts) <= Floors(ts)
    ensures Read(ts) == Floors(ts) <==> NoneWraps(ts)
    decreases |ts|
  {
    hide *;
    if ts == [] {
      NoTokens(0);
      NothingWraps();
    } else {
      Unfolded(ts);
      ReadIsFloors(ts[1..]);
      TokenReads(ts[0]);
    }
  }

  lemma NothingWraps()
    ensures NoneWraps([])
  {}

  lemma TokenReads(t: Token)
    requires t.Good() && |t.fraction| <= 38
    ensures t.Read() <= t.Floor()
    ensures t.Read() == t.Floor() <==> t.Product() < U128
    ensures |t.fraction| <= 25 ==> t.Product() < U128
  {
    hide Value, Pow10, Scale, AllDigits;
    var f, scale, denom := Value(t.fraction), Scale(t.unit).value, Pow10(|t.fraction|);
    CheckedPow10Is(|t.fraction|);
    FitsU128(|t.fraction|);
    WrappingMulExact(f, scale, denom);
    WrappedIsLess(f, scale, denom);
    if |t.fraction| <= 25 { ShortProduct(t); }
  }

  lemma WrappedIsLess(f: nat, scale: nat, denom: nat)
    requires denom > 0
    ensures WrappingMul(f, scale) / denom <= f * scale / denom
  {
    DivMonotone(f * scale % U128, f * scale, denom);
  }

  lemma DivMonotone(a: nat, b: nat, d: nat)
    requires a <= b && d > 0
    ensures a / d <= b / d
  {
    var p, q := a / d, b / d;
    assert p * d <= a && b < q * d + d;
    if p > q { AtLeast(d, p - q); Difference(p, q, d); }
  }

  lemma ShortProduct(t: Token)
    requires t.Good() && |t.fraction| <= 25
    ensures t.Product() < U128
  {
    hide Value, Pow10;
    ScaleAtMostHour(t.unit);
    hide Scale;
    ValueBound(t.fraction);
    Pow10Monotone(|t.fraction|, 25);
    Pow38();
    Product(Value(t.fraction), 10_000_000_000_000_000_000_000_000, Scale(t.unit).value, HOUR);
  }

  /** And every text it accepts is such a sequence. */
  lemma {:induction false} AcceptedIsTokens(rest: string, total: nat) returns (ts: seq<Token>)
    requires ParseFrom(rest, total).Some?
    ensures AllGood(ts) && Text(ts) == rest
    decreases |rest|
  {
    hide *;
    if rest == "" {
      ts := [];
      NoTokens(0);
    } else {
      var digits, unitLen := OneAccepted(rest, total);
      var number, unit, next := rest[..digits], rest[digits..][..unitLen], rest[digits..][unitLen..];
      var t := AcceptedNumber(total, number, unit);
      var more := AcceptedIsTokens(next, AddNumber(total, number, Scale(unit).value).value);
      ts := [t] + more;
      assert ts[0] == t && ts[1..] == more;
      OneMoreGood(t, more);
      UnfoldedText(ts);
      assert rest[digits..] == unit + next && rest == number + (unit + next);
    }
  }

  lemma ParseIs(s: string)
    ensures Parse(s).Some? ==> ParseFrom(s, 0).Some? && ParseFrom(s, 0) == Parse(s)
  {
    hide ParseFrom;
  }

  lemma OneAccepted(rest: string, total: nat) returns (digits: nat, unitLen: nat)
    requires rest != "" && ParseFrom(rest, total).Some?
    ensures digits <= |rest| && 0 < unitLen <= |rest[digits..]|
    ensures Scale(rest[digits..][..unitLen]).Some?
    ensures var t := AddNumber(total, rest[..digits], Scale(rest[digits..][..unitLen]).value);
            t.Some? && ParseFrom(rest[digits..][unitLen..], t.value).Some?
  {
    hide Scale, AddNumber;
    digits := NumberSpan(rest);
    unitLen := UnitSpan(rest[digits..]);
  }

  lemma AcceptedNumber(total: nat, number: string, unit: string) returns (t: Token)
    requires Scale(unit).Some? && AddNumber(total, number, Scale(unit).value).Some?
    ensures t.Good() && Number(t.whole, t.dot, t.fraction) == number && t.unit == unit
  {
    hide Scale, Value, SplitDot, CheckedPow10, FractionOf, Number;
    var dot := SplitDotJoins(number);
    var (whole, fraction) := SplitDot(number);
    t := Token(whole, dot, fraction, unit);
  }

  lemma OneMoreGood(t: Token, more: seq<Token>)
    requires t.Good() && AllGood(more)
    ensures AllGood([t] + more)
  {
    hide Token.Good;
  }

  // ------------------------------------------------------ what units denote

  /** A unit and its nanoseconds; a microsecond is written with `u`, with the
      micro sign or with the Greek letter. */
  ghost predicate Denotes(unit: string, ns: nat) {
    || (unit == "ns" && ns == 1)
    || (unit in {"us", "\U{B5}s", "\U{3BC}s"} && ns == 1_000)
    || (unit == "ms" && ns == 1_000_000)
    || (unit == "s" && ns == 1_000_000_000)
    || (unit == "m" && ns == 60_000_000_000)
    || (unit == "h" && ns == 3_600_000_000_000)
  }

  lemma UnitDenotes(unit: string, ns: nat)
    ensures Scale(unit) == Some(ns) <==> Denotes(unit, ns)
  {}

  /** A whole count of a unit reads as the product while a u64 holds it. */
  lemma WholeDuration(n: nat, unit: string, ns: nat)
    requires Denotes(unit, ns)
    ensures Parse(Dec(n) + unit) == if n * ns <= 18_446_744_073_709_551_615 then Some(n * ns) else None
  {
    hide *;
    var t := Token(Dec(n), false, "", unit);
    UnitDenotes(unit, ns);
    WholeToken(t, n, ns);
    OneToken(t);
    ParseReads([t]);
    MaxU64();
  }

  lemma MaxU64()
    ensures U64 == 18_446_744_073_709_551_615 + 1
  {}

  lemma WholeToken(t: Token, n: nat, ns: nat)
    requires t == Token(Dec(n), false, "", t.unit) && Scale(t.unit) == Some(ns)
    ensures t.Good() && t.Read() == n * ns && t.Text() == Dec(n) + t.unit && Text([t]) == t.Text() && [t] != []
  {
    hide Dec, Scale;
    DecRoundTrip(n);
    NoFraction(ns);
    assert [t][1..] == [] && Text([]) == "" && t.Text() + "" == t.Text();
  }

  /** Nothing else is a unit. */
  lemma OtherUnitIsRefused(n: nat, unit: string)
    requires unit != "" && unit[0] != '.' && (forall c :: c in unit ==> c !in "0123456789") && forall ns :: !Denotes(unit, ns)
    ensures Parse(Dec(n) + unit) == None
  {
    hide Dec, Value, Scale, Denotes, IsDigit;
    DecRoundTrip(n);
    if Scale(unit).Some? { UnitDenotes(unit, Scale(unit).value); }
    forall c { DigitsAreDecimal("", 0, c); }
    NumberSpanIs(Dec(n), unit);
    UnitSpanIs(unit, "");
    var s := Dec(n) + unit;
    assert s[|Dec(n)|..] == unit && unit + "" == unit && unit[..|unit|] == unit;
  }

  lemma FracWhole(whole: nat, unit: nat)
    requires unit > 0
    ensures Frac(whole * unit, unit) == Dec(whole)
  {
    hide Dec, Padded, TrimZeros, ILog10;
    DivUnique(whole * unit, unit, whole, 0);
    Remainder(whole * unit, unit, whole, 0);
  }

  lemma ShortFormatIs(whole: nat, rem: nat, digits: nat)
    requires 0 < whole < 1_000 && digits in {0, 3, 6} && rem < Pow10(digits)
    ensures Format(0) == "0s"
    ensures Format(whole * Pow10(digits) + rem)
            == if digits == 0 then Dec(whole) + "ns"
               else Frac(whole * Pow10(digits) + rem, Pow10(digits)) + (if digits == 3 then "\U{B5}s" else "ms")
  {
    hide Dec, Frac, Pow10;
    Pow10Nine();
    PowersBelow();
  }

  lemma PowersBelow()
    ensures Pow10(0) == 1 && Pow10(3) == 1_000
  {}

  /** Under a second the unit is the largest with a whole part, and the
      remainder is written out without trailing zeros. */
  lemma ShortFormat(whole: nat, rem: nat, digits: nat) returns (f: string)
    requires 0 < whole < 1_000 && digits in {0, 3, 6} && rem < Pow10(digits)
    ensures AllDigits(f) && |f| <= digits && (f != "" ==> f[|f| - 1] != '0') && Value(f) * Pow10(digits - |f|) == rem
    ensures Format(0) == "0s"
    ensures Format(whole * Pow10(digits) + rem)
            == Dec(whole) + (if f == "" then "" else "." + f) + (if digits == 0 then "ns" else if digits == 3 then "\U{B5}s" else "ms")
  {
    hide Dec, Padded, TrimZeros, ILog10, Format, Frac, Pow10, Value, AllDigits;
    Pow10Nine();
    PowersBelow();
    Logs();
    EmptyValue();
    ShortFormatIs(whole, rem, digits);
    assert Dec(whole) + "" == Dec(whole);
    if rem == 0 {
      f := "";
      FracWhole(whole, Pow10(digits));
    } else {
      FracDigits(whole, rem, digits);
      f := TrimZeros(Padded(rem, digits));
    }
  }

  lemma EmptyValue()
    ensures AllDigits("") && Value("") == 0
  {}

  /** So a text is accepted exactly when it is a sequence of numbers with units
      that is read to less than 2^64, and that is then the result. */
  lemma ParseAcceptsTokens(s: string, n: nat)
    ensures Parse(s) == Some(n) <==>
            exists ts :: AllGood(ts) && Text(ts) == s && ts != [] && Readable(ts) && n < U64 && Read(ts) == n
  {
    hide *;
    if Parse(s) == Some(n) {
      ParseIs(s);
      var ts := AcceptedIsTokens(s, 0);
      ParseReads(ts);
    }
    if ts :| AllGood(ts) && Text(ts) == s && ts != [] && Readable(ts) && n < U64 && Read(ts) == n { ParseReads(ts); }
  }

  /** `parse` rounds each number down exactly: for any numbers with at most
      twenty-five digits behind their dots, in any units and any order, the
      result is the sum of their values in whole nanoseconds, or an error
      exactly when that does not fit or a later number starts with its dot. */
  lemma ParseIsTheFloor(ts: seq<Token>)
    requires AllGood(ts) && forall t :: t in ts ==> |t.fraction| <= 25
    ensures Parse(Text(ts))
            == if ts != [] && Readable(ts) && Floors(ts) < U64 then Some(Floors(ts)) else None
  {
    ParseReads(ts);
    forall t | t in ts ensures t.Product() < U128 { ShortProduct(t); }
    hide Parse, Text, Read, Floors;
    if Readable(ts) { ReadIsFloors(ts); }
  }

  /** Beyond that a product may wrap. Of a text it can read, `parse` gives the
      true value exactly when none does - or when even what is left after
      wrapping is too long for it, as the true value then is. */
  lemma ExactWithoutWrap(ts: seq<Token>)
    requires AllGood(ts) && ts != [] && Readable(ts)
    ensures Parse(Text(ts)) == (if Floors(ts) < U64 then Some(Floors(ts)) else None)
            <==> NoneWraps(ts) || Read(ts) >= U64
  {
    ParseReads(ts);
    hide Parse, Text, Read, Floors, NoneWraps;
    ReadIsFloors(ts);
  }

  /** Twenty-six nines of an hour are a nanosecond less than the hour, and are
      read as less than that. */
  lemma LongFractionMisread()
    ensures var t := Token("", true, Nines(26), "h");
            && t.Good() && t.Text() == "." + Nines(26) + "h" && Floors([t]) == HOUR - 1
            && Parse(Text([t])).Some? && Parse(Text([t])).value < HOUR - 1
  {
    var t := Token("", true, Nines(26), "h");
    assert t.Good() && t.Text() == "." + Nines(26) + "h";
    NinesOfAnHour(t);
    OneToken(t);
    ParseReads([t]);
    hide Parse, Text, Read, Floors;
    ReadIsFloors([t]);
    assert t in [t];
  }

  lemma OneToken(t: Token)
    requires t.Good() && |t.fraction| <= 38
    ensures AllGood([t]) && Readable([t]) && Floors([t]) == t.Floor() && Read([t]) == t.Read()
  {
    hide Value, Pow10, Scale, AllDigits;
    assert [t][1..] == [];
  }

  lemma NinesOfAnHour(t: Token)
    requires t == Token("", true, Nines(26), "h") && t.Good()
    ensures t.Product() >= U128 && t.Floor() == HOUR - 1
  {
    NinesValue(26);
    TenTo26();
    NoFraction(1);
    hide Value, Pow10;
    var d := 100_000_000_000_000_000_000_000_000;
    assert Value(t.fraction) == d - 1 && t.Product() == (d - 1) * HOUR;
    assert (d - 1) * HOUR == (HOUR - 1) * d + (d - HOUR);
    DivUnique(t.Product(), d, HOUR - 1, d - HOUR);
  }

  lemma TenTo26()
    ensures Pow10(26) == 100_000_000_000_000_000_000_000_000
  {
    Pow38();
  }

  lemma FitsU128(len: nat)
    requires len <= 38
    ensures Pow10(len) < U128
  {
    CheckedPow10Is(len);
  }

  lemma ScaleAtMostHour(unit: string)
    requires Scale(unit).Some?
    ensures Scale(unit).value <= HOUR
  {}

  lemma Product(a: nat, b: nat, c: nat, d: nat)
    requires a <= b && c <= d
    ensures a * c <= b * d
  {
    assert a * c <= b * c <= b * d;
  }
}
