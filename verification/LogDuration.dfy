// The duration column of the access log: printed backwards into 32 bytes, and
// read back by a parser of the same notation.
module LogDuration {
  import opened Wrappers

  const MAX_UINT64 := 0x1_0000_0000_0000_0000
  const INT64_LIMIT := 0x8000_0000_0000_0000

  const MICROSECOND := 1_000
  const MILLISECOND := 1_000_000
  const SECOND := 1_000_000_000
  const MINUTE := 60 * SECOND
  const HOUR := 60 * MINUTE

  // The two bytes of the micro sign.
  const MICRO: string := [0xC2 as char, 0xB5 as char]

  // ---- The text ----

  function Digit(v: nat): char { ('0' as int + v % 10) as char }

  function Digits(v: nat): (s: string)
    ensures s != ""
  {
    if v < 10 then [Digit(v)] else Digits(v / 10) + [Digit(v)]
  }

  // The last `prec` digits of `v` without trailing zeros, unless digits have
  // been `printed` already.
  function FracDigits(v: nat, prec: nat, printed: bool): (s: string)
    ensures |s| <= prec
  {
    if prec == 0 then ""
    else
      var p := printed || v % 10 != 0;
      FracDigits(v / 10, prec - 1, p) + (if p then [Digit(v)] else "")
  }

  function Frac(v: nat, prec: nat): string {
    var f := FracDigits(v, prec, false);
    if f == "" then "" else "." + f
  }

  function Magnitude(u: nat): string {
    if u == 0 then "0s"
    else if u < MICROSECOND then Digits(u) + "ns"
    else if u < MILLISECOND then Digits(u / MICROSECOND) + (Frac(u, 3) + (MICRO + "s"))
    else if u < SECOND then Digits(u / MILLISECOND) + (Frac(u, 6) + "ms")
    else
      var s := u / SECOND;
      Hours(s / 60) + (Digits(s % 60) + (Frac(u, 9) + "s"))
  }

  // Hours and minutes, as far as there are any.
  function Hours(minutes: nat): string {
    if minutes == 0 then ""
    else (if minutes / 60 > 0 then Digits(minutes / 60) + "h" else "") + (Digits(minutes % 60) + "m")
  }

  function Abs(d: int): nat { if d < 0 then -d else d }

  function Text(d: int): string { (if d < 0 then "-" else "") + Magnitude(Abs(d)) }

  // ---- Its length ----

  function Pow10(n: nat): (p: nat)
    ensures p > 0
  {
    if n == 0 then 1 else 10 * Pow10(n - 1)
  }

  lemma {:induction false} DigitsLength(v: nat, n: nat)
    requires 0 < n && v < Pow10(n)
    ensures |Digits(v)| <= n
  {
    if v >= 10 { DigitsLength(v / 10, n - 1); }
  }

  lemma Fits(d: int)
    requires -INT64_LIMIT <= d < INT64_LIMIT
    ensures |Text(d)| <= 25
  {
    var u := Abs(d);
    if u < MICROSECOND {
      DigitsLength(u, 3);
    } else if u < MILLISECOND {
      DigitsLength(u / MICROSECOND, 3);
    } else if u < SECOND {
      DigitsLength(u / MILLISECOND, 3);
    } else {
      var s := u / SECOND;
      DigitsLength(s % 60, 2);
      DigitsLength(s / 60 % 60, 2);
      assert s / 60 / 60 <= 2562047;
      DigitsLength(s / 60 / 60, 7);
    }
  }

  // ---- Reading it back ----

  predicate IsDigit(c: char) { '0' <= c <= '9' }

  // Digits at the front, read on top of `acc`, and what follows them.
  function ReadNat(s: string, acc: nat): (r: (nat, string))
    ensures |r.1| <= |s| && (s != "" && IsDigit(s[0]) ==> |r.1| < |s|)
  {
    if s != "" && IsDigit(s[0]) then ReadNat(s[1..], 10 * acc + (s[0] - '0') as nat) else (acc, s)
  }

  // How much of the text is the unit.
  function UnitEnd(s: string): (e: nat)
    ensures e <= |s|
  {
    if s == "" || IsDigit(s[0]) || s[0] == '.' then 0 else 1 + UnitEnd(s[1..])
  }

  function UnitOf(s: string): Option<nat> {
    if s == "ns" then Some(1)
    else if s == MICRO + "s" then Some(MICROSECOND)
    else if s == "ms" then Some(MILLISECOND)
    else if s == "s" then Some(SECOND)
    else if s == "m" then Some(MINUTE)
    else if s == "h" then Some(HOUR)
    else None
  }

  // A sequence of numbers, each with a unit and perhaps a fraction.
  function ParseParts(s: string): Option<int>
    decreases |s|
  {
    if s == "" then Some(0)
    else if !IsDigit(s[0]) then None
    else
      var (n, r) := ReadNat(s, 0);
      var (f, places, r2) := ReadFraction(r);
      var e := UnitEnd(r2);
      var unit, more := UnitOf(r2[..e]), ParseParts(r2[e..]);
      if unit.None? || more.None? || Fraction(f, unit.value, places).None? then None
      else Some(Scaled(n, unit.value) + Fraction(f, unit.value, places).value + more.value)
  }

  function Scaled(n: nat, unit: nat): nat { n * unit }

  // A fraction of a unit, if it comes to a whole number of nanoseconds.
  function Fraction(f: nat, unit: nat, places: nat): Option<nat> {
    if f * unit % Pow10(places) != 0 then None else Some(f * unit / Pow10(places))
  }

  // The digits behind a point as a number, how many they are, and what follows.
  function ReadFraction(s: string): (r: (nat, nat, string))
    ensures |r.2| <= |s|
  {
    if s == "" || s[0] != '.' then (0, 0, s)
    else var (f, rest) := ReadNat(s[1..], 0); (f, |s| - 1 - |rest|, rest)
  }

  function Parse(s: string): Option<int> {
    if s == "" then None
    else if s[0] == '-' then
      match ParseParts(s[1..])
      case Some(x) => Some(-x)
      case None => None
    else ParseParts(s)
  }

  // ---- The text is read back as what was printed ----

  predicate AllDigits(s: string) { forall k | 0 <= k < |s| :: IsDigit(s[k]) }

  // The number a string of digits stands for.
  function Val(s: string): nat
    requires AllDigits(s)
  {
    if s == "" then 0 else 10 * Val(s[..|s| - 1]) + (s[|s| - 1] - '0') as nat
  }

  lemma {:induction false} DigitsVal(v: nat)
    ensures AllDigits(Digits(v)) && Val(Digits(v)) == v
  {
    if v < 10 {
      assert Digits(v)[..0] == "";
    } else {
      DigitsVal(v / 10);
      var s := Digits(v);
      assert s[..|s| - 1] == Digits(v / 10);
    }
  }

  lemma {:induction false} ReadDigits(s: string, t: string, acc: nat)
    requires AllDigits(s)
    ensures ReadNat(s + t, acc) == ReadNat(t, acc * Pow10(|s|) + Val(s))
    decreases |s|
  {
    if s == "" {
      assert s + t == t;
    } else {
      var n := |s| - 1;
      var u, c := s[..n], s[n];
      assert s + t == u + ([c] + t);
      ReadDigits(u, [c] + t, acc);
      ReadOne(c, t, acc * Pow10(n) + Val(u));
      Scale(acc, Pow10(n));
      assert Pow10(|s|) == 10 * Pow10(n) && Val(s) == 10 * Val(u) + (c - '0') as nat;
    }
  }

  lemma ReadOne(c: char, t: string, acc: nat)
    requires IsDigit(c)
    ensures ReadNat([c] + t, acc) == ReadNat(t, 10 * acc + (c - '0') as nat)
  {
    assert ([c] + t)[1..] == t;
  }

  // What follows digits does not continue them.
  lemma ReadAll(f: string, t: string)
    requires AllDigits(f) && (t == "" || !IsDigit(t[0]))
    ensures ReadNat(f + t, 0) == (Val(f), t)
  {
    ReadDigits(f, t, 0);
    assert 0 * Pow10(|f|) == 0;
  }

  lemma ReadNumber(v: nat, t: string)
    requires t == "" || !IsDigit(t[0])
    ensures IsDigit((Digits(v) + t)[0]) && ReadNat(Digits(v) + t, 0) == (v, t)
  {
    DigitsVal(v);
    ReadAll(Digits(v), t);
  }

  // `f` are the last `prec` digits of `v`, but for zeros at the end.
  predicate FracMeans(f: string, v: nat, prec: nat) {
    AllDigits(f) && |f| <= prec && Scaled(Val(f), Pow10(prec - |f|)) == v % Pow10(prec)
  }

  lemma {:induction false} FracVal(v: nat, prec: nat, printed: bool)
    ensures var f := FracDigits(v, prec, printed); FracMeans(f, v, prec) && (printed ==> |f| == prec)
    decreases prec
  {
    if prec == 0 {
      assert Pow10(0) == 1;
    } else {
      var p := printed || v % 10 != 0;
      FracVal(v / 10, prec - 1, p);
      var g := FracDigits(v / 10, prec - 1, p);
      hide FracMeans, Pow10;
      if p { FracKeeps(g, v, prec); } else { FracSkips(g, v, prec); }
      assert FracDigits(v, prec, printed) == g + (if p then [Digit(v)] else "");
      assert g + "" == g;
    }
  }

  lemma FracKeeps(g: string, v: nat, prec: nat)
    requires prec > 0 && FracMeans(g, v / 10, prec - 1) && |g| == prec - 1
    ensures FracMeans(g + [Digit(v)], v, prec)
  {
    ModPow10(v, prec);
    var f := g + [Digit(v)];
    assert f[..|f| - 1] == g;
    assert Val(f) == 10 * Val(g) + v % 10 && Pow10(0) == 1;
  }

  lemma FracSkips(g: string, v: nat, prec: nat)
    requires prec > 0 && FracMeans(g, v / 10, prec - 1) && v % 10 == 0
    ensures FracMeans(g, v, prec)
  {
    ModPow10(v, prec);
    Scale(Val(g), Pow10(prec - 1 - |g|));
  }

  lemma Scale(a: nat, p: nat)
    ensures a * (10 * p) == 10 * (a * p)
  {
  }

  lemma ModPow10(v: nat, n: nat)
    requires n > 0
    ensures v % Pow10(n) == 10 * (v / 10 % Pow10(n - 1)) + v % 10
  {
    var p := Pow10(n - 1);
    var q, r := v / 10 / p, v / 10 % p;
    assert v / 10 == q * p + r;
    assert v == 10 * (q * p + r) + v % 10;
    Scale(q, p);
    Remainder(v, 10 * p, q, 10 * r + v % 10);
  }

  lemma Remainder(v: nat, p: nat, q: nat, r: nat)
    requires v == q * p + r && r < p
    ensures v % p == r && v / p == q
  {
    var k := v / p;
    assert v == k * p + v % p;
    assert (k - q) * p == k * p - q * p && (q - k) * p == q * p - k * p;
    if k > q { AtLeast(k - q, p); }
    if k < q { AtLeast(q - k, p); }
  }

  lemma AtLeast(n: nat, p: nat)
    requires n > 0
    ensures n * p >= p
  {
    assert n * p == p + (n - 1) * p;
  }

  lemma {:induction false} PowSplit(n: nat, k: nat)
    requires k <= n
    ensures Pow10(n) == Pow10(n - k) * Pow10(k)
  {
    if k > 0 {
      PowSplit(n, k - 1);
      assert Pow10(n - k + 1) == 10 * Pow10(n - k) && Pow10(k) == 10 * Pow10(k - 1);
      Regroup(Pow10(n - k), Pow10(k - 1));
    }
  }

  lemma Regroup(a: nat, b: nat)
    ensures (10 * a) * b == a * (10 * b)
  {
  }

  // A unit: text that is neither digit nor point.
  predicate IsUnit(s: string) { s != "" && forall k | 0 <= k < |s| :: !IsDigit(s[k]) && s[k] != '.' }

  lemma {:induction false} UnitEnds(unit: string, rest: string)
    requires IsUnit(unit) && (rest == "" || IsDigit(rest[0]))
    ensures UnitEnd(unit + rest) == |unit|
    decreases |unit|
  {
    assert (unit + rest)[1..] == unit[1..] + rest;
    if |unit| > 1 { UnitEnds(unit[1..], rest); } else { assert unit[1..] + rest == rest; }
  }

  // One number with its unit, in front of others.
  lemma PlainPart(n: nat, unit: string, value: nat, rest: string)
    requires IsUnit(unit) && UnitOf(unit) == Some(value) && (rest == "" || IsDigit(rest[0])) && ParseParts(rest).Some?
    ensures var s := Digits(n) + (unit + rest);
            IsDigit(s[0]) && ParseParts(s) == Some(Scaled(n, value) + ParseParts(rest).value)
  {
    hide *;
    ReadPlain(n, unit, rest);
    NoFraction(value);
    OnePart(Digits(n) + (unit + rest), n, unit + rest, 0, 0, unit, value, rest, 0);
  }

  lemma ReadPlain(n: nat, unit: string, rest: string)
    requires IsUnit(unit) && (rest == "" || IsDigit(rest[0]))
    ensures var t := unit + rest;
            && Digits(n) + t != "" && IsDigit((Digits(n) + t)[0]) && ReadNat(Digits(n) + t, 0) == (n, t)
            && ReadFraction(t) == (0, 0, t) && UnitEnd(t) == |unit|
  {
    assert (unit + rest)[0] == unit[0];
    ReadNumber(n, unit + rest);
    UnitEnds(unit, rest);
  }

  lemma NoFraction(unit: nat)
    ensures Fraction(0, unit, 0) == Some(0)
  {
  }

  // One round of the parser, given what it reads.
  lemma OnePart(s: string, n: nat, r: string, f: nat, places: nat, unit: string, value: nat, rest: string, x: nat)
    requires s != "" && IsDigit(s[0]) && ReadNat(s, 0) == (n, r) && ReadFraction(r) == (f, places, unit + rest)
    requires UnitEnd(unit + rest) == |unit| && UnitOf(unit) == Some(value) && ParseParts(rest).Some?
    requires Fraction(f, value, places) == Some(x)
    ensures ParseParts(s) == Some(Scaled(n, value) + x + ParseParts(rest).value)
  {
    hide ReadNat, UnitOf, UnitEnd, ReadFraction, Fraction, Scaled;
    var t := unit + rest;
    assert t[..|unit|] == unit && t[|unit|..] == rest;
  }

  // The last number, which may have a fraction.
  lemma LastPart(n: nat, u: nat, prec: nat, unit: string)
    requires IsUnit(unit) && UnitOf(unit) == Some(Pow10(prec))
    ensures var s := Digits(n) + (Frac(u, prec) + unit);
            s != "" && IsDigit(s[0]) && ParseParts(s) == Some(Scaled(n, Pow10(prec)) + u % Pow10(prec))
  {
    hide *;
    var f := FracDigits(u, prec, false);
    FracIs(u, prec, unit);
    ParsesNothing(unit);
    if f == "" {
      PlainPart(n, unit, Pow10(prec), "");
    } else {
      ReadLast(n, u, prec, unit);
      FracWhole(u, prec);
      OnePart(Digits(n) + ("." + (f + unit)), n, "." + (f + unit), Val(f), |f|, unit, Pow10(prec), "", u % Pow10(prec));
    }
  }

  lemma ParsesNothing(unit: string)
    ensures ParseParts("") == Some(0) && unit + "" == unit
  {
  }

  lemma FracIs(u: nat, prec: nat, unit: string)
    ensures var f := FracDigits(u, prec, false);
            && AllDigits(f)
            && Frac(u, prec) + unit == (if f == "" then unit else "." + (f + unit))
            && (f == "" ==> u % Pow10(prec) == 0)
  {
    FracVal(u, prec, false);
    hide FracDigits, Pow10;
    var f := FracDigits(u, prec, false);
    Assoc(".", f, unit);
  }

  lemma ReadLast(n: nat, u: nat, prec: nat, unit: string)
    requires IsUnit(unit)
    ensures var f := FracDigits(u, prec, false);
            var t := "." + (f + unit);
            && AllDigits(f)
            && Digits(n) + t != "" && IsDigit((Digits(n) + t)[0]) && ReadNat(Digits(n) + t, 0) == (n, t)
            && ReadFraction(t) == (Val(f), |f|, unit + "") && UnitEnd(unit + "") == |unit|
  {
    FracVal(u, prec, false);
    hide FracDigits, Pow10, Val, ReadNat;
    var f := FracDigits(u, prec, false);
    ReadNumber(n, "." + (f + unit));
    FractionRead(f, unit);
    UnitEnds(unit, "");
    assert unit + "" == unit;
  }

  // The digits printed are worth what is left of the unit.
  lemma FracWhole(u: nat, prec: nat)
    ensures var f := FracDigits(u, prec, false);
            AllDigits(f) && Fraction(Val(f), Pow10(prec), |f|) == Some(u % Pow10(prec))
  {
    FracVal(u, prec, false);
    hide FracDigits, Pow10, Val;
    var f := FracDigits(u, prec, false);
    PowSplit(prec, |f|);
    FracExact(Val(f), Pow10(prec - |f|), Pow10(|f|));
  }

  lemma FractionRead(f: string, unit: string)
    requires AllDigits(f) && IsUnit(unit)
    ensures ReadFraction("." + (f + unit)) == (Val(f), |f|, unit)
  {
    var t := "." + (f + unit);
    assert t[1..] == f + unit && t[0] == '.';
    ReadAll(f, unit);
    hide ReadNat, Val;
  }

  lemma FracExact(f: nat, a: nat, b: nat)
    requires b > 0
    ensures f * (a * b) % b == 0 && f * (a * b) / b == f * a
  {
    assert f * (a * b) == (f * a) * b;
    Remainder(f * (a * b), b, f * a, 0);
  }

  lemma UnitsAre()
    ensures IsUnit("ns") && IsUnit(MICRO + "s") && IsUnit("ms") && IsUnit("s") && IsUnit("m") && IsUnit("h")
    ensures UnitOf("ns") == Some(Pow10(0)) && UnitOf(MICRO + "s") == Some(Pow10(3)) && UnitOf("ms") == Some(Pow10(6))
    ensures Pow10(0) == 1 && Pow10(9) == SECOND && UnitOf("s") == Some(Pow10(9)) && UnitOf("m") == Some(MINUTE) && UnitOf("h") == Some(HOUR)
  {
    assert Pow10(3) == 1_000;
    assert Pow10(6) == 1_000 * Pow10(3);
    assert Pow10(9) == 1_000 * Pow10(6);
  }

  lemma MagnitudeParses(u: nat)
    ensures Magnitude(u) != "" && IsDigit(Magnitude(u)[0]) && ParseParts(Magnitude(u)) == Some(u)
  {
    UnitsAre();
    MagnitudeIs(u);
    NothingLeft();
    Whole(u, 1);
    Whole(u, MICROSECOND);
    Whole(u, MILLISECOND);
    Whole(0, SECOND);
    hide *;
    if u == 0 {
      LastPart(0, 0, 9, "s");
    } else if u < MICROSECOND {
      PlainPart(u, "ns", 1, "");
    } else if u < MILLISECOND {
      LastPart(u / MICROSECOND, u, 3, MICRO + "s");
    } else if u < SECOND {
      LastPart(u / MILLISECOND, u, 6, "ms");
    } else {
      SecondsParse(u);
    }
  }

  lemma NothingLeft()
    ensures ParseParts("") == Some(0) && Digits(0) + (Frac(0, 9) + "s") == "0s" && "ns" + "" == "ns"
    ensures MICROSECOND == 1_000 == Pow10(3) && MILLISECOND == 1_000_000 == Pow10(6) && SECOND == 1_000_000_000 == Pow10(9)
  {
    UnitsAre();
  }

  lemma Whole(u: nat, unit: nat)
    requires unit > 0
    ensures Scaled(u / unit, unit) + u % unit == u && (unit == 1 ==> u / unit == u && u % unit == 0)
  {
  }

  lemma MagnitudeIs(u: nat)
    ensures u == 0 ==> Magnitude(u) == "0s"
    ensures 0 < u < MICROSECOND ==> Magnitude(u) == Digits(u) + "ns"
    ensures MICROSECOND <= u < MILLISECOND ==> Magnitude(u) == Digits(u / MICROSECOND) + (Frac(u, 3) + (MICRO + "s"))
    ensures MILLISECOND <= u < SECOND ==> Magnitude(u) == Digits(u / MILLISECOND) + (Frac(u, 6) + "ms")
    ensures u >= SECOND ==>
              Magnitude(u) == Hours(u / SECOND / 60) + (Digits(u / SECOND % 60) + (Frac(u, 9) + "s"))
  {
    hide Digits, Frac, Hours;
  }

  lemma SecondsParse(u: nat)
    ensures var s := u / SECOND;
            var t := Hours(s / 60) + (Digits(s % 60) + (Frac(u, 9) + "s"));
            t != "" && IsDigit(t[0]) && ParseParts(t) == Some(u)
  {
    UnitsAre();
    hide ParseParts, Digits, Frac, UnitOf, IsUnit, Pow10;
    var s := u / SECOND;
    var last := Digits(s % 60) + (Frac(u, 9) + "s");
    LastPart(s % 60, u, 9, "s");
    assert ParseParts(last) == Some(Scaled(s % 60, SECOND) + u % SECOND);
    var m := s / 60;
    if m == 0 {
      assert Hours(m) + last == last;
    } else {
      PlainPart(m % 60, "m", MINUTE, last);
      var minutes := Digits(m % 60) + ("m" + last);
      if m / 60 > 0 {
        PlainPart(m / 60, "h", HOUR, minutes);
        assert Hours(m) + last == Digits(m / 60) + ("h" + minutes);
      } else {
        assert Hours(m) + last == minutes;
      }
    }
  }

  // For every duration the text says exactly that duration.
  lemma TextParses(d: int)
    ensures Parse(Text(d)) == Some(d)
  {
    var u := Abs(d);
    MagnitudeParses(u);
    if d < 0 {
      assert Text(d)[1..] == Magnitude(u);
    } else {
      assert Text(d) == Magnitude(u);
    }
  }

  // ---- The notation is the shortest of its kind ----

  // No digit in front or behind that says nothing.
  predicate Trimmed(digits: string) { digits != "" ==> digits[|digits| - 1] != '0' }
  predicate Leads(digits: string) { |digits| > 1 ==> digits[0] != '0' }

  lemma {:induction false} DigitsLead(v: nat)
    ensures Leads(Digits(v)) && (v > 0 ==> Digits(v)[0] != '0')
  {
    if v >= 10 { DigitsLead(v / 10); }
  }

  lemma {:induction false} FracTrimmed(v: nat, prec: nat)
    ensures Trimmed(FracDigits(v, prec, false))
  {
    if prec > 0 && v % 10 == 0 {
      FracTrimmed(v / 10, prec - 1);
      assert FracDigits(v, prec, false) == FracDigits(v / 10, prec - 1, false);
    }
  }

  // A number with a fraction and a unit; hours and minutes in front of it, as
  // far as there are any.
  function Shown(n: nat, f: string, unit: string): string { Digits(n) + ((if f == "" then "" else "." + f) + unit) }

  function Clock(h: nat, m: nat): string {
    if h > 0 then Digits(h) + "h" + (Digits(m) + "m") else if m > 0 then Digits(m) + "m" else ""
  }

  // The units that are used for a duration of this size, and how.
  predicate Fitting(u: nat, h: nat, m: nat, n: nat, f: string, unit: string) {
    && AllDigits(f) && Trimmed(f)
    && if u == 0 then h == m == n == 0 && f == "" && unit == "s"
       else if u < SECOND then
         && h == m == 0 && 1 <= n < 1000
         && ((unit == "ns" && f == "") || (unit == MICRO + "s" && |f| <= 3) || (unit == "ms" && |f| <= 6))
       else m < 60 && n < 60 && |f| <= 9 && unit == "s"
  }

  // Below a second one unit is used, the one that gives a number from 1 to
  // 999; from there on hours, minutes and seconds, the latter two below 60.
  // Zeros at the end of a fraction and units in front of the first that counts
  // are left out.
  lemma TextFits(d: int) returns (h: nat, m: nat, n: nat, f: string, unit: string)
    ensures Text(d) == (if d < 0 then "-" else "") + (Clock(h, m) + Shown(n, f, unit))
    ensures Fitting(Abs(d), h, m, n, f, unit) && Leads(Digits(h)) && Leads(Digits(m)) && Leads(Digits(n))
  {
    var u := Abs(d);
    h, m := 0, 0;
    MagnitudeIs(u);
    if u < MICROSECOND {
      n, f, unit := u, "", if u == 0 then "s" else "ns";
      assert "" + unit == unit && Digits(0) + "s" == "0s";
    } else if u < SECOND {
      var prec := if u < MILLISECOND then 3 else 6;
      n, unit := if u < MILLISECOND then u / MICROSECOND else u / MILLISECOND, if u < MILLISECOND then MICRO + "s" else "ms";
      f := FracDigits(u, prec, false);
      FracTrimmed(u, prec);
      FracVal(u, prec, false);
    } else {
      var minutes := u / SECOND / 60;
      h, m, n, f, unit := minutes / 60, minutes % 60, u / SECOND % 60, FracDigits(u, 9, false), "s";
      FracTrimmed(u, 9);
      FracVal(u, 9, false);
      ClockIs(minutes);
    }
    hide Magnitude, Digits, FracDigits, Frac, Hours, Val;
    assert "" + Shown(n, f, unit) == Shown(n, f, unit);
    DigitsLead(h);
    DigitsLead(m);
    DigitsLead(n);
  }

  lemma ClockIs(minutes: nat)
    ensures Clock(minutes / 60, minutes % 60) == Hours(minutes)
  {
    hide Digits;
    assert "" + (Digits(minutes % 60) + "m") == Digits(minutes % 60) + "m";
  }

  // ---- The printers ----

  // Writes one byte in front of what is already there.
  method Prepend(buf: array<char>, end: nat, c: char) returns (w: nat)
    requires 0 < end <= buf.Length
    modifies buf
    ensures w == end - 1 && buf[w..] == [c] + old(buf[end..])
  {
    w := end - 1;
    buf[w] := c;
    assert buf[end..] == old(buf[end..]);
  }

  method FmtInt(buf: array<char>, end: nat, value: nat) returns (w: nat)
    requires |Digits(value)| <= end <= buf.Length
    modifies buf
    ensures w == end - |Digits(value)| && buf[w..] == Digits(value) + old(buf[end..])
  {
    hide Digits, Printed, Digit;
    w := end;
    var v := value;
    DigitsStep(v);
    if v == 0 {
      w := Prepend(buf, w, '0');
      return;
    }
    ghost var done, tail := "", buf[end..];
    PrintedNothing(Digits(value));
    while v > 0
      invariant w <= end <= buf.Length && w == end - |done| && buf[w..] == done + tail
      invariant Digits(value) == Printed(v) + done
    {
      DigitsStep(v);
      Assoc(Printed(v / 10), [Digit(v)], done);
      Assoc([Digit(v)], done, tail);
      w := Prepend(buf, w, Digit(v));
      done := [Digit(v)] + done;
      v := v / 10;
    }
    PrintedNothing(done);
  }

  lemma PrintedNothing(s: string)
    ensures s + "" == s && Printed(0) + s == s
  {
  }

  // The digits the loop still has to write.
  function Printed(v: nat): string { if v == 0 then "" else Digits(v) }

  lemma DigitsStep(v: nat)
    ensures if v == 0 then Digits(v) == "0" else Printed(v) == Digits(v) == Printed(v / 10) + [Digit(v)]
  {
  }

  lemma Assoc(a: string, b: string, c: string)
    ensures (a + b) + c == a + (b + c)
  {
  }

  method FmtFrac(buf: array<char>, end: nat, value: nat, prec: nat) returns (w: nat, v: nat)
    requires prec < end <= buf.Length
    modifies buf
    ensures v == value / Pow10(prec)
    ensures w == end - |Frac(value, prec)| && buf[w..] == Frac(value, prec) + old(buf[end..])
  {
    hide FracDigits, Pow10;
    w, v := end, value;
    var printed := false;
    ghost var done, tail := "", buf[end..];
    DividedByOne(value);
    for i := 0 to prec
      invariant end <= buf.Length && w == end - |done| && |done| <= i && buf[w..] == done + tail
      invariant FracDigits(value, prec, false) == FracDigits(v, prec - i, printed) + done
      invariant printed <==> done != ""
      invariant v == value / Pow10(i)
    {
      FracStep(v, prec - i, printed, done);
      var digit := v % 10;
      printed := printed || digit != 0;
      if printed {
        Assoc([Digit(v)], done, tail);
        w := Prepend(buf, w, Digit(v));
        done := [Digit(v)] + done;
      }
      DivideAgain(value, i);
      v := v / 10;
    }
    FracNone(v, printed, done);
    if printed {
      Assoc(".", done, tail);
      w := Prepend(buf, w, '.');
    }
  }

  lemma DividedByOne(v: nat)
    ensures v / Pow10(0) == v
  {
  }

  lemma FracStep(v: nat, prec: nat, printed: bool, done: string)
    requires prec > 0
    ensures FracDigits(v, prec, printed) + done
         == FracDigits(v / 10, prec - 1, printed || v % 10 != 0)
          + (if printed || v % 10 != 0 then [Digit(v)] + done else done)
  {
    Assoc(FracDigits(v / 10, prec - 1, true), [Digit(v)], done);
  }

  lemma FracNone(v: nat, printed: bool, done: string)
    ensures FracDigits(v, 0, printed) + done == done
  {
  }

  lemma DivideAgain(v: nat, i: nat)
    ensures v / Pow10(i) / 10 == v / Pow10(i + 1)
  {
    var p := Pow10(i);
    var q := v / p;
    assert v == q * p + v % p && q == 10 * (q / 10) + q % 10;
    Distribute(q / 10, q % 10, p);
    AtMost(q % 10, 9, p);
    Remainder(v, 10 * p, q / 10, q % 10 * p + v % p);
  }

  lemma Distribute(a: nat, b: nat, p: nat)
    ensures (10 * a + b) * p == a * (10 * p) + b * p
  {
  }

  lemma AtMost(a: nat, b: nat, p: nat)
    requires a <= b
    ensures a * p <= b * p
  {
    assert (b - a) * p >= 0;
  }

  // The magnitude of a 64-bit duration: the bits read as unsigned, and negated
  // once more in unsigned arithmetic if the duration was negative.
  function Unsigned(d: int): (u: nat)
    requires -INT64_LIMIT <= d < INT64_LIMIT
    ensures u == Abs(d)
  {
    var u := d % MAX_UINT64;
    if d < 0 then (MAX_UINT64 - u) % MAX_UINT64 else u
  }

  method FormatLogDuration(buf: array<char>, d: int) returns (w: nat)
    requires buf.Length == 32 && -INT64_LIMIT <= d < INT64_LIMIT
    modifies buf
    ensures w <= 32 && buf[w..] == Text(d)
  {
    w := buf.Length;
    var u := Unsigned(d);
    assert buf[w..] == "";
    if u < SECOND {
      w := FormatSubsecond(buf, u);
    } else {
      w := FormatSeconds(buf, u);
    }
    assert |Magnitude(u)| == 32 - w;
    if d < 0 {
      Fits(d);
      w := Prepend(buf, w, '-');
    }
  }

  method FormatSubsecond(buf: array<char>, magnitude: nat) returns (w: nat)
    requires buf.Length == 32 && magnitude < SECOND
    modifies buf
    ensures w <= 32 && buf[w..] == Magnitude(magnitude)
  {
    var u, prec := magnitude, 0;
    w := Prepend(buf, buf.Length, 's');
    if u == 0 {
      w := Prepend(buf, w, '0');
      return;
    }
    if u < MICROSECOND {
      prec := 0;
      w := Prepend(buf, w, 'n');
    } else if u < MILLISECOND {
      prec := 3;
      w := Prepend(buf, w, MICRO[1]);
      w := Prepend(buf, w, MICRO[0]);
    } else {
      prec := 6;
      w := Prepend(buf, w, 'm');
    }
    SubsecondIs(u, prec, buf[w..]);
    hide *;
    w, u := FmtFrac(buf, w, u, prec);
    FracLength(magnitude, prec);
    DigitsLength(u, 3);
    w := FmtInt(buf, w, u);
  }

  lemma SubsecondIs(u: nat, prec: nat, unit: string)
    requires 0 < u < SECOND
    requires if u < MICROSECOND then prec == 0 && unit == "ns"
             else if u < MILLISECOND then prec == 3 && unit == MICRO + "s" else prec == 6 && unit == "ms"
    ensures Magnitude(u) == Digits(u / Pow10(prec)) + (Frac(u, prec) + unit)
    ensures u / Pow10(prec) < Pow10(3) && prec <= 6 && |unit| <= 3
  {
    SmallQuotient(u, prec);
    MagnitudeIs(u);
    hide Digits, Frac, Magnitude;
    assert "" + unit == unit;
  }

  lemma FracLength(v: nat, prec: nat)
    ensures |Frac(v, prec)| <= prec + 1
  {
  }

  lemma SmallQuotient(u: nat, prec: nat)
    requires (prec == 0 && u < MICROSECOND) || (prec == 3 && u < MILLISECOND) || (prec == 6 && u < SECOND)
    ensures u / Pow10(prec) < Pow10(3) && Frac(u, 0) == "" && Pow10(3) == 1000 && Pow10(6) == 1000 * 1000 && Pow10(0) == 1
  {
    assert Pow10(3) == 1000 && Pow10(6) == 1000 * Pow10(3);
  }

  method FormatSeconds(buf: array<char>, magnitude: nat) returns (w: nat)
    requires buf.Length == 32 && SECOND <= magnitude <= INT64_LIMIT
    modifies buf
    ensures w <= 32 && buf[w..] == Magnitude(magnitude)
  {
    w := Prepend(buf, buf.Length, 's');
    var u;
    w, u := FmtFrac(buf, w, magnitude, 9);
    UnitsAre();
    assert u == magnitude / SECOND;
    FracLength(magnitude, 9);
    hide Digits, Frac, Magnitude;
    DigitsLength(u % 60, 2);
    w := FmtInt(buf, w, u % 60);
    u := u / 60;
    if u > 0 {
      w := Prepend(buf, w, 'm');
      DigitsLength(u % 60, 2);
      w := FmtInt(buf, w, u % 60);
      u := u / 60;
      if u > 0 {
        w := Prepend(buf, w, 'h');
        DigitsLength(u, 7);
        w := FmtInt(buf, w, u);
      }
    }
    Assembled(magnitude, w, buf[w..]);
  }

  // The pieces in the order they were printed make up the text.
  lemma Assembled(u: nat, w: nat, s: string)
    requires u >= SECOND
    requires var t := u / SECOND;
             var last := Digits(t % 60) + (Frac(u, 9) + ("s" + ""));
             s == if t / 60 == 0 then last
                  else if t / 60 / 60 == 0 then Digits(t / 60 % 60) + ("m" + last)
                  else Digits(t / 60 / 60) + ("h" + (Digits(t / 60 % 60) + ("m" + last)))
    ensures s == Magnitude(u)
  {
    hide Digits, Frac;
    var t := u / SECOND;
    assert "s" + "" == "s";
    var last := Digits(t % 60) + (Frac(u, 9) + "s");
    var minutes := Digits(t / 60 % 60) + "m";
    Assoc(Digits(t / 60 % 60), "m", last);
    Assoc(Digits(t / 60 / 60), "h", minutes);
    Assoc(Digits(t / 60 / 60) + "h", minutes, last);
    Assoc(Digits(t / 60 / 60), "h", minutes + last);
    assert "" + minutes == minutes && "" + last == last;
  }
}
