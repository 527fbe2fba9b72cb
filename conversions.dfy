/** GPS coordinate notations and their conversion to decimal degrees.

    Five textual grammars for one coordinate (hybrid 1 `N 41 24 12.2`,
    hybrid 2 `S 41 24.2028`, DMS `41°24'12.2"N`, DMM `41 24.2028`, DD
    `41.40338`) and the same five as pairs.  A single coordinate is tried
    against the grammars in that fixed order, and the first one that
    matches decides the converter.  Each grammar is a recogniser over the
    text, written out by hand. */
module Conversions {
  import opened PyText
  import opened PyNumber

  /** What a parse gives back: a value, no matching grammar (the source
      logs a warning and returns None), or a Python exception. */
  datatype Outcome<T> = Parsed(value: T) | NoMatch | Raises(error: PyError)

  const Degree: char := '\U{00B0}'

  // ================================================================ recognisers

  /** `[NESW]` on the whole piece. */
  predicate IsHemisphere(t: string) {
    |t| == 1 && (t[0] == 'N' || t[0] == 'E' || t[0] == 'S' || t[0] == 'W')
  }

  /** `[\d]{1,hi}` on the whole piece. */
  predicate DigitRun(t: string, hi: nat) {
    1 <= |t| <= hi && AllDigits(t)
  }

  /** `[\d]+(\.[\d]+)?` on the whole piece. */
  predicate DecimalNumeral(t: string) {
    var p := Split(t, ".");
    |p[0]| >= 1 && AllDigits(p[0])
    && (|p| == 1 || (|p| == 2 && |p[1]| >= 1 && AllDigits(p[1])))
  }

  /** `[\d]{1,hi}(\.[\d]+)?` on the whole piece. */
  predicate Decimal(t: string, hi: nat) {
    DecimalNumeral(t) && |Split(t, ".")[0]| <= hi
  }

  /** Hybrid 1, `[NESW] [\d]{1,degHi} [\d]{1,2} [\d]{1,2}(\.[\d]+)?`
      (conversions.py:22 with degHi = 3, first half of :23 with degHi = 2). */
  predicate Hyb1Shape(s: string, degHi: nat) {
    var p := Split(s, " ");
    |p| == 4 && IsHemisphere(p[0]) && DigitRun(p[1], degHi) && DigitRun(p[2], 2) && Decimal(p[3], 2)
  }

  /** Hybrid 2, `[NESW] [\d]{1,degHi} [\d]{1,minHi}(\.[\d]+)?`
      (conversions.py:25 with 3 and 2; :26 with 2 and 2, then 2 and 3). */
  predicate Hyb2Shape(s: string, degHi: nat, minHi: nat) {
    var p := Split(s, " ");
    |p| == 3 && IsHemisphere(p[0]) && DigitRun(p[1], degHi) && Decimal(p[2], minHi)
  }

  /** DMS, `[\d]{1,2}°[\d]{1,2}'[\d]{1,2}(\.[\d]+)?"[NESW]` (conversions.py:13). */
  predicate DmsShape(s: string) {
    var q := Split(s, [Degree]);
    |q| == 2 && DigitRun(q[0], 2)
    && var r := Split(q[1], "'");
    |r| == 2 && DigitRun(r[0], 2)
    && var u := Split(r[1], "\"");
    |u| == 2 && Decimal(u[0], 2) && IsHemisphere(u[1])
  }

  /** DMM, `[\d]{1,2} [\d]{1,2}(\.[\d]+)?` (conversions.py:16). */
  predicate DmmShape(s: string) {
    var p := Split(s, " ");
    |p| == 2 && DigitRun(p[0], 2) && Decimal(p[1], 2)
  }

  /** DD with its first `k` characters as the degrees: the unescaped `.` of
      `[\d]{1,2}.[\d]+` accepts any character other than a newline. */
  predicate DdAt(s: string, k: nat) {
    1 <= k <= 2 && k + 2 <= |s| && AllDigits(s[..k]) && s[k] != '\n' && AllDigits(s[k + 1..])
  }

  /** DD (conversions.py:19). */
  predicate DdShape(s: string) {
    DdAt(s, 1) || DdAt(s, 2)
  }

  /** The pair patterns (conversions.py:14, 17, 20, 23, 26). */
  predicate Hyb1Pair(s: string) {
    var p := Split(s, ", ");
    |p| == 2 && Hyb1Shape(p[0], 2) && Hyb1Shape(p[1], 3)
  }

  predicate Hyb2Pair(s: string) {
    var p := Split(s, ", ");
    |p| == 2 && Hyb2Shape(p[0], 2, 2) && Hyb2Shape(p[1], 2, 3)
  }

  predicate DmsPair(s: string) {
    var p := Split(s, " ");
    |p| == 2 && DmsShape(p[0]) && DmsShape(p[1])
  }

  predicate DmmPair(s: string) {
    var p := Split(s, ", ");
    |p| == 2 && DmmShape(p[0]) && DmmShape(p[1])
  }

  predicate DdPair(s: string) {
    var p := Split(s, ", ");
    |p| == 2 && DdShape(p[0]) && DdShape(p[1])
  }

  // ================================================================ converters

  /** Negation for the southern and western hemispheres. */
  function Signed(direction: string, x: real): real {
    if direction == "S" || direction == "W" then -x else x
  }

  /** The arithmetic of `dms2dd` once its three numbers are read. */
  function DmsArithmetic(d: real, m: real, s: real, direction: string): real {
    Signed(direction, d + m / 60.0 + s / 3600.0)
  }

  /** `dms2dd`: each of the three numbers through `float()`. */
  function Dms2dd(degrees: string, minutes: string, seconds: string, direction: string): (r: Outcome<real>)
    ensures !r.NoMatch?
    ensures r.Raises? <==> (FloatOf(degrees).None? || FloatOf(minutes).None? || FloatOf(seconds).None?)
    ensures r.Raises? ==> r.error == ValueError
  {
    var d := FloatOf(degrees);
    var m := FloatOf(minutes);
    var s := FloatOf(seconds);
    if d.None? || m.None? || s.None? then Raises(ValueError)
    else Parsed(DmsArithmetic(d.value, m.value, s.value, direction))
  }

  /** `dmm2dd`: degrees through `int()`, minutes through `float()`; no
      hemisphere, so never negated by a direction. */
  function Dmm2dd(degrees: string, decimalMinutes: string): (r: Outcome<real>)
    ensures !r.NoMatch?
    ensures r.Raises? <==> (IntOf(degrees).None? || FloatOf(decimalMinutes).None?)
    ensures r.Raises? ==> r.error == ValueError
  {
    var d := IntOf(degrees);
    var m := FloatOf(decimalMinutes);
    if d.None? || m.None? then Raises(ValueError)
    else Parsed(d.value as real + m.value / 60.0)
  }

  /** `hyb22dd`: `dmm2dd` followed by the hemisphere sign. */
  function Hyb22dd(degrees: string, decimalMinutes: string, direction: string): (r: Outcome<real>)
    ensures !r.NoMatch?
    ensures r.Raises? <==> Dmm2dd(degrees, decimalMinutes).Raises?
    ensures r.Raises? ==> r.error == ValueError
    ensures r.Parsed? ==> r.value == Signed(direction, Dmm2dd(degrees, decimalMinutes).value)
  {
    var d := IntOf(degrees);
    var m := FloatOf(decimalMinutes);
    if d.None? || m.None? then Raises(ValueError)
    else Parsed(Signed(direction, d.value as real + m.value / 60.0))
  }

  /** `int(x)` on a float: truncation toward zero. */
  function Trunc(x: real): (n: int)
    ensures x >= 0.0 ==> n as real <= x < n as real + 1.0
    ensures x < 0.0 ==> n as real - 1.0 < x <= n as real
  {
    if x >= 0.0 then x.Floor else -((-x).Floor)
  }

  function Abs(x: real): real { if x < 0.0 then -x else x }

  /** `dd2dms`: whole degrees (truncated), whole minutes, and seconds. */
  function Dd2dms(deg: real): (r: (int, int, real))
    ensures 0 <= r.1 < 60 && 0.0 <= r.2 < 60.0
    ensures r.0 == Trunc(deg)
  {
    var d := Trunc(deg);
    var md := Abs(deg - d as real) * 60.0;
    var m := Trunc(md);
    var sd := (md - m as real) * 60.0;
    (d, m, sd)
  }

  /** `feet_to_meters`. */
  function FeetToMeters(feet: real): (r: real)
    ensures (r < 0.0) == (feet < 0.0) && (r == 0.0) == (feet == 0.0)
    ensures feet >= 0.0 ==> r <= feet
  {
    feet * 0.3048
  }

  /** Feet to metres is linear. */
  lemma FeetToMetersLinear(a: real, b: real, k: real)
    ensures FeetToMeters(a + b) == FeetToMeters(a) + FeetToMeters(b)
    ensures FeetToMeters(k * a) == k * FeetToMeters(a)
  {
  }

  // ================================================================ part parsers

  /** `parse_dms_part`: split on runs of non-word characters, then
      `dms2dd(parts[0], parts[1], parts[2], parts[3])`. */
  function ParseDmsPart(dms: string): (r: Outcome<real>)
    ensures !r.NoMatch?
    ensures r.Raises? ==> r.error == IndexError || r.error == ValueError
  {
    var parts := ReSplitNonWord(dms);
    if |parts| < 4 then Raises(IndexError)
    else Dms2dd(parts[0], parts[1], parts[2], parts[3])
  }

  /** `parse_dmm_part`: split on ' ', then `dmm2dd(parts[0], parts[1])`. */
  function ParseDmmPart(dmm: string): (r: Outcome<real>)
    ensures !r.NoMatch?
    ensures r.Raises? ==> r.error == IndexError || r.error == ValueError
  {
    var parts := Split(dmm, " ");
    if |parts| < 2 then Raises(IndexError)
    else Dmm2dd(parts[0], parts[1])
  }

  /** `parse_dd_part`: `float(dd)`. */
  function ParseDdPart(dd: string): (r: Outcome<real>)
    ensures !r.NoMatch?
    ensures r.Parsed? <==> FloatOf(dd).Some?
    ensures r.Parsed? ==> r.value == FloatOf(dd).value
    ensures r.Raises? ==> r.error == ValueError
  {
    match FloatOf(dd)
    case Some(x) => Parsed(x)
    case None => Raises(ValueError)
  }

  /** `parse_hyb1_part`: split on ' ', then
      `dms2dd(parts[1], parts[2], parts[3], parts[0])`. */
  function ParseHyb1Part(hyb1: string): (r: Outcome<real>)
    ensures !r.NoMatch?
    ensures r.Raises? ==> r.error == IndexError || r.error == ValueError
  {
    var parts := Split(hyb1, " ");
    if |parts| < 4 then Raises(IndexError)
    else Dms2dd(parts[1], parts[2], parts[3], parts[0])
  }

  /** `parse_hyb2_part`: split on ' ', then `hyb22dd(parts[1], parts[2], parts[0])`. */
  function ParseHyb2Part(hyb2: string): (r: Outcome<real>)
    ensures !r.NoMatch?
    ensures r.Raises? ==> r.error == IndexError || r.error == ValueError
  {
    var parts := Split(hyb2, " ");
    if |parts| < 3 then Raises(IndexError)
    else Hyb22dd(parts[1], parts[2], parts[0])
  }

  // ================================================================ pair parsers

  /** The pair `(lat, lng)` once `lat` is computed and `lng` is computed
      from the second piece, if there is one. */
  function Both(lat: Outcome<real>, lng: Outcome<real>): Outcome<(real, real)> {
    if lat.Raises? then Raises(lat.error)
    else if lng.Raises? then Raises(lng.error)
    else if lat.Parsed? && lng.Parsed? then Parsed((lat.value, lng.value))
    else NoMatch
  }

  /** `parse_dms`: split on ' '. */
  function ParseDms(dms: string): (r: Outcome<(real, real)>)
    ensures !r.NoMatch?
    ensures r.Raises? ==> r.error == IndexError || r.error == ValueError
  {
    var parts := Split(dms, " ");
    var lat := ParseDmsPart(parts[0]);
    if lat.Raises? then Raises(lat.error)
    else if |parts| < 2 then Raises(IndexError)
    else Both(lat, ParseDmsPart(parts[1]))
  }

  /** `parse_dmm`: split on ", ". */
  function ParseDmm(dmm: string): (r: Outcome<(real, real)>)
    ensures !r.NoMatch?
    ensures r.Raises? ==> r.error == IndexError || r.error == ValueError
  {
    var parts := Split(dmm, ", ");
    var lat := ParseDmmPart(parts[0]);
    if lat.Raises? then Raises(lat.error)
    else if |parts| < 2 then Raises(IndexError)
    else Both(lat, ParseDmmPart(parts[1]))
  }

  /** `parse_dd`: its first statement reads the name `dms`, which is not
      defined in the module, so every call raises NameError. */
  function ParseDd(dd: string): Outcome<(real, real)> {
    Raises(NameError)
  }

  /** `parse_hyb1`: split on ", ". */
  function ParseHyb1(hyb1: string): (r: Outcome<(real, real)>)
    ensures !r.NoMatch?
    ensures r.Raises? ==> r.error == IndexError || r.error == ValueError
  {
    var parts := Split(hyb1, ", ");
    var lat := ParseHyb1Part(parts[0]);
    if lat.Raises? then Raises(lat.error)
    else if |parts| < 2 then Raises(IndexError)
    else Both(lat, ParseHyb1Part(parts[1]))
  }

  /** `parse_hyb2`: split on ", ". */
  function ParseHyb2(hyb2: string): (r: Outcome<(real, real)>)
    ensures !r.NoMatch?
    ensures r.Raises? ==> r.error == IndexError || r.error == ValueError
  {
    var parts := Split(hyb2, ", ");
    var lat := ParseHyb2Part(parts[0]);
    if lat.Raises? then Raises(lat.error)
    else if |parts| < 2 then Raises(IndexError)
    else Both(lat, ParseHyb2Part(parts[1]))
  }

  // ================================================================ dispatch

  /** `parse_coord`: the first grammar that matches decides. */
  function ParseCoord(coord: string): (r: Outcome<real>)
    ensures r.NoMatch? <==> !(Hyb1Shape(coord, 3) || Hyb2Shape(coord, 3, 2) || DmsShape(coord) || DmmShape(coord) || DdShape(coord))
    ensures r.Raises? ==> r.error == IndexError || r.error == ValueError
  {
    if Hyb1Shape(coord, 3) then ParseHyb1Part(coord)
    else if Hyb2Shape(coord, 3, 2) then ParseHyb2Part(coord)
    else if DmsShape(coord) then ParseDmsPart(coord)
    else if DmmShape(coord) then ParseDmmPart(coord)
    else if DdShape(coord) then ParseDdPart(coord)
    else NoMatch
  }

  /** `parse_coords`: the first pair grammar that matches decides. */
  function ParseCoords(coords: string): (r: Outcome<(real, real)>)
    ensures r.NoMatch? <==> !(Hyb1Pair(coords) || Hyb2Pair(coords) || DmsPair(coords) || DmmPair(coords) || DdPair(coords))
    ensures DdPair(coords) && !(Hyb1Pair(coords) || Hyb2Pair(coords) || DmsPair(coords) || DmmPair(coords)) ==> r == Raises(NameError)
  {
    if Hyb1Pair(coords) then ParseHyb1(coords)
    else if Hyb2Pair(coords) then ParseHyb2(coords)
    else if DmsPair(coords) then ParseDms(coords)
    else if DmmPair(coords) then ParseDmm(coords)
    else if DdPair(coords) then ParseDd(coords)
    else NoMatch
  }

  // ================================================================ reference values

  /** The value a numeral `[\d]+(\.[\d]+)?` denotes: whole part plus
      fraction digits over the matching power of ten. */
  function DecimalValue(t: string): (v: real)
    requires DecimalNumeral(t)
    ensures v >= 0.0
  {
    var p := Split(t, ".");
    var whole := DigitsValue(p[0]) as real;
    if |p| == 2 then whole + Shift(DigitsValue(p[1]) as real, |p[1]|) else whole
  }

  /** Hybrid 1 `H D M S`: D + M/60 + S/3600, negated for S and W. */
  function Hyb1Value(s: string): real
    requires Hyb1Shape(s, 3)
  {
    var p := Split(s, " ");
    var x := DigitsValue(p[1]) as real + DigitsValue(p[2]) as real / 60.0 + DecimalValue(p[3]) / 3600.0;
    if p[0] == "S" || p[0] == "W" then -x else x
  }

  /** Hybrid 2 `H D M`: D + M/60, negated for S and W. */
  function Hyb2Value(s: string): real
    requires Hyb2Shape(s, 3, 3)
  {
    var p := Split(s, " ");
    var x := DigitsValue(p[1]) as real + DecimalValue(p[2]) / 60.0;
    if p[0] == "S" || p[0] == "W" then -x else x
  }

  /** DMM `D M`: D + M/60, with no hemisphere and so never negative. */
  function DmmValue(s: string): (v: real)
    requires DmmShape(s)
    ensures v >= 0.0
  {
    var p := Split(s, " ");
    DigitsValue(p[0]) as real + DecimalValue(p[1]) / 60.0
  }

  /** What the DMS converter yields for `D°M'S"H`.  With whole seconds it is
      D + M/60 + S/3600, negated for S and W.  With fractional seconds `W.F`
      the split on non-word runs also cuts at the point, so the fraction
      digits F take the place of the hemisphere: the result is
      D + M/60 + W/3600, never negated. */
  function DmsValue(s: string): real
    requires DmsShape(s)
  {
    var q := Split(s, [Degree]);
    var r := Split(q[1], "'");
    var u := Split(r[1], "\"");
    var sec := Split(u[0], ".");
    var dm := DigitsValue(q[0]) as real + DigitsValue(r[0]) as real / 60.0;
    if |sec| == 2 then dm + DigitsValue(sec[0]) as real / 3600.0
    else
      var x := dm + DecimalValue(u[0]) / 3600.0;
      if u[1] == "S" || u[1] == "W" then -x else x
  }

  // ================================================================ characters of each grammar

  lemma DecimalFree(t: string, c: char)
    requires DecimalNumeral(t) && !IsDigit(c) && c != '.'
    ensures Free(t, c)
  {
    var p := Split(t, ".");
    DigitsFree(p[0], c);
    if |p| == 2 { DigitsFree(p[1], c); }
    SplitFreeBack(t, ".", c);
  }

  lemma Hyb1Free(s: string, hi: nat, c: char)
    requires Hyb1Shape(s, hi)
    requires !IsDigit(c) && c != ' ' && c != '.' && c != 'N' && c != 'E' && c != 'S' && c != 'W'
    ensures Free(s, c)
  {
    var p := Split(s, " ");
    DigitsFree(p[1], c);
    DigitsFree(p[2], c);
    DecimalFree(p[3], c);
    SplitFreeBack(s, " ", c);
  }

  lemma Hyb2Free(s: string, dhi: nat, mhi: nat, c: char)
    requires Hyb2Shape(s, dhi, mhi)
    requires !IsDigit(c) && c != ' ' && c != '.' && c != 'N' && c != 'E' && c != 'S' && c != 'W'
    ensures Free(s, c)
  {
    var p := Split(s, " ");
    DigitsFree(p[1], c);
    DecimalFree(p[2], c);
    SplitFreeBack(s, " ", c);
  }

  lemma DmmFree(s: string, c: char)
    requires DmmShape(s) && !IsDigit(c) && c != ' ' && c != '.'
    ensures Free(s, c)
  {
    var p := Split(s, " ");
    DigitsFree(p[0], c);
    DecimalFree(p[1], c);
    SplitFreeBack(s, " ", c);
  }

  lemma DmsFree(s: string, c: char)
    requires DmsShape(s)
    requires !IsDigit(c) && c != Degree && c != '\'' && c != '"' && c != '.'
    requires c != 'N' && c != 'E' && c != 'S' && c != 'W'
    ensures Free(s, c)
  {
    var q := Split(s, [Degree]);
    var r := Split(q[1], "'");
    var u := Split(r[1], "\"");
    DigitsFree(q[0], c);
    DigitsFree(r[0], c);
    DecimalFree(u[0], c);
    SplitFreeBack(r[1], "\"", c);
    SplitFreeBack(q[1], "'", c);
    SplitFreeBack(s, [Degree], c);
  }

  // ================================================================ part parsers on their grammars

  /** `float()` reads a numeral as the value it denotes. */
  lemma FloatOfDecimal(t: string)
    requires DecimalNumeral(t)
    ensures FloatOf(t) == Some(DecimalValue(t))
  {
    var p := Split(t, ".");
    var x := DecimalValue(t);
    if |p| == 1 {
      assert FloatOf(t) == Some(x) by {
        JoinSplit(t, ".");
        assert t == p[0];
        FloatOfDigits(t);
      }
    } else {
      assert FloatOf(t) == Some(x) by {
        JoinSplit(t, ".");
        assert t == p[0] + "." + p[1];
        FloatOfPointed(p[0], p[1]);
      }
    }
  }

  lemma Hyb1PartValue(s: string)
    requires Hyb1Shape(s, 3)
    ensures ParseHyb1Part(s) == Parsed(Hyb1Value(s))
  {
    var p := Split(s, " ");
    FloatOfDigits(p[1]);
    FloatOfDigits(p[2]);
    FloatOfDecimal(p[3]);
  }

  lemma Hyb2PartValue(s: string)
    requires Hyb2Shape(s, 3, 3)
    ensures ParseHyb2Part(s) == Parsed(Hyb2Value(s))
  {
    var p := Split(s, " ");
    IntOfDigits(p[1]);
    FloatOfDecimal(p[2]);
  }

  lemma DmmPartValue(s: string)
    requires DmmShape(s)
    ensures ParseDmmPart(s) == Parsed(DmmValue(s))
  {
    var p := Split(s, " ");
    IntOfDigits(p[0]);
    FloatOfDecimal(p[1]);
  }

  /** A numeral starts with a digit. */
  lemma DecimalHead(t: string)
    requires DecimalNumeral(t)
    ensures |t| >= 1 && IsDigit(t[0])
  {
    if t != [] && t[0] != '.' {
      SplitHead(t, ".");
    }
  }

  lemma HemisphereWord(h: string)
    requires IsHemisphere(h)
    ensures ReSplitNonWord(h) == [h]
  {
    assert AllWord(h[1..]);
    ReSplitWord(h);
  }

  /** `re.split` on whole seconds and the hemisphere, `S"H`. */
  lemma ReSplitWholeSeconds(r1: string)
    requires |Split(r1, "\"")| == 2
    requires Decimal(Split(r1, "\"")[0], 2) && IsHemisphere(Split(r1, "\"")[1])
    requires |Split(Split(r1, "\"")[0], ".")| == 1
    ensures ReSplitNonWord(r1) == Split(r1, "\"")
  {
    var u := Split(r1, "\"");
    SplitOne(u[0], ".");
    DigitsWord(u[0]);
    ReSplitAt(r1, '"');
    HemisphereWord(u[1]);
  }

  /** `re.split` on fractional seconds and the hemisphere, `W.F"H`: the
      point is a non-word character too. */
  lemma ReSplitFracSeconds(a: string, b: string, h: string)
    requires |a| >= 1 && AllDigits(a) && |b| >= 1 && AllDigits(b) && IsHemisphere(h)
    ensures ReSplitNonWord(a + "." + b + "\"" + h) == [a, b, h]
  {
    var t := b + "\"" + h;
    assert ReSplitNonWord(t) == [b, h] by {
      DigitsWord(b);
      HemisphereWord(h);
      ReSplitStep(b, '"', h);
    }
    assert a + "." + b + "\"" + h == a + ['.'] + t;
    assert t[0] == b[0];
    DigitsWord(a);
    ReSplitStep(a, '.', t);
  }

  /** `re.split` on the seconds and hemisphere `S"H`: the numeral's pieces
      around its point, then the hemisphere. */
  lemma ReSplitSeconds(r1: string)
    requires |Split(r1, "\"")| == 2
    requires Decimal(Split(r1, "\"")[0], 2) && IsHemisphere(Split(r1, "\"")[1])
    ensures ReSplitNonWord(r1) == Split(Split(r1, "\"")[0], ".") + [Split(r1, "\"")[1]]
  {
    var u := Split(r1, "\"");
    var sec := Split(u[0], ".");
    if |sec| == 1 {
      ReSplitWholeSeconds(r1);
      SplitOne(u[0], ".");
      assert sec + [u[1]] == u;
    } else {
      assert r1 == sec[0] + "." + sec[1] + "\"" + u[1] by {
        SplitTwo(r1, "\"");
        SplitTwo(u[0], ".");
      }
      ReSplitFracSeconds(sec[0], sec[1], u[1]);
      assert sec + [u[1]] == [sec[0], sec[1], u[1]];
    }
  }

  /** `re.split` on `D°M'rest`: degrees, minutes, then the pieces of the rest. */
  lemma ReSplitDms(s: string)
    requires DmsShape(s)
    ensures var q := Split(s, [Degree]); var r := Split(q[1], "'");
      ReSplitNonWord(s) == [q[0], r[0]] + ReSplitNonWord(r[1])
  {
    var q := Split(s, [Degree]);
    var r := Split(q[1], "'");
    var u := Split(r[1], "\"");
    assert r[1] != [] && IsDigit(r[1][0]) by {
      DecimalHead(u[0]);
      SplitHead(r[1], "\"");
    }
    DigitsWord(r[0]);
    ReSplitAt(q[1], '\'');
    assert q[1] != [] && IsDigit(q[1][0]) by {
      SplitHead(q[1], "'");
    }
    DigitsWord(q[0]);
    ReSplitAt(s, Degree);
  }

  /** The pieces `re.split` makes of a DMS text. */
  lemma DmsParts(s: string)
    requires DmsShape(s)
    ensures var q := Split(s, [Degree]); var r := Split(q[1], "'"); var u := Split(r[1], "\"");
      ReSplitNonWord(s) == [q[0], r[0]] + Split(u[0], ".") + [u[1]]
  {
    var q := Split(s, [Degree]);
    var r := Split(q[1], "'");
    ReSplitDms(s);
    ReSplitSeconds(r[1]);
  }

  lemma Dms2ddRead(degrees: string, minutes: string, seconds: string, direction: string, d: real, m: real, sec: real)
    requires FloatOf(degrees) == Some(d) && FloatOf(minutes) == Some(m) && FloatOf(seconds) == Some(sec)
    ensures Dms2dd(degrees, minutes, seconds, direction) == Parsed(DmsArithmetic(d, m, sec, direction))
  {
  }

  /** DMS with whole seconds: degrees, minutes, seconds and hemisphere. */
  lemma DmsWholeValue(s: string)
    requires DmsShape(s)
    requires var q := Split(s, [Degree]); var r := Split(q[1], "'"); var u := Split(r[1], "\"");
      |Split(u[0], ".")| == 1
    ensures ParseDmsPart(s) == Parsed(DmsValue(s))
  {
    var q := Split(s, [Degree]);
    var r := Split(q[1], "'");
    var u := Split(r[1], "\"");
    assert ReSplitNonWord(s) == [q[0], r[0], u[0], u[1]] by {
      DmsParts(s);
      SplitOne(u[0], ".");
    }
    FloatOfDigits(q[0]);
    FloatOfDigits(r[0]);
    FloatOfDecimal(u[0]);
    Dms2ddRead(q[0], r[0], u[0], u[1], DigitsValue(q[0]) as real, DigitsValue(r[0]) as real, DecimalValue(u[0]));
  }

  /** DMS with fractional seconds `W.F`: the fraction digits F stand where
      the hemisphere should, so W is read as the seconds and F as the
      direction, which is never "S" or "W". */
  lemma DmsFracValue(s: string)
    requires DmsShape(s)
    requires var q := Split(s, [Degree]); var r := Split(q[1], "'"); var u := Split(r[1], "\"");
      |Split(u[0], ".")| == 2
    ensures ParseDmsPart(s) == Parsed(DmsValue(s))
  {
    var q := Split(s, [Degree]);
    var r := Split(q[1], "'");
    var u := Split(r[1], "\"");
    var sec := Split(u[0], ".");
    var parts := ReSplitNonWord(s);
    assert |parts| == 5 && parts[0] == q[0] && parts[1] == r[0] && parts[2] == sec[0] && parts[3] == sec[1] by {
      DmsParts(s);
    }
    FloatOfDigits(q[0]);
    FloatOfDigits(r[0]);
    FloatOfDigits(sec[0]);
    Dms2ddRead(q[0], r[0], sec[0], sec[1], DigitsValue(q[0]) as real, DigitsValue(r[0]) as real, DigitsValue(sec[0]) as real);
    assert sec[1] != "S" && sec[1] != "W" by { assert IsDigit(sec[1][0]); }
  }

  /** `parse_dms_part` on a DMS text yields the DMS value. */
  lemma DmsPartValue(s: string)
    requires DmsShape(s)
    ensures ParseDmsPart(s) == Parsed(DmsValue(s))
  {
    var q := Split(s, [Degree]);
    var r := Split(q[1], "'");
    var u := Split(r[1], "\"");
    if |Split(u[0], ".")| == 1 { DmsWholeValue(s); } else { DmsFracValue(s); }
  }

  // ================================================================ parse_coord

  lemma ParseCoordHyb1(s: string)
    requires Hyb1Shape(s, 3)
    ensures ParseCoord(s) == Parsed(Hyb1Value(s))
  {
    Hyb1PartValue(s);
  }

  lemma ParseCoordHyb2(s: string)
    requires Hyb2Shape(s, 3, 2)
    ensures ParseCoord(s) == Parsed(Hyb2Value(s))
  {
    Hyb2PartValue(s);
  }

  /** A DMS text has no space, so neither hybrid grammar matches it. */
  lemma ParseCoordDms(s: string)
    requires DmsShape(s)
    ensures ParseCoord(s) == Parsed(DmsValue(s))
  {
    DmsFree(s, ' ');
    SplitFree(s, " ");
    DmsPartValue(s);
  }

  /** A DMM text has two space-separated pieces and no degree sign. */
  lemma ParseCoordDmm(s: string)
    requires DmmShape(s)
    ensures ParseCoord(s) == Parsed(DmmValue(s))
  {
    DmmFree(s, Degree);
    SplitFree(s, [Degree]);
    DmmPartValue(s);
  }

  /** Text without spaces or degree signs matches none of the first four grammars. */
  lemma OnlyDd(s: string)
    requires Free(s, ' ') && Free(s, Degree)
    ensures !Hyb1Shape(s, 3) && !Hyb2Shape(s, 3, 2) && !DmsShape(s) && !DmmShape(s)
  {
    SplitFree(s, " ");
    SplitFree(s, [Degree]);
  }

  /** The unescaped `.` of the DD grammar lets a plain digit string of three
      digits or more through, and `float` reads it as an integer. */
  lemma ParseCoordDigits(t: string)
    requires |t| >= 3 && AllDigits(t)
    ensures ParseCoord(t) == Parsed(DigitsValue(t) as real)
  {
    DigitsTake(t, 1);
    DigitsDrop(t, 2);
    DigitsFree(t, ' ');
    DigitsFree(t, Degree);
    assert IsDigit(t[1]);
    assert DdAt(t, 1);
    OnlyDd(t);
    FloatOfDigits(t);
  }

  /** A decimal `a.b` with one or two whole digits is read by the DD branch. */
  lemma ParseCoordDdPointed(a: string, b: string)
    requires 1 <= |a| <= 2 && AllDigits(a) && |b| >= 1 && AllDigits(b)
    ensures ParseCoord(a + "." + b) == Parsed(DigitsValue(a) as real + Shift(DigitsValue(b) as real, |b|))
  {
    var s := a + "." + b;
    assert s[..|a|] == a && s[|a|] == '.' && s[|a| + 1..] == b;
    assert DdAt(s, |a|);
    DigitsFree(a, ' ');
    DigitsFree(b, ' ');
    DigitsFree(a, Degree);
    DigitsFree(b, Degree);
    FreeConcat(a, ".", ' ');
    FreeConcat(a + ".", b, ' ');
    FreeConcat(a, ".", Degree);
    FreeConcat(a + ".", b, Degree);
    OnlyDd(s);
    FloatOfPointed(a, b);
  }

  /** `a b` with one or two digits, a space and three digits or more: too
      long for DMM, accepted by the DD grammar's `.`, and then `float`
      raises instead of the parser returning None. */
  lemma ParseCoordSpaced(a: string, b: string)
    requires 1 <= |a| <= 2 && AllDigits(a) && |b| >= 3 && AllDigits(b)
    ensures ParseCoord(a + " " + b) == Raises(ValueError)
  {
    var s := a + " " + b;
    assert Split(s, " ") == [a, b] by {
      DigitsFree(a, ' ');
      DigitsFree(b, ' ');
      SplitPrefix(a, " ", b);
      SplitFree(b, " ");
    }
    assert !DmmShape(s) by {
      DigitsFree(b, '.');
      SplitFree(b, ".");
    }
    assert !DmsShape(s) by {
      DigitsFree(a, Degree);
      DigitsFree(b, Degree);
      FreeConcat(a, " ", Degree);
      FreeConcat(a + " ", b, Degree);
      SplitFree(s, [Degree]);
    }
    assert DdAt(s, |a|) by {
      assert s[..|a|] == a && s[|a|] == ' ' && s[|a| + 1..] == b;
    }
    FloatOfBroken(a, ' ', b);
  }

  /** `parse_coord` returns None exactly when no grammar matches; it raises
      only in the DD branch, and then only ValueError from `float`. */
  lemma ParseCoordOutcome(s: string)
    ensures ParseCoord(s).NoMatch? <==> !(Hyb1Shape(s, 3) || Hyb2Shape(s, 3, 2) || DmsShape(s) || DmmShape(s) || DdShape(s))
    ensures ParseCoord(s).Raises? ==> ParseCoord(s).error == ValueError && DdShape(s)
    ensures ParseCoord(s).Raises? ==> !(Hyb1Shape(s, 3) || Hyb2Shape(s, 3, 2) || DmsShape(s) || DmmShape(s))
  {
    if Hyb1Shape(s, 3) {
      ParseCoordHyb1(s);
    } else if Hyb2Shape(s, 3, 2) {
      ParseCoordHyb2(s);
    } else if DmsShape(s) {
      ParseCoordDms(s);
    } else if DmmShape(s) {
      ParseCoordDmm(s);
    }
  }

  // ================================================================ dd2dms

  /** Feeding `dd2dms` back through the `dms2dd` arithmetic gives the
      degrees back: with 'N' for a non-negative value, and with the whole
      degrees negated and 'S' for a negative one. */
  lemma Dd2dmsRoundTrip(deg: real)
    ensures deg >= 0.0 ==> DmsArithmetic(Dd2dms(deg).0 as real, Dd2dms(deg).1 as real, Dd2dms(deg).2, "N") == deg
    ensures deg < 0.0 ==> DmsArithmetic(-Dd2dms(deg).0 as real, Dd2dms(deg).1 as real, Dd2dms(deg).2, "S") == deg
  {
    var (d, m, sd) := Dd2dms(deg);
    var md := Abs(deg - d as real) * 60.0;
    assert sd == (md - m as real) * 60.0;
    assert m as real / 60.0 + sd / 3600.0 == md / 60.0;
  }

  // ================================================================ parse_coords

  lemma Hyb1PairParse(s: string)
    requires Hyb1Pair(s)
    ensures ParseCoords(s) == Parsed((Hyb1Value(Split(s, ", ")[0]), Hyb1Value(Split(s, ", ")[1])))
  {
    var p := Split(s, ", ");
    Hyb1PartValue(p[0]);
    Hyb1PartValue(p[1]);
  }

  lemma Hyb2PairParse(s: string)
    requires Hyb2Pair(s)
    ensures ParseCoords(s) == Parsed((Hyb2Value(Split(s, ", ")[0]), Hyb2Value(Split(s, ", ")[1])))
  {
    var p := Split(s, ", ");
    Hyb2PartValue(p[0]);
    Hyb2PartValue(p[1]);
  }

  /** A DMS pair has no comma. */
  lemma DmsPairFree(s: string)
    requires DmsPair(s)
    ensures Free(s, ',')
  {
    var p := Split(s, " ");
    DmsFree(p[0], ',');
    DmsFree(p[1], ',');
    SplitFreeBack(s, " ", ',');
  }

  /** Neither hybrid pair grammar matches text without a comma. */
  lemma NoHybridPair(s: string)
    requires Free(s, ',')
    ensures !Hyb1Pair(s) && !Hyb2Pair(s)
  {
    SplitFree(s, ", ");
  }

  lemma DmsPairParse(s: string)
    requires DmsPair(s)
    ensures ParseCoords(s) == Parsed((DmsValue(Split(s, " ")[0]), DmsValue(Split(s, " ")[1])))
  {
    var p := Split(s, " ");
    DmsPairFree(s);
    NoHybridPair(s);
    DmsPartValue(p[0]);
    DmsPartValue(p[1]);
  }

  /** A text cut in two at ", " has a comma, so it is no DMS pair. */
  lemma CommaNotDms(s: string)
    requires |Split(s, ", ")| == 2
    ensures !DmsPair(s)
  {
    SplitManyHasSep(s, ", ");
    if DmsPair(s) { DmsPairFree(s); }
  }

  lemma DmmPairParse(s: string)
    requires DmmPair(s)
    ensures ParseCoords(s) == Parsed((DmmValue(Split(s, ", ")[0]), DmmValue(Split(s, ", ")[1])))
  {
    var p := Split(s, ", ");
    CommaNotDms(s);
    DmmPartValue(p[0]);
    DmmPartValue(p[1]);
  }

  /** Two digit strings of three digits or more joined by ", " form a DD
      pair and nothing else, so `parse_coords` reaches `parse_dd` and
      raises NameError. */
  lemma DigitsPairRaises(a: string, b: string)
    requires |a| >= 3 && AllDigits(a) && |b| >= 3 && AllDigits(b)
    ensures ParseCoords(a + ", " + b) == Raises(NameError)
  {
    var s := a + ", " + b;
    assert Split(s, ", ") == [a, b] by {
      DigitsFree(a, ',');
      DigitsFree(b, ',');
      SplitPrefix(a, ", ", b);
      SplitFree(b, ", ");
    }
    assert DdShape(a) && DdShape(b) by {
      DigitsTake(a, 1);
      DigitsDrop(a, 2);
      DigitsTake(b, 1);
      DigitsDrop(b, 2);
      assert IsDigit(a[1]) && IsDigit(b[1]);
      assert DdAt(a, 1) && DdAt(b, 1);
    }
    assert !Hyb1Shape(a, 2) && !Hyb2Shape(a, 2, 2) && !DmmShape(a) by {
      DigitsFree(a, ' ');
      SplitFree(a, " ");
    }
    CommaNotDms(s);
  }

  /** `parse_coords` returns None exactly when no pair grammar matches, and
      raises exactly when only the DD pair grammar does, always NameError. */
  lemma ParseCoordsOutcome(s: string)
    ensures ParseCoords(s).NoMatch? <==> !(Hyb1Pair(s) || Hyb2Pair(s) || DmsPair(s) || DmmPair(s) || DdPair(s))
    ensures ParseCoords(s).Raises? <==> !(Hyb1Pair(s) || Hyb2Pair(s) || DmsPair(s) || DmmPair(s)) && DdPair(s)
    ensures ParseCoords(s).Raises? ==> ParseCoords(s).error == NameError
  {
    if Hyb1Pair(s) {
      Hyb1PairParse(s);
    } else if Hyb2Pair(s) {
      Hyb2PairParse(s);
    } else if DmsPair(s) {
      DmsPairParse(s);
    } else if DmmPair(s) {
      DmmPairParse(s);
    }
  }
}
