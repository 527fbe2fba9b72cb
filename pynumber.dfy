/** Python's `float(str)` and `int(str)` on text, read the way a lexer reads
    them: one character at a time through a small state machine.  White
    space around the literal, one leading sign, single underscores between
    digits, a decimal point and (for `float`) an exponent are accepted; any
    other text is a ValueError, written here as None.  Values are exact
    reals: rounding to the nearest double is not modelled. */
module PyNumber {
  import opened PyText

  /** x / 10^n, one division by ten at a time. */
  function Shift(x: real, n: nat): (r: real)
    ensures x >= 0.0 ==> r >= 0.0
  {
    if n == 0 then x else Shift(x, n - 1) / 10.0
  }

  /** x * 10^e for an integer exponent e. */
  function ScaleBy(x: real, e: int): real
    decreases if e >= 0 then e else -e
  {
    if e == 0 then x else if e > 0 then ScaleBy(x, e - 1) * 10.0 else ScaleBy(x, e + 1) / 10.0
  }

  function WithSign(neg: bool, x: real): real {
    if neg then -x else x
  }

  /** `float` accepts a point and an exponent; `int` accepts neither. */
  datatype Mode = Float | Int

  /** Where the reader stands after a prefix of the text.  `under` says that
      the last character read was an underscore, which must be followed by
      a digit.  `w` is the integer part, `f` the digits read after the
      point taken as an integer and `n` how many there are. */
  datatype State =
    | Lead
    | Sign(neg: bool)
    | Whole(neg: bool, w: nat, under: bool)
    | Point(neg: bool)
    | Frac(neg: bool, w: nat, f: nat, n: nat, under: bool)
    | Exp(neg: bool, x: real)
    | ExpSign(neg: bool, x: real, eneg: bool)
    | ExpDigits(neg: bool, x: real, eneg: bool, e: nat, under: bool)
    | Trail(last: State)
    | Fail

  /** Reading one more character. */
  function Step(mode: Mode, s: State, c: char): State
  {
    match s
    case Lead =>
      if IsSpace(c) then Lead
      else if c == '+' || c == '-' then Sign(c == '-')
      else if IsDigit(c) then Whole(false, DigitOf(c), false)
      else if c == '.' && mode == Float then Point(false)
      else Fail
    case Sign(neg) =>
      if IsDigit(c) then Whole(neg, DigitOf(c), false)
      else if c == '.' && mode == Float then Point(neg)
      else Fail
    case Whole(neg, w, under) =>
      if IsDigit(c) then Whole(neg, 10 * w + DigitOf(c), false)
      else if under then Fail
      else if c == '_' then Whole(neg, w, true)
      else if c == '.' && mode == Float then Frac(neg, w, 0, 0, false)
      else if (c == 'e' || c == 'E') && mode == Float then Exp(neg, w as real)
      else if IsSpace(c) then Trail(s)
      else Fail
    case Point(neg) =>
      if IsDigit(c) then Frac(neg, 0, DigitOf(c), 1, false) else Fail
    case Frac(neg, w, f, n, under) =>
      if IsDigit(c) then Frac(neg, w, 10 * f + DigitOf(c), n + 1, false)
      else if under then Fail
      else if c == '_' && n > 0 then Frac(neg, w, f, n, true)
      else if c == 'e' || c == 'E' then Exp(neg, w as real + Shift(f as real, n))
      else if IsSpace(c) then Trail(s)
      else Fail
    case Exp(neg, x) =>
      if c == '+' || c == '-' then ExpSign(neg, x, c == '-')
      else if IsDigit(c) then ExpDigits(neg, x, false, DigitOf(c), false)
      else Fail
    case ExpSign(neg, x, eneg) =>
      if IsDigit(c) then ExpDigits(neg, x, eneg, DigitOf(c), false) else Fail
    case ExpDigits(neg, x, eneg, e, under) =>
      if IsDigit(c) then ExpDigits(neg, x, eneg, 10 * e + DigitOf(c), false)
      else if under then Fail
      else if c == '_' then ExpDigits(neg, x, eneg, e, true)
      else if IsSpace(c) then Trail(s)
      else Fail
    case Trail(_) => if IsSpace(c) then s else Fail
    case Fail => Fail
  }

  /** Reading a whole text. */
  function Run(mode: Mode, s: State, t: string): State
    decreases |t|
  {
    if t == [] then s else Run(mode, Step(mode, s, t[0]), t[1..])
  }

  /** The number a `float` reading ends on, if it ends on a complete literal. */
  function FloatValue(s: State): Option<real>
  {
    match s
    case Whole(neg, w, under) => if under then None else Some(WithSign(neg, w as real))
    case Frac(neg, w, f, n, under) => if under then None else Some(WithSign(neg, w as real + Shift(f as real, n)))
    case ExpDigits(neg, x, eneg, e, under) =>
      if under then None else Some(WithSign(neg, ScaleBy(x, if eneg then -(e as int) else e)))
    case Trail(last) => FloatValue(last)
    case _ => None
  }

  /** The number an `int` reading ends on. */
  function IntValue(s: State): Option<int>
  {
    match s
    case Whole(neg, w, under) => if under then None else Some(if neg then -(w as int) else w)
    case Trail(last) => IntValue(last)
    case _ => None
  }

  /** `float(t)`; None where Python raises ValueError. */
  function FloatOf(t: string): Option<real>
  {
    FloatValue(Run(Float, Lead, t))
  }

  /** `int(t)` in base 10; None where Python raises ValueError. */
  function IntOf(t: string): Option<int>
  {
    IntValue(Run(Int, Lead, t))
  }

  // ---------------------------------------------------------------- reading lemmas

  lemma {:induction false} RunAppend(mode: Mode, s: State, a: string, b: string)
    ensures Run(mode, s, a + b) == Run(mode, Run(mode, s, a), b)
    decreases |a|
  {
    if a == [] {
      assert a + b == b;
    } else {
      assert (a + b)[0] == a[0] && (a + b)[1..] == a[1..] + b;
      RunAppend(mode, Step(mode, s, a[0]), a[1..], b);
    }
  }

  /** A failed reading stays failed. */
  lemma {:induction false} RunFail(mode: Mode, t: string)
    ensures Run(mode, Fail, t) == Fail
    decreases |t|
  {
    if t != [] { RunFail(mode, t[1..]); }
  }

  lemma DigitsValueSnoc(a: string, c: char)
    ensures DigitsValue(a + [c]) == 10 * DigitsValue(a) + DigitOf(c)
  {
    assert (a + [c])[..|a|] == a;
  }

  lemma DigitsTail(b: string)
    requires |b| >= 1 && AllDigits(b)
    ensures IsDigit(b[0]) && AllDigits(b[1..])
  {
  }

  /** Digits after the digits `a` of the integer part extend it. */
  lemma {:induction false} RunWholeDigits(mode: Mode, neg: bool, a: string, under: bool, b: string)
    requires |b| >= 1 && AllDigits(b)
    ensures Run(mode, Whole(neg, DigitsValue(a), under), b) == Whole(neg, DigitsValue(a + b), false)
    decreases |b|
  {
    var next := Whole(neg, DigitsValue(a + [b[0]]), false);
    assert Step(mode, Whole(neg, DigitsValue(a), under), b[0]) == next by {
      DigitsTail(b);
      DigitsValueSnoc(a, b[0]);
    }
    if |b| == 1 {
      assert a + b == a + [b[0]];
    } else {
      DigitsTail(b);
      RunWholeDigits(mode, neg, a + [b[0]], false, b[1..]);
      assert a + [b[0]] + b[1..] == a + b;
    }
  }

  /** Digits after the fraction digits `a` extend the fraction. */
  lemma {:induction false} RunFracDigits(neg: bool, w: nat, a: string, under: bool, b: string)
    requires |b| >= 1 && AllDigits(b)
    ensures Run(Float, Frac(neg, w, DigitsValue(a), |a|, under), b) == Frac(neg, w, DigitsValue(a + b), |a + b|, false)
    decreases |b|
  {
    var next := Frac(neg, w, DigitsValue(a + [b[0]]), |a + [b[0]]|, false);
    assert Step(Float, Frac(neg, w, DigitsValue(a), |a|, under), b[0]) == next by {
      DigitsTail(b);
      DigitsValueSnoc(a, b[0]);
    }
    if |b| == 1 {
      assert a + b == a + [b[0]];
    } else {
      DigitsTail(b);
      RunFracDigits(neg, w, a + [b[0]], false, b[1..]);
      assert a + [b[0]] + b[1..] == a + b;
    }
  }

  /** A digit string read from the start is an unsigned integer part. */
  lemma RunDigits(mode: Mode, t: string)
    requires |t| >= 1 && AllDigits(t)
    ensures Run(mode, Lead, t) == Whole(false, DigitsValue(t), false)
  {
    assert DigitsValue([t[0]]) == DigitOf(t[0]);
    if |t| > 1 {
      RunWholeDigits(mode, false, [t[0]], false, t[1..]);
      assert [t[0]] + t[1..] == t;
    }
  }

  // ---------------------------------------------------------------- float() and int() on digits

  /** `float` of a digit string is its value. */
  lemma FloatOfDigits(t: string)
    requires |t| >= 1 && AllDigits(t)
    ensures FloatOf(t) == Some(DigitsValue(t) as real)
  {
    RunDigits(Float, t);
  }

  /** `int` of a digit string is its value. */
  lemma IntOfDigits(t: string)
    requires |t| >= 1 && AllDigits(t)
    ensures IntOf(t) == Some(DigitsValue(t))
  {
    RunDigits(Int, t);
  }

  /** Digits and a point read from the start: an integer part with an
      empty fraction. */
  lemma RunDigitsPoint(a: string)
    requires |a| >= 1 && AllDigits(a)
    ensures Run(Float, Lead, a + ".") == Frac(false, DigitsValue(a), 0, 0, false)
  {
    RunAppend(Float, Lead, a, ".");
    RunDigits(Float, a);
  }

  /** Fraction digits read after the point. */
  lemma RunFraction(w: nat, b: string)
    requires |b| >= 1 && AllDigits(b)
    ensures Run(Float, Frac(false, w, 0, 0, false), b) == Frac(false, w, DigitsValue(b), |b|, false)
  {
    var none: string := [];
    RunFracDigits(false, w, none, false, b);
    assert none + b == b;
  }

  /** `float` of `a.b` with digit strings `a` and `b` is a + b / 10^|b|. */
  lemma FloatOfPointed(a: string, b: string)
    requires |a| >= 1 && AllDigits(a) && |b| >= 1 && AllDigits(b)
    ensures FloatOf(a + "." + b) == Some(DigitsValue(a) as real + Shift(DigitsValue(b) as real, |b|))
  {
    RunAppend(Float, Lead, a + ".", b);
    RunDigitsPoint(a);
    RunFraction(DigitsValue(a), b);
  }

  /** `float` fails on a digit string broken by a character that is not a
      digit, a point, an underscore or an exponent mark: a space ends the
      literal and the digits after it are not white space. */
  lemma FloatOfBroken(a: string, c: char, b: string)
    requires |a| >= 1 && AllDigits(a) && |b| >= 1 && AllDigits(b)
    requires !IsDigit(c) && c != '.' && c != '_' && c != 'e' && c != 'E'
    ensures FloatOf(a + [c] + b) == None
  {
    var w := DigitsValue(a);
    RunAppend(Float, Lead, a + [c], b);
    RunAppend(Float, Lead, a, [c]);
    RunDigits(Float, a);
    var s := Step(Float, Whole(false, w, false), c);
    assert Run(Float, Whole(false, w, false), [c]) == s;
    assert s == Fail || s == Trail(Whole(false, w, false));
    assert Run(Float, s, b) == Fail by {
      assert Step(Float, s, b[0]) == Fail by { assert !IsSpace(b[0]); }
      RunFail(Float, b[1..]);
    }
  }
}
