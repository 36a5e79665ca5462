/** Typed literals, the lossless-or-skip cast, and SQL equality between a column value and a literal. */
module Literals {
  import opened Base
  import opened Numerals

  datatype DataType = Int(bits: nat, signed: bool) | Decimal(precision: nat, scale: nat) | Utf8 | Float

  datatype Scalar =
    | IntV(bits: nat, signed: bool, n: int)
    | DecV(precision: nat, scale: nat, unscaled: int)
    | StrV(s: string)
    | FloatV(repr: int)
    | NullV(t: DataType)

  function TypeOf(v: Scalar): DataType {
    match v
    case IntV(b, sg, _) => Int(b, sg)
    case DecV(p, sc, _) => Decimal(p, sc)
    case StrV(_) => Utf8
    case FloatV(_) => Float
    case NullV(t) => t
  }

  function Pow2(k: nat): nat { if k == 0 then 1 else 2 * Pow2(k - 1) }

  predicate IntFits(bits: nat, signed: bool, n: int) {
    if signed then bits > 0 && -(Pow2(bits - 1) as int) <= n < Pow2(bits - 1) else 0 <= n < Pow2(bits)
  }

  predicate DecFits(precision: nat, u: int) { -Scale(1, precision) < u < Scale(1, precision) }

  function CheckedInt(bits: nat, signed: bool, n: int): Option<Scalar> {
    if IntFits(bits, signed, n) then Some(IntV(bits, signed, n)) else None
  }

  function CheckedDec(precision: nat, scale: nat, u: int): Option<Scalar> {
    if DecFits(precision, u) then Some(DecV(precision, scale, u)) else None
  }

  function Magnitude(u: int): nat { if u < 0 then -u else u }

  /** Drop `k` fraction digits, truncating toward zero. */
  function Truncate(u: int, k: nat): int { Signed(u < 0, Chop(Magnitude(u), k)) }

  /** Drop `k` fraction digits, rounding half away from zero. */
  function Round(u: int, k: nat): int {
    Signed(u < 0, Chop(Magnitude(u), k) + (if k > 0 && Chop(Magnitude(u), k - 1) % 10 >= 5 then 1 else 0))
  }

  function Rescale(u: int, from: nat, to: nat): int {
    if to >= from then Scale(u, to - from) else Round(u, from - to)
  }

  function Show(v: Scalar): string {
    match v
    case IntV(_, _, n) => ShowInt(n)
    case DecV(_, sc, u) => ShowDec(u, sc)
    case StrV(s) => s
    case _ => ""
  }

  /** The strict cast; `None` when the value does not convert or does not fit. */
  function Cast(v: Scalar, t: DataType): Option<Scalar> {
    match (v, t)
    case (IntV(_, _, n), Int(b, sg)) => CheckedInt(b, sg, n)
    case (IntV(_, _, n), Decimal(p, sc)) => CheckedDec(p, sc, Scale(n, sc))
    case (DecV(_, sc, u), Int(b, sg)) => CheckedInt(b, sg, Truncate(u, sc))
    case (DecV(_, from, u), Decimal(p, to)) => CheckedDec(p, to, Rescale(u, from, to))
    case (IntV(_, _, _), Utf8) => Some(StrV(Show(v)))
    case (DecV(_, _, _), Utf8) => Some(StrV(Show(v)))
    case (StrV(s), Int(b, sg)) => (match ParseInt(s) case None => None case Some(n) => CheckedInt(b, sg, n))
    case (StrV(s), Decimal(p, sc)) => (match ParseDec(s, sc) case None => None case Some(u) => CheckedDec(p, sc, u))
    case (StrV(s), Utf8) => Some(v)
    case _ => None
  }

  /** `lossless_cast`: the declared-type form of a literal, or `None` on any doubt. */
  function LosslessCast(v: Scalar, declared: DataType): Option<Scalar> {
    if v.NullV? || TypeOf(v).Float? then None
    else if TypeOf(v) == declared then Some(v)
    else match Cast(v, declared)
      case None => None
      case Some(casted) =>
        match Cast(casted, TypeOf(v))
        case None => None
        case Some(back) => if back == v then Some(casted) else None
  }

  /** How an engine compares text with a number: both as text, or both as numbers. */
  datatype Coercion = AsText | AsNumber

  predicate IsNumber(v: Scalar) { v.IntV? || v.DecV? }

  function Unscaled(v: Scalar): int requires IsNumber(v) { if v.IntV? then v.n else v.unscaled }

  function ScaleOf(v: Scalar): nat requires IsNumber(v) { if v.IntV? then 0 else v.scale }

  predicate TextEqualsNumber(co: Coercion, s: string, v: Scalar)
    requires IsNumber(v)
  {
    match co
    case AsText => s == Show(v)
    case AsNumber => Cast(StrV(s), TypeOf(v)) == Some(v)
  }

  /** SQL `=` between two non-null, non-float values. */
  predicate SqlEq(co: Coercion, a: Scalar, b: Scalar) {
    if IsNumber(a) && IsNumber(b) then Scale(Unscaled(a), ScaleOf(b)) == Scale(Unscaled(b), ScaleOf(a))
    else if a.StrV? && b.StrV? then a == b
    else if a.StrV? && IsNumber(b) then TextEqualsNumber(co, a.s, b)
    else if IsNumber(a) && b.StrV? then TextEqualsNumber(co, b.s, a)
    else false
  }

  ghost predicate WellTyped(v: Scalar) {
    match v
    case IntV(b, sg, n) => IntFits(b, sg, n)
    case DecV(p, _, u) => DecFits(p, u)
    case _ => true
  }

  lemma ShowInjective(a: Scalar, b: Scalar)
    requires IsNumber(a) && IsNumber(b) && TypeOf(a) == TypeOf(b)
    ensures Show(a) == Show(b) <==> a == b
  {
    if a.IntV? { ShowIntInjective(a.n, b.n); } else { ShowDecInjective(a.unscaled, b.unscaled, a.scale); }
  }

  /** A number that survives the round trip through another numeric type denotes the same number there. */
  lemma RoundTripKeepsNumber(v: Scalar, c: Scalar)
    requires IsNumber(v) && IsNumber(c)
    requires Cast(v, TypeOf(c)) == Some(c) && Cast(c, TypeOf(v)) == Some(v)
    ensures Scale(Unscaled(v), ScaleOf(c)) == Scale(Unscaled(c), ScaleOf(v))
  {
    if v.DecV? && c.DecV? {
      if c.scale >= v.scale {
        ScaleScale(v.unscaled, c.scale - v.scale, v.scale);
      } else {
        ScaleScale(c.unscaled, v.scale - c.scale, c.scale);
      }
    }
  }

  lemma NumberEqualsOnlyItself(co: Coercion, v: Scalar, c: Scalar, l: Scalar)
    requires IsNumber(v) && IsNumber(c) && IsNumber(l) && TypeOf(v) == TypeOf(c)
    requires SqlEq(co, c, l)
    ensures SqlEq(co, v, l) <==> v == c
  {
    ScaleInjective(Unscaled(v), Unscaled(c), ScaleOf(l));
  }

  /** The engine compares a text column with a number by parsing the column. */
  predicate ParsesColumn(co: Coercion, literal: Scalar, declared: DataType) {
    co.AsNumber? && declared.Utf8? && IsNumber(literal)
  }

  /** `c` is the literal itself, or a form it reaches and comes back from. */
  predicate RoundTrips(l: Scalar, c: Scalar) {
    l == c || (Cast(l, TypeOf(c)) == Some(c) && Cast(c, TypeOf(l)) == Some(l))
  }

  lemma AcceptedRoundTrips(l: Scalar, declared: DataType)
    requires LosslessCast(l, declared).Some?
    ensures var c := LosslessCast(l, declared).value;
            RoundTrips(l, c) && TypeOf(c) == declared && !c.NullV? && !l.NullV? && !l.FloatV?
  {
    if TypeOf(l) != declared { CastTyped(l, declared); }
  }

  lemma CastTyped(v: Scalar, t: DataType)
    requires Cast(v, t).Some?
    ensures TypeOf(Cast(v, t).value) == t && !Cast(v, t).value.NullV?
  {
  }

  lemma UniqueNumber(co: Coercion, l: Scalar, c: Scalar, v: Scalar)
    requires IsNumber(l) && IsNumber(c) && TypeOf(v) == TypeOf(c) && !v.NullV? && RoundTrips(l, c)
    ensures SqlEq(co, v, l) <==> v == c
  {
    if l != c { RoundTripKeepsNumber(l, c); }
    NumberEqualsOnlyItself(co, v, c, l);
  }

  lemma UniqueFromText(co: Coercion, l: Scalar, c: Scalar, v: Scalar)
    requires l.StrV? && IsNumber(c) && TypeOf(v) == TypeOf(c) && !v.NullV? && RoundTrips(l, c)
    ensures SqlEq(co, v, l) <==> v == c
  {
    assert IsNumber(v) && l == StrV(Show(c)) && Cast(l, TypeOf(v)) == Some(c);
    if co.AsText? { ShowInjective(v, c); }
    assert SqlEq(co, v, l) <==> TextEqualsNumber(co, l.s, v);
  }

  lemma UniqueText(co: Coercion, l: Scalar, c: Scalar, v: Scalar)
    requires c.StrV? && v.StrV? && !l.NullV? && !l.FloatV? && RoundTrips(l, c) && !ParsesColumn(co, l, Utf8)
    ensures SqlEq(co, v, l) <==> v == c
  {
    assert c == if l.StrV? then l else StrV(Show(l));
  }

  /** Whenever the cast is accepted, its result is the one value of the column's type that SQL
      equates with the literal, unless the engine compares by parsing a text column. */
  lemma LosslessCastIsUnique(co: Coercion, l: Scalar, declared: DataType, v: Scalar)
    requires LosslessCast(l, declared).Some? && TypeOf(v) == declared && !v.NullV? && !declared.Float?
    requires !ParsesColumn(co, l, declared)
    ensures SqlEq(co, v, l) <==> v == LosslessCast(l, declared).value
  {
    var c := LosslessCast(l, declared).value;
    AcceptedRoundTrips(l, declared);
    if declared.Utf8? {
      UniqueText(co, l, c, v);
    } else if l.StrV? {
      UniqueFromText(co, l, c, v);
    } else {
      UniqueNumber(co, l, c, v);
    }
  }

  /** Text that parses to the number equals it when the engine compares as numbers. */
  lemma TextEqualsInt(s: string, l: Scalar)
    requires l.IntV? && WellTyped(l) && ParseInt(s) == Some(l.n)
    ensures SqlEq(AsNumber, StrV(s), l)
  {
  }

  lemma TextEqualsDec(s: string, l: Scalar)
    requires l.DecV? && WellTyped(l) && ParseDec(s, l.scale) == Some(l.unscaled)
    ensures SqlEq(AsNumber, StrV(s), l)
  {
  }

  /** Two spellings of one integer both equal it. */
  lemma IntSpelledTwice(l: Scalar)
    requires l.IntV? && WellTyped(l)
    ensures SqlEq(AsNumber, StrV(Respell(l.n, 0)), l) && SqlEq(AsNumber, StrV(Show(l)), l) && Respell(l.n, 0) != Show(l)
  {
    RespellParses(l.n, 0);
    RespellIntParses(l.n);
    ParseShowInt(l.n);
    ShowIntIsShowDec(l.n);
    TextEqualsInt(Respell(l.n, 0), l);
    TextEqualsInt(Show(l), l);
  }

  lemma DecSpelledTwice(l: Scalar)
    requires l.DecV? && WellTyped(l)
    ensures SqlEq(AsNumber, StrV(Respell(l.unscaled, l.scale)), l) && SqlEq(AsNumber, StrV(Show(l)), l) && Respell(l.unscaled, l.scale) != Show(l)
  {
    RespellParses(l.unscaled, l.scale);
    ParseShowDec(l.unscaled, l.scale);
    TextEqualsDec(Respell(l.unscaled, l.scale), l);
    TextEqualsDec(Show(l), l);
  }

  /** Another way to spell a number. */
  function OtherSpelling(l: Scalar): Scalar
    requires IsNumber(l)
  {
    StrV(Respell(Unscaled(l), ScaleOf(l)))
  }

  /** An accepted number lies within its own type. */
  lemma AcceptedIsWellTyped(l: Scalar)
    requires IsNumber(l) && LosslessCast(l, Utf8).Some?
    ensures WellTyped(l)
  {
  }

  /** In that one case every accepted literal also equals another spelling of itself, so the cast
      names only one of the stored identities SQL would match. */
  lemma ParsedColumnIsAmbiguous(co: Coercion, l: Scalar)
    requires ParsesColumn(co, l, Utf8) && LosslessCast(l, Utf8).Some?
    ensures SqlEq(co, LosslessCast(l, Utf8).value, l)
    ensures OtherSpelling(l) != LosslessCast(l, Utf8).value && SqlEq(co, OtherSpelling(l), l)
  {
    AcceptedIsWellTyped(l);
    AcceptedRoundTrips(l, Utf8);
    assert LosslessCast(l, Utf8).value == StrV(Show(l));
    if l.IntV? { IntSpelledTwice(l); } else { DecSpelledTwice(l); }
  }

  // ---------------------------------------------------------------- what is accepted

  /** The two write down the same thing: equal numbers, or text spelling the other side. */
  ghost predicate Denotes(a: Scalar, b: Scalar) {
    if IsNumber(a) && IsNumber(b) then Scale(Unscaled(a), ScaleOf(b)) == Scale(Unscaled(b), ScaleOf(a))
    else !a.NullV? && !a.FloatV? && !b.NullV? && !b.FloatV? && Show(a) == Show(b)
  }

  /** Rounding or truncating away digits that are all zero. */
  lemma RoundScaled(u: int, k: nat)
    ensures Round(Scale(u, k), k) == u == Truncate(Scale(u, k), k)
  {
    var m := Magnitude(u);
    if u < 0 { ScaleNegates(u, k); }
    assert Magnitude(Scale(u, k)) == Scale(m, k);
    ChopScale(m, k);
    if k > 0 {
      ScaleScale(m, 1, k - 1);
      ChopScale(Scale(m, 1), k - 1);
    }
  }

  lemma EqualDecimalsCast(v: Scalar, c: Scalar)
    requires v.DecV? && c.DecV? && WellTyped(c) && Denotes(v, c)
    ensures Cast(v, TypeOf(c)) == Some(c)
  {
    if c.scale >= v.scale {
      var d := c.scale - v.scale;
      ScaleScale(v.unscaled, d, v.scale);
      ScaleInjective(Scale(v.unscaled, d), c.unscaled, v.scale);
    } else {
      var d := v.scale - c.scale;
      ScaleScale(c.unscaled, d, c.scale);
      ScaleInjective(Scale(c.unscaled, d), v.unscaled, c.scale);
      RoundScaled(c.unscaled, d);
    }
  }

  lemma EqualNumbersCast(v: Scalar, c: Scalar)
    requires IsNumber(v) && IsNumber(c) && WellTyped(c) && Denotes(v, c)
    ensures Cast(v, TypeOf(c)) == Some(c)
  {
    if v.DecV? && c.DecV? {
      EqualDecimalsCast(v, c);
    } else if v.DecV? {
      RoundScaled(c.n, v.scale);
    }
  }

  lemma SpelledCasts(v: Scalar, c: Scalar)
    requires (v.StrV? || c.StrV?) && WellTyped(c) && Denotes(v, c)
    ensures Cast(v, TypeOf(c)) == Some(c)
  {
    if c.IntV? { ParseShowInt(c.n); }
    if c.DecV? { ParseShowDec(c.unscaled, c.scale); }
  }

  /** A cast that comes back denotes what it started from. */
  lemma ThereAndBack(v: Scalar, c: Scalar)
    requires Cast(v, TypeOf(c)) == Some(c) && Cast(c, TypeOf(v)) == Some(v)
    ensures WellTyped(v) && WellTyped(c) && Denotes(v, c)
  {
    if IsNumber(v) && IsNumber(c) { RoundTripKeepsNumber(v, c); }
  }

  /** The cast accepts a literal exactly when some value of the declared type denotes it, and yields that value. */
  lemma LosslessCastExact(v: Scalar, declared: DataType, c: Scalar)
    ensures LosslessCast(v, declared) == Some(c)
            <==> TypeOf(c) == declared && !v.NullV? && !v.FloatV? && (c == v || (TypeOf(v) != declared && WellTyped(v) && WellTyped(c) && Denotes(v, c)))
  {
    if LosslessCast(v, declared) == Some(c) {
      AcceptedRoundTrips(v, declared);
      if c != v { ThereAndBack(v, c); }
    }
    if TypeOf(v) != declared && WellTyped(v) && WellTyped(c) && Denotes(v, c) && TypeOf(c) == declared {
      if IsNumber(v) && IsNumber(c) {
        EqualNumbersCast(v, c);
        EqualNumbersCast(c, v);
      } else {
        SpelledCasts(v, c);
        SpelledCasts(c, v);
      }
    }
  }

  lemma {:induction false} Pow2Sum(a: nat, b: nat)
    ensures Pow2(a + b) == Pow2(a) * Pow2(b)
  {
    if a > 0 { Pow2Sum(a - 1, b); }
  }

  lemma RangeOf(bits: nat, half: int, n: int)
    requires bits > 0 && Pow2(bits - 1) == half
    ensures IntFits(bits, true, n) <==> -half <= n < half
    ensures IntFits(bits, false, n) <==> 0 <= n < 2 * half
  {
  }

  lemma Halves()
    ensures Pow2(7) == 0x80 && Pow2(15) == 0x8000 && Pow2(31) == 0x8000_0000 && Pow2(63) == 0x8000_0000_0000_0000
  {
    Pow2Sum(7, 8);
    Pow2Sum(15, 16);
    Pow2Sum(8, 8);
    Pow2Sum(31, 32);
    Pow2Sum(16, 16);
  }

  /** The integer types the engine has, 8 to 64 bits wide. */
  lemma IntRanges(n: int)
    ensures IntFits(8, true, n) <==> -0x80 <= n < 0x80
    ensures IntFits(16, true, n) <==> -0x8000 <= n < 0x8000
    ensures IntFits(32, true, n) <==> -0x8000_0000 <= n < 0x8000_0000
    ensures IntFits(64, true, n) <==> -0x8000_0000_0000_0000 <= n < 0x8000_0000_0000_0000
    ensures IntFits(8, false, n) <==> 0 <= n < 0x100
    ensures IntFits(16, false, n) <==> 0 <= n < 0x1_0000
    ensures IntFits(32, false, n) <==> 0 <= n < 0x1_0000_0000
    ensures IntFits(64, false, n) <==> 0 <= n < 0x1_0000_0000_0000_0000
  {
    Halves();
    RangeOf(8, 0x80, n);
    RangeOf(16, 0x8000, n);
    RangeOf(32, 0x8000_0000, n);
    RangeOf(64, 0x8000_0000_0000_0000, n);
  }

  lemma {:induction false} DigitCount(n: nat, p: nat)
    requires p > 0
    ensures |ShowNat(n)| <= p <==> n < Scale(1, p)
  {
    if n >= 10 && p > 1 {
      DigitCount(n / 10, p - 1);
    } else {
      TenAtLeast(p);
    }
  }

  lemma {:induction false} TenAtLeast(p: nat)
    requires p > 0
    ensures Scale(1, p) >= 10
  {
    if p > 1 { TenAtLeast(p - 1); }
  }

  /** A decimal fits its precision exactly when it has no more digits. */
  lemma DecRange(precision: nat, u: int)
    requires precision > 0
    ensures DecFits(precision, u) <==> |ShowNat(Magnitude(u))| <= precision
  {
    DigitCount(Magnitude(u), precision);
  }

  // ---------------------------------------------------------------- rounding

  lemma {:induction false} ScaleGrows(a: int, b: int, k: nat)
    ensures a <= b <==> Scale(a, k) <= Scale(b, k)
  {
    if k > 0 { ScaleGrows(a, b, k - 1); }
  }

  lemma {:induction false} ScaleTwice(n: int, k: nat)
    ensures Scale(2 * n, k) == 2 * Scale(n, k) && Scale(10 * n, k) == Scale(n, k + 1)
  {
    if k > 0 { ScaleTwice(n, k - 1); }
  }

  lemma {:induction false} ChopBounds(m: nat, k: nat)
    ensures Scale(Chop(m, k), k) <= m < Scale(Chop(m, k) + 1, k)
  {
    if k > 0 { ChopBounds(m / 10, k - 1); }
  }

  lemma {:induction false} ChopOneMore(m: nat, k: nat)
    requires k > 0
    ensures Chop(m, k) == Chop(m, k - 1) / 10
  {
    if k > 1 { ChopOneMore(m / 10, k - 1); }
  }

  /** Truncation drops the last `k` digits: the largest multiple in size not above the number. */
  lemma TruncateMeaning(u: int, k: nat)
    ensures var q := Truncate(u, k);
            && Scale(Magnitude(q), k) <= Magnitude(u) < Scale(Magnitude(q) + 1, k) && (u >= 0 ==> q >= 0) && (u <= 0 ==> q <= 0)
  {
    ChopBounds(Magnitude(u), k);
  }

  lemma NearestMultiple(m: nat, d: nat, q: nat, k: nat)
    requires Scale(d, k) <= m < Scale(d + 1, k) && q == d / 10 + (if d % 10 >= 5 then 1 else 0)
    ensures Scale(2 * q - 1, k + 1) <= 2 * m < Scale(2 * q + 1, k + 1)
  {
    ScaleTwice(d, k);
    ScaleTwice(d + 1, k);
    ScaleTwice(2 * q - 1, k);
    ScaleTwice(2 * q + 1, k);
    ScaleGrows(10 * (2 * q - 1), 2 * d, k);
    ScaleGrows(2 * (d + 1), 10 * (2 * q + 1), k);
  }

  /** Rounding takes the nearest multiple, a tie away from zero. */
  lemma RoundMeaning(u: int, k: nat)
    ensures var q := Round(u, k);
            && Scale(2 * Magnitude(q) - 1, k) <= 2 * Magnitude(u) < Scale(2 * Magnitude(q) + 1, k) && (u >= 0 ==> q >= 0) && (u <= 0 ==> q <= 0)
  {
    var m := Magnitude(u);
    if k > 0 {
      ChopBounds(m, k - 1);
      ChopOneMore(m, k);
      NearestMultiple(m, Chop(m, k - 1), Magnitude(Round(u, k)), k - 1);
    }
  }

  // ---------------------------------------------------------------- text at another scale

  lemma {:induction false} PadPrefix(m: nat, k: nat, keep: nat)
    requires keep <= k
    ensures Pad(m, k)[..keep] == Pad(Chop(m, k - keep), keep)
  {
    if keep < k {
      PadPrefix(m / 10, k - 1, keep);
      assert Pad(m, k)[..keep] == Pad(m / 10, k - 1)[..keep];
    } else {
      assert Pad(m, k)[..keep] == Pad(m, k);
    }
  }

  lemma PadDigit(m: nat, k: nat, i: nat)
    requires i < k
    ensures Pad(m, k)[i] == DigitChar(Chop(m, k - i - 1) % 10)
  {
    PadPrefix(m, k, i + 1);
    assert Pad(m, k)[i] == Pad(m, k)[..i + 1][i];
  }

  lemma {:induction false} ChopChop(m: nat, a: nat, b: nat)
    ensures Chop(Chop(m, a), b) == Chop(m, a + b)
  {
    if a > 0 { ChopChop(m / 10, a - 1, b); }
  }

  lemma FracPast(frac: string, k: nat, d: nat)
    requires AllDigits(frac) && k < |frac| && d < 10 && frac[k] == DigitChar(d)
    ensures FracValue(frac, k) == NatValue(frac[..k]) + (if d >= 5 then 1 else 0)
  {
  }

  lemma FracIs(m: nat, from: nat, to: nat, d: nat)
    requires to < from && d == Chop(m, from - to - 1) % 10
    ensures FracValue(Pad(m, from), to) == NatValue(Pad(Chop(m, from - to), to)) + (if d >= 5 then 1 else 0)
  {
    PadDigit(m, from, to);
    FracPast(Pad(m, from), to, d);
    PadPrefix(m, from, to);
  }

  lemma RoundIs(m: nat, k: nat, d: nat)
    requires k > 0 && d == Chop(m, k - 1) % 10
    ensures Round(m, k) == Chop(m, k) + (if d >= 5 then 1 else 0)
  {
  }

  /** Fraction digits beyond the scale round like the number they belong to. */
  lemma FracRounds(m: nat, k: nat, to: nat)
    requires k > 0
    ensures Scale(Chop(m, k + to), to) + FracValue(Pad(m, k + to), to) == Round(m, k)
  {
    var d := Chop(m, k - 1) % 10;
    RoundIs(m, k, d);
    FracIs(m, k + to, to, d);
    KeptParts(m, k, to);
  }

  lemma KeptParts(m: nat, k: nat, to: nat)
    ensures Scale(Chop(m, k + to), to) + NatValue(Pad(Chop(m, k), to)) == Chop(m, k)
  {
    ChopChop(m, k, to);
    ChopAndPad(Chop(m, k), to);
  }

  lemma FracScales(m: nat, from: nat, to: nat)
    requires from <= to
    ensures Scale(Chop(m, from), to) + FracValue(Pad(m, from), to) == Scale(m, to - from)
  {
    ChopAndPad(m, from);
    ScaleScale(Chop(m, from), from, to - from);
    ScaleAdds(Scale(Chop(m, from), from), NatValue(Pad(m, from)), to - from);
  }

  lemma {:induction false} ScaleAdds(a: int, b: int, k: nat)
    ensures Scale(a + b, k) == Scale(a, k) + Scale(b, k)
  {
    if k > 0 { ScaleAdds(a, b, k - 1); }
  }

  lemma JoinAt(whole: string, frac: string, k: nat)
    requires AllDigits(whole) && AllDigits(frac) && |whole| > 0
    ensures JoinParts(whole, frac, k) == Some(Scale(NatValue(whole), k) + FracValue(frac, k))
  {
  }

  lemma ParsePointedAt(whole: string, frac: string, k: nat)
    requires AllDigits(whole) && AllDigits(frac) && |whole| > 0
    ensures ParseMagnitude(whole + "." + frac, k) == JoinParts(whole, frac, k)
  {
    DotFound(whole, frac);
    var body := whole + "." + frac;
    ParseAt(body, |whole|, k);
    assert body[..|whole|] == whole;
    assert body[|whole| + 1..] == frac;
  }

  lemma PartsRescale(m: nat, from: nat, to: nat)
    ensures Scale(Chop(m, from), to) + FracValue(Pad(m, from), to) == Rescale(m, from, to)
  {
    if to < from { FracRounds(m, from - to, to); } else { FracScales(m, from, to); }
  }

  lemma ParseWhole(whole: string, k: nat)
    requires AllDigits(whole) && |whole| > 0
    ensures ParseMagnitude(whole, k) == JoinParts(whole, [], k)
  {
    NoDot(whole);
    assert whole[..|whole|] == whole;
  }

  lemma PartsParse(m: nat, from: nat, to: nat, whole: string, frac: string)
    requires AllDigits(whole) && |whole| > 0 && NatValue(whole) == Chop(m, from) && frac == Pad(m, from)
    ensures JoinParts(whole, frac, to).Some? && JoinParts(whole, frac, to).value == Rescale(m, from, to)
  {
    JoinAt(whole, frac, to);
    PartsRescale(m, from, to);
  }

  lemma MagnitudeRescales(m: nat, from: nat, to: nat)
    ensures var r := ParseMagnitude(ShowMagnitude(m, from), to);
            r.Some? && r.value == Rescale(m, from, to)
  {
    var whole, frac := ShowNat(Chop(m, from)), Pad(m, from);
    PartsParse(m, from, to, whole, frac);
    if from == 0 { ParseWhole(whole, to); } else { ParsePointedAt(whole, frac, to); }
  }

  lemma RescaleSigned(u: int, from: nat, to: nat)
    ensures Rescale(u, from, to) == Signed(u < 0, Rescale(Magnitude(u), from, to))
  {
    if u < 0 && to >= from { ScaleNegates(-u, to - from); }
  }

  lemma SignedParses(u: int, body: string, k: nat, m: int, r: int)
    requires body != [] && IsDigit(body[0]) && ParseMagnitude(body, k).Some? && ParseMagnitude(body, k).value == m && r == Signed(u < 0, m)
    ensures ParseDec(WithSign(u < 0, body), k) == Some(r)
  {
    ParseSigned(u < 0, body, k);
  }

  /** Reading a rendered decimal at another scale rescales it, rounding as the cast between decimals does. */
  lemma ParseRescales(u: int, from: nat, to: nat)
    ensures ParseDec(ShowDec(u, from), to) == Some(Rescale(u, from, to))
  {
    MagnitudeRescales(Magnitude(u), from, to);
    ShowMagnitudeStartsWithDigit(Magnitude(u), from);
    RescaleSigned(u, from, to);
    SignedParses(u, ShowMagnitude(Magnitude(u), from), to, Rescale(Magnitude(u), from, to), Rescale(u, from, to));
  }
}
