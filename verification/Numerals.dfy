/** Decimal renderings of integers and fixed-point decimals, and the parsers that read them back. */
module Numerals {
  import opened Base

  /** `n` times ten to the `k`. */
  function Scale(n: int, k: nat): (r: int)
    ensures (n > 0 ==> r > 0) && (n == 0 ==> r == 0) && (n < 0 ==> r < 0)
  {
    if k == 0 then n else 10 * Scale(n, k - 1)
  }

  /** `m` without its last `k` digits. */
  function Chop(m: nat, k: nat): nat {
    if k == 0 then m else Chop(m / 10, k - 1)
  }

  lemma {:induction false} ScaleInjective(m: int, n: int, k: nat)
    ensures Scale(m, k) == Scale(n, k) <==> m == n
  {
    if k > 0 { ScaleInjective(m, n, k - 1); }
  }

  lemma {:induction false} ScaleScale(n: int, a: nat, b: nat)
    ensures Scale(Scale(n, a), b) == Scale(n, a + b)
  {
    if b > 0 { ScaleScale(n, a, b - 1); }
  }

  lemma {:induction false} ScaleNegates(n: int, k: nat)
    ensures Scale(-n, k) == -Scale(n, k)
  {
    if k > 0 { ScaleNegates(n, k - 1); }
  }

  lemma {:induction false} ChopScale(n: nat, k: nat)
    ensures Chop(Scale(n, k), k) == n
  {
    if k > 0 {
      ChopScale(n, k - 1);
      assert Scale(n, k) / 10 == Scale(n, k - 1);
    }
  }

  predicate IsDigit(c: char) { '0' <= c <= '9' }

  predicate AllDigits(s: string) { forall i :: 0 <= i < |s| ==> IsDigit(s[i]) }

  function DigitChar(d: nat): (c: char)
    requires d < 10
    ensures IsDigit(c) && DigitValue(c) == d
  {
    ('0' as int + d) as char
  }

  function DigitValue(c: char): nat
    requires IsDigit(c)
  {
    c as int - '0' as int
  }

  function NatValue(s: string): nat
    requires AllDigits(s)
  {
    if s == [] then 0 else 10 * NatValue(s[..|s| - 1]) + DigitValue(s[|s| - 1])
  }

  function ShowNat(n: nat): (s: string)
    ensures |s| > 0 && AllDigits(s) && NatValue(s) == n
  {
    if n < 10 then
      assert NatValue([DigitChar(n)]) == n by { assert [DigitChar(n)][..0] == []; }
      [DigitChar(n)]
    else
      var s := ShowNat(n / 10) + [DigitChar(n % 10)];
      assert s[..|s| - 1] == ShowNat(n / 10);
      s
  }

  function ShowInt(n: int): string {
    if n < 0 then "-" + ShowNat(-n) else ShowNat(n)
  }

  /** The sign and the rest of a numeral. */
  function SplitSign(s: string): (bool, string) {
    if s != [] && s[0] == '-' then (true, s[1..])
    else if s != [] && s[0] == '+' then (false, s[1..])
    else (false, s)
  }

  function Signed(negative: bool, n: int): int { if negative then -n else n }

  function ParseInt(s: string): Option<int> {
    var (neg, body) := SplitSign(s);
    if body != [] && AllDigits(body) then Some(Signed(neg, NatValue(body))) else None
  }

  /** Reading back a rendered integer. */
  lemma ParseShowInt(n: int)
    ensures ParseInt(ShowInt(n)) == Some(n)
  {
    if n < 0 {
      assert ShowInt(n)[1..] == ShowNat(-n);
    } else {
      assert IsDigit(ShowNat(n)[0]);
    }
  }

  const DIGITS := "0123456789"

  /** A sign, if any, and then decimal digits to the end. */
  ghost predicate IsNumeral(s: string) {
    if s != [] && (s[0] == '+' || s[0] == '-') then AreDigits(s[1..]) else AreDigits(s)
  }

  ghost predicate AreDigits(s: string) { s != [] && forall i :: 0 <= i < |s| ==> s[i] in DIGITS }

  lemma DigitsAre(s: string)
    ensures AreDigits(s) <==> s != [] && AllDigits(s)
  {
    forall c: char ensures IsDigit(c) <==> c in DIGITS {
      if IsDigit(c) { assert DIGITS[c as int - '0' as int] == c; }
    }
  }

  /** The numerals are read, each with its sign, and nothing else is. */
  lemma ParseIntExact(s: string)
    ensures ParseInt(s).Some? <==> IsNumeral(s)
    ensures AreDigits(s) ==> ParseInt(s) == ParseInt("+" + s) && ParseInt(s).Some? && ParseInt("-" + s) == Some(-ParseInt(s).value)
  {
    DigitsAre(s);
    if s != [] { DigitsAre(s[1..]); }
    assert ("+" + s)[1..] == s && ("-" + s)[1..] == s;
  }

  lemma ShowIntInjective(m: int, n: int)
    ensures ShowInt(m) == ShowInt(n) <==> m == n
  {
    ParseShowInt(m);
    ParseShowInt(n);
  }

  lemma {:induction false} LeadingZero(s: string)
    requires AllDigits(s)
    ensures AllDigits("0" + s) && NatValue("0" + s) == NatValue(s)
  {
    if s == [] {
      assert NatValue("0") == 0 by { assert "0"[..0] == []; }
      assert "0" + s == "0";
    } else {
      LeadingZero(s[..|s| - 1]);
      assert ("0" + s)[..|"0" + s| - 1] == "0" + s[..|s| - 1];
    }
  }

  /** The last `k` digits of `n`, with leading zeros. */
  function Pad(n: nat, k: nat): (s: string)
    ensures |s| == k && AllDigits(s)
  {
    if k == 0 then [] else Pad(n / 10, k - 1) + [DigitChar(n % 10)]
  }

  lemma {:induction false} ChopAndPad(n: nat, k: nat)
    ensures Scale(Chop(n, k), k) + NatValue(Pad(n, k)) == n
  {
    if k > 0 {
      ChopAndPad(n / 10, k - 1);
      assert Pad(n, k)[..k - 1] == Pad(n / 10, k - 1);
    }
  }

  /** A decimal of scale `k` with unscaled value `u`: `15` at scale 1 shows as `1.5`. */
  function ShowDec(u: int, k: nat): string {
    WithSign(u < 0, ShowMagnitude(if u < 0 then -u else u, k))
  }

  function WithSign(negative: bool, body: string): string { if negative then "-" + body else body }

  function ShowMagnitude(m: nat, k: nat): string {
    if k == 0 then ShowNat(m) else ShowNat(Chop(m, k)) + "." + Pad(m, k)
  }

  function FindDot(s: string): (i: nat)
    ensures i <= |s|
    ensures forall j :: 0 <= j < i ==> s[j] != '.'
    ensures i < |s| ==> s[i] == '.'
  {
    if s == [] || s[0] == '.' then 0 else 1 + FindDot(s[1..])
  }

  /** Fraction digits at scale `k`; digits past the scale round half up. */
  function FracValue(frac: string, k: nat): nat
    requires AllDigits(frac)
  {
    if |frac| <= k then Scale(NatValue(frac), k - |frac|)
    else NatValue(frac[..k]) + (if frac[k] >= '5' then 1 else 0)
  }

  function ParseMagnitude(body: string, k: nat): Option<nat> {
    var i := FindDot(body);
    JoinParts(body[..i], if i < |body| then body[i + 1..] else [], k)
  }

  function JoinParts(whole: string, frac: string, k: nat): Option<nat> {
    if AllDigits(whole) && AllDigits(frac) && |whole| + |frac| > 0
    then Some(Scale(NatValue(whole), k) + FracValue(frac, k)) else None
  }

  /** The unscaled value of a decimal numeral at scale `k`. */
  function ParseDec(s: string, k: nat): Option<int> {
    var (neg, body) := SplitSign(s);
    match ParseMagnitude(body, k)
    case None => None
    case Some(m) => Some(Signed(neg, m))
  }

  lemma DotFound(whole: string, frac: string)
    requires AllDigits(whole)
    ensures FindDot(whole + "." + frac) == |whole|
  {
    var s := whole + "." + frac;
    assert s[|whole|] == '.';
    forall j | 0 <= j < |whole| ensures s[j] != '.' { assert s[j] == whole[j]; }
    assert forall j :: 0 <= j < FindDot(s) ==> s[j] != '.';
  }

  lemma NoDot(whole: string)
    requires AllDigits(whole)
    ensures FindDot(whole) == |whole|
  {
  }

  lemma {:induction false} ZerosThen(zeros: string, s: string)
    requires (zeros == "" || zeros == "0") && AllDigits(s)
    ensures AllDigits(zeros + s) && NatValue(zeros + s) == NatValue(s)
  {
    if zeros == "0" { LeadingZero(s); } else { assert zeros + s == s; }
  }

  lemma ParseAt(body: string, i: nat, k: nat)
    requires FindDot(body) == i < |body|
    ensures ParseMagnitude(body, k) == JoinParts(body[..i], body[i + 1..], k)
  {
  }

  lemma JoinFull(whole: string, frac: string, k: nat)
    requires AllDigits(whole) && AllDigits(frac) && |whole| > 0 && |frac| == k
    ensures JoinParts(whole, frac, k) == Some(Scale(NatValue(whole), k) + NatValue(frac))
  {
  }

  lemma ParsePointed(whole: string, frac: string, k: nat)
    requires AllDigits(whole) && AllDigits(frac) && |whole| > 0 && |frac| == k
    ensures ParseMagnitude(whole + "." + frac, k) == Some(Scale(NatValue(whole), k) + NatValue(frac))
  {
    DotFound(whole, frac);
    var body := whole + "." + frac;
    ParseAt(body, |whole|, k);
    assert body[..|whole|] == whole;
    assert body[|whole| + 1..] == frac;
    JoinFull(whole, frac, k);
  }

  lemma ParsePlain(whole: string)
    requires AllDigits(whole) && |whole| > 0
    ensures ParseMagnitude(whole, 0) == Some(NatValue(whole))
  {
    NoDot(whole);
    assert whole[..|whole|] == whole;
  }

  lemma Regroup(a: string, b: string, c: string, d: string)
    ensures a + (b + c + d) == (a + b) + c + d
  {
  }

  lemma ParseShowPointed(m: nat, k: nat, whole: string, frac: string)
    requires AllDigits(whole) && AllDigits(frac) && |whole| > 0 && |frac| == k && Scale(NatValue(whole), k) + NatValue(frac) == m
    ensures ParseMagnitude(whole + "." + frac, k) == Some(m)
  {
    ParsePointed(whole, frac, k);
  }

  lemma ParseShowMagnitude(m: nat, k: nat, zeros: string)
    requires zeros == "" || zeros == "0"
    ensures ParseMagnitude(zeros + ShowMagnitude(m, k), k) == Some(m)
  {
    if k == 0 {
      ZerosThen(zeros, ShowNat(m));
      ParsePlain(zeros + ShowNat(m));
    } else {
      var q := ShowNat(Chop(m, k));
      ZerosThen(zeros, q);
      Regroup(zeros, q, ".", Pad(m, k));
      ChopAndPad(m, k);
      ParseShowPointed(m, k, zeros + q, Pad(m, k));
    }
  }

  lemma ShowMagnitudeStartsWithDigit(m: nat, k: nat)
    ensures ShowMagnitude(m, k) != [] && IsDigit(ShowMagnitude(m, k)[0])
  {
    if k == 0 {
      assert IsDigit(ShowNat(m)[0]);
    } else {
      var q := ShowNat(Chop(m, k));
      assert IsDigit(q[0]) && ShowMagnitude(m, k)[0] == q[0];
    }
  }

  lemma ParseSigned(negative: bool, body: string, k: nat)
    requires body != [] && IsDigit(body[0]) && ParseMagnitude(body, k).Some?
    ensures ParseDec(WithSign(negative, body), k) == Some(Signed(negative, ParseMagnitude(body, k).value))
  {
    if negative { assert ("-" + body)[1..] == body; }
  }

  lemma ParseShowDec(u: int, k: nat)
    ensures ParseDec(ShowDec(u, k), k) == Some(u)
  {
    var m := if u < 0 then -u else u;
    ParseShowMagnitude(m, k, "");
    assert "" + ShowMagnitude(m, k) == ShowMagnitude(m, k);
    ShowMagnitudeStartsWithDigit(m, k);
    ParseSigned(u < 0, ShowMagnitude(m, k), k);
  }

  lemma ShowDecInjective(a: int, b: int, k: nat)
    ensures ShowDec(a, k) == ShowDec(b, k) <==> a == b
  {
    ParseShowDec(a, k);
    ParseShowDec(b, k);
  }

  /** The same decimal spelled with one more leading zero. */
  function Respell(u: int, k: nat): string {
    WithSign(u < 0, "0" + ShowMagnitude(if u < 0 then -u else u, k))
  }

  lemma RespellBody(u: int, k: nat, body: string)
    requires ParseMagnitude("0" + body, k) == Some(if u < 0 then -u else u)
    ensures ParseDec(WithSign(u < 0, "0" + body), k) == Some(u) && WithSign(u < 0, "0" + body) != WithSign(u < 0, body)
  {
    ParseSigned(u < 0, "0" + body, k);
    assert |WithSign(u < 0, "0" + body)| == |WithSign(u < 0, body)| + 1;
  }

  lemma RespellParses(u: int, k: nat)
    ensures ParseDec(Respell(u, k), k) == Some(u) && Respell(u, k) != ShowDec(u, k)
  {
    var m := if u < 0 then -u else u;
    ParseShowMagnitude(m, k, "0");
    RespellBody(u, k, ShowMagnitude(m, k));
  }

  /** At scale 0 the two renderings and the two parsers agree on sign and digits. */
  lemma ShowIntIsShowDec(n: int)
    ensures ShowInt(n) == ShowDec(n, 0)
  {
  }

  lemma RespellIntParses(n: int)
    ensures ParseInt(Respell(n, 0)) == Some(n)
  {
    var m := if n < 0 then -n else n;
    LeadingZero(ShowNat(m));
    var body := "0" + ShowNat(m);
    if n < 0 { assert Respell(n, 0)[1..] == body; } else { assert Respell(n, 0) == body; }
  }
}
