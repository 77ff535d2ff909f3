/** Exact decimal coordinates: their digits, their canonical form, and the
    textual number syntax used inside point literals. */
module Decimals {
  import opened Wrappers

  function Pow10(k: nat): (r: nat)
    ensures r >= 1
  {
    if k == 0 then 1 else 10 * Pow10(k - 1)
  }

  lemma {:induction false} Pow10Add(a: nat, b: nat)
    ensures Pow10(a + b) == Pow10(a) * Pow10(b)
  {
    if b > 0 {
      Pow10Add(a, b - 1);
      assert Pow10(a + b) == 10 * Pow10(a + b - 1);
    }
  }

  /** A decimal number `mantissa / 10^exponent`. */
  datatype Decimal = Decimal(mantissa: int, exponent: nat) {

    /** The exact numeric value. */
    function Value(): real {
      mantissa as real / Pow10(exponent) as real
    }

    /** No trailing zero in the fraction: each value has exactly one canonical form. */
    predicate Canonical() {
      exponent == 0 || mantissa % 10 != 0
    }
  }

  /** A coordinate of a point, kept in canonical form. */
  type Coord = d: Decimal | d.Canonical() witness Decimal(0, 0)

  /** Two canonical decimals are the same datatype value exactly when their
      numeric values agree, so structural equality is numeric equality. */
  lemma CoordEqualIffValueEqual(a: Coord, b: Coord)
    ensures a == b <==> a.Value() == b.Value()
  {
    if a.Value() == b.Value() {
      if a.exponent <= b.exponent {
        SameValueSameCoord(a, b);
      } else {
        SameValueSameCoord(b, a);
      }
    }
  }

  lemma SameValueSameCoord(a: Coord, b: Coord)
    requires a.exponent <= b.exponent
    requires a.Value() == b.Value()
    ensures a == b
  {
    var d := b.exponent - a.exponent;
    var pa, pd := Pow10(a.exponent), Pow10(d);
    Pow10Add(a.exponent, d);
    CrossMultiply(a.mantissa, pa, b.mantissa, Pow10(b.exponent));
    Rescale(a.mantissa, b.mantissa, pa, pd);
    if d > 0 {
      TenDividesScaled(a.mantissa, Pow10(d - 1));
    }
  }

  lemma Rescale(x: int, y: int, pa: nat, pd: nat)
    requires pa >= 1
    requires x * (pa * pd) == y * pa
    ensures y == x * pd
  {
    assert x * (pa * pd) == (x * pd) * pa;
    CancelPositive(x * pd, y, pa);
  }

  lemma TenDividesScaled(x: int, q: nat)
    ensures (x * (10 * q)) % 10 == 0
  {
    assert x * (10 * q) == 10 * (x * q);
  }

  lemma CrossMultiply(x: int, p: nat, y: int, q: nat)
    requires p >= 1 && q >= 1
    requires x as real / p as real == y as real / q as real
    ensures x * q == y * p
  {
    var xr, yr, pr, qr := x as real, y as real, p as real, q as real;
    assert xr * qr == yr * pr by {
      calc {
        xr * qr;
        == (xr / pr) * pr * qr;
        == (yr / qr) * pr * qr;
        == yr * pr;
      }
    }
    assert (x * q) as real == xr * qr;
    assert (y * p) as real == yr * pr;
  }

  lemma CancelPositive(x: int, y: int, p: nat)
    requires p >= 1
    requires x * p == y * p
    ensures x == y
  {
    assert (x - y) * p == 0;
  }

  // ---------------------------------------------------------------------
  // Digit strings

  predicate IsDigit(c: char) {
    '0' <= c <= '9'
  }

  /** Every character is a decimal digit (checked from the last one back). */
  predicate AllDigits(s: string)
    decreases |s|
  {
    s == [] || (AllDigits(s[..|s| - 1]) && IsDigit(s[|s| - 1]))
  }

  lemma {:induction false} AllDigitsCons(c: char, d: string)
    requires IsDigit(c) && AllDigits(d)
    ensures AllDigits([c] + d)
    decreases |d|
  {
    var s := [c] + d;
    if d == [] {
      assert s[..0] == [];
    } else {
      AllDigitsCons(c, d[..|d| - 1]);
      assert s[..|s| - 1] == [c] + d[..|d| - 1];
    }
  }

  lemma {:induction false} AllDigitsUncons(s: string)
    requires AllDigits(s) && |s| > 0
    ensures IsDigit(s[0]) && AllDigits(s[1..])
    decreases |s|
  {
    if |s| == 1 {
      assert s[1..] == [];
    } else {
      var init := s[..|s| - 1];
      AllDigitsUncons(init);
      assert s[1..][..|s| - 2] == init[1..];
    }
  }

  function DigitChar(n: nat): (c: char)
    requires n < 10
    ensures IsDigit(c)
  {
    "0123456789"[n]
  }

  function DigitValue(c: char): (n: nat)
    requires IsDigit(c)
    ensures n < 10
  {
    c as int - '0' as int
  }

  lemma DigitCharValue(n: nat)
    requires n < 10
    ensures DigitValue(DigitChar(n)) == n
  {
  }

  /** The natural number a string of decimal digits denotes (most significant first). */
  function DigitsValue(s: string): nat
    requires AllDigits(s)
  {
    if s == [] then 0 else 10 * DigitsValue(s[..|s| - 1]) + DigitValue(s[|s| - 1])
  }

  /** The shortest digit string for `n` ("0" for zero). */
  function NatToDigits(n: nat): (s: string)
    ensures |s| > 0 && AllDigits(s)
    ensures DigitsValue(s) == n
    decreases n
  {
    var last := [DigitChar(n % 10)];
    DigitCharValue(n % 10);
    if n < 10 then
      assert last[..0] == [];
      last
    else
      var s := NatToDigits(n / 10) + last;
      assert s[..|s| - 1] == NatToDigits(n / 10);
      s
  }

  /** Exactly `k` digits for `n`, padded with leading zeros. */
  function PadDigits(n: nat, k: nat): (s: string)
    requires n < Pow10(k)
    ensures |s| == k && AllDigits(s)
    ensures DigitsValue(s) == n
  {
    if k == 0 then
      ""
    else
      var s := PadDigits(n / 10, k - 1) + [DigitChar(n % 10)];
      DigitCharValue(n % 10);
      assert s[..|s| - 1] == PadDigits(n / 10, k - 1);
      s
  }

  /** Splits off the longest prefix of digits. */
  function DigitPrefix(s: string): (r: (string, string))
    ensures AllDigits(r.0) && r.0 + r.1 == s
    ensures r.1 == [] || !IsDigit(r.1[0])
    decreases |s|
  {
    if s != [] && IsDigit(s[0]) then
      var (d, rest) := DigitPrefix(s[1..]);
      AllDigitsCons(s[0], d);
      assert [s[0]] + d + rest == [s[0]] + s[1..];
      ([s[0]] + d, rest)
    else
      ([], s)
  }

  /** The digit prefix of digits followed by a non-digit is those digits. */
  lemma {:induction false} DigitPrefixOf(ds: string, rest: string)
    requires AllDigits(ds) && (rest == [] || !IsDigit(rest[0]))
    ensures DigitPrefix(ds + rest) == (ds, rest)
    decreases |ds|
  {
    if ds != [] {
      AllDigitsUncons(ds);
      assert (ds + rest)[1..] == ds[1..] + rest;
      DigitPrefixOf(ds[1..], rest);
      assert [ds[0]] + ds[1..] == ds;
    } else {
      assert ds + rest == rest;
    }
  }

  /** Digits joined denote the first number shifted left past the second. */
  lemma {:induction false} DigitsValueAppend(a: string, b: string)
    requires AllDigits(a) && AllDigits(b)
    ensures AllDigits(a + b)
    ensures DigitsValue(a + b) == DigitsValue(a) * Pow10(|b|) + DigitsValue(b)
    decreases |b|
  {
    if b == [] {
      assert a + b == a;
    } else {
      var init := b[..|b| - 1];
      DigitsValueAppend(a, init);
      assert (a + b)[..|a + b| - 1] == a + init;
      assert (a + b)[|a + b| - 1] == b[|b| - 1];
      ShiftStep(DigitsValue(a), DigitsValue(init), DigitValue(b[|b| - 1]), Pow10(|init|));
    }
  }

  lemma ShiftStep(x: int, y: int, d: int, p: int)
    ensures 10 * (x * p + y) + d == x * (10 * p) + (10 * y + d)
  {
  }

  /** Drops trailing '0' digits: the digits kept, shifted back past the
      dropped ones, give the original value. */
  function TrimZeros(s: string): (r: string)
    requires AllDigits(s)
    ensures AllDigits(r) && |r| <= |s|
    ensures r == [] || r[|r| - 1] != '0'
    ensures DigitsValue(s) == DigitsValue(r) * Pow10(|s| - |r|)
    decreases |s|
  {
    if s != [] && s[|s| - 1] == '0' then
      var init := s[..|s| - 1];
      var r := TrimZeros(init);
      assert DigitsValue(s) == 10 * DigitsValue(init);
      assert Pow10(|s| - |r|) == 10 * Pow10(|init| - |r|);
      ShiftZero(DigitsValue(r), Pow10(|init| - |r|));
      r
    else
      s
  }

  lemma ShiftZero(x: int, t: int)
    ensures 10 * (x * t) == x * (10 * t)
  {
  }

  /** The value of `ip` followed by the fraction digits `fp`. */
  ghost function DigitsFraction(ip: string, fp: string): real
    requires AllDigits(ip) && AllDigits(fp)
  {
    DigitsValue(ip) as real + DigitsValue(fp) as real / Pow10(|fp|) as real
  }

  /** The canonical coordinate of sign, integer digits and fraction digits:
      trailing fraction zeros are dropped, so it has at most as many
      fraction digits as were written. */
  function MakeCoord(neg: bool, ip: string, fp: string): (r: Coord)
    requires AllDigits(ip) && AllDigits(fp)
    ensures r.exponent <= |fp|
  {
    var f := TrimZeros(fp);
    DigitsValueAppend(ip, f);
    var n := DigitsValue(ip + f);
    LastDigit(ip + f);
    Decimal(if neg then -(n as int) else n, |f|)
  }

  /** The coordinate's value is the decimal the digits spell. */
  lemma MakeCoordValue(neg: bool, ip: string, fp: string)
    requires AllDigits(ip) && AllDigits(fp)
    ensures MakeCoord(neg, ip, fp).Value() == if neg then -DigitsFraction(ip, fp) else DigitsFraction(ip, fp)
  {
    var f := TrimZeros(fp);
    DigitsValueAppend(ip, f);
    var n := DigitsValue(ip + f);
    var c := Decimal(if neg then -(n as int) else n, |f|);
    assert MakeCoord(neg, ip, fp) == c;
    CoordOfDigits(neg, ip, fp, f, n);
  }

  lemma CoordOfDigits(neg: bool, ip: string, fp: string, f: string, n: nat)
    requires AllDigits(ip) && AllDigits(fp) && AllDigits(f) && |f| <= |fp|
    requires DigitsValue(fp) == DigitsValue(f) * Pow10(|fp| - |f|)
    requires n == DigitsValue(ip) * Pow10(|f|) + DigitsValue(f)
    ensures Decimal(if neg then -(n as int) else n, |f|).Value()
         == if neg then -DigitsFraction(ip, fp) else DigitsFraction(ip, fp)
  {
    Pow10Add(|f|, |fp| - |f|);
    CoordValue(neg, n, DigitsValue(ip), DigitsValue(f), Pow10(|f|), Pow10(|fp| - |f|),
               DigitsValue(fp), Pow10(|fp|));
  }

  /** A digit string's value ends in its last digit. */
  lemma LastDigit(s: string)
    requires AllDigits(s)
    ensures s != [] && s[|s| - 1] != '0' ==> DigitsValue(s) % 10 != 0 && (-(DigitsValue(s) as int)) % 10 != 0
  {
    if s == [] || s[|s| - 1] == '0' { return; }
    var d := DigitValue(s[|s| - 1]);
    assert 0 < d < 10;
    var n := DigitsValue(s[..|s| - 1]);
    assert DigitsValue(s) == 10 * n + d;
    NonZeroLast(n, d);
  }

  lemma NonZeroLast(n: int, d: int)
    requires 0 < d < 10
    ensures (10 * n + d) % 10 != 0 && (-(10 * n + d)) % 10 != 0
  {
    assert -(10 * n + d) == 10 * (-n - 1) + (10 - d);
  }

  /** `i` whole units and the fraction `h / q`, where the fraction is
      `g / p` scaled by `t`, as the mantissa `n = i * p + g` over `p`. */
  lemma CoordValue(neg: bool, n: nat, i: nat, g: nat, p: nat, t: nat, h: nat, q: nat)
    requires p >= 1 && t >= 1
    requires n == i * p + g && h == g * t && q == p * t
    ensures var v := i as real + h as real / q as real;
      (if neg then -(n as int) else n) as real / p as real == (if neg then -v else v)
  {
    var pr, tr := p as real, t as real;
    CastProduct(i, p);
    CastProduct(g, t);
    CastProduct(p, t);
    SplitQuotient(i as real, g as real, pr);
    CancelFactor(g as real, pr, tr);
    if neg {
      NegateQuotient(n as real, pr);
    }
  }

  lemma CastProduct(x: int, y: int)
    ensures (x * y) as real == x as real * y as real
  {
  }

  lemma SplitQuotient(i: real, g: real, p: real)
    requires p > 0.0
    ensures (i * p + g) / p == i + g / p
  {
  }

  lemma CancelFactor(g: real, p: real, t: real)
    requires p > 0.0 && t > 0.0
    ensures (g * t) / (p * t) == g / p
  {
  }

  lemma NegateQuotient(x: real, p: real)
    requires p > 0.0
    ensures -x / p == -(x / p)
  {
  }

  // ---------------------------------------------------------------------
  // Number syntax: an optional '-', then either digits, or digits (possibly
  // none) followed by '.' and at least one digit: `-?[0-9]*[.]?[0-9]+`.

  function SignText(neg: bool): string {
    if neg then "-" else ""
  }

  function FracText(fp: Option<string>): string {
    if fp.Some? then "." + fp.value else ""
  }

  function FracDigits(fp: Option<string>): string {
    if fp.Some? then fp.value else ""
  }

  /** The text of a number literal from its pieces: sign, integer digits,
      and the fraction digits when there is a '.'. */
  function LiteralText(neg: bool, ip: string, fp: Option<string>): string {
    SignText(neg) + ip + FracText(fp)
  }

  /** The pieces form a literal of the number syntax. */
  predicate LiteralParts(ip: string, fp: Option<string>) {
    AllDigits(ip) &&
    match fp
    case None => |ip| > 0
    case Some(f) => |f| > 0 && AllDigits(f)
  }

  /** The exact value the pieces denote: integer digits plus fraction digits
      over ten to their count, negated after a minus sign. */
  ghost function PartsValue(neg: bool, ip: string, fp: Option<string>): real
    requires LiteralParts(ip, fp)
  {
    var v := DigitsFraction(ip, FracDigits(fp));
    if neg then -v else v
  }

  /** Splits the unsigned part of a number off the front of `b`: the
      integer digits, then a '.' and at least one fraction digit, or no '.'
      and at least one integer digit. */
  function ScanUnsigned(b: string): (r: Result<(string, Option<string>, string), string>)
    ensures r.Ok? ==> LiteralParts(r.value.0, r.value.1)
    ensures r.Ok? ==> b == r.value.0 + (FracText(r.value.1) + r.value.2)
    ensures r.Ok? ==> r.value.2 == [] || !IsDigit(r.value.2[0])
    ensures r.Ok? && r.value.1.None? ==> EndsNumber(r.value.2)
  {
    var (ip, r1) := DigitPrefix(b);
    if |r1| > 0 && r1[0] == '.' then
      var (f, r2) := DigitPrefix(r1[1..]);
      if |f| == 0 then
        Err("expected a digit after '.'")
      else
        DotShape(r1, f, r2);
        Ok((ip, Some(f), r2))
    else if |ip| == 0 then
      Err("expected a digit")
    else
      Ok((ip, None, r1))
  }

  lemma DotShape(r1: string, f: string, r2: string)
    requires |r1| > 0 && r1[0] == '.' && r1[1..] == f + r2
    ensures r1 == "." + f + r2
  {
    assert r1 == [r1[0]] + r1[1..];
  }

  /** Splits one number literal off the front of `s`: the optional '-' and
      the unsigned part. */
  function ScanNumber(s: string): (r: Result<(bool, string, Option<string>, string), string>)
    ensures r.Ok? ==> LiteralParts(r.value.1, r.value.2)
    ensures r.Ok? ==> s == LiteralText(r.value.0, r.value.1, r.value.2) + r.value.3
    ensures r.Ok? ==> r.value.3 == [] || !IsDigit(r.value.3[0])
    ensures r.Ok? && r.value.2.None? ==> EndsNumber(r.value.3)
  {
    var neg := |s| > 0 && s[0] == '-';
    var b := if neg then s[1..] else s;
    match ScanUnsigned(b)
    case Err(e) => Err(e)
    case Ok((ip, fp, rest)) =>
      SignShape(s, neg, b);
      LiteralShape(SignText(neg), ip, FracText(fp), rest);
      Ok((neg, ip, fp, rest))
  }

  lemma SignShape(s: string, neg: bool, b: string)
    requires neg == (|s| > 0 && s[0] == '-') && b == if neg then s[1..] else s
    ensures s == SignText(neg) + b
  {
    if neg {
      assert s == [s[0]] + s[1..];
    }
  }

  lemma LiteralShape(sign: string, ip: string, t: string, rest: string)
    ensures sign + ip + t + rest == sign + (ip + (t + rest))
  {
  }

  /** A literal of the number syntax is never empty. */
  lemma LiteralNonEmpty(neg: bool, ip: string, fp: Option<string>)
    requires LiteralParts(ip, fp)
    ensures |LiteralText(neg, ip, fp)| > 0
  {
  }

  /** Reads one number at the start of `s` and returns the text after it.
      It reads all the digits there: what it leaves does not start with one. */
  function ParseNumberPrefix(s: string): (r: Result<(Coord, string), string>)
    ensures r.Ok? ==> |r.value.1| < |s|
    ensures r.Ok? ==> r.value.1 == [] || !IsDigit(r.value.1[0])
  {
    match ScanNumber(s)
    case Err(e) => Err(e)
    case Ok((neg, ip, fp, rest)) =>
      LiteralNonEmpty(neg, ip, fp);
      Ok((MakeCoord(neg, ip, FracDigits(fp)), rest))
  }

  /** Parses a whole coordinate token. */
  function ParseNumber(tok: string): (r: Result<Coord, string>) {
    match ParseNumberPrefix(tok)
    case Ok((c, rest)) => if rest == [] then Ok(c) else Err("trailing text after number")
    case Err(e) => Err(e)
  }

  /** The text cannot continue a number: neither a digit nor a '.'. */
  predicate EndsNumber(rest: string) {
    rest == [] || (!IsDigit(rest[0]) && rest[0] != '.')
  }

  /** The scanner splits every literal of the number syntax back into its
      pieces, in front of any text that cannot continue it. */
  lemma {:induction false} ScanNumberComplete(neg: bool, ip: string, fp: Option<string>, rest: string)
    requires LiteralParts(ip, fp)
    requires rest == [] || !IsDigit(rest[0])
    requires fp.None? ==> EndsNumber(rest)
    ensures ScanNumber(LiteralText(neg, ip, fp) + rest) == Ok((neg, ip, fp, rest))
  {
    var b := ip + (FracText(fp) + rest);
    var s := LiteralText(neg, ip, fp) + rest;
    LiteralShape(SignText(neg), ip, FracText(fp), rest);
    assert s == SignText(neg) + b;
    ScanUnsignedComplete(ip, fp, rest);
    if ip != [] {
      AllDigitsUncons(ip);
      assert b[0] == ip[0];
    } else {
      assert b[0] == '.';
    }
    if neg {
      assert s[0] == '-' && s[1..] == b;
    } else {
      assert s == b && s[0] != '-';
    }
    assert ScanUnsigned(b) == Ok((ip, fp, rest));
  }

  lemma ScanUnsignedComplete(ip: string, fp: Option<string>, rest: string)
    requires LiteralParts(ip, fp)
    requires rest == [] || !IsDigit(rest[0])
    requires fp.None? ==> EndsNumber(rest)
    ensures ScanUnsigned(ip + (FracText(fp) + rest)) == Ok((ip, fp, rest))
  {
    if fp.Some? {
      FractionComplete(ip, fp.value, rest);
    } else {
      assert FracText(fp) + rest == rest;
      IntegerComplete(ip, rest);
    }
  }

  lemma FractionComplete(ip: string, f: string, rest: string)
    requires AllDigits(ip) && AllDigits(f) && |f| > 0
    requires rest == [] || !IsDigit(rest[0])
    ensures ScanUnsigned(ip + ("." + f + rest)) == Ok((ip, Some(f), rest))
  {
    var r1 := "." + f + rest;
    DotTail(f, rest);
    DigitPrefixOf(ip, r1);
    DigitPrefixOf(f, rest);
    FractionBranch(ip + r1, ip, r1, f, rest);
  }

  lemma DotTail(f: string, rest: string)
    ensures |"." + f + rest| > 0 && ("." + f + rest)[0] == '.'
    ensures ("." + f + rest)[1..] == f + rest
  {
  }

  lemma IntegerComplete(ip: string, rest: string)
    requires AllDigits(ip) && |ip| > 0 && EndsNumber(rest)
    ensures ScanUnsigned(ip + rest) == Ok((ip, None, rest))
  {
    DigitPrefixOf(ip, rest);
    IntegerBranch(ip + rest, ip, rest);
  }

  /** The fraction branch of the scanner, once both digit runs are known. */
  lemma FractionBranch(b: string, ip: string, r1: string, f: string, rest: string)
    requires DigitPrefix(b) == (ip, r1) && |r1| > 0 && r1[0] == '.'
    requires DigitPrefix(r1[1..]) == (f, rest) && |f| > 0
    ensures ScanUnsigned(b) == Ok((ip, Some(f), rest))
  {
  }

  /** The integer branch of the scanner, once the digit run is known. */
  lemma IntegerBranch(b: string, ip: string, rest: string)
    requires DigitPrefix(b) == (ip, rest) && |ip| > 0 && EndsNumber(rest)
    ensures ScanUnsigned(b) == Ok((ip, None, rest))
  {
  }


  /** Every literal of the number syntax is read, followed by any text that
      cannot continue it, with its exact value and that text left over. */
  lemma ParseNumberComplete(neg: bool, ip: string, fp: Option<string>, rest: string)
    requires LiteralParts(ip, fp)
    requires rest == [] || !IsDigit(rest[0])
    requires fp.None? ==> EndsNumber(rest)
    ensures ParseNumberPrefix(LiteralText(neg, ip, fp) + rest).Ok?
    ensures ParseNumberPrefix(LiteralText(neg, ip, fp) + rest).value.1 == rest
    ensures ParseNumberPrefix(LiteralText(neg, ip, fp) + rest).value.0.Value() == PartsValue(neg, ip, fp)
  {
    ScanNumberComplete(neg, ip, fp, rest);
    MakeCoordValue(neg, ip, FracDigits(fp));
  }

  /** Whatever the number reader accepts is a literal of the number syntax
      followed by the text it leaves over, with that literal's value. */
  lemma ParseNumberSound(s: string)
    requires ParseNumberPrefix(s).Ok?
    ensures exists neg, ip, fp ::
              && LiteralParts(ip, fp)
              && s == LiteralText(neg, ip, fp) + ParseNumberPrefix(s).value.1
              && ParseNumberPrefix(s).value.0.Value() == PartsValue(neg, ip, fp)
  {
    var (neg, ip, fp, rest) := ScanNumber(s).value;
    MakeCoordValue(neg, ip, FracDigits(fp));
    assert PartsValue(neg, ip, fp) == ParseNumberPrefix(s).value.0.Value();
  }

  /** A whole token parses exactly when it is a literal of the number syntax:
      this direction gives the literal and the value. */
  lemma NumberSyntaxSound(tok: string)
    requires ParseNumber(tok).Ok?
    ensures exists neg, ip, fp ::
              && LiteralParts(ip, fp)
              && tok == LiteralText(neg, ip, fp)
              && ParseNumber(tok).value.Value() == PartsValue(neg, ip, fp)
  {
    var (neg, ip, fp, rest) := ScanNumber(tok).value;
    assert rest == [];
    assert tok == LiteralText(neg, ip, fp);
    MakeCoordValue(neg, ip, FracDigits(fp));
    assert PartsValue(neg, ip, fp) == ParseNumber(tok).value.Value();
  }

  /** The other direction: every literal of the number syntax parses, to its value. */
  lemma NumberSyntaxComplete(neg: bool, ip: string, fp: Option<string>)
    requires LiteralParts(ip, fp)
    ensures ParseNumber(LiteralText(neg, ip, fp)).Ok?
    ensures ParseNumber(LiteralText(neg, ip, fp)).value.Value() == PartsValue(neg, ip, fp)
  {
    assert LiteralText(neg, ip, fp) + [] == LiteralText(neg, ip, fp);
    ParseNumberComplete(neg, ip, fp, []);
  }

  /** A token read on its own is read the same in front of any text that
      cannot continue it. */
  lemma ParseNumberExtend(tok: string, rest: string)
    requires ParseNumber(tok).Ok? && EndsNumber(rest)
    ensures ParseNumberPrefix(tok + rest) == Ok((ParseNumber(tok).value, rest))
  {
    var (neg, ip, fp, r0) := ScanNumber(tok).value;
    assert r0 == [] && tok == LiteralText(neg, ip, fp);
    ScanNumberComplete(neg, ip, fp, rest);
  }

  /** The text of the number read at the front of `s`. */
  function TokenOf(s: string): string
    requires ParseNumberPrefix(s).Ok?
  {
    var (neg, ip, fp, rest) := ScanNumber(s).value;
    LiteralText(neg, ip, fp)
  }

  /** The number read at the front of a text, as a token of its own. */
  lemma ParseNumberToken(s: string)
    requires ParseNumberPrefix(s).Ok?
    ensures s == TokenOf(s) + ParseNumberPrefix(s).value.1
    ensures ParseNumber(TokenOf(s)) == Ok(ParseNumberPrefix(s).value.0)
  {
    var (neg, ip, fp, rest) := ScanNumber(s).value;
    var tok := LiteralText(neg, ip, fp);
    assert tok + [] == tok;
    ScanNumberComplete(neg, ip, fp, []);
  }

  // ---------------------------------------------------------------------
  // Rendering

  lemma DivModSplit(a: nat, p: nat)
    requires p >= 1
    ensures (a / p) * p + a % p == a && 0 <= a % p < p && a / p >= 0
  {
  }

  /** The literal pieces of a coordinate's minimal decimal form: no
      exponent, no leading zeros beyond a single "0", and exactly as many
      fraction digits as the exponent. */
  function FormatParts(d: Coord): (r: (bool, string, Option<string>))
    ensures LiteralParts(r.1, r.2)
  {
    var neg := d.mantissa < 0;
    var a: nat := if neg then -d.mantissa else d.mantissa;
    if d.exponent == 0 then
      (neg, NatToDigits(a), None)
    else
      var p := Pow10(d.exponent);
      DivModSplit(a, p);
      (neg, NatToDigits(a / p), Some(PadDigits(a % p, d.exponent)))
  }

  /** Renders a coordinate in minimal decimal form. */
  function FormatNumber(d: Coord): string {
    var (neg, ip, fp) := FormatParts(d);
    LiteralText(neg, ip, fp)
  }

  lemma FractionValue(q: nat, r: nat, p: nat, a: nat, neg: bool)
    requires p >= 1 && q * p + r == a
    ensures (if neg then -(q as real + r as real / p as real) else q as real + r as real / p as real)
         == (if neg then -(a as real) else a as real) / p as real
  {
    var pr := p as real;
    assert a as real == q as real * pr + r as real;
    assert (q as real * pr + r as real) / pr == q as real + r as real / pr;
  }

  /** The rendered pieces denote the coordinate exactly. */
  lemma FormatPartsValue(d: Coord)
    ensures var (neg, ip, fp) := FormatParts(d); PartsValue(neg, ip, fp) == d.Value()
  {
    var neg := d.mantissa < 0;
    var a: nat := if neg then -d.mantissa else d.mantissa;
    if d.exponent == 0 {
      IntegerParts(neg, d.mantissa, NatToDigits(a), a);
    } else {
      var p := Pow10(d.exponent);
      DivModSplit(a, p);
      FractionParts(neg, d.mantissa, a, a / p, a % p, d.exponent);
    }
  }

  lemma IntegerParts(neg: bool, m: int, ip: string, a: nat)
    requires m == if neg then -(a as int) else a
    requires |ip| > 0 && AllDigits(ip) && DigitsValue(ip) == a
    ensures PartsValue(neg, ip, None) == m as real / Pow10(0) as real
  {
    assert DigitsValue("") == 0 && Pow10(0) == 1;
    assert DigitsFraction(ip, "") == a as real;
  }

  lemma FractionParts(neg: bool, m: int, a: nat, q: nat, r: nat, e: nat)
    requires m == if neg then -(a as int) else a
    requires q * Pow10(e) + r == a && r < Pow10(e) && e > 0
    ensures LiteralParts(NatToDigits(q), Some(PadDigits(r, e)))
    ensures PartsValue(neg, NatToDigits(q), Some(PadDigits(r, e))) == m as real / Pow10(e) as real
  {
    var ip, f := NatToDigits(q), PadDigits(r, e);
    assert DigitsFraction(ip, f) == q as real + r as real / Pow10(e) as real;
    FractionValue(q, r, Pow10(e), a, neg);
    assert m as real == if neg then -(a as real) else a as real;
  }

  /** The rendered coordinate, as a token of its own, parses back to it. */
  lemma FormatParses(d: Coord)
    ensures ParseNumber(FormatNumber(d)) == Ok(d)
  {
    var (neg, ip, fp) := FormatParts(d);
    FormatPartsValue(d);
    NumberSyntaxComplete(neg, ip, fp);
    CoordEqualIffValueEqual(ParseNumber(LiteralText(neg, ip, fp)).value, d);
  }

  /** Parsing a rendered coordinate, in front of any text that cannot
      continue it, gives that coordinate back and leaves the text. */
  lemma NumberRoundTrip(d: Coord, rest: string)
    requires EndsNumber(rest)
    ensures ParseNumberPrefix(FormatNumber(d) + rest) == Ok((d, rest))
  {
    var (neg, ip, fp) := FormatParts(d);
    FormatPartsValue(d);
    ParseNumberComplete(neg, ip, fp, rest);
    CoordEqualIffValueEqual(ParseNumberPrefix(FormatNumber(d) + rest).value.0, d);
  }
}
