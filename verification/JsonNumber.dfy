/**
 Numbers in full: what the reader reports for every text of section 6 of RFC 8259, in terms
 of the digits of the text and their number.
 */
module JsonNumber {
  import opened Options
  import opened JsonScalars
  import opened JsonInteger

  ghost predicate AllDigits(ds: string) { forall k | 0 <= k < |ds| :: IsDigit(ds[k]) }

  lemma {:induction false} ValueAppend(acc: nat, a: string, b: string)
    requires AllDigits(a) && AllDigits(b)
    ensures AllDigits(a + b) && DigitsValue(acc, a + b) == DigitsValue(DigitsValue(acc, a), b)
    decreases |a|
  {
    if a == "" {
      assert a + b == b;
    } else {
      assert (a + b)[1..] == a[1..] + b;
      ValueAppend(acc * 10 + DigitValue(a[0]), a[1..], b);
    }
  }

  /** One followed by `k` zeros. */
  function Tens(k: nat): (r: nat)
    ensures r > 0
  {
    if k == 0 then 1 else 10 * Tens(k - 1)
  }

  // ---------------------------------------------------------------------------------------
  // Integer part
  // ---------------------------------------------------------------------------------------

  lemma {:induction false} TensGrow(a: nat, b: nat)
    requires a <= b
    ensures Tens(a) <= Tens(b)
    decreases b
  {
    if a < b { TensGrow(a, b - 1); }
  }

  lemma TenTo16()
    ensures Tens(16) == 1_0000_0000_0000_0000 && Tens(17) == 10_0000_0000_0000_0000
  {
    assert Tens(4) == 10000 && Tens(8) == 1_0000_0000 && Tens(12) == 1_0000_0000_0000;
  }

  /** A number of at least 10^17 has 17 digits behind its first. */
  lemma LargeIsLong(acc: nat, count: nat)
    requires acc >= 10_0000_0000_0000_0000 && acc < Tens(count + 1)
    ensures count >= 17
  {
    TenTo16();
    if count < 17 { TensGrow(count + 1, 17); }
  }

  /** The accumulator has as many digits as were counted, and one more. */
  predicate Counted(acc: nat, count: nat) { Tens(count) <= acc < Tens(count + 1) }

  lemma {:induction false} CountsDigits(t: string, i: nat, acc: nat, count: nat, limit: nat, last: char)
    requires i <= |t| && Counted(acc, count)
    ensures var r := TakeDigits(t, i, acc, count, limit, last);
            Counted(r.acc, r.count) && r.count == count + (r.pos - i) && (r.full ==> r.acc >= limit)
    decreases |t| - i
  {
    var c := Peek(t, i);
    if IsDigit(c) && !(acc >= limit && (acc != limit || c > last)) {
      CountsDigits(t, i + 1, acc * 10 + DigitValue(c), count + 1, limit, last);
    }
  }

  /** An integer beyond a tenth of the largest double has one digit too many. */
  predicate TooBig(n: nat) { (n / 10) as real >= 17976931348623157.0 * Power10(291) }

  lemma {:induction false} PowerGrows(n: nat)
    ensures Power10(n) >= 1.0
  {
    if n > 0 { PowerGrows(n - 1); }
  }

  lemma SmallIsNotTooBig(n: nat)
    requires n < 0x1_0000_0000_0000_0000
    ensures !TooBig(n)
  {
    PowerGrows(288);
    assert Power10(291) == 10.0 * Power10(290) && Power10(290) == 10.0 * Power10(289) && Power10(289) == 10.0 * Power10(288);
    assert Power10(291) >= 1000.0;
    assert 17976931348623157.0 * Power10(291) >= 17976931348623157.0 * 1000.0;
  }

  lemma {:induction false} BigExact(t: string, i: nat, e: nat, v: nat)
    requires DigitRun(t, i, e) && i < e
    ensures var n := DigitsValue(v, t[i..e]);
            TakeBig(t, i, v as real) == if TooBig(n) then None else Some((e, n as real))
    decreases e - i
  {
    var next := v * 10 + DigitValue(t[i]);
    assert t[i..e][0] == t[i] && t[i..e][1..] == t[i + 1..e];
    assert next / 10 == v;
    if v as real >= TOO_BIG {
      ValueGrows(next, t[i + 1..e]);
      assert DigitsValue(v, t[i..e]) / 10 >= v;
    } else if i + 1 < e {
      BigExact(t, i + 1, e, next);
    } else {
      assert t[i + 1..e] == "";
    }
  }

  /** At `i` stands the integer part of a number: a zero, or a run that starts with 1-9. */
  ghost predicate IntegerPart(t: string, i: nat, m: nat) {
    && i < m <= |t| && IsDigit(t[i])
    && if t[i] == '0' then m == i + 1 else DigitRun(t, i, m)
  }

  lemma PartDigits(t: string, i: nat, m: nat)
    requires IntegerPart(t, i, m)
    ensures AllDigits(t[i..m])
  {
  }

  /** A value with `digits` significant digits is that large. */
  predicate Enough(v: nat, digits: nat) { digits > 0 ==> v >= Tens(digits - 1) }

  /** What the integer stage has read: nothing beyond the range of a double, else the exact value. */
  ghost predicate IntegerDone(r: Option<Number>, n: nat, i: nat, m: nat, minus: bool) {
    && (r.None? <==> TooBig(n))
    && (r.Some? ==>
          && r.value.pos == m && r.value.fraction == 0 && Enough(n, r.value.digits)
          && (r.value.digits == m - i - 1 || 17 <= r.value.digits <= m - i - 1)
          && (r.value.isDouble <==> !InRange(minus, n))
          && (r.value.isDouble ==> r.value.significand == n as real)
          && (!r.value.isDouble ==> r.value.integer == n && (r.value.wide <==> !InRange32(minus, n))))
  }

  /** The 64-bit accumulator, and the double behind it, go on where 32 bits were full. */
  lemma WideStage(t: string, a: Digits, i: nat, m: nat, minus: bool)
    requires DigitRun(t, a.pos, m) && Counted(a.acc, a.count) && a.pos == i + 1 + a.count
    requires InRange32(minus, a.acc) && !InRange32(minus, DigitsValue(a.acc, t[a.pos..m]))
    ensures
      var (l64, d64) := Limit64(minus);
      var b := TakeDigits(t, a.pos, a.acc, a.count, l64, d64);
      var big := if b.full then TakeBig(t, b.pos, b.acc as real) else Some((b.pos, b.acc as real));
      IntegerDone(if big.None? then None
                  else if b.full then Some(Number(big.value.0, true, true, b.acc, big.value.1, b.count, 0))
                  else Some(Number(b.pos, true, false, b.acc, 0.0, b.count, 0)),
                  DigitsValue(a.acc, t[a.pos..m]), i, m, minus)
  {
    hide TakeDigits, TakeBig, TooBig;
    var (l64, d64) := Limit64(minus);
    DigitsExact(t, a.pos, m, a.acc, a.count, l64, d64);
    CountsDigits(t, a.pos, a.acc, a.count, l64, d64);
    var b := TakeDigits(t, a.pos, a.acc, a.count, l64, d64);
    if b.full {
      BigExact(t, b.pos, m, b.acc);
      ValueGrows(b.acc, t[b.pos..m]);
      LargeIsLong(b.acc, b.count);
    } else {
      SmallIsNotTooBig(b.acc);
    }
  }

  /** The stages of the integer part behind its first digit. */
  lemma StagesExact(t: string, i: nat, m: nat, minus: bool)
    requires IntegerPart(t, i, m) && t[i] != '0'
    ensures AllDigits(t[i..m]) && IntegerDone(ParseInteger(t, i, minus), DigitsValue(0, t[i..m]), i, m, minus)
  {
    hide TakeDigits, TakeBig, TooBig;
    var n, first := DigitsValue(0, t[i..m]), DigitValue(t[i]);
    assert t[i..m][0] == t[i] && t[i..m][1..] == t[i + 1..m];
    assert Tens(0) == 1 && Tens(1) == 10;
    var (l32, d32) := Limit32(minus);
    DigitsExact(t, i + 1, m, first, 0, l32, d32);
    CountsDigits(t, i + 1, first, 0, l32, d32);
    var a := TakeDigits(t, i + 1, first, 0, l32, d32);
    if a.full { WideStage(t, a, i, m, minus); }
    else { SmallIsNotTooBig(n); }
  }

  lemma IntegerExact(t: string, i: nat, m: nat, minus: bool)
    requires IntegerPart(t, i, m)
    ensures AllDigits(t[i..m]) && IntegerDone(ParseInteger(t, i, minus), DigitsValue(0, t[i..m]), i, m, minus)
  {
    if t[i] == '0' {
      assert t[i..m] == "0" && t[i..m][1..] == "";
      SmallIsNotTooBig(0);
    } else {
      StagesExact(t, i, m, minus);
    }
  }

  // ---------------------------------------------------------------------------------------
  // Fraction
  // ---------------------------------------------------------------------------------------

  lemma RunDigits(t: string, i: nat, e: nat, j: nat)
    requires DigitRun(t, i, e) && i <= j <= e
    ensures AllDigits(t[i..j])
  {
  }

  /** One more digit keeps the count of significant digits honest. */
  lemma StillEnough(v: nat, digits: nat, d: nat)
    requires Enough(v, digits)
    ensures var v' := v * 10 + d; Enough(v', if v' != 0 then digits + 1 else digits)
  {
  }

  /** How many fraction digits count: all up to the 17th significant digit behind the first. */
  ghost function Kept(v: nat, digits: nat, ds: string): (k: nat)
    requires AllDigits(ds)
    ensures k <= |ds|
    decreases |ds|
  {
    if ds == "" || digits >= 17 then 0
    else
      var v' := v * 10 + DigitValue(ds[0]);
      1 + Kept(v', if v' != 0 then digits + 1 else digits, ds[1..])
  }

  /** Digits are dropped only behind a significand of at least 10^16. */
  lemma {:induction false} DroppedIsFine(v: nat, digits: nat, ds: string)
    requires AllDigits(ds) && Enough(v, digits)
    ensures Kept(v, digits, ds) < |ds| ==> DigitsValue(v, ds[..Kept(v, digits, ds)]) >= 1_0000_0000_0000_0000
    decreases |ds|
  {
    if ds != "" {
      if digits >= 17 {
        TenTo16();
        TensGrow(16, digits - 1);
      } else {
        hide Tens;
        var v' := v * 10 + DigitValue(ds[0]);
        StillEnough(v, digits, DigitValue(ds[0]));
        DroppedIsFine(v', if v' != 0 then digits + 1 else digits, ds[1..]);
        var k := Kept(v, digits, ds);
        assert ds[..k][0] == ds[0] && ds[..k][1..] == ds[1..][..k - 1];
      }
    }
  }

  /** Below 2^53 a value has at most 16 significant digits. */
  lemma SmallIsShort(v: nat, digits: nat)
    requires Enough(v, digits) && v <= 0x1F_FFFF_FFFF_FFFF
    ensures digits <= 16
  {
    TenTo16();
    if digits > 16 { TensGrow(16, digits - 1); }
  }

  /** The digits the 64-bit accumulator takes. */
  lemma {:induction false} AccumulatesFraction(t: string, i: nat, f: nat, acc: nat, digits: nat, fraction: int)
    requires DigitRun(t, i, f)
    ensures
      var r := TakeFraction64(t, i, acc, digits, fraction);
      && i <= r.pos <= f && AllDigits(t[i..r.pos])
      && r.significand == DigitsValue(acc, t[i..r.pos]) as real
      && r.fraction == fraction - (r.pos - i)
    decreases f - i
  {
    var r := TakeFraction64(t, i, acc, digits, fraction);
    if i == f || acc > 0x1F_FFFF_FFFF_FFFF {
      assert t[i..r.pos] == "";
    } else {
      var acc' := acc * 10 + DigitValue(t[i]);
      AccumulatesFraction(t, i + 1, f, acc', if acc' != 0 then digits + 1 else digits, fraction - 1);
      assert t[i..r.pos][0] == t[i] && t[i..r.pos][1..] == t[i + 1..r.pos];
    }
  }

  /** They all count; the rest of those that count are left to the double. */
  lemma {:induction false} AccumulatorKeeps(t: string, i: nat, f: nat, acc: nat, digits: nat, fraction: int)
    requires DigitRun(t, i, f) && Enough(acc, digits)
    ensures
      var r := TakeFraction64(t, i, acc, digits, fraction);
      && i <= r.pos <= f && AllDigits(t[i..f]) && AllDigits(t[i..r.pos]) && AllDigits(t[r.pos..f])
      && Kept(acc, digits, t[i..f]) == r.pos - i + Kept(DigitsValue(acc, t[i..r.pos]), r.digits, t[r.pos..f])
    decreases f - i
  {
    hide Enough;
    AccumulatesFraction(t, i, f, acc, digits, fraction);
    var r := TakeFraction64(t, i, acc, digits, fraction);
    if i == f || acc > 0x1F_FFFF_FFFF_FFFF {
      assert t[i..r.pos] == "";
    } else {
      var acc' := acc * 10 + DigitValue(t[i]);
      SmallIsShort(acc, digits);
      StillEnough(acc, digits, DigitValue(t[i]));
      AccumulatorKeeps(t, i + 1, f, acc', if acc' != 0 then digits + 1 else digits, fraction - 1);
      assert t[i..r.pos][0] == t[i] && t[i..r.pos][1..] == t[i + 1..r.pos];
      assert t[i..f][0] == t[i] && t[i..f][1..] == t[i + 1..f];
    }
  }

  lemma {:induction false} FullFraction(t: string, i: nat, f: nat, d: real, digits: nat, fraction: int)
    requires DigitRun(t, i, f) && digits >= 17
    ensures TakeFraction(t, i, d, digits, fraction) == Number(f, true, true, 0, d, digits, fraction)
    decreases f - i
  {
    if i < f { FullFraction(t, i + 1, f, d, digits, fraction); }
  }

  /** The digits that count went into the significand. */
  ghost predicate FractionDone(r: Number, f: nat, v: nat, fraction: int, ds: string, k: nat)
    requires AllDigits(ds) && k <= |ds|
  {
    r.pos == f && r.isDouble && r.significand == DigitsValue(v, ds[..k]) as real && r.fraction == fraction - k
  }

  lemma {:induction false} TakesFraction(t: string, i: nat, f: nat, v: nat, digits: nat, fraction: int)
    requires DigitRun(t, i, f)
    ensures AllDigits(t[i..f])
    ensures FractionDone(TakeFraction(t, i, v as real, digits, fraction), f, v, fraction, t[i..f], Kept(v, digits, t[i..f]))
    decreases f - i
  {
    var ds := t[i..f];
    if i < f && digits < 17 {
      var v' := v * 10 + DigitValue(t[i]);
      TakesFraction(t, i + 1, f, v', if v' != 0 then digits + 1 else digits, fraction - 1);
      assert v as real * 10.0 + DigitValue(t[i]) as real == v' as real;
      var k := Kept(v, digits, ds);
      assert ds[0] == t[i] && ds[1..] == t[i + 1..f];
      assert ds[..k][0] == t[i] && ds[..k][1..] == t[i + 1..f][..k - 1];
    } else if i < f {
      FullFraction(t, i, f, v as real, digits, fraction);
    }
  }

  /** Behind the integer part: nothing, or a point and at least one digit. */
  ghost predicate FractionPart(t: string, m: nat, f: nat) {
    if Peek(t, m) == '.' then m + 1 < f && DigitRun(t, m + 1, f) else f == m
  }

  /** Both fraction loops together. */
  lemma FractionExact(t: string, m: nat, f: nat, n: Number, v: nat)
    requires Peek(t, m) == '.' && FractionPart(t, m, f)
    requires n.pos == m && Enough(v, n.digits)
    requires if n.isDouble then n.significand == v as real else n.integer == v
    ensures AllDigits(t[m + 1..f]) && ParseFraction(t, n).Some?
    ensures FractionDone(ParseFraction(t, n).value, f, v, 0, t[m + 1..f], Kept(v, n.digits, t[m + 1..f]))
  {
    hide TakeFraction64, TakeFraction, Enough, Kept;
    assert IsDigit(t[m + 1]);
    if n.isDouble {
      TakesFraction(t, m + 1, f, v, n.digits, 0);
    } else {
      AccumulatesFraction(t, m + 1, f, v, n.digits, 0);
      AccumulatorKeeps(t, m + 1, f, v, n.digits, 0);
      var a := TakeFraction64(t, m + 1, n.integer, n.digits, 0);
      var w, ds := DigitsValue(v, t[m + 1..a.pos]), t[m + 1..f];
      TakesFraction(t, a.pos, f, w, a.digits, a.fraction);
      var k := Kept(w, a.digits, t[a.pos..f]);
      ValueAppend(v, t[m + 1..a.pos], t[a.pos..f][..k]);
      assert t[m + 1..a.pos] + t[a.pos..f][..k] == ds[..a.pos - (m + 1) + k];
    }
  }

  // ---------------------------------------------------------------------------------------
  // Exponent
  // ---------------------------------------------------------------------------------------

  lemma {:induction false} SkipsRun(t: string, i: nat, e: nat)
    requires DigitRun(t, i, e)
    ensures SkipDigits(t, i) == e
    decreases e - i
  {
    if i < e { SkipsRun(t, i + 1, e); }
  }

  /** A negative exponent: digits at the end are dropped as long as 214748364 is reached without them. */
  ghost function Clamp(ds: string): (x: nat)
    requires AllDigits(ds)
    ensures DigitsValue(0, ds) < 214748364 ==> x == DigitsValue(0, ds)
    decreases |ds|
  {
    if ds != "" && DigitsValue(0, ds[..|ds| - 1]) >= 214748364 then
      ValueAppend(0, ds[..|ds| - 1], ds[|ds| - 1..]);
      assert ds[..|ds| - 1] + ds[|ds| - 1..] == ds;
      ValueGrows(DigitsValue(0, ds[..|ds| - 1]), ds[|ds| - 1..]);
      Clamp(ds[..|ds| - 1])
    else DigitsValue(0, ds)
  }

  /** Digits behind a prefix that reaches the bound do not count. */
  lemma {:induction false} ClampDrops(a: string, b: string)
    requires AllDigits(a) && AllDigits(b) && DigitsValue(0, a) >= 214748364
    ensures AllDigits(a + b) && Clamp(a + b) == Clamp(a)
    decreases |b|
  {
    if b == "" {
      assert a + b == a;
    } else {
      var front := b[..|b| - 1];
      ClampDrops(a, front);
      ValueAppend(0, a, front);
      ValueGrows(DigitsValue(0, a), front);
      assert (a + b)[..|a + b| - 1] == a + front;
    }
  }

  lemma ClampStops(ds: string, c: char)
    requires AllDigits(ds) && IsDigit(c) && DigitsValue(0, ds) < 214748364
    ensures AllDigits(ds + [c]) && Clamp(ds + [c]) == DigitsValue(0, ds + [c])
  {
    assert (ds + [c])[..|ds|] == ds;
  }

  lemma {:induction false} NegativeExact(t: string, i: nat, e: nat, ds: string)
    requires DigitRun(t, i, e) && AllDigits(ds) && DigitsValue(0, ds) < 214748364
    ensures AllDigits(ds + t[i..e])
    ensures TakeNegativeExponent(t, i, DigitsValue(0, ds)) == (e, Clamp(ds + t[i..e]))
    decreases e - i
  {
    hide Clamp;
    if i == e {
      assert ds + t[i..e] == ds;
    } else {
      var next := ds + [t[i]];
      ClampStops(ds, t[i]);
      ValueAppend(0, ds, [t[i]]);
      assert ds + t[i..e] == next + t[i + 1..e];
      if DigitsValue(0, next) >= 214748364 {
        SkipsRun(t, i + 1, e);
        ClampDrops(next, t[i + 1..e]);
      } else {
        NegativeExact(t, i + 1, e, next);
      }
    }
  }

  /** A positive exponent is refused exactly when it is above the bound. */
  lemma {:induction false} PositiveExact(t: string, i: nat, e: nat, exp: nat, max: int)
    requires DigitRun(t, i, e) && exp <= max
    ensures var x := DigitsValue(exp, t[i..e]);
            TakeExponent(t, i, exp, max) == if x > max then None else Some((e, x))
    decreases e - i
  {
    if i < e {
      var next := exp * 10 + DigitValue(t[i]);
      assert t[i..e][0] == t[i] && t[i..e][1..] == t[i + 1..e];
      if next > max { ValueGrows(next, t[i + 1..e]); }
      else { PositiveExact(t, i + 1, e, next, max); }
    }
  }

  predicate HasExponent(t: string, f: nat) { Peek(t, f) == 'e' || Peek(t, f) == 'E' }

  /** Where the digits of an exponent start: behind the letter and an optional sign. */
  function ExponentStart(t: string, f: nat): nat {
    if Peek(t, f + 1) == '+' || Peek(t, f + 1) == '-' then f + 2 else f + 1
  }

  /** Behind the fraction: nothing, or a letter, an optional sign and at least one digit. */
  ghost predicate ExponentPart(t: string, f: nat, e: nat) {
    if HasExponent(t, f) then ExponentStart(t, f) < e && DigitRun(t, ExponentStart(t, f), e) else e == f
  }

  /** The value of an exponent from its sign and digits. */
  ghost function ExponentValue(negative: bool, ds: string): int
    requires AllDigits(ds)
  {
    if negative then -(Clamp(ds) as int) else DigitsValue(0, ds)
  }

  lemma ExponentExact(t: string, f: nat, e: nat, fraction: int)
    requires HasExponent(t, f) && ExponentPart(t, f, e) && fraction <= 0
    ensures AllDigits(t[ExponentStart(t, f)..e])
    ensures
      var x := ExponentValue(Peek(t, f + 1) == '-', t[ExponentStart(t, f)..e]);
      ExponentDigits(t, f + 1, fraction) == if x > 308 - fraction then None else Some((e, x))
  {
    hide TakeExponent, TakeNegativeExponent, Clamp;
    var j := ExponentStart(t, f);
    assert IsDigit(t[j]);
    assert t[j..e][0] == t[j] && t[j..e][1..] == t[j + 1..e];
    if Peek(t, f + 1) == '-' {
      assert DigitsValue(0, [t[j]]) == DigitValue(t[j]);
      NegativeExact(t, j + 1, e, [t[j]]);
      assert [t[j]] + t[j + 1..e] == t[j..e];
    } else {
      PositiveExact(t, j + 1, e, DigitValue(t[j]), 308 - fraction);
    }
  }

  // ---------------------------------------------------------------------------------------
  // The number
  // ---------------------------------------------------------------------------------------

  /** The parts of a number text: integer digits, fraction digits if any, exponent if any. */
  datatype Exponent = NoExponent | Exponent(letter: char, sign: string, digits: string)

  datatype Parts = Parts(minus: bool, whole: string, fraction: string, exponent: Exponent)

  ghost predicate ValidExponent(x: Exponent) {
    x.Exponent? ==>
      (x.letter == 'e' || x.letter == 'E') && x.sign in {"", "+", "-"} && x.digits != "" && AllDigits(x.digits)
  }

  ghost predicate ValidParts(p: Parts) {
    && p.whole != "" && AllDigits(p.whole) && (p.whole[0] == '0' ==> p.whole == "0")
    && AllDigits(p.fraction) && ValidExponent(p.exponent)
  }

  ghost function PowerOf(x: Exponent): int
    requires ValidExponent(x)
  {
    if x.NoExponent? then 0 else ExponentValue(x.sign == "-", x.digits)
  }

  /**
   What a number means.  With integer digits `a`, fraction digits `b` and exponent `x`: the
   integer itself without fraction and exponent if it fits 64 bits, else the double of the
   digits `a + b[..k]` times ten to the `x - k`, where `k` digits of the fraction count.  A
   number is refused if and only if its integer part is beyond the largest double or its
   exponent is above `308 + k`.
   */
  ghost function Meaning(p: Parts): Option<Event>
    requires ValidParts(p)
  {
    var n, k, x := DigitsValue(0, p.whole), KeptOf(p), PowerOf(p.exponent);
    assert AllDigits(p.whole + p.fraction[..k]);
    if TooBig(n) || x > 308 + k then None
    else if p.fraction == "" && p.exponent.NoExponent? && InRange(p.minus, n) then Some(IntegerEvent(p.minus, n))
    else Some(Double(p.minus, DigitsValue(0, p.whole + p.fraction[..k]) as real, x - k))
  }

  /** The digits of the fraction that count. */
  ghost function KeptOf(p: Parts): nat
    requires ValidParts(p)
  {
    Kept(DigitsValue(0, p.whole), |p.whole| - 1, p.fraction)
  }

  /** Whether more is dropped or not, the same digits count. */
  lemma KeptWhenLong(v: nat, digits: nat, more: nat, ds: string)
    requires AllDigits(ds) && (digits == more || 17 <= digits <= more)
    ensures Kept(v, digits, ds) == Kept(v, more, ds)
  {
  }

  ghost function ExponentAt(t: string, f: nat, e: nat): (x: Exponent)
    requires f <= |t| && ExponentPart(t, f, e)
    ensures ValidExponent(x)
  {
    if e == f then NoExponent
    else
      var sign := if Peek(t, f + 1) == '+' then "+" else if Peek(t, f + 1) == '-' then "-" else "";
      Exponent(t[f], sign, t[ExponentStart(t, f)..e])
  }

  /** The parts of the number text between the given positions. */
  ghost function PartsAt(t: string, i: nat, m: nat, f: nat, e: nat): (p: Parts)
    requires i < |t| && IntegerPart(t, if t[i] == '-' then i + 1 else i, m) && FractionPart(t, m, f) && ExponentPart(t, f, e)
    ensures ValidParts(p)
  {
    var s := if t[i] == '-' then i + 1 else i;
    PartDigits(t, s, m);
    if f == m then Parts(t[i] == '-', t[s..m], "", ExponentAt(t, f, e))
    else
      RunDigits(t, m + 1, f, f);
      Parts(t[i] == '-', t[s..m], t[m + 1..f], ExponentAt(t, f, e))
  }

  /** The fraction, if there is one. */
  lemma FractionStage(t: string, m: nat, f: nat, n: Number, v: nat)
    requires FractionPart(t, m, f) && n.pos == m <= |t| && n.fraction == 0 && Enough(v, n.digits)
    requires if n.isDouble then n.significand == v as real else n.integer == v
    ensures
      var r, b := ParseFraction(t, n), if f == m then "" else t[m + 1..f];
      && AllDigits(b) && r.Some?
      && (if f == m then r.value == n else FractionDone(r.value, f, v, 0, b, Kept(v, n.digits, b)))
  {
    hide Kept, Enough;
    if f != m { FractionExact(t, m, f, n, v); }
  }

  /** A number as it stands before its exponent is read. */
  ghost predicate ReadTo(r: Number, p: Parts, f: nat)
    requires ValidParts(p)
  {
    var n, k := DigitsValue(0, p.whole), KeptOf(p);
    && r.pos == f && r.fraction == -(k as int) && AllDigits(p.whole + p.fraction[..k])
    && (r.isDouble <==> p.fraction != "" || !InRange(p.minus, n))
    && (r.isDouble ==> r.significand == DigitsValue(0, p.whole + p.fraction[..k]) as real)
    && (!r.isDouble ==> r.integer == n && (r.wide <==> !InRange32(p.minus, n)))
  }

  lemma BeforeExponent(t: string, i: nat, m: nat, f: nat, e: nat)
    requires i < |t| && IntegerPart(t, if t[i] == '-' then i + 1 else i, m) && FractionPart(t, m, f) && ExponentPart(t, f, e)
    ensures
      var p := PartsAt(t, i, m, f, e);
      var n := ParseInteger(t, if t[i] == '-' then i + 1 else i, t[i] == '-');
      if TooBig(DigitsValue(0, p.whole)) then n.None?
      else n.Some? && ParseFraction(t, n.value).Some? && ReadTo(ParseFraction(t, n.value).value, p, f)
  {
    hide ParseInteger, ParseFraction, TooBig, Kept, Enough, ExponentAt, InRange, InRange32;
    var minus, s := t[i] == '-', if t[i] == '-' then i + 1 else i;
    var p := PartsAt(t, i, m, f, e);
    IntegerExact(t, s, m, minus);
    var n := ParseInteger(t, s, minus);
    if n.Some? {
      FractionStage(t, m, f, n.value, DigitsValue(0, p.whole));
      KeptWhenLong(DigitsValue(0, p.whole), n.value.digits, |p.whole| - 1, p.fraction);
      ValueAppend(0, p.whole, p.fraction[..KeptOf(p)]);
    }
  }

  lemma ExponentStage(t: string, f: nat, e: nat, minus: bool, n: Number)
    requires ExponentPart(t, f, e) && n.pos == f <= |t| && n.fraction <= 0
    ensures
      var x := PowerOf(ExponentAt(t, f, e));
      ParseExponent(t, minus, n) ==
        if e == f then Finish(minus, n, e, 0)
        else if x > 308 - n.fraction then Bad
        else Good(e, Double(minus, if n.isDouble then n.significand else n.integer as real, x + n.fraction))
  {
    hide ExponentDigits, ExponentValue;
    if e != f { ExponentExact(t, f, e, n.fraction); }
  }

  /** The event of a number that is read to its end. */
  lemma FinishedMeans(r: Number, p: Parts, f: nat, e: nat)
    requires ValidParts(p) && ReadTo(r, p, f) && !TooBig(DigitsValue(0, p.whole))
    ensures p.exponent.NoExponent? ==> Meaning(p).Some? && Finish(p.minus, r, e, 0) == Good(e, Meaning(p).value)
    ensures
      var x := PowerOf(p.exponent);
      p.exponent.Exponent? ==>
        Meaning(p) ==
          if x > 308 - r.fraction then None
          else Some(Double(p.minus, if r.isDouble then r.significand else r.integer as real, x + r.fraction))
  {
    hide TooBig, Kept, PowerOf;
    assert p.exponent.NoExponent? ==> PowerOf(p.exponent) == 0 by { PowerOfNone(p.exponent); }
    if p.fraction == "" { assert p.whole + p.fraction[..KeptOf(p)] == p.whole; }
  }

  lemma PowerOfNone(x: Exponent)
    requires ValidExponent(x)
    ensures x.NoExponent? ==> PowerOf(x) == 0
  {
  }

  /** Every number text: the reader stops behind it and reports what it means, or refuses it. */
  lemma NumbersAreExact(t: string, i: nat, m: nat, f: nat, e: nat)
    requires i < |t| && IntegerPart(t, if t[i] == '-' then i + 1 else i, m) && FractionPart(t, m, f) && ExponentPart(t, f, e)
    ensures
      var meaning := Meaning(PartsAt(t, i, m, f, e));
      ParseNumber(t, i) == if meaning.None? then Bad else Good(e, meaning.value)
  {
    hide ParseInteger, ParseFraction, ParseExponent, TooBig, KeptOf, PowerOf, ReadTo, Finish;
    var minus, s := t[i] == '-', if t[i] == '-' then i + 1 else i;
    var p := PartsAt(t, i, m, f, e);
    BeforeExponent(t, i, m, f, e);
    var n := ParseInteger(t, s, minus);
    if n.Some? {
      var r := ParseFraction(t, n.value).value;
      FinishedMeans(r, p, f, e);
      assert r.pos == f && r.fraction <= 0 by { ReadToEnds(r, p, f); }
      ExponentStage(t, f, e, minus, r);
    }
  }

  lemma ReadToEnds(r: Number, p: Parts, f: nat)
    requires ValidParts(p) && ReadTo(r, p, f)
    ensures r.pos == f && r.fraction <= 0
  {
  }

  /** A value of so many significant digits is that large. */
  lemma {:induction false} WholeIsEnough(a: string, v: nat, digits: nat)
    requires AllDigits(a) && v >= Tens(digits)
    ensures DigitsValue(v, a) >= Tens(digits + |a|)
    decreases |a|
  {
    if a != "" { WholeIsEnough(a[1..], v * 10 + DigitValue(a[0]), digits + 1); }
  }

  lemma PartsAreEnough(p: Parts)
    requires ValidParts(p)
    ensures Enough(DigitsValue(0, p.whole), |p.whole| - 1)
  {
    if |p.whole| > 1 {
      assert p.whole[0] != '0';
      assert Tens(0) == 1;
      WholeIsEnough(p.whole[1..], DigitValue(p.whole[0]), 0);
      TensGrow(|p.whole| - 2, |p.whole| - 1);
    }
  }

  /** All digits count in a number of which they make less than 10^16. */
  lemma SmallKeepsAll(p: Parts)
    requires ValidParts(p)
    ensures AllDigits(p.whole + p.fraction)
    ensures DigitsValue(0, p.whole + p.fraction) < 1_0000_0000_0000_0000 ==> KeptOf(p) == |p.fraction|
  {
    hide Enough;
    var n, k := DigitsValue(0, p.whole), KeptOf(p);
    PartsAreEnough(p);
    DroppedIsFine(n, |p.whole| - 1, p.fraction);
    ValueAppend(0, p.whole, p.fraction);
    ValueAppend(n, p.fraction[..k], p.fraction[k..]);
    assert p.fraction[..k] + p.fraction[k..] == p.fraction;
    ValueGrows(DigitsValue(n, p.fraction[..k]), p.fraction[k..]);
  }

  /**
   Below 10^16 the double is the decimal of the text: a number with fraction digits or an
   exponent gives the value of all its digits and the exponent less the length of the fraction.
   */
  lemma DecimalsAreExact(t: string, i: nat, m: nat, f: nat, e: nat)
    requires i < |t| && IntegerPart(t, if t[i] == '-' then i + 1 else i, m) && FractionPart(t, m, f) && ExponentPart(t, f, e)
    requires e != m
    ensures
      var p := PartsAt(t, i, m, f, e);
      && AllDigits(p.whole + p.fraction)
      && var v, x := DigitsValue(0, p.whole + p.fraction), PowerOf(p.exponent) - |p.fraction|;
         v < 1_0000_0000_0000_0000 ==>
           ParseNumber(t, i) == if x > 308 then Bad else Good(e, Double(p.minus, v as real, x))
  {
    hide ParseNumber, TooBig, KeptOf, PowerOf;
    var p := PartsAt(t, i, m, f, e);
    NumbersAreExact(t, i, m, f, e);
    SmallKeepsAll(p);
    var v := DigitsValue(0, p.whole + p.fraction);
    if v < 1_0000_0000_0000_0000 {
      assert p.fraction[..|p.fraction|] == p.fraction;
      ValueAppend(0, p.whole, p.fraction);
      ValueGrows(DigitsValue(0, p.whole), p.fraction);
      SmallIsNotTooBig(DigitsValue(0, p.whole));
    }
  }

  // ---------------------------------------------------------------------------------------
  // Nothing else is read as a number
  // ---------------------------------------------------------------------------------------

  lemma {:induction false} RunEnds(t: string, i: nat)
    requires i <= |t|
    ensures DigitRun(t, i, SkipDigits(t, i))
    decreases |t| - i
  {
    if IsDigit(Peek(t, i)) { RunEnds(t, i + 1); }
  }

  lemma StartsWithDigit(t: string, i: nat, minus: bool)
    requires i <= |t| && ParseInteger(t, i, minus).Some?
    ensures IsDigit(Peek(t, i))
  {
  }

  lemma PointNeedsDigit(t: string, n: Number)
    requires n.pos <= |t| && Peek(t, n.pos) == '.' && ParseFraction(t, n).Some?
    ensures IsDigit(Peek(t, n.pos + 1))
  {
  }

  lemma ExponentNeedsDigit(t: string, minus: bool, n: Number)
    requires n.pos <= |t| && HasExponent(t, n.pos) && ParseExponent(t, minus, n).Good?
    ensures IsDigit(Peek(t, ExponentStart(t, n.pos)))
  {
  }

  /** What is read as a number is a number text, up to where the reader stops. */
  lemma OnlyNumbersAreRead(t: string, i: nat) returns (m: nat, f: nat)
    requires i <= |t| && ParseNumber(t, i).Good?
    ensures i < |t| && IntegerPart(t, if t[i] == '-' then i + 1 else i, m)
    ensures FractionPart(t, m, f) && ExponentPart(t, f, ParseNumber(t, i).pos)
  {
    hide ParseInteger, ParseFraction, ParseExponent, TooBig, InRange, InRange32, Enough, Kept, ExponentValue;
    var minus := Peek(t, i) == '-';
    var s := if minus then i + 1 else i;
    assert IsDigit(Peek(t, s)) by { StartsWithDigit(t, s, minus); }
    RunEnds(t, s);
    m := if t[s] == '0' then s + 1 else SkipDigits(t, s);
    IntegerExact(t, s, m, minus);
    var n := ParseInteger(t, s, minus).value;
    f := m;
    if Peek(t, m) == '.' {
      PointNeedsDigit(t, n);
      RunEnds(t, m + 1);
      f := SkipDigits(t, m + 1);
    }
    FractionStage(t, m, f, n, DigitsValue(0, t[s..m]));
    var r, e := ParseFraction(t, n).value, f;
    if HasExponent(t, f) {
      ExponentNeedsDigit(t, minus, r);
      RunEnds(t, ExponentStart(t, f));
      e := SkipDigits(t, ExponentStart(t, f));
    }
    ExponentStage(t, f, e, minus, r);
  }
}
