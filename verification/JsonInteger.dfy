/**
 Integers are read exactly: the staged accumulators of the JSON reader deliver the value of
 an integer text as an integer event if and only if it fits 64 bits.
 */
module JsonInteger {
  import opened JsonScalars

  /** The value of digits read after an accumulator. */
  ghost function DigitsValue(acc: nat, ds: string): nat
    requires forall k | 0 <= k < |ds| :: IsDigit(ds[k])
    decreases |ds|
  {
    if ds == "" then acc else DigitsValue(acc * 10 + DigitValue(ds[0]), ds[1..])
  }

  /** The digits of `t` from `i` on stop at `e`. */
  ghost predicate DigitRun(t: string, i: nat, e: nat) {
    i <= e <= |t| && (forall k | i <= k < e :: IsDigit(t[k])) && !IsDigit(Peek(t, e))
  }

  /** The largest value an accumulator with this limit takes in. */
  function Max(limit: nat, last: char): nat
    requires IsDigit(last)
  {
    limit * 10 + DigitValue(last)
  }

  lemma {:induction false} ValueGrows(acc: nat, ds: string)
    requires forall k | 0 <= k < |ds| :: IsDigit(ds[k])
    ensures DigitsValue(acc, ds) >= acc
    decreases |ds|
  {
    if ds != "" { ValueGrows(acc * 10 + DigitValue(ds[0]), ds[1..]); }
  }

  /** The accumulator is full exactly when the whole run of digits is too large for it. */
  lemma {:induction false} DigitsExact(t: string, i: nat, e: nat, acc: nat, count: nat, limit: nat, last: char)
    requires DigitRun(t, i, e) && IsDigit(last) && acc <= Max(limit, last)
    ensures
      var r := TakeDigits(t, i, acc, count, limit, last);
      && i <= r.pos <= e && r.acc <= Max(limit, last)
      && (r.full <==> DigitsValue(acc, t[i..e]) > Max(limit, last))
      && (!r.full ==> r.pos == e && r.acc == DigitsValue(acc, t[i..e]))
      && (r.full ==> DigitsValue(r.acc, t[r.pos..e]) == DigitsValue(acc, t[i..e]))
    decreases e - i
  {
    if i < e {
      var c := t[i];
      var next := acc * 10 + DigitValue(c);
      assert t[i..e][0] == c && t[i..e][1..] == t[i + 1..e];
      assert (acc >= limit && (acc != limit || c > last)) <==> next > Max(limit, last);
      if next > Max(limit, last) { ValueGrows(next, t[i + 1..e]); }
      else { DigitsExact(t, i + 1, e, next, count + 1, limit, last); }
    }
  }

  predicate InRange(minus: bool, n: nat) {
    n <= if minus then 0x8000_0000_0000_0000 else 0xFFFF_FFFF_FFFF_FFFF
  }

  predicate InRange32(minus: bool, n: nat) {
    n <= if minus then 0x8000_0000 else 0xFFFF_FFFF
  }

  /** The integer event for a sign and a magnitude. */
  function IntegerEvent(minus: bool, n: nat): Event {
    if InRange32(minus, n) then if minus then Int(-(n as int)) else Uint(n)
    else if minus then Int64(-(n as int)) else Uint64(n)
  }

  /** At `i` stand the digits of an integer: a zero alone, or a run that starts with 1-9. */
  ghost predicate IntegerText(t: string, i: nat, e: nat) {
    && i < e && DigitRun(t, i, e)
    && (t[i] == '0' ==> e == i + 1)
  }

  /** The integer stage ends as an integer exactly for values of 64 bits, and then holds the value. */
  lemma IntegerStage(t: string, i: nat, e: nat, minus: bool)
    requires IntegerText(t, i, e)
    ensures
      var r, n := ParseInteger(t, i, minus), DigitsValue(0, t[i..e]);
      && (InRange(minus, n) ==>
            && r.Some? && r.value.pos == e && !r.value.isDouble && r.value.integer == n
            && (r.value.wide <==> !InRange32(minus, n)))
      && (!InRange(minus, n) ==> r.None? || r.value.isDouble)
  {
    hide TakeBig;
    var n := DigitsValue(0, t[i..e]);
    assert t[i..e][0] == t[i] && t[i..e][1..] == t[i + 1..e];
    assert n == DigitsValue(DigitValue(t[i]), t[i + 1..e]);
    if t[i] == '0' {
      assert t[i + 1..e] == "";
    } else {
      var (l32, d32) := Limit32(minus);
      var (l64, d64) := Limit64(minus);
      DigitsExact(t, i + 1, e, DigitValue(t[i]), 0, l32, d32);
      var a := TakeDigits(t, i + 1, DigitValue(t[i]), 0, l32, d32);
      if a.full { DigitsExact(t, a.pos, e, a.acc, a.count, l64, d64); }
    }
  }

  /**
   For every integer text without fraction or exponent: the exact signed value arrives as an
   integer event if and only if it lies in [-2^63, 2^64 - 1].
   */
  lemma IntegersAreExact(t: string, i: nat, minus: bool, e: nat)
    requires i < |t| && (minus <==> t[i] == '-')
    requires IntegerText(t, if minus then i + 1 else i, e)
    requires Peek(t, e) != '.' && Peek(t, e) != 'e' && Peek(t, e) != 'E'
    ensures
      var r, n := ParseNumber(t, i), DigitsValue(0, t[if minus then i + 1 else i..e]);
      && (InRange(minus, n) ==> r == Good(e, IntegerEvent(minus, n)))
      && (!InRange(minus, n) ==> r.Bad? || r.event.Double?)
  {
    hide ParseInteger;
    IntegerStage(t, if minus then i + 1 else i, e, minus);
  }
}
