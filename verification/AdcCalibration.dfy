/** Two-point calibration of the battery channel: the solver in adc_cal_factory_calibrate against the
    formula adc_cal_apply_vbat applies. */
module AdcCalibration {
  import opened Bitwise
  import opened CalRecord

  /** C division, which truncates toward zero. */
  function Quot(a: int, b: int): int
    requires b != 0
  {
    var n, d := if b < 0 then -a else a, if b < 0 then -b else b;
    if n >= 0 then n / d else -(-n / d)
  }

  /** A value stored to int32_t on the two's-complement target. */
  function Int32(x: int): int { (x + 0x8000_0000) % 0x1_0000_0000 - 0x8000_0000 }

  /** The conversion of a raw reading to millivolts, on 32-bit unsigned long. */
  function Millivolts(raw: nat): nat { (raw * 3249700 + 500) % 0x1_0000_0000 / 1000000 }

  /** The product outgrows 32 bits from a reading of 1322, about 4296 mV, on: below that the conversion is
      what adc_calibration.h gives it as, and at or above it never is. */
  lemma MillivoltsExactly(raw: nat)
    requires raw <= 0xFFFF
    ensures Millivolts(raw) == (raw * 3249700 + 500) / 1000000 <==> raw <= 1321
  {
  }

  /** What it is instead: the product less the multiples of 2^32 it has outgrown, in millionths rounded down. */
  lemma MillivoltsWrapped(raw: nat) returns (wraps: nat)
    ensures var product := raw * 3249700 + 500 - wraps * 0x1_0000_0000;
            0 <= product < 0x1_0000_0000 && 1000000 * Millivolts(raw) <= product < 1000000 * (Millivolts(raw) + 1)
    ensures wraps == 0 <==> raw <= 1321
  {
    wraps := (raw * 3249700 + 500) / 0x1_0000_0000;
  }

  /** Truncation: what is left over is smaller than the divisor and has the sign of the dividend. */
  lemma QuotTruncates(a: int, b: int)
    requires b != 0
    ensures var rest := a - Quot(a, b) * b;
            && (if b > 0 then -b < rest < b else b < rest < -b)
            && (a >= 0 ==> rest >= 0) && (a <= 0 ==> rest <= 0)
  {
    hide Quot;
    if b > 0 {
      TruncatesUp(a, b);
    } else {
      TruncatesUp(-a, -b);
      NegateBoth(a, b);
      Signs(Quot(a, b), b);
    }
  }

  lemma NegateBoth(a: int, b: int)
    requires b < 0
    ensures Quot(a, b) == Quot(-a, -b)
  {
  }

  lemma TruncatesUp(a: int, b: int)
    requires b > 0
    ensures var rest := a - Quot(a, b) * b;
            -b < rest < b && (a >= 0 ==> rest >= 0) && (a <= 0 ==> rest <= 0)
  {
    if a >= 0 {
      DivRest(a, b);
    } else {
      DivRest(-a, b);
      Signs(-a / b, b);
    }
  }

  lemma DivRest(n: nat, d: nat)
    requires d > 0
    ensures 0 <= n - n / d * d < d
  {
    assert n == n / d * d + n % d;
  }

  lemma Signs(q: int, b: int)
    ensures q * -b == -(q * b) && -q * b == -(q * b)
  {
  }

  lemma Int32Wraps(x: int) returns (wraps: int)
    ensures Int32(x) == x - wraps * 0x1_0000_0000 && -0x8000_0000 <= Int32(x) < 0x8000_0000
    ensures wraps == 0 <==> -0x8000_0000 <= x < 0x8000_0000
  {
    wraps := (x + 0x8000_0000) / 0x1_0000_0000;
  }

  /** The two-point solution, before the sanity checks. */
  function Solve(vLow: nat, vHigh: nat, mLow: nat, mHigh: nat): (c: Coeffs)
    requires mLow != mHigh
  {
    var gain := Quot((vHigh - vLow) * 1000, mHigh - mLow);
    Coeffs(vLow - Quot(Int32(mLow * gain), 1000), gain)
  }

  predicate Sane(c: Coeffs) { 900 <= c.gain <= 1100 && -200 <= c.offset <= 200 }

  predicate References(vLow: nat, vHigh: nat) { 2800 <= vLow < vHigh <= 4500 }

  /** adc_cal_apply_vbat with calibration loaded. */
  function Apply(raw: nat, c: Coeffs): (r: nat)
    ensures r <= 65535
  {
    var x := Quot(Int32(Int32(raw + c.offset) * c.gain), 1000);
    if x < 0 then 0 else if x > 65535 then 65535 else x
  }

  /** The solution as two truncated quotients: the gain of the references' distance to the readings', in thousandths,
      and what the low reference is above the low reading so amplified, in 32-bit arithmetic. */
  lemma SolveMeans(vLow: nat, vHigh: nat, mLow: nat, mHigh: nat) returns (wraps: int)
    requires mLow != mHigh
    ensures var c := Solve(vLow, vHigh, mLow, mHigh);
            var rest, d := (vHigh - vLow) * 1000 - c.gain * (mHigh - mLow), mHigh - mLow;
            && (if d > 0 then -d < rest < d else d < rest < -d)
            && (vHigh >= vLow ==> rest >= 0) && (vHigh <= vLow ==> rest <= 0)
    ensures var c := Solve(vLow, vHigh, mLow, mHigh);
            var product := mLow * c.gain - wraps * 0x1_0000_0000;
            var rest := product - 1000 * (vLow - c.offset);
            && -0x8000_0000 <= product < 0x8000_0000 && -1000 < rest < 1000
            && (product >= 0 ==> rest >= 0) && (product <= 0 ==> rest <= 0)
  {
    hide Quot, Int32;
    var gain := Quot((vHigh - vLow) * 1000, mHigh - mLow);
    QuotTruncates((vHigh - vLow) * 1000, mHigh - mLow);
    wraps := Int32Wraps(mLow * gain);
    QuotTruncates(Int32(mLow * gain), 1000);
  }

  /** cal_state, and the flash sector with the record. */
  class Calibration {
    var coeffs: Coeffs
    var tempOffset: int
    var tempGain: int
    var calibrated: bool
    var loaded: bool
    var flash: seq<byte>

    predicate Valid()
      reads this
    {
      |flash| == SIZE
    }

    /** Static storage is zero; flash holds what it held. */
    constructor (found: seq<byte>)
      requires |found| == SIZE
      ensures Valid() && !loaded && !calibrated && flash == found
    {
      coeffs, tempOffset, tempGain, calibrated, loaded := Coeffs(0, 0), 0, 0, false, false;
      flash := found;
    }

    /** adc_cal_init. */
    method Init()
      requires Valid()
      modifies this
      ensures Valid() && flash == old(flash)
      ensures loaded && calibrated == Accepted(flash)
      ensures coeffs == if Accepted(flash) then CoeffsAt(flash) else Coeffs(0, 1000)
      ensures tempOffset == (if Accepted(flash) then TempOffsetAt(flash) else 0)
      ensures tempGain == (if Accepted(flash) then TempGainAt(flash) else 1000)
    {
      var sum := ComputeChecksum(flash);
      if Unsigned(flash[0..2]) == MAGIC && flash[2] == 1 && flash[20] == sum && flash[12] != 0 {
        coeffs, tempOffset, tempGain := CoeffsAt(flash), TempOffsetAt(flash), TempGainAt(flash);
        calibrated := true;
      } else {
        coeffs, tempOffset, tempGain := NOMINAL, 0, 1000;
        calibrated := false;
      }
      loaded := true;
    }

    /** adc_cal_factory_calibrate, given the two averaged readings, the time, and what flash holds after
        programming. The coefficients are in force even if that is not the record. */
    method FactoryCalibrate(vLow: nat, vHigh: nat, rawLow: nat, rawHigh: nat, stamp: nat, programmed: seq<byte>)
      returns (ret: int)
      requires Valid() && |programmed| == SIZE
      modifies this
      ensures Valid()
      ensures var mLow, mHigh, good := Millivolts(rawLow), Millivolts(rawHigh), 2800 <= vLow < vHigh <= 4500;
              && (ret == -1 <==> !good)
              && (ret == -2 <==> good && mLow == mHigh)
              && (ret == -3 <==> good && mLow != mHigh && !(900 <= Solve(vLow, vHigh, mLow, mHigh).gain <= 1100))
              && (ret == -4 <==>
                    && good && mLow != mHigh && 900 <= Solve(vLow, vHigh, mLow, mHigh).gain <= 1100
                    && !(-200 <= Solve(vLow, vHigh, mLow, mHigh).offset <= 200))
              && -5 <= ret <= 0
              && (ret == 0 || ret == -5 ==>
                    && coeffs == Solve(vLow, vHigh, mLow, mHigh) && Sane(coeffs)
                    && calibrated && tempOffset == 0 && tempGain == 1000 && flash == programmed
                    && (ret == 0 <==> flash == Written(coeffs, stamp)))
      ensures ret in {-1, -2, -3, -4} ==>
                && coeffs == old(coeffs) && tempOffset == old(tempOffset) && tempGain == old(tempGain)
                && calibrated == old(calibrated) && flash == old(flash)
      ensures loaded == old(loaded)
    {
      hide Millivolts, Record, Written;
      if vLow < 2800 || vLow > 4500 {
        return -1;
      }
      if vHigh < 2800 || vHigh > 4500 {
        return -1;
      }
      if vHigh <= vLow {
        return -1;
      }
      var measuredLow := Millivolts(rawLow);
      var measuredHigh := Millivolts(rawHigh);
      if measuredHigh == measuredLow {
        return -2;
      }
      var gain := Quot((vHigh - vLow) * 1000, measuredHigh - measuredLow);
      var offset := vLow - Quot(Int32(measuredLow * gain), 1000);
      if gain < 900 || gain > 1100 {
        return -3;
      }
      if offset < -200 || offset > 200 {
        return -4;
      }
      coeffs, tempOffset, tempGain, calibrated := Coeffs(offset, gain), 0, 1000, true;
      var record := BuildRecord(coeffs, stamp);
      flash := programmed;
      if flash != record {
        return -5;
      }
      return 0;
    }

    /** The record with the checksum over itself, the checksum field still zero. */
    static method BuildRecord(c: Coeffs, stamp: nat) returns (record: seq<byte>)
      ensures record == Written(c, stamp)
    {
      record := Record(c, stamp, 0);
      var sum := ComputeChecksum(record);
      record := record[20 := sum];
    }

    /** adc_cal_apply_vbat. */
    method ApplyVbat(raw: nat) returns (r: nat)
      requires raw <= 0xFFFF
      ensures r == if loaded then Apply(raw, coeffs) else raw
    {
      if !loaded {
        return raw;
      }
      var x := Int32(raw + coeffs.offset);
      x := Quot(Int32(x * coeffs.gain), 1000);
      if x < 0 {
        x := 0;
      }
      if x > 65535 {
        x := 65535;
      }
      return x;
    }
  }

  // ----- the solver against the formula

  lemma ProductBound(a: int, b: int, x: int, y: int)
    requires -x <= a <= x && -y <= b <= y
    ensures -x * y <= a * b <= x * y
  {
    assert (x - a) * (y + b) >= 0 && (x + a) * (y - b) >= 0;
    assert (x - a) * (y - b) >= 0 && (x + a) * (y + b) >= 0;
    assert (x - a) * (y + b) == x * y + x * b - a * y - a * b;
    assert (x + a) * (y - b) == x * y - x * b + a * y - a * b;
    assert (x - a) * (y - b) == x * y - x * b - a * y + a * b;
    assert (x + a) * (y + b) == x * y + x * b + a * y + a * b;
  }

  /** What accepted coefficients say about the readings they came from. */
  predicate Solved(vLow: nat, vHigh: nat, mLow: nat, mHigh: nat) {
    && References(vLow, vHigh) && mLow <= 0xFFFF && mHigh <= 0xFFFF
    && mLow != mHigh && Sane(Solve(vLow, vHigh, mLow, mHigh))
  }

  /** Accepted coefficients were computed without 32-bit overflow, from readings in the right order. */
  lemma AcceptedFacts(vLow: nat, vHigh: nat, mLow: nat, mHigh: nat)
    requires Solved(vLow, vHigh, mLow, mHigh)
    ensures var c := Solve(vLow, vHigh, mLow, mHigh);
            && 0 <= mLow * c.gain < 0x8000_0000
            && vLow == c.offset + mLow * c.gain / 1000
            && mHigh > mLow
            && c.gain * (mHigh - mLow) <= 1000 * (vHigh - vLow) < (c.gain + 1) * (mHigh - mLow)
            && mHigh - mLow <= 1888
  {
    hide Quot, Int32;
    var c := Solve(vLow, vHigh, mLow, mHigh);
    GainFacts((vHigh - vLow) * 1000, mHigh - mLow);
    NoWrap(mLow, c.gain);
    Spread(mHigh - mLow, c.gain, vHigh - vLow);
  }

  lemma GainFacts(n: int, d: int)
    requires n > 0 && d != 0 && Quot(n, d) >= 900
    ensures var g := Quot(n, d);
            d > 0 && g == n / d && g * d <= n < (g + 1) * d
  {
    if d > 0 { assert n == n / d * d + n % d; }
  }

  lemma NoWrap(m: nat, g: int)
    requires m <= 0xFFFF && 900 <= g <= 1100
    ensures 0 <= m * g < 0x8000_0000
    ensures Int32(m * g) == m * g && Quot(m * g, 1000) == m * g / 1000
  {
    assert m * (1100 - g) >= 0 && m * g >= 0;
    assert m * g <= m * 1100;
  }

  lemma Spread(d: int, g: int, v: int)
    requires d > 0 && g >= 900 && g * d <= 1000 * v && v <= 1700
    ensures d <= 1888
  {
    assert (g - 900) * d >= 0;
  }

  /** Applying sane coefficients never overflows: neither the sum nor the product leaves 32 bits. */
  lemma ApplyNeverOverflows(raw: nat, c: Coeffs)
    requires raw <= 0xFFFF && Sane(c)
    ensures -0x8000_0000 <= (raw + c.offset) * c.gain < 0x8000_0000
    ensures Apply(raw, c) == (var x := Quot((raw + c.offset) * c.gain, 1000);
                              if x < 0 then 0 else if x > 65535 then 65535 else x)
  {
    ProductBound(raw + c.offset, c.gain, 65735, 1100);
  }

  /** With any coefficients a record can hold: thousandths of the product, wrapped to 32 bits, rounded down between 0
      and 65535 and clamped outside. */
  lemma ApplyAny(raw: nat, c: Coeffs) returns (wraps: int)
    requires raw <= 0xFFFF && -0x8000 <= c.offset < 0x8000 && 0 <= c.gain < 0x1_0000
    ensures var product := (raw + c.offset) * c.gain - wraps * 0x1_0000_0000;
            && -0x8000_0000 <= product < 0x8000_0000
            && (product < 1000 ==> Apply(raw, c) == 0)
            && (product >= 65535000 ==> Apply(raw, c) == 65535)
            && (0 <= product < 65536000 ==> 1000 * Apply(raw, c) <= product < 1000 * (Apply(raw, c) + 1))
  {
    hide Int32, Quot;
    var w := Int32Wraps(raw + c.offset);
    wraps := Int32Wraps((raw + c.offset) * c.gain);
    QuotTruncates(Int32((raw + c.offset) * c.gain), 1000);
  }

  /** The solver assumes measured * gain + offset, the firmware applies (measured + offset) * gain. At the low
      reference that leaves exactly this error, so the reference comes back exactly when the error term is
      below one millivolt and not negative; it is never off by more than 20 mV. */
  lemma LowReference(vLow: nat, vHigh: nat, mLow: nat, mHigh: nat)
    requires Solved(vLow, vHigh, mLow, mHigh)
    ensures var c := Solve(vLow, vHigh, mLow, mHigh);
            var excess := mLow * c.gain % 1000 + c.offset * (c.gain - 1000);
            && Apply(mLow, c) == vLow + excess / 1000
            && (Apply(mLow, c) == vLow <==> 0 <= excess < 1000)
            && vLow - 20 <= Apply(mLow, c) <= vLow + 20
  {
    var c := Solve(vLow, vHigh, mLow, mHigh);
    AcceptedFacts(vLow, vHigh, mLow, mHigh);
    ApplyNeverOverflows(mLow, c);
    ApplyError(mLow, c, vLow);
  }

  /** At the high reference the truncated gain adds less than 2 mV more: never off by more than 22 mV. */
  lemma HighReference(vLow: nat, vHigh: nat, mLow: nat, mHigh: nat)
    requires Solved(vLow, vHigh, mLow, mHigh)
    ensures var c := Solve(vLow, vHigh, mLow, mHigh);
            vHigh - 22 <= Apply(mHigh, c) <= vHigh + 20
  {
    hide Quot, Int32, Solve;
    var c := Solve(vLow, vHigh, mLow, mHigh);
    var d := mHigh - mLow;
    AcceptedFacts(vLow, vHigh, mLow, mHigh);
    ApplyNeverOverflows(mHigh, c);
    assert (c.gain + 1) * d == c.gain * d + d;
    assert mHigh * c.gain == mLow * c.gain + c.gain * d;
    ProductBound(c.offset, c.gain - 1000, 200, 100);
    var e := mLow * c.gain % 1000 + c.offset * (c.gain - 1000) - (1000 * (vHigh - vLow) - c.gain * d);
    assert (mHigh + c.offset) * c.gain == mHigh * c.gain + c.offset * c.gain;
    assert c.offset * (c.gain - 1000) == c.offset * c.gain - 1000 * c.offset;
    assert (mHigh + c.offset) * c.gain == 1000 * vHigh + e;
    QuotNear(vHigh, e);
  }

  lemma QuotNear(v: nat, e: int)
    requires v >= 2800 && -21888 <= e <= 20999
    ensures v - 22 <= Quot(1000 * v + e, 1000) <= v + 20
  {
  }

  lemma ApplyError(m: nat, c: Coeffs, v: int)
    requires Sane(c) && m <= 0xFFFF && v == c.offset + m * c.gain / 1000 && 2800 <= v <= 4500
    ensures var excess := m * c.gain % 1000 + c.offset * (c.gain - 1000);
            Quot((m + c.offset) * c.gain, 1000) == v + excess / 1000 && -20 <= excess / 1000 <= 20
  {
    ProductBound(c.offset, c.gain - 1000, 200, 100);
    var excess := m * c.gain % 1000 + c.offset * (c.gain - 1000);
    assert (m + c.offset) * c.gain == m * c.gain + c.offset * c.gain;
    assert c.offset * (c.gain - 1000) == c.offset * c.gain - 1000 * c.offset;
    assert (m + c.offset) * c.gain == 1000 * v + excess;
  }
}
