/** Frequency synthesis and receive gain of the LMS7002M driver. */
module Pll {

  const FREQ_MIN := 100000
  const FREQ_MAX := 3800000000
  const VCO_MIN := 1880000000
  const VCO_MAX := 5800000000
  const REF := 30720000
  const ONE: nat := 0x100_0000
  const HALF: nat := 0x80_0000

  datatype Result = Invalid | Params(nint: nat, nfrac: nat, div: nat)

  predicate InVcoRange(vco: nat) { VCO_MIN <= vco <= VCO_MAX }

  /** The first of div, 2 div, ... up to 32 that puts the VCO in range, or 0. */
  function Divider(freq: nat, div: nat): nat
    requires div > 0
    decreases 64 - div
  {
    if div > 32 then 0 else if InVcoRange(freq * div) then div else Divider(freq, 2 * div)
  }

  function Ratio(vco: nat, ref: nat): nat
    requires ref > 0
  {
    vco * ONE / ref
  }

  function Clamp(nfrac: nat): nat { if nfrac > HALF - 1 then HALF - 1 else nfrac }

  /** lms7002m_calculate_pll_params, with the truncation of the integer part to 32 bits. */
  function Calculate(freq: nat, ref: nat): Result {
    if freq < FREQ_MIN || freq > FREQ_MAX || ref == 0 then Invalid
    else
      var div := Divider(freq, 1);
      if div == 0 then Invalid
      else
        var ratio := Ratio(freq * div, ref);
        var nint := ratio / ONE % 0x1_0000_0000;
        if nint < 1 || nint > 255 then Invalid else Params(nint, Clamp(ratio % ONE), div)
  }

  method CalculatePllParams(freq: nat, ref: nat) returns (r: Result)
    ensures r == Calculate(freq, ref)
  {
    if freq < FREQ_MIN || freq > FREQ_MAX {
      return Invalid;
    }
    if ref == 0 {
      return Invalid;
    }
    var divOut, div, vco := 0, 1, 0;
    while div <= 32
      invariant div > 0 && divOut == 0
      invariant Divider(freq, div) == Divider(freq, 1)
      decreases 64 - div
    {
      vco := freq * div;
      if vco >= VCO_MIN && vco <= VCO_MAX {
        divOut := div;
        break;
      }
      div := div * 2;
    }
    if divOut == 0 {
      return Invalid;
    }
    var ratio := Ratio(vco, ref);
    var nint := ratio / ONE % 0x1_0000_0000;
    var nfrac := ratio % ONE;
    if nint < 1 || nint > 255 {
      return Invalid;
    }
    if nfrac > HALF - 1 {
      nfrac := HALF - 1;
    }
    return Params(nint, nfrac, divOut);
  }

  // ----- at the board's reference clock

  lemma DividerChoice(freq: nat)
    requires freq <= FREQ_MAX
    ensures var d := Divider(freq, 1);
            && (d == 0 <==> freq < 58750000)
            && (d != 0 ==> d in {1, 2, 4, 8, 16, 32} && InVcoRange(freq * d) && (d > 1 ==> freq * (d / 2) < VCO_MIN))
  {
    assert Divider(freq, 1) == if InVcoRange(freq) then 1 else Divider(freq, 2);
    assert Divider(freq, 2) == if InVcoRange(freq * 2) then 2 else Divider(freq, 4);
    assert Divider(freq, 4) == if InVcoRange(freq * 4) then 4 else Divider(freq, 8);
    assert Divider(freq, 8) == if InVcoRange(freq * 8) then 8 else Divider(freq, 16);
    assert Divider(freq, 16) == if InVcoRange(freq * 16) then 16 else Divider(freq, 32);
    assert Divider(freq, 32) == if InVcoRange(freq * 32) then 32 else Divider(freq, 64);
  }

  lemma RatioBounds(vco: nat)
    ensures REF * Ratio(vco, REF) <= vco * ONE < REF * (Ratio(vco, REF) + 1)
    ensures Ratio(vco, REF) / ONE == vco / REF
    ensures Ratio(vco, REF) % ONE < HALF <==> vco % REF < REF / 2
  {
    var q, m := vco / REF, vco % REF;
    assert vco == q * REF + m;
    var f := m * ONE / REF;
    assert vco * ONE == q * ONE * REF + m * ONE;
    assert Ratio(vco, REF) == q * ONE + f;
  }

  /** Tuning succeeds exactly from 58.75 MHz to 3.8 GHz, not from the 100 kHz the interface announces. */
  lemma SucceedsExactly(freq: nat)
    ensures Calculate(freq, REF).Params? <==> 58750000 <= freq <= 3800000000
  {
    hide Divider, Ratio;
    if FREQ_MIN <= freq <= FREQ_MAX {
      DividerChoice(freq);
      RatioBounds(freq * Divider(freq, 1));
    }
  }

  /** The announced lower end of the range is refused. */
  lemma AnnouncedMinimumFails()
    ensures Calculate(FREQ_MIN, REF) == Invalid
  {
    SucceedsExactly(FREQ_MIN);
  }

  /** A successful tuning uses the least power of two that brings the VCO up to 1.88 GHz; no 64-bit
      intermediate overflows; the integer part fits its 8-bit register and the fraction its 8 + 16 bits,
      from which it can be put together again. */
  lemma ParametersFit(freq: nat)
    requires Calculate(freq, REF).Params?
    ensures var r := Calculate(freq, REF);
            var vco := freq * r.div;
            && r.div in {1, 2, 4, 8, 16, 32} && InVcoRange(vco) && (r.div > 1 ==> freq * (r.div / 2) < VCO_MIN)
            && vco * ONE < 0x1_0000_0000_0000_0000
            && 61 <= r.nint <= 188
            && r.nfrac == r.nfrac / 0x1_0000 % 0x100 * 0x1_0000 + r.nfrac % 0x1_0000
  {
    hide Divider, Ratio;
    var vco := freq * Divider(freq, 1);
    DividerChoice(freq);
    RatioBounds(vco);
    RegisterSplit(Clamp(Ratio(vco, REF) % ONE));
  }

  lemma RegisterSplit(nfrac: nat)
    requires nfrac < ONE
    ensures nfrac == nfrac / 0x1_0000 % 0x100 * 0x1_0000 + nfrac % 0x1_0000
  {
  }

  /** The wanted VCO frequency less the synthesised one, in units of 2^-24 Hz. */
  function Shortfall(freq: nat): int
    requires Calculate(freq, REF).Params?
  {
    var r := Calculate(freq, REF);
    freq * r.div * ONE - REF * (r.nint * ONE + r.nfrac)
  }

  /** The synthesised VCO is never above the wanted one, and less than one step of the reference / 2^24
      below it exactly when the VCO lies in the lower half between two multiples of the reference. In the
      upper half the clamp at 0x7FFFFF makes it fall short by up to half the reference. */
  lemma SynthesisError(freq: nat)
    requires Calculate(freq, REF).Params?
    ensures 0 <= Shortfall(freq) < REF * (HALF + 1)
    ensures Shortfall(freq) < REF <==> freq * Calculate(freq, REF).div % REF < REF / 2
  {
    hide Calculate, Ratio;
    var vco := freq * Calculate(freq, REF).div;
    ParamsAre(freq);
    RatioBounds(vco);
    ClampLoss(vco * ONE, Ratio(vco, REF));
  }

  /** What clamping the fraction costs, for a ratio rounded down from x / REF. */
  lemma ClampLoss(x: nat, ratio: nat)
    requires REF * ratio <= x < REF * (ratio + 1)
    ensures var loss := x - REF * (ratio / ONE * ONE + Clamp(ratio % ONE));
            0 <= loss < REF * (HALF + 1) && (loss < REF <==> ratio % ONE < HALF)
  {
    var q, r := ratio / ONE, ratio % ONE;
    assert ratio == q * ONE + r;
    assert x - REF * (q * ONE + Clamp(r)) == x - REF * ratio + REF * (r - Clamp(r));
  }

  lemma ParamsAre(freq: nat)
    requires Calculate(freq, REF).Params?
    ensures var r, ratio := Calculate(freq, REF), Ratio(freq * Calculate(freq, REF).div, REF);
            r.nint == ratio / ONE && r.nfrac == Clamp(ratio % ONE)
  {
    hide Divider, Ratio, Clamp;
    DividerChoice(freq);
    RatioBounds(freq * Divider(freq, 1));
  }

  /** Which word is programmed: of those with a 23-bit fraction the greatest that is not above the wanted VCO. In
      the upper half between two multiples of the reference that is always the one with fraction 0x7FFFFF. */
  lemma GreatestWord(freq: nat, i: nat, f: nat)
    requires Calculate(freq, REF).Params?
    ensures var r := Calculate(freq, REF);
            var wanted := freq * r.div * 0x100_0000;
            && r.nfrac <= 0x7F_FFFF
            && 30720000 * (r.nint * 0x100_0000 + r.nfrac) <= wanted
            && (f <= 0x7F_FFFF && 30720000 * (i * 0x100_0000 + f) <= wanted ==>
                  i * 0x100_0000 + f <= r.nint * 0x100_0000 + r.nfrac)
            && (freq * r.div % 30720000 >= 15360000 ==> r.nfrac == 0x7F_FFFF)
  {
    hide Calculate, Ratio;
    var r := Calculate(freq, REF);
    var vco := freq * r.div;
    ParamsAre(freq);
    RatioBounds(vco);
    if f <= 0x7F_FFFF && 30720000 * (i * 0x100_0000 + f) <= vco * 0x100_0000 {
      BestFraction(i, f, Ratio(vco, REF));
    }
  }

  lemma BestFraction(i: nat, f: nat, ratio: nat)
    requires f <= 0x7F_FFFF && i * ONE + f <= ratio
    ensures i * ONE + f <= ratio / ONE * ONE + Clamp(ratio % ONE)
  {
    assert ratio == ratio / ONE * ONE + ratio % ONE;
  }

  /** For any reference clock: the ratio of VCO and reference in units of 2^-24, rounded down; its integer part, on 32
      bits, has to be 1 to 255, and its fraction is cut to 23 bits. */
  lemma AnyReference(freq: nat, ref: nat) returns (div: nat, ratio: nat)
    ensures 100000 <= freq <= 3800000000 && ref > 0 ==>
              && (div == 0 <==> freq < 58750000)
              && (div != 0 ==>
                    && div in {1, 2, 4, 8, 16, 32} && 1880000000 <= freq * div <= 5800000000
                    && (div > 1 ==> freq * (div / 2) < 1880000000)
                    && ref * ratio <= freq * div * 0x100_0000 < ref * (ratio + 1))
    ensures Calculate(freq, ref)
         == if freq < 100000 || freq > 3800000000 || ref == 0 || div == 0 then Invalid
            else if !(1 <= ratio / 0x100_0000 % 0x1_0000_0000 <= 255) then Invalid
            else Params(ratio / 0x100_0000 % 0x1_0000_0000,
                        if ratio % 0x100_0000 < 0x7F_FFFF then ratio % 0x100_0000 else 0x7F_FFFF, div)
  {
    hide Divider;
    div, ratio := 0, 0;
    if 100000 <= freq <= 3800000000 && ref > 0 {
      DividerChoice(freq);
      div := Divider(freq, 1);
      ratio := Ratio(freq * div, ref);
      Quotient(freq * div * ONE, ref);
    }
  }

  lemma Quotient(x: nat, y: nat)
    requires y > 0
    ensures y * (x / y) <= x < y * (x / y + 1)
  {
    assert x == y * (x / y) + x % y;
    assert y * (x / y + 1) == y * (x / y) + y;
  }

  /** The programmed word grows with the frequency as long as the divider stays. */
  lemma MonotonePerDivider(low: nat, high: nat)
    requires low <= high && Calculate(low, REF).Params? && Calculate(high, REF).Params?
    requires Calculate(low, REF).div == Calculate(high, REF).div
    ensures var a, b := Calculate(low, REF), Calculate(high, REF);
            a.nint * ONE + a.nfrac <= b.nint * ONE + b.nfrac
  {
    hide Calculate, Ratio, Clamp;
    var v, w := low * Calculate(low, REF).div, high * Calculate(low, REF).div;
    assert v <= w;
    ParamsAre(low);
    ParamsAre(high);
    RatioMonotone(v, w);
    ClampMonotone(Ratio(v, REF), Ratio(w, REF));
  }

  lemma RatioMonotone(v: nat, w: nat)
    requires v <= w
    ensures Ratio(v, REF) <= Ratio(w, REF)
  {
  }

  lemma ClampMonotone(x: nat, y: nat)
    requires x <= y
    ensures x / ONE * ONE + Clamp(x % ONE) <= y / ONE * ONE + Clamp(y % ONE)
  {
  }

  // ----- receive gain

  /** The split in lms7002m_set_rx_gain: LNA and PGA settings in dB, for a request in tenths of a dB. */
  function SplitGain(gain: int, tia: bool): (r: (int, int))
    requires 0 <= gain <= 1160
  {
    var remaining := if gain - (if tia then 120 else 0) < 0 then 0 else gain - if tia then 120 else 0;
    if remaining <= 730 then (remaining / 10, 0)
    else (73, (if remaining - 730 > 310 then 310 else remaining - 730) / 10)
  }

  /** The chain delivers the request, rounded down to a whole dB, exactly when the fixed 12 dB stage does not
      already exceed it, and LNA and PGA alone can reach it if that stage is off. The PGA only adds gain once
      the LNA gives all of its 73 dB. */
  lemma GainDelivered(gain: int, tia: bool)
    requires 0 <= gain <= 1160
    ensures var (lna, pga) := SplitGain(gain, tia);
            var delivered := 10 * (lna + pga) + if tia then 120 else 0;
            && 0 <= lna <= 73 && 0 <= pga <= 31 && (pga > 0 ==> lna == 73)
            && (gain - 10 < delivered <= gain <==> if tia then gain >= 120 else gain < 1050)
            && (tia && gain < 120 ==> lna == pga == 0)
            && (!tia && gain >= 1050 ==> lna == 73 && pga == 31)
  {
  }
}
