/**
 The projection chart of the demo app: a monthly recurrence with a shared oscillating term, and
 the band drawn around it. Numbers are reals; the sine is any function into [-1, 1].
 */
module DemoProjection {

  /** Sine of the month, times 1.83: only its range matters. */
  type Wave = nat -> real

  ghost predicate Bounded(wave: Wave) {
    forall m :: -1.0 <= wave(m) <= 1.0
  }

  const TEXTURE := 0.0007

  function NextMonth(previous: real, rate: real, monthly: real, wave: Wave, month: nat): real {
    previous * (1.0 + rate / 12.0) + monthly + wave(month) * previous * TEXTURE
  }

  function ValueAt(start: real, rate: real, monthly: real, wave: Wave, month: nat): real {
    if month == 0 then start else NextMonth(ValueAt(start, rate, monthly, wave, month - 1), rate, monthly, wave, month)
  }

  lemma FirstIsStart(start: real, rate: real, monthly: real, wave: Wave)
    ensures ValueAt(start, rate, monthly, wave, 0) == start
  {
  }

  lemma IsNext(start: real, rate: real, monthly: real, wave: Wave, month: nat, next: real)
    requires month > 0 && next == NextMonth(ValueAt(start, rate, monthly, wave, month - 1), rate, monthly, wave, month)
    ensures next == ValueAt(start, rate, monthly, wave, month)
  {
  }

  /** `buildProjectionSeries`. */
  method BuildProjectionSeries(start: real, rate: real, monthly: real, wave: Wave, months: nat) returns (values: seq<real>)
    ensures |values| == months + 1
    ensures forall m :: 0 <= m <= months ==> values[m] == ValueAt(start, rate, monthly, wave, m)
  {
    hide ValueAt;
    FirstIsStart(start, rate, monthly, wave);
    values := [start];
    var month := 1;
    while month <= months
      invariant 1 <= month <= months + 1 && |values| == month
      invariant forall m :: 0 <= m < month ==> values[m] == ValueAt(start, rate, monthly, wave, m)
    {
      var previous := values[month - 1];
      var texture := wave(month) * previous * TEXTURE;
      var next := previous * (1.0 + rate / 12.0) + monthly + texture;
      assert next == NextMonth(previous, rate, monthly, wave, month);
      IsNext(start, rate, monthly, wave, month, next);
      values := values + [next];
      month := month + 1;
    }
  }

  function Power(x: real, n: nat): real {
    if n == 0 then 1.0 else x * Power(x, n - 1)
  }

  /** What one unit paid in every month comes to. */
  function Savings(x: real, n: nat): real {
    if n == 0 then 0.0 else Savings(x, n - 1) + Power(x, n - 1)
  }

  lemma {:induction false} SavingsGrow(x: real, n: nat)
    ensures Savings(x, n + 1) == x * Savings(x, n) + 1.0
  {
    if n > 0 {
      SavingsGrow(x, n - 1);
      Distribute(x, Savings(x, n - 1), Power(x, n - 1));
    } else {
      assert Savings(x, 1) == Savings(x, 0) + Power(x, 0);
    }
  }

  /** A start with interest, and contributions with interest. */
  predicate Compounds(value: real, start: real, monthly: real, p: real, s: real) {
    value == start * p + monthly * s
  }

  /** Without the wave, the series is compound interest at a twelfth of the rate, with contributions. */
  lemma {:induction false} CompoundInterest(start: real, rate: real, monthly: real, wave: Wave, month: nat)
    requires forall m :: wave(m) == 0.0
    ensures var x := 1.0 + rate / 12.0;
            Compounds(ValueAt(start, rate, monthly, wave, month), start, monthly, Power(x, month), Savings(x, month))
  {
    hide NextMonth, Compounds, Savings;
    var x := 1.0 + rate / 12.0;
    if month > 0 {
      var before, after := ValueAt(start, rate, monthly, wave, month - 1), ValueAt(start, rate, monthly, wave, month);
      CompoundInterest(start, rate, monthly, wave, month - 1);
      CalmMonth(before, rate, monthly, wave, month);
      SavingsGrow(x, month - 1);
      OneMonthMore(start, monthly, x, before, after, Power(x, month - 1), Savings(x, month - 1), Power(x, month), Savings(x, month));
    } else {
      NothingYet(start, monthly, x);
    }
  }

  lemma NothingYet(start: real, monthly: real, x: real)
    ensures Compounds(start, start, monthly, Power(x, 0), Savings(x, 0))
  {
  }

  lemma CalmMonth(previous: real, rate: real, monthly: real, wave: Wave, month: nat)
    requires wave(month) == 0.0
    ensures NextMonth(previous, rate, monthly, wave, month) == previous * (1.0 + rate / 12.0) + monthly
  {
  }

  lemma Distribute(x: real, a: real, b: real)
    ensures x * (a + b) == x * a + x * b
  {
  }

  lemma OneMonthMore(start: real, monthly: real, x: real, before: real, after: real, p: real, s: real, p': real, s': real)
    requires Compounds(before, start, monthly, p, s) && after == before * x + monthly && p' == x * p && s' == x * s + 1.0
    ensures Compounds(after, start, monthly, p', s')
  {
    Compounded(start, monthly, x, p, s);
  }

  lemma Compounded(start: real, monthly: real, x: real, p: real, s: real)
    ensures (start * p + monthly * s) * x + monthly == start * (x * p) + monthly * (x * s + 1.0)
  {
    assert (start * p + monthly * s) * x == start * p * x + monthly * s * x;
    assert start * p * x == start * (x * p) && monthly * s * x == monthly * (x * s);
  }

  /** The wave moves a month by seven hundredths of a percent of the month before, at its height. */
  lemma WaveMovesAMonth(start: real, rate: real, monthly: real, wave: Wave, month: nat)
    ensures var before := ValueAt(start, rate, monthly, wave, month);
            ValueAt(start, rate, monthly, wave, month + 1) - (before * (1.0 + rate / 12.0) + monthly) ==
            0.0007 * wave(month + 1) * before
  {
  }

  function LowRate(rate: real): real {
    if rate - 0.03 > 0.005 then rate - 0.03 else 0.005
  }

  function HighRate(rate: real): real {
    rate + 0.025
  }

  /** One month keeps two series in order, if the larger rate is on the larger, non-negative one. */
  lemma MonthKeepsOrder(p: real, q: real, r: real, s: real, monthly: real, wave: Wave, month: nat)
    requires 0.0 <= p <= q && 0.0 <= r <= s && monthly >= 0.0 && -1.0 <= wave(month) <= 1.0
    ensures 0.0 <= NextMonth(p, r, monthly, wave, month) <= NextMonth(q, s, monthly, wave, month)
  {
    var f, g := 1.0 + r / 12.0 + wave(month) * TEXTURE, 1.0 + s / 12.0 + wave(month) * TEXTURE;
    assert 0.0 < f <= g;
    assert NextMonth(p, r, monthly, wave, month) == p * f + monthly;
    assert NextMonth(q, s, monthly, wave, month) == q * g + monthly;
    Scale(p, q, f);
    Scale(f, g, q);
    assert q * f == f * q && q * g == g * q;
    Scale(0.0, p, f);
  }

  lemma Scale(x: real, y: real, k: real)
    requires x <= y && k >= 0.0
    ensures x * k <= y * k
  {
  }

  lemma {:induction false} SeriesInOrder(start: real, r: real, s: real, monthly: real, wave: Wave, month: nat)
    requires start >= 0.0 && 0.0 <= r <= s && monthly >= 0.0 && Bounded(wave)
    ensures 0.0 <= ValueAt(start, r, monthly, wave, month) <= ValueAt(start, s, monthly, wave, month)
  {
    if month > 0 {
      SeriesInOrder(start, r, s, monthly, wave, month - 1);
      MonthKeepsOrder(ValueAt(start, r, monthly, wave, month - 1), ValueAt(start, s, monthly, wave, month - 1),
                      r, s, monthly, wave, month);
    }
  }

  ghost predicate BandHolds(start: real, rate: real, monthly: real, wave: Wave, month: nat) {
    ValueAt(start, LowRate(rate), monthly, wave, month) <= ValueAt(start, rate, monthly, wave, month) <=
    ValueAt(start, HighRate(rate), monthly, wave, month)
  }

  /** At half a percent or more the scenario stays inside its band in every month. */
  lemma BandContainsScenario(start: real, rate: real, monthly: real, wave: Wave, month: nat)
    requires start >= 0.0 && monthly >= 0.0 && rate >= 0.005 && Bounded(wave)
    ensures BandHolds(start, rate, monthly, wave, month)
  {
    SeriesInOrder(start, LowRate(rate), rate, monthly, wave, month);
    SeriesInOrder(start, rate, HighRate(rate), monthly, wave, month);
  }

  /**
   The floor under the low rate makes that bound exact: the scenario is in its band in every month
   if and only if the rate is at least half a percent, or there is nothing to grow at all.
   */
  lemma BandHoldsExactlyFromHalfAPercent(start: real, rate: real, monthly: real, wave: Wave)
    requires start >= 0.0 && monthly >= 0.0 && Bounded(wave)
    ensures (forall month: nat :: BandHolds(start, rate, monthly, wave, month)) <==>
            rate >= 0.005 || (start == 0.0 && monthly == 0.0)
  {
    if rate >= 0.005 {
      forall month: nat ensures BandHolds(start, rate, monthly, wave, month) {
        BandContainsScenario(start, rate, monthly, wave, month);
      }
    } else if start == 0.0 && monthly == 0.0 {
      forall month: nat ensures BandHolds(start, rate, monthly, wave, month) {
        NothingGrows(LowRate(rate), wave, month);
        NothingGrows(rate, wave, month);
        NothingGrows(HighRate(rate), wave, month);
      }
    } else if start > 0.0 {
      LowOvertakes(start, rate, monthly, wave, 0, start);
    } else {
      StartsLate(rate, monthly, wave);
      StartsLate(0.005, monthly, wave);
      LowOvertakes(start, rate, monthly, wave, 1, monthly);
    }
  }

  /** From three and a half percent on, the band is five and a half percent a year wide. */
  lemma BandIsWide(start: real, rate: real, monthly: real, wave: Wave)
    requires rate >= 0.035
    ensures ValueAt(start, HighRate(rate), monthly, wave, 1) - ValueAt(start, LowRate(rate), monthly, wave, 1) == start * 0.055 / 12.0
    ensures ValueAt(start, rate, monthly, wave, 1) - ValueAt(start, LowRate(rate), monthly, wave, 1) == start * 0.03 / 12.0
  {
    FirstIsStart(start, rate, monthly, wave);
  }

  lemma {:induction false} NothingGrows(rate: real, wave: Wave, month: nat)
    ensures ValueAt(0.0, rate, 0.0, wave, month) == 0.0
  {
    if month > 0 {
      NothingGrows(rate, wave, month - 1);
    }
  }

  lemma StartsLate(rate: real, monthly: real, wave: Wave)
    ensures ValueAt(0.0, rate, monthly, wave, 1) == monthly
  {
    FirstIsStart(0.0, rate, monthly, wave);
    IsNext(0.0, rate, monthly, wave, 1, monthly);
  }

  /** A month after both series stood at the same positive value, the low one is higher. */
  lemma LowOvertakes(start: real, rate: real, monthly: real, wave: Wave, month: nat, value: real)
    requires rate < 0.005 && value > 0.0
    requires ValueAt(start, rate, monthly, wave, month) == value == ValueAt(start, 0.005, monthly, wave, month)
    ensures !BandHolds(start, rate, monthly, wave, month + 1)
  {
    hide ValueAt;
    assert LowRate(rate) == 0.005;
    var low, mid := NextMonth(value, 0.005, monthly, wave, month + 1), NextMonth(value, rate, monthly, wave, month + 1);
    IsNext(start, 0.005, monthly, wave, month + 1, low);
    IsNext(start, rate, monthly, wave, month + 1, mid);
    assert low - mid == value * ((0.005 - rate) / 12.0);
    Positive(value, (0.005 - rate) / 12.0);
  }

  lemma Positive(x: real, y: real)
    requires x > 0.0 && y > 0.0
    ensures x * y > 0.0
  {
  }
}
