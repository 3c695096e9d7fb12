/** The skeleton `generate_plan` builds for a training plan: weeks of seven
    days from the start date, each week labelled as a deload week, the
    closing taper week or a normal week, with its Zone-2 minute targets.
    Dates are proleptic Gregorian day ordinals (`date.toordinal()`, day 1
    being Monday 1 January of year 1). */
module Plan {
  import Text

  const DayNames := ["周一", "周二", "周三", "周四", "周五", "周六", "周日"]
  const Deload := "DELOAD"
  const Taper := "TAPER"
  const MinTargetMinutes := 60

  /** `date.weekday()` of an ordinal: Monday is 0, and day 1 (1 January of
      year 1) was a Monday. */
  function Weekday(ordinal: int): (r: int)
    ensures 0 <= r < 7
    ensures ordinal == 1 ==> r == 0
  {
    (ordinal + 6) % 7
  }

  /** `int(x)`: truncation toward zero. */
  function Trunc(x: real): (r: int)
    ensures x >= 0.0 ==> r as real <= x < r as real + 1.0
    ensures x < 0.0 ==> r as real - 1.0 < x <= r as real
  {
    if x >= 0.0 then x.Floor else -((-x).Floor)
  }

  datatype PlanDay = PlanDay(date: int, dayName: string, sessions: seq<string>, actualZ2Min: int, actualHiitMin: int)

  datatype PlanWeek = PlanWeek(
    weekNum: int,
    start: int,
    end: int,
    weekLabel: string,
    targetMin: int,
    targetMax: int,
    hiitTarget: int,
    days: seq<PlanDay>,
    actualZ2Total: int,
    actualHiitCount: int)

  /** The settings the plan is generated from. */
  datatype Settings = Settings(start: int, weeks: nat, weeklyZ2Target: int, hiitPerWeek: int, deloadEvery: int)

  predicate IsDeload(cfg: Settings, w: nat)
    requires cfg.deloadEvery >= 1
  {
    (w + 1) % cfg.deloadEvery == 0 && w != cfg.weeks - 1
  }

  /** The volume factor of week `w`: 0.6 in a deload week, 0.5 in the taper
      week, and otherwise rising linearly from 1.0 by 0.4 over the plan. */
  function Factor(cfg: Settings, w: nat): (f: real)
    requires cfg.deloadEvery >= 1 && w < cfg.weeks
    ensures 0.5 <= f < 1.4
  {
    if IsDeload(cfg, w) then 0.6
    else if w == cfg.weeks - 1 then 0.5
    else 1.0 + (w as real / cfg.weeks as real) * 0.4
  }

  function MakeDay(date: int): PlanDay {
    PlanDay(date, DayNames[Weekday(date)], [], 0, 0)
  }

  function MakeWeek(cfg: Settings, w: nat): (r: PlanWeek)
    requires cfg.deloadEvery >= 1 && w < cfg.weeks
    ensures r.weekNum == w + 1 && r.start == cfg.start + 7 * w && r.end == r.start + 6
    ensures |r.days| == 7 && r.targetMin >= MinTargetMinutes
    ensures forall d :: 0 <= d < 7 ==> r.days[d] == MakeDay(r.start + d)
    ensures r.weekLabel == Deload <==> IsDeload(cfg, w)
    ensures r.weekLabel == Taper <==> w == cfg.weeks - 1
    ensures r.weekLabel == "" <==> !IsDeload(cfg, w) && w != cfg.weeks - 1
    ensures r.hiitTarget == if w == cfg.weeks - 1 then 0 else cfg.hiitPerWeek
  {
    var weekStart := cfg.start + 7 * w;
    var isLast := w == cfg.weeks - 1;
    var tag := if IsDeload(cfg, w) then Deload else if isLast then Taper else "";
    var f := Factor(cfg, w);
    var targetMin := Trunc(cfg.weeklyZ2Target as real * f * 0.9);
    var targetMax := Trunc(cfg.weeklyZ2Target as real * f * 1.1);
    PlanWeek(
      w + 1, weekStart, weekStart + 6, tag,
      if targetMin < MinTargetMinutes then MinTargetMinutes else targetMin,
      targetMax,
      if isLast then 0 else cfg.hiitPerWeek,
      seq(7, d requires 0 <= d < 7 => MakeDay(weekStart + d)),
      0, 0)
  }

  /** `generate_plan`: one week per planned week, numbered from 1, each of
      seven consecutive days, the last one the taper week without HIIT, a
      deload week at every `deloadEvery`-th week before it. */
  function GeneratePlan(cfg: Settings): (plan: seq<PlanWeek>)
    requires cfg.deloadEvery >= 1
    ensures |plan| == cfg.weeks
    ensures forall w :: 0 <= w < |plan| ==>
      && plan[w].weekNum == w + 1
      && plan[w].start == cfg.start + 7 * w
      && plan[w].end == plan[w].start + 6
      && |plan[w].days| == 7
      && plan[w].targetMin >= MinTargetMinutes
    ensures forall w, d :: 0 <= w < |plan| && 0 <= d < |plan[w].days| ==>
      plan[w].days[d].date == cfg.start + 7 * w + d && plan[w].days[d].sessions == []
    ensures forall w :: 0 <= w < |plan| ==>
      && (plan[w].weekLabel == Taper <==> w == cfg.weeks - 1)
      && (plan[w].weekLabel == Deload <==> (w + 1) % cfg.deloadEvery == 0 && w != cfg.weeks - 1)
      && (plan[w].weekLabel == "" <==> (w + 1) % cfg.deloadEvery != 0 && w != cfg.weeks - 1)
      && (plan[w].hiitTarget == if w == cfg.weeks - 1 then 0 else cfg.hiitPerWeek)
  {
    seq(cfg.weeks, w requires 0 <= w < cfg.weeks => MakeWeek(cfg, w))
  }

  /** Each day is named after its weekday, so the day names of every week
      repeat those of the first. */
  lemma DayNamesRepeatWeekly(cfg: Settings, w: nat, d: nat)
    requires cfg.deloadEvery >= 1 && w < cfg.weeks && d < 7
    ensures GeneratePlan(cfg)[w].days[d].dayName == DayNames[Weekday(cfg.start + d)]
  {
    var plan := GeneratePlan(cfg);
    WeekdayPeriodic(cfg.start + d, w);
    assert cfg.start + 7 * w + d == (cfg.start + d) + 7 * w;
  }

  /** The day after a Sunday is a Monday; any other day is followed by the
      next weekday. */
  lemma WeekdayNext(ordinal: int)
    ensures Weekday(ordinal + 1) == if Weekday(ordinal) == 6 then 0 else Weekday(ordinal) + 1
  {
  }

  lemma {:induction false} WeekdayPeriodic(ordinal: int, k: nat)
    ensures Weekday(ordinal + 7 * k) == Weekday(ordinal)
  {
    if k > 0 {
      WeekdayPeriodic(ordinal, k - 1);
      assert ordinal + 7 * k == (ordinal + 7 * (k - 1)) + 7;
    }
  }

  /** The plan's days run on without gap or overlap from week to week. */
  lemma WeeksAreConsecutive(cfg: Settings, w: nat)
    requires cfg.deloadEvery >= 1 && w + 1 < cfg.weeks
    ensures GeneratePlan(cfg)[w + 1].days[0].date == GeneratePlan(cfg)[w].days[6].date + 1
  {
  }

  /** The number of weeks among the first `n` that carry `label`. */
  function CountLabel(plan: seq<PlanWeek>, tag: string, n: nat): nat
    requires n <= |plan|
  {
    if n == 0 then 0 else CountLabel(plan, tag, n - 1) + (if plan[n - 1].weekLabel == tag then 1 else 0)
  }

  /** How many deload weeks a plan holds: one per full `deloadEvery` weeks
      before the taper week. */
  lemma DeloadWeekCount(cfg: Settings)
    requires cfg.deloadEvery >= 1 && cfg.weeks >= 1
    ensures CountLabel(GeneratePlan(cfg), Deload, cfg.weeks) == (cfg.weeks - 1) / cfg.deloadEvery
  {
    var plan := GeneratePlan(cfg);
    DeloadPrefixCount(cfg, cfg.weeks - 1);
    assert plan[cfg.weeks - 1].weekLabel == Taper;
  }

  lemma {:induction false} DeloadPrefixCount(cfg: Settings, n: nat)
    requires cfg.deloadEvery >= 1 && n < cfg.weeks
    ensures CountLabel(GeneratePlan(cfg), Deload, n) == n / cfg.deloadEvery
  {
    var k := cfg.deloadEvery;
    if n > 0 {
      DeloadPrefixCount(cfg, n - 1);
      var plan := GeneratePlan(cfg);
      assert plan[n - 1].weekLabel == Deload <==> n % k == 0;
      NextQuotient(n, k);
    }
  }

  /** `n / k` grows by one exactly at the multiples of `k`. */
  lemma NextQuotient(n: nat, k: nat)
    requires n >= 1 && k >= 1
    ensures n / k == (n - 1) / k + (if n % k == 0 then 1 else 0)
  {
    var q, r := (n - 1) / k, (n - 1) % k;
    assert n - 1 == q * k + r && 0 <= r < k;
    if r == k - 1 {
      assert n == (q + 1) * k;
      Text.DivModOfSum(q + 1, k, 0);
    } else {
      assert n == q * k + (r + 1) && r + 1 < k;
      Text.DivModOfSum(q, k, r + 1);
    }
  }
}
