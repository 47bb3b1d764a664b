/**
  The numbers behind the weekly bars, the totals panel and the monthly and
  yearly indicators (`renderWeekBars`, `renderTotals`, `renderKPIs`,
  `renderYearKPIs`), lifted out of the views: filtered sums over the
  records, breakdowns by weekday and by month, per-window totals, the
  "top" scans and the averages.
 */
module Aggregate {
  import opened Wrappers
  import opened Calendar
  import opened TimeParse
  import opened Weeks
  import opened DayRecords

  /** Which hours of a record a total adds up. */
  datatype Measure = Effective | Raw | LunchTime

  function Value(d: DayRecord, measure: Measure): real {
    match measure
    case Effective => d.hours
    case Raw => d.rawHours
    case LunchTime => d.lunchHours
  }

  /** The two breakdowns: by Monday-first weekday (7 slots) and by month (12 slots). */
  datatype Grouping = ByWeekday | ByMonth

  function Slots(g: Grouping): nat {
    match g
    case ByWeekday => 7
    case ByMonth => 12
  }

  function SlotOf(d: DayRecord, g: Grouping): int {
    match g
    case ByWeekday => d.weekday
    case ByMonth => d.m
  }

  /** The record filters the views apply. */
  datatype Filter =
    | Every
    | WithShift
    | InSlot(g: Grouping, k: int)
    | InWindow(week: Week)
    | DatedIn(year: int)
    | WithLunch
    | Both(a: Filter, b: Filter)

  predicate Holds(f: Filter, d: DayRecord) {
    match f
    case Every => true
    case WithShift => d.hasShift
    case InSlot(g, k) => SlotOf(d, g) == k
    case InWindow(w) => InRange(d.date, w.start, w.end)
    case DatedIn(y) => d.y == y
    case WithLunch => d.lunchHours > 0.0
    case Both(a, b) => Holds(a, d) && Holds(b, d)
  }

  /** `recs.filter(d => f)`: the records `f` selects, in order. */
  function Select(recs: seq<DayRecord>, f: Filter): (r: seq<DayRecord>)
    ensures |r| <= |recs|
  {
    if recs == [] then []
    else
      var last := recs[|recs| - 1];
      Select(recs[..|recs| - 1], f) + (if Holds(f, last) then [last] else [])
  }

  /** The records `f` selects are exactly the records of `recs` that `f` holds for. */
  lemma {:induction false} SelectMembers(recs: seq<DayRecord>, f: Filter)
    ensures forall d :: d in Select(recs, f) <==> d in recs && Holds(f, d)
  {
    if recs != [] {
      var init, last := recs[..|recs| - 1], recs[|recs| - 1];
      SelectMembers(init, f);
      assert recs == init + [last];
    }
  }

  /** The sum of `measure` over the records `f` selects. */
  function Total(recs: seq<DayRecord>, f: Filter, measure: Measure): real {
    if recs == [] then 0.0
    else
      var last := recs[|recs| - 1];
      Total(recs[..|recs| - 1], f, measure) + (if Holds(f, last) then Value(last, measure) else 0.0)
  }

  /** How many records `f` selects. */
  function Count(recs: seq<DayRecord>, f: Filter): nat {
    if recs == [] then 0
    else Count(recs[..|recs| - 1], f) + (if Holds(f, recs[|recs| - 1]) then 1 else 0)
  }

  /** `xs.reduce((a, b) => a + b, 0)` */
  function Sum(xs: seq<real>): real {
    if xs == [] then 0.0 else Sum(xs[..|xs| - 1]) + xs[|xs| - 1]
  }

  // ----- filtering first, then summing -----

  lemma TotalSnoc(recs: seq<DayRecord>, d: DayRecord, f: Filter, measure: Measure)
    ensures Total(recs + [d], f, measure) == Total(recs, f, measure) + (if Holds(f, d) then Value(d, measure) else 0.0)
  {
    assert (recs + [d])[..|recs|] == recs;
  }

  /** The last record of a list is kept at the end of the filtered list, or dropped. */
  lemma SelectLast(recs: seq<DayRecord>, f: Filter)
    requires recs != []
    ensures Holds(f, recs[|recs| - 1]) ==> Select(recs, f) == Select(recs[..|recs| - 1], f) + [recs[|recs| - 1]]
    ensures !Holds(f, recs[|recs| - 1]) ==> Select(recs, f) == Select(recs[..|recs| - 1], f)
  {
    var kept := Select(recs[..|recs| - 1], f);
    assert kept + [] == kept;
  }

  /** Summing over a filtered list is summing over the records both filters select. */
  lemma {:induction false} TotalOfSelect(recs: seq<DayRecord>, f: Filter, g: Filter, measure: Measure)
    ensures Total(Select(recs, f), g, measure) == Total(recs, Both(f, g), measure)
  {
    if recs != [] {
      TotalOfSelect(recs[..|recs| - 1], f, g, measure);
      TotalOfSelectStep(recs, f, g, measure);
    }
  }

  lemma TotalOfSelectStep(recs: seq<DayRecord>, f: Filter, g: Filter, measure: Measure)
    requires recs != []
    requires Total(Select(recs[..|recs| - 1], f), g, measure) == Total(recs[..|recs| - 1], Both(f, g), measure)
    ensures Total(Select(recs, f), g, measure) == Total(recs, Both(f, g), measure)
  {
    TotalBothLast(recs, f, g, measure);
    if Holds(f, recs[|recs| - 1]) {
      SelectKeepsLast(recs, f, g, measure);
    } else {
      SelectDropsLast(recs, f, g, measure);
    }
  }

  lemma TotalBothLast(recs: seq<DayRecord>, f: Filter, g: Filter, measure: Measure)
    requires recs != []
    ensures var last := recs[|recs| - 1];
      Total(recs, Both(f, g), measure) == Total(recs[..|recs| - 1], Both(f, g), measure)
        + (if Holds(f, last) && Holds(g, last) then Value(last, measure) else 0.0)
  {
  }

  lemma SelectDropsLast(recs: seq<DayRecord>, f: Filter, g: Filter, measure: Measure)
    requires recs != [] && !Holds(f, recs[|recs| - 1])
    ensures Total(Select(recs, f), g, measure) == Total(Select(recs[..|recs| - 1], f), g, measure)
  {
    SelectLast(recs, f);
  }

  lemma SelectKeepsLast(recs: seq<DayRecord>, f: Filter, g: Filter, measure: Measure)
    requires recs != [] && Holds(f, recs[|recs| - 1])
    ensures Total(Select(recs, f), g, measure)
      == Total(Select(recs[..|recs| - 1], f), g, measure) + (if Holds(g, recs[|recs| - 1]) then Value(recs[|recs| - 1], measure) else 0.0)
  {
    SelectLast(recs, f);
    TotalSnoc(Select(recs[..|recs| - 1], f), recs[|recs| - 1], g, measure);
  }

  /** What a filtered list adds up to, in the terms the views use. */
  lemma SelectThenTotal(recs: seq<DayRecord>, f: Filter, g: Filter, measure: Measure)
    ensures Total(Select(recs, f), Every, measure) == Total(recs, f, measure)
    ensures Total(Select(recs, f), Both(Every, g), measure) == Total(recs, Both(f, g), measure)
  {
    TotalOfSelect(recs, f, Every, measure);
    TotalOfSelect(recs, f, Both(Every, g), measure);
    TotalBothEvery(recs, f, g, measure);
  }

  /** `Every` adds nothing to a filter. */
  lemma {:induction false} TotalBothEvery(recs: seq<DayRecord>, f: Filter, g: Filter, measure: Measure)
    ensures Total(recs, Both(f, Every), measure) == Total(recs, f, measure)
    ensures Total(recs, Both(f, Both(Every, g)), measure) == Total(recs, Both(f, g), measure)
  {
    if recs != [] {
      TotalBothEvery(recs[..|recs| - 1], f, g, measure);
      var last := recs[|recs| - 1];
      assert Holds(Both(f, Every), last) == Holds(f, last);
      assert Holds(Both(f, Both(Every, g)), last) == Holds(Both(f, g), last);
    }
  }

  /**
    The lunch figures of a list of days: the lunch hours of its lunch days
    are their number, and they are all the lunch hours of the list.
   */
  lemma {:induction false} LunchList(recs: seq<DayRecord>)
    requires AllBounded(recs)
    ensures Total(Select(recs, WithLunch), Every, LunchTime) == |Select(recs, WithLunch)| as real
    ensures Total(recs, Every, LunchTime) == Total(Select(recs, WithLunch), Every, LunchTime)
  {
    if recs != [] {
      var init, last := recs[..|recs| - 1], recs[|recs| - 1];
      LunchList(init);
      assert Bounded(last);
      var kept := Select(init, WithLunch);
      if Holds(WithLunch, last) {
        assert Select(recs, WithLunch) == kept + [last];
        TotalSnoc(kept, last, Every, LunchTime);
      } else {
        assert Select(recs, WithLunch) == kept;
      }
    }
  }

  /** Filtering twice is filtering once with both filters. */
  lemma {:induction false} SelectSelect(recs: seq<DayRecord>, f: Filter, g: Filter)
    ensures Select(Select(recs, f), g) == Select(recs, Both(f, g))
  {
    if recs != [] {
      SelectSelect(recs[..|recs| - 1], f, g);
      SelectSelectStep(recs, f, g);
    }
  }

  lemma SelectSelectStep(recs: seq<DayRecord>, f: Filter, g: Filter)
    requires recs != []
    requires Select(Select(recs[..|recs| - 1], f), g) == Select(recs[..|recs| - 1], Both(f, g))
    ensures Select(Select(recs, f), g) == Select(recs, Both(f, g))
  {
    var init, last := recs[..|recs| - 1], recs[|recs| - 1];
    SelectLast(recs, f);
    SelectLast(recs, Both(f, g));
    if Holds(f, last) {
      SelectSnoc(Select(init, f), last, g);
    }
  }

  /** One more record is kept at the end of the filtered list, or dropped. */
  lemma SelectSnoc(recs: seq<DayRecord>, d: DayRecord, f: Filter)
    ensures Select(recs + [d], f) == Select(recs, f) + (if Holds(f, d) then [d] else [])
  {
    assert (recs + [d])[..|recs|] == recs;
  }

  /** A filtered list keeps only records of the original list. */
  lemma {:induction false} SelectBounded(recs: seq<DayRecord>, f: Filter)
    requires AllBounded(recs)
    ensures AllBounded(Select(recs, f))
  {
    if recs != [] {
      SelectBounded(recs[..|recs| - 1], f);
      assert Bounded(recs[|recs| - 1]);
    }
  }

  /** The length of a filtered list is the number of records the filter selects. */
  lemma {:induction false} CountOfSelect(recs: seq<DayRecord>, f: Filter)
    ensures |Select(recs, f)| == Count(recs, f)
  {
    if recs != [] {
      CountOfSelect(recs[..|recs| - 1], f);
    }
  }

  // ----- what the totals satisfy -----

  /** Hours are never negative, so neither is any total. */
  lemma {:induction false} TotalNonNegative(recs: seq<DayRecord>, f: Filter, measure: Measure)
    requires AllBounded(recs)
    ensures Total(recs, f, measure) >= 0.0
  {
    if recs != [] {
      TotalNonNegative(recs[..|recs| - 1], f, measure);
      assert Bounded(recs[|recs| - 1]);
    }
  }

  /** Raw hours are effective hours plus lunch hours, for any selection. */
  lemma {:induction false} RawIsEffectivePlusLunch(recs: seq<DayRecord>, f: Filter)
    requires AllBounded(recs)
    ensures Total(recs, f, Raw) == Total(recs, f, Effective) + Total(recs, f, LunchTime)
  {
    if recs != [] {
      RawIsEffectivePlusLunch(recs[..|recs| - 1], f);
      assert Bounded(recs[|recs| - 1]);
    }
  }

  /**
    Every lunch deduction is exactly one hour, so the lunch hours of the
    lunch days are their number, and the other days deduct nothing.
   */
  lemma {:induction false} LunchHoursAreLunchDays(recs: seq<DayRecord>, f: Filter)
    requires AllBounded(recs)
    ensures Total(recs, Both(f, WithLunch), LunchTime) == Count(recs, Both(f, WithLunch)) as real
    ensures Total(recs, f, LunchTime) == Total(recs, Both(f, WithLunch), LunchTime)
  {
    if recs != [] {
      var last := recs[|recs| - 1];
      LunchHoursAreLunchDays(recs[..|recs| - 1], f);
      assert Bounded(last);
      assert Holds(Both(f, WithLunch), last) <==> Holds(f, last) && last.lunchHours == 1.0;
    }
  }

  /** Only days with a shift carry hours: selecting them first changes no total. */
  lemma {:induction false} ShiftDaysCarryTheHours(recs: seq<DayRecord>, f: Filter, measure: Measure)
    requires AllBounded(recs)
    ensures Total(recs, Both(f, WithShift), measure) == Total(recs, f, measure)
  {
    if recs != [] {
      var last := recs[|recs| - 1];
      ShiftDaysCarryTheHours(recs[..|recs| - 1], f, measure);
      assert Bounded(last);
      assert !last.hasShift ==> Value(last, measure) == 0.0;
      assert Holds(Both(f, WithShift), last) <==> Holds(f, last) && last.hasShift;
    }
  }

  /** Selecting more records never lowers a total. */
  lemma {:induction false} TotalMonotone(recs: seq<DayRecord>, f: Filter, g: Filter, measure: Measure)
    requires AllBounded(recs)
    requires forall i :: 0 <= i < |recs| ==> Holds(f, recs[i]) ==> Holds(g, recs[i])
    ensures Total(recs, f, measure) <= Total(recs, g, measure)
  {
    if recs != [] {
      MonotoneOfInit(recs, f, g);
      TotalMonotone(recs[..|recs| - 1], f, g, measure);
      TotalLast(recs, f, measure);
      TotalLast(recs, g, measure);
    }
  }

  lemma MonotoneOfInit(recs: seq<DayRecord>, f: Filter, g: Filter)
    requires recs != [] && AllBounded(recs)
    requires forall i :: 0 <= i < |recs| ==> Holds(f, recs[i]) ==> Holds(g, recs[i])
    ensures var init := recs[..|recs| - 1];
      AllBounded(init) && forall i :: 0 <= i < |init| ==> Holds(f, init[i]) ==> Holds(g, init[i])
    ensures Bounded(recs[|recs| - 1]) && (Holds(f, recs[|recs| - 1]) ==> Holds(g, recs[|recs| - 1]))
  {
    var init := recs[..|recs| - 1];
    assert forall i :: 0 <= i < |init| ==> init[i] == recs[i];
  }

  // ----- breakdowns by weekday and by month -----

  /** Slot `k` holds the total of the selected records whose weekday (or month) is `k`. */
  function Breakdown(recs: seq<DayRecord>, f: Filter, g: Grouping, measure: Measure): (totals: seq<real>)
    ensures |totals| == Slots(g)
  {
    seq(Slots(g), k => Total(recs, Both(f, InSlot(g, k)), measure))
  }

  /** Breaking down a filtered list is breaking down the records the filter selects. */
  lemma BreakdownOfSelect(recs: seq<DayRecord>, f: Filter, g: Grouping, measure: Measure)
    ensures Breakdown(Select(recs, f), Every, g, measure) == Breakdown(recs, f, g, measure)
  {
    forall k | 0 <= k < Slots(g)
      ensures Total(Select(recs, f), Both(Every, InSlot(g, k)), measure) == Total(recs, Both(f, InSlot(g, k)), measure)
    {
      TotalOfSelect(recs, f, Both(Every, InSlot(g, k)), measure);
      TotalBothEvery(recs, f, InSlot(g, k), measure);
    }
  }

  lemma SumUpdate(xs: seq<real>, j: int, v: real)
    requires 0 <= j < |xs|
    ensures Sum(xs[j := xs[j] + v]) == Sum(xs) + v
    decreases |xs|
  {
    var ys := xs[j := xs[j] + v];
    assert ys[..|ys| - 1] == if j < |xs| - 1 then xs[..|xs| - 1][j := xs[j] + v] else xs[..|xs| - 1];
    if j < |xs| - 1 {
      SumUpdate(xs[..|xs| - 1], j, v);
    }
  }

  /** The last record adds its hours to its own slot, when it is selected. */
  lemma BreakdownStep(recs: seq<DayRecord>, f: Filter, g: Grouping, measure: Measure)
    requires recs != [] && Bounded(recs[|recs| - 1])
    ensures var d, before := recs[|recs| - 1], Breakdown(recs[..|recs| - 1], f, g, measure);
      Breakdown(recs, f, g, measure)
        == if Holds(f, d) then before[SlotOf(d, g) := before[SlotOf(d, g)] + Value(d, measure)] else before
  {
    var d, before := recs[|recs| - 1], Breakdown(recs[..|recs| - 1], f, g, measure);
    var after := Breakdown(recs, f, g, measure);
    var expected := if Holds(f, d) then before[SlotOf(d, g) := before[SlotOf(d, g)] + Value(d, measure)] else before;
    forall k | 0 <= k < Slots(g)
      ensures after[k] == expected[k]
    {
      BreakdownSlotStep(recs, f, g, measure, k);
    }
  }

  lemma BreakdownSlotStep(recs: seq<DayRecord>, f: Filter, g: Grouping, measure: Measure, k: int)
    requires recs != [] && 0 <= k < Slots(g)
    ensures var d := recs[|recs| - 1];
      Breakdown(recs, f, g, measure)[k] == Breakdown(recs[..|recs| - 1], f, g, measure)[k]
        + (if Holds(f, d) && SlotOf(d, g) == k then Value(d, measure) else 0.0)
  {
    var d := recs[|recs| - 1];
    assert Holds(Both(f, InSlot(g, k)), d) == (Holds(f, d) && SlotOf(d, g) == k);
  }

  /** One more record adds its hours to its own slot, when it is selected. */
  lemma BreakdownSnoc(recs: seq<DayRecord>, d: DayRecord, f: Filter, g: Grouping, measure: Measure)
    requires Bounded(d)
    ensures var before := Breakdown(recs, f, g, measure);
      Breakdown(recs + [d], f, g, measure)
        == if Holds(f, d) then before[SlotOf(d, g) := before[SlotOf(d, g)] + Value(d, measure)] else before
  {
    var all := recs + [d];
    assert all[..|all| - 1] == recs && all[|all| - 1] == d;
    BreakdownStep(all, f, g, measure);
  }

  lemma BreakdownOfNone(recs: seq<DayRecord>, f: Filter, g: Grouping, measure: Measure)
    ensures Breakdown(recs[..0], f, g, measure) == seq(Slots(g), k => 0.0)
  {
    assert recs[..0] == [];
  }

  /** One more record of a prefix adds its hours to its own slot, when it is selected. */
  lemma BreakdownPrefix(recs: seq<DayRecord>, i: int, f: Filter, g: Grouping, measure: Measure)
    requires 0 <= i < |recs| && AllBounded(recs)
    ensures var before, d := Breakdown(recs[..i], f, g, measure), recs[i];
      Breakdown(recs[..i + 1], f, g, measure)
        == if Holds(f, d) then before[SlotOf(d, g) := before[SlotOf(d, g)] + Value(d, measure)] else before
  {
    assert recs[..i + 1] == recs[..i] + [recs[i]];
    BreakdownSnoc(recs[..i], recs[i], f, g, measure);
  }

  /** The slots of a breakdown add up to the total it breaks down. */
  lemma {:induction false} BreakdownSums(recs: seq<DayRecord>, f: Filter, g: Grouping, measure: Measure)
    requires AllBounded(recs)
    ensures Sum(Breakdown(recs, f, g, measure)) == Total(recs, f, measure)
  {
    if recs == [] {
      SumZeros(Breakdown(recs, f, g, measure));
    } else {
      BreakdownSums(recs[..|recs| - 1], f, g, measure);
      BreakdownSumsStep(recs, f, g, measure);
    }
  }

  lemma BreakdownSumsStep(recs: seq<DayRecord>, f: Filter, g: Grouping, measure: Measure)
    requires recs != [] && Bounded(recs[|recs| - 1])
    requires Sum(Breakdown(recs[..|recs| - 1], f, g, measure)) == Total(recs[..|recs| - 1], f, measure)
    ensures Sum(Breakdown(recs, f, g, measure)) == Total(recs, f, measure)
  {
    TotalLast(recs, f, measure);
    BreakdownStep(recs, f, g, measure);
    if Holds(f, recs[|recs| - 1]) {
      SumsOfKept(recs, f, g, measure);
    }
  }

  lemma SumsOfKept(recs: seq<DayRecord>, f: Filter, g: Grouping, measure: Measure)
    requires recs != [] && Bounded(recs[|recs| - 1]) && Holds(f, recs[|recs| - 1])
    ensures var before, d := Breakdown(recs[..|recs| - 1], f, g, measure), recs[|recs| - 1];
      Sum(before[SlotOf(d, g) := before[SlotOf(d, g)] + Value(d, measure)]) == Sum(before) + Value(d, measure)
  {
    var last := recs[|recs| - 1];
    SumUpdate(Breakdown(recs[..|recs| - 1], f, g, measure), SlotOf(last, g), Value(last, measure));
  }

  lemma TotalLast(recs: seq<DayRecord>, f: Filter, measure: Measure)
    requires recs != []
    ensures var last := recs[|recs| - 1];
      Total(recs, f, measure) == Total(recs[..|recs| - 1], f, measure) + (if Holds(f, last) then Value(last, measure) else 0.0)
  {
  }

  lemma {:induction false} SumZeros(xs: seq<real>)
    requires forall k :: 0 <= k < |xs| ==> xs[k] == 0.0
    ensures Sum(xs) == 0.0
  {
    if xs != [] {
      SumZeros(xs[..|xs| - 1]);
    }
  }

  /**
    `totals[d.weekday] += d.hours` (or `monthTotals[d.m] += ...`) for every
    selected record: the breakdown of the selection.
   */
  method GroupTotals(recs: seq<DayRecord>, f: Filter, g: Grouping, measure: Measure) returns (totals: seq<real>)
    requires AllBounded(recs)
    ensures totals == Breakdown(recs, f, g, measure)
  {
    totals := seq(Slots(g), k => 0.0);
    BreakdownOfNone(recs, f, g, measure);
    var i := 0;
    while i < |recs|
      invariant 0 <= i <= |recs|
      invariant totals == Breakdown(recs[..i], f, g, measure)
    {
      var d := recs[i];
      BreakdownPrefix(recs, i, f, g, measure);
      if Holds(f, d) {
        var k := SlotOf(d, g);
        totals := totals[k := totals[k] + Value(d, measure)];
      }
      i := i + 1;
    }
    assert recs[..i] == recs;
  }

  // ----- per-window totals -----

  /**
    The inner loop of `weekTotals`: the effective hours of the selected
    records whose date falls in window `w`.
   */
  method WindowTotal(recs: seq<DayRecord>, f: Filter, w: Week) returns (sum: real)
    ensures sum == Total(recs, Both(f, InWindow(w)), Effective)
  {
    sum := 0.0;
    var i := 0;
    while i < |recs|
      invariant 0 <= i <= |recs|
      invariant sum == Total(recs[..i], Both(f, InWindow(w)), Effective)
    {
      var d := recs[i];
      assert recs[..i + 1][..i] == recs[..i] && recs[..i + 1][i] == d;
      assert Holds(Both(f, InWindow(w)), d) <==> Holds(f, d) && InRange(d.date, w.start, w.end);
      if Holds(f, d) && InRange(d.date, w.start, w.end) {
        sum := sum + d.hours;
      }
      i := i + 1;
    }
    assert recs[..i] == recs;
  }

  /** `weeks.map(w => ...)`: one window total per window. */
  method WeekTotals(recs: seq<DayRecord>, f: Filter, weeks: seq<Week>) returns (totals: seq<real>)
    ensures |totals| == |weeks|
    ensures forall i :: 0 <= i < |weeks| ==> totals[i] == Total(recs, Both(f, InWindow(weeks[i])), Effective)
  {
    totals := [];
    var i := 0;
    while i < |weeks|
      invariant 0 <= i <= |weeks| && |totals| == i
      invariant forall j :: 0 <= j < i ==> totals[j] == Total(recs, Both(f, InWindow(weeks[j])), Effective)
    {
      var sum := WindowTotal(recs, f, weeks[i]);
      totals := totals + [sum];
      i := i + 1;
    }
  }

  /**
    `const days = recs.filter(f); weeks.map(w => ...)`: the list is filtered
    first, then each window sums the effective hours of the kept records.
   */
  method SelectedWeekTotals(recs: seq<DayRecord>, f: Filter, weeks: seq<Week>) returns (totals: seq<real>)
    ensures |totals| == |weeks|
    ensures forall i :: 0 <= i < |weeks| ==> totals[i] == Total(recs, Both(f, InWindow(weeks[i])), Effective)
  {
    var kept := Select(recs, f);
    totals := WeekTotals(kept, Every, weeks);
    forall i | 0 <= i < |weeks|
      ensures totals[i] == Total(recs, Both(f, InWindow(weeks[i])), Effective)
    {
      SelectThenTotal(recs, f, InWindow(weeks[i]), Effective);
    }
  }

  /**
    The days `f` selects and their hours: effective, raw and lunch, the lunch
    hours counted as the number of days with a lunch break, as the views
    display them.
   */
  method ShiftHours(recs: seq<DayRecord>, f: Filter)
    returns (days: seq<DayRecord>, effective: real, raw: real, lunchHours: real, lunchDays: nat)
    requires AllBounded(recs)
    ensures days == Select(recs, f)
    ensures effective == Total(recs, f, Effective) && effective >= 0.0
    ensures raw == Total(recs, f, Raw) && lunchHours == Total(recs, f, LunchTime)
    ensures raw == effective + lunchHours
    ensures lunchDays == |Select(days, WithLunch)| && lunchHours == lunchDays as real
  {
    days := Select(recs, f);
    SelectBounded(recs, f);
    var withLunch := Select(days, WithLunch);
    effective := Total(days, Every, Effective);
    raw := Total(days, Every, Raw);
    lunchHours := Total(withLunch, Every, LunchTime);
    lunchDays := |withLunch|;
    LunchList(days);
    RawIsEffectivePlusLunch(days, Every);
    TotalNonNegative(days, Every, Effective);
    SelectThenTotal(recs, f, Every, Effective);
    SelectThenTotal(recs, f, Every, Raw);
    SelectThenTotal(recs, f, Every, LunchTime);
  }

  /** The hours of the days `f` selects, slot by slot, filtering first and grouping after. */
  method SelectedGroupTotals(recs: seq<DayRecord>, f: Filter, g: Grouping, measure: Measure) returns (totals: seq<real>)
    requires AllBounded(recs)
    ensures totals == Breakdown(recs, f, g, measure)
    ensures Sum(totals) == Total(recs, f, measure)
  {
    SelectBounded(recs, f);
    totals := GroupTotals(Select(recs, f), Every, g, measure);
    BreakdownOfSelect(recs, f, g, measure);
    BreakdownSums(recs, f, g, measure);
  }

  /** The days covered by `n` consecutive windows from day `start`. */
  function Span(start: int, n: nat): Week {
    Week(Date(start), Date(start + 7 * n - 1))
  }

  /** `weeks` are consecutive seven-day windows, the first starting on day `start`. */
  predicate Consecutive(weeks: seq<Week>, start: int) {
    forall i :: 0 <= i < |weeks| ==> weeks[i].start.day == start + 7 * i && weeks[i].end.day == start + 7 * i + 6
  }

  /**
    The window totals of consecutive windows add up to the total of the
    days they cover together: every day lies in exactly one of them.
   */
  lemma {:induction false} WindowTotalsSum(recs: seq<DayRecord>, f: Filter, weeks: seq<Week>, start: int, totals: seq<real>)
    requires Consecutive(weeks, start)
    requires |totals| == |weeks|
    requires forall i :: 0 <= i < |weeks| ==> totals[i] == Total(recs, Both(f, InWindow(weeks[i])), Effective)
    ensures Sum(totals) == Total(recs, Both(f, InWindow(Span(start, |weeks|))), Effective)
    decreases |weeks|
  {
    var n := |weeks|;
    if n == 0 {
      TotalOfEmptySpan(recs, f, start, Effective);
    } else {
      WindowTotalsSum(recs, f, weeks[..n - 1], start, totals[..n - 1]);
      assert totals[..n - 1] + [totals[n - 1]] == totals;
      assert weeks[n - 1] == Span(start + 7 * (n - 1), 1);
      SpanTotalStep(recs, f, start, n, Effective);
    }
  }

  /** No window at all covers no day. */
  lemma {:induction false} TotalOfEmptySpan(recs: seq<DayRecord>, f: Filter, start: int, measure: Measure)
    ensures Total(recs, Both(f, InWindow(Span(start, 0))), measure) == 0.0
  {
    if recs != [] {
      TotalOfEmptySpan(recs[..|recs| - 1], f, start, measure);
      assert !Holds(Both(f, InWindow(Span(start, 0))), recs[|recs| - 1]);
    }
  }

  /**
    The days of `n` windows are the days of the first `n - 1` windows and
    the days of the last one, which do not overlap: the totals add up.
   */
  lemma {:induction false} SpanTotalStep(recs: seq<DayRecord>, f: Filter, start: int, n: nat, measure: Measure)
    requires n >= 1
    ensures Total(recs, Both(f, InWindow(Span(start, n))), measure)
      == Total(recs, Both(f, InWindow(Span(start, n - 1))), measure)
        + Total(recs, Both(f, InWindow(Span(start + 7 * (n - 1), 1))), measure)
  {
    if recs != [] {
      SpanTotalStep(recs[..|recs| - 1], f, start, n, measure);
      SpanPart(recs[|recs| - 1], f, start, n, measure);
    }
  }

  lemma SpanPart(d: DayRecord, f: Filter, start: int, n: nat, measure: Measure)
    requires n >= 1
    ensures (if Holds(Both(f, InWindow(Span(start, n))), d) then Value(d, measure) else 0.0)
      == (if Holds(Both(f, InWindow(Span(start, n - 1))), d) then Value(d, measure) else 0.0)
        + (if Holds(Both(f, InWindow(Span(start + 7 * (n - 1), 1))), d) then Value(d, measure) else 0.0)
  {
  }

  // ----- the "top" scans and the averages -----

  /** `top` is the first position of a largest value of `xs`, and 0 when `xs` is empty. */
  predicate FirstMax(xs: seq<real>, top: nat) {
    && (xs == [] ==> top == 0)
    && (xs != [] ==> top < |xs|)
    && (forall j :: 0 <= j < |xs| ==> xs[j] <= xs[top])
    && (forall j :: 0 <= j < top ==> xs[j] < xs[top])
  }

  /** `top` is no day for an empty list, otherwise the first day with the most effective hours. */
  predicate FirstMostHours(days: seq<DayRecord>, top: Option<DayRecord>) {
    && (top.None? <==> days == [])
    && (top.Some? ==> exists i :: (
         && 0 <= i < |days| && days[i] == top.value
         && (forall j :: 0 <= j < |days| ==> days[j].hours <= top.value.hours)
         && (forall j :: 0 <= j < i ==> days[j].hours < top.value.hours)))
  }

  /**
    `let top = 0; for (i = 1; ...) if (xs[i] > xs[top]) top = i;`: the first
    position of a largest value, and 0 for an empty list.
   */
  method TopIndex(xs: seq<real>) returns (top: nat)
    ensures xs == [] ==> top == 0
    ensures xs != [] ==> top < |xs|
    ensures forall j :: 0 <= j < |xs| ==> xs[j] <= xs[top]
    ensures forall j :: 0 <= j < top ==> xs[j] < xs[top]
  {
    top := 0;
    if xs == [] {
      return;
    }
    var i := 1;
    while i < |xs|
      invariant 1 <= i <= |xs| && top < i
      invariant forall j :: 0 <= j < i ==> xs[j] <= xs[top]
      invariant forall j :: 0 <= j < top ==> xs[j] < xs[top]
    {
      if xs[i] > xs[top] {
        top := i;
      }
      i := i + 1;
    }
  }

  /**
    `for (const d of days) if (!topDay || d.hours > topDay.hours) topDay = d`:
    no day for an empty list, otherwise the first day with the most effective
    hours.
   */
  method TopDay(days: seq<DayRecord>) returns (top: Option<DayRecord>)
    ensures top.None? <==> days == []
    ensures top.Some? ==> exists i :: (
      && 0 <= i < |days| && days[i] == top.value
      && (forall j :: 0 <= j < |days| ==> days[j].hours <= top.value.hours)
      && (forall j :: 0 <= j < i ==> days[j].hours < top.value.hours))
  {
    top := None;
    ghost var at := 0;
    var i := 0;
    while i < |days|
      invariant 0 <= i <= |days|
      invariant top.None? <==> i == 0
      invariant top.Some? ==> 0 <= at < i && days[at] == top.value
      invariant top.Some? ==> forall j :: 0 <= j < i ==> days[j].hours <= top.value.hours
      invariant top.Some? ==> forall j :: 0 <= j < at ==> days[j].hours < top.value.hours
    {
      var d := days[i];
      if top.None? || d.hours > top.value.hours {
        top := Some(d);
        at := i;
      }
      i := i + 1;
    }
  }

  /** The weekly average: the sum of the window totals over their number, 0 with no windows. */
  function WeekAverage(totals: seq<real>): (avg: real)
    ensures totals == [] ==> avg == 0.0
    ensures totals != [] ==> avg * |totals| as real == Sum(totals)
  {
    if totals == [] then 0.0 else Sum(totals) / |totals| as real
  }

  /** The monthly average always divides by 12, whichever months have data. */
  function MonthAverage(totals: seq<real>): (avg: real)
    ensures avg * 12.0 == Sum(totals)
  {
    Sum(totals) / 12.0
  }

  // ----- days of the year with and without a shift -----

  /** A date counts as worked when the index holds a record with a shift under its key. */
  predicate Covered(index: map<string, DayRecord>, date: Date) {
    IsoKey(date) in index && index[IsoKey(date)].hasShift
  }

  /** The day numbers of the worked dates of `year`. */
  ghost function CoveredDays(index: map<string, DayRecord>, year: int): set<int> {
    CoveredBetween(index, YearFirst(year).day, YearLast(year).day + 1)
  }

  /** The day numbers from `a` up to but not including `b` of the worked dates. */
  ghost function CoveredBetween(index: map<string, DayRecord>, a: int, b: int): set<int> {
    set n | a <= n < b && Covered(index, Date(n))
  }

  /** The keys under which the index holds a record with a shift. */
  ghost function ShiftKeys(index: map<string, DayRecord>): set<string> {
    set k | k in index && index[k].hasShift
  }

  /**
    The day-by-day walk of `renderYearKPIs`: every date from 1 January to
    31 December counts as worked when its key holds a record with a shift,
    and as not worked otherwise, including dates with no record at all.
   */
  method YearCoverage(index: map<string, DayRecord>, year: int) returns (worked: nat, idle: nat)
    requires !(0 <= year <= 99)
    ensures worked + idle == DaysInYear(year)
    ensures worked == |CoveredDays(index, year)|
  {
    var first, last := YearFirst(year), YearLast(year);
    YearDays(year);
    assert CoveredDays(index, year) == CoveredBetween(index, first.day, last.day + 1);
    worked, idle := WalkDays(index, first, last);
  }

  /** `for (dt = first; dt <= last; dt.setDate(dt.getDate() + 1))`, counting worked and other days. */
  method WalkDays(index: map<string, DayRecord>, first: Date, last: Date) returns (worked: nat, idle: nat)
    requires first.day <= last.day + 1
    ensures worked + idle == last.day - first.day + 1
    ensures worked == |CoveredBetween(index, first.day, last.day + 1)|
  {
    worked, idle := 0, 0;
    CoveredNone(index, first.day);
    var dt := first;
    while dt.day <= last.day
      invariant first.day <= dt.day <= last.day + 1
      invariant worked + idle == dt.day - first.day
      invariant worked == |CoveredBetween(index, first.day, dt.day)|
      decreases last.day - dt.day
    {
      var hit := VisitDay(index, dt, first.day);
      if hit {
        worked := worked + 1;
      } else {
        idle := idle + 1;
      }
      ghost var next := dt.day + 1;
      dt := dt.AddDays(1);
      assert dt.day == next;
    }
  }

  /**
    One day of the walk: the date's key is looked up, and the day is counted
    as worked exactly when the worked days so far gain it.
   */
  method VisitDay(index: map<string, DayRecord>, dt: Date, ghost a: int) returns (hit: bool)
    requires a <= dt.day
    ensures |CoveredBetween(index, a, dt.day + 1)| == |CoveredBetween(index, a, dt.day)| + (if hit then 1 else 0)
  {
    var key := IsoKey(dt);
    hit := key in index && index[key].hasShift;
    CountDate(index, a, dt, hit);
  }

  lemma CountDate(index: map<string, DayRecord>, a: int, dt: Date, hit: bool)
    requires a <= dt.day && hit == (IsoKey(dt) in index && index[IsoKey(dt)].hasShift)
    ensures |CoveredBetween(index, a, dt.day + 1)| == |CoveredBetween(index, a, dt.day)| + (if hit then 1 else 0)
  {
    assert dt == Date(dt.day);
    CountDay(index, a, dt.day, hit);
  }

  lemma CountDay(index: map<string, DayRecord>, a: int, b: int, hit: bool)
    requires a <= b && hit == Covered(index, Date(b))
    ensures |CoveredBetween(index, a, b + 1)| == |CoveredBetween(index, a, b)| + (if hit then 1 else 0)
  {
    CoveredNext(index, a, b);
  }

  /** One more day of the walk adds that day when it is worked. */
  lemma CoveredNext(index: map<string, DayRecord>, a: int, b: int)
    requires a <= b
    ensures |CoveredBetween(index, a, b + 1)| == |CoveredBetween(index, a, b)| + (if Covered(index, Date(b)) then 1 else 0)
  {
    CoveredStep(index, a, b);
    NotYetCovered(index, a, b);
    SizeOfStep(CoveredBetween(index, a, b), b, Covered(index, Date(b)));
  }

  lemma SizeOfStep(s: set<int>, b: int, hit: bool)
    requires b !in s
    ensures |s + (if hit then {b} else {})| == |s| + (if hit then 1 else 0)
  {
    if !hit {
      assert s + {} == s;
    }
  }

  lemma NotYetCovered(index: map<string, DayRecord>, a: int, b: int)
    ensures b !in CoveredBetween(index, a, b)
  {
  }

  lemma CoveredNone(index: map<string, DayRecord>, a: int)
    ensures CoveredBetween(index, a, a) == {}
  {
  }

  lemma CoveredStep(index: map<string, DayRecord>, a: int, b: int)
    requires a <= b
    ensures CoveredBetween(index, a, b + 1)
      == CoveredBetween(index, a, b) + (if Covered(index, Date(b)) then {b} else {})
  {
  }

  /** The key of a day number. */
  function DayKey(n: int): string {
    IsoKey(Date(n))
  }

  /** The keys `key` gives a set of day numbers. */
  ghost function Image(days: set<int>, key: int -> string): set<string> {
    set n | n in days :: key(n)
  }

  /** A function that tells the days apart gives as many keys as there are days. */
  lemma {:induction false} ImageSize(days: set<int>, key: int -> string)
    requires forall a, b :: a in days && b in days && key(a) == key(b) ==> a == b
    ensures |Image(days, key)| == |days|
    decreases |days|
  {
    if forall n :: n !in days {
      assert days == {} && Image(days, key) == {};
    } else {
      var x :| x in days;
      var rest := days - {x};
      ImageSize(rest, key);
      assert Image(days, key) == Image(rest, key) + {key(x)};
      assert key(x) !in Image(rest, key);
    }
  }

  /**
    When every record of the index is filed under its own date's key and
    dated in `year`, the worked days of the year are exactly the keys that
    hold a shift: one per distinct date.
   */
  lemma WorkedDaysAreShiftKeys(index: map<string, DayRecord>, year: int)
    requires !(0 <= year <= 99)
    requires forall k :: k in index ==> k == IsoKey(index[k].date) && index[k].date.FullYear() == year
    ensures |CoveredDays(index, year)| == |ShiftKeys(index)|
  {
    var days := CoveredDays(index, year);
    ShiftKeysOfDays(index, year);
    forall a, b | a in days && b in days && DayKey(a) == DayKey(b)
      ensures a == b
    {
      IsoKeyInjective(Date(a), Date(b));
    }
    ImageSize(days, DayKey);
  }

  /** The keys holding a shift are the keys of the worked days. */
  lemma ShiftKeysOfDays(index: map<string, DayRecord>, year: int)
    requires !(0 <= year <= 99)
    requires forall k :: k in index ==> k == IsoKey(index[k].date) && index[k].date.FullYear() == year
    ensures ShiftKeys(index) == Image(CoveredDays(index, year), DayKey)
  {
    var days := CoveredDays(index, year);
    forall k | k in ShiftKeys(index)
      ensures k in Image(days, DayKey)
    {
      ShiftKeyIsWorkedDay(index, year, k);
    }
  }

  /** A key holding a shift is the key of a worked day. */
  lemma ShiftKeyIsWorkedDay(index: map<string, DayRecord>, year: int, k: string)
    requires !(0 <= year <= 99)
    requires k in index && index[k].hasShift
    requires k == IsoKey(index[k].date) && index[k].date.FullYear() == year
    ensures index[k].date.day in CoveredDays(index, year) && DayKey(index[k].date.day) == k
  {
    var date := index[k].date;
    InYear(date, year);
    assert Date(date.day) == date;
  }

  // ----- the bar chart -----

  /** `Math.max(...totals, 1)`: the largest total, and never less than 1. */
  function BarScale(totals: seq<real>): (top: real)
    ensures top >= 1.0
    ensures forall i :: 0 <= i < |totals| ==> totals[i] <= top
    ensures top == 1.0 || exists i :: 0 <= i < |totals| && totals[i] == top
  {
    if totals == [] then 1.0
    else
      var rest := BarScale(totals[..|totals| - 1]);
      var last := totals[|totals| - 1];
      if last > rest then last else rest
  }

  /** The height of a bar, in percent of the tallest. */
  function BarHeight(total: real, scale: real): real
    requires scale > 0.0
  {
    total / scale * 100.0
  }

  /** No bar is taller than 100%, nor, with hours never negative, below 0%. */
  lemma BarHeightsInRange(totals: seq<real>, i: int)
    requires 0 <= i < |totals| && totals[i] >= 0.0
    ensures 0.0 <= BarHeight(totals[i], BarScale(totals)) <= 100.0
  {
    var top := BarScale(totals);
    assert totals[i] <= top;
    FractionAtMostOne(totals[i], top);
  }

  lemma FractionAtMostOne(a: real, b: real)
    requires 0.0 <= a <= b && b > 0.0
    ensures 0.0 <= a / b * 100.0 <= 100.0
  {
  }
}
