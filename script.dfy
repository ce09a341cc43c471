/**
 * The dashboard script itself, step by step: the data frame `df` is
 * reassigned by each preparation step, the weekly figures are read off it,
 * and the loop over the days of the week builds the per-day summaries.
 */
module Script {
  import opened Table
  import opened Pipeline

  /**
   * The figures the script shows for one day that has rows: its three sums
   * and its two groupbys, which are consistent with each other.
   */
  method SummarizeDay(df: seq<Record>, day: string) returns (s: DaySummary)
    requires forall r :: r in df ==> Classified(r)
    requires Where(df, Equals(DayColumn, day)) != []
    ensures s.day == day
    ensures s.totals == TotalsOf(Where(df, Equals(DayColumn, day)))
    ensures s.byTaskType == GroupBy(Where(df, Equals(DayColumn, day)), TaskTypeColumn)
    ensures s.bySkillLevel == GroupBy(Where(df, Equals(DayColumn, day)), SkillLevelColumn)
    ensures Consistent(s.totals, s.byTaskType, s.bySkillLevel)
  {
    var dayDf := Where(df, Equals(DayColumn, day));
    var dailyTotal := Hours(dayDf, All);
    var dailySenior := Hours(dayDf, SeniorMask);
    var dailyHotTub := Hours(dayDf, HotTubMask);
    var taskBreakdown := GroupBy(dayDf, TaskTypeColumn);
    var skillBreakdown := GroupBy(dayDf, SkillLevelColumn);
    s := DaySummary(day, Totals(dailyTotal, dailySenior, dailyHotTub), taskBreakdown, skillBreakdown);
    WhereSubset(df, Equals(DayColumn, day));
    FrameConsistent(dayDf);
  }

  /** The loop over the days of the week: one summary for each day, Monday to Saturday, that has rows. */
  method SummarizeDays(df: seq<Record>) returns (days: seq<DaySummary>)
    requires forall r :: r in df ==> Classified(r)
    ensures days == DailyOver(df, DaysOrder)
  {
    days := [];
    for d := 0 to |DaysOrder|
      invariant days == DailyOver(df, DaysOrder[..d])
    {
      var day := DaysOrder[d];
      DaysOrderNext(df, d);
      if Where(df, Equals(DayColumn, day)) != [] {
        var s := SummarizeDay(df, day);
        days := days + [s];
      }
    }
    assert DaysOrder[..|DaysOrder|] == DaysOrder;
  }

  /**
   * One run of the script on an upload, as written: it stops with an error
   * at the classification step when dropna leaves no row (`None`), and
   * otherwise shows the report `Analysis` describes, which adds up.
   */
  method RunAnalysis(rows: seq<Row>) returns (report: Option<Report>)
    ensures report == AsWritten(rows)
    ensures report.Some? ==> AddsUp(report.value)
  {
    var dated := DropUndated(rows);
    if dated == [] {
      return None;
    }
    var sorted := SortByDue(dated);
    var df := Annotate(sorted);
    df := MonToSat(df);
    assert df == Prepare(rows);
    PrepareKeepsMonToSat(rows);

    var weekly := Totals(Hours(df, All), Hours(df, SeniorMask), Hours(df, HotTubMask));
    var weeklySummary := GroupBy(df, TaskTypeColumn);
    var days := SummarizeDays(df);
    report := Some(Report(weekly, weeklySummary, days));
    AnalysisAddsUp(rows);
  }
}
