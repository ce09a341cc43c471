/**
 * The weekly analysis: the uploaded rows pass through the script's steps
 * (drop rows without a parseable due date, sort by due date, classify each
 * title, keep Monday to Saturday) and are then summed into the weekly
 * figures, the weekly hours per task type and, day by day from Monday to
 * Saturday, the same figures for each day that has rows.
 */
module Pipeline {
  import opened Text
  import opened Classifier
  import opened Table

  datatype Option<T> = None | Some(value: T)

  /**
   * One uploaded row: the tenth column (renamed "Task Title") and the
   * nineteenth ("Due Date") after `to_datetime(..., errors="coerce")`;
   * `None` stands for a date that did not parse.
   */
  datatype Row = Row(title: string, due: Option<Due>)

  /** A row whose due date parsed. */
  datatype DatedRow = DatedRow(title: string, due: Due)

  // ---------------------------------------------------------------------------
  // The preparation steps
  // ---------------------------------------------------------------------------

  /** `dropna(subset=["Due Date"])`. */
  function DropUndated(rows: seq<Row>): seq<DatedRow> {
    if rows == [] then []
    else
      var last := rows[|rows| - 1];
      DropUndated(rows[..|rows| - 1]) + (if last.due.Some? then [DatedRow(last.title, last.due.value)] else [])
  }

  predicate SortedByDue(rs: seq<DatedRow>) {
    forall i, j :: 0 <= i < j < |rs| ==> rs[i].due.dateKey <= rs[j].due.dateKey
  }

  /** Inserts `x` after every row due no later than it. */
  function InsertByDue(rs: seq<DatedRow>, x: DatedRow): (r: seq<DatedRow>)
    requires SortedByDue(rs)
    ensures SortedByDue(r)
    ensures multiset(r) == multiset(rs) + multiset{x}
  {
    if rs == [] then [x]
    else if x.due.dateKey < rs[0].due.dateKey then
      SortedCons(x, rs);
      [x] + rs
    else
      var tail := InsertByDue(rs[1..], x);
      assert rs == [rs[0]] + rs[1..];
      DueNoEarlier(rs, x, tail);
      SortedCons(rs[0], tail);
      [rs[0]] + tail
  }

  lemma SortedCons(h: DatedRow, rs: seq<DatedRow>)
    requires SortedByDue(rs)
    requires forall y :: y in rs ==> h.due.dateKey <= y.due.dateKey
    ensures SortedByDue([h] + rs)
  {
    forall i, j | 0 <= i < j < |rs| + 1
      ensures ([h] + rs)[i].due.dateKey <= ([h] + rs)[j].due.dateKey
    {
      assert ([h] + rs)[j] == rs[j - 1];
      if i > 0 {
        assert ([h] + rs)[i] == rs[i - 1];
      }
    }
  }

  /** The rows of an insertion into the tail of a sorted list are due no earlier than its head. */
  lemma DueNoEarlier(rs: seq<DatedRow>, x: DatedRow, tail: seq<DatedRow>)
    requires rs != [] && SortedByDue(rs) && rs[0].due.dateKey <= x.due.dateKey
    requires multiset(tail) == multiset(rs[1..]) + multiset{x}
    ensures forall y :: y in tail ==> rs[0].due.dateKey <= y.due.dateKey
  {
    forall y | y in tail
      ensures rs[0].due.dateKey <= y.due.dateKey
    {
      assert y in multiset(tail);
      if y != x {
        assert y in multiset(rs[1..]);
        var k :| 0 <= k < |rs[1..]| && rs[1..][k] == y;
        assert rs[k + 1] == y;
      }
    }
  }

  /** `sort_values("Due Date")`: the same rows, ordered by due date. */
  function SortByDue(rs: seq<DatedRow>): (r: seq<DatedRow>)
    ensures SortedByDue(r)
    ensures multiset(r) == multiset(rs)
  {
    if rs == [] then []
    else
      assert rs == rs[..|rs| - 1] + [rs[|rs| - 1]];
      InsertByDue(SortByDue(rs[..|rs| - 1]), rs[|rs| - 1])
  }

  function Annotated(r: DatedRow): Record {
    Record(r.title, r.due, Categorize(r.title))
  }

  /** Fills in the "Task Type", "Hours" and "Skill Level" columns of every row. */
  function Annotate(rs: seq<DatedRow>): seq<Record> {
    if rs == [] then [] else Annotate(rs[..|rs| - 1]) + [Annotated(rs[|rs| - 1])]
  }

  /** `df[df["Due Date"].dt.weekday < 6]`: Monday to Saturday only. */
  function MonToSat(df: seq<Record>): seq<Record> {
    if df == [] then []
    else
      var last := df[|df| - 1];
      MonToSat(df[..|df| - 1]) + (if last.due.weekday < 6 then [last] else [])
  }

  /** The data frame that the summaries read, in the script's order of steps. */
  function Prepare(rows: seq<Row>): seq<Record> {
    MonToSat(Annotate(SortByDue(DropUndated(rows))))
  }

  /** The same rows without the sort: the order-free description of the frame. */
  function Unsorted(rows: seq<Row>): seq<Record> {
    MonToSat(Annotate(DropUndated(rows)))
  }

  // ---------------------------------------------------------------------------
  // The summaries
  // ---------------------------------------------------------------------------

  /** Total, "Senior Preferred" and "Hot Tub" hours of a frame, in half-hours. */
  datatype Totals = Totals(total: nat, senior: nat, hotTub: nat)

  function TotalsOf(df: seq<Record>): Totals {
    Totals(Hours(df, All), Hours(df, SeniorMask), Hours(df, HotTubMask))
  }

  datatype DaySummary = DaySummary(day: string, totals: Totals, byTaskType: seq<Group>, bySkillLevel: seq<Group>)

  datatype Report = Report(weekly: Totals, byTaskType: seq<Group>, days: seq<DaySummary>)

  const DaysOrder: seq<string> := ["Monday", "Tuesday", "Wednesday", "Thursday", "Friday", "Saturday"]

  /** The per-day summaries for `days`, in that order, skipping days without rows. */
  function DailyOver(df: seq<Record>, days: seq<string>): seq<DaySummary> {
    if days == [] then []
    else
      var day := days[|days| - 1];
      var dayDf := Where(df, Equals(DayColumn, day));
      DailyOver(df, days[..|days| - 1])
        + (if dayDf == [] then []
           else [DaySummary(day, TotalsOf(dayDf), GroupBy(dayDf, TaskTypeColumn), GroupBy(dayDf, SkillLevelColumn))])
  }

  function Summarize(df: seq<Record>): Report {
    Report(TotalsOf(df), GroupBy(df, TaskTypeColumn), DailyOver(df, DaysOrder))
  }

  /** Everything the dashboard shows for one upload. */
  function Analysis(rows: seq<Row>): Report {
    Summarize(Prepare(rows))
  }

  /** The sum of the listed days' totals. */
  function DayTotal(ds: seq<DaySummary>): nat {
    if ds == [] then 0 else DayTotal(ds[..|ds| - 1]) + ds[|ds| - 1].totals.total
  }

  /** The figures of one frame are consistent with each other. */
  predicate Consistent(t: Totals, byTaskType: seq<Group>, bySkillLevel: seq<Group>) {
    && t.senior + t.hotTub <= t.total
    && GroupTotal(byTaskType) == t.total
    && GroupTotal(bySkillLevel) == t.total
  }

  // ---------------------------------------------------------------------------
  // What the preparation steps keep
  // ---------------------------------------------------------------------------

  lemma {:induction false} DropUndatedCount(rows: seq<Row>, x: DatedRow)
    ensures multiset(DropUndated(rows))[x] == multiset(rows)[Row(x.title, Some(x.due))]
    decreases |rows|
  {
    if rows != [] {
      assert rows == rows[..|rows| - 1] + [rows[|rows| - 1]];
      DropUndatedCount(rows[..|rows| - 1], x);
    }
  }

  lemma {:induction false} AnnotateCount(rs: seq<DatedRow>, x: Record)
    ensures multiset(Annotate(rs))[x] == if Classified(x) then multiset(rs)[DatedRow(x.title, x.due)] else 0
    decreases |rs|
  {
    if rs != [] {
      assert rs == rs[..|rs| - 1] + [rs[|rs| - 1]];
      AnnotateCount(rs[..|rs| - 1], x);
    }
  }

  lemma {:induction false} MonToSatCount(df: seq<Record>, x: Record)
    ensures multiset(MonToSat(df))[x] == if x.due.weekday < 6 then multiset(df)[x] else 0
    decreases |df|
  {
    if df != [] {
      assert df == df[..|df| - 1] + [df[|df| - 1]];
      MonToSatCount(df[..|df| - 1], x);
    }
  }

  /**
   * How often a record is in the prepared frame: as often as its row was
   * uploaded, when it is the classifier's annotation of a row due Monday to
   * Saturday; otherwise never. Sorting adds, drops and changes nothing.
   */
  lemma PrepareCount(rows: seq<Row>, x: Record)
    ensures multiset(Prepare(rows))[x] == multiset(Unsorted(rows))[x]
    ensures multiset(Prepare(rows))[x]
         == if Classified(x) && x.due.weekday < 6 then multiset(rows)[Row(x.title, Some(x.due))] else 0
  {
    var dated := DropUndated(rows);
    MonToSatCount(Annotate(SortByDue(dated)), x);
    MonToSatCount(Annotate(dated), x);
    AnnotateCount(SortByDue(dated), x);
    AnnotateCount(dated, x);
    DropUndatedCount(rows, DatedRow(x.title, x.due));
  }

  /** Rows whose dates all parsed are all kept, in order. */
  lemma {:induction false} DropUndatedOfDated(rows: seq<Row>)
    requires forall i :: 0 <= i < |rows| ==> rows[i].due.Some?
    ensures |DropUndated(rows)| == |rows|
    ensures forall i :: 0 <= i < |rows| ==> DropUndated(rows)[i] == DatedRow(rows[i].title, rows[i].due.value)
    decreases |rows|
  {
    if rows != [] {
      DropUndatedOfDated(rows[..|rows| - 1]);
    }
  }

  /** Every row gets the triple of its own title. */
  lemma {:induction false} AnnotateEach(rs: seq<DatedRow>)
    ensures |Annotate(rs)| == |rs|
    ensures forall i :: 0 <= i < |rs| ==> Annotate(rs)[i] == Annotated(rs[i])
    decreases |rs|
  {
    if rs != [] {
      var front := rs[..|rs| - 1];
      AnnotateEach(front);
      var r := Annotate(front) + [Annotated(rs[|rs| - 1])];
      assert Annotate(rs) == r;
      forall i | 0 <= i < |rs|
        ensures r[i] == Annotated(rs[i])
      {
        if i < |front| {
          assert r[i] == Annotate(front)[i];
          assert front[i] == rs[i];
        }
      }
    }
  }

  /** A frame of Monday-to-Saturday records passes the weekday filter unchanged. */
  lemma {:induction false} MonToSatOfWeekdays(df: seq<Record>)
    requires forall i :: 0 <= i < |df| ==> df[i].due.weekday < 6
    ensures MonToSat(df) == df
    decreases |df|
  {
    if df != [] {
      MonToSatOfWeekdays(df[..|df| - 1]);
      assert df[..|df| - 1] + [df[|df| - 1]] == df;
    }
  }

  /** Every record of the prepared frame is classified from its title and due Monday to Saturday. */
  lemma PrepareKeepsMonToSat(rows: seq<Row>)
    ensures forall r :: r in Prepare(rows) ==> Classified(r) && r.due.weekday < 6
  {
    forall r | r in Prepare(rows)
      ensures Classified(r) && r.due.weekday < 6
    {
      PrepareCount(rows, r);
    }
  }

  /** Sorting changes the order of the frame and nothing else. */
  lemma PrepareIsUnsortedPermuted(rows: seq<Row>)
    ensures multiset(Prepare(rows)) == multiset(Unsorted(rows))
  {
    forall x
      ensures multiset(Prepare(rows))[x] == multiset(Unsorted(rows))[x]
    {
      PrepareCount(rows, x);
    }
  }

  // ---------------------------------------------------------------------------
  // Conservation and bounds
  // ---------------------------------------------------------------------------

  lemma {:induction false} DailyOverTotal(df: seq<Record>, days: seq<string>)
    ensures DayTotal(DailyOver(df, days)) == KeyedHours(df, DayColumn, days)
    decreases |days|
  {
    if days != [] {
      var ds, day := days[..|days| - 1], days[|days| - 1];
      var dayDf := Where(df, Equals(DayColumn, day));
      var rest := DailyOver(df, ds);
      DailyOverTotal(df, ds);
      HoursOfWhere(df, Equals(DayColumn, day));
      if dayDf == [] {
        assert DailyOver(df, days) == rest;
      } else {
        var s := DaySummary(day, TotalsOf(dayDf), GroupBy(dayDf, TaskTypeColumn), GroupBy(dayDf, SkillLevelColumn));
        assert DailyOver(df, days) == rest + [s];
        assert (rest + [s])[..|rest|] == rest;
      }
    }
  }

  lemma DaysOrderDistinct()
    ensures Distinct(DaysOrder)
    ensures forall w: Weekday :: w < 6 ==> DaysOrder[w] == DayName(w)
  {
  }

  /** The totals and groupings of a frame of classified records are consistent. */
  lemma FrameConsistent(df: seq<Record>)
    requires forall r :: r in df ==> Classified(r)
    ensures Consistent(TotalsOf(df), GroupBy(df, TaskTypeColumn), GroupBy(df, SkillLevelColumn))
  {
    SeniorPlusHotTubAtMostTotal(df);
    GroupByConserves(df, TaskTypeColumn);
    GroupByConserves(df, SkillLevelColumn);
  }

  lemma {:induction false} DailyOverConsistent(df: seq<Record>, days: seq<string>)
    requires forall r :: r in df ==> Classified(r)
    ensures forall i :: 0 <= i < |DailyOver(df, days)| ==>
      var s := DailyOver(df, days)[i];
      Consistent(s.totals, s.byTaskType, s.bySkillLevel)
    decreases |days|
  {
    if days != [] {
      var ds, day := days[..|days| - 1], days[|days| - 1];
      var dayDf := Where(df, Equals(DayColumn, day));
      var rest := DailyOver(df, ds);
      DailyOverConsistent(df, ds);
      WhereSubset(df, Equals(DayColumn, day));
      FrameConsistent(dayDf);
      if dayDf != [] {
        var s := DaySummary(day, TotalsOf(dayDf), GroupBy(dayDf, TaskTypeColumn), GroupBy(dayDf, SkillLevelColumn));
        assert DailyOver(df, days) == rest + [s];
      } else {
        assert DailyOver(df, days) == rest;
      }
    }
  }

  /**
   * The report adds up: senior and hot-tub hours fit within the total, the
   * task-type groups sum to the total, the Monday-to-Saturday day totals sum
   * to the total, and within each listed day its task-type groups and its
   * skill-level groups sum to that day's total.
   */
  predicate AddsUp(r: Report) {
    && r.weekly.senior + r.weekly.hotTub <= r.weekly.total
    && GroupTotal(r.byTaskType) == r.weekly.total
    && DayTotal(r.days) == r.weekly.total
    && forall i :: 0 <= i < |r.days| ==> Consistent(r.days[i].totals, r.days[i].byTaskType, r.days[i].bySkillLevel)
  }

  lemma AnalysisAddsUp(rows: seq<Row>)
    ensures AddsUp(Analysis(rows))
  {
    var df := Prepare(rows);
    PrepareKeepsMonToSat(rows);
    FrameConsistent(df);
    DailyOverConsistent(df, DaysOrder);
    DaysAddUp(df);
  }

  /** Over a Monday-to-Saturday frame, the day totals add up to the frame's total. */
  lemma DaysAddUp(df: seq<Record>)
    requires forall r :: r in df ==> r.due.weekday < 6
    ensures DayTotal(DailyOver(df, DaysOrder)) == Hours(df, All)
  {
    DailyOverTotal(df, DaysOrder);
    DaysOrderDistinct();
    forall r | r in df
      ensures Cell(r, DayColumn) in DaysOrder
    {
      assert DaysOrder[r.due.weekday] == DayName(r.due.weekday);
    }
    PartitionHours(df, DayColumn, DaysOrder);
  }

  /** The days a list of summaries covers, in order. */
  function DayNames(ds: seq<DaySummary>): seq<string> {
    seq(|ds|, i requires 0 <= i < |ds| => ds[i].day)
  }

  /** The summaries of `days` followed by one more day. */
  lemma DailyOverAppend(df: seq<Record>, days: seq<string>, day: string)
    ensures var dayDf := Where(df, Equals(DayColumn, day));
      DailyOver(df, days + [day]) == DailyOver(df, days)
        + (if dayDf == [] then [] else [DaySummary(day, TotalsOf(dayDf), GroupBy(dayDf, TaskTypeColumn), GroupBy(dayDf, SkillLevelColumn))])
  {
    assert (days + [day])[..|days|] == days;
  }

  /** The summaries of the first `d + 1` days of the week, from those of the first `d`. */
  lemma DaysOrderNext(df: seq<Record>, d: nat)
    requires d < |DaysOrder|
    ensures var day := DaysOrder[d];
      var dayDf := Where(df, Equals(DayColumn, day));
      DailyOver(df, DaysOrder[..d + 1]) == DailyOver(df, DaysOrder[..d])
        + (if dayDf == [] then [] else [DaySummary(day, TotalsOf(dayDf), GroupBy(dayDf, TaskTypeColumn), GroupBy(dayDf, SkillLevelColumn))])
  {
    assert DaysOrder[..d + 1] == DaysOrder[..d] + [DaysOrder[d]];
    DailyOverAppend(df, DaysOrder[..d], DaysOrder[d]);
  }

  /** One step of the loop over the days: the last day is listed after the others exactly when it has rows. */
  lemma DailyOverStep(df: seq<Record>, days: seq<string>)
    requires days != []
    ensures var ds, last := days[..|days| - 1], days[|days| - 1];
      DayNames(DailyOver(df, days))
        == DayNames(DailyOver(df, ds)) + (if Where(df, Equals(DayColumn, last)) == [] then [] else [last])
  {
    var ds, last := days[..|days| - 1], days[|days| - 1];
    var dayDf := Where(df, Equals(DayColumn, last));
    var rest := DailyOver(df, ds);
    if dayDf != [] {
      var s := DaySummary(last, TotalsOf(dayDf), GroupBy(dayDf, TaskTypeColumn), GroupBy(dayDf, SkillLevelColumn));
      assert DailyOver(df, days) == rest + [s];
      assert DayNames(rest + [s]) == DayNames(rest) + [last];
    } else {
      assert DailyOver(df, days) == rest;
    }
  }

  /** A day is listed exactly when some row of the frame falls on it; days without rows are skipped. */
  lemma DailyOverLists(df: seq<Record>, days: seq<string>, day: string)
    ensures day in DayNames(DailyOver(df, days)) <==> (day in days && exists r :: r in df && Cell(r, DayColumn) == day)
  {
    ListedWhenSelected(df, days, day);
    SelectionEmpty(df, DayColumn, day);
  }

  lemma {:induction false} ListedWhenSelected(df: seq<Record>, days: seq<string>, day: string)
    ensures day in DayNames(DailyOver(df, days)) <==> (day in days && Where(df, Equals(DayColumn, day)) != [])
    decreases |days|
  {
    if days != [] {
      var ds, last := days[..|days| - 1], days[|days| - 1];
      ListedWhenSelected(df, ds, day);
      ListedStep(df, days, day);
      assert days == ds + [last];
    }
  }

  lemma ListedStep(df: seq<Record>, days: seq<string>, day: string)
    requires days != []
    ensures var ds, last := days[..|days| - 1], days[|days| - 1];
      (day in DayNames(DailyOver(df, days)))
        <==> (day in DayNames(DailyOver(df, ds)) || (day == last && Where(df, Equals(DayColumn, last)) != []))
  {
    DailyOverStep(df, days);
  }

  /**
   * Every listed day holds that day's figures: it is one of `days`, it has
   * rows, and its sums and groupbys are those of its own rows.
   */
  lemma {:induction false} DailyOverValues(df: seq<Record>, days: seq<string>)
    ensures forall s :: s in DailyOver(df, days) ==>
      var dayDf := Where(df, Equals(DayColumn, s.day));
      && s.day in days && dayDf != []
      && s.totals == TotalsOf(dayDf)
      && s.byTaskType == GroupBy(dayDf, TaskTypeColumn)
      && s.bySkillLevel == GroupBy(dayDf, SkillLevelColumn)
    decreases |days|
  {
    if days != [] {
      var ds, last := days[..|days| - 1], days[|days| - 1];
      var dayDf := Where(df, Equals(DayColumn, last));
      var rest := DailyOver(df, ds);
      DailyOverValues(df, ds);
      assert days == ds + [last];
      if dayDf != [] {
        var s := DaySummary(last, TotalsOf(dayDf), GroupBy(dayDf, TaskTypeColumn), GroupBy(dayDf, SkillLevelColumn));
        assert DailyOver(df, days) == rest + [s];
      } else {
        assert DailyOver(df, days) == rest;
      }
    }
  }

  /** The days of `days` that have rows, in the order of `days`. */
  function ListedDays(df: seq<Record>, days: seq<string>): seq<string> {
    if days == [] then []
    else
      var last := days[|days| - 1];
      ListedDays(df, days[..|days| - 1]) + (if Where(df, Equals(DayColumn, last)) == [] then [] else [last])
  }

  /** The positions in `days` of the days that have rows. */
  function ListedPositions(df: seq<Record>, days: seq<string>): seq<nat> {
    if days == [] then []
    else
      ListedPositions(df, days[..|days| - 1])
        + (if Where(df, Equals(DayColumn, days[|days| - 1])) == [] then [] else [|days| - 1])
  }

  /** The days `DailyOver` lists are exactly the days that have rows, in order. */
  lemma {:induction false} DailyOverNames(df: seq<Record>, days: seq<string>)
    ensures DayNames(DailyOver(df, days)) == ListedDays(df, days)
    decreases |days|
  {
    if days != [] {
      DailyOverNames(df, days[..|days| - 1]);
      DailyOverStep(df, days);
    }
  }

  /** The i-th day that has rows sits at position `pos[i]` of `days`, and the positions strictly increase. */
  lemma {:induction false} ListedDaysPositions(df: seq<Record>, days: seq<string>)
    ensures var names, pos := ListedDays(df, days), ListedPositions(df, days);
      && |pos| == |names|
      && (forall i :: 0 <= i < |pos| ==> pos[i] < |days| && days[pos[i]] == names[i])
      && (forall i, j :: 0 <= i < j < |pos| ==> pos[i] < pos[j])
    decreases |days|
  {
    if days != [] {
      var ds, last := days[..|days| - 1], days[|days| - 1];
      ListedDaysPositions(df, ds);
      var names, pos := ListedDays(df, ds), ListedPositions(df, ds);
      if Where(df, Equals(DayColumn, last)) != [] {
        var names', pos' := names + [last], pos + [|days| - 1];
        assert ListedDays(df, days) == names';
        assert ListedPositions(df, days) == pos';
        forall i | 0 <= i < |pos'|
          ensures pos'[i] < |days| && days[pos'[i]] == names'[i]
        {
          if i < |pos| {
            assert days[pos[i]] == ds[pos[i]];
          }
        }
      } else {
        assert ListedDays(df, days) == names;
        assert ListedPositions(df, days) == pos;
        forall i | 0 <= i < |pos|
          ensures days[pos[i]] == names[i]
        {
          assert days[pos[i]] == ds[pos[i]];
        }
      }
    }
  }

  /**
   * The days are listed in the order of `days`: the i-th listed day sits at
   * position `pos[i]` of `days`, and the positions strictly increase.
   */
  lemma DailyOverOrdered(df: seq<Record>, days: seq<string>)
    ensures var names, pos := DayNames(DailyOver(df, days)), ListedPositions(df, days);
      && |pos| == |names|
      && (forall i :: 0 <= i < |pos| ==> pos[i] < |days| && days[pos[i]] == names[i])
      && (forall i, j :: 0 <= i < j < |pos| ==> pos[i] < pos[j])
  {
    DailyOverNames(df, days);
    ListedDaysPositions(df, days);
  }

  /** Monday to Saturday, each listed at most once. */
  lemma DaysListedOnce(df: seq<Record>)
    ensures Distinct(DayNames(DailyOver(df, DaysOrder)))
  {
    DailyOverOrdered(df, DaysOrder);
    DaysOrderDistinct();
  }

  // ---------------------------------------------------------------------------
  // Row order and excluded rows do not matter
  // ---------------------------------------------------------------------------

  lemma TotalsPermutation(a: seq<Record>, b: seq<Record>)
    requires multiset(a) == multiset(b)
    ensures TotalsOf(a) == TotalsOf(b)
  {
    HoursPermutation(a, b, All);
    HoursPermutation(a, b, SeniorMask);
    HoursPermutation(a, b, HotTubMask);
  }

  lemma {:induction false} DailyOverPermutation(a: seq<Record>, b: seq<Record>, days: seq<string>)
    requires multiset(a) == multiset(b)
    ensures DailyOver(a, days) == DailyOver(b, days)
    decreases |days|
  {
    if days != [] {
      var day := days[|days| - 1];
      var da, db := Where(a, Equals(DayColumn, day)), Where(b, Equals(DayColumn, day));
      DailyOverPermutation(a, b, days[..|days| - 1]);
      WherePermutation(a, b, Equals(DayColumn, day));
      assert |da| == |multiset(da)| == |multiset(db)| == |db|;
      TotalsPermutation(da, db);
      GroupsOverPermutation(da, db, TaskTypeColumn, Domain(TaskTypeColumn));
      GroupsOverPermutation(da, db, SkillLevelColumn, Domain(SkillLevelColumn));
    }
  }

  /** Every figure of the report depends only on the multiset of rows. */
  lemma SummarizePermutation(a: seq<Record>, b: seq<Record>)
    requires multiset(a) == multiset(b)
    ensures Summarize(a) == Summarize(b)
  {
    TotalsPermutation(a, b);
    GroupsOverPermutation(a, b, TaskTypeColumn, Domain(TaskTypeColumn));
    DailyOverPermutation(a, b, DaysOrder);
  }

  /** Sorting by due date changes no figure: the report is that of the unsorted rows. */
  lemma SortChangesNothing(rows: seq<Row>)
    ensures Analysis(rows) == Summarize(Unsorted(rows))
  {
    PrepareIsUnsortedPermuted(rows);
    SummarizePermutation(Prepare(rows), Unsorted(rows));
  }

  /** The report does not depend on the order of the uploaded rows. */
  lemma AnalysisIgnoresRowOrder(rows: seq<Row>, rows': seq<Row>)
    requires multiset(rows) == multiset(rows')
    ensures Analysis(rows) == Analysis(rows')
  {
    forall x
      ensures multiset(Prepare(rows))[x] == multiset(Prepare(rows'))[x]
    {
      PrepareCount(rows, x);
      PrepareCount(rows', x);
    }
    SummarizePermutation(Prepare(rows), Prepare(rows'));
  }

  /** A row without a parseable due date, or due on a Sunday, contributes to nothing. */
  predicate Excluded(row: Row) {
    row.due.None? || row.due.value.weekday == 6
  }

  lemma UnsortedIgnoresExcluded(rows: seq<Row>, x: Row)
    requires Excluded(x)
    ensures Unsorted(rows + [x]) == Unsorted(rows)
  {
    var rows' := rows + [x];
    assert rows'[..|rows|] == rows;
    var dated := DropUndated(rows);
    if x.due.Some? {
      var dx := DatedRow(x.title, x.due.value);
      assert DropUndated(rows') == dated + [dx];
      assert (dated + [dx])[..|dated|] == dated;
      var df := Annotate(dated);
      assert Annotate(dated + [dx]) == df + [Annotated(dx)];
      assert (df + [Annotated(dx)])[..|df|] == df;
      assert MonToSat(df + [Annotated(dx)]) == MonToSat(df) + [];
    } else {
      assert DropUndated(rows') == dated + [];
      assert DropUndated(rows') == dated;
    }
  }

  /** Adding an excluded row anywhere leaves the report as it was. */
  lemma ExcludedRowIgnored(rows: seq<Row>, i: nat, x: Row)
    requires i <= |rows| && Excluded(x)
    ensures Analysis(rows[..i] + [x] + rows[i..]) == Analysis(rows)
  {
    var withX := rows[..i] + [x] + rows[i..];
    assert multiset(withX) == multiset(rows + [x]) by {
      assert rows == rows[..i] + rows[i..];
    }
    AnalysisIgnoresRowOrder(withX, rows + [x]);
    SortChangesNothing(rows + [x]);
    SortChangesNothing(rows);
    UnsortedIgnoresExcluded(rows, x);
  }

  /** When no row survives the filters every figure is zero and nothing is listed. */
  lemma {:induction false} NothingKeptNothingCounted(rows: seq<Row>)
    requires forall i :: 0 <= i < |rows| ==> Excluded(rows[i])
    ensures Analysis(rows) == Report(Totals(0, 0, 0), [], [])
    decreases |rows|
  {
    if rows == [] {
      AnalysisOfNothing();
    } else {
      var n := |rows| - 1;
      var front := rows[..n];
      assert front[..n] + [rows[n]] + front[n..] == rows;
      NothingKeptNothingCounted(front);
      ExcludedRowIgnored(front, n, rows[n]);
    }
  }

  lemma AnalysisOfNothing()
    ensures Analysis([]) == Report(Totals(0, 0, 0), [], [])
  {
    assert Prepare([]) == [];
    GroupsOverOfEmpty(TaskTypeColumn, Domain(TaskTypeColumn));
    DailyOverOfEmpty(DaysOrder);
  }

  lemma {:induction false} GroupsOverOfEmpty(c: Column, keys: seq<string>)
    ensures GroupsOver([], c, keys) == []
    decreases |keys|
  {
    if keys != [] {
      GroupsOverOfEmpty(c, keys[..|keys| - 1]);
    }
  }

  lemma {:induction false} DailyOverOfEmpty(days: seq<string>)
    ensures DailyOver([], days) == []
    decreases |days|
  {
    if days != [] {
      DailyOverOfEmpty(days[..|days| - 1]);
    }
  }

  // ---------------------------------------------------------------------------
  // The script as written, when no row has a parsed date
  // ---------------------------------------------------------------------------

  /**
   * The script as written. Its classification step fills three columns from a
   * per-row `apply` (app.py:82-84); on a frame without rows that `apply`
   * yields an empty Series, which pandas refuses to spread over three columns,
   * so the run stops there with an error (`None`) whenever no row has a parsed
   * date. Otherwise it shows the report `Analysis` describes.
   */
  function AsWritten(rows: seq<Row>): Option<Report> {
    if DropUndated(rows) == [] then None else Some(Analysis(rows))
  }

  lemma {:induction false} DropUndatedEmpty(rows: seq<Row>)
    ensures DropUndated(rows) == [] <==> forall r :: r in rows ==> r.due.None?
    decreases |rows|
  {
    if rows != [] {
      var front := rows[..|rows| - 1];
      DropUndatedEmpty(front);
      assert rows == front + [rows[|rows| - 1]];
    }
  }

  /** As written, the script stops exactly when no row has a parsed date, and otherwise shows the report. */
  lemma AsWrittenStops(rows: seq<Row>)
    ensures AsWritten(rows).None? <==> forall r :: r in rows ==> r.due.None?
    ensures AsWritten(rows).Some? ==> AsWritten(rows).value == Analysis(rows)
  {
    DropUndatedEmpty(rows);
  }

  /** An upload of one undated row: as written the script stops before showing anything. */
  lemma UndatedUploadStops()
    ensures AsWritten([Row("Walk Thru", None)]).None?
  {
    assert DropUndated([Row("Walk Thru", None)]) == DropUndated([]);
  }

  /**
   * Inserting an undated row, or any row into an upload that already has a
   * dated row, leaves the frame after dropna empty exactly when it was empty.
   */
  lemma InsertKeepsEmptiness(rows: seq<Row>, i: nat, x: Row)
    requires i <= |rows|
    requires x.due.None? || exists r :: r in rows && r.due.Some?
    ensures DropUndated(rows[..i] + [x] + rows[i..]) == [] <==> DropUndated(rows) == []
  {
    var withX := rows[..i] + [x] + rows[i..];
    DropUndatedEmpty(rows);
    DropUndatedEmpty(withX);
    assert rows == rows[..i] + rows[i..];
    assert forall r :: r in withX <==> r in rows || r == x;
  }

  /**
   * As written, inserting an undated row anywhere changes nothing, and so does
   * inserting a Sunday row into an upload that already has a dated row.
   */
  lemma AsWrittenIgnoresExcluded(rows: seq<Row>, i: nat, x: Row)
    requires i <= |rows| && Excluded(x)
    requires x.due.None? || exists r :: r in rows && r.due.Some?
    ensures AsWritten(rows[..i] + [x] + rows[i..]) == AsWritten(rows)
  {
    InsertKeepsEmptiness(rows, i, x);
    ExcludedRowIgnored(rows, i, x);
  }
}
