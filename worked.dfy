/**
 * A worked upload of four rows, Monday to Thursday of one week:
 * "Arrival Hot Tub Service", "Post Rental Inspection", "Dump & Scrub" and
 * "Random Task". Its weekly total is 3 hours (6 half-hours), 1 hour of it
 * senior-preferred and 2 hours of it hot-tub work; the unclassified
 * Thursday row stays in the frame, with no hours.
 */
module WorkedExample {
  import opened Text
  import opened Classifier
  import opened Table
  import opened Pipeline

  lemma ArrivalHotTubService()
    ensures Categorize("Arrival Hot Tub Service") == Classification(HotTubRegular, 1, OtherSkill)
  {
    var t := Lower("Arrival Hot Tub Service");
    assert t == "arrival hot tub service";
    assert OccursAt(t, "arrival hot tub", 0);
    assert Contains(t, RegularHotTubKeywords[0]);
  }

  /** None of the regular hot-tub keywords occurs in a text without an "h". */
  lemma NoHotTubKeyword(t: string)
    requires 'h' !in t
    ensures !ContainsAny(t, RegularHotTubKeywords)
  {
    AbsentCharacter(t, "arrival hot tub", 8);
    AbsentCharacter(t, "ho arrival hot tub", 0);
    AbsentCharacter(t, "biweekly hot tub", 9);
    AbsentCharacter(t, "lease hot tub", 6);
  }

  lemma PostRentalInspectionTitle()
    ensures Categorize("Post Rental Inspection") == Classification(PostRentalInspection, 2, SeniorPreferred)
  {
    var t := Lower("Post Rental Inspection");
    assert t == "post rental inspection";
    NoHotTubKeyword(t);
    AbsentCharacter(t, "dump", 0);
    AbsentCharacter(t, "scrub", 3);
    assert OccursAt(t, "post rental inspection", 0);
  }

  lemma DumpAndScrubTitle()
    ensures Categorize("Dump & Scrub") == Classification(DumpAndScrub, 3, OtherSkill)
  {
    var t := Lower("Dump & Scrub");
    assert t == "dump & scrub";
    NoHotTubKeyword(t);
    assert OccursAt(t, "dump", 0);
  }

  lemma RandomTaskTitle()
    ensures Categorize("Random Task") == Classification(Other, 0, OtherSkill)
  {
    var t := Lower("Random Task");
    assert t == "random task";
    RandomTaskNoEarlyRule(t);
    RandomTaskNoLateRule(t);
  }

  lemma RandomTaskNoEarlyRule(t: string)
    requires t == "random task"
    ensures !ContainsAny(t, RegularHotTubKeywords)
    ensures !Contains(t, "dump") && !Contains(t, "scrub") && !Contains(t, "post rental inspection")
  {
    NoHotTubKeyword(t);
    AbsentCharacter(t, "dump", 1);
    AbsentCharacter(t, "scrub", 1);
    AbsentCharacter(t, "post rental inspection", 0);
  }

  lemma RandomTaskNoLateRule(t: string)
    requires t == "random task"
    ensures !Contains(t, "managed services inspection") && !Contains(t, "managed services arrival")
    ensures !Contains(t, "vip") && !Contains(t, "walk thru")
  {
    AbsentCharacter(t, "managed services inspection", 4);
    AbsentCharacter(t, "managed services arrival", 4);
    AbsentCharacter(t, "vip", 0);
    AbsentCharacter(t, "walk thru", 0);
  }

  const Upload: seq<Row> := [
    Row("Arrival Hot Tub Service", Some(Due(1, 0))),
    Row("Post Rental Inspection", Some(Due(2, 1))),
    Row("Dump & Scrub", Some(Due(3, 2))),
    Row("Random Task", Some(Due(4, 3)))
  ]

  const Frame: seq<Record> := [
    Record("Arrival Hot Tub Service", Due(1, 0), Classification(HotTubRegular, 1, OtherSkill)),
    Record("Post Rental Inspection", Due(2, 1), Classification(PostRentalInspection, 2, SeniorPreferred)),
    Record("Dump & Scrub", Due(3, 2), Classification(DumpAndScrub, 3, OtherSkill)),
    Record("Random Task", Due(4, 3), Classification(Other, 0, OtherSkill))
  ]

  const DatedUpload: seq<DatedRow> := [
    DatedRow("Arrival Hot Tub Service", Due(1, 0)),
    DatedRow("Post Rental Inspection", Due(2, 1)),
    DatedRow("Dump & Scrub", Due(3, 2)),
    DatedRow("Random Task", Due(4, 3))
  ]

  /** The prepared frame: the four rows, in date order, each with its triple. */
  lemma UploadPrepared()
    ensures Prepare(Upload) == Frame
  {
    UploadDated();
    UploadSorted();
    UploadAnnotated();
    UploadOnWeekdays();
  }

  lemma UploadSorted()
    ensures SortByDue(DatedUpload) == DatedUpload
  {
    SortedIsUnchanged(DatedUpload);
  }

  lemma UploadOnWeekdays()
    ensures MonToSat(Frame) == Frame
  {
    MonToSatOfWeekdays(Frame);
  }

  lemma UploadDated()
    ensures DropUndated(Upload) == DatedUpload
  {
    DropUndatedOfDated(Upload);
  }

  lemma UploadAnnotated()
    ensures Annotate(DatedUpload) == Frame
  {
    AnnotateEach(DatedUpload);
    ArrivalHotTubService();
    PostRentalInspectionTitle();
    DumpAndScrubTitle();
    RandomTaskTitle();
  }

  /** Sorting rows already in date order leaves them as they are. */
  lemma {:induction false} SortedIsUnchanged(rs: seq<DatedRow>)
    requires forall i, j :: 0 <= i < j < |rs| ==> rs[i].due.dateKey < rs[j].due.dateKey
    ensures SortByDue(rs) == rs
    decreases |rs|
  {
    if rs != [] {
      var front := rs[..|rs| - 1];
      SortedIsUnchanged(front);
      AppendLatest(front, rs[|rs| - 1]);
      assert front + [rs[|rs| - 1]] == rs;
    }
  }

  /** A row due after every row of a sorted list goes at its end. */
  lemma {:induction false} AppendLatest(rs: seq<DatedRow>, x: DatedRow)
    requires SortedByDue(rs)
    requires forall i :: 0 <= i < |rs| ==> rs[i].due.dateKey < x.due.dateKey
    ensures InsertByDue(rs, x) == rs + [x]
    decreases |rs|
  {
    if rs != [] {
      AppendLatest(rs[1..], x);
      assert [rs[0]] + (rs[1..] + [x]) == rs + [x];
    }
  }

  lemma HoursOfFour(a: Record, b: Record, c: Record, d: Record, m: Mask)
    ensures Hours([a, b, c, d], m)
         == (if Selects(m, a) then a.cls.halfHours else 0) + (if Selects(m, b) then b.cls.halfHours else 0)
          + (if Selects(m, c) then c.cls.halfHours else 0) + (if Selects(m, d) then d.cls.halfHours else 0)
  {
    assert [a, b, c, d] == [a, b, c] + [d];
    assert [a, b, c] == [a, b] + [c];
    assert [a, b] == [a] + [b];
    assert [a] == [] + [a];
    HoursAppend([a, b, c], d, m);
    HoursAppend([a, b], c, m);
    HoursAppend([a], b, m);
    HoursAppend([], a, m);
  }

  /** The weekly figures: 3 hours in all, 1 hour senior-preferred, 2 hours of hot-tub work. */
  lemma UploadWeekly()
    ensures Analysis(Upload).weekly == Totals(6, 2, 4)
  {
    UploadPrepared();
    FrameTotal();
    FrameSenior();
    FrameHotTub();
  }

  lemma FrameTotal()
    ensures Hours(Frame, All) == 6
  {
    HoursOfFour(Frame[0], Frame[1], Frame[2], Frame[3], All);
  }

  lemma FrameSenior()
    ensures Hours(Frame, SeniorMask) == 2
  {
    HoursOfFour(Frame[0], Frame[1], Frame[2], Frame[3], SeniorMask);
  }

  lemma FrameHotTub()
    ensures Hours(Frame, HotTubMask) == 4
  {
    HotTubTypes(HotTubRegular);
    HotTubTypes(PostRentalInspection);
    HotTubTypes(DumpAndScrub);
    HotTubTypes(Other);
    HoursOfFour(Frame[0], Frame[1], Frame[2], Frame[3], HotTubMask);
  }
}
