/**
 * `categorize_task`: a free-text task title is lower-cased and run through an
 * ordered cascade of substring tests; the first test that succeeds decides
 * the task type, its labour hours and its skill level.
 *
 * Hours are counted in half-hours (0.5 h = 1, 1 h = 2, 1.5 h = 3), so every
 * value the classifier produces, and every sum of them, is exact.
 */
module Classifier {
  import opened Text

  datatype TaskType =
    | HotTubRegular
    | DumpAndScrub
    | PostRentalInspection
    | ManagedServicesInspection
    | ManagedServicesArrival
    | Vip
    | WalkThru
    | Other

  datatype SkillLevel = SeniorPreferred | OtherSkill

  /** The triple `categorize_task` returns: (task type, hours, skill level). */
  datatype Classification = Classification(taskType: TaskType, halfHours: nat, skill: SkillLevel)

  /** The text written into the "Task Type" column. */
  function TypeName(t: TaskType): string {
    match t
    case HotTubRegular => "Hot Tub - Regular"
    case DumpAndScrub => "Hot Tub - Dump & Scrub"
    case PostRentalInspection => "Post Rental Inspection"
    case ManagedServicesInspection => "Managed Services Inspection"
    case ManagedServicesArrival => "Managed Services Arrival"
    case Vip => "VIP"
    case WalkThru => "Walk Thru"
    case Other => "Other"
  }

  /** The text written into the "Skill Level" column. */
  function SkillName(s: SkillLevel): string {
    match s
    case SeniorPreferred => "Senior Preferred"
    case OtherSkill => "Other"
  }

  const RegularHotTubKeywords: seq<string> :=
    ["arrival hot tub", "ho arrival hot tub", "biweekly hot tub", "lease hot tub"]

  /** The classifier, test by test in the order the script makes them. */
  function Categorize(title: string): Classification {
    var t := Lower(title);
    if ContainsAny(t, RegularHotTubKeywords) then Classification(HotTubRegular, 1, OtherSkill)
    else if Contains(t, "dump") || Contains(t, "scrub") then Classification(DumpAndScrub, 3, OtherSkill)
    else if Contains(t, "post rental inspection") then Classification(PostRentalInspection, 2, SeniorPreferred)
    else if Contains(t, "managed services inspection") then Classification(ManagedServicesInspection, 2, SeniorPreferred)
    else if Contains(t, "managed services arrival") then Classification(ManagedServicesArrival, 2, SeniorPreferred)
    else if Contains(t, "vip") then Classification(Vip, 2, SeniorPreferred)
    else if Contains(t, "walk thru") then Classification(WalkThru, 1, OtherSkill)
    else Classification(Other, 0, OtherSkill)
  }

  // ---------------------------------------------------------------------------
  // The same rules as a table: an ordered list of (keywords, outcome) rows,
  // searched front to back.
  // ---------------------------------------------------------------------------

  datatype Rule = Rule(keywords: seq<string>, outcome: Classification)

  predicate Matches(rule: Rule, text: string) {
    ContainsAny(text, rule.keywords)
  }

  const Rules: seq<Rule> := [
    Rule(RegularHotTubKeywords, Classification(HotTubRegular, 1, OtherSkill)),
    Rule(["dump", "scrub"], Classification(DumpAndScrub, 3, OtherSkill)),
    Rule(["post rental inspection"], Classification(PostRentalInspection, 2, SeniorPreferred)),
    Rule(["managed services inspection"], Classification(ManagedServicesInspection, 2, SeniorPreferred)),
    Rule(["managed services arrival"], Classification(ManagedServicesArrival, 2, SeniorPreferred)),
    Rule(["vip"], Classification(Vip, 2, SeniorPreferred)),
    Rule(["walk thru"], Classification(WalkThru, 1, OtherSkill))
  ]

  const Fallback := Classification(Other, 0, OtherSkill)

  /** The outcome of the first rule that matches, or the fallback when none does. */
  function FirstMatch(rules: seq<Rule>, text: string): Classification {
    if rules == [] then Fallback
    else if Matches(rules[0], text) then rules[0].outcome
    else FirstMatch(rules[1..], text)
  }

  lemma ContainsAnyOne(text: string, a: string)
    ensures ContainsAny(text, [a]) <==> Contains(text, a)
  {
    if Contains(text, a) {
      assert Contains(text, [a][0]);
    }
  }

  lemma ContainsAnyTwo(text: string, a: string, b: string)
    ensures ContainsAny(text, [a, b]) <==> Contains(text, a) || Contains(text, b)
  {
    if Contains(text, a) {
      assert Contains(text, [a, b][0]);
    }
    if Contains(text, b) {
      assert Contains(text, [a, b][1]);
    }
  }

  /** The if-cascade and the rule table agree on every title. */
  lemma CategorizeIsFirstMatch(title: string)
    ensures Categorize(title) == FirstMatch(Rules, Lower(title))
  {
    var t := Lower(title);
    ContainsAnyTwo(t, "dump", "scrub");
    ContainsAnyOne(t, "post rental inspection");
    ContainsAnyOne(t, "managed services inspection");
    ContainsAnyOne(t, "managed services arrival");
    ContainsAnyOne(t, "vip");
    ContainsAnyOne(t, "walk thru");
    var i := if Matches(Rules[0], t) then 0
      else if Matches(Rules[1], t) then 1
      else if Matches(Rules[2], t) then 2
      else if Matches(Rules[3], t) then 3
      else if Matches(Rules[4], t) then 4
      else if Matches(Rules[5], t) then 5
      else if Matches(Rules[6], t) then 6
      else 7;
    if i < 7 {
      FirstMatchWins(Rules, t, i);
    } else {
      FirstMatchFallsBack(Rules, t);
    }
  }

  /** First match wins: rule `i` decides exactly when it matches and no earlier rule does. */
  lemma {:induction false} FirstMatchWins(rules: seq<Rule>, text: string, i: nat)
    requires i < |rules| && Matches(rules[i], text)
    requires forall j :: 0 <= j < i ==> !Matches(rules[j], text)
    ensures FirstMatch(rules, text) == rules[i].outcome
    decreases i
  {
    if i > 0 {
      assert !Matches(rules[0], text);
      FirstMatchWins(rules[1..], text, i - 1);
    }
  }

  /** When no rule matches, the fallback is returned. */
  lemma {:induction false} FirstMatchFallsBack(rules: seq<Rule>, text: string)
    requires forall j :: 0 <= j < |rules| ==> !Matches(rules[j], text)
    ensures FirstMatch(rules, text) == Fallback
    decreases |rules|
  {
    if rules != [] {
      assert !Matches(rules[0], text);
      FirstMatchFallsBack(rules[1..], text);
    }
  }

  /** The result of the table search is the outcome of some rule that matches, or the fallback. */
  lemma {:induction false} FirstMatchIsSomeRule(rules: seq<Rule>, text: string)
    ensures FirstMatch(rules, text) == Fallback
         || exists i :: 0 <= i < |rules| && Matches(rules[i], text) && FirstMatch(rules, text) == rules[i].outcome
    decreases |rules|
  {
    if rules != [] && !Matches(rules[0], text) {
      FirstMatchIsSomeRule(rules[1..], text);
      if FirstMatch(rules, text) != Fallback {
        var i :| 0 <= i < |rules[1..]| && Matches(rules[1..][i], text)
          && FirstMatch(rules[1..], text) == rules[1..][i].outcome;
        assert rules[i + 1] == rules[1..][i];
      }
    } else if rules != [] {
      assert Matches(rules[0], text) && FirstMatch(rules, text) == rules[0].outcome;
    }
  }

  /** Each rule of the table names its own task type, none of them "Other". */
  lemma RuleTypesDistinct()
    ensures forall i, j :: 0 <= i < j < |Rules| ==> Rules[i].outcome.taskType != Rules[j].outcome.taskType
    ensures forall i :: 0 <= i < |Rules| ==> Rules[i].outcome.taskType != Other
  {
  }

  /**
   * Priority of the cascade: the title gets the task type of rule `i` exactly
   * when (the lower-cased title matches) rule `i` and none of the rules before it.
   */
  lemma CategorizeByRule(title: string, i: nat)
    requires i < |Rules|
    ensures Categorize(title).taskType == Rules[i].outcome.taskType
        <==> Matches(Rules[i], Lower(title)) && forall j :: 0 <= j < i ==> !Matches(Rules[j], Lower(title))
  {
    var t := Lower(title);
    CategorizeIsFirstMatch(title);
    RuleTypesDistinct();
    if Matches(Rules[i], t) && forall j :: 0 <= j < i ==> !Matches(Rules[j], t) {
      FirstMatchWins(Rules, t, i);
    }
    if Categorize(title).taskType == Rules[i].outcome.taskType {
      FirstMatchIsSomeRule(Rules, t);
      var k :| 0 <= k < |Rules| && Matches(Rules[k], t) && FirstMatch(Rules, t) == Rules[k].outcome;
      assert k == i;
      forall j | 0 <= j < i
        ensures !Matches(Rules[j], t)
      {
        if Matches(Rules[j], t) {
          var j0 := EarliestMatch(Rules, t, j);
          FirstMatchWins(Rules, t, j0);
        }
      }
    }
  }

  /** The earliest rule at or before `j` that matches. */
  lemma {:induction false} EarliestMatch(rules: seq<Rule>, text: string, j: nat) returns (j0: nat)
    requires j < |rules| && Matches(rules[j], text)
    ensures j0 <= j && Matches(rules[j0], text)
    ensures forall k :: 0 <= k < j0 ==> !Matches(rules[k], text)
    decreases j
  {
    if exists k :: 0 <= k < j && Matches(rules[k], text) {
      var k :| 0 <= k < j && Matches(rules[k], text);
      j0 := EarliestMatch(rules, text, k);
    } else {
      j0 := j;
    }
  }

  /** A title matching no rule is "Other", with no hours and skill level "Other"; and only such a title. */
  lemma CategorizeFallback(title: string)
    ensures Categorize(title) == Classification(Other, 0, OtherSkill)
        <==> forall j :: 0 <= j < |Rules| ==> !Matches(Rules[j], Lower(title))
  {
    var t := Lower(title);
    CategorizeIsFirstMatch(title);
    RuleTypesDistinct();
    if forall j :: 0 <= j < |Rules| ==> !Matches(Rules[j], t) {
      FirstMatchFallsBack(Rules, t);
    } else {
      var j :| 0 <= j < |Rules| && Matches(Rules[j], t);
      var j0 := EarliestMatch(Rules, t, j);
      FirstMatchWins(Rules, t, j0);
    }
  }

  /** Classification ignores ASCII case. */
  lemma CategorizeIgnoresCase(title: string)
    ensures Categorize(Lower(title)) == Categorize(title)
  {
    LowerIdempotent(title);
  }

  /** Hours and skill level of each task type, as the classifier returns them. */
  function Standard(t: TaskType): Classification {
    match t
    case HotTubRegular => Classification(t, 1, OtherSkill)
    case DumpAndScrub => Classification(t, 3, OtherSkill)
    case PostRentalInspection => Classification(t, 2, SeniorPreferred)
    case ManagedServicesInspection => Classification(t, 2, SeniorPreferred)
    case ManagedServicesArrival => Classification(t, 2, SeniorPreferred)
    case Vip => Classification(t, 2, SeniorPreferred)
    case WalkThru => Classification(t, 1, OtherSkill)
    case Other => Classification(t, 0, OtherSkill)
  }

  /**
   * Every result is one of the eight fixed triples: hours and skill level are
   * determined by the task type alone.
   */
  lemma CategorizeIsStandard(title: string)
    ensures Categorize(title) == Standard(Categorize(title).taskType)
  {
  }

  predicate IsSeniorType(t: TaskType) {
    t in {PostRentalInspection, ManagedServicesInspection, ManagedServicesArrival, Vip}
  }

  /** "Senior Preferred" is given exactly to the three inspection/arrival types and VIP. */
  lemma SeniorExactly(title: string)
    ensures Categorize(title).skill == SeniorPreferred <==> IsSeniorType(Categorize(title).taskType)
  {
  }

  /** String test the script applies to the "Task Type" column: `str.contains("Hot Tub")`. */
  predicate IsHotTubType(t: TaskType) {
    Contains(TypeName(t), "Hot Tub")
  }

  /** Exactly the two hot-tub task types have "Hot Tub" in their name. */
  lemma HotTubTypes(t: TaskType)
    ensures IsHotTubType(t) <==> t == HotTubRegular || t == DumpAndScrub
  {
    if t == HotTubRegular || t == DumpAndScrub {
      assert TypeName(t)[..7] == "Hot Tub";
      assert OccursAt(TypeName(t), "Hot Tub", 0);
    } else {
      NoCapitalH(t);
      assert "Hot Tub"[0] == 'H';
      AbsentCharacter(TypeName(t), "Hot Tub", 0);
    }
  }

  lemma NoCapitalH(t: TaskType)
    requires t != HotTubRegular && t != DumpAndScrub
    ensures 'H' !in TypeName(t)
  {
  }

  /** A hot-tub task is never "Senior Preferred", so senior hours and hot-tub hours never overlap. */
  lemma HotTubIsNotSenior(title: string)
    ensures IsHotTubType(Categorize(title).taskType) ==> Categorize(title).skill == OtherSkill
  {
    HotTubTypes(Categorize(title).taskType);
  }

  /** The keyword "ho arrival hot tub" is redundant: it contains "arrival hot tub". */
  lemma HoArrivalRedundant(text: string)
    ensures ContainsAny(text, RegularHotTubKeywords)
        <==> ContainsAny(text, ["arrival hot tub", "biweekly hot tub", "lease hot tub"])
  {
    var short := ["arrival hot tub", "biweekly hot tub", "lease hot tub"];
    if ContainsAny(text, RegularHotTubKeywords) {
      var k :| 0 <= k < 4 && Contains(text, RegularHotTubKeywords[k]);
      if k == 1 {
        assert OccursAt("ho arrival hot tub", "arrival hot tub", 3);
        ContainsTransitive(text, "ho arrival hot tub", "arrival hot tub");
        assert Contains(text, short[0]);
      } else {
        assert Contains(text, short[if k == 0 then 0 else k - 1]);
      }
    }
    if ContainsAny(text, short) {
      var k :| 0 <= k < 3 && Contains(text, short[k]);
      assert Contains(text, RegularHotTubKeywords[if k == 0 then 0 else k + 1]);
    }
  }

  /**
   * A regular hot-tub keyword outranks every later keyword: a title holding
   * one is a regular hot-tub task whatever inspection, VIP or walk-thru
   * keyword it also holds.
   */
  lemma HotTubBeforeInspection(title: string)
    requires ContainsAny(Lower(title), RegularHotTubKeywords)
    ensures Categorize(title) == Classification(HotTubRegular, 1, OtherSkill)
  {
  }

  /** "VIP Managed Services Inspection" is a Managed Services Inspection, not a VIP task. */
  lemma InspectionBeforeVip()
    ensures Categorize("vip managed services inspection") == Classification(ManagedServicesInspection, 2, SeniorPreferred)
  {
    var t := "vip managed services inspection";
    LowerOfLowercase(t);
    VipTitleHasNoHotTubKeyword();
    VipTitleHasNoDumpOrScrub();
    AbsentCharacter(t, "post rental inspection", 10);
    InspectionOccursInVipTitle();
  }

  /** The same title as it would be typed, capitalised. */
  lemma CapitalisedVipTitle()
    ensures Categorize("VIP Managed Services Inspection") == Classification(ManagedServicesInspection, 2, SeniorPreferred)
  {
    VipTitleLowered();
    CategorizeIgnoresCase("VIP Managed Services Inspection");
    InspectionBeforeVip();
  }

  lemma VipTitleLowered()
    ensures Lower("VIP Managed Services Inspection") == "vip managed services inspection"
  {
    var t := "VIP Managed Services Inspection";
    forall i | 0 <= i < |t|
      ensures Lower(t)[i] == "vip managed services inspection"[i]
    {
    }
  }

  lemma VipTitleHasNoHotTubKeyword()
    ensures !ContainsAny("vip managed services inspection", RegularHotTubKeywords)
  {
    var t := "vip managed services inspection";
    assert 'h' !in t;
    forall k | 0 <= k < 4
      ensures !Contains(t, RegularHotTubKeywords[k])
    {
      var kw := RegularHotTubKeywords[k];
      var at := if k == 0 then 8 else if k == 1 then 0 else if k == 2 then 9 else 6;
      assert kw[at] == 'h';
      AbsentCharacter(t, kw, at);
    }
  }

  lemma VipTitleHasNoDumpOrScrub()
    ensures !Contains("vip managed services inspection", "dump")
    ensures !Contains("vip managed services inspection", "scrub")
  {
    AbsentCharacter("vip managed services inspection", "dump", 1);
    AbsentCharacter("vip managed services inspection", "scrub", 3);
  }

  lemma InspectionOccursInVipTitle()
    ensures Contains("vip managed services inspection", "managed services inspection")
  {
    var needle := "managed services inspection";
    var t := "vip " + needle;
    assert t[4..4 + |needle|] == needle;
    assert OccursAt(t, needle, 4);
    assert t == "vip managed services inspection";
  }
}
