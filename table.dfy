/**
 * The data frame after classification, and the three pandas operations the
 * script applies to it: selecting rows with a boolean mask (`df[mask]`),
 * summing the "Hours" column of a selection, and `groupby(column)["Hours"].sum()`.
 */
module Table {
  import opened Text
  import opened Classifier

  /** pandas' `dt.weekday`: Monday = 0, ..., Sunday = 6. */
  type Weekday = w: int | 0 <= w < 7

  /** A parsed "Due Date": its position on the time line (what sorting compares) and its weekday. */
  datatype Due = Due(dateKey: int, weekday: Weekday)

  /** A row of the data frame with "Task Type", "Hours" and "Skill Level" filled in. */
  datatype Record = Record(title: string, due: Due, cls: Classification)

  /** pandas' `dt.day_name()`. */
  function DayName(w: Weekday): string {
    match w
    case 0 => "Monday"
    case 1 => "Tuesday"
    case 2 => "Wednesday"
    case 3 => "Thursday"
    case 4 => "Friday"
    case 5 => "Saturday"
    case 6 => "Sunday"
  }

  /** The text columns the script filters and groups on. */
  datatype Column = TaskTypeColumn | SkillLevelColumn | DayColumn

  function Cell(r: Record, c: Column): string {
    match c
    case TaskTypeColumn => TypeName(r.cls.taskType)
    case SkillLevelColumn => SkillName(r.cls.skill)
    case DayColumn => DayName(r.due.weekday)
  }

  /** The boolean masks of the script: none, `df[c] == v`, and `df[c].str.contains(v)`. */
  datatype Mask = All | Equals(column: Column, value: string) | HasText(column: Column, value: string)

  predicate Selects(m: Mask, r: Record) {
    match m
    case All => true
    case Equals(c, v) => Cell(r, c) == v
    case HasText(c, v) => Contains(Cell(r, c), v)
  }

  const SeniorMask := Equals(SkillLevelColumn, "Senior Preferred")
  const HotTubMask := HasText(TaskTypeColumn, "Hot Tub")

  /** The record carries the triple the classifier gives its title. */
  predicate Classified(r: Record) {
    r.cls == Categorize(r.title)
  }

  lemma SeniorMaskMeans(r: Record)
    ensures Selects(SeniorMask, r) <==> r.cls.skill == SeniorPreferred
  {
  }

  /** No classified record is both senior-preferred and a hot-tub task. */
  lemma SeniorAndHotTubDisjoint(r: Record)
    requires Classified(r)
    ensures !(Selects(SeniorMask, r) && Selects(HotTubMask, r))
  {
    HotTubIsNotSenior(r.title);
  }

  /** `df[mask]["Hours"].sum()`, in half-hours. */
  function Hours(rs: seq<Record>, m: Mask): nat {
    if rs == [] then 0
    else Hours(rs[..|rs| - 1], m) + (if Selects(m, rs[|rs| - 1]) then rs[|rs| - 1].cls.halfHours else 0)
  }

  /** `df[mask]`: the selected rows, in their order. */
  function Where(rs: seq<Record>, m: Mask): seq<Record> {
    if rs == [] then []
    else Where(rs[..|rs| - 1], m) + (if Selects(m, rs[|rs| - 1]) then [rs[|rs| - 1]] else [])
  }

  lemma HoursAppend(rs: seq<Record>, x: Record, m: Mask)
    ensures Hours(rs + [x], m) == Hours(rs, m) + (if Selects(m, x) then x.cls.halfHours else 0)
  {
    assert (rs + [x])[..|rs|] == rs;
  }

  lemma WhereAppend(rs: seq<Record>, x: Record, m: Mask)
    ensures Where(rs + [x], m) == Where(rs, m) + (if Selects(m, x) then [x] else [])
  {
    assert (rs + [x])[..|rs|] == rs;
  }

  lemma {:induction false} HoursConcat(a: seq<Record>, b: seq<Record>, m: Mask)
    ensures Hours(a + b, m) == Hours(a, m) + Hours(b, m)
    decreases |b|
  {
    if b != [] {
      var b', x := b[..|b| - 1], b[|b| - 1];
      assert a + b == (a + b') + [x];
      assert b == b' + [x];
      HoursAppend(a + b', x, m);
      HoursAppend(b', x, m);
      HoursConcat(a, b', m);
    } else {
      assert a + b == a;
    }
  }

  /** Summing over a selection is summing under its mask. */
  lemma {:induction false} HoursOfWhere(rs: seq<Record>, m: Mask)
    ensures Hours(Where(rs, m), All) == Hours(rs, m)
    decreases |rs|
  {
    if rs != [] {
      var rs', x := rs[..|rs| - 1], rs[|rs| - 1];
      HoursOfWhere(rs', m);
      if Selects(m, x) {
        HoursAppend(Where(rs', m), x, All);
      } else {
        assert Where(rs, m) == Where(rs', m) + [] == Where(rs', m);
      }
    }
  }

  /** A sum under a mask never exceeds the sum of the whole column. */
  lemma {:induction false} HoursAtMostAll(rs: seq<Record>, m: Mask)
    ensures Hours(rs, m) <= Hours(rs, All)
    decreases |rs|
  {
    if rs != [] {
      HoursAtMostAll(rs[..|rs| - 1], m);
    }
  }

  /** Two masks that never select the same record sum to at most the whole column. */
  lemma {:induction false} DisjointHours(rs: seq<Record>, m1: Mask, m2: Mask)
    requires forall r :: r in rs ==> !(Selects(m1, r) && Selects(m2, r))
    ensures Hours(rs, m1) + Hours(rs, m2) <= Hours(rs, All)
    decreases |rs|
  {
    if rs != [] {
      var rs' := rs[..|rs| - 1];
      assert forall r :: r in rs' ==> r in rs;
      assert rs[|rs| - 1] in rs;
      DisjointHours(rs', m1, m2);
    }
  }

  /** Senior-preferred hours and hot-tub hours together are at most the total. */
  lemma SeniorPlusHotTubAtMostTotal(rs: seq<Record>)
    requires forall r :: r in rs ==> Classified(r)
    ensures Hours(rs, SeniorMask) + Hours(rs, HotTubMask) <= Hours(rs, All)
  {
    forall r | r in rs
      ensures !(Selects(SeniorMask, r) && Selects(HotTubMask, r))
    {
      SeniorAndHotTubDisjoint(r);
    }
    DisjointHours(rs, SeniorMask, HotTubMask);
  }

  // ---------------------------------------------------------------------------
  // Row order does not matter: sums and selections depend only on the
  // multiset of rows.
  // ---------------------------------------------------------------------------

  /** Sums are invariant under any permutation of the rows. */
  lemma {:induction false} HoursPermutation(a: seq<Record>, b: seq<Record>, m: Mask)
    requires multiset(a) == multiset(b)
    ensures Hours(a, m) == Hours(b, m)
    decreases |a|
  {
    if a == [] {
      assert |b| == |multiset(b)| == 0;
    } else {
      var a', x := a[..|a| - 1], a[|a| - 1];
      assert a == a' + [x];
      assert x in multiset(b);
      var j :| 0 <= j < |b| && b[j] == x;
      var b' := b[..j] + b[j + 1..];
      RemoveOne(a', x, b, j);
      HoursPermutation(a', b', m);
      HoursRemove(b, j, m);
      HoursAppend(a', x, m);
    }
  }

  /** Taking the same record out of two equal multisets leaves equal multisets. */
  lemma RemoveOne(a': seq<Record>, x: Record, b: seq<Record>, j: nat)
    requires j < |b| && b[j] == x && multiset(a' + [x]) == multiset(b)
    ensures multiset(a') == multiset(b[..j] + b[j + 1..])
  {
    var b' := b[..j] + b[j + 1..];
    assert b == b[..j] + [x] + b[j + 1..];
    assert multiset(a' + [x]) == multiset(a') + multiset{x};
    assert multiset(b) == multiset(b[..j]) + multiset{x} + multiset(b[j + 1..]);
    assert multiset(b') == multiset(b[..j]) + multiset(b[j + 1..]);
    forall y
      ensures multiset(a')[y] == multiset(b')[y]
    {
      assert multiset(a' + [x])[y] == multiset(b)[y];
    }
  }

  /** Taking row `j` out of a frame takes its hours out of the sum, if the mask selects it. */
  lemma HoursRemove(b: seq<Record>, j: nat, m: Mask)
    requires j < |b|
    ensures Hours(b, m) == Hours(b[..j] + b[j + 1..], m) + (if Selects(m, b[j]) then b[j].cls.halfHours else 0)
  {
    assert b == b[..j] + [b[j]] + b[j + 1..];
    HoursConcat(b[..j], b[j + 1..], m);
    HoursConcat(b[..j] + [b[j]], b[j + 1..], m);
    HoursAppend(b[..j], b[j], m);
  }

  /** How often a record occurs in a selection. */
  lemma {:induction false} WhereCount(rs: seq<Record>, m: Mask, x: Record)
    ensures multiset(Where(rs, m))[x] == if Selects(m, x) then multiset(rs)[x] else 0
    decreases |rs|
  {
    if rs != [] {
      var rs' := rs[..|rs| - 1];
      assert rs == rs' + [rs[|rs| - 1]];
      WhereCount(rs', m, x);
    }
  }

  /** Selections of permuted rows are permutations of each other. */
  lemma WherePermutation(a: seq<Record>, b: seq<Record>, m: Mask)
    requires multiset(a) == multiset(b)
    ensures multiset(Where(a, m)) == multiset(Where(b, m))
  {
    forall x
      ensures multiset(Where(a, m))[x] == multiset(Where(b, m))[x]
    {
      WhereCount(a, m, x);
      WhereCount(b, m, x);
    }
  }

  /** Every row of a selection is a row of the frame, and is selected by the mask. */
  lemma {:induction false} WhereSubset(rs: seq<Record>, m: Mask)
    ensures forall r :: r in Where(rs, m) ==> r in rs && Selects(m, r)
  {
    forall r | r in Where(rs, m)
      ensures r in rs && Selects(m, r)
    {
      WhereCount(rs, m, r);
    }
  }

  // ---------------------------------------------------------------------------
  // groupby(column)["Hours"].sum()
  // ---------------------------------------------------------------------------

  /** One entry of a groupby result: a key and its summed hours. */
  datatype Group = Group(key: string, halfHours: nat)

  /**
   * Every value a column can hold, in ascending string order (pandas sorts
   * group keys). The day names are listed in that order only so that every
   * column's list has the same shape; the script visits the days in calendar
   * order, Monday to Saturday (app.py:117).
   */
  function Domain(c: Column): seq<string> {
    match c
    case TaskTypeColumn => [
      "Hot Tub - Dump & Scrub", "Hot Tub - Regular", "Managed Services Arrival",
      "Managed Services Inspection", "Other", "Post Rental Inspection", "VIP", "Walk Thru"]
    case SkillLevelColumn => ["Other", "Senior Preferred"]
    case DayColumn => ["Friday", "Monday", "Saturday", "Sunday", "Thursday", "Tuesday", "Wednesday"]
  }

  /** The groups of `keys` that have at least one row, each with its total, in the order of `keys`. */
  function GroupsOver(rs: seq<Record>, c: Column, keys: seq<string>): seq<Group> {
    if keys == [] then []
    else
      var k := keys[|keys| - 1];
      var g := Where(rs, Equals(c, k));
      GroupsOver(rs, c, keys[..|keys| - 1]) + (if g == [] then [] else [Group(k, Hours(g, All))])
  }

  function GroupBy(rs: seq<Record>, c: Column): seq<Group> {
    GroupsOver(rs, c, Domain(c))
  }

  /** The sum of a groupby result's values. */
  function GroupTotal(gs: seq<Group>): nat {
    if gs == [] then 0 else GroupTotal(gs[..|gs| - 1]) + gs[|gs| - 1].halfHours
  }

  /** The hours under `Equals(c, k)`, summed over the keys `k`. */
  function KeyedHours(rs: seq<Record>, c: Column, keys: seq<string>): nat {
    if keys == [] then 0
    else KeyedHours(rs, c, keys[..|keys| - 1]) + Hours(rs, Equals(c, keys[|keys| - 1]))
  }

  /** Each column's value lies in its domain. */
  lemma CellInDomain(r: Record, c: Column)
    ensures Cell(r, c) in Domain(c)
  {
  }

  /** Each domain is listed in ascending order, hence without repeats. */
  lemma DomainAscending(c: Column)
    ensures StrictlyAscending(Domain(c)) && Distinct(Domain(c))
  {
    match c
    case TaskTypeColumn =>
      TaskTypesChained();
      ChainedIsAscending(Domain(TaskTypeColumn));
    case SkillLevelColumn =>
      LessAfterCommonPrefix("Other", "Senior Preferred", 0);
      ChainedIsAscending(Domain(SkillLevelColumn));
    case DayColumn =>
      DayNamesChained();
      ChainedIsAscending(Domain(DayColumn));
  }

  lemma TaskTypesChained()
    ensures Chained(Domain(TaskTypeColumn))
  {
    var tail := ["Managed Services Inspection", "Other", "Post Rental Inspection", "VIP", "Walk Thru"];
    LessAfterCommonPrefix("Managed Services Inspection", "Other", 0);
    LessAfterCommonPrefix("Other", "Post Rental Inspection", 0);
    LessAfterCommonPrefix("Post Rental Inspection", "VIP", 0);
    LessAfterCommonPrefix("VIP", "Walk Thru", 0);
    assert Chained(tail);
    ManagedServicesNamesOrdered();
    ChainedCons("Managed Services Arrival", tail);
    var tail' := ["Managed Services Arrival"] + tail;
    LessAfterCommonPrefix("Hot Tub - Regular", "Managed Services Arrival", 0);
    ChainedCons("Hot Tub - Regular", tail');
    HotTubNamesOrdered();
    ChainedCons("Hot Tub - Dump & Scrub", ["Hot Tub - Regular"] + tail');
    assert Domain(TaskTypeColumn) == ["Hot Tub - Dump & Scrub"] + (["Hot Tub - Regular"] + tail');
  }

  lemma HotTubNamesOrdered()
    ensures Less("Hot Tub - Dump & Scrub", "Hot Tub - Regular")
  {
    var p := "Hot Tub - ";
    var a, b := p + "Dump & Scrub", p + "Regular";
    assert a[..10] == p == b[..10];
    LessAfterCommonPrefix(a, b, 10);
    assert a == "Hot Tub - Dump & Scrub" && b == "Hot Tub - Regular";
  }

  lemma ManagedServicesNamesOrdered()
    ensures Less("Managed Services Arrival", "Managed Services Inspection")
  {
    var p := "Managed Services ";
    var a, b := p + "Arrival", p + "Inspection";
    assert a[..17] == p == b[..17];
    LessAfterCommonPrefix(a, b, 17);
    assert a == "Managed Services Arrival" && b == "Managed Services Inspection";
  }

  lemma DayNamesChained()
    ensures Chained(Domain(DayColumn))
  {
    LessAfterCommonPrefix("Friday", "Monday", 0);
    LessAfterCommonPrefix("Monday", "Saturday", 0);
    LessAfterCommonPrefix("Saturday", "Sunday", 1);
    LessAfterCommonPrefix("Sunday", "Thursday", 0);
    LessAfterCommonPrefix("Thursday", "Tuesday", 1);
    LessAfterCommonPrefix("Tuesday", "Wednesday", 0);
  }

  /** A groupby result sums to the hours of its keys; groups without rows contribute nothing. */
  lemma {:induction false} GroupsOverTotal(rs: seq<Record>, c: Column, keys: seq<string>)
    ensures GroupTotal(GroupsOver(rs, c, keys)) == KeyedHours(rs, c, keys)
    decreases |keys|
  {
    if keys != [] {
      var ks, k := keys[..|keys| - 1], keys[|keys| - 1];
      var g := Where(rs, Equals(c, k));
      var rest := GroupsOver(rs, c, ks);
      GroupsOverTotal(rs, c, ks);
      HoursOfWhere(rs, Equals(c, k));
      if g != [] {
        assert (rest + [Group(k, Hours(g, All))])[..|rest|] == rest;
      } else {
        assert rest + [] == rest;
      }
    }
  }

  lemma {:induction false} KeyedHoursAppend(rs: seq<Record>, x: Record, c: Column, keys: seq<string>)
    requires Distinct(keys)
    ensures KeyedHours(rs + [x], c, keys)
         == KeyedHours(rs, c, keys) + (if Cell(x, c) in keys then x.cls.halfHours else 0)
    decreases |keys|
  {
    if keys != [] {
      var ks, k := keys[..|keys| - 1], keys[|keys| - 1];
      assert keys == ks + [k];
      assert Distinct(ks);
      assert k !in ks;
      KeyedHoursAppend(rs, x, c, ks);
      HoursAppend(rs, x, Equals(c, k));
    }
  }

  /**
   * Grouping conserves hours: when the keys are distinct and cover every
   * row's value, the hours summed key by key are the column total.
   */
  lemma {:induction false} PartitionHours(rs: seq<Record>, c: Column, keys: seq<string>)
    requires Distinct(keys)
    requires forall r :: r in rs ==> Cell(r, c) in keys
    ensures KeyedHours(rs, c, keys) == Hours(rs, All)
    decreases |rs|
  {
    if rs == [] {
      KeyedHoursOfEmpty(c, keys);
    } else {
      var rs', x := rs[..|rs| - 1], rs[|rs| - 1];
      assert rs == rs' + [x];
      assert forall r :: r in rs' ==> r in rs;
      PartitionHours(rs', c, keys);
      KeyedHoursAppend(rs', x, c, keys);
    }
  }

  lemma {:induction false} KeyedHoursOfEmpty(c: Column, keys: seq<string>)
    ensures KeyedHours([], c, keys) == 0
    decreases |keys|
  {
    if keys != [] {
      KeyedHoursOfEmpty(c, keys[..|keys| - 1]);
    }
  }

  /** The values of `groupby(c)["Hours"].sum()` add up to the column total. */
  lemma GroupByConserves(rs: seq<Record>, c: Column)
    ensures GroupTotal(GroupBy(rs, c)) == Hours(rs, All)
  {
    DomainAscending(c);
    forall r | r in rs
      ensures Cell(r, c) in Domain(c)
    {
      CellInDomain(r, c);
    }
    GroupsOverTotal(rs, c, Domain(c));
    PartitionHours(rs, c, Domain(c));
  }

  /** The groupby result depends only on the multiset of rows. */
  lemma {:induction false} GroupsOverPermutation(a: seq<Record>, b: seq<Record>, c: Column, keys: seq<string>)
    requires multiset(a) == multiset(b)
    ensures GroupsOver(a, c, keys) == GroupsOver(b, c, keys)
    decreases |keys|
  {
    if keys != [] {
      var k := keys[|keys| - 1];
      var ga, gb := Where(a, Equals(c, k)), Where(b, Equals(c, k));
      GroupsOverPermutation(a, b, c, keys[..|keys| - 1]);
      WherePermutation(a, b, Equals(c, k));
      assert |ga| == |multiset(ga)| == |multiset(gb)| == |gb|;
      HoursPermutation(ga, gb, All);
    }
  }

  /** Keys come out of a groupby in ascending order, each at most once. */
  lemma {:induction false} GroupsOverKeys(rs: seq<Record>, c: Column, keys: seq<string>)
    ensures forall i :: 0 <= i < |GroupsOver(rs, c, keys)| ==> GroupsOver(rs, c, keys)[i].key in keys
    ensures StrictlyAscending(keys) ==> StrictlyAscending(GroupKeys(GroupsOver(rs, c, keys)))
    decreases |keys|
  {
    if keys != [] {
      var ks, k := keys[..|keys| - 1], keys[|keys| - 1];
      var rest := GroupsOver(rs, c, ks);
      GroupsOverKeys(rs, c, ks);
      assert forall i :: 0 <= i < |rest| ==> rest[i].key in keys;
      if StrictlyAscending(keys) {
        assert StrictlyAscending(ks);
        assert forall i :: 0 <= i < |rest| ==> Less(rest[i].key, k) by {
          forall i | 0 <= i < |rest|
            ensures Less(rest[i].key, k)
          {
            var p :| 0 <= p < |ks| && ks[p] == rest[i].key;
            assert keys[p] == ks[p];
          }
        }
        GroupKeysAppend(rest, Where(rs, Equals(c, k)), k);
      }
    }
  }

  function GroupKeys(gs: seq<Group>): seq<string> {
    seq(|gs|, i requires 0 <= i < |gs| => gs[i].key)
  }

  lemma GroupKeysAppend(rest: seq<Group>, g: seq<Record>, k: string)
    requires StrictlyAscending(GroupKeys(rest))
    requires forall i :: 0 <= i < |rest| ==> Less(rest[i].key, k)
    ensures StrictlyAscending(GroupKeys(rest + (if g == [] then [] else [Group(k, Hours(g, All))])))
  {
    if g != [] {
      var all := rest + [Group(k, Hours(g, All))];
      forall i, j | 0 <= i < j < |all|
        ensures Less(GroupKeys(all)[i], GroupKeys(all)[j])
      {
        assert GroupKeys(all)[i] == rest[i].key;
        if j < |rest| {
          assert GroupKeys(rest)[i] == rest[i].key && GroupKeys(rest)[j] == rest[j].key;
        }
      }
    } else {
      assert rest + [] == rest;
    }
  }

  /** `groupby` lists its keys in ascending order, each at most once. */
  lemma GroupByKeysAscending(rs: seq<Record>, c: Column)
    ensures StrictlyAscending(GroupKeys(GroupBy(rs, c)))
  {
    DomainAscending(c);
    GroupsOverKeys(rs, c, Domain(c));
  }

  /** A key is listed by the groupby exactly when some row holds it; its value is that key's hours. */
  lemma GroupByListsPresentKeys(rs: seq<Record>, c: Column, k: string)
    ensures k in GroupKeys(GroupBy(rs, c)) <==> exists r :: r in rs && Cell(r, c) == k
    ensures forall i :: (0 <= i < |GroupBy(rs, c)| && GroupBy(rs, c)[i].key == k
        ==> GroupBy(rs, c)[i].halfHours == Hours(rs, Equals(c, k)))
  {
    if exists r :: r in rs && Cell(r, c) == k {
      var r :| r in rs && Cell(r, c) == k;
      CellInDomain(r, c);
    }
    GroupsOverListed(rs, c, Domain(c), k);
    GroupsOverValues(rs, c, Domain(c), k);
  }

  /** The selection of a key is empty exactly when no row holds that key. */
  lemma SelectionEmpty(rs: seq<Record>, c: Column, k: string)
    ensures Where(rs, Equals(c, k)) == [] <==> !exists r :: r in rs && Cell(r, c) == k
  {
    WhereSubset(rs, Equals(c, k));
    if exists r :: r in rs && Cell(r, c) == k {
      var r :| r in rs && Cell(r, c) == k;
      WhereCount(rs, Equals(c, k), r);
      assert r in multiset(Where(rs, Equals(c, k)));
    }
  }

  lemma {:induction false} GroupsOverListed(rs: seq<Record>, c: Column, keys: seq<string>, k: string)
    ensures k in GroupKeys(GroupsOver(rs, c, keys)) <==> (k in keys && exists r :: r in rs && Cell(r, c) == k)
    decreases |keys|
  {
    if keys != [] {
      var ks, last := keys[..|keys| - 1], keys[|keys| - 1];
      var rest := GroupsOver(rs, c, ks);
      var g := Where(rs, Equals(c, last));
      GroupsOverListed(rs, c, ks, k);
      SelectionEmpty(rs, c, last);
      assert keys == ks + [last];
      if g == [] {
        assert GroupsOver(rs, c, keys) == rest;
      } else {
        var grp := Group(last, Hours(g, All));
        assert GroupsOver(rs, c, keys) == rest + [grp];
        assert GroupKeys(rest + [grp]) == GroupKeys(rest) + [last];
      }
    }
  }

  lemma {:induction false} GroupsOverValues(rs: seq<Record>, c: Column, keys: seq<string>, k: string)
    ensures forall i :: (0 <= i < |GroupsOver(rs, c, keys)| && GroupsOver(rs, c, keys)[i].key == k
        ==> GroupsOver(rs, c, keys)[i].halfHours == Hours(rs, Equals(c, k)))
    decreases |keys|
  {
    if keys != [] {
      var ks, last := keys[..|keys| - 1], keys[|keys| - 1];
      var rest := GroupsOver(rs, c, ks);
      var g := Where(rs, Equals(c, last));
      GroupsOverValues(rs, c, ks, k);
      HoursOfWhere(rs, Equals(c, last));
      if g != [] {
        var all := rest + [Group(last, Hours(g, All))];
        assert GroupsOver(rs, c, keys) == all;
        assert forall i :: 0 <= i < |rest| ==> all[i] == rest[i];
      }
    }
  }
}
