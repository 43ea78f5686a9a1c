/** `stat_courses` of `gui_run.py`: the summary of the cleaned records.
    Only records with a positive number of hours are counted; the
    distributions (`value_counts` and the week tally) are multisets. */
module Stats {
  import opened TextUtil
  import opened Records
  import WeekRange

  const UnknownTeacherName := "未知讲师"
  const UnknownWeekKey := "未知周次"

  datatype Summary = Summary(
    total: nat,                       // 总课程数
    totalHours: nat,                  // 总课时
    teacherCount: nat,                // 涉及讲师数
    categoryCount: nat,               // 涉及分类数
    weekCount: nat,                   // 涉及周次
    teacherDist: multiset<string>,    // 讲师分布
    categoryDist: multiset<string>,   // 分类分布
    weekDist: multiset<string>        // 周次分布
  )

  /** The records the statistics are taken over: hours above zero, in order. */
  function Valid(cs: seq<CleanCourse>): (vs: seq<CleanCourse>)
    ensures |vs| <= |cs|
    ensures forall k :: 0 <= k < |vs| ==> vs[k].hours > 0 && vs[k] in cs
    ensures forall k :: 0 <= k < |cs| && cs[k].hours > 0 ==> cs[k] in vs
    decreases |cs|
  {
    if cs == [] then []
    else
      var last := cs[|cs| - 1];
      Valid(cs[..|cs| - 1]) + (if last.hours > 0 then [last] else [])
  }

  function SumHours(vs: seq<CleanCourse>): nat
    decreases |vs|
  {
    if vs == [] then 0 else SumHours(vs[..|vs| - 1]) + vs[|vs| - 1].hours
  }

  /** A teacher value that counts: neither empty nor `未知讲师`. */
  predicate NamedTeacher(t: string) { t != "" && t != UnknownTeacherName }

  function Teachers(vs: seq<CleanCourse>): multiset<string>
    decreases |vs|
  {
    if vs == [] then multiset{} else Teachers(vs[..|vs| - 1]) + multiset{vs[|vs| - 1].teacher}
  }

  function Categories(vs: seq<CleanCourse>): multiset<string>
    decreases |vs|
  {
    if vs == [] then multiset{} else Categories(vs[..|vs| - 1]) + multiset{vs[|vs| - 1].category}
  }

  /** The week keys one record adds: its parsed tokens, or `未知周次` once
      when nothing parses. */
  function WeekKeys(c: CleanCourse): (ks: seq<string>)
    ensures |ks| >= 1
  {
    var ws := WeekRange.ParseWeekNumbers(c.week);
    if ws == [] then [UnknownWeekKey] else ws
  }

  function WeekTally(vs: seq<CleanCourse>): multiset<string>
    decreases |vs|
  {
    if vs == [] then multiset{} else WeekTally(vs[..|vs| - 1]) + multiset(WeekKeys(vs[|vs| - 1]))
  }

  /** The distinct elements of a multiset. */
  function Support(m: multiset<string>): set<string>
  {
    set x | x in m
  }

  function NamedTeachers(m: multiset<string>): set<string>
  {
    set t | t in m && NamedTeacher(t)
  }

  /** The summary of the valid records. */
  function Summarize(vs: seq<CleanCourse>): (s: Summary)
    ensures s.total == |vs|
    ensures |s.teacherDist| == |vs| && |s.categoryDist| == |vs| && |s.weekDist| >= |vs|
    ensures s.teacherCount <= |vs| && s.categoryCount <= |vs| && s.weekCount <= |s.weekDist|
    ensures forall t :: t in s.teacherDist <==> exists k :: 0 <= k < |vs| && vs[k].teacher == t
    // the counts are the distinct keys of the distributions, the teacher
    // count leaving out the placeholders
    ensures s.teacherCount == |NamedTeachers(s.teacherDist)|
    ensures s.categoryCount == |Support(s.categoryDist)|
    ensures forall c :: c in s.categoryDist <==> exists k :: 0 <= k < |vs| && vs[k].category == c
    ensures s.weekCount == |Support(s.weekDist)|
    ensures s.totalHours == SumHours(vs)
    ensures (forall k :: 0 <= k < |vs| ==> vs[k].hours > 0) ==> s.totalHours >= s.total
  {
    HoursAtLeastCount(vs);
    CountsMatch(vs);
    WeekTallyAtLeast(vs);
    NamedTeachersBound(Teachers(vs));
    SupportBound(Categories(vs));
    SupportBound(WeekTally(vs));
    TeachersOf(vs);
    CategoriesOf(vs);
    Summary(
      total := |vs|,
      totalHours := SumHours(vs),
      teacherCount := |NamedTeachers(Teachers(vs))|,
      categoryCount := |Support(Categories(vs))|,
      weekCount := |Support(WeekTally(vs))|,
      teacherDist := Teachers(vs),
      categoryDist := Categories(vs),
      weekDist := WeekTally(vs))
  }

  /** `stat_courses`: nothing for no records, otherwise the summary of the
      records with hours above zero. */
  function StatCourses(cs: seq<CleanCourse>): (r: Option<Summary>)
    ensures r.None? <==> cs == []
    ensures r.Some? ==> r.value.total <= |cs|
    ensures r.Some? ==> |r.value.categoryDist| == r.value.total
    ensures r.Some? ==> |r.value.teacherDist| == r.value.total
    ensures r.Some? ==> |r.value.weekDist| >= r.value.total
    ensures r.Some? ==> r.value.teacherCount <= r.value.total && r.value.categoryCount <= r.value.total
    ensures r.Some? ==> r.value.totalHours == SumHours(Valid(cs)) && r.value.totalHours >= r.value.total
  {
    if cs == [] then None
    else
      Some(Summarize(Valid(cs)))
  }

  // ---------------------------------------------------------------------
  // Counting lemmas
  // ---------------------------------------------------------------------

  /** The teacher distribution holds exactly the records' teacher values. */
  lemma TeachersOf(vs: seq<CleanCourse>)
    ensures forall t :: t in Teachers(vs) <==> exists k :: 0 <= k < |vs| && vs[k].teacher == t
  {
    forall t | t in Teachers(vs)
      ensures exists k :: 0 <= k < |vs| && vs[k].teacher == t
    {
      var i := TeacherSource(vs, t);
    }
    forall k | 0 <= k < |vs|
      ensures vs[k].teacher in Teachers(vs)
    {
      TeacherIn(vs, k);
    }
  }

  /** The total hours of two runs of records is the sum of their totals. */
  lemma {:induction false} SumHoursAppend(a: seq<CleanCourse>, b: seq<CleanCourse>)
    ensures SumHours(a + b) == SumHours(a) + SumHours(b)
    decreases |b|
  {
    if b != [] {
      assert (a + b)[..|a + b| - 1] == a + b[..|b| - 1];
      SumHoursAppend(a, b[..|b| - 1]);
    } else {
      assert a + b == a;
    }
  }

  /** Records of at least one hour each add at least one hour each. */
  lemma {:induction false} HoursAtLeastCount(vs: seq<CleanCourse>)
    ensures (forall k :: 0 <= k < |vs| ==> vs[k].hours > 0) ==> SumHours(vs) >= |vs|
    decreases |vs|
  {
    if vs != [] {
      HoursAtLeastCount(vs[..|vs| - 1]);
    }
  }

  /** The category distribution holds exactly the records' categories. */
  lemma CategoriesOf(vs: seq<CleanCourse>)
    ensures forall c :: c in Categories(vs) <==> exists k :: 0 <= k < |vs| && vs[k].category == c
  {
    forall c | c in Categories(vs)
      ensures exists k :: 0 <= k < |vs| && vs[k].category == c
    {
      var i := CategorySource(vs, c);
    }
    forall k | 0 <= k < |vs|
      ensures vs[k].category in Categories(vs)
    {
      CategoryIn(vs, k);
    }
  }

  lemma {:induction false} CategoryIn(vs: seq<CleanCourse>, i: nat)
    requires i < |vs|
    ensures vs[i].category in Categories(vs)
    decreases |vs|
  {
    if i < |vs| - 1 {
      CategoryIn(vs[..|vs| - 1], i);
    }
  }

  lemma {:induction false} CategorySource(vs: seq<CleanCourse>, c: string) returns (i: nat)
    requires c in Categories(vs)
    ensures i < |vs| && vs[i].category == c
    decreases |vs|
  {
    if c in Categories(vs[..|vs| - 1]) {
      i := CategorySource(vs[..|vs| - 1], c);
    } else {
      i := |vs| - 1;
    }
  }

  /** Each record adds one teacher and one category. */
  lemma {:induction false} CountsMatch(vs: seq<CleanCourse>)
    ensures |Teachers(vs)| == |vs| && |Categories(vs)| == |vs|
    decreases |vs|
  {
    if vs != [] {
      CountsMatch(vs[..|vs| - 1]);
    }
  }

  /** Each record adds at least one week key. */
  lemma {:induction false} WeekTallyAtLeast(vs: seq<CleanCourse>)
    ensures |WeekTally(vs)| >= |vs|
    decreases |vs|
  {
    if vs != [] {
      WeekTallyAtLeast(vs[..|vs| - 1]);
      assert |multiset(WeekKeys(vs[|vs| - 1]))| >= 1;
    }
  }

  lemma SupportBound(m: multiset<string>)
    ensures |Support(m)| <= |m|
  {
    if m != multiset{} {
      var x :| x in m;
      var rest := m - multiset{x};
      SupportBound(rest);
      assert m == rest + multiset{x};
      assert Support(m) <= Support(rest) + {x};
      SubsetCard(Support(m), Support(rest) + {x});
    }
  }

  lemma NamedTeachersBound(m: multiset<string>)
    ensures |NamedTeachers(m)| <= |m|
  {
    SupportBound(m);
    assert NamedTeachers(m) <= Support(m);
    SubsetCard(NamedTeachers(m), Support(m));
  }

  lemma SubsetCard(a: set<string>, b: set<string>)
    requires a <= b
    ensures |a| <= |b|
  {
    assert b == a + (b - a);
  }

  // ---------------------------------------------------------------------
  // Appending one record
  // ---------------------------------------------------------------------

  /** A record without hours changes nothing. */
  lemma ZeroHoursIgnored(cs: seq<CleanCourse>, c: CleanCourse)
    requires cs != [] && c.hours == 0
    ensures StatCourses(cs + [c]) == StatCourses(cs)
  {
    assert (cs + [c])[..|cs|] == cs;
    assert Valid(cs + [c]) == Valid(cs);
  }

  /** A record with hours adds one course, its hours, its teacher, its
      category and its week keys. */
  lemma ValidRecordCounted(cs: seq<CleanCourse>, c: CleanCourse)
    requires c.hours > 0
    ensures var s := StatCourses(cs + [c]).value;
            var vs := Valid(cs);
            s.total == |vs| + 1 && s.totalHours == SumHours(vs) + c.hours
            && s.teacherDist == Teachers(vs) + multiset{c.teacher}
            && s.categoryDist == Categories(vs) + multiset{c.category}
            && s.weekDist == WeekTally(vs) + multiset(WeekKeys(c))
  {
    assert (cs + [c])[..|cs|] == cs;
    var vs := Valid(cs);
    assert Valid(cs + [c]) == vs + [c];
    assert (vs + [c])[..|vs|] == vs;
  }

  /** A named teacher of a counted record is counted; `""` and `未知讲师`
      never are. */
  lemma TeacherCounted(cs: seq<CleanCourse>, k: nat)
    requires k < |cs| && cs[k].hours > 0
    ensures NamedTeacher(cs[k].teacher) ==> cs[k].teacher in NamedTeachers(Teachers(Valid(cs)))
    ensures "" !in NamedTeachers(Teachers(Valid(cs))) && UnknownTeacherName !in NamedTeachers(Teachers(Valid(cs)))
  {
    var vs := Valid(cs);
    var i :| 0 <= i < |vs| && vs[i] == cs[k];
    TeacherIn(vs, i);
  }

  lemma {:induction false} TeacherIn(vs: seq<CleanCourse>, i: nat)
    requires i < |vs|
    ensures vs[i].teacher in Teachers(vs)
    decreases |vs|
  {
    if i < |vs| - 1 {
      TeacherIn(vs[..|vs| - 1], i);
    }
  }

  /** Conversely, every counted teacher is the named teacher of some record
      with hours. */
  lemma TeacherFromRecord(cs: seq<CleanCourse>, t: string)
    requires t in NamedTeachers(Teachers(Valid(cs)))
    ensures NamedTeacher(t) && exists k :: 0 <= k < |cs| && cs[k].hours > 0 && cs[k].teacher == t
  {
    var vs := Valid(cs);
    var i := TeacherSource(vs, t);
    var k := ValidSource(cs, i);
    assert cs[k].hours > 0 && cs[k].teacher == t;
  }

  lemma {:induction false} TeacherSource(vs: seq<CleanCourse>, t: string) returns (i: nat)
    requires t in Teachers(vs)
    ensures i < |vs| && vs[i].teacher == t
    decreases |vs|
  {
    if t in Teachers(vs[..|vs| - 1]) {
      i := TeacherSource(vs[..|vs| - 1], t);
    } else {
      i := |vs| - 1;
    }
  }

  /** Where a valid record comes from in the input. */
  lemma {:induction false} ValidSource(cs: seq<CleanCourse>, i: nat) returns (k: nat)
    requires i < |Valid(cs)|
    ensures k < |cs| && cs[k] == Valid(cs)[i] && cs[k].hours > 0
    decreases |cs|
  {
    var init := cs[..|cs| - 1];
    if i < |Valid(init)| {
      k := ValidSource(init, i);
    } else {
      k := |cs| - 1;
    }
  }
}
