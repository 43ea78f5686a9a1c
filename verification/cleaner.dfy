/** `data_cleaner.py`: course-name normalisation, hours parsing and the
    deduplicating `clean_courses` fold. */
module Cleaner {
  import opened TextUtil
  import opened Records
  import opened TeacherCleaner

  // ---------------------------------------------------------------------
  // Course names
  // ---------------------------------------------------------------------

  /** The allow-list of course-name characters: letters and digits (ASCII and
      CJK ideographs), `·•-()（）【】:：,，;；/\` and whitespace. */
  predicate IsCourseNameChar(c: char)
  {
    IsAsciiLetter(c) || IsDigit(c) || IsCjk(c) || IsSpace(c)
    || c == '·' || c == '•' || c == '-' || c == '(' || c == ')' || c == '（' || c == '）'
    || c == '【' || c == '】' || c == ':' || c == '：' || c == ',' || c == '，'
    || c == ';' || c == '；' || c == '/' || c == '\\'
  }

  predicate AllCourseNameChars(s: string)
  {
    forall i :: 0 <= i < |s| ==> IsCourseNameChar(s[i])
  }

  /** `_normalize_course_name`: drop every character outside the allow-list,
      then strip. */
  function NormalizeCourseName(raw: string): (r: string)
    ensures raw == "" ==> r == ""
    ensures AllCourseNameChars(r)
    ensures |r| > 0 ==> !IsSpace(r[0]) && !IsSpace(r[|r| - 1])
    ensures IsSubseq(r, raw)
  {
    var kept := Keep(raw, IsCourseNameChar);
    StripChars(kept);
    StripSubseq(kept);
    SubseqTrans(Strip(kept), kept, raw);
    Strip(kept)
  }

  /** Normalising twice is normalising once. */
  lemma NormalizeIdempotent(raw: string)
    ensures NormalizeCourseName(NormalizeCourseName(raw)) == NormalizeCourseName(raw)
  {
    var r := NormalizeCourseName(raw);
    KeepAllowed(r);
    StripFixed(r);
  }

  lemma KeepAllowed(s: string)
    requires AllCourseNameChars(s)
    ensures Keep(s, IsCourseNameChar) == s
  {
    assert forall i :: 0 <= i < |s| ==> IsCourseNameChar(s[i]);
  }

  /** A string already over the allow-list and without edge whitespace is
      left unchanged. */
  lemma NormalizeFixed(s: string)
    requires AllCourseNameChars(s)
    requires |s| == 0 || (!IsSpace(s[0]) && !IsSpace(s[|s| - 1]))
    ensures NormalizeCourseName(s) == s
  {
    KeepAllowed(s);
    StripFixed(s);
  }

  // ---------------------------------------------------------------------
  // Hours
  // ---------------------------------------------------------------------

  /** The largest value among digit runs (0 for none). */
  function MaxValue(runs: seq<string>): (m: nat)
    requires forall k :: 0 <= k < |runs| ==> AllDigits(runs[k])
    ensures forall k :: 0 <= k < |runs| ==> DigitsValue(runs[k]) <= m
    ensures runs != [] ==> exists k :: 0 <= k < |runs| && DigitsValue(runs[k]) == m
    ensures runs == [] ==> m == 0
  {
    if runs == [] then 0
    else
      var rest := MaxValue(runs[1..]);
      assert forall k :: 1 <= k < |runs| ==> runs[k] == runs[1..][k - 1];
      var v := DigitsValue(runs[0]);
      if rest < v then v else rest
  }

  /** `_parse_hours` on text: the largest digit run, 0 when there is none. */
  function ParseHoursText(s: string): nat
  {
    MaxValue(DigitRuns(s))
  }

  /** `str(n)` for an integer. */
  function IntToString(n: int): (r: string)
    ensures n >= 0 ==> r == NatToString(n)
    ensures n < 0 ==> r == "-" + NatToString(-n)
  {
    if n < 0 then "-" + NatToString(-n) else NatToString(n)
  }

  /** `_parse_hours` on either kind of raw value: an integer is read through
      `str` (see `CountHours`), text by its largest digit run. */
  function ParseHours(h: RawHours): (r: nat)
    ensures h.Text? ==> forall k :: 0 <= k < |DigitRuns(h.s)| ==> DigitsValue(DigitRuns(h.s)[k]) <= r
    ensures h.Text? && HasDigit(h.s) ==> exists k :: 0 <= k < |DigitRuns(h.s)| && DigitsValue(DigitRuns(h.s)[k]) == r
    ensures h.Text? && !HasDigit(h.s) ==> r == 0
  {
    match h
    case Count(n) => ParseHoursText(IntToString(n))
    case Text(s) => ParseHoursMax(s); ParseHoursText(s)
  }

  /** Hours are the largest digit run: no smaller than any run, equal to one
      of them, and 0 exactly when the text holds no digit. */
  lemma ParseHoursMax(s: string)
    ensures forall k :: 0 <= k < |DigitRuns(s)| ==> DigitsValue(DigitRuns(s)[k]) <= ParseHoursText(s)
    ensures HasDigit(s) ==> exists k :: 0 <= k < |DigitRuns(s)| && DigitsValue(DigitRuns(s)[k]) == ParseHoursText(s)
    ensures !HasDigit(s) ==> ParseHoursText(s) == 0
  {
    var runs := DigitRuns(s);
    if HasDigit(s) {
      assert runs != [];
      var k :| 0 <= k < |runs| && DigitsValue(runs[k]) == MaxValue(runs);
    }
  }

  /** Every block of digits anywhere in the text reads as no more than the
      parsed hours. */
  lemma {:induction false} ParseHoursBoundsBlocks(s: string, i: nat, j: nat)
    requires i <= j <= |s| && AllDigits(s[i..j])
    ensures DigitsValue(s[i..j]) <= ParseHoursText(s)
    decreases |s|
  {
    if i == j {
      assert s[i..j] == [];
    } else if IsDigit(s[0]) && i < RunLength(s, IsDigit) {
      BoundsInFirstRun(s, i, j);
    } else {
      var n := SkipFirst(s, i, j);
      ParseHoursBoundsBlocks(s[n..], i - n, j - n);
    }
  }

  /** A block that does not start in the leading run of digits lies after
      the first `n` characters, whose removal cannot raise the hours. */
  lemma SkipFirst(s: string, i: nat, j: nat) returns (n: nat)
    requires i < j <= |s| && AllDigits(s[i..j])
    requires !(IsDigit(s[0]) && i < RunLength(s, IsDigit))
    ensures 0 < n <= i && s[n..][i - n..j - n] == s[i..j]
    ensures ParseHoursText(s[n..]) <= ParseHoursText(s)
  {
    if IsDigit(s[0]) {
      n := RunLength(s, IsDigit);
      RestBound(s);
    } else {
      n := 1;
      SkipNonDigit(s, i, j);
    }
    SliceOfDrop(s, n, i, j);
  }

  lemma SkipNonDigit(s: string, i: nat, j: nat)
    requires i < j <= |s| && AllDigits(s[i..j]) && !IsDigit(s[0])
    ensures 0 < i && ParseHoursText(s[1..]) == ParseHoursText(s)
  {
    assert IsDigit(s[i..j][0]);
    DigitRunsSkip(s);
  }

  /** The bound for a block inside the leading run of digits. */
  lemma BoundsInFirstRun(s: string, i: nat, j: nat)
    requires s != [] && IsDigit(s[0]) && i < RunLength(s, IsDigit)
    requires i <= j <= |s| && AllDigits(s[i..j])
    ensures DigitsValue(s[i..j]) <= ParseHoursText(s)
  {
    var n := RunLength(s, IsDigit);
    DigitRunsHead(s);
    MaxValueHead(DigitRuns(s));
    BlockInFirstRun(s, n, i, j);
  }

  /** Dropping the leading run of digits cannot raise the hours. */
  lemma RestBound(s: string)
    requires s != [] && IsDigit(s[0])
    ensures 0 < RunLength(s, IsDigit)
    ensures ParseHoursText(s[RunLength(s, IsDigit)..]) <= ParseHoursText(s)
  {
    DigitRunsHead(s);
    MaxValueHead(DigitRuns(s));
  }

  /** The maximum bounds the first run and the maximum of the rest. */
  lemma MaxValueHead(runs: seq<string>)
    requires runs != [] && forall k :: 0 <= k < |runs| ==> AllDigits(runs[k])
    ensures DigitsValue(runs[0]) <= MaxValue(runs)
    ensures MaxValue(runs[1..]) <= MaxValue(runs)
  {
  }

  /** A block of digits starting inside a maximal leading run lies inside
      it and reads as no more than the run. */
  lemma BlockInFirstRun(s: string, n: nat, i: nat, j: nat)
    requires n <= |s| && (n < |s| ==> !IsDigit(s[n])) && AllDigits(s[..n])
    requires i < n && i <= j <= |s| && AllDigits(s[i..j])
    ensures j <= n && DigitsValue(s[i..j]) <= DigitsValue(s[..n])
  {
    BlockWithinRun(s, n, i, j);
    assert s[..n][i..j] == s[i..j];
    SliceValueBounded(s[..n], i, j);
  }

  /** A block of digits starting inside a maximal run ends inside it. */
  lemma BlockWithinRun(s: string, n: nat, i: nat, j: nat)
    requires n <= |s| && (n < |s| ==> !IsDigit(s[n]))
    requires i < n && i <= j <= |s| && AllDigits(s[i..j])
    ensures j <= n
  {
  }

  /** An integer count parses to its absolute value. */
  lemma CountHours(n: int)
    ensures ParseHours(Count(n)) == if n < 0 then -n else n
  {
    var m: nat := if n < 0 then -n else n;
    var d := NatToString(m);
    var s := IntToString(n);
    NatToStringRoundTrip(m);
    if n < 0 {
      assert s == "-" + d;
      assert s[1..] == d;
      assert DigitRuns(s) == DigitRuns(d);
    }
    DigitRunsOfDigits(d);
  }

  // ---------------------------------------------------------------------
  // clean_courses
  // ---------------------------------------------------------------------

  const UnknownCategory: string := "未知"

  /** The deduplication key of a raw record, or `None` when its normalised
      name is shorter than two characters and the record is dropped. */
  function KeyOpt(c: RawCourse): Option<CourseKey>
  {
    var name := NormalizeCourseName(c.name);
    if |name| < 2 then None else Some(CourseKey(name, c.week, c.section))
  }

  function CleanKeyOf(c: CleanCourse): CourseKey
  {
    CourseKey(c.name, c.week, c.section)
  }

  /** `course.get("课时", course.get("课时_标准化", 0))`. */
  function RawHoursOf(c: RawCourse): RawHours
  {
    match c.hours
    case Some(h) => h
    case None => match c.standardHours { case Some(h) => h case None => Count(0) }
  }

  /** The cleaned record of a kept raw record. */
  function CleanRecord(c: RawCourse, cfg: CleanerConfig): (r: CleanCourse)
    ensures r.name == NormalizeCourseName(c.name)
    ensures KeyOpt(c).Some? ==> CleanKeyOf(r) == KeyOpt(c).value && |r.name| >= 2
    ensures r.teacher != "" && r.category != ""
    ensures c.category != "" ==> r.category == c.category
    ensures c.category == "" ==> r.category == UnknownCategory
    ensures c.hours.Some? ==> r.hours == ParseHours(c.hours.value)
    ensures c.hours.None? && c.standardHours.Some? ==> r.hours == ParseHours(c.standardHours.value)
    // the teacher goes through `_clean_teacher`, re-derived from the
    // course-name source text, or the whole source text when that is empty
    ensures r.teacher == CleanTeacher(c.teacher,
      if c.sourceNameText != "" then c.sourceNameText else c.sourceText, r.name, cfg)
    // the remaining core fields are copied from the raw record
    ensures r.sourceFile == c.sourceFile && r.week == c.week && r.section == c.section
    ensures r.location == c.location && r.timePeriod == c.timePeriod
    ensures r.sourceNameText == c.sourceNameText
    ensures c.sheetOrPage.Some? ==> r.sheet == c.sheetOrPage.value
    ensures c.sheetOrPage.None? ==> r.sheet == c.sheetName
  {
    var name := NormalizeCourseName(c.name);
    var src := if c.sourceNameText != "" then c.sourceNameText else c.sourceText;
    CleanCourse(
      sourceFile := c.sourceFile,
      sheet := match c.sheetOrPage { case Some(p) => p case None => c.sheetName },
      name := name,
      teacher := CleanTeacher(c.teacher, src, name, cfg),
      hours := ParseHours(RawHoursOf(c)),
      category := if c.category == "" then UnknownCategory else c.category,
      week := c.week,
      location := c.location,
      section := c.section,
      timePeriod := c.timePeriod,
      sourceNameText := c.sourceNameText)
  }

  /** The key (or drop) of every record, in order. */
  function Entries(raw: seq<RawCourse>): (ks: seq<Option<CourseKey>>)
    ensures |ks| == |raw| && forall i :: 0 <= i < |raw| ==> ks[i] == KeyOpt(raw[i])
  {
    seq(|raw|, i requires 0 <= i < |raw| => KeyOpt(raw[i]))
  }

  /** The loop of `clean_courses` after the first `n` records, as the
      indices of the records it appended and its `seen` set.  Cleaning a
      record does not depend on the loop state, so the appended records are
      the cleaned records at these indices. */
  function DedupPrefix(ks: seq<Option<CourseKey>>, n: nat): (seq<nat>, set<CourseKey>)
    requires n <= |ks|
    decreases n
  {
    if n == 0 then ([], {})
    else
      var (kept, seen) := DedupPrefix(ks, n - 1);
      match ks[n - 1]
      case None => (kept, seen)
      case Some(key) =>
        if key in seen then (kept, seen)
        else (kept + [n - 1], seen + {key})
  }

  /** The positions the loop of `clean_courses` keeps: each has a key, and
      the keys are pairwise different. */
  function Kept(ks: seq<Option<CourseKey>>): (kept: seq<nat>)
    ensures |kept| <= |ks|
    ensures forall k :: 0 <= k < |kept| ==> kept[k] < |ks| && ks[kept[k]].Some?
    ensures forall a, b :: 0 <= a < b < |kept| ==> ks[kept[a]].value != ks[kept[b]].value
  {
    PrefixInvariant(ks, |ks|);
    FirstKeysDistinct(ks, |ks|);
    DedupPrefix(ks, |ks|).0
  }

  /** The cleaned records at the given indices, in order. */
  function CleanAt(raw: seq<RawCourse>, kept: seq<nat>, cfg: CleanerConfig): (r: seq<CleanCourse>)
    requires forall k :: 0 <= k < |kept| ==> kept[k] < |raw|
    ensures |r| == |kept|
    decreases |kept|
  {
    if kept == [] then [] else [CleanRecord(raw[kept[0]], cfg)] + CleanAt(raw, kept[1..], cfg)
  }

  /** Element `k` of `CleanAt` is the cleaned record at `kept[k]`. */
  lemma {:induction false} CleanAtIndex(raw: seq<RawCourse>, kept: seq<nat>, cfg: CleanerConfig, k: nat)
    requires forall k :: 0 <= k < |kept| ==> kept[k] < |raw|
    requires k < |kept|
    ensures CleanAt(raw, kept, cfg)[k] == CleanRecord(raw[kept[k]], cfg)
    decreases k
  {
    if k > 0 {
      CleanAtIndex(raw, kept[1..], cfg, k - 1);
    }
  }

  /** A cleaned record as `clean_courses` emits it: a name of at least two
      characters, a non-empty teacher and a non-empty category. */
  predicate WellCleaned(c: CleanCourse)
  {
    |c.name| >= 2 && c.teacher != "" && c.category != ""
  }

  /** `clean_courses`. */
  function CleanCourses(raw: seq<RawCourse>, cfg: CleanerConfig): (r: seq<CleanCourse>)
    ensures |r| <= |raw|
    ensures forall k :: 0 <= k < |r| ==> WellCleaned(r[k])
    ensures forall a, b :: 0 <= a < b < |r| ==> CleanKeyOf(r[a]) != CleanKeyOf(r[b])
  {
    var ks := Entries(raw);
    var kept := Kept(ks);
    KeptRecords(raw, kept, cfg);
    CleanAt(raw, kept, cfg)
  }

  /** The cleaned records of records with a kept name are well formed and
      carry the record's key. */
  lemma KeptRecords(raw: seq<RawCourse>, kept: seq<nat>, cfg: CleanerConfig)
    requires forall k :: 0 <= k < |kept| ==> kept[k] < |raw| && Entries(raw)[kept[k]].Some?
    ensures forall k :: 0 <= k < |kept| ==>
      WellCleaned(CleanAt(raw, kept, cfg)[k]) && CleanKeyOf(CleanAt(raw, kept, cfg)[k]) == Entries(raw)[kept[k]].value
  {
    forall k | 0 <= k < |kept|
      ensures WellCleaned(CleanAt(raw, kept, cfg)[k]) && CleanKeyOf(CleanAt(raw, kept, cfg)[k]) == Entries(raw)[kept[k]].value
    {
      CleanAtIndex(raw, kept, cfg, k);
    }
  }

  // ---------------------------------------------------------------------
  // Reference definition: first occurrences, in order
  // ---------------------------------------------------------------------

  /** Entry `i` is kept: it has a key and no earlier entry has the same. */
  predicate IsFirst(ks: seq<Option<CourseKey>>, i: nat)
    requires i < |ks|
  {
    ks[i].Some? && forall j :: 0 <= j < i ==> ks[j] != ks[i]
  }

  /** The indices below `n` of the first occurrences, in increasing order. */
  function FirstIndices(ks: seq<Option<CourseKey>>, n: nat): (idx: seq<nat>)
    requires n <= |ks|
    ensures forall k :: 0 <= k < |idx| ==> idx[k] < n && IsFirst(ks, idx[k])
    ensures forall a, b :: 0 <= a < b < |idx| ==> idx[a] < idx[b]
    ensures forall i :: 0 <= i < n && IsFirst(ks, i) ==> i in idx
    ensures |idx| <= n
    decreases n
  {
    if n == 0 then []
    else FirstIndices(ks, n - 1) + (if IsFirst(ks, n - 1) then [n - 1] else [])
  }

  /** First occurrences carry pairwise different keys. */
  lemma FirstKeysDistinct(ks: seq<Option<CourseKey>>, n: nat)
    requires n <= |ks|
    ensures var idx := FirstIndices(ks, n);
      forall a, b :: 0 <= a < b < |idx| ==> ks[idx[a]].Some? && ks[idx[a]].value != ks[idx[b]].value
  {
    var idx := FirstIndices(ks, n);
    forall a, b | 0 <= a < b < |idx| ensures ks[idx[a]].Some? && ks[idx[a]].value != ks[idx[b]].value {
      assert IsFirst(ks, idx[b]) && idx[a] < idx[b];
    }
  }

  /** The keys among the first `n` entries. */
  function Seen(ks: seq<Option<CourseKey>>, n: nat): set<CourseKey>
    requires n <= |ks|
  {
    set j | 0 <= j < n && ks[j].Some? :: ks[j].value
  }

  /** The seen set grows by the new key, and the key is already there
      exactly when the entry is not a first occurrence. */
  lemma SeenStep(ks: seq<Option<CourseKey>>, n: nat)
    requires 0 < n <= |ks|
    ensures Seen(ks, n) == if ks[n - 1].Some? then Seen(ks, n - 1) + {ks[n - 1].value} else Seen(ks, n - 1)
    ensures ks[n - 1].Some? ==> (ks[n - 1].value in Seen(ks, n - 1) <==> !IsFirst(ks, n - 1))
  {
    if ks[n - 1].Some? && ks[n - 1].value in Seen(ks, n - 1) {
      var j :| 0 <= j < n - 1 && ks[j].Some? && ks[j].value == ks[n - 1].value;
      assert ks[j] == ks[n - 1];
    }
    if ks[n - 1].Some? && !IsFirst(ks, n - 1) {
      var j :| 0 <= j < n - 1 && ks[j] == ks[n - 1];
      assert ks[j].value in Seen(ks, n - 1);
    }
  }

  /** The loop's invariant: `seen` holds every key met so far and the
      appended records are exactly the first occurrences, in order. */
  lemma {:induction false} PrefixInvariant(ks: seq<Option<CourseKey>>, n: nat)
    requires n <= |ks|
    ensures DedupPrefix(ks, n) == (FirstIndices(ks, n), Seen(ks, n))
    decreases n
  {
    if n == 0 {
      assert Seen(ks, 0) == {};
    } else {
      PrefixInvariant(ks, n - 1);
      SeenStep(ks, n);
      var idx0, seen0 := FirstIndices(ks, n - 1), Seen(ks, n - 1);
      if ks[n - 1].Some? && ks[n - 1].value !in seen0 {
        assert DedupPrefix(ks, n) == (idx0 + [n - 1], seen0 + {ks[n - 1].value});
        assert FirstIndices(ks, n) == idx0 + [n - 1];
      } else {
        assert DedupPrefix(ks, n) == (idx0, seen0);
        assert FirstIndices(ks, n) == idx0;
        assert Seen(ks, n) == seen0;
      }
    }
  }

  /** `clean_courses` equals the reference: the cleaned first occurrences of
      each key among the records with a kept name, in input order. */
  lemma CleanCoursesFirstOccurrences(raw: seq<RawCourse>, cfg: CleanerConfig)
    ensures var r, idx := CleanCourses(raw, cfg), FirstIndices(Entries(raw), |raw|);
      |r| == |idx| && forall k :: 0 <= k < |r| ==> r[k] == CleanRecord(raw[idx[k]], cfg)
  {
    var ks := Entries(raw);
    PrefixInvariant(ks, |raw|);
    var kept := Kept(ks);
    assert kept == FirstIndices(ks, |raw|);
    forall k | 0 <= k < |kept| ensures CleanAt(raw, kept, cfg)[k] == CleanRecord(raw[kept[k]], cfg) {
      CleanAtIndex(raw, kept, cfg, k);
    }
  }

  /** The earliest record sharing record `i`'s key. */
  function FirstWithKey(ks: seq<Option<CourseKey>>, i: nat): (f: nat)
    requires i < |ks| && ks[i].Some?
    ensures f <= i && IsFirst(ks, f) && ks[f] == ks[i]
    decreases i
  {
    if exists j :: 0 <= j < i && ks[j] == ks[i] then
      var j :| 0 <= j < i && ks[j] == ks[i];
      FirstWithKey(ks, j)
    else i
  }

  /** Every record whose name is kept has its key in the output. */
  lemma CleanCoursesKeepsEveryKey(raw: seq<RawCourse>, cfg: CleanerConfig, i: nat)
    requires i < |raw| && KeyOpt(raw[i]).Some?
    ensures exists k :: 0 <= k < |CleanCourses(raw, cfg)| && CleanKeyOf(CleanCourses(raw, cfg)[k]) == KeyOpt(raw[i]).value
  {
    var ks := Entries(raw);
    var k := KeptHasKey(ks, i);
    KeptRecords(raw, Kept(ks), cfg);
    assert CleanKeyOf(CleanCourses(raw, cfg)[k]) == KeyOpt(raw[i]).value;
  }

  /** Some kept position carries the key of entry `i`. */
  lemma KeptHasKey(ks: seq<Option<CourseKey>>, i: nat) returns (k: nat)
    requires i < |ks| && ks[i].Some?
    ensures k < |Kept(ks)| && ks[Kept(ks)[k]] == ks[i]
  {
    PrefixInvariant(ks, |ks|);
    var idx := Kept(ks);
    var first := FirstWithKey(ks, i);
    k :| 0 <= k < |idx| && idx[k] == first;
  }
}
