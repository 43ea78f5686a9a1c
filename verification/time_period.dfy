/** `gui_run.py`: the time-period classifier `normalize_time_period` and the
    section-based inference of a period that both it and the PDF row loop use
    when no period is written. */
module TimePeriod {
  import opened TextUtil

  const Morning: string := "上午"
  const Afternoon: string := "下午"
  const Evening: string := "晚上"
  const UnknownPeriod: string := "未知时段"

  /** The four values `normalize_time_period` can return. */
  predicate IsPeriod(p: string)
  {
    p == Morning || p == Afternoon || p == Evening || p == UnknownPeriod
  }

  // ---------------------------------------------------------------------
  // Period from a section such as "1-2" or "9-10"
  // ---------------------------------------------------------------------

  const MorningTokens: seq<string> := ["1", "2", "3", "4", "1-2", "3-4"]
  const AfternoonTokens: seq<string> := ["5", "6", "7", "8", "5-6", "7-8"]
  const EveningTokens: seq<string> := ["9", "10", "9-10"]

  /** The inference as written: substring tests against the three lists, in
      the order morning, afternoon, evening.  `None` when no list matches. */
  function InferAsWritten(section: string): (r: Option<string>)
    ensures r.Some? ==> r.value == Morning || r.value == Afternoon || r.value == Evening
    ensures r.None? <==> !ContainsAny(section, MorningTokens) && !ContainsAny(section, AfternoonTokens)
                         && !ContainsAny(section, EveningTokens)
  {
    if ContainsAny(section, MorningTokens) then Some(Morning)
    else if ContainsAny(section, AfternoonTokens) then Some(Afternoon)
    else if ContainsAny(section, EveningTokens) then Some(Evening)
    else None
  }

  /** Some number written in the section lies in `lo..hi`. */
  predicate NamesNumber(section: string, lo: nat, hi: nat)
  {
    exists k :: 0 <= k < |DigitRuns(section)| && lo <= DigitsValue(DigitRuns(section)[k]) <= hi
  }

  /** The inference as intended: the lists name section numbers, so a list
      matches when one of the section's numbers is in its range: 1-4
      morning, 5-8 afternoon, 9-10 evening ("10" no longer matches the
      morning entry "1"). */
  function InferFromSection(section: string): (r: Option<string>)
    ensures r.Some? ==> r.value == Morning || r.value == Afternoon || r.value == Evening
    ensures r.Some? ==> HasDigit(section)
  {
    if NamesNumber(section, 1, 4) then Some(Morning)
    else if NamesNumber(section, 5, 8) then Some(Afternoon)
    else if NamesNumber(section, 9, 10) then Some(Evening)
    else None
  }

  /** The section "9-10" (the evening double period) is classified as morning
      as written, because "9-10" contains the substring "1"; the intended
      reading gives evening. */
  lemma NineTenAsWritten()
    ensures InferAsWritten("9-10") == Some(Morning)
  {
    ContainsAt("9-10", "1", 2);
    assert Contains("9-10", MorningTokens[0]);
  }

  /** The intended reading puts "9-10" in the evening. */
  lemma NineTenIntended()
    ensures InferFromSection("9-10") == Some(Evening)
  {
    NineTenRuns();
    var runs := DigitRuns("9-10");
    OneDigitValue(runs[0]);
    assert DigitsValue(runs[0]) == 9;
    assert DigitsValue(runs[1]) == 10 by { TwoDigitValue(runs[1]); }
  }

  /** The numbers of "9-10" are 9 and 10. */
  lemma NineTenRuns()
    ensures DigitRuns("9-10") == ["9", "10"]
  {
    var s := "9-10";
    DigitRunsHead(s);
    assert RunLength(s, IsDigit) == 1;
    assert s[1..] == "-10";
    DigitRunsSkip("-10");
    assert "-10"[1..] == "10";
    DigitRunsOfDigits("10");
    assert DigitRuns(s)[1..] == ["10"];
    assert s[..1] == "9";
  }

  /** Every number of the section is a single digit. */
  predicate SingleDigitNumbers(section: string)
  {
    forall k :: 0 <= k < |DigitRuns(section)| ==> |DigitRuns(section)[k]| == 1
  }

  /** The two readings differ only on sections that write a number of two or
      more digits: for sections whose numbers are all single digits the
      substring tests and the number tests agree. */
  lemma InferAgrees(section: string)
    requires SingleDigitNumbers(section)
    ensures InferAsWritten(section) == InferFromSection(section)
  {
    MorningAgrees(section);
    AfternoonAgrees(section);
    EveningAgrees(section);
  }

  lemma MorningAgrees(s: string)
    requires SingleDigitNumbers(s)
    ensures ContainsAny(s, MorningTokens) <==> NamesNumber(s, 1, 4)
  {
    MorningDigits(s);
    forall c | IsDigit(c) ensures Contains(s, [c]) <==> [c] in DigitRuns(s) {
      DigitToken(s, c);
    }
    RunsInRange(s, 1, 4);
  }

  lemma AfternoonAgrees(s: string)
    requires SingleDigitNumbers(s)
    ensures ContainsAny(s, AfternoonTokens) <==> NamesNumber(s, 5, 8)
  {
    AfternoonDigits(s);
    forall c | IsDigit(c) ensures Contains(s, [c]) <==> [c] in DigitRuns(s) {
      DigitToken(s, c);
    }
    RunsInRange(s, 5, 8);
  }

  lemma EveningAgrees(s: string)
    requires SingleDigitNumbers(s)
    ensures ContainsAny(s, EveningTokens) <==> NamesNumber(s, 9, 10)
  {
    EveningDigits(s);
    DigitToken(s, '9');
    RunsInRange(s, 9, 10);
    if NamesNumber(s, 9, 10) {
      var c :| IsDigit(c) && 9 <= DigitValue(c) <= 10 && [c] in DigitRuns(s);
      assert c == '9';
    }
  }

  /** A digit occurs as a substring exactly when it is one of the numbers. */
  lemma DigitToken(s: string, c: char)
    requires SingleDigitNumbers(s) && IsDigit(c)
    ensures Contains(s, [c]) <==> [c] in DigitRuns(s)
  {
    ContainsChar(s, c);
    DigitInRuns(s, c);
  }

  /** With single-digit numbers only, a number lies in `lo..hi` exactly when
      a one-digit string of a digit in `lo..hi` is among the numbers. */
  lemma RunsInRange(s: string, lo: nat, hi: nat)
    requires SingleDigitNumbers(s)
    ensures NamesNumber(s, lo, hi) <==>
      exists c :: IsDigit(c) && lo <= DigitValue(c) <= hi && [c] in DigitRuns(s)
  {
    var runs := DigitRuns(s);
    if NamesNumber(s, lo, hi) {
      var k :| 0 <= k < |runs| && lo <= DigitsValue(runs[k]) <= hi;
      OneDigitValue(runs[k]);
      assert runs[k] == [runs[k][0]];
    }
    if exists c :: IsDigit(c) && lo <= DigitValue(c) <= hi && [c] in runs {
      var c :| IsDigit(c) && lo <= DigitValue(c) <= hi && [c] in runs;
      var k :| 0 <= k < |runs| && runs[k] == [c];
      OneDigitValue(runs[k]);
    }
  }

  lemma MorningDigits(s: string)
    ensures ContainsAny(s, MorningTokens) <==> exists c :: '1' <= c <= '4' && Contains(s, [c])
  {
    ContainsListReduce(s, "1", '-', "2");
    ContainsListReduce(s, "3", '-', "4");
    assert MorningTokens[4] == "1" + ['-'] + "2" && MorningTokens[5] == "3" + ['-'] + "4";
    if exists c :: '1' <= c <= '4' && Contains(s, [c]) {
      var c :| '1' <= c <= '4' && Contains(s, [c]);
      assert [c] == MorningTokens[c as int - '1' as int];
    }
    if ContainsAny(s, MorningTokens) {
      var k :| 0 <= k < 6 && Contains(s, MorningTokens[k]);
      if k < 4 { assert MorningTokens[k] == [('1' as int + k) as char]; }
      else if k == 4 { assert Contains(s, ['1']); } else { assert Contains(s, ['3']); }
    }
  }

  lemma AfternoonDigits(s: string)
    ensures ContainsAny(s, AfternoonTokens) <==> exists c :: '5' <= c <= '8' && Contains(s, [c])
  {
    ContainsListReduce(s, "5", '-', "6");
    ContainsListReduce(s, "7", '-', "8");
    assert AfternoonTokens[4] == "5" + ['-'] + "6" && AfternoonTokens[5] == "7" + ['-'] + "8";
    if exists c :: '5' <= c <= '8' && Contains(s, [c]) {
      var c :| '5' <= c <= '8' && Contains(s, [c]);
      assert [c] == AfternoonTokens[c as int - '5' as int];
    }
    if ContainsAny(s, AfternoonTokens) {
      var k :| 0 <= k < 6 && Contains(s, AfternoonTokens[k]);
      if k < 4 { assert AfternoonTokens[k] == [('5' as int + k) as char]; }
      else if k == 4 { assert Contains(s, ['5']); } else { assert Contains(s, ['7']); }
    }
  }

  lemma EveningDigits(s: string)
    requires SingleDigitNumbers(s)
    ensures ContainsAny(s, EveningTokens) <==> Contains(s, ['9'])
  {
    NoTwoDigits(s, "10");
    ContainsListReduce(s, "9", '-', "10");
    assert EveningTokens[2] == "9" + ['-'] + "10";
    if Contains(s, "9") { assert Contains(s, EveningTokens[0]); }
  }

  /** A token `a + [sep] + b` occurs only where `a` occurs. */
  lemma ContainsListReduce(s: string, a: string, sep: char, b: string)
    ensures Contains(s, a + [sep] + b) ==> Contains(s, a)
  {
    if Contains(s, a + [sep] + b) {
      var t := a + [sep] + b;
      assert t[0..|a|] == a;
      SliceContained(t, 0, |a|);
      ContainsTrans(s, t, a);
    }
  }

  /** With single-digit numbers only, no two digits are adjacent. */
  lemma NoTwoDigits(s: string, t: string)
    requires SingleDigitNumbers(s) && |t| == 2 && IsDigit(t[0]) && IsDigit(t[1])
    ensures !Contains(s, t)
  {
    if Contains(s, t) {
      var i := ContainsWitness(s, t);
      AdjacentDigitsRun(s, i);
    }
  }

  /** Two adjacent digits lie in one number, which then has two digits. */
  lemma {:induction false} AdjacentDigitsRun(s: string, i: nat)
    requires i + 1 < |s| && IsDigit(s[i]) && IsDigit(s[i + 1])
    ensures !SingleDigitNumbers(s)
    decreases |s|
  {
    if IsDigit(s[0]) {
      var n := RunLength(s, IsDigit);
      if i < n {
        LongFirstRun(s, i);
      } else {
        assert s[n..][i - n] == s[i] && s[n..][i - n + 1] == s[i + 1];
        AdjacentDigitsRun(s[n..], i - n);
        LaterLongRun(s);
      }
    } else {
      assert s[1..][i - 1] == s[i] && s[1..][i] == s[i + 1];
      AdjacentDigitsRun(s[1..], i - 1);
      DigitRunsSkip(s);
    }
  }

  /** Two adjacent digits inside the leading run make it two digits long. */
  lemma LongFirstRun(s: string, i: nat)
    requires i + 1 < |s| && IsDigit(s[0]) && i < RunLength(s, IsDigit) && IsDigit(s[i + 1])
    ensures !SingleDigitNumbers(s)
  {
    var n := RunLength(s, IsDigit);
    DigitRunsHead(s);
    assert |DigitRuns(s)[0]| == n >= 2;
  }

  /** A long number after the leading run is a long number of `s`. */
  lemma LaterLongRun(s: string)
    requires s != [] && IsDigit(s[0]) && !SingleDigitNumbers(s[RunLength(s, IsDigit)..])
    ensures !SingleDigitNumbers(s)
  {
    var rest := s[RunLength(s, IsDigit)..];
    DigitRunsHead(s);
    var k :| 0 <= k < |DigitRuns(rest)| && |DigitRuns(rest)[k]| != 1;
    assert DigitRuns(s)[k + 1] == DigitRuns(rest)[k];
  }

  /** With single-digit numbers only, a digit occurs in the section exactly
      when it is one of its numbers. */
  lemma {:induction false} DigitInRuns(s: string, c: char)
    requires SingleDigitNumbers(s) && IsDigit(c)
    ensures c in s <==> [c] in DigitRuns(s)
    decreases |s|
  {
    if s == [] {
    } else if IsDigit(s[0]) {
      var n := RunLength(s, IsDigit);
      DigitRunsHead(s);
      var runs := DigitRuns(s);
      assert |runs[0]| == 1;
      assert n == 1;
      assert runs[0] == [s[0]];
      forall k | 0 <= k < |DigitRuns(s[n..])| ensures |DigitRuns(s[n..])[k]| == 1 {
        assert DigitRuns(s[n..])[k] == runs[k + 1];
      }
      DigitInRuns(s[n..], c);
      assert runs == [runs[0]] + runs[1..];
      assert c in s <==> c == s[0] || c in s[1..] by { assert s == [s[0]] + s[1..]; }
    } else {
      DigitRunsSkip(s);
      DigitInRuns(s[1..], c);
      assert c in s <==> c in s[1..] by { assert s == [s[0]] + s[1..]; }
    }
  }

  // ---------------------------------------------------------------------
  // normalize_time_period
  // ---------------------------------------------------------------------

  /** `re.search(r'(\d{1,2})(?::|点)?', tp)`: the first one or two digits of
      the first number, as an hour. */
  function FirstHour(t: string): (h: Option<nat>)
    ensures h.None? <==> !HasDigit(t)
    ensures h.Some? ==> h.value <= 99
  {
    var i := FirstIndex(t, IsDigit);
    if i == |t| then None
    else
      var n := RunLength(t[i..], IsDigit);
      var m := if n >= 2 then 2 else 1;
      var d := t[i..i + m];
      assert d[0] == t[i];
      assert forall k :: 0 <= k < m ==> d[k] == t[i..][k];
      TwoDigitsBound(d);
      Some(DigitsValue(d))
  }

  lemma TwoDigitsBound(d: string)
    requires 1 <= |d| <= 2 && AllDigits(d)
    ensures DigitsValue(d) <= 99
  {
    if |d| == 1 { OneDigitValue(d); } else { TwoDigitValue(d); }
  }

  lemma OneDigitValue(d: string)
    requires |d| == 1 && AllDigits(d)
    ensures DigitsValue(d) == DigitValue(d[0])
  {
    assert d[..0] == [];
  }

  lemma TwoDigitValue(d: string)
    requires |d| == 2 && AllDigits(d)
    ensures DigitsValue(d) == 10 * DigitValue(d[0]) + DigitValue(d[1])
  {
    OneDigitValue(d[..1]);
  }

  /** The clock-hour bands: 6-11 morning, 12-17 afternoon, anything else
      evening. */
  function HourPeriod(h: nat): (p: string)
    ensures p == Morning <==> 6 <= h <= 11
    ensures p == Afternoon <==> 12 <= h <= 17
    ensures p == Evening <==> h < 6 || h > 17
  {
    if 6 <= h <= 11 then Morning
    else if 12 <= h <= 17 then Afternoon
    else Evening
  }

  /** `normalize_time_period(time_period, section)`, as written: with no
      period, the section is classified by the substring tests.  A missing
      period is the empty string. */
  function NormalizeTimePeriod(tp: string, section: string): (r: string)
    ensures IsPeriod(r)
    ensures tp == "" && section != "" && InferAsWritten(section).Some? ==> r == InferAsWritten(section).value
    ensures tp == "" && (section == "" || InferAsWritten(section).None?) ==> r == UnknownPeriod
  {
    if tp == "" && section != "" && InferAsWritten(section).Some? then InferAsWritten(section).value
    else if tp == "" then UnknownPeriod
    else
      var t := Strip(tp);
      if Contains(t, "上午") || Contains(t, "早") then Morning
      else if Contains(t, "下午") || Contains(t, "午") then Afternoon
      else if Contains(t, "晚") || Contains(t, "夜") then Evening
      else match FirstHour(t)
        case Some(h) => HourPeriod(h)
        case None => UnknownPeriod
  }

  /** The classifier with the section read as intended: a written period is
      classified exactly as before, a missing one by the section's numbers. */
  function NormalizeTimePeriodIntended(tp: string, section: string): (r: string)
    ensures IsPeriod(r)
    ensures tp != "" ==> r == NormalizeTimePeriod(tp, section)
    ensures tp == "" && InferFromSection(section).Some? ==> r == InferFromSection(section).value
    ensures tp == "" && InferFromSection(section).None? ==> r == UnknownPeriod
  {
    if tp != "" then NormalizeTimePeriod(tp, section)
    else match InferFromSection(section)
      case Some(p) => p
      case None => UnknownPeriod
  }

  /** The two classifiers differ only on sections that write a number of two
      or more digits. */
  lemma IntendedAgrees(tp: string, section: string)
    requires SingleDigitNumbers(section)
    ensures NormalizeTimePeriodIntended(tp, section) == NormalizeTimePeriod(tp, section)
  {
    InferAgrees(section);
  }

  /** "9-10" with no written period: morning as written, evening as
      intended. */
  lemma NineTenPeriods()
    ensures NormalizeTimePeriod("", "9-10") == Morning
    ensures NormalizeTimePeriodIntended("", "9-10") == Evening
  {
    NineTenAsWritten();
    NineTenIntended();
  }

  /** The section "12" is morning as written (it contains "1") and names no
      listed section as intended. */
  lemma TwelveAsWritten()
    ensures InferAsWritten("12") == Some(Morning)
    ensures InferFromSection("12") == None
  {
    ContainsAt("12", "1", 0);
    assert Contains("12", MorningTokens[0]);
    DigitRunsOfDigits("12");
    TwoDigitValue("12");
    assert DigitsValue(DigitRuns("12")[0]) == 12;
  }

  /** First tier: "上午" or "早" anywhere makes the period morning, whatever
      else it holds ("早晚" is morning). */
  lemma MorningKeywords(tp: string, section: string)
    requires tp != ""
    requires Contains(Strip(tp), "上午") || Contains(Strip(tp), "早")
    ensures NormalizeTimePeriod(tp, section) == Morning
  {
  }

  /** Second tier: without a morning keyword, "下午" or "午" makes the period
      afternoon, whatever evening keyword it also holds. */
  lemma AfternoonKeywords(tp: string, section: string)
    requires tp != ""
    requires !Contains(Strip(tp), "上午") && !Contains(Strip(tp), "早")
    requires Contains(Strip(tp), "下午") || Contains(Strip(tp), "午")
    ensures NormalizeTimePeriod(tp, section) == Afternoon
  {
  }

  /** Third tier: with no morning or afternoon keyword, "晚" or "夜" makes
      the period evening, whatever clock time it also holds. */
  lemma EveningKeywords(tp: string, section: string)
    requires tp != ""
    requires !Contains(Strip(tp), "上午") && !Contains(Strip(tp), "早")
    requires !Contains(Strip(tp), "下午") && !Contains(Strip(tp), "午")
    requires Contains(Strip(tp), "晚") || Contains(Strip(tp), "夜")
    ensures NormalizeTimePeriod(tp, section) == Evening
  {
  }

  /** "午夜" (midnight) holds the afternoon keyword "午", which is tried
      before the evening keyword "夜": it is classified as afternoon. */
  lemma MidnightIsAfternoon()
    ensures NormalizeTimePeriod("午夜", "") == Afternoon
  {
    MidnightKeywords("午夜");
    AfternoonKeywords("午夜", "");
  }

  lemma MidnightKeywords(t: string)
    requires t == "午夜"
    ensures Strip(t) == t
    ensures Contains(t, "午") && !Contains(t, "上午") && !Contains(t, "早")
  {
    assert !IsSpace(t[0]) && !IsSpace(t[1]);
    StripFixed(t);
    assert t[0..1] == "午";
    ContainsAt(t, "午", 0);
    assert '上' !in t && '早' !in t;
    AbsentChar(t, "上午", 0);
    AbsentChar(t, "早", 0);
  }

  /** A written period is classified on its own: the section is not
      consulted. */
  lemma SectionIgnored(tp: string, s1: string, s2: string)
    requires tp != ""
    ensures NormalizeTimePeriod(tp, s1) == NormalizeTimePeriod(tp, s2)
  {
  }

  /** A written period that holds a digit is never unknown. */
  lemma DigitNeverUnknown(tp: string, section: string)
    requires HasDigit(Strip(tp))
    ensures NormalizeTimePeriod(tp, section) != UnknownPeriod
  {
  }

  /** A period without any keyword character is classified by its first
      clock hour, or unknown when it holds no digit. */
  lemma ClockOnly(tp: string, section: string)
    requires tp != ""
    requires forall i :: 0 <= i < |Strip(tp)| ==> Strip(tp)[i] !in "上下午早晚夜"
    ensures NormalizeTimePeriod(tp, section) ==
      match FirstHour(Strip(tp)) { case Some(h) => HourPeriod(h) case None => UnknownPeriod }
  {
    var t := Strip(tp);
    NoKeyword(t, "上午");
    NoKeyword(t, "早");
    NoKeyword(t, "下午");
    NoKeyword(t, "午");
    NoKeyword(t, "晚");
    NoKeyword(t, "夜");
  }

  /** A keyword whose first character is absent does not occur. */
  lemma NoKeyword(t: string, k: string)
    requires |k| >= 1 && k[0] in "上下午早晚夜"
    requires forall i :: 0 <= i < |t| ==> t[i] !in "上下午早晚夜"
    ensures !Contains(t, k)
  {
    if Contains(t, k) {
      var i := ContainsWitness(t, k);
    }
  }

  /** Clock times: "08:00" is morning, "14:30" afternoon, "19:00" evening. */
  lemma ClockExamples()
    ensures NormalizeTimePeriod("08:00", "") == Morning
    ensures NormalizeTimePeriod("14:30", "") == Afternoon
    ensures NormalizeTimePeriod("19:00", "") == Evening
  {
    ClockExample("08:00", '0', '8', 8);
    ClockExample("14:30", '1', '4', 14);
    ClockExample("19:00", '1', '9', 19);
  }

  lemma ClockExample(s: string, a: char, b: char, h: nat)
    requires |s| == 5 && s[0] == a && s[1] == b && IsDigit(a) && IsDigit(b)
    requires s[2] == ':' && IsDigit(s[3]) && IsDigit(s[4])
    requires h == 10 * DigitValue(a) + DigitValue(b)
    ensures NormalizeTimePeriod(s, "") == HourPeriod(h)
  {
    StripFixed(s);
    ClockOnly(s, "");
    ClockHour(s, h);
  }

  /** The hour of "HH:MM" is HH. */
  lemma ClockHour(s: string, h: nat)
    requires |s| == 5 && IsDigit(s[0]) && IsDigit(s[1]) && s[2] == ':'
    requires h == 10 * DigitValue(s[0]) + DigitValue(s[1])
    ensures FirstHour(s) == Some(h)
  {
    assert FirstIndex(s, IsDigit) == 0;
    assert s[0..] == s;
    assert RunLength(s, IsDigit) == 2 by {
      assert RunLength(s[2..], IsDigit) == 0;
      assert s[1..][1..] == s[2..];
    }
    TwoDigitValue(s[0..2]);
  }
}
