/** `_clean_teacher`: screening the raw teacher value and, when it is
    rejected, re-deriving a Chinese personal name from the source text. */
module TeacherCleaner {
  import opened TextUtil
  import opened Records
  import CellTeacher

  /** The sentinel for "no teacher". */
  const Unassigned: string := "未安排"

  /** Substrings that make a raw teacher value unusable. */
  const NoiseTokens: seq<string> := ["未安排", "课", "本", "班", "计算", "大数据", "电信", "信息", "实验室"]

  /** Substrings that mark a re-derived candidate as a department, grade or room. */
  const CandidateNoise: seq<string> := ["学", "科", "本", "班", "院", "系", "专", "实验", "楼", "室", "号"]

  /** First characters accepted as common surnames. */
  const CommonSurnames: string := "赵钱孙李周吴郑王冯陈褚卫蒋沈韩杨朱秦尤许何吕施张孔曹严华金魏陶姜"

  // ---------------------------------------------------------------------
  // Screening the raw value
  // ---------------------------------------------------------------------

  /** Blacklisted, noisy, numeric or longer than 30 characters. */
  predicate IsNoisy(t: string, cfg: CleanerConfig)
  {
    ContainsAny(t, cfg.teacherBlacklist) || ContainsAny(t, NoiseTokens) || HasDigit(t) || |t| > 30
  }

  /** One of teacher and course name contains the other once ASCII spaces
      are removed. */
  predicate OverlapsCourse(t: string, courseName: string)
  {
    var a, b := RemoveChar(t, ' '), RemoveChar(courseName, ' ');
    Contains(a, b) || Contains(b, a)
  }

  /** The three screens applied in order; "" when the raw value is rejected. */
  function ScreenRaw(raw: string, courseName: string, cfg: CleanerConfig): (t: string)
    ensures t == "" || (t == Strip(raw) && IsNameShape(t, 2, 6))
  {
    var t0 := Strip(raw);
    var t1 := if IsNoisy(t0, cfg) then "" else t0;
    var t2 := if t1 != "" && courseName != "" && OverlapsCourse(t1, courseName) then "" else t1;
    if t2 != "" && !IsNameShape(t2, 2, 6) then "" else t2
  }

  // ---------------------------------------------------------------------
  // Pre-cleaning the source text: each `re.sub` pattern as an anchored
  // matcher returning the length of the match at the start of its argument
  // ---------------------------------------------------------------------

  /** `[一-龥\w\s-]`. */
  predicate IsClassChar(c: char) { IsWordChar(c) || IsSpace(c) || c == '-' }

  predicate IsCloseOrNewline(c: char) { c == ')' || c == '\n' }

  /** The largest `j <= k` with '本' at `t[q + j]`. */
  function BenWithin(t: string, q: nat, k: nat): (r: Option<nat>)
    ensures r.Some? ==> r.value <= k && q + r.value < |t| && t[q + r.value] == '本'
    ensures r.None? ==> forall i :: q <= i <= q + k && i < |t| ==> t[i] != '本'
    decreases k
  {
    if q + k < |t| && t[q + k] == '本' then Some(k)
    else if k == 0 then None
    else BenWithin(t, q, k - 1)
  }

  /** `t[q..n]` is the tail of a class tag: right after "23", at most 21
      class characters. */
  predicate ClassTail(t: string, q: nat, n: nat)
  {
    2 <= q < n <= |t| && t[q - 2] == '2' && t[q - 1] == '3' && n - q <= 21
    && forall j :: q <= j < n ==> IsClassChar(t[j])
  }

  /** `/?\s*23[一-龥\w\s-]{0,20}本`: a class/major tag such as "/23计算机本". */
  function ClassYearMatch(t: string): (n: nat)
    ensures n <= |t|
    ensures n > 0 ==> n >= 3 && t[n - 1] == '本'
    ensures n > 0 ==> exists q :: ClassTail(t, q, n)
  {
    var a := if |t| > 0 && t[0] == '/' then 1 else 0;
    var w := RunLength(t[a..], IsSpace);
    var q := a + w + 2;
    if q <= |t| && t[a + w] == '2' && t[a + w + 1] == '3' then ClassTagEnd(t, q) else 0
  }

  /** After "23" at `q`: up to 20 class characters, then the last '本'
      among them (the repetition is greedy and backtracks). */
  function ClassTagEnd(t: string, q: nat): (n: nat)
    requires 2 <= q <= |t| && t[q - 2] == '2' && t[q - 1] == '3'
    ensures n <= |t|
    ensures n > 0 ==> n >= 3 && t[n - 1] == '本' && ClassTail(t, q, n)
  {
    var c := RunLength(t[q..], IsClassChar);
    match BenWithin(t, q, if c < 20 then c else 20)
    case Some(k) =>
      ClassTailAt(t, q, k, c);
      q + k + 1
    case None => 0
  }

  /** The class characters before a '本' found within the run. */
  lemma ClassTailAt(t: string, q: nat, k: nat, c: nat)
    requires 2 <= q <= |t| && t[q - 2] == '2' && t[q - 1] == '3'
    requires c <= |t| - q && forall j :: 0 <= j < c ==> IsClassChar(t[q..][j])
    requires k <= c && k <= 20 && q + k < |t| && t[q + k] == '本'
    ensures ClassTail(t, q, q + k + 1)
  {
    forall j | q <= j < q + k + 1
      ensures IsClassChar(t[j])
    {
      if j < q + k {
        assert t[j] == t[q..][j - q];
      }
    }
  }

  /** `-\d{3,}`: a numeric code such as "-0001". */
  function DashCodeMatch(t: string): (n: nat)
    ensures n <= |t|
    ensures n > 0 <==> |t| >= 4 && t[0] == '-' && IsDigit(t[1]) && IsDigit(t[2]) && IsDigit(t[3])
    ensures n > 0 ==> AllDigits(t[1..n]) && (n == |t| || !IsDigit(t[n]))
  {
    if |t| > 0 && t[0] == '-' then
      var d := RunLength(t[1..], IsDigit);
      if d >= 3 then 1 + d else 0
    else 0
  }

  /** `\(\d+-\d+节\)`: a section note such as "(1-2节)". */
  function SectionParenMatch(t: string): (n: nat)
    ensures n <= |t|
    ensures n > 0 ==> n >= 6 && t[0] == '(' && IsDigit(t[1]) && t[n - 2] == '节' && t[n - 1] == ')'
  {
    if |t| > 0 && t[0] == '(' then
      var d1 := RunLength(t[1..], IsDigit);
      var i := 1 + d1;
      if d1 >= 1 && i < |t| && t[i] == '-' then
        var d2 := RunLength(t[i + 1..], IsDigit);
        var j := i + 1 + d2;
        if d2 >= 1 && j + 1 < |t| && t[j] == '节' && t[j + 1] == ')' then j + 2 else 0
      else 0
    else 0
  }

  /** `\(.*?\)`: the shortest parenthetical on one line. */
  function ParenMatch(t: string): (n: nat)
    ensures n <= |t|
    ensures n > 0 ==> n >= 2 && t[0] == '(' && t[n - 1] == ')'
    ensures n > 0 ==> forall j :: 1 <= j < n - 1 ==> t[j] != ')' && t[j] != '\n'
    ensures n == 0 && |t| > 0 && t[0] == '(' ==> forall j :: 1 <= j < |t| && t[j] == ')' ==> '\n' in t[1..j]
  {
    if |t| > 0 && t[0] == '(' then
      var k := FirstIndex(t[1..], IsCloseOrNewline);
      if 1 + k < |t| && t[1 + k] == ')' then k + 2 else 0
    else 0
  }

  /** `/[一-龥\w\s-]{1,20}$`: a trailing "/fragment" of at most 20
      class characters; `$` also matches just before a final newline. */
  function TrailingClassMatch(t: string): (n: nat)
    ensures n <= |t|
    ensures n > 0 ==> 2 <= n <= 21 && t[0] == '/' && forall j :: 1 <= j < n ==> IsClassChar(t[j])
    ensures n > 0 ==> n == |t| || (n == |t| - 1 && t[n] == '\n')
  {
    if |t| >= 2 && t[0] == '/' then
      var c := RunLength(t[1..], IsClassChar);
      var m := if c < 20 then c else 20;
      if 1 + m == |t| then |t|
      else if t[|t| - 1] == '\n' && |t| >= 3 && m >= |t| - 2 then |t| - 1
      else 0
    else 0
  }

  /** `[\s ]+`. */
  function SpaceRunMatch(t: string): (n: nat)
    ensures n <= |t|
  {
    RunLength(t, IsSpace)
  }

  /** The six deleting substitutions of `_preclean_source_text`, in order. */
  function DropNoise(s: string): (r: string)
    ensures |r| <= |s|
  {
    var s1 := SubAll(s, LiteralMatcher(Unassigned), "");
    var s2 := SubAll(s1, ClassYearMatch, "");
    var s3 := SubAll(s2, DashCodeMatch, "");
    var s4 := SubAll(s3, SectionParenMatch, "");
    var s5 := SubAll(s4, ParenMatch, "");
    SubAll(s5, TrailingClassMatch, "")
  }

  /** The only whitespace character present is the plain space. */
  predicate OnlyPlainSpaces(s: string)
  {
    forall i :: 0 <= i < |s| ==> s[i] == ' ' || !IsSpace(s[i])
  }

  /** Whitespace runs become one space, then strip, `'//'` becomes `'/'`,
      then strip again. */
  function TidySpacing(s: string): (r: string)
    ensures |r| <= |s|
    ensures OnlyPlainSpaces(r)
  {
    var s7 := SubAll(s, SpaceRunMatch, " ");
    SpaceCollapse(s);
    var s8 := Strip(s7);
    StripKeepsPlain(s7);
    var s9 := SubAll(s8, LiteralMatcher("//"), "/");
    SlashKeepsPlain(s8);
    StripKeepsPlain(s9);
    Strip(s9)
  }

  /** `_preclean_source_text`. */
  function Preclean(s: string): (r: string)
    ensures |r| <= |s|
    ensures OnlyPlainSpaces(r)
  {
    TidySpacing(DropNoise(s))
  }

  /** After collapsing, the only whitespace left is the plain space. */
  lemma {:induction false} SpaceCollapse(s: string)
    ensures OnlyPlainSpaces(SubAll(s, SpaceRunMatch, " "))
    decreases |s|
  {
    if s != [] {
      var n := SpaceRunMatch(s);
      var r := SubAll(s, SpaceRunMatch, " ");
      if 0 < n <= |s| {
        SpaceCollapse(s[n..]);
        assert r == " " + SubAll(s[n..], SpaceRunMatch, " ");
      } else {
        SpaceCollapse(s[1..]);
        assert r == [s[0]] + SubAll(s[1..], SpaceRunMatch, " ");
        assert !IsSpace(s[0]);
      }
    }
  }

  lemma StripKeepsPlain(s: string)
    requires OnlyPlainSpaces(s)
    ensures OnlyPlainSpaces(Strip(s))
  {
    var a := StripBlock(s);
  }

  lemma SlashKeepsPlain(s: string)
    requires OnlyPlainSpaces(s)
    ensures OnlyPlainSpaces(SubAll(s, LiteralMatcher("//"), "/"))
  {
    var r := SubAll(s, LiteralMatcher("//"), "/");
    SubAllChars(s, LiteralMatcher("//"), "/");
    forall i | 0 <= i < |r| ensures r[i] == ' ' || !IsSpace(r[i]) {
      if r[i] in s {
        var j :| 0 <= j < |s| && s[j] == r[i];
      }
    }
  }

  /** Every character of a substitution's result comes from the input or
      from the replacement. */
  lemma {:induction false} SubAllChars(s: string, m: string -> nat, repl: string)
    ensures forall i :: 0 <= i < |SubAll(s, m, repl)| ==> SubAll(s, m, repl)[i] in s || SubAll(s, m, repl)[i] in repl
    decreases |s|
  {
    if s != [] {
      var n := m(s);
      var r := SubAll(s, m, repl);
      if 0 < n <= |s| {
        SubAllChars(s[n..], m, repl);
        var rest := SubAll(s[n..], m, repl);
        assert r == repl + rest;
        forall i | 0 <= i < |r| ensures r[i] in s || r[i] in repl {
          if i >= |repl| {
            assert r[i] == rest[i - |repl|];
            assert rest[i - |repl|] in s[n..] || rest[i - |repl|] in repl;
          }
        }
      } else {
        SubAllChars(s[1..], m, repl);
        var rest := SubAll(s[1..], m, repl);
        assert r == [s[0]] + rest;
        forall i | 0 <= i < |r| ensures r[i] in s || r[i] in repl {
          if i >= 1 {
            assert r[i] == rest[i - 1];
            assert rest[i - 1] in s[1..] || rest[i - 1] in repl;
          }
        }
      }
    }
  }

  // ---------------------------------------------------------------------
  // What the pre-cleaning removes
  // ---------------------------------------------------------------------

  /** A character at which no pre-cleaning pattern can start: not '未',
      '/', '2', '-', '(' or whitespace.  Chinese names consist of such
      characters. */
  predicate Inert(c: char)
  {
    c != '未' && c != '/' && c != '2' && c != '-' && c != '(' && !IsSpace(c)
  }

  /** None of the eight patterns matches at the start of `t`. */
  predicate NoMatchAt(t: string)
  {
    && LiteralMatcher(Unassigned)(t) == 0 && ClassYearMatch(t) == 0 && DashCodeMatch(t) == 0
    && SectionParenMatch(t) == 0 && ParenMatch(t) == 0 && TrailingClassMatch(t) == 0
    && SpaceRunMatch(t) == 0 && LiteralMatcher("//")(t) == 0
  }

  lemma InertIdle(t: string)
    requires |t| > 0 && Inert(t[0])
    ensures NoMatchAt(t)
  {
  }

  lemma InertIdleAll(s: string)
    requires forall i :: 0 <= i < |s| ==> Inert(s[i])
    ensures forall i :: 0 <= i < |s| ==> NoMatchAt(s[i..])
  {
    forall i | 0 <= i < |s|
      ensures NoMatchAt(s[i..])
    {
      InertIdle(s[i..]);
    }
  }

  /** The last four deletions leave text of inert characters alone. */
  lemma LaterDeletionsIdle(s: string)
    requires forall i :: 0 <= i < |s| ==> NoMatchAt(s[i..])
    ensures SubAll(s, DashCodeMatch, "") == s && SubAll(s, SectionParenMatch, "") == s
    ensures SubAll(s, ParenMatch, "") == s && SubAll(s, TrailingClassMatch, "") == s
  {
    SubAllIdle(s, DashCodeMatch, "");
    SubAllIdle(s, SectionParenMatch, "");
    SubAllIdle(s, ParenMatch, "");
    SubAllIdle(s, TrailingClassMatch, "");
  }

  /** The spacing pass leaves text of inert characters alone. */
  lemma TidyInert(s: string)
    requires forall i :: 0 <= i < |s| ==> Inert(s[i])
    ensures TidySpacing(s) == s
  {
    InertIdleAll(s);
    SubAllIdle(s, SpaceRunMatch, " ");
    if s != [] {
      assert Inert(s[0]) && Inert(s[|s| - 1]);
    }
    StripFixed(s);
    SubAllIdle(s, LiteralMatcher("//"), "/");
  }

  /** Text of inert characters only, such as a bare name, comes through the
      pre-cleaning unchanged. */
  lemma PrecleanInert(s: string)
    requires forall i :: 0 <= i < |s| ==> Inert(s[i])
    ensures Preclean(s) == s
  {
    InertIdleAll(s);
    SubAllIdle(s, LiteralMatcher(Unassigned), "");
    SubAllIdle(s, ClassYearMatch, "");
    LaterDeletionsIdle(s);
    TidyInert(s);
  }

  /** A class tag "/23…本" of at most 19 class characters between "23" and
      "本" is matched whole. */
  lemma ClassTagMatched(w: string)
    requires |w| <= 19 && forall j :: 0 <= j < |w| ==> IsClassChar(w[j])
    ensures ClassYearMatch("/23" + w + "本") == |w| + 4
  {
    var t := "/23" + w + "本";
    assert t[0] == '/' && t[1] == '2' && t[2] == '3';
    assert t[1..][0] == '2';
    assert RunLength(t[1..], IsSpace) == 0;
    assert ClassYearMatch(t) == ClassTagEnd(t, 3);
    ClassTagRun(w, t);
    ClassTagBen(w, t);
  }

  lemma ClassTagRun(w: string, t: string)
    requires t == "/23" + w + "本" && forall j :: 0 <= j < |w| ==> IsClassChar(w[j])
    ensures RunLength(t[3..], IsClassChar) == |w| + 1
  {
    assert t[3..] == w + "本";
    assert forall j :: 0 <= j < |t[3..]| ==> IsClassChar(t[3..][j]);
  }

  lemma ClassTagBen(w: string, t: string)
    requires t == "/23" + w + "本"
    ensures BenWithin(t, 3, |w| + 1) == Some(|w|)
  {
    assert t[3 + |w|] == '本';
    assert BenWithin(t, 3, |w|) == Some(|w|);
  }

  /** A source text "name/23…本" pre-cleans to the bare name: the class tag
      at its end is deleted and nothing else changes. */
  lemma PrecleanClassTag(name: string, w: string)
    requires forall i :: 0 <= i < |name| ==> Inert(name[i])
    requires |w| <= 19 && forall j :: 0 <= j < |w| ==> IsClassChar(w[j]) && w[j] != '未'
    ensures Preclean(name + "/23" + w + "本") == name
  {
    var tag := "/23" + w + "本";
    var s := name + tag;
    assert name + "/23" + w + "本" == s;
    InertIdleAll(name);
    forall i | 0 <= i < |s|
      ensures LiteralMatcher(Unassigned)(s[i..]) == 0
    {
      assert s[i..][0] == s[i];
      if i >= |name| + 3 && i < |s| - 1 {
        assert s[i] == w[i - |name| - 3];
      }
    }
    SubAllIdle(s, LiteralMatcher(Unassigned), "");
    forall i | 0 <= i < |name|
      ensures ClassYearMatch(s[i..]) == 0
    {
      assert s[i..][0] == name[i];
      InertIdle(s[i..]);
    }
    SubAllPrefix(name, tag, ClassYearMatch, "");
    ClassTagMatched(w);
    assert tag[|tag|..] == [];
    assert SubAll(tag, ClassYearMatch, "") == "";
    assert name + "" == name;
    LaterDeletionsIdle(name);
    TidyInert(name);
  }

  /** `ClassYearMatch` needs '/', whitespace or "23" at the start. */
  lemma ClassYearIdle(t: string)
    requires |t| > 0 && t[0] != '/' && !IsSpace(t[0]) && (t[0] != '2' || |t| < 2 || t[1] != '3')
    ensures ClassYearMatch(t) == 0
  {
    assert RunLength(t, IsSpace) == 0;
  }

  /** The patterns that run before the section note never match inside it. */
  lemma SectionNoteIdle(x: string)
    requires x == "(1-2节)"
    ensures forall i :: 0 <= i < |x| ==> LiteralMatcher(Unassigned)(x[i..]) == 0
    ensures forall i :: 0 <= i < |x| ==> ClassYearMatch(x[i..]) == 0
    ensures forall i :: 0 <= i < |x| ==> DashCodeMatch(x[i..]) == 0
    ensures SectionParenMatch(x) == 6
  {
    forall i | 0 <= i < |x|
      ensures LiteralMatcher(Unassigned)(x[i..]) == 0 && ClassYearMatch(x[i..]) == 0
    {
      var t := x[i..];
      assert t[0] == x[i];
      if i + 1 < |x| {
        assert t[1] == x[i + 1];
      }
      ClassYearIdle(t);
    }
    NoteDashIdle(x);
    NoteSection(x);
  }

  lemma NoteDashIdle(x: string)
    requires x == "(1-2节)"
    ensures forall i :: 0 <= i < |x| ==> DashCodeMatch(x[i..]) == 0
  {
    forall i | 0 <= i < |x|
      ensures DashCodeMatch(x[i..]) == 0
    {
      assert x[i..][0] == x[i];
      if i == 2 {
        assert x[2..][1..] == "2节)";
        assert RunLength("2节)", IsDigit) == 1;
      }
    }
  }

  lemma NoteSection(x: string)
    requires x == "(1-2节)"
    ensures SectionParenMatch(x) == 6
  {
    assert x[1..] == "1-2节)" && RunLength(x[1..], IsDigit) == 1;
    assert x[3..] == "2节)" && RunLength(x[3..], IsDigit) == 1;
  }

  /** A source text "name(1-2节)" pre-cleans to the bare name: the section
      note is deleted and nothing else changes. */
  lemma PrecleanSectionNote(name: string)
    requires forall i :: 0 <= i < |name| ==> Inert(name[i])
    ensures Preclean(name + "(1-2节)") == name
  {
    var x := "(1-2节)";
    var s := name + x;
    InertIdleAll(name);
    SectionNoteIdle(x);
    forall i | 0 <= i < |name|
      ensures NoMatchAt(s[i..])
    {
      assert s[i..][0] == name[i];
      InertIdle(s[i..]);
    }
    SubAllPrefix(name, x, LiteralMatcher(Unassigned), "");
    SubAllIdle(x, LiteralMatcher(Unassigned), "");
    SubAllPrefix(name, x, ClassYearMatch, "");
    SubAllIdle(x, ClassYearMatch, "");
    SubAllPrefix(name, x, DashCodeMatch, "");
    SubAllIdle(x, DashCodeMatch, "");
    SubAllPrefix(name, x, SectionParenMatch, "");
    assert x[6..] == [];
    assert SubAll(x, SectionParenMatch, "") == "";
    assert name + "" == name;
    SubAllIdle(name, ParenMatch, "");
    SubAllIdle(name, TrailingClassMatch, "");
    TidyInert(name);
  }

  /** "张三/23计算机本" pre-cleans to "张三". */
  lemma ClassTagExample(s: string)
    requires s == "张三/23计算机本"
    ensures Preclean(s) == "张三"
  {
    var name, w := "张三", "计算机";
    assert forall i :: 0 <= i < |name| ==> Inert(name[i]);
    assert forall j :: 0 <= j < |w| ==> IsClassChar(w[j]) && w[j] != '未';
    assert s == name + "/23" + w + "本";
    PrecleanClassTag(name, w);
  }

  /** "李四(1-2节)" pre-cleans to "李四". */
  lemma SectionNoteExample(s: string)
    requires s == "李四(1-2节)"
    ensures Preclean(s) == "李四"
  {
    var name := "李四";
    assert forall i :: 0 <= i < |name| ==> Inert(name[i]);
    assert s == name + "(1-2节)";
    PrecleanSectionNote(name);
  }

  // ---------------------------------------------------------------------
  // Candidates
  // ---------------------------------------------------------------------

  /** `[\n/;；|]`. */
  predicate IsPartSep(c: char) { c == '\n' || c == '/' || c == ';' || c == '；' || c == '|' }

  /** `[p.strip() for p in ps if p.strip()]`. */
  function StrippedNonEmpty(ps: seq<string>): (r: seq<string>)
    ensures forall k :: 0 <= k < |r| ==> r[k] != "" && r[k] == Strip(r[k])
    ensures |r| <= |ps|
  {
    if ps == [] then []
    else
      var p := Strip(ps[0]);
      StripIdempotent(ps[0]);
      (if p == "" then [] else [p]) + StrippedNonEmpty(ps[1..])
  }

  /** No character of `w` satisfies `p`. */
  predicate Avoids(w: string, p: char -> bool)
  {
    forall i :: 0 <= i < |w| ==> !p(w[i])
  }

  /** Stripping keeps a string's characters, so it keeps avoiding `p`. */
  lemma StripAvoids(w: string, p: char -> bool)
    requires Avoids(w, p)
    ensures Avoids(Strip(w), p)
  {
    StripChars(w);
  }

  /** Stripping and dropping empty pieces never brings in a character the
      pieces did not have; in particular no separator reappears. */
  lemma {:induction false} StrippedAvoids(ps: seq<string>, p: char -> bool)
    requires forall k :: 0 <= k < |ps| ==> Avoids(ps[k], p)
    ensures forall k :: 0 <= k < |StrippedNonEmpty(ps)| ==> Avoids(StrippedNonEmpty(ps)[k], p)
    decreases |ps|
  {
    if ps != [] {
      var rest := StrippedNonEmpty(ps[1..]);
      assert forall k :: 1 <= k < |ps| ==> ps[1..][k - 1] == ps[k];
      StrippedAvoids(ps[1..], p);
      var head := Strip(ps[0]);
      StripAvoids(ps[0], p);
      if head == "" {
        assert StrippedNonEmpty(ps) == rest;
      } else {
        assert StrippedNonEmpty(ps) == [head] + rest;
        ConsAvoids(head, rest, p);
      }
    }
  }

  /** A list whose head and tail avoid `p` avoids it throughout. */
  lemma ConsAvoids(head: string, rest: seq<string>, p: char -> bool)
    requires Avoids(head, p)
    requires forall k :: 0 <= k < |rest| ==> Avoids(rest[k], p)
    ensures forall k :: 0 <= k < |[head] + rest| ==> Avoids(([head] + rest)[k], p)
  {
  }

  /** `[p.strip() for p in re.split(r'[\n/;；|]', src) if p.strip()]`. */
  function Parts(src: string): (r: seq<string>)
    ensures forall k :: 0 <= k < |r| ==> r[k] != "" && r[k] == Strip(r[k])
    ensures forall k :: 0 <= k < |r| ==> Avoids(r[k], IsPartSep)
  {
    var pieces := SplitOn(src, IsPartSep);
    assert forall k :: 0 <= k < |pieces| ==> Avoids(pieces[k], IsPartSep);
    StrippedAvoids(pieces, IsPartSep);
    StrippedNonEmpty(pieces)
  }

  /** `re.findall(r'[一-鿿·•]{2,6}', p)`: each run of name characters
      of length at least two yields chunks of at most six. */
  function NameChunks(p: string): (r: seq<string>)
    ensures forall k :: 0 <= k < |r| ==> IsNameShape(r[k], 2, 6) && Contains(p, r[k])
    decreases |p|
  {
    if p == [] then []
    else
      var l := RunLength(p, IsNameChar);
      if l >= 2 then
        var n := if l < 6 then l else 6;
        var rest := NameChunks(p[n..]);
        forall k | 0 <= k < |rest| ensures Contains(p, rest[k]) {
          TailContained(p, n, rest[k]);
        }
        [Block(p, 0, n)] + rest
      else
        var rest := NameChunks(p[1..]);
        forall k | 0 <= k < |rest| ensures Contains(p, rest[k]) {
          TailContained(p, 1, rest[k]);
        }
        rest
  }

  /** The filters of the candidate loop: not part of the course name, no
      blacklist token, no department/grade/room token, no digit, length 2-6. */
  predicate Admissible(f: string, courseName: string, cfg: CleanerConfig)
  {
    !(courseName != "" && Contains(courseName, f))
    && !ContainsAny(f, cfg.teacherBlacklist)
    && !ContainsAny(f, CandidateNoise)
    && !HasDigit(f)
    && 2 <= |f| <= 6
  }

  function AdmissibleOnly(fs: seq<string>, courseName: string, cfg: CleanerConfig): (r: seq<string>)
    ensures forall k :: 0 <= k < |r| ==> Admissible(r[k], courseName, cfg) && r[k] in fs
    ensures forall k :: 0 <= k < |fs| && Admissible(fs[k], courseName, cfg) ==> fs[k] in r
    ensures IsSubseq(r, fs)
  {
    if fs == [] then []
    else
      var rest := AdmissibleOnly(fs[1..], courseName, cfg);
      assert forall k :: 1 <= k < |fs| ==> fs[k] == fs[1..][k - 1];
      if Admissible(fs[0], courseName, cfg) then
        assert ([fs[0]] + rest)[1..] == rest;
        [fs[0]] + rest
      else
        SuffixIsSubseq(fs, 1);
        SubseqTrans(rest, fs[1..], fs);
        rest
  }

  /** The candidates of every part, in order. */
  function Candidates(parts: seq<string>, courseName: string, cfg: CleanerConfig): (r: seq<string>)
    ensures forall k :: 0 <= k < |r| ==> Admissible(r[k], courseName, cfg) && IsNameShape(r[k], 2, 6)
  {
    if parts == [] then []
    else
      var chunks := NameChunks(parts[0]);
      AdmissibleOnly(chunks, courseName, cfg) + Candidates(parts[1..], courseName, cfg)
  }

  // The scan in order: the chunks of a text are found run by run, and the
  // candidates of a list of parts are those of each part in turn.

  /** A name run stops at the first non-name character. */
  lemma {:induction false} RunStops(a: string, c: char, b: string)
    requires !IsNameChar(c)
    ensures RunLength(a + [c] + b, IsNameChar) == RunLength(a, IsNameChar)
    decreases |a|
  {
    if a != [] && IsNameChar(a[0]) {
      assert (a + [c] + b)[1..] == a[1..] + [c] + b;
      RunStops(a[1..], c, b);
    }
  }

  /** One step of the scan: a run of at least two name characters yields
      its first (at most six) characters, anything else is skipped by one. */
  lemma NameChunksStep(s: string, l: nat)
    requires s != [] && l == RunLength(s, IsNameChar)
    ensures l >= 2 ==> NameChunks(s) == [s[..Min6(l)]] + NameChunks(s[Min6(l)..])
    ensures l < 2 ==> NameChunks(s) == NameChunks(s[1..])
  {
  }

  function Min6(l: nat): (n: nat)
    ensures n <= l && n <= 6 && (n == l || n == 6)
  {
    if l < 6 then l else 6
  }

  /** A non-name character separates the chunks: those of `a + [c] + b`
      are those of `a` followed by those of `b`. */
  lemma {:induction false} NameChunksSplit(a: string, c: char, b: string)
    requires !IsNameChar(c)
    ensures NameChunks(a + [c] + b) == NameChunks(a) + NameChunks(b)
    decreases |a|
  {
    if a == [] {
      NameChunksStep([c] + b, 0);
      assert ([c] + b)[1..] == b;
      assert a + [c] + b == [c] + b;
    } else {
      RunStops(a, c, b);
      var l := RunLength(a, IsNameChar);
      var n := if l >= 2 then Min6(l) else 1;
      NameChunksSplit(a[n..], c, b);
      SliceAround(a, c, b, n);
      if l >= 2 {
        TakeStep(a + [c] + b, a, l, n, NameChunks(b));
      } else {
        SkipStep(a + [c] + b, a, l, NameChunks(b));
      }
    }
  }

  /** Cutting `a + [c] + b` inside `a`. */
  lemma SliceAround(a: string, c: char, b: string, n: nat)
    requires n <= |a|
    ensures (a + [c] + b)[n..] == a[n..] + [c] + b && (a + [c] + b)[..n] == a[..n]
  {
  }

  /** Two texts that start with the same run of at least two take the same
      chunk first. */
  lemma TakeStep(s: string, a: string, l: nat, n: nat, tail: seq<string>)
    requires s != [] && a != [] && l >= 2 && n == Min6(l)
    requires l == RunLength(s, IsNameChar) && l == RunLength(a, IsNameChar)
    requires s[..n] == a[..n] && NameChunks(s[n..]) == NameChunks(a[n..]) + tail
    ensures NameChunks(s) == NameChunks(a) + tail
  {
    NameChunksStep(s, l);
    NameChunksStep(a, l);
    ConsAppend(a[..n], NameChunks(a[n..]), tail);
  }

  lemma ConsAppend<T>(x: T, p: seq<T>, q: seq<T>)
    ensures [x] + (p + q) == ([x] + p) + q
  {
  }

  /** Two texts that start with a run shorter than two both skip one
      character. */
  lemma SkipStep(s: string, a: string, l: nat, tail: seq<string>)
    requires s != [] && a != [] && l < 2
    requires l == RunLength(s, IsNameChar) && l == RunLength(a, IsNameChar)
    requires NameChunks(s[1..]) == NameChunks(a[1..]) + tail
    ensures NameChunks(s) == NameChunks(a) + tail
  {
    NameChunksStep(s, l);
    NameChunksStep(a, l);
  }

  /** Within one run of name characters the pattern takes six characters at
      a time from the left; a last piece shorter than two is no match. */
  lemma NameChunksRun(w: string)
    requires forall i :: 0 <= i < |w| ==> IsNameChar(w[i])
    ensures |w| < 2 ==> NameChunks(w) == []
    ensures 2 <= |w| <= 6 ==> NameChunks(w) == [w]
    ensures |w| > 6 ==> NameChunks(w) == [w[..6]] + NameChunks(w[6..])
  {
    var l := RunLength(w, IsNameChar);
    assert l == |w|;
    if |w| == 1 {
      assert w[1..] == [];
    } else if 2 <= |w| <= 6 {
      assert w[..|w|] == w && w[|w|..] == [];
    }
  }

  /** A run of two to six name characters between two non-name characters
      is found whole, between the chunks before and after it. */
  lemma NameChunksIsolated(a: string, c: char, w: string, d: char, b: string)
    requires !IsNameChar(c) && !IsNameChar(d) && IsNameShape(w, 2, 6)
    ensures NameChunks(a + [c] + w + [d] + b) == NameChunks(a) + [w] + NameChunks(b)
  {
    assert a + [c] + w + [d] + b == a + [c] + (w + [d] + b);
    NameChunksSplit(a, c, w + [d] + b);
    NameChunksSplit(w, d, b);
    NameChunksRun(w);
  }

  /** The admissible chunks of two lists are those of each in turn. */
  lemma {:induction false} AdmissibleOnlyAppend(a: seq<string>, b: seq<string>, courseName: string, cfg: CleanerConfig)
    ensures AdmissibleOnly(a + b, courseName, cfg) == AdmissibleOnly(a, courseName, cfg) + AdmissibleOnly(b, courseName, cfg)
    decreases |a|
  {
    if a == [] {
      assert a + b == b;
    } else {
      assert (a + b)[0] == a[0] && (a + b)[1..] == a[1..] + b;
      AdmissibleOnlyAppend(a[1..], b, courseName, cfg);
    }
  }

  /** The candidates of two lists of parts are those of each in turn. */
  lemma {:induction false} CandidatesAppend(a: seq<string>, b: seq<string>, courseName: string, cfg: CleanerConfig)
    ensures Candidates(a + b, courseName, cfg) == Candidates(a, courseName, cfg) + Candidates(b, courseName, cfg)
    decreases |a|
  {
    if a == [] {
      assert a + b == b;
    } else {
      assert (a + b)[0] == a[0] && (a + b)[1..] == a[1..] + b;
      CandidatesAppend(a[1..], b, courseName, cfg);
    }
  }

  /** One part gives its admissible chunks, in the order found. */
  lemma CandidatesOne(p: string, courseName: string, cfg: CleanerConfig)
    ensures Candidates([p], courseName, cfg) == AdmissibleOnly(NameChunks(p), courseName, cfg)
  {
    assert [p][1..] == [];
  }

  /** Candidates free of department-blacklist tokens. */
  function DeptFiltered(cands: seq<string>, cfg: CleanerConfig): (r: seq<string>)
    ensures forall k :: 0 <= k < |r| ==> !ContainsAny(r[k], cfg.departmentBlacklist) && r[k] in cands
    ensures IsSubseq(r, cands)
  {
    if cands == [] then []
    else
      var rest := DeptFiltered(cands[1..], cfg);
      if ContainsAny(cands[0], cfg.departmentBlacklist) then
        SuffixIsSubseq(cands, 1);
        SubseqTrans(rest, cands[1..], cands);
        rest
      else
        assert ([cands[0]] + rest)[1..] == rest;
        [cands[0]] + rest
  }

  /** The department filter, falling back to all candidates when it would
      leave none. */
  function Filtered(cands: seq<string>, cfg: CleanerConfig): (r: seq<string>)
    ensures r == [] <==> cands == []
  {
    var f := DeptFiltered(cands, cfg);
    if f == [] then cands else f
  }

  // ---------------------------------------------------------------------
  // Choosing
  // ---------------------------------------------------------------------

  /** `_is_valid_chinese_name`: 2-4 name characters, and whitelisted or
      starting with a common surname. */
  predicate IsValidName(name: string, cfg: CleanerConfig)
  {
    name != "" && IsNameShape(name, 2, 4) && (name in cfg.nameWhitelist || name[0] in CommonSurnames)
  }

  function Reverse(xs: seq<string>): (r: seq<string>)
    ensures |r| == |xs|
    ensures forall k :: 0 <= k < |xs| ==> r[k] == xs[|xs| - 1 - k]
  {
    if xs == [] then [] else Reverse(xs[1..]) + [xs[0]]
  }

  /** The loop over `reversed(filtered)`, with `chosen` as its running state. */
  function ChooseLoop(rev: seq<string>, chosen: Option<string>, cfg: CleanerConfig): Option<string>
  {
    if rev == [] then chosen
    else if IsValidName(rev[0], cfg) then Some(rev[0])
    else ChooseLoop(rev[1..], if chosen.None? && IsNameShape(rev[0], 2, 4) then Some(rev[0]) else chosen, cfg)
  }

  /** The choice after the loop and the final validity test ("" for none).
      The loop runs over the reversed list, so the re-validated choice is the
      last valid name. */
  function Choose(filtered: seq<string>, cfg: CleanerConfig): (r: string)
    requires filtered != []
    ensures LastValid(filtered, cfg).Some? ==> r == LastValid(filtered, cfg).value
    ensures LastValid(filtered, cfg).None? ==> r == ""
  {
    FirstOfReverse(filtered, cfg);
    ChooseLoopFinds(Reverse(filtered), None, cfg);
    assert LastValid(filtered, cfg).None? ==> !IsValidName(filtered[|filtered| - 1], cfg);
    var chosen := match ChooseLoop(Reverse(filtered), None, cfg) {
      case Some(c) => c
      case None => filtered[|filtered| - 1]
    };
    if IsValidName(chosen, cfg) then chosen else ""
  }

  /** Reference: the last valid name of the list. */
  function LastValid(xs: seq<string>, cfg: CleanerConfig): (r: Option<string>)
    ensures r.Some? ==> IsValidName(r.value, cfg) && r.value in xs
    ensures r.None? <==> forall k :: 0 <= k < |xs| ==> !IsValidName(xs[k], cfg)
  {
    if xs == [] then None
    else if IsValidName(xs[|xs| - 1], cfg) then Some(xs[|xs| - 1])
    else
      var r := LastValid(xs[..|xs| - 1], cfg);
      assert forall k :: 0 <= k < |xs| - 1 ==> xs[..|xs| - 1][k] == xs[k];
      r
  }

  /** The candidates the loop collects from the pre-cleaned source text. */
  function SourceCandidates(src: string, courseName: string, cfg: CleanerConfig): seq<string>
  {
    Candidates(Parts(Preclean(src)), courseName, cfg)
  }

  /** The last valid name of a list, `""` when it has none. */
  function LastValidOrEmpty(xs: seq<string>, cfg: CleanerConfig): string
  {
    match LastValid(xs, cfg) { case Some(c) => c case None => "" }
  }

  /** The re-derived teacher, "" when there is none: the last valid name
      among the department-filtered candidates. */
  function Derive(src: string, courseName: string, cfg: CleanerConfig): (d: string)
    ensures d == "" || (IsValidName(d, cfg) && IsNameShape(d, 2, 4))
    ensures SourceCandidates(src, courseName, cfg) == [] ==> d == ""
    ensures SourceCandidates(src, courseName, cfg) != [] ==>
              d == LastValidOrEmpty(Filtered(SourceCandidates(src, courseName, cfg), cfg), cfg)
  {
    DeriveFrom(SourceCandidates(src, courseName, cfg), cfg)
  }

  /** The choice made from a list of candidates, "" for none. */
  function DeriveFrom(cands: seq<string>, cfg: CleanerConfig): (d: string)
    ensures d == "" || (IsValidName(d, cfg) && IsNameShape(d, 2, 4))
    ensures cands == [] ==> d == ""
    ensures cands != [] ==> d == LastValidOrEmpty(Filtered(cands, cfg), cfg)
  {
    if cands == [] then "" else Choose(Filtered(cands, cfg), cfg)
  }

  /** `_clean_teacher`. */
  function CleanTeacher(raw: string, src: string, courseName: string, cfg: CleanerConfig): (r: string)
    ensures r != ""
    ensures r == Unassigned || IsNameShape(r, 2, 6)
  {
    var t := ScreenRaw(raw, courseName, cfg);
    var t' := if t == "" && src != "" then Derive(src, courseName, cfg) else t;
    if t' == "" then Unassigned else t'
  }

  // ---------------------------------------------------------------------
  // Properties
  // ---------------------------------------------------------------------

  /** The loop finds a valid name whenever one exists, and only then; in
      either case the loop's choice is re-validated into the last valid name. */
  lemma {:induction false} ChooseLoopFinds(rev: seq<string>, chosen: Option<string>, cfg: CleanerConfig)
    requires chosen.Some? ==> !IsValidName(chosen.value, cfg)
    ensures match FirstValid(rev, cfg)
      case Some(c) => ChooseLoop(rev, chosen, cfg) == Some(c)
      case None => var r := ChooseLoop(rev, chosen, cfg); r.Some? ==> !IsValidName(r.value, cfg)
    decreases |rev|
  {
    if rev != [] && !IsValidName(rev[0], cfg) {
      var next := if chosen.None? && IsNameShape(rev[0], 2, 4) then Some(rev[0]) else chosen;
      ChooseLoopFinds(rev[1..], next, cfg);
    }
  }

  /** The first valid name of a list. */
  function FirstValid(xs: seq<string>, cfg: CleanerConfig): Option<string>
  {
    if xs == [] then None
    else if IsValidName(xs[0], cfg) then Some(xs[0])
    else FirstValid(xs[1..], cfg)
  }

  /** The first valid name of the reversed list is the last valid name. */
  lemma {:induction false} FirstOfReverse(xs: seq<string>, cfg: CleanerConfig)
    ensures FirstValid(Reverse(xs), cfg) == LastValid(xs, cfg)
    decreases |xs|
  {
    if xs != [] {
      var last := xs[|xs| - 1];
      var init := xs[..|xs| - 1];
      assert xs == init + [last];
      ReverseSnoc(init, last);
      assert Reverse(xs)[1..] == Reverse(init);
      FirstOfReverse(init, cfg);
    }
  }

  lemma {:induction false} ReverseSnoc(xs: seq<string>, x: string)
    ensures Reverse(xs + [x]) == [x] + Reverse(xs)
    decreases |xs|
  {
    if xs == [] {
      assert [] + [x] == [x];
    } else {
      assert (xs + [x])[1..] == xs[1..] + [x];
      ReverseSnoc(xs[1..], x);
    }
  }



  /** The raw value survives exactly when its stripped form passes every
      screen: clean, not overlapping the course name, and name-shaped. */
  lemma ScreenRawIff(raw: string, courseName: string, cfg: CleanerConfig)
    ensures var t := Strip(raw);
      ScreenRaw(raw, courseName, cfg) != "" <==>
        (t != "" && !IsNoisy(t, cfg) && !(courseName != "" && OverlapsCourse(t, courseName)) && IsNameShape(t, 2, 6))
  {
  }

  /** A surviving raw value is returned as is (stripped). */
  lemma KeptRaw(raw: string, src: string, courseName: string, cfg: CleanerConfig)
    requires ScreenRaw(raw, courseName, cfg) != ""
    ensures CleanTeacher(raw, src, courseName, cfg) == Strip(raw)
  {
  }

  /** A rejected raw value is as good as no value at all. */
  lemma DiscardedLikeEmpty(raw: string, src: string, courseName: string, cfg: CleanerConfig)
    requires ScreenRaw(raw, courseName, cfg) == ""
    ensures CleanTeacher(raw, src, courseName, cfg) == CleanTeacher("", src, courseName, cfg)
  {
    assert Strip("") == "";
  }


  /** Without a surviving raw value the result is the re-derived name, or
      the sentinel when the source text is empty or yields none. */
  lemma Rederived(raw: string, src: string, courseName: string, cfg: CleanerConfig)
    requires ScreenRaw(raw, courseName, cfg) == ""
    ensures var d := Derive(src, courseName, cfg);
      CleanTeacher(raw, src, courseName, cfg) == if src == "" || d == "" then Unassigned else d
  {
  }

  /** `未知讲师`, which the PDF reader writes for a cell without a teacher,
      passes the built-in screens: it is kept exactly when no configured
      blacklist token occurs in it and it does not overlap the course name.
      When it is blanked, the result is re-derived from the source text or
      is `未安排`. */
  lemma UnknownTeacherKept(src: string, courseName: string, cfg: CleanerConfig)
    ensures var u := CellTeacher.UnknownTeacher;
      ScreenRaw(u, courseName, cfg) != "" <==>
        !ContainsAny(u, cfg.teacherBlacklist) && !(courseName != "" && OverlapsCourse(u, courseName))
    ensures var u := CellTeacher.UnknownTeacher;
      !ContainsAny(u, cfg.teacherBlacklist) && !(courseName != "" && OverlapsCourse(u, courseName)) ==>
        CleanTeacher(u, src, courseName, cfg) == u
  {
    var u := CellTeacher.UnknownTeacher;
    assert u == ['未', '知', '讲', '师'];
    UnknownTeacherClean(u);
    ScreenRawIff(u, courseName, cfg);
  }

  /** `未知讲师` is stripped, name-shaped, digit-free and holds no built-in
      noise token. */
  lemma UnknownTeacherClean(u: string)
    requires u == ['未', '知', '讲', '师']
    ensures Strip(u) == u && IsNameShape(u, 2, 6) && !HasDigit(u) && !ContainsAny(u, NoiseTokens)
  {
    assert !IsSpace(u[0]) && !IsSpace(u[3]);
    StripFixed(u);
    assert IsNameChar(u[0]) && IsNameChar(u[1]) && IsNameChar(u[2]) && IsNameChar(u[3]);
    assert !IsDigit(u[0]) && !IsDigit(u[1]) && !IsDigit(u[2]) && !IsDigit(u[3]);
    UnknownTeacherQuiet(u);
  }

  /** None of the built-in noise tokens occurs in `未知讲师`: each has a
      character the value lacks. */
  lemma UnknownTeacherQuiet(u: string)
    requires u == ['未', '知', '讲', '师']
    ensures !ContainsAny(u, NoiseTokens)
  {
    var ts := NoiseTokens;
    AbsentChar(u, ts[0], 1);
    forall k | 1 <= k < |ts|
      ensures !Contains(u, ts[k])
    {
      assert ts[k][0] in {'课', '本', '班', '计', '大', '电', '信', '实'};
      AbsentChar(u, ts[k], 0);
    }
  }

  /** The department filter only removes candidates holding a department
      token; when it would remove all of them, nothing is removed. */
  lemma FilteredFallback(cands: seq<string>, cfg: CleanerConfig)
    ensures IsSubseq(Filtered(cands, cfg), cands)
    ensures DeptFiltered(cands, cfg) == [] ==> Filtered(cands, cfg) == cands
    ensures DeptFiltered(cands, cfg) != [] ==>
      forall k :: 0 <= k < |Filtered(cands, cfg)| ==> !ContainsAny(Filtered(cands, cfg)[k], cfg.departmentBlacklist)
  {
    SubseqRefl(cands);
  }

  // ---------------------------------------------------------------------
  // A whole re-derivation
  // ---------------------------------------------------------------------

  /** A source text that is a name followed by a class tag `/23…本`
      re-derives that name: when the raw value is rejected and the name is
      admissible, the teacher is the name if it is a valid name, and
      `未安排` otherwise. */
  lemma ClassTagRederived(raw: string, name: string, w: string, courseName: string, cfg: CleanerConfig)
    requires ScreenRaw(raw, courseName, cfg) == ""
    requires IsNameShape(name, 2, 6) && forall i :: 0 <= i < |name| ==> Inert(name[i])
    requires |w| <= 19 && forall j :: 0 <= j < |w| ==> IsClassChar(w[j]) && w[j] != '未'
    requires Admissible(name, courseName, cfg)
    ensures CleanTeacher(raw, name + "/23" + w + "本", courseName, cfg)
            == if IsValidName(name, cfg) then name else Unassigned
  {
    var src := name + "/23" + w + "本";
    PrecleanClassTag(name, w);
    NameParts(name);
    SingleNameCandidates(name, courseName, cfg);
    assert SourceCandidates(src, courseName, cfg) == [name];
    FilteredSingle(name, cfg);
    assert |src| > 0;
    Rederived(raw, src, courseName, cfg);
  }

  /** With no raw teacher, the source text `张三/23计算机本` of the course
      `高等数学` gives the teacher `张三` under an empty configuration: the
      class tag is pre-cleaned away, the one part is one chunk, the chunk
      passes every filter and starts with a common surname. */
  lemma RederiveExample(raw: string, src: string, courseName: string, cfg: CleanerConfig)
    requires raw == "" && src == "张三/23计算机本" && courseName == "高等数学"
    requires cfg == CleanerConfig([], [], [])
    ensures CleanTeacher(raw, src, courseName, cfg) == "张三"
  {
    var n, w := ['张', '三'], ['计', '算', '机'];
    assert src == n + "/23" + w + "本";
    assert forall i :: 0 <= i < |n| ==> Inert(n[i]) && IsNameChar(n[i]);
    assert forall j :: 0 <= j < |w| ==> IsClassChar(w[j]) && w[j] != '未';
    ExampleAdmissible(n, courseName, cfg);
    ExampleValid(n, cfg);
    assert Strip(raw) == "";
    ClassTagRederived(raw, n, w, courseName, cfg);
  }

  /** A name-shaped text is one part. */
  lemma NameParts(n: string)
    requires IsNameShape(n, 1, 6)
    ensures Parts(n) == [n]
  {
    assert forall j :: 0 <= j < |n| ==> !IsPartSep(n[j]);
    SplitOnNone(n, IsPartSep);
    StripFixed(n);
    assert [n][1..] == [];
  }

  /** A single candidate survives the department filter or is restored by
      its fallback. */
  lemma FilteredSingle(n: string, cfg: CleanerConfig)
    ensures Filtered([n], cfg) == [n]
  {
    assert [n][1..] == [];
  }

  /** A text that is one part, and that part a single admissible name-shaped
      run, is its own only candidate. */
  lemma SingleNameCandidates(n: string, courseName: string, cfg: CleanerConfig)
    requires Parts(n) == [n] && IsNameShape(n, 2, 6) && Admissible(n, courseName, cfg)
    ensures Candidates(Parts(n), courseName, cfg) == [n]
  {
    CandidatesOne(n, courseName, cfg);
    NameChunksRun(n);
    AdmissibleSingle(n, courseName, cfg);
  }

  /** `张三` is not in the course name and holds no filtered token. */
  lemma ExampleAdmissible(n: string, courseName: string, cfg: CleanerConfig)
    requires n == ['张', '三'] && courseName == ['高', '等', '数', '学']
    requires cfg == CleanerConfig([], [], [])
    ensures Admissible(n, courseName, cfg)
  {
    AbsentChar(courseName, n, 0);
    var ts := CandidateNoise;
    forall k | 0 <= k < |ts|
      ensures !Contains(n, ts[k])
    {
      assert ts[k][0] in {'学', '科', '本', '班', '院', '系', '专', '实', '楼', '室', '号'};
      AbsentChar(n, ts[k], 0);
    }
  }

  /** `张三` starts with a common surname. */
  lemma ExampleValid(n: string, cfg: CleanerConfig)
    requires n == ['张', '三']
    ensures IsValidName(n, cfg)
  {
    assert CommonSurnames[23] == '张';
  }

  /** An admissible chunk on its own passes the filters. */
  lemma AdmissibleSingle(f: string, courseName: string, cfg: CleanerConfig)
    requires Admissible(f, courseName, cfg)
    ensures AdmissibleOnly([f], courseName, cfg) == [f]
  {
    assert [f][1..] == [];
  }
}
