/** `extract_teacher_from_cell` of the GUI's PDF branch: the teacher named in
    one timetable cell.  Three rules are tried in order: a labelled value
    (`讲师：`, `教师：`, `授课人：`), the first separator-delimited piece that
    looks like a name, and the text after the last-column separator. */
module CellTeacher {
  import opened TextUtil

  const UnknownTeacher := "未知讲师"

  // ---------------------------------------------------------------------
  // Labelled values: `讲师[:：]\s*([^，,;/\\()]+)`
  // ---------------------------------------------------------------------

  predicate IsColon(c: char) { c == ':' || c == '：' }

  /** The characters `[^，,;/\\()]` admits. */
  predicate IsLabelValueChar(c: char)
  {
    !(c == '，' || c == ',' || c == ';' || c == '/' || c == '\\' || c == '(' || c == ')')
  }

  /** The captured group of `\s*([^，,;/\\()]+)` anchored at the start of
      `r`, as a block `r[x..y]`.  `\s*` is greedy and the group needs one
      character: when no value character follows the blanks, the regex
      gives back the last blank and captures it. */
  function LabelGroup(r: string): (g: Option<(nat, nat)>)
    ensures g.Some? ==> g.value.0 < g.value.1 <= |r|
  {
    var w := RunLength(r, IsSpace);
    var n := RunLength(r[w..], IsLabelValueChar);
    if n > 0 then Some((w, w + n))
    else if w > 0 then Some((w - 1, w))
    else None
  }

  /** `tag` followed by a colon starts at position `p`. */
  predicate TagAt(s: string, tag: string, p: nat)
  {
    p + |tag| < |s| && s[p..p + |tag|] == tag && IsColon(s[p + |tag|])
  }

  /** The captured group when the labelled pattern is tried at position `p`. */
  function LabelAt(s: string, tag: string, p: nat): (g: Option<string>)
    ensures g.Some? ==> p + |tag| < |s| && IsColon(s[p + |tag|])
    ensures g.Some? ==> g.value != "" && Contains(s, g.value)
  {
    if TagAt(s, tag, p) then
      var a := p + |tag| + 1;
      var r := s[a..];
      match LabelGroup(r)
      case Some((x, y)) => Some(Block(s, a + x, a + y))
      case None => None
    else None
  }

  /** `re.search`: the pattern tried at `p`, `p + 1`, ... until it matches. */
  function LabelSearch(s: string, tag: string, p: nat): (g: Option<string>)
    ensures g.None? <==> forall q :: p <= q ==> LabelAt(s, tag, q).None?
    ensures g.Some? ==> exists q :: p <= q && LabelAt(s, tag, q) == g &&
                          forall q' :: p <= q' < q ==> LabelAt(s, tag, q').None?
    decreases |s| - p
  {
    if p + |tag| + 1 > |s| then None
    else if LabelAt(s, tag, p).Some? then LabelAt(s, tag, p)
    else LabelSearch(s, tag, p + 1)
  }

  /** One labelled rule: the stripped group, unless it strips to nothing. */
  function LabelValue(s: string, tag: string): (v: Option<string>)
    ensures v.Some? ==> v.value != "" && Contains(s, v.value)
  {
    match LabelSearch(s, tag, 0)
    case Some(g) =>
      if Strip(g) != "" then
        StripContained(g);
        ContainsTrans(s, g, Strip(g));
        Some(Strip(g))
      else None
    case None => None
  }

  /** The three labels, in the order the code tries them: the first label
      that yields a non-empty value wins, wherever the others occur (in
      `教师：李四/讲师：张三` the `讲师` value wins). */
  function FromLabels(s: string): (v: Option<string>)
    ensures v.Some? ==> v.value != "" && Contains(s, v.value)
    ensures LabelValue(s, "讲师").Some? ==> v == LabelValue(s, "讲师")
    ensures LabelValue(s, "讲师").None? && LabelValue(s, "教师").Some? ==> v == LabelValue(s, "教师")
    ensures LabelValue(s, "讲师").None? && LabelValue(s, "教师").None? ==> v == LabelValue(s, "授课人")
    ensures v.None? <==> LabelValue(s, "讲师").None? && LabelValue(s, "教师").None? && LabelValue(s, "授课人").None?
  {
    var a := LabelValue(s, "讲师");
    if a.Some? then a
    else
      var b := LabelValue(s, "教师");
      if b.Some? then b else LabelValue(s, "授课人")
  }

  // ---------------------------------------------------------------------
  // Names and parenthesised remarks
  // ---------------------------------------------------------------------

  predicate IsParen(c: char) { c == '(' || c == ')' || c == '（' || c == '）' }

  predicate EndsNewline(s: string) { |s| > 0 && s[|s| - 1] == '\n' }

  /** `[()（）].*?$` matches at `i`: `.` stops at a newline and `$` also
      matches just before a final newline. */
  predicate ParenTailAt(s: string, i: nat)
    requires i < |s|
  {
    IsParen(s[i]) && '\n' !in (if EndsNewline(s) then s[i + 1..|s| - 1] else s[i + 1..])
  }

  function ParenCut(s: string, i: nat): (r: string)
    requires i <= |s|
    ensures !EndsNewline(s) ==> |r| <= |s| && r == s[..|r|]
    decreases |s| - i
  {
    if i == |s| then s
    else if ParenTailAt(s, i) then s[..i] + (if EndsNewline(s) then "\n" else "")
    else ParenCut(s, i + 1)
  }

  /** `re.sub(r'[()（）].*?$', '', s)`: the first parenthesis from which the
      end can be reached on one line cuts the rest of the line off. */
  function CutParenTail(s: string): (r: string)
    ensures !EndsNewline(s) ==> Contains(s, r)
  {
    var r := ParenCut(s, 0);
    if !EndsNewline(s) then
      assert s[0..|r|] == s[..|r|];
      SliceContained(s, 0, |r|);
      r
    else r
  }

  /** On one line, the cut keeps exactly the text before the first parenthesis. */
  lemma CutParenTailOneLine(s: string)
    requires '\n' !in s
    ensures CutParenTail(s) == s[..FirstIndex(s, IsParen)]
  {
    CutFrom(s, 0);
  }

  lemma {:induction false} CutFrom(s: string, i: nat)
    requires '\n' !in s && i <= FirstIndex(s, IsParen)
    ensures ParenCut(s, i) == s[..FirstIndex(s, IsParen)]
    decreases |s| - i
  {
    var f := FirstIndex(s, IsParen);
    if i == |s| {
      assert s[..f] == s;
    } else if i < f {
      assert !ParenTailAt(s, i);
      CutFrom(s, i + 1);
    } else {
      assert '\n' !in s[i + 1..];
    }
  }

  const NoiseWords: seq<string> := ["本", "计算机", "数学", "电信工", "大数据"]

  /** `is_name`: after stripping, 1 to 30 characters, no digit and none of
      the class or department words. */
  predicate IsName(s: string)
    ensures IsName(s) ==> !HasDigit(s)
    ensures IsName(s) ==> exists i :: 0 <= i < |s| && !IsSpace(s[i])
  {
    StripDigits(s);
    var t := Strip(s);
    t != "" && !ContainsAny(t, NoiseWords) && !HasDigit(t) && |t| <= 30
  }

  // ---------------------------------------------------------------------
  // Separator-delimited candidates
  // ---------------------------------------------------------------------

  /** `re.split(r'[\/，,;]', text)` */
  predicate IsCandSep(c: char) { c == '/' || c == '，' || c == ',' || c == ';' }

  /** A piece as the loop cleans it: stripped, remark cut off, stripped again. */
  function Candidate(part: string): (c: string)
    ensures Contains(part, c)
  {
    var a := Strip(part);
    var b := CutParenTail(a);
    StripContained(part);
    StripContained(b);
    ContainsTrans(part, a, b);
    ContainsTrans(part, b, Strip(b));
    Strip(b)
  }

  /** `is_name(c)` for the cleaned piece `c`. */
  predicate IsNamePiece(part: string) { IsName(Candidate(part)) }

  // ---------------------------------------------------------------------
  // Trailing value: `[:：/]\s*([^/，,;\n]+)$`
  // ---------------------------------------------------------------------

  predicate IsTailSep(c: char) { c == ':' || c == '：' || c == '/' }

  predicate IsTailValueChar(c: char) { !(c == '/' || c == '，' || c == ',' || c == ';' || c == '\n') }

  /** The group of `\s*([^/，,;\n]+)$` anchored at the start of `r`, as a
      block `r[x..y]`.  The group must run to `$` (the end, or just before a
      final newline).  When the blanks reach that point, the regex gives
      back the last blank as the group. */
  function TailGroup(r: string): (g: Option<(nat, nat)>)
    ensures g.Some? ==> g.value.0 < g.value.1 <= |r| && r[g.value.1 - 1] != '\n'
  {
    var e := if EndsNewline(r) then |r| - 1 else |r|;
    var w := RunLength(r, IsSpace);
    if w < e then
      if forall j :: w <= j < e ==> IsTailValueChar(r[j]) then Some((w, e)) else None
    else if e >= 1 && r[e - 1] != '\n' then Some((e - 1, e))
    else None
  }

  /** The group when the trailing pattern is tried at `i`. */
  function TailAt(s: string, i: nat): (g: Option<string>)
    requires i < |s|
    ensures g.Some? ==> IsTailSep(s[i]) && g.value != "" && Contains(s, g.value)
    ensures g.Some? ==> !EndsNewline(g.value)
  {
    if !IsTailSep(s[i]) then None
    else
      var r := s[i + 1..];
      match TailGroup(r)
      case Some((x, y)) =>
        TailBlock(s, i + 1, x, y);
        Some(Block(s, i + 1 + x, i + 1 + y))
      case None => None
  }

  /** The last character of a block of `s[a..]` is read in `s[a..]`. */
  lemma TailBlock(s: string, a: nat, x: nat, y: nat)
    requires a <= |s| && x < y <= |s| - a && s[a..][y - 1] != '\n'
    ensures !EndsNewline(s[a + x..a + y])
  {
    assert s[a + x..a + y][y - x - 1] == s[a..][y - 1];
  }

  /** `re.search` of the trailing pattern from position `i` on. */
  function TailSearch(s: string, i: nat): (g: Option<string>)
    ensures g.Some? ==> g.value != "" && Contains(s, g.value) && !EndsNewline(g.value)
    ensures g.None? <==> forall j :: i <= j < |s| ==> TailAt(s, j).None?
    decreases |s| - i
  {
    if i >= |s| then None
    else if TailAt(s, i).Some? then TailAt(s, i)
    else TailSearch(s, i + 1)
  }

  // ---------------------------------------------------------------------
  // extract_teacher_from_cell
  // ---------------------------------------------------------------------

  function ExtractTeacherFromCell(text: string): (r: string)
    ensures r != ""
    ensures r == UnknownTeacher || Contains(text, r)
    ensures FromLabels(text).None? ==> r == UnknownTeacher || IsName(r)
    ensures text == "" ==> r == UnknownTeacher
    ensures text != "" && FromLabels(text).Some? ==> r == FromLabels(text).value
    ensures text != "" && FromLabels(text).None? && FromPieces(text).Some? ==> r == FromPieces(text).value
    ensures text != "" && FromLabels(text).None? && FromPieces(text).None? ==> r == FromTail(text)
  {
    if text == "" then UnknownTeacher
    else if FromLabels(text).Some? then FromLabels(text).value
    else
      match FromPieces(text)
      case Some(c) => c
      case None => FromTail(text)
  }

  /** The separator rule: the candidate of the first piece that passes
      `is_name`. */
  function FromPieces(text: string): (c: Option<string>)
    ensures c.Some? ==> IsName(c.value) && Contains(text, c.value)
    ensures c.None? <==> FirstIndex(SplitOn(text, IsCandSep), IsNamePiece) == |SplitOn(text, IsCandSep)|
  {
    var parts := SplitOn(text, IsCandSep);
    var k := FirstIndex(parts, IsNamePiece);
    if k < |parts| then
      SplitOnPieces(text, IsCandSep, k);
      ContainsTrans(text, parts[k], Candidate(parts[k]));
      Some(Candidate(parts[k]))
    else None
  }

  /** The trailing rule: the tail value, stripped and cut at a remark, if it
      passes `is_name`; `未知讲师` otherwise. */
  function FromTail(text: string): (r: string)
    ensures r == UnknownTeacher || (IsName(r) && Contains(text, r))
  {
    match TailSearch(text, 0)
    case Some(g) =>
      var a := Strip(g);
      var name := CutParenTail(a);
      if IsName(name) then
        StripContained(g);
        ContainsTrans(text, g, a);
        ContainsTrans(text, a, name);
        name
      else UnknownTeacher
    case None => UnknownTeacher
  }

  // ---------------------------------------------------------------------
  // Properties
  // ---------------------------------------------------------------------

  /** Every labelled pattern needs a colon after its label. */
  lemma NoColonNoLabel(text: string)
    requires forall i :: 0 <= i < |text| ==> !IsColon(text[i])
    ensures FromLabels(text).None?
  {
    NoColonNoTag(text, "讲师");
    NoColonNoTag(text, "教师");
    NoColonNoTag(text, "授课人");
  }

  lemma NoColonNoTag(text: string, tag: string)
    requires forall i :: 0 <= i < |text| ==> !IsColon(text[i])
    ensures LabelValue(text, tag).None?
  {
    forall q | 0 <= q ensures LabelAt(text, tag, q).None? {
      NoColonAt(text, tag, q);
    }
  }

  lemma NoColonAt(text: string, tag: string, q: nat)
    requires forall i :: 0 <= i < |text| ==> !IsColon(text[i])
    ensures LabelAt(text, tag, q).None?
  {
  }

  /** A word without blanks, parentheses or newlines is its own candidate. */
  lemma PlainCandidate(w: string)
    requires IsBareWord(w)
    ensures Candidate(w) == w
  {
    BareWordFacts(w);
    CutParenTailOneLine(w);
    assert w[..|w|] == w;
  }

  lemma BareWordFacts(w: string)
    requires IsBareWord(w)
    ensures Strip(w) == w && '\n' !in w && FirstIndex(w, IsParen) == |w|
  {
    StripFixed(w);
    forall i | 0 <= i < |w| ensures w[i] != '\n' { assert !IsSpace(w[i]); }
  }

  /** A one-line name followed by a parenthesised remark: the remark goes. */
  lemma RemarkCandidate(w: string, remark: string)
    requires |w| > 0 && IsBareWord(w)
    requires |remark| > 0 && !IsSpace(remark[|remark| - 1]) && '\n' !in remark
    ensures Candidate(w + "(" + remark) == w
  {
    var s := w + "(" + remark;
    RemarkShape(w, remark);
    CutParenTailOneLine(s);
    assert s[..|w|] == w;
    StripFixed(w);
  }

  lemma RemarkShape(w: string, remark: string)
    requires |w| > 0 && IsBareWord(w)
    requires |remark| > 0 && !IsSpace(remark[|remark| - 1]) && '\n' !in remark
    ensures var s := w + "(" + remark;
            Strip(s) == s && '\n' !in s && FirstIndex(s, IsParen) == |w|
  {
    var s := w + "(" + remark;
    StripFixed(s);
    assert '\n' !in s by {
      forall i | 0 <= i < |s| ensures s[i] != '\n' {
        if i < |w| { assert !IsSpace(w[i]); } else if i > |w| { assert s[i] == remark[i - |w| - 1]; }
      }
    }
    assert s == w + ("(" + remark);
    FirstIndexConcat(w, "(" + remark, IsParen);
  }

  /** Three pieces joined by `/`. */
  lemma ThreePieces(a: string, b: string, c: string)
    requires forall i :: 0 <= i < |a| ==> !IsCandSep(a[i])
    requires forall i :: 0 <= i < |b| ==> !IsCandSep(b[i])
    requires forall i :: 0 <= i < |c| ==> !IsCandSep(c[i])
    ensures SplitOn(a + "/" + b + "/" + c, IsCandSep) == [a, b, c]
  {
    SplitOnConcat(b, '/', c, IsCandSep);
    SplitOnNone(c, IsCandSep);
    assert a + "/" + b + "/" + c == a + ['/'] + (b + ['/'] + c);
    SplitOnConcat(a, '/', b + ['/'] + c, IsCandSep);
  }

  /** A course name containing 数学 is not a name. */
  lemma CourseNotName()
    ensures !IsNamePiece("高等数学")
  {
    CourseCandidate();
    CourseNoisy();
  }

  lemma CourseCandidate()
    ensures Candidate("高等数学") == "高等数学"
  {
    CourseBare();
    PlainCandidate("高等数学");
  }

  lemma CourseNoisy()
    ensures !IsName("高等数学")
  {
    var w := "高等数学";
    StripFixed(w);
    assert w[2..4] == NoiseWords[2];
    HasNoise(w, 2, 2);
  }

  lemma CourseBare()
    ensures IsBareWord("高等数学")
  {
  }

  /** A class word occurring at position `i` makes the text noisy. */
  lemma HasNoise(t: string, k: nat, i: nat)
    requires k < |NoiseWords| && i + |NoiseWords[k]| <= |t| && t[i..i + |NoiseWords[k]|] == NoiseWords[k]
    ensures ContainsAny(t, NoiseWords)
  {
    ContainsAt(t, NoiseWords[k], i);
  }

  /** Two ideographs that are none of the class words form a name. */
  lemma TwoCharName(t: string)
    requires |t| == 2 && IsCjk(t[0]) && IsCjk(t[1]) && t[0] != '本' && t[1] != '本'
    requires t != "数学"
    ensures IsName(t)
  {
    StripFixed(t);
    NoiseShapes();
    forall k | 0 <= k < |NoiseWords| ensures !Contains(t, NoiseWords[k]) {
      PairMisses(t, NoiseWords[k]);
    }
  }

  /** Every class word is `本`, `数学` or longer than two characters. */
  lemma NoiseShapes()
    ensures forall k :: 0 <= k < |NoiseWords| ==>
              NoiseWords[k] == "本" || NoiseWords[k] == "数学" || |NoiseWords[k]| > 2
  {
  }

  lemma PairMisses(t: string, n: string)
    requires |t| == 2 && t[0] != '本' && t[1] != '本' && t != "数学"
    requires n == "本" || n == "数学" || |n| > 2
    ensures !Contains(t, n)
  {
    if Contains(t, n) {
      var i := ContainsWitness(t, n);
    }
  }

  /** A piece with neither a separator nor a colon. */
  predicate IsPlainPiece(s: string)
  {
    forall i :: 0 <= i < |s| ==> !IsCandSep(s[i]) && !IsColon(s[i])
  }

  /** A word with neither blanks nor parentheses. */
  predicate IsBareWord(s: string)
  {
    forall i :: 0 <= i < |s| ==> !IsSpace(s[i]) && !IsParen(s[i])
  }

  /** Pieces without colons, joined by `/`, carry no label. */
  lemma JoinedNoColon(a: string, b: string, c: string)
    requires forall i :: 0 <= i < |a| ==> !IsColon(a[i])
    requires forall i :: 0 <= i < |b| ==> !IsColon(b[i])
    requires forall i :: 0 <= i < |c| ==> !IsColon(c[i])
    ensures FromLabels(a + "/" + b + "/" + c).None?
  {
    var text := a + "/" + b + "/" + c;
    forall i | 0 <= i < |text| ensures !IsColon(text[i]) {
      if i < |a| { assert text[i] == a[i]; }
      else if i == |a| { }
      else if i <= |a| + |b| { assert text[i] == b[i - |a| - 1]; }
      else if i > |a| + |b| + 1 { assert text[i] == c[i - |a| - |b| - 2]; }
    }
    NoColonNoLabel(text);
  }

  /** `course/teacher/group` (a class group such as 23计算机本) without
      labels: when the course piece is not a name, the teacher piece is
      taken as it stands. */
  lemma CourseTeacherClass(course: string, teacher: string, group: string)
    requires IsPlainPiece(course) && IsPlainPiece(teacher) && IsPlainPiece(group)
    requires IsBareWord(teacher)
    requires !IsNamePiece(course) && IsName(teacher)
    ensures ExtractTeacherFromCell(course + "/" + teacher + "/" + group) == teacher
  {
    var text := course + "/" + teacher + "/" + group;
    JoinedNoColon(course, teacher, group);
    ThreePieces(course, teacher, group);
    var parts := SplitOn(text, IsCandSep);
    assert parts == [course, teacher, group];
    PlainCandidate(teacher);
    assert IsNamePiece(parts[1]) && !IsNamePiece(parts[0]);
    FirstIndexSecond(parts, IsNamePiece);
    assert text[|course|] == '/';
    ByCandidate(text);
  }

  lemma FirstIndexSecond<T>(xs: seq<T>, p: T -> bool)
    requires |xs| >= 2 && !p(xs[0]) && p(xs[1])
    ensures FirstIndex(xs, p) == 1
  {
    assert xs[1..][0] == xs[1];
  }

  /** Without a label, the first piece that is a name decides. */
  lemma ByCandidate(text: string)
    requires text != "" && FromLabels(text).None?
    requires FirstIndex(SplitOn(text, IsCandSep), IsNamePiece) < |SplitOn(text, IsCandSep)|
    ensures ExtractTeacherFromCell(text) ==
            Candidate(SplitOn(text, IsCandSep)[FirstIndex(SplitOn(text, IsCandSep), IsNamePiece)])
  {
  }

  /** `"高等数学/张三/23计算机本"`: the course piece is rejected and the
      second piece is the teacher. */
  lemma SlashExample()
    ensures ExtractTeacherFromCell("高等数学" + "/" + "张三" + "/" + "23计算机本") == "张三"
  {
    CourseNotName();
    TwoCharName("张三");
    SlashPiecesPlain();
    CourseTeacherClass("高等数学", "张三", "23计算机本");
  }

  lemma SlashPiecesPlain()
    ensures IsPlainPiece("高等数学") && IsPlainPiece("张三") && IsPlainPiece("23计算机本")
    ensures IsBareWord("张三") && IsBareWord("高等数学")
  {
  }

  /** `讲师：name` gives `name` whatever else the cell says after it, as long
      as the name runs to a stop character or the end. */
  lemma LabelledTeacher(name: string, rest: string)
    requires name != [] && IsBareWord(name)
    requires forall i :: 0 <= i < |name| ==> IsLabelValueChar(name[i])
    requires rest == [] || !IsLabelValueChar(rest[0])
    ensures ExtractTeacherFromCell("讲师：" + name + rest) == name
  {
    var s := "讲师：" + name + rest;
    LabelAtStart(name, rest);
    StripFixed(name);
    FirstPosition(s, "讲师", name);
    assert FromLabels(s) == Some(name);
  }

  /** The labelled pattern matches at position 0 with the whole name. */
  lemma LabelAtStart(name: string, rest: string)
    requires name != [] && !IsSpace(name[0])
    requires forall i :: 0 <= i < |name| ==> IsLabelValueChar(name[i])
    requires rest == [] || !IsLabelValueChar(rest[0])
    ensures LabelAt("讲师：" + name + rest, "讲师", 0) == Some(name)
  {
    var s := "讲师：" + name + rest;
    var a := |"讲师"| + 1;
    assert s[0..2] == "讲师" && s[2] == '：';
    assert TagAt(s, "讲师", 0);
    assert s[a..] == name + rest;
    ValueRun(name, rest);
    assert s[a..][..|name|] == name;
    assert s[a..a + |name|] == name;
  }

  /** A match at position 0 is what the search finds; a value that strips
      to itself is the rule's value. */
  lemma FirstPosition(s: string, tag: string, g: string)
    requires LabelAt(s, tag, 0) == Some(g) && Strip(g) == g
    ensures LabelValue(s, tag) == Some(g)
  {
    assert LabelSearch(s, tag, 0) == Some(g);
  }

  /** The blanks before the value are none and the value run is `name`. */
  lemma ValueRun(name: string, rest: string)
    requires name != [] && !IsSpace(name[0])
    requires forall i :: 0 <= i < |name| ==> IsLabelValueChar(name[i])
    requires rest == [] || !IsLabelValueChar(rest[0])
    ensures RunLength(name + rest, IsSpace) == 0
    ensures RunLength(name + rest, IsLabelValueChar) == |name|
  {
    RunLengthConcat(name, rest, IsLabelValueChar);
  }

  lemma {:induction false} RunLengthConcat(a: string, b: string, p: char -> bool)
    requires forall i :: 0 <= i < |a| ==> p(a[i])
    requires b == [] || !p(b[0])
    ensures RunLength(a + b, p) == |a|
    decreases |a|
  {
    if a != [] {
      assert (a + b)[1..] == a[1..] + b;
      RunLengthConcat(a[1..], b, p);
    }
  }
}
