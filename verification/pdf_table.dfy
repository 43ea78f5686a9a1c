/** The PDF branch of `parse_single_file` in `gui_run.py`: every page's
    tables are read row by row, the time-period column is carried forward
    over merged cells, and every weekday cell of a row becomes one raw
    record.  The PDF reader itself is not modelled: a page is given as the
    list of its tables, a table as its rows, a row as its cells. */
module PdfTable {
  import opened TextUtil
  import opened Records
  import opened TimePeriod
  import opened CellTeacher

  /** A table cell: `None` for an empty cell, otherwise its text. */
  type Cell = Option<string>
  type Row = seq<Cell>
  type Table = seq<Row>
  type Page = seq<Table>

  // ---------------------------------------------------------------------
  // The time-period and section columns
  // ---------------------------------------------------------------------

  /** Columns 0 and 1 of a row: empty for a missing cell or one of the
      placeholders `"None"`, `""`, `"/未安排"` (compared before stripping),
      the stripped text otherwise. */
  function CellText(c: Cell): (t: string)
    ensures t != "" ==> !IsSpace(t[0]) && !IsSpace(t[|t| - 1])
    ensures c.None? || c.value == "None" || c.value == "/未安排" ==> t == ""
    ensures c.Some? && c.value != "None" && c.value != "/未安排" ==> t == Strip(c.value)
  {
    match c
    case None => ""
    case Some(s) => if s == "" || s == "None" || s == "/未安排" then "" else Strip(s)
  }

  /** What the row loop keeps between rows. */
  datatype Carry = Carry(period: string, memory: string)

  /** One step of the merged-cell memory: the written period wins and is
      remembered; a blank cell reuses the memory; with neither, the period
      is inferred from the section (and remembered) or is unknown. */
  function CarryStep(memory: string, current: string, section: string): (c: Carry)
    ensures c.period != ""
    ensures current != "" ==> c == Carry(current, current)
    ensures current == "" && memory != "" ==> c == Carry(memory, memory)
    ensures memory != "" ==> c.memory != ""
    ensures c.memory != "" ==> c.period == c.memory
    ensures c.memory == "" ==> memory == "" && current == "" && c.period == UnknownPeriod
    ensures current == "" && memory == "" && section != "" && InferAsWritten(section).Some? ==>
              c == Carry(InferAsWritten(section).value, InferAsWritten(section).value)
  {
    if current == "" && memory != "" then Carry(memory, memory)
    else if current != "" then Carry(current, current)
    else if section != "" && InferAsWritten(section).Some? then
      var p := InferAsWritten(section).value;
      Carry(p, p)
    else Carry(UnknownPeriod, memory)
  }

  /** The same step with the section read as intended (see
      `InferFromSection`): only the inference from the section differs. */
  function CarryStepIntended(memory: string, current: string, section: string): (c: Carry)
    ensures current != "" || memory != "" ==> c == CarryStep(memory, current, section)
    ensures current == "" && memory == "" && InferFromSection(section).Some? ==>
              c == Carry(InferFromSection(section).value, InferFromSection(section).value)
    ensures current == "" && memory == "" && InferFromSection(section).None? ==> c == Carry(UnknownPeriod, "")
  {
    if current != "" || memory != "" then CarryStep(memory, current, section)
    else match InferFromSection(section)
      case Some(p) => Carry(p, p)
      case None => Carry(UnknownPeriod, "")
  }

  /** Sections whose numbers are single digits are carried alike by both
      steps. */
  lemma CarryAgrees(memory: string, current: string, section: string)
    requires SingleDigitNumbers(section)
    ensures CarryStepIntended(memory, current, section) == CarryStep(memory, current, section)
  {
    InferAgrees(section);
  }

  /** A first row with section "12" and no period: as written the period is
      morning and is remembered for the rows below; as intended it is
      unknown and nothing is remembered. */
  lemma TwelveCarried()
    ensures CarryStep("", "", "12") == Carry(Morning, Morning)
    ensures CarryStepIntended("", "", "12") == Carry(UnknownPeriod, "")
  {
    TwelveAsWritten();
  }

  /** The two leading columns of a body row. */
  datatype RowHead = RowHead(current: string, section: string)

  function HeadOf(row: Row): RowHead
    requires |row| >= 3
  {
    RowHead(CellText(row[0]), CellText(row[1]))
  }

  /** A row that sets the memory when the memory is empty. */
  predicate Supplies(h: RowHead)
  {
    h.current != "" || (h.section != "" && InferAsWritten(h.section).Some?)
  }

  /** The memory folded over a page's body rows: entry `k` is the period of
      row `k` and the memory after it. */
  function Track(heads: seq<RowHead>, memory: string): (cs: seq<Carry>)
    ensures |cs| == |heads|
    ensures forall k :: 0 <= k < |cs| ==> cs[k].period != ""
    decreases |heads|
  {
    if heads == [] then []
    else
      var c := CarryStep(memory, heads[0].current, heads[0].section);
      [c] + Track(heads[1..], c.memory)
  }

  /** Once the memory holds a period, it never becomes empty again. */
  lemma {:induction false} MemoryStays(heads: seq<RowHead>, memory: string, k: nat)
    requires memory != "" && k < |heads|
    ensures Track(heads, memory)[k].memory != ""
    decreases |heads|
  {
    var c := CarryStep(memory, heads[0].current, heads[0].section);
    if k > 0 {
      MemoryStays(heads[1..], c.memory, k - 1);
    }
  }

  /** Starting from an empty memory, the memory is still empty after row `k`
      exactly when no row up to `k` supplies a period. */
  lemma {:induction false} MemoryEmptyIff(heads: seq<RowHead>, k: nat)
    requires k < |heads|
    ensures Track(heads, "")[k].memory == "" <==> forall j :: 0 <= j <= k ==> !Supplies(heads[j])
    decreases |heads|
  {
    var c := CarryStep("", heads[0].current, heads[0].section);
    var cs := Track(heads, "");
    assert c.memory == "" <==> !Supplies(heads[0]);
    if k > 0 {
      if c.memory == "" {
        MemoryEmptyIff(heads[1..], k - 1);
        assert forall j :: 1 <= j <= k ==> heads[1..][j - 1] == heads[j];
      } else {
        MemoryStays(heads[1..], c.memory, k - 1);
      }
    }
  }

  // ---------------------------------------------------------------------
  // Body rows of a page
  // ---------------------------------------------------------------------

  /** The rows the loop reads: at least three cells. */
  function LongRows(rows: seq<Row>): (r: seq<Row>)
    ensures |r| <= |rows|
    ensures forall k :: 0 <= k < |r| ==> |r[k]| >= 3 && r[k] in rows
  {
    if rows == [] then []
    else (if |rows[0]| >= 3 then [rows[0]] else []) + LongRows(rows[1..])
  }

  /** The filter keeps the order: the long rows of `a + b` are those of `a`
      followed by those of `b`. */
  lemma {:induction false} LongRowsAppend(a: seq<Row>, b: seq<Row>)
    ensures LongRows(a + b) == LongRows(a) + LongRows(b)
    decreases |a|
  {
    if a != [] {
      assert (a + b)[0] == a[0] && (a + b)[1..] == a[1..] + b;
      LongRowsAppend(a[1..], b);
      var h := if |a[0]| >= 3 then [a[0]] else [];
      assert LongRows(a + b) == h + LongRows(a[1..] + b);
      assert LongRows(a) == h + LongRows(a[1..]);
    } else {
      assert a + b == b;
    }
  }

  /** Every row of at least three cells is kept, so with the contract of
      `LongRows` a row is kept exactly when it is long enough. */
  lemma {:induction false} LongRowsKeeps(rows: seq<Row>, r: Row)
    requires r in rows && |r| >= 3
    ensures r in LongRows(rows)
    decreases |rows|
  {
    if rows[0] != r {
      assert r in rows[1..];
      LongRowsKeeps(rows[1..], r);
    }
  }

  /** A table without its header row and its short rows. */
  function BodyRows(t: Table): (r: seq<Row>)
    ensures forall k :: 0 <= k < |r| ==> |r[k]| >= 3
  {
    if |t| <= 1 then [] else LongRows(t[1..])
  }

  /** Row 0 is the header and is skipped however long it is; the rows below
      it are filtered by length only. */
  lemma HeaderSkipped(header: Row, rows: seq<Row>)
    ensures BodyRows([header] + rows) == LongRows(rows)
  {
    assert ([header] + rows)[1..] == rows;
  }

  /** All body rows of a page, table after table: one memory serves them all. */
  function PageRows(p: Page): (r: seq<Row>)
    ensures forall k :: 0 <= k < |r| ==> |r[k]| >= 3
  {
    if p == [] then [] else BodyRows(p[0]) + PageRows(p[1..])
  }

  function Heads(rows: seq<Row>): (hs: seq<RowHead>)
    requires forall k :: 0 <= k < |rows| ==> |rows[k]| >= 3
    ensures |hs| == |rows|
    ensures forall k :: 0 <= k < |rows| ==> hs[k] == HeadOf(rows[k])
  {
    if rows == [] then []
    else
      var rest := rows[1..];
      assert forall k :: 0 <= k < |rest| ==> rest[k] == rows[k + 1];
      [HeadOf(rows[0])] + Heads(rest)
  }

  // ---------------------------------------------------------------------
  // One course cell
  // ---------------------------------------------------------------------

  const UnknownCourse := "未知课程"
  const UnknownWeek := "未知周次"
  const UnknownLocation := "未知地点"

  /** `str(row[i]).strip() if row[i] else ""` for a weekday column.  The
      text is stripped, so it is never the single space that the blank list
      also names. */
  function CourseCellText(c: Cell): (t: string)
    ensures c.None? ==> t == ""
    ensures c.Some? ==> Contains(c.value, t)
    ensures Strip(t) == t && t != " "
  {
    StripCell(c);
    match c
    case None => ""
    case Some(s) => Strip(s)
  }

  lemma StripCell(c: Cell)
    ensures c.Some? ==> Contains(c.value, Strip(c.value)) && Strip(Strip(c.value)) == Strip(c.value)
  {
    if c.Some? {
      StripContained(c.value);
      StripIdempotent(c.value);
    }
  }

  /** The weekday cells the loop skips. */
  predicate IsBlankCell(t: string)
  {
    t == "" || t == "/未安排" || t == "None" || t == " "
  }

  predicate IsNameStop(c: char)
  {
    c == '★' || c == '☆' || c == '◆' || c == '◇' || c == '(' || c == '（'
  }

  /** `^([^★☆◆◇(（]+)`, stripped: the text before the first mark or
      parenthesis. */
  function CourseName(cell: string): (n: string)
    ensures n == UnknownCourse || (Contains(cell, n) && forall i :: 0 <= i < |n| ==> !IsNameStop(n[i]))
  {
    var k := FirstIndex(cell, IsNameStop);
    if k == 0 then UnknownCourse
    else
      var a := cell[..k];
      SliceContained(cell, 0, k);
      assert cell[0..k] == a;
      StripContained(a);
      ContainsTrans(cell, a, Strip(a));
      StripChars(a);
      Strip(a)
  }

  /** A name followed by a mark: the mark and what follows are dropped. */
  lemma NameBeforeMark(a: string, rest: string)
    requires a != [] && forall i :: 0 <= i < |a| ==> !IsNameStop(a[i])
    requires rest != [] && IsNameStop(rest[0])
    ensures CourseName(a + rest) == Strip(a)
  {
    FirstIndexConcat(a, rest, IsNameStop);
    assert (a + rest)[..|a|] == a;
  }

  /** `\d+周` after the dash of a range: the length matched, 0 if none. */
  function RangeTail(t: string): (m: nat)
    ensures m <= |t|
    ensures m > 0 ==> m >= 2 && IsDigit(t[m - 2]) && t[m - 1] == '周'
  {
    var d := RunLength(t, IsDigit);
    if d > 0 && d < |t| && t[d] == '周' then d + 1 else 0
  }

  /** `\(\w+\)` after a week: the length matched, 0 if none. */
  function ParityTail(t: string): (m: nat)
    ensures m <= |t|
  {
    var n := if |t| > 0 && t[0] == '(' then RunLength(t[1..], IsWordChar) else 0;
    if n > 0 && 1 + n < |t| && t[1 + n] == ')' then n + 2 else 0
  }

  /** `\d+-\d+周|\d+周\(\w+\)|\d+周` anchored at the start of `r`, tried in
      that order: the length matched, 0 if none.  Each `+` is greedy and
      backing off cannot help, because the character after a shorter run is
      again a digit or a word character. */
  function WeekMatch(r: string): (m: nat)
    ensures m <= |r|
    ensures m > 0 ==> exists k :: 0 < k < m && IsDigit(r[k - 1]) && r[k] == '周'
  {
    var d := RunLength(r, IsDigit);
    if d == 0 || d == |r| then 0
    else if r[d] == '-' then
      var t := RangeTail(r[d + 1..]);
      if t > 0 then
        assert r[d + 1..][t - 2] == r[d + t - 1];
        d + 1 + t
      else 0
    else if r[d] == '周' then
      assert IsDigit(r[d - 1]);
      d + 1 + ParityTail(r[d + 1..])
    else 0
  }

  /** The week pattern tried at position `i` of `s`. */
  function WeekAt(s: string, i: nat): (w: Option<string>)
    requires i <= |s|
    ensures w.Some? ==> w.value != "" && Contains(s, w.value)
  {
    var m := WeekMatch(s[i..]);
    if m > 0 then Some(Block(s, i, i + m)) else None
  }

  /** `re.search` of the week pattern from `i` on. */
  function WeekSearch(s: string, i: nat): (w: Option<string>)
    requires i <= |s|
    ensures w.None? <==> forall j :: i <= j <= |s| ==> WeekAt(s, j).None?
    ensures w.Some? ==> w.value != "" && Contains(s, w.value)
    decreases |s| - i
  {
    if WeekAt(s, i).Some? then WeekAt(s, i)
    else if i == |s| then None
    else WeekSearch(s, i + 1)
  }

  /** The week text of a cell, or `未知周次`. */
  function Week(cell: string): (w: string)
    ensures w != ""
    ensures w == UnknownWeek || Contains(cell, w)
  {
    match WeekSearch(cell, 0)
    case Some(v) => v
    case None => UnknownWeek
  }

  /** A week is found exactly when some `周` follows a digit. */
  lemma WeekFoundIff(cell: string)
    ensures WeekSearch(cell, 0).Some? <==>
            exists k :: 0 < k < |cell| && IsDigit(cell[k - 1]) && cell[k] == '周'
  {
    if k :| 0 < k < |cell| && IsDigit(cell[k - 1]) && cell[k] == '周' {
      WeekFoundAt(cell, k);
    }
    if WeekSearch(cell, 0).Some? {
      var k := WeekFoundWitness(cell);
    }
  }

  /** A digit before `周` anywhere lets the search succeed. */
  lemma WeekFoundAt(cell: string, k: nat)
    requires 0 < k < |cell| && IsDigit(cell[k - 1]) && cell[k] == '周'
    ensures WeekSearch(cell, 0).Some?
  {
    DigitThenWeek(cell[k - 1..]);
    assert WeekAt(cell, k - 1).Some?;
  }

  /** A successful search points at a digit before `周`. */
  lemma WeekFoundWitness(cell: string) returns (k: nat)
    requires WeekSearch(cell, 0).Some?
    ensures 0 < k < |cell| && IsDigit(cell[k - 1]) && cell[k] == '周'
  {
    var j :| 0 <= j <= |cell| && WeekAt(cell, j).Some?;
    k := WeekAtWitness(cell, j);
  }

  lemma WeekAtWitness(cell: string, j: nat) returns (k: nat)
    requires j <= |cell| && WeekAt(cell, j).Some?
    ensures 0 < k < |cell| && IsDigit(cell[k - 1]) && cell[k] == '周'
  {
    var r := cell[j..];
    var x :| 0 < x < WeekMatch(r) && IsDigit(r[x - 1]) && r[x] == '周';
    assert cell[j + x - 1] == r[x - 1] && cell[j + x] == r[x];
    k := j + x;
  }

  lemma DigitThenWeek(r: string)
    requires |r| >= 2 && IsDigit(r[0]) && r[1] == '周'
    ensures WeekMatch(r) > 0
  {
    assert RunLength(r[1..], IsDigit) == 0;
  }

  /** `/(.*?)/` tried at `i`: a slash, then the text up to the next slash,
      which must come before any newline. */
  function LocationAt(s: string, i: nat): (g: Option<string>)
    requires i < |s|
    ensures g.Some? ==> Contains(s, g.value) && '/' !in g.value
  {
    if s[i] != '/' then None
    else
      var n := FirstIndex(s[i + 1..], IsSlashOrNewline);
      if i + 1 + n < |s| && s[i + 1 + n] == '/' then
        assert s[i + 1..i + 1 + n] == s[i + 1..][..n];
        Some(Block(s, i + 1, i + 1 + n))
      else None
  }

  predicate IsSlashOrNewline(c: char) { c == '/' || c == '\n' }

  function LocationSearch(s: string, i: nat): (g: Option<string>)
    ensures g.Some? ==> Contains(s, g.value) && '/' !in g.value
    ensures g.None? <==> forall j :: i <= j < |s| ==> LocationAt(s, j).None?
    decreases |s| - i
  {
    if i >= |s| then None
    else if LocationAt(s, i).Some? then LocationAt(s, i)
    else LocationSearch(s, i + 1)
  }

  /** The stripped text between the first pair of slashes on one line, or
      `未知地点`. */
  function Location(cell: string): (l: string)
    ensures l == UnknownLocation || (Contains(cell, l) && '/' !in l)
  {
    match LocationSearch(cell, 0)
    case Some(g) =>
      StripContained(g);
      ContainsTrans(cell, g, Strip(g));
      StripChars(g);
      Strip(g)
    case None => UnknownLocation
  }

  /** `course/room/rest`: the room is the location. */
  lemma LocationBetween(a: string, room: string, rest: string)
    requires '/' !in a && '/' !in room && '\n' !in room
    ensures Location(a + "/" + room + "/" + rest) == Strip(room)
  {
    var s := a + "/" + room + "/" + rest;
    forall j | 0 <= j < |a| ensures LocationAt(s, j).None? {
      assert s[j] == a[j];
    }
    var t := s[|a| + 1..];
    assert t == room + ("/" + rest);
    FirstIndexConcat(room, "/" + rest, IsSlashOrNewline);
    assert s[|a| + 1..|a| + 1 + |room|] == room;
    assert LocationAt(s, |a|) == Some(room);
    SearchFrom(s, |a|);
  }

  /** A search that fails before `i` and succeeds at `i` stops at `i`. */
  lemma {:induction false} SearchFrom(s: string, i: nat)
    requires i < |s| && LocationAt(s, i).Some?
    requires forall j :: 0 <= j < i ==> LocationAt(s, j).None?
    ensures LocationSearch(s, 0) == LocationAt(s, i)
  {
    SearchFromAt(s, 0, i);
  }

  lemma {:induction false} SearchFromAt(s: string, p: nat, i: nat)
    requires p <= i < |s| && LocationAt(s, i).Some?
    requires forall j :: p <= j < i ==> LocationAt(s, j).None?
    ensures LocationSearch(s, p) == LocationAt(s, i)
    decreases i - p
  {
    if p < i {
      SearchMiss(s, p);
      SearchFromAt(s, p + 1, i);
    } else {
      SearchHit(s, i);
    }
  }

  lemma SearchMiss(s: string, p: nat)
    requires p < |s| && LocationAt(s, p).None?
    ensures LocationSearch(s, p) == LocationSearch(s, p + 1)
  {
  }

  lemma SearchHit(s: string, i: nat)
    requires i < |s| && LocationAt(s, i).Some?
    ensures LocationSearch(s, i) == LocationAt(s, i)
  {
  }

  /** `2 if "-" in section else 1 if section.isdigit() else 0`. */
  function ClassHours(section: string): (h: nat)
    ensures h <= 2
    ensures h == 2 <==> '-' in section
    ensures h == 1 <==> '-' !in section && section != "" && AllDigits(section)
  {
    if '-' in section then 2
    else if section != "" && AllDigits(section) then 1
    else 0
  }

  /** Where a cell comes from: the file name and the 1-based page number. */
  datatype Origin = Origin(fileName: string, page: nat)

  const Weekdays: seq<string> := ["星期一", "星期二", "星期三", "星期四", "星期五", "星期六", "星期日"]

  /** The value of `sheet/页码`: `第{page}页-{weekday}`, the page number in
      decimal between `第` and `页-`. */
  function SheetLabel(page: nat, weekday: string): (r: string)
    ensures |r| == |NatToString(page)| + 3 + |weekday|
    ensures r[0] == '第' && r[|r| - |weekday| - 2] == '页' && r[|r| - |weekday| - 1] == '-'
    ensures r[|r| - |weekday|..] == weekday
    ensures r[1..|r| - |weekday| - 2] == NatToString(page)
  {
    var d := NatToString(page);
    var r := "第" + d + "页-" + weekday;
    assert r[1..|r| - |weekday| - 2] == d;
    r
  }

  /** Reads the page number back from a label for `weekday`. */
  function LabelPage(tag: string, weekday: string): (n: Option<nat>)
    ensures n.Some? ==> |tag| >= |weekday| + 3
  {
    if |tag| >= |weekday| + 3 && AllDigits(tag[1..|tag| - |weekday| - 2])
    then Some(DigitsValue(tag[1..|tag| - |weekday| - 2]))
    else None
  }

  /** The label records its page: reading it back gives the page number, so
      records of different pages never share a label. */
  lemma SheetLabelPage(page: nat, weekday: string)
    ensures LabelPage(SheetLabel(page, weekday), weekday) == Some(page)
  {
    NatToStringRoundTrip(page);
  }

  /** The record built from one weekday cell. */
  function CellCourse(o: Origin, weekday: string, cell: string, section: string, period: string): (c: RawCourse)
    ensures c.teacher != ""
    ensures c.hours.Some? && c.hours.value.Count? && 0 <= c.hours.value.n <= 2
    ensures exists p :: IsPeriod(p) && c.category == weekday + "-" + p
    ensures c.hours == Some(Count(ClassHours(section)))
    ensures c.category == weekday + "-" + NormalizeTimePeriod(period, section)
    ensures c.teacher == ExtractTeacherFromCell(cell)
  {
    var p := NormalizeTimePeriod(period, section);
    RawCourse(
      sourceFile := o.fileName,
      sheetOrPage := Some(SheetLabel(o.page, weekday)),
      sheetName := "",
      name := CourseName(cell),
      teacher := ExtractTeacherFromCell(cell),
      hours := Some(Count(ClassHours(section))),
      standardHours := None,
      category := weekday + "-" + p,
      week := Week(cell),
      location := Location(cell),
      section := section,
      timePeriod := "",
      sourceNameText := "",
      sourceText := "")
  }

  /** Weekday `k` (column `k + 2`) of the row holds a course: the column
      exists and its cell is not blank. */
  predicate Filled(row: Row, k: nat)
  {
    k < 7 && k + 2 < |row| && !IsBlankCell(CourseCellText(row[k + 2]))
  }

  /** Which weekday cells of the row hold a course. */
  function FilledMask(row: Row): (m: seq<bool>)
    ensures |m| == 7 && forall k :: 0 <= k < 7 ==> m[k] == Filled(row, k)
  {
    seq(7, k requires 0 <= k < 7 => Filled(row, k))
  }

  /** The weekdays from `d` on whose cell holds a course, in column order. */
  function FilledDays(row: Row, d: nat): (ks: seq<nat>)
    requires d <= 7
    ensures |ks| <= 7 - d
    ensures forall i :: 0 <= i < |ks| ==> d <= ks[i] && Filled(row, ks[i])
    ensures forall k :: d <= k && Filled(row, k) ==> k in ks
    ensures forall i, j :: 0 <= i < j < |ks| ==> ks[i] < ks[j]
    ensures ks == [] <==> forall k :: d <= k ==> !Filled(row, k)
  {
    Marked(FilledMask(row), d)
  }

  /** Weekday `d` is listed first exactly when its cell holds a course. */
  lemma FilledStep(row: Row, d: nat)
    requires d < 7
    ensures Filled(row, d) ==> FilledDays(row, d) == [d] + FilledDays(row, d + 1)
    ensures !Filled(row, d) ==> FilledDays(row, d) == FilledDays(row, d + 1)
  {
    assert FilledMask(row)[d] == Filled(row, d);
  }

  /** The name of weekday `k`, counted from Monday. */
  function WeekdayName(k: nat): string
  {
    if k < 7 then Weekdays[k] else ""
  }

  /** The text of weekday `k`'s cell, empty when the row lacks it. */
  function DayText(row: Row, k: nat): string
  {
    if k + 2 < |row| then CourseCellText(row[k + 2]) else ""
  }

  /** The loop over columns 2..8 from weekday `d` on: a missing column or a
      blank cell is skipped, every other cell gives one record. */
  function DayCourses(o: Origin, row: Row, section: string, period: string, d: nat): (out: seq<RawCourse>)
    requires d <= 7
    ensures |out| <= 7 - d
    ensures d + 2 >= |row| ==> out == []
  {
    assert d + 2 >= |row| ==> forall k :: d <= k ==> !Filled(row, k);
    Pick(FilledMask(row), d, k => CellCourse(o, WeekdayName(k), DayText(row, k), section, period))
  }

  /** The records of a row are those of its filled weekday cells, one per
      cell and in column order, each built from that cell and that
      weekday. */
  lemma DayCoursesContent(o: Origin, row: Row, section: string, period: string, d: nat)
    requires d <= 7
    ensures |DayCourses(o, row, section, period, d)| == |FilledDays(row, d)|
    ensures forall i :: 0 <= i < |FilledDays(row, d)| ==>
              DayCourses(o, row, section, period, d)[i]
              == CellCourse(o, Weekdays[FilledDays(row, d)[i]], CourseCellText(row[FilledDays(row, d)[i] + 2]), section, period)
  {
  }

  /** A row whose weekday cells are all blank or missing yields nothing. */
  lemma BlankDays(o: Origin, row: Row, section: string, period: string, d: nat)
    requires d <= 7
    requires forall k :: d + 2 <= k < |row| && k < 9 ==> IsBlankCell(CourseCellText(row[k]))
    ensures DayCourses(o, row, section, period, d) == []
  {
    DayCoursesContent(o, row, section, period, d);
    var ks := FilledDays(row, d);
    assert forall k :: d <= k ==> !Filled(row, k);
  }

  /** The section text of a row: column 1, cleaned as `CellText` does. */
  function SectionText(row: Row): string
  {
    if |row| >= 2 then CellText(row[1]) else ""
  }

  /** The records of one body row, given what was carried to it. */
  function RowCourses(o: Origin, row: Row, c: Carry): seq<RawCourse>
  {
    DayCourses(o, row, SectionText(row), c.period, 0)
  }

  /** The records of a page: its body rows with the memory reset to empty. */
  function PageCourses(o: Origin, p: Page): (out: seq<RawCourse>)
    ensures |out| <= 7 * |PageRows(p)|
  {
    var rows := PageRows(p);
    var cs := Track(Heads(rows), "");
    RowsWithBound(rows, cs, (r: Row, c: Carry) => RowCourses(o, r, c), 7);
    RowsWith(rows, cs, (r: Row, c: Carry) => RowCourses(o, r, c))
  }

  /** The rows read in order, row `k` with carry `cs[k]`, each giving the
      values `h(row, carry)`. */
  function RowsWith<T>(rows: seq<Row>, cs: seq<Carry>, h: (Row, Carry) -> seq<T>): (out: seq<T>)
    requires |cs| == |rows|
  {
    if rows == [] then [] else h(rows[0], cs[0]) + RowsWith(rows[1..], cs[1..], h)
  }

  /** At most `b` values per row give at most `b` times as many in all. */
  lemma {:induction false} RowsWithBound<T>(rows: seq<Row>, cs: seq<Carry>, h: (Row, Carry) -> seq<T>, b: nat)
    requires |cs| == |rows|
    requires forall r, c :: |h(r, c)| <= b
    ensures |RowsWith(rows, cs, h)| <= b * |rows|
    decreases |rows|
  {
    if rows != [] {
      RowsWithBound(rows[1..], cs[1..], h, b);
    }
  }

  /** The values of each row, row `k` with carry `cs[k]`. */
  function RowRecords<T>(rows: seq<Row>, cs: seq<Carry>, h: (Row, Carry) -> seq<T>): (rs: seq<seq<T>>)
    requires |cs| == |rows|
    ensures |rs| == |rows|
    ensures forall k :: 0 <= k < |rows| ==> rs[k] == h(rows[k], cs[k])
  {
    seq(|rows|, k requires 0 <= k < |rows| => h(rows[k], cs[k]))
  }

  /** One more row adds exactly that row's values at the end. */
  lemma {:induction false} RowsWithAppend<T>(rows: seq<Row>, cs: seq<Carry>, h: (Row, Carry) -> seq<T>, row: Row, c: Carry)
    requires |cs| == |rows|
    ensures RowsWith(rows + [row], cs + [c], h) == RowsWith(rows, cs, h) + h(row, c)
    decreases |rows|
  {
    if rows != [] {
      assert (rows + [row])[1..] == rows[1..] + [row];
      assert (cs + [c])[1..] == cs[1..] + [c];
      RowsWithAppend(rows[1..], cs[1..], h, row, c);
    } else {
      assert rows + [row] == [row] && cs + [c] == [c];
    }
  }

  /** Row by row: the values of the rows are the values of each row
      concatenated in row order. */
  lemma {:induction false} RowsWithFlat<T>(rows: seq<Row>, cs: seq<Carry>, h: (Row, Carry) -> seq<T>)
    requires |cs| == |rows|
    ensures RowsWith(rows, cs, h) == Flatten(RowRecords(rows, cs, h))
    decreases |rows|
  {
    if rows != [] {
      var n := |rows| - 1;
      var front := rows[..n];
      var fc := cs[..n];
      RowsWithFlat(front, fc, h);
      assert rows == front + [rows[n]] && cs == fc + [cs[n]];
      RowsWithAppend(front, fc, h, rows[n], cs[n]);
      assert RowRecords(rows, cs, h) == RowRecords(front, fc, h) + [h(rows[n], cs[n])];
      FlattenAppend(RowRecords(front, fc, h), h(rows[n], cs[n]));
    }
  }

  /** The records of a page are those of its body rows in order, row `k`
      classified with the period the merged-cell memory gives it. */
  lemma PageCoursesByRow(o: Origin, p: Page)
    ensures var rows := PageRows(p);
            PageCourses(o, p) == Flatten(RowRecords(rows, Track(Heads(rows), ""), (r: Row, c: Carry) => RowCourses(o, r, c)))
  {
    var rows := PageRows(p);
    RowsWithFlat(rows, Track(Heads(rows), ""), (r: Row, c: Carry) => RowCourses(o, r, c));
  }

  /** Pages read one by one, page `k` numbered `first + k`, with nothing
      passed from one page to the next: the output is the concatenation of
      `f(number, page)` over the pages. */
  function PagesWith<T>(pages: seq<Page>, first: nat, f: (nat, Page) -> seq<T>): seq<T>
  {
    Flatten(seq(|pages|, k requires 0 <= k < |pages| => f(first + k, pages[k])))
  }

  lemma PagesWithAppend<T>(pages: seq<Page>, p: Page, first: nat, f: (nat, Page) -> seq<T>)
    ensures PagesWith(pages + [p], first, f) == PagesWith(pages, first, f) + f(first + |pages|, p)
  {
    var q := pages + [p];
    var before := seq(|pages|, k requires 0 <= k < |pages| => f(first + k, pages[k]));
    var after := seq(|q|, k requires 0 <= k < |q| => f(first + k, q[k]));
    assert after == before + [f(first + |pages|, p)];
    FlattenAppend(before, f(first + |pages|, p));
  }

  /** The whole PDF, pages numbered from 1; a page without tables gives
      nothing. */
  function ParsePdf(fileName: string, pages: seq<Page>): (r: seq<RawCourse>)
    ensures pages == [] ==> r == []
    ensures |pages| == 1 ==> r == PageCourses(Origin(fileName, 1), pages[0])
  {
    var f := (n: nat, pg: Page) => PageCourses(Origin(fileName, n), pg);
    PagesWithOne(pages, 1, f);
    PagesWith(pages, 1, f)
  }

  /** No pages give nothing; a single page gives its own output. */
  lemma PagesWithOne<T>(pages: seq<Page>, first: nat, f: (nat, Page) -> seq<T>)
    ensures pages == [] ==> PagesWith(pages, first, f) == []
    ensures |pages| == 1 ==> PagesWith(pages, first, f) == f(first, pages[0])
  {
    if |pages| == 1 {
      PagesWithAppend([], pages[0], first, f);
      assert [] + [pages[0]] == pages;
    }
  }

  /** Adding a page adds exactly that page's records: the merged-cell
      memory starts empty on every page. */
  lemma PagesAppend(fileName: string, pages: seq<Page>, p: Page)
    ensures ParsePdf(fileName, pages + [p])
            == ParsePdf(fileName, pages) + PageCourses(Origin(fileName, 1 + |pages|), p)
  {
    PagesWithAppend(pages, p, 1, (n: nat, pg: Page) => PageCourses(Origin(fileName, n), pg));
  }
}
