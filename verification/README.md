# course_stat_tool: a Dafny model of the schedule pipeline core

`course_stat_tool` reads course timetables from spreadsheets and PDFs and turns
them into course records. It cleans and deduplicates the records and then
summarises them. This project models the pure logic of that pipeline:

- **Week-range parser** (`parse_week_numbers`, module `WeekRange`; worked
  examples in `WeekExamples`). A descriptor such as `1-8周,10周` becomes the
  interval tokens `1-8`, `10`.
- **Record cleaner** (`data_cleaner.py`):
  - the course-name allow-list and the hours parser (module `Cleaner`);
  - the layered teacher validator and re-deriver (module `TeacherCleaner`);
  - the deduplicating `clean_courses` fold (module `Cleaner`).
- **Cell recovery** (`gui_run.py`):
  - `extract_teacher_from_cell` (module `CellTeacher`);
  - `normalize_time_period` and the section-based period inference (module `TimePeriod`);
  - the PDF row loop with its merged-cell memory, and the per-cell field extraction (module `PdfTable`);
  - the spreadsheet header-alias match (module `HeaderMatch`).
- **Aggregation** (`stat_courses`, module `Stats`).

Shared text utilities live in `TextUtil`:

- character classes;
- `strip`;
- substring search;
- `re.split` and `re.sub` engines for hand-written matchers;
- digit runs and their values;
- `str(int)`.

The record types are in `Records`. Every regular expression of the source is
re-expressed as a character predicate plus an explicit matcher. Where the
source uses `re.search`, the model looks for the leftmost position where an
anchored match succeeds. Greedy and lazy repetition are written out explicitly.

Records are datatypes with one field per dict key. Distributions
(`value_counts`, the week tally) are multisets. The configuration file is a
`CleanerConfig` parameter.

Two details of the code are modelled as written:

- The dedupe key of `clean_courses` is `(name, 周次, 节次)`. The `dedupe_keys`
  argument is computed but never used.
- `_clean_teacher` keeps the value `未知讲师` produced by
  `extract_teacher_from_cell` unless a configured `teacher_blacklist` token
  occurs in it or it overlaps the course name (`UnknownTeacherKept`). It is
  four CJK characters and contains none of the built-in noise tokens. When it
  is kept, `stat_courses` excludes it from the teacher count. When it is
  blanked, the name is re-derived from the source text, or becomes `未安排`,
  which is counted.

## Model

| member | source | states |
|---|---|---|
| WeekRange.StripMarkers | app/course_stat_tool/src/stat_export.py:75 | removing `周` and `第` leaves neither in the text; text without them is unchanged |
| WeekRange.MatchRange | app/course_stat_tool/src/stat_export.py:90 | a match of `^(\d+)-(\d+)$` yields two non-empty digit runs that rebuild the segment around one `-` |
| WeekRange.ParseSegment | app/course_stat_tool/src/stat_export.py:79-101 | a parsed segment is a valid token (range endpoints ordered, single numbers all digits); a single number is the segment or its part before `(`, verbatim |
| WeekRange.Collect | app/course_stat_tool/src/stat_export.py:76-104 | no more tokens than non-empty segments; every token is valid and is what the parser makes of one of the segments |
| WeekRange.ParseWeekTokens | app/course_stat_tool/src/stat_export.py:73-104 | empty input gives no tokens; every token is valid and comes from a segment; no more tokens than non-empty segments |
| WeekRange.ParseWeekNumbers | app/course_stat_tool/src/stat_export.py:66-104 | `parse_week_numbers`: empty input gives `[]`; at most one token per non-empty segment; tokens contain only digits, `-`, parentheses, `单`, `双`, never `周` or `第`; a token without `-` is all digits |
| WeekRange.RenderChars | app/course_stat_tool/src/stat_export.py:95-100 | a rendered token is non-empty, made of token characters, and without `-` only for a single number |
| WeekRange.ParseRender | app/course_stat_tool/src/stat_export.py:79-101 | parsing a rendered token returns the token (round trip, parity suffix included) |
| WeekRange.Render | app/course_stat_tool/src/stat_export.py:95-100 | a range renders as `lo-hi` with the `-` right after the digits of `lo`, and a range with a parity ends in `)`; `ParseRender` reads every rendering back |
| WeekRange.TokensReparse | app/course_stat_tool/src/stat_export.py:66-104 | every output token parsed on its own yields exactly itself |
| WeekRange.RangeSegment | app/course_stat_tool/src/stat_export.py:90-96 | a segment `x-y` becomes the range of its values with the endpoints ordered, so descending input is swapped and leading zeros vanish |
| WeekRange.SingleSegment | app/course_stat_tool/src/stat_export.py:82-100 | a single number is kept verbatim, and a parenthetical after it is dropped without a parity suffix |
| WeekRange.ParenSplit | app/course_stat_tool/src/stat_export.py:82-88 | a segment `base(q)` with `)` in `q` is cut at that `(` and takes its parity from `q` |
| WeekRange.CollectAll | app/course_stat_tool/src/stat_export.py:78-104 | when every segment is non-empty and parses, the output is the segments' tokens in segment order |
| WeekRange.RenderedSegments | app/course_stat_tool/src/stat_export.py:76-104 | input whose segments are rendered tokens parses to exactly those renderings |
| WeekRange.CollectAppend | app/course_stat_tool/src/stat_export.py:78-104 | the loop over segments distributes over concatenation: the tokens of `a + b` are those of `a` followed by those of `b` |
| WeekRange.CollectOne | app/course_stat_tool/src/stat_export.py:79-101 | one segment on its own gives its token, or nothing when it is empty or does not parse |
| WeekRange.CollectDrops | app/course_stat_tool/src/stat_export.py:80-104 | an empty or unparsable segment is skipped silently: the tokens before and after it are kept, in order |
| WeekRange.CollectKeeps | app/course_stat_tool/src/stat_export.py:79-101 | a parsing segment contributes exactly its token, in its place between the tokens before and after it |
| WeekRange.SkippedSegment | app/course_stat_tool/src/stat_export.py:66-104 | when the segments are `a`, a dropped segment, `b`, the output is the renderings of the tokens of `a` followed by those of `b` |
| WeekRange.StripMarkersConcat | app/course_stat_tool/src/stat_export.py:75 | marker removal distributes over concatenation |
| WeekRange.StripMarkersIsReplace | app/course_stat_tool/src/stat_export.py:75 | the one-pass filter equals the two chained `replace` calls, `周` first, then `第` |
| WeekExamples.FullTermExample | app/course_stat_tool/src/stat_export.py:69-70 | `1-16周` gives `['1-16']` |
| WeekExamples.OddWeeksExample | app/course_stat_tool/src/stat_export.py:69-71 | `1-12周(单周)` gives `['1-12(单)']` |
| WeekExamples.SingleWeekExample | app/course_stat_tool/src/stat_export.py:69-70 | `3周` gives `['3']` |
| WeekExamples.ListExample | app/course_stat_tool/src/stat_export.py:69-70 | `1,3,5周` gives `['1','3','5']` |
| WeekExamples.MixedExample | app/course_stat_tool/src/stat_export.py:69-70 | `1-8周,10周` gives `['1-8','10']` |
| WeekExamples.JunkExample | app/course_stat_tool/src/stat_export.py:69-104 | `1-8周,abc,10周` gives `['1-8','10']`: the junk segment is dropped and the order kept |
| Cleaner.NormalizeCourseName | app/course_stat_tool/src/data_cleaner.py:30-39 | empty input gives `""`; the result holds only allow-listed characters, has no surrounding whitespace and is a subsequence of the input |
| Cleaner.NormalizeIdempotent | app/course_stat_tool/src/data_cleaner.py:30-39 | normalising twice equals normalising once |
| Cleaner.NormalizeFixed | app/course_stat_tool/src/data_cleaner.py:37-39 | an already clean, stripped name is its own normal form |
| Cleaner.MaxValue | app/course_stat_tool/src/data_cleaner.py:52-57 | the maximum of the digit runs: no smaller than any run, equal to one of them, 0 for no runs |
| Cleaner.ParseHoursMax | app/course_stat_tool/src/data_cleaner.py:42-57 | `_parse_hours` on text is at least every digit run, equals one of them when there is a digit, and is 0 when there is none |
| Cleaner.ParseHoursBoundsBlocks | app/course_stat_tool/src/data_cleaner.py:49-57 | every digit block inside the text, not only a maximal run, is at most the parsed hours |
| Cleaner.CountHours | app/course_stat_tool/src/data_cleaner.py:44-57 | an integer count parses to its absolute value (`str(-5)` holds the run `5`) |
| Cleaner.IntToString | app/course_stat_tool/src/data_cleaner.py:46 | `str(n)` is the decimal text of `n`, with `-` for negative values |
| Cleaner.ParseHours | app/course_stat_tool/src/data_cleaner.py:42-57 | text hours are the largest digit run: no smaller than any run, equal to one of them when there is a digit, 0 when there is none (integers are covered by `CountHours`) |
| Cleaner.CleanRecord | app/course_stat_tool/src/data_cleaner.py:182-229 | a cleaned record carries the normalised name and the record's key; its teacher and category are non-empty; a present category is kept and an empty one becomes `未知`; hours are parsed from `课时`, or from `课时_标准化` when `课时` is absent; the teacher is `CleanTeacher` of the raw teacher with `来源原文_课程名` (or `来源原文` when that is empty) as source text; file, week, section, location, time period and `来源原文_课程名` are copied, and the sheet is `sheet/页码`, or `sheet名称` when that key is absent |
| Cleaner.Kept | app/course_stat_tool/src/data_cleaner.py:178-195 | the kept positions point at records with a key, and no two of them share a key |
| Cleaner.CleanCourses | app/course_stat_tool/src/data_cleaner.py:167-232 | `clean_courses`: no longer than the input; every output has a name of at least 2 characters, a teacher and a category; no two outputs share `(name, 周次, 节次)` |
| Cleaner.FirstIndices | app/course_stat_tool/src/data_cleaner.py:191-195 | reference: the first occurrences of each key, increasing, and every first occurrence is listed |
| Cleaner.PrefixInvariant | app/course_stat_tool/src/data_cleaner.py:178-195 | the fold's state after any prefix is (first occurrences so far, keys seen so far) |
| Cleaner.SeenStep | app/course_stat_tool/src/data_cleaner.py:192-195 | one step of the seen set: a key is already seen exactly when the record is not its first occurrence |
| Cleaner.CleanCoursesFirstOccurrences | app/course_stat_tool/src/data_cleaner.py:181-230 | the output is the cleaned first occurrences of each key, in input order (first occurrence wins, order preserved) |
| Cleaner.CleanCoursesKeepsEveryKey | app/course_stat_tool/src/data_cleaner.py:181-195 | every record with a kept name has its key represented in the output |
| Cleaner.FirstWithKey | app/course_stat_tool/src/data_cleaner.py:192-194 | every keyed record has an earlier-or-same first occurrence with the same key |
| Cleaner.CleanAtIndex | app/course_stat_tool/src/data_cleaner.py:217-230 | the output at position `k` is the cleaned `k`-th kept record |
| Cleaner.KeptRecords | app/course_stat_tool/src/data_cleaner.py:182-205 | every kept record is well cleaned and carries its own key |
| TeacherCleaner.ScreenRaw | app/course_stat_tool/src/data_cleaner.py:62-79 | a surviving raw value is the stripped input and has the 2-6 name-character shape |
| TeacherCleaner.ScreenRawIff | app/course_stat_tool/src/data_cleaner.py:69-79 | the raw value survives exactly when it is non-empty, not blacklisted, not noisy, digit-free, at most 30 characters, not overlapping the course name and name-shaped |
| TeacherCleaner.TidySpacing | app/course_stat_tool/src/data_cleaner.py:96-97 | the result is no longer than the input and has no whitespace but the plain space |
| TeacherCleaner.Preclean | app/course_stat_tool/src/data_cleaner.py:83-98 | `_preclean_source_text` never lengthens its input and leaves only plain spaces |
| TeacherCleaner.PrecleanInert | app/course_stat_tool/src/data_cleaner.py:83-98 | text whose characters start none of the patterns (no `未`, `/`, `2`, `-`, `(` or whitespace), such as a bare Chinese name, comes through `_preclean_source_text` unchanged |
| TeacherCleaner.ClassTagMatched | app/course_stat_tool/src/data_cleaner.py:89 | a tag `/23…本` with at most 19 class characters between `23` and `本` is matched whole |
| TeacherCleaner.PrecleanClassTag | app/course_stat_tool/src/data_cleaner.py:83-98 | a name followed by a class tag `/23…本` pre-cleans to the bare name |
| TeacherCleaner.PrecleanSectionNote | app/course_stat_tool/src/data_cleaner.py:83-98 | a name followed by the section note `(1-2节)` pre-cleans to the bare name: the note is removed at line 91 and the earlier patterns leave it alone |
| TeacherCleaner.ClassTagExample | app/course_stat_tool/src/data_cleaner.py:83-98 | `张三/23计算机本` pre-cleans to `张三` |
| TeacherCleaner.SectionNoteExample | app/course_stat_tool/src/data_cleaner.py:83-98 | `李四(1-2节)` pre-cleans to `李四` |
| TeacherCleaner.Parts | app/course_stat_tool/src/data_cleaner.py:102 | every part is non-empty and stripped, and holds none of the separators `\n` `/` `;` `；` `|` |
| TeacherCleaner.SubAllChars | app/course_stat_tool/src/data_cleaner.py:87-94 | every character `re.sub` produces comes from the input or the replacement |
| TeacherCleaner.ClassYearMatch | app/course_stat_tool/src/data_cleaner.py:89 | a match ends in `本` and follows `23` with at most 21 class characters from there on |
| TeacherCleaner.DashCodeMatch | app/course_stat_tool/src/data_cleaner.py:90 | there is a match exactly when `-` is followed by at least three digits, and it takes the whole digit run |
| TeacherCleaner.SectionParenMatch | app/course_stat_tool/src/data_cleaner.py:91 | a match starts with `(` and a digit and ends in `节)` |
| TeacherCleaner.ParenMatch | app/course_stat_tool/src/data_cleaner.py:92 | a match is the shortest `(...)` on one line; a `(` whose every later `)` comes after a newline gives none |
| TeacherCleaner.TrailingClassMatch | app/course_stat_tool/src/data_cleaner.py:94 | a match is `/` followed by 1 to 20 class characters that run to the end of the text or to a final newline |
| TeacherCleaner.StrippedNonEmpty | app/course_stat_tool/src/data_cleaner.py:102 | the kept parts are non-empty, stripped, and no more than the pieces |
| TeacherCleaner.NameChunks | app/course_stat_tool/src/data_cleaner.py:106 | every chunk found has the 2-6 name-character shape and occurs in the part |
| TeacherCleaner.AdmissibleOnly | app/course_stat_tool/src/data_cleaner.py:107-120 | exactly the admissible chunks are kept, in their order: the result is a subsequence of the chunks; none outside the course name filter, blacklist, noise list, digit test and length bounds gets through, and none passing them is lost |
| TeacherCleaner.Candidates | app/course_stat_tool/src/data_cleaner.py:102-120 | every candidate is admissible and name-shaped |
| TeacherCleaner.NameChunksStep | app/course_stat_tool/src/data_cleaner.py:106 | the scan is leftmost and greedy: a run of two or more name characters yields its first six or fewer characters and the scan goes on after them; any other position is skipped |
| TeacherCleaner.RunStops | app/course_stat_tool/src/data_cleaner.py:106 | a run of name characters ends at the first character outside the class |
| TeacherCleaner.NameChunksSplit | app/course_stat_tool/src/data_cleaner.py:106 | a character outside the name class separates the matches: the chunks of `a + c + b` are the chunks of `a` followed by those of `b` |
| TeacherCleaner.NameChunksRun | app/course_stat_tool/src/data_cleaner.py:106 | within one run of name characters: under two characters give no chunk, two to six give the run itself, longer runs give their first six characters and then the chunks of the rest |
| TeacherCleaner.NameChunksIsolated | app/course_stat_tool/src/data_cleaner.py:106 | a run of two to six name characters between two other characters is found whole, in place between the chunks before and after it |
| TeacherCleaner.AdmissibleOnlyAppend | app/course_stat_tool/src/data_cleaner.py:107-120 | filtering two lists of chunks in turn filters their concatenation |
| TeacherCleaner.AdmissibleSingle | app/course_stat_tool/src/data_cleaner.py:107-120 | an admissible chunk on its own is kept |
| TeacherCleaner.CandidatesAppend | app/course_stat_tool/src/data_cleaner.py:103-104 | the candidates of two lists of parts are those of the first list followed by those of the second |
| TeacherCleaner.CandidatesOne | app/course_stat_tool/src/data_cleaner.py:103-120 | one part contributes its admissible chunks, in the order found |
| TeacherCleaner.NameParts | app/course_stat_tool/src/data_cleaner.py:102 | a text of name characters is one part |
| TeacherCleaner.FilteredSingle | app/course_stat_tool/src/data_cleaner.py:138-147 | a single candidate is kept by the department filter or restored by its fallback |
| TeacherCleaner.SingleNameCandidates | app/course_stat_tool/src/data_cleaner.py:102-120 | a text that is a single admissible name-shaped part is its own only candidate |
| TeacherCleaner.ClassTagRederived | app/course_stat_tool/src/data_cleaner.py:60-164 | with the raw value rejected, a source text `name/23…本` whose name is admissible gives that name when it is a valid name and `未安排` otherwise |
| TeacherCleaner.RederiveExample | app/course_stat_tool/src/data_cleaner.py:60-164 | with no raw teacher, the source text `张三/23计算机本` of the course `高等数学` gives `张三` under an empty configuration |
| TeacherCleaner.DeptFiltered | app/course_stat_tool/src/data_cleaner.py:138-145 | the filtered candidates are an order-preserving subsequence, free of department tokens |
| TeacherCleaner.FilteredFallback | app/course_stat_tool/src/data_cleaner.py:138-147 | the filter keeps a subsequence; when it would remove every candidate the unfiltered list is used; otherwise no kept candidate holds a department token |
| TeacherCleaner.LastValid | app/course_stat_tool/src/data_cleaner.py:122-136 | reference: the last valid name of a list, `None` exactly when no entry is valid |
| TeacherCleaner.ChooseLoopFinds | app/course_stat_tool/src/data_cleaner.py:151-156 | the loop over the reversed list stops at the first valid name; when there is none, whatever it holds is not valid |
| TeacherCleaner.FirstOfReverse | app/course_stat_tool/src/data_cleaner.py:151 | the first valid name of the reversed list is the last valid name |
| TeacherCleaner.Choose | app/course_stat_tool/src/data_cleaner.py:149-163 | the choice after re-validation is the last valid candidate (the reference `LastValid`), or `""` when none is valid |
| TeacherCleaner.Derive | app/course_stat_tool/src/data_cleaner.py:100-163 | the re-derived name is `""` without candidates, otherwise the last valid name of the department-filtered candidates, or `""`; any name it returns is a valid 2-4 character name |
| TeacherCleaner.CleanTeacher | app/course_stat_tool/src/data_cleaner.py:60-164 | `_clean_teacher` never returns `""`; the result is `未安排` or a 2-6 character name over CJK ideographs and `·•` |
| TeacherCleaner.KeptRaw | app/course_stat_tool/src/data_cleaner.py:62-79 | a surviving raw value is returned stripped, whatever the source text says |
| TeacherCleaner.DiscardedLikeEmpty | app/course_stat_tool/src/data_cleaner.py:69-82 | a discarded raw value behaves exactly like an empty one |
| TeacherCleaner.Rederived | app/course_stat_tool/src/data_cleaner.py:82-164 | without a surviving raw value the result is the re-derived name, or `未安排` when the source text is empty or yields none |
| TeacherCleaner.UnknownTeacherKept | app/course_stat_tool/src/data_cleaner.py:62-79 | `未知讲师` survives the screens exactly when no configured blacklist token occurs in it and it does not overlap the course name; it then comes back unchanged |
| TimePeriod.InferAsWritten | app/course_stat_tool/gui_run.py:214-223 | the period inferred as written: one of the three periods, and none exactly when no token list occurs in the section |
| TimePeriod.NineTenAsWritten | app/course_stat_tool/gui_run.py:215-216 | as written, section `9-10` is inferred as `上午` |
| TimePeriod.InferFromSection | app/course_stat_tool/gui_run.py:214-223 | the intended inference: one of the three periods, only for a section containing a digit |
| TimePeriod.NineTenIntended | app/course_stat_tool/gui_run.py:221-223 | as intended, section `9-10` is `晚上` |
| TimePeriod.InferAgrees | app/course_stat_tool/gui_run.py:214-223 | for sections whose numbers are single digits, the intended and the written inference agree |
| TimePeriod.MorningAgrees | app/course_stat_tool/gui_run.py:215 | on single-digit sections, the morning list occurs exactly when a number is in 1..4 |
| TimePeriod.AfternoonAgrees | app/course_stat_tool/gui_run.py:218 | on single-digit sections, the afternoon list occurs exactly when a number is in 5..8 |
| TimePeriod.EveningAgrees | app/course_stat_tool/gui_run.py:221 | on single-digit sections, the evening list occurs exactly when a number is in 9..10 |
| TimePeriod.FirstHour | app/course_stat_tool/gui_run.py:95-97 | the first 1-2 digit hour: absent exactly when there is no digit, and at most 99 |
| TimePeriod.ClockHour | app/course_stat_tool/gui_run.py:95-97 | a clock `hh:mm` yields the hour `hh` |
| TimePeriod.HourPeriod | app/course_stat_tool/gui_run.py:98-103 | 6-11 is morning, 12-17 afternoon, every other hour evening (each both ways) |
| TimePeriod.NormalizeTimePeriod | app/course_stat_tool/gui_run.py:71-105 | the result is always one of `上午` `下午` `晚上` `未知时段`; with no period written, the period inferred from the section by the substring test as written, or `未知时段` |
| TimePeriod.NormalizeTimePeriodIntended | app/course_stat_tool/gui_run.py:71-105 | the same with the intended section inference: a written period is classified as before, otherwise the intended inference or `未知时段` |
| TimePeriod.IntendedAgrees | app/course_stat_tool/gui_run.py:73-80 | on sections whose numbers are single digits the intended and the written normalisation agree |
| TimePeriod.NineTenPeriods | app/course_stat_tool/gui_run.py:73-80 | with no period written, section `9-10` is `上午` as written and `晚上` as intended |
| TimePeriod.TwelveAsWritten | app/course_stat_tool/gui_run.py:74-75 | as written, section `12` is inferred as `上午` (it contains `1`); the intended inference finds no period for it |
| TimePeriod.SectionIgnored | app/course_stat_tool/gui_run.py:73 | a written period makes the section irrelevant |
| TimePeriod.DigitNeverUnknown | app/course_stat_tool/gui_run.py:95-103 | a period text holding a digit is never classified `未知时段` |
| TimePeriod.ClockOnly | app/course_stat_tool/gui_run.py:86-105 | without a keyword character the result is decided by the hour alone |
| TimePeriod.MorningKeywords | app/course_stat_tool/gui_run.py:86-88 | a stripped text containing `上午` or `早` is morning, whatever else it contains |
| TimePeriod.AfternoonKeywords | app/course_stat_tool/gui_run.py:86-90 | without `上午` and `早`, a text containing `下午` or `午` is afternoon, even when it also says `晚` or `夜` |
| TimePeriod.EveningKeywords | app/course_stat_tool/gui_run.py:86-92 | without any of `上午` `早` `下午` `午`, a text containing `晚` or `夜` is evening |
| TimePeriod.MidnightIsAfternoon | app/course_stat_tool/gui_run.py:89-90 | `午夜` (midnight) is classified `下午`, because the `午` test comes before the `夜` test |
| TimePeriod.ClockExample | app/course_stat_tool/gui_run.py:94-103 | a clock `hh:mm` is classified by the hour `hh` |
| TimePeriod.ClockExamples | app/course_stat_tool/gui_run.py:94-103 | `08:00` is morning, `14:30` afternoon, `19:00` evening |
| CellTeacher.LabelAt | app/course_stat_tool/gui_run.py:31-35 | a labelled value found at a position follows the label and a colon, is non-empty and occurs in the text |
| CellTeacher.LabelSearch | app/course_stat_tool/gui_run.py:33 | `re.search`: none exactly when no position matches, otherwise the leftmost match |
| CellTeacher.FromLabels | app/course_stat_tool/gui_run.py:31-37 | the labels are tried in the order `讲师` `教师` `授课人`: the `讲师` value when there is one, else the `教师` value, else the `授课人` value; none exactly when no label matches; a value found is non-empty and occurs in the text |
| CellTeacher.CutParenTail | app/course_stat_tool/gui_run.py:57 | for text not ending in a newline, cutting the parenthetical tail leaves a piece of it |
| CellTeacher.CutParenTailOneLine | app/course_stat_tool/gui_run.py:57 | on one line, the cut keeps exactly the text before the first parenthesis |
| CellTeacher.IsName | app/course_stat_tool/gui_run.py:42-52 | a text that passes `is_name` has no digit anywhere and a character that is not whitespace |
| CellTeacher.Candidate | app/course_stat_tool/gui_run.py:55-57 | the candidate taken from a piece occurs in that piece |
| CellTeacher.TailAt | app/course_stat_tool/gui_run.py:62 | a tail match starts at `:` `：` or `/`, and its value is non-empty, in the text and not ending in a newline |
| CellTeacher.TailSearch | app/course_stat_tool/gui_run.py:62 | the tail search finds nothing exactly when no separator position matches |
| CellTeacher.FromPieces | app/course_stat_tool/gui_run.py:54-59 | a result passes `is_name` and occurs in the text; there is none exactly when no piece of the split passes `is_name` |
| CellTeacher.FromTail | app/course_stat_tool/gui_run.py:61-66 | the trailing value, cut at a remark, when it passes `is_name` (and then it occurs in the text); `未知讲师` otherwise |
| CellTeacher.ExtractTeacherFromCell | app/course_stat_tool/gui_run.py:23-68 | never `""`; `未知讲师` for empty text; a labelled value wins over every other rule, then the first piece that passes `is_name`, then the trailing value; the result is `未知讲师` or occurs in the cell text, and without a label it is `未知讲师` or passes `is_name` |
| CellTeacher.NoColonNoLabel | app/course_stat_tool/gui_run.py:31-37 | text without a colon has no labelled value |
| CellTeacher.PlainCandidate | app/course_stat_tool/gui_run.py:55-57 | a bare word is its own candidate |
| CellTeacher.RemarkCandidate | app/course_stat_tool/gui_run.py:56-57 | `张三(主讲)`-style pieces lose the parenthetical remark |
| CellTeacher.ThreePieces | app/course_stat_tool/gui_run.py:41 | `a/b/c` splits into its three pieces |
| CellTeacher.CourseNotName | app/course_stat_tool/gui_run.py:47-48 | `高等数学` is rejected by `is_name` |
| CellTeacher.TwoCharName | app/course_stat_tool/gui_run.py:42-52 | any two CJK characters without `本`, other than `数学`, pass `is_name` |
| CellTeacher.JoinedNoColon | app/course_stat_tool/gui_run.py:31-37 | three colon-free pieces joined by `/` have no labelled value |
| CellTeacher.CourseTeacherClass | app/course_stat_tool/gui_run.py:39-59 | in `course/teacher/class` with a course that is not a name, the teacher is returned |
| CellTeacher.ByCandidate | app/course_stat_tool/gui_run.py:54-59 | without a label, a qualifying piece gives the result: the first such piece's candidate |
| CellTeacher.SlashExample | app/course_stat_tool/gui_run.py:39-59 | `高等数学/张三/23计算机本` gives `张三` |
| CellTeacher.LabelledTeacher | app/course_stat_tool/gui_run.py:31-37 | `讲师：name` gives `name` whatever follows the value |
| PdfTable.CellText | app/course_stat_tool/gui_run.py:198-202 | a missing cell or a placeholder reads as empty; anything else is stripped |
| PdfTable.CarryStep | app/course_stat_tool/gui_run.py:202-223 | a written period is used and remembered; a blank cell reuses a non-empty memory; with neither, the period inferred from the section by the substring test as written is used and remembered, else `未知时段` with the memory left empty; the memory never empties |
| PdfTable.CarryStepIntended | app/course_stat_tool/gui_run.py:202-223 | the same step with the intended section inference; it differs from `CarryStep` only when both the cell and the memory are empty |
| PdfTable.CarryAgrees | app/course_stat_tool/gui_run.py:212-223 | on sections whose numbers are single digits the intended and the written step agree |
| PdfTable.TwelveCarried | app/course_stat_tool/gui_run.py:212-216 | a blank row with section `12` and an empty memory sets the memory to `上午` as written, and leaves it empty as intended |
| PdfTable.Track | app/course_stat_tool/gui_run.py:187-223 | one period per row, never empty |
| PdfTable.MemoryStays | app/course_stat_tool/gui_run.py:205-210 | once the memory is set it stays set for the rest of the page |
| PdfTable.MemoryEmptyIff | app/course_stat_tool/gui_run.py:187-223 | the memory is still empty after row `k` exactly when no row up to `k` wrote a period or had a section that the substring test as written maps to a period |
| PdfTable.LongRows | app/course_stat_tool/gui_run.py:194-195 | every kept row has at least 3 cells and comes from the input |
| PdfTable.LongRowsKeeps | app/course_stat_tool/gui_run.py:194-195 | every row of at least 3 cells is kept, so a row is kept exactly when it is long enough |
| PdfTable.LongRowsAppend | app/course_stat_tool/gui_run.py:191-195 | the filter keeps the order: the long rows of `a + b` are those of `a` followed by those of `b` |
| PdfTable.BodyRows | app/course_stat_tool/gui_run.py:191-195 | the body rows of a table have at least 3 cells |
| PdfTable.HeaderSkipped | app/course_stat_tool/gui_run.py:191-195 | row 0 is skipped however long it is, and the rows below it are filtered by length only |
| PdfTable.PageRows | app/course_stat_tool/gui_run.py:190-195 | the body rows of all tables of a page have at least 3 cells |
| PdfTable.Heads | app/course_stat_tool/gui_run.py:198-202 | one (period, section) head per row, read from columns 0 and 1 |
| PdfTable.CourseCellText | app/course_stat_tool/gui_run.py:230-232 | a missing cell reads as `""`, a present one as a stripped piece of it; the text is never the single space, so that entry of the blank list never applies |
| PdfTable.FilledDays | app/course_stat_tool/gui_run.py:226-232 | the weekday indices from `d` on whose column exists and holds a non-blank cell, all of them, in increasing order; none exactly when no such column is filled |
| PdfTable.CourseName | app/course_stat_tool/gui_run.py:235-236 | the course name is `未知课程` or a piece of the cell free of `★☆◆◇(（` |
| PdfTable.NameBeforeMark | app/course_stat_tool/gui_run.py:235-236 | the name is the stripped text before the first mark |
| PdfTable.RangeTail | app/course_stat_tool/gui_run.py:237 | a `\d+-\d+周` match ends in a digit followed by `周` |
| PdfTable.WeekMatch | app/course_stat_tool/gui_run.py:237 | a week match at a position contains a digit directly followed by `周` |
| PdfTable.WeekSearch | app/course_stat_tool/gui_run.py:237 | the leftmost week match, none exactly when no position matches |
| PdfTable.Week | app/course_stat_tool/gui_run.py:237-238 | the week is `未知周次` or a non-empty piece of the cell |
| PdfTable.WeekFoundIff | app/course_stat_tool/gui_run.py:237-238 | a week is found exactly when some `周` directly follows a digit |
| PdfTable.DigitThenWeek | app/course_stat_tool/gui_run.py:237 | a digit followed by `周` matches |
| PdfTable.LocationAt | app/course_stat_tool/gui_run.py:239 | a location match is a `/`-free piece of the cell |
| PdfTable.LocationSearch | app/course_stat_tool/gui_run.py:239 | the leftmost `/(.*?)/` match, none exactly when no position matches |
| PdfTable.Location | app/course_stat_tool/gui_run.py:239-240 | the location is `未知地点` or a `/`-free piece of the cell |
| PdfTable.LocationBetween | app/course_stat_tool/gui_run.py:239-240 | the location is the stripped text between the first two slashes |
| PdfTable.ClassHours | app/course_stat_tool/gui_run.py:241 | hours are 2 exactly when the section has `-`, 1 exactly when it is all digits without `-`, otherwise 0 |
| PdfTable.CellCourse | app/course_stat_tool/gui_run.py:235-262 | the record's teacher is `extract_teacher_from_cell` of the cell, its hours are the class hours of the section, and its category is the weekday, `-`, and the normalised period |
| PdfTable.SheetLabel | app/course_stat_tool/gui_run.py:253 | the label is `第`, the page number in decimal, `页-` and the weekday |
| PdfTable.SheetLabelPage | app/course_stat_tool/gui_run.py:253 | reading the page number back from a label gives the page, so records of different pages never share a label |
| PdfTable.DayCourses | app/course_stat_tool/gui_run.py:226-232 | at most one record per remaining weekday, none for columns the row lacks |
| PdfTable.DayCoursesContent | app/course_stat_tool/gui_run.py:226-262 | the records of a row are the `CellCourse` of each filled weekday column, one each, in column order; blank and missing columns are skipped |
| PdfTable.BlankDays | app/course_stat_tool/gui_run.py:230-232 | a row whose weekday cells are all blank yields nothing |
| PdfTable.PageCourses | app/course_stat_tool/gui_run.py:186-262 | a page gives at most seven records per body row |
| PdfTable.PageCoursesByRow | app/course_stat_tool/gui_run.py:186-262 | a page's records are the records of its body rows, row after row, each row read with the period and memory the carry-forward gives it |
| PdfTable.RowsWithFlat | app/course_stat_tool/gui_run.py:189-262 | reading rows one after another is the concatenation of each row's records |
| PdfTable.PagesWithAppend | app/course_stat_tool/gui_run.py:181 | reading pages one by one: a further page only appends its own output |
| PdfTable.PagesAppend | app/course_stat_tool/gui_run.py:181-187 | adding a page adds exactly that page's records, read with an empty memory |
| PdfTable.ParsePdf | app/course_stat_tool/gui_run.py:178-262 | no pages give no records, and a single page gives that page's records, numbered 1, read with an empty memory |
| HeaderMatch.StripAll | app/course_stat_tool/gui_run.py:142 | every column name is stripped, none lost |
| HeaderMatch.MatchColumn | app/course_stat_tool/gui_run.py:147-150 | none exactly when no column contains an alias; otherwise the first column that does |
| HeaderMatch.MatchColumns | app/course_stat_tool/gui_run.py:145-150 | only configured fields are matched; a field is matched exactly when some stripped column contains one of its aliases, and then to the first such column |
| HeaderMatch.AliasColumnMatches | app/course_stat_tool/gui_run.py:147-150 | a column named exactly by an alias guarantees a match |
| Stats.Valid | app/course_stat_tool/gui_run.py:289 | exactly the records with hours above zero are kept |
| Stats.Summarize | app/course_stat_tool/gui_run.py:291-319 | one course per record; the teacher and category distributions count each record once and the week distribution at least once; the teacher count is the number of distinct named teachers in the teacher distribution (`""` and `未知讲师` left out), and the category and week counts are the numbers of distinct keys of their distributions; the teacher and category distributions hold exactly the records' teachers and categories; the total hours are the records' hours summed, at least one per record when every record has hours |
| Stats.StatCourses | app/course_stat_tool/gui_run.py:271-320 | `None` exactly for no records; category and teacher distributions count each valid record once; the week distribution counts at least once per valid record; the teacher and category counts are at most the total; the total hours are the summed hours of the valid records and at least the number of courses |
| Stats.SumHoursAppend | app/course_stat_tool/gui_run.py:313 | the total hours of two runs of records add up |
| Stats.HoursAtLeastCount | app/course_stat_tool/gui_run.py:313 | records of at least one hour each total at least their number |
| Stats.CategoriesOf | app/course_stat_tool/gui_run.py:296 | a category is in the category distribution iff some valid record carries it |
| Stats.CountsMatch | app/course_stat_tool/gui_run.py:296-318 | the teacher and category distributions each sum to the number of valid records |
| Stats.WeekTallyAtLeast | app/course_stat_tool/gui_run.py:299-308 | every valid record adds at least one week key |
| Stats.SupportBound | app/course_stat_tool/gui_run.py:315-316 | there are no more distinct values than counted values |
| Stats.NamedTeachersBound | app/course_stat_tool/gui_run.py:292-293 | there are no more distinct named teachers than teacher entries |
| Stats.ZeroHoursIgnored | app/course_stat_tool/gui_run.py:289 | appending a record without hours leaves the summary unchanged |
| Stats.ValidRecordCounted | app/course_stat_tool/gui_run.py:289-319 | appending a record with hours adds one course, its hours, its teacher, its category and its week keys (`未知周次` when none parse) |
| Stats.TeacherCounted | app/course_stat_tool/gui_run.py:292-293 | a valid record's named teacher is counted, and `""` and `未知讲师` never are |
| Stats.TeacherFromRecord | app/course_stat_tool/gui_run.py:292-293 | every counted teacher is the named teacher of some record with hours |
| Stats.ValidSource | app/course_stat_tool/gui_run.py:289 | every valid record comes from the input and has hours |

## Left out

- The Tk GUI (`CourseParserGUI`), dialogs and logging are user interface, not logic.
- Configuration loading (`load_config`, `_load_config`, the module-level opens) is I/O; the lists are a `CleanerConfig` parameter.
- Reading spreadsheets and PDFs (pandas, pdfplumber) is library I/O. A PDF page is given as its tables of optional cell strings.
- `file_parser.py`, the Excel and CSV writers, and the driver scripts are outside the modelled core.
- The spreadsheet branch is modelled only as far as its header-alias match. Building its records (the `未知` and `未分类` defaults) is a plain dict literal.
- The `来源标识` (source id) field is left out of the records, because no later stage reads it.
- The exception fallback of `clean_courses` is left out. `_parse_hours` is total over strings and integers.
- Numeric coercion is left out: float hours, `pd.to_numeric` and `astype(int)`. Hours are text or integers, and cleaned hours are natural numbers.
- `stat_courses` also returns the data frame. Only the statistics are modelled.
- A `None` time period is modelled as `""`. Both `str(None)` and `""` end in `未知时段`.
- `\d` is modelled as ASCII `0-9`; Python also matches other Unicode decimal digits.
- `\w` is approximated as ASCII letters, digits, `_` and the CJK ideographs U+4E00-U+9FFF.
- The course-name allow-list is fixed at ASCII letters and digits, the CJK ideographs, the listed punctuation and whitespace. The `regex` library's `\p{L}\p{N}` would also keep letters of other scripts.
- `.lower()` on the blacklists is left out. The tokens are taken as already lower-case, since CJK text has no case.
- CellTeacher.ExtractTeacherFromCell: a labelled value is returned without the `is_name` check, as in the source, so the contract does not promise `is_name` for it.
- PdfTable.CellCourse: the contract covers teacher, hours and category. Name, week and location are stated by `CourseName`, `Week` and `Location`, which it calls.
- PdfTable.PageCourses: its own contract bounds the record count. The content of a page is stated by `PageCoursesByRow`, `DayCoursesContent` and `CarryStep`.
- PdfTable.ParsePdf: its own contract covers no pages and one page. Further pages are stated by `PagesAppend`.
- PdfTable.IsBlankCell is a plain predicate over the blank list. Its effect is stated by `FilledDays` and `DayCoursesContent`.

## Findings

| source | as written | input that shows it | evidently intended | confidence | as-written member | corrected member |
|---|---|---|---|---|---|---|
| app/course_stat_tool/gui_run.py:214-223 | the period is inferred from a section by substring tests against `["1","2","3","4","1-2","3-4"]` first, so any section containing the character `1` is morning | section `9-10` (also `10`) with no written period gives `上午` | the lists name section numbers: `9-10` is the evening double period and should give `晚上` | not executed | TimePeriod.NineTenAsWritten | TimePeriod.NineTenIntended |

The same substring test appears at `gui_run.py:73-80` in `normalize_time_period`.
The operational members follow the code as written: `TimePeriod.NormalizeTimePeriod`,
`PdfTable.CarryStep` and `PdfTable.Supplies` use `TimePeriod.InferAsWritten`.
The corrected half lives beside them:

- `TimePeriod.InferFromSection`;
- `TimePeriod.NormalizeTimePeriodIntended`;
- `PdfTable.CarryStepIntended`.

`TimePeriod.InferAgrees`, `TimePeriod.IntendedAgrees` and `PdfTable.CarryAgrees`
show that the two versions agree on every section whose numbers are single
digits. `TimePeriod.TwelveAsWritten` and `PdfTable.TwelveCarried` show where they
part for the section `12`.
