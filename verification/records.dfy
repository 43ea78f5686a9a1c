/** The records that flow through the pipeline.  A course record is a
    dictionary keyed by Chinese column names; here each column is a field.
    A key whose absence changes behaviour (a `.get` with a fall-back to another
    key) is an `Option`; every other missing string key reads as "". */
module Records {
  import opened TextUtil

  /** A raw `课时` value: a number from a spreadsheet cell or free text. */
  datatype RawHours = Count(n: int) | Text(s: string)

  /** One record as the parsers produce it (before cleaning). */
  datatype RawCourse = RawCourse(
    sourceFile: string,            // 文件来源
    sheetOrPage: Option<string>,   // sheet/页码, when the key is present
    sheetName: string,             // sheet名称
    name: string,                  // 课程名称
    teacher: string,               // 讲师
    hours: Option<RawHours>,       // 课时, when the key is present
    standardHours: Option<RawHours>, // 课时_标准化, when the key is present
    category: string,              // 分类
    week: string,                  // 周次
    location: string,              // 地点
    section: string,               // 节次
    timePeriod: string,            // 时间段
    sourceNameText: string,        // 来源原文_课程名
    sourceText: string             // 来源原文
  )

  /** One record after cleaning: only the core fields are kept. */
  datatype CleanCourse = CleanCourse(
    sourceFile: string,
    sheet: string,
    name: string,
    teacher: string,
    hours: nat,
    category: string,
    week: string,
    location: string,
    section: string,
    timePeriod: string,
    sourceNameText: string
  )

  /** The optional lists of the configuration file, passed in explicitly.
      Tokens are taken as already lower-case. */
  datatype CleanerConfig = CleanerConfig(
    teacherBlacklist: seq<string>,
    departmentBlacklist: seq<string>,
    nameWhitelist: seq<string>
  )

  /** The deduplication key of `clean_courses`: (name, 周次, 节次). */
  datatype CourseKey = CourseKey(name: string, week: string, section: string)
}
