/** The week-range parser `parse_week_numbers`
    (app/course_stat_tool/src/stat_export.py).  A free-text week descriptor
    such as "1-8周,10周" or "1-12周(单周)" becomes a list of interval tokens,
    which the aggregation uses as bucket keys.

    Tokens are kept structured (`WeekToken`) and rendered to the program's
    strings by `Render`; `ParseWeekNumbers` is the string-level operation. */
module WeekRange {
  import opened TextUtil

  /** The parity marker of a range: every week, odd weeks (单) or even weeks (双). */
  datatype Parity = Every | Odd | Even

  /** A range "a-b" (endpoints re-rendered as integers) or a single week number
      kept verbatim. */
  datatype WeekToken = Range(lo: nat, hi: nat, parity: Parity) | Single(digits: string)

  /** The invariant every parsed token satisfies. */
  predicate ValidToken(t: WeekToken)
  {
    match t
    case Range(lo, hi, _) => lo <= hi
    case Single(d) => |d| >= 1 && AllDigits(d)
  }

  function ParitySuffix(p: Parity): string
  {
    match p
    case Every => ""
    case Odd => "(单)"
    case Even => "(双)"
  }

  /** The token as `parse_week_numbers` writes it: `lo-hi` plus the parity
      suffix for a range, the digits for a single number.  `ParseRender`
      reads it back. */
  function Render(t: WeekToken): (r: string)
    ensures t.Range? ==> |r| >= 3 && |NatToString(t.lo)| < |r| && r[|NatToString(t.lo)|] == '-'
    ensures t.Range? && t.parity != Every ==> r[|r| - 1] == ')'
  {
    match t
    case Range(lo, hi, p) =>
      var a := NatToString(lo);
      var r := a + "-" + NatToString(hi) + ParitySuffix(p);
      assert r[|a|] == '-';
      r
    case Single(d) => d
  }

  /** The separator class `[，,；;\s]`. */
  predicate IsWeekSep(c: char)
  {
    c == '，' || c == ',' || c == '；' || c == ';' || IsSpace(c)
  }

  predicate IsOpenParen(c: char) { c == '(' }

  predicate IsDash(c: char) { c == '-' }

  predicate IsMarker(c: char) { c == '周' || c == '第' }

  /** `s.replace('周', '').replace('第', '')`: every marker character dropped,
      the rest kept in order. */
  function StripMarkers(s: string): (r: string)
    ensures '周' !in r && '第' !in r
    ensures ('周' !in s && '第' !in s) ==> r == s
    decreases |s|
  {
    if s == [] then []
    else
      var rest := StripMarkers(s[1..]);
      if IsMarker(s[0]) then rest
      else
        assert s == [s[0]] + s[1..];
        [s[0]] + rest
  }

  /** The segments between separators (empty ones included; the parser skips them). */
  function Segments(s: string): seq<string>
  {
    SplitOn(StripMarkers(s), IsWeekSep)
  }

  function NonEmptyCount(segs: seq<string>): nat
  {
    if segs == [] then 0 else (if segs[0] == "" then 0 else 1) + NonEmptyCount(segs[1..])
  }

  /** The parity named inside a parenthetical: 单 wins over 双. */
  function ParityOf(paren: string): Parity
  {
    if '单' in paren then Odd else if '双' in paren then Even else Every
  }

  /** When the segment holds both '(' and ')', it is cut at the first '(' and the
      parity is read from what follows; otherwise it is left whole. */
  function SplitParity(p: string): (string, Parity)
  {
    if '(' in p && ')' in p then
      var i := FirstIndex(p, IsOpenParen);
      (p[..i], ParityOf(p[i + 1..]))
    else
      (p, Every)
  }

  /** `^(\d+)-(\d+)$`: both sides of the first '-' are non-empty digit runs. */
  function MatchRange(b: string): (r: Option<(string, string)>)
    ensures r.Some? ==> |r.value.0| >= 1 && AllDigits(r.value.0) && |r.value.1| >= 1 && AllDigits(r.value.1)
    ensures r.Some? ==> b == r.value.0 + "-" + r.value.1
  {
    var i := FirstIndex(b, IsDash);
    if 0 < i < |b| - 1 && AllDigits(b[..i]) && AllDigits(b[i + 1..]) then
      assert b == b[..i] + "-" + b[i + 1..];
      Some((b[..i], b[i + 1..]))
    else
      None
  }

  /** One segment: a range (endpoints ordered), a single number, or nothing. */
  function ParseSegment(p: string): (r: Option<WeekToken>)
    ensures r.Some? ==> ValidToken(r.value)
    ensures r.Some? && r.value.Single? ==> r.value.digits == p || r.value.digits == SplitParity(p).0
  {
    var (base, parity) := SplitParity(p);
    match MatchRange(base)
    case Some((x, y)) =>
      var a, b := DigitsValue(x), DigitsValue(y);
      if a > b then Some(Range(b, a, parity)) else Some(Range(a, b, parity))
    case None =>
      if |base| >= 1 && AllDigits(base) then Some(Single(base)) else None
  }

  /** What one segment gives: nothing when it is empty or does not parse,
      its token otherwise. */
  function SegmentTokens(p: string): seq<WeekToken>
  {
    if p == "" then [] else match ParseSegment(p) {
      case Some(t) => [t]
      case None => []
    }
  }

  /** The tokens of the non-empty segments, in segment order. */
  function Collect(segs: seq<string>): (toks: seq<WeekToken>)
    ensures |toks| <= NonEmptyCount(segs)
    ensures forall k :: 0 <= k < |toks| ==> ValidToken(toks[k])
    ensures forall k :: 0 <= k < |toks| ==> FromSegment(toks[k], segs)
  {
    if segs == [] then []
    else
      var head := SegmentTokens(segs[0]);
      var rest := Collect(segs[1..]);
      assert forall k :: 0 <= k < |rest| ==> FromSegment(rest[k], segs) by {
        forall k | 0 <= k < |rest| ensures FromSegment(rest[k], segs) {
          var j :| 0 <= j < |segs[1..]| && ParseSegment(segs[1..][j]) == Some(rest[k]);
          assert segs[j + 1] == segs[1..][j];
        }
      }
      head + rest
  }

  /** `t` is what the parser makes of one of the segments. */
  predicate FromSegment(t: WeekToken, segs: seq<string>)
  {
    exists j :: 0 <= j < |segs| && ParseSegment(segs[j]) == Some(t)
  }

  /** The segments are handled one by one: the tokens of `a + b` are those
      of `a` followed by those of `b`. */
  lemma {:induction false} CollectAppend(a: seq<string>, b: seq<string>)
    ensures Collect(a + b) == Collect(a) + Collect(b)
    decreases |a|
  {
    if a == [] {
      assert a + b == b;
    } else {
      assert (a + b)[0] == a[0] && (a + b)[1..] == a[1..] + b;
      CollectAppend(a[1..], b);
    }
  }

  /** A segment that is empty or does not parse vanishes; the segments
      around it keep their tokens and their order. */
  lemma CollectDrops(a: seq<string>, p: string, b: seq<string>)
    requires p == "" || ParseSegment(p).None?
    ensures Collect(a + [p] + b) == Collect(a) + Collect(b)
  {
    CollectOne(p);
    CollectAppend(a, [p]);
    CollectAppend(a + [p], b);
  }

  /** A segment that parses contributes its token in its place. */
  lemma CollectKeeps(a: seq<string>, p: string, t: WeekToken, b: seq<string>)
    requires p != "" && ParseSegment(p) == Some(t)
    ensures Collect(a + [p] + b) == Collect(a) + [t] + Collect(b)
  {
    CollectOne(p);
    CollectAppend(a, [p]);
    CollectAppend(a + [p], b);
  }

  /** A single segment gives what `SegmentTokens` says. */
  lemma CollectOne(p: string)
    ensures Collect([p]) == SegmentTokens(p)
  {
    assert [p][1..] == [];
  }

  /** The structured result of `parse_week_numbers`. */
  function ParseWeekTokens(s: string): (toks: seq<WeekToken>)
    ensures s == "" ==> toks == []
    ensures |toks| <= NonEmptyCount(Segments(s))
    ensures forall k :: 0 <= k < |toks| ==> ValidToken(toks[k]) && FromSegment(toks[k], Segments(s))
  {
    if s == "" then [] else Collect(Segments(s))
  }

  predicate IsTokenChar(c: char)
  {
    IsDigit(c) || c == '-' || c == '(' || c == ')' || c == '单' || c == '双'
  }

  /** Every character is a digit, '-', a parenthesis, 单 or 双. */
  predicate TokenText(w: string)
  {
    forall i :: 0 <= i < |w| ==> IsTokenChar(w[i])
  }

  lemma RenderChars(t: WeekToken)
    requires ValidToken(t)
    ensures |Render(t)| >= 1
    ensures TokenText(Render(t)) && '周' !in Render(t) && '第' !in Render(t)
    ensures '-' !in Render(t) ==> t.Single? && AllDigits(Render(t))
  {
    match t
    case Range(lo, hi, p) =>
      var a, b := NatToString(lo), NatToString(hi);
      var r := Render(t);
      assert r == a + "-" + b + ParitySuffix(p);
      forall i | 0 <= i < |r| ensures IsTokenChar(r[i]) {
        if i < |a| { assert r[i] == a[i]; }
        else if i == |a| { }
        else if i < |a| + 1 + |b| { assert r[i] == b[i - |a| - 1]; }
        else { assert r[i] == ParitySuffix(p)[i - |a| - 1 - |b|]; }
      }
      assert r[|a|] == '-';
    case Single(d) =>
  }

  function Renders(toks: seq<WeekToken>): (r: seq<string>)
    ensures |r| == |toks|
    ensures forall k :: 0 <= k < |toks| ==> r[k] == Render(toks[k])
  {
    if toks == [] then [] else [Render(toks[0])] + Renders(toks[1..])
  }

  lemma RendersAppend(x: seq<WeekToken>, y: seq<WeekToken>)
    ensures Renders(x + y) == Renders(x) + Renders(y)
  {
  }

  /** `parse_week_numbers`: interval tokens as strings. */
  function ParseWeekNumbers(s: string): (r: seq<string>)
    ensures s == "" ==> r == []
    ensures |r| <= NonEmptyCount(Segments(s))
    ensures forall k :: 0 <= k < |r| ==> |r[k]| >= 1 && TokenText(r[k])
    ensures forall k :: 0 <= k < |r| ==> '周' !in r[k] && '第' !in r[k]
    ensures forall k :: 0 <= k < |r| ==> ('-' !in r[k] ==> AllDigits(r[k]))
  {
    var toks := ParseWeekTokens(s);
    var r := Renders(toks);
    forall k | 0 <= k < |r|
      ensures |r[k]| >= 1 && TokenText(r[k]) && '周' !in r[k] && '第' !in r[k]
      ensures '-' !in r[k] ==> AllDigits(r[k])
    {
      RenderChars(toks[k]);
      assert r[k] == Render(toks[k]);
    }
    r
  }

  // ---------------------------------------------------------------------
  // Properties
  // ---------------------------------------------------------------------

  /** A segment of the input that does not parse ("abc" in "1-8周,abc,10周")
      is skipped: the output is what the segments before it give, followed
      by what the segments after it give. */
  lemma SkippedSegment(s: string, a: seq<string>, p: string, b: seq<string>)
    requires s != "" && Segments(s) == a + [p] + b
    requires p == "" || ParseSegment(p).None?
    ensures ParseWeekNumbers(s) == Renders(Collect(a)) + Renders(Collect(b))
  {
    CollectDrops(a, p, b);
    RendersAppend(Collect(a), Collect(b));
  }

  lemma NoSepSegments(w: string)
    requires forall i :: 0 <= i < |w| ==> !IsWeekSep(w[i]) && w[i] != '周' && w[i] != '第'
    ensures Segments(w) == [w]
  {
    assert StripMarkers(w) == w;
    assert FirstIndex(w, IsWeekSep) == |w|;
  }

  lemma DigitsNoSpecial(d: string)
    requires AllDigits(d)
    ensures '(' !in d && ')' !in d && '-' !in d
    ensures forall j :: 0 <= j < |d| ==> !IsDash(d[j]) && !IsOpenParen(d[j])
  {
    forall j | 0 <= j < |d| ensures d[j] != '(' && d[j] != ')' && d[j] != '-' { assert IsDigit(d[j]); }
  }

  /** "x-y" for digit strings x and y matches the range pattern with exactly x and y. */
  lemma MatchRangeOf(x: string, y: string)
    requires |x| >= 1 && AllDigits(x) && |y| >= 1 && AllDigits(y)
    ensures MatchRange(x + "-" + y) == Some((x, y))
  {
    var b := x + "-" + y;
    DigitsNoSpecial(x);
    assert b == x + ("-" + y);
    FirstIndexConcat(x, "-" + y, IsDash);
    assert b[..|x|] == x && b[|x| + 1..] == y;
  }

  /** A base without '(' is parsed whole, with no parity. */
  lemma NoParenSplit(p: string)
    requires '(' !in p
    ensures SplitParity(p) == (p, Every)
  {
  }

  /** A base followed by "(q)" is cut at that '(' when the base has none. */
  lemma ParenSplit(base: string, q: string)
    requires '(' !in base && ')' in q
    ensures SplitParity(base + "(" + q) == (base, ParityOf(q))
  {
    var p := base + "(" + q;
    assert p == base + ("(" + q);
    assert p[|base|] == '(';
    var j :| 0 <= j < |q| && q[j] == ')';
    assert p[|base| + 1 + j] == ')';
    FirstIndexConcat(base, "(" + q, IsOpenParen);
    assert p[..|base|] == base && p[|base| + 1..] == q;
  }

  lemma ParitySuffixShape(p: Parity)
    requires p != Every
    ensures ParitySuffix(p) == "(" + ParitySuffix(p)[1..]
    ensures ')' in ParitySuffix(p)[1..]
    ensures ParityOf(ParitySuffix(p)[1..]) == p
  {
    var q := ParitySuffix(p)[1..];
    assert q[1] == ')';
    if p == Odd { assert q[0] == '单'; } else { assert q[0] == '双'; assert '单' !in q; }
  }

  lemma RangeBaseNoParen(a: string, b: string)
    requires AllDigits(a) && AllDigits(b)
    ensures '(' !in a + "-" + b
  {
    var base := a + "-" + b;
    forall i | 0 <= i < |base| ensures base[i] != '(' {
      if i < |a| { assert base[i] == a[i]; assert IsDigit(a[i]); }
      else if i > |a| { assert base[i] == b[i - |a| - 1]; assert IsDigit(b[i - |a| - 1]); }
    }
  }

  /** Parsing a rendered token gives the token back. */
  lemma ParseRender(t: WeekToken)
    requires ValidToken(t)
    ensures ParseSegment(Render(t)) == Some(t)
  {
    match t
    case Range(lo, hi, p) =>
      var a, b := NatToString(lo), NatToString(hi);
      var base := a + "-" + b;
      NatToStringRoundTrip(lo);
      NatToStringRoundTrip(hi);
      MatchRangeOf(a, b);
      RangeBaseNoParen(a, b);
      if p == Every {
        assert Render(t) == base;
        NoParenSplit(base);
      } else {
        ParitySuffixShape(p);
        assert Render(t) == base + "(" + ParitySuffix(p)[1..];
        ParenSplit(base, ParitySuffix(p)[1..]);
      }
    case Single(d) =>
      DigitsNoSpecial(d);
      NoParenSplit(d);
      FirstIndexConcat(d, "", IsDash);
      assert d + "" == d;
  }

  lemma TokenCharNotSep(c: char)
    requires IsTokenChar(c)
    ensures !IsWeekSep(c) && c != '周' && c != '第'
  {
  }

  /** Token text has neither separators nor markers: it is its own single segment. */
  lemma TokenTextSegments(w: string)
    requires TokenText(w)
    ensures StripMarkers(w) == w && Segments(w) == [w]
    ensures forall i :: 0 <= i < |w| ==> !IsWeekSep(w[i])
  {
    forall i | 0 <= i < |w| ensures !IsWeekSep(w[i]) && w[i] != '周' && w[i] != '第' {
      TokenCharNotSep(w[i]);
    }
    NoSepSegments(w);
  }

  /** `s.replace(...)` of the markers distributes over concatenation. */
  lemma {:induction false} StripMarkersConcat(a: string, b: string)
    ensures StripMarkers(a + b) == StripMarkers(a) + StripMarkers(b)
    decreases |a|
  {
    if a == [] {
      assert a + b == b;
    } else {
      assert (a + b)[0] == a[0];
      assert (a + b)[1..] == a[1..] + b;
      StripMarkersConcat(a[1..], b);
    }
  }

  /** The one-pass filter is the two chained `replace` calls. */
  lemma {:induction false} StripMarkersIsReplace(s: string)
    ensures StripMarkers(s) == RemoveChar(RemoveChar(s, '周'), '第')
    decreases |s|
  {
    if s != [] {
      StripMarkersIsReplace(s[1..]);
      var x, once := s[0], RemoveChar(s[1..], '周');
      if x != '周' {
        assert RemoveChar(s, '周') == [x] + once;
        assert ([x] + once)[1..] == once;
      }
    }
  }

  /** A token followed by a separator is one segment ahead of the rest. */
  lemma SegmentsCons(w: string, sep: char, rest: string)
    requires TokenText(w) && IsWeekSep(sep)
    ensures SplitOn(w + [sep] + rest, IsWeekSep) == [w] + SplitOn(rest, IsWeekSep)
  {
    TokenTextSegments(w);
    SplitOnConcat(w, sep, rest, IsWeekSep);
  }

  /** Input that is one segment holding token `t` parses to exactly `t`. */
  lemma OneSegmentInput(w: string, t: WeekToken)
    requires w != "" && Segments(w) == [w] && ParseSegment(w) == Some(t)
    ensures ParseWeekNumbers(w) == [Render(t)]
  {
    assert Collect([w][1..]) == [];
    assert ParseWeekTokens(w) == [t];
  }

  /** Every output token is a fixed point: parsing it alone yields exactly it. */
  lemma TokensReparse(s: string, k: nat)
    requires k < |ParseWeekNumbers(s)|
    ensures ParseWeekNumbers(ParseWeekNumbers(s)[k]) == [ParseWeekNumbers(s)[k]]
  {
    var toks := ParseWeekTokens(s);
    var w := ParseWeekNumbers(s)[k];
    assert w == Render(toks[k]);
    RenderChars(toks[k]);
    TokenTextSegments(w);
    ParseRender(toks[k]);
    OneSegmentInput(w, toks[k]);
  }

  /** A range segment "x-y", possibly descending, becomes the ordered pair of
      its values; the endpoints are re-rendered without leading zeros. */
  lemma RangeSegment(x: string, y: string)
    requires |x| >= 1 && AllDigits(x) && |y| >= 1 && AllDigits(y)
    ensures var a, b := DigitsValue(x), DigitsValue(y);
      ParseSegment(x + "-" + y) == Some(Range(if a <= b then a else b, if a <= b then b else a, Every))
  {
    RangeBaseNoParen(x, y);
    NoParenSplit(x + "-" + y);
    MatchRangeOf(x, y);
  }

  /** A single week number is kept verbatim, and a parenthetical after it is
      dropped without leaving a parity suffix. */
  lemma SingleSegment(d: string, q: string)
    requires |d| >= 1 && AllDigits(d)
    ensures ParseSegment(d) == Some(Single(d))
    ensures ')' in q ==> ParseSegment(d + "(" + q) == Some(Single(d))
  {
    ParseRender(Single(d));
    if ')' in q {
      DigitsNoSpecial(d);
      ParenSplit(d, q);
      FirstIndexConcat(d, "", IsDash);
      assert d + "" == d;
    }
  }

  lemma MarkerDrop(a: string, b: string)
    ensures StripMarkers(a + "周" + b) == StripMarkers(a) + StripMarkers(b)
  {
    StripMarkersConcat(a + "周", b);
    StripMarkersConcat(a, "周");
    assert StripMarkers("周") == "";
    assert StripMarkers(a) + "" == StripMarkers(a);
  }

  /** When every segment is non-empty and parses, the output is the segments' tokens in order. */
  lemma {:induction false} CollectAll(segs: seq<string>, toks: seq<WeekToken>)
    requires |segs| == |toks|
    requires forall k :: 0 <= k < |segs| ==> segs[k] != "" && ParseSegment(segs[k]) == Some(toks[k])
    ensures Collect(segs) == toks
  {
    if segs != [] {
      CollectAll(segs[1..], toks[1..]);
      assert toks == [toks[0]] + toks[1..];
    }
  }

  /** Input whose segments are rendered tokens parses to exactly those renderings. */
  lemma RenderedSegments(s: string, toks: seq<WeekToken>)
    requires s != "" && Segments(s) == Renders(toks)
    requires forall k :: 0 <= k < |toks| ==> ValidToken(toks[k])
    ensures ParseWeekNumbers(s) == Renders(toks)
  {
    var segs := Segments(s);
    forall k | 0 <= k < |segs| ensures segs[k] != "" && ParseSegment(segs[k]) == Some(toks[k]) {
      RenderChars(toks[k]);
      ParseRender(toks[k]);
    }
    CollectAll(segs, toks);
  }

  /** Text without markers followed by one marker loses just the marker. */
  lemma TrailingMarker(w: string)
    requires '周' !in w && '第' !in w
    ensures StripMarkers(w + "周" + "") == w
  {
    MarkerDrop(w, "");
    assert StripMarkers("") == "";
    assert w + "" == w;
  }
}
