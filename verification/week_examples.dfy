/** The examples in the docstring of `parse_week_numbers`, worked through the
    model: each input string loses its markers, splits into its segments, and
    each segment parses back to the listed token. */
module WeekExamples {
  import opened TextUtil
  import opened WeekRange

  /** An input whose segments are the renderings of valid tokens parses to
      those renderings. */
  lemma WorkedParses(s: string, toks: seq<WeekToken>, out: seq<string>)
    requires s != "" && Segments(s) == out && Renders(toks) == out
    requires forall k :: 0 <= k < |toks| ==> ValidToken(toks[k])
    ensures ParseWeekNumbers(s) == out
  {
    RenderedSegments(s, toks);
  }

  /** A separator before token text survives marker removal. */
  lemma SepKept(c: char, w: string)
    requires IsWeekSep(c) && TokenText(w)
    ensures StripMarkers([c] + w) == [c] + w
  {
    StripMarkersConcat([c], w);
    TokenTextSegments(w);
    assert StripMarkers([c]) == [c];
  }

  /** "a周,b周" loses both markers. */
  lemma TwoMarkedStrip(a: string, b: string)
    requires TokenText(a) && TokenText(b)
    ensures StripMarkers(a + "周" + (([','] + b) + "周" + "")) == a + ([','] + b)
  {
    var t := [','] + b;
    MarkerDrop(a, t + "周" + "");
    TrailingMarker(t);
    TokenTextSegments(a);
  }

  /** "a,b" splits into a and b. */
  lemma TwoSplit(a: string, b: string)
    requires TokenText(a) && TokenText(b)
    ensures SplitOn(a + ([','] + b), IsWeekSep) == [a, b]
  {
    assert a + ([','] + b) == a + [','] + b;
    SegmentsCons(a, ',', b);
    TokenTextSegments(b);
  }

  // "1-8周,10周"

  lemma MixedStrip()
    ensures StripMarkers("1-8周,10周") == "1-8,10"
  {
    assert TokenText("1-8") && TokenText("10");
    TwoMarkedStrip("1-8", "10");
    assert "1-8周,10周" == "1-8" + "周" + (([','] + "10") + "周" + "");
    assert "1-8" + ([','] + "10") == "1-8,10";
  }

  lemma MixedSplit()
    ensures SplitOn("1-8,10", IsWeekSep) == ["1-8", "10"]
  {
    assert TokenText("1-8") && TokenText("10");
    TwoSplit("1-8", "10");
    assert "1-8" + ([','] + "10") == "1-8,10";
  }

  lemma MixedSegments()
    ensures Segments("1-8周,10周") == ["1-8", "10"]
  {
    MixedStrip();
    MixedSplit();
  }

  lemma MixedRender()
    ensures Renders([Range(1, 8, Every), Single("10")]) == ["1-8", "10"]
    ensures ValidToken(Range(1, 8, Every)) && ValidToken(Single("10"))
  {
    assert Render(Range(1, 8, Every)) == "1-8";
  }

  /** "1-8周,10周": a range and a single number, in input order. */
  lemma MixedExample()
    ensures ParseWeekNumbers("1-8周,10周") == ["1-8", "10"]
  {
    var toks := [Range(1, 8, Every), Single("10")];
    MixedSegments();
    MixedRender();
    assert forall k :: 0 <= k < |toks| ==> ValidToken(toks[k]) by {
      assert toks[0] == Range(1, 8, Every) && toks[1] == Single("10");
    }
    WorkedParses("1-8周,10周", toks, ["1-8", "10"]);
  }

  // "1-16周"

  lemma FullTermStrip()
    ensures StripMarkers("1-16周") == "1-16"
  {
    TrailingMarker("1-16");
    assert "1-16周" == "1-16" + "周" + "";
  }

  lemma FullTermSegments()
    ensures Segments("1-16周") == ["1-16"]
  {
    FullTermStrip();
    assert TokenText("1-16");
    TokenTextSegments("1-16");
  }

  lemma FullTermRender()
    ensures Renders([Range(1, 16, Every)]) == ["1-16"] && ValidToken(Range(1, 16, Every))
  {
    assert Render(Range(1, 16, Every)) == "1-16";
  }

  /** "1-16周": one ascending range. */
  lemma FullTermExample()
    ensures ParseWeekNumbers("1-16周") == ["1-16"]
  {
    FullTermSegments();
    FullTermRender();
    WorkedParses("1-16周", [Range(1, 16, Every)], ["1-16"]);
  }

  // "3周"

  lemma SingleWeekSegments()
    ensures Segments("3周") == ["3"]
  {
    TrailingMarker("3");
    assert "3周" == "3" + "周" + "";
    assert TokenText("3");
    TokenTextSegments("3");
  }

  /** "3周": one week number. */
  lemma SingleWeekExample()
    ensures ParseWeekNumbers("3周") == ["3"]
  {
    SingleWeekSegments();
    assert ValidToken(Single("3"));
    WorkedParses("3周", [Single("3")], ["3"]);
  }

  // "1,3,5周"

  /** "a,b,c" has the three segments a, b and c. */
  lemma ThreeSplit(a: string, b: string, c: string)
    requires TokenText(a) && TokenText(b) && TokenText(c)
    ensures SplitOn(a + [','] + (b + [','] + c), IsWeekSep) == [a, b, c]
  {
    SegmentsCons(a, ',', b + [','] + c);
    SegmentsCons(b, ',', c);
    TokenTextSegments(c);
  }

  lemma ListStrip()
    ensures StripMarkers("1,3,5周") == "1,3,5"
  {
    TrailingMarker("1,3,5");
    assert "1,3,5周" == "1,3,5" + "周" + "";
  }

  lemma ListSplit()
    ensures SplitOn("1,3,5", IsWeekSep) == ["1", "3", "5"]
  {
    assert TokenText("1") && TokenText("3") && TokenText("5");
    ThreeSplit("1", "3", "5");
    assert "1,3,5" == "1" + [','] + ("3" + [','] + "5");
  }

  lemma ListSegments()
    ensures Segments("1,3,5周") == ["1", "3", "5"]
  {
    ListStrip();
    ListSplit();
  }

  /** Three plain week numbers, each its own segment. */
  lemma ThreeSingles(s: string, a: string, b: string, c: string)
    requires s != "" && Segments(s) == [a, b, c]
    requires |a| >= 1 && AllDigits(a) && |b| >= 1 && AllDigits(b) && |c| >= 1 && AllDigits(c)
    ensures ParseWeekNumbers(s) == [a, b, c]
  {
    WorkedParses(s, [Single(a), Single(b), Single(c)], [a, b, c]);
  }

  /** "1,3,5周": a comma list of single weeks. */
  lemma ListExample()
    ensures ParseWeekNumbers("1,3,5周") == ["1", "3", "5"]
  {
    ListSegments();
    ThreeSingles("1,3,5周", "1", "3", "5");
  }

  // "1-12周(单周)"

  /** "a周p周q" with token text a, p, q loses both markers. */
  lemma ParenMarked(a: string, p: string, q: string)
    requires TokenText(a) && TokenText(p) && TokenText(q)
    ensures StripMarkers(a + "周" + (p + "周" + q)) == a + (p + q)
  {
    MarkerDrop(a, p + "周" + q);
    MarkerDrop(p, q);
    TokenTextSegments(a);
    TokenTextSegments(p);
    TokenTextSegments(q);
  }

  lemma OddWeeksStrip()
    ensures StripMarkers("1-12周(单周)") == "1-12(单)"
  {
    assert TokenText("1-12") && TokenText("(单") && TokenText(")");
    ParenMarked("1-12", "(单", ")");
    assert "1-12周(单周)" == "1-12" + "周" + ("(单" + "周" + ")");
    assert "1-12" + ("(单" + ")") == "1-12(单)";
  }

  lemma OddWeeksSegments()
    ensures Segments("1-12周(单周)") == ["1-12(单)"]
  {
    OddWeeksStrip();
    OddWeeksToken();
  }

  lemma OddWeeksToken()
    ensures SplitOn("1-12(单)", IsWeekSep) == ["1-12(单)"]
  {
    assert TokenText("1-12(单)");
    TokenTextSegments("1-12(单)");
  }

  lemma OddWeeksRender()
    ensures Renders([Range(1, 12, Odd)]) == ["1-12(单)"] && ValidToken(Range(1, 12, Odd))
  {
    assert Render(Range(1, 12, Odd)) == "1-12(单)";
  }

  /** "1-12周(单周)": a range restricted to odd weeks. */
  lemma OddWeeksExample()
    ensures ParseWeekNumbers("1-12周(单周)") == ["1-12(单)"]
  {
    OddWeeksSegments();
    OddWeeksRender();
    WorkedParses("1-12周(单周)", [Range(1, 12, Odd)], ["1-12(单)"]);
  }

  // "1-8周,abc,10周"

  /** "a周t周" loses both markers when `t` has none. */
  lemma MarkedAround(a: string, t: string)
    requires TokenText(a) && '周' !in t && '第' !in t
    ensures StripMarkers(a + "周" + (t + "周" + "")) == a + t
  {
    MarkerDrop(a, t + "周" + "");
    TrailingMarker(t);
    TokenTextSegments(a);
  }

  lemma JunkStrip()
    ensures StripMarkers("1-8周,abc,10周") == "1-8,abc,10"
  {
    assert TokenText("1-8");
    JunkUnmarked();
    MarkedAround("1-8", ",abc,10");
    JunkPieces();
  }

  lemma JunkUnmarked()
    ensures '周' !in ",abc,10" && '第' !in ",abc,10"
  {
  }

  lemma JunkPieces()
    ensures "1-8周,abc,10周" == "1-8" + "周" + (",abc,10" + "周" + "")
    ensures "1-8" + ",abc,10" == "1-8,abc,10"
  {
  }

  /** "a,j,b" splits into a, j and b when `j` holds no separator. */
  lemma SplitAround(a: string, j: string, b: string)
    requires TokenText(a) && TokenText(b)
    requires forall i :: 0 <= i < |j| ==> !IsWeekSep(j[i])
    ensures SplitOn(a + [','] + (j + [','] + b), IsWeekSep) == [a, j, b]
  {
    SegmentsCons(a, ',', j + [','] + b);
    SplitOnConcat(j, ',', b, IsWeekSep);
    TokenTextSegments(b);
  }

  lemma JunkSplit()
    ensures SplitOn("1-8,abc,10", IsWeekSep) == ["1-8", "abc", "10"]
  {
    JunkTokenText();
    LettersNoSep();
    SplitAround("1-8", "abc", "10");
    JunkCommas();
  }

  lemma JunkTokenText()
    ensures TokenText("1-8") && TokenText("10")
  {
  }

  lemma JunkCommas()
    ensures "1-8,abc,10" == "1-8" + [','] + ("abc" + [','] + "10")
  {
  }

  lemma LettersNoSep()
    ensures forall i :: 0 <= i < |"abc"| ==> !IsWeekSep("abc"[i])
  {
    var w := "abc";
    assert w[0] == 'a' && w[1] == 'b' && w[2] == 'c';
  }

  lemma JunkSegments()
    ensures Segments("1-8周,abc,10周") == ["1-8", "abc", "10"]
  {
    JunkStrip();
    JunkSplit();
  }

  /** "abc" is neither a range nor a number. */
  lemma JunkUnparsed()
    ensures ParseSegment("abc") == None
  {
    assert SplitParity("abc") == ("abc", Every);
    assert !AllDigits("abc") by { assert !IsDigit("abc"[0]); }
  }

  lemma JunkNeighbours()
    ensures Collect(["1-8"]) == [Range(1, 8, Every)] && Collect(["10"]) == [Single("10")]
  {
    assert Render(Range(1, 8, Every)) == "1-8";
    ParseRender(Range(1, 8, Every));
    ParseRender(Single("10"));
    CollectOne("1-8");
    CollectOne("10");
  }

  /** "1-8周,abc,10周": the unparsable middle segment is skipped and the
      others keep their order. */
  lemma JunkExample()
    ensures ParseWeekNumbers("1-8周,abc,10周") == ["1-8", "10"]
  {
    JunkSegments();
    JunkUnparsed();
    JunkNeighbours();
    assert ["1-8", "abc", "10"] == ["1-8"] + ["abc"] + ["10"];
    SkippedSegment("1-8周,abc,10周", ["1-8"], "abc", ["10"]);
    MixedRender();
    RendersAppend([Range(1, 8, Every)], [Single("10")]);
  }
}
