/**
 * `extract_unit_name`: the first fragment that names a unit, either as
 * 单元 followed by numerals (tried first) or as `Unit`/`unit` followed by
 * digits, gives an English label and a Chinese label.
 */
module UnitName {
  import opened Wrappers
  import opened Text
  import opened Fragments

  /** A decimal digit of the regex class `\d`: ASCII or full-width. */
  predicate IsDigit(c: char) {
    IsAsciiDigit(c) || ('０' <= c <= '９')
  }

  /** The class `[一二三四五六七八九十\d]`. */
  predicate IsNumeral(c: char) {
    c == '一' || c == '二' || c == '三' || c == '四' || c == '五' ||
    c == '六' || c == '七' || c == '八' || c == '九' || c == '十' || IsDigit(c)
  }

  /** The end of the run of characters satisfying the class, starting at `i`. */
  function NumeralEnd(s: string, i: nat): (j: nat)
    requires i <= |s|
    ensures i <= j <= |s| && (j == |s| || !IsNumeral(s[j]))
    ensures forall k :: i <= k < j ==> IsNumeral(s[k])
    decreases |s| - i
  {
    if i < |s| && IsNumeral(s[i]) then NumeralEnd(s, i + 1) else i
  }

  function DigitEnd(s: string, i: nat): (j: nat)
    requires i <= |s|
    ensures i <= j <= |s| && (j == |s| || !IsDigit(s[j]))
    ensures forall k :: i <= k < j ==> IsDigit(s[k])
    decreases |s| - i
  {
    if i < |s| && IsDigit(s[i]) then DigitEnd(s, i + 1) else i
  }

  /** `单元[一二三四五六七八九十\d]+` matches at `i`. */
  predicate ChineseAt(s: string, i: nat) {
    i + 2 < |s| && s[i] == '单' && s[i + 1] == '元' && IsNumeral(s[i + 2])
  }

  /** `[Uu]nit\s*(\d+)` matches at `i`. */
  predicate EnglishAt(s: string, i: nat) {
    i + 4 <= |s| && (s[i] == 'U' || s[i] == 'u') && s[i + 1] == 'n' && s[i + 2] == 'i' && s[i + 3] == 't' &&
    var j := SkipSpace(s, i + 4); j < |s| && IsDigit(s[j])
  }

  /** The leftmost position at or after `i` where the Chinese pattern matches (`re.search`). */
  function FindChinese(s: string, i: nat): (r: Option<nat>)
    requires i <= |s|
    ensures r.Some? ==> i <= r.value < |s| && ChineseAt(s, r.value) && forall k :: i <= k < r.value ==> !ChineseAt(s, k)
    ensures r.None? ==> forall k :: i <= k ==> !ChineseAt(s, k)
    decreases |s| - i
  {
    if i == |s| then None
    else if ChineseAt(s, i) then Some(i)
    else FindChinese(s, i + 1)
  }

  /** The leftmost position at or after `i` where the English pattern matches. */
  function FindEnglish(s: string, i: nat): (r: Option<nat>)
    requires i <= |s|
    ensures r.Some? ==> i <= r.value < |s| && EnglishAt(s, r.value) && forall k :: i <= k < r.value ==> !EnglishAt(s, k)
    ensures r.None? ==> forall k :: i <= k ==> !EnglishAt(s, k)
    decreases |s| - i
  {
    if i == |s| then None
    else if EnglishAt(s, i) then Some(i)
    else FindEnglish(s, i + 1)
  }

  /** The numeral table: a single Chinese numeral becomes its digits; anything else is kept. */
  function NumeralValue(num: string): string {
    if num == "一" then "1" else if num == "二" then "2" else if num == "三" then "3"
    else if num == "四" then "4" else if num == "五" then "5" else if num == "六" then "6"
    else if num == "七" then "7" else if num == "八" then "8" else if num == "九" then "9"
    else if num == "十" then "10" else num
  }

  datatype UnitLabel = UnitLabel(name: string, chinese: string)

  /** The label one fragment's text gives: none exactly when neither pattern matches anywhere. */
  function UnitFromText(text: string): (r: Option<UnitLabel>)
    ensures r.None? <==> (forall k :: !ChineseAt(text, k)) && (forall k :: !EnglishAt(text, k))
  {
    match FindChinese(text, 0)
    case Some(i) =>
      var unitChinese := text[i..NumeralEnd(text, i + 2)];
      Some(UnitLabel("Unit " + NumeralValue(ReplaceAll(unitChinese, "单元", "")), unitChinese))
    case None =>
      match FindEnglish(text, 0)
      case Some(i) =>
        var j := SkipSpace(text, i + 4);
        var digits := text[j..DigitEnd(text, j)];
        Some(UnitLabel("Unit " + digits, "单元" + digits))
      case None => None
  }

  lemma NoUnitInNumerals(run: string)
    requires forall k :: 0 <= k < |run| ==> IsNumeral(run[k])
    ensures !IsSubstring("单元", run)
  {
    forall k | 0 <= k <= |run|
      ensures !("单元" <= run[k..])
    {
      if k < |run| {
        assert run[k..][0] == run[k];
      }
    }
    SubstringAt("单元", run);
  }

  /**
   * Removing 单元 from the matched text leaves exactly the numerals after it.
   */
  lemma RemovingPrefixLeavesNumerals(text: string, i: nat)
    requires ChineseAt(text, i)
    ensures ReplaceAll(text[i..NumeralEnd(text, i + 2)], "单元", "") == text[i + 2..NumeralEnd(text, i + 2)]
  {
    var m := text[i..NumeralEnd(text, i + 2)];
    var run := text[i + 2..NumeralEnd(text, i + 2)];
    assert m == "单元" + run;
    assert "单元" <= m;
    assert m[2..] == run;
    NoUnitInNumerals(run);
  }

  /**
   * When 单元 followed by a numeral occurs, the leftmost such match decides:
   * the English label holds the mapped numerals, the Chinese label the whole
   * match, with the longest run of numerals after 单元.
   */
  lemma ChineseLabel(text: string, i: nat)
    requires FindChinese(text, 0) == Some(i)
    ensures var run := text[i + 2..NumeralEnd(text, i + 2)];
      run != [] && UnitFromText(text) == Some(UnitLabel("Unit " + NumeralValue(run), "单元" + run))
  {
    RemovingPrefixLeavesNumerals(text, i);
    assert text[i..NumeralEnd(text, i + 2)] == "单元" + text[i + 2..NumeralEnd(text, i + 2)];
  }

  /**
   * Otherwise the leftmost `Unit`/`unit` match decides: both labels carry
   * the whole run of digits that follows it after any whitespace.
   */
  lemma EnglishLabel(text: string, i: nat)
    requires FindChinese(text, 0).None? && FindEnglish(text, 0) == Some(i)
    ensures var j := SkipSpace(text, i + 4);
      var e := DigitEnd(text, j);
      var digits := text[j..e];
      i + 4 <= j < e <= |text| &&
      (forall k :: i + 4 <= k < j ==> IsWhitespace(text[k])) &&
      digits != [] && (forall k :: 0 <= k < |digits| ==> IsDigit(digits[k])) &&
      (e == |text| || !IsDigit(text[e])) &&
      UnitFromText(text) == Some(UnitLabel("Unit " + digits, "单元" + digits))
  {
    var j := SkipSpace(text, i + 4);
    var digits := text[j..DigitEnd(text, j)];
    assert forall k :: 0 <= k < |digits| ==> digits[k] == text[j + k];
  }

  /**
   * `extract_unit_name(ocr_result)`: the label of the first fragment, in
   * OCR order, whose text gives one.
   */
  function ExtractUnitName(ocr: seq<Fragment>): Option<UnitLabel> {
    FirstSome(ocr, Reading)
  }

  /** The label a fragment's text gives, if any. */
  function Reading(f: Fragment): Option<UnitLabel> {
    UnitFromText(f.text)
  }

  /** `f` of the first element it gives a value for, in order. */
  function FirstSome<A, B>(xs: seq<A>, f: A -> Option<B>): Option<B>
    decreases |xs|
  {
    if xs == [] then None
    else if f(xs[0]).Some? then f(xs[0])
    else FirstSome(xs[1..], f)
  }

  lemma {:induction false} FirstSomeNone<A, B>(xs: seq<A>, f: A -> Option<B>)
    ensures FirstSome(xs, f).None? <==> forall k :: 0 <= k < |xs| ==> f(xs[k]).None?
    decreases |xs|
  {
    if xs != [] && f(xs[0]).None? {
      FirstSomeNone(xs[1..], f);
      assert forall k :: 1 <= k < |xs| ==> xs[1..][k - 1] == xs[k];
    }
  }

  lemma {:induction false} FirstSomeFirst<A, B>(xs: seq<A>, f: A -> Option<B>)
    requires FirstSome(xs, f).Some?
    ensures exists k :: 0 <= k < |xs| && FirstSome(xs, f) == f(xs[k]) &&
                        forall j :: 0 <= j < k ==> f(xs[j]).None?
    decreases |xs|
  {
    if f(xs[0]).Some? {
      assert FirstSome(xs, f) == f(xs[0]);
    } else {
      var rest := xs[1..];
      FirstSomeFirst(rest, f);
      var k :| 0 <= k < |rest| && FirstSome(rest, f) == f(rest[k]) &&
               forall j :: 0 <= j < k ==> f(rest[j]).None?;
      assert rest[k] == xs[k + 1];
      forall j | 0 <= j < k + 1 ensures f(xs[j]).None? {
        if j > 0 { assert xs[j] == rest[j - 1]; }
      }
      assert FirstSome(xs, f) == f(xs[k + 1]);
    }
  }

  /** No unit name is found exactly when no fragment's text gives one. */
  lemma ExtractUnitNameNone(ocr: seq<Fragment>)
    ensures ExtractUnitName(ocr).None? <==> forall k :: 0 <= k < |ocr| ==> UnitFromText(ocr[k].text).None?
  {
    FirstSomeNone(ocr, Reading);
  }

  /** A unit name found is the one of the first fragment whose text gives one. */
  lemma ExtractUnitNameFirst(ocr: seq<Fragment>)
    requires ExtractUnitName(ocr).Some?
    ensures exists k :: 0 <= k < |ocr| && ExtractUnitName(ocr) == UnitFromText(ocr[k].text) &&
                        forall j :: 0 <= j < k ==> UnitFromText(ocr[j].text).None?
  {
    FirstSomeFirst(ocr, Reading);
    var k :| 0 <= k < |ocr| && FirstSome(ocr, Reading) == Reading(ocr[k]) &&
             forall j :: 0 <= j < k ==> Reading(ocr[j]).None?;
    assert ExtractUnitName(ocr) == UnitFromText(ocr[k].text);
  }

  /** The value at the first element `f` gives one for. */
  lemma {:induction false} FirstSomeAt<A, B>(xs: seq<A>, f: A -> Option<B>, k: nat)
    requires k < |xs| && f(xs[k]).Some?
    requires forall j :: 0 <= j < k ==> f(xs[j]).None?
    ensures FirstSome(xs, f) == f(xs[k])
    decreases k
  {
    if k > 0 {
      assert f(xs[0]).None?;
      FirstSomeAt(xs[1..], f, k - 1);
    }
  }

  /**
   * The first fragment that gives a label decides, whichever pattern it
   * matched: a `Unit 5` fragment before a 单元三 fragment names unit 5.
   */
  lemma FirstFragmentWins(ocr: seq<Fragment>, k: nat)
    requires k < |ocr| && UnitFromText(ocr[k].text).Some?
    requires forall j :: 0 <= j < k ==> UnitFromText(ocr[j].text).None?
    ensures ExtractUnitName(ocr) == UnitFromText(ocr[k].text)
  {
    FirstSomeAt(ocr, Reading, k);
  }

  /** 单元三 reads as unit 3. */
  lemma ChineseNumeralExample(box: Box, c: real)
    ensures ExtractUnitName([Fragment(box, "单元三", c)]) == Some(UnitLabel("Unit 3", "单元三"))
  {
    var t := "单元三";
    assert FindChinese(t, 0) == Some(0);
    assert NumeralEnd(t, 2) == 3 by { assert NumeralEnd(t, 3) == 3; }
    RemovingPrefixLeavesNumerals(t, 0);
    assert t[0..3] == t && t[2..3] == "三";
    assert ReplaceAll(t, "单元", "") == "三";
    assert NumeralValue("三") == "3";
    assert "Unit " + "3" == "Unit 3";
    assert UnitFromText(t) == Some(UnitLabel("Unit 3", "单元三"));
  }

  /** A numeral outside the table, such as 十一, is kept as it is. */
  lemma UnmappedNumeralExample(box: Box, c: real)
    ensures ExtractUnitName([Fragment(box, "单元十一", c)]) == Some(UnitLabel("Unit 十一", "单元十一"))
  {
    var t := "单元十一";
    assert FindChinese(t, 0) == Some(0);
    assert NumeralEnd(t, 2) == 4 by {
      assert NumeralEnd(t, 4) == 4;
      assert NumeralEnd(t, 3) == 4;
    }
    RemovingPrefixLeavesNumerals(t, 0);
    assert t[0..4] == t && t[2..4] == "十一";
    assert ReplaceAll(t, "单元", "") == "十一";
    assert NumeralValue("十一") == "十一";
    assert "Unit " + "十一" == "Unit 十一";
    assert UnitFromText(t) == Some(UnitLabel("Unit 十一", "单元十一"));
  }

  /** `unit 5` reads as unit 5. */
  lemma EnglishExample(box: Box, c: real)
    ensures ExtractUnitName([Fragment(box, "unit 5", c)]) == Some(UnitLabel("Unit 5", "单元5"))
  {
    EnglishFive();
    FirstFragmentWins([Fragment(box, "unit 5", c)], 0);
  }

  /** An English label in an earlier fragment wins over a Chinese one in a later fragment. */
  lemma EarlierEnglishWinsExample(box: Box, c: real)
    ensures ExtractUnitName([Fragment(box, "unit 5", c), Fragment(box, "单元三", c)])
         == Some(UnitLabel("Unit 5", "单元5"))
  {
    EnglishFive();
    FirstFragmentWins([Fragment(box, "unit 5", c), Fragment(box, "单元三", c)], 0);
  }

  /** The text `unit 5` matches only the English pattern, with the digits 5. */
  lemma EnglishFive()
    ensures UnitFromText("unit 5") == Some(UnitLabel("Unit 5", "单元5"))
  {
    var t := "unit 5";
    assert FindChinese(t, 0) == None by {
      forall k: nat ensures !ChineseAt(t, k) {
        if k + 2 < |t| {
          assert t[k] != '单';
        }
      }
    }
    assert SkipSpace(t, 4) == 5;
    assert EnglishAt(t, 0);
    assert FindEnglish(t, 0) == Some(0);
    assert DigitEnd(t, 5) == 6 by { assert DigitEnd(t, 6) == 6; }
    assert t[5..6] == "5";
    assert "Unit " + "5" == "Unit 5" && "单元" + "5" == "单元5";
    assert UnitFromText(t) == Some(UnitLabel("Unit 5", "单元5"));
  }

  /** Only `U` or `u` may start the English pattern: `UNIT 5` names no unit. */
  lemma UpperCaseExample(box: Box, c: real)
    ensures ExtractUnitName([Fragment(box, "UNIT 5", c)]) == None
  {
    var t := "UNIT 5";
    assert FindChinese(t, 0) == None by {
      forall k: nat ensures !ChineseAt(t, k) {
        if k + 2 < |t| {
          assert t[k] != '单';
        }
      }
    }
    assert FindEnglish(t, 0) == None by {
      forall k: nat ensures !EnglishAt(t, k) {
        if k + 4 <= |t| {
          assert t[k + 1] != 'n';
        }
      }
    }
    assert UnitFromText(t) == None;
    var ocr := [Fragment(box, t, c)];
    assert Reading(ocr[0]) == None;
    assert FirstSome(ocr[1..], Reading) == None;
  }
}
