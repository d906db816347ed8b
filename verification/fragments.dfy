/**
 * OCR fragments and what the pipeline derives from them: the vocabulary-line
 * test, the cleaned text items, and their stable order by vertical position.
 */
module Fragments {
  import opened Wrappers
  import opened Text

  datatype Point = Point(x: int, y: int)

  /** A bounding box: the OCR engine reports at least one corner point. */
  type Box = b: seq<Point> | |b| > 0 witness [Point(0, 0)]

  /** One `(bbox, text, confidence)` triple of the OCR result. */
  datatype Fragment = Fragment(box: Box, text: string, confidence: real)

  /** A fragment kept for section parsing: its cleaned text beside the original. */
  datatype TextItem = TextItem(text: string, confidence: real, box: Box, original: string)

  /** A fragment recognised as a dense, delimited list of words. */
  datatype VocabLine = VocabLine(text: string, confidence: real)

  /** The confidence below which a fragment is not used for section parsing. */
  const MinConfidence: real := 0.05

  /** The two vocabulary lists the parser returns: words to say, and characters to practise. */
  datatype Vocab = Vocab(spoken: seq<string>, practice: seq<string>)

  /** `min(point[1] for point in bbox)`: the top edge of a box. */
  function Top(box: Box): int {
    if |box| == 1 then box[0].y
    else
      var rest := Top(box[1..]);
      if box[0].y <= rest then box[0].y else rest
  }

  /** The top edge is the smallest y of the box's points, and it is one of them. */
  lemma {:induction false} TopIsLeastY(box: Box)
    ensures exists k :: 0 <= k < |box| && box[k].y == Top(box)
    ensures forall k :: 0 <= k < |box| ==> Top(box) <= box[k].y
  {
    if |box| > 1 {
      TopIsLeastY(box[1..]);
      var j :| 0 <= j < |box[1..]| && box[1..][j].y == Top(box[1..]);
      assert box[j + 1] == box[1..][j];
      if box[0].y > Top(box[1..]) {
        assert box[j + 1].y == Top(box);
      } else {
        assert box[0].y == Top(box);
      }
      forall k | 1 <= k < |box| ensures Top(box) <= box[k].y {
        assert box[k] == box[1..][k - 1];
      }
    } else {
      assert box[0].y == Top(box);
    }
  }

  function Key(item: TextItem): int {
    Top(item.box)
  }

  // ---------------------------------------------------------------------------
  // Vocabulary-line detection

  /** At least three of 。/、 and at least four CJK ideographs, in the raw text. */
  predicate IsVocabularyLine(text: string) {
    CountChar(text, '。') + CountChar(text, '、') >= 3 && CjkCount(text) >= 4
  }

  lemma {:induction false} ClassesAreDisjoint(s: string)
    ensures CountChar(s, '。') + CountChar(s, '、') + CjkCount(s) <= |s|
  {
    if s != [] { ClassesAreDisjoint(s[1..]); }
  }

  /** The delimiters and the ideographs are different characters, so a vocabulary line has at least seven. */
  lemma VocabularyLineLength(text: string)
    requires IsVocabularyLine(text)
    ensures |text| >= 7
  {
    ClassesAreDisjoint(text);
  }

  // ---------------------------------------------------------------------------
  // Text items

  /** The characters `re.sub(r'[^一-鿿a-zA-Z，、。：\s]', '', text)` keeps. */
  predicate Allowed(c: char) {
    IsCjk(c) || IsLatin(c) || c == '，' || c == '、' || c == '。' || c == '：' || IsWhitespace(c)
  }

  predicate AllAllowed(s: string) {
    forall i :: 0 <= i < |s| ==> Allowed(s[i])
  }

  /** The allowed characters of `s`, in order. */
  function Clean(s: string): (r: string)
    ensures AllAllowed(r) && |r| <= |s|
    ensures AllAllowed(s) ==> r == s
  {
    if s == [] then []
    else if Allowed(s[0]) then [s[0]] + Clean(s[1..])
    else Clean(s[1..])
  }

  /** Cleaning keeps exactly the allowed characters. */
  lemma {:induction false} CleanMembers(s: string)
    ensures forall c :: c in Clean(s) <==> c in s && Allowed(c)
  {
    if s != [] {
      CleanMembers(s[1..]);
      assert s == [s[0]] + s[1..];
    }
  }

  /** Cleaning leaves something besides whitespace exactly when the text has an allowed non-space character. */
  lemma CleanHasContent(s: string)
    ensures (exists i :: 0 <= i < |Clean(s)| && !IsWhitespace(Clean(s)[i])) <==>
            (exists i :: 0 <= i < |s| && Allowed(s[i]) && !IsWhitespace(s[i]))
  {
    CleanMembers(s);
    var c := Clean(s);
    if exists i :: 0 <= i < |s| && Allowed(s[i]) && !IsWhitespace(s[i]) {
      var i :| 0 <= i < |s| && Allowed(s[i]) && !IsWhitespace(s[i]);
      assert s[i] in c;
      var j :| 0 <= j < |c| && c[j] == s[i];
      assert 0 <= j < |Clean(s)| && !IsWhitespace(Clean(s)[j]);
      assert exists k :: 0 <= k < |Clean(s)| && !IsWhitespace(Clean(s)[k]);
    } else {
      forall j | 0 <= j < |c| ensures IsWhitespace(c[j]) {
        assert c[j] in s && Allowed(c[j]);
        var i :| 0 <= i < |s| && s[i] == c[j];
      }
    }
  }

  /**
   * The text item a fragment yields: one exists exactly when the confidence
   * reaches 0.05 and the fragment holds a CJK ideograph, a Latin letter or one
   * of `，、。：`; its text is then the cleaned text with the surrounding
   * whitespace removed.
   */
  function MakeTextItem(f: Fragment): (r: Option<TextItem>)
    ensures r.Some? <==> f.confidence >= MinConfidence &&
                         exists i :: 0 <= i < |f.text| && Allowed(f.text[i]) && !IsWhitespace(f.text[i])
    ensures r.Some? ==> && r.value.text != []
                        && AllAllowed(r.value.text)
                        && !IsWhitespace(r.value.text[0]) && !IsWhitespace(r.value.text[|r.value.text| - 1])
                        && IsSubstring(r.value.text, Clean(f.text))
                        && r.value.text == Strip(Clean(f.text))
                        && r.value.original == f.text && r.value.box == f.box
                        && r.value.confidence == f.confidence
  {
    if f.confidence >= MinConfidence then
      var cleaned := Clean(f.text);
      var stripped := Strip(cleaned);
      CleanHasContent(f.text);
      if stripped != [] then
        SubstringAllowed(stripped, cleaned);
        Some(TextItem(stripped, f.confidence, f.box, f.text))
      else None
    else None
  }

  lemma SubstringAllowed(p: string, s: string)
    requires IsSubstring(p, s) && AllAllowed(s)
    ensures AllAllowed(p)
  {
    SubstringAt(p, s);
    var k :| 0 <= k <= |s| && p <= s[k..];
    forall i | 0 <= i < |p| ensures Allowed(p[i]) {
      assert p[i] == s[k + i];
    }
  }

  /** The text items of the fragments, in OCR order. */
  function TextItems(ocr: seq<Fragment>): (r: seq<TextItem>)
    ensures |r| <= |ocr|
    ensures forall k :: 0 <= k < |r| ==> r[k].text != [] && AllAllowed(r[k].text) && r[k].confidence >= MinConfidence
    decreases |ocr|
  {
    if ocr == [] then []
    else
      var init := TextItems(ocr[..|ocr| - 1]);
      match MakeTextItem(ocr[|ocr| - 1])
      case Some(item) => init + [item]
      case None => init
  }

  /** Every fragment that yields a text item contributes it. */
  lemma {:induction false} TextItemsComplete(ocr: seq<Fragment>, k: nat)
    requires k < |ocr| && MakeTextItem(ocr[k]).Some?
    ensures MakeTextItem(ocr[k]).value in TextItems(ocr)
    decreases |ocr|
  {
    if k < |ocr| - 1 {
      var init := ocr[..|ocr| - 1];
      assert init[k] == ocr[k];
      TextItemsComplete(init, k);
    }
  }

  /** Every text item is the item of some fragment. */
  lemma {:induction false} TextItemsSound(ocr: seq<Fragment>)
    ensures forall item :: item in TextItems(ocr) ==> exists k :: 0 <= k < |ocr| && MakeTextItem(ocr[k]) == Some(item)
    decreases |ocr|
  {
    if ocr != [] {
      var init := ocr[..|ocr| - 1];
      TextItemsSound(init);
      forall item | item in TextItems(ocr) ensures exists k :: 0 <= k < |ocr| && MakeTextItem(ocr[k]) == Some(item) {
        if item in TextItems(init) {
          var k :| 0 <= k < |init| && MakeTextItem(init[k]) == Some(item);
          assert ocr[k] == init[k];
        } else {
          assert MakeTextItem(ocr[|ocr| - 1]) == Some(item);
        }
      }
    }
  }

  /** The vocabulary lines of the fragments, in OCR order; confidence plays no part. */
  function VocabLines(ocr: seq<Fragment>): (r: seq<VocabLine>)
    ensures |r| <= |ocr|
    ensures forall k :: 0 <= k < |r| ==> IsVocabularyLine(r[k].text)
    decreases |ocr|
  {
    if ocr == [] then []
    else
      var f := ocr[|ocr| - 1];
      VocabLines(ocr[..|ocr| - 1]) + (if IsVocabularyLine(f.text) then [VocabLine(f.text, f.confidence)] else [])
  }

  /** Every fragment that passes the test is a vocabulary line, whatever its confidence. */
  lemma {:induction false} VocabLinesComplete(ocr: seq<Fragment>, k: nat)
    requires k < |ocr| && IsVocabularyLine(ocr[k].text)
    ensures VocabLine(ocr[k].text, ocr[k].confidence) in VocabLines(ocr)
    decreases |ocr|
  {
    if k < |ocr| - 1 {
      var init := ocr[..|ocr| - 1];
      assert init[k] == ocr[k];
      VocabLinesComplete(init, k);
    }
  }

  /** The loop over the OCR result that collects the text items and the vocabulary lines. */
  method Normalise(ocr: seq<Fragment>) returns (items: seq<TextItem>, lines: seq<VocabLine>)
    ensures items == TextItems(ocr) && lines == VocabLines(ocr)
    ensures forall k :: 0 <= k < |items| ==> items[k].text != [] && items[k].confidence >= MinConfidence
    ensures forall k :: 0 <= k < |lines| ==> IsVocabularyLine(lines[k].text)
  {
    items, lines := [], [];
    for i := 0 to |ocr|
      invariant items == TextItems(ocr[..i]) && lines == VocabLines(ocr[..i])
    {
      assert ocr[..i + 1][..i] == ocr[..i];
      var f := ocr[i];
      var periodCount := CountChar(f.text, '。') + CountChar(f.text, '、');
      var chineseChars := CjkCount(f.text);
      if periodCount >= 3 && chineseChars >= 4 {
        lines := lines + [VocabLine(f.text, f.confidence)];
      }
      if f.confidence >= MinConfidence {
        var cleaned := Clean(f.text);
        if Strip(cleaned) != [] {
          items := items + [TextItem(Strip(cleaned), f.confidence, f.box, f.text)];
        }
      }
    }
    assert ocr[..|ocr|] == ocr;
  }

  // ---------------------------------------------------------------------------
  // Stable order by top edge (`text_items.sort(key=top)`)

  predicate SortedByTop(s: seq<TextItem>) {
    forall i, j :: 0 <= i < j < |s| ==> Key(s[i]) <= Key(s[j])
  }

  /** The items whose top edge is `y`, in order. */
  function AtTop(s: seq<TextItem>, y: int): seq<TextItem> {
    if s == [] then [] else (if Key(s[0]) == y then [s[0]] else []) + AtTop(s[1..], y)
  }

  lemma {:induction false} AtTopAppend(a: seq<TextItem>, b: seq<TextItem>, y: int)
    ensures AtTop(a + b, y) == AtTop(a, y) + AtTop(b, y)
  {
    if a == [] {
      assert a + b == b;
    } else {
      var head := if Key(a[0]) == y then [a[0]] else [];
      calc {
        AtTop(a + b, y);
        { assert (a + b)[0] == a[0] && (a + b)[1..] == a[1..] + b; }
        head + AtTop(a[1..] + b, y);
        { AtTopAppend(a[1..], b, y); }
        head + (AtTop(a[1..], y) + AtTop(b, y));
        (head + AtTop(a[1..], y)) + AtTop(b, y);
        AtTop(a, y) + AtTop(b, y);
      }
    }
  }

  lemma {:induction false} AtTopAbove(s: seq<TextItem>, y: int)
    requires forall i :: 0 <= i < |s| ==> Key(s[i]) > y
    ensures AtTop(s, y) == []
  {
    if s != [] { AtTopAbove(s[1..], y); }
  }

  /** Places `x` after every item whose top is at or above its own. */
  function InsertByTop(s: seq<TextItem>, x: TextItem): (r: seq<TextItem>)
    ensures |r| == |s| + 1
  {
    if s == [] then [x]
    else if Key(x) < Key(s[0]) then [x] + s
    else
      assert s == [s[0]] + s[1..];
      [s[0]] + InsertByTop(s[1..], x)
  }

  /** A lower bound of the keys of `s` and of `x` bounds the keys after the insertion. */
  lemma {:induction false} InsertKeepsLowerBound(s: seq<TextItem>, x: TextItem, lb: int)
    requires lb <= Key(x) && forall i :: 0 <= i < |s| ==> lb <= Key(s[i])
    ensures forall i :: 0 <= i < |InsertByTop(s, x)| ==> lb <= Key(InsertByTop(s, x)[i])
  {
    if s != [] && Key(x) >= Key(s[0]) {
      InsertKeepsLowerBound(s[1..], x, lb);
    }
  }

  lemma {:induction false} InsertKeepsOrder(s: seq<TextItem>, x: TextItem)
    requires SortedByTop(s)
    ensures SortedByTop(InsertByTop(s, x))
  {
    if s != [] && Key(x) >= Key(s[0]) {
      var rest := InsertByTop(s[1..], x);
      InsertKeepsOrder(s[1..], x);
      InsertKeepsLowerBound(s[1..], x, Key(s[0]));
      var r := [s[0]] + rest;
      assert InsertByTop(s, x) == r;
      forall i, j | 0 <= i < j < |r| ensures Key(r[i]) <= Key(r[j]) {
        if i > 0 { assert r[i] == rest[i - 1] && r[j] == rest[j - 1]; }
        else { assert r[j] == rest[j - 1]; }
      }
    }
  }

  lemma AtTopCons(x: TextItem, s: seq<TextItem>, y: int)
    ensures AtTop([x] + s, y) == (if Key(x) == y then [x] else []) + AtTop(s, y)
  {
    assert ([x] + s)[0] == x && ([x] + s)[1..] == s;
  }

  /** Inserting `x` adds it at the end of the items that share its top edge. */
  lemma {:induction false} InsertKeepsTies(s: seq<TextItem>, x: TextItem, y: int)
    requires SortedByTop(s)
    ensures AtTop(InsertByTop(s, x), y) == AtTop(s, y) + (if Key(x) == y then [x] else [])
  {
    if s == [] {
      AtTopCons(x, [], y);
    } else if Key(x) < Key(s[0]) {
      AtTopCons(x, s, y);
      if Key(x) == y { AtTopAbove(s, y); }
    } else {
      assert s == [s[0]] + s[1..];
      AtTopCons(s[0], s[1..], y);
      InsertKeepsTies(s[1..], x, y);
      AtTopCons(s[0], InsertByTop(s[1..], x), y);
    }
  }

  /**
   * Python's `list.sort(key=top)`: a stable sort, here an insertion sort that
   * takes the items one by one from the front.
   */
  function SortByTop(s: seq<TextItem>): (r: seq<TextItem>)
    ensures |r| == |s|
    decreases |s|
  {
    if s == [] then []
    else
      assert s == s[..|s| - 1] + [s[|s| - 1]];
      InsertByTop(SortByTop(s[..|s| - 1]), s[|s| - 1])
  }

  lemma {:induction false} InsertAddsOne(s: seq<TextItem>, x: TextItem)
    ensures multiset(InsertByTop(s, x)) == multiset(s) + multiset{x}
  {
    if s != [] && Key(x) >= Key(s[0]) {
      InsertAddsOne(s[1..], x);
      assert s == [s[0]] + s[1..];
    }
  }

  /** The result holds the same items as the input, each as often: a permutation. */
  lemma {:induction false} SortByTopPermutes(s: seq<TextItem>)
    ensures multiset(SortByTop(s)) == multiset(s)
    decreases |s|
  {
    if s != [] {
      SortByTopPermutes(s[..|s| - 1]);
      InsertAddsOne(SortByTop(s[..|s| - 1]), s[|s| - 1]);
      assert s == s[..|s| - 1] + [s[|s| - 1]];
    }
  }

  /** The result is ordered top to bottom. */
  lemma {:induction false} SortByTopSorted(s: seq<TextItem>)
    ensures SortedByTop(SortByTop(s))
    decreases |s|
  {
    if s != [] {
      SortByTopSorted(s[..|s| - 1]);
      InsertKeepsOrder(SortByTop(s[..|s| - 1]), s[|s| - 1]);
    }
  }

  /** Items with the same top edge keep their relative order: the sort is stable. */
  lemma {:induction false} SortByTopStable(s: seq<TextItem>, y: int)
    ensures AtTop(SortByTop(s), y) == AtTop(s, y)
    decreases |s|
  {
    if s != [] {
      var init, last := s[..|s| - 1], s[|s| - 1];
      SortByTopSorted(init);
      SortByTopStable(init, y);
      InsertKeepsTies(SortByTop(init), last, y);
      assert s == init + [last];
      AtTopAppend(init, [last], y);
      AtTopCons(last, [], y);
    }
  }

  lemma {:induction false} InsertAtBottom(s: seq<TextItem>, x: TextItem)
    requires forall i :: 0 <= i < |s| ==> Key(s[i]) <= Key(x)
    ensures InsertByTop(s, x) == s + [x]
  {
    if s != [] {
      InsertAtBottom(s[1..], x);
      assert s == [s[0]] + s[1..];
    }
  }

  /** Sorting items that are already in order changes nothing: the second sort of the pipeline is a no-op. */
  lemma {:induction false} SortSortedIsIdentity(s: seq<TextItem>)
    requires SortedByTop(s)
    ensures SortByTop(s) == s
    decreases |s|
  {
    if s != [] {
      var init, last := s[..|s| - 1], s[|s| - 1];
      SortSortedIsIdentity(init);
      InsertAtBottom(init, last);
      assert init + [last] == s;
    }
  }

  lemma SortIdempotent(s: seq<TextItem>)
    ensures SortByTop(SortByTop(s)) == SortByTop(s)
  {
    SortByTopSorted(s);
    SortSortedIsIdentity(SortByTop(s));
  }
}
