/**
 * Section headers. A text item is a header when it contains one of the
 * keywords of a fixed list (a substring test, which tolerates partial and
 * misread headers); the spoken list is tested first, then the practice list,
 * then the end markers.
 */
module Headers {
  import opened Wrappers
  import opened Text
  import opened Fragments

  /** Keywords of the "口语表达词汇" (spoken expression vocabulary) header and its misreadings. */
  const SpokenKeywords: seq<string> := ["口语表达词汇", "口语表达", "表达词汇", "口语", "表达", "麦达词汇", "达词汇", "适麦达"]

  /** Keywords of the "识读词语" (words to read) header. */
  const PracticeKeywords: seq<string> := ["识读词语", "识读", "读词语", "词语", "识读字"]

  /** Markers of the sections after the vocabulary: songs, sentence patterns, strokes, poems. */
  const EndKeywords: seq<string> := ["儿歌", "句式", "笔画", "古诗", "歌歌词"]

  datatype Header = SpokenHeader | PracticeHeader | EndHeader | NotHeader

  function Classify(text: string): Header {
    if ContainsAny(text, SpokenKeywords) then SpokenHeader
    else if ContainsAny(text, PracticeKeywords) then PracticeHeader
    else if ContainsAny(text, EndKeywords) then EndHeader
    else NotHeader
  }

  lemma PrefixOccurs(p: string, s: string)
    requires p <= s
    ensures IsSubstring(p, s)
  {
  }

  lemma OccursAfterOne(p: string, s: string)
    requires |s| > 0 && p <= s[1..]
    ensures IsSubstring(p, s)
  {
    assert IsSubstring(p, s[1..]);
  }

  /**
   * The eight spoken keywords come down to four: every other one contains 口语,
   * 表达 or 达词汇.
   */
  lemma SpokenKeywordsReduce(text: string)
    ensures ContainsAny(text, SpokenKeywords) <==>
      IsSubstring("口语", text) || IsSubstring("表达", text) || IsSubstring("达词汇", text) || IsSubstring("适麦达", text)
  {
    var kw := SpokenKeywords;
    ContainsAnyIsSome(text, kw);
    assert kw[3] == "口语" && kw[4] == "表达" && kw[6] == "达词汇" && kw[7] == "适麦达";
    if ContainsAny(text, kw) {
      var k :| 0 <= k < |kw| && IsSubstring(kw[k], text);
      if k == 0 || k == 1 {
        PrefixOccurs("口语", kw[k]);
        SubstringTransitive("口语", kw[k], text);
      } else if k == 2 {
        PrefixOccurs("表达", kw[k]);
        SubstringTransitive("表达", kw[k], text);
      } else if k == 5 {
        OccursAfterOne("达词汇", kw[k]);
        SubstringTransitive("达词汇", kw[k], text);
      }
    }
  }

  /** The five practice keywords come down to two: 识读 and 词语. */
  lemma PracticeKeywordsReduce(text: string)
    ensures ContainsAny(text, PracticeKeywords) <==> IsSubstring("识读", text) || IsSubstring("词语", text)
  {
    var kw := PracticeKeywords;
    ContainsAnyIsSome(text, kw);
    assert kw[1] == "识读" && kw[3] == "词语";
    if ContainsAny(text, kw) {
      var k :| 0 <= k < |kw| && IsSubstring(kw[k], text);
      if k == 0 || k == 4 {
        PrefixOccurs("识读", kw[k]);
        SubstringTransitive("识读", kw[k], text);
      } else if k == 2 {
        OccursAfterOne("词语", kw[k]);
        SubstringTransitive("词语", kw[k], text);
      }
    }
  }

  /** The kind of every item. */
  function Kinds(items: seq<TextItem>): (r: seq<Header>)
    ensures |r| == |items| && forall k :: 0 <= k < |items| ==> r[k] == Classify(items[k].text)
  {
    if items == [] then [] else [Classify(items[0].text)] + Kinds(items[1..])
  }

  /** The last index below `n` of the given kind. */
  function LastWith(kinds: seq<Header>, h: Header, n: nat): (r: Option<nat>)
    requires n <= |kinds|
    ensures r.Some? ==> r.value < n && kinds[r.value] == h && forall j :: r.value < j < n ==> kinds[j] != h
    ensures r.None? ==> forall j :: 0 <= j < n ==> kinds[j] != h
  {
    if n == 0 then None
    else if kinds[n - 1] == h then Some(n - 1)
    else LastWith(kinds, h, n - 1)
  }

  /** The first index below `n` of the given kind. */
  function FirstWith(kinds: seq<Header>, h: Header, n: nat): (r: Option<nat>)
    requires n <= |kinds|
    ensures r.Some? ==> r.value < n && kinds[r.value] == h && forall j :: 0 <= j < r.value ==> kinds[j] != h
    ensures r.None? ==> forall j :: 0 <= j < n ==> kinds[j] != h
  {
    if n == 0 then None
    else
      match FirstWith(kinds, h, n - 1)
      case Some(k) => Some(k)
      case None => if kinds[n - 1] == h then Some(n - 1) else None
  }

  function TopOf(items: seq<TextItem>, k: Option<nat>): Option<int>
    requires k.Some? ==> k.value < |items|
  {
    match k
    case None => None
    case Some(i) => Some(Key(items[i]))
  }

  /**
   * `spoken_header_y`, `practice_header_y` and `end_section_y`: the top of the
   * LAST spoken header, of the LAST practice header (each match overwrites the
   * one before), and of the FIRST end marker. The tests of each item run in
   * the order of `Classify`.
   */
  method LocateHeaders(items: seq<TextItem>) returns (spokenY: Option<int>, practiceY: Option<int>, endY: Option<int>)
    ensures spokenY == TopOf(items, LastWith(Kinds(items), SpokenHeader, |items|))
    ensures practiceY == TopOf(items, LastWith(Kinds(items), PracticeHeader, |items|))
    ensures endY == TopOf(items, FirstWith(Kinds(items), EndHeader, |items|))
  {
    spokenY, practiceY, endY := None, None, None;
    for i := 0 to |items|
      invariant (spokenY, practiceY, endY) == HeaderTops(items, i)
    {
      var kind := Classify(items[i].text);
      HeaderTopsNext(items, i);
      var yPos := Key(items[i]);
      if kind == SpokenHeader {
        spokenY := Some(yPos);
      } else if kind == PracticeHeader {
        practiceY := Some(yPos);
      } else if kind == EndHeader {
        if endY.None? {
          endY := Some(yPos);
        }
      }
    }
  }

  /** The three recorded positions after the first `n` items. */
  function HeaderTops(items: seq<TextItem>, n: nat): (Option<int>, Option<int>, Option<int>)
    requires n <= |items|
  {
    var kinds := Kinds(items);
    (TopOf(items, LastWith(kinds, SpokenHeader, n)), TopOf(items, LastWith(kinds, PracticeHeader, n)),
     TopOf(items, FirstWith(kinds, EndHeader, n)))
  }

  /** What one item does to the recorded positions. */
  function Record(tops: (Option<int>, Option<int>, Option<int>), kind: Header, y: int): (Option<int>, Option<int>, Option<int>) {
    match kind
    case SpokenHeader => (Some(y), tops.1, tops.2)
    case PracticeHeader => (tops.0, Some(y), tops.2)
    case EndHeader => (tops.0, tops.1, if tops.2.None? then Some(y) else tops.2)
    case NotHeader => tops
  }

  lemma HeaderTopsNext(items: seq<TextItem>, i: nat)
    requires i < |items|
    ensures HeaderTops(items, i + 1) == Record(HeaderTops(items, i), Classify(items[i].text), Key(items[i]))
  {
    var kinds := Kinds(items);
    assert kinds[i] == Classify(items[i].text);
  }

  /**
   * On items in top-to-bottom order the recorded header position is the
   * lowest one on the page: no header of that kind lies below it.
   */
  lemma LastHeaderIsLowest(items: seq<TextItem>, h: Header, k: nat)
    requires SortedByTop(items) && k < |items| && Kinds(items)[k] == h
    ensures LastWith(Kinds(items), h, |items|).Some?
    ensures Key(items[k]) <= TopOf(items, LastWith(Kinds(items), h, |items|)).value
  {
  }
}
