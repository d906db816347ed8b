/**
 * `parse_vocabulary_from_ocr`: normalise the fragments; if there are
 * vocabulary lines, sort the text items, locate the headers and route the
 * lines (direct extraction), returning at once when both lists are filled;
 * otherwise scan the sorted items section by section, seeded with what the
 * direct extraction found, and fall back to the worksheet lists when no
 * section was found. Both lists always go through the correction pass.
 */
module Pipeline {
  import opened Text
  import opened Lists
  import opened Fragments
  import opened Headers
  import opened DirectMode
  import opened SectionScan
  import opened Fallback
  import opened Corrections

  /** How the lists were obtained: the diagnostic part of the result that is modelled. */
  datatype Diagnostics =
    | NoResult                                           // the OCR result was empty
    | DirectLines                                        // direct extraction filled both lists
    | Sectioned(spokenFound: bool, practiceFound: bool)  // section scan, with its flags

  datatype Extraction = Extraction(vocab: Vocab, diag: Diagnostics)

  /** `''.join(item['text'] for item in items)`. */
  function FullText(items: seq<TextItem>): string
    decreases |items|
  {
    if items == [] then [] else FullText(items[..|items| - 1]) + items[|items| - 1].text
  }

  /** The direct lists for sorted items and the vocabulary lines. */
  function DirectStage(items: seq<TextItem>, lines: seq<VocabLine>): Vocab {
    var kinds := Kinds(items);
    Route(lines, items, TopOf(items, LastWith(kinds, SpokenHeader, |items|)),
          TopOf(items, LastWith(kinds, PracticeHeader, |items|)))
  }

  /** The text items in top-to-bottom order. */
  function SortedItems(ocr: seq<Fragment>): seq<TextItem> {
    SortByTop(TextItems(ocr))
  }

  /** What the direct extraction leaves for the section scan: nothing when there are no vocabulary lines. */
  function Seed(ocr: seq<Fragment>): Vocab {
    var lines := VocabLines(ocr);
    if |lines| >= 1 then DirectStage(SortedItems(ocr), lines) else Vocab([], [])
  }

  function CorrectBoth(v: Vocab): Vocab {
    Vocab(Corrected(v.spoken), Corrected(v.practice))
  }

  /** The result of the whole parse. */
  function Parse(ocr: seq<Fragment>): Extraction {
    if ocr == [] then Extraction(Vocab([], []), NoResult)
    else
      var seed := Seed(ocr);
      if seed.spoken != [] && seed.practice != [] then Extraction(CorrectBoth(seed), DirectLines)
      else
        var items := SortedItems(ocr);
        var st := ScanItems(items, seed);
        var v := if !st.spokenFound && !st.practiceFound then FallbackLists(FullText(items))
                 else Sections(items, seed);
        Extraction(CorrectBoth(v), Sectioned(st.spokenFound, st.practiceFound))
  }

  /** `parse_vocabulary_from_ocr(ocr_result)`. */
  method ParseVocabularyFromOcr(ocr: seq<Fragment>) returns (r: Extraction)
    ensures r == Parse(ocr)
    ensures ocr == [] ==> r.vocab == Vocab([], [])
    ensures NoDup(r.vocab.spoken) && NoDup(r.vocab.practice)
    ensures AllWords(r.vocab.spoken) && AllShort(r.vocab.practice)
  {
    if ocr == [] {
      return Extraction(Vocab([], []), NoResult);
    }
    var items, lines := Normalise(ocr);
    var spoken, practice := [], [];
    if |lines| >= 1 {
      items := SortByTop(items);
      var spokenY, practiceY, endY := LocateHeaders(items);
      var direct := ClassifyLines(lines, items, spokenY, practiceY);
      if direct.spoken != [] && direct.practice != [] {
        var s := ApplyOcrCorrections(direct.spoken);
        var p := ApplyOcrCorrections(direct.practice);
        r := Extraction(Vocab(s, p), DirectLines);
        ParseFacts(ocr);
        return;
      }
      spoken, practice := direct.spoken, direct.practice;
      SortIdempotent(TextItems(ocr));
    }
    items := SortByTop(items);
    var fullText := FullText(items);
    var found, spokenFound, practiceFound := ScanSections(items, Vocab(spoken, practice));
    if !spokenFound && !practiceFound {
      found := FallbackExtraction(fullText);
    }
    var s := ApplyOcrCorrections(found.spoken);
    var p := ApplyOcrCorrections(found.practice);
    r := Extraction(Vocab(s, p), Sectioned(spokenFound, practiceFound));
    ParseFacts(ocr);
  }

  /** The direct lists are duplicate-free and keep their shape. */
  lemma SeedFacts(ocr: seq<Fragment>)
    ensures NoDup(Seed(ocr).spoken) && NoDup(Seed(ocr).practice)
    ensures AllWords(Seed(ocr).spoken) && AllShort(Seed(ocr).practice)
  {
    var items, lines := SortedItems(ocr), VocabLines(ocr);
    if |lines| >= 1 {
      var kinds := Kinds(items);
      RouteShape(lines, items, TopOf(items, LastWith(kinds, SpokenHeader, |items|)),
                 TopOf(items, LastWith(kinds, PracticeHeader, |items|)));
    }
  }

  /** The correction pass keeps the shape of both lists and makes them duplicate-free and final. */
  lemma CorrectBothFacts(v: Vocab)
    requires AllWords(v.spoken) && AllShort(v.practice)
    ensures var c := CorrectBoth(v);
      NoDup(c.spoken) && NoDup(c.practice) && AllWords(c.spoken) && AllShort(c.practice) &&
      (forall w :: w in c.spoken ==> !IsSubstring("眼晴", w)) &&
      (forall w :: w in c.practice ==> !IsSubstring("眼晴", w)) &&
      CorrectBoth(c) == c
  {
    CorrectedFacts(v.spoken);
    CorrectedFacts(v.practice);
    CorrectedKeepsWords(v.spoken);
    CorrectedKeepsShort(v.practice);
    CorrectedIdempotent(v.spoken);
    CorrectedIdempotent(v.practice);
  }

  /**
   * Whatever path the parse takes, both lists are duplicate-free, spoken
   * entries are CJK words, practice entries one or two CJK characters, no
   * entry contains the misread 眼晴, and correcting again changes nothing.
   */
  lemma ParseFacts(ocr: seq<Fragment>)
    ensures var v := Parse(ocr).vocab;
      NoDup(v.spoken) && NoDup(v.practice) && AllWords(v.spoken) && AllShort(v.practice) &&
      (forall w :: w in v.spoken ==> !IsSubstring("眼晴", w)) &&
      (forall w :: w in v.practice ==> !IsSubstring("眼晴", w)) &&
      CorrectBoth(v) == v
  {
    if ocr != [] {
      var seed := Seed(ocr);
      var items := SortedItems(ocr);
      SeedFacts(ocr);
      if seed.spoken != [] && seed.practice != [] {
        CorrectBothFacts(seed);
      } else {
        var st := ScanItems(items, seed);
        if !st.spokenFound && !st.practiceFound {
          FallbackShape(FullText(items));
          CorrectBothFacts(FallbackLists(FullText(items)));
        } else {
          SectionsFacts(items, seed);
          CorrectBothFacts(Sections(items, seed));
        }
      }
    }
  }

  lemma CorrectedNotEmpty(words: seq<string>)
    requires words != []
    ensures Corrected(words) != []
  {
    CorrectedFacts(words);
    assert Correct(words[0]) in Corrected(words);
  }

  /** The direct result is returned only with both lists non-empty. */
  lemma DirectHasBoth(ocr: seq<Fragment>)
    requires Parse(ocr).diag == DirectLines
    ensures Parse(ocr).vocab.spoken != [] && Parse(ocr).vocab.practice != []
  {
    CorrectedNotEmpty(Seed(ocr).spoken);
    CorrectedNotEmpty(Seed(ocr).practice);
  }

  /** The diagnostics of a scanned page are the scan's two flags. */
  lemma ScannedDiagnostics(ocr: seq<Fragment>)
    requires Parse(ocr).diag.Sectioned?
    ensures var st := ScanItems(SortedItems(ocr), Seed(ocr));
      Parse(ocr).diag == Sectioned(st.spokenFound, st.practiceFound)
  {
  }

  /**
   * On a scanned page the spoken flag is set exactly when the direct spoken
   * list was not empty or some text item is a spoken header, and the practice
   * flag likewise with the practice list and practice headers.
   */
  lemma ParseDiagnostics(ocr: seq<Fragment>)
    requires Parse(ocr).diag.Sectioned?
    ensures Parse(ocr).diag.spokenFound <==>
      Seed(ocr).spoken != [] || SpokenHeader in Kinds(SortedItems(ocr))
    ensures Parse(ocr).diag.practiceFound <==>
      Seed(ocr).practice != [] || PracticeHeader in Kinds(SortedItems(ocr))
  {
    var items, seed := SortedItems(ocr), Seed(ocr);
    var kinds := Kinds(items);
    var st := ScanItems(items, seed);
    ScannedDiagnostics(ocr);
    ScanFlags(kinds, ItemPhrases(items), ItemChars(items), Start(seed), |items|);
    assert st.spokenFound <==> seed.spoken != [] || SpokenHeader in kinds;
    assert st.practiceFound <==> seed.practice != [] || PracticeHeader in kinds;
  }

  /**
   * The fallback runs (both flags false) exactly when the section scan ran,
   * the direct extraction left both lists empty and no text item is a spoken
   * or a practice header.
   */
  lemma FallbackExactlyWithoutSections(ocr: seq<Fragment>)
    requires Parse(ocr).diag.Sectioned?
    ensures Parse(ocr).diag == Sectioned(false, false) <==>
      Seed(ocr) == Vocab([], []) &&
      SpokenHeader !in Kinds(SortedItems(ocr)) && PracticeHeader !in Kinds(SortedItems(ocr))
  {
    var seed := Seed(ocr);
    ParseDiagnostics(ocr);
    assert seed == Vocab([], []) <==> seed.spoken == [] && seed.practice == [];
  }
}
