/**
 * Section scan: the text items are read top to bottom; a header switches the
 * current section (an end marker switches it off), and every other item adds
 * its words to the list of the current section. The lists found before the
 * scan are its seeds and are kept in front.
 */
module SectionScan {
  import opened Text
  import opened Lists
  import Splitting
  import opened Fragments
  import opened Headers

  datatype Section = NoSection | Spoken | Practice

  datatype ScanState = ScanState(section: Section, spoken: seq<string>, practice: seq<string>,
                                 spokenFound: bool, practiceFound: bool)

  /**
   * One item: a header switches the section and sets its flag, an end
   * marker leaves every section, and any other item extends the list of the
   * current section with its phrases (spoken) or its characters (practice).
   */
  function Step(st: ScanState, kind: Header, phrases: seq<string>, chars: seq<string>): ScanState {
    match kind
    case SpokenHeader => st.(section := Spoken, spokenFound := true)
    case PracticeHeader => st.(section := Practice, practiceFound := true)
    case EndHeader => st.(section := NoSection)
    case NotHeader =>
      if st.section == Spoken then st.(spoken := st.spoken + phrases)
      else if st.section == Practice then st.(practice := st.practice + chars)
      else st
  }

  /** The state after the first `n` items, given each item's kind, phrases and characters. */
  function Scan(kinds: seq<Header>, ph: seq<seq<string>>, ch: seq<seq<string>>, st: ScanState, n: nat): ScanState
    requires |ph| == |kinds| && |ch| == |kinds| && n <= |kinds|
  {
    if n == 0 then st
    else Step(Scan(kinds, ph, ch, st, n - 1), kinds[n - 1], ph[n - 1], ch[n - 1])
  }

  /** The section opened by the last header among the first `n` items. */
  function LastSection(kinds: seq<Header>, n: nat): Section
    requires n <= |kinds|
  {
    if n == 0 then NoSection
    else
      match kinds[n - 1]
      case SpokenHeader => Spoken
      case PracticeHeader => Practice
      case EndHeader => NoSection
      case NotHeader => LastSection(kinds, n - 1)
  }

  /** The words the spoken section gains: those of every non-header item under a spoken header. */
  function SpokenGain(kinds: seq<Header>, ph: seq<seq<string>>, n: nat): seq<string>
    requires |ph| == |kinds| && n <= |kinds|
  {
    if n == 0 then []
    else SpokenGain(kinds, ph, n - 1) +
         (if kinds[n - 1] == NotHeader && LastSection(kinds, n - 1) == Spoken then ph[n - 1] else [])
  }

  /** The words the practice section gains: those of every non-header item under a practice header. */
  function PracticeGain(kinds: seq<Header>, ch: seq<seq<string>>, n: nat): seq<string>
    requires |ch| == |kinds| && n <= |kinds|
  {
    if n == 0 then []
    else PracticeGain(kinds, ch, n - 1) +
         (if kinds[n - 1] == NotHeader && LastSection(kinds, n - 1) == Practice then ch[n - 1] else [])
  }

  /**
   * Starting outside any section, the scan is in the section of the nearest
   * header above, and each list is its seed followed by the words of the
   * items under headers of its kind: what an item adds depends only on the
   * last header before it, and headers add nothing.
   */
  lemma {:induction false} ScanClosedForm(kinds: seq<Header>, ph: seq<seq<string>>, ch: seq<seq<string>>,
                                          st: ScanState, n: nat)
    requires |ph| == |kinds| && |ch| == |kinds| && n <= |kinds|
    requires st.section == NoSection
    ensures Scan(kinds, ph, ch, st, n).section == LastSection(kinds, n)
    ensures Scan(kinds, ph, ch, st, n).spoken == st.spoken + SpokenGain(kinds, ph, n)
    ensures Scan(kinds, ph, ch, st, n).practice == st.practice + PracticeGain(kinds, ch, n)
  {
    if n == 0 {
      assert st.spoken + [] == st.spoken && st.practice + [] == st.practice;
    } else {
      ScanClosedForm(kinds, ph, ch, st, n - 1);
      var gs, gp := SpokenGain(kinds, ph, n - 1), PracticeGain(kinds, ch, n - 1);
      assert gs + [] == gs && gp + [] == gp;
      if kinds[n - 1] == NotHeader && LastSection(kinds, n - 1) == Spoken {
        assert st.spoken + gs + ph[n - 1] == st.spoken + (gs + ph[n - 1]);
      } else if kinds[n - 1] == NotHeader && LastSection(kinds, n - 1) == Practice {
        assert st.practice + gp + ch[n - 1] == st.practice + (gp + ch[n - 1]);
      }
    }
  }

  /** A flag is set exactly when it started set or a header of its kind was seen. */
  lemma {:induction false} ScanFlags(kinds: seq<Header>, ph: seq<seq<string>>, ch: seq<seq<string>>,
                                     st: ScanState, n: nat)
    requires |ph| == |kinds| && |ch| == |kinds| && n <= |kinds|
    ensures Scan(kinds, ph, ch, st, n).spokenFound <==>
      st.spokenFound || exists k :: 0 <= k < n && kinds[k] == SpokenHeader
    ensures Scan(kinds, ph, ch, st, n).practiceFound <==>
      st.practiceFound || exists k :: 0 <= k < n && kinds[k] == PracticeHeader
  {
    if n > 0 {
      ScanFlags(kinds, ph, ch, st, n - 1);
      if exists k :: 0 <= k < n && kinds[k] == SpokenHeader {
        var k :| 0 <= k < n && kinds[k] == SpokenHeader;
        assert k < n - 1 ==> exists j :: 0 <= j < n - 1 && kinds[j] == SpokenHeader;
      }
      if exists k :: 0 <= k < n && kinds[k] == PracticeHeader {
        var k :| 0 <= k < n && kinds[k] == PracticeHeader;
        assert k < n - 1 ==> exists j :: 0 <= j < n - 1 && kinds[j] == PracticeHeader;
      }
    }
  }

  /**
   * After an end marker at `i`, items up to the next spoken or practice
   * header add nothing to either list.
   */
  lemma {:induction false} EndMarkerSilences(kinds: seq<Header>, ph: seq<seq<string>>, ch: seq<seq<string>>,
                                             st: ScanState, i: nat, j: nat)
    requires |ph| == |kinds| && |ch| == |kinds| && i < j <= |kinds|
    requires kinds[i] == EndHeader
    requires forall k :: i < k < j ==> kinds[k] != SpokenHeader && kinds[k] != PracticeHeader
    ensures Scan(kinds, ph, ch, st, j).section == NoSection
    ensures Scan(kinds, ph, ch, st, j).spoken == Scan(kinds, ph, ch, st, i + 1).spoken
    ensures Scan(kinds, ph, ch, st, j).practice == Scan(kinds, ph, ch, st, i + 1).practice
  {
    if j > i + 1 {
      EndMarkerSilences(kinds, ph, ch, st, i, j - 1);
    }
  }

  /** The phrases of every item, split at the extraction delimiters. */
  function ItemPhrases(items: seq<TextItem>): (r: seq<seq<string>>)
    ensures |r| == |items|
    ensures forall k :: 0 <= k < |items| ==> r[k] == Splitting.Phrases(Splitting.Extract, items[k].text)
  {
    if items == [] then [] else [Splitting.Phrases(Splitting.Extract, items[0].text)] + ItemPhrases(items[1..])
  }

  /** The practice words of every item, split at the extraction delimiters. */
  function ItemChars(items: seq<TextItem>): (r: seq<seq<string>>)
    ensures |r| == |items|
    ensures forall k :: 0 <= k < |items| ==> r[k] == Splitting.Characters(Splitting.Extract, items[k].text)
  {
    if items == [] then [] else [Splitting.Characters(Splitting.Extract, items[0].text)] + ItemChars(items[1..])
  }

  /** The scan starts outside any section, and each flag is set when its seed list is not empty. */
  function Start(seed: Vocab): ScanState {
    ScanState(NoSection, seed.spoken, seed.practice, seed.spoken != [], seed.practice != [])
  }

  function ScanItems(items: seq<TextItem>, seed: Vocab): ScanState {
    Scan(Kinds(items), ItemPhrases(items), ItemChars(items), Start(seed), |items|)
  }

  /** The lists after the scan, each with repeated words dropped (the first stays). */
  function Sections(items: seq<TextItem>, seed: Vocab): Vocab {
    var st := ScanItems(items, seed);
    Vocab(KeepFirst(st.spoken), KeepFirst(st.practice))
  }

  lemma {:induction false} SpokenGainWords(kinds: seq<Header>, ph: seq<seq<string>>, n: nat)
    requires |ph| == |kinds| && n <= |kinds|
    requires forall k :: 0 <= k < |ph| ==> AllWords(ph[k])
    ensures AllWords(SpokenGain(kinds, ph, n))
  {
    if n > 0 {
      SpokenGainWords(kinds, ph, n - 1);
      AllWordsAppend(SpokenGain(kinds, ph, n - 1),
                     if kinds[n - 1] == NotHeader && LastSection(kinds, n - 1) == Spoken then ph[n - 1] else []);
    }
  }

  lemma {:induction false} PracticeGainShort(kinds: seq<Header>, ch: seq<seq<string>>, n: nat)
    requires |ch| == |kinds| && n <= |kinds|
    requires forall k :: 0 <= k < |ch| ==> AllShort(ch[k])
    ensures AllShort(PracticeGain(kinds, ch, n))
  {
    if n > 0 {
      PracticeGainShort(kinds, ch, n - 1);
      AllShortAppend(PracticeGain(kinds, ch, n - 1),
                     if kinds[n - 1] == NotHeader && LastSection(kinds, n - 1) == Practice then ch[n - 1] else []);
    }
  }

  /**
   * The section lists are duplicate-free, begin with their seeds, and keep
   * the shape of their entries: CJK words for spoken, one or two CJK
   * characters for practice.
   */
  lemma SectionsFacts(items: seq<TextItem>, seed: Vocab)
    requires NoDup(seed.spoken) && NoDup(seed.practice)
    requires AllWords(seed.spoken) && AllShort(seed.practice)
    ensures var v := Sections(items, seed);
      NoDup(v.spoken) && NoDup(v.practice) &&
      seed.spoken <= v.spoken && seed.practice <= v.practice &&
      AllWords(v.spoken) && AllShort(v.practice)
  {
    var kinds, ph, ch := Kinds(items), ItemPhrases(items), ItemChars(items);
    var n := |items|;
    ScanClosedForm(kinds, ph, ch, Start(seed), n);
    var gs, gp := SpokenGain(kinds, ph, n), PracticeGain(kinds, ch, n);
    SeedStaysInFront(seed.spoken, gs);
    SeedStaysInFront(seed.practice, gp);
    forall k | 0 <= k < n ensures AllWords(ph[k]) && AllShort(ch[k]) {
      Splitting.PhrasesFacts(Splitting.Extract, items[k].text);
      Splitting.CharactersShape(Splitting.Extract, items[k].text);
    }
    SpokenGainWords(kinds, ph, n);
    PracticeGainShort(kinds, ch, n);
    KeepFirstWords(seed.spoken, gs);
    KeepFirstShort(seed.practice, gp);
  }

  lemma KeepFirstWords(a: seq<string>, b: seq<string>)
    requires AllWords(a) && AllWords(b)
    ensures AllWords(KeepFirst(a + b))
  {
    var r := KeepFirst(a + b);
    forall k | 0 <= k < |r| ensures r[k] != [] && AllCjk(r[k]) {
      assert r[k] in a + b;
      assert r[k] in a || r[k] in b;
    }
  }

  lemma KeepFirstShort(a: seq<string>, b: seq<string>)
    requires AllShort(a) && AllShort(b)
    ensures AllShort(KeepFirst(a + b))
  {
    var r := KeepFirst(a + b);
    forall k | 0 <= k < |r| ensures 1 <= |r[k]| <= 2 && AllCjk(r[k]) {
      assert r[k] in a + b;
      assert r[k] in a || r[k] in b;
    }
  }

  /**
   * A word is in the spoken list exactly when it was a seed or an item below
   * a spoken header (and below no later header) yields it as a phrase.
   */
  lemma SpokenMembers(items: seq<TextItem>, seed: Vocab, w: string)
    ensures w in Sections(items, seed).spoken <==>
      w in seed.spoken || w in SpokenGain(Kinds(items), ItemPhrases(items), |items|)
  {
    SectionsClosedForm(items, seed);
  }

  /**
   * A word is in the practice list exactly when it was a seed or an item below
   * a practice header (and below no later header) yields it as a character entry.
   */
  lemma PracticeMembers(items: seq<TextItem>, seed: Vocab, w: string)
    ensures w in Sections(items, seed).practice <==>
      w in seed.practice || w in PracticeGain(Kinds(items), ItemChars(items), |items|)
  {
    SectionsClosedForm(items, seed);
  }

  /** Each section list is its seed followed by what the scan gained, without repeats. */
  lemma SectionsClosedForm(items: seq<TextItem>, seed: Vocab)
    ensures Sections(items, seed)
         == Vocab(KeepFirst(seed.spoken + SpokenGain(Kinds(items), ItemPhrases(items), |items|)),
                  KeepFirst(seed.practice + PracticeGain(Kinds(items), ItemChars(items), |items|)))
  {
    ScanClosedForm(Kinds(items), ItemPhrases(items), ItemChars(items), Start(seed), |items|);
  }

  /** A word is gained for spoken exactly when a non-header item whose nearest header above is a spoken header yields it. */
  lemma {:induction false} InSpokenGain(kinds: seq<Header>, ph: seq<seq<string>>, n: nat, w: string)
    requires |ph| == |kinds| && n <= |kinds|
    ensures w in SpokenGain(kinds, ph, n) <==>
      exists k :: 0 <= k < n && kinds[k] == NotHeader && LastSection(kinds, k) == Spoken && w in ph[k]
  {
    if n > 0 {
      InSpokenGain(kinds, ph, n - 1, w);
      if exists k :: 0 <= k < n && kinds[k] == NotHeader && LastSection(kinds, k) == Spoken && w in ph[k] {
        var k :| 0 <= k < n && kinds[k] == NotHeader && LastSection(kinds, k) == Spoken && w in ph[k];
        if k < n - 1 {
          assert exists j :: 0 <= j < n - 1 && kinds[j] == NotHeader && LastSection(kinds, j) == Spoken && w in ph[j];
        }
      }
      if w in SpokenGain(kinds, ph, n - 1) {
        var k :| 0 <= k < n - 1 && kinds[k] == NotHeader && LastSection(kinds, k) == Spoken && w in ph[k];
        assert 0 <= k < n && kinds[k] == NotHeader && LastSection(kinds, k) == Spoken && w in ph[k];
      }
    }
  }

  /** A word is gained for practice exactly when a non-header item whose nearest header above is a practice header yields it. */
  lemma {:induction false} InPracticeGain(kinds: seq<Header>, ch: seq<seq<string>>, n: nat, w: string)
    requires |ch| == |kinds| && n <= |kinds|
    ensures w in PracticeGain(kinds, ch, n) <==>
      exists k :: 0 <= k < n && kinds[k] == NotHeader && LastSection(kinds, k) == Practice && w in ch[k]
  {
    if n > 0 {
      InPracticeGain(kinds, ch, n - 1, w);
      if exists k :: 0 <= k < n && kinds[k] == NotHeader && LastSection(kinds, k) == Practice && w in ch[k] {
        var k :| 0 <= k < n && kinds[k] == NotHeader && LastSection(kinds, k) == Practice && w in ch[k];
        if k < n - 1 {
          assert exists j :: 0 <= j < n - 1 && kinds[j] == NotHeader && LastSection(kinds, j) == Practice && w in ch[j];
        }
      }
      if w in PracticeGain(kinds, ch, n - 1) {
        var k :| 0 <= k < n - 1 && kinds[k] == NotHeader && LastSection(kinds, k) == Practice && w in ch[k];
        assert 0 <= k < n && kinds[k] == NotHeader && LastSection(kinds, k) == Practice && w in ch[k];
      }
    }
  }

  /** An empty text has no words. */
  lemma EmptyTextHasNoWords(d: Splitting.Delims)
    ensures Splitting.Phrases(d, []) == [] && Splitting.Characters(d, []) == []
  {
    var pieces := Splitting.Split(d, []);
    assert pieces == [[]];
    assert Splitting.Tokens(pieces) == Splitting.Tokens([]) + [];
  }

  lemma ScanPrefixNext(items: seq<TextItem>, seed: Vocab, i: nat)
    requires i < |items|
    ensures ScanPrefix(items, seed, i + 1)
         == Step(ScanPrefix(items, seed, i), Classify(items[i].text),
                 Splitting.Phrases(Splitting.Extract, items[i].text),
                 Splitting.Characters(Splitting.Extract, items[i].text))
  {
  }

  /** The body of the section loop for one item. */
  method ScanItem(st: ScanState, text: string) returns (next: ScanState)
    ensures next == Step(st, Classify(text), Splitting.Phrases(Splitting.Extract, text),
                         Splitting.Characters(Splitting.Extract, text))
  {
    var kind := Classify(text);
    next := st;
    if kind == SpokenHeader {
      next := next.(section := Spoken, spokenFound := true);
    } else if kind == PracticeHeader {
      next := next.(section := Practice, practiceFound := true);
    } else if kind == EndHeader {
      next := next.(section := NoSection);
    } else if st.section != NoSection && text != [] {
      if st.section == Spoken {
        var words := Splitting.ExtractChinesePhrases(text);
        if words != [] {
          next := next.(spoken := st.spoken + words);
        } else {
          assert st.spoken + words == st.spoken;
        }
      } else {
        var words := Splitting.ExtractChineseWords(text);
        if words != [] {
          next := next.(practice := st.practice + words);
        } else {
          assert st.practice + words == st.practice;
        }
      }
    } else if text == [] {
      EmptyTextHasNoWords(Splitting.Extract);
      assert st.spoken + [] == st.spoken && st.practice + [] == st.practice;
    }
  }

  /** The scan over the first `n` items, read straight from their texts. */
  function ScanPrefix(items: seq<TextItem>, seed: Vocab, n: nat): ScanState
    requires n <= |items|
  {
    if n == 0 then Start(seed)
    else Step(ScanPrefix(items, seed, n - 1), Classify(items[n - 1].text),
              Splitting.Phrases(Splitting.Extract, items[n - 1].text),
              Splitting.Characters(Splitting.Extract, items[n - 1].text))
  }

  lemma {:induction false} ScanPrefixIsScan(items: seq<TextItem>, seed: Vocab, n: nat)
    requires n <= |items|
    ensures ScanPrefix(items, seed, n) == Scan(Kinds(items), ItemPhrases(items), ItemChars(items), Start(seed), n)
  {
    if n > 0 {
      ScanPrefixIsScan(items, seed, n - 1);
    }
  }

  /**
   * The section loop and the duplicate removal after it, seeded with the
   * lists the direct extraction left behind.
   */
  method ScanSections(items: seq<TextItem>, seed: Vocab) returns (v: Vocab, spokenFound: bool, practiceFound: bool)
    ensures v == Sections(items, seed)
    ensures spokenFound == ScanItems(items, seed).spokenFound
    ensures practiceFound == ScanItems(items, seed).practiceFound
  {
    var st := Start(seed);
    for i := 0 to |items|
      invariant st == ScanPrefix(items, seed, i)
    {
      ScanPrefixNext(items, seed, i);
      st := ScanItem(st, items[i].text);
    }
    ScanPrefixIsScan(items, seed, |items|);
    v := Vocab(KeepFirst(st.spoken), KeepFirst(st.practice));
    spokenFound, practiceFound := st.spokenFound, st.practiceFound;
  }
}
