/**
 * Direct extraction: every vocabulary line goes either to the spoken list
 * (split into phrases) or to the practice list (split into characters).
 * With both section headers located, a line goes by the height of the first
 * text item that shows it; otherwise every line but the last is spoken.
 */
module DirectMode {
  import opened Wrappers
  import opened Text
  import opened Lists
  import Splitting
  import opened Fragments

  /** The item shows the line: same raw text, or its cleaned text contains the line. */
  predicate Shows(item: TextItem, line: VocabLine) {
    item.original == line.text || IsSubstring(line.text, item.text)
  }

  /** The index of the first item that shows the line. */
  function FirstShowing(items: seq<TextItem>, line: VocabLine): (r: Option<nat>)
    ensures r.Some? ==> r.value < |items| && Shows(items[r.value], line) &&
                        forall j :: 0 <= j < r.value ==> !Shows(items[j], line)
    ensures r.None? ==> forall j :: 0 <= j < |items| ==> !Shows(items[j], line)
    decreases |items|
  {
    if items == [] then None
    else if Shows(items[0], line) then Some(0)
    else
      match FirstShowing(items[1..], line)
      case None => None
      case Some(k) => Some(k + 1)
  }

  /** The search loop over the text items, leaving at the first item that shows the line. */
  method FindShowing(items: seq<TextItem>, line: VocabLine) returns (r: Option<nat>)
    ensures r == FirstShowing(items, line)
  {
    var i := 0;
    while i < |items|
      invariant i <= |items|
      invariant forall j :: 0 <= j < i ==> !Shows(items[j], line)
    {
      if items[i].original == line.text || IsSubstring(line.text, items[i].text) {
        r := Some(i);
        FirstShowingIsFirst(items, line, i);
        return;
      }
      i := i + 1;
    }
    r := None;
    FirstShowingNone(items, line);
  }

  lemma FirstShowingIsFirst(items: seq<TextItem>, line: VocabLine, i: nat)
    requires i < |items| && Shows(items[i], line)
    requires forall j :: 0 <= j < i ==> !Shows(items[j], line)
    ensures FirstShowing(items, line) == Some(i)
  {
    var r := FirstShowing(items, line);
    assert r.Some? && r.value <= i;
  }

  lemma FirstShowingNone(items: seq<TextItem>, line: VocabLine)
    requires forall j :: 0 <= j < |items| ==> !Shows(items[j], line)
    ensures FirstShowing(items, line) == None
  {
  }

  /** Where the line goes: `true` for the spoken list. */
  function IsSpokenLine(lines: seq<VocabLine>, k: nat, items: seq<TextItem>,
                        spokenY: Option<int>, practiceY: Option<int>): bool
    requires k < |lines|
  {
    if spokenY.Some? && practiceY.Some? then
      match FirstShowing(items, lines[k])
      case None => true
      case Some(j) => Key(items[j]) < practiceY.value
    else
      IndexOf(lines, lines[k]) < |lines| - 1
  }

  /** Where each of the first `n` lines goes: `true` for the spoken list. */
  function DestinationsUpTo(lines: seq<VocabLine>, items: seq<TextItem>,
                            spokenY: Option<int>, practiceY: Option<int>, n: nat): (r: seq<bool>)
    requires n <= |lines|
    ensures |r| == n
    ensures forall k :: 0 <= k < n ==> r[k] == IsSpokenLine(lines, k, items, spokenY, practiceY)
  {
    if n == 0 then []
    else DestinationsUpTo(lines, items, spokenY, practiceY, n - 1) + [IsSpokenLine(lines, n - 1, items, spokenY, practiceY)]
  }

  /** Where each line goes: `true` for the spoken list. */
  function Destinations(lines: seq<VocabLine>, items: seq<TextItem>,
                        spokenY: Option<int>, practiceY: Option<int>): (r: seq<bool>)
    ensures |r| == |lines|
    ensures forall k :: 0 <= k < |lines| ==> r[k] == IsSpokenLine(lines, k, items, spokenY, practiceY)
  {
    DestinationsUpTo(lines, items, spokenY, practiceY, |lines|)
  }

  /** What each line yields when it is spoken: its phrases. */
  function PhraseLists(lines: seq<VocabLine>): (r: seq<seq<string>>)
    ensures |r| == |lines|
    ensures forall k :: 0 <= k < |lines| ==> r[k] == Splitting.Phrases(Splitting.VocabLine, lines[k].text)
  {
    if lines == [] then []
    else [Splitting.Phrases(Splitting.VocabLine, lines[0].text)] + PhraseLists(lines[1..])
  }

  /** What each line yields when it is practice: its characters. */
  function CharLists(lines: seq<VocabLine>): (r: seq<seq<string>>)
    ensures |r| == |lines|
    ensures forall k :: 0 <= k < |lines| ==> r[k] == Splitting.Characters(Splitting.VocabLine, lines[k].text)
  {
    if lines == [] then []
    else [Splitting.Characters(Splitting.VocabLine, lines[0].text)] + CharLists(lines[1..])
  }

  /** One line's words appended, skipping those already present, to the list it goes to. */
  function Place(v: Vocab, isSpoken: bool, phrases: seq<string>, chars: seq<string>): Vocab {
    if isSpoken then v.(spoken := AppendNew(v.spoken, phrases))
    else v.(practice := AppendNew(v.practice, chars))
  }

  /**
   * The two lists after the first `n` lines: each line's words are appended,
   * skipping those already present, to the list the line goes to.
   */
  function Distribute(dest: seq<bool>, ph: seq<seq<string>>, ch: seq<seq<string>>, n: nat): Vocab
    requires |ph| == |dest| && |ch| == |dest| && n <= |dest|
  {
    if n == 0 then Vocab([], [])
    else Place(Distribute(dest, ph, ch, n - 1), dest[n - 1], ph[n - 1], ch[n - 1])
  }

  /** The lists the direct extraction builds from all vocabulary lines. */
  function Route(lines: seq<VocabLine>, items: seq<TextItem>,
                 spokenY: Option<int>, practiceY: Option<int>): Vocab
  {
    Distribute(Destinations(lines, items, spokenY, practiceY), PhraseLists(lines), CharLists(lines), |lines|)
  }

  lemma AppendNewWords(acc: seq<string>, xs: seq<string>)
    requires AllWords(acc) && AllWords(xs)
    ensures AllWords(AppendNew(acc, xs))
  {
    var r := AppendNew(acc, xs);
    forall k | 0 <= k < |r| ensures r[k] != [] && AllCjk(r[k]) {
      assert r[k] in acc || r[k] in xs;
    }
  }

  lemma AppendNewShort(acc: seq<string>, xs: seq<string>)
    requires AllShort(acc) && AllShort(xs)
    ensures AllShort(AppendNew(acc, xs))
  {
    var r := AppendNew(acc, xs);
    forall k | 0 <= k < |r| ensures 1 <= |r[k]| <= 2 && AllCjk(r[k]) {
      assert r[k] in acc || r[k] in xs;
    }
  }

  /** Distribution keeps both lists duplicate-free and keeps the shape of the entries. */
  lemma {:induction false} DistributeShape(dest: seq<bool>, ph: seq<seq<string>>, ch: seq<seq<string>>, n: nat)
    requires |ph| == |dest| && |ch| == |dest| && n <= |dest|
    requires forall k :: 0 <= k < |ph| ==> AllWords(ph[k])
    requires forall k :: 0 <= k < |ch| ==> AllShort(ch[k])
    ensures var v := Distribute(dest, ph, ch, n);
      NoDup(v.spoken) && NoDup(v.practice) && AllWords(v.spoken) && AllShort(v.practice)
  {
    if n > 0 {
      DistributeShape(dest, ph, ch, n - 1);
      var before := Distribute(dest, ph, ch, n - 1);
      if dest[n - 1] {
        AppendNewWords(before.spoken, ph[n - 1]);
      } else {
        AppendNewShort(before.practice, ch[n - 1]);
      }
    }
  }

  /** A word is in the spoken list exactly when a line going there yields it. */
  lemma {:induction false} DistributeSpoken(dest: seq<bool>, ph: seq<seq<string>>, ch: seq<seq<string>>,
                                            n: nat, w: string)
    requires |ph| == |dest| && |ch| == |dest| && n <= |dest|
    ensures w in Distribute(dest, ph, ch, n).spoken <==> exists k :: 0 <= k < n && dest[k] && w in ph[k]
  {
    if n > 0 {
      DistributeSpoken(dest, ph, ch, n - 1, w);
      if exists k :: 0 <= k < n && dest[k] && w in ph[k] {
        var k :| 0 <= k < n && dest[k] && w in ph[k];
        if k < n - 1 {
          assert exists j :: 0 <= j < n - 1 && dest[j] && w in ph[j];
        }
      }
      if w in Distribute(dest, ph, ch, n - 1).spoken {
        var k :| 0 <= k < n - 1 && dest[k] && w in ph[k];
        assert 0 <= k < n && dest[k] && w in ph[k];
      }
    }
  }

  /** A word is in the practice list exactly when a line going there yields it. */
  lemma {:induction false} DistributePractice(dest: seq<bool>, ph: seq<seq<string>>, ch: seq<seq<string>>,
                                              n: nat, w: string)
    requires |ph| == |dest| && |ch| == |dest| && n <= |dest|
    ensures w in Distribute(dest, ph, ch, n).practice <==> exists k :: 0 <= k < n && !dest[k] && w in ch[k]
  {
    if n > 0 {
      DistributePractice(dest, ph, ch, n - 1, w);
      if exists k :: 0 <= k < n && !dest[k] && w in ch[k] {
        var k :| 0 <= k < n && !dest[k] && w in ch[k];
        if k < n - 1 {
          assert exists j :: 0 <= j < n - 1 && !dest[j] && w in ch[j];
        }
      }
      if w in Distribute(dest, ph, ch, n - 1).practice {
        var k :| 0 <= k < n - 1 && !dest[k] && w in ch[k];
        assert 0 <= k < n && !dest[k] && w in ch[k];
      }
    }
  }

  /**
   * The direct lists are duplicate-free, spoken entries are CJK words and
   * practice entries one or two CJK characters.
   */
  lemma RouteShape(lines: seq<VocabLine>, items: seq<TextItem>, spokenY: Option<int>, practiceY: Option<int>)
    ensures var v := Route(lines, items, spokenY, practiceY);
      NoDup(v.spoken) && NoDup(v.practice) && AllWords(v.spoken) && AllShort(v.practice)
  {
    var ph, ch := PhraseLists(lines), CharLists(lines);
    forall k | 0 <= k < |lines| ensures AllWords(ph[k]) && AllShort(ch[k]) {
      Splitting.PhrasesFacts(Splitting.VocabLine, lines[k].text);
      Splitting.CharactersShape(Splitting.VocabLine, lines[k].text);
    }
    DistributeShape(Destinations(lines, items, spokenY, practiceY), ph, ch, |lines|);
  }

  /** A word is in the direct spoken list exactly when a line routed there has it as a phrase. */
  lemma RouteSpokenMembers(lines: seq<VocabLine>, items: seq<TextItem>, spokenY: Option<int>, practiceY: Option<int>, w: string)
    ensures w in Route(lines, items, spokenY, practiceY).spoken <==>
      exists k :: 0 <= k < |lines| && IsSpokenLine(lines, k, items, spokenY, practiceY) &&
                  w in Splitting.Phrases(Splitting.VocabLine, lines[k].text)
  {
    var dest, ph, ch := Destinations(lines, items, spokenY, practiceY), PhraseLists(lines), CharLists(lines);
    DistributeSpoken(dest, ph, ch, |lines|, w);
    if w in Route(lines, items, spokenY, practiceY).spoken {
      var k :| 0 <= k < |lines| && dest[k] && w in ph[k];
      assert IsSpokenLine(lines, k, items, spokenY, practiceY) && w in Splitting.Phrases(Splitting.VocabLine, lines[k].text);
    }
    if exists k :: 0 <= k < |lines| && IsSpokenLine(lines, k, items, spokenY, practiceY) &&
                   w in Splitting.Phrases(Splitting.VocabLine, lines[k].text) {
      var k :| 0 <= k < |lines| && IsSpokenLine(lines, k, items, spokenY, practiceY) &&
               w in Splitting.Phrases(Splitting.VocabLine, lines[k].text);
      assert dest[k] && w in ph[k];
    }
  }

  /** A word is in the direct practice list exactly when a line routed there yields it. */
  lemma RoutePracticeMembers(lines: seq<VocabLine>, items: seq<TextItem>, spokenY: Option<int>, practiceY: Option<int>, w: string)
    ensures w in Route(lines, items, spokenY, practiceY).practice <==>
      exists k :: 0 <= k < |lines| && !IsSpokenLine(lines, k, items, spokenY, practiceY) &&
                  w in Splitting.Characters(Splitting.VocabLine, lines[k].text)
  {
    var dest, ph, ch := Destinations(lines, items, spokenY, practiceY), PhraseLists(lines), CharLists(lines);
    DistributePractice(dest, ph, ch, |lines|, w);
    if w in Route(lines, items, spokenY, practiceY).practice {
      var k :| 0 <= k < |lines| && !dest[k] && w in ch[k];
      assert !IsSpokenLine(lines, k, items, spokenY, practiceY) && w in Splitting.Characters(Splitting.VocabLine, lines[k].text);
    }
    if exists k :: 0 <= k < |lines| && !IsSpokenLine(lines, k, items, spokenY, practiceY) &&
                   w in Splitting.Characters(Splitting.VocabLine, lines[k].text) {
      var k :| 0 <= k < |lines| && !IsSpokenLine(lines, k, items, spokenY, practiceY) &&
               w in Splitting.Characters(Splitting.VocabLine, lines[k].text);
      assert !dest[k] && w in ch[k];
    }
  }

  /** The decision for one line, as the loop body takes it. */
  method LineGoesSpoken(lines: seq<VocabLine>, i: nat, items: seq<TextItem>,
                        spokenY: Option<int>, practiceY: Option<int>) returns (isSpoken: bool)
    requires i < |lines|
    ensures isSpoken == IsSpokenLine(lines, i, items, spokenY, practiceY)
  {
    isSpoken := true;
    if spokenY.Some? && practiceY.Some? {
      var m := FindShowing(items, lines[i]);
      if m.Some? {
        isSpoken := Key(items[m.value]) < practiceY.value;
      }
    } else {
      var idx := IndexOf(lines, lines[i]);
      isSpoken := idx < |lines| - 1;
    }
  }

  /** Appends one line's words to the list it goes to. */
  method AddLine(before: Vocab, isSpoken: bool, text: string) returns (after: Vocab)
    ensures after == Place(before, isSpoken, Splitting.Phrases(Splitting.VocabLine, text),
                           Splitting.Characters(Splitting.VocabLine, text))
  {
    if isSpoken {
      var words := Splitting.SplitVocabLine(text, false);
      var spoken := ExtendNew(before.spoken, words);
      after := before.(spoken := spoken);
    } else {
      var words := Splitting.SplitVocabLine(text, true);
      var practice := ExtendNew(before.practice, words);
      after := before.(practice := practice);
    }
  }

  /** `for vocab_line in vocabulary_lines: ...`: the direct extraction loop. */
  method ClassifyLines(lines: seq<VocabLine>, items: seq<TextItem>,
                       spokenY: Option<int>, practiceY: Option<int>) returns (v: Vocab)
    ensures v == Route(lines, items, spokenY, practiceY)
  {
    v := Vocab([], []);
    for i := 0 to |lines|
      invariant v == RoutePrefix(lines, items, spokenY, practiceY, i)
    {
      var isSpoken := LineGoesSpoken(lines, i, items, spokenY, practiceY);
      RoutePrefixNext(lines, items, spokenY, practiceY, i);
      v := AddLine(v, isSpoken, lines[i].text);
    }
  }

  /** The lists after the first `n` lines. */
  function RoutePrefix(lines: seq<VocabLine>, items: seq<TextItem>,
                       spokenY: Option<int>, practiceY: Option<int>, n: nat): Vocab
    requires n <= |lines|
  {
    Distribute(Destinations(lines, items, spokenY, practiceY), PhraseLists(lines), CharLists(lines), n)
  }

  lemma RoutePrefixNext(lines: seq<VocabLine>, items: seq<TextItem>,
                        spokenY: Option<int>, practiceY: Option<int>, i: nat)
    requires i < |lines|
    ensures RoutePrefix(lines, items, spokenY, practiceY, i + 1) ==
            Place(RoutePrefix(lines, items, spokenY, practiceY, i), IsSpokenLine(lines, i, items, spokenY, practiceY),
                  Splitting.Phrases(Splitting.VocabLine, lines[i].text), Splitting.Characters(Splitting.VocabLine, lines[i].text))
  {
  }

  /**
   * Without both headers and with distinct lines, exactly the last line is
   * practice and the others are spoken.
   */
  lemma OnlyLastIsPractice(lines: seq<VocabLine>, k: nat, items: seq<TextItem>,
                           spokenY: Option<int>, practiceY: Option<int>)
    requires !(spokenY.Some? && practiceY.Some?)
    requires NoDup(lines) && k < |lines|
    ensures IsSpokenLine(lines, k, items, spokenY, practiceY) <==> k < |lines| - 1
  {
    var idx := IndexOf(lines, lines[k]);
    assert lines[idx] == lines[k];
  }

  /** When every line goes to the spoken list, the practice list stays empty. */
  lemma {:induction false} AllSpokenLeavesPracticeEmpty(dest: seq<bool>, ph: seq<seq<string>>, ch: seq<seq<string>>, n: nat)
    requires |ph| == |dest| && |ch| == |dest| && n <= |dest|
    requires forall k :: 0 <= k < n ==> dest[k]
    ensures Distribute(dest, ph, ch, n).practice == []
  {
    if n > 0 {
      AllSpokenLeavesPracticeEmpty(dest, ph, ch, n - 1);
    }
  }

  /**
   * Without both headers, a last line that repeats an earlier one is looked up
   * at the earlier position, so every line is spoken and nothing is practice.
   */
  lemma RepeatedLastLineLeavesPracticeEmpty(lines: seq<VocabLine>, j: nat, items: seq<TextItem>,
                                            spokenY: Option<int>, practiceY: Option<int>)
    requires !(spokenY.Some? && practiceY.Some?)
    requires j < |lines| - 1 && lines[j] == lines[|lines| - 1]
    ensures Route(lines, items, spokenY, practiceY).practice == []
  {
    var dest := Destinations(lines, items, spokenY, practiceY);
    forall k | 0 <= k < |lines| ensures dest[k] {
      if k == |lines| - 1 {
        IndexOfAtMost(lines, j);
      } else {
        IndexOfAtMost(lines, k);
      }
    }
    AllSpokenLeavesPracticeEmpty(dest, PhraseLists(lines), CharLists(lines), |lines|);
  }

  /** A single vocabulary line without both headers is practice, so the spoken list stays empty. */
  lemma LoneLineLeavesSpokenEmpty(lines: seq<VocabLine>, items: seq<TextItem>,
                                  spokenY: Option<int>, practiceY: Option<int>)
    requires !(spokenY.Some? && practiceY.Some?)
    requires |lines| == 1
    ensures Route(lines, items, spokenY, practiceY).spoken == []
  {
    assert IndexOf(lines, lines[0]) == 0;
    var dest := Destinations(lines, items, spokenY, practiceY);
    var ph, ch := PhraseLists(lines), CharLists(lines);
    assert !dest[0] && Distribute(dest, ph, ch, 0).spoken == [];
    assert Distribute(dest, ph, ch, 1).spoken == [];
  }

  /** With both headers, a line that no item shows is spoken. */
  lemma UnshownLineIsSpoken(lines: seq<VocabLine>, k: nat, items: seq<TextItem>,
                            spokenY: Option<int>, practiceY: Option<int>)
    requires spokenY.Some? && practiceY.Some? && k < |lines|
    requires forall j :: 0 <= j < |items| ==> !Shows(items[j], lines[k])
    ensures IsSpokenLine(lines, k, items, spokenY, practiceY)
  {
    FirstShowingNone(items, lines[k]);
  }
}
