/**
 * Fallback extraction, used when no section header was found: the words of
 * two fixed worksheet lists that occur in the page text, then every other
 * CJK run of two or more characters, the longer runs to the spoken list and
 * the two-character runs to the practice list.
 */
module Fallback {
  import opened Text
  import opened Lists
  import Splitting
  import opened Fragments

  /** The spoken words of the worksheet the parser was written for. */
  const WorksheetSpoken: seq<string> :=
    ["衣服", "小", "大", "长大", "爷爷", "奶奶", "客人", "爸爸", "妈妈", "我", "新年", "大扫除", "拜年", "谢谢"]

  /** The practice words of that worksheet. */
  const WorksheetPractice: seq<string> := ["小", "大", "长大", "人", "吃", "喝", "和"]

  /** Two-character words sent to the spoken list anyway. */
  const SpokenExceptions: seq<string> := ["新年", "客人", "衣服"]

  /** The non-empty entries, in order. */
  function NonEmpty(pieces: seq<string>): (r: seq<string>)
    ensures forall w :: w in r <==> w in pieces && w != []
    decreases |pieces|
  {
    if pieces == [] then []
    else
      var last := pieces[|pieces| - 1];
      NonEmpty(pieces[..|pieces| - 1]) + (if last != [] then [last] else [])
  }

  /** The selection works entry by entry and keeps the order of the pieces. */
  lemma {:induction false} NonEmptyAppend(a: seq<string>, b: seq<string>)
    ensures NonEmpty(a + b) == NonEmpty(a) + NonEmpty(b)
    decreases |b|
  {
    if b == [] {
      assert a + b == a;
    } else {
      var init, last := b[..|b| - 1], b[|b| - 1];
      var tail := if last != [] then [last] else [];
      assert (a + b)[..|a + b| - 1] == a + init && (a + b)[|a + b| - 1] == last;
      calc {
        NonEmpty(a + b);
        NonEmpty(a + init) + tail;
        { NonEmptyAppend(a, init); }
        NonEmpty(a) + NonEmpty(init) + tail;
        NonEmpty(a) + NonEmpty(b);
      }
    }
  }

  /** The maximal runs of CJK characters of `text`, in order (`re.findall` of a CJK run). */
  function CjkRuns(text: string): seq<string> {
    NonEmpty(Splitting.Split(Splitting.NonCjk, text))
  }

  /** Every run is a non-empty CJK piece of the text. */
  lemma RunsAreCjkPieces(text: string)
    ensures forall w :: w in CjkRuns(text) ==> w != [] && AllCjk(w) && IsSubstring(w, text)
  {
    var pieces := Splitting.Split(Splitting.NonCjk, text);
    forall w | w in CjkRuns(text) ensures w != [] && AllCjk(w) && IsSubstring(w, text) {
      var k :| 0 <= k < |pieces| && pieces[k] == w;
      assert Splitting.NoDelim(Splitting.NonCjk, pieces[k]);
    }
  }

  /** `[w for w in words if w in text]`. */
  function Present(words: seq<string>, text: string): (r: seq<string>)
    ensures forall w :: w in r <==> w in words && IsSubstring(w, text)
    ensures NoDup(words) ==> NoDup(r)
    decreases |words|
  {
    if words == [] then []
    else
      var init, last := words[..|words| - 1], words[|words| - 1];
      assert forall w :: w in init ==> w in words;
      assert NoDup(words) ==> NoDup(init) && last !in init;
      Present(init, text) + (if IsSubstring(last, text) then [last] else [])
  }

  /** The entries of `r` are words of `words`, listed in the order of their first positions there. */
  predicate InReferenceOrder(r: seq<string>, words: seq<string>) {
    (forall w :: w in r ==> w in words) &&
    forall i, j :: 0 <= i < j < |r| ==> IndexOf(words, r[i]) < IndexOf(words, r[j])
  }

  /** Appending a new word to the reference keeps an ordered selection ordered, with or without that word. */
  lemma InReferenceOrderSnoc(r: seq<string>, init: seq<string>, last: string)
    requires InReferenceOrder(r, init) && last !in init
    ensures InReferenceOrder(r, init + [last]) && InReferenceOrder(r + [last], init + [last])
  {
    var words := init + [last];
    IndexOfSnoc(init, last);
    assert IndexOf(words, last) == |init|;
    var r2 := r + [last];
    forall i, j | 0 <= i < j < |r2| ensures IndexOf(words, r2[i]) < IndexOf(words, r2[j]) {
      assert r2[i] == r[i] && IndexOf(words, r[i]) == IndexOf(init, r[i]) < |init|;
      if j < |r| {
        assert r2[j] == r[j] && IndexOf(words, r[j]) == IndexOf(init, r[j]);
      }
    }
  }

  /** The found words come out in the order of the reference list. */
  lemma {:induction false} PresentInOrder(words: seq<string>, text: string)
    requires NoDup(words)
    ensures InReferenceOrder(Present(words, text), words)
    decreases |words|
  {
    if words != [] {
      var init, last := words[..|words| - 1], words[|words| - 1];
      assert init + [last] == words;
      assert NoDup(init) && last !in init;
      PresentInOrder(init, text);
      InReferenceOrderSnoc(Present(init, text), init, last);
    }
  }

  /** The selection works word by word and keeps the order of the reference list. */
  lemma {:induction false} PresentAppend(a: seq<string>, b: seq<string>, text: string)
    ensures Present(a + b, text) == Present(a, text) + Present(b, text)
    decreases |b|
  {
    if b == [] {
      assert a + b == a;
    } else {
      var init, last := b[..|b| - 1], b[|b| - 1];
      var tail := if IsSubstring(last, text) then [last] else [];
      assert (a + b)[..|a + b| - 1] == a + init && (a + b)[|a + b| - 1] == last;
      calc {
        Present(a + b, text);
        Present(a + init, text) + tail;
        { PresentAppend(a, init, text); }
        Present(a, text) + Present(init, text) + tail;
        Present(a, text) + Present(b, text);
      }
    }
  }

  /** `[w for w in runs if len(w) >= 2 and w not in spokenFound and w not in practiceFound]`. */
  function Additional(runs: seq<string>, spokenFound: seq<string>, practiceFound: seq<string>): (r: seq<string>)
    ensures forall w :: w in r <==> w in runs && |w| >= 2 && w !in spokenFound && w !in practiceFound
    decreases |runs|
  {
    if runs == [] then []
    else
      var last := runs[|runs| - 1];
      Additional(runs[..|runs| - 1], spokenFound, practiceFound) +
      (if |last| >= 2 && last !in spokenFound && last !in practiceFound then [last] else [])
  }

  lemma AdditionalSnoc(xs: seq<string>, spokenFound: seq<string>, practiceFound: seq<string>)
    requires xs != []
    ensures var last := xs[|xs| - 1];
      Additional(xs, spokenFound, practiceFound) ==
      Additional(xs[..|xs| - 1], spokenFound, practiceFound) +
      (if |last| >= 2 && last !in spokenFound && last !in practiceFound then [last] else [])
  {
  }

  /** The selection works run by run and keeps the order of the runs. */
  lemma {:induction false} AdditionalAppend(a: seq<string>, b: seq<string>, spokenFound: seq<string>, practiceFound: seq<string>)
    ensures Additional(a + b, spokenFound, practiceFound) ==
            Additional(a, spokenFound, practiceFound) + Additional(b, spokenFound, practiceFound)
    decreases |b|
  {
    if b == [] {
      assert a + b == a;
    } else {
      var init, last := b[..|b| - 1], b[|b| - 1];
      var tail := if |last| >= 2 && last !in spokenFound && last !in practiceFound then [last] else [];
      assert (a + b)[..|a + b| - 1] == a + init && (a + b)[|a + b| - 1] == last;
      AdditionalSnoc(b, spokenFound, practiceFound);
      calc {
        Additional(a + b, spokenFound, practiceFound);
        { AdditionalSnoc(a + b, spokenFound, practiceFound); }
        Additional(a + init, spokenFound, practiceFound) + tail;
        { AdditionalAppend(a, init, spokenFound, practiceFound); }
        Additional(a, spokenFound, practiceFound) + Additional(init, spokenFound, practiceFound) + tail;
        Additional(a, spokenFound, practiceFound) + Additional(b, spokenFound, practiceFound);
      }
    }
  }

  /** The test that sends an additional word to the spoken list. */
  predicate GoesSpoken(w: string) {
    |w| >= 3 || w in SpokenExceptions
  }

  /** The additional words sent to the spoken list, in order. */
  function SpokenExtras(ws: seq<string>): (r: seq<string>)
    ensures forall w :: w in r <==> w in ws && GoesSpoken(w)
    decreases |ws|
  {
    if ws == [] then []
    else
      var last := ws[|ws| - 1];
      SpokenExtras(ws[..|ws| - 1]) + (if GoesSpoken(last) then [last] else [])
  }

  /** The spoken selection keeps the order of the additional words. */
  lemma {:induction false} SpokenExtrasAppend(a: seq<string>, b: seq<string>)
    ensures SpokenExtras(a + b) == SpokenExtras(a) + SpokenExtras(b)
    decreases |b|
  {
    if b == [] {
      assert a + b == a;
    } else {
      var init, last := b[..|b| - 1], b[|b| - 1];
      var tail := if GoesSpoken(last) then [last] else [];
      assert (a + b)[..|a + b| - 1] == a + init && (a + b)[|a + b| - 1] == last;
      calc {
        SpokenExtras(a + b);
        SpokenExtras(a + init) + tail;
        { SpokenExtrasAppend(a, init); }
        SpokenExtras(a) + SpokenExtras(init) + tail;
        SpokenExtras(a) + SpokenExtras(b);
      }
    }
  }

  /** The additional words sent to the practice list, in order. */
  function PracticeExtras(ws: seq<string>): (r: seq<string>)
    ensures forall w :: w in r <==> w in ws && !GoesSpoken(w)
    decreases |ws|
  {
    if ws == [] then []
    else
      var last := ws[|ws| - 1];
      PracticeExtras(ws[..|ws| - 1]) + (if !GoesSpoken(last) then [last] else [])
  }

  /** The practice selection keeps the order of the additional words. */
  lemma {:induction false} PracticeExtrasAppend(a: seq<string>, b: seq<string>)
    ensures PracticeExtras(a + b) == PracticeExtras(a) + PracticeExtras(b)
    decreases |b|
  {
    if b == [] {
      assert a + b == a;
    } else {
      var init, last := b[..|b| - 1], b[|b| - 1];
      var tail := if !GoesSpoken(last) then [last] else [];
      assert (a + b)[..|a + b| - 1] == a + init && (a + b)[|a + b| - 1] == last;
      calc {
        PracticeExtras(a + b);
        PracticeExtras(a + init) + tail;
        { PracticeExtrasAppend(a, init); }
        PracticeExtras(a) + PracticeExtras(init) + tail;
        PracticeExtras(a) + PracticeExtras(b);
      }
    }
  }

  /**
   * The fallback lists: each list starts with the worksheet words found in
   * the text, and the additional words of its kind follow, each once.
   */
  function FallbackLists(text: string): Vocab {
    var spokenFound := Present(WorksheetSpoken, text);
    var practiceFound := Present(WorksheetPractice, text);
    var extra := Additional(CjkRuns(text), spokenFound, practiceFound);
    Vocab(AppendNew(spokenFound, SpokenExtras(extra)), AppendNew(practiceFound, PracticeExtras(extra)))
  }

  /** `fallback_vocabulary_extraction(text)`. */
  method FallbackExtraction(text: string) returns (v: Vocab)
    ensures v == FallbackLists(text)
  {
    var spokenFound := Present(WorksheetSpoken, text);
    var practiceFound := Present(WorksheetPractice, text);
    var additional := Additional(CjkRuns(text), spokenFound, practiceFound);
    v := Categorize(spokenFound, practiceFound, additional);
  }

  /** The loop that sends each additional word to one of the two lists, unless it is there already. */
  method Categorize(spokenFound: seq<string>, practiceFound: seq<string>, additional: seq<string>) returns (v: Vocab)
    ensures v.spoken == AppendNew(spokenFound, SpokenExtras(additional))
    ensures v.practice == AppendNew(practiceFound, PracticeExtras(additional))
  {
    var spoken, practice := spokenFound, practiceFound;
    for i := 0 to |additional|
      invariant spoken == AppendNew(spokenFound, SpokenExtras(additional[..i]))
      invariant practice == AppendNew(practiceFound, PracticeExtras(additional[..i]))
    {
      var word := additional[i];
      CategorizeStep(spokenFound, practiceFound, additional, i);
      if |word| >= 3 || word in SpokenExceptions {
        if word !in spoken {
          spoken := spoken + [word];
        }
      } else {
        if word !in practice {
          practice := practice + [word];
        }
      }
    }
    assert additional[..|additional|] == additional;
    v := Vocab(spoken, practice);
  }

  lemma AppendNewSnocOne(acc: seq<string>, xs: seq<string>, x: string)
    ensures AppendNew(acc, xs + [x]) == Add(AppendNew(acc, xs), x)
  {
    assert (xs + [x])[..|xs|] == xs;
  }

  lemma SpokenExtrasSnoc(ws: seq<string>, i: nat)
    requires i < |ws|
    ensures SpokenExtras(ws[..i + 1]) == SpokenExtras(ws[..i]) + (if GoesSpoken(ws[i]) then [ws[i]] else [])
  {
    var seen := ws[..i + 1];
    assert seen[..i] == ws[..i] && seen[i] == ws[i];
  }

  lemma PracticeExtrasSnoc(ws: seq<string>, i: nat)
    requires i < |ws|
    ensures PracticeExtras(ws[..i + 1]) == PracticeExtras(ws[..i]) + (if GoesSpoken(ws[i]) then [] else [ws[i]])
  {
    var seen := ws[..i + 1];
    assert seen[..i] == ws[..i] && seen[i] == ws[i];
  }

  /** One more additional word changes only the list it goes to. */
  lemma CategorizeStep(spokenFound: seq<string>, practiceFound: seq<string>, ws: seq<string>, i: nat)
    requires i < |ws|
    ensures AppendNew(spokenFound, SpokenExtras(ws[..i + 1])) ==
      if GoesSpoken(ws[i]) then Add(AppendNew(spokenFound, SpokenExtras(ws[..i])), ws[i])
      else AppendNew(spokenFound, SpokenExtras(ws[..i]))
    ensures AppendNew(practiceFound, PracticeExtras(ws[..i + 1])) ==
      if GoesSpoken(ws[i]) then AppendNew(practiceFound, PracticeExtras(ws[..i]))
      else Add(AppendNew(practiceFound, PracticeExtras(ws[..i])), ws[i])
  {
    SpokenExtrasSnoc(ws, i);
    PracticeExtrasSnoc(ws, i);
    var se, pe := SpokenExtras(ws[..i]), PracticeExtras(ws[..i]);
    if GoesSpoken(ws[i]) {
      AppendNewSnocOne(spokenFound, se, ws[i]);
      assert pe + [] == pe;
    } else {
      AppendNewSnocOne(practiceFound, pe, ws[i]);
      assert se + [] == se;
    }
  }

  /** The fixed lists hold no repeats. */
  lemma WorksheetDistinct()
    ensures NoDup(WorksheetSpoken) && NoDup(WorksheetPractice)
  {
  }

  /** The fixed lists have the shape of the lists they seed. */
  lemma WorksheetShapes()
    ensures AllWords(WorksheetSpoken) && AllShort(WorksheetPractice)
  {
  }

  /** Every exception is a worksheet spoken word. */
  lemma ExceptionsAreWorksheetWords()
    ensures forall w :: w in SpokenExceptions ==> w in WorksheetSpoken
  {
  }

  /**
   * The exception list never decides anything: every exception is a
   * worksheet spoken word, so when it occurs in the text it is already
   * found and is not an additional word. Additional words go to the spoken
   * list exactly when they have three or more characters.
   */
  lemma ExceptionsNeverApply(text: string, w: string)
    requires w in Additional(CjkRuns(text), Present(WorksheetSpoken, text), Present(WorksheetPractice, text))
    ensures w !in SpokenExceptions
    ensures GoesSpoken(w) <==> |w| >= 3
  {
    RunsAreCjkPieces(text);
    ExceptionsAreWorksheetWords();
  }

  /**
   * Both lists are duplicate-free; spoken entries are CJK words; practice
   * entries are one or two CJK characters.
   */
  lemma FallbackShape(text: string)
    ensures NoDup(FallbackLists(text).spoken) && NoDup(FallbackLists(text).practice)
    ensures AllWords(FallbackLists(text).spoken) && AllShort(FallbackLists(text).practice)
  {
    WorksheetDistinct();
    WorksheetShapes();
    RunsAreCjkPieces(text);
    var v := FallbackLists(text);
    forall k | 0 <= k < |v.spoken| ensures v.spoken[k] != [] && AllCjk(v.spoken[k]) {
      assert v.spoken[k] in v.spoken;
    }
    forall k | 0 <= k < |v.practice| ensures 1 <= |v.practice[k]| <= 2 && AllCjk(v.practice[k]) {
      assert v.practice[k] in v.practice;
    }
  }

  /**
   * Every CJK run of three or more characters ends in the spoken list, and
   * every two-character run in one of the two lists.
   */
  lemma FallbackComplete(text: string, w: string)
    requires w in CjkRuns(text) && |w| >= 2
    ensures |w| >= 3 ==> w in FallbackLists(text).spoken
    ensures w in FallbackLists(text).spoken || w in FallbackLists(text).practice
  {
    var sf, pf := Present(WorksheetSpoken, text), Present(WorksheetPractice, text);
    var extra := Additional(CjkRuns(text), sf, pf);
    if w in pf {
      WorksheetShapes();
      var k :| 0 <= k < |WorksheetPractice| && WorksheetPractice[k] == w;
      assert |w| <= 2;
    } else if w !in sf {
      assert w in extra;
      if GoesSpoken(w) {
        assert w in SpokenExtras(extra);
      } else {
        assert w in PracticeExtras(extra);
      }
    }
  }

  /**
   * Nothing else gets in: a spoken entry is a worksheet spoken word found in
   * the text or a run of three or more characters, and a practice entry is a
   * worksheet practice word found in the text or a two-character run.
   */
  lemma FallbackSound(text: string, w: string)
    ensures w in FallbackLists(text).spoken ==>
      (w in WorksheetSpoken && IsSubstring(w, text)) || (w in CjkRuns(text) && |w| >= 3)
    ensures w in FallbackLists(text).practice ==>
      (w in WorksheetPractice && IsSubstring(w, text)) || (w in CjkRuns(text) && |w| == 2)
  {
    var sf, pf := Present(WorksheetSpoken, text), Present(WorksheetPractice, text);
    if w in Additional(CjkRuns(text), sf, pf) {
      ExceptionsNeverApply(text, w);
    }
  }
}
