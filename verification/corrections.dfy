/**
 * The correction pass `apply_ocr_corrections`: a fixed table of known OCR
 * misreads is applied to every entry by substring replacement, and the list
 * is then deduplicated in first-seen order.
 */
module Corrections {
  import opened Text
  import opened Lists

  /** `OCR_CORRECTIONS`: one entry, the misread 眼晴 ("eye" with 晴 for 睛) mapped to 眼睛. */
  const OcrCorrections: seq<(string, string)> := [("眼晴", "眼睛")]

  predicate WellFormedTable(table: seq<(string, string)>) {
    forall k :: 0 <= k < |table| ==> |table[k].0| > 0 && |table[k].0| == |table[k].1| && AllCjk(table[k].1)
  }

  /** `for wrong, right in table: word = word.replace(wrong, right)`. */
  function ApplyTable(word: string, table: seq<(string, string)>): (r: string)
    requires WellFormedTable(table)
    ensures |r| == |word|
    ensures AllCjk(word) ==> AllCjk(r)
    decreases |table|
  {
    if table == [] then word else ApplyTable(ReplaceAll(word, table[0].0, table[0].1), table[1..])
  }

  /** One entry after the correction table. */
  function Correct(word: string): string {
    ApplyTable(word, OcrCorrections)
  }

  /** A non-empty string has its first character at the front of its replacement, as 眼睛 starts like 眼晴. */
  lemma {:induction false} ReplaceKeepsFirst(s: string)
    requires |s| > 0
    ensures |ReplaceAll(s, "眼晴", "眼睛")| > 0 && ReplaceAll(s, "眼晴", "眼睛")[0] == s[0]
  {
  }

  lemma {:induction false} ShorterHasNoOccurrence(p: string, t: string)
    requires |t| < |p|
    ensures !IsSubstring(p, t)
    decreases |t|
  {
    if |t| > 0 { ShorterHasNoOccurrence(p, t[1..]); }
  }

  /** After the replacement no 眼晴 is left, even across the boundary of a replaced piece. */
  lemma {:induction false} NoMisreadAfterReplace(s: string)
    ensures !IsSubstring("眼晴", ReplaceAll(s, "眼晴", "眼睛"))
    decreases |s|
  {
    var pat, rep := "眼晴", "眼睛";
    var r := ReplaceAll(s, pat, rep);
    if |s| < |pat| {
      ShorterHasNoOccurrence(pat, s);
    } else if pat <= s {
      var rest := ReplaceAll(s[2..], pat, rep);
      NoMisreadAfterReplace(s[2..]);
      assert r == rep + rest;
      assert r[1] == '睛' && !(pat <= r);
      assert r[1..][0] == '睛' && !(pat <= r[1..]);
      assert r[1..][1..] == rest;
      assert !IsSubstring(pat, r[1..]);
    } else {
      var rest := ReplaceAll(s[1..], pat, rep);
      NoMisreadAfterReplace(s[1..]);
      ReplaceKeepsFirst(s[1..]);
      assert r == [s[0]] + rest;
      assert r[1..] == rest;
    }
  }

  /** The leftmost misread becomes 眼睛; the text before it is kept and the text after it is corrected in turn. */
  lemma CorrectFixesMisread(x: string, y: string)
    requires NoOccurrenceBefore(x + "眼晴" + y, "眼晴", |x|)
    ensures Correct(x + "眼晴" + y) == x + "眼睛" + Correct(y)
  {
    ReplaceFirstOccurrence(x, y, "眼晴", "眼睛");
  }

  /** The misread the table exists for is corrected. */
  lemma MisreadIsFixed()
    ensures Correct("眼晴") == "眼睛"
  {
  }

  /** A corrected entry holds no misread, and correcting it again changes nothing. */
  lemma CorrectFacts(word: string)
    ensures !IsSubstring("眼晴", Correct(word))
    ensures Correct(Correct(word)) == Correct(word)
  {
    NoMisreadAfterReplace(word);
  }

  function CorrectEach(words: seq<string>): (r: seq<string>)
    ensures |r| == |words| && forall k :: 0 <= k < |words| ==> r[k] == Correct(words[k])
  {
    if words == [] then []
    else CorrectEach(words[..|words| - 1]) + [Correct(words[|words| - 1])]
  }

  /** What `apply_ocr_corrections` returns. */
  function Corrected(words: seq<string>): seq<string> {
    AppendNew([], CorrectEach(words))
  }

  /**
   * The pass yields a duplicate-free list in first-seen order with no 眼晴 in
   * any entry.
   */
  lemma CorrectedFacts(words: seq<string>)
    ensures NoDup(Corrected(words))
    ensures Corrected(words) == KeepFirst(CorrectEach(words))
    ensures forall w :: w in Corrected(words) ==> !IsSubstring("眼晴", w)
  {
    var each := CorrectEach(words);
    AppendNewFromEmpty(each);
    forall k | 0 <= k < |each| ensures !IsSubstring("眼晴", each[k]) {
      NoMisreadInCorrect(words[k]);
    }
  }

  lemma NoMisreadInCorrect(word: string)
    ensures !IsSubstring("眼晴", Correct(word))
  {
    NoMisreadAfterReplace(word);
    assert Correct(word) == ReplaceAll(word, "眼晴", "眼睛");
  }

  /** Each input entry is in the result in corrected form, and nothing else is. */
  lemma CorrectedMembers(words: seq<string>, w: string)
    ensures w in Corrected(words) <==> exists k :: 0 <= k < |words| && w == Correct(words[k])
  {
    var each := CorrectEach(words);
    if w in Corrected(words) {
      var k :| 0 <= k < |each| && each[k] == w;
      assert w == Correct(words[k]);
    }
    if exists k :: 0 <= k < |words| && w == Correct(words[k]) {
      var k :| 0 <= k < |words| && w == Correct(words[k]);
      assert each[k] == w;
    }
  }

  /** Applying the pass twice gives the same result as applying it once. */
  lemma CorrectedIdempotent(words: seq<string>)
    ensures Corrected(Corrected(words)) == Corrected(words)
  {
    var each := CorrectEach(words);
    var once := AppendNew([], each);
    forall k | 0 <= k < |once| ensures Correct(once[k]) == once[k] {
      assert once[k] in each;
      var j :| 0 <= j < |each| && each[j] == once[k];
      CorrectFacts(words[j]);
    }
    assert CorrectEach(once) == once;
    calc {
      Corrected(once);
      AppendNew([], once);
      { AppendNewFromEmpty(once); }
      KeepFirst(once);
      { KeepFirstOfNoDup(once); }
      once;
    }
  }

  /** Correction keeps a list of CJK words a list of CJK words. */
  lemma CorrectedKeepsWords(words: seq<string>)
    requires AllWords(words)
    ensures AllWords(Corrected(words))
  {
    var r := Corrected(words);
    forall k | 0 <= k < |r| ensures r[k] != [] && AllCjk(r[k]) {
      assert r[k] in CorrectEach(words);
    }
  }

  /** Correction keeps entries of one or two CJK characters so. */
  lemma CorrectedKeepsShort(words: seq<string>)
    requires AllShort(words)
    ensures AllShort(Corrected(words))
  {
    var r := Corrected(words);
    forall k | 0 <= k < |r| ensures 1 <= |r[k]| <= 2 && AllCjk(r[k]) {
      assert r[k] in CorrectEach(words);
    }
  }

  /** The inner loop of `apply_ocr_corrections`: every table entry replaced in turn. */
  method CorrectWord(word: string) returns (r: string)
    ensures r == Correct(word)
    ensures !IsSubstring("眼晴", r)
  {
    r := word;
    for t := 0 to |OcrCorrections|
      invariant ApplyTable(r, OcrCorrections[t..]) == Correct(word)
    {
      r := ReplaceAll(r, OcrCorrections[t].0, OcrCorrections[t].1);
      assert OcrCorrections[t..][1..] == OcrCorrections[t + 1..];
    }
    NoMisreadInCorrect(word);
  }

  /** `apply_ocr_corrections(vocab_list)`. */
  method ApplyOcrCorrections(vocab: seq<string>) returns (corrected: seq<string>)
    ensures corrected == Corrected(vocab)
    ensures NoDup(corrected)
    ensures forall w :: w in corrected ==> !IsSubstring("眼晴", w)
  {
    corrected := [];
    for i := 0 to |vocab|
      invariant corrected == Corrected(vocab[..i])
    {
      var word := CorrectWord(vocab[i]);
      CorrectedNext(vocab, i);
      if word !in corrected {
        corrected := corrected + [word];
      }
    }
    assert vocab[..|vocab|] == vocab;
    CorrectedFacts(vocab);
  }

  /** One more word adds its correction to the list unless it is already there. */
  lemma CorrectedNext(vocab: seq<string>, i: nat)
    requires i < |vocab|
    ensures Corrected(vocab[..i + 1]) == Add(Corrected(vocab[..i]), Correct(vocab[i]))
  {
    assert vocab[..i + 1][..i] == vocab[..i];
    AppendNewSnoc([], CorrectEach(vocab[..i + 1]), i);
    assert CorrectEach(vocab[..i + 1])[..i] == CorrectEach(vocab[..i]);
  }
}
