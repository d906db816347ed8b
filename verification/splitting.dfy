/**
 * The word splitters: `split_vocab_line` and `extract_chinese_phrases_from_text`
 * (phrases kept whole), `extract_chinese_words_from_text` and
 * `split_vocab_line(split_chars=True)` (tokens longer than two characters
 * broken into single characters). Each splits on runs of delimiters, keeps
 * the CJK characters of every piece and appends each new token once.
 */
module Splitting {
  import opened Text
  import opened Lists

  /** The delimiter classes of the three regular expressions the splitters use. */
  datatype Delims =
    | VocabLine  // `[。，、\s;；]+` of split_vocab_line: no full-width colon
    | Extract    // `[，、。：；;\s]+` of the extract_* splitters
    | NonCjk     // everything but CJK: `findall(r'[一-鿿]+')` keeps the runs between

  predicate IsDelim(d: Delims, c: char) {
    match d
    case VocabLine => c == '。' || c == '，' || c == '、' || c == ';' || c == '；' || IsWhitespace(c)
    case Extract => c == '，' || c == '、' || c == '。' || c == '：' || c == '；' || c == ';' || IsWhitespace(c)
    case NonCjk => !IsCjk(c)
  }

  predicate NoDelim(d: Delims, s: string) {
    forall i :: 0 <= i < |s| ==> !IsDelim(d, s[i])
  }

  /** The end of the run of non-delimiters starting at `i`. */
  function PieceEnd(d: Delims, s: string, i: nat): (j: nat)
    requires i <= |s|
    ensures i <= j <= |s|
    ensures forall k :: i <= k < j ==> !IsDelim(d, s[k])
    ensures j == |s| || IsDelim(d, s[j])
    decreases |s| - i
  {
    if i < |s| && !IsDelim(d, s[i]) then PieceEnd(d, s, i + 1) else i
  }

  /** The end of the run of delimiters starting at `i`. */
  function DelimEnd(d: Delims, s: string, i: nat): (j: nat)
    requires i <= |s|
    ensures i <= j <= |s|
    ensures forall k :: i <= k < j ==> IsDelim(d, s[k])
    ensures j == |s| || !IsDelim(d, s[j])
    ensures i < |s| && IsDelim(d, s[i]) ==> i < j
    decreases |s| - i
  {
    if i < |s| && IsDelim(d, s[i]) then DelimEnd(d, s, i + 1) else i
  }

  /** The pieces of `s[i..]`, for a piece that starts at `i`. */
  function SplitFrom(d: Delims, s: string, i: nat): (r: seq<string>)
    requires i <= |s|
    ensures |r| >= 1
    ensures forall k :: 0 <= k < |r| ==> NoDelim(d, r[k]) && IsSubstring(r[k], s)
    ensures forall k :: 0 < k < |r| - 1 ==> r[k] != []
    ensures i < |s| && !IsDelim(d, s[i]) ==> r[0] != []
    ensures i == |s| ==> |r| == 1
    decreases |s| - i
  {
    var j := PieceEnd(d, s, i);
    SliceIsSubstring(s, i, j);
    if j == |s| then [s[i..j]]
    else [s[i..j]] + SplitFrom(d, s, DelimEnd(d, s, j))
  }

  /**
   * `re.split(r'[D]+', s)`: the maximal runs of non-delimiters of `s`, with an
   * empty first (last) piece when `s` starts (ends) with a delimiter.
   */
  function Split(d: Delims, s: string): (r: seq<string>)
    ensures |r| >= 1
    ensures forall k :: 0 <= k < |r| ==> NoDelim(d, r[k]) && IsSubstring(r[k], s)
    ensures forall t :: t in r ==> RunAfterDelim(d, s, 0, t)
  {
    PiecesAreMaximal(d, s, 0);
    SplitFrom(d, s, 0)
  }

  /**
   * `t` is a maximal run of non-delimiters of `s[i..]`: it starts at `i` or
   * right after a delimiter, and it ends at a delimiter or at the end of `s`.
   */
  predicate RunAfterDelim(d: Delims, s: string, i: nat, t: string)
    requires i <= |s|
  {
    exists a :: i <= a <= |s| && t == s[a..PieceEnd(d, s, a)] && (a == i || IsDelim(d, s[a - 1]))
  }

  /** No piece ends before the next delimiter, and none starts in the middle of a run. */
  lemma {:induction false} PiecesAreMaximal(d: Delims, s: string, i: nat)
    requires i <= |s|
    ensures forall t :: t in SplitFrom(d, s, i) ==> RunAfterDelim(d, s, i, t)
    decreases |s| - i
  {
    var j := PieceEnd(d, s, i);
    assert RunAfterDelim(d, s, i, s[i..j]);
    if j < |s| {
      var next := DelimEnd(d, s, j);
      PiecesAreMaximal(d, s, next);
      SplitFromUnfold(d, s, i);
      forall t | t in SplitFrom(d, s, next) ensures RunAfterDelim(d, s, i, t) {
        var a :| next <= a <= |s| && t == s[a..PieceEnd(d, s, a)] && (a == next || IsDelim(d, s[a - 1]));
        assert j < next && IsDelim(d, s[next - 1]);
      }
    }
  }

  /**
   * Every run of non-delimiters that starts a piece position is a piece: the
   * one at `i`, and each one that follows a delimiter and is either non-empty
   * or at the end of `s`.
   */
  lemma {:induction false} RunsArePieces(d: Delims, s: string, i: nat, a: nat)
    requires i <= a <= |s|
    requires a == i || (IsDelim(d, s[a - 1]) && (a == |s| || !IsDelim(d, s[a])))
    ensures s[a..PieceEnd(d, s, a)] in SplitFrom(d, s, i)
    decreases |s| - i
  {
    var j := PieceEnd(d, s, i);
    if a != i {
      assert j <= a - 1;
      var next := DelimEnd(d, s, j);
      SplitFromUnfold(d, s, i);
      assert next <= a;
      RunsArePieces(d, s, next, a);
    }
  }

  /** The non-delimiter characters of `s`, in order. */
  function Kept(d: Delims, s: string): string {
    if s == [] then [] else (if IsDelim(d, s[0]) then [] else [s[0]]) + Kept(d, s[1..])
  }

  function Concat(pieces: seq<string>): string {
    if pieces == [] then [] else pieces[0] + Concat(pieces[1..])
  }

  lemma {:induction false} KeptAppend(d: Delims, a: string, b: string)
    ensures Kept(d, a + b) == Kept(d, a) + Kept(d, b)
  {
    if a != [] {
      var head := if IsDelim(d, a[0]) then [] else [a[0]];
      calc {
        Kept(d, a + b);
        { assert (a + b)[0] == a[0]; assert (a + b)[1..] == a[1..] + b; }
        head + Kept(d, a[1..] + b);
        { KeptAppend(d, a[1..], b); }
        head + (Kept(d, a[1..]) + Kept(d, b));
        (head + Kept(d, a[1..])) + Kept(d, b);
        Kept(d, a) + Kept(d, b);
      }
    } else {
      assert a + b == b;
    }
  }

  lemma {:induction false} KeptNoDelim(d: Delims, s: string)
    requires NoDelim(d, s)
    ensures Kept(d, s) == s
  {
    if s != [] { KeptNoDelim(d, s[1..]); }
  }

  lemma {:induction false} KeptAllDelim(d: Delims, s: string)
    requires forall i :: 0 <= i < |s| ==> IsDelim(d, s[i])
    ensures Kept(d, s) == []
  {
    if s != [] { KeptAllDelim(d, s[1..]); }
  }

  lemma SplitFromUnfold(d: Delims, s: string, i: nat)
    requires i <= |s| && PieceEnd(d, s, i) < |s|
    ensures SplitFrom(d, s, i) == [s[i..PieceEnd(d, s, i)]] + SplitFrom(d, s, DelimEnd(d, s, PieceEnd(d, s, i)))
  {}

  /** A piece followed by a delimiter run: the piece is kept, the run dropped. */
  lemma KeptStep(d: Delims, s: string, i: nat, j: nat, k: nat)
    requires i <= j <= k <= |s|
    requires forall m :: i <= m < j ==> !IsDelim(d, s[m])
    requires forall m :: j <= m < k ==> IsDelim(d, s[m])
    ensures Kept(d, s[i..]) == s[i..j] + Kept(d, s[k..])
  {
    var piece, gap, tail := s[i..j], s[j..k], s[k..];
    calc {
      Kept(d, s[i..]);
      { assert s[i..] == piece + (gap + tail); }
      Kept(d, piece + (gap + tail));
      { KeptAppend(d, piece, gap + tail); }
      Kept(d, piece) + Kept(d, gap + tail);
      { KeptAppend(d, gap, tail); }
      Kept(d, piece) + (Kept(d, gap) + Kept(d, tail));
      { KeptSlice(d, s, i, j, false); KeptSlice(d, s, j, k, true); }
      piece + ([] + Kept(d, tail));
      { assert [] + Kept(d, tail) == Kept(d, tail); }
      piece + Kept(d, tail);
    }
  }

  /** A slice of delimiters only is dropped whole; a slice without any is kept whole. */
  lemma KeptSlice(d: Delims, s: string, i: nat, j: nat, delims: bool)
    requires i <= j <= |s|
    requires forall m :: i <= m < j ==> IsDelim(d, s[m]) == delims
    ensures Kept(d, s[i..j]) == if delims then [] else s[i..j]
  {
    var t := s[i..j];
    forall m | 0 <= m < |t| ensures IsDelim(d, t[m]) == delims {
      assert t[m] == s[i + m];
    }
    if delims { KeptAllDelim(d, t); } else { KeptNoDelim(d, t); }
  }

  /** Splitting loses exactly the delimiters: the pieces put together are `s` without them. */
  lemma {:induction false} SplitKeepsAllButDelims(d: Delims, s: string, i: nat)
    requires i <= |s|
    ensures Concat(SplitFrom(d, s, i)) == Kept(d, s[i..])
    decreases |s| - i
  {
    var j := PieceEnd(d, s, i);
    if j == |s| {
      KeptStep(d, s, i, j, j);
      assert Concat([s[i..j]]) == s[i..j] + Concat([]);
    } else {
      var k := DelimEnd(d, s, j);
      SplitFromUnfold(d, s, i);
      SplitKeepsAllButDelims(d, s, k);
      KeptStep(d, s, i, j, k);
      var all := [s[i..j]] + SplitFrom(d, s, k);
      assert all[0] == s[i..j] && all[1..] == SplitFrom(d, s, k);
    }
  }

  /** A string without delimiters is a single piece. */
  lemma SplitNoDelim(d: Delims, s: string)
    requires NoDelim(d, s)
    ensures Split(d, s) == [s]
  {
    assert PieceEnd(d, s, 0) == |s|;
    assert s[0..|s|] == s;
  }

  /** The CJK characters of each piece, the pieces left empty by that dropped. */
  function Tokens(pieces: seq<string>): (r: seq<string>)
    ensures forall k :: 0 <= k < |r| ==> r[k] != [] && AllCjk(r[k])
    decreases |pieces|
  {
    if pieces == [] then []
    else
      var clean := CjkOnly(pieces[|pieces| - 1]);
      Tokens(pieces[..|pieces| - 1]) + (if clean != [] then [clean] else [])
  }

  lemma TokensSnoc(pieces: seq<string>, i: nat)
    requires i < |pieces|
    ensures Tokens(pieces[..i + 1]) ==
      Tokens(pieces[..i]) + (if CjkOnly(pieces[i]) != [] then [CjkOnly(pieces[i])] else [])
  {
    assert pieces[..i + 1][..i] == pieces[..i];
  }

  /** Every non-empty cleaned piece is a token. */
  lemma {:induction false} TokenOfPiece(pieces: seq<string>, k: nat)
    requires k < |pieces| && CjkOnly(pieces[k]) != []
    ensures CjkOnly(pieces[k]) in Tokens(pieces)
    decreases |pieces|
  {
    if k < |pieces| - 1 {
      var init := pieces[..|pieces| - 1];
      assert init[k] == pieces[k];
      TokenOfPiece(init, k);
    }
  }

  /** Every token is a non-empty cleaned piece. */
  lemma {:induction false} PieceOfToken(pieces: seq<string>, t: string)
    requires t in Tokens(pieces)
    ensures exists k :: 0 <= k < |pieces| && CjkOnly(pieces[k]) == t
    decreases |pieces|
  {
    var init := pieces[..|pieces| - 1];
    if t in Tokens(init) {
      PieceOfToken(init, t);
      var k :| 0 <= k < |init| && CjkOnly(init[k]) == t;
      assert pieces[k] == init[k];
    }
  }

  /** A token longer than two characters as its single characters; a shorter one whole. */
  function Exploded(t: string): (r: seq<string>)
    ensures |t| > 2 ==> |r| == |t| && forall i :: 0 <= i < |t| ==> r[i] == [t[i]]
    ensures |t| <= 2 ==> r == [t]
  {
    if |t| > 2 then seq(|t|, i requires 0 <= i < |t| => [t[i]]) else [t]
  }

  /** `Exploded` applied to every token, in order. */
  function Explode(ts: seq<string>): (r: seq<string>)
    ensures forall k :: 0 <= k < |r| ==> |r[k]| <= 2
    ensures (forall k :: 0 <= k < |ts| ==> ts[k] != [] && AllCjk(ts[k])) ==>
              forall k :: 0 <= k < |r| ==> r[k] != [] && AllCjk(r[k])
    decreases |ts|
  {
    if ts == [] then []
    else
      var init := ts[..|ts| - 1];
      assert forall k :: 0 <= k < |init| ==> init[k] == ts[k];
      Explode(init) + Exploded(ts[|ts| - 1])
  }

  lemma ExplodeSnoc(ts: seq<string>, t: string)
    ensures Explode(ts + [t]) == Explode(ts) + Exploded(t)
  {
    assert (ts + [t])[..|ts|] == ts;
  }

  /** A token of at most two characters is kept whole. */
  lemma {:induction false} ExplodeKeepsShort(ts: seq<string>, t: string)
    requires t in ts && |t| <= 2
    ensures t in Explode(ts)
    decreases |ts|
  {
    if ts[|ts| - 1] != t {
      var init := ts[..|ts| - 1];
      assert ts == init + [ts[|ts| - 1]];
      ExplodeKeepsShort(init, t);
    } else {
      assert Exploded(t) == [t];
    }
  }

  /** Each character of a longer token is an entry of its own. */
  lemma {:induction false} ExplodeBreaksLong(ts: seq<string>, t: string, i: nat)
    requires t in ts && |t| > 2 && i < |t|
    ensures [t[i]] in Explode(ts)
    decreases |ts|
  {
    if ts[|ts| - 1] != t {
      var init := ts[..|ts| - 1];
      assert ts == init + [ts[|ts| - 1]];
      ExplodeBreaksLong(init, t, i);
    } else {
      assert Exploded(t)[i] == [t[i]];
    }
  }

  /** Every entry is a short token or a character of a long one. */
  lemma {:induction false} ExplodeSources(ts: seq<string>, w: string)
    requires w in Explode(ts)
    ensures (w in ts && |w| <= 2) || exists t, i :: t in ts && |t| > 2 && 0 <= i < |t| && w == [t[i]]
    decreases |ts|
  {
    var init := ts[..|ts| - 1];
    var t := ts[|ts| - 1];
    assert ts == init + [t];
    if w in Explode(init) {
      ExplodeSources(init, w);
    } else if |t| > 2 {
      var i :| 0 <= i < |t| && Exploded(t)[i] == w;
    }
  }

  /** What the phrase splitters return: every token once, in first-seen order. */
  function Phrases(d: Delims, text: string): seq<string> {
    AppendNew([], Tokens(Split(d, text)))
  }

  /** What the practice splitters return: long tokens as characters, every entry once. */
  function Characters(d: Delims, text: string): seq<string> {
    AppendNew([], Explode(Tokens(Split(d, text))))
  }

  /** `t` is the CJK part of a piece of `text`, and not empty. */
  predicate IsToken(d: Delims, text: string, t: string) {
    t != [] && exists k :: 0 <= k < |Split(d, text)| && CjkOnly(Split(d, text)[k]) == t
  }

  lemma TokensAreTokens(d: Delims, text: string)
    ensures forall t :: t in Tokens(Split(d, text)) <==> IsToken(d, text, t)
  {
    var pieces := Split(d, text);
    forall t ensures t in Tokens(pieces) <==> IsToken(d, text, t) {
      if t in Tokens(pieces) {
        PieceOfToken(pieces, t);
      }
      if IsToken(d, text, t) {
        var k :| 0 <= k < |pieces| && CjkOnly(pieces[k]) == t;
        TokenOfPiece(pieces, k);
      }
    }
  }

  /**
   * The phrase splitters return each token of `text` exactly once, in the
   * order of first appearance, and nothing else.
   */
  lemma PhrasesFacts(d: Delims, text: string)
    ensures NoDup(Phrases(d, text))
    ensures Phrases(d, text) == KeepFirst(Tokens(Split(d, text)))
    ensures forall k :: 0 <= k < |Phrases(d, text)| ==> Phrases(d, text)[k] != [] && AllCjk(Phrases(d, text)[k])
    ensures forall t :: t in Phrases(d, text) <==> IsToken(d, text, t)
  {
    var ts := Tokens(Split(d, text));
    var r := AppendNew([], ts);
    AppendNewFromEmpty(ts);
    forall k | 0 <= k < |r| ensures r[k] != [] && AllCjk(r[k]) {
      assert r[k] in ts;
    }
    TokensAreTokens(d, text);
  }

  /**
   * The practice splitters return entries of one or two CJK characters, once
   * each, in the order of first appearance.
   */
  lemma CharactersShape(d: Delims, text: string)
    ensures NoDup(Characters(d, text))
    ensures Characters(d, text) == KeepFirst(Explode(Tokens(Split(d, text))))
    ensures forall k :: 0 <= k < |Characters(d, text)| ==>
              1 <= |Characters(d, text)[k]| <= 2 && AllCjk(Characters(d, text)[k])
  {
    var e := Explode(Tokens(Split(d, text)));
    AppendNewFromEmpty(e);
    ShortCjkMembers(Characters(d, text), e);
  }

  lemma ShortCjkMembers(r: seq<string>, e: seq<string>)
    requires forall y :: y in r ==> y in e
    requires forall j :: 0 <= j < |e| ==> 1 <= |e[j]| <= 2 && AllCjk(e[j])
    ensures forall k :: 0 <= k < |r| ==> 1 <= |r[k]| <= 2 && AllCjk(r[k])
  {
    forall k | 0 <= k < |r| ensures 1 <= |r[k]| <= 2 && AllCjk(r[k]) {
      assert r[k] in e;
    }
  }

  /**
   * Every token of at most two characters is a practice entry whole, and
   * every character of a longer token is one on its own.
   */
  lemma CharactersComplete(d: Delims, text: string)
    ensures forall t :: IsToken(d, text, t) && |t| <= 2 ==> t in Characters(d, text)
    ensures forall t, i :: IsToken(d, text, t) && |t| > 2 && 0 <= i < |t| ==> [t[i]] in Characters(d, text)
  {
    var ts := Tokens(Split(d, text));
    var r := Characters(d, text);
    TokensAreTokens(d, text);
    forall t | IsToken(d, text, t) && |t| <= 2 ensures t in r {
      ExplodeKeepsShort(ts, t);
    }
    forall t, i | IsToken(d, text, t) && |t| > 2 && 0 <= i < |t| ensures [t[i]] in r {
      ExplodeBreaksLong(ts, t, i);
    }
  }

  /** A practice entry is a short token, or one character of a longer token, and nothing else. */
  lemma CharactersSound(d: Delims, text: string)
    ensures forall w :: w in Characters(d, text) ==>
              (IsToken(d, text, w) && |w| <= 2)
              || exists t, i :: IsToken(d, text, t) && |t| > 2 && 0 <= i < |t| && w == [t[i]]
  {
    var ts := Tokens(Split(d, text));
    var r := Characters(d, text);
    TokensAreTokens(d, text);
    forall w | w in r
      ensures (IsToken(d, text, w) && |w| <= 2)
              || exists t, i :: IsToken(d, text, t) && |t| > 2 && 0 <= i < |t| && w == [t[i]]
    {
      ExplodeSources(ts, w);
    }
  }

  /** What one piece contributes, before the duplicate check. */
  function PieceEntries(piece: string, splitChars: bool): seq<string> {
    var clean := CjkOnly(piece);
    if clean == [] then [] else if splitChars then Exploded(clean) else [clean]
  }

  /** The entries of all pieces, before the duplicate check. */
  function Entries(pieces: seq<string>, splitChars: bool): seq<string> {
    if splitChars then Explode(Tokens(pieces)) else Tokens(pieces)
  }

  lemma EntriesSnoc(pieces: seq<string>, i: nat, splitChars: bool)
    requires i < |pieces|
    ensures Entries(pieces[..i + 1], splitChars) == Entries(pieces[..i], splitChars) + PieceEntries(pieces[i], splitChars)
  {
    TokensSnoc(pieces, i);
    var clean := CjkOnly(pieces[i]);
    if clean != [] {
      ExplodeSnoc(Tokens(pieces[..i]), clean);
    } else {
      assert Tokens(pieces[..i]) + [] == Tokens(pieces[..i]);
    }
  }

  /** The inner loop of the practice splitters: each character of `clean`, unless already present. */
  method AddCharacters(words0: seq<string>, clean: string) returns (words: seq<string>)
    requires |clean| > 2
    ensures words == AppendNew(words0, Exploded(clean))
  {
    words := words0;
    for k := 0 to |clean|
      invariant words == AppendNew(words0, Exploded(clean)[..k])
    {
      AppendNewSnoc(words0, Exploded(clean), k);
      assert Exploded(clean)[k] == [clean[k]];
      if [clean[k]] !in words {
        words := words + [[clean[k]]];
      }
    }
    assert Exploded(clean)[..|clean|] == Exploded(clean);
  }

  /**
   * The loop shared by the three splitters: for each piece, keep its CJK
   * characters; append the token (or, when `splitChars` holds and it is longer
   * than two, each of its characters) unless it is already in the list.
   */
  method CollectWords(pieces: seq<string>, splitChars: bool) returns (words: seq<string>)
    ensures words == AppendNew([], Entries(pieces, splitChars))
  {
    words := [];
    for i := 0 to |pieces|
      invariant words == Collected(pieces, splitChars, i)
    {
      words := AddPiece(words, pieces[i], splitChars);
    }
    CollectedAll(pieces, splitChars);
  }

  lemma CollectedAll(pieces: seq<string>, splitChars: bool)
    ensures Collected(pieces, splitChars, |pieces|) == AppendNew([], Entries(pieces, splitChars))
  {
    CollectedIsAppendNew(pieces, splitChars, |pieces|);
    assert pieces[..|pieces|] == pieces;
  }

  /** The list after the first `n` pieces. */
  function Collected(pieces: seq<string>, splitChars: bool, n: nat): seq<string>
    requires n <= |pieces|
  {
    if n == 0 then [] else AppendNew(Collected(pieces, splitChars, n - 1), PieceEntries(pieces[n - 1], splitChars))
  }

  lemma {:induction false} CollectedIsAppendNew(pieces: seq<string>, splitChars: bool, n: nat)
    requires n <= |pieces|
    ensures Collected(pieces, splitChars, n) == AppendNew([], Entries(pieces[..n], splitChars))
  {
    if n == 0 {
      CollectedNone(pieces, splitChars);
    } else {
      CollectedIsAppendNew(pieces, splitChars, n - 1);
      CollectedStep(pieces, splitChars, n);
    }
  }

  lemma CollectedNone(pieces: seq<string>, splitChars: bool)
    ensures Collected(pieces, splitChars, 0) == AppendNew([], Entries(pieces[..0], splitChars))
  {
    assert pieces[..0] == [];
    assert Entries([], splitChars) == [];
  }

  lemma CollectedStep(pieces: seq<string>, splitChars: bool, n: nat)
    requires 0 < n <= |pieces|
    requires Collected(pieces, splitChars, n - 1) == AppendNew([], Entries(pieces[..n - 1], splitChars))
    ensures Collected(pieces, splitChars, n) == AppendNew([], Entries(pieces[..n], splitChars))
  {
    CollectNext(pieces, n - 1, splitChars);
  }

  lemma CollectNext(pieces: seq<string>, i: nat, splitChars: bool)
    requires i < |pieces|
    ensures AppendNew([], Entries(pieces[..i + 1], splitChars))
         == AppendNew(AppendNew([], Entries(pieces[..i], splitChars)), PieceEntries(pieces[i], splitChars))
  {
    EntriesSnoc(pieces, i, splitChars);
    AppendNewConcat([], Entries(pieces[..i], splitChars), PieceEntries(pieces[i], splitChars));
  }

  /** The body of the splitters' loop for one piece. */
  method AddPiece(before: seq<string>, piece: string, splitChars: bool) returns (words: seq<string>)
    ensures words == AppendNew(before, PieceEntries(piece, splitChars))
  {
    words := before;
    var clean := CjkOnly(piece);
    if clean != [] {
      if splitChars && |clean| > 2 {
        words := AddCharacters(words, clean);
      } else {
        AppendNewSnoc(before, [clean], 0);
        assert [clean][..1] == [clean];
        if clean !in words {
          words := words + [clean];
        }
      }
    }
  }

  /** `split_vocab_line(text, split_chars)`. */
  method SplitVocabLine(text: string, splitChars: bool) returns (words: seq<string>)
    ensures !splitChars ==> words == Phrases(VocabLine, text)
    ensures splitChars ==> words == Characters(VocabLine, text)
    ensures NoDup(words)
    ensures forall k :: 0 <= k < |words| ==> words[k] != [] && AllCjk(words[k])
    ensures splitChars ==> forall k :: 0 <= k < |words| ==> |words[k]| <= 2
  {
    words := CollectWords(Split(VocabLine, text), splitChars);
    PhrasesFacts(VocabLine, text);
    CharactersShape(VocabLine, text);
  }

  /** `extract_chinese_phrases_from_text(text)`. */
  method ExtractChinesePhrases(text: string) returns (phrases: seq<string>)
    ensures phrases == Phrases(Extract, text)
    ensures NoDup(phrases)
    ensures forall t :: t in phrases <==> IsToken(Extract, text, t)
  {
    phrases := CollectWords(Split(Extract, text), false);
    PhrasesFacts(Extract, text);
  }

  /** `extract_chinese_words_from_text(text)`. */
  method ExtractChineseWords(text: string) returns (words: seq<string>)
    ensures words == Characters(Extract, text)
    ensures NoDup(words)
    ensures forall k :: 0 <= k < |words| ==> 1 <= |words[k]| <= 2 && AllCjk(words[k])
    ensures forall t :: IsToken(Extract, text, t) && |t| <= 2 ==> t in words
  {
    words := CollectWords(Split(Extract, text), true);
    CharactersShape(Extract, text);
    CharactersComplete(Extract, text);
  }
}
