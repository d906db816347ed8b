/**
 * Character classes and string operations shared by the extraction pipeline.
 * Strings are sequences of Unicode code points, as Python 3 `str` values are.
 */
module Text {

  /** A CJK unified ideograph of the basic block, U+4E00..U+9FFF (the regex class `[一-鿿]`). */
  predicate IsCjk(c: char) {
    '\U{4E00}' <= c <= '\U{9FFF}'
  }

  /** An ASCII letter (the regex classes `a-z` and `A-Z`). */
  predicate IsLatin(c: char) {
    'a' <= c <= 'z' || 'A' <= c <= 'Z'
  }

  /** An ASCII decimal digit. */
  predicate IsAsciiDigit(c: char) {
    '0' <= c <= '9'
  }

  /**
   * The regex class `\s` of a `str` pattern, which is also what `str.strip()`
   * removes: the characters for which `str.isspace()` holds.
   */
  predicate IsWhitespace(c: char) {
    ('\U{0009}' <= c <= '\U{000D}') || ('\U{001C}' <= c <= '\U{001F}') || c == ' '
    || c == '\U{0085}' || c == '\U{00A0}' || c == '\U{1680}'
    || ('\U{2000}' <= c <= '\U{200A}') || c == '\U{2028}' || c == '\U{2029}'
    || c == '\U{202F}' || c == '\U{205F}' || c == '\U{3000}'
  }

  predicate AllCjk(s: string) {
    forall i :: 0 <= i < |s| ==> IsCjk(s[i])
  }

  /** Every entry is a non-empty run of CJK characters. */
  predicate AllWords(ws: seq<string>) {
    forall k :: 0 <= k < |ws| ==> ws[k] != [] && AllCjk(ws[k])
  }

  /** Every entry is one or two CJK characters. */
  predicate AllShort(ws: seq<string>) {
    forall k :: 0 <= k < |ws| ==> 1 <= |ws[k]| <= 2 && AllCjk(ws[k])
  }

  lemma AllWordsAppend(a: seq<string>, b: seq<string>)
    requires AllWords(a) && AllWords(b)
    ensures AllWords(a + b)
  {
    forall k | 0 <= k < |a + b| ensures (a + b)[k] != [] && AllCjk((a + b)[k]) {
      if k >= |a| { assert (a + b)[k] == b[k - |a|]; }
    }
  }

  lemma AllShortAppend(a: seq<string>, b: seq<string>)
    requires AllShort(a) && AllShort(b)
    ensures AllShort(a + b)
  {
    forall k | 0 <= k < |a + b| ensures 1 <= |(a + b)[k]| <= 2 && AllCjk((a + b)[k]) {
      if k >= |a| { assert (a + b)[k] == b[k - |a|]; }
    }
  }

  /** `re.sub(r'[^一-鿿]', '', s)`: the CJK characters of `s`, in order. */
  function CjkOnly(s: string): (r: string)
    ensures AllCjk(r) && |r| <= |s|
    ensures AllCjk(s) ==> r == s
  {
    if s == [] then []
    else if IsCjk(s[0]) then [s[0]] + CjkOnly(s[1..])
    else CjkOnly(s[1..])
  }

  /** The filter keeps exactly the CJK characters. */
  lemma {:induction false} CjkOnlyMembers(s: string)
    ensures forall c :: c in CjkOnly(s) <==> c in s && IsCjk(c)
    decreases |s|
  {
    if s != [] {
      CjkOnlyMembers(s[1..]);
      assert s == [s[0]] + s[1..];
    }
  }

  /** The filter works character by character and keeps the order: filtering a concatenation concatenates the filtered parts. */
  lemma {:induction false} CjkOnlyAppend(a: string, b: string)
    ensures CjkOnly(a + b) == CjkOnly(a) + CjkOnly(b)
    decreases |a|
  {
    if a != [] {
      CjkOnlyAppend(a[1..], b);
      assert (a + b)[1..] == a[1..] + b;
    } else {
      assert a + b == b;
    }
  }

  /** `len(re.findall(r'[一-鿿]', s))`. */
  function CjkCount(s: string): (n: nat)
    ensures n == |CjkOnly(s)|
  {
    if s == [] then 0 else (if IsCjk(s[0]) then 1 else 0) + CjkCount(s[1..])
  }

  /** `s.count(c)` for a single character. */
  function CountChar(s: string, c: char): (n: nat)
    ensures n <= |s|
    ensures n == 0 <==> c !in s
    ensures n == multiset(s)[c]
  {
    if s == [] then 0
    else
      assert s == [s[0]] + s[1..];
      (if s[0] == c then 1 else 0) + CountChar(s[1..], c)
  }

  /** Python's `p in s` on strings: `p` occurs in `s` as a contiguous piece. */
  predicate IsSubstring(p: string, s: string)
    decreases |s|
  {
    p <= s || (|s| > 0 && IsSubstring(p, s[1..]))
  }

  /** The recursive definition agrees with "p starts at some offset k of s". */
  lemma {:induction false} SubstringAt(p: string, s: string)
    ensures IsSubstring(p, s) <==> exists k :: 0 <= k <= |s| && p <= s[k..]
    decreases |s|
  {
    if IsSubstring(p, s) {
      if !(p <= s) {
        SubstringAt(p, s[1..]);
        var k :| 0 <= k <= |s[1..]| && p <= s[1..][k..];
        assert s[1..][k..] == s[k + 1..];
      } else {
        assert s[0..] == s;
      }
    } else {
      forall k | 0 <= k <= |s|
        ensures !(p <= s[k..])
      {
        if k == 0 {
          assert s[0..] == s;
        } else {
          SubstringAt(p, s[1..]);
          assert s[1..][k - 1..] == s[k..];
        }
      }
    }
  }

  /** Occurring inside an occurrence is occurring. */
  lemma SubstringTransitive(a: string, b: string, c: string)
    requires IsSubstring(a, b) && IsSubstring(b, c)
    ensures IsSubstring(a, c)
  {
    SubstringAt(a, b);
    SubstringAt(b, c);
    var j :| 0 <= j <= |b| && a <= b[j..];
    var k :| 0 <= k <= |c| && b <= c[k..];
    assert a <= c[k + j..] by {
      forall i | 0 <= i < |a| ensures a[i] == c[k + j + i] {
        assert a[i] == b[j + i] == c[k + j + i];
      }
    }
    SubstringAt(a, c);
  }

  /** A piece `s[i..j]` of `s` occurs in `s`. */
  lemma SliceIsSubstring(s: string, i: nat, j: nat)
    requires i <= j <= |s|
    ensures IsSubstring(s[i..j], s)
  {
    assert s[i..j] <= s[i..];
    SubstringAt(s[i..j], s);
  }

  /** `any(kw in s for kw in keywords)`. */
  predicate ContainsAny(s: string, keywords: seq<string>)
    decreases |keywords|
  {
    keywords != [] && (IsSubstring(keywords[0], s) || ContainsAny(s, keywords[1..]))
  }

  /** Some keyword occurs in `s`. */
  lemma {:induction false} ContainsAnyIsSome(s: string, keywords: seq<string>)
    ensures ContainsAny(s, keywords) <==> exists k :: 0 <= k < |keywords| && IsSubstring(keywords[k], s)
    decreases |keywords|
  {
    if keywords != [] {
      ContainsAnyIsSome(s, keywords[1..]);
      if exists k :: 0 <= k < |keywords| && IsSubstring(keywords[k], s) {
        var k :| 0 <= k < |keywords| && IsSubstring(keywords[k], s);
        if k > 0 {
          assert keywords[1..][k - 1] == keywords[k];
        }
      }
      if ContainsAny(s, keywords[1..]) {
        var k :| 0 <= k < |keywords| - 1 && IsSubstring(keywords[1..][k], s);
        assert IsSubstring(keywords[k + 1], s);
      }
    }
  }

  /**
   * `s.replace(pat, rep)` for a non-empty `pat`: occurrences are found left to
   * right and do not overlap.
   */
  function ReplaceAll(s: string, pat: string, rep: string): (r: string)
    requires |pat| > 0
    ensures |pat| == |rep| ==> |r| == |s|
    ensures AllCjk(s) && AllCjk(rep) ==> AllCjk(r)
    ensures !IsSubstring(pat, s) ==> r == s
    ensures pat <= s ==> rep <= r
    decreases |s|
  {
    if |s| < |pat| then s
    else if pat <= s then rep + ReplaceAll(s[|pat|..], pat, rep)
    else [s[0]] + ReplaceAll(s[1..], pat, rep)
  }

  /** No occurrence of `pat` starts in `s` before position `n`. */
  predicate NoOccurrenceBefore(s: string, pat: string, n: nat) {
    forall k :: 0 <= k < n && k <= |s| ==> !(pat <= s[k..])
  }

  /** At an occurrence, the replacement is emitted and the scan resumes after the pattern. */
  lemma ReplaceAtOccurrence(s: string, pat: string, rep: string)
    requires |pat| > 0 && pat <= s
    ensures ReplaceAll(s, pat, rep) == rep + ReplaceAll(s[|pat|..], pat, rep)
  {
  }

  /** Where no occurrence starts, the character is kept and the scan moves on by one. */
  lemma ReplaceElsewhere(s: string, pat: string, rep: string)
    requires |pat| > 0 && |s| > 0 && !(pat <= s)
    ensures ReplaceAll(s, pat, rep) == [s[0]] + ReplaceAll(s[1..], pat, rep)
  {
    if |s| < |pat| {
      assert ReplaceAll(s[1..], pat, rep) == s[1..];
      assert s == [s[0]] + s[1..];
    }
  }

  /**
   * The leftmost occurrence is replaced: when no occurrence of `pat` starts
   * inside `x`, the text before the first one is kept as it is, the
   * occurrence becomes `rep`, and the replacement carries on after it.
   */
  lemma {:induction false} ReplaceFirstOccurrence(x: string, y: string, pat: string, rep: string)
    requires |pat| > 0 && NoOccurrenceBefore(x + pat + y, pat, |x|)
    ensures ReplaceAll(x + pat + y, pat, rep) == x + rep + ReplaceAll(y, pat, rep)
    decreases |x|
  {
    var s := x + pat + y;
    if x == [] {
      assert s == pat + y && s[|pat|..] == y;
      ReplaceAtOccurrence(s, pat, rep);
    } else {
      var t := x[1..] + pat + y;
      assert s[0..] == s;
      assert s[1..] == t;
      assert NoOccurrenceBefore(t, pat, |x[1..]|) by {
        forall k | 0 <= k < |x[1..]| && k <= |t| ensures !(pat <= t[k..]) {
          assert t[k..] == s[k + 1..];
        }
      }
      calc {
        ReplaceAll(s, pat, rep);
        { ReplaceElsewhere(s, pat, rep); }
        [s[0]] + ReplaceAll(t, pat, rep);
        { ReplaceFirstOccurrence(x[1..], y, pat, rep); }
        [x[0]] + (x[1..] + rep + ReplaceAll(y, pat, rep));
        { assert x == [x[0]] + x[1..]; }
        x + rep + ReplaceAll(y, pat, rep);
      }
    }
  }

  /** The index of the first non-whitespace character of `s` at or after `i` (or `|s|`). */
  function SkipSpace(s: string, i: nat): (r: nat)
    requires i <= |s|
    ensures i <= r <= |s|
    ensures forall k :: i <= k < r ==> IsWhitespace(s[k])
    ensures r == |s| || !IsWhitespace(s[r])
    decreases |s| - i
  {
    if i < |s| && IsWhitespace(s[i]) then SkipSpace(s, i + 1) else i
  }

  /** The end of `s[lo..j]` once its trailing whitespace is dropped. */
  function BackSpace(s: string, lo: nat, j: nat): (r: nat)
    requires lo <= j <= |s|
    ensures lo <= r <= j
    ensures forall k :: r <= k < j ==> IsWhitespace(s[k])
    ensures r == lo || !IsWhitespace(s[r - 1])
    decreases j
  {
    if lo < j && IsWhitespace(s[j - 1]) then BackSpace(s, lo, j - 1) else j
  }

  /** `s.strip()`: the part of `s` between its leading and trailing whitespace. */
  function Strip(s: string): (r: string)
    ensures IsSubstring(r, s)
    ensures r == [] || (!IsWhitespace(r[0]) && !IsWhitespace(r[|r| - 1]))
    ensures r == [] <==> forall i :: 0 <= i < |s| ==> IsWhitespace(s[i])
    ensures exists a, b :: 0 <= a <= b <= |s| && r == s[a..b] &&
                           (forall k :: 0 <= k < a ==> IsWhitespace(s[k])) &&
                           (forall k :: b <= k < |s| ==> IsWhitespace(s[k]))
  {
    var a := SkipSpace(s, 0);
    var b := BackSpace(s, a, |s|);
    SliceIsSubstring(s, a, b);
    StripEmpty(s, a, b);
    s[a..b]
  }

  /**
   * What `strip()` removes is whitespace: what is left starts and ends with
   * a non-space character, and is empty exactly when the text is all whitespace.
   */
  lemma StripEmpty(s: string, a: nat, b: nat)
    requires a == SkipSpace(s, 0) && b == BackSpace(s, a, |s|)
    ensures a <= b <= |s|
    ensures a == b <==> forall i :: 0 <= i < |s| ==> IsWhitespace(s[i])
    ensures a < b ==> !IsWhitespace(s[a..b][0]) && !IsWhitespace(s[a..b][b - a - 1])
  {
    if a < b {
      assert !IsWhitespace(s[a]);
      assert s[a..b][0] == s[a] && s[a..b][b - a - 1] == s[b - 1];
    }
  }
}
