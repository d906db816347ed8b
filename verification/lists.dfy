/**
 * Duplicate-free lists in first-seen order. The pipeline builds them in two
 * ways: by the loop "append x unless it is already in the list", and by
 * `list(dict.fromkeys(xs))`. Both are defined here and shown to agree.
 */
module Lists {

  predicate NoDup<T(==, !new)>(s: seq<T>) {
    forall i, j :: 0 <= i < j < |s| ==> s[i] != s[j]
  }

  /** The index of the first occurrence of `x` in `s` (`s.index(x)`). */
  function IndexOf<T(==, !new)>(s: seq<T>, x: T): (k: nat)
    requires x in s
    ensures k < |s| && s[k] == x
    ensures forall j :: 0 <= j < k ==> s[j] != x
  {
    if s[0] == x then 0 else 1 + IndexOf(s[1..], x)
  }

  /** The first occurrence is at or before any occurrence. */
  lemma IndexOfAtMost<T(!new)>(s: seq<T>, j: nat)
    requires j < |s|
    ensures IndexOf(s, s[j]) <= j
  {
  }

  /** `if x not in acc: acc.append(x)`. */
  function Add<T(==, !new)>(acc: seq<T>, x: T): (r: seq<T>)
    ensures acc <= r && x in r
    ensures forall y :: y in r <==> y in acc || y == x
    ensures NoDup(acc) ==> NoDup(r)
  {
    if x in acc then acc else acc + [x]
  }

  /** `for x in xs: if x not in acc: acc.append(x)`, starting from `acc`. */
  function AppendNew<T(==, !new)>(acc: seq<T>, xs: seq<T>): (r: seq<T>)
    ensures acc <= r
    ensures forall y :: y in r <==> y in acc || y in xs
    ensures NoDup(acc) ==> NoDup(r)
    decreases |xs|
  {
    if xs == [] then acc else Add(AppendNew(acc, xs[..|xs| - 1]), xs[|xs| - 1])
  }

  /**
   * `list(dict.fromkeys(s))`: each element at its first occurrence, the later
   * occurrences dropped.
   */
  function KeepFirst<T(==, !new)>(s: seq<T>): (r: seq<T>)
    ensures NoDup(r)
    ensures forall y :: y in r <==> y in s
    decreases |s|
  {
    if s == [] then []
    else
      var init, last := s[..|s| - 1], s[|s| - 1];
      assert init + [last] == s;
      KeepFirst(init) + (if last in init then [] else [last])
  }

  /** The kept elements appear in the order of their first occurrences. */
  lemma {:induction false} KeepFirstOrder<T(!new)>(s: seq<T>)
    ensures forall i, j :: 0 <= i < j < |KeepFirst(s)| ==> IndexOf(s, KeepFirst(s)[i]) < IndexOf(s, KeepFirst(s)[j])
    decreases |s|
  {
    if s != [] {
      var init, last := s[..|s| - 1], s[|s| - 1];
      var r, ri := KeepFirst(s), KeepFirst(init);
      assert init + [last] == s;
      KeepFirstOrder(init);
      IndexOfSnoc(init, last);
      forall i, j | 0 <= i < j < |r| ensures IndexOf(s, r[i]) < IndexOf(s, r[j]) {
        assert r[i] == ri[i] && r[i] in init;
        if j < |ri| {
          assert r[j] == ri[j];
        } else {
          assert r[j] == last && last !in init;
        }
      }
    }
  }

  lemma IndexOfSnoc<T(!new)>(init: seq<T>, last: T)
    ensures forall y :: y in init ==> IndexOf(init + [last], y) == IndexOf(init, y)
  {
    forall y | y in init ensures IndexOf(init + [last], y) == IndexOf(init, y) {
      IndexOfPrefix(init, [last], y);
    }
  }

  lemma {:induction false} IndexOfPrefix<T(!new)>(a: seq<T>, b: seq<T>, x: T)
    requires x in a
    ensures x in a + b && IndexOf(a + b, x) == IndexOf(a, x)
  {
    if a[0] != x {
      assert (a + b)[1..] == a[1..] + b;
      IndexOfPrefix(a[1..], b, x);
    }
  }

  /** On a list that is already duplicate-free, `KeepFirst` changes nothing. */
  lemma {:induction false} KeepFirstOfNoDup<T(!new)>(s: seq<T>)
    requires NoDup(s)
    ensures KeepFirst(s) == s
    decreases |s|
  {
    if s != [] {
      var init := s[..|s| - 1];
      KeepFirstOfNoDup(init);
      assert s[|s| - 1] !in init;
      assert init + [s[|s| - 1]] == s;
    }
  }

  /** `dict.fromkeys` is idempotent. */
  lemma KeepFirstIdempotent<T(!new)>(s: seq<T>)
    ensures KeepFirst(KeepFirst(s)) == KeepFirst(s)
  {
    KeepFirstOfNoDup(KeepFirst(s));
  }

  /**
   * The append-unless-present loop, run from a duplicate-free list, computes
   * the same list as `dict.fromkeys` on the concatenation.
   */
  /** From an empty list, the append-if-absent loop is `dict.fromkeys`. */
  lemma AppendNewFromEmpty<T(!new)>(xs: seq<T>)
    ensures AppendNew([], xs) == KeepFirst(xs)
  {
    AppendNewIsKeepFirst([], xs);
    assert [] + xs == xs;
  }

  lemma {:induction false} AppendNewIsKeepFirst<T(!new)>(acc: seq<T>, xs: seq<T>)
    requires NoDup(acc)
    ensures AppendNew(acc, xs) == KeepFirst(acc + xs)
    decreases |xs|
  {
    if xs == [] {
      assert acc + xs == acc;
      KeepFirstOfNoDup(acc);
    } else {
      var init := xs[..|xs| - 1];
      AppendNewIsKeepFirst(acc, init);
      assert (acc + xs)[..|acc + xs| - 1] == acc + init;
    }
  }

  /** Running the loop over `xs + ys` is running it over `xs`, then over `ys`. */
  lemma {:induction false} AppendNewConcat<T(!new)>(acc: seq<T>, xs: seq<T>, ys: seq<T>)
    ensures AppendNew(acc, xs + ys) == AppendNew(AppendNew(acc, xs), ys)
    decreases |ys|
  {
    if ys == [] {
      assert xs + ys == xs;
    } else {
      var init := ys[..|ys| - 1];
      AppendNewConcat(acc, xs, init);
      assert (xs + ys)[..|xs + ys| - 1] == xs + init;
    }
  }

  /** One more step of the loop. */
  lemma AppendNewSnoc<T(!new)>(acc: seq<T>, xs: seq<T>, k: nat)
    requires k < |xs|
    ensures AppendNew(acc, xs[..k + 1]) == Add(AppendNew(acc, xs[..k]), xs[k])
  {
    assert xs[..k + 1][..k] == xs[..k];
  }

  /** A duplicate-free seed keeps its place at the front of `dict.fromkeys(seed + more)`. */
  lemma SeedStaysInFront<T(!new)>(seed: seq<T>, more: seq<T>)
    requires NoDup(seed)
    ensures seed <= KeepFirst(seed + more)
  {
    AppendNewIsKeepFirst(seed, more);
  }

  /** The loop `for x in xs: if x not in acc: acc.append(x)`, run on a copy of `acc`. */
  method ExtendNew<T(==, !new)>(acc: seq<T>, xs: seq<T>) returns (r: seq<T>)
    ensures r == AppendNew(acc, xs)
    ensures acc <= r && (NoDup(acc) ==> NoDup(r))
  {
    r := acc;
    for i := 0 to |xs|
      invariant r == AppendNew(acc, xs[..i])
    {
      AppendNewSnoc(acc, xs, i);
      if xs[i] !in r {
        r := r + [xs[i]];
      }
    }
    assert xs[..|xs|] == xs;
  }
}
