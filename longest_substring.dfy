/** The longest substring without repeated characters
    (`find_longest_substring` in python_utils/utils.py): a single left-to-right
    sliding-window scan that remembers, in the dictionary `used`, the last
    index at which each character was seen. */
module LongestSubstring {

  /** The slice of `s` of length `len` starting at `start` lies inside `s`
      and holds no character twice. */
  ghost predicate Distinct(s: string, start: int, len: int) {
    && 0 <= start && 0 <= len && start + len <= |s|
    && forall p, q :: start <= p < q < start + len ==> s[p] != s[q]
  }

  /** No character of `t` occurs twice in it. */
  ghost predicate AllDistinct(t: string) {
    Distinct(t, 0, |t|)
  }

  /** `s[start..start + len]` is all-distinct, no all-distinct slice of `s` is
      longer, and no all-distinct slice of the same length starts earlier. */
  ghost predicate LeftmostLongest(s: string, start: int, len: int) {
    && Distinct(s, start, len)
    && (forall a, n :: Distinct(s, a, n) ==> n <= len)
    && (forall a :: 0 <= a < start ==> !Distinct(s, a, len))
  }

  /** `used` maps every character of `s[..i]`, and only those, to the last
      index below `i` at which it occurs. */
  ghost predicate LastSeen(s: string, used: map<char, nat>, i: int) {
    && 0 <= i <= |s|
    && (forall c :: c in used ==> used[c] < i && s[used[c]] == c)
    && (forall p :: 0 <= p < i ==> s[p] in used && p <= used[s[p]])
  }

  /** The window `s[start..i]` is all-distinct and cannot be extended to the
      left: the character just before it occurs again inside it. */
  ghost predicate Window(s: string, start: int, i: int) {
    && 0 <= start <= i <= |s|
    && Distinct(s, start, i - start)
    && (start > 0 ==> exists p :: start <= p < i && s[p] == s[start - 1])
  }

  /** `s[best..best + len]` is the leftmost longest all-distinct slice among
      those that end at or before `i`. */
  ghost predicate BestUpTo(s: string, best: int, len: int, i: int) {
    && Distinct(s, best, len) && best + len <= i
    && (forall a, n :: Distinct(s, a, n) && a + n <= i ==> n <= len)
    && (forall a :: 0 <= a < best ==> !Distinct(s, a, len))
  }

  /** The loop invariant of the scan after the first `i` characters. */
  ghost predicate Scanned(s: string, used: map<char, nat>, start: int, best: int, len: int, i: int) {
    LastSeen(s, used, i) && Window(s, start, i) && BestUpTo(s, best, len, i)
  }

  /** `find_longest_substring`. The window is `s[start..i]`; `maxLen` and
      `substrStart` record the best window found so far, replaced only on a
      strict improvement. */
  method FindLongestSubstring(s: string) returns (r: string)
    ensures AllDistinct(r)
    ensures exists k :: LeftmostLongest(s, k, |r|) && r == s[k..k + |r|]
  {
    var used: map<char, nat> := map[];
    var start, maxLen, substrStart := 0, 0, 0;
    for i := 0 to |s|
      invariant Scanned(s, used, start, substrStart, maxLen, i)
    {
      var c := s[i];
      var start', maxLen', substrStart' := start, maxLen, substrStart;
      if c in used && start <= used[c] {
        start' := used[c] + 1;
      } else {
        if i - start + 1 > maxLen {
          maxLen' := i - start + 1;
          substrStart' := start;
        }
      }
      ScanStep(s, used, start, substrStart, maxLen, i, start', substrStart', maxLen');
      used := used[c := i];
      start, maxLen, substrStart := start', maxLen', substrStart';
    }
    r := s[substrStart..substrStart + maxLen];
    BestIsLeftmostLongest(s, substrStart, maxLen, r);
  }

  /** One iteration of the scan keeps its invariant. */
  lemma ScanStep(s: string, used: map<char, nat>, start: int, best: int, len: int, i: int,
                 start': int, best': int, len': int)
    requires Scanned(s, used, start, best, len, i) && i < |s|
    requires start' == (if s[i] in used && start <= used[s[i]] then used[s[i]] + 1 else start)
    requires !(s[i] in used && start <= used[s[i]]) && i + 1 - start > len ==> best' == start && len' == i + 1 - start
    requires (s[i] in used && start <= used[s[i]]) || i + 1 - start <= len ==> best' == best && len' == len
    ensures Scanned(s, used[s[i] := i], start', best', len', i + 1)
  {
    LastSeenStep(s, used, i);
    if s[i] in used && start <= used[s[i]] {
      RepeatStep(s, used, start, i, best, len);
    } else {
      FreshStep(s, used, start, i, best, len);
    }
  }

  /** Once the scan has reached the end of `s`, the best slice found is the
      leftmost longest one. */
  lemma BestIsLeftmostLongest(s: string, best: int, len: int, r: string)
    requires BestUpTo(s, best, len, |s|)
    requires r == s[best..best + len]
    ensures AllDistinct(r)
    ensures exists k :: LeftmostLongest(s, k, |r|) && r == s[k..k + |r|]
  {
    forall p, q | 0 <= p < q < |r| ensures r[p] != r[q] {
      assert r[p] == s[best + p] && r[q] == s[best + q];
    }
    assert LeftmostLongest(s, best, |r|);
  }

  /** Recording `s[i]` at index `i` keeps `used` up to date. */
  lemma LastSeenStep(s: string, used: map<char, nat>, i: int)
    requires LastSeen(s, used, i) && i < |s|
    ensures LastSeen(s, used[s[i] := i], i + 1)
  {
  }

  /** `s[i]` was last seen inside the window: the window restarts just after
      that index, and the best slice is unchanged. */
  lemma RepeatStep(s: string, used: map<char, nat>, start: int, i: int, best: int, len: int)
    requires LastSeen(s, used, i) && Window(s, start, i) && BestUpTo(s, best, len, i)
    requires i < |s| && s[i] in used && start <= used[s[i]]
    ensures Window(s, used[s[i]] + 1, i + 1)
    ensures BestUpTo(s, best, len, i + 1)
  {
    var u := used[s[i]];
    assert forall p :: u < p < i ==> s[p] != s[i];
    forall a, n | Distinct(s, a, n) && a + n == i + 1
      ensures n <= len
    {
      assert s[u] == s[a + n - 1];
      assert Distinct(s, start, i - start);
    }
  }

  /** `s[i]` does not occur in the window: the window grows by one, and it
      becomes the best slice exactly when it is strictly longer. */
  lemma FreshStep(s: string, used: map<char, nat>, start: int, i: int, best: int, len: int)
    requires LastSeen(s, used, i) && Window(s, start, i) && BestUpTo(s, best, len, i)
    requires i < |s| && !(s[i] in used && start <= used[s[i]])
    ensures Window(s, start, i + 1)
    ensures i + 1 - start > len ==> BestUpTo(s, start, i + 1 - start, i + 1)
    ensures i + 1 - start <= len ==> BestUpTo(s, best, len, i + 1)
  {
    assert forall p :: start <= p < i ==> s[p] != s[i];
    assert Window(s, start, i + 1);
  }

  /** The contract of `FindLongestSubstring` determines its result. */
  lemma {:induction false} LeftmostLongestUnique(s: string, k1: int, n1: int, k2: int, n2: int)
    requires LeftmostLongest(s, k1, n1) && LeftmostLongest(s, k2, n2)
    ensures k1 == k2 && n1 == n2
  {
    assert n1 <= n2 && n2 <= n1;
  }

  /** For a non-empty string of one repeated character the result is its first
      character alone. */
  lemma {:induction false} RepeatedCharacter(s: string)
    requires s != [] && forall p :: 0 <= p < |s| ==> s[p] == s[0]
    ensures LeftmostLongest(s, 0, 1)
  {
    forall a, n | Distinct(s, a, n)
      ensures n <= 1
    {
      assert a + 1 < |s| ==> s[a] == s[a + 1];
    }
  }

  /** The empty string has only the empty result. */
  lemma EmptyString(s: string, k: int, n: int)
    requires s == [] && LeftmostLongest(s, k, n)
    ensures k == 0 && n == 0
  {
  }

  /** `"abcabcbb"` gives `"abc"`. */
  lemma AbcExample()
    ensures LeftmostLongest("abcabcbb", 0, 3) && "abcabcbb"[0..3] == "abc"
  {
    var s := "abcabcbb";
    forall a, n | 0 <= a && 3 < n && a + n <= |s|
      ensures !Distinct(s, a, n)
    {
      var p := if a <= 2 then a else 4;
      assert a <= p < p + 2 < a + n;
      assert s[p] == s[if a <= 2 then a + 3 else 6];
    }
  }
}
